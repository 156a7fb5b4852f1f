/** The node's lifecycle under every interleaving of Run, Serve's handoff
    callback, Close and ForceStop (server/server.go, server/shutdown.go).

    The fields behind the lifecycle mutex are `Guarded`; each critical section
    is a function on it, and class Server holds the sections as the source has
    them. Module NodeProtocol interleaves the sections with the channel
    operations and the stages of the shutdown sequence, one atomic step each. */
module Lifecycle {
  import opened Outcomes

  datatype NodeState = Inert | Starting | Running | Stopping | Closed
  {
    function Order(): nat {
      match this
      case Inert => 0 case Starting => 1 case Running => 2 case Stopping => 3 case Closed => 4
    }
  }

  /** `ran` is a run that has begun (runDone exists), `runOver` a run that has
      released its waiters (runDone closed). */
  datatype Guarded = Guarded(
    state: NodeState, ran: bool, runOver: bool, listener: bool, httpServing: bool, ready: bool)

  const INERT := Guarded(Inert, false, false, false, false, false)

  datatype RunError = ServerClosed | AlreadyRun

  function BeginRun(g: Guarded): Result<Guarded, RunError> {
    if g.state.Closed? then Err(ServerClosed)
    else if !g.state.Inert? then Err(AlreadyRun)
    else Ok(g.(state := Starting, ran := true))
  }

  function Bind(g: Guarded): Guarded { g.(listener := true) }

  predicate AcceptsHandoff(g: Guarded, ctxEnded: bool) { g.state.Starting? && !ctxEnded && g.listener }

  function Handoff(g: Guarded, ctxEnded: bool): Guarded {
    if AcceptsHandoff(g, ctxEnded) then g.(listener := false, httpServing := true) else g
  }

  predicate Publishes(g: Guarded, ctxEnded: bool) { g.state.Starting? && !ctxEnded && g.httpServing }

  function PublishReady(g: Guarded, ctxEnded: bool): Guarded {
    if Publishes(g, ctxEnded) then g.(ready := true, state := Running) else g
  }

  function SetUnready(g: Guarded): Guarded { g.(ready := false) }

  function CloseSection(g: Guarded): Guarded {
    if g.state.Closed? then g else g.(state := if g.ran then Stopping else Closed)
  }

  function BeginStopping(g: Guarded): Guarded {
    if g.state.Closed? then g else g.(state := Stopping)
  }

  function ReleaseListener(g: Guarded): Guarded { g.(listener := false) }

  function EndRun(g: Guarded): Guarded { g.(state := Closed, runOver := true) }

  predicate Halting(state: NodeState) { state.Stopping? || state.Closed? }

  /** What the guarded fields keep: a node that never ran has nothing, a run that
      is over has closed the node, the listener has one owner, and a node is
      ready only once it runs with HTTP serving. */
  predicate Sound(g: Guarded) {
    && (if g.ran then !g.state.Inert? else g == INERT || g == INERT.(state := Closed))
    && (g.runOver ==> g.ran && g.state.Closed?)
    && !(g.listener && g.httpServing)
    && (g.ready ==> g.httpServing && !g.state.Starting?)
    && (g.state.Running? ==> g.httpServing)
  }

  /** The Server's and HTTP's claims to the listener. */
  function Owners(g: Guarded): nat { (if g.listener then 1 else 0) + if g.httpServing then 1 else 0 }

  /** Nothing is handed over and nothing published any more. */
  ghost predicate Refuses(g: Guarded) { forall ctxEnded :: !AcceptsHandoff(g, ctxEnded) && !Publishes(g, ctxEnded) }

  /** The lifecycle fields and their critical sections. */
  class Server {
    var state: NodeState
    var runDone: Option<bool>
    var listener: bool
    var httpServing: bool
    var ready: bool

    ghost function View(): Guarded reads this {
      Guarded(state, runDone.Some?, runDone == Some(true), listener, httpServing, ready)
    }

    ghost predicate Valid() reads this { Sound(View()) }

    constructor ()
      ensures Valid() && View() == INERT
    {
      state, runDone, listener, httpServing, ready := Inert, None, false, false, false;
    }

    /** A Server runs once: a second Run is told so, unless the node is closed. */
    method BeginRunSection() returns (failure: Option<RunError>)
      requires Valid()
      modifies this
      ensures Valid() && View() == if failure.None? then old(View()).(state := Starting, ran := true) else old(View())
      ensures failure.None? <==> !old(View()).ran && !old(state).Closed?
      ensures failure == Some(AlreadyRun) <==> old(View()).ran && !old(state).Closed?
      ensures BeginRun(old(View())) == if failure.None? then Ok(View()) else Err(failure.value)
    {
      if state.Closed? { return Some(ServerClosed); }
      if !state.Inert? { return Some(AlreadyRun); }
      state, runDone := Starting, Some(false);
      return None;
    }

    /** The Server becomes the listener's one owner. */
    method BindSection()
      requires Valid() && View().ran && !httpServing
      modifies this
      ensures Valid() && View() == Bind(old(View())) && Owners(View()) == 1
    {
      listener := true;
    }

    /** Ownership passes to HTTP exactly when it is accepted, and none is made or
        lost. */
    method HandoffSection(ctxEnded: bool) returns (accepted: bool)
      requires Valid()
      modifies this
      ensures Valid() && View() == Handoff(old(View()), ctxEnded)
      ensures accepted <==> httpServing && !old(httpServing)
      ensures Owners(View()) == old(Owners(View()))
    {
      accepted := state.Starting? && !ctxEnded && listener;
      if accepted { listener, httpServing := false, true; }
    }

    /** Readiness appears exactly when published, only with the listener in
        HTTP's hands. */
    method PublishReadySection(ctxEnded: bool) returns (published: bool)
      requires Valid()
      modifies this
      ensures Valid() && View() == PublishReady(old(View()), ctxEnded)
      ensures published <==> ready && !old(ready)
      ensures published ==> httpServing && !listener && state.Running?
    {
      if !state.Starting? || ctxEnded || !httpServing { return false; }
      ready, state := true, Running;
      return true;
    }

    method SetUnreadySection()
      requires Valid()
      modifies this
      ensures Valid() && View() == SetUnready(old(View()))
    {
      ready := false;
    }

    /** Close's first section; `done` is the run it must wait for. From here on
        nothing is handed over or published, and the node is closed unless there
        is a run to wait for. */
    method CloseEntrySection() returns (wasClosed: bool, done: Option<bool>)
      requires Valid()
      modifies this
      ensures Valid() && View() == CloseSection(old(View())) && Refuses(View())
      ensures done == runDone && (wasClosed || done.None? <==> state.Closed?)
    {
      wasClosed, done := state.Closed?, runDone;
      if wasClosed { return; }
      state := if done.None? then Closed else Stopping;
    }

    /** Refuses any later handoff; a closed node stays closed. */
    method BeginStoppingSection()
      requires Valid() && (View().ran || state.Closed?)
      modifies this
      ensures Valid() && View() == BeginStopping(old(View())) && Refuses(View())
    {
      if !state.Closed? { state := Stopping; }
    }

    /** Reports whether there was a listener for the Server to close, which HTTP
        then never had. Only HTTP can own one afterwards. */
    method ReleaseListenerSection() returns (owned: bool)
      requires Valid()
      modifies this
      ensures Valid() && View() == ReleaseListener(old(View()))
      ensures owned <==> Owners(View()) < old(Owners(View()))
      ensures owned ==> !httpServing && Owners(View()) == 0
    {
      owned := listener;
      listener := false;
    }

    /** The node is closed for good and the run's waiters are released. */
    method EndRunSection()
      requires Valid() && View().ran
      modifies this
      ensures Valid() && View() == EndRun(old(View())) && Refuses(View())
      ensures BeginRun(View()) == Err(ServerClosed)
    {
      state, runDone := Closed, Some(true);
    }
  }
}

module NodeProtocol {
  import opened Outcomes
  import opened Lifecycle

  /** Why and how the node stops: a cause to report, HTTP closed at once, Serve
      already returned. */
  datatype Plan = Plan(cause: bool, force: bool, serveExited: bool)

  const REQUESTED := Plan(false, false, false)
  const FORCE := Plan(true, true, false)

  datatype RunPhase =
    | NotRun | StartingUp | Bound | AwaitingHandoff | HandedOff | MetricsVerified | Announcing | AwaitingStop
    | Planned(plan: Plan) | RunReturned(plan: Plan, outcome: Outcome)
  {
    predicate HasPlan() { Planned? || RunReturned? }
  }

  datatype ServePhase = Absent | Preparing | Answering(accepted: bool) | Refused | Owning | Exited

  /** HTTP's Stop: not called, called with or without leave to drain, returned. */
  datatype HttpStop = NotStopped | StopCalled(closing: bool) | Stopped

  /** The stages of the shutdown sequence, in order. The source's stopHTTP is the
      three stages HTTP, DRAIN and SERVE_EXIT. */
  type Stage = nat
  const BEGIN: Stage := 0
  const UNREADY: Stage := 1
  const LISTENER: Stage := 2
  const HTTP: Stage := 3
  const DRAIN: Stage := 4
  const SERVE_EXIT: Stage := 5
  const END_RUN: Stage := 6
  const JOBS: Stage := 7
  const WEBSOCKET: Stage := 8
  const TRANSPORT: Stage := 9
  const LEASE: Stage := 10
  const METRICS: Stage := 11
  const TRACING: Stage := 12
  const PLATFORM: Stage := 13
  const FORCED: Stage := 14

  datatype Owner = ByRun | ByClose(id: nat)
  /** The stages that reported an error, and whether the stop was forced. */
  datatype Outcome = Outcome(errors: seq<Stage>, forced: bool)
  /** closeOnce: the first caller runs the sequence, the others wait for it. */
  datatype Once = Idle | Busy(owner: Owner, plan: Plan, stage: Stage, errors: seq<Stage>) | Finished(plan: Plan, outcome: Outcome)

  datatype ClosePhase =
    | NeedsUnready(waits: bool) | NeedsCancel | AwaitingRun | WantsShutdown | CloseReturned(outcome: Outcome)

  datatype Node = Node(
    g: Guarded, ctxEnded: bool, run: RunPhase, httpBuilt: bool, serve: ServePhase,
    handoff: Option<bool>, exit: bool, http: HttpStop, watching: bool,
    leaseFailed: bool, leaseQueued: bool, leaseWithdrawn: bool, forced: bool,
    closers: map<nat, ClosePhase>, once: Once,
    // history
    bound: bool, serverClosed: bool, published: nat, shutdowns: nat, lost: bool)

  const NEW := Node(INERT, false, NotRun, false, Absent, None, false, NotStopped, false,
                    false, false, false, false, map[], Idle, false, false, 0, 0, false)

  datatype StartEvent = RunBegins | StartupFails(takesLease: bool) | StartupCancelled | Binds | BoundCancelled | StartsHttp
  datatype SelectEvent = SeesExit(cause: bool) | SeesCancel | TakesLease | SeesMetrics
  datatype HandoffEvent = SeesHandoff | VerifiesMetrics(failed: bool) | VerifiesLease | Announces
  datatype FinishEvent = RunShutsDown | RunEnds
  datatype ServeEvent = Answers | SendsAnswer | ServeExits
  datatype ShutdownEvent = Advances(ok: bool) | HttpStops | WatcherTakes | WatcherEnds
  datatype CloseEvent = CloseEnters | CloseUnready | CloseCancels | CloseJoins | CloseShutsDown | CloseReturns
  datatype HostEvent = ForceStops | Cancels | BudgetEnds | LeaseFails

  /** One atomic step of the run, of the Serve goroutine, of the shutdown
      sequence, of one Close call, or of the host and the lease. */
  datatype Event =
    | OfStart(start: StartEvent) | OfSelect(select: SelectEvent) | OfHandoff(handing: HandoffEvent)
    | OfFinish(finish: FinishEvent) | OfServe(serving: ServeEvent) | OfShutdown(shutdown: ShutdownEvent)
    | OfClose(id: nat, close: CloseEvent) | OfHost(host: HostEvent)

  /** The run decides how to stop, having read the given channels. */
  function Decide(n: Node, plan: Plan, queued: bool, exit: bool, handoff: Option<bool>): Option<Node> {
    Some(n.(run := Planned(plan), leaseQueued := queued, exit := exit, handoff := handoff))
  }

  predicate Selecting(n: Node) { n.run.AwaitingHandoff? || n.run.AwaitingStop? }

  function StartStep(n: Node, e: StartEvent): Option<Node> {
    match e
    case RunBegins =>
      if n.run.NotRun? && BeginRun(n.g).Ok? then Some(n.(g := BeginRun(n.g).value, run := StartingUp)) else None
    case StartupFails(takesLease) =>
      if n.run.StartingUp? && (takesLease ==> n.leaseQueued)
      then Decide(n, Plan(true, false, false), n.leaseQueued && !takesLease, n.exit, n.handoff) else None
    case StartupCancelled =>
      if n.run.StartingUp? && n.ctxEnded then Decide(n, REQUESTED, n.leaseQueued, n.exit, n.handoff) else None
    case Binds => if n.run.StartingUp? then Some(n.(g := Bind(n.g), bound := true, run := Bound)) else None
    case BoundCancelled =>
      if n.run.Bound? && n.ctxEnded then Decide(n, REQUESTED, n.leaseQueued, n.exit, n.handoff) else None
    case StartsHttp =>
      if n.run.Bound? then Some(n.(httpBuilt := true, serve := Preparing, run := AwaitingHandoff)) else None
  }

  function SelectStep(n: Node, e: SelectEvent): Option<Node> {
    match e
    case SeesExit(cause) =>
      if Selecting(n) && n.exit then Decide(n, Plan(cause, false, true), n.leaseQueued, false, n.handoff) else None
    case SeesCancel =>
      if Selecting(n) && n.ctxEnded then Decide(n, REQUESTED, n.leaseQueued, n.exit, n.handoff) else None
    case TakesLease =>
      if Selecting(n) && n.leaseQueued then Decide(n, FORCE, false, n.exit, n.handoff) else None
    case SeesMetrics => if Selecting(n) then Decide(n, FORCE, n.leaseQueued, n.exit, n.handoff) else None
  }

  function HandoffStep(n: Node, e: HandoffEvent): Option<Node> {
    match e
    case SeesHandoff =>
      if !(n.run.AwaitingHandoff? && n.handoff.Some?) then None
      else Some(n.(handoff := None, run := if n.handoff.value then HandedOff else Planned(REQUESTED)))
    case VerifiesMetrics(failed) =>
      if n.run.HandedOff? then Some(n.(run := if failed then Planned(FORCE) else MetricsVerified)) else None
    case VerifiesLease =>
      if !n.run.MetricsVerified? then None
      else Some(n.(run := if n.leaseQueued then Planned(FORCE) else Announcing, leaseQueued := false))
    case Announces =>
      if !n.run.Announcing? then None
      else Some(n.(g := PublishReady(n.g, n.ctxEnded), run := AwaitingStop,
                   published := n.published + if Publishes(n.g, n.ctxEnded) then 1 else 0))
  }

  function FinishStep(n: Node, e: FinishEvent): Option<Node> {
    match e
    case RunShutsDown =>
      if n.run.Planned? && n.once.Idle?
      then Some(n.(once := Busy(ByRun, n.run.plan, BEGIN, []), shutdowns := n.shutdowns + 1)) else None
    case RunEnds =>
      if n.run.Planned? && n.once.Finished?
      then Some(n.(g := EndRun(n.g), run := RunReturned(n.run.plan, n.once.outcome)))
      else None
  }

  function ServeStep(n: Node, e: ServeEvent): Option<Node> {
    match e
    case Answers =>
      if !n.serve.Preparing? then None
      else Some(n.(g := Handoff(n.g, n.ctxEnded), serve := Answering(AcceptsHandoff(n.g, n.ctxEnded))))
    case SendsAnswer =>
      if !n.serve.Answering? then None
      else Some(n.(handoff := Some(n.serve.accepted), serve := if n.serve.accepted then Owning else Refused))
    case ServeExits =>
      if n.serve.Preparing? || n.serve.Refused? || n.serve.Owning? then Some(n.(serve := Exited, exit := true)) else None
  }

  /** The sequence moves on; errors accumulate. */
  function Next(once: Once, stage: Stage, ok: bool): Once
    requires once.Busy?
  {
    Busy(once.owner, once.plan, stage, if ok then once.errors else once.errors + [once.stage])
  }

  /** stopHTTP, up to its call of Stop: nothing to stop, a forced close, a
      drain with a watcher on the lease, or a Serve that never got the
      listener. */
  function HttpStage(n: Node): Node
    requires n.once.Busy?
  {
    var forces := n.httpBuilt && n.once.plan.force;
    var drains := n.httpBuilt && !n.once.plan.force && n.g.httpServing;
    n.(once := Next(n.once, if forces || drains then DRAIN else if n.httpBuilt then SERVE_EXIT else END_RUN, true),
       http := if forces then StopCalled(true) else if drains then StopCalled(n.forced) else n.http,
       watching := n.watching || drains)
  }

  /** Stopping begins, readiness is withdrawn, and a listener the Server still
      owns is closed. */
  function EarlyStage(n: Node, ok: bool): Node
    requires n.once.Busy?
  {
    var stage := n.once.stage;
    n.(once := Next(n.once, stage + 1, ok || stage != LISTENER || !n.g.listener),
       g := if stage == BEGIN then BeginStopping(n.g) else if stage == UNREADY then SetUnready(n.g) else ReleaseListener(n.g),
       serverClosed := n.serverClosed || (stage == LISTENER && n.g.listener))
  }

  /** The stages from the drain on. A drain that lost the lease fails, and so does
      a Serve that has not returned unless Run had its result. */
  function LaterStage(n: Node, ok: bool): Option<Node>
    requires n.once.Busy?
  {
    var stage := n.once.stage;
    if stage == DRAIN && !(n.http.Stopped? && !n.watching) then None
    else Some(n.(once := if stage >= FORCED then Finished(n.once.plan, Outcome(n.once.errors, n.forced))
                         else if stage == DRAIN then Next(n.once, SERVE_EXIT, ok && !n.lost)
                         else if stage == SERVE_EXIT then Next(n.once, END_RUN, n.once.plan.serveExited || (ok && n.exit))
                         else Next(n.once, stage + 1, ok || stage == END_RUN),
                 exit := n.exit && (stage == SERVE_EXIT ==> n.once.plan.serveExited),
                 ctxEnded := n.ctxEnded || (stage == END_RUN && n.once.owner.ByRun?),
                 leaseWithdrawn := n.leaseWithdrawn || stage == LEASE))
  }

  function StageStep(n: Node, ok: bool): Option<Node>
    requires n.once.Busy?
  {
    if n.once.stage < HTTP then Some(EarlyStage(n, ok))
    else if n.once.stage == HTTP then Some(HttpStage(n))
    else LaterStage(n, ok)
  }

  function ShutdownStep(n: Node, e: ShutdownEvent): Option<Node> {
    match e
    case Advances(ok) => if n.once.Busy? then StageStep(n, ok) else None
    case HttpStops => if n.http.StopCalled? then Some(n.(http := Stopped)) else None
    case WatcherTakes =>
      if !(n.watching && n.leaseQueued) then None
      else Some(n.(leaseQueued := false, watching := false, lost := true,
                   http := if n.http.StopCalled? then StopCalled(true) else n.http))
    case WatcherEnds => if n.watching && n.http.Stopped? then Some(n.(watching := false)) else None
  }

  /** The phase a Close call enters after its first critical section. */
  function CloseEntry(g: Guarded): ClosePhase {
    if g.state.Closed? then (if g.ran then AwaitingRun else WantsShutdown) else NeedsUnready(g.ran)
  }

  function CloseStep(n: Node, id: nat, e: CloseEvent): Option<Node> {
    if e.CloseEnters? then
      if id in n.closers then None
      else Some(n.(g := CloseSection(n.g), closers := n.closers[id := CloseEntry(n.g)]))
    else if id !in n.closers then None
    else match (e, n.closers[id])
      case (CloseUnready, NeedsUnready(waits)) =>
        Some(n.(g := SetUnready(n.g), closers := n.closers[id := if waits then NeedsCancel else WantsShutdown]))
      case (CloseCancels, NeedsCancel) => Some(n.(ctxEnded := true, closers := n.closers[id := AwaitingRun]))
      case (CloseJoins, AwaitingRun) => if n.g.runOver then Some(n.(closers := n.closers[id := WantsShutdown])) else None
      case (CloseShutsDown, WantsShutdown) =>
        if n.once.Idle? then Some(n.(once := Busy(ByClose(id), REQUESTED, BEGIN, []), shutdowns := n.shutdowns + 1))
        else None
      case (CloseReturns, WantsShutdown) =>
        if n.once.Finished? then Some(n.(closers := n.closers[id := CloseReturned(n.once.outcome)])) else None
      case _ => None
  }

  function HostStep(n: Node, e: HostEvent): Option<Node> {
    match e
    case ForceStops =>
      Some(n.(forced := true, http := if n.http.StopCalled? then StopCalled(true) else n.http))
    case Cancels => if n.g.ran then Some(n.(ctxEnded := true)) else None
    case BudgetEnds => if n.http.StopCalled? then Some(n.(http := StopCalled(true))) else None
    case LeaseFails =>
      if n.g.ran && !n.leaseFailed && !n.leaseWithdrawn then Some(n.(leaseFailed := true, leaseQueued := true)) else None
  }

  /** The node after one step, or None when the step is not possible. */
  function Step(n: Node, e: Event): Option<Node> {
    match e
    case OfStart(start) => StartStep(n, start)
    case OfSelect(select) => SelectStep(n, select)
    case OfHandoff(handing) => HandoffStep(n, handing)
    case OfFinish(finish) => FinishStep(n, finish)
    case OfServe(serving) => ServeStep(n, serving)
    case OfShutdown(shutdown) => ShutdownStep(n, shutdown)
    case OfClose(id, close) => CloseStep(n, id, close)
    case OfHost(host) => HostStep(n, host)
  }

  function AfterEvents(events: seq<Event>): Option<Node> {
    if events == [] then Some(NEW)
    else
      var before := AfterEvents(events[..|events| - 1]);
      if before.None? then None else Step(before.value, events[|events| - 1])
  }

  // ----- the invariant

  /** How far the shutdown sequence has come. */
  function Progress(once: Once): nat {
    match once
    case Idle => 0
    case Busy(_, _, stage, _) => stage
    case Finished(_, _) => FORCED + 1
  }

  function Result(once: Once): Option<Outcome> { if once.Finished? then Some(once.outcome) else None }

  ghost predicate Phases(g: Guarded, run: RunPhase, httpBuilt: bool, bound: bool, leaseFailed: bool) {
    && (run.NotRun? <==> !g.ran)
    && (!g.ran ==> g == INERT.(state := g.state) && (g.state.Inert? || g.state.Closed?)
                   && !httpBuilt && !bound && !leaseFailed)
    && (g.ran ==> !g.state.Inert?)
    && (g.runOver <==> run.RunReturned?)
    && (g.ran ==> (g.state.Closed? <==> run.RunReturned?))
    && (g.state.Running? ==> run.AwaitingStop? || run.Planned?)
    && ((run.NotRun? || run.StartingUp? || run.Bound?) ==> !httpBuilt) && (run.AwaitingHandoff? ==> httpBuilt)
  }

  ghost predicate OnceOnly(g: Guarded, run: RunPhase, once: Once, shutdowns: nat) {
    && shutdowns == (if once.Idle? then 0 else 1)
    && (once.Busy? ==> once.stage <= FORCED)
    && (g.ran && !once.Idle? ==> run.HasPlan() && once.plan == run.plan)
    && (once.Busy? ==> if g.ran then run.Planned? && once.owner.ByRun? else g.state.Closed?)
    && (run.RunReturned? ==> once.Finished? && once.outcome == run.outcome)
    && (!g.ran && !once.Idle? ==> once.plan == REQUESTED && g.state.Closed?)
    && (Progress(once) > BEGIN ==> Halting(g.state))
  }

  ghost predicate CloserOk(ran: bool, state: NodeState, result: Option<Outcome>, phase: ClosePhase) {
    match phase
    case NeedsUnready(waits) => waits == ran && Halting(state)
    case NeedsCancel => ran && Halting(state)
    case AwaitingRun => ran && Halting(state)
    case WantsShutdown => state.Closed?
    case CloseReturned(outcome) => state.Closed? && result == Some(outcome)
  }

  ghost predicate Closers(ran: bool, state: NodeState, result: Option<Outcome>, closers: map<nat, ClosePhase>) {
    forall id :: id in closers ==> CloserOk(ran, state, result, closers[id])
  }

  /** The listener is in exactly one place: not bound yet, with the Server,
      handed to HTTP, or closed by the Server. */
  ghost predicate Listener(listener: bool, httpServing: bool, serverClosed: bool, bound: bool, progress: nat) {
    && (bound <==> listener || httpServing || serverClosed)
    && !(listener && httpServing) && !(listener && serverClosed) && !(httpServing && serverClosed)
    && (serverClosed ==> progress > LISTENER)
    && (progress > LISTENER ==> !listener)
  }

  ghost predicate Serving(run: RunPhase, serve: ServePhase, handoff: Option<bool>, httpBuilt: bool, bound: bool,
                          httpServing: bool) {
    && ((run.NotRun? || run.StartingUp?) ==> !bound) && (run.Bound? || httpBuilt ==> bound)
    && (httpServing ==> httpBuilt && (serve == Answering(true) || serve.Owning? || serve.Exited?))
    && (serve == Answering(true) || serve.Owning? ==> httpServing)
    && (serve.Absent? <==> !httpBuilt)
    && (run.AwaitingHandoff? && serve.Owning? ==> handoff == Some(true))
    && (handoff == Some(true) || run.HandedOff? || run.MetricsVerified? || run.Announcing? || run.AwaitingStop? ==> httpServing)
  }

  ghost predicate Readiness(state: NodeState, httpServing: bool, ready: bool, published: nat, progress: nat) {
    && published <= 1
    && (published == 1 ==> httpServing && (state.Running? || Halting(state)))
    && (ready ==> published == 1) && (state.Running? ==> httpServing)
    && (progress > UNREADY ==> !ready)
  }

  /** Where HTTP's Stop stands, by the stage of the sequence. */
  ghost predicate Stops(http: HttpStop, watching: bool, mustStop: bool, forced: bool, progress: nat) {
    && (http.NotStopped? ==> !watching)
    && (!http.NotStopped? ==> progress >= DRAIN && mustStop)
    && (progress == DRAIN || (progress > HTTP && mustStop) ==> !http.NotStopped?)
    && (progress > DRAIN ==> !http.StopCalled? && !watching)
    && (http.StopCalled? ==> http.closing || (watching && !forced))
  }

  predicate MustStop(n: Node) {
    n.httpBuilt && (n.g.httpServing || (n.run.HasPlan() && n.run.plan.force))
  }

  /** While HTTP serves on, a lease failure is queued where someone will take
      it, or has been taken and HTTP is being closed. */
  ghost predicate LeaseWatched(failed: bool, queued: bool, run: RunPhase, httpBuilt: bool, http: HttpStop) {
    && (queued ==> failed)
    && (failed && !run.HasPlan() ==> queued)
    && (failed && !queued && httpBuilt && !http.Stopped? ==>
          if http.StopCalled? then http.closing else run.HasPlan() && run.plan.force)
  }

  ghost predicate Invariant(n: Node) {
    && Phases(n.g, n.run, n.httpBuilt, n.bound, n.leaseFailed)
    && OnceOnly(n.g, n.run, n.once, n.shutdowns)
    && Closers(n.g.ran, n.g.state, Result(n.once), n.closers)
    && Listener(n.g.listener, n.g.httpServing, n.serverClosed, n.bound, Progress(n.once))
    && Serving(n.run, n.serve, n.handoff, n.httpBuilt, n.bound, n.g.httpServing)
    && Readiness(n.g.state, n.g.httpServing, n.g.ready, n.published, Progress(n.once))
    && Stops(n.http, n.watching, MustStop(n), n.forced, Progress(n.once))
    && LeaseWatched(n.leaseFailed, n.leaseQueued, n.run, n.httpBuilt, n.http)
    && (n.leaseWithdrawn ==> Progress(n.once) > LEASE)
  }

  lemma StartKeeps(n: Node, e: StartEvent)
    requires Invariant(n) && StartStep(n, e).Some?
    ensures Invariant(StartStep(n, e).value)
  {
  }

  /** Deciding to stop, from any phase of the run: a lease failure is consumed
      only by a plan that forces, or before there is an HTTP server. */
  lemma PlanKeeps(n: Node, plan: Plan, queued: bool, exit: bool, handoff: Option<bool>)
    requires Invariant(n) && n.g.ran && !n.run.HasPlan()
    requires n.leaseQueued && !queued ==> plan.force || !n.httpBuilt
    requires queued ==> n.leaseQueued
    requires handoff == n.handoff || handoff == None
    ensures Invariant(n.(run := Planned(plan), leaseQueued := queued, exit := exit, handoff := handoff))
  {
  }

  lemma SelectKeeps(n: Node, e: SelectEvent)
    requires Invariant(n) && SelectStep(n, e).Some?
    ensures Invariant(SelectStep(n, e).value)
  {
    match e
    case SeesExit(cause) => PlanKeeps(n, Plan(cause, false, true), n.leaseQueued, false, n.handoff);
    case SeesCancel => PlanKeeps(n, REQUESTED, n.leaseQueued, n.exit, n.handoff);
    case TakesLease => PlanKeeps(n, FORCE, false, n.exit, n.handoff);
    case SeesMetrics => PlanKeeps(n, FORCE, n.leaseQueued, n.exit, n.handoff);
  }

  /** The run moves on between handoff and readiness. */
  lemma VerifiedKeeps(n: Node, run: RunPhase)
    requires Invariant(n) && (n.run.HandedOff? || n.run.MetricsVerified?)
    requires run.MetricsVerified? || run.Announcing?
    ensures Invariant(n.(run := run))
  {
  }

  lemma SeesHandoffKeeps(n: Node)
    requires Invariant(n) && n.run.AwaitingHandoff? && n.handoff.Some?
    ensures Invariant(n.(handoff := None, run := if n.handoff.value then HandedOff else Planned(REQUESTED)))
  {
  }

  lemma AnnouncesKeeps(n: Node)
    requires Invariant(n) && n.run.Announcing?
    ensures Invariant(HandoffStep(n, Announces).value)
  {
  }

  lemma HandoffKeeps(n: Node, e: HandoffEvent)
    requires Invariant(n) && HandoffStep(n, e).Some?
    ensures Invariant(HandoffStep(n, e).value)
  {
    match e
    case SeesHandoff => SeesHandoffKeeps(n);
    case VerifiesMetrics(failed) =>
      if failed { PlanKeeps(n, FORCE, n.leaseQueued, n.exit, n.handoff); } else { VerifiedKeeps(n, MetricsVerified); }
    case VerifiesLease =>
      if n.leaseQueued { PlanKeeps(n, FORCE, false, n.exit, n.handoff); } else { VerifiedKeeps(n, Announcing); }
    case Announces => AnnouncesKeeps(n);
  }

  lemma FinishKeeps(n: Node, e: FinishEvent)
    requires Invariant(n) && FinishStep(n, e).Some?
    ensures Invariant(FinishStep(n, e).value)
  {
  }

  lemma AnswersKeeps(n: Node)
    requires Invariant(n) && n.serve.Preparing?
    ensures Invariant(n.(g := Handoff(n.g, n.ctxEnded), serve := Answering(AcceptsHandoff(n.g, n.ctxEnded))))
  {
  }

  lemma SendsAnswerKeeps(n: Node)
    requires Invariant(n) && n.serve.Answering?
    ensures Invariant(n.(handoff := Some(n.serve.accepted), serve := if n.serve.accepted then Owning else Refused))
  {
  }

  lemma ServeExitsKeeps(n: Node)
    requires Invariant(n) && (n.serve.Preparing? || n.serve.Refused? || n.serve.Owning?)
    ensures Invariant(n.(serve := Exited, exit := true))
  {
  }

  lemma ServeKeeps(n: Node, e: ServeEvent)
    requires Invariant(n) && ServeStep(n, e).Some?
    ensures Invariant(ServeStep(n, e).value)
  {
    match e
    case Answers => AnswersKeeps(n);
    case SendsAnswer => SendsAnswerKeeps(n);
    case ServeExits => ServeExitsKeeps(n);
  }

  lemma EarlyStageKeeps(n: Node, ok: bool)
    requires Invariant(n) && n.once.Busy? && n.once.stage < HTTP
    ensures Invariant(EarlyStage(n, ok))
  {
  }

  lemma HttpStageKeeps(n: Node)
    requires Invariant(n) && n.once.Busy? && n.once.stage == HTTP
    ensures Invariant(HttpStage(n))
  {
  }

  lemma LaterStageKeeps(n: Node, ok: bool)
    requires Invariant(n) && n.once.Busy? && n.once.stage > HTTP && LaterStage(n, ok).Some?
    ensures Invariant(LaterStage(n, ok).value)
  {
  }

  lemma StageKeeps(n: Node, ok: bool)
    requires Invariant(n) && n.once.Busy? && StageStep(n, ok).Some?
    ensures Invariant(StageStep(n, ok).value)
  {
    if n.once.stage < HTTP {
      EarlyStageKeeps(n, ok);
    } else if n.once.stage == HTTP {
      HttpStageKeeps(n);
    } else {
      LaterStageKeeps(n, ok);
    }
  }

  /** Closing HTTP instead of draining it, or its Stop returning. */
  lemma HttpKeeps(n: Node, http: HttpStop)
    requires Invariant(n) && n.http.StopCalled? && (http == StopCalled(true) || http.Stopped?)
    ensures Invariant(n.(http := http))
  {
  }

  lemma WatcherTakesKeeps(n: Node)
    requires Invariant(n) && n.watching && n.leaseQueued
    ensures Invariant(n.(leaseQueued := false, watching := false, http := if n.http.StopCalled? then StopCalled(true) else n.http))
  {
  }

  lemma WatcherEndsKeeps(n: Node)
    requires Invariant(n) && n.watching && n.http.Stopped?
    ensures Invariant(n.(watching := false))
  {
  }

  lemma ShutdownKeeps(n: Node, e: ShutdownEvent)
    requires Invariant(n) && ShutdownStep(n, e).Some?
    ensures Invariant(ShutdownStep(n, e).value)
  {
    match e
    case Advances(ok) => StageKeeps(n, ok);
    case HttpStops => HttpKeeps(n, Stopped);
    case WatcherTakes => WatcherTakesKeeps(n);
    case WatcherEnds => WatcherEndsKeeps(n);
  }

  lemma CloseEntryKeeps(n: Node, id: nat)
    requires Invariant(n) && id !in n.closers
    ensures Invariant(n.(g := CloseSection(n.g), closers := n.closers[id := CloseEntry(n.g)]))
  {
  }

  /** A Close call moves on to a phase that is in order, and nothing else
      changes but readiness and the context. */
  lemma ClosePhaseKeeps(n: Node, id: nat, phase: ClosePhase, ctxEnded: bool)
    requires Invariant(n) && CloserOk(n.g.ran, n.g.state, Result(n.once), phase)
    ensures Invariant(n.(ctxEnded := ctxEnded, closers := n.closers[id := phase]))
  {
  }

  lemma CloseUnreadyKeeps(n: Node, id: nat, phase: ClosePhase)
    requires Invariant(n) && CloserOk(n.g.ran, n.g.state, Result(n.once), phase)
    ensures Invariant(n.(g := SetUnready(n.g), closers := n.closers[id := phase]))
  {
  }

  lemma CloseShutsDownKeeps(n: Node, id: nat)
    requires Invariant(n) && n.once.Idle? && n.g.state.Closed?
    ensures Invariant(n.(once := Busy(ByClose(id), REQUESTED, BEGIN, []), shutdowns := n.shutdowns + 1))
  {
  }

  lemma UnreadyCloseKeeps(n: Node, id: nat)
    requires Invariant(n) && CloseStep(n, id, CloseUnready).Some?
    ensures Invariant(CloseStep(n, id, CloseUnready).value)
  {
    assert CloserOk(n.g.ran, n.g.state, Result(n.once), n.closers[id]);
    CloseUnreadyKeeps(n, id, if n.closers[id].waits then NeedsCancel else WantsShutdown);
  }

  lemma CancellingCloseKeeps(n: Node, id: nat)
    requires Invariant(n) && CloseStep(n, id, CloseCancels).Some?
    ensures Invariant(CloseStep(n, id, CloseCancels).value)
  {
    assert CloserOk(n.g.ran, n.g.state, Result(n.once), n.closers[id]);
    ClosePhaseKeeps(n, id, AwaitingRun, true);
  }

  lemma JoiningCloseKeeps(n: Node, id: nat)
    requires Invariant(n) && CloseStep(n, id, CloseJoins).Some?
    ensures Invariant(CloseStep(n, id, CloseJoins).value)
  {
    assert CloserOk(n.g.ran, n.g.state, Result(n.once), n.closers[id]);
    ClosePhaseKeeps(n, id, WantsShutdown, n.ctxEnded);
  }

  lemma StoppingCloseKeeps(n: Node, id: nat)
    requires Invariant(n) && CloseStep(n, id, CloseShutsDown).Some?
    ensures Invariant(CloseStep(n, id, CloseShutsDown).value)
  {
    assert CloserOk(n.g.ran, n.g.state, Result(n.once), n.closers[id]);
    CloseShutsDownKeeps(n, id);
  }

  lemma ReturningCloseKeeps(n: Node, id: nat)
    requires Invariant(n) && CloseStep(n, id, CloseReturns).Some?
    ensures Invariant(CloseStep(n, id, CloseReturns).value)
  {
    assert CloserOk(n.g.ran, n.g.state, Result(n.once), n.closers[id]);
    ClosePhaseKeeps(n, id, CloseReturned(n.once.outcome), n.ctxEnded);
  }

  lemma CloseKeeps(n: Node, id: nat, e: CloseEvent)
    requires Invariant(n) && CloseStep(n, id, e).Some?
    ensures Invariant(CloseStep(n, id, e).value)
  {
    match e
    case CloseEnters => CloseEntryKeeps(n, id);
    case CloseUnready => UnreadyCloseKeeps(n, id);
    case CloseCancels => CancellingCloseKeeps(n, id);
    case CloseJoins => JoiningCloseKeeps(n, id);
    case CloseShutsDown => StoppingCloseKeeps(n, id);
    case CloseReturns => ReturningCloseKeeps(n, id);
  }

  lemma ForceKeeps(n: Node)
    requires Invariant(n) && (n.http.StopCalled? ==> n.http.closing)
    ensures Invariant(n.(forced := true))
  {
  }

  lemma CancelKeeps(n: Node)
    requires Invariant(n)
    ensures Invariant(n.(ctxEnded := true))
  {
  }

  lemma LeaseFailsKeeps(n: Node)
    requires Invariant(n) && n.g.ran && !n.leaseFailed
    ensures Invariant(n.(leaseFailed := true, leaseQueued := true))
  {
  }

  lemma HostKeeps(n: Node, e: HostEvent)
    requires Invariant(n) && HostStep(n, e).Some?
    ensures Invariant(HostStep(n, e).value)
  {
    match e
    case ForceStops =>
      if n.http.StopCalled? {
        HttpKeeps(n, StopCalled(true));
        ForceKeeps(n.(http := StopCalled(true)));
      } else {
        ForceKeeps(n);
      }
    case Cancels => CancelKeeps(n);
    case BudgetEnds => HttpKeeps(n, StopCalled(true));
    case LeaseFails => LeaseFailsKeeps(n);
  }

  lemma StepKeepsInvariant(n: Node, e: Event)
    requires Invariant(n) && Step(n, e).Some?
    ensures Invariant(Step(n, e).value)
  {
    match e
    case OfStart(start) => StartKeeps(n, start);
    case OfSelect(select) => SelectKeeps(n, select);
    case OfHandoff(handing) => HandoffKeeps(n, handing);
    case OfFinish(finish) => FinishKeeps(n, finish);
    case OfServe(serving) => ServeKeeps(n, serving);
    case OfShutdown(shutdown) => ShutdownKeeps(n, shutdown);
    case OfClose(id, close) => CloseKeeps(n, id, close);
    case OfHost(host) => HostKeeps(n, host);
  }

  lemma {:induction false} EveryRunKeepsInvariant(events: seq<Event>)
    requires AfterEvents(events).Some?
    ensures Invariant(AfterEvents(events).value)
  {
    if events != [] {
      var n := |events| - 1;
      EveryRunKeepsInvariant(events[..n]);
      StepKeepsInvariant(AfterEvents(events[..n]).value, events[n]);
    }
  }

  // ----- what every interleaving keeps

  /** The guarded fields change by a critical section of the Server, or not at
      all. */
  predicate BySection(g: Guarded, h: Guarded) {
    || h == g || BeginRun(g) == Ok(h) || h == Bind(g)
    || h == Handoff(g, false) || h == PublishReady(g, false) || h == SetUnready(g)
    || h == CloseSection(g) || h == BeginStopping(g) || h == ReleaseListener(g) || h == EndRun(g)
  }

  /** The node does not move backwards, readiness is published and the listener
      handed over only out of Starting and before cancellation, and a shutdown
      result is final. */
  predicate Forward(n: Node, t: Node) {
    && n.g.state.Order() <= t.g.state.Order() && BySection(n.g, t.g)
    && (t.published != n.published ==> n.g.state.Starting? && !n.ctxEnded && n.g.httpServing && t.g.state.Running?)
    && (t.g.httpServing != n.g.httpServing ==> t.g.httpServing && n.g.state.Starting? && !n.ctxEnded && n.g.listener)
    && (n.once.Finished? ==> t.once == n.once)
    && (n.ctxEnded ==> t.ctxEnded) && (n.g.runOver ==> t.g.runOver)
  }

  lemma StartForward(n: Node, e: StartEvent)
    requires StartStep(n, e).Some?
    ensures Forward(n, StartStep(n, e).value) && StartStep(n, e).value.closers == n.closers
  {
  }

  lemma SelectForward(n: Node, e: SelectEvent)
    requires SelectStep(n, e).Some?
    ensures Forward(n, SelectStep(n, e).value) && SelectStep(n, e).value.closers == n.closers
  {
  }

  lemma HandoffForward(n: Node, e: HandoffEvent)
    requires HandoffStep(n, e).Some?
    ensures Forward(n, HandoffStep(n, e).value) && HandoffStep(n, e).value.closers == n.closers
  {
  }

  lemma FinishForward(n: Node, e: FinishEvent)
    requires FinishStep(n, e).Some?
    ensures Forward(n, FinishStep(n, e).value) && FinishStep(n, e).value.closers == n.closers
  {
  }

  lemma ServeForward(n: Node, e: ServeEvent)
    requires ServeStep(n, e).Some?
    ensures Forward(n, ServeStep(n, e).value) && ServeStep(n, e).value.closers == n.closers
  {
  }

  lemma EarlyForward(n: Node, ok: bool)
    requires n.once.Busy? && n.once.stage < HTTP
    ensures Forward(n, EarlyStage(n, ok)) && EarlyStage(n, ok).closers == n.closers
  {
  }

  lemma HttpForward(n: Node)
    requires n.once.Busy?
    ensures Forward(n, HttpStage(n)) && HttpStage(n).closers == n.closers
  {
  }

  lemma LaterForward(n: Node, ok: bool)
    requires n.once.Busy? && LaterStage(n, ok).Some?
    ensures Forward(n, LaterStage(n, ok).value) && LaterStage(n, ok).value.closers == n.closers
  {
  }

  lemma ShutdownForward(n: Node, e: ShutdownEvent)
    requires ShutdownStep(n, e).Some?
    ensures Forward(n, ShutdownStep(n, e).value) && ShutdownStep(n, e).value.closers == n.closers
  {
    match e
    case Advances(ok) =>
      if n.once.stage < HTTP {
        EarlyForward(n, ok);
      } else if n.once.stage == HTTP {
        HttpForward(n);
      } else {
        LaterForward(n, ok);
      }
    case HttpStops =>
    case WatcherTakes =>
    case WatcherEnds =>
  }

  lemma HostForward(n: Node, e: HostEvent)
    requires HostStep(n, e).Some?
    ensures Forward(n, HostStep(n, e).value) && HostStep(n, e).value.closers == n.closers
  {
  }

  lemma CloseForward(n: Node, id: nat, e: CloseEvent)
    requires CloseStep(n, id, e).Some?
    ensures Forward(n, CloseStep(n, id, e).value)
  {
  }

  lemma StepMovesForward(n: Node, e: Event)
    requires Step(n, e).Some?
    ensures Forward(n, Step(n, e).value) && (!e.OfClose? ==> Step(n, e).value.closers == n.closers)
  {
    match e
    case OfStart(start) => StartForward(n, start);
    case OfSelect(select) => SelectForward(n, select);
    case OfHandoff(handing) => HandoffForward(n, handing);
    case OfFinish(finish) => FinishForward(n, finish);
    case OfServe(serving) => ServeForward(n, serving);
    case OfShutdown(shutdown) => ShutdownForward(n, shutdown);
    case OfHost(host) => HostForward(n, host);
    case OfClose(id, close) => CloseForward(n, id, close);
  }

  /** Under every interleaving the node's state never decreases, nothing is
      published or handed over once the node is stopping or cancelled, and the
      shutdown result never changes. */
  lemma {:induction false} LifecycleRunsForward(events: seq<Event>, i: nat)
    requires AfterEvents(events).Some? && i <= |events|
    ensures AfterEvents(events[..i]).Some?
    ensures var n, t := AfterEvents(events[..i]).value, AfterEvents(events).value;
            && n.g.state.Order() <= t.g.state.Order()
            && (Halting(n.g.state) || n.ctxEnded ==> t.published == n.published && t.g.httpServing == n.g.httpServing)
            && (n.once.Finished? ==> t.once == n.once) && (n.ctxEnded ==> t.ctxEnded)
  {
    if i == |events| {
      assert events[..i] == events;
    } else {
      var m := |events| - 1;
      LifecycleRunsForward(events[..m], i);
      assert events[..m][..i] == events[..i];
      StepMovesForward(AfterEvents(events[..m]).value, events[m]);
    }
  }

  /** The shutdown sequence runs at most once; with the plan of the run whenever
      a run began; and Run and every Close return only after it has finished,
      every Close with its one result. */
  lemma ShutdownOnce(events: seq<Event>)
    requires AfterEvents(events).Some?
    ensures var n := AfterEvents(events).value;
            && n.shutdowns == (if n.once.Idle? then 0 else 1)
            && (n.g.ran && !n.once.Idle? ==> n.run.HasPlan() && n.once.plan == n.run.plan)
            && (n.run.RunReturned? ==> n.once.Finished? && n.run.outcome == n.once.outcome)
            && (forall id :: id in n.closers && n.closers[id].CloseReturned? ==>
                  n.once.Finished? && n.closers[id].outcome == n.once.outcome && (n.g.ran ==> n.run.RunReturned?))
  {
    EveryRunKeepsInvariant(events);
    var n := AfterEvents(events).value;
    assert forall id :: id in n.closers ==> CloserOk(n.g.ran, n.g.state, Result(n.once), n.closers[id]);
  }

  /** Readiness is published at most once, only with the listener in HTTP's
      hands, and is withdrawn before the sequence touches the listener. */
  lemma ReadyOnceAfterHandoff(events: seq<Event>)
    requires AfterEvents(events).Some?
    ensures var n := AfterEvents(events).value;
            && n.published <= 1 && (n.published == 1 ==> n.g.httpServing)
            && (n.g.ready ==> n.published == 1)
            && (Progress(n.once) > UNREADY ==> !n.g.ready)
  {
    EveryRunKeepsInvariant(events);
  }

  /** The bound listener has one owner at a time, and once the sequence is over
      the Server has closed it exactly when the handoff never succeeded. */
  lemma ListenerHasOneOwner(events: seq<Event>)
    requires AfterEvents(events).Some?
    ensures var n := AfterEvents(events).value;
            && (if n.g.listener then 1 else 0) + (if n.g.httpServing then 1 else 0) + (if n.serverClosed then 1 else 0)
               == (if n.bound then 1 else 0)
            && (n.serve.Owning? ==> n.g.httpServing)
            && (n.once.Finished? ==> (n.serverClosed <==> n.bound && !n.g.httpServing))
  {
    EveryRunKeepsInvariant(events);
  }

  /** The lease is withdrawn only after HTTP has stopped serving: HTTP's Stop
      has returned, or HTTP never got the listener and never will. */
  lemma LeaseOutlivesServing(events: seq<Event>)
    requires AfterEvents(events).Some? && AfterEvents(events).value.leaseWithdrawn
    ensures var n := AfterEvents(events).value;
            (n.g.httpServing ==> n.http.Stopped?) && Halting(n.g.state) && !n.g.listener
  {
    EveryRunKeepsInvariant(events);
  }

  // ----- a lease failure is never lost

  /** HTTP serves although the lease has failed. */
  predicate Exposed(n: Node) { n.leaseFailed && n.g.httpServing && !n.http.Stopped? }

  /** How far an exposed node is from closing HTTP at once. */
  function Distance(n: Node): nat {
    match n.run
    case AwaitingHandoff => 13
    case HandedOff => 12
    case MetricsVerified => 11
    case Announcing => 10
    case AwaitingStop => 9
    case _ =>
      if n.http.StopCalled? then (if n.http.closing then 0 else 1)
      else if n.once.Busy? then (if n.once.stage <= HTTP then 7 - n.once.stage else 2)
      else 8
  }

  /** The node's own next step towards closing HTTP. */
  function Response(n: Node): Event {
    match n.run
    case AwaitingHandoff | AwaitingStop => OfSelect(TakesLease)
    case HandedOff => OfHandoff(VerifiesMetrics(false))
    case MetricsVerified => OfHandoff(VerifiesLease)
    case Announcing => OfHandoff(Announces)
    case _ =>
      if n.http.StopCalled? then OfShutdown(WatcherTakes)
      else if n.once.Idle? then OfFinish(RunShutsDown)
      else OfShutdown(Advances(true))
  }

  /** An exposed node always has a step of its own that brings it closer to
      closing HTTP, until HTTP is being closed. */
  lemma ExposedNodeResponds(n: Node)
    requires Invariant(n) && Exposed(n) && Distance(n) > 0
    ensures Step(n, Response(n)).Some?
    ensures Distance(Step(n, Response(n)).value) < Distance(n)
  {
    if !n.run.HasPlan() {
      RunResponds(n);
    } else {
      SequenceResponds(n);
    }
  }

  lemma RunResponds(n: Node)
    requires Invariant(n) && Exposed(n) && !n.run.HasPlan()
    ensures Step(n, Response(n)).Some?
    ensures Distance(Step(n, Response(n)).value) < Distance(n)
  {
  }

  lemma SequenceResponds(n: Node)
    requires Invariant(n) && Exposed(n) && Distance(n) > 0 && n.run.HasPlan()
    ensures Step(n, Response(n)).Some?
    ensures Distance(Step(n, Response(n)).value) < Distance(n)
  {
  }

  /** Still no further from closing HTTP. */
  predicate NoFurther(n: Node, t: Node) {
    t.http.Stopped? || (Exposed(t) && Distance(t) <= Distance(n))
  }

  lemma SelectNoFurther(n: Node, e: SelectEvent)
    requires Invariant(n) && Exposed(n) && SelectStep(n, e).Some?
    ensures NoFurther(n, SelectStep(n, e).value)
  {
  }

  lemma HandoffNoFurther(n: Node, e: HandoffEvent)
    requires Invariant(n) && Exposed(n) && HandoffStep(n, e).Some?
    ensures NoFurther(n, HandoffStep(n, e).value)
  {
  }

  lemma FinishNoFurther(n: Node, e: FinishEvent)
    requires Invariant(n) && Exposed(n) && FinishStep(n, e).Some?
    ensures NoFurther(n, FinishStep(n, e).value)
  {
  }

  lemma ServeNoFurther(n: Node, e: ServeEvent)
    requires Invariant(n) && Exposed(n) && ServeStep(n, e).Some?
    ensures NoFurther(n, ServeStep(n, e).value)
  {
  }

  lemma ShutdownNoFurther(n: Node, e: ShutdownEvent)
    requires Invariant(n) && Exposed(n) && ShutdownStep(n, e).Some?
    ensures NoFurther(n, ShutdownStep(n, e).value)
  {
    match e
    case Advances(ok) =>
      if n.once.stage < HTTP {
      } else if n.once.stage == HTTP {
      } else {
        assert false;
      }
    case HttpStops =>
    case WatcherTakes =>
    case WatcherEnds =>
  }

  lemma HostNoFurther(n: Node, e: HostEvent)
    requires Invariant(n) && Exposed(n) && HostStep(n, e).Some?
    ensures NoFurther(n, HostStep(n, e).value)
  {
  }

  lemma CloseNoFurther(n: Node, id: nat, e: CloseEvent)
    requires Invariant(n) && Exposed(n) && CloseStep(n, id, e).Some?
    ensures NoFurther(n, CloseStep(n, id, e).value)
  {
    if !e.CloseEnters? { assert CloserOk(n.g.ran, n.g.state, Result(n.once), n.closers[id]); }
  }

  /** No step of anyone, taken in between, can set it back. */
  lemma ExposureNeverGrows(n: Node, e: Event)
    requires Invariant(n) && Exposed(n) && Step(n, e).Some?
    ensures NoFurther(n, Step(n, e).value)
  {
    match e
    case OfStart(start) => assert false;
    case OfSelect(select) => SelectNoFurther(n, select);
    case OfHandoff(handing) => HandoffNoFurther(n, handing);
    case OfFinish(finish) => FinishNoFurther(n, finish);
    case OfServe(serving) => ServeNoFurther(n, serving);
    case OfShutdown(shutdown) => ShutdownNoFurther(n, shutdown);
    case OfHost(host) => HostNoFurther(n, host);
    case OfClose(id, close) => CloseNoFurther(n, id, close);
  }

  /** Taking the failure is committing to close: once nobody can read it from
      the channel any more, the plan forces or the drain has become a close. */
  lemma TakenFailureForces(events: seq<Event>)
    requires AfterEvents(events).Some? && Exposed(AfterEvents(events).value)
    requires !AfterEvents(events).value.leaseQueued
    ensures var n := AfterEvents(events).value;
            n.http == StopCalled(true) || (n.run.HasPlan() && n.run.plan.force && Progress(n.once) <= HTTP)
  {
    EveryRunKeepsInvariant(events);
  }

  lemma DistanceZero(n: Node)
    requires Invariant(n) && Exposed(n)
    ensures Distance(n) <= 13
    ensures Distance(n) == 0 ==> n.http == StopCalled(true)
  {
  }

  function From(n: Node, events: seq<Event>): Option<Node>
    decreases |events|
  {
    if events == [] then Some(n)
    else if Step(n, events[0]).None? then None
    else From(Step(n, events[0]).value, events[1..])
  }

  lemma FromSplits(n: Node, e: Event, rest: seq<Event>)
    requires Step(n, e).Some?
    ensures From(n, [e] + rest) == From(Step(n, e).value, rest)
  {
    assert ([e] + rest)[1..] == rest;
  }

  lemma OneResponse(n: Node) returns (t: Node)
    requires Invariant(n) && Exposed(n) && Distance(n) > 0
    ensures Step(n, Response(n)) == Some(t) && Invariant(t)
    ensures t.http.Stopped? || (Exposed(t) && Distance(t) < Distance(n))
  {
    ExposedNodeResponds(n);
    ExposureNeverGrows(n, Response(n));
    StepKeepsInvariant(n, Response(n));
    t := Step(n, Response(n)).value;
  }

  /** However a run came to serve on a failed lease, at most thirteen steps of
      the node's own take it to closing HTTP. */
  lemma {:induction false} LeaseFailureClosesHttp(n: Node) returns (more: seq<Event>, end: Node)
    requires Invariant(n) && Exposed(n)
    ensures From(n, more) == Some(end) && |more| <= Distance(n) <= 13
    ensures end.http == StopCalled(true) || end.http.Stopped?
    decreases Distance(n)
  {
    DistanceZero(n);
    if Distance(n) == 0 {
      return [], n;
    }
    var t := OneResponse(n);
    if t.http.Stopped? {
      more, end := [], t;
    } else {
      more, end := LeaseFailureClosesHttp(t);
    }
    FromSplits(n, Response(n), more);
    more := [Response(n)] + more;
  }

  // ----- the guarded fields

  lemma InvariantIsSound(n: Node)
    requires Invariant(n)
    ensures Sound(n.g)
  {
  }

  /** Every step of every thread goes through the Server's critical sections,
      calls them as they ask, and leaves what they keep. */
  lemma StepIsSection(n: Node, e: Event)
    requires Invariant(n) && Step(n, e).Some?
    ensures Sound(n.g) && Sound(Step(n, e).value.g) && BySection(n.g, Step(n, e).value.g)
    ensures e == OfStart(Binds) ==> n.g.ran && !n.g.httpServing
    ensures e == OfFinish(RunEnds) ==> n.g.ran
  {
    InvariantIsSound(n);
    StepKeepsInvariant(n, e);
    InvariantIsSound(Step(n, e).value);
    StepMovesForward(n, e);
  }

  // ----- every Close call can return

  /** A Close call that waits for the run has ended the run's context, unless the
      run is over. */
  ghost predicate Cancelled(ctxEnded: bool, runOver: bool, closers: map<nat, ClosePhase>) {
    forall id :: id in closers && closers[id].AwaitingRun? ==> ctxEnded || runOver
  }

  lemma CloseKeepsCancelled(n: Node, id: nat, e: CloseEvent)
    requires Cancelled(n.ctxEnded, n.g.runOver, n.closers) && CloseStep(n, id, e).Some?
    requires n.g.ran && n.g.state.Closed? ==> n.g.runOver
    ensures var t := CloseStep(n, id, e).value; Cancelled(t.ctxEnded, t.g.runOver, t.closers)
  {
    match e
    case CloseEnters =>
    case CloseUnready =>
    case CloseCancels =>
    case CloseJoins =>
    case CloseShutsDown =>
    case CloseReturns =>
  }

  lemma StepKeepsCancelled(n: Node, e: Event)
    requires Invariant(n) && Cancelled(n.ctxEnded, n.g.runOver, n.closers) && Step(n, e).Some?
    ensures var t := Step(n, e).value; Cancelled(t.ctxEnded, t.g.runOver, t.closers)
  {
    StepMovesForward(n, e);
    if e.OfClose? {
      CloseKeepsCancelled(n, e.id, e.close);
    }
  }

  lemma {:induction false} EveryRunIsCancelled(events: seq<Event>)
    requires AfterEvents(events).Some?
    ensures var n := AfterEvents(events).value; Cancelled(n.ctxEnded, n.g.runOver, n.closers)
  {
    if events != [] {
      var n := |events| - 1;
      EveryRunIsCancelled(events[..n]);
      EveryRunKeepsInvariant(events[..n]);
      StepKeepsCancelled(AfterEvents(events[..n]).value, events[n]);
    }
  }

  predicate Pending(n: Node, id: nat) { id in n.closers && !n.closers[id].CloseReturned? }

  /** The next step of the shutdown sequence; in the drain it is HTTP's Stop
      returning, and then the watcher's end. */
  function NextStage(n: Node): Event {
    if n.once.Busy? && n.once.stage == DRAIN && !n.http.Stopped? then OfShutdown(HttpStops)
    else if n.once.Busy? && n.once.stage == DRAIN && n.watching then OfShutdown(WatcherEnds)
    else OfShutdown(Advances(true))
  }

  /** The next step of a run whose context has ended. */
  function NextOfRun(n: Node): Event {
    match n.run
    case StartingUp => OfStart(StartupCancelled)
    case Bound => OfStart(BoundCancelled)
    case AwaitingHandoff | AwaitingStop => OfSelect(SeesCancel)
    case HandedOff => OfHandoff(VerifiesMetrics(false))
    case MetricsVerified => OfHandoff(VerifiesLease)
    case Announcing => OfHandoff(Announces)
    case _ =>
      if n.once.Idle? then OfFinish(RunShutsDown)
      else if n.once.Finished? then OfFinish(RunEnds)
      else NextStage(n)
  }

  function NextOfClose(n: Node, id: nat): Event
    requires Pending(n, id)
  {
    match n.closers[id]
    case NeedsUnready(_) => OfClose(id, CloseUnready)
    case NeedsCancel => OfClose(id, CloseCancels)
    case AwaitingRun => if n.g.runOver then OfClose(id, CloseJoins) else NextOfRun(n)
    case _ =>
      if n.once.Idle? then OfClose(id, CloseShutsDown)
      else if n.once.Finished? then OfClose(id, CloseReturns)
      else NextStage(n)
  }

  function CloseRank(phase: ClosePhase): nat {
    match phase
    case NeedsUnready(_) => 4 case NeedsCancel => 3 case AwaitingRun => 2 case WantsShutdown => 1 case CloseReturned(_) => 0
  }

  function RunRank(run: RunPhase): nat {
    match run
    case StartingUp => 8 case Bound => 7 case AwaitingHandoff => 6 case HandedOff => 5 case MetricsVerified => 4
    case Announcing => 3 case AwaitingStop => 2 case Planned(_) => 1 case _ => 0
  }

  function SequenceRank(once: Once, http: HttpStop, watching: bool): nat {
    match once
    case Idle => 51
    case Busy(_, _, stage, _) =>
      (if stage <= FORCED then 3 * (16 - stage) else 3) + (if http.Stopped? then 0 else 1) + if watching then 1 else 0
    case Finished(_, _) => 0
  }

  /** What is left to do before a Close call returns. */
  function Work(n: Node, id: nat): nat
    requires id in n.closers
  {
    CloseRank(n.closers[id]) + RunRank(n.run) + SequenceRank(n.once, n.http, n.watching)
  }

  /** One step of the sequence, and nothing of the run or of a Close call. */
  predicate Shorter(n: Node, t: Node) {
    && t.run == n.run && t.closers == n.closers
    && SequenceRank(t.once, t.http, t.watching) < SequenceRank(n.once, n.http, n.watching)
  }

  lemma EarlyStageWorks(n: Node)
    requires n.once.Busy? && n.once.stage < HTTP
    ensures Shorter(n, EarlyStage(n, true))
  {
  }

  lemma HttpStageWorks(n: Node)
    requires n.once.Busy? && n.once.stage == HTTP
    ensures Shorter(n, HttpStage(n))
  {
  }

  lemma LaterStageWorks(n: Node)
    requires n.once.Busy? && HTTP < n.once.stage <= FORCED && (n.once.stage == DRAIN ==> n.http.Stopped? && !n.watching)
    ensures LaterStage(n, true).Some? && Shorter(n, LaterStage(n, true).value)
  {
  }

  lemma DrainWorks(n: Node)
    requires n.once.Busy? && n.once.stage == DRAIN && !n.http.NotStopped? && (!n.http.Stopped? || n.watching)
    ensures Step(n, NextStage(n)).Some? && Shorter(n, Step(n, NextStage(n)).value)
  {
    if !n.http.Stopped? {
      assert Step(n, OfShutdown(HttpStops)) == ShutdownStep(n, HttpStops);
    } else {
      assert Step(n, OfShutdown(WatcherEnds)) == ShutdownStep(n, WatcherEnds);
    }
  }

  lemma StageWorks(n: Node)
    requires n.once.Busy? && n.once.stage <= FORCED && (n.once.stage == DRAIN ==> !n.http.NotStopped?)
    ensures Step(n, NextStage(n)).Some? && Shorter(n, Step(n, NextStage(n)).value)
  {
    if n.once.stage < HTTP {
      EarlyStageWorks(n);
    } else if n.once.stage == HTTP {
      HttpStageWorks(n);
    } else if n.once.stage == DRAIN && (!n.http.Stopped? || n.watching) {
      DrainWorks(n);
    } else {
      LaterStageWorks(n);
    }
  }

  /** One step of the run, and nothing of the sequence or of a Close call. */
  predicate RunShorter(n: Node, t: Node) {
    && t.closers == n.closers && t.once == n.once && t.http == n.http && t.watching == n.watching
    && RunRank(t.run) < RunRank(n.run)
  }

  lemma CancelledStartWorks(n: Node, e: StartEvent)
    requires n.ctxEnded && ((n.run.StartingUp? && e.StartupCancelled?) || (n.run.Bound? && e.BoundCancelled?))
    ensures StartStep(n, e).Some? && RunShorter(n, StartStep(n, e).value)
  {
  }

  lemma CancelledSelectWorks(n: Node)
    requires n.ctxEnded && Selecting(n)
    ensures SelectStep(n, SeesCancel).Some? && RunShorter(n, SelectStep(n, SeesCancel).value)
  {
  }

  lemma VerifyingWorks(n: Node, e: HandoffEvent)
    requires || (n.run.HandedOff? && e == VerifiesMetrics(false)) || (n.run.MetricsVerified? && e.VerifiesLease?)
             || (n.run.Announcing? && e.Announces?)
    ensures HandoffStep(n, e).Some? && RunShorter(n, HandoffStep(n, e).value)
  {
  }

  /** A run whose context has ended, before it has a plan. */
  lemma CancelledRunWorks(n: Node)
    requires n.ctxEnded && !n.run.NotRun? && !n.run.HasPlan()
    ensures Step(n, NextOfRun(n)).Some? && RunShorter(n, Step(n, NextOfRun(n)).value)
  {
    match n.run
    case StartingUp => CancelledStartWorks(n, StartupCancelled);
    case Bound => CancelledStartWorks(n, BoundCancelled);
    case HandedOff => VerifyingWorks(n, VerifiesMetrics(false));
    case MetricsVerified => VerifyingWorks(n, VerifiesLease);
    case Announcing => VerifyingWorks(n, Announces);
    case _ => CancelledSelectWorks(n);
  }

  lemma PlannedRunWorks(n: Node)
    requires n.run.Planned? && !n.once.Busy?
    ensures Step(n, NextOfRun(n)).Some?
    ensures var t := Step(n, NextOfRun(n)).value;
            && t.closers == n.closers && t.http == n.http && t.watching == n.watching
            && RunRank(t.run) + SequenceRank(t.once, t.http, t.watching) < RunRank(n.run) + SequenceRank(n.once, n.http, n.watching)
  {
    if n.once.Idle? {
      assert Step(n, OfFinish(RunShutsDown)) == FinishStep(n, RunShutsDown);
    } else {
      assert Step(n, OfFinish(RunEnds)) == FinishStep(n, RunEnds);
    }
  }

  lemma AwaitedRunWorks(n: Node, id: nat)
    requires Invariant(n) && n.ctxEnded && Pending(n, id) && n.closers[id].AwaitingRun? && !n.g.runOver
    ensures Step(n, NextOfRun(n)).Some?
    ensures var t := Step(n, NextOfRun(n)).value; id in t.closers && Work(t, id) < Work(n, id)
  {
    assert CloserOk(n.g.ran, n.g.state, Result(n.once), n.closers[id]);
    if !n.run.HasPlan() {
      CancelledRunWorks(n);
    } else if n.once.Busy? {
      StageWorks(n);
    } else {
      PlannedRunWorks(n);
    }
  }

  predicate CloseShorter(n: Node, id: nat, t: Node)
    requires id in n.closers
  {
    id in t.closers && Work(t, id) < Work(n, id)
  }

  lemma EnteringCloseWorks(n: Node, id: nat)
    requires id in n.closers
    ensures n.closers[id].NeedsUnready? ==>
              CloseStep(n, id, CloseUnready).Some? && CloseShorter(n, id, CloseStep(n, id, CloseUnready).value)
    ensures n.closers[id].NeedsCancel? ==>
              CloseStep(n, id, CloseCancels).Some? && CloseShorter(n, id, CloseStep(n, id, CloseCancels).value)
  {
  }

  lemma JoiningCloseWorks(n: Node, id: nat)
    requires id in n.closers && n.closers[id].AwaitingRun? && n.g.runOver
    ensures CloseStep(n, id, CloseJoins).Some? && CloseShorter(n, id, CloseStep(n, id, CloseJoins).value)
  {
  }

  lemma ShuttingCloseWorks(n: Node, id: nat)
    requires id in n.closers && n.closers[id].WantsShutdown? && n.once.Idle?
    ensures CloseStep(n, id, CloseShutsDown).Some? && CloseShorter(n, id, CloseStep(n, id, CloseShutsDown).value)
  {
    var once := Busy(ByClose(id), REQUESTED, BEGIN, []);
    assert CloseStep(n, id, CloseShutsDown) == Some(n.(once := once, shutdowns := n.shutdowns + 1));
    assert SequenceRank(once, n.http, n.watching) < SequenceRank(n.once, n.http, n.watching);
  }

  lemma ReturningCloseWorks(n: Node, id: nat)
    requires id in n.closers && n.closers[id].WantsShutdown? && n.once.Finished?
    ensures CloseStep(n, id, CloseReturns).Some? && CloseShorter(n, id, CloseStep(n, id, CloseReturns).value)
  {
    assert CloseStep(n, id, CloseReturns) == Some(n.(closers := n.closers[id := CloseReturned(n.once.outcome)]));
  }

  /** Its own steps, but for the run and the sequence. */
  lemma OwnStepWorks(n: Node, id: nat)
    requires Pending(n, id) && !(n.closers[id].AwaitingRun? && !n.g.runOver) && !(n.closers[id].WantsShutdown? && n.once.Busy?)
    ensures Step(n, NextOfClose(n, id)).Some? && CloseShorter(n, id, Step(n, NextOfClose(n, id)).value)
  {
    match n.closers[id]
    case AwaitingRun => JoiningCloseWorks(n, id);
    case WantsShutdown => if n.once.Idle? { ShuttingCloseWorks(n, id); } else { ReturningCloseWorks(n, id); }
    case _ => EnteringCloseWorks(n, id);
  }

  /** A pending Close call always has a next step, of its own, of the run, of the
      shutdown sequence or of HTTP's Stop, that leaves less to do. */
  lemma CloseWorks(n: Node, id: nat)
    requires Invariant(n) && Cancelled(n.ctxEnded, n.g.runOver, n.closers) && Pending(n, id)
    ensures Step(n, NextOfClose(n, id)).Some?
    ensures var t := Step(n, NextOfClose(n, id)).value; id in t.closers && Work(t, id) < Work(n, id)
  {
    if n.closers[id].AwaitingRun? && !n.g.runOver {
      AwaitedRunWorks(n, id);
    } else if n.closers[id].WantsShutdown? && n.once.Busy? {
      StageWorks(n);
    } else {
      OwnStepWorks(n, id);
    }
  }

  lemma WorkBounded(n: Node, id: nat)
    requires id in n.closers
    ensures Work(n, id) <= 63
  {
  }

  /** Steps of the run, of the shutdown sequence, of HTTP's Stop or of a Close
      call: nothing that the host, the lease or Serve decides. */
  predicate Unaided(e: Event) { !e.OfHost? && !e.OfServe? }

  lemma OneCloseStep(n: Node, id: nat) returns (t: Node)
    requires Invariant(n) && Cancelled(n.ctxEnded, n.g.runOver, n.closers) && Pending(n, id)
    ensures Step(n, NextOfClose(n, id)) == Some(t) && Unaided(NextOfClose(n, id)) && CloseShorter(n, id, t)
    ensures Invariant(t) && Cancelled(t.ctxEnded, t.g.runOver, t.closers)
  {
    CloseWorks(n, id);
    StepKeepsInvariant(n, NextOfClose(n, id));
    StepKeepsCancelled(n, NextOfClose(n, id));
    t := Step(n, NextOfClose(n, id)).value;
  }

  /** Every pending Close call can be brought to return by such steps. */
  lemma {:induction false} EveryCloseCanReturn(n: Node, id: nat) returns (more: seq<Event>, end: Node)
    requires Invariant(n) && Cancelled(n.ctxEnded, n.g.runOver, n.closers) && id in n.closers
    ensures From(n, more) == Some(end) && |more| <= Work(n, id)
    ensures id in end.closers && end.closers[id].CloseReturned?
    ensures forall e :: e in more ==> Unaided(e)
    decreases Work(n, id)
  {
    if n.closers[id].CloseReturned? {
      return [], n;
    }
    var t := OneCloseStep(n, id);
    more, end := EveryCloseCanReturn(t, id);
    FromSplits(n, NextOfClose(n, id), more);
    more := [NextOfClose(n, id)] + more;
  }

  /** After every run, at most sixty-three of them. */
  lemma EveryRunLetsCloseReturn(events: seq<Event>, id: nat) returns (more: seq<Event>, end: Node)
    requires AfterEvents(events).Some? && id in AfterEvents(events).value.closers
    ensures From(AfterEvents(events).value, more) == Some(end) && |more| <= 63
    ensures id in end.closers && end.closers[id].CloseReturned? && forall e :: e in more ==> Unaided(e)
  {
    EveryRunKeepsInvariant(events);
    EveryRunIsCancelled(events);
    WorkBounded(AfterEvents(events).value, id);
    more, end := EveryCloseCanReturn(AfterEvents(events).value, id);
  }
}
