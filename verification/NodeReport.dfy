/** What Run and Close report, read off the events of a run alone: which stages
    the shutdown sequence went through, which of them failed, whether the stop
    was forced, and why the run stopped (server/server.go, server/shutdown.go). */
module NodeReport {
  import opened Outcomes
  import opened Lifecycle
  import opened NodeProtocol

  predicate IsAdvance(e: Event) { e.OfShutdown? && e.shutdown.Advances? }

  /** Run reads that Serve has returned. */
  predicate ReadsExit(e: Event) { e.OfSelect? && e.select.SeesExit? }

  /** Run reads the failure of a dependency it needs. */
  predicate ReadsFailure(queued: bool, e: Event) {
    || e == OfSelect(TakesLease) || e == OfSelect(SeesMetrics) || e == OfHandoff(VerifiesMetrics(true))
    || (e == OfHandoff(VerifiesLease) && queued)
  }

  predicate FailsStartup(e: Event) { e.OfStart? && e.start.StartupFails? }

  /** The errors gathered so far. */
  function Errors(once: Once): seq<Stage> {
    match once
    case Idle => []
    case Busy(_, _, _, errors) => errors
    case Finished(_, outcome) => outcome.errors
  }

  function PlanOf(run: RunPhase): Option<Plan> { if run.HasPlan() then Some(run.plan) else None }

  // ----- what a step does

  /** The plan the run stops with. */
  predicate PlanMoves(plan: Option<Plan>, next: Option<Plan>, queued: bool, e: Event) {
    if plan.Some? || next.None? then next == plan && !ReadsExit(e) && !ReadsFailure(queued, e) && !FailsStartup(e)
    else
      && (next.value.serveExited <==> ReadsExit(e)) && (next.value.force <==> ReadsFailure(queued, e))
      && (next.value.cause <==> ReadsFailure(queued, e) || FailsStartup(e) || e == OfSelect(SeesExit(true)))
  }

  /** The signals the sequence listens to, and Serve's result. */
  predicate SignalsMove(n: Node, t: Node, e: Event) {
    && t.lost == (n.lost || e == OfShutdown(WatcherTakes)) && t.forced == (n.forced || e == OfHost(ForceStops))
    && t.serve.Exited? == (n.serve.Exited? || e == OfServe(ServeExits))
  }

  /** All steps but an advance leave the sequence where it is. */
  predicate Waits(n: Node, t: Node) {
    && Progress(t.once) == Progress(n.once) && Errors(t.once) == Errors(n.once) && t.once.Finished? == n.once.Finished?
    && (n.once.Finished? ==> t.once == n.once) && t.http.NotStopped? == n.http.NotStopped?
    && (t.httpBuilt == n.httpBuilt || n.run.Bound?)
  }

  /** What they do to the signals, to Serve's result and to the plan. */
  predicate Marks(n: Node, t: Node, e: Event) {
    && t.exit == ((n.exit || e == OfServe(ServeExits)) && !ReadsExit(e))
    && SignalsMove(n, t, e) && PlanMoves(PlanOf(n.run), PlanOf(t.run), n.leaseQueued, e)
  }

  predicate Holds(n: Node, t: Node, e: Event) { Waits(n, t) && Marks(n, t, e) }

  /** The run's plan, the handoff and Serve are left alone. */
  predicate Still(n: Node, t: Node) { t.serve == n.serve && t.handoff == n.handoff && PlanOf(t.run) == PlanOf(n.run) }

  lemma StartWaits(n: Node, e: StartEvent)
    requires StartStep(n, e).Some?
    ensures Waits(n, StartStep(n, e).value)
  {
  }

  lemma StartMarks(n: Node, e: StartEvent)
    requires StartStep(n, e).Some? && (n.run.Bound? ==> n.serve.Absent?)
    ensures Marks(n, StartStep(n, e).value, OfStart(e))
  {
  }

  lemma StartHolds(n: Node, e: StartEvent)
    requires StartStep(n, e).Some? && (n.run.Bound? ==> n.serve.Absent?)
    ensures Holds(n, StartStep(n, e).value, OfStart(e))
  {
    StartWaits(n, e);
    StartMarks(n, e);
  }

  lemma SelectWaits(n: Node, e: SelectEvent)
    requires SelectStep(n, e).Some?
    ensures Waits(n, SelectStep(n, e).value)
  {
  }

  lemma SelectMarks(n: Node, e: SelectEvent)
    requires SelectStep(n, e).Some?
    ensures Marks(n, SelectStep(n, e).value, OfSelect(e))
  {
  }

  lemma SelectHolds(n: Node, e: SelectEvent)
    requires SelectStep(n, e).Some?
    ensures Holds(n, SelectStep(n, e).value, OfSelect(e))
  {
    SelectWaits(n, e);
    SelectMarks(n, e);
  }

  lemma HandoffWaits(n: Node, e: HandoffEvent)
    requires HandoffStep(n, e).Some?
    ensures Waits(n, HandoffStep(n, e).value)
  {
  }

  lemma HandoffMarks(n: Node, e: HandoffEvent)
    requires HandoffStep(n, e).Some?
    ensures Marks(n, HandoffStep(n, e).value, OfHandoff(e))
  {
  }

  lemma HandoffHolds(n: Node, e: HandoffEvent)
    requires HandoffStep(n, e).Some?
    ensures Holds(n, HandoffStep(n, e).value, OfHandoff(e))
  {
    HandoffWaits(n, e);
    HandoffMarks(n, e);
  }

  lemma FinishHolds(n: Node, e: FinishEvent)
    requires FinishStep(n, e).Some?
    ensures Holds(n, FinishStep(n, e).value, OfFinish(e)) && Still(n, FinishStep(n, e).value)
  {
  }

  lemma ServeHolds(n: Node, e: ServeEvent)
    requires ServeStep(n, e).Some?
    ensures Holds(n, ServeStep(n, e).value, OfServe(e))
  {
  }

  lemma HttpHolds(n: Node, e: ShutdownEvent)
    requires ShutdownStep(n, e).Some? && !e.Advances?
    ensures Holds(n, ShutdownStep(n, e).value, OfShutdown(e)) && Still(n, ShutdownStep(n, e).value)
  {
  }

  lemma CloseWaits(n: Node, id: nat, e: CloseEvent)
    requires CloseStep(n, id, e).Some?
    ensures Waits(n, CloseStep(n, id, e).value)
  {
  }

  lemma CloseMarks(n: Node, id: nat, e: CloseEvent)
    requires CloseStep(n, id, e).Some?
    ensures Marks(n, CloseStep(n, id, e).value, OfClose(id, e))
  {
  }

  lemma CloseHolds(n: Node, id: nat, e: CloseEvent)
    requires CloseStep(n, id, e).Some?
    ensures Holds(n, CloseStep(n, id, e).value, OfClose(id, e)) && Still(n, CloseStep(n, id, e).value)
  {
    CloseWaits(n, id, e);
    CloseMarks(n, id, e);
  }

  lemma HostHolds(n: Node, e: HostEvent)
    requires HostStep(n, e).Some?
    ensures Holds(n, HostStep(n, e).value, OfHost(e)) && Still(n, HostStep(n, e).value)
  {
  }

  lemma OthersHold(n: Node, e: Event)
    requires Step(n, e).Some? && !IsAdvance(e) && (n.run.Bound? ==> n.serve.Absent?)
    ensures Holds(n, Step(n, e).value, e)
  {
    match e
    case OfStart(start) => StartHolds(n, start);
    case OfSelect(select) => SelectHolds(n, select);
    case OfHandoff(handing) => HandoffHolds(n, handing);
    case OfFinish(finish) => FinishHolds(n, finish);
    case OfServe(serving) => ServeHolds(n, serving);
    case OfShutdown(shutdown) => HttpHolds(n, shutdown);
    case OfClose(id, close) => CloseHolds(n, id, close);
    case OfHost(host) => HostHolds(n, host);
  }

  /** The step of the present stage returns an error: closing a listener the
      Server owns, a drain whose Stop failed or that lost the lease, a Serve that
      failed or has not returned in time unless Run had read its result, and the
      components from Jobs to Platform. */
  predicate StageFails(stage: Stage, ok: bool, owned: bool, lost: bool, read: bool, returned: bool) {
    if stage == LISTENER then !ok && owned
    else if stage == DRAIN then !ok || lost
    else if stage == SERVE_EXIT then !read && (!ok || !returned)
    else JOBS <= stage <= PLATFORM && !ok
  }

  /** The stage after this one. */
  function Following(n: Node): nat
    requires n.once.Busy?
  {
    if n.once.stage != HTTP then n.once.stage + 1
    else if n.httpBuilt && (n.once.plan.force || n.g.httpServing) then DRAIN
    else if n.httpBuilt then SERVE_EXIT
    else END_RUN
  }

  /** An advance moves on by one stage, and its error is the last of the errors. */
  predicate MovesOn(n: Node, t: Node, ok: bool)
    requires n.once.Busy?
  {
    && t.lost == n.lost && t.forced == n.forced && t.serve == n.serve && t.run == n.run && t.handoff == n.handoff
    && (n.once.stage < SERVE_EXIT ==> t.exit == n.exit)
    && t.httpBuilt == n.httpBuilt && Progress(t.once) == Following(n)
    && Errors(t.once) == Errors(n.once)
       + (if StageFails(n.once.stage, ok, n.g.listener, n.lost, n.once.plan.serveExited, n.exit) then [n.once.stage] else [])
    && (t.once.Finished? <==> n.once.stage == FORCED) && (t.once.Finished? ==> t.once.outcome.forced == n.forced)
    && (t.http.NotStopped? <==> n.http.NotStopped? && Following(n) != DRAIN)
  }

  lemma EarlyAdvances(n: Node, ok: bool)
    requires n.once.Busy? && n.once.stage < HTTP
    ensures MovesOn(n, EarlyStage(n, ok), ok)
  {
  }

  lemma HttpAdvances(n: Node, ok: bool)
    requires n.once.Busy? && n.once.stage == HTTP
    ensures MovesOn(n, HttpStage(n), ok)
  {
  }

  lemma LaterAdvances(n: Node, ok: bool)
    requires n.once.Busy? && HTTP < n.once.stage <= FORCED && LaterStage(n, ok).Some?
    ensures MovesOn(n, LaterStage(n, ok).value, ok)
  {
  }

  lemma StageAdvances(n: Node, ok: bool)
    requires n.once.Busy? && n.once.stage <= FORCED && StageStep(n, ok).Some?
    ensures MovesOn(n, StageStep(n, ok).value, ok)
  {
    if n.once.stage < HTTP {
      EarlyAdvances(n, ok);
    } else if n.once.stage == HTTP {
      HttpAdvances(n, ok);
    } else {
      LaterAdvances(n, ok);
    }
  }

  // ----- why the run stopped

  ghost predicate ExitRead(events: seq<Event>) { exists e :: e in events && ReadsExit(e) }

  ghost predicate StartupFailed(events: seq<Event>) { exists e :: e in events && FailsStartup(e) }

  /** The run read a failure: at some event, or at the one look before readiness
      with a failure queued. */
  predicate FailureRead(events: seq<Event>)
    requires AfterEvents(events).Some?
  {
    events != [] &&
    var past := events[..|events| - 1];
    FailureRead(past) || ReadsFailure(AfterEvents(past).value.leaseQueued, events[|events| - 1])
  }

  ghost predicate PlanTold(plan: Option<Plan>, exitRead: bool, exitBad: bool, failureRead: bool, startupFailed: bool) {
    match plan
    case None => !exitRead && !exitBad && !failureRead && !startupFailed
    case Some(p) =>
      && (p.serveExited <==> exitRead) && (p.force <==> failureRead)
      && (p.cause <==> failureRead || startupFailed || exitBad)
  }

  lemma {:induction false} LastEvent(events: seq<Event>)
    requires events != []
    ensures var past, last := events[..|events| - 1], events[|events| - 1];
            && (forall e :: e in events <==> e in past || e == last)
            && (ExitRead(events) <==> ExitRead(past) || ReadsExit(last))
            && (StartupFailed(events) <==> StartupFailed(past) || FailsStartup(last))
  {
    var past, last := events[..|events| - 1], events[|events| - 1];
    assert events == past + [last];
  }

  lemma AdvanceReadsNothing(e: Event, queued: bool)
    requires IsAdvance(e)
    ensures !ReadsExit(e) && !ReadsFailure(queued, e) && !FailsStartup(e)
  {
  }

  /** Steps leave the plan told. */
  lemma StepPlans(n: Node, e: Event)
    requires Invariant(n) && Step(n, e).Some?
    ensures PlanMoves(PlanOf(n.run), PlanOf(Step(n, e).value.run), n.leaseQueued, e)
  {
    if IsAdvance(e) {
      StageAdvances(n, e.shutdown.ok);
      AdvanceReadsNothing(e, n.leaseQueued);
    } else {
      OthersHold(n, e);
    }
  }

  /** In every interleaving Run's plan tells why it stops: it closes HTTP at once
      exactly when it read the failure of the lease or of metrics, it knows of
      Serve's return exactly when it read that, and it reports a cause exactly when
      a dependency, startup or Serve failed. */
  lemma {:induction false} PlanTellsWhy(events: seq<Event>)
    requires AfterEvents(events).Some?
    ensures PlanTold(PlanOf(AfterEvents(events).value.run), ExitRead(events), OfSelect(SeesExit(true)) in events,
                     FailureRead(events), StartupFailed(events))
  {
    if events != [] {
      var past, last := events[..|events| - 1], events[|events| - 1];
      PlanTellsWhy(past);
      LastEvent(events);
      EveryRunKeepsInvariant(past);
      StepPlans(AfterEvents(past).value, last);
    }
  }

  // ----- the signals of the sequence

  /** Until the sequence waits for it, Serve's result is there exactly when Serve
      has returned and Run has not read it. */
  predicate ExitWaits(exit: bool, exited: bool, plan: Option<Plan>, progress: nat) {
    var read := plan.Some? && plan.value.serveExited;
    (read ==> exited) && (progress <= SERVE_EXIT ==> (exit <==> exited && !read))
  }

  ghost predicate SignalsTold(n: Node, events: seq<Event>) {
    && (n.lost <==> OfShutdown(WatcherTakes) in events) && (n.forced <==> OfHost(ForceStops) in events)
    && (n.serve.Exited? <==> OfServe(ServeExits) in events)
    && ExitWaits(n.exit, n.serve.Exited?, PlanOf(n.run), Progress(n.once))
  }

  lemma OthersKeepExit(n: Node, e: Event, t: Node)
    requires Holds(n, t, e) && ExitWaits(n.exit, n.serve.Exited?, PlanOf(n.run), Progress(n.once))
    requires ReadsExit(e) ==> n.exit && Progress(n.once) <= SERVE_EXIT
    requires e == OfServe(ServeExits) ==> !n.serve.Exited?
    ensures ExitWaits(t.exit, t.serve.Exited?, PlanOf(t.run), Progress(t.once))
  {
  }

  /** When those steps can be taken. */
  lemma ExitSteps(n: Node, e: Event)
    requires Invariant(n) && Step(n, e).Some?
    ensures ReadsExit(e) ==> n.exit && Progress(n.once) <= SERVE_EXIT
    ensures e == OfServe(ServeExits) ==> !n.serve.Exited?
    ensures n.run.Bound? ==> n.serve.Absent?
    ensures IsAdvance(e) ==> n.once.Busy? && n.once.stage <= FORCED && Step(n, e) == StageStep(n, e.shutdown.ok)
  {
  }

  lemma {:induction false} SignalsTell(events: seq<Event>)
    requires AfterEvents(events).Some?
    ensures SignalsTold(AfterEvents(events).value, events)
  {
    if events != [] {
      var past, last := events[..|events| - 1], events[|events| - 1];
      SignalsTell(past);
      LastEvent(events);
      EveryRunKeepsInvariant(past);
      var n := AfterEvents(past).value;
      ExitSteps(n, last);
      if IsAdvance(last) {
        StageAdvances(n, last.shutdown.ok);
      } else {
        OthersHold(n, last);
        OthersKeepExit(n, last, AfterEvents(events).value);
      }
    }
  }

  // ----- the errors Run and Close report

  /** The stage whose step failed at this event, if any. */
  ghost function FailureOf(n: Node, past: seq<Event>, e: Event): seq<Stage> {
    if IsAdvance(e) && n.once.Busy?
       && StageFails(n.once.stage, e.shutdown.ok, n.g.listener, OfShutdown(WatcherTakes) in past, ExitRead(past),
                     OfServe(ServeExits) in past)
    then [n.once.stage] else []
  }

  /** The stages whose steps failed in a run, in order. */
  ghost function Failures(events: seq<Event>): seq<Stage>
    requires AfterEvents(events).Some?
  {
    if events == [] then []
    else
      var past := events[..|events| - 1];
      Failures(past) + FailureOf(AfterEvents(past).value, past, events[|events| - 1])
  }

  lemma ServeTold(n: Node, past: seq<Event>)
    requires Invariant(n) && n.once.Busy? && n.once.stage == SERVE_EXIT && SignalsTold(n, past)
    requires PlanTold(PlanOf(n.run), ExitRead(past), OfSelect(SeesExit(true)) in past, n.run.HasPlan() && n.run.plan.force,
                      StartupFailed(past))
    ensures n.once.plan.serveExited == ExitRead(past) && (!ExitRead(past) ==> n.exit == (OfServe(ServeExits) in past))
  {
  }

  lemma FailureTold(n: Node, past: seq<Event>, e: Event, t: Node)
    requires Invariant(n) && n.once.Busy? && IsAdvance(e) && MovesOn(n, t, e.shutdown.ok) && SignalsTold(n, past)
    requires PlanTold(PlanOf(n.run), ExitRead(past), OfSelect(SeesExit(true)) in past, n.run.HasPlan() && n.run.plan.force,
                      StartupFailed(past))
    ensures Errors(t.once) == Errors(n.once) + FailureOf(n, past, e)
  {
    if n.once.stage == SERVE_EXIT { ServeTold(n, past); }
  }

  /** In every interleaving the errors of the sequence are exactly those of the
      steps that failed, in order. */
  lemma {:induction false} ErrorsTold(events: seq<Event>)
    requires AfterEvents(events).Some?
    ensures Errors(AfterEvents(events).value.once) == Failures(events)
  {
    if events != [] {
      var past, last := events[..|events| - 1], events[|events| - 1];
      ErrorsTold(past);
      EveryRunKeepsInvariant(past);
      var n := AfterEvents(past).value;
      ExitSteps(n, last);
      if IsAdvance(last) {
        SignalsTell(past);
        PlanTellsWhy(past);
        StageAdvances(n, last.shutdown.ok);
        FailureTold(n, past, last, AfterEvents(events).value);
      } else {
        OthersHold(n, last);
      }
    }
  }

  // ----- the stages

  /** The stage that the event leaves behind, if it is an advance. */
  function StageOf(once: Once, e: Event): seq<Stage> { if IsAdvance(e) && once.Busy? then [once.stage] else [] }

  /** The stages a run went through. */
  function Stages(events: seq<Event>): seq<Stage>
    requires AfterEvents(events).Some?
  {
    if events == [] then []
    else
      var past := events[..|events| - 1];
      Stages(past) + StageOf(AfterEvents(past).value.once, events[|events| - 1])
  }

  /** The stages due by now: all before the present one, but a drain only if
      HTTP's Stop was called, and a wait for Serve only if there is one. */
  predicate Due(stage: Stage, progress: nat, stopped: bool, built: bool) {
    stage < progress && stage <= FORCED && (stage == DRAIN ==> stopped) && (stage == SERVE_EXIT ==> built)
  }

  ghost predicate Increasing(stages: seq<Stage>) { forall i, j :: 0 <= i < j < |stages| ==> stages[i] < stages[j] }

  ghost predicate OnSchedule(stages: seq<Stage>, progress: nat, stopped: bool, built: bool) {
    && Increasing(stages) && (forall s: Stage :: s in stages <==> Due(s, progress, stopped, built))
    && (progress == SERVE_EXIT ==> built) && (progress <= HTTP ==> !stopped)
  }

  /** One more stage. */
  lemma OneMore(stages: seq<Stage>, progress: nat, stopped: bool, built: bool, next: nat, stopped': bool)
    requires OnSchedule(stages, progress, stopped, built) && progress <= FORCED
    requires if progress == HTTP then
               (if next == DRAIN then built && stopped' else !stopped' && next == if built then SERVE_EXIT else END_RUN)
             else next == progress + 1 && stopped' == stopped
    requires progress == DRAIN ==> stopped && built
    ensures OnSchedule(stages + [progress], next, stopped', built)
  {
    forall i | 0 <= i < |stages| ensures stages[i] < progress { assert stages[i] in stages; }
    forall s: Stage ensures s in stages + [progress] <==> Due(s, next, stopped', built) {
      assert s in stages <==> Due(s, progress, stopped, built);
    }
  }

  ghost predicate Scheduled(n: Node, stages: seq<Stage>) {
    OnSchedule(stages, Progress(n.once), !n.http.NotStopped?, n.httpBuilt)
  }

  lemma AdvanceKeepsSchedule(n: Node, ok: bool, t: Node, stages: seq<Stage>)
    requires Invariant(n) && n.once.Busy? && MovesOn(n, t, ok) && Scheduled(n, stages)
    ensures Scheduled(t, stages + [n.once.stage])
  {
    OneMore(stages, n.once.stage, !n.http.NotStopped?, n.httpBuilt, Progress(t.once), !t.http.NotStopped?);
  }

  lemma OthersKeepSchedule(n: Node, e: Event, t: Node, stages: seq<Stage>)
    requires Invariant(n) && Holds(n, t, e) && Scheduled(n, stages)
    ensures Scheduled(t, stages)
  {
  }

  lemma StopWhereDue(n: Node)
    requires Invariant(n) && Progress(n.once) > HTTP
    ensures n.http.NotStopped? <==> !MustStop(n)
  {
  }

  /** In every interleaving the sequence goes through exactly the stages due, in
      order, each once. HTTP is drained or closed exactly when it serves or the
      plan forces it. */
  lemma {:induction false} StagesInOrder(events: seq<Event>)
    requires AfterEvents(events).Some?
    ensures var n := AfterEvents(events).value;
            && Scheduled(n, Stages(events))
            && (Progress(n.once) > HTTP ==> (n.http.NotStopped? <==> !MustStop(n)))
  {
    EveryRunKeepsInvariant(events);
    if Progress(AfterEvents(events).value.once) > HTTP { StopWhereDue(AfterEvents(events).value); }
    if events != [] {
      var past, last := events[..|events| - 1], events[|events| - 1];
      StagesInOrder(past);
      EveryRunKeepsInvariant(past);
      var n := AfterEvents(past).value;
      ExitSteps(n, last);
      if IsAdvance(last) {
        StageAdvances(n, last.shutdown.ok);
        AdvanceKeepsSchedule(n, last.shutdown.ok, AfterEvents(events).value, Stages(past));
      } else {
        OthersHold(n, last);
        OthersKeepSchedule(n, last, AfterEvents(events).value, Stages(past));
      }
    }
  }

  // ----- what Run and Close return

  /** The sequence ended at event k. */
  ghost predicate EndedAt(events: seq<Event>, k: nat)
    requires AfterEvents(events).Some?
  {
    k < |events| && AfterEvents(events[..k]).Some? && AfterEvents(events[..k]).value.once.Busy?
    && AfterEvents(events[..k + 1]).Some? && AfterEvents(events[..k + 1]).value.once.Finished?
  }

  /** A finished sequence ended at some event, and says that the stop was forced
      exactly when ForceStop had been called by then. */
  lemma {:induction false} ForcedTold(events: seq<Event>) returns (k: nat)
    requires AfterEvents(events).Some? && AfterEvents(events).value.once.Finished?
    ensures EndedAt(events, k) && (AfterEvents(events).value.once.outcome.forced <==> OfHost(ForceStops) in events[..k])
  {
    var past, last := events[..|events| - 1], events[|events| - 1];
    EveryRunKeepsInvariant(past);
    var n := AfterEvents(past).value;
    ExitSteps(n, last);
    if IsAdvance(last) {
      k := |events| - 1;
      StageAdvances(n, last.shutdown.ok);
      SignalsTell(past);
      assert events[..k + 1] == events;
    } else {
      OthersHold(n, last);
      k := ForcedTold(past);
      assert past[..k] == events[..k] && past[..k + 1] == events[..k + 1];
    }
  }

  /** What Run and every Close call return: the errors of exactly the steps that
      failed, in order. */
  lemma ReturnsTold(events: seq<Event>)
    requires AfterEvents(events).Some?
    ensures var n := AfterEvents(events).value;
            && (n.run.RunReturned? ==> n.run.outcome.errors == Failures(events))
            && (forall id :: id in n.closers && n.closers[id].CloseReturned? ==> n.closers[id].outcome.errors == Failures(events))
  {
    ShutdownOnce(events);
    ErrorsTold(events);
  }

  // ----- nothing stops unasked

  /** Cancelled, or closing. */
  predicate Asked(n: Node) { n.ctxEnded || Halting(n.g.state) }

  /** The handoff is refused, and the run stops without a cause, only when asked
      to; a clean return of Serve aside. */
  predicate OnlyAsked(n: Node) {
    && (n.serve == Answering(false) || n.serve.Refused? || n.handoff == Some(false) ==> Asked(n))
    && (n.run.HasPlan() && !n.run.plan.cause && !n.run.plan.serveExited ==> Asked(n))
  }

  lemma StartAsked(n: Node, e: StartEvent)
    requires OnlyAsked(n) && StartStep(n, e).Some?
    ensures OnlyAsked(StartStep(n, e).value)
  {
  }

  lemma SelectAsked(n: Node, e: SelectEvent)
    requires OnlyAsked(n) && SelectStep(n, e).Some?
    ensures OnlyAsked(SelectStep(n, e).value)
  {
  }

  lemma HandoffAsked(n: Node, e: HandoffEvent)
    requires Invariant(n) && OnlyAsked(n) && HandoffStep(n, e).Some?
    ensures OnlyAsked(HandoffStep(n, e).value)
  {
  }

  lemma ServeAsked(n: Node, e: ServeEvent)
    requires Invariant(n) && OnlyAsked(n) && ServeStep(n, e).Some?
    ensures OnlyAsked(ServeStep(n, e).value)
  {
  }

  lemma OthersAsked(n: Node, t: Node)
    requires OnlyAsked(n) && Still(n, t) && (n.ctxEnded ==> t.ctxEnded) && n.g.state.Order() <= t.g.state.Order()
    ensures OnlyAsked(t)
  {
  }

  lemma StaysStill(n: Node, e: Event)
    requires Invariant(n) && Step(n, e).Some? && (e.OfFinish? || e.OfShutdown? || e.OfClose? || e.OfHost?)
    ensures Still(n, Step(n, e).value)
  {
    match e
    case OfFinish(finish) => FinishHolds(n, finish);
    case OfShutdown(shutdown) =>
      ExitSteps(n, e);
      if shutdown.Advances? { StageAdvances(n, shutdown.ok); } else { HttpHolds(n, shutdown); }
    case OfClose(id, close) => CloseHolds(n, id, close);
    case OfHost(host) => HostHolds(n, host);
  }

  lemma StepAsked(n: Node, e: Event)
    requires Invariant(n) && OnlyAsked(n) && Step(n, e).Some?
    ensures OnlyAsked(Step(n, e).value)
  {
    match e
    case OfStart(start) => StartAsked(n, start);
    case OfSelect(select) => SelectAsked(n, select);
    case OfHandoff(handing) => HandoffAsked(n, handing);
    case OfServe(serving) => ServeAsked(n, serving);
    case OfFinish(_) | OfShutdown(_) | OfClose(_, _) | OfHost(_) =>
      StaysStill(n, e);
      StepMovesForward(n, e);
      OthersAsked(n, Step(n, e).value);
  }

  /** In every interleaving Run stops without a cause only when it was cancelled,
      the node is closing, or Serve returned cleanly. */
  lemma {:induction false} StopsOnlyAsked(events: seq<Event>)
    requires AfterEvents(events).Some?
    ensures OnlyAsked(AfterEvents(events).value)
  {
    if events != [] {
      var n := |events| - 1;
      StopsOnlyAsked(events[..n]);
      EveryRunKeepsInvariant(events[..n]);
      StepAsked(AfterEvents(events[..n]).value, events[n]);
    }
  }

  // ----- a run can serve

  /** A run that has begun, has not been asked to stop and has seen no failure. */
  predicate Hopeful(n: Node) {
    n.g.ran && !n.run.HasPlan() && !Asked(n) && !n.leaseQueued && (n.serve.Exited? ==> n.g.state.Running?)
  }

  function NextToServe(n: Node): Event {
    if n.run.StartingUp? then OfStart(Binds)
    else if n.run.Bound? then OfStart(StartsHttp)
    else if n.run.AwaitingHandoff? then
      (if n.serve.Preparing? then OfServe(Answers) else if n.serve.Answering? then OfServe(SendsAnswer) else OfHandoff(SeesHandoff))
    else if n.run.HandedOff? then OfHandoff(VerifiesMetrics(false))
    else if n.run.MetricsVerified? then OfHandoff(VerifiesLease)
    else OfHandoff(Announces)
  }

  function StepsToServe(n: Node): nat {
    if n.run.StartingUp? then 8
    else if n.run.Bound? then 7
    else if n.run.AwaitingHandoff? then (if n.serve.Preparing? then 6 else if n.serve.Answering? then 5 else 4)
    else if n.run.HandedOff? then 3
    else if n.run.MetricsVerified? then 2
    else if n.run.Announcing? then 1
    else 0
  }

  /** One step nearer, and ready once there. */
  predicate Nearer(n: Node, t: Node) {
    && Hopeful(t) && StepsToServe(t) < StepsToServe(n)
    && (StepsToServe(t) == 0 ==> t.g.state.Running? && t.g.ready)
  }

  lemma StartsNearer(n: Node)
    requires Invariant(n) && Hopeful(n) && (n.run.StartingUp? || n.run.Bound?)
    ensures var t := StartStep(n, NextToServe(n).start); t.Some? && Nearer(n, t.value)
  {
  }

  lemma HandsOverNearer(n: Node)
    requires Invariant(n) && OnlyAsked(n) && Hopeful(n) && n.run.AwaitingHandoff? && (n.serve.Preparing? || n.serve.Answering?)
    ensures var t := ServeStep(n, NextToServe(n).serving); t.Some? && Nearer(n, t.value)
  {
  }

  lemma SeesNearer(n: Node)
    requires Invariant(n) && OnlyAsked(n) && Hopeful(n) && n.run.AwaitingHandoff? && n.serve.Owning?
    ensures var t := HandoffStep(n, SeesHandoff); t.Some? && Nearer(n, t.value)
  {
  }

  lemma VerifiesNearer(n: Node)
    requires Invariant(n) && Hopeful(n) && (n.run.HandedOff? || n.run.MetricsVerified? || n.run.Announcing?)
    ensures var t := HandoffStep(n, NextToServe(n).handing); t.Some? && Nearer(n, t.value)
  {
  }

  lemma OneStepNearer(n: Node)
    requires Invariant(n) && OnlyAsked(n) && Hopeful(n) && StepsToServe(n) > 0
    ensures var t := Step(n, NextToServe(n)); t.Some? && Nearer(n, t.value)
  {
    if n.run.StartingUp? || n.run.Bound? {
      StartsNearer(n);
    } else if n.run.AwaitingHandoff? && (n.serve.Preparing? || n.serve.Answering?) {
      HandsOverNearer(n);
    } else if n.run.AwaitingHandoff? {
      assert n.serve.Owning?;
      SeesNearer(n);
    } else {
      VerifiesNearer(n);
    }
  }

  /** A run that has begun, was not asked to stop and has seen no failure can become
      ready in at most eight steps. */
  lemma {:induction false} CanServe(n: Node) returns (more: seq<Event>, end: Node)
    requires Invariant(n) && OnlyAsked(n) && Hopeful(n) && StepsToServe(n) > 0
    ensures From(n, more) == Some(end) && |more| <= StepsToServe(n) <= 8 && end.g.state.Running? && end.g.ready
    decreases StepsToServe(n)
  {
    OneStepNearer(n);
    var e := NextToServe(n);
    var t := Step(n, e).value;
    StepKeepsInvariant(n, e);
    StepAsked(n, e);
    if StepsToServe(t) == 0 {
      more, end := [e], t;
      FromSplits(n, e, []);
      assert [e] + [] == [e];
    } else {
      more, end := CanServe(t);
      FromSplits(n, e, more);
      more := [e] + more;
    }
  }

  lemma EveryRunCanServe(events: seq<Event>) returns (more: seq<Event>, end: Node)
    requires AfterEvents(events).Some? && Hopeful(AfterEvents(events).value) && StepsToServe(AfterEvents(events).value) > 0
    ensures From(AfterEvents(events).value, more) == Some(end) && |more| <= 8 && end.g.state.Running? && end.g.ready
  {
    EveryRunKeepsInvariant(events);
    StopsOnlyAsked(events);
    more, end := CanServe(AfterEvents(events).value);
  }
}
