/** Fixed windows: what one counter bounds, for any sequence of increments. */
module FixedWindow {
  import opened Outcomes
  import opened Attempts

  /** One step at one counter: it is left alone and admits nothing, or it is
      incremented by at least so much, and admits only while its new value is
      within the maximum. */
  ghost predicate Moves(c: Option<Counter>, next: Option<Counter>, now: int, ttl: nat, least: nat, admitted: bool, maximum: int) {
    || (next == c && !admitted)
    || exists delta: nat ::
         && next == Bump(c, delta, ttl, now) && next.Some? && least <= delta
         && (admitted ==> delta > 0 && next.value.value <= maximum)
  }

  /** A counter over time: its value before each step, the time of each step,
      and whether the step admitted an attempt. */
  datatype Trace = Trace(counter: nat -> Option<Counter>, now: nat -> int, admitted: nat -> bool)

  /** From step lo up to step hi the clock never goes back and every step moves
      the counter. */
  ghost predicate Fixed(t: Trace, lo: nat, hi: nat, ttl: nat, least: nat, maximum: int) {
    && ttl > 0
    && (forall i :: lo <= i < hi ==> Moves(t.counter(i), t.counter(i + 1), t.now(i), ttl, least, t.admitted(i), maximum))
    && (forall i, j :: lo <= i <= j < hi ==> t.now(i) <= t.now(j))
  }

  /** Counters that count up from nothing and always expire. */
  predicate Sound(c: Option<Counter>, least: nat) { c.Some? ==> c.value.value >= least && c.value.expiresAt.Some? }

  lemma MovesSound(c: Option<Counter>, next: Option<Counter>, now: int, ttl: nat, least: nat, admitted: bool, maximum: int)
    requires Moves(c, next, now, ttl, least, admitted, maximum) && ttl > 0 && Sound(c, least)
    ensures Sound(next, least)
  {
  }

  function Admissions(admitted: nat -> bool, lo: nat, hi: nat): nat
    requires lo <= hi
  {
    if lo == hi then 0 else Admissions(admitted, lo, hi - 1) + if admitted(hi - 1) then 1 else 0
  }

  lemma {:induction false} AdmissionsSplit(admitted: nat -> bool, lo: nat, mid: nat, hi: nat)
    requires lo <= mid <= hi
    ensures Admissions(admitted, lo, hi) == Admissions(admitted, lo, mid) + Admissions(admitted, mid, hi)
  {
    if mid < hi { AdmissionsSplit(admitted, lo, mid, hi - 1); }
  }

  /** While one counter lives, its deadline stays and everything it admits is
      counted in it. */
  lemma {:induction false} WhileLive(t: Trace, ttl: nat, least: nat, maximum: int, lo: nat, hi: nat)
    requires lo <= hi && Fixed(t, lo, hi, ttl, least, maximum)
    requires t.counter(lo).Some? && Sound(t.counter(lo), least)
    requires hi > lo ==> t.now(hi - 1) < t.counter(lo).value.expiresAt.value
    ensures var first, last, n := t.counter(lo).value, t.counter(hi), Admissions(t.admitted, lo, hi);
            && last.Some? && last.value.expiresAt == first.expiresAt
            && last.value.value >= first.value + n
            && (n > 0 ==> first.value + n <= maximum)
    decreases hi
  {
    if lo < hi {
      assert hi - 1 > lo ==> t.now(hi - 2) <= t.now(hi - 1);
      WhileLive(t, ttl, least, maximum, lo, hi - 1);
      assert Moves(t.counter(hi - 1), t.counter(hi), t.now(hi - 1), ttl, least, t.admitted(hi - 1), maximum);
    }
  }

  /** From a step that finds no live counter, within one lifetime: at most the
      maximum is admitted. */
  lemma {:induction false} OneWindow(t: Trace, ttl: nat, least: nat, maximum: nat, lo: nat, hi: nat)
    requires lo < hi && Fixed(t, lo, hi, ttl, least, maximum)
    requires Sound(t.counter(lo), least) && Live(t.counter(lo), t.now(lo)).None? && t.now(hi - 1) < t.now(lo) + ttl
    ensures Admissions(t.admitted, lo, hi) <= maximum
    decreases hi - lo
  {
    AdmissionsSplit(t.admitted, lo, lo + 1, hi);
    assert Moves(t.counter(lo), t.counter(lo + 1), t.now(lo), ttl, least, t.admitted(lo), maximum);
    assert Admissions(t.admitted, lo, lo + 1) == Admissions(t.admitted, lo, lo) + if t.admitted(lo) then 1 else 0;
    if t.counter(lo + 1) == t.counter(lo) && !t.admitted(lo) {
      if lo + 1 < hi {
        assert t.now(lo) <= t.now(lo + 1);
        OneWindow(t, ttl, least, maximum, lo + 1, hi);
      }
    } else {
      WhileLive(t, ttl, least, maximum, lo + 1, hi);
    }
  }

  lemma {:induction false} FirstNotBefore(now: nat -> int, lo: nat, hi: nat, deadline: int) returns (mid: nat)
    requires lo <= hi
    ensures lo <= mid <= hi && (mid > lo ==> now(mid - 1) < deadline) && (mid < hi ==> now(mid) >= deadline)
    decreases hi - lo
  {
    mid := lo;
    if lo < hi && now(lo) < deadline { mid := FirstNotBefore(now, lo + 1, hi, deadline); }
  }

  /** In any span shorter than a lifetime at most twice the maximum is admitted,
      and one less where every step counts. */
  lemma AnySpan(t: Trace, ttl: nat, least: nat, maximum: nat, lo: nat, hi: nat)
    requires lo < hi && Fixed(t, lo, hi, ttl, least, maximum) && least <= 1
    requires Sound(t.counter(lo), least) && t.now(hi - 1) < t.now(lo) + ttl
    ensures var n := Admissions(t.admitted, lo, hi); n == 0 || n <= 2 * maximum - least
  {
    if Live(t.counter(lo), t.now(lo)).None? {
      OneWindow(t, ttl, least, maximum, lo, hi);
    } else {
      var mid := FirstNotBefore(t.now, lo, hi, t.counter(lo).value.expiresAt.value);
      AdmissionsSplit(t.admitted, lo, mid, hi);
      WhileLive(t, ttl, least, maximum, lo, mid);
      if mid < hi {
        assert t.now(lo) <= t.now(mid);
        OneWindow(t, ttl, least, maximum, mid, hi);
      }
    }
  }
}

/** Rate limits over whole runs of local logins: what the fixed windows of
    Attempts add up to, in any interleaving of the single cache calls of many
    logins with each other, with resets and failure counters, and with the other
    purposes that share the cache. */
module LoginRuns {
  import opened Outcomes
  import opened AttemptKeys
  import opened Attempts
  import FixedWindow

  // ----- steps

  /** An account call in progress: the counts read back so far, and whether a
      charge failed. */
  datatype Call = Call(intent: Intent, counts: seq<int>, failed: bool)

  datatype World = World(counters: Counters, calls: map<nat, Call>)

  const EMPTY := World(map[], map[])

  /** A call enters with its intent, charges its next limit, a counter is reset,
      or a failure counter is read or incremented: one cache call a step. */
  datatype Action =
    | Enter(id: nat, intent: Intent)
    | ChargeNext(id: nat, fault: bool)
    | Forget(subject: Subject)
    | Note(subject: Subject, delta: nat, window: int, fault: bool)

  datatype Event = Event(now: int, action: Action)

  /** The call has a limit left to charge. */
  predicate Open(w: World, id: nat) {
    id in w.calls && !w.calls[id].failed && |w.calls[id].counts| < |w.calls[id].intent.limits|
  }

  function NextKey(lib: Library, call: Call): Bytes
    requires |call.counts| < |call.intent.limits|
  {
    LimitKey(lib, call.intent, |call.counts|)
  }

  function Counted(call: Call, count: Option<int>): Call {
    if count.None? then call.(failed := true) else call.(counts := call.counts + [count.value])
  }

  ghost function Step(lib: Library, w: World, e: Event): World {
    match e.action
    case Enter(id, intent) =>
      if id !in w.calls && ValidIntent(intent) then w.(calls := w.calls[id := Call(intent, [], false)]) else w
    case ChargeNext(id, fault) =>
      if !Open(w, id) then w
      else
        var call := w.calls[id];
        var (next, count) := Added(w.counters, NextKey(lib, call), 1, call.intent.window, e.now, fault);
        World(next, w.calls[id := Counted(call, count)])
    case Forget(subject) => w.(counters := w.counters - {Key(lib, subject)})
    case Note(subject, delta, window, fault) =>
      w.(counters := Added(w.counters, Key(lib, subject), delta, window, e.now, fault).0)
  }

  /** Every limit was charged and every count is within its maximum. */
  ghost predicate Admitted(w: World, id: nat) {
    id in w.calls && Within(w.calls[id].intent, Charge(w.counters, w.calls[id].counts, w.calls[id].failed))
  }

  // ----- the account method is these steps in a row

  /** The world after the first n events. */
  ghost function After(lib: Library, w: World, events: seq<Event>, n: nat): World
    requires n <= |events|
  {
    if n == 0 then w else Step(lib, After(lib, w, events, n - 1), events[n - 1])
  }

  /** A call that enters and charges its limits with nothing in between. */
  predicate Undisturbed(events: seq<Event>, id: nat, intent: Intent, faults: seq<bool>, now: int) {
    && |events| == |faults| + 1 && events[0] == Event(now, Enter(id, intent))
    && forall k :: 0 <= k < |faults| ==> events[k + 1] == Event(now, ChargeNext(id, faults[k]))
  }

  /** One charge step, over what it charges. */
  lemma ChargeStep(lib: Library, counters: Counters, calls: map<nat, Call>, id: nat, call: Call, now: int, fault: bool,
                   next: Counters, count: Option<int>)
    requires !call.failed && |call.counts| < |call.intent.limits|
    requires (next, count) == Added(counters, NextKey(lib, call), 1, call.intent.window, now, fault)
    ensures Step(lib, World(counters, calls[id := call]), Event(now, ChargeNext(id, fault)))
            == World(next, calls[id := Counted(call, count)])
  {
    assert calls[id := call][id := Counted(call, count)] == calls[id := Counted(call, count)];
  }

  ghost predicate Holds(w: World, calls: map<nat, Call>, id: nat, intent: Intent, charge: Charge) {
    w == World(charge.counters, calls[id := Call(intent, charge.counts, charge.failed)])
  }

  /** One turn of the account method's loop is one charge step. */
  lemma ChargeIsStep(lib: Library, w: World, calls: map<nat, Call>, id: nat, intent: Intent, now: int, fault: bool, n: nat,
                     add: (Counters, nat) -> (Counters, Option<int>), counters: Counters)
    requires n < |intent.limits| && Holds(w, calls, id, intent, Charged(add, n, counters))
    requires Adds(add, Charged(add, n, counters).counters, n, LimitKey(lib, intent, n), intent.window, now, fault)
    ensures Holds(Step(lib, w, Event(now, ChargeNext(id, fault))), calls, id, intent, Charged(add, n + 1, counters))
  {
    var before := Charged(add, n, counters);
    if !before.failed {
      var (next, count) := add(before.counters, n);
      ChargeStep(lib, before.counters, calls, id, Call(intent, before.counts, false), now, fault, next, count);
    }
  }

  lemma EnterStep(lib: Library, w: World, id: nat, intent: Intent, now: int, add: (Counters, nat) -> (Counters, Option<int>))
    requires id !in w.calls && ValidIntent(intent)
    ensures Holds(Step(lib, w, Event(now, Enter(id, intent))), w.calls, id, intent, Charged(add, 0, w.counters))
  {
  }

  lemma AfterOne(lib: Library, w: World, events: seq<Event>, n: nat)
    requires n < |events|
    ensures After(lib, w, events, n + 1) == Step(lib, After(lib, w, events, n), events[n])
  {
  }

  lemma {:induction false} AccountIsSteps(lib: Library, w: World, events: seq<Event>, id: nat, intent: Intent, faults: seq<bool>,
                                          now: int, n: nat, add: (Counters, nat) -> (Counters, Option<int>))
    requires id !in w.calls && ValidIntent(intent) && n <= |intent.limits| == |faults|
    requires Undisturbed(events, id, intent, faults, now)
    requires forall c, i :: 0 <= i < |faults| ==> Adds(add, c, i, LimitKey(lib, intent, i), intent.window, now, faults[i])
    ensures Holds(After(lib, w, events, n + 1), w.calls, id, intent, Charged(add, n, w.counters))
  {
    AfterOne(lib, w, events, n);
    if n == 0 {
      EnterStep(lib, w, id, intent, now, add);
    } else {
      AccountIsSteps(lib, w, events, id, intent, faults, now, n - 1, add);
      ChargeIsStep(lib, After(lib, w, events, n), w.calls, id, intent, now, faults[n - 1], n - 1, add, w.counters);
    }
  }

  lemma AdderAdds(lib: Library, intent: Intent, faults: seq<bool>, now: int, c: Counters, i: nat)
    requires i < |intent.limits| == |faults|
    ensures Adds(Adder(lib, intent, faults, now), c, i, LimitKey(lib, intent, i), intent.window, now, faults[i])
  {
  }

  lemma HoldsAdmits(w: World, calls: map<nat, Call>, id: nat, intent: Intent, charge: Charge)
    requires Holds(w, calls, id, intent, charge)
    ensures Admitted(w, id) <==> Within(intent, charge)
  {
  }

  /** Entering and charging every limit, with nothing in between, is what the
      account method does, and it admits exactly what that admits. */
  lemma UndisturbedAccount(lib: Library, w: World, events: seq<Event>, id: nat, intent: Intent, faults: seq<bool>, now: int,
                           after: World, charge: Charge)
    requires id !in w.calls && ValidIntent(intent) && |intent.limits| == |faults| && Undisturbed(events, id, intent, faults, now)
    requires after == After(lib, w, events, |events|) && charge == ChargedAll(lib, intent, faults, now, w.counters)
    ensures after.counters == charge.counters && (Admitted(after, id) <==> Within(intent, charge))
  {
    var add := Adder(lib, intent, faults, now);
    forall c, i | 0 <= i < |faults| ensures Adds(add, c, i, LimitKey(lib, intent, i), intent.window, now, faults[i]) {
      AdderAdds(lib, intent, faults, now, c, i);
    }
    AccountIsSteps(lib, w, events, id, intent, faults, now, |faults|, add);
    HoldsAdmits(after, w.calls, id, intent, charge);
  }

  // ----- runs

  datatype Policy = Policy(window: int, maximumAttempts: nat, maximumSourceAttempts: nat)

  /** checkLoginRateLimit's intent. */
  function LoginIntent(policy: Policy, login: Bytes, source: Bytes): Intent {
    Intent(LOCAL_LOGIN, [], policy.window,
           [Limit(IDENTITY_SOURCE, policy.maximumAttempts, login, source),
            Limit(SOURCE, policy.maximumSourceAttempts, [], source)])
  }

  predicate IsLogin(policy: Policy, intent: Intent) {
    |intent.limits| == 2 && intent == LoginIntent(policy, intent.limits[0].identity, intent.limits[0].source)
  }

  /** What may happen at the cache: local logins by the policy, any account call
      and any reset of another purpose, failure counters, and the resets of a
      successful local login, which never name the source counter. */
  predicate Conforms(policy: Policy, e: Event) {
    match e.action
    case Enter(_, intent) => intent.purpose == LOCAL_LOGIN ==> IsLogin(policy, intent)
    case ChargeNext(_, _) => true
    case Forget(subject) =>
      Admissible(subject)
      && (subject.purpose == LOCAL_LOGIN ==> subject.dimension == IDENTITY_SOURCE || subject.dimension == ACCOUNT_FAILURE)
    case Note(subject, _, _, _) => Admissible(subject) && subject.dimension == ACCOUNT_FAILURE
  }

  ghost predicate IsRun(policy: Policy, events: seq<Event>) {
    && (forall e :: e in events ==> Conforms(policy, e))
    && (forall i, j :: 0 <= i <= j < |events| ==> events[i].now <= events[j].now)
  }

  /** The world after the first n events, from an empty cache. */
  ghost function WorldAt(lib: Library, events: seq<Event>, n: nat): World
    requires n <= |events|
  {
    After(lib, EMPTY, events, n)
  }

  ghost predicate CallsOk(policy: Policy, calls: map<nat, Call>) {
    forall id :: id in calls ==>
      && ValidIntent(calls[id].intent) && |calls[id].counts| <= |calls[id].intent.limits|
      && (calls[id].intent.purpose == LOCAL_LOGIN ==> IsLogin(policy, calls[id].intent))
  }

  lemma StepKeepsCalls(lib: Library, policy: Policy, w: World, e: Event)
    requires CallsOk(policy, w.calls) && Conforms(policy, e)
    ensures CallsOk(policy, Step(lib, w, e).calls)
  {
  }

  lemma {:induction false} RunKeepsCalls(lib: Library, policy: Policy, events: seq<Event>, n: nat)
    requires IsRun(policy, events) && n <= |events|
    ensures CallsOk(policy, WorldAt(lib, events, n).calls)
  {
    if n > 0 {
      assert events[n - 1] in events;
      RunKeepsCalls(lib, policy, events, n - 1);
      StepKeepsCalls(lib, policy, WorldAt(lib, events, n - 1), events[n - 1]);
    }
  }

  /** A call keeps its intent, its counts so far and its failure. */
  predicate Continues(before: Call, after: Call) {
    after.intent == before.intent && before.counts <= after.counts && (before.failed ==> after.failed)
  }

  lemma {:induction false} CallContinues(lib: Library, events: seq<Event>, i: nat, n: nat, id: nat)
    requires i <= n <= |events| && id in WorldAt(lib, events, i).calls
    ensures id in WorldAt(lib, events, n).calls
    ensures Continues(WorldAt(lib, events, i).calls[id], WorldAt(lib, events, n).calls[id])
  {
    if i < n {
      CallContinues(lib, events, i, n - 1, id);
    }
  }

  // ----- one login counter

  /** One of the two counters a local login charges. */
  predicate LoginSubject(s: Subject) {
    Admissible(s) && s.purpose == LOCAL_LOGIN && s.qualifier == [] && (s.dimension == IDENTITY_SOURCE || s.dimension == SOURCE)
  }

  function Maximum(policy: Policy, s: Subject): nat {
    if s.dimension == SOURCE then policy.maximumSourceAttempts else policy.maximumAttempts
  }

  /** Which limit of a login charges it. */
  function OwnLimit(s: Subject): nat { if s.dimension == SOURCE then 1 else 0 }

  /** The local login counts under the subject's counter: same normalised
      source, and for a pair the same normalised identity. */
  predicate Concerns(lib: Library, s: Subject, intent: Intent) {
    && intent.purpose == LOCAL_LOGIN && |intent.limits| == 2
    && NormalSource(lib, intent.limits[0].source) == NormalSource(lib, s.source)
    && (s.dimension == IDENTITY_SOURCE ==> NormalIdentity(lib, intent.limits[0].identity) == NormalIdentity(lib, s.identity))
  }

  /** The charges that reach the subject's counter are those of the local logins
      that concern it, each at its own limit. */
  lemma ChargesExactly(lib: Library, policy: Policy, s: Subject, call: Call)
    requires Bounded(lib) && LoginSubject(s) && ValidIntent(call.intent) && |call.counts| < |call.intent.limits|
    requires call.intent.purpose == LOCAL_LOGIN ==> IsLogin(policy, call.intent)
    ensures NextKey(lib, call) == Key(lib, s) <==> Concerns(lib, s, call.intent) && |call.counts| == OwnLimit(s)
  {
    var limit := call.intent.limits[|call.counts|];
    assert limit in call.intent.limits;
    KeyExact(lib, SubjectOf(call.intent, limit), s);
  }

  /** The event charges the subject's counter. */
  predicate Charging(lib: Library, s: Subject, w: World, e: Event) {
    && e.action.ChargeNext? && Open(w, e.action.id)
    && Concerns(lib, s, w.calls[e.action.id].intent) && |w.calls[e.action.id].counts| == OwnLimit(s)
  }

  /** The lifetime of counters with this window; when the window has none no
      counter is ever charged, and any lifetime does. */
  function Lifetime(window: int): (ttl: nat)
    ensures ttl > 0 && ttl >= window
  {
    var normal := NormalTTL(window);
    if normal.Some? && window > 0 then normal.value else if window > 0 then window else 1
  }

  /** The count this event read back, and whether it is within the maximum. */
  ghost predicate Passes(lib: Library, policy: Policy, s: Subject, w: World, e: Event) {
    var t := Step(lib, w, e);
    && Charging(lib, s, w, e) && e.action.id in t.calls && !t.calls[e.action.id].failed
    && |t.calls[e.action.id].counts| > OwnLimit(s) && t.calls[e.action.id].counts[OwnLimit(s)] <= Maximum(policy, s)
  }

  lemma ChargeMoves(lib: Library, policy: Policy, s: Subject, w: World, e: Event, admitted: bool)
    requires Bounded(lib) && LoginSubject(s) && CallsOk(policy, w.calls) && e.action.ChargeNext? && Open(w, e.action.id)
    requires admitted ==> Passes(lib, policy, s, w, e)
    ensures FixedWindow.Moves(At(w.counters, Key(lib, s)), At(Step(lib, w, e).counters, Key(lib, s)), e.now,
                              Lifetime(policy.window), 1, admitted, Maximum(policy, s))
  {
    var call, c := w.calls[e.action.id], At(w.counters, Key(lib, s));
    ChargesExactly(lib, policy, s, call);
    var added := Added(w.counters, NextKey(lib, call), 1, call.intent.window, e.now, e.action.fault);
    if NextKey(lib, call) == Key(lib, s) && added.1.Some? {
      assert call.intent.window == policy.window && NormalTTL(policy.window) == Some(Lifetime(policy.window));
      assert At(added.0, Key(lib, s)) == Bump(c, 1, Lifetime(policy.window), e.now);
    }
  }

  /** Every event that is not a reset of the subject moves its counter by the
      fixed window's rules, and by one where it moves it. */
  lemma EventMoves(lib: Library, policy: Policy, s: Subject, w: World, e: Event, admitted: bool)
    requires Bounded(lib) && LoginSubject(s) && CallsOk(policy, w.calls) && Conforms(policy, e)
    requires e.action.Forget? ==> Key(lib, e.action.subject) != Key(lib, s)
    requires admitted ==> Passes(lib, policy, s, w, e)
    ensures FixedWindow.Moves(At(w.counters, Key(lib, s)), At(Step(lib, w, e).counters, Key(lib, s)), e.now,
                              Lifetime(policy.window), 1, admitted, Maximum(policy, s))
  {
    match e.action
    case Enter(_, _) =>
    case ChargeNext(id, _) => if Open(w, id) { ChargeMoves(lib, policy, s, w, e, admitted); }
    case Forget(subject) =>
    case Note(subject, _, _, _) => KeyExact(lib, subject, s);
  }

  /** A successful login's resets never reach a source counter. */
  lemma SourceNeverForgotten(lib: Library, policy: Policy, s: Subject, e: Event)
    requires Bounded(lib) && LoginSubject(s) && s.dimension == SOURCE && Conforms(policy, e) && e.action.Forget?
    ensures Key(lib, e.action.subject) != Key(lib, s)
  {
    KeyExact(lib, e.action.subject, s);
  }

  // ----- admitted logins

  /** The event charges the subject's counter for a login that is admitted. */
  ghost predicate Flag(lib: Library, s: Subject, events: seq<Event>, i: nat)
    requires i < |events|
  {
    Charging(lib, s, WorldAt(lib, events, i), events[i]) && Admitted(WorldAt(lib, events, |events|), events[i].action.id)
  }

  /** The subject's counter over the run. */
  ghost function TraceOf(lib: Library, s: Subject, events: seq<Event>): FixedWindow.Trace {
    FixedWindow.Trace(
      (n: nat) => if n <= |events| then At(WorldAt(lib, events, n).counters, Key(lib, s)) else None,
      (i: nat) => if i < |events| then events[i].now else 0,
      (i: nat) => i < |events| && Flag(lib, s, events, i))
  }

  /** The admitted local logins that concern the subject and charged its counter
      at events lo to hi. */
  ghost function AdmittedLogins(lib: Library, s: Subject, events: seq<Event>, lo: nat, hi: nat): nat
    requires lo <= hi
  {
    FixedWindow.Admissions(TraceOf(lib, s, events).admitted, lo, hi)
  }

  lemma FlagPasses(lib: Library, policy: Policy, s: Subject, events: seq<Event>, i: nat)
    requires IsRun(policy, events) && i < |events| && Flag(lib, s, events, i)
    ensures Passes(lib, policy, s, WorldAt(lib, events, i), events[i])
  {
    var id, n := events[i].action.id, |events|;
    RunKeepsCalls(lib, policy, events, i);
    CallContinues(lib, events, i, i + 1, id);
    CallContinues(lib, events, i + 1, n, id);
    var next, last := WorldAt(lib, events, i + 1).calls[id], WorldAt(lib, events, n).calls[id];
    assert !next.failed && next.counts[OwnLimit(s)] == last.counts[OwnLimit(s)];
  }

  /** Each admitted login is counted once. */
  lemma CountedOnce(lib: Library, s: Subject, events: seq<Event>, i: nat, j: nat)
    requires i < j < |events| && Flag(lib, s, events, i) && Flag(lib, s, events, j)
    ensures events[i].action.id != events[j].action.id
  {
    var id, n := events[i].action.id, |events|;
    CallContinues(lib, events, i, i + 1, id);
    CallContinues(lib, events, i + 1, n, id);
    CallContinues(lib, events, i + 1, j, id);
    assert !WorldAt(lib, events, i + 1).calls[id].failed;
  }

  lemma {:induction false} ChargedSomewhere(lib: Library, s: Subject, events: seq<Event>, n: nat, id: nat) returns (i: nat)
    requires n <= |events| && id in WorldAt(lib, events, n).calls && Concerns(lib, s, WorldAt(lib, events, n).calls[id].intent)
    requires |WorldAt(lib, events, n).calls[id].counts| > OwnLimit(s)
    ensures i < n && Charging(lib, s, WorldAt(lib, events, i), events[i]) && events[i].action.id == id
  {
    var before := WorldAt(lib, events, n - 1);
    if id in before.calls && |before.calls[id].counts| > OwnLimit(s) {
      i := ChargedSomewhere(lib, s, events, n - 1, id);
    } else {
      i := n - 1;
    }
  }

  /** And none is missed. */
  lemma CountedSomewhere(lib: Library, s: Subject, events: seq<Event>, id: nat) returns (i: nat)
    requires Admitted(WorldAt(lib, events, |events|), id) && Concerns(lib, s, WorldAt(lib, events, |events|).calls[id].intent)
    ensures i < |events| && Flag(lib, s, events, i) && events[i].action.id == id
  {
    i := ChargedSomewhere(lib, s, events, |events|, id);
  }

  // ----- the limits

  ghost predicate Forgotten(lib: Library, s: Subject, events: seq<Event>, lo: nat, hi: nat)
    requires lo <= hi <= |events|
  {
    exists i :: lo <= i < hi && events[i].action.Forget? && Key(lib, events[i].action.subject) == Key(lib, s)
  }

  lemma TraceMoves(lib: Library, policy: Policy, s: Subject, events: seq<Event>, k: nat)
    requires Bounded(lib) && LoginSubject(s) && IsRun(policy, events) && k < |events|
    requires events[k].action.Forget? ==> Key(lib, events[k].action.subject) != Key(lib, s)
    ensures var t := TraceOf(lib, s, events);
            FixedWindow.Moves(t.counter(k), t.counter(k + 1), t.now(k), Lifetime(policy.window), 1, t.admitted(k),
                              Maximum(policy, s))
  {
    assert events[k] in events;
    RunKeepsCalls(lib, policy, events, k);
    if Flag(lib, s, events, k) { FlagPasses(lib, policy, s, events, k); }
    EventMoves(lib, policy, s, WorldAt(lib, events, k), events[k], Flag(lib, s, events, k));
  }

  lemma TraceIsFixed(lib: Library, policy: Policy, s: Subject, events: seq<Event>, lo: nat, hi: nat)
    requires Bounded(lib) && LoginSubject(s) && IsRun(policy, events) && lo <= hi <= |events|
    requires !Forgotten(lib, s, events, lo, hi)
    ensures FixedWindow.Fixed(TraceOf(lib, s, events), lo, hi, Lifetime(policy.window), 1, Maximum(policy, s))
  {
    forall k: nat | lo <= k < hi ensures
      var t := TraceOf(lib, s, events);
      FixedWindow.Moves(t.counter(k), t.counter(k + 1), t.now(k), Lifetime(policy.window), 1, t.admitted(k), Maximum(policy, s))
    {
      TraceMoves(lib, policy, s, events, k);
    }
  }

  lemma ForgetClears(lib: Library, s: Subject, events: seq<Event>, k: nat)
    requires k < |events| && events[k].action.Forget? && Key(lib, events[k].action.subject) == Key(lib, s)
    ensures TraceOf(lib, s, events).counter(k + 1) == None
  {
    AfterOne(lib, EMPTY, events, k);
  }

  lemma {:induction false} RunIsSound(lib: Library, policy: Policy, s: Subject, events: seq<Event>, n: nat, t: FixedWindow.Trace)
    requires Bounded(lib) && LoginSubject(s) && IsRun(policy, events) && n <= |events| && t == TraceOf(lib, s, events)
    ensures FixedWindow.Sound(t.counter(n), 1)
  {
    if n > 0 {
      RunIsSound(lib, policy, s, events, n - 1, t);
      if events[n - 1].action.Forget? && Key(lib, events[n - 1].action.subject) == Key(lib, s) {
        ForgetClears(lib, s, events, n - 1);
      } else {
        TraceMoves(lib, policy, s, events, n - 1);
        FixedWindow.MovesSound(t.counter(n - 1), t.counter(n), t.now(n - 1), Lifetime(policy.window), 1, t.admitted(n - 1),
                               Maximum(policy, s));
      }
    }
  }

  /** Every run, for a source or an identity and source: between resets, at most
      the maximum in the window that event lo opens, and less than twice the
      maximum in any span shorter than the window. */
  lemma WindowLimit(lib: Library, policy: Policy, s: Subject, events: seq<Event>, lo: nat, hi: nat)
    requires Bounded(lib) && LoginSubject(s) && IsRun(policy, events) && lo < hi <= |events|
    requires !Forgotten(lib, s, events, lo, hi) && events[hi - 1].now < events[lo].now + policy.window
    ensures var n := AdmittedLogins(lib, s, events, lo, hi);
            && (Live(At(WorldAt(lib, events, lo).counters, Key(lib, s)), events[lo].now).None? ==> n <= Maximum(policy, s))
            && (n == 0 || n <= 2 * Maximum(policy, s) - 1)
  {
    TraceIsFixed(lib, policy, s, events, lo, hi);
    var t, ttl, maximum := TraceOf(lib, s, events), Lifetime(policy.window), Maximum(policy, s);
    RunIsSound(lib, policy, s, events, lo, t);
    if Live(t.counter(lo), t.now(lo)).None? { FixedWindow.OneWindow(t, ttl, 1, maximum, lo, hi); }
    FixedWindow.AnySpan(t, ttl, 1, maximum, lo, hi);
  }

  /** Whatever succeeds in between, one source is admitted at most
      MaximumSourceAttempts times in a window. */
  lemma SourceLimit(lib: Library, policy: Policy, source: Bytes, events: seq<Event>, lo: nat, hi: nat)
    requires Bounded(lib) && |source| <= MAXIMUM_SOURCE && IsRun(policy, events) && lo < hi <= |events|
    requires events[hi - 1].now < events[lo].now + policy.window
    ensures var s := Subject(LOCAL_LOGIN, SOURCE, [], [], source);
            var n := AdmittedLogins(lib, s, events, lo, hi);
            && (Live(At(WorldAt(lib, events, lo).counters, Key(lib, s)), events[lo].now).None? ==>
                  n <= policy.maximumSourceAttempts)
            && (n == 0 || n <= 2 * policy.maximumSourceAttempts - 1)
  {
    var s := Subject(LOCAL_LOGIN, SOURCE, [], [], source);
    forall i | lo <= i < hi && events[i].action.Forget? ensures Key(lib, events[i].action.subject) != Key(lib, s) {
      assert events[i] in events;
      SourceNeverForgotten(lib, policy, s, events[i]);
    }
    WindowLimit(lib, policy, s, events, lo, hi);
  }
}
