/** A run that reaches the span bound: one login opens the window, the rest of
    the maximum follows as it closes, and as many again once it has. */
module LoginSpan {
  import opened Outcomes
  import opened AttemptKeys
  import opened Attempts
  import opened LoginRuns
  import FixedWindow

  datatype Burst = Burst(window: int, ttl: nat, maximum: nat, login: Bytes, source: Bytes)

  predicate Fits(b: Burst) {
    && b.window >= 2 && NormalTTL(b.window) == Some(b.ttl) && 0 < b.maximum <= MAX_INT64
    && |b.login| <= MAXIMUM_IDENTITY && |b.source| <= MAXIMUM_SOURCE
  }

  function PolicyOf(b: Burst): Policy { Policy(b.window, b.maximum, b.maximum) }

  function IntentOf(b: Burst): Intent { LoginIntent(PolicyOf(b), b.login, b.source) }

  function Time(b: Burst, k: nat): int { if k == 0 then 0 else if k < b.maximum then b.ttl - 1 else b.ttl }

  function EventOf(b: Burst, i: nat): Event {
    Event(Time(b, i / 3), if i % 3 == 0 then Enter(i / 3, IntentOf(b)) else ChargeNext(i / 3, false))
  }

  function Run(b: Burst): seq<Event> { seq(6 * b.maximum, (i: nat) => EventOf(b, i)) }

  /** What login k leaves in both of its counters. */
  function Left(b: Burst, k: nat): Counter {
    if k < b.maximum then Counter(k + 1, Some(b.ttl)) else Counter(k + 1 - b.maximum, Some(2 * b.ttl))
  }

  function Served(b: Burst, k: nat): Call { Call(IntentOf(b), [Left(b, k).value, Left(b, k).value], false) }

  function Pair(lib: Library, b: Burst): Bytes { LimitKey(lib, IntentOf(b), 0) }

  function Source(lib: Library, b: Burst): Bytes { LimitKey(lib, IntentOf(b), 1) }

  lemma PairIsNotSource(lib: Library, b: Burst)
    requires Bounded(lib) && Fits(b)
    ensures Pair(lib, b) != Source(lib, b)
  {
    var intent := IntentOf(b);
    KeyExact(lib, SubjectOf(intent, intent.limits[0]), SubjectOf(intent, intent.limits[1]));
  }

  /** The world once k logins are through. */
  ghost function Through(lib: Library, b: Burst, k: nat): World {
    if k == 0 then EMPTY
    else World(map[Pair(lib, b) := Left(b, k - 1), Source(lib, b) := Left(b, k - 1)],
               Through(lib, b, k - 1).calls[k - 1 := Served(b, k - 1)])
  }

  lemma {:induction false} ThroughCalls(lib: Library, b: Burst, k: nat, j: nat)
    ensures j in Through(lib, b, k).calls <==> j < k
    ensures j < k ==> Through(lib, b, k).calls[j] == Served(b, j)
  {
    if k > 0 { ThroughCalls(lib, b, k - 1, j); }
  }

  lemma Bumped(b: Burst, k: nat)
    requires Fits(b) && k < 2 * b.maximum
    ensures Bump(if k == 0 then None else Some(Left(b, k - 1)), 1, b.ttl, Time(b, k)) == Some(Left(b, k))
  {
  }

  lemma Charges(lib: Library, b: Burst, k: nat, counters: Counters, calls: map<nat, Call>, counts: seq<int>)
    requires Fits(b) && k < 2 * b.maximum && |counts| < 2
    requires At(counters, LimitKey(lib, IntentOf(b), |counts|)) == if k == 0 then None else Some(Left(b, k - 1))
    ensures Step(lib, World(counters, calls[k := Call(IntentOf(b), counts, false)]), Event(Time(b, k), ChargeNext(k, false)))
            == World(counters[LimitKey(lib, IntentOf(b), |counts|) := Left(b, k)],
                     calls[k := Call(IntentOf(b), counts + [Left(b, k).value], false)])
  {
    Bumped(b, k);
    var key := LimitKey(lib, IntentOf(b), |counts|);
    ChargeStep(lib, counters, calls, k, Call(IntentOf(b), counts, false), Time(b, k), false,
               counters[key := Left(b, k)], Some(Left(b, k).value));
  }

  lemma IntentFits(b: Burst)
    requires Fits(b)
    ensures ValidIntent(IntentOf(b)) && IsLogin(PolicyOf(b), IntentOf(b))
  {
  }

  /** The worlds inside login k. */
  ghost function Entered(lib: Library, b: Burst, k: nat): World {
    var w := Through(lib, b, k);
    World(w.counters, w.calls[k := Call(IntentOf(b), [], false)])
  }

  ghost function Halfway(lib: Library, b: Burst, k: nat): World {
    var w := Through(lib, b, k);
    World(w.counters[Pair(lib, b) := Left(b, k)], w.calls[k := Call(IntentOf(b), [Left(b, k).value], false)])
  }

  lemma Enters(lib: Library, b: Burst, k: nat)
    requires Fits(b)
    ensures Step(lib, Through(lib, b, k), Event(Time(b, k), Enter(k, IntentOf(b)))) == Entered(lib, b, k)
  {
    IntentFits(b);
    ThroughCalls(lib, b, k, k);
  }

  lemma FirstCharge(lib: Library, b: Burst, k: nat)
    requires Bounded(lib) && Fits(b) && k < 2 * b.maximum
    ensures Step(lib, Entered(lib, b, k), Event(Time(b, k), ChargeNext(k, false))) == Halfway(lib, b, k)
  {
    PairIsNotSource(lib, b);
    var w := Through(lib, b, k);
    Charges(lib, b, k, w.counters, w.calls, []);
    assert [] + [Left(b, k).value] == [Left(b, k).value];
  }

  lemma Replaces<K, V>(pair: K, source: K, was: V, left: V)
    requires pair != source
    ensures map[pair := was, source := was][pair := left][source := left] == map[pair := left, source := left]
  {
  }

  lemma SecondCharge(lib: Library, b: Burst, k: nat)
    requires Bounded(lib) && Fits(b) && k < 2 * b.maximum
    ensures Step(lib, Halfway(lib, b, k), Event(Time(b, k), ChargeNext(k, false))) == Through(lib, b, k + 1)
  {
    PairIsNotSource(lib, b);
    var w, left := Through(lib, b, k), Left(b, k);
    Charges(lib, b, k, w.counters[Pair(lib, b) := left], w.calls, [left.value]);
    assert [left.value] + [left.value] == [left.value, left.value];
    if k > 0 { Replaces(Pair(lib, b), Source(lib, b), Left(b, k - 1), left); }
  }

  /** Event n is where login k enters and charges. */
  predicate Plays(b: Burst, events: seq<Event>, k: nat, n: nat) {
    && n + 3 <= |events| && events[n] == Event(Time(b, k), Enter(k, IntentOf(b)))
    && events[n + 1] == Event(Time(b, k), ChargeNext(k, false)) && events[n + 2] == Event(Time(b, k), ChargeNext(k, false))
  }

  ghost predicate PlaysAll(b: Burst, events: seq<Event>) {
    |events| == 6 * b.maximum && forall k: nat, n: nat :: k < 2 * b.maximum && n == 3 * k ==> Plays(b, events, k, n)
  }

  lemma RunPlaysAll(b: Burst)
    ensures PlaysAll(b, Run(b))
  {
    forall k: nat, n: nat | k < 2 * b.maximum && n == 3 * k ensures Plays(b, Run(b), k, n) {
      assert n / 3 == (n + 1) / 3 == (n + 2) / 3 == k;
    }
  }

  lemma ThreeSteps(lib: Library, events: seq<Event>, n: nat, first: World, second: World, third: World, last: World)
    requires n + 3 <= |events| && WorldAt(lib, events, n) == first
    requires Step(lib, first, events[n]) == second && Step(lib, second, events[n + 1]) == third
    requires Step(lib, third, events[n + 2]) == last
    ensures WorldAt(lib, events, n + 1) == second && WorldAt(lib, events, n + 2) == third && WorldAt(lib, events, n + 3) == last
  {
    AfterOne(lib, EMPTY, events, n);
    AfterOne(lib, EMPTY, events, n + 1);
    AfterOne(lib, EMPTY, events, n + 2);
  }

  ghost predicate Passed(lib: Library, b: Burst, events: seq<Event>, k: nat, n: nat) {
    n <= |events| && WorldAt(lib, events, n) == Through(lib, b, k)
  }

  lemma OneLogin(lib: Library, b: Burst, k: nat, n: nat, events: seq<Event>)
    requires Bounded(lib) && Fits(b) && k < 2 * b.maximum && Plays(b, events, k, n) && Passed(lib, b, events, k, n)
    ensures WorldAt(lib, events, n + 1) == Entered(lib, b, k) && WorldAt(lib, events, n + 2) == Halfway(lib, b, k)
    ensures Passed(lib, b, events, k + 1, n + 3)
  {
    Enters(lib, b, k);
    FirstCharge(lib, b, k);
    SecondCharge(lib, b, k);
    ThreeSteps(lib, events, n, Through(lib, b, k), Entered(lib, b, k), Halfway(lib, b, k), Through(lib, b, k + 1));
  }

  lemma PassesOn(lib: Library, b: Burst, k: nat, n: nat, events: seq<Event>)
    requires Bounded(lib) && Fits(b) && k < 2 * b.maximum && Plays(b, events, k, n) && Passed(lib, b, events, k, n)
    ensures Passed(lib, b, events, k + 1, n + 3)
  {
    OneLogin(lib, b, k, n, events);
  }

  lemma Begins(lib: Library, b: Burst, events: seq<Event>)
    ensures Passed(lib, b, events, 0, 0)
  {
  }

  lemma PlaysAt(b: Burst, events: seq<Event>, k: nat, n: nat)
    requires PlaysAll(b, events) && k < 2 * b.maximum && n == 3 * k
    ensures Plays(b, events, k, n)
  {
  }

  lemma {:induction false} RunPasses(lib: Library, b: Burst, k: nat, n: nat, events: seq<Event>)
    requires Bounded(lib) && Fits(b) && k <= 2 * b.maximum && n == 3 * k && PlaysAll(b, events)
    ensures Passed(lib, b, events, k, n)
  {
    if k == 0 {
      Begins(lib, b, events);
    } else {
      RunPasses(lib, b, k - 1, n - 3, events);
      PlaysAt(b, events, k - 1, n - 3);
      PassesOn(lib, b, k - 1, n - 3, events);
    }
  }

  /** The pair of the burst, or its source. */
  function SubjectIn(b: Burst, dimension: Byte): Subject
    requires dimension == IDENTITY_SOURCE || dimension == SOURCE
  {
    SubjectOf(IntentOf(b), IntentOf(b).limits[if dimension == SOURCE then 1 else 0])
  }

  lemma EveryLoginIsAdmitted(lib: Library, b: Burst, k: nat, events: seq<Event>)
    requires Bounded(lib) && Fits(b) && k < 2 * b.maximum && PlaysAll(b, events)
    ensures LoginRuns.Admitted(WorldAt(lib, events, |events|), k)
  {
    RunPasses(lib, b, 2 * b.maximum, |events|, events);
    ThroughCalls(lib, b, 2 * b.maximum, k);
  }

  lemma EachCharges(lib: Library, b: Burst, k: nat, e: Event)
    requires e.action == ChargeNext(k, false)
    ensures Charging(lib, SubjectIn(b, IDENTITY_SOURCE), Entered(lib, b, k), e)
    ensures Charging(lib, SubjectIn(b, SOURCE), Halfway(lib, b, k), e)
  {
  }

  lemma FlagFrom(lib: Library, s: Subject, events: seq<Event>, i: nat, w: World, id: nat)
    requires i < |events| && WorldAt(lib, events, i) == w && Charging(lib, s, w, events[i])
    requires events[i].action.id == id && LoginRuns.Admitted(WorldAt(lib, events, |events|), id)
    ensures Flag(lib, s, events, i)
  {
  }

  lemma WorldsWithin(lib: Library, b: Burst, k: nat, n: nat, events: seq<Event>)
    requires Bounded(lib) && Fits(b) && k < 2 * b.maximum && PlaysAll(b, events) && n == 3 * k
    ensures Plays(b, events, k, n)
    ensures WorldAt(lib, events, n + 1) == Entered(lib, b, k) && WorldAt(lib, events, n + 2) == Halfway(lib, b, k)
  {
    PlaysAt(b, events, k, n);
    RunPasses(lib, b, k, n, events);
    OneLogin(lib, b, k, n, events);
  }

  lemma EveryLoginCounts(lib: Library, b: Burst, dimension: Byte, k: nat, n: nat, events: seq<Event>)
    requires Bounded(lib) && Fits(b) && k < 2 * b.maximum && (dimension == IDENTITY_SOURCE || dimension == SOURCE)
    requires n == 3 * k && PlaysAll(b, events)
    ensures var s := SubjectIn(b, dimension); Flag(lib, s, events, n + 1 + OwnLimit(s))
  {
    WorldsWithin(lib, b, k, n, events);
    EveryLoginIsAdmitted(lib, b, k, events);
    EachCharges(lib, b, k, events[n + 1]);
    if dimension == SOURCE {
      FlagFrom(lib, SubjectIn(b, dimension), events, n + 2, Halfway(lib, b, k), k);
    } else {
      FlagFrom(lib, SubjectIn(b, dimension), events, n + 1, Entered(lib, b, k), k);
    }
  }

  lemma {:induction false} AtLeast(lib: Library, b: Burst, dimension: Byte, k: nat, events: seq<Event>)
    requires Bounded(lib) && Fits(b) && 0 < k <= 2 * b.maximum && (dimension == IDENTITY_SOURCE || dimension == SOURCE)
    requires PlaysAll(b, events)
    ensures AdmittedLogins(lib, SubjectIn(b, dimension), events, 3, 3 * k) >= k - 1
  {
    if k > 1 {
      AtLeast(lib, b, dimension, k - 1, events);
      EveryLoginCounts(lib, b, dimension, k - 1, 3 * k - 3, events);
      FixedWindow.AdmissionsSplit(TraceOf(lib, SubjectIn(b, dimension), events).admitted, 3, 3 * k - 3, 3 * k);
    }
  }

  lemma RunConforms(b: Burst)
    requires Fits(b)
    ensures IsRun(PolicyOf(b), Run(b)) && Run(b)[|Run(b)| - 1].now < Run(b)[3].now + b.window
    ensures forall i :: 0 <= i < |Run(b)| ==> !Run(b)[i].action.Forget?
  {
    IntentFits(b);
  }

  lemma Reaches(lib: Library, b: Burst, dimension: Byte, events: seq<Event>, s: Subject)
    requires Bounded(lib) && Fits(b) && (dimension == IDENTITY_SOURCE || dimension == SOURCE) && s == SubjectIn(b, dimension)
    requires IsRun(PolicyOf(b), events) && PlaysAll(b, events) && events[|events| - 1].now < events[3].now + b.window
    requires forall i :: 0 <= i < |events| ==> !events[i].action.Forget?
    ensures LoginSubject(s) && AdmittedLogins(lib, s, events, 3, |events|) == 2 * b.maximum - 1
  {
    AtLeast(lib, b, dimension, 2 * b.maximum, events);
    WindowLimit(lib, PolicyOf(b), s, events, 3, |events|);
  }

  /** Every maximum, either counter, every window of more than a nanosecond:
      from the empty cache, the span bound is reached. */
  lemma SpanReached(lib: Library, b: Burst, dimension: Byte)
    requires Bounded(lib) && Fits(b) && (dimension == IDENTITY_SOURCE || dimension == SOURCE)
    ensures var s, events, policy := SubjectIn(b, dimension), Run(b), PolicyOf(b);
            && IsRun(policy, events) && LoginSubject(s) && Maximum(policy, s) == b.maximum
            && events[|events| - 1].now < events[3].now + policy.window
            && AdmittedLogins(lib, s, events, 3, |events|) == 2 * b.maximum - 1
  {
    RunConforms(b);
    RunPlaysAll(b);
    Reaches(lib, b, dimension, Run(b), SubjectIn(b, dimension));
  }
}
