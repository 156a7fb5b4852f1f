/** The serving lease (server/serving_node_lease.go): the timing of its renewal
    loop, and the concurrent life of one lease runtime. */
module Lease {
  import opened Outcomes

  // Durations and instants are nanoseconds.
  const MILLISECOND := 1_000_000
  const SECOND := 1000 * MILLISECOND
  const MINIMUM_LIFETIME := 10 * MILLISECOND
  const MAXIMUM_LIFETIME := 300 * SECOND

  datatype Timing = Timing(
    lifetime: int, renewalInterval: int, operationLimit: int, retryInterval: int, stopMargin: int)
  {
    /** From the start of a successful renewal to the last instant by which an
        attempt must have ended. */
    function Slack(): int { lifetime - stopMargin }
  }

  const SHIPPED := Timing(30 * SECOND, 5 * SECOND, 5 * SECOND, SECOND, 5 * SECOND)

  /** validServingNodeLeaseTiming and the constructor's retry check. */
  predicate ValidTiming(t: Timing) {
    && MINIMUM_LIFETIME <= t.lifetime <= MAXIMUM_LIFETIME
    && t.renewalInterval > 0 && t.operationLimit > 0 && t.stopMargin > 0 && t.retryInterval > 0
    && t.renewalInterval + t.operationLimit + t.stopMargin <= t.lifetime
  }

  // ----- the renewal loop

  datatype Outcome = Renewed | Transient | Terminal | Interrupted

  /** One turn of the loop, as the environment decides it: how late the timer
      fires and how long the renewal takes, or a cancellation while waiting. */
  datatype Turn = Fires(late: nat, duration: nat, outcome: Outcome) | Cancelled

  datatype Cause = SlackExhausted | Rejected

  datatype Loop =
    | Waiting(provenAt: int, wakeAt: int)
    | Signalled(provenAt: int, at: int, cause: Cause)
    | Stopped(provenAt: int)

  function AfterTurn(t: Timing, provenAt: int, wakeAt: int, turn: Turn): Loop {
    match turn
    case Cancelled => Stopped(provenAt)
    case Fires(late, duration, outcome) =>
      var attemptAt := wakeAt + late;
      if attemptAt + t.operationLimit > provenAt + t.Slack() then Signalled(provenAt, attemptAt, SlackExhausted)
      else match outcome
        case Renewed => Waiting(attemptAt, attemptAt + duration + t.renewalInterval)
        case Interrupted => Stopped(provenAt)
        case Terminal => Signalled(provenAt, attemptAt + duration, Rejected)
        case Transient => Waiting(provenAt, attemptAt + duration + t.retryInterval)
  }

  function AfterTurns(t: Timing, l: Loop, turns: seq<Turn>): Loop
    decreases |turns|
  {
    if turns == [] || !l.Waiting? then l
    else AfterTurns(t, AfterTurn(t, l.provenAt, l.wakeAt, turns[0]), turns[1..])
  }

  /** Renewals respect their time limit and timers are at most `lag` late. */
  predicate Honoured(t: Timing, turns: seq<Turn>, lag: nat) {
    forall i :: 0 <= i < |turns| && turns[i].Fires? ==> turns[i].duration <= t.operationLimit && turns[i].late <= lag
  }

  /** The next look at the clock is due within one retry interval of the
      instant by which the last proven lease must have been renewed. */
  predicate OnTime(t: Timing, l: Loop, lag: nat) {
    match l
    case Waiting(provenAt, wakeAt) => wakeAt <= provenAt + t.Slack() + t.retryInterval
    case Signalled(provenAt, at, cause) =>
      at <= provenAt + t.Slack() + (if cause == Rejected then 0 else t.retryInterval + lag)
    case Stopped(_) => true
  }

  /** The loop as Start leaves it: the first renewal began at provenAt and took
      `took`. */
  function Started(t: Timing, provenAt: int, took: nat): Loop {
    Waiting(provenAt, provenAt + took + t.renewalInterval)
  }

  /** Start itself puts no limit on its renewal; the loop is on time from the
      beginning exactly when that renewal left room for one interval. */
  lemma TimelyStart(t: Timing, provenAt: int, took: nat, lag: nat)
    ensures OnTime(t, Started(t, provenAt, took), lag)
            <==> took <= t.Slack() + t.retryInterval - t.renewalInterval
  {
  }

  /** Every attempt is over by the stop deadline of the last proven lease,
      however late its timer fired. */
  lemma AttemptEndsInTime(t: Timing, l: Loop, turn: Turn)
    requires l.Waiting? && turn.Fires? && turn.duration <= t.operationLimit
    requires var next := AfterTurn(t, l.provenAt, l.wakeAt, turn); !(next.Signalled? && next.cause == SlackExhausted)
    ensures l.wakeAt + turn.late + turn.duration <= l.provenAt + t.Slack()
  {
  }

  lemma {:induction false} StaysOnTime(t: Timing, l: Loop, turns: seq<Turn>, lag: nat)
    requires ValidTiming(t) && OnTime(t, l, lag) && Honoured(t, turns, lag)
    ensures OnTime(t, AfterTurns(t, l, turns), lag)
    decreases |turns|
  {
    if turns != [] && l.Waiting? {
      var next := AfterTurn(t, l.provenAt, l.wakeAt, turns[0]);
      if turns[0].Fires? && !(next.Signalled? && next.cause == SlackExhausted) {
        AttemptEndsInTime(t, l, turns[0]);
      }
      StaysOnTime(t, next, turns[1..], lag);
    }
  }

  // ----- the lease row, by the turns alone

  /** A run of the loop as the store and the clock see it: the instant and the
      length of Start's renewal, and the turns. */
  datatype History = History(t: Timing, start: int, took: nat, turns: seq<Turn>)

  predicate Renews(turn: Turn) { turn.Fires? && turn.outcome == Renewed }

  function Late(turn: Turn): nat { if turn.Fires? then turn.late else 0 }

  function Took(turn: Turn): nat { if turn.Fires? then turn.duration else 0 }

  /** The timer set after i turns. */
  function Pause(h: History, i: nat): int
    requires i <= |h.turns|
  {
    if i == 0 || Renews(h.turns[i - 1]) then h.t.renewalInterval else h.t.retryInterval
  }

  /** When the first i turns are over. */
  function OverAt(h: History, i: nat): int
    requires i <= |h.turns|
  {
    if i == 0 then h.start + h.took
    else OverAt(h, i - 1) + Pause(h, i - 1) + Late(h.turns[i - 1]) + Took(h.turns[i - 1])
  }

  /** When the timer of turn i fires. */
  function AttemptAt(h: History, i: nat): int
    requires i < |h.turns|
  {
    OverAt(h, i) + Pause(h, i) + Late(h.turns[i])
  }

  /** The start of the last renewal that succeeded in the first i turns. The store
      stamps it no earlier. */
  function RenewedAt(h: History, i: nat): int
    requires i <= |h.turns|
  {
    if i == 0 then h.start else if Renews(h.turns[i - 1]) then AttemptAt(h, i - 1) else RenewedAt(h, i - 1)
  }

  /** The earliest instant at which the row can expire after i turns. */
  function ExpiresAt(h: History, i: nat): int
    requires i <= |h.turns|
  {
    RenewedAt(h, i) + h.t.lifetime
  }

  /** Turn i may still be over a stop margin before the row can expire. */
  predicate Granted(h: History, i: nat)
    requires i < |h.turns|
  {
    AttemptAt(h, i) + h.t.operationLimit <= ExpiresAt(h, i) - h.t.stopMargin
  }

  /** The loop goes on after turn i. */
  predicate GoesOn(h: History, i: nat)
    requires i < |h.turns|
  {
    h.turns[i].Fires? && Granted(h, i) && (h.turns[i].outcome == Renewed || h.turns[i].outcome == Transient)
  }

  /** The loop goes on for exactly k turns. */
  ghost predicate GoesOnFor(h: History, k: nat) {
    k <= |h.turns| && (forall i :: 0 <= i < k ==> GoesOn(h, i)) && (k < |h.turns| ==> !GoesOn(h, k))
  }

  /** How it stands then: waiting for the next timer, cancelled, out of slack when
      the timer fires, interrupted, or rejected when the renewal is over. */
  function EndOf(h: History, k: nat): Loop
    requires k <= |h.turns|
  {
    if k == |h.turns| then Waiting(RenewedAt(h, k), OverAt(h, k) + Pause(h, k))
    else if h.turns[k].Cancelled? then Stopped(RenewedAt(h, k))
    else if !Granted(h, k) then Signalled(RenewedAt(h, k), AttemptAt(h, k), SlackExhausted)
    else if h.turns[k].outcome == Interrupted then Stopped(RenewedAt(h, k))
    else Signalled(RenewedAt(h, k), OverAt(h, k + 1), Rejected)
  }

  /** One turn of the loop, and where it ends. */
  lemma TurnGoesOn(h: History, i: nat)
    requires i < |h.turns| && GoesOn(h, i)
    ensures AfterTurn(h.t, RenewedAt(h, i), OverAt(h, i) + Pause(h, i), h.turns[i])
            == Waiting(RenewedAt(h, i + 1), OverAt(h, i + 1) + Pause(h, i + 1))
  {
  }

  lemma TurnEnds(h: History, k: nat)
    requires k < |h.turns| && !GoesOn(h, k)
    ensures AfterTurn(h.t, RenewedAt(h, k), OverAt(h, k) + Pause(h, k), h.turns[k]) == EndOf(h, k)
  {
  }

  lemma {:induction false} LoopFrom(h: History, i: nat, k: nat)
    requires GoesOnFor(h, k) && i <= k
    ensures AfterTurns(h.t, Waiting(RenewedAt(h, i), OverAt(h, i) + Pause(h, i)), h.turns[i..]) == EndOf(h, k)
    decreases k - i
  {
    if i < k {
      LoopFrom(h, i + 1, k);
      TurnGoesOn(h, i);
      assert h.turns[i..][0] == h.turns[i] && h.turns[i..][1..] == h.turns[i + 1..];
    } else if k < |h.turns| {
      TurnEnds(h, k);
      assert h.turns[k..][0] == h.turns[k];
    }
  }

  lemma {:induction false} TurnsTaken(h: History, i: nat) returns (k: nat)
    requires i <= |h.turns| && forall j :: 0 <= j < i ==> GoesOn(h, j)
    ensures GoesOnFor(h, k)
    decreases |h.turns| - i
  {
    k := i;
    if i < |h.turns| && GoesOn(h, i) { k := TurnsTaken(h, i + 1); }
  }

  /** The loop keeps no more than the turns say: it goes on exactly while every
      turn is granted and renews or fails transiently, and what it holds as proven
      is the start of the last renewal. */
  lemma LoopExactly(h: History) returns (k: nat)
    ensures GoesOnFor(h, k) && AfterTurns(h.t, Started(h.t, h.start, h.took), h.turns) == EndOf(h, k)
  {
    k := TurnsTaken(h, 0);
    LoopFrom(h, 0, k);
    assert h.turns[0..] == h.turns;
  }

  lemma AttemptBeforeExpiry(h: History, i: nat)
    requires i < |h.turns| && Granted(h, i) && Took(h.turns[i]) <= h.t.operationLimit && h.t.stopMargin > 0
    ensures OverAt(h, i + 1) < ExpiresAt(h, i)
  {
  }

  /** The lease deadline. Whatever the environment does within its limits, every
      renewal the loop waits for is over, a loop that is still waiting looks at the
      clock, and a loop that gives up signals, strictly before the row can expire. */
  lemma NeverOutlivesLease(h: History, lag: nat) returns (k: nat)
    requires ValidTiming(h.t) && h.t.retryInterval + lag < h.t.stopMargin && Honoured(h.t, h.turns, lag)
    requires h.took <= h.t.Slack() + h.t.retryInterval - h.t.renewalInterval
    ensures GoesOnFor(h, k) && forall i :: 0 <= i < k ==> OverAt(h, i + 1) < ExpiresAt(h, i)
    ensures match AfterTurns(h.t, Started(h.t, h.start, h.took), h.turns)
            case Waiting(_, wakeAt) => k == |h.turns| && wakeAt + lag < ExpiresAt(h, k)
            case Signalled(_, at, _) => k < |h.turns| && at < ExpiresAt(h, k)
            case Stopped(_) => k < |h.turns|
  {
    k := LoopExactly(h);
    StaysOnTime(h.t, Started(h.t, h.start, h.took), h.turns, lag);
    forall i | 0 <= i < k ensures OverAt(h, i + 1) < ExpiresAt(h, i) {
      assert GoesOn(h, i);
      AttemptBeforeExpiry(h, i);
    }
  }

  /** As shipped and with timers on time: 26 seconds of the 30. */
  lemma ShippedDeadline(h: History) returns (k: nat)
    requires h.t == SHIPPED && Honoured(SHIPPED, h.turns, 0) && h.took <= 21 * SECOND
    ensures GoesOnFor(h, k)
    ensures var l := AfterTurns(SHIPPED, Started(SHIPPED, h.start, h.took), h.turns);
            && (l.Waiting? ==> l.wakeAt <= RenewedAt(h, k) + 26 * SECOND)
            && (l.Signalled? ==> l.at <= RenewedAt(h, k) + 26 * SECOND)
  {
    k := LoopExactly(h);
    StaysOnTime(SHIPPED, Started(SHIPPED, h.start, h.took), h.turns, 0);
  }

  /** Turns in which the store never renews and nobody cancels. */
  predicate Failing(turns: seq<Turn>) {
    forall i :: 0 <= i < |turns| ==> turns[i].Fires? && (turns[i].outcome == Transient || turns[i].outcome == Terminal)
  }

  /** Retrying ends: a store that keeps failing is given up on after at most
      one turn per retry interval left in the slack. */
  lemma {:induction false} FailingLoopSignals(t: Timing, l: Loop, turns: seq<Turn>)
    requires ValidTiming(t) && l.Waiting? && Failing(turns)
    requires |turns| > 0 && (|turns| - 1) * t.retryInterval > l.provenAt + t.Slack() - t.operationLimit - l.wakeAt
    ensures AfterTurns(t, l, turns).Signalled?
    decreases |turns|
  {
    var next := AfterTurn(t, l.provenAt, l.wakeAt, turns[0]);
    if next.Waiting? {
      assert |turns| > 1;
      assert (|turns| - 1) * t.retryInterval == (|turns| - 2) * t.retryInterval + t.retryInterval;
      FailingLoopSignals(t, next, turns[1..]);
    }
  }

  // ----- what the timing check promises, and what the comment promises

  /** The timing check: positive intervals, a lifetime between ten milliseconds and
      five minutes, and an attempt made on time after an instant renewal is not
      refused for want of slack. */
  lemma ValidTimingExactly(t: Timing, provenAt: int, turn: Turn)
    requires turn.Fires? && turn.late == 0
    ensures ValidTiming(t) <==>
              && 10_000_000 <= t.lifetime <= 300_000_000_000
              && 0 < t.renewalInterval && 0 < t.operationLimit && 0 < t.retryInterval && 0 < t.stopMargin
              && var l := Started(t, provenAt, 0);
                 var next := AfterTurn(t, l.provenAt, l.wakeAt, turn);
                 !(next.Signalled? && next.cause == SlackExhausted)
  {
  }

  /** The first attempt after a success is never refused for want of slack
      exactly when two renewals, one interval and the margin fit the lifetime. */
  lemma FirstAttemptGranted(t: Timing, provenAt: int)
    requires ValidTiming(t)
    ensures (forall took: nat, turn: Turn ::
               took <= t.operationLimit && turn.Fires? && turn.late == 0 ==>
                 var l := Started(t, provenAt, took);
                 var next := AfterTurn(t, l.provenAt, l.wakeAt, turn);
                 !(next.Signalled? && next.cause == SlackExhausted))
            <==> t.renewalInterval + 2 * t.operationLimit + t.stopMargin <= t.lifetime
  {
    if t.renewalInterval + 2 * t.operationLimit + t.stopMargin > t.lifetime {
      var took: nat, turn := t.operationLimit, Fires(0, 0, Renewed);
      var l := Started(t, provenAt, took);
      var next := AfterTurn(t, l.provenAt, l.wakeAt, turn);
      assert next.Signalled? && next.cause == SlackExhausted;
    }
  }

  /** The shipped constants leave that room; the timing check alone does not
      ask for it. */
  lemma ShippedFirstAttemptGranted()
    ensures ValidTiming(SHIPPED)
            && SHIPPED.renewalInterval + 2 * SHIPPED.operationLimit + SHIPPED.stopMargin <= SHIPPED.lifetime
    ensures var t := Timing(30 * SECOND, 10 * SECOND, 15 * SECOND, SECOND, 5 * SECOND);
            ValidTiming(t) && t.renewalInterval + 2 * t.operationLimit + t.stopMargin > t.lifetime
  {
  }

  function Retries(k: nat): seq<Turn> { seq(k, _ => Fires(0, 0, Transient)) }

  lemma {:induction false} AfterRetries(t: Timing, provenAt: int, wakeAt: int, k: nat, rest: seq<Turn>)
    requires k > 0 ==> wakeAt + (k - 1) * t.retryInterval + t.operationLimit <= provenAt + t.Slack()
    requires ValidTiming(t)
    ensures AfterTurns(t, Waiting(provenAt, wakeAt), Retries(k) + rest)
            == AfterTurns(t, Waiting(provenAt, wakeAt + k * t.retryInterval), rest)
    decreases k
  {
    if k == 0 {
      assert Retries(0) + rest == rest;
    } else {
      assert (Retries(k) + rest)[1..] == Retries(k - 1) + rest;
      assert (k - 1) * t.retryInterval >= 0 by { MulNonNegative(k - 1, t.retryInterval); }
      assert k * t.retryInterval == (k - 1) * t.retryInterval + t.retryInterval;
      if k > 1 { assert (k - 1) * t.retryInterval == (k - 2) * t.retryInterval + t.retryInterval; }
      AfterRetries(t, provenAt, wakeAt + t.retryInterval, k - 1, rest);
    }
  }

  lemma MulNonNegative(a: int, b: int)
    requires a >= 0 && b >= 0
    ensures a * b >= 0
  {
  }

  /** How many intervals fit. */
  lemma Fitting(room: int, interval: int) returns (k: nat)
    requires 0 <= room && 0 < interval
    ensures k * interval <= room < k * interval + interval
    ensures k > 0 ==> (k - 1) * interval <= room - interval
  {
    k := room / interval;
    assert k * interval == room - room % interval;
    if k > 0 { assert (k - 1) * interval == k * interval - interval; }
  }

  /** One attempt that takes its whole limit, and the next look at the clock. */
  lemma LastTwo(t: Timing, provenAt: int, wakeAt: int)
    requires ValidTiming(t)
    requires wakeAt + t.operationLimit <= provenAt + t.Slack() < wakeAt + t.operationLimit + t.retryInterval
    ensures AfterTurns(t, Waiting(provenAt, wakeAt), [Fires(0, t.operationLimit, Transient), Fires(0, 0, Transient)])
            == Signalled(provenAt, wakeAt + t.operationLimit + t.retryInterval, SlackExhausted)
  {
    var last := [Fires(0, t.operationLimit, Transient), Fires(0, 0, Transient)];
    assert last[1..] == [Fires(0, 0, Transient)] && last[1..][1..] == [];
    var next := AfterTurn(t, provenAt, wakeAt, last[0]);
    assert AfterTurns(t, next, last[1..]) == AfterTurn(t, provenAt, next.wakeAt, last[1]);
  }

  /** The loop's comment says serving stops at least a stop margin before the
      lease can expire. No valid timing keeps that: a store that answers the
      last permitted attempt only at its limit delays the signal past it. */
  lemma MarginOverrun(t: Timing, provenAt: int) returns (turns: seq<Turn>)
    requires ValidTiming(t)
    ensures Honoured(t, turns, 0)
    ensures var l := AfterTurns(t, Started(t, provenAt, 0), turns);
            l.Signalled? && l.provenAt == provenAt && l.at > provenAt + t.Slack()
  {
    var k := Fitting(t.Slack() - t.operationLimit - t.renewalInterval, t.retryInterval);
    var last := [Fires(0, t.operationLimit, Transient), Fires(0, 0, Transient)];
    turns := Retries(k) + last;
    AfterRetries(t, provenAt, provenAt + t.renewalInterval, k, last);
    LastTwo(t, provenAt, provenAt + t.renewalInterval + k * t.retryInterval);
  }

  /** The 26 seconds are reached. */
  lemma ShippedDeadlineTight(provenAt: int)
    ensures var turns := [Fires(0, 5 * SECOND, Transient), Fires(0, 5 * SECOND, Transient), Fires(0, 2 * SECOND, Transient),
                          Fires(0, 5 * SECOND, Transient), Fires(0, 0, Transient)];
            && Honoured(SHIPPED, turns, 0)
            && AfterTurns(SHIPPED, Started(SHIPPED, provenAt, 0), turns)
               == Signalled(provenAt, provenAt + 26 * SECOND, SlackExhausted)
  {
    var s := SHIPPED;
    var turns := [Fires(0, 5 * SECOND, Transient), Fires(0, 5 * SECOND, Transient), Fires(0, 2 * SECOND, Transient),
                  Fires(0, 5 * SECOND, Transient), Fires(0, 0, Transient)];
    assert AfterTurns(s, Waiting(provenAt, provenAt + 26 * SECOND), turns[4..])
           == Signalled(provenAt, provenAt + 26 * SECOND, SlackExhausted);
    assert turns[3..][1..] == turns[4..] && turns[2..][1..] == turns[3..] && turns[1..][1..] == turns[2..];
    assert AfterTurns(s, Waiting(provenAt, provenAt + 20 * SECOND), turns[3..])
           == AfterTurns(s, Waiting(provenAt, provenAt + 26 * SECOND), turns[4..]);
    assert AfterTurns(s, Waiting(provenAt, provenAt + 17 * SECOND), turns[2..])
           == AfterTurns(s, Waiting(provenAt, provenAt + 20 * SECOND), turns[3..]);
    assert AfterTurns(s, Waiting(provenAt, provenAt + 11 * SECOND), turns[1..])
           == AfterTurns(s, Waiting(provenAt, provenAt + 17 * SECOND), turns[2..]);
  }

  /** One lease runtime's mutex-guarded flags and its failure channel, which
      holds one value. */
  class LeaseRuntime {
    const timing: Timing
    var failed: bool
    var failure: Option<Cause>

    constructor (timing: Timing)
      ensures this.timing == timing && !failed && failure == None
    {
      this.timing, failed, failure := timing, false, None;
    }

    /** Records the failure; the send never blocks and never replaces a value
        that is still queued. */
    method Fail(cause: Cause)
      modifies this`failed, this`failure
      ensures failed
      ensures failure == if old(failure).None? then Some(cause) else old(failure)
    {
      failed := true;
      if failure.None? { failure := Some(cause); }
    }

    /** The renewal loop on a given environment. It ends in the state the
        timing model computes, and it records a failure exactly when that
        state is a signal. */
    method Maintain(provenAt0: int, wakeAt0: int, turns: seq<Turn>) returns (end: Loop)
      modifies this`failed, this`failure
      ensures end == AfterTurns(timing, Waiting(provenAt0, wakeAt0), turns)
      ensures failed == (old(failed) || end.Signalled?)
      ensures failure == if end.Signalled? && old(failure).None? then Some(end.cause) else old(failure)
    {
      var provenAt, wakeAt := provenAt0, wakeAt0;
      var i := 0;
      while i < |turns|
        invariant 0 <= i <= |turns|
        invariant AfterTurns(timing, Waiting(provenAt0, wakeAt0), turns)
                  == AfterTurns(timing, Waiting(provenAt, wakeAt), turns[i..])
        invariant failed == old(failed) && failure == old(failure)
      {
        var turn := turns[i];
        assert turns[i..][1..] == turns[i + 1..];
        i := i + 1;
        if turn.Cancelled? { return Stopped(provenAt); }
        var stopBy := provenAt + timing.lifetime - timing.stopMargin;
        var attemptAt := wakeAt + turn.late;
        if attemptAt + timing.operationLimit > stopBy {
          Fail(SlackExhausted);
          return Signalled(provenAt, attemptAt, SlackExhausted);
        }
        var endAt := attemptAt + turn.duration;
        if turn.outcome == Renewed {
          provenAt, wakeAt := attemptAt, endAt + timing.renewalInterval;
          continue;
        }
        if turn.outcome == Interrupted { return Stopped(provenAt); }
        if turn.outcome == Terminal {
          Fail(Rejected);
          return Signalled(provenAt, endAt, Rejected);
        }
        wakeAt := endAt + timing.retryInterval;
      }
      return Waiting(provenAt, wakeAt);
    }
  }
}

/** The interleavings of one lease runtime: any number of Start and Close
    calls, the renewal loop, and the Server reading the failure channel. Each
    mutex section, store call or channel operation is one step. */
module LeaseProtocol {
  import opened Outcomes

  /** A Start call: it is renewing, it has renewed and has yet to start the loop,
      or it has returned. */
  datatype Starter = Renewing | Renewed | StartReturned(ok: bool)
  datatype RenewalLoop = Absent | Looping | Failing | Ended(failed: bool)
  /** A Close call: it has marked the runtime closed and waits for a loop it
      saw started, it looks whether the loop failed, it is deleting the lease, or
      it has returned, with an error or without. */
  datatype Closer = Joining(sawStarted: bool) | Checking(sawStarted: bool) | Deleting | CloseReturned(ok: bool)

  datatype Runtime = Runtime(
    started: bool, failed: bool, closed: bool, loop: RenewalLoop,
    queued: nat, taken: nat, dropped: nat,
    starters: map<nat, Starter>, closers: map<nat, Closer>,
    row: bool, deletes: nat)

  const NEW := Runtime(false, false, false, Absent, 0, 0, 0, map[], map[], false, 0)

  datatype Event =
    | StartEnters(id: nat)
    | StartStores(id: nat, stored: bool, ok: bool)
    | StartFinishes(id: nat)
    | LoopRenews | LoopCancelled | LoopFails | LoopSends
    | ServerTakes
    | CloseEnters(id: nat) | CloseJoins(id: nat) | CloseChecks(id: nat) | CloseDeletes(id: nat, ok: bool)

  /** The state after one step, or None when the step is not possible. */
  function Step(s: Runtime, e: Event): Option<Runtime> {
    match e
    case StartEnters(id) =>
      if id in s.starters then None
      else Some(s.(starters := s.starters[id := if s.closed || s.started then StartReturned(false) else Renewing]))
    case StartStores(id, stored, ok) =>
      if !(id in s.starters && s.starters[id].Renewing? && (ok ==> stored)) then None
      else Some(s.(row := s.row || stored, starters := s.starters[id := if ok then Renewed else StartReturned(false)]))
    case StartFinishes(id) =>
      if !(id in s.starters && s.starters[id].Renewed?) then None
      else if s.closed || s.started then Some(s.(starters := s.starters[id := StartReturned(false)]))
      else Some(s.(starters := s.starters[id := StartReturned(true)], started := true, loop := Looping))
    case LoopRenews => if s.loop.Looping? then Some(s.(row := true)) else None
    case LoopCancelled => if s.loop.Looping? && s.closed then Some(s.(loop := Ended(false))) else None
    case LoopFails => if s.loop.Looping? then Some(s.(failed := true, loop := Failing)) else None
    case LoopSends =>
      if !s.loop.Failing? then None
      else if s.queued == 0 then Some(s.(queued := 1, loop := Ended(true)))
      else Some(s.(dropped := s.dropped + 1, loop := Ended(true)))
    case ServerTakes => if s.queued == 1 then Some(s.(queued := 0, taken := s.taken + 1)) else None
    case CloseEnters(id) =>
      if id in s.closers then None
      else if s.closed then Some(s.(closers := s.closers[id := CloseReturned(true)]))
      else Some(s.(closed := true, closers := s.closers[id := Joining(s.started)]))
    case CloseJoins(id) =>
      if !(id in s.closers && s.closers[id].Joining? && (s.closers[id].sawStarted ==> s.loop.Ended?)) then None
      else Some(s.(closers := s.closers[id := Checking(s.closers[id].sawStarted)]))
    case CloseChecks(id) =>
      if !(id in s.closers && s.closers[id].Checking?) then None
      else Some(s.(closers := s.closers[id := if !s.closers[id].sawStarted || s.failed then CloseReturned(true) else Deleting]))
    case CloseDeletes(id, ok) =>
      if !(id in s.closers && s.closers[id].Deleting?) then None
      else Some(s.(closers := s.closers[id := CloseReturned(ok)], deletes := s.deletes + 1, row := s.row && !ok))
  }

  function AfterEvents(events: seq<Event>): Option<Runtime> {
    if events == [] then Some(NEW)
    else
      var before := AfterEvents(events[..|events| - 1]);
      if before.None? then None else Step(before.value, events[|events| - 1])
  }

  /** The one Close call that does the work has not returned. */
  predicate Busy(s: Runtime, id: nat) { id in s.closers && !s.closers[id].CloseReturned? }

  /** What a Close call at work has seen. */
  predicate CloserOk(started: bool, loop: RenewalLoop, closer: Closer) {
    match closer
    case Joining(sawStarted) => sawStarted == started
    case Checking(sawStarted) => if sawStarted then loop.Ended? else !started
    case Deleting => started && loop == Ended(false)
    case CloseReturned(_) => true
  }

  ghost predicate Invariant(s: Runtime) {
    && (s.started <==> !s.loop.Absent?)
    && (s.failed <==> s.loop.Failing? || s.loop == Ended(true))
    && s.dropped == 0
    && s.queued + s.taken == (if s.loop == Ended(true) then 1 else 0)
    && (s.loop == Ended(false) ==> s.closed)
    && (forall i, j :: Busy(s, i) && Busy(s, j) ==> i == j)
    && (forall i :: Busy(s, i) ==> s.closed && s.deletes == 0 && CloserOk(s.started, s.loop, s.closers[i]))
    && s.deletes <= 1 && (s.deletes == 1 ==> s.loop == Ended(false))
  }

  predicate OfClose(e: Event) { e.CloseEnters? || e.CloseJoins? || e.CloseChecks? || e.CloseDeletes? }

  lemma CloseKeepsInvariant(s: Runtime, e: Event)
    requires Invariant(s) && Step(s, e).Some? && OfClose(e)
    ensures Invariant(Step(s, e).value)
  {
    var t := Step(s, e).value;
    assert e.CloseEnters? || Busy(s, e.id);
    assert forall i :: Busy(t, i) ==> i == e.id || Busy(s, i);
  }

  lemma OtherKeepsInvariant(s: Runtime, e: Event)
    requires Invariant(s) && Step(s, e).Some? && !OfClose(e)
    ensures Invariant(Step(s, e).value)
  {
    var t := Step(s, e).value;
    assert forall i :: Busy(t, i) ==> Busy(s, i);
  }

  lemma StepKeepsInvariant(s: Runtime, e: Event)
    requires Invariant(s) && Step(s, e).Some?
    ensures Invariant(Step(s, e).value)
  {
    if OfClose(e) { CloseKeepsInvariant(s, e); } else { OtherKeepsInvariant(s, e); }
  }

  lemma {:induction false} EveryRunKeepsInvariant(events: seq<Event>)
    requires AfterEvents(events).Some?
    ensures Invariant(AfterEvents(events).value)
  {
    if events != [] {
      var n := |events| - 1;
      EveryRunKeepsInvariant(events[..n]);
      StepKeepsInvariant(AfterEvents(events[..n]).value, events[n]);
    }
  }

  function Count(events: seq<Event>, e: Event): nat {
    if events == [] then 0 else Count(events[..|events| - 1], e) + if events[|events| - 1] == e then 1 else 0
  }

  lemma StepFails(s: Runtime, e: Event)
    requires Invariant(s) && Step(s, e).Some?
    ensures Step(s, e).value.failed <==> s.failed || e == LoopFails
    ensures e == LoopFails ==> !s.failed
  {
  }

  lemma {:induction false} FailCount(events: seq<Event>)
    requires AfterEvents(events).Some?
    ensures Count(events, LoopFails) == if AfterEvents(events).value.failed then 1 else 0
  {
    if events != [] {
      var past, last := events[..|events| - 1], events[|events| - 1];
      FailCount(past);
      var s, t := AfterEvents(past).value, AfterEvents(events).value;
      assert t.failed == (s.failed || last == LoopFails) && (last == LoopFails ==> !s.failed) by {
        EveryRunKeepsInvariant(past);
        StepFails(s, last);
      }
    }
  }

  /** In every interleaving the runtime fails at most once and that failure
      reaches the channel: it is queued or has been taken, never dropped. */
  lemma FailureIsNeverLost(events: seq<Event>)
    requires AfterEvents(events).Some?
    ensures var s := AfterEvents(events).value;
            && Count(events, LoopFails) == (if s.failed then 1 else 0)
            && s.dropped == 0
            && s.queued + s.taken == if s.failed && !s.loop.Failing? then 1 else 0
  {
    FailCount(events);
    EveryRunKeepsInvariant(events);
  }

  /** The lease row is deleted at most once, only after the loop has ended
      without failing, and with the runtime closed for good. */
  lemma WithdrawnOnceAfterLoop(events: seq<Event>)
    requires AfterEvents(events).Some?
    ensures var s := AfterEvents(events).value;
            s.deletes <= 1 && (s.deletes == 1 ==> s.closed && s.loop == Ended(false) && !s.failed)
  {
    EveryRunKeepsInvariant(events);
  }

  // ----- what Start and Close report

  function From(s: Runtime, events: seq<Event>): Option<Runtime>
    decreases |events|
  {
    if events == [] then Some(s)
    else if Step(s, events[0]).None? then None
    else From(Step(s, events[0]).value, events[1..])
  }

  predicate Renewal(s: Runtime, id: nat) { id in s.starters && s.starters[id].Renewing? }

  predicate Won(starters: map<nat, Starter>, id: nat) { id in starters && starters[id] == StartReturned(true) }

  /** A Start call that succeeded or will has stored the lease, and one succeeds, the
      one that started the loop. */
  ghost predicate StartsTold(starters: map<nat, Starter>, started: bool, events: seq<Event>) {
    && (forall id :: id in starters && (starters[id].Renewed? || Won(starters, id)) ==> StartStores(id, true, true) in events)
    && (started <==> exists id :: Won(starters, id)) && (forall i, j :: Won(starters, i) && Won(starters, j) ==> i == j)
  }

  /** A Close call reports an error exactly when the deletion it made failed. */
  ghost predicate ClosesTold(closers: map<nat, Closer>, events: seq<Event>) {
    forall id :: CloseDeletes(id, false) in events <==> id in closers && closers[id] == CloseReturned(false)
  }

  lemma StartKeepsTold(s: Runtime, e: Event, past: seq<Event>)
    requires StartsTold(s.starters, s.started, past) && Step(s, e).Some? && (e.StartEnters? || e.StartStores? || e.StartFinishes?)
    ensures var t := Step(s, e).value; StartsTold(t.starters, t.started, past + [e]) && t.closers == s.closers
  {
    var t := Step(s, e).value;
    assert forall id :: id != e.id ==> (Won(t.starters, id) <==> Won(s.starters, id));
    if s.started {
      var id :| Won(s.starters, id);
      assert Won(t.starters, id);
    } else if t.started {
      assert Won(t.starters, e.id);
    } else {
      assert !Won(s.starters, e.id) && !Won(t.starters, e.id);
    }
  }

  lemma CloseKeepsTold(s: Runtime, e: Event, past: seq<Event>)
    requires ClosesTold(s.closers, past) && Step(s, e).Some? && OfClose(e)
    ensures var t := Step(s, e).value;
            ClosesTold(t.closers, past + [e]) && t.starters == s.starters && t.started == s.started
  {
    assert forall id :: id != e.id ==> (CloseDeletes(id, false) in past + [e] <==> CloseDeletes(id, false) in past);
  }

  lemma OthersLeave(s: Runtime, e: Event)
    requires Step(s, e).Some? && !OfClose(e) && !(e.StartEnters? || e.StartStores? || e.StartFinishes?)
    ensures var t := Step(s, e).value; t.closers == s.closers && t.starters == s.starters && t.started == s.started
  {
    match e
    case LoopRenews =>
    case LoopCancelled =>
    case LoopFails =>
    case LoopSends =>
    case ServerTakes =>
  }

  lemma ToldOfMore(starters: map<nat, Starter>, started: bool, closers: map<nat, Closer>, past: seq<Event>, e: Event)
    ensures StartsTold(starters, started, past) ==> StartsTold(starters, started, past + [e])
    ensures ClosesTold(closers, past) && !OfClose(e) ==> ClosesTold(closers, past + [e])
  {
  }

  /** In every interleaving: what Start and Close calls return. */
  lemma {:induction false} ReturnsTold(events: seq<Event>)
    requires AfterEvents(events).Some?
    ensures var s := AfterEvents(events).value; StartsTold(s.starters, s.started, events) && ClosesTold(s.closers, events)
  {
    if events != [] {
      var past, last := events[..|events| - 1], events[|events| - 1];
      ReturnsTold(past);
      assert events == past + [last];
      var s := AfterEvents(past).value;
      ToldOfMore(s.starters, s.started, s.closers, past, last);
      if last.StartEnters? || last.StartStores? || last.StartFinishes? {
        StartKeepsTold(s, last, past);
      } else if OfClose(last) {
        CloseKeepsTold(s, last, past);
      } else {
        OthersLeave(s, last);
      }
    }
  }

  predicate HasRenewed(s: Runtime, id: nat) { id in s.starters && s.starters[id].Renewed? }

  /** From a renewal that succeeded until a deletion, the row is there. */
  ghost predicate RowKept(s: Runtime) {
    s.deletes == 0 && (s.started || exists id :: HasRenewed(s, id)) ==> s.row
  }

  lemma StepKeepsRow(s: Runtime, e: Event)
    requires RowKept(s) && Step(s, e).Some?
    ensures RowKept(Step(s, e).value)
  {
    var t := Step(s, e).value;
    if id :| HasRenewed(t, id) {
      assert HasRenewed(s, id) || (e.StartStores? && e.ok);
    }
    if e.StartFinishes? { assert HasRenewed(s, e.id); }
  }

  lemma {:induction false} RowIsThere(events: seq<Event>)
    requires AfterEvents(events).Some?
    ensures RowKept(AfterEvents(events).value)
  {
    if events != [] {
      RowIsThere(events[..|events| - 1]);
      StepKeepsRow(AfterEvents(events[..|events| - 1]).value, events[|events| - 1]);
    }
  }

  /** A closed runtime with no Close call at work has ended its loop, and has
      deleted the lease exactly when there was a loop and it did not fail. */
  ghost predicate Settled(s: Runtime) {
    s.closed && (forall id :: !Busy(s, id)) ==>
      && (s.started ==> s.loop.Ended?) && (s.deletes == 1 <==> s.started && !s.failed)
  }

  lemma StepSettles(s: Runtime, e: Event)
    requires Invariant(s) && Settled(s) && Step(s, e).Some?
    ensures Settled(Step(s, e).value)
  {
    var t := Step(s, e).value;
    if OfClose(e) && !e.CloseEnters? {
      assert Busy(s, e.id) && CloserOk(s.started, s.loop, s.closers[e.id]);
      if !e.CloseDeletes? && !(e.CloseChecks? && t.closers[e.id].CloseReturned?) { assert Busy(t, e.id); }
    } else if e.CloseEnters? && !s.closed {
      assert Busy(t, e.id);
    } else {
      assert forall id :: Busy(s, id) ==> Busy(t, id);
    }
  }

  lemma {:induction false} CloseWithdraws(events: seq<Event>)
    requires AfterEvents(events).Some?
    ensures Settled(AfterEvents(events).value)
  {
    if events != [] {
      var n := |events| - 1;
      CloseWithdraws(events[..n]);
      EveryRunKeepsInvariant(events[..n]);
      StepSettles(AfterEvents(events[..n]).value, events[n]);
    }
  }

  /** Once closed a runtime stays closed, starts no loop and begins no renewal. */
  lemma ClosedOneStep(s: Runtime, e: Event)
    requires s.closed && Step(s, e).Some?
    ensures var t := Step(s, e).value;
            t.closed && t.started == s.started && forall id :: Renewal(t, id) ==> Renewal(s, id)
  {
  }

  lemma {:induction false} ClosedStartsNothing(s: Runtime, events: seq<Event>)
    requires s.closed && From(s, events).Some?
    ensures var t := From(s, events).value;
            t.closed && t.started == s.started && forall id :: Renewal(t, id) ==> Renewal(s, id)
    decreases |events|
  {
    if events != [] {
      ClosedOneStep(s, events[0]);
      ClosedStartsNothing(Step(s, events[0]).value, events[1..]);
    }
  }

  // ----- progress

  /** The next step of a Close call at work, or of the loop it waits for. */
  function NextOfClose(s: Runtime, id: nat): Event
    requires Busy(s, id)
  {
    match s.closers[id]
    case Joining(sawStarted) =>
      if sawStarted && s.loop.Looping? then LoopCancelled else if sawStarted && s.loop.Failing? then LoopSends else CloseJoins(id)
    case Checking(_) => CloseChecks(id)
    case Deleting => CloseDeletes(id, true)
  }

  function CloseWork(s: Runtime, id: nat): nat
    requires id in s.closers
  {
    match s.closers[id]
    case Joining(_) => if s.loop.Looping? || s.loop.Failing? then 4 else 3
    case Checking(_) => 2
    case Deleting => 1
    case CloseReturned(_) => 0
  }

  lemma CloseStepWorks(s: Runtime, id: nat)
    requires Invariant(s) && Busy(s, id)
    ensures var t := Step(s, NextOfClose(s, id)); t.Some? && id in t.value.closers && CloseWork(t.value, id) < CloseWork(s, id)
  {
  }

  /** Every Close call can return: at most four steps of its own and of the loop
      it waits for. */
  lemma {:induction false} CloseCanReturn(s: Runtime, id: nat) returns (more: seq<Event>)
    requires Invariant(s) && id in s.closers
    ensures From(s, more).Some? && |more| <= CloseWork(s, id) <= 4
    ensures id in From(s, more).value.closers && From(s, more).value.closers[id].CloseReturned?
    decreases CloseWork(s, id)
  {
    more := [];
    if Busy(s, id) {
      CloseStepWorks(s, id);
      var e := NextOfClose(s, id);
      StepKeepsInvariant(s, e);
      var rest := CloseCanReturn(Step(s, e).value, id);
      more := [e] + rest;
      assert more[1..] == rest;
    }
  }

  /** A failure can reach the Server from wherever it is. */
  lemma FailureCanBeTaken(s: Runtime) returns (more: seq<Event>)
    requires Invariant(s) && s.failed
    ensures From(s, more).Some? && From(s, more).value.taken == 1 && |more| <= 2
  {
    if s.taken == 1 {
      more := [];
    } else if s.loop.Failing? {
      more := [LoopSends, ServerTakes];
      assert more[1..] == [ServerTakes] && more[1..][1..] == [];
      assert Step(Step(s, LoopSends).value, ServerTakes).Some?;
    } else {
      more := [ServerTakes];
      assert more[1..] == [];
    }
  }

  // ----- does a withdrawn lease stay withdrawn?

  /** The lease was deleted and the row is gone. */
  predicate Deleted(s: Runtime) { s.deletes == 1 && !s.row }

  /** Some Start call has its renewal in flight. */
  ghost predicate RenewalInFlight(s: Runtime) { exists id :: Renewal(s, id) }

  lemma StaysDeletedOneStep(s: Runtime, e: Event)
    requires Invariant(s) && Deleted(s) && !RenewalInFlight(s) && Step(s, e).Some?
    ensures var t := Step(s, e).value; Invariant(t) && Deleted(t) && !RenewalInFlight(t)
  {
    StepKeepsInvariant(s, e);
    var t := Step(s, e).value;
    assert !(e.StartStores? && Renewal(s, e.id));
    assert forall id :: Renewal(t, id) ==> Renewal(s, id);
  }

  lemma {:induction false} StaysDeleted(s: Runtime, events: seq<Event>)
    requires Invariant(s) && Deleted(s) && !RenewalInFlight(s) && From(s, events).Some?
    ensures Deleted(From(s, events).value)
    decreases |events|
  {
    if events != [] {
      StaysDeletedOneStep(s, events[0]);
      StaysDeleted(Step(s, events[0]).value, events[1..]);
    }
  }

  /** The events can follow, and the row is there after them. */
  predicate WritesBack(s: Runtime, events: seq<Event>) { From(s, events).Some? && From(s, events).value.row }

  lemma RenewalWritesBack(s: Runtime, id: nat)
    requires Renewal(s, id)
    ensures WritesBack(s, [StartStores(id, true, true)])
  {
    var e := StartStores(id, true, true);
    assert [e][1..] == [];
    assert From(s, [e]) == From(Step(s, e).value, []) == Step(s, e);
  }

  /** Whether a deleted lease can be written back: exactly when some Start call
      still has its renewal in flight. */
  lemma WrittenBackExactly(s: Runtime)
    requires Invariant(s) && Deleted(s)
    ensures (exists events :: WritesBack(s, events)) <==> RenewalInFlight(s)
  {
    if RenewalInFlight(s) {
      var id :| Renewal(s, id);
      RenewalWritesBack(s, id);
    } else {
      forall events ensures !WritesBack(s, events) {
        if From(s, events).Some? { StaysDeleted(s, events); }
      }
    }
  }

  lemma {:induction false} RunGoesOn(events: seq<Event>, i: nat)
    requires AfterEvents(events).Some? && i <= |events|
    ensures AfterEvents(events[..i]).Some? && From(AfterEvents(events[..i]).value, events[i..]) == AfterEvents(events)
    decreases |events| - i
  {
    if i == |events| {
      assert events[..i] == events;
    } else {
      RunGoesOn(events, i + 1);
      var past, next, rest := events[..i], events[..i + 1], events[i..];
      assert next[..|next| - 1] == past && next[|next| - 1] == events[i];
      assert rest[0] == events[i] && rest[1..] == events[i + 1..];
      assert AfterEvents(next) == Step(AfterEvents(past).value, events[i]);
    }
  }

  /** In every run, a lease that was deleted while no renewal was in flight is
      never written again. */
  lemma WithdrawnStays(events: seq<Event>, i: nat)
    requires AfterEvents(events).Some? && i <= |events| && AfterEvents(events[..i]).Some?
    requires Deleted(AfterEvents(events[..i]).value) && !RenewalInFlight(AfterEvents(events[..i]).value)
    ensures Deleted(AfterEvents(events).value)
  {
    RunGoesOn(events, i);
    EveryRunKeepsInvariant(events[..i]);
    StaysDeleted(AfterEvents(events[..i]).value, events[i..]);
  }

  predicate OneStart(s: Runtime) { forall i, j :: i in s.starters && j in s.starters ==> i == j }

  ghost predicate DeleteFailed(events: seq<Event>) { exists id :: CloseDeletes(id, false) in events }

  /** Once the loop runs no renewal is in flight beside it, and a lease whose
      deletion succeeded is gone. */
  predicate Withdrawn(s: Runtime) {
    (s.started ==> forall i :: i in s.starters ==> s.starters[i].StartReturned?) && (s.deletes == 1 ==> Deleted(s))
  }

  lemma StepKeepsWithdrawn(s: Runtime, e: Event)
    requires Invariant(s) && Step(s, e).Some? && OneStart(Step(s, e).value)
    requires !(e.CloseDeletes? && !e.ok)
    ensures OneStart(s)
    ensures Withdrawn(s) ==> Withdrawn(Step(s, e).value)
  {
    var t := Step(s, e).value;
    assert forall i :: i in s.starters ==> i in t.starters;
    if e.CloseDeletes? { assert Busy(s, e.id); }
  }

  /** With one Start call no renewal can be in flight, so a lease whose deletion
      succeeded stays deleted. */
  lemma {:induction false} OneStartIsEnough(events: seq<Event>)
    requires AfterEvents(events).Some? && OneStart(AfterEvents(events).value) && !DeleteFailed(events)
    ensures Withdrawn(AfterEvents(events).value)
  {
    if events != [] {
      var n := |events| - 1;
      assert forall e :: e in events[..n] ==> e in events;
      assert events[n] in events;
      EveryRunKeepsInvariant(events[..n]);
      StepKeepsWithdrawn(AfterEvents(events[..n]).value, events[n]);
      OneStartIsEnough(events[..n]);
    }
  }

  // ----- two overlapping Start calls

  const FIRST_IN := NEW.(starters := map[0 := Renewing])
  const BOTH_IN := NEW.(starters := map[0 := Renewing, 1 := Renewing])
  const FIRST_RENEWED := BOTH_IN.(row := true, starters := map[0 := Renewed, 1 := Renewing])
  const RUNNING :=
    FIRST_RENEWED.(started := true, loop := Looping, starters := map[0 := StartReturned(true), 1 := Renewing])
  const CLOSING := RUNNING.(closed := true, closers := map[0 := Joining(true)])
  const LOOP_OVER := CLOSING.(loop := Ended(false))
  const JOINED := LOOP_OVER.(closers := map[0 := Checking(true)])
  const DELETING := JOINED.(closers := map[0 := Deleting])
  const GONE := DELETING.(closers := map[0 := CloseReturned(true)], deletes := 1, row := false)

  lemma StartsOverlap()
    ensures Step(NEW, StartEnters(0)) == Some(FIRST_IN) && Step(FIRST_IN, StartEnters(1)) == Some(BOTH_IN)
  {
    assert map[0 := Renewing][1 := Renewing] == map[0 := Renewing, 1 := Renewing];
  }

  lemma FirstStarts()
    ensures Step(BOTH_IN, StartStores(0, true, true)) == Some(FIRST_RENEWED)
    ensures Step(FIRST_RENEWED, StartFinishes(0)) == Some(RUNNING)
  {
    assert BOTH_IN.starters[0 := Renewed] == FIRST_RENEWED.starters;
    assert FIRST_RENEWED.starters[0 := StartReturned(true)] == RUNNING.starters;
  }

  lemma ClosesAndJoins()
    ensures Step(RUNNING, CloseEnters(0)) == Some(CLOSING) && Step(CLOSING, LoopCancelled) == Some(LOOP_OVER)
    ensures Step(LOOP_OVER, CloseJoins(0)) == Some(JOINED)
  {
    assert LOOP_OVER.closers[0 := Checking(true)] == JOINED.closers;
  }

  lemma Deletes()
    ensures Step(JOINED, CloseChecks(0)) == Some(DELETING) && Step(DELETING, CloseDeletes(0, true)) == Some(GONE)
  {
    assert JOINED.closers[0 := Deleting] == DELETING.closers && DELETING.closers[0 := CloseReturned(true)] == GONE.closers;
  }

  lemma Then(events: seq<Event>, s: Runtime, e: Event, t: Runtime)
    requires AfterEvents(events) == Some(s) && Step(s, e) == Some(t)
    ensures AfterEvents(events + [e]) == Some(t)
  {
    assert (events + [e])[..|events|] == events;
  }

  lemma Starts() returns (events: seq<Event>)
    ensures AfterEvents(events) == Some(RUNNING)
  {
    StartsOverlap();
    FirstStarts();
    events := [];
    Then(events, NEW, StartEnters(0), FIRST_IN);
    events := events + [StartEnters(0)];
    Then(events, FIRST_IN, StartEnters(1), BOTH_IN);
    events := events + [StartEnters(1)];
    Then(events, BOTH_IN, StartStores(0, true, true), FIRST_RENEWED);
    events := events + [StartStores(0, true, true)];
    Then(events, FIRST_RENEWED, StartFinishes(0), RUNNING);
    events := events + [StartFinishes(0)];
  }

  lemma Closes() returns (events: seq<Event>)
    ensures AfterEvents(events) == Some(JOINED)
  {
    ClosesAndJoins();
    events := Starts();
    Then(events, RUNNING, CloseEnters(0), CLOSING);
    events := events + [CloseEnters(0)];
    Then(events, CLOSING, LoopCancelled, LOOP_OVER);
    events := events + [LoopCancelled];
    Then(events, LOOP_OVER, CloseJoins(0), JOINED);
    events := events + [CloseJoins(0)];
  }

  lemma GoneWithRenewal()
    ensures Deleted(GONE) && RenewalInFlight(GONE)
  {
    assert Renewal(GONE, 1);
  }

  /** Some run deletes the lease while a renewal is in flight: two Start calls
      that overlap. By WrittenBackExactly the lease can then be written back. */
  lemma OverlappingStartsResurrect() returns (events: seq<Event>)
    ensures AfterEvents(events) == Some(GONE) && Deleted(GONE)
    ensures exists more :: From(GONE, more).Some? && From(GONE, more).value.row
  {
    events := Closes();
    Deletes();
    Then(events, JOINED, CloseChecks(0), DELETING);
    events := events + [CloseChecks(0)];
    Then(events, DELETING, CloseDeletes(0, true), GONE);
    events := events + [CloseDeletes(0, true)];
    EveryRunKeepsInvariant(events);
    GoneWithRenewal();
    WrittenBackExactly(GONE);
  }
}
