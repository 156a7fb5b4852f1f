/** Attempt accounting over fixed-window counters
    (server/app/authentication_attempt.go, server/app/authentication.go,
    packages/cache). Times are nanoseconds; a failing cache call is a fault bit. */
module Attempts {
  import opened Outcomes
  import opened AttemptKeys

  const MAX_INT64 := 0x7FFF_FFFF_FFFF_FFFF
  const MILLISECOND := 1_000_000

  // ----- counters

  /** cache.NormalizedTTL: the least whole number of milliseconds not below the
      lifetime; None, its error, exactly when there is none a duration can
      hold. */
  function NormalTTL(ttl: int): (r: Option<int>)
    ensures r.None? <==> ttl < 0 || ttl > MAX_INT64 - MAX_INT64 % MILLISECOND
    ensures r.Some? ==> r.value % MILLISECOND == 0 && ttl <= r.value < ttl + MILLISECOND && r.value <= MAX_INT64
  {
    if ttl < 0 then None
    else
      var remainder := ttl % MILLISECOND;
      if remainder == 0 && ttl <= MAX_INT64 then Some(ttl)
      else
        var increment := MILLISECOND - remainder;
        if ttl > MAX_INT64 - increment then None else Some(ttl + increment)
  }

  datatype Counter = Counter(value: int, expiresAt: Option<int>)
  type Counters = map<Bytes, Counter>

  predicate Expired(c: Counter, now: int) { c.expiresAt.Some? && now >= c.expiresAt.value }

  function At<K, V>(table: map<K, V>, key: K): Option<V> {
    if key in table then Some(table[key]) else None
  }

  function Live(c: Option<Counter>, now: int): Option<Counter> {
    if c.Some? && !Expired(c.value, now) then c else None
  }

  /** One counter after an increment; None when it overflows. */
  function Bump(c: Option<Counter>, delta: nat, ttl: nat, now: int): Option<Counter> {
    var live := Live(c, now);
    var current := if live.Some? then live.value.value else 0;
    if current > MAX_INT64 - delta then None
    else if live.Some? && live.value.expiresAt.Some? then Some(live.value.(value := current + delta))
    else Some(Counter(current + delta, if ttl > 0 then Some(now + ttl) else None))
  }

  /** Counter.Add: None in the second part is an error, which changes nothing. */
  function Added(counters: Counters, key: Bytes, delta: nat, ttl: int, now: int, fault: bool): (Counters, Option<int>) {
    var normal := NormalTTL(ttl);
    if fault || normal.None? then (counters, None)
    else
      var next := Bump(At(counters, key), delta, normal.value, now);
      if next.None? then (counters, None) else (counters[key := next.value], Some(next.value.value))
  }

  /** Counter.Add changes one counter: an error, exactly on a fault, a lifetime that
      cannot be held or an overflow, changes nothing; otherwise the key holds what
      is reported and every other key what it held. */
  lemma AddedExactly(counters: Counters, key: Bytes, delta: nat, ttl: int, now: int, fault: bool)
    ensures var (next, count) := Added(counters, key, delta, ttl, now, fault);
            var live := Live(At(counters, key), now);
            && (count.None? <==>
                  || fault || ttl < 0 || ttl > MAX_INT64 - MAX_INT64 % MILLISECOND
                  || (if live.Some? then live.value.value else 0) + delta > MAX_INT64)
            && (count.None? ==> next == counters)
            && (count.Some? ==>
                  && key in next && next[key].value == count.value == (if live.Some? then live.value.value else 0) + delta
                  && forall k :: k != key ==> At(next, k) == At(counters, k))
  {
  }

  /** Increments of one counter: when, and by how much. */
  datatype Increment = Increment(now: int, delta: nat)

  /** The counter after the first n of them. */
  function Counting(adds: seq<Increment>, ttl: nat, n: nat): Option<Counter>
    requires n <= |adds|
  {
    if n == 0 then None else Bump(Counting(adds, ttl, n - 1), adds[n - 1].delta, ttl, adds[n - 1].now)
  }

  /** The increment that opened the window the n-th from last falls in: the first of
      all, or the first at or after the end of the window before. */
  function Opener(adds: seq<Increment>, ttl: nat, n: nat): (i: nat)
    requires 0 < n <= |adds|
    ensures i < n
  {
    if n == 1 then 0
    else
      var before := Opener(adds, ttl, n - 1);
      if adds[n - 1].now >= adds[before].now + ttl then n - 1 else before
  }

  function Total(adds: seq<Increment>, i: nat, n: nat): nat
    requires i <= n <= |adds|
  {
    if i == n then 0 else Total(adds, i, n - 1) + adds[n - 1].delta
  }

  /** A counter is its window: it holds the sum of the increments since the one that
      opened it and expires a lifetime after that, as long as the sums fit. */
  lemma {:induction false} CountingExactly(adds: seq<Increment>, ttl: nat, n: nat)
    requires 0 < n <= |adds| && ttl > 0
    requires forall m :: 0 < m <= n ==> Total(adds, Opener(adds, ttl, m), m) <= MAX_INT64
    ensures var i := Opener(adds, ttl, n);
            Counting(adds, ttl, n) == Some(Counter(Total(adds, i, n), Some(adds[i].now + ttl)))
  {
    assert Total(adds, Opener(adds, ttl, n), n) <= MAX_INT64;
    if n > 1 {
      CountingExactly(adds, ttl, n - 1);
      var i := Opener(adds, ttl, n);
      assert Total(adds, n - 1, n) == Total(adds, n - 1, n - 1) + adds[n - 1].delta;
    } else {
      assert Counting(adds, ttl, 0) == None && Total(adds, 0, 1) == Total(adds, 0, 0) + adds[0].delta;
    }
  }

  // ----- accounting

  datatype Limit = Limit(dimension: Byte, maximum: int, identity: Bytes, source: Bytes)
  datatype Intent = Intent(purpose: Byte, qualifier: Bytes, window: int, limits: seq<Limit>)

  predicate ValidLimit(limit: Limit) {
    && ValidDimension(limit.dimension) && limit.maximum > 0
    && |limit.identity| <= MAXIMUM_IDENTITY && |limit.source| <= MAXIMUM_SOURCE
  }

  /** At least one limit, none invalid, and no dimension twice. */
  ghost predicate ValidIntent(intent: Intent) {
    && ValidPurpose(intent.purpose) && 0 < intent.window && intent.limits != []
    && |intent.qualifier| <= MAXIMUM_QUALIFIER
    && (forall limit :: limit in intent.limits ==> ValidLimit(limit))
    && (forall i, j :: 0 <= i < j < |intent.limits| ==> intent.limits[i].dimension != intent.limits[j].dimension)
  }

  function Dimensions(limits: seq<Limit>): set<Byte> { set limit | limit in limits :: limit.dimension }

  ghost predicate NoneTwice(limits: seq<Limit>) {
    forall i, j :: 0 <= i < j < |limits| ==> limits[i].dimension != limits[j].dimension
  }

  lemma OneMoreDimension(init: seq<Limit>, last: Limit)
    ensures Dimensions(init + [last]) == Dimensions(init) + {last.dimension}
  {
    assert forall limit :: limit in init + [last] <==> limit in init || limit == last;
  }

  lemma NoneTwiceMore(init: seq<Limit>, last: Limit)
    ensures NoneTwice(init + [last]) <==> NoneTwice(init) && last.dimension !in Dimensions(init)
  {
    var all := init + [last];
    if last.dimension in Dimensions(init) {
      var limit :| limit in init && limit.dimension == last.dimension;
      var i :| 0 <= i < |init| && init[i] == limit;
      assert all[i].dimension == all[|init|].dimension;
    } else {
      forall i | 0 <= i < |init| ensures init[i].dimension != last.dimension { assert init[i] in init; }
    }
    if NoneTwice(all) {
      forall i, j | 0 <= i < j < |init| ensures init[i].dimension != init[j].dimension {
        assert all[i].dimension != all[j].dimension;
      }
    }
  }

  lemma {:induction false} DistinctDimensions(limits: seq<Limit>)
    ensures |Dimensions(limits)| <= |limits| && (|Dimensions(limits)| == |limits| <==> NoneTwice(limits))
  {
    if limits != [] {
      var init, last := limits[..|limits| - 1], limits[|limits| - 1];
      DistinctDimensions(init);
      assert limits == init + [last];
      OneMoreDimension(init, last);
      NoneTwiceMore(init, last);
    }
  }

  /** An intent is valid exactly with one of the ten purposes, a window, a bounded
      qualifier, and limits of as many dimensions as there are limits, each positive
      and on bounded identities and sources. */
  lemma ValidIntentExactly(intent: Intent)
    ensures ValidIntent(intent) <==>
              && 1 <= intent.purpose <= 10 && intent.window > 0 && |intent.qualifier| <= 256
              && 0 < |intent.limits| == |Dimensions(intent.limits)|
              && forall limit :: limit in intent.limits ==>
                   1 <= limit.dimension <= 4 && limit.maximum > 0 && |limit.identity| <= 4096 && |limit.source| <= 4096
  {
    DistinctDimensions(intent.limits);
  }

  method ValidateIntent(intent: Intent) returns (valid: bool)
    ensures valid <==> ValidIntent(intent)
  {
    if !ValidPurpose(intent.purpose) || intent.window <= 0 || |intent.limits| == 0
       || |intent.qualifier| > MAXIMUM_QUALIFIER
    {
      return false;
    }
    var seen: set<Byte> := {};
    for i := 0 to |intent.limits|
      invariant forall d :: d in seen <==> exists j :: 0 <= j < i && intent.limits[j].dimension == d
      invariant forall j :: 0 <= j < i ==> ValidLimit(intent.limits[j])
      invariant forall j, k :: 0 <= j < k < i ==> intent.limits[j].dimension != intent.limits[k].dimension
    {
      var limit := intent.limits[i];
      assert limit in intent.limits;
      if !ValidDimension(limit.dimension) || limit.maximum <= 0 { return false; }
      if limit.dimension in seen { return false; }
      if |limit.identity| > MAXIMUM_IDENTITY || |limit.source| > MAXIMUM_SOURCE { return false; }
      seen := seen + {limit.dimension};
    }
    return true;
  }

  function SubjectOf(intent: Intent, limit: Limit): Subject {
    Subject(intent.purpose, limit.dimension, intent.qualifier, limit.identity, limit.source)
  }

  function LimitKey(lib: Library, intent: Intent, i: nat): Bytes
    requires i < |intent.limits|
  {
    Key(lib, SubjectOf(intent, intent.limits[i]))
  }

  /** The counters after the first n limits were charged, the counts read back,
      and whether a charge failed and ended the loop. */
  datatype Charge = Charge(counters: Counters, counts: seq<int>, failed: bool)

  function Charged(add: (Counters, nat) -> (Counters, Option<int>), n: nat, counters: Counters): (r: Charge)
    ensures |r.counts| <= n && (!r.failed ==> |r.counts| == n)
  {
    if n == 0 then Charge(counters, [], false)
    else
      var before := Charged(add, n - 1, counters);
      if before.failed then before
      else
        var (next, count) := add(before.counters, n - 1);
        if count.None? then Charge(next, before.counts, true) else Charge(next, before.counts + [count.value], false)
  }

  lemma {:induction false} FailedStays(add: (Counters, nat) -> (Counters, Option<int>), n: nat, m: nat, counters: Counters)
    requires n <= m && Charged(add, n, counters).failed
    ensures Charged(add, m, counters) == Charged(add, n, counters)
  {
    if n < m { FailedStays(add, n, m - 1, counters); }
  }

  ghost predicate Adds(add: (Counters, nat) -> (Counters, Option<int>), counters: Counters, i: nat,
                       key: Bytes, window: int, now: int, fault: bool) {
    add(counters, i) == Added(counters, key, 1, window, now, fault)
  }

  /** Charging the counter of one limit. */
  function Adder(lib: Library, intent: Intent, faults: seq<bool>, now: int): (Counters, nat) -> (Counters, Option<int>) {
    (counters: Counters, i: nat) =>
      if i < |intent.limits| && i < |faults|
      then Added(counters, LimitKey(lib, intent, i), 1, intent.window, now, faults[i])
      else (counters, None)
  }

  function ChargedAll(lib: Library, intent: Intent, faults: seq<bool>, now: int, counters: Counters): Charge {
    Charged(Adder(lib, intent, faults, now), |intent.limits|, counters)
  }

  ghost predicate Within(intent: Intent, charge: Charge) {
    && !charge.failed && |charge.counts| == |intent.limits|
    && forall i :: 0 <= i < |charge.counts| ==> charge.counts[i] <= intent.limits[i].maximum
  }

  method PassesLimit(limits: seq<Limit>, counts: seq<int>) returns (limited: bool)
    requires |limits| == |counts|
    ensures !limited <==> forall i :: 0 <= i < |counts| ==> counts[i] <= limits[i].maximum
  {
    for i := 0 to |counts|
      invariant forall j :: 0 <= j < i ==> counts[j] <= limits[j].maximum
    {
      if counts[i] > limits[i].maximum { return true; }
    }
    return false;
  }

  datatype Verdict = Admitted | Limited | Unavailable

  /** authenticationAttemptAccounting, over the counters it changes. */
  class Accounting {
    const lib: Library
    var counters: Counters

    constructor (library: Library)
      ensures lib == library && counters == map[]
    {
      lib, counters := library, map[];
    }

    method Add(key: Bytes, delta: nat, ttl: int, now: int, fault: bool) returns (count: Option<int>)
      requires ttl <= MAX_INT64
      modifies this
      ensures (counters, count) == Added(old(counters), key, delta, ttl, now, fault)
    {
      if fault { return None; }
      var normal := NormalTTL(ttl);
      if normal.None? { return None; }
      var found := key in counters && !Expired(counters[key], now);
      var current := if found then counters[key].value else 0;
      if current > MAX_INT64 - delta { return None; }
      current := current + delta;
      var expiresAt := None;
      if found && counters[key].expiresAt.Some? {
        expiresAt := counters[key].expiresAt;
      } else if normal.value > 0 {
        expiresAt := Some(now + normal.value);
      }
      counters := counters[key := Counter(current, expiresAt)];
      return Some(current);
    }

    method Delete(key: Bytes)
      modifies this
      ensures counters == old(counters) - {key}
    {
      counters := counters - {key};
    }

    method ChargeOne(i: nat, key: Bytes, window: int, now: int, fault: bool, ghost add: (Counters, nat) -> (Counters, Option<int>))
      returns (count: Option<int>)
      requires window <= MAX_INT64 && Adds(add, counters, i, key, window, now, fault)
      modifies this
      ensures (counters, count) == add(old(counters), i)
    {
      count := Add(key, 1, window, now, fault);
    }

    /** One counter after another until one fails. The receipt names the counter
        of each dimension that was charged. */
    method ChargeLimits(intent: Intent, keys: seq<Bytes>, faults: seq<bool>, now: int,
                        ghost add: (Counters, nat) -> (Counters, Option<int>))
      returns (counts: seq<int>, failed: bool, receipt: map<Byte, Bytes>)
      requires |keys| == |faults| == |intent.limits| && intent.window <= MAX_INT64
      requires forall c, i :: 0 <= i < |keys| ==> Adds(add, c, i, keys[i], intent.window, now, faults[i])
      requires forall i, j :: 0 <= i < j < |keys| ==> intent.limits[i].dimension != intent.limits[j].dimension
      modifies this
      ensures Charge(counters, counts, failed) == Charged(add, |keys|, old(counters))
      ensures !failed ==> forall i :: 0 <= i < |keys| ==> At(receipt, intent.limits[i].dimension) == Some(keys[i])
    {
      counts, failed, receipt := [], false, map[];
      for i := 0 to |keys|
        invariant !failed && Charge(counters, counts, false) == Charged(add, i, old(counters))
        invariant forall j :: 0 <= j < i ==> At(receipt, intent.limits[j].dimension) == Some(keys[j])
      {
        assert Adds(add, counters, i, keys[i], intent.window, now, faults[i]);
        var count := ChargeOne(i, keys[i], intent.window, now, faults[i], add);
        if count.None? {
          failed := true;
          FailedStays(add, i + 1, |keys|, old(counters));
          return;
        }
        receipt := receipt[intent.limits[i].dimension := keys[i]];
        counts := counts + [count.value];
      }
    }

    /** Every limit is charged before any is judged. */
    method Account(intent: Intent, faults: seq<bool>, now: int) returns (verdict: Verdict, receipt: map<Byte, Bytes>)
      requires |faults| == |intent.limits| && intent.window <= MAX_INT64
      modifies this
      ensures !ValidIntent(intent) ==> verdict == Unavailable && counters == old(counters)
      ensures ValidIntent(intent) ==>
                var charge := ChargedAll(lib, intent, faults, now, old(counters));
                && counters == charge.counters
                && (verdict == Unavailable <==> charge.failed) && (verdict == Admitted <==> Within(intent, charge))
      ensures verdict != Unavailable ==>
                forall i :: 0 <= i < |intent.limits| ==>
                  At(receipt, intent.limits[i].dimension) == Some(LimitKey(lib, intent, i))
    {
      var valid := ValidateIntent(intent);
      if !valid { return Unavailable, map[]; }
      var keys := seq(|intent.limits|, i requires 0 <= i < |intent.limits| => LimitKey(lib, intent, i));
      var counts, failed;
      counts, failed, receipt := ChargeLimits(intent, keys, faults, now, Adder(lib, intent, faults, now));
      if failed { return Unavailable, map[]; }
      var limited := PassesLimit(intent.limits, counts);
      return if limited then Limited else Admitted, receipt;
    }

    /** False is the error of a receipt that does not hold the dimension. */
    method Reset(receipt: map<Byte, Bytes>, dimension: Byte) returns (ok: bool)
      modifies this
      ensures ok <==> dimension in receipt && receipt[dimension] != []
      ensures counters == if ok then old(counters) - {receipt[dimension]} else old(counters)
    {
      if dimension !in receipt || receipt[dimension] == [] { return false; }
      Delete(receipt[dimension]);
      return true;
    }

    method FailureSubject(purpose: Byte, subject: Bytes) returns (r: Option<Subject>)
      ensures r.Some? <==> ValidPurpose(purpose) && 0 < |subject| <= MAXIMUM_IDENTITY
      ensures r.Some? ==> Admissible(r.value) && r.value == Subject(purpose, ACCOUNT_FAILURE, [], subject, [])
    {
      if !ValidPurpose(purpose) || subject == [] || |subject| > MAXIMUM_IDENTITY { return None; }
      return Some(Subject(purpose, ACCOUNT_FAILURE, [], subject, []));
    }

    /** Reads the failures without recording one: an increment by nothing. */
    method Failures(subject: Subject, window: int, now: int, fault: bool) returns (count: Option<int>)
      requires window <= MAX_INT64
      modifies this
      ensures window <= 0 ==> count == None && counters == old(counters)
      ensures window > 0 ==> (counters, count) == Added(old(counters), Key(lib, subject), 0, window, now, fault)
    {
      if window <= 0 { return None; }
      count := Add(Key(lib, subject), 0, window, now, fault);
    }

    method RecordFailure(subject: Subject, window: int, now: int, fault: bool) returns (count: Option<int>)
      requires window <= MAX_INT64
      modifies this
      ensures window <= 0 ==> count == None && counters == old(counters)
      ensures window > 0 ==> (counters, count) == Added(old(counters), Key(lib, subject), 1, window, now, fault)
    {
      if window <= 0 { return None; }
      count := Add(Key(lib, subject), 1, window, now, fault);
    }

    method ClearFailures(subject: Subject)
      modifies this
      ensures counters == old(counters) - {Key(lib, subject)}
    {
      Delete(Key(lib, subject));
    }
  }
}
