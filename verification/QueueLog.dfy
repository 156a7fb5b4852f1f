/** Age buckets of the mail queue log (server/app_adapters.go). */
module AgeBuckets {
  const MINUTE := 60_000_000_000

  const BOUNDARIES: seq<(int, string)> :=
    [(5 * MINUTE, "lt_5m0s"), (15 * MINUTE, "lt_15m0s"), (30 * MINUTE, "lt_30m0s"), (60 * MINUTE, "lt_1h0m0s"),
     (180 * MINUTE, "lt_3h0m0s"), (720 * MINUTE, "lt_12h0m0s"), (1440 * MINUTE, "lt_24h0m0s")]

  /** The first boundary above the age. */
  function BucketFrom(age: int, i: nat): string
    requires i <= |BOUNDARIES|
    decreases |BOUNDARIES| - i
  {
    if i == |BOUNDARIES| then "gte_24h"
    else if age < BOUNDARIES[i].0 then BOUNDARIES[i].1
    else BucketFrom(age, i + 1)
  }

  function Bucket(age: int): string { BucketFrom(age, 0) }

  /** mailQueueAgeBucket. */
  method AgeBucket(age: int) returns (r: string)
    ensures r == Bucket(age)
  {
    for i := 0 to |BOUNDARIES|
      invariant BucketFrom(age, i) == Bucket(age)
    {
      if age < BOUNDARIES[i].0 { return BOUNDARIES[i].1; }
    }
    return "gte_24h";
  }

  /** The number of boundaries an age has reached. */
  function Reached(age: int): (n: nat)
    ensures n <= 7
  {
    if age < 5 * MINUTE then 0 else if age < 15 * MINUTE then 1 else if age < 30 * MINUTE then 2
    else if age < 60 * MINUTE then 3 else if age < 180 * MINUTE then 4 else if age < 720 * MINUTE then 5
    else if age < 1440 * MINUTE then 6 else 7
  }

  function BucketName(n: nat): string { if n < 7 then BOUNDARIES[n].1 else "gte_24h" }

  lemma BucketIsName(age: int)
    ensures Bucket(age) == BucketName(Reached(age))
  {
    var n := Reached(age);
    assert BucketFrom(age, n) == BucketName(n);
    assert n > 0 ==> BucketFrom(age, n - 1) == BucketFrom(age, n);
    assert n > 1 ==> BucketFrom(age, n - 2) == BucketFrom(age, n);
    assert n > 2 ==> BucketFrom(age, n - 3) == BucketFrom(age, n);
    assert n > 3 ==> BucketFrom(age, n - 4) == BucketFrom(age, n);
    assert n > 4 ==> BucketFrom(age, n - 5) == BucketFrom(age, n);
    assert n > 5 ==> BucketFrom(age, n - 6) == BucketFrom(age, n);
  }

  lemma NamesDiffer(m: nat, n: nat)
    requires m < n <= 7
    ensures BucketName(m) != BucketName(n)
  {
    var x, y := BucketName(m), BucketName(n);
    assert |x| != |y| || x[0] != y[0] || x[3] != y[3];
  }

  /** Two ages share a bucket exactly when no boundary lies between them. */
  lemma SameBucketExactly(a: int, b: int)
    ensures Bucket(a) == Bucket(b) <==> forall i :: 0 <= i < |BOUNDARIES| ==> (a < BOUNDARIES[i].0 <==> b < BOUNDARIES[i].0)
  {
    BucketIsName(a);
    BucketIsName(b);
    var m, n := Reached(a), Reached(b);
    if m < n { NamesDiffer(m, n); assert a < BOUNDARIES[m].0 && !(b < BOUNDARIES[m].0); }
    if n < m { NamesDiffer(n, m); assert b < BOUNDARIES[n].0 && !(a < BOUNDARIES[n].0); }
  }
}

/** The mail queue log (server/app_adapters.go): each snapshot logs only what
    changed, and the log alone gives the current queues back. */
module QueueLog {
  import opened Outcomes
  import AgeBuckets

  datatype Key = Key(template: string, state: string, code: string)
  datatype Metric = Metric(key: Key, count: int, age: int, health: string, truncated: bool)
  datatype Entry = Entry(key: Key, count: int, bucket: string, health: string, truncated: bool)

  type Bucketing = int -> string

  type Queues = map<Key, Metric>

  /** A snapshot by key; of two metrics with one key the later counts. */
  function Latest(metrics: seq<Metric>): Queues {
    if metrics == [] then map[]
    else Latest(metrics[..|metrics| - 1])[metrics[|metrics| - 1].key := metrics[|metrics| - 1]]
  }

  function Present(bucket: Bucketing, m: Metric): Entry { Entry(m.key, m.count, bucket(m.age), m.health, m.truncated) }
  function Removed(bucket: Bucketing, m: Metric): Entry { Entry(m.key, 0, bucket(0), m.health, m.truncated) }

  /** What one snapshot says of one key, if it has changed. */
  function Change(bucket: Bucketing, before: Queues, after: Queues, key: Key): Option<Entry> {
    if key in after then
      if key in before && Present(bucket, before[key]) == Present(bucket, after[key]) then None
      else Some(Present(bucket, after[key]))
    else if key in before then Some(Removed(bucket, before[key]))
    else None
  }

  /** The log of one snapshot: an entry for every changed key and for no other,
      each once, in any order. */
  ghost predicate Logs(bucket: Bucketing, before: Queues, after: Queues, entries: seq<Entry>) {
    && (forall i :: 0 <= i < |entries| ==> Change(bucket, before, after, entries[i].key) == Some(entries[i]))
    && (forall key :: Change(bucket, before, after, key).Some? ==> Change(bucket, before, after, key).value in entries)
    && (forall i, j :: 0 <= i < j < |entries| ==> entries[i].key != entries[j].key)
  }

  predicate Keyed(queues: Queues) { forall key :: key in queues ==> queues[key].key == key }

  lemma {:induction false} LatestKeyed(metrics: seq<Metric>)
    ensures Keyed(Latest(metrics))
  {
    if metrics != [] { LatestKeyed(metrics[..|metrics| - 1]); }
  }

  /** operationalMailTelemetry, as far as queues go. */
  class Telemetry {
    const bucket: Bucketing
    var queues: Queues
    var buckets: map<Key, string>

    ghost predicate Valid() reads this {
      Keyed(queues) && buckets == BucketsOf(bucket, map[], queues, queues.Keys)
    }

    constructor ()
      ensures Valid() && queues == map[] && bucket == AgeBuckets.Bucket
    {
      bucket, queues, buckets := AgeBuckets.Bucket, map[], map[];
    }

    method RecordSnapshot(metrics: seq<Metric>) returns (entries: seq<Entry>)
      requires Valid()
      modifies this
      ensures Valid() && queues == Latest(metrics) && Logs(bucket, old(queues), queues, entries)
      ensures buckets.Keys == queues.Keys && forall key :: key in queues ==> buckets[key] == bucket(queues[key].age)
    {
      var next := Collect(metrics);
      LatestKeyed(metrics);
      var previous := queues;
      queues := next;
      entries := ObserveNext(previous, next);
      entries := ObserveRemoved(previous, next, entries);
    }

    method Collect(metrics: seq<Metric>) returns (next: Queues)
      ensures next == Latest(metrics)
    {
      next := map[];
      for i := 0 to |metrics|
        invariant next == Latest(metrics[..i])
      {
        assert metrics[..i + 1][..i] == metrics[..i];
        next := next[metrics[i].key := metrics[i]];
      }
      assert metrics[..|metrics|] == metrics;
    }

    /** One key of the new snapshot. */
    method ObserveKey(previous: Queues, next: Queues, key: Key) returns (entry: Option<Entry>)
      requires Keyed(previous) && Keyed(next) && key in next
      requires key in previous ==> key in buckets && buckets[key] == bucket(previous[key].age)
      modifies this`buckets
      ensures entry == Change(bucket, previous, next, key) && buckets == old(buckets)[key := bucket(next[key].age)]
    {
      var metric := next[key];
      var age := bucket(metric.age);
      var priorBucket := if key in buckets then buckets[key] else "";
      buckets := buckets[key := age];
      if key !in previous || previous[key].count != metric.count || previous[key].health != metric.health
         || previous[key].truncated != metric.truncated || priorBucket != age
      {
        return Some(Entry(metric.key, metric.count, age, metric.health, metric.truncated));
      }
      return None;
    }

    /** The first loop: the keys of the new snapshot. */
    method ObserveNext(previous: Queues, next: Queues) returns (entries: seq<Entry>)
      requires Keyed(previous) && Keyed(next) && buckets == BucketsOf(bucket, previous, next, {})
      modifies this`buckets
      ensures buckets == BucketsOf(bucket, previous, next, next.Keys)
      ensures Covers(bucket, previous, next, next.Keys, entries)
    {
      entries := [];
      var rest, seen := next.Keys, {};
      while rest != {}
        invariant rest !! seen && rest + seen == next.Keys
        invariant buckets == BucketsOf(bucket, previous, next, seen)
        invariant Covers(bucket, previous, next, seen, entries)
        decreases rest
      {
        var key :| key in rest;
        CoversStep(bucket, previous, next, seen, key, entries);
        BucketsStep(bucket, previous, next, seen, key);
        var entry := ObserveKey(previous, next, key);
        entries := entries + Listed(entry);
        rest, seen := rest - {key}, seen + {key};
      }
    }

    /** The second loop: the keys that are gone. */
    method ObserveRemoved(previous: Queues, next: Queues, observed: seq<Entry>) returns (entries: seq<Entry>)
      requires Keyed(previous) && Keyed(next) && Covers(bucket, previous, next, next.Keys, observed)
      requires buckets == BucketsOf(bucket, previous, next, next.Keys)
      modifies this`buckets
      ensures buckets == BucketsOf(bucket, map[], next, next.Keys)
      ensures Logs(bucket, previous, next, entries)
    {
      entries := observed;
      var rest := previous.Keys;
      BucketsKept(bucket, previous, next);
      CoversStart(bucket, previous, next, entries);
      while rest != {}
        invariant rest <= previous.Keys && buckets == BucketsLeft(bucket, next, previous, rest)
        invariant CoversBut(bucket, previous, next, rest, entries)
        decreases rest
      {
        var key :| key in rest;
        BucketsLess(bucket, next, previous, rest, key);
        CoversRemoved(bucket, previous, next, rest, key, entries);
        rest := rest - {key};
        if key in next { continue; }
        var entry := RemovedEntry(previous[key]);
        entries := entries + [entry];
        buckets := buckets - {key};
      }
      CoversAll(bucket, previous, next, entries);
      BucketsEnd(bucket, previous, next);
    }

    /** The entry of a key that is gone: its last metric, emptied. */
    method RemovedEntry(last: Metric) returns (entry: Entry)
      ensures entry == Removed(bucket, last)
    {
      var metric := last;
      metric := metric.(count := 0);
      metric := metric.(age := 0);
      entry := Entry(metric.key, metric.count, bucket(metric.age), metric.health, metric.truncated);
    }
  }

  lemma BucketsStep(bucket: Bucketing, previous: Queues, next: Queues, seen: set<Key>, key: Key)
    requires key in next && key !in seen
    ensures BucketsOf(bucket, previous, next, seen + {key}) == BucketsOf(bucket, previous, next, seen)[key := bucket(next[key].age)]
    ensures key in previous ==> key in BucketsOf(bucket, previous, next, seen)
                                && BucketsOf(bucket, previous, next, seen)[key] == bucket(previous[key].age)
  {
  }

  /** The buckets when only the rest of the old keys are still to be looked at. */
  function BucketsLeft(bucket: Bucketing, next: Queues, previous: Queues, rest: set<Key>): map<Key, string> {
    map key | key in next.Keys + (previous.Keys * rest) :: bucket(if key in next then next[key].age else previous[key].age)
  }

  lemma BucketsKept(bucket: Bucketing, previous: Queues, next: Queues)
    ensures BucketsOf(bucket, previous, next, next.Keys) == BucketsLeft(bucket, next, previous, previous.Keys)
  {
  }

  lemma BucketsLess(bucket: Bucketing, next: Queues, previous: Queues, rest: set<Key>, key: Key)
    requires key in rest
    ensures BucketsLeft(bucket, next, previous, rest - {key})
            == BucketsLeft(bucket, next, previous, rest) - (if key in next then {} else {key})
  {
  }

  lemma BucketsEnd(bucket: Bucketing, previous: Queues, next: Queues)
    ensures BucketsLeft(bucket, next, previous, {}) == BucketsOf(bucket, map[], next, next.Keys)
  {
  }

  function Listed(entry: Option<Entry>): seq<Entry> { if entry.Some? then [entry.value] else [] }

  /** The buckets when the keys seen have been brought up to date. */
  function BucketsOf(bucket: Bucketing, previous: Queues, next: Queues, seen: set<Key>): map<Key, string> {
    map key | key in previous.Keys + (next.Keys * seen) ::
      bucket(if key in next && key in seen then next[key].age else previous[key].age)
  }

  /** The log so far, for the keys looked at. */
  ghost predicate Covers(bucket: Bucketing, before: Queues, after: Queues, keys: set<Key>, entries: seq<Entry>) {
    && (forall i :: 0 <= i < |entries| ==>
          entries[i].key in keys && Change(bucket, before, after, entries[i].key) == Some(entries[i]))
    && (forall key :: key in keys && Change(bucket, before, after, key).Some? ==>
          Change(bucket, before, after, key).value in entries)
    && (forall i, j :: 0 <= i < j < |entries| ==> entries[i].key != entries[j].key)
  }

  lemma CoversStep(bucket: Bucketing, before: Queues, after: Queues, keys: set<Key>, key: Key, entries: seq<Entry>)
    requires Keyed(before) && Keyed(after) && Covers(bucket, before, after, keys, entries) && key !in keys
    ensures Covers(bucket, before, after, keys + {key}, entries + Listed(Change(bucket, before, after, key)))
  {
    var change := Change(bucket, before, after, key);
    var all := entries + Listed(change);
    assert change.Some? ==> change.value.key == key && change.value in all;
    forall k | k in keys + {key} && Change(bucket, before, after, k).Some? ensures Change(bucket, before, after, k).value in all {
      if k != key { assert Change(bucket, before, after, k).value in entries; }
    }
  }

  /** The log so far, with the rest of the old keys still to be looked at. */
  ghost predicate CoversBut(bucket: Bucketing, before: Queues, after: Queues, rest: set<Key>, entries: seq<Entry>) {
    Covers(bucket, before, after, after.Keys + (before.Keys - rest), entries)
  }

  lemma CoversStart(bucket: Bucketing, before: Queues, after: Queues, entries: seq<Entry>)
    requires Covers(bucket, before, after, after.Keys, entries)
    ensures CoversBut(bucket, before, after, before.Keys, entries)
  {
    assert after.Keys + (before.Keys - before.Keys) == after.Keys;
  }

  lemma CoversRemoved(bucket: Bucketing, before: Queues, after: Queues, rest: set<Key>, key: Key, entries: seq<Entry>)
    requires Keyed(before) && Keyed(after) && CoversBut(bucket, before, after, rest, entries) && key in rest && rest <= before.Keys
    ensures CoversBut(bucket, before, after, rest - {key},
                      if key in after then entries else entries + [Removed(bucket, before[key])])
  {
    var seen := after.Keys + (before.Keys - rest);
    assert after.Keys + (before.Keys - (rest - {key})) == seen + {key};
    if key in after {
      assert seen + {key} == seen;
    } else {
      CoversStep(bucket, before, after, seen, key, entries);
    }
  }

  lemma CoversAll(bucket: Bucketing, before: Queues, after: Queues, entries: seq<Entry>)
    requires CoversBut(bucket, before, after, {}, entries)
    ensures Logs(bucket, before, after, entries)
  {
    assert forall key :: Change(bucket, before, after, key).Some? ==> key in after.Keys + before.Keys;
  }

  // ----- reading the log

  /** The last entry of each key. */
  function Replay(view: map<Key, Entry>, entries: seq<Entry>): map<Key, Entry> {
    if entries == [] then view
    else Replay(view, entries[..|entries| - 1])[entries[|entries| - 1].key := entries[|entries| - 1]]
  }

  /** The view tells every present queue as it is, and every other as empty. */
  ghost predicate Tells(bucket: Bucketing, view: map<Key, Entry>, queues: Queues) {
    && (forall key :: key in queues ==>
          && key in view && view[key].key == key && view[key].count == queues[key].count
          && view[key].bucket == bucket(queues[key].age) && view[key].health == queues[key].health
          && view[key].truncated == queues[key].truncated)
    && (forall key :: key in view && key !in queues ==> view[key].count == 0 && view[key].bucket == bucket(0))
  }

  lemma {:induction false} ReplayAt(view: map<Key, Entry>, entries: seq<Entry>, key: Key)
    requires forall i, j :: 0 <= i < j < |entries| ==> entries[i].key != entries[j].key
    ensures forall i :: 0 <= i < |entries| && entries[i].key == key ==>
              key in Replay(view, entries) && Replay(view, entries)[key] == entries[i]
    ensures (forall i :: 0 <= i < |entries| ==> entries[i].key != key) ==>
              (key in Replay(view, entries) <==> key in view)
              && (key in view ==> Replay(view, entries)[key] == view[key])
  {
    if entries != [] {
      ReplayAt(view, entries[..|entries| - 1], key);
    }
  }

  /** Reading one snapshot's log brings a true view up to date. */
  lemma ReplayTells(bucket: Bucketing, view: map<Key, Entry>, before: Queues, after: Queues, entries: seq<Entry>)
    requires Keyed(before) && Keyed(after) && Tells(bucket, view, before) && Logs(bucket, before, after, entries)
    ensures Tells(bucket, Replay(view, entries), after)
  {
    var now := Replay(view, entries);
    forall key ensures key in after ==> key in now && now[key] == Present(bucket, after[key])
               ensures key in now && key !in after ==> now[key].count == 0 && now[key].bucket == bucket(0)
    {
      ReplayAt(view, entries, key);
      var change := Change(bucket, before, after, key);
      if change.Some? {
        assert change.value in entries;
        var i :| 0 <= i < |entries| && entries[i] == change.value;
        assert entries[i].key == key;
      } else {
        assert forall i :: 0 <= i < |entries| ==> entries[i].key != key;
      }
    }
  }

  function Flatten(logs: seq<seq<Entry>>): seq<Entry> {
    if logs == [] then [] else Flatten(logs[..|logs| - 1]) + logs[|logs| - 1]
  }

  lemma {:induction false} ReplayMore(view: map<Key, Entry>, a: seq<Entry>, b: seq<Entry>)
    ensures Replay(view, a + b) == Replay(Replay(view, a), b)
  {
    if b == [] {
      assert a + b == a;
    } else {
      ReplayMore(view, a, b[..|b| - 1]);
      assert (a + b)[..|a + b| - 1] == a + b[..|b| - 1];
    }
  }

  /** The queues after the first n snapshots. */
  function QueuesAfter(snapshots: seq<seq<Metric>>, n: nat): Queues
    requires n <= |snapshots|
  {
    if n == 0 then map[] else Latest(snapshots[n - 1])
  }

  ghost predicate LogsRun(bucket: Bucketing, snapshots: seq<seq<Metric>>, logs: seq<seq<Entry>>) {
    |logs| == |snapshots|
    && forall n :: 0 <= n < |logs| ==> Logs(bucket, QueuesAfter(snapshots, n), QueuesAfter(snapshots, n + 1), logs[n])
  }

  /** For every sequence of snapshots the whole log, read from nothing, tells the
      current queues. */
  lemma {:induction false} LogTells(bucket: Bucketing, snapshots: seq<seq<Metric>>, logs: seq<seq<Entry>>, n: nat)
    requires LogsRun(bucket, snapshots, logs) && n <= |logs|
    ensures Tells(bucket, Replay(map[], Flatten(logs[..n])), QueuesAfter(snapshots, n))
  {
    if n > 0 {
      LogTells(bucket, snapshots, logs, n - 1);
      assert logs[..n][..n - 1] == logs[..n - 1];
      ReplayMore(map[], Flatten(logs[..n - 1]), logs[n - 1]);
      LatestKeyed(snapshots[n - 1]);
      if n > 1 { LatestKeyed(snapshots[n - 2]); }
      var view := Replay(map[], Flatten(logs[..n - 1]));
      ReplayTells(bucket, view, QueuesAfter(snapshots, n - 1), QueuesAfter(snapshots, n), logs[n - 1]);
    }
  }
}
