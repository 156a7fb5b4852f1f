/** Groups of rows and their smallest keys, for any notion of which rows take
    part, which group a row is in and what its key is. */
module Grouping {
  import Sorting
  import Text

  function Map<T, U>(f: T -> U, s: seq<T>): seq<U> { seq(|s|, i requires 0 <= i < |s| => f(s[i])) }

  lemma MapLast<T, U>(f: T -> U, s: seq<T>, x: T)
    ensures Map(f, s + [x]) == Map(f, s) + [f(x)]
  {
    var all, image := Map(f, s + [x]), Map(f, s) + [f(x)];
    assert |all| == |image| && forall i :: 0 <= i < |all| ==> all[i] == image[i];
  }

  lemma MapWithout<T, U>(f: T -> U, s: seq<T>, j: nat)
    requires j < |s|
    ensures multiset(s) == multiset(s[..j] + s[j + 1..]) + multiset{s[j]}
    ensures multiset(Map(f, s)) == multiset(Map(f, s[..j] + s[j + 1..])) + multiset{f(s[j])}
  {
    assert s == s[..j] + [s[j]] + s[j + 1..];
    var image := Map(f, s);
    assert image == image[..j] + [image[j]] + image[j + 1..];
    assert Map(f, s[..j] + s[j + 1..]) == image[..j] + image[j + 1..];
  }

  /** The multiset of images does not depend on the order. */
  lemma {:induction false} MapIgnoresOrder<T, U>(f: T -> U, x: seq<T>, y: seq<T>)
    requires multiset(x) == multiset(y)
    ensures multiset(Map(f, x)) == multiset(Map(f, y))
    decreases |x|
  {
    if x == [] {
      assert |multiset(y)| == 0;
    } else {
      assert x[0] in multiset(y);
      var j :| 0 <= j < |y| && y[j] == x[0];
      MapWithout(f, x, 0);
      MapWithout(f, y, j);
      var restX, restY := x[..0] + x[0 + 1..], y[..j] + y[j + 1..];
      assert multiset(restX) == multiset(x) - multiset{x[0]} == multiset(restY);
      MapIgnoresOrder(f, restX, restY);
    }
  }

  /** One pass over the rows: for each group the smallest key seen. */
  function Minima<T>(rows: seq<T>, pick: T -> bool, group: T -> string, key: T -> string): map<string, string> {
    if rows == [] then map[]
    else
      var before, row := Minima(rows[..|rows| - 1], pick, group, key), rows[|rows| - 1];
      if pick(row) && (group(row) !in before || Text.Less(key(row), before[group(row)]))
      then before[group(row) := key(row)] else before
  }

  /** Some picked row of the group has this key, and none has a smaller one. */
  ghost predicate IsMinimum<T(!new)>(rows: seq<T>, pick: T -> bool, group: T -> string, key: T -> string, g: string, k: string) {
    && (exists row :: row in rows && pick(row) && group(row) == g && key(row) == k)
    && (forall row :: row in rows && pick(row) && group(row) == g ==> key(row) == k || Text.Less(k, key(row)))
  }

  lemma {:induction false} MinimaAreMinimal<T(!new)>(rows: seq<T>, pick: T -> bool, group: T -> string, key: T -> string, g: string)
    ensures g in Minima(rows, pick, group, key) <==> exists row :: row in rows && pick(row) && group(row) == g
    ensures g in Minima(rows, pick, group, key) ==>
              IsMinimum(rows, pick, group, key, g, Minima(rows, pick, group, key)[g])
  {
    if rows != [] {
      var init, last := rows[..|rows| - 1], rows[|rows| - 1];
      assert rows == init + [last];
      assert forall row :: row in rows <==> row in init || row == last;
      MinimaAreMinimal(init, pick, group, key, g);
      var before := Minima(init, pick, group, key);
      if pick(last) && group(last) == g && g in before {
        Text.LessTrichotomy(key(last), before[g]);
        if Text.Less(key(last), before[g]) {
          forall row | row in init && pick(row) && group(row) == g ensures Text.Less(key(last), key(row)) {
            if key(row) != before[g] { Text.LessTransitive(key(last), before[g], key(row)); }
          }
        }
      }
    }
  }

  /** The minima depend on which rows there are, not on their order. */
  lemma MinimaIgnoreOrder<T(!new)>(x: seq<T>, y: seq<T>, pick: T -> bool, pick': T -> bool,
                                   group: T -> string, key: T -> string)
    requires multiset(x) == multiset(y) && forall row :: row in x ==> pick(row) == pick'(row)
    ensures Minima(x, pick, group, key) == Minima(y, pick', group, key)
  {
    var m, m' := Minima(x, pick, group, key), Minima(y, pick', group, key);
    forall row ensures row in x <==> row in y {
      assert row in x <==> row in multiset(x);
      assert row in y <==> row in multiset(y);
    }
    forall g ensures g in m <==> g in m' {
      MinimaAreMinimal(x, pick, group, key, g);
      MinimaAreMinimal(y, pick', group, key, g);
    }
    forall g | g in m ensures m[g] == m'[g] {
      MinimaAreMinimal(x, pick, group, key, g);
      MinimaAreMinimal(y, pick', group, key, g);
      Text.LessTrichotomy(m[g], m'[g]);
    }
  }

  /** Late rows after the others, each part by key. */
  function ByKey<T>(late: T -> bool, key: T -> string): (T, T) -> bool {
    (x, y) => if late(x) != late(y) then late(y) else Text.Less(key(x), key(y))
  }

  lemma ByKeyStrictWeak<T(!new)>(late: T -> bool, key: T -> string)
    ensures Sorting.StrictWeak(ByKey(late, key))
  {
    Text.LessStrictWeak();
    var less := ByKey(late, key);
    forall a, b ensures less(a, b) ==> !less(b, a) {}
    forall a, b, c ensures less(a, c) ==> less(a, b) || less(b, c) {}
  }

  /** The rows in order, each carrying a state on. */
  function Fold<T, S>(step: (T, S) -> S, rows: seq<T>, start: S): S {
    if rows == [] then start else step(rows[|rows| - 1], Fold(step, rows[..|rows| - 1], start))
  }

  lemma FoldLast<T, S>(step: (T, S) -> S, rows: seq<T>, row: T, start: S)
    ensures Fold(step, rows + [row], start) == step(row, Fold(step, rows, start))
  {
    assert (rows + [row])[..|rows|] == rows;
  }

  /** Rows with their positions. */
  function Indexed<T>(rows: seq<T>): seq<(nat, T)> { seq(|rows|, i requires 0 <= i < |rows| => (i, rows[i])) }

  /** A rearrangement of indexed rows visits every position once. */
  lemma Rearranged<T>(rows: seq<T>, order: seq<(nat, T)>)
    requires multiset(order) == multiset(Indexed(rows))
    ensures forall k :: 0 <= k < |order| ==> order[k].0 < |rows| && order[k].1 == rows[order[k].0]
    ensures forall k, l :: 0 <= k < l < |order| ==> order[k].0 != order[l].0
    ensures forall i :: 0 <= i < |rows| ==> (i, rows[i]) in order
  {
    var indexed := Indexed(rows);
    forall k | 0 <= k < |order| ensures order[k].0 < |rows| && order[k].1 == rows[order[k].0] {
      assert order[k] in multiset(order);
      assert order[k] in indexed;
    }
    forall k, l | 0 <= k < l < |order| ensures order[k].0 != order[l].0 {
      var front, back := order[..l], order[l..];
      assert order == front + back && order[k] in front && order[l] in back;
      IndexedOnce(rows, order[k]);
    }
    forall i | 0 <= i < |rows| ensures (i, rows[i]) in order {
      assert indexed[i] in multiset(indexed);
    }
  }

  lemma IndexedOnce<T>(rows: seq<T>, p: (nat, T))
    ensures multiset(Indexed(rows))[p] <= 1
  {
    var indexed := Indexed(rows);
    if p in indexed {
      var i := p.0;
      var front, back := indexed[..i], indexed[i + 1..];
      assert indexed == front + [p] + back;
      assert p !in front && p !in back;
    }
  }

  /** The picked rows of a rearrangement, in its order. */
  function Kept<T>(pick: T -> bool, order: seq<(nat, T)>): seq<T> {
    if order == [] then []
    else Kept(pick, order[..|order| - 1]) + if pick(order[|order| - 1].1) then [order[|order| - 1].1] else []
  }

  lemma FoldKept<T, S>(step: (T, S) -> S, pick: T -> bool, order: seq<(nat, T)>, k: nat, start: S)
    requires k < |order|
    ensures var before, row := Fold(step, Kept(pick, order[..k]), start), order[k].1;
            Fold(step, Kept(pick, order[..k + 1]), start) == if pick(row) then step(row, before) else before
  {
    assert order[..k + 1][..k] == order[..k];
    var kept := Kept(pick, order[..k]);
    assert kept + [] == kept;
    FoldLast(step, kept, order[k].1, start);
  }

  ghost predicate Visits<T>(order: seq<(nat, T)>, row: T) {
    exists k :: 0 <= k < |order| && order[k].1 == row
  }

  lemma {:induction false} KeptSorted<T>(pick: T -> bool, less: (T, T) -> bool, order: seq<(nat, T)>)
    requires forall k, l :: 0 <= k < l < |order| && pick(order[k].1) && pick(order[l].1) ==> less(order[k].1, order[l].1)
    ensures Sorting.StrictlySorted(less, Kept(pick, order))
    ensures forall row :: row in Kept(pick, order) <==> pick(row) && Visits(order, row)
  {
    if order != [] {
      var init, last := order[..|order| - 1], order[|order| - 1].1;
      KeptSorted(pick, less, init);
      var kept := Kept(pick, init);
      if pick(last) {
        forall i | 0 <= i < |kept| ensures less(kept[i], last) {
          var row := kept[i];
          assert row in kept && Visits(init, row);
          var k :| 0 <= k < |init| && init[k].1 == row;
          assert less(order[k].1, order[|order| - 1].1);
        }
      }
      forall row ensures Visits(order, row) <==> Visits(init, row) || row == last {
        if Visits(init, row) {
          var k :| 0 <= k < |init| && init[k].1 == row;
          assert order[k].1 == row;
        }
        assert order[|order| - 1].1 == last;
        if Visits(order, row) && row != last {
          var k :| 0 <= k < |order| && order[k].1 == row;
          assert init[k].1 == row;
        }
      }
    }
  }
}
