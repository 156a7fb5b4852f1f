/** Sorting by a "less" function, as the Go sort packages take one. */
module Sorting {

  /** A strict weak order: asymmetric, and incomparability is transitive. */
  ghost predicate StrictWeak<T(!new)>(less: (T, T) -> bool) {
    && (forall a, b :: less(a, b) ==> !less(b, a))
    && (forall a, b, c :: less(a, c) ==> less(a, b) || less(b, c))
  }

  /** A strict weak order of these elements. */
  ghost predicate StrictWeakAmong<T>(less: (T, T) -> bool, s: seq<T>) {
    && (forall a, b :: a in s && b in s && less(a, b) ==> !less(b, a))
    && (forall a, b, c :: a in s && b in s && c in s && less(a, c) ==> less(a, b) || less(b, c))
  }

  ghost predicate Sorted<T>(less: (T, T) -> bool, s: seq<T>) {
    forall i, j :: 0 <= i < j < |s| ==> !less(s[j], s[i])
  }

  ghost predicate StrictlySorted<T>(less: (T, T) -> bool, s: seq<T>) {
    forall i, j :: 0 <= i < j < |s| ==> less(s[i], s[j])
  }

  /** One insertion, from the right end. */
  function Insert<T>(less: (T, T) -> bool, s: seq<T>, x: T): (r: seq<T>)
    ensures multiset(r) == multiset(s) + multiset{x}
  {
    if s == [] || !less(x, s[|s| - 1]) then s + [x]
    else
      assert s == s[..|s| - 1] + [s[|s| - 1]];
      Insert(less, s[..|s| - 1], x) + [s[|s| - 1]]
  }

  /** Sorted, and elements that neither comes before the other stand in the order
      they came in. */
  ghost predicate StablySorted<T>(less: (T, T) -> bool, came: (T, T) -> bool, s: seq<T>) {
    forall i, j :: 0 <= i < j < |s| ==> !less(s[j], s[i]) && (less(s[i], s[j]) || came(s[i], s[j]))
  }

  lemma Appended<T>(less: (T, T) -> bool, came: (T, T) -> bool, s: seq<T>, x: T)
    requires StablySorted(less, came, s) && forall y :: y in s ==> !less(x, y) && (less(y, x) || came(y, x))
    ensures StablySorted(less, came, s + [x])
  {
  }

  /** What is not before the last is before none. */
  lemma NotBeforeLast<T>(less: (T, T) -> bool, came: (T, T) -> bool, s: seq<T>, x: T, y: T)
    requires StrictWeakAmong(less, s + [x]) && StablySorted(less, came, s) && s != [] && !less(x, s[|s| - 1]) && y in s
    ensures !less(x, y)
  {
    var last, all := s[|s| - 1], s + [x];
    var i :| 0 <= i < |s| && s[i] == y;
    assert x in all && y in all && last in all;
    assert i < |s| - 1 ==> !less(last, y);
  }

  lemma AboveInit<T>(less: (T, T) -> bool, came: (T, T) -> bool, s: seq<T>, y: T)
    requires StablySorted(less, came, s) && s != [] && y in s[..|s| - 1]
    ensures !less(s[|s| - 1], y) && (less(y, s[|s| - 1]) || came(y, s[|s| - 1]))
  {
    var k :| 0 <= k < |s| - 1 && s[k] == y;
  }

  lemma {:induction false} InsertSorted<T>(less: (T, T) -> bool, came: (T, T) -> bool, s: seq<T>, x: T)
    requires StrictWeakAmong(less, s + [x]) && StablySorted(less, came, s) && forall y :: y in s ==> came(y, x)
    ensures StablySorted(less, came, Insert(less, s, x))
  {
    if s != [] && less(x, s[|s| - 1]) {
      var init, last := s[..|s| - 1], s[|s| - 1];
      assert forall y :: y in init ==> y in s;
      assert x in s + [x] && last in s + [x];
      InsertSorted(less, came, init, x);
      var r := Insert(less, init, x);
      forall y | y in r ensures !less(last, y) && (less(y, last) || came(y, last)) {
        assert y in multiset(r);
        if y != x { AboveInit(less, came, s, y); }
      }
      Appended(less, came, r, last);
    } else {
      forall y | y in s ensures !less(x, y) { NotBeforeLast(less, came, s, x, y); }
      Appended(less, came, s, x);
    }
  }

  lemma WeakAmongFewer<T>(less: (T, T) -> bool, s: seq<T>, part: seq<T>)
    requires StrictWeakAmong(less, s) && forall x :: x in part ==> x in s
    ensures StrictWeakAmong(less, part)
  {
  }

  lemma OneOfFirst<T>(s: seq<T>, i: nat, r: seq<T>, x: T)
    requires i <= |s| && multiset(r) == multiset(s[..i]) && x in r
    ensures exists k :: 0 <= k < i && s[k] == x
  {
    assert x in multiset(s[..i]);
    var k :| 0 <= k < i && s[..i][k] == x;
    assert s[k] == x;
  }

  lemma SortStep<T>(less: (T, T) -> bool, came: (T, T) -> bool, s: seq<T>, i: nat, r: seq<T>)
    requires StrictWeakAmong(less, s) && (forall i, j :: 0 <= i < j < |s| ==> came(s[i], s[j])) && i < |s|
    requires multiset(r) == multiset(s[..i]) && StablySorted(less, came, r)
    ensures multiset(Insert(less, r, s[i])) == multiset(s[..i + 1]) && StablySorted(less, came, Insert(less, r, s[i]))
  {
    forall x | x in r ensures x in s && came(x, s[i]) { OneOfFirst(s, i, r, x); }
    WeakAmongFewer(less, s, r + [s[i]]);
    InsertSorted(less, came, r, s[i]);
    assert s[..i + 1] == s[..i] + [s[i]];
  }

  /** Sorting keeps every element, orders them, and is stable. */
  method Sort<T>(less: (T, T) -> bool, s: seq<T>, ghost came: (T, T) -> bool) returns (r: seq<T>)
    requires StrictWeakAmong(less, s) && forall i, j :: 0 <= i < j < |s| ==> came(s[i], s[j])
    ensures multiset(r) == multiset(s)
    ensures Sorted(less, r) && StablySorted(less, came, r)
  {
    r := [];
    for i := 0 to |s|
      invariant multiset(r) == multiset(s[..i])
      invariant StablySorted(less, came, r)
    {
      SortStep(less, came, s, i, r);
      r := Insert(less, r, s[i]);
    }
    assert s[..|s|] == s;
  }

  lemma SameEmptiness<T>(a: seq<T>, b: seq<T>)
    requires b != [] && forall x :: x in b ==> x in a
    ensures a != []
  {
    assert b[0] in b;
  }

  /** Two strictly sorted sequences of the same elements are the same. */
  lemma {:induction false} StrictlySortedUnique<T(!new)>(less: (T, T) -> bool, a: seq<T>, b: seq<T>)
    requires StrictWeak(less) && StrictlySorted(less, a) && StrictlySorted(less, b)
    requires forall x :: x in a <==> x in b
    ensures a == b
  {
    if a == [] {
      if b != [] { SameEmptiness(a, b); }
    } else {
      assert a[0] in b;
      assert b != [] && b[0] in a;
      assert a[0] == b[0];
      forall x ensures x in a[1..] <==> x in b[1..] {
        if x in a[1..] { assert x in a && x != a[0]; }
        if x in b[1..] { assert x in b && x != b[0]; }
      }
      StrictlySortedUnique(less, a[1..], b[1..]);
      assert a == [a[0]] + a[1..] && b == [b[0]] + b[1..];
    }
  }
}
