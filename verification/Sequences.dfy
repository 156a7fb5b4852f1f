/** Sequences put together from parts. */
module Sequences {

  /** The parts of each element, in order. */
  function FlatMap<T, U>(f: T -> seq<U>, s: seq<T>): seq<U> {
    if s == [] then [] else f(s[0]) + FlatMap(f, s[1..])
  }

  lemma Associative<T>(a: seq<T>, b: seq<T>, c: seq<T>)
    ensures a + b + c == a + (b + c)
  {
  }

  lemma {:induction false} FlatMapMore<T, U>(f: T -> seq<U>, a: seq<T>, b: seq<T>)
    ensures FlatMap(f, a + b) == FlatMap(f, a) + FlatMap(f, b)
  {
    if a == [] {
      assert a + b == b;
    } else {
      FlatMapMore(f, a[1..], b);
      assert (a + b)[1..] == a[1..] + b;
      Associative(f(a[0]), FlatMap(f, a[1..]), FlatMap(f, b));
    }
  }
}
