/** Identifiers and string order, as Go compares strings: byte order of UTF-8,
    which is code point order. */
module Text {
  import Sorting

  const ID_LENGTH := 26
  const ID_ALPHABET := "ybndrfg8ejkmcpqxot1uwisza345h769"

  /** model.IsValidOpaqueID: 26 characters of the z-base-32 alphabet. */
  predicate IsOpaqueId(value: string) {
    |value| == ID_LENGTH && forall i :: 0 <= i < |value| ==> value[i] in ID_ALPHABET
  }

  predicate Less(a: string, b: string) {
    b != [] && (a == [] || a[0] < b[0] || (a[0] == b[0] && Less(a[1..], b[1..])))
  }

  /** Exactly one of a < b, a == b, b < a. */
  lemma {:induction false} LessTrichotomy(a: string, b: string)
    ensures (if Less(a, b) then 1 else 0) + (if a == b then 1 else 0) + (if Less(b, a) then 1 else 0) == 1
  {
    if a != [] && b != [] && a[0] == b[0] {
      LessTrichotomy(a[1..], b[1..]);
      assert a == [a[0]] + a[1..] && b == [b[0]] + b[1..];
    }
  }

  lemma {:induction false} LessTransitive(a: string, b: string, c: string)
    requires Less(a, b) && Less(b, c)
    ensures Less(a, c)
  {
    if a != [] && a[0] == b[0] == c[0] {
      LessTransitive(a[1..], b[1..], c[1..]);
    }
  }

  ghost predicate StrictlySorted(s: seq<string>) {
    forall i, j :: 0 <= i < j < |s| ==> Less(s[i], s[j])
  }

  lemma LessStrictWeak()
    ensures Sorting.StrictWeak(Less)
  {
    forall a, b ensures Less(a, b) ==> !Less(b, a) { LessTrichotomy(a, b); }
    forall a, b, c ensures Less(a, c) ==> Less(a, b) || Less(b, c) {
      LessTrichotomy(a, b);
      LessTrichotomy(b, c);
      if Less(b, a) && Less(a, c) { LessTransitive(b, a, c); }
    }
  }

  lemma SortedSet(r: seq<string>, keys: set<string>)
    requires Sorting.Sorted(Less, r) && multiset(r) == multiset(keys)
    ensures StrictlySorted(r)
    ensures forall x :: x in r <==> x in keys
  {
    forall x ensures x in r <==> x in keys { assert x in r <==> x in multiset(r); }
    forall i, j | 0 <= i < j < |r| ensures r[i] != r[j] {
      var front, back := r[..j], r[j..];
      assert r == front + back;
      assert r[i] in front && r[j] in back;
      assert multiset(r)[r[i]] <= 1;
    }
    forall i, j | 0 <= i < j < |r| ensures Less(r[i], r[j]) { LessTrichotomy(r[i], r[j]); }
  }

  /** The keys of a Go map copied to a slice and sorted: each key once, in
      increasing order, whatever order the map yields them in. */
  method SortedKeys(keys: set<string>) returns (r: seq<string>)
    ensures StrictlySorted(r)
    ensures forall x :: x in r <==> x in keys
  {
    var rest, list := keys, [];
    while rest != {}
      invariant multiset(list) + multiset(rest) == multiset(keys)
      decreases rest
    {
      var x :| x in rest;
      rest, list := rest - {x}, list + [x];
    }
    LessStrictWeak();
    r := Sorting.Sort(Less, list, (_, _) => true);
    SortedSet(r, keys);
  }

  // ----- trimming and numbers

  /** unicode.IsSpace. */
  predicate IsSpace(c: char) {
    c in {'\t', '\n', '\U{000B}', '\U{000C}', '\r', ' ', '\U{0085}', '\U{00A0}', '\U{1680}', '\U{2028}', '\U{2029}',
          '\U{202F}', '\U{205F}', '\U{3000}'}
    || '\U{2000}' <= c <= '\U{200A}'
  }

  lemma IdChars(c: char)
    requires c in ID_ALPHABET
    ensures '0' <= c <= 'z'
  {
    var i :| 0 <= i < |ID_ALPHABET| && ID_ALPHABET[i] == c;
  }

  lemma Visible(c: char)
    requires '0' <= c <= 'z'
    ensures !IsSpace(c)
  {
  }

  lemma IdCharIsNoSpace(c: char)
    requires c in ID_ALPHABET
    ensures !IsSpace(c)
  {
    IdChars(c);
    Visible(c);
  }

  function TrimLeft(s: string): string {
    if s != [] && IsSpace(s[0]) then TrimLeft(s[1..]) else s
  }

  function TrimRight(s: string): string {
    if s != [] && IsSpace(s[|s| - 1]) then TrimRight(s[..|s| - 1]) else s
  }

  /** strings.TrimSpace. */
  function Trim(s: string): string { TrimRight(TrimLeft(s)) }

  function Digit(d: nat): char
    requires d < 10
  {
    '0' + d as char
  }

  /** strconv.FormatInt in base 10. */
  function Decimal(n: int): (r: string)
    ensures r != []
    decreases if n < 0 then 1 else 0, if n < 0 then -n else n
  {
    if n < 0 then "-" + Decimal(-n)
    else if n < 10 then [Digit(n)]
    else Decimal(n / 10) + [Digit(n % 10)]
  }

  lemma {:induction false} DecimalInjective(a: nat, b: nat)
    requires Decimal(a) == Decimal(b)
    ensures a == b
  {
    var x, y := Decimal(a), Decimal(b);
    assert x[|x| - 1] == Digit(a % 10) && y[|y| - 1] == Digit(b % 10);
    assert a >= 10 ==> x[..|x| - 1] == Decimal(a / 10);
    assert b >= 10 ==> y[..|y| - 1] == Decimal(b / 10);
    if a >= 10 && b >= 10 {
      DecimalInjective(a / 10, b / 10);
    }
  }

  lemma {:induction false} DecimalDigits(n: nat)
    ensures forall c :: c in Decimal(n) ==> '0' <= c <= '9'
  {
    if n >= 10 {
      DecimalDigits(n / 10);
    }
  }

  // ----- joining and splitting

  /** strings.Join with a one-character separator. */
  function Join(parts: seq<string>, sep: char): string {
    if parts == [] then ""
    else if |parts| == 1 then parts[0]
    else parts[0] + [sep] + Join(parts[1..], sep)
  }

  /** strings.Split at a one-character separator: never empty, and no part
      holds the separator. */
  function Split(s: string, sep: char): (parts: seq<string>)
    ensures |parts| > 0
    ensures forall i :: 0 <= i < |parts| ==> sep !in parts[i]
  {
    if s == [] then [[]]
    else if s[0] == sep then [[]] + Split(s[1..], sep)
    else
      var rest := Split(s[1..], sep);
      [[s[0]] + rest[0]] + rest[1..]
  }

  lemma {:induction false} SplitFirst(first: string, rest: string, sep: char)
    requires sep !in first
    ensures Split(first, sep) == [first]
    ensures Split(first + [sep] + rest, sep) == [first] + Split(rest, sep)
  {
    if first == [] {
      assert ([] + [sep] + rest)[1..] == rest;
    } else {
      SplitFirst(first[1..], rest, sep);
      assert first == [first[0]] + first[1..];
      assert (first + [sep] + rest)[1..] == first[1..] + [sep] + rest;
      assert [first[1..]][1..] == [];
    }
  }

  /** What stands before and after the first separator can be read back. */
  lemma CutUnique(first: string, rest: string, first': string, rest': string, sep: char)
    requires sep !in first && sep !in first' && first + [sep] + rest == first' + [sep] + rest'
    ensures first == first' && rest == rest'
  {
    SplitFirst(first, rest, sep);
    SplitFirst(first', rest', sep);
    assert ([first] + Split(rest, sep))[0] == first && ([first'] + Split(rest', sep))[0] == first';
    assert (first + [sep] + rest)[|first| + 1..] == rest && (first' + [sep] + rest')[|first| + 1..] == rest';
  }

  /** Splitting undoes joining. */
  lemma {:induction false} SplitOfJoin(parts: seq<string>, sep: char)
    requires parts != [] && forall p :: p in parts ==> sep !in p
    ensures Split(Join(parts, sep), sep) == parts
  {
    if |parts| == 1 {
      SplitFirst(parts[0], [], sep);
    } else {
      var first, rest := parts[0], parts[1..];
      assert parts == [first] + rest && first in parts && forall p :: p in rest ==> p in parts;
      SplitOfJoin(rest, sep);
      SplitFirst(first, Join(rest, sep), sep);
      assert Join(parts, sep) == first + [sep] + Join(rest, sep);
    }
  }

  /** Joining undoes splitting. */
  lemma {:induction false} JoinOfSplit(s: string, sep: char)
    ensures Join(Split(s, sep), sep) == s
  {
    if s != [] {
      JoinOfSplit(s[1..], sep);
      var rest := Split(s[1..], sep);
      var parts := Split(s, sep);
      if s[0] == sep {
        assert parts[1..] == rest;
      } else {
        assert parts[1..] == rest[1..];
      }
      assert s == [s[0]] + s[1..];
    }
  }

  /** Fields without the separator can be read back from their join. */
  lemma JoinInjective(a: seq<string>, b: seq<string>, sep: char)
    requires a != [] && b != [] && (forall p :: p in a ==> sep !in p) && (forall p :: p in b ==> sep !in p)
    requires Join(a, sep) == Join(b, sep)
    ensures a == b
  {
    SplitOfJoin(a, sep);
    SplitOfJoin(b, sep);
  }
}
