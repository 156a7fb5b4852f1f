/** Orders given by a three-way comparison, and their lexicographic lifting. */
module Comparisons {

  /** Three-way results that agree with some total preorder. */
  ghost predicate IsComparison<T(!new)>(cmp: (T, T) -> int) {
    && (forall a, b :: -1 <= cmp(a, b) <= 1 && cmp(a, b) == -cmp(b, a))
    && (forall a, b, c :: cmp(a, b) <= 0 && cmp(b, c) <= 0 ==> cmp(a, c) <= 0)
  }

  /** Equal only to itself. */
  ghost predicate Separates<T(!new)>(cmp: (T, T) -> int) { forall a, b :: cmp(a, b) == 0 <==> a == b }

  /** The first difference decides; a proper prefix comes first. */
  function Lexicographic<T>(cmp: (T, T) -> int, a: seq<T>, b: seq<T>): int {
    if a == [] && b == [] then 0
    else if a == [] then -1
    else if b == [] then 1
    else if cmp(a[0], b[0]) != 0 then cmp(a[0], b[0])
    else Lexicographic(cmp, a[1..], b[1..])
  }

  lemma {:induction false} LexicographicSign<T(!new)>(cmp: (T, T) -> int, a: seq<T>, b: seq<T>)
    requires IsComparison(cmp) && Separates(cmp)
    ensures -1 <= Lexicographic(cmp, a, b) <= 1 && Lexicographic(cmp, a, b) == -Lexicographic(cmp, b, a)
    ensures Lexicographic(cmp, a, b) == 0 <==> a == b
  {
    if a != [] && b != [] && cmp(a[0], b[0]) == 0 {
      LexicographicSign(cmp, a[1..], b[1..]);
      assert a == [a[0]] + a[1..] && b == [b[0]] + b[1..];
    }
  }

  /** Equal before place i, and less there. */
  ghost predicate FirstLess<T>(less: (T, T) -> bool, a: seq<T>, b: seq<T>, i: nat) {
    i < |a| && i < |b| && less(a[i], b[i]) && forall j :: 0 <= j < i ==> a[j] == b[j]
  }

  lemma FirstLessRest<T>(less: (T, T) -> bool, a: seq<T>, b: seq<T>, i: nat)
    requires a != [] && b != [] && a[0] == b[0] && i > 0
    ensures FirstLess(less, a, b, i) <==> FirstLess(less, a[1..], b[1..], i - 1)
  {
    if FirstLess(less, a[1..], b[1..], i - 1) {
      forall j | 0 <= j < i ensures a[j] == b[j] {
        if j > 0 { assert a[j] == a[1..][j - 1] && b[j] == b[1..][j - 1]; }
      }
    }
  }

  lemma PrefixRest<T>(a: seq<T>, b: seq<T>)
    requires a != [] && b != [] && a[0] == b[0]
    ensures a < b <==> a[1..] < b[1..]
  {
    assert a == [a[0]] + a[1..] && b == [b[0]] + b[1..];
  }

  /** The lexicographic comparison is negative exactly at a first lesser element,
      or for a proper prefix. */
  lemma {:induction false} LexicographicExactly<T(!new)>(cmp: (T, T) -> int, less: (T, T) -> bool, a: seq<T>, b: seq<T>)
    requires Separates(cmp) && forall x, y :: x in a && y in b ==> (less(x, y) <==> cmp(x, y) < 0)
    ensures Lexicographic(cmp, a, b) < 0 <==> a < b || exists i: nat :: FirstLess(less, a, b, i)
  {
    if a == [] {
    } else if b == [] {
    } else if a[0] != b[0] {
      assert a[0] in a && b[0] in b;
      assert cmp(a[0], b[0]) != 0;
      if less(a[0], b[0]) { assert FirstLess(less, a, b, 0); }
    } else {
      assert cmp(a[0], b[0]) == 0 && a[0] in a && b[0] in b;
      forall x, y | x in a[1..] && y in b[1..] ensures less(x, y) <==> cmp(x, y) < 0 {
        assert x in a && y in b;
      }
      LexicographicExactly(cmp, less, a[1..], b[1..]);
      PrefixRest(a, b);
      if i: nat :| FirstLess(less, a[1..], b[1..], i) { FirstLessRest(less, a, b, i + 1); }
      if i: nat :| FirstLess(less, a, b, i) {
        if i > 0 { FirstLessRest(less, a, b, i); }
      }
    }
  }

  lemma {:induction false} LexicographicTransitive<T(!new)>(cmp: (T, T) -> int, a: seq<T>, b: seq<T>, c: seq<T>)
    requires IsComparison(cmp) && Separates(cmp)
    requires Lexicographic(cmp, a, b) <= 0 && Lexicographic(cmp, b, c) <= 0
    ensures Lexicographic(cmp, a, c) <= 0
  {
    if a != [] && b != [] && c != [] {
      var x, y, z := a[0], b[0], c[0];
      assert cmp(x, y) <= 0 && cmp(y, z) <= 0;
      assert cmp(x, z) <= 0;
      if cmp(x, z) == 0 {
        assert x == z && cmp(z, y) == -cmp(y, z);
        LexicographicTransitive(cmp, a[1..], b[1..], c[1..]);
      }
    }
  }
}

/** Desktop releases (server/model/desktop_compatibility.go): semantic versions,
    and their precedence. */
module DesktopRelease {
  import opened Outcomes
  import opened Comparisons
  import Text

  const MAXIMUM := 64

  // ----- identifiers

  predicate IsDigit(c: char) { '0' <= c <= '9' }

  /** isSemanticNumericIdentifier. */
  predicate IsNumeric(s: string) { s != "" && Digits(s) }

  predicate LeadingZero(s: string) { |s| > 1 && s[0] == '0' }

  predicate IsLetter(c: char) { IsDigit(c) || 'A' <= c <= 'Z' || 'a' <= c <= 'z' || c == '-' }

  predicate ValidIdentifier(s: string, build: bool) {
    && s != "" && (forall i :: 0 <= i < |s| ==> IsLetter(s[i]))
    && (!build && IsNumeric(s) ==> !LeadingZero(s))
  }

  predicate ValidIdentifiers(s: string, build: bool) {
    s != "" && forall id :: id in Text.Split(s, '.') ==> ValidIdentifier(id, build)
  }

  function CompareText(a: string, b: string): int { if Text.Less(a, b) then -1 else if Text.Less(b, a) then 1 else 0 }

  /** compareSemanticNumericIdentifier: the shorter first, then by text. */
  function CompareNumeric(a: string, b: string): int {
    if |a| < |b| then -1 else if |a| > |b| then 1 else CompareText(a, b)
  }

  function Power(n: nat): nat { if n == 0 then 1 else 10 * Power(n - 1) }

  predicate Digits(s: string) { forall i :: 0 <= i < |s| ==> IsDigit(s[i]) }

  function Digit(c: char): (d: nat)
    requires IsDigit(c)
    ensures d <= 9
  {
    c as int - '0' as int
  }

  /** The number in decimal notation. */
  function Value(s: string): nat
    requires Digits(s)
  {
    if s == [] then 0 else Digit(s[0]) * Power(|s| - 1) + Value(s[1..])
  }

  function Sign(n: int): int { if n < 0 then -1 else if n > 0 then 1 else 0 }

  lemma Times(x: int, y: int, p: int)
    requires x <= y && 0 <= p
    ensures x * p <= y * p
  {
  }

  /** The first digit weighs more than all the others. */
  lemma {:induction false} ValueBound(s: string)
    requires Digits(s)
    ensures Value(s) < Power(|s|)
  {
    if s != [] {
      ValueBound(s[1..]);
      Times(Digit(s[0]), 9, Power(|s| - 1));
    }
  }

  /** Two numbers of the same length differ as their first different digits. */
  lemma FirstDigits(x: nat, y: nat, p: nat, v: nat, w: nat)
    requires x < y && v < p
    ensures x * p + v < y * p + w
  {
    Times(x + 1, y, p);
  }

  lemma {:induction false} SameLength(a: string, b: string)
    requires Digits(a) && Digits(b) && |a| == |b|
    ensures CompareText(a, b) == Sign(Value(a) - Value(b))
  {
    if a != [] {
      var x, y, p := Digit(a[0]), Digit(b[0]), Power(|a| - 1);
      Text.LessTrichotomy(a, b);
      ValueBound(a[1..]);
      ValueBound(b[1..]);
      if x == y {
        SameLength(a[1..], b[1..]);
      } else if x < y {
        FirstDigits(x, y, p, Value(a[1..]), Value(b[1..]));
      } else {
        FirstDigits(y, x, p, Value(b[1..]), Value(a[1..]));
      }
    }
  }

  lemma {:induction false} PowerMonotone(m: nat, n: nat)
    requires m <= n
    ensures 0 < Power(m) <= Power(n)
  {
    if m < n { PowerMonotone(m, n - 1); } else if m > 0 { PowerMonotone(m - 1, n - 1); }
  }

  lemma Shorter(a: string, b: string)
    requires IsNumeric(a) && IsNumeric(b) && !LeadingZero(b) && |a| < |b|
    ensures Value(a) < Value(b)
  {
    ValueBound(a);
    PowerMonotone(|a|, |b| - 1);
    Times(1, Digit(b[0]), Power(|b| - 1));
  }

  /** Numbers without leading zeros are compared by value. */
  lemma NumericByValue(a: string, b: string)
    requires IsNumeric(a) && IsNumeric(b) && !LeadingZero(a) && !LeadingZero(b)
    ensures CompareNumeric(a, b) == Sign(Value(a) - Value(b))
  {
    if |a| < |b| { Shorter(a, b); }
    else if |b| < |a| { Shorter(b, a); }
    else { SameLength(a, b); }
  }

  // ----- parsing

  datatype Release = Release(core: seq<string>, prerelease: seq<string>)

  datatype Pieces = Pieces(before: string, after: Option<string>)

  /** strings.Cut at one character. */
  function Cut(s: string, c: char): Pieces {
    if s == [] then Pieces([], None)
    else if s[0] == c then Pieces([], Some(s[1..]))
    else
      var rest := Cut(s[1..], c);
      rest.(before := [s[0]] + rest.before)
  }

  lemma {:induction false} CutJoins(s: string, c: char)
    ensures var p := Cut(s, c); s == if p.after.None? then p.before else p.before + [c] + p.after.value
  {
    if s != [] && s[0] != c {
      CutJoins(s[1..], c);
      assert s == [s[0]] + s[1..];
    } else if s != [] {
      assert s == [] + [c] + s[1..];
    }
  }

  predicate ValidCore(ids: seq<string>) {
    |ids| == 3 && forall i :: 0 <= i < 3 ==> IsNumeric(ids[i]) && !LeadingZero(ids[i])
  }

  /** parseDesktopRelease. */
  function Parse(value: string): Option<Release> {
    if value == "" || |value| > MAXIMUM || value[0] == 'v' then None
    else
      var whole := Cut(value, '+');
      if whole.after.Some? && (!ValidIdentifiers(whole.after.value, true) || '+' in whole.after.value) then None
      else
        var parts := Cut(whole.before, '-');
        if parts.after.Some? && !ValidIdentifiers(parts.after.value, false) then None
        else
          var ids := Text.Split(parts.before, '.');
          if !ValidCore(ids) then None
          else Some(Release(ids, if parts.after.Some? then Text.Split(parts.after.value, '.') else []))
  }

  // ----- the grammar

  /** A version: three numbers, prerelease identifiers and build identifiers. */
  datatype Version = Version(core: seq<string>, prerelease: seq<string>, build: seq<string>)

  /** The decimal notation of a number. */
  ghost predicate Number(id: string) { exists n: nat :: id == Text.Decimal(n) }

  /** Letters, digits and hyphens. */
  predicate Word(id: string) {
    id != "" && forall c :: c in id ==> '0' <= c <= '9' || 'a' <= c <= 'z' || 'A' <= c <= 'Z' || c == '-'
  }

  /** A word that is not digits alone, or a number. */
  ghost predicate Prerelease(id: string) { Word(id) && ((exists c :: c in id && !('0' <= c <= '9')) || Number(id)) }

  ghost predicate IsVersion(v: Version) {
    && |v.core| == 3 && (forall id :: id in v.core ==> Number(id))
    && (forall id :: id in v.prerelease ==> Prerelease(id)) && (forall id :: id in v.build ==> Word(id))
  }

  function Suffix(mark: char, ids: seq<string>): string { if ids == [] then "" else [mark] + Text.Join(ids, '.') }

  function Print(v: Version): string { Text.Join(v.core, '.') + Suffix('-', v.prerelease) + Suffix('+', v.build) }

  lemma TimesTen(d: int, p: int)
    ensures d * (10 * p) == 10 * (d * p)
  {
  }

  lemma {:induction false} ValueLast(s: string)
    requires Digits(s) && s != []
    ensures Value(s) == 10 * Value(s[..|s| - 1]) + Digit(s[|s| - 1])
  {
    if |s| > 1 {
      var rest, init, d, p := s[1..], s[..|s| - 1], Digit(s[0]), Power(|s| - 2);
      ValueLast(rest);
      assert rest[..|rest| - 1] == init[1..];
      assert Value(s) == d * (10 * p) + Value(rest) && Value(init) == d * p + Value(init[1..]);
      TimesTen(d, p);
    } else {
      assert s[1..] == [] && s[..0] == [];
    }
  }

  lemma {:induction false} DecimalOfValue(s: string)
    requires IsNumeric(s) && !LeadingZero(s)
    ensures Text.Decimal(Value(s)) == s
  {
    ValueLast(s);
    var init, last := s[..|s| - 1], s[|s| - 1];
    assert s == init + [last] && Text.Digit(Digit(last)) == last;
    if init != [] {
      DecimalOfValue(init);
      ValuePositive(init);
    }
  }

  lemma ValuePositive(s: string)
    requires Digits(s) && s != [] && s[0] != '0'
    ensures Value(s) > 0
  {
    PowerMonotone(0, |s| - 1);
    Times(1, Digit(s[0]), Power(|s| - 1));
  }

  lemma {:induction false} DecimalStart(n: nat)
    ensures IsNumeric(Text.Decimal(n)) && (n > 0 ==> Text.Decimal(n)[0] != '0') && !LeadingZero(Text.Decimal(n))
  {
    if n >= 10 { DecimalStart(n / 10); }
  }

  lemma NumberExactly(id: string)
    ensures Number(id) <==> IsNumeric(id) && !LeadingZero(id)
  {
    if IsNumeric(id) && !LeadingZero(id) {
      DecimalOfValue(id);
    } else if Number(id) {
      var n: nat :| id == Text.Decimal(n);
      DecimalStart(n);
      assert false;
    }
  }

  lemma IdentifierExactly(id: string)
    ensures ValidIdentifier(id, true) <==> Word(id)
    ensures ValidIdentifier(id, false) <==> Prerelease(id)
  {
    NumberExactly(id);
    if Word(id) { forall i | 0 <= i < |id| ensures IsLetter(id[i]) { assert id[i] in id; } }
    if Digits(id) { forall c | c in id ensures '0' <= c <= '9' { } }
    if id != "" && !Digits(id) {
      var i :| 0 <= i < |id| && !IsDigit(id[i]);
      assert id[i] in id;
    }
  }

  lemma {:induction false} JoinChars(parts: seq<string>, sep: char, c: char)
    requires c in Text.Join(parts, sep)
    ensures c == sep || exists p :: p in parts && c in p
  {
    if |parts| > 1 {
      if c in Text.Join(parts[1..], sep) { JoinChars(parts[1..], sep, c); }
    }
  }

  lemma {:induction false} CutFirst(first: string, rest: string, c: char)
    requires c !in first
    ensures Cut(first, c) == Pieces(first, None) && Cut(first + [c] + rest, c) == Pieces(first, Some(rest))
  {
    if first == [] {
      assert [] + [c] + rest == [c] + rest && ([c] + rest)[1..] == rest;
    } else {
      var whole := first + [c] + rest;
      CutFirst(first[1..], rest, c);
      assert whole[1..] == first[1..] + [c] + rest && whole[0] == first[0];
      assert first == [first[0]] + first[1..];
    }
  }

  /** No identifier holds a dot, a plus or, if a number, a hyphen. */
  lemma IdentifierChars(id: string)
    ensures Word(id) ==> '.' !in id && '+' !in id
    ensures Number(id) ==> Word(id) && '-' !in id
  {
    NumberExactly(id);
  }

  lemma JoinedChars(ids: seq<string>)
    requires forall id :: id in ids ==> Word(id)
    ensures '+' !in Text.Join(ids, '.') && (forall id :: id in ids ==> '.' !in id)
    ensures (forall id :: id in ids ==> Number(id)) ==> '-' !in Text.Join(ids, '.')
  {
    forall id | id in ids ensures '.' !in id && '+' !in id && (Number(id) ==> '-' !in id) { IdentifierChars(id); }
    if '+' in Text.Join(ids, '.') { JoinChars(ids, '.', '+'); }
    if '-' in Text.Join(ids, '.') { JoinChars(ids, '.', '-'); }
  }

  lemma JoinedIdentifiers(ids: seq<string>, build: bool)
    requires ids != [] && forall id :: id in ids ==> ValidIdentifier(id, build)
    ensures Text.Split(Text.Join(ids, '.'), '.') == ids && ValidIdentifiers(Text.Join(ids, '.'), build)
  {
    forall id | id in ids ensures '.' !in id {
      IdentifierExactly(id);
      IdentifierChars(id);
    }
    Text.SplitOfJoin(ids, '.');
    assert Text.Split("", '.') == [""] && !ValidIdentifier("", build);
  }

  lemma JoinStart(ids: seq<string>)
    requires ids != [] && Number(ids[0])
    ensures Text.Join(ids, '.') != "" && '0' <= Text.Join(ids, '.')[0] <= '9'
  {
    NumberExactly(ids[0]);
  }

  /** Cutting a printed version at its marks. */
  lemma CutPrinted(v: Version)
    requires IsVersion(v)
    ensures var core, rest := Text.Join(v.core, '.'), Suffix('-', v.prerelease);
            && Cut(Print(v), '+') == Pieces(core + rest, if v.build == [] then None else Some(Text.Join(v.build, '.')))
            && Cut(core + rest, '-') == Pieces(core, if v.prerelease == [] then None else Some(Text.Join(v.prerelease, '.')))
            && '+' !in Text.Join(v.build, '.')
  {
    var core, rest := Text.Join(v.core, '.'), Suffix('-', v.prerelease);
    forall id | id in v.core ensures Word(id) { IdentifierChars(id); }
    JoinedChars(v.core);
    JoinedChars(v.prerelease);
    JoinedChars(v.build);
    assert '+' !in core + rest;
    CutFirst(core + rest, Text.Join(v.build, '.'), '+');
    CutFirst(core, Text.Join(v.prerelease, '.'), '-');
    assert v.build == [] ==> Print(v) == core + rest;
    assert v.build != [] ==> Print(v) == core + rest + ['+'] + Text.Join(v.build, '.');
    assert v.prerelease == [] ==> core + rest == core;
    assert v.prerelease != [] ==> core + rest == core + ['-'] + Text.Join(v.prerelease, '.');
  }

  lemma CoreParses(core: seq<string>)
    requires |core| == 3 && forall id :: id in core ==> Number(id)
    ensures Text.Split(Text.Join(core, '.'), '.') == core && ValidCore(core)
  {
    forall id | id in core ensures '.' !in id && IsNumeric(id) && !LeadingZero(id) {
      NumberExactly(id);
      IdentifierChars(id);
    }
    Text.SplitOfJoin(core, '.');
  }

  /** What is printed is parsed. */
  lemma ParsePrinted(v: Version)
    requires IsVersion(v) && |Print(v)| <= MAXIMUM
    ensures Parse(Print(v)) == Some(Release(v.core, v.prerelease))
  {
    CutPrinted(v);
    CoreParses(v.core);
    assert v.core[0] in v.core;
    JoinStart(v.core);
    assert Print(v)[0] == Text.Join(v.core, '.')[0];
    if v.prerelease != [] {
      forall id | id in v.prerelease ensures ValidIdentifier(id, false) { IdentifierExactly(id); }
      JoinedIdentifiers(v.prerelease, false);
    }
    if v.build != [] {
      forall id | id in v.build ensures ValidIdentifier(id, true) { IdentifierExactly(id); }
      JoinedIdentifiers(v.build, true);
    }
  }

  function IdsOf(part: Option<string>): seq<string> { if part.None? then [] else Text.Split(part.value, '.') }

  lemma SuffixOfIds(mark: char, part: Option<string>)
    ensures Suffix(mark, IdsOf(part)) == if part.None? then "" else [mark] + part.value
  {
    if part.Some? { Text.JoinOfSplit(part.value, '.'); }
  }

  /** The pieces a text is cut into. */
  function VersionOf(value: string): Version {
    var whole := Cut(value, '+');
    var parts := Cut(whole.before, '-');
    Version(Text.Split(parts.before, '.'), IdsOf(parts.after), IdsOf(whole.after))
  }

  lemma CutPrints(s: string, c: char)
    ensures s == Cut(s, c).before + Suffix(c, IdsOf(Cut(s, c).after))
  {
    CutJoins(s, c);
    SuffixOfIds(c, Cut(s, c).after);
    var p := Cut(s, c);
    if p.after.None? {
      assert p.before + "" == p.before;
    } else {
      assert p.before + [c] + p.after.value == p.before + ([c] + p.after.value);
    }
  }

  lemma PrintsBack(value: string)
    ensures Print(VersionOf(value)) == value
  {
    CutPrints(value, '+');
    CutPrints(Cut(value, '+').before, '-');
    Text.JoinOfSplit(Cut(Cut(value, '+').before, '-').before, '.');
  }

  /** What is parsed is a version printed. */
  lemma PrintParsed(value: string)
    requires Parse(value).Some?
    ensures var v := VersionOf(value);
            IsVersion(v) && Print(v) == value && |value| <= MAXIMUM && Parse(value) == Some(Release(v.core, v.prerelease))
  {
    var v := VersionOf(value);
    PrintsBack(value);
    forall id | id in v.core ensures Number(id) { NumberExactly(id); }
    forall id | id in v.prerelease ensures Prerelease(id) { IdentifierExactly(id); }
    forall id | id in v.build ensures Word(id) { IdentifierExactly(id); }
  }

  /** A release is valid exactly when it is a semantic version of at most 64
      characters. */
  lemma ParseExactly(value: string)
    ensures Parse(value).Some? <==> |value| <= 64 && exists v :: IsVersion(v) && Print(v) == value
  {
    if Parse(value).Some? {
      PrintParsed(value);
    } else if v :| IsVersion(v) && Print(v) == value {
      if |value| <= 64 { ParsePrinted(v); }
    }
  }

  // ----- precedence

  /** Numbers before words, numbers by value, words by text. */
  function CompareIdentifier(a: string, b: string): int {
    if IsNumeric(a) && IsNumeric(b) then CompareNumeric(a, b)
    else if IsNumeric(a) then -1
    else if IsNumeric(b) then 1
    else CompareText(a, b)
  }

  /** By core, then a release without prerelease comes last, then by
      prerelease. */
  function CompareRelease(a: Release, b: Release): int {
    var core := Lexicographic(CompareNumeric, a.core, b.core);
    if core != 0 then core
    else if a.prerelease == [] && b.prerelease == [] then 0
    else if a.prerelease == [] then 1
    else if b.prerelease == [] then -1
    else Lexicographic(CompareIdentifier, a.prerelease, b.prerelease)
  }

  /** CompareDesktopReleases; None is its error. */
  function Compare(a: string, b: string): Option<int> {
    match (Parse(a), Parse(b))
    case (Some(x), Some(y)) => Some(CompareRelease(x, y))
    case _ => None
  }

  lemma TextIsComparison()
    ensures IsComparison(CompareText) && Separates(CompareText)
  {
    forall a, b
      ensures -1 <= CompareText(a, b) <= 1 && CompareText(a, b) == -CompareText(b, a) && (CompareText(a, b) == 0 <==> a == b)
    {
      Text.LessTrichotomy(a, b);
    }
    forall a, b, c | CompareText(a, b) <= 0 && CompareText(b, c) <= 0 ensures CompareText(a, c) <= 0 {
      Text.LessTrichotomy(a, b);
      Text.LessTrichotomy(b, c);
      Text.LessTrichotomy(a, c);
      if Text.Less(a, b) && Text.Less(b, c) { Text.LessTransitive(a, b, c); }
    }
  }

  lemma NumericIsComparison()
    ensures IsComparison(CompareNumeric) && Separates(CompareNumeric)
  {
    TextIsComparison();
  }

  lemma IdentifierIsComparison()
    ensures IsComparison(CompareIdentifier) && Separates(CompareIdentifier)
  {
    TextIsComparison();
    NumericIsComparison();
  }

  /** Precedence is a total preorder, and only a release's own core and
      prerelease are equal to it. */
  lemma ReleaseSign(a: Release, b: Release)
    ensures -1 <= CompareRelease(a, b) <= 1 && CompareRelease(a, b) == -CompareRelease(b, a)
    ensures CompareRelease(a, b) == 0 <==> a == b
  {
    NumericIsComparison();
    IdentifierIsComparison();
    LexicographicSign(CompareNumeric, a.core, b.core);
    LexicographicSign(CompareIdentifier, a.prerelease, b.prerelease);
  }

  lemma ReleaseTransitive(a: Release, b: Release, c: Release)
    requires CompareRelease(a, b) <= 0 && CompareRelease(b, c) <= 0
    ensures CompareRelease(a, c) <= 0
  {
    NumericIsComparison();
    IdentifierIsComparison();
    LexicographicSign(CompareNumeric, a.core, b.core);
    LexicographicSign(CompareNumeric, b.core, c.core);
    LexicographicSign(CompareNumeric, a.core, c.core);
    LexicographicTransitive(CompareNumeric, a.core, b.core, c.core);
    if a.core == c.core {
      LexicographicSign(CompareNumeric, c.core, b.core);
      if a.prerelease != [] && b.prerelease != [] && c.prerelease != [] {
        LexicographicTransitive(CompareIdentifier, a.prerelease, b.prerelease, c.prerelease);
      }
    }
  }

  lemma OrderIsComparison()
    ensures IsComparison(CompareRelease) && Separates(CompareRelease)
  {
    forall a, b
      ensures -1 <= CompareRelease(a, b) <= 1 && CompareRelease(a, b) == -CompareRelease(b, a)
              && (CompareRelease(a, b) == 0 <==> a == b)
    {
      ReleaseSign(a, b);
    }
    forall a, b, c | CompareRelease(a, b) <= 0 && CompareRelease(b, c) <= 0 ensures CompareRelease(a, c) <= 0 {
      ReleaseTransitive(a, b, c);
    }
  }

  /** Valid releases are equal in precedence exactly when they are the same text
      up to the build metadata. */
  lemma EqualExactly(a: string, b: string)
    requires Parse(a).Some? && Parse(b).Some?
    ensures Compare(a, b) == Some(0) <==> Cut(a, '+').before == Cut(b, '+').before
  {
    var x, y := Parse(a).value, Parse(b).value;
    ReleaseSign(x, y);
    var p, q := Cut(Cut(a, '+').before, '-'), Cut(Cut(b, '+').before, '-');
    if x == y {
      Text.JoinOfSplit(p.before, '.');
      Text.JoinOfSplit(q.before, '.');
      assert p.before == q.before;
      if p.after.Some? && q.after.Some? {
        Text.JoinOfSplit(p.after.value, '.');
        Text.JoinOfSplit(q.after.value, '.');
      }
      CutJoins(Cut(a, '+').before, '-');
      CutJoins(Cut(b, '+').before, '-');
    }
  }

  // ----- what precedence means

  predicate NumberLess(a: string, b: string) { Digits(a) && Digits(b) && Value(a) < Value(b) }

  /** Numbers by value, a number before a word, words by text. */
  predicate IdentifierLess(a: string, b: string) {
    if IsNumeric(a) && IsNumeric(b) then Value(a) < Value(b)
    else if IsNumeric(a) || IsNumeric(b) then IsNumeric(a)
    else Text.Less(a, b)
  }

  /** Semantic precedence: the first differing core number decides by value; with
      the same core a prerelease comes before the release itself; and between
      prereleases the first differing identifier decides, or the shorter one. */
  ghost predicate Precedes(a: Release, b: Release) {
    || (exists i: nat :: FirstLess(NumberLess, a.core, b.core, i))
    || (a.core == b.core && a.prerelease != [] && b.prerelease == [])
    || (&& a.core == b.core && a.prerelease != [] && b.prerelease != []
        && (a.prerelease < b.prerelease || exists i: nat :: FirstLess(IdentifierLess, a.prerelease, b.prerelease, i)))
  }

  predicate Canonical(id: string) { IsNumeric(id) ==> !LeadingZero(id) }

  /** A parsed release has three numbers, and no number with leading zeros. */
  predicate WellFormed(r: Release) {
    && ValidCore(r.core) && forall i :: 0 <= i < |r.prerelease| ==> Canonical(r.prerelease[i])
  }

  lemma ParsedWellFormed(value: string)
    requires Parse(value).Some?
    ensures WellFormed(Parse(value).value)
  {
    var r, parts := Parse(value).value, Cut(Cut(value, '+').before, '-');
    if parts.after.Some? {
      forall i | 0 <= i < |r.prerelease| ensures Canonical(r.prerelease[i]) {
        assert r.prerelease[i] in Text.Split(parts.after.value, '.');
      }
    }
  }

  lemma CoreExactly(a: seq<string>, b: seq<string>)
    requires ValidCore(a) && ValidCore(b)
    ensures Lexicographic(CompareNumeric, a, b) < 0 <==> exists i: nat :: FirstLess(NumberLess, a, b, i)
  {
    NumericIsComparison();
    forall x, y | x in a && y in b ensures NumberLess(x, y) <==> CompareNumeric(x, y) < 0 { NumericByValue(x, y); }
    LexicographicExactly(CompareNumeric, NumberLess, a, b);
    assert !(a < b);
  }

  lemma PrereleaseExactly(a: seq<string>, b: seq<string>)
    requires (forall i :: 0 <= i < |a| ==> Canonical(a[i])) && forall i :: 0 <= i < |b| ==> Canonical(b[i])
    ensures Lexicographic(CompareIdentifier, a, b) < 0 <==> a < b || exists i: nat :: FirstLess(IdentifierLess, a, b, i)
  {
    IdentifierIsComparison();
    forall x, y | x in a && y in b ensures IdentifierLess(x, y) <==> CompareIdentifier(x, y) < 0 {
      assert Canonical(x) && Canonical(y);
      if IsNumeric(x) && IsNumeric(y) { NumericByValue(x, y); }
    }
    LexicographicExactly(CompareIdentifier, IdentifierLess, a, b);
  }

  lemma PrecedesExactly(a: Release, b: Release)
    requires WellFormed(a) && WellFormed(b)
    ensures CompareRelease(a, b) < 0 <==> Precedes(a, b)
  {
    NumericIsComparison();
    LexicographicSign(CompareNumeric, a.core, b.core);
    CoreExactly(a.core, b.core);
    PrereleaseExactly(a.prerelease, b.prerelease);
    if a.core == b.core {
      forall i: nat ensures !FirstLess(NumberLess, a.core, b.core, i) { }
    }
  }

  /** The comparison of valid releases is precedence, either way; an error exactly
      for an invalid one. */
  lemma CompareExactly(a: string, b: string)
    ensures Compare(a, b).None? <==> Parse(a).None? || Parse(b).None?
    ensures Compare(a, b).Some? ==>
              var x, y := Parse(a).value, Parse(b).value;
              Compare(a, b).value == if Precedes(x, y) then -1 else if Precedes(y, x) then 1 else 0
  {
    if Compare(a, b).Some? {
      var x, y := Parse(a).value, Parse(b).value;
      ParsedWellFormed(a);
      ParsedWellFormed(b);
      PrecedesExactly(x, y);
      PrecedesExactly(y, x);
      ReleaseSign(x, y);
    }
  }

  // ----- the comparison's loops

  method CompareCore(a: seq<string>, b: seq<string>) returns (r: int)
    requires |a| == |b|
    ensures r == Lexicographic(CompareNumeric, a, b)
  {
    for i := 0 to |a|
      invariant Lexicographic(CompareNumeric, a[i..], b[i..]) == Lexicographic(CompareNumeric, a, b)
    {
      var comparison := CompareNumeric(a[i], b[i]);
      assert a[i..][1..] == a[i + 1..] && b[i..][1..] == b[i + 1..];
      if comparison != 0 { return comparison; }
    }
    return 0;
  }

  method ComparePrerelease(a: seq<string>, b: seq<string>) returns (r: int)
    ensures r == Lexicographic(CompareIdentifier, a, b)
  {
    var limit := if |a| < |b| then |a| else |b|;
    for i := 0 to limit
      invariant Lexicographic(CompareIdentifier, a[i..], b[i..]) == Lexicographic(CompareIdentifier, a, b)
    {
      assert a[i..][1..] == a[i + 1..] && b[i..][1..] == b[i + 1..];
      Text.LessTrichotomy(a[i], b[i]);
      var leftNumeric, rightNumeric := IsNumeric(a[i]), IsNumeric(b[i]);
      if leftNumeric && rightNumeric {
        var comparison := CompareNumeric(a[i], b[i]);
        if comparison != 0 { return comparison; }
      } else if leftNumeric {
        return -1;
      } else if rightNumeric {
        return 1;
      } else if Text.Less(a[i], b[i]) {
        return -1;
      } else if Text.Less(b[i], a[i]) {
        return 1;
      }
    }
    return if |a| < |b| then -1 else if |a| > |b| then 1 else 0;
  }

  method CompareReleases(a: string, b: string) returns (r: Option<int>)
    ensures r == Compare(a, b)
  {
    var left, right := Parse(a), Parse(b);
    if left.None? || right.None? { return None; }
    var core := CompareCore(left.value.core, right.value.core);
    if core != 0 { return Some(core); }
    if left.value.prerelease == [] && right.value.prerelease == [] { return Some(0); }
    if left.value.prerelease == [] { return Some(1); }
    if right.value.prerelease == [] { return Some(-1); }
    var rest := ComparePrerelease(left.value.prerelease, right.value.prerelease);
    return Some(rest);
  }
}
