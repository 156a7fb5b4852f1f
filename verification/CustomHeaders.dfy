/** Custom message headers: their validation (packages/mail/message.go) and the
    order they are written in (packages/mail/compose.go). A Go map is a map; its
    iteration order is any order. */
module CustomHeaders {
  import opened Outcomes
  import opened MailHeader
  import opened Sequences
  import Sorting
  import Text

  const MAXIMUM_HEADERS := 50

  function LowerChar(c: char): char { if 'A' <= c <= 'Z' then (c as int + 32) as char else c }

  /** strings.ToLower of ASCII. */
  function Lower(s: string): string { seq(|s|, i requires 0 <= i < |s| => LowerChar(s[i])) }

  /** Capital letters become their small ones, in place; the rest stays. */
  lemma LowerExactly(s: string, i: nat)
    requires i < |s|
    ensures |Lower(s)| == |s|
    ensures if 'A' <= s[i] <= 'Z' then Lower(s)[i] as int - 'a' as int == s[i] as int - 'A' as int else Lower(s)[i] == s[i]
  {
  }

  /** The headers the composer manages, whatever their case. */
  predicate Reserved(name: string) {
    Lower(name) in {
      "bcc", "cc", "content-disposition", "content-id", "content-transfer-encoding", "content-type", "date", "from",
      "in-reply-to", "message-id", "mime-version", "references", "reply-to", "subject", "to"}
  }

  type Headers = map<string, seq<string>>

  predicate ValidEntry(name: string, values: seq<string>) {
    ValidName(name) && !Reserved(name) && values != [] && forall i :: 0 <= i < |values| ==> ValidValue(values[i])
  }

  ghost predicate ValidHeaders(headers: Headers) {
    && |headers| <= MAXIMUM_HEADERS
    && (forall name :: name in headers ==> ValidEntry(name, headers[name]))
    && (forall a, b :: a in headers && b in headers && a != b ==> Lower(a) != Lower(b))
  }

  function Lowered(names: set<string>): set<string> { set name | name in names :: Lower(name) }

  ghost predicate ApartButForCase(names: set<string>) { forall a, b :: a in names && b in names && Lower(a) == Lower(b) ==> a == b }

  lemma {:induction false} LoweredSize(names: set<string>)
    ensures |Lowered(names)| <= |names| && (|Lowered(names)| == |names| <==> ApartButForCase(names))
    decreases names
  {
    if name :| name in names {
      var rest := names - {name};
      LoweredSize(rest);
      assert Lowered(names) == Lowered(rest) + {Lower(name)};
      if Lower(name) in Lowered(rest) {
        var other :| other in rest && Lower(other) == Lower(name);
        assert !ApartButForCase(names);
      } else {
        assert ApartButForCase(names) <==> ApartButForCase(rest) by {
          if ApartButForCase(rest) {
            forall a, b | a in names && b in names && Lower(a) == Lower(b) ensures a == b {
              assert a in rest ==> Lower(a) in Lowered(rest);
              assert b in rest ==> Lower(b) in Lowered(rest);
            }
          }
        }
      }
    }
  }

  /** Headers are valid exactly when there are at most 50, they keep as many names in
      small letters as they have, and each is well formed, has values and is not
      managed by the composer. */
  lemma ValidHeadersExactly(headers: Headers)
    ensures ValidHeaders(headers) <==>
              && |headers| <= 50 && |Lowered(headers.Keys)| == |headers.Keys|
              && forall name :: name in headers ==>
                   && ValidName(name) && !Reserved(name) && |headers[name]| > 0
                   && forall value :: value in headers[name] ==> ValidValue(value)
  {
    LoweredSize(headers.Keys);
    forall name | name in headers
      ensures (forall value :: value in headers[name] ==> ValidValue(value))
              <==> forall i :: 0 <= i < |headers[name]| ==> ValidValue(headers[name][i])
    {
    }
    assert |headers| == |headers.Keys|;
  }

  method ValidateValues(values: seq<string>) returns (ok: bool)
    ensures ok <==> values != [] && forall i :: 0 <= i < |values| ==> ValidValue(values[i])
  {
    if values == [] { return false; }
    for i := 0 to |values|
      invariant forall j :: 0 <= j < i ==> ValidValue(values[j])
    {
      if !ValidValue(values[i]) { return false; }
    }
    return true;
  }

  /** The outcome does not depend on the order the names come in. */
  method ValidateHeaders(headers: Headers) returns (ok: bool)
    ensures ok <==> ValidHeaders(headers)
  {
    if |headers| > MAXIMUM_HEADERS { return false; }
    var rest, seen: set<string> := headers.Keys, {};
    while rest != {}
      invariant rest <= headers.Keys
      invariant forall l :: l in seen <==> exists name :: name in headers.Keys - rest && Lower(name) == l
      invariant forall name :: name in headers.Keys - rest ==> ValidEntry(name, headers[name])
      invariant forall a, b :: a in headers.Keys - rest && b in headers.Keys - rest && a != b ==> Lower(a) != Lower(b)
      decreases rest
    {
      var name :| name in rest;
      if !ValidName(name) { return false; }
      if Lower(name) in seen { return false; }
      if Reserved(name) { return false; }
      var valuesOk := ValidateValues(headers[name]);
      if !valuesOk { return false; }
      seen, rest := seen + {Lower(name)}, rest - {name};
    }
    return true;
  }

  // ----- order

  function ByLower(): (string, string) -> bool { (a, b) => Text.Less(Lower(a), Lower(b)) }

  lemma ByLowerStrictWeak()
    ensures Sorting.StrictWeak(ByLower())
  {
    Text.LessStrictWeak();
  }

  ghost predicate InOrder(headers: Headers, names: seq<string>) {
    Sorting.StrictlySorted(ByLower(), names) && forall name :: name in names <==> name in headers
  }

  /** Valid headers have one order. */
  lemma OneOrder(headers: Headers, a: seq<string>, b: seq<string>)
    requires InOrder(headers, a) && InOrder(headers, b)
    ensures a == b
  {
    ByLowerStrictWeak();
    Sorting.StrictlySortedUnique(ByLower(), a, b);
  }

  lemma SortedIsInOrder(headers: Headers, names: seq<string>)
    requires ValidHeaders(headers) && multiset(names) == multiset(headers.Keys) && Sorting.Sorted(ByLower(), names)
    ensures InOrder(headers, names)
  {
    forall name ensures name in names <==> name in headers { assert name in names <==> name in multiset(names); }
    forall i, j | 0 <= i < j < |names| ensures ByLower()(names[i], names[j]) {
      var front, back := names[..j], names[j..];
      assert names == front + back && names[i] in front && names[j] in back;
      assert multiset(names)[names[i]] <= 1;
      assert names[i] != names[j] && names[i] in headers && names[j] in headers;
      Text.LessTrichotomy(Lower(names[i]), Lower(names[j]));
      assert !ByLower()(names[j], names[i]);
    }
  }

  method SortNames(headers: Headers) returns (names: seq<string>)
    requires ValidHeaders(headers)
    ensures InOrder(headers, names)
    ensures forall i, j :: 0 <= i < j < |names| ==> Text.Less(Lower(names[i]), Lower(names[j]))
  {
    var rest, list := headers.Keys, [];
    while rest != {}
      invariant multiset(list) + multiset(rest) == multiset(headers.Keys)
      decreases rest
    {
      var name :| name in rest;
      rest, list := rest - {name}, list + [name];
    }
    ByLowerStrictWeak();
    names := Sorting.Sort(ByLower(), list, (_, _) => true);
    SortedIsInOrder(headers, names);
  }

  /** One header line per value, name by name. */
  function Values(name: string, values: seq<string>): seq<Header> {
    seq(|values|, i requires 0 <= i < |values| => Header(name, values[i]))
  }

  function Listed(headers: Headers, names: seq<string>): seq<Header>
    requires forall name :: name in names ==> name in headers
  {
    if names == [] then []
    else Listed(headers, names[..|names| - 1]) + Values(names[|names| - 1], headers[names[|names| - 1]])
  }

  lemma BlockLinesMore(a: seq<Header>, b: seq<Header>)
    ensures TextOf(BlockLines(a + b)) == TextOf(BlockLines(a)) + TextOf(BlockLines(b))
  {
    FlatMapMore(LinesOf, a, b);
    TextOfMore(BlockLines(a), BlockLines(b));
  }

  lemma {:induction false} TextOfMore(a: seq<string>, b: seq<string>)
    ensures TextOf(a + b) == TextOf(a) + TextOf(b)
  {
    if a == [] {
      assert a + b == b && TextOf(a) + TextOf(b) == TextOf(b);
    } else {
      TextOfMore(a[1..], b);
      assert (a + b)[1..] == a[1..] + b;
      Associative(a[0] + CRLF, TextOf(a[1..]), TextOf(b));
    }
  }

  lemma TextOfLast(headers: seq<Header>, h: Header)
    ensures TextOf(BlockLines(headers + [h])) == TextOf(BlockLines(headers)) + TextOf(HeaderLines(h.name, h.value))
  {
    BlockLinesMore(headers, [h]);
    assert [h][1..] == [] && BlockLines([h]) == LinesOf(h) + BlockLines([]) == LinesOf(h);
  }

  lemma ListedMore(before: string, headers: Headers, names: seq<string>, i: nat)
    requires i < |names| && forall name :: name in names ==> name in headers
    ensures var written, values := TextOf(BlockLines(Listed(headers, names[..i]))), Values(names[i], headers[names[i]]);
            before + TextOf(BlockLines(Listed(headers, names[..i + 1]))) == before + written + TextOf(BlockLines(values))
  {
    var listed, values := Listed(headers, names[..i]), Values(names[i], headers[names[i]]);
    assert names[..i + 1][..i] == names[..i];
    BlockLinesMore(listed, values);
    Associative(before, TextOf(BlockLines(listed)), TextOf(BlockLines(values)));
  }

  /** What is written depends on the headers alone. */
  method WriteCustom(buffer: Buffer, headers: Headers) returns (ghost names: seq<string>)
    requires ValidHeaders(headers)
    modifies buffer
    ensures InOrder(headers, names) && buffer.output == old(buffer.output) + TextOf(BlockLines(Listed(headers, names)))
  {
    var sorted := SortNames(headers);
    names := sorted;
    ghost var before := buffer.output;
    assert before + TextOf([]) == before;
    for i := 0 to |sorted|
      invariant buffer.output == before + TextOf(BlockLines(Listed(headers, sorted[..i])))
    {
      var name := sorted[i];
      ListedMore(before, headers, sorted, i);
      WriteValues(buffer, name, headers[name]);
    }
    assert sorted[..|sorted|] == sorted;
  }

  method WriteValues(buffer: Buffer, name: string, values: seq<string>)
    modifies buffer
    ensures buffer.output == old(buffer.output) + TextOf(BlockLines(Values(name, values)))
  {
    ghost var before := buffer.output;
    assert before + TextOf([]) == before;
    for i := 0 to |values|
      invariant buffer.output == before + TextOf(BlockLines(Values(name, values[..i])))
    {
      buffer.WriteHeader(name, values[i]);
      var h := Header(name, values[i]);
      assert Values(name, values[..i + 1]) == Values(name, values[..i]) + [h];
      TextOfLast(Values(name, values[..i]), h);
      Associative(before, TextOf(BlockLines(Values(name, values[..i]))), TextOf(HeaderLines(name, values[i])));
    }
    assert values[..|values|] == values;
  }

  lemma {:induction false} ListedPrintable(headers: Headers, names: seq<string>)
    requires ValidHeaders(headers) && forall name :: name in names ==> name in headers
    ensures forall h :: h in Listed(headers, names) ==> Printable(h)
  {
    if names != [] {
      var name := names[|names| - 1];
      ListedPrintable(headers, names[..|names| - 1]);
      forall i | 0 <= i < |headers[name]| ensures Printable(Header(name, headers[name][i])) {
        var value := headers[name][i];
        assert name in headers && ValidEntry(name, headers[name]) && ValidValue(value);
      }
    }
  }

  /** Valid custom headers read back: every name in order, every value's words. */
  lemma CustomRoundTrip(headers: Headers, names: seq<string>)
    requires ValidHeaders(headers) && InOrder(headers, names)
    ensures ReadBlock(TextOf(BlockLines(Listed(headers, names)))) == Some(FieldsOf(Listed(headers, names)))
  {
    ListedPrintable(headers, names);
    RoundTrip(Listed(headers, names));
  }
}
