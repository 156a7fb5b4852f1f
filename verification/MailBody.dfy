/** Newlines of text bodies (packages/mail/compose.go). */
module Newlines {

  /** strings.ReplaceAll of a text that is not empty. */
  function Replace(s: string, from: string, to: string): string
    requires from != []
  {
    if s == [] then []
    else if from <= s then to + Replace(s[|from|..], from, to)
    else [s[0]] + Replace(s[1..], from, to)
  }

  /** normalizeNewlines: three passes over the whole text. */
  function Normalize(s: string): string {
    Replace(Replace(Replace(s, "\r\n", "\n"), "\r", "\n"), "\n", "\r\n")
  }

  /** One pass: each CRLF, lone CR and lone LF becomes a CRLF. */
  function Scan(s: string): string {
    if s == [] then []
    else if "\r\n" <= s then "\r\n" + Scan(s[2..])
    else if s[0] == '\r' || s[0] == '\n' then "\r\n" + Scan(s[1..])
    else [s[0]] + Scan(s[1..])
  }

  lemma ReplaceFirst(c: char, s: string, from: char, to: string)
    ensures Replace([c] + s, [from], to) == (if c == from then to else [c]) + Replace(s, [from], to)
  {
    var whole := [c] + s;
    assert whole[1..] == s && whole[0] == c && whole[..1] == [c];
    assert [from] <= whole <==> c == from by {
      if [from] <= whole { assert [from][0] == whole[0]; }
      if c == from { assert [from] == whole[..1]; }
    }
  }

  lemma {:induction false} ThreePassesAreOne(s: string)
    ensures Normalize(s) == Scan(s)
  {
    if s != [] {
      var broken := "\r\n" <= s;
      var c, rest := if broken then '\n' else s[0], if broken then s[2..] else s[1..];
      ThreePassesAreOne(rest);
      var one := Replace(rest, "\r\n", "\n");
      var two := Replace(one, "\r", "\n");
      assert Replace(s, "\r\n", "\n") == [c] + one;
      ReplaceFirst(c, one, '\r', "\n");
      var d := if c == '\r' then '\n' else c;
      assert Replace([c] + one, "\r", "\n") == [d] + two;
      ReplaceFirst(d, two, '\n', "\r\n");
    }
  }

  predicate PairedAt(s: string, i: nat)
    requires i < |s|
  {
    && (s[i] == '\r' ==> i + 1 < |s| && s[i + 1] == '\n')
    && (s[i] == '\n' ==> i > 0 && s[i - 1] == '\r')
  }

  /** Every CR is followed by an LF and every LF preceded by a CR. */
  predicate NothingBare(s: string) { forall i :: 0 <= i < |s| ==> PairedAt(s, i) }

  /** A text begins with a CRLF or with any other character. */
  lemma PairedBehind(head: string, tail: string)
    requires head == "\r\n" || (|head| == 1 && head[0] != '\r' && head[0] != '\n')
    ensures NothingBare(head + tail) <==> NothingBare(tail)
  {
    var s, n := head + tail, |head|;
    assert forall i :: 0 <= i < n ==> PairedAt(s, i);
    forall i | 0 <= i < |tail| ensures PairedAt(s, n + i) <==> PairedAt(tail, i) {
      assert s[n + i] == tail[i] && (i + 1 < |tail| ==> s[n + i + 1] == tail[i + 1]);
      assert s[n + i - 1] == if i > 0 then tail[i - 1] else head[n - 1];
    }
    if NothingBare(s) {
      forall i | 0 <= i < |tail| ensures PairedAt(tail, i) { assert PairedAt(s, n + i); }
    }
    if NothingBare(tail) {
      forall i | 0 <= i < |s| ensures PairedAt(s, i) { if i >= n { assert PairedAt(tail, i - n); } }
    }
  }

  lemma {:induction false} ScanLeavesNothingBare(s: string)
    ensures NothingBare(Scan(s))
  {
    if s != [] {
      var rest := if "\r\n" <= s then s[2..] else s[1..];
      ScanLeavesNothingBare(rest);
      var head := if "\r\n" <= s || s[0] == '\r' || s[0] == '\n' then "\r\n" else [s[0]];
      PairedBehind(head, Scan(rest));
    }
  }

  /** A text without bare line breaks begins with a CRLF or another character. */
  lemma BeginsPaired(s: string)
    requires s != [] && NothingBare(s)
    ensures s[0] != '\n' && (s[0] == '\r' ==> "\r\n" <= s)
  {
    assert PairedAt(s, 0);
    if s[0] == '\r' { assert s[..2] == "\r\n"; }
  }

  /** Exactly the texts without a bare CR or LF are left as they are. */
  lemma {:induction false} FixedExactly(s: string)
    ensures Scan(s) == s <==> NothingBare(s)
  {
    ScanLeavesNothingBare(s);
    if s != [] && NothingBare(s) {
      BeginsPaired(s);
      var n := if "\r\n" <= s then 2 else 1;
      var head, rest := s[..n], s[n..];
      assert s == head + rest && head == if "\r\n" <= s then "\r\n" else [s[0]];
      PairedBehind(head, rest);
      FixedExactly(rest);
    }
  }

  lemma Idempotent(s: string)
    ensures Normalize(Normalize(s)) == Normalize(s) && NothingBare(Normalize(s))
  {
    ThreePassesAreOne(s);
    ThreePassesAreOne(Normalize(s));
    ScanLeavesNothingBare(s);
    FixedExactly(Scan(s));
  }
}

/** Base64 bodies of attachments (packages/mail/compose.go), read back as section
    6.8 of RFC 2045 says. */
module Base64 {
  import opened Outcomes
  import MailHeader
  import Sequences

  type Byte = b: int | 0 <= b < 256

  const LINE := 76

  function Char(n: int): char
    requires 0 <= n < 64
  {
    if n < 26 then 'A' + n as char
    else if n < 52 then 'a' + (n - 26) as char
    else if n < 62 then '0' + (n - 52) as char
    else if n == 62 then '+' else '/'
  }

  function Value(c: char): Option<int> {
    if 'A' <= c <= 'Z' then Some(c as int - 'A' as int)
    else if 'a' <= c <= 'z' then Some(c as int - 'a' as int + 26)
    else if '0' <= c <= '9' then Some(c as int - '0' as int + 52)
    else if c == '+' then Some(62)
    else if c == '/' then Some(63)
    else None
  }

  lemma ValueOfChar(n: int)
    requires 0 <= n < 64
    ensures Value(Char(n)) == Some(n) && Char(n) != '=' && Char(n) != '\r' && Char(n) != '\n'
  {
  }

  /** base64.StdEncoding. */
  function Encode(data: seq<Byte>): string {
    if |data| == 0 then ""
    else
      var a := data[0] as int;
      if |data| == 1 then [Char(a / 4), Char(a % 4 * 16), '=', '=']
      else
        var b := data[1] as int;
        if |data| == 2 then [Char(a / 4), Char(a % 4 * 16 + b / 16), Char(b % 16 * 4), '=']
        else
          var c := data[2] as int;
          [Char(a / 4), Char(a % 4 * 16 + b / 16), Char(b % 16 * 4 + c / 64), Char(c % 64)] + Encode(data[3..])
  }

  /** The bytes of one group of four characters. */
  function Group(p: int, q: int, r: int, s: int): (g: seq<Byte>)
    requires 0 <= p < 64 && 0 <= q < 64 && 0 <= r < 64 && 0 <= s < 64
    ensures |g| == 3
  {
    [p * 4 + q / 16, q % 16 * 16 + r / 4, r % 4 * 64 + s]
  }

  function Decode(text: string): Option<seq<Byte>> {
    if text == "" then Some([])
    else if |text| < 4 then None
    else
      match (Value(text[0]), Value(text[1]), Value(text[2]), Value(text[3]))
      case (Some(p), Some(q), Some(r), Some(s)) =>
        (match Decode(text[4..])
         case None => None
         case Some(rest) => Some(Group(p, q, r, s) + rest))
      case (Some(p), Some(q), Some(r), None) =>
        if text[3] == '=' && |text| == 4 then Some(Group(p, q, r, 0)[..2]) else None
      case (Some(p), Some(q), None, None) =>
        if text[2] == '=' && text[3] == '=' && |text| == 4 then Some(Group(p, q, 0, 0)[..1]) else None
      case _ => None
  }

  /** One group gives its three bytes back, also when the last are missing. */
  lemma GroupOf(a: Byte, b: Byte, c: Byte)
    ensures 0 <= a % 4 * 16 + b / 16 < 64 && 0 <= b % 16 * 4 + c / 64 < 64
    ensures Group(a / 4, a % 4 * 16 + b / 16, b % 16 * 4 + c / 64, c % 64) == [a, b, c]
  {
  }

  lemma DecodeOne(a: Byte)
    ensures Decode(Encode([a])) == Some([a])
  {
    GroupOf(a, 0, 0);
    ValueOfChar(a / 4);
    ValueOfChar(a % 4 * 16);
    assert [a, 0, 0][..1] == [a];
  }

  lemma DecodePadded(p: int, q: int, r: int)
    requires 0 <= p < 64 && 0 <= q < 64 && 0 <= r < 64
    ensures Decode([Char(p), Char(q), Char(r), '=']) == Some(Group(p, q, r, 0)[..2])
  {
    ValueOfChar(p);
    ValueOfChar(q);
    ValueOfChar(r);
  }

  lemma DecodeTwo(a: Byte, b: Byte)
    ensures Decode(Encode([a, b])) == Some([a, b])
  {
    GroupOf(a, b, 0);
    DecodePadded(a / 4, a % 4 * 16 + b / 16, b % 16 * 4);
    assert [a, b, 0][..2] == [a, b];
  }

  lemma DecodeThree(a: Byte, b: Byte, c: Byte, rest: string)
    requires Decode(rest).Some?
    ensures 0 <= a % 4 * 16 + b / 16 < 64 && 0 <= b % 16 * 4 + c / 64 < 64
    ensures Decode([Char(a / 4), Char(a % 4 * 16 + b / 16), Char(b % 16 * 4 + c / 64), Char(c % 64)] + rest)
            == Some([a, b, c] + Decode(rest).value)
  {
    GroupOf(a, b, c);
    ValueOfChar(a / 4);
    ValueOfChar(a % 4 * 16 + b / 16);
    ValueOfChar(b % 16 * 4 + c / 64);
    ValueOfChar(c % 64);
    var four := [Char(a / 4), Char(a % 4 * 16 + b / 16), Char(b % 16 * 4 + c / 64), Char(c % 64)];
    assert (four + rest)[4..] == rest && (four + rest)[..4] == four;
  }

  lemma {:induction false} DecodeOfEncode(data: seq<Byte>)
    ensures Decode(Encode(data)) == Some(data)
  {
    if |data| == 1 {
      DecodeOne(data[0]);
      assert data == [data[0]];
    } else if |data| == 2 {
      DecodeTwo(data[0], data[1]);
      assert data == [data[0], data[1]];
    } else if |data| > 2 {
      DecodeOfEncode(data[3..]);
      DecodeThree(data[0], data[1], data[2], Encode(data[3..]));
      assert data == [data[0], data[1], data[2]] + data[3..];
    }
  }

  lemma {:induction false} EncodeUnbroken(data: seq<Byte>)
    ensures MailHeader.Unbroken(Encode(data))
  {
    if |data| > 2 { EncodeUnbroken(data[3..]); }
  }

  // ----- lines

  function Lines(encoded: string): (r: seq<string>)
    ensures r != []
  {
    if |encoded| > LINE then [encoded[..LINE]] + Lines(encoded[LINE..]) else [encoded]
  }

  method EncodeBase64(data: seq<Byte>) returns (output: string)
    ensures output == MailHeader.TextOf(Lines(Encode(data)))
  {
    output := Wrap(Encode(data));
  }

  method Wrap(all: string) returns (output: string)
    ensures output == MailHeader.TextOf(Lines(all))
  {
    var encoded := all;
    output := "";
    assert output + MailHeader.TextOf(Lines(encoded)) == MailHeader.TextOf(Lines(all));
    while |encoded| > LINE
      invariant output + MailHeader.TextOf(Lines(encoded)) == MailHeader.TextOf(Lines(all))
    {
      ghost var first, lines := encoded[..LINE], Lines(encoded[LINE..]);
      assert ([first] + lines)[1..] == lines;
      Sequences.Associative(output, first + "\r\n", MailHeader.TextOf(lines));
      Sequences.Associative(output, first, "\r\n");
      output := output + encoded[..LINE];
      output := output + "\r\n";
      encoded := encoded[LINE..];
    }
    MailHeader.TextOfOne(encoded);
    Sequences.Associative(output, encoded, "\r\n");
    output := output + encoded;
    output := output + "\r\n";
  }

  /** Every line is full but the last, which is not longer; together they are the
      encoding. */
  lemma {:induction false} LinesFull(encoded: string)
    requires MailHeader.Unbroken(encoded)
    ensures var r := Lines(encoded);
            && (forall i :: 0 <= i < |r| - 1 ==> |r[i]| == LINE) && |r[|r| - 1]| <= LINE
            && MailHeader.Glue(r) == encoded && (forall l :: l in r ==> |l| <= LINE && MailHeader.Unbroken(l))
  {
    if |encoded| > LINE {
      var first, rest := encoded[..LINE], encoded[LINE..];
      LinesFull(rest);
      assert encoded == first + rest;
      assert ([first] + Lines(rest))[1..] == Lines(rest);
    } else {
      assert MailHeader.Glue([encoded]) == encoded + MailHeader.Glue([]);
    }
  }

  lemma LinesRoundTrip(encoded: string)
    requires MailHeader.Unbroken(encoded)
    ensures var lines := MailHeader.SplitLines(MailHeader.TextOf(Lines(encoded)));
            lines.Some? && MailHeader.Glue(lines.value) == encoded && forall l :: l in lines.value ==> |l| <= LINE
  {
    LinesFull(encoded);
    MailHeader.SplitOfText(Lines(encoded));
  }

  /** Splitting the body into lines, dropping the line breaks and decoding gives
      the data back. */
  lemma RoundTrip(data: seq<Byte>)
    ensures var lines := MailHeader.SplitLines(MailHeader.TextOf(Lines(Encode(data))));
            && lines.Some? && Decode(MailHeader.Glue(lines.value)) == Some(data)
            && forall l :: l in lines.value ==> |l| <= LINE
  {
    var encoded := Encode(data);
    EncodeUnbroken(data);
    LinesRoundTrip(encoded);
    DecodeOfEncode(data);
  }
}
