/** Message headers (packages/mail/compose.go, packages/mail/message.go): the
    folding printer, and the reader of sections 2.2 and 2.2.3 of RFC 5322 that
    undoes it. Text is ASCII, one character a byte. */
module MailHeader {
  import opened Outcomes
  import opened Sequences

  const PREFERRED := 78
  const MAXIMUM_NAME := 78
  const MAXIMUM_VALUE := 900
  /** Section 2.1.1 of RFC 5322. */
  const LINE_LIMIT := 998
  const CRLF := "\r\n"

  predicate IsWhite(c: char) { c in {'\t', '\n', '\U{000B}', '\U{000C}', '\r', ' '} }

  predicate IsWord(s: string) { s != [] && forall c :: c in s ==> !IsWhite(c) }

  predicate Unbroken(s: string) { '\r' !in s && '\n' !in s }

  /** strings.Fields: each character that is not white extends the last word or
      starts a new one. */
  function Words(s: string): (r: seq<string>)
    ensures s != [] && !IsWhite(s[|s| - 1]) ==> r != []
  {
    if s == [] then []
    else
      var before, c := Words(s[..|s| - 1]), s[|s| - 1];
      if IsWhite(c) then before
      else if |s| > 1 && !IsWhite(s[|s| - 2]) then before[..|before| - 1] + [before[|before| - 1] + [c]]
      else before + [[c]]
  }

  /** The words are runs of characters that are not white, taken from the text. */
  lemma {:induction false} WordsAreWords(s: string, w: string)
    requires w in Words(s)
    ensures IsWord(w) && |w| <= |s| && (Unbroken(s) ==> Unbroken(w))
  {
    var init, c := s[..|s| - 1], s[|s| - 1];
    var before := Words(init);
    if w in before {
      WordsAreWords(init, w);
    } else if |s| > 1 && !IsWhite(s[|s| - 2]) {
      var last := before[|before| - 1];
      WordsAreWords(init, last);
      assert w == last + [c];
    }
  }

  lemma WordsThenWhite(s: string, c: char)
    requires IsWhite(c)
    ensures Words(s + [c]) == Words(s)
  {
    assert (s + [c])[..|s|] == s;
  }

  lemma WordStarts(s: string, c: char)
    requires !IsWhite(c) && (s == [] || IsWhite(s[|s| - 1]))
    ensures Words(s + [c]) == Words(s) + [[c]]
  {
    assert (s + [c])[..|s|] == s;
  }

  lemma WordGrows(s: string, c: char)
    requires !IsWhite(c) && s != [] && !IsWhite(s[|s| - 1])
    ensures Words(s) != [] && Words(s + [c]) == Words(s)[..|Words(s)| - 1] + [Words(s)[|Words(s)| - 1] + [c]]
  {
    assert (s + [c])[..|s|] == s;
  }

  /** headerTokens. */
  function Tokens(value: string): (r: seq<string>)
    ensures r != []
  {
    if Words(value) == [] then [""] else Words(value)
  }

  // ----- printing

  predicate Folds(length: nat, token: string, first: bool) {
    length + (if first then 0 else 1) + |token| > PREFERRED && length > 1
  }

  /** What is written for one token behind a line of the given length. */
  function Piece(length: nat, token: string, first: bool): string {
    if Folds(length, token, first) then "\r\n\t" + token else if first then token else " " + token
  }

  /** The lines from a started one: a token that would pass the preferred length
      starts a new line, behind a tab. */
  function FoldLines(line: string, tokens: seq<string>, first: bool): (r: seq<string>)
    ensures r != []
    decreases |tokens|
  {
    if tokens == [] then [line]
    else if Folds(|line|, tokens[0], first) then [line] + FoldLines("\t" + tokens[0], tokens[1..], false)
    else FoldLines(line + Piece(|line|, tokens[0], first), tokens[1..], false)
  }

  function Start(name: string): string { name + ": " }

  function HeaderLines(name: string, value: string): (r: seq<string>)
    ensures r != []
  {
    if |Start(name)| + |value| <= PREFERRED then [Start(name) + value] else FoldLines(Start(name), Tokens(value), true)
  }

  function TextOf(lines: seq<string>): string {
    if lines == [] then "" else lines[0] + CRLF + TextOf(lines[1..])
  }

  lemma TextOfOne(line: string)
    ensures TextOf([line]) == line + CRLF
  {
    assert TextOf([line]) == line + CRLF + TextOf([]);
  }

  lemma {:induction false} FirstLine(line: string, tokens: seq<string>, first: bool)
    ensures line <= FoldLines(line, tokens, first)[0]
    decreases |tokens|
  {
    if tokens != [] && !Folds(|line|, tokens[0], first) {
      FirstLine(line + Piece(|line|, tokens[0], first), tokens[1..], false);
    }
  }

  /** A line is broken only where the next token would not have fit: behind a space,
      or right behind the name where it is the first. */
  lemma {:induction false} FoldsOnlyWhenFull(line: string, tokens: seq<string>, first: bool, k: nat) returns (token: string)
    requires 0 < k < |FoldLines(line, tokens, first)| && forall t :: t in tokens ==> t != ""
    ensures var lines := FoldLines(line, tokens, first);
            && token in tokens && "\t" + token <= lines[k]
            && |lines[k - 1]| + (if first && k == 1 && lines[0] == line then 0 else 1) + |token| > 78
    decreases |tokens|
  {
    var rest := tokens[1..];
    assert forall t :: t in rest ==> t in tokens;
    assert tokens[0] in tokens;
    if Folds(|line|, tokens[0], first) {
      var below := FoldLines("\t" + tokens[0], rest, false);
      assert FoldLines(line, tokens, first) == [line] + below;
      if k == 1 {
        token := tokens[0];
        FirstLine("\t" + token, rest, false);
      } else {
        token := FoldsOnlyWhenFull("\t" + tokens[0], rest, false, k - 1);
      }
    } else {
      var longer := line + Piece(|line|, tokens[0], first);
      assert |longer| > |line|;
      FirstLine(longer, rest, false);
      token := FoldsOnlyWhenFull(longer, rest, false, k);
    }
  }

  /** The length of the line that leaves. */
  function NextLength(length: nat, token: string, first: bool): nat {
    if Folds(length, token, first) then 1 + |token| else length + |Piece(length, token, first)|
  }

  function Folding(length: nat, tokens: seq<string>, first: bool): string
    decreases |tokens|
  {
    if tokens == [] then CRLF
    else Piece(length, tokens[0], first) + Folding(NextLength(length, tokens[0], first), tokens[1..], false)
  }

  lemma {:induction false} FoldingLines(line: string, tokens: seq<string>, first: bool)
    ensures line + Folding(|line|, tokens, first) == TextOf(FoldLines(line, tokens, first))
    decreases |tokens|
  {
    if tokens == [] {
      TextOfOne(line);
    } else {
      var token, rest := tokens[0], tokens[1..];
      var piece := Piece(|line|, token, first);
      var more := Folding(NextLength(|line|, token, first), rest, false);
      Associative(line, piece, more);
      if Folds(|line|, token, first) {
        var next := "\t" + token;
        FoldingLines(next, rest, false);
        assert piece == CRLF + next;
        Associative(line, CRLF, next);
        Associative(line + CRLF, next, more);
        assert ([line] + FoldLines(next, rest, false))[1..] == FoldLines(next, rest, false);
      } else {
        FoldingLines(line + piece, rest, false);
      }
    }
  }

  /** The buffer that a message is composed in. */
  class Buffer {
    var output: string

    constructor ()
      ensures output == ""
    {
      output := "";
    }

    method WriteTokens(length: nat, tokens: seq<string>)
      modifies this
      ensures output == old(output) + Folding(length, tokens, true)
    {
      var lineLength: nat := length;
      for i := 0 to |tokens|
        invariant output + Folding(lineLength, tokens[i..], i == 0) == old(output) + Folding(length, tokens, true)
      {
        ghost var rest := Folding(NextLength(lineLength, tokens[i], i == 0), tokens[i + 1..], false);
        assert tokens[i..][1..] == tokens[i + 1..];
        Associative(output, Piece(lineLength, tokens[i], i == 0), rest);
        lineLength := WriteToken(lineLength, tokens[i], i);
      }
      output := output + CRLF;
    }

    method WriteToken(length: nat, token: string, index: nat) returns (lineLength: nat)
      modifies this
      ensures output == old(output) + Piece(length, token, index == 0) && lineLength == NextLength(length, token, index == 0)
    {
      lineLength := length;
      var separator := "";
      if index > 0 { separator := " "; }
      if lineLength + |separator| + |token| > PREFERRED && lineLength > 1 {
        output := output + "\r\n\t";
        lineLength := 1;
        separator := "";
      }
      Associative(output, separator, token);
      Associative(old(output), "\r\n\t", token);
      output := output + separator;
      output := output + token;
      lineLength := lineLength + |separator| + |token|;
    }

    method WriteWhole(prefix: string, value: string)
      modifies this
      ensures output == old(output) + (prefix + value + CRLF)
    {
      Associative(output, prefix, value);
      Associative(output, prefix + value, CRLF);
      output := output + prefix;
      output := output + value;
      output := output + CRLF;
    }

    method WriteFolded(prefix: string, tokens: seq<string>)
      modifies this
      ensures output == old(output) + (prefix + Folding(|prefix|, tokens, true))
    {
      Associative(output, prefix, Folding(|prefix|, tokens, true));
      output := output + prefix;
      WriteTokens(|prefix|, tokens);
    }

    method WriteHeader(name: string, value: string)
      modifies this
      ensures output == old(output) + TextOf(HeaderLines(name, value))
    {
      var prefix := Start(name);
      if |prefix| + |value| <= PREFERRED {
        TextOfOne(prefix + value);
        WriteWhole(prefix, value);
      } else {
        FoldingLines(prefix, Tokens(value), true);
        WriteFolded(prefix, Tokens(value));
      }
    }
  }

  // ----- line lengths

  lemma {:induction false} FoldLengths(line: string, tokens: seq<string>, first: bool, l: string)
    requires |line| > 1 && (forall t :: t in tokens ==> t != "") && l in FoldLines(line, tokens, first)
    ensures |l| <= PREFERRED || l == line || exists t :: t in tokens && l == "\t" + t
    decreases |tokens|
  {
    if tokens != [] {
      var token, rest := tokens[0], tokens[1..];
      assert token in tokens && forall t :: t in rest ==> t in tokens;
      if Folds(|line|, token, first) {
        assert |"\t" + token| > 1;
        if l != line { FoldLengths("\t" + token, rest, false, l); }
      } else {
        FoldLengths(line + Piece(|line|, token, first), rest, false, l);
      }
    }
  }

  /** Every line is within the preferred length, or is the bare name, or holds
      one word. */
  lemma LineLengths(name: string, value: string, l: string)
    requires l in HeaderLines(name, value)
    ensures |l| <= PREFERRED || l == Start(name) || exists w :: w in Words(value) && l == "\t" + w
  {
    if |Start(name)| + |value| > PREFERRED {
      if Words(value) == [] {
        var line := Start(name);
        assert [""][1..] == [] && "\t" + "" == "\t";
        assert FoldLines(line, [""], true) == if Folds(|line|, "", true) then [line] + FoldLines("\t", [], false) else [line + ""];
      } else {
        forall w | w in Words(value) ensures w != "" { WordsAreWords(value, w); }
        FoldLengths(Start(name), Words(value), true, l);
      }
    }
  }

  predicate ValidName(name: string) {
    0 < |name| <= MAXIMUM_NAME && forall c :: c in name ==> '!' <= c <= '~' && c != ':'
  }

  /** ASCII without control characters other than the tab. */
  predicate ValidValue(value: string) {
    0 < |value| <= MAXIMUM_VALUE && forall c :: c in value ==> ' ' <= c <= '~' || c == '\t'
  }

  /** Names are up to 78 printable ASCII characters without a colon, values up to 900
      printable ones and tabs. */
  lemma FieldExactly(name: string, value: string)
    ensures ValidName(name) <==> 1 <= |name| <= 78 && forall c :: c in name ==> 33 <= c as int <= 126 && c as int != 58
    ensures ValidValue(value) <==> 1 <= |value| <= 900 && forall c :: c in value ==> 32 <= c as int <= 126 || c as int == 9
  {
  }

  /** Custom headers stay within the line limit. */
  lemma CustomLineLimit(name: string, value: string, l: string)
    requires ValidName(name) && ValidValue(value) && l in HeaderLines(name, value)
    ensures |l| <= LINE_LIMIT
  {
    LineLengths(name, value, l);
    forall w | w in Words(value) ensures |w| <= MAXIMUM_VALUE { WordsAreWords(value, w); }
  }

  // ----- reading

  /** The lines of a text whose every line ends in CRLF. */
  function SplitLines(text: string): Option<seq<string>> {
    if text == [] then Some([])
    else if CRLF <= text then
      match SplitLines(text[2..])
      case None => None
      case Some(rest) => Some([""] + rest)
    else
      match SplitLines(text[1..])
      case None => None
      case Some(rest) => if rest == [] then None else Some([[text[0]] + rest[0]] + rest[1..])
  }

  predicate Continues(line: string) { line != [] && line[0] in {' ', '\t'} }

  /** Unfolding: a line that starts with white space belongs to the one before. */
  function Unfold(lines: seq<string>): seq<string>
    decreases |lines|
  {
    if lines == [] then []
    else if |lines| > 1 && Continues(lines[1]) then Unfold([lines[0] + lines[1]] + lines[2..])
    else [lines[0]] + Unfold(lines[1..])
  }

  datatype Field = Field(name: string, words: seq<string>)

  /** The name ends at the first colon. */
  function ParseField(line: string): Option<Field> {
    if line == [] then None
    else if line[0] == ':' then Some(Field("", Words(line[1..])))
    else
      match ParseField(line[1..])
      case None => None
      case Some(field) => Some(Field([line[0]] + field.name, field.words))
  }

  function ParseFields(lines: seq<string>): Option<seq<Field>> {
    if lines == [] then Some([])
    else
      match (ParseField(lines[0]), ParseFields(lines[1..]))
      case (Some(first), Some(rest)) => Some([first] + rest)
      case _ => None
  }

  function ReadBlock(text: string): Option<seq<Field>> {
    match SplitLines(text)
    case None => None
    case Some(lines) => ParseFields(Unfold(lines))
  }

  lemma {:induction false} SplitFirstLine(line: string, rest: string)
    requires Unbroken(line) && SplitLines(rest).Some?
    ensures SplitLines(line + CRLF + rest) == Some([line] + SplitLines(rest).value)
  {
    var text := line + CRLF + rest;
    if line == [] {
      assert text[2..] == rest && CRLF <= text;
    } else {
      SplitFirstLine(line[1..], rest);
      assert text[1..] == line[1..] + CRLF + rest && text[0] == line[0];
      assert !(CRLF <= text) by { assert text[0] != CRLF[0]; }
      assert [line[0]] + line[1..] == line;
    }
  }

  lemma {:induction false} SplitOfText(lines: seq<string>)
    requires forall l :: l in lines ==> Unbroken(l)
    ensures SplitLines(TextOf(lines)) == Some(lines)
  {
    if lines != [] {
      SplitOfText(lines[1..]);
      SplitFirstLine(lines[0], TextOf(lines[1..]));
      assert lines == [lines[0]] + lines[1..];
    }
  }

  function Glue(lines: seq<string>): string { if lines == [] then "" else lines[0] + Glue(lines[1..]) }

  /** One folded header unfolds to one line. */
  lemma {:induction false} UnfoldFirst(lines: seq<string>, rest: seq<string>)
    requires lines != [] && (forall l :: l in lines[1..] ==> Continues(l)) && (rest != [] ==> !Continues(rest[0]))
    ensures Unfold(lines + rest) == [Glue(lines)] + Unfold(rest)
    decreases |lines|
  {
    var all := lines + rest;
    if |lines| == 1 {
      assert all[1..] == rest && lines[1..] == [] && Glue(lines) == lines[0] + "" == lines[0];
    } else {
      assert lines[1] in lines[1..] && all[1] == lines[1];
      var merged := [lines[0] + lines[1]] + lines[2..];
      assert merged[1..] == lines[2..] && lines[1..][1..] == lines[2..];
      UnfoldFirst(merged, rest);
      assert [all[0] + all[1]] + all[2..] == merged + rest;
      assert Glue(lines) == lines[0] + (lines[1] + Glue(lines[2..]));
      Associative(lines[0], lines[1], Glue(lines[2..]));
    }
  }

  /** Folded lines begin as the started one; the others begin with a tab. */
  lemma {:induction false} FoldShape(line: string, tokens: seq<string>, first: bool)
    requires Unbroken(line) && forall t :: t in tokens ==> Unbroken(t)
    ensures var r := FoldLines(line, tokens, first);
            line <= r[0] && (forall l :: l in r ==> Unbroken(l)) && (forall l :: l in r[1..] ==> Continues(l))
    decreases |tokens|
  {
    if tokens != [] {
      var token, rest := tokens[0], tokens[1..];
      assert token in tokens && Unbroken(token) && forall t :: t in rest ==> t in tokens;
      if Folds(|line|, token, first) {
        assert forall c :: c in "\t" + token ==> c == '\t' || c in token;
        var more := FoldLines("\t" + token, rest, false);
        FoldShape("\t" + token, rest, false);
        assert Continues(more[0]);
        assert ([line] + more)[1..] == more && more == [more[0]] + more[1..];
      } else {
        var piece := Piece(|line|, token, first);
        assert forall c :: c in piece ==> c == ' ' || c in token;
        FoldShape(line + piece, rest, false);
      }
    }
  }

  lemma {:induction false} WordsMore(body: string, c: char, token: string)
    requires IsWhite(c) && IsWord(token)
    ensures Words(body + [c] + token) == Words(body) + [token]
  {
    var init, last := token[..|token| - 1], token[|token| - 1];
    assert token == init + [last];
    Associative(body + [c], init, [last]);
    if init == [] {
      WordsThenWhite(body, c);
      assert body + [c] + init == body + [c];
      WordStarts(body + [c], last);
    } else {
      WordsMore(body, c, init);
      WordGrows(body + [c] + init, last);
    }
  }

  /** One token without the line break in front of it. */
  function Unfolded(length: nat, token: string, first: bool): string {
    if Folds(length, token, first) then "\t" + token else Piece(length, token, first)
  }

  function Pieces(length: nat, tokens: seq<string>, first: bool): (r: seq<string>)
    ensures |r| == |tokens|
    decreases |tokens|
  {
    if tokens == [] then []
    else [Unfolded(length, tokens[0], first)] + Pieces(NextLength(length, tokens[0], first), tokens[1..], false)
  }

  function UnfoldedAll(length: nat, tokens: seq<string>, first: bool): string { Glue(Pieces(length, tokens, first)) }

  predicate EndsWhite(s: string) { s != [] && IsWhite(s[|s| - 1]) }

  /** Appending one token, by a space, a fold or behind the name, adds it to the
      words. */
  lemma WordsWithToken(body: string, length: nat, token: string, first: bool)
    requires IsWord(token) && (first ==> EndsWhite(body))
    ensures Words(body + Unfolded(length, token, first)) == Words(body) + [token]
  {
    if first && !Folds(length, token, first) {
      WordsBehindWhite(body, token);
    } else {
      var c := if Folds(length, token, first) then '\t' else ' ';
      Associative(body, [c], token);
      WordsMore(body, c, token);
    }
  }

  lemma WordsBehindWhite(body: string, token: string)
    requires IsWord(token) && body != [] && IsWhite(body[|body| - 1])
    ensures Words(body + token) == Words(body) + [token]
  {
    var init, c := body[..|body| - 1], body[|body| - 1];
    assert body == init + [c];
    WordsThenWhite(init, c);
    WordsMore(init, c, token);
  }

  /** Behind any text, the piece adds the token to the words. */
  ghost predicate Takes(words: string -> seq<string>, piece: string, token: string) {
    forall body :: words(body + piece) == words(body) + [token]
  }

  /** Any reading of words that takes each piece on, takes them all on. */
  lemma {:induction false} TakesAll(words: string -> seq<string>, body: string, pieces: seq<string>, tokens: seq<string>)
    requires |pieces| == |tokens| && forall i :: 0 <= i < |pieces| ==> Takes(words, pieces[i], tokens[i])
    ensures words(body + Glue(pieces)) == words(body) + tokens
    decreases |pieces|
  {
    if pieces == [] {
      assert body + "" == body;
    } else {
      TakesAll(words, body + pieces[0], pieces[1..], tokens[1..]);
      Associative(body, pieces[0], Glue(pieces[1..]));
      assert Takes(words, pieces[0], tokens[0]);
      assert words(body) + [tokens[0]] + tokens[1..] == words(body) + tokens;
    }
  }

  lemma {:induction false} PiecesTake(length: nat, tokens: seq<string>)
    requires forall t :: t in tokens ==> IsWord(t)
    ensures forall i :: 0 <= i < |tokens| ==> Takes(Words, Pieces(length, tokens, false)[i], tokens[i])
    decreases |tokens|
  {
    if tokens != [] {
      var token, more := tokens[0], tokens[1..];
      assert token in tokens && forall t :: t in more ==> t in tokens;
      forall body ensures Words(body + Unfolded(length, token, false)) == Words(body) + [token] {
        WordsWithToken(body, length, token, false);
      }
      PiecesTake(NextLength(length, token, false), more);
    }
  }

  lemma TakesBehind(words: string -> seq<string>, body: string, piece: string, token: string,
                    pieces: seq<string>, tokens: seq<string>)
    requires words(body + piece) == words(body) + [token]
    requires |pieces| == |tokens| && forall i :: 0 <= i < |pieces| ==> Takes(words, pieces[i], tokens[i])
    ensures words(body + Glue([piece] + pieces)) == words(body) + ([token] + tokens)
  {
    TakesAll(words, body + piece, pieces, tokens);
    assert ([piece] + pieces)[1..] == pieces;
    Associative(body, piece, Glue(pieces));
    Associative(words(body), [token], tokens);
  }

  lemma WordsWithTokens(body: string, length: nat, tokens: seq<string>)
    requires tokens != [] && (forall t :: t in tokens ==> IsWord(t)) && EndsWhite(body)
    ensures Words(body + UnfoldedAll(length, tokens, true)) == Words(body) + tokens
  {
    var token, more := tokens[0], tokens[1..];
    assert tokens == [token] + more && token in tokens && forall t :: t in more ==> t in tokens;
    var next := NextLength(length, token, true);
    WordsWithToken(body, length, token, true);
    PiecesTake(next, more);
    TakesBehind(Words, body, Unfolded(length, token, true), token, Pieces(next, more, false), more);
  }

  lemma {:induction false} GlueFold(line: string, tokens: seq<string>, first: bool)
    ensures Glue(FoldLines(line, tokens, first)) == line + UnfoldedAll(|line|, tokens, first)
    decreases |tokens|
  {
    if tokens == [] {
      assert Glue([line]) == line + Glue([]);
    } else {
      var token, more := tokens[0], tokens[1..];
      var piece, next := Unfolded(|line|, token, first), NextLength(|line|, token, first);
      assert Pieces(|line|, tokens, first)[1..] == Pieces(next, more, false);
      assert UnfoldedAll(|line|, tokens, first) == piece + UnfoldedAll(next, more, false);
      if Folds(|line|, token, first) {
        var lines := FoldLines(piece, more, false);
        GlueFold(piece, more, false);
        assert ([line] + lines)[1..] == lines;
      } else {
        GlueFold(line + piece, more, false);
        Associative(line, piece, UnfoldedAll(next, more, false));
      }
    }
  }

  lemma {:induction false} ParseNamed(name: string, body: string)
    requires ':' !in name
    ensures ParseField(name + ":" + body) == Some(Field(name, Words(body)))
  {
    var line := name + ":" + body;
    if name == [] {
      assert line[1..] == body;
    } else {
      ParseNamed(name[1..], body);
      assert line[1..] == name[1..] + ":" + body && name == [name[0]] + name[1..];
    }
  }

  /** A character continues two texts with the same words in the same way, when
      both or neither end in a word. */
  lemma SameWords(a: string, b: string, c: char)
    requires Words(a) == Words(b) && (a == [] || IsWhite(a[|a| - 1]) <==> b == [] || IsWhite(b[|b| - 1]))
    ensures Words(a + [c]) == Words(b + [c])
  {
    if IsWhite(c) {
      WordsThenWhite(a, c);
      WordsThenWhite(b, c);
    } else if a == [] || IsWhite(a[|a| - 1]) {
      WordStarts(a, c);
      WordStarts(b, c);
    } else {
      WordGrows(a, c);
      WordGrows(b, c);
    }
  }

  lemma {:induction false} LeadingWhite(head: string, body: string)
    requires EndsWhite(head) && Words(head) == []
    ensures Words(head + body) == Words(body)
  {
    if body == [] {
      assert head + body == head;
    } else {
      var init, c := body[..|body| - 1], body[|body| - 1];
      LeadingWhite(head, init);
      assert body == init + [c];
      Associative(head, init, [c]);
      SameWords(head + init, init, c);
    }
  }

  lemma GluedWhole(name: string, value: string)
    ensures Glue([Start(name) + value]) == name + ":" + (" " + value) && Words(" " + value) == Words(value)
  {
    WordsThenWhite("", ' ');
    LeadingWhite(" ", value);
    Associative(name + ":", " ", value);
    assert Start(name) == name + ":" + " ";
    assert Glue([Start(name) + value]) == Start(name) + value + Glue([]);
  }

  /** A value without words: a tab may follow the name on its own line. */
  lemma GluedNothing(prefix: string) returns (rest: string)
    ensures Glue(FoldLines(prefix, [""], true)) == prefix + rest && (rest == "" || rest == "\t")
  {
    rest := if Folds(|prefix|, "", true) then "\t" else "";
    var lines := if Folds(|prefix|, "", true) then [prefix, "\t"] else [prefix];
    assert [""][1..] == [] && "\t" + "" == "\t" && prefix + "" == prefix;
    assert FoldLines(prefix, [""], true) == lines;
    assert lines[1..] == if Folds(|prefix|, "", true) then ["\t"] else [];
    assert Glue(["\t"]) == "\t" + Glue([]);
  }

  lemma GluedFolded(name: string, value: string)
    requires Words(value) != []
    ensures var body := " " + UnfoldedAll(|Start(name)|, Words(value), true);
            Glue(FoldLines(Start(name), Words(value), true)) == name + ":" + body && Words(body) == Words(value)
  {
    var prefix, words := Start(name), Words(value);
    forall w | w in words ensures IsWord(w) { WordsAreWords(value, w); }
    WordsThenWhite("", ' ');
    assert prefix == name + ":" + " ";
    GlueFold(prefix, words, true);
    WordsWithTokens(" ", |prefix|, words);
    Associative(name + ":", " ", UnfoldedAll(|prefix|, words, true));
    assert [] + words == words;
  }

  /** The lines of one header, glued, are its name, a colon and a body with the
      value's words. */
  lemma GluedHeader(name: string, value: string) returns (body: string)
    ensures Glue(HeaderLines(name, value)) == name + ":" + body && Words(body) == Words(value)
  {
    if |Start(name)| + |value| <= PREFERRED {
      body := " " + value;
      GluedWhole(name, value);
    } else if Words(value) == [] {
      var rest := GluedNothing(Start(name));
      body := " " + rest;
      assert Start(name) == name + ":" + " ";
      Associative(name + ":", " ", rest);
      WordsThenWhite("", ' ');
      WordsThenWhite(" ", '\t');
      assert " " + "" == " ";
    } else {
      body := " " + UnfoldedAll(|Start(name)|, Words(value), true);
      GluedFolded(name, value);
    }
  }

  /** A validated header prints as unbroken lines, the first of which starts a
      field and the others of which continue it. */
  lemma HeaderShape(name: string, value: string)
    requires ValidName(name) && Unbroken(value)
    ensures var r := HeaderLines(name, value);
            (forall l :: l in r ==> Unbroken(l)) && !Continues(r[0]) && (forall l :: l in r[1..] ==> Continues(l))
  {
    var prefix := Start(name);
    assert Unbroken(prefix) && prefix[0] == name[0] && name[0] in name;
    if |prefix| + |value| <= PREFERRED {
      assert Unbroken(prefix + value) && (prefix + value)[0] == name[0];
    } else {
      forall w | w in Tokens(value) ensures Unbroken(w) { if w != "" { WordsAreWords(value, w); } }
      FoldShape(prefix, Tokens(value), true);
    }
  }

  // ----- blocks

  datatype Header = Header(name: string, value: string)

  function LinesOf(h: Header): seq<string> { HeaderLines(h.name, h.value) }

  function BlockLines(headers: seq<Header>): seq<string> { FlatMap(LinesOf, headers) }

  function FieldsOf(headers: seq<Header>): seq<Field> {
    seq(|headers|, i requires 0 <= i < |headers| => Field(headers[i].name, Words(headers[i].value)))
  }

  predicate Printable(h: Header) { ValidName(h.name) && Unbroken(h.value) }

  lemma {:induction false} BlockShape(headers: seq<Header>)
    requires forall h :: h in headers ==> Printable(h)
    ensures forall l :: l in BlockLines(headers) ==> Unbroken(l)
    ensures headers != [] ==> BlockLines(headers) != [] && !Continues(BlockLines(headers)[0])
  {
    if headers != [] {
      assert headers[0] in headers;
      HeaderShape(headers[0].name, headers[0].value);
      BlockShape(headers[1..]);
    }
  }

  /** One header in front of other lines is one field in front of theirs. */
  lemma HeaderParses(h: Header, lines: seq<string>)
    requires Printable(h) && (lines != [] ==> !Continues(lines[0])) && ParseFields(Unfold(lines)).Some?
    ensures ParseFields(Unfold(LinesOf(h) + lines)) == Some([Field(h.name, Words(h.value))] + ParseFields(Unfold(lines)).value)
  {
    HeaderShape(h.name, h.value);
    UnfoldFirst(LinesOf(h), lines);
    var body := GluedHeader(h.name, h.value);
    ParseNamed(h.name, body);
    assert ([Glue(LinesOf(h))] + Unfold(lines))[1..] == Unfold(lines);
  }

  lemma {:induction false} BlockParses(headers: seq<Header>)
    requires forall h :: h in headers ==> Printable(h)
    ensures ParseFields(Unfold(BlockLines(headers))) == Some(FieldsOf(headers))
  {
    if headers != [] {
      var h, rest := headers[0], headers[1..];
      assert h in headers;
      BlockShape(rest);
      BlockParses(rest);
      HeaderParses(h, BlockLines(rest));
      assert FieldsOf(headers) == [Field(h.name, Words(h.value))] + FieldsOf(rest);
    }
  }

  /** Header round trip: splitting and unfolding a printed block gives the same
      names, in order, with the same words. */
  lemma RoundTrip(headers: seq<Header>)
    requires forall h :: h in headers ==> Printable(h)
    ensures ReadBlock(TextOf(BlockLines(headers))) == Some(FieldsOf(headers))
  {
    BlockShape(headers);
    SplitOfText(BlockLines(headers));
    BlockParses(headers);
  }
}
