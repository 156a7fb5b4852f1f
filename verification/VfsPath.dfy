/** VFS paths (packages/vfs/path.go, packages/vfs/vfs.go). */
module VfsPath {
  import opened Outcomes
  import Text

  const SLASH := '/'

  // ----- path.Clean

  /** Segments from left to right: empty ones and "." are dropped, ".." takes
      back the last one where there is one. */
  function Reduce(segments: seq<string>, stack: seq<string>, rooted: bool): seq<string>
    decreases |segments|
  {
    if segments == [] then stack
    else if segments[0] == "" || segments[0] == "." then Reduce(segments[1..], stack, rooted)
    else if segments[0] == ".." && stack != [] && stack[|stack| - 1] != ".." then
      Reduce(segments[1..], stack[..|stack| - 1], rooted)
    else if segments[0] == ".." && rooted then Reduce(segments[1..], stack, rooted)
    else Reduce(segments[1..], stack + [segments[0]], rooted)
  }

  function Clean(path: string): string {
    var rooted := path != "" && path[0] == SLASH;
    var segments := Reduce(Text.Split(path, SLASH), [], rooted);
    if rooted then [SLASH] + Text.Join(segments, SLASH)
    else if segments == [] then "." else Text.Join(segments, SLASH)
  }

  // ----- normalize

  datatype Problem = BackwardSlash | Empty | Absolute | Traversal | NoFileName

  predicate EndsInSlash(s: string) { s != "" && s[|s| - 1] == SLASH }

  function Normalize(name: string, allowEmpty: bool, preserveSlash: bool): Result<string, Problem> {
    if '\0' in name || '\\' in name then Err(BackwardSlash)
    else if name == "" then if allowEmpty then Ok("") else Err(Empty)
    else if name[0] == SLASH then Err(Absolute)
    else if ".." in Text.Split(name, SLASH) then Err(Traversal)
    else
      var cleaned := Clean(name);
      if cleaned == "." || cleaned == "" || "../" <= cleaned then
        if allowEmpty && cleaned == "." then Ok("") else Err(NoFileName)
      else Ok(if preserveSlash && EndsInSlash(name) then cleaned + [SLASH] else cleaned)
  }

  function NormalizePath(name: string): Result<string, Problem> { Normalize(name, false, false) }
  function NormalizePrefix(prefix: string): Result<string, Problem> { Normalize(prefix, true, true) }

  // ----- canonical form

  /** The segments that name something. */
  function Kept(segments: seq<string>): seq<string> {
    if segments == [] then []
    else if segments[0] == "" || segments[0] == "." then Kept(segments[1..])
    else [segments[0]] + Kept(segments[1..])
  }

  function Segments(name: string): seq<string> { Kept(Text.Split(name, SLASH)) }

  predicate Portable(name: string) {
    '\0' !in name && '\\' !in name && (name != "" ==> name[0] != SLASH) && ".." !in Text.Split(name, SLASH)
  }

  predicate Proper(segments: seq<string>) {
    forall s :: s in segments ==> s != "" && s != "." && s != ".." && SLASH !in s
  }

  lemma {:induction false} ReduceKeeps(segments: seq<string>, stack: seq<string>)
    requires ".." !in segments
    ensures Reduce(segments, stack, false) == stack + Kept(segments)
  {
    if segments == [] {
      assert stack + [] == stack;
    } else {
      assert segments[0] in segments && ".." !in segments[1..];
      if segments[0] == "" || segments[0] == "." {
        ReduceKeeps(segments[1..], stack);
      } else {
        ReduceKeeps(segments[1..], stack + [segments[0]]);
        assert stack + [segments[0]] + Kept(segments[1..]) == stack + ([segments[0]] + Kept(segments[1..]));
      }
    }
  }

  lemma {:induction false} KeptProper(segments: seq<string>)
    requires ".." !in segments && forall s :: s in segments ==> SLASH !in s
    ensures Proper(Kept(segments)) && forall s :: s in Kept(segments) ==> s in segments
  {
    if segments != [] {
      assert segments[0] in segments && forall s :: s in segments[1..] ==> s in segments;
      KeptProper(segments[1..]);
    }
  }

  lemma {:induction false} KeptFixed(segments: seq<string>)
    requires Proper(segments)
    ensures Kept(segments) == segments
  {
    if segments != [] {
      assert segments[0] in segments && forall s :: s in segments[1..] ==> s in segments;
      KeptFixed(segments[1..]);
    }
  }

  lemma SegmentsProper(name: string)
    requires ".." !in Text.Split(name, SLASH)
    ensures Proper(Segments(name))
  {
    KeptProper(Text.Split(name, SLASH));
  }

  lemma SplitBeginning(s: string)
    ensures s != "" && s[0] == SLASH ==> Text.Split(s, SLASH)[0] == ""
    ensures "../" <= s ==> Text.Split(s, SLASH)[0] == ".."
    ensures s == "" ==> Text.Split(s, SLASH)[0] == ""
    ensures s == "." ==> Text.Split(s, SLASH)[0] == "."
  {
    if "../" <= s {
      assert s == ".." + [SLASH] + s[3..];
      Text.SplitFirst("..", s[3..], SLASH);
    }
    Text.SplitFirst(".", [], SLASH);
  }

  lemma SplitEnd(s: string)
    ensures EndsInSlash(s) ==> var parts := Text.Split(s, SLASH); parts[|parts| - 1] == ""
  {
    if EndsInSlash(s) {
      SplitLast(s[..|s| - 1]);
      assert s == s[..|s| - 1] + [SLASH];
    }
  }

  /** A join of proper segments splits into them again. */
  lemma JoinProper(segments: seq<string>)
    requires Proper(segments) && segments != []
    ensures var s := Text.Join(segments, SLASH);
            Text.Split(s, SLASH) == segments && s != "" && s != "." && s[0] != SLASH && !EndsInSlash(s) && !("../" <= s)
  {
    var s := Text.Join(segments, SLASH);
    Text.SplitOfJoin(segments, SLASH);
    assert segments[0] in segments && segments[|segments| - 1] in segments;
    SplitBeginning(s);
    SplitEnd(s);
  }

  lemma {:induction false} SplitLast(s: string)
    ensures Text.Split(s + [SLASH], SLASH) == Text.Split(s, SLASH) + [""]
  {
    var t := s + [SLASH];
    if s == [] {
      assert t[1..] == [] && Text.Split(t, SLASH) == [[]] + Text.Split([], SLASH);
    } else {
      SplitLast(s[1..]);
      assert t[1..] == s[1..] + [SLASH] && t[0] == s[0];
    }
  }

  /** Joining adds no character but the slash. */
  lemma {:induction false} JoinAdds(segments: seq<string>, c: char)
    requires c != SLASH && forall s :: s in segments ==> c !in s
    ensures c !in Text.Join(segments, SLASH)
  {
    if segments != [] {
      assert segments[0] in segments && forall s :: s in segments[1..] ==> s in segments;
      JoinAdds(segments[1..], c);
    }
  }

  lemma {:induction false} SplitTakes(s: string, c: char)
    requires c !in s
    ensures forall part :: part in Text.Split(s, SLASH) ==> c !in part
  {
    if s != [] {
      assert s[0] in s && c !in s[1..];
      SplitTakes(s[1..], c);
    }
  }

  lemma KeptTakes(name: string, c: char)
    requires c !in name && c != SLASH && ".." !in Text.Split(name, SLASH)
    ensures c !in Text.Join(Segments(name), SLASH)
  {
    SplitTakes(name, c);
    KeptProper(Text.Split(name, SLASH));
    JoinAdds(Segments(name), c);
  }

  lemma CleanKeeps(name: string)
    requires Portable(name)
    ensures Clean(name) == if Segments(name) == [] then "." else Text.Join(Segments(name), SLASH)
  {
    ReduceKeeps(Text.Split(name, SLASH), []);
    assert [] + Segments(name) == Segments(name);
  }

  lemma NothingNamed()
    ensures Portable("") && Segments("") == []
  {
    assert Text.Split("", SLASH) == [""] && [""][1..] == [];
  }

  /** A path is accepted exactly when it is portable and names something, and
      then gives its own segments joined by slashes. */
  lemma PathForm(name: string)
    ensures NormalizePath(name).Ok? <==> Portable(name) && Segments(name) != []
    ensures NormalizePath(name).Ok? ==> NormalizePath(name).value == Text.Join(Segments(name), SLASH)
  {
    NothingNamed();
    if Portable(name) {
      CleanKeeps(name);
      SegmentsProper(name);
      if Segments(name) != [] {
        JoinProper(Segments(name));
      }
    }
  }

  /** A prefix is accepted exactly when it is portable; it keeps a trailing slash
      exactly when it had one and names something. */
  lemma PrefixForm(prefix: string)
    ensures NormalizePrefix(prefix).Ok? <==> Portable(prefix)
    ensures NormalizePrefix(prefix).Ok? ==>
              NormalizePrefix(prefix).value
              == Text.Join(Segments(prefix), SLASH) + (if Segments(prefix) != [] && EndsInSlash(prefix) then [SLASH] else [])
  {
    NothingNamed();
    if Portable(prefix) {
      CleanKeeps(prefix);
      SegmentsProper(prefix);
      if Segments(prefix) != [] {
        JoinProper(Segments(prefix));
      }
    }
  }

  /** The canonical text of a portable name is portable and has its segments. */
  lemma Canonical(name: string, slash: bool)
    requires Portable(name) && Segments(name) != []
    ensures var r := Text.Join(Segments(name), SLASH) + (if slash then [SLASH] else []);
            Portable(r) && Segments(r) == Segments(name) && EndsInSlash(r) == slash && r != ""
  {
    var segments := Segments(name);
    var s := Text.Join(segments, SLASH);
    SegmentsProper(name);
    JoinProper(segments);
    KeptFixed(segments);
    KeptTakes(name, '\0');
    KeptTakes(name, '\\');
    if slash {
      SplitLast(s);
      KeptLast(segments);
    } else {
      assert s + [] == s;
    }
  }

  lemma {:induction false} KeptLast(segments: seq<string>)
    ensures Kept(segments + [""]) == Kept(segments)
  {
    if segments != [] {
      KeptLast(segments[1..]);
      assert (segments + [""])[1..] == segments[1..] + [""];
    } else {
      assert [""][1..] == [];
    }
  }

  /** What a path gives is relative, has only proper segments, and gives itself. */
  lemma PathIdempotent(name: string)
    requires NormalizePath(name).Ok?
    ensures var r := NormalizePath(name).value;
            && NormalizePath(r) == Ok(r) && r != "" && r[0] != SLASH && Proper(Text.Split(r, SLASH))
  {
    PathForm(name);
    var r := NormalizePath(name).value;
    SegmentsProper(name);
    JoinProper(Segments(name));
    Canonical(name, false);
    assert r + [] == r;
    PathForm(r);
  }

  /** Two accepted paths give the same text exactly when their segments agree. */
  lemma SamePathExactly(a: string, b: string)
    requires NormalizePath(a).Ok? && NormalizePath(b).Ok?
    ensures NormalizePath(a) == NormalizePath(b) <==> Segments(a) == Segments(b)
  {
    PathForm(a);
    PathForm(b);
    SegmentsProper(a);
    SegmentsProper(b);
    JoinProper(Segments(a));
    JoinProper(Segments(b));
  }

  lemma PrefixIdempotent(prefix: string)
    requires NormalizePrefix(prefix).Ok?
    ensures var r := NormalizePrefix(prefix).value; NormalizePrefix(r) == Ok(r)
  {
    PrefixForm(prefix);
    var r := NormalizePrefix(prefix).value;
    if Segments(prefix) != [] {
      Canonical(prefix, EndsInSlash(prefix));
      PrefixForm(r);
    }
  }

  // ----- list options

  const DEFAULT_LIMIT := 1000
  const MAXIMUM_LIMIT := 10000

  datatype ListOptions = ListOptions(prefix: string, cursor: string, delimiter: string, limit: int)
  datatype OptionProblem = BadPath(problem: Problem) | BadDelimiter | BadLimit

  function NormalizeOptions(o: ListOptions): Result<ListOptions, OptionProblem> {
    var prefix := NormalizePrefix(o.prefix);
    if prefix.Err? then Err(BadPath(prefix.error))
    else
      var cursor := if o.cursor != "" then NormalizePrefix(o.cursor) else Ok(o.cursor);
      if cursor.Err? then Err(BadPath(cursor.error))
      else if o.delimiter != "" && o.delimiter != [SLASH] then Err(BadDelimiter)
      else
        var limit := if o.limit == 0 then DEFAULT_LIMIT else o.limit;
        if limit < 1 || limit > MAXIMUM_LIMIT then Err(BadLimit)
        else Ok(ListOptions(prefix.value, cursor.value, o.delimiter, limit))
  }

  /** Options are accepted exactly when their texts are portable and their
      delimiter and limit are allowed; what they give, gives itself. */
  lemma OptionsIdempotent(o: ListOptions)
    ensures NormalizeOptions(o).Ok? <==>
              Portable(o.prefix) && Portable(o.cursor) && o.delimiter in {"", [SLASH]} && 0 <= o.limit <= MAXIMUM_LIMIT
    ensures NormalizeOptions(o).Ok? ==>
              var r := NormalizeOptions(o).value; NormalizeOptions(r) == Ok(r) && 1 <= r.limit <= MAXIMUM_LIMIT
  {
    PrefixForm(o.prefix);
    PrefixForm(o.cursor);
    NothingNamed();
    if NormalizeOptions(o).Ok? {
      PrefixIdempotent(o.prefix);
      if o.cursor != "" { PrefixIdempotent(o.cursor); }
    }
  }
}
