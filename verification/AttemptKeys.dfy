/** The keys of authentication attempt counters
    (server/app/authentication_attempt.go). A digest is represented by the bytes
    that are hashed. */
module AttemptKeys {
  import opened Outcomes

  type Byte = b: int | 0 <= b < 256
  type Bytes = seq<Byte>

  const MAXIMUM_IDENTITY := 4096
  const MAXIMUM_SOURCE := 4096
  const MAXIMUM_QUALIFIER := 256

  /** Purposes are the bytes 1 to 10. */
  const LOCAL_LOGIN: Byte := 1
  predicate ValidPurpose(p: Byte) { 1 <= p <= 10 }

  const IDENTITY_SOURCE: Byte := 1
  const IDENTITY: Byte := 2
  const SOURCE: Byte := 3
  const ACCOUNT_FAILURE: Byte := 4
  predicate ValidDimension(d: Byte) { 1 <= d <= 4 }

  /** strings.TrimSpace, strings.ToLower, and the host of net.SplitHostPort when
      it succeeds. */
  datatype Library = Library(trim: Bytes -> Bytes, lower: Bytes -> Bytes, host: Bytes -> Option<Bytes>)

  /** Lower casing maps each byte of input to at most three of output. */
  ghost predicate Bounded(lib: Library) {
    && (forall s :: |lib.trim(s)| <= |s|)
    && (forall s :: |lib.lower(s)| <= 3 * |s|)
    && (forall s :: lib.host(s).Some? ==> |lib.host(s).value| <= |s|)
  }

  /** "unknown". */
  const UNKNOWN: Bytes := [117, 110, 107, 110, 111, 119, 110]

  function NormalIdentity(lib: Library, identity: Bytes): Bytes { lib.lower(lib.trim(identity)) }

  function NormalSource(lib: Library, source: Bytes): Bytes {
    var s := lib.trim(source);
    var host := lib.host(s);
    if host.Some? then lib.lower(host.value)
    else if s == [] then UNKNOWN
    else lib.lower(s)
  }

  /** A source with a port counts as its host, one without as its text, and an
      empty one as unknown. */
  lemma SourceMeaning(lib: Library, source: Bytes, other: Bytes)
    ensures var s, t := lib.trim(source), lib.trim(other);
            && (lib.host(s).Some? && lib.host(s) == lib.host(t) ==> NormalSource(lib, source) == NormalSource(lib, other))
            && (lib.host(s).Some? ==> NormalSource(lib, source) == lib.lower(lib.host(s).value))
            && (lib.host(s).None? && s != [] ==> NormalSource(lib, source) == NormalIdentity(lib, source))
            && (lib.host(s).None? && s == [] ==> NormalSource(lib, source) == [117, 110, 107, 110, 111, 119, 110])
  {
  }

  /** What one counter counts. */
  datatype Subject = Subject(purpose: Byte, dimension: Byte, qualifier: Bytes, identity: Bytes, source: Bytes)

  predicate Admissible(s: Subject) {
    && ValidPurpose(s.purpose) && ValidDimension(s.dimension) && |s.qualifier| <= MAXIMUM_QUALIFIER
    && |s.identity| <= MAXIMUM_IDENTITY && |s.source| <= MAXIMUM_SOURCE
  }

  /** Normalised parts each dimension uses. */
  predicate UsesIdentity(d: Byte) { d == IDENTITY_SOURCE || d == IDENTITY || d == ACCOUNT_FAILURE }
  predicate UsesSource(d: Byte) { d == IDENTITY_SOURCE || d == SOURCE }

  function Parts(lib: Library, s: Subject): seq<Bytes> {
    [[s.purpose], [s.dimension], s.qualifier]
    + (if UsesIdentity(s.dimension) then [NormalIdentity(lib, s.identity)] else [])
    + (if UsesSource(s.dimension) then [NormalSource(lib, s.source)] else [])
  }

  // ----- length prefixes

  const WORD := 0x1_0000_0000

  /** The length as a 32-bit word, most significant byte first. */
  function Prefix(n: nat): (r: Bytes)
    ensures |r| == 4
  {
    var w := n % WORD;
    [w / 0x100_0000, w / 0x1_0000 % 256, w / 256 % 256, w % 256]
  }

  function Length(r: Bytes): nat
    requires |r| == 4
  {
    r[0] as int * 0x100_0000 + r[1] as int * 0x1_0000 + r[2] as int * 256 + r[3]
  }

  /** The prefix is exact for every length below four gibibytes, and only for
      those. */
  lemma PrefixExact(n: nat)
    ensures Length(Prefix(n)) == n % WORD
    ensures Length(Prefix(n)) == n <==> n < WORD
  {
    var w := n % WORD;
    assert w / 256 == w / 0x1_0000 * 256 + w / 256 % 256;
    assert w / 0x1_0000 == w / 0x100_0000 * 256 + w / 0x1_0000 % 256;
  }

  function AppendPart(input: Bytes, value: Bytes): Bytes { input + Prefix(|value|) + value }

  function Encode(parts: seq<Bytes>): Bytes {
    if parts == [] then [] else AppendPart(Encode(parts[..|parts| - 1]), parts[|parts| - 1])
  }

  /** Reads length-prefixed parts back. */
  function Decode(input: Bytes): Option<seq<Bytes>> {
    if input == [] then Some([])
    else if |input| < 4 || 4 + Length(input[..4]) > |input| then None
    else
      var end := 4 + Length(input[..4]);
      match Decode(input[end..])
      case None => None
      case Some(rest) => Some([input[4..end]] + rest)
  }

  lemma {:induction false} EncodeFirst(first: Bytes, rest: seq<Bytes>)
    ensures Encode([first] + rest) == Prefix(|first|) + first + Encode(rest)
  {
    var parts := [first] + rest;
    if rest == [] {
      assert parts[..0] == [] && Encode(parts) == AppendPart(Encode(parts[..0]), first);
    } else {
      var last := rest[|rest| - 1];
      EncodeFirst(first, rest[..|rest| - 1]);
      assert parts[..|parts| - 1] == [first] + rest[..|rest| - 1];
      assert Encode(parts) == AppendPart(Encode(parts[..|parts| - 1]), last);
    }
  }

  lemma {:induction false} DecodeOfEncode(parts: seq<Bytes>)
    requires forall p :: p in parts ==> |p| < WORD
    ensures Decode(Encode(parts)) == Some(parts)
  {
    if parts != [] {
      var first, rest := parts[0], parts[1..];
      assert parts == [first] + rest;
      EncodeFirst(first, rest);
      DecodeOfEncode(rest);
      PrefixExact(|first|);
      var input, head := Encode(parts), Prefix(|first|);
      assert input == head + first + Encode(rest);
      assert input[..4] == head && input[4..4 + |first|] == first && input[4 + |first|..] == Encode(rest);
    }
  }

  // ----- keys

  /** The input of digestAuthenticationAttempt's hash. */
  function Key(lib: Library, s: Subject): Bytes { Encode(Parts(lib, s)) }

  predicate SameCounter(lib: Library, x: Subject, y: Subject) {
    && x.purpose == y.purpose && x.dimension == y.dimension && x.qualifier == y.qualifier
    && (UsesIdentity(x.dimension) ==> NormalIdentity(lib, x.identity) == NormalIdentity(lib, y.identity))
    && (UsesSource(x.dimension) ==> NormalSource(lib, x.source) == NormalSource(lib, y.source))
  }

  lemma PartsAreShort(lib: Library, s: Subject)
    requires Bounded(lib) && Admissible(s)
    ensures forall p :: p in Parts(lib, s) ==> |p| < WORD
  {
    assert |lib.trim(s.identity)| <= |s.identity| && |lib.trim(s.source)| <= |s.source|;
  }

  /** Two admissible subjects share a key exactly when their purpose, dimension,
      qualifier and every normalised part the dimension uses are equal. */
  lemma KeyExact(lib: Library, x: Subject, y: Subject)
    requires Bounded(lib) && Admissible(x) && Admissible(y)
    ensures Key(lib, x) == Key(lib, y) <==> SameCounter(lib, x, y)
  {
    PartsAreShort(lib, x);
    PartsAreShort(lib, y);
    var p, q := Parts(lib, x), Parts(lib, y);
    if Key(lib, x) == Key(lib, y) {
      DecodeOfEncode(p);
      DecodeOfEncode(q);
      assert p == q;
      assert [x.purpose] == p[0] == q[0] == [y.purpose] && [x.dimension] == p[1] == q[1] == [y.dimension] && p[2] == q[2];
      assert [x.purpose][0] == [y.purpose][0] && [x.dimension][0] == [y.dimension][0];
      assert p[3] == q[3] && (|p| > 4 ==> p[4] == q[4]);
    }
  }
}
