/** Desktop build compatibility (server/app/desktop_compatibility.go): the build
    catalog, the staged check of a declared build, and the build an attempt
    resolves to. */
module DesktopCompat {
  import opened Outcomes
  import opened DesktopRelease
  import Sorting
  import Text

  const MAXIMUM_REVOKED := 256
  const MAXIMUM_BUILD_ID := 128

  /** One catalog entry. Its fingerprints and native agreement matter only for
      whether they are in order. */
  datatype Build = Build(
    release: string, id: string, platform: string, architecture: string, protocol: int, attested: bool)

  /** The institution's policy; settled stands for the checks of its identity,
      times, message and availability. */
  datatype Policy = Policy(revision: int, minimum: string, revoked: seq<string>, ready: bool, settled: bool)

  datatype Query = Query(release: string, id: string, platform: string, architecture: string, protocol: int)

  predicate IsAlphanumeric(c: char) { IsDigit(c) || 'A' <= c <= 'Z' || 'a' <= c <= 'z' }

  predicate ValidBuildId(id: string) {
    0 < |id| <= MAXIMUM_BUILD_ID && IsAlphanumeric(id[0])
    && forall i :: 0 <= i < |id| ==> IsAlphanumeric(id[i]) || id[i] in "._-"
  }

  predicate IsSelectorStart(c: char) { IsDigit(c) || 'a' <= c <= 'z' }

  predicate ValidSelector(s: string) {
    0 < |s| <= 32 && IsSelectorStart(s[0]) && forall i :: 0 <= i < |s| ==> IsSelectorStart(s[i]) || s[i] in "_-"
  }

  predicate ValidRelease(value: string) { Parse(value).Some? }

  predicate ValidBuild(b: Build) {
    && ValidRelease(b.release) && ValidBuildId(b.id) && b.platform in {"darwin", "win32", "linux"}
    && b.architecture in {"arm64", "x64"} && b.protocol >= 1 && b.attested
  }

  predicate ValidQuery(q: Query) {
    ValidRelease(q.release) && ValidBuildId(q.id) && ValidSelector(q.platform) && ValidSelector(q.architecture) && q.protocol > 0
  }

  ghost predicate ValidPolicy(p: Policy) {
    && p.settled && (p.minimum != "" ==> ValidRelease(p.minimum)) && |p.revoked| <= MAXIMUM_REVOKED
    && (forall i :: 0 <= i < |p.revoked| ==> ValidBuildId(p.revoked[i])) && Text.StrictlySorted(p.revoked)
  }

  /** One character of the first class, then any number of the second. */
  ghost predicate Matches(first: char -> bool, rest: char -> bool, s: string) {
    exists c, tail :: s == [c] + tail && first(c) && forall x :: x in tail ==> rest(x)
  }

  lemma MatchesExactly(first: char -> bool, rest: char -> bool, s: string)
    ensures Matches(first, rest, s) <==> s != "" && first(s[0]) && forall i :: 0 < i < |s| ==> rest(s[i])
  {
    if s != "" && first(s[0]) && forall i :: 0 < i < |s| ==> rest(s[i]) {
      assert s == [s[0]] + s[1..];
      forall x | x in s[1..] ensures rest(x) {
        var i :| 0 <= i < |s[1..]| && s[1..][i] == x;
        assert s[i + 1] == x;
      }
    }
  }

  predicate Lower(c: char) { 'a' <= c <= 'z' || '0' <= c <= '9' }

  predicate Plain(c: char) { Lower(c) || 'A' <= c <= 'Z' }

  predicate SelectorChar(c: char) { Lower(c) || c == '_' || c == '-' }

  predicate BuildChar(c: char) { Plain(c) || c == '.' || c == '_' || c == '-' }

  /** A build identifier: a letter or digit, then letters, digits, dots, underscores
      and hyphens, at most 128 in all. */
  lemma BuildIdExactly(id: string)
    ensures ValidBuildId(id) <==> |id| <= 128 && Matches(Plain, BuildChar, id)
  {
    MatchesExactly(Plain, BuildChar, id);
  }

  /** A target selector: a lower-case letter or digit, then those, underscores and
      hyphens, at most 32 in all. */
  lemma SelectorExactly(s: string)
    ensures ValidSelector(s) <==> |s| <= 32 && Matches(Lower, SelectorChar, s)
  {
    MatchesExactly(Lower, SelectorChar, s);
  }

  /** A query is valid exactly with a version, a build identifier, two selectors and
      a positive protocol; a catalog entry exactly with a known platform and
      architecture instead, and attested. */
  lemma ValidExactly(q: Query, b: Build)
    ensures ValidQuery(q) <==>
              && |q.release| <= 64 && (exists v :: IsVersion(v) && Print(v) == q.release)
              && |q.id| <= 128 && Matches(Plain, BuildChar, q.id)
              && |q.platform| <= 32 && Matches(Lower, SelectorChar, q.platform)
              && |q.architecture| <= 32 && Matches(Lower, SelectorChar, q.architecture) && q.protocol >= 1
    ensures ValidBuild(b) <==>
              && |b.release| <= 64 && (exists v :: IsVersion(v) && Print(v) == b.release)
              && |b.id| <= 128 && Matches(Plain, BuildChar, b.id)
              && (b.platform == "linux" || b.platform == "darwin" || b.platform == "win32")
              && (b.architecture == "x64" || b.architecture == "arm64") && b.protocol > 0 && b.attested
  {
    ParseExactly(q.release);
    ParseExactly(b.release);
    BuildIdExactly(q.id);
    BuildIdExactly(b.id);
    SelectorExactly(q.platform);
    SelectorExactly(q.architecture);
  }

  /** The comparison as the callers use it, with its error dropped. */
  function Cmp(a: string, b: string): int {
    match Compare(a, b)
    case Some(c) => c
    case None => 0
  }

  lemma CmpOrder(a: string, b: string, c: string)
    requires ValidRelease(a) && ValidRelease(b) && ValidRelease(c)
    ensures Cmp(a, b) == -Cmp(b, a) && Cmp(a, a) == 0 && -1 <= Cmp(a, b) <= 1
    ensures Cmp(a, b) <= 0 && Cmp(b, c) <= 0 ==> Cmp(a, c) <= 0
    ensures Cmp(a, b) < 0 && Cmp(b, c) <= 0 ==> Cmp(a, c) < 0
    ensures Cmp(a, b) <= 0 && Cmp(b, c) < 0 ==> Cmp(a, c) < 0
  {
    var x, y, z := Parse(a).value, Parse(b).value, Parse(c).value;
    ReleaseSign(x, y);
    ReleaseSign(y, z);
    ReleaseSign(x, z);
    ReleaseSign(x, x);
    if Cmp(a, b) <= 0 && Cmp(b, c) <= 0 {
      ReleaseTransitive(x, y, z);
    }
  }

  // ----- the catalog

  /** The signs of a total preorder at a, b and c. */
  predicate Consistent(ab: int, bc: int, ac: int) {
    && (ab <= 0 && bc <= 0 ==> ac <= 0) && (ab >= 0 && bc >= 0 ==> ac >= 0)
    && ((ab < 0 && bc <= 0) || (ab <= 0 && bc < 0) ==> ac < 0) && ((ab > 0 && bc >= 0) || (ab >= 0 && bc > 0) ==> ac > 0)
  }

  function Then(first: int, second: int): int { if first != 0 then first else second }

  /** The order of the catalog: target, release, identifier. */
  function Order(a: Build, b: Build): int {
    Then(CompareText(a.platform, b.platform),
         Then(CompareText(a.architecture, b.architecture), Then(Cmp(a.release, b.release), CompareText(a.id, b.id))))
  }

  predicate Before(a: Build, b: Build) {
    if a.platform != b.platform then Text.Less(a.platform, b.platform)
    else if a.architecture != b.architecture then Text.Less(a.architecture, b.architecture)
    else if Cmp(a.release, b.release) != 0 then Cmp(a.release, b.release) < 0
    else Text.Less(a.id, b.id)
  }

  lemma BeforeIsOrder(a: Build, b: Build)
    ensures Before(a, b) <==> Order(a, b) < 0
  {
    Text.LessTrichotomy(a.platform, b.platform);
    Text.LessTrichotomy(a.architecture, b.architecture);
    Text.LessTrichotomy(a.id, b.id);
  }

  lemma TextConsistent(a: string, b: string, c: string)
    ensures CompareText(a, b) == -CompareText(b, a) && Consistent(CompareText(a, b), CompareText(b, c), CompareText(a, c))
  {
    TextIsComparison();
    assert CompareText(c, b) == -CompareText(b, c) && CompareText(c, a) == -CompareText(a, c);
  }

  lemma ReleaseConsistent(a: string, b: string, c: string)
    requires ValidRelease(a) && ValidRelease(b) && ValidRelease(c)
    ensures Cmp(a, b) == -Cmp(b, a) && Consistent(Cmp(a, b), Cmp(b, c), Cmp(a, c))
  {
    CmpOrder(a, b, c);
    CmpOrder(c, b, a);
    CmpOrder(b, c, a);
    CmpOrder(a, c, b);
  }

  lemma OrderConsistent(a: Build, b: Build, c: Build)
    requires ValidRelease(a.release) && ValidRelease(b.release) && ValidRelease(c.release)
    ensures Order(a, b) == -Order(b, a) && Consistent(Order(a, b), Order(b, c), Order(a, c))
  {
    TextConsistent(a.platform, b.platform, c.platform);
    TextConsistent(a.architecture, b.architecture, c.architecture);
    ReleaseConsistent(a.release, b.release, c.release);
    TextConsistent(a.id, b.id, c.id);
  }

  lemma BeforeIsWeak(a: Build, b: Build, c: Build)
    requires ValidRelease(a.release) && ValidRelease(b.release) && ValidRelease(c.release)
    ensures Before(a, b) ==> !Before(b, a)
    ensures Before(a, c) ==> Before(a, b) || Before(b, c)
  {
    OrderConsistent(a, b, c);
    BeforeIsOrder(a, b);
    BeforeIsOrder(b, a);
    BeforeIsOrder(b, c);
    BeforeIsOrder(a, c);
  }

  ghost predicate Accepted(valid: Build -> bool, builds: seq<Build>) {
    && (forall i :: 0 <= i < |builds| ==> valid(builds[i]))
    && (forall i, j :: 0 <= i < j < |builds| ==> builds[i].id != builds[j].id)
  }

  method CheckBuilds(valid: Build -> bool, builds: seq<Build>) returns (ok: bool)
    ensures ok <==> Accepted(valid, builds)
  {
    var seen: set<string> := {};
    for i := 0 to |builds|
      invariant forall id :: id in seen <==> exists j :: 0 <= j < i && builds[j].id == id
      invariant forall j :: 0 <= j < i ==> valid(builds[j])
      invariant forall j, k :: 0 <= j < k < i ==> builds[j].id != builds[k].id
    {
      var entry := builds[i];
      if !valid(entry) { return false; }
      if entry.id in seen { return false; }
      seen := seen + {entry.id};
    }
    return true;
  }

  lemma AcceptedIsWeak(builds: seq<Build>)
    requires Accepted(ValidBuild, builds)
    ensures Sorting.StrictWeakAmong(Before, builds)
  {
    forall a, b | a in builds && b in builds && Before(a, b) ensures !Before(b, a) {
      assert ValidBuild(a) && ValidBuild(b);
      BeforeIsWeak(a, b, b);
    }
    forall a, b, c | a in builds && b in builds && c in builds && Before(a, c) ensures Before(a, b) || Before(b, c) {
      assert ValidBuild(a) && ValidBuild(b) && ValidBuild(c);
      BeforeIsWeak(a, b, c);
    }
  }

  /** newDesktopBuildCatalog: accepts exactly valid builds with distinct
      identifiers, and keeps them all, in order. */
  method NewCatalog(builds: seq<Build>) returns (r: Option<seq<Build>>)
    ensures r.Some? <==> Accepted(ValidBuild, builds)
    ensures r.Some? ==> multiset(r.value) == multiset(builds) && Sorting.Sorted(Before, r.value)
  {
    var ok := CheckBuilds(ValidBuild, builds);
    if !ok { return None; }
    AcceptedIsWeak(builds);
    var sorted := Sorting.Sort(Before, builds, (_, _) => true);
    return Some(sorted);
  }

  // ----- the check

  datatype Reason =
    | Compatible | UnsupportedTarget | ReleaseTooOld | ReleaseTooNew | ProtocolTooOld | ProtocolTooNew
    | BuildRevoked | BuildUnrecognized

  datatype Refusal = RequestInvalid | PolicyUnavailable

  predicate Target(b: Build, q: Query) { b.platform == q.platform && b.architecture == q.architecture }

  predicate Exact(b: Build, q: Query) { Target(b, q) && b.id == q.id && b.release == q.release && b.protocol == q.protocol }

  predicate BelowMinimum(p: Policy, release: string) { p.minimum != "" && Cmp(release, p.minimum) < 0 }

  /** What the catalog's builds for the target and the policy say of a build. */
  datatype Facts = Facts(
    target: bool, tooOld: bool, tooNew: bool, protocolOld: bool, protocolNew: bool, revoked: bool, exact: bool)

  ghost function FactsOf(entries: seq<Build>, p: Policy, q: Query): Facts {
    Facts(exists b :: b in entries && Target(b, q),
          BelowMinimum(p, q.release) || forall b :: b in entries && Target(b, q) ==> Cmp(q.release, b.release) < 0,
          forall b :: b in entries && Target(b, q) ==> Cmp(q.release, b.release) > 0,
          forall b :: b in entries && Target(b, q) ==> q.protocol < b.protocol,
          forall b :: b in entries && Target(b, q) ==> q.protocol > b.protocol,
          q.id in p.revoked,
          exists b :: b in entries && Exact(b, q))
  }

  /** The stages, in order. */
  function Decide(f: Facts): Reason {
    if !f.target then UnsupportedTarget
    else if f.tooOld then ReleaseTooOld
    else if f.tooNew then ReleaseTooNew
    else if f.protocolOld then ProtocolTooOld
    else if f.protocolNew then ProtocolTooNew
    else if f.revoked then BuildRevoked
    else if f.exact then Compatible
    else BuildUnrecognized
  }

  ghost function Expected(entries: seq<Build>, p: Policy, q: Query): Reason { Decide(FactsOf(entries, p, q)) }

  /** The simple predicate: the catalog holds the exact build, at or above the
      policy's minimum, and the policy has not revoked it. */
  ghost predicate Allowed(entries: seq<Build>, p: Policy, q: Query) {
    (exists b :: b in entries && Exact(b, q)) && !BelowMinimum(p, q.release) && q.id !in p.revoked
  }

  lemma CompatibleExactly(entries: seq<Build>, p: Policy, q: Query)
    requires ValidQuery(q)
    ensures Expected(entries, p, q) == Compatible <==> Allowed(entries, p, q)
  {
    CmpOrder(q.release, q.release, q.release);
    if Allowed(entries, p, q) {
      var b :| b in entries && Exact(b, q);
      assert Target(b, q) && Cmp(q.release, b.release) == 0;
    }
  }

  /** Strictly before in semantic precedence. */
  ghost predicate Earlier(a: string, b: string) {
    ValidRelease(a) && ValidRelease(b) && Precedes(Parse(a).value, Parse(b).value)
  }

  lemma CmpIsPrecedence(a: string, b: string)
    requires ValidRelease(a) && ValidRelease(b)
    ensures (Cmp(a, b) < 0 <==> Earlier(a, b)) && (Cmp(a, b) > 0 <==> Earlier(b, a))
  {
    CompareExactly(a, b);
    CompareExactly(b, a);
    CmpOrder(a, b, a);
  }

  /** A build of the catalog for the declared platform and architecture. */
  predicate ForTarget(entries: seq<Build>, q: Query, b: Build) {
    b in entries && b.platform == q.platform && b.architecture == q.architecture
  }

  /** What each reason means, over the catalog's builds for the target and the
      policy; the first that applies is given. */
  ghost predicate ReasonHolds(entries: seq<Build>, p: Policy, q: Query, reason: Reason) {
    match reason
    case UnsupportedTarget => forall b :: !ForTarget(entries, q, b)
    case ReleaseTooOld =>
      (p.minimum != "" && Earlier(q.release, p.minimum)) || forall b :: ForTarget(entries, q, b) ==> Earlier(q.release, b.release)
    case ReleaseTooNew => forall b :: ForTarget(entries, q, b) ==> Earlier(b.release, q.release)
    case ProtocolTooOld => forall b :: ForTarget(entries, q, b) ==> q.protocol < b.protocol
    case ProtocolTooNew => forall b :: ForTarget(entries, q, b) ==> b.protocol < q.protocol
    case BuildRevoked => q.id in p.revoked
    case Compatible =>
      exists b :: ForTarget(entries, q, b) && b.id == q.id && b.release == q.release && b.protocol == q.protocol
    case BuildUnrecognized => true
  }

  /** The order in which the reasons are tried. */
  function Rank(reason: Reason): nat {
    match reason
    case UnsupportedTarget => 0 case ReleaseTooOld => 1 case ReleaseTooNew => 2 case ProtocolTooOld => 3
    case ProtocolTooNew => 4 case BuildRevoked => 5 case Compatible => 6 case BuildUnrecognized => 7
  }

  predicate Stated(f: Facts, reason: Reason) {
    match reason
    case UnsupportedTarget => !f.target
    case ReleaseTooOld => f.tooOld
    case ReleaseTooNew => f.tooNew
    case ProtocolTooOld => f.protocolOld
    case ProtocolTooNew => f.protocolNew
    case BuildRevoked => f.revoked
    case Compatible => f.exact
    case BuildUnrecognized => true
  }

  lemma DecideFirst(f: Facts)
    ensures Stated(f, Decide(f)) && forall earlier :: Rank(earlier) < Rank(Decide(f)) ==> !Stated(f, earlier)
  {
  }

  ghost predicate ReleasesValid(entries: seq<Build>, p: Policy, q: Query) {
    ValidRelease(q.release) && (p.minimum != "" ==> ValidRelease(p.minimum)) && forall b :: b in entries ==> ValidRelease(b.release)
  }

  lemma TooOldMeans(entries: seq<Build>, p: Policy, q: Query)
    requires ReleasesValid(entries, p, q)
    ensures FactsOf(entries, p, q).tooOld <==> ReasonHolds(entries, p, q, ReleaseTooOld)
  {
    forall b | ForTarget(entries, q, b) ensures Cmp(q.release, b.release) < 0 <==> Earlier(q.release, b.release) {
      CmpIsPrecedence(q.release, b.release);
    }
    assert forall b :: ForTarget(entries, q, b) <==> b in entries && Target(b, q);
    if p.minimum != "" { CmpIsPrecedence(q.release, p.minimum); }
  }

  lemma TooNewMeans(entries: seq<Build>, p: Policy, q: Query)
    requires ReleasesValid(entries, p, q)
    ensures FactsOf(entries, p, q).tooNew <==> ReasonHolds(entries, p, q, ReleaseTooNew)
  {
    forall b | ForTarget(entries, q, b) ensures Cmp(q.release, b.release) > 0 <==> Earlier(b.release, q.release) {
      CmpIsPrecedence(q.release, b.release);
    }
    assert forall b :: ForTarget(entries, q, b) <==> b in entries && Target(b, q);
  }

  lemma ProtocolMeans(entries: seq<Build>, p: Policy, q: Query)
    ensures FactsOf(entries, p, q).protocolOld <==> ReasonHolds(entries, p, q, ProtocolTooOld)
    ensures FactsOf(entries, p, q).protocolNew <==> ReasonHolds(entries, p, q, ProtocolTooNew)
  {
    assert forall b :: ForTarget(entries, q, b) <==> b in entries && Target(b, q);
  }

  lemma PresenceMeans(entries: seq<Build>, p: Policy, q: Query)
    ensures !FactsOf(entries, p, q).target <==> ReasonHolds(entries, p, q, UnsupportedTarget)
    ensures FactsOf(entries, p, q).exact <==> ReasonHolds(entries, p, q, Compatible)
  {
    assert forall b :: ForTarget(entries, q, b) <==> b in entries && Target(b, q);
    if b :| b in entries && Exact(b, q) { assert ForTarget(entries, q, b); }
  }

  /** One fact at a time. */
  lemma FactMeans(entries: seq<Build>, p: Policy, q: Query, f: Facts, reason: Reason)
    requires ReleasesValid(entries, p, q) && f == FactsOf(entries, p, q)
    ensures Stated(f, reason) <==> ReasonHolds(entries, p, q, reason)
  {
    match reason
    case ReleaseTooOld => TooOldMeans(entries, p, q);
    case ReleaseTooNew => TooNewMeans(entries, p, q);
    case ProtocolTooOld | ProtocolTooNew => ProtocolMeans(entries, p, q);
    case UnsupportedTarget | Compatible => PresenceMeans(entries, p, q);
    case BuildRevoked | BuildUnrecognized =>
  }

  /** The check gives the first reason that holds. */
  lemma ReasonExactly(entries: seq<Build>, p: Policy, q: Query, reason: Reason)
    requires ReleasesValid(entries, p, q) && Expected(entries, p, q) == reason
    ensures ReasonHolds(entries, p, q, reason)
    ensures forall earlier :: Rank(earlier) < Rank(reason) ==> !ReasonHolds(entries, p, q, earlier)
  {
    var f := FactsOf(entries, p, q);
    DecideFirst(f);
    FactMeans(entries, p, q, f, reason);
    forall earlier | Rank(earlier) < Rank(reason) ensures !ReasonHolds(entries, p, q, earlier) {
      FactMeans(entries, p, q, f, earlier);
    }
  }

  /** At least as strict: the minimum is not lower and nothing is un-revoked. */
  ghost predicate Tightens(p: Policy, next: Policy) {
    && (p.minimum != "" ==> next.minimum != "" && Cmp(p.minimum, next.minimum) <= 0)
    && (forall id :: id in p.revoked ==> id in next.revoked)
  }

  lemma TighteningNeverAdds(entries: seq<Build>, p: Policy, next: Policy, q: Query)
    requires ValidQuery(q) && ValidPolicy(p) && ValidPolicy(next) && Tightens(p, next)
    requires Expected(entries, next, q) == Compatible
    ensures Expected(entries, p, q) == Compatible
  {
    CompatibleExactly(entries, p, q);
    CompatibleExactly(entries, next, q);
    if p.minimum != "" {
      CmpOrder(p.minimum, next.minimum, q.release);
      CmpOrder(q.release, p.minimum, next.minimum);
    }
  }

  // ----- its loops

  method ValidateRevoked(revoked: seq<string>) returns (ok: bool)
    ensures ok <==> (forall i :: 0 <= i < |revoked| ==> ValidBuildId(revoked[i])) && Text.StrictlySorted(revoked)
  {
    var previous := "";
    for i := 0 to |revoked|
      invariant previous == if i == 0 then "" else revoked[i - 1]
      invariant forall j :: 0 <= j < i ==> ValidBuildId(revoked[j])
      invariant Text.StrictlySorted(revoked[..i])
    {
      if !ValidBuildId(revoked[i]) || !Text.Less(previous, revoked[i]) {
        if i > 0 && Text.StrictlySorted(revoked) { assert Text.Less(revoked[i - 1], revoked[i]); }
        return false;
      }
      forall j | 0 <= j < i ensures Text.Less(revoked[j], revoked[i]) {
        if j < i - 1 { Text.LessTransitive(revoked[..i][j], revoked[..i][i - 1], revoked[i]); }
      }
      previous := revoked[i];
    }
    assert revoked[..|revoked|] == revoked;
    return true;
  }

  /** A policy is valid exactly when it is settled, its minimum is empty or a
      release, and at most 256 revoked builds each follow the one before. */
  lemma PolicyExactly(p: Policy)
    ensures ValidPolicy(p) <==>
              && p.settled && (p.minimum == "" || Parse(p.minimum).Some?) && |p.revoked| <= 256
              && (forall i :: 0 <= i < |p.revoked| ==> ValidBuildId(p.revoked[i]))
              && (forall i :: 0 < i < |p.revoked| ==> Text.Less(p.revoked[i - 1], p.revoked[i]))
  {
    if forall i :: 0 < i < |p.revoked| ==> Text.Less(p.revoked[i - 1], p.revoked[i]) {
      forall i, j | 0 <= i < j < |p.revoked| ensures Text.Less(p.revoked[i], p.revoked[j]) { StepsAdd(p.revoked, i, j); }
    }
    if Text.StrictlySorted(p.revoked) {
      forall i | 0 < i < |p.revoked| ensures Text.Less(p.revoked[i - 1], p.revoked[i]) { }
    }
  }

  lemma {:induction false} StepsAdd(s: seq<string>, i: nat, j: nat)
    requires forall k :: 0 < k < |s| ==> Text.Less(s[k - 1], s[k])
    requires i < j < |s|
    ensures Text.Less(s[i], s[j])
  {
    assert Text.Less(s[j - 1], s[j]);
    if i < j - 1 {
      StepsAdd(s, i, j - 1);
      Text.LessTransitive(s[i], s[j - 1], s[j]);
    }
  }

  method ValidatePolicy(p: Policy) returns (ok: bool)
    ensures ok <==> ValidPolicy(p)
  {
    if !p.settled { return false; }
    if p.minimum != "" && !ValidRelease(p.minimum) { return false; }
    if |p.revoked| > MAXIMUM_REVOKED { return false; }
    ok := ValidateRevoked(p.revoked);
  }

  /** slices.BinarySearch. */
  method BinarySearch(s: seq<string>, target: string) returns (found: bool)
    requires Text.StrictlySorted(s)
    ensures found <==> target in s
  {
    var lo, hi := 0, |s|;
    while lo < hi
      invariant 0 <= lo <= hi <= |s|
      invariant forall i :: 0 <= i < lo ==> Text.Less(s[i], target)
      invariant forall i :: hi <= i < |s| ==> !Text.Less(s[i], target)
    {
      var mid := (lo + hi) / 2;
      if Text.Less(s[mid], target) {
        forall i | 0 <= i < mid ensures Text.Less(s[i], target) { Text.LessTransitive(s[i], s[mid], target); }
        lo := mid + 1;
      } else {
        forall i | mid < i < |s| ensures !Text.Less(s[i], target) {
          if Text.Less(s[i], target) { Text.LessTransitive(s[mid], s[i], target); }
        }
        hi := mid;
      }
    }
    found := lo < |s| && s[lo] == target;
    forall i | 0 <= i < |s| && s[i] == target ensures i == lo { SearchEnds(s, target, lo, i); }
  }

  lemma SearchEnds(s: seq<string>, target: string, lo: nat, i: nat)
    requires Text.StrictlySorted(s) && lo <= |s| && i < |s| && s[i] == target
    requires forall k :: 0 <= k < lo ==> Text.Less(s[k], target)
    requires forall k :: lo <= k < |s| ==> !Text.Less(s[k], target)
    ensures i == lo
  {
    Text.LessTrichotomy(target, target);
    var next := if lo < |s| then s[lo] else target;
  }

  method Matching(entries: seq<Build>, q: Query) returns (r: seq<Build>)
    ensures forall b :: b in r <==> b in entries && Target(b, q)
  {
    r := [];
    for i := 0 to |entries|
      invariant forall b :: b in r <==> b in entries[..i] && Target(b, q)
    {
      assert entries[..i + 1] == entries[..i] + [entries[i]];
      if Target(entries[i], q) { r := r + [entries[i]]; }
    }
    assert entries[..|entries|] == entries;
  }

  datatype Bounds = Bounds(minimumRelease: string, maximumRelease: string, minimumProtocol: int, maximumProtocol: int)

  /** A release of some build, and none comes before it. */
  ghost predicate IsLeast(cmp: (string, string) -> int, entries: seq<Build>, release: string) {
    (exists b :: b in entries && b.release == release) && forall b :: b in entries ==> cmp(release, b.release) <= 0
  }

  function Reversed(): (string, string) -> int { (a, b) => Cmp(b, a) }

  ghost predicate ProtocolBounds(entries: seq<Build>, lo: int, hi: int) {
    && (exists b :: b in entries && b.protocol == lo) && (exists b :: b in entries && b.protocol == hi)
    && (forall b :: b in entries ==> lo <= b.protocol <= hi)
  }

  /** Attained by some build, and passed by none. */
  ghost predicate IsBounds(entries: seq<Build>, r: Bounds) {
    && IsLeast(Cmp, entries, r.minimumRelease) && IsLeast(Reversed(), entries, r.maximumRelease)
    && ProtocolBounds(entries, r.minimumProtocol, r.maximumProtocol)
  }

  lemma LeastStep(cmp: (string, string) -> int, entries: seq<Build>, r: string, b: Build)
    requires IsLeast(cmp, entries, r) && cmp(b.release, b.release) <= 0 && (cmp(b.release, r) >= 0 ==> cmp(r, b.release) <= 0)
    requires cmp(b.release, r) < 0 ==> forall e :: e in entries ==> cmp(b.release, e.release) <= 0
    ensures IsLeast(cmp, entries + [b], if cmp(b.release, r) < 0 then b.release else r)
  {
    var least :| least in entries && least.release == r;
    assert least in entries + [b] && b in entries + [b];
  }

  lemma ReleaseBoundsStep(entries: seq<Build>, lo: string, hi: string, b: Build)
    requires (forall e :: e in entries ==> ValidBuild(e)) && ValidBuild(b)
    requires IsLeast(Cmp, entries, lo) && IsLeast(Reversed(), entries, hi)
    ensures IsLeast(Cmp, entries + [b], if Cmp(b.release, lo) < 0 then b.release else lo)
    ensures IsLeast(Reversed(), entries + [b], if Cmp(b.release, hi) > 0 then b.release else hi)
  {
    var low :| low in entries && low.release == lo;
    var high :| high in entries && high.release == hi;
    assert ValidBuild(low) && ValidBuild(high);
    ReleaseConsistent(b.release, lo, b.release);
    ReleaseConsistent(b.release, hi, b.release);
    CmpOrder(b.release, b.release, b.release);
    forall e | e in entries ensures Cmp(b.release, lo) < 0 ==> Cmp(b.release, e.release) <= 0 {
      assert ValidBuild(e);
      ReleaseConsistent(b.release, lo, e.release);
    }
    forall e | e in entries ensures Cmp(hi, b.release) < 0 ==> Cmp(e.release, b.release) <= 0 {
      assert ValidBuild(e) && Reversed()(hi, e.release) <= 0;
      ReleaseConsistent(e.release, hi, b.release);
    }
    LeastStep(Cmp, entries, lo, b);
    LeastStep(Reversed(), entries, hi, b);
  }

  lemma ProtocolBoundsStep(entries: seq<Build>, lo: int, hi: int, b: Build)
    requires ProtocolBounds(entries, lo, hi)
    ensures ProtocolBounds(entries + [b], if b.protocol < lo then b.protocol else lo, if b.protocol > hi then b.protocol else hi)
  {
    var slow :| slow in entries && slow.protocol == lo;
    var fast :| fast in entries && fast.protocol == hi;
    assert slow in entries + [b] && fast in entries + [b] && b in entries + [b];
  }

  function Widen(cmp: (string, string) -> int, r: Bounds, b: Build): Bounds {
    Bounds(if cmp(b.release, r.minimumRelease) < 0 then b.release else r.minimumRelease,
           if cmp(b.release, r.maximumRelease) > 0 then b.release else r.maximumRelease,
           if b.protocol < r.minimumProtocol then b.protocol else r.minimumProtocol,
           if b.protocol > r.maximumProtocol then b.protocol else r.maximumProtocol)
  }

  function Single(b: Build): Bounds { Bounds(b.release, b.release, b.protocol, b.protocol) }

  /** The bounds of the builds, for any notion of bounds that widening keeps. */
  method Bound(cmp: (string, string) -> int, entries: seq<Build>, ghost ok: (seq<Build>, Bounds) -> bool) returns (r: Bounds)
    requires entries != [] && ok([entries[0]], Single(entries[0]))
    requires forall before, r, b :: b in entries && ok(before, r) ==> ok(before + [b], Widen(cmp, r, b))
    ensures ok(entries, r)
  {
    r := Single(entries[0]);
    assert entries[..1] == [entries[0]];
    for i := 1 to |entries|
      invariant ok(entries[..i], r)
    {
      var entry, next := entries[i], r;
      if cmp(entry.release, next.minimumRelease) < 0 { next := next.(minimumRelease := entry.release); }
      if cmp(entry.release, next.maximumRelease) > 0 { next := next.(maximumRelease := entry.release); }
      if entry.protocol < next.minimumProtocol { next := next.(minimumProtocol := entry.protocol); }
      if entry.protocol > next.maximumProtocol { next := next.(maximumProtocol := entry.protocol); }
      assert next == Widen(cmp, r, entry) && ok(entries[..i] + [entry], next);
      assert entries[..i + 1] == entries[..i] + [entry];
      r := next;
    }
    assert entries[..|entries|] == entries;
  }

  lemma BoundsStart(b: Build)
    requires ValidBuild(b)
    ensures IsBounds([b], Single(b))
  {
    CmpOrder(b.release, b.release, b.release);
    assert b in [b];
  }

  lemma BoundsStep(entries: seq<Build>, r: Bounds, b: Build)
    requires (forall e :: e in entries ==> ValidBuild(e)) && ValidBuild(b) && IsBounds(entries, r)
    ensures IsBounds(entries + [b], Widen(Cmp, r, b))
  {
    ReleaseBoundsStep(entries, r.minimumRelease, r.maximumRelease, b);
    ProtocolBoundsStep(entries, r.minimumProtocol, r.maximumProtocol, b);
  }

  ghost predicate ValidBounds(entries: seq<Build>, r: Bounds) {
    (forall b :: b in entries ==> ValidBuild(b)) && IsBounds(entries, r)
  }

  lemma ValidBoundsStep(before: seq<Build>, r: Bounds, b: Build)
    requires ValidBounds(before, r) && ValidBuild(b)
    ensures ValidBounds(before + [b], Widen(Cmp, r, b))
  {
    BoundsStep(before, r, b);
  }

  /** desktopCompatibilityBounds, before the policy raises the minimum. */
  method CatalogBounds(entries: seq<Build>) returns (r: Bounds)
    requires entries != [] && forall b :: b in entries ==> ValidBuild(b)
    ensures ValidBounds(entries, r)
  {
    BoundsStart(entries[0]);
    forall before, r, b | b in entries && ValidBounds(before, r) ensures ValidBounds(before + [b], Widen(Cmp, r, b)) {
      ValidBoundsStep(before, r, b);
    }
    r := Bound(Cmp, entries, ValidBounds);
  }

  function Minimum(p: Policy, r: Bounds): string {
    if p.minimum != "" && Cmp(p.minimum, r.minimumRelease) > 0 then p.minimum else r.minimumRelease
  }

  /** Testing against the bounds is testing against every build. */
  lemma ReleasesDecided(matching: seq<Build>, r: Bounds, release: string)
    requires ValidBounds(matching, r) && ValidRelease(release)
    ensures Cmp(release, r.minimumRelease) < 0 <==> forall b :: b in matching ==> Cmp(release, b.release) < 0
    ensures Cmp(release, r.maximumRelease) > 0 <==> forall b :: b in matching ==> Cmp(release, b.release) > 0
  {
    var low :| low in matching && low.release == r.minimumRelease;
    var high :| high in matching && high.release == r.maximumRelease;
    forall b | b in matching
      ensures Cmp(release, r.minimumRelease) < 0 ==> Cmp(release, b.release) < 0
      ensures Cmp(release, r.maximumRelease) > 0 ==> Cmp(release, b.release) > 0
    {
      assert ValidBuild(b) && Reversed()(r.maximumRelease, b.release) <= 0;
      ReleaseConsistent(release, r.minimumRelease, b.release);
      ReleaseConsistent(release, r.maximumRelease, b.release);
      ReleaseConsistent(r.maximumRelease, b.release, release);
    }
  }

  lemma ProtocolsDecided(matching: seq<Build>, r: Bounds, protocol: int)
    requires ProtocolBounds(matching, r.minimumProtocol, r.maximumProtocol)
    ensures protocol < r.minimumProtocol <==> forall b :: b in matching ==> protocol < b.protocol
    ensures protocol > r.maximumProtocol <==> forall b :: b in matching ==> protocol > b.protocol
  {
  }

  lemma MinimumDecided(p: Policy, r: Bounds, release: string)
    requires ValidRelease(release) && ValidRelease(r.minimumRelease) && (p.minimum != "" ==> ValidRelease(p.minimum))
    ensures Cmp(release, Minimum(p, r)) < 0 <==> BelowMinimum(p, release) || Cmp(release, r.minimumRelease) < 0
  {
    if p.minimum != "" {
      ReleaseConsistent(release, p.minimum, r.minimumRelease);
      ReleaseConsistent(p.minimum, r.minimumRelease, release);
    }
  }

  lemma BoundsDecide(matching: seq<Build>, p: Policy, r: Bounds, q: Query)
    requires (forall b :: b in matching ==> Target(b, q)) && ValidBounds(matching, r) && ValidQuery(q) && ValidPolicy(p)
    ensures var f := FactsOf(matching, p, q);
            && f.tooOld == (Cmp(q.release, Minimum(p, r)) < 0) && f.tooNew == (Cmp(q.release, r.maximumRelease) > 0)
            && f.protocolOld == (q.protocol < r.minimumProtocol) && f.protocolNew == (q.protocol > r.maximumProtocol)
  {
    var low :| low in matching && low.release == r.minimumRelease;
    assert ValidBuild(low);
    MinimumDecided(p, r, q.release);
    ReleasesDecided(matching, r, q.release);
    ProtocolsDecided(matching, r, q.protocol);
  }

  /** Only the builds of the target matter. */
  lemma FactsOfMatching(entries: seq<Build>, matching: seq<Build>, p: Policy, q: Query)
    requires forall b :: b in matching <==> b in entries && Target(b, q)
    ensures FactsOf(entries, p, q) == FactsOf(matching, p, q)
  {
  }

  method TestBounds(p: Policy, bounds: Bounds, q: Query, ghost matching: seq<Build>) returns (r: Option<Reason>)
    requires (forall b :: b in matching ==> Target(b, q)) && ValidBounds(matching, bounds) && ValidQuery(q) && ValidPolicy(p)
    ensures var f := FactsOf(matching, p, q);
            if f.tooOld || f.tooNew || f.protocolOld || f.protocolNew then r == Some(Decide(f.(target := true))) else r == None
  {
    BoundsDecide(matching, p, bounds, q);
    if Cmp(q.release, Minimum(p, bounds)) < 0 { return Some(ReleaseTooOld); }
    if Cmp(q.release, bounds.maximumRelease) > 0 { return Some(ReleaseTooNew); }
    if q.protocol < bounds.minimumProtocol { return Some(ProtocolTooOld); }
    if q.protocol > bounds.maximumProtocol { return Some(ProtocolTooNew); }
    return None;
  }

  predicate SameTarget(q: Query, other: Query) { q.platform == other.platform && q.architecture == other.architecture }

  /** The bounds tell, of every build declared for the target, whether its
      release and its protocol are in range. */
  ghost predicate Tells(entries: seq<Build>, p: Policy, q: Query, r: Bounds) {
    forall other :: ValidQuery(other) && SameTarget(q, other) ==>
      var f := FactsOf(entries, p, other);
      && f.tooOld == (Cmp(other.release, r.minimumRelease) < 0) && f.tooNew == (Cmp(other.release, r.maximumRelease) > 0)
      && f.protocolOld == (other.protocol < r.minimumProtocol) && f.protocolNew == (other.protocol > r.maximumProtocol)
  }

  lemma ReportedBoundsTell(entries: seq<Build>, matching: seq<Build>, p: Policy, r: Bounds, q: Query)
    requires forall b :: b in matching <==> b in entries && Target(b, q)
    requires ValidBounds(matching, r) && ValidPolicy(p)
    ensures Tells(entries, p, q, r.(minimumRelease := Minimum(p, r)))
  {
    forall other | ValidQuery(other) && SameTarget(q, other)
      ensures var f := FactsOf(entries, p, other);
              && f.tooOld == (Cmp(other.release, Minimum(p, r)) < 0) && f.tooNew == (Cmp(other.release, r.maximumRelease) > 0)
              && f.protocolOld == (other.protocol < r.minimumProtocol) && f.protocolNew == (other.protocol > r.maximumProtocol)
    {
      BoundsDecide(matching, p, r, other);
      FactsOfMatching(entries, matching, p, other);
    }
  }

  /** The stages for a target the catalog has builds for. */
  method Stages(p: Policy, bounds: Bounds, q: Query, matching: seq<Build>) returns (r: Reason)
    requires matching != [] && (forall b :: b in matching ==> Target(b, q)) && ValidBounds(matching, bounds)
    requires ValidQuery(q) && ValidPolicy(p)
    ensures r == Expected(matching, p, q) && r != UnsupportedTarget
  {
    assert matching[0] in matching;
    var bounded := TestBounds(p, bounds, q, matching);
    if bounded.Some? { return bounded.value; }
    var revoked := BinarySearch(p.revoked, q.id);
    if revoked { return BuildRevoked; }
    var found := FindExact(matching, q);
    FirstExactFinds(matching, q);
    return if found.Some? then Compatible else BuildUnrecognized;
  }

  /** desktopBuildCatalog.evaluate, with the bounds it reports. */
  method Evaluate(entries: seq<Build>, p: Policy, q: Query) returns (r: Result<Reason, Refusal>, reported: Option<Bounds>)
    requires forall b :: b in entries ==> ValidBuild(b)
    ensures !ValidQuery(q) ==> r == Err(RequestInvalid)
    ensures ValidQuery(q) && !ValidPolicy(p) ==> r == Err(PolicyUnavailable)
    ensures ValidQuery(q) && ValidPolicy(p) ==> r == Ok(Expected(entries, p, q))
    ensures reported.Some? <==> r.Ok? && r.value != UnsupportedTarget
    ensures reported.Some? ==> Tells(entries, p, q, reported.value)
  {
    if !ValidQuery(q) { return Err(RequestInvalid), None; }
    var policyOk := ValidatePolicy(p);
    if !policyOk { return Err(PolicyUnavailable), None; }
    var matching := Matching(entries, q);
    FactsOfMatching(entries, matching, p, q);
    if matching == [] { return Ok(UnsupportedTarget), None; }
    assert matching[0] in matching;
    var bounds := CatalogBounds(matching);
    reported := Some(bounds.(minimumRelease := Minimum(p, bounds)));
    ReportedBoundsTell(entries, matching, p, bounds, q);
    var reason := Stages(p, bounds, q, matching);
    r := Ok(reason);
  }

  function FirstExact(entries: seq<Build>, q: Query): Option<Build> {
    if entries == [] then None
    else if Exact(entries[0], q) then Some(entries[0])
    else FirstExact(entries[1..], q)
  }

  lemma {:induction false} FirstExactFinds(entries: seq<Build>, q: Query)
    ensures FirstExact(entries, q).Some? <==> exists b :: b in entries && Exact(b, q)
    ensures FirstExact(entries, q).Some? ==> FirstExact(entries, q).value in entries && Exact(FirstExact(entries, q).value, q)
  {
    if entries != [] {
      FirstExactFinds(entries[1..], q);
      assert entries == [entries[0]] + entries[1..];
      assert forall b :: b in entries <==> b == entries[0] || b in entries[1..];
    }
  }

  method FindExact(entries: seq<Build>, q: Query) returns (r: Option<Build>)
    ensures r == FirstExact(entries, q)
  {
    for i := 0 to |entries|
      invariant FirstExact(entries[i..], q) == FirstExact(entries, q)
    {
      assert entries[i..][1..] == entries[i + 1..];
      if Exact(entries[i], q) { return Some(entries[i]); }
    }
    return None;
  }

  // ----- attempts

  datatype Resolution = Resolved(build: Build, revision: int) | NotCompatible | MissingFromCatalog

  /** ResolveAttemptDesktopBuild: the compatibility check first, then a search of
      the catalog of its own. */
  ghost function Resolve(entries: seq<Build>, p: Policy, q: Query): Resolution {
    if !ValidQuery(q) || !ValidPolicy(p) || !p.ready || Expected(entries, p, q) != Compatible then NotCompatible
    else
      match FirstExact(entries, q)
      case Some(build) => Resolved(build, p.revision)
      case None => MissingFromCatalog
  }

  method ResolveAttempt(entries: seq<Build>, p: Policy, q: Query) returns (r: Resolution)
    requires forall b :: b in entries ==> ValidBuild(b)
    ensures r == Resolve(entries, p, q)
  {
    var evaluated, _ := Evaluate(entries, p, q);
    if evaluated.Err? || !p.ready || evaluated.value != Compatible { return NotCompatible; }
    var found := FindExact(entries, q);
    match found
    case Some(build) => return Resolved(build, p.revision);
    case None => return MissingFromCatalog;
  }

  /** The last error is never reached: an attempt resolves exactly when the
      policy is ready and allows the build, and then to that very build. */
  lemma ResolvesExactly(entries: seq<Build>, p: Policy, q: Query)
    requires ValidQuery(q) && ValidPolicy(p)
    ensures Resolve(entries, p, q) != MissingFromCatalog
    ensures Resolve(entries, p, q).Resolved? <==> p.ready && Allowed(entries, p, q)
    ensures Resolve(entries, p, q).Resolved? ==>
              var r := Resolve(entries, p, q);
              r.build in entries && Exact(r.build, q) && r.revision == p.revision
  {
    CompatibleExactly(entries, p, q);
    FirstExactFinds(entries, q);
  }
}
