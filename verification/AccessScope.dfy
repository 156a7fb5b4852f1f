/** The set form of authorization: every scope in which a principal holds an
    action, as lists, searches and delegation use it
    (server/app/access_scope.go). */
module AccessScope {
  import opened Outcomes
  import opened Campus
  import opened AccessModel
  import Text

  const MAXIMUM_ACTIVE_BINDINGS := 256

  datatype Scopes = Scopes(institution: Option<Id>, institutionWide: bool, roots: set<Id>, classes: set<Id>)

  const NOWHERE := Scopes(None, false, {}, {})

  function Union(a: Scopes, b: Scopes): Scopes {
    Scopes(if b.institution.Some? then b.institution else a.institution,
           a.institutionWide || b.institutionWide, a.roots + b.roots, a.classes + b.classes)
  }

  predicate WithinCeiling(p: Principal, found: Resolved) {
    p.Ceiling().None? || p.Ceiling().value in found.units
  }

  /** What one granting Role Binding adds, within the principal's ceiling. */
  function Contribution(s: State, p: Principal, d: Definition, b: Binding): Result<Scopes, AccessError>
    requires Forest(s.campus.units)
  {
    match b.scope.kind
    case InstitutionScope =>
      if !d.inheritInstitution then Ok(NOWHERE)
      else
        var found := ResolveInstitution(s.campus, b.scope.id);
        if found.Err? then Err(found.error)
        else if p.Ceiling().None? then Ok(Scopes(Some(found.value.institution), true, {}, {}))
        else Ok(Scopes(Some(found.value.institution), false, {p.Ceiling().value}, {}))
    case UnitScope =>
      if !d.inheritUnits then Ok(NOWHERE)
      else
        var found := OwnedByUnit(s.campus, b.scope.id);
        if found.Err? then Err(found.error)
        else if !WithinCeiling(p, found.value) then Ok(NOWHERE)
        else Ok(Scopes(Some(found.value.institution), false, {b.scope.id}, {}))
    case ClassScope =>
      if !d.Accepts(ClassResource) then Ok(NOWHERE)
      else
        var found := ResolveClass(s.campus, b.scope.id);
        if found.Err? then Err(found.error)
        else if !WithinCeiling(p, found.value) then Ok(NOWHERE)
        else Ok(Scopes(Some(found.value.institution), false, {}, {b.scope.id}))
  }

  /** The union over the granting bindings; the first scope that does not
      resolve fails the whole request. */
  function Gather(s: State, p: Principal, d: Definition, bs: seq<Binding>): Result<Scopes, AccessError>
    requires Forest(s.campus.units)
  {
    if bs == [] then Ok(NOWHERE)
    else
      var before := Gather(s, p, d, bs[..|bs| - 1]);
      var b := bs[|bs| - 1];
      if before.Err? || !Grants(s.roles, b, d.action) then before
      else
        var added := Contribution(s, p, d, b);
        if added.Err? then added else Ok(Union(before.value, added.value))
  }

  function AuthorizedScopes(s: State, p: Principal, a: Action, kind: ResourceType, at: int)
    : Result<Scopes, AccessError>
    requires Forest(s.campus.units)
  {
    if !ValidPrincipal(s.registry, p) then Err(TokenInvalid)
    else if a !in s.registry || !s.registry[a].Accepts(kind) then Err(RequestInvalid)
    else if p.credential.PersonalAccessToken? && (s.registry[a].tokenForbidden || a !in p.credential.scopes) then Ok(NOWHERE)
    else
      var active := ListActive(s.bindings, p.user, at);
      if |active| > MAXIMUM_ACTIVE_BINDINGS then Err(Unavailable)
      else Gather(s, p, s.registry[a], active)
  }

  /** Every scope gathered comes from one granting binding, and every granting
      binding's contribution is gathered. */
  lemma {:induction false} GatherMembers(s: State, p: Principal, d: Definition, bs: seq<Binding>)
    requires Forest(s.campus.units)
    requires Gather(s, p, d, bs).Ok?
    ensures forall b :: b in bs && Grants(s.roles, b, d.action) ==>
              var c := Contribution(s, p, d, b); var all := Gather(s, p, d, bs).value;
              c.Ok? && (c.value.institutionWide ==> all.institutionWide)
              && c.value.roots <= all.roots && c.value.classes <= all.classes
    ensures Gather(s, p, d, bs).value.institutionWide ==>
              exists b :: b in bs && Grants(s.roles, b, d.action) && Contribution(s, p, d, b).value.institutionWide
    ensures forall r :: r in Gather(s, p, d, bs).value.roots ==>
              exists b :: b in bs && Grants(s.roles, b, d.action) && r in Contribution(s, p, d, b).value.roots
    ensures forall c :: c in Gather(s, p, d, bs).value.classes ==>
              exists b :: b in bs && Grants(s.roles, b, d.action) && c in Contribution(s, p, d, b).value.classes
  {
    if bs != [] {
      var init, last := bs[..|bs| - 1], bs[|bs| - 1];
      GatherMembers(s, p, d, init);
      assert bs == init + [last];
      assert forall b :: b in init ==> b in bs;
      assert last in bs;
    }
  }

  // ----- the loops of the source

  /** The persistence-ready constraint: the same scopes, listed in order. */
  datatype Constraint = Constraint(institution: Option<Id>, institutionWide: bool, roots: seq<Id>, classes: seq<Id>)

  ghost predicate Lists(c: Constraint, s: Scopes) {
    && c.institution == s.institution && c.institutionWide == s.institutionWide
    && Text.StrictlySorted(c.roots) && (forall x :: x in c.roots <==> x in s.roots)
    && Text.StrictlySorted(c.classes) && (forall x :: x in c.classes <==> x in s.classes)
  }

  /** The constraint and the two identifier sets under construction. */
  class Accumulator {
    var institution: Option<Id>
    var institutionWide: bool
    var unitRoots: set<Id>
    var classIds: set<Id>

    ghost function View(): Scopes reads this { Scopes(institution, institutionWide, unitRoots, classIds) }

    constructor ()
      ensures View() == NOWHERE
    {
      institution, institutionWide, unitRoots, classIds := None, false, {}, {};
    }

    method AccumulateBindingScope(s: State, p: Principal, d: Definition, b: Binding)
      returns (failure: Option<AccessError>)
      requires Forest(s.campus.units)
      modifies this
      ensures match Contribution(s, p, d, b)
              case Err(e) => failure == Some(e) && View() == old(View())
              case Ok(c) => failure == None && View() == Union(old(View()), c)
    {
      match b.scope.kind
      case InstitutionScope =>
        if !d.inheritInstitution { return None; }
        var found := ResolveInstitution(s.campus, b.scope.id);
        if found.Err? { return Some(found.error); }
        institution := Some(found.value.institution);
        if p.Ceiling().None? {
          institutionWide := true;
        } else {
          unitRoots := unitRoots + {p.Ceiling().value};
        }
        return None;
      case UnitScope =>
        if !d.inheritUnits { return None; }
        var found := OwnedByUnit(s.campus, b.scope.id);
        if found.Err? { return Some(found.error); }
        if !WithinCeiling(p, found.value) { return None; }
        institution := Some(found.value.institution);
        unitRoots := unitRoots + {b.scope.id};
        return None;
      case ClassScope =>
        if !d.Accepts(ClassResource) { return None; }
        var found := ResolveClass(s.campus, b.scope.id);
        if found.Err? { return Some(found.error); }
        if !WithinCeiling(p, found.value) { return None; }
        institution := Some(found.value.institution);
        classIds := classIds + {b.scope.id};
        return None;
    }
  }

  /** Which of the bindings' Roles grant the action. */
  method RoleGrants(s: State, a: Action, bs: seq<Binding>) returns (grants: map<Id, bool>)
    ensures forall b :: b in bs ==> ((b.role in grants && grants[b.role]) <==> Grants(s.roles, b, a))
  {
    var roleIds, seen: set<Id> := [], {};
    for i := 0 to |bs|
      invariant forall r :: r in roleIds <==> r in seen
      invariant forall k :: 0 <= k < i ==> bs[k].role in seen
    {
      if bs[i].role !in seen {
        seen := seen + {bs[i].role};
        roleIds := roleIds + [bs[i].role];
      }
    }
    grants := map[];
    for i := 0 to |roleIds|
      invariant forall r :: r in grants <==> r in roleIds[..i] && r in s.roles
      invariant forall r :: r in grants ==> (grants[r] <==> a in s.roles[r])
    {
      assert roleIds[..i + 1] == roleIds[..i] + [roleIds[i]];
      if roleIds[i] in s.roles {
        grants := grants[roleIds[i] := a in s.roles[roleIds[i]]];
      }
    }
    assert roleIds[..|roleIds|] == roleIds;
  }

  method AccumulateAll(s: State, p: Principal, d: Definition, active: seq<Binding>, grants: map<Id, bool>)
    returns (acc: Accumulator, failure: Option<AccessError>)
    requires Forest(s.campus.units)
    requires forall b :: b in active ==> ((b.role in grants && grants[b.role]) <==> Grants(s.roles, b, d.action))
    ensures match Gather(s, p, d, active)
            case Err(e) => failure == Some(e)
            case Ok(scopes) => failure == None && acc.View() == scopes
  {
    failure := None;
    acc := new Accumulator();
    for i := 0 to |active|
      invariant fresh(acc)
      invariant Gather(s, p, d, active[..i]) == Ok(acc.View())
    {
      assert active[..i + 1][..i] == active[..i];
      if active[i].role in grants && grants[active[i].role] {
        failure := acc.AccumulateBindingScope(s, p, d, active[i]);
        if failure.Some? {
          GatherStopsAt(s, p, d, active, i + 1);
          return;
        }
      }
    }
    assert active[..|active|] == active;
    failure := None;
  }

  method AuthorizedScopesAt(s: State, p: Principal, a: Action, kind: ResourceType, at: int)
    returns (r: Result<Constraint, AccessError>)
    requires Valid(s)
    ensures match AuthorizedScopes(s, p, a, kind, at)
            case Err(e) => r == Err(e)
            case Ok(scopes) => r.Ok? && Lists(r.value, scopes)
  {
    if !ValidPrincipal(s.registry, p) { return Err(TokenInvalid); }
    if a !in s.registry || !s.registry[a].Accepts(kind) { return Err(RequestInvalid); }
    var d := s.registry[a];
    if p.credential.PersonalAccessToken? && (d.tokenForbidden || a !in p.credential.scopes) {
      return Ok(Constraint(None, false, [], []));
    }
    var active := ListActive(s.bindings, p.user, at);
    if |active| > MAXIMUM_ACTIVE_BINDINGS { return Err(Unavailable); }
    var grants := RoleGrants(s, a, active);
    var acc, failure := AccumulateAll(s, p, d, active, grants);
    if failure.Some? { return Err(failure.value); }
    var roots := Text.SortedKeys(acc.unitRoots);
    var classes := Text.SortedKeys(acc.classIds);
    return Ok(Constraint(acc.institution, acc.institutionWide, roots, classes));
  }

  /** A scope that fails to resolve fails every longer prefix the same way. */
  lemma {:induction false} GatherStopsAt(s: State, p: Principal, d: Definition, bs: seq<Binding>, i: nat)
    requires Forest(s.campus.units)
    requires i <= |bs| && Gather(s, p, d, bs[..i]).Err?
    ensures Gather(s, p, d, bs) == Gather(s, p, d, bs[..i])
    decreases |bs| - i
  {
    if i == |bs| {
      assert bs[..i] == bs;
    } else {
      assert bs[..i + 1][..i] == bs[..i];
      GatherStopsAt(s, p, d, bs, i + 1);
    }
  }
}
