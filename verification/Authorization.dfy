/** The point form of authorization, one decision for one resource
    (server/app/authorization.go), and its exact relation to the set form. */
module Authorization {
  import opened Outcomes
  import opened Campus
  import opened AccessModel
  import opened AccessScope
  import Text

  /** The credential ceiling: it can only refuse, never grant. */
  predicate PersonalAccessTokenAllows(p: Principal, a: Action, r: Resource, found: Resolved)
    requires p.credential.PersonalAccessToken?
  {
    && a in p.credential.scopes
    && (p.credential.ceiling.None? ||
        match r.kind
        case AcademicPeriodResource =>
          if found.institutionOwnedPeriod then a == ACADEMIC_PERIOD_VIEW else p.credential.ceiling.value in found.units
        case AcademicUnitResource | ProgrammeResource | ProgrammeLevelResource | ClassResource | ExamResource =>
          p.credential.ceiling.value in found.units
        case _ => false)
  }

  predicate CredentialAllows(p: Principal, a: Action, r: Resource, found: Resolved) {
    p.credential.PersonalAccessToken? ==> PersonalAccessTokenAllows(p, a, r, found)
  }

  predicate RoleBindingApplies(b: Binding, d: Definition, r: Resource, found: Resolved) {
    match b.scope.kind
    case InstitutionScope => d.inheritInstitution && b.scope.id == found.institution
    case UnitScope =>
      d.inheritUnits &&
      if r.kind == AcademicPeriodResource && found.institutionOwnedPeriod then d.action == ACADEMIC_PERIOD_VIEW
      else b.scope.id in found.units
    case ClassScope => r.kind == ClassResource && found.class_ == Some(b.scope.id)
  }

  predicate SelfService(p: Principal, a: Action, r: Resource) {
    SelfServiceAction(a) && p.user == r.id
  }

  /** Some active granting binding reaches the resource. */
  predicate BindingGrants(s: State, p: Principal, d: Definition, r: Resource, found: Resolved, at: int) {
    exists b :: b in ListActive(s.bindings, p.user, at)
                && Grants(s.roles, b, d.action) && RoleBindingApplies(b, d, r, found)
  }

  function EvaluateResolved(s: State, p: Principal, d: Definition, r: Resource, found: Resolved, at: int): bool {
    CredentialAllows(p, d.action, r, found) &&
    (SelfService(p, d.action, r) || BindingGrants(s, p, d, r, found, at))
  }

  function Evaluate(s: State, p: Principal, a: Action, r: Resource, at: int): Result<bool, AccessError>
    requires Forest(s.campus.units)
  {
    if !ValidPrincipal(s.registry, p) then Err(TokenInvalid)
    else if a !in s.registry || !Text.IsOpaqueId(r.id) || !s.registry[a].Accepts(r.kind) then Err(RequestInvalid)
    else if s.registry[a].relationshipOnly then Err(RequestInvalid)
    else if p.credential.PersonalAccessToken? && s.registry[a].tokenForbidden then Ok(false)
    else
      var coarse := if r.kind == AcademicPeriodResource then PeriodCoarseAuthority(s, p, a, at) else Ok(true);
      if coarse != Ok(true) then coarse
      else
        var found := Resolve(s.campus, r);
        if found.Err? then Err(found.error)
        else Ok(EvaluateResolved(s, p, s.registry[a], r, found.value, at))
  }

  /** An Academic Period is only looked up for a principal who holds the
      action somewhere above Class scope. */
  function PeriodCoarseAuthority(s: State, p: Principal, a: Action, at: int): Result<bool, AccessError>
    requires Forest(s.campus.units)
  {
    var scopes := AuthorizedScopes(s, p, a, AcademicPeriodResource, at);
    if scopes.Err? then Err(scopes.error) else Ok(scopes.value.institutionWide || scopes.value.roots != {})
  }

  /** The decision loop: collect each Role's permissions once, then scan the
      bindings. */
  method EvaluateResolvedLoop(s: State, p: Principal, a: Action, r: Resource, found: Resolved, at: int)
    returns (allowed: bool)
    requires RegistryValid(s.registry) && a in s.registry
    ensures allowed == EvaluateResolved(s, p, s.registry[a], r, found, at)
  {
    var d := s.registry[a];
    if p.credential.PersonalAccessToken? && !PersonalAccessTokenAllows(p, a, r, found) { return false; }
    if SelfServiceAction(a) && p.user == r.id { return true; }
    var active := ListActive(s.bindings, p.user, at);
    var grants := RoleGrants(s, a, active);
    for i := 0 to |active|
      invariant forall k :: 0 <= k < i ==>
        !(Grants(s.roles, active[k], a) && RoleBindingApplies(active[k], d, r, found))
    {
      if RoleBindingApplies(active[i], d, r, found) {
        if active[i].role in grants && grants[active[i].role] {
          assert active[i] in active;
          return true;
        }
      }
    }
    return false;
  }

  // ----- the set form against the point form

  /** The resource lies inside the gathered scopes. */
  predicate Covers(c: Scopes, r: Resource, found: Resolved) {
    c.institutionWide || (exists root :: root in c.roots && root in found.units) || (r.kind == ClassResource && r.id in c.classes)
  }

  /** A unit binding strictly above the principal's ceiling: the set form drops
      it, the point form keeps it. */
  predicate AboveCeiling(s: State, p: Principal, d: Definition, b: Binding)
    requires Forest(s.campus.units)
  {
    && b.scope.kind == UnitScope && d.inheritUnits
    && p.Ceiling().Some? && b.scope.id != p.Ceiling().value
    && b.scope.id in AncestorSet(s.campus.units, p.Ceiling().value)
  }

  predicate HoldsAboveCeiling(s: State, p: Principal, d: Definition, at: int)
    requires Forest(s.campus.units)
  {
    exists b :: b in ListActive(s.bindings, p.user, at) && Grants(s.roles, b, d.action) && AboveCeiling(s, p, d, b)
  }

  /** Resources a token ceiling can contain. */
  predicate Ceilable(kind: ResourceType) {
    kind in {AcademicUnitResource, ProgrammeResource, ProgrammeLevelResource,
             AcademicPeriodResource, ClassResource, ExamResource}
  }

  /** One binding, one unit-owned resource: the binding reaches the resource
      under the credential exactly when its contribution covers the resource,
      or it lies strictly above a ceiling that contains the resource. */
  lemma BindingAgrees(s: State, p: Principal, d: Definition, b: Binding, r: Resource, found: Resolved)
    requires Valid(s) && Resolve(s.campus, r) == Ok(found) && d.Accepts(r.kind)
    requires UnitScoped(r.kind) && !found.institutionOwnedPeriod
    requires Contribution(s, p, d, b).Ok?
    requires p.credential.PersonalAccessToken? ==> d.action in p.credential.scopes
    requires p.Ceiling().None? || Ceilable(r.kind)
    ensures CredentialAllows(p, d.action, r, found) && RoleBindingApplies(b, d, r, found)
            <==> Covers(Contribution(s, p, d, b).value, r, found)
                 || (AboveCeiling(s, p, d, b) && p.Ceiling().value in found.units)
  {
    ResolvedShape(s.campus, r, found);
    var units := s.campus.units;
    var owner := found.target.value;
    match b.scope.kind
    case InstitutionScope =>
    case UnitScope =>
      OwnedShape(s.campus, b.scope.id);
      if p.Ceiling().Some? {
        var c := p.Ceiling().value;
        if b.scope.id in found.units {
          AncestryTransitive(units, owner, b.scope.id);
          if c in found.units {
            AncestryTransitive(units, owner, c);
            AncestorsComparable(units, owner, c, b.scope.id);
          }
        } else if c in found.units {
          AncestryTransitive(units, owner, c);
        }
      }
    case ClassScope =>
      if found.class_ == Some(b.scope.id) {
        assert Resolve(s.campus, r) == ResolveClass(s.campus, b.scope.id);
      }
  }

  /** What the point form decides, in terms of the set form alone. */
  predicate Decision(s: State, p: Principal, a: Action, r: Resource, found: Resolved, c: Scopes, at: int)
    requires Forest(s.campus.units) && a in s.registry
  {
    if !UnitScoped(r.kind) then
      c.institutionWide || (SelfService(p, a, r) && CredentialAllows(p, a, r, found))
    else if found.institutionOwnedPeriod then
      c.institutionWide || (a == ACADEMIC_PERIOD_VIEW && c.roots != {})
    else if p.Ceiling().Some? && !Ceilable(r.kind) then false
    else
      || Covers(c, r, found)
      || (&& HoldsAboveCeiling(s, p, s.registry[a], at) && p.Ceiling().value in found.units
          && a in p.credential.scopes && (r.kind == AcademicPeriodResource ==> c.roots != {}))
  }

  /** The set form and the point form read one registry entry. */
  predicate Asked(s: State, a: Action, r: Resource) {
    a in s.registry && !s.registry[a].relationshipOnly && Text.IsOpaqueId(r.id)
  }

  lemma UnitOwnedDecision(s: State, p: Principal, a: Action, r: Resource, found: Resolved, c: Scopes, at: int)
    requires Valid(s) && Asked(s, a, r) && Resolve(s.campus, r) == Ok(found)
    requires UnitScoped(r.kind) && !found.institutionOwnedPeriod
    requires s.registry[a].Accepts(r.kind) && Gather(s, p, s.registry[a], ListActive(s.bindings, p.user, at)) == Ok(c)
    requires p.credential.PersonalAccessToken? ==> a in p.credential.scopes
    requires p.Ceiling().None? || Ceilable(r.kind)
    ensures EvaluateResolved(s, p, s.registry[a], r, found, at)
            <==> Covers(c, r, found)
                 || (HoldsAboveCeiling(s, p, s.registry[a], at) && p.Ceiling().value in found.units)
  {
    var d, active := s.registry[a], ListActive(s.bindings, p.user, at);
    GatherMembers(s, p, d, active);
    forall b | b in active && Grants(s.roles, b, d.action)
      ensures CredentialAllows(p, d.action, r, found) && RoleBindingApplies(b, d, r, found)
              <==> Covers(Contribution(s, p, d, b).value, r, found)
                   || (AboveCeiling(s, p, d, b) && p.Ceiling().value in found.units)
    {
      BindingAgrees(s, p, d, b, r, found);
    }
  }

  /** One binding and a resource of the Institution itself. */
  lemma BindingAtInstitution(s: State, p: Principal, d: Definition, b: Binding, r: Resource, found: Resolved)
    requires Valid(s) && Resolve(s.campus, r) == Ok(found) && Contribution(s, p, d, b).Ok?
    requires !UnitScoped(r.kind) || found.institutionOwnedPeriod
    ensures var c, applies := Contribution(s, p, d, b).value, RoleBindingApplies(b, d, r, found);
            var viewed := found.institutionOwnedPeriod && d.action == ACADEMIC_PERIOD_VIEW;
            && (c.institutionWide <==> p.Ceiling().None? && b.scope.kind == InstitutionScope && applies)
            && (viewed && (c.institutionWide || c.roots != {}) ==> applies)
            && (applies && !viewed ==> b.scope.kind == InstitutionScope)
  {
    ResolvedShape(s.campus, r, found);
  }

  lemma InstitutionDecision(s: State, p: Principal, a: Action, r: Resource, found: Resolved, c: Scopes, at: int)
    requires Valid(s) && Asked(s, a, r) && Resolve(s.campus, r) == Ok(found)
    requires !UnitScoped(r.kind) || found.institutionOwnedPeriod
    requires s.registry[a].Accepts(r.kind) && Gather(s, p, s.registry[a], ListActive(s.bindings, p.user, at)) == Ok(c)
    requires p.credential.PersonalAccessToken? ==> a in p.credential.scopes
    requires r.kind == AcademicPeriodResource ==> c.institutionWide || c.roots != {}
    ensures EvaluateResolved(s, p, s.registry[a], r, found, at) <==> Decision(s, p, a, r, found, c, at)
  {
    var d, active := s.registry[a], ListActive(s.bindings, p.user, at);
    ResolvedShape(s.campus, r, found);
    GatherMembers(s, p, d, active);
    forall b | b in active && Grants(s.roles, b, d.action)
      ensures var k, applies := Contribution(s, p, d, b).value, RoleBindingApplies(b, d, r, found);
              var viewed := found.institutionOwnedPeriod && d.action == ACADEMIC_PERIOD_VIEW;
              && (k.institutionWide <==> p.Ceiling().None? && b.scope.kind == InstitutionScope && applies)
              && (viewed && (k.institutionWide || k.roots != {}) ==> applies)
              && (applies && !viewed ==> b.scope.kind == InstitutionScope)
    {
      BindingAtInstitution(s, p, d, b, r, found);
    }
    assert c.institutionWide ==> p.Ceiling().None?;
    assert c.institutionWide ==> BindingGrants(s, p, d, r, found, at);
    if c.roots != {} {
      var root :| root in c.roots;
    }
  }

  /** The whole relation, for every action, principal and resource kind: when
      the set form answers and the resource resolves, the point form answers
      exactly `Decision`. */
  lemma PointFormExact(s: State, p: Principal, a: Action, r: Resource, found: Resolved, c: Scopes, at: int)
    requires Valid(s) && Asked(s, a, r) && Resolve(s.campus, r) == Ok(found)
    requires AuthorizedScopes(s, p, a, r.kind, at) == Ok(c)
    ensures Evaluate(s, p, a, r, at) == Ok(Decision(s, p, a, r, found, c, at))
  {
    ResolvedShape(s.campus, r, found);
    var d := s.registry[a];
    if p.credential.PersonalAccessToken? && (d.tokenForbidden || a !in p.credential.scopes) {
    } else if !UnitScoped(r.kind) || found.institutionOwnedPeriod {
      if r.kind == AcademicPeriodResource && !c.institutionWide && c.roots == {} {
      } else {
        InstitutionDecision(s, p, a, r, found, c, at);
      }
    } else if p.Ceiling().None? || Ceilable(r.kind) {
      UnitOwnedDecision(s, p, a, r, found, c, at);
    }
  }

  /** A unit-owned resource that a token ceiling can contain, or any
      unit-owned resource when there is no ceiling. */
  ghost predicate Comparable(s: State, p: Principal, a: Action, r: Resource, found: Resolved, c: Scopes, at: int)
    requires Forest(s.campus.units)
  {
    && Asked(s, a, r) && Resolve(s.campus, r) == Ok(found)
    && AuthorizedScopes(s, p, a, r.kind, at) == Ok(c)
    && UnitScoped(r.kind) && !found.institutionOwnedPeriod
    && (p.Ceiling().None? || Ceilable(r.kind))
  }

  /** Everything a list or search shows is allowed one by one. */
  lemma SetFormSound(s: State, p: Principal, a: Action, r: Resource, found: Resolved, c: Scopes, at: int)
    requires Valid(s) && Comparable(s, p, a, r, found, c, at)
    requires Covers(c, r, found)
    ensures Evaluate(s, p, a, r, at) == Ok(true)
  {
    PointFormExact(s, p, a, r, found, c, at);
  }

  /** Without a granting unit binding strictly above the ceiling, the two forms
      are equal. */
  lemma SetFormComplete(s: State, p: Principal, a: Action, r: Resource, found: Resolved, c: Scopes, at: int)
    requires Valid(s) && Comparable(s, p, a, r, found, c, at)
    requires !HoldsAboveCeiling(s, p, s.registry[a], at)
    ensures Evaluate(s, p, a, r, at) == Ok(Covers(c, r, found))
  {
    PointFormExact(s, p, a, r, found, c, at);
  }

  /** The gathered scopes cover a whole unit. */
  predicate CoversUnit(s: State, c: Scopes, unit: Id)
    requires Forest(s.campus.units)
  {
    c.institutionWide || exists root :: root in c.roots && root in AncestorSet(s.campus.units, unit)
  }

  predicate IsPeriod(r: Resource) { r.kind == AcademicPeriodResource }

  /** For a token confined to a unit that owns some resource the action accepts:
      the two forms agree on all such resources, periods and others taken apart,
      exactly when no granting unit binding lies strictly above the ceiling, or
      the set form covers the ceiling unit, or, for periods, it holds no unit. */
  lemma FormsAgreeExactlyWhen(s: State, p: Principal, a: Action, own: Resource, top: Resolved, c: Scopes, at: int)
    requires Valid(s) && p.Ceiling().Some? && a in p.credential.scopes
    requires Comparable(s, p, a, own, top, c, at) && top.target == p.Ceiling()
    requires own.kind == ClassResource ==> own.id !in c.classes
    ensures (forall r: Resource, found :: IsPeriod(r) == IsPeriod(own) && Comparable(s, p, a, r, found, c, at) ==>
               Evaluate(s, p, a, r, at) == Ok(Covers(c, r, found)))
            <==> || !HoldsAboveCeiling(s, p, s.registry[a], at) || CoversUnit(s, c, p.Ceiling().value)
                 || (IsPeriod(own) && c.roots == {})
  {
    var ceiling := p.Ceiling().value;
    PointFormExact(s, p, a, own, top, c, at);
    ResolvedShape(s.campus, own, top);
    if !HoldsAboveCeiling(s, p, s.registry[a], at) || CoversUnit(s, c, ceiling) || (IsPeriod(own) && c.roots == {}) {
      forall r: Resource, found | IsPeriod(r) == IsPeriod(own) && Comparable(s, p, a, r, found, c, at)
        ensures Evaluate(s, p, a, r, at) == Ok(Covers(c, r, found))
      {
        PointFormExact(s, p, a, r, found, c, at);
        ResolvedShape(s.campus, r, found);
        if ceiling in found.units {
          AncestryTransitive(s.campus.units, found.target.value, ceiling);
        }
      }
    }
  }

  const VIEW := Definition("academic_unit.view", AcademicUnitResource, {}, true, true, false, false, false)

  /** A faculty with one department; Alice may view from the faculty down. */
  function TwoUnits(faculty: Id, department: Id): State {
    State(Campus("i", false, map[faculty := Unit("i", None, false), department := Unit("i", Some(faculty), false)],
                 map[], map[], map[], map[], map[], map[], map[], {}),
          map[VIEW.action := VIEW], map["viewer" := {VIEW.action}],
          [Binding("alice", "viewer", Scope(UnitScope, faculty), 0, None)])
  }

  function DepartmentToken(department: Id): Principal {
    Principal("alice", PersonalAccessToken({VIEW.action}, Some(department)), false)
  }

  lemma TwoUnitsForest(faculty: Id, department: Id)
    requires faculty != department
    ensures Valid(TwoUnits(faculty, department))
    ensures var units := TwoUnits(faculty, department).campus.units;
            Ancestors(units, faculty) == [faculty] && Ancestors(units, department) == [department, faculty]
  {
    var units := TwoUnits(faculty, department).campus.units;
    assert Ranks(units, (u: Id) => if u == department then 1 else 0);
    assert Ancestors(units, faculty) == [faculty];
    assert Ancestors(units, department) == [department] + [faculty];
  }

  lemma TwoUnitsScopes(faculty: Id, department: Id)
    requires faculty != department
    ensures Valid(TwoUnits(faculty, department))
    ensures AuthorizedScopes(TwoUnits(faculty, department), DepartmentToken(department), VIEW.action,
                             AcademicUnitResource, 0) == Ok(NOWHERE)
  {
    TwoUnitsForest(faculty, department);
    var s, p := TwoUnits(faculty, department), DepartmentToken(department);
    var b := s.bindings[0];
    OwnedShape(s.campus, faculty);
    assert s.bindings[1..] == [];
    assert ListActive(s.bindings, p.user, 0) == [b];
    assert Contribution(s, p, VIEW, b) == Ok(NOWHERE);
    assert [b][..0] == [] && Union(NOWHERE, NOWHERE) == NOWHERE;
    assert Gather(s, p, VIEW, [b]) == Ok(NOWHERE);
    assert TokenAction(s.registry, VIEW.action);
  }

  /** The gap is real: a token confined to the department, held by someone
      bound at the faculty, may view the department but is shown nothing. */
  lemma CeilingGap(faculty: Id, department: Id)
    requires faculty != department && Text.IsOpaqueId(department)
    ensures Valid(TwoUnits(faculty, department))
    ensures AuthorizedScopes(TwoUnits(faculty, department), DepartmentToken(department), VIEW.action,
                             AcademicUnitResource, 0) == Ok(NOWHERE)
    ensures Evaluate(TwoUnits(faculty, department), DepartmentToken(department), VIEW.action,
                     Resource(AcademicUnitResource, department), 0) == Ok(true)
  {
    TwoUnitsForest(faculty, department);
    TwoUnitsScopes(faculty, department);
    var s, p := TwoUnits(faculty, department), DepartmentToken(department);
    var r := Resource(AcademicUnitResource, department);
    OwnedShape(s.campus, department);
    PointFormExact(s, p, VIEW.action, r, Resolve(s.campus, r).value, NOWHERE, 0);
    assert s.bindings[0] in ListActive(s.bindings, p.user, 0);
    assert AboveCeiling(s, p, VIEW, s.bindings[0]);
  }
}
