/** Both forms of authorization over the stored entities alone: which bindings
    of the user are in force, what their Roles list, and where the resource
    hangs (server/app/authorization.go, server/app/access_scope.go). */
module AccessDecision {
  import opened Outcomes
  import opened Campus
  import opened AccessModel
  import opened AccessScope
  import opened Authorization
  import Delegation
  import Text

  /** A binding of the user in force at the instant, whose Role lists the
      action. */
  predicate Holds(s: State, user: Id, a: Action, at: int, b: Binding) {
    && b in s.bindings && b.user == user && b.startAt <= at && (b.endAt.Some? ==> at < b.endAt.value)
    && b.role in s.roles && a in s.roles[b.role]
  }

  lemma HoldsListed(s: State, user: Id, a: Action, at: int, b: Binding)
    ensures Holds(s, user, a, at, b) <==> b in ListActive(s.bindings, user, at) && Grants(s.roles, b, a)
  {
  }

  /** The resource is unit u or lies in it. */
  ghost predicate Within(campus: Campus, r: Resource, u: Id)
    requires Forest(campus.units)
  {
    exists owner :: HangsFrom(campus, r, owner) && u in Ancestors(campus.units, owner)
  }

  /** The binding's scope contains the resource, as far as the action is passed
      down: from the Institution to everything, from a unit to what lies in it and
      to viewing the Institution's own periods, and from a Class to itself. */
  ghost predicate Reaches(campus: Campus, d: Definition, b: Binding, r: Resource)
    requires Forest(campus.units)
  {
    match b.scope.kind
    case InstitutionScope => d.inheritInstitution && b.scope.id == campus.institution
    case UnitScope =>
      && d.inheritUnits
      && (Within(campus, r, b.scope.id) || (InstitutionPeriod(campus, r.id) && r.kind == AcademicPeriodResource
                                            && d.action == "academic_period.view"))
    case ClassScope => r == Resource(ClassResource, b.scope.id)
  }

  /** A token carries the action, and one confined to a unit permits what lies in
      it, save sittings and submissions, and viewing the Institution's periods. */
  ghost predicate Permits(campus: Campus, p: Principal, a: Action, r: Resource)
    requires Forest(campus.units)
  {
    match p.credential
    case SessionAccess => true
    case PersonalAccessToken(scopes, ceiling) =>
      && a in scopes
      && (ceiling.Some? ==>
            || (r.kind != ExamSittingResource && r.kind != SubmissionResource && Within(campus, r, ceiling.value))
            || (r.kind == AcademicPeriodResource && InstitutionPeriod(campus, r.id) && a == "academic_period.view"))
  }

  /** Users see themselves and manage their own picture. */
  predicate OwnAccount(p: Principal, a: Action, r: Resource) {
    (a == "user.view" || a == "user.profile_picture.manage") && r.id == p.user
  }

  ghost predicate Resolvable(campus: Campus, r: Resource)
    requires Forest(campus.units)
  {
    OfInstitution(campus, r) || exists u :: HangsFrom(campus, r, u)
  }

  lemma WithinExactly(campus: Campus, r: Resource, found: Resolved, u: Id)
    requires SingleInstitution(campus) && Resolve(campus, r) == Ok(found)
    ensures Within(campus, r, u) <==> u in found.units
    ensures found.institutionOwnedPeriod <==> r.kind == AcademicPeriodResource && InstitutionPeriod(campus, r.id)
    ensures found.institution == campus.institution && Resolvable(campus, r)
  {
    ResolvesExactly(campus, r);
    if OfInstitution(campus, r) {
      forall owner ensures !HangsFrom(campus, r, owner) { }
    } else {
      var owner :| HangsFrom(campus, r, owner);
      assert found.units == AncestorSet(campus.units, owner);
      forall other | HangsFrom(campus, r, other) ensures other == owner { }
    }
  }

  lemma AppliesExactly(s: State, d: Definition, b: Binding, r: Resource, found: Resolved)
    requires Valid(s) && Resolve(s.campus, r) == Ok(found)
    ensures RoleBindingApplies(b, d, r, found) <==> Reaches(s.campus, d, b, r)
  {
    WithinExactly(s.campus, r, found, b.scope.id);
    ResolvedShape(s.campus, r, found);
  }

  lemma PermitsExactly(s: State, p: Principal, a: Action, r: Resource, found: Resolved)
    requires Valid(s) && Resolve(s.campus, r) == Ok(found)
    ensures CredentialAllows(p, a, r, found) <==> Permits(s.campus, p, a, r)
  {
    if p.Ceiling().Some? { WithinExactly(s.campus, r, found, p.Ceiling().value); }
    ResolvedShape(s.campus, r, found);
  }

  // ----- the point form

  /** A principal still to recover its second factor, or a token without actions
      or with one that tokens may not carry. */
  ghost predicate Unfit(registry: map<Action, Definition>, p: Principal) {
    || p.mfaRecoveryRequired
    || (p.credential.PersonalAccessToken? &&
        (|| p.credential.scopes == {}
         || exists a :: a in p.credential.scopes
                        && (a in registry ==> registry[a].relationshipOnly || registry[a].systemAdministratorOnly
                                              || registry[a].tokenForbidden)))
  }

  /** The action is registered, decided by bindings, and taken on such a resource. */
  predicate Askable(registry: map<Action, Definition>, a: Action, r: Resource) {
    && a in registry && !registry[a].relationshipOnly && Text.IsOpaqueId(r.id)
    && (r.kind == registry[a].resourceType || r.kind in registry[a].compatible)
  }

  /** Some binding in force reaches the resource, or it is the user's own account;
      and the credential permits it. */
  ghost predicate Allowed(s: State, p: Principal, a: Action, r: Resource, at: int)
    requires Forest(s.campus.units) && a in s.registry
  {
    && Permits(s.campus, p, a, r)
    && (OwnAccount(p, a, r) || exists b :: Holds(s, p.user, a, at, b) && Reaches(s.campus, s.registry[a], b, r))
  }

  /** What resolving says when it fails. */
  function Missing(r: Resource): AccessError { if r.kind == MailDeliveryResource then RequestInvalid else NotFound }

  lemma ResolvedDecision(s: State, p: Principal, a: Action, r: Resource, found: Resolved, at: int)
    requires Valid(s) && a in s.registry && Resolve(s.campus, r) == Ok(found)
    ensures EvaluateResolved(s, p, s.registry[a], r, found, at) <==> Allowed(s, p, a, r, at)
  {
    var d := s.registry[a];
    PermitsExactly(s, p, a, r, found);
    forall b ensures
      Holds(s, p.user, a, at, b) && Reaches(s.campus, d, b, r)
      <==> b in ListActive(s.bindings, p.user, at) && Grants(s.roles, b, d.action) && RoleBindingApplies(b, d, r, found)
    {
      HoldsListed(s, p.user, a, at, b);
      AppliesExactly(s, d, b, r, found);
    }
  }

  /** The single decision, for every principal, action and resource: who is
      refused before anything is looked up, what is not found, and otherwise
      exactly when it is allowed. A period is looked up only for a principal whose
      listed scopes hold something above a Class. */
  lemma EvaluateExactly(s: State, p: Principal, a: Action, r: Resource, at: int)
    requires Valid(s)
    ensures Unfit(s.registry, p) ==> Evaluate(s, p, a, r, at) == Err(TokenInvalid)
    ensures !Unfit(s.registry, p) && !Askable(s.registry, a, r) ==> Evaluate(s, p, a, r, at) == Err(RequestInvalid)
    ensures !Unfit(s.registry, p) && Askable(s.registry, a, r) ==>
              var scopes := AuthorizedScopes(s, p, a, r.kind, at);
              Evaluate(s, p, a, r, at)
              == if p.credential.PersonalAccessToken? && s.registry[a].tokenForbidden then Ok(false)
                 else if r.kind == AcademicPeriodResource && scopes.Err? then Err(scopes.error)
                 else if r.kind == AcademicPeriodResource && !scopes.value.institutionWide && scopes.value.roots == {}
                 then Ok(false)
                 else if !Resolvable(s.campus, r) then Err(Missing(r))
                 else Ok(Allowed(s, p, a, r, at))
  {
    FitExactly(s.registry, p);
    if !Unfit(s.registry, p) && Askable(s.registry, a, r) {
      ResolvesExactly(s.campus, r);
      var found := Resolve(s.campus, r);
      if found.Ok? {
        WithinExactly(s.campus, r, found.value, r.id);
        ResolvedDecision(s, p, a, r, found.value, at);
      }
    }
  }

  lemma FitExactly(registry: map<Action, Definition>, p: Principal)
    ensures ValidPrincipal(registry, p) <==> !Unfit(registry, p)
  {
  }

  // ----- the set form

  /** A unit ceiling lies in the chain of the unit. */
  ghost predicate Confined(campus: Campus, p: Principal, r: Resource)
    requires Forest(campus.units)
  {
    p.Ceiling().Some? ==> Within(campus, r, p.Ceiling().value)
  }

  function UnitResource(u: Id): Resource { Resource(AcademicUnitResource, u) }

  /** What the listed scopes hold: everything for an Institution binding without a
      ceiling, the ceiling itself for one with, a unit or a Class for a binding
      there inside the ceiling. */
  ghost predicate Listed(s: State, p: Principal, a: Action, at: int, c: Scopes)
    requires Forest(s.campus.units) && a in s.registry
  {
    var d := s.registry[a];
    && (c.institutionWide <==>
          p.Ceiling().None? && d.inheritInstitution
          && exists b :: Holds(s, p.user, a, at, b) && b.scope.kind == InstitutionScope)
    && (forall u :: u in c.roots <==>
          || (d.inheritInstitution && p.Ceiling() == Some(u)
              && exists b :: Holds(s, p.user, a, at, b) && b.scope.kind == InstitutionScope)
          || (d.inheritUnits && Confined(s.campus, p, UnitResource(u))
              && exists b :: Holds(s, p.user, a, at, b) && b.scope == Scope(UnitScope, u)))
    && (forall k :: k in c.classes <==>
          && (ClassResource == d.resourceType || ClassResource in d.compatible)
          && Confined(s.campus, p, Resource(ClassResource, k))
          && exists b :: Holds(s, p.user, a, at, b) && b.scope == Scope(ClassScope, k))
  }

  /** One binding's part. */
  lemma ContributionExactly(s: State, p: Principal, d: Definition, b: Binding)
    requires Valid(s) && Contribution(s, p, d, b).Ok?
    ensures var c := Contribution(s, p, d, b).value;
            && (c.institutionWide <==> b.scope.kind == InstitutionScope && d.inheritInstitution && p.Ceiling().None?)
            && (forall u :: u in c.roots <==>
                  || (b.scope.kind == InstitutionScope && d.inheritInstitution && p.Ceiling() == Some(u))
                  || (b.scope == Scope(UnitScope, u) && d.inheritUnits && Confined(s.campus, p, UnitResource(u))))
            && (forall k :: k in c.classes <==>
                  && b.scope == Scope(ClassScope, k) && d.Accepts(ClassResource)
                  && Confined(s.campus, p, Resource(ClassResource, k)))
  {
    if b.scope.kind == UnitScope && d.inheritUnits {
      var r := UnitResource(b.scope.id);
      var found := Resolve(s.campus, r);
      assert found == OwnedByUnit(s.campus, b.scope.id);
      if p.Ceiling().Some? { WithinExactly(s.campus, r, found.value, p.Ceiling().value); }
    }
    if b.scope.kind == ClassScope && d.Accepts(ClassResource) {
      var r := Resource(ClassResource, b.scope.id);
      var found := Resolve(s.campus, r);
      assert found == ResolveClass(s.campus, b.scope.id);
      if p.Ceiling().Some? { WithinExactly(s.campus, r, found.value, p.Ceiling().value); }
    }
  }

  /** A binding whose scope is asked for but is gone. */
  ghost predicate Dangling(s: State, d: Definition, b: Binding)
    requires Forest(s.campus.units)
  {
    match b.scope.kind
    case InstitutionScope => d.inheritInstitution && !OfInstitution(s.campus, Resource(InstitutionResource, b.scope.id))
    case UnitScope => d.inheritUnits && !Live(s.campus.units, b.scope.id)
    case ClassScope =>
      && (ClassResource == d.resourceType || ClassResource in d.compatible)
      && !Resolvable(s.campus, Resource(ClassResource, b.scope.id))
  }

  lemma ContributionFails(s: State, p: Principal, d: Definition, b: Binding)
    requires Valid(s)
    ensures Contribution(s, p, d, b).Err? <==> Dangling(s, d, b)
    ensures Contribution(s, p, d, b).Err? ==> Contribution(s, p, d, b).error == NotFound
  {
    match b.scope.kind
    case InstitutionScope =>
    case UnitScope => OwnedShape(s.campus, b.scope.id);
    case ClassScope => ClassExactly(s.campus, b.scope.id);
  }

  lemma {:induction false} GatherFails(s: State, p: Principal, d: Definition, bs: seq<Binding>)
    requires Valid(s)
    ensures Gather(s, p, d, bs).Err? <==> exists b :: b in bs && Grants(s.roles, b, d.action) && Dangling(s, d, b)
    ensures Gather(s, p, d, bs).Err? ==> Gather(s, p, d, bs).error == NotFound
  {
    if bs != [] {
      var init, last := bs[..|bs| - 1], bs[|bs| - 1];
      GatherFails(s, p, d, init);
      ContributionFails(s, p, d, last);
      assert bs == init + [last];
      assert forall b :: b in bs <==> b in init || b == last;
    }
  }

  lemma {:induction false} GatherInstitution(s: State, p: Principal, d: Definition, bs: seq<Binding>)
    requires Valid(s) && Gather(s, p, d, bs).Ok?
    ensures var c := Gather(s, p, d, bs).value;
            c.institution == if c.institutionWide || c.roots != {} || c.classes != {} then Some(s.campus.institution) else None
  {
    if bs != [] {
      GatherInstitution(s, p, d, bs[..|bs| - 1]);
      var b := bs[|bs| - 1];
      if b.scope.kind == UnitScope { OwnedShape(s.campus, b.scope.id); }
      if b.scope.kind == ClassScope { ClassExactly(s.campus, b.scope.id); }
    }
  }

  lemma GatherExactly(s: State, p: Principal, a: Action, at: int, c: Scopes)
    requires Valid(s) && a in s.registry
    requires Gather(s, p, s.registry[a], ListActive(s.bindings, p.user, at)) == Ok(c)
    ensures Listed(s, p, a, at, c)
  {
    var d, active := s.registry[a], ListActive(s.bindings, p.user, at);
    GatherMembers(s, p, d, active);
    forall b ensures Holds(s, p.user, a, at, b) <==> b in active && Grants(s.roles, b, d.action) {
      HoldsListed(s, p.user, a, at, b);
    }
    forall b | b in active && Grants(s.roles, b, d.action)
      ensures var k := Contribution(s, p, d, b).value;
              && (k.institutionWide <==> b.scope.kind == InstitutionScope && d.inheritInstitution && p.Ceiling().None?)
              && (forall u :: u in k.roots <==>
                    || (b.scope.kind == InstitutionScope && d.inheritInstitution && p.Ceiling() == Some(u))
                    || (b.scope == Scope(UnitScope, u) && d.inheritUnits && Confined(s.campus, p, UnitResource(u))))
              && (forall x :: x in k.classes <==>
                    && b.scope == Scope(ClassScope, x) && d.Accepts(ClassResource)
                    && Confined(s.campus, p, Resource(ClassResource, x)))
    {
      ContributionExactly(s, p, d, b);
    }
  }

  /** What gathering the bindings in force gives. */
  ghost predicate Gathered(s: State, p: Principal, a: Action, at: int, scopes: Result<Scopes, AccessError>)
    requires Forest(s.campus.units) && a in s.registry
  {
    if exists b :: Holds(s, p.user, a, at, b) && Dangling(s, s.registry[a], b) then scopes == Err(NotFound)
    else
      && scopes.Ok? && Listed(s, p, a, at, scopes.value)
      && scopes.value.institution == (if scopes.value.institutionWide || scopes.value.roots != {} || scopes.value.classes != {}
                                      then Some(s.campus.institution) else None)
  }

  lemma GatherTold(s: State, p: Principal, a: Action, at: int)
    requires Valid(s) && a in s.registry
    ensures Gathered(s, p, a, at, Gather(s, p, s.registry[a], ListActive(s.bindings, p.user, at)))
  {
    var d, active := s.registry[a], ListActive(s.bindings, p.user, at);
    GatherFails(s, p, d, active);
    forall b ensures Holds(s, p.user, a, at, b) <==> b in active && Grants(s.roles, b, a) { HoldsListed(s, p.user, a, at, b); }
    if Gather(s, p, d, active).Ok? {
      GatherInstitution(s, p, d, active);
      GatherExactly(s, p, a, at, Gather(s, p, d, active).value);
    }
  }

  /** The listed scopes, for every principal, action and kind: who is refused,
      when they cannot be listed, and otherwise exactly what they hold. */
  lemma ScopesExactly(s: State, p: Principal, a: Action, kind: ResourceType, at: int)
    requires Valid(s)
    ensures var scopes := AuthorizedScopes(s, p, a, kind, at);
            if Unfit(s.registry, p) then scopes == Err(TokenInvalid)
            else if !(a in s.registry && (kind == s.registry[a].resourceType || kind in s.registry[a].compatible))
            then scopes == Err(RequestInvalid)
            else if p.credential.PersonalAccessToken? && (s.registry[a].tokenForbidden || a !in p.credential.scopes)
            then scopes == Ok(Scopes(None, false, {}, {}))
            else if |ListActive(s.bindings, p.user, at)| > 256 then scopes == Err(Unavailable)
            else Gathered(s, p, a, at, scopes)
  {
    FitExactly(s.registry, p);
    if a in s.registry { GatherTold(s, p, a, at); }
  }

  // ----- delegation

  /** The listed scopes hold the target; from strictly above it if need be. */
  ghost predicate HeldAt(campus: Campus, c: Scopes, target: Scope, above: bool)
    requires Forest(campus.units)
  {
    || c.institutionWide
    || (target.kind == ClassScope && !above && target.id in c.classes)
    || (target.kind != InstitutionScope
        && exists root :: root in c.roots && Within(campus, Delegation.ScopeResource(target), root)
                          && (above && target.kind == UnitScope ==> root != target.id))
  }

  /** Whether one action may be passed on at the target. Those that administer
      access must be held from above, save at the Institution. */
  ghost function Delegable(s: State, p: Principal, a: Action, target: Scope, at: int): Result<bool, AccessError>
    requires Forest(s.campus.units)
  {
    if a !in s.registry || s.registry[a].relationshipOnly then Ok(false)
    else
      match AuthorizedScopes(s, p, a, s.registry[a].resourceType, at)
      case Err(e) => Err(e)
      case Ok(c) => Ok(HeldAt(s.campus, c, target, a in Delegation.PROTECTED && target.kind != InstitutionScope))
  }

  lemma ContainsExactly(campus: Campus, c: Scopes, target: Scope, found: Resolved, above: bool)
    requires SingleInstitution(campus) && Resolve(campus, Delegation.ScopeResource(target)) == Ok(found)
    requires above ==> target.kind != InstitutionScope
    ensures Delegation.ConstraintContains(c, target, found, above) <==> HeldAt(campus, c, target, above)
  {
    forall root ensures Within(campus, Delegation.ScopeResource(target), root) <==> root in found.units {
      WithinExactly(campus, Delegation.ScopeResource(target), found, root);
    }
  }

  lemma OneExactly(s: State, p: Principal, a: Action, target: Scope, found: Resolved, at: int)
    requires Valid(s) && Resolve(s.campus, Delegation.ScopeResource(target)) == Ok(found)
    ensures Delegation.CanDelegateOne(s, p, a, target, found, at) == Delegable(s, p, a, target, at)
  {
    if a in s.registry {
      var c := AuthorizedScopes(s, p, a, s.registry[a].resourceType, at);
      if c.Ok? { ContainsExactly(s.campus, c.value, target, found, Delegation.StrictParent(a, target)); }
    }
  }

  lemma {:induction false} EachExactly(s: State, p: Principal, actions: seq<Action>, target: Scope, found: Resolved, at: int)
    returns (i: nat)
    requires Valid(s) && Resolve(s.campus, Delegation.ScopeResource(target)) == Ok(found)
    ensures i <= |actions| && (forall j :: 0 <= j < i ==> Delegable(s, p, actions[j], target, at) == Ok(true))
    ensures i < |actions| ==> Delegable(s, p, actions[i], target, at) != Ok(true)
    ensures Delegation.CanDelegateEach(s, p, actions, target, found, at)
            == if i < |actions| then Delegable(s, p, actions[i], target, at) else Ok(true)
  {
    i := 0;
    if actions != [] {
      OneExactly(s, p, actions[0], target, found, at);
      if Delegable(s, p, actions[0], target, at) == Ok(true) {
        var rest := EachExactly(s, p, actions[1..], target, found, at);
        i := rest + 1;
        forall j | 0 <= j < i ensures Delegable(s, p, actions[j], target, at) == Ok(true) {
          if j > 0 { assert actions[j] == actions[1..][j - 1]; }
        }
      }
    }
  }

  /** Delegation, for every principal, list of actions and target: a malformed or
      missing target is refused, and otherwise the first action that may not be
      passed on decides; with none, all may. */
  lemma DelegateExactly(s: State, p: Principal, actions: seq<Action>, target: Scope, at: int) returns (i: nat)
    requires Valid(s)
    ensures i <= |actions|
    ensures var r := Delegation.CanDelegate(s, p, actions, target, at);
            if !Text.IsOpaqueId(target.id) then r == Err(RequestInvalid)
            else if !Resolvable(s.campus, Delegation.ScopeResource(target)) then r == Err(NotFound)
            else
              && (forall j :: 0 <= j < i ==> Delegable(s, p, actions[j], target, at) == Ok(true))
              && (if i == |actions| then r == Ok(true)
                  else r == Delegable(s, p, actions[i], target, at) && r != Ok(true))
  {
    i := 0;
    var r := Delegation.ScopeResource(target);
    ResolvesExactly(s.campus, r);
    var found := Resolve(s.campus, r);
    if found.Ok? {
      WithinExactly(s.campus, r, found.value, r.id);
      i := EachExactly(s, p, actions, target, found.value, at);
    }
  }
}
