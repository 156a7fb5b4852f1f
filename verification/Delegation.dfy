/** Delegation of Role Bindings (server/app/access_scope.go): a principal may
    bind a Role at a scope only when the set form of every action in that Role
    contains the scope. Over whole runs this never creates authority, and
    protected actions only flow strictly downward. */
module Delegation {
  import opened Outcomes
  import opened Campus
  import opened AccessModel
  import opened AccessScope
  import Text

  const PROTECTED: set<Action> :=
    {"institution.manage", "role.manage", "role_binding.manage", "access_policy.manage", "external_identity.manage"}

  function ScopeResource(scope: Scope): Resource {
    match scope.kind
    case InstitutionScope => Resource(InstitutionResource, scope.id)
    case UnitScope => Resource(AcademicUnitResource, scope.id)
    case ClassScope => Resource(ClassResource, scope.id)
  }

  /** delegationConstraintContains. */
  predicate ConstraintContains(c: Scopes, target: Scope, found: Resolved, strictParent: bool) {
    c.institutionWide ||
    match target.kind
    case InstitutionScope => false
    case UnitScope => exists root :: root in c.roots && root in found.units && (!strictParent || root != target.id)
    case ClassScope => (!strictParent && target.id in c.classes) || exists root :: root in c.roots && root in found.units
  }

  predicate StrictParent(a: Action, target: Scope) {
    a in PROTECTED && target.kind != InstitutionScope
  }

  /** One action of the Role: refused, failed, or held at the target. */
  function CanDelegateOne(s: State, p: Principal, a: Action, target: Scope, found: Resolved, at: int)
    : Result<bool, AccessError>
    requires Forest(s.campus.units)
  {
    if a !in s.registry || s.registry[a].relationshipOnly then Ok(false)
    else
      var c := AuthorizedScopes(s, p, s.registry[a].action, s.registry[a].resourceType, at);
      if c.Err? then Err(c.error)
      else Ok(ConstraintContains(c.value, target, found, StrictParent(s.registry[a].action, target)))
  }

  /** The first action that is not held decides. */
  function CanDelegateEach(s: State, p: Principal, actions: seq<Action>, target: Scope, found: Resolved, at: int)
    : Result<bool, AccessError>
    requires Forest(s.campus.units)
  {
    if actions == [] then Ok(true)
    else
      var head := CanDelegateOne(s, p, actions[0], target, found, at);
      if head != Ok(true) then head else CanDelegateEach(s, p, actions[1..], target, found, at)
  }

  function CanDelegate(s: State, p: Principal, actions: seq<Action>, target: Scope, at: int): Result<bool, AccessError>
    requires Forest(s.campus.units)
  {
    if !Text.IsOpaqueId(target.id) then Err(RequestInvalid)
    else
      var found := Resolve(s.campus, ScopeResource(target));
      if found.Err? then Err(found.error) else CanDelegateEach(s, p, actions, target, found.value, at)
  }

  /** The source's loop over the Role's actions, on the listed constraint. */
  method CanDelegateActionsAtScope(s: State, p: Principal, actions: seq<Action>, target: Scope, at: int)
    returns (r: Result<bool, AccessError>)
    requires Valid(s)
    ensures r == CanDelegate(s, p, actions, target, at)
  {
    if !Text.IsOpaqueId(target.id) { return Err(RequestInvalid); }
    var found := Resolve(s.campus, ScopeResource(target));
    if found.Err? { return Err(found.error); }
    for i := 0 to |actions|
      invariant CanDelegateEach(s, p, actions, target, found.value, at)
                == CanDelegateEach(s, p, actions[i..], target, found.value, at)
    {
      var a := actions[i];
      assert actions[i..][1..] == actions[i + 1..];
      if a !in s.registry || s.registry[a].relationshipOnly { return Ok(false); }
      var d := s.registry[a];
      var constraint := AuthorizedScopesAt(s, p, d.action, d.resourceType, at);
      if constraint.Err? { return Err(constraint.error); }
      if !ListedContains(constraint.value, target, found.value, StrictParent(d.action, target)) { return Ok(false); }
    }
    return Ok(true);
  }

  predicate ListedContains(c: Constraint, target: Scope, found: Resolved, strictParent: bool) {
    c.institutionWide ||
    match target.kind
    case InstitutionScope => false
    case UnitScope => exists root :: root in c.roots && root in found.units && (!strictParent || root != target.id)
    case ClassScope => (!strictParent && target.id in c.classes) || exists root :: root in c.roots && root in found.units
  }

  // ----- containment of scopes

  /** Everything at `inner` is also at `outer`. */
  predicate Contains(campus: Campus, outer: Scope, inner: Scope)
    requires Forest(campus.units)
  {
    outer == inner ||
    match outer.kind
    case InstitutionScope => outer.id == campus.institution
    case UnitScope =>
      || (inner.kind == UnitScope && outer.id in AncestorSet(campus.units, inner.id))
      || (inner.kind == ClassScope && inner.id in campus.classes
          && outer.id in AncestorSet(campus.units, campus.classes[inner.id].unit))
    case ClassScope => false
  }

  lemma ContainsTransitive(campus: Campus, a: Scope, b: Scope, c: Scope)
    requires Forest(campus.units) && Contains(campus, a, b) && Contains(campus, b, c)
    ensures Contains(campus, a, c)
  {
    if a != b && b != c && a.kind == UnitScope && b.kind == UnitScope {
      var u := if c.kind == UnitScope then c.id else campus.classes[c.id].unit;
      AncestryTransitive(campus.units, u, b.id);
    }
  }

  function ScopeDepth(campus: Campus, scope: Scope): nat
    requires Forest(campus.units)
  {
    match scope.kind
    case InstitutionScope => 0
    case UnitScope => Depth(campus.units, scope.id)
    case ClassScope => if scope.id in campus.classes then Depth(campus.units, campus.classes[scope.id].unit) + 1 else 0
  }

  predicate Supports(d: Definition, kind: ScopeType) {
    match kind
    case InstitutionScope => d.inheritInstitution
    case UnitScope => d.inheritUnits
    case ClassScope => d.Accepts(ClassResource)
  }

  /** The binding grants the action and the action honours such a scope. */
  predicate Confers(s: State, b: Binding, a: Action) {
    Grants(s.roles, b, a) && a in s.registry && Supports(s.registry[a], b.scope.kind)
  }

  // ----- one delegation

  /** Where one contribution can come from. */
  lemma ContributionShape(s: State, p: Principal, d: Definition, b: Binding)
    requires Forest(s.campus.units) && Contribution(s, p, d, b).Ok?
    ensures var c := Contribution(s, p, d, b).value;
            && (c.institutionWide || c.roots != {} || c.classes != {} ==> Supports(d, b.scope.kind))
            && (c.institutionWide ==> b.scope == Scope(InstitutionScope, s.campus.institution))
            && (forall root :: root in c.roots ==>
                  b.scope == Scope(InstitutionScope, s.campus.institution) || b.scope == Scope(UnitScope, root))
            && (forall class_ :: class_ in c.classes ==> b.scope == Scope(ClassScope, class_))
  {
  }

  /** The unit a live target hangs from, and the target's depth. */
  lemma TargetShape(s: State, target: Scope, found: Resolved)
    requires Valid(s) && Resolve(s.campus, ScopeResource(target)) == Ok(found)
    ensures target.kind == InstitutionScope ==> target.id == s.campus.institution && found.units == {}
    ensures target.kind != InstitutionScope ==> ScopeDepth(s.campus, target) > 0
    ensures forall root :: root in found.units ==>
              && Contains(s.campus, Scope(UnitScope, root), target)
              && (Scope(UnitScope, root) != target ==>
                    ScopeDepth(s.campus, Scope(UnitScope, root)) < ScopeDepth(s.campus, target))
  {
    ResolvedShape(s.campus, ScopeResource(target), found);
    if target.kind != InstitutionScope {
      var u := if target.kind == UnitScope then target.id else s.campus.classes[target.id].unit;
      OwnedShape(s.campus, u);
      forall root | root in found.units
        ensures root == u || Depth(s.campus.units, root) < Depth(s.campus.units, u)
      {
        AncestryTransitive(s.campus.units, u, root);
      }
    }
  }

  /** A binding of the principal that confers the action now. */
  predicate Held(s: State, p: Principal, a: Action, b: Binding, at: int) {
    b in s.bindings && b.user == p.user && ActiveAt(b, at) && Confers(s, b, a)
  }

  lemma WideIsHeld(s: State, p: Principal, a: Action, c: Scopes, kind: ResourceType, at: int) returns (b: Binding)
    requires Valid(s) && AuthorizedScopes(s, p, a, kind, at) == Ok(c) && c.institutionWide
    ensures Held(s, p, a, b, at) && b.scope == Scope(InstitutionScope, s.campus.institution)
  {
    var active, d := ListActive(s.bindings, p.user, at), s.registry[a];
    GatherMembers(s, p, d, active);
    b :| b in active && Grants(s.roles, b, a) && Contribution(s, p, d, b).value.institutionWide;
    ContributionShape(s, p, d, b);
  }

  lemma ClassIsHeld(s: State, p: Principal, a: Action, c: Scopes, kind: ResourceType, at: int, class_: Id) returns (b: Binding)
    requires Valid(s) && AuthorizedScopes(s, p, a, kind, at) == Ok(c) && class_ in c.classes
    ensures Held(s, p, a, b, at) && b.scope == Scope(ClassScope, class_)
  {
    var active, d := ListActive(s.bindings, p.user, at), s.registry[a];
    GatherMembers(s, p, d, active);
    b :| b in active && Grants(s.roles, b, a) && class_ in Contribution(s, p, d, b).value.classes;
    ContributionShape(s, p, d, b);
  }

  lemma RootIsHeld(s: State, p: Principal, a: Action, c: Scopes, kind: ResourceType, at: int, root: Id) returns (b: Binding)
    requires Valid(s) && AuthorizedScopes(s, p, a, kind, at) == Ok(c) && root in c.roots
    ensures Held(s, p, a, b, at)
    ensures b.scope == Scope(InstitutionScope, s.campus.institution) || b.scope == Scope(UnitScope, root)
  {
    var active, d := ListActive(s.bindings, p.user, at), s.registry[a];
    GatherMembers(s, p, d, active);
    b :| b in active && Grants(s.roles, b, a) && root in Contribution(s, p, d, b).value.roots;
    ContributionShape(s, p, d, b);
  }

  /** A held scope is backed by one binding of the delegator that contains it;
      for a protected action below the Institution that binding is strictly
      shallower and never a Class binding. */
  lemma HeldIsBacked(s: State, p: Principal, a: Action, target: Scope, found: Resolved, strict: bool, c: Scopes,
                     kind: ResourceType, at: int) returns (b: Binding)
    requires Valid(s) && Resolve(s.campus, ScopeResource(target)) == Ok(found)
    requires AuthorizedScopes(s, p, a, kind, at) == Ok(c) && ConstraintContains(c, target, found, strict)
    ensures b in s.bindings && b.user == p.user && ActiveAt(b, at)
    ensures Confers(s, b, a) && Contains(s.campus, b.scope, target)
    ensures target.kind == InstitutionScope ==> b.scope.kind == InstitutionScope
    ensures strict && target.kind != InstitutionScope ==>
              b.scope.kind != ClassScope && ScopeDepth(s.campus, b.scope) < ScopeDepth(s.campus, target)
  {
    TargetShape(s, target, found);
    if c.institutionWide {
      b := WideIsHeld(s, p, a, c, kind, at);
    } else if target.kind == ClassScope && !strict && target.id in c.classes {
      b := ClassIsHeld(s, p, a, c, kind, at, target.id);
    } else {
      var root :| root in c.roots && root in found.units && (target.kind == UnitScope && strict ==> root != target.id);
      b := RootIsHeld(s, p, a, c, kind, at, root);
    }
  }

  lemma {:induction false} EachIsOne(s: State, p: Principal, actions: seq<Action>, target: Scope, found: Resolved, at: int,
                                     a: Action)
    requires Forest(s.campus.units)
    requires CanDelegateEach(s, p, actions, target, found, at) == Ok(true) && a in actions
    ensures CanDelegateOne(s, p, a, target, found, at) == Ok(true)
  {
    if a != actions[0] {
      EachIsOne(s, p, actions[1..], target, found, at, a);
    }
  }

  /** A principal binds the Role of `b` at the scope of `b`. */
  ghost predicate Delegates(s: State, p: Principal, b: Binding, actions: seq<Action>, at: int)
    requires Forest(s.campus.units)
  {
    && b.role in s.roles && (forall a :: a in s.roles[b.role] ==> a in actions)
    && CanDelegate(s, p, actions, b.scope, at) == Ok(true)
  }

  /** Every action the new binding grants was backed by a binding of the
      delegator at a containing scope, strictly shallower if protected. */
  lemma DelegationIsBacked(s: State, p: Principal, b: Binding, actions: seq<Action>, at: int, a: Action)
    returns (backing: Binding)
    requires Valid(s) && Delegates(s, p, b, actions, at) && Grants(s.roles, b, a)
    ensures backing in s.bindings && backing.user == p.user && ActiveAt(backing, at)
    ensures Confers(s, backing, a) && Contains(s.campus, backing.scope, b.scope)
    ensures Descends(s, a, backing, b)
  {
    var found := Resolve(s.campus, ScopeResource(b.scope)).value;
    EachIsOne(s, p, actions, b.scope, found, at, a);
    var d := s.registry[a];
    var c := AuthorizedScopes(s, p, d.action, d.resourceType, at).value;
    backing := HeldIsBacked(s, p, a, b.scope, found, StrictParent(a, b.scope), c, d.resourceType, at);
  }

  /** The depth rule of one delegation step: Institution bindings come from
      Institution bindings, and a protected action below the Institution comes
      from a strictly shallower Institution or unit binding. */
  predicate Descends(s: State, a: Action, parent: Binding, child: Binding)
    requires Forest(s.campus.units)
  {
    if child.scope.kind == InstitutionScope then parent.scope.kind == InstitutionScope
    else a in PROTECTED ==>
      parent.scope.kind != ClassScope && ScopeDepth(s.campus, parent.scope) < ScopeDepth(s.campus, child.scope)
  }

  // ----- runs

  predicate SameGrant(a: Binding, b: Binding) { a.user == b.user && a.role == b.role && a.scope == b.scope }

  /** One step: a delegated binding is added, or bindings are ended, rescheduled
      or removed. Campus, registry and Roles do not change. */
  ghost predicate Next(s: State, s': State)
    requires Forest(s.campus.units)
  {
    && s' == s.(bindings := s'.bindings)
    && ((exists p, b, actions, at :: Delegates(s, p, b, actions, at) && s'.bindings == s.bindings + [b])
        || (forall b :: b in s'.bindings ==> exists o :: o in s.bindings && SameGrant(o, b)))
  }

  ghost predicate Run(trace: seq<State>) {
    && trace != [] && Valid(trace[0])
    && (forall i :: 0 <= i < |trace| ==> trace[i] == trace[0].(bindings := trace[i].bindings))
    && forall i :: 0 < i < |trace| ==> Next(trace[i - 1], trace[i])
  }

  /** `parent` confers the action at a scope containing that of `child`, within
      the depth rule. */
  ghost predicate Link(s: State, a: Action, parent: Binding, child: Binding)
    requires Forest(s.campus.units)
  {
    Confers(s, parent, a) && Contains(s.campus, parent.scope, child.scope) && Descends(s, a, parent, child)
  }

  ghost predicate Linked(s: State, a: Action, chain: seq<Binding>)
    requires Forest(s.campus.units)
  {
    forall i :: 0 < i < |chain| ==> Link(s, a, chain[i - 1], chain[i])
  }

  /** How an action reached a binding: from an initial binding, each link
      delegated by a holder of the one before. */
  ghost predicate Provenance(initial: State, a: Action, chain: seq<Binding>, b: Binding)
    requires Forest(initial.campus.units)
  {
    && chain != [] && chain[0] in initial.bindings
    && SameGrant(chain[|chain| - 1], b) && Linked(initial, a, chain)
  }

  lemma ProvenanceExtends(initial: State, a: Action, chain: seq<Binding>, backing: Binding, b: Binding)
    requires Forest(initial.campus.units) && Provenance(initial, a, chain, backing) && Link(initial, a, backing, b)
    ensures Provenance(initial, a, chain + [b], b)
  {
    var longer, m := chain + [b], |chain|;
    forall i | 0 < i < |longer| ensures Link(initial, a, longer[i - 1], longer[i]) {
      if i < m {
        assert Link(initial, a, chain[i - 1], chain[i]);
      } else {
        assert SameGrant(longer[i - 1], backing);
      }
    }
  }

  /** One step of a run: every binding after it was there before, or is linked
      to one that was. */
  lemma StepIsLinked(s: State, s': State, b: Binding, a: Action) returns (o: Binding)
    requires Valid(s) && Next(s, s') && b in s'.bindings && Grants(s.roles, b, a)
    ensures o in s.bindings && (SameGrant(o, b) || Link(s, a, o, b)) && Grants(s.roles, o, a)
  {
    if old_ :| old_ in s.bindings && SameGrant(old_, b) {
      o := old_;
    } else {
      assert b !in s.bindings by { assert SameGrant(b, b); }
      var p, b', actions, at :| Delegates(s, p, b', actions, at) && s'.bindings == s.bindings + [b'];
      assert b' == b;
      o := DelegationIsBacked(s, p, b, actions, at, a);
    }
  }

  /** Every binding of every reachable state has a provenance for every action
      it grants. */
  lemma {:induction false} ProvenanceExists(trace: seq<State>, b: Binding, a: Action) returns (chain: seq<Binding>)
    requires Run(trace) && b in trace[|trace| - 1].bindings && Grants(trace[0].roles, b, a)
    ensures Provenance(trace[0], a, chain, b)
    decreases |trace|
  {
    if |trace| == 1 {
      return [b];
    }
    var n := |trace| - 1;
    var o := StepIsLinked(trace[n - 1], trace[n], b, a);
    chain := ProvenanceExists(trace[..n], o, a);
    if !SameGrant(o, b) {
      LinkFrame(trace[0], trace[n - 1], a, o, b);
      ProvenanceExtends(trace[0], a, chain, o, b);
      chain := chain + [b];
    }
  }

  /** Links depend on the hierarchy, the registry and the Roles only. */
  lemma LinkFrame(s: State, t: State, a: Action, parent: Binding, child: Binding)
    requires t == s.(bindings := t.bindings) && Forest(s.campus.units) && Link(t, a, parent, child)
    ensures Link(s, a, parent, child)
  {
    assert s.campus == t.campus && s.roles == t.roles && s.registry == t.registry;
  }

  /** The first binding of a provenance contains the last. */
  lemma {:induction false} ChainContains(s: State, a: Action, chain: seq<Binding>)
    requires Forest(s.campus.units) && chain != [] && Linked(s, a, chain)
    ensures Contains(s.campus, chain[0].scope, chain[|chain| - 1].scope)
    ensures |chain| > 1 ==> Confers(s, chain[0], a)
  {
    if |chain| > 1 {
      var n := |chain| - 1;
      ChainContains(s, a, chain[..n]);
      assert Link(s, a, chain[n - 1], chain[n]) && Link(s, a, chain[0], chain[1]);
      ContainsTransitive(s.campus, chain[0].scope, chain[n - 1].scope, chain[n].scope);
    }
  }

  /** Delegation never creates authority. In every run, whatever the ceilings
      of the delegating principals: an action that anyone holds at a scope, as
      the set form of the last state reports it, is conferred by a binding of
      the first state at a scope containing it. */
  lemma NoAuthorityCreated(trace: seq<State>, p: Principal, a: Action, target: Scope, found: Resolved,
                           kind: ResourceType, c: Scopes, at: int) returns (origin: Binding)
    requires Run(trace)
    requires var s := trace[|trace| - 1];
             && Forest(s.campus.units) && Resolve(s.campus, ScopeResource(target)) == Ok(found)
             && AuthorizedScopes(s, p, a, kind, at) == Ok(c) && ConstraintContains(c, target, found, false)
    ensures origin in trace[0].bindings && Confers(trace[0], origin, a)
    ensures Contains(trace[0].campus, origin.scope, target)
  {
    var s := trace[|trace| - 1];
    var b := HeldIsBacked(s, p, a, target, found, false, c, kind, at);
    var chain := ProvenanceExists(trace, b, a);
    ChainContains(trace[0], a, chain);
    origin := chain[0];
    ContainsTransitive(s.campus, origin.scope, b.scope, target);
  }

  // ----- protected actions

  /** No unit lies deeper than `height`. */
  ghost predicate HeightAtMost(units: map<Id, Unit>, height: nat)
    requires Forest(units)
  {
    forall u :: Depth(units, u) <= height
  }

  /** Along a chain, Institution bindings come first, Class bindings last, and
      the depth of a protected action grows at every link in between. */
  lemma {:induction false} ProtectedDepthGrows(s: State, a: Action, chain: seq<Binding>, first: nat)
    requires Forest(s.campus.units) && Linked(s, a, chain) && a in PROTECTED
    requires first < |chain| && chain[first].scope.kind != InstitutionScope
    ensures forall i :: first <= i < |chain| ==> chain[i].scope.kind != InstitutionScope
    ensures forall i :: first <= i < |chain| - 1 ==> chain[i].scope.kind == UnitScope
    ensures ScopeDepth(s.campus, chain[|chain| - 1].scope)
            >= ScopeDepth(s.campus, chain[first].scope) + |chain| - 1 - first
  {
    var n := |chain| - 1;
    if first < n {
      ProtectedDepthGrows(s, a, chain[..n], first);
      assert Link(s, a, chain[n - 1], chain[n]);
    }
  }

  /** Below the Institution a protected action travels at most as many links as
      the forest is deep: at most height + 1 bindings of any provenance are
      outside Institution scope. */
  lemma ProtectedChainBounded(s: State, a: Action, chain: seq<Binding>, first: nat, height: nat)
    requires Forest(s.campus.units) && Linked(s, a, chain) && a in PROTECTED
    requires first < |chain| && chain[first].scope.kind != InstitutionScope
    requires HeightAtMost(s.campus.units, height)
    ensures |chain| - first <= height + 1
  {
    ProtectedDepthGrows(s, a, chain, first);
    if first + 1 < |chain| {
      var parent, child := chain[first].scope, chain[first + 1].scope;
      assert Link(s, a, chain[first], chain[first + 1]);
      var u := if child.kind == UnitScope then child.id else s.campus.classes[child.id].unit;
      AncestryTransitive(s.campus.units, u, parent.id);
    }
  }

  /** Every forest has a height. */
  lemma HeightOfForest(units: map<Id, Unit>)
    requires Forest(units)
    ensures HeightAtMost(units, |units|)
  {
    forall u ensures Depth(units, u) <= |units| { DepthBounded(units, u); }
  }

  /** A protected action can be passed on below the Institution only by someone
      holding it strictly above: no binding of theirs at that scope or below,
      and no Class binding, can back it. */
  lemma ProtectedNeedsStrictParent(s: State, p: Principal, b: Binding, actions: seq<Action>, at: int, a: Action)
    requires Valid(s) && Delegates(s, p, b, actions, at) && Grants(s.roles, b, a)
    requires a in PROTECTED && b.scope.kind != InstitutionScope
    ensures exists o :: o in s.bindings && o.user == p.user && ActiveAt(o, at) && Confers(s, o, a)
                        && o.scope.kind != ClassScope && o.scope != b.scope && Contains(s.campus, o.scope, b.scope)
                        && ScopeDepth(s.campus, o.scope) < ScopeDepth(s.campus, b.scope)
  {
    var o := DelegationIsBacked(s, p, b, actions, at, a);
  }

  /** A binding of the delegator that reaches the target, strictly from above
      when the action is protected. */
  predicate Backs(s: State, o: Binding, a: Action, target: Scope)
    requires Forest(s.campus.units)
  {
    && Confers(s, o, a) && Contains(s.campus, o.scope, target)
    && (StrictParent(a, target) ==> o.scope != target)
  }

  /** Delegation decided without the set form: for a principal with no ceiling
      whose scopes all resolve, a known action may be passed on at a live scope
      exactly when one of their active bindings backs it there. */
  lemma DelegationExact(s: State, p: Principal, a: Action, target: Scope, found: Resolved, c: Scopes, at: int)
    requires Valid(s) && p.credential.SessionAccess? && a in s.registry && !s.registry[a].relationshipOnly
    requires Resolve(s.campus, ScopeResource(target)) == Ok(found)
    requires AuthorizedScopes(s, p, a, s.registry[a].resourceType, at) == Ok(c)
    ensures CanDelegateOne(s, p, a, target, found, at)
            == Ok(exists o :: o in ListActive(s.bindings, p.user, at) && Backs(s, o, a, target))
  {
    var d, active := s.registry[a], ListActive(s.bindings, p.user, at);
    var strict := StrictParent(a, target);
    if ConstraintContains(c, target, found, strict) {
      var o := HeldIsBacked(s, p, a, target, found, strict, c, d.resourceType, at);
      assert o in active && Backs(s, o, a, target);
    }
    if o :| o in active && Backs(s, o, a, target) {
      GatherMembers(s, p, d, active);
      BackingIsGathered(s, p, a, target, found, o);
    }
  }

  lemma BackingIsGathered(s: State, p: Principal, a: Action, target: Scope, found: Resolved, o: Binding)
    requires Valid(s) && p.credential.SessionAccess? && a in s.registry && Backs(s, o, a, target)
    requires Resolve(s.campus, ScopeResource(target)) == Ok(found)
    requires Contribution(s, p, s.registry[a], o).Ok?
    ensures ConstraintContains(Contribution(s, p, s.registry[a], o).value, target, found, StrictParent(a, target))
  {
    ResolvedShape(s.campus, ScopeResource(target), found);
    if o.scope.kind == UnitScope {
      var u := if target.kind == UnitScope then target.id else s.campus.classes[target.id].unit;
      OwnedShape(s.campus, u);
      assert o.scope.id in found.units;
    }
  }
}
