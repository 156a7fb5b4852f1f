/** Actions, Roles, Role Bindings and principals: the durable state that both
    authorization forms read (server/model/authorization.go, principal.go). */
module AccessModel {
  import opened Outcomes
  import opened Campus

  type Action = string

  const USER_VIEW := "user.view"
  const USER_PROFILE_PICTURE_MANAGE := "user.profile_picture.manage"
  const ACADEMIC_PERIOD_VIEW := "academic_period.view"

  datatype Definition = Definition(
    action: Action, resourceType: ResourceType, compatible: set<ResourceType>,
    inheritInstitution: bool, inheritUnits: bool,
    relationshipOnly: bool, tokenForbidden: bool, systemAdministratorOnly: bool)
  {
    predicate Accepts(kind: ResourceType) { kind == resourceType || kind in compatible }
  }

  datatype ScopeType = InstitutionScope | UnitScope | ClassScope
  datatype Scope = Scope(kind: ScopeType, id: Id)

  datatype Binding = Binding(user: Id, role: Id, scope: Scope, startAt: int, endAt: Option<int>)

  /** A session carries no ceiling; a personal access token is capped by its
      action scopes and, optionally, by one Academic Unit. */
  datatype Credential = SessionAccess | PersonalAccessToken(scopes: set<Action>, ceiling: Option<Id>)
  datatype Principal = Principal(user: Id, credential: Credential, mfaRecoveryRequired: bool)
  {
    function Ceiling(): Option<Id> {
      if credential.PersonalAccessToken? then credential.ceiling else None
    }
  }

  datatype State = State(
    campus: Campus, registry: map<Action, Definition>, roles: map<Id, set<Action>>, bindings: seq<Binding>)

  predicate SelfServiceAction(a: Action) {
    a == USER_VIEW || a == USER_PROFILE_PICTURE_MANAGE
  }

  /** The registry names each definition by its action, and the two
      self-service actions accept only User resources. */
  ghost predicate RegistryValid(registry: map<Action, Definition>) {
    && (forall a :: a in registry ==> registry[a].action == a)
    && (forall a, kind :: a in registry && SelfServiceAction(a) && registry[a].Accepts(kind) ==> kind == UserResource)
  }

  ghost predicate Valid(s: State) {
    SingleInstitution(s.campus) && RegistryValid(s.registry)
  }

  predicate TokenAction(registry: map<Action, Definition>, a: Action) {
    a in registry && !registry[a].relationshipOnly && !registry[a].systemAdministratorOnly && !registry[a].tokenForbidden
  }

  predicate ValidPrincipal(registry: map<Action, Definition>, p: Principal) {
    && !p.mfaRecoveryRequired
    && (p.credential.PersonalAccessToken? ==>
          p.credential.scopes != {} && forall a :: a in p.credential.scopes ==> TokenAction(registry, a))
  }

  predicate ActiveAt(b: Binding, at: int) {
    b.startAt <= at && (b.endAt.None? || at < b.endAt.value)
  }

  /** RoleBindingStore.ListActiveByUser. */
  function ListActive(bindings: seq<Binding>, user: Id, at: int): (r: seq<Binding>)
    ensures forall b :: b in r <==> b in bindings && b.user == user && ActiveAt(b, at)
  {
    if bindings == [] then []
    else
      assert bindings == [bindings[0]] + bindings[1..];
      (if bindings[0].user == user && ActiveAt(bindings[0], at) then [bindings[0]] else [])
      + ListActive(bindings[1..], user, at)
  }

  predicate Grants(roles: map<Id, set<Action>>, b: Binding, a: Action) {
    b.role in roles && a in roles[b.role]
  }
}
