/** The persisted hierarchy behind authorization: one Institution, a forest of
    Academic Units, and the resources that live in them, together with the
    resolver that maps a resource to the scopes containing it
    (server/app/access_scope.go). */
module Campus {
  import opened Outcomes

  type Id = string

  datatype ResourceType =
    | InstitutionResource | AcademicUnitResource | ProgrammeResource | ProgrammeLevelResource
    | AcademicPeriodResource | ClassResource | UserResource | ExamResource
    | ExamSittingResource | SubmissionResource | MailDeliveryResource

  datatype Resource = Resource(kind: ResourceType, id: Id)

  datatype Unit = Unit(institution: Id, parent: Option<Id>, archived: bool)
  datatype Programme = Programme(unit: Id, archived: bool)
  datatype Level = Level(programme: Id, archived: bool)
  datatype PeriodOwner = InstitutionOwner(institution: Id) | UnitOwner(unit: Id)
  datatype Period = Period(owner: PeriodOwner, archived: bool)
  datatype Class = Class(unit: Id, period: Id, archived: bool)

  datatype Campus = Campus(
    institution: Id, institutionArchived: bool,
    units: map<Id, Unit>, programmes: map<Id, Programme>, levels: map<Id, Level>,
    periods: map<Id, Period>, classes: map<Id, Class>,
    exams: map<Id, Id>, sittings: map<Id, Id>, submissions: map<Id, Id>, activeUsers: set<Id>)

  datatype AccessError = TokenInvalid | RequestInvalid | NotFound | Unavailable

  /** What the resolver learns about a resource: its Institution, every live
      Academic Unit containing it, and the Class it is. */
  datatype Resolved = Resolved(
    institution: Id, units: set<Id>, target: Option<Id>, class_: Option<Id>, institutionOwnedPeriod: bool)

  // ----- the forest

  ghost predicate Ranks(units: map<Id, Unit>, rank: Id -> nat) {
    forall u :: u in units && units[u].parent.Some? ==> rank(units[u].parent.value) < rank(u)
  }

  /** Parents never form a cycle. */
  ghost predicate Forest(units: map<Id, Unit>) {
    exists rank: Id -> nat :: Ranks(units, rank)
  }

  ghost function Rank(units: map<Id, Unit>): (rank: Id -> nat)
    requires Forest(units)
    ensures Ranks(units, rank)
  {
    var rank: Id -> nat :| Ranks(units, rank);
    rank
  }

  /** The Academic Unit store's ancestor query: the unit itself, then each live
      parent in turn; the walk ends at the first missing or archived unit. */
  function Ancestors(units: map<Id, Unit>, u: Id): (chain: seq<Id>)
    requires Forest(units)
    ensures forall a :: a in chain ==> a in units && !units[a].archived
    decreases Rank(units)(u)
  {
    if u !in units || units[u].archived then []
    else [u] + if units[u].parent.Some? then Ancestors(units, units[u].parent.value) else []
  }

  /** The chain is the walk up: it starts at the unit if that is live, each next
      one is the parent of the one before, and it stops only where there is no
      live parent. */
  lemma {:induction false} AncestorsWalkUp(units: map<Id, Unit>, u: Id)
    requires Forest(units)
    ensures var chain := Ancestors(units, u);
            && (chain != [] <==> Live(units, u)) && (chain != [] ==> chain[0] == u)
            && (forall i :: 0 < i < |chain| ==> units[chain[i - 1]].parent == Some(chain[i]))
            && (chain != [] ==> var parent := units[chain[|chain| - 1]].parent; parent.None? || !Live(units, parent.value))
    decreases Rank(units)(u)
  {
    if Live(units, u) && units[u].parent.Some? {
      AncestorsWalkUp(units, units[u].parent.value);
    }
  }

  predicate Live(units: map<Id, Unit>, u: Id) { u in units && !units[u].archived }

  function AncestorSet(units: map<Id, Unit>, u: Id): set<Id>
    requires Forest(units)
  {
    set a | a in Ancestors(units, u)
  }

  function Depth(units: map<Id, Unit>, u: Id): nat
    requires Forest(units)
  {
    |Ancestors(units, u)|
  }

  /** Ancestry is transitive, and a strict ancestor is strictly shallower. */
  lemma {:induction false} AncestryTransitive(units: map<Id, Unit>, u: Id, a: Id)
    requires Forest(units)
    requires a in AncestorSet(units, u)
    ensures AncestorSet(units, a) <= AncestorSet(units, u)
    ensures a in AncestorSet(units, a) && u in AncestorSet(units, u)
    ensures a != u ==> Depth(units, a) < Depth(units, u)
    decreases Rank(units)(u)
  {
    if a != u {
      AncestryTransitive(units, units[u].parent.value, a);
    }
  }

  /** Two ancestors of one unit lie on one path. */
  lemma {:induction false} AncestorsComparable(units: map<Id, Unit>, u: Id, a: Id, b: Id)
    requires Forest(units)
    requires a in AncestorSet(units, u) && b in AncestorSet(units, u)
    ensures a in AncestorSet(units, b) || b in AncestorSet(units, a)
    decreases Rank(units)(u)
  {
    if a != u && b != u {
      AncestorsComparable(units, units[u].parent.value, a, b);
    }
  }

  /** A chain visits no unit twice, so depth is bounded by the number of units. */
  lemma {:induction false} DepthBounded(units: map<Id, Unit>, u: Id)
    requires Forest(units)
    ensures Depth(units, u) == |AncestorSet(units, u)| <= |units|
    ensures forall a :: a in AncestorSet(units, u) ==> Rank(units)(a) <= Rank(units)(u)
    decreases Rank(units)(u)
  {
    if u in units && !units[u].archived && units[u].parent.Some? {
      var parent := units[u].parent.value;
      DepthBounded(units, parent);
      assert AncestorSet(units, u) == {u} + AncestorSet(units, parent);
    } else if u in units && !units[u].archived {
      assert AncestorSet(units, u) == {u};
    }
    SubsetSize(AncestorSet(units, u), units.Keys);
  }

  lemma {:induction false} SubsetSize(a: set<Id>, b: set<Id>)
    requires a <= b
    ensures |a| <= |b|
  {
    if x :| x in a {
      SubsetSize(a - {x}, b - {x});
    }
  }

  // ----- the resolver

  predicate LiveChain(units: map<Id, Unit>, chain: seq<Id>) {
    forall a :: a in chain ==> a in units && !units[a].archived
  }

  /** A resource owned by unit `u`: found when the ancestor query returns a
      non-empty chain whose units are all live. */
  function OwnedByUnit(campus: Campus, u: Id): (r: Result<Resolved, AccessError>)
    requires Forest(campus.units)
  {
    var chain := Ancestors(campus.units, u);
    if chain == [] || !LiveChain(campus.units, chain) then Err(NotFound)
    else Ok(Resolved(campus.units[chain[0]].institution, (set a | a in chain), Some(u), None, false))
  }

  function ResolveInstitution(campus: Campus, id: Id): Result<Resolved, AccessError> {
    if id != campus.institution || campus.institutionArchived then Err(NotFound)
    else Ok(Resolved(id, {}, None, None, false))
  }

  function ResolvePeriod(campus: Campus, id: Id): Result<Resolved, AccessError>
    requires Forest(campus.units)
  {
    if id !in campus.periods || campus.periods[id].archived then Err(NotFound)
    else match campus.periods[id].owner
      case InstitutionOwner(i) =>
        var found := ResolveInstitution(campus, i);
        if found.Err? then found else Ok(found.value.(institutionOwnedPeriod := true))
      case UnitOwner(u) => OwnedByUnit(campus, u)
  }

  function ResolveProgramme(campus: Campus, id: Id): Result<Resolved, AccessError>
    requires Forest(campus.units)
  {
    if id !in campus.programmes || campus.programmes[id].archived then Err(NotFound)
    else OwnedByUnit(campus, campus.programmes[id].unit)
  }

  /** A Class is found when its own chain is live and its Academic Period is
      live and applies to it. */
  function ResolveClass(campus: Campus, id: Id): Result<Resolved, AccessError>
    requires Forest(campus.units)
  {
    if id !in campus.classes || campus.classes[id].archived then Err(NotFound)
    else
      var found := OwnedByUnit(campus, campus.classes[id].unit);
      var period := ResolvePeriod(campus, campus.classes[id].period);
      if found.Err? then found
      else if period.Err? then period
      else if period.value.institution != found.value.institution then Err(NotFound)
      else if !period.value.institutionOwnedPeriod &&
              (period.value.target.None? || period.value.target.value !in found.value.units) then Err(NotFound)
      else Ok(found.value.(class_ := Some(id)))
  }

  function Resolve(campus: Campus, r: Resource): Result<Resolved, AccessError>
    requires Forest(campus.units)
  {
    match r.kind
    case InstitutionResource => ResolveInstitution(campus, r.id)
    case AcademicUnitResource => OwnedByUnit(campus, r.id)
    case AcademicPeriodResource => ResolvePeriod(campus, r.id)
    case ProgrammeResource => ResolveProgramme(campus, r.id)
    case ProgrammeLevelResource =>
      if r.id !in campus.levels || campus.levels[r.id].archived then Err(NotFound)
      else ResolveProgramme(campus, campus.levels[r.id].programme)
    case ClassResource => ResolveClass(campus, r.id)
    case ExamResource => if r.id in campus.exams then OwnedByUnit(campus, campus.exams[r.id]) else Err(NotFound)
    case ExamSittingResource =>
      if r.id !in campus.sittings || campus.sittings[r.id] !in campus.exams then Err(NotFound)
      else OwnedByUnit(campus, campus.exams[campus.sittings[r.id]])
    case SubmissionResource =>
      if r.id in campus.submissions then OwnedByUnit(campus, campus.submissions[r.id]) else Err(NotFound)
    case UserResource =>
      if r.id in campus.activeUsers then ResolveInstitution(campus, campus.institution) else Err(NotFound)
    case MailDeliveryResource => Err(RequestInvalid)
  }

  /** Installations hold one Institution, and every unit belongs to it. */
  ghost predicate SingleInstitution(campus: Campus) {
    && Forest(campus.units)
    && forall u :: u in campus.units ==> campus.units[u].institution == campus.institution
  }

  /** Resource kinds whose scope is an Academic Unit chain. */
  predicate UnitScoped(kind: ResourceType) {
    kind in {AcademicUnitResource, ProgrammeResource, ProgrammeLevelResource, AcademicPeriodResource,
             ClassResource, ExamResource, ExamSittingResource, SubmissionResource}
  }

  lemma OwnedShape(campus: Campus, u: Id)
    requires SingleInstitution(campus)
    ensures var r := OwnedByUnit(campus, u);
            r.Ok? <==> u in campus.units && !campus.units[u].archived
    ensures var r := OwnedByUnit(campus, u);
            r.Ok? ==> r.value == Resolved(campus.institution, AncestorSet(campus.units, u), Some(u), None, false) &&
                      u in r.value.units
  {
    var chain := Ancestors(campus.units, u);
    assert chain != [] ==> chain[0] == u && u in chain;
  }

  // ----- when a resource resolves, over the stored entities

  predicate LivePeriod(campus: Campus, id: Id) { id in campus.periods && !campus.periods[id].archived }

  predicate LiveProgramme(campus: Campus, id: Id) { id in campus.programmes && !campus.programmes[id].archived }

  /** An Academic Period of the installation itself. */
  predicate InstitutionPeriod(campus: Campus, id: Id) {
    LivePeriod(campus, id) && campus.periods[id].owner == InstitutionOwner(campus.institution) && !campus.institutionArchived
  }

  /** A Class of unit u can use the period: it is live, and the Institution's or
      of a live unit from u up. */
  ghost predicate PeriodApplies(campus: Campus, id: Id, u: Id)
    requires Forest(campus.units)
  {
    || InstitutionPeriod(campus, id)
    || (LivePeriod(campus, id) && exists a :: a in Ancestors(campus.units, u) && campus.periods[id].owner == UnitOwner(a))
  }

  /** The resource exists and hangs from unit u through entities that are all
      live. */
  ghost predicate HangsFrom(campus: Campus, r: Resource, u: Id)
    requires Forest(campus.units)
  {
    Live(campus.units, u) &&
    match r.kind
    case AcademicUnitResource => u == r.id
    case ProgrammeResource => LiveProgramme(campus, r.id) && campus.programmes[r.id].unit == u
    case ProgrammeLevelResource =>
      && r.id in campus.levels && !campus.levels[r.id].archived && LiveProgramme(campus, campus.levels[r.id].programme)
      && campus.programmes[campus.levels[r.id].programme].unit == u
    case AcademicPeriodResource => LivePeriod(campus, r.id) && campus.periods[r.id].owner == UnitOwner(u)
    case ClassResource =>
      && r.id in campus.classes && !campus.classes[r.id].archived && campus.classes[r.id].unit == u
      && PeriodApplies(campus, campus.classes[r.id].period, u)
    case ExamResource => r.id in campus.exams && campus.exams[r.id] == u
    case ExamSittingResource =>
      && r.id in campus.sittings && campus.sittings[r.id] in campus.exams && campus.exams[campus.sittings[r.id]] == u
    case SubmissionResource => r.id in campus.submissions && campus.submissions[r.id] == u
    case InstitutionResource | UserResource | MailDeliveryResource => false
  }

  /** The resource is the Institution's own. */
  predicate OfInstitution(campus: Campus, r: Resource) {
    match r.kind
    case InstitutionResource => r.id == campus.institution && !campus.institutionArchived
    case UserResource => r.id in campus.activeUsers && !campus.institutionArchived
    case AcademicPeriodResource => InstitutionPeriod(campus, r.id)
    case _ => false
  }

  lemma PeriodExactly(campus: Campus, id: Id, u: Id)
    requires SingleInstitution(campus) && Live(campus.units, u)
    ensures var period := ResolvePeriod(campus, id);
            PeriodApplies(campus, id, u) <==>
              period.Ok? && (period.value.institutionOwnedPeriod || period.value.target.value in AncestorSet(campus.units, u))
    ensures var period := ResolvePeriod(campus, id);
            period.Ok? ==> period.value.institution == campus.institution
                           && (period.value.institutionOwnedPeriod || period.value.target.Some?)
    ensures ResolvePeriod(campus, id).Err? ==> ResolvePeriod(campus, id) == Err(NotFound)
  {
    if LivePeriod(campus, id) && campus.periods[id].owner.UnitOwner? {
      OwnedShape(campus, campus.periods[id].owner.unit);
    }
  }

  lemma ClassExactly(campus: Campus, id: Id)
    requires SingleInstitution(campus)
    ensures var r := ResolveClass(campus, id);
            if exists u :: HangsFrom(campus, Resource(ClassResource, id), u) then
              && r.Ok? && HangsFrom(campus, Resource(ClassResource, id), campus.classes[id].unit)
              && r.value == Resolved(campus.institution, AncestorSet(campus.units, campus.classes[id].unit),
                                     Some(campus.classes[id].unit), Some(id), false)
            else r == Err(NotFound)
  {
    if id in campus.classes && !campus.classes[id].archived {
      var u := campus.classes[id].unit;
      OwnedShape(campus, u);
      if Live(campus.units, u) {
        PeriodExactly(campus, campus.classes[id].period, u);
        assert HangsFrom(campus, Resource(ClassResource, id), u) <==> PeriodApplies(campus, campus.classes[id].period, u);
      }
    }
  }

  /** The chain of the one unit the resource hangs from, or the Institution
      itself; anything else is not found, and mail deliveries are no resources to
      resolve. */
  ghost predicate ResolvedAs(campus: Campus, r: Resource, found: Result<Resolved, AccessError>)
    requires Forest(campus.units)
  {
    && (forall u :: HangsFrom(campus, r, u) ==>
          found == Ok(Resolved(campus.institution, AncestorSet(campus.units, u), Some(u),
                               if r.kind == ClassResource then Some(r.id) else None, false)))
    && (OfInstitution(campus, r) ==>
          found == Ok(Resolved(campus.institution, {}, None, None, r.kind == AcademicPeriodResource)))
    && (!OfInstitution(campus, r) && (forall u :: !HangsFrom(campus, r, u)) ==>
          found == Err(if r.kind == MailDeliveryResource then RequestInvalid else NotFound))
  }

  /** A resource whose owner is unit u, found through live entities. */
  lemma OwnedExactly(campus: Campus, r: Resource, u: Id)
    requires SingleInstitution(campus) && r.kind != ClassResource && r.kind != MailDeliveryResource && !OfInstitution(campus, r)
    requires forall v :: HangsFrom(campus, r, v) <==> v == u && Live(campus.units, u)
    ensures ResolvedAs(campus, r, OwnedByUnit(campus, u))
  {
    OwnedShape(campus, u);
    assert HangsFrom(campus, r, u) <==> Live(campus.units, u);
  }

  lemma MissingExactly(campus: Campus, r: Resource)
    requires SingleInstitution(campus) && r.kind != MailDeliveryResource && !OfInstitution(campus, r)
    requires forall v :: !HangsFrom(campus, r, v)
    ensures ResolvedAs(campus, r, Err(NotFound))
  {
  }

  lemma AcademicExactly(campus: Campus, r: Resource)
    requires SingleInstitution(campus)
    requires r.kind == ProgrammeResource || r.kind == ProgrammeLevelResource || r.kind == AcademicPeriodResource
    ensures ResolvedAs(campus, r, Resolve(campus, r))
  {
    match r.kind
    case ProgrammeResource =>
      if LiveProgramme(campus, r.id) { OwnedExactly(campus, r, campus.programmes[r.id].unit); } else { MissingExactly(campus, r); }
    case ProgrammeLevelResource =>
      if r.id in campus.levels && !campus.levels[r.id].archived && LiveProgramme(campus, campus.levels[r.id].programme) {
        OwnedExactly(campus, r, campus.programmes[campus.levels[r.id].programme].unit);
      } else {
        MissingExactly(campus, r);
      }
    case AcademicPeriodResource =>
      if LivePeriod(campus, r.id) && campus.periods[r.id].owner.UnitOwner? {
        OwnedExactly(campus, r, campus.periods[r.id].owner.unit);
      }
  }

  lemma ExamExactly(campus: Campus, r: Resource)
    requires SingleInstitution(campus)
    requires r.kind == ExamResource || r.kind == ExamSittingResource || r.kind == SubmissionResource
    ensures ResolvedAs(campus, r, Resolve(campus, r))
  {
    match r.kind
    case ExamResource =>
      if r.id in campus.exams { OwnedExactly(campus, r, campus.exams[r.id]); } else { MissingExactly(campus, r); }
    case ExamSittingResource =>
      if r.id in campus.sittings && campus.sittings[r.id] in campus.exams {
        OwnedExactly(campus, r, campus.exams[campus.sittings[r.id]]);
      } else {
        MissingExactly(campus, r);
      }
    case SubmissionResource =>
      if r.id in campus.submissions { OwnedExactly(campus, r, campus.submissions[r.id]); } else { MissingExactly(campus, r); }
  }

  /** What a resource resolves to, for every kind. */
  lemma ResolvesExactly(campus: Campus, r: Resource)
    requires SingleInstitution(campus)
    ensures ResolvedAs(campus, r, Resolve(campus, r))
  {
    match r.kind
    case InstitutionResource | UserResource | MailDeliveryResource =>
    case AcademicUnitResource => OwnedExactly(campus, r, r.id);
    case ProgrammeResource | ProgrammeLevelResource | AcademicPeriodResource => AcademicExactly(campus, r);
    case ClassResource => ClassExactly(campus, r.id);
    case ExamResource | ExamSittingResource | SubmissionResource => ExamExactly(campus, r);
  }

  /** What resolution guarantees: the Institution is the installation's own,
      the units are exactly the chain of the owning unit, and only a Class
      carries a Class identifier. */
  lemma ResolvedShape(campus: Campus, r: Resource, found: Resolved)
    requires SingleInstitution(campus)
    requires Resolve(campus, r) == Ok(found)
    ensures found.institution == campus.institution
    ensures found.class_ == if r.kind == ClassResource then Some(r.id) else None
    ensures UnitScoped(r.kind) && !found.institutionOwnedPeriod ==>
              found.target.Some? && found.units == AncestorSet(campus.units, found.target.value) &&
              found.target.value in found.units
    ensures !UnitScoped(r.kind) || found.institutionOwnedPeriod ==> found.units == {}
    ensures found.institutionOwnedPeriod ==> r.kind == AcademicPeriodResource
    ensures r.kind == AcademicUnitResource ==> found.target == Some(r.id)
  {
    ResolvesExactly(campus, r);
    if !OfInstitution(campus, r) {
      var u :| HangsFrom(campus, r, u);
      AncestorsWalkUp(campus.units, u);
    }
  }

  /** The resolver's loop over an ancestor chain: it collects the units and
      refuses at the first archived one. */
  method ApplyScopeAncestors(campus: Campus, chain: seq<Id>) returns (r: Result<set<Id>, AccessError>)
    requires forall a :: a in chain ==> a in campus.units
    ensures r == if LiveChain(campus.units, chain) then Ok((set a | a in chain)) else Err(NotFound)
  {
    var units: set<Id> := {};
    for i := 0 to |chain|
      invariant units == set a | a in chain[..i]
      invariant LiveChain(campus.units, chain[..i])
    {
      if campus.units[chain[i]].archived {
        assert chain[i] in chain;
        return Err(NotFound);
      }
      assert chain[..i + 1] == chain[..i] + [chain[i]];
      units := units + {chain[i]};
    }
    assert chain[..|chain|] == chain;
    return Ok(units);
  }
}
