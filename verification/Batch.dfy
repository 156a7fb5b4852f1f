/** Academic administration batches (server/app/academic_administration_batch.go):
    duplicate detection, the canonical winner of each group, the execution
    order, and the results. Digests are represented by what is hashed; the
    commands behind the batch are a port that threads its own world. */
module Batch {
  import opened Outcomes
  import opened AccessModel
  import Grouping
  import Sorting
  import Text

  const MAXIMUM_ITEMS := 200

  datatype Operation =
    | AffiliationAdd | AffiliationEnd | UnitMemberAdd | UnitMemberEnd | ClassEnroll | ClassEnd | ClassTransfer
    | RoleBindingCreate | RoleBindingEnd | UserEnable | UserDisable | UserSessionsRevoke

  datatype Item = Item(
    key: string, user: string, relationship: string, role: string, kind: string, startAt: int, endAt: int)

  /** Everything of a batch but its rows. */
  datatype Head = Head(operation: Operation, scopeType: ScopeType, scopeId: string, key: string)
  datatype Batch = Batch(head: Head, items: seq<Item>)

  function OperationName(op: Operation): string {
    match op
    case AffiliationAdd => "affiliation.add"
    case AffiliationEnd => "affiliation.end"
    case UnitMemberAdd => "academic_unit_member.add"
    case UnitMemberEnd => "academic_unit_member.end"
    case ClassEnroll => "class.enroll"
    case ClassEnd => "class.end"
    case ClassTransfer => "class.transfer"
    case RoleBindingCreate => "role_binding.create"
    case RoleBindingEnd => "role_binding.end"
    case UserEnable => "user.enable"
    case UserDisable => "user.disable"
    case UserSessionsRevoke => "user_sessions.revoke"
  }

  function ScopeName(scope: ScopeType): string {
    match scope
    case InstitutionScope => "institution"
    case UnitScope => "academic_unit"
    case ClassScope => "class"
  }

  predicate ScopeMatches(op: Operation, scope: ScopeType) {
    match op
    case UnitMemberAdd | UnitMemberEnd => scope == UnitScope
    case ClassEnroll | ClassEnd | ClassTransfer => scope == ClassScope
    case RoleBindingCreate | RoleBindingEnd => true
    case _ => scope == InstitutionScope
  }

  // ----- rows

  predicate ValidItemKey(key: string) {
    1 <= |key| <= 128 &&
    forall c :: c in key ==> 'a' <= c <= 'z' || 'A' <= c <= 'Z' || '0' <= c <= '9' || c in "-._~"
  }

  predicate ValidKind(kind: string) { kind in {"student", "teacher", "staff", "external"} }

  predicate ValidBounds(item: Item) {
    item.startAt >= 0 && item.endAt >= 0 && (item.endAt == 0 || item.endAt > item.startAt)
  }

  predicate Timeless(item: Item) { item.startAt == 0 && item.endAt == 0 }

  predicate Named(value: string) { Text.Trim(value) != "" }

  predicate ValidId(value: string) { Named(value) ==> Text.IsOpaqueId(Text.Trim(value)) }

  /** Each operation owns some fields; any other field must be absent. */
  predicate ValidItem(op: Operation, item: Item) {
    && ValidItemKey(item.key)
    && ValidId(item.user) && ValidId(item.relationship) && ValidId(item.role)
    && (match op
        case AffiliationAdd =>
          Named(item.user) && !Named(item.relationship) && !Named(item.role) && ValidKind(item.kind) && ValidBounds(item)
        case AffiliationEnd | UnitMemberEnd | ClassEnd | RoleBindingEnd =>
          !Named(item.user) && Named(item.relationship) && !Named(item.role) && item.kind == "" && Timeless(item)
        case UnitMemberAdd =>
          && Named(item.user) && !Named(item.relationship) && !Named(item.role) && item.kind == ""
          && item.endAt == 0 && ValidBounds(item)
        case ClassEnroll =>
          Named(item.user) && !Named(item.relationship) && !Named(item.role) && item.kind == "" && ValidBounds(item)
        case ClassTransfer =>
          Named(item.user) && Named(item.relationship) && !Named(item.role) && item.kind == "" && ValidBounds(item)
        case RoleBindingCreate =>
          Named(item.user) && !Named(item.relationship) && Named(item.role) && item.kind == "" && ValidBounds(item)
        case UserEnable | UserDisable | UserSessionsRevoke =>
          Named(item.user) && !Named(item.relationship) && !Named(item.role) && item.kind == "" && Timeless(item))
  }

  datatype Field = UserField | RelationshipField | RoleField | KindField | StartField | EndField

  /** The fields a row of the operation carries. */
  function Owned(op: Operation): set<Field> {
    match op
    case AffiliationAdd => {UserField, KindField, StartField, EndField}
    case UnitMemberAdd => {UserField, StartField}
    case ClassEnroll => {UserField, StartField, EndField}
    case ClassTransfer => {UserField, RelationshipField, StartField, EndField}
    case RoleBindingCreate => {UserField, RoleField, StartField, EndField}
    case UserEnable | UserDisable | UserSessionsRevoke => {UserField}
    case AffiliationEnd | UnitMemberEnd | ClassEnd | RoleBindingEnd => {RelationshipField}
  }

  /** An identifier that is there and well formed, or not there. */
  predicate Carries(value: string, owned: bool) {
    if owned then Text.IsOpaqueId(Text.Trim(value)) else Text.Trim(value) == ""
  }

  /** A row is valid exactly when it carries the fields its operation owns, well
      formed, and no other, under a key of at most 128 unreserved characters. */
  lemma ValidItemExactly(op: Operation, item: Item)
    ensures ValidItem(op, item) <==>
              var owned := Owned(op);
              && 0 < |item.key| <= 128
              && (forall c :: c in item.key ==>
                    c == '-' || c == '.' || c == '_' || c == '~' || '0' <= c <= '9' || 'A' <= c <= 'Z' || 'a' <= c <= 'z')
              && Carries(item.user, UserField in owned) && Carries(item.relationship, RelationshipField in owned)
              && Carries(item.role, RoleField in owned)
              && (if KindField in owned then item.kind in {"student", "teacher", "staff", "external"} else item.kind == "")
              && (if StartField in owned then item.startAt >= 0 else item.startAt == 0)
              && (item.endAt == 0 || (EndField in owned && item.endAt > item.startAt))
  {
  }

  // ----- duplicate keys

  const NUL := '\0'

  /** The fields that identify a row's change, in the order they are written. */
  function Fields(op: Operation, item: Item): seq<string> {
    var user, start, end := Text.Trim(item.user), Text.Decimal(item.startAt), Text.Decimal(item.endAt);
    match op
    case AffiliationAdd => [user, item.kind, start, end]
    case UnitMemberAdd | ClassEnroll => [user, start, end]
    case UserEnable | UserDisable | UserSessionsRevoke => [user]
    case ClassTransfer => [user, Text.Trim(item.relationship), start, end]
    case RoleBindingCreate => [user, Text.Trim(item.role), start, end]
    case _ => [Text.Trim(item.relationship)]
  }

  function DuplicateKey(head: Head, item: Item): string {
    OperationName(head.operation) + [NUL] + ScopeName(head.scopeType) + [NUL] + Text.Trim(head.scopeId) + [NUL]
    + Text.Join(Fields(head.operation, item), NUL)
  }

  /** Two rows ask for the same change: equal in everything but their own keys
      and the space around identifiers. */
  predicate SameChange(x: Item, y: Item) {
    && Text.Trim(x.user) == Text.Trim(y.user) && Text.Trim(x.relationship) == Text.Trim(y.relationship)
    && Text.Trim(x.role) == Text.Trim(y.role) && x.kind == y.kind && x.startAt == y.startAt && x.endAt == y.endAt
  }

  lemma IdHasNoNul(value: string)
    requires ValidId(value)
    ensures NUL !in Text.Trim(value)
  {
    assert NUL !in Text.ID_ALPHABET;
  }

  lemma NumberHasNoNul(n: int)
    requires n >= 0
    ensures NUL !in Text.Decimal(n)
  {
    Text.DecimalDigits(n);
  }

  lemma ValidFieldsHaveNoNul(op: Operation, item: Item)
    requires ValidItem(op, item)
    ensures forall f :: f in Fields(op, item) ==> NUL !in f
  {
    IdHasNoNul(item.user);
    IdHasNoNul(item.relationship);
    IdHasNoNul(item.role);
    NumberHasNoNul(item.startAt);
    NumberHasNoNul(item.endAt);
    assert ValidKind(item.kind) || item.kind == "";
    assert NUL !in item.kind;
  }

  /** Valid rows share a duplicate key exactly when they ask for the same
      change. */
  lemma DuplicateKeyExact(head: Head, x: Item, y: Item)
    requires ValidItem(head.operation, x) && ValidItem(head.operation, y)
    ensures DuplicateKey(head, x) == DuplicateKey(head, y) <==> SameChange(x, y)
  {
    var op := head.operation;
    if DuplicateKey(head, x) == DuplicateKey(head, y) {
      var base := OperationName(op) + [NUL] + ScopeName(head.scopeType) + [NUL] + Text.Trim(head.scopeId) + [NUL];
      assert DuplicateKey(head, x)[|base|..] == Text.Join(Fields(op, x), NUL);
      assert DuplicateKey(head, y)[|base|..] == Text.Join(Fields(op, y), NUL);
      ValidFieldsHaveNoNul(op, x);
      ValidFieldsHaveNoNul(op, y);
      Text.JoinInjective(Fields(op, x), Fields(op, y), NUL);
      FieldsExact(op, x, y);
    }
  }

  lemma FieldsExact(op: Operation, x: Item, y: Item)
    requires ValidItem(op, x) && ValidItem(op, y) && Fields(op, x) == Fields(op, y)
    ensures SameChange(x, y)
  {
    var f, g := Fields(op, x), Fields(op, y);
    if op in {AffiliationAdd, UnitMemberAdd, ClassEnroll, ClassTransfer, RoleBindingCreate} {
      assert f[|f| - 2] == g[|f| - 2] && f[|f| - 1] == g[|f| - 1];
      Text.DecimalInjective(x.startAt, y.startAt);
      Text.DecimalInjective(x.endAt, y.endAt);
    }
    assert f[0] == g[0] && (|f| > 1 ==> f[1] == g[1]);
  }

  // ----- eligibility, winners and the plan

  const KEY := (item: Item) => item.key

  /** A row executes when it is valid and no other row has its key. */
  predicate Eligible(b: Batch, item: Item) {
    ValidItem(b.head.operation, item) && multiset(Grouping.Map(KEY, b.items))[item.key] == 1
  }

  function Picks(b: Batch): Item -> bool { item => Eligible(b, item) }
  function Groups(head: Head): Item -> string { item => DuplicateKey(head, item) }

  /** The canonical row of each group of duplicates: its smallest key. */
  function Winners(b: Batch): map<string, string> { Grouping.Minima(b.items, Picks(b), Groups(b.head), KEY) }

  /** The row is not the canonical one of its group. */
  function Late(head: Head, winners: map<string, string>): Item -> bool {
    item => var group := DuplicateKey(head, item);
            group in winners && winners[group] != "" && winners[group] != item.key
  }

  function Before(head: Head, winners: map<string, string>): (Item, Item) -> bool {
    Grouping.ByKey(Late(head, winners), KEY)
  }

  /** The rows that execute, in the order they do. */
  ghost predicate IsPlan(b: Batch, plan: seq<Item>) {
    && Sorting.StrictlySorted(Before(b.head, Winners(b)), plan)
    && forall item :: item in plan <==> item in b.items && Eligible(b, item)
  }

  /** Eligibility, winners and the plan do not depend on the order of the rows. */
  lemma PlanIgnoresOrder(b: Batch, c: Batch, plan: seq<Item>, plan': seq<Item>)
    requires b.head == c.head && multiset(b.items) == multiset(c.items)
    requires IsPlan(b, plan) && IsPlan(c, plan')
    ensures forall item :: Eligible(b, item) <==> Eligible(c, item)
    ensures Winners(b) == Winners(c)
    ensures plan == plan'
  {
    Grouping.MapIgnoresOrder(KEY, b.items, c.items);
    Grouping.MinimaIgnoreOrder(b.items, c.items, Picks(b), Picks(c), Groups(b.head), KEY);
    forall item ensures item in b.items <==> item in c.items {
      assert item in b.items <==> item in multiset(b.items);
      assert item in c.items <==> item in multiset(c.items);
    }
    Grouping.ByKeyStrictWeak(Late(b.head, Winners(b)), KEY);
    Sorting.StrictlySortedUnique(Before(b.head, Winners(b)), plan, plan');
  }

  /** Every eligible row's group has a winner, which is itself a row of the plan
      asking for the same change. */
  lemma GroupHasWinner(b: Batch, item: Item) returns (winner: Item)
    requires item in b.items && Eligible(b, item)
    ensures var group := DuplicateKey(b.head, item);
            && group in Winners(b) && winner.key == Winners(b)[group] && winner.key != ""
            && winner in b.items && Eligible(b, winner) && SameChange(winner, item)
            && (winner.key == item.key || Text.Less(winner.key, item.key))
            && !Late(b.head, Winners(b))(winner)
  {
    var group := DuplicateKey(b.head, item);
    Grouping.MinimaAreMinimal(b.items, Picks(b), Groups(b.head), KEY, group);
    assert Picks(b)(item) && Groups(b.head)(item) == group;
    assert Grouping.IsMinimum(b.items, Picks(b), Groups(b.head), KEY, group, Winners(b)[group]);
    winner :| winner in b.items && Picks(b)(winner) && Groups(b.head)(winner) == group && KEY(winner) == Winners(b)[group];
    assert KEY(item) == winner.key || Text.Less(winner.key, KEY(item));
    DuplicateKeyExact(b.head, winner, item);
  }

  // ----- execution

  /** One command to the port. The group and the canonical row are known by the
      texts whose digests the source passes. */
  datatype Command = Command(item: Item, key: string, group: string, duplicateOf: Option<string>, retained: bool)
  datatype Reply = Reply(error: Option<string>, id: Option<string>, replayed: bool, duplicate: bool)

  /** The ports behind the batch: whether an outcome is retained for a derived
      key (None when the lookup fails), and the commands themselves. */
  datatype Port<!W> = Port(has: (W, string) -> Option<bool>, run: (W, Command) -> (W, Reply))

  datatype Status = Succeeded | NoOp | Failed | Blank
  datatype Row = Row(status: Status, resource: string, code: string)

  const INVALID := Row(Failed, "", "request.invalid")
  const UNAVAILABLE := Row(Failed, "", "administration.unavailable")

  /** invitationBatchItemIdempotencyKey. */
  function DerivedKey(batchKey: string, itemKey: string): string {
    Text.Decimal(|batchKey|) + ":" + batchKey + ":" + itemKey
  }

  predicate IsPublicCode(code: string) {
    code in {
      "request.invalid", "resource.not_found", "authorization.denied", "authorization.request.invalid",
      "authorization.unavailable", "audit.unavailable", "administration.unavailable", "mail.unavailable",
      "authentication.token_invalid", "authentication.strong_required", "authentication.reauthentication_required",
      "affiliation.invalid", "affiliation.conflict", "affiliation.student_has_active_enrollment",
      "academic_unit_member.invalid", "academic_unit_member.conflict", "class_member.invalid",
      "class_member.student_affiliation_required", "class.enrollment_conflict", "role_binding.invalid",
      "role_binding.conflict", "role_binding.last_system_admin", "role_binding.system_admin_scope_invalid",
      "user.invalid", "user.conflict", "user.last_system_admin", "session.not_found",
      "idempotency.conflict", "idempotency.in_progress", "onboarding_batch.duplicate"}
  }

  function FailedRow(code: string): Row {
    Row(Failed, "", if IsPublicCode(code) then code else "administration.unavailable")
  }

  function Done(reply: Reply, id: string): Row { Row(if reply.replayed then NoOp else Succeeded, id, "") }

  /** A class enrollment that returns neither an error nor a membership. */
  predicate Silent(op: Operation, reply: Reply) {
    (op == ClassEnroll || op == ClassTransfer) && reply.error.None? && reply.id.None?
  }

  /** What a row reports for the port's reply. */
  function RowFor(op: Operation, item: Item, reply: Reply): Row {
    if reply.error.Some? then FailedRow(reply.error.value)
    else if Silent(op, reply) then Row(Blank, "", "")
    else if reply.duplicate then FailedRow("onboarding_batch.duplicate")
    else if op == UserSessionsRevoke then Done(reply, item.user)
    else if op == ClassEnroll || op == ClassTransfer then Done(reply, reply.id.value)
    else if reply.id.None? || reply.id.value == "" then UNAVAILABLE
    else Done(reply, reply.id.value)
  }

  function CommandFor(head: Head, winners: map<string, string>, item: Item, retained: bool): Command {
    var group := DuplicateKey(head, item);
    var winner := if group in winners then winners[group] else "";
    Command(item, DerivedKey(head.key, item.key), group,
            if winner == item.key then None else Some(DerivedKey(head.key, winner)), retained)
  }

  datatype Effects<!W> = Effects(world: W, rows: map<string, Row>, commands: seq<Command>)

  /** One row of the plan: look up a retained outcome, then issue the command. */
  function Perform<W>(port: Port<W>, head: Head, winners: map<string, string>, item: Item, e: Effects<W>): Effects<W> {
    match port.has(e.world, DerivedKey(head.key, item.key))
    case None => e.(rows := e.rows[item.key := UNAVAILABLE])
    case Some(retained) =>
      var command := CommandFor(head, winners, item, retained);
      var (world, reply) := port.run(e.world, command);
      Effects(world, e.rows[item.key := RowFor(head.operation, item, reply)], e.commands + [command])
  }

  function Performer<W>(port: Port<W>, head: Head, winners: map<string, string>): (Item, Effects<W>) -> Effects<W> {
    (item, e) => Perform(port, head, winners, item, e)
  }

  function PerformAll<W>(port: Port<W>, head: Head, winners: map<string, string>, plan: seq<Item>, world: W): Effects<W> {
    Grouping.Fold(Performer(port, head, winners), plan, Effects(world, map[], []))
  }

  lemma {:induction false} PerformedRows<W>(port: Port<W>, head: Head, winners: map<string, string>, plan: seq<Item>, world: W)
    ensures forall k :: k in PerformAll(port, head, winners, plan, world).rows <==> exists item :: item in plan && item.key == k
  {
    if plan != [] {
      var init, last := plan[..|plan| - 1], plan[|plan| - 1];
      PerformedRows(port, head, winners, init, world);
      assert plan == init + [last];
      assert forall item :: item in plan <==> item in init || item == last;
    }
  }

  /** The result of one row of the batch. */
  function RowOf<W>(pick: Item -> bool, e: Effects<W>, item: Item): Row {
    if pick(item) && item.key in e.rows then e.rows[item.key] else INVALID
  }

  /** Every row of the batch is answered: an eligible one with the result of its
      own command, any other as invalid. */
  lemma EveryRowAnswered<W>(port: Port<W>, b: Batch, plan: seq<Item>, world: W, item: Item)
    requires IsPlan(b, plan) && item in b.items
    ensures var e := PerformAll(port, b.head, Winners(b), plan, world);
            if Eligible(b, item) then item.key in e.rows && RowOf(Picks(b), e, item) == e.rows[item.key]
            else RowOf(Picks(b), e, item) == INVALID
  {
    PerformedRows(port, b.head, Winners(b), plan, world);
    if Eligible(b, item) { assert item in plan; }
  }

  /** Batch order independence: for every rearrangement of the rows the same
      commands are issued in the same order, the world ends the same, and equal
      rows get equal results. */
  lemma OrderIndependent<W>(port: Port<W>, b: Batch, c: Batch, plan: seq<Item>, plan': seq<Item>, world: W)
    requires b.head == c.head && multiset(b.items) == multiset(c.items)
    requires IsPlan(b, plan) && IsPlan(c, plan')
    ensures var e, e' := PerformAll(port, b.head, Winners(b), plan, world), PerformAll(port, c.head, Winners(c), plan', world);
            e == e' && forall item :: RowOf(Picks(b), e, item) == RowOf(Picks(c), e', item)
  {
    PlanIgnoresOrder(b, c, plan, plan');
  }

  // ----- groups in the plan

  /** The row with the smallest key of those asking for one change executes
      before all the others. */
  lemma WinnerExecutesFirst(b: Batch, plan: seq<Item>, i: nat, j: nat)
    requires IsPlan(b, plan) && i < |plan| && j < |plan| && i != j && SameChange(plan[i], plan[j])
    requires forall item :: item in plan && SameChange(plan[i], item) ==>
               item.key == plan[i].key || Text.Less(plan[i].key, item.key)
    ensures i < j
  {
    assert plan[i] in plan && plan[j] in plan;
    var winner := GroupHasWinner(b, plan[i]);
    Text.LessTrichotomy(winner.key, plan[i].key);
    DuplicateKeyExact(b.head, plan[i], plan[j]);
    var late := Late(b.head, Winners(b));
    assert !late(plan[i]);
    if j < i {
      assert Before(b.head, Winners(b))(plan[j], plan[i]);
      assert !late(plan[j]);
      Text.LessTrichotomy(plan[i].key, plan[j].key);
    }
  }

  /** No eligible row asks for the same change under a smaller key. */
  ghost predicate Canonical(b: Batch, item: Item) {
    forall other :: other in b.items && Eligible(b, other) && SameChange(other, item) ==>
      other.key == item.key || Text.Less(item.key, other.key)
  }

  lemma CanonicalExactly(b: Batch, item: Item)
    requires item in b.items && Eligible(b, item)
    ensures Late(b.head, Winners(b))(item) <==> !Canonical(b, item)
  {
    var winner := GroupHasWinner(b, item);
    if winner.key != item.key {
      Text.LessTrichotomy(winner.key, item.key);
    } else {
      forall other | other in b.items && Eligible(b, other) && SameChange(other, item)
        ensures other.key == item.key || Text.Less(item.key, other.key)
      {
        DuplicateKeyExact(b.head, other, item);
        var w := GroupHasWinner(b, other);
      }
    }
  }

  /** The plan: all canonical rows by key, then all duplicates by key. */
  lemma PlanInOrder(b: Batch, plan: seq<Item>, i: nat, j: nat)
    requires IsPlan(b, plan) && i < j < |plan|
    ensures var x, y := plan[i], plan[j];
            || (Canonical(b, x) && !Canonical(b, y))
            || ((Canonical(b, x) <==> Canonical(b, y)) && Text.Less(x.key, y.key))
  {
    var x, y := plan[i], plan[j];
    assert x in plan && y in plan && Before(b.head, Winners(b))(x, y);
    CanonicalExactly(b, x);
    CanonicalExactly(b, y);
  }

  /** A command carries no canonical key exactly when its row is the winner of
      its group; otherwise it carries the winner's. */
  lemma CommandNamesWinner(b: Batch, item: Item, retained: bool) returns (winner: Item)
    requires item in b.items && Eligible(b, item)
    ensures winner in b.items && Eligible(b, winner) && SameChange(winner, item)
    ensures var command := CommandFor(b.head, Winners(b), item, retained);
            command.duplicateOf == if winner.key == item.key then None else Some(DerivedKey(b.head.key, winner.key))
    ensures var command := CommandFor(b.head, Winners(b), item, retained);
            && command.item == item && command.key == DerivedKey(b.head.key, item.key) && command.retained == retained
            && forall other, known :: other in b.items && Eligible(b, other) ==>
                 (CommandFor(b.head, Winners(b), other, known).group == command.group <==> SameChange(other, item))
    ensures forall other :: other in b.items && Eligible(b, other) && SameChange(other, item) ==>
              other.key == winner.key || Text.Less(winner.key, other.key)
  {
    winner := GroupHasWinner(b, item);
    forall other | other in b.items && Eligible(b, other)
      ensures DuplicateKey(b.head, other) == DuplicateKey(b.head, item) <==> SameChange(other, item)
    {
      DuplicateKeyExact(b.head, other, item);
    }
    forall other | other in b.items && Eligible(b, other) && SameChange(other, item)
      ensures other.key == winner.key || Text.Less(winner.key, other.key)
    {
      DuplicateKeyExact(b.head, other, item);
      var w := GroupHasWinner(b, other);
    }
  }

  /** Derived keys name their batch and row uniquely. */
  lemma DerivedKeyInjective(b: string, k: string, b': string, k': string)
    requires DerivedKey(b, k) == DerivedKey(b', k')
    ensures b == b' && k == k'
  {
    var d, d' := Text.Decimal(|b|), Text.Decimal(|b'|);
    var rest, rest' := b + ":" + k, b' + ":" + k';
    Text.DecimalDigits(|b|);
    Text.DecimalDigits(|b'|);
    assert DerivedKey(b, k) == d + [':'] + rest && DerivedKey(b', k') == d' + [':'] + rest';
    Text.CutUnique(d, rest, d', rest', ':');
    Text.DecimalInjective(|b|, |b'|);
    assert rest[..|b|] == b && rest'[..|b'|] == b' && rest[|b| + 1..] == k && rest'[|b'| + 1..] == k';
  }

  // ----- the runner

  predicate Counted(items: seq<Item>, counts: map<string, nat>) {
    forall item :: item in items ==> item.key in counts && counts[item.key] == multiset(Grouping.Map(KEY, items))[item.key]
  }

  method CountKeys(items: seq<Item>) returns (counts: map<string, nat>)
    ensures Counted(items, counts)
  {
    counts := map[];
    ghost var keys := Grouping.Map(KEY, items);
    for i := 0 to |items|
      invariant forall k :: (if k in counts then counts[k] else 0) == multiset(keys[..i])[k]
    {
      var k := items[i].key;
      assert keys[..i + 1] == keys[..i] + [k];
      counts := counts[k := (if k in counts then counts[k] else 0) + 1];
    }
    assert keys[..|items|] == keys;
    forall item | item in items ensures item.key in counts {
      var i :| 0 <= i < |items| && items[i] == item;
      assert keys[i] in multiset(keys);
    }
  }

  method DuplicateWinners(b: Batch, counts: map<string, nat>) returns (winners: map<string, string>)
    requires Counted(b.items, counts)
    ensures winners == Winners(b)
  {
    winners := map[];
    for i := 0 to |b.items|
      invariant winners == Grouping.Minima(b.items[..i], Picks(b), Groups(b.head), KEY)
    {
      var item := b.items[i];
      assert b.items[..i + 1][..i] == b.items[..i];
      assert Picks(b)(item) == Eligible(b, item) && Groups(b.head)(item) == DuplicateKey(b.head, item) && KEY(item) == item.key;
      if counts[item.key] != 1 || !ValidItem(b.head.operation, item) { continue; }
      var group := DuplicateKey(b.head, item);
      if group !in winners || Text.Less(item.key, winners[group]) {
        winners := winners[group := item.key];
      }
    }
    assert b.items[..|b.items|] == b.items;
  }

  /** Two rows with a common key are not eligible. */
  lemma EligibleKeysUnique(b: Batch, i: nat, j: nat)
    requires i < |b.items| && j < |b.items| && i != j && b.items[i].key == b.items[j].key
    ensures !Eligible(b, b.items[i])
  {
    var keys := Grouping.Map(KEY, b.items);
    var lo, hi := if i < j then i else j, if i < j then j else i;
    assert keys == keys[..hi] + keys[hi..] && keys[lo] in keys[..hi] && keys[hi] in keys[hi..];
    assert multiset(keys)[keys[lo]] == multiset(keys[..hi])[keys[lo]] + multiset(keys[hi..])[keys[lo]];
  }

  /** A rearrangement of the rows in which duplicates follow, keys increase, and
      rows with a common key keep their order. */
  ghost predicate SortedRows(b: Batch, order: seq<(nat, Item)>) {
    && multiset(order) == multiset(Grouping.Indexed(b.items))
    && (forall k, l :: 0 <= k < l < |order| ==> !Before(b.head, Winners(b))(order[l].1, order[k].1))
    && (forall k, l :: 0 <= k < l < |order| ==>
          Before(b.head, Winners(b))(order[k].1, order[l].1) || order[k].0 < order[l].0)
  }

  /** The eligible rows of a sorted rearrangement are the plan. */
  lemma SortedRowsPlan(b: Batch, order: seq<(nat, Item)>)
    requires SortedRows(b, order)
    ensures IsPlan(b, Grouping.Kept(Picks(b), order))
  {
    var less, pick := Before(b.head, Winners(b)), Picks(b);
    Grouping.Rearranged(b.items, order);
    forall k, l | 0 <= k < l < |order| && pick(order[k].1) && pick(order[l].1) ensures less(order[k].1, order[l].1) {
      var x, y := order[k].1, order[l].1;
      assert !less(y, x);
      if x.key == y.key { EligibleKeysUnique(b, order[k].0, order[l].0); }
      Text.LessTrichotomy(x.key, y.key);
    }
    Grouping.KeptSorted(pick, less, order);
    forall item ensures item in Grouping.Kept(pick, order) <==> item in b.items && Eligible(b, item) {
      if item in b.items && pick(item) {
        var i :| 0 <= i < |b.items| && b.items[i] == item;
        assert (i, b.items[i]) in order;
        assert Grouping.Visits(order, item);
      }
    }
  }

  method SortRows(b: Batch, winners: map<string, string>) returns (order: seq<(nat, Item)>)
    requires winners == Winners(b)
    ensures SortedRows(b, order)
  {
    var late := (p: (nat, Item)) => Late(b.head, winners)(p.1);
    var key := (p: (nat, Item)) => p.1.key;
    Grouping.ByKeyStrictWeak(late, key);
    var less := Grouping.ByKey(late, key);
    order := Sorting.Sort(less, Grouping.Indexed(b.items), (x: (nat, Item), y: (nat, Item)) => x.0 < y.0);
    forall k, l | 0 <= k < l < |order|
      ensures !Before(b.head, winners)(order[l].1, order[k].1)
      ensures Before(b.head, winners)(order[k].1, order[l].1) || order[k].0 < order[l].0
    {
      assert !less(order[l], order[k]) && (less(order[k], order[l]) || order[k].0 < order[l].0);
    }
  }

  datatype BatchResult = BatchResult(rows: seq<Row>, succeeded: nat, noOp: nat, failed: nat)

  function CountStatus(rows: seq<Row>, status: Status): nat {
    if rows == [] then 0
    else CountStatus(rows[..|rows| - 1], status) + if rows[|rows| - 1].status == status then 1 else 0
  }

  /** The totals add up to the number of rows exactly when no row is blank. */
  lemma {:induction false} TotalsAddUp(rows: seq<Row>)
    ensures CountStatus(rows, Succeeded) + CountStatus(rows, NoOp) + CountStatus(rows, Failed) + CountStatus(rows, Blank)
            == |rows|
    ensures CountStatus(rows, Blank) == 0 <==> forall i :: 0 <= i < |rows| ==> !rows[i].status.Blank?
  {
    if rows != [] {
      TotalsAddUp(rows[..|rows| - 1]);
    }
  }

  /** A reply without the identifier its operation must return. */
  predicate Nameless(op: Operation, reply: Reply) {
    op !in {UserSessionsRevoke, ClassEnroll, ClassTransfer} && (reply.id.None? || reply.id.value == "")
  }

  /** Only public codes are reported. */
  lemma FailsPublicly(code: string)
    ensures IsPublicCode(FailedRow(code).code) && FailedRow(code).status.Failed? && FailedRow(code).resource == ""
  {
  }

  /** An enrollment or a transfer with neither an error nor a membership. */
  predicate Unanswered(op: Operation, reply: Reply) {
    match op
    case ClassEnroll | ClassTransfer => reply.error.None? && reply.id.None?
    case _ => false
  }

  /** What a row says of the reply to its command. An error shows its own code if
      that is public; a duplicate, a missing identifier and a lost lookup show
      theirs; otherwise the row names what the command made or changed, or the user
      whose sessions ended, and whether the outcome is an old one. */
  predicate RowTells(op: Operation, item: Item, reply: Reply, row: Row) {
    && (reply.error.Some? ==>
          row == Row(Failed, "", if IsPublicCode(reply.error.value) then reply.error.value else "administration.unavailable"))
    && (Unanswered(op, reply) ==> row == Row(Blank, "", ""))
    && (reply.error.None? && !Unanswered(op, reply) ==>
          && (reply.duplicate ==> row == Row(Failed, "", "onboarding_batch.duplicate"))
          && (!reply.duplicate && Nameless(op, reply) ==> row == Row(Failed, "", "administration.unavailable"))
          && (!reply.duplicate && !Nameless(op, reply) ==>
                && row.status == (if reply.replayed then NoOp else Succeeded) && row.code == ""
                && (if op == UserSessionsRevoke then row.resource == item.user else reply.id == Some(row.resource))))
  }

  lemma RowMeaning(op: Operation, item: Item, reply: Reply)
    ensures RowTells(op, item, reply, RowFor(op, item, reply))
  {
    assert UNAVAILABLE == FailedRow("administration.unavailable");
  }

  /** The world the first k commands of the plan leave. */
  function WorldAfter<W>(port: Port<W>, head: Head, winners: map<string, string>, plan: seq<Item>, world: W, k: nat): W
    requires k <= |plan|
  {
    if k == 0 then world
    else
      var before := WorldAfter(port, head, winners, plan, world, k - 1);
      match port.has(before, DerivedKey(head.key, plan[k - 1].key))
      case None => before
      case Some(retained) => port.run(before, CommandFor(head, winners, plan[k - 1], retained)).0
  }

  /** The row tells of the reply to the k-th command, in the world it met; a
      lookup that fails before it issues none. */
  predicate Answers<W>(port: Port<W>, head: Head, winners: map<string, string>, plan: seq<Item>, world: W, k: nat, row: Row)
    requires k < |plan|
  {
    var met := WorldAfter(port, head, winners, plan, world, k);
    match port.has(met, DerivedKey(head.key, plan[k].key))
    case None => row == Row(Failed, "", "administration.unavailable")
    case Some(retained) =>
      RowTells(head.operation, plan[k], port.run(met, CommandFor(head, winners, plan[k], retained)).1, row)
  }

  lemma {:induction false} WorldOfPrefix<W>(port: Port<W>, head: Head, winners: map<string, string>, plan: seq<Item>, world: W,
                                            n: nat, k: nat)
    requires k <= n <= |plan|
    ensures WorldAfter(port, head, winners, plan[..n], world, k) == WorldAfter(port, head, winners, plan, world, k)
  {
    if k > 0 { WorldOfPrefix(port, head, winners, plan, world, n, k - 1); }
  }

  /** The row of the k-th command of a plan, by the world it meets. */
  function RowAt<W>(port: Port<W>, head: Head, winners: map<string, string>, plan: seq<Item>, world: W, k: nat): Row
    requires k < |plan|
  {
    var met := WorldAfter(port, head, winners, plan, world, k);
    match port.has(met, DerivedKey(head.key, plan[k].key))
    case None => UNAVAILABLE
    case Some(retained) => RowFor(head.operation, plan[k], port.run(met, CommandFor(head, winners, plan[k], retained)).1)
  }

  lemma RowAnswers<W>(port: Port<W>, head: Head, winners: map<string, string>, plan: seq<Item>, world: W, k: nat)
    requires k < |plan|
    ensures Answers(port, head, winners, plan, world, k, RowAt(port, head, winners, plan, world, k))
  {
    var met := WorldAfter(port, head, winners, plan, world, k);
    var retained := port.has(met, DerivedKey(head.key, plan[k].key));
    if retained.Some? {
      RowMeaning(head.operation, plan[k], port.run(met, CommandFor(head, winners, plan[k], retained.value)).1);
    }
  }

  /** The last command of a plan meets the world the others left. */
  lemma {:induction false} PerformedLast<W>(port: Port<W>, head: Head, winners: map<string, string>, plan: seq<Item>, world: W)
    requires plan != []
    ensures var n := |plan| - 1;
            var before, after := PerformAll(port, head, winners, plan[..n], world), PerformAll(port, head, winners, plan, world);
            && after.rows == before.rows[plan[n].key := RowAt(port, head, winners, plan, world, n)]
            && after.world == WorldAfter(port, head, winners, plan, world, |plan|)
    decreases |plan|
  {
    var n := |plan| - 1;
    if n > 0 { PerformedLast(port, head, winners, plan[..n], world); }
    WorldOfPrefix(port, head, winners, plan, world, n, n);
  }

  predicate DistinctKeys(plan: seq<Item>) { forall i, j :: 0 <= i < j < |plan| ==> plan[i].key != plan[j].key }

  /** Performing a plan answers each of its commands. */
  lemma {:induction false} PerformedAt<W>(port: Port<W>, head: Head, winners: map<string, string>, plan: seq<Item>, world: W,
                                          k: nat)
    requires DistinctKeys(plan) && k < |plan|
    ensures var rows := PerformAll(port, head, winners, plan, world).rows;
            plan[k].key in rows && rows[plan[k].key] == RowAt(port, head, winners, plan, world, k)
    decreases |plan|
  {
    var n := |plan| - 1;
    PerformedLast(port, head, winners, plan, world);
    if k < n {
      PerformedAt(port, head, winners, plan[..n], world, k);
      WorldOfPrefix(port, head, winners, plan, world, n, k);
    }
  }

  /** The rows of a completed batch: every eligible row tells of the reply to its
      own command, every other is invalid, and the world is what the commands of
      the plan left. */
  ghost predicate RowsTold<W>(port: Port<W>, b: Batch, plan: seq<Item>, world0: W, r: BatchResult, world: W) {
    && world == WorldAfter(port, b.head, Winners(b), plan, world0, |plan|) && |r.rows| == |b.items|
    && (forall i :: 0 <= i < |b.items| && !Eligible(b, b.items[i]) ==> r.rows[i] == Row(Failed, "", "request.invalid"))
    && (forall i, k :: 0 <= i < |b.items| && 0 <= k < |plan| && plan[k] == b.items[i] ==>
          Answers(port, b.head, Winners(b), plan, world0, k, r.rows[i]))
  }

  lemma CompletedRows<W(!new)>(port: Port<W>, b: Batch, world0: W, r: BatchResult, world: W) returns (plan: seq<Item>)
    requires Completes(port, b, world0, r, world)
    ensures IsPlan(b, plan) && RowsTold(port, b, plan, world0, r, world)
  {
    plan :| IsPlan(b, plan) && Reports(port, b, plan, world0, r, world);
    PlanKeysDistinct(b, plan);
    if plan != [] { PerformedLast(port, b.head, Winners(b), plan, world0); }
    forall i | 0 <= i < |b.items| ensures Eligible(b, b.items[i]) <==> b.items[i] in plan {
      EveryRowAnswered(port, b, plan, world0, b.items[i]);
    }
    forall i, k | 0 <= i < |b.items| && 0 <= k < |plan| && plan[k] == b.items[i]
      ensures Answers(port, b.head, Winners(b), plan, world0, k, r.rows[i])
    {
      PerformedAt(port, b.head, Winners(b), plan, world0, k);
      RowAnswers(port, b.head, Winners(b), plan, world0, k);
      EveryRowAnswered(port, b, plan, world0, b.items[i]);
    }
  }

  predicate Acceptable(b: Batch) {
    && Text.IsOpaqueId(b.head.scopeId) && b.head.key != "" && 1 <= |b.items| <= MAXIMUM_ITEMS
    && ScopeMatches(b.head.operation, b.head.scopeType)
  }

  /** Batches run at the scope their operation is about: memberships at their unit
      or Class, role bindings anywhere, the rest at the Institution. */
  lemma AcceptableExactly(b: Batch)
    ensures Acceptable(b) <==>
              && Text.IsOpaqueId(b.head.scopeId) && |b.head.key| > 0 && 0 < |b.items| <= 200
              && (b.head.scopeType == UnitScope ==>
                    b.head.operation in {UnitMemberAdd, UnitMemberEnd, RoleBindingCreate, RoleBindingEnd})
              && (b.head.scopeType == ClassScope ==>
                    b.head.operation in {ClassEnroll, ClassEnd, ClassTransfer, RoleBindingCreate, RoleBindingEnd})
              && (b.head.scopeType == InstitutionScope ==>
                    b.head.operation !in {UnitMemberAdd, UnitMemberEnd, ClassEnroll, ClassEnd, ClassTransfer})
  {
  }

  /** The loop's own test of a row, against the counts already taken. */
  function Checks(head: Head, counts: map<string, nat>): Item -> bool {
    item => ValidItem(head.operation, item) && item.key in counts && counts[item.key] == 1
  }

  lemma ChecksPick(b: Batch, counts: map<string, nat>)
    requires Counted(b.items, counts)
    ensures forall item :: item in b.items ==> Checks(b.head, counts)(item) == Picks(b)(item)
  {
  }

  /** One row of the plan, as its result and the world it leaves. */
  function PerformRow<W>(port: Port<W>, head: Head, winners: map<string, string>): (Item, W) -> (Row, W) {
    (item: Item, world: W) =>
      match port.has(world, DerivedKey(head.key, item.key))
      case None => (UNAVAILABLE, world)
      case Some(retained) =>
        var (next, reply) := port.run(world, CommandFor(head, winners, item, retained));
        (RowFor(head.operation, item, reply), next)
  }

  /** The effects after each prefix of the rows, as performing them one by one
      gives. */
  ghost predicate Traces<W>(perform: (Item, W) -> (Row, W), pick: Item -> bool, order: seq<(nat, Item)>, trace: nat -> Effects<W>) {
    forall k: nat :: k < |order| ==>
      var item := order[k].1;
      if pick(item) then
        var (row, world) := perform(item, trace(k).world);
        trace(k + 1).world == world && trace(k + 1).rows == trace(k).rows[item.key := row]
      else trace(k + 1) == trace(k)
  }

  /** The rows in execution order: each ineligible row is refused, each eligible
      one performed, and its result stored at its own index. */
  method ExecuteRows<W>(items: seq<Item>, order: seq<(nat, Item)>, check: Item -> bool, perform: (Item, W) -> (Row, W),
                        world0: W, ghost pick: Item -> bool, ghost trace: nat -> Effects<W>)
    returns (rows: seq<Row>, world: W)
    requires multiset(order) == multiset(Grouping.Indexed(items))
    requires trace(0).world == world0 && Traces(perform, pick, order, trace)
    requires forall item :: item in items ==> check(item) == pick(item)
    requires forall k, l :: 0 <= k < l < |order| && pick(order[l].1) ==> order[k].1.key != order[l].1.key
    ensures world == trace(|order|).world
    ensures |rows| == |items| && forall i :: 0 <= i < |rows| ==> rows[i] == RowOf(pick, trace(|order|), items[i])
  {
    var table := new Row[|items|](_ => INVALID);
    world := world0;
    Grouping.Rearranged(items, order);
    for k := 0 to |order|
      invariant world == trace(k).world
      invariant forall l :: 0 <= l < k ==> table[order[l].0] == RowOf(pick, trace(k), order[l].1)
    {
      var (index, item) := order[k];
      if check(item) {
        var (row, next) := perform(item, world);
        table[index], world := row, next;
      } else {
        table[index] := INVALID;
      }
    }
    rows := table[..];
    forall i | 0 <= i < |rows| ensures rows[i] == RowOf(pick, trace(|order|), items[i]) {
      assert (i, items[i]) in order;
      var l :| 0 <= l < |order| && order[l] == (i, items[i]);
    }
  }

  /** Each step stores the row's result under its key and moves the world on. */
  ghost predicate Agree<W(!new)>(perform: (Item, W) -> (Row, W), step: (Item, Effects<W>) -> Effects<W>) {
    forall item, e: Effects<W> :: var (row, world) := perform(item, e.world);
      step(item, e).world == world && step(item, e).rows == e.rows[item.key := row]
  }

  lemma PerformsAgree<W(!new)>(port: Port<W>, head: Head, winners: map<string, string>)
    ensures Agree(PerformRow(port, head, winners), Performer(port, head, winners))
  {
  }

  ghost function TraceOf<W>(step: (Item, Effects<W>) -> Effects<W>, pick: Item -> bool, order: seq<(nat, Item)>, start: Effects<W>)
    : nat -> Effects<W>
  {
    (k: nat) => Grouping.Fold(step, Grouping.Kept(pick, order[..if k <= |order| then k else 0]), start)
  }

  lemma FoldTraces<W(!new)>(perform: (Item, W) -> (Row, W), step: (Item, Effects<W>) -> Effects<W>, pick: Item -> bool,
                            order: seq<(nat, Item)>, start: Effects<W>)
    requires Agree(perform, step)
    ensures Traces(perform, pick, order, TraceOf(step, pick, order, start))
    ensures TraceOf(step, pick, order, start)(0) == start
    ensures TraceOf(step, pick, order, start)(|order|) == Grouping.Fold(step, Grouping.Kept(pick, order), start)
  {
    var trace := TraceOf(step, pick, order, start);
    forall k: nat | k < |order| ensures trace(k + 1) == if pick(order[k].1) then step(order[k].1, trace(k)) else trace(k) {
      Grouping.FoldKept(step, pick, order, k, start);
    }
    var none: seq<Item> := Grouping.Kept(pick, order[..0]);
    assert none == [] && trace(0) == Grouping.Fold(step, none, start);
    assert order[..|order|] == order;
  }

  lemma NoOtherKey(b: Batch, order: seq<(nat, Item)>)
    requires multiset(order) == multiset(Grouping.Indexed(b.items))
    ensures forall k, l :: 0 <= k < l < |order| && Picks(b)(order[l].1) ==> order[k].1.key != order[l].1.key
  {
    Grouping.Rearranged(b.items, order);
    forall k, l | 0 <= k < l < |order| && Picks(b)(order[l].1) ensures order[k].1.key != order[l].1.key {
      if order[l].1.key == order[k].1.key { EligibleKeysUnique(b, order[l].0, order[k].0); }
    }
  }

  method CountRows(rows: seq<Row>) returns (r: BatchResult)
    ensures r == BatchResult(rows, CountStatus(rows, Succeeded), CountStatus(rows, NoOp), CountStatus(rows, Failed))
  {
    var succeeded, noOp, failed := 0, 0, 0;
    for i := 0 to |rows|
      invariant succeeded == CountStatus(rows[..i], Succeeded)
      invariant noOp == CountStatus(rows[..i], NoOp) && failed == CountStatus(rows[..i], Failed)
    {
      assert rows[..i + 1][..i] == rows[..i];
      match rows[i].status
      case Succeeded => succeeded := succeeded + 1;
      case NoOp => noOp := noOp + 1;
      case Failed => failed := failed + 1;
      case Blank =>
    }
    assert rows[..|rows|] == rows;
    r := BatchResult(rows, succeeded, noOp, failed);
  }

  function Trimmed(b: Batch): Batch { b.(head := b.head.(scopeId := Text.Trim(b.head.scopeId))) }

  /** What a batch reports when a plan is performed: every row has its result at
      its own index, and the totals count them. */
  ghost predicate Reports<W>(port: Port<W>, b: Batch, plan: seq<Item>, world0: W, r: BatchResult, world: W) {
    var effects := PerformAll(port, b.head, Winners(b), plan, world0);
    && world == effects.world
    && |r.rows| == |b.items| && (forall i :: 0 <= i < |b.items| ==> r.rows[i] == RowOf(Picks(b), effects, b.items[i]))
    && r == BatchResult(r.rows, CountStatus(r.rows, Succeeded), CountStatus(r.rows, NoOp), CountStatus(r.rows, Failed))
  }

  /** The batch was performed by its plan. */
  ghost predicate Completes<W(!new)>(port: Port<W>, b: Batch, world0: W, r: BatchResult, world: W) {
    exists plan :: IsPlan(b, plan) && Reports(port, b, plan, world0, r, world)
  }

  function StatusOf(row: Row): Status { row.status }

  lemma {:induction false} CountIsMultiplicity(rows: seq<Row>, status: Status)
    ensures CountStatus(rows, status) == multiset(Grouping.Map(StatusOf, rows))[status]
  {
    if rows != [] {
      var init, last := rows[..|rows| - 1], rows[|rows| - 1];
      CountIsMultiplicity(init, status);
      assert rows == init + [last] && StatusOf(last) == last.status;
      Grouping.MapLast(StatusOf, init, last);
    }
  }

  lemma CountIgnoresOrder(x: seq<Row>, y: seq<Row>, status: Status)
    requires multiset(x) == multiset(y)
    ensures CountStatus(x, status) == CountStatus(y, status)
  {
    CountIsMultiplicity(x, status);
    CountIsMultiplicity(y, status);
    Grouping.MapIgnoresOrder(StatusOf, x, y);
  }

  function RowsOf<W>(pick: Item -> bool, e: Effects<W>): Item -> Row { item => RowOf(pick, e, item) }

  /** A completed batch does not depend on the order of its rows: the world ends
      the same, equal rows get equal results, and so do the totals. */
  lemma ResultsIgnoreOrder<W(!new)>(port: Port<W>, b: Batch, c: Batch, world0: W,
                                    r: BatchResult, world: W, r': BatchResult, world': W)
    requires b.head == c.head && multiset(b.items) == multiset(c.items)
    requires Completes(port, b, world0, r, world) && Completes(port, c, world0, r', world')
    ensures world == world'
    ensures forall i, j :: 0 <= i < |r.rows| && 0 <= j < |r'.rows| && b.items[i] == c.items[j] ==> r.rows[i] == r'.rows[j]
    ensures multiset(r.rows) == multiset(r'.rows)
    ensures r.succeeded == r'.succeeded && r.noOp == r'.noOp && r.failed == r'.failed
  {
    var plan :| IsPlan(b, plan) && Reports(port, b, plan, world0, r, world);
    var plan' :| IsPlan(c, plan') && Reports(port, c, plan', world0, r', world');
    OrderIndependent(port, b, c, plan, plan', world0);
    var row, row' := RowsOf(Picks(b), PerformAll(port, b.head, Winners(b), plan, world0)),
                     RowsOf(Picks(c), PerformAll(port, c.head, Winners(c), plan', world0));
    RowsAreImages(row, row', b.items, c.items, r.rows, r'.rows);
    CountIgnoresOrder(r.rows, r'.rows, Succeeded);
    CountIgnoresOrder(r.rows, r'.rows, NoOp);
    CountIgnoresOrder(r.rows, r'.rows, Failed);
  }

  lemma RowsAreImages(row: Item -> Row, row': Item -> Row, x: seq<Item>, y: seq<Item>, rows: seq<Row>, rows': seq<Row>)
    requires multiset(x) == multiset(y) && |rows| == |x| && |rows'| == |y| && (forall item :: row(item) == row'(item))
    requires (forall i :: 0 <= i < |x| ==> rows[i] == row(x[i])) && (forall i :: 0 <= i < |y| ==> rows'[i] == row'(y[i]))
    ensures forall i, j :: 0 <= i < |rows| && 0 <= j < |rows'| && x[i] == y[j] ==> rows[i] == rows'[j]
    ensures multiset(rows) == multiset(rows')
  {
    assert rows == Grouping.Map(row, x) && rows' == Grouping.Map(row, y);
    Grouping.MapIgnoresOrder(row, x, y);
  }

  // ----- when the totals add up

  /** The reply to the i-th command of the plan is silent: the lookup before it
      answers, and the command in the world it meets returns neither an error nor a
      membership. */
  predicate Silenced<W>(port: Port<W>, head: Head, winners: map<string, string>, plan: seq<Item>, world: W, i: nat)
    requires i < |plan|
  {
    var met := WorldAfter(port, head, winners, plan, world, i);
    var retained := port.has(met, DerivedKey(head.key, plan[i].key));
    retained.Some? && Silent(head.operation, port.run(met, CommandFor(head, winners, plan[i], retained.value)).1)
  }

  /** The row of the i-th command is blank exactly when its reply is silent. */
  lemma BlankRow<W>(port: Port<W>, head: Head, winners: map<string, string>, plan: seq<Item>, world: W, i: nat, row: Row)
    requires i < |plan| && Answers(port, head, winners, plan, world, i, row)
    ensures row.status.Blank? <==> Silenced(port, head, winners, plan, world, i)
  {
  }

  lemma PlanKeysDistinct(b: Batch, plan: seq<Item>)
    requires IsPlan(b, plan)
    ensures DistinctKeys(plan)
  {
    forall i, j | 0 <= i < j < |plan| ensures plan[i].key != plan[j].key {
      var x, y := plan[i], plan[j];
      assert x in plan && y in plan && Before(b.head, Winners(b))(x, y);
      if x.key == y.key {
        Grouping.ByKeyStrictWeak(Late(b.head, Winners(b)), KEY);
        Text.LessTrichotomy(x.key, y.key);
        var k :| 0 <= k < |b.items| && b.items[k] == x;
        var l :| 0 <= l < |b.items| && b.items[l] == y;
        if k != l { EligibleKeysUnique(b, k, l); }
      }
    }
  }

  lemma BlankRowIsSilenced<W>(port: Port<W>, b: Batch, plan: seq<Item>, world0: W, item: Item)
    requires IsPlan(b, plan) && item in b.items
    ensures var e := PerformAll(port, b.head, Winners(b), plan, world0);
            RowOf(Picks(b), e, item).status.Blank? <==>
              exists i :: 0 <= i < |plan| && plan[i] == item && Silenced(port, b.head, Winners(b), plan, world0, i)
  {
    PlanKeysDistinct(b, plan);
    EveryRowAnswered(port, b, plan, world0, item);
    if Eligible(b, item) {
      assert item in plan;
      var i :| 0 <= i < |plan| && plan[i] == item;
      PerformedAt(port, b.head, Winners(b), plan, world0, i);
      RowAnswers(port, b.head, Winners(b), plan, world0, i);
      BlankRow(port, b.head, Winners(b), plan, world0, i, RowAt(port, b.head, Winners(b), plan, world0, i));
    }
  }

  /** The totals of a completed batch add up to its rows exactly when no command
      of its plan got a silent reply. */
  lemma TotalsExactly<W>(port: Port<W>, b: Batch, plan: seq<Item>, world0: W, r: BatchResult, world: W)
    requires IsPlan(b, plan) && Reports(port, b, plan, world0, r, world)
    ensures r.succeeded + r.noOp + r.failed == |b.items| <==>
              forall i :: 0 <= i < |plan| ==> !Silenced(port, b.head, Winners(b), plan, world0, i)
  {
    TotalsAddUp(r.rows);
    forall i | 0 <= i < |b.items|
      ensures r.rows[i].status.Blank? <==>
                exists k :: 0 <= k < |plan| && plan[k] == b.items[i] && Silenced(port, b.head, Winners(b), plan, world0, k)
    {
      BlankRowIsSilenced(port, b, plan, world0, b.items[i]);
    }
    forall k | 0 <= k < |plan| && Silenced(port, b.head, Winners(b), plan, world0, k)
      ensures exists i :: 0 <= i < |r.rows| && r.rows[i].status.Blank?
    {
      assert plan[k] in plan;
      var i :| 0 <= i < |b.items| && b.items[i] == plan[k];
      assert r.rows[i].status.Blank?;
    }
  }

  /** For every operation but an enrollment the totals of every completed batch
      add up. */
  lemma TotalsOfOthers<W(!new)>(port: Port<W>, b: Batch, world0: W, r: BatchResult, world: W)
    requires Completes(port, b, world0, r, world) && b.head.operation !in {ClassEnroll, ClassTransfer}
    ensures r.succeeded + r.noOp + r.failed == |b.items|
  {
    var plan :| IsPlan(b, plan) && Reports(port, b, plan, world0, r, world);
    TotalsExactly(port, b, plan, world0, r, world);
  }

  /** One row that enrolls a student. */
  function Enrollment(student: string): Item { Item("k", student, "", "", "", 0, 0) }
  function Enrollments(student: string): Batch { Batch(Head(ClassEnroll, ClassScope, student, "b"), [Enrollment(student)]) }

  /** Commands that return neither an error nor a membership. */
  function SilentPort(): Port<()> { Port((_, _) => Some(false), (world, _) => (world, Reply(None, None, false, false))) }

  lemma IdTrims(id: string)
    requires Text.IsOpaqueId(id)
    ensures Text.Trim(id) == id && id != ""
  {
    Text.IdCharIsNoSpace(id[0]);
    Text.IdCharIsNoSpace(id[|id| - 1]);
  }

  lemma EnrollmentIsPlan(student: string)
    requires Text.IsOpaqueId(student)
    ensures Acceptable(Trimmed(Enrollments(student))) && IsPlan(Enrollments(student), [Enrollment(student)])
  {
    IdTrims(student);
    assert ValidItemKey("k");
    assert ValidItem(ClassEnroll, Enrollment(student));
    assert Grouping.Map(KEY, Enrollments(student).items) == ["k"];
    assert Eligible(Enrollments(student), Enrollment(student));
  }

  /** The one command is silent, whatever is known of duplicates. */
  lemma EnrollmentSilenced(student: string, winners: map<string, string>)
    ensures Silenced(SilentPort(), Enrollments(student).head, winners, [Enrollment(student)], (), 0)
  {
  }

  /** What a performed plan reports. */
  function ReportOf<W>(port: Port<W>, b: Batch, plan: seq<Item>, world0: W): BatchResult {
    var e := PerformAll(port, b.head, Winners(b), plan, world0);
    var rows := seq(|b.items|, i requires 0 <= i < |b.items| => RowOf(Picks(b), e, b.items[i]));
    BatchResult(rows, CountStatus(rows, Succeeded), CountStatus(rows, NoOp), CountStatus(rows, Failed))
  }

  /** An acceptable batch of one row that completes with totals that fall short. */
  lemma TotalsFallShort(student: string) returns (r: BatchResult)
    requires Text.IsOpaqueId(student)
    ensures Acceptable(Trimmed(Enrollments(student))) && Completes(SilentPort(), Enrollments(student), (), r, ())
    ensures r.succeeded + r.noOp + r.failed < |Enrollments(student).items|
  {
    var port, b, plan := SilentPort(), Enrollments(student), [Enrollment(student)];
    EnrollmentIsPlan(student);
    r := ReportOf(port, b, plan, ());
    assert Reports(port, b, plan, (), r, ());
    EnrollmentSilenced(student, Winners(b));
    TotalsExactly(port, b, plan, (), r, ());
    TotalsAddUp(r.rows);
  }

  method RunRows<W(!new)>(port: Port<W>, b: Batch, world0: W) returns (r: BatchResult, world: W)
    ensures Completes(port, b, world0, r, world)
  {
    var counts := CountKeys(b.items);
    var winners := DuplicateWinners(b, counts);
    var order := SortRows(b, winners);
    SortedRowsPlan(b, order);
    NoOtherKey(b, order);
    ChecksPick(b, counts);
    ghost var pick, step, start := Picks(b), Performer(port, b.head, winners), Effects(world0, map[], []);
    PerformsAgree(port, b.head, winners);
    FoldTraces(PerformRow(port, b.head, winners), step, pick, order, start);
    var rows;
    rows, world := ExecuteRows(b.items, order, Checks(b.head, counts), PerformRow(port, b.head, winners), world0,
                               pick, TraceOf(step, pick, order, start));
    r := CountRows(rows);
    assert Reports(port, b, Grouping.Kept(pick, order), world0, r, world);
  }

  predicate RequiresRecentSession(op: Operation) {
    op in {RoleBindingCreate, RoleBindingEnd, UserEnable, UserDisable, UserSessionsRevoke}
  }

  /** One batch, with the answers of its caller's authorization and of the check
      of a strong recent session: refused as a whole without effect exactly when
      it is malformed, denied, or asks for a session that is not there, in this
      order; otherwise it completes. */
  method RunBatch<W(!new)>(port: Port<W>, b: Batch, denied: Option<string>, stale: Option<string>, world0: W)
    returns (r: Result<BatchResult, string>, world: W)
    ensures r.Ok? <==>
              && Acceptable(Trimmed(b)) && denied.None? && (RequiresRecentSession(b.head.operation) ==> stale.None?)
    ensures r.Err? ==> world == world0
    ensures !Acceptable(Trimmed(b)) ==> r == Err("request.invalid")
    ensures Acceptable(Trimmed(b)) && denied.Some? ==> r == Err(denied.value)
    ensures Acceptable(Trimmed(b)) && denied.None? && r.Err? ==> stale.Some? && r == Err(stale.value)
    ensures r.Ok? ==> Completes(port, Trimmed(b), world0, r.value, world)
  {
    var c := Trimmed(b);
    if !Acceptable(c) { return Err("request.invalid"), world0; }
    if denied.Some? { return Err(denied.value), world0; }
    if RequiresRecentSession(c.head.operation) && stale.Some? { return Err(stale.value), world0; }
    var result;
    result, world := RunRows(port, c, world0);
    r := Ok(result);
  }
}
