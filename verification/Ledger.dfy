/**
 The durable ledger: its tables, and what each storage operation does to them.

 A `Db` is one committed SQLite state. Every operation is a function to the next committed state and an answer;
 a failed operation returns the state it started from, because its transaction is dropped.
 */
module Ledger {
  import opened Wrappers
  import opened Text
  import opened Bytes
  import opened Identifiers
  import opened Domain

  // ---- Tables ----

  datatype ActorKind = Human | Agent

  datatype Actor = Actor(kind: ActorKind, id: string, surface: string, host: string)

  datatype Execution =
    | Direct(surface: string, host: string)
    | ByAgent(agentId: string, surface: string, host: string)

  /** `operation_type` and `mutation_type`; effective mutations are all stored as operations of type triage. */
  datatype WriteKind =
    | CaptureKind | TriageKind | ApproveKind | RejectKind | PrioritizeKind | AssignKind
    | StartKind | BlockKind | ResumeKind | FinishKind

  /** A row of `operations`; `expected` is NULL for a capture. */
  datatype Operation = Operation(item: ItemId, kind: WriteKind, expected: Option<nat>, revision: int, at: string)

  /** A row of `events`: the written event with its reason column, and the audit columns. */
  datatype EventRow = EventRow(
    eventId: string, operation: string, index: nat, audited: Audited, actor: Actor, execution: Execution, at: string)

  datatype Receipt = Receipt(kind: WriteKind, digest: Digest, operation: string, item: ItemId, at: string)

  /** A row of `change_journal`. */
  datatype Change = Change(position: int, operation: string, item: ItemId, project: string, revision: int)

  /** `events`, kept per item in insertion order, with its primary-key index. */
  datatype EventTable = EventTable(rows: map<ItemId, seq<EventRow>>, ids: set<string>)

  /** `store_metadata`, the schema cookie and the migration bookkeeping. */
  datatype Identity = Identity(storeId: string, schemaVersion: int, migrations: seq<string>)

  /** `journal_metadata`: generation, F, H and the two flags. */
  datatype Metadata =
    Metadata(generation: string, floor: int, high: int, syncEnabled: bool, bootstrapRequired: bool)

  datatype Db = Db(
    identity: Identity, projects: set<string>, counters: map<(string, string), int>,
    items: map<ItemId, Item>, operations: map<string, Operation>, events: EventTable,
    receipts: map<string, Receipt>, journal: seq<Change>, allocator: Option<int>, metadata: Metadata)

  // ---- Identity a handle pins ----

  datatype StoreState = StoreState(identity: Identity, generation: string)

  predicate GenerationOk(g: string) {
    |g| == 32 && forall i :: 0 <= i < |g| ==> IsDigit(g[i]) || 'a' <= g[i] <= 'f'
  }

  /** `read_store_state`: None where the source reports malformed or missing boundary metadata. */
  function StateOf(db: Db): Option<StoreState> {
    if db.identity.storeId == "" || !GenerationOk(db.metadata.generation) then None
    else Some(StoreState(db.identity, db.metadata.generation))
  }

  // ---- Journal ----

  datatype JournalError =
    | InvalidMetadata | StoreMismatch | GenerationMismatch | SyncDisabled | InvalidCoverage | ExpiredCoverage
    | JournalSequenceExhausted | JournalSqlite

  /** `read_metadata` accepts. */
  predicate MetadataOk(db: Db) {
    GenerationOk(db.metadata.generation) && 0 <= db.metadata.floor <= db.metadata.high
  }

  predicate InJournal(db: Db, operation: string) {
    exists i :: 0 <= i < |db.journal| && db.journal[i].operation == operation
  }

  /** AUTOINCREMENT: one past the largest position ever allocated, pruned or not. */
  function NextPosition(db: Db): int {
    (if db.allocator.None? then 0 else db.allocator.value) + 1
  }

  /** `append_change` with its insert trigger: the row, the allocator and H move together or not at all. */
  function Appended(db: Db, operation: string): Result<Db, JournalError> {
    if !MetadataOk(db) then Err(InvalidMetadata)
    else if db.metadata.high == I64_MAX then Err(JournalSequenceExhausted)
    else if operation !in db.operations || db.operations[operation].item !in db.items then Err(JournalSqlite)
    else if InJournal(db, operation) || NextPosition(db) > I64_MAX || NextPosition(db) <= db.metadata.high then
      Err(JournalSqlite)
    else
      var op := db.operations[operation];
      var row := Change(NextPosition(db), operation, op.item, op.item.project, op.revision);
      Ok(db.(journal := db.journal + [row], allocator := Some(NextPosition(db)),
                metadata := db.metadata.(high := NextPosition(db))))
  }

  // ---- Writes ----

  datatype WriteError =
    | RestartRequired | IdempotencyConflict | NotFound | VersionConflict
    | SequenceExhausted | Invalid(error: MutationError) | Journal(failure: JournalError) | Sqlite

  datatype Answer = Answer(item: Item, replayed: bool)

  datatype CaptureInput =
    CaptureInput(requester: string, project: string, content: Content, provenance: Provenance)

  /**
   What a call carries besides its payload: clock, fresh identities, and whether SQLite accepts and commits the rows.
   */
  datatype Call = Call(
    key: string, digest: Digest, at: string, operation: string, eventIds: seq<string>,
    actor: Actor, execution: Execution, commits: bool)

  /** CHECK (length(s) > 0): SQLite's length stops at the first NUL character. */
  predicate HasLength(s: string) {
    s != "" && s[0] != '\0'
  }

  predicate RevisionTaken(db: Db, item: ItemId, revision: int) {
    exists o :: o in db.operations && db.operations[o].item == item && db.operations[o].revision == revision
  }

  /** INSERT INTO operations: primary key, UNIQUE (item_id, item_revision), CHECK (item_revision > 0). */
  function OperationInserted(db: Db, id: string, row: Operation): Option<Db> {
    if !HasLength(id) || id in db.operations || row.item !in db.items || row.revision <= 0 || !HasLength(row.at)
       || RevisionTaken(db, row.item, row.revision) then None
    else Some(db.(operations := db.operations[id := row]))
  }

  predicate SlotTaken(rows: seq<EventRow>, revision: int, index: int) {
    exists i :: 0 <= i < |rows| && rows[i].audited.event.revision == revision && rows[i].index == index
  }

  function EventsOf(db: Db, item: ItemId): seq<EventRow> {
    if item in db.events.rows then db.events.rows[item] else []
  }

  /** INSERT INTO events: primary key, UNIQUE slot, and the foreign key to (operation_id, item_revision). */
  function EventInserted(db: Db, item: ItemId, row: EventRow): Option<Db> {
    if !HasLength(row.eventId) || row.eventId in db.events.ids || item !in db.items || row.operation !in db.operations
       || db.operations[row.operation].revision != row.audited.event.revision
       || !HasLength(row.at) || SlotTaken(EventsOf(db, item), row.audited.event.revision, row.index) then None
    else
      Some(db.(events := EventTable(db.events.rows[item := EventsOf(db, item) + [row]],
                                    db.events.ids + {row.eventId})))
  }

  predicate OperationReceipted(db: Db, operation: string) {
    exists k :: k in db.receipts && db.receipts[k].operation == operation
  }

  /** INSERT INTO mutation_receipts: primary key and UNIQUE operation_id. */
  function ReceiptInserted(db: Db, key: string, row: Receipt): Option<Db> {
    if !HasLength(key) || key in db.receipts || row.operation !in db.operations || row.item !in db.items
        || !HasLength(row.at)
       || OperationReceipted(db, row.operation) then None
    else Some(db.(receipts := db.receipts[key := row]))
  }

  /** INSERT INTO items, with its criteria and provenance rows. */
  function ItemInserted(db: Db, item: Item): Option<Db> {
    if item.id in db.items || !HasLength(item.content.title) || !HasLength(item.capturedAt) then None
    else Some(db.(items := db.items[item.id := item]))
  }

  /** The sequence a capture takes and the counter it leaves. */
  function AllocateSequence(db: Db, requester: string, project: string): Option<(Db, int)> {
    var scope := (requester, project);
    if scope !in db.counters then Some((db.(counters := db.counters[scope := 2]), 1))
    else if db.counters[scope] == I64_MAX then None
    else Some((db.(counters := db.counters[scope := db.counters[scope] + 1]), db.counters[scope]))
  }

  /** `CaptureIdentity` carries one event id; an empty one fails the CHECK. */
  function CaptureEvent(call: Call): EventRow {
    EventRow(if call.eventIds == [] then "" else call.eventIds[0], call.operation, 0,
             Audited(DomainEvent(Captured, 1, None, None), None),
             call.actor, call.execution, call.at)
  }

  /** Item, operation, event and receipt of a new capture, in statement order. */
  function CaptureRows(db: Db, item: Item, call: Call): Option<Db>
  {
    var a := ItemInserted(db, item);
    if a.None? then None else
    var b := OperationInserted(a.value, call.operation, Operation(item.id, CaptureKind, None, 1, call.at));
    if b.None? then None else
    var c := EventInserted(b.value, item.id, CaptureEvent(call));
    if c.None? then None else
    ReceiptInserted(c.value, call.key, Receipt(CaptureKind, call.digest, call.operation, item.id, call.at))
  }

  /** Journals the operation and commits. */
  function Committed(before: Db, rows: Option<Db>, call: Call, item: Item): (Db, Result<Answer, WriteError>) {
    if rows.None? then (before, Err(Sqlite))
    else
      var appended := Appended(rows.value, call.operation);
      if appended.Err? then
        (before, Err(if appended.error.JournalSqlite? then Sqlite else Journal(appended.error)))
      else if !call.commits then (before, Err(Sqlite))
      else (appended.value, Ok(Answer(item, false)))
  }

  /** `capture_inner`. */
  function Capture(db: Db, pinned: StoreState, input: CaptureInput, call: Call): (Db, Result<Answer, WriteError>)
  {
    if StateOf(db) != Some(pinned) then (db, Err(RestartRequired))
    else if call.key in db.receipts then
      var receipt := db.receipts[call.key];
      if receipt.digest != call.digest then (db, Err(IdempotencyConflict))
      else if receipt.item !in db.items then (db, Err(Sqlite))
      else
        var stored := db.items[receipt.item];
        (db, Ok(Answer(CapturedItem(ItemId(input.requester, input.project, stored.id.sequence), input.content,
                                    input.provenance, stored.capturedAt), true)))
    else
      var slot := AllocateSequence(db.(projects := db.projects + {input.project}), input.requester, input.project);
      if slot.None? then (db, Err(SequenceExhausted))
      else if slot.value.1 <= 0 then (db, Err(Sqlite))
      else
        var item := CapturedItem(ItemId(input.requester, input.project, slot.value.1), input.content,
                                 input.provenance, call.at);
        Committed(db, CaptureRows(slot.value.0, item, call), call, item)
  }

  /** `as i64`, then CHECK (revision > 0): a revision above i64::MAX wraps negative and is refused. */
  function ItemUpdated(db: Db, item: Item): Option<Db> {
    if item.id !in db.items || item.revision > I64_MAX || item.revision == 0 || !HasLength(item.updatedAt) then None
    else Some(db.(items := db.items[item.id := item]))
  }

  function MutationRow(call: Call, events: seq<DomainEvent>, reason: Option<string>, i: nat): EventRow
    requires i < |events| <= |call.eventIds|
  {
    EventRow(call.eventIds[i], call.operation, i, Audit(events, reason)[i], call.actor, call.execution, call.at)
  }

  /** The first `n` event rows of a mutation. */
  function EventsInserted(db: Db, item: ItemId, call: Call, events: seq<DomainEvent>, reason: Option<string>, n: nat)
    : Option<Db>
    requires n <= |events| <= |call.eventIds|
  {
    if n == 0 then Some(db)
    else
      var before := EventsInserted(db, item, call, events, reason, n - 1);
      if before.None? then None
      else EventInserted(before.value, item, MutationRow(call, events, reason, n - 1))
  }

  function MutationType(events: seq<DomainEvent>): WriteKind {
    if |events| != 1 then TriageKind
    else
      match events[0].kind
      case Approved => ApproveKind
      case Rejected => RejectKind
      case PriorityChanged => PrioritizeKind
      case AssigneeChanged => AssignKind
      case Started => StartKind
      case Blocked => BlockKind
      case Resumed => ResumeKind
      case Finished => FinishKind
      case NoteAdded | Captured => TriageKind
  }

  function MutationRows(db: Db, item: Item, expected: nat, call: Call, events: seq<DomainEvent>, reason: Option<string>)
    : Option<Db>
    requires |events| == |call.eventIds|
  {
    var a := ItemUpdated(db, item);
    if a.None? then None else
    var b := OperationInserted(a.value, call.operation,
                               Operation(item.id, TriageKind, Some(expected), item.revision, call.at));
    if b.None? then None else
    var c := EventsInserted(b.value, item.id, call, events, reason, |events|);
    if c.None? then None else
    ReceiptInserted(c.value, call.key, Receipt(MutationType(events), call.digest, call.operation, item.id, call.at))
  }

  /** `mutate`. */
  function Mutate(db: Db, pinned: StoreState, id: ItemId, expected: nat, mutation: Mutation, call: Call)
    : (Db, Result<Answer, WriteError>)
  {
    if StateOf(db) != Some(pinned) then (db, Err(RestartRequired))
    else if call.key in db.receipts then
      var receipt := db.receipts[call.key];
      if receipt.digest != call.digest then (db, Err(IdempotencyConflict))
      else if receipt.item !in db.items then (db, Err(NotFound))
      else (db, Ok(Answer(db.items[receipt.item], true)))
    else if id !in db.items then (db, Err(NotFound))
    else if db.items[id].revision != expected then (db, Err(VersionConflict))
    else
      var applied := Applied(db.items[id], mutation);
      if applied.Err? then (db, Err(Invalid(applied.error)))
      else
        var (item, events) := applied.value;
        if events == [] then (db, Ok(Answer(item, false)))
        else if |call.eventIds| != |events| then (db, Err(Sqlite))
        else
          var stamped := item.(updatedAt := call.at);
          Committed(db, MutationRows(db, stamped, expected, call, events, MutationReason(mutation)), call, stamped)
  }

  // ---- Maintenance ----

  datatype MaintenanceError = MaintenanceJournal(failure: JournalError) | InvalidStore

  function RowsAfter(rows: seq<Change>, through: int): seq<Change> {
    if rows == [] then []
    else (if rows[0].position > through then [rows[0]] else []) + RowsAfter(rows[1..], through)
  }

  function Between(rows: seq<Change>, low: int, high: int): seq<Change> {
    if rows == [] then []
    else (if low < rows[0].position <= high then [rows[0]] else []) + Between(rows[1..], low, high)
  }

  predicate RowAgrees(db: Db, c: Change) {
    && c.position <= db.metadata.high
    && c.operation in db.operations && c.item in db.items
    && c.item == db.operations[c.operation].item && c.revision == db.operations[c.operation].revision
    && c.project == c.item.project && c.revision <= db.items[c.item].revision
  }

  /** `validate_journal`: the three queries and the comparison of their results. */
  predicate ValidateJournal(db: Db) {
    && MetadataOk(db)
    && (forall c :: c in db.journal ==> RowAgrees(db, c))
    && |Between(db.journal, db.metadata.floor, db.metadata.high)| == db.metadata.high - db.metadata.floor
    && (db.allocator == Some(db.metadata.high) || (db.allocator.None? && db.metadata.high == 0))
  }

  /** `validate`, as far as it reads the modelled tables. */
  predicate Validate(db: Db) {
    StateOf(db).Some? && ValidateJournal(db)
  }

  /** `prune_opened`. */
  function Prune(db: Db, generation: string, through: int): (Db, Outcome<MaintenanceError>) {
    if !Validate(db) then (db, Fail(InvalidStore))
    else if db.metadata.generation != generation then (db, Fail(MaintenanceJournal(GenerationMismatch)))
    else if through < db.metadata.floor || through > db.metadata.high
        then (db, Fail(MaintenanceJournal(InvalidCoverage)))
    else
      var pruned := db.(journal := RowsAfter(db.journal, through), metadata := db.metadata.(floor := through));
      if !Validate(pruned) then (db, Fail(InvalidStore)) else (pruned, Pass)
  }

  /** `activate_opened`. */
  function Activate(db: Db, generation: string): (Db, Outcome<MaintenanceError>) {
    if !Validate(db) then (db, Fail(InvalidStore))
    else if db.metadata.generation != generation then (db, Fail(MaintenanceJournal(GenerationMismatch)))
    else
      var enabled := db.(metadata := db.metadata.(syncEnabled := true));
      if !Validate(enabled) then (db, Fail(InvalidStore)) else (enabled, Pass)
  }

  /** `restore`: the backup under a fresh generation, inactive; SQLite picks the new schema cookie. */
  function Restore(db: Db, backup: Db, generation: string, schemaVersion: int): (Db, Outcome<MaintenanceError>) {
    var staged := backup.(metadata := backup.metadata.(generation := generation, syncEnabled := false,
        bootstrapRequired := true));
    var published := staged.(identity := staged.identity.(schemaVersion := schemaVersion));
    if !Validate(backup) || !Validate(staged) || !Validate(db) || !Validate(published) then (db, Fail(InvalidStore))
    else (published, Pass)
  }

  /** A migrated, never written store. */
  predicate Fresh(db: Db) {
    && StateOf(db).Some?
    && db.counters == map[] && db.items == map[] && db.operations == map[] && db.events == EventTable(map[], {})
    && db.receipts == map[] && db.journal == [] && db.allocator == None
    && db.metadata == Metadata(db.metadata.generation, 0, 0, false, true)
  }
}
