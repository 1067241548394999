/**
 The storage adapters as they run: one connection whose tables change statement by statement inside a
 transaction, and return to the state at BEGIN on every early exit.
 */
module LedgerStore {
  import opened Wrappers
  import opened Text
  import opened Identifiers
  import opened Domain
  import opened Ledger

  class Store {
    var identity: Identity
    var projects: set<string>
    var counters: map<(string, string), int>
    var items: map<ItemId, Item>
    var operations: map<string, Operation>
    var events: EventTable
    var receipts: map<string, Receipt>
    var journal: seq<Change>
    var allocator: Option<int>
    var metadata: Metadata

    function View(): Db
      reads this
    {
      Db(identity, projects, counters, items, operations, events, receipts, journal, allocator, metadata)
    }

    constructor (db: Db)
      ensures View() == db
    {
      identity, projects, counters, items := db.identity, db.projects, db.counters, db.items;
      operations, events, receipts := db.operations, db.events, db.receipts;
      journal, allocator, metadata := db.journal, db.allocator, db.metadata;
    }

    /** Replaces the whole database: dropping an uncommitted transaction, or publishing a backup. */
    method Overwrite(db: Db)
      modifies this
      ensures View() == db
    {
      identity, projects, counters, items := db.identity, db.projects, db.counters, db.items;
      operations, events, receipts := db.operations, db.events, db.receipts;
      journal, allocator, metadata := db.journal, db.allocator, db.metadata;
    }

    // ---- Statements ----

    method InsertItem(item: Item) returns (ok: bool)
      modifies this`items
      ensures ok <==> ItemInserted(old(View()), item).Some?
      ensures View() == if ok then ItemInserted(old(View()), item).value else old(View())
    {
      if item.id in items || !HasLength(item.content.title) || !HasLength(item.capturedAt) {
        return false;
      }
      items := items[item.id := item];
      return true;
    }

    method UpdateItem(item: Item) returns (ok: bool)
      modifies this`items
      ensures ok <==> ItemUpdated(old(View()), item).Some?
      ensures View() == if ok then ItemUpdated(old(View()), item).value else old(View())
    {
      if item.id !in items || item.revision > I64_MAX || item.revision == 0 || !HasLength(item.updatedAt) {
        return false;
      }
      items := items[item.id := item];
      return true;
    }

    method InsertOperation(id: string, row: Operation) returns (ok: bool)
      modifies this`operations
      ensures ok <==> OperationInserted(old(View()), id, row).Some?
      ensures View() == if ok then OperationInserted(old(View()), id, row).value else old(View())
    {
      if !HasLength(id) || id in operations || row.item !in items || row.revision <= 0 || !HasLength(row.at)
         || RevisionTaken(View(), row.item, row.revision) {
        return false;
      }
      operations := operations[id := row];
      return true;
    }

    method InsertEvent(item: ItemId, row: EventRow) returns (ok: bool)
      modifies this`events
      ensures ok <==> EventInserted(old(View()), item, row).Some?
      ensures View() == if ok then EventInserted(old(View()), item, row).value else old(View())
    {
      var inserted := EventInserted(View(), item, row);
      if inserted.None? {
        return false;
      }
      events := EventTable(events.rows[item := EventsOf(View(), item) + [row]], events.ids + {row.eventId});
      return true;
    }

    method InsertReceipt(key: string, row: Receipt) returns (ok: bool)
      modifies this`receipts
      ensures ok <==> ReceiptInserted(old(View()), key, row).Some?
      ensures View() == if ok then ReceiptInserted(old(View()), key, row).value else old(View())
    {
      if !HasLength(key) || key in receipts || row.operation !in operations || row.item !in items || !HasLength(row.at)
         || OperationReceipted(View(), row.operation) {
        return false;
      }
      receipts := receipts[key := row];
      return true;
    }

    /** `append_change`: the statement and its trigger, undone together by ABORT. */
    method AppendChange(operation: string) returns (r: Result<int, JournalError>)
      modifies this`journal, this`allocator, this`metadata
      ensures match Appended(old(View()), operation)
              case Ok(db) => r == Ok(db.metadata.high) && View() == db
              case Err(error) => r == Err(error) && View() == old(View())
    {
      if !MetadataOk(View()) {
        return Err(InvalidMetadata);
      }
      if metadata.high == I64_MAX {
        return Err(JournalSequenceExhausted);
      }
      if operation !in operations || operations[operation].item !in items {
        return Err(JournalSqlite);
      }
      var position := (if allocator.None? then 0 else allocator.value) + 1;
      if InJournal(View(), operation) || position > I64_MAX || position <= metadata.high {
        return Err(JournalSqlite);
      }
      var op := operations[operation];
      journal := journal + [Change(position, operation, op.item, op.item.project, op.revision)];
      allocator := Some(position);
      metadata := metadata.(high := position);
      return Ok(position);
    }

    // ---- Transactions ----

    /** The tail every effective write shares: journal, then commit, rolling everything back on failure. */
    method JournalAndCommit(begin: Db, call: Call, item: Item) returns (r: Result<Answer, WriteError>)
      modifies this
      ensures (View(), r) == Committed(begin, Some(old(View())), call, item)
    {
      var position := AppendChange(call.operation);
      if position.Err? {
        Overwrite(begin);
        return Err(if position.error.JournalSqlite? then Sqlite else Journal(position.error));
      }
      if !call.commits {
        Overwrite(begin);
        return Err(Sqlite);
      }
      return Ok(Answer(item, false));
    }

    /** The counter row of one requester and project: inserted at 2, or advanced by one. */
    method TakeSequence(requester: string, project: string) returns (r: Option<int>)
      modifies this`counters
      ensures match AllocateSequence(old(View()), requester, project)
              case Some((db, sequence)) => r == Some(sequence) && View() == db
              case None => r == None && View() == old(View())
    {
      var scope := (requester, project);
      if scope !in counters {
        counters := counters[scope := 2];
        return Some(1);
      }
      var sequence := counters[scope];
      if sequence == I64_MAX {
        return None;
      }
      counters := counters[scope := sequence + 1];
      return Some(sequence);
    }

    /** `insert_capture` and the receipt. */
    method InsertCapture(item: Item, call: Call) returns (ok: bool)
      modifies this`items, this`operations, this`events, this`receipts
      ensures ok <==> CaptureRows(old(View()), item, call).Some?
      ensures ok ==> View() == CaptureRows(old(View()), item, call).value
    {
      ok := InsertItem(item);
      if ok {
        ok := InsertOperation(call.operation, Operation(item.id, CaptureKind, None, 1, call.at));
      }
      if ok {
        ok := InsertEvent(item.id, CaptureEvent(call));
      }
      if ok {
        ok := InsertReceipt(call.key, Receipt(CaptureKind, call.digest, call.operation, item.id, call.at));
      }
    }

    method CaptureInner(pinned: StoreState, input: CaptureInput, call: Call) returns (r: Result<Answer, WriteError>)
      modifies this
      ensures (View(), r) == Capture(old(View()), pinned, input, call)
    {
      var begin := View();
      if StateOf(View()) != Some(pinned) {
        return Err(RestartRequired);
      }
      if call.key in receipts {
        var receipt := receipts[call.key];
        if receipt.digest != call.digest {
          return Err(IdempotencyConflict);
        }
        if receipt.item !in items {
          return Err(Sqlite);
        }
        var stored := items[receipt.item];
        return Ok(Answer(CapturedItem(ItemId(input.requester, input.project, stored.id.sequence), input.content,
                                      input.provenance, stored.capturedAt), true));
      }
      projects := projects + {input.project};
      var sequence := TakeSequence(input.requester, input.project);
      if sequence.None? {
        Overwrite(begin);
        return Err(SequenceExhausted);
      }
      if sequence.value <= 0 {
        Overwrite(begin);
        return Err(Sqlite);
      }
      var item := CapturedItem(ItemId(input.requester, input.project, sequence.value), input.content,
                               input.provenance, call.at);
      var ok := InsertCapture(item, call);
      if !ok {
        Overwrite(begin);
        return Err(Sqlite);
      }
      r := JournalAndCommit(begin, call, item);
    }

    method InsertEvents(item: ItemId, call: Call, domainEvents: seq<DomainEvent>, reason: Option<string>)
      returns (ok: bool)
      requires |call.eventIds| == |domainEvents|
      modifies this`events
      ensures ok <==> EventsInserted(old(View()), item, call, domainEvents, reason, |domainEvents|).Some?
      ensures ok ==> View() == EventsInserted(old(View()), item, call, domainEvents, reason, |domainEvents|).value
    {
      hide EventInserted;
      ghost var start := View();
      ok := true;
      for i := 0 to |domainEvents|
        invariant ok
        invariant EventsInserted(start, item, call, domainEvents, reason, i) == Some(View())
      {
        ok := InsertEvent(item, MutationRow(call, domainEvents, reason, i));
        if !ok {
          EventsInsertedMonotone(start, item, call, domainEvents, reason, i + 1, |domainEvents|);
          return false;
        }
      }
    }

    /** The item update, the operation, its events and the receipt, in statement order. */
    method InsertMutation(item: Item, expected: nat, call: Call, domainEvents: seq<DomainEvent>, reason: Option<string>)
      returns (ok: bool)
      requires |call.eventIds| == |domainEvents|
      modifies this`items, this`operations, this`events, this`receipts
      ensures ok <==> MutationRows(old(View()), item, expected, call, domainEvents, reason).Some?
      ensures ok ==> View() == MutationRows(old(View()), item, expected, call, domainEvents, reason).value
    {
      ok := UpdateItem(item);
      if ok {
        ok := InsertOperation(call.operation, Operation(item.id, TriageKind, Some(expected), item.revision, call.at));
      }
      if ok {
        ok := InsertEvents(item.id, call, domainEvents, reason);
      }
      if ok {
        ok := InsertReceipt(call.key, Receipt(MutationType(domainEvents), call.digest, call.operation, item.id,
                                              call.at));
      }
    }

    method ApplyMutate(pinned: StoreState, id: ItemId, expected: nat, mutation: Mutation, call: Call)
      returns (r: Result<Answer, WriteError>)
      modifies this
      ensures (View(), r) == Mutate(old(View()), pinned, id, expected, mutation, call)
    {
      var begin := View();
      if StateOf(View()) != Some(pinned) {
        return Err(RestartRequired);
      }
      if call.key in receipts {
        var receipt := receipts[call.key];
        if receipt.digest != call.digest {
          return Err(IdempotencyConflict);
        }
        if receipt.item !in items {
          return Err(NotFound);
        }
        return Ok(Answer(items[receipt.item], true));
      }
      if id !in items {
        return Err(NotFound);
      }
      var loaded := new ItemObject(items[id]);
      if loaded.revision != expected {
        return Err(VersionConflict);
      }
      var reason := MutationReason(mutation);
      var domainEvents := loaded.ApplyMutation(mutation);
      if domainEvents.Err? {
        return Err(Invalid(domainEvents.error));
      }
      if domainEvents.value == [] {
        return Ok(Answer(loaded.Value(), false));
      }
      if |call.eventIds| != |domainEvents.value| {
        return Err(Sqlite);
      }
      loaded.SetUpdatedAt(call.at);
      var item := loaded.Value();
      var ok := InsertMutation(item, expected, call, domainEvents.value, reason);
      if !ok {
        Overwrite(begin);
        return Err(Sqlite);
      }
      r := JournalAndCommit(begin, call, item);
    }

    method PruneOpened(expected: string, through: int) returns (r: Outcome<MaintenanceError>)
      modifies this
      ensures (View(), r) == Prune(old(View()), expected, through)
    {
      var begin := View();
      if !Validate(View()) {
        return Fail(InvalidStore);
      }
      if metadata.generation != expected {
        return Fail(MaintenanceJournal(GenerationMismatch));
      }
      if through < metadata.floor || through > metadata.high {
        return Fail(MaintenanceJournal(InvalidCoverage));
      }
      journal := RowsAfter(journal, through);
      metadata := metadata.(floor := through);
      if !Validate(View()) {
        Overwrite(begin);
        return Fail(InvalidStore);
      }
      return Pass;
    }

    method ActivateOpened(expected: string) returns (r: Outcome<MaintenanceError>)
      modifies this
      ensures (View(), r) == Activate(old(View()), expected)
    {
      var begin := View();
      if !Validate(View()) {
        return Fail(InvalidStore);
      }
      if metadata.generation != expected {
        return Fail(MaintenanceJournal(GenerationMismatch));
      }
      if !metadata.syncEnabled {
        metadata := metadata.(syncEnabled := true);
      }
      if !Validate(View()) {
        Overwrite(begin);
        return Fail(InvalidStore);
      }
      return Pass;
    }

    /** The stage is a separate connection; the target is overwritten only after every validation. */
    method RestoreFrom(backup: Db, freshGeneration: string, cookie: int) returns (r: Outcome<MaintenanceError>)
      modifies this
      ensures (View(), r) == Restore(old(View()), backup, freshGeneration, cookie)
    {
      var stage := new Store(backup);
      if !Validate(stage.View()) {
        return Fail(InvalidStore);
      }
      stage.metadata :=
        stage.metadata.(generation := freshGeneration, syncEnabled := false, bootstrapRequired := true);
      if !Validate(stage.View()) || !Validate(View()) {
        return Fail(InvalidStore);
      }
      var published := stage.View().(identity := stage.identity.(schemaVersion := cookie));
      if !Validate(published) {
        return Fail(InvalidStore);
      }
      Overwrite(published);
      return Pass;
    }
  }

  lemma {:induction false} EventsInsertedMonotone(
    db: Db, item: ItemId, call: Call, events: seq<DomainEvent>, reason: Option<string>, m: nat, n: nat)
    requires m <= n <= |events| <= |call.eventIds|
    requires EventsInserted(db, item, call, events, reason, m).None?
    ensures EventsInserted(db, item, call, events, reason, n).None?
  {
    hide EventInserted;
    if m < n {
      EventsInsertedMonotone(db, item, call, events, reason, m, n - 1);
    }
  }
}
