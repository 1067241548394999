/** What every reachable ledger state satisfies, and what one effective write adds to it. */
module LedgerInvariants {
  import opened Wrappers
  import opened Text
  import opened Identifiers
  import opened Domain
  import opened Ledger

  // ---- The invariant ----

  /** Retained rows are exactly the positions F+1..H, in order; the allocator equals H; every row agrees. */
  ghost predicate JournalOk(db: Db) {
    && MetadataOk(db) && db.metadata.high <= I64_MAX
    && (db.allocator == Some(db.metadata.high) || (db.allocator.None? && db.metadata.high == 0))
    && |db.journal| == db.metadata.high - db.metadata.floor
    && (forall i :: 0 <= i < |db.journal| ==> db.journal[i].position == db.metadata.floor + 1 + i)
    && (forall i :: 0 <= i < |db.journal| ==> RowAgrees(db, db.journal[i]))
  }

  predicate ItemOk(id: ItemId, item: Item, counters: map<(string, string), int>) {
    && item.id == id && 1 <= id.sequence && 1 <= item.revision <= I64_MAX
    && (id.requester, id.project) in counters && id.sequence < counters[(id.requester, id.project)]
  }

  ghost predicate ItemsOk(db: Db) {
    && (forall id :: id in db.items ==> ItemOk(id, db.items[id], db.counters))
    && (forall scope :: scope in db.counters ==> 2 <= db.counters[scope] <= I64_MAX)
  }

  predicate SameSlot(a: Operation, b: Operation) {
    a.item == b.item && a.revision == b.revision
  }

  /** One operation per item revision, never beyond the item's current revision. */
  ghost predicate OperationsOk(db: Db) {
    && (forall o :: o in db.operations ==>
          db.operations[o].item in db.items
          && 1 <= db.operations[o].revision <= db.items[db.operations[o].item].revision)
    && (forall o, p ::
          o in db.operations && p in db.operations && SameSlot(db.operations[o], db.operations[p]) ==> o == p)
  }

  /** Receipts and operations correspond one to one. */
  ghost predicate ReceiptsOk(db: Db) {
    && (forall k :: k in db.receipts ==>
          db.receipts[k].operation in db.operations
          && db.receipts[k].item == db.operations[db.receipts[k].operation].item)
    && (forall k, l :: k in db.receipts && l in db.receipts && db.receipts[k].operation == db.receipts[l].operation
                       ==> k == l)
    && (forall o :: o in db.operations ==> OperationReceipted(db, o))
  }

  function AuditedRows(rows: seq<EventRow>): (r: seq<Audited>)
    ensures |r| == |rows|
    ensures forall i :: 0 <= i < |r| ==> r[i] == rows[i].audited
  {
    seq(|rows|, i requires 0 <= i < |rows| => rows[i].audited)
  }

  /** Row `b` follows row `a`: the next event of one operation, or the first of the next revision. */
  predicate Succeeds(a: EventRow, b: EventRow) {
    || (b.audited.event.revision == a.audited.event.revision && b.index == a.index + 1 && b.operation == a.operation)
    || (b.audited.event.revision == a.audited.event.revision + 1 && b.index == 0)
  }

  predicate CaptureRow(row: EventRow) {
    row.index == 0 && row.audited == Audited(DomainEvent(Captured, 1, None, None), None)
  }

  predicate OwnedRow(row: EventRow, id: ItemId, operations: map<string, Operation>) {
    && row.index < 4
    && row.operation in operations && operations[row.operation].item == id
    && operations[row.operation].revision == row.audited.event.revision
  }

  /** The stored events of an item, from its capture to its present state. */
  ghost predicate HistoryOf(rows: seq<EventRow>, item: Item, operations: map<string, Operation>) {
    && rows != [] && CaptureRow(rows[0])
    && (forall i :: 0 <= i < |rows| ==> OwnedRow(rows[i], item.id, operations))
    && (forall i :: 0 < i < |rows| ==> Succeeds(rows[i - 1], rows[i]))
    && rows[|rows| - 1].audited.event.revision == item.revision
    && Replay(CAPTURED_STATE, AuditedRows(rows[1..])) == Some(Track(item))
  }

  ghost predicate HistoriesOk(db: Db) {
    && db.events.rows.Keys == db.items.Keys
    && forall id :: id in db.items ==> HistoryOf(db.events.rows[id], db.items[id], db.operations)
  }

  ghost predicate Inv(db: Db) {
    JournalOk(db) && ItemsOk(db) && OperationsOk(db) && ReceiptsOk(db) && HistoriesOk(db)
  }

  // ---- One effective write ----

  /** Everything one committed operation adds: the item's new value and one row (or group) per table. */
  datatype Write = Write(
    item: Item, operation: string, row: Operation, events: seq<EventRow>, key: string, receipt: Receipt)

  /** `after` is `before` with exactly the write `w` in it. */
  ghost predicate Wrote(before: Db, after: Db, w: Write) {
    && after.identity == before.identity
    && after.items == before.items[w.item.id := w.item]
    && w.operation !in before.operations && after.operations == before.operations[w.operation := w.row]
    && w.row.item == w.item.id && w.row.revision == w.item.revision
    && after.events.rows == before.events.rows[w.item.id := EventsOf(before, w.item.id) + w.events]
    && w.key !in before.receipts && after.receipts == before.receipts[w.key := w.receipt]
    && w.receipt.operation == w.operation && w.receipt.item == w.item.id
    && after.journal == before.journal + [Change(NextPosition(before), w.operation, w.item.id, w.item.id.project,
                                                 w.item.revision)]
    && after.allocator == Some(NextPosition(before)) && before.metadata.high < NextPosition(before) <= I64_MAX
    && after.metadata == before.metadata.(high := NextPosition(before))
  }

  ghost predicate WroteCapture(before: Db, after: Db, input: CaptureInput, call: Call, w: Write)
  {
    var scope := (input.requester, input.project);
    && Wrote(before, after, w)
    && w.item.id == ItemId(input.requester, input.project, w.item.id.sequence)
    && w.item == CapturedItem(w.item.id, input.content, input.provenance, call.at)
    && w.item.id.sequence == (if scope in before.counters then before.counters[scope] else 1)
    && w.item.id.sequence >= 1
    && (scope in before.counters ==> before.counters[scope] != I64_MAX)
    && after.counters == before.counters[scope := w.item.id.sequence + 1]
    && w.item.id !in before.items
    && w.events == [CaptureEvent(call)]
    && w.operation == call.operation && w.key == call.key && w.receipt.digest == call.digest
  }

  function NewRows(call: Call, events: seq<DomainEvent>, reason: Option<string>, n: nat): (r: seq<EventRow>)
    requires n <= |events| <= |call.eventIds|
    ensures |r| == n
    ensures forall i :: 0 <= i < n ==> r[i] == MutationRow(call, events, reason, i)
  {
    seq(n, i requires 0 <= i < n => MutationRow(call, events, reason, i))
  }

  ghost predicate WroteMutation(before: Db, after: Db, id: ItemId, mutation: Mutation, call: Call, w: Write) {
    && Wrote(before, after, w)
    && w.item.id == id && id in before.items && before.items[id].id == id
    && Applied(before.items[id], mutation).Ok?
    && var (item, events) := Applied(before.items[id], mutation).value;
       && events != [] && |events| == |call.eventIds|
       && w.item == item.(updatedAt := call.at) && item.revision <= I64_MAX
       && after.counters == before.counters
       && w.events == NewRows(call, events, MutationReason(mutation), |events|)
       && w.operation == call.operation && w.key == call.key && w.receipt.digest == call.digest
  }

  lemma CaptureRowsShape(db: Db, item: Item, call: Call)
    requires CaptureRows(db, item, call).Some?
    ensures var d := CaptureRows(db, item, call).value;
            && item.id !in db.items && call.operation !in db.operations && call.key !in db.receipts
            && d == db.(items := db.items[item.id := item],
                        operations := db.operations[call.operation := Operation(item.id, CaptureKind, None, 1,
                            call.at)],
                        events := EventTable(db.events.rows[item.id := EventsOf(db, item.id) + [CaptureEvent(call)]],
                                             db.events.ids + {CaptureEvent(call).eventId}),
                        receipts := db.receipts[call.key :=
                                      Receipt(CaptureKind, call.digest, call.operation, item.id, call.at)])
  {
  }

  lemma AppendedShape(db: Db, operation: string)
    requires Appended(db, operation).Ok?
    ensures operation in db.operations
    ensures var d := Appended(db, operation).value;
            && d == db.(journal := d.journal, allocator := d.allocator, metadata := d.metadata)
            && d.journal == db.journal + [Change(NextPosition(db), operation, db.operations[operation].item,
                                                 db.operations[operation].item.project,
                                                 db.operations[operation].revision)]
            && d.allocator == Some(NextPosition(db)) && db.metadata.high < NextPosition(db) <= I64_MAX
            && d.metadata == db.metadata.(high := NextPosition(db))
  {
  }

  lemma CommittedShape(before: Db, rows: Option<Db>, call: Call, item: Item)
    requires Committed(before, rows, call, item).0 != before
    ensures rows.Some? && Appended(rows.value, call.operation).Ok?
    ensures Committed(before, rows, call, item)
         == (Appended(rows.value, call.operation).value, Ok(Answer(item, false)))
  {
  }

  lemma AllocatedShape(db: Db, requester: string, project: string)
    requires AllocateSequence(db, requester, project).Some?
    ensures var (d, sequence) := AllocateSequence(db, requester, project).value;
            var scope := (requester, project);
            && sequence == (if scope in db.counters then db.counters[scope] else 1)
            && (scope in db.counters ==> db.counters[scope] != I64_MAX)
            && d == db.(counters := db.counters[scope := sequence + 1])
  {
  }

  /** A capture changes the store only by one complete write. */
  lemma CaptureWrites(db: Db, pinned: StoreState, input: CaptureInput, call: Call) returns (w: Write)
    ensures var (db', r) := Capture(db, pinned, input, call);
            db' == db || (WroteCapture(db, db', input, call, w) && r == Ok(Answer(w.item, false))
                          && call.key !in db.receipts && StateOf(db) == Some(pinned))
  {
    hide StateOf, SlotTaken, CaptureRows, Committed, AllocateSequence, Appended, NextPosition;
    var (db', r) := Capture(db, pinned, input, call);
    if db' == db {
      w := *;
    } else {
      var registered := db.(projects := db.projects + {input.project});
      AllocatedShape(registered, input.requester, input.project);
      var slot := AllocateSequence(registered, input.requester, input.project).value;
      var item := CapturedItem(ItemId(input.requester, input.project, slot.1), input.content, input.provenance,
          call.at);
      w := Write(item, call.operation, Operation(item.id, CaptureKind, None, 1, call.at), [CaptureEvent(call)],
                 call.key, Receipt(CaptureKind, call.digest, call.operation, item.id, call.at));
      CommittedShape(db, CaptureRows(slot.0, item, call), call, item);
      CaptureRowsShape(slot.0, item, call);
      var rows := CaptureRows(slot.0, item, call).value;
      AppendedShape(rows, call.operation);
      PositionOf(rows, db);
      assert EventsOf(slot.0, item.id) == EventsOf(db, item.id);
    }
  }

  lemma PositionOf(a: Db, b: Db)
    requires a.allocator == b.allocator
    ensures NextPosition(a) == NextPosition(b)
  {
  }

  lemma EventInsertedShape(db: Db, item: ItemId, row: EventRow)
    requires EventInserted(db, item, row).Some?
    ensures var d := EventInserted(db, item, row).value;
            d == db.(events := d.events) && d.events.rows == db.events.rows[item := EventsOf(db, item) + [row]]
  {
  }

  lemma {:induction false} EventsInsertedShape(
    db: Db, item: ItemId, call: Call, events: seq<DomainEvent>, reason: Option<string>, n: nat)
    requires n <= |events| <= |call.eventIds|
    requires EventsInserted(db, item, call, events, reason, n).Some?
    ensures var d := EventsInserted(db, item, call, events, reason, n).value;
            && d == db.(events := d.events)
            && (n == 0 ==> d == db)
            && (n > 0 ==> d.events.rows == db.events.rows[item := EventsOf(db, item) + NewRows(call, events, reason,
                n)])
  {
    hide EventInserted, MutationRow;
    if n > 0 {
      EventsInsertedShape(db, item, call, events, reason, n - 1);
      var before := EventsInserted(db, item, call, events, reason, n - 1).value;
      var last := MutationRow(call, events, reason, n - 1);
      EventInsertedShape(before, item, last);
      var old_ := EventsOf(db, item) + NewRows(call, events, reason, n - 1);
      assert n == 1 ==> old_ == EventsOf(db, item);
      assert EventsOf(before, item) == old_;
      assert old_ + [last] == EventsOf(db, item) + NewRows(call, events, reason, n);
    }
  }

  lemma MutationRowsShape(
    db: Db, item: Item, expected: nat, call: Call, events: seq<DomainEvent>, reason: Option<string>)
    requires |events| == |call.eventIds| && events != []
    requires MutationRows(db, item, expected, call, events, reason).Some?
    ensures var d := MutationRows(db, item, expected, call, events, reason).value;
            && item.revision <= I64_MAX && call.operation !in db.operations && call.key !in db.receipts
            && d == db.(items := db.items[item.id := item],
                        operations := db.operations[call.operation :=
                                        Operation(item.id, TriageKind, Some(expected), item.revision, call.at)],
                        events := d.events,
                        receipts := db.receipts[call.key := Receipt(MutationType(events), call.digest, call.operation,
                                                                    item.id, call.at)])
            && d.events.rows == db.events.rows[item.id := EventsOf(db, item.id)
                                                          + NewRows(call, events, reason, |events|)]
  {
    var a := ItemUpdated(db, item).value;
    var b := OperationInserted(a, call.operation,
                               Operation(item.id, TriageKind, Some(expected), item.revision, call.at)).value;
    EventsInsertedShape(b, item.id, call, events, reason, |events|);
    assert EventsOf(b, item.id) == EventsOf(db, item.id);
  }

  /** A mutation changes the store only by one complete write. */
  lemma MutateWrites(db: Db, pinned: StoreState, id: ItemId, expected: nat, mutation: Mutation, call: Call)
    returns (w: Write)
    requires id in db.items ==> db.items[id].id == id
    ensures var (db', r) := Mutate(db, pinned, id, expected, mutation, call);
            db' == db || (WroteMutation(db, db', id, mutation, call, w) && r == Ok(Answer(w.item, false))
                          && call.key !in db.receipts && StateOf(db) == Some(pinned))
  {
    hide Planned, MutationRows, StateOf;
    var (db', r) := Mutate(db, pinned, id, expected, mutation, call);
    if db' == db {
      w := *;
    } else {
      var (item, events) := Applied(db.items[id], mutation).value;
      AppliedShape(db.items[id], mutation);
      var stamped := item.(updatedAt := call.at);
      var reason := MutationReason(mutation);
      w := Write(stamped, call.operation, Operation(id, TriageKind, Some(expected), stamped.revision, call.at),
                 NewRows(call, events, reason, |events|), call.key,
                 Receipt(MutationType(events), call.digest, call.operation, id, call.at));
      var rows := MutationRows(db, stamped, expected, call, events, reason);
      MutationRowsShape(db, stamped, expected, call, events, reason);
      AppendedShape(rows.value, call.operation);
      assert db' == Appended(rows.value, call.operation).value;
    }
  }

  // ---- Every step keeps the invariant ----

  /** The write carries the item's next revision: one for a new item, the successor otherwise. */
  predicate NextRevision(before: Db, w: Write) {
    w.item.revision == (if w.item.id in before.items then before.items[w.item.id].revision + 1 else 1)
  }

  lemma JournalKept(before: Db, after: Db, w: Write)
    requires JournalOk(before) && Wrote(before, after, w) && NextRevision(before, w)
    ensures JournalOk(after)
  {
    forall i | 0 <= i < |before.journal| ensures RowAgrees(after, before.journal[i]) {
      assert RowAgrees(before, before.journal[i]);
    }
  }

  lemma OperationsKept(before: Db, after: Db, w: Write)
    requires OperationsOk(before) && Wrote(before, after, w) && NextRevision(before, w)
    ensures OperationsOk(after)
  {
  }

  lemma ReceiptsKept(before: Db, after: Db, w: Write)
    requires ReceiptsOk(before) && Wrote(before, after, w)
    ensures ReceiptsOk(after)
  {
    forall o | o in after.operations ensures OperationReceipted(after, o) {
      if o == w.operation {
        assert after.receipts[w.key].operation == o;
      } else {
        assert OperationReceipted(before, o);
        var k :| k in before.receipts && before.receipts[k].operation == o;
        assert after.receipts[k].operation == o;
      }
    }
  }

  lemma HistoryUnaffected(rows: seq<EventRow>, item: Item, operations: map<string, Operation>, o: string,
        row: Operation)
    requires HistoryOf(rows, item, operations) && o !in operations
    ensures HistoryOf(rows, item, operations[o := row])
  {
  }

  lemma {:induction false} HistoriesKept(before: Db, after: Db, w: Write)
    requires HistoriesOk(before) && ItemsOk(before) && Wrote(before, after, w)
    requires HistoryOf(after.events.rows[w.item.id], w.item, after.operations)
    ensures HistoriesOk(after)
  {
    hide HistoryOf;
    forall id | id in after.items && id != w.item.id
      ensures HistoryOf(after.events.rows[id], after.items[id], after.operations)
    {
      HistoryUnaffected(before.events.rows[id], before.items[id], before.operations, w.operation, w.row);
    }
  }

  lemma NewHistory(row: EventRow, item: Item, operations: map<string, Operation>)
    requires CaptureRow(row) && OwnedRow(row, item.id, operations)
    requires Track(item) == CAPTURED_STATE
    ensures HistoryOf([row], item, operations)
  {
    var rows := [row];
    assert AuditedRows(rows[1..]) == [];
  }

  lemma CaptureHistory(before: Db, after: Db, input: CaptureInput, call: Call, w: Write)
    requires before.events.rows.Keys == before.items.Keys
    requires WroteCapture(before, after, input, call, w)
    ensures HistoryOf(after.events.rows[w.item.id], w.item, after.operations)
  {
    NewHistory(CaptureEvent(call), w.item, after.operations);
    assert EventsOf(before, w.item.id) + w.events == [CaptureEvent(call)];
  }

  lemma ExtendHistory(old_: seq<EventRow>, new_: seq<EventRow>, item: Item, next: Item, operations: map<string,
        Operation>)
    requires HistoryOf(old_, item, operations) && next.id == item.id
    requires new_ != [] && forall i :: 0 <= i < |new_| ==> OwnedRow(new_[i], item.id, operations)
    requires forall i :: 0 < i < |new_| ==> Succeeds(new_[i - 1], new_[i])
    requires Succeeds(old_[|old_| - 1], new_[0])
    requires new_[|new_| - 1].audited.event.revision == next.revision
    requires Replay(Track(item), AuditedRows(new_)) == Some(Track(next))
    ensures HistoryOf(old_ + new_, next, operations)
  {
    hide OwnedRow, Replay;
    var rows := old_ + new_;
    assert rows[1..] == old_[1..] + new_;
    assert AuditedRows(rows[1..]) == AuditedRows(old_[1..]) + AuditedRows(new_);
    ReplayAppend(CAPTURED_STATE, AuditedRows(old_[1..]), AuditedRows(new_));
    MutationRowsSucceed(old_, new_);
  }

  lemma {:induction false} MutationHistory(before: Db, after: Db, id: ItemId, mutation: Mutation, call: Call, w: Write)
    requires id in before.items && id in before.events.rows
    requires HistoryOf(before.events.rows[id], before.items[id], before.operations)
    requires WroteMutation(before, after, id, mutation, call, w)
    ensures HistoryOf(after.events.rows[id], w.item, after.operations)
  {
    var item := before.items[id];
    var events := Applied(item, mutation).value.1;
    var reason := MutationReason(mutation);
    AppliedShape(item, mutation);
    AppliedReplays(item, mutation);
    HistoryUnaffected(before.events.rows[id], item, before.operations, w.operation, w.row);
    MutationRowsOwned(call, events, reason, item, w.row, after.operations);
    assert AuditedRows(w.events) == Audit(events, reason);
    ExtendHistory(before.events.rows[id], w.events, item, w.item, after.operations);
  }

  lemma MutationRowsOwned(call: Call, events: seq<DomainEvent>, reason: Option<string>, item: Item, row: Operation,
                          operations: map<string, Operation>)
    requires 0 < |events| == |call.eventIds| && |events| <= 4
    requires forall i :: 0 <= i < |events| ==> events[i].revision == item.revision + 1
    requires call.operation in operations && operations[call.operation] == row
    requires row.item == item.id && row.revision == item.revision + 1
    ensures var rows := NewRows(call, events, reason, |events|);
            && rows[0].index == 0
            && (forall i :: 0 <= i < |rows| ==> rows[i].audited.event.revision == item.revision + 1)
            && (forall i :: 0 <= i < |rows| ==> OwnedRow(rows[i], item.id, operations))
            && (forall i :: 0 < i < |rows| ==> Succeeds(rows[i - 1], rows[i]))
  {
  }

  lemma MutationRowsSucceed(a: seq<EventRow>, b: seq<EventRow>)
    requires a != [] && b != []
    requires forall i :: 0 < i < |a| ==> Succeeds(a[i - 1], a[i])
    requires forall i :: 0 < i < |b| ==> Succeeds(b[i - 1], b[i])
    requires Succeeds(a[|a| - 1], b[0])
    ensures forall i :: 0 < i < |a + b| ==> Succeeds((a + b)[i - 1], (a + b)[i])
  {
    forall i | 0 < i < |a + b| ensures Succeeds((a + b)[i - 1], (a + b)[i]) {
      if i > |a| {
        assert Succeeds(b[i - |a| - 1], b[i - |a|]);
      }
    }
  }

  lemma CaptureItems(before: Db, after: Db, input: CaptureInput, call: Call, w: Write)
    requires ItemsOk(before) && WroteCapture(before, after, input, call, w)
    ensures ItemsOk(after)
  {
  }

  lemma MutateItems(before: Db, after: Db, id: ItemId, mutation: Mutation, call: Call, w: Write)
    requires ItemsOk(before) && WroteMutation(before, after, id, mutation, call, w)
    ensures ItemsOk(after) && NextRevision(before, w)
  {
    AppliedShape(before.items[id], mutation);
    assert ItemOk(id, before.items[id], before.counters);
  }

  /** A capture's write keeps the whole invariant. */
  lemma {:induction false} CaptureKeeps(before: Db, after: Db, input: CaptureInput, call: Call, w: Write)
    requires Inv(before) && WroteCapture(before, after, input, call, w)
    ensures Inv(after) && NextRevision(before, w)
  {
    CaptureItems(before, after, input, call, w);
    JournalKept(before, after, w);
    OperationsKept(before, after, w);
    ReceiptsKept(before, after, w);
    CaptureHistory(before, after, input, call, w);
    HistoriesKept(before, after, w);
  }

  /** A mutation's write keeps the whole invariant. */
  lemma {:induction false} MutateKeeps(before: Db, after: Db, id: ItemId, mutation: Mutation, call: Call, w: Write)
    requires Inv(before) && WroteMutation(before, after, id, mutation, call, w)
    ensures Inv(after) && NextRevision(before, w)
  {
    MutateItems(before, after, id, mutation, call, w);
    JournalKept(before, after, w);
    OperationsKept(before, after, w);
    ReceiptsKept(before, after, w);
    MutationHistory(before, after, id, mutation, call, w);
    HistoriesKept(before, after, w);
  }

  // ---- Maintenance keeps it too ----

  /** Consecutive positions after `base`. */
  predicate Numbered(rows: seq<Change>, base: int) {
    forall i :: 0 <= i < |rows| ==> rows[i].position == base + 1 + i
  }

  lemma NumberedTail(rows: seq<Change>, base: int)
    requires rows != [] && Numbered(rows, base)
    ensures rows[0].position == base + 1 && Numbered(rows[1..], base + 1)
  {
  }

  lemma NumberedAfter(rows: seq<Change>, base: int, through: int)
    requires Numbered(rows, base) && through <= base
    ensures forall i :: 0 <= i < |rows| ==> rows[i].position > through
  {
  }

  lemma TailSuffix<T>(s: seq<T>, k: nat)
    requires 1 <= k <= |s|
    ensures s[k..] == s[1..][k - 1..]
  {
  }

  lemma {:induction false} RowsAfterSuffix(rows: seq<Change>, base: int, through: int)
    requires Numbered(rows, base)
    requires base <= through <= base + |rows|
    ensures RowsAfter(rows, through) == rows[through - base..]
    decreases |rows|
  {
    hide Numbered;
    if rows != [] {
      NumberedTail(rows, base);
      if rows[0].position <= through {
        RowsAfterSuffix(rows[1..], base + 1, through);
        TailSuffix(rows, through - base);
      } else {
        NumberedAfter(rows, base, through);
        AllAfter(rows, through);
        assert rows[0..] == rows;
      }
    }
  }

  lemma {:induction false} AllAfter(rows: seq<Change>, through: int)
    requires forall i :: 0 <= i < |rows| ==> rows[i].position > through
    ensures RowsAfter(rows, through) == rows
    decreases |rows|
  {
    if rows != [] {
      AllAfter(rows[1..], through);
    }
  }

  lemma {:induction false} AllBetween(rows: seq<Change>, low: int, high: int)
    requires forall i :: 0 <= i < |rows| ==> low < rows[i].position <= high
    ensures Between(rows, low, high) == rows
    decreases |rows|
  {
    if rows != [] {
      AllBetween(rows[1..], low, high);
    }
  }

  /** A reachable store always passes `validate_journal`. */
  lemma InvValidates(db: Db)
    requires JournalOk(db)
    ensures ValidateJournal(db)
  {
    AllBetween(db.journal, db.metadata.floor, db.metadata.high);
  }

  function Pruned(db: Db, through: int): Db
    requires 0 <= through - db.metadata.floor <= |db.journal|
  {
    db.(journal := db.journal[through - db.metadata.floor..], metadata := db.metadata.(floor := through))
  }

  lemma PrunedJournal(db: Db, through: int)
    requires JournalOk(db) && db.metadata.floor <= through <= db.metadata.high
    ensures JournalOk(Pruned(db, through))
  {
    var pruned := Pruned(db, through);
    forall i | 0 <= i < |pruned.journal| ensures RowAgrees(pruned, pruned.journal[i]) {
      assert RowAgrees(db, db.journal[i + (through - db.metadata.floor)]);
    }
  }

  predicate PruneAllowed(db: Db, generation: string, through: int) {
    generation == db.metadata.generation && db.metadata.floor <= through <= db.metadata.high
  }

  lemma PruneOutcome(db: Db, generation: string, through: int, pruned: Db)
    requires Validate(db)
    requires PruneAllowed(db, generation, through) ==>
               Validate(pruned) && pruned == db.(journal := RowsAfter(db.journal, through),
                                                 metadata := db.metadata.(floor := through))
    ensures var (db', r) := Prune(db, generation, through);
            && (r.Pass? <==> PruneAllowed(db, generation, through))
            && db' == (if PruneAllowed(db, generation, through) then pruned else db)
            && r == (if db.metadata.generation != generation then Fail(MaintenanceJournal(GenerationMismatch))
                     else if through < db.metadata.floor || db.metadata.high < through then
                       Fail(MaintenanceJournal(InvalidCoverage))
                     else Pass)
  {
  }

  lemma PrunedValidates(db: Db, generation: string, through: int)
    requires JournalOk(db) && PruneAllowed(db, generation, through)
    ensures ValidateJournal(Pruned(db, through))
    ensures RowsAfter(db.journal, through) == db.journal[through - db.metadata.floor..]
  {
    RowsAfterSuffix(db.journal, db.metadata.floor, through);
    PrunedJournal(db, through);
    InvValidates(Pruned(db, through));
  }

  /**
   Pruning a reachable store succeeds exactly for a matching generation and F <= through <= H; only F and the rows up to
   it go.
   */
  lemma PruneExact(db: Db, generation: string, through: int)
    requires JournalOk(db) && StateOf(db).Some?
    ensures var (db', r) := Prune(db, generation, through);
            && (r.Pass? <==> PruneAllowed(db, generation, through))
            && db' == (if PruneAllowed(db, generation, through) then Pruned(db, through) else db)
            && r == (if db.metadata.generation != generation then Fail(MaintenanceJournal(GenerationMismatch))
                     else if through < db.metadata.floor || db.metadata.high < through then
                       Fail(MaintenanceJournal(InvalidCoverage))
                     else Pass)
  {
    InvValidates(db);
    var pruned := db;
    if PruneAllowed(db, generation, through) {
      PrunedValidates(db, generation, through);
      pruned := Pruned(db, through);
    }
    PruneOutcome(db, generation, through, pruned);
  }

  lemma {:induction false} PruneKeeps(db: Db, generation: string, through: int)
    requires Inv(db) && StateOf(db).Some?
    ensures var (db', r) := Prune(db, generation, through); Inv(db') && StateOf(db') == StateOf(db)
  {
    PruneExact(db, generation, through);
    if PruneAllowed(db, generation, through) {
      PrunedJournal(db, through);
      SameTables(db, Pruned(db, through));
    }
  }

  lemma {:induction false} SameTables(db: Db, d: Db)
    requires Inv(db)
    requires d == db.(identity := d.identity, journal := d.journal, metadata := d.metadata)
    ensures ItemsOk(d) && OperationsOk(d) && ReceiptsOk(d) && HistoriesOk(d)
  {
    forall o | o in d.operations ensures OperationReceipted(d, o) {
      assert OperationReceipted(db, o);
    }
  }

  lemma JournalFrame(db: Db, d: Db)
    requires JournalOk(db)
    requires d == db.(identity := d.identity, metadata := d.metadata)
    requires GenerationOk(d.metadata.generation)
    requires d.metadata.floor == db.metadata.floor && d.metadata.high == db.metadata.high
    ensures JournalOk(d)
  {
    forall i | 0 <= i < |d.journal| ensures RowAgrees(d, d.journal[i]) {
      assert RowAgrees(db, db.journal[i]);
    }
  }

  lemma {:induction false} ActivateKeeps(db: Db, generation: string)
    requires Inv(db) && StateOf(db).Some?
    ensures var (db', r) := Activate(db, generation);
            && Inv(db') && StateOf(db') == StateOf(db)
            && r == (if generation == db.metadata.generation then Pass
                     else Fail(MaintenanceJournal(GenerationMismatch)))
            && db' == if r.Pass? then db.(metadata := db.metadata.(syncEnabled := true)) else db
  {
    hide ItemsOk, OperationsOk, ReceiptsOk, HistoriesOk;
    var enabled := db.(metadata := db.metadata.(syncEnabled := true));
    InvValidates(db);
    SameTables(db, enabled);
    JournalFrame(db, enabled);
    InvValidates(enabled);
  }

  /** No maintenance touches a store its validation refuses. */
  lemma InvalidRefused(db: Db, backup: Db, generation: string, through: int, cookie: int)
    requires StateOf(db).None? || !ValidateJournal(db)
    ensures Prune(db, generation, through) == (db, Fail(InvalidStore))
    ensures Activate(db, generation) == (db, Fail(InvalidStore))
    ensures Restore(db, backup, generation, cookie) == (db, Fail(InvalidStore))
    ensures Restore(backup, db, generation, cookie) == (backup, Fail(InvalidStore))
  {
  }

  /** On a good store, a restore succeeds exactly for a backup the validation accepts and a well-formed generation. */
  lemma RestoreExact(db: Db, backup: Db, generation: string, cookie: int)
    requires Inv(db) && StateOf(db).Some?
    ensures Restore(db, backup, generation, cookie).1
         == (if StateOf(backup).Some? && ValidateJournal(backup) && GenerationOk(generation) then Pass
             else Fail(InvalidStore))
  {
    hide ItemsOk, OperationsOk, ReceiptsOk, HistoriesOk, Between;
    InvValidates(db);
    var staged := backup.(metadata := backup.metadata.(generation := generation, syncEnabled := false,
        bootstrapRequired := true));
    assert forall c :: c in backup.journal ==> RowAgrees(staged, c) == RowAgrees(backup, c);
    var published := staged.(identity := staged.identity.(schemaVersion := cookie));
    assert forall c :: c in backup.journal ==> RowAgrees(published, c) == RowAgrees(backup, c);
  }

  lemma {:induction false} RestoreKeeps(db: Db, backup: Db, generation: string, cookie: int)
    requires Inv(db) && StateOf(db).Some? && Inv(backup) && StateOf(backup).Some? && GenerationOk(generation)
    ensures var (db', r) := Restore(db, backup, generation, cookie);
            && r.Pass? && Inv(db')
            && db' == backup.(identity := backup.identity.(schemaVersion := cookie),
                              metadata := backup.metadata.(generation := generation, syncEnabled := false,
                                                           bootstrapRequired := true))
            && StateOf(db') == Some(StoreState(db'.identity, generation))
  {
    hide ItemsOk, OperationsOk, ReceiptsOk, HistoriesOk;
    var staged := backup.(metadata := backup.metadata.(generation := generation, syncEnabled := false,
                                                       bootstrapRequired := true));
    var published := staged.(identity := staged.identity.(schemaVersion := cookie));
    InvValidates(db);
    InvValidates(backup);
    JournalFrame(backup, staged);
    InvValidates(staged);
    JournalFrame(backup, published);
    InvValidates(published);
    SameTables(backup, published);
  }

  lemma FreshOk(db: Db)
    requires Fresh(db)
    ensures Inv(db) && StateOf(db).Some?
  {
  }
}
