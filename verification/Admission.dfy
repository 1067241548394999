/**
 When a write commits: in a reachable store none of the uniqueness rules of the schema ever stands in the way, so a new
 write with fresh identities commits exactly when the request itself is admissible.
 */
module Admission {
  import opened Wrappers
  import opened Text
  import opened Identifiers
  import opened Domain
  import opened Ledger
  import opened LedgerInvariants
  import opened History
  import opened Runs

  /** The call's key, time and operation id pass the length checks, and the operation id is new. */
  predicate FreshIds(db: Db, call: Call) {
    && HasLength(call.key) && HasLength(call.at)
    && HasLength(call.operation) && call.operation !in db.operations
  }

  /** What the call brings, a journal position left to take, and a commit SQLite carries out. */
  predicate FreshCall(db: Db, call: Call) {
    FreshIds(db, call) && call.commits && db.metadata.high < I64_MAX
  }

  // ---- Capture ----

  predicate CaptureAdmissible(db: Db, input: CaptureInput, call: Call) {
    && FreshCall(db, call)
    && call.eventIds != [] && HasLength(call.eventIds[0]) && call.eventIds[0] !in db.events.ids
    && HasLength(input.content.title)
    && ((input.requester, input.project) in db.counters ==> db.counters[(input.requester, input.project)] != I64_MAX)
  }

  lemma NotReceipted(db: Db, operation: string)
    requires ReceiptsOk(db) && operation !in db.operations
    ensures !OperationReceipted(db, operation)
  {
  }

  lemma NotJournaled(db: Db, operation: string)
    requires JournalOk(db) && operation !in db.operations
    ensures !InJournal(db, operation)
    ensures NextPosition(db) == db.metadata.high + 1
  {
    assert forall i :: 0 <= i < |db.journal| ==> RowAgrees(db, db.journal[i]);
  }

  /** The sequence a capture takes belongs to no stored item. */
  lemma NewIdentity(db: Db, requester: string, project: string)
    requires ItemsOk(db) && AllocateSequence(db, requester, project).Some?
    ensures AllocateSequence(db, requester, project).value.1 >= 1
    ensures ItemId(requester, project, AllocateSequence(db, requester, project).value.1) !in db.items
  {
    assert forall id :: id in db.items ==> ItemOk(id, db.items[id], db.counters);
  }

  lemma NoHistory(db: Db, id: ItemId)
    requires HistoriesOk(db) && OperationsOk(db) && id !in db.items
    ensures EventsOf(db, id) == [] && forall revision :: !RevisionTaken(db, id, revision)
  {
  }

  lemma CaptureRowsSucceed(db: Db, item: Item, call: Call)
    requires OperationsOk(db) && ReceiptsOk(db) && HistoriesOk(db) && item.id !in db.items
    requires HasLength(item.content.title) && item.capturedAt == call.at
    requires FreshIds(db, call) && call.key !in db.receipts
    requires call.eventIds != [] && HasLength(call.eventIds[0]) && call.eventIds[0] !in db.events.ids
    ensures CaptureRows(db, item, call).Some?
  {
    hide OperationsOk, ReceiptsOk, HistoriesOk, RevisionTaken, OperationReceipted;
    NoHistory(db, item.id);
    NotReceipted(db, call.operation);
    var a := db.(items := db.items[item.id := item]);
    SameOperations(db, a, item.id);
    var b := a.(operations := a.operations[call.operation := Operation(item.id, CaptureKind, None, 1, call.at)]);
    var c := b.(events := EventTable(b.events.rows[item.id := [CaptureEvent(call)]],
        b.events.ids + {call.eventIds[0]}));
    assert EventsOf(b, item.id) == [];
    assert [] + [CaptureEvent(call)] == [CaptureEvent(call)];
    assert !SlotTaken([], 1, 0);
    assert EventInserted(b, item.id, CaptureEvent(call)) == Some(c);
    SameReceipts(db, c, call.operation);
  }

  lemma SameOperations(db: Db, d: Db, id: ItemId)
    requires d.operations == db.operations
    ensures forall revision :: RevisionTaken(d, id, revision) == RevisionTaken(db, id, revision)
  {
  }

  lemma SameReceipts(db: Db, d: Db, operation: string)
    requires d.receipts == db.receipts
    ensures OperationReceipted(d, operation) == OperationReceipted(db, operation)
  {
  }

  lemma AppendSucceeds(db: Db, rows: Db, operation: string)
    requires JournalOk(db) && operation !in db.operations && db.metadata.high < I64_MAX
    requires rows.journal == db.journal && rows.allocator == db.allocator && rows.metadata == db.metadata
    requires operation in rows.operations && rows.operations[operation].item in rows.items
    ensures Appended(rows, operation).Ok?
  {
    hide JournalOk;
    NotJournaled(db, operation);
    JournalMetadata(db);
    assert InJournal(rows, operation) == InJournal(db, operation);
  }

  lemma JournalMetadata(db: Db)
    requires JournalOk(db)
    ensures MetadataOk(db)
  {
  }

  lemma CaptureCommits(db: Db, pinned: StoreState, input: CaptureInput, call: Call)
    requires Inv(db) && StateOf(db) == Some(pinned) && call.key !in db.receipts && CaptureAdmissible(db, input, call)
    ensures var r := Capture(db, pinned, input, call).1; r.Ok? && !r.value.replayed
  {
    hide CaptureRows, AllocateSequence, Appended, StateOf, JournalOk, ItemsOk, OperationsOk, ReceiptsOk, HistoriesOk;
    var scoped := db.(projects := db.projects + {input.project});
    Allocates(scoped, input.requester, input.project);
    var slot := AllocateSequence(scoped, input.requester, input.project).value;
    CounterTables(db, scoped, slot.0);
    NewIdentity(scoped, input.requester, input.project);
    var item := CapturedItem(ItemId(input.requester, input.project, slot.1), input.content, input.provenance, call.at);
    CaptureRowsSucceed(slot.0, item, call);
    CaptureRowsShape(slot.0, item, call);
    AppendSucceeds(db, CaptureRows(slot.0, item, call).value, call.operation);
  }

  lemma Allocates(db: Db, requester: string, project: string)
    requires (requester, project) in db.counters ==> db.counters[(requester, project)] != I64_MAX
    ensures AllocateSequence(db, requester, project).Some?
    ensures var d := AllocateSequence(db, requester, project).value.0; d == db.(counters := d.counters)
  {
  }

  /** Registering a project and taking a sequence touch none of these tables. */
  lemma CounterTables(db: Db, scoped: Db, counted: Db)
    requires Inv(db) && scoped == db.(projects := scoped.projects) && counted == scoped.(counters := counted.counters)
    ensures ItemsOk(scoped) && OperationsOk(counted) && ReceiptsOk(counted) && HistoriesOk(counted)
  {
    forall o | o in counted.operations ensures OperationReceipted(counted, o) {
      assert OperationReceipted(db, o);
    }
  }

  lemma CaptureNeeds(db: Db, pinned: StoreState, input: CaptureInput, call: Call)
    requires Inv(db)
    requires Capture(db, pinned, input, call).1.Ok? && !Capture(db, pinned, input, call).1.value.replayed
    ensures StateOf(db) == Some(pinned) && call.key !in db.receipts && CaptureAdmissible(db, input, call)
  {
    hide StateOf, SlotTaken, OperationReceipted, RevisionTaken, InJournal, ItemsOk, OperationsOk, ReceiptsOk,
        HistoriesOk;
  }

  /**
   On a reachable store, a capture commits exactly when the handle is current, the key unused, the title and the call
   pass the length checks with fresh identities, and neither the counter nor the journal is exhausted.
   */
  lemma CaptureExact(db: Db, pinned: StoreState, input: CaptureInput, call: Call)
    requires Inv(db)
    ensures var r := Capture(db, pinned, input, call).1;
            r.Ok? && !r.value.replayed <==>
              StateOf(db) == Some(pinned) && call.key !in db.receipts && CaptureAdmissible(db, input, call)
  {
    hide Capture, StateOf, Inv, CaptureAdmissible;
    var r := Capture(db, pinned, input, call).1;
    if r.Ok? && !r.value.replayed {
      CaptureNeeds(db, pinned, input, call);
    }
    if StateOf(db) == Some(pinned) && call.key !in db.receipts && CaptureAdmissible(db, input, call) {
      CaptureCommits(db, pinned, input, call);
    }
  }

  // ---- Mutation ----

  /** As many event ids as events, nonempty, distinct and unused. */
  predicate FreshEventIds(db: Db, call: Call, n: nat) {
    && |call.eventIds| == n
    && (forall i :: 0 <= i < n ==> HasLength(call.eventIds[i]) && call.eventIds[i] !in db.events.ids)
    && (forall i, j :: 0 <= i < j < n ==> call.eventIds[i] != call.eventIds[j])
  }

  /** The mutation applies, changes something, and the call can carry it. */
  predicate MutateAdmissible(db: Db, id: ItemId, expected: nat, mutation: Mutation, call: Call) {
    && id in db.items && db.items[id].revision == expected && expected < I64_MAX
    && Applied(db.items[id], mutation).Ok? && Applied(db.items[id], mutation).value.1 != []
    && FreshCall(db, call) && FreshEventIds(db, call, |Applied(db.items[id], mutation).value.1|)
  }

  ghost predicate EarlierRows(rows: seq<EventRow>, revision: int) {
    forall i :: 0 <= i < |rows| ==> rows[i].audited.event.revision < revision
  }

  lemma StoredRevisions(db: Db, id: ItemId)
    requires HistoriesOk(db) && id in db.items
    ensures EarlierRows(EventsOf(db, id), db.items[id].revision + 1)
  {
    var rows := db.events.rows[id];
    assert HistoryOf(rows, db.items[id], db.operations);
    assert Ordered(rows);
    forall i | 0 <= i < |rows| ensures rows[i].audited.event.revision <= db.items[id].revision {
      Nondecreasing(rows, i, |rows| - 1);
    }
  }

  lemma EventAccepted(db: Db, item: ItemId, row: EventRow)
    requires HasLength(row.eventId) && row.eventId !in db.events.ids && HasLength(row.at)
    requires item in db.items && row.operation in db.operations
    requires db.operations[row.operation].revision == row.audited.event.revision
    requires !SlotTaken(EventsOf(db, item), row.audited.event.revision, row.index)
    ensures EventInserted(db, item, row).Some?
    ensures EventInserted(db, item, row).value.events.ids == db.events.ids + {row.eventId}
  {
  }

  function UsedIds(call: Call, n: nat): set<string>
    requires n <= |call.eventIds|
  {
    if n == 0 then {} else UsedIds(call, n - 1) + {call.eventIds[n - 1]}
  }

  lemma {:induction false} EventRowsSucceed(
    db: Db, item: ItemId, call: Call, events: seq<DomainEvent>, reason: Option<string>, n: nat, revision: int)
    requires n <= |events| == |call.eventIds| && FreshEventIds(db, call, |events|) && HasLength(call.at)
    requires item in db.items && call.operation in db.operations && db.operations[call.operation].revision == revision
    requires EarlierRows(EventsOf(db, item), revision)
    requires forall i :: 0 <= i < |events| ==> events[i].revision == revision
    ensures EventsInserted(db, item, call, events, reason, n).Some?
    ensures EventsInserted(db, item, call, events, reason, n).value.events.ids == db.events.ids + UsedIds(call, n)
  {
    hide EarlierRows, FreshEventIds, SlotTaken, EventInserted, NewRows, Audit;
    if n > 0 {
      EventRowsSucceed(db, item, call, events, reason, n - 1, revision);
      EventsInsertedShape(db, item, call, events, reason, n - 1);
      NoRows(call, events, reason);
      var before := EventsInserted(db, item, call, events, reason, n - 1).value;
      assert EventsOf(before, item) == EventsOf(db, item) + NewRows(call, events, reason, n - 1);
      FreshSlot(EventsOf(db, item), call, events, reason, n - 1, revision);
      FreshId(db, call, n - 1, |events|);
      RowFields(call, events, reason, n - 1);
      EventAccepted(before, item, MutationRow(call, events, reason, n - 1));
    }
  }

  lemma NoRows(call: Call, events: seq<DomainEvent>, reason: Option<string>)
    requires |events| == |call.eventIds|
    ensures NewRows(call, events, reason, 0) == []
  {
  }

  lemma RowFields(call: Call, events: seq<DomainEvent>, reason: Option<string>, i: nat)
    requires i < |events| == |call.eventIds|
    ensures var row := MutationRow(call, events, reason, i);
            row.eventId == call.eventIds[i] && row.at == call.at && row.operation == call.operation
            && row.audited.event == events[i] && row.index == i
  {
  }

  lemma {:induction false} UsedIdsAre(call: Call, n: nat, id: string)
    requires n <= |call.eventIds|
    ensures id in UsedIds(call, n) ==> exists i :: 0 <= i < n && call.eventIds[i] == id
  {
    if n > 0 {
      UsedIdsAre(call, n - 1, id);
    }
  }

  lemma FreshId(db: Db, call: Call, n: nat, size: nat)
    requires FreshEventIds(db, call, size) && n < size
    ensures HasLength(call.eventIds[n]) && call.eventIds[n] !in db.events.ids + UsedIds(call, n)
  {
    UsedIdsAre(call, n, call.eventIds[n]);
  }

  lemma FreshSlot(rows: seq<EventRow>, call: Call, events: seq<DomainEvent>, reason: Option<string>, n: nat,
                  revision: int)
    requires n < |events| == |call.eventIds| && EarlierRows(rows, revision)
    requires events[n].revision == revision
    ensures !SlotTaken(rows + NewRows(call, events, reason, n), MutationRow(call, events, reason,
        n).audited.event.revision, n)
  {
    var all := rows + NewRows(call, events, reason, n);
    assert forall i :: |rows| <= i < |all| ==> all[i] == NewRows(call, events, reason, n)[i - |rows|];
  }

  lemma MutationRowsInserted(db: Db, item: Item, expected: nat, call: Call, events: seq<DomainEvent>,
        reason: Option<string>)
    requires OperationsOk(db) && ReceiptsOk(db) && FreshIds(db, call) && call.key !in db.receipts
    requires |events| == |call.eventIds| && FreshEventIds(db, call, |events|) && item.updatedAt == call.at
    requires item.id in db.items && item.revision == db.items[item.id].revision + 1 && item.revision <= I64_MAX
    requires EarlierRows(EventsOf(db, item.id), item.revision)
    requires forall i :: 0 <= i < |events| ==> events[i].revision == item.revision
    ensures MutationRows(db, item, expected, call, events, reason).Some?
  {
    hide ReceiptsOk, EarlierRows, FreshEventIds, OperationReceipted, EventsInserted;
    NotReceipted(db, call.operation);
    var a := db.(items := db.items[item.id := item]);
    assert !RevisionTaken(a, item.id, item.revision);
    var row := Operation(item.id, TriageKind, Some(expected), item.revision, call.at);
    var b := a.(operations := a.operations[call.operation := row]);
    SameIds(db, b, call, |events|);
    assert EventsOf(b, item.id) == EventsOf(db, item.id);
    EventRowsSucceed(b, item.id, call, events, reason, |events|, item.revision);
    EventsInsertedShape(b, item.id, call, events, reason, |events|);
    SameReceipts(db, EventsInserted(b, item.id, call, events, reason, |events|).value, call.operation);
  }

  lemma SameIds(db: Db, d: Db, call: Call, n: nat)
    requires FreshEventIds(db, call, n) && d.events == db.events
    ensures FreshEventIds(d, call, n)
  {
  }

  /** What the invariant says about the item a mutation names. */
  lemma MutatedItem(db: Db, id: ItemId)
    requires Inv(db) && id in db.items
    ensures db.items[id].id == id && EarlierRows(EventsOf(db, id), db.items[id].revision + 1)
  {
    hide JournalOk, OperationsOk, ReceiptsOk, HistoriesOk, EarlierRows;
    assert ItemOk(id, db.items[id], db.counters);
    StoredRevisions(db, id);
  }

  lemma MutateCommits(db: Db, pinned: StoreState, id: ItemId, expected: nat, mutation: Mutation, call: Call)
    requires Inv(db) && StateOf(db) == Some(pinned) && call.key !in db.receipts
    requires MutateAdmissible(db, id, expected, mutation, call)
    ensures var r := Mutate(db, pinned, id, expected, mutation, call).1;
            r.Ok? && !r.value.replayed && r.value.item.revision == expected + 1
  {
    hide MutationRows, Appended, StateOf, JournalOk, ItemsOk, OperationsOk, ReceiptsOk, HistoriesOk, Applied,
      FreshEventIds, EarlierRows;
    var (item, events) := Applied(db.items[id], mutation).value;
    AppliedShape(db.items[id], mutation);
    MutatedItem(db, id);
    var stamped := item.(updatedAt := call.at);
    var reason := MutationReason(mutation);
    EventIdCount(db, call, |events|);
    MutationRowsInserted(db, stamped, expected, call, events, reason);
    MutationRowsShape(db, stamped, expected, call, events, reason);
    AppendSucceeds(db, MutationRows(db, stamped, expected, call, events, reason).value, call.operation);
  }

  lemma EventIdCount(db: Db, call: Call, n: nat)
    requires FreshEventIds(db, call, n)
    ensures |call.eventIds| == n
  {
  }

  lemma {:induction false} UsedIdsHave(call: Call, n: nat, i: nat)
    requires i < n <= |call.eventIds|
    ensures call.eventIds[i] in UsedIds(call, n)
  {
    if i < n - 1 {
      UsedIdsHave(call, n - 1, i);
    }
  }

  lemma EventNeeds(db: Db, item: ItemId, row: EventRow)
    requires EventInserted(db, item, row).Some?
    ensures HasLength(row.eventId) && row.eventId !in db.events.ids
    ensures EventInserted(db, item, row).value.events.ids == db.events.ids + {row.eventId}
  {
  }

  /** Rows that were inserted had nonempty, unused, distinct ids. */
  lemma {:induction false} EventRowsNeed(
    db: Db, item: ItemId, call: Call, events: seq<DomainEvent>, reason: Option<string>, n: nat)
    requires n <= |events| == |call.eventIds| && EventsInserted(db, item, call, events, reason, n).Some?
    ensures EventsInserted(db, item, call, events, reason, n).value.events.ids == db.events.ids + UsedIds(call, n)
    ensures forall i :: 0 <= i < n ==> HasLength(call.eventIds[i]) && call.eventIds[i] !in db.events.ids
    ensures forall i, j :: 0 <= i < j < n ==> call.eventIds[i] != call.eventIds[j]
  {
    hide EventInserted, Audit;
    if n > 0 {
      EventRowsNeed(db, item, call, events, reason, n - 1);
      var before := EventsInserted(db, item, call, events, reason, n - 1).value;
      RowFields(call, events, reason, n - 1);
      EventNeeds(before, item, MutationRow(call, events, reason, n - 1));
      forall i | 0 <= i < n - 1 ensures call.eventIds[i] != call.eventIds[n - 1] {
        UsedIdsHave(call, n - 1, i);
      }
    }
  }

  lemma MutationRowsNeed(db: Db, item: Item, expected: nat, call: Call, events: seq<DomainEvent>,
        reason: Option<string>)
    requires |events| == |call.eventIds| && MutationRows(db, item, expected, call, events, reason).Some?
    ensures HasLength(call.key) && HasLength(call.at) && HasLength(call.operation) && call.operation !in db.operations
    ensures FreshEventIds(db, call, |events|) && item.revision <= I64_MAX
  {
    hide EventsInserted, OperationReceipted, RevisionTaken;
    var a := ItemUpdated(db, item).value;
    var b := OperationInserted(a, call.operation,
                               Operation(item.id, TriageKind, Some(expected), item.revision, call.at)).value;
    EventRowsNeed(b, item.id, call, events, reason, |events|);
  }

  lemma AppendNeeds(rows: Db, operation: string)
    requires Appended(rows, operation).Ok?
    ensures rows.metadata.high < I64_MAX
  {
  }

  lemma MutateNeeds(db: Db, pinned: StoreState, id: ItemId, expected: nat, mutation: Mutation, call: Call)
    requires Inv(db) && Mutate(db, pinned, id, expected, mutation, call).0 != db
    ensures StateOf(db) == Some(pinned) && call.key !in db.receipts
        && MutateAdmissible(db, id, expected, mutation, call)
    ensures Mutate(db, pinned, id, expected, mutation, call).1.Ok?
    ensures !Mutate(db, pinned, id, expected, mutation, call).1.value.replayed
  {
    hide MutationRows, Appended, StateOf, JournalOk, ItemsOk, OperationsOk, ReceiptsOk, HistoriesOk, Applied,
      FreshEventIds, EarlierRows;
    var (item, events) := Applied(db.items[id], mutation).value;
    AppliedShape(db.items[id], mutation);
    MutatedItem(db, id);
    var stamped := item.(updatedAt := call.at);
    var reason := MutationReason(mutation);
    MutationRowsNeed(db, stamped, expected, call, events, reason);
    MutationRowsShape(db, stamped, expected, call, events, reason);
    AppendNeeds(MutationRows(db, stamped, expected, call, events, reason).value, call.operation);
  }

  lemma MutateChanges(db: Db, pinned: StoreState, id: ItemId, expected: nat, mutation: Mutation, call: Call)
    requires Inv(db) && StateOf(db) == Some(pinned) && call.key !in db.receipts
    requires MutateAdmissible(db, id, expected, mutation, call)
    ensures Mutate(db, pinned, id, expected, mutation, call).0 != db
  {
    hide Inv, MutateAdmissible, FreshEventIds;
    MutateCommits(db, pinned, id, expected, mutation, call);
    CommittedMutation(db, DoMutate(pinned, id, expected, mutation, call));
  }

  lemma CommittedMutation(db: Db, action: Action)
    requires Inv(db) && action.DoMutate? && StateOf(db) == Some(action.pinned) && action.call.key !in db.receipts
    requires MutateAdmissible(db, action.id, action.expected, action.mutation, action.call)
    requires AnswerOf(db, action).Ok?
    ensures Mutate(db, action.pinned, action.id, action.expected, action.mutation, action.call).0 != db
  {
    hide Inv, Applied, Mutate, FreshEventIds, StateOf;
    CommittedChanges(db, action);
  }

  /**
   On a reachable store, a mutation changes something exactly when the handle is current, the key unused, the expected
   revision matches, the mutation applies with effect, and the call is fresh with one new id per event.
   */
  lemma MutateExact(db: Db, pinned: StoreState, id: ItemId, expected: nat, mutation: Mutation, call: Call)
    requires Inv(db)
    ensures Mutate(db, pinned, id, expected, mutation, call).0 != db <==>
              StateOf(db) == Some(pinned) && call.key !in db.receipts
              && MutateAdmissible(db, id, expected, mutation, call)
  {
    hide Mutate, StateOf, Inv, MutateAdmissible;
    if Mutate(db, pinned, id, expected, mutation, call).0 != db {
      MutateNeeds(db, pinned, id, expected, mutation, call);
    }
    if StateOf(db) == Some(pinned) && call.key !in db.receipts && MutateAdmissible(db, id, expected, mutation, call) {
      MutateChanges(db, pinned, id, expected, mutation, call);
    }
  }

  /** In every reachable state an admissible write commits: with fresh identities only the request can be at fault. */
  lemma AdmissibleWritesCommit(h: seq<Db>, actions: seq<Action>, i: nat)
    requires Run(h, actions) && i < |actions| && CallOf(actions[i]).Some?
    requires StateOf(h[i]) == Some(actions[i].pinned) && CallOf(actions[i]).value.key !in h[i].receipts
    requires match actions[i]
             case DoCapture(_, input, call) => CaptureAdmissible(h[i], input, call)
             case DoMutate(_, id, expected, mutation, call) => MutateAdmissible(h[i], id, expected, mutation, call)
             case _ => false
    ensures AnswerOf(h[i], actions[i]).Ok? && !AnswerOf(h[i], actions[i]).value.replayed
  {
    hide Inv, StateOf, CaptureAdmissible, MutateAdmissible, Capture, Mutate, Validate;
    ReachableInv(h, actions, i);
    match actions[i]
    case DoCapture(pinned, input, call) => CaptureCommits(h[i], pinned, input, call);
    case DoMutate(pinned, id, expected, mutation, call) => MutateCommits(h[i], pinned, id, expected, mutation, call);
  }
}
