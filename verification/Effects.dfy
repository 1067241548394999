/**
 What one committed write leaves, table by table and value by value, and which refusal every other call gets. The
 statements of a write and their early exits collapse, on a reachable store, into one decision list.
 */
module Effects {
  import opened Wrappers
  import opened Text
  import opened Identifiers
  import opened Domain
  import opened Ledger
  import opened LedgerInvariants
  import opened Runs
  import opened History
  import opened Admission

  // ---- Capture ----

  /** The store after a first-time capture: one new row in every table, one journal position, one sequence taken. */
  ghost function CaptureAfter(db: Db, input: CaptureInput, call: Call): (Db, Item)
    requires ItemsOk(db) && call.eventIds != []
  {
    var scope := (input.requester, input.project);
    var sequence := if scope in db.counters then db.counters[scope] else 1;
    var id := ItemId(input.requester, input.project, sequence);
    var item := Item(id, input.content, Proposed, None, None, None, 1, call.at, call.at, input.provenance);
    var event := EventRow(call.eventIds[0], call.operation, 0, Audited(DomainEvent(Captured, 1, None, None), None),
                          call.actor, call.execution, call.at);
    var position := db.metadata.high + 1;
    (Db(db.identity, db.projects + {input.project}, db.counters[scope := sequence + 1],
        db.items[id := item],
        db.operations[call.operation := Operation(id, CaptureKind, None, 1, call.at)],
        EventTable(db.events.rows[id := [event]], db.events.ids + {call.eventIds[0]}),
        db.receipts[call.key := Receipt(CaptureKind, call.digest, call.operation, id, call.at)],
        db.journal + [Change(position, call.operation, id, input.project, 1)], Some(position),
        Metadata(db.metadata.generation, db.metadata.floor, position, db.metadata.syncEnabled,
                 db.metadata.bootstrapRequired)),
     item)
  }

  /** Whether every row of the capture passes the checks and uniqueness rules of its table. */
  predicate CaptureRowsFit(db: Db, input: CaptureInput, call: Call) {
    && FreshIds(db, call) && HasLength(input.content.title)
    && call.eventIds != [] && HasLength(call.eventIds[0]) && call.eventIds[0] !in db.events.ids
  }

  lemma AllocatedNew(db: Db, input: CaptureInput)
    requires Inv(db)
    requires var scope := (input.requester, input.project); scope in db.counters ==> db.counters[scope] != I64_MAX
    ensures var scope := (input.requester, input.project);
            var sequence := if scope in db.counters then db.counters[scope] else 1;
            var counted := db.(projects := db.projects + {input.project},
                               counters := db.counters[scope := sequence + 1]);
            && AllocateSequence(db.(projects := db.projects + {input.project}), input.requester, input.project)
               == Some((counted, sequence))
            && sequence >= 1 && ItemId(input.requester, input.project, sequence) !in db.items
            && ItemsOk(db.(projects := db.projects + {input.project}))
            && OperationsOk(counted) && ReceiptsOk(counted) && HistoriesOk(counted)
  {
    hide JournalOk, ItemsOk, OperationsOk, ReceiptsOk, HistoriesOk;
    var scoped := db.(projects := db.projects + {input.project});
    Allocates(scoped, input.requester, input.project);
    CounterTables(db, scoped, AllocateSequence(scoped, input.requester, input.project).value.0);
    NewIdentity(scoped, input.requester, input.project);
  }

  /** The row inserts of a capture succeed exactly when its rows fit. */
  lemma CaptureRowsExact(db: Db, counted: Db, item: Item, input: CaptureInput, call: Call)
    requires OperationsOk(counted) && ReceiptsOk(counted) && HistoriesOk(counted) && item.id !in counted.items
    requires counted == db.(projects := counted.projects, counters := counted.counters)
    requires item.content == input.content && item.capturedAt == call.at && call.key !in db.receipts
    ensures CaptureRows(counted, item, call).Some? <==> CaptureRowsFit(db, input, call)
  {
    if CaptureRowsFit(db, input, call) {
      CaptureRowsSucceed(counted, item, call);
    } else {
      hide OperationsOk, ReceiptsOk, HistoriesOk, RevisionTaken, SlotTaken, OperationReceipted;
    }
  }

  /** Appending a new operation fails only on an exhausted journal. */
  lemma AppendExact(db: Db, rows: Db, operation: string)
    requires JournalOk(db) && operation !in db.operations
    requires rows.journal == db.journal && rows.allocator == db.allocator && rows.metadata == db.metadata
    requires operation in rows.operations && rows.operations[operation].item in rows.items
    ensures if db.metadata.high == I64_MAX then Appended(rows, operation) == Err(JournalSequenceExhausted)
            else
              var position := db.metadata.high + 1;
              var op := rows.operations[operation];
              var row := Change(position, operation, op.item, op.item.project, op.revision);
              Appended(rows, operation)
              == Ok(rows.(journal := rows.journal + [row], allocator := Some(position),
                          metadata := rows.metadata.(high := position)))
  {
    hide JournalOk;
    NotJournaled(db, operation);
    JournalMetadata(db);
    PositionOf(rows, db);
    JournalBelow(db);
    assert InJournal(rows, operation) == InJournal(db, operation);
  }

  lemma JournalBelow(db: Db)
    requires JournalOk(db)
    ensures db.metadata.high <= I64_MAX
  {
  }

  lemma CaptureEffect(db: Db, counted: Db, item: Item, input: CaptureInput, call: Call)
    requires Inv(db) && CaptureRowsFit(db, input, call) && call.key !in db.receipts
    requires item == CaptureAfter(db, input, call).1
    requires counted == db.(projects := db.projects + {input.project},
                            counters := db.counters[(input.requester, input.project) := item.id.sequence + 1])
    requires CaptureRows(counted, item, call).Some?
    ensures var rows := CaptureRows(counted, item, call);
            if db.metadata.high == I64_MAX then Appended(rows.value, call.operation) == Err(JournalSequenceExhausted)
            else Appended(rows.value, call.operation) == Ok(CaptureAfter(db, input, call).0)
  {
    hide CaptureRows, Appended, ItemsOk, OperationsOk, HistoriesOk, ReceiptsOk, RevisionTaken, JournalOk;
    CaptureRowsShape(counted, item, call);
    AppendExact(db, CaptureRows(counted, item, call).value, call.operation);
    NoHistory(db, item.id);
    assert [] + [CaptureEvent(call)] == [CaptureEvent(call)];
    assert counted.projects == db.projects + {input.project};
  }

  /**
   What a capture under an unused key answers and leaves, on every reachable store: restart for a stale handle, then an
   exhausted counter, then rows that do not fit, then an exhausted journal, then a failed commit, then exactly one
   complete write. Every refusal leaves the store alone.
   */
  lemma CaptureDecided(db: Db, pinned: StoreState, input: CaptureInput, call: Call)
    requires Inv(db) && call.key !in db.receipts
    ensures var scope := (input.requester, input.project);
            Capture(db, pinned, input, call) ==
            if StateOf(db) != Some(pinned) then (db, Err(RestartRequired))
            else if scope in db.counters && db.counters[scope] == I64_MAX then (db, Err(SequenceExhausted))
            else if !CaptureRowsFit(db, input, call) then (db, Err(Sqlite))
            else if db.metadata.high == I64_MAX then (db, Err(Journal(JournalSequenceExhausted)))
            else if !call.commits then (db, Err(Sqlite))
            else (CaptureAfter(db, input, call).0, Ok(Answer(CaptureAfter(db, input, call).1, false)))
  {
    hide Inv, ItemsOk, OperationsOk, ReceiptsOk, HistoriesOk, CaptureRows, Appended, StateOf, CaptureAfter,
      CaptureRowsFit;
    var scope := (input.requester, input.project);
    if StateOf(db) == Some(pinned) && !(scope in db.counters && db.counters[scope] == I64_MAX) {
      AllocatedNew(db, input);
      var (counted, sequence) :=
        AllocateSequence(db.(projects := db.projects + {input.project}), input.requester, input.project).value;
      var item := CapturedItem(ItemId(input.requester, input.project, sequence), input.content, input.provenance,
                               call.at);
      CaptureRowsExact(db, counted, item, input, call);
      if CaptureRowsFit(db, input, call) {
        CaptureItem(db, input, call);
        CaptureEffect(db, counted, item, input, call);
      }
    }
  }

  lemma CaptureItem(db: Db, input: CaptureInput, call: Call)
    requires Inv(db) && CaptureRowsFit(db, input, call)
    ensures call.eventIds != [] && ItemsOk(db)
    ensures var scope := (input.requester, input.project);
            var sequence := if scope in db.counters then db.counters[scope] else 1;
            sequence >= 1 && CaptureAfter(db, input, call).1
            == CapturedItem(ItemId(input.requester, input.project, sequence), input.content, input.provenance, call.at)
  {
  }

  // ---- Mutation ----

  /** A write that changes one thing is recorded under that change; every compound and a lone note as triage. */
  function RecordedAs(before: Item, after: Item, mutation: Mutation): WriteKind {
    var priority, assignee := after.priority != before.priority, after.assignee != before.assignee;
    var note := mutation.triage.Some? && mutation.triage.value.note.Some?;
    match mutation.lifecycle
    case Some(action) =>
      if priority || assignee || note then TriageKind
      else (match action
        case Approve => ApproveKind
        case Reject(_) => RejectKind
        case Start => StartKind
        case Block(_) => BlockKind
        case Resume => ResumeKind
        case Finish => FinishKind)
    case None =>
      if priority && !assignee && !note then PrioritizeKind
      else if assignee && !priority && !note then AssignKind
      else TriageKind
  }

  lemma RecordedExact(item: Item, mutation: Mutation)
    requires Applied(item, mutation).Ok? && Applied(item, mutation).value.1 != []
    ensures var (after, events) := Applied(item, mutation).value;
            MutationType(events) == RecordedAs(item, after, mutation)
  {
    hide Applied;
    EventsDecided(item, mutation);
  }

  /** The row of event `i`: its id, its place in the operation, the caller, and the reason of a rejection or block. */
  function MutationEventRow(mutation: Mutation, call: Call, event: DomainEvent, i: nat): EventRow
    requires i < |call.eventIds|
  {
    var reason :=
      match (mutation.lifecycle, event.kind)
      case (Some(Reject(text)), Rejected) => Some(text)
      case (Some(Block(text)), Blocked) => Some(text)
      case _ => None;
    EventRow(call.eventIds[i], call.operation, i, Audited(event, reason), call.actor, call.execution, call.at)
  }

  /** The store after an effective mutation: the item replaced, one row per event, one row elsewhere, one position. */
  function MutateAfter(db: Db, id: ItemId, mutation: Mutation, call: Call): (Db, Item)
    requires id in db.items && id in db.events.rows && Applied(db.items[id], mutation).Ok?
    requires |call.eventIds| == |Applied(db.items[id], mutation).value.1|
  {
    var before := db.items[id];
    var (applied, events) := Applied(before, mutation).value;
    var item := applied.(updatedAt := call.at);
    var rows := seq(|events|, i requires 0 <= i < |events| => MutationEventRow(mutation, call, events[i], i));
    var position := db.metadata.high + 1;
    (Db(db.identity, db.projects, db.counters, db.items[id := item],
        db.operations[call.operation := Operation(id, TriageKind, Some(before.revision), before.revision + 1, call.at)],
        EventTable(db.events.rows[id := db.events.rows[id] + rows], db.events.ids + set e | e in call.eventIds),
        db.receipts[call.key := Receipt(RecordedAs(before, applied, mutation), call.digest, call.operation, id,
                                        call.at)],
        db.journal + [Change(position, call.operation, id, id.project, before.revision + 1)], Some(position),
        Metadata(db.metadata.generation, db.metadata.floor, position, db.metadata.syncEnabled,
                 db.metadata.bootstrapRequired)),
     item)
  }

  /** Whether every row of the mutation passes the checks and uniqueness rules of its table. */
  predicate MutationRowsFit(db: Db, revision: nat, call: Call, n: nat) {
    revision < I64_MAX && FreshIds(db, call) && FreshEventIds(db, call, n)
  }

  lemma {:induction false} UsedIdsAll(call: Call, n: nat)
    requires n <= |call.eventIds|
    ensures UsedIds(call, n) == set e | e in call.eventIds[..n]
  {
    if n > 0 {
      UsedIdsAll(call, n - 1);
      assert call.eventIds[..n] == call.eventIds[..n - 1] + [call.eventIds[n - 1]];
    }
  }

  lemma MutationRowExact(mutation: Mutation, call: Call, item: Item, i: nat)
    requires Applied(item, mutation).Ok?
    requires i < |Applied(item, mutation).value.1| == |call.eventIds|
    ensures var events := Applied(item, mutation).value.1;
            MutationRow(call, events, MutationReason(mutation), i) == MutationEventRow(mutation, call, events[i], i)
  {
    hide Applied;
    EventsDecided(item, mutation);
  }

  /** The row inserts of a mutation succeed exactly when its rows fit. */
  lemma MutationRowsExact(db: Db, id: ItemId, mutation: Mutation, call: Call)
    requires Inv(db) && id in db.items && call.key !in db.receipts && Applied(db.items[id], mutation).Ok?
    requires var events := Applied(db.items[id], mutation).value.1; events != [] && |events| == |call.eventIds|
    ensures var (item, events) := Applied(db.items[id], mutation).value;
            var rows := MutationRows(db, item.(updatedAt := call.at), db.items[id].revision, call, events,
                                     MutationReason(mutation));
            rows.Some? <==> MutationRowsFit(db, db.items[id].revision, call, |events|)
  {
    hide Applied, MutationRows, JournalOk, ItemsOk, OperationsOk, ReceiptsOk, HistoriesOk, EarlierRows, FreshEventIds;
    var (item, events) := Applied(db.items[id], mutation).value;
    AppliedShape(db.items[id], mutation);
    MutatedItem(db, id);
    var stamped := item.(updatedAt := call.at);
    if MutationRowsFit(db, db.items[id].revision, call, |events|) {
      MutationRowsInserted(db, stamped, db.items[id].revision, call, events, MutationReason(mutation));
    } else if MutationRows(db, stamped, db.items[id].revision, call, events, MutationReason(mutation)).Some? {
      MutationRowsNeed(db, stamped, db.items[id].revision, call, events, MutationReason(mutation));
    }
  }

  lemma MutationEventIds(db: Db, item: Item, expected: nat, call: Call, events: seq<DomainEvent>,
                         reason: Option<string>)
    requires |events| == |call.eventIds| && MutationRows(db, item, expected, call, events, reason).Some?
    ensures MutationRows(db, item, expected, call, events, reason).value.events.ids
         == db.events.ids + set e | e in call.eventIds
  {
    hide EventsInserted, OperationReceipted, RevisionTaken;
    var a := ItemUpdated(db, item).value;
    var b := OperationInserted(a, call.operation,
                               Operation(item.id, TriageKind, Some(expected), item.revision, call.at)).value;
    EventRowsNeed(b, item.id, call, events, reason, |events|);
    UsedIdsAll(call, |events|);
    assert call.eventIds[..|events|] == call.eventIds;
  }

  lemma MutationRowSeq(mutation: Mutation, call: Call, item: Item)
    requires Applied(item, mutation).Ok? && |Applied(item, mutation).value.1| == |call.eventIds|
    ensures var events := Applied(item, mutation).value.1;
            NewRows(call, events, MutationReason(mutation), |events|)
            == seq(|events|, i requires 0 <= i < |events| => MutationEventRow(mutation, call, events[i], i))
  {
    hide Applied, MutationRow, MutationEventRow;
    var events := Applied(item, mutation).value.1;
    forall i | 0 <= i < |events|
      ensures MutationRow(call, events, MutationReason(mutation), i) == MutationEventRow(mutation, call, events[i], i)
    {
      MutationRowExact(mutation, call, item, i);
    }
  }

  lemma MutationRowsValue(db: Db, item: Item, mutation: Mutation, call: Call)
    requires HistoriesOk(db) && item.id in db.items && db.items[item.id].id == item.id
    requires Applied(db.items[item.id], mutation).Ok?
    requires var (applied, events) := Applied(db.items[item.id], mutation).value;
             && item == applied.(updatedAt := call.at) && events != [] && |events| == |call.eventIds|
             && MutationRows(db, item, db.items[item.id].revision, call, events, MutationReason(mutation)).Some?
    ensures item.id in db.events.rows
    ensures var events := Applied(db.items[item.id], mutation).value.1;
            MutationRows(db, item, db.items[item.id].revision, call, events, MutationReason(mutation)).value ==
            MutateAfter(db, item.id, mutation, call).0.(journal := db.journal, allocator := db.allocator,
                                                        metadata := db.metadata)
  {
    hide Applied, MutationRows, RecordedAs, MutationType, MutationRow, MutationEventRow, NewRows, HistoryOf;
    var before := db.items[item.id];
    var events := Applied(before, mutation).value.1;
    var reason := MutationReason(mutation);
    AppliedShape(before, mutation);
    MutationRowsShape(db, item, before.revision, call, events, reason);
    MutationEventIds(db, item, before.revision, call, events, reason);
    RecordedExact(before, mutation);
    MutationRowSeq(mutation, call, before);
    assert EventsOf(db, item.id) == db.events.rows[item.id];
  }

  lemma MutateEffect(db: Db, id: ItemId, mutation: Mutation, call: Call)
    requires Inv(db) && id in db.items && Applied(db.items[id], mutation).Ok?
    requires var (item, events) := Applied(db.items[id], mutation).value;
             && events != [] && |events| == |call.eventIds|
             && MutationRows(db, item.(updatedAt := call.at), db.items[id].revision, call, events,
                             MutationReason(mutation)).Some?
             && call.operation !in db.operations
    ensures id in db.events.rows
    ensures var (item, events) := Applied(db.items[id], mutation).value;
            var rows := MutationRows(db, item.(updatedAt := call.at), db.items[id].revision, call, events,
                                     MutationReason(mutation));
            if db.metadata.high == I64_MAX then Appended(rows.value, call.operation) == Err(JournalSequenceExhausted)
            else Appended(rows.value, call.operation) == Ok(MutateAfter(db, id, mutation, call).0)
  {
    hide Applied, MutationRows, Appended, JournalOk, ItemsOk, OperationsOk, ReceiptsOk, HistoriesOk, RecordedAs,
      MutationEventRow, EarlierRows;
    var (item, events) := Applied(db.items[id], mutation).value;
    AppliedShape(db.items[id], mutation);
    MutatedItem(db, id);
    MutationRowsValue(db, item.(updatedAt := call.at), mutation, call);
    var rows :=
      MutationRows(db, item.(updatedAt := call.at), db.items[id].revision, call, events, MutationReason(mutation));
    AppendExact(db, rows.value, call.operation);
  }

  /**
   What a mutation under an unused key answers and leaves, on every reachable store: restart for a stale handle, an
   unknown item, another revision, the domain's own refusal, the unchanged item for a mutation without effect, event
   ids or rows that do not fit, an exhausted journal, a failed commit, or exactly one complete write. Every refusal
   leaves the store alone.
   */
  lemma MutateDecided(db: Db, pinned: StoreState, id: ItemId, expected: nat, mutation: Mutation, call: Call)
    requires Inv(db) && call.key !in db.receipts
    ensures id in db.items ==> id in db.events.rows
    ensures Mutate(db, pinned, id, expected, mutation, call) ==
            if StateOf(db) != Some(pinned) then (db, Err(RestartRequired))
            else if id !in db.items then (db, Err(NotFound))
            else if expected != db.items[id].revision then (db, Err(VersionConflict))
            else
              match Applied(db.items[id], mutation)
              case Err(error) => (db, Err(Invalid(error)))
              case Ok((_, events)) =>
                if events == [] then (db, Ok(Answer(db.items[id], false)))
                else if !MutationRowsFit(db, expected, call, |events|) then (db, Err(Sqlite))
                else if db.metadata.high == I64_MAX then (db, Err(Journal(JournalSequenceExhausted)))
                else if !call.commits then (db, Err(Sqlite))
                else (MutateAfter(db, id, mutation, call).0, Ok(Answer(MutateAfter(db, id, mutation, call).1, false)))
  {
    hide Applied, MutationRows, Appended, StateOf, JournalOk, ItemsOk, OperationsOk, ReceiptsOk, FreshIds,
      FreshEventIds, MutateAfter, HistoryOf;
    if id in db.items && Applied(db.items[id], mutation).Ok? {
      AppliedShape(db.items[id], mutation);
      var (item, events) := Applied(db.items[id], mutation).value;
      if events != [] && |events| == |call.eventIds| {
        MutationRowsExact(db, id, mutation, call);
        if MutationRowsFit(db, db.items[id].revision, call, |events|) {
          NewOperation(db, call);
          MutateEffect(db, id, mutation, call);
          AfterItem(db, id, mutation, call);
        }
      } else if |events| != |call.eventIds| {
        IdsCounted(db, call, |events|);
      }
    }
  }

  lemma NewOperation(db: Db, call: Call)
    requires FreshIds(db, call)
    ensures call.operation !in db.operations
  {
  }

  lemma IdsCounted(db: Db, call: Call, n: nat)
    requires |call.eventIds| != n
    ensures !FreshEventIds(db, call, n)
  {
  }

  lemma AfterItem(db: Db, id: ItemId, mutation: Mutation, call: Call)
    requires id in db.items && id in db.events.rows && Applied(db.items[id], mutation).Ok?
    requires |call.eventIds| == |Applied(db.items[id], mutation).value.1|
    ensures MutateAfter(db, id, mutation, call).1 == Applied(db.items[id], mutation).value.0.(updatedAt := call.at)
  {
    hide Applied;
  }

  // ---- Numbering ----

  /** The items of each requester and project are numbered 1, 2, 3, ... and the counter is the next number. */
  ghost predicate Consecutive(db: Db) {
    forall requester: string, project: string, sequence: nat :: ItemId(requester, project, sequence) in db.items <==>
      (requester, project) in db.counters && 1 <= sequence < db.counters[(requester, project)]
  }

  lemma {:induction false} CaptureConsecutive(db: Db, action: Action)
    requires Consecutive(db) && action.DoCapture?
    ensures Consecutive(Runs.Next(db, action))
  {
    hide Capture;
    var w := CaptureWrites(db, action.pinned, action.input, action.call);
    var after := Runs.Next(db, action);
    if after != db {
      forall requester: string, project: string, sequence: nat
        ensures ItemId(requester, project, sequence) in after.items <==>
                (requester, project) in after.counters && 1 <= sequence < after.counters[(requester, project)]
      {
        assert ItemId(requester, project, sequence) in db.items <==>
               (requester, project) in db.counters && 1 <= sequence < db.counters[(requester, project)];
      }
    }
  }

  lemma {:induction false} MutateConsecutive(db: Db, action: Action)
    requires Consecutive(db) && action.DoMutate? && (action.id in db.items ==> db.items[action.id].id == action.id)
    ensures Consecutive(Runs.Next(db, action))
  {
    hide Mutate;
    var w := MutateWrites(db, action.pinned, action.id, action.expected, action.mutation, action.call);
    assert Runs.Next(db, action).items.Keys == db.items.Keys;
  }

  lemma {:induction false} StepConsecutive(h: seq<Db>, actions: seq<Action>, i: nat)
    requires |h| == |actions| + 1 && i < |actions| && Steps(h, actions, i) && Consecutive(h[i])
    requires actions[i].DoRestore? ==> Consecutive(actions[i].backup)
    requires forall id :: id in h[i].items ==> h[i].items[id].id == id
    ensures Consecutive(h[i + 1])
  {
    hide Capture, Mutate, Validate;
    match actions[i]
    case DoCapture(_, _, _) => CaptureConsecutive(h[i], actions[i]);
    case DoMutate(_, _, _, _, _) => MutateConsecutive(h[i], actions[i]);
    case DoPrune(_, _) => assert h[i + 1].items == h[i].items && h[i + 1].counters == h[i].counters;
    case DoActivate(_) => assert h[i + 1].items == h[i].items && h[i + 1].counters == h[i].counters;
    case DoRestore(backup, _, _) =>
      assert (h[i + 1].items == h[i].items && h[i + 1].counters == h[i].counters)
             || (h[i + 1].items == backup.items && h[i + 1].counters == backup.counters);
  }

  /**
   In every state of every run no number is skipped and none is given twice, whatever failed in between: refused
   captures take no number, and restores keep this when their backups have it.
   */
  lemma {:induction false} ReachableConsecutive(h: seq<Db>, actions: seq<Action>, i: nat)
    requires Run(h, actions) && i < |h|
    requires forall k :: 0 <= k < |actions| && actions[k].DoRestore? ==> Consecutive(actions[k].backup)
    ensures Consecutive(h[i])
  {
    hide Steps, Consecutive;
    if i == 0 {
      FreshConsecutive(h[0]);
    } else {
      ReachableConsecutive(h, actions, i - 1);
      RunSteps(h, actions, i - 1);
      StepConsecutive(h, actions, i - 1);
    }
  }

  lemma FreshConsecutive(db: Db)
    requires Fresh(db)
    ensures Consecutive(db)
  {
  }
}
