/**
 Runs of the ledger: any interleaving of captures, mutations, prunes, activations and restores, starting from a fresh
 store. A restore brings in a backup of an earlier state of the run or of any other store the ledger could have
 produced; it is the only step that changes the generation.
 */
module Runs {
  import opened Wrappers
  import opened Identifiers
  import opened Domain
  import opened Ledger
  import opened LedgerInvariants

  datatype Action =
    | DoCapture(pinned: StoreState, input: CaptureInput, call: Call)
    | DoMutate(pinned: StoreState, id: ItemId, expected: nat, mutation: Mutation, call: Call)
    | DoPrune(generation: string, through: int)
    | DoActivate(generation: string)
    | DoRestore(backup: Db, generation: string, cookie: int)

  ghost predicate Good(db: Db) {
    Inv(db) && StateOf(db).Some?
  }

  /** A restore reads a backup of a good store and draws a generation the run never had. */
  ghost predicate Enabled(history: seq<Db>, action: Action) {
    match action
    case DoRestore(backup, generation, _) =>
      Good(backup) && GenerationOk(generation)
      && forall i :: 0 <= i < |history| ==> history[i].metadata.generation != generation
    case _ => true
  }

  function Next(db: Db, action: Action): Db {
    match action
    case DoCapture(pinned, input, call) => Capture(db, pinned, input, call).0
    case DoMutate(pinned, id, expected, mutation, call) => Mutate(db, pinned, id, expected, mutation, call).0
    case DoPrune(generation, through) => Prune(db, generation, through).0
    case DoActivate(generation) => Activate(db, generation).0
    case DoRestore(backup, generation, cookie) => Restore(db, backup, generation, cookie).0
  }

  ghost predicate Steps(h: seq<Db>, actions: seq<Action>, i: nat)
    requires |h| == |actions| + 1 && i < |actions|
  {
    Enabled(h[..i + 1], actions[i]) && h[i + 1] == Next(h[i], actions[i])
  }

  ghost predicate Run(h: seq<Db>, actions: seq<Action>) {
    && |h| == |actions| + 1
    && Fresh(h[0])
    && forall i :: 0 <= i < |actions| ==> Steps(h, actions, i)
  }

  function Generation(db: Db): string {
    db.metadata.generation
  }

  // ---- What persists inside a generation ----

  /**
   Identity and content never move, the revision only grows and determines the item, and terminal items are frozen.
   */
  predicate ItemEvolves(x: Item, y: Item) {
    && y.id == x.id && y.content == x.content && y.provenance == x.provenance && y.capturedAt == x.capturedAt
    && x.revision <= y.revision
    && (x.revision == y.revision ==> x == y)
    && (x.status.Done? || x.status.Rejected? ==> y == x.(revision := y.revision, updatedAt := y.updatedAt))
  }

  predicate Shaped(db: Db) {
    0 <= db.metadata.floor <= db.metadata.high && |db.journal| == db.metadata.high - db.metadata.floor
  }

  function RowAt(db: Db, position: int): Change
    requires Shaped(db) && db.metadata.floor < position <= db.metadata.high
  {
    db.journal[position - db.metadata.floor - 1]
  }

  ghost predicate JournalEvolves(a: Db, b: Db) {
    && Shaped(a) && Shaped(b)
    && a.metadata.floor <= b.metadata.floor && a.metadata.high <= b.metadata.high
    && forall p :: b.metadata.floor < p <= a.metadata.high ==> RowAt(b, p) == RowAt(a, p)
  }

  ghost predicate ItemsEvolve(a: Db, b: Db) {
    && (forall id :: id in a.items ==> id in b.items && ItemEvolves(a.items[id], b.items[id]))
    && (forall id :: id in a.events.rows ==> id in b.events.rows && a.events.rows[id] <= b.events.rows[id])
  }

  ghost predicate RecordsEvolve(a: Db, b: Db) {
    && a.identity == b.identity && Generation(a) == Generation(b)
    && (forall o :: o in a.operations ==> o in b.operations && b.operations[o] == a.operations[o])
    && (forall k :: k in a.receipts ==> k in b.receipts && b.receipts[k] == a.receipts[k])
    && (forall s :: s in a.counters ==> s in b.counters && a.counters[s] <= b.counters[s])
  }

  ghost predicate Evolves(a: Db, b: Db) {
    JournalEvolves(a, b) && ItemsEvolve(a, b) && RecordsEvolve(a, b)
  }

  lemma EvolvesReflexive(a: Db)
    requires Shaped(a)
    ensures Evolves(a, a)
  {
  }

  lemma EvolvesTransitive(a: Db, b: Db, c: Db)
    requires Evolves(a, b) && Evolves(b, c)
    ensures Evolves(a, c)
  {
    assert ItemsEvolve(a, c);
    assert RecordsEvolve(a, c);
    forall p | c.metadata.floor < p <= a.metadata.high ensures RowAt(c, p) == RowAt(a, p) {
      assert RowAt(c, p) == RowAt(b, p) == RowAt(a, p);
    }
  }

  lemma WriteJournalEvolves(before: Db, after: Db, w: Write)
    requires JournalOk(before) && Wrote(before, after, w)
    ensures JournalEvolves(before, after)
  {
  }

  lemma WriteRecordsEvolve(before: Db, after: Db, w: Write)
    requires Wrote(before, after, w)
    requires forall s :: s in before.counters ==> s in after.counters && before.counters[s] <= after.counters[s]
    ensures RecordsEvolve(before, after)
  {
  }

  lemma WriteItemsEvolve(before: Db, after: Db, w: Write)
    requires Wrote(before, after, w) && before.events.rows.Keys == before.items.Keys
    requires w.item.id in before.items ==> ItemEvolves(before.items[w.item.id], w.item)
    ensures ItemsEvolve(before, after)
  {
  }

  lemma {:induction false} CaptureEvolves(before: Db, after: Db, input: CaptureInput, call: Call, w: Write)
    requires Inv(before) && WroteCapture(before, after, input, call, w)
    ensures Evolves(before, after)
  {
    WriteJournalEvolves(before, after, w);
    WriteRecordsEvolve(before, after, w);
    WriteItemsEvolve(before, after, w);
  }

  lemma {:induction false} MutateEvolves(before: Db, after: Db, id: ItemId, mutation: Mutation, call: Call, w: Write)
    requires Inv(before) && WroteMutation(before, after, id, mutation, call, w)
    ensures Evolves(before, after)
  {
    AppliedShape(before.items[id], mutation);
    WriteJournalEvolves(before, after, w);
    WriteRecordsEvolve(before, after, w);
    WriteItemsEvolve(before, after, w);
  }

  lemma {:induction false} CaptureStep(db: Db, pinned: StoreState, input: CaptureInput, call: Call)
    requires Good(db)
    ensures var after := Capture(db, pinned, input, call).0; Good(after) && Evolves(db, after)
  {
    var after := Capture(db, pinned, input, call).0;
    var w := CaptureWrites(db, pinned, input, call);
    if after == db {
      EvolvesReflexive(db);
    } else {
      CaptureKeeps(db, after, input, call, w);
      CaptureEvolves(db, after, input, call, w);
    }
  }

  lemma {:induction false} MutateStep(db: Db, pinned: StoreState, id: ItemId, expected: nat, mutation: Mutation,
        call: Call)
    requires Good(db)
    ensures var after := Mutate(db, pinned, id, expected, mutation, call).0; Good(after) && Evolves(db, after)
  {
    var after := Mutate(db, pinned, id, expected, mutation, call).0;
    assert id in db.items ==> ItemOk(id, db.items[id], db.counters);
    var w := MutateWrites(db, pinned, id, expected, mutation, call);
    if after == db {
      EvolvesReflexive(db);
    } else {
      MutateKeeps(db, after, id, mutation, call, w);
      MutateEvolves(db, after, id, mutation, call, w);
    }
  }

  lemma PruneEvolves(db: Db, through: int)
    requires Shaped(db) && db.metadata.floor <= through <= db.metadata.high
    ensures Evolves(db, Pruned(db, through))
  {
  }

  lemma {:induction false} PruneStep(db: Db, generation: string, through: int)
    requires Good(db)
    ensures var after := Prune(db, generation, through).0; Good(after) && Evolves(db, after)
  {
    PruneExact(db, generation, through);
    PruneKeeps(db, generation, through);
    if PruneAllowed(db, generation, through) {
      PruneEvolves(db, through);
    } else {
      EvolvesReflexive(db);
    }
  }

  lemma ActivateEvolves(db: Db)
    requires Shaped(db)
    ensures Evolves(db, db.(metadata := db.metadata.(syncEnabled := true)))
  {
  }

  lemma {:induction false} ActivateStep(db: Db, generation: string)
    requires Good(db)
    ensures var after := Activate(db, generation).0; Good(after) && Evolves(db, after)
  {
    ActivateKeeps(db, generation);
    EvolvesReflexive(db);
    ActivateEvolves(db);
  }

  /** One step of a run: the invariant again; without a restore the state evolves, with one its generation is new. */
  lemma {:induction false} StepKeeps(h: seq<Db>, actions: seq<Action>, i: nat)
    requires |h| == |actions| + 1 && i < |actions| && Steps(h, actions, i)
    requires forall k :: 0 <= k <= i ==> Good(h[k])
    ensures Good(h[i + 1])
    ensures !actions[i].DoRestore? ==> Evolves(h[i], h[i + 1])
    ensures actions[i].DoRestore? ==> forall k :: 0 <= k <= i ==> Generation(h[k]) != Generation(h[i + 1])
  {
    var db := h[i];
    match actions[i]
    case DoCapture(pinned, input, call) => CaptureStep(db, pinned, input, call);
    case DoMutate(pinned, id, expected, mutation, call) => MutateStep(db, pinned, id, expected, mutation, call);
    case DoPrune(generation, through) => PruneStep(db, generation, through);
    case DoActivate(generation) => ActivateStep(db, generation);
    case DoRestore(backup, generation, cookie) =>
      RestoreKeeps(db, backup, generation, cookie);
      forall k | 0 <= k <= i ensures Generation(h[k]) != Generation(h[i + 1]) {
        assert h[..i + 1][k] == h[k];
      }
  }

  // ---- Over whole runs ----

  lemma FreshGood(db: Db)
    requires Fresh(db)
    ensures Good(db)
  {
    FreshOk(db);
  }

  lemma {:induction false} ReachableUpTo(h: seq<Db>, actions: seq<Action>, n: nat)
    requires Run(h, actions) && n <= |actions|
    ensures forall i :: 0 <= i <= n ==> Good(h[i])
  {
    hide Good, Fresh, Steps, Evolves;
    if n == 0 {
      FreshGood(h[0]);
    } else {
      ReachableUpTo(h, actions, n - 1);
      assert Steps(h, actions, n - 1);
      StepKeeps(h, actions, n - 1);
    }
  }

  /** Every reachable state satisfies the invariant, and with it the store's own `validate_journal`. */
  lemma ReachableInv(h: seq<Db>, actions: seq<Action>, i: nat)
    requires Run(h, actions) && i < |h|
    ensures Inv(h[i]) && StateOf(h[i]).Some? && Validate(h[i])
  {
    ReachableUpTo(h, actions, |actions|);
    InvValidates(h[i]);
  }

  lemma ReachableGeneration(h: seq<Db>, actions: seq<Action>, i: nat)
    requires Run(h, actions) && i < |h|
    ensures GenerationOk(Generation(h[i]))
  {
    ReachableInv(h, actions, i);
  }

  lemma RunLength(h: seq<Db>, actions: seq<Action>)
    requires Run(h, actions)
    ensures |h| == |actions| + 1
  {
  }

  /** Every state of every run is one a restore accepts: its own earlier states among them. */
  lemma EarlierStatesRestore(h: seq<Db>, actions: seq<Action>, i: nat, j: nat, generation: string, cookie: int)
    requires Run(h, actions) && i < |h| && j < |h| && GenerationOk(generation)
    requires forall k :: 0 <= k <= j ==> Generation(h[k]) != generation
    ensures Enabled(h[..j + 1], DoRestore(h[i], generation, cookie))
    ensures Restore(h[j], h[i], generation, cookie).1.Pass?
  {
    hide Inv, StateOf, Restore, Run;
    RunLength(h, actions);
    ReachableUpTo(h, actions, |actions|);
    RestoreKeeps(h[j], h[i], generation, cookie);
  }

  /** What one step of a run does, without the invariant behind it. */
  lemma RunStep(h: seq<Db>, actions: seq<Action>, i: nat)
    requires Run(h, actions) && i < |actions|
    ensures !actions[i].DoRestore? ==> Evolves(h[i], h[i + 1])
    ensures actions[i].DoRestore? ==> forall k :: 0 <= k <= i ==> Generation(h[k]) != Generation(h[i + 1])
  {
    ReachableUpTo(h, actions, i);
    assert Steps(h, actions, i);
    StepKeeps(h, actions, i);
  }

  lemma RunReflexive(h: seq<Db>, actions: seq<Action>, i: nat)
    requires Run(h, actions) && i < |h|
    ensures Evolves(h[i], h[i])
  {
    ReachableUpTo(h, actions, i);
    EvolvesReflexive(h[i]);
  }

  /** Two states of one generation: the later evolved from the earlier, whatever ran in between. */
  lemma {:induction false} GenerationEvolves(h: seq<Db>, actions: seq<Action>, i: nat, j: nat)
    requires Run(h, actions) && i <= j < |h|
    requires Generation(h[i]) == Generation(h[j])
    ensures Evolves(h[i], h[j])
    ensures forall k :: i <= k <= j ==> Generation(h[k]) == Generation(h[i])
    decreases j
  {
    if i == j {
      RunReflexive(h, actions, i);
    } else {
      RunStep(h, actions, j - 1);
      GenerationEvolves(h, actions, i, j - 1);
      EvolvesTransitive(h[i], h[j - 1], h[j]);
    }
  }

  /** Generation, item and revision determine the item: the fact every cached projection relies on. */
  lemma RevisionDeterminesItem(h: seq<Db>, actions: seq<Action>, i: nat, j: nat, id: ItemId)
    requires Run(h, actions) && i < |h| && j < |h| && id in h[i].items && id in h[j].items
    requires Generation(h[i]) == Generation(h[j]) && h[i].items[id].revision == h[j].items[id].revision
    ensures h[i].items[id] == h[j].items[id]
  {
    if i <= j {
      ItemPersists(h, actions, i, j, id);
    } else {
      ItemPersists(h, actions, j, i, id);
    }
  }

  /** Once done or rejected, an item's status, reason, priority and assignee never change again in its generation. */
  lemma TerminalFrozen(h: seq<Db>, actions: seq<Action>, i: nat, j: nat, id: ItemId)
    requires Run(h, actions) && i <= j < |h| && id in h[i].items
    requires h[i].items[id].status.Done? || h[i].items[id].status.Rejected?
    requires Generation(h[i]) == Generation(h[j])
    ensures id in h[j].items
    ensures h[j].items[id] == h[i].items[id].(revision := h[j].items[id].revision,
        updatedAt := h[j].items[id].updatedAt)
  {
    ItemPersists(h, actions, i, j, id);
  }

  // ---- Exactly-once effects ----

  function CallOf(action: Action): Option<Call> {
    match action
    case DoCapture(_, _, call) => Some(call)
    case DoMutate(_, _, _, _, call) => Some(call)
    case _ => None
  }

  function AnswerOf(db: Db, action: Action): Result<Answer, WriteError>
    requires CallOf(action).Some?
  {
    match action
    case DoCapture(pinned, input, call) => Capture(db, pinned, input, call).1
    case DoMutate(pinned, id, expected, mutation, call) => Mutate(db, pinned, id, expected, mutation, call).1
  }

  /**
   What a write answers once its key has a receipt: restart, conflict, or a replay. A replayed mutation answers with
   the item as it is now; a replayed capture with the item as first captured, rebuilt from the request.
   */
  predicate SettledAnswer(db: Db, action: Action, receipt: Receipt)
    requires CallOf(action).Some?
  {
    var r := AnswerOf(db, action);
    if StateOf(db) != Some(action.pinned) then r == Err(RestartRequired)
    else if CallOf(action).value.digest != receipt.digest then r == Err(IdempotencyConflict)
    else
      && r.Ok? && r.value.replayed
      && receipt.item in db.items
      && (action.DoMutate? ==> r.value.item == db.items[receipt.item] && r.value.item.id == receipt.item)
      && (action.DoCapture? ==>
            r.value.item == Item(ItemId(action.input.requester, action.input.project, receipt.item.sequence),
                                 action.input.content, Proposed, None, None, None, 1,
                                 db.items[receipt.item].capturedAt, db.items[receipt.item].capturedAt,
                                 action.input.provenance))
  }

  lemma ReceiptSettles(db: Db, action: Action)
    requires ReceiptsOk(db) && OperationsOk(db) && ItemsOk(db)
    requires CallOf(action).Some? && CallOf(action).value.key in db.receipts
    ensures SettledAnswer(db, action, db.receipts[CallOf(action).value.key])
    ensures Next(db, action) == db
  {
    var receipt := db.receipts[CallOf(action).value.key];
    assert receipt.operation in db.operations;
    assert ItemOk(receipt.item, db.items[receipt.item], db.counters);
  }

  /** An effective write leaves a receipt for its key. */
  lemma {:induction false} EffectLeavesReceipt(db: Db, action: Action)
    requires Inv(db) && CallOf(action).Some?
    ensures var after := Next(db, action);
            after != db ==> CallOf(action).value.key in after.receipts
                            && after.receipts[CallOf(action).value.key].digest == CallOf(action).value.digest
                            && AnswerOf(db, action).Ok?
                            && after.receipts[CallOf(action).value.key].item == AnswerOf(db, action).value.item.id
  {
    match action
    case DoCapture(pinned, input, call) =>
      var w := CaptureWrites(db, pinned, input, call);
    case DoMutate(pinned, id, expected, mutation, call) =>
      assert id in db.items ==> ItemOk(id, db.items[id], db.counters);
      var w := MutateWrites(db, pinned, id, expected, mutation, call);
  }

  lemma ReceiptPersists(h: seq<Db>, actions: seq<Action>, i: nat, j: nat, key: string)
    requires Run(h, actions) && i <= j < |h| && Generation(h[i]) == Generation(h[j]) && key in h[i].receipts
    ensures key in h[j].receipts && h[j].receipts[key] == h[i].receipts[key]
  {
    GenerationEvolves(h, actions, i, j);
  }

  lemma WriteStep(h: seq<Db>, actions: seq<Action>, i: nat)
    requires Run(h, actions) && i < |actions| && CallOf(actions[i]).Some?
    ensures h[i + 1] == Next(h[i], actions[i])
  {
    assert Steps(h, actions, i);
  }

  lemma RunEffect(h: seq<Db>, actions: seq<Action>, i: nat)
    requires Run(h, actions) && i < |actions| && CallOf(actions[i]).Some? && h[i + 1] != h[i]
    ensures var call := CallOf(actions[i]).value;
            && call.key in h[i + 1].receipts && h[i + 1].receipts[call.key].digest == call.digest
            && AnswerOf(h[i], actions[i]).Ok?
            && h[i + 1].receipts[call.key].item == AnswerOf(h[i], actions[i]).value.item.id
  {
    hide Inv, Validate;
    ReachableInv(h, actions, i);
    WriteStep(h, actions, i);
    EffectLeavesReceipt(h[i], actions[i]);
  }

  lemma ReachableReceipts(h: seq<Db>, actions: seq<Action>, i: nat)
    requires Run(h, actions) && i < |h|
    ensures ReceiptsOk(h[i]) && OperationsOk(h[i]) && ItemsOk(h[i])
  {
    ReachableUpTo(h, actions, i);
    assert Good(h[i]);
  }

  lemma RunSettled(h: seq<Db>, actions: seq<Action>, j: nat)
    requires Run(h, actions) && j < |actions| && CallOf(actions[j]).Some?
    requires CallOf(actions[j]).value.key in h[j].receipts
    ensures h[j + 1] == h[j] && SettledAnswer(h[j], actions[j], h[j].receipts[CallOf(actions[j]).value.key])
  {
    ReachableReceipts(h, actions, j);
    WriteStep(h, actions, j);
    ReceiptSettles(h[j], actions[j]);
  }

  /** One key commits at most once per generation: every later use of it changes nothing and gets a settled answer. */
  lemma KeyCommitsOnce(h: seq<Db>, actions: seq<Action>, i: nat, j: nat)
    requires Run(h, actions) && i < j < |actions|
    requires CallOf(actions[i]).Some? && CallOf(actions[j]).Some?
    requires CallOf(actions[i]).value.key == CallOf(actions[j]).value.key
    requires h[i + 1] != h[i] && Generation(h[i + 1]) == Generation(h[j])
    ensures h[j + 1] == h[j]
    ensures var key := CallOf(actions[i]).value.key;
            && key in h[i + 1].receipts && h[i + 1].receipts[key].digest == CallOf(actions[i]).value.digest
            && AnswerOf(h[i], actions[i]).Ok?
            && h[i + 1].receipts[key].item == AnswerOf(h[i], actions[i]).value.item.id
            && SettledAnswer(h[j], actions[j], h[i + 1].receipts[key])
  {
    RunEffect(h, actions, i);
    ReceiptPersists(h, actions, i + 1, j, CallOf(actions[i]).value.key);
    RunSettled(h, actions, j);
  }

  lemma RunNoOp(h: seq<Db>, actions: seq<Action>, i: nat)
    requires Run(h, actions) && i < |actions| && actions[i].DoMutate? && h[i + 1] == h[i]
    requires AnswerOf(h[i], actions[i]).Ok? && !AnswerOf(h[i], actions[i]).value.replayed
    ensures actions[i].id in h[i].items && h[i].items[actions[i].id].revision == actions[i].expected
    ensures Applied(h[i].items[actions[i].id], actions[i].mutation) == Ok((h[i].items[actions[i].id], []))
    ensures AnswerOf(h[i], actions[i]) == Ok(Answer(h[i].items[actions[i].id], false))
    ensures StateOf(h[i]) == Some(actions[i].pinned)
  {
    ReachableUpTo(h, actions, i);
    assert Steps(h, actions, i);
    NoOpIsNoOp(h[i], actions[i]);
  }

  lemma ItemPersists(h: seq<Db>, actions: seq<Action>, i: nat, j: nat, id: ItemId)
    requires Run(h, actions) && i <= j < |h| && Generation(h[i]) == Generation(h[j]) && id in h[i].items
    ensures id in h[j].items && ItemEvolves(h[i].items[id], h[j].items[id]) && StateOf(h[j]) == StateOf(h[i])
  {
    GenerationEvolves(h, actions, i, j);
  }

  /** The same request again: clock, operation and event ids, actor and execution are drawn afresh. */
  predicate Retries(first: Action, again: Action) {
    && first.DoMutate? && again.DoMutate?
    && again.pinned == first.pinned && again.id == first.id && again.expected == first.expected
    && again.mutation == first.mutation
    && again.call.key == first.call.key && again.call.digest == first.call.digest
  }

  /** A no-op leaves no receipt; retried in its generation it is the same no-op, a version conflict, or settled. */
  lemma NoOpRetry(h: seq<Db>, actions: seq<Action>, i: nat, j: nat)
    requires Run(h, actions) && i < j < |actions|
    requires Retries(actions[i], actions[j])
    requires AnswerOf(h[i], actions[i]).Ok? && !AnswerOf(h[i], actions[i]).value.replayed && h[i + 1] == h[i]
    requires Generation(h[i]) == Generation(h[j])
    ensures h[j + 1] == h[j]
    ensures var r := AnswerOf(h[j], actions[j]);
            if actions[i].call.key in h[j].receipts then
              SettledAnswer(h[j], actions[j], h[j].receipts[actions[i].call.key])
            else r == AnswerOf(h[i], actions[i]) || r == Err(VersionConflict)
  {
    RunNoOp(h, actions, i);
    ItemPersists(h, actions, i, j, actions[i].id);
    if actions[i].call.key in h[j].receipts {
      RunSettled(h, actions, j);
    } else {
      assert Steps(h, actions, j);
    }
  }

  lemma {:induction false} NoOpIsNoOp(db: Db, action: Action)
    requires Inv(db) && action.DoMutate?
    requires AnswerOf(db, action).Ok? && !AnswerOf(db, action).value.replayed && Next(db, action) == db
    ensures action.id in db.items && db.items[action.id].revision == action.expected
    ensures Applied(db.items[action.id], action.mutation) == Ok((db.items[action.id], []))
    ensures AnswerOf(db, action) == Ok(Answer(db.items[action.id], false))
  {
    hide JournalOk, OperationsOk, ReceiptsOk, HistoriesOk, MutationRows, Committed;
    assert action.id in db.items ==> ItemOk(action.id, db.items[action.id], db.counters);
    AppliedShape(db.items[action.id], action.mutation);
    var applied := Applied(db.items[action.id], action.mutation);
    if applied.value.1 != [] {
      CommittedChanges(db, action);
    }
  }

  lemma {:induction false} CommittedChanges(db: Db, action: Action)
    requires Inv(db) && action.DoMutate? && StateOf(db) == Some(action.pinned) && action.call.key !in db.receipts
    requires action.id in db.items && db.items[action.id].revision == action.expected
    requires Applied(db.items[action.id], action.mutation).Ok?
        && Applied(db.items[action.id], action.mutation).value.1 != []
    requires AnswerOf(db, action).Ok?
    ensures Next(db, action) != db
  {
    var (item, events) := Applied(db.items[action.id], action.mutation).value;
    var stamped := item.(updatedAt := action.call.at);
    var reason := MutationReason(action.mutation);
    var rows := MutationRows(db, stamped, action.expected, action.call, events, reason);
    assert rows.Some?;
    MutationRowsShape(db, stamped, action.expected, action.call, events, reason);
    AppendedShape(rows.value, action.call.operation);
    assert |Next(db, action).journal| == |db.journal| + 1;
  }

  /** A handle pinned before a generation change neither commits nor replays, however long the run goes on. */
  lemma PinnedBeforeRestore(h: seq<Db>, actions: seq<Action>, i: nat, k: nat, j: nat)
    requires Run(h, actions) && i < k <= j < |actions|
    requires Generation(h[k]) != Generation(h[i])
    requires CallOf(actions[j]).Some? && StateOf(h[i]) == Some(actions[j].pinned)
    ensures h[j + 1] == h[j] && AnswerOf(h[j], actions[j]) == Err(RestartRequired)
  {
    assert Steps(h, actions, j);
    if Generation(h[j]) == Generation(h[i]) {
      GenerationEvolves(h, actions, i, j);
    }
  }
}
