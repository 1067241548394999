/** What an idempotency key guarantees end to end: payload bytes, digest, receipt and run taken together. */
module Retries {
  import opened Wrappers
  import opened Bytes
  import opened Identifiers
  import opened Domain
  import opened Ledger
  import opened LedgerInvariants
  import opened Runs
  import opened Payloads

  function RequestOf(action: Action): MutationRequest
    requires action.DoMutate?
  {
    MutationRequest(action.id, action.expected, action.mutation, action.call.actor, action.call.execution)
  }

  /** The call carries the digest of its own typed request. */
  predicate Hashed(action: Action) {
    match action
    case DoCapture(_, input, call) =>
      SizedCapture(input) && Canonical(Upper, input.requester) && call.digest == Sha256(CaptureBytes(input))
    case DoMutate(_, id, _, _, call) =>
      SizedMutation(RequestOf(action)) && id.Valid() && call.digest == Sha256(MutationBytes(RequestOf(action)))
    case _ => false
  }

  /** The same request, up to clearing against assigning `clear`. */
  predicate SameRequest(a: Action, b: Action) {
    if a.DoCapture? && b.DoCapture? then a.input == b.input
    else if a.DoMutate? && b.DoMutate? then CollapsedRequest(RequestOf(a)) == CollapsedRequest(RequestOf(b))
    else false
  }

  lemma {:induction false} DigestDecides(a: Action, b: Action)
    requires Hashed(a) && Hashed(b)
    ensures CallOf(a).value.digest == CallOf(b).value.digest <==> SameRequest(a, b)
  {
    hide Canonical, SizedCapture, SizedMutation, CaptureBytes, MutationBytes;
    if a.DoCapture? && b.DoCapture? {
      CaptureBytesInjective(a.input, b.input);
    } else if a.DoMutate? && b.DoMutate? {
      MutationBytesExact(RequestOf(a), RequestOf(b));
    } else if a.DoCapture? {
      CaptureIsNoMutation(a.input, RequestOf(b));
    } else {
      CaptureIsNoMutation(b.input, RequestOf(a));
    }
  }

  lemma CaptureAnswer(db: Db, action: Action)
    requires action.DoCapture? && AnswerOf(db, action).Ok?
    ensures var item := AnswerOf(db, action).value.item;
            && item.id == ItemId(action.input.requester, action.input.project, item.id.sequence)
            && item == CapturedItem(item.id, action.input.content, action.input.provenance, item.capturedAt)
  {
    hide CaptureRows, Appended, StateOf;
  }

  /** A committed capture answers with the item it stored. */
  lemma EffectStoresAnswer(db: Db, action: Action)
    requires action.DoCapture? && Runs.Next(db, action) != db
    ensures AnswerOf(db, action).Ok?
    ensures var item := AnswerOf(db, action).value.item;
            item.id in Runs.Next(db, action).items && Runs.Next(db, action).items[item.id] == item
  {
    hide Capture;
    var w := CaptureWrites(db, action.pinned, action.input, action.call);
  }

  lemma StoredCapture(h: seq<Db>, actions: seq<Action>, i: nat, j: nat)
    requires Run(h, actions) && i < j < |h| && i < |actions| && actions[i].DoCapture? && h[i + 1] != h[i]
    requires Generation(h[i + 1]) == Generation(h[j])
    ensures AnswerOf(h[i], actions[i]).Ok?
    ensures var item := AnswerOf(h[i], actions[i]).value.item;
            item.id in h[j].items && h[j].items[item.id].capturedAt == item.capturedAt
  {
    hide AnswerOf, Runs.Next, Steps, StateOf;
    WriteStep(h, actions, i);
    EffectStoresAnswer(h[i], actions[i]);
    ItemPersists(h, actions, i + 1, j, AnswerOf(h[i], actions[i]).value.item.id);
  }

  /** `Capture` on a receipted key: the item rebuilt from the request and the stored sequence and time. */
  lemma CaptureReplay(db: Db, action: Action)
    requires action.DoCapture? && AnswerOf(db, action).Ok? && action.call.key in db.receipts
    ensures db.receipts[action.call.key].item in db.items
    ensures AnswerOf(db, action).value.item.capturedAt == db.items[db.receipts[action.call.key].item].capturedAt
  {
    hide StateOf;
  }

  /**
   One key, one operation, over any interleaving. After a write committed under a key, any later use of that key in
   the generation changes nothing, and its answer is decided by the requests alone: a stale handle must restart, a
   different request conflicts, a repeated mutation gets the item as it now is, and a repeated capture gets back exactly
   the item first returned, whatever has happened to it since.
   */
  lemma {:induction false} RetryDecided(h: seq<Db>, actions: seq<Action>, i: nat, j: nat)
    requires Run(h, actions) && i < j < |actions| && Hashed(actions[i]) && Hashed(actions[j])
    requires CallOf(actions[i]).value.key == CallOf(actions[j]).value.key
    requires h[i + 1] != h[i] && Generation(h[i + 1]) == Generation(h[j])
    ensures h[j + 1] == h[j]
    ensures AnswerOf(h[i], actions[i]).Ok?
    ensures var first := AnswerOf(h[i], actions[i]).value.item;
            var r := AnswerOf(h[j], actions[j]);
            if StateOf(h[j]) != Some(actions[j].pinned) then r == Err(RestartRequired)
            else if !SameRequest(actions[i], actions[j]) then r == Err(IdempotencyConflict)
            else
              && r.Ok? && r.value.replayed && r.value.item.id == first.id
              && (actions[j].DoMutate? ==> first.id in h[j].items && r.value.item == h[j].items[first.id])
              && (actions[j].DoCapture? ==> r.value.item == first)
  {
    hide AnswerOf, StateOf, Steps, Hashed, SameRequest;
    Calls(actions[i], actions[j]);
    KeyCommitsOnce(h, actions, i, j);
    DigestDecides(actions[i], actions[j]);
    if StateOf(h[j]) == Some(actions[j].pinned) && SameRequest(actions[i], actions[j]) && actions[j].DoCapture? {
      SameKind(actions[i], actions[j]);
      CaptureAnswer(h[i], actions[i]);
      CaptureAnswer(h[j], actions[j]);
      ReplayKeepsTime(h, actions, i, j);
    }
  }

  lemma {:induction false} Calls(a: Action, b: Action)
    requires Hashed(a) && Hashed(b)
    ensures CallOf(a).Some? && CallOf(b).Some?
  {
  }

  lemma SameKind(a: Action, b: Action)
    requires SameRequest(a, b) && b.DoCapture?
    ensures a.DoCapture? && a.input == b.input
  {
  }

  lemma {:induction false} ReplayKeepsTime(h: seq<Db>, actions: seq<Action>, i: nat, j: nat)
    requires Run(h, actions) && i < j < |actions| && actions[i].DoCapture? && actions[j].DoCapture?
    requires actions[i].call.key == actions[j].call.key
    requires h[i + 1] != h[i] && Generation(h[i + 1]) == Generation(h[j])
    requires AnswerOf(h[i], actions[i]).Ok? && AnswerOf(h[j], actions[j]).Ok?
    ensures AnswerOf(h[j], actions[j]).value.item.capturedAt == AnswerOf(h[i], actions[i]).value.item.capturedAt
  {
    hide AnswerOf, Steps, StateOf;
    StoredCapture(h, actions, i, j);
    RunEffect(h, actions, i);
    ReceiptPersists(h, actions, i + 1, j, actions[i].call.key);
    CaptureReplay(h[j], actions[j]);
  }
}
