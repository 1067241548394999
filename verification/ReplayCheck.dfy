/**
 The repository's own replay oracle, and exactly which stored histories it accepts: those with one event per
 revision in which the stored form of the assignee `null` never hides a change.
 */
module ReplayCheck {
  import opened Wrappers
  import opened Text
  import opened Identifiers
  import opened Domain
  import opened Ledger
  import opened LedgerInvariants
  import opened Runs
  import opened History

  // ---- The oracle ----

  function FieldOf<T>(value: Option<T>): TriageField<T> {
    if value.Some? then Set(value.value) else Clear
  }

  function OnlyLifecycle(lifecycle: Lifecycle): Option<Mutation> {
    Some(Mutation(Some(lifecycle), None))
  }

  function OnlyTriage(triage: Triage): Option<Mutation> {
    Some(Mutation(None, Some(triage)))
  }

  /** `mutation_for`: the request that would have produced the event. */
  function MutationFor(e: HistoryEvent): Option<Mutation> {
    match e.kind
    case Captured => None
    case Approved => OnlyLifecycle(Approve)
    case Rejected => if e.reason.None? then None else OnlyLifecycle(Reject(e.reason.value))
    case Started => OnlyLifecycle(Start)
    case Blocked => if e.reason.None? then None else OnlyLifecycle(Block(e.reason.value))
    case Resumed => OnlyLifecycle(Resume)
    case Finished => OnlyLifecycle(Finish)
    case PriorityChanged =>
      if e.after.Some? && e.after.value.PriorityValue? then
        OnlyTriage(Triage(FieldOf(e.after.value.priority), Omitted, None))
      else None
    case AssigneeChanged =>
      if e.after.Some? && e.after.value.AssigneeValue? then
        OnlyTriage(Triage(Omitted, FieldOf(e.after.value.assignee), None))
      else None
    case NoteAdded => if e.note.None? then None else OnlyTriage(Triage(Omitted, Omitted, e.note))
  }

  function ReplayAfter(e: HistoryEvent): Option<EventValue> {
    if !e.kind.NoteAdded? then e.after
    else if e.note.Some? then Some(NoteValue(e.note.value))
    else None
  }

  predicate Matches(produced: seq<DomainEvent>, e: HistoryEvent) {
    && |produced| == 1
    && produced[0] == DomainEvent(e.kind, e.revision, e.before, ReplayAfter(e))
  }

  function Checked(item: Item, e: HistoryEvent): Option<Item> {
    var mutation := MutationFor(e);
    if mutation.None? then None
    else
      var applied := Applied(item, mutation.value);
      if applied.Err? || !Matches(applied.value.1, e) then None else Some(applied.value.0)
  }

  function Replayed(item: Item, events: seq<HistoryEvent>): Option<Item>
    decreases |events|
  {
    if events == [] then Some(item)
    else
      var next := Checked(item, events[0]);
      if next.None? then None else Replayed(next.value, events[1..])
  }

  predicate CaptureEventOk(e: HistoryEvent) {
    e.kind.Captured? && e.revision == 1 && e.before.None? && e.after.None?
  }

  function Initial(stored: Item): Item {
    CapturedItem(stored.id, stored.content, stored.provenance, stored.capturedAt).(updatedAt := stored.updatedAt)
  }

  predicate Accepts(stored: Item, events: seq<HistoryEvent>) {
    events != [] && CaptureEventOk(events[0]) && Replayed(Initial(stored), events[1..]) == Some(stored)
  }

  lemma {:induction false} ReplayedStep(item: Item, events: seq<HistoryEvent>, n: nat)
    requires n < |events|
    ensures Replayed(item, events[..n + 1]) ==
            if Replayed(item, events[..n]).None? then None else Checked(Replayed(item, events[..n]).value, events[n])
    decreases n
  {
    var prefix := events[..n + 1];
    if n == 0 {
      assert prefix[1..] == [] && events[..0] == [];
    } else {
      assert prefix[1..] == events[1..][..n] && events[..n][1..] == events[1..][..n - 1];
      var next := Checked(item, events[0]);
      if next.Some? {
        ReplayedStep(next.value, events[1..], n - 1);
      }
    }
  }

  lemma {:induction false} ReplayedStops(item: Item, events: seq<HistoryEvent>, n: nat)
    requires n <= |events| && Replayed(item, events[..n]).None?
    ensures Replayed(item, events).None?
    decreases |events| - n
  {
    if n == |events| {
      assert events[..n] == events;
    } else {
      ReplayedStep(item, events, n);
      ReplayedStops(item, events, n + 1);
    }
  }

  lemma CheckedNumber(item: Item, e: HistoryEvent)
    requires Checked(item, e).Some?
    ensures !e.kind.Captured? && e.revision == item.revision + 1 == Checked(item, e).value.revision
  {
    hide Applied;
    AppliedShape(item, MutationFor(e).value);
  }

  lemma {:induction false} ReplayedNumbers(item: Item, events: seq<HistoryEvent>)
    requires Replayed(item, events).Some?
    ensures Replayed(item, events).value.revision == item.revision + |events|
    ensures forall i :: 0 <= i < |events| ==> !events[i].kind.Captured? && events[i].revision == item.revision + 1 + i
    decreases |events|
  {
    hide Checked;
    if events != [] {
      CheckedNumber(item, events[0]);
      ReplayedNumbers(Checked(item, events[0]).value, events[1..]);
      assert forall i :: 1 <= i < |events| ==> events[i] == events[1..][i - 1];
    }
  }

  /**
   Whatever history the oracle accepts starts with one capture that has no values, continues without another, and
   numbers its events 1, 2, 3, ... up to the revision of the stored item.
   */
  lemma AcceptedNumbers(stored: Item, events: seq<HistoryEvent>)
    requires Accepts(stored, events)
    ensures |events| == stored.revision
    ensures forall i :: 0 <= i < |events| ==>
              events[i].revision == i + 1 && (events[i].kind.Captured? <==> i == 0)
    ensures events[0].before == None && events[0].after == None
  {
    hide Replayed;
    ReplayedNumbers(Initial(stored), events[1..]);
    assert forall i :: 1 <= i < |events| ==> events[i] == events[1..][i - 1];
  }

  /** One item of `verify_replays`: the loop that mutates the replayed item event by event. */
  method VerifyReplay(stored: Item, history: seq<HistoryEvent>) returns (ok: bool)
    ensures ok <==> Accepts(stored, history)
  {
    if history == [] || !CaptureEventOk(history[0]) {
      return false;
    }
    var rest := history[1..];
    var replayed := new ItemObject(Initial(stored));
    for i := 0 to |rest|
      invariant fresh(replayed)
      invariant Replayed(Initial(stored), rest[..i]) == Some(replayed.Value())
    {
      ReplayedStep(Initial(stored), rest, i);
      var mutation := MutationFor(rest[i]);
      if mutation.None? {
        ReplayedStops(Initial(stored), rest, i + 1);
        return false;
      }
      var produced := replayed.ApplyMutation(mutation.value);
      if produced.Err? || |produced.value| != 1
         || produced.value[0] != DomainEvent(rest[i].kind, rest[i].revision, rest[i].before, ReplayAfter(rest[i])) {
        ReplayedStops(Initial(stored), rest, i + 1);
        return false;
      }
    }
    assert rest[..|rest|] == rest;
    return replayed.Value() == stored;
  }

  // ---- What it accepts ----

  /** A change between no assignee and the assignee named `null`, which the stored text cannot show. */
  predicate NullSwap(e: DomainEvent) {
    || (e.before == Some(AssigneeValue(None)) && e.after == Some(AssigneeValue(Some("null"))))
    || (e.before == Some(AssigneeValue(Some("null"))) && e.after == Some(AssigneeValue(None)))
  }

  function Retracked(item: Item, t: Tracked): Item {
    item.(status := t.status, priority := t.priority, assignee := t.assignee, statusReason := t.reason,
          revision := t.revision)
  }

  lemma EraseEqual(a: Option<string>, b: Option<string>)
    ensures Erase(a) == Erase(b) <==> a == b || (a.None? && b == Some("null")) || (a == Some("null") && b.None?)
  {
  }

  predicate CheckedAs(item: Item, t: Tracked, row: EventRow)
    requires Follows(t, row.audited)
  {
    var next := Checked(item, Loaded(row));
    && (next.Some? <==> row.audited.event.revision == t.revision + 1 && !NullSwap(row.audited.event))
    && (next.Some? ==> next.value == Retracked(item, EraseTracked(After(t, row.audited))))
  }

  lemma CheckedLifecycle(item: Item, t: Tracked, row: EventRow)
    requires Follows(t, row.audited) && Track(item) == EraseTracked(t) && item.revision < U64_MAX
    requires var k := row.audited.event.kind; !k.PriorityChanged? && !k.AssigneeChanged? && !k.NoteAdded?
    ensures CheckedAs(item, t, row)
  {
  }

  lemma CheckedPriority(item: Item, t: Tracked, row: EventRow)
    requires Follows(t, row.audited) && Track(item) == EraseTracked(t) && item.revision < U64_MAX
    requires row.audited.event.kind.PriorityChanged?
    ensures CheckedAs(item, t, row)
  {
  }

  lemma CheckedAssignee(item: Item, t: Tracked, row: EventRow)
    requires Follows(t, row.audited) && Track(item) == EraseTracked(t) && item.revision < U64_MAX
    requires row.audited.event.kind.AssigneeChanged?
    ensures CheckedAs(item, t, row)
  {
  }

  lemma CheckedNote(item: Item, t: Tracked, row: EventRow)
    requires Follows(t, row.audited) && Track(item) == EraseTracked(t) && item.revision < U64_MAX
    requires row.audited.event.kind.NoteAdded?
    ensures CheckedAs(item, t, row)
  {
  }

  /** One event passes exactly when it opens a new revision and is no hidden change. */
  lemma CheckedExact(item: Item, t: Tracked, row: EventRow)
    requires Follows(t, row.audited) && Track(item) == EraseTracked(t) && item.revision < U64_MAX
    ensures var next := Checked(item, Loaded(row));
            && (next.Some? <==> row.audited.event.revision == t.revision + 1 && !NullSwap(row.audited.event))
            && (next.Some? ==> next.value == Retracked(item, EraseTracked(After(t, row.audited))))
  {
    hide Follows, After, Checked, Loaded, NullSwap, Retracked, EraseTracked;
    match row.audited.event.kind
    case PriorityChanged => CheckedPriority(item, t, row);
    case AssigneeChanged => CheckedAssignee(item, t, row);
    case NoteAdded => CheckedNote(item, t, row);
    case _ => CheckedLifecycle(item, t, row);
  }

  lemma {:induction false} ReplayAdvances(t: Tracked, rows: seq<Audited>)
    requires Replay(t, rows).Some?
    ensures t.revision <= Replay(t, rows).value.revision <= t.revision + |rows|
    decreases |rows|
  {
    if rows != [] {
      ReplayAdvances(After(t, rows[0]), rows[1..]);
    }
  }

  predicate NoNullSwap(rows: seq<EventRow>) {
    forall i :: 0 <= i < |rows| ==> !NullSwap(rows[i].audited.event)
  }

  lemma {:induction false} ReplayedExact(item: Item, t: Tracked, rows: seq<EventRow>)
    requires Replay(t, AuditedRows(rows)).Some? && Replay(t, AuditedRows(rows)).value.revision < U64_MAX
    requires Track(item) == EraseTracked(t)
    ensures var end := Replay(t, AuditedRows(rows)).value;
            var r := Replayed(item, LoadedRows(rows));
            && (r.Some? <==> end.revision == t.revision + |rows| && NoNullSwap(rows))
            && (r.Some? ==> r.value == Retracked(item, EraseTracked(end)))
    decreases |rows|
  {
    ReplayAdvances(t, AuditedRows(rows));
    if rows != [] {
      assert AuditedRows(rows)[1..] == AuditedRows(rows[1..]);
      assert LoadedRows(rows)[1..] == LoadedRows(rows[1..]);
      var after := After(t, rows[0].audited);
      ReplayAdvances(after, AuditedRows(rows[1..]));
      CheckedExact(item, t, rows[0]);
      assert NoNullSwap(rows) <==> !NullSwap(rows[0].audited.event) && NoNullSwap(rows[1..]) by {
        assert forall i :: 1 <= i < |rows| ==> rows[i] == rows[1..][i - 1];
      }
      var next := Checked(item, Loaded(rows[0]));
      if next.Some? {
        ReplayedExact(next.value, after, rows[1..]);
      }
    }
  }

  /**
   The oracle accepts a reachable item exactly when no revision has more than one event, no event swaps none and
   the assignee `null`, and the present assignee is not `null`.
   */
  lemma OracleExact(rows: seq<EventRow>, item: Item, operations: map<string, Operation>)
    requires HistoryOf(rows, item, operations) && item.revision <= I64_MAX
    ensures Accepts(item, LoadedRows(rows)) <==>
            |rows| == item.revision && NoNullSwap(rows[1..]) && item.assignee != Some("null")
  {
    var events := LoadedRows(rows);
    assert events[1..] == LoadedRows(rows[1..]);
    assert CaptureEventOk(events[0]);
    ReplayedExact(Initial(item), CAPTURED_STATE, rows[1..]);
    EraseEqual(item.assignee, item.assignee);
    assert Retracked(Initial(item), EraseTracked(Track(item))) == item <==> item.assignee != Some("null");
  }

  /** Every reachable item: what the oracle says about its stored rows. */
  lemma ReachableOracle(h: seq<Db>, actions: seq<Action>, i: nat, id: ItemId)
    requires Run(h, actions) && i < |h| && id in h[i].items
    ensures id in h[i].events.rows && h[i].events.rows[id] != []
    ensures var rows := h[i].events.rows[id];
            Accepts(h[i].items[id], LoadedRows(rows)) <==>
              |rows| == h[i].items[id].revision && NoNullSwap(rows[1..]) && h[i].items[id].assignee != Some("null")
  {
    ReachableHistory(h, actions, i, id);
    OracleExact(h[i].events.rows[id], h[i].items[id], h[i].operations);
  }
}
