/**
 The audit history as it is stored and read back: text columns, their decoding, the fold of the decoded events,
 and the repository's own replay check.
 */
module History {
  import opened Wrappers
  import opened Text
  import opened Identifiers
  import opened Domain
  import opened Ledger
  import opened LedgerInvariants
  import opened Runs

  // ---- Columns ----

  function StatusText(status: Status): string {
    match status
    case Proposed => "proposed"
    case Ready => "ready"
    case InProgress => "in_progress"
    case Blocked => "blocked"
    case Done => "done"
    case Rejected => "rejected"
  }

  function ParseStatus(s: string): Option<Status> {
    if s == "proposed" then Some(Proposed)
    else if s == "ready" then Some(Ready)
    else if s == "in_progress" then Some(InProgress)
    else if s == "blocked" then Some(Status.Blocked)
    else if s == "done" then Some(Done)
    else if s == "rejected" then Some(Status.Rejected)
    else None
  }

  function PriorityText(priority: Priority): string {
    match priority
    case P0 => "P0"
    case P1 => "P1"
    case P2 => "P2"
    case P3 => "P3"
    case P4 => "P4"
  }

  function ParsePriority(s: string): Option<Priority> {
    if s == "P0" then Some(P0)
    else if s == "P1" then Some(P1)
    else if s == "P2" then Some(P2)
    else if s == "P3" then Some(P3)
    else if s == "P4" then Some(P4)
    else None
  }

  /** `event_value`: no assignee and an assignee named `null` are written alike. */
  function ValueText(value: EventValue): string {
    match value
    case StatusValue(status) => StatusText(status)
    case PriorityValue(priority) => if priority.Some? then PriorityText(priority.value) else "null"
    case AssigneeValue(assignee) => if assignee.Some? then assignee.value else "null"
    case NoteValue(note) => note
  }

  /** `parse_history_value`: the outer None is invalid persisted data. */
  function ParseValue(kind: EventType, text: Option<string>): Option<Option<EventValue>> {
    if text.None? then Some(None)
    else
      match kind
      case Captured => None
      case Approved | Rejected | Started | Blocked | Resumed | Finished =>
        var status := ParseStatus(text.value);
        if status.None? then None else Some(Some(StatusValue(status.value)))
      case PriorityChanged =>
        if text.value == "null" then Some(Some(PriorityValue(None)))
        else
          var priority := ParsePriority(text.value);
          if priority.None? then None else Some(Some(PriorityValue(priority)))
      case AssigneeChanged =>
        if text.value == "null" then Some(Some(AssigneeValue(None)))
        else
          var assignee := Normalized(Lower, text.value);
          if assignee.None? then None else Some(Some(AssigneeValue(assignee)))
      case NoteAdded => Some(Some(NoteValue(text.value)))
  }

  /** The columns of an `events` row that carry the domain event. */
  datatype Columns = Columns(
    revision: int, index: int, kind: EventType, before: Option<string>, after: Option<string>,
    reason: Option<string>, note: Option<string>)

  datatype HistoryEvent = HistoryEvent(
    revision: nat, index: nat, kind: EventType, before: Option<EventValue>, after: Option<EventValue>,
    reason: Option<string>, note: Option<string>)

  function TextOf(value: Option<EventValue>): Option<string> {
    if value.None? then None else Some(ValueText(value.value))
  }

  function NoteOf(event: DomainEvent): Option<string> {
    if event.after.Some? && event.after.value.NoteValue? then Some(event.after.value.note) else None
  }

  /** `insert_mutation_event`. */
  function ColumnsOf(row: EventRow): Columns {
    var event := row.audited.event;
    Columns(event.revision, row.index, event.kind, TextOf(event.before), TextOf(event.after), row.audited.reason,
            NoteOf(event))
  }

  /** `history_event`, as far as it decodes these columns. */
  function Decoded(c: Columns): Option<HistoryEvent> {
    var before, after := ParseValue(c.kind, c.before), ParseValue(c.kind, c.after);
    if c.revision <= 0 || c.index < 0 || before.None? || after.None? then None
    else Some(HistoryEvent(c.revision, c.index, c.kind, before.value, after.value, c.reason, c.note))
  }

  // ---- The stored form loses exactly the assignee named `null` ----

  function Erase(assignee: Option<string>): Option<string> {
    if assignee == Some("null") then None else assignee
  }

  function EraseValue(value: EventValue): EventValue {
    if value.AssigneeValue? then AssigneeValue(Erase(value.assignee)) else value
  }

  function EraseOption(value: Option<EventValue>): Option<EventValue> {
    if value.None? then None else Some(EraseValue(value.value))
  }

  /** What a reader gets back for a row. */
  function Loaded(row: EventRow): HistoryEvent {
    var event := row.audited.event;
    HistoryEvent(event.revision, row.index, event.kind, EraseOption(event.before), EraseOption(event.after),
                 row.audited.reason, NoteOf(event))
  }

  /** The type invariant of `AssigneeId`. */
  predicate Assigned(assignee: Option<string>) {
    assignee.Some? ==> Canonical(Lower, assignee.value)
  }

  predicate Fits(kind: EventType, value: EventValue) {
    match kind
    case Captured => false
    case Approved | Rejected | Started | Blocked | Resumed | Finished => value.StatusValue?
    case PriorityChanged => value.PriorityValue?
    case AssigneeChanged => value.AssigneeValue? && Assigned(value.assignee)
    case NoteAdded => value.NoteValue?
  }

  lemma StatusParses(status: Status)
    ensures ParseStatus(StatusText(status)) == Some(status)
  {
    assert "proposed"[0] == 'p' && "ready"[2] == 'a' && "in_progress"[0] == 'i' && "blocked"[0] == 'b'
           && "done"[0] == 'd' && "rejected"[2] == 'j';
  }

  lemma PriorityParses(priority: Priority)
    ensures PriorityText(priority) != "null" && ParsePriority(PriorityText(priority)) == Some(priority)
  {
    assert "P0"[1] == '0' && "P1"[1] == '1' && "P2"[1] == '2' && "P3"[1] == '3' && "P4"[1] == '4';
  }

  /** Text and back: every value returns unchanged except an assignee named `null`, which returns as none. */
  lemma ValueRoundTrip(kind: EventType, value: EventValue)
    requires Fits(kind, value)
    ensures ParseValue(kind, Some(ValueText(value))) == Some(Some(EraseValue(value)))
    ensures ParseValue(kind, Some(ValueText(value))) == Some(Some(value)) <==> value != AssigneeValue(Some("null"))
  {
    match value
    case StatusValue(status) => StatusParses(status);
    case PriorityValue(priority) => if priority.Some? { PriorityParses(priority.value); }
    case AssigneeValue(assignee) => if assignee.Some? { CanonicalIffFixed(Lower, assignee.value); }
    case NoteValue(_) =>
  }

  /** The exception is a real one: `null` is a normalised assignee, and its stored form reads back as no assignee. */
  lemma NullIsAnAssignee()
    ensures Fits(AssigneeChanged, AssigneeValue(Some("null")))
    ensures ParseValue(AssigneeChanged, Some(ValueText(AssigneeValue(Some("null"))))) == Some(Some(AssigneeValue(None)))
  {
    hide Canonical, Normalized;
    SingleToken(Lower, "null");
  }

  predicate FitsEvent(event: DomainEvent) {
    && (event.before.Some? ==> Fits(event.kind, event.before.value))
    && (event.after.Some? ==> Fits(event.kind, event.after.value))
  }

  /** Every stored row decodes, and to the written event unless `null` is an assignee in it. */
  lemma {:induction false} RowRoundTrip(row: EventRow)
    requires FitsEvent(row.audited.event) && row.audited.event.revision >= 1
    ensures Decoded(ColumnsOf(row)) == Some(Loaded(row))
  {
    var event := row.audited.event;
    if event.before.Some? { ValueRoundTrip(event.kind, event.before.value); }
    if event.after.Some? { ValueRoundTrip(event.kind, event.after.value); }
  }

  // ---- Folding the stored events ----

  function EraseTracked(t: Tracked): Tracked {
    t.(assignee := Erase(t.assignee))
  }

  function Fold(t: Tracked, events: seq<HistoryEvent>): Tracked
    decreases |events|
  {
    if events == [] then t
    else
      var e := events[0];
      var next :=
        match e.after
        case Some(StatusValue(status)) => t.(status := status, reason := e.reason, revision := e.revision)
        case Some(PriorityValue(priority)) => t.(priority := priority, revision := e.revision)
        case Some(AssigneeValue(assignee)) => t.(assignee := assignee, revision := e.revision)
        case _ => t.(revision := e.revision);
      Fold(next, events[1..])
  }

  function LoadedRows(rows: seq<EventRow>): (r: seq<HistoryEvent>)
    ensures |r| == |rows|
    ensures forall i :: 0 <= i < |r| ==> r[i] == Loaded(rows[i])
  {
    seq(|rows|, i requires 0 <= i < |rows| => Loaded(rows[i]))
  }

  lemma {:induction false} FoldReplays(t: Tracked, rows: seq<EventRow>)
    requires Replay(t, AuditedRows(rows)).Some?
    ensures Fold(EraseTracked(t), LoadedRows(rows)) == EraseTracked(Replay(t, AuditedRows(rows)).value)
    decreases |rows|
  {
    if rows != [] {
      assert AuditedRows(rows)[1..] == AuditedRows(rows[1..]);
      assert LoadedRows(rows)[1..] == LoadedRows(rows[1..]);
      FoldReplays(After(t, rows[0].audited), rows[1..]);
    }
  }

  /** The stored events of an item reproduce everything they track; the assignee exactly when it is not named `null`. */
  lemma StoredHistoryReproducesItem(rows: seq<EventRow>, item: Item, operations: map<string, Operation>)
    requires HistoryOf(rows, item, operations)
    ensures Fold(CAPTURED_STATE, LoadedRows(rows[1..])) == EraseTracked(Track(item))
    ensures Fold(CAPTURED_STATE, LoadedRows(rows[1..])) == Track(item) <==> item.assignee != Some("null")
  {
    FoldReplays(CAPTURED_STATE, rows[1..]);
  }

  // ---- Revision groups ----

  /** Rows `start` to `start + size` are one revision's events: indices from zero, one operation. */
  predicate Group(rows: seq<EventRow>, start: nat, size: nat, revision: nat) {
    && 1 <= size <= 4 && start + size <= |rows|
    && (forall i :: 0 <= i < |rows| ==> (rows[i].audited.event.revision == revision <==> start <= i < start + size))
    && (forall i :: start <= i < start + size ==>
          rows[i].index == i - start && rows[i].operation == rows[start].operation)
  }

  predicate Ordered(rows: seq<EventRow>) {
    && rows != [] && rows[0].index == 0
    && (forall i :: 0 <= i < |rows| ==> rows[i].index < 4)
    && (forall i :: 0 < i < |rows| ==> Succeeds(rows[i - 1], rows[i]))
  }

  lemma {:induction false} Nondecreasing(rows: seq<EventRow>, i: nat, j: nat)
    requires Ordered(rows) && i <= j < |rows|
    ensures rows[i].audited.event.revision <= rows[j].audited.event.revision
    decreases j - i
  {
    if i < j {
      Nondecreasing(rows, i, j - 1);
      assert Succeeds(rows[j - 1], rows[j]);
    }
  }

  /** A row that opens a revision is a group of its own. */
  lemma GroupOpens(rows: seq<EventRow>)
    requires Ordered(rows) && |rows| > 1 && rows[|rows| - 1].index == 0
    requires rows[|rows| - 2].audited.event.revision < rows[|rows| - 1].audited.event.revision
    ensures Group(rows, |rows| - 1, 1, rows[|rows| - 1].audited.event.revision)
  {
    hide Succeeds;
    forall i | 0 <= i < |rows| - 1 ensures rows[i].audited.event.revision < rows[|rows| - 1].audited.event.revision {
      Nondecreasing(rows, i, |rows| - 2);
    }
  }

  lemma GroupGrows(rows: seq<EventRow>, start: nat, size: nat, revision: nat)
    requires Ordered(rows) && |rows| > 1 && Group(rows[..|rows| - 1], start, size, revision)
    requires rows[|rows| - 1].audited.event.revision == rows[|rows| - 2].audited.event.revision == revision
    ensures Group(rows, start, size + 1, revision)
  {
    var n := |rows| - 1;
    assert Succeeds(rows[n - 1], rows[n]);
    assert rows[..n][n - 1].audited.event.revision == revision;
    assert start + size == n;
    assert rows[..n][n - 1].index == n - 1 - start;
  }

  lemma {:induction false} GroupExists(rows: seq<EventRow>, revision: nat) returns (start: nat, size: nat)
    requires Ordered(rows)
    requires rows[0].audited.event.revision <= revision <= rows[|rows| - 1].audited.event.revision
    ensures Group(rows, start, size, revision)
    decreases |rows|
  {
    var n := |rows| - 1;
    if n == 0 {
      start, size := 0, 1;
    } else {
      assert Succeeds(rows[n - 1], rows[n]);
      assert Ordered(rows[..n]);
      if rows[n].audited.event.revision > revision {
        start, size := GroupExists(rows[..n], revision);
      } else if rows[n - 1].audited.event.revision < revision {
        start, size := n, 1;
        GroupOpens(rows);
      } else {
        start, size := GroupExists(rows[..n], revision);
        GroupGrows(rows, start, size, revision);
        size := size + 1;
      }
    }
  }

  /** Each revision up to the current one has one to four events with indices 0.., all of one operation. */
  lemma RevisionGroups(h: seq<Db>, actions: seq<Action>, i: nat, id: ItemId, revision: nat)
    returns (start: nat, size: nat)
    requires Run(h, actions) && i < |h| && id in h[i].items && 1 <= revision <= h[i].items[id].revision
    ensures id in h[i].events.rows && Group(h[i].events.rows[id], start, size, revision)
  {
    ReachableHistory(h, actions, i, id);
    start, size := GroupExists(h[i].events.rows[id], revision);
  }

  lemma ReachableHistory(h: seq<Db>, actions: seq<Action>, i: nat, id: ItemId)
    requires Run(h, actions) && i < |h| && id in h[i].items
    ensures id in h[i].events.rows && HistoryOf(h[i].events.rows[id], h[i].items[id], h[i].operations)
    ensures h[i].items[id].revision <= I64_MAX
  {
    ReachableUpTo(h, actions, i);
    assert Good(h[i]);
    assert ItemOk(id, h[i].items[id], h[i].counters);
  }

  // ---- Typed runs: assignees are normalised identifiers ----

  predicate TypedMutation(mutation: Mutation) {
    mutation.triage.Some? && mutation.triage.value.assignee.Set? ==>
        Canonical(Lower, mutation.triage.value.assignee.value)
  }

  predicate TypedValue(value: Option<EventValue>) {
    value.Some? && value.value.AssigneeValue? ==> Assigned(value.value.assignee)
  }

  predicate TypedRow(row: EventRow) {
    TypedValue(row.audited.event.before) && TypedValue(row.audited.event.after)
  }

  ghost predicate Typed(db: Db) {
    && (forall id :: id in db.items ==> Assigned(db.items[id].assignee))
    && (forall id :: id in db.events.rows ==> TypedRows(db.events.rows[id]))
  }

  predicate TypedRows(rows: seq<EventRow>) {
    forall i :: 0 <= i < |rows| ==> TypedRow(rows[i])
  }

  ghost predicate TypedAction(action: Action) {
    (action.DoMutate? ==> TypedMutation(action.mutation)) && (action.DoRestore? ==> Typed(action.backup))
  }

  lemma {:induction false} AppliedTyped(item: Item, mutation: Mutation)
    requires Assigned(item.assignee) && TypedMutation(mutation) && Applied(item, mutation).Ok?
    ensures var (item', events) := Applied(item, mutation).value;
            && Assigned(item'.assignee)
            && forall i :: 0 <= i < |events| ==> TypedValue(events[i].before) && TypedValue(events[i].after)
  {
    hide Canonical;
  }

  lemma WriteTyped(before: Db, after: Db, w: Write)
    requires Typed(before) && Wrote(before, after, w) && Assigned(w.item.assignee) && TypedRows(w.events)
    ensures Typed(after)
  {
    assert TypedRows(EventsOf(before, w.item.id) + w.events);
  }

  lemma {:induction false} CaptureTyped(db: Db, pinned: StoreState, input: CaptureInput, call: Call)
    requires Typed(db)
    ensures Typed(Capture(db, pinned, input, call).0)
  {
    var after := Capture(db, pinned, input, call).0;
    var w := CaptureWrites(db, pinned, input, call);
    if after != db {
      WriteTyped(db, after, w);
    }
  }

  lemma {:induction false} MutateTyped(db: Db, pinned: StoreState, id: ItemId, expected: nat, mutation: Mutation,
        call: Call)
    requires Typed(db) && TypedMutation(mutation) && (id in db.items ==> db.items[id].id == id)
    ensures Typed(Mutate(db, pinned, id, expected, mutation, call).0)
  {
    var after := Mutate(db, pinned, id, expected, mutation, call).0;
    var w := MutateWrites(db, pinned, id, expected, mutation, call);
    if after != db {
      AppliedTyped(db.items[id], mutation);
      WriteTyped(db, after, w);
    }
  }

  lemma MaintenanceTyped(h: seq<Db>, actions: seq<Action>, i: nat)
    requires |h| == |actions| + 1 && i < |actions| && Steps(h, actions, i)
    requires actions[i].DoPrune? || actions[i].DoActivate? || actions[i].DoRestore?
    requires (forall k :: 0 <= k <= i ==> Typed(h[k])) && TypedAction(actions[i])
    ensures Typed(h[i + 1])
  {
    match actions[i]
    case DoPrune(generation, through) =>
      assert h[i + 1].items == h[i].items && h[i + 1].events == h[i].events;
    case DoActivate(generation) =>
      assert h[i + 1].items == h[i].items && h[i + 1].events == h[i].events;
    case DoRestore(backup, _, _) =>
      assert h[i + 1] == h[i] || (h[i + 1].items == backup.items && h[i + 1].events == backup.events);
  }

  lemma ReachableKey(h: seq<Db>, actions: seq<Action>, i: nat, id: ItemId)
    requires Run(h, actions) && i < |h|
    ensures id in h[i].items ==> h[i].items[id].id == id
  {
    ReachableUpTo(h, actions, i);
    assert Good(h[i]);
    assert id in h[i].items ==> ItemOk(id, h[i].items[id], h[i].counters);
  }

  lemma {:induction false} StepTyped(h: seq<Db>, actions: seq<Action>, i: nat)
    requires |h| == |actions| + 1 && i < |actions| && Steps(h, actions, i) && TypedAction(actions[i])
    requires forall k :: 0 <= k <= i ==> Typed(h[k])
    requires forall id :: id in h[i].items ==> h[i].items[id].id == id
    ensures Typed(h[i + 1])
  {
    match actions[i]
    case DoCapture(pinned, input, call) => CaptureTyped(h[i], pinned, input, call);
    case DoMutate(pinned, id, expected, mutation, call) => MutateTyped(h[i], pinned, id, expected, mutation, call);
    case _ => MaintenanceTyped(h, actions, i);
  }

  lemma RunSteps(h: seq<Db>, actions: seq<Action>, i: nat)
    requires Run(h, actions) && i < |actions|
    ensures Steps(h, actions, i)
    ensures forall id :: id in h[i].items ==> h[i].items[id].id == id
  {
    forall id | id in h[i].items ensures h[i].items[id].id == id {
      ReachableKey(h, actions, i, id);
    }
  }

  lemma FreshTyped(db: Db)
    requires Fresh(db)
    ensures Typed(db)
  {
  }

  lemma {:induction false} ReachableTyped(h: seq<Db>, actions: seq<Action>, n: nat)
    requires Run(h, actions) && n <= |actions| && forall i :: 0 <= i < |actions| ==> TypedAction(actions[i])
    ensures forall i :: 0 <= i <= n ==> Typed(h[i])
  {
    hide Typed, Steps;
    if n == 0 {
      FreshTyped(h[0]);
    } else {
      ReachableTyped(h, actions, n - 1);
      RunSteps(h, actions, n - 1);
      StepTyped(h, actions, n - 1);
    }
  }

  lemma {:induction false} ReplayFits(t: Tracked, rows: seq<EventRow>, i: nat)
    requires Replay(t, AuditedRows(rows)).Some? && TypedRows(rows) && i < |rows|
    ensures FitsEvent(rows[i].audited.event)
    decreases |rows|
  {
    assert Follows(t, rows[0].audited);
    if i == 0 {
      assert TypedRow(rows[0]);
    } else {
      assert AuditedRows(rows)[1..] == AuditedRows(rows[1..]);
      ReplayFits(After(t, rows[0].audited), rows[1..], i - 1);
    }
  }

  /** Every stored row of every reachable state decodes. */
  lemma ReachableDecodes(h: seq<Db>, actions: seq<Action>, i: nat, id: ItemId, k: nat)
    requires Run(h, actions) && forall j :: 0 <= j < |actions| ==> TypedAction(actions[j])
    requires i < |h| && id in h[i].items && id in h[i].events.rows && k < |h[i].events.rows[id]|
    ensures Decoded(ColumnsOf(h[i].events.rows[id][k])) == Some(Loaded(h[i].events.rows[id][k]))
  {
    ReachableHistory(h, actions, i, id);
    ReachableTyped(h, actions, i);
    var rows := h[i].events.rows[id];
    assert TypedRows(rows);
    if k > 0 {
      assert TypedRows(rows[1..]);
      ReplayFits(CAPTURED_STATE, rows[1..], k - 1);
      Nondecreasing(rows, 0, k);
    }
    RowRoundTrip(rows[k]);
  }
}
