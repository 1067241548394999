/**
 Items, their lifecycle and triage rules, and the events a mutation produces.
 `ItemObject` is the mutable item of the source; the functions say what its methods compute on the item's value.
 */
module Domain {
  import opened Wrappers
  import opened Text
  import opened Identifiers

  datatype Status = Proposed | Ready | InProgress | Blocked | Done | Rejected

  datatype Priority = P0 | P1 | P2 | P3 | P4

  datatype SourceHost = Delta | Codex | Local

  datatype Provenance = Provenance(
    sourceHost: Option<SourceHost>, thread: Option<string>, message: Option<string>, url: Option<string>,
    repository: Option<string>, revisionReference: Option<string>, excerpt: Option<string>)

  datatype Content = Content(title: string, description: Option<string>, criteria: seq<string>)

  datatype Item = Item(
    id: ItemId, content: Content, status: Status, priority: Option<Priority>, assignee: Option<string>,
    statusReason: Option<string>, revision: nat, capturedAt: string, updatedAt: string, provenance: Provenance)

  datatype TriageField<+T> = Omitted | Clear | Set(value: T)

  datatype Triage = Triage(priority: TriageField<Priority>, assignee: TriageField<string>, note: Option<string>)

  datatype Lifecycle = Approve | Reject(reason: string) | Start | Block(reason: string) | Resume | Finish

  datatype Mutation = Mutation(lifecycle: Option<Lifecycle>, triage: Option<Triage>)

  datatype EventType =
    | Captured | Approved | Rejected | Started | Blocked | Resumed | Finished
    | PriorityChanged | AssigneeChanged | NoteAdded

  datatype EventValue =
    | StatusValue(status: Status)
    | PriorityValue(priority: Option<Priority>)
    | AssigneeValue(assignee: Option<string>)
    | NoteValue(note: string)

  datatype DomainEvent =
    DomainEvent(kind: EventType, revision: nat, before: Option<EventValue>, after: Option<EventValue>)

  datatype MutationError = InvalidInput | InvalidTransition | RevisionOverflow

  function CapturedItem(id: ItemId, content: Content, provenance: Provenance, at: string): Item {
    Item(id, content, Proposed, None, None, None, 1, at, at, provenance)
  }

  predicate Terminal(status: Status) {
    status.Done? || status.Rejected?
  }

  // ---- Lifecycle ----

  /** The Unicode White_Space property, which Rust's `char::is_whitespace` tests. */
  predicate IsWhitespace(c: char) {
    var n := c as int;
    9 <= n <= 13 || n == 0x20 || n == 0x85 || n == 0xa0 || n == 0x1680 || 0x2000 <= n <= 0x200a
    || n == 0x2028 || n == 0x2029 || n == 0x202f || n == 0x205f || n == 0x3000
  }

  predicate Blank(s: string) {
    forall i :: 0 <= i < |s| ==> IsWhitespace(s[i])
  }

  /** The 25 code points of the property, one by one. */
  const WHITE_SPACE: string :=
    "\t\n\U{b}\U{c}\r \U{85}\U{a0}\U{1680}\U{2000}\U{2001}\U{2002}\U{2003}\U{2004}\U{2005}\U{2006}\U{2007}"
    + "\U{2008}\U{2009}\U{200a}\U{2028}\U{2029}\U{202f}\U{205f}\U{3000}"

  lemma WhitespaceExact(c: char)
    ensures IsWhitespace(c) <==> c in WHITE_SPACE
  {
  }

  /** A text is blank exactly when it holds nothing else. */
  lemma BlankExact(s: string)
    ensures Blank(s) <==> forall c :: c in s ==> c in WHITE_SPACE
  {
    forall c: char ensures IsWhitespace(c) <==> c in WHITE_SPACE {
      WhitespaceExact(c);
    }
  }

  function From(lifecycle: Lifecycle): Status {
    match lifecycle
    case Approve | Reject(_) => Proposed
    case Start => Ready
    case Block(_) | Finish => InProgress
    case Resume => Status.Blocked
  }

  function To(lifecycle: Lifecycle): Status {
    match lifecycle
    case Approve => Ready
    case Reject(_) => Status.Rejected
    case Start | Resume => InProgress
    case Block(_) => Status.Blocked
    case Finish => Done
  }

  function EventOf(lifecycle: Lifecycle): EventType {
    match lifecycle
    case Approve => Approved
    case Reject(_) => EventType.Rejected
    case Start => Started
    case Block(_) => EventType.Blocked
    case Resume => Resumed
    case Finish => Finished
  }

  /** The reason a lifecycle action carries; the source records it as the status reason and in the audit row. */
  function ReasonOf(lifecycle: Lifecycle): Option<string> {
    match lifecycle
    case Reject(reason) => Some(reason)
    case Block(reason) => Some(reason)
    case _ => None
  }

  function MutationReason(mutation: Mutation): Option<string> {
    if mutation.lifecycle.Some? then ReasonOf(mutation.lifecycle.value) else None
  }

  function LifecycleApplied(item: Item, lifecycle: Lifecycle): Result<Item, MutationError> {
    if item.status != From(lifecycle) then Err(InvalidTransition)
    else if ReasonOf(lifecycle).Some? && Blank(ReasonOf(lifecycle).value) then Err(InvalidInput)
    else Ok(item.(status := To(lifecycle), statusReason := ReasonOf(lifecycle)))
  }

  // ---- Triage ----

  datatype TriageChanges = TriageChanges(
    priority: Option<(Option<Priority>, Option<Priority>)>,
    assignee: Option<(Option<string>, Option<string>)>,
    note: Option<string>)

  function Next<T>(field: TriageField<T>, current: Option<T>): Option<T> {
    match field
    case Omitted => current
    case Clear => None
    case Set(value) => Some(value)
  }

  function Changed<T(==)>(before: Option<T>, after: Option<T>): Option<(Option<T>, Option<T>)> {
    if before != after then Some((before, after)) else None
  }

  predicate EmptyTriage(triage: Triage) {
    triage.priority.Omitted? && triage.assignee.Omitted? && triage.note.None?
  }

  function TriageApplied(item: Item, triage: Triage): Result<(Item, TriageChanges), MutationError> {
    var priority := Next(triage.priority, item.priority);
    var assignee := Next(triage.assignee, item.assignee);
    if EmptyTriage(triage) then Err(InvalidInput)
    else if Terminal(item.status) && (priority != item.priority || assignee != item.assignee) then
      Err(InvalidTransition)
    else
      Ok((item.(priority := priority, assignee := assignee),
          TriageChanges(Changed(item.priority, priority), Changed(item.assignee, assignee), triage.note)))
  }

  // ---- Compound mutation ----

  function PriorityEvents(change: Option<(Option<Priority>, Option<Priority>)>, revision: nat): seq<DomainEvent> {
    if change.None? then []
    else
      [DomainEvent(PriorityChanged, revision, Some(PriorityValue(change.value.0)), Some(PriorityValue(change.value.1)))]
  }

  function AssigneeEvents(change: Option<(Option<string>, Option<string>)>, revision: nat): seq<DomainEvent> {
    if change.None? then []
    else
      [DomainEvent(AssigneeChanged, revision, Some(AssigneeValue(change.value.0)), Some(AssigneeValue(change.value.1)))]
  }

  function NoteEvents(note: Option<string>, revision: nat): seq<DomainEvent> {
    if note.None? then [] else [DomainEvent(NoteAdded, revision, None, Some(NoteValue(note.value)))]
  }

  function TriageEvents(changes: TriageChanges, revision: nat): seq<DomainEvent> {
    PriorityEvents(changes.priority, revision) + AssigneeEvents(changes.assignee, revision)
    + NoteEvents(changes.note, revision)
  }

  function LifecycleEvents(mutation: Mutation, revision: nat): seq<DomainEvent> {
    if mutation.lifecycle.None? then []
    else
      var l := mutation.lifecycle.value;
      [DomainEvent(EventOf(l), revision, Some(StatusValue(From(l))), Some(StatusValue(To(l))))]
  }

  /** The planned copy after both components, before the revision is advanced. */
  function Planned(item: Item, mutation: Mutation): Result<(Item, TriageChanges), MutationError> {
    if mutation.lifecycle.None? && mutation.triage.None? then Err(InvalidInput)
    else
      var staged := if mutation.lifecycle.None? then Ok(item) else LifecycleApplied(item, mutation.lifecycle.value);
      if staged.Err? then Err(staged.error)
      else if mutation.triage.None? then Ok((staged.value, TriageChanges(None, None, None)))
      else TriageApplied(staged.value, mutation.triage.value)
  }

  function Applied(item: Item, mutation: Mutation): Result<(Item, seq<DomainEvent>), MutationError> {
    var planned := Planned(item, mutation);
    if planned.Err? then Err(planned.error)
    else
      var events :=
        LifecycleEvents(mutation, item.revision + 1) + TriageEvents(planned.value.1, item.revision + 1);
      if events == [] then Ok((item, []))
      else if item.revision >= U64_MAX then Err(RevisionOverflow)
      else Ok((planned.value.0.(revision := item.revision + 1), events))
  }

  /** The item the source updates through `&mut self`. */
  class ItemObject {
    const id: ItemId
    const content: Content
    const provenance: Provenance
    const capturedAt: string
    var status: Status
    var priority: Option<Priority>
    var assignee: Option<string>
    var statusReason: Option<string>
    var revision: nat
    var updatedAt: string

    function Value(): Item
      reads this
    {
      Item(id, content, status, priority, assignee, statusReason, revision, capturedAt, updatedAt, provenance)
    }

    constructor (value: Item)
      ensures Value() == value
    {
      id, content, provenance, capturedAt := value.id, value.content, value.provenance, value.capturedAt;
      status, priority, assignee := value.status, value.priority, value.assignee;
      statusReason, revision, updatedAt := value.statusReason, value.revision, value.updatedAt;
    }

    method Transition(from: Status, to: Status, reason: Option<string>) returns (r: Outcome<MutationError>)
      modifies this`status, this`statusReason
      ensures r == if old(status) == from then Pass else Fail(InvalidTransition)
      ensures Value() == if r.Pass? then old(Value()).(status := to, statusReason := reason) else old(Value())
    {
      if status != from {
        return Fail(InvalidTransition);
      }
      status := to;
      statusReason := reason;
      return Pass;
    }

    method TransitionWithRequiredReason(from: Status, to: Status, reason: string) returns (r: Outcome<MutationError>)
      modifies this`status, this`statusReason
      ensures r == if old(status) != from then Fail(InvalidTransition)
                   else if Blank(reason) then Fail(InvalidInput) else Pass
      ensures Value() == if r.Pass? then old(Value()).(status := to, statusReason := Some(reason)) else old(Value())
    {
      if status != from {
        return Fail(InvalidTransition);
      }
      if Blank(reason) {
        return Fail(InvalidInput);
      }
      status := to;
      statusReason := Some(reason);
      return Pass;
    }

    method ApplyLifecycle(lifecycle: Lifecycle) returns (r: Result<EventType, MutationError>)
      modifies this`status, this`statusReason
      ensures match LifecycleApplied(old(Value()), lifecycle)
              case Ok(item) => r == Ok(EventOf(lifecycle)) && Value() == item
              case Err(error) => r == Err(error) && Value() == old(Value())
    {
      var outcome;
      match lifecycle {
        case Approve => outcome := Transition(Proposed, Ready, None);
        case Reject(reason) => outcome := TransitionWithRequiredReason(Proposed, Status.Rejected, reason);
        case Start => outcome := Transition(Ready, InProgress, None);
        case Block(reason) => outcome := TransitionWithRequiredReason(InProgress, Status.Blocked, reason);
        case Resume => outcome := Transition(Status.Blocked, InProgress, None);
        case Finish => outcome := Transition(InProgress, Done, None);
      }
      r := if outcome.Fail? then Err(outcome.error) else Ok(EventOf(lifecycle));
    }

    method ApplyTriage(triage: Triage) returns (r: Result<TriageChanges, MutationError>)
      modifies this`priority, this`assignee
      ensures match TriageApplied(old(Value()), triage)
              case Ok((item, changes)) => r == Ok(changes) && Value() == item
              case Err(error) => r == Err(error) && Value() == old(Value())
    {
      if triage.priority.Omitted? && triage.assignee.Omitted? && triage.note.None? {
        return Err(InvalidInput);
      }
      var nextPriority := Next(triage.priority, priority);
      var nextAssignee := Next(triage.assignee, assignee);
      var priorityChange := Changed(priority, nextPriority);
      var assigneeChange := Changed(assignee, nextAssignee);
      if Terminal(status) && (priorityChange.Some? || assigneeChange.Some?) {
        return Err(InvalidTransition);
      }
      priority := nextPriority;
      assignee := nextAssignee;
      return Ok(TriageChanges(priorityChange, assigneeChange, triage.note));
    }

    /** Plans on a copy; the item changes only after every component succeeded. */
    method ApplyMutation(mutation: Mutation) returns (r: Result<seq<DomainEvent>, MutationError>)
      modifies this
      ensures match Applied(old(Value()), mutation)
              case Ok((item, events)) => r == Ok(events) && Value() == item
              case Err(error) => r == Err(error) && Value() == old(Value())
    {
      if mutation.lifecycle.None? && mutation.triage.None? {
        return Err(InvalidInput);
      }
      var planned := new ItemObject(Value());
      var next := revision + 1;
      var events: seq<DomainEvent> := [];
      if mutation.lifecycle.Some? {
        var before := planned.status;
        var kind := planned.ApplyLifecycle(mutation.lifecycle.value);
        if kind.Err? {
          return Err(kind.error);
        }
        events := [DomainEvent(kind.value, next, Some(StatusValue(before)), Some(StatusValue(planned.status)))];
      }
      if mutation.triage.Some? {
        var changes := planned.ApplyTriage(mutation.triage.value);
        if changes.Err? {
          return Err(changes.error);
        }
        events := events + TriageEvents(changes.value, next);
      }
      assert Planned(Value(), mutation).Ok?;
      assert events == LifecycleEvents(mutation, next) + TriageEvents(Planned(Value(), mutation).value.1, next);
      if events == [] {
        return Ok([]);
      }
      if revision >= U64_MAX {
        return Err(RevisionOverflow);
      }
      status, priority, assignee := planned.status, planned.priority, planned.assignee;
      statusReason, revision, updatedAt := planned.statusReason, next, planned.updatedAt;
      return Ok(events);
    }

    method SetUpdatedAt(at: string)
      modifies this`updatedAt
      ensures Value() == old(Value()).(updatedAt := at)
    {
      updatedAt := at;
    }
  }

  // ---- Replay: what the events alone determine ----

  /** The part of an item its history determines. */
  datatype Tracked = Tracked(
    status: Status, priority: Option<Priority>, assignee: Option<string>, reason: Option<string>, revision: nat)

  function Track(item: Item): Tracked {
    Tracked(item.status, item.priority, item.assignee, item.statusReason, item.revision)
  }

  const CAPTURED_STATE := Tracked(Proposed, None, None, None, 1)

  datatype Audited = Audited(event: DomainEvent, reason: Option<string>)

  predicate StatusStep(from: Status, to: Status, t: Tracked, e: DomainEvent) {
    && t.status == from
    && e.before == Some(StatusValue(from))
    && e.after == Some(StatusValue(to))
  }

  /** Whether `a` may follow state `t`: legal transition, matching before value, no change of a terminal item. */
  predicate Follows(t: Tracked, a: Audited) {
    var e := a.event;
    && (e.revision == t.revision || e.revision == t.revision + 1)
    && (a.reason.Some? <==> e.kind.Rejected? || e.kind.Blocked?)
    && match e.kind
       case Captured => false
       case Approved => StatusStep(Proposed, Ready, t, e)
       case Rejected => StatusStep(Proposed, Status.Rejected, t, e) && !Blank(a.reason.value)
       case Started => StatusStep(Ready, InProgress, t, e)
       case Blocked => StatusStep(InProgress, Status.Blocked, t, e) && !Blank(a.reason.value)
       case Resumed => StatusStep(Status.Blocked, InProgress, t, e)
       case Finished => StatusStep(InProgress, Done, t, e)
       case PriorityChanged =>
         !Terminal(t.status) && e.before == Some(PriorityValue(t.priority))
         && e.after.Some? && e.after.value.PriorityValue? && e.after != e.before
       case AssigneeChanged =>
         !Terminal(t.status) && e.before == Some(AssigneeValue(t.assignee))
         && e.after.Some? && e.after.value.AssigneeValue? && e.after != e.before
       case NoteAdded => e.before.None? && e.after.Some? && e.after.value.NoteValue?
  }

  function After(t: Tracked, a: Audited): Tracked
    requires Follows(t, a)
  {
    var e := a.event;
    match e.after.value
    case StatusValue(status) => t.(status := status, reason := a.reason, revision := e.revision)
    case PriorityValue(priority) => t.(priority := priority, revision := e.revision)
    case AssigneeValue(assignee) => t.(assignee := assignee, revision := e.revision)
    case NoteValue(_) => t.(revision := e.revision)
  }

  /** Folds audited events from a starting state; None as soon as one cannot follow. */
  function Replay(t: Tracked, rows: seq<Audited>): Option<Tracked>
    decreases |rows|
  {
    if rows == [] then Some(t)
    else if !Follows(t, rows[0]) then None
    else Replay(After(t, rows[0]), rows[1..])
  }

  lemma {:induction false} ReplayAppend(t: Tracked, a: seq<Audited>, b: seq<Audited>)
    ensures Replay(t, a + b) == if Replay(t, a).None? then None else Replay(Replay(t, a).value, b)
    decreases |a|
  {
    if a == [] {
      assert a + b == b;
    } else {
      assert (a + b)[1..] == a[1..] + b;
      if Follows(t, a[0]) {
        ReplayAppend(After(t, a[0]), a[1..], b);
      }
    }
  }

  /** The audit rows one mutation leaves: only rejections and blocks keep the reason column. */
  function Audit(events: seq<DomainEvent>, reason: Option<string>): (r: seq<Audited>)
    ensures |r| == |events|
    ensures forall i :: 0 <= i < |r| ==>
              r[i] == Audited(events[i], if events[i].kind.Rejected? || events[i].kind.Blocked? then reason else None)
  {
    seq(|events|, i requires 0 <= i < |events| =>
      Audited(events[i], if events[i].kind.Rejected? || events[i].kind.Blocked? then reason else None))
  }

  lemma AuditAppend(a: seq<DomainEvent>, b: seq<DomainEvent>, reason: Option<string>)
    ensures Audit(a + b, reason) == Audit(a, reason) + Audit(b, reason)
  {
  }

  lemma ReplayLifecycle(item: Item, mutation: Mutation)
    requires mutation.lifecycle.Some?
    requires LifecycleApplied(item, mutation.lifecycle.value).Ok?
    ensures Replay(Track(item), Audit(LifecycleEvents(mutation, item.revision + 1), MutationReason(mutation)))
         == Some(Track(LifecycleApplied(item, mutation.lifecycle.value).value.(revision := item.revision + 1)))
  {
    var rows := Audit(LifecycleEvents(mutation, item.revision + 1), MutationReason(mutation));
    assert |rows| == 1 && rows[1..] == [];
    assert Follows(Track(item), rows[0]);
  }

  lemma ReplayOne(t: Tracked, a: Audited)
    requires Follows(t, a)
    ensures Replay(t, [a]) == Some(After(t, a))
  {
    assert [a][1..] == [];
  }

  lemma AuditOne(events: seq<DomainEvent>, reason: Option<string>)
    requires |events| == 1 && !events[0].kind.Rejected? && !events[0].kind.Blocked?
    ensures Audit(events, reason) == [Audited(events[0], None)]
  {
  }

  /** The event of a field may follow any state that still has the field's old value. */
  lemma ReplayPriority(t: Tracked, after: Option<Priority>, revision: nat, reason: Option<string>)
    requires t.revision == revision || t.revision + 1 == revision
    requires after != t.priority ==> !Terminal(t.status)
    ensures var events := PriorityEvents(Changed(t.priority, after), revision);
            Replay(t, Audit(events, reason))
            == Some(if events == [] then t else t.(priority := after, revision := revision))
  {
    if after != t.priority {
      var events := PriorityEvents(Changed(t.priority, after), revision);
      AuditOne(events, reason);
      ReplayOne(t, Audited(events[0], None));
    }
  }

  lemma ReplayAssignee(t: Tracked, after: Option<string>, revision: nat, reason: Option<string>)
    requires t.revision == revision || t.revision + 1 == revision
    requires after != t.assignee ==> !Terminal(t.status)
    ensures var events := AssigneeEvents(Changed(t.assignee, after), revision);
            Replay(t, Audit(events, reason))
            == Some(if events == [] then t else t.(assignee := after, revision := revision))
  {
    if after != t.assignee {
      var events := AssigneeEvents(Changed(t.assignee, after), revision);
      AuditOne(events, reason);
      ReplayOne(t, Audited(events[0], None));
    }
  }

  lemma ReplayNote(t: Tracked, note: Option<string>, revision: nat, reason: Option<string>)
    requires t.revision == revision || t.revision + 1 == revision
    ensures Replay(t, Audit(NoteEvents(note, revision), reason))
         == Some(if note.None? then t else t.(revision := revision))
  {
    if note.Some? {
      AuditOne(NoteEvents(note, revision), reason);
      ReplayOne(t, Audited(NoteEvents(note, revision)[0], None));
    }
  }

  lemma ReplayThree(t: Tracked, p: seq<DomainEvent>, a: seq<DomainEvent>, n: seq<DomainEvent>, reason: Option<string>,
                    t1: Tracked, t2: Tracked, t3: Tracked)
    requires Replay(t, Audit(p, reason)) == Some(t1)
    requires Replay(t1, Audit(a, reason)) == Some(t2)
    requires Replay(t2, Audit(n, reason)) == Some(t3)
    ensures Replay(t, Audit(p + a + n, reason)) == Some(t3)
  {
    hide Replay, Audit;
    AuditAppend(p, a, reason);
    AuditAppend(p + a, n, reason);
    ReplayAppend(t, Audit(p, reason), Audit(a, reason));
    ReplayAppend(t, Audit(p + a, reason), Audit(n, reason));
  }

  lemma ReplayTriage(t: Tracked, item: Item, triage: Triage, revision: nat, reason: Option<string>)
    requires TriageApplied(item, triage).Ok?
    requires t == Track(item).(revision := t.revision)
    requires t.revision == revision || t.revision + 1 == revision
    ensures var (item', changes) := TriageApplied(item, triage).value;
            var events := TriageEvents(changes, revision);
            Replay(t, Audit(events, reason))
            == Some(Track(item').(revision := if events == [] then t.revision else revision))
  {
    hide Replay, Audit;
    var (item', changes) := TriageApplied(item, triage).value;
    var p, a := PriorityEvents(changes.priority, revision), AssigneeEvents(changes.assignee, revision);
    var n := NoteEvents(changes.note, revision);
    var t1 := if p == [] then t else t.(priority := item'.priority, revision := revision);
    var t2 := if a == [] then t1 else t1.(assignee := item'.assignee, revision := revision);
    var t3 := if n == [] then t2 else t2.(revision := revision);
    ReplayPriority(t, item'.priority, revision, reason);
    ReplayAssignee(t1, item'.assignee, revision, reason);
    ReplayNote(t2, changes.note, revision, reason);
    ReplayThree(t, p, a, n, reason, t1, t2, t3);
  }

  /** The events of a successful mutation carry the old state to the new one, whatever the mutation. */
  lemma AppliedReplays(item: Item, mutation: Mutation)
    requires Applied(item, mutation).Ok?
    ensures var (item', events) := Applied(item, mutation).value;
            Replay(Track(item), Audit(events, MutationReason(mutation))) == Some(Track(item'))
  {
    var (item', events) := Applied(item, mutation).value;
    var reason := MutationReason(mutation);
    var next := item.revision + 1;
    if events != [] {
      var l := LifecycleEvents(mutation, next);
      var (planned, changes) := Planned(item, mutation).value;
      var t := TriageEvents(changes, next);
      var staged := if mutation.lifecycle.None? then item else LifecycleApplied(item, mutation.lifecycle.value).value;
      var mid := Track(staged).(revision := if l == [] then item.revision else next);
      assert Replay(Track(item), Audit(l, reason)) == Some(mid) by {
        if mutation.lifecycle.Some? { ReplayLifecycle(item, mutation); }
      }
      if mutation.triage.Some? {
        ReplayTriage(mid, staged, mutation.triage.value, next, reason);
      }
      AuditAppend(l, t, reason);
      ReplayAppend(Track(item), Audit(l, reason), Audit(t, reason));
    }
  }

  /**
   Triage by name of status: a done or rejected item refuses every change of priority or assignee and takes a bare
   note or a triage that changes nothing; on any other item only an empty triage is refused.
   */
  lemma TriageDecided(item: Item, triage: Triage)
    ensures var priority :=
              match triage.priority case Omitted => item.priority case Clear => None case Set(p) => Some(p);
            var assignee :=
              match triage.assignee case Omitted => item.assignee case Clear => None case Set(a) => Some(a);
            var empty := triage.priority.Omitted? && triage.assignee.Omitted? && triage.note.None?;
            var changes := priority != item.priority || assignee != item.assignee;
            match item.status
            case Done | Rejected =>
              TriageApplied(item, triage).Ok? == (!empty && !changes)
              && (!empty && changes ==> TriageApplied(item, triage) == Err(InvalidTransition))
              && (empty ==> TriageApplied(item, triage) == Err(InvalidInput))
            case Proposed | Ready | InProgress | Blocked =>
              if empty then TriageApplied(item, triage) == Err(InvalidInput)
              else
                && TriageApplied(item, triage).Ok?
                && TriageApplied(item, triage).value.0 == item.(priority := priority, assignee := assignee)
  {
  }

  /** The lifecycle by name: which status each action needs and leaves, and which keep a nonblank reason. */
  lemma LifecycleDecided(item: Item, lifecycle: Lifecycle)
    ensures LifecycleApplied(item, lifecycle) ==
            match (lifecycle, item.status)
            case (Approve, Proposed) => Ok(item.(status := Ready, statusReason := None))
            case (Reject(reason), Proposed) =>
              if forall c :: c in reason ==> c in WHITE_SPACE then Err(InvalidInput)
              else Ok(item.(status := Status.Rejected, statusReason := Some(reason)))
            case (Start, Ready) => Ok(item.(status := InProgress, statusReason := None))
            case (Block(reason), InProgress) =>
              if forall c :: c in reason ==> c in WHITE_SPACE then Err(InvalidInput)
              else Ok(item.(status := Status.Blocked, statusReason := Some(reason)))
            case (Resume, Blocked) => Ok(item.(status := InProgress, statusReason := None))
            case (Finish, InProgress) => Ok(item.(status := Done, statusReason := None))
            case _ => Err(InvalidTransition)
  {
    hide Blank, IsWhitespace;
    if ReasonOf(lifecycle).Some? {
      BlankExact(ReasonOf(lifecycle).value);
    }
  }

  /**
   How the two components of a mutation combine: nothing at all is refused, the lifecycle is refused first, the triage
   is judged on the status the lifecycle leaves, and only an effective mutation can exhaust the revisions.
   */
  lemma CompoundDecided(item: Item, mutation: Mutation)
    ensures match (mutation.lifecycle, mutation.triage)
            case (None, None) => Applied(item, mutation) == Err(InvalidInput)
            case (Some(l), _) =>
              LifecycleApplied(item, l).Err? ==> Applied(item, mutation) == Err(LifecycleApplied(item, l).error)
            case _ => true
    ensures mutation.triage.Some? && (mutation.lifecycle.None? || LifecycleApplied(item, mutation.lifecycle.value).Ok?)
            ==> var staged := if mutation.lifecycle.None? then item
                              else LifecycleApplied(item, mutation.lifecycle.value).value;
                var triage := TriageApplied(staged, mutation.triage.value);
                && (triage.Err? ==> Applied(item, mutation) == Err(triage.error))
                && (triage.Ok? && Applied(item, mutation).Ok? && Applied(item, mutation).value.1 != [] ==>
                      Applied(item, mutation).value.0 == triage.value.0.(revision := item.revision + 1))
    ensures item.revision >= U64_MAX && Applied(item, mutation).Ok? ==> Applied(item, mutation).value == (item, [])
    ensures Applied(item, mutation) == Err(RevisionOverflow) ==> item.revision >= U64_MAX
  {
  }

  /** The event of each lifecycle action by name. */
  function LifecycleEvent(lifecycle: Lifecycle, revision: nat): DomainEvent {
    var (kind, before, after) :=
      match lifecycle
      case Approve => (Approved, Proposed, Ready)
      case Reject(_) => (EventType.Rejected, Proposed, Status.Rejected)
      case Start => (Started, Ready, InProgress)
      case Block(_) => (EventType.Blocked, InProgress, Status.Blocked)
      case Resume => (Resumed, Status.Blocked, InProgress)
      case Finish => (Finished, InProgress, Done);
    DomainEvent(kind, revision, Some(StatusValue(before)), Some(StatusValue(after)))
  }

  /**
   The events of an applied mutation in order: the lifecycle action, a changed priority, a changed assignee, the note;
   each with its new revision and both values.
   */
  lemma EventsDecided(item: Item, mutation: Mutation)
    requires Applied(item, mutation).Ok?
    ensures var (item', events) := Applied(item, mutation).value;
            var revision := item.revision + 1;
            events ==
            (if mutation.lifecycle.None? then [] else [LifecycleEvent(mutation.lifecycle.value, revision)])
            + (if item'.priority == item.priority then []
               else [DomainEvent(PriorityChanged, revision, Some(PriorityValue(item.priority)),
                                 Some(PriorityValue(item'.priority)))])
            + (if item'.assignee == item.assignee then []
               else [DomainEvent(AssigneeChanged, revision, Some(AssigneeValue(item.assignee)),
                                 Some(AssigneeValue(item'.assignee)))])
            + (if mutation.triage.None? || mutation.triage.value.note.None? then []
               else [DomainEvent(NoteAdded, revision, None, Some(NoteValue(mutation.triage.value.note.value)))])
  {
    var changes := Planned(item, mutation).value.1;
    var l, p := LifecycleEvents(mutation, item.revision + 1), PriorityEvents(changes.priority, item.revision + 1);
    var a, n := AssigneeEvents(changes.assignee, item.revision + 1), NoteEvents(changes.note, item.revision + 1);
    assert l + (p + a + n) == l + p + a + n;
  }

  /** One revision per effective mutation, one to four events, and nothing but the tracked fields moves. */
  lemma AppliedShape(item: Item, mutation: Mutation)
    requires Applied(item, mutation).Ok?
    ensures var (item', events) := Applied(item, mutation).value;
            && |events| <= 4
            && (events == [] ==> item' == item)
            && (events != [] ==> item'.revision == item.revision + 1)
            && (forall i :: 0 <= i < |events| ==> events[i].revision == item.revision + 1)
            && item' == item.(status := item'.status, priority := item'.priority, assignee := item'.assignee,
                              statusReason := item'.statusReason, revision := item'.revision)
            && (item.status.Done? || item.status.Rejected? ==> item' == item.(revision := item'.revision))
  {
  }

  /**
   A mutation is a no-op exactly when it succeeds, moves no status, adds no note and leaves both fields as they are.
   */
  lemma NoOpIff(item: Item, mutation: Mutation)
    requires Applied(item, mutation).Ok?
    ensures Applied(item, mutation).value.1 == [] <==>
            && mutation.lifecycle.None? && mutation.triage.Some? && mutation.triage.value.note.None?
            && Next(mutation.triage.value.priority, item.priority) == item.priority
            && Next(mutation.triage.value.assignee, item.assignee) == item.assignee
  {
  }
}
