/**
 Readers for the framed bytes that are hashed: independent of the writers, they spell out every marker, length, order
 and word of the formats, and give back exactly what was written.
 */
module Readers {
  import opened Wrappers
  import opened Text
  import opened Bytes
  import opened Encoding
  import opened Identifiers
  import opened Domain
  import opened Ledger
  import opened Filters
  import opened Keys
  import opened Validators
  import opened Payloads
  import opened Fingerprints
  import opened Cursors

  datatype Parsed<+T> = Parsed(value: T, rest: Data)

  // ---- Words, texts and fields ----

  /** The first `k` bytes as a number, most significant byte first. */
  function Word(data: Data, k: nat): nat
    requires k <= |data|
  {
    if k == 0 then 0 else Word(data, k - 1) * 256 + data[k - 1] as int
  }

  function ReadWord(data: Data, k: nat): Option<Parsed<nat>> {
    if |data| < k then None else Some(Parsed(Word(data, k), data[k..]))
  }

  /** Eight bytes of length, then that many bytes of UTF-8. */
  ghost function ReadText(data: Data): Option<Parsed<string>> {
    match ReadWord(data, 8)
    case None => None
    case Some(Parsed(n, rest)) =>
      if |rest| < n || FromUtf8(rest[..n]).None? then None else Some(Parsed(FromUtf8(rest[..n]).value, rest[n..]))
  }

  /** A zero byte for an absent text, a one before a present one. */
  ghost function ReadField(data: Data): Option<Parsed<Option<string>>> {
    if data == [] then None
    else if data[0] == 0 then Some(Parsed(None, data[1..]))
    else if data[0] == 1 then
      (match ReadText(data[1..])
       case None => None
       case Some(Parsed(text, rest)) => Some(Parsed(Some(text), rest)))
    else None
  }

  ghost function ReadFields(data: Data, n: nat): Option<Parsed<seq<Option<string>>>>
    decreases n
  {
    if n == 0 then Some(Parsed([], data))
    else
      match ReadField(data)
      case None => None
      case Some(Parsed(first, rest)) =>
        match ReadFields(rest, n - 1)
        case None => None
        case Some(Parsed(others, rest')) => Some(Parsed([first] + others, rest'))
  }

  lemma {:induction false} WordBack(n: nat, k: nat, x: Data)
    requires n < Power256(k)
    ensures Word(BigEndian(n, k) + x, k) == n
    ensures ReadWord(BigEndian(n, k) + x, k) == Some(Parsed(n, x))
    decreases k
  {
    var data := BigEndian(n, k) + x;
    assert data[k..] == x;
    if k > 0 {
      var last := (n % 256) as Byte;
      assert data == BigEndian(n / 256, k - 1) + ([last] + x);
      WordBack(n / 256, k - 1, [last] + x);
    }
  }

  lemma TextBack(s: string, x: Data)
    requires Sized(s)
    ensures ReadText(Framed(s) + x) == Some(Parsed(s, x))
  {
    hide BigEndian, Utf8, FromUtf8, Power256, ReadWord;
    var u := Utf8(s);
    EightBytes();
    assert Framed(s) + x == BigEndian(|u|, 8) + (u + x);
    WordBack(|u|, 8, u + x);
    assert (u + x)[..|u|] == u && (u + x)[|u|..] == x;
    FromUtf8Utf8(s);
  }

  lemma FieldBack(value: Option<string>, x: Data)
    requires SizedField(value)
    ensures ReadField(Field(value) + x) == Some(Parsed(value, x))
  {
    hide Framed, ReadText;
    if value.None? {
      assert ([0] + x)[1..] == x;
    } else {
      assert Field(value) + x == [1] + (Framed(value.value) + x);
      assert ([1] + (Framed(value.value) + x))[1..] == Framed(value.value) + x;
      TextBack(value.value, x);
    }
  }

  lemma {:induction false} FieldsBack(values: seq<Option<string>>, x: Data)
    requires SizedFields(values)
    ensures ReadFields(Fields(values) + x, |values|) == Some(Parsed(values, x))
    decreases |values|
  {
    hide Field, ReadField, SizedField;
    if values == [] {
      assert Fields(values) + x == x;
    } else {
      assert Fields(values) + x == Field(values[0]) + (Fields(values[1..]) + x);
      FieldBack(values[0], Fields(values[1..]) + x);
      FieldsBack(values[1..], x);
      assert values == [values[0]] + values[1..];
    }
  }

  // ---- Captures ----

  function ReadHost(field: Option<string>): Option<Option<SourceHost>> {
    if field == None then Some(None)
    else if field == Some("delta") then Some(Some(Delta))
    else if field == Some("codex") then Some(Some(Codex))
    else if field == Some("local") then Some(Some(Local))
    else None
  }

  function TextsOf(fields: seq<Option<string>>): seq<string>
    requires forall i :: 0 <= i < |fields| ==> fields[i].Some?
  {
    seq(|fields|, i requires 0 <= i < |fields| => fields[i].value)
  }

  /** Requester, project, title, description; the criteria behind their count; then the provenance in seven fields. */
  ghost function ReadCapture(data: Data): Option<CaptureInput> {
    match ReadFields(data, 4)
    case None => None
    case Some(Parsed(head, afterHead)) =>
      match ReadWord(afterHead, 8)
      case None => None
      case Some(Parsed(n, afterCount)) =>
        match ReadFields(afterCount, n)
        case None => None
        case Some(Parsed(criteria, afterCriteria)) =>
          match ReadFields(afterCriteria, 7)
          case None => None
          case Some(Parsed(tail, end)) => if end != [] then None else CaptureOf(head, criteria, tail)
  }

  function CaptureOf(head: seq<Option<string>>, criteria: seq<Option<string>>, tail: seq<Option<string>>)
    : Option<CaptureInput>
  {
    if |head| != 4 || |tail| != 7 || head[0].None? || head[1].None? || head[2].None?
       || (exists i :: 0 <= i < |criteria| && criteria[i].None?) || ReadHost(tail[0]).None? then None
    else
      Some(CaptureInput(head[0].value, head[1].value, Content(head[2].value, head[3], TextsOf(criteria)),
                        Provenance(ReadHost(tail[0]).value, tail[1], tail[2], tail[3], tail[4], tail[5], tail[6])))
  }

  lemma CaptureFields(input: CaptureInput)
    ensures CaptureOf(CaptureHead(input), Somes(input.content.criteria), CaptureTail(input.provenance)) == Some(input)
  {
    var criteria := Somes(input.content.criteria);
    assert TextsOf(criteria) == input.content.criteria;
    var p := input.provenance;
    assert "delta"[0] == 'd' && "codex"[0] == 'c' && "local"[0] == 'l';
    assert ReadHost(HostField(p.sourceHost)) == Some(p.sourceHost);
  }

  /** The bytes a capture is hashed by, read back, are the request. */
  lemma {:induction false} CaptureReadsBack(input: CaptureInput)
    requires SizedCapture(input)
    ensures ReadCapture(CaptureBytes(input)) == Some(input)
  {
    hide Fields, BigEndian, Power256, SizedFields, CaptureHead, CaptureTail, Somes, ReadFields, ReadWord, CaptureOf;
    var n := |input.content.criteria|;
    var head, criteria, tail := CaptureHead(input), Somes(input.content.criteria), CaptureTail(input.provenance);
    HeadLengths(input);
    EightBytes();
    FieldsBack(head, BigEndian(n, 8) + (Fields(criteria) + Fields(tail)));
    WordBack(n, 8, Fields(criteria) + Fields(tail));
    FieldsBack(criteria, Fields(tail));
    assert Fields(tail) + [] == Fields(tail);
    FieldsBack(tail, []);
    CaptureFields(input);
  }

  // ---- Mutations ----

  function ReadLifecycle(action: Option<string>, reason: Option<string>): Option<Option<Lifecycle>> {
    if action == None && reason == None then Some(None)
    else if action == Some("approve") && reason == None then Some(Some(Approve))
    else if action == Some("reject") && reason.Some? then Some(Some(Reject(reason.value)))
    else if action == Some("start") && reason == None then Some(Some(Start))
    else if action == Some("block") && reason.Some? then Some(Some(Block(reason.value)))
    else if action == Some("resume") && reason == None then Some(Some(Resume))
    else if action == Some("finish") && reason == None then Some(Some(Finish))
    else None
  }

  function ReadPriority(field: Option<string>): Option<TriageField<Priority>> {
    if field == None then Some(Omitted)
    else if field == Some("clear") then Some(TriageField.Clear)
    else if field == Some("set:P0") then Some(Set(P0))
    else if field == Some("set:P1") then Some(Set(P1))
    else if field == Some("set:P2") then Some(Set(P2))
    else if field == Some("set:P3") then Some(Set(P3))
    else if field == Some("set:P4") then Some(Set(P4))
    else None
  }

  /** Clearing cannot be told from assigning `clear`. */
  function ReadAssignee(field: Option<string>): TriageField<string> {
    if field == None then Omitted else Set(field.value)
  }

  function ReadCaller(f: seq<Option<string>>): Option<(Actor, Execution)>
    requires |f| == 8
  {
    if (f[0] != Some("human") && f[0] != Some("agent")) || f[1].None? || f[2].None? || f[3].None? || f[6].None?
       || f[7].None? then None
    else
      var actor := Actor(if f[0] == Some("human") then Human else ActorKind.Agent, f[1].value, f[2].value, f[3].value);
      if f[4] == Some("direct") && f[5] == None then Some((actor, Direct(f[6].value, f[7].value)))
      else if f[4] == Some("agent") && f[5].Some? then Some((actor, ByAgent(f[5].value, f[6].value, f[7].value)))
      else None
  }

  /**
   The item's display form and expected revision; action, reason and the triage marker; with the marker three fields
   of triage; then actor and execution in eight.
   */
  ghost function ReadMutation(data: Data): Option<MutationRequest> {
    match ReadField(data)
    case None => None
    case Some(Parsed(item, afterItem)) =>
      match ReadWord(afterItem, 8)
      case None => None
      case Some(Parsed(expected, afterExpected)) =>
        match ReadFields(afterExpected, 3)
        case None => None
        case Some(Parsed(lifecycle, afterLifecycle)) =>
          match ReadFields(afterLifecycle, if |lifecycle| == 3 && lifecycle[2] == Some("triage") then 3 else 0)
          case None => None
          case Some(Parsed(triage, afterTriage)) =>
            match ReadFields(afterTriage, 8)
            case None => None
            case Some(Parsed(caller, end)) =>
              if end != [] then None else RequestFrom(item, expected, lifecycle, triage, caller)
  }

  function RequestFrom(item: Option<string>, expected: nat, lifecycle: seq<Option<string>>, triage: seq<Option<string>>,
                       caller: seq<Option<string>>): Option<MutationRequest>
  {
    if item.None? || ParseItemId(item.value).None? || |lifecycle| != 3 || |caller| != 8 || ReadCaller(caller).None?
       || ReadLifecycle(lifecycle[0], lifecycle[1]).None? then None
    else
      var (actor, execution) := ReadCaller(caller).value;
      var action := ReadLifecycle(lifecycle[0], lifecycle[1]).value;
      if lifecycle[2] == None && triage == [] then
        Some(MutationRequest(ParseItemId(item.value).value, expected, Mutation(action, None), actor, execution))
      else if lifecycle[2] == Some("triage") && |triage| == 3 && ReadPriority(triage[0]).Some? then
        Some(MutationRequest(
          ParseItemId(item.value).value, expected,
          Mutation(action, Some(Triage(ReadPriority(triage[0]).value, ReadAssignee(triage[1]), triage[2]))),
          actor, execution))
      else None
  }

  lemma LifecycleBack(lifecycle: Option<Lifecycle>)
    ensures |LifecycleFields(lifecycle)| == 2
    ensures ReadLifecycle(LifecycleFields(lifecycle)[0], LifecycleFields(lifecycle)[1]) == Some(lifecycle)
  {
    assert "approve"[0] == 'a' && "reject"[2] == 'j' && "start"[0] == 's' && "block"[0] == 'b' && "resume"[2] == 's'
           && "finish"[0] == 'f' && "reject"[0] == 'r' && "resume"[0] == 'r';
  }

  lemma PriorityBack(field: TriageField<Priority>)
    ensures ReadPriority(PriorityField(field)) == Some(field)
  {
    assert "clear"[0] == 'c' && "set:P0"[5] == '0' && "set:P1"[5] == '1' && "set:P2"[5] == '2' && "set:P3"[5] == '3'
           && "set:P4"[5] == '4' && "set:P0"[0] == 's';
  }

  lemma CallerBack(actor: Actor, execution: Execution)
    ensures |CallerFields(actor, execution)| == 8
    ensures ReadCaller(CallerFields(actor, execution)) == Some((actor, execution))
  {
    assert "human"[0] == 'h' && "agent"[0] == 'a' && "direct"[0] == 'd';
  }

  lemma {:induction false} RequestBack(r: MutationRequest)
    requires r.item.Valid()
    ensures var lifecycle := LifecycleFields(r.mutation.lifecycle) + [TriageMarker(r.mutation.triage)];
            RequestFrom(Some(r.item.Display()), r.expected, lifecycle, TriageRest(r.mutation.triage),
                        CallerFields(r.actor, r.execution))
            == Some(CollapsedRequest(r))
  {
    hide LifecycleFields, CallerFields, ReadLifecycle, ReadCaller, ParseItemId, ReadPriority, PriorityField, Canonical,
      Padded;
    DisplayParses(r.item);
    LifecycleBack(r.mutation.lifecycle);
    CallerBack(r.actor, r.execution);
    var fields := LifecycleFields(r.mutation.lifecycle);
    assert (fields + [TriageMarker(r.mutation.triage)])[0] == fields[0];
    assert (fields + [TriageMarker(r.mutation.triage)])[1] == fields[1];
    if r.mutation.triage.Some? {
      PriorityBack(r.mutation.triage.value.priority);
    }
  }

  /** The bytes a mutation is hashed by, read back, are the request, up to clearing against assigning `clear`. */
  lemma {:induction false} MutationReadsBack(r: MutationRequest)
    requires SizedMutation(r) && r.item.Valid()
    ensures ReadMutation(MutationBytes(r)) == Some(CollapsedRequest(r))
  {
    hide Fields, Field, BigEndian, Power256, SizedFields, LifecycleFields, TriageRest, CallerFields, ReadFields,
      ReadField,
      ReadWord, RequestFrom, CollapsedRequest;
    var lifecycle := LifecycleFields(r.mutation.lifecycle) + [TriageMarker(r.mutation.triage)];
    var triage, caller := TriageRest(r.mutation.triage), CallerFields(r.actor, r.execution);
    MutationLengths(r);
    EightBytes();
    FieldBack(Some(r.item.Display()),
              BigEndian(r.expected, 8) + (Fields(lifecycle) + (Fields(triage) + Fields(caller))));
    WordBack(r.expected, 8, Fields(lifecycle) + (Fields(triage) + Fields(caller)));
    FieldsBack(lifecycle, Fields(triage) + Fields(caller));
    assert lifecycle[2] == TriageMarker(r.mutation.triage);
    FieldsBack(triage, Fields(caller));
    assert Fields(caller) + [] == Fields(caller);
    FieldsBack(caller, []);
    RequestBack(r);
  }

  // ---- Queries ----

  /** What follows some leading bytes. */
  function Behind(leading: Data, data: Data): Option<Data> {
    if leading <= data then Some(data[|leading|..]) else None
  }

  lemma BehindBack(leading: Data, x: Data)
    ensures Behind(leading, leading + x) == Some(x)
  {
  }

  /** The two magic texts in ASCII, each with its closing zero. */
  const QUERY_START: Data :=
    [0x42, 0x49, 0x46, 0x3a, 0x69, 0x74, 0x65, 0x6d, 0x2d, 0x71, 0x75, 0x65,
     0x72, 0x79, 0x3a, 0x31, 0x00]
  const HISTORY_START: Data :=
    [0x42, 0x49, 0x46, 0x3a, 0x68, 0x69, 0x73, 0x74, 0x6f, 0x72, 0x79, 0x2d,
     0x71, 0x75, 0x65, 0x72, 0x79, 0x3a, 0x31, 0x00]

  lemma {:induction false} AsciiBytes(s: string)
    requires forall i :: 0 <= i < |s| ==> s[i] as int < 0x80
    ensures |Utf8(s)| == |s| && forall i :: 0 <= i < |s| ==> Utf8(s)[i] as int == s[i] as int
  {
    if s != [] {
      AsciiBytes(s[1..]);
    }
  }

  lemma Starts()
    ensures Utf8(MAGIC) == QUERY_START && Utf8(HISTORY_MAGIC) == HISTORY_START
  {
    hide Utf8;
    AsciiBytes(MAGIC);
    AsciiBytes(HISTORY_MAGIC);
    assert |MAGIC| == |QUERY_START| && |HISTORY_MAGIC| == |HISTORY_START|;
    assert forall i :: 0 <= i < |MAGIC| ==> MAGIC[i] as int == QUERY_START[i] as int;
    assert forall i :: 0 <= i < |HISTORY_MAGIC| ==> HISTORY_MAGIC[i] as int == HISTORY_START[i] as int;
  }

  function ReadByte(data: Data): Option<Parsed<int>> {
    if data == [] then None else Some(Parsed(data[0] as int, data[1..]))
  }

  function ReadStatus(tag: Byte): Option<Status> {
    if tag == 0 then Some(Proposed)
    else if tag == 1 then Some(Ready)
    else if tag == 2 then Some(InProgress)
    else if tag == 3 then Some(Status.Blocked)
    else if tag == 4 then Some(Done)
    else if tag == 5 then Some(Status.Rejected)
    else None
  }

  function ReadStatuses(data: Data, n: nat): Option<Parsed<seq<Status>>>
    decreases n
  {
    if n == 0 then Some(Parsed([], data))
    else if data == [] || ReadStatus(data[0]).None? then None
    else
      match ReadStatuses(data[1..], n - 1)
      case None => None
      case Some(Parsed(others, rest)) => Some(Parsed([ReadStatus(data[0]).value] + others, rest))
  }

  datatype Asked = Asked(
    operation: ReadOperation, store: string, schema: nat, projection: ProjectionKind, ordering: ItemOrdering,
    statuses: seq<Status>)

  /** The magic text, the operation, the store, four bytes of schema, projection, ordering, and the counted statuses. */
  ghost function ReadAsked(data: Data): Option<Parsed<Asked>> {
    var start := Behind(QUERY_START, data);
    if start.None? then None
    else
      match ReadByte(start.value)
      case None => None
      case Some(Parsed(operation, afterOperation)) =>
        match ReadText(afterOperation)
        case None => None
        case Some(Parsed(store, afterStore)) =>
          match ReadWord(afterStore, 4)
          case None => None
          case Some(Parsed(schema, shape)) =>
            if |shape| < 3 || operation > 1 || shape[0] > 2 || shape[1] > 1 then None
            else
              match ReadStatuses(shape[3..], shape[2] as int)
              case None => None
              case Some(Parsed(statuses, rest)) =>
                Some(Parsed(
                  Asked(if operation == 0 then ListOperation else NextOperation, store, schema,
                        if shape[0] == 0 then Summary else if shape[0] == 1 then Work else Audit,
                        if shape[1] == 0 then NewestFirst else NextFirst, statuses),
                  rest))
  }

  /** No assignee, one by name, or the unassigned. */
  ghost function ReadOwner(data: Data): Option<Parsed<AssigneeFilter>> {
    match ReadByte(data)
    case None => None
    case Some(Parsed(tag, rest)) =>
      if tag == 0 then Some(Parsed(AnyAssignee, rest))
      else if tag == 2 then Some(Parsed(Unassigned, rest))
      else if tag != 1 then None
      else
        match ReadText(rest)
        case None => None
        case Some(Parsed(name, rest')) => Some(Parsed(Assigned(name), rest'))
  }

  function ReadRank(data: Data): Option<Parsed<Option<Priority>>> {
    if data == [] then None
    else if data[0] == 0 then Some(Parsed(None, data[1..]))
    else if data[0] != 1 || |data| < 2 || data[1] > 4 then None
    else
      Some(Parsed(
        Some(if data[1] == 0 then P0 else if data[1] == 1 then P1 else if data[1] == 2 then P2
             else if data[1] == 3 then P3 else P4),
        data[2..]))
  }

  /** Then project and requester, the owner, the priority, and as the last fields the text and the mine scope. */
  ghost function ReadQuery(data: Data): Option<(QueryInput, Option<string>)> {
    match ReadAsked(data)
    case None => None
    case Some(Parsed(a, afterAsked)) =>
      match ReadFields(afterAsked, 2)
      case None => None
      case Some(Parsed(names, afterNames)) =>
        match ReadOwner(afterNames)
        case None => None
        case Some(Parsed(owner, afterOwner)) =>
          match ReadRank(afterOwner)
          case None => None
          case Some(Parsed(priority, afterPriority)) =>
            match ReadFields(afterPriority, 2)
            case None => None
            case Some(Parsed(last, end)) =>
              if end != [] || |names| != 2 || |last| != 2 then None
              else
                Some((QueryInput(a.operation, a.store, a.schema,
                                 Effective(a.statuses, names[0], names[1], owner, priority, last[0]),
                                 a.ordering, a.projection), last[1]))
  }

  lemma {:induction false} StatusesBack(statuses: seq<Status>, x: Data)
    ensures ReadStatuses(StatusTags(statuses) + x, |statuses|) == Some(Parsed(statuses, x))
    decreases |statuses|
  {
    if statuses == [] {
      assert StatusTags(statuses) + x == x;
    } else {
      var tags := StatusTags(statuses);
      assert StatusTags(statuses[1..]) == tags[1..];
      assert tags + x == [tags[0]] + (tags[1..] + x);
      assert (tags + x)[1..] == tags[1..] + x;
      StatusesBack(statuses[1..], x);
      assert statuses == [statuses[0]] + statuses[1..];
    }
  }

  lemma OwnerBack(filter: AssigneeFilter, x: Data)
    requires filter.Assigned? ==> Sized(filter.assignee)
    ensures ReadOwner([AssigneeTag(filter)] + (AssigneeBytes(filter) + x)) == Some(Parsed(filter, x))
  {
    hide Framed, ReadText;
    var rest := AssigneeBytes(filter) + x;
    assert ([AssigneeTag(filter)] + rest)[1..] == rest;
    if filter.Assigned? {
      TextBack(filter.assignee, x);
    } else {
      assert [] + x == x;
    }
  }

  lemma RankBack(priority: Option<Priority>, x: Data)
    ensures ReadRank([PriorityTag(priority)] + (PriorityBytes(priority) + x)) == Some(Parsed(priority, x))
  {
    var data := [PriorityTag(priority)] + (PriorityBytes(priority) + x);
    if priority.None? {
      assert data[1..] == x;
    } else {
      assert data[2..] == x && data[1] == Rank(priority) as Byte;
    }
  }

  lemma {:induction false} ShapeBack(q: QueryInput, x: Data)
    requires |q.filters.statuses| <= 6
    ensures var shape := Shape(q) + (StatusTags(q.filters.statuses) + x);
            && |shape| >= 3 && shape[0] <= 2 && shape[1] <= 1 && shape[2] as int == |q.filters.statuses|
            && (shape[0] == 0 <==> q.projection.Summary?) && (shape[0] == 1 <==> q.projection.Work?)
            && (shape[1] == 0 <==> q.ordering.NewestFirst?)
            && ReadStatuses(shape[3..], |q.filters.statuses|) == Some(Parsed(q.filters.statuses, x))
  {
    hide StatusTags, ReadStatuses;
    var rest := StatusTags(q.filters.statuses) + x;
    assert (Shape(q) + rest)[3..] == rest;
    StatusesBack(q.filters.statuses, x);
  }

  lemma {:induction false} AskedBack(q: QueryInput, x: Data)
    requires Sized(q.store) && q.schema < 0x1_0000_0000 && |q.filters.statuses| <= 6
    ensures ReadAsked(Prologue(q) + (Framed(q.store) + (BigEndian(q.schema, 4) + (Shape(q)
                      + (StatusTags(q.filters.statuses) + x)))))
         == Some(Parsed(Asked(q.operation, q.store, q.schema, q.projection, q.ordering, q.filters.statuses), x))
  {
    hide Utf8, Framed, BigEndian, Power256, Shape, StatusTags, ReadText, ReadWord, ReadStatuses, Behind;
    var shape := Shape(q) + (StatusTags(q.filters.statuses) + x);
    var rest := Framed(q.store) + (BigEndian(q.schema, 4) + shape);
    var data := Prologue(q) + rest;
    Starts();
    assert data == QUERY_START + ([OperationTag(q.operation)] + rest);
    BehindBack(QUERY_START, [OperationTag(q.operation)] + rest);
    assert ([OperationTag(q.operation)] + rest)[1..] == rest;
    EightBytes();
    TextBack(q.store, BigEndian(q.schema, 4) + shape);
    WordBack(q.schema, 4, shape);
    ShapeBack(q, x);
  }

  /** The bytes a query is fingerprinted by, read back, are the query and its mine scope. */
  lemma {:induction false} QueryReadsBack(q: QueryInput, mine: Option<string>)
    requires SizedQuery(q, mine)
    ensures ReadQuery(QueryBytes(q, mine)) == Some((q, mine))
  {
    hide Prologue, Framed, BigEndian, Shape, StatusTags, Fields, AssigneeTag, AssigneeBytes, PriorityTag, PriorityBytes,
      ReadAsked, ReadFields, ReadOwner, ReadRank, SizedFields;
    var e := q.filters;
    var last := Fields([e.text, mine]);
    var afterOwner := [PriorityTag(e.priority)] + (PriorityBytes(e.priority) + last);
    var afterNames := [AssigneeTag(e.assignee)] + (AssigneeBytes(e.assignee) + afterOwner);
    AskedBack(q, Fields(Owner(e)) + afterNames);
    FieldsBack(Owner(e), afterNames);
    OwnerBack(e.assignee, afterOwner);
    RankBack(e.priority, last);
    assert last + [] == last;
    FieldsBack([e.text, mine], []);
  }

  // ---- History queries ----

  /** The magic text, store, requester and project, eight bytes of sequence, and two four-byte versions, both one. */
  ghost function ReadHistory(data: Data): Option<(string, ItemId)> {
    var start := Behind(HISTORY_START, data);
    if start.None? then None
    else
      match ReadFields(start.value, 3)
      case None => None
      case Some(Parsed(names, afterNames)) =>
        match ReadWord(afterNames, 8)
        case None => None
        case Some(Parsed(sequence, versions)) =>
          if versions != [0, 0, 0, 1, 0, 0, 0, 1] || |names| != 3 || names[0].None? || names[1].None? || names[2].None?
          then None
          else Some((names[0].value, ItemId(names[1].value, names[2].value, sequence)))
  }

  lemma Versions()
    ensures BigEndian(1, 4) + BigEndian(1, 4) == [0, 0, 0, 1, 0, 0, 0, 1]
  {
    assert BigEndian(0, 1) == [0];
    assert BigEndian(0, 2) == [0, 0];
    assert BigEndian(0, 3) == [0, 0, 0];
  }

  /** The bytes a history page is bound by, read back, are the store and the item. */
  lemma {:induction false} HistoryReadsBack(store: string, item: ItemId)
    requires SizedHistory(store, item)
    ensures ReadHistory(HistoryBytes(store, item)) == Some((store, item))
  {
    hide Utf8, Fields, BigEndian, Power256, SizedFields, ReadFields, ReadWord, Behind;
    var versions := BigEndian(1, 4) + BigEndian(1, 4);
    var rest := Fields(HistoryFields(store, item)) + (BigEndian(item.sequence, 8) + versions);
    Starts();
    BehindBack(HISTORY_START, rest);
    EightBytes();
    FieldsBack(HistoryFields(store, item), BigEndian(item.sequence, 8) + versions);
    WordBack(item.sequence, 8, versions);
    Versions();
  }
}
