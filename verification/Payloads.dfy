/**
 The bytes whose digest identifies a write: when two requests share them, and what that makes an idempotency key do.
 */
module Payloads {
  import opened Wrappers
  import opened Text
  import opened Bytes
  import opened Encoding
  import opened Identifiers
  import opened Domain
  import opened Ledger

  // ---- Capture ----

  function Somes(texts: seq<string>): (r: seq<Option<string>>)
    ensures |r| == |texts|
    ensures forall i :: 0 <= i < |r| ==> r[i] == Some(texts[i])
  {
    seq(|texts|, i requires 0 <= i < |texts| => Some(texts[i]))
  }

  function HostText(host: SourceHost): string {
    match host
    case Delta => "delta"
    case Codex => "codex"
    case Local => "local"
  }

  function HostField(host: Option<SourceHost>): Option<string> {
    if host.None? then None else Some(HostText(host.value))
  }

  function CaptureHead(input: CaptureInput): seq<Option<string>> {
    [Some(input.requester), Some(input.project), Some(input.content.title), input.content.description]
  }

  function CaptureTail(p: Provenance): seq<Option<string>> {
    [HostField(p.sourceHost), p.thread, p.message, p.url, p.repository, p.revisionReference, p.excerpt]
  }

  function CaptureBytes(input: CaptureInput): Data {
    Fields(CaptureHead(input)) + (BigEndian(|input.content.criteria|, 8)
                                  + (Fields(Somes(input.content.criteria)) + Fields(CaptureTail(input.provenance))))
  }

  /** Every length fits the word it is written in. */
  predicate SizedCapture(input: CaptureInput) {
    && SizedFields(CaptureHead(input)) && |input.content.criteria| <= U64_MAX
    && SizedFields(Somes(input.content.criteria)) && SizedFields(CaptureTail(input.provenance))
  }

  /** `capture_payload_hash`. */
  method CapturePayload(input: CaptureInput) returns (digest: Digest)
    ensures digest == Sha256(CaptureBytes(input))
  {
    hide Fields, BigEndian, CaptureHead, CaptureTail, Somes;
    var canonical := new ByteBuffer();
    canonical.AppendFields(CaptureHead(input));
    canonical.Extend(BigEndian(|input.content.criteria|, 8));
    canonical.AppendFields(Somes(input.content.criteria));
    canonical.AppendFields(CaptureTail(input.provenance));
    assert canonical.bytes == CaptureBytes(input);
    digest := Sha256(canonical.bytes);
  }

  lemma HostInjective(a: Option<SourceHost>, b: Option<SourceHost>)
    ensures HostField(a) == HostField(b) <==> a == b
  {
    assert "delta"[0] == 'd' && "codex"[0] == 'c' && "local"[0] == 'l';
  }

  lemma TailInjective(a: Provenance, b: Provenance)
    requires CaptureTail(a) == CaptureTail(b)
    ensures a == b
  {
    var p, q := CaptureTail(a), CaptureTail(b);
    assert p[0] == q[0] && p[1] == q[1] && p[2] == q[2] && p[3] == q[3] && p[4] == q[4] && p[5] == q[5] && p[6] == q[6];
    HostInjective(a.sourceHost, b.sourceHost);
  }

  lemma HeadInjective(a: CaptureInput, b: CaptureInput)
    requires CaptureHead(a) == CaptureHead(b)
    ensures a.requester == b.requester && a.project == b.project
    ensures a.content.title == b.content.title && a.content.description == b.content.description
  {
    var p, q := CaptureHead(a), CaptureHead(b);
    assert p[0] == q[0] && p[1] == q[1] && p[2] == q[2] && p[3] == q[3];
  }

  lemma SomesInjective(a: seq<string>, b: seq<string>)
    requires Somes(a) == Somes(b)
    ensures a == b
  {
    assert forall i :: 0 <= i < |a| ==> Somes(a)[i] == Somes(b)[i];
  }

  /** Capture payloads share their bytes only when they are the same request. */
  lemma CaptureBytesInjective(a: CaptureInput, b: CaptureInput)
    requires SizedCapture(a) && SizedCapture(b)
    ensures CaptureBytes(a) == CaptureBytes(b) <==> a == b
  {
    hide Fields, BigEndian, Power256, SizedFields, CaptureHead, CaptureTail, Somes;
    if CaptureBytes(a) == CaptureBytes(b) {
      var n, m := |a.content.criteria|, |b.content.criteria|;
      var x2, y2 := Fields(Somes(a.content.criteria)) + Fields(CaptureTail(a.provenance)),
                    Fields(Somes(b.content.criteria)) + Fields(CaptureTail(b.provenance));
      HeadLengths(a);
      HeadLengths(b);
      FieldsPrefix(CaptureHead(a), CaptureHead(b), BigEndian(n, 8) + x2, BigEndian(m, 8) + y2);
      EightBytes();
      BigEndianPrefix(n, m, 8, x2, y2);
      FieldsPrefix(Somes(a.content.criteria), Somes(b.content.criteria),
                   Fields(CaptureTail(a.provenance)), Fields(CaptureTail(b.provenance)));
      var p, q := Fields(CaptureTail(a.provenance)), Fields(CaptureTail(b.provenance));
      assert p + [] == p && q + [] == q;
      FieldsPrefix(CaptureTail(a.provenance), CaptureTail(b.provenance), [], []);
      HeadInjective(a, b);
      SomesInjective(a.content.criteria, b.content.criteria);
      TailInjective(a.provenance, b.provenance);
    }
  }

  lemma HeadLengths(a: CaptureInput)
    ensures |CaptureHead(a)| == 4 && |CaptureTail(a.provenance)| == 7
  {
  }

  // ---- Mutation ----

  datatype MutationRequest =
    MutationRequest(item: ItemId, expected: nat, mutation: Mutation, actor: Actor, execution: Execution)

  function LifecycleText(lifecycle: Lifecycle): string {
    match lifecycle
    case Approve => "approve"
    case Reject(_) => "reject"
    case Start => "start"
    case Block(_) => "block"
    case Resume => "resume"
    case Finish => "finish"
  }

  function LifecycleFields(lifecycle: Option<Lifecycle>): seq<Option<string>> {
    if lifecycle.None? then [None, None] else [Some(LifecycleText(lifecycle.value)), ReasonOf(lifecycle.value)]
  }

  function PriorityField(field: TriageField<Priority>): Option<string> {
    match field
    case Omitted => None
    case Clear => Some("clear")
    case Set(P0) => Some("set:P0")
    case Set(P1) => Some("set:P1")
    case Set(P2) => Some("set:P2")
    case Set(P3) => Some("set:P3")
    case Set(P4) => Some("set:P4")
  }

  function AssigneeField(field: TriageField<string>): Option<string> {
    match field
    case Omitted => None
    case Clear => Some("clear")
    case Set(assignee) => Some(assignee)
  }

  /** Marker first: one field without triage, four with it. */
  function TriageMarker(triage: Option<Triage>): Option<string> {
    if triage.None? then None else Some("triage")
  }

  function TriageRest(triage: Option<Triage>): seq<Option<string>> {
    if triage.None? then []
    else [PriorityField(triage.value.priority), AssigneeField(triage.value.assignee), triage.value.note]
  }

  function ActorText(kind: ActorKind): string {
    if kind.Human? then "human" else "agent"
  }

  function CallerFields(actor: Actor, execution: Execution): seq<Option<string>> {
    [Some(ActorText(actor.kind)), Some(actor.id), Some(actor.surface), Some(actor.host)]
    + match execution
      case Direct(surface, host) => [Some("direct"), None, Some(surface), Some(host)]
      case ByAgent(agentId, surface, host) => [Some("agent"), Some(agentId), Some(surface), Some(host)]
  }

  function MutationBytes(r: MutationRequest): Data {
    Field(Some(r.item.Display()))
    + (BigEndian(r.expected, 8)
       + (Fields(LifecycleFields(r.mutation.lifecycle) + [TriageMarker(r.mutation.triage)])
          + (Fields(TriageRest(r.mutation.triage)) + Fields(CallerFields(r.actor, r.execution)))))
  }

  predicate SizedMutation(r: MutationRequest) {
    && Sized(r.item.Display()) && r.expected <= U64_MAX
    && SizedFields(LifecycleFields(r.mutation.lifecycle) + [TriageMarker(r.mutation.triage)])
    && SizedFields(TriageRest(r.mutation.triage)) && SizedFields(CallerFields(r.actor, r.execution))
  }

  /** `mutation_payload_hash`. */
  method MutationPayload(r: MutationRequest) returns (digest: Digest)
    ensures digest == Sha256(MutationBytes(r))
  {
    hide Fields, Field, BigEndian;
    var canonical := new ByteBuffer();
    canonical.AppendField(Some(r.item.Display()));
    canonical.Extend(BigEndian(r.expected, 8));
    canonical.AppendFields(LifecycleFields(r.mutation.lifecycle) + [TriageMarker(r.mutation.triage)]);
    canonical.AppendFields(TriageRest(r.mutation.triage));
    canonical.AppendFields(CallerFields(r.actor, r.execution));
    assert canonical.bytes == MutationBytes(r);
    digest := Sha256(canonical.bytes);
  }

  /** Clearing the assignee and assigning `clear` are written alike. */
  function Collapsed(m: Mutation): Mutation {
    if m.triage.Some? && m.triage.value.assignee.Clear? then
      m.(triage := Some(m.triage.value.(assignee := Set("clear"))))
    else m
  }

  function CollapsedRequest(r: MutationRequest): MutationRequest {
    r.(mutation := Collapsed(r.mutation))
  }

  lemma LifecycleInjective(a: Option<Lifecycle>, b: Option<Lifecycle>)
    ensures LifecycleFields(a) == LifecycleFields(b) <==> a == b
  {
    assert "approve"[0] == 'a' && "reject"[2] == 'j' && "start"[0] == 's' && "block"[0] == 'b' && "resume"[2] == 's'
           && "finish"[0] == 'f' && "reject"[0] == 'r' && "resume"[0] == 'r';
    var p, q := LifecycleFields(a), LifecycleFields(b);
    if p == q {
      assert p[0] == q[0] && p[1] == q[1];
    }
  }

  lemma PriorityInjective(a: TriageField<Priority>, b: TriageField<Priority>)
    ensures PriorityField(a) == PriorityField(b) <==> a == b
  {
    assert "clear"[0] == 'c' && "set:P0"[5] == '0' && "set:P1"[5] == '1' && "set:P2"[5] == '2' && "set:P3"[5] == '3'
           && "set:P4"[5] == '4' && "set:P0"[0] == 's';
  }

  lemma TriageExact(a: Mutation, b: Mutation)
    requires a.lifecycle == b.lifecycle
    ensures TriageMarker(a.triage) == TriageMarker(b.triage) && TriageRest(a.triage) == TriageRest(b.triage)
            <==> Collapsed(a) == Collapsed(b)
  {
    var p, q := TriageRest(a.triage), TriageRest(b.triage);
    if a.triage.Some? && b.triage.Some? {
      PriorityInjective(a.triage.value.priority, b.triage.value.priority);
      assert p == q <==> p[0] == q[0] && p[1] == q[1] && p[2] == q[2];
    }
  }

  lemma CallerInjective(a: Actor, e: Execution, b: Actor, f: Execution)
    requires CallerFields(a, e) == CallerFields(b, f)
    ensures a == b && e == f
  {
    assert "human"[0] == 'h' && "agent"[0] == 'a' && "direct"[0] == 'd';
    var p, q := CallerFields(a, e), CallerFields(b, f);
    assert p[0] == q[0] && p[1] == q[1] && p[2] == q[2] && p[3] == q[3];
    assert p[4] == q[4] && p[5] == q[5] && p[6] == q[6] && p[7] == q[7];
  }

  lemma MutationLengths(r: MutationRequest)
    ensures |LifecycleFields(r.mutation.lifecycle) + [TriageMarker(r.mutation.triage)]| == 3
    ensures |CallerFields(r.actor, r.execution)| == 8
    ensures |TriageRest(r.mutation.triage)| == if TriageMarker(r.mutation.triage).None? then 0 else 3
  {
  }

  lemma SnocEqual(a: seq<Option<string>>, x: Option<string>, b: seq<Option<string>>, y: Option<string>)
    requires a + [x] == b + [y]
    ensures a == b && x == y
  {
    assert |a + [x]| == |b + [y]|;
    assert a == (a + [x])[..|a|] && b == (b + [y])[..|a|];
    assert x == (a + [x])[|a|] && y == (b + [y])[|a|];
  }

  lemma {:induction false} MutationPieces(a: MutationRequest, b: MutationRequest)
    requires SizedMutation(a) && SizedMutation(b) && MutationBytes(a) == MutationBytes(b)
    ensures a.item.Display() == b.item.Display() && a.expected == b.expected
    ensures LifecycleFields(a.mutation.lifecycle) == LifecycleFields(b.mutation.lifecycle)
    ensures TriageMarker(a.mutation.triage) == TriageMarker(b.mutation.triage)
    ensures TriageRest(a.mutation.triage) == TriageRest(b.mutation.triage)
    ensures CallerFields(a.actor, a.execution) == CallerFields(b.actor, b.execution)
  {
    hide Fields, Field, BigEndian, Power256, SizedFields, LifecycleFields, TriageMarker, TriageRest, CallerFields,
      Utf8;
    var la, lb := LifecycleFields(a.mutation.lifecycle) + [TriageMarker(a.mutation.triage)],
                  LifecycleFields(b.mutation.lifecycle) + [TriageMarker(b.mutation.triage)];
    var ta, tb := TriageRest(a.mutation.triage), TriageRest(b.mutation.triage);
    var ca, cb := CallerFields(a.actor, a.execution), CallerFields(b.actor, b.execution);
    var a1, b1 := Fields(ta) + Fields(ca), Fields(tb) + Fields(cb);
    MutationLengths(a);
    MutationLengths(b);
    FieldPrefix(Some(a.item.Display()), Some(b.item.Display()),
                BigEndian(a.expected, 8) + (Fields(la) + a1), BigEndian(b.expected, 8) + (Fields(lb) + b1));
    EightBytes();
    BigEndianPrefix(a.expected, b.expected, 8, Fields(la) + a1, Fields(lb) + b1);
    FieldsPrefix(la, lb, a1, b1);
    SnocEqual(LifecycleFields(a.mutation.lifecycle), TriageMarker(a.mutation.triage),
              LifecycleFields(b.mutation.lifecycle), TriageMarker(b.mutation.triage));
    FieldsPrefix(ta, tb, Fields(ca), Fields(cb));
    assert Fields(ca) + [] == Fields(ca) && Fields(cb) + [] == Fields(cb);
    FieldsPrefix(ca, cb, [], []);
  }

  /**
   Mutation payloads share their bytes exactly when they are the same request, or differ only in clearing the
   assignee against assigning the assignee named `clear`.
   */
  lemma {:induction false} MutationBytesExact(a: MutationRequest, b: MutationRequest)
    requires SizedMutation(a) && SizedMutation(b) && a.item.Valid() && b.item.Valid()
    ensures MutationBytes(a) == MutationBytes(b) <==> CollapsedRequest(a) == CollapsedRequest(b)
  {
    hide Canonical, Fields, Field, BigEndian, SizedMutation, MutationBytes, LifecycleFields, CallerFields,
      TriageMarker, TriageRest;
    if MutationBytes(a) == MutationBytes(b) {
      MutationPieces(a, b);
      DisplayInjective(a.item, b.item);
      LifecycleInjective(a.mutation.lifecycle, b.mutation.lifecycle);
      TriageExact(a.mutation, b.mutation);
      CallerInjective(a.actor, a.execution, b.actor, b.execution);
    }
    if CollapsedRequest(a) == CollapsedRequest(b) {
      TriageExact(a.mutation, b.mutation);
      SameMutationBytes(a, b);
    }
  }

  lemma SameMutationBytes(a: MutationRequest, b: MutationRequest)
    requires a == b.(mutation := a.mutation) && a.mutation.lifecycle == b.mutation.lifecycle
    requires TriageMarker(a.mutation.triage) == TriageMarker(b.mutation.triage)
    requires TriageRest(a.mutation.triage) == TriageRest(b.mutation.triage)
    ensures MutationBytes(a) == MutationBytes(b)
  {
  }

  lemma {:induction false} ClearIsAnAssignee()
    ensures Canonical(Lower, "clear")
  {
    hide Canonical;
    SingleToken(Lower, "clear");
  }

  /**
   The collision is real: on an assigned item the two requests do different things, yet under one key the second is
   answered as a replay of the first.
   */
  lemma {:induction false} ClearCollides(r: MutationRequest, item: Item)
    requires r.mutation == Mutation(None, Some(Triage(Omitted, Clear, None)))
    requires item.assignee.Some? && !Terminal(item.status) && item.revision < U64_MAX
    ensures Canonical(Lower, "clear")
    ensures var other := r.(mutation := Mutation(None, Some(Triage(Omitted, Set("clear"), None))));
            && other != r && MutationBytes(other) == MutationBytes(r)
            && Applied(item, other.mutation).Ok? && Applied(item, r.mutation).Ok?
            && Applied(item, other.mutation).value.0.assignee == Some("clear")
            && Applied(item, r.mutation).value.0.assignee == None
  {
    hide Canonical, MutationBytes, TriageRest, TriageMarker;
    var other := r.(mutation := Mutation(None, Some(Triage(Omitted, Set("clear"), None))));
    ClearIsAnAssignee();
    TriageExact(r.mutation, other.mutation);
    SameMutationBytes(r, other);
    ClearEffect(item);
  }

  lemma ClearEffect(item: Item)
    requires item.assignee.Some? && !Terminal(item.status) && item.revision < U64_MAX
    ensures var clear := Applied(item, Mutation(None, Some(Triage(Omitted, Clear, None))));
            clear.Ok? && clear.value.0.assignee == None
    ensures var assign := Applied(item, Mutation(None, Some(Triage(Omitted, Set("clear"), None))));
            assign.Ok? && assign.value.0.assignee == Some("clear")
  {
  }

  /** A capture never shares its bytes with a mutation: requesters hold no colon, item ids do. */
  lemma {:induction false} CaptureIsNoMutation(c: CaptureInput, m: MutationRequest)
    requires SizedCapture(c) && SizedMutation(m) && Canonical(Upper, c.requester)
    ensures CaptureBytes(c) != MutationBytes(m)
  {
    hide Fields, Field, BigEndian, Canonical, Split, Utf8;
    CanonicalChars(Upper, c.requester);
    DisplayHasColon(m.item);
    if CaptureBytes(c) == MutationBytes(m) {
      var rest := FirstField(c);
      var tail := BigEndian(m.expected, 8)
                  + (Fields(LifecycleFields(m.mutation.lifecycle) + [TriageMarker(m.mutation.triage)])
                     + (Fields(TriageRest(m.mutation.triage)) + Fields(CallerFields(m.actor, m.execution))));
      assert SizedFields(CaptureHead(c)) && SizedField(CaptureHead(c)[0]);
      FieldPrefix(Some(c.requester), Some(m.item.Display()), rest, tail);
      assert false;
    }
  }

  lemma DisplayHasColon(item: ItemId)
    ensures ':' in item.Display()
  {
    assert item.Display()[|item.requester|] == ':';
  }

  lemma FirstField(c: CaptureInput) returns (rest: Data)
    ensures CaptureBytes(c) == Field(Some(c.requester)) + rest
  {
    hide Field, BigEndian;
    var more := BigEndian(|c.content.criteria|, 8)
                + (Fields(Somes(c.content.criteria)) + Fields(CaptureTail(c.provenance)));
    rest := Fields(CaptureHead(c)[1..]) + more;
    assert Fields(CaptureHead(c)) == Field(Some(c.requester)) + Fields(CaptureHead(c)[1..]);
  }
}
