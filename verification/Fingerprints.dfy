/**
 The bytes a page cursor is bound to: when two requests share them, and that sharing them means selecting the same
 items in the same order.
 */
module Fingerprints {
  import opened Wrappers
  import opened Bytes
  import opened Encoding
  import opened Identifiers
  import opened Domain
  import opened Filters
  import opened Keys
  import opened Validators

  datatype ReadOperation = ListOperation | NextOperation

  datatype QueryInput = QueryInput(
    operation: ReadOperation, store: string, schema: nat, filters: Effective, ordering: ItemOrdering,
    projection: ProjectionKind)

  function OperationTag(operation: ReadOperation): Byte {
    if operation.ListOperation? then 0 else 1
  }

  function ProjectionTag(kind: ProjectionKind): Byte {
    match kind
    case Summary => 0
    case Work => 1
    case Audit => 2
  }

  function OrderingTag(ordering: ItemOrdering): Byte {
    if ordering.NewestFirst? then 0 else 1
  }

  function StatusTags(statuses: seq<Status>): (r: Data)
    ensures |r| == |statuses|
    ensures forall i :: 0 <= i < |r| ==> r[i] as int == StatusIndex(statuses[i])
  {
    seq(|statuses|, i requires 0 <= i < |statuses| => StatusIndex(statuses[i]) as Byte)
  }

  function AssigneeTag(filter: AssigneeFilter): Byte {
    match filter
    case AnyAssignee => 0
    case Assigned(_) => 1
    case Unassigned => 2
  }

  function AssigneeBytes(filter: AssigneeFilter): Data {
    if filter.Assigned? then Framed(filter.assignee) else []
  }

  function PriorityTag(priority: Option<Priority>): Byte {
    if priority.None? then 0 else 1
  }

  function PriorityBytes(priority: Option<Priority>): Data {
    if priority.None? then [] else [Rank(priority) as Byte]
  }

  const MAGIC := "BIF:item-query:1\0"

  /** The tags before the store identity. */
  function Prologue(q: QueryInput): Data {
    Utf8(MAGIC) + [OperationTag(q.operation)]
  }

  /** The one-byte tags after the schema version, with the status count. */
  function Shape(q: QueryInput): Data
    requires |q.filters.statuses| <= 6
  {
    [ProjectionTag(q.projection), OrderingTag(q.ordering), |q.filters.statuses| as Byte]
  }

  function Owner(e: Effective): seq<Option<string>> {
    [e.project, e.requester]
  }

  /** `canonical_bytes`, then the mine field the cursor context appends. */
  function QueryBytes(q: QueryInput, mine: Option<string>): Data
    requires |q.filters.statuses| <= 6
  {
    var e := q.filters;
    Prologue(q) + (Framed(q.store) + (BigEndian(q.schema, 4) + (Shape(q) + (StatusTags(e.statuses) + (Fields(Owner(e))
    + ([AssigneeTag(e.assignee)] + (AssigneeBytes(e.assignee) + ([PriorityTag(e.priority)] + (PriorityBytes(e.priority)
    + Fields([e.text, mine]))))))))))
  }

  /** Lengths fit their words, as the source's types ensure. */
  predicate SizedQuery(q: QueryInput, mine: Option<string>) {
    && Sized(q.store) && q.schema < 0x1_0000_0000 && |q.filters.statuses| <= 6
    && SizedFields(Owner(q.filters)) && SizedFields([q.filters.text, mine])
    && (q.filters.assignee.Assigned? ==> Sized(q.filters.assignee.assignee))
  }

  function Head(q: QueryInput): Data
    requires |q.filters.statuses| <= 6
  {
    Prologue(q) + Framed(q.store) + BigEndian(q.schema, 4) + Shape(q)
  }

  method PushHead(bytes: ByteBuffer, q: QueryInput)
    requires |q.filters.statuses| <= 6 && bytes.bytes == []
    modifies bytes
    ensures bytes.bytes == Head(q)
  {
    hide Utf8, BigEndian, Framed;
    bytes.Extend(Utf8(MAGIC));
    bytes.Push(OperationTag(q.operation));
    assert bytes.bytes == Prologue(q);
    bytes.AppendString(q.store);
    bytes.Extend(BigEndian(q.schema, 4));
    bytes.Push(ProjectionTag(q.projection));
    bytes.Push(OrderingTag(q.ordering));
    bytes.Push(|q.filters.statuses| as Byte);
    assert bytes.bytes == Prologue(q) + Framed(q.store) + BigEndian(q.schema, 4) + Shape(q);
  }

  function Filtering(e: Effective): Data {
    StatusTags(e.statuses) + Fields(Owner(e)) + [AssigneeTag(e.assignee)] + AssigneeBytes(e.assignee)
    + [PriorityTag(e.priority)] + PriorityBytes(e.priority)
  }

  method PushFiltering(bytes: ByteBuffer, e: Effective)
    modifies bytes
    ensures bytes.bytes == old(bytes.bytes) + Filtering(e)
  {
    hide Framed, Fields, StatusTags, Owner;
    PushStatuses(bytes, e.statuses);
    bytes.AppendFields(Owner(e));
    bytes.Push(AssigneeTag(e.assignee));
    if e.assignee.Assigned? {
      bytes.AppendString(e.assignee.assignee);
    }
    assert bytes.bytes == old(bytes.bytes) + (StatusTags(e.statuses) + Fields(Owner(e)) + [AssigneeTag(e.assignee)]
                                              + AssigneeBytes(e.assignee));
    bytes.Push(PriorityTag(e.priority));
    if e.priority.Some? {
      bytes.Push(Rank(e.priority) as Byte);
    }
    assert bytes.bytes == old(bytes.bytes) + Filtering(e);
  }

  /** `canonical_bytes` and the cursor context's extra field, pushed in order. */
  method QueryFingerprint(q: QueryInput, mine: Option<string>) returns (digest: Digest)
    requires |q.filters.statuses| <= 6
    ensures digest == Sha256(QueryBytes(q, mine))
  {
    hide Head, Filtering, QueryBytes, Fields;
    var bytes := new ByteBuffer();
    PushHead(bytes, q);
    PushFiltering(bytes, q.filters);
    bytes.AppendFields([q.filters.text, mine]);
    Regroup(q, mine);
    digest := Sha256(bytes.bytes);
  }

  lemma {:induction false} Regroup(q: QueryInput, mine: Option<string>)
    requires |q.filters.statuses| <= 6
    ensures Head(q) + Filtering(q.filters) + Fields([q.filters.text, mine]) == QueryBytes(q, mine)
  {
    hide Prologue, Framed, BigEndian, Shape, StatusTags, Fields, Owner, AssigneeTag, AssigneeBytes, PriorityTag,
      PriorityBytes;
  }

  method PushStatuses(bytes: ByteBuffer, statuses: seq<Status>)
    modifies bytes
    ensures bytes.bytes == old(bytes.bytes) + StatusTags(statuses)
  {
    for i := 0 to |statuses|
      invariant bytes.bytes == old(bytes.bytes) + StatusTags(statuses[..i])
    {
      bytes.Push(StatusIndex(statuses[i]) as Byte);
      assert StatusTags(statuses[..i + 1]) == StatusTags(statuses[..i]) + [StatusIndex(statuses[i]) as Byte];
    }
    assert statuses[..|statuses|] == statuses;
  }

  // ---- Injectivity ----

  lemma EqualLengthPrefix(a: Data, b: Data, x: Data, y: Data)
    requires |a| == |b| && a + x == b + y
    ensures a == b && x == y
  {
    assert a == (a + x)[..|a|] && b == (b + y)[..|b|];
    assert x == (a + x)[|a|..] && y == (b + y)[|b|..];
  }

  lemma {:induction false} PrologueExact(a: QueryInput, b: QueryInput)
    ensures |Prologue(a)| == |Prologue(b)|
    ensures Prologue(a) == Prologue(b) <==> a.operation == b.operation
  {
    hide Utf8;
    var m := Utf8(MAGIC);
    assert Prologue(a)[|m|] == OperationTag(a.operation) && Prologue(b)[|m|] == OperationTag(b.operation);
  }

  lemma ShapeExact(a: QueryInput, b: QueryInput)
    requires |a.filters.statuses| <= 6 && |b.filters.statuses| <= 6
    ensures |Shape(a)| == |Shape(b)| == 3
    ensures Shape(a) == Shape(b) ==>
              a.projection == b.projection && a.ordering == b.ordering
              && |a.filters.statuses| == |b.filters.statuses|
  {
    var p, q := Shape(a), Shape(b);
    if p == q {
      assert p[0] == q[0] && p[1] == q[1] && p[2] == q[2];
    }
  }

  lemma StatusTagsInjective(a: seq<Status>, b: seq<Status>)
    requires StatusTags(a) == StatusTags(b)
    ensures a == b
  {
    assert |a| == |StatusTags(a)| == |StatusTags(b)| == |b|;
    forall i | 0 <= i < |a| ensures a[i] == b[i] {
      assert StatusTags(a)[i] == StatusTags(b)[i];
    }
  }

  lemma AssigneePrefix(a: AssigneeFilter, b: AssigneeFilter, x: Data, y: Data)
    requires a.Assigned? ==> Sized(a.assignee)
    requires b.Assigned? ==> Sized(b.assignee)
    requires [AssigneeTag(a)] + (AssigneeBytes(a) + x) == [AssigneeTag(b)] + (AssigneeBytes(b) + y)
    ensures a == b && x == y
  {
    hide Framed;
    BytePrefix(AssigneeTag(a), AssigneeTag(b), AssigneeBytes(a) + x, AssigneeBytes(b) + y);
    if a.Assigned? {
      FramedPrefix(a.assignee, b.assignee, x, y);
    } else {
      assert AssigneeBytes(a) + x == x && AssigneeBytes(b) + y == y;
    }
  }

  lemma PriorityPrefix(a: Option<Priority>, b: Option<Priority>, x: Data, y: Data)
    requires [PriorityTag(a)] + (PriorityBytes(a) + x) == [PriorityTag(b)] + (PriorityBytes(b) + y)
    ensures a == b && x == y
  {
    BytePrefix(PriorityTag(a), PriorityTag(b), PriorityBytes(a) + x, PriorityBytes(b) + y);
    EqualLengthPrefix(PriorityBytes(a), PriorityBytes(b), x, y);
    if a.Some? {
      assert PriorityBytes(a)[0] == PriorityBytes(b)[0];
    }
  }

  /** The parts of the fingerprint behind the status tags. */
  lemma RestInjective(a: Effective, m: Option<string>, b: Effective, n: Option<string>)
    requires SizedFields(Owner(a)) && SizedFields([a.text, m]) && (a.assignee.Assigned? ==> Sized(a.assignee.assignee))
    requires SizedFields(Owner(b)) && SizedFields([b.text, n]) && (b.assignee.Assigned? ==> Sized(b.assignee.assignee))
    requires Fields(Owner(a)) + ([AssigneeTag(a.assignee)] + (AssigneeBytes(a.assignee)
             + ([PriorityTag(a.priority)] + (PriorityBytes(a.priority) + Fields([a.text, m])))))
          == Fields(Owner(b)) + ([AssigneeTag(b.assignee)] + (AssigneeBytes(b.assignee)
             + ([PriorityTag(b.priority)] + (PriorityBytes(b.priority) + Fields([b.text, n])))))
    ensures b == a.(statuses := b.statuses) && m == n
  {
    hide Fields, SizedFields, AssigneeTag, AssigneeBytes, PriorityTag, PriorityBytes, Sized;
    var p2, q2 := [PriorityTag(a.priority)] + (PriorityBytes(a.priority) + Fields([a.text, m])),
                  [PriorityTag(b.priority)] + (PriorityBytes(b.priority) + Fields([b.text, n]));
    FieldsPrefix(Owner(a), Owner(b), [AssigneeTag(a.assignee)] + (AssigneeBytes(a.assignee) + p2),
                 [AssigneeTag(b.assignee)] + (AssigneeBytes(b.assignee) + q2));
    assert Owner(a)[0] == Owner(b)[0] && Owner(a)[1] == Owner(b)[1];
    AssigneePrefix(a.assignee, b.assignee, p2, q2);
    PriorityPrefix(a.priority, b.priority, Fields([a.text, m]), Fields([b.text, n]));
    assert Fields([a.text, m]) + [] == Fields([a.text, m]) && Fields([b.text, n]) + [] == Fields([b.text, n]);
    FieldsPrefix([a.text, m], [b.text, n], [], []);
    assert [a.text, m][0] == [b.text, n][0] && [a.text, m][1] == [b.text, n][1];
  }

  /** Fingerprint bytes determine the whole normalised query and the mine scope. */
  lemma {:induction false} QueryBytesInjective(a: QueryInput, m: Option<string>, b: QueryInput, n: Option<string>)
    requires SizedQuery(a, m) && SizedQuery(b, n)
    ensures QueryBytes(a, m) == QueryBytes(b, n) <==> a == b && m == n
  {
    hide Prologue, Framed, BigEndian, Power256, Shape, StatusTags, Fields, SizedFields, Owner, AssigneeTag,
      AssigneeBytes, PriorityTag, PriorityBytes, Sized;
    if QueryBytes(a, m) == QueryBytes(b, n) {
      var e, f := a.filters, b.filters;
      var x5, y5 := Fields(Owner(e)) + ([AssigneeTag(e.assignee)] + (AssigneeBytes(e.assignee)
                      + ([PriorityTag(e.priority)] + (PriorityBytes(e.priority) + Fields([e.text, m]))))),
                    Fields(Owner(f)) + ([AssigneeTag(f.assignee)] + (AssigneeBytes(f.assignee)
                      + ([PriorityTag(f.priority)] + (PriorityBytes(f.priority) + Fields([f.text, n])))));
      var x4, y4 := StatusTags(e.statuses) + x5, StatusTags(f.statuses) + y5;
      var x3, y3 := Shape(a) + x4, Shape(b) + y4;
      var x2, y2 := BigEndian(a.schema, 4) + x3, BigEndian(b.schema, 4) + y3;
      PrologueExact(a, b);
      EqualLengthPrefix(Prologue(a), Prologue(b), Framed(a.store) + x2, Framed(b.store) + y2);
      FramedPrefix(a.store, b.store, x2, y2);
      EightBytes();
      BigEndianPrefix(a.schema, b.schema, 4, x3, y3);
      ShapeExact(a, b);
      EqualLengthPrefix(Shape(a), Shape(b), x4, y4);
      EqualLengthPrefix(StatusTags(e.statuses), StatusTags(f.statuses), x5, y5);
      StatusTagsInjective(e.statuses, f.statuses);
      RestInjective(e, m, f, n);
    }
  }

  // ---- Requests ----

  /** A page request, as far as its cursor is bound to it. */
  datatype PageScope = PageScope(
    view: View, configured: string, filters: ItemFilters, ordering: ItemOrdering, projection: ProjectionKind)

  const PROJECTION_SCHEMA_VERSION: nat := 1

  function ScopeQuery(store: string, r: PageScope): QueryInput
    requires Filters.Typed(r.configured, r.filters) && Resolved(r.view, r.configured, r.filters).Ok?
  {
    QueryInput(if r.ordering.NewestFirst? then ListOperation else NextOperation, store, PROJECTION_SCHEMA_VERSION,
               Resolved(r.view, r.configured, r.filters).value, r.ordering, r.projection)
  }

  /** Resolved mine ownership, kept when the normalised filters erased it. */
  function MineScope(r: PageScope): Option<string>
    requires Filters.Typed(r.configured, r.filters) && Resolved(r.view, r.configured, r.filters).Ok?
  {
    if r.view.MineView? && Resolved(r.view, r.configured, r.filters).value.statuses == [] then Some(r.configured)
    else None
  }

  /** The requester of a mine view that selects no item whatsoever. */
  ghost function EmptyMine(r: PageScope): Option<string> {
    if r.view == MineView && forall item: Item :: !Selects(r.view, r.configured, r.filters, item) then
      Some(r.configured)
    else None
  }

  lemma MineScopeExact(r: PageScope)
    requires Filters.Typed(r.configured, r.filters) && Resolved(r.view, r.configured, r.filters).Ok?
    ensures MineScope(r) == EmptyMine(r)
  {
    hide Filters.Typed, Resolved, Selects;
    ContradictionExact(r.view, r.configured, r.filters);
    ResolvedNormal(r.view, r.configured, r.filters);
  }

  ghost predicate SameSelection(a: PageScope, b: PageScope) {
    && a.ordering == b.ordering && a.projection == b.projection
    && forall item: Item :: Selects(a.view, a.configured, a.filters, item) <==> Selects(b.view, b.configured,
        b.filters, item)
  }

  lemma AtMostSix(view: View, configured: string, filters: ItemFilters)
    requires Filters.Typed(configured, filters) && Resolved(view, configured, filters).Ok?
    ensures |Resolved(view, configured, filters).value.statuses| <= 6
  {
    hide Canonical, Blank;
    RetainedShorter(ViewStatuses(view), filters.status);
  }

  lemma {:induction false} RetainedShorter(statuses: seq<Status>, keep: Option<Status>)
    ensures |Retained(statuses, keep)| <= |statuses|
    decreases |statuses|
  {
    if statuses != [] {
      RetainedShorter(statuses[1..], keep);
    }
  }

  /**
   Two page requests share their fingerprint bytes exactly when they address the same store, select the same items,
   in the same order and projection, and, where that is no item at all, are mine views of the same requester or neither
   is a mine view.
   */
  lemma {:induction false} FingerprintExact(store: string, a: PageScope, store2: string, b: PageScope)
    requires Filters.Typed(a.configured, a.filters) && Resolved(a.view, a.configured, a.filters).Ok?
    requires Filters.Typed(b.configured, b.filters) && Resolved(b.view, b.configured, b.filters).Ok?
    requires SizedQuery(ScopeQuery(store, a), MineScope(a)) && SizedQuery(ScopeQuery(store2, b), MineScope(b))
    ensures QueryBytes(ScopeQuery(store, a), MineScope(a)) == QueryBytes(ScopeQuery(store2, b), MineScope(b)) <==>
            store == store2 && SameSelection(a, b) && EmptyMine(a) == EmptyMine(b)
    ensures ScopeQuery(store, a).operation
         == (match a.ordering case NewestFirst => ListOperation case NextFirst => NextOperation)
  {
    hide Filters.Typed, Resolved, Selects, QueryBytes, SizedFields, Sized, MineScope, EmptyMine;
    MineScopeExact(a);
    MineScopeExact(b);
    QueryBytesInjective(ScopeQuery(store, a), MineScope(a), ScopeQuery(store2, b), MineScope(b));
    NormalisationExact(a.view, a.configured, a.filters, b.view, b.configured, b.filters);
  }
}
