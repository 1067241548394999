/**
 v1 offset pages: the SQL page with its substring coordinates against the select-all, sort, skip, take it replaced,
 and the grouping of criteria rows by item.
 */
module LegacyPages {
  import opened Wrappers
  import opened Text
  import opened Identifiers
  import opened Domain
  import opened Filters
  import opened Keys
  import opened PageQuery
  import opened Traversal

  /** A row of `items`; its raw identity columns need not be canonical. `body` is the rest of the decoded item. */
  datatype RawRow = RawRow(itemId: string, requester: string, project: string, sequence: int, body: Item)

  /** The identity part of `decode_item`. */
  function DecodedRow(row: RawRow): Option<Item> {
    match (Normalized(Upper, row.requester), Normalized(Lower, row.project))
    case (Some(requester), Some(project)) =>
      if row.sequence < 1 || row.sequence > U64_MAX then None
      else if ItemId(requester, project, row.sequence).Display() != row.itemId then None
      else Some(row.body.(id := ItemId(requester, project, row.sequence)))
    case _ => None
  }

  lemma {:induction false} DecodedIdentity(row: RawRow)
    requires DecodedRow(row).Some?
    ensures var item := DecodedRow(row).value; item.id.Valid() && item.id.Display() == row.itemId
    ensures DecodedRow(row).value.id.sequence == row.sequence
    ensures DecodedRow(row).value == row.body.(id := DecodedRow(row).value.id)
  {
    NormalizedIsCanonical(Upper, row.requester);
    NormalizedIsCanonical(Lower, row.project);
  }

  // ---- Substring coordinates ----

  /** SQLite's `instr(s, c)`: a one-based position, zero when absent. */
  function Instr(s: string, c: char): nat {
    if IndexOf(s, c) == |s| then 0 else IndexOf(s, c) + 1
  }

  /** SQLite's `substr(s, start, length)` for a start from one on; a negative length takes characters before it. */
  function Substr(s: string, start: nat, length: int): string
    requires start >= 1
  {
    if length >= 0 then
      if start > |s| then "" else s[start - 1..if start - 1 + length <= |s| then start - 1 + length else |s|]
    else
      var low := if start - 1 + length < 0 then 0 else start - 1 + length;
      var high := if start - 1 <= |s| then start - 1 else |s|;
      if low >= high then "" else s[low..high]
  }

  function SubstrFrom(s: string, start: nat): string
    requires start >= 1
  {
    if start > |s| then "" else s[start - 1..]
  }

  function RequesterPart(itemId: string): string {
    Substr(itemId, 1, Instr(itemId, ':') - 1)
  }

  function ProjectPart(itemId: string): string {
    var start := Instr(itemId, ':') + 1;
    Substr(itemId, start, Instr(SubstrFrom(itemId, start), ':') - 1)
  }

  lemma InstrFirst(a: string, rest: string)
    requires ':' !in a
    ensures Instr(a + [':'] + rest, ':') == |a| + 1
  {
    IndexOfFirst(a, ':', rest);
  }

  /** The segments of a display identity are its canonical requester and project. */
  lemma {:induction false} PartsOfDisplay(id: ItemId)
    requires id.Valid()
    ensures RequesterPart(id.Display()) == id.requester && ProjectPart(id.Display()) == id.project
  {
    hide Canonical, Padded;
    NoColon(id);
    var digits := Padded(id.sequence, 3);
    var tail := id.project + [':'] + digits;
    var s := id.Display();
    assert s == id.requester + [':'] + tail;
    InstrFirst(id.requester, tail);
    InstrFirst(id.project, digits);
    var r := |id.requester|;
    assert SubstrFrom(s, r + 2) == tail;
    assert s[0..r] == id.requester;
    assert s[r + 1..r + 1 + |id.project|] == id.project;
  }

  /** `legacy_coordinate`. */
  function LegacyCoordinate(field: SortField, row: RawRow): Value {
    match field
    case Requester => TextValue(RequesterPart(row.itemId))
    case Project => TextValue(ProjectPart(row.itemId))
    case Sequence => Number(row.sequence)
    case PriorityRank => Number(Rank(row.body.priority))
    case CapturedAt => TextValue(row.body.capturedAt)
  }

  function LegacyCompare(spec: seq<SortTerm>, a: RawRow, b: RawRow): Ordering
    decreases |spec|
  {
    if spec == [] then Equal
    else
      var c := Directed(spec[0].direction,
                        CompareValue(LegacyCoordinate(spec[0].field, a), LegacyCoordinate(spec[0].field, b)));
      if c != Equal then c else LegacyCompare(spec[1..], a, b)
  }

  lemma {:induction false} LegacyCoordinateExact(field: SortField, row: RawRow)
    requires DecodedRow(row).Some?
    ensures LegacyCoordinate(field, row) == Coordinate(field, KeyOf(DecodedRow(row).value))
  {
    hide Canonical, RequesterPart, ProjectPart;
    DecodedIdentity(row);
    PartsOfDisplay(DecodedRow(row).value.id);
  }

  lemma {:induction false} LegacyCompareExact(spec: seq<SortTerm>, a: RawRow, b: RawRow)
    requires DecodedRow(a).Some? && DecodedRow(b).Some?
    ensures LegacyCompare(spec, a, b) == CompareTerms(spec, KeyOf(DecodedRow(a).value), KeyOf(DecodedRow(b).value))
    decreases |spec|
  {
    hide DecodedRow, LegacyCoordinate, Coordinate;
    if spec != [] {
      LegacyCoordinateExact(spec[0].field, a);
      LegacyCoordinateExact(spec[0].field, b);
      LegacyCompareExact(spec[1..], a, b);
    }
  }

  // ---- The v1 comparator ----

  function Then(first: Ordering, second: Ordering): Ordering {
    if first != Equal then first else second
  }

  /** The derived order of `ItemId`: requester, project, then the numeric sequence. */
  function CompareId(a: ItemId, b: ItemId): Ordering {
    Then(CompareText(a.requester, b.requester),
         Then(CompareText(a.project, b.project), CompareInt(a.sequence, b.sequence)))
  }

  /** `order_items`. */
  function CompareItems(ordering: ItemOrdering, a: Item, b: Item): Ordering {
    match ordering
    case NewestFirst => Then(CompareText(b.capturedAt, a.capturedAt), CompareId(a.id, b.id))
    case NextFirst =>
      Then(Then(CompareInt(Rank(a.priority), Rank(b.priority)), CompareText(a.capturedAt, b.capturedAt)),
           CompareId(a.id, b.id))
  }

  lemma IdentityTerms(spec: seq<SortTerm>, a: Key, b: Key)
    requires spec == IDENTITY_ORDER
    ensures CompareTerms(spec, a, b) == CompareId(a.id, b.id)
  {
    assert spec[1..] == [SortTerm(Project, Ascending), SortTerm(Sequence, Ascending)];
    assert spec[1..][1..] == [SortTerm(Sequence, Ascending)];
    assert spec[1..][1..][1..] == [];
  }

  /** v1's comparator and v2's sort terms order any two items alike. */
  lemma CompareItemsExact(ordering: ItemOrdering, a: Item, b: Item)
    ensures CompareItems(ordering, a, b) == CompareTerms(SortSpec(ordering), KeyOf(a), KeyOf(b))
    ensures CompareItems(ordering, a, b) == Less <==> Before(ordering, a, b)
  {
    hide CompareText, KeyBefore;
    OrderExact(ordering, KeyOf(a), KeyOf(b));
    var spec := SortSpec(ordering);
    CompareTextReverse(a.capturedAt, b.capturedAt);
    if ordering.NewestFirst? {
      assert spec[1..] == IDENTITY_ORDER;
      IdentityTerms(spec[1..], KeyOf(a), KeyOf(b));
    } else {
      assert spec[1..][1..] == IDENTITY_ORDER;
      IdentityTerms(spec[1..][1..], KeyOf(a), KeyOf(b));
    }
  }

  // ---- Pages ----

  datatype OffsetPage = OffsetPage(items: seq<Item>, nextOffset: Option<nat>)

  function Skip<T>(s: seq<T>, n: nat): seq<T> {
    if n >= |s| then [] else s[n..]
  }

  /** The default `select_item_page` on the sorted list: skip, take one more than asked, truncate. */
  function SimplePage(items: seq<Item>, limit: nat, offset: nat): OffsetPage {
    var taken := TakeFirst(Skip(items, offset), limit + 1);
    OffsetPage(TakeFirst(taken, limit), if |taken| > limit then Some(offset + limit) else None)
  }

  /** Up to `limit` items from position `offset` on, and the next offset exactly when items remain beyond them. */
  predicate OffsetSlice(items: seq<Item>, limit: nat, offset: nat, page: OffsetPage) {
    && |page.items| == (if offset + limit < |items| then limit else if offset < |items| then |items| - offset else 0)
    && (forall i :: 0 <= i < |page.items| ==> page.items[i] == items[offset + i])
    && page.nextOffset == (if offset + limit < |items| then Some(offset + limit) else None)
  }

  lemma SimplePageExact(items: seq<Item>, limit: nat, offset: nat)
    ensures OffsetSlice(items, limit, offset, SimplePage(items, limit, offset))
  {
  }

  function DecodedAll(rows: seq<RawRow>): (r: seq<Item>)
    requires forall i :: 0 <= i < |rows| ==> DecodedRow(rows[i]).Some?
    ensures |r| == |rows| && forall i :: 0 <= i < |r| ==> r[i] == DecodedRow(rows[i]).value
  {
    seq(|rows|, i requires 0 <= i < |rows| => DecodedRow(rows[i]).value)
  }

  /** `legacy_page`: LIMIT limit + 1 OFFSET offset on the ordered rows, or nothing above SQLite's range. */
  method LegacyPage(rows: seq<RawRow>, limit: nat, offset: nat) returns (page: OffsetPage)
    requires forall i :: 0 <= i < |rows| ==> DecodedRow(rows[i]).Some?
    requires |rows| <= I64_MAX
    ensures page == SimplePage(DecodedAll(rows), limit, offset)
  {
    hide DecodedRow;
    if offset > I64_MAX {
      return OffsetPage([], None);
    }
    var selected := TakeFirst(Skip(rows, offset), limit + 1);
    var records, hasMore := PrimaryPage(selected, limit);
    assert forall i :: 0 <= i < |records| ==> records[i] == rows[offset + i];
    page := OffsetPage(DecodedAll(records), if hasMore then Some(offset + limit) else None);
    assert page.items == SimplePage(DecodedAll(rows), limit, offset).items;
  }

  // ---- Selection ----

  /** A row's columns as the WHERE clauses read them: raw identity, decoded body. No clause reads the sequence. */
  function RawItem(row: RawRow): Item {
    row.body.(id := ItemId(row.requester, row.project, if row.sequence < 0 then 0 else row.sequence))
  }

  const NONTERMINAL: seq<Status> := [Proposed, Ready, InProgress, Status.Blocked]

  function ViewClauses(view: View, configured: string): seq<Clause> {
    match view
    case ProposedView => [StatusIs(Proposed)]
    case ReadyView => [StatusIs(Ready)]
    case ActiveView => [StatusIn([InProgress, Status.Blocked])]
    case BlockedView => [StatusIs(Status.Blocked)]
    case DoneView => [StatusIs(Done)]
    case RejectedView => [StatusIs(Status.Rejected)]
    case MineView => [StatusIn(NONTERMINAL), AssigneeIs(LowerAscii(configured))]
    case AllView => [Always]
  }

  /** The five column filters, in the order of the loop's array. */
  function ColumnFilters(filters: ItemFilters): seq<Option<Clause>> {
    [if filters.project.Some? then Some(ProjectIs(filters.project.value)) else None,
     if filters.requester.Some? then Some(RequesterIs(filters.requester.value)) else None,
     if filters.assignee.Some? then Some(AssigneeIs(filters.assignee.value)) else None,
     if filters.status.Some? then Some(StatusIs(filters.status.value)) else None,
     if filters.priority.Some? then Some(PriorityIs(filters.priority.value)) else None]
  }

  function Present(clauses: seq<Option<Clause>>): seq<Clause>
    decreases |clauses|
  {
    if clauses == [] then []
    else
      var n := |clauses| - 1;
      Present(clauses[..n]) + if clauses[n].Some? then [clauses[n].value] else []
  }

  function LegacyClauses(view: View, configured: string, filters: ItemFilters): seq<Clause> {
    ViewClauses(view, configured) + Present(ColumnFilters(filters))
    + (if filters.unassigned then [AssigneeNull] else [])
    + (if filters.text.Some? then [TextIn(LowerAscii(filters.text.value))] else [])
  }

  /** The predicates of `legacy_page_query`, with its loop over the filtered columns. */
  method PushLegacyFilters(view: View, configured: string, filters: ItemFilters) returns (predicates: seq<Clause>)
    ensures predicates == LegacyClauses(view, configured, filters)
  {
    predicates := ViewClauses(view, configured);
    var columns := ColumnFilters(filters);
    for i := 0 to |columns|
      invariant predicates == ViewClauses(view, configured) + Present(columns[..i])
    {
      assert columns[..i + 1][..i] == columns[..i];
      if columns[i].Some? {
        predicates := predicates + [columns[i].value];
      }
    }
    assert columns[..|columns|] == columns;
    if filters.unassigned {
      predicates := predicates + [AssigneeNull];
    }
    if filters.text.Some? {
      predicates := predicates + [TextIn(LowerAscii(filters.text.value))];
    }
  }

  lemma {:induction false} PresentExact(clauses: seq<Option<Clause>>, item: Item)
    ensures AllClauses(Present(clauses), item) <==>
              forall i :: 0 <= i < |clauses| && clauses[i].Some? ==> ClauseHolds(clauses[i].value, item)
    decreases |clauses|
  {
    hide ClauseHolds, AllClauses;
    if clauses == [] {
      NoClause(item);
    } else {
      var n := |clauses| - 1;
      var last := if clauses[n].Some? then [clauses[n].value] else [];
      PresentExact(clauses[..n], item);
      ClausesAppend(Present(clauses[..n]), last, item);
      NoClause(item);
      if clauses[n].Some? {
        OneClause(clauses[n].value, item);
      }
    }
  }

  lemma NoClause(item: Item)
    ensures AllClauses([], item)
  {
  }

  lemma ColumnsExact(filters: ItemFilters, item: Item)
    ensures AllClauses(Present(ColumnFilters(filters)), item) <==>
              && (filters.project.Some? ==> item.id.project == filters.project.value)
              && (filters.requester.Some? ==> item.id.requester == filters.requester.value)
              && (filters.assignee.Some? ==> item.assignee == filters.assignee)
              && (filters.status.Some? ==> item.status == filters.status.value)
              && (filters.priority.Some? ==> item.priority == filters.priority)
  {
    hide AllClauses, Present;
    var c := ColumnFilters(filters);
    PresentExact(c, item);
    if AllClauses(Present(c), item) {
      assert c[0].Some? ==> ClauseHolds(c[0].value, item);
      assert c[1].Some? ==> ClauseHolds(c[1].value, item);
      assert c[2].Some? ==> ClauseHolds(c[2].value, item);
      assert c[3].Some? ==> ClauseHolds(c[3].value, item);
      assert c[4].Some? ==> ClauseHolds(c[4].value, item);
    }
  }

  lemma ViewExact(view: View, configured: string, item: Item)
    ensures AllClauses(ViewClauses(view, configured), item) <==> InView(view, configured, item)
  {
    hide AllClauses;
    match view
    case MineView =>
      var status, assignee := StatusIn(NONTERMINAL), AssigneeIs(LowerAscii(configured));
      OneClause(status, item);
      OneClause(assignee, item);
      ClausesAppend([status], [assignee], item);
      assert ViewClauses(view, configured) == [status] + [assignee];
    case _ => OneClause(ViewClauses(view, configured)[0], item);
  }

  lemma TextExact(text: string, item: Item)
    ensures ClauseHolds(TextIn(LowerAscii(text)), item) <==>
              || FoldedContains(item.content.title, text)
              || FoldedContains(DescriptionOrEmpty(item.content), text)
              || AnyCriterion(item.content.criteria, text)
  {
    hide Contains;
    var criteria, needle := item.content.criteria, LowerAscii(text);
    if AnyCriterion(criteria, text) {
      var i :| 0 <= i < |criteria| && FoldedContains(criteria[i], text);
      assert Contains(LowerAscii(criteria[i]), needle);
    }
    if i :| 0 <= i < |criteria| && Contains(LowerAscii(criteria[i]), needle) {
      assert FoldedContains(criteria[i], text);
    }
  }

  /** The clauses of the SQL page select, on the raw columns, what the clauses of `select_items` select. */
  lemma {:induction false} LegacyWhereExact(view: View, configured: string, filters: ItemFilters, item: Item)
    ensures AllClauses(LegacyClauses(view, configured, filters), item) <==> Selects(view, configured, filters, item)
  {
    hide AllClauses, ClauseHolds, Present, ColumnFilters, ViewClauses, InView, FoldedContains, AnyCriterion;
    var v, c := ViewClauses(view, configured), Present(ColumnFilters(filters));
    var u := if filters.unassigned then [AssigneeNull] else [];
    var t := if filters.text.Some? then [TextIn(LowerAscii(filters.text.value))] else [];
    ClausesAppend(v, c, item);
    ClausesAppend(v + c, u, item);
    ClausesAppend(v + c + u, t, item);
    ViewExact(view, configured, item);
    ColumnsExact(filters, item);
    OneClause(AssigneeNull, item);
    NullExact(item);
    if filters.text.Some? {
      OneClause(TextIn(LowerAscii(filters.text.value)), item);
      TextExact(filters.text.value, item);
    } else {
      NoClause(item);
    }
  }

  lemma NullExact(item: Item)
    ensures ClauseHolds(AssigneeNull, item) <==> item.assignee.None?
    ensures AllClauses([], item)
  {
  }

  // ---- Listings ----

  /** The primary key of `items`. */
  ghost predicate DistinctIds(table: set<RawRow>) {
    forall a, b :: a in table && b in table && a.itemId == b.itemId ==> a == b
  }

  /** A selected row that does not decode fails both algorithms; here all of them do. */
  ghost predicate AllDecode(rows: set<RawRow>) {
    forall r :: r in rows ==> DecodedRow(r).Some?
  }

  /** A listing of `rows`, each once. */
  ghost predicate Lists<T(!new)>(s: seq<T>, members: iset<T>) {
    (forall i, j :: 0 <= i < j < |s| ==> s[i] != s[j]) && (forall x :: x in s <==> x in members)
  }

  /** WHERE of `legacy_page_query`. */
  ghost function LegacySelected(view: View, configured: string, filters: ItemFilters, table: set<RawRow>): set<RawRow>
  {
    set r | r in table && AllClauses(LegacyClauses(view, configured, filters), RawItem(r))
  }

  /** WHERE of `select_items`. */
  ghost function Selected(view: View, configured: string, filters: ItemFilters, table: set<RawRow>): set<RawRow>
  {
    set r | r in table && Selects(view, configured, filters, RawItem(r))
  }

  lemma {:induction false} SameSelection(view: View, configured: string, filters: ItemFilters, table: set<RawRow>)
    ensures LegacySelected(view, configured, filters, table) == Selected(view, configured, filters, table)
  {
    hide AllClauses, LegacyClauses, Selects, RawItem;
    forall r | r in table
      ensures AllClauses(LegacyClauses(view, configured, filters), RawItem(r))
         <==> Selects(view, configured, filters, RawItem(r))
    {
      LegacyWhereExact(view, configured, filters, RawItem(r));
    }
  }

  /** ORDER BY the legacy coordinates: every selected row once, never out of order. */
  ghost predicate LegacyListing(spec: seq<SortTerm>, rows: seq<RawRow>, selected: set<RawRow>) {
    && Lists(rows, iset r | r in selected)
    && (forall i, j :: 0 <= i < j < |rows| ==> LegacyCompare(spec, rows[i], rows[j]) != Greater)
  }

  /** `select_items` sorted by `order_items`: every decoded row once, never out of order. */
  ghost predicate SortedListing(ordering: ItemOrdering, items: seq<Item>, selected: set<RawRow>) {
    && Lists(items, iset x | exists r :: r in selected && DecodedRow(r) == Some(x))
    && (forall i, j :: 0 <= i < j < |items| ==> CompareItems(ordering, items[i], items[j]) != Greater)
  }

  lemma {:induction false} DecodedApart(a: RawRow, b: RawRow)
    requires DecodedRow(a).Some? && DecodedRow(b).Some? && a.itemId != b.itemId
    ensures DecodedRow(a).value.id != DecodedRow(b).value.id
  {
    hide DecodedRow;
    DecodedIdentity(a);
    DecodedIdentity(b);
  }

  /** Distinct ids leave no ties, so the SQL order is strict. */
  lemma {:induction false} LegacyStrict(ordering: ItemOrdering, rows: seq<RawRow>, selected: set<RawRow>)
    requires LegacyListing(SortSpec(ordering), rows, selected) && AllDecode(selected) && DistinctIds(selected)
    ensures forall i :: 0 <= i < |rows| ==> DecodedRow(rows[i]).Some?
    ensures Increasing(SortSpec(ordering), DecodedAll(rows))
  {
    hide DecodedRow, LegacyCompare, SortSpec, CompareTerms;
    forall i | 0 <= i < |rows| ensures DecodedRow(rows[i]).Some? && rows[i] in selected {
      assert rows[i] in rows;
    }
    var spec, decoded := SortSpec(ordering), DecodedAll(rows);
    forall i, j | 0 <= i < j < |decoded| ensures CompareTerms(spec, KeyOf(decoded[i]), KeyOf(decoded[j])) == Less {
      LegacyCompareExact(spec, rows[i], rows[j]);
      DecodedApart(rows[i], rows[j]);
      if CompareTerms(spec, KeyOf(decoded[i]), KeyOf(decoded[j])) == Equal {
        OrderingSeparates(ordering, KeyOf(decoded[i]), KeyOf(decoded[j]));
      }
    }
  }

  /** And so is the order of the sorted items. */
  lemma {:induction false} SortedStrict(ordering: ItemOrdering, items: seq<Item>, selected: set<RawRow>)
    requires SortedListing(ordering, items, selected) && DistinctIds(selected)
    ensures Increasing(SortSpec(ordering), items)
  {
    hide DecodedRow, CompareItems, SortSpec, CompareTerms;
    var spec := SortSpec(ordering);
    forall i, j | 0 <= i < j < |items| ensures CompareTerms(spec, KeyOf(items[i]), KeyOf(items[j])) == Less {
      CompareItemsExact(ordering, items[i], items[j]);
      assert items[i] in items && items[j] in items;
      var a :| a in selected && DecodedRow(a) == Some(items[i]);
      var b :| b in selected && DecodedRow(b) == Some(items[j]);
      if a.itemId != b.itemId {
        DecodedApart(a, b);
      }
      if CompareTerms(spec, KeyOf(items[i]), KeyOf(items[j])) == Equal {
        OrderingSeparates(ordering, KeyOf(items[i]), KeyOf(items[j]));
      }
    }
  }

  lemma {:induction false} ListingsAgree(ordering: ItemOrdering, rows: seq<RawRow>, items: seq<Item>,
                                         selected: set<RawRow>)
    requires LegacyListing(SortSpec(ordering), rows, selected) && SortedListing(ordering, items, selected)
    requires AllDecode(selected) && DistinctIds(selected)
    ensures forall i :: 0 <= i < |rows| ==> DecodedRow(rows[i]).Some?
    ensures DecodedAll(rows) == items
  {
    hide DecodedRow, LegacyCompare, CompareItems, SortSpec, Increasing;
    LegacyStrict(ordering, rows, selected);
    SortedStrict(ordering, items, selected);
    var decoded := DecodedAll(rows);
    forall x | x in decoded ensures x in items {
      var i :| 0 <= i < |decoded| && decoded[i] == x;
      assert rows[i] in rows && DecodedRow(rows[i]) == Some(x);
    }
    forall x | x in items ensures x in decoded {
      var r :| r in selected && DecodedRow(r) == Some(x);
      assert r in rows;
      var i :| 0 <= i < |rows| && rows[i] == r;
      assert decoded[i] == x;
    }
    IncreasingUnique(SortSpec(ordering), decoded, items);
  }

  /**
   On a store whose selected rows all decode, the SQL page is the page of the simple algorithm, items and next offset
   alike, for every request, limit and offset, including offsets no SQLite integer can hold. Nothing is asked of the
   two listings but that each sorts, in its own order, what its own predicates select.
   */
  method LegacyPageRefines(view: View, configured: string, filters: ItemFilters, ordering: ItemOrdering,
                           ghost table: set<RawRow>, rows: seq<RawRow>, ghost items: seq<Item>, limit: nat, offset: nat)
    returns (clauses: seq<Clause>, page: OffsetPage)
    requires DistinctIds(table) && |rows| <= I64_MAX
    requires AllDecode(Selected(view, configured, filters, table))
    requires LegacyListing(SortSpec(ordering), rows, LegacySelected(view, configured, filters, table))
    requires SortedListing(ordering, items, Selected(view, configured, filters, table))
    ensures clauses == LegacyClauses(view, configured, filters)
    ensures InOrder(ordering, items)
    ensures page == SimplePage(items, limit, offset)
    ensures OffsetSlice(items, limit, offset, page)
  {
    hide LegacyClauses, LegacyListing, SortedListing, AllDecode;
    SameSelection(view, configured, filters, table);
    SortedStrict(ordering, items, Selected(view, configured, filters, table));
    IncreasingIsInOrder(ordering, items);
    clauses := PushLegacyFilters(view, configured, filters);
    ListingsAgree(ordering, rows, items, Selected(view, configured, filters, table));
    page := LegacyPage(rows, limit, offset);
    SimplePageExact(items, limit, offset);
  }

  // ---- Chains ----

  /** Requests that each continue at the previous page's next_offset, with any limits. */
  function FollowOffsets(items: seq<Item>, offset: nat, limits: seq<nat>): Walked<Item>
    decreases |limits|
  {
    if limits == [] then Walked([], false)
    else
      var page := SimplePage(items, limits[0], offset);
      if page.nextOffset.None? then Walked(page.items, true)
      else
        var rest := FollowOffsets(items, page.nextOffset.value, limits[1..]);
        Walked(page.items + rest.rows, rest.complete)
  }

  /** One page and what its next offset leaves make up what its own offset left. */
  lemma PageSplits(items: seq<Item>, limit: nat, offset: nat)
    requires limit >= 1
    ensures var page := SimplePage(items, limit, offset);
            match page.nextOffset
            case None => page.items == Skip(items, offset)
            case Some(next) => page.items != [] && Skip(items, offset) == page.items + Skip(items, next)
  {
  }

  /**
   Chaining next_offset visits the sorted list once: the items received are a prefix of what the first offset leaves,
   in order; a chain that ends has received all of it; and it ends within one page more than there are items.
   */
  lemma {:induction false} OffsetsCover(items: seq<Item>, offset: nat, limits: seq<nat>)
    requires forall i :: 0 <= i < |limits| ==> limits[i] >= 1
    ensures var w := FollowOffsets(items, offset, limits);
            && w.rows <= Skip(items, offset)
            && (w.complete ==> w.rows == Skip(items, offset))
            && (|limits| > |Skip(items, offset)| ==> w.complete)
    decreases |limits|
  {
    hide SimplePage, Skip;
    if limits != [] {
      var page := SimplePage(items, limits[0], offset);
      PageSplits(items, limits[0], offset);
      if page.nextOffset.Some? {
        OffsetsCover(items, page.nextOffset.value, limits[1..]);
      }
    }
  }

  // ---- Criteria ----

  /** A row of `item_acceptance_criteria`. */
  datatype Child = Child(itemId: string, criterion: string)

  function ChildrenOf(children: seq<Child>, itemId: string): seq<string>
    decreases |children|
  {
    if children == [] then []
    else
      var n := |children| - 1;
      ChildrenOf(children[..n], itemId) + if children[n].itemId == itemId then [children[n].criterion] else []
  }

  function Lookup(criteria: map<string, seq<string>>, itemId: string): seq<string> {
    if itemId in criteria then criteria[itemId] else []
  }

  /** `load_criteria`: one pass over the child rows, grouping by item and keeping their order. */
  method LoadCriteria(children: seq<Child>) returns (criteria: map<string, seq<string>>)
    ensures forall itemId :: Lookup(criteria, itemId) == ChildrenOf(children, itemId)
  {
    criteria := map[];
    for i := 0 to |children|
      invariant forall itemId :: Lookup(criteria, itemId) == ChildrenOf(children[..i], itemId)
    {
      var child := children[i];
      assert children[..i + 1][..i] == children[..i];
      criteria := criteria[child.itemId := Lookup(criteria, child.itemId) + [child.criterion]];
    }
    assert children[..|children|] == children;
  }

  datatype Parent = Parent(itemId: string, criteria: seq<string>)

  function ChildRows(p: Parent): seq<Child> {
    seq(|p.criteria|, i requires 0 <= i < |p.criteria| => Child(p.itemId, p.criteria[i]))
  }

  /** ORDER BY item_id, criterion_index. */
  function StoredChildren(parents: seq<Parent>): seq<Child> {
    if parents == [] then [] else ChildRows(parents[0]) + StoredChildren(parents[1..])
  }

  lemma {:induction false} ChildrenAppend(a: seq<Child>, b: seq<Child>, itemId: string)
    ensures ChildrenOf(a + b, itemId) == ChildrenOf(a, itemId) + ChildrenOf(b, itemId)
    decreases |b|
  {
    if b == [] {
      assert a + b == a;
    } else {
      var n := |b| - 1;
      assert (a + b)[..|a + b| - 1] == a + b[..n];
      ChildrenAppend(a, b[..n], itemId);
    }
  }

  lemma {:induction false} OwnChildren(p: Parent, itemId: string)
    ensures ChildrenOf(ChildRows(p), itemId) == if itemId == p.itemId then p.criteria else []
    decreases |p.criteria|
  {
    if p.criteria != [] {
      var n := |p.criteria| - 1;
      assert ChildRows(p)[..n] == ChildRows(p.(criteria := p.criteria[..n]));
      OwnChildren(p.(criteria := p.criteria[..n]), itemId);
      assert p.criteria == p.criteria[..n] + [p.criteria[n]];
    }
  }

  /** Every item of the page is hydrated with exactly its own criteria, in their stored order. */
  lemma {:induction false} HydrationExact(parents: seq<Parent>, itemId: string)
    requires forall i, j :: 0 <= i < j < |parents| ==> parents[i].itemId != parents[j].itemId
    ensures forall k :: 0 <= k < |parents| && parents[k].itemId == itemId ==>
              ChildrenOf(StoredChildren(parents), itemId) == parents[k].criteria
    ensures (forall k :: 0 <= k < |parents| ==> parents[k].itemId != itemId) ==>
              ChildrenOf(StoredChildren(parents), itemId) == []
    decreases |parents|
  {
    if parents != [] {
      HydrationExact(parents[1..], itemId);
      ChildrenAppend(ChildRows(parents[0]), StoredChildren(parents[1..]), itemId);
      OwnChildren(parents[0], itemId);
      assert forall k :: 1 <= k < |parents| ==> parents[k] == parents[1..][k - 1];
    }
  }
}
