/**
 The keyset page query: the predicate the boundary loop builds, what the whole WHERE clause means, and the page it
 selects. SQL text appears as the clauses it denotes.
 */
module PageQuery {
  import opened Wrappers
  import opened Text
  import opened Domain
  import opened Filters
  import opened Keys

  // ---- Clauses ----

  datatype Operator = Lt | Le | Eq | Ge | Gt

  /** `column operator ?n`. */
  datatype Test = Test(field: SortField, operator: Operator, value: Value)

  predicate Holds(t: Test, row: Key) {
    var c := CompareValue(Coordinate(t.field, row), t.value);
    match t.operator
    case Lt => c == Less
    case Le => c != Greater
    case Eq => c == Equal
    case Ge => c != Less
    case Gt => c == Greater
  }

  /** Tests joined by AND; none at all is the literal 1. */
  predicate All(tests: seq<Test>, row: Key) {
    forall i :: 0 <= i < |tests| ==> Holds(tests[i], row)
  }

  /** Branches joined by OR; none at all is the literal 0. */
  predicate Any(branches: seq<seq<Test>>, row: Key) {
    exists i :: 0 <= i < |branches| && All(branches[i], row)
  }

  datatype Clause =
    | Never
    | StatusIs(status: Status)
    | StatusIn(statuses: seq<Status>)
    | ProjectIs(text: string)
    | RequesterIs(text: string)
    | PriorityIs(priority: Priority)
    | AssigneeNull
    | AssigneeIs(text: string)
    | TextIn(needle: string)
    | Leading(test: Test)
    | Alternatives(branches: seq<seq<Test>>)
    | Always

  predicate TextClause(content: Content, needle: string) {
    || Contains(LowerAscii(content.title), needle)
    || Contains(LowerAscii(DescriptionOrEmpty(content)), needle)
    || exists i :: 0 <= i < |content.criteria| && Contains(LowerAscii(content.criteria[i]), needle)
  }

  predicate ClauseHolds(c: Clause, item: Item) {
    match c
    case Never => false
    case StatusIs(status) => item.status == status
    case StatusIn(statuses) => item.status in statuses
    case ProjectIs(text) => item.id.project == text
    case RequesterIs(text) => item.id.requester == text
    case PriorityIs(priority) => item.priority == Some(priority)
    case AssigneeNull => item.assignee.None?
    case AssigneeIs(text) => item.assignee == Some(text)
    case TextIn(needle) => TextClause(item.content, needle)
    case Leading(test) => Holds(test, KeyOf(item))
    case Alternatives(branches) => Any(branches, KeyOf(item))
    case Always => true
  }

  predicate AllClauses(clauses: seq<Clause>, item: Item) {
    forall i :: 0 <= i < |clauses| ==> ClauseHolds(clauses[i], item)
  }

  // ---- The boundary ----

  /** The bound parameter; None for a sequence SQLite's integers cannot hold. */
  function BoundValue(field: SortField, boundary: Key): Option<Value> {
    if field == Sequence && boundary.id.sequence > I64_MAX then None else Some(Coordinate(field, boundary))
  }

  function Strict(direction: Direction): Operator {
    if direction.Ascending? then Gt else Lt
  }

  function Weak(direction: Direction): Operator {
    if direction.Ascending? then Ge else Le
  }

  /** What the loop still pushes from `spec` on, with `prefix` already forced equal. */
  function Branches(spec: seq<SortTerm>, boundary: Key, prefix: seq<Test>): seq<seq<Test>>
    decreases |spec|
  {
    if spec == [] then []
    else
      var term := spec[0];
      var value := BoundValue(term.field, boundary);
      if value.None? then (if term.direction.Descending? then [prefix] else [])
      else
        [prefix + [Test(term.field, Strict(term.direction), value.value)]]
        + Branches(spec[1..], boundary, prefix + [Test(term.field, Eq, value.value)])
  }

  /** The contiguous leading-index range. */
  function LeadingRange(spec: seq<SortTerm>, boundary: Key): seq<Clause> {
    if spec == [] then []
    else
      var value := BoundValue(spec[0].field, boundary);
      if value.None? then [] else [Leading(Test(spec[0].field, Weak(spec[0].direction), value.value))]
  }

  function BoundaryClauses(spec: seq<SortTerm>, boundary: Key): seq<Clause> {
    LeadingRange(spec, boundary) + [Alternatives(Branches(spec, boundary, []))]
  }

  /** The loop over the sort terms, with its equal prefix, its alternatives and its early break. */
  method PushBoundary(spec: seq<SortTerm>, boundary: Key, predicates: seq<Clause>) returns (r: seq<Clause>)
    ensures r == predicates + BoundaryClauses(spec, boundary)
  {
    r := predicates;
    var equalPrefix: seq<Test> := [];
    var alternatives: seq<seq<Test>> := [];
    var i := 0;
    var broken := false;
    while i < |spec| && !broken
      invariant 0 <= i <= |spec|
      invariant equalPrefix == [] <==> i == 0
      invariant !broken ==> alternatives + Branches(spec[i..], boundary, equalPrefix) == Branches(spec, boundary, [])
      invariant broken ==> alternatives == Branches(spec, boundary, [])
      invariant r == predicates + if i == 0 && !broken then [] else LeadingRange(spec, boundary)
      decreases |spec| - i, if broken then 0 else 1
    {
      var term := spec[i];
      var value := BoundValue(term.field, boundary);
      assert spec[i..][1..] == spec[i + 1..];
      if value.None? {
        if term.direction.Descending? {
          alternatives := alternatives + [equalPrefix];
        }
        broken := true;
      } else {
        if equalPrefix == [] {
          r := r + [Leading(Test(term.field, Weak(term.direction), value.value))];
        }
        alternatives := alternatives + [equalPrefix + [Test(term.field, Strict(term.direction), value.value)]];
        equalPrefix := equalPrefix + [Test(term.field, Eq, value.value)];
        i := i + 1;
      }
    }
    if !broken {
      assert spec[i..] == [];
    }
    assert alternatives == Branches(spec, boundary, []);
    assert r == predicates + LeadingRange(spec, boundary);
    r := r + [Alternatives(alternatives)];
  }

  /** A row as SQLite stores it: its sequence is an i64. */
  predicate Storable(row: Key) {
    row.id.sequence <= I64_MAX
  }

  lemma AllSnoc(tests: seq<Test>, t: Test, row: Key)
    ensures All(tests + [t], row) <==> All(tests, row) && Holds(t, row)
  {
    var all := tests + [t];
    assert all[|tests|] == t;
    assert forall i :: 0 <= i < |tests| ==> all[i] == tests[i];
  }

  lemma AnyCons(branch: seq<Test>, rest: seq<seq<Test>>, row: Key)
    ensures Any([branch] + rest, row) <==> All(branch, row) || Any(rest, row)
  {
    hide All;
    var all := [branch] + rest;
    assert all[0] == branch && forall i :: 0 <= i < |rest| ==> all[i + 1] == rest[i];
    if Any(all, row) {
      var i :| 0 <= i < |all| && All(all[i], row);
      assert i > 0 ==> All(rest[i - 1], row);
    }
    if Any(rest, row) {
      var i :| 0 <= i < |rest| && All(rest[i], row);
      assert All(all[i + 1], row);
    }
  }

  lemma TermTests(term: SortTerm, boundary: Key, row: Key)
    requires Storable(row)
    ensures var c := Directed(term.direction, CompareValue(Coordinate(term.field, row), Coordinate(term.field,
        boundary)));
            match BoundValue(term.field, boundary)
            case Some(value) =>
              && (Holds(Test(term.field, Strict(term.direction), value), row) <==> c == Greater)
              && (Holds(Test(term.field, Weak(term.direction), value), row) <==> c != Less)
              && (Holds(Test(term.field, Eq, value), row) <==> c == Equal)
            case None => c == (if term.direction.Descending? then Greater else Less)
  {
  }

  /** For any list of terms: the alternatives hold exactly for rows equal on the prefix and after the boundary. */
  lemma {:induction false} BranchesExact(spec: seq<SortTerm>, boundary: Key, prefix: seq<Test>, row: Key)
    requires Storable(row)
    ensures Any(Branches(spec, boundary, prefix), row) <==> All(prefix, row) && IsAfter(spec, row, boundary)
    decreases |spec|
  {
    hide Holds, All, Any, Coordinate, CompareValue, Directed, BoundValue;
    if spec == [] {
      NoBranches(row);
    } else {
      var term := spec[0];
      var value := BoundValue(term.field, boundary);
      TermTests(term, boundary, row);
      if value.None? {
        AnyCons(prefix, [], row);
        NoBranches(row);
        assert [prefix] + [] == [prefix];
      } else {
        var strict := Test(term.field, Strict(term.direction), value.value);
        var equal := Test(term.field, Eq, value.value);
        AllSnoc(prefix, strict, row);
        AllSnoc(prefix, equal, row);
        BranchesExact(spec[1..], boundary, prefix + [equal], row);
        AnyCons(prefix + [strict], Branches(spec[1..], boundary, prefix + [equal]), row);
      }
    }
  }

  lemma NoBranches(row: Key)
    ensures !Any([], row)
  {
  }

  lemma LeadingImplied(spec: seq<SortTerm>, boundary: Key, item: Item)
    requires Storable(KeyOf(item)) && IsAfter(spec, KeyOf(item), boundary)
    ensures AllClauses(LeadingRange(spec, boundary), item)
  {
    hide Holds, Coordinate, CompareValue, BoundValue;
    if spec != [] {
      TermTests(spec[0], boundary, KeyOf(item));
    }
  }

  /**
   The loop's predicate, leading range included, is exactly `is_after`, for every list of terms and every u64 boundary.
   */
  lemma BoundaryExact(spec: seq<SortTerm>, boundary: Key, item: Item)
    requires Storable(KeyOf(item))
    ensures AllClauses(BoundaryClauses(spec, boundary), item) <==> IsAfter(spec, KeyOf(item), boundary)
  {
    hide Holds, All, Any, IsAfter, Branches, LeadingRange;
    BranchesExact(spec, boundary, [], KeyOf(item));
    NoTests(KeyOf(item));
    var lead := LeadingRange(spec, boundary);
    var alternatives := Alternatives(Branches(spec, boundary, []));
    ClausesAppend(lead, [alternatives], item);
    assert AllClauses([alternatives], item) <==> ClauseHolds([alternatives][0], item);
    if IsAfter(spec, KeyOf(item), boundary) {
      LeadingImplied(spec, boundary, item);
    }
  }

  lemma NoTests(row: Key)
    ensures All([], row)
  {
  }

  lemma ClausesAppend(a: seq<Clause>, b: seq<Clause>, item: Item)
    ensures AllClauses(a + b, item) <==> AllClauses(a, item) && AllClauses(b, item)
  {
    hide ClauseHolds;
    var all := a + b;
    assert forall i :: 0 <= i < |a| ==> all[i] == a[i];
    assert forall i :: 0 <= i < |b| ==> all[|a| + i] == b[i];
    if AllClauses(all, item) {
      forall i | 0 <= i < |b| ensures ClauseHolds(b[i], item) {
        assert ClauseHolds(all[|a| + i], item);
      }
      forall i | 0 <= i < |a| ensures ClauseHolds(a[i], item) {
        assert ClauseHolds(all[i], item);
      }
    }
  }

  // ---- The filters ----

  function StatusClauses(statuses: seq<Status>): seq<Clause> {
    if statuses == [] then [Never]
    else if |statuses| == 1 then [StatusIs(statuses[0])]
    else if |statuses| != 6 then [StatusIn(statuses)]
    else []
  }

  function ProjectClauses(project: Option<string>): seq<Clause> {
    if project.None? then [] else [ProjectIs(project.value)]
  }

  function RequesterClauses(requester: Option<string>): seq<Clause> {
    if requester.None? then [] else [RequesterIs(requester.value)]
  }

  function PriorityClauses(priority: Option<Priority>): seq<Clause> {
    if priority.None? then [] else [PriorityIs(priority.value)]
  }

  function TextClauses(text: Option<string>): seq<Clause> {
    if text.None? then [] else [TextIn(text.value)]
  }

  function AssigneeClauses(filter: AssigneeFilter): seq<Clause> {
    match filter
    case AnyAssignee => []
    case Unassigned => [AssigneeNull]
    case Assigned(name) => [AssigneeIs(name)]
  }

  function FilterClauses(e: Effective): seq<Clause> {
    StatusClauses(e.statuses) + ProjectClauses(e.project) + RequesterClauses(e.requester) + PriorityClauses(e.priority)
    + AssigneeClauses(e.assignee) + TextClauses(e.text)
  }

  lemma {:induction false} AllSixStatuses(statuses: seq<Status>, s: Status)
    requires StatusesOrdered(statuses) && |statuses| >= 6
    ensures s in statuses
  {
    assert StatusIndex(statuses[0]) < StatusIndex(statuses[1]) < StatusIndex(statuses[2]) < StatusIndex(statuses[3])
           < StatusIndex(statuses[4]) < StatusIndex(statuses[5]);
    assert statuses[StatusIndex(s)] == s;
  }

  lemma StatusesExact(statuses: seq<Status>, item: Item)
    requires StatusesOrdered(statuses) && |statuses| <= 6
    ensures AllClauses(StatusClauses(statuses), item) <==> item.status in statuses
  {
    if |statuses| == 6 {
      AllSixStatuses(statuses, item.status);
    } else {
      assert AllClauses(StatusClauses(statuses), item) <==> ClauseHolds(StatusClauses(statuses)[0], item);
    }
  }

  lemma OneClause(c: Clause, item: Item)
    ensures AllClauses([c], item) <==> ClauseHolds(c, item)
    ensures AllClauses([], item)
  {
    hide ClauseHolds;
    assert AllClauses([c], item) <==> ClauseHolds([c][0], item);
  }

  lemma TextClauseExact(content: Content, needle: string)
    requires needle != "" && LowerAscii(needle) == needle
    ensures TextClause(content, needle) <==> TextMatches(content, needle)
  {
    hide Contains;
    TextAgrees(content, needle);
    if AnyCriterion(content.criteria, needle) {
      var i :| 0 <= i < |content.criteria| && FoldedContains(content.criteria[i], needle);
      assert Contains(LowerAscii(content.criteria[i]), needle);
    }
    if i :| 0 <= i < |content.criteria| && Contains(LowerAscii(content.criteria[i]), needle) {
      assert FoldedContains(content.criteria[i], needle);
    }
  }

  /** The filter clauses, with their literal status sets, mean the normalised filters. */
  lemma FiltersExact(e: Effective, item: Item)
    requires Normal(e) && |e.statuses| <= 6
    ensures AllClauses(FilterClauses(e), item) <==> Matches(e, item)
  {
    hide AllClauses, StatusClauses, TextClause, TextMatches, StatusesOrdered;
    var a, b, c, d, f, g := StatusClauses(e.statuses), ProjectClauses(e.project), RequesterClauses(e.requester),
      PriorityClauses(e.priority), AssigneeClauses(e.assignee), TextClauses(e.text);
    ClausesAppend(a, b, item);
    ClausesAppend(a + b, c, item);
    ClausesAppend(a + b + c, d, item);
    ClausesAppend(a + b + c + d, f, item);
    ClausesAppend(a + b + c + d + f, g, item);
    StatusesExact(e.statuses, item);
    OneClause(if b == [] then Always else b[0], item);
    OneClause(if c == [] then Always else c[0], item);
    OneClause(if d == [] then Always else d[0], item);
    OneClause(if f == [] then Always else f[0], item);
    OneClause(if g == [] then Always else g[0], item);
    if e.text.Some? {
      TextClauseExact(item.content, e.text.value);
    }
  }

  // ---- The whole query ----

  function Clauses(e: Effective, spec: seq<SortTerm>, after: Option<Key>): seq<Clause> {
    var pushed := FilterClauses(e) + (if after.None? then [] else BoundaryClauses(spec, after.value));
    if pushed == [] then [Always] else pushed
  }

  /** The filter half of `page_query`. */
  method PushFilters(e: Effective) returns (predicates: seq<Clause>)
    ensures predicates == FilterClauses(e)
  {
    predicates := StatusClauses(e.statuses);
    if e.project.Some? {
      predicates := predicates + [ProjectIs(e.project.value)];
    }
    if e.requester.Some? {
      predicates := predicates + [RequesterIs(e.requester.value)];
    }
    if e.priority.Some? {
      predicates := predicates + [PriorityIs(e.priority.value)];
    }
    assert predicates == StatusClauses(e.statuses) + ProjectClauses(e.project) + RequesterClauses(e.requester)
                         + PriorityClauses(e.priority);
    match e.assignee {
      case AnyAssignee =>
      case Unassigned => predicates := predicates + [AssigneeNull];
      case Assigned(name) => predicates := predicates + [AssigneeIs(name)];
    }
    if e.text.Some? {
      predicates := predicates + [TextIn(e.text.value)];
    }
  }

  /** `page_query`. */
  method BuildClauses(e: Effective, spec: seq<SortTerm>, after: Option<Key>) returns (predicates: seq<Clause>)
    ensures predicates == Clauses(e, spec, after)
  {
    hide BoundaryClauses, FilterClauses;
    predicates := PushFilters(e);
    if after.Some? {
      predicates := PushBoundary(spec, after.value, predicates);
    }
    if predicates == [] {
      predicates := [Always];
    }
  }

  /** The WHERE clause selects exactly the matching items after the boundary. */
  lemma WhereExact(e: Effective, spec: seq<SortTerm>, after: Option<Key>, item: Item)
    requires Normal(e) && |e.statuses| <= 6 && Storable(KeyOf(item))
    ensures AllClauses(Clauses(e, spec, after), item) <==>
            Matches(e, item) && (after.Some? ==> IsAfter(spec, KeyOf(item), after.value))
  {
    hide FilterClauses, BoundaryClauses, AllClauses, Matches, Normal, IsAfter;
    FiltersExact(e, item);
    OneClause(Always, item);
    if after.Some? {
      BoundaryExact(spec, after.value, item);
      ClausesAppend(FilterClauses(e), BoundaryClauses(spec, after.value), item);
    } else {
      assert FilterClauses(e) + [] == FilterClauses(e);
    }
  }

  // ---- Stepping the statement ----

  function TakeFirst<T>(s: seq<T>, n: nat): (r: seq<T>)
    ensures |r| <= n && r <= s
  {
    if |s| <= n then s else s[..n]
  }

  /** `primary_page`: reads `limit` rows, then steps once more only to learn whether another row exists. */
  method PrimaryPage<T>(rows: seq<T>, limit: nat) returns (records: seq<T>, hasMore: bool)
    ensures records == TakeFirst(rows, limit)
    ensures hasMore <==> |rows| > limit
  {
    records := [];
    var next := 0;
    while |records| < limit
      invariant next == |records| <= |rows| && next <= limit
      invariant records == rows[..next]
    {
      if next == |rows| {
        return records, false;
      }
      records := records + [rows[next]];
      next := next + 1;
    }
    hasMore := next < |rows|;
  }

  // ---- History seek ----

  datatype HistoryKey = HistoryKey(revision: nat, index: nat)

  /** Ascending by revision, then by index. */
  predicate HistoryAfter(row: HistoryKey, boundary: HistoryKey) {
    row.revision > boundary.revision || (row.revision == boundary.revision && row.index > boundary.index)
  }

  /** `selection`: the row-value comparison, or what replaces it when the boundary exceeds SQLite's integers. */
  predicate HistorySeek(row: HistoryKey, after: Option<HistoryKey>) {
    if after.None? then true
    else if after.value.revision > I64_MAX then false
    else if after.value.index <= I64_MAX then
      || row.revision > after.value.revision
      || (row.revision == after.value.revision && row.index > after.value.index)
    else row.revision > after.value.revision
  }

  /** Both overflow cases included, the seek is the lexicographic order on stored rows. */
  lemma HistorySeekExact(row: HistoryKey, after: HistoryKey)
    requires row.revision <= I64_MAX && row.index <= I64_MAX
    ensures HistorySeek(row, Some(after)) <==> HistoryAfter(row, after)
  {
  }
}
