/**
 Item filters: the predicate a v1 list request denotes, the normalised filters of v2, and their agreement.
 Normal forms are unique: two requests select the same items exactly when they normalise to the same value.
 */
module Filters {
  import opened Wrappers
  import opened Text
  import opened Identifiers
  import opened Domain

  datatype View = ProposedView | ReadyView | ActiveView | BlockedView | DoneView | RejectedView | MineView | AllView

  datatype ItemFilters = ItemFilters(
    project: Option<string>, requester: Option<string>, assignee: Option<string>, status: Option<Status>,
    priority: Option<Priority>, unassigned: bool, text: Option<string>)

  datatype AssigneeFilter = AnyAssignee | Assigned(assignee: string) | Unassigned

  datatype Effective = Effective(
    statuses: seq<Status>, project: Option<string>, requester: Option<string>, assignee: AssigneeFilter,
    priority: Option<Priority>, text: Option<string>)

  datatype InvalidFilters = InvalidFilters

  const NOTHING := Effective([], None, None, AnyAssignee, None, None)

  /** A request as its types admit it: a canonical requester and a text that is not blank. */
  predicate Typed(configured: string, filters: ItemFilters) {
    && Canonical(Upper, configured)
    && (filters.text.Some? ==> !Blank(filters.text.value))
  }

  // ---- v1 ----

  predicate InView(view: View, configured: string, item: Item) {
    match view
    case ProposedView => item.status.Proposed?
    case ReadyView => item.status.Ready?
    case ActiveView => item.status.InProgress? || item.status.Blocked?
    case BlockedView => item.status.Blocked?
    case DoneView => item.status.Done?
    case RejectedView => item.status.Rejected?
    case MineView => !item.status.Done? && !item.status.Rejected? && item.assignee == Some(LowerAscii(configured))
    case AllView => true
  }

  predicate FoldedContains(hay: string, needle: string) {
    Contains(LowerAscii(hay), LowerAscii(needle))
  }

  function DescriptionOrEmpty(content: Content): string {
    if content.description.Some? then content.description.value else ""
  }

  predicate AnyCriterion(criteria: seq<string>, needle: string) {
    exists i :: 0 <= i < |criteria| && FoldedContains(criteria[i], needle)
  }

  /** Somewhere in `hay` stands the needle, in any ASCII case. */
  ghost predicate Shows(hay: string, needle: string) {
    exists a: string, w: string, b: string :: hay == a + w + b && LowerAscii(w) == LowerAscii(needle)
  }

  lemma FoldAppend(a: string, b: string)
    ensures LowerAscii(a + b) == LowerAscii(a) + LowerAscii(b)
  {
  }

  lemma FoldedExact(hay: string, needle: string)
    ensures FoldedContains(hay, needle) <==> Shows(hay, needle)
  {
    var h, n := LowerAscii(hay), LowerAscii(needle);
    if FoldedContains(hay, needle) {
      var i :| 0 <= i <= |h| - |n| && OccursAt(h, n, i);
      var a, w, b := hay[..i], hay[i..i + |n|], hay[i + |n|..];
      assert hay == a + w + b;
      assert LowerAscii(w) == h[i..i + |n|];
    }
    if a: string, w: string, b: string :| hay == a + w + b && LowerAscii(w) == n {
      FoldAppend(a + w, b);
      FoldAppend(a, w);
      assert OccursAt(h, n, |a|);
    }
  }

  /** The WHERE clause `select_items` builds. */
  predicate Selects(view: View, configured: string, filters: ItemFilters, item: Item) {
    && InView(view, configured, item)
    && (filters.project.Some? ==> item.id.project == filters.project.value)
    && (filters.requester.Some? ==> item.id.requester == filters.requester.value)
    && (filters.assignee.Some? ==> item.assignee == filters.assignee)
    && (filters.status.Some? ==> item.status == filters.status.value)
    && (filters.priority.Some? ==> item.priority == filters.priority)
    && (filters.unassigned ==> item.assignee.None?)
    && (filters.text.Some? ==>
          || FoldedContains(item.content.title, filters.text.value)
          || FoldedContains(DescriptionOrEmpty(item.content), filters.text.value)
          || AnyCriterion(item.content.criteria, filters.text.value))
  }

  /** A text filter narrows a selection to the items whose title, description or some criterion shows the text. */
  lemma TextFilterExact(view: View, configured: string, filters: ItemFilters, text: string, item: Item)
    requires filters.text == Some(text)
    ensures Selects(view, configured, filters, item) <==>
              && Selects(view, configured, filters.(text := None), item)
              && (|| Shows(item.content.title, text)
                  || Shows(match item.content.description case Some(d) => d case None => "", text)
                  || exists i :: 0 <= i < |item.content.criteria| && Shows(item.content.criteria[i], text))
  {
    hide FoldedContains, Shows;
    var criteria := item.content.criteria;
    FoldedExact(item.content.title, text);
    FoldedExact(DescriptionOrEmpty(item.content), text);
    forall i | 0 <= i < |criteria| ensures FoldedContains(criteria[i], text) <==> Shows(criteria[i], text) {
      FoldedExact(criteria[i], text);
    }
  }

  // ---- v2 ----

  const STATUSES: seq<Status> := [Proposed, Ready, InProgress, Status.Blocked, Done, Status.Rejected]

  function ViewStatuses(view: View): seq<Status> {
    match view
    case ProposedView => [Proposed]
    case ReadyView => [Ready]
    case ActiveView => [InProgress, Status.Blocked]
    case BlockedView => [Status.Blocked]
    case DoneView => [Done]
    case RejectedView => [Status.Rejected]
    case MineView => STATUSES[..4]
    case AllView => STATUSES
  }

  function Retained(statuses: seq<Status>, keep: Option<Status>): seq<Status> {
    if keep.None? then statuses
    else if statuses == [] then []
    else (if statuses[0] == keep.value then [statuses[0]] else []) + Retained(statuses[1..], keep)
  }

  function ExplicitAssignee(filters: ItemFilters): AssigneeFilter {
    if filters.unassigned then Unassigned
    else if filters.assignee.Some? then Assigned(filters.assignee.value)
    else AnyAssignee
  }

  /** `AssigneeId::new` of the requester. */
  function MineOf(configured: string): Option<string> {
    Normalized(Lower, configured)
  }

  predicate MineContradicts(assignee: AssigneeFilter, mine: string) {
    assignee.Unassigned? || (assignee.Assigned? && assignee.assignee != mine)
  }

  function Resolved(view: View, configured: string, filters: ItemFilters): Result<Effective, InvalidFilters>
    requires Typed(configured, filters)
  {
    if filters.assignee.Some? && filters.unassigned then Err(InvalidFilters)
    else
      var mine := LowerAscii(configured);
      var explicit := ExplicitAssignee(filters);
      var statuses :=
        if view.MineView? && MineContradicts(explicit, mine) then []
        else Retained(ViewStatuses(view), filters.status);
      var assignee := if view.MineView? then Assigned(mine) else explicit;
      if statuses == [] then Ok(NOTHING)
      else
        Ok(Effective(statuses, filters.project, filters.requester, assignee, filters.priority,
                     if filters.text.Some? then Some(LowerAscii(filters.text.value)) else None))
  }

  lemma {:induction false} JoinFolded(kind: Case, tokens: seq<string>)
    ensures Join(FoldAll(kind, tokens), '-') == FoldText(kind, Join(tokens, '-'))
  {
    if |tokens| > 1 {
      JoinFolded(kind, tokens[1..]);
      assert FoldAll(kind, tokens)[1..] == FoldAll(kind, tokens[1..]);
      assert FoldChar(kind, '-') == '-';
    }
  }

  /** The `expect` in the source never fails: a requester folds to the assignee of the same name. */
  lemma MineIsLower(configured: string)
    requires Canonical(Upper, configured)
    ensures MineOf(configured) == Some(LowerAscii(configured))
  {
    CanonicalTokens(Upper, configured);
    JoinSplit(configured, '-');
    JoinFolded(Lower, Tokens(configured));
    assert FoldText(Lower, configured) == LowerAscii(configured);
  }

  /** `Vec::retain` on the view's statuses. */
  method Retain(statuses: seq<Status>, keep: Status) returns (kept: seq<Status>)
    ensures kept == Retained(statuses, Some(keep))
  {
    hide Retained;
    kept := [];
    RetainedNone(statuses, keep);
    for i := 0 to |statuses|
      invariant kept + Retained(statuses[i..], Some(keep)) == Retained(statuses, Some(keep))
    {
      RetainedNext(statuses, keep, i);
      if statuses[i] == keep {
        kept := kept + [statuses[i]];
      }
    }
  }

  lemma RetainedNone(statuses: seq<Status>, keep: Status)
    ensures [] + Retained(statuses[0..], Some(keep)) == Retained(statuses, Some(keep))
    ensures Retained(statuses[|statuses|..], Some(keep)) == []
  {
    assert statuses[0..] == statuses;
  }

  lemma RetainedNext(statuses: seq<Status>, keep: Status, i: nat)
    requires i < |statuses|
    ensures Retained(statuses[i..], Some(keep))
         == (if statuses[i] == keep then [statuses[i]] else []) + Retained(statuses[i + 1..], Some(keep))
  {
    assert statuses[i..][1..] == statuses[i + 1..];
  }

  /** `EffectiveItemFilters::new`: the view's statuses retained, cleared or narrowed. */
  method New(view: View, configured: string, filters: ItemFilters) returns (r: Result<Effective, InvalidFilters>)
    requires Typed(configured, filters)
    ensures r == Resolved(view, configured, filters)
  {
    hide Canonical, Blank, ViewStatuses;
    if filters.assignee.Some? && filters.unassigned {
      return Err(InvalidFilters);
    }
    var statuses := ViewStatuses(view);
    if filters.status.Some? {
      statuses := Retain(statuses, filters.status.value);
    }
    var assignee := ExplicitAssignee(filters);
    if view.MineView? {
      MineIsLower(configured);
      var mine := MineOf(configured).value;
      if MineContradicts(assignee, mine) {
        statuses := [];
      }
      assignee := Assigned(mine);
    }
    if statuses == [] {
      return Ok(NOTHING);
    }
    return Ok(Effective(statuses, filters.project, filters.requester, assignee, filters.priority,
                        if filters.text.Some? then Some(LowerAscii(filters.text.value)) else None));
  }

  predicate AssigneeMatches(filter: AssigneeFilter, assignee: Option<string>) {
    match filter
    case AnyAssignee => true
    case Assigned(name) => assignee == Some(name)
    case Unassigned => assignee.None?
  }

  function Texts(content: Content): seq<string> {
    [content.title] + (if content.description.Some? then [content.description.value] else []) + content.criteria
  }

  predicate TextMatches(content: Content, needle: string) {
    exists i :: 0 <= i < |Texts(content)| && Contains(LowerAscii(Texts(content)[i]), needle)
  }

  /** `EffectiveItemFilters::matches`. */
  predicate Matches(e: Effective, item: Item) {
    && item.status in e.statuses
    && (e.project.Some? ==> item.id.project == e.project.value)
    && (e.requester.Some? ==> item.id.requester == e.requester.value)
    && AssigneeMatches(e.assignee, item.assignee)
    && (e.priority.Some? ==> item.priority == e.priority)
    && (e.text.Some? ==> TextMatches(item.content, e.text.value))
  }

  // ---- Agreement ----

  lemma {:induction false} RetainedMembers(statuses: seq<Status>, keep: Option<Status>, s: Status)
    ensures s in Retained(statuses, keep) <==> s in statuses && (keep.Some? ==> s == keep.value)
    decreases |statuses|
  {
    if statuses != [] && keep.Some? {
      RetainedMembers(statuses[1..], keep, s);
      assert statuses == [statuses[0]] + statuses[1..];
    }
  }

  lemma NothingInEmpty(needle: string)
    requires needle != ""
    ensures !FoldedContains("", needle)
  {
    assert |LowerAscii("")| == 0 && |LowerAscii(needle)| > 0;
  }

  lemma TextAgrees(content: Content, needle: string)
    requires needle != ""
    ensures TextMatches(content, LowerAscii(needle)) <==>
            || FoldedContains(content.title, needle)
            || FoldedContains(DescriptionOrEmpty(content), needle)
            || AnyCriterion(content.criteria, needle)
  {
    hide Contains;
    var texts := Texts(content);
    NothingInEmpty(needle);
    var base := |texts| - |content.criteria|;
    assert texts[0] == content.title && texts[base..] == content.criteria;
    assert content.description.Some? ==> base == 2 && texts[1] == content.description.value;
    assert content.description.None? ==> base == 1;
    if TextMatches(content, LowerAscii(needle)) {
      var i :| 0 <= i < |texts| && Contains(LowerAscii(texts[i]), LowerAscii(needle));
      if i >= base {
        assert FoldedContains(content.criteria[i - base], needle);
      }
    }
    if FoldedContains(content.title, needle) {
      assert Contains(LowerAscii(texts[0]), LowerAscii(needle));
    }
    if FoldedContains(DescriptionOrEmpty(content), needle) {
      assert Contains(LowerAscii(texts[1]), LowerAscii(needle));
    }
    if AnyCriterion(content.criteria, needle) {
      var i :| 0 <= i < |content.criteria| && FoldedContains(content.criteria[i], needle);
      assert Contains(LowerAscii(texts[base + i]), LowerAscii(needle));
    }
  }

  lemma NotBlankNotEmpty(s: string)
    requires !Blank(s)
    ensures s != ""
  {
  }

  lemma ViewStatusesExact(view: View, s: Status)
    ensures s in ViewStatuses(view) <==>
            match view
            case ProposedView => s.Proposed?
            case ReadyView => s.Ready?
            case ActiveView => s.InProgress? || s.Blocked?
            case BlockedView => s.Blocked?
            case DoneView => s.Done?
            case RejectedView => s.Rejected?
            case MineView => !s.Done? && !s.Rejected?
            case AllView => true
  {
    assert STATUSES[..4] == [Proposed, Ready, InProgress, Status.Blocked];
  }

  /** Normalised filters mean what the v1 view and filters mean, for every item. */
  lemma {:induction false} SameMembership(view: View, configured: string, filters: ItemFilters, item: Item)
    requires Typed(configured, filters)
    ensures match Resolved(view, configured, filters)
            case Ok(e) => Matches(e, item) <==> Selects(view, configured, filters, item)
            case Err(_) => !Selects(view, configured, filters, item)
  {
    hide Canonical, Blank, FoldedContains, TextMatches, AnyCriterion, ViewStatuses, Retained;
    ViewStatusesExact(view, item.status);
    RetainedMembers(ViewStatuses(view), filters.status, item.status);
    if filters.text.Some? {
      NotBlankNotEmpty(filters.text.value);
      TextAgrees(item.content, filters.text.value);
    }
  }

  // ---- Uniqueness of the normal form ----

  function StatusIndex(s: Status): nat {
    match s
    case Proposed => 0
    case Ready => 1
    case InProgress => 2
    case Blocked => 3
    case Done => 4
    case Rejected => 5
  }

  predicate StatusesOrdered(statuses: seq<Status>) {
    forall i, j :: 0 <= i < j < |statuses| ==> StatusIndex(statuses[i]) < StatusIndex(statuses[j])
  }

  /** What the private fields of `EffectiveItemFilters` guarantee. */
  predicate Normal(e: Effective) {
    && StatusesOrdered(e.statuses)
    && (e.statuses == [] ==> e == NOTHING)
    && (e.text.Some? ==> e.text.value != "" && LowerAscii(e.text.value) == e.text.value)
  }

  lemma ViewOrdered(view: View)
    ensures StatusesOrdered(ViewStatuses(view))
  {
    assert STATUSES[..4] == [Proposed, Ready, InProgress, Status.Blocked];
  }

  lemma {:induction false} RetainedOrdered(statuses: seq<Status>, keep: Option<Status>)
    requires StatusesOrdered(statuses)
    ensures StatusesOrdered(Retained(statuses, keep))
    decreases |statuses|
  {
    if statuses != [] && keep.Some? {
      RetainedOrdered(statuses[1..], keep);
      forall s | s in Retained(statuses[1..], keep) ensures StatusIndex(statuses[0]) < StatusIndex(s) {
        RetainedMembers(statuses[1..], keep, s);
        var k :| 0 <= k < |statuses[1..]| && statuses[1..][k] == s;
        assert statuses[k + 1] == s;
      }
    }
  }

  lemma ResolvedNormal(view: View, configured: string, filters: ItemFilters)
    requires Typed(configured, filters) && Resolved(view, configured, filters).Ok?
    ensures Normal(Resolved(view, configured, filters).value)
  {
    hide Canonical, Blank, ViewStatuses, Retained;
    ViewOrdered(view);
    RetainedOrdered(ViewStatuses(view), filters.status);
    if filters.text.Some? {
      NotBlankNotEmpty(filters.text.value);
      LowerAsciiIdempotent(filters.text.value);
    }
  }

  /** An item that matches `a` and, where `b` restricts more or otherwise, fails `b`. */
  function Probe(a: Effective, b: Effective, status: Status): Item {
    var project :=
      if a.project.Some? then a.project.value else if b.project.Some? then b.project.value + "x" else "p";
    var requester :=
      if a.requester.Some? then a.requester.value else if b.requester.Some? then b.requester.value + "X" else "R";
    var assignee :=
      if a.assignee.Assigned? then Some(a.assignee.assignee)
      else if a.assignee.AnyAssignee? && b.assignee.Unassigned? then Some("someone")
      else None;
    var title :=
      if a.text.Some? then a.text.value
      else if b.text.Some? && b.text.value != "" && b.text.value[0] == 'a' then "b"
      else "a";
    Item(ItemId(requester, project, 1), Content(title, None, []), status, a.priority, assignee, None, 1, "t", "t",
         Provenance(None, None, None, None, None, None, None))
  }

  lemma TitleOnly(title: string, needle: string)
    ensures TextMatches(Content(title, None, []), needle) <==> Contains(LowerAscii(title), needle)
  {
    hide Contains;
    var texts := Texts(Content(title, None, []));
    assert texts == [title];
    if Contains(LowerAscii(title), needle) {
      assert Contains(LowerAscii(texts[0]), needle);
    }
  }

  lemma ContainsSelf(s: string)
    ensures Contains(s, s)
  {
    assert OccursAt(s, s, 0);
  }

  lemma ContainsLength(hay: string, needle: string)
    requires Contains(hay, needle)
    ensures |needle| <= |hay| && (|needle| == |hay| ==> needle == hay)
  {
    var i :| 0 <= i <= |hay| - |needle| && OccursAt(hay, needle, i);
  }

  lemma ProbeMatches(a: Effective, b: Effective, status: Status)
    requires Normal(a) && status in a.statuses
    ensures Matches(a, Probe(a, b, status))
  {
    hide Contains, TextMatches, StatusesOrdered;
    var item := Probe(a, b, status);
    if a.text.Some? {
      TitleOnly(a.text.value, a.text.value);
      ContainsSelf(a.text.value);
    }
  }

  /** Passing `b`'s filter pins every component of `a` from one side. */
  lemma ProbeSeparates(a: Effective, b: Effective, status: Status)
    requires Normal(a) && Normal(b) && Matches(b, Probe(a, b, status))
    ensures b.project.Some? ==> a.project == b.project
    ensures b.requester.Some? ==> a.requester == b.requester
    ensures b.priority.Some? ==> a.priority == b.priority
    ensures !b.assignee.AnyAssignee? ==> a.assignee == b.assignee
    ensures b.text.Some? ==> a.text.Some? && |b.text.value| <= |a.text.value|
    ensures b.text.Some? && |b.text.value| == |a.text.value| ==> a.text == b.text
  {
    hide Contains, TextMatches, StatusesOrdered;
    var item := Probe(a, b, status);
    if b.project.Some? {
      assert b.project.value + "x" != b.project.value by { assert |b.project.value + "x"| == |b.project.value| + 1; }
    }
    if b.requester.Some? {
      assert b.requester.value + "X" != b.requester.value by {
        assert |b.requester.value + "X"| == |b.requester.value| + 1;
      }
    }
    if b.text.Some? {
      TitleOnly(item.content.title, b.text.value);
      ContainsLength(LowerAscii(item.content.title), b.text.value);
    }
  }

  lemma {:induction false} StatusesEqual(a: seq<Status>, b: seq<Status>)
    requires StatusesOrdered(a) && StatusesOrdered(b) && forall s: Status :: s in a <==> s in b
    ensures a == b
    decreases |a|
  {
    assert b != [] ==> b[0] in b;
    if a != [] {
      assert a[0] in b && b[0] in a;
      assert a[0] == b[0];
      forall s: Status ensures s in a[1..] <==> s in b[1..] {
        TailMember(a, s);
        TailMember(b, s);
      }
      StatusesEqual(a[1..], b[1..]);
      assert a == [a[0]] + a[1..] && b == [b[0]] + b[1..];
    }
  }

  lemma TailMember(a: seq<Status>, s: Status)
    requires StatusesOrdered(a) && a != []
    ensures s in a[1..] <==> s in a && s != a[0]
  {
    assert a == [a[0]] + a[1..];
    if s in a[1..] {
      var k :| 0 <= k < |a[1..]| && a[1..][k] == s;
      assert a[k + 1] == s;
    }
  }

  ghost predicate SameMatches(a: Effective, b: Effective) {
    forall item: Item :: Matches(a, item) <==> Matches(b, item)
  }

  /** Normal forms are unique: filters that match the same items are the same value. */
  lemma NormalFormUnique(a: Effective, b: Effective)
    requires Normal(a) && Normal(b)
    ensures a == b <==> SameMatches(a, b)
  {
    hide Matches, Normal;
    if SameMatches(a, b) {
      forall s: Status | s in a.statuses ensures s in b.statuses {
        MatchedStatus(a, b, s);
      }
      forall s: Status | s in b.statuses ensures s in a.statuses {
        MatchedStatus(b, a, s);
      }
      OrderedOf(a);
      OrderedOf(b);
      StatusesEqual(a.statuses, b.statuses);
      if a.statuses == [] {
        OrderedOf(a);
      } else {
        var s := a.statuses[0];
        ProbeMatches(a, b, s);
        ProbeMatches(b, a, s);
        ProbeSeparates(a, b, s);
        ProbeSeparates(b, a, s);
      }
    }
  }

  lemma OrderedOf(e: Effective)
    requires Normal(e)
    ensures StatusesOrdered(e.statuses) && (e.statuses == [] ==> e == NOTHING)
  {
  }

  lemma MatchedStatus(a: Effective, b: Effective, s: Status)
    requires Normal(a) && SameMatches(a, b) && s in a.statuses
    ensures s in b.statuses
  {
    hide TextMatches, Normal;
    ProbeMatches(a, b, s);
    assert Matches(b, Probe(a, b, s));
  }

  /**
   Requests normalise to the same value exactly when v1 would select the same items for them; in particular every
   contradiction normalises to the one predicate that matches nothing.
   */
  lemma NormalisationExact(v: View, c: string, f: ItemFilters, v2: View, c2: string, f2: ItemFilters)
    requires Typed(c, f) && Typed(c2, f2) && Resolved(v, c, f).Ok? && Resolved(v2, c2, f2).Ok?
    ensures Resolved(v, c, f) == Resolved(v2, c2, f2) <==>
            forall item: Item :: Selects(v, c, f, item) <==> Selects(v2, c2, f2, item)
  {
    hide Typed, Resolved, Selects, Matches, Normal;
    var a, b := Resolved(v, c, f).value, Resolved(v2, c2, f2).value;
    ResolvedNormal(v, c, f);
    ResolvedNormal(v2, c2, f2);
    forall item: Item
      ensures Matches(a, item) <==> Selects(v, c, f, item)
      ensures Matches(b, item) <==> Selects(v2, c2, f2, item)
    {
      SameMembership(v, c, f, item);
      SameMembership(v2, c2, f2, item);
    }
    NormalFormUnique(a, b);
  }

  /** A request normalises to NOTHING exactly when v1 selects no item at all for it. */
  lemma ContradictionExact(view: View, configured: string, filters: ItemFilters)
    requires Typed(configured, filters) && Resolved(view, configured, filters).Ok?
    ensures Resolved(view, configured, filters) == Ok(NOTHING) <==>
            forall item: Item :: !Selects(view, configured, filters, item)
  {
    hide Typed, Resolved, Selects, Normal;
    var e := Resolved(view, configured, filters).value;
    ResolvedNormal(view, configured, filters);
    OrderedOf(e);
    forall item: Item ensures Matches(e, item) <==> Selects(view, configured, filters, item) {
      SameMembership(view, configured, filters, item);
    }
    if e.statuses != [] {
      ProbeMatches(e, e, e.statuses[0]);
      assert Selects(view, configured, filters, Probe(e, e, e.statuses[0]));
    }
  }
}
