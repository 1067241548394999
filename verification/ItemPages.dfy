/** List and next pages: the keyset query behind the tokens, and what following them on an unchanged store returns. */
module ItemPages {
  import opened Wrappers
  import opened Text
  import opened Bytes
  import opened Identifiers
  import opened Domain
  import opened Ledger
  import opened LedgerInvariants
  import opened Runs
  import opened History
  import opened Filters
  import opened Keys
  import opened PageQuery
  import opened Fingerprints
  import opened Cursors
  import opened Delivery
  import opened Traversal
  import opened TokenPages

  function FiltersOf(scope: PageScope): Effective
    requires Filters.Typed(scope.configured, scope.filters) && Resolved(scope.view, scope.configured, scope.filters).Ok?
  {
    Resolved(scope.view, scope.configured, scope.filters).value
  }

  function ItemReader(codec: Codec, wire: Wire, encode: Item -> Data, storeId: string, generation: string,
                      scope: PageScope): Reader<Item>
    requires Askable(storeId, scope)
  {
    Reader(codec, wire, encode, ItemContext(storeId, generation, scope), (item: Item) => ItemBoundary(KeyOf(item)))
  }

  /** WHERE and ORDER BY of `page_query`, before LIMIT. */
  ghost function Rows(e: Effective, spec: seq<SortTerm>, items: set<Item>, after: Option<Key>): seq<Item> {
    Sorted(spec, set item | item in items && AllClauses(Clauses(e, spec, after), item))
  }

  function KeyOption(after: Option<Boundary>): Option<Key> {
    if after.Some? && after.value.ItemBoundary? then Some(after.value.item) else None
  }

  ghost function ItemSelection(scope: PageScope, items: set<Item>): Selection<Item>
    requires Filters.Typed(scope.configured, scope.filters) && Resolved(scope.view, scope.configured, scope.filters).Ok?
  {
    var e, spec := FiltersOf(scope), SortSpec(scope.ordering);
    (after: Option<Boundary>) => Rows(e, spec, items, KeyOption(after))
  }

  /** Distinct identities that SQLite and the codec can carry. */
  ghost predicate Storables(items: set<Item>) {
    && (forall x :: x in items ==> Storable(KeyOf(x)) && x.id.Valid())
    && (forall x, y :: x in items && y in items && x.id == y.id ==> x == y)
  }

  lemma {:induction false} ItemsSeparated(ordering: ItemOrdering, items: set<Item>, chosen: set<Item>)
    requires Storables(items) && chosen <= items
    ensures Separated(SortSpec(ordering), chosen)
  {
    forall x, y | x in chosen && y in chosen && x != y
      ensures CompareTerms(SortSpec(ordering), KeyOf(x), KeyOf(y)) != Equal
    {
      if CompareTerms(SortSpec(ordering), KeyOf(x), KeyOf(y)) == Equal {
        OrderingSeparates(ordering, KeyOf(x), KeyOf(y));
      }
    }
  }

  /** The rows after a boundary: exactly the matching items later in the order, sorted. */
  lemma {:induction false} RowsExact(e: Effective, ordering: ItemOrdering, items: set<Item>, after: Option<Key>)
    requires Normal(e) && |e.statuses| <= 6 && Storables(items)
    ensures var rows := Rows(e, SortSpec(ordering), items, after);
            && Increasing(SortSpec(ordering), rows) && InOrder(ordering, rows)
            && (forall x :: x in rows <==>
                  x in items && Matches(e, x) && (after.Some? ==> IsAfter(SortSpec(ordering), KeyOf(x), after.value)))
            && (forall x :: x in rows <==>
                  x in items && Matches(e, x)
                  && (after.Some? ==> KeyBefore(ordering, after.value, Key(x.id, x.capturedAt, x.priority))))
  {
    hide Normal, Matches, AllClauses, Clauses, IsAfter, Increasing, Storable, SortSpec, KeyBefore, InOrder;
    var spec := SortSpec(ordering);
    var chosen := set item | item in items && AllClauses(Clauses(e, spec, after), item);
    ItemsSeparated(ordering, items, chosen);
    SortedExact(spec, chosen);
    forall x | x in items
      ensures x in chosen <==> Matches(e, x) && (after.Some? ==> IsAfter(spec, KeyOf(x), after.value))
    {
      WhereExact(e, spec, after, x);
    }
    IncreasingIsInOrder(ordering, Sorted(spec, chosen));
    forall x | x in items && after.Some?
      ensures IsAfter(spec, KeyOf(x), after.value) <==>
                KeyBefore(ordering, after.value, Key(x.id, x.capturedAt, x.priority))
    {
      OrderExact(ordering, after.value, KeyOf(x));
    }
  }

  /** The keyset seek: after the key of the `k`-th row the query returns exactly the rest of the listing. */
  lemma RowsSeek(e: Effective, ordering: ItemOrdering, items: set<Item>, k: nat)
    requires Normal(e) && |e.statuses| <= 6 && Storables(items)
    requires 0 < k <= |Rows(e, SortSpec(ordering), items, None)|
    ensures var all := Rows(e, SortSpec(ordering), items, None);
            Rows(e, SortSpec(ordering), items, Some(KeyOf(all[k - 1]))) == all[k..]
  {
    hide IsAfter, SortSpec, Rows, Normal, Matches, KeyBefore, InOrder;
    var spec := SortSpec(ordering);
    var all := Rows(e, spec, items, None);
    var boundary := KeyOf(all[k - 1]);
    var rest := Rows(e, spec, items, Some(boundary));
    RowsExact(e, ordering, items, None);
    RowsExact(e, ordering, items, Some(boundary));
    SuffixAfter(spec, all, k, boundary);
    forall x ensures x in rest <==> x in all[k..] {
      if x in rest {
        var i :| 0 <= i < |all| && all[i] == x;
        assert all[k..][i - k] == x;
      }
      if x in all[k..] {
        var i :| 0 <= i < |all[k..]| && all[k..][i] == x;
        assert all[k + i] == x;
      }
    }
    IncreasingUnique(spec, rest, all[k..]);
  }

  lemma {:induction false} ScopeNormal(scope: PageScope)
    requires Filters.Typed(scope.configured, scope.filters) && Resolved(scope.view, scope.configured, scope.filters).Ok?
    ensures Normal(FiltersOf(scope)) && |FiltersOf(scope).statuses| <= 6
  {
    hide Filters.Typed, Resolved, Normal;
    ResolvedNormal(scope.view, scope.configured, scope.filters);
    AtMostSix(scope.view, scope.configured, scope.filters);
  }

  lemma ItemsIssuable(codec: Codec, wire: Wire, encode: Item -> Data, storeId: string, generation: string,
                      scope: PageScope, rows: seq<Item>)
    requires Askable(storeId, scope) && Invertible(codec) && GenerationOk(generation)
    requires forall x :: x in rows ==> x.id.Valid()
    ensures Issuable(ItemReader(codec, wire, encode, storeId, generation, scope), rows)
  {
    hide Invertible, GenerationOk, Canonical, Filters.Typed, Resolved, QueryBytes;
    forall i | 0 <= i < |rows| ensures BoundaryValid(ItemBoundary(KeyOf(rows[i]))) {
      assert rows[i] in rows;
    }
  }

  /** A machine word can count the token of every item the request selects. */
  ghost predicate TokensFit(codec: Codec, wire: Wire, encode: Item -> Data, storeId: string, generation: string,
                            scope: PageScope, items: set<Item>)
    requires Askable(storeId, scope)
  {
    EnvelopesFit(ItemReader(codec, wire, encode, storeId, generation, scope), ItemSelection(scope, items)(None))
  }

  /** The whole listing is what v1 selects, in result order, and the traversal receives it, each item once. */
  ghost predicate PagesVisitMatches(codec: Codec, wire: Wire, encode: Item -> Data, storeId: string, generation: string,
                                    scope: PageScope, items: set<Item>, visits: seq<Visit>)
    requires Askable(storeId, scope)
  {
    var r := ItemReader(codec, wire, encode, storeId, generation, scope);
    var all := ItemSelection(scope, items)(None);
    && InOrder(scope.ordering, all)
    && (forall x :: x in all <==> x in items && Selects(scope.view, scope.configured, scope.filters, x))
    && VisitsAll(r, ItemSelection(scope, items), visits)
  }

  /**
   On an unchanged store, following next_cursor from the start with any limits and byte budgets yields the items v1
   would select for the request, each once and in `compare_keys` order, until a record exceeds its budget.
   */
  lemma {:induction false} PagesVisitEveryMatch(
    codec: Codec, wire: Wire, encode: Item -> Data, storeId: string, generation: string, scope: PageScope,
    items: set<Item>, visits: seq<Visit>)
    requires Askable(storeId, scope) && Invertible(codec) && GenerationOk(generation)
    requires Storables(items) && Sizes(visits)
    requires TokensFit(codec, wire, encode, storeId, generation, scope, items)
    ensures PagesVisitMatches(codec, wire, encode, storeId, generation, scope, items, visits)
  {
    hide Askable, Invertible, GenerationOk, Storables, Filters.Typed, Resolved, Selects, Increasing, InOrder,
      ItemSelection,
      EnvelopesFit, VisitsAll, SortSpec, Issuable, Seekable, ItemContext;
    ScopeTyped(storeId, scope);
    var r := ItemReader(codec, wire, encode, storeId, generation, scope);
    SelectionExact(scope, items);
    SelectionSeekable(r, scope, items);
    AllValid(scope, items);
    ItemsIssuable(codec, wire, encode, storeId, generation, scope, ItemSelection(scope, items)(None));
    FollowVisitsAll(r, ItemSelection(scope, items), visits);
  }

  /** The whole listing is what v1 selects for the request, in result order. */
  lemma {:induction false} SelectionExact(scope: PageScope, items: set<Item>)
    requires Filters.Typed(scope.configured, scope.filters) && Resolved(scope.view, scope.configured, scope.filters).Ok?
    requires Storables(items)
    ensures var all := ItemSelection(scope, items)(None);
            && InOrder(scope.ordering, all)
            && (forall x :: x in all <==> x in items && Selects(scope.view, scope.configured, scope.filters, x))
  {
    hide Storables, Filters.Typed, Resolved, Selects, Matches, Normal, Increasing, InOrder, Rows, SortSpec;
    var e := FiltersOf(scope);
    ScopeNormal(scope);
    RowsExact(e, scope.ordering, items, None);
    forall x | x in items ensures Matches(e, x) <==> Selects(scope.view, scope.configured, scope.filters, x) {
      SameMembership(scope.view, scope.configured, scope.filters, x);
    }
  }

  lemma {:induction false} SelectionSeekable(r: Reader<Item>, scope: PageScope, items: set<Item>)
    requires Filters.Typed(scope.configured, scope.filters) && Resolved(scope.view, scope.configured, scope.filters).Ok?
    requires Storables(items) && forall x: Item :: r.key(x) == ItemBoundary(KeyOf(x))
    ensures Seekable(r, ItemSelection(scope, items))
  {
    hide Storables, Filters.Typed, Resolved, Normal, Rows, SortSpec;
    var select := ItemSelection(scope, items);
    var e := FiltersOf(scope);
    ScopeNormal(scope);
    forall k | 0 < k <= |select(None)| ensures select(Some(r.key(select(None)[k - 1]))) == select(None)[k..] {
      RowsSeek(e, scope.ordering, items, k);
    }
  }

  lemma {:induction false} AllValid(scope: PageScope, items: set<Item>)
    requires Filters.Typed(scope.configured, scope.filters) && Resolved(scope.view, scope.configured, scope.filters).Ok?
    requires Storables(items)
    ensures forall x :: x in ItemSelection(scope, items)(None) ==> x.id.Valid()
  {
    hide Filters.Typed, Resolved, Selects, Increasing, InOrder, ItemSelection, Canonical;
    SelectionExact(scope, items);
  }

  lemma ScopeTyped(storeId: string, scope: PageScope)
    requires Askable(storeId, scope)
    ensures Filters.Typed(scope.configured, scope.filters) && Resolved(scope.view, scope.configured, scope.filters).Ok?
  {
  }

  // ---- Reachable stores ----

  ghost function ItemsOf(db: Db): set<Item> {
    set id | id in db.items :: db.items[id]
  }

  predicate Named(id: ItemId) {
    Canonical(Upper, id.requester) && Canonical(Lower, id.project)
  }

  ghost predicate AllNamed(db: Db) {
    forall id :: id in db.items ==> Named(id)
  }

  /** The type invariants of `RequesterId` and `ProjectId` on what captures and restores bring in. */
  ghost predicate NamedAction(action: Action) {
    && (action.DoCapture? ==> Canonical(Upper, action.input.requester) && Canonical(Lower, action.input.project))
    && (action.DoRestore? ==> AllNamed(action.backup))
  }

  lemma {:induction false} CaptureNamed(db: Db, action: Action)
    requires AllNamed(db) && action.DoCapture? && NamedAction(action)
    ensures AllNamed(Runs.Next(db, action))
  {
    hide Canonical, Capture;
    var w := CaptureWrites(db, action.pinned, action.input, action.call);
  }

  lemma {:induction false} MutateNamed(db: Db, action: Action)
    requires AllNamed(db) && action.DoMutate? && (action.id in db.items ==> db.items[action.id].id == action.id)
    ensures AllNamed(Runs.Next(db, action))
  {
    hide Canonical, Mutate;
    var w := MutateWrites(db, action.pinned, action.id, action.expected, action.mutation, action.call);
  }

  lemma {:induction false} StepNamed(h: seq<Db>, actions: seq<Action>, i: nat)
    requires |h| == |actions| + 1 && i < |actions| && Steps(h, actions, i) && NamedAction(actions[i])
    requires forall k :: 0 <= k <= i ==> AllNamed(h[k])
    requires forall id :: id in h[i].items ==> h[i].items[id].id == id
    ensures AllNamed(h[i + 1])
  {
    hide Canonical, Capture, Mutate, Validate;
    match actions[i]
    case DoCapture(_, _, _) => CaptureNamed(h[i], actions[i]);
    case DoMutate(_, _, _, _, _) => MutateNamed(h[i], actions[i]);
    case DoPrune(_, _) => assert h[i + 1].items == h[i].items;
    case DoActivate(_) => assert h[i + 1].items == h[i].items;
    case DoRestore(backup, _, _) =>
      assert h[i + 1].items == h[i].items || h[i + 1].items == backup.items;
  }

  lemma {:induction false} ReachableNamed(h: seq<Db>, actions: seq<Action>, n: nat)
    requires Run(h, actions) && n <= |actions| && forall i :: 0 <= i < |actions| ==> NamedAction(actions[i])
    ensures forall i :: 0 <= i <= n ==> AllNamed(h[i])
  {
    hide Named, Steps, NamedAction;
    if n > 0 {
      ReachableNamed(h, actions, n - 1);
      RunSteps(h, actions, n - 1);
      StepNamed(h, actions, n - 1);
    }
  }

  lemma StoredItems(db: Db)
    requires ItemsOk(db) && AllNamed(db)
    ensures Storables(ItemsOf(db))
  {
    hide Canonical;
    forall id | id in db.items ensures db.items[id].id == id && Storable(KeyOf(db.items[id])) && id.Valid() {
      assert ItemOk(id, db.items[id], db.counters) && Named(id);
    }
  }

  /** The items of every reachable store meet what the traversal asks of them. */
  lemma ReachableStorables(h: seq<Db>, actions: seq<Action>, i: nat)
    requires Run(h, actions) && i < |h| && forall k :: 0 <= k < |actions| ==> NamedAction(actions[k])
    ensures Storables(ItemsOf(h[i]))
  {
    hide NamedAction, Named, Storables;
    ReachableReceipts(h, actions, i);
    ReachableNamed(h, actions, i);
    StoredItems(h[i]);
  }

  /** The traversal in any reachable state of a run, with nothing assumed of its items. */
  lemma {:induction false} ReachableItemPages(
    h: seq<Db>, actions: seq<Action>, i: nat, codec: Codec, wire: Wire, encode: Item -> Data, scope: PageScope,
    visits: seq<Visit>)
    requires Run(h, actions) && i < |h| && forall k :: 0 <= k < |actions| ==> NamedAction(actions[k])
    requires Askable(h[i].identity.storeId, scope) && Invertible(codec) && Sizes(visits)
    requires TokensFit(codec, wire, encode, h[i].identity.storeId, Generation(h[i]), scope, ItemsOf(h[i]))
    ensures PagesVisitMatches(codec, wire, encode, h[i].identity.storeId, Generation(h[i]), scope, ItemsOf(h[i]),
        visits)
  {
    hide Askable, Invertible, GenerationOk, Storables, TokensFit, PagesVisitMatches, NamedAction;
    ReachableStorables(h, actions, i);
    ReachableGeneration(h, actions, i);
    PagesVisitEveryMatch(codec, wire, encode, h[i].identity.storeId, Generation(h[i]), scope, ItemsOf(h[i]), visits);
  }

  // ---- Serving ----

  /** What the client sees of an answer. */
  function SentOf(answer: Result<Response<Item>, ReadError>): Result<Data, ReadError> {
    match answer
    case Ok(response) => Ok(response.envelope)
    case Err(error) => Err(error)
  }

  /**
   The page branch of `read` and its delivery, through the imperative pieces: the clauses built for the decoded
   boundary, the rows SQLite returned for them, and the page written within the budget.
   */
  method ServeItemPage(r: Reader<Item>, scope: PageScope, ghost items: set<Item>, token: Option<string>,
                       rows: seq<Item>, limit: nat, budget: nat)
    returns (clauses: seq<Clause>, sent: Result<Data, ReadError>)
    requires Filters.Typed(scope.configured, scope.filters) && Resolved(scope.view, scope.configured, scope.filters).Ok?
    requires Decode(r, token).Ok? ==>
               var all := ItemSelection(scope, items)(Decode(r, token).value);
               && rows == TakeFirst(all, limit + 1) && Issuable(r, all) && EnvelopesFit(r, all)
    ensures Decode(r, token).Ok? ==>
              clauses == Clauses(FiltersOf(scope), SortSpec(scope.ordering), KeyOption(Decode(r, token).value))
    ensures sent == SentOf(TokenPages.Answer(r, ItemSelection(scope, items), token, limit, budget))
            || (sent == Err(Undelivered(Internal)) && Decode(r, token).Ok?
                && !Countable(PageAt(FeedOf(r, ItemSelection(scope, items)(Decode(r, token).value)), 0, limit)))
  {
    hide Clauses, Decode, Delivered, Issuable, EnvelopesFit, Countable, Resolved, Filters.Typed;
    var after := Decode(r, token);
    if after.Err? {
      return [], Err(CursorInvalid(after.error));
    }
    clauses := BuildClauses(FiltersOf(scope), SortSpec(scope.ordering), KeyOption(after.value));
    var written := ServeRows(r, ItemSelection(scope, items)(after.value), rows, limit, budget);
    sent := if written.Err? then Err(Undelivered(written.error)) else Ok(written.value.envelope);
  }
}
