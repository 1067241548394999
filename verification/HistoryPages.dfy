/** History pages: the ascending row-value seek behind the tokens, over the stored events of one item. */
module HistoryPages {
  import opened Wrappers
  import opened Text
  import opened Bytes
  import opened Identifiers
  import opened Domain
  import opened Ledger
  import opened LedgerInvariants
  import opened Runs
  import opened History
  import opened PageQuery
  import opened Cursors
  import opened Delivery
  import opened Traversal
  import opened TokenPages

  function KeyOfRow(row: EventRow): HistoryKey {
    HistoryKey(row.audited.event.revision, row.index)
  }

  function HistoryReader(codec: Codec, wire: Wire, encode: EventRow -> Data, storeId: string, generation: string,
                         item: ItemId): Reader<EventRow>
  {
    Reader(codec, wire, encode, HistoryContext(storeId, generation, item),
           (row: EventRow) => HistoryBoundary(KeyOfRow(row)))
  }

  /** The events after the boundary; the table keeps an item's events in index order. */
  function SeekRows(rows: seq<EventRow>, after: Option<HistoryKey>): seq<EventRow>
    decreases |rows|
  {
    if rows == [] then []
    else (if HistorySeek(KeyOfRow(rows[0]), after) then [rows[0]] else []) + SeekRows(rows[1..], after)
  }

  function HistoryKeyOption(after: Option<Boundary>): Option<HistoryKey> {
    if after.Some? && after.value.HistoryBoundary? then Some(after.value.history) else None
  }

  function HistorySelection(rows: seq<EventRow>): Selection<EventRow> {
    (after: Option<Boundary>) => SeekRows(rows, HistoryKeyOption(after))
  }

  /** Rows in strictly ascending (revision, index) order, within SQLite's integers. */
  ghost predicate Ascending(rows: seq<EventRow>) {
    && (forall i, j :: 0 <= i < j < |rows| ==> HistoryAfter(KeyOfRow(rows[j]), KeyOfRow(rows[i])))
    && (forall i :: 0 <= i < |rows| ==> rows[i].audited.event.revision <= I64_MAX && rows[i].index <= I64_MAX)
  }

  lemma {:induction false} OrderedAscends(rows: seq<EventRow>, i: nat, j: nat)
    requires Ordered(rows) && i < j < |rows|
    ensures HistoryAfter(KeyOfRow(rows[j]), KeyOfRow(rows[i]))
    decreases j - i
  {
    assert Succeeds(rows[j - 1], rows[j]);
    if i < j - 1 {
      OrderedAscends(rows, i, j - 1);
    }
  }

  /** Every reachable item's events are stored in the order the query asks for. */
  lemma StoredAscending(rows: seq<EventRow>, item: Item, operations: map<string, Operation>)
    requires HistoryOf(rows, item, operations) && item.revision <= I64_MAX
    ensures Ascending(rows)
  {
    hide Succeeds;
    assert Ordered(rows);
    forall i, j | 0 <= i < j < |rows| ensures HistoryAfter(KeyOfRow(rows[j]), KeyOfRow(rows[i])) {
      OrderedAscends(rows, i, j);
    }
    forall i | 0 <= i < |rows| ensures rows[i].audited.event.revision <= I64_MAX {
      Nondecreasing(rows, i, |rows| - 1);
    }
  }

  lemma {:induction false} SeekAll(rows: seq<EventRow>, after: Option<HistoryKey>)
    requires forall i :: 0 <= i < |rows| ==> HistorySeek(KeyOfRow(rows[i]), after)
    ensures SeekRows(rows, after) == rows
    decreases |rows|
  {
    if rows != [] {
      SeekAll(rows[1..], after);
    }
  }

  lemma {:induction false} SeekSkips(rows: seq<EventRow>, after: Option<HistoryKey>, k: nat)
    requires k <= |rows| && forall i :: 0 <= i < k ==> !HistorySeek(KeyOfRow(rows[i]), after)
    ensures SeekRows(rows, after) == SeekRows(rows[k..], after)
    decreases k
  {
    if k > 0 {
      SeekSkips(rows[1..], after, k - 1);
      assert rows[1..][k - 1..] == rows[k..];
    }
  }

  /** Seeking after the `k`-th event gives exactly the later events. */
  lemma {:induction false} SeekSuffix(rows: seq<EventRow>, k: nat)
    requires Ascending(rows) && 0 < k <= |rows|
    ensures SeekRows(rows, Some(KeyOfRow(rows[k - 1]))) == rows[k..]
  {
    var after := Some(KeyOfRow(rows[k - 1]));
    forall i | 0 <= i < |rows| ensures HistorySeek(KeyOfRow(rows[i]), after) <==> i >= k {
      HistorySeekExact(KeyOfRow(rows[i]), after.value);
      if i < k - 1 {
        assert HistoryAfter(KeyOfRow(rows[k - 1]), KeyOfRow(rows[i]));
      }
    }
    SeekSkips(rows, after, k);
    SeekAll(rows[k..], after);
  }

  /** Following next_cursor through an item's history yields every stored event once, in (revision, index) order. */
  lemma {:induction false} HistoryVisitsEveryEvent(
    codec: Codec, wire: Wire, encode: EventRow -> Data, storeId: string, generation: string, id: ItemId,
    rows: seq<EventRow>, visits: seq<Visit>)
    requires Invertible(codec) && GenerationOk(generation) && Ascending(rows) && Sizes(visits)
    requires forall i :: 0 <= i < |rows| ==> rows[i].audited.event.revision >= 1
    requires EnvelopesFit(HistoryReader(codec, wire, encode, storeId, generation, id), rows)
    ensures var r := HistoryReader(codec, wire, encode, storeId, generation, id);
            match Follow(r, HistorySelection(rows), None, visits)
            case Ok(w) => w.rows <= rows && (w.complete ==> w.rows == rows) && (|visits| > |rows| ==> w.complete)
            case Err(Undelivered(error)) => error.PayloadTooLarge? || (error.EnvelopeTooLarge? && rows == [])
            case Err(_) => false
  {
    hide Invertible, GenerationOk, EnvelopesFit, Follow, HistoryContext;
    var r := HistoryReader(codec, wire, encode, storeId, generation, id);
    var select := HistorySelection(rows);
    SeekAll(rows, None);
    assert select(None) == rows;
    forall k | 0 < k <= |select(None)| ensures select(Some(r.key(select(None)[k - 1]))) == select(None)[k..] {
      SeekSuffix(rows, k);
    }
    assert Seekable(r, select);
    HistoryContextIs(storeId, generation, id);
    FollowVisitsAll(r, select, visits);
  }

  lemma HistoryContextIs(storeId: string, generation: string, id: ItemId)
    ensures HistoryContext(storeId, generation, id).generation == generation
    ensures HistoryContext(storeId, generation, id).kind.HistoryCursor?
  {
  }

  /** The same for every item of every reachable store. */
  lemma {:induction false} ReachableHistoryPages(
    h: seq<Db>, actions: seq<Action>, i: nat, id: ItemId, codec: Codec, wire: Wire, encode: EventRow -> Data,
    visits: seq<Visit>)
    requires Run(h, actions) && i < |h| && id in h[i].items && id in h[i].events.rows
    requires Invertible(codec) && Sizes(visits)
    requires EnvelopesFit(HistoryReader(codec, wire, encode, h[i].identity.storeId, Generation(h[i]), id),
                          h[i].events.rows[id])
    ensures var rows := h[i].events.rows[id];
            var r := HistoryReader(codec, wire, encode, h[i].identity.storeId, Generation(h[i]), id);
            match Follow(r, HistorySelection(rows), None, visits)
            case Ok(w) => w.rows <= rows && (w.complete ==> w.rows == rows) && (|visits| > |rows| ==> w.complete)
            case Err(error) => error.Undelivered? && error.failure.PayloadTooLarge?
  {
    hide Invertible, EnvelopesFit, Follow, HistoryReader, HistorySelection, Succeeds, OwnedRow;
    var rows := h[i].events.rows[id];
    ReachableHistory(h, actions, i, id);
    StoredAscending(rows, h[i].items[id], h[i].operations);
    ReachableGeneration(h, actions, i);
    PositiveRevisions(rows, h[i].items[id], h[i].operations);
    HistoryVisitsEveryEvent(codec, wire, encode, h[i].identity.storeId, Generation(h[i]), id, rows, visits);
  }

  lemma PositiveRevisions(rows: seq<EventRow>, item: Item, operations: map<string, Operation>)
    requires HistoryOf(rows, item, operations)
    ensures rows != [] && forall k :: 0 <= k < |rows| ==> rows[k].audited.event.revision >= 1
  {
    hide Succeeds;
    assert Ordered(rows);
    forall k | 0 <= k < |rows| ensures rows[k].audited.event.revision >= 1 {
      Nondecreasing(rows, 0, k);
    }
  }
}
