/**
 Reading the change journal: coverage checks, bounded ranges, and a client that pages through a range while
 captures, mutations, prunes and restores run between its pages.
 */
module JournalReads {
  import opened Wrappers
  import opened Ledger
  import opened LedgerInvariants
  import opened Runs

  /** The store and generation a decoded cursor was issued for. */
  datatype Source = Source(storeId: string, generation: string)

  /** `require_sync`: identity before generation before availability. */
  function RequireSync(db: Db, source: Option<Source>): Outcome<JournalError> {
    if source.Some? && source.value.storeId != db.identity.storeId then Fail(StoreMismatch)
    else if source.Some? && source.value.generation != db.metadata.generation then Fail(GenerationMismatch)
    else if !db.metadata.syncEnabled then Fail(SyncDisabled)
    else Pass
  }

  /**
   A cursor bound before a restore is refused as a generation change, or as another store's when the backup was one,
   even though the restore also turned sync off.
   */
  lemma RestoreRevokesSource(h: seq<Db>, actions: seq<Action>, i: nat)
    requires Run(h, actions) && i < |actions| && actions[i].DoRestore?
    ensures RequireSync(h[i + 1], None) == Fail(SyncDisabled)
    ensures forall k :: 0 <= k <= i ==>
              RequireSync(h[i + 1], Some(Source(h[k].identity.storeId, Generation(h[k]))))
              == Fail(if h[k].identity.storeId != h[i + 1].identity.storeId then StoreMismatch else GenerationMismatch)
  {
    RunStep(h, actions, i);
    ReachableInv(h, actions, i);
    assert Steps(h, actions, i);
    var action := actions[i];
    RestoreKeeps(h[i], action.backup, action.generation, action.cookie);
  }

  /** WHERE project_id = ? AND change_seq > low AND change_seq <= high, in journal order. */
  function InRange(rows: seq<Change>, project: string, low: int, high: int): seq<Change> {
    if rows == [] then []
    else
      (if rows[0].project == project && low < rows[0].position <= high then [rows[0]] else [])
      + InRange(rows[1..], project, low, high)
  }

  function Take<T>(s: seq<T>, n: nat): seq<T> {
    if |s| <= n then s else s[..n]
  }

  /** `JournalSnapshot::begin`, then `select_range`. */
  function SelectRange(db: Db, generation: string, project: string, covered: int, high: int, limit: nat)
    : Result<seq<Change>, JournalError>
    requires limit >= 1
  {
    if !MetadataOk(db) then Err(InvalidMetadata)
    else if generation != db.metadata.generation then Err(GenerationMismatch)
    else if covered < 0 || high < covered || high > db.metadata.high then Err(InvalidCoverage)
    else if covered < db.metadata.floor then Err(ExpiredCoverage)
    else Ok(Take(InRange(db.journal, project, covered, high), limit))
  }

  // ---- Rows by position ----

  /** A journal whose retained rows are exactly F+1..H, in order. */
  ghost predicate Contiguous(db: Db) {
    Shaped(db) && forall p :: db.metadata.floor < p <= db.metadata.high ==> RowAt(db, p).position == p
  }

  lemma ContiguousJournal(db: Db)
    requires JournalOk(db)
    ensures Contiguous(db)
  {
  }

  /** The project's changes at positions `low + 1` to `high`. */
  function Selected(db: Db, project: string, low: int, high: int): seq<Change>
    requires Shaped(db) && db.metadata.floor <= low <= high <= db.metadata.high
    decreases high - low
  {
    if low == high then []
    else
      (if RowAt(db, low + 1).project == project then [RowAt(db, low + 1)] else [])
      + Selected(db, project, low + 1, high)
  }

  lemma {:induction false} InRangeAfter(rows: seq<Change>, project: string, low: int, high: int)
    requires forall i :: 0 <= i < |rows| ==> rows[i].position > high
    ensures InRange(rows, project, low, high) == []
    decreases |rows|
  {
    if rows != [] {
      InRangeAfter(rows[1..], project, low, high);
    }
  }

  lemma {:induction false} InRangeBefore(rows: seq<Change>, project: string, low: int, high: int, n: nat)
    requires n <= |rows| && forall i :: 0 <= i < n ==> rows[i].position <= low
    ensures InRange(rows, project, low, high) == InRange(rows[n..], project, low, high)
    decreases n
  {
    if n > 0 {
      InRangeBefore(rows[1..], project, low, high, n - 1);
      assert rows[1..][n - 1..] == rows[n..];
    }
  }

  lemma {:induction false} InRangeFrom(db: Db, project: string, covered: int, low: int, high: int)
    requires Contiguous(db) && db.metadata.floor <= covered <= low <= high <= db.metadata.high
    ensures InRange(db.journal[low - db.metadata.floor..], project, covered, high) == Selected(db, project, low, high)
    decreases high - low
  {
    var k := low - db.metadata.floor;
    var rows := db.journal[k..];
    if low == high {
      forall i | 0 <= i < |rows| ensures rows[i].position > high {
        assert rows[i] == RowAt(db, low + 1 + i);
      }
      InRangeAfter(rows, project, covered, high);
    } else {
      assert rows[0] == RowAt(db, low + 1);
      assert rows[1..] == db.journal[k + 1..];
      InRangeFrom(db, project, covered, low + 1, high);
    }
  }

  /** The query selects the project's rows at positions C+1..H. */
  lemma InRangeSelected(db: Db, project: string, covered: int, high: int)
    requires Contiguous(db) && db.metadata.floor <= covered <= high <= db.metadata.high
    ensures InRange(db.journal, project, covered, high) == Selected(db, project, covered, high)
  {
    var k := covered - db.metadata.floor;
    forall i | 0 <= i < k ensures db.journal[i].position <= covered {
      assert db.journal[i] == RowAt(db, db.metadata.floor + 1 + i);
    }
    InRangeBefore(db.journal, project, covered, high, k);
    InRangeFrom(db, project, covered, covered, high);
  }

  /** Rows of the project within the range, in increasing position order. */
  predicate Ascending(s: seq<Change>, project: string, low: int, high: int) {
    && (forall i :: 0 <= i < |s| ==> low < s[i].position <= high && s[i].project == project)
    && (forall i, j :: 0 <= i < j < |s| ==> s[i].position < s[j].position)
  }

  lemma HeadFirst(row: Change, t: seq<Change>, project: string, low: int, high: int)
    requires row.position == low + 1 <= high && Ascending(t, project, low + 1, high)
    ensures Ascending(t, project, low, high)
    ensures row.project == project ==> Ascending([row] + t, project, low, high)
  {
    assert forall i :: 1 <= i < |[row] + t| ==> ([row] + t)[i] == t[i - 1];
  }

  lemma {:induction false} SelectedAscends(db: Db, project: string, low: int, high: int)
    requires Contiguous(db) && db.metadata.floor <= low <= high <= db.metadata.high
    ensures Ascending(Selected(db, project, low, high), project, low, high)
    decreases high - low
  {
    if low < high {
      SelectedAscends(db, project, low + 1, high);
      hide Ascending;
      HeadFirst(RowAt(db, low + 1), Selected(db, project, low + 1, high), project, low, high);
    }
  }

  lemma {:induction false} SelectedAll(db: Db, project: string, low: int, high: int, p: int)
    requires Shaped(db) && db.metadata.floor <= low < p <= high <= db.metadata.high
    requires RowAt(db, p).project == project
    ensures RowAt(db, p) in Selected(db, project, low, high)
    decreases high - low
  {
    if p > low + 1 {
      SelectedAll(db, project, low + 1, high, p);
    }
  }

  /** Exactly the project's rows of the range, in increasing position order and so each once. */
  lemma {:induction false} SelectedExact(db: Db, project: string, low: int, high: int)
    requires Contiguous(db) && db.metadata.floor <= low <= high <= db.metadata.high
    ensures var s := Selected(db, project, low, high);
            && (forall i :: 0 <= i < |s| ==> low < s[i].position <= high && s[i].project == project)
            && (forall i, j :: 0 <= i < j < |s| ==> s[i].position < s[j].position)
            && (forall p :: low < p <= high && RowAt(db, p).project == project ==> RowAt(db, p) in s)
  {
    hide Selected;
    SelectedAscends(db, project, low, high);
    forall p | low < p <= high && RowAt(db, p).project == project
      ensures RowAt(db, p) in Selected(db, project, low, high)
    {
      SelectedAll(db, project, low, high, p);
    }
  }

  lemma {:induction false} SelectedSame(a: Db, b: Db, project: string, low: int, high: int)
    requires Shaped(a) && Shaped(b) && JournalEvolves(a, b)
    requires b.metadata.floor <= low <= high <= a.metadata.high
    ensures Selected(b, project, low, high) == Selected(a, project, low, high)
    decreases high - low
  {
    if low < high {
      SelectedSame(a, b, project, low + 1, high);
      assert RowAt(b, low + 1) == RowAt(a, low + 1);
    }
  }

  /** Resuming after the `n`-th selected row selects exactly the rest. */
  lemma {:induction false} SelectedResume(db: Db, project: string, low: int, high: int, n: nat)
    requires Contiguous(db) && db.metadata.floor <= low <= high <= db.metadata.high
    requires 0 < n <= |Selected(db, project, low, high)|
    ensures var s := Selected(db, project, low, high);
            && low < s[n - 1].position <= high
            && s[n..] == Selected(db, project, s[n - 1].position, high)
    decreases high - low
  {
    var s, t := Selected(db, project, low, high), Selected(db, project, low + 1, high);
    if RowAt(db, low + 1).project != project {
      SelectedResume(db, project, low + 1, high, n);
    } else if n == 1 {
      assert s == [RowAt(db, low + 1)] + t;
    } else {
      assert s == [RowAt(db, low + 1)] + t;
      SelectedResume(db, project, low + 1, high, n - 1);
      assert s[n..] == t[n - 1..];
    }
  }

  // ---- A paging client ----

  /** One page read: which state of the run it saw, and its limit. */
  datatype Visit = Visit(at: nat, limit: nat)

  datatype Collected = Collected(rows: seq<Change>, complete: bool)

  /** Advances C to the last returned position until a page comes back short. */
  function Collect(h: seq<Db>, visits: seq<Visit>, generation: string, project: string, covered: int, high: int)
    : Result<Collected, JournalError>
    requires forall i :: 0 <= i < |visits| ==> visits[i].at < |h| && visits[i].limit >= 1
    decreases |visits|
  {
    if visits == [] then Ok(Collected([], false))
    else
      var page := SelectRange(h[visits[0].at], generation, project, covered, high, visits[0].limit);
      if page.Err? then Err(page.error)
      else if |page.value| < visits[0].limit then Ok(Collected(page.value, true))
      else
        var rest := Collect(h, visits[1..], generation, project, page.value[|page.value| - 1].position, high);
        if rest.Err? then rest else Ok(Collected(page.value + rest.value.rows, rest.value.complete))
  }

  ghost predicate VisitsInOrder(h: seq<Db>, visits: seq<Visit>) {
    && (forall i :: 0 <= i < |visits| ==> visits[i].at < |h| && visits[i].limit >= 1)
    && (forall i, j :: 0 <= i < j < |visits| ==> visits[i].at <= visits[j].at)
  }

  lemma ReachableContiguous(h: seq<Db>, actions: seq<Action>, i: nat)
    requires Run(h, actions) && i < |h|
    ensures Contiguous(h[i]) && MetadataOk(h[i])
  {
    ReachableUpTo(h, actions, i);
    assert Good(h[i]);
    ContiguousJournal(h[i]);
  }

  lemma LaterJournal(h: seq<Db>, actions: seq<Action>, i: nat, j: nat)
    requires Run(h, actions) && i <= j < |h| && Generation(h[i]) == Generation(h[j])
    ensures JournalEvolves(h[i], h[j])
  {
    GenerationEvolves(h, actions, i, j);
  }

  /** A page read later in the same generation, still covered, is a prefix of what the first state held. */
  lemma LaterPage(h: seq<Db>, actions: seq<Action>, start: nat, at: nat, project: string, covered: int, high: int,
        limit: nat)
    requires Run(h, actions) && start <= at < |h| && limit >= 1
    requires 0 <= covered <= high && h[start].metadata.floor <= covered && high <= h[start].metadata.high
    ensures Shaped(h[start])
    ensures match SelectRange(h[at], Generation(h[start]), project, covered, high, limit)
            case Ok(page) => page == Take(Selected(h[start], project, covered, high), limit)
            case Err(error) =>
              || (error.GenerationMismatch? && Generation(h[at]) != Generation(h[start]))
              || (error.ExpiredCoverage? && covered < h[at].metadata.floor)
  {
    ReachableContiguous(h, actions, start);
    ReachableContiguous(h, actions, at);
    if Generation(h[at]) == Generation(h[start]) {
      LaterJournal(h, actions, start, at);
      if covered >= h[at].metadata.floor {
        InRangeSelected(h[at], project, covered, high);
        SelectedSame(h[start], h[at], project, covered, high);
      }
    }
  }

  /**
   Paging (C,H] with any limits, whatever ran between the pages: a successful traversal has collected exactly the
   project's rows the first state held in that range, in order and each once; otherwise the client was told that
   the generation changed or that pruning overtook it.
   */
  lemma {:induction false} CollectComplete(
    h: seq<Db>, actions: seq<Action>, start: nat, visits: seq<Visit>, project: string, covered: int, high: int)
    requires Run(h, actions) && start < |h| && VisitsInOrder(h, visits)
    requires forall i :: 0 <= i < |visits| ==> start <= visits[i].at
    requires 0 <= covered <= high && h[start].metadata.floor <= covered && high <= h[start].metadata.high
    ensures Shaped(h[start])
    ensures var all := Selected(h[start], project, covered, high);
            match Collect(h, visits, Generation(h[start]), project, covered, high)
            case Ok(c) => c.rows <= all && (c.complete ==> c.rows == all) && (|visits| > |all| ==> c.complete)
            case Err(error) => error.GenerationMismatch? || error.ExpiredCoverage?
    decreases |visits|
  {
    hide Contiguous, InRange, Selected, MetadataOk;
    ReachableContiguous(h, actions, start);
    if visits != [] {
      var all := Selected(h[start], project, covered, high);
      var limit := visits[0].limit;
      LaterPage(h, actions, start, visits[0].at, project, covered, high, limit);
      var page := SelectRange(h[visits[0].at], Generation(h[start]), project, covered, high, limit);
      if page.Ok? && |page.value| == limit {
        SelectedResume(h[start], project, covered, high, limit);
        assert page.value == all[..limit] && all == all[..limit] + all[limit..];
        CollectComplete(h, actions, start, visits[1..], project, all[limit - 1].position, high);
      }
    }
  }

  /** No change ever journaled in this generation inside (C,H] is missing from a range that is still served. */
  lemma ServedRangeIsWhole(
    h: seq<Db>, actions: seq<Action>, early: nat, at: nat, project: string, covered: int, high: int, limit: nat, p: int)
    requires Run(h, actions) && early <= at < |h| && Generation(h[early]) == Generation(h[at]) && limit >= 1
    requires SelectRange(h[at], Generation(h[at]), project, covered, high, limit).Ok?
    requires Shaped(h[early]) && covered < p <= high && h[early].metadata.floor < p <= h[early].metadata.high
    requires RowAt(h[early], p).project == project
    ensures var page := SelectRange(h[at], Generation(h[at]), project, covered, high, limit).value;
            RowAt(h[early], p) in page || (|page| == limit && page[limit - 1].position < p)
  {
    ReachableContiguous(h, actions, at);
    LaterJournal(h, actions, early, at);
    InRangeSelected(h[at], project, covered, high);
    SelectedExact(h[at], project, covered, high);
    var all := Selected(h[at], project, covered, high);
    var page := SelectRange(h[at], Generation(h[at]), project, covered, high, limit).value;
    assert RowAt(h[at], p) == RowAt(h[early], p);
    var k :| 0 <= k < |all| && all[k] == RowAt(h[at], p);
    if k < |page| {
      assert page[k] == all[k];
    } else {
      assert page[limit - 1] == all[limit - 1];
    }
  }

  // ---- What `validate_journal` itself guarantees ----

  predicate HasPosition(rows: seq<Change>, p: int) {
    exists i :: 0 <= i < |rows| && rows[i].position == p
  }

  predicate DistinctPositions(rows: seq<Change>) {
    forall i, j :: 0 <= i < j < |rows| ==> rows[i].position != rows[j].position
  }

  lemma {:induction false} BetweenSound(rows: seq<Change>, low: int, high: int)
    requires DistinctPositions(rows)
    ensures var b := Between(rows, low, high);
            && DistinctPositions(b)
            && (forall i :: 0 <= i < |b| ==> low < b[i].position <= high && b[i] in rows)
    decreases |rows|
  {
    if rows != [] {
      var tail := Between(rows[1..], low, high);
      BetweenSound(rows[1..], low, high);
      if low < rows[0].position <= high {
        var b := Between(rows, low, high);
        assert b == [rows[0]] + tail;
        forall i | 0 < i < |b| ensures b[0].position != b[i].position {
          assert b[i] == tail[i - 1] && tail[i - 1] in rows[1..];
        }
        forall i, j | 0 <= i < j < |b| ensures b[i].position != b[j].position {
          assert i > 0 ==> b[i] == tail[i - 1] && b[j] == tail[j - 1];
        }
      }
    }
  }

  function Positions(rows: seq<Change>): (r: set<int>)
    ensures forall p :: p in r <==> HasPosition(rows, p)
    decreases |rows|
  {
    if rows == [] then {}
    else
      assert forall p :: HasPosition(rows[1..], p) ==> HasPosition(rows, p) by { TailPositions(rows); }
      {rows[0].position} + Positions(rows[1..])
  }

  lemma TailPositions(rows: seq<Change>)
    requires rows != []
    ensures forall p :: HasPosition(rows, p) <==> p == rows[0].position || HasPosition(rows[1..], p)
  {
    forall p | HasPosition(rows, p) ensures p == rows[0].position || HasPosition(rows[1..], p) {
      var i :| 0 <= i < |rows| && rows[i].position == p;
      assert i > 0 ==> rows[1..][i - 1].position == p;
    }
    forall p | HasPosition(rows[1..], p) ensures HasPosition(rows, p) {
      var i :| 0 <= i < |rows| - 1 && rows[1..][i].position == p;
      assert rows[i + 1].position == p;
    }
  }

  function Room(low: int, high: int): (r: set<int>)
    requires low <= high
    ensures forall p :: p in r <==> low < p <= high
    ensures |r| == high - low
    decreases high - low
  {
    if low == high then {} else Room(low, high - 1) + {high}
  }

  lemma {:induction false} PositionsSize(rows: seq<Change>)
    requires DistinctPositions(rows)
    ensures |Positions(rows)| == |rows|
    decreases |rows|
  {
    if rows != [] {
      PositionsSize(rows[1..]);
      assert !HasPosition(rows[1..], rows[0].position);
    }
  }

  lemma FullSubset(a: set<int>, b: set<int>)
    requires a <= b && |a| == |b|
    ensures a == b
  {
    assert b == a + (b - a);
  }

  /** Distinct positions, as many as the interval holds, leave no position of the interval out. */
  lemma Pigeonhole(rows: seq<Change>, low: int, high: int, p: int)
    requires DistinctPositions(rows) && low <= high && low < p <= high
    requires forall i :: 0 <= i < |rows| ==> low < rows[i].position <= high
    requires |rows| == high - low
    ensures HasPosition(rows, p)
  {
    PositionsSize(rows);
    FullSubset(Positions(rows), Room(low, high));
  }

  /** The count of `validate_journal` suffices: with the primary key, no position of (F,H] can be missing. */
  lemma ValidatedHasNoGap(db: Db, p: int)
    requires ValidateJournal(db) && DistinctPositions(db.journal)
    requires db.metadata.floor < p <= db.metadata.high
    ensures HasPosition(db.journal, p)
  {
    BetweenSound(db.journal, db.metadata.floor, db.metadata.high);
    var kept := Between(db.journal, db.metadata.floor, db.metadata.high);
    Pigeonhole(kept, db.metadata.floor, db.metadata.high, p);
    var i :| 0 <= i < |kept| && kept[i].position == p;
    assert kept[i] in db.journal;
  }

  /** A retained row tells the truth about its operation and its item, and is no newer than the store. */
  predicate TrueRow(db: Db, c: Change) {
    && c.operation in db.operations && c.item in db.items
    && c == Change(c.position, c.operation, db.operations[c.operation].item, db.items[c.item].id.project,
                   db.operations[c.operation].revision)
    && c.position <= db.metadata.high && c.revision <= db.items[c.item].revision
  }

  /** What the validation means: the metadata is sound, every row true, no position missing, the allocator at H. */
  ghost predicate SoundJournal(db: Db) {
    && GenerationOk(db.metadata.generation) && 0 <= db.metadata.floor <= db.metadata.high
    && (forall i :: 0 <= i < |db.journal| ==> TrueRow(db, db.journal[i]))
    && (forall p :: db.metadata.floor < p <= db.metadata.high ==> HasPosition(db.journal, p))
    && match db.allocator case Some(last) => last == db.metadata.high case None => db.metadata.high == 0
  }

  lemma {:induction false} BetweenHas(rows: seq<Change>, low: int, high: int, p: int)
    requires low < p <= high && HasPosition(rows, p)
    ensures HasPosition(Between(rows, low, high), p)
    decreases |rows|
  {
    var tail, b := Between(rows[1..], low, high), Between(rows, low, high);
    TailPositions(rows);
    if p == rows[0].position {
      assert b[0].position == p;
    } else {
      BetweenHas(rows[1..], low, high, p);
      var i :| 0 <= i < |tail| && tail[i].position == p;
      assert b[|b| - |tail| + i] == tail[i];
    }
  }

  /** As many rows as the interval holds are between F and H exactly when no position of it is missing. */
  lemma {:induction false} CountExact(rows: seq<Change>, low: int, high: int)
    requires DistinctPositions(rows) && low <= high
    ensures |Between(rows, low, high)| == high - low <==> forall p :: low < p <= high ==> HasPosition(rows, p)
  {
    var kept := Between(rows, low, high);
    BetweenSound(rows, low, high);
    if |kept| == high - low {
      forall p | low < p <= high ensures HasPosition(rows, p) {
        Pigeonhole(kept, low, high, p);
        var i :| 0 <= i < |kept| && kept[i].position == p;
        assert kept[i] in rows;
      }
    }
    if forall p :: low < p <= high ==> HasPosition(rows, p) {
      forall p ensures p in Positions(kept) <==> p in Room(low, high) {
        if low < p <= high {
          BetweenHas(rows, low, high, p);
        }
      }
      assert Positions(kept) == Room(low, high);
      PositionsSize(kept);
    }
  }

  /** The three queries of the validation accept exactly the sound journals, whatever else the store holds. */
  lemma {:induction false} ValidationExact(db: Db)
    requires DistinctPositions(db.journal) && forall id :: id in db.items ==> db.items[id].id == id
    ensures ValidateJournal(db) <==> SoundJournal(db)
  {
    hide GenerationOk, DistinctPositions, HasPosition;
    if db.metadata.floor <= db.metadata.high {
      CountExact(db.journal, db.metadata.floor, db.metadata.high);
    }
    forall i | 0 <= i < |db.journal| ensures RowAgrees(db, db.journal[i]) <==> TrueRow(db, db.journal[i]) {
      assert db.journal[i].item in db.items ==> db.items[db.journal[i].item].id == db.journal[i].item;
    }
  }
}
