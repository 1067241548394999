/**
 Walking a fixed list page by page: what one byte-budgeted page delivers from a position, and that following the
 pages visits every row exactly once.
 */
module Traversal {
  import opened Wrappers
  import opened Bytes
  import opened PageQuery
  import opened Delivery

  /** The rows of one query in result order, with how each is encoded and continued after. */
  datatype Feed<!R> = Feed(wire: Wire, rows: seq<R>, encode: R -> Data, token: R -> Result<Candidate, CursorFailure>)

  function Encoded<R>(feed: Feed<R>, k: nat, limit: nat): (r: seq<Data>)
    requires k <= |feed.rows|
    ensures |r| == |TakeFirst(feed.rows[k..], limit)|
  {
    var records := TakeFirst(feed.rows[k..], limit);
    seq(|records|, i requires 0 <= i < |records| => feed.encode(records[i]))
  }

  function CursorAt<R>(feed: Feed<R>, i: nat): Result<Candidate, CursorFailure> {
    if i < |feed.rows| then feed.token(feed.rows[i]) else Err(CursorFailure)
  }

  /** What `write_page` is given after `k` rows have been sent. */
  function PageAt<R>(feed: Feed<R>, k: nat, limit: nat): Page
    requires k <= |feed.rows|
  {
    Page(feed.wire, Encoded(feed, k, limit), |feed.rows| - k > limit, (i: nat) => CursorAt(feed, k + i))
  }

  /** The outcome of `write_page`, whatever candidate its search starts from. */
  function Delivered(p: Page, budget: nat): Result<Written, DeliveryError> {
    if |p.records| > MAXIMUM_PAGE_RECORDS || (p.records == [] && p.hasMore) then Err(Internal)
    else if p.records == [] then
      var empty := Enveloped(p.wire, [], None);
      if |empty| > budget then Err(EnvelopeTooLarge(|empty|)) else Ok(Written(empty, 0))
    else Search(p, |p.records|, budget)
  }

  lemma {:induction false} SearchSame(p: Page, start: nat, n: nat, budget: nat)
    requires CursorsAnswer(p) && 1 <= start <= n <= |p.records| && NoneFits(p, start, n, budget)
    ensures Search(p, start, budget) == Search(p, n, budget)
    decreases n
  {
    if start < n {
      SearchSame(p, start, n - 1, budget);
    }
  }

  /** `write_page` computes exactly this outcome, so its early break never changes the answer. */
  method WriteDelivered(p: Page, budget: nat) returns (r: Result<Written, DeliveryError>)
    requires CursorsAnswer(p)
    ensures r == Delivered(p, budget) || (r == Err(Internal) && !Countable(p))
  {
    hide Search, Countable;
    ghost var start;
    r, start := WritePage(p, budget);
    if 0 < |p.records| <= MAXIMUM_PAGE_RECORDS && !(r == Err(Internal) && !Countable(p)) {
      SearchSame(p, start, |p.records|, budget);
    }
  }

  /** Every row's continuation can at least be sized. */
  ghost predicate TokensAnswer<R>(feed: Feed<R>) {
    forall i :: 0 <= i < |feed.rows| ==> CursorAt(feed, i).Ok?
  }

  /** Whatever is delivered was sent as it should be. */
  lemma DeliveredSent(p: Page, budget: nat)
    requires Delivered(p, budget).Ok?
    ensures Sent(p, budget, Delivered(p, budget).value)
  {
    hide Search, Sent, Enveloped;
    if p.records == [] {
      EmptySent(p, budget);
    } else {
      SearchSent(p, |p.records|, budget);
    }
  }

  lemma PageAnswers<R>(feed: Feed<R>, k: nat, limit: nat)
    requires k <= |feed.rows| && TokensAnswer(feed)
    ensures CursorsAnswer(PageAt(feed, k, limit))
  {
    var p := PageAt(feed, k, limit);
    forall n | 1 <= n <= |p.records| && More(p, n) ensures p.cursor(n - 1).Ok? {
      assert CursorAt(feed, k + (n - 1)).Ok?;
    }
  }

  /** One page from position `k`: how many rows it holds, whether it continues, and the only ways it can fail. */
  lemma DeliverExact<R>(feed: Feed<R>, k: nat, limit: nat, budget: nat)
    requires k <= |feed.rows| && 1 <= limit <= MAXIMUM_PAGE_RECORDS && TokensAnswer(feed)
    ensures match Delivered(PageAt(feed, k, limit), budget)
            case Ok(w) =>
              && w.count <= limit && k + w.count <= |feed.rows| && |w.envelope| <= budget
              && (k < |feed.rows| ==> w.count >= 1)
              && (More(PageAt(feed, k, limit), w.count) <==> k + w.count < |feed.rows|)
              && (k + w.count < |feed.rows| ==> CursorAt(feed, k + w.count - 1).Ok?
                                                && CursorAt(feed, k + w.count - 1).value.Token?)
            case Err(PayloadTooLarge(minimum)) =>
              k < |feed.rows| && minimum == ExactBytes(PageAt(feed, k, limit), 1)
              && (minimum > budget || (CursorAt(feed, k).Ok? && CursorAt(feed, k).value.Oversized?))
            case Err(EnvelopeTooLarge(minimum)) => k == |feed.rows| && minimum > budget
            case Err(_) => false
  {
    hide Enveloped, Search, CursorAt;
    var p := PageAt(feed, k, limit);
    PageAnswers(feed, k, limit);
    if p.records != [] {
      var n := |p.records|;
      assert NoneFits(p, n, n, budget);
      LongestPrefix(p, budget, n);
      if Search(p, n, budget).Ok? {
        FittingCursor(feed, k, limit, Search(p, n, budget).value.count, budget);
      } else {
        RefusedFirst(feed, k, limit, budget);
      }
    }
  }

  lemma FittingCursor<R>(feed: Feed<R>, k: nat, limit: nat, n: nat, budget: nat)
    requires k <= |feed.rows| && 1 <= n <= |PageAt(feed, k, limit).records| && Fits(PageAt(feed, k, limit), n, budget)
    ensures More(PageAt(feed, k, limit), n) <==> k + n < |feed.rows|
    ensures k + n < |feed.rows| ==> CursorAt(feed, k + n - 1).Ok? && CursorAt(feed, k + n - 1).value.Token?
  {
    hide Enveloped;
    var p := PageAt(feed, k, limit);
    assert p.cursor(n - 1) == CursorAt(feed, k + (n - 1));
  }

  lemma RefusedFirst<R>(feed: Feed<R>, k: nat, limit: nat, budget: nat)
    requires k < |feed.rows| && 1 <= limit && TokensAnswer(feed)
    requires !Fits(PageAt(feed, k, limit), 1, budget)
    ensures ExactBytes(PageAt(feed, k, limit), 1) > budget || CursorAt(feed, k).value.Oversized?
  {
    hide Enveloped;
    var p := PageAt(feed, k, limit);
    ExactIsSent(p, 1);
    assert p.cursor(0) == CursorAt(feed, k + 0);
  }

  // ---- Walking ----

  datatype Visit = Visit(limit: nat, budget: nat)

  datatype Walked<R> = Walked(rows: seq<R>, complete: bool)

  predicate Sizes(visits: seq<Visit>) {
    forall i :: 0 <= i < |visits| ==> 1 <= visits[i].limit <= MAXIMUM_PAGE_RECORDS
  }

  /** Pages from position `k` on, each continuing after the last row sent. */
  function Walk<R>(feed: Feed<R>, k: nat, visits: seq<Visit>): Result<Walked<R>, DeliveryError>
    requires k <= |feed.rows|
    decreases |visits|
  {
    if visits == [] then Ok(Walked([], false))
    else
      var page := Delivered(PageAt(feed, k, visits[0].limit), visits[0].budget);
      if page.Err? then Err(page.error)
      else if page.value.count > |feed.rows| - k then Err(Internal)
      else
        var sent := feed.rows[k..k + page.value.count];
        if k + page.value.count == |feed.rows| then Ok(Walked(sent, true))
        else
          var rest := Walk(feed, k + page.value.count, visits[1..]);
          if rest.Err? then rest else Ok(Walked(sent + rest.value.rows, rest.value.complete))
  }

  /**
   Whatever limits and budgets each page uses: the rows sent are a prefix of the list, in order and without repeats;
   a walk that ends has sent them all; more pages than rows always end it; and only an oversized row or an empty
   list with a budget below the bare envelope stops it.
   */
  lemma {:induction false} WalkComplete<R>(feed: Feed<R>, k: nat, visits: seq<Visit>)
    requires k <= |feed.rows| && TokensAnswer(feed) && Sizes(visits)
    ensures match Walk(feed, k, visits)
            case Ok(w) =>
              && w.rows <= feed.rows[k..] && (w.complete ==> w.rows == feed.rows[k..])
              && (|visits| > |feed.rows| - k ==> w.complete)
            case Err(error) => error.PayloadTooLarge? || (error.EnvelopeTooLarge? && k == |feed.rows|)
    decreases |visits|
  {
    hide Delivered, PageAt;
    if visits != [] {
      DeliverExact(feed, k, visits[0].limit, visits[0].budget);
      var page := Delivered(PageAt(feed, k, visits[0].limit), visits[0].budget);
      if page.Ok? && k + page.value.count < |feed.rows| {
        var next := k + page.value.count;
        WalkComplete(feed, next, visits[1..]);
        assert feed.rows[k..] == feed.rows[k..next] + feed.rows[next..];
      } else if page.Ok? {
        assert feed.rows[k..] == feed.rows[k..k + page.value.count];
      }
    }
  }
}
