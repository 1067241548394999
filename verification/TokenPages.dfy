/**
 Pages addressed by tokens: decode the boundary, select after it, deliver within the budget, and issue the next token.
 Generic in the rows, so item and history pages are two instances.
 */
module TokenPages {
  import opened Wrappers
  import opened Bytes
  import opened Ledger
  import opened PageQuery
  import opened Hex
  import opened Json
  import opened Cursors
  import opened Delivery
  import opened Traversal

  /** What stays fixed while a client pages: codec, wire form, cursor context and each row's key. */
  datatype Reader<!R> =
    Reader(codec: Codec, wire: Wire, encode: R -> Data, context: CursorContext, key: R -> Boundary)

  /** The rows of the statement after an optional boundary, in result order, before LIMIT. */
  type Selection<!R> = Option<Boundary> -> seq<R>

  /** `generated_cursor`. */
  function CandidateOf(token: Result<string, CursorError>): Result<Candidate, CursorFailure> {
    match token
    case Ok(text) => Ok(Token(Escaped(Utf8(text))))
    case Err(TooLarge(bytes)) => Ok(Oversized(bytes))
    case Err(_) => Err(CursorFailure)
  }

  function TokenAfter<R>(r: Reader<R>, row: R): Result<string, CursorError> {
    Encode(r.codec, r.context, r.key(row))
  }

  function FeedOf<R>(r: Reader<R>, rows: seq<R>): Feed<R> {
    Feed(r.wire, rows, r.encode, (row: R) => CandidateOf(TokenAfter(r, row)))
  }

  datatype ReadError = CursorInvalid(error: InvalidCursor) | Undelivered(failure: DeliveryError)

  datatype Response<+R> = Response(rows: seq<R>, next: Option<string>, envelope: Data)

  /** `DecodedCursor::parse` and binding of the optional token. */
  function Decode<R>(r: Reader<R>, token: Option<string>): Result<Option<Boundary>, InvalidCursor> {
    if token.None? then Ok(None)
    else
      var cursor := Parse(r.codec, token.value);
      if cursor.Err? then Err(cursor.error)
      else
        var bound := Bind(r.context, cursor.value);
        if bound.Err? then Err(bound.error)
        else if !KindFits(r.context.kind, bound.value) then Err(WrongKind)
        else Ok(Some(bound.value))
  }

  /** The response built from the selected rows. */
  function Respond<R>(r: Reader<R>, rows: seq<R>, limit: nat, budget: nat): Result<Response<R>, ReadError> {
    var page := PageAt(FeedOf(r, rows), 0, limit);
    var written := Delivered(page, budget);
    if written.Err? then Err(Undelivered(written.error))
    else
      var n := written.value.count;
      var next :=
        if !More(page, n) || n == 0 || n > |rows| || TokenAfter(r, rows[n - 1]).Err? then None
        else Some(TokenAfter(r, rows[n - 1]).value);
      Ok(Response(TakeFirst(rows, n), next, written.value.envelope))
  }

  /** A page branch of `read`, then `Delivery::write`. */
  function Answer<R>(r: Reader<R>, select: Selection<R>, token: Option<string>, limit: nat, budget: nat)
    : Result<Response<R>, ReadError>
  {
    var after := Decode(r, token);
    if after.Err? then Err(CursorInvalid(after.error)) else Respond(r, select(after.value), limit, budget)
  }

  lemma TakeTwice<T>(rows: seq<T>, limit: nat)
    ensures TakeFirst(TakeFirst(rows, limit + 1), limit) == TakeFirst(rows, limit)
    ensures |TakeFirst(rows, limit + 1)| > limit <==> |rows| > limit
  {
  }

  lemma {:induction false} SearchCongruent(p: Page, q: Page, n: nat, budget: nat)
    requires p.wire == q.wire && p.records == q.records && p.hasMore == q.hasMore && 1 <= n <= |p.records|
    requires forall i: nat :: i < n ==> p.cursor(i) == q.cursor(i)
    ensures Search(p, n, budget) == Search(q, n, budget)
    decreases n
  {
    hide Enveloped;
    assert p.cursor(n - 1) == q.cursor(n - 1);
    if n > 1 {
      SearchCongruent(p, q, n - 1, budget);
    } else {
      assert ExactBytes(p, 1) == ExactBytes(q, 1);
    }
  }

  lemma CountableCongruent(p: Page, q: Page)
    requires p.wire == q.wire && p.records == q.records && p.hasMore == q.hasMore
    requires forall i: nat :: i < |p.records| ==> p.cursor(i) == q.cursor(i)
    ensures Countable(p) <==> Countable(q)
  {
    hide Enveloped;
    forall n | 1 <= n <= |p.records|
      ensures ExactBytes(p, n) == ExactBytes(q, n) && PrefixBytes(p, n) == PrefixBytes(q, n)
    {
      assert p.cursor(n - 1) == q.cursor(n - 1);
    }
  }

  /** The context and every row's key can be issued and read back. */
  ghost predicate Issuable<R>(r: Reader<R>, rows: seq<R>) {
    && Invertible(r.codec) && GenerationOk(r.context.generation)
    && forall i :: 0 <= i < |rows| ==> BoundaryValid(r.key(rows[i])) && KindFits(r.context.kind, r.key(rows[i]))
  }

  /** A machine word can count the token of every row. */
  ghost predicate EnvelopesFit<R>(r: Reader<R>, rows: seq<R>) {
    forall i :: 0 <= i < |rows| ==>
      |r.codec.encode(EnvelopeOf(r.context, r.key(rows[i])))| <= (Cursors.USIZE_MAX - 6) / 2
  }

  lemma EnvelopesAnswer<R>(r: Reader<R>, rows: seq<R>)
    requires Issuable(r, rows) && EnvelopesFit(r, rows)
    ensures TokensAnswer(FeedOf(r, rows))
  {
    hide Invertible, GenerationOk, EnvelopeOf, ToHex, BoundaryValid;
    forall i | 0 <= i < |rows| ensures CursorAt(FeedOf(r, rows), i).Ok? {
      assert CursorAt(FeedOf(r, rows), i) == CandidateOf(TokenAfter(r, rows[i]));
    }
  }

  /**
   From the rows SQL returned under LIMIT limit + 1: stepping them, dropping the sentinel and writing within the budget
   gives the page of the whole selection.
   */
  method ServeRows<R>(r: Reader<R>, ghost all: seq<R>, rows: seq<R>, limit: nat, budget: nat)
    returns (w: Result<Written, DeliveryError>)
    requires rows == TakeFirst(all, limit + 1) && Issuable(r, all) && EnvelopesFit(r, all)
    ensures w == Delivered(PageAt(FeedOf(r, all), 0, limit), budget)
            || (w == Err(Internal) && !Countable(PageAt(FeedOf(r, all), 0, limit)))
  {
    hide Search, Countable, CandidateOf, TokenAfter, Issuable, EnvelopesFit;
    EnvelopesAnswer(r, all);
    var records, hasMore := PrimaryPage(rows, limit);
    TakeTwice(all, limit);
    assert all[0..] == all;
    var page := Page(r.wire, seq(|records|, i requires 0 <= i < |records| => r.encode(records[i])), hasMore,
                     (i: nat) => if i < |records| then CandidateOf(TokenAfter(r, records[i])) else Err(CursorFailure));
    ghost var spec := PageAt(FeedOf(r, all), 0, limit);
    assert page.records == spec.records;
    PageAnswers(FeedOf(r, all), 0, limit);
    forall i: nat | i < |records| ensures page.cursor(i) == spec.cursor(i) {
      assert spec.cursor(i) == CursorAt(FeedOf(r, all), 0 + i);
    }
    forall n | 1 <= n <= |page.records| && More(page, n) ensures page.cursor(n - 1).Ok? {
      assert More(spec, n) && spec.cursor(n - 1).Ok?;
    }
    w := WriteDelivered(page, budget);
    CountableCongruent(page, spec);
    if page.records != [] {
      SearchCongruent(page, spec, |page.records|, budget);
    }
  }

  // ---- Positions ----

  /** Selecting after the key of the `k`-th row of the whole listing gives the rest of it. */
  ghost predicate Seekable<R>(r: Reader<R>, select: Selection<R>) {
    forall k :: 0 < k <= |select(None)| ==> select(Some(r.key(select(None)[k - 1]))) == select(None)[k..]
  }

  /** The token that stands for having received the first `k` rows. */
  predicate StandsFor<R>(r: Reader<R>, rows: seq<R>, token: Option<string>, k: nat) {
    k <= |rows| && if k == 0 then token.None? else token.Some? && TokenAfter(r, rows[k - 1]) == Ok(token.value)
  }

  lemma DecodeAt<R>(r: Reader<R>, rows: seq<R>, token: Option<string>, k: nat)
    requires Issuable(r, rows) && StandsFor(r, rows, token, k)
    ensures Decode(r, token) == Ok(if k == 0 then None else Some(r.key(rows[k - 1])))
  {
    hide GenerationOk, Parse, Invertible, BoundaryValid;
    if k > 0 {
      TokenParses(r.codec, r.context, r.key(rows[k - 1]));
    }
  }

  lemma SuffixDelivered<R>(r: Reader<R>, rows: seq<R>, k: nat, limit: nat, budget: nat)
    requires k <= |rows|
    ensures var p := PageAt(FeedOf(r, rows[k..]), 0, limit);
            var q := PageAt(FeedOf(r, rows), k, limit);
            && Delivered(p, budget) == Delivered(q, budget)
            && p.records == q.records && p.hasMore == q.hasMore
  {
    hide Search, CandidateOf, TokenAfter;
    var p, q := PageAt(FeedOf(r, rows[k..]), 0, limit), PageAt(FeedOf(r, rows), k, limit);
    assert rows[k..][0..] == rows[k..];
    assert p.records == q.records;
    forall i: nat ensures p.cursor(i) == q.cursor(i) {
      assert p.cursor(i) == CursorAt(FeedOf(r, rows[k..]), 0 + i);
      assert q.cursor(i) == CursorAt(FeedOf(r, rows), k + i);
    }
    if p.records != [] {
      SearchCongruent(p, q, |p.records|, budget);
    }
  }

  lemma TokenBuilt<R>(r: Reader<R>, rows: seq<R>, i: nat)
    requires i < |rows|
    requires CursorAt(FeedOf(r, rows), i).Ok? && CursorAt(FeedOf(r, rows), i).value.Token?
    ensures TokenAfter(r, rows[i]).Ok?
  {
    hide TokenAfter;
  }

  lemma RespondAt<R>(r: Reader<R>, rows: seq<R>, k: nat, limit: nat, budget: nat)
    requires k <= |rows| && 1 <= limit <= MAXIMUM_PAGE_RECORDS && TokensAnswer(FeedOf(r, rows))
    ensures match Delivered(PageAt(FeedOf(r, rows), k, limit), budget)
            case Err(error) => Respond(r, rows[k..], limit, budget) == Err(Undelivered(error))
            case Ok(w) =>
              && Respond(r, rows[k..], limit, budget).Ok?
              && k + w.count <= |rows| && Respond(r, rows[k..], limit, budget).value.rows == rows[k..k + w.count]
              && Respond(r, rows[k..], limit, budget).value.envelope == w.envelope && |w.envelope| <= budget
              && (Respond(r, rows[k..], limit, budget).value.next.None? <==> k + w.count == |rows|)
              && (k + w.count < |rows| ==>
                    StandsFor(r, rows, Respond(r, rows[k..], limit, budget).value.next, k + w.count))
  {
    hide Delivered, TokenAfter, PageAt, TokensAnswer;
    SuffixDelivered(r, rows, k, limit, budget);
    DeliverExact(FeedOf(r, rows), k, limit, budget);
    var written := Delivered(PageAt(FeedOf(r, rows), k, limit), budget);
    if written.Ok? {
      var n := written.value.count;
      assert rows[k..][..n] == rows[k..k + n];
      if 0 < n && k + n < |rows| {
        assert rows[k..][n - 1] == rows[k + n - 1];
        TokenBuilt(r, rows, k + n - 1);
      }
    }
  }

  function EncodedRows<R>(r: Reader<R>, rows: seq<R>): seq<Data> {
    seq(|rows|, i requires 0 <= i < |rows| => r.encode(rows[i]))
  }

  /**
   The bytes of an answer are its rows: a prefix of the selection, each row's encoding at its place and in order, and
   behind them null or the escaped text of the next token, which is the last row's.
   */
  lemma {:induction false} RespondLaid<R>(r: Reader<R>, rows: seq<R>, limit: nat, budget: nat)
    requires Respond(r, rows, limit, budget).Ok?
    ensures var a := Respond(r, rows, limit, budget).value;
            && a.rows <= rows && |a.rows| <= limit && |a.envelope| <= budget
            && (a.next.Some? <==> |a.rows| < |rows|)
            && (a.next.Some? ==> a.rows != [] && TokenAfter(r, a.rows[|a.rows| - 1]) == Ok(a.next.value))
            && Laid(a.envelope, r.wire, EncodedRows(r, a.rows),
                    if a.next.None? then None else Some(Escaped(Utf8(a.next.value))))
  {
    hide Delivered, Laid, TokenAfter, Utf8, Escaped;
    var page := PageAt(FeedOf(r, rows), 0, limit);
    DeliveredSent(page, budget);
    var n := Delivered(page, budget).value.count;
    assert rows[0..] == rows;
    assert TakeFirst(rows, n) == rows[..n];
    assert page.records[..n] == EncodedRows(r, rows[..n]);
    if n > 0 && n < |rows| {
      assert page.cursor(n - 1) == CursorAt(FeedOf(r, rows), 0 + (n - 1));
      assert rows[..n][n - 1] == rows[n - 1];
    }
  }

  /** A token needs no escape, so its size in the response is the one its encoder counted, and two quotation marks. */
  lemma {:induction false} TokenPlain(codec: Codec, context: CursorContext, boundary: Boundary)
    requires Encode(codec, context, boundary).Ok?
    ensures var text := Encode(codec, context, boundary).value;
            && Escaped(Utf8(text)) == Utf8(text)
            && |Escaped(Utf8(text))| == TokenBytes(codec.encode(EnvelopeOf(context, boundary)))
  {
    hide Escaped, EnvelopeOf;
    var bytes := codec.encode(EnvelopeOf(context, boundary));
    HexRoundTrip(bytes);
    TokenShape(bytes);
    PlainText(PREFIX + ToHex(bytes));
    PlainUnescaped(Utf8(PREFIX + ToHex(bytes)));
  }

  lemma {:induction false} PlainText(s: string)
    requires forall i :: 0 <= i < |s| ==> 0x20 <= s[i] as int < 0x7f && s[i] != '"' && s[i] != '\\'
    ensures forall i :: 0 <= i < |Utf8(s)| ==> Utf8(s)[i] >= 0x20 && Utf8(s)[i] != 0x22 && Utf8(s)[i] != 0x5c
  {
    if s != [] {
      PlainText(s[1..]);
    }
  }

  /** One answer from a token that stands for position `k`. */
  lemma {:induction false} AnswerAt<R>(r: Reader<R>, select: Selection<R>, token: Option<string>, k: nat, limit: nat,
        budget: nat)
    requires 1 <= limit <= MAXIMUM_PAGE_RECORDS && Seekable(r, select) && Issuable(r, select(None))
    requires StandsFor(r, select(None), token, k)
    ensures Answer(r, select, token, limit, budget) == Respond(r, select(None)[k..], limit, budget)
  {
    hide Issuable, Respond, TokenAfter, Decode;
    var rows := select(None);
    DecodeAt(r, rows, token, k);
    if k == 0 {
      assert rows[0..] == rows;
    }
  }

  // ---- Following the tokens ----

  function Follow<R>(r: Reader<R>, select: Selection<R>, token: Option<string>, visits: seq<Visit>)
    : Result<Walked<R>, ReadError>
    decreases |visits|
  {
    if visits == [] then Ok(Walked([], false))
    else
      var page := Answer(r, select, token, visits[0].limit, visits[0].budget);
      if page.Err? then Err(page.error)
      else if page.value.next.None? then Ok(Walked(page.value.rows, true))
      else
        var rest := Follow(r, select, page.value.next, visits[1..]);
        if rest.Err? then rest else Ok(Walked(page.value.rows + rest.value.rows, rest.value.complete))
  }

  lemma {:induction false} FollowIsWalk<R>(
    r: Reader<R>, select: Selection<R>, token: Option<string>, k: nat, visits: seq<Visit>)
    requires Sizes(visits) && Seekable(r, select) && Issuable(r, select(None))
    requires StandsFor(r, select(None), token, k) && TokensAnswer(FeedOf(r, select(None)))
    ensures Follow(r, select, token, visits) ==
            match Walk(FeedOf(r, select(None)), k, visits)
            case Ok(walked) => Ok(walked)
            case Err(error) => Err(Undelivered(error))
    decreases |visits|
  {
    hide Issuable, Seekable, Delivered, Answer, Respond, PageAt, TokensAnswer, TokenAfter;
    if visits != [] {
      var rows := select(None);
      AnswerAt(r, select, token, k, visits[0].limit, visits[0].budget);
      RespondAt(r, rows, k, visits[0].limit, visits[0].budget);
      var page := Delivered(PageAt(FeedOf(r, rows), k, visits[0].limit), visits[0].budget);
      if page.Ok? && k + page.value.count < |rows| {
        FollowIsWalk(r, select, Answer(r, select, token, visits[0].limit, visits[0].budget).value.next,
                     k + page.value.count, visits[1..]);
      }
    }
  }

  /**
   The traversal from the start received a prefix of the whole selection; it received all of it if it ended, and it
   ended if it asked for more pages than there are rows. Only a record too large for its budget, or a budget below the
   bare envelope when there are no rows, stops it.
   */
  predicate VisitsAll<R(==)>(r: Reader<R>, select: Selection<R>, visits: seq<Visit>) {
    match Follow(r, select, None, visits)
    case Ok(w) =>
      && w.rows <= select(None) && (w.complete ==> w.rows == select(None))
      && (|visits| > |select(None)| ==> w.complete)
    case Err(Undelivered(error)) =>
      error.PayloadTooLarge? || (error.EnvelopeTooLarge? && select(None) == [])
    case Err(_) => false
  }

  /**
   Following next_cursor from the start of an unchanged selection, with any limits and byte budgets: the rows received
   are a prefix of it, each once and in order; a traversal that ends has received all of it; it ends within one page
   more than there are rows; and nothing stops it but a record too large for its budget (or, when there are no rows, a
   budget below the bare envelope).
   */
  lemma {:induction false} FollowVisitsAll<R>(r: Reader<R>, select: Selection<R>, visits: seq<Visit>)
    requires Sizes(visits) && Seekable(r, select) && Issuable(r, select(None))
    requires EnvelopesFit(r, select(None))
    ensures VisitsAll(r, select, visits)
  {
    hide Issuable, Seekable, TokensAnswer, EnvelopesFit;
    var rows := select(None);
    EnvelopesAnswer(r, rows);
    FollowIsWalk(r, select, None, 0, visits);
    WalkComplete(FeedOf(r, rows), 0, visits);
    assert rows[0..] == rows;
  }
}
