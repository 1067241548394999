/**
 Byte-budgeted pages: the longest prefix of the selected records whose complete envelope, with its own cursor, fits
 the budget. Records and cursors are their JSON bytes; the envelope is assembled from them as the serializer does.
 */
module Delivery {
  import opened Wrappers
  import opened Text
  import opened Bytes

  const MAXIMUM_PAGE_RECORDS := 100
  const USIZE_MAX: int := U64_MAX

  /** A continuation candidate: the escaped body of a JSON string, or the size of a token that was never built. */
  datatype Candidate = Token(escaped: Data) | Oversized(tokenBytes: nat)

  /** The bytes of one response around its records and its cursor. */
  datatype Wire = Wire(head: Data, middle: Data, tail: Data)

  datatype CursorFailure = CursorFailure

  /** What one call of `write_page` works on. */
  datatype Page = Page(wire: Wire, records: seq<Data>, hasMore: bool, cursor: nat -> Result<Candidate, CursorFailure>)

  datatype DeliveryError =
    | Internal
    | CursorRefused(failure: CursorFailure)
    | EnvelopeTooLarge(minimum: nat)
    | PayloadTooLarge(minimum: nat)

  /** The written envelope, and how many records it holds. */
  datatype Written = Written(envelope: Data, count: nat)

  const NULL: Data := [110, 117, 108, 108]
  const COMMA: Data := [44]
  const QUOTE: Data := [34]

  function Quoted(escaped: Data): Data {
    QUOTE + escaped + QUOTE
  }

  function Joined(records: seq<Data>): Data
    decreases |records|
  {
    if records == [] then []
    else if |records| == 1 then records[0]
    else Joined(records[..|records| - 1]) + COMMA + records[|records| - 1]
  }

  /** `success(PageWire { records, next_cursor })` as serialised. */
  function Enveloped(w: Wire, records: seq<Data>, cursor: Option<Data>): Data {
    w.head + Joined(records) + w.middle + (if cursor.None? then NULL else Quoted(cursor.value)) + w.tail
  }

  function Total(records: seq<Data>): nat
    decreases |records|
  {
    if records == [] then 0 else Total(records[..|records| - 1]) + |records[|records| - 1]|
  }

  lemma {:induction false} JoinedLength(records: seq<Data>)
    ensures |Joined(records)| == Total(records) + if records == [] then 0 else |records| - 1
    decreases |records|
  {
    if |records| > 1 {
      JoinedLength(records[..|records| - 1]);
    } else if |records| == 1 {
      assert records[..0] == [];
    }
  }

  // ---- What the bytes are ----

  /** `piece` stands in `out` from `position` on. */
  predicate At(out: Data, position: int, piece: Data) {
    0 <= position && position + |piece| <= |out| && out[position..position + |piece|] == piece
  }

  lemma AtWithin(a: Data, b: Data, c: Data, position: int, piece: Data)
    requires At(b, position, piece)
    ensures At(a + b + c, |a| + position, piece)
  {
  }

  lemma AtSelf(a: Data, b: Data, c: Data)
    ensures At(a + b + c, 0, a) && At(a + b + c, |a|, b) && At(a + b + c, |a| + |b|, c)
  {
  }

  /** Where record `i` starts in an envelope: after the head, the earlier records and a comma for each of them. */
  function StartOf(w: Wire, records: seq<Data>, i: nat): nat
    requires i <= |records|
  {
    |w.head| + Total(records[..i]) + i
  }

  /** Where the last record ends. */
  function EndOf(w: Wire, records: seq<Data>): int {
    if records == [] then |w.head| else StartOf(w, records, |records|) - 1
  }

  /** Record `i` at its place, behind a comma unless it is the first. */
  predicate RecordAt(out: Data, w: Wire, records: seq<Data>, i: nat)
    requires i < |records|
  {
    At(out, StartOf(w, records, i), records[i]) && (i > 0 ==> At(out, StartOf(w, records, i) - 1, [0x2c]))
  }

  /** The envelope byte by byte: the head, the records, the middle, the word null or the quoted token, and the tail. */
  predicate Laid(out: Data, w: Wire, records: seq<Data>, next: Option<Data>) {
    var cursor := match next case None => [0x6e, 0x75, 0x6c, 0x6c] case Some(token) => [0x22] + token + [0x22];
    && At(out, 0, w.head)
    && (forall i :: 0 <= i < |records| ==> RecordAt(out, w, records, i))
    && At(out, EndOf(w, records), w.middle + cursor + w.tail)
    && |out| == EndOf(w, records) + |w.middle + cursor + w.tail|
  }

  /** The same place in a list of records joined by commas. */
  lemma {:induction false} JoinedAt(records: seq<Data>, i: nat)
    requires i < |records|
    ensures At(Joined(records), Total(records[..i]) + i, records[i])
    ensures i > 0 ==> At(Joined(records), Total(records[..i]) + i - 1, [0x2c])
    decreases |records|
  {
    hide At, Total;
    var n := |records| - 1;
    var front := records[..n];
    JoinedLength(front);
    TotalNone();
    if n == 0 {
      assert records[..0] == [];
      AtSelf([], records[0], []);
      assert [] + records[0] + [] == records[0];
    } else if i < n {
      JoinedAt(front, i);
      assert front[..i] == records[..i];
      AtWithin([], Joined(front), COMMA + records[n], Total(records[..i]) + i, records[i]);
      JoinedSplit(records);
      if i > 0 {
        AtWithin([], Joined(front), COMMA + records[n], Total(records[..i]) + i - 1, [0x2c]);
      }
    } else {
      AtSelf(Joined(front), COMMA, records[n]);
    }
  }

  lemma TotalNone()
    ensures Total([]) == 0 && Joined([]) == []
  {
  }

  lemma JoinedSplit(records: seq<Data>)
    requires |records| > 1
    ensures var n := |records| - 1; Joined(records) == [] + Joined(records[..n]) + (COMMA + records[n])
  {
  }

  lemma RecordLaid(w: Wire, records: seq<Data>, rest: Data, i: nat)
    requires i < |records|
    ensures RecordAt(w.head + Joined(records) + rest, w, records, i)
  {
    hide At, Joined, Total;
    JoinedAt(records, i);
    AtWithin(w.head, Joined(records), rest, Total(records[..i]) + i, records[i]);
    if i > 0 {
      AtWithin(w.head, Joined(records), rest, Total(records[..i]) + i - 1, [0x2c]);
    }
  }

  lemma EndIs(w: Wire, records: seq<Data>)
    ensures EndOf(w, records) == |w.head| + |Joined(records)|
  {
    JoinedLength(records);
    assert records[..|records|] == records;
    TotalNone();
  }

  lemma EnvelopeParts(w: Wire, records: seq<Data>, next: Option<Data>)
    ensures var cursor := match next case None => [0x6e, 0x75, 0x6c, 0x6c] case Some(token) => [0x22] + token + [0x22];
            Enveloped(w, records, next) == w.head + Joined(records) + (w.middle + cursor + w.tail)
  {
    hide Joined;
  }

  lemma {:induction false} EnvelopeLaid(w: Wire, records: seq<Data>, next: Option<Data>)
    ensures Laid(Enveloped(w, records, next), w, records, next)
  {
    hide At, Joined, Enveloped, StartOf, RecordAt, EndOf;
    var cursor := match next case None => [0x6e, 0x75, 0x6c, 0x6c] case Some(token) => [0x22] + token + [0x22];
    var rest := w.middle + cursor + w.tail;
    EnvelopeParts(w, records, next);
    EndIs(w, records);
    AtSelf(w.head, Joined(records), rest);
    forall i | 0 <= i < |records| ensures RecordAt(Enveloped(w, records, next), w, records, i) {
      RecordLaid(w, records, rest, i);
    }
  }

  // ---- What may be sent ----

  predicate More(p: Page, n: nat) {
    p.hasMore || n < |p.records|
  }

  /** The envelope of the first `n` records with the cursor of the last one, if that cursor can be sent. */
  function Prefix(p: Page, n: nat): Option<Data>
    requires 1 <= n <= |p.records|
  {
    if !More(p, n) then Some(Enveloped(p.wire, p.records[..n], None))
    else
      match p.cursor(n - 1)
      case Ok(Token(escaped)) => Some(Enveloped(p.wire, p.records[..n], Some(escaped)))
      case _ => None
  }

  predicate Fits(p: Page, n: nat, budget: nat)
    requires 1 <= n <= |p.records|
  {
    Prefix(p, n).Some? && |Prefix(p, n).value| <= budget
  }

  predicate CursorsAnswer(p: Page) {
    forall n :: 1 <= n <= |p.records| && More(p, n) ==> p.cursor(n - 1).Ok?
  }

  /** Bytes of the first `n` records in an envelope with a null cursor. */
  function PrefixBytes(p: Page, n: nat): nat
    requires n <= |p.records|
  {
    |Enveloped(p.wire, p.records[..n], None)|
  }

  /** The exact size of the envelope of the first `n` records with its own cursor, sendable or not. */
  function ExactBytes(p: Page, n: nat): nat
    requires 1 <= n <= |p.records|
  {
    if !More(p, n) then PrefixBytes(p, n)
    else
      match p.cursor(n - 1)
      case Ok(Token(escaped)) => PrefixBytes(p, n) - 4 + |escaped| + 2
      case Ok(Oversized(bytes)) => PrefixBytes(p, n) - 4 + bytes + 2
      case Err(_) => PrefixBytes(p, n)
  }

  lemma PrefixBytesExact(p: Page, n: nat)
    requires n <= |p.records|
    ensures PrefixBytes(p, n) == PrefixBytes(p, 0) + Total(p.records[..n]) + if n == 0 then 0 else n - 1
    ensures PrefixBytes(p, n) >= 4
  {
    JoinedLength(p.records[..n]);
    JoinedLength(p.records[..0]);
  }

  lemma ExactIsSent(p: Page, n: nat)
    requires 1 <= n <= |p.records|
    ensures PrefixBytes(p, n) >= 4
    ensures Prefix(p, n).Some? ==> |Prefix(p, n).value| == ExactBytes(p, n)
  {
    assert |NULL| == 4 && |QUOTE| == 1;
  }

  lemma TotalSnoc(records: seq<Data>, n: nat)
    requires n < |records|
    ensures Total(records[..n + 1]) == Total(records[..n]) + |records[n]|
  {
    assert records[..n + 1][..n] == records[..n];
  }

  lemma {:induction false} TotalGrows(records: seq<Data>, m: nat, n: nat)
    requires m <= n <= |records|
    ensures Total(records[..m]) <= Total(records[..n])
    decreases n - m
  {
    if m < n {
      TotalGrows(records, m, n - 1);
      TotalSnoc(records, n - 1);
    }
  }

  /** A continuation is at least `""`: a lower bound on every complete envelope, monotone in the prefix. */
  function MinimumBytes(p: Page, n: nat): int
    requires 1 <= n <= |p.records|
  {
    PrefixBytes(p, n) - if More(p, n) then 2 else 0
  }

  lemma MinimumGrows(p: Page, m: nat, n: nat)
    requires 1 <= m <= n <= |p.records|
    ensures MinimumBytes(p, m) <= MinimumBytes(p, n)
  {
    PrefixBytesExact(p, m);
    PrefixBytesExact(p, n);
    TotalGrows(p.records, m, n);
  }

  lemma TooLong(p: Page, m: nat, n: nat, budget: nat)
    requires 1 <= m <= n <= |p.records| && MinimumBytes(p, m) > budget
    ensures !Fits(p, n, budget)
  {
    MinimumGrows(p, m, n);
    ExactIsSent(p, n);
  }

  // ---- The search ----

  /**
   From prefix `n` downwards: the first that fits, the first cursor failure, or the size of the first record's page.
   */
  function Search(p: Page, n: nat, budget: nat): Result<Written, DeliveryError>
    requires 1 <= n <= |p.records|
    decreases n
  {
    if More(p, n) && p.cursor(n - 1).Err? then Err(CursorRefused(p.cursor(n - 1).error))
    else if Fits(p, n, budget) then Ok(Written(Prefix(p, n).value, n))
    else if n == 1 then Err(PayloadTooLarge(ExactBytes(p, 1)))
    else Search(p, n - 1, budget)
  }

  /** No length exceeds the machine word, so every checked addition of the source succeeds. */
  ghost predicate Countable(p: Page) {
    && (forall n :: 1 <= n <= |p.records| ==> PrefixBytes(p, n) <= USIZE_MAX)
    && (forall n :: 1 <= n <= |p.records| ==> ExactBytes(p, n) <= USIZE_MAX)
  }

  /**
   What a client receives: the first `count` records in order, byte by byte, within the budget; a token after them
   exactly when there are more, and it is the last sent record's.
   */
  ghost predicate Sent(p: Page, budget: nat, w: Written) {
    && w.count <= |p.records| && |w.envelope| <= budget
    && if p.hasMore || w.count < |p.records| then
         && w.count > 0 && p.cursor(w.count - 1).Ok? && p.cursor(w.count - 1).value.Token?
         && Laid(w.envelope, p.wire, p.records[..w.count], Some(p.cursor(w.count - 1).value.escaped))
       else Laid(w.envelope, p.wire, p.records[..w.count], None)
  }

  lemma FittingSent(p: Page, n: nat, budget: nat)
    requires 1 <= n <= |p.records| && Fits(p, n, budget)
    ensures Sent(p, budget, Written(Prefix(p, n).value, n))
  {
    hide Enveloped, Laid;
    EnvelopeLaid(p.wire, p.records[..n], None);
    if More(p, n) {
      EnvelopeLaid(p.wire, p.records[..n], Some(p.cursor(n - 1).value.escaped));
    }
  }

  lemma EmptySent(p: Page, budget: nat)
    requires p.records == [] && !p.hasMore && |Enveloped(p.wire, [], None)| <= budget
    ensures Sent(p, budget, Written(Enveloped(p.wire, [], None), 0))
  {
    hide Enveloped, Laid;
    EnvelopeLaid(p.wire, [], None);
    assert p.records[..0] == [];
  }

  lemma {:induction false} SearchSent(p: Page, n: nat, budget: nat)
    requires 1 <= n <= |p.records| && Search(p, n, budget).Ok?
    ensures Sent(p, budget, Search(p, n, budget).value)
  {
    hide Prefix, Sent, Fits;
    SearchOk(p, n, budget);
    FittingSent(p, Search(p, n, budget).value.count, budget);
  }

  /**
   `write_page`: incremental prefix sizes in a fixed array, an early break on the lower bound, then the search from
   the longest candidate. `start` is the candidate it begins with.
   */
  method WritePage(p: Page, budget: nat) returns (r: Result<Written, DeliveryError>, ghost start: nat)
    ensures |p.records| > MAXIMUM_PAGE_RECORDS || (p.records == [] && p.hasMore) ==> r == Err(Internal)
    ensures p.records == [] && !p.hasMore ==>
              var empty := Enveloped(p.wire, [], None);
              r == if |empty| > budget then Err(EnvelopeTooLarge(|empty|)) else Ok(Written(empty, 0))
    ensures 0 < |p.records| <= MAXIMUM_PAGE_RECORDS && !(r == Err(Internal) && !Countable(p)) ==>
              && 1 <= start <= |p.records| && r == Search(p, start, budget)
              && NoneFits(p, start, |p.records|, budget)
    ensures r.Ok? ==> Sent(p, budget, r.value)
  {
    hide Search, Fits, Sent;
    start := 1;
    if |p.records| > MAXIMUM_PAGE_RECORDS || (|p.records| == 0 && p.hasMore) {
      r := Err(Internal);
      return;
    }
    var empty := Enveloped(p.wire, [], None);
    if |p.records| == 0 {
      if |empty| <= budget {
        EmptySent(p, budget);
      }
      r := if |empty| > budget then Err(EnvelopeTooLarge(|empty|)) else Ok(Written(empty, 0));
      return;
    }
    assert p.records[..0] == [];
    var prefixBytes := new nat[MAXIMUM_PAGE_RECORDS];
    var counted, candidates := CountCandidates(p, budget, |empty|, prefixBytes);
    if !counted {
      r := Err(Internal);
      return;
    }
    var first := if candidates == 0 then 1 else candidates;
    start := first;
    forall n | start < n <= |p.records| ensures !Fits(p, n, budget) {
      TooLong(p, candidates + 1, n, budget);
    }
    r := SearchDown(p, budget, first, prefixBytes[..first]);
    if r.Ok? {
      SearchSent(p, first, budget);
    }
  }

  /** The second loop: from the longest candidate down to the first record. */
  method SearchDown(p: Page, budget: nat, first: nat, prefixBytes: seq<nat>) returns (r: Result<Written, DeliveryError>)
    requires 1 <= first == |prefixBytes| <= |p.records|
    requires forall n :: 1 <= n <= first ==> prefixBytes[n - 1] == PrefixBytes(p, n)
    ensures r == Search(p, first, budget) || (r == Err(Internal) && !Countable(p))
  {
    hide PrefixBytes;
    var index := first;
    while true
      invariant 1 <= index <= first
      invariant Search(p, first, budget) == Search(p, index, budget)
      decreases index
    {
      ExactIsSent(p, index);
      var text: Option<Data> := None;
      var cursorBytes := 4;
      var fits := true;
      if p.hasMore || index < |p.records| {
        match p.cursor(index - 1) {
          case Err(failure) =>
            return Err(CursorRefused(failure));
          case Ok(Token(escaped)) =>
            text, cursorBytes := Some(escaped), |Quoted(escaped)|;
          case Ok(Oversized(tokenBytes)) =>
            if tokenBytes + 2 > USIZE_MAX {
              assert ExactBytes(p, index) > USIZE_MAX;
              return Err(Internal);
            }
            cursorBytes, fits := tokenBytes + 2, false;
        }
      }
      var candidateBytes := prefixBytes[index - 1] - 4 + cursorBytes;
      assert candidateBytes == ExactBytes(p, index);
      if candidateBytes > USIZE_MAX {
        return Err(Internal);
      }
      if fits && candidateBytes <= budget {
        var envelope := Enveloped(p.wire, p.records[..index], text);
        r := Emit(envelope, candidateBytes, index);
        return;
      }
      if index == 1 {
        return Err(PayloadTooLarge(candidateBytes));
      }
      index := index - 1;
    }
  }

  /** The first loop: sizes of every prefix up to the first that cannot fit, which ends it. */
  method CountCandidates(p: Page, budget: nat, emptyBytes: nat, prefixBytes: array<nat>)
    returns (ok: bool, candidates: nat)
    requires 0 < |p.records| <= MAXIMUM_PAGE_RECORDS == prefixBytes.Length
    requires emptyBytes == PrefixBytes(p, 0)
    modifies prefixBytes
    ensures !ok ==> !Countable(p)
    ensures candidates <= |p.records|
    ensures ok && candidates < |p.records| ==> MinimumBytes(p, candidates + 1) > budget
    ensures ok ==> forall n :: 1 <= n <= (if candidates == 0 then 1 else candidates) ==>
                     prefixBytes[n - 1] == PrefixBytes(p, n)
  {
    hide PrefixBytes, ExactBytes;
    var recordBytes := 0;
    candidates := 0;
    for index := 0 to |p.records|
      invariant candidates == index
      invariant recordBytes == Total(p.records[..index])
      invariant forall n :: 1 <= n <= index ==> prefixBytes[n - 1] == PrefixBytes(p, n)
    {
      TotalSnoc(p.records, index);
      PrefixBytesExact(p, index + 1);
      if recordBytes + |p.records[index]| > USIZE_MAX
         || emptyBytes + (recordBytes + |p.records[index]|) + index > USIZE_MAX {
        return false, candidates;
      }
      recordBytes := recordBytes + |p.records[index]|;
      prefixBytes[index] := emptyBytes + recordBytes + index;
      var more := p.hasMore || index + 1 < |p.records|;
      var minimum := prefixBytes[index] - if more then 2 else 0;
      if minimum > budget {
        return true, candidates;
      }
      candidates := index + 1;
    }
    ok := true;
  }

  /** A final buffer with a fixed capacity; a mismatch with the counted size would be an internal error. */
  method Emit(envelope: Data, bytes: nat, records: nat) returns (r: Result<Written, DeliveryError>)
    ensures r == if |envelope| == bytes then Ok(Written(envelope, records)) else Err(Internal)
  {
    if |envelope| > bytes || |envelope| != bytes {
      return Err(Internal);
    }
    return Ok(Written(envelope, records));
  }

  // ---- What the search finds ----

  /** No prefix longer than `low`, up to `high`, can be sent. */
  ghost predicate NoneFits(p: Page, low: nat, high: nat, budget: nat)
    requires high <= |p.records|
  {
    forall m :: low < m <= high ==> !Fits(p, m, budget)
  }

  lemma {:induction false} SearchOk(p: Page, n: nat, budget: nat)
    requires 1 <= n <= |p.records| && Search(p, n, budget).Ok?
    ensures var w := Search(p, n, budget).value;
            && 1 <= w.count <= n && Fits(p, w.count, budget) && w.envelope == Prefix(p, w.count).value
            && NoneFits(p, w.count, n, budget)
    decreases n
  {
    hide Prefix;
    if !Fits(p, n, budget) {
      SearchOk(p, n - 1, budget);
    }
  }

  /** A failed search tells why: nothing fits, with the first record's exact size, or a cursor it needed was refused. */
  lemma {:induction false} SearchErr(p: Page, n: nat, budget: nat) returns (m: nat)
    requires 1 <= n <= |p.records| && Search(p, n, budget).Err?
    ensures match Search(p, n, budget).error
            case PayloadTooLarge(minimum) => minimum == ExactBytes(p, 1) && NoneFits(p, 0, n, budget)
            case CursorRefused(failure) =>
              1 <= m <= n && More(p, m) && p.cursor(m - 1) == Err(failure) && NoneFits(p, m - 1, n, budget)
            case _ => false
    decreases n
  {
    hide ExactBytes;
    m := n;
    if (More(p, n) ==> p.cursor(n - 1).Ok?) && n > 1 {
      m := SearchErr(p, n - 1, budget);
    }
  }

  /**
   The page sent holds the longest fitting prefix of all, although the first loop stopped early and cursor sizes are
   not monotonic; nothing fits exactly when the first record's own page is refused, with that page's exact size.
   */
  lemma {:induction false} LongestPrefix(p: Page, budget: nat, start: nat)
    requires CursorsAnswer(p) && 1 <= start <= |p.records| && NoneFits(p, start, |p.records|, budget)
    ensures match Search(p, start, budget)
            case Ok(w) =>
              && 1 <= w.count <= start && Fits(p, w.count, budget) && w.envelope == Prefix(p, w.count).value
              && NoneFits(p, w.count, |p.records|, budget) && Sent(p, budget, w)
            case Err(error) => error == PayloadTooLarge(ExactBytes(p, 1)) && NoneFits(p, 0, |p.records|, budget)
  {
    hide Search, Fits, Prefix, ExactBytes, Sent;
    if Search(p, start, budget).Ok? {
      SearchOk(p, start, budget);
      SearchSent(p, start, budget);
    } else {
      var m := SearchErr(p, start, budget);
    }
  }

  /** A larger budget never sends fewer records. */
  lemma {:induction false} BudgetMonotone(p: Page, small: nat, large: nat, start: nat, start2: nat)
    requires CursorsAnswer(p) && small <= large && 1 <= start <= |p.records| && 1 <= start2 <= |p.records|
    requires NoneFits(p, start, |p.records|, small) && NoneFits(p, start2, |p.records|, large)
    requires Search(p, start, small).Ok?
    ensures Search(p, start2, large).Ok? && Search(p, start2, large).value.count >= Search(p, start, small).value.count
  {
    hide Search, Prefix;
    LongestPrefix(p, small, start);
    LongestPrefix(p, large, start2);
    assert Fits(p, Search(p, start, small).value.count, large);
  }
}
