/**
 Continuation tokens: bounded encoding, structural parsing and binding. JSON is any invertible codec; everything
 around it (size bounds, hexadecimal, versions, identity checks, binding) is the code's own.
 */
module Cursors {
  import opened Wrappers
  import opened Text
  import opened Bytes
  import opened Encoding
  import opened Hex
  import opened Identifiers
  import opened Domain
  import opened Ledger
  import opened Keys
  import opened PageQuery
  import opened Fingerprints
  import opened Filters

  datatype CursorKind = ListCursor | NextCursor | HistoryCursor

  datatype WireBoundary =
    | ItemWire(requester: string, project: string, sequence: nat, capturedAt: string, priority: Option<Priority>)
    | HistoryWire(revision: nat, index: nat)

  datatype Envelope = Envelope(
    cursorVersion: nat, kind: CursorKind, storeId: string, generation: Option<string>, fingerprint: Digest,
    orderVersion: nat, schemaVersion: nat, boundary: WireBoundary)

  /** Serialisation of envelopes and its inverse; no input at all is not JSON. */
  datatype Codec = Codec(encode: Envelope -> Data, decode: Data -> Option<Envelope>)

  ghost predicate Invertible(codec: Codec) {
    && codec.decode([]) == None
    && forall e: Envelope :: codec.decode(codec.encode(e)) == Some(e)
  }

  const PREFIX := "bifc1."
  const MAX_CURSOR_BYTES := 1048576
  const MAX_ENVELOPE_BYTES := (MAX_CURSOR_BYTES - 6) / 2
  const USIZE_MAX: int := U64_MAX

  datatype InvalidCursor =
    | MalformedCursor | OversizedCursor | WrongKind | WrongStore | GenerationMissing | WrongGeneration | WrongQuery
    | UnsupportedVersion

  datatype CursorError = InvalidContext(error: InvalidCursor) | TooLarge(tokenBytes: nat) | Serialization

  datatype Boundary = ItemBoundary(item: Key) | HistoryBoundary(history: HistoryKey)

  datatype DecodedCursor =
    DecodedCursor(kind: CursorKind, storeId: string, generation: string, fingerprint: Digest, boundary: Boundary)

  datatype CursorContext = CursorContext(kind: CursorKind, storeId: string, generation: string, fingerprint: Digest)

  // ---- Encoding ----

  function WireOf(boundary: Boundary): WireBoundary {
    match boundary
    case ItemBoundary(key) =>
      ItemWire(key.id.requester, key.id.project, key.id.sequence, key.capturedAt, key.priority)
    case HistoryBoundary(key) => HistoryWire(key.revision, key.index)
  }

  function EnvelopeOf(context: CursorContext, boundary: Boundary): Envelope {
    Envelope(1, context.kind, context.storeId, Some(context.generation), context.fingerprint, 1, 1, WireOf(boundary))
  }

  predicate KindFits(kind: CursorKind, boundary: Boundary) {
    kind.HistoryCursor? <==> boundary.HistoryBoundary?
  }

  function TokenBytes(envelope: Data): nat {
    6 + 2 * |envelope|
  }

  /** `encode_item_key`, `encode_history_key`. */
  function Encode(codec: Codec, context: CursorContext, boundary: Boundary): Result<string, CursorError> {
    if !KindFits(context.kind, boundary) then Err(InvalidContext(WrongKind))
    else
      var bytes := codec.encode(EnvelopeOf(context, boundary));
      if |bytes| > (USIZE_MAX - 6) / 2 then Err(Serialization)
      else if TokenBytes(bytes) > MAX_CURSOR_BYTES then Err(TooLarge(TokenBytes(bytes)))
      else Ok(PREFIX + ToHex(bytes))
  }

  function Flatten(chunks: seq<Data>): Data
    decreases |chunks|
  {
    if chunks == [] then [] else Flatten(chunks[..|chunks| - 1]) + chunks[|chunks| - 1]
  }

  /** Keeps only bounded JSON, but counts the complete envelope after overflow. */
  class BoundedEnvelope {
    var bytes: Data
    var total: nat

    constructor ()
      ensures bytes == [] && total == 0
    {
      bytes := [];
      total := 0;
    }

    /** What has been written so far is `written`. */
    ghost predicate Holds(written: Data)
      reads this
    {
      && total == |written| && total <= (USIZE_MAX - 6) / 2
      && (total <= MAX_ENVELOPE_BYTES ==> bytes == written)
      && |bytes| <= MAX_ENVELOPE_BYTES
    }

    method Write(chunk: Data, ghost written: Data) returns (ok: bool)
      requires Holds(written)
      modifies this
      ensures ok <==> |written + chunk| <= (USIZE_MAX - 6) / 2
      ensures ok ==> Holds(written + chunk)
    {
      if total + |chunk| > USIZE_MAX || total + |chunk| > (USIZE_MAX - 6) / 2 {
        return false;
      }
      total := total + |chunk|;
      if total <= MAX_ENVELOPE_BYTES {
        bytes := bytes + chunk;
      }
      return true;
    }
  }

  lemma {:induction false} FlattenPrefix(chunks: seq<Data>, n: nat)
    requires n <= |chunks|
    ensures |Flatten(chunks[..n])| <= |Flatten(chunks)|
    decreases |chunks| - n
  {
    if n < |chunks| {
      assert chunks[..n + 1][..n] == chunks[..n];
      FlattenPrefix(chunks, n + 1);
    } else {
      assert chunks[..n] == chunks;
    }
  }

  /** `encode`: the serializer may split the envelope into any chunks; the token and the reported size do not change. */
  method EncodeChunks(codec: Codec, context: CursorContext, boundary: Boundary, chunks: seq<Data>)
    returns (r: Result<string, CursorError>)
    requires Flatten(chunks) == codec.encode(EnvelopeOf(context, boundary))
    ensures r == Encode(codec, context, boundary)
  {
    if context.kind.HistoryCursor? != boundary.HistoryBoundary? {
      return Err(InvalidContext(WrongKind));
    }
    var writer := new BoundedEnvelope();
    for i := 0 to |chunks|
      invariant fresh(writer)
      invariant writer.Holds(Flatten(chunks[..i]))
    {
      var ok := writer.Write(chunks[i], Flatten(chunks[..i]));
      assert chunks[..i + 1][..i] == chunks[..i];
      if !ok {
        FlattenPrefix(chunks, i + 1);
        return Err(Serialization);
      }
    }
    assert chunks[..|chunks|] == chunks;
    var encoded := 6 + writer.total * 2;
    if encoded > MAX_CURSOR_BYTES {
      return Err(TooLarge(encoded));
    }
    return Ok(PREFIX + ToHex(writer.bytes));
  }

  // ---- Parsing and binding ----

  function HexBody(token: string): Option<string> {
    if |token| >= 6 && token[..6] == PREFIX then Some(token[6..]) else None
  }

  /** Noncanonical identities are rejected, not repaired. */
  predicate WireValid(wire: WireBoundary) {
    match wire
    case ItemWire(requester, project, sequence, _, _) =>
      Normalized(Upper, requester) == Some(requester) && Normalized(Lower, project) == Some(project) && sequence != 0
    case HistoryWire(revision, _) => revision != 0
  }

  function BoundaryOf(wire: WireBoundary): Boundary {
    match wire
    case ItemWire(requester, project, sequence, capturedAt, priority) =>
      ItemBoundary(Key(ItemId(requester, project, sequence), capturedAt, priority))
    case HistoryWire(revision, index) => HistoryBoundary(HistoryKey(revision, index))
  }

  function Checked(e: Envelope): Result<DecodedCursor, InvalidCursor> {
    if e.cursorVersion != 1 || e.orderVersion != 1 || e.schemaVersion != 1 then Err(UnsupportedVersion)
    else if e.generation.None? then Err(GenerationMissing)
    else if !GenerationOk(e.generation.value) || !WireValid(e.boundary) then Err(MalformedCursor)
    else if !KindFits(e.kind, BoundaryOf(e.boundary)) then Err(WrongKind)
    else Ok(DecodedCursor(e.kind, e.storeId, e.generation.value, e.fingerprint, BoundaryOf(e.boundary)))
  }

  /** `DecodedCursor::parse`. */
  function Parse(codec: Codec, token: string): Result<DecodedCursor, InvalidCursor> {
    if |Utf8(token)| > MAX_CURSOR_BYTES then Err(OversizedCursor)
    else
      var body := HexBody(token);
      if body.None? || body.value == "" || FromHex(body.value).None? then Err(MalformedCursor)
      else
        var envelope := codec.decode(FromHex(body.value).value);
        if envelope.None? then Err(MalformedCursor) else Checked(envelope.value)
  }

  /** `bind_item_key`, `bind_history_key`: kind, store, generation, query, in that order. */
  function Bind(context: CursorContext, cursor: DecodedCursor): Result<Boundary, InvalidCursor> {
    if cursor.kind != context.kind then Err(WrongKind)
    else if cursor.storeId != context.storeId then Err(WrongStore)
    else if cursor.generation != context.generation then Err(WrongGeneration)
    else if cursor.fingerprint != context.fingerprint then Err(WrongQuery)
    else Ok(cursor.boundary)
  }

  predicate BoundaryValid(boundary: Boundary) {
    match boundary
    case ItemBoundary(key) => key.id.Valid()
    case HistoryBoundary(key) => key.revision >= 1
  }

  predicate Ascii(s: string) {
    forall i :: 0 <= i < |s| ==> s[i] as int < 0x80
  }

  lemma {:induction false} AsciiLength(s: string)
    requires Ascii(s)
    ensures |Utf8(s)| == |s|
  {
    if s != [] {
      assert Ascii(s[1..]);
      AsciiLength(s[1..]);
    }
  }

  lemma TokenShape(bytes: Data)
    ensures var token := PREFIX + ToHex(bytes);
            HexBody(token) == Some(ToHex(bytes)) && |Utf8(token)| == TokenBytes(bytes)
  {
    HexRoundTrip(bytes);
    var token := PREFIX + ToHex(bytes);
    assert |PREFIX| == 6;
    assert Ascii(PREFIX);
    assert token[..6] == PREFIX && token[6..] == ToHex(bytes);
    assert Ascii(token);
    AsciiLength(token);
  }

  lemma {:induction false} WireRoundTrip(boundary: Boundary)
    requires BoundaryValid(boundary)
    ensures WireValid(WireOf(boundary)) && BoundaryOf(WireOf(boundary)) == boundary
  {
    if boundary.ItemBoundary? {
      CanonicalIffFixed(Upper, boundary.item.id.requester);
      CanonicalIffFixed(Lower, boundary.item.id.project);
    }
  }

  lemma EnvelopeChecked(context: CursorContext, boundary: Boundary)
    requires GenerationOk(context.generation) && BoundaryValid(boundary) && KindFits(context.kind, boundary)
    ensures Checked(EnvelopeOf(context, boundary))
         == Ok(DecodedCursor(context.kind, context.storeId, context.generation, context.fingerprint, boundary))
  {
    hide GenerationOk, BoundaryValid, WireValid;
    WireRoundTrip(boundary);
  }

  /** Every token the encoder issues parses back to exactly what was encoded. */
  lemma TokenParses(codec: Codec, context: CursorContext, boundary: Boundary)
    requires Invertible(codec) && GenerationOk(context.generation) && BoundaryValid(boundary)
    requires Encode(codec, context, boundary).Ok?
    ensures Parse(codec, Encode(codec, context, boundary).value)
         == Ok(DecodedCursor(context.kind, context.storeId, context.generation, context.fingerprint, boundary))
  {
    hide GenerationOk, BoundaryValid, Checked, Utf8, HexBody, ToHex, FromHex, EnvelopeOf;
    var envelope := EnvelopeOf(context, boundary);
    var bytes := codec.encode(envelope);
    assert codec.decode(bytes) == Some(envelope);
    TokenShape(bytes);
    HexRoundTrip(bytes);
    assert |ToHex(bytes)| == 2 * |bytes|;
    EnvelopeChecked(context, boundary);
  }

  /**
   An encoding is refused for size exactly when the complete token would exceed the limit, and the size reported is the
   token's.
   */
  lemma EncodeSize(codec: Codec, context: CursorContext, boundary: Boundary)
    requires KindFits(context.kind, boundary)
    requires |codec.encode(EnvelopeOf(context, boundary))| <= (USIZE_MAX - 6) / 2
    ensures var bytes := codec.encode(EnvelopeOf(context, boundary));
            match Encode(codec, context, boundary)
            case Ok(token) => |Utf8(token)| == |token| <= MAX_CURSOR_BYTES
            case Err(error) => error == TooLarge(|Utf8(PREFIX + ToHex(bytes))|)
                               && |Utf8(PREFIX + ToHex(bytes))| > MAX_CURSOR_BYTES
  {
    hide Utf8, HexBody, ToHex;
    TokenShape(codec.encode(EnvelopeOf(context, boundary)));
    assert |PREFIX| == 6;
  }

  /** What encoding answers: the wrong kind by name, a size beyond the word, a size beyond the limit, or the token. */
  lemma EncodeDecided(codec: Codec, context: CursorContext, boundary: Boundary)
    ensures var token := PREFIX + ToHex(codec.encode(EnvelopeOf(context, boundary)));
            Encode(codec, context, boundary) ==
            match (context.kind, boundary)
            case (ListCursor, HistoryBoundary(_)) => Err(InvalidContext(WrongKind))
            case (NextCursor, HistoryBoundary(_)) => Err(InvalidContext(WrongKind))
            case (HistoryCursor, ItemBoundary(_)) => Err(InvalidContext(WrongKind))
            case _ =>
              if |Utf8(token)| >= 0x1_0000_0000_0000_0000 then Err(Serialization)
              else if |Utf8(token)| > 1048576 then Err(TooLarge(|Utf8(token)|))
              else Ok(token)
  {
    hide Utf8, HexBody, ToHex, EnvelopeOf;
    TokenShape(codec.encode(EnvelopeOf(context, boundary)));
  }

  /** What a decoded envelope yields, field by field; every refusal by name. */
  lemma CheckedDecided(e: Envelope)
    ensures Checked(e) ==
            if !(e.cursorVersion == e.orderVersion == e.schemaVersion == 1) then Err(UnsupportedVersion)
            else
              match e.generation
              case None => Err(GenerationMissing)
              case Some(g) =>
                if |g| != 32 || exists c :: c in g && c !in "0123456789abcdef" then Err(MalformedCursor)
                else
                  match (e.kind, e.boundary)
                  case (_, ItemWire(requester, project, sequence, at, priority)) =>
                    if !Canonical(Upper, requester) || !Canonical(Lower, project) || sequence == 0 then
                      Err(MalformedCursor)
                    else if e.kind == HistoryCursor then Err(WrongKind)
                    else
                      Ok(DecodedCursor(e.kind, e.storeId, g, e.fingerprint,
                                       ItemBoundary(Key(ItemId(requester, project, sequence), at, priority))))
                  case (_, HistoryWire(revision, index)) =>
                    if revision == 0 then Err(MalformedCursor)
                    else if e.kind != HistoryCursor then Err(WrongKind)
                    else Ok(DecodedCursor(HistoryCursor, e.storeId, g, e.fingerprint,
                                          HistoryBoundary(HistoryKey(revision, index))))
  {
    hide Canonical, Normalized;
    if e.generation.Some? {
      GenerationByDigits(e.generation.value);
    }
    if e.boundary.ItemWire? {
      CanonicalIffFixed(Upper, e.boundary.requester);
      CanonicalIffFixed(Lower, e.boundary.project);
    }
  }

  lemma GenerationByDigits(g: string)
    ensures GenerationOk(g) <==> |g| == 32 && !(exists c :: c in g && c !in "0123456789abcdef")
  {
    forall c: char ensures IsDigit(c) || 'a' <= c <= 'f' <==> c in "0123456789abcdef" {
    }
  }

  ghost predicate Wraps(token: string, bytes: Data) {
    bytes != [] && token == PREFIX + ToHex(bytes)
  }

  /**
   What a supplied token yields: oversized by its bytes, malformed unless it is the prefix and the lowercase
   hexadecimal of some JSON, and otherwise whatever the envelope in it yields.
   */
  lemma ParseDecided(codec: Codec, token: string)
    ensures if |Utf8(token)| > 1048576 then Parse(codec, token) == Err(OversizedCursor)
            else
              && ((forall bytes :: !Wraps(token, bytes)) ==> Parse(codec, token) == Err(MalformedCursor))
              && forall bytes :: Wraps(token, bytes) ==>
                   Parse(codec, token) == (match codec.decode(bytes)
                                           case None => Err(MalformedCursor)
                                           case Some(envelope) => Checked(envelope))
  {
    hide Utf8, ToHex, FromHex, Checked;
    forall bytes | Wraps(token, bytes)
      ensures HexBody(token) == Some(ToHex(bytes)) && FromHex(ToHex(bytes)) == Some(bytes) && ToHex(bytes) != []
    {
      TokenShape(bytes);
      HexRoundTrip(bytes);
    }
    if HexBody(token).Some? && HexBody(token).value != "" && FromHex(HexBody(token).value).Some? {
      var body := HexBody(token).value;
      UnhexRoundTrip(body);
      HexRoundTrip(FromHex(body).value);
      assert token == PREFIX + body;
      assert Wraps(token, FromHex(body).value);
    }
  }

  // ---- Contexts ----

  function KindOf(ordering: ItemOrdering): CursorKind {
    if ordering.NewestFirst? then ListCursor else NextCursor
  }

  /** `CursorContext::item_page`. */
  function ItemContext(storeId: string, generation: string, scope: PageScope): CursorContext
    requires Filters.Typed(scope.configured, scope.filters) && Resolved(scope.view, scope.configured, scope.filters).Ok?
  {
    AtMostSix(scope.view, scope.configured, scope.filters);
    CursorContext(KindOf(scope.ordering), storeId, generation,
                  Sha256(QueryBytes(ScopeQuery(storeId, scope), MineScope(scope))))
  }

  predicate Askable(storeId: string, scope: PageScope) {
    && Filters.Typed(scope.configured, scope.filters)
    && Resolved(scope.view, scope.configured, scope.filters).Ok?
    && SizedQuery(ScopeQuery(storeId, scope), MineScope(scope))
  }

  /**
   A page token presented with any request of any store is accepted exactly when the request selects the same items
   in the same order, on the same store and generation; then it yields the key it was issued for, and otherwise the
   first mismatch is named.
   */
  lemma {:induction false} TokenBindsExactly(
    codec: Codec, store: string, generation: string, a: PageScope, key: Key, store2: string, generation2: string,
        b: PageScope)
    requires Invertible(codec) && GenerationOk(generation) && key.id.Valid() && Askable(store, a) && Askable(store2, b)
    requires Encode(codec, ItemContext(store, generation, a), ItemBoundary(key)).Ok?
    ensures var token := Encode(codec, ItemContext(store, generation, a), ItemBoundary(key)).value;
            && Parse(codec, token).Ok?
            && Parse(codec, token).value.kind
               == (match a.ordering case NewestFirst => ListCursor case NextFirst => NextCursor)
            && Bind(ItemContext(store2, generation2, b), Parse(codec, token).value) ==
               if a.ordering != b.ordering then Err(WrongKind)
               else if store != store2 then Err(WrongStore)
               else if generation != generation2 then Err(WrongGeneration)
               else if !SameSelection(a, b) || EmptyMine(a) != EmptyMine(b) then Err(WrongQuery)
               else Ok(ItemBoundary(key))
  {
    hide Filters.Typed, Resolved, QueryBytes, SizedQuery, MineScope, EmptyMine, SameSelection, GenerationOk,
      Canonical, Parse, Encode, Invertible, ScopeQuery;
    AtMostSix(a.view, a.configured, a.filters);
    AtMostSix(b.view, b.configured, b.filters);
    TokenParses(codec, ItemContext(store, generation, a), ItemBoundary(key));
    FingerprintExact(store, a, store2, b);
  }

  // ---- History ----

  const HISTORY_MAGIC := "BIF:history-query:1\0"

  function HistoryFields(storeId: string, item: ItemId): seq<Option<string>> {
    [Some(storeId), Some(item.requester), Some(item.project)]
  }

  function HistoryBytes(storeId: string, item: ItemId): Data {
    Utf8(HISTORY_MAGIC) + (Fields(HistoryFields(storeId, item))
                           + (BigEndian(item.sequence, 8) + (BigEndian(1, 4) + BigEndian(1, 4))))
  }

  predicate SizedHistory(storeId: string, item: ItemId) {
    SizedFields(HistoryFields(storeId, item)) && item.sequence <= U64_MAX
  }

  /** `CursorContext::history`. */
  function HistoryContext(storeId: string, generation: string, item: ItemId): CursorContext {
    CursorContext(HistoryCursor, storeId, generation, Sha256(HistoryBytes(storeId, item)))
  }

  lemma {:induction false} HistoryBytesInjective(store: string, a: ItemId, store2: string, b: ItemId)
    requires SizedHistory(store, a) && SizedHistory(store2, b)
    ensures HistoryBytes(store, a) == HistoryBytes(store2, b) <==> store == store2 && a == b
  {
    hide Utf8, Fields, BigEndian, Power256, SizedFields, HistoryFields;
    if HistoryBytes(store, a) == HistoryBytes(store2, b) {
      var end := BigEndian(1, 4) + BigEndian(1, 4);
      var x, y := BigEndian(a.sequence, 8) + end, BigEndian(b.sequence, 8) + end;
      EqualLengthPrefix(Utf8(HISTORY_MAGIC), Utf8(HISTORY_MAGIC),
                        Fields(HistoryFields(store, a)) + x, Fields(HistoryFields(store2, b)) + y);
      HistoryFieldsInjective(store, a, store2, b);
      FieldsPrefix(HistoryFields(store, a), HistoryFields(store2, b), x, y);
      EightBytes();
      BigEndianPrefix(a.sequence, b.sequence, 8, end, end);
    }
  }

  lemma HistoryFieldsInjective(store: string, a: ItemId, store2: string, b: ItemId)
    ensures |HistoryFields(store, a)| == |HistoryFields(store2, b)|
    ensures HistoryFields(store, a) == HistoryFields(store2, b) ==>
              store == store2 && a.requester == b.requester && a.project == b.project
  {
    var p, q := HistoryFields(store, a), HistoryFields(store2, b);
    if p == q {
      assert p[0] == q[0] && p[1] == q[1] && p[2] == q[2];
    }
  }

  /** A history token is accepted exactly for the same item of the same store and generation. */
  lemma {:induction false} HistoryTokenBindsExactly(
    codec: Codec, store: string, generation: string, a: ItemId, key: HistoryKey, store2: string, generation2: string,
        b: ItemId)
    requires Invertible(codec) && GenerationOk(generation) && key.revision >= 1
    requires SizedHistory(store, a) && SizedHistory(store2, b)
    requires Encode(codec, HistoryContext(store, generation, a), HistoryBoundary(key)).Ok?
    ensures var token := Encode(codec, HistoryContext(store, generation, a), HistoryBoundary(key)).value;
            && Parse(codec, token).Ok?
            && Bind(HistoryContext(store2, generation2, b), Parse(codec, token).value) ==
               if store != store2 then Err(WrongStore)
               else if generation != generation2 then Err(WrongGeneration)
               else if a != b then Err(WrongQuery)
               else Ok(HistoryBoundary(key))
  {
    hide HistoryBytes, GenerationOk, Parse, Encode, Invertible, SizedHistory;
    TokenParses(codec, HistoryContext(store, generation, a), HistoryBoundary(key));
    HistoryBytesInjective(store, a, store2, b);
  }
}
