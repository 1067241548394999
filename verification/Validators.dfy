/** Freshness validators: their text, their parsing, and when one matches. */
module Validators {
  import opened Wrappers
  import opened Text
  import opened Bytes
  import opened Hex
  import opened Identifiers
  import opened Ledger

  datatype ProjectionKind = Summary | Work | Audit

  /** The six components a validator binds. */
  datatype Binding = Binding(
    store: string, generation: string, schema: int, item: ItemId, kind: ProjectionKind, revision: nat)

  const MAXIMUM_REQUEST_BYTES := 1048576

  function KindText(kind: ProjectionKind): string {
    match kind
    case Summary => "summary"
    case Work => "work"
    case Audit => "audit"
  }

  function ParseKind(s: string): Option<ProjectionKind> {
    if s == "summary" then Some(Summary)
    else if s == "work" then Some(Work)
    else if s == "audit" then Some(Audit)
    else None
  }

  /** Rust's `{}` of an i64. */
  function Signed(n: int): string {
    if n < 0 then ['-'] + Decimal(-n) else Decimal(n)
  }

  /** Rust's `str::parse::<i64>`. */
  function ParseI64(s: string): (r: Option<int>)
    ensures r.Some? ==> -I64_MAX - 1 <= r.value <= I64_MAX
  {
    var negative := s != [] && s[0] == '-';
    var body := if s != [] && (s[0] == '+' || s[0] == '-') then s[1..] else s;
    if body == [] || !AllDigits(body) then None
    else
      var magnitude: int := DigitsValue(body);
      var n := if negative then -magnitude else magnitude;
      if -I64_MAX - 1 <= n <= I64_MAX then Some(n) else None
  }

  function Parts(b: Binding): seq<string> {
    ["bifv1", HexOfText(b.store), HexOfText(b.item.Display()), KindText(b.kind), Signed(b.schema),
     Decimal(b.revision), b.generation]
  }

  /** `ProjectionValidator::new`. */
  function ValidatorText(b: Binding): string {
    Join(Parts(b), '.')
  }

  datatype InvalidValidator = Malformed | GenerationMissing

  ghost predicate StorePart(p: string) {
    TextOfHex(p).Some? && TextOfHex(p).value != ""
  }

  ghost predicate ItemPart(p: string) {
    TextOfHex(p).Some? && CanonicalItemId(TextOfHex(p).value)
  }

  predicate KindPart(p: string) {
    ParseKind(p).Some?
  }

  /** A non-negative i64 in its canonical decimal form. */
  predicate SchemaPart(p: string) {
    ParseI64(p).Some? && ParseI64(p).value >= 0 && Signed(ParseI64(p).value) == p
  }

  predicate RevisionPart(p: string) {
    ParseU64(p).Some? && ParseU64(p).value != 0 && Decimal(ParseU64(p).value) == p
  }

  /** The part of `matches` that reads the six or seven components. */
  ghost predicate WellFormedParts(parts: seq<string>) {
    && (|parts| == 6 || |parts| == 7) && parts[0] == "bifv1"
    && StorePart(parts[1]) && ItemPart(parts[2]) && KindPart(parts[3]) && SchemaPart(parts[4]) && RevisionPart(parts[5])
  }

  ghost function Matches(own: string, known: string): Result<bool, InvalidValidator> {
    var parts := Split(known, '.');
    if |Utf8(known)| > MAXIMUM_REQUEST_BYTES || !WellFormedParts(parts) then Err(Malformed)
    else if |parts| == 6 || parts[6] == "null" then Err(GenerationMissing)
    else if !GenerationOk(parts[6]) then Err(Malformed)
    else Ok(own == known)
  }

  /** What the source's types and store already guarantee of the components. */
  predicate Bindable(b: Binding) {
    && b.store != "" && GenerationOk(b.generation) && b.item.Valid()
    && -I64_MAX - 1 <= b.schema <= I64_MAX && 1 <= b.revision <= U64_MAX
  }

  // ---- Texts and their parts ----

  predicate Dotless(p: string) {
    '.' !in p
  }

  lemma HexDotless(p: string)
    requires HexText(p)
    ensures Dotless(p)
  {
  }

  lemma StorePartOf(store: string)
    requires store != ""
    ensures StorePart(HexOfText(store)) && Dotless(HexOfText(store))
  {
    HexTextRoundTrip(store);
    HexDotless(HexOfText(store));
  }

  lemma {:induction false} ItemPartOf(item: ItemId)
    requires item.Valid()
    ensures ItemPart(HexOfText(item.Display())) && Dotless(HexOfText(item.Display()))
  {
    HexTextRoundTrip(item.Display());
    DisplayParses(item);
    HexDotless(HexOfText(item.Display()));
  }

  lemma KindPartOf(kind: ProjectionKind)
    ensures ParseKind(KindText(kind)) == Some(kind) && Dotless(KindText(kind))
  {
    assert "summary"[0] == 's' && "work"[0] == 'w' && "audit"[0] == 'a';
  }

  lemma KindPartInverse(s: string)
    requires KindPart(s)
    ensures KindText(ParseKind(s).value) == s
  {
  }

  lemma SchemaPartOf(n: int)
    requires -I64_MAX - 1 <= n <= I64_MAX
    ensures ParseI64(Signed(n)) == Some(n) && Dotless(Signed(n))
    ensures SchemaPart(Signed(n)) <==> n >= 0
  {
    hide DigitsValue;
    var magnitude := if n < 0 then -n else n;
    DecimalValue(magnitude);
    var d := Decimal(magnitude);
    assert |d| >= 1 && d[0] in d;
    if n < 0 {
      assert Signed(n)[1..] == d;
    }
  }

  lemma RevisionPartOf(n: nat)
    requires n <= U64_MAX
    ensures ParseU64(Decimal(n)) == Some(n) && Dotless(Decimal(n))
    ensures RevisionPart(Decimal(n)) <==> n > 0
  {
    DecimalParses(n);
  }

  lemma GenerationDotless(generation: string)
    requires GenerationOk(generation)
    ensures Dotless(generation)
  {
  }

  lemma VersionDotless()
    ensures Dotless("bifv1")
  {
  }

  lemma {:induction false} OwnParts(b: Binding)
    requires Bindable(b)
    ensures Split(ValidatorText(b), '.') == Parts(b)
  {
    hide Canonical, GenerationOk, Decimal, HexOfText, Signed, KindText, Split, Join, StorePart, ItemPart, SchemaPart,
        RevisionPart;
    var parts := Parts(b);
    VersionDotless();
    StorePartOf(b.store);
    ItemPartOf(b.item);
    KindPartOf(b.kind);
    SchemaPartOf(b.schema);
    RevisionPartOf(b.revision);
    GenerationDotless(b.generation);
    forall p | p in parts ensures '.' !in p {
      assert Dotless(p);
    }
    SplitJoin(parts, '.');
  }

  lemma {:induction false} OwnPartsWellFormed(b: Binding)
    requires Bindable(b)
    ensures WellFormedParts(Parts(b)) <==> b.schema >= 0
    ensures |Parts(b)| == 7 && Parts(b)[6] == b.generation
  {
    hide Canonical, GenerationOk, Decimal, ToHex, Utf8, StorePart, ItemPart, SchemaPart, RevisionPart;
    StorePartOf(b.store);
    ItemPartOf(b.item);
    KindPartOf(b.kind);
    SchemaPartOf(b.schema);
    RevisionPartOf(b.revision);
  }

  lemma NotNull(generation: string)
    requires GenerationOk(generation)
    ensures generation != "null"
  {
    assert |"null"| == 4;
  }

  /** Different components never share a validator text. */
  lemma {:induction false} ValidatorInjective(a: Binding, b: Binding)
    requires Bindable(a) && Bindable(b)
    ensures ValidatorText(a) == ValidatorText(b) <==> a == b
  {
    if ValidatorText(a) == ValidatorText(b) {
      OwnParts(a);
      OwnParts(b);
      PartsInjective(a, b);
    }
  }

  lemma {:induction false} PartsInjective(a: Binding, b: Binding)
    requires Bindable(a) && Bindable(b) && Parts(a) == Parts(b)
    ensures a == b
  {
    var p, q := Parts(a), Parts(b);
    assert p[1] == q[1] && p[2] == q[2] && p[3] == q[3] && p[4] == q[4] && p[5] == q[5] && p[6] == q[6];
    HexTextRoundTrip(a.store);
    HexTextRoundTrip(b.store);
    HexTextRoundTrip(a.item.Display());
    HexTextRoundTrip(b.item.Display());
    DisplayInjective(a.item, b.item);
    KindPartOf(a.kind);
    KindPartOf(b.kind);
    SchemaPartOf(a.schema);
    SchemaPartOf(b.schema);
    RevisionPartOf(a.revision);
    RevisionPartOf(b.revision);
  }

  /**
   A validator the server generated is malformed only beyond the request limit or for a negative schema cookie;
   otherwise it matches exactly when all six components are equal.
   */
  lemma {:induction false} GeneratedMatches(own: Binding, known: Binding)
    requires Bindable(own) && Bindable(known)
    ensures Matches(ValidatorText(own), ValidatorText(known)) ==
            if |Utf8(ValidatorText(known))| > MAXIMUM_REQUEST_BYTES || known.schema < 0 then Err(Malformed)
            else Ok(own == known)
  {
    hide Canonical, GenerationOk, Utf8, Split, Join, ValidatorText, WellFormedParts, Parts;
    OwnParts(known);
    OwnPartsWellFormed(known);
    NotNull(known.generation);
    ValidatorInjective(own, known);
  }

  ghost predicate Generated(known: string) {
    exists b: Binding :: Bindable(b) && b.schema >= 0 && ValidatorText(b) == known
  }

  lemma {:induction false} JoinSplitParts(known: string)
    requires |Split(known, '.')| == 7
    ensures Join(Split(known, '.'), '.') == known
  {
    JoinSplit(known, '.');
  }

  lemma {:induction false} AcceptedIsGenerated(known: string)
    requires WellFormedParts(Split(known, '.')) && |Split(known, '.')| == 7 && GenerationOk(Split(known, '.')[6])
    ensures Generated(known)
  {
    hide Canonical, GenerationOk, Decimal, ToHex, FromHex, FromUtf8, Utf8, Split, Join, ParseItemId;
    var parts := Split(known, '.');
    var display := TextOfHex(parts[2]).value;
    CanonicalItemIdIff(display);
    var item: ItemId :| item.Valid() && item.Display() == display;
    var b := Binding(TextOfHex(parts[1]).value, parts[6], ParseI64(parts[4]).value, item,
                     ParseKind(parts[3]).value, ParseU64(parts[5]).value);
    TextHexRoundTrip(parts[1]);
    TextHexRoundTrip(parts[2]);
    KindPartInverse(parts[3]);
    assert Parts(b) == parts;
    JoinSplitParts(known);
    assert Bindable(b) && ValidatorText(b) == known;
  }

  /** The parser accepts exactly the texts the generator can produce within the limit, and nothing merely similar. */
  lemma {:induction false} AcceptedExactly(own: string, known: string)
    ensures Matches(own, known).Ok? <==> |Utf8(known)| <= MAXIMUM_REQUEST_BYTES && Generated(known)
  {
    var parts := Split(known, '.');
    if Matches(own, known).Ok? {
      AcceptedIsGenerated(known);
    }
    if |Utf8(known)| <= MAXIMUM_REQUEST_BYTES && Generated(known) {
      var b: Binding :| Bindable(b) && b.schema >= 0 && ValidatorText(b) == known;
      OwnParts(b);
      OwnPartsWellFormed(b);
      NotNull(b.generation);
    }
  }

  // ---- The text, and validators from before generations ----

  /** The text of a binding without its generation. */
  function OldText(b: Binding): string {
    "bifv1." + HexOfText(b.store) + "." + HexOfText(b.item.Display()) + "."
    + (match b.kind case Summary => "summary" case Work => "work" case Audit => "audit") + "."
    + (if b.schema < 0 then "-" + Decimal(-b.schema) else Decimal(b.schema)) + "." + Decimal(b.revision)
  }

  /** A validator is its version, store, item, projection, schema, revision and generation, in that order. */
  lemma ValidatorLayout(b: Binding)
    ensures ValidatorText(b) == OldText(b) + "." + b.generation
    ensures Join(Parts(b)[..6], '.') == OldText(b)
  {
    hide HexOfText, Decimal, Join;
    var p := Parts(b);
    JoinOne(p[0]);
    JoinLast(p[..1], p[1]);
    JoinLast(p[..2], p[2]);
    JoinLast(p[..3], p[3]);
    JoinLast(p[..4], p[4]);
    JoinLast(p[..5], p[5]);
    JoinLast(p[..6], p[6]);
    assert p[..1] == [p[0]] && p[..6] + [p[6]] == p;
    assert p[..1] + [p[1]] == p[..2] && p[..2] + [p[2]] == p[..3] && p[..3] + [p[3]] == p[..4];
    assert p[..4] + [p[4]] == p[..5] && p[..5] + [p[5]] == p[..6];
    assert "bifv1." == "bifv1" + ".";
    assert Signed(b.schema) == (if b.schema < 0 then "-" + Decimal(-b.schema) else Decimal(b.schema));
  }

  lemma JoinOne(t: string)
    ensures Join([t], '.') == t
  {
  }

  lemma {:induction false} JoinLast(parts: seq<string>, t: string)
    requires parts != []
    ensures Join(parts + [t], '.') == Join(parts, '.') + "." + t
  {
    if |parts| > 1 {
      assert (parts + [t])[1..] == parts[1..] + [t];
      JoinLast(parts[1..], t);
    } else {
      assert (parts + [t])[1..] == [t];
    }
  }

  /** The six-part text of some binding, alone or with a null generation. */
  ghost predicate BeforeGenerations(known: string) {
    exists b: Binding :: Bindable(b) && b.schema >= 0 && (known == OldText(b) || known == OldText(b) + ".null")
  }

  const SOME_GENERATION := "00000000000000000000000000000000"

  lemma {:induction false} MissingIsOld(known: string)
    requires var parts := Split(known, '.');
             WellFormedParts(parts) && (|parts| == 6 || parts[6] == "null")
    ensures BeforeGenerations(known)
  {
    hide Canonical, Decimal, ToHex, FromHex, FromUtf8, Utf8, Split, Join, ParseItemId, OldText;
    var parts := Split(known, '.');
    var display := TextOfHex(parts[2]).value;
    CanonicalItemIdIff(display);
    var item: ItemId :| item.Valid() && item.Display() == display;
    var b := Binding(TextOfHex(parts[1]).value, SOME_GENERATION, ParseI64(parts[4]).value, item,
                     ParseKind(parts[3]).value, ParseU64(parts[5]).value);
    TextHexRoundTrip(parts[1]);
    TextHexRoundTrip(parts[2]);
    KindPartInverse(parts[3]);
    assert Parts(b)[..6] == parts[..6];
    ValidatorLayout(b);
    JoinSplit(known, '.');
    if |parts| == 7 {
      JoinLast(parts[..6], "null");
      assert parts == parts[..6] + ["null"];
      assert OldText(b) + "." + "null" == OldText(b) + ".null";
    } else {
      assert parts[..6] == parts;
    }
    assert Bindable(b);
  }

  lemma {:induction false} OldIsMissing(own: string, b: Binding)
    requires Bindable(b) && b.schema >= 0
    ensures |Utf8(OldText(b))| <= MAXIMUM_REQUEST_BYTES ==> Matches(own, OldText(b)) == Err(GenerationMissing)
    ensures |Utf8(OldText(b) + ".null")| <= MAXIMUM_REQUEST_BYTES ==>
              Matches(own, OldText(b) + ".null") == Err(GenerationMissing)
  {
    hide Canonical, GenerationOk, Decimal, ToHex, Utf8, StorePart, ItemPart, SchemaPart, RevisionPart, Split, Join,
      OldText;
    var parts := Parts(b)[..6];
    VersionDotless();
    StorePartOf(b.store);
    ItemPartOf(b.item);
    KindPartOf(b.kind);
    SchemaPartOf(b.schema);
    RevisionPartOf(b.revision);
    forall p | p in parts ensures '.' !in p {
      assert Dotless(p);
    }
    ValidatorLayout(b);
    SplitJoin(parts, '.');
    SplitJoin(parts + ["null"], '.');
    ValidatorLayout(b.(generation := "null"));
    assert Parts(b.(generation := "null")) == parts + ["null"];
    OldTextAlone(b);
    assert OldText(b) + "." + "null" == OldText(b) + ".null";
  }

  lemma OldTextAlone(b: Binding)
    ensures OldText(b.(generation := "null")) == OldText(b)
  {
  }

  /** Missing generations are reported for exactly the validators issued before generations existed. */
  lemma {:induction false} MissingExactly(own: string, known: string)
    ensures Matches(own, known) == Err(GenerationMissing)
       <==> |Utf8(known)| <= MAXIMUM_REQUEST_BYTES && BeforeGenerations(known)
  {
    hide WellFormedParts, Split, Utf8, OldText, GenerationOk;
    if Matches(own, known) == Err(GenerationMissing) {
      MissingIsOld(known);
    }
    if |Utf8(known)| <= MAXIMUM_REQUEST_BYTES && BeforeGenerations(known) {
      var b: Binding :| Bindable(b) && b.schema >= 0 && (known == OldText(b) || known == OldText(b) + ".null");
      OldIsMissing(own, b);
    }
  }
}
