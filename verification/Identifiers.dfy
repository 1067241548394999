/**
 Requester, project and assignee identifiers, and the item identity built from them.
 `Normalize` is the character loop of the source; `Tokens` says what it computes.
 */
module Identifiers {
  import opened Wrappers
  import opened Text

  datatype Case = Upper | Lower

  function FoldChar(kind: Case, c: char): char {
    match kind
    case Upper => ToUpper(c)
    case Lower => ToLower(c)
  }

  function FoldText(kind: Case, s: string): (r: string)
    ensures |r| == |s|
    ensures forall i :: 0 <= i < |s| ==> r[i] == FoldChar(kind, s[i])
  {
    seq(|s|, i requires 0 <= i < |s| => FoldChar(kind, s[i]))
  }

  /** Length of the alphanumeric run that starts `s`. */
  function RunLength(s: string): (n: nat)
    ensures n <= |s|
    ensures forall i :: 0 <= i < n ==> IsAlnum(s[i])
    ensures n < |s| ==> !IsAlnum(s[n])
  {
    if s == [] || !IsAlnum(s[0]) then 0 else 1 + RunLength(s[1..])
  }

  /** The maximal ASCII alphanumeric runs of `s`, in order. */
  function Tokens(s: string): (r: seq<string>)
    ensures forall t :: t in r ==> t != [] && forall i :: 0 <= i < |t| ==> IsAlnum(t[i])
    decreases |s|
  {
    if s == [] then []
    else if !IsAlnum(s[0]) then Tokens(s[1..])
    else [s[..RunLength(s)]] + Tokens(s[RunLength(s)..])
  }

  function FoldAll(kind: Case, tokens: seq<string>): (r: seq<string>)
    ensures |r| == |tokens|
    ensures forall i :: 0 <= i < |r| ==> r[i] == FoldText(kind, tokens[i])
  {
    seq(|tokens|, i requires 0 <= i < |tokens| => FoldText(kind, tokens[i]))
  }

  /** What normalisation means: the folded tokens joined by single hyphens. */
  function Normalized(kind: Case, s: string): Option<string> {
    if Tokens(s) == [] then None else Some(Join(FoldAll(kind, Tokens(s)), '-'))
  }

  predicate InCase(kind: Case, c: char) {
    IsDigit(c) || (if kind.Upper? then IsUpper(c) else IsLower(c))
  }

  /** Non-empty alphanumeric tokens of the right case between single hyphens. */
  predicate Canonical(kind: Case, s: string) {
    forall t :: t in Split(s, '-') ==> t != [] && forall i :: 0 <= i < |t| ==> InCase(kind, t[i])
  }

  // ---- How one more character changes the tokens ----

  lemma {:induction false} RunLengthSnoc(s: string, c: char)
    requires IsAlnum(c) || RunLength(s) < |s|
    ensures RunLength(s + [c]) == if RunLength(s) < |s| then RunLength(s) else |s| + 1
  {
    if s != [] && IsAlnum(s[0]) {
      assert (s + [c])[1..] == s[1..] + [c];
      RunLengthSnoc(s[1..], c);
    }
  }

  lemma RunLengthStop(s: string, c: char)
    requires !IsAlnum(c)
    ensures RunLength(s + [c]) == RunLength(s)
  {
    if s != [] && IsAlnum(s[0]) {
      assert (s + [c])[1..] == s[1..] + [c];
      RunLengthStop(s[1..], c);
    }
  }

  lemma {:induction false} TokensSnocSeparator(s: string, c: char)
    requires !IsAlnum(c)
    ensures Tokens(s + [c]) == Tokens(s)
    decreases |s|
  {
    if s == [] {
      assert s + [c] == [c] && [c][1..] == [];
    } else if !IsAlnum(s[0]) {
      assert (s + [c])[1..] == s[1..] + [c];
      TokensSnocSeparator(s[1..], c);
    } else {
      var n := RunLength(s);
      RunLengthStop(s, c);
      assert (s + [c])[..n] == s[..n] && (s + [c])[n..] == s[n..] + [c];
      TokensSnocSeparator(s[n..], c);
    }
  }

  function ExtendLast(tokens: seq<string>, c: char): seq<string>
    requires tokens != []
  {
    tokens[..|tokens| - 1] + [tokens[|tokens| - 1] + [c]]
  }

  lemma {:induction false} TokensOfRun(t: string)
    requires t != [] && forall i :: 0 <= i < |t| ==> IsAlnum(t[i])
    ensures Tokens(t) == [t]
  {
    assert RunLength(t) == |t|;
    assert t[..|t|] == t && t[|t|..] == [];
  }

  lemma {:induction false} TokensSnocAlnum(s: string, c: char)
    requires IsAlnum(c)
    ensures s != [] && IsAlnum(s[|s| - 1]) ==>
              Tokens(s) != [] && Tokens(s + [c]) == ExtendLast(Tokens(s), c)
    ensures s == [] || !IsAlnum(s[|s| - 1]) ==> Tokens(s + [c]) == Tokens(s) + [[c]]
    decreases |s|
  {
    if s == [] {
      assert s + [c] == [c];
      TokensOfRun([c]);
    } else if !IsAlnum(s[0]) {
      assert (s + [c])[1..] == s[1..] + [c];
      TokensSnocAlnum(s[1..], c);
      assert IsAlnum(s[|s| - 1]) ==> |s| > 1 && s[1..][|s| - 2] == s[|s| - 1];
    } else if RunLength(s) == |s| {
      TokensOfRun(s);
      TokensOfRun(s + [c]);
    } else {
      TokensSnocLater(s, c);
    }
  }

  lemma TokensHead(s: string)
    requires s != [] && IsAlnum(s[0])
    ensures Tokens(s) == [s[..RunLength(s)]] + Tokens(s[RunLength(s)..])
  {
  }

  lemma {:induction false} TokensSnocLater(s: string, c: char)
    requires IsAlnum(c) && s != [] && IsAlnum(s[0]) && RunLength(s) < |s|
    ensures IsAlnum(s[|s| - 1]) ==> Tokens(s) != [] && Tokens(s + [c]) == ExtendLast(Tokens(s), c)
    ensures !IsAlnum(s[|s| - 1]) ==> Tokens(s + [c]) == Tokens(s) + [[c]]
    decreases |s|, 0
  {
    hide IsAlnum, Tokens, RunLength;
    var n := RunLength(s);
    RunLengthSnoc(s, c);
    var head, tail := s[..n], s[n..];
    assert (s + [c])[..n] == head && (s + [c])[n..] == tail + [c];
    TokensHead(s);
    TokensHead(s + [c]);
    TokensSnocAlnum(tail, c);
    assert tail[|tail| - 1] == s[|s| - 1];
  }

  lemma {:induction false} JoinExtendLast(tokens: seq<string>, c: char)
    requires tokens != []
    ensures Join(ExtendLast(tokens, c), '-') == Join(tokens, '-') + [c]
  {
    var e := ExtendLast(tokens, c);
    if |tokens| == 1 {
      assert e == [tokens[0] + [c]];
    } else {
      assert e[1..] == ExtendLast(tokens[1..], c);
      JoinExtendLast(tokens[1..], c);
    }
  }

  lemma {:induction false} JoinSnoc(tokens: seq<string>, t: string)
    requires tokens != []
    ensures Join(tokens + [t], '-') == Join(tokens, '-') + ['-'] + t
  {
    if |tokens| > 1 {
      assert (tokens + [t])[1..] == tokens[1..] + [t];
      JoinSnoc(tokens[1..], t);
    } else {
      assert (tokens + [t])[1..] == [t];
    }
  }

  lemma FoldAllExtendLast(kind: Case, tokens: seq<string>, c: char)
    requires tokens != []
    ensures FoldAll(kind, ExtendLast(tokens, c)) == ExtendLast(FoldAll(kind, tokens), FoldChar(kind, c))
  {
    var last := tokens[|tokens| - 1];
    assert FoldText(kind, last + [c]) == FoldText(kind, last) + [FoldChar(kind, c)];
  }

  lemma FoldAllSnoc(kind: Case, tokens: seq<string>, c: char)
    ensures FoldAll(kind, tokens + [[c]]) == FoldAll(kind, tokens) + [[FoldChar(kind, c)]]
  {
    assert FoldText(kind, [c]) == [FoldChar(kind, c)];
  }

  /** The text normalisation has produced after reading `s`. */
  function Joined(kind: Case, s: string): string {
    Join(FoldAll(kind, Tokens(s)), '-')
  }

  lemma JoinedEmpty(kind: Case, s: string)
    ensures Joined(kind, s) == [] <==> Tokens(s) == []
  {
    if Tokens(s) != [] {
      assert Tokens(s)[0] in Tokens(s);
    }
  }

  lemma {:induction false} JoinedSnoc(kind: Case, s: string, c: char)
    ensures !IsAlnum(c) ==> Joined(kind, s + [c]) == Joined(kind, s)
    ensures IsAlnum(c) && s != [] && IsAlnum(s[|s| - 1]) ==>
              Joined(kind, s + [c]) == Joined(kind, s) + [FoldChar(kind, c)]
    ensures IsAlnum(c) && (s == [] || !IsAlnum(s[|s| - 1])) ==>
              Joined(kind, s + [c]) == Joined(kind, s) + (if Tokens(s) == [] then [] else ['-']) + [FoldChar(kind, c)]
  {
    if !IsAlnum(c) {
      TokensSnocSeparator(s, c);
    } else {
      TokensSnocAlnum(s, c);
      if s != [] && IsAlnum(s[|s| - 1]) {
        FoldAllExtendLast(kind, Tokens(s), c);
        JoinExtendLast(FoldAll(kind, Tokens(s)), FoldChar(kind, c));
      } else {
        FoldAllSnoc(kind, Tokens(s), c);
        if Tokens(s) != [] {
          JoinSnoc(FoldAll(kind, Tokens(s)), [FoldChar(kind, c)]);
        } else {
          assert FoldAll(kind, Tokens(s)) == [];
          assert Joined(kind, s + [c]) == [FoldChar(kind, c)];
        }
      }
    }
  }

  /** The loop over a growing string and a pending-separator flag. */
  method Normalize(kind: Case, input: string) returns (r: Option<string>)
    ensures r == Normalized(kind, input)
  {
    var normalized := "";
    var pending := false;
    for i := 0 to |input|
      invariant normalized == Joined(kind, input[..i])
      invariant pending <==> i > 0 && !IsAlnum(input[i - 1]) && normalized != []
    {
      var c := input[i];
      assert input[..i + 1] == input[..i] + [c];
      JoinedSnoc(kind, input[..i], c);
      JoinedEmpty(kind, input[..i]);
      if IsAlnum(c) {
        if pending && normalized != [] {
          normalized := normalized + ['-'];
        }
        pending := false;
        normalized := normalized + [FoldChar(kind, c)];
      } else if normalized != [] {
        pending := true;
      }
    }
    assert input[..|input|] == input;
    JoinedEmpty(kind, input);
    r := if normalized == [] then None else Some(normalized);
  }

  // ---- Canonical form ----

  lemma {:induction false} SplitJoin(tokens: seq<string>, sep: char)
    requires tokens != []
    requires forall t :: t in tokens ==> sep !in t
    ensures Split(Join(tokens, sep), sep) == tokens
  {
    if |tokens| == 1 {
      SplitWhole(tokens[0], sep);
    } else {
      SplitJoin(tokens[1..], sep);
      SplitHead(tokens[0], sep, Join(tokens[1..], sep));
    }
  }

  lemma FoldedTokens(kind: Case, s: string, t: string)
    requires t in FoldAll(kind, Tokens(s))
    ensures t != [] && '-' !in t && forall i :: 0 <= i < |t| ==> InCase(kind, t[i])
  {
    var k :| 0 <= k < |Tokens(s)| && FoldAll(kind, Tokens(s))[k] == t;
    assert Tokens(s)[k] in Tokens(s);
  }

  /** Outputs are canonical, and only a text without any ASCII letter or digit is refused. */
  lemma NormalizedIsCanonical(kind: Case, s: string)
    ensures Normalized(kind, s).Some? ==> Canonical(kind, Normalized(kind, s).value)
    ensures Normalized(kind, s).None? <==> forall i :: 0 <= i < |s| ==> !IsAlnum(s[i])
  {
    NoTokens(s);
    var tokens := FoldAll(kind, Tokens(s));
    forall t | t in tokens ensures t != [] && '-' !in t && forall i :: 0 <= i < |t| ==> InCase(kind, t[i]) {
      FoldedTokens(kind, s, t);
    }
    if tokens != [] {
      SplitJoin(tokens, '-');
    }
  }

  lemma {:induction false} NoTokens(s: string)
    ensures Tokens(s) == [] <==> forall i :: 0 <= i < |s| ==> !IsAlnum(s[i])
  {
    if s != [] && !IsAlnum(s[0]) {
      NoTokens(s[1..]);
      assert forall i :: 1 <= i < |s| ==> s[i] == s[1..][i - 1];
    }
  }

  lemma {:induction false} WholeRun(t: string)
    requires forall i :: 0 <= i < |t| ==> IsAlnum(t[i])
    ensures RunLength(t) == |t|
  {
  }

  lemma {:induction false} TokensOfJoined(t: string, rest: string)
    requires t != [] && forall i :: 0 <= i < |t| ==> IsAlnum(t[i])
    ensures Tokens(t + ['-'] + rest) == [t] + Tokens(rest)
  {
    var s := t + ['-'] + rest;
    assert s[|t|] == '-' && forall i :: 0 <= i < |t| ==> s[i] == t[i];
    assert RunLength(s) == |t|;
    assert s[..|t|] == t && s[|t|..] == ['-'] + rest;
    assert (['-'] + rest)[1..] == rest;
  }

  lemma {:induction false} CanonicalTokens(kind: Case, s: string)
    requires Canonical(kind, s)
    ensures Tokens(s) == Split(s, '-')
    decreases |s|
  {
    JoinSplit(s, '-');
    var i := IndexOf(s, '-');
    var t := s[..i];
    assert Split(s, '-')[0] == if i == |s| then s else t;
    assert s == t + s[i..];
    if i == |s| {
      assert s in Split(s, '-');
      WholeRun(s);
      assert s[..|s|] == s && s[|s|..] == [];
    } else {
      assert t in Split(s, '-');
      assert s == t + ['-'] + s[i + 1..];
      TokensOfJoined(t, s[i + 1..]);
      assert Split(s, '-')[1..] == Split(s[i + 1..], '-');
      CanonicalTokens(kind, s[i + 1..]);
    }
  }

  /** Canonical identifiers are exactly the fixed points, so normalisation is idempotent and onto them. */
  lemma CanonicalIffFixed(kind: Case, s: string)
    ensures Canonical(kind, s) <==> Normalized(kind, s) == Some(s)
  {
    if Canonical(kind, s) {
      CanonicalTokens(kind, s);
      JoinSplit(s, '-');
      var tokens := Tokens(s);
      forall k | 0 <= k < |tokens| ensures FoldText(kind, tokens[k]) == tokens[k] {
        assert tokens[k] in tokens;
      }
      assert FoldAll(kind, tokens) == tokens;
    } else {
      NormalizedIsCanonical(kind, s);
    }
  }

  lemma NormalizeIdempotent(kind: Case, s: string)
    requires Normalized(kind, s).Some?
    ensures Normalized(kind, Normalized(kind, s).value) == Normalized(kind, s)
  {
    NormalizedIsCanonical(kind, s);
    CanonicalIffFixed(kind, Normalized(kind, s).value);
  }

  predicate TokenOk(kind: Case, t: string) {
    t != [] && forall i :: 0 <= i < |t| ==> InCase(kind, t[i])
  }

  lemma CanonicalHead(kind: Case, s: string)
    requires Canonical(kind, s)
    ensures TokenOk(kind, s[..IndexOf(s, '-')])
    ensures IndexOf(s, '-') < |s| ==> Canonical(kind, s[IndexOf(s, '-') + 1..])
  {
    var k := IndexOf(s, '-');
    assert s[..k] == Split(s, '-')[0] by { if k == |s| { assert s[..k] == s; } }
    assert s[..k] in Split(s, '-');
    if k < |s| {
      assert Split(s, '-')[1..] == Split(s[k + 1..], '-');
    }
  }

  /** A canonical identifier is never empty and holds no character outside its case and the hyphen. */
  lemma {:induction false} CanonicalChars(kind: Case, s: string)
    requires Canonical(kind, s)
    ensures s != []
    ensures forall i :: 0 <= i < |s| ==> InCase(kind, s[i]) || s[i] == '-'
    decreases |s|
  {
    hide Canonical, InCase;
    CanonicalHead(kind, s);
    var k := IndexOf(s, '-');
    forall i | 0 <= i < k ensures InCase(kind, s[i]) {
      assert s[..k][i] == s[i];
    }
    if k < |s| {
      CanonicalChars(kind, s[k + 1..]);
      forall i | k < i < |s| ensures InCase(kind, s[i]) || s[i] == '-' {
        assert s[i] == s[k + 1..][i - k - 1];
      }
    }
  }

  /** One token of the right case is canonical as it stands. */
  lemma SingleToken(kind: Case, s: string)
    requires s != [] && forall i :: 0 <= i < |s| ==> InCase(kind, s[i])
    ensures Canonical(kind, s)
  {
    SplitWhole(s, '-');
  }

  // ---- Item identity ----

  datatype ItemId = ItemId(requester: string, project: string, sequence: nat) {
    predicate Valid() {
      && Canonical(Upper, requester)
      && Canonical(Lower, project)
      && 1 <= sequence <= U64_MAX
    }

    /** The canonical display identity: `REQUESTER:project:007`. */
    function Display(): string {
      requester + [':'] + project + [':'] + Padded(sequence, 3)
    }
  }

  /** Rust: `RequesterId::new`, `ProjectId::new`, `parse::<u64>`, `ItemId::new` on exactly three parts. */
  function ParseItemId(value: string): (r: Option<ItemId>) {
    var parts := Split(value, ':');
    if |parts| != 3 then None
    else
      match (Normalized(Upper, parts[0]), Normalized(Lower, parts[1]), ParseU64(parts[2]))
      case (Some(requester), Some(project), Some(sequence)) =>
        if sequence == 0 then None else Some(ItemId(requester, project, sequence))
      case _ => None
  }

  predicate CanonicalItemId(value: string) {
    var id := ParseItemId(value);
    id.Some? && id.value.Display() == value
  }

  lemma NoColon(id: ItemId)
    requires id.Valid()
    ensures ':' !in id.requester && ':' !in id.project && ':' !in Padded(id.sequence, 3)
  {
    CanonicalChars(Upper, id.requester);
    CanonicalChars(Lower, id.project);
  }

  lemma DisplayParts(id: ItemId)
    requires id.Valid()
    ensures Split(id.Display(), ':') == [id.requester, id.project, Padded(id.sequence, 3)]
  {
    hide Canonical, Split, Padded;
    NoColon(id);
    var tail := id.project + [':'] + Padded(id.sequence, 3);
    assert id.Display() == id.requester + [':'] + tail;
    SplitHead(id.requester, ':', tail);
    SplitHead(id.project, ':', Padded(id.sequence, 3));
    SplitWhole(Padded(id.sequence, 3), ':');
  }

  /** Display then parse is the identity, zero padding and sequences up to u64::MAX included. */
  lemma {:induction false} DisplayParses(id: ItemId)
    requires id.Valid()
    ensures ParseItemId(id.Display()) == Some(id)
    ensures CanonicalItemId(id.Display())
  {
    DisplayParts(id);
    CanonicalIffFixed(Upper, id.requester);
    CanonicalIffFixed(Lower, id.project);
    PaddedParses(id.sequence, 3);
  }

  lemma DisplayInjective(a: ItemId, b: ItemId)
    requires a.Valid() && b.Valid()
    ensures a.Display() == b.Display() <==> a == b
  {
    DisplayParses(a);
    DisplayParses(b);
  }

  /** A text is a canonical item id exactly when it is the display form of some valid identity. */
  lemma {:induction false} CanonicalItemIdIff(value: string)
    ensures CanonicalItemId(value) <==> exists id: ItemId :: id.Valid() && id.Display() == value
  {
    if CanonicalItemId(value) {
      var parts := Split(value, ':');
      NormalizedIsCanonical(Upper, parts[0]);
      NormalizedIsCanonical(Lower, parts[1]);
      assert ParseItemId(value).value.Valid();
    } else if exists id: ItemId :: id.Valid() && id.Display() == value {
      var id: ItemId :| id.Valid() && id.Display() == value;
      DisplayParses(id);
    }
  }
}
