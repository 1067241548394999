/**
 Text, its binary order, and the ASCII helpers the rest of the model uses.

 A `string` is a sequence of Unicode scalar values. UTF-8 keeps the scalar order, so comparing scalars is
 comparing the UTF-8 bytes, which is what both Rust's `str` order and SQLite's BINARY collation do.
 */
module Text {
  import opened Wrappers

  const I64_MAX: int := 0x7fff_ffff_ffff_ffff
  const U64_MAX: int := 0xffff_ffff_ffff_ffff

  datatype Ordering = Less | Equal | Greater {
    function Reverse(): Ordering {
      match this
      case Less => Greater
      case Equal => Equal
      case Greater => Less
    }
  }

  predicate IsDigit(c: char) {
    '0' <= c <= '9'
  }

  predicate IsUpper(c: char) {
    'A' <= c <= 'Z'
  }

  predicate IsLower(c: char) {
    'a' <= c <= 'z'
  }

  predicate IsAlnum(c: char) {
    IsDigit(c) || IsUpper(c) || IsLower(c)
  }

  function ToLower(c: char): char {
    if IsUpper(c) then (c as int + 32) as char else c
  }

  function ToUpper(c: char): char {
    if IsLower(c) then (c as int - 32) as char else c
  }

  function LowerAscii(s: string): (r: string)
    ensures |r| == |s|
    ensures forall i :: 0 <= i < |s| ==> r[i] == ToLower(s[i])
  {
    seq(|s|, i requires 0 <= i < |s| => ToLower(s[i]))
  }

  lemma LowerAsciiIdempotent(s: string)
    ensures LowerAscii(LowerAscii(s)) == LowerAscii(s)
  {
  }

  const CAPITALS := "ABCDEFGHIJKLMNOPQRSTUVWXYZ"
  const SMALL := "abcdefghijklmnopqrstuvwxyz"

  lemma Capitals(c: char)
    ensures IsUpper(c) <==> c in CAPITALS
    ensures forall i :: 0 <= i < |CAPITALS| ==> CAPITALS[i] as int == 65 + i
  {
    assert forall i :: 0 <= i < 26 ==> CAPITALS[i] as int == 65 + i;
    assert IsUpper(c) ==> CAPITALS[c as int - 65] == c;
  }

  lemma SmallLetters(c: char)
    ensures IsLower(c) <==> c in SMALL
    ensures forall i :: 0 <= i < |SMALL| ==> SMALL[i] as int == 97 + i
  {
    assert forall i :: 0 <= i < 26 ==> SMALL[i] as int == 97 + i;
    assert IsLower(c) ==> SMALL[c as int - 97] == c;
  }

  lemma Digits(c: char)
    ensures IsDigit(c) <==> c in "0123456789"
  {
    var digits := "0123456789";
    assert forall i :: 0 <= i < 10 ==> digits[i] as int == 48 + i;
    assert IsDigit(c) ==> digits[c as int - 48] == c;
  }

  /** The character classes, and the fold, which touches the 26 capital letters and nothing else. */
  lemma AsciiLetters(c: char)
    ensures IsUpper(c) <==> c in CAPITALS
    ensures IsLower(c) <==> c in SMALL
    ensures IsDigit(c) <==> c in "0123456789"
    ensures IsAlnum(c) <==> IsUpper(c) || IsLower(c) || IsDigit(c)
    ensures LowerAscii(CAPITALS) == SMALL
    ensures !IsUpper(c) ==> ToLower(c) == c
    ensures !IsLower(c) ==> ToUpper(c) == c
    ensures (IsUpper(c) ==> ToUpper(ToLower(c)) == c) && (IsLower(c) ==> ToLower(ToUpper(c)) == c)
  {
    Capitals(c);
    SmallLetters(c);
    Digits(c);
    FoldedCapitals();
  }

  lemma FoldedCapitals()
    ensures LowerAscii(CAPITALS) == SMALL
  {
    Capitals('A');
    SmallLetters('a');
    assert |CAPITALS| == |SMALL| == 26;
  }

  function CompareInt(a: int, b: int): Ordering {
    if a < b then Less else if a == b then Equal else Greater
  }

  /** Rust's `str::cmp`, SQLite's BINARY collation. */
  function CompareText(a: string, b: string): Ordering
    decreases |a|
  {
    if a == [] && b == [] then Equal
    else if a == [] then Less
    else if b == [] then Greater
    else if a[0] < b[0] then Less
    else if a[0] > b[0] then Greater
    else CompareText(a[1..], b[1..])
  }

  lemma {:induction false} CompareTextEqual(a: string, b: string)
    ensures CompareText(a, b) == Equal <==> a == b
    decreases |a|
  {
    if a != [] && b != [] && a[0] == b[0] {
      CompareTextEqual(a[1..], b[1..]);
      assert a == [a[0]] + a[1..] && b == [b[0]] + b[1..];
    }
  }

  /** Equal up to `k`, where the first text ends or has the smaller character. */
  predicate SmallerAt(a: string, b: string, k: nat)
    requires k <= |a| && k <= |b|
  {
    (forall i :: 0 <= i < k ==> a[i] == b[i]) && k < |b| && (k < |a| ==> a[k] < b[k])
  }

  /** Lexicographic precedence. */
  predicate TextBefore(a: string, b: string) {
    exists k :: 0 <= k <= |a| && k <= |b| && SmallerAt(a, b, k)
  }

  lemma TextBeforeTail(a: string, b: string)
    requires a != [] && b != [] && a[0] == b[0]
    ensures TextBefore(a, b) <==> TextBefore(a[1..], b[1..])
  {
    var s, t := a[1..], b[1..];
    if TextBefore(a, b) {
      var k :| 0 <= k <= |a| && k <= |b| && SmallerAt(a, b, k);
      assert SmallerAt(s, t, k - 1);
    }
    if TextBefore(s, t) {
      var k :| 0 <= k <= |s| && k <= |t| && SmallerAt(s, t, k);
      assert forall i :: 1 <= i < k + 1 ==> s[i - 1] == a[i] && t[i - 1] == b[i];
      assert SmallerAt(a, b, k + 1);
    }
  }

  lemma {:induction false} CompareTextExact(a: string, b: string)
    ensures CompareText(a, b) == Less <==> TextBefore(a, b)
    decreases |a|
  {
    if a != [] && b != [] && a[0] == b[0] {
      CompareTextExact(a[1..], b[1..]);
      TextBeforeTail(a, b);
    } else {
      assert SmallerAt(a, b, 0) <==> CompareText(a, b) == Less;
    }
  }

  lemma {:induction false} CompareTextReverse(a: string, b: string)
    ensures CompareText(b, a) == CompareText(a, b).Reverse()
    decreases |a|
  {
    if a != [] && b != [] && a[0] == b[0] {
      CompareTextReverse(a[1..], b[1..]);
    }
  }

  lemma {:induction false} CompareTextTransitive(a: string, b: string, c: string)
    requires CompareText(a, b) == Less
    requires CompareText(b, c) == Less
    ensures CompareText(a, c) == Less
    decreases |a|
  {
    if a != [] && b != [] && c != [] && a[0] == b[0] && b[0] == c[0] {
      CompareTextTransitive(a[1..], b[1..], c[1..]);
    }
  }

  /** Two texts that share a prefix compare as their remainders do. */
  lemma {:induction false} CompareTextPrefix(p: string, a: string, b: string)
    ensures CompareText(p + a, p + b) == CompareText(a, b)
  {
    if p == [] {
      assert p + a == a && p + b == b;
    } else {
      assert (p + a)[1..] == p[1..] + a && (p + b)[1..] == p[1..] + b;
      CompareTextPrefix(p[1..], a, b);
    }
  }

  /** A difference inside equally long prefixes decides the whole comparison. */
  lemma {:induction false} CompareTextDiffer(p: string, q: string, a: string, b: string)
    requires |p| == |q| && p != q
    ensures CompareText(p + a, q + b) == CompareText(p, q)
    ensures CompareText(p, q) != Equal
  {
    CompareTextEqual(p, q);
    assert (p + a)[0] == p[0] && (q + b)[0] == q[0];
    if p[0] == q[0] {
      assert p == [p[0]] + p[1..] && q == [q[0]] + q[1..];
      assert (p + a)[1..] == p[1..] + a && (q + b)[1..] == q[1..] + b;
      CompareTextDiffer(p[1..], q[1..], a, b);
    }
  }

  /** `needle` occurs in `hay`: Rust's `contains`, SQLite's `instr(hay, needle) > 0`. */
  predicate Contains(hay: string, needle: string) {
    exists i :: 0 <= i <= |hay| - |needle| && OccursAt(hay, needle, i)
  }

  predicate OccursAt(hay: string, needle: string, i: nat)
    requires i + |needle| <= |hay|
  {
    hay[i..i + |needle|] == needle
  }

  /** Exactly the texts with something before and something after the needle. */
  lemma ContainsExact(hay: string, needle: string)
    ensures Contains(hay, needle) <==> exists a: string, b: string :: hay == a + needle + b
  {
    if Contains(hay, needle) {
      var i :| 0 <= i <= |hay| - |needle| && OccursAt(hay, needle, i);
      assert hay == hay[..i] + needle + hay[i + |needle|..];
    }
    if a: string, b: string :| hay == a + needle + b {
      assert OccursAt(hay, needle, |a|);
    }
  }

  // ---- Splitting at a separator ----

  function IndexOf(s: string, sep: char): (r: nat)
    ensures r <= |s|
    ensures r < |s| ==> s[r] == sep
    ensures forall i :: 0 <= i < r ==> s[i] != sep
  {
    if s == [] || s[0] == sep then 0 else 1 + IndexOf(s[1..], sep)
  }

  /** Rust's `str::split` by one character: never empty. */
  function Split(s: string, sep: char): (r: seq<string>)
    ensures |r| >= 1
    decreases |s|
  {
    var i := IndexOf(s, sep);
    if i == |s| then [s] else [s[..i]] + Split(s[i + 1..], sep)
  }

  function Join(parts: seq<string>, sep: char): string {
    if parts == [] then ""
    else if |parts| == 1 then parts[0]
    else parts[0] + [sep] + Join(parts[1..], sep)
  }

  lemma IndexOfFirst(a: string, sep: char, rest: string)
    requires sep !in a
    ensures IndexOf(a + [sep] + rest, sep) == |a|
  {
    var s := a + [sep] + rest;
    assert s[|a|] == sep;
    assert forall i :: 0 <= i < |a| ==> s[i] == a[i] && a[i] in a;
  }

  lemma SplitHead(a: string, sep: char, rest: string)
    requires sep !in a
    ensures Split(a + [sep] + rest, sep) == [a] + Split(rest, sep)
  {
    var s := a + [sep] + rest;
    IndexOfFirst(a, sep, rest);
    assert s[..|a|] == a && s[|a| + 1..] == rest;
  }

  lemma SplitWhole(a: string, sep: char)
    requires sep !in a
    ensures Split(a, sep) == [a]
  {
  }

  lemma {:induction false} JoinSplit(s: string, sep: char)
    ensures Join(Split(s, sep), sep) == s
    ensures forall p :: p in Split(s, sep) ==> sep !in p
    decreases |s|
  {
    var i := IndexOf(s, sep);
    if i < |s| {
      JoinSplit(s[i + 1..], sep);
      var tail := Split(s[i + 1..], sep);
      assert Split(s, sep)[1..] == tail;
      assert s == s[..i] + [sep] + s[i + 1..];
    }
  }

  // ---- Decimal numbers ----

  function Digit(d: nat): (c: char)
    requires d < 10
    ensures IsDigit(c) && c as int - '0' as int == d
  {
    ('0' as int + d) as char
  }

  /** Rust's `{}` of an unsigned integer. */
  function Decimal(n: nat): (r: string)
    ensures |r| >= 1
    ensures forall c :: c in r ==> IsDigit(c)
    ensures |r| > 1 ==> r[0] != '0'
  {
    if n < 10 then [Digit(n)] else Decimal(n / 10) + [Digit(n % 10)]
  }

  /** Rust's `{:0w$}`: zero-padded to at least `w` digits. */
  function Padded(n: nat, w: nat): (r: string)
    ensures |r| >= w
    ensures forall c :: c in r ==> IsDigit(c)
  {
    var d := Decimal(n);
    if |d| >= w then d else seq(w - |d|, _ => '0') + d
  }

  predicate AllDigits(s: string) {
    forall i :: 0 <= i < |s| ==> IsDigit(s[i])
  }

  function DigitsValue(s: string): nat
    requires AllDigits(s)
  {
    if s == [] then 0 else DigitsValue(s[..|s| - 1]) * 10 + (s[|s| - 1] as int - '0' as int)
  }

  /** Rust's `str::parse::<u64>`: an optional plus sign, at least one digit, no overflow. */
  function ParseU64(s: string): (r: Option<nat>)
    ensures r.Some? ==> r.value <= U64_MAX
  {
    var body := if s != [] && s[0] == '+' then s[1..] else s;
    if body == [] || !AllDigits(body) then None
    else if DigitsValue(body) > U64_MAX then None
    else Some(DigitsValue(body))
  }

  lemma {:induction false} DecimalValue(n: nat)
    ensures AllDigits(Decimal(n)) && DigitsValue(Decimal(n)) == n
  {
    var r := Decimal(n);
    if n < 10 {
      assert r[..|r| - 1] == [];
    } else {
      DecimalValue(n / 10);
      assert r[..|r| - 1] == Decimal(n / 10);
    }
  }

  lemma {:induction false} LeadingZeros(k: nat, d: string)
    requires AllDigits(d)
    ensures AllDigits(seq(k, _ => '0') + d) && DigitsValue(seq(k, _ => '0') + d) == DigitsValue(d)
  {
    var z := seq(k, _ => '0');
    if d == [] {
      if k > 0 {
        LeadingZeros(k - 1, []);
        assert z + d == seq(k - 1, _ => '0') + [] + ['0'];
        assert (z + d)[..k - 1] == seq(k - 1, _ => '0') + [];
      }
    } else {
      LeadingZeros(k, d[..|d| - 1]);
      assert (z + d)[..k + |d| - 1] == z + d[..|d| - 1];
    }
  }

  lemma PaddedValue(n: nat, w: nat)
    ensures AllDigits(Padded(n, w)) && DigitsValue(Padded(n, w)) == n
  {
    DecimalValue(n);
    var d := Decimal(n);
    if |d| < w {
      LeadingZeros(w - |d|, d);
    }
  }

  lemma PaddedParses(n: nat, w: nat)
    requires n <= U64_MAX
    ensures ParseU64(Padded(n, w)) == Some(n)
  {
    PaddedValue(n, w);
    var s := Padded(n, w);
    assert s != [] by { assert |Decimal(n)| >= 1; }
    assert s[0] in s;
  }

  lemma DecimalParses(n: nat)
    requires n <= U64_MAX
    ensures ParseU64(Decimal(n)) == Some(n)
  {
    PaddedParses(n, 0);
  }
}
