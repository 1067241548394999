/** UTF-8 (RFC 3629, section 3), big-endian lengths, and the digest taken over framed bytes. */
module Bytes {
  import opened Wrappers

  newtype Byte = b: int | 0 <= b < 256

  type Data = seq<Byte>

  /** SHA-256 stands for an injective function: equal digests are digests of equal bytes. */
  datatype Digest = Sha256(preimage: Data)

  // ---- UTF-8 ----

  function Utf8Char(c: char): (r: Data)
    ensures 1 <= |r| <= 4
  {
    var n := c as int;
    if n < 0x80 then [n as Byte]
    else if n < 0x800 then [(0xc0 + n / 64) as Byte, (0x80 + n % 64) as Byte]
    else if n < 0x10000 then
      [(0xe0 + n / 4096) as Byte, (0x80 + n / 64 % 64) as Byte, (0x80 + n % 64) as Byte]
    else
      [(0xf0 + n / 262144) as Byte, (0x80 + n / 4096 % 64) as Byte, (0x80 + n / 64 % 64) as Byte,
       (0x80 + n % 64) as Byte]
  }

  function Utf8(s: string): (r: Data)
    ensures |r| >= |s|
  {
    if s == [] then [] else Utf8Char(s[0]) + Utf8(s[1..])
  }

  function Width(first: Byte): nat {
    if first < 0x80 then 1 else if first < 0xe0 then 2 else if first < 0xf0 then 3 else 4
  }

  lemma Utf8Width(c: char)
    ensures |Utf8Char(c)| == Width(Utf8Char(c)[0])
  {
  }

  function Scalar(r: Data): int
    requires 1 <= |r| <= 4
  {
    if |r| == 1 then r[0] as int
    else if |r| == 2 then (r[0] as int - 0xc0) * 64 + (r[1] as int - 0x80)
    else if |r| == 3 then (r[0] as int - 0xe0) * 4096 + (r[1] as int - 0x80) * 64 + (r[2] as int - 0x80)
    else
      (r[0] as int - 0xf0) * 262144 + (r[1] as int - 0x80) * 4096 + (r[2] as int - 0x80) * 64 + (r[3] as int - 0x80)
  }

  lemma {:induction false} Utf8Scalar(c: char)
    ensures Scalar(Utf8Char(c)) == c as int
  {
    var n := c as int;
    assert n / 4096 == n / 64 / 64 && n / 262144 == n / 4096 / 64;
  }

  /** No encoded scalar is a proper prefix of another. */
  lemma Utf8CharPrefix(c: char, d: char, x: Data, y: Data)
    requires Utf8Char(c) + x == Utf8Char(d) + y
    ensures c == d && x == y
  {
    var l, r := Utf8Char(c), Utf8Char(d);
    assert l[0] == (l + x)[0] == (r + y)[0] == r[0];
    Utf8Width(c);
    Utf8Width(d);
    assert l == (l + x)[..|l|] == (r + y)[..|r|] == r;
    assert x == (l + x)[|l|..] == (r + y)[|r|..] == y;
    Utf8Scalar(c);
    Utf8Scalar(d);
  }

  lemma {:induction false} Utf8Injective(a: string, b: string)
    ensures Utf8(a) == Utf8(b) <==> a == b
    decreases |a|
  {
    if Utf8(a) == Utf8(b) && a != [] && b != [] {
      Utf8CharPrefix(a[0], b[0], Utf8(a[1..]), Utf8(b[1..]));
      Utf8Injective(a[1..], b[1..]);
      assert a == [a[0]] + a[1..] && b == [b[0]] + b[1..];
    }
  }

  /** Rust's `String::from_utf8`: succeeds exactly on the bytes of some text. */
  ghost function FromUtf8(data: Data): Option<string> {
    if exists s: string :: Utf8(s) == data then
      var s: string :| Utf8(s) == data;
      Some(s)
    else None
  }

  lemma FromUtf8Utf8(s: string)
    ensures FromUtf8(Utf8(s)) == Some(s)
  {
    var t: string := FromUtf8(Utf8(s)).value;
    Utf8Injective(s, t);
  }
}
