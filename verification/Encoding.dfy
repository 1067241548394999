/** Length-framed byte strings: the buffer the hash inputs are built in, and why its framing is unambiguous. */
module Encoding {
  import opened Wrappers
  import opened Text
  import opened Bytes

  // ---- Big-endian integers ----

  function Power256(k: nat): nat {
    if k == 0 then 1 else 256 * Power256(k - 1)
  }

  /** The low `k` bytes of `n`, most significant first: Rust's `to_be_bytes` after an `as` cast. */
  function BigEndian(n: nat, k: nat): (r: Data)
    ensures |r| == k
  {
    if k == 0 then [] else BigEndian(n / 256, k - 1) + [(n % 256) as Byte]
  }

  function ValueOf(data: Data): nat {
    if data == [] then 0 else ValueOf(data[..|data| - 1]) * 256 + data[|data| - 1] as int
  }

  lemma {:induction false} BigEndianValue(n: nat, k: nat)
    requires n < Power256(k)
    ensures ValueOf(BigEndian(n, k)) == n
  {
    if k > 0 {
      var r := BigEndian(n, k);
      assert r[..k - 1] == BigEndian(n / 256, k - 1);
      BigEndianValue(n / 256, k - 1);
    }
  }

  lemma EightBytes()
    ensures Power256(8) == U64_MAX + 1 && Power256(4) == 0x1_0000_0000
  {
    assert Power256(2) == 65536;
    assert Power256(4) == 65536 * Power256(2);
    assert Power256(6) == 65536 * Power256(4);
    assert Power256(8) == 65536 * Power256(6);
  }

  /** Two framed values that start the same bytes are equal, and what follows them is equal. */
  lemma BigEndianPrefix(a: nat, b: nat, k: nat, x: Data, y: Data)
    requires a < Power256(k) && b < Power256(k) && BigEndian(a, k) + x == BigEndian(b, k) + y
    ensures a == b && x == y
  {
    hide BigEndian, ValueOf;
    var p, q := BigEndian(a, k), BigEndian(b, k);
    assert p == (p + x)[..k] && q == (q + y)[..k];
    assert x == (p + x)[k..] && y == (q + y)[k..];
    BigEndianValue(a, k);
    BigEndianValue(b, k);
  }

  // ---- Framed text ----

  /** A length a machine word can hold, as every Rust string's is. */
  predicate Sized(s: string) {
    |Utf8(s)| <= U64_MAX
  }

  /** `append_string`. */
  function Framed(s: string): Data {
    BigEndian(|Utf8(s)|, 8) + Utf8(s)
  }

  /** `append_field`, `append_optional_string`. */
  function Field(value: Option<string>): Data {
    if value.None? then [0] else [1] + Framed(value.value)
  }

  predicate SizedField(value: Option<string>) {
    value.Some? ==> Sized(value.value)
  }

  lemma FramedPrefix(a: string, b: string, x: Data, y: Data)
    requires Sized(a) && Sized(b) && Framed(a) + x == Framed(b) + y
    ensures a == b && x == y
  {
    hide Utf8, BigEndian, Power256;
    EightBytes();
    var u, v := Utf8(a), Utf8(b);
    assert BigEndian(|u|, 8) + (u + x) == Framed(a) + x;
    assert BigEndian(|v|, 8) + (v + y) == Framed(b) + y;
    BigEndianPrefix(|u|, |v|, 8, u + x, v + y);
    assert u == (u + x)[..|u|] && v == (v + y)[..|v|];
    assert x == (u + x)[|u|..] && y == (v + y)[|v|..];
    Utf8Injective(a, b);
  }

  lemma BytePrefix(a: Byte, b: Byte, x: Data, y: Data)
    requires [a] + x == [b] + y
    ensures a == b && x == y
  {
    assert a == ([a] + x)[0] && b == ([b] + y)[0];
    assert x == ([a] + x)[1..] && y == ([b] + y)[1..];
  }

  lemma FieldPrefix(a: Option<string>, b: Option<string>, x: Data, y: Data)
    requires SizedField(a) && SizedField(b) && Field(a) + x == Field(b) + y
    ensures a == b && x == y
  {
    hide Framed;
    var s := if a.None? then x else Framed(a.value) + x;
    var t := if b.None? then y else Framed(b.value) + y;
    assert Field(a) + x == [if a.None? then 0 else 1] + s;
    assert Field(b) + y == [if b.None? then 0 else 1] + t;
    BytePrefix(if a.None? then 0 else 1, if b.None? then 0 else 1, s, t);
    if a.Some? {
      FramedPrefix(a.value, b.value, x, y);
    }
  }

  function Fields(values: seq<Option<string>>): Data
    decreases |values|
  {
    if values == [] then [] else Field(values[0]) + Fields(values[1..])
  }

  predicate SizedFields(values: seq<Option<string>>) {
    forall i :: 0 <= i < |values| ==> SizedField(values[i])
  }

  lemma {:induction false} FieldsPrefix(a: seq<Option<string>>, b: seq<Option<string>>, x: Data, y: Data)
    requires |a| == |b| && SizedFields(a) && SizedFields(b) && Fields(a) + x == Fields(b) + y
    ensures a == b && x == y
    decreases |a|
  {
    hide Field, SizedField;
    if a == [] {
      assert Fields(a) + x == x && Fields(b) + y == y;
    } else {
      assert Fields(a) + x == Field(a[0]) + (Fields(a[1..]) + x);
      assert Fields(b) + y == Field(b[0]) + (Fields(b[1..]) + y);
      FieldPrefix(a[0], b[0], Fields(a[1..]) + x, Fields(b[1..]) + y);
      FieldsPrefix(a[1..], b[1..], x, y);
      assert a == [a[0]] + a[1..] && b == [b[0]] + b[1..];
    }
  }

  lemma {:induction false} FieldsAppend(a: seq<Option<string>>, b: seq<Option<string>>)
    ensures Fields(a + b) == Fields(a) + Fields(b)
    decreases |a|
  {
    hide Field;
    if a == [] {
      assert a + b == b;
    } else {
      assert (a + b)[1..] == a[1..] + b;
      FieldsAppend(a[1..], b);
    }
  }

  lemma FieldsNone(values: seq<Option<string>>)
    ensures Fields(values[..0]) == []
  {
  }

  lemma FieldsSnoc(values: seq<Option<string>>, n: nat)
    requires n < |values|
    ensures Fields(values[..n + 1]) == Fields(values[..n]) + Field(values[n])
  {
    hide Field;
    assert values[..n + 1] == values[..n] + [values[n]];
    FieldsAppend(values[..n], [values[n]]);
    assert [values[n]][1..] == [];
    assert Fields([values[n]]) == Field(values[n]) + [];
  }

  /** The `Vec<u8>` the hash inputs are appended to. */
  class ByteBuffer {
    var bytes: Data

    constructor ()
      ensures bytes == []
    {
      bytes := [];
    }

    method Push(b: Byte)
      modifies this
      ensures bytes == old(bytes) + [b]
    {
      bytes := bytes + [b];
    }

    method Extend(data: Data)
      modifies this
      ensures bytes == old(bytes) + data
    {
      bytes := bytes + data;
    }

    method AppendString(value: string)
      modifies this
      ensures bytes == old(bytes) + Framed(value)
    {
      Extend(BigEndian(|Utf8(value)|, 8));
      Extend(Utf8(value));
      assert bytes == old(bytes) + Framed(value);
    }

    method AppendField(value: Option<string>)
      modifies this
      ensures bytes == old(bytes) + Field(value)
    {
      if value.None? {
        Push(0);
      } else {
        Push(1);
        AppendString(value.value);
      }
      assert bytes == old(bytes) + Field(value);
    }

    /** Appends the fields in order. */
    method AppendFields(values: seq<Option<string>>)
      modifies this
      ensures bytes == old(bytes) + Fields(values)
    {
      hide Field, Fields;
      var start := bytes;
      FieldsNone(values);
      for i := 0 to |values|
        invariant bytes == start + Fields(values[..i])
      {
        FieldsSnoc(values, i);
        AppendField(values[i]);
      }
      assert values[..|values|] == values;
    }
  }
}
