/** Lower-case hexadecimal text of bytes, as validators and cursors carry it. */
module Hex {
  import opened Wrappers
  import opened Text
  import opened Bytes

  function HexDigit(n: nat): char
    requires n < 16
  {
    if n < 10 then ('0' as int + n) as char else ('a' as int + n - 10) as char
  }

  function HexValue(c: char): (r: Option<nat>)
    ensures r.Some? ==> r.value < 16
  {
    if IsDigit(c) then Some(c as int - '0' as int)
    else if 'a' <= c <= 'f' then Some(c as int - 'a' as int + 10)
    else None
  }

  lemma DigitRoundTrip(n: nat, c: char)
    requires n < 16
    ensures HexValue(HexDigit(n)) == Some(n) && (IsDigit(HexDigit(n)) || 'a' <= HexDigit(n) <= 'f')
    ensures HexValue(c).Some? ==> HexDigit(HexValue(c).value) == c
  {
  }

  function ToHex(data: Data): (r: string)
    ensures |r| == 2 * |data|
  {
    if data == [] then [] else [HexDigit(data[0] as int / 16), HexDigit(data[0] as int % 16)] + ToHex(data[1..])
  }

  /** Pairs of lower-case digits; any other character, or an odd length, is malformed. */
  function FromHex(s: string): Option<Data>
    decreases |s|
  {
    if s == [] then Some([])
    else if |s| == 1 then None
    else
      match (HexValue(s[0]), HexValue(s[1]), FromHex(s[2..]))
      case (Some(high), Some(low), Some(rest)) => Some([(high * 16 + low) as Byte] + rest)
      case _ => None
  }

  predicate HexText(s: string) {
    forall i :: 0 <= i < |s| ==> IsDigit(s[i]) || 'a' <= s[i] <= 'f'
  }

  lemma {:induction false} HexRoundTrip(data: Data)
    ensures FromHex(ToHex(data)) == Some(data) && HexText(ToHex(data))
  {
    if data != [] {
      var s := ToHex(data);
      var n := data[0] as int;
      assert s == [HexDigit(n / 16), HexDigit(n % 16)] + ToHex(data[1..]);
      assert s[2..] == ToHex(data[1..]);
      HexRoundTrip(data[1..]);
      DigitRoundTrip(n / 16, 'a');
      DigitRoundTrip(n % 16, 'a');
      assert ((n / 16) * 16 + n % 16) as Byte == data[0];
      assert [data[0]] + data[1..] == data;
      assert forall i :: 2 <= i < |s| ==> s[i] == ToHex(data[1..])[i - 2];
    }
  }

  /** Decoding loses nothing: a decodable text is the encoding of its bytes. */
  lemma {:induction false} UnhexRoundTrip(s: string)
    requires FromHex(s).Some?
    ensures ToHex(FromHex(s).value) == s
    decreases |s|
  {
    if s != [] {
      UnhexRoundTrip(s[2..]);
      DigitRoundTrip(0, s[0]);
      DigitRoundTrip(0, s[1]);
      var high, low := HexValue(s[0]).value, HexValue(s[1]).value;
      assert (high * 16 + low) / 16 == high && (high * 16 + low) % 16 == low;
      assert FromHex(s).value == [(high * 16 + low) as Byte] + FromHex(s[2..]).value;
      assert FromHex(s).value[1..] == FromHex(s[2..]).value;
      assert s == [s[0], s[1]] + s[2..];
    }
  }

  function HexOfText(s: string): string {
    ToHex(Utf8(s))
  }

  /** `unhex`: bytes that are not UTF-8 are malformed too. */
  ghost function TextOfHex(s: string): Option<string> {
    var data := FromHex(s);
    if data.None? then None else FromUtf8(data.value)
  }

  lemma HexTextRoundTrip(s: string)
    ensures TextOfHex(HexOfText(s)) == Some(s) && HexText(HexOfText(s))
  {
    HexRoundTrip(Utf8(s));
    FromUtf8Utf8(s);
  }

  lemma TextHexRoundTrip(s: string)
    requires TextOfHex(s).Some?
    ensures HexOfText(TextOfHex(s).value) == s
  {
    UnhexRoundTrip(s);
  }
}
