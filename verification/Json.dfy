/** The escaped body of a JSON string (RFC 8259, section 7). */
module Json {
  import opened Wrappers
  import opened Bytes
  import opened Hex

  /** How a JSON string writes one byte of UTF-8: RFC 8259, section 7. */
  function EscapedByte(b: Byte): (r: Data)
    ensures 1 <= |r| <= 6
  {
    if b == 0x22 then [0x5c, 0x22]
    else if b == 0x5c then [0x5c, 0x5c]
    else if b == 8 then [0x5c, 0x62]
    else if b == 9 then [0x5c, 0x74]
    else if b == 10 then [0x5c, 0x6e]
    else if b == 12 then [0x5c, 0x66]
    else if b == 13 then [0x5c, 0x72]
    else if b < 0x20 then
      [0x5c, 0x75, 0x30, 0x30, HexDigit(b as int / 16) as int as Byte, HexDigit(b as int % 16) as int as Byte]
    else [b]
  }

  function Escaped(data: Data): Data {
    if data == [] then [] else EscapedByte(data[0]) + Escaped(data[1..])
  }

  lemma {:induction false} EscapedBounds(data: Data)
    ensures |data| <= |Escaped(data)| <= 6 * |data|
    ensures forall i :: 0 <= i < |Escaped(data)| ==> Escaped(data)[i] >= 0x20
  {
    if data != [] {
      EscapedBounds(data[1..]);
      EscapedByteVisible(data[0]);
      var head, tail := EscapedByte(data[0]), Escaped(data[1..]);
      assert forall i :: |head| <= i < |head + tail| ==> (head + tail)[i] == tail[i - |head|];
    }
  }

  lemma EscapedByteVisible(b: Byte)
    ensures forall i :: 0 <= i < |EscapedByte(b)| ==> EscapedByte(b)[i] >= 0x20
  {
    DigitRoundTrip(b as int / 16, 'a');
    DigitRoundTrip(b as int % 16, 'a');
  }

  /** What a reader makes of the body: its bytes, or nothing if it is no escaped body. */
  function Unescaped(body: Data): Option<Data>
    decreases |body|
  {
    if body == [] then Some([])
    else if body[0] == 0x22 || body[0] < 0x20 then None
    else if body[0] != 0x5c then Prepended(body[0], Unescaped(body[1..]))
    else if |body| >= 6 && body[1] == 0x75 then
      (match CodeOf(body[2..6])
       case Some(b) => Prepended(b, Unescaped(body[6..]))
       case None => None)
    else if |body| >= 2 && ShortEscape(body[1]).Some? then
      Prepended(ShortEscape(body[1]).value, Unescaped(body[2..]))
    else None
  }

  function Prepended(b: Byte, rest: Option<Data>): Option<Data> {
    if rest.None? then None else Some([b] + rest.value)
  }

  /** The two-character escapes: quotation mark, reverse solidus, and the named control characters. */
  function ShortEscape(letter: Byte): Option<Byte> {
    if letter == 0x22 || letter == 0x5c || letter == 0x2f then Some(letter)
    else if letter == 0x62 then Some(8)
    else if letter == 0x74 then Some(9)
    else if letter == 0x6e then Some(10)
    else if letter == 0x66 then Some(12)
    else if letter == 0x72 then Some(13)
    else None
  }

  /** Four hexadecimal digits of a control character. */
  function CodeOf(digits: Data): Option<Byte>
    requires |digits| == 4
  {
    if digits[0] != 0x30 || digits[1] != 0x30 then None
    else
      match (HexValue(digits[2] as int as char), HexValue(digits[3] as int as char))
      case (Some(high), Some(low)) => Some((high * 16 + low) as Byte)
      case _ => None
  }

  lemma EscapedOne(b: Byte, rest: Data)
    ensures Unescaped(EscapedByte(b) + rest) == Prepended(b, Unescaped(rest))
  {
    var e := EscapedByte(b);
    DigitRoundTrip(b as int / 16, 'a');
    DigitRoundTrip(b as int % 16, 'a');
    assert (e + rest)[|e|..] == rest;
    if |e| == 6 {
      assert (e + rest)[2..6] == e[2..6];
    }
  }

  lemma NothingUnescaped()
    ensures Unescaped([]) == Some([])
  {
  }

  /** Reading an escaped body gives back what was escaped. */
  lemma {:induction false} EscapedRoundTrip(data: Data)
    ensures Unescaped(Escaped(data)) == Some(data)
  {
    hide EscapedByte, Unescaped;
    if data == [] {
      NothingUnescaped();
    } else {
      EscapedRoundTrip(data[1..]);
      EscapedOne(data[0], Escaped(data[1..]));
      assert data == [data[0]] + data[1..];
    }
  }

  /** Text without quotation marks, reverse solidi and control characters is its own escaped body. */
  lemma {:induction false} PlainUnescaped(data: Data)
    requires forall i :: 0 <= i < |data| ==> data[i] >= 0x20 && data[i] != 0x22 && data[i] != 0x5c
    ensures Escaped(data) == data
  {
    if data != [] {
      PlainUnescaped(data[1..]);
    }
  }
}
