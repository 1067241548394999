/** Newline-delimited input frames, however the underlying reader happens to chunk them. */
module Frames {
  import opened Wrappers
  import opened Bytes

  const MAXIMUM_INPUT_BYTES := 1048576
  const NEWLINE: Byte := 10

  /** A frame within the limit, or notice of one that was not. */
  datatype Frame = Accepted(bytes: Data) | TooLong

  /** Bytes up to and including the first newline, or all of them. */
  function LineLength(data: Data): (n: nat)
    ensures n <= |data| && (data != [] ==> n >= 1)
    ensures forall i :: 0 <= i < n - 1 ==> data[i] != NEWLINE
    ensures n > 0 && n < |data| ==> data[n - 1] == NEWLINE
    ensures n == 0 ==> data == []
  {
    if data == [] then 0 else if data[0] == NEWLINE then 1 else 1 + LineLength(data[1..])
  }

  function FrameOf(line: Data): Frame {
    if |line| <= MAXIMUM_INPUT_BYTES then Accepted(line) else TooLong
  }

  /** The lines of the input, newlines kept, a final unterminated line included. */
  function Lines(data: Data): seq<Data>
    decreases |data|
  {
    if data == [] then [] else [data[..LineLength(data)]] + Lines(data[LineLength(data)..])
  }

  function FramesOf(lines: seq<Data>): (r: seq<Frame>)
    ensures |r| == |lines| && forall i :: 0 <= i < |r| ==> r[i] == FrameOf(lines[i])
  {
    seq(|lines|, i requires 0 <= i < |lines| => FrameOf(lines[i]))
  }

  function Concat(parts: seq<Data>): Data
    decreases |parts|
  {
    if parts == [] then [] else parts[0] + Concat(parts[1..])
  }

  /** A newline can only be the last byte. */
  predicate Whole(line: Data) {
    line != [] && forall i :: 0 <= i < |line| - 1 ==> line[i] != NEWLINE
  }

  predicate Terminated(line: Data) {
    line != [] && line[|line| - 1] == NEWLINE
  }

  lemma Halves(data: Data, n: nat)
    requires n <= |data|
    ensures data == data[..n] + data[n..]
  {
  }

  lemma FirstLine(data: Data)
    requires data != []
    ensures var n := LineLength(data);
            Whole(data[..n]) && (n < |data| ==> Terminated(data[..n]))
  {
    hide LineLength;
    var n := LineLength(data);
    var line := data[..n];
    assert |line| == n;
    assert forall i :: 0 <= i < |line| - 1 ==> line[i] == data[i];
  }

  /** Nothing is lost or invented: the lines make up the input, and each is whole. */
  lemma {:induction false} LinesExact(data: Data)
    ensures Concat(Lines(data)) == data
    ensures forall i :: 0 <= i < |Lines(data)| ==> Whole(Lines(data)[i])
    ensures forall i :: 0 <= i < |Lines(data)| - 1 ==> Terminated(Lines(data)[i])
    decreases |data|
  {
    hide Whole, Terminated;
    if data != [] {
      var n := LineLength(data);
      var rest := Lines(data[n..]);
      FirstLine(data);
      Halves(data, n);
      LinesExact(data[n..]);
      assert Lines(data) == [data[..n]] + rest;
      assert n == |data| ==> rest == [];
    }
  }

  /** A `BufRead`: unread bytes arrive in chunks of any sizes, none of them empty. */
  class Input {
    var chunks: seq<Data>

    ghost predicate Valid()
      reads this
    {
      forall i :: 0 <= i < |chunks| ==> chunks[i] != []
    }

    /** The bytes still to be read. */
    ghost function Rest(): Data
      reads this
    {
      Concat(chunks)
    }

    constructor (chunks: seq<Data>)
      requires forall i :: 0 <= i < |chunks| ==> chunks[i] != []
      ensures Valid() && Rest() == Concat(chunks)
    {
      this.chunks := chunks;
    }

    method FillBuf() returns (chunk: Data)
      requires Valid()
      ensures chunk == [] <==> Rest() == []
      ensures chunk <= Rest()
      ensures chunk == if chunks == [] then [] else chunks[0]
    {
      chunk := if chunks == [] then [] else chunks[0];
    }

    method Consume(count: nat)
      requires Valid() && chunks != [] && count <= |chunks[0]|
      modifies this
      ensures Valid() && Rest() == old(Rest())[count..]
    {
      ghost var was := chunks;
      if count == |chunks[0]| {
        chunks := chunks[1..];
        assert Concat(was) == was[0] + Concat(chunks);
      } else {
        chunks := [chunks[0][count..]] + chunks[1..];
        assert chunks[1..] == was[1..];
        assert Concat(was) == was[0] + Concat(was[1..]);
      }
    }
  }

  /** Position just past the first newline of a chunk, if it has one. */
  method NewlineEnd(chunk: Data) returns (end: Option<nat>)
    ensures end == if NEWLINE in chunk then Some(LineLength(chunk)) else None
  {
    for i := 0 to |chunk|
      invariant NEWLINE !in chunk[..i]
      invariant LineLength(chunk) == i + LineLength(chunk[i..])
    {
      assert chunk[i..][1..] == chunk[i + 1..];
      assert chunk[..i + 1] == chunk[..i] + [chunk[i]];
      if chunk[i] == NEWLINE {
        return Some(i + 1);
      }
    }
    assert chunk[..|chunk|] == chunk;
    end := None;
  }

  lemma {:induction false} LineSplits(a: Data, b: Data)
    requires NEWLINE !in a
    ensures LineLength(a + b) == |a| + LineLength(b)
    decreases |a|
  {
    if a == [] {
      assert a + b == b;
    } else {
      assert (a + b)[1..] == a[1..] + b;
      assert a[0] in a;
      LineSplits(a[1..], b);
    }
  }

  lemma {:induction false} LineWithin(a: Data, b: Data)
    requires NEWLINE in a
    ensures LineLength(a + b) == LineLength(a)
    decreases |a|
  {
    assert (a + b)[1..] == a[1..] + b;
    if a[0] != NEWLINE {
      LineWithin(a[1..], b);
    }
  }

  /** No newline so far. */
  predicate Open(done: Data) {
    NEWLINE !in done
  }

  lemma NothingYet()
    ensures Open([])
  {
  }

  lemma StillOpen(done: Data, chunk: Data)
    requires Open(done) && NEWLINE !in chunk
    ensures Open(done + chunk)
  {
  }

  lemma LineOfNone(a: Data)
    requires NEWLINE !in a
    ensures LineLength(a) == |a|
  {
    LineSplits(a, []);
    assert a + [] == a;
  }

  /** The first line became the frame, or was too long for one, and the rest is still unread. */
  predicate Taken(data: Data, frame: Frame, rest: Data) {
    && frame == (if LineLength(data) <= MAXIMUM_INPUT_BYTES then Accepted(data[..LineLength(data)]) else TooLong)
    && rest == data[LineLength(data)..]
  }

  /**
   `read_frame`: whatever the chunking, exactly the next line is consumed, and it is returned exactly when its length,
   newline included, is within the limit; only the end of input gives nothing.
   */
  method ReadFrame(input: Input) returns (r: Option<Frame>)
    requires input.Valid()
    modifies input
    ensures input.Valid()
    ensures var data := old(input.Rest());
            && (data == [] ==> r == None && input.Rest() == [])
            && (data != [] ==> r.Some? && Taken(data, r.value, input.Rest()))
  {
    hide LineLength, Concat, Open, Taken;
    ghost var data := input.Rest();
    ghost var done: Data := [];
    var bytes: Data := [];
    var oversized := false;
    var seen := false;
    assert data == done + input.Rest() && Open([]) by { NothingYet(); }
    while true
      invariant input.Valid()
      invariant data == done + input.Rest() && Open(done)
      invariant seen <==> done != []
      invariant oversized <==> |done| > MAXIMUM_INPUT_BYTES
      invariant !oversized ==> bytes == done
      decreases |input.Rest()|
    {
      var chunk := input.FillBuf();
      if chunk == [] {
        AtEnd(data, done, input.Rest());
        return if seen then Some(if oversized then TooLong else Accepted(bytes)) else None;
      }
      seen := true;
      var end := NewlineEnd(chunk);
      var count := if end.Some? then end.value else |chunk|;
      if !oversized {
        if |bytes| + count > MAXIMUM_INPUT_BYTES {
          oversized := true;
          bytes := [];
        } else {
          bytes := bytes + chunk[..count];
        }
      }
      ghost var rest := input.Rest();
      Advance(data, done, rest, chunk, count);
      input.Consume(count);
      if end.Some? {
        AtNewline(data, done, rest, chunk);
        return Some(if oversized then TooLong else Accepted(bytes));
      }
      assert chunk[..count] == chunk;
      StillOpen(done, chunk);
      done := done + chunk;
    }
  }

  lemma AtEnd(data: Data, done: Data, rest: Data)
    requires data == done + rest && rest == [] && Open(done)
    ensures data == done && Taken(data, FrameOf(done), rest)
  {
    LineOfNone(done);
    assert data[..|data|] == data;
  }

  lemma Advance(data: Data, done: Data, rest: Data, chunk: Data, count: nat)
    requires data == done + rest && chunk <= rest && count <= |chunk|
    ensures data == (done + chunk[..count]) + rest[count..]
  {
    assert chunk[..count] == rest[..count];
  }

  lemma Cut(done: Data, rest: Data, chunk: Data, n: nat)
    requires chunk <= rest && n <= |chunk|
    ensures (done + rest)[..|done| + n] == done + chunk[..n]
    ensures (done + rest)[|done| + n..] == rest[n..]
  {
    assert rest[..n] == chunk[..n];
  }

  lemma AtNewline(data: Data, done: Data, rest: Data, chunk: Data)
    requires data == done + rest && chunk <= rest && Open(done) && NEWLINE in chunk
    ensures Taken(data, FrameOf(done + chunk[..LineLength(chunk)]), rest[LineLength(chunk)..])
  {
    hide LineLength;
    LineSplits(done, rest);
    assert rest == chunk + rest[|chunk|..];
    LineWithin(chunk, rest[|chunk|..]);
    Cut(done, rest, chunk, LineLength(chunk));
  }

  lemma FramesCons(line: Data, rest: seq<Data>)
    ensures FramesOf([line] + rest) == [FrameOf(line)] + FramesOf(rest)
  {
  }

  /** Reading to the end of input: exactly the newline-split lines, independent of the chunks. */
  method ReadAll(input: Input) returns (frames: seq<Frame>)
    requires input.Valid()
    modifies input
    ensures input.Valid() && input.Rest() == []
    ensures frames == FramesOf(Lines(old(input.Rest())))
  {
    hide LineLength, Concat, FramesOf;
    frames := [];
    ghost var data := input.Rest();
    while true
      invariant input.Valid()
      invariant frames + FramesOf(Lines(input.Rest())) == FramesOf(Lines(data))
      decreases |input.Rest()|
    {
      ghost var before := input.Rest();
      var frame := ReadFrame(input);
      if frame.None? {
        break;
      }
      assert Lines(before) == [before[..LineLength(before)]] + Lines(input.Rest());
      FramesCons(before[..LineLength(before)], Lines(input.Rest()));
      frames := frames + [frame.value];
    }
  }
}
