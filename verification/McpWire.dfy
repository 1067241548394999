/** Output frames: one line each, always within the wire limit, with room for a tool result in both representations. */
module McpWire {
  import opened Wrappers
  import opened Bytes
  import opened Frames
  import opened Json

  const MAXIMUM_WIRE_BYTES := 1048576
  const TOOL_RESPONSE_BUDGET_BYTES := MAXIMUM_WIRE_BYTES / 8
  const MAXIMUM_ID_BYTES := 1024

  // ---- Frames ----

  /** `frame`: the message, or the error that replaces one that would not fit, and its newline. */
  function Framed(message: Data, tooLong: Data): Data {
    (if |message| >= MAXIMUM_WIRE_BYTES then tooLong else message) + [NEWLINE]
  }

  /** Serialized JSON never holds a raw control byte. */
  predicate Visible(data: Data) {
    forall i :: 0 <= i < |data| ==> data[i] >= 0x20
  }

  /** The id of an error that answers a known request; an uncorrelated one has none. */
  function IdField(id: Option<Data>): Data {
    if id.None? then [] else Utf8(",\"id\":") + id.value
  }

  function ErrorFor(id: Option<Data>): Data {
    Utf8("{\"jsonrpc\":\"2.0\",") + Utf8("\"error\":{\"code\":-32603,") + Utf8("\"message\":\"Response exceeds")
    + Utf8(" the wire budget\"}") + IdField(id) + Utf8("}")
  }

  function ResultFor(id: Data, inner: Data, flag: Data): Data {
    Utf8("{\"jsonrpc\":\"2.0\",") + Utf8("\"id\":") + id + Utf8(",\"result\":{\"content\":[{")
    + Utf8("\"type\":\"text\",\"text\":\"") + Escaped(inner) + Utf8("\"}],\"structuredContent\":") + inner
    + Utf8(",\"isError\":") + flag + Utf8("}}")
  }

  lemma {:induction false} TextBounds(s: string)
    requires forall i :: 0 <= i < |s| ==> 0x20 <= s[i] as int < 0x80
    ensures |Utf8(s)| == |s| && Visible(Utf8(s))
  {
    if s != [] {
      TextBounds(s[1..]);
    }
  }

  lemma IdFieldBounds(id: Option<Data>)
    requires id.Some? ==> Visible(id.value) && |id.value| <= MAXIMUM_ID_BYTES
    ensures Visible(IdField(id)) && |IdField(id)| <= MAXIMUM_ID_BYTES + 6
  {
    hide Utf8, Visible;
    if id.None? {
      EmptyVisible();
    } else {
      TextBounds(",\"id\":");
      VisibleParts(Utf8(",\"id\":"), id.value);
    }
  }

  lemma EmptyVisible()
    ensures Visible([])
  {
  }

  /** Whatever the message, with or without an id, a frame is one line within the limit. */
  lemma {:induction false} FrameFits(message: Data, id: Option<Data>)
    requires Visible(message) && (id.Some? ==> Visible(id.value) && |id.value| <= MAXIMUM_ID_BYTES)
    ensures var f := Framed(message, ErrorFor(id));
            && |f| <= MAXIMUM_WIRE_BYTES && Whole(f) && Terminated(f)
            && (|message| < MAXIMUM_WIRE_BYTES ==> f == message + [NEWLINE])
  {
    hide Utf8, Visible, IdField;
    var a, b, c := "{\"jsonrpc\":\"2.0\",", "\"error\":{\"code\":-32603,", "\"message\":\"Response exceeds";
    var d := " the wire budget\"}";
    TextBounds(a);
    TextBounds(b);
    TextBounds(c);
    TextBounds(d);
    TextBounds("}");
    IdFieldBounds(id);
    VisibleParts(Utf8(a), Utf8(b));
    VisibleParts(Utf8(a) + Utf8(b), Utf8(c));
    VisibleParts(Utf8(a) + Utf8(b) + Utf8(c), Utf8(d));
    VisibleParts(Utf8(a) + Utf8(b) + Utf8(c) + Utf8(d), IdField(id));
    VisibleParts(Utf8(a) + Utf8(b) + Utf8(c) + Utf8(d) + IdField(id), Utf8("}"));
    assert |ErrorFor(id)| <= 200 + |IdField(id)|;
    var body := if |message| >= MAXIMUM_WIRE_BYTES then ErrorFor(id) else message;
    assert Framed(message, ErrorFor(id))[..|body|] == body;
    NoNewline(body);
  }

  lemma NoNewline(body: Data)
    requires Visible(body)
    ensures NEWLINE !in body
  {
  }

  lemma VisibleParts(a: Data, b: Data)
    ensures Visible(a + b) <==> Visible(a) && Visible(b)
  {
    assert forall i :: 0 <= i < |a| ==> (a + b)[i] == a[i];
    assert forall i :: 0 <= i < |b| ==> (a + b)[|a| + i] == b[i];
  }

  /**
   A tool response within its budget always fits the wire in both representations, for every id: its escaped text
   costs at most six times its bytes, so no result is ever replaced by the wire-budget error.
   */
  lemma {:induction false} ToolResultFits(id: Data, inner: Data, flag: Data, tooLong: Data)
    requires |id| <= MAXIMUM_ID_BYTES && |inner| <= TOOL_RESPONSE_BUDGET_BYTES && |flag| <= 5
    ensures |ResultFor(id, inner, flag)| <= 7 * |inner| + |id| + 200
    ensures Framed(ResultFor(id, inner, flag), tooLong) == ResultFor(id, inner, flag) + [NEWLINE]
  {
    hide Utf8, Escaped;
    EscapedBounds(inner);
    TextBounds("{\"jsonrpc\":\"2.0\",");
    TextBounds("\"id\":");
    TextBounds(",\"result\":{\"content\":[{");
    TextBounds("\"type\":\"text\",\"text\":\"");
    TextBounds("\"}],\"structuredContent\":");
    TextBounds(",\"isError\":");
    TextBounds("}}");
  }
}
