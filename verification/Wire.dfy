/**
 * The event-stream wire format: the encoder of frames and heartbeats, and the incremental parser
 * (packages/realtime/src/wire.ts). The functions say what the two halves compute on values; the
 * methods are the loops of the source, proved against them.
 */
module Wire {
  import opened Options
  import opened Text
  import opened JsNumber

  datatype SseFrame = SseFrame(id: Option<string>, event: Option<string>, data: string, retry: Option<int>)

  datatype ParsedFrame = ParsedFrame(id: Option<string>, event: Option<string>, data: string, retry: Option<Decimal>)

  const HEARTBEAT_COMMENT: string := ": heartbeat\n\n"

  // ----- Encoding -----

  function Field(name: string, value: string): string { name + ": " + value }

  function OptionalField(name: string, value: Option<string>): seq<string>
  {
    match value case None => [] case Some(v) => [Field(name, v)]
  }

  function ShowRetry(retry: Option<int>): Option<string>
  {
    match retry case None => None case Some(n) => Some(ShowInt(n))
  }

  /** One `data` line for each part, in order. */
  function DataLines(parts: seq<string>): (lines: seq<string>)
    ensures |lines| == |parts|
  {
    if parts == [] then [] else DataLines(parts[..|parts| - 1]) + [Field("data", parts[|parts| - 1])]
  }

  function Header(frame: SseFrame): seq<string>
  {
    OptionalField("id", frame.id) + OptionalField("event", frame.event) + OptionalField("retry", ShowRetry(frame.retry))
  }

  /** The lines of an encoded frame, before they are joined. */
  function Lines(frame: SseFrame): (lines: seq<string>)
    ensures |lines| >= 1
  {
    Header(frame) + DataLines(Split(frame.data, '\n'))
  }

  function Encoded(frame: SseFrame): string { Join(Lines(frame), "\n") + "\n\n" }

  method EncodeFrame(frame: SseFrame) returns (text: string)
    ensures text == Encoded(frame)
  {
    hide Split, Join, ShowInt;
    var lines: seq<string> := [];
    if frame.id.Some? { lines := lines + [Field("id", frame.id.value)]; }
    assert lines == OptionalField("id", frame.id);
    if frame.event.Some? { lines := lines + [Field("event", frame.event.value)]; }
    assert lines == OptionalField("id", frame.id) + OptionalField("event", frame.event);
    if frame.retry.Some? { lines := lines + [Field("retry", ShowInt(frame.retry.value))]; }
    ghost var header := lines;
    assert header == Header(frame);
    var parts := Split(frame.data, '\n');
    for k := 0 to |parts|
      invariant lines == header + DataLines(parts[..k])
    {
      assert parts[..k + 1][..k] == parts[..k];
      lines := lines + [Field("data", parts[k])];
    }
    assert parts[..|parts|] == parts;
    text := Join(lines, "\n") + "\n\n";
  }

  // ----- Frame boundaries -----

  /** A blank line starts at `j`: the two line feeds that end a frame. */
  predicate BlankAt(s: string, j: nat) { j + 1 < |s| && s[j] == '\n' && s[j + 1] == '\n' }

  /** `s.indexOf('\n\n')`, with the length of `s` standing for -1. */
  function Boundary(s: string): (i: nat)
    ensures i == |s| || BlankAt(s, i)
    ensures forall j: nat :: j < i ==> !BlankAt(s, j)
  {
    if s == "" then 0
    else if BlankAt(s, 0) then 0
    else
      var k := Boundary(s[1..]);
      assert forall j: nat :: 0 < j ==> BlankAt(s, j) == BlankAt(s[1..], j - 1);
      if k == |s| - 1 then |s| else k + 1
  }

  /** The complete blocks of a text, each ended by a blank line, and what is left after the last one. */
  datatype Cut = Cut(blocks: seq<string>, rest: string)

  function Blocks(s: string): (c: Cut)
    decreases |s|
  {
    var i := Boundary(s);
    if i == |s| then Cut([], s)
    else
      var later := Blocks(s[i + 2..]);
      Cut([s[..i]] + later.blocks, later.rest)
  }

  // ----- Parsing one block -----

  /** What the loop over the lines of a block accumulates. */
  datatype Fields = Fields(data: seq<string>, id: Option<string>, event: Option<string>, retry: Option<Decimal>, saw: bool)

  const NoFields := Fields([], None, None, None, false)

  function FieldOf(line: string): string { line[..FirstIndex(line, ':')] }

  /** What follows the colon, less one leading space. */
  function ValueOf(line: string): string
  {
    var colon := FirstIndex(line, ':');
    if colon == |line| then ""
    else
      var raw := line[colon + 1..];
      if raw != "" && raw[0] == ' ' then raw[1..] else raw
  }

  function ReadLine(fields: Fields, line: string): Fields
  {
    if line == "" || line[0] == ':' then fields
    else
      var name, value := FieldOf(line), ValueOf(line);
      if name == "id" then fields.(id := Some(value), saw := true)
      else if name == "event" then fields.(event := Some(value), saw := true)
      else if name == "data" then fields.(data := fields.data + [value], saw := true)
      else if name == "retry" then
        var parsed := ToNumber(value);
        fields.(retry := if parsed.Some? then parsed else fields.retry, saw := true)
      else fields
  }

  function ReadLines(fields: Fields, lines: seq<string>): Fields
    decreases lines
  {
    if lines == [] then fields else ReadLines(ReadLine(fields, lines[0]), lines[1..])
  }

  function Frame(fields: Fields): Option<ParsedFrame>
  {
    if fields.saw then Some(ParsedFrame(fields.id, fields.event, Join(fields.data, "\n"), fields.retry)) else None
  }

  function Parsed(block: string): Option<ParsedFrame> { Frame(ReadLines(NoFields, Split(block, '\n'))) }

  method ParseFrame(block: string) returns (frame: Option<ParsedFrame>)
    ensures frame == Parsed(block)
  {
    var data: seq<string> := [];
    var id, event: Option<string> := None, None;
    var retry: Option<Decimal> := None;
    var sawField := false;
    var lines := Split(block, '\n');
    for k := 0 to |lines|
      invariant ReadLines(Fields(data, id, event, retry, sawField), lines[k..]) == ReadLines(NoFields, lines)
    {
      var line := lines[k];
      assert lines[k..][0] == line && lines[k..][1..] == lines[k + 1..];
      if line != "" && line[0] == ':' { continue; }
      if |line| == 0 { continue; }
      var colon := FirstIndex(line, ':');
      var field := if colon == |line| then line else line[..colon];
      assert field == FieldOf(line);
      var value := ValueOf(line);
      if field == "id" {
        id, sawField := Some(value), true;
      } else if field == "event" {
        event, sawField := Some(value), true;
      } else if field == "data" {
        data, sawField := data + [value], true;
      } else if field == "retry" {
        var parsed := ToNumber(value);
        if parsed.Some? { retry := parsed; }
        sawField := true;
      }
    }
    if !sawField { return None; }
    return Some(ParsedFrame(id, event, Join(data, "\n"), retry));
  }

  /** The frames of a sequence of blocks; a block with no known field gives none. */
  function Frames(blocks: seq<string>): seq<ParsedFrame>
  {
    if blocks == [] then []
    else
      match Parsed(blocks[0])
      case None => Frames(blocks[1..])
      case Some(frame) => [frame] + Frames(blocks[1..])
  }

  /** The first block of a text that holds a boundary, and the frames it adds. */
  lemma FirstBlock(s: string)
    requires Boundary(s) != |s|
    ensures var i := Boundary(s);
            var later := Blocks(s[i + 2..]);
            && Blocks(s) == Cut([s[..i]] + later.blocks, later.rest)
            && Frames(Blocks(s).blocks) == (match Parsed(s[..i]) case None => [] case Some(f) => [f]) + Frames(later.blocks)
  {
    hide Parsed, Boundary;
    var i := Boundary(s);
    var later := Blocks(s[i + 2..]);
    assert ([s[..i]] + later.blocks)[1..] == later.blocks;
  }

  // ----- The incremental parser -----

  class SseParser {
    var buffer: string

    constructor ()
      ensures buffer == ""
    {
      buffer := "";
    }

    /** Feeds a chunk and returns the frames it completed. */
    method Push(chunk: string) returns (frames: seq<ParsedFrame>)
      modifies this
      ensures var cut := Blocks(Normalised(old(buffer) + chunk));
              frames == Frames(cut.blocks) && buffer == cut.rest
      ensures Boundary(buffer) == |buffer|
    {
      hide Parsed, Normalised, Boundary;
      buffer := buffer + chunk;
      frames := [];
      buffer := Normalised(buffer);
      ghost var whole := Blocks(buffer);
      var boundary := Boundary(buffer);
      while boundary != |buffer|
        invariant boundary == Boundary(buffer)
        invariant whole.rest == Blocks(buffer).rest
        invariant Frames(whole.blocks) == frames + Frames(Blocks(buffer).blocks)
        decreases |buffer|
      {
        FirstBlock(buffer);
        var raw := buffer[..boundary];
        buffer := buffer[boundary + 2..];
        var frame := ParseFrame(raw);
        if frame.Some? { frames := frames + [frame.value]; }
        boundary := Boundary(buffer);
      }
    }

    method Pending() returns (text: string)
      ensures text == buffer
    {
      return buffer;
    }

    method Reset()
      modifies this
      ensures buffer == ""
    {
      buffer := "";
    }
  }
}
