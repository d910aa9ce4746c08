/**
 * The encoder and the parser are two halves of one contract: what one writes the other reads back
 * (packages/realtime/src/wire.ts:22-44, 121-172). The only loss is a carriage return at the end of a
 * line, which line-ending normalisation takes away.
 */
module RoundTrip {
  import opened Options
  import opened Text
  import opened JsNumber
  import opened Wire
  import opened ChunkInvariance

  // ----- What is lost -----

  /** A line without the carriage return it may end in. */
  function StripCr(s: string): string
  {
    if s != "" && s[|s| - 1] == '\r' then s[..|s| - 1] else s
  }

  function StripAll(lines: seq<string>): (r: seq<string>)
    ensures |r| == |lines|
    ensures forall i :: 0 <= i < |lines| ==> r[i] == StripCr(lines[i])
  {
    if lines == [] then [] else StripAll(lines[..|lines| - 1]) + [StripCr(lines[|lines| - 1])]
  }

  function StripOptional(s: Option<string>): Option<string>
  {
    match s case None => None case Some(v) => Some(StripCr(v))
  }

  /** The frame with one trailing carriage return less in `id`, `event` and every line of `data`. */
  function Trimmed(frame: SseFrame): SseFrame
  {
    SseFrame(StripOptional(frame.id), StripOptional(frame.event),
             Join(StripAll(Split(frame.data, '\n')), "\n"), frame.retry)
  }

  predicate OneLine(s: Option<string>) { s.None? || '\n' !in s.value }

  /** The fields that are written on one line hold no line feed. */
  predicate Writable(frame: SseFrame) { OneLine(frame.id) && OneLine(frame.event) }

  predicate EndsInCr(s: string) { s != "" && s[|s| - 1] == '\r' }

  /** The frames that lose nothing: a condition a caller can check before encoding. */
  ghost predicate Faithful(frame: SseFrame)
  {
    && Writable(frame)
    && (frame.id.Some? ==> !EndsInCr(frame.id.value))
    && (frame.event.Some? ==> !EndsInCr(frame.event.value))
    && !HasCrLf(frame.data)
    && !EndsInCr(frame.data)
  }

  /** A frame as the parser reports it. */
  function Received(frame: SseFrame): ParsedFrame
  {
    ParsedFrame(frame.id, frame.event, frame.data,
                match frame.retry case None => None case Some(n) => Some(Decimal(n, 0)))
  }

  // ----- The encoded text -----

  predicate LineText(s: string) { s != "" && '\n' !in s }

  lemma FieldIsLine(name: string, value: string)
    requires '\n' !in name && '\n' !in value
    ensures LineText(Field(name, value))
    ensures StripCr(Field(name, value)) == Field(name, StripCr(value))
  {
    var line := Field(name, value);
    if value != "" { assert line[|line| - 1] == value[|value| - 1]; }
  }

  lemma StripLast(lines: seq<string>, line: string)
    ensures StripAll(lines + [line]) == StripAll(lines) + [StripCr(line)]
    ensures StripAll([]) == []
  {
    hide StripCr;
    assert (lines + [line])[..|lines|] == lines;
  }

  lemma DataLast(parts: seq<string>, part: string)
    ensures DataLines(parts + [part]) == DataLines(parts) + [Field("data", part)]
    ensures DataLines([]) == []
  {
    hide Field;
    assert (parts + [part])[..|parts|] == parts;
  }

  lemma {:induction false} DataLinesAreLines(parts: seq<string>)
    requires forall p :: p in parts ==> '\n' !in p
    ensures forall l :: l in DataLines(parts) ==> LineText(l)
    ensures StripAll(DataLines(parts)) == DataLines(StripAll(parts))
  {
    hide StripAll, StripCr, Field, DataLines, LineText;
    StripLast([], "");
    DataLast([], "");
    if parts != [] {
      var k := |parts| - 1;
      assert forall p :: p in parts[..k] ==> p in parts;
      DataLinesAreLines(parts[..k]);
      assert parts[k] in parts;
      FieldIsLine("data", parts[k]);
      assert parts == parts[..k] + [parts[k]];
      StripLast(parts[..k], parts[k]);
      DataLast(parts[..k], parts[k]);
      DataLast(StripAll(parts[..k]), StripCr(parts[k]));
      StripLast(DataLines(parts[..k]), Field("data", parts[k]));
    }
  }

  lemma {:induction false} StripAppend(a: seq<string>, b: seq<string>)
    ensures StripAll(a + b) == StripAll(a) + StripAll(b)
  {
    hide StripAll, StripCr;
  }

  lemma OptionalFieldIsLine(name: string, value: Option<string>)
    requires '\n' !in name && OneLine(value)
    ensures forall l :: l in OptionalField(name, value) ==> LineText(l)
    ensures StripAll(OptionalField(name, value)) == OptionalField(name, StripOptional(value))
  {
    if value.Some? { FieldIsLine(name, value.value); }
  }

  lemma RetryIsPlain(retry: Option<int>)
    ensures OneLine(ShowRetry(retry))
    ensures StripOptional(ShowRetry(retry)) == ShowRetry(retry)
  {
    if retry.Some? {
      var n := retry.value;
      var s := ShowInt(n);
      var digits := ShowNat(if n < 0 then -n else n);
      assert digits[|digits| - 1] in digits;
      assert forall c :: c in s ==> c in digits || c == '-';
    }
  }

  lemma HeaderIsLines(frame: SseFrame)
    requires Writable(frame)
    ensures forall l :: l in Header(frame) ==> LineText(l)
    ensures StripAll(Header(frame)) == Header(Trimmed(frame))
  {
    hide StripAll, Split, Join, ShowInt, LineText, Field;
    RetryIsPlain(frame.retry);
    var a, b := OptionalField("id", frame.id), OptionalField("event", frame.event);
    var c := OptionalField("retry", ShowRetry(frame.retry));
    OptionalFieldIsLine("id", frame.id);
    OptionalFieldIsLine("event", frame.event);
    OptionalFieldIsLine("retry", ShowRetry(frame.retry));
    StripAppend(a, b);
    StripAppend(a + b, c);
  }

  /** Every line of an encoded frame is non-empty and holds no line feed, and trimming works line by line. */
  lemma LinesAreLines(frame: SseFrame)
    requires Writable(frame)
    ensures forall l :: l in Lines(frame) ==> LineText(l)
    ensures StripAll(Lines(frame)) == Lines(Trimmed(frame))
  {
    hide StripAll, Split, Join, LineText, Header, DataLines;
    var parts := Split(frame.data, '\n');
    JoinSplit(frame.data, '\n');
    HeaderIsLines(frame);
    DataLinesAreLines(parts);
    StripAppend(Header(frame), DataLines(parts));
    TrimmedDataSplits(frame.data);
  }

  lemma TrimmedDataSplits(data: string)
    ensures Split(Join(StripAll(Split(data, '\n')), "\n"), '\n') == StripAll(Split(data, '\n'))
  {
    hide StripAll, Split, Join;
    var parts := Split(data, '\n');
    JoinSplit(data, '\n');
    forall p | p in StripAll(parts) ensures '\n' !in p {
      var i :| 0 <= i < |parts| && p == StripCr(parts[i]);
      assert parts[i] in parts;
    }
    SplitJoin(StripAll(parts), '\n');
  }

  lemma TrimmedWritable(frame: SseFrame)
    requires Writable(frame)
    ensures Writable(Trimmed(frame))
  {
  }

  /** Joining one more line in front. */
  lemma NormalisedLine(line: string)
    requires '\n' !in line
    ensures Normalised(line + "\n") == StripCr(line) + "\n"
  {
    hide Normalised;
    var q := StripCr(line);
    assert !HasCrLf(q) by {
      forall i: nat ensures !CrLfAt(q, i) {
        if i + 1 < |q| { assert q[i + 1] == line[i + 1]; }
      }
    }
    NormalisedFixes(q);
    NormalisedStep("\n");
    NormalisedStep("");
    if q == line {
      NormalisedAppend(line, "\n");
    } else {
      assert line + "\n" == q + "\r\n";
      NormalisedStep("\r\n");
      NormalisedAppend(q, "\r\n");
    }
  }

  lemma {:induction false} NormalisedLines(lines: seq<string>)
    requires |lines| >= 1
    requires forall l :: l in lines ==> LineText(l)
    ensures Normalised(Join(lines, "\n") + "\n") == Join(StripAll(lines), "\n") + "\n"
  {
    hide Normalised, Join, StripAll;
    assert lines[0] in lines;
    NormalisedLine(lines[0]);
    if |lines| == 1 {
      assert lines == [lines[0]] && StripAll(lines) == [StripCr(lines[0])];
      JoinOne(lines[0], "\n");
      JoinOne(StripCr(lines[0]), "\n");
    } else {
      assert forall l :: l in lines[1..] ==> l in lines;
      NormalisedLines(lines[1..]);
      assert StripAll(lines)[1..] == StripAll(lines[1..]);
      JoinStep(lines, "\n");
      JoinStep(StripAll(lines), "\n");
      var head, tail := lines[0] + "\n", Join(lines[1..], "\n") + "\n";
      NormalisedAppend(head, tail);
      assert Join(lines, "\n") + "\n" == head + tail;
    }
  }

  /** Normalising an encoded frame is encoding the trimmed frame. */
  lemma NormalisedEncoded(frame: SseFrame)
    requires Writable(frame)
    ensures Normalised(Encoded(frame)) == Encoded(Trimmed(frame))
  {
    hide Normalised, Join, StripAll, Lines, Trimmed;
    LinesAreLines(frame);
    NormalisedLines(Lines(frame));
    var body := Join(Lines(frame), "\n");
    assert Encoded(frame) == (body + "\n") + "\n";
    NormalisedAppend(body + "\n", "\n");
    NormalisedStep("\n");
    NormalisedStep("");
  }

  // ----- One block per encoded frame -----

  lemma {:induction false} LinesHaveNoBlank(lines: seq<string>)
    requires |lines| >= 1
    requires forall l :: l in lines ==> LineText(l)
    ensures var body := Join(lines, "\n");
            && body != "" && body[0] != '\n'
            && body[|body| - 1] != '\n'
            && forall j: nat :: !BlankAt(body, j)
  {
    hide Join;
    assert lines[0] in lines;
    if |lines| == 1 {
      assert lines == [lines[0]];
      JoinOne(lines[0], "\n");
    } else {
      assert forall l :: l in lines[1..] ==> l in lines;
      LinesHaveNoBlank(lines[1..]);
      JoinStep(lines, "\n");
      var body, head, tail := Join(lines, "\n"), lines[0], Join(lines[1..], "\n");
      forall j: nat ensures !BlankAt(body, j) {
        if j + 1 < |body| {
          if j < |head| { assert body[j] == head[j]; }
          else if j > |head| { assert !BlankAt(tail, j - |head| - 1); }
        }
      }
    }
  }

  /** The text of lines followed by a blank line is exactly one block. */
  lemma OneBlock(lines: seq<string>)
    requires |lines| >= 1
    requires forall l :: l in lines ==> LineText(l)
    ensures var body := Join(lines, "\n");
            && Blocks(body + "\n\n") == Cut([body], "")
            && (forall j: nat :: j < |body| ==> !BlankAt(body + "\n\n", j))
  {
    hide Join, Boundary, Blocks;
    var body := Join(lines, "\n");
    var text := body + "\n\n";
    LinesHaveNoBlank(lines);
    forall j: nat | j < |body| ensures !BlankAt(text, j) { assert !BlankAt(body, j); }
    assert BlankAt(text, |body|);
    assert Boundary(text) == |body|;
    BlocksStep(text);
    assert text[|body| + 2..] == "" && text[..|body|] == body;
    BlocksStep("");
  }

  // ----- Reading the lines back -----

  /** The fields after one line, by the name of its field. */
  function AfterField(fields: Fields, name: string, value: string): Fields
  {
    if name == "id" then fields.(id := Some(value), saw := true)
    else if name == "event" then fields.(event := Some(value), saw := true)
    else if name == "data" then fields.(data := fields.data + [value], saw := true)
    else if name == "retry" then
      fields.(retry := if ToNumber(value).Some? then ToNumber(value) else fields.retry, saw := true)
    else fields
  }

  /** A written field is read with its name and its value, leading spaces of the value included. */
  lemma ReadField(fields: Fields, name: string, value: string)
    requires name != "" && ':' !in name
    ensures ReadLine(fields, Field(name, value)) == AfterField(fields, name, value)
  {
    hide ToNumber, FirstIndex;
    var line := Field(name, value);
    assert line[..|name|] == name && line[|name|] == ':';
    assert line[0] == name[0] && name[0] in name;
    FirstIndexAt(line, ':', |name|);
    assert line[|name| + 1..] == " " + value;
    assert (" " + value)[1..] == value;
  }

  lemma {:induction false} ReadAppend(fields: Fields, a: seq<string>, b: seq<string>)
    ensures ReadLines(fields, a + b) == ReadLines(ReadLines(fields, a), b)
    decreases a
  {
    hide ReadLine;
    if a == [] {
      assert a + b == b;
    } else {
      ReadAppend(ReadLine(fields, a[0]), a[1..], b);
      assert (a + b)[1..] == a[1..] + b;
    }
  }

  lemma ReadOne(fields: Fields, line: string)
    ensures ReadLines(fields, [line]) == ReadLine(fields, line)
  {
    hide ReadLine;
    assert [line][1..] == [];
  }

  lemma ReadOptional(fields: Fields, name: string, value: Option<string>)
    requires name != "" && ':' !in name
    ensures ReadLines(fields, OptionalField(name, value))
            == match value case None => fields case Some(v) => AfterField(fields, name, v)
  {
    hide ReadLine, Field, AfterField;
    if value.Some? {
      ReadOne(fields, Field(name, value.value));
      ReadField(fields, name, value.value);
    }
  }

  lemma {:induction false} ReadDataLines(fields: Fields, parts: seq<string>)
    ensures ReadLines(fields, DataLines(parts))
            == if parts == [] then fields else fields.(data := fields.data + parts, saw := true)
  {
    hide ReadLine, ReadLines, Field;
    if parts == [] {
      ReadNothing(fields);
    } else {
      var k := |parts| - 1;
      ReadDataLines(fields, parts[..k]);
      ReadAppend(fields, DataLines(parts[..k]), [Field("data", parts[k])]);
      var before := ReadLines(fields, DataLines(parts[..k]));
      ReadOne(before, Field("data", parts[k]));
      ReadField(before, "data", parts[k]);
      assert parts[..k] + [parts[k]] == parts;
      assert fields.data + parts[..k] + [parts[k]] == fields.data + parts;
      assert fields.data + [] == fields.data;
    }
  }

  lemma ReadNothing(fields: Fields)
    ensures ReadLines(fields, []) == fields
  {
  }

  lemma ReadHeader(frame: SseFrame)
    ensures var f := ReadLines(NoFields, Header(frame));
            && f.id == frame.id && f.event == frame.event && f.data == []
            && f.retry == Received(frame).retry
  {
    hide ReadLine, ReadLines, OptionalField, ToNumber, ShowInt;
    var a, b := OptionalField("id", frame.id), OptionalField("event", frame.event);
    var c := OptionalField("retry", ShowRetry(frame.retry));
    ReadAppend(NoFields, a + b, c);
    ReadAppend(NoFields, a, b);
    ReadOptional(NoFields, "id", frame.id);
    var f1 := ReadLines(NoFields, a);
    ReadOptional(f1, "event", frame.event);
    var f2 := ReadLines(f1, b);
    ReadOptional(f2, "retry", ShowRetry(frame.retry));
    if frame.retry.Some? { NumberOfShow(frame.retry.value); }
  }

  /** The block of an encoded frame parses to the frame. */
  lemma ParsedLines(frame: SseFrame)
    requires Writable(frame)
    ensures Parsed(Join(Lines(frame), "\n")) == Some(Received(frame))
  {
    hide ReadLine, ReadLines, Header, DataLines, Split, Join;
    var parts := Split(frame.data, '\n');
    LinesAreLines(frame);
    SplitJoin(Lines(frame), '\n');
    JoinSplit(frame.data, '\n');
    ReadHeader(frame);
    ReadAppend(NoFields, Header(frame), DataLines(parts));
    ReadDataLines(ReadLines(NoFields, Header(frame)), parts);
    assert [] + parts == parts;
  }

  // ----- Streams of frames and heartbeats -----

  datatype Item = Heartbeat | Message(frame: SseFrame)

  function ItemText(item: Item): string
  {
    match item case Heartbeat => HEARTBEAT_COMMENT case Message(frame) => Encoded(frame)
  }

  function StreamText(items: seq<Item>): string
  {
    if items == [] then "" else ItemText(items[0]) + StreamText(items[1..])
  }

  /** The frames of a stream, as the parser reports them. */
  function ReceivedAll(items: seq<Item>): seq<ParsedFrame>
  {
    if items == [] then []
    else (match items[0] case Heartbeat => [] case Message(frame) => [Received(frame)]) + ReceivedAll(items[1..])
  }

  function TrimmedItem(item: Item): Item
  {
    match item case Heartbeat => Heartbeat case Message(frame) => Message(Trimmed(frame))
  }

  function TrimmedAll(items: seq<Item>): (r: seq<Item>)
    ensures |r| == |items|
    ensures forall i :: 0 <= i < |items| ==> r[i] == TrimmedItem(items[i])
  {
    if items == [] then [] else [TrimmedItem(items[0])] + TrimmedAll(items[1..])
  }

  predicate WritableItem(item: Item) { item.Message? ==> Writable(item.frame) }

  ghost predicate FaithfulItem(item: Item) { item.Message? ==> Faithful(item.frame) }

  /** The one block an item is on the wire, and the frames it parses to. */
  function ItemBlock(item: Item): string
  {
    match item case Heartbeat => ": heartbeat" case Message(frame) => Join(Lines(frame), "\n")
  }

  function ItemFrames(item: Item): seq<ParsedFrame>
  {
    match item case Heartbeat => [] case Message(frame) => [Received(frame)]
  }

  lemma ItemIsOneBlock(item: Item)
    requires WritableItem(item)
    ensures ItemText(item) == ItemBlock(item) + "\n\n"
    ensures Blocks(ItemText(item)) == Cut([ItemBlock(item)], "")
    ensures forall j: nat :: j < |ItemBlock(item)| ==> !BlankAt(ItemText(item), j)
    ensures (match Parsed(ItemBlock(item)) case None => [] case Some(f) => [f]) == ItemFrames(item)
  {
    hide Join, Blocks, Boundary, Parsed, Lines;
    match item
    case Heartbeat =>
      var line := ": heartbeat";
      JoinOne(line, "\n");
      assert LineText(line);
      OneBlock([line]);
      CommentGivesNothing(line);
      assert HEARTBEAT_COMMENT == line + "\n\n";
    case Message(frame) =>
      LinesAreLines(frame);
      OneBlock(Lines(frame));
      ParsedLines(frame);
  }

  lemma CommentGivesNothing(line: string)
    requires line != "" && line[0] == ':' && '\n' !in line
    ensures Parsed(line) == None
  {
    hide Split, ReadLines;
    SplitWhole(line, '\n');
    ReadOne(NoFields, line);
  }

  lemma NormalisedItem(item: Item)
    requires WritableItem(item)
    ensures Normalised(ItemText(item)) == ItemText(TrimmedItem(item))
    ensures ItemText(item) != "" && ItemText(item)[|ItemText(item)| - 1] == '\n'
    ensures WritableItem(TrimmedItem(item))
  {
    hide Normalised, Join, Lines, Trimmed;
    match item
    case Heartbeat =>
      NormalisedFixes(HEARTBEAT_COMMENT);
    case Message(frame) =>
      NormalisedEncoded(frame);
      TrimmedWritable(frame);
  }

  lemma {:induction false} NormalisedStream(items: seq<Item>)
    requires forall i :: i in items ==> WritableItem(i)
    ensures Normalised(StreamText(items)) == StreamText(TrimmedAll(items))
    ensures forall i :: i in TrimmedAll(items) ==> WritableItem(i)
  {
    hide Normalised, ItemText, TrimmedItem, WritableItem;
    NormalisedStep("");
    if items != [] {
      assert items[0] in items && forall i :: i in items[1..] ==> i in items;
      NormalisedItem(items[0]);
      NormalisedStream(items[1..]);
      NormalisedAppend(ItemText(items[0]), StreamText(items[1..]));
      assert TrimmedAll(items)[1..] == TrimmedAll(items[1..]);
    }
  }

  /** Cutting a stream of items gives back each item's frames, in order, and leaves nothing. */
  lemma {:induction false} StreamBlocks(items: seq<Item>)
    requires forall i :: i in items ==> WritableItem(i)
    ensures Blocks(StreamText(items)).rest == ""
    ensures Frames(Blocks(StreamText(items)).blocks) == ReceivedAll(items)
  {
    hide Blocks, Boundary, Parsed, ItemText, ItemBlock, WritableItem;
    if items == [] {
      EmptyHasNoBoundary();
      BlocksStep("");
    } else {
      assert items[0] in items && forall i :: i in items[1..] ==> i in items;
      ItemIsOneBlock(items[0]);
      StreamBlocks(items[1..]);
      var tail := StreamText(items[1..]);
      BlocksAppend(ItemText(items[0]), tail);
      assert "" + tail == tail;
      FramesOfFirst(ItemBlock(items[0]), Blocks(tail).blocks);
    }
  }

  lemma FramesOfFirst(block: string, later: seq<string>)
    ensures Frames([block] + later) == (match Parsed(block) case None => [] case Some(f) => [f]) + Frames(later)
  {
    hide Parsed;
    assert ([block] + later)[1..] == later;
  }

  /**
   * What a stream reads back as, in one push: every frame in order, each trimmed of the carriage
   * returns its lines end in, with nothing pending.
   */
  lemma ReadsBackTrimmed(items: seq<Item>)
    requires forall i :: i in items ==> WritableItem(i)
    ensures var cut := PushBlocks("", StreamText(items));
            Frames(cut.blocks) == ReceivedAll(TrimmedAll(items)) && cut.rest == ""
  {
    hide Normalised, Blocks, StreamText;
    NormalisedStream(items);
    StreamBlocks(TrimmedAll(items));
    assert "" + StreamText(items) == StreamText(items);
  }

  // ----- Exactness -----

  /** The lines of a text end in a carriage return somewhere iff the text has a CRLF or ends in one. */
  lemma {:induction false} JoinedCr(parts: seq<string>)
    requires |parts| >= 1
    requires forall p :: p in parts ==> '\n' !in p
    ensures (exists i :: 0 <= i < |parts| && EndsInCr(parts[i]))
            <==> HasCrLf(Join(parts, "\n")) || EndsInCr(Join(parts, "\n"))
  {
    hide Join;
    var head := parts[0];
    assert head in parts;
    if |parts| == 1 {
      assert parts == [head];
      JoinOne(head, "\n");
      forall i: nat ensures !CrLfAt(head, i) { assert i + 1 < |head| ==> head[i + 1] in head; }
    } else {
      assert forall p :: p in parts[1..] ==> p in parts;
      JoinedCr(parts[1..]);
      JoinStep(parts, "\n");
      CrBehindLine(head, Join(parts[1..], "\n"));
      if exists i :: 0 <= i < |parts| && EndsInCr(parts[i]) {
        var i :| 0 <= i < |parts| && EndsInCr(parts[i]);
        if i > 0 { assert EndsInCr(parts[1..][i - 1]); }
      }
      if exists i :: 0 <= i < |parts[1..]| && EndsInCr(parts[1..][i]) {
        var i :| 0 <= i < |parts[1..]| && EndsInCr(parts[1..][i]);
        assert EndsInCr(parts[i + 1]);
      }
    }
  }

  lemma CrBehindLine(head: string, tail: string)
    requires '\n' !in head
    ensures var s := head + "\n" + tail;
            HasCrLf(s) || EndsInCr(s) <==> EndsInCr(head) || HasCrLf(tail) || EndsInCr(tail)
  {
    var s := head + "\n" + tail;
    if HasCrLf(s) {
      var i: nat :| CrLfAt(s, i);
      if i > |head| { assert CrLfAt(tail, i - |head| - 1); }
    }
    if EndsInCr(head) { assert CrLfAt(s, |head| - 1); }
    if HasCrLf(tail) {
      var i: nat :| CrLfAt(tail, i);
      assert CrLfAt(s, i + |head| + 1);
    }
  }

  lemma TrimmedDataSame(data: string)
    ensures Join(StripAll(Split(data, '\n')), "\n") == data <==> !HasCrLf(data) && !EndsInCr(data)
  {
    hide Join, Split, HasCrLf, StripAll;
    var parts := Split(data, '\n');
    JoinSplit(data, '\n');
    JoinedCr(parts);
    TrimmedDataSplits(data);
    if forall i :: 0 <= i < |parts| ==> !EndsInCr(parts[i]) {
      assert StripAll(parts) == parts;
    } else {
      var i :| 0 <= i < |parts| && EndsInCr(parts[i]);
      assert StripAll(parts)[i] != parts[i];
    }
  }

  /** A frame is received unchanged iff it is faithful. */
  lemma TrimmedSame(frame: SseFrame)
    requires Writable(frame)
    ensures Received(Trimmed(frame)) == Received(frame) <==> Faithful(frame)
  {
    hide Join, Split, StripAll, HasCrLf;
    TrimmedDataSame(frame.data);
  }

  lemma {:induction false} TrimmedAllSame(items: seq<Item>)
    requires forall i :: i in items ==> WritableItem(i)
    ensures ReceivedAll(TrimmedAll(items)) == ReceivedAll(items) <==> forall i :: i in items ==> FaithfulItem(i)
    ensures |ReceivedAll(TrimmedAll(items))| == |ReceivedAll(items)|
  {
    hide Trimmed, Faithful, Received, Writable;
    if items != [] {
      assert items[0] in items && forall i :: i in items[1..] ==> i in items;
      assert forall i :: i in items ==> i == items[0] || i in items[1..];
      TrimmedAllSame(items[1..]);
      assert TrimmedAll(items)[1..] == TrimmedAll(items[1..]);
      var a, b := ReceivedAll(TrimmedAll(items)), ReceivedAll(items);
      match items[0]
      case Heartbeat =>
        assert a == ReceivedAll(TrimmedAll(items[1..])) && b == ReceivedAll(items[1..]);
      case Message(frame) =>
        TrimmedSame(frame);
        assert a[0] == Received(Trimmed(frame)) && b[0] == Received(frame);
        assert a[1..] == ReceivedAll(TrimmedAll(items[1..])) && b[1..] == ReceivedAll(items[1..]);
    }
  }

  predicate PlainFields(fields: Fields) { OneLine(fields.id) && OneLine(fields.event) }

  lemma {:induction false} ReadLinesPlain(fields: Fields, lines: seq<string>)
    requires PlainFields(fields)
    requires forall l :: l in lines ==> '\n' !in l
    ensures PlainFields(ReadLines(fields, lines))
    decreases lines
  {
    hide ToNumber, FirstIndex;
    if lines != [] {
      assert lines[0] in lines && forall l :: l in lines[1..] ==> l in lines;
      assert '\n' !in ValueOf(lines[0]);
      ReadLinesPlain(ReadLine(fields, lines[0]), lines[1..]);
    }
  }

  /** No parsed frame has a line feed in its id or event. */
  lemma {:induction false} FramesPlain(blocks: seq<string>)
    ensures forall f :: f in Frames(blocks) ==> OneLine(f.id) && OneLine(f.event)
  {
    hide Split, ReadLines, OneLine;
    if blocks != [] {
      JoinSplit(blocks[0], '\n');
      assert PlainFields(NoFields) by { PlainNoFields(); }
      ReadLinesPlain(NoFields, Split(blocks[0], '\n'));
      FramesPlain(blocks[1..]);
    }
  }

  lemma PlainNoFields()
    ensures PlainFields(NoFields)
  {
  }

  lemma {:induction false} ReceivedHas(items: seq<Item>, item: Item)
    requires item in items && item.Message?
    ensures Received(item.frame) in ReceivedAll(items)
  {
    if items[0] != item { ReceivedHas(items[1..], item); }
  }

  lemma {:induction false} NormalisedLoses(s: string)
    requires HasCrLf(s)
    ensures |Normalised(s)| < |s|
  {
    hide Normalised;
    var i: nat :| CrLfAt(s, i);
    NormalisedStep(s);
    if !CrLfAt(s, 0) {
      assert CrLfAt(s[1..], i - 1);
      NormalisedLoses(s[1..]);
    }
  }

  /** The text of faithful items has no CRLF at all. */
  lemma {:induction false} FaithfulText(items: seq<Item>)
    requires forall i :: i in items ==> FaithfulItem(i)
    ensures forall i :: i in items ==> WritableItem(i)
    ensures Normalised(StreamText(items)) == StreamText(items) && !HasCrLf(StreamText(items))
  {
    hide Normalised, HasCrLf, ItemText, Trimmed;
    if items == [] {
      NormalisedStep("");
      assert StreamText(items) == "";
    } else {
      assert items[0] in items && forall i :: i in items[1..] ==> i in items;
      FaithfulText(items[1..]);
      NormalisedItem(items[0]);
      FaithfulItemText(items[0]);
      NormalisedAppend(ItemText(items[0]), StreamText(items[1..]));
    }
    if HasCrLf(StreamText(items)) { NormalisedLoses(StreamText(items)); }
  }

  lemma FaithfulItemText(item: Item)
    requires FaithfulItem(item)
    ensures ItemText(TrimmedItem(item)) == ItemText(item)
  {
    hide Join, Split, StripAll, HasCrLf, Header;
    if item.Message? { TrimmedDataSame(item.frame.data); }
  }

  /** The parser's output for a stream, however it arrived, is the stream's own frames. */
  ghost predicate ReadsBack(items: seq<Item>, chunks: seq<string>)
  {
    var cut := PushAll("", chunks);
    Frames(cut.blocks) == ReceivedAll(items) && cut.rest == ""
  }

  lemma PushWhole(s: string)
    ensures PushAll("", [s]) == PushBlocks("", s) && Concat([s]) == s
  {
    hide PushBlocks;
    assert [s][1..] == [];
    var c := PushBlocks("", s);
    assert c.blocks + [] == c.blocks;
  }

  /** Faithful items come back unchanged, wherever the network cuts the stream. */
  lemma FaithfulReadsBack(items: seq<Item>, chunks: seq<string>)
    requires forall i :: i in items ==> FaithfulItem(i)
    requires Concat(chunks) == StreamText(items)
    ensures ReadsBack(items, chunks)
  {
    hide PushAll, PushBlocks, StreamText, Normalised, FaithfulItem, WritableItem;
    var text := StreamText(items);
    FaithfulText(items);
    assert !HasCrCrLf(text) by {
      forall i: nat ensures !CrCrLfAt(text, i) { assert !CrLfAt(text, i + 1); }
    }
    ChunkInvariant(text, chunks);
    ReadsBackTrimmed(items);
    TrimmedAllSame(items);
  }

  /**
   * The exact condition: a stream of frames and heartbeats is read back with equal id, event, retry
   * and data, in order and with nothing pending, for every cut into chunks, if and only if every
   * frame is faithful.
   */
  lemma RoundTripExactly(items: seq<Item>)
    ensures (forall chunks :: Concat(chunks) == StreamText(items) ==> ReadsBack(items, chunks))
            <==> forall i :: i in items ==> FaithfulItem(i)
  {
    hide PushAll, PushBlocks, StreamText, Normalised, ReadsBack, FaithfulItem, WritableItem;
    if forall i :: i in items ==> FaithfulItem(i) {
      forall chunks | Concat(chunks) == StreamText(items) ensures ReadsBack(items, chunks) {
        FaithfulReadsBack(items, chunks);
      }
    } else {
      PushWhole(StreamText(items));
      UnfaithfulLoses(items);
    }
  }

  lemma UnfaithfulLoses(items: seq<Item>)
    requires exists i :: i in items && !FaithfulItem(i)
    ensures !ReadsBack(items, [StreamText(items)])
  {
    hide PushAll, PushBlocks, StreamText, Normalised, Faithful;
    PushWhole(StreamText(items));
    var cut := PushBlocks("", StreamText(items));
    if forall i :: i in items ==> WritableItem(i) {
      ReadsBackTrimmed(items);
      TrimmedAllSame(items);
    } else {
      var bad :| bad in items && !WritableItem(bad);
      ReceivedHas(items, bad);
      FramesPlain(cut.blocks);
    }
  }

  // ----- Frames that depend on the cut -----

  lemma NoColonLine(block: string)
    requires block != "" && '\n' !in block && ':' !in block
    ensures Parsed(block) == Frame(AfterField(NoFields, block, ""))
  {
    hide Split, ReadLines, ToNumber;
    SplitWhole(block, '\n');
    ReadOne(NoFields, block);
    assert block[0] in block;
    assert block[..|block|] == block;
  }

  lemma OneBlockText(block: string)
    requires LineText(block)
    ensures Blocks(block + "\n\n") == Cut([block], "")
    ensures Frames([block]) == match Parsed(block) case None => [] case Some(f) => [f]
  {
    hide Blocks, Parsed;
    JoinOne(block, "\n");
    OneBlock([block]);
    FramesOfFirst(block, []);
    assert [block] + [] == [block];
  }

  /**
   * Without the condition the frames themselves can differ: this stream gives no frame in one push,
   * and a frame with an empty id when it is cut behind the CRLF.
   */
  lemma FramesDependOnTheCut()
    ensures var whole, first, second := "id\r\r\n\n", "id\r\r\n", "\n";
            && whole == first + second
            && Frames(PushBlocks("", whole).blocks) == []
            && var c := PushBlocks("", first);
               c == Cut([], "id\r\n")
               && Frames(PushBlocks(c.rest, second).blocks) == [ParsedFrame(Some(""), None, "", None)]
  {
    hide PushBlocks;
    HeldWhole();
    HeldFirst();
    HeldThen();
  }

  /** In one push the line keeps a carriage return and is no field the format knows. */
  lemma HeldWhole()
    ensures Frames(PushBlocks("", "id\r\r\n\n").blocks) == []
  {
    hide Parsed, Blocks, Normalised;
    var s := "id\r\r\n\n";
    assert s == "id\r" + ("\r\n" + "\n") && "" + s == s;
    NormalisedFixes("id\r");
    NormalisedFixes("\n");
    NormalisedCons('\r', "\n\n");
    assert ['\r'] + "\n\n" == "\r\n" + "\n" && "\n\n"[1..] == "\n";
    NormalisedAppend("id\r", "\r\n" + "\n");
    assert Normalised(s) == "id\r" + "\n\n";
    OneBlockText("id\r");
    NoColonLine("id\r");
  }

  /** Cut behind the CRLF, the first push completes nothing. */
  lemma HeldFirst()
    ensures PushBlocks("", "id\r\r\n") == Cut([], "id\r\n")
  {
    hide Blocks, Normalised, Boundary;
    var s := "id\r\r\n";
    assert s == "id\r" + "\r\n" && "" + s == s;
    NormalisedFixes("id\r");
    NormalisedCons('\r', "\n");
    assert ['\r'] + "\n" == "\r\n" && "\n"[1..] == "";
    NormalisedCons('\n', "");
    NormalisedAppend("id\r", "\r\n");
    assert Normalised(s) == "id\r\n";
    forall j: nat ensures !BlankAt("id\r\n", j) { }
    BlocksStep("id\r\n");
  }

  /** And the second push takes the carriage return away: the line is the field `id`. */
  lemma HeldThen()
    ensures Frames(PushBlocks("id\r\n", "\n").blocks) == [ParsedFrame(Some(""), None, "", None)]
  {
    hide Parsed, Blocks, Normalised;
    var s := "id\r\n" + "\n";
    assert s == "id" + ("\r\n" + "\n");
    NormalisedFixes("id");
    NormalisedFixes("\n");
    NormalisedCons('\r', "\n\n");
    assert ['\r'] + "\n\n" == "\r\n" + "\n" && "\n\n"[1..] == "\n";
    NormalisedAppend("id", "\r\n" + "\n");
    assert Normalised(s) == "id" + "\n\n";
    OneBlockText("id");
    NoColonLine("id");
  }
}
