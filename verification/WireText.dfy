/**
 * The wire format, letter by letter: the text of a frame, and what the parser makes of any line
 * (packages/realtime/src/wire.ts:22-70, 121-172).
 */
module WireText {
  import opened Options
  import opened Text
  import opened JsNumber
  import opened Wire
  import opened RoundTrip
  import opened EventStream
  import opened RealtimeClient
  import opened GapFreedom

  // ----- What is written -----

  function Prefixed(name: string, value: Option<string>): string
  {
    match value case None => "" case Some(v) => name + v + "\n"
  }

  lemma HeaderText(frame: SseFrame, rest: seq<string>)
    requires rest != []
    ensures Join(Header(frame) + rest, "\n")
            == Prefixed("id: ", frame.id) + Prefixed("event: ", frame.event)
               + Prefixed("retry: ", if frame.retry.Some? then Some(ShowInt(frame.retry.value)) else None) + Join(rest, "\n")
  {
    hide Join, ShowInt, OptionalField, Prefixed;
    var retry := ShowRetry(frame.retry);
    var third := OptionalField("retry", retry) + rest;
    var second := OptionalField("event", frame.event) + third;
    OptionalText("retry", retry, rest);
    OptionalText("event", frame.event, third);
    OptionalText("id", frame.id, second);
    Regroup(OptionalField("id", frame.id), OptionalField("event", frame.event), OptionalField("retry", retry), rest);
    Associates(Prefixed("id: ", frame.id), Prefixed("event: ", frame.event), Prefixed("retry: ", retry), Join(rest, "\n"));
    assert "id" + ": " == "id: " && "event" + ": " == "event: " && "retry" + ": " == "retry: ";
  }

  lemma Regroup(a: seq<string>, b: seq<string>, c: seq<string>, d: seq<string>)
    ensures a + b + c + d == a + (b + (c + d))
  {
  }

  lemma Associates(a: string, b: string, c: string, d: string)
    ensures a + (b + (c + d)) == a + b + c + d
  {
  }

  lemma OptionalText(name: string, value: Option<string>, rest: seq<string>)
    requires rest != []
    ensures Join(OptionalField(name, value) + rest, "\n") == Prefixed(name + ": ", value) + Join(rest, "\n")
  {
    hide Join;
    var lines := OptionalField(name, value) + rest;
    if value.None? {
      assert lines == rest;
    } else {
      JoinStep(lines, "\n");
      assert lines[1..] == rest;
      assert Field(name, value.value) + "\n" == name + ": " + value.value + "\n";
    }
  }

  /** A frame with one line of data: `id`, `event` and `retry` as far as it has them, the data, and a blank line. */
  lemma EncodedText(frame: SseFrame)
    requires '\n' !in frame.data
    ensures Encoded(frame)
            == Prefixed("id: ", frame.id) + Prefixed("event: ", frame.event)
               + Prefixed("retry: ", if frame.retry.Some? then Some(ShowInt(frame.retry.value)) else None)
               + "data: " + frame.data + "\n\n"
  {
    hide Join, ShowInt, Header;
    SplitWhole(frame.data, '\n');
    OneDataLine(frame.data);
    HeaderText(frame, ["data: " + frame.data]);
    JoinOne("data: " + frame.data, "\n");
  }

  lemma OneDataLine(data: string)
    ensures DataLines([data]) == ["data: " + data]
  {
    DataLast([], data);
    assert [] + [data] == [data] && Field("data", data) == "data: " + data;
  }

  /** Every further line of the data has a line of its own. */
  lemma {:induction false} DataLinesText(parts: seq<string>)
    ensures forall i :: 0 <= i < |parts| ==> DataLines(parts)[i] == "data: " + parts[i]
  {
    hide DataLines, Field;
    if parts != [] {
      var n := |parts| - 1;
      DataLinesText(parts[..n]);
      DataLast(parts[..n], parts[n]);
      assert parts == parts[..n] + [parts[n]];
      assert Field("data", parts[n]) == "data: " + parts[n] by { DataField(parts[n]); }
    }
  }

  lemma DataField(value: string)
    ensures Field("data", value) == "data: " + value
  {
  }

  /** What the server writes for an event, an expired cursor and a heartbeat. */
  lemma ServerText(codec: Codec, e: Envelope, reason: string)
    requires Json(codec)
    ensures ItemText(ItemOf(codec, Event(e))) == "id: " + e.eventId + "\n" + "event: " + e.eventType + "\n" + "data: " + codec.write(e) + "\n\n"
    ensures ItemText(ItemOf(codec, Expired(reason))) == "event: replay.expired\n" + "data: " + codec.writeReason(reason) + "\n\n"
    ensures ItemText(ItemOf(codec, Beat)) == ": heartbeat\n\n"
  {
    hide Encoded, Prefixed;
    var data := codec.write(e);
    EncodedText(SseFrame(Some(e.eventId), Some(e.eventType), data, None));
    EncodedText(SseFrame(None, Some("replay.expired"), codec.writeReason(reason), None));
    PrefixedIs("id: ", e.eventId);
    PrefixedIs("event: ", e.eventType);
    PrefixedIs("event: ", "replay.expired");
    PrefixedIs("retry: ", "");
    assert "event: " + "replay.expired" + "\n" == "event: replay.expired\n";
    var a, b := "id: " + e.eventId + "\n", "event: " + e.eventType + "\n";
    assert a + b + "" == a + b;
    assert "" + "event: replay.expired\n" + "" == "event: replay.expired\n";
    assert a + b == "id: " + e.eventId + "\n" + "event: " + e.eventType + "\n";
  }

  lemma PrefixedIs(name: string, value: string)
    ensures Prefixed(name, Some(value)) == name + value + "\n" && Prefixed(name, None) == ""
  {
  }

  // ----- What is read -----

  /** What a field with this name and value does to the frame being read. */
  ghost predicate Sets(before: Fields, name: string, value: string, after: Fields)
  {
    && (name == "id" ==> after == before.(id := Some(value), saw := true))
    && (name == "event" ==> after == before.(event := Some(value), saw := true))
    && (name == "data" ==> after == before.(data := before.data + [value], saw := true))
    && (name == "retry" && ToNumber(value).Some? ==> after == before.(retry := ToNumber(value), saw := true))
    && (name == "retry" && ToNumber(value).None? ==> after == before.(saw := true))
    && (name != "id" && name != "event" && name != "data" && name != "retry" ==> after == before)
  }

  /**
   * Any line: comments and blank lines change nothing; a line is a field up to its first colon, with the
   * value behind it less one leading space, and a line without a colon is a field with an empty value.
   */
  lemma ReadsAnyLine(fields: Fields, name: string, value: string)
    requires ':' !in name
    ensures ReadLine(fields, ":" + value) == fields && ReadLine(fields, "") == fields
    ensures name != "" ==> Sets(fields, name, value, ReadLine(fields, name + ": " + value))
    ensures name != "" && !(" " <= value) ==> Sets(fields, name, value, ReadLine(fields, name + ":" + value))
    ensures name != "" ==> Sets(fields, name, "", ReadLine(fields, name))
  {
    hide ReadLine, Sets;
    SetsNothing(fields, value);
    if name != "" {
      ReadsSpaced(fields, name, value);
      ReadsTight(fields, name, value);
      FieldIs(name, "");
      assert name + "" == name;
      Reads(fields, name);
    }
  }

  lemma SetsNothing(fields: Fields, value: string)
    ensures ReadLine(fields, ":" + value) == fields && ReadLine(fields, "") == fields
  {
    hide ToNumber, FieldOf, ValueOf;
  }

  lemma ReadsSpaced(fields: Fields, name: string, value: string)
    requires ':' !in name && name != ""
    ensures Sets(fields, name, value, ReadLine(fields, name + ": " + value))
  {
    hide ReadLine, Sets, FieldOf, ValueOf;
    var rest := ": " + value;
    FieldIs(name, rest);
    assert rest[2..] == value;
    assert name + rest == name + ": " + value;
    Reads(fields, name + rest);
  }

  lemma ReadsTight(fields: Fields, name: string, value: string)
    requires ':' !in name && name != ""
    ensures !(" " <= value) ==> Sets(fields, name, value, ReadLine(fields, name + ":" + value))
  {
    hide ReadLine, Sets, FieldOf, ValueOf;
    var rest := ":" + value;
    FieldIs(name, rest);
    assert rest[1..] == value && (value != "" ==> rest[1] == value[0] && (value[0] == ' ' ==> " " <= value));
    assert name + rest == name + ":" + value;
    Reads(fields, name + rest);
  }

  lemma FieldIs(name: string, rest: string)
    requires ':' !in name && name != "" && (rest == "" || rest[0] == ':')
    ensures var line := name + rest;
            && line != "" && line[0] != ':' && FieldOf(line) == name
            && (rest == "" ==> ValueOf(line) == "")
            && (rest != "" ==> ValueOf(line) == if rest[1..] != "" && rest[1] == ' ' then rest[2..] else rest[1..])
  {
    var line := name + rest;
    assert line[0] == name[0] && name[0] in name;
    if rest == "" {
      assert line == name;
    } else {
      assert line[..|name|] == name && line[|name|] == ':';
      FirstIndexAt(line, ':', |name|);
      assert line[|name| + 1..] == rest[1..];
    }
  }

  lemma Reads(fields: Fields, line: string)
    requires line != "" && line[0] != ':'
    ensures Sets(fields, FieldOf(line), ValueOf(line), ReadLine(fields, line))
  {
    hide ToNumber;
  }

  /** Every line that is neither blank nor a comment is of one of these forms. */
  lemma EveryLine(line: string) returns (name: string, value: string)
    requires line != "" && line[0] != ':'
    ensures name != "" && ':' !in name
    ensures line == name || line == name + ":" + value
  {
    var k := FirstIndex(line, ':');
    name := line[..k];
    value := if k < |line| then line[k + 1..] else "";
    if k < |line| { assert line == line[..k] + ":" + line[k + 1..]; } else { assert line[..k] == line; }
  }
}
