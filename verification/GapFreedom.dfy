/**
 * A whole run of the client against the server over a network that may cut any connection at any
 * character: every published event behind the starting cursor is delivered in log order, none is
 * skipped and none is repeated once its handler has returned
 * (packages/realtime/src/client.ts:104-193, packages/realtime/src/wire.ts:87-119,
 * packages/persistence/src/relay/event-stream.ts:66-137, apps/events/src/stream/stream-writer.ts:45-95).
 */
module GapFreedom {
  import opened Options
  import opened JsNumber
  import opened Backoff
  import opened Text
  import opened Wire
  import opened ChunkInvariance
  import opened RoundTrip
  import opened EventStream
  import opened RealtimeClient

  // ----- Assumptions about the environment -----

  predicate PlainText(s: string) { '\n' !in s && '\r' !in s }

  /** JSON text is never empty, holds no raw line ending (RFC 8259, section 7), and is read back as written. */
  ghost predicate Json(codec: Codec)
  {
    && (forall e :: codec.read(codec.write(e)) == Some(e) && codec.write(e) != "" && PlainText(codec.write(e)))
    && (forall r :: codec.readReason(codec.writeReason(r)) == r && PlainText(codec.writeReason(r)))
  }

  /** Ids and event types are plain text, and no event is called like the expiry notice. */
  predicate Sendable(e: Envelope)
  {
    PlainText(e.eventId) && PlainText(e.eventType) && e.eventType != REPLAY_EXPIRED_EVENT
  }

  ghost predicate SendableLog(log: seq<Row>)
  {
    && ValidLog(log)
    && (forall i :: 0 <= i < |log| && log[i].published.Some? ==> Sendable(log[i].published.value))
  }

  // ----- What the server writes -----

  /** `encodeEvent`, `encodeReplayExpired` and `encodeHeartbeat`. */
  function ItemOf(codec: Codec, sent: Sent): Item
  {
    match sent
    case Beat => Heartbeat
    case Event(e) => Message(SseFrame(Some(e.eventId), Some(e.eventType), codec.write(e), None))
    case Expired(reason) => Message(SseFrame(None, Some(REPLAY_EXPIRED_EVENT), codec.writeReason(reason), None))
  }

  function ItemsOf(codec: Codec, sent: seq<Sent>): (items: seq<Item>)
    ensures |items| == |sent|
  {
    if sent == [] then [] else [ItemOf(codec, sent[0])] + ItemsOf(codec, sent[1..])
  }

  /**
   * What a connection opened at `at` delivers: chunks that together are some beginning of what the
   * server streams over some script of polls, none of them before the opening.
   */
  ghost predicate Delivers(codec: Codec, log: seq<Row>, cursor: Option<string>, at: int, chunks: seq<string>)
  {
    exists polls, heartbeatMs :: Answers(codec, log, cursor, at, polls, heartbeatMs, chunks)
  }

  ghost predicate Answers(codec: Codec, log: seq<Row>, cursor: Option<string>, at: int, polls: seq<Poll>, heartbeatMs: int,
                          chunks: seq<string>)
  {
    PollsOf(log, polls) && NotBefore(at, polls)
    && Concat(chunks) <= StreamText(ItemsOf(codec, Streamed(cursor, at, polls, heartbeatMs)))
  }

  /** Every connection of the run is answered by the server for the cursor the client then sends. */
  ghost predicate Served(codec: Codec, policy: Policy, log: seq<Row>, cursor: Option<string>, hint: Option<Decimal>,
                         attempts: nat, script: seq<Round>)
    decreases script
  {
    script == [] || script[0].abortedBefore ||
    var round := script[0];
    var a := Attempted(codec, cursor, hint, round.reply, round.outcome);
    && (round.reply.Body? ==> Delivers(codec, log, cursor, round.at, round.reply.chunks))
    && Served(codec, policy, log, a.cursor, a.hint, attempts + 1, script[1..])
  }

  // ----- What the handlers see -----

  /**
   * The calls work through `log` from position `from` to position `to`: each delivery is of the next
   * event, and only a delivery whose handler returned moves on.
   */
  predicate Follows(calls: seq<Call>, log: seq<Envelope>, from: nat, to: nat)
    decreases calls
  {
    if calls == [] then from == to
    else
      match calls[0]
      case Delivered(e, completed) =>
        from < |log| && log[from] == e && Follows(calls[1..], log, if completed then from + 1 else from, to)
      case _ => Follows(calls[1..], log, from, to)
  }

  /** The events whose handler returned. */
  function Completed(calls: seq<Call>): seq<Envelope>
  {
    if calls == [] then []
    else (if calls[0].Delivered? && calls[0].completed then [calls[0].envelope] else []) + Completed(calls[1..])
  }

  /** The position in the published log behind a cursor. */
  function Position(log: seq<Row>, cursor: Option<string>): nat { |Published(log[..Start(log, cursor)])| }

  /** The cursor names the last completed event of the stretch, or has not moved. */
  predicate CursorAt(log: seq<Envelope>, cursor: Option<string>, before: Option<string>, from: nat, to: nat)
  {
    from <= to <= |log| && cursor == if to == from then before else Some(log[to - 1].eventId)
  }

  lemma {:induction false} FollowsAppend(a: seq<Call>, b: seq<Call>, log: seq<Envelope>, from: nat, mid: nat, to: nat)
    requires Follows(a, log, from, mid) && Follows(b, log, mid, to)
    ensures Follows(a + b, log, from, to)
    decreases a
  {
    if a == [] {
      assert a + b == b;
    } else {
      var next := if a[0].Delivered? && a[0].completed then from + 1 else from;
      FollowsAppend(a[1..], b, log, next, mid, to);
      assert (a + b)[0] == a[0] && (a + b)[1..] == a[1..] + b;
    }
  }

  /** What following means for the completed events: exactly that stretch of the log. */
  lemma {:induction false} FollowsCompletes(calls: seq<Call>, log: seq<Envelope>, from: nat, to: nat)
    requires Follows(calls, log, from, to) && from <= |log|
    ensures from <= to <= |log| && Completed(calls) == log[from..to]
    decreases calls
  {
    if calls != [] {
      var next := if calls[0].Delivered? && calls[0].completed then from + 1 else from;
      FollowsCompletes(calls[1..], log, next, to);
      if next > from { assert log[from..to] == [log[from]] + log[next..to]; }
    }
  }

  // ----- Torn streams -----

  lemma NoCrLfIn(s: string)
    requires '\r' !in s
    ensures !HasCrLf(s)
  {
  }

  lemma ItemIsFaithful(codec: Codec, sent: Sent)
    requires Json(codec) && (sent.Event? ==> Sendable(sent.envelope))
    ensures FaithfulItem(ItemOf(codec, sent))
  {
    match sent
    case Beat =>
    case Event(e) => NoCrLfIn(codec.write(e));
    case Expired(reason) => NoCrLfIn(codec.writeReason(reason)); assert PlainText(REPLAY_EXPIRED_EVENT);
  }

  lemma {:induction false} ItemsAreFaithful(codec: Codec, sent: seq<Sent>)
    requires Json(codec)
    requires forall i :: 0 <= i < |sent| && sent[i].Event? ==> Sendable(sent[i].envelope)
    ensures forall i :: i in ItemsOf(codec, sent) ==> FaithfulItem(i)
  {
    hide Json, FaithfulItem, ItemOf;
    if sent != [] {
      ItemIsFaithful(codec, sent[0]);
      ItemsAreFaithful(codec, sent[1..]);
    }
  }

  /** A beginning of an item that stops short of its end completes no block. */
  lemma TornItem(item: Item, part: string)
    requires WritableItem(item)
    requires part <= ItemText(item) && part != ItemText(item)
    ensures Blocks(part) == Cut([], part)
  {
    hide ItemText, ItemBlock, Blocks, Boundary, Parsed;
    ItemIsOneBlock(item);
    forall j: nat ensures !BlankAt(part, j) {
      if j + 1 < |part| { assert part[j] == ItemText(item)[j] && !BlankAt(ItemText(item), j); }
    }
    BlocksStep(part);
  }

  lemma StreamCons(items: seq<Item>)
    ensures StreamText(items) == if items == [] then "" else ItemText(items[0]) + StreamText(items[1..])
    ensures items != [] ==> ReceivedAll(items) == ItemFrames(items[0]) + ReceivedAll(items[1..])
  {
    hide ItemText;
  }

  lemma NothingReceived()
    ensures ReceivedAll([]) == [] && Frames([]) == []
  {
  }

  /** Any beginning of a stream parses to the frames of its first so many items. */
  lemma {:induction false} TornBlocks(items: seq<Item>, part: string) returns (k: nat)
    requires forall i :: i in items ==> WritableItem(i)
    requires part <= StreamText(items)
    ensures k <= |items| && Frames(Blocks(part).blocks) == ReceivedAll(items[..k])
  {
    hide Blocks, Boundary, Parsed, ItemText, ItemBlock, WritableItem, StreamText, ReceivedAll, Frames;
    StreamCons(items);
    NothingReceived();
    if items == [] {
      EmptyHasNoBoundary();
      BlocksStep("");
      return 0;
    }
    var head, tail := ItemText(items[0]), StreamText(items[1..]);
    assert items[0] in items && forall i :: i in items[1..] ==> i in items;
    assert items[..0] == [];
    if |part| < |head| {
      TornItem(items[0], part);
      return 0;
    }
    var rest := part[|head|..];
    assert part == head + rest && rest <= tail;
    var m := TornBlocks(items[1..], rest);
    ItemIsOneBlock(items[0]);
    BlocksAppend(head, rest);
    assert "" + rest == rest;
    FramesOfFirst(ItemBlock(items[0]), Blocks(rest).blocks);
    k := m + 1;
    StreamCons(items[..k]);
    assert items[..k][0] == items[0] && items[..k][1..] == items[1..][..m];
  }

  lemma PrefixHasNoCrLf(part: string, whole: string)
    requires part <= whole && !HasCrLf(whole)
    ensures !HasCrLf(part) && !HasCrCrLf(part)
  {
    forall i: nat ensures !CrLfAt(part, i) { assert !CrLfAt(whole, i); }
    forall i: nat ensures !CrCrLfAt(part, i) { assert !CrLfAt(whole, i + 1); }
  }

  /**
   * A connection that breaks anywhere and arrives in any chunks yields the frames of the first so
   * many things the server sent, and never a frame made of a torn one.
   */
  lemma TornStream(items: seq<Item>, chunks: seq<string>) returns (k: nat)
    requires forall i :: i in items ==> FaithfulItem(i)
    requires Concat(chunks) <= StreamText(items)
    ensures k <= |items| && Frames(PushAll("", chunks).blocks) == ReceivedAll(items[..k])
  {
    hide PushAll, Blocks, Normalised, HasCrLf, HasCrCrLf, FaithfulItem, WritableItem, StreamText;
    var part := Concat(chunks);
    FaithfulText(items);
    PrefixHasNoCrLf(part, StreamText(items));
    ChunkInvariant(part, chunks);
    NormalisedFixes(part);
    assert "" + part == part;
    k := TornBlocks(items, part);
  }

  // ----- One connection -----

  /** The step for one thing the server sent: nothing, a call, or a delivery of the event. */
  lemma OnSent(codec: Codec, outcome: nat -> Outcome, p: Progress, sent: Sent)
    requires Json(codec) && p.thrown.None? && (sent.Event? ==> Sendable(sent.envelope))
    ensures var q := OnFrames(codec, outcome, p, ItemFrames(ItemOf(codec, sent)));
            && (sent.Beat? ==> q == p)
            && (sent.Expired? ==>
                  && q.cursor == p.cursor && q.calls == p.calls + [ProjectionRequired(sent.reason)]
                  && q.thrown.None? == outcome(|p.calls|).Returns?)
            && (sent.Event? ==>
                  var done := outcome(|p.calls|).Returns?;
                  && q.calls == p.calls + [Delivered(sent.envelope, done)]
                  && q.cursor == (if done then Some(sent.envelope.eventId) else p.cursor)
                  && q.thrown.None? == done)
  {
    var frames := ItemFrames(ItemOf(codec, sent));
    if sent != Beat {
      assert frames[1..] == [];
      assert OnFrames(codec, outcome, p, frames) == OnFrame(codec, outcome, p, frames[0]);
    }
  }

  /** One thing the server sent follows the log by itself. */
  lemma HandlesOne(codec: Codec, outcome: nat -> Outcome, p: Progress, sent: Sent, log: seq<Envelope>, from: nat)
    returns (call: seq<Call>, to: nat)
    requires Json(codec) && p.thrown.None? && (sent.Event? ==> Sendable(sent.envelope))
    requires from + |EventOf(sent)| <= |log| && EventOf(sent) == log[from..from + |EventOf(sent)|]
    ensures var q := OnFrames(codec, outcome, p, ItemFrames(ItemOf(codec, sent)));
            && q.calls == p.calls + call && Follows(call, log, from, to) && CursorAt(log, q.cursor, p.cursor, from, to)
            && to <= from + |EventOf(sent)| && (q.thrown.None? ==> to == from + |EventOf(sent)|)
  {
    hide Json, OnFrame, OnFrames, ItemOf, Sendable;
    OnSent(codec, outcome, p, sent);
    match sent
    case Beat => call, to := [], from;
    case Expired(reason) =>
      call, to := [ProjectionRequired(reason)], from;
      assert call[1..] == [];
    case Event(e) =>
      var done := outcome(|p.calls|).Returns?;
      call, to := [Delivered(e, done)], if done then from + 1 else from;
      assert log[from] == e && call[1..] == [];
  }

  lemma CursorAtStep(log: seq<Envelope>, a: Option<string>, b: Option<string>, c: Option<string>, from: nat, mid: nat, to: nat)
    requires CursorAt(log, b, a, from, mid) && CursorAt(log, c, b, mid, to)
    ensures CursorAt(log, c, a, from, to)
  {
  }

  lemma ReceivedCons(codec: Codec, sent: seq<Sent>)
    requires sent != []
    ensures ReceivedAll(ItemsOf(codec, sent)) == ItemFrames(ItemOf(codec, sent[0])) + ReceivedAll(ItemsOf(codec, sent[1..]))
  {
    hide ItemOf;
    assert ItemsOf(codec, sent)[1..] == ItemsOf(codec, sent[1..]);
  }

  lemma NoneReceived(codec: Codec)
    ensures ReceivedAll(ItemsOf(codec, [])) == []
  {
  }

  lemma Slices(log: seq<Envelope>, from: nat, a: seq<Envelope>, b: seq<Envelope>)
    requires from + |a| + |b| <= |log| && log[from..from + |a| + |b|] == a + b
    ensures log[from..from + |a|] == a && log[from + |a|..from + |a| + |b|] == b
  {
    var s := log[from..from + |a| + |b|];
    assert log[from..from + |a|] == s[..|a|] && log[from + |a|..from + |a| + |b|] == s[|a|..];
  }

  /** Working through what the server sent, or the part of it that arrived, follows the log. */
  lemma {:induction false} HandlesInOrder(codec: Codec, outcome: nat -> Outcome, p: Progress, sent: seq<Sent>,
                                          log: seq<Envelope>, from: nat) returns (added: seq<Call>, to: nat)
    requires Json(codec) && p.thrown.None?
    requires forall i :: 0 <= i < |sent| && sent[i].Event? ==> Sendable(sent[i].envelope)
    requires from + |Events(sent)| <= |log| && Events(sent) == log[from..from + |Events(sent)|]
    ensures var q := OnFrames(codec, outcome, p, ReceivedAll(ItemsOf(codec, sent)));
            && q.calls == p.calls + added && Follows(added, log, from, to) && CursorAt(log, q.cursor, p.cursor, from, to)
    decreases sent
  {
    hide Json, OnFrame, OnFrames, ItemOf, ItemsOf, ReceivedAll, Sendable, Events, EventOf, Follows, CursorAt;
    if sent == [] {
      NoneReceived(codec);
      NoFrames(codec, outcome, p);
      NothingFollows(log, p.cursor, from);
      return [], from;
    }
    var first, rest := sent[0], sent[1..];
    assert sent == [first] + rest;
    EventsCons(first, rest);
    Slices(log, from, EventOf(first), Events(rest));
    var frames, later := ItemFrames(ItemOf(codec, first)), ReceivedAll(ItemsOf(codec, rest));
    ReceivedCons(codec, sent);
    OnFramesAppend(codec, outcome, p, frames, later);
    var call, mid := HandlesOne(codec, outcome, p, first, log, from);
    var q := OnFrames(codec, outcome, p, frames);
    if q.thrown.Some? {
      ThrownStays(codec, outcome, q, later);
      return call, mid;
    }
    var more, end := HandlesInOrder(codec, outcome, q, rest, log, mid);
    FollowsAppend(call, more, log, from, mid, end);
    CursorAtStep(log, p.cursor, q.cursor, OnFrames(codec, outcome, q, later).cursor, from, mid, end);
    added, to := call + more, end;
  }

  lemma NothingFollows(log: seq<Envelope>, cursor: Option<string>, from: nat)
    requires from <= |log|
    ensures Follows([], log, from, from) && CursorAt(log, cursor, cursor, from, from)
  {
  }

  // ----- Positions in the published log -----

  lemma {:induction false} PublishedRowOf(log: seq<Row>, i: nat) returns (r: nat)
    requires i < |Published(log)|
    ensures r < |log| && log[r].mine && log[r].published == Some(Published(log)[i])
    ensures |Published(log[..r + 1])| == i + 1
  {
    hide Published, PublishedRow;
    PublishedNone();
    var row, rest := log[0], log[1..];
    assert log == [row] + rest;
    PublishedCons(row, rest);
    OneRow(row);
    if i < |PublishedRow(row)| {
      r := 0;
      assert log[..1] == [row];
    } else {
      var k := PublishedRowOf(rest, i - |PublishedRow(row)|);
      r := k + 1;
      assert log[..r + 1] == [row] + rest[..k + 1];
      PublishedCons(row, rest[..k + 1]);
    }
  }

  lemma OneRow(row: Row)
    ensures Published([row]) == PublishedRow(row)
    ensures |PublishedRow(row)| <= 1
    ensures |PublishedRow(row)| == 1 ==> row.mine && row.published == Some(PublishedRow(row)[0])
  {
    assert [row][1..] == [];
  }

  lemma PositionBounded(log: seq<Row>, cursor: Option<string>)
    ensures Position(log, cursor) <= |Published(log)|
  {
    hide Published, Start;
    MoreRows(log, Start(log, cursor), |log|);
    assert log[..|log|] == log;
  }

  /** The cursor of the last completed event stands right behind it. */
  lemma PositionAfter(log: seq<Row>, before: Option<string>, cursor: Option<string>, to: nat)
    requires ValidLog(log) && CursorAt(Published(log), cursor, before, Position(log, before), to)
    ensures Position(log, cursor) == to
  {
    hide Published, Start, ValidLog;
    if to != Position(log, before) {
      var r := PublishedRowOf(log, to - 1);
      PublishedId(log, r);
      StartBehind(log, r);
    }
  }

  lemma {:induction false} EventIn(sent: seq<Sent>, i: nat)
    requires i < |sent| && sent[i].Event?
    ensures sent[i].envelope in Events(sent)
  {
    if i > 0 { EventIn(sent[1..], i - 1); }
  }

  lemma PublishedSendable(log: seq<Row>, e: Envelope)
    requires SendableLog(log) && e in Published(log)
    ensures Sendable(e)
  {
    hide Published, Sendable;
    var i :| 0 <= i < |Published(log)| && Published(log)[i] == e;
    var r := PublishedRowOf(log, i);
  }

  /** What a connection sends is the published log from the cursor's position on. */
  lemma AnswerIsStretch(log: seq<Row>, cursor: Option<string>, at: int, polls: seq<Poll>, heartbeatMs: int)
    requires SendableLog(log) && PollsOf(log, polls)
    ensures var sent := Streamed(cursor, at, polls, heartbeatMs);
            var from := Position(log, cursor);
            && from + |Events(sent)| <= |Published(log)|
            && Events(sent) == Published(log)[from..from + |Events(sent)|]
    ensures var sent := Streamed(cursor, at, polls, heartbeatMs);
            forall i :: 0 <= i < |sent| && sent[i].Event? ==> Sendable(sent[i].envelope)
  {
    hide Published, Events, Sendable, Streamed, Reached, Start, PollsOf, SendableLog;
    var sent := Streamed(cursor, at, polls, heartbeatMs);
    SentIsStretch(log, cursor, at, polls, heartbeatMs);
    var start, end := Start(log, cursor), Start(log, Reached(cursor, polls));
    StretchIn(log, start, end);
    forall i | 0 <= i < |sent| && sent[i].Event? ensures Sendable(sent[i].envelope) {
      EventIn(sent, i);
      PublishedSendable(log, sent[i].envelope);
    }
  }

  lemma StretchIn(log: seq<Row>, start: nat, end: nat)
    requires start <= end <= |log|
    ensures var from, n := |Published(log[..start])|, |Published(log[start..end])|;
            from + n <= |Published(log)| && Published(log[start..end]) == Published(log)[from..from + n]
  {
    hide Published;
    StretchesJoin(log, 0, start, end);
    StretchesJoin(log, 0, end, |log|);
    assert log[0..start] == log[..start] && log[0..|log|] == log;
  }

  lemma {:induction false} ItemsOfPrefix(codec: Codec, sent: seq<Sent>, k: nat)
    requires k <= |sent|
    ensures ItemsOf(codec, sent)[..k] == ItemsOf(codec, sent[..k])
  {
    hide ItemOf;
    if k > 0 {
      ItemsOfPrefix(codec, sent[1..], k - 1);
      assert sent[..k][1..] == sent[1..][..k - 1];
    }
  }

  lemma EventsOfPrefix(sent: seq<Sent>, k: nat, log: seq<Envelope>, from: nat)
    requires k <= |sent|
    requires from + |Events(sent)| <= |log| && Events(sent) == log[from..from + |Events(sent)|]
    ensures var n := |Events(sent[..k])|;
            from + n <= |log| && Events(sent[..k]) == log[from..from + n]
  {
    hide Events;
    EventsAppend(sent[..k], sent[k..]);
    assert sent[..k] + sent[k..] == sent;
    var n := |Events(sent[..k])|;
    assert log[from..from + n] == log[from..from + |Events(sent)|][..n];
  }

  // ----- Runs -----

  /** What arrives over one connection: the frames of a beginning of the server's answer. */
  lemma Arrives(codec: Codec, log: seq<Row>, cursor: Option<string>, at: int, chunks: seq<string>) returns (part: seq<Sent>)
    requires Json(codec) && SendableLog(log) && Delivers(codec, log, cursor, at, chunks)
    ensures Frames(PushAll("", chunks).blocks) == ReceivedAll(ItemsOf(codec, part))
    ensures forall i :: 0 <= i < |part| && part[i].Event? ==> Sendable(part[i].envelope)
    ensures var from, n := Position(log, cursor), |Events(part)|;
            from + n <= |Published(log)| && Events(part) == Published(log)[from..from + n]
    ensures forall now :: now <= at && Stale(log, cursor, now) ==> Events(part) == []
    ensures forall now :: now <= at && OneBatch(log, cursor, now) ==> |Events(part)| <= |Next(log, cursor, now).events|
  {
    hide Json, SendableLog, Published, Events, Position, PushAll, Frames, StreamText, Stale, Next, Sendable, FaithfulItem, ReceivedAll,
         ItemsOf, Streamed, PollsOf;
    var polls, heartbeatMs :| Answers(codec, log, cursor, at, polls, heartbeatMs, chunks);
    var sent := Streamed(cursor, at, polls, heartbeatMs);
    AnswerIsStretch(log, cursor, at, polls, heartbeatMs);
    forall now | now <= at && Stale(log, cursor, now) ensures Events(sent) == [] {
      StaleSendsNothing(log, cursor, at, polls, heartbeatMs, now);
    }
    forall now | now <= at && OneBatch(log, cursor, now) ensures |Events(sent)| <= |Next(log, cursor, now).events| {
      OneBatchSends(log, cursor, at, polls, heartbeatMs, now);
    }
    ItemsAreFaithful(codec, sent);
    var k := TornStream(ItemsOf(codec, sent), chunks);
    ItemsOfPrefix(codec, sent, k);
    EventsOfPrefix(sent, k, Published(log), Position(log, cursor));
    EventsAppend(sent[..k], sent[k..]);
    assert sent[..k] + sent[k..] == sent;
    part := sent[..k];
  }

  /** Handling what arrived, from the opening of the connection on. */
  lemma BodyFollows(codec: Codec, cursor: Option<string>, hint: Option<Decimal>, outcome: nat -> Outcome, part: seq<Sent>,
                    log: seq<Envelope>, from: nat) returns (to: nat)
    requires Json(codec) && forall i :: 0 <= i < |part| && part[i].Event? ==> Sendable(part[i].envelope)
    requires from + |Events(part)| <= |log| && Events(part) == log[from..from + |Events(part)|]
    ensures var p := OnFrames(codec, outcome, Begin(cursor, hint, outcome), ReceivedAll(ItemsOf(codec, part)));
            Follows(p.calls, log, from, to) && CursorAt(log, p.cursor, cursor, from, to)
  {
    hide Json, Events, OnFrames, Follows, CursorAt, Sendable, ReceivedAll, ItemsOf;
    var begin := Begin(cursor, hint, outcome);
    NothingFollows(log, cursor, from);
    if begin.thrown.Some? {
      ThrownStays(codec, outcome, begin, ReceivedAll(ItemsOf(codec, part)));
      OpenedFollows([], log, from, from);
      assert [Opened] + [] == [Opened];
      to := from;
    } else {
      var added, end := HandlesInOrder(codec, outcome, begin, part, log, from);
      OpenedFollows(added, log, from, end);
      to := end;
    }
  }

  /** One attempt works through the log from where the cursor stands. */
  lemma AttemptFollows(codec: Codec, log: seq<Row>, cursor: Option<string>, hint: Option<Decimal>, round: Round) returns (to: nat)
    requires Json(codec) && SendableLog(log)
    requires round.reply.Body? ==> Delivers(codec, log, cursor, round.at, round.reply.chunks)
    ensures var a := Attempted(codec, cursor, hint, round.reply, round.outcome);
            && Follows(a.calls, Published(log), Position(log, cursor), to)
            && CursorAt(Published(log), a.cursor, cursor, Position(log, cursor), to)
  {
    hide Json, SendableLog, Delivers, Published, Events, Position, PushAll, Frames, OnFrames, Follows, CursorAt, Sendable;
    PositionBounded(log, cursor);
    NothingFollows(Published(log), cursor, Position(log, cursor));
    to := Position(log, cursor);
    if round.reply.Body? {
      var part := Arrives(codec, log, cursor, round.at, round.reply.chunks);
      to := BodyFollows(codec, cursor, hint, round.outcome, part, Published(log), Position(log, cursor));
    }
  }

  lemma OpenedFollows(calls: seq<Call>, log: seq<Envelope>, from: nat, to: nat)
    requires Follows(calls, log, from, to)
    ensures Follows([Opened] + calls, log, from, to)
  {
    assert ([Opened] + calls)[1..] == calls;
  }

  /**
   * Over every run, whatever the network, the handlers and the abort signal do: the deliveries work
   * through the published log in order from the starting cursor's position, each repeated until its
   * handler returns and none skipped, and the cursor is the id of the last completed event.
   */
  lemma {:induction false} RunFollows(codec: Codec, policy: Policy, log: seq<Row>, cursor: Option<string>, hint: Option<Decimal>,
                                      attempts: nat, script: seq<Round>) returns (to: nat)
    requires Json(codec) && SendableLog(log)
    requires Served(codec, policy, log, cursor, hint, attempts, script)
    ensures var r := Run(codec, policy, cursor, hint, attempts, script);
            && Follows(r.calls, Published(log), Position(log, cursor), to)
            && CursorAt(Published(log), r.cursor, cursor, Position(log, cursor), to)
    decreases script
  {
    hide Json, SendableLog, Published, Position, Run, Attempted, Verdict, ReconnectDelay, HintValue, Follows, CursorAt, Delivers;
    RunStep(codec, policy, cursor, hint, attempts, script);
    PositionBounded(log, cursor);
    var from, published := Position(log, cursor), Published(log);
    NothingFollows(published, cursor, from);
    to := from;
    if script != [] && !script[0].abortedBefore {
      var a := Attempted(codec, cursor, hint, script[0].reply, script[0].outcome);
      var mid := AttemptFollows(codec, log, cursor, hint, script[0]);
      to := mid;
      if Verdict(a.failure, script[0]).None? {
        assert ValidLog(log) by { SendableIsValid(log); }
        PositionAfter(log, cursor, a.cursor, mid);
        to := RunFollows(codec, policy, log, a.cursor, a.hint, attempts + 1, script[1..]);
        var later := Run(codec, policy, a.cursor, a.hint, attempts + 1, script[1..]);
        FollowsAppend(a.calls, later.calls, published, from, mid, to);
        CursorAtStep(published, cursor, a.cursor, later.cursor, from, mid, to);
      }
    }
  }

  lemma SendableIsValid(log: seq<Row>)
    requires SendableLog(log)
    ensures ValidLog(log)
  {
  }

  /**
   * Gap freedom: the events completed over a run are exactly the published events behind the starting
   * cursor, in log order, up to the one the final cursor names.
   */
  lemma GapFree(codec: Codec, policy: Policy, log: seq<Row>, cursor: Option<string>, hint: Option<Decimal>, attempts: nat, script: seq<Round>)
    requires Json(codec) && SendableLog(log)
    requires Served(codec, policy, log, cursor, hint, attempts, script)
    ensures var r := Run(codec, policy, cursor, hint, attempts, script);
            var done := Completed(r.calls);
            var from := Position(log, cursor);
            && from + |done| <= |Published(log)| && done == Published(log)[from..from + |done|]
            && r.cursor == (if done == [] then cursor else Some(done[|done| - 1].eventId))
            && Position(log, r.cursor) == from + |done|
  {
    hide Json, SendableLog, Served, Published, Position, Run, Follows, Completed;
    var to := RunFollows(codec, policy, log, cursor, hint, attempts, script);
    var r := Run(codec, policy, cursor, hint, attempts, script);
    PositionBounded(log, cursor);
    FollowsCompletes(r.calls, Published(log), Position(log, cursor), to);
    SendableIsValid(log);
    PositionAfter(log, cursor, r.cursor, to);
  }

  // ----- An expired cursor -----

  /** No event reaches a handler in these calls. */
  predicate Silent(calls: seq<Call>) { forall i :: 0 <= i < |calls| ==> !calls[i].Delivered? }

  lemma {:induction false} FollowsNothing(calls: seq<Call>, log: seq<Envelope>, from: nat, to: nat)
    requires Follows(calls, log, from, to) && from >= |log|
    ensures Silent(calls) && from == to
    decreases calls
  {
    if calls != [] {
      FollowsNothing(calls[1..], log, from, to);
      forall i | 0 <= i < |calls| ensures !calls[i].Delivered? {
        if i > 0 { assert calls[i] == calls[1..][i - 1]; }
      }
    }
  }

  /** A connection opened on a blocked cursor delivers nothing and leaves the cursor where it is. */
  lemma BlockedAttempt(codec: Codec, log: seq<Row>, cursor: Option<string>, hint: Option<Decimal>, round: Round, now: int)
    requires Json(codec) && SendableLog(log) && Blocked(log, cursor, now) && now <= round.at
    requires round.reply.Body? ==> Delivers(codec, log, cursor, round.at, round.reply.chunks)
    ensures var a := Attempted(codec, cursor, hint, round.reply, round.outcome);
            a.cursor == cursor && Silent(a.calls)
  {
    hide Json, SendableLog, Delivers, Published, Events, Position, PushAll, Frames, OnFrames, Follows, Stale, Next, Sendable;
    if round.reply.Body? {
      var part := Arrives(codec, log, cursor, round.at, round.reply.chunks);
      var to := BodyFollows(codec, cursor, hint, round.outcome, part, [], 0);
      var a := Attempted(codec, cursor, hint, round.reply, round.outcome);
      FollowsNothing(a.calls, [], 0, to);
    }
  }

  /** No round of the script opens its connection before `now`. */
  predicate From(now: int, script: seq<Round>) { forall k :: 0 <= k < |script| ==> now <= script[k].at }

  /**
   * The other side of `replay.expired`: the server closes the connection behind the notice and the
   * client keeps its cursor, so once the cursor is stale, or can only be read past into staleness,
   * every later connection ends the same way. From then on no event is delivered and the cursor never
   * moves again.
   */
  lemma {:induction false} ExpiredForever(codec: Codec, policy: Policy, log: seq<Row>, cursor: Option<string>, hint: Option<Decimal>,
                                          attempts: nat, script: seq<Round>, now: int)
    requires Json(codec) && SendableLog(log)
    requires Served(codec, policy, log, cursor, hint, attempts, script)
    requires Blocked(log, cursor, now) && From(now, script)
    ensures var r := Run(codec, policy, cursor, hint, attempts, script);
            r.cursor == cursor && Silent(r.calls)
    decreases script
  {
    hide Json, SendableLog, Run, Attempted, Verdict, ReconnectDelay, HintValue, Delivers, Blocked;
    RunStep(codec, policy, cursor, hint, attempts, script);
    if script != [] && !script[0].abortedBefore {
      var a := Attempted(codec, cursor, hint, script[0].reply, script[0].outcome);
      BlockedAttempt(codec, log, cursor, hint, script[0], now);
      if Verdict(a.failure, script[0]).None? {
        ExpiredForever(codec, policy, log, a.cursor, a.hint, attempts + 1, script[1..], now);
      }
    }
  }

  lemma {:induction false} CompletedAppend(a: seq<Call>, b: seq<Call>)
    ensures Completed(a + b) == Completed(a) + Completed(b)
  {
    hide Completed;
    if a == [] {
      assert a + b == b;
      CompletedCons(Opened, []);
    } else {
      CompletedAppend(a[1..], b);
      assert a == [a[0]] + a[1..] && a + b == [a[0]] + (a[1..] + b);
      CompletedCons(a[0], a[1..]);
      CompletedCons(a[0], a[1..] + b);
    }
  }

  /** One attempt from a cursor whose first batch leads into the past: it stays, or moves to a stale row. */
  lemma OneBatchAttempt(codec: Codec, log: seq<Row>, cursor: Option<string>, hint: Option<Decimal>, round: Round, now: int)
    requires Json(codec) && SendableLog(log) && OneBatch(log, cursor, now) && now <= round.at
    requires round.reply.Body? ==> Delivers(codec, log, cursor, round.at, round.reply.chunks)
    ensures var a := Attempted(codec, cursor, hint, round.reply, round.outcome);
            && |Completed(a.calls)| <= |Next(log, cursor, now).events|
            && ((a.cursor == cursor && Completed(a.calls) == []) || Stale(log, a.cursor, now))
  {
    hide Json, SendableLog, Delivers, Published, Events, Position, PushAll, Frames, OnFrames, Follows, Stale, Next, Sendable, Completed;
    var a := Attempted(codec, cursor, hint, round.reply, round.outcome);
    CompletedCons(Opened, []);
    if round.reply.Body? {
      var part := Arrives(codec, log, cursor, round.at, round.reply.chunks);
      var from := Position(log, cursor);
      var sent := Published(log)[from..from + |Events(part)|];
      var to := BodyFollows(codec, cursor, hint, round.outcome, part, Published(log)[..from + |Events(part)|], from);
      FollowsCompletes(a.calls, Published(log)[..from + |Events(part)|], from, to);
      if to > from { CompletedIsStale(log, cursor, now, to); }
    }
  }

  lemma RowBefore(log: seq<Row>, r: nat, end: nat)
    requires r < |log| && end <= |log| && log[r].mine && log[r].published.Some?
    requires |Published(log[..r + 1])| <= |Published(log[..end])|
    ensures r < end
  {
    hide Published;
    PublishedAppend(log[..r], [log[r]]);
    assert log[..r] + [log[r]] == log[..r + 1];
    OneRow(log[r]);
    if end <= r { MoreRows(log, end, r); }
  }

  lemma MoreRows(log: seq<Row>, a: nat, b: nat)
    requires a <= b <= |log|
    ensures |Published(log[..a])| <= |Published(log[..b])|
  {
    hide Published;
    StretchesJoin(log, 0, a, b);
    assert log[0..a] == log[..a] && log[0..b] == log[..b];
  }

  /** The events of such a batch are in rows that are stale. */
  lemma CompletedIsStale(log: seq<Row>, cursor: Option<string>, now: int, to: nat)
    requires SendableLog(log) && OneBatch(log, cursor, now)
    requires Position(log, cursor) < to <= Position(log, cursor) + |Next(log, cursor, now).events|
    ensures to <= |Published(log)| && Stale(log, Some(Published(log)[to - 1].eventId), now)
  {
    hide Published, Stale, Next, SendableLog, Start, BatchEnd, ValidLog;
    SendableIsValid(log);
    NextLeads(log, log, cursor, now);
    NextIsStretch(log, log, cursor, now);
    var start, end := Start(log, cursor), Start(log, Next(log, cursor, now).cursor);
    StretchIn(log, start, end);
    StretchesJoin(log, 0, start, end);
    assert log[0..end] == log[..end] && log[0..start] == log[..start];
    if start == end { StretchesJoin(log, start, start, start); }
    var r := PublishedRowOf(log, to - 1);
    RowBefore(log, r, end);
    OlderIsStale(log, r, end - 1, now);
    assert log[r].published.value.eventId == log[r].eventId by { PublishedId(log, r); }
  }

  lemma PublishedId(log: seq<Row>, r: nat)
    requires ValidLog(log) && r < |log| && log[r].published.Some?
    ensures log[r].published.value.eventId == log[r].eventId
  {
  }

  /**
   * A subscriber whose first batch leads into the past gets no further than that batch, however often
   * it connects: a new subscriber on an outbox whose first rows are older than the window is one.
   */
  lemma {:induction false} NeverPastFirstBatch(codec: Codec, policy: Policy, log: seq<Row>, cursor: Option<string>, hint: Option<Decimal>,
                                               attempts: nat, script: seq<Round>, now: int)
    requires Json(codec) && SendableLog(log)
    requires Served(codec, policy, log, cursor, hint, attempts, script)
    requires OneBatch(log, cursor, now) && From(now, script)
    ensures |Completed(Run(codec, policy, cursor, hint, attempts, script).calls)| <= |Next(log, cursor, now).events|
    decreases script
  {
    hide Json, SendableLog, Run, Attempted, Verdict, ReconnectDelay, HintValue, Delivers, Stale, OneBatch, Next, Completed, Silent;
    RunStep(codec, policy, cursor, hint, attempts, script);
    CompletedCons(Opened, []);
    if script != [] && !script[0].abortedBefore {
      var a := Attempted(codec, cursor, hint, script[0].reply, script[0].outcome);
      OneBatchAttempt(codec, log, cursor, hint, script[0], now);
      if Verdict(a.failure, script[0]).None? {
        var later := Run(codec, policy, a.cursor, a.hint, attempts + 1, script[1..]);
        CompletedAppend(a.calls, later.calls);
        if a.cursor == cursor && Completed(a.calls) == [] {
          NeverPastFirstBatch(codec, policy, log, cursor, a.hint, attempts + 1, script[1..], now);
        } else {
          StaleIsBlocked(log, a.cursor, now);
          ExpiredForever(codec, policy, log, a.cursor, a.hint, attempts + 1, script[1..], now);
          SilentCompletes(later.calls);
        }
      }
    }
  }

  // ----- When an event can still be delivered -----

  function Returning(n: nat): Outcome { Returns }

  /** One round of a run: the connection delivers one text in one chunk and every callback returns. */
  function Calm(at: int, text: string): Round
  {
    Round(false, at, Body([text], Closed), Returning, false, Returns, None, 0.0)
  }

  /** What handlers that return are asked to do with what the server sent. */
  function CallsOf(sent: seq<Sent>): seq<Call>
  {
    if sent == [] then []
    else
      (match sent[0] case Beat => [] case Expired(reason) => [ProjectionRequired(reason)] case Event(e) => [Delivered(e, true)])
      + CallsOf(sent[1..])
  }

  lemma {:induction false} CallsComplete(sent: seq<Sent>)
    ensures Completed(CallsOf(sent)) == Events(sent)
  {
    hide Completed;
    if sent == [] {
      CompletedCons(Opened, []);
    } else {
      var later := CallsOf(sent[1..]);
      CallsComplete(sent[1..]);
      match sent[0]
      case Beat => assert CallsOf(sent) == later;
      case Expired(reason) => CompletedCons(ProjectionRequired(reason), later);
      case Event(e) => CompletedCons(Delivered(e, true), later);
    }
  }

  lemma CompletedCons(call: Call, later: seq<Call>)
    ensures Completed([call] + later)
            == (if call.Delivered? && call.completed then [call.envelope] else []) + Completed(later)
    ensures Completed([]) == []
  {
    assert ([call] + later)[1..] == later;
  }

  lemma CallsCons(sent: seq<Sent>)
    ensures sent == [] ==> CallsOf(sent) == []
    ensures sent != [] ==>
              CallsOf(sent) == (match sent[0] case Beat => [] case Expired(reason) => [ProjectionRequired(reason)]
                                case Event(e) => [Delivered(e, true)]) + CallsOf(sent[1..])
  {
  }

  lemma {:induction false} CalmCalls(codec: Codec, p: Progress, sent: seq<Sent>)
    requires Json(codec) && p.thrown.None?
    requires forall i :: 0 <= i < |sent| && sent[i].Event? ==> Sendable(sent[i].envelope)
    ensures var q := OnFrames(codec, Returning, p, ReceivedAll(ItemsOf(codec, sent)));
            q.thrown.None? && q.calls == p.calls + CallsOf(sent)
    decreases sent
  {
    hide Json, OnFrame, OnFrames, ItemOf, ItemsOf, ReceivedAll, Sendable, CallsOf;
    CallsCons(sent);
    if sent == [] {
      NoneReceived(codec);
      NoFrames(codec, Returning, p);
    } else {
      var frames, later := ItemFrames(ItemOf(codec, sent[0])), ReceivedAll(ItemsOf(codec, sent[1..]));
      ReceivedCons(codec, sent);
      OnFramesAppend(codec, Returning, p, frames, later);
      OnSent(codec, Returning, p, sent[0]);
      CalmCalls(codec, OnFrames(codec, Returning, p, frames), sent[1..]);
    }
  }

  lemma CalmRun(codec: Codec, policy: Policy, cursor: Option<string>, hint: Option<Decimal>, attempts: nat, at: int, text: string)
    ensures var p := OnFrames(codec, Returning, Begin(cursor, hint, Returning), Frames(PushAll("", [text]).blocks));
            p.thrown.None? ==> Run(codec, policy, cursor, hint, attempts, [Calm(at, text)]).calls == p.calls
  {
    hide OnFrames, PushAll, Frames, Run, ReconnectDelay, HintValue;
    var script := [Calm(at, text)];
    RunStep(codec, policy, cursor, hint, attempts, script);
    var a := Attempted(codec, cursor, hint, script[0].reply, script[0].outcome);
    assert script[1..] == [];
    RunStep(codec, policy, a.cursor, a.hint, attempts + 1, []);
  }

  lemma CalmIsServed(codec: Codec, policy: Policy, log: seq<Row>, cursor: Option<string>, hint: Option<Decimal>, attempts: nat,
                     at: int, polls: seq<Poll>, heartbeatMs: int)
    requires PollsOf(log, polls) && NotBefore(at, polls)
    ensures var text := StreamText(ItemsOf(codec, Streamed(cursor, at, polls, heartbeatMs)));
            Served(codec, policy, log, cursor, hint, attempts, [Calm(at, text)])
  {
    hide Streamed, ItemsOf, StreamText, Attempted, PollsOf;
    var text := StreamText(ItemsOf(codec, Streamed(cursor, at, polls, heartbeatMs)));
    PushWhole(text);
    assert Answers(codec, log, cursor, at, polls, heartbeatMs, [text]);
    assert Delivers(codec, log, cursor, at, [text]);
    assert [Calm(at, text)][1..] == [];
  }

  /** A run of one calm round asks the handlers for everything the server streamed. */
  lemma CalmRunDelivers(codec: Codec, policy: Policy, log: seq<Row>, cursor: Option<string>, hint: Option<Decimal>, attempts: nat,
                        at: int, polls: seq<Poll>, heartbeatMs: int)
    requires Json(codec) && SendableLog(log) && PollsOf(log, polls) && NotBefore(at, polls)
    ensures var sent := Streamed(cursor, at, polls, heartbeatMs);
            var script := [Calm(at, StreamText(ItemsOf(codec, sent)))];
            && Served(codec, policy, log, cursor, hint, attempts, script)
            && Run(codec, policy, cursor, hint, attempts, script).calls == [Opened] + CallsOf(sent)
  {
    hide Json, Streamed, ItemsOf, StreamText, Run, Served, SendableLog, PollsOf, Sendable, FaithfulItem, OnFrames, PushAll, Frames, ReceivedAll;
    var sent := Streamed(cursor, at, polls, heartbeatMs);
    var items := ItemsOf(codec, sent);
    var text := StreamText(items);
    AnswerIsStretch(log, cursor, at, polls, heartbeatMs);
    ItemsAreFaithful(codec, sent);
    PushWhole(text);
    FaithfulReadsBack(items, [text]);
    CalmCalls(codec, Begin(cursor, hint, Returning), sent);
    CalmRun(codec, policy, cursor, hint, attempts, at, text);
    CalmIsServed(codec, policy, log, cursor, hint, attempts, at, polls, heartbeatMs);
  }

  /** The notice is received: a connection opened on a stale cursor asks for the projection and moves nothing. */
  lemma NoticeArrives(codec: Codec, policy: Policy, log: seq<Row>, cursor: Option<string>, hint: Option<Decimal>, attempts: nat, now: int)
    returns (script: seq<Round>)
    requires Json(codec) && SendableLog(log) && Stale(log, cursor, now)
    ensures cursor.Some? && Served(codec, policy, log, cursor, hint, attempts, script) && From(now, script)
    ensures var r := Run(codec, policy, cursor, hint, attempts, script);
            r.calls == [Opened, ProjectionRequired(ExpiryReason(log, cursor.value, now))] && r.cursor == cursor
  {
    hide Json, SendableLog, Run, Served, ItemsOf, StreamText, Streamed, ExpiryReason, Stale, PollsOf, Blocked;
    var polls := [Poll(log, now, true)];
    assert PollsOf(log, polls) by { OnePoll(log, polls[0]); }
    StaleSendsNotice(log, cursor, now, polls, 0);
    CalmRunDelivers(codec, policy, log, cursor, hint, attempts, now, polls, 0);
    var sent := Streamed(cursor, now, polls, 0);
    assert sent[1..] == [];
    script := [Calm(now, StreamText(ItemsOf(codec, sent)))];
    assert Blocked(log, cursor, now) by { StaleIsBlocked(log, cursor, now); }
    ExpiredForever(codec, policy, log, cursor, hint, attempts, script, now);
  }

  lemma OnePoll(log: seq<Row>, poll: Poll)
    requires SendableLog(log) && poll.log == log
    ensures PollsOf(log, [poll])
  {
    SendableIsValid(log);
  }

  lemma StaleIsBlocked(log: seq<Row>, cursor: Option<string>, now: int)
    requires Stale(log, cursor, now)
    ensures Blocked(log, cursor, now)
  {
    hide Stale, Next;
  }

  /** Some run from `now` on, served by this log, has a handler complete an event. */
  ghost predicate CanProgress(codec: Codec, policy: Policy, log: seq<Row>, cursor: Option<string>, hint: Option<Decimal>,
                              attempts: nat, now: int)
  {
    exists script :: Progresses(codec, policy, log, cursor, hint, attempts, now, script)
  }

  ghost predicate Progresses(codec: Codec, policy: Policy, log: seq<Row>, cursor: Option<string>, hint: Option<Decimal>,
                             attempts: nat, now: int, script: seq<Round>)
  {
    Served(codec, policy, log, cursor, hint, attempts, script) && From(now, script)
    && Completed(Run(codec, policy, cursor, hint, attempts, script).calls) != []
  }

  lemma RepeatedPolls(log: seq<Row>, now: int, n: nat)
    requires SendableLog(log)
    ensures PollsOf(log, Repeat(Poll(log, now, true), n)) && NotBefore(now, Repeat(Poll(log, now, true), n))
  {
    SendableIsValid(log);
  }

  lemma MakesProgress(codec: Codec, policy: Policy, log: seq<Row>, cursor: Option<string>, hint: Option<Decimal>, attempts: nat, now: int)
    requires Json(codec) && SendableLog(log) && Position(log, cursor) < |Published(log)| && !Blocked(log, cursor, now)
    ensures CanProgress(codec, policy, log, cursor, hint, attempts, now)
  {
    hide Json, SendableLog, Run, Served, ItemsOf, StreamText, Streamed, Blocked, PollsOf, Published, Start, Completed, CallsOf;
    var n := |log| + 1;
    var polls := Repeat(Poll(log, now, true), n);
    RepeatedPolls(log, now, n);
    SendableIsValid(log);
    var start := Start(log, cursor);
    StretchIn(log, start, |log|);
    StretchesJoin(log, 0, start, |log|);
    assert log[start..|log|] == log[start..] && log[0..|log|] == log && log[0..start] == log[..start];
    UnblockedSends(log, cursor, now, n, 0, now);
    CalmRunDelivers(codec, policy, log, cursor, hint, attempts, now, polls, 0);
    var sent := Streamed(cursor, now, polls, 0);
    var script := [Calm(now, StreamText(ItemsOf(codec, sent)))];
    CallsComplete(sent);
    CompletedCons(Opened, CallsOf(sent));
    assert Progresses(codec, policy, log, cursor, hint, attempts, now, script);
  }

  lemma {:induction false} SilentCompletes(calls: seq<Call>)
    requires Silent(calls)
    ensures Completed(calls) == []
  {
    if calls != [] { SilentCompletes(calls[1..]); }
  }

  /**
   * The exact condition for progress: from `now` on some run completes an event if and only if an event
   * is published behind the cursor and the cursor is not blocked. By `GapFree` it is the next one.
   */
  lemma ProgressExactly(codec: Codec, policy: Policy, log: seq<Row>, cursor: Option<string>, hint: Option<Decimal>, attempts: nat, now: int)
    requires Json(codec) && SendableLog(log)
    ensures CanProgress(codec, policy, log, cursor, hint, attempts, now)
            <==> Position(log, cursor) < |Published(log)| && !Blocked(log, cursor, now)
  {
    hide Json, SendableLog, Run, Served, Blocked, Published, Position, Completed, Silent, From;
    if script :| Progresses(codec, policy, log, cursor, hint, attempts, now, script) {
      GapFree(codec, policy, log, cursor, hint, attempts, script);
      if Blocked(log, cursor, now) {
        ExpiredForever(codec, policy, log, cursor, hint, attempts, script, now);
        SilentCompletes(Run(codec, policy, cursor, hint, attempts, script).calls);
      }
    }
    if Position(log, cursor) < |Published(log)| && !Blocked(log, cursor, now) {
      MakesProgress(codec, policy, log, cursor, hint, attempts, now);
    }
  }

  /** Behind a cursor the client holds, only its age counts: blocked is stale. */
  lemma HeldCursorBlocked(log: seq<Row>, cursor: Option<string>, now: int)
    requires SendableLog(log) && cursor.Some?
    ensures Blocked(log, cursor, now) <==> Stale(log, cursor, now)
  {
    hide Stale, Next, SendableLog;
    SendableIsValid(log);
    if !Stale(log, cursor, now) { NewerIsFresh(log, cursor, now); }
  }
}
