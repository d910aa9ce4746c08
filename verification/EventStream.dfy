/**
 * The server half of one connection: which events a subscriber with a given cursor is sent
 * (packages/persistence/src/relay/event-stream.ts, apps/events/src/stream/subscription.ts and
 * stream-writer.ts). The outbox is a sequence of rows in `(created_at, event_id)` order that only
 * grows at its end; a poll sees some prefix of it.
 */
module EventStream {
  import opened Options
  import opened JsNumber

  /** An event on the wire: `body` stands for the fields the stream only carries along. */
  datatype Envelope = Envelope(eventId: string, eventType: string, body: string)

  /**
   * An outbox row. `mine` says whether the subscription's organization and tournament select it, and
   * `published` is the envelope this subscriber may see, absent for an event type it may not.
   */
  datatype Row = Row(eventId: string, createdAt: int, mine: bool, published: Option<Envelope>)

  ghost predicate ValidLog(log: seq<Row>)
  {
    && (forall i, j :: 0 <= i < j < |log| ==> log[i].eventId != log[j].eventId && log[i].createdAt <= log[j].createdAt)
    && (forall i :: 0 <= i < |log| && log[i].published.Some? ==> log[i].published.value.eventId == log[i].eventId)
  }

  /** What the subscriber is sent, in order. */
  datatype Sent = Beat | Event(envelope: Envelope) | Expired(reason: string)

  const REPLAY_WINDOW_SECONDS: nat := 3600
  const MAX_EVENTS: nat := 500

  /** One turn of the polling loop: the rows visible to it, the clock, and whether the client is still there. */
  datatype Poll = Poll(log: seq<Row>, now: int, open: bool)

  // ----- The published log -----

  function PublishedRow(row: Row): seq<Envelope>
  {
    if row.mine && row.published.Some? then [row.published.value] else []
  }

  /** The envelopes of a stretch of rows that this subscriber may see, in order. */
  function Published(log: seq<Row>): seq<Envelope>
  {
    if log == [] then [] else PublishedRow(log[0]) + Published(log[1..])
  }

  lemma PublishedCons(row: Row, rest: seq<Row>)
    ensures Published([row] + rest) == PublishedRow(row) + Published(rest)
  {
    hide PublishedRow;
    assert ([row] + rest)[1..] == rest;
  }

  lemma {:induction false} PublishedAppend(a: seq<Row>, b: seq<Row>)
    ensures Published(a + b) == Published(a) + Published(b)
  {
    hide Published, PublishedRow;
    if a == [] {
      assert a + b == b;
      PublishedNone();
    } else {
      var row, rest := a[0], a[1..];
      PublishedAppend(rest, b);
      assert a == [row] + rest && a + b == [row] + (rest + b);
      PublishedCons(row, rest);
      PublishedCons(row, rest + b);
      assert PublishedRow(row) + (Published(rest) + Published(b)) == PublishedRow(row) + Published(rest) + Published(b);
    }
  }

  lemma PublishedNone()
    ensures Published([]) == []
  {
  }

  // ----- Cursors -----

  /** The index of the row an event id names, or the length of the log. */
  function IndexOf(log: seq<Row>, eventId: string): (i: nat)
    ensures i <= |log|
    ensures i < |log| ==> log[i].eventId == eventId
    ensures forall j :: 0 <= j < i ==> log[j].eventId != eventId
  {
    if log == [] || log[0].eventId == eventId then 0 else 1 + IndexOf(log[1..], eventId)
  }

  /** The first row behind a cursor; behind everything when the cursor names no row. */
  function Start(log: seq<Row>, cursor: Option<string>): (i: nat)
    ensures i <= |log|
  {
    match cursor
    case None => 0
    case Some(id) => var k := IndexOf(log, id); if k == |log| then k else k + 1
  }

  /** The cursor cannot be replayed from: it names no row, or one older than the window. */
  predicate Stale(log: seq<Row>, cursor: Option<string>, now: int)
  {
    match cursor
    case None => false
    case Some(id) =>
      var k := IndexOf(log, id);
      k == |log| || now - log[k].createdAt > REPLAY_WINDOW_SECONDS * 1000
  }

  /** `Math.round(ms / 1000)`. */
  function RoundedSeconds(ms: int): int { (ms + 500) / 1000 }

  function ExpiryReason(log: seq<Row>, id: string, now: int): string
  {
    var k := IndexOf(log, id);
    if k == |log| then "the cursor names an event this installation does not have"
    else
      "the cursor is " + ShowInt(RoundedSeconds(now - log[k].createdAt)) + "s old and the replay window is "
      + ShowInt(REPLAY_WINDOW_SECONDS) + "s"
  }

  /** The end of the batch of at most `limit` selected rows from `from` on. */
  function BatchEnd(log: seq<Row>, from: nat, limit: nat): (end: nat)
    requires from <= |log|
    ensures from <= end <= |log|
    ensures end > from ==> log[end - 1].mine
    decreases |log| - from
  {
    if limit == 0 || from == |log| then from
    else if log[from].mine then BatchEnd(log, from + 1, limit - 1)
    else
      var end := BatchEnd(log, from + 1, limit);
      if end == from + 1 then from else end
  }

  function Batch(envelopes: seq<Envelope>): (sent: seq<Sent>)
    ensures |sent| == |envelopes|
    ensures forall i :: 0 <= i < |sent| ==> sent[i] == Event(envelopes[i])
  {
    if envelopes == [] then [] else [Event(envelopes[0])] + Batch(envelopes[1..])
  }

  // ----- What a connection may send -----

  /** The envelopes among what was sent. */
  function Events(sent: seq<Sent>): seq<Envelope>
  {
    if sent == [] then [] else EventOf(sent[0]) + Events(sent[1..])
  }

  function EventOf(item: Sent): seq<Envelope> { if item.Event? then [item.envelope] else [] }

  predicate NoExpiry(sent: seq<Sent>) { forall i :: 0 <= i < |sent| ==> !sent[i].Expired? }

  /** An expiry notice ends the connection. */
  predicate ExpiryLast(sent: seq<Sent>) { sent == [] || NoExpiry(sent[..|sent| - 1]) }

  lemma EventsCons(item: Sent, rest: seq<Sent>)
    ensures Events([item] + rest) == EventOf(item) + Events(rest)
  {
    hide EventOf;
    assert ([item] + rest)[1..] == rest;
  }

  lemma EventsNone()
    ensures Events([]) == []
  {
  }

  lemma {:induction false} EventsAppend(a: seq<Sent>, b: seq<Sent>)
    ensures Events(a + b) == Events(a) + Events(b)
  {
    hide Events, EventOf;
    if a == [] {
      assert a + b == b;
      EventsNone();
    } else {
      var item, rest := a[0], a[1..];
      EventsAppend(rest, b);
      assert a == [item] + rest && a + b == [item] + (rest + b);
      EventsCons(item, rest);
      EventsCons(item, rest + b);
      assert EventOf(item) + (Events(rest) + Events(b)) == EventOf(item) + Events(rest) + Events(b);
    }
  }

  lemma {:induction false} EventsOfBatch(envelopes: seq<Envelope>)
    ensures Events(Batch(envelopes)) == envelopes
  {
    if envelopes != [] {
      EventsOfBatch(envelopes[1..]);
      assert Batch(envelopes)[1..] == Batch(envelopes[1..]);
    }
  }

  /** A row found in a prefix of the log is found at the same place in the log. */
  lemma IndexInPrefix(part: seq<Row>, log: seq<Row>, eventId: string)
    requires part <= log
    requires IndexOf(part, eventId) < |part|
    ensures IndexOf(log, eventId) == IndexOf(part, eventId)
  {
    var i, j := IndexOf(part, eventId), IndexOf(log, eventId);
    assert log[i] == part[i];
    forall k | 0 <= k < i ensures log[k].eventId != eventId { assert part[k] == log[k]; }
  }

  lemma IndexOfRow(log: seq<Row>, i: nat)
    requires ValidLog(log) && i < |log|
    ensures IndexOf(log, log[i].eventId) == i
  {
  }

  // ----- One batch -----

  datatype Resolution = ReplayExpired(reason: string) | Replay(events: seq<Envelope>, cursor: Option<string>)

  /** What a subscriber with this cursor receives now, and how far it has then been read. */
  function Next(log: seq<Row>, cursor: Option<string>, now: int): (r: Resolution)
    ensures r.ReplayExpired? <==> Stale(log, cursor, now)
    ensures r.ReplayExpired? ==> cursor.Some? && r.reason == ExpiryReason(log, cursor.value, now)
    ensures r.Replay? && r.events != [] ==> r.cursor.Some?
  {
    hide ExpiryReason, IndexOf;
    if Stale(log, cursor, now) then ReplayExpired(ExpiryReason(log, cursor.value, now))
    else
      var from := Start(log, cursor);
      var end := BatchEnd(log, from, MAX_EVENTS);
      Replay(Published(log[from..end]), if end == from then cursor else Some(log[end - 1].eventId))
  }

  lemma SameStart(log: seq<Row>, part: seq<Row>, cursor: Option<string>, now: int)
    requires part <= log && !Stale(part, cursor, now)
    ensures Start(part, cursor) == Start(log, cursor)
  {
    hide IndexOf;
    if cursor.Some? { IndexInPrefix(part, log, cursor.value); }
  }

  lemma StartBehind(log: seq<Row>, i: nat)
    requires ValidLog(log) && i < |log|
    ensures Start(log, Some(log[i].eventId)) == i + 1
  {
    hide IndexOf, ValidLog;
    IndexOfRow(log, i);
  }

  lemma NextIs(log: seq<Row>, cursor: Option<string>, now: int)
    requires !Stale(log, cursor, now)
    ensures var from := Start(log, cursor);
            var end := BatchEnd(log, from, MAX_EVENTS);
            Next(log, cursor, now) == Replay(Published(log[from..end]), if end == from then cursor else Some(log[end - 1].eventId))
  {
    hide Stale, Published, BatchEnd, Start, ExpiryReason;
  }

  /** Where a batch from a prefix of the log leads. */
  lemma NextLeads(log: seq<Row>, part: seq<Row>, cursor: Option<string>, now: int)
    requires ValidLog(log) && part <= log && !Stale(part, cursor, now)
    ensures Start(log, cursor) <= |part|
    ensures var from := Start(log, cursor);
            var end := BatchEnd(part, from, MAX_EVENTS);
            var r := Next(part, cursor, now);
            && r.cursor == (if end == from then cursor else Some(log[end - 1].eventId)) && Start(log, r.cursor) == end
            && r.events == Published(part[from..end])
  {
    hide Next, Published, BatchEnd, ValidLog, Start, Stale;
    SameStart(log, part, cursor, now);
    NextIs(part, cursor, now);
    var from := Start(log, cursor);
    var end := BatchEnd(part, from, MAX_EVENTS);
    if end > from {
      assert part[end - 1] == log[end - 1];
      StartBehind(log, end - 1);
    }
  }

  /** A batch read from a prefix of the log is the stretch of the log from the cursor to the new cursor. */
  lemma NextIsStretch(log: seq<Row>, part: seq<Row>, cursor: Option<string>, now: int)
    requires ValidLog(log) && part <= log && !Stale(part, cursor, now)
    ensures var r := Next(part, cursor, now);
            Start(log, cursor) <= Start(log, r.cursor) && r.events == Published(log[Start(log, cursor)..Start(log, r.cursor)])
  {
    hide Published, BatchEnd, Next, ValidLog, Start, Stale;
    NextLeads(log, part, cursor, now);
    var from := Start(log, cursor);
    var end := BatchEnd(part, from, MAX_EVENTS);
    assert part[from..end] == log[from..end];
  }

  lemma StaleInPrefix(log: seq<Row>, part: seq<Row>, cursor: Option<string>, now: int)
    requires part <= log && Stale(log, cursor, now)
    ensures Stale(part, cursor, now)
  {
    hide IndexOf;
    if cursor.Some? && IndexOf(part, cursor.value) < |part| { IndexInPrefix(part, log, cursor.value); }
  }

  // ----- The polling loop -----

  /** What a connection sends over a script of polls, from a cursor and the time of the last write on. */
  function Streamed(cursor: Option<string>, lastWrite: int, polls: seq<Poll>, heartbeatMs: int): seq<Sent>
    decreases polls
  {
    if polls == [] || !polls[0].open then []
    else
      var now := polls[0].now;
      match Next(polls[0].log, cursor, now)
      case ReplayExpired(reason) => [Expired(reason)]
      case Replay(events, read) =>
        if events != [] then Batch(events) + Streamed(read, now, polls[1..], heartbeatMs)
        else if now - lastWrite >= heartbeatMs then [Beat] + Streamed(read, now, polls[1..], heartbeatMs)
        else Streamed(read, lastWrite, polls[1..], heartbeatMs)
  }

  /** Streams until the client goes away, the cursor expires or the script of polls ends. */
  method StreamEvents(afterEventId: Option<string>, polls: seq<Poll>, heartbeatMs: int, openedAt: int) returns (sent: seq<Sent>)
    ensures sent == Streamed(afterEventId, openedAt, polls, heartbeatMs)
  {
    hide Next, Streamed, Batch;
    var cursor := afterEventId;
    var lastWrite := openedAt;
    sent := [];
    for k := 0 to |polls|
      invariant sent + Streamed(cursor, lastWrite, polls[k..], heartbeatMs) == Streamed(afterEventId, openedAt, polls, heartbeatMs)
    {
      var poll := polls[k];
      StreamedStep(cursor, lastWrite, polls[k..], heartbeatMs);
      assert polls[k..][0] == poll && polls[k..][1..] == polls[k + 1..];
      if !poll.open { return sent + []; }
      var batch := Next(poll.log, cursor, poll.now);
      if batch.ReplayExpired? { return sent + [Expired(batch.reason)]; }
      if |batch.events| > 0 {
        sent := sent + Batch(batch.events);
        lastWrite := poll.now;
      } else if poll.now - lastWrite >= heartbeatMs {
        sent := sent + [Beat];
        lastWrite := poll.now;
      }
      cursor := batch.cursor;
    }
    StreamedStep(cursor, lastWrite, [], heartbeatMs);
    return sent + [];
  }

  lemma StreamedStep(cursor: Option<string>, lastWrite: int, polls: seq<Poll>, heartbeatMs: int)
    ensures polls == [] || !polls[0].open ==> Streamed(cursor, lastWrite, polls, heartbeatMs) == []
    ensures polls != [] && polls[0].open ==>
              var r := Next(polls[0].log, cursor, polls[0].now);
              var now := polls[0].now;
              Streamed(cursor, lastWrite, polls, heartbeatMs)
              == if r.ReplayExpired? then [Expired(r.reason)]
                 else if r.events != [] then Batch(r.events) + Streamed(r.cursor, now, polls[1..], heartbeatMs)
                 else if now - lastWrite >= heartbeatMs then [Beat] + Streamed(r.cursor, now, polls[1..], heartbeatMs)
                 else Streamed(r.cursor, lastWrite, polls[1..], heartbeatMs)
  {
    hide Next, Batch;
  }

  // ----- What a connection has sent -----

  /** The cursor behind the polls: that of the last row read. */
  function Reached(cursor: Option<string>, polls: seq<Poll>): Option<string>
    decreases polls
  {
    if polls == [] || !polls[0].open || Next(polls[0].log, cursor, polls[0].now).ReplayExpired? then cursor
    else Reached(Next(polls[0].log, cursor, polls[0].now).cursor, polls[1..])
  }

  /** Every poll sees a prefix of the outbox as it will ever be. */
  ghost predicate PollsOf(log: seq<Row>, polls: seq<Poll>)
  {
    ValidLog(log) && forall k :: 0 <= k < |polls| ==> polls[k].log <= log
  }

  lemma PollsOfTail(log: seq<Row>, polls: seq<Poll>)
    requires PollsOf(log, polls) && polls != []
    ensures PollsOf(log, polls[1..]) && polls[0].log <= log && ValidLog(log)
  {
    hide ValidLog;
  }

  lemma EventsOfBeat()
    ensures Events([Beat]) == [] && Events([]) == []
  {
    assert [Beat][1..] == [];
  }

  lemma EventsOfNotice(reason: string)
    ensures Events([Expired(reason)]) == []
  {
    assert [Expired(reason)][1..] == [];
  }

  lemma StretchesJoin(log: seq<Row>, a: nat, b: nat, c: nat)
    requires a <= b <= c <= |log|
    ensures Published(log[a..b]) + Published(log[b..c]) == Published(log[a..c])
    ensures Published(log[a..a]) == []
  {
    PublishedAppend(log[a..b], log[b..c]);
    assert log[a..b] + log[b..c] == log[a..c];
  }

  /**
   * The events sent are exactly the published events between the cursor of the request and the last
   * row read, in log order, rows the subscriber may not see having been read past.
   */
  lemma {:induction false} SentIsStretch(log: seq<Row>, cursor: Option<string>, lastWrite: int, polls: seq<Poll>, heartbeatMs: int)
    requires PollsOf(log, polls)
    ensures Start(log, cursor) <= Start(log, Reached(cursor, polls))
    ensures Events(Streamed(cursor, lastWrite, polls, heartbeatMs)) == Published(log[Start(log, cursor)..Start(log, Reached(cursor, polls))])
    decreases polls
  {
    hide Streamed, Next, Start, Published, Events, Batch, PollsOf, ValidLog, Stale, ExpiryReason;
    StreamedStep(cursor, lastWrite, polls, heartbeatMs);
    EventsOfBeat();
    StretchesJoin(log, Start(log, cursor), Start(log, cursor), Start(log, cursor));
    if polls != [] && polls[0].open {
      PollsOfTail(log, polls);
      var r := Next(polls[0].log, cursor, polls[0].now);
      if r.ReplayExpired? {
        EventsOfNotice(r.reason);
      } else {
        NextIsStretch(log, polls[0].log, cursor, polls[0].now);
        var wrote := r.events != [] || polls[0].now - lastWrite >= heartbeatMs;
        var w := if wrote then polls[0].now else lastWrite;
        SentIsStretch(log, r.cursor, w, polls[1..], heartbeatMs);
        var later := Streamed(r.cursor, w, polls[1..], heartbeatMs);
        EventsOfBatch(r.events);
        EventsAppend(Batch(r.events), later);
        EventsAppend([Beat], later);
        StretchesJoin(log, Start(log, cursor), Start(log, r.cursor), Start(log, Reached(r.cursor, polls[1..])));
      }
    }
  }

  // ----- How a connection ends -----

  /** The poll is made, and finds the cursor read so far stale. */
  predicate StaleAt(cursor: Option<string>, polls: seq<Poll>, k: nat)
  {
    k < |polls| && (forall j :: 0 <= j <= k ==> polls[j].open)
    && Stale(polls[k].log, Reached(cursor, polls[..k]), polls[k].now)
  }

  lemma ReachedStep(cursor: Option<string>, polls: seq<Poll>, k: nat)
    requires 0 < k <= |polls| && polls[0].open && !Stale(polls[0].log, cursor, polls[0].now)
    ensures Reached(cursor, polls[..k]) == Reached(Next(polls[0].log, cursor, polls[0].now).cursor, polls[1..][..k - 1])
  {
    hide Next, Stale;
    assert polls[..k][1..] == polls[1..][..k - 1];
  }

  lemma StaleAtStep(cursor: Option<string>, polls: seq<Poll>, k: nat)
    requires polls != [] && polls[0].open && !Stale(polls[0].log, cursor, polls[0].now)
    ensures !StaleAt(cursor, polls, 0)
    ensures k > 0 ==> (StaleAt(cursor, polls, k) <==> StaleAt(Next(polls[0].log, cursor, polls[0].now).cursor, polls[1..], k - 1))
  {
    hide Next, Stale;
    assert polls[..0] == [];
    if 0 < k < |polls| {
      ReachedStep(cursor, polls, k);
      assert forall j :: 1 <= j < |polls| ==> polls[j] == polls[1..][j - 1];
      assert forall j :: 0 <= j < |polls[1..]| ==> polls[1..][j] == polls[j + 1];
    }
  }

  predicate EndsWithNotice(sent: seq<Sent>) { sent != [] && sent[|sent| - 1].Expired? }

  lemma NoticeBehind(head: seq<Sent>, later: seq<Sent>)
    requires NoExpiry(head)
    ensures EndsWithNotice(head + later) <==> EndsWithNotice(later)
    ensures ExpiryLast(later) ==> ExpiryLast(head + later)
  {
    var all := head + later;
    if later == [] {
      assert all == head;
    } else {
      assert all[..|all| - 1] == head + later[..|later| - 1];
    }
  }

  /**
   * The notice is the last word and comes exactly if some poll that is made finds the cursor stale:
   * also if nothing is missing, when the last row read has grown older than the window.
   */
  lemma {:induction false} NoticeExactly(cursor: Option<string>, lastWrite: int, polls: seq<Poll>, heartbeatMs: int)
    ensures ExpiryLast(Streamed(cursor, lastWrite, polls, heartbeatMs))
    ensures EndsWithNotice(Streamed(cursor, lastWrite, polls, heartbeatMs)) <==> exists k: nat :: StaleAt(cursor, polls, k)
    decreases polls
  {
    hide Streamed, Next, Stale, Batch, StaleAt, NoExpiry, EndsWithNotice, ExpiryLast;
    StreamedStep(cursor, lastWrite, polls, heartbeatMs);
    NoticeAlone("");
    if polls != [] && polls[0].open {
      var r := Next(polls[0].log, cursor, polls[0].now);
      if r.ReplayExpired? {
        NoticeAlone(r.reason);
        StaleFirst(cursor, polls);
      } else {
        var now := polls[0].now;
        var wrote := r.events != [] || now - lastWrite >= heartbeatMs;
        var w := if wrote then now else lastWrite;
        var later := Streamed(r.cursor, w, polls[1..], heartbeatMs);
        NoticeExactly(r.cursor, w, polls[1..], heartbeatMs);
        PlainHeads(r.events);
        NoticeBehind(Batch(r.events), later);
        NoticeBehind([Beat], later);
        StaleAtStep(cursor, polls, 0);
        if k: nat :| StaleAt(cursor, polls, k) { StaleAtStep(cursor, polls, k); }
        if k: nat :| StaleAt(r.cursor, polls[1..], k) { StaleAtStep(cursor, polls, k + 1); }
      }
    } else {
      NeverStale(cursor, polls);
    }
  }

  lemma NoticeAlone(reason: string)
    ensures EndsWithNotice([Expired(reason)]) && ExpiryLast([Expired(reason)])
    ensures !EndsWithNotice([]) && ExpiryLast([])
  {
  }

  lemma PlainHeads(envelopes: seq<Envelope>)
    ensures NoExpiry(Batch(envelopes)) && NoExpiry([Beat])
  {
  }

  lemma StaleFirst(cursor: Option<string>, polls: seq<Poll>)
    requires polls != [] && polls[0].open && Stale(polls[0].log, cursor, polls[0].now)
    ensures StaleAt(cursor, polls, 0)
  {
    hide Stale;
    assert polls[..0] == [];
  }

  lemma NeverStale(cursor: Option<string>, polls: seq<Poll>)
    requires polls == [] || !polls[0].open
    ensures forall k: nat :: !StaleAt(cursor, polls, k)
  {
    hide Stale;
  }

  /** A connection opened on a stale cursor sends the notice and nothing else. */
  lemma StaleSendsNotice(log: seq<Row>, cursor: Option<string>, lastWrite: int, polls: seq<Poll>, heartbeatMs: int)
    requires PollsOf(log, polls) && polls != [] && polls[0].open && Stale(log, cursor, polls[0].now)
    ensures cursor.Some?
    ensures Streamed(cursor, lastWrite, polls, heartbeatMs) == [Expired(ExpiryReason(polls[0].log, cursor.value, polls[0].now))]
  {
    hide Next, Streamed, ExpiryReason, IndexOf, ValidLog;
    PollsOfTail(log, polls);
    StaleInPrefix(log, polls[0].log, cursor, polls[0].now);
    StreamedStep(cursor, lastWrite, polls, heartbeatMs);
  }

  // ----- Nothing is left unsent -----

  function Selected(rows: seq<Row>): nat
  {
    if rows == [] then 0 else (if rows[0].mine then 1 else 0) + Selected(rows[1..])
  }

  /** A batch with room for every selected row reads them all. */
  lemma {:induction false} BatchReadsAll(log: seq<Row>, from: nat, limit: nat)
    requires from <= |log| && Selected(log[from..]) <= limit
    ensures Published(log[BatchEnd(log, from, limit)..]) == []
    decreases |log| - from
  {
    hide Published;
    if from < |log| {
      var rest := log[from..];
      assert rest[1..] == log[from + 1..];
      BatchReadsAll(log, from + 1, if log[from].mine then limit - 1 else limit);
      var end := BatchEnd(log, from, limit);
      if end == from { NoneSelected(log, from, limit); }
    } else {
      NothingPublished(log);
    }
  }

  lemma NothingPublished(log: seq<Row>)
    ensures Published(log[|log|..]) == []
  {
  }

  lemma {:induction false} NoneSelected(log: seq<Row>, from: nat, limit: nat)
    requires from < |log| && BatchEnd(log, from, limit) == from && Selected(log[from..]) <= limit
    ensures Published(log[from..]) == []
    decreases |log| - from
  {
    var rest := log[from..];
    assert rest[1..] == log[from + 1..];
    if from + 1 < |log| {
      NoneSelected(log, from + 1, limit);
    } else {
      NothingPublished(log);
    }
  }

  lemma {:induction false} ReachedBehind(cursor: Option<string>, polls: seq<Poll>, k: nat)
    requires k < |polls| && (forall j :: 0 <= j <= k ==> polls[j].open)
    requires forall j: nat :: j <= k ==> !StaleAt(cursor, polls, j)
    ensures !Stale(polls[k].log, Reached(cursor, polls[..k]), polls[k].now)
    ensures Reached(cursor, polls[..k + 1]) == Next(polls[k].log, Reached(cursor, polls[..k]), polls[k].now).cursor
    decreases k
  {
    hide Stale, Next;
    assert !StaleAt(cursor, polls, k);
    assert polls[..0] == [];
    if k == 0 {
      assert polls[..1][1..] == [];
    } else {
      assert !StaleAt(cursor, polls, 0);
      var next := Next(polls[0].log, cursor, polls[0].now).cursor;
      forall j: nat | j <= k - 1 ensures !StaleAt(next, polls[1..], j) {
        StaleAtStep(cursor, polls, j + 1);
        assert !StaleAt(cursor, polls, j + 1);
      }
      ReachedBehind(next, polls[1..], k - 1);
      ReachedStep(cursor, polls, k);
      ReachedStep(cursor, polls, k + 1);
    }
  }

  /**
   * A client that reconnects inside the window is replayed exactly what it missed: once a poll finds
   * no more selected rows than one batch holds, every published event it sees behind the cursor of the
   * request has been sent.
   */
  lemma NothingUnsent(log: seq<Row>, cursor: Option<string>, lastWrite: int, polls: seq<Poll>, heartbeatMs: int)
    requires PollsOf(log, polls) && polls != [] && (forall k :: 0 <= k < |polls| ==> polls[k].open)
    requires forall k: nat :: !StaleAt(cursor, polls, k)
    requires var last := polls[|polls| - 1].log;
             Selected(last[Start(last, Reached(cursor, polls[..|polls| - 1]))..]) <= MAX_EVENTS
    ensures var last := polls[|polls| - 1].log;
            Start(log, cursor) <= |last|
            && Events(Streamed(cursor, lastWrite, polls, heartbeatMs)) == Published(last[Start(log, cursor)..])
  {
    hide Stale, StaleAt, Streamed, Published, Events, Reached, Selected, ValidLog, IndexOf, BatchEnd, ExpiryReason;
    var n := |polls| - 1;
    var last, now := polls[n].log, polls[n].now;
    var before := Reached(cursor, polls[..n]);
    SentIsStretch(log, cursor, lastWrite, polls, heartbeatMs);
    ReachedBehind(cursor, polls, n);
    assert polls[..n + 1] == polls;
    LastBatch(log, last, before, now);
    var start, end := Start(log, cursor), Start(log, Reached(cursor, polls));
    assert log[start..end] == last[start..end];
    StretchesJoin(last, start, end, |last|);
    assert last[end..|last|] == last[end..] && last[start..|last|] == last[start..];
  }

  lemma LastBatch(log: seq<Row>, part: seq<Row>, cursor: Option<string>, now: int)
    requires ValidLog(log) && part <= log && !Stale(part, cursor, now) && Selected(part[Start(part, cursor)..]) <= MAX_EVENTS
    ensures var end := Start(log, Next(part, cursor, now).cursor);
            end <= |part| && Published(part[end..]) == []
  {
    hide Published, BatchEnd, ValidLog, Selected, Next, Start, Stale;
    NextLeads(log, part, cursor, now);
    SameStart(log, part, cursor, now);
    BatchReadsAll(part, Start(log, cursor), MAX_EVENTS);
  }

  // ----- Silence -----

  /** When the connection last wrote, over a script of polls. */
  function LastWrite(cursor: Option<string>, lastWrite: int, polls: seq<Poll>, heartbeatMs: int): int
    decreases polls
  {
    if polls == [] || !polls[0].open then lastWrite
    else
      var now := polls[0].now;
      match Next(polls[0].log, cursor, now)
      case ReplayExpired(_) => now
      case Replay(events, read) =>
        LastWrite(read, if events != [] || now - lastWrite >= heartbeatMs then now else lastWrite, polls[1..], heartbeatMs)
  }

  /** An open connection has written within the heartbeat interval before each of its polls, or writes then. */
  lemma {:induction false} NeverSilent(cursor: Option<string>, lastWrite: int, polls: seq<Poll>, heartbeatMs: int)
    requires heartbeatMs > 0 && polls != [] && forall k :: 0 <= k < |polls| ==> polls[k].open
    requires forall k: nat :: !StaleAt(cursor, polls, k)
    ensures polls[|polls| - 1].now - LastWrite(cursor, lastWrite, polls, heartbeatMs) < heartbeatMs
    decreases polls
  {
    hide Next, Stale, StaleAt;
    StaleAtFirst(cursor, polls);
    var r, now := Next(polls[0].log, cursor, polls[0].now), polls[0].now;
    var w := if r.events != [] || now - lastWrite >= heartbeatMs then now else lastWrite;
    if |polls| > 1 {
      forall k: nat ensures !StaleAt(r.cursor, polls[1..], k) { StaleAtStep(cursor, polls, k + 1); }
      NeverSilent(r.cursor, w, polls[1..], heartbeatMs);
    } else {
      assert polls[1..] == [];
    }
  }

  lemma StaleAtFirst(cursor: Option<string>, polls: seq<Poll>)
    requires polls != [] && polls[0].open && !StaleAt(cursor, polls, 0)
    ensures !Stale(polls[0].log, cursor, polls[0].now)
  {
    hide Stale;
    assert polls[..0] == [];
  }

  // ----- How far a connection can get -----

  lemma {:induction false} BatchEndGrows(part: seq<Row>, log: seq<Row>, from: nat, limit: nat)
    requires part <= log && from <= |part|
    ensures BatchEnd(part, from, limit) <= BatchEnd(log, from, limit)
    decreases |log| - from
  {
    if limit > 0 && from < |part| {
      assert part[from] == log[from];
      BatchEndGrows(part, log, from + 1, if log[from].mine then limit - 1 else limit);
    }
  }

  /** Rows are in order of time, so an older row than a stale one is stale. */
  lemma OlderIsStale(log: seq<Row>, i: nat, j: nat, now: int)
    requires ValidLog(log) && i <= j < |log|
    requires Stale(log, Some(log[j].eventId), now)
    ensures Stale(log, Some(log[i].eventId), now)
  {
    hide IndexOf;
    IndexOfRow(log, i);
    IndexOfRow(log, j);
  }

  lemma StaleLater(log: seq<Row>, cursor: Option<string>, now: int, later: int)
    requires Stale(log, cursor, now) && now <= later
    ensures Stale(log, cursor, later)
  {
    hide IndexOf;
  }

  /** A batch from a prefix of the log ends no later than the batch from the log. */
  lemma SmallerBatch(log: seq<Row>, part: seq<Row>, cursor: Option<string>, now: int, later: int)
    requires ValidLog(log) && part <= log && !Stale(log, cursor, now) && !Stale(part, cursor, later)
    requires Stale(log, Next(log, cursor, now).cursor, now)
    ensures var read := Next(part, cursor, later).cursor;
            && Start(log, read) <= Start(log, Next(log, cursor, now).cursor)
            && (read == cursor || Stale(log, read, now))
  {
    hide BatchEnd, Start, Next, ValidLog, Stale, Published;
    NextLeads(log, log, cursor, now);
    NextLeads(log, part, cursor, later);
    var from := Start(log, cursor);
    BatchEndGrows(part, log, from, MAX_EVENTS);
    var whole, end := BatchEnd(log, from, MAX_EVENTS), BatchEnd(part, from, MAX_EVENTS);
    if end > from { OlderIsStale(log, end - 1, whole - 1, now); }
  }

  predicate NotBefore(now: int, polls: seq<Poll>) { forall k :: 0 <= k < |polls| ==> now <= polls[k].now }

  lemma {:induction false} StaleStaysPut(log: seq<Row>, cursor: Option<string>, polls: seq<Poll>, now: int)
    requires PollsOf(log, polls) && NotBefore(now, polls) && Stale(log, cursor, now)
    ensures Reached(cursor, polls) == cursor
  {
    hide Next, Stale, ValidLog;
    if polls != [] {
      StaleInPrefix(log, polls[0].log, cursor, now);
      StaleLater(polls[0].log, cursor, now, polls[0].now);
    }
  }

  /**
   * A connection whose first whole batch ends in a row that is already older than the window gets no
   * further than that batch: the poll behind it finds the cursor stale.
   */
  lemma {:induction false} StopsAtBatch(log: seq<Row>, cursor: Option<string>, polls: seq<Poll>, now: int)
    requires PollsOf(log, polls) && NotBefore(now, polls) && OneBatch(log, cursor, now)
    ensures Start(log, Reached(cursor, polls)) <= Start(log, Next(log, cursor, now).cursor)
    decreases polls
  {
    hide Next, Stale, Start, ValidLog;
    assert ValidLog(log) by { PollsAreValid(log, polls); }
    NextIsStretch(log, log, cursor, now);
    if polls != [] && polls[0].open && !Stale(polls[0].log, cursor, polls[0].now) {
      PollsOfTail(log, polls);
      SmallerBatch(log, polls[0].log, cursor, now, polls[0].now);
      var read := Next(polls[0].log, cursor, polls[0].now).cursor;
      if read == cursor {
        StopsAtBatch(log, cursor, polls[1..], now);
      } else {
        StaleStaysPut(log, read, polls[1..], now);
      }
    }
  }

  lemma PollsAreValid(log: seq<Row>, polls: seq<Poll>)
    requires PollsOf(log, polls)
    ensures ValidLog(log)
  {
    hide ValidLog;
  }

  /** The first whole batch from the cursor leads to a row that is already older than the window. */
  predicate OneBatch(log: seq<Row>, cursor: Option<string>, now: int)
  {
    !Stale(log, cursor, now) && Stale(log, Next(log, cursor, now).cursor, now)
  }

  /** A connection sends no more than that batch. */
  lemma OneBatchSends(log: seq<Row>, cursor: Option<string>, lastWrite: int, polls: seq<Poll>, heartbeatMs: int, now: int)
    requires PollsOf(log, polls) && NotBefore(now, polls) && OneBatch(log, cursor, now)
    ensures Events(Streamed(cursor, lastWrite, polls, heartbeatMs)) <= Next(log, cursor, now).events
  {
    hide Next, Stale, Start, ValidLog, Streamed, Published, Reached, Events, PollsOf;
    PollsAreValid(log, polls);
    SentIsStretch(log, cursor, lastWrite, polls, heartbeatMs);
    NextIsStretch(log, log, cursor, now);
    StopsAtBatch(log, cursor, polls, now);
    StretchesJoin(log, Start(log, cursor), Start(log, Reached(cursor, polls)), Start(log, Next(log, cursor, now).cursor));
  }

  /** On a stale cursor it sends nothing. */
  lemma StaleSendsNothing(log: seq<Row>, cursor: Option<string>, lastWrite: int, polls: seq<Poll>, heartbeatMs: int, now: int)
    requires PollsOf(log, polls) && NotBefore(now, polls) && Stale(log, cursor, now)
    ensures Events(Streamed(cursor, lastWrite, polls, heartbeatMs)) == []
  {
    hide Stale, Start, Streamed, Published, Reached, Events, PollsOf;
    SentIsStretch(log, cursor, lastWrite, polls, heartbeatMs);
    StaleStaysPut(log, cursor, polls, now);
    StretchesJoin(log, Start(log, cursor), Start(log, cursor), Start(log, cursor));
  }

  /**
   * No connection from `now` on can send an event behind this cursor: it is stale, or its first batch
   * holds nothing the subscriber may see and leads to a row that is stale.
   */
  predicate Blocked(log: seq<Row>, cursor: Option<string>, now: int)
  {
    Stale(log, cursor, now) || (OneBatch(log, cursor, now) && Next(log, cursor, now).events == [])
  }

  lemma NewerThan(log: seq<Row>, id: string, j: nat)
    requires ValidLog(log) && IndexOf(log, id) <= j < |log|
    ensures IndexOf(log, log[j].eventId) == j && log[IndexOf(log, id)].createdAt <= log[j].createdAt
  {
    hide IndexOf;
    IndexOfRow(log, j);
  }

  /** The row read behind a cursor inside the window is inside the window. */
  lemma NewerIsFresh(log: seq<Row>, cursor: Option<string>, now: int)
    requires ValidLog(log) && cursor.Some? && !Stale(log, cursor, now)
    ensures !Stale(log, Next(log, cursor, now).cursor, now)
  {
    hide Published, BatchEnd, ValidLog, Next, IndexOf;
    NextLeads(log, log, cursor, now);
    var end := BatchEnd(log, Start(log, cursor), MAX_EVENTS);
    if end > Start(log, cursor) { NewerThan(log, cursor.value, end - 1); }
  }

  function Repeat(poll: Poll, n: nat): seq<Poll> { seq(n, _ => poll) }

  lemma {:induction false} BatchMoves(log: seq<Row>, from: nat, limit: nat)
    requires from <= |log| && Published(log[from..]) != [] && limit > 0
    ensures BatchEnd(log, from, limit) > from
    decreases |log| - from
  {
    var rest := log[from..];
    assert rest != [];
    assert rest[1..] == log[from + 1..];
    if !log[from].mine { BatchMoves(log, from + 1, limit); }
  }

  lemma NextMoves(log: seq<Row>, cursor: Option<string>, now: int)
    requires ValidLog(log) && !Stale(log, cursor, now) && Published(log[Start(log, cursor)..]) != []
    ensures Start(log, Next(log, cursor, now).cursor) > Start(log, cursor) && Next(log, cursor, now).cursor.Some?
  {
    hide Published, BatchEnd, ValidLog, Next, Start, Stale;
    NextLeads(log, log, cursor, now);
    BatchMoves(log, Start(log, cursor), MAX_EVENTS);
  }

  /** Polled often enough, a connection that is not blocked sends something of what is there. */
  lemma {:induction false} UnblockedSends(log: seq<Row>, cursor: Option<string>, lastWrite: int, n: nat, heartbeatMs: int, now: int)
    requires ValidLog(log) && !Blocked(log, cursor, now)
    requires Published(log[Start(log, cursor)..]) != [] && n > |log| - Start(log, cursor)
    ensures Events(Streamed(cursor, lastWrite, Repeat(Poll(log, now, true), n), heartbeatMs)) != []
    decreases n
  {
    hide Next, Stale, Start, ValidLog, Streamed, Published, Events, Batch;
    var poll := Poll(log, now, true);
    var polls := Repeat(poll, n);
    assert polls[0] == poll && polls[1..] == Repeat(poll, n - 1);
    StreamedStep(cursor, lastWrite, polls, heartbeatMs);
    var r := Next(log, cursor, now);
    var w := if r.events != [] || now - lastWrite >= heartbeatMs then now else lastWrite;
    var later := Streamed(r.cursor, w, polls[1..], heartbeatMs);
    EventsOfBatch(r.events);
    EventsAppend(Batch(r.events), later);
    EventsAppend([Beat], later);
    EventsOfBeat();
    if r.events == [] {
      NextMoves(log, cursor, now);
      NextIsStretch(log, log, cursor, now);
      NewerIsFresh(log, r.cursor, now);
      var start, mid := Start(log, cursor), Start(log, r.cursor);
      StretchesJoin(log, start, mid, |log|);
      assert log[start..|log|] == log[start..] && log[mid..|log|] == log[mid..];
      UnblockedSends(log, r.cursor, w, n - 1, heartbeatMs, now);
    }
  }

  // ----- One batch, on the rows themselves -----

  /**
   * A batch is refused exactly if there is a cursor and every row it names, there being none or one, is
   * more than an hour old.
   */
  lemma RefusedExactly(log: seq<Row>, cursor: Option<string>, now: int)
    requires ValidLog(log)
    ensures Next(log, cursor, now).ReplayExpired?
            <==> cursor.Some? && forall i :: 0 <= i < |log| && log[i].eventId == cursor.value ==> now - log[i].createdAt > 3600000
  {
    hide ExpiryReason, BatchEnd, Published;
    if cursor.Some? {
      var k := IndexOf(log, cursor.value);
      forall i | 0 <= i < |log| && log[i].eventId == cursor.value ensures i == k && k < |log| {
        assert k <= i;
        assert k < |log| ==> log[k].eventId == cursor.value;
      }
    }
  }

  /** The reason tells a cursor nobody has from an old one, and an old one's age to the nearest second. */
  lemma ReasonTells(log: seq<Row>, id: string, now: int)
    requires Next(log, Some(id), now).ReplayExpired?
    ensures var reason := Next(log, Some(id), now).reason;
            && ((forall i :: 0 <= i < |log| ==> log[i].eventId != id) ==> reason == "the cursor names an event this installation does not have")
            && (forall i :: 0 <= i < |log| && log[i].eventId == id && (forall j :: 0 <= j < i ==> log[j].eventId != id) ==>
                  exists s :: 1000 * s - 500 <= now - log[i].createdAt < 1000 * s + 500
                              && reason == "the cursor is " + ShowInt(s) + "s old and the replay window is 3600s")
  {
    hide ShowInt, ExpiryReason, IndexOf, Stale;
    var k := IndexOf(log, id);
    UnknownReason(log, id, now);
    forall i | 0 <= i < |log| && log[i].eventId == id && (forall j :: 0 <= j < i ==> log[j].eventId != id)
      ensures exists s :: 1000 * s - 500 <= now - log[i].createdAt < 1000 * s + 500
                          && ExpiryReason(log, id, now) == "the cursor is " + ShowInt(s) + "s old and the replay window is 3600s"
    {
      assert i == k;
      var s := OldReason(log, id, now);
    }
  }

  lemma UnknownReason(log: seq<Row>, id: string, now: int)
    ensures IndexOf(log, id) == |log| ==> ExpiryReason(log, id, now) == "the cursor names an event this installation does not have"
  {
    hide ShowInt, RoundedSeconds;
  }

  lemma OldReason(log: seq<Row>, id: string, now: int) returns (s: int)
    requires IndexOf(log, id) < |log|
    ensures 1000 * s - 500 <= now - log[IndexOf(log, id)].createdAt < 1000 * s + 500
    ensures ExpiryReason(log, id, now) == "the cursor is " + ShowInt(s) + "s old and the replay window is 3600s"
  {
    hide ShowInt, IndexOf;
    s := RoundedSeconds(now - log[IndexOf(log, id)].createdAt);
    ShowWindow();
    WindowText("the cursor is " + ShowInt(s));
  }

  lemma WindowText(age: string)
    ensures age + "s old and the replay window is " + "3600" + "s" == age + "s old and the replay window is 3600s"
  {
    assert "s old and the replay window is " + "3600" + "s" == "s old and the replay window is 3600s";
    assert age + "s old and the replay window is " + "3600" + "s" == age + ("s old and the replay window is " + "3600" + "s");
  }

  lemma ShowWindow()
    ensures ShowInt(3600) == "3600"
  {
    assert ShowNat(3) == "3";
    assert ShowNat(36) == "36";
    assert ShowNat(360) == "360";
  }

  lemma {:induction false} BatchIsFull(log: seq<Row>, from: nat, limit: nat)
    requires from <= |log|
    ensures var end := BatchEnd(log, from, limit);
            && Selected(log[from..end]) <= limit
            && (Selected(log[end..]) > 0 ==> Selected(log[from..end]) == limit)
    decreases |log| - from
  {
    var end := BatchEnd(log, from, limit);
    assert log[from..from] == [];
    if limit > 0 && from < |log| {
      var next := BatchEnd(log, from + 1, if log[from].mine then limit - 1 else limit);
      BatchIsFull(log, from + 1, if log[from].mine then limit - 1 else limit);
      assert log[from..][1..] == log[from + 1..];
      if end > from {
        assert end == next;
        assert log[from..end][0] == log[from] && log[from..end][1..] == log[from + 1..end];
      } else {
        assert log[from + 1..from + 1] == [];
      }
    } else if from == |log| {
      assert log[end..] == [];
    }
  }

  /** The first row behind a cursor, on the rows themselves. */
  predicate Behind(log: seq<Row>, cursor: Option<string>, start: nat)
  {
    match cursor case None => start == 0 case Some(id) => 0 < start <= |log| && log[start - 1].eventId == id
  }

  /**
   * Otherwise it is what may be seen of the next 500 rows of the subscription behind the cursor, or of
   * all if there are no more, and leads to the last of them.
   */
  lemma BatchExactly(log: seq<Row>, cursor: Option<string>, now: int) returns (start: nat, end: nat)
    requires ValidLog(log) && Next(log, cursor, now).Replay?
    ensures Behind(log, cursor, start) && start <= end <= |log|
    ensures var r := Next(log, cursor, now);
            r.events == Published(log[start..end]) && r.cursor == if end == start then cursor else Some(log[end - 1].eventId)
    ensures end > start ==> log[end - 1].mine
    ensures Selected(log[start..end]) <= 500
    ensures Selected(log[end..]) > 0 ==> Selected(log[start..end]) == 500
  {
    hide Published, BatchEnd, Selected, IndexOf;
    start := Start(log, cursor);
    end := BatchEnd(log, start, MAX_EVENTS);
    NextLeads(log, log, cursor, now);
    BatchIsFull(log, start, MAX_EVENTS);
  }

  /** What is published: each selected row the subscriber may see, once and in order, and nothing else. */
  lemma {:induction false} PublishedExactly(log: seq<Row>) returns (rows: seq<nat>)
    ensures |rows| == |Published(log)|
    ensures forall k :: 0 <= k < |rows| ==>
              rows[k] < |log| && log[rows[k]].mine && log[rows[k]].published == Some(Published(log)[k])
    ensures forall k, l :: 0 <= k < l < |rows| ==> rows[k] < rows[l]
    ensures forall i :: 0 <= i < |log| && log[i].mine && log[i].published.Some? ==> i in rows
  {
    if log == [] {
      rows := [];
    } else {
      var n := |log| - 1;
      var front := log[..n];
      var before := PublishedExactly(front);
      assert log == front + [log[n]];
      PublishedAppend(front, [log[n]]);
      assert [log[n]][1..] == [];
      rows := before + if log[n].mine && log[n].published.Some? then [n] else [];
      assert forall i :: 0 <= i < n ==> log[i] == front[i];
    }
  }

  // ----- When a connection is silent -----

  /**
   * Polls that are all made write nothing exactly if they find no event and no stale cursor, and none
   * comes a heartbeat interval or more behind the last write.
   */
  lemma {:induction false} SilentExactly(cursor: Option<string>, lastWrite: int, polls: seq<Poll>, heartbeatMs: int)
    requires forall k :: 0 <= k < |polls| ==> polls[k].open
    ensures Streamed(cursor, lastWrite, polls, heartbeatMs) == [] <==>
            && Events(Streamed(cursor, lastWrite, polls, heartbeatMs)) == []
            && (forall k: nat :: !StaleAt(cursor, polls, k))
            && (forall k :: 0 <= k < |polls| ==> polls[k].now - lastWrite < heartbeatMs)
    decreases polls
  {
    hide Streamed, Next, Stale, StaleAt, Events, Batch;
    var sent := Streamed(cursor, lastWrite, polls, heartbeatMs);
    StreamedStep(cursor, lastWrite, polls, heartbeatMs);
    EventsNone();
    NoticeExactly(cursor, lastWrite, polls, heartbeatMs);
    NoticeAlone("");
    if polls != [] {
      var r, now := Next(polls[0].log, cursor, polls[0].now), polls[0].now;
      if r.Replay? {
        EventsOfBatch(r.events);
        if r.events == [] && now - lastWrite < heartbeatMs {
          var later := polls[1..];
          SilentExactly(r.cursor, lastWrite, later, heartbeatMs);
          forall k: nat | !StaleAt(cursor, polls, k + 1) ensures !StaleAt(r.cursor, later, k) { StaleAtStep(cursor, polls, k + 1); }
          assert forall k :: 0 <= k < |later| ==> later[k] == polls[k + 1];
        } else if r.events != [] {
          EventsAppend(Batch(r.events), Streamed(r.cursor, now, polls[1..], heartbeatMs));
          NotEmpty(r.events);
        }
      }
    }
  }

  lemma NotEmpty(envelopes: seq<Envelope>)
    requires envelopes != []
    ensures Batch(envelopes) != []
  {
  }

  /** What one poll that finds no stale cursor writes, and when the last write then was. */
  function Wrote(r: Resolution, now: int, lastWrite: int, heartbeatMs: int): (seq<Sent>, int)
    requires r.Replay?
  {
    if r.events != [] then (Batch(r.events), now) else if now - lastWrite >= heartbeatMs then ([Beat], now) else ([], lastWrite)
  }

  lemma PollWrites(cursor: Option<string>, lastWrite: int, polls: seq<Poll>, heartbeatMs: int)
    requires polls != [] && polls[0].open && !Stale(polls[0].log, cursor, polls[0].now)
    ensures var r := Next(polls[0].log, cursor, polls[0].now);
            var (sent, w) := Wrote(r, polls[0].now, lastWrite, heartbeatMs);
            && Streamed(cursor, lastWrite, polls, heartbeatMs) == sent + Streamed(r.cursor, w, polls[1..], heartbeatMs)
            && LastWrite(cursor, lastWrite, polls, heartbeatMs) == LastWrite(r.cursor, w, polls[1..], heartbeatMs)
            && Reached(cursor, polls) == Reached(r.cursor, polls[1..])
  {
    hide Next, Streamed, Stale, Batch;
    StreamedStep(cursor, lastWrite, polls, heartbeatMs);
  }

  /** What more polls write is added to what the earlier ones wrote, from the cursor and the last write they left. */
  lemma {:induction false} StreamedMore(cursor: Option<string>, lastWrite: int, polls: seq<Poll>, more: seq<Poll>, heartbeatMs: int)
    requires (forall k :: 0 <= k < |polls| ==> polls[k].open) && forall k: nat :: !StaleAt(cursor, polls, k)
    ensures var reached, w := Reached(cursor, polls), LastWrite(cursor, lastWrite, polls, heartbeatMs);
            && Streamed(cursor, lastWrite, polls + more, heartbeatMs)
               == Streamed(cursor, lastWrite, polls, heartbeatMs) + Streamed(reached, w, more, heartbeatMs)
            && LastWrite(cursor, lastWrite, polls + more, heartbeatMs) == LastWrite(reached, w, more, heartbeatMs)
    decreases polls
  {
    hide Streamed, Next, Stale, StaleAt, Wrote, Reached, LastWrite;
    if polls == [] {
      assert polls + more == more;
      NoPolls(cursor, lastWrite, heartbeatMs);
    } else {
      var r, later := Next(polls[0].log, cursor, polls[0].now), polls[1..];
      StaleAtFirst(cursor, polls);
      assert (polls + more)[1..] == later + more && (polls + more)[0] == polls[0];
      PollWrites(cursor, lastWrite, polls, heartbeatMs);
      PollWrites(cursor, lastWrite, polls + more, heartbeatMs);
      forall k: nat ensures !StaleAt(r.cursor, later, k) { StaleAtStep(cursor, polls, k + 1); }
      StreamedMore(r.cursor, Wrote(r, polls[0].now, lastWrite, heartbeatMs).1, later, more, heartbeatMs);
    }
  }

  lemma NoPolls(cursor: Option<string>, lastWrite: int, heartbeatMs: int)
    ensures Reached(cursor, []) == cursor && LastWrite(cursor, lastWrite, [], heartbeatMs) == lastWrite
    ensures Streamed(cursor, lastWrite, [], heartbeatMs) == []
  {
  }

  /** The last write is that of the last poll that wrote. */
  lemma LastWriteMoves(cursor: Option<string>, lastWrite: int, polls: seq<Poll>, poll: Poll, heartbeatMs: int)
    requires (forall k :: 0 <= k < |polls| ==> polls[k].open) && (forall k: nat :: !StaleAt(cursor, polls, k)) && poll.open
    ensures LastWrite(cursor, lastWrite, polls + [poll], heartbeatMs)
            == if Streamed(cursor, lastWrite, polls + [poll], heartbeatMs) == Streamed(cursor, lastWrite, polls, heartbeatMs)
               then LastWrite(cursor, lastWrite, polls, heartbeatMs) else poll.now
    ensures LastWrite(cursor, lastWrite, [], heartbeatMs) == lastWrite
  {
    hide Streamed, StaleAt, Reached, LastWrite;
    var reached, w := Reached(cursor, polls), LastWrite(cursor, lastWrite, polls, heartbeatMs);
    StreamedMore(cursor, lastWrite, polls, [poll], heartbeatMs);
    NoPolls(cursor, lastWrite, heartbeatMs);
    OnePollWrites(reached, w, poll, heartbeatMs);
    var before, one := Streamed(cursor, lastWrite, polls, heartbeatMs), Streamed(reached, w, [poll], heartbeatMs);
    if one == [] { assert before + one == before; } else { assert |before + one| > |before|; }
  }

  lemma OnePollWrites(cursor: Option<string>, lastWrite: int, poll: Poll, heartbeatMs: int)
    requires poll.open
    ensures LastWrite(cursor, lastWrite, [poll], heartbeatMs)
            == if Streamed(cursor, lastWrite, [poll], heartbeatMs) == [] then lastWrite else poll.now
  {
    hide Next, Stale;
    assert [poll][1..] == [];
    if !Stale(poll.log, cursor, poll.now) {
      var r := Next(poll.log, cursor, poll.now);
      NoPolls(r.cursor, lastWrite, heartbeatMs);
      NoPolls(r.cursor, poll.now, heartbeatMs);
      if r.events != [] { NotEmpty(r.events); }
    }
  }
}
