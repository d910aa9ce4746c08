/**
 * The reconnecting client (packages/realtime/src/client.ts) as a machine driven by its environment:
 * each round of `connect` is given what the network, the handlers and the abort signal do.
 */
module RealtimeClient {
  import opened Options
  import opened JsNumber
  import opened Text
  import opened Wire
  import opened ChunkInvariance
  import opened EventStream
  import opened Backoff

  const REPLAY_EXPIRED_EVENT: string := "replay.expired"

  /**
   * The JSON functions the client and the server call: writing and reading an envelope, and writing
   * and reading the notice of an expired replay window. `read` answers `None` for text that is not an
   * object with a string `eventId`.
   */
  datatype Codec = Codec(write: Envelope -> string, read: string -> Option<Envelope>,
                         writeReason: string -> string, readReason: string -> string)

  // ----- Failures -----

  datatype Failure = Recoverable(renewToken: bool) | Fatal

  function ClassifyStatus(status: int): Failure
  {
    if status == 401 then Recoverable(true)
    else if status == 403 || status == 404 then Fatal
    else if status == 429 || status >= 500 then Recoverable(false)
    else if status >= 400 then Fatal
    else Recoverable(false)
  }

  // ----- The environment -----

  /** How a callback or an awaited call ends: an abort error is told apart from any other. */
  datatype Outcome = Returns | Throws(abort: bool)

  /** How reading a body ends: the server closes it, or the read rejects. */
  datatype Ending = Closed | Broken(abort: bool)

  datatype Reply =
    | NoReply(abort: bool)
    | Refused(status: int)
    | NoBody
    | Body(chunks: seq<string>, ending: Ending)

  /** What the caller's handlers were asked to do; `completed` tells whether `onEvent` returned. */
  datatype Call = Opened | ProjectionRequired(reason: string) | Delivered(envelope: Envelope, completed: bool)

  // ----- One connection -----

  /** The client while it works through the frames of one connection. */
  datatype Progress = Progress(cursor: Option<string>, hint: Option<Decimal>, calls: seq<Call>, thrown: Option<bool>)

  function ThrownBy(outcome: Outcome): Option<bool>
  {
    match outcome case Returns => None case Throws(abort) => Some(abort)
  }

  /** One frame. `outcome(n)` is what the handler does on the connection's n-th call. */
  function OnFrame(codec: Codec, outcome: nat -> Outcome, p: Progress, frame: ParsedFrame): Progress
  {
    if p.thrown.Some? then p
    else
      var hint := if frame.retry.Some? then frame.retry else p.hint;
      var o := outcome(|p.calls|);
      if frame.event == Some(REPLAY_EXPIRED_EVENT) then
        Progress(p.cursor, hint, p.calls + [ProjectionRequired(codec.readReason(frame.data))], ThrownBy(o))
      else if frame.data == "" || codec.read(frame.data).None? then p.(hint := hint)
      else
        var e := codec.read(frame.data).value;
        Progress(if o.Returns? then Some(e.eventId) else p.cursor, hint,
                 p.calls + [Delivered(e, o.Returns?)], ThrownBy(o))
  }

  function OnFrames(codec: Codec, outcome: nat -> Outcome, p: Progress, frames: seq<ParsedFrame>): Progress
    decreases frames
  {
    if frames == [] then p else OnFrames(codec, outcome, OnFrame(codec, outcome, p, frames[0]), frames[1..])
  }

  function Begin(cursor: Option<string>, hint: Option<Decimal>, outcome: nat -> Outcome): Progress
  {
    Progress(cursor, hint, [Opened], ThrownBy(outcome(0)))
  }

  /** What one attempt does: to the cursor and the hint, to the handlers, and how it ends. */
  datatype AttemptResult = AttemptResult(cursor: Option<string>, hint: Option<Decimal>, calls: seq<Call>, failure: Option<Failure>)

  function Classified(abort: bool): Option<Failure> { if abort then None else Some(Recoverable(false)) }

  function Attempted(codec: Codec, cursor: Option<string>, hint: Option<Decimal>, reply: Reply, outcome: nat -> Outcome): AttemptResult
  {
    match reply
    case NoReply(abort) => AttemptResult(cursor, hint, [], Classified(abort))
    case Refused(status) => AttemptResult(cursor, hint, [], Some(ClassifyStatus(status)))
    case NoBody => AttemptResult(cursor, hint, [], Some(Recoverable(false)))
    case Body(chunks, ending) =>
      var p := OnFrames(codec, outcome, Begin(cursor, hint, outcome), Frames(PushAll("", chunks).blocks));
      AttemptResult(p.cursor, p.hint, p.calls,
                    if p.thrown.Some? then Classified(p.thrown.value)
                    else match ending case Closed => None case Broken(abort) => Classified(abort))
  }

  // ----- The connect loop -----

  /**
   * One turn of the loop: the abort signal as it stands before and after the attempt, when the server
   * was reached, the reply and the handlers' outcomes, what `onFailure` and `renewToken` do, and the
   * random number drawn.
   */
  datatype Round = Round(abortedBefore: bool, at: int, reply: Reply, outcome: nat -> Outcome, abortedAfter: bool,
                         onFailure: Outcome, renewToken: Option<Outcome>, random: real)

  /** How `connect` ends; `Running` when the script ends first. A throw of `onFailure` or `renewToken` rejects it. */
  datatype Stop = StoppedAborted | StoppedFatal | Rejected | Running

  /** The log of the loop: each attempt's failure, and each sleep with the server's hint then in force. */
  datatype Step = Tried(failure: Option<Failure>) | Slept(ms: int, hint: Option<Decimal>)

  datatype RunResult = RunResult(stop: Stop, attempts: nat, cursor: Option<string>, hint: Option<Decimal>,
                                 calls: seq<Call>, steps: seq<Step>)

  /** How the loop goes on after an attempt: it stops, or it sleeps and goes round again. */
  function Verdict(failure: Option<Failure>, round: Round): Option<Stop>
  {
    match failure
    case None => if round.abortedAfter then Some(StoppedAborted) else None
    case Some(f) =>
      if round.onFailure.Throws? then Some(Rejected)
      else if f.Fatal? then Some(StoppedFatal)
      else if f.renewToken && round.renewToken.Some? && round.renewToken.value.Throws? then Some(Rejected)
      else None
  }

  function HintValue(hint: Option<Decimal>): Option<real>
  {
    match hint case None => None case Some(d) => Some(Value(d))
  }

  function Run(codec: Codec, policy: Policy, cursor: Option<string>, hint: Option<Decimal>, attempts: nat, script: seq<Round>): RunResult
    decreases script
  {
    if script == [] then RunResult(Running, attempts, cursor, hint, [], [])
    else if script[0].abortedBefore then RunResult(StoppedAborted, attempts, cursor, hint, [], [])
    else
      var round := script[0];
      var a := Attempted(codec, cursor, hint, round.reply, round.outcome);
      var verdict := Verdict(a.failure, round);
      if verdict.Some? then RunResult(verdict.value, attempts + 1, a.cursor, a.hint, a.calls, [Tried(a.failure)])
      else
        var ms := ReconnectDelay(attempts + 1, policy, HintValue(a.hint), round.random);
        var later := Run(codec, policy, a.cursor, a.hint, attempts + 1, script[1..]);
        later.(calls := a.calls + later.calls, steps := [Tried(a.failure), Slept(ms, a.hint)] + later.steps)
  }

  // ----- The class -----

  lemma {:induction false} OnFramesAppend(codec: Codec, outcome: nat -> Outcome, p: Progress, a: seq<ParsedFrame>, b: seq<ParsedFrame>)
    ensures OnFrames(codec, outcome, p, a + b) == OnFrames(codec, outcome, OnFrames(codec, outcome, p, a), b)
    decreases a
  {
    hide OnFrame;
    if a == [] {
      assert a + b == b;
    } else {
      OnFramesAppend(codec, outcome, OnFrame(codec, outcome, p, a[0]), a[1..], b);
      assert (a + b)[0] == a[0] && (a + b)[1..] == a[1..] + b;
    }
  }

  /** After a throw the remaining frames change nothing. */
  lemma {:induction false} ThrownStays(codec: Codec, outcome: nat -> Outcome, p: Progress, frames: seq<ParsedFrame>)
    requires p.thrown.Some?
    ensures OnFrames(codec, outcome, p, frames) == p
    decreases frames
  {
    if frames != [] { ThrownStays(codec, outcome, p, frames[1..]); }
  }

  lemma {:induction false} FramesAppend(a: seq<string>, b: seq<string>)
    ensures Frames(a + b) == Frames(a) + Frames(b)
  {
    hide Parsed;
    if a == [] {
      assert a + b == b;
    } else {
      FramesAppend(a[1..], b);
      assert (a + b)[0] == a[0] && (a + b)[1..] == a[1..] + b;
    }
  }

  lemma PushAllStep(buffer: string, chunks: seq<string>)
    ensures chunks == [] ==> PushAll(buffer, chunks) == Cut([], buffer)
    ensures chunks != [] ==>
              var first := PushBlocks(buffer, chunks[0]);
              var later := PushAll(first.rest, chunks[1..]);
              PushAll(buffer, chunks) == Cut(first.blocks + later.blocks, later.rest)
  {
    hide PushBlocks;
  }

  lemma NoFrames(codec: Codec, outcome: nat -> Outcome, p: Progress)
    ensures Frames([]) == [] && OnFrames(codec, outcome, p, []) == p
  {
  }

  class Client {
    const codec: Codec
    const policy: Policy
    const parser: SseParser
    var cursor: Option<string>
    var serverRetryHintMs: Option<Decimal>

    constructor (codec: Codec, policy: Policy, cursor: Option<string>)
      ensures this.codec == codec && this.policy == policy && this.cursor == cursor
      ensures serverRetryHintMs == None && fresh(parser)
    {
      this.codec, this.policy, this.cursor := codec, policy, cursor;
      serverRetryHintMs := None;
      parser := new SseParser();
    }

    /** Works through the frames one chunk completed; answers the throw that ended it, if any. */
    method HandleFrames(frames: seq<ParsedFrame>, outcome: nat -> Outcome, calls0: seq<Call>)
      returns (calls: seq<Call>, thrown: Option<bool>)
      modifies this`cursor, this`serverRetryHintMs
      ensures Progress(cursor, serverRetryHintMs, calls, thrown)
              == OnFrames(codec, outcome, Progress(old(cursor), old(serverRetryHintMs), calls0, None), frames)
    {
      calls, thrown := calls0, None;
      for k := 0 to |frames|
        invariant thrown == None
        invariant OnFrames(codec, outcome, Progress(cursor, serverRetryHintMs, calls, None), frames[k..])
                  == OnFrames(codec, outcome, Progress(old(cursor), old(serverRetryHintMs), calls0, None), frames)
      {
        var frame := frames[k];
        ghost var rest := frames[k + 1..];
        assert frames[k..][0] == frame && frames[k..][1..] == rest;
        ghost var before := Progress(cursor, serverRetryHintMs, calls, None);
        if frame.retry.Some? { serverRetryHintMs := frame.retry; }
        var o := outcome(|calls|);
        if frame.event == Some(REPLAY_EXPIRED_EVENT) {
          calls := calls + [ProjectionRequired(codec.readReason(frame.data))];
          if o.Throws? { thrown := Some(o.abort); }
        } else if frame.data != "" && codec.read(frame.data).Some? {
          var envelope := codec.read(frame.data).value;
          calls := calls + [Delivered(envelope, o.Returns?)];
          if o.Throws? {
            thrown := Some(o.abort);
          } else {
            cursor := Some(envelope.eventId);
          }
        }
        assert Progress(cursor, serverRetryHintMs, calls, thrown) == OnFrame(codec, outcome, before, frame);
        if thrown.Some? {
          ThrownStays(codec, outcome, Progress(cursor, serverRetryHintMs, calls, thrown), rest);
          return;
        }
      }
    }

    /** One connection, from open to close. */
    method Attempt(reply: Reply, outcome: nat -> Outcome) returns (calls: seq<Call>, failure: Option<Failure>)
      modifies this`cursor, this`serverRetryHintMs, parser
      ensures AttemptResult(cursor, serverRetryHintMs, calls, failure)
              == Attempted(codec, old(cursor), old(serverRetryHintMs), reply, outcome)
    {
      hide OnFrame, PushAll, Frames, Normalised, Blocks;
      match reply
      case NoReply(abort) => return [], Classified(abort);
      case Refused(status) => return [], Some(ClassifyStatus(status));
      case NoBody => return [], Some(Recoverable(false));
      case Body(chunks, ending) =>
        calls := [Opened];
        ghost var begin := Begin(cursor, serverRetryHintMs, outcome);
        ghost var all := Frames(PushAll("", chunks).blocks);
        if outcome(0).Throws? {
          ThrownStays(codec, outcome, begin, all);
          return calls, Classified(outcome(0).abort);
        }
        parser.Reset();
        var thrown: Option<bool>;
        for k := 0 to |chunks|
          invariant var pending := Frames(PushAll(parser.buffer, chunks[k..]).blocks);
                    OnFrames(codec, outcome, begin, all)
                    == OnFrames(codec, outcome, Progress(cursor, serverRetryHintMs, calls, None), pending)
        {
          ghost var cut := PushBlocks(parser.buffer, chunks[k]);
          ghost var later := PushAll(cut.rest, chunks[k + 1..]);
          ghost var before := Progress(cursor, serverRetryHintMs, calls, None);
          PushAllStep(parser.buffer, chunks[k..]);
          assert chunks[k..][0] == chunks[k] && chunks[k..][1..] == chunks[k + 1..];
          FramesAppend(cut.blocks, later.blocks);
          OnFramesAppend(codec, outcome, before, Frames(cut.blocks), Frames(later.blocks));
          var frames := parser.Push(chunks[k]);
          calls, thrown := HandleFrames(frames, outcome, calls);
          if thrown.Some? {
            ThrownStays(codec, outcome, Progress(cursor, serverRetryHintMs, calls, thrown), Frames(later.blocks));
            return calls, Classified(thrown.value);
          }
        }
        PushAllStep(parser.buffer, []);
        assert chunks[|chunks|..] == [];
        NoFrames(codec, outcome, Progress(cursor, serverRetryHintMs, calls, None));
        match ending
        case Closed => failure := None;
        case Broken(abort) => failure := Classified(abort);
    }

    /**
     * Connects and keeps reconnecting until aborted, until something fatal or until the script of
     * rounds ends.
     */
    method Connect(script: seq<Round>) returns (stop: Stop, attempts: nat, calls: seq<Call>, steps: seq<Step>)
      modifies this`cursor, this`serverRetryHintMs, parser
      ensures RunResult(stop, attempts, cursor, serverRetryHintMs, calls, steps)
              == Run(codec, policy, old(cursor), old(serverRetryHintMs), 0, script)
    {
      hide Attempted, ReconnectDelay, Verdict, HintValue, Run;
      attempts, calls, steps := 0, [], [];
      ghost var whole := Run(codec, policy, cursor, serverRetryHintMs, 0, script);
      for k := 0 to |script|
        invariant var later := Run(codec, policy, cursor, serverRetryHintMs, attempts, script[k..]);
                  whole == later.(calls := calls + later.calls, steps := steps + later.steps)
      {
        var round := script[k];
        RunStep(codec, policy, cursor, serverRetryHintMs, attempts, script[k..]);
        assert script[k..][0] == round && script[k..][1..] == script[k + 1..];
        if round.abortedBefore { return StoppedAborted, attempts, calls + [], steps + []; }
        attempts := attempts + 1;
        var made, failure := Attempt(round.reply, round.outcome);
        calls, steps := calls + made, steps + [Tried(failure)];
        var verdict := Decide(failure, round);
        if verdict.Some? { return verdict.value, attempts, calls, steps; }
        var ms := ReconnectDelay(attempts, policy, HintValue(serverRetryHintMs), round.random);
        steps := steps + [Slept(ms, serverRetryHintMs)];
        assert steps[..|steps| - 2] + [Tried(failure), Slept(ms, serverRetryHintMs)] == steps;
      }
      RunStep(codec, policy, cursor, serverRetryHintMs, attempts, []);
      return Running, attempts, calls + [], steps + [];
    }

    /** What follows an attempt: an abort or a fatal failure stops, a token is renewed, and so on. */
    method Decide(failure: Option<Failure>, round: Round) returns (verdict: Option<Stop>)
      ensures verdict == Verdict(failure, round)
    {
      if failure == None {
        if round.abortedAfter { return Some(StoppedAborted); }
      } else {
        if round.onFailure.Throws? { return Some(Rejected); }
        if failure.value.Fatal? { return Some(StoppedFatal); }
        if failure.value.renewToken && round.renewToken.Some? {
          if round.renewToken.value.Throws? { return Some(Rejected); }
        }
      }
      return None;
    }
  }

  lemma RunStep(codec: Codec, policy: Policy, cursor: Option<string>, hint: Option<Decimal>, attempts: nat, script: seq<Round>)
    ensures script == [] ==>
              Run(codec, policy, cursor, hint, attempts, script) == RunResult(Running, attempts, cursor, hint, [], [])
    ensures script != [] && script[0].abortedBefore ==>
              Run(codec, policy, cursor, hint, attempts, script) == RunResult(StoppedAborted, attempts, cursor, hint, [], [])
    ensures script != [] && !script[0].abortedBefore ==>
              var a := Attempted(codec, cursor, hint, script[0].reply, script[0].outcome);
              var verdict := Verdict(a.failure, script[0]);
              var ms := ReconnectDelay(attempts + 1, policy, HintValue(a.hint), script[0].random);
              var later := Run(codec, policy, a.cursor, a.hint, attempts + 1, script[1..]);
              Run(codec, policy, cursor, hint, attempts, script)
              == if verdict.Some? then RunResult(verdict.value, attempts + 1, a.cursor, a.hint, a.calls, [Tried(a.failure)])
                 else later.(calls := a.calls + later.calls, steps := [Tried(a.failure), Slept(ms, a.hint)] + later.steps)
  {
    hide Attempted, ReconnectDelay, Verdict, HintValue;
  }
}
