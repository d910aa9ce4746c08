/**
 * The discipline of the reconnect loop over a whole run
 * (packages/realtime/src/client.ts:104-137, packages/realtime/src/backoff.ts:35-50).
 */
module Reconnect {
  import opened Options
  import opened JsNumber
  import opened Backoff
  import opened Wire
  import opened ChunkInvariance
  import opened EventStream
  import opened RealtimeClient

  /** The policies whose delays grow: no negative delay, no shrinking factor. */
  predicate Sensible(policy: Policy)
  {
    policy.initialMs >= 0.0 && policy.factor >= 1.0 && policy.maxMs >= 0.0
  }

  /** Half the jitter share of a delay. */
  function HalfJitter(policy: Policy, delay: real): real
  {
    if policy.jitter > 0.0 then Spread(policy, delay) / 2.0 else 0.0
  }

  /** Within half the jitter share of the centre, give or take the rounding. */
  predicate Near(policy: Policy, centre: real, ms: real)
  {
    centre - HalfJitter(policy, centre) - 0.5 <= ms <= centre + HalfJitter(policy, centre) + 0.5
  }

  // ----- One delay -----

  lemma {:induction false} PowGrows(base: real, n: nat, m: nat)
    requires base >= 1.0 && n <= m
    ensures 1.0 <= Pow(base, n) <= Pow(base, m)
  {
    if m > 0 {
      if n < m {
        PowGrows(base, n, m - 1);
        Times(base, Pow(base, m - 1));
      } else {
        PowGrows(base, n - 1, n - 1);
        Times(base, Pow(base, n - 1));
      }
    }
  }

  lemma Times(base: real, x: real)
    requires base >= 1.0 && x >= 1.0
    ensures base * x >= x
  {
    assert (base - 1.0) * x >= 0.0;
  }

  lemma Scales(a: real, x: real, y: real)
    requires a >= 0.0 && x <= y
    ensures a * x <= a * y
  {
    assert a * (y - x) >= 0.0;
  }

  lemma GrownGrows(policy: Policy, n: nat, m: nat)
    requires policy.initialMs >= 0.0 && policy.factor >= 1.0 && n <= m
    ensures 0.0 <= Grown(policy, n) <= Grown(policy, m)
  {
    hide Pow;
    PowGrows(policy.factor, n, m);
    Scales(policy.initialMs, Pow(policy.factor, n), Pow(policy.factor, m));
    Scales(policy.initialMs, 0.0, Pow(policy.factor, n));
  }

  /** The centre of the delay never falls from one attempt to a later one under the same hint. */
  lemma CentreGrows(policy: Policy, n: int, m: int, hint: Option<real>)
    requires Sensible(policy) && 1 <= n <= m
    ensures Centre(n, policy, hint) <= Centre(m, policy, hint)
    ensures hint.None? ==> Centre(n, policy, hint) <= policy.maxMs
    ensures hint.Some? ==> Centre(n, policy, hint) >= hint.value
    ensures Centre(n, policy, hint) >= 0.0
  {
    hide Grown;
    GrownGrows(policy, n - 1, m - 1);
  }

  lemma RoundNear(x: real)
    ensures x - 0.5 <= RoundHalfUp(x) as real <= x + 0.5
  {
  }

  lemma NotNegative(a: real, b: real)
    requires a >= 0.0 && b >= 0.0
    ensures a * b >= 0.0
  {
  }

  lemma SpreadIsWide(policy: Policy, delay: real)
    requires policy.jitter >= 0.0 && delay >= 0.0
    ensures Spread(policy, delay) >= 0.0
  {
    NotNegative(delay, policy.jitter);
  }

  lemma StaysInSpread(centre: real, spread: real, random: real)
    requires spread >= 0.0 && 0.0 <= random < 1.0
    ensures centre - spread / 2.0 <= Jittered(centre, spread, random) <= centre + spread / 2.0
  {
    NotNegative(spread, random);
    NotNegative(spread, 1.0 - random);
  }

  /** A delay lies within half the jitter share of its centre, give or take the rounding. */
  lemma DelayNearCentre(attempt: int, policy: Policy, hint: Option<real>, random: real)
    requires Sensible(policy) && attempt >= 1 && 0.0 <= random < 1.0
    ensures Near(policy, Centre(attempt, policy, hint), ReconnectDelay(attempt, policy, hint, random) as real)
  {
    hide Centre, Jittered, RoundHalfUp, Spread;
    var centre := Centre(attempt, policy, hint);
    CentreGrows(policy, attempt, attempt, hint);
    if policy.jitter > 0.0 {
      var spread := Spread(policy, centre);
      SpreadIsWide(policy, centre);
      StaysInSpread(centre, spread, random);
      var x := Jittered(centre, spread, random);
      RoundNear(x);
    } else {
      RoundNear(centre);
    }
  }

  // ----- Whole runs -----

  /** The sleep after the n-th attempt is near the centre for n and the hint then in force. */
  ghost predicate SleepOk(policy: Policy, n: int, step: Step)
    requires n >= 1
  {
    step.Slept? && Near(policy, Centre(n, policy, HintValue(step.hint)), step.ms as real)
  }

  predicate IsFatal(step: Step) { step.Tried? && step.failure == Some(Fatal) }

  /** Attempts and sleeps alternate, each attempt but the last is followed by one sleep near its centre. */
  ghost predicate Disciplined(policy: Policy, first: nat, steps: seq<Step>)
  {
    && (forall k :: 0 <= k < |steps| && k % 2 == 0 ==> steps[k].Tried?)
    && (forall k :: 0 <= k < |steps| && k % 2 == 1 ==> SleepOk(policy, first + k / 2 + 1, steps[k]))
    && (forall k :: 0 <= k < |steps| - 1 ==> !IsFatal(steps[k]))
  }

  lemma DisciplinedStep(policy: Policy, first: nat, tried: Step, slept: Step, later: seq<Step>)
    requires tried.Tried? && !IsFatal(tried) && slept.Slept? && SleepOk(policy, first + 1, slept)
    requires Disciplined(policy, first + 1, later)
    ensures Disciplined(policy, first, [tried, slept] + later)
  {
    hide SleepOk;
    var steps := [tried, slept] + later;
    forall k | 0 <= k < |steps| && k % 2 == 0 ensures steps[k].Tried? {
      if k > 0 { assert steps[k] == later[k - 2]; }
    }
    forall k | 0 <= k < |steps| - 1 ensures !IsFatal(steps[k]) {
      if k > 1 { assert steps[k] == later[k - 2]; }
    }
    forall k | 0 <= k < |steps| && k % 2 == 1 ensures SleepOk(policy, first + k / 2 + 1, steps[k]) {
      if k > 1 { assert steps[k] == later[k - 2] && first + 1 + (k - 2) / 2 + 1 == first + k / 2 + 1; }
    }
  }

  /**
   * Over every run: attempts and sleeps alternate with every sleep near its centre, a fatal failure is
   * always the last step, and no attempt starts in a round that finds the signal aborted or behind one.
   */
  lemma {:induction false} RunIsDisciplined(codec: Codec, policy: Policy, cursor: Option<string>, hint: Option<Decimal>,
                                            attempts: nat, script: seq<Round>)
    requires Sensible(policy)
    requires forall k :: 0 <= k < |script| ==> 0.0 <= script[k].random < 1.0
    ensures var r := Run(codec, policy, cursor, hint, attempts, script);
            && Disciplined(policy, attempts, r.steps)
            && r.attempts == attempts + (|r.steps| + 1) / 2
            && (forall k :: 0 <= k < |script| && script[k].abortedBefore ==> r.attempts <= attempts + k)
    decreases script
  {
    hide Attempted, ReconnectDelay, HintValue, Run, SleepOk, Centre;
    RunStep(codec, policy, cursor, hint, attempts, script);
    if script != [] && !script[0].abortedBefore {
      var round := script[0];
      var a := Attempted(codec, cursor, hint, round.reply, round.outcome);
      if Verdict(a.failure, round).None? {
        RunIsDisciplined(codec, policy, a.cursor, a.hint, attempts + 1, script[1..]);
        var later := Run(codec, policy, a.cursor, a.hint, attempts + 1, script[1..]);
        var ms := ReconnectDelay(attempts + 1, policy, HintValue(a.hint), round.random);
        SleepIsOk(policy, attempts + 1, a.hint, round.random);
        DisciplinedStep(policy, attempts, Tried(a.failure), Slept(ms, a.hint), later.steps);
        forall k | 0 <= k < |script| && script[k].abortedBefore
          ensures Run(codec, policy, cursor, hint, attempts, script).attempts <= attempts + k
        {
          assert script[1..][k - 1] == script[k];
        }
      }
    }
  }

  lemma SleepIsOk(policy: Policy, n: int, hint: Option<Decimal>, random: real)
    requires Sensible(policy) && n >= 1 && 0.0 <= random < 1.0
    ensures SleepOk(policy, n, Slept(ReconnectDelay(n, policy, HintValue(hint), random), hint))
  {
    hide HintValue, Centre, ReconnectDelay;
    DelayNearCentre(n, policy, HintValue(hint), random);
  }

  /** Two sleeps of one run under the same hint: the later one has the larger centre or an equal one. */
  lemma SleepsWiden(policy: Policy, first: nat, steps: seq<Step>, i: nat, j: nat)
    requires Sensible(policy) && Disciplined(policy, first, steps)
    requires i <= j < |steps| && i % 2 == 1 && j % 2 == 1 && steps[i].hint == steps[j].hint
    ensures var hint := HintValue(steps[i].hint);
            && SleepOk(policy, first + i / 2 + 1, steps[i]) && SleepOk(policy, first + j / 2 + 1, steps[j])
            && Centre(first + i / 2 + 1, policy, hint) <= Centre(first + j / 2 + 1, policy, hint)
  {
    hide HintValue, Centre;
    CentreGrows(policy, first + i / 2 + 1, first + j / 2 + 1, HintValue(steps[i].hint));
  }

  // ----- How a run ends -----

  /** A callback that `connect` awaits or calls outside its own `try` throws: `onFailure`, or the token renewal. */
  predicate CallbackThrows(failure: Failure, round: Round)
  {
    round.onFailure.Throws?
    || (failure.Recoverable? && failure.renewToken && round.renewToken.Some? && round.renewToken.value.Throws?)
  }

  /** No attempt is under way: none was made, or the last one has been slept behind. */
  predicate Waiting(steps: seq<Step>) { steps == [] || steps[|steps| - 1].Slept? }

  /** The last step is an attempt that ended so. */
  predicate LastTried(steps: seq<Step>, failure: Option<Failure>)
  {
    steps != [] && steps[|steps| - 1] == Tried(failure)
  }

  predicate LastThrows(steps: seq<Step>, round: Round)
  {
    steps != [] && steps[|steps| - 1].Tried? && steps[|steps| - 1].failure.Some?
    && CallbackThrows(steps[|steps| - 1].failure.value, round)
  }

  /**
   * How a run of `n` attempts ends. Between rounds it ends with the script, or as aborted if the signal
   * is up. Behind an attempt it ends as aborted if there was no failure and the signal is up, as fatal
   * if the failure is fatal and `onFailure` returns, and it rejects if a callback throws.
   */
  ghost predicate EndsAs(stop: Stop, steps: seq<Step>, n: nat, script: seq<Round>)
  {
    && n <= |script| && (n == 0 <==> steps == [])
    && (stop == Running <==> Waiting(steps) && n == |script|)
    && (stop == StoppedAborted <==> (Waiting(steps) && n < |script|) || LastTried(steps, None))
    && (Waiting(steps) && n < |script| ==> script[n].abortedBefore)
    && (LastTried(steps, None) ==> script[n - 1].abortedAfter)
    && (stop == StoppedFatal <==> LastTried(steps, Some(Fatal)) && script[n - 1].onFailure.Returns?)
    && (stop == Rejected <==> n > 0 && LastThrows(steps, script[n - 1]))
  }

  lemma EndsLater(stop: Stop, tried: Step, slept: Step, later: seq<Step>, n: nat, script: seq<Round>)
    requires script != [] && slept.Slept? && EndsAs(stop, later, n, script[1..])
    ensures EndsAs(stop, [tried, slept] + later, n + 1, script)
  {
    hide CallbackThrows;
    var steps := [tried, slept] + later;
    if later != [] {
      assert steps[|steps| - 1] == later[|later| - 1];
      assert script[n] == script[1..][n - 1];
    }
    if n < |script[1..]| { assert script[n + 1] == script[1..][n]; }
  }

  lemma EndsNow(failure: Option<Failure>, script: seq<Round>)
    requires script != [] && Verdict(failure, script[0]).Some?
    ensures EndsAs(Verdict(failure, script[0]).value, [Tried(failure)], 1, script)
  {
  }

  /** Every run ends so, and in no other way: in particular it rejects exactly if a callback of its last round throws. */
  lemma {:induction false} RunEnds(codec: Codec, policy: Policy, cursor: Option<string>, hint: Option<Decimal>,
                                   attempts: nat, script: seq<Round>)
    ensures var r := Run(codec, policy, cursor, hint, attempts, script);
            r.attempts >= attempts && EndsAs(r.stop, r.steps, r.attempts - attempts, script)
    decreases script
  {
    hide Attempted, ReconnectDelay, HintValue, Run, Verdict, CallbackThrows;
    RunStep(codec, policy, cursor, hint, attempts, script);
    if script != [] && !script[0].abortedBefore {
      var round := script[0];
      var a := Attempted(codec, cursor, hint, round.reply, round.outcome);
      if Verdict(a.failure, round).None? {
        RunEnds(codec, policy, a.cursor, a.hint, attempts + 1, script[1..]);
        var later := Run(codec, policy, a.cursor, a.hint, attempts + 1, script[1..]);
        var ms := ReconnectDelay(attempts + 1, policy, HintValue(a.hint), round.random);
        EndsLater(later.stop, Tried(a.failure), Slept(ms, a.hint), later.steps, later.attempts - attempts - 1, script);
      } else {
        EndsNow(a.failure, script);
      }
    }
  }

  /** No callback of the round throws. */
  predicate Quiet(round: Round) { round.onFailure.Returns? && (round.renewToken.Some? ==> round.renewToken.value.Returns?) }

  /** `connect` resolves, as its comment promises, whenever the caller's callbacks do not throw. */
  lemma QuietNeverRejects(codec: Codec, policy: Policy, cursor: Option<string>, hint: Option<Decimal>, attempts: nat, script: seq<Round>)
    requires forall k :: 0 <= k < |script| ==> Quiet(script[k])
    ensures Run(codec, policy, cursor, hint, attempts, script).stop != Rejected
  {
    hide Run;
    RunEnds(codec, policy, cursor, hint, attempts, script);
    var n := Run(codec, policy, cursor, hint, attempts, script).attempts - attempts;
    assert n > 0 ==> Quiet(script[n - 1]);
  }

  /** And it does reject: on a first attempt that fails when `onFailure` throws, or is told 401 when `renewToken` does. */
  lemma ConnectRejects(codec: Codec, policy: Policy, cursor: Option<string>, hint: Option<Decimal>, round: Round)
    requires !round.abortedBefore && !round.reply.Body?
    ensures round.reply == NoReply(false) && round.onFailure.Throws?
            ==> Run(codec, policy, cursor, hint, 0, [round]).stop == Rejected
    ensures round.reply == Refused(401) && round.onFailure.Returns? && round.renewToken.Some? && round.renewToken.value.Throws?
            ==> Run(codec, policy, cursor, hint, 0, [round]).stop == Rejected
  {
    hide Run, ReconnectDelay, HintValue;
    RunStep(codec, policy, cursor, hint, 0, [round]);
  }

  // ----- What a delay is -----

  /** A decimal stands for its digits shifted by its exponent. */
  lemma ValueExactly(digits: int, exponent: int)
    ensures Value(Decimal(digits, 0)) == digits as real
    ensures Value(Decimal(digits, exponent + 1)) == 10.0 * Value(Decimal(digits, exponent))
  {
    if exponent >= 0 {
      assert Ten(exponent + 1) == 10.0 * Ten(exponent);
      Swaps(digits as real, Ten(exponent));
    } else if exponent == -1 {
      assert Ten(1) == 10.0 * Ten(0) && Ten(0) == 1.0;
    } else {
      var n := -exponent - 1;
      assert Ten(n + 1) == 10.0 * Ten(n);
      Cancels(digits as real, Ten(n));
    }
  }

  lemma Swaps(a: real, b: real)
    ensures a * (10.0 * b) == 10.0 * (a * b)
  {
  }

  lemma Cancels(a: real, b: real)
    requires b > 0.0
    ensures a / b == 10.0 * (a / (10.0 * b))
  {
    var q := a / (10.0 * b);
    assert q * (10.0 * b) == a;
    assert (10.0 * q) * b == a;
  }

  /**
   * Without a hint the first delay is the initial one and each next one is `factor` times the one
   * before, until the maximum is reached; a hint is the least delay.
   */
  lemma CentreExactly(policy: Policy, n: int, hint: real)
    requires n >= 1
    ensures Centre(1, policy, None) == if policy.initialMs <= policy.maxMs then policy.initialMs else policy.maxMs
    ensures Sensible(policy) && Centre(n, policy, None) < policy.maxMs ==>
              var next := policy.factor * Centre(n, policy, None);
              Centre(n + 1, policy, None) == if next <= policy.maxMs then next else policy.maxMs
    ensures Sensible(policy) && Centre(n, policy, None) == policy.maxMs ==> Centre(n + 1, policy, None) == policy.maxMs
    ensures Centre(n, policy, Some(hint)) == if Centre(n, policy, None) <= hint then hint else Centre(n, policy, None)
  {
    hide Pow, Grown;
    GrownStep(policy, n - 1);
    if Sensible(policy) { GrownGrows(policy, n - 1, n); }
  }

  lemma GrownStep(policy: Policy, n: nat)
    ensures Grown(policy, 0) == policy.initialMs
    ensures Grown(policy, n + 1) == policy.factor * Grown(policy, n)
  {
    assert Pow(policy.factor, n + 1) == policy.factor * Pow(policy.factor, n);
    Regroups(policy.initialMs, policy.factor, Pow(policy.factor, n));
  }

  lemma Regroups(a: real, b: real, c: real)
    ensures a * (b * c) == b * (a * c)
  {
  }

  /** The delays of the default policy: a second, doubled up to half a minute, three tenths of it at random. */
  lemma DefaultDelays()
    ensures var p := DEFAULT_RECONNECT;
            && Centre(1, p, None) == 1000.0 && Centre(2, p, None) == 2000.0 && Centre(3, p, None) == 4000.0
            && Centre(5, p, None) == 16000.0 && Centre(6, p, None) == 30000.0 && p.jitter == 0.3
  {
    var p := DEFAULT_RECONNECT;
    CentreExactly(p, 1, 0.0);
    CentreExactly(p, 2, 0.0);
    CentreExactly(p, 3, 0.0);
    CentreExactly(p, 4, 0.0);
    CentreExactly(p, 5, 0.0);
  }

  /** A delay varied by a share: by half of it down for the random number 0, and by nearly half up for one near 1. */
  function Varied(delay: real, share: real, random: real): real { delay * (1.0 + share * (random - 0.5)) }

  /** A delay is the nearest millisecond, halves up, of its centre varied by the jitter share; before any attempt it is 0. */
  lemma DelayExactly(attempt: int, policy: Policy, hint: Option<real>, random: real)
    ensures attempt < 1 ==> ReconnectDelay(attempt, policy, hint, random) == 0
    ensures attempt >= 1 ==>
              var centre := Centre(attempt, policy, hint);
              var x := if policy.jitter > 0.0 then Varied(centre, policy.jitter, random) else centre;
              var ms := ReconnectDelay(attempt, policy, hint, random) as real;
              x - 0.5 < ms <= x + 0.5
  {
    if attempt < 1 { return; }
    hide Centre, Varied, Jittered, Spread, RoundHalfUp;
    var centre := Centre(attempt, policy, hint);
    JitteredIsVaried(policy, centre, random);
    RoundsUp(Jittered(centre, Spread(policy, centre), random));
    RoundsUp(centre);
  }

  lemma RoundsUp(x: real)
    ensures x - 0.5 < RoundHalfUp(x) as real <= x + 0.5
  {
  }

  lemma JitteredIsVaried(policy: Policy, c: real, random: real)
    ensures Jittered(c, Spread(policy, c), random) == Varied(c, policy.jitter, random)
  {
    var s := c * policy.jitter;
    assert Varied(c, policy.jitter, random) == c + c * (policy.jitter * (random - 0.5)) by { Distributes(c, policy.jitter * (random - 0.5)); }
    assert c * (policy.jitter * (random - 0.5)) == s * (random - 0.5) by { Associates(c, policy.jitter, random - 0.5); }
    assert s * (random - 0.5) == s * random - s / 2.0;
  }

  lemma Distributes(a: real, b: real)
    ensures a * (1.0 + b) == a + a * b
  {
  }

  lemma Associates(a: real, b: real, c: real)
    ensures a * (b * c) == (a * b) * c
  {
  }

  // ----- What follows an attempt -----

  /**
   * A refused request ends the run as fatal exactly for the client errors other than 401 and 429, and is
   * followed by a sleep for every other status; the token is renewed exactly for 401.
   */
  lemma RefusalExactly(codec: Codec, policy: Policy, cursor: Option<string>, hint: Option<Decimal>, round: Round, status: int)
    requires round.reply == Refused(status) && !round.abortedBefore && round.onFailure.Returns?
    ensures var r := Run(codec, policy, cursor, hint, 0, [round]);
            var fatal := 400 <= status < 500 && status != 401 && status != 429;
            && (fatal ==> r.stop == StoppedFatal && |r.steps| == 1)
            && (!fatal && Quiet(round) ==> r.stop == Running && |r.steps| == 2 && r.steps[1].Slept?)
            && (round.renewToken.Some? && round.renewToken.value.Throws? ==> (r.stop == Rejected <==> status == 401))
  {
    hide Run, ReconnectDelay, HintValue;
    RunStep(codec, policy, cursor, hint, 0, [round]);
    assert [round][1..] == [];
    RunStep(codec, policy, cursor, hint, 1, []);
  }

  /** A request that gets no reply is followed by a sleep, unless it was aborted and the signal is still up. */
  lemma UnansweredExactly(codec: Codec, policy: Policy, cursor: Option<string>, hint: Option<Decimal>, round: Round, abort: bool)
    requires round.reply == NoReply(abort) && !round.abortedBefore && round.onFailure.Returns?
    ensures var r := Run(codec, policy, cursor, hint, 0, [round]);
            if abort && round.abortedAfter then r.stop == StoppedAborted && |r.steps| == 1
            else r.stop == Running && |r.steps| == 2 && r.steps[1].Slept?
  {
    hide Run, ReconnectDelay, HintValue;
    RunStep(codec, policy, cursor, hint, 0, [round]);
    assert [round][1..] == [];
    RunStep(codec, policy, cursor, hint, 1, []);
  }

  /**
   * A connection that got a reply it could use fails with a reason to try again, and only a 401 asks for a new
   * token; it does not fail if the server closed it, or if an abort ended it, in the body or in a handler.
   */
  lemma FailureExactly(codec: Codec, cursor: Option<string>, hint: Option<Decimal>, reply: Reply, outcome: nat -> Outcome)
    ensures var failure := Attempted(codec, cursor, hint, reply, outcome).failure;
            && (failure == Some(Recoverable(true)) <==> reply == Refused(401))
            && (failure == Some(Fatal) ==> reply.Refused?)
            && (reply.NoBody? ==> failure == Some(Recoverable(false)))
    ensures reply.Body? ==>
              var thrown := OnFrames(codec, outcome, Begin(cursor, hint, outcome), Frames(PushAll("", reply.chunks).blocks)).thrown;
              Attempted(codec, cursor, hint, reply, outcome).failure.None? <==>
              thrown == Some(true) || (thrown.None? && (reply.ending == Closed || reply.ending == Broken(true)))
  {
    hide OnFrames, Frames, PushAll, Begin;
  }

  /** The last of the frames with a `retry`. */
  predicate LastRetry(frames: seq<ParsedFrame>, k: nat)
  {
    k < |frames| && frames[k].retry.Some? && forall j :: k < j < |frames| ==> frames[j].retry.None?
  }

  /** Behind frames whose handlers return the hint is the last `retry` among them, and unchanged without one. */
  lemma {:induction false} HintIsLastRetry(codec: Codec, outcome: nat -> Outcome, p: Progress, frames: seq<ParsedFrame>)
    requires OnFrames(codec, outcome, p, frames).thrown.None?
    ensures forall k: nat :: LastRetry(frames, k) ==> OnFrames(codec, outcome, p, frames).hint == frames[k].retry
    ensures (forall k :: 0 <= k < |frames| ==> frames[k].retry.None?) ==> OnFrames(codec, outcome, p, frames).hint == p.hint
    decreases frames
  {
    hide OnFrame;
    if frames != [] {
      var q, rest := OnFrame(codec, outcome, p, frames[0]), frames[1..];
      if p.thrown.Some? { ThrownStays(codec, outcome, p, frames); }
      HintIsLastRetry(codec, outcome, q, rest);
      assert q.hint == (if frames[0].retry.Some? then frames[0].retry else p.hint) by { FrameHint(codec, outcome, p, frames[0]); }
      assert forall j :: 0 < j < |frames| ==> frames[j] == rest[j - 1];
      forall k: nat | LastRetry(frames, k) && k > 0 ensures LastRetry(rest, k - 1) {
        assert forall j :: k - 1 < j < |rest| ==> rest[j] == frames[j + 1];
      }
      if LastRetry(frames, 0) { assert forall j :: 0 <= j < |rest| ==> rest[j] == frames[j + 1]; }
    }
  }

  lemma FrameHint(codec: Codec, outcome: nat -> Outcome, p: Progress, frame: ParsedFrame)
    requires p.thrown.None?
    ensures OnFrame(codec, outcome, p, frame).hint == if frame.retry.Some? then frame.retry else p.hint
  {
  }

  /** The sleep behind a connection that the server closed follows the last `retry` it sent, or the one before. */
  lemma SleepFollowsRetry(codec: Codec, policy: Policy, cursor: Option<string>, hint: Option<Decimal>, attempts: nat, round: Round, k: nat)
    requires Sensible(policy) && 0.0 <= round.random < 1.0
    requires !round.abortedBefore && !round.abortedAfter && round.reply.Body? && round.reply.ending == Closed
    requires var frames := Frames(PushAll("", round.reply.chunks).blocks);
             OnFrames(codec, round.outcome, Begin(cursor, hint, round.outcome), frames).thrown.None?
    ensures var frames := Frames(PushAll("", round.reply.chunks).blocks);
            var r := Run(codec, policy, cursor, hint, attempts, [round]);
            && |r.steps| == 2 && r.steps[1].Slept?
            && (LastRetry(frames, k) ==> r.steps[1].hint == frames[k].retry)
            && ((forall j :: 0 <= j < |frames| ==> frames[j].retry.None?) ==> r.steps[1].hint == hint)
            && Near(policy, Centre(attempts + 1, policy, HintValue(r.steps[1].hint)), r.steps[1].ms as real)
  {
    hide Run, ReconnectDelay, HintValue, OnFrames, PushAll, Frames, Near, Centre, Attempted, LastRetry;
    var frames := Frames(PushAll("", round.reply.chunks).blocks);
    var a := Attempted(codec, cursor, hint, round.reply, round.outcome);
    ClosedAttempt(codec, cursor, hint, round);
    OneRoundSleeps(codec, policy, cursor, hint, attempts, round);
    HintIsLastRetry(codec, round.outcome, Begin(cursor, hint, round.outcome), frames);
    DelayNearCentre(attempts + 1, policy, HintValue(a.hint), round.random);
  }

  lemma ClosedAttempt(codec: Codec, cursor: Option<string>, hint: Option<Decimal>, round: Round)
    requires round.reply.Body? && round.reply.ending == Closed
    ensures var p := OnFrames(codec, round.outcome, Begin(cursor, hint, round.outcome), Frames(PushAll("", round.reply.chunks).blocks));
            var a := Attempted(codec, cursor, hint, round.reply, round.outcome);
            a.hint == p.hint && (p.thrown.None? ==> a.failure.None?)
  {
    hide OnFrames, PushAll, Frames, Begin;
  }

  lemma OneRoundSleeps(codec: Codec, policy: Policy, cursor: Option<string>, hint: Option<Decimal>, attempts: nat, round: Round)
    requires !round.abortedBefore && !round.abortedAfter && Attempted(codec, cursor, hint, round.reply, round.outcome).failure.None?
    ensures var a := Attempted(codec, cursor, hint, round.reply, round.outcome);
            var ms := ReconnectDelay(attempts + 1, policy, HintValue(a.hint), round.random);
            Run(codec, policy, cursor, hint, attempts, [round]).steps == [Tried(a.failure), Slept(ms, a.hint)]
  {
    hide Run, ReconnectDelay, HintValue, Attempted;
    var a := Attempted(codec, cursor, hint, round.reply, round.outcome);
    RunStep(codec, policy, cursor, hint, attempts, [round]);
    assert [round][1..] == [];
    RunStep(codec, policy, a.cursor, a.hint, attempts + 1, []);
  }
}
