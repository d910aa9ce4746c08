/** How long the client waits before it reconnects (packages/realtime/src/backoff.ts). */
module Backoff {
  import opened Options
  import opened JsNumber

  datatype Policy = Policy(initialMs: real, factor: real, maxMs: real, jitter: real)

  const DEFAULT_RECONNECT: Policy := Policy(1000.0, 2.0, 30000.0, 0.3)

  function Pow(base: real, n: nat): real { if n == 0 then 1.0 else base * Pow(base, n - 1) }

  function Min(a: real, b: real): real { if a < b then a else b }

  function Max(a: real, b: real): real { if a < b then b else a }

  /** `Math.round`: to the nearest integer, halves up. */
  function RoundHalfUp(x: real): int { (x + 0.5).Floor }

  /** The number a decimal denotes. */
  function Value(d: Decimal): real
  {
    if d.exponent >= 0 then d.digits as real * Ten(d.exponent) else d.digits as real / Ten(-d.exponent)
  }

  function Ten(n: nat): (p: real)
    ensures p > 0.0
  {
    if n == 0 then 1.0 else 10.0 * Ten(n - 1)
  }

  /** The first delay, grown `n` times. */
  function Grown(policy: Policy, n: nat): real { policy.initialMs * Pow(policy.factor, n) }

  /** The delay around which the jitter varies. */
  function Centre(attempt: int, policy: Policy, hint: Option<real>): real
    requires attempt >= 1
  {
    var capped := Min(Grown(policy, attempt - 1), policy.maxMs);
    match hint case None => capped case Some(h) => Max(capped, h)
  }

  /** The width of the jitter around a delay. */
  function Spread(policy: Policy, delay: real): real { delay * policy.jitter }

  /** The delay before rounding: `spread` wide, around the centre. */
  function Jittered(centre: real, spread: real, random: real): real { centre - spread / 2.0 + spread * random }

  function ReconnectDelay(attempt: int, policy: Policy, hint: Option<real>, random: real): int
  {
    if attempt < 1 then 0
    else
      var floored := Centre(attempt, policy, hint);
      if policy.jitter <= 0.0 then RoundHalfUp(floored)
      else RoundHalfUp(Jittered(floored, Spread(policy, floored), random))
  }
}
