/** The token_bucket bucket: Burst tokens, refilled continuously at Rate per Window. */
module TokenBucket {
  import opened Limits

  /** Slack around the admit threshold. */
  const EPSILON: real := 0.000000001

  const NANOS: real := 1_000_000_000.0

  function MinReal(a: real, b: real): real {
    if a < b then a else b
  }

  /** Tokens gained per tick of the clock `l.window` is measured in. */
  function PerTick(l: Limit): (r: real)
    requires Usable(l)
    ensures r > 0.0
  {
    l.rate as real / l.window as real
  }

  /** Tokens refilled at `p` per tick while the clock rises by `d` ticks. */
  function Earned(p: real, d: int): real {
    p * d as real
  }

  lemma EarnedNothing(p: real)
    ensures Earned(p, 0) == 0.0
  {
  }

  lemma EarnedSplit(p: real, d1: int, d2: int)
    ensures Earned(p, d1 + d2) == Earned(p, d1) + Earned(p, d2)
    ensures p > 0.0 && d1 >= 0 ==> Earned(p, d1) >= 0.0
    ensures p > 0.0 && d2 >= 0 ==> Earned(p, d2) >= 0.0
  {
  }

  /** Tokens and last-refill instant once the clock reads `now`; `last == 0` is a bucket never used. */
  function Refill(l: Limit, tokens: real, last: int, now: int): (real, int)
    requires Usable(l)
  {
    if last == 0 then (l.burst as real, now)
    else if now > last then
      (MinReal(l.burst as real, tokens + Earned(PerTick(l), now - last)), now)
    else (tokens, last)
  }

  predicate Admits(tokens: real) {
    tokens >= 1.0 - EPSILON
  }

  /** What an admission leaves. */
  function Take(tokens: real): real {
    if !Admits(tokens) then tokens
    else if tokens - 1.0 < 0.0 then 0.0 else tokens - 1.0
  }

  /** A span of ticks cut down to whole ticks, never negative. */
  function Truncated(ticks: real): (n: int)
    ensures n >= 0
  {
    if ticks <= 0.0 then 0 else ticks.Floor
  }

  function Next(l: Limit, tokens: real, last: int, now: int): (real, int, Decision)
    requires Usable(l)
  {
    var (full, last') := Refill(l, tokens, last, now);
    var left := Take(full);
    var dec := Decision(
      Admits(full), l.burst, AtLeastZero(left.Floor),
      now + Truncated((l.burst as real - left) / PerTick(l)),
      if Admits(full) then 0 else Truncated((1.0 - left) / PerTick(l)), false);
    (left, last', dec)
  }

  function SecondsToDuration(seconds: real): (d: int)
    ensures d >= 0 && (seconds <= 0.0 ==> d == 0)
    ensures seconds > 0.0 ==> d as real <= seconds * NANOS < d as real + 1.0
  {
    if seconds <= 0.0 then 0 else (seconds * NANOS).Floor
  }

  /** Tokens per second as the code computes it is PerTick scaled by the ticks of a second. */
  lemma RefillPerSecond(l: Limit)
    requires Usable(l)
    ensures l.rate as real / (l.window as real / NANOS) == PerTick(l) * NANOS
  {
    var w, p := l.window as real, PerTick(l);
    assert p * w == l.rate as real;
    assert (p * NANOS) * (w / NANOS) == l.rate as real;
  }

  lemma DurationInTicks(x: real, p: real, perSec: real)
    requires p > 0.0 && perSec == p * NANOS
    ensures SecondsToDuration(x / perSec) == Truncated(x / p)
  {
    var s := x / perSec;
    assert s * perSec == x;
    assert (s * NANOS) * p == x;
    assert s * NANOS == x / p;
  }

  lemma ElapsedTokens(d: int, p: real, perSec: real)
    requires perSec == p * NANOS
    ensures (d as real / NANOS) * perSec == Earned(p, d)
  {
  }

  class TokenBucketState {
    var tokens: real
    var last: int

    constructor ()
      ensures tokens == 0.0 && last == 0
    {
      tokens, last := 0.0, 0;
    }

    /** The clock part of a step: first use, elapsed time, or a clock that did not advance. */
    method Replenish(l: Limit, now: int, refillPerSec: real)
      requires Usable(l) && refillPerSec == PerTick(l) * NANOS
      modifies this
      ensures (tokens, last) == Refill(l, old(tokens), old(last), now)
    {
      if last == 0 {
        tokens := l.burst as real;
        last := now;
      } else if now > last {
        var gained := ((now - last) as real / NANOS) * refillPerSec;
        ElapsedTokens(now - last, PerTick(l), refillPerSec);
        tokens := MinReal(l.burst as real, tokens + gained);
        last := now;
      }
    }

    /** The admission part of a step. */
    method Spend() returns (allowed: bool)
      modifies this`tokens
      ensures allowed == Admits(old(tokens)) && tokens == Take(old(tokens))
    {
      allowed := tokens >= 1.0 - EPSILON;
      if allowed {
        tokens := tokens - 1.0;
        if tokens < 0.0 {
          tokens := 0.0;
        }
      }
    }

    method Step(l: Limit, now: int) returns (dec: Decision)
      requires Usable(l)
      modifies this
      ensures (tokens, last, dec) == Next(l, old(tokens), old(last), now)
    {
      var refillPerSec := l.rate as real / (l.window as real / NANOS);
      RefillPerSecond(l);
      ghost var p := PerTick(l);
      Replenish(l, now, refillPerSec);
      var allowed := Spend();
      var remaining := tokens.Floor;
      if remaining < 0 {
        remaining := 0;
      }
      var toFull := SecondsToDuration((l.burst as real - tokens) / refillPerSec);
      assert toFull == Truncated((l.burst as real - tokens) / p) by {
        DurationInTicks(l.burst as real - tokens, p, refillPerSec);
      }
      dec := Decision(allowed, l.burst, remaining, now + toFull, 0, false);
      if !allowed {
        var toOne := SecondsToDuration((1.0 - tokens) / refillPerSec);
        assert toOne == Truncated((1.0 - tokens) / p) by {
          DurationInTicks(1.0 - tokens, p, refillPerSec);
        }
        dec := dec.(retryAfter := toOne);
      }
    }
  }
}
