/** Retry-After is never too short: a lone client that waits it out is admitted. */
module RetryAfter {
  import opened Limits
  import opened Buckets
  import Gateway
  import FixedWindow
  import SlidingWindow
  import TokenBucket
  import Redis = RedisScripts
  import RedisSlidingBounds

  /** For the window buckets Retry-After is exact: no earlier instant would do. */
  lemma WindowRetryIsExact(l: Limit, s: BucketState, now: int, t: int)
    requires Usable(l) && !s.Token? && Valid(l, s) && NotAhead(s, now)
    requires !Step(l, s, now).1.allowed && t >= now
    ensures
      var (s', dec) := Step(l, s, now);
      Step(l, s', t).1.allowed <==> t >= now + dec.retryAfter
  {
    match s
    case Fixed(windowStart, count) => FixedRetryIsExact(l, windowStart, count, now, t);
    case Sliding(log) => SlidingRetryIsExact(l, log, now, t);
  }

  lemma FixedRetryIsExact(l: Limit, windowStart: int, count: int, now: int, t: int)
    requires Usable(l) && !FixedWindow.Next(l, windowStart, count, now).2.allowed && t >= now
    ensures
      var (w, c, dec) := FixedWindow.Next(l, windowStart, count, now);
      FixedWindow.Next(l, w, c, t).2.allowed <==> t >= now + dec.retryAfter
  {
    var start := FixedWindow.Truncate(now, l.window);
    if t < start + l.window {
      FixedWindow.DivModUnique(t, l.window, now / l.window, t - start);
    }
  }

  lemma SlidingRetryIsExact(l: Limit, log: seq<int>, now: int, t: int)
    requires Usable(l) && NonDecreasing(log) && |log| <= l.rate
    requires !SlidingWindow.Next(l, log, now).1.allowed && t >= now
    ensures
      var (log', dec) := SlidingWindow.Next(l, log, now);
      SlidingWindow.Next(l, log', t).1.allowed <==> t >= now + dec.retryAfter
  {
    hide SlidingWindow.Evict;
    var kept := SlidingWindow.Evict(log, now - l.window);
    var d := SlidingWindow.EvictDropsPrefix(log, now - l.window);
    SortedSuffix(log, d);
    var k := SlidingWindow.EvictDropsPrefix(kept, t - l.window);
    assert |kept| == l.rate;
  }

  lemma SortedSuffix(log: seq<int>, d: nat)
    requires NonDecreasing(log) && d <= |log|
    ensures NonDecreasing(log[d..])
  {
  }

  /**
   * For the token bucket, through the truncation to nanoseconds, the epsilon and the rounding up
   * to whole seconds: any instant that many seconds past the last refill is late enough.
   */
  lemma TokenRetryIsEnough(l: Limit, s: BucketState, now: int, t: int)
    requires Usable(l) && l.burst > 0 && s.Token?
    requires s.last != 0 ==> 0.0 <= s.tokens <= l.burst as real
    requires !Step(l, s, now).1.allowed
    requires
      var (s', dec) := Step(l, s, now);
      s'.last != 0 && t >= s'.last + Gateway.HeaderSeconds(dec.retryAfter) * SECOND
    ensures Step(l, Step(l, s, now).0, t).1.allowed
  {
    hide TokenBucket.Earned;
    var p := TokenBucket.PerTick(l);
    var (s', dec) := Step(l, s, now);
    if now > s.last { TokenBucket.EarnedSplit(p, 0, now - s.last); }
    assert 0.0 <= s'.tokens < 1.0 - TokenBucket.EPSILON && s'.tokens <= l.burst as real;
    assert dec.retryAfter == TokenBucket.Truncated((1.0 - s'.tokens) / p);
    WaitEarnsOne(p, s'.tokens, dec.retryAfter, t - s'.last);
  }

  /** The split on one token per second: above it a single second earns a whole token. */
  lemma WaitEarnsOne(p: real, tokens: real, retry: int, wait: int)
    requires p > 0.0 && 0.0 <= tokens < 1.0
    requires retry == TokenBucket.Truncated((1.0 - tokens) / p)
    requires wait >= Gateway.HeaderSeconds(retry) * SECOND
    ensures tokens + TokenBucket.Earned(p, wait) >= 1.0 - TokenBucket.EPSILON
  {
    hide TokenBucket.Earned;
    var x := (1.0 - tokens) / p;
    XTimesP(p, 1.0 - tokens);
    if p * SECOND as real > 1.0 {
      SecondEarnsOne(p, tokens, wait);
    } else {
      SlowTick(p);
      assert wait as real >= x - 1.0;
      CutOffIsSlack(p, tokens, x, wait);
    }
  }

  lemma XTimesP(p: real, y: real)
    requires p > 0.0
    ensures y / p * p == y
  {
  }

  lemma SecondEarnsOne(p: real, tokens: real, wait: int)
    requires p * SECOND as real > 1.0 && wait >= SECOND && tokens >= 0.0 && p > 0.0
    ensures tokens + TokenBucket.Earned(p, wait) >= 1.0
  {
    ScaleUp(p, SECOND as real, wait as real);
  }

  lemma SlowTick(p: real)
    requires p * SECOND as real <= 1.0
    ensures p <= TokenBucket.EPSILON
  {
  }

  /** At most a tick is cut off, and at that rate a tick earns no more than the slack. */
  lemma CutOffIsSlack(p: real, tokens: real, x: real, wait: int)
    requires 0.0 < p <= TokenBucket.EPSILON && x * p == 1.0 - tokens && wait as real >= x - 1.0
    ensures tokens + TokenBucket.Earned(p, wait) >= 1.0 - TokenBucket.EPSILON
  {
    hide TokenBucket.Earned;
    LessOneTick(p, x, wait);
  }

  lemma LessOneTick(p: real, x: real, wait: int)
    requires p > 0.0 && wait as real >= x - 1.0
    ensures TokenBucket.Earned(p, wait) >= x * p - p
  {
    var t := wait as real;
    ScaleUp(p, x - 1.0, t);
    assert p * (x - 1.0) == x * p - p;
  }

  lemma ScaleDown(w: real, a: real, b: real)
    requires w > 0.0 && w * a <= w * b
    ensures a <= b
  {
    assert w * (b - a) == w * b - w * a;
    if b - a < 0.0 { Negative(w, b - a); }
  }

  lemma Negative(w: real, d: real)
    requires w > 0.0 && d < 0.0
    ensures w * d < 0.0
  {
  }

  lemma ScaleUp(p: real, a: real, b: real)
    requires p > 0.0 && a <= b
    ensures p * a <= p * b
  {
  }

  /** What the cut-off part of `x` ticks would have earned. */
  function CutOff(p: real, x: real): real {
    p * (x - x.Floor as real)
  }

  /** What every reachable token bucket holds, whatever its clock. */
  ghost predicate SoundTokens(l: Limit, s: BucketState) {
    l.burst > 0 && s.Token? && (s.last != 0 ==> 0.0 <= s.tokens <= l.burst as real)
  }

  /**
   * After a denial, with no request between, an instant is admitted if and only if the time since
   * the last refill has earned what was short of the admit threshold. The clock may have been
   * behind that refill at the denial.
   */
  lemma TokenAdmitsIff(l: Limit, s: BucketState, now: int, t: int)
    requires Usable(l) && SoundTokens(l, s) && now != 0 && !Step(l, s, now).1.allowed
    ensures
      var s' := Step(l, s, now).0;
      && s'.Token?
      && (Step(l, s', t).1.allowed
          <==> TokenBucket.Earned(TokenBucket.PerTick(l), t - s'.last) >= 1.0 - TokenBucket.EPSILON - s'.tokens)
  {
    hide TokenBucket.Earned;
    var p := TokenBucket.PerTick(l);
    DeniedTokens(l, s, now);
    var s' := Step(l, s, now).0;
    if t <= s'.last { EarnsNothing(p, t - s'.last); }
  }

  lemma DeniedTokens(l: Limit, s: BucketState, now: int)
    requires Usable(l) && SoundTokens(l, s) && now != 0 && !Step(l, s, now).1.allowed
    ensures
      var (s', dec) := Step(l, s, now);
      && s'.Token? && s'.last != 0 && 0.0 <= s'.tokens < 1.0 - TokenBucket.EPSILON
      && dec.retryAfter == TokenBucket.Truncated((1.0 - s'.tokens) / TokenBucket.PerTick(l))
  {
    hide TokenBucket.Earned;
    if now > s.last { TokenBucket.EarnedSplit(TokenBucket.PerTick(l), 0, now - s.last); }
  }

  lemma EarnsNothing(p: real, d: int)
    requires p > 0.0 && d <= 0
    ensures TokenBucket.Earned(p, d) <= 0.0
  {
  }

  /**
   * The nanoseconds of RetryAfter itself are enough if and only if what they cut off, a fraction
   * of a nanosecond and however far the clock was behind the last refill, would have earned no
   * more than the admit threshold's slack.
   */
  lemma TokenRetryIsExactIff(l: Limit, s: BucketState, now: int)
    requires Usable(l) && SoundTokens(l, s) && now != 0 && !Step(l, s, now).1.allowed
    ensures
      var (s', dec) := Step(l, s, now);
      var p := TokenBucket.PerTick(l);
      && s'.Token?
      && (Step(l, s', now + dec.retryAfter).1.allowed
          <==> CutOff(p, (1.0 - s'.tokens) / p) + TokenBucket.Earned(p, s'.last - now) <= TokenBucket.EPSILON)
  {
    hide TokenBucket.Earned, CutOff;
    var p := TokenBucket.PerTick(l);
    DeniedTokens(l, s, now);
    var (s', dec) := Step(l, s, now);
    TokenAdmitsIff(l, s, now, now + dec.retryAfter);
    EarnedByRetry(p, s'.tokens);
    TokenBucket.EarnedSplit(p, dec.retryAfter, now - s'.last);
    Opposite(p, now - s'.last);
  }

  lemma Opposite(p: real, d: int)
    ensures TokenBucket.Earned(p, -d) == -TokenBucket.Earned(p, d)
  {
  }

  /**
   * The header's whole seconds, counted from the denial, are enough if and only if they, less
   * however far the clock was behind the last refill, earn what was short.
   */
  lemma HeaderIsEnoughIff(l: Limit, s: BucketState, now: int)
    requires Usable(l) && SoundTokens(l, s) && now != 0 && !Step(l, s, now).1.allowed
    ensures
      var (s', dec) := Step(l, s, now);
      var wait := Gateway.HeaderSeconds(dec.retryAfter) * SECOND;
      && s'.Token?
      && (Step(l, s', now + wait).1.allowed
          <==> TokenBucket.Earned(TokenBucket.PerTick(l), wait - (s'.last - now))
               >= 1.0 - TokenBucket.EPSILON - s'.tokens)
  {
    hide TokenBucket.Earned;
    var wait := Gateway.HeaderSeconds(Step(l, s, now).1.retryAfter) * SECOND;
    TokenAdmitsIff(l, s, now, now + wait);
  }

  lemma EarnedByRetry(p: real, tokens: real)
    requires p > 0.0 && tokens < 1.0 - TokenBucket.EPSILON
    ensures
      var x := (1.0 - tokens) / p;
      && x > 0.0 && TokenBucket.Truncated(x) == x.Floor
      && tokens + TokenBucket.Earned(p, x.Floor) == 1.0 - CutOff(p, x)
  {
    var x := (1.0 - tokens) / p;
    assert x * p == 1.0 - tokens;
    assert p * (x - x.Floor as real) == p * x - p * x.Floor as real;
  }

  /** Up to one token per second it always is: a nanosecond earns no more than the slack. */
  lemma TokenRetryIsExactWhenSlow(l: Limit, s: BucketState, now: int)
    requires Usable(l) && s.Token? && Valid(l, s) && NotAhead(s, now) && !Step(l, s, now).1.allowed
    requires l.rate * SECOND <= l.window
    ensures var (s', dec) := Step(l, s, now); Step(l, s', now + dec.retryAfter).1.allowed
  {
    hide CutOff, TokenBucket.PerTick, TokenBucket.Earned;
    TokenRetryIsExactIff(l, s, now);
    var p := TokenBucket.PerTick(l);
    TokenBucket.EarnedNothing(p);
    assert Step(l, s, now).0.last == now;
    SlowCutOff(l, (1.0 - Step(l, s, now).0.tokens) / p);
  }

  lemma SlowCutOff(l: Limit, x: real)
    requires Usable(l) && l.rate * SECOND <= l.window
    ensures CutOff(TokenBucket.PerTick(l), x) <= TokenBucket.EPSILON
  {
    var p, w := TokenBucket.PerTick(l), l.window as real;
    XTimesP(w, l.rate as real);
    assert p * w == l.rate as real;
    assert w * (p * SECOND as real) == p * w * SECOND as real;
    ScaleDown(w, p * SECOND as real, 1.0);
    SlowTick(p);
    hide CutOff, TokenBucket.PerTick;
    CutOffBelowTick(p, x);
  }

  lemma CutOffBelowTick(p: real, x: real)
    requires p > 0.0
    ensures CutOff(p, x) <= p
  {
    ScaleUp(p, x - x.Floor as real, 1.0);
  }

  /** Above it may not be: with seven tokens per second the advised instant is denied. */
  lemma TokenRetryCanFallShort()
    ensures
      var l := Limit(ALGO_TOKEN_BUCKET, 7, 1, SECOND);
      var (s', dec) := Step(l, Token(0.0, SECOND), SECOND);
      !dec.allowed && dec.retryAfter == 142_857_142 && !Step(l, s', SECOND + dec.retryAfter).1.allowed
  {
    var l := Limit(ALGO_TOKEN_BUCKET, 7, 1, SECOND);
    var p := TokenBucket.PerTick(l);
    var x := (1.0 - 0.0) / p;
    assert p * SECOND as real == 7.0;
    assert 7.0 * x == SECOND as real;
    assert x.Floor == 142_857_142;
    TokenRetryIsExactIff(l, Token(0.0, SECOND), SECOND);
    TokenBucket.EarnedNothing(p);
    assert 7.0 * (x - 142_857_142.0) == 6.0;
    assert CutOff(p, x) * SECOND as real == 7.0 * (x - 142_857_142.0);
  }

  /** In particular waiting from the denial on is enough when the clock was not behind. */
  lemma RetryIsEnough(l: Limit, s: BucketState, now: int, t: int)
    requires Usable(l) && Valid(l, s) && NotAhead(s, now) && !Step(l, s, now).1.allowed
    requires t >= now + Gateway.HeaderSeconds(Step(l, s, now).1.retryAfter) * SECOND
    ensures Step(l, Step(l, s, now).0, t).1.allowed
  {
    if s.Token? {
      TokenRetryIsEnough(l, s, now, t);
    } else {
      WindowRetryIsExact(l, s, now, t);
    }
  }

  /**
   * Measured from a denial with the clock behind the last refill it can be too short: here the
   * clock is two seconds behind and one second is advised.
   */
  lemma RetryTooShortWhenClockBehind()
    ensures
      var l := Limit(ALGO_TOKEN_BUCKET, 1, 1, SECOND);
      var (s', dec) := Step(l, Token(0.0, 10 * SECOND), 8 * SECOND);
      && !dec.allowed && Gateway.HeaderSeconds(dec.retryAfter) == 1
      && !Step(l, s', 8 * SECOND + SECOND).1.allowed
  {
    var l := Limit(ALGO_TOKEN_BUCKET, 1, 1, SECOND);
    assert TokenBucket.PerTick(l) * SECOND as real == 1.0;
    var x := (1.0 - 0.0) / TokenBucket.PerTick(l);
    assert x == SECOND as real;
    assert TokenBucket.Truncated(x) == SECOND;
  }

  // ---- The scripts ----

  /** The same for the scripts, whose Retry-After is in microseconds. */
  lemma ScriptRetryIsEnough(l: Limit, k: Redis.Key, now: int, t: int, n1: nat, n2: nat)
    requires Usable(l) && Redis.Fits(l, k) && !Redis.Script(l, k, now, n1).1.allowed
    requires l.algorithm == ALGO_SLIDING_WINDOW ==> |Redis.EntriesOf(k)| <= l.rate
    requires l.algorithm == ALGO_TOKEN_BUCKET ==>
               l.burst > 0 && (k.Live? ==> k.value.last <= now && k.value.tokens <= l.burst as real)
    requires t >= now + Redis.Script(l, k, now, n1).1.retryAfter
    ensures
      var k' := Redis.Script(l, k, now, n1).0;
      Redis.Fits(l, k') && Redis.Script(l, k', t, n2).1.allowed
  {
    Redis.ScriptFits(l, k, now, n1);
    if l.algorithm == ALGO_TOKEN_BUCKET {
      TokenScriptRetry(l, k, now, t);
    } else if l.algorithm == ALGO_SLIDING_WINDOW {
      var kept := Redis.ZRemUpTo(Redis.EntriesOf(k), now - l.window);
      assert Redis.ZRemUpTo(kept, t - l.window) == Redis.ZRemUpTo(kept[1..], t - l.window);
    }
  }

  /** What the window scripts store: a window on the grid, or a sorted zset no longer than Rate. */
  ghost predicate SoundWindowKey(l: Limit, k: Redis.Key)
    requires Usable(l)
  {
    && Redis.Fits(l, k) && l.algorithm != ALGO_TOKEN_BUCKET
    && (k.Live? && k.value.Window? ==> FixedWindow.Truncate(k.value.ws, l.window) == k.value.ws)
    && (l.algorithm == ALGO_SLIDING_WINDOW ==>
          |Redis.EntriesOf(k)| <= l.rate && RedisSlidingBounds.Sorted(Redis.EntriesOf(k)))
  }

  /**
   * For the window scripts Retry-After is exact: with no call between and the key not expired, a
   * reading of TIME is admitted if and only if it has passed.
   */
  lemma WindowScriptRetryIsExact(l: Limit, k: Redis.Key, now: int, t: int, n1: nat, n2: nat)
    requires Usable(l) && SoundWindowKey(l, k) && !Redis.Script(l, k, now, n1).1.allowed
    ensures
      var (k', r) := Redis.Script(l, k, now, n1);
      Redis.Fits(l, k') && (Redis.Script(l, k', t, n2).1.allowed <==> t >= now + r.retryAfter)
  {
    Redis.ScriptFits(l, k, now, n1);
    if l.algorithm == ALGO_SLIDING_WINDOW {
      SlidingScriptRetry(l, k, now, t, n1);
    } else {
      GridReached(k.value.ws, t, l.window);
    }
  }

  lemma GridReached(ws: int, t: int, window: int)
    requires window > 0 && FixedWindow.Truncate(ws, window) == ws
    ensures FixedWindow.Truncate(t, window) > ws <==> t >= ws + window
  {
    if ws <= t < ws + window {
      FixedWindow.DivModUnique(t, window, ws / window, t - ws);
    }
  }

  lemma SlidingScriptRetry(l: Limit, k: Redis.Key, now: int, t: int, n1: nat)
    requires Usable(l) && (k.Live? ==> k.value.Log?)
    requires |Redis.EntriesOf(k)| <= l.rate && RedisSlidingBounds.Sorted(Redis.EntriesOf(k))
    requires !Redis.SlidingScript(l, k, now, n1).1.allowed
    ensures
      var (k', r) := Redis.SlidingScript(l, k, now, n1);
      |Redis.ZRemUpTo(Redis.EntriesOf(k'), t - l.window)| < l.rate <==> t >= now + r.retryAfter
  {
    hide Redis.SlidingScript, Redis.ZRemUpTo, Redis.EntriesOf, RedisSlidingBounds.Sorted;
    var kept := Redis.ZRemUpTo(Redis.EntriesOf(k), now - l.window);
    RedisSlidingBounds.ZRemSorted(Redis.EntriesOf(k), now - l.window);
    DeniedSlidingScript(l, k, now, n1);
    TrimShortensIff(kept, t - l.window);
  }

  lemma DeniedSlidingScript(l: Limit, k: Redis.Key, now: int, nonce: nat)
    requires Usable(l) && (k.Live? ==> k.value.Log?) && |Redis.EntriesOf(k)| <= l.rate
    requires !Redis.SlidingScript(l, k, now, nonce).1.allowed
    ensures
      var kept := Redis.ZRemUpTo(Redis.EntriesOf(k), now - l.window);
      var (k', r) := Redis.SlidingScript(l, k, now, nonce);
      |kept| == l.rate && Redis.EntriesOf(k') == kept && r.retryAfter == kept[0].score + l.window - now
  {
    hide Redis.ZRemUpTo;
    RedisSlidingBounds.CallLog(l, k, now, nonce);
  }

  /** Trimming a sorted zset takes something exactly when it takes the first entry. */
  lemma TrimShortensIff(z: seq<Redis.Entry>, max: int)
    requires RedisSlidingBounds.Sorted(z) && z != []
    ensures |Redis.ZRemUpTo(z, max)| < |z| <==> z[0].score <= max
  {
    if z[0].score > max {
      NothingTrimmed(z, max);
    } else {
      assert Redis.ZRemUpTo(z, max) == Redis.ZRemUpTo(z[1..], max);
    }
  }

  lemma {:induction false} NothingTrimmed(z: seq<Redis.Entry>, max: int)
    requires RedisSlidingBounds.Sorted(z) && (z != [] ==> z[0].score > max)
    ensures Redis.ZRemUpTo(z, max) == z
    decreases |z|
  {
    if |z| > 1 {
      assert Redis.Before(z[0], z[1]);
      NothingTrimmed(z[1..], max);
    }
  }

  lemma TokenScriptRetry(l: Limit, k: Redis.Key, now: int, t: int)
    requires Usable(l) && l.burst > 0 && (k.Live? ==> k.value.Tokens?)
    requires k.Live? ==> k.value.last <= now && k.value.tokens <= l.burst as real
    requires !Redis.TokenScript(l, k, now).1.allowed
    requires t >= now + Redis.TokenScript(l, k, now).1.retryAfter
    ensures Redis.TokenScript(l, Redis.TokenScript(l, k, now).0, t).1.allowed
  {
    var (full, last) := Redis.Refilled(l, k, now);
    assert last == now && full <= l.burst as real;
    EarnsOne(TokenBucket.PerTick(l), full, t - now);
  }

  lemma EarnsOne(p: real, tokens: real, wait: int)
    requires p > 0.0 && tokens < 1.0 && wait >= Redis.CeilReal((1.0 - tokens) / p)
    ensures wait > 0 && tokens + TokenBucket.Earned(p, wait) >= 1.0
  {
    var x := (1.0 - tokens) / p;
    assert x * p == 1.0 - tokens;
    assert x > 0.0 && wait as real >= x;
    assert wait as real * p >= x * p;
  }
}
