/**
 * What every limit promises over any span of time, whichever bucket or script enforces it:
 * Rate per window for sliding_window, Rate per cell touched for fixed_window, Burst plus the
 * refill for token_bucket.
 */
module Quotas {
  import opened Limits
  import B = Buckets
  import R = RedisScripts
  import FixedBounds
  import SlidingExact
  import TokenBounds
  import TokenBucket
  import RedisFixedBounds
  import RedisSlidingBounds
  import RedisTokenBounds

  /** The most admissions `l` allows within `d` of the first, weighed by what one admission costs. */
  function Quota(l: Limit, d: int): real
    requires Usable(l)
  {
    if l.algorithm == ALGO_TOKEN_BUCKET then l.burst as real + TokenBucket.Earned(TokenBucket.PerTick(l), d)
    else if l.algorithm == ALGO_FIXED_WINDOW then CellQuota(l, d) as real
    else WindowQuota(l, d) as real
  }

  /** Rate for every cell a span of `d` can touch. */
  function CellQuota(l: Limit, d: int): int
    requires Usable(l)
  {
    FixedBounds.Quotas(l.rate, d / l.window + 2)
  }

  /** Rate for every window started within `d`. */
  function WindowQuota(l: Limit, d: int): int
    requires Usable(l)
  {
    FixedBounds.Quotas(l.rate, d / l.window + 1)
  }

  lemma WindowQuotaGrows(l: Limit, d: int, rest: int)
    requires Usable(l) && d >= 0
    ensures l.rate <= WindowQuota(l, d)
    ensures 0 <= rest <= d - l.window ==> l.rate + WindowQuota(l, rest) <= WindowQuota(l, d)
  {
    hide FixedBounds.Quotas;
    RedisFixedBounds.ShorterSpan(0, d, l.window);
    FixedBounds.OneMoreCell(l.rate, 0);
    FixedBounds.MoreCells(l.rate, 1, d / l.window + 1);
    FixedBounds.MoreCells(l.rate, 0, 1);
    if 0 <= rest <= d - l.window {
      OneWindowLess(d, rest, l.window);
      FixedBounds.OneMoreCell(l.rate, d / l.window);
      FixedBounds.MoreCells(l.rate, rest / l.window + 1, d / l.window);
    }
  }

  /** What `n` admissions cost: a whole token each, less the admit threshold's slack. */
  function Weight(l: Limit, n: nat): real {
    if l.algorithm == ALGO_TOKEN_BUCKET then TokenBounds.Cost(n) else n as real
  }

  // ---- Scripts ----

  /** Any state a run of the scripts passes through. */
  ghost predicate SoundKey(l: Limit, k: R.Key)
    requires Usable(l)
  {
    && R.Fits(l, k)
    && (l.algorithm == ALGO_TOKEN_BUCKET ==> l.burst > 0 && RedisTokenBounds.SoundTokens(l, k))
    && (l.algorithm == ALGO_FIXED_WINDOW ==> RedisFixedBounds.SoundWindow(l, k))
    && (l.algorithm == ALGO_SLIDING_WINDOW ==> |R.EntriesOf(k)| <= l.rate)
  }

  /** What the environment owes the scripts: TIME never runs fast, and distinct nonces. */
  ghost predicate FairEvents(l: Limit, k: R.Key, es: seq<R.Event>)
    requires Usable(l) && R.Fits(l, k)
  {
    && R.NeverFast(es)
    && (l.algorithm == ALGO_SLIDING_WINDOW ==> RedisSlidingBounds.FreshNonces(R.EntriesOf(k), es))
  }

  lemma {:induction false} ScriptsConcat(l: Limit, k: R.Key, a: seq<R.Event>, b: seq<R.Event>)
    requires Usable(l) && R.Fits(l, k)
    ensures R.Admitted(l, k, a + b) == R.Admitted(l, k, a) + R.Admitted(l, R.After(l, k, a), b)
    ensures R.After(l, k, a + b) == R.After(l, R.After(l, k, a), b)
    decreases |a|
  {
    if a == [] {
      assert a + b == b;
    } else {
      assert (a + b)[1..] == a[1..] + b;
      ScriptsConcat(l, R.Transition(l, k, a[0]), a[1..], b);
    }
  }

  /** One event keeps a sound key sound and the rest of the run fair. */
  lemma EventKeepsSound(l: Limit, k: R.Key, es: seq<R.Event>)
    requires Usable(l) && SoundKey(l, k) && FairEvents(l, k, es) && es != []
    ensures SoundKey(l, R.Transition(l, k, es[0])) && FairEvents(l, R.Transition(l, k, es[0]), es[1..])
  {
    hide RedisTokenBounds.SoundTokens, R.TokenScript, R.FixedScript, R.SlidingScript;
    hide RedisFixedBounds.SoundWindow;
    var e := es[0];
    RedisTokenBounds.FollowsTail(es);
    assert forall i :: 0 <= i < |es[1..]| ==> es[1..][i] == es[i + 1];
    if e.Call? {
      R.ScriptFits(l, k, e.now, e.nonce);
      if l.algorithm == ALGO_TOKEN_BUCKET {
        RedisTokenBounds.FirstCall(l, k, e);
      } else if l.algorithm == ALGO_FIXED_WINDOW {
        RedisFixedBounds.CallKeepsSound(l, k, e.now);
      } else {
        SlidingCallKeeps(l, k, es);
      }
    } else {
      MissingIsSound(l);
    }
  }

  lemma MissingIsSound(l: Limit)
    requires Usable(l) && R.KnownAlgorithm(l.algorithm) && (l.algorithm == ALGO_TOKEN_BUCKET ==> l.burst > 0)
    ensures SoundKey(l, R.Missing)
  {
  }

  lemma SlidingCallKeeps(l: Limit, k: R.Key, es: seq<R.Event>)
    requires Usable(l) && l.algorithm == ALGO_SLIDING_WINDOW && R.Fits(l, k) && es != [] && es[0].Call?
    requires |R.EntriesOf(k)| <= l.rate && RedisSlidingBounds.FreshNonces(R.EntriesOf(k), es)
    ensures
      var k' := R.SlidingScript(l, k, es[0].now, es[0].nonce).0;
      && (k'.Live? ==> k'.value.Log?)
      && |R.EntriesOf(k')| <= l.rate && RedisSlidingBounds.FreshNonces(R.EntriesOf(k'), es[1..])
  {
    RedisSlidingBounds.CallKeepsFresh(l, k, es);
    RedisSlidingBounds.CallLog(l, k, es[0].now, es[0].nonce);
  }

  lemma {:induction false} RunKeepsSound(l: Limit, k: R.Key, a: seq<R.Event>, b: seq<R.Event>)
    requires Usable(l) && SoundKey(l, k) && FairEvents(l, k, a + b)
    ensures SoundKey(l, R.After(l, k, a)) && FairEvents(l, R.After(l, k, a), b)
    decreases |a|
  {
    if a == [] {
      assert a + b == b;
    } else {
      EventKeepsSound(l, k, a + b);
      assert (a + b)[1..] == a[1..] + b && (a + b)[0] == a[0];
      RunKeepsSound(l, R.Transition(l, k, a[0]), a[1..], b);
    }
  }

  lemma {:induction false} FirstAtOrAfter(es: seq<R.Event>, t: int) returns (n: nat)
    requires es != [] && es[|es| - 1].at >= t && es[0].at < t
    ensures 0 < n < |es| && es[n].at >= t && es[n - 1].at < t
    decreases |es|
  {
    if es[1].at >= t {
      n := 1;
    } else {
      var m := FirstAtOrAfter(es[1..], t);
      n := m + 1;
    }
  }

  lemma OneWindowLess(d: int, rest: int, window: int)
    requires window > 0 && 0 <= rest <= d - window
    ensures rest / window + 1 <= d / window
  {
    FixedBounds.SameCell(rest + window, d, window);
    var q := rest / window;
    FixedBounds.FixedWindow.DivModUnique(rest + window, window, q + 1, rest % window);
  }

  /** sliding_window over a span of any length: Rate for every window started. */
  lemma {:induction false} SlidingSpan(l: Limit, k: R.Key, es: seq<R.Event>)
    requires Usable(l) && l.algorithm == ALGO_SLIDING_WINDOW && SoundKey(l, k)
    requires FairEvents(l, k, es) && es != []
    ensures R.Admitted(l, k, es) <= WindowQuota(l, es[|es| - 1].at - es[0].at)
    decreases |es|
  {
    hide WindowQuota, RedisSlidingBounds.FreshNonces, R.NeverFast, R.Admitted, R.After;
    var d := es[|es| - 1].at - es[0].at;
    SpanNotNegative(es);
    WindowQuotaGrows(l, d, 0);
    if d < l.window {
      RedisSlidingBounds.SlidingNeverExceedsQuota(l, k, es);
    } else {
      var n := FirstAtOrAfter(es, es[0].at + l.window);
      var a, b := es[..n], es[n..];
      assert es == a + b;
      ScriptsConcat(l, k, a, b);
      RunKeepsSound(l, k, a, b);
      FairPrefix(l, k, a, b);
      RedisSlidingBounds.SlidingNeverExceedsQuota(l, k, a);
      SlidingSpan(l, R.After(l, k, a), b);
      SpanNotNegative(b);
      WindowQuotaGrows(l, d, b[|b| - 1].at - b[0].at);
    }
  }

  lemma SpanNotNegative(es: seq<R.Event>)
    requires R.NeverFast(es) && es != []
    ensures es[|es| - 1].at >= es[0].at
  {
  }

  lemma FairPrefix(l: Limit, k: R.Key, a: seq<R.Event>, b: seq<R.Event>)
    requires Usable(l) && R.Fits(l, k) && FairEvents(l, k, a + b)
    ensures FairEvents(l, k, a)
  {
    hide RedisSlidingBounds.FreshNonces;
    if l.algorithm == ALGO_SLIDING_WINDOW {
      FreshPrefix(R.EntriesOf(k), a, b);
    }
    assert forall i :: 0 <= i < |a| ==> a[i] == (a + b)[i];
  }

  lemma FreshPrefix(z: seq<R.Entry>, a: seq<R.Event>, b: seq<R.Event>)
    requires RedisSlidingBounds.FreshNonces(z, a + b)
    ensures RedisSlidingBounds.FreshNonces(z, a)
  {
    assert forall i :: 0 <= i < |a| ==> a[i] == (a + b)[i];
  }

  /**
   * What a fixed_window key may admit beyond its quota: twice Rate for every call that finds it
   * expired and steps back into its window. Nothing for the other algorithms.
   */
  function Extra(l: Limit, k: R.Key, es: seq<R.Event>): int
    requires Usable(l) && R.Fits(l, k)
  {
    if l.algorithm != ALGO_FIXED_WINDOW then 0
    else FixedBounds.Quotas(l.rate, 2 * RedisFixedBounds.Reopenings(l, k, None, es))
  }

  lemma ExtraNotNegative(l: Limit, k: R.Key, es: seq<R.Event>)
    requires Usable(l) && R.Fits(l, k)
    ensures Extra(l, k, es) >= 0
    ensures l.algorithm != ALGO_FIXED_WINDOW ==> Extra(l, k, es) == 0
    ensures l.algorithm == ALGO_FIXED_WINDOW ==>
              (Extra(l, k, es) == 0 <==> !RedisFixedBounds.Reopens(l, k, None, es))
  {
    if l.algorithm == ALGO_FIXED_WINDOW {
      FixedBounds.MoreCells(l.rate, 0, 2 * RedisFixedBounds.Reopenings(l, k, None, es));
    }
  }

  lemma TailExtra(l: Limit, k: R.Key, es: seq<R.Event>)
    requires Usable(l) && R.Fits(l, k) && es != []
    ensures Extra(l, R.Transition(l, k, es[0]), es[1..]) <= Extra(l, k, es)
  {
    if l.algorithm == ALGO_FIXED_WINDOW {
      RedisFixedBounds.TailReopensNoMore(l, k, es);
      FixedBounds.MoreCells(l.rate, 2 * RedisFixedBounds.Reopenings(l, R.Transition(l, k, es[0]), None, es[1..]),
                            2 * RedisFixedBounds.Reopenings(l, k, None, es));
    }
  }

  lemma PrefixExtra(l: Limit, k: R.Key, a: seq<R.Event>, b: seq<R.Event>)
    requires Usable(l) && R.Fits(l, k)
    ensures Extra(l, k, a) <= Extra(l, k, a + b)
  {
    if l.algorithm == ALGO_FIXED_WINDOW {
      RedisFixedBounds.PrefixReopensNoMore(l, k, None, a, b);
      FixedBounds.MoreCells(l.rate, 2 * RedisFixedBounds.Reopenings(l, k, None, a),
                            2 * RedisFixedBounds.Reopenings(l, k, None, a + b));
    }
  }

  /**
   * Every stretch of every run of a script keeps its limit's quota, in true time, but for what
   * a fixed_window key admits extra.
   */
  lemma ScriptKeepsQuota(l: Limit, k: R.Key, es: seq<R.Event>)
    requires Usable(l) && SoundKey(l, k) && FairEvents(l, k, es) && es != []
    ensures Weight(l, R.Admitted(l, k, es)) <= Quota(l, es[|es| - 1].at - es[0].at) + Extra(l, k, es) as real
  {
    hide FixedBounds.Quotas, TokenBucket.Earned, TokenBucket.PerTick, RedisSlidingBounds.FreshNonces, R.Admitted;
    hide R.NeverFast, RedisFixedBounds.Reopenings, RedisFixedBounds.SoundWindow, RedisTokenBounds.SoundTokens;
    if l.algorithm == ALGO_TOKEN_BUCKET {
      RedisTokenBounds.NeverExceedsBudget(l, k, es);
    } else if l.algorithm == ALGO_FIXED_WINDOW {
      RedisFixedBounds.AtMostPerIntervalAndReopening(l, k, es);
      RedisFixedBounds.QuotasAdd(l.rate, (es[|es| - 1].at - es[0].at) / l.window + 2,
                                 2 * RedisFixedBounds.Reopenings(l, k, None, es));
    } else {
      SlidingSpan(l, k, es);
    }
  }

  // ---- In-process buckets ----

  predicate OfKind(algorithm: string, s: B.BucketState) {
    match s
    case Fixed(_, _) => algorithm == ALGO_FIXED_WINDOW
    case Token(_, _) => algorithm == ALGO_TOKEN_BUCKET
    case Sliding(_) => algorithm == ALGO_SLIDING_WINDOW
  }

  /** Any state a bucket of this limit passes through by the time the clock reads `now`. */
  ghost predicate SoundBucket(l: Limit, s: B.BucketState, now: int)
    requires Usable(l)
  {
    now > 0 && OfKind(l.algorithm, s) && B.Valid(l, s) && B.NotAhead(s, now)
  }

  lemma StepKeepsSound(l: Limit, s: B.BucketState, now: int, later: int)
    requires Usable(l) && SoundBucket(l, s, now) && now <= later
    ensures SoundBucket(l, B.Step(l, s, now).0, later)
  {
    B.StepKeepsValid(l, s, now);
  }

  lemma {:induction false} SpacedCount(l: Limit, times: seq<int>, d: int)
    requires Usable(l) && SlidingExact.Spaced(times, l.rate, l.window) && NonDecreasing(times)
    requires d >= 0 && (times != [] ==> times[|times| - 1] - times[0] <= d)
    ensures |times| <= WindowQuota(l, d)
    decreases |times|
  {
    hide WindowQuota;
    WindowQuotaGrows(l, d, d - l.window);
    if |times| > l.rate {
      assert SlidingExact.WindowApart(times, 0, l.rate, l.window);
      SpacedDrop(times, l.rate, l.window, l.rate);
      SpacedCount(l, times[l.rate..], d - l.window);
    }
  }

  lemma SpacedDrop(times: seq<int>, rate: int, window: int, n: nat)
    requires rate > 0 && n <= |times| && SlidingExact.Spaced(times, rate, window) && NonDecreasing(times)
    ensures SlidingExact.Spaced(times[n..], rate, window) && NonDecreasing(times[n..])
  {
    forall i: nat | i + rate < |times[n..]| ensures SlidingExact.WindowApart(times[n..], i, rate, window) {
      assert SlidingExact.WindowApart(times, i + n, rate, window);
    }
  }

  lemma {:induction false} AdmittedTimesBetween(l: Limit, s: B.BucketState, ts: seq<int>)
    requires Usable(l) && NonDecreasing(ts) && ts != []
    ensures |B.AdmittedTimes(l, s, ts)| == B.Admitted(B.Run(l, s, ts))
    ensures forall i :: 0 <= i < |B.AdmittedTimes(l, s, ts)| ==>
              ts[0] <= B.AdmittedTimes(l, s, ts)[i] <= ts[|ts| - 1]
    decreases |ts|
  {
    var s' := B.Step(l, s, ts[0]).0;
    B.AdmittedTimesUnfold(l, s, ts);
    B.AdmittedUnfold(l, s, ts);
    if |ts| > 1 {
      AdmittedTimesBetween(l, s', ts[1..]);
    }
  }

  lemma SlidingBucketSpan(l: Limit, s: B.BucketState, ts: seq<int>)
    requires Usable(l) && s.Sliding? && ts != [] && SoundBucket(l, s, ts[0]) && NonDecreasing(ts)
    ensures B.Admitted(B.Run(l, s, ts)) <= WindowQuota(l, ts[|ts| - 1] - ts[0])
  {
    hide WindowQuota;
    SlidingTimesSpaced(l, s.log, ts);
    AdmittedTimesBetween(l, s, ts);
    SpacedCount(l, B.AdmittedTimes(l, s, ts), ts[|ts| - 1] - ts[0]);
  }

  lemma SlidingTimesSpaced(l: Limit, log: seq<int>, ts: seq<int>)
    requires Usable(l) && NonDecreasing(log) && |log| <= l.rate && NonDecreasing(ts)
    requires ts != [] ==> SlidingExact.AllAtMost(log, ts[0])
    ensures
      var mine := B.AdmittedTimes(l, B.Sliding(log), ts);
      SlidingExact.Spaced(mine, l.rate, l.window) && NonDecreasing(mine)
  {
    assert ts != [] ==> SlidingExact.RecentEnd(log, log, 0, ts[0] - l.window);
    SlidingExact.AdmittedAreSpaced(l, log, log, 0, ts);
    var mine := B.AdmittedTimes(l, B.Sliding(log), ts);
    SpacedDrop(log + mine, l.rate, l.window, |log|);
    assert (log + mine)[|log|..] == mine;
  }

  lemma {:induction false} LastIsClock(l: Limit, s: B.BucketState, ts: seq<int>)
    requires Usable(l) && s.Token? && ts != [] && NonDecreasing(ts) && ts[0] > 0 && s.last <= ts[0]
    ensures B.After(l, s, ts).Token? && B.After(l, s, ts).last == ts[|ts| - 1]
    decreases |ts|
  {
    if |ts| > 1 {
      LastIsClock(l, B.Step(l, s, ts[0]).0, ts[1..]);
    } else {
      assert ts[1..] == [];
    }
  }

  /** Every stretch of every run of a bucket keeps its limit's quota. */
  lemma BucketKeepsQuota(l: Limit, s: B.BucketState, ts: seq<int>)
    requires Usable(l) && ts != [] && SoundBucket(l, s, ts[0]) && NonDecreasing(ts)
    ensures Weight(l, B.Admitted(B.Run(l, s, ts))) <= Quota(l, ts[|ts| - 1] - ts[0])
  {
    hide CellQuota, WindowQuota, TokenBucket.Earned, B.Step;
    match s
    case Fixed(_, _) => FixedSpan(l, s, ts);
    case Token(_, _) => TokenSpan(l, s, ts);
    case Sliding(_) => SlidingBucketSpan(l, s, ts);
  }

  lemma FixedSpan(l: Limit, s: B.BucketState, ts: seq<int>)
    requires Usable(l) && s.Fixed? && B.Valid(l, s) && NonDecreasing(ts) && ts != []
    ensures B.Admitted(B.Run(l, s, ts)) <= CellQuota(l, ts[|ts| - 1] - ts[0])
  {
    hide FixedBounds.Quotas, FixedBounds.Cell, CellQuota;
    FixedBounds.AdmitsPerCell(l, s, ts);
    CellQuotaCovers(l, ts[0], ts[|ts| - 1]);
  }

  lemma CellQuotaCovers(l: Limit, first: int, last: int)
    requires Usable(l)
    ensures l.rate + FixedBounds.Quotas(l.rate, FixedBounds.Cell(last, l.window) - FixedBounds.Cell(first, l.window))
            <= CellQuota(l, last - first)
  {
    hide FixedBounds.Quotas;
    var d := last - first;
    RedisFixedBounds.CellSum(first, d, l.window);
    var ahead := FixedBounds.Cell(last, l.window) - FixedBounds.Cell(first, l.window);
    FixedBounds.MoreCells(l.rate, ahead, d / l.window + 1);
    FixedBounds.OneMoreCell(l.rate, d / l.window + 1);
  }

  lemma TokenSpan(l: Limit, s: B.BucketState, ts: seq<int>)
    requires Usable(l) && s.Token? && ts != [] && SoundBucket(l, s, ts[0]) && NonDecreasing(ts)
    ensures TokenBounds.Cost(B.Admitted(B.Run(l, s, ts)))
            <= l.burst as real + TokenBucket.Earned(TokenBucket.PerTick(l), ts[|ts| - 1] - ts[0])
  {
    TokenBounds.NeverExceedsBudget(l, s, ts);
    LastIsClock(l, s, ts);
    assert B.Step(l, s, ts[0]).0.last == ts[0];
  }
}
