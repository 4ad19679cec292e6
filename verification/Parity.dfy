/** The in-process buckets and the Lua scripts give the same decisions on a clock that does not step back. */
module Parity {
  import opened Limits
  import opened RedisScripts
  import RedisExpiry
  import RedisSlidingBounds
  import Buckets
  import FixedWindow
  import SlidingWindow
  import TokenBucket

  /** Nanoseconds from Go's zero time to the Unix epoch. */
  const EPOCH: int := 62_135_596_800 * SECOND

  /** The instant a script calls `micros`, on the clock of the in-process buckets. */
  function ToGo(micros: int): int {
    1000 * micros + EPOCH
  }

  /** The same limit with its window in nanoseconds. */
  function GoLimit(l: Limit): Limit {
    l.(window := 1000 * l.window)
  }

  function GoLog(z: seq<Entry>): (log: seq<int>)
    ensures |log| == |z|
    ensures forall i :: 0 <= i < |z| ==> log[i] == ToGo(z[i].score)
  {
    if z == [] then [] else [ToGo(z[0].score)] + GoLog(z[1..])
  }

  // ---- What agrees ----

  /**
   * Equal verdict and remaining quota; equal instants for the window algorithms. The token
   * bucket rounds its instants up to microseconds in the script and down to nanoseconds in
   * process, so there the script is never earlier and at most a microsecond later.
   */
  ghost predicate Agree(l: Limit, r: Reply, dec: Decision) {
    && r.allowed == dec.allowed && r.remaining == dec.remaining
    && if l.algorithm == ALGO_TOKEN_BUCKET then
         && 0 <= ToGo(r.reset) - dec.reset <= 1000
         && 0 <= 1000 * r.retryAfter - dec.retryAfter <= 1000
       else
         ToGo(r.reset) == dec.reset && 1000 * r.retryAfter == dec.retryAfter
  }

  /** The stored value and the in-process state say the same; an absent key is an unused bucket. */
  ghost predicate Mirrors(l: Limit, k: Key, s: Buckets.BucketState, now: int)
    requires Usable(l)
  {
    && Fits(l, k)
    && match s
       case Fixed(windowStart, count) =>
         && l.algorithm == ALGO_FIXED_WINDOW
         && (if k.Live? then windowStart == ToGo(k.value.ws) && count == k.value.count
                             && k.value.ws <= now && k.value.ws % l.window == 0
             else count == 0)
       case Token(tokens, last) =>
         && l.algorithm == ALGO_TOKEN_BUCKET
         && (if k.Live? then tokens == k.value.tokens && 0.0 <= tokens <= l.burst as real
                             && last == ToGo(k.value.last) && last != 0 && k.value.last <= now
             else last == 0)
       case Sliding(log) =>
         && l.algorithm == ALGO_SLIDING_WINDOW
         && log == GoLog(EntriesOf(k)) && RedisSlidingBounds.Sorted(EntriesOf(k))
         && RedisExpiry.ScoresAtMost(EntriesOf(k), now)
  }

  // ---- sliding_window ----

  lemma {:induction false} TrimMirrors(z: seq<Entry>, max: int)
    ensures GoLog(ZRemUpTo(z, max)) == SlidingWindow.Evict(GoLog(z), ToGo(max))
  {
    if z != [] {
      TrimMirrors(z[1..], max);
      assert GoLog(z)[1..] == GoLog(z[1..]);
      if z[0].score > max {
        assert ([z[0]] + ZRemUpTo(z[1..], max))[1..] == ZRemUpTo(z[1..], max);
      }
    }
  }

  lemma {:induction false} AddMirrors(z: seq<Entry>, e: Entry)
    requires RedisSlidingBounds.Sorted(z) && RedisExpiry.ScoresAtMost(z, e.score) && e !in z
    ensures GoLog(ZAdd(z, e)) == GoLog(z) + [ToGo(e.score)]
    ensures RedisSlidingBounds.Sorted(ZAdd(z, e)) && RedisExpiry.ScoresAtMost(ZAdd(z, e), e.score)
  {
    if z != [] {
      if Before(e, z[0]) {
        AddFirst(z, e);
      } else {
        SortedTail(z, e.score);
        hide RedisSlidingBounds.Sorted, RedisExpiry.ScoresAtMost, Before;
        assert e !in z[1..] && e != z[0];
        AddMirrors(z[1..], e);
        AddKeepsHead(z, e);
        var z' := [z[0]] + ZAdd(z[1..], e);
        assert z'[1..] == ZAdd(z[1..], e);
        assert GoLog(z) == [ToGo(z[0].score)] + GoLog(z[1..]);
        HeadAtMost(z[0], ZAdd(z[1..], e), e.score);
      }
    }
  }

  /** An entry that goes first is tied in score with every other one. */
  lemma AddFirst(z: seq<Entry>, e: Entry)
    requires z != [] && RedisSlidingBounds.Sorted(z) && RedisExpiry.ScoresAtMost(z, e.score) && Before(e, z[0])
    ensures GoLog([e] + z) == GoLog(z) + [ToGo(e.score)]
    ensures RedisSlidingBounds.Sorted([e] + z) && RedisExpiry.ScoresAtMost([e] + z, e.score)
  {
    forall i | 0 <= i < |z| ensures z[i].score == e.score && Before(e, z[i]) {
      assert i > 0 ==> Before(z[0], z[i]);
    }
    var log := GoLog(z);
    assert forall i :: 0 <= i < |z| ==> log[i] == ToGo(e.score);
    assert ([e] + z)[1..] == z;
    AllEqual([ToGo(e.score)] + log, log + [ToGo(e.score)], ToGo(e.score));
  }

  lemma AllEqual(a: seq<int>, b: seq<int>, x: int)
    requires |a| == |b| && (forall i :: 0 <= i < |a| ==> a[i] == x) && (forall i :: 0 <= i < |b| ==> b[i] == x)
    ensures a == b
  {
  }

  lemma SortedTail(z: seq<Entry>, bound: int)
    requires z != [] && RedisSlidingBounds.Sorted(z) && RedisExpiry.ScoresAtMost(z, bound)
    ensures RedisSlidingBounds.Sorted(z[1..]) && RedisExpiry.ScoresAtMost(z[1..], bound)
    ensures z[0].score <= bound
  {
  }

  lemma HeadAtMost(e: Entry, z: seq<Entry>, bound: int)
    requires e.score <= bound && RedisExpiry.ScoresAtMost(z, bound)
    ensures RedisExpiry.ScoresAtMost([e] + z, bound)
  {
  }

  lemma AddKeepsHead(z: seq<Entry>, e: Entry)
    requires z != [] && RedisSlidingBounds.Sorted(z) && e !in z && !Before(e, z[0])
    requires RedisSlidingBounds.Sorted(ZAdd(z[1..], e))
    ensures RedisSlidingBounds.Sorted([z[0]] + ZAdd(z[1..], e))
  {
    RedisSlidingBounds.ZAddOnlyAdds(z[1..], e);
    var rest := ZAdd(z[1..], e);
    forall j | 0 <= j < |rest| ensures Before(z[0], rest[j]) {
      assert rest[j] in rest;
      if rest[j] in z[1..] {
        var i :| 0 <= i < |z[1..]| && z[1..][i] == rest[j];
        assert z[i + 1] == rest[j];
      }
    }
  }

  /** Trimming and adding on the zset side is evicting and appending on the log side. */
  lemma TrimAndAdd(z: seq<Entry>, max: int, e: Entry)
    requires RedisSlidingBounds.Sorted(z) && RedisExpiry.ScoresAtMost(z, e.score) && e !in z
    ensures
      var kept := ZRemUpTo(z, max);
      && GoLog(kept) == SlidingWindow.Evict(GoLog(z), ToGo(max))
      && GoLog(ZAdd(kept, e)) == GoLog(kept) + [ToGo(e.score)]
      && RedisSlidingBounds.Sorted(kept) && RedisSlidingBounds.Sorted(ZAdd(kept, e))
      && RedisExpiry.ScoresAtMost(kept, e.score) && RedisExpiry.ScoresAtMost(ZAdd(kept, e), e.score)
  {
    hide *;
    var kept := ZRemUpTo(z, max);
    TrimMirrors(z, max);
    assert e !in kept by { RedisSlidingBounds.ZRemOnlyRemoves(z, max); }
    RedisSlidingBounds.ZRemSorted(z, max);
    RedisExpiry.ZRemKeeps(z, max, e.score);
    AddMirrors(kept, e);
  }

  lemma MirrorsLater(l: Limit, k: Key, log: seq<int>, was: int, now: int)
    requires Usable(l) && Mirrors(l, k, Buckets.Sliding(log), was) && was <= now
    ensures l.algorithm == ALGO_SLIDING_WINDOW && (k.Live? ==> k.value.Log?)
    ensures log == GoLog(EntriesOf(k)) && RedisSlidingBounds.Sorted(EntriesOf(k))
    ensures RedisExpiry.ScoresAtMost(EntriesOf(k), now)
  {
  }

  lemma SlidingAgrees(l: Limit, k: Key, log: seq<int>, was: int, now: int, nonce: nat)
    requires Usable(l) && Mirrors(l, k, Buckets.Sliding(log), was) && was <= now
    requires Entry(now, nonce) !in EntriesOf(k)
    ensures Agree(l, SlidingScript(l, k, now, nonce).1, SlidingWindow.Next(GoLimit(l), log, ToGo(now)).1)
  {
    hide SlidingWindow.Evict, ZRemUpTo, ZAdd, GoLog, RedisSlidingBounds.Sorted, RedisExpiry.ScoresAtMost;
    hide Mirrors, KeepLog;
    MirrorsLater(l, k, log, was, now);
    TrimAndAdd(EntriesOf(k), now - l.window, Entry(now, nonce));
    assert ToGo(now) - GoLimit(l).window == ToGo(now - l.window);
    SlidingReplies(l, ZRemUpTo(EntriesOf(k), now - l.window), now, nonce);
  }

  lemma SlidingStaysMirrored(l: Limit, k: Key, log: seq<int>, was: int, now: int, nonce: nat)
    requires Usable(l) && Mirrors(l, k, Buckets.Sliding(log), was) && was <= now
    requires Entry(now, nonce) !in EntriesOf(k)
    ensures Mirrors(l, SlidingScript(l, k, now, nonce).0,
                    Buckets.Sliding(SlidingWindow.Next(GoLimit(l), log, ToGo(now)).0), now)
  {
    hide SlidingWindow.Evict, ZRemUpTo, ZAdd, GoLog, RedisSlidingBounds.Sorted, RedisExpiry.ScoresAtMost;
    hide SlidingScript;
    MirrorsLater(l, k, log, was, now);
    TrimAndAdd(EntriesOf(k), now - l.window, Entry(now, nonce));
    assert ToGo(now) - GoLimit(l).window == ToGo(now - l.window);
    RedisSlidingBounds.CallLog(l, k, now, nonce);
    SlidingReplies(l, ZRemUpTo(EntriesOf(k), now - l.window), now, nonce);
  }

  /** The replies, from the trimmed log on. */
  lemma SlidingReplies(l: Limit, kept: seq<Entry>, now: int, nonce: nat)
    requires Usable(l) && GoLog(ZAdd(kept, Entry(now, nonce))) == GoLog(kept) + [ToGo(now)]
    ensures
      var allowed := |kept| < l.rate;
      var z := if allowed then ZAdd(kept, Entry(now, nonce)) else kept;
      var log := if allowed then GoLog(kept) + [ToGo(now)] else GoLog(kept);
      && log == GoLog(z) && |log| == (if allowed then |kept| + 1 else |kept|) && |z| > 0
      && ToGo(z[|z| - 1].score + l.window) == log[|z| - 1] + 1000 * l.window
      && 1000 * (z[0].score + l.window - now) == log[0] + 1000 * l.window - ToGo(now)
  {
    var allowed := |kept| < l.rate;
    var z := if allowed then ZAdd(kept, Entry(now, nonce)) else kept;
    assert |GoLog(z)| == |z|;
    assert GoLog(z)[|z| - 1] == ToGo(z[|z| - 1].score) && GoLog(z)[0] == ToGo(z[0].score);
  }

  // ---- token_bucket ----

  lemma PerTickScales(l: Limit, d: int)
    requires Usable(l)
    ensures TokenBucket.PerTick(GoLimit(l)) * 1000.0 == TokenBucket.PerTick(l)
    ensures TokenBucket.Earned(TokenBucket.PerTick(GoLimit(l)), 1000 * d)
            == TokenBucket.Earned(TokenBucket.PerTick(l), d)
  {
    var w, r := l.window as real, l.rate as real;
    var p, q := TokenBucket.PerTick(l), TokenBucket.PerTick(GoLimit(l));
    assert p * w == r;
    assert q * (1000.0 * w) == r;
    assert (q * 1000.0 - p) * w == 0.0;
    assert q * 1000.0 == p;
    assert (1000 * d) as real == 1000.0 * d as real;
  }

  /** Rounding a span up to microseconds and down to nanoseconds. */
  lemma RoundingsAgree(x: real, p: real, q: real)
    requires x >= 0.0 && p > 0.0 && q * 1000.0 == p
    ensures 0 <= 1000 * CeilReal(x / p) - TokenBucket.Truncated(x / q) <= 1000
  {
    var a, b := x / p, x / q;
    assert a * p == x && b * q == x;
    assert (a * 1000.0) * q == x;
    assert b == a * 1000.0;
    assert b >= 0.0;
  }

  lemma TokenMirrors(l: Limit, k: Key, s: Buckets.BucketState, was: int, now: int)
    requires Usable(l) && l.burst > 0 && s.Token? && Mirrors(l, k, s, was) && was <= now && ToGo(now) > 0
    ensures
      var (k', r) := TokenScript(l, k, now);
      var (s', dec) := Buckets.Step(GoLimit(l), s, ToGo(now));
      Agree(l, r, dec) && Mirrors(l, k', s', now)
  {
    hide TokenBucket.Earned;
    var (full, last) := Refilled(l, k, now);
    var (goFull, goLast) := TokenBucket.Refill(GoLimit(l), s.tokens, s.last, ToGo(now));
    if k.Live? {
      PerTickScales(l, now - k.value.last);
      assert ToGo(now) - ToGo(k.value.last) == 1000 * (now - k.value.last);
      TokenBucket.EarnedSplit(TokenBucket.PerTick(l), 0, now - k.value.last);
    }
    assert full == goFull && goLast == ToGo(last) && last == now && 0.0 <= full <= l.burst as real;
    PerTickScales(l, 0);
    TokenReplies(l, full, now);
  }

  lemma TokenReplies(l: Limit, full: real, now: int)
    requires Usable(l) && l.burst > 0 && 0.0 <= full <= l.burst as real
    ensures
      var left := TokenBucket.Take(full);
      var p, q := TokenBucket.PerTick(l), TokenBucket.PerTick(GoLimit(l));
      && 0.0 <= left <= l.burst as real
      && 0 <= 1000 * CeilReal(ToFull(l, left))
              - TokenBucket.Truncated((l.burst as real - left) / q) <= 1000
      && (!TokenBucket.Admits(full) ==>
            0 <= 1000 * CeilReal((1.0 - left) / p) - TokenBucket.Truncated((1.0 - left) / q) <= 1000)
  {
    var left := TokenBucket.Take(full);
    PerTickScales(l, 0);
    RoundingsAgree(l.burst as real - left, TokenBucket.PerTick(l), TokenBucket.PerTick(GoLimit(l)));
    if !TokenBucket.Admits(full) {
      RoundingsAgree(1.0 - left, TokenBucket.PerTick(l), TokenBucket.PerTick(GoLimit(l)));
    }
  }

  // ---- fixed_window ----

  /** Both grids are the same grid exactly when the window divides the offset between the zeros. */
  ghost predicate SameGrid(window: int)
    requires window > 0
  {
    EPOCH % (1000 * window) == 0
  }

  lemma GridsCoincide(now: int, window: int)
    requires window > 0 && SameGrid(window)
    ensures FixedWindow.Truncate(ToGo(now), 1000 * window) == ToGo(FixedWindow.Truncate(now, window))
  {
    var n := 1000 * window;
    var q, r := now / window, now % window;
    var m := EPOCH / n;
    assert EPOCH == m * n;
    assert now == q * window + r;
    assert 1000 * now == q * n + 1000 * r by { assert 1000 * (q * window) == q * n; }
    assert ToGo(now) == (q + m) * n + 1000 * r;
    FixedWindow.DivModUnique(ToGo(now), n, q + m, 1000 * r);
  }

  lemma FixedMirrors(l: Limit, k: Key, s: Buckets.BucketState, was: int, now: int)
    requires Usable(l) && s.Fixed? && Mirrors(l, k, s, was) && was <= now && SameGrid(l.window)
    ensures
      var (k', r) := FixedScript(l, k, now);
      var (s', dec) := Buckets.Step(GoLimit(l), s, ToGo(now));
      Agree(l, r, dec) && Mirrors(l, k', s', now)
  {
    GridsCoincide(now, l.window);
    if k.Live? {
      GridNotPassed(k.value.ws, now, l);
    }
  }

  /** A stored cell at or after the current grid cell is the current one, on such a clock. */
  lemma GridNotPassed(ws: int, now: int, l: Limit)
    requires Usable(l) && ws <= now
    ensures
      var grid := FixedWindow.Truncate(now, l.window);
      ws >= grid && ws % l.window == 0 ==> ws == grid
  {
    if ws >= FixedWindow.Truncate(now, l.window) && ws % l.window == 0 {
      FixedWindow.DivModUnique(ws, l.window, now / l.window, ws - FixedWindow.Truncate(now, l.window));
    }
  }

  // ---- Whole runs ----

  function LogOf(k: Key): seq<Entry> {
    if k.Live? && k.value.Log? then k.value.entries else []
  }

  /** What parity asks of a limit beyond the clock: real tokens, and one grid for both backends. */
  ghost predicate Comparable(l: Limit) {
    && Usable(l) && KnownAlgorithm(l.algorithm)
    && (l.algorithm == ALGO_TOKEN_BUCKET ==> l.burst > 0)
    && (l.algorithm == ALGO_FIXED_WINDOW ==> SameGrid(l.window))
  }

  lemma StepMirrors(l: Limit, k: Key, s: Buckets.BucketState, was: int, e: Event)
    requires Comparable(l) && Mirrors(l, k, s, was) && was <= e.now && ToGo(e.now) > 0
    requires e.Call? && Entry(e.now, e.nonce) !in LogOf(k)
    ensures
      var (k', r) := Script(l, k, e.now, e.nonce);
      var (s', dec) := Buckets.Step(GoLimit(l), s, ToGo(e.now));
      Agree(l, r, dec) && Mirrors(l, k', s', e.now)
  {
    hide Agree, Mirrors;
    assert Mirrors(l, k, s, was);
    match s
    case Fixed(_, _) =>
      assert l.algorithm == ALGO_FIXED_WINDOW by { MirrorsKind(l, k, s, was); }
      FixedMirrors(l, k, s, was, e.now);
    case Token(_, _) =>
      assert l.algorithm == ALGO_TOKEN_BUCKET by { MirrorsKind(l, k, s, was); }
      TokenMirrors(l, k, s, was, e.now);
    case Sliding(log) =>
      MirrorsKind(l, k, s, was);
      assert EntriesOf(k) == LogOf(k);
      SlidingAgrees(l, k, log, was, e.now, e.nonce);
      SlidingStaysMirrored(l, k, log, was, e.now, e.nonce);
  }

  lemma MirrorsKind(l: Limit, k: Key, s: Buckets.BucketState, now: int)
    requires Usable(l) && Mirrors(l, k, s, now)
    ensures s.Fixed? ==> l.algorithm == ALGO_FIXED_WINDOW
    ensures s.Token? ==> l.algorithm == ALGO_TOKEN_BUCKET
    ensures s.Sliding? ==> l.algorithm == ALGO_SLIDING_WINDOW
    ensures Fits(l, k)
  {
  }

  function GoTimes(es: seq<Event>): (ts: seq<int>)
    ensures |ts| == |es|
  {
    if es == [] then [] else [ToGo(es[0].now)] + GoTimes(es[1..])
  }

  ghost predicate AllCalls(es: seq<Event>) {
    forall i :: 0 <= i < |es| ==> es[i].Call?
  }

  /** Both backends are in step before the calls `es`, which a usable clock makes. */
  ghost predicate InStep(l: Limit, k: Key, s: Buckets.BucketState, was: int, es: seq<Event>) {
    && Comparable(l) && Mirrors(l, k, s, was) && AllCalls(es) && RedisExpiry.ClockNonDecreasing(es)
    && (es != [] ==> was <= es[0].now && ToGo(es[0].now) > 0)
    && RedisSlidingBounds.FreshNonces(LogOf(k), es)
  }

  lemma InStepFits(l: Limit, k: Key, s: Buckets.BucketState, was: int, es: seq<Event>)
    requires InStep(l, k, s, was, es)
    ensures Usable(l) && Fits(l, k)
    ensures es != [] ==> es[0].Call?
  {
    MirrorsKind(l, k, s, was);
  }

  lemma StaysInStep(l: Limit, k: Key, s: Buckets.BucketState, was: int, es: seq<Event>)
    requires InStep(l, k, s, was, es) && es != [] && Fits(l, k)
    ensures
      var (k', r) := Script(l, k, es[0].now, es[0].nonce);
      var (s', dec) := Buckets.Step(GoLimit(l), s, ToGo(es[0].now));
      Agree(l, r, dec) && InStep(l, k', s', es[0].now, es[1..])
  {
    hide Agree, Mirrors, Buckets.Step, Script;
    StepMirrors(l, k, s, was, es[0]);
    CallKeepsFreshNonces(l, k, es);
    assert forall i :: 0 <= i < |es[1..]| ==> es[1..][i] == es[i + 1];
  }

  lemma {:induction false} AgreeFrom(l: Limit, k: Key, s: Buckets.BucketState, was: int, es: seq<Event>)
    requires InStep(l, k, s, was, es)
    ensures Usable(l) && Fits(l, k) && |Replies(l, k, es)| == |es|
    ensures forall i :: 0 <= i < |es| ==>
      Agree(l, Replies(l, k, es)[i], Buckets.Run(GoLimit(l), s, GoTimes(es))[i])
    decreases |es|
  {
    hide InStep, Agree, Buckets.Step, Script;
    InStepFits(l, k, s, was, es);
    if es != [] {
      var e, rest := es[0], es[1..];
      var (k', r) := Script(l, k, e.now, e.nonce);
      var (s', dec) := Buckets.Step(GoLimit(l), s, ToGo(e.now));
      StaysInStep(l, k, s, was, es);
      AgreeFrom(l, k', s', e.now, rest);
      assert GoTimes(es)[1..] == GoTimes(rest);
      assert Buckets.Run(GoLimit(l), s, GoTimes(es)) == [dec] + Buckets.Run(GoLimit(l), s', GoTimes(rest));
      assert Replies(l, k, es) == [r] + Replies(l, k', rest);
    }
  }

  lemma CallKeepsFreshNonces(l: Limit, k: Key, es: seq<Event>)
    requires Usable(l) && Fits(l, k) && AllCalls(es) && es != []
    requires RedisSlidingBounds.FreshNonces(LogOf(k), es)
    ensures RedisSlidingBounds.FreshNonces(LogOf(Script(l, k, es[0].now, es[0].nonce).0), es[1..])
  {
    if l.algorithm == ALGO_SLIDING_WINDOW {
      RedisSlidingBounds.CallKeepsFresh(l, k, es);
      RedisSlidingBounds.CallLog(l, k, es[0].now, es[0].nonce);
    } else {
      assert LogOf(Script(l, k, es[0].now, es[0].nonce).0) == [];
      assert forall i :: 0 <= i < |es[1..]| ==> es[1..][i] == es[i + 1];
    }
  }

  lemma {:induction false} CallsOnlyIsOrdered(es: seq<Event>)
    requires RedisExpiry.ClockNonDecreasing(es)
    ensures AllCalls(RedisExpiry.CallsOnly(es)) && RedisExpiry.ClockNonDecreasing(RedisExpiry.CallsOnly(es))
    ensures forall e :: e in RedisExpiry.CallsOnly(es) ==> e in es
  {
    if es != [] {
      CallsOnlyIsOrdered(es[1..]);
      var rest := RedisExpiry.CallsOnly(es[1..]);
      forall j | 0 <= j < |rest| ensures es[0].now <= rest[j].now {
        assert rest[j] in es[1..];
      }
    }
  }

  /**
   * On a clock that does not step back, the scripts with their expiring key give, call by call,
   * the decisions of a new in-process bucket that sees the same times.
   */
  lemma BackendsAgree(l: Limit, es: seq<Event>)
    requires Comparable(l) && RedisExpiry.ClockNonDecreasing(es)
    requires forall e :: e in es ==> e.now >= 0
    requires RedisSlidingBounds.FreshNonces([], RedisExpiry.CallsOnly(es))
    ensures
      var calls := RedisExpiry.CallsOnly(es);
      var bucket := Buckets.Fresh(l.algorithm).value;
      && |Replies(l, Missing, es)| == |calls|
      && forall i :: 0 <= i < |calls| ==>
           Agree(l, Replies(l, Missing, es)[i], Buckets.Run(GoLimit(l), bucket, GoTimes(calls))[i])
  {
    hide Agree, InStep, Script, Buckets.Step, Replies;
    RedisExpiry.ExpiryIsInvisible(l, es);
    var calls := RedisExpiry.CallsOnly(es);
    CallsOnlyIsOrdered(es);
    var was := if calls == [] then 0 else calls[0].now;
    StartsInStep(l, was, calls);
    AgreeFrom(l, Missing, Buckets.Fresh(l.algorithm).value, was, calls);
  }

  /** An absent key and a new bucket are in step. */
  lemma StartsInStep(l: Limit, was: int, calls: seq<Event>)
    requires Comparable(l) && AllCalls(calls) && RedisExpiry.ClockNonDecreasing(calls)
    requires forall e :: e in calls ==> e.now >= 0
    requires calls != [] ==> was == calls[0].now
    requires RedisSlidingBounds.FreshNonces([], calls)
    ensures InStep(l, Missing, Buckets.Fresh(l.algorithm).value, was, calls)
  {
    if calls != [] {
      assert calls[0] in calls;
    }
  }

  /** A run both backends can see: epoch times that do not step back, and distinct nonces. */
  ghost predicate Shared(es: seq<Event>) {
    && RedisExpiry.ClockNonDecreasing(es) && (forall e :: e in es ==> e.now >= 0)
    && RedisSlidingBounds.FreshNonces([], RedisExpiry.CallsOnly(es))
  }

  /** The replies of the run agree, call by call, with the decisions of a new bucket. */
  ghost predicate AgreesOn(l: Limit, es: seq<Event>)
    requires Usable(l) && KnownAlgorithm(l.algorithm)
  {
    var calls := RedisExpiry.CallsOnly(es);
    && |Replies(l, Missing, es)| == |calls|
    && forall i :: 0 <= i < |calls| ==>
         Agree(l, Replies(l, Missing, es)[i],
               Buckets.Run(GoLimit(l), Buckets.Fresh(l.algorithm).value, GoTimes(calls))[i])
  }

  /**
   * fixed_window agrees on every such run if and only if both backends cut time alike; if they
   * do not, the first reply of a run already differs.
   */
  lemma FixedWindowAgreesIffSameGrid(l: Limit)
    requires Usable(l) && l.algorithm == ALGO_FIXED_WINDOW
    ensures (forall es :: Shared(es) ==> AgreesOn(l, es)) <==> SameGrid(l.window)
  {
    hide AgreesOn, Shared, SameGrid;
    if SameGrid(l.window) {
      forall es | Shared(es) ensures AgreesOn(l, es) {
        SameGridAgrees(l, es);
      }
    } else {
      var e := Call(0, 0, 0);
      OneCallDisagrees(l, e);
      assert Shared([e]);
    }
  }

  lemma SameGridAgrees(l: Limit, es: seq<Event>)
    requires Usable(l) && l.algorithm == ALGO_FIXED_WINDOW && SameGrid(l.window) && Shared(es)
    ensures AgreesOn(l, es)
  {
    hide Agree, Replies, SameGrid, Buckets.Step, Script;
    BackendsAgree(l, es);
  }

  lemma OneCallDisagrees(l: Limit, e: Event)
    requires Usable(l) && l.algorithm == ALGO_FIXED_WINDOW && !SameGrid(l.window) && e == Call(0, 0, 0)
    ensures Shared([e]) && !AgreesOn(l, [e])
  {
    hide Agree, Replies, SameGrid, Buckets.Step, Buckets.Run, Script, FixedScript;
    FirstReplyDiffers(l, e);
    OneReply(l, e);
    var calls := RedisExpiry.CallsOnly([e]);
    assert [e][1..] == [];
    assert calls == [e] + RedisExpiry.CallsOnly([]) == [e];
    assert GoTimes([e]) == [ToGo(0)] + GoTimes([]) == [ToGo(0)];
    var bucket := Buckets.Fresh(l.algorithm).value;
    assert bucket == Buckets.Fixed(0, 0);
    assert !Agree(l, Replies(l, Missing, [e])[0], Buckets.Run(GoLimit(l), bucket, GoTimes(calls))[0]);
  }

  lemma OneReply(l: Limit, e: Event)
    requires Usable(l) && l.algorithm == ALGO_FIXED_WINDOW && e.Call?
    ensures Replies(l, Missing, [e]) == [FixedScript(l, Missing, e.now).1]
    ensures Buckets.Run(GoLimit(l), Buckets.Fixed(0, 0), [ToGo(e.now)])
            == [Buckets.Step(GoLimit(l), Buckets.Fixed(0, 0), ToGo(e.now)).1]
  {
    assert [e][1..] == [];
    assert [ToGo(e.now)][1..] == [];
  }

  lemma FirstReplyDiffers(l: Limit, e: Event)
    requires Usable(l) && l.algorithm == ALGO_FIXED_WINDOW && !SameGrid(l.window) && e == Call(0, 0, 0)
    ensures !Agree(l, FixedScript(l, Missing, 0).1, Buckets.Step(GoLimit(l), Buckets.Fixed(0, 0), ToGo(0)).1)
  {
    FixedWindow.DivModUnique(0, l.window, 0, 0);
    assert FixedWindow.Truncate(0, l.window) == 0;
    assert FixedWindow.Truncate(ToGo(0), 1000 * l.window) == EPOCH - EPOCH % (1000 * l.window);
  }

  /** Seconds, minutes and hours are such windows. */
  lemma CommonWindowsShareTheGrid()
    ensures SameGrid(1_000_000) && SameGrid(60_000_000) && SameGrid(3_600_000_000)
  {
  }
}
