/** The three buckets behind one interface, and what holds of every run of any of them. */
module Buckets {
  import opened Limits
  import FixedWindow
  import SlidingWindow
  import TokenBucket

  datatype BucketState =
    | Fixed(windowStart: int, count: int)
    | Token(tokens: real, last: int)
    | Sliding(log: seq<int>)

  /** A new bucket of the named algorithm. */
  function Fresh(algorithm: string): Option<BucketState> {
    if algorithm == ALGO_FIXED_WINDOW then Some(Fixed(0, 0))
    else if algorithm == ALGO_TOKEN_BUCKET then Some(Token(0.0, 0))
    else if algorithm == ALGO_SLIDING_WINDOW then Some(Sliding([]))
    else None
  }

  function Step(l: Limit, s: BucketState, now: int): (BucketState, Decision)
    requires Usable(l)
  {
    match s
    case Fixed(windowStart, count) =>
      var (w, c, dec) := FixedWindow.Next(l, windowStart, count, now);
      (Fixed(w, c), dec)
    case Token(tokens, last) =>
      var (t, at, dec) := TokenBucket.Next(l, tokens, last, now);
      (Token(t, at), dec)
    case Sliding(log) =>
      var (log', dec) := SlidingWindow.Next(l, log, now);
      (Sliding(log'), dec)
  }

  /** The decisions of a bucket in state `s` on requests at times `ts`. */
  function Run(l: Limit, s: BucketState, ts: seq<int>): (ds: seq<Decision>)
    requires Usable(l)
    ensures |ds| == |ts|
    decreases |ts|
  {
    if ts == [] then [] else
      var (s', dec) := Step(l, s, ts[0]);
      [dec] + Run(l, s', ts[1..])
  }

  /** The state that run leaves. */
  function After(l: Limit, s: BucketState, ts: seq<int>): BucketState
    requires Usable(l)
    decreases |ts|
  {
    if ts == [] then s else After(l, Step(l, s, ts[0]).0, ts[1..])
  }

  lemma {:induction false} RunConcat(l: Limit, s: BucketState, a: seq<int>, b: seq<int>)
    requires Usable(l)
    ensures Run(l, s, a + b) == Run(l, s, a) + Run(l, After(l, s, a), b)
    ensures After(l, s, a + b) == After(l, After(l, s, a), b)
    decreases |a|
  {
    if a == [] {
      assert a + b == b;
    } else {
      assert (a + b)[1..] == a[1..] + b;
      RunConcat(l, Step(l, s, a[0]).0, a[1..], b);
    }
  }

  /** How many of the decisions admit. */
  function Admitted(ds: seq<Decision>): nat {
    if ds == [] then 0 else One(ds[0].allowed) + Admitted(ds[1..])
  }

  function One(admitted: bool): nat {
    if admitted then 1 else 0
  }

  lemma AdmittedUnfold(l: Limit, s: BucketState, ts: seq<int>)
    requires Usable(l) && ts != []
    ensures
      var (s', dec) := Step(l, s, ts[0]);
      Admitted(Run(l, s, ts)) == One(dec.allowed) + Admitted(Run(l, s', ts[1..]))
  {
    assert Run(l, s, ts)[1..] == Run(l, Step(l, s, ts[0]).0, ts[1..]);
  }

  lemma {:induction false} AdmittedConcat(a: seq<Decision>, b: seq<Decision>)
    ensures Admitted(a + b) == Admitted(a) + Admitted(b)
  {
    if a == [] {
      assert a + b == b;
    } else {
      assert (a + b)[1..] == a[1..] + b;
      AdmittedConcat(a[1..], b);
    }
  }

  /** The entries of `xs` that `mask` keeps. */
  function Pick<T>(xs: seq<T>, mask: seq<bool>): seq<T>
    requires |xs| == |mask|
  {
    if xs == [] then [] else
      var rest := Pick(xs[1..], mask[1..]);
      if mask[0] then [xs[0]] + rest else rest
  }

  lemma {:induction false} PickConcat<T>(xs: seq<T>, ys: seq<T>, m: seq<bool>, n: seq<bool>)
    requires |xs| == |m| && |ys| == |n|
    ensures Pick(xs + ys, m + n) == Pick(xs, m) + Pick(ys, n)
  {
    if xs == [] {
      assert xs + ys == ys && m + n == n;
    } else {
      assert (xs + ys)[1..] == xs[1..] + ys && (m + n)[1..] == m[1..] + n;
      PickConcat(xs[1..], ys, m[1..], n);
    }
  }

  function Verdicts(ds: seq<Decision>): (flags: seq<bool>)
    ensures |flags| == |ds|
  {
    if ds == [] then [] else [ds[0].allowed] + Verdicts(ds[1..])
  }

  /** The times at which that run admits. */
  function AdmittedTimes(l: Limit, s: BucketState, ts: seq<int>): seq<int>
    requires Usable(l)
  {
    Pick(ts, Verdicts(Run(l, s, ts)))
  }

  lemma AdmittedTimesUnfold(l: Limit, s: BucketState, ts: seq<int>)
    requires Usable(l) && ts != []
    ensures
      var (s', dec) := Step(l, s, ts[0]);
      AdmittedTimes(l, s, ts) == (if dec.allowed then [ts[0]] else []) + AdmittedTimes(l, s', ts[1..])
  {
    var (s', dec) := Step(l, s, ts[0]);
    var rest := Run(l, s', ts[1..]);
    assert Run(l, s, ts)[1..] == rest;
    assert Verdicts(Run(l, s, ts)) == [dec.allowed] + Verdicts(rest);
    assert Verdicts(Run(l, s, ts))[1..] == Verdicts(rest);
  }

  // ---- Invariants of every run on a clock that does not step back ----

  /** The shape every reachable state has. */
  ghost predicate Valid(l: Limit, s: BucketState) {
    match s
    case Fixed(_, count) => 0 <= count <= l.rate
    case Token(tokens, last) =>
      l.burst > 0 && (last != 0 ==> 0.0 <= tokens <= l.burst as real)
    case Sliding(log) => NonDecreasing(log) && |log| <= l.rate
  }

  /** Nothing stored is later than `now`, and `now` is a real clock reading. */
  ghost predicate NotAhead(s: BucketState, now: int) {
    match s
    case Fixed(windowStart, _) => windowStart <= now
    case Token(_, last) => last <= now && now > 0
    case Sliding(log) => forall i :: 0 <= i < |log| ==> log[i] <= now
  }

  lemma StepKeepsValid(l: Limit, s: BucketState, now: int)
    requires Usable(l) && Valid(l, s) && NotAhead(s, now)
    ensures Valid(l, Step(l, s, now).0) && NotAhead(Step(l, s, now).0, now)
  {
    match s
    case Fixed(_, _) =>
    case Token(tokens, last) => TokenStepKeepsValid(l, tokens, last, now);
    case Sliding(log) => SlidingStepKeepsValid(l, log, now);
  }

  lemma TokenStepKeepsValid(l: Limit, tokens: real, last: int, now: int)
    requires Usable(l) && Valid(l, Token(tokens, last)) && NotAhead(Token(tokens, last), now)
    ensures
      var (left, at, _) := TokenBucket.Next(l, tokens, last, now);
      at == now && 0.0 <= left <= l.burst as real
  {
    hide TokenBucket.Earned;
    TokenBucket.EarnedSplit(TokenBucket.PerTick(l), 0, now - last);
  }

  lemma SlidingStepKeepsValid(l: Limit, log: seq<int>, now: int)
    requires Usable(l) && Valid(l, Sliding(log)) && NotAhead(Sliding(log), now)
    ensures
      var log' := SlidingWindow.Next(l, log, now).0;
      Valid(l, Sliding(log')) && NotAhead(Sliding(log'), now)
  {
    hide SlidingWindow.Evict;
    var d := SlidingWindow.EvictDropsPrefix(log, now - l.window);
    var kept := log[d..];
    assert NonDecreasing(kept);
    assert forall i :: 0 <= i < |kept| ==> kept[i] <= now;
  }

  lemma FreshIsValid(l: Limit)
    requires Usable(l) && Fresh(l.algorithm).Some?
    requires l.algorithm == ALGO_TOKEN_BUCKET ==> l.burst > 0
    ensures Valid(l, Fresh(l.algorithm).value)
    ensures forall now :: now > 0 ==> NotAhead(Fresh(l.algorithm).value, now)
  {
  }

  // ---- The clock part of a step ----

  /** What the passage of time alone makes of a state: eviction, refill, or a new cell. */
  function Settle(l: Limit, s: BucketState, now: int): BucketState
    requires Usable(l)
  {
    match s
    case Fixed(windowStart, count) =>
      var start := FixedWindow.Truncate(now, l.window);
      Fixed(start, if start != windowStart then 0 else count)
    case Token(tokens, last) =>
      var (t, at) := TokenBucket.Refill(l, tokens, last, now);
      Token(t, at)
    case Sliding(log) => Sliding(SlidingWindow.Evict(log, now - l.window))
  }

  /** A step sees a state only through its settled form. */
  lemma StepSettles(l: Limit, s: BucketState, now: int)
    requires Usable(l) && (s.Token? ==> now > 0)
    ensures Step(l, Settle(l, s, now), now) == Step(l, s, now)
  {
    hide TokenBucket.Next, SlidingWindow.Evict;
    match s
    case Fixed(_, _) => hide SlidingWindow.Next;
    case Token(tokens, last) => TokenStepSettles(l, tokens, last, now);
    case Sliding(log) => SlidingWindow.EvictTwice(log, now - l.window, now - l.window);
  }

  lemma TokenStepSettles(l: Limit, tokens: real, last: int, now: int)
    requires Usable(l) && now > 0
    ensures
      var (t, at) := TokenBucket.Refill(l, tokens, last, now);
      TokenBucket.Next(l, t, at, now) == TokenBucket.Next(l, tokens, last, now)
  {
    hide TokenBucket.Earned, TokenBucket.PerTick, TokenBucket.Take, TokenBucket.Admits, TokenBucket.Truncated;
    var (t, at) := TokenBucket.Refill(l, tokens, last, now);
    assert TokenBucket.Refill(l, t, at, now) == (t, at);
  }

  /** Settling twice is settling once: eviction is idempotent and a split refill is one refill. */
  lemma SettleTwice(l: Limit, s: BucketState, t1: int, t2: int)
    requires Usable(l) && Valid(l, s) && NotAhead(s, t1) && t1 <= t2
    ensures Settle(l, Settle(l, s, t1), t2) == Settle(l, s, t2)
  {
    match s
    case Fixed(windowStart, _) =>
      if FixedWindow.Truncate(t1, l.window) != windowStart && FixedWindow.Truncate(t2, l.window) == windowStart {
        CellsDoNotReturn(windowStart, t1, t2, l.window);
      }
    case Token(tokens, last) =>
      TokenBucket.EarnedSplit(TokenBucket.PerTick(l), t1 - last, t2 - t1);
    case Sliding(log) =>
      SlidingWindow.EvictTwice(log, t1 - l.window, t2 - l.window);
  }

  lemma CellsDoNotReturn(start: int, t1: int, t2: int, window: int)
    requires window > 0 && start <= t1 <= t2
    requires FixedWindow.Truncate(t2, window) == start
    ensures FixedWindow.Truncate(t1, window) == start
  {
    FixedWindow.DivModUnique(t1, window, start / window, t1 - start);
  }

  /** The state after a step is already settled at that instant. */
  lemma SteppedIsSettled(l: Limit, s: BucketState, now: int)
    requires Usable(l) && Valid(l, s) && NotAhead(s, now)
    ensures var s' := Step(l, s, now).0; Settle(l, s', now) == s'
  {
    match s
    case Fixed(_, _) =>
    case Token(_, _) =>
      assert Step(l, s, now).0.last == now;
    case Sliding(log) =>
      SlidingSteppedIsSettled(l, log, now);
  }

  lemma SlidingSteppedIsSettled(l: Limit, log: seq<int>, now: int)
    requires Usable(l)
    ensures
      var log' := SlidingWindow.Next(l, log, now).0;
      SlidingWindow.Evict(log', now - l.window) == log'
  {
    var kept := SlidingWindow.Evict(log, now - l.window);
    assert forall i :: 0 <= i < |kept| ==> kept[i] in kept;
    SlidingWindow.EvictKeepsAll(SlidingWindow.Next(l, log, now).0, now - l.window);
  }

  lemma DeniedOnlySettles(l: Limit, s: BucketState, now: int)
    requires Usable(l) && !Step(l, s, now).1.allowed
    ensures Step(l, s, now).0 == Settle(l, s, now)
  {
  }

  // ---- Denied requests leave no trace ----

  /** A mask that drops nothing but denied requests. */
  ghost predicate DropsOnlyDenied(ds: seq<Decision>, mask: seq<bool>) {
    |ds| == |mask| && forall i :: 0 <= i < |ds| && ds[i].allowed ==> mask[i]
  }

  /**
   * Dropping any of the denied requests of a run changes no remaining decision.
   */
  lemma DeniedLeaveNoTrace(l: Limit, s: BucketState, ts: seq<int>, mask: seq<bool>)
    requires Usable(l) && Valid(l, s) && NonDecreasing(ts)
    requires ts != [] ==> NotAhead(s, ts[0])
    requires DropsOnlyDenied(Run(l, s, ts), mask)
    ensures Run(l, s, Pick(ts, mask)) == Pick(Run(l, s, ts), mask)
  {
    if ts != [] {
      var t := ts[0];
      StepSettles(l, s, t);
      NoTraceFrom(l, Settle(l, s, t), s, t, ts, mask);
    }
  }

  /** A state and its settled form take the same step at any later instant. */
  lemma StepsAlike(l: Limit, s: BucketState, now: int, t: int)
    requires Usable(l) && Valid(l, s) && NotAhead(s, now) && now <= t
    ensures Step(l, Settle(l, s, now), t) == Step(l, s, t) && NotAhead(s, t)
    ensures Settle(l, Settle(l, s, now), t) == Settle(l, s, t)
  {
    hide Step, Valid;
    SettleTwice(l, s, now, t);
    StepSettles(l, Settle(l, s, now), t);
    StepSettles(l, s, t);
  }

  /** `s1` has seen the denied requests since `s2`, so it is `s2` settled at `now`. */
  lemma {:induction false} NoTraceFrom(
      l: Limit, s1: BucketState, s2: BucketState, now: int, ts: seq<int>, mask: seq<bool>)
    requires Usable(l) && Valid(l, s2) && NotAhead(s2, now)
    requires s1 == Settle(l, s2, now)
    requires NonDecreasing(ts) && (ts != [] ==> now <= ts[0])
    requires DropsOnlyDenied(Run(l, s1, ts), mask)
    ensures Run(l, s2, Pick(ts, mask)) == Pick(Run(l, s1, ts), mask)
    decreases |ts|
  {
    hide Step, Settle, Valid, NotAhead;
    if ts != [] {
      var t := ts[0];
      StepsAlike(l, s2, now, t);
      var (s', dec) := Step(l, s1, t);
      assert Step(l, s2, t) == (s', dec);
      assert Run(l, s1, ts) == [dec] + Run(l, s', ts[1..]);
      assert forall i :: 0 <= i < |ts| - 1 ==> Run(l, s', ts[1..])[i] == Run(l, s1, ts)[i + 1];
      StepKeepsValid(l, s2, t);
      if mask[0] {
        SteppedIsSettled(l, s2, t);
        NoTraceFrom(l, s', s', t, ts[1..], mask[1..]);
        assert Pick(ts, mask)[1..] == Pick(ts[1..], mask[1..]);
      } else {
        DeniedOnlySettles(l, s2, t);
        NoTraceFrom(l, s', s2, t, ts[1..], mask[1..]);
      }
    }
  }

  // ---- Reset is a clean slate ----

  /** The state of a new bucket of the same kind. */
  function Blank(s: BucketState): BucketState {
    match s
    case Fixed(_, _) => Fixed(0, 0)
    case Token(_, _) => Token(0.0, 0)
    case Sliding(_) => Sliding([])
  }

  /** How far past `decision.reset` the slate is certainly clean: the token bucket truncates. */
  function ResetSlack(s: BucketState): int {
    if s.Token? then 1 else 0
  }

  /**
   * With no request in between, from Reset onward the bucket and a new one give the same
   * decisions on every future sequence.
   */
  lemma ResetIsCleanSlate(l: Limit, s: BucketState, now: int, future: seq<int>)
    requires Usable(l) && Valid(l, s) && NotAhead(s, now)
    requires future != [] ==> future[0] >= Step(l, s, now).1.reset + ResetSlack(s)
    ensures var s' := Step(l, s, now).0; Run(l, s', future) == Run(l, Blank(s'), future)
  {
    if future != [] {
      var (s', dec) := Step(l, s, now);
      var t := future[0];
      StepKeepsValid(l, s, now);
      SettledAfterReset(l, s, now, t);
      if s.Token? { assert t > 0; }
      StepSettles(l, s', t);
      StepSettles(l, Blank(s'), t);
    }
  }

  /** And at no earlier instant is the slate clean: something still counts. */
  lemma ResetIsNotLate(l: Limit, s: BucketState, now: int, t: int)
    requires Usable(l) && Valid(l, s) && NotAhead(s, now)
    requires now <= t < Step(l, s, now).1.reset
    ensures var s' := Step(l, s, now).0; Settle(l, s', t) != Settle(l, Blank(s'), t)
  {
    match s
    case Fixed(_, _) => FixedWindow.DivModUnique(t, l.window, now / l.window, t - FixedWindow.Truncate(now, l.window));
    case Token(tokens, last) => TokenNotFullYet(l, s, now, t);
    case Sliding(log) => NewestStays(Step(l, s, now).0.log, t - l.window);
  }

  lemma NewestStays(log: seq<int>, cutoff: int)
    requires log != [] && log[|log| - 1] > cutoff
    ensures SlidingWindow.Evict(log, cutoff) != []
  {
    var n := |log| - 1;
    assert log == log[..n] + [log[n]];
    SlidingWindow.EvictAppend(log[..n], log[n], cutoff);
  }

  lemma TokenNotFullYet(l: Limit, s: BucketState, now: int, t: int)
    requires Usable(l) && s.Token? && Valid(l, s) && NotAhead(s, now)
    requires now <= t < Step(l, s, now).1.reset
    ensures var s' := Step(l, s, now).0; Settle(l, s', t) != Settle(l, Blank(s'), t)
  {
    StepKeepsValid(l, s, now);
    var (s', dec) := Step(l, s, now);
    assert s'.last == now;
    assert dec.reset == now + TokenBucket.Truncated((l.burst as real - s'.tokens) / TokenBucket.PerTick(l));
    NotFullBefore(l, s'.tokens, t - now);
  }

  lemma NotFullBefore(l: Limit, tokens: real, wait: int)
    requires Usable(l) && 0 <= wait < TokenBucket.Truncated((l.burst as real - tokens) / TokenBucket.PerTick(l))
    ensures tokens + TokenBucket.Earned(TokenBucket.PerTick(l), wait) < l.burst as real
  {
    var p, x := TokenBucket.PerTick(l), (l.burst as real - tokens) / TokenBucket.PerTick(l);
    assert x * p == l.burst as real - tokens;
    assert wait as real < x;
    assert p * wait as real < p * x;
  }

  lemma SettledAfterReset(l: Limit, s: BucketState, now: int, t: int)
    requires Usable(l) && Valid(l, s) && NotAhead(s, now)
    requires t >= Step(l, s, now).1.reset + ResetSlack(s)
    ensures var s' := Step(l, s, now).0; Settle(l, s', t) == Settle(l, Blank(s'), t)
  {
    if s.Token? {
      TokenSettledAfterReset(l, s, now, t);
    } else {
      StepKeepsValid(l, s, now);
      if s.Sliding? {
        SlidingWindow.EvictDropsAll(Step(l, s, now).0.log, t - l.window);
      }
    }
  }

  lemma TokenSettledAfterReset(l: Limit, s: BucketState, now: int, t: int)
    requires Usable(l) && s.Token? && Valid(l, s) && NotAhead(s, now)
    requires t >= Step(l, s, now).1.reset + 1
    ensures var s' := Step(l, s, now).0; Settle(l, s', t) == Settle(l, Blank(s'), t)
  {
    StepKeepsValid(l, s, now);
    var (s', dec) := Step(l, s, now);
    assert s'.last == now;
    assert dec.reset == now + TokenBucket.Truncated((l.burst as real - s'.tokens) / TokenBucket.PerTick(l));
    FullAfter(l, s'.tokens, t - now);
  }

  lemma FullAfter(l: Limit, tokens: real, wait: int)
    requires Usable(l) && tokens <= l.burst as real
    requires wait >= 1 + TokenBucket.Truncated((l.burst as real - tokens) / TokenBucket.PerTick(l))
    ensures tokens + TokenBucket.Earned(TokenBucket.PerTick(l), wait) >= l.burst as real
  {
    var p, x := TokenBucket.PerTick(l), l.burst as real - tokens;
    assert (x / p) * p == x;
    assert wait as real >= x / p;
    assert p * wait as real >= p * (x / p);
  }

  /**
   * For the truncating token bucket the nanosecond is needed: at Reset itself the bucket is
   * full exactly when the time to full is a whole number of ticks.
   */
  lemma TokenFullAtResetIff(l: Limit, s: BucketState, now: int)
    requires Usable(l) && s.Token? && Valid(l, s) && NotAhead(s, now)
    ensures
      var (s', dec) := Step(l, s, now);
      var toFull := (l.burst as real - s'.tokens) / TokenBucket.PerTick(l);
      Settle(l, s', dec.reset) == Settle(l, Blank(s'), dec.reset) <==> toFull.Floor as real == toFull
  {
    StepKeepsValid(l, s, now);
    var (s', dec) := Step(l, s, now);
    var x := (l.burst as real - s'.tokens) / TokenBucket.PerTick(l);
    RefillReachesBurstIff(l, s'.tokens, x);
    assert s'.last == now && dec.reset == now + TokenBucket.Truncated(x);
  }

  lemma RefillReachesBurstIff(l: Limit, tokens: real, x: real)
    requires Usable(l) && 0.0 <= tokens <= l.burst as real
    requires x == (l.burst as real - tokens) / TokenBucket.PerTick(l)
    ensures
      tokens + TokenBucket.Earned(TokenBucket.PerTick(l), TokenBucket.Truncated(x)) >= l.burst as real
      <==> x.Floor as real == x
    ensures x <= 0.0 ==> tokens == l.burst as real
  {
    var p := TokenBucket.PerTick(l);
    assert p * x == l.burst as real - tokens;
    assert x >= 0.0;
    if x.Floor as real < x {
      assert p * x.Floor as real < p * x;
    }
  }
}
