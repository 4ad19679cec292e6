/** token_bucket is sound on every clock, and denies only when it has to. */
module TokenBounds {
  import opened Limits
  import opened Buckets
  import opened TokenBucket

  /** A used bucket holding between zero and Burst tokens. */
  ghost predicate InUse(l: Limit, s: BucketState) {
    s.Token? && s.last != 0 && 0.0 <= s.tokens <= l.burst as real
  }

  /** Every clock reading is distinguishable from Go's zero time. */
  ghost predicate NeverZero(ts: seq<int>) {
    forall i :: 0 <= i < |ts| ==> ts[i] != 0
  }

  /** How far the high-water mark of the clock rises from the first request of `ts` to the last. */
  function Rise(l: Limit, s: BucketState, ts: seq<int>): int
    requires Usable(l) && s.Token? && ts != []
  {
    var first := Step(l, s, ts[0]).0;
    AfterIsToken(l, s, ts);
    After(l, s, ts).last - first.last
  }

  lemma {:induction false} AfterIsToken(l: Limit, s: BucketState, ts: seq<int>)
    requires Usable(l) && s.Token?
    ensures After(l, s, ts).Token?
    decreases |ts|
  {
    if ts != [] {
      AfterIsToken(l, Step(l, s, ts[0]).0, ts[1..]);
    }
  }

  /** The request at `t` finds the bucket full. */
  predicate FindsFull(l: Limit, s: BucketState, t: int)
    requires Usable(l) && s.Token?
  {
    Refill(l, s.tokens, s.last, t).0 == l.burst as real
  }

  function Cost(n: nat): real {
    n as real * (1.0 - EPSILON)
  }

  /** What one request takes from a full-enough bucket: at least 1 - EPSILON, at most 1. */
  lemma TakeCost(tokens: real)
    requires tokens >= 0.0
    ensures Take(tokens) <= tokens - Cost(One(Admits(tokens)))
    ensures Take(tokens) >= tokens - One(Admits(tokens)) as real
    ensures 0.0 <= Take(tokens) <= tokens
  {
  }

  /** A request on a used bucket spends what it admits out of what was held or refilled. */
  lemma StepInUse(l: Limit, s: BucketState, t: int)
    requires Usable(l) && l.burst > 0 && t != 0 && InUse(l, s)
    ensures
      var (s', dec) := Step(l, s, t);
      && InUse(l, s') && s.last <= s'.last
      && s'.tokens <= s.tokens + Earned(PerTick(l), s'.last - s.last) - Cost(One(dec.allowed))
      && (FindsFull(l, s, t) ||
          s'.tokens >= s.tokens + Earned(PerTick(l), s'.last - s.last) - One(dec.allowed) as real)
  {
    EarnedSplit(PerTick(l), 0, t - s.last);
    TakeCost(Refill(l, s.tokens, s.last, t).0);
  }

  /** A request that finds the bucket full, as the first one does. */
  lemma StepFull(l: Limit, s: BucketState, t: int)
    requires Usable(l) && l.burst > 0 && t != 0 && s.Token? && FindsFull(l, s, t)
    ensures
      var (s', dec) := Step(l, s, t);
      && InUse(l, s')
      && s'.tokens <= l.burst as real - Cost(One(dec.allowed))
      && s'.tokens >= l.burst as real - One(dec.allowed) as real
  {
    TakeCost(l.burst as real);
  }

  /** Adding one step to the account of the steps after it. */
  lemma EarnedChain(p: real, a: int, b: int, c: int, held: real, left: real, end: real, n: nat, one: nat)
    requires left <= held + Earned(p, b - a) - Cost(one)
    requires Cost(n) + end <= left + Earned(p, c - b)
    ensures Cost(one + n) + end <= held + Earned(p, c - a)
  {
    EarnedSplit(p, b - a, c - b);
  }

  /** Every token spent was held or refilled since. */
  lemma {:induction false} SpentWasEarned(l: Limit, s: BucketState, ts: seq<int>)
    requires Usable(l) && l.burst > 0 && InUse(l, s) && NeverZero(ts)
    ensures InUse(l, After(l, s, ts))
    ensures Cost(Admitted(Run(l, s, ts))) + After(l, s, ts).tokens
            <= s.tokens + Earned(PerTick(l), After(l, s, ts).last - s.last)
    decreases |ts|
  {
    hide Earned;
    EarnedNothing(PerTick(l));
    if ts != [] {
      var (s', dec) := Step(l, s, ts[0]);
      StepInUse(l, s, ts[0]);
      SpentWasEarned(l, s', ts[1..]);
      AdmittedUnfold(l, s, ts);
      EarnedChain(PerTick(l), s.last, s'.last, After(l, s, ts).last, s.tokens, s'.tokens,
                  After(l, s, ts).tokens, Admitted(Run(l, s', ts[1..])), One(dec.allowed));
    }
  }

  /**
   * In any stretch of any run, on any clock, the admissions cost no more than Burst plus the
   * refill over the rise of the clock's high-water mark.
   */
  lemma NeverExceedsBudget(l: Limit, s: BucketState, ts: seq<int>)
    requires Usable(l) && l.burst > 0 && s.Token? && (s.last != 0 ==> InUse(l, s))
    requires NeverZero(ts) && ts != []
    ensures Cost(Admitted(Run(l, s, ts))) <= l.burst as real + Earned(PerTick(l), Rise(l, s, ts))
  {
    hide Earned, Cost;
    var (s', dec) := Step(l, s, ts[0]);
    FirstStep(l, s, ts[0]);
    EarnedNothing(PerTick(l));
    SpentWasEarned(l, s', ts[1..]);
    AdmittedUnfold(l, s, ts);
    EarnedChain(PerTick(l), s'.last, s'.last, After(l, s, ts).last, l.burst as real, s'.tokens,
                After(l, s, ts).tokens, Admitted(Run(l, s', ts[1..])), One(dec.allowed));
  }

  lemma FirstStep(l: Limit, s: BucketState, t: int)
    requires Usable(l) && l.burst > 0 && s.Token? && (s.last != 0 ==> InUse(l, s)) && t != 0
    ensures
      var (s', dec) := Step(l, s, t);
      InUse(l, s') && s'.tokens <= l.burst as real - Cost(One(dec.allowed))
  {
    EarnedSplit(PerTick(l), 0, t - s.last);
    TakeCost(Refill(l, s.tokens, s.last, t).0);
  }

  /** A stretch of a run from a fresh bucket starts in a state the bound applies to. */
  lemma {:induction false} ReachesInUse(l: Limit, s: BucketState, ts: seq<int>)
    requires Usable(l) && l.burst > 0 && s.Token? && (s.last != 0 ==> InUse(l, s)) && NeverZero(ts)
    ensures var s' := After(l, s, ts); s'.Token? && (s'.last != 0 ==> InUse(l, s'))
    decreases |ts|
  {
    if ts != [] {
      FirstStep(l, s, ts[0]);
      ReachesInUse(l, Step(l, s, ts[0]).0, ts[1..]);
    }
  }

  lemma NeverExceedsBudgetAnywhere(l: Limit, ts: seq<int>, i: nat, j: nat)
    requires Usable(l) && l.burst > 0 && NeverZero(ts) && i < j <= |ts|
    ensures
      var before := After(l, Token(0.0, 0), ts[..i]);
      && before.Token?
      && Cost(Admitted(Run(l, before, ts[i..j])))
         <= l.burst as real + Earned(PerTick(l), Rise(l, before, ts[i..j]))
  {
    hide Earned;
    ReachesInUse(l, Token(0.0, 0), ts[..i]);
    NeverExceedsBudget(l, After(l, Token(0.0, 0), ts[..i]), ts[i..j]);
  }

  // ---- Every denial is forced ----

  predicate NeverFull(l: Limit, s: BucketState, ts: seq<int>)
    requires Usable(l) && s.Token?
    decreases |ts|
  {
    ts == [] || (!FindsFull(l, s, ts[0]) && NeverFull(l, Step(l, s, ts[0]).0, ts[1..]))
  }

  /** The last request of the run that finds the bucket full. */
  lemma {:induction false} LastFull(l: Limit, s: BucketState, ts: seq<int>) returns (k: nat)
    requires Usable(l) && s.Token? && !NeverFull(l, s, ts)
    ensures k < |ts| && After(l, s, ts[..k]).Token?
    ensures FindsFull(l, After(l, s, ts[..k]), ts[k])
    ensures NeverFull(l, Step(l, After(l, s, ts[..k]), ts[k]).0, ts[k + 1..])
    decreases |ts|
  {
    var s' := Step(l, s, ts[0]).0;
    if NeverFull(l, s', ts[1..]) {
      k := 0;
      assert ts[..0] == [];
    } else {
      var k' := LastFull(l, s', ts[1..]);
      k := k' + 1;
      assert ts[..k][1..] == ts[1..][..k'];
      assert ts[1..][k' + 1..] == ts[k + 1..];
    }
  }

  lemma LossChain(p: real, a: int, b: int, c: int, held: real, left: real, end: real, n: nat, one: nat)
    requires left >= held + Earned(p, b - a) - one as real
    requires end >= left + Earned(p, c - b) - n as real
    ensures end >= held + Earned(p, c - a) - (one + n) as real
  {
    EarnedSplit(p, b - a, c - b);
  }

  /** A bucket that never fills up loses nothing to the cap. */
  lemma {:induction false} NothingLost(l: Limit, s: BucketState, ts: seq<int>)
    requires Usable(l) && l.burst > 0 && InUse(l, s) && NeverZero(ts) && NeverFull(l, s, ts)
    ensures InUse(l, After(l, s, ts))
    ensures After(l, s, ts).tokens
            >= s.tokens + Earned(PerTick(l), After(l, s, ts).last - s.last)
               - Admitted(Run(l, s, ts)) as real
    decreases |ts|
  {
    hide Earned;
    EarnedNothing(PerTick(l));
    if ts != [] {
      var (s', dec) := Step(l, s, ts[0]);
      StepInUse(l, s, ts[0]);
      NothingLost(l, s', ts[1..]);
      AdmittedUnfold(l, s, ts);
      LossChain(PerTick(l), s.last, s'.last, After(l, s, ts).last, s.tokens, s'.tokens,
                After(l, s, ts).tokens, Admitted(Run(l, s', ts[1..])), One(dec.allowed));
    }
  }

  /** The account of a run since the request that last found the bucket full. */
  lemma NothingLostSinceFull(l: Limit, s: BucketState, ts: seq<int>)
    requires Usable(l) && l.burst > 0 && s.Token? && NeverZero(ts) && ts != []
    requires FindsFull(l, s, ts[0]) && NeverFull(l, Step(l, s, ts[0]).0, ts[1..])
    ensures After(l, s, ts).Token?
    ensures After(l, s, ts).tokens + Admitted(Run(l, s, ts)) as real
            >= l.burst as real + Earned(PerTick(l), Rise(l, s, ts))
  {
    hide Earned;
    var (s', dec) := Step(l, s, ts[0]);
    StepFull(l, s, ts[0]);
    EarnedNothing(PerTick(l));
    NothingLost(l, s', ts[1..]);
    AdmittedUnfold(l, s, ts);
    LossChain(PerTick(l), s'.last, s'.last, After(l, s, ts).last, l.burst as real, s'.tokens,
              After(l, s, ts).tokens, Admitted(Run(l, s', ts[1..])), One(dec.allowed));
  }

  /**
   * For every denial there is an earlier request since which one more admission would have
   * exceeded Burst plus the refill.
   */
  lemma DenialIsForced(l: Limit, ts: seq<int>) returns (k: nat)
    requires Usable(l) && l.burst > 0 && NeverZero(ts) && ts != []
    requires !Run(l, Token(0.0, 0), ts)[|ts| - 1].allowed
    ensures k < |ts| && After(l, Token(0.0, 0), ts[..k]).Token?
    ensures
      var since := After(l, Token(0.0, 0), ts[..k]);
      Admitted(Run(l, since, ts[k..])) as real + 1.0
      > l.burst as real + Earned(PerTick(l), Rise(l, since, ts[k..]))
  {
    hide Earned;
    var blank := Token(0.0, 0);
    assert FindsFull(l, blank, ts[0]);
    k := LastFull(l, blank, ts);
    var since := After(l, blank, ts[..k]);
    assert ts[k..][1..] == ts[k + 1..];
    NothingLostSinceFull(l, since, ts[k..]);
    LastOfTail(l, blank, ts, k);
    DeniedLast(l, since, ts[k..]);
  }

  lemma LastOfTail(l: Limit, s: BucketState, ts: seq<int>, k: nat)
    requires Usable(l) && k < |ts|
    ensures Run(l, After(l, s, ts[..k]), ts[k..])[|ts| - k - 1] == Run(l, s, ts)[|ts| - 1]
  {
    assert ts == ts[..k] + ts[k..];
    RunConcat(l, s, ts[..k], ts[k..]);
  }

  /** After a denial the bucket holds less than one token. */
  lemma {:induction false} DeniedLast(l: Limit, s: BucketState, ts: seq<int>)
    requires Usable(l) && s.Token? && ts != [] && !Run(l, s, ts)[|ts| - 1].allowed
    ensures After(l, s, ts).Token? && After(l, s, ts).tokens < 1.0
    decreases |ts|
  {
    var s' := Step(l, s, ts[0]).0;
    if |ts| > 1 {
      assert Run(l, s, ts)[1..] == Run(l, s', ts[1..]);
      DeniedLast(l, s', ts[1..]);
    } else {
      assert ts[1..] == [];
    }
  }

  // ---- The zero reading ----

  /** With a clock stuck at Go's zero time the bucket looks new on every request. */
  lemma {:induction false} ZeroClockNeverThrottles(l: Limit, ts: seq<int>)
    requires Usable(l) && l.burst > 0 && forall i :: 0 <= i < |ts| ==> ts[i] == 0
    ensures forall s: BucketState :: s.Token? && s.last == 0 ==> Admitted(Run(l, s, ts)) == |ts|
    decreases |ts|
  {
    if ts != [] {
      ZeroClockNeverThrottles(l, ts[1..]);
      forall s: BucketState | s.Token? && s.last == 0 ensures Admitted(Run(l, s, ts)) == |ts| {
        AdmittedUnfold(l, s, ts);
      }
    }
  }
}
