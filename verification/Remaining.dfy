/** What a decision's Remaining promises: how many more requests would pass right now. */
module Remaining {
  import opened Limits
  import opened Buckets
  import SlidingWindow
  import TokenBucket
  import FixedBounds

  /** Requests a settled bucket would still admit at the same instant. */
  function Left(l: Limit, s: BucketState): int {
    match s
    case Fixed(_, count) => l.rate - count
    case Token(tokens, _) => (tokens + TokenBucket.EPSILON).Floor
    case Sliding(log) => l.rate - |log|
  }

  function Least(a: int, b: int): int {
    if a < b then a else b
  }

  /** One request more at the same instant uses up one of what is left, if any is. */
  lemma StepUsesOne(l: Limit, s: BucketState, now: int)
    requires Usable(l) && Valid(l, s) && NotAhead(s, now) && Settle(l, s, now) == s
    requires s.Token? ==> s.last == now
    ensures
      var (s', dec) := Step(l, s, now);
      && 0 <= Left(l, s) && (dec.allowed <==> Left(l, s) > 0)
      && Left(l, s') == Left(l, s) - One(dec.allowed)
      && Valid(l, s') && NotAhead(s', now) && Settle(l, s', now) == s' && (s'.Token? ==> s'.last == now)
  {
    hide TokenBucket.Earned, SlidingWindow.Evict;
    StepKeepsValid(l, s, now);
    SteppedIsSettled(l, s, now);
    if s.Sliding? {
      assert SlidingWindow.Evict(s.log, now - l.window) == s.log;
    }
  }

  lemma {:induction false} LeftIsAdmitted(l: Limit, s: BucketState, now: int, n: nat)
    requires Usable(l) && Valid(l, s) && NotAhead(s, now) && Settle(l, s, now) == s
    requires s.Token? ==> s.last == now
    ensures Admitted(Run(l, s, FixedBounds.Repeat(now, n))) == Least(n, Left(l, s))
    decreases n
  {
    hide Step, Valid, NotAhead, Settle, Left;
    StepUsesOne(l, s, now);
    if n > 0 {
      var ts := FixedBounds.Repeat(now, n);
      assert ts[0] == now && ts[1..] == FixedBounds.Repeat(now, n - 1);
      AdmittedUnfold(l, s, ts);
      LeftIsAdmitted(l, Step(l, s, now).0, now, n - 1);
    }
  }

  /** The bucket holds a fraction of a token so large that it passes for a whole one. */
  predicate NearlyWhole(s: BucketState) {
    s.Token? && s.tokens - s.tokens.Floor as real >= 1.0 - TokenBucket.EPSILON
  }

  /**
   * After any decision, of any number of further requests at the same instant exactly as many are
   * admitted as it said remained, and one more when a fraction of a token passes for a whole one.
   */
  lemma RemainingIsExact(l: Limit, s: BucketState, now: int)
    requires Usable(l) && Valid(l, s) && NotAhead(s, now)
    ensures
      var (s', dec) := Step(l, s, now);
      && (forall n: nat :: Admitted(Run(l, s', FixedBounds.Repeat(now, n)))
                           == Least(n, dec.remaining + One(NearlyWhole(s'))))
      && 0 <= dec.remaining <= dec.limit
      && dec.limit == if s.Token? then l.burst else l.rate
  {
    var (s', dec) := Step(l, s, now);
    StepKeepsValid(l, s, now);
    SteppedIsSettled(l, s, now);
    LeftIsRemaining(l, s, now);
    forall n: nat ensures Admitted(Run(l, s', FixedBounds.Repeat(now, n)))
                          == Least(n, dec.remaining + One(NearlyWhole(s'))) {
      LeftIsAdmitted(l, s', now, n);
    }
  }

  lemma LeftIsRemaining(l: Limit, s: BucketState, now: int)
    requires Usable(l) && Valid(l, s) && NotAhead(s, now)
    ensures
      var (s', dec) := Step(l, s, now);
      && Left(l, s') == dec.remaining + One(NearlyWhole(s')) && (s'.Token? ==> s'.last == now)
      && 0 <= dec.remaining <= dec.limit
      && dec.limit == if s.Token? then l.burst else l.rate
  {
    hide TokenBucket.Earned, SlidingWindow.Evict;
    StepKeepsValid(l, s, now);
  }
}
