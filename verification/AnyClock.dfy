/**
 * The backends on any clock, steps back included, for as long as the key does not expire: the
 * scripts give the verdicts and remaining quota of the in-process bucket at the same readings.
 */
module AnyClock {
  import opened Limits
  import opened RedisScripts
  import opened Parity
  import Buckets
  import FixedBounds
  import FixedWindow
  import RedisFixedBounds
  import RedisSlidingBounds
  import SlidingWindow
  import TokenBucket

  /** Equal verdict and remaining quota; for all but sliding_window the instants as well. */
  ghost predicate AgreeUnsteady(l: Limit, r: Reply, dec: Decision) {
    && r.allowed == dec.allowed && r.remaining == dec.remaining
    && (l.algorithm != ALGO_SLIDING_WINDOW ==> Agree(l, r, dec))
  }

  // ---- token_bucket ----

  ghost predicate SameTokens(l: Limit, k: Key, s: Buckets.BucketState)
    requires Usable(l)
  {
    && Fits(l, k) && l.algorithm == ALGO_TOKEN_BUCKET && l.burst > 0 && s.Token?
    && (if k.Missing? then s.last == 0
        else s.tokens == k.value.tokens && 0.0 <= s.tokens <= l.burst as real
             && s.last == ToGo(k.value.last) && s.last != 0)
  }

  lemma TokenCallAgrees(l: Limit, k: Key, s: Buckets.BucketState, now: int)
    requires Usable(l) && SameTokens(l, k, s) && ToGo(now) != 0
    ensures
      var (k', r) := TokenScript(l, k, now);
      var (s', dec) := Buckets.Step(GoLimit(l), s, ToGo(now));
      Agree(l, r, dec) && SameTokens(l, k', s')
  {
    hide TokenBucket.Earned;
    var (full, last) := Refilled(l, k, now);
    var (goFull, goLast) := TokenBucket.Refill(GoLimit(l), s.tokens, s.last, ToGo(now));
    if k.Live? && now > k.value.last {
      PerTickScales(l, now - k.value.last);
      assert ToGo(now) - ToGo(k.value.last) == 1000 * (now - k.value.last);
      TokenBucket.EarnedSplit(TokenBucket.PerTick(l), 0, now - k.value.last);
    }
    assert full == goFull && goLast == ToGo(last) && 0.0 <= full <= l.burst as real;
    PerTickScales(l, 0);
    TokenReplies(l, full, now);
  }

  // ---- sliding_window ----

  /** The same accept times, in whatever order. */
  ghost predicate SameTimes(l: Limit, k: Key, s: Buckets.BucketState)
    requires Usable(l)
  {
    && Fits(l, k) && l.algorithm == ALGO_SLIDING_WINDOW && s.Sliding?
    && multiset(GoLog(EntriesOf(k))) == multiset(s.log)
  }

  /** What eviction keeps, counted by time. */
  lemma {:induction false} EvictKeepsLater(log: seq<int>, cutoff: int, x: int)
    ensures multiset(SlidingWindow.Evict(log, cutoff))[x] == if x > cutoff then multiset(log)[x] else 0
    decreases |log|
  {
    if log != [] {
      EvictKeepsLater(log[1..], cutoff, x);
      assert log == [log[0]] + log[1..];
    }
  }

  lemma EvictSame(a: seq<int>, b: seq<int>, cutoff: int)
    requires multiset(a) == multiset(b)
    ensures multiset(SlidingWindow.Evict(a, cutoff)) == multiset(SlidingWindow.Evict(b, cutoff))
    ensures |SlidingWindow.Evict(a, cutoff)| == |SlidingWindow.Evict(b, cutoff)|
  {
    var x, y := SlidingWindow.Evict(a, cutoff), SlidingWindow.Evict(b, cutoff);
    forall t ensures multiset(x)[t] == multiset(y)[t] {
      EvictKeepsLater(a, cutoff, t);
      EvictKeepsLater(b, cutoff, t);
    }
    assert multiset(x) == multiset(y);
    assert |multiset(x)| == |x| && |multiset(y)| == |y|;
  }

  /** A new entry adds its time, wherever it goes. */
  lemma {:induction false} AddAddsTime(z: seq<Entry>, e: Entry)
    requires e !in z
    ensures multiset(GoLog(ZAdd(z, e))) == multiset(GoLog(z)) + multiset{ToGo(e.score)}
    decreases |z|
  {
    hide Before, ZAdd, GoLog;
    AddUnfold(z, e);
    TimesCons(e, z);
    if z != [] && !Before(e, z[0]) {
      var rest := z[1..];
      assert z == [z[0]] + rest && e !in rest;
      TimesCons(z[0], rest);
      AddAddsTime(rest, e);
      TimesCons(z[0], ZAdd(rest, e));
    }
  }

  lemma AddUnfold(z: seq<Entry>, e: Entry)
    requires e !in z
    ensures ZAdd(z, e) == if z == [] || Before(e, z[0]) then [e] + z else [z[0]] + ZAdd(z[1..], e)
  {
    if z == [] { assert [e] + z == [e]; }
  }

  lemma TimesCons(e: Entry, z: seq<Entry>)
    ensures multiset(GoLog([e] + z)) == multiset{ToGo(e.score)} + multiset(GoLog(z))
  {
    assert ([e] + z)[1..] == z;
  }

  lemma SlidingCallAgrees(l: Limit, k: Key, s: Buckets.BucketState, now: int, nonce: nat)
    requires Usable(l) && SameTimes(l, k, s) && Entry(now, nonce) !in EntriesOf(k)
    ensures
      var (k', r) := SlidingScript(l, k, now, nonce);
      var (s', dec) := Buckets.Step(GoLimit(l), s, ToGo(now));
      r.allowed == dec.allowed && r.remaining == dec.remaining && SameTimes(l, k', s')
  {
    hide ZRemUpTo, ZAdd, GoLog, SlidingWindow.Evict, SlidingScript, EntriesOf;
    var z, e, max := EntriesOf(k), Entry(now, nonce), now - l.window;
    var kept := ZRemUpTo(z, max);
    TrimMirrors(z, max);
    EvictSame(GoLog(z), s.log, ToGo(max));
    assert ToGo(max) == ToGo(now) - GoLimit(l).window;
    RedisSlidingBounds.ZRemOnlyRemoves(z, max);
    AddAddsTime(kept, e);
    SlidingVerdict(l, k, now, nonce);
    assert |GoLog(kept)| == |kept|;
  }

  lemma SlidingVerdict(l: Limit, k: Key, now: int, nonce: nat)
    requires Usable(l) && (k.Live? ==> k.value.Log?)
    ensures
      var (k', r) := SlidingScript(l, k, now, nonce);
      var kept := ZRemUpTo(EntriesOf(k), now - l.window);
      && k'.Live? && k'.value.Log?
      && r.allowed == (|kept| < l.rate)
      && r.remaining == AtLeastZero(l.rate - |kept| - Buckets.One(r.allowed))
      && EntriesOf(k') == if r.allowed then ZAdd(kept, Entry(now, nonce)) else kept
  {
    hide ZRemUpTo, ZAdd;
    RedisSlidingBounds.CallLog(l, k, now, nonce);
  }

  // ---- fixed_window ----

  /** One grid, and the same window and count. */
  ghost predicate SameWindow(l: Limit, k: Key, s: Buckets.BucketState)
    requires Usable(l)
  {
    && Fits(l, k) && l.algorithm == ALGO_FIXED_WINDOW && SameGrid(l.window) && s.Fixed?
    && RedisFixedBounds.SoundWindow(l, k)
    && (if k.Missing? then s.count == 0 else s.windowStart == ToGo(k.value.ws) && s.count == k.value.count)
  }

  /** Here the reading must not fall in a cell before the one stored. */
  lemma FixedCallAgrees(l: Limit, k: Key, s: Buckets.BucketState, now: int)
    requires Usable(l) && SameWindow(l, k, s)
    requires k.Live? ==> FixedWindow.Truncate(now, l.window) >= k.value.ws
    ensures
      var (k', r) := FixedScript(l, k, now);
      var (s', dec) := Buckets.Step(GoLimit(l), s, ToGo(now));
      Agree(l, r, dec) && SameWindow(l, k', s')
  {
    GridsCoincide(now, l.window);
    RedisFixedBounds.CallKeepsSound(l, k, now);
    RedisFixedBounds.DeadlineAhead(l, FixedWindow.Truncate(now, l.window), now);
  }

  // ---- Whole runs ----

  ghost predicate Same(l: Limit, k: Key, s: Buckets.BucketState)
    requires Usable(l)
  {
    match s
    case Token(_, _) => SameTokens(l, k, s)
    case Sliding(_) => SameTimes(l, k, s)
    case Fixed(_, _) => SameWindow(l, k, s)
  }

  /** What fixed_window asks of the readings: none in a cell before the one stored. */
  predicate NeverBefore(l: Limit, k: Key, es: seq<Event>)
    requires Usable(l) && Fits(l, k)
    decreases |es|
  {
    es == [] ||
    ((l.algorithm == ALGO_FIXED_WINDOW && k.Live? ==> FixedWindow.Truncate(es[0].now, l.window) >= k.value.ws)
     && NeverBefore(l, Transition(l, k, es[0]), es[1..]))
  }

  /** What lets the calls `es` be compared from here on. */
  ghost predicate Unsteady(l: Limit, k: Key, s: Buckets.BucketState, es: seq<Event>) {
    && Comparable(l) && Same(l, k, s) && Fits(l, k) && AllCalls(es) && NeverBefore(l, k, es)
    && RedisSlidingBounds.FreshNonces(LogOf(k), es) && forall i :: 0 <= i < |es| ==> ToGo(es[i].now) != 0
  }

  lemma CallAgrees(l: Limit, k: Key, s: Buckets.BucketState, es: seq<Event>)
    requires Unsteady(l, k, s, es) && es != []
    ensures
      var (k', r) := Script(l, k, es[0].now, es[0].nonce);
      var (s', dec) := Buckets.Step(GoLimit(l), s, ToGo(es[0].now));
      AgreeUnsteady(l, r, dec) && Same(l, k', s')
  {
    hide TokenScript, SlidingScript, FixedScript, Buckets.Step;
    match s
    case Token(_, _) => TokenCallAgrees(l, k, s, es[0].now);
    case Sliding(_) => SlidingCallAgrees(l, k, s, es[0].now, es[0].nonce);
    case Fixed(_, _) => FixedCallAgrees(l, k, s, es[0].now);
  }

  lemma StaysUnsteady(l: Limit, k: Key, s: Buckets.BucketState, es: seq<Event>)
    requires Unsteady(l, k, s, es) && es != []
    ensures Usable(l) && Fits(l, k) && es[0].Call?
    ensures
      var (k', r) := Script(l, k, es[0].now, es[0].nonce);
      var (s', dec) := Buckets.Step(GoLimit(l), s, ToGo(es[0].now));
      AgreeUnsteady(l, r, dec) && Unsteady(l, k', s', es[1..])
  {
    hide Script, Buckets.Step, Same, AgreeUnsteady;
    CallAgrees(l, k, s, es);
    ScriptFits(l, k, es[0].now, es[0].nonce);
    CallKeepsFreshNonces(l, k, es);
    assert forall i :: 0 <= i < |es[1..]| ==> es[1..][i] == es[i + 1];
  }

  ghost predicate AllAgree(l: Limit, rs: seq<Reply>, ds: seq<Decision>) {
    |rs| == |ds| && forall i :: 0 <= i < |rs| ==> AgreeUnsteady(l, rs[i], ds[i])
  }

  lemma AllAgreeCons(l: Limit, r: Reply, rs: seq<Reply>, dec: Decision, ds: seq<Decision>)
    requires AgreeUnsteady(l, r, dec) && AllAgree(l, rs, ds)
    ensures AllAgree(l, [r] + rs, [dec] + ds)
  {
    hide AgreeUnsteady;
  }

  /** The first call of a run, on both sides. */
  lemma FirstCall(l: Limit, k: Key, s: Buckets.BucketState, es: seq<Event>)
    requires Usable(l) && Fits(l, k) && es != [] && es[0].Call?
    ensures
      var (k', r) := Script(l, k, es[0].now, es[0].nonce);
      var (s', dec) := Buckets.Step(GoLimit(l), s, ToGo(es[0].now));
      && Fits(l, k') && Replies(l, k, es) == [r] + Replies(l, k', es[1..])
      && Buckets.Run(GoLimit(l), s, GoTimes(es)) == [dec] + Buckets.Run(GoLimit(l), s', GoTimes(es[1..]))
  {
    hide Script, Buckets.Step;
    ScriptFits(l, k, es[0].now, es[0].nonce);
    assert GoTimes(es)[1..] == GoTimes(es[1..]);
  }

  lemma {:induction false} AgreeFrom(l: Limit, k: Key, s: Buckets.BucketState, es: seq<Event>)
    requires Unsteady(l, k, s, es)
    ensures Usable(l) && Fits(l, k)
    ensures AllAgree(l, Replies(l, k, es), Buckets.Run(GoLimit(l), s, GoTimes(es)))
    decreases |es|
  {
    assert Usable(l) && Fits(l, k);
    if es != [] {
      hide AllAgree, Unsteady, Buckets.Step, Buckets.Run, Script, Replies, GoTimes;
      StaysUnsteady(l, k, s, es);
      var (k', r) := Script(l, k, es[0].now, es[0].nonce);
      var (s', dec) := Buckets.Step(GoLimit(l), s, ToGo(es[0].now));
      FirstCall(l, k, s, es);
      AgreeFrom(l, k', s', es[1..]);
      AllAgreeCons(l, r, Replies(l, k', es[1..]), dec, Buckets.Run(GoLimit(l), s', GoTimes(es[1..])));
    }
  }

  /**
   * On any clock past Go's zero time, with no expiry between the calls, the scripts decide call by
   * call as a new in-process bucket at the same readings; for fixed_window as long as no reading
   * falls in a cell before the one stored.
   */
  lemma BackendsAgreeOnAnyClock(l: Limit, es: seq<Event>)
    requires Comparable(l) && AllCalls(es) && NeverBefore(l, Missing, es)
    requires forall i :: 0 <= i < |es| ==> ToGo(es[i].now) != 0
    requires RedisSlidingBounds.FreshNonces([], es)
    ensures AllAgree(l, Replies(l, Missing, es),
                     Buckets.Run(GoLimit(l), Buckets.Fresh(l.algorithm).value, GoTimes(es)))
  {
    AgreeFrom(l, Missing, Buckets.Fresh(l.algorithm).value, es);
  }
}
