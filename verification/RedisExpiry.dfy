/** Key expiry cannot be observed: dropping every expiry from a run leaves all replies the same. */
module RedisExpiry {
  import opened Limits
  import opened RedisScripts
  import TokenBucket

  /** From `t` on the scripts treat `v` as they treat an absent key. */
  ghost predicate Inert(l: Limit, v: Stored, t: int)
    requires Usable(l)
  {
    match v
    case Window(ws, _) => ws + l.window <= t
    case Tokens(tokens, last) =>
      last < t && tokens + TokenBucket.Earned(TokenBucket.PerTick(l), t - last) >= l.burst as real
    case Log(z) => forall i :: 0 <= i < |z| ==> z[i].score + l.window <= t
  }

  /** Every millisecond past the deadline is late enough for the value to be inert. */
  ghost predicate Covers(l: Limit, v: Stored, deadline: int)
    requires Usable(l)
  {
    match v
    case Window(ws, _) => ws + l.window <= 1000 * deadline
    case Tokens(tokens, last) => last as real + ToFull(l, tokens) < (1000 * (deadline + 1)) as real
    case Log(z) => forall i :: 0 <= i < |z| ==> z[i].score + l.window < 1000 * (deadline + 1)
  }

  /** What holds of every key reached on a clock that reads `now` and never stepped back. */
  ghost predicate Reachable(l: Limit, k: Key, now: int)
    requires Usable(l)
  {
    Fits(l, k) && (k.Live? ==>
      && Covers(l, k.value, k.deadline)
      && match k.value
         case Window(_, count) => true
         case Tokens(tokens, last) => last <= now && tokens <= l.burst as real
         case Log(z) => ScoresAtMost(z, now))
  }

  lemma VanishedWasInert(l: Limit, k: Key, was: int, now: int)
    requires Usable(l) && Reachable(l, k, was) && was <= now && MayVanish(k, now)
    ensures Inert(l, k.value, now)
  {
    assert now >= 1000 * (k.deadline + 1);
    if k.value.Tokens? {
      FullWhenDue(l, k.value.tokens, now - k.value.last);
    }
  }

  lemma FullWhenDue(l: Limit, tokens: real, d: int)
    requires Usable(l) && tokens <= l.burst as real && d as real > ToFull(l, tokens)
    ensures d > 0 && tokens + TokenBucket.Earned(TokenBucket.PerTick(l), d) >= l.burst as real
  {
    var p, x := TokenBucket.PerTick(l), l.burst as real - tokens;
    assert ToFull(l, tokens) * p == x;
    assert ToFull(l, tokens) >= 0.0;
    assert d as real * p >= ToFull(l, tokens) * p;
  }

  lemma InertStaysInert(l: Limit, v: Stored, t1: int, t2: int)
    requires Usable(l) && Inert(l, v, t1) && t1 <= t2
    ensures Inert(l, v, t2)
  {
    if v.Tokens? {
      TokenBucket.EarnedSplit(TokenBucket.PerTick(l), t1 - v.last, t2 - t1);
    }
  }

  lemma {:induction false} RemoveAll(z: seq<Entry>, max: int)
    requires forall i :: 0 <= i < |z| ==> z[i].score <= max
    ensures ZRemUpTo(z, max) == []
  {
    if z != [] {
      RemoveAll(z[1..], max);
    }
  }

  /** A script cannot tell an inert value from an absent key. */
  lemma InertIsMissing(l: Limit, k: Key, t: int, nonce: nat)
    requires Usable(l) && Fits(l, k) && k.Live? && Inert(l, k.value, t)
    ensures Script(l, k, t, nonce) == Script(l, Missing, t, nonce)
  {
    match k.value
    case Window(_, _) =>
    case Tokens(_, _) =>
    case Log(z) => RemoveAll(z, t - l.window);
  }

  ghost predicate ScoresAtMost(z: seq<Entry>, bound: int) {
    forall i :: 0 <= i < |z| ==> z[i].score <= bound
  }

  lemma {:induction false} ZRemKeeps(z: seq<Entry>, max: int, bound: int)
    requires ScoresAtMost(z, bound)
    ensures ScoresAtMost(ZRemUpTo(z, max), bound)
  {
    if z != [] {
      ZRemKeeps(z[1..], max, bound);
      assert ScoresAtMost([z[0]] + ZRemUpTo(z[1..], max), bound);
    }
  }

  lemma {:induction false} ZAddKeeps(z: seq<Entry>, e: Entry, bound: int)
    requires e.score <= bound && ScoresAtMost(z, bound)
    ensures ScoresAtMost(ZAdd(z, e), bound)
  {
    if z != [] {
      ZAddKeeps(z[1..], e, bound);
      assert ScoresAtMost([z[0]] + ZAdd(z[1..], e), bound);
      assert ScoresAtMost([e] + z, bound);
    }
  }

  lemma TtlCovers(l: Limit, tokens: real, now: int)
    requires Usable(l)
    ensures now as real + ToFull(l, tokens) < (1000 * (Millis(now) + TokensTtl(l, tokens) + 1)) as real
  {
    var x := ToFull(l, tokens);
    assert (x / 1000.0) * 1000.0 == x;
    assert TokensTtl(l, tokens) as real >= x / 1000.0;
    assert now < 1000 * Millis(now) + 1000;
  }

  /** Every script call leaves a reachable key, and its deadline is never already due. */
  lemma CallKeepsReachable(l: Limit, k: Key, was: int, now: int, nonce: nat)
    requires Usable(l) && Reachable(l, k, was) && was <= now
    requires l.algorithm == ALGO_TOKEN_BUCKET ==> l.burst > 0
    ensures Reachable(l, Script(l, k, now, nonce).0, now)
  {
    ScriptFits(l, k, now, nonce);
    if l.algorithm == ALGO_TOKEN_BUCKET {
      TokenCallReachable(l, k, was, now);
    } else if l.algorithm == ALGO_SLIDING_WINDOW {
      SlidingCallReachable(l, k, was, now, nonce);
    }
  }

  lemma SlidingCallReachable(l: Limit, k: Key, was: int, now: int, nonce: nat)
    requires Usable(l) && l.algorithm == ALGO_SLIDING_WINDOW
    requires Reachable(l, k, was) && was <= now
    ensures Reachable(l, SlidingScript(l, k, now, nonce).0, now)
  {
    var z := EntriesOf(k);
    var kept := ZRemUpTo(z, now - l.window);
    assert ScoresAtMost(z, now);
    ZRemKeeps(z, now - l.window, now);
    ZAddKeeps(kept, Entry(now, nonce), now);
    var k' := SlidingScript(l, k, now, nonce).0;
    assert k'.Live? ==> ScoresAtMost(k'.value.entries, now);
  }

  lemma TokenCallReachable(l: Limit, k: Key, was: int, now: int)
    requires Usable(l) && l.algorithm == ALGO_TOKEN_BUCKET && l.burst > 0
    requires Reachable(l, k, was) && was <= now
    ensures Reachable(l, TokenScript(l, k, now).0, now)
  {
    hide TokenBucket.Earned, ToFull, TokensTtl;
    var (full, last) := Refilled(l, k, now);
    assert last == now && full <= l.burst as real;
    TtlCovers(l, TokenBucket.Take(full), now);
  }

  /** The calls of a run, with every chance to vanish taken out. */
  function CallsOnly(es: seq<Event>): seq<Event> {
    if es == [] then []
    else if es[0].Call? then [es[0]] + CallsOnly(es[1..])
    else CallsOnly(es[1..])
  }

  ghost predicate ClockNonDecreasing(es: seq<Event>) {
    forall i, j :: 0 <= i < j < |es| ==> es[i].now <= es[j].now
  }

  /** `k1` may have vanished where `k2` lives on, but then what lives on is inert. */
  ghost predicate Alike(l: Limit, k1: Key, k2: Key, now: int)
    requires Usable(l)
  {
    && Fits(l, k1) && Reachable(l, k2, now)
    && (k1 == k2 || (k1.Missing? && k2.Live? && Inert(l, k2.value, now)))
  }

  lemma {:induction false} AlikeReplies(l: Limit, k1: Key, k2: Key, was: int, es: seq<Event>)
    requires Usable(l) && (l.algorithm == ALGO_TOKEN_BUCKET ==> l.burst > 0)
    requires Alike(l, k1, k2, was) && ClockNonDecreasing(es) && (es != [] ==> was <= es[0].now)
    ensures Replies(l, k1, es) == Replies(l, k2, CallsOnly(es))
    decreases |es|
  {
    if es != [] {
      var now := es[0].now;
      if k1 != k2 { InertStaysInert(l, k2.value, was, now); }
      match es[0]
      case Call(_, _, nonce) =>
        if k1 != k2 { InertIsMissing(l, k2, now, nonce); }
        CallKeepsReachable(l, k2, was, now, nonce);
        AlikeReplies(l, Transition(l, k1, es[0]), Transition(l, k2, es[0]), now, es[1..]);
        assert CallsOnly(es)[1..] == CallsOnly(es[1..]);
      case Vanish(_, _) =>
        if MayVanish(k1, now) { VanishedWasInert(l, k2, was, now); }
        AlikeReplies(l, Transition(l, k1, es[0]), k2, now, es[1..]);
    }
  }

  /**
   * On a clock that does not step back, a run in which the key may vanish at any moment past
   * its deadline gives exactly the replies of the run in which it lives forever.
   */
  lemma ExpiryIsInvisible(l: Limit, es: seq<Event>)
    requires Usable(l) && Fits(l, Missing) && (l.algorithm == ALGO_TOKEN_BUCKET ==> l.burst > 0)
    requires ClockNonDecreasing(es)
    ensures Replies(l, Missing, es) == Replies(l, Missing, CallsOnly(es))
  {
    if es != [] {
      AlikeReplies(l, Missing, Missing, es[0].now, es);
    }
  }

  /** No script ever sets a deadline that is already due, so no call deletes its own key. */
  lemma CallLeavesKeyAlive(l: Limit, k: Key, now: int, nonce: nat)
    requires Usable(l) && Fits(l, k)
    ensures
      var (k', r) := Script(l, k, now, nonce);
      r.allowed || l.algorithm != ALGO_FIXED_WINDOW ==> k'.Live? && k'.deadline > Millis(now)
  {
    if l.algorithm == ALGO_SLIDING_WINDOW {
      var kept := ZRemUpTo(EntriesOf(k), now - l.window);
      assert ZAdd(kept, Entry(now, nonce)) != [];
    }
  }

  /**
   * The slack of a whole millisecond is needed: were a key allowed to vanish at its deadline
   * rather than past it, a full window log could vanish while its entry still counts.
   */
  lemma VanishingAtTheDeadlineWouldShow(l: Limit, nonce: nat)
    requires l.algorithm == ALGO_SLIDING_WINDOW && l.rate == 1 && l.window == 1000
    ensures
      var k := Script(l, Missing, 999, nonce).0;
      && k.Live? && Millis(1000) == k.deadline
      && !Script(l, k, 1000, nonce).1.allowed
      && Script(l, Missing, 1000, nonce).1.allowed
  {
    var k := Script(l, Missing, 999, nonce).0;
    assert k == Live(Log([Entry(999, nonce)]), 1);
    assert ZRemUpTo([Entry(999, nonce)], 0) == [Entry(999, nonce)];
  }

  /** When the value a script writes stops mattering: window end, full bucket, or a window from now. */
  function Horizon(l: Limit, v: Stored, now: int): real
    requires Usable(l)
  {
    match v
    case Window(ws, _) => (ws + l.window) as real
    case Tokens(tokens, last) => now as real + ToFull(l, tokens)
    case Log(_) => (now + l.window) as real
  }

  /** Keys do not linger: the deadline written is the first millisecond at or past that. */
  lemma DeadlineIsTight(l: Limit, k: Key, now: int, nonce: nat)
    requires Usable(l) && Fits(l, k) && (l.algorithm == ALGO_TOKEN_BUCKET ==> l.burst > 0)
    requires k.Live? && k.value.Tokens? ==> k.value.tokens <= l.burst as real
    requires Script(l, k, now, nonce).1.allowed || l.algorithm != ALGO_FIXED_WINDOW
    ensures
      var k' := Script(l, k, now, nonce).0;
      k'.Live? && (1000 * (k'.deadline - 1)) as real < Horizon(l, k'.value, now)
  {
    CallLeavesKeyAlive(l, k, now, nonce);
    if l.algorithm == ALGO_TOKEN_BUCKET {
      TokenDeadlineIsTight(l, k, now);
    }
  }

  lemma TokenDeadlineIsTight(l: Limit, k: Key, now: int)
    requires Usable(l) && l.burst > 0 && (k.Live? ==> k.value.Tokens? && k.value.tokens <= l.burst as real)
    ensures
      var k' := TokenScript(l, k, now).0;
      k'.Live? && k'.value.Tokens?
      && (1000 * (k'.deadline - 1)) as real < now as real + ToFull(l, k'.value.tokens)
  {
    hide TokenBucket.Earned;
    var (full, last) := Refilled(l, k, now);
    assert full <= l.burst as real;
    var left := TokenBucket.Take(full);
    assert left < l.burst as real;
    ToFullPositive(l, left);
    TtlIsTight(l, left);
  }

  lemma ToFullPositive(l: Limit, tokens: real)
    requires Usable(l) && tokens < l.burst as real
    ensures ToFull(l, tokens) > 0.0
  {
    var p, x := TokenBucket.PerTick(l), ToFull(l, tokens);
    assert x * p == l.burst as real - tokens;
  }

  lemma TtlIsTight(l: Limit, tokens: real)
    requires Usable(l) && ToFull(l, tokens) > 0.0
    ensures (1000 * (TokensTtl(l, tokens) - 1)) as real < ToFull(l, tokens)
  {
    hide ToFull;
    var x := ToFull(l, tokens) / 1000.0;
    assert x * 1000.0 == ToFull(l, tokens);
  }
}
