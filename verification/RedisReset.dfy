/** From the replied Reset on, a script cannot tell its key from an absent one. */
module RedisReset {
  import opened Limits
  import opened RedisScripts
  import opened RedisExpiry
  import RedisSlidingBounds
  import Parity
  import TokenBucket

  /** A post-decision bucket is short of Burst, so it takes at least a tick to fill. */
  lemma FullAtReset(l: Limit, tokens: real, d: int)
    requires Usable(l) && tokens < l.burst as real && d >= CeilReal(ToFull(l, tokens))
    ensures d > 0 && tokens + TokenBucket.Earned(TokenBucket.PerTick(l), d) >= l.burst as real
  {
    var p, x := TokenBucket.PerTick(l), ToFull(l, tokens);
    assert x * p == l.burst as real - tokens;
    assert x > 0.0 && d as real >= x;
    assert d as real * p >= x * p;
  }

  lemma TokenResetIsInert(l: Limit, k: Key, now: int, t: int)
    requires Usable(l) && l.burst > 0 && (k.Live? ==> k.value.Tokens?)
    requires k.Live? ==> k.value.last <= now && k.value.tokens <= l.burst as real
    requires t >= TokenScript(l, k, now).1.reset
    ensures var k' := TokenScript(l, k, now).0; k'.Live? && Inert(l, k'.value, t)
  {
    var (full, last) := Refilled(l, k, now);
    assert last == now && full <= l.burst as real;
    FullAtReset(l, TokenBucket.Take(full), t - now);
  }

  lemma SlidingResetIsInert(l: Limit, k: Key, now: int, nonce: nat, t: int)
    requires Usable(l) && (k.Live? ==> k.value.Log?) && Entry(now, nonce) !in EntriesOf(k)
    requires RedisSlidingBounds.Sorted(EntriesOf(k)) && ScoresAtMost(EntriesOf(k), now)
    requires t >= SlidingScript(l, k, now, nonce).1.reset
    ensures var k' := SlidingScript(l, k, now, nonce).0; k'.Live? && Inert(l, k'.value, t)
  {
    hide RedisSlidingBounds.Sorted, ScoresAtMost, ZRemUpTo, ZAdd, Parity.GoLog;
    Parity.TrimAndAdd(EntriesOf(k), now - l.window, Entry(now, nonce));
    RedisSlidingBounds.CallLog(l, k, now, nonce);
    NewestIsLast(RedisSlidingBounds.LogAfter(l, k, now, nonce));
  }

  lemma NewestIsLast(z: seq<Entry>)
    requires RedisSlidingBounds.Sorted(z)
    ensures forall i :: 0 <= i < |z| ==> z[i].score <= z[|z| - 1].score
  {
    forall i | 0 <= i < |z| ensures z[i].score <= z[|z| - 1].score {
      if i < |z| - 1 { assert Before(z[i], z[|z| - 1]); }
    }
  }

  /** With no call in between, from Reset on every call gets the reply a new key would give. */
  lemma ResetIsCleanSlate(l: Limit, k: Key, was: int, now: int, n1: nat, t: int, n2: nat)
    requires Usable(l) && (l.algorithm == ALGO_TOKEN_BUCKET ==> l.burst > 0)
    requires Reachable(l, k, was) && was <= now
    requires l.algorithm == ALGO_SLIDING_WINDOW ==>
               RedisSlidingBounds.Sorted(EntriesOf(k)) && Entry(now, n1) !in EntriesOf(k)
    requires t >= Script(l, k, now, n1).1.reset
    ensures Fits(l, Script(l, k, now, n1).0)
    ensures Script(l, Script(l, k, now, n1).0, t, n2) == Script(l, Missing, t, n2)
  {
    hide TokenScript, SlidingScript;
    ScriptFits(l, k, now, n1);
    var k' := Script(l, k, now, n1).0;
    if l.algorithm == ALGO_TOKEN_BUCKET {
      TokenResetIsInert(l, k, now, t);
    } else if l.algorithm == ALGO_SLIDING_WINDOW {
      SlidingResetIsInert(l, k, now, n1, t);
    } else if !Script(l, k, now, n1).1.allowed {
      assert k.Live?;
    }
    if k'.Live? { InertIsMissing(l, k', t, n2); }
  }
}
