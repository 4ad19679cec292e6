/**
 * token_bucket.lua in true time, expiry included, when TIME may step back but never runs
 * faster than true time.
 */
module RedisTokenBounds {
  import opened Limits
  import opened RedisScripts
  import opened TokenBucket
  import Buckets
  import TokenBounds
  import RedisExpiry

  ghost predicate SoundTokens(l: Limit, k: Key) {
    k.Live? ==> k.value.Tokens? && 0.0 <= k.value.tokens <= l.burst as real
  }

  /** Tokens a call finds at most, were no time to pass. */
  function Held(l: Limit, k: Key): real
    requires k.Live? ==> k.value.Tokens?
  {
    if k.Live? then k.value.tokens else l.burst as real
  }

  /** The key was last touched when true time was `at` and TIME read `now`. */
  ghost predicate TouchedAt(l: Limit, k: Key, now: int)
    requires Usable(l) && (k.Live? ==> k.value.Tokens?)
  {
    k.Live? ==>
      && k.value.last >= now
      && now as real + ToFull(l, k.value.tokens) < (1000 * (k.deadline + 1)) as real
  }

  /** All of `es` comes after true time `at` and TIME `now`, and TIME gained no more than true time. */
  ghost predicate Follows(at: int, now: int, es: seq<Event>) {
    forall i :: 0 <= i < |es| ==> at <= es[i].at && es[i].now - now <= es[i].at - at
  }

  function End(at: int, es: seq<Event>): int {
    if es == [] then at else es[|es| - 1].at
  }

  lemma EarnedMonotone(p: real, d1: int, d2: int)
    requires p > 0.0 && d1 <= d2
    ensures Earned(p, d1) <= Earned(p, d2)
  {
    EarnedSplit(p, d1, d2 - d1);
  }

  /** A call spends what it admits out of what was held or refilled in true time. */
  lemma CallSpends(l: Limit, k: Key, at: int, now: int, e: Event)
    requires Usable(l) && l.burst > 0 && SoundTokens(l, k) && TouchedAt(l, k, now) && e.Call?
    requires at <= e.at && e.now - now <= e.at - at
    ensures
      var (k', r) := TokenScript(l, k, e.now);
      && k'.Live? && SoundTokens(l, k') && TouchedAt(l, k', e.now)
      && Held(l, k') <= Held(l, k) + Earned(PerTick(l), e.at - at) - TokenBounds.Cost(Buckets.One(r.allowed))
      && Held(l, k') <= l.burst as real - TokenBounds.Cost(Buckets.One(r.allowed))
  {
    hide Earned, ToFull, TokensTtl, TokenBounds.Cost;
    var (full, last) := Refilled(l, k, e.now);
    EarnedNothing(PerTick(l));
    EarnedMonotone(PerTick(l), 0, e.at - at);
    if k.Live? && e.now > k.value.last {
      EarnedMonotone(PerTick(l), e.now - k.value.last, e.at - at);
      EarnedMonotone(PerTick(l), 0, e.now - k.value.last);
    }
    TokenBounds.TakeCost(full);
    RedisExpiry.TtlCovers(l, Take(full), e.now);
  }

  /** By the time the key vanishes, true time would have refilled the bucket. */
  lemma VanishIsRefill(l: Limit, k: Key, at: int, now: int, e: Event)
    requires Usable(l) && l.burst > 0 && SoundTokens(l, k) && TouchedAt(l, k, now)
    requires at <= e.at && e.now - now <= e.at - at && MayVanish(k, e.now)
    ensures Held(l, k) + Earned(PerTick(l), e.at - at) >= l.burst as real
  {
    assert e.now >= 1000 * (k.deadline + 1);
    RedisExpiry.FullWhenDue(l, k.value.tokens, e.at - at);
  }

  lemma {:induction false} SpentWasEarned(l: Limit, k: Key, at: int, now: int, es: seq<Event>)
    requires Usable(l) && l.algorithm == ALGO_TOKEN_BUCKET && l.burst > 0
    requires Fits(l, k) && SoundTokens(l, k) && TouchedAt(l, k, now)
    requires NeverFast(es) && Follows(at, now, es)
    ensures TokenBounds.Cost(Admitted(l, k, es)) <= Held(l, k) + Earned(PerTick(l), End(at, es) - at)
    decreases |es|
  {
    hide Earned, TouchedAt, TokenScript, Held, TokenBounds.Cost;
    if es == [] {
      EarnedNothing(PerTick(l));
      NothingSpent(l, k);
    } else {
      var e, k' := es[0], Transition(l, k, es[0]);
      FollowsTail(es);
      assert End(e.at, es[1..]) == End(at, es);
      if e.Call? {
        CallSpends(l, k, at, now, e);
        SpentWasEarned(l, k', e.at, e.now, es[1..]);
        TokenBounds.EarnedChain(
          PerTick(l), at, e.at, End(at, es), Held(l, k), Held(l, k'), 0.0,
          Admitted(l, k', es[1..]), Buckets.One(TokenScript(l, k, e.now).1.allowed));
      } else if MayVanish(k, e.now) {
        VanishIsRefill(l, k, at, now, e);
        MissingIsTouched(l, e.now);
        SpentWasEarned(l, Missing, e.at, e.now, es[1..]);
        EarnedSplit(PerTick(l), e.at - at, End(at, es) - e.at);
      } else {
        assert Follows(at, now, es[1..]);
        SpentWasEarned(l, k, at, now, es[1..]);
        assert |es| == 1 || End(at, es[1..]) == End(at, es);
        if |es| == 1 { EarnedMonotone(PerTick(l), at - at, e.at - at); }
      }
    }
  }

  lemma NothingSpent(l: Limit, k: Key)
    requires SoundTokens(l, k) && l.burst > 0
    ensures TokenBounds.Cost(0) <= Held(l, k)
  {
  }

  lemma MissingIsTouched(l: Limit, now: int)
    requires Usable(l)
    ensures TouchedAt(l, Missing, now) && Held(l, Missing) == l.burst as real
  {
  }

  lemma FollowsTail(es: seq<Event>)
    requires NeverFast(es) && es != []
    ensures NeverFast(es[1..]) && Follows(es[0].at, es[0].now, es[1..])
  {
    forall i | 0 <= i < |es[1..]|
      ensures es[0].at <= es[1..][i].at && es[1..][i].now - es[0].now <= es[1..][i].at - es[0].at
    {
      assert es[1..][i] == es[i + 1];
    }
  }

  /**
   * If TIME only ever steps back relative to true time, any stretch of any run costs no more
   * than Burst plus the refill over the stretch's true time, whether or not the key expires.
   */
  lemma {:induction false} NeverExceedsBudget(l: Limit, k: Key, es: seq<Event>)
    requires Usable(l) && l.algorithm == ALGO_TOKEN_BUCKET && l.burst > 0
    requires Fits(l, k) && SoundTokens(l, k) && NeverFast(es) && es != []
    ensures TokenBounds.Cost(Admitted(l, k, es))
            <= l.burst as real + Earned(PerTick(l), es[|es| - 1].at - es[0].at)
    decreases |es|
  {
    hide Earned, TouchedAt, TokenScript, Held, TokenBounds.Cost;
    var e, k', rest := es[0], Transition(l, k, es[0]), es[1..];
    FollowsTail(es);
    EarnedNothing(PerTick(l));
    if e.Call? {
      FirstCall(l, k, e);
      SpentWasEarned(l, k', e.at, e.now, rest);
      TokenBounds.EarnedChain(
        PerTick(l), e.at, e.at, End(e.at, rest), l.burst as real, Held(l, k'), 0.0,
        Admitted(l, k', rest), Buckets.One(TokenScript(l, k, e.now).1.allowed));
    } else if rest == [] {
      NothingSpent(l, Missing);
      MissingIsTouched(l, 0);
    } else {
      NeverExceedsBudget(l, k', rest);
      EarnedMonotone(PerTick(l), es[|es| - 1].at - rest[0].at, es[|es| - 1].at - e.at);
    }
  }

  lemma FirstCall(l: Limit, k: Key, e: Event)
    requires Usable(l) && l.burst > 0 && SoundTokens(l, k) && e.Call?
    ensures
      var (k', r) := TokenScript(l, k, e.now);
      && k'.Live? && SoundTokens(l, k') && TouchedAt(l, k', e.now)
      && Held(l, k') <= l.burst as real - TokenBounds.Cost(Buckets.One(r.allowed))
  {
    hide Earned, ToFull, TokensTtl, TokenBounds.Cost;
    var (full, last) := Refilled(l, k, e.now);
    EarnedNothing(PerTick(l));
    if k.Live? && e.now > k.value.last {
      EarnedMonotone(PerTick(l), 0, e.now - k.value.last);
    }
    TokenBounds.TakeCost(full);
    RedisExpiry.TtlCovers(l, Take(full), e.now);
  }
}
