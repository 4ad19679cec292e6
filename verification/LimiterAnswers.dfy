/** What one call of the Redis-backed limiter answers, whichever side decides it. */
module LimiterAnswers {
  import opened Limits
  import opened RedisLimiter
  import Breaker
  import Buckets
  import Gateway
  import Memory = MemoryLimiter
  import opened MemoryProjection
  import Parity
  import Quotas
  import Redis = RedisScripts
  import RedisExpiry
  import RetryAfter

  /** The scripts can take the request's limit. */
  predicate Runnable(r: Memory.Request) {
    Redis.KnownAlgorithm(r.limit.algorithm) && r.limit.window >= 1000
  }

  /** The call got no answer: the circuit was open, or the call failed. */
  predicate Unanswered(c: Breaker.Core, result: CallResult, start: int) {
    Breaker.Admit(c, start).1 ==> result.Failed?
  }

  predicate Hung(c: Breaker.Core, result: CallResult, start: int) {
    Breaker.Admit(c, start).1 && result.Cancelled?
  }

  /**
   * Which answer a call gets, and when it touches the fallback: each kind by the conditions that
   * lead to it, and no others.
   */
  lemma AnswerKinds(
      c: Breaker.Core, store: Option<Memory.Store>, maxKeys: nat, r: Memory.Request,
      result: CallResult, start: int, end: int)
    ensures
      var (c', store', a) := Answered(c, store, maxKeys, r, result, start, end);
      var unanswered, hung := Unanswered(c, result, start), Hung(c, result, start);
      && (!Runnable(r) ==> a.Err? && c' == c && store' == store)
      && (a == Err(NoScript) <==> !Redis.KnownAlgorithm(r.limit.algorithm))
      && (a == Err(WindowTooShort) <==> Redis.KnownAlgorithm(r.limit.algorithm) && r.limit.window < 1000)
      && (a == Err(CallCancelled) <==> Runnable(r) && hung)
      && (a == Err(CircuitOpen) <==> Runnable(r) && store.None? && !Breaker.Admit(c, start).1)
      && (a == Err(CallFailed) <==>
            Runnable(r) && store.None? && Breaker.Admit(c, start).1 && result.Failed?)
      && (a == Err(BadReply) <==>
            Runnable(r) && !unanswered && !hung && |result.vals| != 4)
      && (store' != store ==> Runnable(r) && store.Some? && unanswered)
      && (a.Ok? && a.value.degraded <==>
            Runnable(r) && store.Some? && unanswered && Memory.Answered(store.value, maxKeys, r).1.Ok?)
      && (a.Err? && a.error.FallbackRefused? ==>
            Runnable(r) && store.Some? && unanswered && Memory.Answered(store.value, maxKeys, r).1.Err?)
  {
  }

  // ---- Decided by the fallback ----

  /** The same to the client in every header. */
  predicate SameToClient(a: Decision, b: Decision) {
    && a.allowed == b.allowed && a.limit == b.limit && a.remaining == b.remaining
    && a.reset == b.reset && a.retryAfter == b.retryAfter
  }

  /** The bucket a key would have if it alone were served, fed that key's requests. */
  function Own(rs: seq<Memory.Request>, r: Memory.Request): seq<Memory.Answer>
    requires Buckets.Fresh(r.limit.algorithm).Some?
  {
    Alone(Buckets.Fresh(r.limit.algorithm).value, Buckets.Pick(rs, For(rs, Memory.KeyOf(r))))
  }

  lemma {:induction false} AnswersAppend(m: Memory.Store, maxKeys: nat, rs: seq<Memory.Request>, r: Memory.Request)
    ensures Answers(m, maxKeys, rs + [r])
            == Answers(m, maxKeys, rs) + [Memory.Answered(StoreAfter(m, maxKeys, rs), maxKeys, r).1]
    decreases |rs|
  {
    if rs == [] {
      assert [] + [r] == [r] && [r][1..] == [];
    } else {
      assert (rs + [r])[1..] == rs[1..] + [r];
      AnswersAppend(Memory.Answered(m, maxKeys, rs[0]).0, maxKeys, rs[1..], r);
    }
  }

  lemma {:induction false} StoreAppend(m: Memory.Store, maxKeys: nat, rs: seq<Memory.Request>, r: Memory.Request)
    ensures StoreAfter(m, maxKeys, rs + [r]) == Memory.Answered(StoreAfter(m, maxKeys, rs), maxKeys, r).0
    decreases |rs|
  {
    if rs == [] {
      assert [] + [r] == [r] && [r][1..] == [];
    } else {
      assert (rs + [r])[1..] == rs[1..] + [r];
      StoreAppend(Memory.Answered(m, maxKeys, rs[0]).0, maxKeys, rs[1..], r);
    }
  }

  lemma {:induction false} ForAppend(rs: seq<Memory.Request>, r: Memory.Request, sk: string)
    ensures For(rs + [r], sk) == For(rs, sk) + [Memory.KeyOf(r) == sk]
    decreases |rs|
  {
    if rs == [] {
      assert [] + [r] == [r] && [r][1..] == [];
    } else {
      assert (rs + [r])[1..] == rs[1..] + [r];
      ForAppend(rs[1..], r, sk);
    }
  }

  /** The last answer of a mixed run is the last answer of its key's own bucket. */
  lemma LastAnswerIsOwn(maxKeys: nat, rs: seq<Memory.Request>, r: Memory.Request)
    requires AllKnown(rs + [r]) && |KeysOf(rs + [r])| <= maxKeys
    requires Buckets.Fresh(r.limit.algorithm).Some?
    ensures
      var own := Own(rs + [r], r);
      own != [] && Memory.Answered(StoreAfter(map[], maxKeys, rs), maxKeys, r).1 == own[|own| - 1]
  {
    hide Answers, StoreAfter, For, Alone, Buckets.Step;
    var sk, all := Memory.KeyOf(r), rs + [r];
    var m: Memory.Store := map[];
    var answers, a := Answers(m, maxKeys, rs), Memory.Answered(StoreAfter(m, maxKeys, rs), maxKeys, r).1;
    assert m.Keys + KeysOf(all) == KeysOf(all);
    BelowCapacityEveryKeyStandsAlone(m, maxKeys, all, r.limit.algorithm, r.key);
    AnswersAppend(m, maxKeys, rs, r);
    ForAppend(rs, r, sk);
    Buckets.PickConcat(answers, [a], For(rs, sk), [true]);
    assert Buckets.Pick([a], [true]) == [a] by { assert [a][1..] == []; }
  }

  lemma {:induction false} AloneDecides(s: Buckets.BucketState, rs: seq<Memory.Request>, i: nat)
    requires i < |Alone(s, rs)|
    ensures Alone(s, rs)[i].Ok?
    decreases |rs|
  {
    if i > 0 {
      AloneDecides(Buckets.Step(rs[0].limit, s, rs[0].now).0, rs[1..], i - 1);
    }
  }

  /**
   * Under degrade a call without an answer from Redis gets, marked degraded and otherwise to the
   * letter, the decision of a bucket of its own that saw this gateway's earlier fallback requests
   * for the key; and the request is one more of those.
   */
  lemma DegradedAnswerIsOwnBuckets(
      c: Breaker.Core, maxKeys: nat, rs: seq<Memory.Request>, r: Memory.Request,
      result: CallResult, start: int, end: int)
    requires Runnable(r) && Unanswered(c, result, start)
    requires AllKnown(rs + [r]) && |KeysOf(rs + [r])| <= maxKeys
    ensures
      var store := StoreAfter(map[], maxKeys, rs);
      var (_, store', a) := Answered(c, Some(store), maxKeys, r, result, start, end);
      var own := Own(rs + [r], r);
      && store' == Some(StoreAfter(map[], maxKeys, rs + [r])) && own != [] && own[|own| - 1].Ok?
      && a.Ok? && a.value.degraded && SameToClient(a.value, own[|own| - 1].value)
  {
    hide Buckets.Step, Alone, StoreAfter;
    LastAnswerIsOwn(maxKeys, rs, r);
    StoreAppend(map[], maxKeys, rs, r);
    var own := Own(rs + [r], r);
    AloneDecides(Buckets.Fresh(r.limit.algorithm).value,
                 Buckets.Pick(rs + [r], For(rs + [r], Memory.KeyOf(r))), |own| - 1);
  }

  /** A lone client that waits the header's seconds out is admitted by the same fallback. */
  lemma DegradedRetryIsEnough(
      c: Breaker.Core, store: Memory.Store, maxKeys: nat, r: Memory.Request, result: CallResult, start: int, end: int,
      c2: Breaker.Core, later: int, result2: CallResult, start2: int, end2: int)
    requires Runnable(r) && Unanswered(c, result, start) && Unanswered(c2, result2, start2)
    requires Memory.KeyOf(r) in store && Quotas.SoundBucket(r.limit, store[Memory.KeyOf(r)], r.now)
    requires
      var a := Answered(c, Some(store), maxKeys, r, result, start, end).2;
      a.Ok? && !a.value.allowed && later >= r.now + Gateway.HeaderSeconds(a.value.retryAfter) * SECOND
    ensures
      var store2 := Answered(c, Some(store), maxKeys, r, result, start, end).1;
      var a2 := Answered(c2, store2, maxKeys, r.(now := later), result2, start2, end2).2;
      a2.Ok? && a2.value.allowed
  {
    hide Buckets.Step, Breaker.Record;
    RetryAfter.RetryIsEnough(r.limit, store[Memory.KeyOf(r)], r.now, later);
  }

  // ---- Decided by Redis ----

  /**
   * When Redis replies, the answer conveys the decision an in-process bucket makes at the same
   * time, and the fallback is left alone.
   */
  lemma RepliedAnswerConveys(
      l: Limit, es: seq<Redis.Event>, i: nat, c: Breaker.Core, store: Option<Memory.Store>,
      maxKeys: nat, r: Memory.Request, start: int, end: int)
    requires Parity.Comparable(l) && Parity.Shared(es) && i < |RedisExpiry.CallsOnly(es)|
    requires r.limit == Parity.GoLimit(l) && Breaker.Admit(c, start).1
    ensures i < |Redis.Replies(l, Redis.Missing, es)|
    ensures
      var result := Replied(Encoded(Redis.Replies(l, Redis.Missing, es)[i]));
      var (_, store', a) := Answered(c, store, maxKeys, r, result, start, end);
      var ts := Parity.GoTimes(RedisExpiry.CallsOnly(es));
      && store' == store
      && Conveys(l, a, Buckets.Run(Parity.GoLimit(l), Buckets.Fresh(l.algorithm).value, ts)[i])
  {
    hide Redis.Replies, RedisExpiry.CallsOnly, Parity.GoTimes, Buckets.Run, Conveys;
    DecisionsOffTheWireAgree(l, es, i);
    assert WindowMicros(r.limit) == l.window;
  }
}
