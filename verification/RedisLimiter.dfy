/** One decision of the Redis-backed limiter: a script call through the breaker, or the fallback. */
module RedisLimiter {
  import opened Limits
  import Breaker
  import Buckets
  import Memory = MemoryLimiter
  import Parity
  import Redis = RedisScripts
  import RedisExpiry

  /** How the script call ends for the caller; a lost reply is a failure like any other. */
  datatype CallResult =
    | Replied(vals: seq<int>)
    | Cancelled
    | Failed

  datatype Error =
    | NoScript
    | WindowTooShort
    | CircuitOpen
    | CallCancelled
    | CallFailed
    | BadReply
    | FallbackRefused(refusal: Memory.Refusal)

  type Answer = Result<Decision, Error>

  /** What Decision.limit reports. */
  function LimitOf(l: Limit): int {
    if l.algorithm == ALGO_TOKEN_BUCKET then l.burst else l.rate
  }

  /** Microseconds in a script's window argument. */
  function WindowMicros(l: Limit): int
    requires l.window > 0
  {
    l.window / 1000
  }

  function DecisionFromReply(vals: seq<int>, limit: int): Answer {
    if |vals| != 4 then Err(BadReply) else
      Ok(Decision(vals[0] == 1, limit, vals[1], Parity.ToGo(vals[2]), 1000 * vals[3], false))
  }

  function OutcomeOf(result: CallResult): Breaker.Outcome {
    match result
    case Replied(_) => Breaker.Success
    case Cancelled => Breaker.Neutral
    case Failed => Breaker.Failure
  }

  /** The call as the breaker lets it through or not: its new state, and an error if there was one. */
  function ThroughBreaker(c: Breaker.Core, result: CallResult, start: int, end: int)
    : (Breaker.Core, Option<Error>)
  {
    var (c', admitted) := Breaker.Admit(c, start);
    if !admitted then (c', Some(CircuitOpen)) else
      (Breaker.Record(c', OutcomeOf(result), end),
       match result
       case Replied(_) => None
       case Cancelled => Some(CallCancelled)
       case Failed => Some(CallFailed))
  }

  function Degraded(answer: Memory.Answer): Answer {
    match answer
    case Ok(dec) => Ok(dec.(degraded := true))
    case Err(refusal) => Err(FallbackRefused(refusal))
  }

  /** New breaker state, new fallback store and the answer. `times` are the three clock readings. */
  function Answered(
      c: Breaker.Core, store: Option<Memory.Store>, maxKeys: nat, r: Memory.Request,
      result: CallResult, start: int, end: int)
    : (Breaker.Core, Option<Memory.Store>, Answer)
  {
    if !Redis.KnownAlgorithm(r.limit.algorithm) then (c, store, Err(NoScript))
    else if WindowMicros(r.limit) <= 0 then (c, store, Err(WindowTooShort))
    else
      var (c', error) := ThroughBreaker(c, result, start, end);
      match error
      case None => (c', store, DecisionFromReply(result.vals, LimitOf(r.limit)))
      case Some(e) =>
        if store.Some? && !e.CallCancelled? then
          var (m, a) := Memory.Answered(store.value, maxKeys, r);
          (c', Some(m), Degraded(a))
        else (c', store, Err(e))
  }

  class RedisLimiter {
    const breaker: Breaker.CircuitBreaker
    const fallback: Memory.Limiter?

    ghost function Objects(): set<object>
      reads this, fallback
    {
      {breaker} + if fallback == null then {} else {fallback as object} + fallback.Objects()
    }

    ghost predicate Valid()
      reads this, fallback
    {
      fallback != null ==> fallback.Valid() && breaker !in fallback.Objects()
    }

    ghost function StoreView(): Option<Memory.Store>
      reads this, fallback, if fallback == null then {} else fallback.Objects()
    {
      if fallback == null then None else Some(fallback.View())
    }

    constructor (degrade: bool, maxKeys: nat)
      ensures Valid() && fresh(Objects()) && breaker.Value() == Breaker.INITIAL
      ensures StoreView() == (if degrade then Some(map[]) else None)
      ensures fallback != null ==> fallback.maxKeys == maxKeys
    {
      breaker := new Breaker.CircuitBreaker();
      if degrade {
        fallback := new Memory.Limiter(maxKeys);
      } else {
        fallback := null;
      }
    }

    /** Runs the call under the breaker. */
    method Do(result: CallResult, start: int, end: int) returns (error: Option<Error>)
      modifies breaker
      ensures (breaker.Value(), error) == ThroughBreaker(old(breaker.Value()), result, start, end)
    {
      var admitted := breaker.TryEnter(start);
      if !admitted {
        return Some(CircuitOpen);
      }
      breaker.Report(OutcomeOf(result), end);
      match result
      case Replied(_) => error := None;
      case Cancelled => error := Some(CallCancelled);
      case Failed => error := Some(CallFailed);
    }

    method Allow(r: Memory.Request, result: CallResult, start: int, end: int) returns (a: Answer)
      requires Valid()
      modifies Objects()
      ensures Valid()
      ensures (breaker.Value(), StoreView(), a)
              == Answered(old(breaker.Value()), old(StoreView()),
                          if fallback == null then 0 else fallback.maxKeys, r, result, start, end)
    {
      if !Redis.KnownAlgorithm(r.limit.algorithm) {
        return Err(NoScript);
      }
      if WindowMicros(r.limit) <= 0 {
        return Err(WindowTooShort);
      }
      ghost var before := StoreView();
      var error := Do(result, start, end);
      assert StoreView() == before;
      if error.None? {
        return DecisionFromReply(result.vals, LimitOf(r.limit));
      }
      if fallback != null && !error.value.CallCancelled? {
        var answer := fallback.Allow(r);
        return Degraded(answer);
      }
      a := Err(error.value);
    }
  }

  // ---- Reading a reply back ----

  /** The four integers a script returns. */
  function Encoded(r: Redis.Reply): seq<int> {
    [if r.allowed then 1 else 0, r.remaining, r.reset, r.retryAfter]
  }

  /**
   * The answer is the decision in every field; for token_bucket its instants, which the script
   * rounds up to microseconds and the bucket down to nanoseconds, are at most a microsecond later.
   */
  ghost predicate Conveys(l: Limit, a: Answer, dec: Decision) {
    && a.Ok? && a.value.allowed == dec.allowed && a.value.limit == dec.limit
    && a.value.remaining == dec.remaining && a.value.degraded == dec.degraded
    && if l.algorithm == ALGO_TOKEN_BUCKET then
         && 0 <= a.value.reset - dec.reset <= 1000
         && 0 <= a.value.retryAfter - dec.retryAfter <= 1000
       else
         a.value.reset == dec.reset && a.value.retryAfter == dec.retryAfter
  }

  /**
   * On a clock that does not step back, the decisions the gateway reads off the wire are, call by
   * call, those an in-process bucket makes at the same times.
   */
  lemma DecisionsOffTheWireAgree(l: Limit, es: seq<Redis.Event>, i: nat)
    requires Parity.Comparable(l) && Parity.Shared(es) && i < |RedisExpiry.CallsOnly(es)|
    ensures
      var replies := Redis.Replies(l, Redis.Missing, es);
      var bucket := Buckets.Fresh(l.algorithm).value;
      var ts := Parity.GoTimes(RedisExpiry.CallsOnly(es));
      && i < |replies|
      && Conveys(l, DecisionFromReply(Encoded(replies[i]), LimitOf(l)),
                 Buckets.Run(Parity.GoLimit(l), bucket, ts)[i])
  {
    hide Redis.Replies, RedisExpiry.CallsOnly, Parity.GoTimes;
    Parity.BackendsAgree(l, es);
    var ts := Parity.GoTimes(RedisExpiry.CallsOnly(es));
    ReportsLimit(Parity.GoLimit(l), Buckets.Fresh(l.algorithm).value, ts, i);
  }

  /** The buckets report Rate, or Burst, as the limit, and never a degraded decision. */
  lemma {:induction false} ReportsLimit(l: Limit, s: Buckets.BucketState, ts: seq<int>, i: nat)
    requires Usable(l) && i < |ts|
    ensures Buckets.Run(l, s, ts)[i].limit == if s.Token? then l.burst else l.rate
    ensures !Buckets.Run(l, s, ts)[i].degraded
    decreases |ts|
  {
    if i > 0 {
      ReportsLimit(l, Buckets.Step(l, s, ts[0]).0, ts[1..], i - 1);
    }
  }
}
