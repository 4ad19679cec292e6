/** One call of the fleet, undisturbed, is one call of its gateway's limiter. */
module FleetCalls {
  import opened Limits
  import opened Fleet
  import Breaker
  import B = Buckets
  import Gateway
  import Memory = MemoryLimiter
  import Parity
  import R = RedisScripts
  import RedisLimiter

  /** How the network treats a call that the breaker lets through. */
  datatype Fate =
    | Replies(at: int, now: int, nonce: nat)
    | LosesReply(at: int, now: int, nonce: nat)
    | NeverRuns
    | HangsUp

  /** The call's own steps, from entering the breaker to its result. */
  function CallEvents(id: int, g: nat, fate: Fate, start: int, end: int): seq<Event> {
    [Begin(id, g, start)] +
    match fate
    case Replies(at, now, nonce) => [Execute(id, at, now, nonce), Reply(id, end)]
    case LosesReply(at, now, nonce) => [Execute(id, at, now, nonce), Fail(id, end)]
    case NeverRuns => [Fail(id, end)]
    case HangsUp => [Cancel(id, end)]
  }

  /** What the limiter's caller sees of it. */
  function ResultOf(u: Setup, k: R.Key, fate: Fate): RedisLimiter.CallResult
    requires Usable(u.limit) && R.Fits(u.limit, k)
  {
    match fate
    case Replies(_, now, nonce) =>
      RedisLimiter.Replied(RedisLimiter.Encoded(R.Script(u.limit, k, now, nonce).1))
    case HangsUp => RedisLimiter.Cancelled
    case _ => RedisLimiter.Failed
  }

  function RequestAt(u: Setup, key: string, clock: int): Memory.Request
    requires Usable(u.limit)
  {
    Memory.Request(key, Parity.GoLimit(u.limit), clock)
  }

  /** The gateway's fallback store, if it has one, holds the bucket the fleet follows, or none yet. */
  ghost predicate Holds(u: Setup, s: State, g: nat, m: Option<Memory.Store>, key: string)
    requires WellSet(u)
  {
    && g < |s.replicas| && (m.Some? <==> u.onError.Degrade?)
    && (m.Some? ==>
          var sk := Memory.StateKey(u.limit.algorithm, key);
          s.replicas[g].bucket == if sk in m.value then m.value[sk] else FreshBucket(u))
  }

  /** A full fallback refuses a new key. */
  function LastEvent(
      u: Setup, m: Option<Memory.Store>, maxKeys: nat, key: string, id: int, at: int, clock: int): Event
  {
    if m.Some? && Memory.StateKey(u.limit.algorithm, key) !in m.value && |m.value| >= maxKeys then Refuse(id)
    else Fallback(id, at, clock)
  }

  /** The state between the call's result and the fallback, if that is next. */
  ghost predicate Settled(u: Setup, s: State, s': State, id: int, g: nat, fate: Fate, start: int, end: int)
    requires WellSet(u) && Shaped(u, s) && g < u.gateways
  {
    var (core, error) := RedisLimiter.ThroughBreaker(
      s.replicas[g].breaker, ResultOf(u, s.key, fate), start, end);
    && Shaped(u, s') && id in s'.calls && s'.calls[id].gateway == g
    && s'.replicas[g] == Replica(core, s.replicas[g].bucket)
    && var phase := s'.calls[id].phase;
       match error
       case None =>
         && fate.Replies? && phase.Done?
         && phase.proxied == ProxiesVerdict(R.Script(u.limit, s.key, fate.now, fate.nonce).1.allowed, u.onError)
       case Some(e) =>
         phase == if e.CallCancelled? then Done(ProxiesError(u.onError), ByError(CallerGone)) else Unanswered(u)
  }

  lemma {:induction false} AfterConcat(u: Setup, s: State, es: seq<Event>, e: Event)
    requires WellSet(u) && Shaped(u, s)
    ensures After(u, s, es + [e]) == Step(u, After(u, s, es), e)
    decreases |es|
  {
    if es == [] {
      assert [] + [e] == [e] && [e][1..] == [];
      StepKeepsShape(u, s, e);
    } else {
      assert (es + [e])[1..] == es[1..] + [e];
      StepKeepsShape(u, s, es[0]);
      AfterConcat(u, Step(u, s, es[0]), es[1..], e);
    }
  }

  lemma AfterOne(u: Setup, s: State, e: Event)
    requires WellSet(u) && Shaped(u, s)
    ensures After(u, s, [e]) == Step(u, s, e)
  {
    assert [] + [e] == [e];
    AfterConcat(u, s, [], e);
  }

  lemma CallSettles(u: Setup, s: State, id: int, g: nat, fate: Fate, start: int, end: int)
    requires WellSet(u) && Shaped(u, s) && id !in s.calls && g < u.gateways
    ensures Settled(u, s, After(u, s, CallEvents(id, g, fate, start, end)), id, g, fate, start, end)
  {
    hide After, B.Step, R.Script, Breaker.Admit, Breaker.Record, ProxiesVerdict, ProxiesError;
    var es := CallEvents(id, g, fate, start, end);
    var head := [es[0], es[1]];
    AfterOne(u, s, es[0]);
    AfterConcat(u, s, [es[0]], es[1]);
    assert [es[0]] + [es[1]] == head;
    if |es| == 2 {
      assert es == head;
    } else {
      AfterConcat(u, s, head, es[2]);
      assert es == head + [es[2]];
    }
  }

  /**
   * Whatever becomes of the call, the steps it takes leave the breaker, the fallback bucket and
   * the outcome that one call of the limiter, handed to the gateway's outcome switch, leaves.
   */
  lemma CallIsOneAllow(
      u: Setup, s: State, id: int, g: nat, fate: Fate, start: int, at: int, end: int,
      m: Option<Memory.Store>, maxKeys: nat, key: string)
    requires WellSet(u) && Shaped(u, s) && id !in s.calls && g < u.gateways
    requires Holds(u, s, g, m, key)
    ensures
      var s' := After(u, s, CallEvents(id, g, fate, start, end)
                            + [LastEvent(u, m, maxKeys, key, id, at, end)]);
      var (core, m', answer) := RedisLimiter.Answered(
        s.replicas[g].breaker, m, maxKeys, RequestAt(u, key, end), ResultOf(u, s.key, fate), start, end);
      && s'.replicas[g].breaker == core && Holds(u, s', g, m', key)
      && id in s'.calls && s'.calls[id].phase.Done?
      && (s'.calls[id].phase.proxied <==> Gateway.Serve(answer, u.onError).Proxied?)
  {
    hide B.Step, R.Script, RedisLimiter.ThroughBreaker;
    var es := CallEvents(id, g, fate, start, end);
    CallSettles(u, s, id, g, fate, start, end);
    AfterConcat(u, s, es, LastEvent(u, m, maxKeys, key, id, at, end));
    assert RedisLimiter.WindowMicros(Parity.GoLimit(u.limit)) == u.limit.window;
  }
}
