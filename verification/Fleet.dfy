/**
 * N gateways over one Redis. Each call enters its gateway's breaker, may run its script, may lose
 * the reply, fail or be cancelled, and may fall back to the gateway's own bucket; a script may
 * still run after its caller has given up. The steps of different calls interleave freely. One
 * key and its limit are followed throughout; calls for other keys move the breakers as they like.
 */
module Fleet {
  import opened Limits
  import Breaker
  import B = Buckets
  import Gateway
  import Parity
  import R = RedisScripts

  /** The limit in microseconds, the number of gateways, and what they do on error. */
  datatype Setup = Setup(limit: Limit, gateways: nat, onError: Gateway.OnError)

  ghost predicate WellSet(u: Setup) {
    && Usable(u.limit) && R.KnownAlgorithm(u.limit.algorithm)
    && (u.limit.algorithm == ALGO_TOKEN_BUCKET ==> u.limit.burst > 0)
  }

  /** Who decided a call, and when. */
  datatype Source =
    | ByRedis(at: int)
    | ByFallback(at: int)
    | ByError(cause: Cause)

  /** Why a call got no verdict: its caller hung up, Redis did not answer, the fallback was full. */
  datatype Cause = CallerGone | NoAnswer | NoRoom

  datatype Phase =
    | Waiting                            // let through by the breaker, its script still to run
    | Ran(allowed: bool, at: int)        // script ran, reply on its way
    | Degrading                          // failed or refused, the fallback is next
    | Done(proxied: bool, source: Source)

  /** `pending`: the script was sent and has not run. */
  datatype Call = Call(gateway: nat, pending: bool, phase: Phase)

  datatype Replica = Replica(breaker: Breaker.Core, bucket: B.BucketState)

  /** What happened to the key, with the call it happened for. */
  datatype Entry = Entry(event: R.Event, id: int)

  /** A fallback decision: which call, when, and what the gateway's clock read (nanoseconds). */
  datatype Local = Local(id: int, at: int, clock: int)

  datatype State = State(
    key: R.Key, replicas: seq<Replica>, calls: map<int, Call>,
    log: seq<Entry>, locals: seq<seq<Local>>)

  /** `at` is true time, `now` Redis' TIME, both in microseconds; `clock` is the gateway's, in nanoseconds. */
  datatype Event =
    | Begin(id: int, gateway: nat, clock: int)
    | Execute(id: int, at: int, now: int, nonce: nat)
    | Vanish(at: int, now: int)
    | Reply(id: int, clock: int)
    | Fail(id: int, clock: int)
    | Cancel(id: int, clock: int)
    | Fallback(id: int, at: int, clock: int)
    | Refuse(id: int)
    | OtherEnters(gateway: nat, clock: int)
    | OtherReturns(gateway: nat, outcome: Breaker.Outcome, clock: int)

  function FreshBucket(u: Setup): B.BucketState
    requires WellSet(u)
  {
    B.Fresh(u.limit.algorithm).value
  }

  ghost function Start(u: Setup): State
    requires WellSet(u)
  {
    State(R.Missing, seq(u.gateways, i => Replica(Breaker.INITIAL, FreshBucket(u))), map[],
          [], seq(u.gateways, i => []))
  }

  ghost predicate Shaped(u: Setup, s: State)
    requires WellSet(u)
  {
    && R.Fits(u.limit, s.key)
    && |s.replicas| == u.gateways == |s.locals|
    && forall id :: id in s.calls ==> s.calls[id].gateway < u.gateways
  }

  /** The gateway's outcome switch on a decision, and on an error. */
  function ProxiesVerdict(allowed: bool, onError: Gateway.OnError): bool {
    Gateway.Serve<()>(Ok(Decision(allowed, 0, 0, 0, 0, false)), onError).Proxied?
  }

  function ProxiesError(onError: Gateway.OnError): bool {
    Gateway.Serve<()>(Err(()), onError).Proxied?
  }

  /** A call with no answer from Redis: to the fallback under degrade, an error otherwise. */
  function Unanswered(u: Setup): Phase {
    if u.onError.Degrade? then Degrading else Done(ProxiesError(u.onError), ByError(NoAnswer))
  }

  function WithBreaker(s: State, g: nat, core: Breaker.Core): seq<Replica>
    requires g < |s.replicas|
  {
    s.replicas[g := s.replicas[g].(breaker := core)]
  }

  function Recorded(s: State, g: nat, o: Breaker.Outcome, clock: int): seq<Replica>
    requires g < |s.replicas|
  {
    WithBreaker(s, g, Breaker.Record(s.replicas[g].breaker, o, clock))
  }

  /** The caller is still waiting for Redis. */
  predicate InFlight(c: Call) {
    c.phase.Waiting? || c.phase.Ran?
  }

  ghost function Step(u: Setup, s: State, e: Event): State
    requires WellSet(u) && Shaped(u, s)
  {
    match e
    case Begin(id, g, clock) =>
      if id in s.calls || g >= u.gateways then s else
        var (core, admitted) := Breaker.Admit(s.replicas[g].breaker, clock);
        s.(replicas := WithBreaker(s, g, core),
           calls := s.calls[id := Call(g, admitted, if admitted then Waiting else Unanswered(u))])
    case Execute(id, at, now, nonce) =>
      if id !in s.calls || !s.calls[id].pending then s else
        var c := s.calls[id];
        var (k', r) := R.Script(u.limit, s.key, now, nonce);
        s.(key := k',
           calls := s.calls[id := c.(pending := false,
                                     phase := if c.phase.Waiting? then Ran(r.allowed, at) else c.phase)],
           log := s.log + [Entry(R.Call(at, now, nonce), id)])
    case Vanish(at, now) =>
      s.(key := R.Transition(u.limit, s.key, R.Vanish(at, now)), log := s.log + [Entry(R.Vanish(at, now), 0)])
    case Reply(id, clock) =>
      if id !in s.calls || !s.calls[id].phase.Ran? then s else
        var c := s.calls[id];
        s.(replicas := Recorded(s, c.gateway, Breaker.Success, clock),
           calls := s.calls[id := c.(phase :=
             Done(ProxiesVerdict(c.phase.allowed, u.onError), ByRedis(c.phase.at)))])
    case Fail(id, clock) =>
      if id !in s.calls || !InFlight(s.calls[id]) then s else
        var c := s.calls[id];
        s.(replicas := Recorded(s, c.gateway, Breaker.Failure, clock),
           calls := s.calls[id := c.(phase := Unanswered(u))])
    case Cancel(id, clock) =>
      if id !in s.calls || !InFlight(s.calls[id]) then s else
        var c := s.calls[id];
        s.(replicas := Recorded(s, c.gateway, Breaker.Neutral, clock),
           calls := s.calls[id := c.(phase := Done(ProxiesError(u.onError), ByError(CallerGone)))])
    case Fallback(id, at, clock) =>
      if id !in s.calls || !s.calls[id].phase.Degrading? then s else
        var c := s.calls[id];
        var g := c.gateway;
        var (bucket, dec) := B.Step(Parity.GoLimit(u.limit), s.replicas[g].bucket, clock);
        s.(replicas := s.replicas[g := s.replicas[g].(bucket := bucket)],
           calls := s.calls[id := c.(phase := Done(ProxiesVerdict(dec.allowed, u.onError), ByFallback(at)))],
           locals := s.locals[g := s.locals[g] + [Local(id, at, clock)]])
    case Refuse(id) =>
      if id !in s.calls || !s.calls[id].phase.Degrading? then s else
        s.(calls := s.calls[id := s.calls[id].(phase := Done(ProxiesError(u.onError), ByError(NoRoom)))])
    case OtherEnters(g, clock) =>
      if g >= u.gateways then s else
        s.(replicas := WithBreaker(s, g, Breaker.Admit(s.replicas[g].breaker, clock).0))
    case OtherReturns(g, outcome, clock) =>
      if g >= u.gateways then s else s.(replicas := Recorded(s, g, outcome, clock))
  }

  lemma StepKeepsShape(u: Setup, s: State, e: Event)
    requires WellSet(u) && Shaped(u, s)
    ensures Shaped(u, Step(u, s, e))
  {
    match e
    case Execute(id, at, now, nonce) => R.ScriptFits(u.limit, s.key, now, nonce);
    case _ =>
  }

  ghost function After(u: Setup, s: State, es: seq<Event>): (s': State)
    requires WellSet(u) && Shaped(u, s)
    ensures Shaped(u, s')
    decreases |es|
  {
    if es == [] then s else
      StepKeepsShape(u, s, es[0]);
      After(u, Step(u, s, es[0]), es[1..])
  }
}
