/** The quotas of a whole fleet, in every reachable state of every interleaving. */
module FleetQuota {
  import opened Limits
  import opened Fleet
  import opened FleetBounds
  import Sets
  import B = Buckets
  import Breaker
  import Parity
  import Quotas
  import R = RedisScripts
  import RedisFixedBounds

  // ---- What every step keeps ----

  function LocalLimit(u: Setup): Limit {
    Parity.GoLimit(u.limit)
  }

  /** Every verdict a call carries is on record where it was given. */
  ghost predicate CallOk(u: Setup, log: seq<Entry>, locals: seq<seq<Local>>, id: int, c: Call)
    requires WellSet(u)
  {
    && c.gateway < |locals|
    && match c.phase
       case Waiting => true
       case Ran(allowed, at) => allowed ==> id in AdmittedIds(u.limit, R.Missing, log, at, at)
       case Degrading => u.onError.Degrade?
       case Done(proxied, ByRedis(at)) => proxied ==> id in AdmittedIds(u.limit, R.Missing, log, at, at)
       case Done(proxied, ByFallback(at)) =>
         && u.onError.Degrade?
         && (proxied ==> id in LocalIds(LocalLimit(u), FreshBucket(u), locals[c.gateway], at, at))
       case Done(proxied, ByError(cause)) =>
         && (proxied ==> !u.onError.FailClosed?)
         && (cause.NoAnswer? ==> !u.onError.Degrade?)
         && (cause.NoRoom? ==> u.onError.Degrade?)
  }

  ghost predicate CallsOk(u: Setup, s: State)
    requires WellSet(u)
  {
    forall id :: id in s.calls ==> CallOk(u, s.log, s.locals, id, s.calls[id])
  }

  /** The key and the fallback buckets are what their histories make of them. */
  ghost predicate HistoryOk(u: Setup, s: State)
    requires WellSet(u) && Shaped(u, s)
  {
    && s.key == R.After(u.limit, R.Missing, Events(s.log))
    && forall g :: 0 <= g < u.gateways ==>
         s.replicas[g].bucket == B.After(LocalLimit(u), FreshBucket(u), Times(s.locals[g]))
  }

  lemma LogGrows(u: Setup, log: seq<Entry>, x: Entry, locals: seq<seq<Local>>, id: int, c: Call)
    requires WellSet(u) && CallOk(u, log, locals, id, c)
    ensures CallOk(u, log + [x], locals, id, c)
  {
    match c.phase
    case Ran(_, at) => AdmittedIdsAppend(u.limit, R.Missing, log, x, at, at);
    case Done(_, ByRedis(at)) => AdmittedIdsAppend(u.limit, R.Missing, log, x, at, at);
    case _ =>
  }

  lemma LocalsGrow(u: Setup, log: seq<Entry>, locals: seq<seq<Local>>, g: nat, x: Local, id: int, c: Call)
    requires WellSet(u) && CallOk(u, log, locals, id, c) && g < |locals|
    ensures CallOk(u, log, locals[g := locals[g] + [x]], id, c)
  {
    if c.phase.Done? && c.phase.source.ByFallback? && c.gateway == g {
      var at := c.phase.source.at;
      LocalIdsAppend(LocalLimit(u), FreshBucket(u), locals[g], x, at, at);
    }
  }

  lemma AfterOne(l: Limit, k: R.Key, es: seq<R.Event>, e: R.Event)
    requires Usable(l) && R.Fits(l, k)
    ensures R.After(l, k, es + [e]) == R.Transition(l, R.After(l, k, es), e)
  {
    Quotas.ScriptsConcat(l, k, es, [e]);
    assert [e][1..] == [];
  }

  lemma ExecuteKeeps(u: Setup, s: State, id: int, at: int, now: int, nonce: nat)
    requires WellSet(u) && Shaped(u, s) && CallsOk(u, s) && HistoryOk(u, s)
    requires id in s.calls && s.calls[id].pending
    ensures
      var s' := Step(u, s, Execute(id, at, now, nonce));
      Shaped(u, s') && CallsOk(u, s') && HistoryOk(u, s')
  {
    hide R.Script;
    StepKeepsShape(u, s, Execute(id, at, now, nonce));
    var s' := Step(u, s, Execute(id, at, now, nonce));
    var x := Entry(R.Call(at, now, nonce), id);
    EventsConcat(s.log, [x]);
    assert Events([x]) == [x.event];
    AfterOne(u.limit, R.Missing, Events(s.log), x.event);
    AdmittedIdsAppend(u.limit, R.Missing, s.log, x, at, at);
    forall j | j in s'.calls ensures CallOk(u, s'.log, s'.locals, j, s'.calls[j]) {
      LogGrows(u, s.log, x, s.locals, j, s.calls[j]);
    }
  }

  lemma VanishKeeps(u: Setup, s: State, at: int, now: int)
    requires WellSet(u) && Shaped(u, s) && CallsOk(u, s) && HistoryOk(u, s)
    ensures
      var s' := Step(u, s, Vanish(at, now));
      Shaped(u, s') && CallsOk(u, s') && HistoryOk(u, s')
  {
    StepKeepsShape(u, s, Vanish(at, now));
    var s' := Step(u, s, Vanish(at, now));
    var x := Entry(R.Vanish(at, now), 0);
    EventsConcat(s.log, [x]);
    assert Events([x]) == [x.event];
    AfterOne(u.limit, R.Missing, Events(s.log), x.event);
    forall j | j in s'.calls ensures CallOk(u, s'.log, s'.locals, j, s'.calls[j]) {
      LogGrows(u, s.log, x, s.locals, j, s.calls[j]);
    }
  }

  lemma {:induction false} BucketAfterOne(l: Limit, s: B.BucketState, ts: seq<int>, t: int)
    requires Usable(l)
    ensures B.After(l, s, ts + [t]) == B.Step(l, B.After(l, s, ts), t).0
  {
    B.RunConcat(l, s, ts, [t]);
    assert [t][1..] == [];
  }

  lemma FallbackKeeps(u: Setup, s: State, id: int, at: int, clock: int)
    requires WellSet(u) && Shaped(u, s) && CallsOk(u, s) && HistoryOk(u, s)
    requires id in s.calls && s.calls[id].phase.Degrading?
    ensures
      var s' := Step(u, s, Fallback(id, at, clock));
      Shaped(u, s') && CallsOk(u, s') && HistoryOk(u, s')
  {
    hide B.Step;
    StepKeepsShape(u, s, Fallback(id, at, clock));
    var s' := Step(u, s, Fallback(id, at, clock));
    var g, x := s.calls[id].gateway, Local(id, at, clock);
    TimesConcat(s.locals[g], [x]);
    assert Times([x]) == [clock];
    BucketAfterOne(LocalLimit(u), FreshBucket(u), Times(s.locals[g]), clock);
    LocalIdsAppend(LocalLimit(u), FreshBucket(u), s.locals[g], x, at, at);
    assert CallOk(u, s.log, s.locals, id, s.calls[id]);
    forall j | j in s'.calls ensures CallOk(u, s'.log, s'.locals, j, s'.calls[j]) {
      LocalsGrow(u, s.log, s.locals, g, x, j, s.calls[j]);
    }
  }

  lemma StepKeeps(u: Setup, s: State, e: Event)
    requires WellSet(u) && Shaped(u, s) && CallsOk(u, s) && HistoryOk(u, s)
    ensures Shaped(u, Step(u, s, e)) && CallsOk(u, Step(u, s, e)) && HistoryOk(u, Step(u, s, e))
  {
    StepKeepsShape(u, s, e);
    match e
    case Execute(id, at, now, nonce) =>
      if id in s.calls && s.calls[id].pending { ExecuteKeeps(u, s, id, at, now, nonce); }
    case Vanish(at, now) => VanishKeeps(u, s, at, now);
    case Fallback(id, at, clock) =>
      if id in s.calls && s.calls[id].phase.Degrading? { FallbackKeeps(u, s, id, at, clock); }
    case _ => OtherKeeps(u, s, e);
  }

  lemma ErrorsProxied(u: Setup)
    ensures ProxiesError(u.onError) ==> !u.onError.FailClosed?
    ensures !ProxiesVerdict(false, u.onError)
  {
  }

  /** Entering, replying, failing, cancelling, being refused and calls for other keys leave both histories alone. */
  lemma OtherKeeps(u: Setup, s: State, e: Event)
    requires WellSet(u) && Shaped(u, s) && CallsOk(u, s) && HistoryOk(u, s)
    requires e.Begin? || e.Reply? || e.Fail? || e.Cancel? || e.Refuse? || e.OtherEnters? || e.OtherReturns?
    ensures Shaped(u, Step(u, s, e)) && CallsOk(u, Step(u, s, e)) && HistoryOk(u, Step(u, s, e))
  {
    hide AdmittedIds, LocalIds, B.After, R.After, Breaker.Admit, Breaker.Record, ProxiesVerdict, ProxiesError;
    ErrorsProxied(u);
    StepKeepsShape(u, s, e);
    var s' := Step(u, s, e);
    assert s'.log == s.log && s'.locals == s.locals && s'.key == s.key;
    assert forall g :: 0 <= g < u.gateways ==> s'.replicas[g].bucket == s.replicas[g].bucket;
    forall j | j in s'.calls ensures CallOk(u, s'.log, s'.locals, j, s'.calls[j]) {
      if j in s.calls { assert CallOk(u, s.log, s.locals, j, s.calls[j]); }
    }
  }

  lemma {:induction false} RunKeeps(u: Setup, s: State, es: seq<Event>)
    requires WellSet(u) && Shaped(u, s) && CallsOk(u, s) && HistoryOk(u, s)
    ensures CallsOk(u, After(u, s, es)) && HistoryOk(u, After(u, s, es))
    decreases |es|
  {
    if es != [] {
      StepKeeps(u, s, es[0]);
      RunKeeps(u, Step(u, s, es[0]), es[1..]);
    }
  }

  ghost predicate Reachable(u: Setup, s: State)
    requires WellSet(u)
  {
    exists es :: StartShaped(u) && s == After(u, Start(u), es)
  }

  ghost predicate StartShaped(u: Setup)
    requires WellSet(u)
    ensures StartShaped(u)
  {
    Shaped(u, Start(u))
  }

  lemma ReachableKeeps(u: Setup, s: State)
    requires WellSet(u) && Reachable(u, s)
    ensures Shaped(u, s) && CallsOk(u, s) && HistoryOk(u, s)
  {
    var es :| StartShaped(u) && s == After(u, Start(u), es);
    RunKeeps(u, Start(u), es);
  }

  // ---- A decision stands ----

  /** Nothing that happens later changes how a call was decided, not even its own late script. */
  lemma {:induction false} DecidedOnce(u: Setup, s: State, es: seq<Event>, id: int)
    requires WellSet(u) && Shaped(u, s) && id in s.calls && s.calls[id].phase.Done?
    ensures id in After(u, s, es).calls && After(u, s, es).calls[id].phase == s.calls[id].phase
    decreases |es|
  {
    if es != [] {
      StepKeepsShape(u, s, es[0]);
      DecisionStands(u, s, es[0], id);
      DecidedOnce(u, Step(u, s, es[0]), es[1..], id);
    }
  }

  lemma DecisionStands(u: Setup, s: State, e: Event, id: int)
    requires WellSet(u) && Shaped(u, s) && id in s.calls
    ensures id in Step(u, s, e).calls && Step(u, s, e).calls[id].gateway == s.calls[id].gateway
    ensures s.calls[id].phase.Done? ==> Step(u, s, e).calls[id].phase == s.calls[id].phase
    ensures s.calls[id].phase.Degrading? && e.Execute? ==> Step(u, s, e).calls[id].phase.Degrading?
    ensures !s.calls[id].pending ==> !Step(u, s, e).calls[id].pending
  {
    hide R.Script, B.Step, Breaker.Admit, Breaker.Record, ProxiesVerdict, ProxiesError;
  }

  /** No call runs its script twice. */
  lemma {:induction false} RunsAtMostOnce(u: Setup, s: State, es: seq<Event>, id: int)
    requires WellSet(u) && Shaped(u, s) && id in s.calls && !s.calls[id].pending
    ensures ExecutedFor(After(u, s, es).log, id) == ExecutedFor(s.log, id)
    decreases |es|
  {
    if es != [] {
      var e := es[0];
      StepKeepsShape(u, s, e);
      DecisionStands(u, s, e, id);
      if e.Execute? || e.Vanish? {
        var s' := Step(u, s, e);
        if s'.log != s.log {
          assert s'.log == s.log + [s'.log[|s.log|]];
          ExecutedAppend(s.log, s'.log[|s.log|], id);
        }
      }
      RunsAtMostOnce(u, Step(u, s, e), es[1..], id);
    }
  }

  function ExecutedFor(log: seq<Entry>, id: int): nat {
    if log == [] then 0 else B.One(log[0].event.Call? && log[0].id == id) + ExecutedFor(log[1..], id)
  }

  lemma {:induction false} ExecutedAppend(log: seq<Entry>, x: Entry, id: int)
    ensures ExecutedFor(log + [x], id) == ExecutedFor(log, id) + B.One(x.event.Call? && x.id == id)
    decreases |log|
  {
    if log == [] {
      assert [] + [x] == [x] && [x][1..] == [];
    } else {
      assert (log + [x])[1..] == log[1..] + [x];
      ExecutedAppend(log[1..], x, id);
    }
  }

  // ---- Who let a call through ----

  predicate PassedByRedis(c: Call, lo: int, hi: int) {
    c.phase.Done? && c.phase.proxied && c.phase.source.ByRedis? && lo <= c.phase.source.at <= hi
  }

  predicate PassedByFallback(c: Call, g: nat, lo: int, hi: int) {
    && c.phase.Done? && c.phase.proxied && c.phase.source.ByFallback?
    && c.gateway == g && lo <= c.phase.source.at <= hi
  }

  function ThroughRedis(s: State, lo: int, hi: int): set<int> {
    set id | id in s.calls && PassedByRedis(s.calls[id], lo, hi)
  }

  function ThroughFallback(s: State, g: nat, lo: int, hi: int): set<int> {
    set id | id in s.calls && PassedByFallback(s.calls[id], g, lo, hi)
  }

  /** Calls proxied on the verdict of Redis or of one of the first `n` gateways' fallbacks. */
  function Through(s: State, n: nat, lo: int, hi: int): set<int> {
    if n == 0 then ThroughRedis(s, lo, hi)
    else Through(s, n - 1, lo, hi) + ThroughFallback(s, n - 1, lo, hi)
  }

  /** What the environment owes: fair events at the key, and a fair clock in each gateway. */
  ghost predicate Fair(u: Setup, s: State)
    requires WellSet(u)
  {
    && Quotas.FairEvents(u.limit, R.Missing, Events(s.log))
    && forall g :: 0 <= g < |s.locals| ==> FairLocals(s.locals[g])
  }

  /** What Redis may have admitted beyond the quota, all told: see Quotas.Extra. */
  function Extra(u: Setup, s: State): real
    requires Usable(u.limit) && R.KnownAlgorithm(u.limit.algorithm)
  {
    Quotas.Extra(u.limit, R.Missing, Events(s.log)) as real
  }

  predicate ReopensWindow(u: Setup, s: State)
    requires Usable(u.limit) && R.KnownAlgorithm(u.limit.algorithm)
  {
    u.limit.algorithm == ALGO_FIXED_WINDOW && RedisFixedBounds.Reopens(u.limit, R.Missing, None, Events(s.log))
  }

  lemma RedisKeepsQuota(u: Setup, s: State, lo: int, hi: int)
    requires WellSet(u) && Reachable(u, s) && Fair(u, s) && lo <= hi
    ensures Quotas.Weight(u.limit, |ThroughRedis(s, lo, hi)|) <= Quotas.Quota(u.limit, hi - lo) + Extra(u, s)
  {
    hide Quotas.Weight, Quotas.Quota, Quotas.Extra;
    ReachableKeeps(u, s);
    var ids := AdmittedIds(u.limit, R.Missing, s.log, lo, hi);
    forall id | id in ThroughRedis(s, lo, hi) ensures id in ids {
      assert CallOk(u, s.log, s.locals, id, s.calls[id]);
      WiderSpan(u.limit, R.Missing, s.log, s.calls[id].phase.source.at, lo, hi);
    }
    Sets.SubsetSize(ThroughRedis(s, lo, hi), ids);
    WeightGrows(u.limit, |ThroughRedis(s, lo, hi)|, |ids|);
    Quotas.MissingIsSound(u.limit);
    ScriptsWithinQuota(u.limit, R.Missing, s.log, lo, hi);
  }

  lemma FallbackOnRecord(u: Setup, s: State, g: nat, lo: int, hi: int)
    requires WellSet(u) && Shaped(u, s) && CallsOk(u, s) && g < u.gateways
    ensures ThroughFallback(s, g, lo, hi) <= LocalIds(LocalLimit(u), FreshBucket(u), s.locals[g], lo, hi)
  {
    hide LocalIds;
    forall id | id in ThroughFallback(s, g, lo, hi)
      ensures id in LocalIds(LocalLimit(u), FreshBucket(u), s.locals[g], lo, hi)
    {
      assert CallOk(u, s.log, s.locals, id, s.calls[id]);
      WiderLocalSpan(LocalLimit(u), FreshBucket(u), s.locals[g], s.calls[id].phase.source.at, lo, hi);
    }
  }

  lemma FallbackKeepsQuota(u: Setup, s: State, g: nat, lo: int, hi: int)
    requires WellSet(u) && Reachable(u, s) && Fair(u, s) && lo <= hi && g < u.gateways
    ensures Quotas.Weight(u.limit, |ThroughFallback(s, g, lo, hi)|) <= Quotas.Quota(u.limit, hi - lo)
  {
    hide Quotas.Weight, Quotas.Quota, Reachable, LocalIds;
    var l := LocalLimit(u);
    ReachableKeeps(u, s);
    var ids := LocalIds(l, FreshBucket(u), s.locals[g], lo, hi);
    FallbackOnRecord(u, s, g, lo, hi);
    hide ThroughFallback;
    Sets.SubsetSize(ThroughFallback(s, g, lo, hi), ids);
    WeightGrows(l, |ThroughFallback(s, g, lo, hi)|, |ids|);
    FreshIsSound(u, s.locals[g]);
    LocalsWithinQuota(l, FreshBucket(u), s.locals[g], lo, hi);
    QuotaScales(u.limit, hi - lo, |ThroughFallback(s, g, lo, hi)|);
  }

  lemma FreshIsSound(u: Setup, locals: seq<Local>)
    requires WellSet(u) && FairLocals(locals)
    ensures locals != [] ==> Quotas.SoundBucket(LocalLimit(u), FreshBucket(u), locals[0].clock)
  {
  }

  function Multiple(n: nat, q: real): real {
    n as real * q
  }

  lemma MultipleAdds(n: nat, q: real)
    ensures Multiple(n + 1, q) == Multiple(n, q) + q
    ensures Multiple(1, q) == q
  {
  }

  lemma {:induction false} ThroughKeepsQuota(u: Setup, s: State, n: nat, lo: int, hi: int)
    requires WellSet(u) && Reachable(u, s) && Fair(u, s) && lo <= hi && n <= u.gateways
    ensures Quotas.Weight(u.limit, |Through(s, n, lo, hi)|)
            <= Multiple(n + 1, Quotas.Quota(u.limit, hi - lo)) + Extra(u, s)
    decreases n
  {
    hide Quotas.Weight, Quotas.Quota, Multiple, Fair, Reachable, ThroughRedis, ThroughFallback, Extra;
    MultipleAdds(n, Quotas.Quota(u.limit, hi - lo));
    if n == 0 {
      RedisKeepsQuota(u, s, lo, hi);
    } else {
      ThroughKeepsQuota(u, s, n - 1, lo, hi);
      FallbackKeepsQuota(u, s, n - 1, lo, hi);
      UnionWeight(u.limit, Through(s, n - 1, lo, hi), ThroughFallback(s, n - 1, lo, hi));
    }
  }

  lemma UnionWeight<T>(l: Limit, a: set<T>, b: set<T>)
    ensures Quotas.Weight(l, |a + b|) <= Quotas.Weight(l, |a|) + Quotas.Weight(l, |b|)
  {
    hide Quotas.Weight;
    Sets.UnionSize(a, b);
    WeightGrows(l, |a + b|, |a| + |b|);
    WeightAdds(l, |a|, |b|);
  }

  /**
   * Between any two instants of any run, whatever fails and whichever replies are lost: Redis'
   * verdicts let through at most the quota, each gateway's fallback at most the quota, and all of
   * them together at most N + 1 times the quota. To Redis' share comes the extra of a fixed_window
   * key, which is nothing exactly when no call reopened an expired window.
   */
  lemma FleetKeepsQuota(u: Setup, s: State, lo: int, hi: int)
    requires WellSet(u) && Reachable(u, s) && Fair(u, s) && lo <= hi
    ensures Quotas.Weight(u.limit, |ThroughRedis(s, lo, hi)|) <= Quotas.Quota(u.limit, hi - lo) + Extra(u, s)
    ensures forall g: nat :: g < u.gateways ==>
      Quotas.Weight(u.limit, |ThroughFallback(s, g, lo, hi)|) <= Quotas.Quota(u.limit, hi - lo)
    ensures Quotas.Weight(u.limit, |Through(s, u.gateways, lo, hi)|)
            <= Multiple(u.gateways + 1, Quotas.Quota(u.limit, hi - lo)) + Extra(u, s)
    ensures Extra(u, s) >= 0.0 && (Extra(u, s) == 0.0 <==> !ReopensWindow(u, s))
  {
    Quotas.ExtraNotNegative(u.limit, R.Missing, Events(s.log));
    RedisKeepsQuota(u, s, lo, hi);
    forall g: nat | g < u.gateways
      ensures Quotas.Weight(u.limit, |ThroughFallback(s, g, lo, hi)|) <= Quotas.Quota(u.limit, hi - lo)
    {
      FallbackKeepsQuota(u, s, g, lo, hi);
    }
    ThroughKeepsQuota(u, s, u.gateways, lo, hi);
  }

  /**
   * Under degrade every proxied call has one of these verdicts, unless its caller hung up or its
   * gateway's fallback had no room for the key.
   */
  lemma DegradeProxiesOnlyVerdicts(u: Setup, s: State, id: int, lo: int, hi: int)
    requires WellSet(u) && Reachable(u, s) && u.onError.Degrade?
    requires id in s.calls && s.calls[id].phase.Done? && s.calls[id].phase.proxied
    requires !s.calls[id].phase.source.ByError? ==> lo <= s.calls[id].phase.source.at <= hi
    ensures s.calls[id].phase.source in {ByError(CallerGone), ByError(NoRoom)} || id in Through(s, u.gateways, lo, hi)
  {
    ReachableKeeps(u, s);
    assert CallOk(u, s.log, s.locals, id, s.calls[id]);
    if !s.calls[id].phase.source.ByError? {
      InThrough(s, u.gateways, id, lo, hi);
    }
  }

  lemma {:induction false} InThrough(s: State, n: nat, id: int, lo: int, hi: int)
    requires id in s.calls
    requires PassedByRedis(s.calls[id], lo, hi) ||
             (s.calls[id].gateway < n && PassedByFallback(s.calls[id], s.calls[id].gateway, lo, hi))
    ensures id in Through(s, n, lo, hi)
    decreases n
  {
    if n > 0 && !(s.calls[id].gateway == n - 1 && s.calls[id].phase.source.ByFallback?) {
      InThrough(s, n - 1, id, lo, hi);
    }
  }

  function Proxied(s: State): set<int> {
    set id | id in s.calls && s.calls[id].phase.Done? && s.calls[id].phase.proxied
  }

  /**
   * Under fail_closed every proxied call has an allowed verdict of its own from Redis, so what
   * the whole fleet proxies stays within the one shared quota.
   */
  lemma FailClosedNeverExceedsRedis(u: Setup, s: State, lo: int, hi: int)
    requires WellSet(u) && Reachable(u, s) && Fair(u, s) && lo <= hi && u.onError.FailClosed?
    ensures forall id :: id in Proxied(s) ==>
      && s.calls[id].phase.source.ByRedis?
      && var at := s.calls[id].phase.source.at;
         id in AdmittedIds(u.limit, R.Missing, s.log, at, at)
    ensures
      var proxied := set id | id in Proxied(s) && lo <= s.calls[id].phase.source.at <= hi;
      Quotas.Weight(u.limit, |proxied|) <= Quotas.Quota(u.limit, hi - lo) + Extra(u, s)
  {
    ReachableKeeps(u, s);
    forall id | id in Proxied(s)
      ensures s.calls[id].phase.source.ByRedis?
      ensures id in AdmittedIds(u.limit, R.Missing, s.log, s.calls[id].phase.source.at, s.calls[id].phase.source.at)
    {
      assert CallOk(u, s.log, s.locals, id, s.calls[id]);
    }
    var proxied := set id | id in Proxied(s) && lo <= s.calls[id].phase.source.at <= hi;
    forall id | id in proxied ensures id in ThroughRedis(s, lo, hi) {
    }
    Sets.SubsetSize(proxied, ThroughRedis(s, lo, hi));
    WeightGrows(u.limit, |proxied|, |ThroughRedis(s, lo, hi)|);
    RedisKeepsQuota(u, s, lo, hi);
  }
}
