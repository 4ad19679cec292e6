/** The fleet's bound is exact: for every limit some fair run lets N + 1 whole quotas through. */
module FleetAttained {
  import opened Limits
  import opened Fleet
  import opened FleetQuota
  import Sets
  import FleetBounds
  import FleetCalls
  import B = Buckets
  import FixedBounds
  import FixedWindow
  import Quotas
  import Remaining
  import R = RedisScripts
  import RedisFixedBounds
  import RedisSlidingBounds
  import TokenBucket

  // ---- Room at the key and in a bucket ----

  /** Calls the script would still admit at a reading of `now`. */
  function Room(l: Limit, k: R.Key, now: int): int
    requires Usable(l) && R.Fits(l, k)
  {
    if l.algorithm == ALGO_FIXED_WINDOW then
      if k.Live? && k.value.ws >= FixedWindow.Truncate(now, l.window) then l.rate - k.value.count else l.rate
    else if l.algorithm == ALGO_TOKEN_BUCKET then R.Refilled(l, k, now).0.Floor
    else l.rate - |R.ZRemUpTo(R.EntriesOf(k), now - l.window)|
  }

  /** No later window than the one of `now` is stored. */
  predicate NoLaterWindow(l: Limit, k: R.Key, now: int)
    requires Usable(l)
  {
    k.Live? && k.value.Window? ==> k.value.ws <= FixedWindow.Truncate(now, l.window)
  }

  lemma CallTakesOne(l: Limit, k: R.Key, now: int, nonce: nat)
    requires Usable(l) && R.Fits(l, k) && Room(l, k, now) > 0 && NoLaterWindow(l, k, now)
    ensures
      var (k', r) := R.Script(l, k, now, nonce);
      r.allowed && R.Fits(l, k') && NoLaterWindow(l, k', now) && Room(l, k', now) >= Room(l, k, now) - 1
  {
    R.ScriptFits(l, k, now, nonce);
    if l.algorithm == ALGO_TOKEN_BUCKET {
      hide TokenBucket.Earned;
    } else if l.algorithm == ALGO_SLIDING_WINDOW {
      RedisSlidingBounds.CallLog(l, k, now, nonce);
    } else {
      RedisFixedBounds.DeadlineAhead(l, FixedWindow.Truncate(now, l.window), now);
    }
  }

  /** Requests a bucket would still admit at a reading of `clock`. */
  ghost function BucketRoom(l: Limit, b: B.BucketState, clock: int): int
    requires Usable(l)
  {
    Remaining.Left(l, B.Settle(l, b, clock))
  }

  ghost predicate Fit(l: Limit, b: B.BucketState, clock: int)
    requires Usable(l)
  {
    Quotas.OfKind(l.algorithm, b) && B.Valid(l, b) && B.NotAhead(b, clock) && clock > 0
  }

  lemma SettledFits(l: Limit, b: B.BucketState, clock: int)
    requires Usable(l) && Fit(l, b, clock)
    ensures
      var b' := B.Settle(l, b, clock);
      Fit(l, b', clock) && B.Settle(l, b', clock) == b' && (b'.Token? ==> b'.last == clock)
  {
    hide TokenBucket.Earned, B.SlidingWindow.Evict;
    B.SettleTwice(l, b, clock, clock);
    if b.Token? {
      TokenBucket.EarnedSplit(TokenBucket.PerTick(l), 0, clock - b.last);
    } else if b.Sliding? {
      var d := B.SlidingWindow.EvictDropsPrefix(b.log, clock - l.window);
    }
  }

  lemma RequestTakesOne(l: Limit, b: B.BucketState, clock: int)
    requires Usable(l) && Fit(l, b, clock) && BucketRoom(l, b, clock) > 0
    ensures
      var (b', dec) := B.Step(l, b, clock);
      dec.allowed && Fit(l, b', clock) && BucketRoom(l, b', clock) == BucketRoom(l, b, clock) - 1
  {
    hide B.Step, B.Settle, Remaining.Left;
    SettledFits(l, b, clock);
    B.StepSettles(l, b, clock);
    Remaining.StepUsesOne(l, B.Settle(l, b, clock), clock);
    StepKeepsKind(l, b, clock);
  }

  lemma StepKeepsKind(l: Limit, b: B.BucketState, clock: int)
    requires Usable(l) && Quotas.OfKind(l.algorithm, b)
    ensures Quotas.OfKind(l.algorithm, B.Step(l, b, clock).0)
  {
  }

  // ---- A state in which `m` calls have passed between `lo` and `hi` ----

  datatype Span = Span(lo: int, hi: int)

  function Ids(m: nat): (ids: set<int>)
    ensures forall id :: id in ids <==> 0 <= id < m
    ensures |ids| == m
  {
    if m == 0 then {} else Ids(m - 1) + {m - 1}
  }

  ghost predicate PassedIn(u: Setup, c: Call, w: Span) {
    || PassedByRedis(c, w.lo, w.hi)
    || (c.gateway < u.gateways && PassedByFallback(c, c.gateway, w.lo, w.hi))
  }

  ghost predicate Passed(u: Setup, s: State, m: nat, w: Span)
    requires WellSet(u)
  {
    && Reachable(u, s) && Shaped(u, s) && u.onError.Degrade?
    && (forall id :: id in s.calls <==> 0 <= id < m)
    && forall id :: id in s.calls ==> PassedIn(u, s.calls[id], w)
  }

  lemma ReachableStep(u: Setup, s: State, e: Event)
    requires WellSet(u) && Reachable(u, s) && Shaped(u, s)
    ensures Reachable(u, Step(u, s, e)) && Shaped(u, Step(u, s, e))
  {
    hide Step;
    var es :| StartShaped(u) && s == After(u, Start(u), es);
    StepKeepsShape(u, s, e);
    FleetCalls.AfterConcat(u, Start(u), es, e);
  }

  // ---- Calls that Redis lets through ----

  ghost predicate InOrder(log: seq<Entry>, m: nat, at: int) {
    && (forall i :: 0 <= i < |log| ==> MadeBefore(log[i], m, at))
    && forall i, j :: 0 <= i < j < |log| ==>
         log[i].event.at <= log[j].event.at && log[i].event.nonce < log[j].event.nonce
  }

  ghost predicate MadeBefore(x: Entry, m: nat, at: int) {
    x.event.Call? && x.event.at == x.event.now <= at && x.event.nonce < m
  }

  ghost predicate RedisReady(u: Setup, s: State, m: nat, w: Span, at: int)
    requires WellSet(u)
  {
    && Passed(u, s, m, w) && InOrder(s.log, m, at) && NoLaterWindow(u.limit, s.key, at)
    && |s.replicas| > 0 && s.replicas[0].breaker.state.Closed?
  }

  ghost predicate SameFallbacks(s: State, s': State) {
    && s'.locals == s.locals && |s'.replicas| == |s.replicas|
    && forall g :: 0 <= g < |s.replicas| ==> s'.replicas[g].bucket == s.replicas[g].bucket
  }

  lemma RedisPassesOne(u: Setup, s: State, m: nat, w: Span, at: int) returns (s': State)
    requires WellSet(u) && RedisReady(u, s, m, w, at) && w.lo <= at <= w.hi && Room(u.limit, s.key, at) > 0
    ensures RedisReady(u, s', m + 1, w, at) && SameFallbacks(s, s')
    ensures Room(u.limit, s'.key, at) >= Room(u.limit, s.key, at) - 1
  {
    hide R.Script, Room, NoLaterWindow, Reachable;
    CallTakesOne(u.limit, s.key, at, m);
    ReachableStep(u, s, Begin(m, 0, 0));
    var s1 := Step(u, s, Begin(m, 0, 0));
    ReachableStep(u, s1, Execute(m, at, at, m));
    var s2 := Step(u, s1, Execute(m, at, at, m));
    ReachableStep(u, s2, Reply(m, 0));
    s' := Step(u, s2, Reply(m, 0));
    assert s'.calls[m] == Call(0, false, Done(true, ByRedis(at)));
    forall id | id in s'.calls ensures PassedIn(u, s'.calls[id], w) {
      if id != m { assert PassedIn(u, s.calls[id], w); }
    }
    LogOneMore(s.log, Entry(R.Call(at, at, m), m), m, at);
  }

  lemma LogOneMore(log: seq<Entry>, x: Entry, m: nat, at: int)
    requires InOrder(log, m, at) && x.event == R.Call(at, at, m)
    ensures InOrder(log + [x], m + 1, at)
  {
    var longer := log + [x];
    forall i | 0 <= i < |longer| ensures MadeBefore(longer[i], m + 1, at) {
      if i < |log| { assert MadeBefore(log[i], m, at); }
    }
    forall i, j | 0 <= i < j < |longer|
      ensures longer[i].event.at <= longer[j].event.at && longer[i].event.nonce < longer[j].event.nonce
    {
      if j == |log| { assert MadeBefore(log[i], m, at); }
    }
  }

  lemma {:induction false} RedisPasses(u: Setup, s: State, m: nat, w: Span, at: int, n: nat) returns (s': State)
    requires WellSet(u) && RedisReady(u, s, m, w, at) && w.lo <= at <= w.hi && Room(u.limit, s.key, at) >= n
    ensures RedisReady(u, s', m + n, w, at) && SameFallbacks(s, s')
    decreases n
  {
    hide Room, RedisReady;
    if n == 0 {
      s' := s;
    } else {
      RedisReadyFits(u, s, m, w, at);
      var s1 := RedisPassesOne(u, s, m, w, at);
      RedisReadyFits(u, s1, m + 1, w, at);
      s' := RedisPasses(u, s1, m + 1, w, at, n - 1);
    }
  }

  lemma RedisReadyFits(u: Setup, s: State, m: nat, w: Span, at: int)
    requires WellSet(u) && RedisReady(u, s, m, w, at)
    ensures Shaped(u, s)
  {
  }

  // ---- Calls that a fallback lets through ----

  /** The gateway's fallback decisions are fair up to those readings. */
  ghost predicate Steady(locals: seq<Local>, at: int, clock: int) {
    FleetBounds.FairLocals(locals) && forall i :: 0 <= i < |locals| ==> UpTo(locals[i], at, clock)
  }

  predicate UpTo(x: Local, at: int, clock: int) {
    x.at <= at && 0 <= clock - x.clock <= 1000 * (at - x.at)
  }

  ghost predicate LocalReady(u: Setup, s: State, g: nat, at: int, clock: int)
    requires WellSet(u)
  {
    && Shaped(u, s) && g < u.gateways && clock > 0
    && Fit(LocalLimit(u), s.replicas[g].bucket, clock) && Steady(s.locals[g], at, clock)
  }

  /** Nothing but gateway `g` has changed. */
  ghost predicate OnlyAt(s: State, s': State, g: nat) {
    && s'.log == s.log && |s'.locals| == |s.locals| == |s.replicas| == |s'.replicas|
    && forall h :: 0 <= h < |s.locals| && h != g ==>
         s'.locals[h] == s.locals[h] && s'.replicas[h].bucket == s.replicas[h].bucket
  }

  lemma FallbackPassesOne(u: Setup, s: State, m: nat, w: Span, g: nat, at: int, clock: int) returns (s': State)
    requires WellSet(u) && Passed(u, s, m, w) && w.lo <= at <= w.hi && LocalReady(u, s, g, at, clock)
    requires BucketRoom(LocalLimit(u), s.replicas[g].bucket, clock) > 0
    ensures Passed(u, s', m + 1, w) && LocalReady(u, s', g, at, clock) && OnlyAt(s, s', g)
    ensures BucketRoom(LocalLimit(u), s'.replicas[g].bucket, clock)
            == BucketRoom(LocalLimit(u), s.replicas[g].bucket, clock) - 1
  {
    hide B.Step, BucketRoom, Fit, Reachable;
    RequestTakesOne(LocalLimit(u), s.replicas[g].bucket, clock);
    ReachableStep(u, s, Begin(m, g, 0));
    var s1 := Step(u, s, Begin(m, g, 0));
    ReachableStep(u, s1, Fail(m, 0));
    var s2 := Step(u, s1, Fail(m, 0));
    assert s2.calls[m].phase == Degrading && s2.calls[m].gateway == g;
    assert s2.replicas[g].bucket == s.replicas[g].bucket;
    ReachableStep(u, s2, Fallback(m, at, clock));
    s' := Step(u, s2, Fallback(m, at, clock));
    assert s'.calls[m].phase == Done(true, ByFallback(at)) && s'.calls[m].gateway == g;
    forall id | id in s'.calls ensures PassedIn(u, s'.calls[id], w) {
      if id != m { assert PassedIn(u, s.calls[id], w); }
    }
    LocalsOneMore(s.locals[g], Local(m, at, clock));
  }

  lemma LocalsOneMore(locals: seq<Local>, x: Local)
    requires Steady(locals, x.at, x.clock) && x.clock > 0
    ensures Steady(locals + [x], x.at, x.clock)
  {
    var longer := locals + [x];
    forall i | 0 <= i < |longer| ensures UpTo(longer[i], x.at, x.clock) {
      if i < |locals| { assert UpTo(locals[i], x.at, x.clock); }
    }
    forall i, j | 0 <= i < j < |longer|
      ensures longer[i].at <= longer[j].at
      ensures 0 <= longer[j].clock - longer[i].clock <= 1000 * (longer[j].at - longer[i].at)
    {
      if j == |locals| { assert UpTo(locals[i], x.at, x.clock); }
    }
  }

  lemma {:induction false} FallbackPasses(
      u: Setup, s: State, m: nat, w: Span, g: nat, at: int, clock: int, n: nat) returns (s': State)
    requires WellSet(u) && Passed(u, s, m, w) && w.lo <= at <= w.hi && LocalReady(u, s, g, at, clock)
    requires BucketRoom(LocalLimit(u), s.replicas[g].bucket, clock) >= n
    ensures Passed(u, s', m + n, w) && LocalReady(u, s', g, at, clock) && OnlyAt(s, s', g)
    decreases n
  {
    hide BucketRoom, Passed, LocalReady;
    if n == 0 {
      s' := s;
      LocalReadyShape(u, s, g, at, clock);
    } else {
      LocalReadyShape(u, s, g, at, clock);
      var s1 := FallbackPassesOne(u, s, m, w, g, at, clock);
      LocalReadyShape(u, s1, g, at, clock);
      s' := FallbackPasses(u, s1, m + 1, w, g, at, clock, n - 1);
    }
  }

  lemma LocalReadyShape(u: Setup, s: State, g: nat, at: int, clock: int)
    requires WellSet(u) && LocalReady(u, s, g, at, clock)
    ensures Shaped(u, s) && g < u.gateways
  {
  }

  // ---- A whole quota each ----

  predicate Ready(u: Setup) {
    && Usable(u.limit) && R.KnownAlgorithm(u.limit.algorithm) && u.onError.Degrade? && u.gateways > 0
    && (u.limit.algorithm == ALGO_TOKEN_BUCKET ==> u.limit.burst > 0)
    && (u.limit.algorithm == ALGO_FIXED_WINDOW ==> u.limit.window >= 2)
  }

  /** What one key or bucket lets through at once: Rate, or Burst. */
  function Burst(l: Limit): nat
    requires Usable(l) && (l.algorithm == ALGO_TOKEN_BUCKET ==> l.burst > 0)
  {
    if l.algorithm == ALGO_TOKEN_BUCKET then l.burst else l.rate
  }

  /** fixed_window doubles up across a boundary, so its run spans two neighbouring instants. */
  function Whole(l: Limit): nat
    requires Usable(l) && (l.algorithm == ALGO_TOKEN_BUCKET ==> l.burst > 0)
  {
    if l.algorithm == ALGO_FIXED_WINDOW then Burst(l) + Burst(l) else Burst(l)
  }

  function SpanOf(l: Limit): Span {
    if l.algorithm == ALGO_FIXED_WINDOW then Span(l.window - 1, l.window) else Span(0, 0)
  }

  /** A whole burst of each is all the quota of that span. */
  lemma WholeIsQuota(u: Setup)
    requires Ready(u)
    ensures var w := SpanOf(u.limit); Whole(u.limit) as real == Quotas.Quota(u.limit, w.hi - w.lo)
  {
    if u.limit.algorithm == ALGO_TOKEN_BUCKET {
      TokenBucket.EarnedNothing(TokenBucket.PerTick(u.limit));
    } else if u.limit.algorithm == ALGO_FIXED_WINDOW {
      FixedWindow.DivModUnique(1, u.limit.window, 0, 1);
      FixedBounds.OneMoreCell(u.limit.rate, 1);
      FixedBounds.OneMoreCell(u.limit.rate, 0);
    } else {
      FixedWindow.DivModUnique(0, u.limit.window, 0, 0);
    }
  }

  ghost predicate FreshAt(u: Setup, s: State, g: nat)
    requires WellSet(u)
  {
    g < |s.locals| && g < |s.replicas| && s.locals[g] == [] && s.replicas[g].bucket == FreshBucket(u)
  }

  lemma RedisSpends(u: Setup) returns (s: State)
    requires Ready(u) && WellSet(u)
    ensures Passed(u, s, Whole(u.limit), SpanOf(u.limit)) && InOrder(s.log, Whole(u.limit), SpanOf(u.limit).hi)
    ensures forall g: nat :: g < u.gateways ==> FreshAt(u, s, g)
  {
    hide R.Script, Reachable;
    var l, w := u.limit, SpanOf(u.limit);
    StartIsReachable(u);
    assert RedisReady(u, Start(u), 0, w, w.lo);
    MissingHasRoom(l, w.lo);
    s := RedisPasses(u, Start(u), 0, w, w.lo, Burst(l));
    if l.algorithm == ALGO_FIXED_WINDOW {
      FixedWindow.DivModUnique(w.lo, l.window, 0, l.window - 1);
      FixedWindow.DivModUnique(w.hi, l.window, 1, 0);
      LaterInOrder(s.log, Burst(l), w.lo, w.hi);
      s := RedisPasses(u, s, Burst(l), w, w.hi, Burst(l));
    }
  }

  lemma StartIsReachable(u: Setup)
    requires WellSet(u)
    ensures Reachable(u, Start(u)) && Shaped(u, Start(u))
  {
    assert StartShaped(u);
    assert After(u, Start(u), []) == Start(u);
  }

  lemma MissingHasRoom(l: Limit, now: int)
    requires Usable(l) && R.KnownAlgorithm(l.algorithm) && (l.algorithm == ALGO_TOKEN_BUCKET ==> l.burst > 0)
    ensures Room(l, R.Missing, now) >= Burst(l) && NoLaterWindow(l, R.Missing, now)
  {
  }

  lemma LaterInOrder(log: seq<Entry>, m: nat, at: int, later: int)
    requires InOrder(log, m, at) && at <= later
    ensures InOrder(log, m, later)
  {
    forall i | 0 <= i < |log| ensures MadeBefore(log[i], m, later) {
      assert MadeBefore(log[i], m, at);
    }
  }

  lemma GatewaySpends(u: Setup, s: State, m: nat, g: nat) returns (s': State)
    requires Ready(u) && WellSet(u) && Passed(u, s, m, SpanOf(u.limit)) && g < u.gateways && FreshAt(u, s, g)
    ensures Passed(u, s', m + Whole(u.limit), SpanOf(u.limit)) && OnlyAt(s, s', g)
    ensures FleetBounds.FairLocals(s'.locals[g])
  {
    hide Reachable, Passed, LocalReady, BucketRoom, OnlyAt;
    var l, w := LocalLimit(u), SpanOf(u.limit);
    var clock := if l.algorithm == ALGO_FIXED_WINDOW then l.window - 1 else 1;
    PassedShape(u, s, m, w);
    FreshIsReady(u, s, g, w.lo, clock);
    s' := FallbackPasses(u, s, m, w, g, w.lo, clock, Burst(u.limit));
    if l.algorithm == ALGO_FIXED_WINDOW {
      var s1 := s';
      PassedShape(u, s1, m + Burst(u.limit), w);
      LaterReady(u, s1, g);
      s' := FallbackPasses(u, s1, m + Burst(u.limit), w, g, w.hi, l.window, Burst(u.limit));
      OnlyAtTwice(s, s1, s', g);
      PassedShape(u, s', m + Whole(u.limit), w);
      ReadyIsFair(u, s', g, w.hi, l.window);
    } else {
      PassedShape(u, s', m + Whole(u.limit), w);
      ReadyIsFair(u, s', g, w.lo, clock);
    }
  }

  lemma OnlyAtTwice(s: State, s1: State, s2: State, g: nat)
    requires OnlyAt(s, s1, g) && OnlyAt(s1, s2, g)
    ensures OnlyAt(s, s2, g)
  {
  }

  lemma ReadyIsFair(u: Setup, s: State, g: nat, at: int, clock: int)
    requires WellSet(u) && LocalReady(u, s, g, at, clock)
    ensures Shaped(u, s) && g < u.gateways && FleetBounds.FairLocals(s.locals[g])
  {
  }

  lemma FreshIsReady(u: Setup, s: State, g: nat, at: int, clock: int)
    requires WellSet(u) && Shaped(u, s) && g < u.gateways && FreshAt(u, s, g) && clock > 0
    ensures LocalReady(u, s, g, at, clock)
    ensures BucketRoom(LocalLimit(u), s.replicas[g].bucket, clock) >= Burst(u.limit)
  {
    FreshHasRoom(LocalLimit(u), clock);
  }

  lemma PassedShape(u: Setup, s: State, m: nat, w: Span)
    requires WellSet(u) && Passed(u, s, m, w)
    ensures Shaped(u, s) && Reachable(u, s)
  {
  }

  lemma FreshHasRoom(l: Limit, clock: int)
    requires Usable(l) && R.KnownAlgorithm(l.algorithm) && clock > 0
    requires l.algorithm == ALGO_TOKEN_BUCKET ==> l.burst > 0
    ensures var b := B.Fresh(l.algorithm).value; Fit(l, b, clock) && BucketRoom(l, b, clock) >= Burst(l)
  {
    B.FreshIsValid(l);
  }

  /** Across the boundary a fixed_window bucket has its whole rate again. */
  lemma LaterReady(u: Setup, s: State, g: nat)
    requires Ready(u) && WellSet(u) && u.limit.algorithm == ALGO_FIXED_WINDOW
    requires LocalReady(u, s, g, u.limit.window - 1, 1000 * u.limit.window - 1)
    requires Reachable(u, s)
    ensures LocalReady(u, s, g, u.limit.window, 1000 * u.limit.window)
    ensures BucketRoom(LocalLimit(u), s.replicas[g].bucket, 1000 * u.limit.window) >= u.limit.rate
  {
    var w := 1000 * u.limit.window;
    FixedWindow.DivModUnique(w, w, 1, 0);
    forall i | 0 <= i < |s.locals[g]| ensures UpTo(s.locals[g][i], u.limit.window, w) {
      assert UpTo(s.locals[g][i], u.limit.window - 1, w - 1);
    }
  }

  // ---- The whole fleet ----

  function Times(n: nat, m: nat): nat {
    if n == 0 then 0 else Times(n - 1, m) + m
  }

  lemma {:induction false} TimesIsMultiple(n: nat, m: nat)
    ensures Times(n, m) as real == Multiple(n, m as real)
    decreases n
  {
    if n > 0 {
      TimesIsMultiple(n - 1, m);
      MultipleAdds(n - 1, m as real);
    }
  }

  lemma {:induction false} GatewaysSpend(u: Setup, n: nat) returns (s: State)
    requires Ready(u) && WellSet(u) && n <= u.gateways
    ensures Passed(u, s, Times(n + 1, Whole(u.limit)), SpanOf(u.limit))
    ensures InOrder(s.log, Whole(u.limit), SpanOf(u.limit).hi)
    ensures forall g: nat :: g < n ==> g < |s.locals| && FleetBounds.FairLocals(s.locals[g])
    ensures forall g: nat :: n <= g < u.gateways ==> FreshAt(u, s, g)
    decreases n
  {
    hide Reachable, Passed, InOrder, FleetBounds.FairLocals;
    if n == 0 {
      s := RedisSpends(u);
    } else {
      var s1 := GatewaysSpend(u, n - 1);
      s := GatewaySpends(u, s1, Times(n, Whole(u.limit)), n - 1);
      PassedShape(u, s1, Times(n, Whole(u.limit)), SpanOf(u.limit));
      forall g: nat | n <= g < u.gateways ensures FreshAt(u, s, g) {
        assert FreshAt(u, s1, g);
      }
    }
  }

  lemma AllPass(u: Setup, s: State, m: nat, w: Span)
    requires WellSet(u) && Passed(u, s, m, w)
    ensures Ids(m) <= Through(s, u.gateways, w.lo, w.hi)
  {
    hide Reachable;
    forall id | id in Ids(m) ensures id in Through(s, u.gateways, w.lo, w.hi) {
      assert PassedIn(u, s.calls[id], w);
      InThrough(s, u.gateways, id, w.lo, w.hi);
    }
  }

  lemma InOrderIsFair(l: Limit, log: seq<Entry>, m: nat, at: int)
    requires Usable(l) && R.KnownAlgorithm(l.algorithm) && InOrder(log, m, at)
    ensures Quotas.FairEvents(l, R.Missing, FleetBounds.Events(log))
    ensures Quotas.Extra(l, R.Missing, FleetBounds.Events(log)) == 0
  {
    var es := FleetBounds.Events(log);
    forall i | 0 <= i < |es| ensures es[i].Call? && es[i].at == es[i].now {
      assert MadeBefore(log[i], m, at);
    }
    if l.algorithm == ALGO_FIXED_WINDOW {
      RedisFixedBounds.SteadyClockReopensNothing(l, R.Missing, None, es);
    }
    Quotas.ExtraNotNegative(l, R.Missing, es);
  }

  /**
   * For every limit and every N some reachable, fair state has let through, in the span of one
   * instant (two neighbouring ones for fixed_window), requests amounting to N + 1 whole quotas.
   */
  lemma BoundIsAttained(u: Setup) returns (s: State)
    requires Ready(u)
    ensures WellSet(u) && Reachable(u, s) && Fair(u, s) && Extra(u, s) == 0.0
    ensures
      var w := SpanOf(u.limit);
      |Through(s, u.gateways, w.lo, w.hi)| as real
      >= Multiple(u.gateways + 1, Quotas.Quota(u.limit, w.hi - w.lo))
  {
    hide Through, Multiple, Quotas.Quota, Reachable, InOrder, FleetBounds.FairLocals;
    var n, w := u.gateways, SpanOf(u.limit);
    s := GatewaysSpend(u, n);
    var m := Times(n + 1, Whole(u.limit));
    PassedShape(u, s, m, w);
    InOrderIsFair(u.limit, s.log, Whole(u.limit), w.hi);
    AllPass(u, s, m, w);
    Sets.SubsetSize(Ids(m), Through(s, n, w.lo, w.hi));
    TimesIsMultiple(n + 1, Whole(u.limit));
    WholeIsQuota(u);
  }
}
