/** What an accepted configuration guarantees to the limiter and to the route table. */
module ConfigGuarantees {
  import opened Limits
  import opened Config
  import Breaker
  import Buckets
  import Memory = MemoryLimiter
  import RedisLimiter
  import R = RedisScripts

  /** What every bucket and script needs: a positive rate and window, and a burst where one is used. */
  predicate Good(l: Limit) {
    && Usable(l) && R.KnownAlgorithm(l.algorithm)
    && (if l.algorithm == ALGO_TOKEN_BUCKET then l.burst > 0 else l.burst == 0)
  }

  lemma LimitPassesIff(l: Limit)
    ensures CheckLimit(l).None? <==> Good(l)
  {
  }

  /** Defaults filled in before or after an override is merged make no difference. */
  lemma DefaultsCommuteWithMerging(r: Route, key: string)
    ensures LimitFor(DefaultedRoute(r), key) == LimitFor(r, key)
    ensures WithDefaults(LimitFor(r, key)) == LimitFor(r, key)
  {
  }

  /** The field of an override where it is set, of the route's limit where it is zero. */
  predicate Merged(effective: int, override: int, base: int) {
    (override != 0 ==> effective == override) && (override == 0 ==> effective == base)
  }

  /** A window as configured, but for a token_bucket's that is not set. */
  predicate WindowOf(effective: Limit, window: int) {
    if effective.algorithm == "token_bucket" && window == 0 then effective.window == 1_000_000_000
    else effective.window == window
  }

  /**
   * The effective limit of every key, field by field: the route's without an override; the
   * override's fields where set and the route's elsewhere with one that keeps the algorithm; the
   * override's own with one that switches it. A token_bucket window not set is one second.
   */
  lemma EffectiveLimit(r: Route, key: string)
    ensures
      var e, base := LimitFor(r, key), r.limit;
      if key !in r.keyOverrides then
        e.algorithm == base.algorithm && e.rate == base.rate && e.burst == base.burst && WindowOf(e, base.window)
      else
        var o := r.keyOverrides[key];
        if o.algorithm == "" || o.algorithm == base.algorithm then
          && e.algorithm == base.algorithm && Merged(e.rate, o.rate, base.rate) && Merged(e.burst, o.burst, base.burst)
          && exists w :: Merged(w, o.window, base.window) && WindowOf(e, w)
        else
          e.algorithm == o.algorithm && e.rate == o.rate && e.burst == o.burst && WindowOf(e, o.window)
  {
    if key in r.keyOverrides {
      var o := r.keyOverrides[key];
      assert Merged(if o.window != 0 then o.window else r.limit.window, o.window, r.limit.window);
    }
  }

  /** So an override of zeros changes nothing, and a complete one replaces the whole limit. */
  lemma OverridesMerge(r: Route, other: Limit, key: string)
    requires key in r.keyOverrides
    ensures
      var o, effective := r.keyOverrides[key], LimitFor(r, key);
      var keeps := o.algorithm == "" || o.algorithm == r.limit.algorithm;
      && (keeps && o.rate == 0 && o.burst == 0 && o.window == 0 ==> effective == WithDefaults(r.limit))
      && (keeps && o.rate != 0 && o.burst != 0 && o.window != 0 ==>
            effective == o.(algorithm := r.limit.algorithm))
      && (!keeps && other.algorithm != o.algorithm ==> effective == LimitFor(r.(limit := other), key))
  {
  }

  // ---- Acceptance, and every fault ----

  /** Which of a limit's faults is reported: the first that applies. */
  lemma LimitFaults(l: Limit)
    ensures
      var e, known := CheckLimit(l), R.KnownAlgorithm(l.algorithm);
      var token := l.algorithm == ALGO_TOKEN_BUCKET;
      && (e == Some(RateNotPositive) <==> l.rate <= 0)
      && (e == Some(UnknownAlgorithm) <==> l.rate > 0 && !known)
      && (e == Some(BurstNotPositive) <==> l.rate > 0 && token && l.burst <= 0)
      && (e == Some(WindowNotPositive) <==> l.rate > 0 && known && (token ==> l.burst > 0) && l.window <= 0)
      && (e == Some(BurstNotAllowed) <==> l.rate > 0 && known && !token && l.window > 0 && l.burst != 0)
  {
  }

  predicate StartsWithSlash(r: Route) {
    r.prefix != "" && r.prefix[0] == '/'
  }

  predicate AbsoluteUpstream(r: Route) {
    r.upstream.Some? && r.upstream.value.scheme in ["http", "https"] && r.upstream.value.host != ""
  }

  /** Which of a route's own faults is reported, overrides apart. */
  lemma RouteFaults(r: Route)
    ensures
      var e, prefixed := CheckRoute(r), StartsWithSlash(r);
      && (e == Some(PrefixWithoutSlash) <==> !prefixed)
      && (e == Some(UnparsableUpstream) <==> prefixed && r.upstream.None?)
      && (e == Some(NotAbsoluteUpstream) <==> prefixed && r.upstream.Some? && !AbsoluteUpstream(r))
      && (e.Some? && e.value.BadLimit? <==> prefixed && AbsoluteUpstream(r) && !Good(r.limit))
      && (e.Some? && e.value.BadLimit? ==> CheckLimit(r.limit) == Some(e.value.error))
      && (e.None? <==> prefixed && AbsoluteUpstream(r) && Good(r.limit))
  {
    LimitPassesIff(r.limit);
  }

  /** An override's fault is an empty key or the fault of the limit its key would get. */
  lemma OverrideFaults(r: Route, key: string)
    ensures CheckOverride(r, key) == Some(EmptyKey) <==> key == ""
    ensures key != "" ==> (CheckOverride(r, key).None? <==> Good(LimitFor(r, key)))
    ensures key != "" && CheckOverride(r, key).Some? ==>
      CheckOverride(r, key).value.BadOverride? && CheckOverride(r, key).value.key == key
      && CheckLimit(LimitFor(r, key)) == Some(CheckOverride(r, key).value.error)
  {
    LimitPassesIff(LimitFor(r, key));
  }

  predicate KnownBackend(s: Settings) {
    s.backend == "memory" || s.backend == "redis"
  }

  /** Which of the settings' faults is reported, timeouts apart. */
  lemma SettingsFaults(s: Settings)
    ensures
      var e := CheckSettings(s);
      var noAddr := s.backend == "redis" && s.redisAddr == "";
      && (e == Some(MissingRedisAddr) <==> noAddr)
      && (e == Some(UnknownBackend) <==> !KnownBackend(s))
      && (e == Some(UnknownOnError) <==>
            KnownBackend(s) && !noAddr && s.onError !in ["fail_open", "fail_closed", "degrade"])
      && (e.None? <==> KnownBackend(s) && !noAddr && s.onError in ["fail_open", "fail_closed", "degrade"])
  {
  }

  predicate TimeoutsInOrder(t: Timeouts) {
    && t.readHeader >= 0 && t.read >= 0 && t.write >= 0 && t.idle >= 0 && t.shutdown >= 0
    && t.dial >= 0 && t.responseHeader >= 0
  }

  lemma TimeoutsPassIff(t: Timeouts)
    ensures NoneNegative(NamedTimeouts(t)) <==> TimeoutsInOrder(t)
  {
    var ts := NamedTimeouts(t);
    assert ts[0].d == t.readHeader && ts[1].d == t.read && ts[2].d == t.write && ts[3].d == t.idle;
    assert ts[4].d == t.shutdown && ts[5].d == t.dial && ts[6].d == t.responseHeader;
  }

  ghost predicate RouteInOrder(r: Route) {
    && StartsWithSlash(r) && AbsoluteUpstream(r)
    && "" !in r.keyOverrides && Good(r.limit) && forall key :: Good(LimitFor(r, key))
  }

  /** What is accepted, field by field. */
  lemma AcceptedIff(s: Settings, routes: seq<Route>)
    ensures Accepted(s, routes) <==>
      && TimeoutsInOrder(s.timeouts)
      && (s.backend == "memory" || (s.backend == "redis" && s.redisAddr != ""))
      && s.onError in ["fail_open", "fail_closed", "degrade"]
      && routes != [] && (forall i :: 0 <= i < |routes| ==> RouteInOrder(routes[i]))
      && forall i, j :: 0 <= i < j < |routes| ==> TrimRight(routes[i].prefix) != TrimRight(routes[j].prefix)
  {
    TimeoutsPassIff(s.timeouts);
    SettingsFaults(s);
    forall i | 0 <= i < |routes| ensures RoutePasses(routes[i]) <==> RouteInOrder(routes[i]) {
      RouteInOrderIff(routes[i]);
    }
  }

  lemma RouteInOrderIff(r: Route)
    ensures RoutePasses(r) <==> RouteInOrder(r)
  {
    RouteFaults(r);
    if CheckRoute(r).None? {
      RoutePassesIff(r);
    }
  }

  /** The defaults: of a setting that is not given, and of no other. */
  lemma DefaultsAre(s: Settings)
    ensures
      var d, t, u := Defaulted(s), s.timeouts, Defaulted(s).timeouts;
      && d.listen == (if s.listen != "" then s.listen else ":8080")
      && d.backend == (if s.backend != "" then s.backend else "memory")
      && d.onError == (if s.onError != "" then s.onError else "degrade")
      && d.redisAddr == s.redisAddr
      && Merged(u.readHeader, t.readHeader, 5_000_000_000) && Merged(u.read, t.read, 30_000_000_000)
      && Merged(u.write, t.write, 60_000_000_000) && Merged(u.idle, t.idle, 120_000_000_000)
      && Merged(u.shutdown, t.shutdown, 10_000_000_000) && Merged(u.dial, t.dial, 5_000_000_000)
      && Merged(u.responseHeader, t.responseHeader, 10_000_000_000)
  {
  }

  /** The empty configuration with one good route is accepted once defaulted. */
  lemma DefaultsAreAccepted(r: Route)
    requires RouteInOrder(DefaultedRoute(r))
    ensures Accepted(Defaulted(Settings("", Timeouts(0, 0, 0, 0, 0, 0, 0), "", "", "")), [DefaultedRoute(r)])
  {
    AcceptedIff(Defaulted(Settings("", Timeouts(0, 0, 0, 0, 0, 0, 0), "", "", "")), [DefaultedRoute(r)]);
  }

  /** A route that is otherwise in order passes exactly when every key, overridden or not, gets a good limit. */
  lemma RoutePassesIff(r: Route)
    requires CheckRoute(r).None?
    ensures RoutePasses(r) <==> "" !in r.keyOverrides && forall key :: Good(LimitFor(r, key))
  {
    LimitPassesIff(r.limit);
    forall key ensures CheckLimit(LimitFor(r, key)).None? <==> Good(LimitFor(r, key)) {
      LimitPassesIff(LimitFor(r, key));
    }
    if RoutePasses(r) {
      forall key ensures Good(LimitFor(r, key)) {
        assert key in r.keyOverrides ==> CheckOverride(r, key).None?;
      }
    }
  }

  /** After defaults and validation every key of every route has a good limit. */
  lemma AcceptedLimitsAreGood(s: Settings, routes: seq<Route>, i: nat, key: string)
    requires Accepted(s, routes) && i < |routes|
    ensures Good(LimitFor(routes[i], key))
  {
    assert RoutePasses(routes[i]);
    RoutePassesIff(routes[i]);
  }

  /** The first request of a key is always admitted, by a new bucket and by a script alike. */
  lemma FirstRequestIsAdmitted(l: Limit, now: int, micros: int, nonce: nat)
    requires Good(l)
    ensures Buckets.Fresh(l.algorithm).Some?
    ensures Buckets.Step(l, Buckets.Fresh(l.algorithm).value, now).1.allowed
    ensures l.window >= 1000 ==>
      R.Script(l.(window := RedisLimiter.WindowMicros(l)), R.Missing, micros, nonce).1.allowed
  {
    if l.algorithm == ALGO_SLIDING_WINDOW {
      assert |R.EntriesOf(R.Missing)| == 0;
    }
  }

  /** Any refusal of the in-memory limiter, by its exact condition; none changes anything. */
  lemma MemoryRefusals(m: Memory.Store, maxKeys: nat, r: Memory.Request)
    ensures
      var (m', a) := Memory.Answered(m, maxKeys, r);
      var full := Memory.KeyOf(r) !in m && |m| >= maxKeys;
      && (a == Err(Memory.AtCapacity) <==> full)
      && (a == Err(Memory.UnknownAlgorithm) <==>
            Memory.KeyOf(r) !in m && !full && !R.KnownAlgorithm(r.limit.algorithm))
      && (a.Err? ==> m' == m)
  {
  }

  /** With a good limit the in-memory limiter refuses a request only for want of room. */
  lemma MemoryRefusesOnlyAtCapacity(m: Memory.Store, maxKeys: nat, r: Memory.Request)
    requires Good(r.limit)
    ensures
      var (m', a) := Memory.Answered(m, maxKeys, r);
      && (a.Err? <==> Memory.KeyOf(r) !in m && |m| >= maxKeys)
      && (a.Err? ==> a.error.AtCapacity? && m' == m)
  {
  }

  /** An accepted window the scripts cannot take: positive, but less than a microsecond. */
  lemma RedisRefusesTheLimitIff(
      c: Breaker.Core, store: Option<Memory.Store>, maxKeys: nat, r: Memory.Request,
      result: RedisLimiter.CallResult, start: int, end: int)
    requires Good(r.limit)
    ensures
      var a := RedisLimiter.Answered(c, store, maxKeys, r, result, start, end).2;
      && a != Err(RedisLimiter.NoScript)
      && (a == Err(RedisLimiter.WindowTooShort) <==> r.limit.window < 1000)
  {
  }
}
