/** Configuration: defaults, validation, and the effective limit of a client key. */
module Config {
  import opened Limits
  import opened Paths

  const BACKEND_MEMORY: string := "memory"
  const BACKEND_REDIS: string := "redis"

  const ON_ERROR_FAIL_OPEN: string := "fail_open"
  const ON_ERROR_FAIL_CLOSED: string := "fail_closed"
  const ON_ERROR_DEGRADE: string := "degrade"

  datatype Timeouts = Timeouts(
    readHeader: int, read: int, write: int, idle: int, shutdown: int,
    dial: int, responseHeader: int)

  /** A parsed upstream URL, or none when it does not parse. */
  datatype Upstream = Upstream(scheme: string, host: string)

  datatype Route = Route(
    prefix: string, upstream: Option<Upstream>, limit: Limit, keyOverrides: map<string, Limit>)

  datatype LimitError =
    | RateNotPositive
    | BurstNotPositive
    | WindowNotPositive
    | BurstNotAllowed
    | UnknownAlgorithm

  datatype RouteError =
    | PrefixWithoutSlash
    | UnparsableUpstream
    | NotAbsoluteUpstream
    | BadLimit(error: LimitError)
    | EmptyKey
    | BadOverride(key: string, error: LimitError)

  datatype Error =
    | NegativeTimeout(name: string)
    | MissingRedisAddr
    | UnknownBackend
    | UnknownOnError
    | NoRoutes
    | InRoute(index: nat, error: RouteError)
    | DuplicatePrefix(index: nat)

  // ---- Limits ----

  function WithDefaults(l: Limit): Limit {
    if l.algorithm == ALGO_TOKEN_BUCKET && l.window == 0 then l.(window := SECOND) else l
  }

  function Inherit(override: int, base: int): int {
    if override != 0 then override else base
  }

  /** The override merged over the route's limit, unless it switches to another algorithm. */
  function LimitFor(r: Route, key: string): Limit {
    if key !in r.keyOverrides then WithDefaults(r.limit) else
      var o := r.keyOverrides[key];
      if o.algorithm != "" && o.algorithm != r.limit.algorithm then WithDefaults(o)
      else WithDefaults(Limit(r.limit.algorithm, Inherit(o.rate, r.limit.rate),
                              Inherit(o.burst, r.limit.burst), Inherit(o.window, r.limit.window)))
  }

  function CheckLimit(l: Limit): Option<LimitError> {
    if l.rate <= 0 then Some(RateNotPositive)
    else if l.algorithm == ALGO_TOKEN_BUCKET then
      if l.burst <= 0 then Some(BurstNotPositive)
      else if l.window <= 0 then Some(WindowNotPositive)
      else None
    else if l.algorithm == ALGO_FIXED_WINDOW || l.algorithm == ALGO_SLIDING_WINDOW then
      if l.window <= 0 then Some(WindowNotPositive)
      else if l.burst != 0 then Some(BurstNotAllowed)
      else None
    else Some(UnknownAlgorithm)
  }

  // ---- Routes ----

  /** The prefix without its trailing slashes. */
  function TrimRight(s: string): (t: string)
    ensures t <= s && (t != [] ==> t[|t| - 1] != '/')
    ensures forall i :: |t| <= i < |s| ==> s[i] == '/'
  {
    if s != [] && s[|s| - 1] == '/' then TrimRight(s[..|s| - 1]) else s
  }

  predicate Absolute(u: Upstream) {
    (u.scheme == "http" || u.scheme == "https") && u.host != ""
  }

  function CheckOverride(r: Route, key: string): Option<RouteError> {
    if key == "" then Some(EmptyKey) else
      match CheckLimit(LimitFor(r, key))
      case None => None
      case Some(e) => Some(BadOverride(key, e))
  }

  ghost predicate OverridesPass(r: Route, keys: set<string>) {
    forall k :: k in keys ==> CheckOverride(r, k).None?
  }

  /** Everything but the overrides, in the order it is looked at. */
  function CheckRoute(r: Route): Option<RouteError> {
    if !(|r.prefix| > 0 && r.prefix[0] == '/') then Some(PrefixWithoutSlash)
    else if r.upstream.None? then Some(UnparsableUpstream)
    else if !Absolute(r.upstream.value) then Some(NotAbsoluteUpstream)
    else
      match CheckLimit(r.limit)
      case Some(e) => Some(BadLimit(e))
      case None => None
  }

  ghost predicate RoutePasses(r: Route) {
    CheckRoute(r).None? && OverridesPass(r, r.keyOverrides.Keys)
  }

  /** Some override's complaint: which one is reported is up to the map's iteration order. */
  ghost predicate Explains(r: Route, e: RouteError) {
    if CheckRoute(r).Some? then CheckRoute(r) == Some(e)
    else exists k :: k in r.keyOverrides && CheckOverride(r, k) == Some(e)
  }

  method ValidateOverrides(r: Route) returns (error: Option<RouteError>)
    ensures error.None? <==> OverridesPass(r, r.keyOverrides.Keys)
    ensures error.Some? ==> exists k :: k in r.keyOverrides && CheckOverride(r, k) == error
  {
    var left := r.keyOverrides.Keys;
    while left != {}
      invariant left <= r.keyOverrides.Keys
      invariant OverridesPass(r, r.keyOverrides.Keys - left)
      decreases |left|
    {
      var k :| k in left;
      error := CheckOverride(r, k);
      if error.Some? {
        return;
      }
      left := left - {k};
    }
    error := None;
  }

  method ValidateRoute(r: Route) returns (error: Option<RouteError>)
    ensures error.None? <==> RoutePasses(r)
    ensures error.Some? ==> Explains(r, error.value)
  {
    error := CheckRoute(r);
    if error.None? {
      error := ValidateOverrides(r);
    }
  }

  // ---- The whole configuration ----

  datatype Settings = Settings(
    listen: string, timeouts: Timeouts, backend: string, redisAddr: string, onError: string)

  function DefaultDuration(d: int, def: int): int {
    if d == 0 then def else d
  }

  function DefaultedTimeouts(t: Timeouts): Timeouts {
    Timeouts(DefaultDuration(t.readHeader, 5 * SECOND), DefaultDuration(t.read, 30 * SECOND),
             DefaultDuration(t.write, 60 * SECOND), DefaultDuration(t.idle, 120 * SECOND),
             DefaultDuration(t.shutdown, 10 * SECOND), DefaultDuration(t.dial, 5 * SECOND),
             DefaultDuration(t.responseHeader, 10 * SECOND))
  }

  function Defaulted(s: Settings): Settings {
    Settings(if s.listen == "" then ":8080" else s.listen,
             DefaultedTimeouts(s.timeouts),
             if s.backend == "" then BACKEND_MEMORY else s.backend,
             s.redisAddr,
             if s.onError == "" then ON_ERROR_DEGRADE else s.onError)
  }

  function DefaultedRoute(r: Route): Route {
    r.(limit := WithDefaults(r.limit))
  }

  function DefaultedRoutes(routes: seq<Route>): (rs: seq<Route>)
    ensures |rs| == |routes| && forall i :: 0 <= i < |rs| ==> rs[i] == DefaultedRoute(routes[i])
  {
    seq(|routes|, i requires 0 <= i < |routes| => DefaultedRoute(routes[i]))
  }

  /** A timeout and the name it is configured by. */
  datatype Named = Named(name: string, d: int)

  function NamedTimeouts(t: Timeouts): seq<Named> {
    [Named("server.read_header_timeout", t.readHeader), Named("server.read_timeout", t.read),
     Named("server.write_timeout", t.write), Named("server.idle_timeout", t.idle),
     Named("server.shutdown_timeout", t.shutdown), Named("upstream.dial_timeout", t.dial),
     Named("upstream.response_header_timeout", t.responseHeader)]
  }

  ghost predicate NoneNegative(ts: seq<Named>) {
    forall i :: 0 <= i < |ts| ==> ts[i].d >= 0
  }

  /** The error names the first negative timeout. */
  ghost predicate NamesFirstNegative(ts: seq<Named>, e: Error) {
    exists i :: 0 <= i < |ts| && ts[i].d < 0 && NoneNegative(ts[..i]) && e == NegativeTimeout(ts[i].name)
  }

  method CheckTimeouts(ts: seq<Named>) returns (error: Option<Error>)
    ensures error.None? <==> NoneNegative(ts)
    ensures error.Some? ==> NamesFirstNegative(ts, error.value)
  {
    for i := 0 to |ts|
      invariant NoneNegative(ts[..i])
    {
      if ts[i].d < 0 {
        return Some(NegativeTimeout(ts[i].name));
      }
      assert ts[..i + 1] == ts[..i] + [ts[i]];
    }
    assert ts[..|ts|] == ts;
    error := None;
  }

  function CheckSettings(s: Settings): Option<Error> {
    if s.backend == BACKEND_REDIS && s.redisAddr == "" then Some(MissingRedisAddr)
    else if s.backend != BACKEND_MEMORY && s.backend != BACKEND_REDIS then Some(UnknownBackend)
    else if s.onError != ON_ERROR_FAIL_OPEN && s.onError != ON_ERROR_FAIL_CLOSED
            && s.onError != ON_ERROR_DEGRADE then Some(UnknownOnError)
    else None
  }

  /** No two routes have the same prefix up to trailing slashes. */
  ghost predicate UniquePrefixes(routes: seq<Route>) {
    forall i, j :: 0 <= i < j < |routes| ==> TrimRight(routes[i].prefix) != TrimRight(routes[j].prefix)
  }

  ghost predicate RoutesPass(routes: seq<Route>) {
    (forall i :: 0 <= i < |routes| ==> RoutePasses(routes[i])) && UniquePrefixes(routes)
  }

  ghost predicate Accepted(s: Settings, routes: seq<Route>) {
    && NoneNegative(NamedTimeouts(s.timeouts)) && CheckSettings(s).None?
    && routes != [] && RoutesPass(routes)
  }

  /** The first thing wrong with the configuration, read from the top. */
  ghost predicate Rejected(s: Settings, routes: seq<Route>, e: Error) {
    if !NoneNegative(NamedTimeouts(s.timeouts)) then NamesFirstNegative(NamedTimeouts(s.timeouts), e)
    else if CheckSettings(s).Some? then CheckSettings(s) == Some(e)
    else if routes == [] then e.NoRoutes?
    else
      match e
      case InRoute(i, error) =>
        i < |routes| && RoutesPass(routes[..i]) && !RoutePasses(routes[i]) && Explains(routes[i], error)
      case DuplicatePrefix(i) =>
        && i < |routes| && RoutesPass(routes[..i]) && RoutePasses(routes[i])
        && exists j :: 0 <= j < i && TrimRight(routes[j].prefix) == TrimRight(routes[i].prefix)
      case _ => false
  }

  class Config {
    var settings: Settings
    const routes: array<Route>

    constructor (settings: Settings, routes: array<Route>)
      ensures this.settings == settings && this.routes == routes
    {
      this.settings := settings;
      this.routes := routes;
    }

    method ApplyDefaults()
      modifies this, routes
      ensures settings == Defaulted(old(settings))
      ensures forall i :: 0 <= i < routes.Length ==> routes[i] == DefaultedRoute(old(routes[i]))
    {
      if settings.listen == "" {
        settings := settings.(listen := ":8080");
      }
      settings := settings.(timeouts := DefaultedTimeouts(settings.timeouts));
      if settings.backend == "" {
        settings := settings.(backend := BACKEND_MEMORY);
      }
      if settings.onError == "" {
        settings := settings.(onError := ON_ERROR_DEGRADE);
      }
      for i := 0 to routes.Length
        invariant settings == Defaulted(old(settings))
        invariant forall k :: 0 <= k < i ==> routes[k] == DefaultedRoute(old(routes[k]))
        invariant forall k :: i <= k < routes.Length ==> routes[k] == old(routes[k])
      {
        routes[i] := routes[i].(limit := WithDefaults(routes[i].limit));
      }
    }

    /** What parsing does once the document is decoded. */
    method Prepare() returns (error: Option<Error>)
      modifies this, routes
      ensures settings == Defaulted(old(settings))
      ensures routes[..] == DefaultedRoutes(old(routes[..]))
      ensures error.None? <==> Accepted(settings, routes[..])
      ensures error.Some? ==> Rejected(settings, routes[..], error.value)
    {
      ApplyDefaults();
      error := Validate();
    }

    method Validate() returns (error: Option<Error>)
      ensures error.None? <==> Accepted(settings, routes[..])
      ensures error.Some? ==> Rejected(settings, routes[..], error.value)
    {
      hide RoutePasses, Explains, NoneNegative, NamesFirstNegative, NamedTimeouts;
      error := CheckTimeouts(NamedTimeouts(settings.timeouts));
      if error.Some? {
        return;
      }
      error := CheckSettings(settings);
      if error.Some? {
        return;
      }
      if routes.Length == 0 {
        return Some(NoRoutes);
      }
      var seen: set<string> := {};
      for i := 0 to routes.Length
        invariant RoutesPass(routes[..i])
        invariant seen == set r | r in routes[..i] :: TrimRight(r.prefix)
      {
        assert routes[..][..i] == routes[..i] && routes[..][i] == routes[i];
        var bad := ValidateRoute(routes[i]);
        if bad.Some? {
          return Some(InRoute(i, bad.value));
        }
        var norm := TrimRight(routes[i].prefix);
        if norm in seen {
          var r :| r in routes[..i] && TrimRight(r.prefix) == norm;
          assert exists j :: 0 <= j < i && TrimRight(routes[j].prefix) == norm;
          return Some(DuplicatePrefix(i));
        }
        seen := seen + {norm};
        assert routes[..i + 1] == routes[..i] + [routes[i]];
      }
      assert routes[..routes.Length] == routes[..];
      error := None;
    }
  }
}
