/**
 * Any number of callers around one breaker. Entering and returning are atomic, the call in
 * between is not, and a return does not say under which state the call was admitted.
 */
module BreakerProtocol {
  import opened Breaker
  import Sets

  /** A caller, which has at most one call in flight. */
  datatype Caller = Caller(n: int)

  datatype Event =
    | Enter(id: Caller, now: int)
    | Return(id: Caller, outcome: Outcome, now: int)

  /**
   * The breaker and the calls in flight. `probe` is the call that last entered half-open;
   * `stragglers` is how many calls were still in flight when the circuit last tripped.
   */
  datatype System = System(core: Core, inFlight: set<Caller>, probe: Caller, stragglers: nat)

  const START: System := System(INITIAL, {}, Caller(0), 0)

  function Step(s: System, e: Event): System {
    match e
    case Enter(id, now) =>
      if id in s.inFlight then s else
        var (core, admitted) := Admit(s.core, now);
        if !admitted then s else
          s.(core := core, inFlight := s.inFlight + {id},
             probe := if s.core.state.Open? then id else s.probe)
    case Return(id, outcome, now) =>
      if id !in s.inFlight then s else
        var core := Record(s.core, outcome, now);
        var left := s.inFlight - {id};
        s.(core := core, inFlight := left,
           stragglers := if s.core.state.Closed? && core.state.Open? then |left| else s.stragglers)
  }

  function After(s: System, es: seq<Event>): System
    decreases |es|
  {
    if es == [] then s else After(Step(s, es[0]), es[1..])
  }

  /** The event lets a call through. */
  predicate LetsThrough(s: System, e: Event) {
    e.Enter? && e.id !in s.inFlight && Admit(s.core, e.now).1
  }

  // ---- Half-open ----

  /**
   * Half-open means the call that entered it is still out. Outside closed the calls in flight
   * are at most those left over from the trip, and one more while half-open.
   */
  ghost predicate Invariant(s: System) {
    && (s.core.state.HalfOpen? ==> s.probe in s.inFlight && |s.inFlight| <= s.stragglers + 1)
    && (s.core.state.Open? ==> |s.inFlight| <= s.stragglers)
    && (s.core.state.Closed? ==> 0 <= s.core.failures < FAILURE_THRESHOLD)
  }

  lemma StepKeepsInvariant(s: System, e: Event)
    requires Invariant(s)
    ensures Invariant(Step(s, e))
  {
    if e.Return? && e.id in s.inFlight {
      assert |s.inFlight - {e.id}| == |s.inFlight| - 1;
    }
  }

  lemma {:induction false} InvariantHolds(s: System, es: seq<Event>)
    requires Invariant(s)
    ensures Invariant(After(s, es))
    decreases |es|
  {
    if es != [] {
      StepKeepsInvariant(s, es[0]);
      InvariantHolds(Step(s, es[0]), es[1..]);
    }
  }

  /** In every reachable state half-open implies the probe is unrecorded, so it cannot outlive its calls. */
  lemma NeverWedges(es: seq<Event>)
    ensures
      var s := After(START, es);
      && (s.core.state.HalfOpen? ==> s.probe in s.inFlight)
      && (s.inFlight == {} ==> !s.core.state.HalfOpen?)
      && (s.inFlight == {} ==> forall id, now :: LetsThrough(s, Enter(id, now)) <==>
            (s.core.state.Closed? || now - s.core.openedAt >= COOLDOWN))
  {
    InvariantHolds(START, es);
  }

  /** Outside closed the calls in flight exceed the trip's stragglers by at most the one probe. */
  lemma InFlightOutsideClosed(es: seq<Event>)
    ensures
      var s := After(START, es);
      !s.core.state.Closed? ==> |s.inFlight| <= s.stragglers + 1
  {
    InvariantHolds(START, es);
  }

  function Lets(s: System, e: Event): nat {
    if LetsThrough(s, e) then 1 else 0
  }

  /** Calls let through while the circuit is not closed. */
  function LetThroughTripped(s: System, es: seq<Event>): nat
    decreases |es|
  {
    if es == [] then 0 else
      (if s.core.state.Closed? then 0 else Lets(s, es[0])) + LetThroughTripped(Step(s, es[0]), es[1..])
  }

  /** Times the circuit goes half-open. */
  function Episodes(s: System, es: seq<Event>): nat
    decreases |es|
  {
    if es == [] then 0 else
      var s' := Step(s, es[0]);
      (if !s.core.state.HalfOpen? && s'.core.state.HalfOpen? then 1 else 0) + Episodes(s', es[1..])
  }

  /** Each half-open episode lets exactly one call through, and nothing else does outside closed. */
  lemma {:induction false} OneCallPerEpisode(s: System, es: seq<Event>)
    ensures LetThroughTripped(s, es) == Episodes(s, es)
    decreases |es|
  {
    if es != [] {
      OneCallPerEpisode(Step(s, es[0]), es[1..]);
    }
  }

  /**
   * "At most one call in flight outside closed" holds from a trip exactly when nobody else was in
   * flight at the trip. If some call was, it can fail during a half-open episode, be taken for the
   * probe's verdict, and the next cooldown admits a second probe.
   */
  lemma OneInFlightIffNoStraggler(s: System)
    requires s.core.state.Open? && |s.inFlight| == s.stragglers
    ensures
      s.inFlight == {} <==>
      forall es :: StaysTripped(s, es) ==> |After(s, es).inFlight| <= 1
  {
    if s.inFlight == {} {
      forall es | StaysTripped(s, es) ensures |After(s, es).inFlight| <= 1 {
        TrippedBound(s, es);
      }
    } else {
      var x := Sets.SomeMember(s.inFlight);
      var p := FreshId(s.inFlight);
      var q := FreshId(s.inFlight + {p});
      SecondProbe(s, x, p, q);
    }
  }

  /** The circuit is not closed at any point of the run. */
  predicate StaysTripped(s: System, es: seq<Event>)
    decreases |es|
  {
    !s.core.state.Closed? && (es == [] || StaysTripped(Step(s, es[0]), es[1..]))
  }

  lemma {:induction false} TrippedBound(s: System, es: seq<Event>)
    requires Invariant(s) && StaysTripped(s, es)
    ensures |After(s, es).inFlight| <= s.stragglers + 1
    decreases |es|
  {
    if es != [] {
      StepKeepsInvariant(s, es[0]);
      TrippedBound(Step(s, es[0]), es[1..]);
    }
  }

  /** A caller number above all of `used`. */
  lemma {:induction false} FreshId(used: set<Caller>) returns (id: Caller)
    ensures forall x :: x in used ==> x.n < id.n
    decreases |used|
  {
    if used == {} {
      id := Caller(0);
    } else {
      var x := Sets.SomeMember(used);
      id := FreshId(used - {x});
      if id.n <= x.n {
        id := Caller(x.n + 1);
      }
    }
  }

  lemma SecondProbe(s: System, x: Caller, p: Caller, q: Caller)
    requires s.core.state.Open? && x in s.inFlight && p !in s.inFlight && q !in s.inFlight && p != q
    ensures
      var t := s.core.openedAt + COOLDOWN;
      var es := [Enter(p, t), Return(x, Failure, t), Enter(q, t + COOLDOWN)];
      var s' := After(s, es);
      StaysTripped(s, es) && s'.core.state.HalfOpen? && p in s'.inFlight && s'.probe == q && q in s'.inFlight
      && |s'.inFlight| >= 2
  {
    var t := s.core.openedAt + COOLDOWN;
    var a, b, c := Enter(p, t), Return(x, Failure, t), Enter(q, t + COOLDOWN);
    AfterThree(s, a, b, c);
    var s' := After(s, [a, b, c]);
    assert s'.inFlight == s.inFlight + {p} - {x} + {q};
    assert {p, q} <= s'.inFlight;
    Sets.SubsetSize({p, q}, s'.inFlight);
    assert StaysTripped(Step(Step(Step(s, a), b), c), []);
    assert StaysTripped(Step(Step(s, a), b), [c]) by { assert [c][1..] == []; }
    assert StaysTripped(Step(s, a), [b, c]) by { assert [b, c][1..] == [c]; }
    assert [a, b, c][1..] == [b, c];
  }

  lemma {:induction false} AfterConcat(s: System, a: seq<Event>, b: seq<Event>)
    ensures After(s, a + b) == After(After(s, a), b)
    decreases |a|
  {
    if a == [] {
      assert a + b == b;
    } else {
      assert (a + b)[1..] == a[1..] + b;
      AfterConcat(Step(s, a[0]), a[1..], b);
    }
  }

  lemma AfterThree(s: System, a: Event, b: Event, c: Event)
    ensures After(s, [a, b, c]) == Step(Step(Step(s, a), b), c)
  {
    AfterConcat(s, [a], [b, c]);
    AfterConcat(Step(s, a), [b], [c]);
    assert [a] + [b, c] == [a, b, c] && [b] + [c] == [b, c];
    assert [a][1..] == [] && [b][1..] == [] && [c][1..] == [];
  }

  /** One caller failing `n` times in a row. */
  function FailingCalls(n: nat): seq<Event> {
    if n == 0 then [] else [Enter(Caller(1), 0), Return(Caller(1), Failure, 0)] + FailingCalls(n - 1)
  }

  /** A trip with a call left over is reachable: call 0 outlives five failures of call 1. */
  lemma StragglersAreReachable()
    ensures After(START, [Enter(Caller(0), 0)] + FailingCalls(5)) == System(Core(Open, 5, 0), {Caller(0)}, Caller(0), 1)
  {
    var s := Step(START, Enter(Caller(0), 0));
    assert [Enter(Caller(0), 0)][1..] == [];
    AfterConcat(START, [Enter(Caller(0), 0)], FailingCalls(5));
    FailuresAddUp(s, 5);
  }

  lemma {:induction false} FailuresAddUp(s: System, n: nat)
    requires s.core.state.Closed? && Caller(1) !in s.inFlight && 0 < n && s.core.failures + n == FAILURE_THRESHOLD
    requires s.core.failures >= 0
    ensures After(s, FailingCalls(n)) == System(Core(Open, 5, 0), s.inFlight, s.probe, |s.inFlight|)
    decreases n
  {
    var pair := [Enter(Caller(1), 0), Return(Caller(1), Failure, 0)];
    AfterConcat(s, pair, FailingCalls(n - 1));
    assert [Enter(Caller(1), 0)] + [Return(Caller(1), Failure, 0)] == pair;
    AfterConcat(s, [Enter(Caller(1), 0)], [Return(Caller(1), Failure, 0)]);
    assert pair[0..1][1..] == [] && [Enter(Caller(1), 0)][1..] == [] && [Return(Caller(1), Failure, 0)][1..] == [];
    assert s.inFlight + {Caller(1)} - {Caller(1)} == s.inFlight;
    if n > 1 {
      FailuresAddUp(After(s, pair), n - 1);
    }
  }

  // ---- What an outage costs ----

  ghost predicate ClockNonDecreasing(es: seq<Event>) {
    forall i, j :: 0 <= i < j < |es| ==> es[i].now <= es[j].now
  }

  /** Redis is down and every caller waits for its answer: all calls fail. */
  ghost predicate OnlyFailures(es: seq<Event>) {
    forall i :: 0 <= i < |es| && es[i].Return? ==> es[i].outcome == Failure
  }

  /** When calls are let through. */
  function AdmitTimes(s: System, es: seq<Event>): seq<int>
    decreases |es|
  {
    if es == [] then [] else
      (if LetsThrough(s, es[0]) then [es[0].now] else []) + AdmitTimes(Step(s, es[0]), es[1..])
  }

  ghost predicate CooldownApart(ts: seq<int>) {
    forall i :: 0 <= i < |ts| - 1 ==> ts[i + 1] - ts[i] >= COOLDOWN
  }

  /** With all calls failing, a tripped circuit lets no two calls through within one cooldown. */
  lemma {:induction false} OutageCostFrom(s: System, last: int, es: seq<Event>)
    requires !s.core.state.Closed? && OnlyFailures(es) && ClockNonDecreasing(es)
    requires s.core.state.Open? ==> last <= s.core.openedAt
    requires s.core.state.HalfOpen? && es != [] ==> last <= es[0].now
    ensures CooldownApart([last] + AdmitTimes(s, es))
    decreases |es|
  {
    if es != [] {
      var s' := Step(s, es[0]);
      if LetsThrough(s, es[0]) {
        OutageCostFrom(s', es[0].now, es[1..]);
        var rest := AdmitTimes(s', es[1..]);
        assert AdmitTimes(s, es) == [es[0].now] + rest;
        var ts := [last] + ([es[0].now] + rest);
        assert ts[1..] == [es[0].now] + rest;
        forall i | 0 <= i < |ts| - 1 ensures ts[i + 1] - ts[i] >= COOLDOWN {
          if i > 0 { assert ts[i] == ts[1..][i - 1] && ts[i + 1] == ts[1..][i]; }
        }
      } else {
        OutageCostFrom(s', last, es[1..]);
        assert AdmitTimes(s, es) == AdmitTimes(s', es[1..]);
      }
    }
  }

  /**
   * Once tripped, while every call fails, a span of time costs at most one call per cooldown and
   * one more, under every interleaving and whatever stale calls return.
   */
  lemma OutageCost(s: System, es: seq<Event>)
    requires s.core.state.Open? && OnlyFailures(es) && ClockNonDecreasing(es)
    ensures
      var ts := AdmitTimes(s, es);
      && CooldownApart(ts)
      && (ts != [] ==> |ts| <= (ts[|ts| - 1] - ts[0]) / COOLDOWN + 1 && ts[0] >= s.core.openedAt + COOLDOWN)
  {
    var ts := AdmitTimes(s, es);
    OutageCostFrom(s, s.core.openedAt, es);
    var all := [s.core.openedAt] + ts;
    assert all[1..] == ts;
    forall i | 0 <= i < |ts| - 1 ensures ts[i + 1] - ts[i] >= COOLDOWN {
      assert ts[i] == all[i + 1] && ts[i + 1] == all[i + 2];
    }
    if ts != [] {
      assert all[1] - all[0] >= COOLDOWN;
      SpacedSpan(ts);
    }
  }

  lemma {:induction false} SpacedSpan(ts: seq<int>)
    requires ts != [] && CooldownApart(ts)
    ensures ts[|ts| - 1] - ts[0] >= (|ts| - 1) * COOLDOWN
    decreases |ts|
  {
    if |ts| > 1 {
      var rest := ts[1..];
      forall i | 0 <= i < |rest| - 1 ensures rest[i + 1] - rest[i] >= COOLDOWN {
        assert ts[i + 1 + 1] - ts[i + 1] >= COOLDOWN;
      }
      SpacedSpan(rest);
      assert ts[0 + 1] - ts[0] >= COOLDOWN;
    }
  }

  /** A cancelled call is the exception: a cancelled probe lets the next caller through at once. */
  lemma CancelledProbeReprobesAtOnce(s: System, p: Caller, q: Caller, now: int)
    requires s.core.state.Open? && now - s.core.openedAt >= COOLDOWN && p !in s.inFlight && q !in s.inFlight
    ensures
      var s' := Step(Step(s, Enter(p, now)), Return(p, Neutral, now));
      s' == s.(probe := p) && LetsThrough(s', Enter(q, now))
  {
    assert s.inFlight + {p} - {p} == s.inFlight;
  }

  // ---- What the trip itself costs ----

  /** Calls let through while the circuit is closed. */
  function LetThroughClosed(s: System, es: seq<Event>): nat
    decreases |es|
  {
    if es == [] then 0 else
      (if s.core.state.Closed? then Lets(s, es[0]) else 0) + LetThroughClosed(Step(s, es[0]), es[1..])
  }

  /** Only `callers` goroutines call, each waiting for its own answer. */
  ghost predicate Callers(callers: nat, es: seq<Event>) {
    forall i :: 0 <= i < |es| ==> 0 <= es[i].id.n < callers
  }

  lemma {:induction false} RangeSize(s: set<Caller>, n: nat)
    requires forall x :: x in s ==> 0 <= x.n < n
    ensures |s| <= n
  {
    if n > 0 {
      var last := Caller(n - 1);
      RangeSize(s - {last}, n - 1);
      if last in s { assert |s - {last}| == |s| - 1; } else { assert s - {last} == s; }
    } else if s != {} {
      var x := Sets.SomeMember(s);
      assert false;
    }
  }

  /** While closed, every call let through is in flight or has added to the failure count. */
  lemma {:induction false} TripCostFrom(s: System, callers: nat, es: seq<Event>)
    requires s.core.state.Closed? ==>
               0 <= s.core.failures < FAILURE_THRESHOLD && forall x :: x in s.inFlight ==> 0 <= x.n < callers
    requires OnlyFailures(es) && Callers(callers, es)
    ensures s.core.state.Closed? ==>
              LetThroughClosed(s, es) + |s.inFlight| + s.core.failures <= callers + FAILURE_THRESHOLD - 1
    ensures !s.core.state.Closed? ==> LetThroughClosed(s, es) == 0
    decreases |es|
  {
    if s.core.state.Closed? { RangeSize(s.inFlight, callers); }
    if es != [] {
      TripCostFrom(Step(s, es[0]), callers, es[1..]);
      if es[0].Return? && es[0].id in s.inFlight {
        assert |s.inFlight - {es[0].id}| == |s.inFlight| - 1;
      }
    }
  }

  /** From a fresh breaker with every call failing, `callers` callers cost at most four calls more. */
  lemma TripCost(callers: nat, es: seq<Event>)
    requires OnlyFailures(es) && Callers(callers, es)
    ensures LetThroughClosed(START, es) <= callers + 4
  {
    TripCostFrom(START, callers, es);
  }

  // ---- What trips the circuit ----

  /** A verdict and when it is recorded. */
  datatype Verdict = Verdict(outcome: Outcome, now: int)

  /** A new breaker after recording those verdicts, one by one. */
  function Recorded(vs: seq<Verdict>): Core {
    if vs == [] then INITIAL else
      var last := vs[|vs| - 1];
      Record(Recorded(vs[..|vs| - 1]), last.outcome, last.now)
  }

  /** How many failures the verdicts end with, looking past cancelled calls. */
  function Streak(vs: seq<Verdict>): nat {
    if vs == [] then 0 else
      match vs[|vs| - 1].outcome
      case Success => 0
      case Neutral => Streak(vs[..|vs| - 1])
      case Failure => Streak(vs[..|vs| - 1]) + 1
  }

  predicate FifthInARow(vs: seq<Verdict>, n: nat)
    requires n <= |vs|
  {
    Streak(vs[..n]) >= FAILURE_THRESHOLD
  }

  /**
   * The circuit trips exactly when five failures come in a row, cancelled calls not counting
   * either way; it opened at the time of the fifth.
   */
  lemma {:induction false} TripsIffFiveInARow(vs: seq<Verdict>)
    ensures Recorded(vs).state.Open? <==> exists n: nat :: n <= |vs| && FifthInARow(vs, n)
    ensures !Recorded(vs).state.Open? ==> Recorded(vs).state.Closed? && Recorded(vs).failures == Streak(vs)
    ensures forall n: nat :: n < |vs| && FifthInARow(vs, n + 1) && (forall m: nat :: m <= n ==> !FifthInARow(vs, m))
              ==> Recorded(vs).openedAt == vs[n].now
    decreases |vs|
  {
    if vs == [] {
      assert forall n: nat :: n <= |vs| ==> vs[..n] == [];
    } else {
      var k := |vs| - 1;
      var init := vs[..k];
      TripsIffFiveInARow(init);
      assert vs[..k + 1] == vs;
      forall n: nat | n <= k ensures FifthInARow(vs, n) <==> FifthInARow(init, n) {
        assert init[..n] == vs[..n];
      }
      if Recorded(init).state.Open? {
        var n: nat :| n <= |init| && FifthInARow(init, n);
        assert FifthInARow(vs, n);
      } else {
        assert FifthInARow(vs, k + 1) <==> Recorded(vs).state.Open?;
      }
    }
  }

  /** The verdicts the run's returning calls deliver. */
  function Verdicts(s: System, es: seq<Event>): seq<Verdict> {
    if es == [] then [] else
      var k := |es| - 1;
      var last := es[k];
      Verdicts(s, es[..k]) +
      if last.Return? && last.id in After(s, es[..k]).inFlight then [Verdict(last.outcome, last.now)] else []
  }

  predicate ClosedAfter(s: System, es: seq<Event>, n: nat)
    requires n <= |es|
  {
    After(s, es[..n]).core.state.Closed?
  }

  /**
   * The same among interleaved callers, for any stretch that begins with the circuit closed and
   * no failure counted, as it starts and as a probe leaves it: it opens with the verdict that
   * makes five failures in a row and with no other, whoever enters meanwhile.
   */
  lemma {:induction false} ClosedStretchTripsIffFiveInARow(s: System, es: seq<Event>)
    requires s.core.state.Closed? && s.core.failures == 0
    requires forall n: nat :: n < |es| ==> ClosedAfter(s, es, n)
    ensures
      var c, streak := After(s, es).core, Streak(Verdicts(s, es));
      if streak >= FAILURE_THRESHOLD then c.state.Open? && es != [] && c.openedAt == es[|es| - 1].now
      else c.state.Closed? && c.failures == streak
    decreases |es|
  {
    if es != [] {
      var k := |es| - 1;
      var init := es[..k];
      assert es == init + [es[k]] && [es[k]][1..] == [];
      AfterConcat(s, init, [es[k]]);
      assert ClosedAfter(s, es, k);
      forall n: nat | n < |init| ensures ClosedAfter(s, init, n) {
        assert init[..n] == es[..n] && ClosedAfter(s, es, n);
      }
      ClosedStretchTripsIffFiveInARow(s, init);
      var vs := Verdicts(s, es);
      if vs != Verdicts(s, init) {
        assert vs[..|vs| - 1] == Verdicts(s, init);
      }
    }
  }
}
