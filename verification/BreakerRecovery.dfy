/** How service comes back: what each verdict on a probe lets through afterwards, in every interleaving. */
module BreakerRecovery {
  import opened Breaker
  import opened BreakerProtocol

  /** Every caller with no call in flight is let through, at every instant. */
  ghost predicate ServesAll(s: System) {
    forall id, now :: id !in s.inFlight ==> LetsThrough(s, Enter(id, now))
  }

  /** Every caller with no call in flight is let through from `t` on, and nobody before. */
  ghost predicate ServesFrom(s: System, t: int) {
    forall id, now :: id !in s.inFlight ==> (LetsThrough(s, Enter(id, now)) <==> now >= t)
  }

  ghost predicate FewerThanFiveInARow(s: System, es: seq<Event>) {
    forall n: nat :: n <= |es| ==> StreakAt(s, es, n) < FAILURE_THRESHOLD
  }

  function StreakAt(s: System, es: seq<Event>, n: nat): nat
    requires n <= |es|
  {
    Streak(Verdicts(s, es[..n]))
  }

  /** A closed circuit with no failure counted serves everyone until five failures come in a row. */
  lemma {:induction false} ServesUntilFiveInARow(s: System, es: seq<Event>)
    requires s.core.state.Closed? && s.core.failures == 0 && FewerThanFiveInARow(s, es)
    ensures After(s, es).core.state.Closed? && ServesAll(After(s, es))
    decreases |es|
  {
    forall n: nat | n < |es| ensures ClosedAfter(s, es, n) {
      forall m: nat | m <= |es[..n]| ensures StreakAt(s, es[..n], m) < FAILURE_THRESHOLD {
        assert es[..n][..m] == es[..m] && StreakAt(s, es, m) < FAILURE_THRESHOLD;
      }
      ServesUntilFiveInARow(s, es[..n]);
    }
    ClosedStretchTripsIffFiveInARow(s, es);
    assert es[..|es|] == es && StreakAt(s, es, |es|) < FAILURE_THRESHOLD;
  }

  /** From the start everyone is served until five failures come in a row. */
  lemma ServesFromTheStart(es: seq<Event>)
    requires FewerThanFiveInARow(START, es)
    ensures ServesAll(After(START, es))
  {
    ServesUntilFiveInARow(START, es);
  }

  /**
   * In any reachable state, any success recorded while half-open restores service for every
   * caller, and it stays restored until five failures come in a row.
   */
  lemma SuccessRestoresService(past: seq<Event>, id: Caller, now: int, future: seq<Event>)
    requires
      var s := After(START, past);
      s.core.state.HalfOpen? && id in s.inFlight
      && FewerThanFiveInARow(Step(s, Return(id, Success, now)), future)
    ensures
      var s' := Step(After(START, past), Return(id, Success, now));
      s'.core.state.Closed? && ServesAll(s') && ServesAll(After(s', future))
  {
    var s' := Step(After(START, past), Return(id, Success, now));
    ServesUntilFiveInARow(s', future);
  }

  /** From any reachable open state, one probe after the cooldown that succeeds restores it. */
  lemma ProbeRestoresService(past: seq<Event>, id: Caller, now: int, later: int, future: seq<Event>)
    requires
      var s := After(START, past);
      s.core.state.Open? && id !in s.inFlight && now - s.core.openedAt >= COOLDOWN
      && FewerThanFiveInARow(Step(Step(s, Enter(id, now)), Return(id, Success, later)), future)
    ensures
      var s := After(START, past);
      var s' := Step(Step(s, Enter(id, now)), Return(id, Success, later));
      LetsThrough(s, Enter(id, now)) && ServesAll(s') && ServesAll(After(s', future))
  {
    var s := After(START, past);
    AfterConcat(START, past, [Enter(id, now)]);
    assert [Enter(id, now)][1..] == [];
    assert After(START, past + [Enter(id, now)]) == Step(s, Enter(id, now));
    SuccessRestoresService(past + [Enter(id, now)], id, later, future);
  }

  /** Any other verdict while half-open: a failure serves from a cooldown later, a hang-up as before. */
  lemma OtherVerdictsWait(past: seq<Event>, id: Caller, now: int)
    requires
      var s := After(START, past);
      s.core.state.HalfOpen? && id in s.inFlight
    ensures
      var s := After(START, past);
      && ServesFrom(Step(s, Return(id, Failure, now)), now + COOLDOWN)
      && ServesFrom(Step(s, Return(id, Neutral, now)), s.core.openedAt + COOLDOWN)
  {
  }

  /** While open, whatever stale verdicts arrive, everyone waits for the same instant. */
  lemma {:induction false} StaleVerdictsChangeNothing(s: System, es: seq<Event>)
    requires s.core.state.Open?
    requires forall i :: 0 <= i < |es| && es[i].Enter? ==> es[i].now < s.core.openedAt + COOLDOWN
    ensures AdmitTimes(s, es) == [] && ServesFrom(After(s, es), s.core.openedAt + COOLDOWN)
    decreases |es|
  {
    if es != [] {
      assert Step(s, es[0]).core == s.core && !LetsThrough(s, es[0]);
      assert forall i :: 0 <= i < |es[1..]| ==> es[1..][i] == es[i + 1];
      StaleVerdictsChangeNothing(Step(s, es[0]), es[1..]);
    }
  }

  /** While half-open nobody else is let through, whoever tries and whenever. */
  lemma HalfOpenServesNobody(s: System, id: Caller, now: int)
    requires s.core.state.HalfOpen?
    ensures !LetsThrough(s, Enter(id, now)) && Step(s, Enter(id, now)) == s
  {
  }
}
