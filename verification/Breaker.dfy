/** The circuit breaker in front of Redis: closed, open, half-open. */
module Breaker {
  import opened Limits

  const FAILURE_THRESHOLD: int := 5
  const COOLDOWN: int := SECOND

  datatype State = Closed | Open | HalfOpen

  /** How a call ended: answered, cancelled by its caller, or failed. */
  datatype Outcome = Success | Neutral | Failure

  datatype Core = Core(state: State, failures: int, openedAt: int)

  const INITIAL: Core := Core(Closed, 0, 0)

  function Admit(c: Core, now: int): (Core, bool) {
    match c.state
    case Open => if now - c.openedAt < COOLDOWN then (c, false) else (c.(state := HalfOpen), true)
    case HalfOpen => (c, false)
    case Closed => (c, true)
  }

  function Record(c: Core, o: Outcome, now: int): Core {
    match c.state
    case Closed =>
      if o.Success? then c.(failures := 0)
      else if o.Neutral? then c
      else if c.failures + 1 >= FAILURE_THRESHOLD then Core(Open, c.failures + 1, now)
      else c.(failures := c.failures + 1)
    case HalfOpen =>
      if o.Success? then c.(state := Closed, failures := 0)
      else if o.Neutral? then c.(state := Open)
      else c.(state := Open, openedAt := now)
    case Open => c
  }

  class CircuitBreaker {
    var state: State
    var failures: int
    var openedAt: int

    function Value(): Core
      reads this
    {
      Core(state, failures, openedAt)
    }

    constructor ()
      ensures Value() == INITIAL
    {
      state, failures, openedAt := Closed, 0, 0;
    }

    method SetState(s: State)
      modifies this`state
      ensures state == s
    {
      state := s;
    }

    method TryEnter(now: int) returns (admitted: bool)
      modifies this
      ensures (Value(), admitted) == Admit(old(Value()), now)
    {
      match state
      case Open =>
        if now - openedAt < COOLDOWN {
          return false;
        }
        SetState(HalfOpen);
        return true;
      case HalfOpen =>
        return false;
      case Closed =>
        return true;
    }

    method Report(o: Outcome, now: int)
      modifies this
      ensures Value() == Record(old(Value()), o, now)
    {
      match state
      case Closed =>
        match o {
          case Success => failures := 0;
          case Neutral =>
          case Failure =>
            failures := failures + 1;
            if failures >= FAILURE_THRESHOLD {
              SetState(Open);
              openedAt := now;
            }
        }
      case HalfOpen =>
        match o {
          case Success =>
            SetState(Closed);
            failures := 0;
          case Neutral =>
            SetState(Open);
          case Failure =>
            SetState(Open);
            openedAt := now;
        }
      case Open =>
    }
  }
}
