/** What the gateway makes of a limiter's answer. */
module Gateway {
  import opened Limits
  import Breaker

  /** What to do with a request when the limiter cannot answer. */
  datatype OnError = FailOpen | FailClosed | Degrade

  /** Whole seconds for the Retry-After header: rounded up, at least one. */
  function HeaderSeconds(d: int): (secs: int)
    ensures secs >= 1 && secs * SECOND >= d
    ensures secs == 1 || (secs - 1) * SECOND < d
  {
    var secs := (d + SECOND - 1) / SECOND;
    if secs < 1 then 1 else secs
  }

  datatype Outcome =
    | Proxied
    | TooManyRequests(retryAfter: int)
    | Unavailable(retryAfter: int)

  /** The outcome switch: an error is proxied unless the policy is fail_closed, a denial is a 429. */
  function Serve<E>(answer: Result<Decision, E>, onError: OnError): (outcome: Outcome)
    ensures outcome.Proxied? <==> if answer.Ok? then answer.value.allowed else !onError.FailClosed?
    ensures outcome.TooManyRequests? <==> answer.Ok? && !answer.value.allowed
    ensures outcome.TooManyRequests? ==>
              outcome.retryAfter >= 1 && outcome.retryAfter * SECOND >= answer.value.retryAfter
    ensures outcome.TooManyRequests? && outcome.retryAfter > 1 ==>
              (outcome.retryAfter - 1) * SECOND < answer.value.retryAfter
    ensures outcome.Unavailable? ==> outcome.retryAfter * SECOND == Breaker.COOLDOWN
  {
    match answer
    case Err(_) => if onError.FailClosed? then Unavailable(HeaderSeconds(Breaker.COOLDOWN)) else Proxied
    case Ok(dec) => if dec.allowed then Proxied else TooManyRequests(HeaderSeconds(dec.retryAfter))
  }

  /**
   * The seconds a 503 advises reach the next probe: with nobody else calling, an open circuit
   * lets a client through that waits them out.
   */
  lemma UnavailableRetryReachesProbe(c: Breaker.Core, now: int, t: int)
    requires c.state.Open? && c.openedAt <= now
    requires t >= now + Serve<()>(Err(()), FailClosed).retryAfter * SECOND
    ensures Breaker.Admit(c, t).1
  {
  }
}
