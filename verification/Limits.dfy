/** Limits, decisions and the few helpers every other module shares. */
module Limits {

  datatype Option<+T> = None | Some(value: T)

  datatype Result<+T, +E> = Ok(value: T) | Err(error: E)

  const ALGO_FIXED_WINDOW: string := "fixed_window"
  const ALGO_SLIDING_WINDOW: string := "sliding_window"
  const ALGO_TOKEN_BUCKET: string := "token_bucket"

  const SECOND: int := 1_000_000_000

  /** One rate-limit policy; `window` is in nanoseconds. */
  datatype Limit = Limit(algorithm: string, rate: int, burst: int, window: int)

  /** What every step needs so that no division is by zero and no empty log is indexed. */
  predicate Usable(l: Limit) {
    l.rate > 0 && l.window > 0
  }

  /** Times are nanoseconds since Go's zero time, durations are nanoseconds. */
  datatype Decision = Decision(
    allowed: bool, limit: int, remaining: int, reset: int, retryAfter: int, degraded: bool)

  function AtLeastZero(x: int): int {
    if x < 0 then 0 else x
  }

  predicate NonDecreasing(ts: seq<int>) {
    forall i, j :: 0 <= i < j < |ts| ==> ts[i] <= ts[j]
  }
}
