/** The fixed_window bucket: a counter that restarts on every cell of a fixed grid. */
module FixedWindow {
  import opened Limits

  /** The start of the grid cell `now` falls in; the grid is anchored at zero. */
  function Truncate(now: int, window: int): (start: int)
    requires window > 0
    ensures start <= now < start + window
    ensures start % window == 0
  {
    TruncateAligned(now, window);
    now - now % window
  }

  lemma TruncateAligned(now: int, window: int)
    requires window > 0
    ensures (now - now % window) % window == 0
  {
    assert now - now % window == (now / window) * window;
    MultipleHasNoRemainder(now / window, window);
  }

  lemma MultipleHasNoRemainder(q: int, w: int)
    requires w > 0
    ensures (q * w) % w == 0 && (q * w) / w == q
  {
    DivModUnique(q * w, w, q, 0);
  }

  /** Quotient and remainder are determined by their defining equation. */
  lemma DivModUnique(x: int, w: int, q: int, r: int)
    requires w > 0 && 0 <= r < w && x == q * w + r
    ensures x / w == q && x % w == r
  {
    var d := x / w - q;
    assert d * w == r - x % w;
    if d >= 1 {
      LeastMultiple(d, w);
      assert false;
    } else if d <= -1 {
      LeastMultiple(-d, w);
      assert false;
    }
  }

  lemma LeastMultiple(d: int, w: int)
    requires w > 0 && d >= 1
    ensures d * w >= w
  {
  }

  function Next(l: Limit, windowStart: int, count: int, now: int): (int, int, Decision)
    requires Usable(l)
  {
    var start := Truncate(now, l.window);
    var before := if start != windowStart then 0 else count;
    var allowed := before < l.rate;
    var after := if allowed then before + 1 else before;
    var reset := start + l.window;
    (start, after,
     Decision(allowed, l.rate, AtLeastZero(l.rate - after), reset,
              if allowed then 0 else reset - now, false))
  }

  class FixedWindowBucket {
    var windowStart: int
    var count: int

    constructor ()
      ensures windowStart == 0 && count == 0
    {
      windowStart, count := 0, 0;
    }

    method Step(l: Limit, now: int) returns (dec: Decision)
      requires Usable(l)
      modifies this
      ensures (windowStart, count, dec) == Next(l, old(windowStart), old(count), now)
    {
      var start := Truncate(now, l.window);
      if start != windowStart {
        windowStart := start;
        count := 0;
      }
      var reset := start + l.window;
      var allowed := count < l.rate;
      if allowed {
        count := count + 1;
      }
      var remaining := l.rate - count;
      if remaining < 0 {
        remaining := 0;
      }
      dec := Decision(allowed, l.rate, remaining, reset, 0, false);
      if !allowed {
        dec := dec.(retryAfter := reset - now);
      }
    }
  }
}
