/** The sliding_window bucket: a log of accepted times, evicted in place on every step. */
module SlidingWindow {
  import opened Limits

  /** The entries of `log` strictly after `cutoff`, in order. */
  function Evict(log: seq<int>, cutoff: int): (kept: seq<int>)
    ensures |kept| <= |log|
    ensures forall x :: x in kept ==> x in log && x > cutoff
  {
    if log == [] then []
    else if log[0] > cutoff then [log[0]] + Evict(log[1..], cutoff)
    else Evict(log[1..], cutoff)
  }

  function Next(l: Limit, log: seq<int>, now: int): (seq<int>, Decision)
    requires Usable(l)
  {
    var kept := Evict(log, now - l.window);
    var allowed := |kept| < l.rate;
    var log' := if allowed then kept + [now] else kept;
    var reset := if |log'| > 0 then log'[|log'| - 1] + l.window else now;
    var retry := if allowed then 0 else kept[0] + l.window - now;
    (log', Decision(allowed, l.rate, AtLeastZero(l.rate - |log'|), reset, retry, false))
  }

  lemma {:induction false} EvictAppend(log: seq<int>, x: int, cutoff: int)
    ensures Evict(log + [x], cutoff) == Evict(log, cutoff) + (if x > cutoff then [x] else [])
  {
    if log == [] {
      assert log + [x] == [x];
    } else {
      assert (log + [x])[1..] == log[1..] + [x];
      EvictAppend(log[1..], x, cutoff);
    }
  }

  lemma EvictNothing(cutoff: int)
    ensures Evict([], cutoff) == []
  {
  }

  /** Entry `i` copied down to place `n`, the end of what is kept. */
  lemma CopyDown(log: seq<int>, n: nat, i: nat)
    requires n <= i < |log|
    ensures log[n := log[i]][..n + 1] == log[..n] + [log[i]]
    ensures log[n := log[i]][i + 1..] == log[i + 1..] == log[i..][1..]
  {
  }

  class SlidingWindowBucket {
    var timestamps: seq<int>

    constructor ()
      ensures timestamps == []
    {
      timestamps := [];
    }

    /** Compacts the log in place: what is after the cutoff moves down, the rest is cut off. */
    method EvictInPlace(cutoff: int)
      modifies this
      ensures timestamps == Evict(old(timestamps), cutoff)
    {
      hide Evict;
      var n, i := 0, 0;
      ghost var log := timestamps;
      EvictNothing(cutoff);
      while i < |timestamps|
        invariant 0 <= n <= i <= |timestamps| == |log|
        invariant timestamps[..n] == Evict(log[..i], cutoff)
        invariant timestamps[i..] == log[i..]
      {
        var ts := timestamps[i];
        assert ts == timestamps[i..][0] == log[i..][0];
        CopyDown(timestamps, n, i);
        CopyDown(log, i, i);
        assert log[..i + 1] == log[..i] + [ts];
        EvictAppend(log[..i], ts, cutoff);
        if ts > cutoff {
          timestamps := timestamps[n := ts];
          n := n + 1;
        }
        i := i + 1;
      }
      assert log[..i] == log;
      timestamps := timestamps[..n];
    }

    method Step(l: Limit, now: int) returns (dec: Decision)
      requires Usable(l)
      modifies this
      ensures (timestamps, dec) == Next(l, old(timestamps), now)
    {
      EvictInPlace(now - l.window);

      var allowed := |timestamps| < l.rate;
      if allowed {
        timestamps := timestamps + [now];
      }
      var remaining := l.rate - |timestamps|;
      if remaining < 0 {
        remaining := 0;
      }
      dec := Decision(allowed, l.rate, remaining, now, 0, false);
      if |timestamps| > 0 {
        dec := dec.(reset := timestamps[|timestamps| - 1] + l.window);
      }
      if !allowed {
        dec := dec.(retryAfter := timestamps[0] + l.window - now);
      }
    }
  }

  // ---- Facts about sorted logs ----

  /** Eviction from a sorted log drops a prefix: `k` is how many entries it drops. */
  lemma {:induction false} EvictDropsPrefix(log: seq<int>, cutoff: int) returns (k: nat)
    requires NonDecreasing(log)
    ensures k <= |log| && Evict(log, cutoff) == log[k..]
    ensures forall i :: 0 <= i < k ==> log[i] <= cutoff
    ensures forall i :: k <= i < |log| ==> log[i] > cutoff
  {
    if log == [] {
      k := 0;
    } else if log[0] > cutoff {
      k := 0;
      EvictKeepsAll(log, cutoff);
    } else {
      var k' := EvictDropsPrefix(log[1..], cutoff);
      k := k' + 1;
    }
  }

  lemma {:induction false} EvictKeepsAll(log: seq<int>, cutoff: int)
    requires forall i :: 0 <= i < |log| ==> log[i] > cutoff
    ensures Evict(log, cutoff) == log
  {
    if log != [] {
      EvictKeepsAll(log[1..], cutoff);
    }
  }

  lemma {:induction false} EvictDropsAll(log: seq<int>, cutoff: int)
    requires forall i :: 0 <= i < |log| ==> log[i] <= cutoff
    ensures Evict(log, cutoff) == []
  {
    if log != [] {
      EvictDropsAll(log[1..], cutoff);
    }
  }

  /** Evicting twice, with the later cutoff last, is evicting once. */
  lemma {:induction false} EvictTwice(log: seq<int>, c1: int, c2: int)
    requires c1 <= c2
    ensures Evict(Evict(log, c1), c2) == Evict(log, c2)
  {
    if log != [] {
      EvictTwice(log[1..], c1, c2);
      if log[0] > c1 {
        assert Evict(log, c1)[1..] == Evict(log[1..], c1);
      }
    }
  }
}
