/** sliding_window never exceeds its quota in any window, and no rule that obeys it admits more. */
module SlidingExact {
  import opened Limits
  import opened Buckets
  import SlidingWindow

  // ---- Counting admissions in a window ----

  /** How many of `times` lie in the half-open interval (t - window, t]. */
  function Within(times: seq<int>, window: int, t: int): (n: nat)
    ensures n <= |times|
  {
    if times == [] then 0 else
      (if t - window < times[0] <= t then 1 else 0) + Within(times[1..], window, t)
  }

  /** No interval (t - window, t] holds more than `rate` of the times. */
  ghost predicate ObeysQuota(times: seq<int>, rate: int, window: int) {
    forall t :: Within(times, window, t) <= rate
  }

  predicate WindowApart(times: seq<int>, i: nat, rate: int, window: int)
    requires rate > 0 && i + rate < |times|
  {
    times[i + rate] - times[i] >= window
  }

  /** The same bound read off a sorted list: entries `rate` apart are a window apart. */
  ghost predicate Spaced(times: seq<int>, rate: int, window: int)
    requires rate > 0
  {
    forall i: nat :: i + rate < |times| ==> WindowApart(times, i, rate, window)
  }

  lemma {:induction false} WithinConcat(a: seq<int>, b: seq<int>, window: int, t: int)
    ensures Within(a + b, window, t) == Within(a, window, t) + Within(b, window, t)
  {
    if a == [] {
      assert a + b == b;
    } else {
      assert (a + b)[1..] == a[1..] + b;
      WithinConcat(a[1..], b, window, t);
    }
  }

  lemma {:induction false} WithinAll(a: seq<int>, window: int, t: int)
    requires forall i :: 0 <= i < |a| ==> t - window < a[i] <= t
    ensures Within(a, window, t) == |a|
  {
    if a != [] {
      WithinAll(a[1..], window, t);
    }
  }

  /** Quota over every window and spacing are the same condition on a sorted list. */
  lemma QuotaIffSpaced(times: seq<int>, rate: int, window: int)
    requires NonDecreasing(times) && rate > 0 && window > 0
    ensures ObeysQuota(times, rate, window) <==> Spaced(times, rate, window)
  {
    if ObeysQuota(times, rate, window) {
      forall i: nat | i + rate < |times| ensures WindowApart(times, i, rate, window) {
        if !WindowApart(times, i, rate, window) {
          CrowdedWindow(times, i, i + rate, window);
        }
      }
    }
    if Spaced(times, rate, window) {
      forall t ensures Within(times, window, t) <= rate {
        SpacedWindow(times, rate, window, t);
      }
    }
  }

  lemma CrowdedWindow(times: seq<int>, i: nat, j: nat, window: int)
    requires NonDecreasing(times) && i <= j < |times| && times[j] - times[i] < window
    ensures Within(times, window, times[j]) >= j - i + 1
  {
    var t := times[j];
    var mid := times[i..j + 1];
    assert times == (times[..i] + mid) + times[j + 1..];
    WithinConcat(times[..i] + mid, times[j + 1..], window, t);
    WithinConcat(times[..i], mid, window, t);
    WithinAll(mid, window, t);
  }

  lemma {:induction false} SpacedWindow(times: seq<int>, rate: int, window: int, t: int)
    requires NonDecreasing(times) && rate > 0 && Spaced(times, rate, window)
    ensures Within(times, window, t) <= rate
    decreases |times|
  {
    var n := |times| - 1;
    if |times| > rate {
      assert WindowApart(times, 0, rate, window);
      if times[0] <= t - window {
        SpacedTail(times, rate, window);
        SpacedWindow(times[1..], rate, window, t);
      } else {
        assert times[n] > t;
        SpacedPrefix(times, n, rate, window);
        SpacedWindow(times[..n], rate, window, t);
        assert times == times[..n] + [times[n]];
        WithinConcat(times[..n], [times[n]], window, t);
      }
    }
  }

  lemma SpacedTail(times: seq<int>, rate: int, window: int)
    requires rate > 0 && times != [] && Spaced(times, rate, window)
    ensures Spaced(times[1..], rate, window)
  {
    forall i: nat | i + rate < |times[1..]| ensures WindowApart(times[1..], i, rate, window) {
      assert WindowApart(times, i + 1, rate, window);
    }
  }

  lemma SpacedPrefix(times: seq<int>, n: nat, rate: int, window: int)
    requires rate > 0 && n <= |times| && Spaced(times, rate, window)
    ensures Spaced(times[..n], rate, window)
  {
    forall i: nat | i + rate < |times[..n]| ensures WindowApart(times[..n], i, rate, window) {
      assert WindowApart(times, i, rate, window);
    }
  }

  // ---- The log is the recent end of everything admitted ----

  /** `log` is what is left of `past` after dropping its first `k` entries, all at most `cutoff`. */
  ghost predicate RecentEnd(log: seq<int>, past: seq<int>, k: nat, cutoff: int) {
    && k <= |past| && log == past[k..]
    && forall i :: 0 <= i < k ==> past[i] <= cutoff
  }

  ghost predicate AllAtMost(past: seq<int>, t: int) {
    forall i :: 0 <= i < |past| ==> past[i] <= t
  }

  lemma EvictAtRecentEnd(log: seq<int>, past: seq<int>, k: nat, cutoff: int) returns (k': nat)
    requires NonDecreasing(log) && RecentEnd(log, past, k, cutoff)
    ensures RecentEnd(SlidingWindow.Evict(log, cutoff), past, k', cutoff)
    ensures forall i :: k' <= i < |past| ==> past[i] > cutoff
  {
    var d := SlidingWindow.EvictDropsPrefix(log, cutoff);
    k' := k + d;
    assert forall i :: k <= i < |past| ==> past[i] == log[i - k];
    assert log[d..] == past[k'..];
  }

  function Extended(past: seq<int>, t: int, add: bool): seq<int> {
    if add then past + [t] else past
  }

  /** One step keeps the log the recent end, and admits exactly when spacing allows it. */
  lemma StepAtRecentEnd(l: Limit, log: seq<int>, past: seq<int>, k: nat, t: int) returns (k': nat)
    requires Usable(l) && NonDecreasing(log) && RecentEnd(log, past, k, t - l.window)
    ensures
      var (log', dec) := SlidingWindow.Next(l, log, t);
      && RecentEnd(log', Extended(past, t, dec.allowed), k', t - l.window)
      && (dec.allowed <==> (|past| < l.rate || past[|past| - l.rate] <= t - l.window))
  {
    k' := EvictAtRecentEnd(log, past, k, t - l.window);
    assert (past + [t])[k'..] == past[k'..] + [t];
  }

  /** One request at the head of a run, added to the admissions of before. */
  lemma Unfold(l: Limit, log: seq<int>, past: seq<int>, ts: seq<int>)
    requires Usable(l) && ts != []
    ensures
      var (log', dec) := SlidingWindow.Next(l, log, ts[0]);
      past + AdmittedTimes(l, Sliding(log), ts)
      == Extended(past, ts[0], dec.allowed) + AdmittedTimes(l, Sliding(log'), ts[1..])
  {
    AdmittedTimesUnfold(l, Sliding(log), ts);
    var (log', dec) := SlidingWindow.Next(l, log, ts[0]);
    assert Step(l, Sliding(log), ts[0]) == (Sliding(log'), dec);
    var rest := AdmittedTimes(l, Sliding(log'), ts[1..]);
    assert past + ([ts[0]] + rest) == (past + [ts[0]]) + rest;
    assert [] + rest == rest;
  }

  lemma SortedTail(past: seq<int>, k: nat)
    requires NonDecreasing(past) && k <= |past|
    ensures NonDecreasing(past[k..])
  {
  }

  lemma SortedAppend(past: seq<int>, t: int)
    requires NonDecreasing(past) && AllAtMost(past, t)
    ensures NonDecreasing(past + [t]) && AllAtMost(past + [t], t)
  {
  }

  lemma SpacedAppend(past: seq<int>, t: int, rate: int, window: int)
    requires rate > 0 && Spaced(past, rate, window)
    requires |past| < rate || past[|past| - rate] <= t - window
    ensures Spaced(past + [t], rate, window)
  {
    forall i: nat | i + rate < |past + [t]| ensures WindowApart(past + [t], i, rate, window) {
      if i + rate < |past| {
        assert WindowApart(past, i, rate, window);
      }
    }
  }

  /** What a run keeps: the log is the recent end of all admissions so far, none in the future. */
  ghost predicate Tracks(l: Limit, log: seq<int>, past: seq<int>, k: nat, ts: seq<int>) {
    && NonDecreasing(ts) && NonDecreasing(past)
    && (ts != [] ==> RecentEnd(log, past, k, ts[0] - l.window) && AllAtMost(past, ts[0]))
  }

  lemma Advance(l: Limit, log: seq<int>, past: seq<int>, k: nat, ts: seq<int>) returns (k': nat)
    requires Usable(l) && Tracks(l, log, past, k, ts) && ts != []
    ensures
      var (log', dec) := SlidingWindow.Next(l, log, ts[0]);
      && Tracks(l, log', Extended(past, ts[0], dec.allowed), k', ts[1..])
      && (dec.allowed <==> (|past| < l.rate || past[|past| - l.rate] <= ts[0] - l.window))
  {
    SortedTail(past, k);
    k' := StepAtRecentEnd(l, log, past, k, ts[0]);
    SortedAppend(past, ts[0]);
  }

  lemma {:induction false} AdmittedAreSpaced(l: Limit, log: seq<int>, past: seq<int>, k: nat, ts: seq<int>)
    requires Usable(l) && Tracks(l, log, past, k, ts) && Spaced(past, l.rate, l.window)
    ensures Spaced(past + AdmittedTimes(l, Sliding(log), ts), l.rate, l.window)
    ensures NonDecreasing(past + AdmittedTimes(l, Sliding(log), ts))
    decreases |ts|
  {
    hide Spaced, SlidingWindow.Next;
    if ts == [] {
      assert past + [] == past;
    } else {
      hide AdmittedTimes, Tracks;
      Unfold(l, log, past, ts);
      var k' := Advance(l, log, past, k, ts);
      var (log', dec) := SlidingWindow.Next(l, log, ts[0]);
      if dec.allowed { SpacedAppend(past, ts[0], l.rate, l.window); }
      AdmittedAreSpaced(l, log', Extended(past, ts[0], dec.allowed), k', ts[1..]);
    }
  }

  /**
   * On a clock that does not step back, no interval (t - window, t] ever holds more than
   * `rate` admissions.
   */
  lemma NeverExceedsQuota(l: Limit, ts: seq<int>)
    requires Usable(l) && NonDecreasing(ts)
    ensures NonDecreasing(AdmittedTimes(l, Sliding([]), ts))
    ensures ObeysQuota(AdmittedTimes(l, Sliding([]), ts), l.rate, l.window)
  {
    AdmittedAreSpaced(l, [], [], 0, ts);
    var mine := AdmittedTimes(l, Sliding([]), ts);
    assert [] + mine == mine;
    QuotaIffSpaced(mine, l.rate, l.window);
  }

  // ---- Optimality ----

  /** `mine` is at least as long as `theirs` and never later, entry by entry. */
  ghost predicate NeverLater(mine: seq<int>, theirs: seq<int>) {
    |theirs| <= |mine| && forall i :: 0 <= i < |theirs| ==> mine[i] <= theirs[i]
  }

  lemma {:induction false} PickNonDecreasing(ts: seq<int>, flags: seq<bool>)
    requires |ts| == |flags| && NonDecreasing(ts)
    ensures NonDecreasing(Pick(ts, flags))
    ensures forall x :: x in Pick(ts, flags) ==> ts[0] <= x
  {
    if ts != [] {
      PickNonDecreasing(ts[1..], flags[1..]);
      var rest := Pick(ts[1..], flags[1..]);
      assert forall i :: 0 <= i < |rest| ==> rest[i] in rest;
    }
  }

  /** A denial forces every quota-abiding rival with as many admissions to deny as well. */
  lemma RivalMustDeny(
      mine: seq<int>, theirs: seq<int>, t: int, later: seq<int>, rate: int, window: int)
    requires rate > 0 && NeverLater(mine, theirs) && |theirs| == |mine|
    requires |mine| >= rate && mine[|mine| - rate] > t - window
    ensures !Spaced(theirs + [t] + later, rate, window)
  {
    assert !WindowApart(theirs + [t] + later, |theirs| - rate, rate, window);
  }

  lemma PickUnfold(past: seq<int>, ts: seq<int>, flags: seq<bool>)
    requires |ts| == |flags| && ts != []
    ensures past + Pick(ts, flags) == Extended(past, ts[0], flags[0]) + Pick(ts[1..], flags[1..])
  {
    assert past + ([ts[0]] + Pick(ts[1..], flags[1..])) == (past + [ts[0]]) + Pick(ts[1..], flags[1..]);
  }

  lemma StillNeverLater(mine: seq<int>, theirs: seq<int>, t: int, minesToo: bool, theirsToo: bool)
    requires NeverLater(mine, theirs) && AllAtMost(mine, t)
    requires minesToo || !theirsToo || |theirs| < |mine|
    ensures NeverLater(Extended(mine, t, minesToo), Extended(theirs, t, theirsToo))
  {
  }

  /** A rival with as many admissions may not admit where the log denies. */
  lemma RivalMayNot(
      l: Limit, log: seq<int>, mine: seq<int>, k: nat, theirs: seq<int>, ts: seq<int>, rival: seq<bool>)
    requires Usable(l) && Tracks(l, log, mine, k, ts) && |rival| == |ts| && ts != [] && NeverLater(mine, theirs)
    requires Spaced(theirs + Pick(ts, rival), l.rate, l.window)
    ensures SlidingWindow.Next(l, log, ts[0]).1.allowed || !rival[0] || |theirs| < |mine|
  {
    hide Spaced, Pick, SlidingWindow.Next;
    var _ := Advance(l, log, mine, k, ts);
    hide Tracks;
    PickUnfold(theirs, ts, rival);
    if |theirs| == |mine| && !SlidingWindow.Next(l, log, ts[0]).1.allowed {
      RivalMustDeny(mine, theirs, ts[0], Pick(ts[1..], rival[1..]), l.rate, l.window);
    }
  }

  lemma TracksAtMost(l: Limit, log: seq<int>, past: seq<int>, k: nat, ts: seq<int>)
    requires Tracks(l, log, past, k, ts) && ts != []
    ensures AllAtMost(past, ts[0])
  {
  }

  lemma {:induction false} StaysAhead(
      l: Limit, log: seq<int>, mine: seq<int>, k: nat, theirs: seq<int>, ts: seq<int>, rival: seq<bool>)
    requires Usable(l) && Tracks(l, log, mine, k, ts) && |rival| == |ts| && NeverLater(mine, theirs)
    requires Spaced(theirs + Pick(ts, rival), l.rate, l.window)
    ensures NeverLater(mine + AdmittedTimes(l, Sliding(log), ts), theirs + Pick(ts, rival))
    decreases |ts|
  {
    if ts == [] {
      assert mine + [] == mine && theirs + [] == theirs;
    } else {
      TracksAtMost(l, log, mine, k, ts);
      var allowed := SlidingWindow.Next(l, log, ts[0]).1.allowed;
      assert allowed || !rival[0] || |theirs| < |mine| by {
        RivalMayNot(l, log, mine, k, theirs, ts, rival);
      }
      hide Tracks, Spaced, NeverLater, AllAtMost, AdmittedTimes, Pick, SlidingWindow.Next;
      Unfold(l, log, mine, ts);
      PickUnfold(theirs, ts, rival);
      var k' := Advance(l, log, mine, k, ts);
      StillNeverLater(mine, theirs, ts[0], allowed, rival[0]);
      StaysAhead(l, SlidingWindow.Next(l, log, ts[0]).0, Extended(mine, ts[0], allowed), k',
                 Extended(theirs, ts[0], rival[0]), ts[1..], rival[1..]);
    }
  }

  /**
   * Among all ways of choosing admissions that obey the quota, the log admits the most:
   * its i-th admission is never later than a rival's i-th.
   */
  lemma AdmitsTheMost(l: Limit, ts: seq<int>, rival: seq<bool>)
    requires Usable(l) && NonDecreasing(ts) && |rival| == |ts|
    requires ObeysQuota(Pick(ts, rival), l.rate, l.window)
    ensures NeverLater(AdmittedTimes(l, Sliding([]), ts), Pick(ts, rival))
  {
    var theirs := Pick(ts, rival);
    PickNonDecreasing(ts, rival);
    QuotaIffSpaced(theirs, l.rate, l.window);
    assert [] + theirs == theirs;
    StaysAhead(l, [], [], 0, [], ts, rival);
    var mine := AdmittedTimes(l, Sliding([]), ts);
    assert [] + mine == mine;
  }

  /** ... and on every prefix of the arrivals. */
  lemma AdmitsTheMostOnEveryPrefix(l: Limit, ts: seq<int>, rival: seq<bool>, n: nat)
    requires Usable(l) && NonDecreasing(ts) && |rival| == |ts| && n <= |ts|
    requires ObeysQuota(Pick(ts, rival), l.rate, l.window)
    ensures NeverLater(AdmittedTimes(l, Sliding([]), ts[..n]), Pick(ts[..n], rival[..n]))
    ensures Run(l, Sliding([]), ts[..n]) == Run(l, Sliding([]), ts)[..n]
  {
    RunOfPrefix(l, Sliding([]), ts, n);
    QuotaOfPrefix(ts, rival, n, l.rate, l.window);
    AdmitsTheMost(l, ts[..n], rival[..n]);
  }

  lemma RunOfPrefix(l: Limit, s: BucketState, ts: seq<int>, n: nat)
    requires Usable(l) && n <= |ts|
    ensures Run(l, s, ts[..n]) == Run(l, s, ts)[..n]
  {
    assert ts == ts[..n] + ts[n..];
    RunConcat(l, s, ts[..n], ts[n..]);
  }

  lemma QuotaOfPrefix(ts: seq<int>, rival: seq<bool>, n: nat, rate: int, window: int)
    requires |rival| == |ts| && n <= |ts| && ObeysQuota(Pick(ts, rival), rate, window)
    ensures ObeysQuota(Pick(ts[..n], rival[..n]), rate, window)
  {
    assert ts == ts[..n] + ts[n..] && rival == rival[..n] + rival[n..];
    PickConcat(ts[..n], ts[n..], rival[..n], rival[n..]);
    var early, late := Pick(ts[..n], rival[..n]), Pick(ts[n..], rival[n..]);
    forall t ensures Within(early, window, t) <= rate {
      WithinConcat(early, late, window, t);
    }
  }
}
