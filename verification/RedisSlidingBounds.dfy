/**
 * sliding_window.lua in true time, expiry included, when TIME may step back but never runs
 * faster than true time.
 */
module RedisSlidingBounds {
  import opened Limits
  import opened RedisScripts
  import RedisExpiry

  /** The entries the accepted calls of `es` would add differ from each other and from those in `z`. */
  ghost predicate FreshNonces(z: seq<Entry>, es: seq<Event>) {
    && (forall i :: 0 <= i < |es| && es[i].Call? ==> Entry(es[i].now, es[i].nonce) !in z)
    && (forall i, j :: 0 <= i < j < |es| && es[i].Call? && es[j].Call? ==>
          Entry(es[i].now, es[i].nonce) != Entry(es[j].now, es[j].nonce))
  }

  /** The entry is trimmed by no event of `es`. */
  ghost predicate Survives(e: Entry, window: int, es: seq<Event>) {
    forall i :: 0 <= i < |es| ==> e.score > es[i].now - window
  }

  /** How many entries of `z` no event of `es` trims. */
  ghost function Survivors(z: seq<Entry>, window: int, es: seq<Event>): (n: nat)
    ensures n <= |z|
  {
    if z == [] then 0 else
      (if Survives(z[0], window, es) then 1 else 0) + Survivors(z[1..], window, es)
  }

  ghost predicate NeverDue(deadline: int, es: seq<Event>) {
    forall i :: 0 <= i < |es| ==> Millis(es[i].now) <= deadline
  }

  /** How many admissions the key is sure to remember throughout `es`. */
  ghost function Remembered(l: Limit, k: Key, es: seq<Event>): (n: nat)
    requires k.Live? ==> k.value.Log?
    ensures n <= |EntriesOf(k)|
  {
    if k.Live? && NeverDue(k.deadline, es) then Survivors(EntriesOf(k), l.window, es) else 0
  }

  lemma {:induction false} TrimKeepsSurvivors(z: seq<Entry>, window: int, es: seq<Event>)
    requires es != []
    ensures Survivors(z, window, es) <= Survivors(ZRemUpTo(z, es[0].now - window), window, es[1..])
  {
    if z != [] {
      TrimKeepsSurvivors(z[1..], window, es);
      if Survives(z[0], window, es) {
        assert z[0].score > es[0].now - window;
        assert forall i :: 0 <= i < |es[1..]| ==> z[0].score > es[1..][i].now - window;
      }
    }
  }

  lemma {:induction false} SurvivorsShrink(z: seq<Entry>, window: int, es: seq<Event>)
    requires es != []
    ensures Survivors(z, window, es) <= Survivors(z, window, es[1..])
  {
    if z != [] {
      SurvivorsShrink(z[1..], window, es);
      if Survives(z[0], window, es) {
        assert forall i :: 0 <= i < |es[1..]| ==> z[0].score > es[1..][i].now - window;
      }
    }
  }

  lemma {:induction false} AddedSurvives(z: seq<Entry>, e: Entry, window: int, es: seq<Event>)
    requires e !in z && Survives(e, window, es)
    ensures Survivors(ZAdd(z, e), window, es) == Survivors(z, window, es) + 1
    ensures |ZAdd(z, e)| == |z| + 1
  {
    if z != [] {
      AddedSurvives(z[1..], e, window, es);
      assert ([z[0]] + ZAdd(z[1..], e))[1..] == ZAdd(z[1..], e);
      assert ([e] + z)[1..] == z;
    }
  }

  lemma {:induction false} ZRemOnlyRemoves(z: seq<Entry>, max: int)
    ensures forall e :: e in ZRemUpTo(z, max) ==> e in z
  {
    if z != [] {
      ZRemOnlyRemoves(z[1..], max);
    }
  }

  lemma {:induction false} ZAddOnlyAdds(z: seq<Entry>, e: Entry)
    ensures forall x :: x in ZAdd(z, e) ==> x in z || x == e
  {
    if z != [] {
      ZAddOnlyAdds(z[1..], e);
    }
  }

  /** Clock readings that stay within one window of each earlier one. */
  ghost predicate WithinWindow(window: int, es: seq<Event>) {
    forall i, j :: 0 <= i < j < |es| ==> es[j].now - es[i].now < window
  }

  /** The zset after a call, apart from its deadline. */
  function LogAfter(l: Limit, k: Key, now: int, nonce: nat): seq<Entry>
    requires k.Live? ==> k.value.Log?
  {
    var kept := ZRemUpTo(EntriesOf(k), now - l.window);
    if |kept| < l.rate then ZAdd(kept, Entry(now, nonce)) else kept
  }

  lemma CallLog(l: Limit, k: Key, now: int, nonce: nat)
    requires Usable(l) && (k.Live? ==> k.value.Log?)
    ensures
      var (k', r) := SlidingScript(l, k, now, nonce);
      && k'.Live? && k' == Live(Log(LogAfter(l, k, now, nonce)), Millis(now) + CeilMillis(l.window))
      && r.allowed == (|ZRemUpTo(EntriesOf(k), now - l.window)| < l.rate)
  {
    var kept := ZRemUpTo(EntriesOf(k), now - l.window);
    assert ZAdd(kept, Entry(now, nonce)) != [];
  }

  lemma CallKeepsFresh(l: Limit, k: Key, es: seq<Event>)
    requires Usable(l) && (k.Live? ==> k.value.Log?) && es != [] && es[0].Call?
    requires FreshNonces(EntriesOf(k), es)
    ensures FreshNonces(LogAfter(l, k, es[0].now, es[0].nonce), es[1..])
  {
    var e, rest := Entry(es[0].now, es[0].nonce), es[1..];
    var kept := ZRemUpTo(EntriesOf(k), es[0].now - l.window);
    ZRemOnlyRemoves(EntriesOf(k), es[0].now - l.window);
    ZAddOnlyAdds(kept, e);
    forall i | 0 <= i < |rest| && rest[i].Call?
      ensures Entry(rest[i].now, rest[i].nonce) !in LogAfter(l, k, es[0].now, es[0].nonce)
    {
      assert rest[i] == es[i + 1];
    }
  }

  /** What one call adds to what the key remembers. */
  lemma CallRemembers(l: Limit, k: Key, es: seq<Event>)
    requires Usable(l) && (k.Live? ==> k.value.Log?) && es != [] && es[0].Call?
    requires WithinWindow(l.window, es) && Entry(es[0].now, es[0].nonce) !in EntriesOf(k)
    requires |EntriesOf(k)| <= l.rate
    ensures
      var (k', r) := SlidingScript(l, k, es[0].now, es[0].nonce);
      && |EntriesOf(k')| <= l.rate
      && Remembered(l, k', es[1..]) >= Remembered(l, k, es) + (if r.allowed then 1 else 0)
  {
    hide ZRemUpTo, ZAdd, WithinWindow, Survives, SlidingScript;
    var now, rest := es[0].now, es[1..];
    var e := Entry(now, es[0].nonce);
    var kept := ZRemUpTo(EntriesOf(k), now - l.window);
    ZRemOnlyRemoves(EntriesOf(k), now - l.window);
    TrimKeepsSurvivors(EntriesOf(k), l.window, es);
    NewEntrySurvives(l.window, es);
    AddedSurvives(kept, e, l.window, rest);
    DeadlineOutlastsWindow(l, now, rest);
    CallLog(l, k, now, es[0].nonce);
  }

  lemma NewEntrySurvives(window: int, es: seq<Event>)
    requires es != [] && es[0].Call? && WithinWindow(window, es)
    ensures Survives(Entry(es[0].now, es[0].nonce), window, es[1..])
    ensures forall i :: 0 <= i < |es[1..]| ==> es[1..][i].now - es[0].now < window
  {
    assert forall i :: 0 <= i < |es[1..]| ==> es[1..][i] == es[i + 1];
  }

  lemma DeadlineOutlastsWindow(l: Limit, now: int, es: seq<Event>)
    requires Usable(l) && forall i :: 0 <= i < |es| ==> es[i].now - now < l.window
    ensures NeverDue(Millis(now) + CeilMillis(l.window), es)
  {
  }

  lemma {:induction false} SlidingAdmits(l: Limit, k: Key, es: seq<Event>)
    requires Usable(l) && l.algorithm == ALGO_SLIDING_WINDOW && Fits(l, k)
    requires WithinWindow(l.window, es) && FreshNonces(EntriesOf(k), es)
    requires |EntriesOf(k)| <= l.rate
    ensures Admitted(l, k, es) + Remembered(l, k, es) <= l.rate
    decreases |es|
  {
    if es != [] {
      if es[0].Call? {
        CallRemembers(l, k, es);
        CallKeepsFresh(l, k, es);
        CallLog(l, k, es[0].now, es[0].nonce);
      } else {
        VanishRemembers(l, k, es);
      }
      SlidingAdmits(l, Transition(l, k, es[0]), es[1..]);
    }
  }

  lemma VanishRemembers(l: Limit, k: Key, es: seq<Event>)
    requires Usable(l) && Fits(l, k) && (k.Live? ==> k.value.Log?) && es != [] && es[0].Vanish?
    ensures Remembered(l, k, es) <= Remembered(l, Transition(l, k, es[0]), es[1..])
  {
    SurvivorsShrink(EntriesOf(k), l.window, es);
    if k.Live? && NeverDue(k.deadline, es) {
      assert forall i :: 0 <= i < |es[1..]| ==> es[1..][i] == es[i + 1];
      assert NeverDue(k.deadline, es[1..]);
    }
  }

  /**
   * If TIME only ever steps back relative to true time, any stretch shorter than a window of
   * true time admits at most Rate, whether or not the key expires on the way.
   */
  lemma SlidingNeverExceedsQuota(l: Limit, k: Key, es: seq<Event>)
    requires Usable(l) && l.algorithm == ALGO_SLIDING_WINDOW && Fits(l, k)
    requires NeverFast(es) && FreshNonces(EntriesOf(k), es) && |EntriesOf(k)| <= l.rate
    requires es != [] ==> es[|es| - 1].at - es[0].at < l.window
    ensures Admitted(l, k, es) <= l.rate
  {
    forall i, j | 0 <= i < j < |es| ensures es[j].now - es[i].now < l.window {
      assert es[i].at >= es[0].at && es[j].at <= es[|es| - 1].at;
    }
    SlidingAdmits(l, k, es);
  }

  /**
   * The nonces matter: a call whose entry is already in the zset is admitted without being
   * counted, and only such a call is.
   */
  lemma CountedIffFresh(l: Limit, k: Key, now: int, nonce: nat)
    requires Usable(l) && (k.Live? ==> k.value.Log?)
    requires SlidingScript(l, k, now, nonce).1.allowed && Sorted(EntriesOf(k))
    ensures
      var kept := ZRemUpTo(EntriesOf(k), now - l.window);
      |EntriesOf(SlidingScript(l, k, now, nonce).0)| == |kept| + 1 <==> Entry(now, nonce) !in EntriesOf(k)
  {
    var e, cutoff := Entry(now, nonce), now - l.window;
    CallLog(l, k, now, nonce);
    if e in EntriesOf(k) {
      TrimmedHasEntry(EntriesOf(k), cutoff, e);
    } else {
      ZRemOnlyRemoves(EntriesOf(k), cutoff);
      AddedSurvives(ZRemUpTo(EntriesOf(k), cutoff), e, l.window, []);
    }
  }

  lemma TrimmedHasEntry(z: seq<Entry>, max: int, e: Entry)
    requires Sorted(z) && e in z && e.score > max
    ensures ZAdd(ZRemUpTo(z, max), e) == ZRemUpTo(z, max)
  {
    ZRemKeepsRecent(z, max, e);
    ZRemSorted(z, max);
    ZAddExisting(ZRemUpTo(z, max), e);
  }

  /** The order a zset keeps: by score, ties by member, no member twice. */
  ghost predicate Sorted(z: seq<Entry>) {
    forall i, j :: 0 <= i < j < |z| ==> Before(z[i], z[j])
  }

  lemma {:induction false} ZRemKeepsRecent(z: seq<Entry>, max: int, e: Entry)
    requires e in z && e.score > max
    ensures e in ZRemUpTo(z, max)
  {
    if z[0] != e {
      ZRemKeepsRecent(z[1..], max, e);
    }
  }

  lemma {:induction false} ZRemSorted(z: seq<Entry>, max: int)
    requires Sorted(z)
    ensures Sorted(ZRemUpTo(z, max))
  {
    if z != [] {
      ZRemSorted(z[1..], max);
      var rest := ZRemUpTo(z[1..], max);
      ZRemOnlyRemoves(z[1..], max);
      forall j | 0 <= j < |rest| ensures Before(z[0], rest[j]) {
        assert rest[j] in z[1..];
      }
    }
  }

  lemma {:induction false} ZAddExisting(z: seq<Entry>, e: Entry)
    requires Sorted(z) && e in z
    ensures ZAdd(z, e) == z
  {
    if z[0] != e {
      var i :| 0 < i < |z| && z[i] == e;
      assert Before(z[0], z[i]);
      ZAddExisting(z[1..], e);
    }
  }

  // ---- What a step back does to the reply ----

  /** Every reading of the run is at most `top`. */
  ghost predicate ReadAtMost(top: int, es: seq<Event>) {
    forall i :: 0 <= i < |es| ==> es[i].now <= top
  }

  lemma {:induction false} ScoresStayAtMost(l: Limit, k: Key, top: int, es: seq<Event>)
    requires Usable(l) && l.algorithm == ALGO_SLIDING_WINDOW && Fits(l, k)
    requires RedisExpiry.ScoresAtMost(EntriesOf(k), top) && ReadAtMost(top, es)
    ensures RedisExpiry.ScoresAtMost(EntriesOf(After(l, k, es)), top)
    decreases |es|
  {
    hide SlidingScript, RedisExpiry.ScoresAtMost;
    if es != [] {
      var e := es[0];
      assert forall i :: 0 <= i < |es[1..]| ==> es[1..][i] == es[i + 1];
      if e.Call? { CallScoresAtMost(l, k, top, e.now, e.nonce); } else { NoScores(top); }
      ScoresStayAtMost(l, Transition(l, k, e), top, es[1..]);
    }
  }

  lemma NoScores(top: int)
    ensures RedisExpiry.ScoresAtMost([], top)
  {
  }

  lemma CallScoresAtMost(l: Limit, k: Key, top: int, now: int, nonce: nat)
    requires Usable(l) && (k.Live? ==> k.value.Log?) && now <= top
    requires RedisExpiry.ScoresAtMost(EntriesOf(k), top)
    ensures RedisExpiry.ScoresAtMost(LogAfter(l, k, now, nonce), top)
    ensures EntriesOf(SlidingScript(l, k, now, nonce).0) == LogAfter(l, k, now, nonce)
  {
    CallLog(l, k, now, nonce);
    RedisExpiry.ZRemKeeps(EntriesOf(k), now - l.window, top);
    RedisExpiry.ZAddKeeps(ZRemUpTo(EntriesOf(k), now - l.window), Entry(now, nonce), top);
  }

  /**
   * On any clock, after any run, a call's reset is no further ahead than a window, and its
   * retry_after no longer than one, plus how far TIME is behind its highest reading so far.
   */
  lemma InflatedByAtMostTheStep(l: Limit, es: seq<Event>, top: int, now: int, nonce: nat)
    requires Usable(l) && l.algorithm == ALGO_SLIDING_WINDOW
    requires ReadAtMost(top, es) && now <= top
    ensures
      var r := Script(l, After(l, Missing, es), now, nonce).1;
      && r.reset <= now + l.window + (top - now)
      && r.retryAfter <= l.window + (top - now)
      && (!r.allowed ==> r.retryAfter > 0 && r.reset > now)
  {
    hide After;
    ScoresStayAtMost(l, Missing, top, es);
    var k := After(l, Missing, es);
    var kept := ZRemUpTo(EntriesOf(k), now - l.window);
    CallScoresAtMost(l, k, top, now, nonce);
    CallLog(l, k, now, nonce);
    RedisExpiry.ZRemKeeps(EntriesOf(k), now - l.window, top);
  }

  // ---- The ends of the zset ----

  /** Adding keeps the zset in order, whatever the new entry's score. */
  lemma {:induction false} ZAddSorted(z: seq<Entry>, e: Entry)
    requires Sorted(z) && e !in z
    ensures Sorted(ZAdd(z, e))
    decreases |z|
  {
    if z != [] {
      if Before(e, z[0]) {
        FirstInOrder(e, z);
      } else {
        var rest := z[1..];
        SortedRest(z);
        ZAddSorted(rest, e);
        ZAddOnlyAdds(rest, e);
        forall x | x in ZAdd(rest, e) ensures Before(z[0], x) {
          if x in rest { InRest(z, x); }
        }
        HeadInOrder(z[0], ZAdd(rest, e));
      }
    }
  }

  lemma FirstInOrder(e: Entry, z: seq<Entry>)
    requires Sorted(z) && z != [] && Before(e, z[0])
    ensures Sorted([e] + z)
  {
    assert forall i :: 0 < i < |z| ==> Before(z[0], z[i]);
  }

  lemma SortedRest(z: seq<Entry>)
    requires Sorted(z) && z != []
    ensures Sorted(z[1..])
  {
  }

  lemma InRest(z: seq<Entry>, x: Entry)
    requires Sorted(z) && z != [] && x in z[1..]
    ensures Before(z[0], x)
  {
    var i :| 0 <= i < |z[1..]| && z[1..][i] == x;
    assert z[i + 1] == x;
  }

  lemma HeadInOrder(e: Entry, z: seq<Entry>)
    requires Sorted(z) && forall x :: x in z ==> Before(e, x)
    ensures Sorted([e] + z)
  {
    assert forall i :: 0 <= i < |z| ==> z[i] in z;
  }

  /** A call keeps the zset in order, on any clock. */
  lemma CallKeepsSorted(l: Limit, k: Key, now: int, nonce: nat)
    requires Usable(l) && (k.Live? ==> k.value.Log?)
    requires Sorted(EntriesOf(k)) && Entry(now, nonce) !in EntriesOf(k)
    ensures Sorted(EntriesOf(SlidingScript(l, k, now, nonce).0))
  {
    CallLog(l, k, now, nonce);
    ZRemSorted(EntriesOf(k), now - l.window);
    ZRemOnlyRemoves(EntriesOf(k), now - l.window);
    ZAddSorted(ZRemUpTo(EntriesOf(k), now - l.window), Entry(now, nonce));
  }

  ghost predicate Newest(z: seq<Entry>, score: int) {
    (exists e :: e in z && e.score == score) && forall e :: e in z ==> e.score <= score
  }

  ghost predicate Oldest(z: seq<Entry>, score: int) {
    (exists e :: e in z && e.score == score) && forall e :: e in z ==> score <= e.score
  }

  lemma EndsAreExtremes(z: seq<Entry>)
    requires Sorted(z) && z != []
    ensures Newest(z, z[|z| - 1].score) && Oldest(z, z[0].score)
  {
    forall e | e in z ensures z[0].score <= e.score <= z[|z| - 1].score {
      var i :| 0 <= i < |z| && z[i] == e;
      assert i > 0 ==> Before(z[0], z[i]);
      assert i < |z| - 1 ==> Before(z[i], z[|z| - 1]);
    }
    assert z[0] in z && z[|z| - 1] in z;
  }

  /**
   * On any clock, reset is a window past the newest entry counted and, on a denial, retry_after
   * runs to a window past the oldest; remaining is what the entries counted leave of Rate.
   */
  lemma RepliesReadTheEnds(l: Limit, k: Key, now: int, nonce: nat)
    requires Usable(l) && (k.Live? ==> k.value.Log?) && |EntriesOf(k)| <= l.rate
    requires Sorted(EntriesOf(k)) && Entry(now, nonce) !in EntriesOf(k)
    ensures
      var (k', r) := SlidingScript(l, k, now, nonce);
      var z := EntriesOf(k');
      && Newest(z, r.reset - l.window)
      && (if r.allowed then r.retryAfter == 0 else Oldest(z, now + r.retryAfter - l.window))
      && r.remaining == l.rate - |z|
  {
    hide Sorted, Newest, Oldest, SlidingScript, EntriesOf, Before;
    CallKeepsSorted(l, k, now, nonce);
    ReplyFromEnds(l, k, now, nonce);
    EndsAreExtremes(EntriesOf(SlidingScript(l, k, now, nonce).0));
  }

  lemma ReplyFromEnds(l: Limit, k: Key, now: int, nonce: nat)
    requires Usable(l) && (k.Live? ==> k.value.Log?) && |EntriesOf(k)| <= l.rate
    requires Entry(now, nonce) !in EntriesOf(k)
    ensures
      var (k', r) := SlidingScript(l, k, now, nonce);
      && k'.Live? && k'.value.Log?
      && var z := EntriesOf(k');
      && z != [] && r.reset == z[|z| - 1].score + l.window
      && r.retryAfter == (if r.allowed then 0 else z[0].score + l.window - now)
      && r.remaining == l.rate - |z|
  {
    hide ZRemUpTo, ZAdd;
    CallLog(l, k, now, nonce);
    ZRemOnlyRemoves(EntriesOf(k), now - l.window);
    AddedSurvives(ZRemUpTo(EntriesOf(k), now - l.window), Entry(now, nonce), l.window, []);
  }
}
