/**
 * fixed_window.lua when TIME may step back. The stored window is kept across a step back, but an
 * expired key remembers nothing. What decides is one event: a call that finds its key expired
 * and reads in, or before, the window the key held. Expiry shows exactly in the runs that have
 * one, and runs without one keep the quota of every interval.
 */
module RedisFixedBounds {
  import opened Limits
  import opened RedisScripts
  import opened FixedBounds
  import FixedWindow
  import Buckets
  import RedisExpiry

  /** What the script writes: a window some call was admitted in, kept at least to its end. */
  ghost predicate SoundWindow(l: Limit, k: Key)
    requires Usable(l)
  {
    k.Live? ==>
      && k.value.Window? && 1 <= k.value.count <= l.rate
      && k.value.ws + l.window <= 1000 * k.deadline
  }

  /**
   * How many calls find the key expired and read in or before the window it held. `gone` is the
   * window of the key that expired since the last call, if one did.
   */
  function Reopenings(l: Limit, k: Key, gone: Option<int>, es: seq<Event>): nat
    requires Usable(l) && l.algorithm == ALGO_FIXED_WINDOW && Fits(l, k)
    decreases |es|
  {
    if es == [] then 0
    else if es[0].Vanish? then
      if MayVanish(k, es[0].now) then Reopenings(l, Missing, Some(k.value.ws), es[1..])
      else Reopenings(l, k, gone, es[1..])
    else
      Buckets.One(k.Missing? && gone.Some? && FixedWindow.Truncate(es[0].now, l.window) <= gone.value)
      + Reopenings(l, Transition(l, k, es[0]), None, es[1..])
  }

  predicate Reopens(l: Limit, k: Key, gone: Option<int>, es: seq<Event>)
    requires Usable(l) && l.algorithm == ALGO_FIXED_WINDOW && Fits(l, k)
  {
    Reopenings(l, k, gone, es) > 0
  }

  ghost predicate CellsAtMost(window: int, top: int, es: seq<Event>)
    requires window > 0
  {
    forall i :: 0 <= i < |es| ==> Cell(es[i].now, window) <= top
  }

  lemma CellOfGrid(now: int, window: int)
    requires window > 0
    ensures Cell(FixedWindow.Truncate(now, window), window) == Cell(now, window)
  {
    FixedWindow.DivModUnique(FixedWindow.Truncate(now, window), window, now / window, 0);
  }

  lemma LaterGridLaterCell(ws: int, now: int, window: int)
    requires window > 0 && ws < FixedWindow.Truncate(now, window)
    ensures Cell(ws, window) < Cell(now, window)
  {
    CellOfGrid(now, window);
    SameCell(ws, FixedWindow.Truncate(now, window), window);
    FixedWindow.DivModUnique(FixedWindow.Truncate(now, window), window, now / window, 0);
    assert FixedWindow.Truncate(FixedWindow.Truncate(now, window), window) == FixedWindow.Truncate(now, window);
  }

  lemma DeadlineAhead(l: Limit, ws: int, now: int)
    requires Usable(l) && now < ws + l.window
    ensures CeilMillis(ws + l.window) > Millis(now)
    ensures ws + l.window <= 1000 * CeilMillis(ws + l.window)
  {
  }

  /** The first cell not used up: the stored one, or the one after an expired one. */
  function Potential(l: Limit, k: Key, gone: Option<int>, top: int): int
    requires Usable(l) && (k.Live? ==> k.value.Window?)
  {
    if k.Live? then l.rate - k.value.count + Quotas(l.rate, top - Cell(k.value.ws, l.window))
    else if gone.Some? then Quotas(l.rate, top - Cell(gone.value, l.window))
    else Quotas(l.rate, top)
  }

  /** What a call makes of the key: a live, sound window at or after the one it reads. */
  lemma CallKeepsSound(l: Limit, k: Key, now: int)
    requires Usable(l) && SoundWindow(l, k) && (k.Live? ==> k.value.Window?)
    ensures
      var (k', r) := FixedScript(l, k, now);
      && SoundWindow(l, k') && k'.Live? && k'.value.Window?
      && k'.value.ws >= FixedWindow.Truncate(now, l.window)
      && Buckets.One(r.allowed) + (l.rate - k'.value.count) <= l.rate
  {
    DeadlineAhead(l, FixedWindow.Truncate(now, l.window), now);
    if k.Live? && k.value.ws >= FixedWindow.Truncate(now, l.window) {
      DeadlineAhead(l, k.value.ws, now);
    }
  }

  /** A call that does not reopen a window uses up the potential it admits. */
  lemma CallUses(l: Limit, k: Key, gone: Option<int>, top: int, now: int)
    requires Usable(l) && SoundWindow(l, k) && (k.Live? ==> k.value.Window?)
    requires k.Live? || (gone.Some? && FixedWindow.Truncate(now, l.window) > gone.value)
    requires Cell(now, l.window) <= top
    ensures
      var (k', r) := FixedScript(l, k, now);
      && k'.Live? && k'.value.Window?
      && Potential(l, k', None, top) + Buckets.One(r.allowed) <= Potential(l, k, gone, top)
      && (k.Missing? || Cell(k.value.ws, l.window) <= top ==> Cell(k'.value.ws, l.window) <= top)
  {
    hide Quotas, Cell;
    CallKeepsSound(l, k, now);
    CellOfGrid(now, l.window);
    var grid := FixedWindow.Truncate(now, l.window);
    if k.Missing? || k.value.ws < grid {
      DeadlineAhead(l, grid, now);
      var ws := if k.Missing? then gone.value else k.value.ws;
      LaterGridLaterCell(ws, now, l.window);
      MoreCells(l.rate, top - Cell(now, l.window), top - Cell(ws, l.window));
    } else {
      DeadlineAhead(l, k.value.ws, now);
    }
  }

  /** The last used-up cell of a key that is or was live is at most `top`. */
  predicate UsedAtMost(l: Limit, k: Key, gone: Option<int>, top: int)
    requires Usable(l) && (k.Live? ==> k.value.Window?)
  {
    if k.Live? then Cell(k.value.ws, l.window) <= top else gone.Some? && Cell(gone.value, l.window) <= top
  }

  lemma {:induction false} AdmitsPotential(l: Limit, k: Key, gone: Option<int>, top: int, es: seq<Event>)
    requires Usable(l) && l.algorithm == ALGO_FIXED_WINDOW && Fits(l, k) && SoundWindow(l, k)
    requires CellsAtMost(l.window, top, es) && UsedAtMost(l, k, gone, top) && !Reopens(l, k, gone, es)
    ensures Admitted(l, k, es) <= Potential(l, k, gone, top)
    decreases |es|
  {
    hide Quotas, Cell, Potential, FixedScript, SoundWindow;
    if es == [] {
      PotentialNotNegative(l, k, gone, top);
    } else {
      var e, rest := es[0], es[1..];
      assert forall i :: 0 <= i < |rest| ==> rest[i] == es[i + 1];
      if e.Call? {
        CallKeepsSound(l, k, e.now);
        CallUses(l, k, gone, top, e.now);
        AdmitsPotential(l, Transition(l, k, e), None, top, rest);
      } else if MayVanish(k, e.now) {
        MissingIsSound(l);
        AdmitsPotential(l, Missing, Some(k.value.ws), top, rest);
        VanishUses(l, k, gone, top);
      } else {
        AdmitsPotential(l, k, gone, top, rest);
      }
    }
  }

  /** An expired key leaves nothing of its own cell. */
  lemma VanishUses(l: Limit, k: Key, gone: Option<int>, top: int)
    requires Usable(l) && SoundWindow(l, k) && k.Live?
    ensures Potential(l, Missing, Some(k.value.ws), top) <= Potential(l, k, gone, top)
  {
  }

  lemma PotentialNotNegative(l: Limit, k: Key, gone: Option<int>, top: int)
    requires Usable(l) && SoundWindow(l, k) && (k.Live? ==> k.value.Window?) && UsedAtMost(l, k, gone, top)
    ensures Potential(l, k, gone, top) >= 0
  {
    MoreCells(l.rate, 0, top - Cell(if k.Live? then k.value.ws else gone.value, l.window));
  }

  lemma MissingIsSound(l: Limit)
    requires Usable(l)
    ensures SoundWindow(l, Missing)
  {
  }

  /** A stretch that begins with a call and ends at most `spare` cells later. */
  lemma AtMostFromCall(l: Limit, k: Key, e: Event, es: seq<Event>, spare: nat)
    requires Usable(l) && l.algorithm == ALGO_FIXED_WINDOW && Fits(l, k) && SoundWindow(l, k)
    requires e.Call? && !Reopens(l, k, None, [e] + es)
    requires CellsAtMost(l.window, Cell(e.now, l.window) + spare, es)
    ensures
      var (k', r) := FixedScript(l, k, e.now);
      && Fits(l, k')
      && Buckets.One(r.allowed) + Admitted(l, k', es) <= Quotas(l.rate, spare + 1)
  {
    hide Quotas, Cell, Reopenings, FixedScript, SoundWindow, Admitted;
    var cell := Cell(e.now, l.window);
    CallKeepsSound(l, k, e.now);
    var k' := FixedScript(l, k, e.now).0;
    assert ([e] + es)[1..] == es;
    TailReopensNoMore(l, k, [e] + es);
    SameCell(FixedWindow.Truncate(e.now, l.window), k'.value.ws, l.window);
    CellOfGrid(e.now, l.window);
    var stored := Cell(k'.value.ws, l.window);
    var top := if stored > cell + spare then stored else cell + spare;
    AdmitsPotential(l, k', None, top, es);
    MoreCells(l.rate, top - stored, spare);
    OneMoreCell(l.rate, spare);
  }

  /** Forgetting which window expired cannot make a run reopen more. */
  lemma {:induction false} ForgetGone(l: Limit, k: Key, gone: Option<int>, es: seq<Event>)
    requires Usable(l) && l.algorithm == ALGO_FIXED_WINDOW && Fits(l, k)
    ensures Reopenings(l, k, None, es) <= Reopenings(l, k, gone, es)
    decreases |es|
  {
    if es != [] && es[0].Vanish? && !MayVanish(k, es[0].now) {
      ForgetGone(l, k, gone, es[1..]);
    }
  }

  lemma TailReopensNoMore(l: Limit, k: Key, es: seq<Event>)
    requires Usable(l) && l.algorithm == ALGO_FIXED_WINDOW && Fits(l, k) && es != []
    ensures Reopenings(l, Transition(l, k, es[0]), None, es[1..]) <= Reopenings(l, k, None, es)
  {
    if es[0].Vanish? && MayVanish(k, es[0].now) {
      ForgetGone(l, Missing, Some(k.value.ws), es[1..]);
    }
  }

  lemma {:induction false} PrefixReopensNoMore(l: Limit, k: Key, gone: Option<int>, a: seq<Event>, b: seq<Event>)
    requires Usable(l) && l.algorithm == ALGO_FIXED_WINDOW && Fits(l, k)
    ensures Reopenings(l, k, gone, a) <= Reopenings(l, k, gone, a + b)
    decreases |a|
  {
    if a != [] {
      assert (a + b)[1..] == a[1..] + b && (a + b)[0] == a[0];
      if a[0].Vanish? {
        if MayVanish(k, a[0].now) {
          PrefixReopensNoMore(l, Missing, Some(k.value.ws), a[1..], b);
        } else {
          PrefixReopensNoMore(l, k, gone, a[1..], b);
        }
      } else {
        PrefixReopensNoMore(l, Transition(l, k, a[0]), None, a[1..], b);
      }
    }
  }

  /**
   * Any stretch of `d` microseconds of true time admits at most (d / window + 2) * Rate, if TIME
   * never runs fast and no call reopens a window.
   */
  lemma {:induction false} AtMostPerInterval(l: Limit, k: Key, es: seq<Event>)
    requires Usable(l) && l.algorithm == ALGO_FIXED_WINDOW && Fits(l, k) && SoundWindow(l, k)
    requires NeverFast(es) && !Reopens(l, k, None, es) && es != []
    ensures Admitted(l, k, es) <= Quotas(l.rate, (es[|es| - 1].at - es[0].at) / l.window + 2)
    decreases |es|
  {
    hide Quotas, FixedScript, Reopenings;
    var e, rest := es[0], es[1..];
    var d := es[|es| - 1].at - e.at;
    EventsTail(es);
    if e.Call? {
      ReadingsInSpan(l, e, d, rest);
      assert [e] + rest == es;
      AtMostFromCall(l, k, e, rest, d / l.window + 1);
    } else if rest == [] {
      ShorterSpan(0, d, l.window);
      MoreCells(l.rate, 0, d / l.window + 2);
    } else {
      TailReopensNoMore(l, k, es);
      AtMostPerInterval(l, Transition(l, k, e), rest);
      ShorterSpan(es[|es| - 1].at - rest[0].at, d, l.window);
      MoreCells(l.rate, (es[|es| - 1].at - rest[0].at) / l.window + 2, d / l.window + 2);
    }
  }

  lemma EventsTail(es: seq<Event>)
    requires NeverFast(es) && es != []
    ensures NeverFast(es[1..])
    ensures es[|es| - 1].at >= es[0].at
    ensures |es| > 1 ==> es[0].at <= es[1].at <= es[|es| - 1].at
    ensures forall i :: 0 <= i < |es[1..]| ==> es[1..][i].now - es[0].now <= es[|es| - 1].at - es[0].at
  {
    assert forall i :: 0 <= i < |es[1..]| ==> es[1..][i] == es[i + 1];
    forall i | 0 <= i < |es[1..]|
      ensures es[1..][i].now - es[0].now <= es[|es| - 1].at - es[0].at
    {
      assert es[i + 1].at <= es[|es| - 1].at;
    }
  }

  lemma ShorterSpan(a: int, b: int, window: int)
    requires window > 0 && 0 <= a <= b
    ensures 0 <= a / window <= b / window
  {
    SameCell(a, b, window);
    SameCell(0, a, window);
  }

  lemma ReadingsInSpan(l: Limit, e: Event, d: int, es: seq<Event>)
    requires Usable(l) && d >= 0 && forall i :: 0 <= i < |es| ==> es[i].now - e.now <= d
    ensures CellsAtMost(l.window, Cell(e.now, l.window) + d / l.window + 1, es)
    ensures d / l.window >= 0
  {
    ShorterSpan(0, d, l.window);
    forall i | 0 <= i < |es| ensures Cell(es[i].now, l.window) <= Cell(e.now, l.window) + d / l.window + 1 {
      SameCell(es[i].now, e.now + d, l.window);
      if es[i].now < e.now { SameCell(es[i].now, e.now, l.window); }
      CellSum(e.now, d, l.window);
    }
  }

  lemma CellSum(a: int, d: int, window: int)
    requires window > 0
    ensures Cell(a + d, window) <= Cell(a, window) + d / window + 1
  {
    var r := a % window + d % window;
    var q := a / window + d / window;
    assert a + d == q * window + r;
    if r < window {
      FixedWindow.DivModUnique(a + d, window, q, r);
    } else {
      FixedWindow.DivModUnique(a + d, window, q + 1, r - window);
    }
  }

  // ---- A bound on every clock ----

  /** The run up to its first reopening call, and the run from there on, which starts a key afresh. */
  lemma {:induction false} SplitAtReopening(l: Limit, k: Key, gone: Option<int>, es: seq<Event>) returns (n: nat)
    requires Usable(l) && l.algorithm == ALGO_FIXED_WINDOW && Fits(l, k) && Reopens(l, k, gone, es)
    ensures n < |es| && !Reopens(l, k, gone, es[..n])
    ensures Admitted(l, k, es) == Admitted(l, k, es[..n]) + Admitted(l, Missing, es[n..])
    ensures Reopenings(l, k, gone, es) == 1 + Reopenings(l, Missing, None, es[n..])
    ensures gone.None? || k.Live? ==> n > 0
    decreases |es|
  {
    hide FixedScript;
    var e, rest := es[0], es[1..];
    if e.Call? && k.Missing? && gone.Some? && FixedWindow.Truncate(e.now, l.window) <= gone.value {
      n := 0;
      assert es[0..] == es && es[..0] == [];
    } else {
      var k', gone' := Transition(l, k, e), None;
      if e.Vanish? { gone' := if MayVanish(k, e.now) then Some(k.value.ws) else gone; }
      var m := SplitAtReopening(l, k', gone', rest);
      n := m + 1;
      assert es[..n] == [e] + rest[..m] && es[n..] == rest[m..];
      assert ([e] + rest[..m])[1..] == rest[..m];
    }
  }

  lemma SpansAdd(d1: int, d2: int, d: int, window: int)
    requires window > 0 && 0 <= d1 && 0 <= d2 && d1 + d2 <= d
    ensures 0 <= d1 / window && 0 <= d2 / window && d1 / window + d2 / window <= d / window
  {
    ShorterSpan(0, d1, window);
    ShorterSpan(0, d2, window);
    ShorterSpan(d1 + d2, d, window);
    var q, r := d1 / window + d2 / window, d1 % window + d2 % window;
    assert d1 + d2 == q * window + r;
    if r < window {
      FixedWindow.DivModUnique(d1 + d2, window, q, r);
    } else {
      FixedWindow.DivModUnique(d1 + d2, window, q + 1, r - window);
    }
  }

  lemma SplitIsOrdered(es: seq<Event>, n: nat)
    requires NeverFast(es) && 0 < n < |es|
    ensures NeverFast(es[..n]) && NeverFast(es[n..])
    ensures 0 <= es[n - 1].at - es[0].at && 0 <= es[|es| - 1].at - es[n].at
    ensures es[n - 1].at - es[0].at + (es[|es| - 1].at - es[n].at) <= es[|es| - 1].at - es[0].at
  {
  }

  /**
   * On every clock that never runs fast, expiry or not: d of true time admits at most
   * (d / window + 2) * Rate, and 2 * Rate more for every call that reopens a window.
   */
  lemma {:induction false} AtMostPerIntervalAndReopening(l: Limit, k: Key, es: seq<Event>)
    requires Usable(l) && l.algorithm == ALGO_FIXED_WINDOW && Fits(l, k) && SoundWindow(l, k)
    requires NeverFast(es) && es != []
    ensures Admitted(l, k, es)
            <= Quotas(l.rate, (es[|es| - 1].at - es[0].at) / l.window + 2 + 2 * Reopenings(l, k, None, es))
    decreases |es|
  {
    hide Quotas, FixedScript, Reopenings, SoundWindow, NeverFast;
    if !Reopens(l, k, None, es) {
      AtMostPerInterval(l, k, es);
    } else {
      var n := SplitAtReopening(l, k, None, es);
      var d1, d2 := es[n - 1].at - es[0].at, es[|es| - 1].at - es[n].at;
      var w, again := l.window, Reopenings(l, Missing, None, es[n..]);
      SplitIsOrdered(es, n);
      AtMostPerInterval(l, k, es[..n]);
      MissingIsSound(l);
      AtMostPerIntervalAndReopening(l, Missing, es[n..]);
      CellsAdd(l.rate, w, d1, d2, es[|es| - 1].at - es[0].at, again);
    }
  }

  lemma CellsAdd(rate: int, w: int, d1: int, d2: int, d: int, again: nat)
    requires rate > 0 && w > 0 && 0 <= d1 && 0 <= d2 && d1 + d2 <= d
    ensures Quotas(rate, d1 / w + 2) + Quotas(rate, d2 / w + 2 + 2 * again)
            <= Quotas(rate, d / w + 2 + 2 * (1 + again))
  {
    hide Quotas;
    SpansAdd(d1, d2, d, w);
    QuotasAdd(rate, d1 / w + 2, d2 / w + 2 + 2 * again);
    MoreCells(rate, d1 / w + 2 + (d2 / w + 2 + 2 * again), d / w + 2 + 2 * (1 + again));
  }

  lemma QuotasAdd(rate: int, m: int, n: int)
    ensures Quotas(rate, m + n) == Quotas(rate, m) + Quotas(rate, n)
  {
  }

  // ---- Exactly when expiry shows ----

  /** A new key shows in the reply exactly when the call reads in or before the window stored. */
  lemma GoneShowsIff(l: Limit, k: Key, now: int)
    requires Usable(l) && SoundWindow(l, k) && k.Live?
    ensures FixedScript(l, Missing, now).1 == FixedScript(l, k, now).1
            <==> FixedWindow.Truncate(now, l.window) > k.value.ws
    ensures FixedWindow.Truncate(now, l.window) > k.value.ws ==>
              FixedScript(l, Missing, now) == FixedScript(l, k, now)
  {
  }

  /**
   * A used window, read in it or before it: the reply after a chance to expire is the reply the
   * kept window gives if and only if the key was not due; and when due, TIME had passed its end.
   */
  lemma KeptWindowAnswersIff(l: Limit, k: Key, at: int, read: int, now: int, nonce: nat)
    requires Usable(l) && l.algorithm == ALGO_FIXED_WINDOW && Fits(l, k) && k.Live? && SoundWindow(l, k)
    requires FixedWindow.Truncate(now, l.window) <= k.value.ws
    ensures
      var k' := Transition(l, k, Vanish(at, read));
      && (Script(l, k', now, nonce).1 == Script(l, k, now, nonce).1 <==> !MayVanish(k, read))
      && (MayVanish(k, read) ==> read > k.value.ws + l.window)
  {
    GoneShowsIff(l, k, now);
  }

  /** The key may have expired in `k1` where `k2`, which never expires, still holds the window. */
  ghost predicate Twins(l: Limit, k1: Key, k2: Key, gone: Option<int>)
    requires Usable(l)
  {
    && Fits(l, k1) && Fits(l, k2) && SoundWindow(l, k2)
    && (if k1 == k2 then k1.Missing? ==> gone.None?
        else k1.Missing? && k2.Live? && gone == Some(k2.value.ws))
  }

  lemma {:induction false} TwinsReplyAlikeIff(l: Limit, k1: Key, k2: Key, gone: Option<int>, es: seq<Event>)
    requires Usable(l) && l.algorithm == ALGO_FIXED_WINDOW && Twins(l, k1, k2, gone)
    ensures Replies(l, k1, es) == Replies(l, k2, RedisExpiry.CallsOnly(es)) <==> !Reopens(l, k1, gone, es)
    decreases |es|
  {
    hide FixedScript;
    if es != [] {
      var e, rest := es[0], es[1..];
      if e.Vanish? {
        if MayVanish(k1, e.now) {
          TwinsReplyAlikeIff(l, Missing, k2, Some(k1.value.ws), rest);
        } else {
          TwinsReplyAlikeIff(l, k1, k2, gone, rest);
        }
      } else {
        CallKeepsSound(l, k2, e.now);
        if k1 != k2 { GoneShowsIff(l, k2, e.now); }
        FirstReply(l, k1, es);
        FirstReply(l, k2, [e] + RedisExpiry.CallsOnly(rest));
        if Script(l, k1, e.now, e.nonce) == Script(l, k2, e.now, e.nonce) {
          TwinsReplyAlikeIff(l, Transition(l, k1, e), Transition(l, k2, e), None, rest);
        }
      }
    }
  }

  lemma FirstReply(l: Limit, k: Key, es: seq<Event>)
    requires Usable(l) && Fits(l, k) && es != [] && es[0].Call?
    ensures Replies(l, k, es) != []
    ensures Replies(l, k, es)[0] == Script(l, k, es[0].now, es[0].nonce).1
    ensures Replies(l, k, es)[1..] == Replies(l, Transition(l, k, es[0]), es[1..])
  {
  }

  /**
   * On any clock, a run of fixed_window.lua gets the replies of a key that never expires if and
   * only if no call reopens a window.
   */
  lemma ExpiryIsInvisibleIff(l: Limit, es: seq<Event>)
    requires Usable(l) && l.algorithm == ALGO_FIXED_WINDOW
    ensures Replies(l, Missing, es) == Replies(l, Missing, RedisExpiry.CallsOnly(es))
            <==> !Reopens(l, Missing, None, es)
  {
    TwinsReplyAlikeIff(l, Missing, Missing, None, es);
  }

  /** The clock the script's comment has in mind never reopens a window. */
  lemma {:induction false} SteadyClockReopensNothing(l: Limit, k: Key, gone: Option<int>, es: seq<Event>)
    requires Usable(l) && l.algorithm == ALGO_FIXED_WINDOW && Fits(l, k) && SoundWindow(l, k)
    requires NoStepBackPastVanish(es)
    requires gone.Some? ==> forall i :: 0 <= i < |es| ==> es[i].now >= gone.value + l.window
    ensures !Reopens(l, k, gone, es)
    decreases |es|
  {
    hide SoundWindow, FixedScript;
    if es != [] {
      var e, rest := es[0], es[1..];
      assert forall i :: 0 <= i < |rest| ==> rest[i] == es[i + 1];
      if e.Call? {
        CallKeepsSound(l, k, e.now);
        if gone.Some? { GridPassed(gone.value, e.now, l.window); }
        SteadyClockReopensNothing(l, Transition(l, k, e), None, rest);
      } else if MayVanish(k, e.now) {
        DuePastEnd(l, k, e.now);
        SteadyClockReopensNothing(l, Missing, Some(k.value.ws), rest);
      } else {
        SteadyClockReopensNothing(l, k, gone, rest);
      }
    }
  }

  /** Every reading after an expiry is at or after the reading at which the key expired. */
  ghost predicate NoStepBackPastVanish(es: seq<Event>) {
    forall i, j :: 0 <= i < j < |es| && es[i].Vanish? ==> es[i].now <= es[j].now
  }

  lemma DuePastEnd(l: Limit, k: Key, now: int)
    requires Usable(l) && SoundWindow(l, k) && MayVanish(k, now)
    ensures k.value.Window? && now > k.value.ws + l.window && SoundWindow(l, Missing)
  {
  }

  lemma GridPassed(ws: int, now: int, window: int)
    requires window > 0 && now >= ws + window
    ensures FixedWindow.Truncate(now, window) > ws
  {
  }

  /** While the key lives, the script is the bucket that keeps the newer window. */
  lemma LiveKeyKeepsNewerWindow(l: Limit, k: Key, now: int)
    requires Usable(l) && SoundWindow(l, k) && k.Live?
    ensures
      var (k', r) := FixedScript(l, k, now);
      var (w, c, dec) := NextKeepingNewer(l, k.value.ws, k.value.count, now);
      && k'.Live? && k'.value == Window(w, c)
      && r == Reply(dec.allowed, dec.remaining, dec.reset, dec.retryAfter)
  {
    DeadlineAhead(l, FixedWindow.Truncate(now, l.window), now);
    if k.value.ws >= FixedWindow.Truncate(now, l.window) {
      DeadlineAhead(l, k.value.ws, now);
    }
  }

  // ---- A full window ----

  ghost predicate ExpiresBeforeCall(k: Key, es: seq<Event>) {
    exists i, j :: 0 <= i < j < |es| && es[i].Vanish? && MayVanish(k, es[i].now) && es[j].Call?
  }

  ghost predicate CallsReadAtMost(l: Limit, ws: int, es: seq<Event>)
    requires Usable(l)
  {
    forall i :: 0 <= i < |es| && es[i].Call? ==> FixedWindow.Truncate(es[i].now, l.window) <= ws
  }

  /**
   * A full window admits again in a run whose calls read in it or before it, if and only if its
   * key expires before one of them.
   */
  lemma {:induction false} FullWindowReopensIffExpired(l: Limit, k: Key, es: seq<Event>)
    requires Usable(l) && l.algorithm == ALGO_FIXED_WINDOW && Fits(l, k) && k.Live?
    requires k.value.count == l.rate && CallsReadAtMost(l, k.value.ws, es)
    ensures Admitted(l, k, es) > 0 <==> ExpiresBeforeCall(k, es)
    decreases |es|
  {
    if es != [] {
      var e, rest := es[0], es[1..];
      assert forall i :: 0 <= i < |rest| ==> rest[i] == es[i + 1];
      ExpiresTail(k, es);
      if e.Vanish? && MayVanish(k, e.now) {
        NewKeyAdmitsIff(l, rest);
      } else {
        FullWindowReopensIffExpired(l, k, rest);
      }
    }
  }

  lemma ExpiresTail(k: Key, es: seq<Event>)
    requires es != []
    ensures ExpiresBeforeCall(k, es) <==>
      ExpiresBeforeCall(k, es[1..]) || (es[0].Vanish? && MayVanish(k, es[0].now) && HasCall(es[1..]))
  {
    var rest := es[1..];
    assert forall i :: 0 <= i < |rest| ==> rest[i] == es[i + 1];
    if ExpiresBeforeCall(k, es) {
      var i, j :| 0 <= i < j < |es| && es[i].Vanish? && MayVanish(k, es[i].now) && es[j].Call?;
      assert rest[j - 1].Call?;
      if i > 0 { assert rest[i - 1].Vanish?; }
    }
    if ExpiresBeforeCall(k, rest) {
      var i, j :| 0 <= i < j < |rest| && rest[i].Vanish? && MayVanish(k, rest[i].now) && rest[j].Call?;
      assert es[i + 1].Vanish? && es[j + 1].Call?;
    }
    if es[0].Vanish? && MayVanish(k, es[0].now) && HasCall(rest) {
      var j :| 0 <= j < |rest| && rest[j].Call?;
      assert es[j + 1].Call?;
    }
  }

  ghost predicate HasCall(es: seq<Event>) {
    exists j :: 0 <= j < |es| && es[j].Call?
  }

  lemma {:induction false} NewKeyAdmitsIff(l: Limit, es: seq<Event>)
    requires Usable(l) && l.algorithm == ALGO_FIXED_WINDOW
    ensures Admitted(l, Missing, es) > 0 <==> HasCall(es)
    decreases |es|
  {
    if es != [] {
      if es[0].Vanish? {
        NewKeyAdmitsIff(l, es[1..]);
        assert forall i :: 0 <= i < |es[1..]| ==> es[1..][i] == es[i + 1];
        if HasCall(es) {
          var j :| 0 <= j < |es| && es[j].Call?;
          assert es[1..][j - 1].Call?;
        }
      } else {
        assert FixedScript(l, Missing, es[0].now).1.allowed;
      }
    }
  }

  /**
   * The condition matters for the bound too. With a quota of one per 10 ms, the key of a finished window expires,
   * TIME steps back into that window, and three requests pass within 1003 microseconds.
   */
  lemma StepBackPastExpiryReopensWindow()
    ensures
      var l := Limit(ALGO_FIXED_WINDOW, 1, 0, 10_000);
      var es := [Call(9999, 9999, 0), Vanish(11_000, 11_000), Call(11_000, 9998, 0), Call(11_002, 10_000, 0)];
      NeverFast(es) && Admitted(l, Missing, es) == 3
  {
    hide Script, Transition, Admitted;
    var l := Limit(ALGO_FIXED_WINDOW, 1, 0, 10_000);
    var e0, e1 := Call(9999, 9999, 0), Vanish(11_000, 11_000);
    var e2, e3 := Call(11_000, 9998, 0), Call(11_002, 10_000, 0);
    var held := Live(Window(0, 1), 10);
    OnePerTenMillis(l);
    AdmittedCons(l, held, e3, []);
    AdmittedCons(l, Missing, e2, [e3]);
    AdmittedCons(l, held, e1, [e2] + [e3]);
    AdmittedCons(l, Missing, e0, [e1] + ([e2] + [e3]));
    NoneAdmitted(l, Transition(l, held, e3));
    assert [e3] + [] == [e3];
    assert [e0] + ([e1] + ([e2] + [e3])) == [e0, e1, e2, e3];
  }

  lemma NoneAdmitted(l: Limit, k: Key)
    requires Usable(l) && Fits(l, k)
    ensures Admitted(l, k, []) == 0
  {
  }

  lemma OnePerTenMillis(l: Limit)
    requires l == Limit(ALGO_FIXED_WINDOW, 1, 0, 10_000)
    ensures
      var held := Live(Window(0, 1), 10);
      && Script(l, Missing, 9999, 0).1.allowed && Script(l, Missing, 9998, 0).1.allowed
      && Transition(l, Missing, Call(9999, 9999, 0)) == held
      && Transition(l, Missing, Call(11_000, 9998, 0)) == held
      && Transition(l, held, Vanish(11_000, 11_000)) == Missing
      && Script(l, held, 10_000, 0).1.allowed
  {
  }

  lemma AdmittedCons(l: Limit, k: Key, e: Event, es: seq<Event>)
    requires Usable(l) && Fits(l, k)
    ensures Admitted(l, k, [e] + es)
            == (if e.Call? && Script(l, k, e.now, e.nonce).1.allowed then 1 else 0)
               + Admitted(l, Transition(l, k, e), es)
  {
    assert ([e] + es)[1..] == es;
  }
}
