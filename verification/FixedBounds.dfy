/** fixed_window bounds: per grid cell, per interval, and the run that attains the double. */
module FixedBounds {
  import opened Limits
  import opened Buckets
  import opened FixedWindow

  /** The number of the grid cell `t` falls in. */
  function Cell(t: int, window: int): int
    requires window > 0
  {
    t / window
  }

  lemma SameCell(a: int, b: int, window: int)
    requires window > 0
    ensures Truncate(a, window) == Truncate(b, window) <==> Cell(a, window) == Cell(b, window)
    ensures a <= b ==> Cell(a, window) <= Cell(b, window)
  {
    assert Truncate(a, window) == Cell(a, window) * window;
    assert Truncate(b, window) == Cell(b, window) * window;
    if Cell(a, window) == Cell(b, window) + 1 || Cell(a, window) > Cell(b, window) + 1 {
      Apart(Cell(b, window), Cell(a, window), window);
    } else if Cell(b, window) > Cell(a, window) {
      Apart(Cell(a, window), Cell(b, window), window);
    }
  }

  lemma Apart(p: int, q: int, w: int)
    requires w > 0 && p < q
    ensures p * w + w <= q * w
  {
    FixedWindow.LeastMultiple(q - p, w);
  }

  /** Quota left in the cell of `t`. */
  function Left(l: Limit, s: BucketState, t: int): int
    requires Usable(l) && s.Fixed?
  {
    if Truncate(t, l.window) == s.windowStart then l.rate - s.count else l.rate
  }

  /** The quota of `n` whole cells. */
  function Quotas(rate: int, n: int): int {
    rate * n
  }

  lemma OneMoreCell(rate: int, n: int)
    ensures Quotas(rate, n + 1) == Quotas(rate, n) + rate
  {
  }

  lemma MoreCells(rate: int, m: int, n: int)
    requires rate > 0
    ensures Quotas(rate, 0) == 0
    ensures m < n ==> Quotas(rate, m) + rate <= Quotas(rate, n)
  {
    if m < n {
      assert rate * n == rate * m + rate * (n - m);
      FixedWindow.LeastMultiple(n - m, rate);
    }
  }

  /** A run admits at most what is left of its first cell and Rate for every later cell. */
  lemma {:induction false} AdmitsPerCell(l: Limit, s: BucketState, ts: seq<int>)
    requires Usable(l) && s.Fixed? && Valid(l, s) && NonDecreasing(ts) && ts != []
    ensures Admitted(Run(l, s, ts)) <=
            Left(l, s, ts[0]) + Quotas(l.rate, Cell(ts[|ts| - 1], l.window) - Cell(ts[0], l.window))
    decreases |ts|
  {
    hide Quotas, Cell;
    var s' := Step(l, s, ts[0]).0;
    var rest := ts[1..];
    AdmittedUnfold(l, s, ts);
    var ahead := Cell(ts[|ts| - 1], l.window) - Cell(ts[0], l.window);
    MoreCells(l.rate, 0, ahead);
    if rest != [] {
      AdmitsPerCell(l, s', rest);
      SameCell(ts[0], rest[0], l.window);
      MoreCells(l.rate, ahead - (Cell(rest[0], l.window) - Cell(ts[0], l.window)), ahead);
    }
  }

  /** Requests that fall in one grid cell: at most Rate admissions, whatever came before. */
  lemma AtMostRatePerCell(l: Limit, s: BucketState, ts: seq<int>)
    requires Usable(l) && s.Fixed? && Valid(l, s) && NonDecreasing(ts) && ts != []
    requires Cell(ts[0], l.window) == Cell(ts[|ts| - 1], l.window)
    ensures Admitted(Run(l, s, ts)) <= l.rate
  {
    hide Quotas, Cell, Run;
    AdmitsPerCell(l, s, ts);
    MoreCells(l.rate, 0, 0);
  }

  function CeilDiv(a: int, b: int): int
    requires b > 0
  {
    (a + b - 1) / b
  }

  lemma CellsInSpan(first: int, last: int, length: int, window: int)
    requires window > 0 && first <= last < first + length
    ensures Cell(last, window) - Cell(first, window) <= CeilDiv(length, window)
  {
    var c := CeilDiv(length, window);
    assert c * window >= length;
    assert first < (Cell(first, window) + 1) * window;
    assert last < (Cell(first, window) + 1) * window + c * window;
    assert Cell(last, window) * window <= last;
    if Cell(last, window) > Cell(first, window) + c {
      Apart(Cell(first, window) + c, Cell(last, window), window);
    }
  }

  /** A stretch of a run shorter than `length`: at most (ceil(length / window) + 1) * Rate. */
  lemma AtMostPerInterval(l: Limit, s: BucketState, ts: seq<int>, length: int)
    requires Usable(l) && s.Fixed? && Valid(l, s) && NonDecreasing(ts) && ts != []
    requires ts[|ts| - 1] < ts[0] + length
    ensures Admitted(Run(l, s, ts)) <= (CeilDiv(length, l.window) + 1) * l.rate
  {
    hide Quotas, Cell;
    AdmitsPerCell(l, s, ts);
    CellsInSpan(ts[0], ts[|ts| - 1], length, l.window);
    var ahead, most := Cell(ts[|ts| - 1], l.window) - Cell(ts[0], l.window), CeilDiv(length, l.window);
    MoreCells(l.rate, ahead, most);
    assert (most + 1) * l.rate == Quotas(l.rate, most) + l.rate by { QuotasIsProduct(l.rate, most); }
  }

  lemma QuotasIsProduct(rate: int, n: int)
    ensures (n + 1) * rate == Quotas(rate, n) + rate
  {
  }

  // ---- The bound for one window length is attained ----

  function Repeat(t: int, n: nat): seq<int> {
    seq(n, i => t)
  }

  lemma {:induction false} BurstIsAdmitted(l: Limit, s: BucketState, t: int, n: nat)
    requires Usable(l) && s.Fixed? && Valid(l, s) && n <= Left(l, s, t)
    ensures Admitted(Run(l, s, Repeat(t, n))) == n
    ensures n > 0 ==> After(l, s, Repeat(t, n)).Fixed?
                      && After(l, s, Repeat(t, n)).windowStart == Truncate(t, l.window)
    ensures After(l, s, Repeat(t, n)).Fixed? && Valid(l, After(l, s, Repeat(t, n)))
    decreases n
  {
    if n > 0 {
      var ts := Repeat(t, n);
      assert ts[1..] == Repeat(t, n - 1);
      var s' := Step(l, s, t).0;
      AdmittedUnfold(l, s, ts);
      BurstIsAdmitted(l, s', t, n - 1);
    }
  }

  /**
   * Rate requests just before a boundary and Rate requests on it are all admitted, although
   * they fit in one window length.
   */
  lemma TwiceRateIsAttained(l: Limit)
    requires Usable(l) && l.window >= 2
    ensures
      var ts := Repeat(l.window - 1, l.rate) + Repeat(l.window, l.rate);
      && NonDecreasing(ts)
      && (forall i :: 0 <= i < |ts| ==> l.window - 1 <= ts[i] < (l.window - 1) + l.window)
      && Admitted(Run(l, Fixed(0, 0), ts)) == 2 * l.rate
  {
    var w := l.window;
    var a, b := Repeat(w - 1, l.rate), Repeat(w, l.rate);
    FixedWindow.DivModUnique(w - 1, w, 0, w - 1);
    FixedWindow.DivModUnique(w, w, 1, 0);
    BurstIsAdmitted(l, Fixed(0, 0), w - 1, l.rate);
    var mid := After(l, Fixed(0, 0), a);
    BurstIsAdmitted(l, mid, w, l.rate);
    RunConcat(l, Fixed(0, 0), a, b);
    AdmittedConcat(Run(l, Fixed(0, 0), a), Run(l, mid, b));
  }

  // ---- A clock that steps back ----

  /** An exhausted bucket admits exactly when the request falls in a different cell, earlier or later. */
  lemma ExhaustedAdmitsIffCellDiffers(l: Limit, s: BucketState, now: int)
    requires Usable(l) && s.Fixed? && s.count >= l.rate
    ensures Step(l, s, now).1.allowed <==> Truncate(now, l.window) != s.windowStart
  {
  }

  /** A step that keeps the newer window when the clock has stepped back, as the script does. */
  function NextKeepingNewer(l: Limit, windowStart: int, count: int, now: int): (int, int, Decision)
    requires Usable(l)
  {
    var grid := Truncate(now, l.window);
    var start := if windowStart >= grid then windowStart else grid;
    var before := if windowStart >= grid then count else 0;
    var allowed := before < l.rate;
    var after := if allowed then before + 1 else before;
    var reset := start + l.window;
    (start, after, Decision(allowed, l.rate, AtLeastZero(l.rate - after), reset,
                            if allowed then 0 else reset - now, false))
  }

  function RunKeepingNewer(l: Limit, windowStart: int, count: int, ts: seq<int>): (ds: seq<Decision>)
    requires Usable(l)
    ensures |ds| == |ts|
    decreases |ts|
  {
    if ts == [] then [] else
      var (w, c, dec) := NextKeepingNewer(l, windowStart, count, ts[0]);
      [dec] + RunKeepingNewer(l, w, c, ts[1..])
  }

  /** Some request falls in a cell before the one of the request before it, or before `start`. */
  predicate StepsBack(window: int, start: int, ts: seq<int>)
    requires window > 0
    decreases |ts|
  {
    ts != [] && (Truncate(ts[0], window) < start || StepsBack(window, Truncate(ts[0], window), ts[1..]))
  }

  /**
   * On any clock, the bucket decides as one that keeps the newer window if and only if no request
   * falls in a cell before the one stored.
   */
  lemma {:induction false} KeepsNewerWindowIff(l: Limit, windowStart: int, count: int, ts: seq<int>)
    requires Usable(l)
    ensures Run(l, Fixed(windowStart, count), ts) == RunKeepingNewer(l, windowStart, count, ts)
            <==> !StepsBack(l.window, windowStart, ts)
    decreases |ts|
  {
    hide Truncate;
    if ts != [] {
      var (s', dec) := Step(l, Fixed(windowStart, count), ts[0]);
      var (w, c, kept) := NextKeepingNewer(l, windowStart, count, ts[0]);
      var rest, restKept := Run(l, s', ts[1..]), RunKeepingNewer(l, w, c, ts[1..]);
      assert ([dec] + rest)[0] == dec && ([kept] + restKept)[0] == kept;
      assert ([dec] + rest)[1..] == rest && ([kept] + restKept)[1..] == restKept;
      if dec == kept {
        KeepsNewerWindowIff(l, w, c, ts[1..]);
      }
    }
  }

  /** How often the clock enters cell `c`; `inside` says whether the last request was there. */
  function Visits(window: int, c: int, inside: bool, ts: seq<int>): nat
    requires window > 0
    decreases |ts|
  {
    if ts == [] then 0 else
      var here := Cell(ts[0], window) == c;
      One(here && !inside) + Visits(window, c, here, ts[1..])
  }

  /** How many requests that fall in cell `c` are admitted. */
  function AdmittedIn(l: Limit, s: BucketState, ts: seq<int>, c: int): nat
    requires Usable(l)
    decreases |ts|
  {
    if ts == [] then 0 else
      var (s', dec) := Step(l, s, ts[0]);
      One(dec.allowed && Cell(ts[0], l.window) == c) + AdmittedIn(l, s', ts[1..], c)
  }

  function Origin(c: int, window: int): int {
    c * window
  }

  lemma TruncateIsOrigin(t: int, window: int)
    requires window > 0
    ensures Truncate(t, window) == Origin(Cell(t, window), window)
  {
  }

  /** How many requests in cell `c` the arrivals begin with. */
  function Leading(window: int, c: int, ts: seq<int>): (n: nat)
    requires window > 0
    ensures n <= |ts| && forall i :: 0 <= i < n ==> Cell(ts[i], window) == c
    ensures n < |ts| ==> Cell(ts[n], window) != c
  {
    if ts == [] || Cell(ts[0], window) != c then 0 else 1 + Leading(window, c, ts[1..])
  }

  function Least(a: int, b: int): int {
    if a < b then a else b
  }

  /** Every visit's requests, but no more than Rate of them. */
  function RatePerVisit(l: Limit, c: int, ts: seq<int>): (n: int)
    requires Usable(l)
    ensures n >= 0
    decreases |ts|
  {
    var n := Leading(l.window, c, ts);
    if ts == [] then 0
    else if n == 0 then RatePerVisit(l, c, ts[1..])
    else Least(l.rate, n) + RatePerVisit(l, c, ts[n..])
  }

  /** What the bucket may still admit in cell `c` before it leaves it. */
  function LeftIn(l: Limit, s: BucketState, c: int): int
    requires Usable(l) && s.Fixed?
  {
    if s.windowStart == Origin(c, l.window) then l.rate - s.count else l.rate
  }

  /**
   * On any clock, what a cell admits is exactly the requests of each visit up to Rate; of the
   * first visit, up to what the bucket had left there.
   */
  lemma {:induction false} AdmitsRatePerVisit(l: Limit, s: BucketState, ts: seq<int>, c: int)
    requires Usable(l) && s.Fixed? && Valid(l, s)
    ensures
      var n := Leading(l.window, c, ts);
      AdmittedIn(l, s, ts, c) == Least(LeftIn(l, s, c), n) + RatePerVisit(l, c, ts[n..])
    decreases |ts|
  {
    hide Cell, Origin;
    var n := Leading(l.window, c, ts);
    if ts != [] {
      var s', rest := Step(l, s, ts[0]).0, ts[1..];
      TruncateIsOrigin(ts[0], l.window);
      AdmitsRatePerVisit(l, s', rest, c);
      var m := Leading(l.window, c, rest);
      if n == 0 {
        assert ts[0..] == ts;
        LeavesCell(l, s, ts[0], c);
        if m > 0 { assert rest[m..] == ts[m + 1..]; } else { assert rest[0..] == rest; }
      } else {
        assert n == m + 1 && rest[m..] == ts[n..];
      }
    }
  }

  /** A request in another cell leaves all of Rate for the next visit. */
  lemma LeavesCell(l: Limit, s: BucketState, t: int, c: int)
    requires Usable(l) && s.Fixed? && Cell(t, l.window) != c
    ensures LeftIn(l, Step(l, s, t).0, c) == l.rate
  {
    hide Cell;
    TruncateIsOrigin(t, l.window);
    var a := Cell(t, l.window);
    if a < c { Apart(a, c, l.window); } else { Apart(c, a, l.window); }
  }

  /** From a new bucket, in any cell: exactly Rate or the requests of each visit. */
  lemma NewBucketAdmitsRatePerVisit(l: Limit, ts: seq<int>, c: int)
    requires Usable(l)
    ensures AdmittedIn(l, Fixed(0, 0), ts, c) == RatePerVisit(l, c, ts)
  {
    AdmitsRatePerVisit(l, Fixed(0, 0), ts, c);
    var n := Leading(l.window, c, ts);
    if n == 0 { assert ts[n..] == ts; }
  }

  /** So a cell keeps its Rate if and only if its visits' requests, up to Rate each, sum to no more. */
  lemma CellKeepsRateIff(l: Limit, ts: seq<int>, c: int)
    requires Usable(l)
    ensures AdmittedIn(l, Fixed(0, 0), ts, c) <= l.rate <==> RatePerVisit(l, c, ts) <= l.rate
    ensures Visits(l.window, c, false, ts) <= 1 ==> RatePerVisit(l, c, ts) <= l.rate
  {
    NewBucketAdmitsRatePerVisit(l, ts, c);
    AtMostRatePerVisit(l, Fixed(0, 0), ts, c);
    MoreCells(l.rate, 0, 1);
    OneMoreCell(l.rate, 0);
  }

  /** On any clock a cell admits at most Rate for every separate visit to it. */
  lemma AtMostRatePerVisit(l: Limit, s: BucketState, ts: seq<int>, c: int)
    requires Usable(l) && s.Fixed? && Valid(l, s)
    ensures AdmittedIn(l, s, ts, c) <= Quotas(l.rate, Visits(l.window, c, false, ts))
  {
    AdmitsRatePerVisit(l, s, ts, c);
    var n := Leading(l.window, c, ts);
    assert ts[0..] == ts;
    VisitsSplit(l, ts, c);
    RatePerVisitBound(l, ts[n..], c);
    OneMoreCell(l.rate, Visits(l.window, c, false, ts[n..]));
  }

  lemma {:induction false} RatePerVisitBound(l: Limit, ts: seq<int>, c: int)
    requires Usable(l)
    ensures RatePerVisit(l, c, ts) <= Quotas(l.rate, Visits(l.window, c, false, ts))
    decreases |ts|
  {
    hide Quotas, Cell;
    MoreCells(l.rate, 0, 1);
    var n := Leading(l.window, c, ts);
    if ts != [] {
      RatePerVisitBound(l, if n == 0 then ts[1..] else ts[n..], c);
      VisitsSplit(l, ts, c);
      OneMoreCell(l.rate, Visits(l.window, c, false, ts[n..]));
    }
  }

  /** A leading visit is one visit. */
  lemma VisitsSplit(l: Limit, ts: seq<int>, c: int)
    requires Usable(l)
    ensures
      var n := Leading(l.window, c, ts);
      Visits(l.window, c, false, ts) == One(n > 0) + Visits(l.window, c, false, ts[n..])
  {
    hide Cell;
    var n := Leading(l.window, c, ts);
    if n == 0 {
      assert ts[0..] == ts;
    } else {
      InsideVisit(l, ts[1..], c);
      assert ts[1..][n - 1..] == ts[n..];
    }
  }

  lemma {:induction false} InsideVisit(l: Limit, ts: seq<int>, c: int)
    requires Usable(l)
    ensures Visits(l.window, c, true, ts) == Visits(l.window, c, false, ts[Leading(l.window, c, ts)..])
    decreases |ts|
  {
    hide Cell;
    var n := Leading(l.window, c, ts);
    if ts == [] || n == 0 {
      assert ts[0..] == ts;
    } else {
      InsideVisit(l, ts[1..], c);
      assert ts[1..][n - 1..] == ts[n..];
    }
  }

  /** `n` bursts of Rate in the second cell, with a step back to the first cell after each. */
  function Revisits(l: Limit, n: nat): seq<int>
    requires Usable(l)
  {
    if n == 0 then [] else Repeat(l.window, l.rate) + ([0] + Revisits(l, n - 1))
  }

  /** That many visits are made, and each admits its whole Rate. */
  lemma {:induction false} RatePerVisitIsAttained(l: Limit, s: BucketState, n: nat)
    requires Usable(l) && s.Fixed? && Valid(l, s) && s.windowStart == 0
    ensures Visits(l.window, 1, false, Revisits(l, n)) == n
    ensures AdmittedIn(l, s, Revisits(l, n), 1) == Quotas(l.rate, n)
    decreases n
  {
    hide Quotas;
    MoreCells(l.rate, 0, 1);
    if n > 0 {
      var w, rest := l.window, [0] + Revisits(l, n - 1);
      FixedWindow.DivModUnique(w, w, 1, 0);
      FixedWindow.DivModUnique(0, w, 0, 0);
      BurstIn(l, s, w, l.rate, rest, false);
      var mid := After(l, s, Repeat(w, l.rate));
      BurstIsAdmitted(l, s, w, l.rate);
      assert rest[1..] == Revisits(l, n - 1) && rest[0] == 0;
      RatePerVisitIsAttained(l, Step(l, mid, 0).0, n - 1);
      OneMoreCell(l.rate, n - 1);
    }
  }

  /** A burst in cell 1 that fits what is left counts whole and is one visit. */
  lemma {:induction false} BurstIn(l: Limit, s: BucketState, t: int, n: nat, rest: seq<int>, inside: bool)
    requires Usable(l) && s.Fixed? && Valid(l, s) && n <= Left(l, s, t) && Cell(t, l.window) == 1
    ensures AdmittedIn(l, s, Repeat(t, n) + rest, 1)
            == n + AdmittedIn(l, After(l, s, Repeat(t, n)), rest, 1)
    ensures Visits(l.window, 1, inside, Repeat(t, n) + rest)
            == One(n > 0 && !inside) + Visits(l.window, 1, inside || n > 0, rest)
    decreases n
  {
    hide Cell;
    if n == 0 {
      assert Repeat(t, n) + rest == rest;
    } else {
      var ts := Repeat(t, n);
      assert ts[1..] == Repeat(t, n - 1) && (ts + rest)[1..] == Repeat(t, n - 1) + rest;
      BurstIn(l, Step(l, s, t).0, t, n - 1, rest, true);
    }
  }

  /**
   * So the per-cell bound needs a clock that does not step back: with one step back a cell
   * admits its quota twice.
   */
  lemma BackwardClockReopensCell(l: Limit)
    requires Usable(l)
    ensures
      var burst := Repeat(l.window, l.rate);
      && Cell(l.window, l.window) != Cell(0, l.window)
      && Admitted(Run(l, Fixed(0, 0), burst + [0] + burst)) == 2 * l.rate + 1
  {
    var burst, blank := Repeat(l.window, l.rate), Fixed(0, 0);
    FixedWindow.DivModUnique(l.window, l.window, 1, 0);
    BurstIsAdmitted(l, blank, l.window, l.rate);
    var mid := After(l, blank, burst);
    RunConcat(l, blank, burst, [0]);
    AdmittedConcat(Run(l, blank, burst), Run(l, mid, [0]));
    AdmittedUnfold(l, mid, [0]);
    var back := After(l, mid, [0]);
    BurstIsAdmitted(l, back, l.window, l.rate);
    RunConcat(l, blank, burst + [0], burst);
    AdmittedConcat(Run(l, blank, burst + [0]), Run(l, back, burst));
  }
}
