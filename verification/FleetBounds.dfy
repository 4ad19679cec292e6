/** What a fleet of gateways admits in any span of time, through outages, lost replies and recovery. */
module FleetBounds {
  import opened Limits
  import opened Fleet
  import Sets
  import B = Buckets
  import Parity
  import FixedBounds
  import Quotas
  import R = RedisScripts
  import RedisFixedBounds
  import TokenBucket

  // ---- The shared key ----

  function Events(log: seq<Entry>): (es: seq<R.Event>)
    ensures |es| == |log|
    ensures forall i :: 0 <= i < |log| ==> es[i] == log[i].event
  {
    if log == [] then [] else [log[0].event] + Events(log[1..])
  }

  lemma {:induction false} EventsConcat(a: seq<Entry>, b: seq<Entry>)
    ensures Events(a + b) == Events(a) + Events(b)
  {
    if a == [] {
      assert a + b == b;
    } else {
      assert (a + b)[1..] == a[1..] + b;
      EventsConcat(a[1..], b);
    }
  }

  /** The call the entry was made for, if its script admitted it between `lo` and `hi`. */
  function AdmittedBy(l: Limit, k: R.Key, x: Entry, lo: int, hi: int): set<int>
    requires Usable(l) && R.Fits(l, k)
  {
    if x.event.Call? && lo <= x.event.at <= hi && R.Script(l, k, x.event.now, x.event.nonce).1.allowed
    then {x.id} else {}
  }

  /** The calls whose script admitted them between `lo` and `hi`. */
  function AdmittedIds(l: Limit, k: R.Key, log: seq<Entry>, lo: int, hi: int): set<int>
    requires Usable(l) && R.Fits(l, k)
    decreases |log|
  {
    if log == [] then {} else
      AdmittedBy(l, k, log[0], lo, hi)
      + AdmittedIds(l, R.Transition(l, k, log[0].event), log[1..], lo, hi)
  }

  lemma {:induction false} AdmittedIdsAppend(l: Limit, k: R.Key, log: seq<Entry>, x: Entry, lo: int, hi: int)
    requires Usable(l) && R.Fits(l, k)
    ensures R.Fits(l, R.After(l, k, Events(log)))
    ensures AdmittedIds(l, k, log + [x], lo, hi)
            == AdmittedIds(l, k, log, lo, hi) + AdmittedBy(l, R.After(l, k, Events(log)), x, lo, hi)
    decreases |log|
  {
    if log == [] {
      assert [] + [x] == [x] && [x][1..] == [];
    } else {
      assert (log + [x])[1..] == log[1..] + [x];
      assert Events(log)[1..] == Events(log[1..]);
      AdmittedIdsAppend(l, R.Transition(l, k, log[0].event), log[1..], x, lo, hi);
    }
  }

  lemma {:induction false} WiderSpan(l: Limit, k: R.Key, log: seq<Entry>, at: int, lo: int, hi: int)
    requires Usable(l) && R.Fits(l, k) && lo <= at <= hi
    ensures AdmittedIds(l, k, log, at, at) <= AdmittedIds(l, k, log, lo, hi)
    decreases |log|
  {
    if log != [] {
      WiderSpan(l, R.Transition(l, k, log[0].event), log[1..], at, lo, hi);
    }
  }

  lemma {:induction false} NoMoreIdsThanAdmissions(l: Limit, k: R.Key, log: seq<Entry>, lo: int, hi: int)
    requires Usable(l) && R.Fits(l, k)
    ensures |AdmittedIds(l, k, log, lo, hi)| <= R.Admitted(l, k, Events(log))
    decreases |log|
  {
    if log != [] {
      var k' := R.Transition(l, k, log[0].event);
      NoMoreIdsThanAdmissions(l, k', log[1..], lo, hi);
      assert Events(log)[1..] == Events(log[1..]);
      Sets.UnionSize(AdmittedBy(l, k, log[0], lo, hi), AdmittedIds(l, k', log[1..], lo, hi));
    }
  }

  // ---- Quotas grow with the span ----

  lemma QuotaGrows(l: Limit, d1: int, d2: int)
    requires Usable(l) && 0 <= d1 <= d2 && (l.algorithm == ALGO_TOKEN_BUCKET ==> l.burst > 0)
    ensures 0.0 <= Quotas.Quota(l, d1) <= Quotas.Quota(l, d2)
  {
    hide FixedBounds.Quotas;
    TokenBucket.EarnedSplit(TokenBucket.PerTick(l), 0, d1);
    TokenBucket.EarnedSplit(TokenBucket.PerTick(l), d1, d2 - d1);
    RedisFixedBounds.ShorterSpan(d1, d2, l.window);
    FixedBounds.MoreCells(l.rate, 0, d1 / l.window + 1);
    FixedBounds.MoreCells(l.rate, 0, d1 / l.window + 2);
    FixedBounds.MoreCells(l.rate, d1 / l.window + 1, d2 / l.window + 1);
    FixedBounds.MoreCells(l.rate, d1 / l.window + 2, d2 / l.window + 2);
  }

  lemma WeightGrows(l: Limit, m: nat, n: nat)
    requires m <= n
    ensures 0.0 <= Quotas.Weight(l, m) <= Quotas.Weight(l, n)
  {
  }

  lemma WeightAdds(l: Limit, m: nat, n: nat)
    ensures Quotas.Weight(l, m + n) == Quotas.Weight(l, m) + Quotas.Weight(l, n)
  {
  }

  /** A log that lies wholly between `lo` and `hi`. */
  lemma InsideWithinQuota(l: Limit, k: R.Key, log: seq<Entry>, lo: int, hi: int)
    requires Usable(l) && Quotas.SoundKey(l, k) && Quotas.FairEvents(l, k, Events(log)) && log != []
    requires lo <= log[0].event.at && log[|log| - 1].event.at <= hi
    ensures Quotas.Weight(l, |AdmittedIds(l, k, log, lo, hi)|)
            <= Quotas.Quota(l, hi - lo) + Quotas.Extra(l, k, Events(log)) as real
  {
    hide Quotas.Weight, Quotas.Quota, Quotas.Extra, AdmittedIds;
    var es, n := Events(log), |log| - 1;
    NoMoreIdsThanAdmissions(l, k, log, lo, hi);
    Quotas.ScriptKeepsQuota(l, k, es);
    Quotas.SpanNotNegative(es);
    WeightGrows(l, |AdmittedIds(l, k, log, lo, hi)|, R.Admitted(l, k, es));
    QuotaGrows(l, es[n].at - es[0].at, hi - lo);
  }

  lemma DropLast(l: Limit, k: R.Key, log: seq<Entry>, x: Entry, lo: int, hi: int)
    requires Usable(l) && R.Fits(l, k) && Quotas.FairEvents(l, k, Events(log + [x])) && x.event.at > hi
    ensures Quotas.FairEvents(l, k, Events(log))
    ensures Quotas.Extra(l, k, Events(log)) <= Quotas.Extra(l, k, Events(log + [x]))
    ensures AdmittedIds(l, k, log + [x], lo, hi) == AdmittedIds(l, k, log, lo, hi)
  {
    hide Quotas.Extra;
    EventsConcat(log, [x]);
    Quotas.PrefixExtra(l, k, Events(log), Events([x]));
    Quotas.FairPrefix(l, k, Events(log), Events([x]));
    AdmittedIdsAppend(l, k, log, x, lo, hi);
    AdmittedOutside(l, R.After(l, k, Events(log)), x, lo, hi);
  }

  /** The scripts admit within the quota, and the extra, between any two instants. */
  lemma {:induction false} ScriptsWithinQuota(l: Limit, k: R.Key, log: seq<Entry>, lo: int, hi: int)
    requires Usable(l) && Quotas.SoundKey(l, k) && Quotas.FairEvents(l, k, Events(log)) && lo <= hi
    ensures Quotas.Weight(l, |AdmittedIds(l, k, log, lo, hi)|)
            <= Quotas.Quota(l, hi - lo) + Quotas.Extra(l, k, Events(log)) as real
    decreases |log|
  {
    hide Quotas.Weight, Quotas.Quota, Quotas.Extra, Quotas.FairEvents, Quotas.SoundKey;
    hide AdmittedBy, R.Transition, R.Fits;
    SoundFits(l, k);
    Quotas.ExtraNotNegative(l, k, Events(log));
    if log == [] {
      QuotaGrows(l, 0, hi - lo);
      WeightOfNone(l);
    } else if log[0].event.at < lo {
      EventsTail(log);
      Quotas.EventKeepsSound(l, k, Events(log));
      Quotas.TailExtra(l, k, Events(log));
      SoundFits(l, R.Transition(l, k, log[0].event));
      ScriptsWithinQuota(l, R.Transition(l, k, log[0].event), log[1..], lo, hi);
      AdmittedOutside(l, k, log[0], lo, hi);
    } else if log[|log| - 1].event.at > hi {
      var n := |log| - 1;
      assert log == log[..n] + [log[n]];
      DropLast(l, k, log[..n], log[n], lo, hi);
      ScriptsWithinQuota(l, k, log[..n], lo, hi);
    } else {
      InsideWithinQuota(l, k, log, lo, hi);
    }
  }

  lemma SoundFits(l: Limit, k: R.Key)
    requires Usable(l) && Quotas.SoundKey(l, k)
    ensures R.Fits(l, k) && (l.algorithm == ALGO_TOKEN_BUCKET ==> l.burst > 0)
  {
  }

  lemma EventsTail(log: seq<Entry>)
    requires log != []
    ensures Events(log)[0] == log[0].event && Events(log)[1..] == Events(log[1..])
  {
  }

  lemma WeightOfNone(l: Limit)
    ensures Quotas.Weight(l, 0) == 0.0
  {
  }

  lemma AdmittedOutside(l: Limit, k: R.Key, x: Entry, lo: int, hi: int)
    requires Usable(l) && R.Fits(l, k) && (x.event.at < lo || x.event.at > hi)
    ensures AdmittedBy(l, k, x, lo, hi) == {}
  {
  }

  // ---- One gateway's fallback ----

  function Times(locals: seq<Local>): (ts: seq<int>)
    ensures |ts| == |locals|
    ensures forall i :: 0 <= i < |locals| ==> ts[i] == locals[i].clock
  {
    if locals == [] then [] else [locals[0].clock] + Times(locals[1..])
  }

  lemma {:induction false} TimesConcat(a: seq<Local>, b: seq<Local>)
    ensures Times(a + b) == Times(a) + Times(b)
  {
    if a == [] {
      assert a + b == b;
    } else {
      assert (a + b)[1..] == a[1..] + b;
      TimesConcat(a[1..], b);
    }
  }

  function LocalBy(l: Limit, s: B.BucketState, x: Local, lo: int, hi: int): set<int>
    requires Usable(l)
  {
    if lo <= x.at <= hi && B.Step(l, s, x.clock).1.allowed then {x.id} else {}
  }

  /** The calls the fallback bucket admitted between `lo` and `hi`. */
  function LocalIds(l: Limit, s: B.BucketState, locals: seq<Local>, lo: int, hi: int): set<int>
    requires Usable(l)
    decreases |locals|
  {
    if locals == [] then {} else
      LocalBy(l, s, locals[0], lo, hi)
      + LocalIds(l, B.Step(l, s, locals[0].clock).0, locals[1..], lo, hi)
  }

  lemma {:induction false} LocalIdsAppend(
      l: Limit, s: B.BucketState, locals: seq<Local>, x: Local, lo: int, hi: int)
    requires Usable(l)
    ensures LocalIds(l, s, locals + [x], lo, hi)
            == LocalIds(l, s, locals, lo, hi) + LocalBy(l, B.After(l, s, Times(locals)), x, lo, hi)
    decreases |locals|
  {
    if locals == [] {
      assert [] + [x] == [x] && [x][1..] == [];
    } else {
      assert (locals + [x])[1..] == locals[1..] + [x];
      assert Times(locals)[1..] == Times(locals[1..]);
      LocalIdsAppend(l, B.Step(l, s, locals[0].clock).0, locals[1..], x, lo, hi);
    }
  }

  lemma {:induction false} WiderLocalSpan(l: Limit, s: B.BucketState, locals: seq<Local>, at: int, lo: int, hi: int)
    requires Usable(l) && lo <= at <= hi
    ensures LocalIds(l, s, locals, at, at) <= LocalIds(l, s, locals, lo, hi)
    decreases |locals|
  {
    if locals != [] {
      WiderLocalSpan(l, B.Step(l, s, locals[0].clock).0, locals[1..], at, lo, hi);
    }
  }

  lemma {:induction false} NoMoreLocalIdsThanAdmissions(
      l: Limit, s: B.BucketState, locals: seq<Local>, lo: int, hi: int)
    requires Usable(l)
    ensures |LocalIds(l, s, locals, lo, hi)| <= B.Admitted(B.Run(l, s, Times(locals)))
    decreases |locals|
  {
    if locals != [] {
      var s' := B.Step(l, s, locals[0].clock).0;
      NoMoreLocalIdsThanAdmissions(l, s', locals[1..], lo, hi);
      assert Times(locals)[1..] == Times(locals[1..]);
      B.AdmittedUnfold(l, s, Times(locals));
      Sets.UnionSize(LocalBy(l, s, locals[0], lo, hi), LocalIds(l, s', locals[1..], lo, hi));
    }
  }

  /**
   * A gateway clock past Go's zero time that does not step back and never runs fast. What it
   * reads at any one moment is its own affair.
   */
  ghost predicate FairLocals(locals: seq<Local>) {
    && (forall i :: 0 <= i < |locals| ==> locals[i].clock > 0)
    && (forall i, j :: 0 <= i < j < |locals| ==>
          && locals[i].at <= locals[j].at
          && 0 <= locals[j].clock - locals[i].clock <= 1000 * (locals[j].at - locals[i].at))
  }

  lemma LocalsInsideWithinQuota(l: Limit, s: B.BucketState, locals: seq<Local>, lo: int, hi: int)
    requires Usable(l) && (l.algorithm == ALGO_TOKEN_BUCKET ==> l.burst > 0) && FairLocals(locals)
    requires locals != [] && lo <= locals[0].at && locals[|locals| - 1].at <= hi
    requires Quotas.SoundBucket(l, s, locals[0].clock)
    ensures Quotas.Weight(l, |LocalIds(l, s, locals, lo, hi)|) <= Quotas.Quota(l, 1000 * (hi - lo))
  {
    hide Quotas.Weight, Quotas.Quota, LocalIds;
    var ts, n := Times(locals), |locals| - 1;
    NoMoreLocalIdsThanAdmissions(l, s, locals, lo, hi);
    Quotas.BucketKeepsQuota(l, s, ts);
    WeightGrows(l, |LocalIds(l, s, locals, lo, hi)|, B.Admitted(B.Run(l, s, ts)));
    assert 0 <= ts[n] - ts[0] <= 1000 * (locals[n].at - locals[0].at);
    QuotaGrows(l, ts[n] - ts[0], 1000 * (hi - lo));
  }

  lemma NoLocalIds(l: Limit, s: B.BucketState, lo: int, hi: int)
    requires Usable(l)
    ensures |LocalIds(l, s, [], lo, hi)| == 0
  {
  }

  lemma SkipEarly(l: Limit, s: B.BucketState, locals: seq<Local>, lo: int, hi: int)
    requires Usable(l) && locals != [] && locals[0].at < lo
    ensures LocalIds(l, s, locals, lo, hi)
            == LocalIds(l, B.Step(l, s, locals[0].clock).0, locals[1..], lo, hi)
  {
  }

  lemma DropLate(l: Limit, s: B.BucketState, locals: seq<Local>, lo: int, hi: int)
    requires Usable(l) && locals != [] && locals[|locals| - 1].at > hi
    ensures LocalIds(l, s, locals, lo, hi) == LocalIds(l, s, locals[..|locals| - 1], lo, hi)
  {
    var n := |locals| - 1;
    assert locals == locals[..n] + [locals[n]];
    LocalIdsAppend(l, s, locals[..n], locals[n], lo, hi);
  }

  /** A fallback bucket admits within the quota between any two instants. */
  lemma {:induction false} LocalsWithinQuota(l: Limit, s: B.BucketState, locals: seq<Local>, lo: int, hi: int)
    requires Usable(l) && (l.algorithm == ALGO_TOKEN_BUCKET ==> l.burst > 0) && FairLocals(locals) && lo <= hi
    requires locals != [] ==> Quotas.SoundBucket(l, s, locals[0].clock)
    ensures Quotas.Weight(l, |LocalIds(l, s, locals, lo, hi)|) <= Quotas.Quota(l, 1000 * (hi - lo))
    decreases |locals|
  {
    hide Quotas.Weight, Quotas.Quota, Quotas.SoundBucket, B.Step, LocalIds;
    if locals == [] {
      NoLocalIds(l, s, lo, hi);
      QuotaGrows(l, 0, 1000 * (hi - lo));
      WeightOfNone(l);
    } else if locals[0].at < lo {
      if |locals| > 1 {
        Quotas.StepKeepsSound(l, s, locals[0].clock, locals[1].clock);
      }
      SkipEarly(l, s, locals, lo, hi);
      LocalsWithinQuota(l, B.Step(l, s, locals[0].clock).0, locals[1..], lo, hi);
    } else if locals[|locals| - 1].at > hi {
      var n := |locals| - 1;
      DropLate(l, s, locals, lo, hi);
      LocalsWithinQuota(l, s, locals[..n], lo, hi);
    } else {
      LocalsInsideWithinQuota(l, s, locals, lo, hi);
    }
  }

  /** Quota and weight do not depend on the unit of time. */
  lemma QuotaScales(l: Limit, d: int, n: nat)
    requires Usable(l) && d >= 0
    ensures Quotas.Quota(Parity.GoLimit(l), 1000 * d) == Quotas.Quota(l, d)
    ensures Quotas.Weight(Parity.GoLimit(l), n) == Quotas.Weight(l, n)
  {
    Parity.PerTickScales(l, d);
    var q, r := d / l.window, d % l.window;
    assert 1000 * d == q * (1000 * l.window) + 1000 * r by { assert 1000 * (q * l.window) == q * (1000 * l.window); }
    FixedBounds.FixedWindow.DivModUnique(1000 * d, 1000 * l.window, q, 1000 * r);
  }
}
