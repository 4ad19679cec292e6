/** The in-memory backend keeps every key's quota, whatever else it serves in between. */
module MemoryQuota {
  import opened Limits
  import opened MemoryLimiter
  import opened MemoryProjection
  import B = Buckets
  import Config
  import ConfigGuarantees
  import Quotas

  // ---- One bucket, any stretch of its run ----

  lemma {:induction false} RunKeepsSound(l: Limit, s: B.BucketState, ts: seq<int>, later: int)
    requires Usable(l) && NonDecreasing(ts + [later])
    requires Quotas.SoundBucket(l, s, if ts == [] then later else ts[0])
    ensures Quotas.SoundBucket(l, B.After(l, s, ts), later)
    decreases |ts|
  {
    hide B.Step, Quotas.SoundBucket;
    if ts != [] {
      var rest := ts[1..];
      var next := if rest == [] then later else rest[0];
      assert (ts + [later])[1..] == rest + [later];
      assert next == (ts + [later])[1];
      Quotas.StepKeepsSound(l, s, ts[0], next);
      RunKeepsSound(l, B.Step(l, s, ts[0]).0, rest, later);
    }
  }

  /** Any stretch of any run of a new bucket keeps the quota. */
  lemma NewBucketKeepsQuota(l: Limit, ts: seq<int>, i: nat, j: nat)
    requires ConfigGuarantees.Good(l) && NonDecreasing(ts) && i < j <= |ts| && ts[0] > 0
    ensures B.Fresh(l.algorithm).Some?
    ensures Quotas.Weight(l, B.Admitted(B.Run(l, B.Fresh(l.algorithm).value, ts)[i..j]))
            <= Quotas.Quota(l, ts[j - 1] - ts[i])
  {
    hide B.Step, B.Run, B.After, B.Fresh, Quotas.Weight, Quotas.Quota, Quotas.SoundBucket, NonDecreasing;
    NewBucketIsSound(l, ts[0]);
    var s := B.Fresh(l.algorithm).value;
    StretchIsOrdered(ts, i, j);
    StretchOfRun(l, s, ts, i, j);
    assert ts[..i] + [ts[i]] == ts[..i + 1];
    RunKeepsSound(l, s, ts[..i], ts[i]);
    Quotas.BucketKeepsQuota(l, B.After(l, s, ts[..i]), ts[i..j]);
  }

  lemma StretchIsOrdered(ts: seq<int>, i: nat, j: nat)
    requires NonDecreasing(ts) && i < j <= |ts|
    ensures NonDecreasing(ts[i..j]) && NonDecreasing(ts[..i + 1])
  {
  }

  lemma NewBucketIsSound(l: Limit, now: int)
    requires ConfigGuarantees.Good(l) && now > 0
    ensures B.Fresh(l.algorithm).Some? && Quotas.SoundBucket(l, B.Fresh(l.algorithm).value, now)
  {
    B.FreshIsValid(l);
  }

  lemma StretchOfRun(l: Limit, s: B.BucketState, ts: seq<int>, i: nat, j: nat)
    requires Usable(l) && i <= j <= |ts|
    ensures B.Run(l, s, ts)[i..j] == B.Run(l, B.After(l, s, ts[..i]), ts[i..j])
  {
    hide B.Step, B.Run, B.After;
    assert ts == (ts[..i] + ts[i..j]) + ts[j..];
    B.RunConcat(l, s, ts[..i] + ts[i..j], ts[j..]);
    B.RunConcat(l, s, ts[..i], ts[i..j]);
  }

  // ---- The whole map ----

  /** How many of the answers admit. */
  function AdmittedOf(answers: seq<Answer>): nat {
    if answers == [] then 0 else B.One(answers[0].Ok? && answers[0].value.allowed) + AdmittedOf(answers[1..])
  }

  lemma {:induction false} SameAdmissions(answers: seq<Answer>, ds: seq<Decision>)
    requires |answers| == |ds| && forall i :: 0 <= i < |ds| ==> answers[i] == Ok(ds[i])
    ensures AdmittedOf(answers) == B.Admitted(ds)
    decreases |ds|
  {
    if ds != [] {
      SameAdmissions(answers[1..], ds[1..]);
    }
  }

  /** The requests of one key, all under one limit, on a clock that does not step back. */
  ghost predicate Steady(l: Limit, rs: seq<Request>) {
    && (forall i :: 0 <= i < |rs| ==> rs[i].limit == l && rs[i].now > 0)
    && forall i, j :: 0 <= i < j < |rs| ==> rs[i].now <= rs[j].now
  }

  /**
   * In any mixed run that the map has room for, every stretch of one key's requests admits no
   * more than that key's quota for the time from its first to its last.
   */
  lemma KeyKeepsQuota(l: Limit, maxKeys: nat, rs: seq<Request>, key: string, i: nat, j: nat)
    requires ConfigGuarantees.Good(l) && AllKnown(rs) && |KeysOf(rs)| <= maxKeys
    requires
      var mine := B.Pick(rs, For(rs, StateKey(l.algorithm, key)));
      Steady(l, mine) && i < j <= |mine|
    ensures
      var mask := For(rs, StateKey(l.algorithm, key));
      var mine, answers := B.Pick(rs, mask), B.Pick(Answers(map[], maxKeys, rs), mask);
      && |answers| == |mine|
      && Quotas.Weight(l, AdmittedOf(answers[i..j])) <= Quotas.Quota(l, mine[j - 1].now - mine[i].now)
  {
    hide Quotas.Weight, Quotas.Quota, B.Step, B.Run, B.Pick, Answers, For;
    var mask := For(rs, StateKey(l.algorithm, key));
    var mine, answers := B.Pick(rs, mask), B.Pick(Answers(map[], maxKeys, rs), mask);
    var ts := seq(|mine|, n requires 0 <= n < |mine| => mine[n].now);
    AnswersAreRun(l, maxKeys, rs, key);
    var ds := B.Run(l, B.Fresh(l.algorithm).value, ts);
    NewBucketKeepsQuota(l, ts, i, j);
    SameAdmissions(answers[i..j], ds[i..j]);
  }

  /** The answers one key gets are the run of a bucket of its own. */
  lemma AnswersAreRun(l: Limit, maxKeys: nat, rs: seq<Request>, key: string)
    requires ConfigGuarantees.Good(l) && AllKnown(rs) && |KeysOf(rs)| <= maxKeys
    requires Steady(l, B.Pick(rs, For(rs, StateKey(l.algorithm, key))))
    ensures
      var mask := For(rs, StateKey(l.algorithm, key));
      var mine, answers := B.Pick(rs, mask), B.Pick(Answers(map[], maxKeys, rs), mask);
      var ts := seq(|mine|, n requires 0 <= n < |mine| => mine[n].now);
      && B.Fresh(l.algorithm).Some? && |answers| == |mine|
      && forall n :: 0 <= n < |mine| ==> answers[n] == Ok(B.Run(l, B.Fresh(l.algorithm).value, ts)[n])
  {
    hide B.Step, B.Run, B.Pick, Answers, For;
    RoomFromTheStart(rs);
    BelowCapacityEveryKeyStandsAlone(map[], maxKeys, rs, l.algorithm, key);
    AloneIsRun(l, B.Fresh(l.algorithm).value, B.Pick(rs, For(rs, StateKey(l.algorithm, key))));
  }

  lemma RoomFromTheStart(rs: seq<Request>)
    ensures var m: Store := map[]; m.Keys + KeysOf(rs) == KeysOf(rs)
  {
  }

  /** So with an accepted configuration every client of every route keeps the limit it is given. */
  lemma ConfiguredKeysKeepQuota(
      settings: Config.Settings, routes: seq<Config.Route>, n: nat, client: string,
      maxKeys: nat, rs: seq<Request>, key: string, i: nat, j: nat)
    requires Config.Accepted(settings, routes) && n < |routes|
    requires AllKnown(rs) && |KeysOf(rs)| <= maxKeys
    requires
      var l := Config.LimitFor(routes[n], client);
      var mine := B.Pick(rs, For(rs, StateKey(l.algorithm, key)));
      Steady(l, mine) && i < j <= |mine|
    ensures
      var l := Config.LimitFor(routes[n], client);
      var mask := For(rs, StateKey(l.algorithm, key));
      var mine, answers := B.Pick(rs, mask), B.Pick(Answers(map[], maxKeys, rs), mask);
      && Usable(l) && |answers| == |mine|
      && Quotas.Weight(l, AdmittedOf(answers[i..j])) <= Quotas.Quota(l, mine[j - 1].now - mine[i].now)
  {
    hide Config.Accepted, Config.LimitFor, Quotas.Weight, Quotas.Quota;
    ConfigGuarantees.AcceptedLimitsAreGood(settings, routes, n, client);
    KeyKeepsQuota(Config.LimitFor(routes[n], client), maxKeys, rs, key, i, j);
  }
}
