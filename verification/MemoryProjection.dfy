/** The map of buckets behaves, key by key, as independent buckets. */
module MemoryProjection {
  import opened Limits
  import opened Buckets
  import opened MemoryLimiter
  import Sets

  // ---- Keys do not collide ----

  predicate NoColon(s: string) {
    forall i :: 0 <= i < |s| ==> s[i] != ':'
  }

  /** Joining with ":" is injective as long as the algorithm has none. */
  lemma StateKeyInjective(a1: string, k1: string, a2: string, k2: string)
    requires NoColon(a1) && NoColon(a2) && StateKey(a1, k1) == StateKey(a2, k2)
    ensures a1 == a2 && k1 == k2
  {
    var s := StateKey(a1, k1);
    FirstColon(a1, k1);
    FirstColon(a2, k2);
    assert |a1| == |a2|;
    assert a1 == s[..|a1|] && a2 == s[..|a2|];
    assert k1 == s[|a1| + 1..] && k2 == s[|a2| + 1..];
  }

  /** The separator is the first colon of the joined key. */
  lemma FirstColon(a: string, k: string)
    requires NoColon(a)
    ensures StateKey(a, k)[|a|] == ':'
    ensures forall i :: 0 <= i < |a| ==> StateKey(a, k)[i] != ':'
  {
    assert forall i :: 0 <= i < |a| ==> StateKey(a, k)[i] == a[i];
  }

  lemma KnownAlgorithmsHaveNoColon(algorithm: string)
    requires Fresh(algorithm).Some?
    ensures NoColon(algorithm)
  {
  }

  // ---- Runs ----

  function Answers(m: Store, maxKeys: nat, rs: seq<Request>): (answers: seq<Answer>)
    ensures |answers| == |rs|
    decreases |rs|
  {
    if rs == [] then [] else
      var (m', a) := Answered(m, maxKeys, rs[0]);
      [a] + Answers(m', maxKeys, rs[1..])
  }

  function StoreAfter(m: Store, maxKeys: nat, rs: seq<Request>): Store
    decreases |rs|
  {
    if rs == [] then m else StoreAfter(Answered(m, maxKeys, rs[0]).0, maxKeys, rs[1..])
  }

  /** Which of the requests are for `sk`. */
  function For(rs: seq<Request>, sk: string): (mask: seq<bool>)
    ensures |mask| == |rs|
  {
    if rs == [] then [] else [KeyOf(rs[0]) == sk] + For(rs[1..], sk)
  }

  /** One standalone bucket fed those requests. */
  function Alone(s: BucketState, rs: seq<Request>): seq<Answer>
    decreases |rs|
  {
    if rs == [] then [] else
      var (s', dec) := Step(rs[0].limit, s, rs[0].now);
      [Ok(dec)] + Alone(s', rs[1..])
  }

  /** With one limit throughout, that is the bucket's run. */
  lemma {:induction false} AloneIsRun(l: Limit, s: BucketState, rs: seq<Request>)
    requires Usable(l) && forall i :: 0 <= i < |rs| ==> rs[i].limit == l
    ensures
      var ts := seq(|rs|, i requires 0 <= i < |rs| => rs[i].now);
      |Alone(s, rs)| == |rs| && forall i :: 0 <= i < |rs| ==> Alone(s, rs)[i] == Ok(Run(l, s, ts)[i])
    decreases |rs|
  {
    if rs != [] {
      var ts := seq(|rs|, i requires 0 <= i < |rs| => rs[i].now);
      var rest := rs[1..];
      AloneIsRun(l, Step(l, s, rs[0].now).0, rest);
      assert ts[1..] == seq(|rest|, i requires 0 <= i < |rest| => rest[i].now);
      assert Run(l, s, ts)[1..] == Run(l, Step(l, s, rs[0].now).0, ts[1..]);
    }
  }

  /** A tracked key is never lost, and its answers are those of its bucket standing alone. */
  lemma {:induction false} ProjectsOntoBucket(m: Store, maxKeys: nat, rs: seq<Request>, sk: string)
    requires sk in m
    ensures Pick(Answers(m, maxKeys, rs), For(rs, sk)) == Alone(m[sk], Pick(rs, For(rs, sk)))
    ensures sk in StoreAfter(m, maxKeys, rs)
    decreases |rs|
  {
    if rs != [] {
      var (m', a) := Answered(m, maxKeys, rs[0]);
      ProjectsOntoBucket(m', maxKeys, rs[1..], sk);
      assert Answers(m, maxKeys, rs)[1..] == Answers(m', maxKeys, rs[1..]);
      assert For(rs, sk)[1..] == For(rs[1..], sk);
      var picked := Pick(rs[1..], For(rs[1..], sk));
      if KeyOf(rs[0]) == sk {
        assert ([rs[0]] + picked)[1..] == picked;
      }
    }
  }

  lemma {:induction false} NeverExceedsCapacity(m: Store, maxKeys: nat, rs: seq<Request>)
    requires |m| <= maxKeys
    ensures |StoreAfter(m, maxKeys, rs)| <= maxKeys
    decreases |rs|
  {
    if rs != [] {
      var sk := KeyOf(rs[0]);
      var m' := Answered(m, maxKeys, rs[0]).0;
      if sk in m {
        assert m'.Keys == m.Keys;
        assert |m'| == |m'.Keys| && |m| == |m.Keys|;
      } else if m' != m {
        assert m'.Keys == m.Keys + {sk};
        assert |m'| == |m'.Keys| && |m| == |m.Keys|;
      }
      NeverExceedsCapacity(m', maxKeys, rs[1..]);
    }
  }

  // ---- Below capacity ----

  function KeysOf(rs: seq<Request>): set<string> {
    if rs == [] then {} else {KeyOf(rs[0])} + KeysOf(rs[1..])
  }

  ghost predicate AllKnown(rs: seq<Request>) {
    forall i :: 0 <= i < |rs| ==> Fresh(rs[i].limit.algorithm).Some?
  }

  /** The bucket a key has, or would be given. */
  function BucketFor(m: Store, sk: string, algorithm: string): BucketState
    requires Fresh(algorithm).Some?
  {
    if sk in m then m[sk] else Fresh(algorithm).value
  }

  /**
   * While there is room for every key that occurs, each key is answered exactly as by a bucket of
   * its own that sees only its requests, from the first one on.
   */
  lemma {:induction false} BelowCapacityEveryKeyStandsAlone(
      m: Store, maxKeys: nat, rs: seq<Request>, algorithm: string, key: string)
    requires AllKnown(rs) && Fresh(algorithm).Some? && |m.Keys + KeysOf(rs)| <= maxKeys
    ensures
      var sk := StateKey(algorithm, key);
      Pick(Answers(m, maxKeys, rs), For(rs, sk))
      == Alone(BucketFor(m, sk, algorithm), Pick(rs, For(rs, sk)))
    decreases |rs|
  {
    var sk := StateKey(algorithm, key);
    if rs != [] {
      var r := rs[0];
      var (m', a) := Answered(m, maxKeys, r);
      RoomFor(m, KeysOf(rs), KeyOf(r), maxKeys);
      FirstIsTracked(m, maxKeys, rs);
      BelowCapacityEveryKeyStandsAlone(m', maxKeys, rs[1..], algorithm, key);
      assert Answers(m, maxKeys, rs)[1..] == Answers(m', maxKeys, rs[1..]);
      assert For(rs, sk)[1..] == For(rs[1..], sk);
      var picked := Pick(rs[1..], For(rs[1..], sk));
      if KeyOf(r) == sk {
        SameAlgorithm(r, algorithm, key);
        assert ([r] + picked)[1..] == picked;
      }
    }
  }

  lemma FirstIsTracked(m: Store, maxKeys: nat, rs: seq<Request>)
    requires rs != [] && AllKnown(rs) && (KeyOf(rs[0]) in m || |m| < maxKeys)
    ensures Answered(m, maxKeys, rs[0]).0.Keys + KeysOf(rs[1..]) == m.Keys + KeysOf(rs)
    ensures AllKnown(rs[1..])
  {
    assert Answered(m, maxKeys, rs[0]).0.Keys == m.Keys + {KeyOf(rs[0])};
  }

  lemma SameAlgorithm(r: Request, algorithm: string, key: string)
    requires Fresh(r.limit.algorithm).Some? && Fresh(algorithm).Some? && KeyOf(r) == StateKey(algorithm, key)
    ensures r.limit.algorithm == algorithm
  {
    KnownAlgorithmsHaveNoColon(r.limit.algorithm);
    KnownAlgorithmsHaveNoColon(algorithm);
    StateKeyInjective(r.limit.algorithm, r.key, algorithm, key);
  }

  /** A key not tracked yet finds room. */
  lemma RoomFor(m: Store, keys: set<string>, sk: string, maxKeys: nat)
    requires sk in keys && |m.Keys + keys| <= maxKeys
    ensures sk in m || |m| < maxKeys
  {
    if sk !in m {
      Sets.SubsetSize(m.Keys + {sk}, m.Keys + keys);
      assert |m.Keys + {sk}| == |m.Keys| + 1;
      assert |m| == |m.Keys|;
    }
  }
}
