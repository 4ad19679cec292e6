/** The in-memory limiter: a capped map of buckets, one per algorithm and key. */
module MemoryLimiter {
  import opened Limits
  import opened Buckets
  import FixedWindow
  import SlidingWindow
  import TokenBucket

  type UsableLimit = l: Limit | Usable(l) witness Limit("", 1, 0, 1)

  datatype Request = Request(key: string, limit: UsableLimit, now: int)

  datatype Refusal = AtCapacity | UnknownAlgorithm

  type Answer = Result<Decision, Refusal>

  type Store = map<string, BucketState>

  function StateKey(algorithm: string, key: string): string {
    algorithm + ":" + key
  }

  function KeyOf(r: Request): string {
    StateKey(r.limit.algorithm, r.key)
  }

  function Answered(m: Store, maxKeys: nat, r: Request): (Store, Answer) {
    var sk := KeyOf(r);
    if sk in m then
      var (s', dec) := Step(r.limit, m[sk], r.now);
      (m[sk := s'], Ok(dec))
    else if |m| >= maxKeys then (m, Err(AtCapacity))
    else
      match Fresh(r.limit.algorithm)
      case None => (m, Err(UnknownAlgorithm))
      case Some(s) =>
        var (s', dec) := Step(r.limit, s, r.now);
        (m[sk := s'], Ok(dec))
  }

  // ---- The limiter as it runs ----

  /** A bucket held through the common interface. */
  datatype BucketRef =
    | FixedRef(fixed: FixedWindow.FixedWindowBucket)
    | TokenRef(token: TokenBucket.TokenBucketState)
    | SlidingRef(sliding: SlidingWindow.SlidingWindowBucket)
  {
    function Obj(): object {
      match this
      case FixedRef(b) => b
      case TokenRef(b) => b
      case SlidingRef(b) => b
    }

    function Value(): BucketState
      reads Obj()
    {
      match this
      case FixedRef(b) => Fixed(b.windowStart, b.count)
      case TokenRef(b) => Token(b.tokens, b.last)
      case SlidingRef(b) => Sliding(b.timestamps)
    }

    method Step(l: Limit, now: int) returns (dec: Decision)
      requires Usable(l)
      modifies Obj()
      ensures (Value(), dec) == Buckets.Step(l, old(Value()), now)
    {
      match this
      case FixedRef(b) => dec := b.Step(l, now);
      case TokenRef(b) => dec := b.Step(l, now);
      case SlidingRef(b) => dec := b.Step(l, now);
    }
  }

  method NewBucket(algorithm: string) returns (b: Option<BucketRef>)
    ensures b.None? <==> Fresh(algorithm).None?
    ensures b.Some? ==> fresh(b.value.Obj()) && Some(b.value.Value()) == Fresh(algorithm)
  {
    if algorithm == ALGO_FIXED_WINDOW {
      var f := new FixedWindow.FixedWindowBucket();
      b := Some(FixedRef(f));
    } else if algorithm == ALGO_TOKEN_BUCKET {
      var t := new TokenBucket.TokenBucketState();
      b := Some(TokenRef(t));
    } else if algorithm == ALGO_SLIDING_WINDOW {
      var s := new SlidingWindow.SlidingWindowBucket();
      b := Some(SlidingRef(s));
    } else {
      b := None;
    }
  }

  class Limiter {
    const maxKeys: nat
    var state: map<string, BucketRef>

    ghost function Objects(): set<object>
      reads this
    {
      set k | k in state :: state[k].Obj()
    }

    /** No bucket serves two keys. */
    ghost predicate Valid()
      reads this
    {
      && this !in Objects()
      && forall j, k :: j in state && k in state && j != k ==> state[j].Obj() != state[k].Obj()
    }

    ghost function View(): Store
      reads this, Objects()
    {
      map k | k in state :: state[k].Value()
    }

    constructor (maxKeys: nat)
      ensures Valid() && View() == map[] && this.maxKeys == maxKeys && fresh(Objects())
    {
      this.maxKeys := maxKeys;
      state := map[];
    }

    lemma Tracked(sk: string)
      requires sk in state
      ensures state[sk].Obj() in Objects()
      ensures sk in View() && View()[sk] == state[sk].Value() && |state| == |View()|
    {
      assert state.Keys == View().Keys;
    }

    /** Starts a bucket for a key not tracked yet, if there is room for it. */
    method Track(sk: string, b: BucketRef)
      requires Valid() && sk !in state && b.Obj() !in Objects() && b.Obj() != this
      modifies this`state
      ensures Valid() && sk in state && state[sk] == b
      ensures Objects() == old(Objects()) + {b.Obj()}
      ensures View() == old(View())[sk := b.Value()]
    {
      forall k | k in state ensures state[k].Obj() != b.Obj() {
        Tracked(k);
      }
      state := state[sk := b];
      assert forall k :: k in state && k != sk ==> state[k] == old(state)[k];
    }

    method StepTracked(sk: string, l: Limit, now: int) returns (dec: Decision)
      requires Valid() && Usable(l) && sk in state
      modifies state[sk].Obj()
      ensures state == old(state) && Valid() && Objects() == old(Objects())
      ensures sk in old(View()) && dec == Step(l, old(View())[sk], now).1
      ensures View() == old(View())[sk := Step(l, old(View())[sk], now).0]
    {
      Tracked(sk);
      dec := state[sk].Step(l, now);
      assert forall k :: k in state && k != sk ==> state[k].Value() == old(state[k].Value());
    }

    method Allow(r: Request) returns (a: Answer)
      requires Valid()
      modifies this, Objects()
      ensures Valid() && fresh(Objects() - old(Objects()))
      ensures (View(), a) == Answered(old(View()), maxKeys, r)
    {
      hide Valid, Buckets.Step;
      var sk := KeyOf(r);
      ghost var m := View();
      assert |state| == |m| && (sk in state <==> sk in m) by {
        assert state.Keys == View().Keys;
      }
      if sk !in state {
        if |state| >= maxKeys {
          return Err(AtCapacity);
        }
        var nb := NewBucket(r.limit.algorithm);
        if nb.None? {
          return Err(UnknownAlgorithm);
        }
        Track(sk, nb.value);
        assert View() == m[sk := Fresh(r.limit.algorithm).value];
      }
      Tracked(sk);
      ghost var s := View()[sk];
      var dec := StepTracked(sk, r.limit, r.now);
      assert View() == m[sk := Buckets.Step(r.limit, s, r.now).0];
      a := Ok(dec);
    }
  }
}
