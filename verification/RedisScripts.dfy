/** The three Lua scripts over one expiring Redis key. Times and windows are microseconds. */
module RedisScripts {
  import opened Limits
  import FixedWindow
  import TokenBucket

  // ---- The key ----

  /** A member of the accept-time zset: the score is the accept time, the nonce tells ties apart. */
  datatype Entry = Entry(score: int, nonce: nat)

  datatype Stored =
    | Window(ws: int, count: int)
    | Tokens(tokens: real, last: int)
    | Log(entries: seq<Entry>)

  /** A key is absent, or holds a value until the millisecond `deadline` is past. */
  datatype Key = Missing | Live(value: Stored, deadline: int)

  datatype Reply = Reply(allowed: bool, remaining: int, reset: int, retryAfter: int)

  predicate KnownAlgorithm(algorithm: string) {
    algorithm == ALGO_FIXED_WINDOW || algorithm == ALGO_TOKEN_BUCKET || algorithm == ALGO_SLIDING_WINDOW
  }

  /** The algorithm is part of the key's name, so a key only ever holds its own kind of value. */
  predicate Fits(l: Limit, k: Key) {
    && KnownAlgorithm(l.algorithm)
    && (k.Live? ==>
          && (l.algorithm == ALGO_FIXED_WINDOW <==> k.value.Window?)
          && (l.algorithm == ALGO_TOKEN_BUCKET <==> k.value.Tokens?)
          && (l.algorithm == ALGO_SLIDING_WINDOW <==> k.value.Log?))
  }

  function Millis(now: int): int {
    now / 1000
  }

  function CeilMillis(micros: int): int {
    (micros + 999) / 1000
  }

  /** PEXPIRE and PEXPIREAT: a deadline that is not in the future deletes the key at once. */
  function ExpireAt(v: Stored, deadline: int, now: int): Key {
    if deadline <= Millis(now) then Missing else Live(v, deadline)
  }

  /** A key may vanish once the millisecond clock is past its deadline. */
  predicate MayVanish(k: Key, now: int) {
    k.Live? && Millis(now) > k.deadline
  }

  // ---- fixed_window.lua ----

  function FixedScript(l: Limit, k: Key, now: int): (Key, Reply)
    requires Usable(l) && (k.Live? ==> k.value.Window?)
  {
    var grid := FixedWindow.Truncate(now, l.window);
    var keep := k.Live? && k.value.ws >= grid;
    var ws := if keep then k.value.ws else grid;
    var before := if keep then k.value.count else 0;
    var allowed := before < l.rate;
    var after := if allowed then before + 1 else before;
    var reset := ws + l.window;
    (if allowed then ExpireAt(Window(ws, after), CeilMillis(ws + l.window), now) else k,
     Reply(allowed, AtLeastZero(l.rate - after), reset, if allowed then 0 else reset - now))
  }

  // ---- token_bucket.lua ----

  function CeilReal(x: real): int {
    -((-x).Floor)
  }

  /** Time until the bucket is full, in ticks. */
  function ToFull(l: Limit, tokens: real): real
    requires Usable(l)
  {
    (l.burst as real - tokens) / TokenBucket.PerTick(l)
  }

  function TokensTtl(l: Limit, tokens: real): (ms: int)
    requires Usable(l)
    ensures ms >= 1
  {
    var ttl := CeilReal(ToFull(l, tokens) / 1000.0);
    if ttl < 1 then 1 else ttl
  }

  /** Tokens and last-refill instant the script computes from the key at `now`. */
  function Refilled(l: Limit, k: Key, now: int): (real, int)
    requires Usable(l) && (k.Live? ==> k.value.Tokens?)
  {
    if k.Missing? then (l.burst as real, now)
    else if now > k.value.last then
      (TokenBucket.MinReal(l.burst as real,
        k.value.tokens + TokenBucket.Earned(TokenBucket.PerTick(l), now - k.value.last)), now)
    else (k.value.tokens, k.value.last)
  }

  function TokenScript(l: Limit, k: Key, now: int): (Key, Reply)
    requires Usable(l) && (k.Live? ==> k.value.Tokens?)
  {
    var (full, last) := Refilled(l, k, now);
    var allowed := TokenBucket.Admits(full);
    var left := TokenBucket.Take(full);
    (ExpireAt(Tokens(left, last), Millis(now) + TokensTtl(l, left), now),
     Reply(allowed, left.Floor, now + CeilReal(ToFull(l, left)),
           if allowed then 0 else CeilReal((1.0 - left) / TokenBucket.PerTick(l))))
  }

  // ---- sliding_window.lua ----

  predicate Before(a: Entry, b: Entry) {
    a.score < b.score || (a.score == b.score && a.nonce < b.nonce)
  }

  /** ZADD into a zset kept in (score, member) order; adding a member twice changes nothing. */
  function ZAdd(z: seq<Entry>, e: Entry): (z': seq<Entry>)
    ensures |z| <= |z'| <= |z| + 1
  {
    if z == [] then [e]
    else if z[0] == e then z
    else if Before(e, z[0]) then [e] + z
    else [z[0]] + ZAdd(z[1..], e)
  }

  /** ZREMRANGEBYSCORE -inf max. */
  function ZRemUpTo(z: seq<Entry>, max: int): (z': seq<Entry>)
    ensures |z'| <= |z|
    ensures forall i :: 0 <= i < |z'| ==> z'[i].score > max
  {
    if z == [] then []
    else if z[0].score <= max then ZRemUpTo(z[1..], max)
    else [z[0]] + ZRemUpTo(z[1..], max)
  }

  function EntriesOf(k: Key): seq<Entry>
    requires k.Live? ==> k.value.Log?
  {
    if k.Live? then k.value.entries else []
  }

  /** PEXPIRE leaves an absent key absent, and a zset left empty is an absent key. */
  function KeepLog(z: seq<Entry>, ttl: int, now: int): Key {
    if z == [] then Missing else ExpireAt(Log(z), Millis(now) + ttl, now)
  }

  function SlidingScript(l: Limit, k: Key, now: int, nonce: nat): (Key, Reply)
    requires Usable(l) && (k.Live? ==> k.value.Log?)
  {
    var kept := ZRemUpTo(EntriesOf(k), now - l.window);
    var allowed := |kept| < l.rate;
    var z := if allowed then ZAdd(kept, Entry(now, nonce)) else kept;
    var count := if allowed then |kept| + 1 else |kept|;
    var reset := if z != [] then z[|z| - 1].score + l.window else now;
    var retry := if !allowed && z != [] then z[0].score + l.window - now else 0;
    (KeepLog(z, CeilMillis(l.window), now), Reply(allowed, AtLeastZero(l.rate - count), reset, retry))
  }

  // ---- One interface ----

  function Script(l: Limit, k: Key, now: int, nonce: nat): (Key, Reply)
    requires Usable(l) && Fits(l, k)
  {
    if l.algorithm == ALGO_FIXED_WINDOW then FixedScript(l, k, now)
    else if l.algorithm == ALGO_TOKEN_BUCKET then TokenScript(l, k, now)
    else SlidingScript(l, k, now, nonce)
  }

  lemma ScriptFits(l: Limit, k: Key, now: int, nonce: nat)
    requires Usable(l) && Fits(l, k)
    ensures Fits(l, Script(l, k, now, nonce).0)
  {
  }

  /** What happens to the key: a script call, or a chance for an overdue key to vanish. */
  datatype Event =
    | Call(at: int, now: int, nonce: nat)
    | Vanish(at: int, now: int)

  function Transition(l: Limit, k: Key, e: Event): (k': Key)
    requires Usable(l) && Fits(l, k)
    ensures Fits(l, k')
  {
    ScriptFits(l, k, e.now, if e.Call? then e.nonce else 0);
    match e
    case Call(_, now, nonce) => Script(l, k, now, nonce).0
    case Vanish(_, now) => if MayVanish(k, now) then Missing else k
  }

  /** The replies of the script calls among `es`, in order. */
  function Replies(l: Limit, k: Key, es: seq<Event>): seq<Reply>
    requires Usable(l) && Fits(l, k)
    decreases |es|
  {
    if es == [] then [] else
      var rest := Replies(l, Transition(l, k, es[0]), es[1..]);
      if es[0].Call? then [Script(l, k, es[0].now, es[0].nonce).1] + rest else rest
  }

  function After(l: Limit, k: Key, es: seq<Event>): (k': Key)
    requires Usable(l) && Fits(l, k)
    ensures Fits(l, k')
    decreases |es|
  {
    if es == [] then k else After(l, Transition(l, k, es[0]), es[1..])
  }

  /** How many of the calls among `es` are admitted. */
  function Admitted(l: Limit, k: Key, es: seq<Event>): nat
    requires Usable(l) && Fits(l, k)
    decreases |es|
  {
    if es == [] then 0 else
      (if es[0].Call? && Script(l, k, es[0].now, es[0].nonce).1.allowed then 1 else 0)
      + Admitted(l, Transition(l, k, es[0]), es[1..])
  }

  /** True time moves on, and between any two events TIME gains no more than true time does. */
  ghost predicate NeverFast(es: seq<Event>) {
    forall i, j :: 0 <= i < j < |es| ==>
      es[i].at <= es[j].at && es[j].now - es[i].now <= es[j].at - es[i].at
  }

  // ---- The scripts as they run ----

  /** One key of the shared server, its clock, and the scripts that act on the key. */
  class RedisKey {
    var key: Key
    var now: int

    constructor (now: int)
      ensures key == Missing && this.now == now
    {
      key, this.now := Missing, now;
    }

    /** TIME moves, forward or (gettimeofday) back. */
    method Tick(now: int)
      modifies this`now
      ensures this.now == now
    {
      this.now := now;
    }

    /** Redis reclaims an overdue key. */
    method Reclaim()
      modifies this`key
      ensures key == if MayVanish(old(key), now) then Missing else old(key)
    {
      if MayVanish(key, now) {
        key := Missing;
      }
    }

    /** One event of a run: TIME has moved, and the key is called or may be reclaimed. */
    method Handle(l: Limit, e: Event) returns (r: Option<Reply>)
      requires Usable(l) && Fits(l, key)
      modifies this
      ensures now == e.now && key == Transition(l, old(key), e)
      ensures r == if e.Call? then Some(Script(l, old(key), e.now, e.nonce).1) else None
    {
      Tick(e.now);
      if e.Vanish? {
        Reclaim();
        return None;
      }
      var reply;
      if l.algorithm == ALGO_FIXED_WINDOW {
        reply := EvalFixedWindow(l);
      } else if l.algorithm == ALGO_TOKEN_BUCKET {
        reply := EvalTokenBucket(l);
      } else {
        reply := EvalSlidingWindow(l, e.nonce);
      }
      r := Some(reply);
    }

    method EvalFixedWindow(l: Limit) returns (r: Reply)
      requires Usable(l) && (key.Live? ==> key.value.Window?)
      modifies this`key
      ensures (key, r) == FixedScript(l, old(key), now)
    {
      var ws := FixedWindow.Truncate(now, l.window);
      var count := 0;
      if key.Live? {
        var sws := key.value.ws;
        if sws >= ws {
          ws := sws;
          count := key.value.count;
        }
      }
      var allowed := count < l.rate;
      if allowed {
        count := count + 1;
        key := ExpireAt(Window(ws, count), CeilMillis(ws + l.window), now);
      }
      var remaining := l.rate - count;
      if remaining < 0 {
        remaining := 0;
      }
      var reset := ws + l.window;
      var retry := 0;
      if !allowed {
        retry := reset - now;
      }
      r := Reply(allowed, remaining, reset, retry);
    }

    method EvalTokenBucket(l: Limit) returns (r: Reply)
      requires Usable(l) && (key.Live? ==> key.value.Tokens?)
      modifies this`key
      ensures (key, r) == TokenScript(l, old(key), now)
    {
      hide TokenBucket.Earned;
      var burst := l.burst as real;
      var refill := TokenBucket.PerTick(l);
      var tokens, last := burst, now;
      if key.Live? {
        tokens, last := key.value.tokens, key.value.last;
      }
      if now > last {
        tokens := TokenBucket.MinReal(burst, tokens + TokenBucket.Earned(refill, now - last));
        last := now;
      }
      var allowed := tokens >= 1.0 - TokenBucket.EPSILON;
      if allowed {
        tokens := tokens - 1.0;
        if tokens < 0.0 {
          tokens := 0.0;
        }
      }
      var toFull := (burst - tokens) / refill;
      var ttl := CeilReal(toFull / 1000.0);
      if ttl < 1 {
        ttl := 1;
      }
      key := ExpireAt(Tokens(tokens, last), Millis(now) + ttl, now);
      var retry := 0;
      if !allowed {
        retry := CeilReal((1.0 - tokens) / refill);
      }
      r := Reply(allowed, tokens.Floor, now + CeilReal(toFull), retry);
    }

    method EvalSlidingWindow(l: Limit, nonce: nat) returns (r: Reply)
      requires Usable(l) && (key.Live? ==> key.value.Log?)
      modifies this`key
      ensures (key, r) == SlidingScript(l, old(key), now, nonce)
    {
      var z := ZRemUpTo(EntriesOf(key), now - l.window);
      var count := |z|;
      var allowed := count < l.rate;
      if allowed {
        z := ZAdd(z, Entry(now, nonce));
        count := count + 1;
      }
      key := KeepLog(z, CeilMillis(l.window), now);
      var remaining := l.rate - count;
      if remaining < 0 {
        remaining := 0;
      }
      var reset, retry := now, 0;
      if z != [] {
        reset := z[|z| - 1].score + l.window;
      }
      if !allowed {
        if z != [] {
          retry := z[0].score + l.window - now;
        }
      }
      r := Reply(allowed, remaining, reset, retry);
    }
  }
}
