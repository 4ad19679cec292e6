/** The limiter key of a request: its route's prefix and the identity of its client. */
module Identities {

  /** An API key by its fingerprint, or a client address as the connection reports it. */
  datatype Identity = ApiKey(fingerprint: string) | Address(host: string)

  function Render(id: Identity): string {
    match id
    case ApiKey(fingerprint) => "key:" + fingerprint
    case Address(host) => "ip:" + host
  }

  function LimiterKey(prefix: string, id: Identity): string {
    prefix + ":" + Render(id)
  }

  /** Fingerprints are hexadecimal digits. */
  predicate Proper(id: Identity) {
    id.ApiKey? ==> forall i :: 0 <= i < |id.fingerprint| ==> id.fingerprint[i] != ':'
  }

  /** One route keeps its clients apart. */
  lemma ClientsDoNotCollide(prefix: string, a: Identity, b: Identity)
    requires LimiterKey(prefix, a) == LimiterKey(prefix, b)
    ensures a == b
  {
    var k := LimiterKey(prefix, a);
    assert Render(a) == k[|prefix| + 1..] == Render(b);
    assert Render(a)[0] == Render(b)[0];
    var n := |Render(a)| - |Value(a)|;
    assert Value(a) == Render(a)[n..] && Value(b) == Render(b)[n..];
  }

  function Value(id: Identity): string {
    match id
    case ApiKey(fingerprint) => fingerprint
    case Address(host) => host
  }

  /** A client as the request names it. */
  datatype Client = WithKey(apiKey: string) | From(host: string)

  /** Its identity, with the digest that fingerprints API keys. */
  function IdentityOf(digest: string -> string, c: Client): Identity {
    match c
    case WithKey(apiKey) => ApiKey(digest(apiKey))
    case From(host) => Address(host)
  }

  /** On one route two clients share a limiter key only by presenting API keys of equal digest. */
  lemma ClientsShareAKeyIff(digest: string -> string, prefix: string, a: Client, b: Client)
    ensures LimiterKey(prefix, IdentityOf(digest, a)) == LimiterKey(prefix, IdentityOf(digest, b))
            <==> a == b || (a.WithKey? && b.WithKey? && digest(a.apiKey) == digest(b.apiKey))
  {
    if LimiterKey(prefix, IdentityOf(digest, a)) == LimiterKey(prefix, IdentityOf(digest, b)) {
      ClientsDoNotCollide(prefix, IdentityOf(digest, a), IdentityOf(digest, b));
    }
  }

  /** `longer` continues `shorter` with what looks like the start of an address. */
  predicate Extends(shorter: string, longer: string) {
    shorter + ":ip:" <= longer + ":"
  }

  ghost predicate Collide(a: string, i: Identity, b: string, j: Identity) {
    Proper(i) && Proper(j) && LimiterKey(a, i) == LimiterKey(b, j)
  }

  ghost predicate ShareAKey(a: string, b: string) {
    exists i, j :: Collide(a, i, b, j)
  }

  /**
   * Two routes never share a limiter key, whoever their clients are, unless one's prefix extends
   * the other's by ":ip"; and then an address can be reported that makes them share one.
   */
  lemma RoutesShareAKeyIff(a: string, b: string)
    requires a != b
    ensures ShareAKey(a, b) <==> Extends(a, b) || Extends(b, a)
  {
    if Extends(a, b) { var _, _ := ExtendsCollide(a, b); }
    if Extends(b, a) {
      var i, j := ExtendsCollide(b, a);
      assert Collide(a, j, b, i);
    }
    if ShareAKey(a, b) {
      var i, j :| Collide(a, i, b, j);
      if |a| <= |b| { CollideExtends(a, i, b, j); } else { CollideExtends(b, j, a, i); }
    }
  }

  lemma ExtendsCollide(a: string, b: string) returns (i: Identity, j: Identity)
    requires Extends(a, b)
    ensures Collide(a, i, b, j)
  {
    var whole := LimiterKey(b, Address(""));
    j := Address("");
    i := Address(whole[|a| + 4..]);
    assert whole == (b + ":") + "ip:";
    assert whole[..|a| + 4] == (b + ":")[..|a| + 4] == a + ":ip:";
    assert whole == whole[..|a| + 4] + whole[|a| + 4..];
    assert LimiterKey(a, i) == a + ":ip:" + whole[|a| + 4..];
  }

  /** Where the parts of a limiter key lie. */
  lemma KeyShape(prefix: string, id: Identity)
    requires Proper(id)
    ensures
      var k, n := LimiterKey(prefix, id), |prefix|;
      && |k| > n + KindLength(id) + 1
      && k[..n] == prefix && k[n] == ':' && k[n + KindLength(id) + 1] == ':'
      && (id.Address? ==> k[n + 1] == 'i' && k[n + 2] == 'p' && k[n + 4..] == id.host)
      && (id.ApiKey? ==> k[n + 3] == 'y' && forall at :: n < at < |k| && k[at] == ':' ==> at == n + 4)
  {
    var k, n := LimiterKey(prefix, id), |prefix|;
    assert forall at :: n < at < |k| ==> k[at] == Render(id)[at - n - 1];
    if id.ApiKey? {
      assert forall at :: 4 <= at < |Render(id)| ==> Render(id)[at] == id.fingerprint[at - 4];
    }
  }

  function KindLength(id: Identity): nat {
    if id.ApiKey? then 3 else 2
  }

  lemma CollideExtends(a: string, i: Identity, b: string, j: Identity)
    requires Collide(a, i, b, j) && a != b && |a| <= |b|
    ensures Extends(a, b) && i.Address? && |b| >= |a| + 3
  {
    hide LimiterKey;
    var k := LimiterKey(a, i);
    KeyShape(a, i);
    KeyShape(b, j);
    assert |a| < |b|;
    if i.Address? {
      assert k[..|a| + 4] == a + ":ip:";
      assert k[..|b| + 1] == b + ":";
      assert k[..|b| + 1][..|a| + 4] == k[..|a| + 4];
    }
  }

  /** What an address without a zone is written with. */
  predicate AddressChar(c: char) {
    '0' <= c <= '9' || 'a' <= c <= 'f' || 'A' <= c <= 'F' || c == '.' || c == ':'
  }

  ghost predicate PlainAddress(id: Identity) {
    id.Address? ==> forall i :: 0 <= i < |id.host| ==> AddressChar(id.host[i])
  }

  /** A host that makes two routes collide spells out another client's kind. */
  lemma CollidingHostIsNotPlain(a: string, i: Identity, b: string, j: Identity)
    requires Collide(a, i, b, j) && a != b && |a| <= |b|
    ensures !PlainAddress(i)
  {
    hide LimiterKey;
    CollideExtends(a, i, b, j);
    KeyShape(a, i);
    KeyShape(b, j);
    var k, at := LimiterKey(a, i), |b| + KindLength(j);
    assert i.host[at - |a| - 4] == k[at];
    assert !AddressChar(k[at]);
  }

  /** So for clients with ordinary addresses no two routes share a quota. */
  lemma OrdinaryClientsNeverCollide(a: string, i: Identity, b: string, j: Identity)
    requires Proper(i) && Proper(j) && PlainAddress(i) && PlainAddress(j)
    requires LimiterKey(a, i) == LimiterKey(b, j)
    ensures a == b && i == j
  {
    if a == b {
      ClientsDoNotCollide(a, i, j);
    } else if |a| <= |b| {
      CollidingHostIsNotPlain(a, i, b, j);
    } else {
      CollidingHostIsNotPlain(b, j, a, i);
    }
  }
}
