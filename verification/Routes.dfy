/** The route table: a sorted linear scan that finds the longest prefix by whole segments. */
module Routes {
  import opened Limits
  import opened Paths
  import Config

  /** A compiled route: its prefix without trailing slashes, so that "/" becomes "". */
  datatype Entry = Entry(prefix: string, route: Config.Route)

  function Compile(r: Config.Route): Entry {
    Entry(Config.TrimRight(r.prefix), r)
  }

  function Compiled(routes: seq<Config.Route>): (es: seq<Entry>)
    ensures |es| == |routes| && forall i :: 0 <= i < |es| ==> es[i] == Compile(routes[i])
  {
    seq(|routes|, i requires 0 <= i < |routes| => Compile(routes[i]))
  }

  // ---- Sorting, longest prefix first, equals in their given order ----

  function Insert(es: seq<Entry>, e: Entry): (r: seq<Entry>)
    ensures |r| == |es| + 1
  {
    if es == [] || |es[|es| - 1].prefix| >= |e.prefix| then es + [e]
    else Insert(es[..|es| - 1], e) + [es[|es| - 1]]
  }

  function Sorted(es: seq<Entry>): (r: seq<Entry>)
    ensures |r| == |es|
  {
    if es == [] then [] else Insert(Sorted(es[..|es| - 1]), es[|es| - 1])
  }

  predicate LongestFirst(es: seq<Entry>) {
    forall i, j :: 0 <= i < j < |es| ==> |es[i].prefix| >= |es[j].prefix|
  }

  lemma {:induction false} InsertSorts(es: seq<Entry>, e: Entry)
    requires LongestFirst(es)
    ensures LongestFirst(Insert(es, e))
    decreases |es|
  {
    if es != [] && |es[|es| - 1].prefix| < |e.prefix| {
      var init, last := es[..|es| - 1], es[|es| - 1];
      assert es == init + [last];
      InsertSorts(init, e);
      InsertPermutes(init, e);
      var r := Insert(init, e);
      forall i | 0 <= i < |r| ensures |r[i].prefix| >= |last.prefix| {
        assert r[i] in multiset(r);
        assert r[i] in init || r[i] == e;
      }
    }
  }

  lemma {:induction false} InsertPermutes(es: seq<Entry>, e: Entry)
    ensures multiset(Insert(es, e)) == multiset(es) + multiset{e}
    decreases |es|
  {
    if es != [] && |es[|es| - 1].prefix| < |e.prefix| {
      assert es == es[..|es| - 1] + [es[|es| - 1]];
      InsertPermutes(es[..|es| - 1], e);
    }
  }

  /** Sorting orders the entries and loses none. */
  lemma {:induction false} SortedIsOrderedPermutation(es: seq<Entry>)
    ensures LongestFirst(Sorted(es)) && multiset(Sorted(es)) == multiset(es)
    decreases |es|
  {
    if es != [] {
      var init, last := es[..|es| - 1], es[|es| - 1];
      assert es == init + [last];
      SortedIsOrderedPermutation(init);
      InsertSorts(Sorted(init), last);
      InsertPermutes(Sorted(init), last);
    }
  }

  /** The entries with one length of prefix, in order. */
  function OfLength(es: seq<Entry>, n: nat): seq<Entry> {
    if es == [] then [] else
      OfLength(es[..|es| - 1], n) + (if |es[|es| - 1].prefix| == n then [es[|es| - 1]] else [])
  }

  lemma {:induction false} InsertIsStable(es: seq<Entry>, e: Entry, n: nat)
    ensures OfLength(Insert(es, e), n) == OfLength(es, n) + (if |e.prefix| == n then [e] else [])
    decreases |es|
  {
    if es == [] || |es[|es| - 1].prefix| >= |e.prefix| {
      assert (es + [e])[..|es|] == es;
    } else {
      var init, last := es[..|es| - 1], es[|es| - 1];
      InsertIsStable(init, e, n);
      assert (Insert(init, e) + [last])[..|es|] == Insert(init, e);
      if |e.prefix| == n { NoneShorter(init, last, n); }
    }
  }

  lemma {:induction false} SortingIsStable(es: seq<Entry>, n: nat)
    ensures OfLength(Sorted(es), n) == OfLength(es, n)
    decreases |es|
  {
    if es != [] {
      SortingIsStable(es[..|es| - 1], n);
      InsertIsStable(Sorted(es[..|es| - 1]), es[|es| - 1], n);
    }
  }

  lemma NoneShorter(init: seq<Entry>, last: Entry, n: nat)
    requires |last.prefix| < n
    ensures OfLength(init + [last], n) == OfLength(init, n)
  {
    assert (init + [last])[..|init|] == init;
  }

  method SortStable(a: array<Entry>)
    modifies a
    ensures a[..] == Sorted(old(a[..]))
  {
    for i := 0 to a.Length
      invariant a[..i] == Sorted(old(a[..i]))
      invariant forall k :: i <= k < a.Length ==> a[k] == old(a[k])
    {
      assert old(a[..i + 1])[..i] == old(a[..i]);
      ghost var before := a[..i];
      InsertLast(a, i);
      assert a[..i + 1] == Insert(before, old(a[i]));
    }
    assert a[..a.Length] == a[..] && old(a[..a.Length]) == old(a[..]);
  }

  /** `es` with its entry `i` moved down to place `j`. */
  function Moved(es: seq<Entry>, i: nat, j: nat): (r: seq<Entry>)
    requires j <= i < |es|
    ensures |r| == |es| && r[j] == es[i] && forall k :: 0 <= k < j || i < k < |es| ==> r[k] == es[k]
  {
    es[..j] + [es[i]] + es[j..i] + es[i + 1..]
  }

  lemma MovedOneDown(es: seq<Entry>, i: nat, j: nat)
    requires 0 < j <= i < |es|
    ensures Moved(es, i, j)[j - 1 := es[i]][j := es[j - 1]] == Moved(es, i, j - 1)
  {
  }

  /** An entry shorter than the one to insert stays behind it. */
  lemma InsertOneDown(es: seq<Entry>, e: Entry, i: nat, j: nat)
    requires 0 < j <= i <= |es| && |es[j - 1].prefix| < |e.prefix|
    ensures Insert(es[..j], e) + es[j..i] == Insert(es[..j - 1], e) + es[j - 1..i]
  {
    assert es[..j][..j - 1] == es[..j - 1] && es[j - 1..i] == [es[j - 1]] + es[j..i];
  }

  /** Moves `a[i]` to its place among the sorted entries before it. */
  method InsertLast(a: array<Entry>, i: nat)
    requires i < a.Length
    modifies a
    ensures a[..i + 1] == Insert(old(a[..i]), old(a[i]))
    ensures forall k :: i < k < a.Length ==> a[k] == old(a[k])
  {
    hide Insert;
    var j := i;
    ghost var es := a[..];
    while j > 0 && |a[j - 1].prefix| < |a[j].prefix|
      invariant 0 <= j <= i
      invariant a[..] == Moved(es, i, j)
      invariant Insert(es[..i], es[i]) == Insert(es[..j], es[i]) + es[j..i]
    {
      assert a[j] == a[..][j] && a[j - 1] == a[..][j - 1];
      InsertOneDown(es, es[i], i, j);
      MovedOneDown(es, i, j);
      a[j - 1], a[j] := a[j], a[j - 1];
      j := j - 1;
    }
    InsertAtEnd(es[..j], es[i]) by {
      assert j > 0 ==> a[..][j - 1] == es[j - 1] && a[..][j] == es[i];
    }
    assert a[..i + 1] == a[..][..i + 1];
    assert forall k :: i < k < a.Length ==> a[k] == a[..][k];
  }

  lemma InsertAtEnd(es: seq<Entry>, e: Entry)
    requires es == [] || |es[|es| - 1].prefix| >= |e.prefix|
    ensures Insert(es, e) == es + [e]
  {
  }

  // ---- Matching ----

  predicate Matches(e: Entry, p: string) {
    p == e.prefix || e.prefix + "/" <= p
  }

  /** The first entry that matches. */
  function Scan(es: seq<Entry>, p: string): Option<Entry> {
    if es == [] then None else if Matches(es[0], p) then Some(es[0]) else Scan(es[1..], p)
  }

  lemma {:induction false} ScanFindsFirst(es: seq<Entry>, p: string)
    ensures Scan(es, p).None? ==> forall e :: e in es ==> !Matches(e, p)
    ensures Scan(es, p).Some? ==> exists i :: 0 <= i < |es| && FirstAt(es, p, i) && Scan(es, p) == Some(es[i])
    decreases |es|
  {
    if es != [] {
      if Matches(es[0], p) {
        assert FirstAt(es, p, 0);
      } else {
        ScanFindsFirst(es[1..], p);
        if Scan(es[1..], p).Some? {
          var i :| 0 <= i < |es[1..]| && FirstAt(es[1..], p, i) && Scan(es[1..], p) == Some(es[1..][i]);
          assert forall k :: 1 <= k <= i ==> es[k] == es[1..][k - 1];
          assert FirstAt(es, p, i + 1);
        }
      }
    }
  }

  ghost predicate FirstAt(es: seq<Entry>, p: string, i: nat) {
    i < |es| && Matches(es[i], p) && forall k :: 0 <= k < i ==> !Matches(es[k], p)
  }

  /** What the table answers for a path. */
  function Lookup(routes: seq<Config.Route>, path: string): Option<Entry> {
    Scan(Sorted(Compiled(routes)), Clean(path))
  }

  class Table {
    const entries: array<Entry>

    constructor (routes: seq<Config.Route>)
      ensures fresh(entries) && entries[..] == Sorted(Compiled(routes))
    {
      var es := new Entry[|routes|];
      for i := 0 to |routes|
        invariant forall k :: 0 <= k < i ==> es[k] == Compile(routes[k])
      {
        es[i] := Entry(Config.TrimRight(routes[i].prefix), routes[i]);
      }
      assert es[..] == Compiled(routes);
      SortStable(es);
      entries := es;
    }

    method Match(path: string) returns (found: Option<Entry>)
      ensures found == Scan(entries[..], Clean(path))
    {
      var p := Clean(path);
      for i := 0 to entries.Length
        invariant Scan(entries[..], p) == Scan(entries[i..], p)
      {
        assert entries[i..][1..] == entries[i + 1..];
        if Matches(entries[i], p) {
          return Some(entries[i]);
        }
      }
      assert entries[entries.Length..] == [];
      found := None;
    }
  }

  // ---- The longest prefix by whole segments ----

  /** The route's segments begin the segments of the path. */
  predicate Covers(e: Entry, segments: seq<string>) {
    Split(e.prefix) <= segments
  }

  /** A configured prefix by segments, trailing slashes aside. */
  function WithoutEmptyEnd(segments: seq<string>): seq<string>
    requires segments != []
  {
    var n := |segments| - 1;
    if n > 0 && segments[n] == "" then WithoutEmptyEnd(segments[..n]) else segments
  }

  lemma {:induction false} TrimmedSegments(prefix: string)
    ensures Split(Config.TrimRight(prefix)) == WithoutEmptyEnd(Split(prefix))
    decreases |prefix|
  {
    var n := |prefix| - 1;
    if n >= 0 && prefix[n] == '/' {
      assert prefix == prefix[..n] + "/" + [];
      SplitConcat(prefix[..n], []);
      assert Split(prefix)[..|Split(prefix)| - 1] == Split(prefix[..n]);
      TrimmedSegments(prefix[..n]);
    } else if n >= 0 {
      LastSegment(prefix);
    }
  }

  lemma {:induction false} LastSegment(s: string)
    requires s != [] && s[|s| - 1] != '/'
    ensures Split(s)[|Split(s)| - 1] != ""
    decreases |s|
  {
    if |s| > 1 {
      LastSegment(s[1..]);
    }
  }

  /** A route covers the paths that continue its configured prefix, however many slashes end it. */
  lemma CoversIff(r: Config.Route, segments: seq<string>)
    ensures Covers(Compile(r), segments) <==> WithoutEmptyEnd(Split(r.prefix)) <= segments
    ensures Depth(Compile(r)) == |WithoutEmptyEnd(Split(r.prefix))| && Compile(r).route == r
  {
    TrimmedSegments(r.prefix);
  }

  function Depth(e: Entry): nat {
    |Split(e.prefix)|
  }

  /** `e` is the deepest route that covers those segments. */
  ghost predicate Deepest(es: seq<Entry>, segments: seq<string>, e: Entry) {
    && e in es && Covers(e, segments)
    && forall other :: other in es && Covers(other, segments) && other != e ==> Depth(other) < Depth(e)
  }

  /** Of two prefixes of one path, the longer has more segments. */
  lemma LongerIsDeeper(a: string, b: string, p: string)
    requires Split(a) <= Split(p) && Split(b) <= Split(p) && a != b && |a| <= |b|
    ensures |Split(a)| < |Split(b)|
  {
    if |Split(b)| <= |Split(a)| {
      assert Split(b) <= Split(a);
      SegmentPrefixIff(b, a);
    }
  }

  /**
   * Whatever order the routes are configured in, the table answers with the route whose segments
   * are the longest prefix of the cleaned path's segments, and with nothing only if there is none.
   */
  lemma MatchIsLongestSegmentPrefix(routes: seq<Config.Route>, path: string)
    requires Config.UniquePrefixes(routes)
    ensures
      var es, segments := Compiled(routes), Split(Clean(path));
      match Lookup(routes, path)
      case None => forall e :: e in es ==> !Covers(e, segments)
      case Some(e) => Deepest(es, segments, e)
  {
    hide Sorted, Scan, Compiled, Config.UniquePrefixes, Covers;
    var es, p := Compiled(routes), Clean(path);
    var sorted := Sorted(es);
    SortedIsOrderedPermutation(es);
    ScanFindsFirst(sorted, p);
    SameMembers(es, sorted);
    forall e ensures Matches(e, p) <==> Covers(e, Split(p)) {
      MatchesIffCovers(e, p);
    }
    if Lookup(routes, path).Some? {
      var i :| 0 <= i < |sorted| && FirstAt(sorted, p, i) && Scan(sorted, p) == Some(sorted[i]);
      forall other | other in es && Covers(other, Split(p)) && other != sorted[i]
        ensures Depth(other) < Depth(sorted[i])
      {
        DifferentPrefixes(routes, other, sorted[i]);
        OthersAreShallower(sorted, i, other, p);
      }
    }
  }

  lemma MatchesIffCovers(e: Entry, p: string)
    ensures Matches(e, p) <==> Covers(e, Split(p))
  {
    SegmentPrefixIff(e.prefix, p);
  }

  /** The first match in a list sorted longest first is deeper than any other match. */
  lemma OthersAreShallower(es: seq<Entry>, i: nat, other: Entry, p: string)
    requires LongestFirst(es) && FirstAt(es, p, i) && other in es
    requires Matches(other, p) && other.prefix != es[i].prefix
    ensures Depth(other) < Depth(es[i])
  {
    var k :| 0 <= k < |es| && es[k] == other;
    MatchesIffCovers(es[i], p);
    MatchesIffCovers(other, p);
    LongerIsDeeper(other.prefix, es[i].prefix, p);
  }

  lemma SameMembers<T>(a: seq<T>, b: seq<T>)
    requires multiset(a) == multiset(b)
    ensures forall x :: x in a <==> x in b
  {
    forall x ensures x in a <==> x in b {
      assert x in multiset(a) <==> x in multiset(b);
    }
  }

  lemma DifferentPrefixes(routes: seq<Config.Route>, a: Entry, b: Entry)
    requires Config.UniquePrefixes(routes) && a in Compiled(routes) && b in Compiled(routes) && a != b
    ensures a.prefix != b.prefix
  {
    var i :| 0 <= i < |routes| && Compiled(routes)[i] == a;
    var j :| 0 <= j < |routes| && Compiled(routes)[j] == b;
    assert i < j || j < i;
  }

  /** So the order of configuration does not matter. */
  lemma OrderDoesNotMatter(routes: seq<Config.Route>, reordered: seq<Config.Route>, path: string)
    requires Config.UniquePrefixes(routes) && Config.UniquePrefixes(reordered)
    requires forall r :: r in routes <==> r in reordered
    ensures Lookup(routes, path) == Lookup(reordered, path)
  {
    MatchIsLongestSegmentPrefix(routes, path);
    MatchIsLongestSegmentPrefix(reordered, path);
    SameEntries(routes, reordered);
    SameEntries(reordered, routes);
  }

  lemma SameEntries(a: seq<Config.Route>, b: seq<Config.Route>)
    requires forall r :: r in a ==> r in b
    ensures forall e :: e in Compiled(a) ==> e in Compiled(b)
  {
    forall e | e in Compiled(a) ensures e in Compiled(b) {
      var i :| 0 <= i < |a| && Compiled(a)[i] == e;
      assert a[i] in b;
      var j :| 0 <= j < |b| && b[j] == a[i];
      assert Compiled(b)[j] == e;
    }
  }

  // ---- What the gateway looks up ----

  /** The gateway's choice of route from the decoded and the escaped path of one URL. */
  function Routed(routes: seq<Config.Route>, path: string, escaped: string): Option<Entry> {
    if HasDotSegments(path) then None else Lookup(routes, escaped)
  }

  /** Every compiled prefix is empty or starts with a slash. */
  lemma PrefixesAreRooted(routes: seq<Config.Route>, e: Entry)
    requires Config.RoutesPass(routes) && e in Compiled(routes)
    ensures Split(e.prefix)[0] == ""
  {
    var i :| 0 <= i < |routes| && Compiled(routes)[i] == e;
    assert Config.RoutePasses(routes[i]);
  }

  lemma UnrootedMatchesNothing(routes: seq<Config.Route>, path: string)
    requires Config.RoutesPass(routes) && !Rooted(path) && !HasDotSegments(path)
    ensures Lookup(routes, path).None?
  {
    UnrootedStaysUnrooted(path);
    MatchIsLongestSegmentPrefix(routes, path);
    if Lookup(routes, path).Some? {
      PrefixesAreRooted(routes, Lookup(routes, path).value);
    }
  }

  /**
   * A request is routed exactly when its decoded path has no dot segments and some route covers
   * the segments its path names.
   */
  lemma RoutedIff(routes: seq<Config.Route>, path: string, escaped: string)
    requires Config.RoutesPass(routes) && Decoded(escaped) == Some(path)
    ensures Routed(routes, path, escaped).Some? <==>
      !HasDotSegments(path) && Rooted(escaped)
      && exists e :: e in Compiled(routes) && Covers(e, Named(escaped))
  {
    hide Config.RoutesPass, Config.UniquePrefixes, Compiled, Lookup;
    if !HasDotSegments(path) {
      NoDotsDecodedMeansNoneEncoded(escaped);
      if Rooted(escaped) {
        CleaningOnlyDropsEmptySegments(escaped);
        RoutesAreUnique(routes);
        MatchIsLongestSegmentPrefix(routes, escaped);
      } else {
        UnrootedMatchesNothing(routes, escaped);
      }
    }
  }

  lemma RoutesAreUnique(routes: seq<Config.Route>)
    requires Config.RoutesPass(routes)
    ensures Config.UniquePrefixes(routes)
  {
  }

  /**
   * The upstream gets the path as it came, and the route chosen for it is the deepest one for the
   * very segments that path names: no segment has been resolved away.
   */
  lemma RouteIsDeepestForForwardedPath(routes: seq<Config.Route>, path: string, escaped: string)
    requires Config.RoutesPass(routes) && Decoded(escaped) == Some(path)
    requires Routed(routes, path, escaped).Some?
    ensures Rooted(escaped) && Deepest(Compiled(routes), Named(escaped), Routed(routes, path, escaped).value)
  {
    NoDotsDecodedMeansNoneEncoded(escaped);
    if !Rooted(escaped) {
      UnrootedMatchesNothing(routes, escaped);
    }
    CleaningOnlyDropsEmptySegments(escaped);
    MatchIsLongestSegmentPrefix(routes, escaped);
  }
}
