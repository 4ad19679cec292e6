/** Request paths as lists of segments: prefixes, cleaning and percent-decoding. */
module Paths {
  import opened Limits

  // ---- Segments ----

  /** The text between slashes: n slashes make n + 1 segments, some of them empty. */
  function Split(s: string): (segments: seq<string>)
    ensures segments != []
  {
    if s == [] then [[]]
    else if s[0] == '/' then [[]] + Split(s[1..])
    else var rest := Split(s[1..]); [[s[0]] + rest[0]] + rest[1..]
  }

  function Join(segments: seq<string>): string
    requires segments != []
  {
    if |segments| == 1 then segments[0] else segments[0] + "/" + Join(segments[1..])
  }

  predicate NoSlash(s: string) {
    forall i :: 0 <= i < |s| ==> s[i] != '/'
  }

  predicate Plain(segments: seq<string>) {
    forall i :: 0 <= i < |segments| ==> NoSlash(segments[i])
  }

  /** A slash ends a segment. */
  lemma {:induction false} SplitConcat(a: string, b: string)
    ensures Split(a + "/" + b) == Split(a) + Split(b)
    decreases |a|
  {
    if a == [] {
      assert [] + "/" + b == "/" + b && ("/" + b)[1..] == b;
    } else {
      assert (a + "/" + b)[1..] == a[1..] + "/" + b;
      SplitConcat(a[1..], b);
    }
  }

  lemma {:induction false} SplitPlain(s: string)
    requires NoSlash(s)
    ensures Split(s) == [s]
    decreases |s|
  {
    if s != [] {
      SplitPlain(s[1..]);
      assert [s[0]] + s[1..] == s;
    }
  }

  /** Joining slash-free segments and splitting again gives them back. */
  lemma {:induction false} SplitJoin(segments: seq<string>)
    requires segments != [] && Plain(segments)
    ensures Split(Join(segments)) == segments
    decreases |segments|
  {
    assert NoSlash(segments[0]);
    SplitPlain(segments[0]);
    if |segments| > 1 {
      assert forall i :: 0 <= i < |segments[1..]| ==> segments[1..][i] == segments[i + 1];
      SplitJoin(segments[1..]);
      SplitConcat(segments[0], Join(segments[1..]));
    }
  }

  lemma {:induction false} SplitIsPlain(s: string)
    ensures Plain(Split(s))
    decreases |s|
  {
    if s != [] {
      SplitIsPlain(s[1..]);
      var rest := Split(s[1..]);
      assert NoSlash(rest[0]);
      if s[0] != '/' {
        assert forall i :: 1 <= i < |rest| ==> Split(s)[i] == rest[i];
      }
    }
  }

  /** Splitting loses nothing. */
  lemma {:induction false} JoinSplit(s: string)
    ensures Join(Split(s)) == s
    decreases |s|
  {
    if s != [] {
      JoinSplit(s[1..]);
      var rest := Split(s[1..]);
      assert s == [s[0]] + s[1..];
      if s[0] == '/' {
        assert Join([[]] + rest) == [] + "/" + Join(rest);
      } else {
        JoinHead(s[0], rest);
      }
    }
  }

  lemma JoinHead(c: char, segments: seq<string>)
    requires segments != []
    ensures Join([[c] + segments[0]] + segments[1..]) == [c] + Join(segments)
  {
    var longer := [[c] + segments[0]] + segments[1..];
    assert longer[1..] == segments[1..];
    if |segments| > 1 {
      assert [c] + segments[0] + "/" + Join(segments[1..]) == [c] + (segments[0] + "/" + Join(segments[1..]));
    }
  }

  /** Equal to the prefix, or continuing it after a slash: exactly a prefix by whole segments. */
  lemma {:induction false} SegmentPrefixIff(prefix: string, p: string)
    ensures p == prefix || prefix + "/" <= p <==> Split(prefix) <= Split(p)
    decreases |prefix|
  {
    if p == [] {
      assert prefix != [] && prefix[0] != '/' ==> Split(prefix)[0] != [];
    } else if prefix == [] {
      assert Split(prefix)[0] == [];
    } else {
      SegmentPrefixIff(prefix[1..], p[1..]);
      assert prefix == [prefix[0]] + prefix[1..] && p == [p[0]] + p[1..];
      assert prefix + "/" == [prefix[0]] + (prefix[1..] + "/");
      SplitHead(prefix);
      SplitHead(p);
      if prefix[0] == p[0] {
        SamePrefixTail(prefix, p);
      }
    }
  }

  lemma SplitHead(s: string)
    requires s != []
    ensures s[0] == '/' <==> Split(s)[0] == []
    ensures s[0] != '/' ==> Split(s)[0][0] == s[0] && Split(s)[0][1..] == Split(s[1..])[0]
                            && Split(s)[1..] == Split(s[1..])[1..]
    ensures s[0] == '/' ==> Split(s)[1..] == Split(s[1..])
  {
  }

  lemma SamePrefixTail(a: string, b: string)
    requires a != [] && b != [] && a[0] == b[0]
    ensures Split(a) <= Split(b) <==> Split(a[1..]) <= Split(b[1..])
  {
    SplitHead(a);
    SplitHead(b);
    PrefixByHead(Split(a), Split(b));
    PrefixByHead(Split(a[1..]), Split(b[1..]));
    assert a[0] != '/' ==> Split(a)[0] == [a[0]] + Split(a[1..])[0] && Split(b)[0] == [b[0]] + Split(b[1..])[0];
  }

  lemma PrefixByHead<T>(a: seq<T>, b: seq<T>)
    requires a != [] && b != []
    ensures a <= b <==> a[0] == b[0] && a[1..] <= b[1..]
  {
    assert a == [a[0]] + a[1..] && b == [b[0]] + b[1..];
  }

  // ---- Cleaning ----

  /** One segment of a path onto the segments kept so far. */
  function Push(rooted: bool, stack: seq<string>, segment: string): seq<string> {
    if segment == "" || segment == "." then stack
    else if segment != ".." then stack + [segment]
    else if stack != [] && stack[|stack| - 1] != ".." then stack[..|stack| - 1]
    else if rooted then stack
    else stack + [segment]
  }

  function Kept(rooted: bool, stack: seq<string>, segments: seq<string>): seq<string>
    decreases |segments|
  {
    if segments == [] then stack else Kept(rooted, Push(rooted, stack, segments[0]), segments[1..])
  }

  predicate Rooted(path: string) {
    path != [] && path[0] == '/'
  }

  /** The shortest lexically equivalent path. */
  function Clean(path: string): string {
    var kept := Kept(Rooted(path), [], Split(path));
    if kept == [] then (if Rooted(path) then "/" else ".")
    else if Rooted(path) then "/" + Join(kept)
    else Join(kept)
  }

  predicate HasDotSegments(path: string) {
    "." in Split(path) || ".." in Split(path)
  }

  function NonEmpty(segments: seq<string>): seq<string> {
    if segments == [] then [] else
      (if segments[0] == "" then [] else [segments[0]]) + NonEmpty(segments[1..])
  }

  lemma {:induction false} KeptWithoutDots(rooted: bool, stack: seq<string>, segments: seq<string>)
    requires "." !in segments && ".." !in segments
    ensures Kept(rooted, stack, segments) == stack + NonEmpty(segments)
    decreases |segments|
  {
    if segments != [] {
      assert segments[0] in segments;
      KeptWithoutDots(rooted, Push(rooted, stack, segments[0]), segments[1..]);
    }
  }

  lemma {:induction false} KeptConcat(rooted: bool, stack: seq<string>, a: seq<string>, b: seq<string>)
    ensures Kept(rooted, stack, a + b) == Kept(rooted, Kept(rooted, stack, a), b)
    decreases |a|
  {
    if a == [] {
      assert a + b == b;
    } else {
      assert (a + b)[1..] == a[1..] + b;
      KeptConcat(rooted, Push(rooted, stack, a[0]), a[1..], b);
    }
  }

  predicate Ordinary(segment: string) {
    segment != "" && segment != "." && segment != ".." && NoSlash(segment)
  }

  /** A rooted path, or the empty start of one. */
  predicate Start(path: string) {
    path == "" || Rooted(path)
  }

  lemma RootedConcat(a: string, b: string)
    requires Start(a)
    ensures Rooted(a + "/" + b)
  {
  }

  /** Cleaning sees a path's segments one after another. */
  lemma KeptOfConcat(a: string, middle: seq<string>, b: string)
    requires middle != [] && Plain(middle)
    ensures Kept(true, [], Split(a + "/" + Join(middle) + "/" + b))
            == Kept(true, Kept(true, Kept(true, [], Split(a)), middle), Split(b))
  {
    SplitJoin(middle);
    SplitConcat(a, Join(middle));
    SplitConcat(a + "/" + Join(middle), b);
    KeptConcat(true, [], Split(a) + middle, Split(b));
    KeptConcat(true, [], Split(a), middle);
  }

  /** Both forms of the path are rooted and keep the same segments. */
  lemma SameCleaning(a: string, middle: seq<string>, b: string)
    requires Start(a) && middle != [] && Plain(middle)
    requires var st := Kept(true, [], Split(a)); Kept(true, st, middle) == st
    ensures Clean(a + "/" + Join(middle) + "/" + b) == Clean(a + "/" + b)
  {
    KeptOfConcat(a, middle, b);
    SplitConcat(a, b);
    KeptConcat(true, [], Split(a), Split(b));
    RootedConcat(a, b);
    RootedConcat(a, Join(middle) + "/" + b);
    assert a + "/" + Join(middle) + "/" + b == a + "/" + (Join(middle) + "/" + b);
  }

  /** An empty segment or "." means nothing (section 5.2.4 of RFC 3986, and repeated slashes). */
  lemma HereMeansNothing(a: string, here: string, b: string)
    requires Start(a) && (here == "" || here == ".")
    ensures Clean(a + "/" + here + "/" + b) == Clean(a + "/" + b)
  {
    assert Kept(true, Kept(true, [], Split(a)), [here]) == Kept(true, [], Split(a)) by { assert [here][1..] == []; }
    SameCleaning(a, [here], b);
  }

  /** A segment and ".." after it cancel. */
  lemma UpCancels(a: string, x: string, b: string)
    requires Start(a) && Ordinary(x)
    ensures Clean(a + "/" + (x + "/..") + "/" + b) == Clean(a + "/" + b)
  {
    var st, middle := Kept(true, [], Split(a)), [x, ".."];
    assert Join(middle) == x + "/.." by { assert middle[1..] == [".."] && Join([".."]) == ".."; }
    assert Plain(middle);
    assert middle[1..] == [".."] && middle[1..][1..] == [];
    assert (st + [x])[..|st|] == st;
    assert Kept(true, st + [x], [".."]) == Push(true, st + [x], "..") == st;
    SameCleaning(a, middle, b);
  }

  /** There is nothing above the root. */
  lemma UpStopsAtRoot(b: string)
    ensures Clean("" + "/" + ".." + "/" + b) == Clean("" + "/" + b)
  {
    assert Split("") == [""];
    assert [".."][1..] == [] && [""][1..] == [];
    assert Kept(true, [], [""]) == [] && Kept(true, [], [".."]) == [];
    SameCleaning("", [".."], b);
  }

  lemma {:induction false} NonEmptyPlain(segments: seq<string>)
    requires Plain(segments)
    ensures Plain(NonEmpty(segments))
    decreases |segments|
  {
    if segments != [] {
      assert NoSlash(segments[0]);
      assert forall i :: 0 <= i < |segments[1..]| ==> segments[1..][i] == segments[i + 1];
      NonEmptyPlain(segments[1..]);
    }
  }

  /** The segments a path without dot segments names: its own, less the empty ones. */
  function Named(path: string): seq<string> {
    [""] + (if NonEmpty(Split(path)) == [] then [""] else NonEmpty(Split(path)))
  }

  /** Without dot segments cleaning drops empty segments and nothing else. */
  lemma CleaningOnlyDropsEmptySegments(path: string)
    requires Rooted(path) && !HasDotSegments(path)
    ensures Split(Clean(path)) == Named(path)
  {
    var kept := NonEmpty(Split(path));
    KeptWithoutDots(true, [], Split(path));
    assert Kept(true, [], Split(path)) == kept;
    if kept != [] {
      SplitIsPlain(path);
      NonEmptyPlain(Split(path));
      SplitJoin(kept);
      assert "/" + Join(kept) == [] + "/" + Join(kept);
      SplitConcat([], Join(kept));
    }
  }

  /** A path without dot segments or empty segments is matched as it came. */
  lemma CleanPathsStay(path: string)
    requires Rooted(path) && !HasDotSegments(path) && Split(path) == Named(path)
    ensures Clean(path) == path
  {
    CleaningOnlyDropsEmptySegments(path);
    JoinSplit(path);
    JoinSplit(Clean(path));
  }

  lemma {:induction false} NonEmptyHasNoEmpty(segments: seq<string>)
    ensures "" !in NonEmpty(segments)
    decreases |segments|
  {
    if segments != [] {
      NonEmptyHasNoEmpty(segments[1..]);
    }
  }

  /** A path that does not start with a slash does not after cleaning either. */
  lemma UnrootedStaysUnrooted(path: string)
    requires !Rooted(path) && !HasDotSegments(path)
    ensures Split(Clean(path))[0] != ""
  {
    var kept := NonEmpty(Split(path));
    KeptWithoutDots(false, [], Split(path));
    assert Kept(false, [], Split(path)) == kept;
    if kept == [] {
      SplitPlain(".");
    } else {
      NonEmptyHasNoEmpty(Split(path));
      assert kept[0] in kept;
      SplitIsPlain(path);
      NonEmptyPlain(Split(path));
      SplitJoin(kept);
    }
  }

  // ---- Percent-decoding (section 2.1 of RFC 3986) ----

  function HexValue(c: char): Option<int> {
    if '0' <= c <= '9' then Some(c as int - '0' as int)
    else if 'a' <= c <= 'f' then Some(c as int - 'a' as int + 10)
    else if 'A' <= c <= 'F' then Some(c as int - 'A' as int + 10)
    else None
  }

  function Prepend(c: char, rest: Option<string>): Option<string> {
    match rest
    case None => None
    case Some(s) => Some([c] + s)
  }

  /** The first decoded character and how many characters encode it. */
  function First(s: string): (r: Option<(char, nat)>)
    requires s != []
    ensures r.Some? ==> 1 <= r.value.1 <= |s|
  {
    if s[0] != '%' then Some((s[0], 1))
    else if |s| < 3 then None
    else
      match (HexValue(s[1]), HexValue(s[2]))
      case (Some(hi), Some(lo)) => Some(((16 * hi + lo) as char, 3))
      case _ => None
  }

  /** Every "%" and two hex digits is one byte; a "%" without them is malformed. */
  function Decoded(s: string): Option<string>
    decreases |s|
  {
    if s == [] then Some([]) else
      match First(s)
      case None => None
      case Some((c, n)) => Prepend(c, Decoded(s[n..]))
  }

  /** A hexadecimal digit, in either case. */
  function Digit(d: nat, upper: bool): char
    requires d < 16
  {
    if d < 10 then "0123456789"[d] else if upper then "ABCDEF"[d - 10] else "abcdef"[d - 10]
  }

  /** Every byte's escape, in either case, decodes to that byte. */
  lemma EscapesDecode(byte: nat, upper: bool, upper2: bool, rest: string)
    requires byte < 256
    ensures Decoded(['%', Digit(byte / 16, upper), Digit(byte % 16, upper2)] + rest)
            == Prepend(byte as char, Decoded(rest))
  {
    var s := ['%', Digit(byte / 16, upper), Digit(byte % 16, upper2)] + rest;
    DigitValue(byte / 16, upper);
    DigitValue(byte % 16, upper2);
    assert s[3..] == rest;
  }

  lemma DigitValue(d: nat, upper: bool)
    requires d < 16
    ensures HexValue(Digit(d, upper)) == Some(d)
  {
  }

  ghost predicate StartsWithEscape(s: string) {
    exists d: nat, e: nat, u, v :: d < 16 && e < 16 && ['%', Digit(d, u), Digit(e, v)] <= s
  }

  /** A "%" that two hexadecimal digits do not follow does not decode. */
  lemma OnlyEscapesDecode(s: string)
    requires s != [] && s[0] == '%' && Decoded(s).Some?
    ensures StartsWithEscape(s)
  {
    var d, u := DigitOf(s[1]);
    var e, v := DigitOf(s[2]);
    assert ['%', Digit(d, u), Digit(e, v)] <= s;
  }

  lemma DigitOf(c: char) returns (d: nat, upper: bool)
    requires HexValue(c).Some?
    ensures d < 16 && Digit(d, upper) == c
  {
    d, upper := HexValue(c).value, c < 'a';
  }

  /** No escape straddles a slash. */
  lemma FirstConcat(a: string, b: string)
    requires a != [] && First(a + "/" + b).Some?
    ensures First(a) == First(a + "/" + b)
  {
    var s := a + "/" + b;
    assert s[|a|] == '/' && forall i :: 0 <= i < |a| ==> s[i] == a[i];
  }

  lemma {:induction false} DecodedConcat(a: string, b: string)
    requires Decoded(a + "/" + b).Some?
    ensures Decoded(a).Some? && Decoded(b).Some?
    ensures Decoded(a + "/" + b).value == Decoded(a).value + "/" + Decoded(b).value
    decreases |a|
  {
    hide HexValue;
    var s := a + "/" + b;
    if a == [] {
      assert s[1..] == b && [] + "/" + Decoded(b).value == "/" + Decoded(b).value;
    } else {
      hide First;
      FirstConcat(a, b);
      var n := First(a).value.1;
      assert s[n..] == a[n..] + "/" + b;
      DecodedConcat(a[n..], b);
    }
  }

  /** The place where a segment ends. */
  function FirstSlash(s: string): (n: nat)
    requires !NoSlash(s)
    ensures n < |s| && s[n] == '/' && forall i :: 0 <= i < n ==> s[i] != '/'
  {
    if s[0] == '/' then 0 else FirstSlash(s[1..]) + 1
  }

  lemma CutAtSlash(s: string, n: nat)
    requires n < |s| && s[n] == '/'
    ensures s == s[..n] + "/" + s[n + 1..]
  {
  }

  /** A segment of the encoded path that is its own encoding is a segment of the decoded path. */
  lemma {:induction false} SegmentsDecode(s: string, segment: string)
    requires Decoded(s).Some? && segment in Split(s)
    requires Decoded(segment) == Some(segment) && NoSlash(segment)
    ensures segment in Split(Decoded(s).value)
    decreases |s|
  {
    if NoSlash(s) {
      SplitPlain(s);
      SplitPlain(segment);
    } else {
      var n := FirstSlash(s);
      CutAtSlash(s, n);
      var a, b := s[..n], s[n + 1..];
      SplitPlain(a);
      SplitPlain(segment);
      SplitConcat(a, b);
      DecodedConcat(a, b);
      SplitConcat(Decoded(a).value, Decoded(b).value);
      if segment != a {
        SegmentsDecode(b, segment);
      }
    }
  }

  lemma {:induction false} DecodedUnescaped(s: string)
    requires '%' !in s
    ensures Decoded(s) == Some(s)
    decreases |s|
  {
    if s != [] {
      assert s == [s[0]] + s[1..];
      DecodedUnescaped(s[1..]);
    }
  }

  /** A path whose decoded form has no dot segments has none in its escaped form either. */
  lemma NoDotsDecodedMeansNoneEncoded(escaped: string)
    requires Decoded(escaped).Some? && !HasDotSegments(Decoded(escaped).value)
    ensures !HasDotSegments(escaped)
  {
    DecodedUnescaped(".");
    DecodedUnescaped("..");
    if "." in Split(escaped) { SegmentsDecode(escaped, "."); }
    if ".." in Split(escaped) { SegmentsDecode(escaped, ".."); }
  }

  /** The converse fails, which is why the decoded form is the one to look at. */
  lemma EncodedDotsHide()
    ensures !HasDotSegments("/%2e") && Decoded("/%2e") == Some("/.") && HasDotSegments("/.")
  {
    var escaped := "/%2e";
    SplitPlain(escaped[1..]);
    SplitPlain("/."[1..]);
    assert Split("/.")[1] == ".";
    EscapedDot([]);
    assert "%2e" + [] == "%2e" == escaped[1..] && ['.'] + [] == ".";
    assert First(escaped) == Some(('/', 1));
    assert ['/'] + "." == "/.";
  }

  lemma EscapedDot(rest: string)
    ensures Decoded("%2e" + rest) == Prepend('.', Decoded(rest))
  {
    assert ("%2e" + rest)[3..] == rest;
    assert HexValue('2') == Some(2) && HexValue('e') == Some(14);
  }
}
