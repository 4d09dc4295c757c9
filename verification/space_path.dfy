// Space paths (crates/core/src/space_key.rs): `sports/hockey/`, one key per level. Keys vary in
// length and may contain '-', which sorts below the separator.
module SpacePaths {
  import opened Common
  import opened Text
  import opened Separated
  import opened Naming
  import TreePath

  const SEPARATOR: char := '/'
  const MAX_DEPTH: nat := 3

  datatype SpacePathError = Segment(error: NameError) | TooDeep(depth: nat) | Empty

  predicate IsKey(s: string) {
    IsName(s, SPACE_NAME)
  }

  predicate AreKeys(ks: seq<string>) {
    1 <= |ks| <= MAX_DEPTH && forall i :: 0 <= i < |ks| ==> IsKey(ks[i])
  }

  /** The stored form: every key followed by the separator. */
  function Stored(ks: seq<string>): string {
    if |ks| == 0 then "" else ks[0] + [SEPARATOR] + Stored(ks[1..])
  }

  function NonEmpty(parts: seq<string>): seq<string> {
    if |parts| == 0 then []
    else (if parts[0] == "" then [] else [parts[0]]) + NonEmpty(parts[1..])
  }

  function Segments(p: string): seq<string> {
    NonEmpty(Split(p, SEPARATOR))
  }

  predicate IsSpacePath(p: string) {
    AreKeys(Segments(p)) && Stored(Segments(p)) == p
  }

  // ---- reading the stored form --------------------------------------------------------------

  lemma KeyFacts(k: string)
    requires IsKey(k)
    ensures |k| >= 2 && SEPARATOR !in k
    ensures Validated(k, SPACE_NAME) == Ok(k)
  {
    hide IsReserved, FirstFault;
    forall i | 0 <= i < |k| ensures k[i] != SEPARATOR && LowerChar(k[i]) == k[i] { assert NameCharacter(k[i]); }
    assert Lower(k) == k;
    ValidatedIsName(k, SPACE_NAME);
  }

  lemma {:induction false} SplitStored(ks: seq<string>)
    requires forall i :: 0 <= i < |ks| ==> IsKey(ks[i])
    ensures Split(Stored(ks), SEPARATOR) == ks + [""]
    ensures NonEmpty(ks + [""]) == ks && NonEmpty(ks) == ks
  {
    hide IsKey;
    if |ks| == 0 {
      assert [""] == ks + [""];
    } else {
      KeyFacts(ks[0]);
      SplitAtSeparator(ks[0], Stored(ks[1..]), SEPARATOR);
      SplitStored(ks[1..]);
      assert (ks + [""])[1..] == ks[1..] + [""] && ks + [""] == [ks[0]] + (ks[1..] + [""]);
    }
  }

  lemma SegmentsOfStored(ks: seq<string>)
    requires AreKeys(ks)
    ensures Segments(Stored(ks)) == ks && IsSpacePath(Stored(ks))
  {
    SplitStored(ks);
  }

  lemma {:induction false} StoredBySuffix(ks: seq<string>, k: string)
    ensures Stored(ks + [k]) == Stored(ks) + k + [SEPARATOR]
  {
    if |ks| > 0 {
      assert (ks + [k])[1..] == ks[1..] + [k];
      StoredBySuffix(ks[1..], k);
    }
  }

  /** The stored form is the URL form and a trailing separator. */
  lemma {:induction false} StoredIsJoin(ks: seq<string>)
    requires |ks| > 0
    ensures Stored(ks) == Join(ks, SEPARATOR) + [SEPARATOR]
  {
    if |ks| > 1 { StoredIsJoin(ks[1..]); }
  }

  // ---- building and taking apart ------------------------------------------------------------

  function Root(key: string): (p: string)
    requires IsKey(key)
    ensures IsSpacePath(p) && Segments(p) == [key]
  {
    SegmentsOfStored([key]);
    assert Stored([key]) == key + [SEPARATOR] + Stored([]) == key + [SEPARATOR];
    key + [SEPARATOR]
  }

  function Child(p: string, key: string): (r: Result<string, SpacePathError>)
    requires IsSpacePath(p) && IsKey(key)
    ensures r.Ok? <==> |Segments(p)| < MAX_DEPTH
    ensures r.Ok? ==> IsSpacePath(r.value) && Segments(r.value) == Segments(p) + [key]
    ensures r.Err? ==> r.error == TooDeep(MAX_DEPTH + 1)
  {
    var depth := |Segments(p)| + 1;
    if depth > MAX_DEPTH then Err(TooDeep(depth))
    else
      StoredBySuffix(Segments(p), key);
      SegmentsOfStored(Segments(p) + [key]);
      Ok(p + key + [SEPARATOR])
  }

  function AsUrl(p: string): string {
    if |p| > 0 && p[|p| - 1] == SEPARATOR then p[..|p| - 1] else p
  }

  lemma UrlIsJoin(p: string)
    requires IsSpacePath(p)
    ensures AsUrl(p) == Join(Segments(p), SEPARATOR) && p == AsUrl(p) + [SEPARATOR]
  {
    StoredIsJoin(Segments(p));
  }

  /** `r` is the path without its last segment; a top-level path has none. */
  predicate IsParent(p: string, r: Option<string>)
    requires IsSpacePath(p)
  {
    match r
    case None => |Segments(p)| == 1
    case Some(up) =>
      |Segments(p)| > 1 && IsSpacePath(up) && Segments(up) == Segments(p)[..|Segments(p)| - 1]
  }

  function Parent(p: string): (r: Option<string>)
    requires IsSpacePath(p)
    ensures IsParent(p, r)
  {
    hide IsKey, Stored, Segments, IsParent, IsSpacePath;
    LastSeparator(p);
    match TreePath.LastIndex(AsUrl(p), SEPARATOR)
    case Some(cut) => Some(AsUrl(p)[..cut + 1])
    case None => None
  }

  lemma LastSeparator(p: string)
    requires IsSpacePath(p)
    ensures var at := TreePath.LastIndex(AsUrl(p), SEPARATOR);
            IsParent(p, if at.Some? then Some(AsUrl(p)[..at.value + 1]) else None)
  {
    hide IsKey, Segments, Split;
    var ks := Segments(p);
    var init, last := ks[..|ks| - 1], ks[|ks| - 1];
    assert ks == init + [last];
    KeyFacts(last);
    StoredBySuffix(init, last);
    UrlIsJoin(p);
    assert AsUrl(p) == Stored(init) + last;
    if |ks| == 1 {
      TreePath.LastIndexAfter("", last, SEPARATOR);
    } else {
      SegmentsOfStored(init);
      StoredIsJoin(init);
      assert AsUrl(p) == Join(init, SEPARATOR) + [SEPARATOR] + last;
      TreePath.LastIndexAfter(Join(init, SEPARATOR), last, SEPARATOR);
    }
  }

  // ---- parsing ------------------------------------------------------------------------------

  /** Reads the remaining segments with `path` built so far. */
  function ParsedFrom(segments: seq<string>, path: Option<string>): (r: Result<string, SpacePathError>)
    requires path.Some? ==> IsSpacePath(path.value)
    ensures r.Ok? ==> IsSpacePath(r.value)
  {
    if |segments| == 0 then
      match path case Some(p) => Ok(p) case None => Err(Empty)
    else
      ValidatedIsName(segments[0], SPACE_NAME);
      match Validated(segments[0], SPACE_NAME)
      case Err(e) => Err(Segment(e))
      case Ok(key) =>
        match path
        case None => ParsedFrom(segments[1..], Some(Root(key)))
        case Some(p) =>
          match Child(p, key)
          case Err(e) => Err(e)
          case Ok(next) => ParsedFrom(segments[1..], Some(next))
  }

  method Parse(urlPath: string) returns (r: Result<string, SpacePathError>)
    ensures r == ParsedFrom(Segments(urlPath), None)
  {
    hide Validated, IsSpacePath, IsKey, Root, Child, ParsedFrom, Segments, Before;
    var path: Option<string> := None;
    var segments := Segments(urlPath);
    var i := 0;
    assert segments[0..] == segments;
    while i < |segments|
      invariant 0 <= i <= |segments| && (path.Some? ==> IsSpacePath(path.value))
      invariant ParsedFrom(segments, None) == ParsedFrom(segments[i..], path)
    {
      assert segments[i..][0] == segments[i] && segments[i..][1..] == segments[i + 1..];
      ParsedUnfolds(segments[i..], path);
      var key := Validate(segments[i], SPACE_NAME);
      if key.Err? { return Err(Segment(key.error)); }
      if path.None? {
        path := Some(Root(key.value));
      } else {
        var next := Child(path.value, key.value);
        if next.Err? { return Err(next.error); }
        path := Some(next.value);
      }
      i := i + 1;
    }
    ParsedUnfolds(segments[i..], path);
    r := if path.Some? then Ok(path.value) else Err(Empty);
  }

  lemma ValidatedIsKey(s: string)
    ensures Validated(s, SPACE_NAME).Ok? ==> IsKey(Validated(s, SPACE_NAME).value)
  {
    ValidatedIsName(s, SPACE_NAME);
  }

  function Before(path: Option<string>): seq<string> {
    match path case Some(p) => Segments(p) case None => []
  }

  /** Parsing accepts exactly the segment lists that are, case aside, one to three keys. */
  lemma {:induction false} ParsedSegments(segments: seq<string>, path: Option<string>)
    requires path.Some? ==> IsSpacePath(path.value)
    ensures var all := Before(path) + LowerAll(segments);
            && (ParsedFrom(segments, path).Ok? <==> AreKeys(all))
            && (ParsedFrom(segments, path).Ok? ==> Segments(ParsedFrom(segments, path).value) == all)
    decreases |segments|
  {
    hide IsKey, Validated, IsSpacePath, Segments, ParsedFrom, Extended, Before, Lower;
    var all := Before(path) + LowerAll(segments);
    ParsedUnfolds(segments, path);
    if |segments| == 0 {
      assert all == Before(path);
      PathIsKeys(path);
    } else {
      var key := Lower(segments[0]);
      ValidatedIsName(segments[0], SPACE_NAME);
      KeyIsName(key);
      assert LowerAll(segments) == [key] + LowerAll(segments[1..]);
      assert all[|Before(path)|] == key && |all| > |Before(path)|;
      if Validated(segments[0], SPACE_NAME).Ok? {
        ExtendedSegments(path, key);
        var next := Extended(path, key);
        if next.Ok? {
          assert all == Before(Some(next.value)) + LowerAll(segments[1..]);
          ParsedSegments(segments[1..], Some(next.value));
        }
      }
    }
  }

  /** One more segment on what has been read. */
  function Extended(path: Option<string>, key: string): Result<string, SpacePathError>
    requires IsKey(key) && (path.Some? ==> IsSpacePath(path.value))
  {
    match path case None => Ok(Root(key)) case Some(p) => Child(p, key)
  }

  lemma ExtendedSegments(path: Option<string>, key: string)
    requires IsKey(key) && (path.Some? ==> IsSpacePath(path.value))
    ensures var next := Extended(path, key);
            && (next.Ok? <==> |Before(path)| < MAX_DEPTH)
            && (next.Ok? ==> IsSpacePath(next.value) && Before(Some(next.value)) == Before(path) + [key])
  {
    hide IsKey, IsSpacePath, Segments;
  }

  lemma PathIsKeys(path: Option<string>)
    requires path.Some? ==> IsSpacePath(path.value)
    ensures path.Some? <==> AreKeys(Before(path))
  {
    hide IsKey, Segments, Stored;
  }

  lemma ParsedUnfolds(segments: seq<string>, path: Option<string>)
    requires path.Some? ==> IsSpacePath(path.value)
    ensures |segments| == 0 ==> ParsedFrom(segments, path) == if path.Some? then Ok(path.value) else Err(Empty)
    ensures path.Some? ==> Before(path) == Segments(path.value)
    ensures |segments| > 0 ==>
              var key := Validated(segments[0], SPACE_NAME);
              if key.Err? then ParsedFrom(segments, path) == Err(Segment(key.error))
              else
                && IsKey(key.value)
                && var next := Extended(path, key.value);
                   if next.Err? then ParsedFrom(segments, path) == Err(next.error)
                   else IsSpacePath(next.value) && ParsedFrom(segments, path) == ParsedFrom(segments[1..], Some(next.value))
  {
    hide IsSpacePath, Segments, Validated, IsKey;
    if |segments| > 0 { ValidatedIsKey(segments[0]); }
  }

  lemma KeyIsName(s: string)
    ensures IsKey(s) <==> IsName(s, SPACE_NAME)
  {
  }

  function LowerAll(parts: seq<string>): (r: seq<string>)
    ensures |r| == |parts|
  {
    seq(|parts|, i requires 0 <= i < |parts| => Lower(parts[i]))
  }

  lemma SegmentsOfUrl(p: string)
    requires IsSpacePath(p)
    ensures Segments(AsUrl(p)) == Segments(p)
  {
    hide IsKey;
    var ks := Segments(p);
    UrlIsJoin(p);
    forall i | 0 <= i < |ks| ensures SEPARATOR !in ks[i] { KeyFacts(ks[i]); }
    SplitOfJoin(ks, SEPARATOR);
    SplitStored(ks);
  }

  lemma SegmentsAfterSlash(p: string)
    ensures Segments([SEPARATOR] + p) == Segments(p)
  {
    SplitAtSeparator("", p, SEPARATOR);
    assert "" + [SEPARATOR] + p == [SEPARATOR] + p;
    assert ([""] + Split(p, SEPARATOR))[1..] == Split(p, SEPARATOR);
  }

  /** A path's URL form parses back to it, with or without slashes at either end. */
  lemma UrlRoundTrip(p: string)
    requires IsSpacePath(p)
    ensures ParsedFrom(Segments(AsUrl(p)), None) == Ok(p)
    ensures ParsedFrom(Segments(p), None) == Ok(p)
    ensures ParsedFrom(Segments([SEPARATOR] + p), None) == Ok(p)
  {
    hide IsKey, ParsedFrom, Validated, Lower;
    var ks := Segments(p);
    SegmentsOfUrl(p);
    SegmentsAfterSlash(p);
    forall i | 0 <= i < |ks| ensures Lower(ks[i]) == ks[i] {
      KeyFacts(ks[i]);
      ValidatedIsName(ks[i], SPACE_NAME);
    }
    assert LowerAll(ks) == ks && [] + ks == ks;
    ParsedSegments(ks, None);
  }

  // ---- subtrees -----------------------------------------------------------------------------

  /** The trailing separator makes way for the character after it. */
  function SubtreeRange(p: string): (string, string)
    requires |p| > 0
  {
    (p, p[..|p| - 1] + [SEPARATOR + 1 as char])
  }

  /** Between a string and the same string with its last character raised by one lie exactly the
      strings it is a prefix of. */
  lemma {:induction false} PrefixRange(h: string, c: char, s: string)
    requires c < '~'
    ensures AtMost(h + [c], s) && Less(s, h + [c + 1 as char]) <==> h + [c] <= s
  {
    var lo, hi := h + [c], h + [c + 1 as char];
    if |h| == 0 {
      assert lo == [c] && hi == [c + 1 as char];
      if |s| > 0 {
        assert s == [s[0]] + s[1..];
        assert lo[1..] == "" && hi[1..] == "";
        assert c < c + 1 as char && (s[0] < c + 1 as char <==> s[0] <= c);
        assert Less(s, hi) <==> s[0] <= c;
        assert Less(lo, s) <==> c < s[0] || (c == s[0] && |s| > 1);
        assert |s| == 1 ==> s == [s[0]];
      }
    } else {
      assert lo[1..] == h[1..] + [c] && hi[1..] == h[1..] + [c + 1 as char];
      if |s| > 0 {
        PrefixRange(h[1..], c, s[1..]);
        assert s == [s[0]] + s[1..] && lo == [h[0]] + lo[1..];
      }
    }
  }

  lemma {:induction false} PrefixOfStored(x: seq<string>, y: seq<string>)
    requires forall i :: 0 <= i < |x| ==> SEPARATOR !in x[i]
    requires forall i :: 0 <= i < |y| ==> SEPARATOR !in y[i]
    ensures Stored(x) <= Stored(y) <==> x <= y
  {
    if |x| > 0 && |y| > 0 {
      var a, b := Stored(x[1..]), Stored(y[1..]);
      PrefixOfStored(x[1..], y[1..]);
      assert x == [x[0]] + x[1..] && y == [y[0]] + y[1..];
      if Stored(x) <= Stored(y) {
        var more := Stored(y)[|Stored(x)|..];
        assert x[0] + [SEPARATOR] + (a + more) == Stored(x) + more == Stored(y);
        SameHead(x[0], y[0], SEPARATOR, a + more, b);
      }
    }
  }

  /** The half-open range holds exactly the space and its descendants, however keys compare with
      the separator: `sports-betting` stays out of `sports`. */
  lemma RangeIsSubtree(p: string, q: string)
    requires IsSpacePath(p) && IsSpacePath(q)
    ensures |p| > 0
    ensures var (lo, hi) := SubtreeRange(p);
            AtMost(lo, q) && Less(q, hi) <==> Segments(p) <= Segments(q)
  {
    hide IsKey;
    UrlIsJoin(p);
    PrefixRange(AsUrl(p), SEPARATOR, q);
    forall i | 0 <= i < |Segments(p)| ensures SEPARATOR !in Segments(p)[i] { KeyFacts(Segments(p)[i]); }
    forall i | 0 <= i < |Segments(q)| ensures SEPARATOR !in Segments(q)[i] { KeyFacts(Segments(q)[i]); }
    PrefixOfStored(Segments(p), Segments(q));
  }
}
