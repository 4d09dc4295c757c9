// Materialized tree paths (crates/core/src/path.rs): one four-digit base32 segment per level,
// separated by '.'. A path is its text; `Ordinals` reads the text as the position it encodes.
module TreePath {
  import opened Common
  import opened Text
  import opened Separated
  import opened Radix
  import opened Crockford

  const SEGMENT_WIDTH: nat := 4
  const MAX_ORDINAL: nat := 1_048_575
  const MAX_DEPTH: nat := 32
  const SEPARATOR: char := '.'

  datatype PathError =
    | OrdinalTooLarge(ordinal: nat)
    | TooDeep(depth: nat)
    | Malformed(segment: string)
    | Empty

  // ---- one segment --------------------------------------------------------------------------

  function Segment(ordinal: nat): (s: string)
    ensures |s| == SEGMENT_WIDTH
  {
    Spell('A', Digits(32, ordinal, SEGMENT_WIDTH))
  }

  function EncodedSegment(ordinal: nat): Result<string, PathError> {
    if ordinal > MAX_ORDINAL then Err(OrdinalTooLarge(ordinal)) else Ok(Segment(ordinal))
  }

  /** The digit buffer is filled from its low end. */
  method EncodeSegment(ordinal: nat) returns (r: Result<string, PathError>)
    ensures r == EncodedSegment(ordinal)
  {
    if ordinal > MAX_ORDINAL {
      return Err(OrdinalTooLarge(ordinal));
    }
    var buf := new char[SEGMENT_WIDTH](_ => '0');
    var n, slot := ordinal, SEGMENT_WIDTH;
    AlphabetsInClosedForm();
    ghost var ds := Digits(32, ordinal, SEGMENT_WIDTH);
    while slot > 0
      invariant 0 <= slot <= SEGMENT_WIDTH
      invariant n == Drop(32, ordinal, SEGMENT_WIDTH - slot)
      invariant forall i :: slot <= i < SEGMENT_WIDTH ==> buf[i] == Symbol('A', ds[i])
    {
      slot := slot - 1;
      DigitAt(32, ordinal, SEGMENT_WIDTH, slot);
      DropOneMore(ordinal, SEGMENT_WIDTH - 1 - slot);
      buf[slot] := UPPER[n % 32];
      n := n / 32;
    }
    assert buf[..] == Segment(ordinal);
    r := Ok(buf[..]);
  }

  lemma {:induction false} DropOneMore(v: nat, k: nat)
    ensures Drop(32, v, k + 1) == Drop(32, v, k) / 32
  {
    if k > 0 { DropOneMore(v / 32, k - 1); }
  }

  predicate WellFormed(segment: string) {
    |segment| == SEGMENT_WIDTH && forall i :: 0 <= i < |segment| ==> Index('A', segment[i]) >= 0
  }

  /** A byte outside the alphabet counts as zero rather than failing. */
  function DecodeSegment(s: string): nat {
    if |s| == 0 then 0
    else
      var d := Index('A', s[|s| - 1]);
      32 * DecodeSegment(s[..|s| - 1]) + if d >= 0 then d else 0
  }

  lemma {:induction false} DecodeIsValue(s: string, ds: seq<nat>)
    requires |ds| == |s| && forall i :: 0 <= i < |s| ==> ds[i] == Index('A', s[i])
    ensures DecodeSegment(s) == Value(32, ds)
  {
    if |s| > 0 { DecodeIsValue(s[..|s| - 1], ds[..|s| - 1]); }
  }

  lemma PowersOf32()
    ensures Pow(32, SEGMENT_WIDTH) == MAX_ORDINAL + 1
  {
    assert Pow(32, 2) == 1024 && Pow(32, 3) == 32768;
  }

  /** Segments and ordinals up to the maximum correspond one to one. */
  lemma SegmentRoundTrip(ordinal: nat, s: string)
    ensures ordinal <= MAX_ORDINAL ==> DecodeSegment(Segment(ordinal)) == ordinal
    ensures WellFormed(Segment(ordinal)) && SEPARATOR !in Segment(ordinal)
    ensures WellFormed(s) ==> DecodeSegment(s) <= MAX_ORDINAL && Segment(DecodeSegment(s)) == s
  {
    PowersOf32();
    var ds, t := Digits(32, ordinal, SEGMENT_WIDTH), Segment(ordinal);
    forall i | 0 <= i < SEGMENT_WIDTH ensures Index('A', t[i]) == ds[i] && t[i] != SEPARATOR {
      IndexInvertsSymbol('A', ds[i], t[i]);
    }
    DecodeIsValue(t, ds);
    if ordinal <= MAX_ORDINAL { ValueOfDigits(32, ordinal, SEGMENT_WIDTH); }
    if WellFormed(s) {
      forall i | 0 <= i < SEGMENT_WIDTH
        ensures 0 <= Index('A', s[i]) < 32 && Symbol('A', Index('A', s[i])) == s[i]
      {
        IndexInvertsSymbol('A', 0, s[i]);
      }
      var es: seq<nat> := seq(SEGMENT_WIDTH, i requires 0 <= i < SEGMENT_WIDTH => Index('A', s[i]));
      DecodeIsValue(s, es);
      ValueBound(32, es);
      DigitsOfValue(32, es);
      assert Spell('A', es) == s;
    }
  }

  lemma SegmentOrder(a: nat, b: nat)
    requires a <= MAX_ORDINAL && b <= MAX_ORDINAL
    ensures Less(Segment(a), Segment(b)) <==> a < b
    ensures Segment(a) == Segment(b) <==> a == b
  {
    PowersOf32();
    var x, y := Digits(32, a, SEGMENT_WIDTH), Digits(32, b, SEGMENT_WIDTH);
    SpellOrder('A', x, y);
    BelowIsNumeric(32, x, y);
    ValueOfDigits(32, a, SEGMENT_WIDTH);
    ValueOfDigits(32, b, SEGMENT_WIDTH);
  }

  // ---- positions and their text -------------------------------------------------------------

  /** A position in a reply tree: the ordinal taken at each level, root first. */
  predicate IsPosition(os: seq<nat>) {
    1 <= |os| <= MAX_DEPTH && forall i :: 0 <= i < |os| ==> os[i] <= MAX_ORDINAL
  }

  function TextOf(os: seq<nat>): string
    requires |os| > 0
  {
    if |os| == 1 then Segment(os[0]) else Segment(os[0]) + [SEPARATOR] + TextOf(os[1..])
  }

  /** `Path::segments`: every ordinal from root to node. */
  function Ordinals(s: string): (os: seq<nat>)
    ensures |os| == |Split(s, SEPARATOR)|
  {
    var parts := Split(s, SEPARATOR);
    seq(|parts|, i requires 0 <= i < |parts| => DecodeSegment(parts[i]))
  }

  /** What `Path::parse` accepts: exactly the texts of positions. */
  predicate IsPath(s: string) {
    IsPosition(Ordinals(s)) && TextOf(Ordinals(s)) == s
  }

  type Path = s: string | IsPath(s) witness PathOf([0])

  function PathOf(os: seq<nat>): (p: string)
    requires IsPosition(os)
    ensures IsPath(p) && p == TextOf(os) && Ordinals(p) == os
  {
    OrdinalsOfText(os);
    TextOf(os)
  }

  lemma {:induction false} SplitOfText(os: seq<nat>)
    requires |os| > 0
    ensures |Split(TextOf(os), SEPARATOR)| == |os|
    ensures forall i :: 0 <= i < |os| ==> Split(TextOf(os), SEPARATOR)[i] == Segment(os[i])
  {
    SegmentRoundTrip(os[0], "");
    if |os| == 1 {
      SplitAtSeparator(Segment(os[0]), "", SEPARATOR);
    } else {
      SplitAtSeparator(Segment(os[0]), TextOf(os[1..]), SEPARATOR);
      SplitOfText(os[1..]);
    }
  }

  lemma OrdinalsOfText(os: seq<nat>)
    requires |os| > 0 && forall i :: 0 <= i < |os| ==> os[i] <= MAX_ORDINAL
    ensures Ordinals(TextOf(os)) == os
  {
    SplitOfText(os);
    forall i | 0 <= i < |os| ensures Ordinals(TextOf(os))[i] == os[i] { SegmentRoundTrip(os[i], ""); }
  }

  lemma {:induction false} TextBySuffix(os: seq<nat>, k: nat)
    requires |os| > 0
    ensures TextOf(os + [k]) == TextOf(os) + [SEPARATOR] + Segment(k)
  {
    assert (os + [k])[1..] == os[1..] + [k];
    if |os| > 1 { TextBySuffix(os[1..], k); }
  }

  // ---- navigation ---------------------------------------------------------------------------

  function Count(s: string, c: char): nat {
    if |s| == 0 then 0 else (if s[0] == c then 1 else 0) + Count(s[1..], c)
  }

  /** `str::rfind` of a single character. */
  function LastIndex(s: string, c: char): (r: Option<nat>)
    ensures r.Some? ==> r.value < |s|
  {
    if |s| == 0 then None
    else if s[|s| - 1] == c then Some(|s| - 1)
    else LastIndex(s[..|s| - 1], c)
  }

  lemma {:induction false} CountConcat(s: string, t: string, c: char)
    ensures Count(s + t, c) == Count(s, c) + Count(t, c)
    ensures c !in s ==> Count(s, c) == 0
  {
    if |s| == 0 {
      assert s + t == t;
    } else {
      assert (s + t)[1..] == s[1..] + t;
      CountConcat(s[1..], t, c);
    }
  }

  lemma {:induction false} CountInText(os: seq<nat>)
    requires |os| > 0
    ensures Count(TextOf(os), SEPARATOR) == |os| - 1
  {
    var head := Segment(os[0]);
    SegmentRoundTrip(os[0], "");
    CountConcat(head, "", SEPARATOR);
    if |os| > 1 {
      var sep: string := [SEPARATOR];
      CountInText(os[1..]);
      CountConcat(head + sep, TextOf(os[1..]), SEPARATOR);
      CountConcat(head, sep, SEPARATOR);
      assert Count(sep, SEPARATOR) == 1 + Count(sep[1..], SEPARATOR);
    }
  }

  lemma {:induction false} LastIndexAfter(s: string, t: string, c: char)
    requires c !in t
    ensures LastIndex(t, c) == None
    ensures LastIndex(s + [c] + t, c) == Some(|s|)
  {
    var whole := s + [c] + t;
    if |t| == 0 {
      assert whole[|whole| - 1] == c;
    } else {
      var t' := t[..|t| - 1];
      assert whole[..|whole| - 1] == s + [c] + t';
      LastIndexAfter(s, t', c);
    }
  }

  /** Where the last separator of a path is: before its last segment, if there is one above. */
  lemma LastSeparator(p: Path)
    ensures var os := Ordinals(p);
            if |os| == 1 then LastIndex(p, SEPARATOR) == None && p == Segment(os[0])
            else var up := TextOf(os[..|os| - 1]);
              && LastIndex(p, SEPARATOR) == Some(|up|)
              && p[..|up|] == up && p[|up| + 1..] == Segment(os[|os| - 1])
  {
    var os := Ordinals(p);
    var init, last := os[..|os| - 1], os[|os| - 1];
    SegmentRoundTrip(last, "");
    if |os| == 1 {
      LastIndexAfter("", p, SEPARATOR);
    } else {
      assert os == init + [last];
      TextBySuffix(init, last);
      LastIndexAfter(TextOf(init), Segment(last), SEPARATOR);
    }
  }

  /** Top-level posts are at depth 0. */
  function Depth(p: Path): (d: nat)
    ensures d == |Ordinals(p)| - 1 && d < MAX_DEPTH
  {
    CountInText(Ordinals(p));
    Count(p, SEPARATOR)
  }

  function Ordinal(p: Path): (k: nat)
    ensures k == Ordinals(p)[|Ordinals(p)| - 1] && k <= MAX_ORDINAL
  {
    LastSeparator(p);
    SegmentRoundTrip(Ordinals(p)[|Ordinals(p)| - 1], "");
    match LastIndex(p, SEPARATOR)
    case Some(i) => DecodeSegment(p[i + 1..])
    case None => DecodeSegment(p)
  }

  /** The position one level up, or `None` at the top level. */
  function Parent(p: Path): (r: Option<Path>)
    ensures r.None? <==> |Ordinals(p)| == 1
    ensures r.Some? ==> Ordinals(r.value) == Ordinals(p)[..|Ordinals(p)| - 1]
  {
    LastSeparator(p);
    match LastIndex(p, SEPARATOR)
    case Some(i) =>
      assert p[..i] == PathOf(Ordinals(p)[..|Ordinals(p)| - 1]);
      Some(p[..i])
    case None => None
  }

  function Root(ordinal: nat): (r: Result<Path, PathError>)
    ensures r.Ok? <==> ordinal <= MAX_ORDINAL
    ensures r.Ok? ==> Ordinals(r.value) == [ordinal]
    ensures r.Err? ==> r.error == OrdinalTooLarge(ordinal)
  {
    match EncodedSegment(ordinal)
    case Ok(s) => assert s == PathOf([ordinal]); Ok(s)
    case Err(e) => Err(e)
  }

  function Child(p: Path, ordinal: nat): (r: Result<Path, PathError>)
    ensures r.Ok? <==> |Ordinals(p)| < MAX_DEPTH && ordinal <= MAX_ORDINAL
    ensures r.Ok? ==> Ordinals(r.value) == Ordinals(p) + [ordinal]
    ensures r.Err? ==> r.error == if |Ordinals(p)| < MAX_DEPTH then OrdinalTooLarge(ordinal) else TooDeep(MAX_DEPTH)
  {
    var depth := Depth(p) + 1;
    if depth >= MAX_DEPTH then Err(TooDeep(depth))
    else match EncodedSegment(ordinal)
      case Ok(s) =>
        TextBySuffix(Ordinals(p), ordinal);
        assert p + [SEPARATOR] + s == PathOf(Ordinals(p) + [ordinal]);
        Ok(p + [SEPARATOR] + s)
      case Err(e) => Err(e)
  }

  /** The sibling position one ordinal up; it exists unless the level is full. */
  function NextSibling(p: Path): (r: Result<Path, PathError>)
    ensures var os := Ordinals(p); var last := os[|os| - 1];
            && (r.Ok? <==> last < MAX_ORDINAL)
            && (r.Ok? ==> Ordinals(r.value) == os[..|os| - 1] + [last + 1])
            && (r.Err? ==> r.error == OrdinalTooLarge(MAX_ORDINAL + 1))
  {
    var next := Ordinal(p) + 1;
    match Parent(p)
    case Some(parent) => Child(parent, next)
    case None => Root(next)
  }

  /** The walk up that `ancestor_at_depth` takes once the depth check has passed. */
  function Climb(p: Path, depth: nat): (r: Option<Path>)
    requires depth <= Depth(p)
    ensures r.Some? && Ordinals(r.value) == Ordinals(p)[..depth + 1]
    decreases |Ordinals(p)|
  {
    if Depth(p) > depth then
      match Parent(p)
      case Some(up) => Climb(up, depth)
      case None => None
    else Some(p)
  }

  function AncestorAt(p: Path, depth: nat): (r: Option<Path>)
    ensures r.None? <==> depth >= |Ordinals(p)|
    ensures r.Some? ==> Ordinals(r.value) == Ordinals(p)[..depth + 1]
  {
    if depth > Depth(p) then None else Climb(p, depth)
  }

  method AncestorAtDepth(path: Path, depth: nat) returns (r: Option<Path>)
    ensures r == AncestorAt(path, depth)
  {
    if depth > Depth(path) {
      return None;
    }
    var p := path;
    while Depth(p) > depth
      invariant depth <= Depth(p) && Climb(p, depth) == Climb(path, depth)
      decreases Depth(p)
    {
      var up := Parent(p);
      if up.None? { return None; }
      p := up.value;
    }
    r := Some(p);
  }

  method Parse(s: string) returns (r: Result<Path, PathError>)
    ensures r.Ok? <==> IsPath(s)
    ensures r.Ok? ==> r.value == s
    ensures r == Err(Empty) <==> s == ""
    ensures r.Err? && r.error != Empty ==> FailsAt(Split(s, SEPARATOR), r.error)
  {
    if s == "" {
      assert !WellFormed(Split(s, SEPARATOR)[0]);
      PathSegments(s);
      return Err(Empty);
    }
    PathSegments(s);
    var segments := Split(s, SEPARATOR);
    var depth := 0;
    while depth < |segments|
      invariant 0 <= depth <= |segments| && depth <= MAX_DEPTH
      invariant forall i :: 0 <= i < depth ==> WellFormed(segments[i])
    {
      if depth + 1 > MAX_DEPTH {
        return Err(TooDeep(depth + 1));
      }
      if !WellFormed(segments[depth]) {
        assert FirstMalformed(segments, depth);
        return Err(Malformed(segments[depth]));
      }
      depth := depth + 1;
    }
    r := Ok(s);
  }

  predicate FirstMalformed(segments: seq<string>, i: nat) {
    i < |segments| && !WellFormed(segments[i]) && forall j :: 0 <= j < i ==> WellFormed(segments[j])
  }

  /** The scan reports whatever it meets first: a malformed segment or the level past the cap. */
  ghost predicate FailsAt(segments: seq<string>, e: PathError) {
    match e
    case Malformed(segment) =>
      exists i :: 0 <= i < MAX_DEPTH && FirstMalformed(segments, i) && segments[i] == segment
    case TooDeep(depth) =>
      && depth == MAX_DEPTH + 1 && |segments| > MAX_DEPTH
      && forall i :: 0 <= i < MAX_DEPTH ==> WellFormed(segments[i])
    case _ => false
  }

  /** Paths are exactly the strings of at most `MAX_DEPTH` well-formed segments. */
  lemma PathSegments(s: string)
    ensures var parts := Split(s, SEPARATOR);
            IsPath(s) <==> |parts| <= MAX_DEPTH && forall i :: 0 <= i < |parts| ==> WellFormed(parts[i])
  {
    var parts, os := Split(s, SEPARATOR), Ordinals(s);
    if IsPath(s) {
      SplitOfText(os);
      forall i | 0 <= i < |parts| ensures WellFormed(parts[i]) { SegmentRoundTrip(os[i], ""); }
    }
    if |parts| <= MAX_DEPTH && forall i :: 0 <= i < |parts| ==> WellFormed(parts[i]) {
      forall i | 0 <= i < |parts| ensures os[i] <= MAX_ORDINAL && Segment(os[i]) == parts[i] {
        SegmentRoundTrip(0, parts[i]);
      }
      TextIsJoin(os, parts);
      JoinOfSplit(s, SEPARATOR);
    }
  }

  lemma {:induction false} TextIsJoin(os: seq<nat>, parts: seq<string>)
    requires |os| == |parts| > 0 && forall i :: 0 <= i < |os| ==> parts[i] == Segment(os[i])
    ensures TextOf(os) == Join(parts, SEPARATOR)
  {
    if |os| > 1 { TextIsJoin(os[1..], parts[1..]); }
  }

  // ---- string order is tree order -----------------------------------------------------------

  /** Byte order of two paths is preorder of the tree: an ancestor before its descendants, and
      whole subtrees in the order of the first ordinal in which they differ. */
  lemma OrderIsPreorder(p: Path, q: Path)
    ensures Less(p, q) <==> Below(Ordinals(p), Ordinals(q))
    ensures p == q <==> Ordinals(p) == Ordinals(q)
  {
    TextOrder(Ordinals(p), Ordinals(q));
  }

  lemma {:induction false} TextOrder(x: seq<nat>, y: seq<nat>)
    requires |x| > 0 && forall i :: 0 <= i < |x| ==> x[i] <= MAX_ORDINAL
    requires |y| > 0 && forall i :: 0 <= i < |y| ==> y[i] <= MAX_ORDINAL
    ensures Less(TextOf(x), TextOf(y)) <==> Below(x, y)
  {
    var s, t := Segment(x[0]), Segment(y[0]);
    var restX := if |x| == 1 then "" else [SEPARATOR] + TextOf(x[1..]);
    var restY := if |y| == 1 then "" else [SEPARATOR] + TextOf(y[1..]);
    assert TextOf(x) == s + restX && TextOf(y) == t + restY;
    SegmentOrder(x[0], y[0]);
    if x[0] == y[0] {
      LessUnderPrefix(s, restX, restY);
      if |x| > 1 && |y| > 1 {
        LessUnderPrefix([SEPARATOR], TextOf(x[1..]), TextOf(y[1..]));
        TextOrder(x[1..], y[1..]);
      }
    } else {
      LessByHeads(s, t, restX, restY);
    }
  }

  predicate IsDescendantOf(p: Path, other: Path) {
    p == other || (|p| > |other| && p[|other|] == SEPARATOR && other <= p)
  }

  /** Just past every `<self>.` descendant and still below the next sibling. */
  function SubtreeEnd(p: Path): string {
    p + "/"
  }

  /** The half-open range from a path to its subtree end holds exactly its subtree, which is
      exactly the positions extending its own. */
  lemma SubtreeRangeIsExact(anchor: Path, p: Path)
    ensures AtMost(anchor, p) && Less(p, SubtreeEnd(anchor)) <==> IsDescendantOf(p, anchor)
    ensures IsDescendantOf(p, anchor) <==> Ordinals(anchor) <= Ordinals(p)
  {
    RangeOfText(Ordinals(anchor), Ordinals(p));
    OrderIsPreorder(anchor, p);
  }

  lemma {:induction false} RangeOfText(x: seq<nat>, y: seq<nat>)
    requires |x| > 0 && forall i :: 0 <= i < |x| ==> x[i] <= MAX_ORDINAL
    requires |y| > 0 && forall i :: 0 <= i < |y| ==> y[i] <= MAX_ORDINAL
    ensures var a, p := TextOf(x), TextOf(y);
            && (x <= y <==> a == p || (|p| > |a| && p[|a|] == SEPARATOR && a <= p))
            && (x <= y <==> AtMost(a, p) && Less(p, a + "/"))
  {
    var s, t := Segment(x[0]), Segment(y[0]);
    var restX := if |x| == 1 then "" else [SEPARATOR] + TextOf(x[1..]);
    var restY := if |y| == 1 then "" else [SEPARATOR] + TextOf(y[1..]);
    assert TextOf(x) == s + restX && TextOf(y) == t + restY;
    assert TextOf(x) + "/" == s + (restX + "/");
    SegmentOrder(x[0], y[0]);
    if x[0] == y[0] {
      LessUnderPrefix(s, restX, restY);
      LessUnderPrefix(s, restY, restX + "/");
      if |x| > 1 && |y| > 1 {
        var a, p := TextOf(x[1..]), TextOf(y[1..]);
        LessUnderPrefix([SEPARATOR], a, p);
        LessUnderPrefix([SEPARATOR], p, a + "/");
        assert restX + "/" == [SEPARATOR] + (a + "/");
        RangeOfText(x[1..], y[1..]);
      }
    } else {
      assert TextOf(x)[..SEGMENT_WIDTH] == s && TextOf(y)[..SEGMENT_WIDTH] == t;
      LessByHeads(s, t, restX, restY);
      LessByHeads(t, s, restY, restX + "/");
      LessTotal(s, t);
    }
  }
}
