// Allocating the next reply position from one index probe (`NextPath`, crates/core/src/store.rs,
// and `LAST_PATH_IN_RANGE`, crates/core/src/sql.rs).
module Allocation {
  import opened Common
  import opened Text
  import opened Radix
  import opened Crockford
  import opened TreePath

  /** The position a new reply is allocated under; the thread itself is the empty position. */
  function Position(parent: Option<Path>): (os: seq<nat>)
    ensures |os| <= MAX_DEPTH
  {
    match parent
    case Some(p) => Ordinals(p)
    case None => []
  }

  lemma SamePosition(a: Option<Path>, b: Option<Path>)
    requires Position(a) == Position(b)
    ensures a == b
  {
    if a.Some? && b.Some? { OrderIsPreorder(a.value, b.value); }
  }

  /** `p` lies strictly beneath `parent`. */
  predicate Under(parent: Option<Path>, p: Path) {
    Position(parent) < Ordinals(p)
  }

  /** The ordinal of the child of `parent` that `p` is at or beneath. */
  function Branch(parent: Option<Path>, p: Path): nat
    requires Under(parent, p)
  {
    Ordinals(p)[|Position(parent)|]
  }

  // ---- the probe ----------------------------------------------------------------------------

  /** Both bounds are exclusive. */
  function SearchBounds(parent: Option<Path>): (string, string) {
    match parent
    case Some(p) => (p, SubtreeEnd(p))
    case None => ("", "\U{7F}")
  }

  predicate InRange(p: string, bounds: (string, string)) {
    Less(bounds.0, p) && Less(p, bounds.1)
  }

  /** `ORDER BY path DESC LIMIT 1` over the rows in range. */
  function LastInRange(rows: seq<Path>, bounds: (string, string)): (last: Option<Path>)
    ensures last.None? ==> forall q | q in rows :: !InRange(q, bounds)
    ensures last.Some? ==> last.value in rows && InRange(last.value, bounds)
    ensures last.Some? ==> forall q | q in rows && InRange(q, bounds) :: AtMost(q, last.value)
  {
    if |rows| == 0 then None
    else
      var last, q := LastInRange(rows[1..], bounds), rows[0];
      assert forall r | r in rows :: r == q || r in rows[1..];
      if !InRange(q, bounds) then last
      else if last.None? then Some(q)
      else
        LessTotal(q, last.value);
        if Less(last.value, q) then
          assert forall r | r in rows[1..] && InRange(r, bounds) :: AtMost(r, q) by {
            forall r | r in rows[1..] && InRange(r, bounds) ensures AtMost(r, q) {
              if r != last.value { LessTransitive(r, last.value, q); }
            }
          }
          Some(q)
        else last
  }

  /** The bounds select exactly what lies beneath the parent, at any depth. */
  lemma BoundsSelectSubtree(parent: Option<Path>, p: Path)
    ensures InRange(p, SearchBounds(parent)) <==> Under(parent, p)
  {
    match parent {
      case Some(anchor) =>
        SubtreeRangeIsExact(anchor, p);
        OrderIsPreorder(anchor, p);
        LessIrreflexive(p);
      case None =>
        var os := Ordinals(p);
        SegmentRoundTrip(os[0], "");
        assert p[0] == Segment(os[0])[0];
        assert Index('A', p[0]) >= 0;
    }
  }

  // ---- the arithmetic -----------------------------------------------------------------------

  /** `last` is the greatest path under the parent, however deep. */
  function Allocate(parent: Option<Path>, last: Option<Path>): Result<Path, PathError> {
    var childDepth := match parent case Some(p) => Depth(p) + 1 case None => 0;
    var lastSibling := match last case Some(l) => AncestorAt(l, childDepth) case None => None;
    match (lastSibling, parent)
    case (Some(sibling), _) => NextSibling(sibling)
    case (None, Some(p)) => Child(p, 0)
    case (None, None) => Root(0)
  }

  /** What the store's insert computes from the rows it can see. */
  function NextPath(rows: seq<Path>, parent: Option<Path>): Result<Path, PathError> {
    Allocate(parent, LastInRange(rows, SearchBounds(parent)))
  }

  /** The first ordinal past every branch in use under `parent`. */
  function FirstFree(rows: seq<Path>, parent: Option<Path>): (n: nat)
    ensures forall q | q in rows && Under(parent, q) :: Branch(parent, q) < n
    ensures n > 0 ==> exists q :: q in rows && Under(parent, q) && Branch(parent, q) == n - 1
  {
    if |rows| == 0 then 0
    else
      var n, q := FirstFree(rows[1..], parent), rows[0];
      assert forall r | r in rows :: r == q || r in rows[1..];
      assert forall r | r in rows[1..] :: r in rows;
      if Under(parent, q) && Branch(parent, q) >= n then Branch(parent, q) + 1 else n
  }

  lemma OneMorePath(rows: seq<Path>, p: Path, parent: Option<Path>)
    ensures FirstFree(rows + [p], parent) ==
              if Under(parent, p) && Branch(parent, p) >= FirstFree(rows, parent) then Branch(parent, p) + 1
              else FirstFree(rows, parent)
  {
    hide IsPath, Ordinals, Position, FirstFree, Under, Branch;
    var n, m, all := FirstFree(rows, parent), FirstFree(rows + [p], parent), rows + [p];
    assert p in all && forall q :: q in rows ==> q in all;
    if n > 0 {
      var q :| q in rows && Under(parent, q) && Branch(parent, q) == n - 1;
      assert q in all;
    }
    if m > 0 {
      var q :| q in all && Under(parent, q) && Branch(parent, q) == m - 1;
      assert q in rows || q == p;
    }
  }

  lemma {:induction false} BelowWithinPrefix(pre: seq<nat>, x: seq<nat>, y: seq<nat>)
    requires pre < x && pre < y
    ensures Below(x, y) ==> x[|pre|] <= y[|pre|]
    ensures x[|pre|] < y[|pre|] ==> Below(x, y)
  {
    if |pre| > 0 { BelowWithinPrefix(pre[1..], x[1..], y[1..]); }
  }

  lemma SiblingOfBranch(sibling: Path, pre: seq<nat>, k: nat)
    requires Ordinals(sibling) == pre + [k]
    ensures var r := NextSibling(sibling);
            if k < MAX_ORDINAL then r.Ok? && Ordinals(r.value) == pre + [k + 1]
            else r == Err(OrdinalTooLarge(MAX_ORDINAL + 1))
  {
    assert Ordinals(sibling)[..|Ordinals(sibling)| - 1] == pre;
  }

  /** Truncating the probe's answer to the child level gives the last sibling. */
  lemma AllocatesAfterBranch(parent: Option<Path>, last: Path)
    requires Under(parent, last)
    ensures var n, r := Branch(parent, last) + 1, Allocate(parent, Some(last));
            && |Position(parent)| < MAX_DEPTH
            && (if n <= MAX_ORDINAL then r.Ok? && Ordinals(r.value) == Position(parent) + [n]
                else r == Err(OrdinalTooLarge(n)))
  {
    hide Ordinals, TextOf, Climb, AncestorAt, NextSibling, Child, Root;
    var pre, os := Position(parent), Ordinals(last);
    assert os[..|pre| + 1] == pre + [os[|pre|]];
    var found := AncestorAt(last, |pre|);
    assert parent.Some? ==> Depth(parent.value) + 1 == |pre|;
    assert Allocate(parent, Some(last)) == NextSibling(found.value);
    SiblingOfBranch(found.value, pre, os[|pre|]);
  }

  /** The greatest path in range lies in the last branch. */
  lemma LastBranchIsGreatest(rows: seq<Path>, parent: Option<Path>)
    ensures var last := LastInRange(rows, SearchBounds(parent));
            match last
            case None => FirstFree(rows, parent) == 0
            case Some(l) => Under(parent, l) && FirstFree(rows, parent) == Branch(parent, l) + 1
  {
    var last := LastInRange(rows, SearchBounds(parent));
    forall q | q in rows ensures InRange(q, SearchBounds(parent)) <==> Under(parent, q) {
      BoundsSelectSubtree(parent, q);
    }
    if last.Some? {
      forall q | q in rows && Under(parent, q) ensures Branch(parent, q) <= Branch(parent, last.value) {
        OrderIsPreorder(q, last.value);
        BelowWithinPrefix(Position(parent), Ordinals(q), Ordinals(last.value));
      }
    }
  }

  /** From the single greatest path beneath the parent the allocator finds the first ordinal no
      branch uses. It fails only when that ordinal or the depth is past its maximum. */
  lemma AllocatesFirstFree(rows: seq<Path>, parent: Option<Path>)
    ensures var n, r := FirstFree(rows, parent), NextPath(rows, parent);
            && (r.Ok? <==> |Position(parent)| < MAX_DEPTH && n <= MAX_ORDINAL)
            && (r.Ok? ==> Ordinals(r.value) == Position(parent) + [n])
            && (r.Err? ==> r.error == if |Position(parent)| < MAX_DEPTH then OrdinalTooLarge(n) else TooDeep(MAX_DEPTH))
  {
    hide IsPath, Ordinals;
    var last := LastInRange(rows, SearchBounds(parent));
    LastBranchIsGreatest(rows, parent);
    if last.Some? { AllocatesAfterBranch(parent, last.value); }
  }

  /** The allocated path is new to the thread, hangs directly under the parent and sorts after
      everything already beneath it. */
  lemma AllocatedIsLastChild(rows: seq<Path>, parent: Option<Path>)
    requires NextPath(rows, parent).Ok?
    ensures var p := NextPath(rows, parent).value;
            && p !in rows
            && TreePath.Parent(p) == parent
            && forall q | q in rows && Under(parent, q) :: Less(q, p)
  {
    AllocatesFirstFree(rows, parent);
    var p, pre := NextPath(rows, parent).value, Position(parent);
    assert Ordinals(p)[..|pre|] == pre;
    if parent.Some? { OrderIsPreorder(TreePath.Parent(p).value, parent.value); }
    assert Under(parent, p);
    forall q | q in rows && Under(parent, q) ensures Less(q, p) {
      OrderIsPreorder(q, p);
      BelowWithinPrefix(pre, Ordinals(q), Ordinals(p));
    }
    assert Branch(parent, p) == FirstFree(rows, parent);
  }
}
