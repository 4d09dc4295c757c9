// What flattening keeps of the tree it is given (crates/hn-import/src/tree.rs).
module ImportedTree {
  import opened Common
  import opened Text
  import opened Radix
  import opened TreePath
  import opened Allocation
  import opened ImportTree
  import Paging
  import opened ReplyTree

  // ---- the invariant of the walk ------------------------------------------------------------

  function Least(m: nat, n: nat): nat { if m < n then m else n }

  predicate Holds(out: seq<Placed>, path: Path, item: Item) {
    exists j :: 0 <= j < |out| && out[j].path == path && out[j].item == item
  }

  predicate Has(out: seq<Placed>, path: Path) {
    exists j :: 0 <= j < |out| && out[j].path == path
  }

  /** No ordinal in use is past its counter. */
  ghost predicate Counted(st: State) {
    forall i, e: Option<Path> :: 0 <= i < |st.out| && Under(e, st.out[i].path)
      ==> Branch(e, st.out[i].path) <= Used(st, e)
  }

  /** Only placed posts have been replied to. */
  ghost predicate RepliesArePlaced(st: State) {
    forall p: Path :: Used(st, Some(p)) > 0 ==> Has(st.out, p)
  }

  predicate Identified(st: State) {
    && (forall i :: 0 <= i < |st.out| ==> st.out[i].item.id in st.seen)
    && forall i, j :: 0 <= i < j < |st.out| ==> st.out[i].item.id != st.out[j].item.id
  }

  /** Post `i` sits at its own level or at the deepest one, under its HN ancestor one level up from
      where it sits, which comes earlier. */
  predicate HungAt(out: seq<Placed>, above: seq<Item>, i: nat, levels: Levels)
    requires i < |out|
  {
    var d := Least(|above|, levels - 1);
    && Depth(out[i].path) == d
    && (d > 0 ==> exists j :: 0 <= j < i && TreePath.Parent(out[i].path) == Some(out[j].path) && out[j].item == above[d - 1])
  }

  predicate Hung(st: State, levels: Levels)
    requires |st.lineage| == |st.out|
  {
    forall i :: 0 <= i < |st.out| ==> HungAt(st.out, st.lineage[i], i, levels)
  }

  ghost predicate Walked(st: State, levels: Levels) {
    && |st.lineage| == |st.out| && InOrder(st.out)
    && Counted(st) && RepliesArePlaced(st) && Identified(st) && Hung(st, levels)
  }

  /** `e` is where the next child of the innermost item of `above` goes: everything placed so far
      sorts before it or lies at or beneath it. */
  predicate Ready(st: State, e: Option<Path>, above: seq<Item>, levels: Levels) {
    && |Position(e)| == Least(|above|, levels - 1)
    && (e.Some? ==> Holds(st.out, e.value, above[|Position(e)| - 1]))
    && (e.Some? ==> forall i :: 0 <= i < |st.out| ==>
         Less(st.out[i].path, e.value) || Position(e) <= Ordinals(st.out[i].path))
  }

  /** Ids taken in without a post to show for them. */
  function Lost(st: State): int { |st.seen| - |st.out| }

  /** What a stretch of the walk under `e` adds. */
  predicate Grew(st: State, r: State, e: Option<Path>) {
    && st.out <= r.out && st.lineage <= r.lineage && st.seen <= r.seen
    && Lost(st) <= Lost(r)
    && forall i :: |st.out| <= i < |r.out| ==> Under(e, r.out[i].path) && r.out[i].item.id !in st.seen
  }

  lemma ReadyLasts(st: State, r: State, e: Option<Path>, above: seq<Item>, levels: Levels)
    requires Ready(st, e, above, levels) && Grew(st, r, e)
    ensures Ready(r, e, above, levels)
  {
    hide IsPath, Ordinals;
    if e.Some? {
      var item := above[|Position(e)| - 1];
      var j :| 0 <= j < |st.out| && st.out[j].path == e.value && st.out[j].item == item;
      assert r.out[j] == st.out[j];
      forall i | 0 <= i < |r.out|
        ensures Less(r.out[i].path, e.value) || Position(e) <= Ordinals(r.out[i].path)
      {
        if i < |st.out| { assert r.out[i] == st.out[i]; }
      }
    }
  }

  // ---- placing one item ---------------------------------------------------------------------

  lemma SlotTaken(e: Option<Path>, n: nat)
    ensures Slot(e, n).Ok? <==> |Position(e)| < MAX_DEPTH && n <= MAX_ORDINAL
    ensures Slot(e, n).Ok? ==> Ordinals(Slot(e, n).value) == Position(e) + [n]
  {
  }

  lemma KeysDiffer(a: Option<Path>, b: Option<Path>)
    requires a != b
    ensures Key(a) != Key(b)
  {
    if a.Some? { Paging.EverythingIsBeyondStart(a.value); }
    if b.Some? { Paging.EverythingIsBeyondStart(b.value); }
  }

  /** A slot past every branch in use sorts after everything admitted. */
  lemma NewIsLast(st: State, e: Option<Path>, above: seq<Item>, levels: Levels, x: Path, i: nat)
    requires Counted(st) && Ready(st, e, above, levels) && i < |st.out|
    requires Under(e, x) && Branch(e, x) == Used(st, e) + 1
    ensures Less(st.out[i].path, x)
  {
    hide IsPath, Ordinals, TextOf, Used;
    var q := st.out[i].path;
    BoundsSelectSubtree(e, x);
    if e.Some? && Less(q, e.value) {
      LessTransitive(q, e.value, x);
    } else if Under(e, q) {
      OrderIsPreorder(q, x);
      BelowWithinPrefix(Position(e), Ordinals(q), Ordinals(x));
    } else {
      OrderIsPreorder(q, e.value);
    }
  }

  /** Any position above the new one is the slot's parent or above that. */
  lemma AboveTheSlot(e: Option<Path>, x: Path, other: Option<Path>)
    requires Under(e, x) && |Ordinals(x)| == |Position(e)| + 1 && Under(other, x) && other != e
    ensures e.Some? && Under(other, e.value) && Branch(other, e.value) == Branch(other, x)
    ensures Key(other) != Key(e)
  {
    hide IsPath, TextOf;
    assert Position(other) <= Position(e);
    KeysDiffer(other, e);
    if other.Some? && e.Some? { OrderIsPreorder(other.value, e.value); }
  }

  lemma StaysCounted(st: State, e: Option<Path>, next: State, x: Path, placed: Placed)
    requires Counted(st) && (e.Some? ==> Has(st.out, e.value))
    requires next.ordinals == st.ordinals[Key(e) := Used(st, e) + 1]
    requires Under(e, x) && |Ordinals(x)| == |Position(e)| + 1 && Branch(e, x) == Used(st, e) + 1
    requires placed.path == x && next.out == st.out + [placed]
    ensures Counted(next)
  {
    hide IsPath, Ordinals;
    forall i, other: Option<Path> | 0 <= i < |next.out| && Under(other, next.out[i].path)
      ensures Branch(other, next.out[i].path) <= Used(next, other)
    {
      if i < |st.out| {
        assert Branch(other, st.out[i].path) <= Used(st, other);
      } else if other != e {
        AboveTheSlot(e, x, other);
        var j :| 0 <= j < |st.out| && st.out[j].path == e.value;
        assert Branch(other, st.out[j].path) <= Used(st, other);
      }
    }
  }

  lemma StaysHung(st: State, next: State, levels: Levels, e: Option<Path>, above: seq<Item>, x: Placed)
    requires |st.lineage| == |st.out| && Hung(st, levels) && Ready(st, e, above, levels)
    requires next.out == st.out + [x] && next.lineage == st.lineage + [above]
    requires TreePath.Parent(x.path) == e && Depth(x.path) == |Position(e)|
    ensures Hung(next, levels)
  {
    hide IsPath, Ordinals;
    forall i | 0 <= i < |next.out| ensures HungAt(next.out, next.lineage[i], i, levels) {
      if i < |st.out| {
        assert HungAt(st.out, st.lineage[i], i, levels);
        assert next.out[i] == st.out[i] && next.lineage[i] == st.lineage[i];
        var d := Least(|st.lineage[i]|, levels - 1);
        if d > 0 {
          var j :| 0 <= j < i && TreePath.Parent(st.out[i].path) == Some(st.out[j].path) && st.out[j].item == st.lineage[i][d - 1];
          assert next.out[j] == st.out[j];
        }
      } else if e.Some? {
        var j :| 0 <= j < |st.out| && st.out[j].path == e.value && st.out[j].item == above[|Position(e)| - 1];
        assert next.out[j] == st.out[j];
      }
    }
  }

  /** `PlaceOne`'s two outcomes. */
  predicate Took(st: State, next: State, placed: Placed, e: Option<Path>, above: seq<Item>) {
    && next.seen == st.seen + {placed.item.id}
    && next.ordinals == st.ordinals[Key(e) := Used(st, e) + 1]
    && next.out == st.out + [placed] && next.lineage == st.lineage + [above]
    && Ordinals(placed.path) == Position(e) + [Used(st, e) + 1]
    && Used(st, e) < MAX_ORDINAL
  }

  predicate Dropped(st: State, next: State, id: int, e: Option<Path>) {
    && next.seen == st.seen + {id}
    && next.ordinals == st.ordinals[Key(e) := Used(st, e) + 1]
    && next.out == st.out && next.lineage == st.lineage
    && Used(st, e) >= MAX_ORDINAL
  }

  lemma PlaceOneOutcome(item: Item, e: Option<Path>, isOpening: bool, above: seq<Item>, st: State)
    requires |Position(e)| < MAX_DEPTH
    ensures var (next, path) := PlaceOne(item, e, isOpening, above, st);
            match path
            case Some(x) => Took(st, next, Placed(item, x, None, isOpening), e, above)
            case None => Dropped(st, next, item.id, e)
  {
    hide IsPath, Ordinals, Slot;
    SlotTaken(e, Used(st, e) + 1);
  }

  lemma TakingKeeps(st: State, next: State, placed: Placed, e: Option<Path>, above: seq<Item>, levels: Levels)
    requires Walked(st, levels) && Ready(st, e, above, levels) && placed.item.id !in st.seen
    requires Took(st, next, placed, e, above)
    ensures Walked(next, levels)
  {
    hide IsPath, Ordinals, Counted, RepliesArePlaced, Hung, Ready;
    var x, n := placed.path, Used(st, e) + 1;
    TakingSorts(st, next, placed, e, above, levels);
    ReadyHas(st, e, above, levels);
    StaysCounted(st, e, next, x, placed);
    ParentOfSlot(e, x, n);
    StaysHung(st, next, levels, e, above, placed);
    RepliesStayPlaced(st, next, e, n);
    TakingIdentifies(st, next, placed);
  }

  lemma TakingIdentifies(st: State, next: State, placed: Placed)
    requires Identified(st) && placed.item.id !in st.seen
    requires next.seen == st.seen + {placed.item.id} && next.out == st.out + [placed]
    ensures Identified(next)
  {
  }

  lemma ReadyHas(st: State, e: Option<Path>, above: seq<Item>, levels: Levels)
    requires Ready(st, e, above, levels)
    ensures e.Some? ==> Has(st.out, e.value)
  {
  }

  lemma TakingSorts(st: State, next: State, placed: Placed, e: Option<Path>, above: seq<Item>, levels: Levels)
    requires InOrder(st.out) && Counted(st) && Ready(st, e, above, levels)
    requires Took(st, next, placed, e, above)
    ensures InOrder(next.out)
  {
    hide IsPath, Ordinals, Counted, Ready;
    forall i | 0 <= i < |st.out| ensures Less(st.out[i].path, placed.path) {
      NewIsLast(st, e, above, levels, placed.path, i);
    }
  }

  lemma DroppingKeeps(st: State, next: State, id: int, e: Option<Path>, above: seq<Item>, levels: Levels)
    requires Walked(st, levels) && Ready(st, e, above, levels) && Dropped(st, next, id, e)
    ensures Walked(next, levels)
  {
    hide IsPath, Ordinals, Counted, RepliesArePlaced, Ready;
    ReadyHas(st, e, above, levels);
    CountersOnlyRise(st, next, e);
    RepliesStayPlaced(st, next, e, Used(st, e) + 1);
  }

  lemma ParentOfSlot(e: Option<Path>, x: Path, n: nat)
    requires Ordinals(x) == Position(e) + [n]
    ensures TreePath.Parent(x) == e && Depth(x) == |Position(e)|
  {
    hide IsPath, TextOf, Ordinals;
    var os := Ordinals(x);
    assert os[..|os| - 1] == Position(e);
    if e.Some? { OrderIsPreorder(TreePath.Parent(x).value, e.value); }
  }

  lemma CountersOnlyRise(st: State, next: State, e: Option<Path>)
    requires Counted(st) && next.out == st.out && next.ordinals == st.ordinals[Key(e) := Used(st, e) + 1]
    ensures Counted(next)
  {
    hide IsPath, Ordinals;
    forall i, other: Option<Path> | 0 <= i < |next.out| && Under(other, next.out[i].path)
      ensures Branch(other, next.out[i].path) <= Used(next, other)
    {
      assert Branch(other, st.out[i].path) <= Used(st, other);
    }
  }

  lemma RepliesStayPlaced(st: State, next: State, e: Option<Path>, n: nat)
    requires RepliesArePlaced(st) && st.out <= next.out && next.ordinals == st.ordinals[Key(e) := n]
    requires e.Some? ==> Has(st.out, e.value)
    ensures RepliesArePlaced(next)
  {
    hide IsPath, Ordinals;
    forall p: Path | Used(next, Some(p)) > 0 ensures Has(next.out, p) {
      if Some(p) != e { KeysDiffer(Some(p), e); }
      assert Has(st.out, p);
      var j :| 0 <= j < |st.out| && st.out[j].path == p;
      assert next.out[j] == st.out[j];
    }
  }

  // ---- the whole walk -----------------------------------------------------------------------

  /** Children of a new post go under it, or beside it when it is at the deepest level. */
  lemma HomeOfChildren(st: State, next: State, placed: Placed, e: Option<Path>, above: seq<Item>, levels: Levels)
    requires Walked(st, levels) && Ready(st, e, above, levels) && Took(st, next, placed, e, above)
    ensures Clamp(placed.path, levels) == if |Position(e)| < levels - 1 then Some(placed.path) else e
    ensures Used(next, Some(placed.path)) == 0
  {
    hide IsPath, Ordinals, Counted, Ready, Clamp;
    var x := placed.path;
    var home := if |Position(e)| < levels - 1 then Some(x) else e;
    ReadyLength(st, e, above, levels);
    assert Position(Clamp(x, levels)) == Position(home);
    SamePosition(Clamp(x, levels), home);
    KeyOfNew(st, next, placed, e, above, levels);
  }

  lemma ReadyLength(st: State, e: Option<Path>, above: seq<Item>, levels: Levels)
    requires Ready(st, e, above, levels)
    ensures |Position(e)| == Least(|above|, levels - 1)
  {
  }

  lemma KeyOfNew(st: State, next: State, placed: Placed, e: Option<Path>, above: seq<Item>, levels: Levels)
    requires Walked(st, levels) && Ready(st, e, above, levels) && Took(st, next, placed, e, above)
    ensures Used(next, Some(placed.path)) == 0
  {
    hide IsPath, Ordinals, Counted, Ready, Hung, Identified;
    var x := placed.path;
    TakingSorts(st, next, placed, e, above, levels);
    if Used(st, Some(x)) > 0 {
      assert Has(st.out, x);
      var j :| 0 <= j < |st.out| && st.out[j].path == x;
      assert next.out[j].path == x && next.out[|st.out|].path == x;
      LessIrreflexive(x);
      assert false;
    }
    assert Some(x) != e;
    KeysDiffer(Some(x), e);
  }

  lemma ReadyBelow(st: State, next: State, placed: Placed, e: Option<Path>, above: seq<Item>, levels: Levels)
    requires Walked(st, levels) && Ready(st, e, above, levels) && Took(st, next, placed, e, above)
    requires Grew(st, next, e)
    ensures Ready(next, Clamp(placed.path, levels), above + [placed.item], levels)
  {
    hide IsPath, Ordinals, Counted, Clamp;
    var x := placed.path;
    HomeOfChildren(st, next, placed, e, above, levels);
    ReadyLasts(st, next, e, above, levels);
    if |Position(e)| < levels - 1 {
      assert next.out[|st.out|] == placed;
      TakingSorts(st, next, placed, e, above, levels);
    }
  }

  lemma TookGrew(st: State, next: State, placed: Placed, e: Option<Path>, above: seq<Item>)
    requires placed.item.id !in st.seen && Took(st, next, placed, e, above)
    ensures Grew(st, next, e)
  {
    hide IsPath, Ordinals;
  }

  lemma DroppedGrew(st: State, next: State, id: int, e: Option<Path>)
    requires id !in st.seen && Dropped(st, next, id, e)
    ensures Grew(st, next, e) && Lost(next) == Lost(st) + 1
  {
    hide IsPath, Ordinals;
  }

  lemma GrewTwice(st: State, mid: State, r: State, e: Option<Path>, below: Option<Path>)
    requires Grew(st, mid, e) && Grew(mid, r, below) && Position(e) <= Position(below)
    ensures Grew(st, r, e)
  {
    hide IsPath, Ordinals;
    forall i | |st.out| <= i < |r.out| ensures Under(e, r.out[i].path) && r.out[i].item.id !in st.seen {
      if i < |mid.out| { assert r.out[i] == mid.out[i]; }
    }
  }

  lemma {:induction false} VisitKeeps(item: Item, parent: Option<Path>, isOpening: bool, above: seq<Item>, levels: Levels, st: State)
    requires Walked(st, levels) && Ready(st, Home(parent, levels), above, levels)
    ensures var r := Visit(item, parent, isOpening, above, levels, st);
            Walked(r, levels) && Grew(st, r, Home(parent, levels))
    decreases Size(item), 1
  {
    hide Walked, Ready, Grew, PlaceOne, Took, Dropped, Clamp;
    if item.id !in st.seen {
      var e := Home(parent, levels);
      var (next, path) := PlaceOne(item, e, isOpening, above, st);
      PlaceKeeps(item, e, isOpening, above, levels, st);
      if path.Some? && !isOpening {
        VisitAllKeeps(item.children, path, above + [item], levels, next);
        GrewTwice(st, next, VisitAll(item.children, path, above + [item], levels, next), e, Home(path, levels));
      }
    } else {
      GrewNot(st, Home(parent, levels));
    }
  }

  lemma GrewNot(st: State, e: Option<Path>)
    ensures Grew(st, st, e)
  {
  }

  lemma PlaceKeeps(item: Item, e: Option<Path>, isOpening: bool, above: seq<Item>, levels: Levels, st: State)
    requires Walked(st, levels) && Ready(st, e, above, levels) && item.id !in st.seen
    ensures var (next, path) := PlaceOne(item, e, isOpening, above, st);
            && Walked(next, levels) && Grew(st, next, e)
            && (path.None? ==> Used(st, e) >= MAX_ORDINAL && Lost(next) > Lost(st))
            && (path.Some? ==> (
                && Ready(next, Home(path, levels), above + [item], levels)
                && Position(e) <= Position(Home(path, levels))
                && Took(st, next, Placed(item, path.value, None, isOpening), e, above)))
  {
    hide Walked, Ready, PlaceOne, Took, Dropped, Clamp, Grew;
    var (next, path) := PlaceOne(item, e, isOpening, above, st);
    ReadyLength(st, e, above, levels);
    PlaceOneOutcome(item, e, isOpening, above, st);
    match path {
      case Some(x) =>
        var placed := Placed(item, x, None, isOpening);
        TakingKeeps(st, next, placed, e, above, levels);
        TookGrew(st, next, placed, e, above);
        ReadyBelow(st, next, placed, e, above, levels);
        HomeOfChildren(st, next, placed, e, above, levels);
        TookUnder(st, next, placed, e, above);
      case None =>
        DroppingKeeps(st, next, item.id, e, above, levels);
        DroppedGrew(st, next, item.id, e);
        DroppedFull(st, next, item.id, e);
    }
  }

  lemma TookUnder(st: State, next: State, placed: Placed, e: Option<Path>, above: seq<Item>)
    requires Took(st, next, placed, e, above)
    ensures Position(e) <= Ordinals(placed.path)
  {
  }

  lemma DroppedFull(st: State, next: State, id: int, e: Option<Path>)
    requires Dropped(st, next, id, e)
    ensures Used(st, e) >= MAX_ORDINAL
  {
  }

  lemma {:induction false} VisitAllKeeps(items: seq<Item>, parent: Option<Path>, above: seq<Item>, levels: Levels, st: State)
    requires Walked(st, levels) && Ready(st, Home(parent, levels), above, levels)
    ensures var r := VisitAll(items, parent, above, levels, st);
            Walked(r, levels) && Grew(st, r, Home(parent, levels))
    decreases Sizes(items), 2
  {
    hide Walked, Ready, Grew, Visit, Clamp;
    var e := Home(parent, levels);
    if |items| == 0 {
      GrewNot(st, e);
    } else {
      var mid := Visit(items[0], parent, false, above, levels, st);
      VisitKeeps(items[0], parent, false, above, levels, st);
      ReadyLasts(st, mid, e, above, levels);
      VisitAllKeeps(items[1..], parent, above, levels, mid);
      GrewTwice(st, mid, VisitAll(items[1..], parent, above, levels, mid), e, e);
    }
  }

  // ---- lines of descent ---------------------------------------------------------------------

  /** A line of replies in the HN tree, from a top-level comment down. */
  predicate IsLine(story: Item, line: seq<Item>) {
    && |line| > 0 && line[0] in story.children
    && forall k :: 0 < k < |line| ==> line[k] in line[k - 1].children
  }

  predicate IsLineageOf(story: Item, above: seq<Item>, p: Placed) {
    if p.isOpening then above == [] && p.item == story else IsLine(story, above + [p.item])
  }

  /** What a stretch of the walk adds are true lines of descent, and no reply to a post it adds
      went unseen. */
  predicate Descended(story: Item, st: State, r: State) {
    && |st.lineage| == |st.out| && |r.lineage| == |r.out|
    && st.out <= r.out && st.lineage <= r.lineage && st.seen <= r.seen
    && (forall i :: |st.out| <= i < |r.out| ==> IsLineageOf(story, r.lineage[i], r.out[i]))
    && forall i, reply :: |st.out| <= i < |r.out| && !r.out[i].isOpening && reply in r.out[i].item.children
         ==> reply.id in r.seen
  }

  lemma DescendedTwice(story: Item, st: State, mid: State, r: State)
    requires Descended(story, st, mid) && Descended(story, mid, r)
    ensures Descended(story, st, r)
  {
    forall i | |st.out| <= i < |r.out|
      ensures IsLineageOf(story, r.lineage[i], r.out[i])
      ensures !r.out[i].isOpening ==> forall reply :: reply in r.out[i].item.children ==> reply.id in r.seen
    {
      if i < |mid.out| { assert r.out[i] == mid.out[i] && r.lineage[i] == mid.lineage[i]; }
    }
  }

  lemma {:induction false} VisitAllDescends(story: Item, items: seq<Item>, parent: Option<Path>, above: seq<Item>,
                                           levels: Levels, st: State)
    requires |st.lineage| == |st.out|
    requires forall item :: item in items ==> IsLine(story, above + [item])
    ensures var r := VisitAll(items, parent, above, levels, st);
            && Descended(story, st, r)
            && forall item :: item in items ==> item.id in r.seen
    decreases Sizes(items), 2
  {
    hide IsLine, Home, Slot, IsPath;
    if |items| > 0 {
      var item := items[0];
      var mid := Visit(item, parent, false, above, levels, st);
      assert item in items;
      VisitDescends(story, item, parent, above, levels, st);
      forall i | i in items[1..] ensures IsLine(story, above + [i]) { assert i in items; }
      VisitAllDescends(story, items[1..], parent, above, levels, mid);
      DescendedTwice(story, st, mid, VisitAll(items[1..], parent, above, levels, mid));
      assert forall i :: i in items ==> i == item || i in items[1..];
    }
  }

  lemma {:induction false} VisitDescends(story: Item, item: Item, parent: Option<Path>, above: seq<Item>, levels: Levels, st: State)
    requires |st.lineage| == |st.out| && IsLine(story, above + [item])
    ensures var r := Visit(item, parent, false, above, levels, st);
            Descended(story, st, r) && item.id in r.seen
    decreases Size(item), 1
  {
    hide Home, Slot, IsPath;
    if item.id !in st.seen {
      var (next, path) := PlaceOne(item, Home(parent, levels), false, above, st);
      if path.Some? {
        var line := above + [item];
        forall reply | reply in item.children ensures IsLine(story, line + [reply]) {
          assert forall k :: 0 <= k < |line| ==> (line + [reply])[k] == line[k];
        }
        VisitAllDescends(story, item.children, path, line, levels, next);
        AddedDescends(story, item, above, st, next, VisitAll(item.children, path, line, levels, next));
      }
    }
  }

  lemma AddedDescends(story: Item, item: Item, above: seq<Item>, st: State, next: State, r: State)
    requires |st.lineage| == |st.out| && IsLine(story, above + [item])
    requires |next.out| == |st.out| + 1 && st.out <= next.out && next.lineage == st.lineage + [above]
    requires next.out[|st.out|].item == item && !next.out[|st.out|].isOpening && st.seen <= next.seen
    requires Descended(story, next, r) && forall reply :: reply in item.children ==> reply.id in r.seen
    ensures Descended(story, st, r)
  {
    hide IsLine;
    forall i | |st.out| <= i < |r.out|
      ensures IsLineageOf(story, r.lineage[i], r.out[i])
      ensures !r.out[i].isOpening ==> forall reply :: reply in r.out[i].item.children ==> reply.id in r.seen
    {
      if i < |next.out| { assert r.out[i] == next.out[i] && r.lineage[i] == next.lineage[i]; }
    }
  }

  // ---- main results -------------------------------------------------------------------------

  function Start(seen: set<int>): State { State(seen, map[], [], []) }

  lemma StartIsWalked(seen: set<int>, levels: Levels)
    ensures Walked(Start(seen), levels) && Ready(Start(seen), None, [], levels)
  {
  }

  lemma FlattenKeeps(story: Item, levels: Levels, seen: set<int>)
    ensures var st := Flatten(story, levels, seen);
            && Walked(st, levels) && Grew(Start(seen), st, None) && Descended(story, Start(seen), st)
            && forall comment :: comment in story.children ==> comment.id in st.seen
  {
    hide Walked, Ready, Grew, Descended, Visit, VisitAll, IsPath;
    var start := Start(seen);
    var begun := if HasOpening(story) then Visit(story, None, true, [], levels, start) else start;
    StartIsWalked(seen, levels);
    GrewNot(start, None);
    OpeningDescends(story, levels, seen);
    if HasOpening(story) {
      VisitKeeps(story, None, true, [], levels, start);
      ReadyLasts(start, begun, None, [], levels);
    }
    VisitAllKeeps(story.children, None, [], levels, begun);
    GrewTwice(start, begun, Flatten(story, levels, seen), None, None);
    forall comment | comment in story.children ensures IsLine(story, [] + [comment]) {}
    DescendedLengths(story, start, begun);
    VisitAllDescends(story, story.children, None, [], levels, begun);
    DescendedTwice(story, start, begun, Flatten(story, levels, seen));
  }

  lemma DescendedLengths(story: Item, st: State, r: State)
    requires Descended(story, st, r)
    ensures |r.lineage| == |r.out|
  {
  }

  lemma OpeningDescends(story: Item, levels: Levels, seen: set<int>)
    ensures Descended(story, Start(seen), Start(seen))
    ensures Descended(story, Start(seen), Visit(story, None, true, [], levels, Start(seen)))
  {
    hide IsPath, Slot;
  }

  /** A finished row: its post hangs where HN hung it, as deep as `levels` allow. At its own level
      its parent is its real HN parent; past the deepest level it is the HN ancestor at level
      `levels - 2`, and there is none when only one level is allowed. */
  predicate Settled(story: Item, out: seq<Placed>, above: seq<Item>, i: nat, levels: Levels)
    requires i < |out|
  {
    var d := Least(|above|, levels - 1);
    && IsLineageOf(story, above, out[i])
    && Depth(out[i].path) == d
    && match out[i].parent
       case None => d == 0
       case Some(j) => d > 0 && j < i && out[j].item == above[d - 1] && TreePath.Parent(out[i].path) == Some(out[j].path)
  }

  /** The result is in path order, keeps the order of the walk, and is the HN tree cut to `levels`. */
  lemma PlacementKeepsTheTree(story: Item, levels: Levels, seen: set<int>)
    ensures var st := Flatten(story, levels, seen);
            var out := Linked(SortByPath(st.out));
            && |out| == |st.out| == |st.lineage| && InOrder(out)
            && (forall i :: 0 <= i < |out| ==> out[i].(parent := None) == st.out[i].(parent := None))
            && forall i :: 0 <= i < |out| ==> Settled(story, out, st.lineage[i], i, levels)
  {
    hide Flatten, SortByPath, Settled, IsPath, Linked, Descended, Grew;
    var st := Flatten(story, levels, seen);
    FlattenKeeps(story, levels, seen);
    WalkedFacts(story, levels, seen, st);
    SortedAlready(st.out);
    LinkedInOrder(st.out);
    forall i | 0 <= i < |st.out| ensures Settled(story, Linked(st.out), st.lineage[i], i, levels) {
      SettledRow(story, st.out, st.lineage[i], i, levels);
    }
  }

  lemma WalkedFacts(story: Item, levels: Levels, seen: set<int>, st: State)
    requires Walked(st, levels) && Descended(story, Start(seen), st)
    ensures InOrder(st.out) && |st.lineage| == |st.out|
    ensures forall i :: 0 <= i < |st.out| ==>
      HungAt(st.out, st.lineage[i], i, levels) && IsLineageOf(story, st.lineage[i], st.out[i])
  {
    hide HungAt, IsLineageOf, InOrder, IsPath;
  }

  lemma LinkedInOrder(out: seq<Placed>)
    requires InOrder(out)
    ensures InOrder(Linked(out))
    ensures forall i :: 0 <= i < |out| ==> Linked(out)[i].(parent := None) == out[i].(parent := None)
  {
    hide IsPath;
  }

  lemma SettledRow(story: Item, placed: seq<Placed>, above: seq<Item>, i: nat, levels: Levels)
    requires InOrder(placed) && i < |placed| && HungAt(placed, above, i, levels) && IsLineageOf(story, above, placed[i])
    ensures Settled(story, Linked(placed), above, i, levels)
  {
    hide IsPath, Ordinals, IsLine, ParentIndex;
    IndexOfParent(placed, above, i, levels);
  }

  lemma IndexOfParent(out: seq<Placed>, above: seq<Item>, i: nat, levels: Levels)
    requires InOrder(out) && i < |out| && HungAt(out, above, i, levels)
    ensures var d := Least(|above|, levels - 1);
            match ParentIndex(out, i)
            case None => d == 0
            case Some(j) => d > 0 && j < i && out[j].item == above[d - 1] && TreePath.Parent(out[i].path) == Some(out[j].path)
  {
    hide IsPath, Ordinals;
    var d := Least(|above|, levels - 1);
    if d > 0 {
      var j :| 0 <= j < i && TreePath.Parent(out[i].path) == Some(out[j].path) && out[j].item == above[d - 1];
      var k := IndexOf(out, out[j].path);
      assert out[k.value].path == out[j].path;
      LessIrreflexive(out[j].path);
      assert k.value == j;
    }
  }

  // ---- an imported thread takes replies -----------------------------------------------------

  /** The rows an import writes for its posts, given their public ids. */
  function ImportedRows(out: seq<Placed>, ids: seq<string>): (rows: seq<Row>)
    requires |ids| == |out|
    ensures |rows| == |out|
  {
    seq(|out|, i requires 0 <= i < |out| => Row(ids[i], TreePath.Parent(out[i].path), out[i].path, false))
  }

  /** Whatever the story, an import writes a table that replies can be posted to: distinct paths, and
      every post's parent among them. */
  lemma ImportIsATable(story: Item, levels: Levels, seen: set<int>, ids: seq<string>)
    requires |ids| == |Flatten(story, levels, seen).out|
    requires forall i, j :: 0 <= i < j < |ids| ==> ids[i] != ids[j]
    ensures IsTable(ImportedRows(Linked(SortByPath(Flatten(story, levels, seen).out)), ids))
  {
    hide Flatten, SortByPath, Linked, IsPath, Ordinals, IsLineageOf;
    PlacementKeepsTheTree(story, levels, seen);
    var st := Flatten(story, levels, seen);
    var out := Linked(SortByPath(st.out));
    var rows := ImportedRows(out, ids);
    forall i, j | 0 <= i < j < |rows| ensures rows[i].path != rows[j].path {
      LessIrreflexive(rows[i].path);
      assert Less(out[i].path, out[j].path);
    }
    forall i | 0 <= i < |rows| ensures ParentPresent(rows, rows[i].parent) {
      assert Settled(story, out, st.lineage[i], i, levels);
      SettledParent(story, out, st.lineage[i], i, levels);
      if rows[i].parent.Some? {
        var j :| 0 <= j < |out| && out[j].path == rows[i].parent.value;
        assert rows[j].path == out[j].path;
      }
    }
  }

  lemma SettledParent(story: Item, out: seq<Placed>, above: seq<Item>, i: nat, levels: Levels)
    requires i < |out| && Settled(story, out, above, i, levels)
    ensures TreePath.Parent(out[i].path).Some? ==>
              exists j :: 0 <= j < |out| && out[j].path == TreePath.Parent(out[i].path).value
  {
    hide IsPath, IsLineageOf;
  }

  function Ids(out: seq<Placed>): set<int> {
    set i | 0 <= i < |out| :: out[i].item.id
  }

  function Items(out: seq<Placed>): (r: seq<Item>)
    ensures |r| == |out|
  {
    seq(|out|, i requires 0 <= i < |out| => out[i].item)
  }

  lemma {:induction false} CountDistinct(xs: seq<int>)
    requires forall i, j :: 0 <= i < j < |xs| ==> xs[i] != xs[j]
    ensures |set x | x in xs| == |xs|
  {
    if |xs| > 0 {
      var init, last := xs[..|xs| - 1], xs[|xs| - 1];
      CountDistinct(init);
      assert (set x | x in xs) == (set x | x in init) + {last};
    }
  }

  lemma CountIds(out: seq<Placed>)
    requires forall i, j :: 0 <= i < j < |out| ==> out[i].item.id != out[j].item.id
    ensures |Ids(out)| == |out|
  {
    hide IsPath;
    var xs := seq(|out|, i requires 0 <= i < |out| => out[i].item.id);
    CountDistinct(xs);
    forall id | id in Ids(out) ensures id in xs {
      var i :| 0 <= i < |out| && out[i].item.id == id;
      assert xs[i] == id;
    }
    assert Ids(out) == set x | x in xs;
  }

  /** Placed ids are distinct and new, all are remembered, and an item whose parent was placed is
      itself missing only if its id was already taken. */
  lemma PlacementAccountsForItems(story: Item, levels: Levels, seen: set<int>)
    ensures var st := Flatten(story, levels, seen);
            && Identified(st) && Ids(st.out) !! seen && seen + Ids(st.out) <= st.seen
            && |Ids(st.out)| == |st.out|
            && (forall comment :: comment in story.children ==> comment.id in st.seen)
            && forall i, reply :: 0 <= i < |st.out| && !st.out[i].isOpening && reply in st.out[i].item.children
                 ==> reply.id in st.seen
  {
    hide Visit, VisitAll, IsPath, Flatten, Counted, RepliesArePlaced, Hung, IsLineageOf;
    FlattenKeeps(story, levels, seen);
    CountIds(Flatten(story, levels, seen).out);
  }

  // ---- exactly the de-duplicated tree -------------------------------------------------------

  /** A tree of first occurrences: each repeat is gone with its subtree. */
  datatype Kept = Kept(item: Item, replies: seq<Kept>)

  function Dedup(items: seq<Item>, seen: set<int>): (seq<Kept>, set<int>)
    decreases Sizes(items)
  {
    if |items| == 0 then ([], seen)
    else if items[0].id in seen then Dedup(items[1..], seen)
    else
      var (replies, mid) := Dedup(items[0].children, seen + {items[0].id});
      var (rest, end) := Dedup(items[1..], mid);
      ([Kept(items[0], replies)] + rest, end)
  }

  function Preorder(forest: seq<Kept>): seq<Item> {
    if |forest| == 0 then []
    else [forest[0].item] + Preorder(forest[0].replies) + Preorder(forest[1..])
  }

  /** How many posts end up side by side: at the deepest level, all of them. */
  function Width(forest: seq<Kept>, room: nat): nat {
    if room == 0 then |Preorder(forest)| else |forest|
  }

  /** No level of the cut tree is wider than the ordinals go, starting from `used`. */
  predicate Fits(forest: seq<Kept>, room: nat, used: nat)
    decreases room
  {
    && used + Width(forest, room) <= MAX_ORDINAL
    && (room > 0 ==> forall k :: k in forest ==> Fits(k.replies, room - 1, 0))
  }

  lemma FitsCons(k: Kept, rest: seq<Kept>, room: nat, used: nat)
    requires used < MAX_ORDINAL
    ensures Fits([k] + rest, room, used) <==>
              if room == 0 then Fits(k.replies, 0, used + 1) && Fits(rest, 0, used + 1 + |Preorder(k.replies)|)
              else Fits(k.replies, room - 1, 0) && Fits(rest, room, used + 1)
    ensures Width([k] + rest, room) == 1 + Width(rest, room) + if room == 0 then |Preorder(k.replies)| else 0
    ensures Preorder([k] + rest) == [k.item] + Preorder(k.replies) + Preorder(rest)
  {
    var all := [k] + rest;
    assert all[1..] == rest && all[0] == k;
    assert forall x :: x in all <==> x == k || x in rest;
  }

  /** Walking under a position leaves the counters elsewhere alone. */
  lemma {:induction false} OtherCountersStay(items: seq<Item>, parent: Option<Path>, above: seq<Item>, levels: Levels,
                                            st: State, other: Option<Path>)
    requires !(Position(Home(parent, levels)) <= Position(other))
    ensures Used(VisitAll(items, parent, above, levels, st), other) == Used(st, other)
    decreases Sizes(items)
  {
    hide IsPath, Ordinals, Slot, Clamp;
    if |items| > 0 {
      var item, e := items[0], Home(parent, levels);
      var mid := Visit(item, parent, false, above, levels, st);
      KeysDiffer(e, other);
      if item.id !in st.seen {
        var (next, path) := PlaceOne(item, e, false, above, st);
        if path.Some? {
          HomeExtends(e, Used(st, e) + 1, path.value, levels);
          OtherCountersStay(item.children, path, above + [item], levels, next, other);
        }
      }
      OtherCountersStay(items[1..], parent, above, levels, mid, other);
    }
  }

  lemma HomeExtends(e: Option<Path>, n: nat, x: Path, levels: Levels)
    requires |Position(e)| <= levels - 1 && Slot(e, n) == Ok(x)
    ensures Position(e) <= Position(Clamp(x, levels))
  {
    hide IsPath, Slot;
    SlotTaken(e, n);
  }

  /** Either every first occurrence is placed, in order, or some id was taken in for nothing. */
  predicate Exact(forest: seq<Kept>, end: set<int>, st: State, r: State, e: Option<Path>, room: nat) {
    if Fits(forest, room, Used(st, e)) then
      && r.seen == end && Items(r.out) == Items(st.out) + Preorder(forest)
      && Used(r, e) == Used(st, e) + Width(forest, room) && Lost(r) == Lost(st)
    else Lost(r) > Lost(st)
  }

  lemma {:induction false} VisitAllExact(items: seq<Item>, parent: Option<Path>, above: seq<Item>, levels: Levels, st: State)
    requires Walked(st, levels) && Ready(st, Home(parent, levels), above, levels)
    requires Used(st, Home(parent, levels)) <= MAX_ORDINAL
    ensures var (forest, end) := Dedup(items, st.seen);
            var e := Home(parent, levels);
            |Position(e)| <= levels - 1
            && Exact(forest, end, st, VisitAll(items, parent, above, levels, st), e, levels - 1 - |Position(e)|)
    decreases Sizes(items)
  {
    hide Walked, Ready, Grew, PlaceOne, Took, Exact, Fits, Preorder, Width, Clamp, IsPath, Ordinals, Used, Lost;
    var e, r := Home(parent, levels), VisitAll(items, parent, above, levels, st);
    ReadyLength(st, e, above, levels);
    var room := levels - 1 - |Position(e)|;
    if |items| == 0 {
      NothingIsExact(st, e, room);
    } else {
      var item, rest := items[0], items[1..];
      var mid := Visit(item, parent, false, above, levels, st);
      VisitKeeps(item, parent, false, above, levels, st);
      ReadyLasts(st, mid, e, above, levels);
      VisitAllKeeps(rest, parent, above, levels, mid);
      GrewLost(mid, r, e);
      if item.id in st.seen {
        VisitAllExact(rest, parent, above, levels, st);
      } else {
        var (next, path) := PlaceOne(item, e, false, above, st);
        PlaceKeeps(item, e, false, above, levels, st);
        var (replies, s1) := Dedup(item.children, st.seen + {item.id});
        var (forest, end) := Dedup(rest, s1);
        if path.None? {
          FullIsExact(Kept(item, replies), forest, end, st, next, r, e, room);
        } else {
          var placed := Placed(item, path.value, None, false);
          var h := Home(path, levels);
          HomeOfChildren(st, next, placed, e, above, levels);
          TookFacts(st, next, placed, e, above);
          VisitAllExact(item.children, path, above + [item], levels, next);
          if h != e { OtherCountersStay(item.children, path, above + [item], levels, next, e); }
          var inner := if room == 0 then 0 else room - 1;
          RepliesPassed(replies, s1, next, mid, e, h, room, inner);
          if Fits(replies, inner, Used(next, h)) {
            VisitAllExact(rest, parent, above, levels, mid);
            BothExact(Kept(item, replies), forest, end, st, next, mid, r, e, h, room, inner);
          } else {
            LostIsExact(Kept(item, replies), s1, forest, end, st, next, mid, r, e, h, room, inner);
          }
        }
      }
    }
  }

  lemma NothingIsExact(st: State, e: Option<Path>, room: nat)
    requires Used(st, e) <= MAX_ORDINAL
    ensures Exact([], st.seen, st, st, e, room)
  {
    assert Items(st.out) + Preorder([]) == Items(st.out);
  }

  lemma GrewLost(st: State, r: State, e: Option<Path>)
    requires Grew(st, r, e)
    ensures Lost(st) <= Lost(r)
  {
  }

  lemma TookFacts(st: State, next: State, placed: Placed, e: Option<Path>, above: seq<Item>)
    requires Took(st, next, placed, e, above) && placed.item.id !in st.seen
    ensures next.seen == st.seen + {placed.item.id} && Lost(next) == Lost(st)
    ensures Used(next, e) == Used(st, e) + 1 <= MAX_ORDINAL
    ensures Items(next.out) == Items(st.out) + [placed.item]
    ensures |Ordinals(placed.path)| == |Position(e)| + 1
  {
  }

  lemma FullIsExact(k: Kept, rest: seq<Kept>, end: set<int>, st: State, next: State, r: State, e: Option<Path>, room: nat)
    requires Used(st, e) >= MAX_ORDINAL && Lost(st) < Lost(next) <= Lost(r)
    ensures Exact([k] + rest, end, st, r, e, room)
  {
  }

  /** How the replies' home and room relate to their parent's. */
  predicate Inside(st: State, next: State, mid: State, e: Option<Path>, h: Option<Path>, room: nat, inner: nat) {
    && Used(next, e) == Used(st, e) + 1 <= MAX_ORDINAL
    && if room == 0 then inner == 0 && h == e
       else inner == room - 1 && Used(next, h) == 0 && Used(mid, e) == Used(next, e)
  }

  lemma RepliesPassed(replies: seq<Kept>, s1: set<int>, next: State, mid: State, e: Option<Path>, h: Option<Path>,
                      room: nat, inner: nat)
    requires Exact(replies, s1, next, mid, h, inner)
    requires if room == 0 then inner == 0 && h == e else inner == room - 1 && Used(mid, e) == Used(next, e)
    requires Used(next, e) <= MAX_ORDINAL
    ensures Fits(replies, inner, Used(next, h)) ==> mid.seen == s1 && Used(mid, e) <= MAX_ORDINAL
  {
  }

  lemma BothExact(k: Kept, rest: seq<Kept>, end: set<int>, st: State, next: State, mid: State, r: State,
                  e: Option<Path>, h: Option<Path>, room: nat, inner: nat)
    requires Inside(st, next, mid, e, h, room, inner) && Lost(next) == Lost(st)
    requires Items(next.out) == Items(st.out) + [k.item]
    requires Exact(k.replies, mid.seen, next, mid, h, inner) && Fits(k.replies, inner, Used(next, h))
    requires Exact(rest, end, mid, r, e, room)
    ensures Exact([k] + rest, end, st, r, e, room)
  {
    hide Used, Lost, Fits, Preorder;
    FitsCons(k, rest, room, Used(st, e));
    assert Used(mid, e) == Used(st, e) + 1 + if room == 0 then |Preorder(k.replies)| else 0;
    assert Items(mid.out) == Items(st.out) + [k.item] + Preorder(k.replies);
    if Fits(rest, room, Used(mid, e)) {
      assert Items(r.out) == Items(st.out) + ([k.item] + Preorder(k.replies) + Preorder(rest));
    }
  }

  lemma LostIsExact(k: Kept, s1: set<int>, rest: seq<Kept>, end: set<int>, st: State, next: State, mid: State, r: State,
                    e: Option<Path>, h: Option<Path>, room: nat, inner: nat)
    requires Inside(st, next, mid, e, h, room, inner) && Lost(next) == Lost(st) && Lost(mid) <= Lost(r)
    requires Exact(k.replies, s1, next, mid, h, inner) && !Fits(k.replies, inner, Used(next, h))
    ensures Exact([k] + rest, end, st, r, e, room)
  {
    hide Used, Lost, Fits, Preorder;
    FitsCons(k, rest, room, Used(st, e));
  }

  /** The de-duplicated story: its text, then its comments as siblings. */
  function Roots(story: Item, seen: set<int>): (seq<Kept>, set<int>) {
    if HasOpening(story) then
      var (forest, end) := Dedup(story.children, seen + {story.id});
      (if story.id in seen then forest else [Kept(story, [])] + forest, end)
    else Dedup(story.children, seen)
  }

  lemma FlattenIsExact(story: Item, levels: Levels, seen: set<int>)
    ensures var (forest, end) := Roots(story, seen);
            Exact(forest, end, Start(seen), Flatten(story, levels, seen), None, levels - 1)
  {
    hide Walked, Ready, Exact, Fits, Preorder, Width, IsPath, Ordinals, Lost, Dedup, VisitAll, Grew;
    var start := Start(seen);
    StartIsWalked(seen, levels);
    if HasOpening(story) && story.id !in seen {
      var (next, path) := PlaceOne(story, None, true, [], start);
      PlaceKeeps(story, None, true, [], levels, start);
      ReadyLasts(start, next, None, [], levels);
      var placed := Placed(story, path.value, None, true);
      TookFacts(start, next, placed, None, []);
      VisitAllExact(story.children, None, [], levels, next);
      var (forest, end) := Dedup(story.children, next.seen);
      OpeningIsExact(Kept(story, []), forest, end, start, next, Flatten(story, levels, seen), levels - 1);
    } else {
      assert HasOpening(story) ==> seen + {story.id} == seen;
      VisitAllExact(story.children, None, [], levels, start);
    }
  }

  lemma OpeningIsExact(k: Kept, rest: seq<Kept>, end: set<int>, st: State, next: State, r: State, room: nat)
    requires k.replies == [] && Used(st, None) == 0 && Used(next, None) == 1 && Lost(next) == Lost(st)
    requires Items(next.out) == Items(st.out) + [k.item] && Exact(rest, end, next, r, None, room)
    ensures Exact([k] + rest, end, st, r, None, room)
  {
    hide Used, Lost, Fits;
    FitsCons(k, rest, room, 0);
    EmptyFits(if room == 0 then 0 else room - 1, if room == 0 then 1 else 0);
    if Fits(rest, room, 1) {
      assert Items(r.out) == Items(st.out) + ([k.item] + Preorder([]) + Preorder(rest));
    }
  }

  lemma EmptyFits(room: nat, used: nat)
    requires used <= 1
    ensures Fits([], room, used)
  {
  }

  /** Nothing but repeats and what lies below them is dropped exactly when no level of the
      de-duplicated, clamped story is wider than the ordinals go. Then the posts are that story in
      depth-first order, whatever the depth limit: clamping moves posts and drops none. */
  lemma PlacesExactlyWhatFits(story: Item, levels: Levels, seen: set<int>)
    ensures var st := Flatten(story, levels, seen);
            var (forest, end) := Roots(story, seen);
            && (st.seen == seen + Ids(st.out) <==> Fits(forest, levels - 1, 0))
            && (Fits(forest, levels - 1, 0) ==> Items(st.out) == Preorder(forest) && st.seen == end)
  {
    hide Fits, Preorder, Width, IsPath, Dedup, VisitAll, Flatten, Roots;
    var st := Flatten(story, levels, seen);
    FlattenIsExact(story, levels, seen);
    PlacementAccountsForItems(story, levels, seen);
    SizesTell(seen, Ids(st.out), st.seen);
    assert Items(Start(seen).out) == [] && [] + Preorder(Roots(story, seen).0) == Preorder(Roots(story, seen).0);
  }

  lemma SizesTell(a: set<int>, b: set<int>, all: set<int>)
    requires a !! b && a + b <= all
    ensures |a| + |b| <= |all|
    ensures all == a + b <==> |all| == |a| + |b|
  {
    assert |a + b| == |a| + |b|;
    var more := all - (a + b);
    assert all == (a + b) + more;
    assert |all| == |a + b| + |more|;
  }
}
