// Flattening a Hacker News comment tree into positions (crates/hn-import/src/tree.rs). `Visit` is the
// recursion that the loop over an explicit stack, `Importer.Place`, stands for.
module ImportTree {
  import opened Common
  import opened Text
  import opened Radix
  import opened TreePath
  import opened Allocation

  datatype Item = Item(id: int, text: Option<string>, children: seq<Item>)

  /** `parent` is an index into the result. */
  datatype Placed = Placed(item: Item, path: Path, parent: Option<nat>, isOpening: bool)

  /** A position takes at most `depth` levels. */
  type Levels = depth: nat | 1 <= depth <= MAX_DEPTH witness 1

  function ClampLevels(maxDepth: nat): Levels {
    if maxDepth < 1 then 1 else if maxDepth > MAX_DEPTH then MAX_DEPTH else maxDepth
  }

  /** The deepest ancestor of a parent that can still take a child. */
  function Clamp(parent: Path, levels: Levels): (r: Option<Path>)
    ensures Position(r) == Fitted(Ordinals(parent), levels)
  {
    if levels < 2 then None
    else if Depth(parent) <= levels - 2 then
      assert |Ordinals(parent)| <= levels - 1;
      Some(parent)
    else AncestorAt(parent, levels - 2)
  }

  function Fitted(os: seq<nat>, levels: Levels): seq<nat> {
    if |os| <= levels - 1 then os else os[..levels - 1]
  }

  // ---- the recursion ------------------------------------------------------------------------

  /** `lineage` records, for each placed item, its ancestors in the HN tree from the top down. */
  datatype State = State(seen: set<int>, ordinals: map<string, nat>, out: seq<Placed>, lineage: seq<seq<Item>>)

  function Size(item: Item): (n: nat)
    ensures n == 1 + Sizes(item.children)
    decreases item
  {
    1 + Sizes(item.children)
  }

  function Sizes(items: seq<Item>): nat
    decreases items
  {
    if |items| == 0 then 0 else Size(items[0]) + Sizes(items[1..])
  }

  function Key(parent: Option<Path>): string {
    match parent case Some(p) => p case None => ""
  }

  function Used(st: State, parent: Option<Path>): nat {
    if Key(parent) in st.ordinals then st.ordinals[Key(parent)] else 0
  }

  function Slot(parent: Option<Path>, ordinal: nat): Result<Path, PathError> {
    match parent case Some(p) => Child(p, ordinal) case None => Root(ordinal)
  }

  /** One unseen item: it takes the next ordinal under `parent`, if there is one. */
  function PlaceOne(item: Item, parent: Option<Path>, isOpening: bool, above: seq<Item>, st: State): (State, Option<Path>) {
    var ordinal := Used(st, parent) + 1;
    var counted := st.(seen := st.seen + {item.id}, ordinals := st.ordinals[Key(parent) := ordinal]);
    match Slot(parent, ordinal)
    case Err(_) => (counted, None)
    case Ok(path) =>
      (counted.(out := st.out + [Placed(item, path, None, isOpening)], lineage := st.lineage + [above]), Some(path))
  }

  /** Where a child of the post at `parent` goes. */
  function Home(parent: Option<Path>, levels: Levels): Option<Path> {
    match parent case Some(p) => Clamp(p, levels) case None => None
  }

  /** An item already seen is dropped with everything below it. */
  function Visit(item: Item, parent: Option<Path>, isOpening: bool, above: seq<Item>, levels: Levels, st: State): State
    decreases Size(item), 1
  {
    if item.id in st.seen then st
    else
      var (next, path) := PlaceOne(item, Home(parent, levels), isOpening, above, st);
      if path.None? || isOpening then next
      else VisitAll(item.children, path, above + [item], levels, next)
  }

  function VisitAll(items: seq<Item>, parent: Option<Path>, above: seq<Item>, levels: Levels, st: State): State
    decreases Sizes(items), 2
  {
    if |items| == 0 then st
    else VisitAll(items[1..], parent, above, levels, Visit(items[0], parent, false, above, levels, st))
  }

  function HasOpening(story: Item): bool {
    story.text.Some? && story.text.value != ""
  }

  /** The story's own text first, then its comments as siblings of it. */
  function Flatten(story: Item, levels: Levels, seen: set<int>): State {
    var start := State(seen, map[], [], []);
    var begun := if HasOpening(story) then Visit(story, None, true, [], levels, start) else start;
    VisitAll(story.children, None, [], levels, begun)
  }

  // ---- the stack ----------------------------------------------------------------------------

  datatype Entry = Entry(item: Item, parent: Option<Path>, isOpening: bool)

  /** What emptying a stack does, the last entry first; `above` runs alongside the stack. */
  function Drain(stack: seq<Entry>, above: seq<seq<Item>>, levels: Levels, st: State): State
    requires |stack| == |above|
  {
    if |stack| == 0 then st
    else
      var top := |stack| - 1;
      var e := stack[top];
      Drain(stack[..top], above[..top], levels, Visit(e.item, e.parent, e.isOpening, above[top], levels, st))
  }

  function EntrySizes(stack: seq<Entry>): nat {
    if |stack| == 0 then 0 else EntrySizes(stack[..|stack| - 1]) + Size(stack[|stack| - 1].item)
  }

  /** The children of a post as pushed: the first child ends up on top. */
  function Pushed(items: seq<Item>, parent: Option<Path>): (r: seq<Entry>)
    ensures |r| == |items|
  {
    if |items| == 0 then [] else Pushed(items[1..], parent) + [Entry(items[0], parent, false)]
  }

  function Copies(above: seq<Item>, n: nat): (r: seq<seq<Item>>)
    ensures |r| == n
  {
    seq(n, _ => above)
  }

  lemma {:induction false} DrainPushed(stack: seq<Entry>, chains: seq<seq<Item>>, items: seq<Item>, parent: Option<Path>,
                                      above: seq<Item>, levels: Levels, st: State)
    requires |stack| == |chains|
    ensures Drain(stack + Pushed(items, parent), chains + Copies(above, |items|), levels, st)
              == Drain(stack, chains, levels, VisitAll(items, parent, above, levels, st))
    decreases |items|
  {
    hide Visit;
    var more, moreChains := stack + Pushed(items, parent), chains + Copies(above, |items|);
    if |items| == 0 {
      assert more == stack && moreChains == chains;
    } else {
      assert more[..|more| - 1] == stack + Pushed(items[1..], parent);
      assert moreChains[..|more| - 1] == chains + Copies(above, |items| - 1);
      DrainPushed(stack, chains, items[1..], parent, above, levels, Visit(items[0], parent, false, above, levels, st));
    }
  }

  lemma {:induction false} PushedSizes(stack: seq<Entry>, items: seq<Item>, parent: Option<Path>)
    ensures EntrySizes(stack + Pushed(items, parent)) == EntrySizes(stack) + Sizes(items)
    decreases |items|
  {
    var more := stack + Pushed(items, parent);
    if |items| == 0 {
      assert more == stack;
    } else {
      assert more[..|more| - 1] == stack + Pushed(items[1..], parent);
      PushedSizes(stack, items[1..], parent);
    }
  }

  lemma DrainNothing(levels: Levels, st: State)
    ensures Drain([], [], levels, st) == st
  {
  }

  /** One turn of the loop: the entry on top is dropped, or placed and its children pushed. */
  lemma DrainStep(stack: seq<Entry>, chains: seq<seq<Item>>, levels: Levels, st: State)
    requires |stack| == |chains| > 0
    ensures var top := |stack| - 1;
            var e, above, rest, restChains := stack[top], chains[top], stack[..top], chains[..top];
            var (next, path) := PlaceOne(e.item, Home(e.parent, levels), e.isOpening, above, st);
            && EntrySizes(rest) < EntrySizes(stack)
            && EntrySizes(rest + Pushed(e.item.children, path)) < EntrySizes(stack)
            && Drain(stack, chains, levels, st) ==
               if e.item.id in st.seen then Drain(rest, restChains, levels, st)
               else if path.None? || e.isOpening then Drain(rest, restChains, levels, next)
               else Drain(rest + Pushed(e.item.children, path),
                          restChains + Copies(above + [e.item], |e.item.children|), levels, next)
  {
    hide PlaceOne, Pushed, Copies, VisitAll, Home;
    var top := |stack| - 1;
    var e, above := stack[top], chains[top];
    var (next, path) := PlaceOne(e.item, Home(e.parent, levels), e.isOpening, above, st);
    DrainPushed(stack[..top], chains[..top], e.item.children, path, above + [e.item], levels, next);
    PushedSizes(stack[..top], e.item.children, path);
  }

  // ---- sorting and linking ------------------------------------------------------------------

  function InsertByPath(p: Placed, s: seq<Placed>): (r: seq<Placed>)
    ensures |r| == |s| + 1
  {
    if |s| == 0 then [p]
    else if Less(s[0].path, p.path) then [s[0]] + InsertByPath(p, s[1..])
    else [p] + s
  }

  /** A stable sort by path. */
  function SortByPath(s: seq<Placed>): (r: seq<Placed>)
    ensures |r| == |s|
  {
    if |s| == 0 then [] else InsertByPath(s[0], SortByPath(s[1..]))
  }

  predicate InOrder(out: seq<Placed>) {
    forall i, j :: 0 <= i < j < |out| ==> Less(out[i].path, out[j].path)
  }

  /** The walk already lists posts in path order. */
  lemma {:induction false} SortedAlready(s: seq<Placed>)
    requires InOrder(s)
    ensures SortByPath(s) == s
  {
    if |s| > 0 {
      SortedAlready(s[1..]);
      if |s| > 1 { LessTotal(s[0].path, s[1].path); }
    }
  }

  /** Where a path is in the result. */
  function IndexOf(out: seq<Placed>, path: string): (r: Option<nat>)
    ensures r.Some? ==> r.value < |out| && out[r.value].path == path
    ensures r.None? ==> forall i :: 0 <= i < |out| ==> out[i].path != path
  {
    if |out| == 0 then None
    else if out[|out| - 1].path == path then Some(|out| - 1)
    else IndexOf(out[..|out| - 1], path)
  }

  function ParentIndex(out: seq<Placed>, i: nat): Option<nat>
    requires i < |out|
  {
    match TreePath.Parent(out[i].path)
    case Some(up) => IndexOf(out, up)
    case None => None
  }

  function Linked(out: seq<Placed>): (r: seq<Placed>)
    ensures |r| == |out|
  {
    seq(|out|, i requires 0 <= i < |out| => out[i].(parent := ParentIndex(out, i)))
  }

  method PushChildren(stack: seq<Entry>, items: seq<Item>, parent: Option<Path>) returns (r: seq<Entry>)
    ensures r == stack + Pushed(items, parent)
  {
    r := stack;
    var i := |items|;
    assert items[i..] == [];
    while i > 0
      invariant 0 <= i <= |items| && r == stack + Pushed(items[i..], parent)
    {
      i := i - 1;
      assert items[i..][1..] == items[i + 1..];
      r := r + [Entry(items[i], parent, false)];
    }
    assert items[0..] == items;
  }

  method IndexByPath(placed: seq<Placed>) returns (indexOf: map<string, nat>)
    ensures forall q: string :: IndexOf(placed, q) == if q in indexOf then Some(indexOf[q]) else None
  {
    hide IsPath;
    indexOf := map[];
    var i := 0;
    while i < |placed|
      invariant 0 <= i <= |placed|
      invariant forall q: string :: IndexOf(placed[..i], q) == if q in indexOf then Some(indexOf[q]) else None
    {
      assert placed[..i + 1][..i] == placed[..i];
      indexOf := indexOf[placed[i].path := i];
      i := i + 1;
    }
    assert placed[..|placed|] == placed;
  }

  method Link(placed: seq<Placed>) returns (out: seq<Placed>)
    ensures out == Linked(placed)
  {
    hide IsPath, IndexOf;
    var indexOf := IndexByPath(placed);
    out := placed;
    var i := 0;
    while i < |out|
      invariant 0 <= i <= |out| == |placed|
      invariant forall k :: 0 <= k < i ==> out[k] == Linked(placed)[k]
      invariant forall k :: i <= k < |out| ==> out[k] == placed[k]
    {
      var up := TreePath.Parent(out[i].path);
      var parent := if up.Some? && up.value in indexOf then Some(indexOf[up.value]) else None;
      out := out[i := out[i].(parent := parent)];
      i := i + 1;
    }
  }

  lemma StackStands(story: Item, levels: Levels, seen: set<int>)
    ensures var start := State(seen, map[], [], []);
            var stack, chains := Pushed(story.children, None), Copies([], |story.children|);
            Flatten(story, levels, seen)
              == if HasOpening(story) then Drain(stack + [Entry(story, None, true)], chains + [[]], levels, start)
                 else Drain(stack, chains, levels, start)
  {
    var start := State(seen, map[], [], []);
    var stack, chains := Pushed(story.children, None), Copies([], |story.children|);
    assert [] + stack == stack && [] + chains == chains;
    if HasOpening(story) {
      assert (stack + [Entry(story, None, true)])[..|stack|] == stack && (chains + [[]])[..|stack|] == chains;
      DrainPushed([], [], story.children, None, [], levels, Visit(story, None, true, [], levels, start));
    } else {
      DrainPushed([], [], story.children, None, [], levels, start);
    }
  }
}
