// The import of one story after another (`place`, crates/hn-import/src/tree.rs): the stack loop, and
// what its rows are in terms of the depth asked for.
module StoryImport {
  import opened Common
  import opened TreePath
  import opened ImportTree
  import opened ImportedTree

  /** The depth of the deepest posts allowed: at least one level, and no more than a path has. */
  function Deepest(maxDepth: nat): (d: nat)
    ensures d < MAX_DEPTH
  {
    if maxDepth < 1 then 0 else if maxDepth > MAX_DEPTH then MAX_DEPTH - 1 else maxDepth - 1
  }

  /** Row `i` is the story itself or, with `line` the HN ancestors of its comment from the top-level
      one down, a comment that is a reply to the last of them. It sits as deep as it is replied on
      HN, or at the deepest level if that is less. Its parent is the ancestor one level up from
      where it sits: the post it replies to on HN, unless that is too deep to be replied to. */
  predicate Hangs(story: Item, out: seq<Placed>, line: seq<Item>, i: nat, deepest: nat)
    requires i < |out|
  {
    var k := |line|;
    var depth := if k < deepest then k else deepest;
    && (if out[i].isOpening then k == 0 && out[i].item == story
        else if k == 0 then out[i].item in story.children
        else line[0] in story.children && out[i].item in line[k - 1].children)
    && (forall m :: 0 < m < k ==> line[m] in line[m - 1].children)
    && Depth(out[i].path) == depth
    && (out[i].parent.Some? <==> depth > 0)
    && (depth > 0 ==>
          && out[i].parent.value < i && out[out[i].parent.value].item == line[depth - 1]
          && TreePath.Parent(out[i].path) == Some(out[out[i].parent.value].path))
    && (0 < k <= deepest ==> out[i].item in out[out[i].parent.value].item.children)
  }

  /** The story has a text of its own that is not empty and its id is new, and then its first row is
      the opening post, the first at top level; no other row is. */
  predicate OpensWith(story: Item, out: seq<Placed>, seen: set<int>) {
    && (story.text.Some? && story.text.value != "" && story.id !in seen <==> |out| > 0 && out[0].isOpening)
    && (|out| > 0 && out[0].isOpening ==> out[0].item == story && Ordinals(out[0].path) == [1])
    && forall i :: 0 < i < |out| ==> !out[i].isOpening
  }

  /** Every first occurrence is there, depth first, exactly when no level of the story cut to this
      depth is wider than the ordinals go; otherwise an id was remembered without a row. */
  predicate Complete(story: Item, out: seq<Placed>, before: set<int>, after: set<int>, deepest: nat) {
    var (forest, _) := Roots(story, before);
    && before + Ids(out) <= after && before !! Ids(out) && |Ids(out)| == |out|
    && (after == before + Ids(out) <==> Fits(forest, deepest, 0))
    && (Fits(forest, deepest, 0) ==> Items(out) == Preorder(forest))
  }

  class Importer {
    var seen: set<int>      // ids of every item placed by the import so far

    constructor ()
      ensures seen == {}
    {
      seen := {};
    }

    /** `lines` gives the HN ancestors of each row's item. */
    method Place(story: Item, maxDepth: nat) returns (out: seq<Placed>, ghost lines: seq<seq<Item>>)
      modifies this
      ensures var st := Flatten(story, ClampLevels(maxDepth), old(seen));
              seen == st.seen && out == Linked(SortByPath(st.out)) && lines == st.lineage
      ensures InOrder(out) && |lines| == |out|
      ensures forall i :: 0 <= i < |out| ==> Hangs(story, out, lines[i], i, Deepest(maxDepth))
      ensures OpensWith(story, out, old(seen))
      ensures Complete(story, out, old(seen), seen, Deepest(maxDepth))
    {
      hide IsPath, Home, Slot, SortByPath, Linked, Flatten, Drain, EntrySizes, Copies, Pushed, Hangs, OpensWith, Complete, InOrder;
      var levels := ClampLevels(maxDepth);
      ghost var start := seen;
      out := [];
      var ordinals: map<string, nat> := map[];
      var stack: seq<Entry> := [];
      ghost var chains: seq<seq<Item>> := [];
      lines := [];
      ghost var goal := Flatten(story, levels, seen);
      stack := PushChildren(stack, story.children, None);
      chains := Copies([], |story.children|);
      assert [] + Pushed(story.children, None) == Pushed(story.children, None);
      assert [] + chains == chains;
      if HasOpening(story) {
        stack := stack + [Entry(story, None, true)];
        chains := chains + [[]];
      }
      StackStands(story, levels, seen);

      while |stack| > 0
        invariant |stack| == |chains|
        invariant Drain(stack, chains, levels, State(seen, ordinals, out, lines)) == goal
        decreases EntrySizes(stack)
      {
        DrainStep(stack, chains, levels, State(seen, ordinals, out, lines));
        var e := stack[|stack| - 1];
        ghost var above := chains[|stack| - 1];
        stack, chains := stack[..|stack| - 1], chains[..|stack| - 1];
        if e.item.id in seen { continue; }
        seen := seen + {e.item.id};
        var parent := Home(e.parent, levels);
        var key := Key(parent);
        var ordinal := (if key in ordinals then ordinals[key] else 0) + 1;
        ordinals := ordinals[key := ordinal];
        var path := Slot(parent, ordinal);
        if path.Err? { continue; }
        out := out + [Placed(e.item, path.value, None, e.isOpening)];
        lines := lines + [above];
        if !e.isOpening {
          stack := PushChildren(stack, e.item.children, Some(path.value));
          chains := chains + Copies(above + [e.item], |e.item.children|);
        }
      }
      DrainNothing(levels, State(seen, ordinals, out, lines));

      out := SortByPath(out);
      out := Link(out);
      PlacedAsAsked(story, maxDepth, start);
    }
  }

  /** What the walk's rows are once sorted and linked. */
  lemma PlacedAsAsked(story: Item, maxDepth: nat, seen: set<int>)
    ensures var st := Flatten(story, ClampLevels(maxDepth), seen);
            var out := Linked(SortByPath(st.out));
            && InOrder(out) && |st.lineage| == |out|
            && (forall i :: 0 <= i < |out| ==> Hangs(story, out, st.lineage[i], i, Deepest(maxDepth)))
            && OpensWith(story, out, seen)
            && Complete(story, out, seen, st.seen, Deepest(maxDepth))
  {
    hide Flatten, SortByPath, Linked, IsPath, Settled, Hangs, OpensWith, Complete, InOrder;
    var levels := ClampLevels(maxDepth);
    var st := Flatten(story, levels, seen);
    var out := Linked(SortByPath(st.out));
    PlacementKeepsTheTree(story, levels, seen);
    forall i | 0 <= i < |out| ensures Hangs(story, out, st.lineage[i], i, Deepest(maxDepth)) {
      SettledHangs(story, out, st.lineage[i], i, levels);
    }
    OpeningFirst(story, levels, seen);
    SameOpening(story, st.out, out, seen);
    CompleteAtThisDepth(story, out, levels, seen);
  }

  lemma SettledHangs(story: Item, out: seq<Placed>, line: seq<Item>, i: nat, levels: Levels)
    requires i < |out| && Settled(story, out, line, i, levels)
    ensures Hangs(story, out, line, i, levels - 1)
  {
    hide IsPath, Ordinals;
    var whole, k := line + [out[i].item], |line|;
    if !out[i].isOpening {
      assert IsLine(story, whole);
      assert whole[k] == out[i].item;
      assert forall m :: 0 <= m < k ==> whole[m] == line[m];
      assert forall m :: 0 < m < k ==> whole[m] in whole[m - 1].children;
      assert k > 0 ==> whole[k] in whole[k - 1].children;
    }
  }

  lemma SameOpening(story: Item, placed: seq<Placed>, out: seq<Placed>, seen: set<int>)
    requires |out| == |placed| && forall i :: 0 <= i < |out| ==> out[i].(parent := None) == placed[i].(parent := None)
    requires OpensWith(story, placed, seen)
    ensures OpensWith(story, out, seen)
  {
    hide IsPath, Ordinals;
    forall i | 0 <= i < |out|
      ensures out[i].isOpening == placed[i].isOpening && out[i].item == placed[i].item && out[i].path == placed[i].path
    {
      assert out[i].(parent := None) == placed[i].(parent := None);
    }
  }

  lemma CompleteAtThisDepth(story: Item, out: seq<Placed>, levels: Levels, seen: set<int>)
    requires var st := Flatten(story, levels, seen);
             |out| == |st.out| && forall i :: 0 <= i < |out| ==> out[i].(parent := None) == st.out[i].(parent := None)
    ensures Complete(story, out, seen, Flatten(story, levels, seen).seen, levels - 1)
  {
    hide Flatten, IsPath, Fits, Roots, Preorder, Counted, RepliesArePlaced, Hung, Identified;
    var st := Flatten(story, levels, seen);
    PlacesExactlyWhatFits(story, levels, seen);
    PlacementAccountsForItems(story, levels, seen);
    forall i | 0 <= i < |out| ensures out[i].item == st.out[i].item {
      assert out[i].(parent := None) == st.out[i].(parent := None);
    }
    assert Items(out) == Items(st.out);
    assert Ids(out) == Ids(st.out);
  }

  // ---- the opening post ---------------------------------------------------------------------

  predicate OnlyReplies(st: State, r: State) {
    && st.out <= r.out
    && forall i :: |st.out| <= i < |r.out| ==> !r.out[i].isOpening
  }

  lemma {:induction false} VisitAddsReplies(item: Item, parent: Option<Path>, above: seq<Item>, levels: Levels, st: State)
    ensures OnlyReplies(st, Visit(item, parent, false, above, levels, st))
    decreases Size(item), 1
  {
    hide IsPath, Slot, Home;
    if item.id !in st.seen {
      var (next, path) := PlaceOne(item, Home(parent, levels), false, above, st);
      if path.Some? { VisitAllAddsReplies(item.children, path, above + [item], levels, next); }
    }
  }

  /** Only the story's own text is an opening post. */
  lemma {:induction false} VisitAllAddsReplies(items: seq<Item>, parent: Option<Path>, above: seq<Item>, levels: Levels, st: State)
    ensures OnlyReplies(st, VisitAll(items, parent, above, levels, st))
    decreases Sizes(items), 2
  {
    hide IsPath, Visit;
    if |items| > 0 {
      VisitAddsReplies(items[0], parent, above, levels, st);
      VisitAllAddsReplies(items[1..], parent, above, levels, Visit(items[0], parent, false, above, levels, st));
    }
  }

  lemma OpeningFirst(story: Item, levels: Levels, seen: set<int>)
    ensures OpensWith(story, Flatten(story, levels, seen).out, seen)
  {
    hide IsPath, VisitAll, Slot, Ordinals;
    var start := State(seen, map[], [], []);
    var begun := if HasOpening(story) then Visit(story, None, true, [], levels, start) else start;
    SlotTaken(None, 1);
    VisitAllAddsReplies(story.children, None, [], levels, begun);
  }
}
