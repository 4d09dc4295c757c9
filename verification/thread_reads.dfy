// Readers of a thread whose table writers are adding to: what `Paging` says of growing tables, for
// the tables the reply protocol makes.
module ThreadReads {
  import opened Common
  import opened Text
  import opened TreePath
  import opened Allocation
  import opened ReplyTree
  import opened Paging
  import Collections
  import Writers

  /** Moments of reading, as row counts, in the order they come. */
  predicate Rising(at: seq<nat>, total: nat) {
    (forall i :: 0 <= i < |at| ==> at[i] <= total) && forall i, j :: 0 <= i <= j < |at| ==> at[i] <= at[j]
  }

  /** The thread's paths at each of those moments. */
  function Moments(rows: seq<Row>, at: seq<nat>): (tables: seq<seq<Path>>)
    requires Rising(at, |rows|)
    ensures |tables| == |at|
  {
    seq(|at|, k requires 0 <= k < |at| => Paths(rows[..at[k]]))
  }

  lemma PrefixIsDistinct(rows: seq<Row>, n: nat)
    requires IsTable(rows) && n <= |rows|
    ensures Distinct(Paths(rows[..n]))
  {
    hide IsPath, Ordinals;
    forall i, j | 0 <= i < j < n ensures Paths(rows[..n])[i] != Paths(rows[..n])[j] {
      assert rows[i].path != rows[j].path;
    }
  }

  lemma PrefixIsIncluded(rows: seq<Row>, m: nat, n: nat)
    requires m <= n <= |rows|
    ensures Includes(Paths(rows[..n]), Paths(rows[..m]))
  {
    hide IsPath;
    forall q | q in Paths(rows[..m]) ensures q in Paths(rows[..n]) {
      var i :| 0 <= i < m && Paths(rows[..m])[i] == q;
      assert Paths(rows[..n])[i] == q;
    }
  }

  /** A reply history only ever adds rows. */
  lemma {:induction false} HistoryOnlyGrows(rows: seq<Row>, at: seq<nat>)
    requires IsTable(rows) && Rising(at, |rows|)
    ensures OnlyGrows(Moments(rows, at))
    decreases |at|
  {
    hide IsTable, IsPath;
    if |at| > 0 {
      var tables := Moments(rows, at);
      PrefixIsDistinct(rows, at[0]);
      HistoryOnlyGrows(rows, at[1..]);
      assert tables[1..] == Moments(rows, at[1..]);
      if |at| > 1 { PrefixIsIncluded(rows, at[0], at[1]); }
    }
  }

  /** In every interleaving of writers, whatever the thread held before, a reader who follows the
      cursors to the end has seen every post there was when it began exactly once, in tree order. */
  lemma WalkDuringReplies(base: seq<Row>, steps: seq<(nat, Writers.Action)>, at: seq<nat>, limit: nat)
    requires IsTable(base) && limit > 0 && |at| > 0
    requires Rising(at, |Writers.Run(Writers.Start(base), steps).rows|)
    ensures var rows := Writers.Run(Writers.Start(base), steps).rows;
            var (posts, complete) := WalkOver(Moments(rows, at), None, limit);
            && Ascending(posts)
            && (forall q :: q in posts ==> q in Paths(rows[..at[|at| - 1]]))
            && (complete ==> forall q :: q in Paths(rows[..at[0]]) ==> q in posts)
  {
    hide IsTable, IsPath, History, IsRun, WalkOver, Writers.Run;
    var rows := Writers.Run(Writers.Start(base), steps).rows;
    Writers.EveryInterleavingKeepsTheTree(base, steps, [], None);
    HistoryOnlyGrows(rows, at);
    WalkMissesNothing(Moments(rows, at), None, limit);
    forall q | q in Paths(rows[..at[0]]) ensures Less(CursorText(None), q) { EverythingIsBeyondStart(q); }
  }

  /** A permalink whose rank, offset and page are read at three moments of a reply history shows its
      post exactly as long as what came before the post, less what came before the cursor, leaves it
      on its page; in particular while fewer replies come before it than its page had posts from it
      on. */
  lemma PermalinkDuringReplies(rows: seq<Row>, ranked: nat, offset: nat, read: nat, i: nat, size: nat)
    requires IsTable(rows) && i < ranked <= offset <= read <= |rows| && size > 0
    ensures var atRank, atOffset, atRead := Paths(rows[..ranked]), Paths(rows[..offset]), Paths(rows[..read]);
            var p := rows[i].path;
            var place, cursor := Rank(atRank, p) % size, LocateOver(atRank, atOffset, p, size);
            var shown, before := p in ThreadPage(atRead, cursor, size).posts, |Arrived(atRank, atRead, p)|;
            && (shown <==> place + before - Moved(atOffset, atRead, cursor) < size)
            && (before < size - place ==> shown)
            && (read - ranked < size - place ==> shown)
  {
    hide IsTable, IsPath, Rank, ThreadPage, LocateOver, Moved, Arrived;
    PrefixIsDistinct(rows, ranked);
    PrefixIsDistinct(rows, offset);
    PrefixIsDistinct(rows, read);
    PrefixIsIncluded(rows, ranked, offset);
    PrefixIsIncluded(rows, offset, read);
    assert Paths(rows[..ranked])[i] == rows[i].path;
    PermalinkByArrivals(Paths(rows[..ranked]), Paths(rows[..offset]), Paths(rows[..read]), rows[i].path, size);
    ArrivalsAreRows(rows, ranked, read, rows[i].path);
  }

  /** No more posts arrive than rows are added. */
  lemma {:induction false} ArrivalsAreRows(rows: seq<Row>, from: nat, upTo: nat, p: Path)
    requires from <= upTo <= |rows|
    ensures |Arrived(Paths(rows[..from]), Paths(rows[..upTo]), p)| <= upTo - from
    decreases upTo - from
  {
    hide IsPath, Less;
    if from == upTo {
      assert Arrived(Paths(rows[..from]), Paths(rows[..from]), p) == {};
    } else {
      ArrivalsAreRows(rows, from, upTo - 1, p);
      assert rows[..upTo][..upTo - 1] == rows[..upTo - 1];
      PathsOfPrefix(rows[..upTo], upTo - 1);
      assert rows[..upTo][..upTo] == rows[..upTo];
      var before, after := Arrived(Paths(rows[..from]), Paths(rows[..upTo - 1]), p), Arrived(Paths(rows[..from]), Paths(rows[..upTo]), p);
      assert after <= before + {rows[upTo - 1].path};
      Collections.SubsetSize(after, before + {rows[upTo - 1].path});
    }
  }
}
