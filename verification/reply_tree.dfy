// One thread's post rows under concurrent inserts. Every insert locates its parent, probes for
// the greatest path beneath it, and then commits one batch that `UNIQUE(thread_id, path)` may
// refuse; other inserts commit freely in between (crates/worker/src/store.rs, append_post).
// Rows are never removed, so the table as it stood earlier is a prefix of the table now.
module ReplyTree {
  import opened Common
  import opened TreePath
  import opened Allocation

  datatype Row = Row(id: string, parent: Option<Path>, path: Path, pending: bool)

  function Paths(rows: seq<Row>): (ps: seq<Path>)
    ensures |ps| == |rows| && forall i :: 0 <= i < |ps| ==> ps[i] == rows[i].path
  {
    seq(|rows|, i requires 0 <= i < |rows| => rows[i].path)
  }

  predicate HasPath(rows: seq<Row>, p: Path) {
    exists i :: 0 <= i < |rows| && rows[i].path == p
  }

  predicate HasId(rows: seq<Row>, id: string) {
    exists i :: 0 <= i < |rows| && rows[i].id == id
  }

  predicate ParentPresent(rows: seq<Row>, parent: Option<Path>) {
    parent.Some? ==> HasPath(rows, parent.value)
  }

  /** `path` is where the post with this id lives; no id stands for the thread itself. */
  predicate Names(rows: seq<Row>, id: Option<string>, path: Option<Path>) {
    match id
    case None => path.None?
    case Some(i) => exists j :: 0 <= j < |rows| && rows[j].id == i && path == Some(rows[j].path)
  }

  lemma NamesGrows(rows: seq<Row>, more: seq<Row>, id: Option<string>, path: Option<Path>)
    requires Names(rows, id, path) && rows <= more
    ensures Names(more, id, path)
  {
    if id.Some? {
      var j :| 0 <= j < |rows| && rows[j].id == id.value && path == Some(rows[j].path);
      assert more[j] == rows[j];
    }
  }

  /** There is an ordinal and a level left for one more reply. */
  predicate HasRoom(rows: seq<Row>, parent: Option<Path>) {
    |Position(parent)| < MAX_DEPTH && FirstFree(Paths(rows), parent) <= MAX_ORDINAL
  }

  /** The parent has gained a child since the table had `from` rows. */
  predicate GainedChild(rows: seq<Row>, from: nat, parent: Option<Path>) {
    exists c :: from <= c < |rows| && rows[c].parent == parent
  }

  /** `row` commits on top of `rows`, by a writer that probed when only `seen` rows were there. */
  predicate Commits(rows: seq<Row>, row: Row, seen: nat) {
    && seen <= |rows|
    && ParentPresent(rows[..seen], row.parent)
    && NextPath(Paths(rows[..seen]), row.parent) == Ok(row.path)
    && !HasPath(rows, row.path)
    && !HasId(rows, row.id)
  }

  /** What the unique indexes and the importer give: no two rows share a path or an id, and each row
      stands under a row that is there too. */
  predicate IsTable(rows: seq<Row>) {
    && (forall i, j :: 0 <= i < j < |rows| ==> rows[i].path != rows[j].path && rows[i].id != rows[j].id)
    && forall i :: 0 <= i < |rows| ==> rows[i].parent == TreePath.Parent(rows[i].path) && ParentPresent(rows, rows[i].parent)
  }

  /** A table grown by such commits, in any interleaving, from rows that were there before the
      first of their probes. */
  ghost predicate History(base: seq<Row>, rows: seq<Row>) {
    if |rows| <= |base| then rows == base && IsTable(base)
    else
      var n := |rows| - 1;
      History(base, rows[..n]) && exists seen :: |base| <= seen && Commits(rows[..n], rows[n], seen)
  }

  lemma {:induction false} HistoryPrefix(base: seq<Row>, rows: seq<Row>, n: nat)
    requires |base| <= n <= |rows| && History(base, rows)
    ensures History(base, rows[..n])
  {
    hide Commits, IsTable, IsPath;
    if n == |rows| {
      assert rows[..n] == rows;
    } else {
      var init := rows[..|rows| - 1];
      assert init[..n] == rows[..n];
      HistoryPrefix(base, init, n);
    }
  }

  lemma HistoryExtends(base: seq<Row>, rows: seq<Row>, row: Row, seen: nat)
    requires History(base, rows) && |base| <= seen && Commits(rows, row, seen)
    ensures History(base, rows + [row])
  {
    var all := rows + [row];
    assert all[..|all| - 1] == rows && all[|all| - 1] == row;
  }

  lemma {:induction false} HistoryKeepsBase(base: seq<Row>, rows: seq<Row>)
    requires History(base, rows)
    ensures base <= rows
  {
    if |rows| > |base| { HistoryKeepsBase(base, rows[..|rows| - 1]); }
  }

  // ---- every commit is the next child -------------------------------------------------------

  /** `row` takes the first ordinal past every branch in use under its parent. */
  predicate NextChild(rows: seq<Row>, row: Row) {
    && ParentPresent(rows, row.parent)
    && Ordinals(row.path) == Position(row.parent) + [FirstFree(Paths(rows), row.parent)]
  }

  predicate Numbered(base: seq<Row>, rows: seq<Row>) {
    forall i :: |base| <= i < |rows| ==> NextChild(rows[..i], rows[i])
  }

  lemma PathsOfPrefix(rows: seq<Row>, n: nat)
    requires n < |rows|
    ensures Paths(rows[..n + 1]) == Paths(rows[..n]) + [rows[n].path]
  {
    hide IsPath;
  }

  lemma NumberedPrefix(base: seq<Row>, rows: seq<Row>, n: nat)
    requires n <= |rows| && Numbered(base, rows)
    ensures Numbered(base, rows[..n])
  {
    hide NextChild;
    forall i | |base| <= i < n ensures NextChild(rows[..n][..i], rows[..n][i]) {
      assert rows[..n][..i] == rows[..i];
    }
  }

  /** A row under another parent lies in a branch that was in use before it. */
  lemma BranchInUse(rows: seq<Row>, row: Row, parent: Option<Path>)
    requires NextChild(rows, row) && Under(parent, row.path) && row.parent != parent
    ensures Branch(parent, row.path) < FirstFree(Paths(rows), parent)
  {
    hide IsPath, Ordinals;
    assert Position(parent) <= Position(row.parent);
    if Position(parent) == Position(row.parent) { SamePosition(parent, row.parent); }
    var j :| 0 <= j < |rows| && rows[j].path == row.parent.value;
    assert Paths(rows)[j] in Paths(rows) && Under(parent, Paths(rows)[j]);
  }

  /** While the probed path stays free, so does every ordinal after it. */
  lemma {:induction false} NobodyElseCommitted(base: seq<Row>, rows: seq<Row>, seen: nat, parent: Option<Path>, path: Path)
    requires |base| <= seen <= |rows| && Numbered(base, rows) && !HasPath(rows, path)
    requires Ordinals(path) == Position(parent) + [FirstFree(Paths(rows[..seen]), parent)]
    ensures FirstFree(Paths(rows), parent) == FirstFree(Paths(rows[..seen]), parent)
    decreases |rows|
  {
    hide IsPath, Ordinals, FirstFree, Position;
    if seen == |rows| {
      assert rows[..seen] == rows;
    } else {
      var n := |rows| - 1;
      var row := rows[n];
      NumberedPrefix(base, rows, n);
      assert rows[..n][..seen] == rows[..seen];
      assert !HasPath(rows[..n], path) by { NoPathBefore(rows, n, path); }
      NobodyElseCommitted(base, rows[..n], seen, parent, path);
      PathsOfPrefix(rows, n);
      assert rows[..n + 1] == rows;
      OneMorePath(Paths(rows[..n]), row.path, parent);
      if row.parent == parent {
        OrderIsPreorder(row.path, path);
      } else if Under(parent, row.path) {
        BranchInUse(rows[..n], row, parent);
      }
    }
  }

  lemma NoPathBefore(rows: seq<Row>, n: nat, path: Path)
    requires n <= |rows| && !HasPath(rows, path)
    ensures !HasPath(rows[..n], path)
  {
    hide IsPath;
    assert forall j :: 0 <= j < n ==> rows[..n][j] == rows[j];
  }

  /** The probed path is taken exactly when the parent has gained a child since. */
  lemma TakenByAChild(base: seq<Row>, rows: seq<Row>, seen: nat, parent: Option<Path>, path: Path)
    requires History(base, rows) && |base| <= seen <= |rows|
    requires NextPath(Paths(rows[..seen]), parent) == Ok(path)
    ensures HasPath(rows, path) <==> GainedChild(rows, seen, parent)
  {
    hide IsPath, Ordinals, History, NextPath, IsTable;
    if HasPath(rows, path) {
      var c := ChildAt(base, rows, seen, parent, path);
    } else {
      StillFree(base, rows, seen, parent, path);
    }
  }

  /** A path that was free when probed and is taken now was taken by a later child of the same
      parent. */
  lemma ChildAt(base: seq<Row>, rows: seq<Row>, seen: nat, parent: Option<Path>, path: Path) returns (c: nat)
    requires History(base, rows) && |base| <= seen <= |rows| && HasPath(rows, path)
    requires NextPath(Paths(rows[..seen]), parent) == Ok(path)
    ensures seen <= c < |rows| && rows[c].path == path && rows[c].parent == parent
  {
    hide History, NextPath, IsPath, Ordinals, IsTable;
    var ps := Paths(rows[..seen]);
    AllocatedIsLastChild(ps, parent);
    forall i | 0 <= i < seen ensures rows[i].path != path { assert ps[i] in ps; }
    c :| 0 <= c < |rows| && rows[c].path == path;
    HistoryIsTable(base, rows);
    ParentInTable(rows, c);
  }

  lemma StillFree(base: seq<Row>, rows: seq<Row>, seen: nat, parent: Option<Path>, path: Path)
    requires History(base, rows) && |base| <= seen <= |rows| && !HasPath(rows, path)
    requires NextPath(Paths(rows[..seen]), parent) == Ok(path)
    ensures !GainedChild(rows, seen, parent)
  {
    hide IsPath, Ordinals, FirstFree, NextChild, Numbered, History, NextPath, IsTable, HasPath, ChildCount, Paths, Position,
      GainedChild;
    AllocatesFirstFree(Paths(rows[..seen]), parent);
    HistoryIsNumbered(base, rows);
    NobodyElseCommitted(base, rows, seen, parent, path);
    NumberedSince(base, rows, seen);
    FirstFreeCounts(rows[..seen], rows, parent);
    GainsAreCounted(rows, seen, parent);
  }

  lemma ParentInTable(rows: seq<Row>, c: nat)
    requires IsTable(rows) && c < |rows|
    ensures rows[c].parent == TreePath.Parent(rows[c].path)
  {
  }

  lemma NumberedSince(base: seq<Row>, rows: seq<Row>, seen: nat)
    requires Numbered(base, rows) && |base| <= seen <= |rows|
    ensures Numbered(rows[..seen], rows)
  {
    hide NextChild;
  }

  lemma GainsAreCounted(rows: seq<Row>, from: nat, parent: Option<Path>)
    requires from <= |rows|
    ensures GainedChild(rows, from, parent) <==> ChildCount(rows[from..], parent) > 0
  {
    hide IsPath, ChildCount;
    NoChildCounted(rows[from..], parent);
    assert forall c :: from <= c < |rows| ==> rows[c] == rows[from..][c - from];
  }

  lemma {:induction false} NoChildCounted(rows: seq<Row>, parent: Option<Path>)
    ensures ChildCount(rows, parent) == 0 <==> forall i :: 0 <= i < |rows| ==> rows[i].parent != parent
  {
    hide IsPath;
    if |rows| > 0 {
      var n := |rows| - 1;
      NoChildCounted(rows[..n], parent);
      assert forall i :: 0 <= i < n ==> rows[..n][i] == rows[i];
    }
  }

  /** A commit that gets past the unique index takes exactly the next ordinal, however stale its
      probe was. */
  lemma CommitIsNextChild(base: seq<Row>, rows: seq<Row>, row: Row, seen: nat)
    requires Numbered(base, rows) && |base| <= seen && Commits(rows, row, seen)
    ensures NextChild(rows, row)
  {
    hide NextPath, IsPath, Numbered, Ordinals, FirstFree;
    AllocatesFirstFree(Paths(rows[..seen]), row.parent);
    NobodyElseCommitted(base, rows, seen, row.parent, row.path);
    HasPathGrows(rows, seen, row.parent);
  }

  lemma HasPathGrows(rows: seq<Row>, n: nat, parent: Option<Path>)
    requires n <= |rows| && ParentPresent(rows[..n], parent)
    ensures ParentPresent(rows, parent)
  {
    if parent.Some? {
      var j :| 0 <= j < n && rows[..n][j].path == parent.value;
      assert rows[j].path == parent.value;
    }
  }

  /** In every interleaving each row added is the next child of its parent, in commit order. */
  lemma {:induction false} HistoryIsNumbered(base: seq<Row>, rows: seq<Row>)
    requires History(base, rows)
    ensures Numbered(base, rows)
  {
    hide NextChild, Commits, IsPath, IsTable;
    if |rows| > |base| {
      var n := |rows| - 1;
      HistoryIsNumbered(base, rows[..n]);
      var seen :| |base| <= seen && Commits(rows[..n], rows[n], seen);
      CommitIsNextChild(base, rows[..n], rows[n], seen);
      NumberedOneMore(base, rows);
    }
  }

  lemma NumberedOneMore(base: seq<Row>, rows: seq<Row>)
    requires |rows| > |base|
    requires var n := |rows| - 1; Numbered(base, rows[..n]) && NextChild(rows[..n], rows[n])
    ensures Numbered(base, rows)
  {
    hide NextChild;
    var n := |rows| - 1;
    forall i | |base| <= i < |rows| ensures NextChild(rows[..i], rows[i]) {
      if i < n { assert rows[..n][..i] == rows[..i] && rows[..n][i] == rows[i]; }
    }
  }

  // ---- the shape every history keeps --------------------------------------------------------

  lemma ParentOfChild(rows: seq<Row>, row: Row)
    requires NextChild(rows, row)
    ensures TreePath.Parent(row.path) == row.parent
  {
    hide IsPath, FirstFree;
    var up := TreePath.Parent(row.path);
    assert Ordinals(row.path)[..|Position(row.parent)|] == Position(row.parent);
    assert Position(up) == Position(row.parent);
    SamePosition(up, row.parent);
  }

  lemma TableOneMore(rows: seq<Row>, row: Row)
    requires IsTable(rows) && !HasPath(rows, row.path) && !HasId(rows, row.id)
    requires row.parent == TreePath.Parent(row.path) && ParentPresent(rows, row.parent)
    ensures IsTable(rows + [row])
  {
    hide IsPath, Ordinals, TreePath.Parent;
    var all := rows + [row];
    assert all[..|rows|] == rows;
    forall i | 0 <= i < |all| ensures all[i].parent == TreePath.Parent(all[i].path) && ParentPresent(all, all[i].parent) {
      HasPathGrows(all, |rows|, all[i].parent);
    }
  }

  /** Paths and ids stay unique, and every row's parent is in the table. */
  lemma {:induction false} HistoryIsTable(base: seq<Row>, rows: seq<Row>)
    requires History(base, rows)
    ensures IsTable(rows)
  {
    hide IsTable, IsPath, NextPath, NextChild;
    if |rows| > |base| {
      var n := |rows| - 1;
      HistoryIsTable(base, rows[..n]);
      HistoryIsNumbered(base, rows[..n]);
      var seen :| |base| <= seen && Commits(rows[..n], rows[n], seen);
      CommitIsNextChild(base, rows[..n], rows[n], seen);
      ParentOfChild(rows[..n], rows[n]);
      HasPathGrows(rows[..n], seen, rows[n].parent);
      TableOneMore(rows[..n], rows[n]);
      assert rows[..n] + [rows[n]] == rows;
    }
  }

  function ChildCount(rows: seq<Row>, parent: Option<Path>): nat {
    if |rows| == 0 then 0
    else ChildCount(rows[..|rows| - 1], parent) + if rows[|rows| - 1].parent == parent then 1 else 0
  }

  /** The ordinals of the children a position has gained since the table had `from` rows. */
  function NewOrdinals(rows: seq<Row>, from: nat, parent: Option<Path>): set<nat> {
    set i | from <= i < |rows| && rows[i].parent == parent :: Ordinal(rows[i].path)
  }

  lemma {:induction false} FirstFreeCounts(base: seq<Row>, rows: seq<Row>, parent: Option<Path>)
    requires base <= rows && Numbered(base, rows)
    ensures FirstFree(Paths(rows), parent) == FirstFree(Paths(base), parent) + ChildCount(rows[|base|..], parent)
    decreases |rows|
  {
    hide IsPath, Ordinals, FirstFree, Position, NextChild, ChildCount, Numbered;
    if |rows| == |base| {
      assert rows == base && rows[|base|..] == [];
      NoneNew(base, parent);
    } else {
      NumberedPrefix(base, rows, |rows| - 1);
      FirstFreeCounts(base, rows[..|rows| - 1], parent);
      LastIsNext(base, rows);
      FirstFreeOneMore(rows, parent);
      CountOneMore(rows, |base|, parent);
    }
  }

  /** `s` is the run of `n` numbers from `first`. */
  ghost predicate IsRun(s: set<nat>, first: nat, n: nat) {
    forall k: nat :: k in s <==> first <= k < first + n
  }

  /** The children gained carry consecutive ordinals from the first one free at the start. */
  lemma {:induction false} NewChildrenAreConsecutive(base: seq<Row>, rows: seq<Row>, parent: Option<Path>)
    requires base <= rows && Numbered(base, rows)
    ensures IsRun(NewOrdinals(rows, |base|, parent), FirstFree(Paths(base), parent), ChildCount(rows[|base|..], parent))
    decreases |rows|
  {
    hide IsPath, Ordinals, FirstFree, Position, NextChild, NewOrdinals, ChildCount, Numbered, IsRun, ParentPresent, HasPath, Paths, Ordinal;
    if |rows| == |base| {
      assert rows == base && rows[|base|..] == [];
      NoneNew(base, parent);
      EmptyRun(FirstFree(Paths(base), parent));
    } else {
      var init := rows[..|rows| - 1];
      NumberedPrefix(base, rows, |rows| - 1);
      NewChildrenAreConsecutive(base, init, parent);
      FirstFreeCounts(base, init, parent);
      LastIsNext(base, rows);
      FirstFreeOneMore(rows, parent);
      OneMoreOrdinal(rows, |base|, parent);
      CountOneMore(rows, |base|, parent);
      if rows[|rows| - 1].parent == parent {
        RunOneMore(NewOrdinals(init, |base|, parent), FirstFree(Paths(base), parent), ChildCount(init[|base|..], parent));
      } else {
        assert NewOrdinals(init, |base|, parent) + {} == NewOrdinals(init, |base|, parent);
      }
    }
  }

  lemma EmptyRun(first: nat)
    ensures IsRun({}, first, 0)
  {
  }

  lemma RunOneMore(s: set<nat>, first: nat, n: nat)
    requires IsRun(s, first, n)
    ensures IsRun(s + {first + n}, first, n + 1)
  {
  }

  lemma NoneNew(base: seq<Row>, parent: Option<Path>)
    ensures NewOrdinals(base, |base|, parent) == {} && ChildCount([], parent) == 0
  {
  }

  lemma LastIsNext(base: seq<Row>, rows: seq<Row>)
    requires |rows| > |base| && Numbered(base, rows)
    ensures NextChild(rows[..|rows| - 1], rows[|rows| - 1])
  {
  }

  lemma CountOneMore(rows: seq<Row>, from: nat, parent: Option<Path>)
    requires from < |rows|
    ensures var n := |rows| - 1;
            ChildCount(rows[from..], parent) ==
              ChildCount(rows[..n][from..], parent) + if rows[n].parent == parent then 1 else 0
  {
    assert rows[from..][..|rows| - 1 - from] == rows[..|rows| - 1][from..];
  }

  /** A new child of the parent has the first free ordinal and moves it on; no other row does. */
  lemma FirstFreeOneMore(rows: seq<Row>, parent: Option<Path>)
    requires |rows| > 0 && NextChild(rows[..|rows| - 1], rows[|rows| - 1])
    ensures var n := |rows| - 1;
            var free := FirstFree(Paths(rows[..n]), parent);
            if rows[n].parent == parent then Ordinal(rows[n].path) == free && FirstFree(Paths(rows), parent) == free + 1
            else FirstFree(Paths(rows), parent) == free
  {
    hide IsPath, Ordinals, FirstFree, Position, NextChild;
    var n := |rows| - 1;
    PathsOfPrefix(rows, n);
    assert rows[..n + 1] == rows;
    OneMorePath(Paths(rows[..n]), rows[n].path, parent);
    BranchOfChild(rows[..n], rows[n], parent);
  }

  lemma OneMoreOrdinal(rows: seq<Row>, from: nat, parent: Option<Path>)
    requires from < |rows|
    ensures var n := |rows| - 1;
            NewOrdinals(rows, from, parent) ==
              NewOrdinals(rows[..n], from, parent) + if rows[n].parent == parent then {Ordinal(rows[n].path)} else {}
  {
    hide IsPath, Ordinals;
    var n := |rows| - 1;
    forall k: nat | k in NewOrdinals(rows, from, parent)
      ensures k in NewOrdinals(rows[..n], from, parent) || (rows[n].parent == parent && k == Ordinal(rows[n].path))
    {
      var i :| from <= i < |rows| && rows[i].parent == parent && k == Ordinal(rows[i].path);
      if i < n { assert rows[..n][i] == rows[i]; }
    }
    forall k: nat | k in NewOrdinals(rows[..n], from, parent) ensures k in NewOrdinals(rows, from, parent) {
      var i :| from <= i < n && rows[..n][i].parent == parent && k == Ordinal(rows[..n][i].path);
      assert rows[i] == rows[..n][i];
    }
  }

  lemma BranchOfChild(rows: seq<Row>, row: Row, parent: Option<Path>)
    requires NextChild(rows, row)
    ensures if row.parent == parent then
              && Under(parent, row.path) && Branch(parent, row.path) == Ordinal(row.path) == FirstFree(Paths(rows), parent)
            else
              Under(parent, row.path) ==> Branch(parent, row.path) < FirstFree(Paths(rows), parent)
  {
    hide IsPath, FirstFree;
    if row.parent != parent && Under(parent, row.path) { BranchInUse(rows, row, parent); }
  }

  /** Whatever was in the table before, rows keep unique paths and ids, every reply's parent is there
      before it, and the children each position gains carry consecutive ordinals from the first
      free one: none skipped, none used again. */
  lemma HistoryShape(base: seq<Row>, rows: seq<Row>, parent: Option<Path>)
    requires History(base, rows)
    ensures base <= rows && IsTable(rows)
    ensures forall i :: |base| <= i < |rows| ==> ParentPresent(rows[..i], rows[i].parent)
    ensures IsRun(NewOrdinals(rows, |base|, parent), FirstFree(Paths(base), parent), ChildCount(rows[|base|..], parent))
  {
    hide IsPath, IsTable, FirstFree, Ordinals, IsRun;
    HistoryKeepsBase(base, rows);
    HistoryIsTable(base, rows);
    HistoryIsNumbered(base, rows);
    NewChildrenAreConsecutive(base, rows, parent);
  }

  /** In a thread grown from nothing the children of every position, the thread itself included,
      carry exactly the ordinals 0..n-1. */
  lemma FromEmptyIsNumbered(rows: seq<Row>, parent: Option<Path>)
    requires History([], rows)
    ensures FirstFree(Paths(rows), parent) == ChildCount(rows, parent)
    ensures IsRun(NewOrdinals(rows, 0, parent), 0, ChildCount(rows, parent))
  {
    hide IsPath, Ordinals;
    HistoryIsNumbered([], rows);
    assert rows[0..] == rows;
    FirstFreeCounts([], rows, parent);
    NewChildrenAreConsecutive([], rows, parent);
  }
}
