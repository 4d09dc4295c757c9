// Reading a thread page by page (thread_page and locate_post in crates/store-sqlite/src/lib.rs
// and crates/worker/src/store.rs, over the statements of crates/core/src/sql.rs).
module Paging {
  import opened Collections
  import opened Common
  import opened Text
  import opened TreePath

  /** The sort key of "before the first path": sorts below every path. */
  const PATH_START: string := ""

  predicate Distinct(rows: seq<Path>) {
    forall i, j :: 0 <= i < j < |rows| ==> rows[i] != rows[j]
  }

  predicate Ascending(s: seq<Path>) {
    forall i, j :: 0 <= i < j < |s| ==> Less(s[i], s[j])
  }

  // ---- ORDER BY path, WHERE path > cursor ---------------------------------------------------

  function Insert(p: Path, s: seq<Path>): (r: seq<Path>)
    ensures |r| == |s| + 1 && forall q :: q in r <==> q == p || q in s
  {
    if |s| == 0 then [p]
    else if Less(s[0], p) then
      assert s == [s[0]] + s[1..];
      [s[0]] + Insert(p, s[1..])
    else [p] + s
  }

  function Ordered(rows: seq<Path>): (r: seq<Path>)
    ensures |r| == |rows| && forall q :: q in r <==> q in rows
  {
    if |rows| == 0 then []
    else
      assert rows == [rows[0]] + rows[1..];
      Insert(rows[0], Ordered(rows[1..]))
  }

  function Beyond(rows: seq<Path>, cursor: string): (r: seq<Path>)
    ensures forall q :: q in r <==> q in rows && Less(cursor, q)
  {
    if |rows| == 0 then []
    else
      assert rows == [rows[0]] + rows[1..];
      (if Less(cursor, rows[0]) then [rows[0]] else []) + Beyond(rows[1..], cursor)
  }

  lemma {:induction false} InsertAscends(p: Path, s: seq<Path>)
    requires Ascending(s) && p !in s
    ensures Ascending(Insert(p, s))
  {
    if |s| > 0 {
      LessTotal(s[0], p);
      if Less(s[0], p) {
        InsertAscends(p, s[1..]);
        forall q | q in Insert(p, s[1..]) ensures Less(s[0], q) {
          if q != p { var i :| 0 <= i < |s[1..]| && s[1..][i] == q; assert s[i + 1] == q; }
        }
        AscendsFrom(s[0], Insert(p, s[1..]));
      } else {
        forall q | q in s ensures Less(p, q) {
          var i :| 0 <= i < |s| && s[i] == q;
          if i > 0 { LessTransitive(p, s[0], q); }
        }
        AscendsFrom(p, s);
      }
    }
  }

  lemma AscendsFrom(p: Path, s: seq<Path>)
    requires Ascending(s) && forall q :: q in s ==> Less(p, q)
    ensures Ascending([p] + s)
  {
    hide IsPath, Less;
    forall i, j | 0 <= i < j < |[p] + s| ensures Less(([p] + s)[i], ([p] + s)[j]) {
      assert ([p] + s)[j] == s[j - 1] && s[j - 1] in s;
      if i > 0 { assert ([p] + s)[i] == s[i - 1]; }
    }
  }

  lemma {:induction false} OrderedAscends(rows: seq<Path>)
    requires Distinct(rows)
    ensures Ascending(Ordered(rows))
  {
    if |rows| > 0 {
      OrderedAscends(rows[1..]);
      InsertAscends(rows[0], Ordered(rows[1..]));
    }
  }

  lemma {:induction false} BeyondIsDistinct(rows: seq<Path>, cursor: string)
    requires Distinct(rows)
    ensures Distinct(Beyond(rows, cursor))
  {
    if |rows| > 0 {
      BeyondIsDistinct(rows[1..], cursor);
      var rest := Beyond(rows[1..], cursor);
      assert rows[0] !in rest;
    }
  }

  /** An ascending listing is determined by its elements. */
  lemma {:induction false} AscendingIsUnique(x: seq<Path>, y: seq<Path>)
    requires Ascending(x) && Ascending(y) && forall q :: q in x <==> q in y
    ensures x == y
  {
    assert |y| > 0 ==> y[0] in x;
    if |x| > 0 {
      assert x[0] in y;
      var j :| 0 <= j < |y| && y[j] == x[0];
      assert y[0] in x;
      var i :| 0 <= i < |x| && x[i] == y[0];
      LessTotal(x[0], y[0]);
      assert i == 0 && j == 0;
      forall q ensures q in x[1..] <==> q in y[1..] {
        TailMembers(x, q);
        TailMembers(y, q);
      }
      AscendingIsUnique(x[1..], y[1..]);
      assert x == [x[0]] + x[1..] && y == [y[0]] + y[1..];
    }
  }

  lemma TailMembers(s: seq<Path>, q: Path)
    requires Ascending(s) && |s| > 0
    ensures q in s[1..] <==> q in s && q != s[0]
  {
    LessIrreflexive(q);
    assert s == [s[0]] + s[1..];
    if q in s[1..] { var i :| 0 <= i < |s[1..]| && s[1..][i] == q; assert s[i + 1] == q; }
  }

  // ---- one page -----------------------------------------------------------------------------

  datatype Page = Page(posts: seq<Path>, next: Option<Path>)

  function CursorText(after: Option<Path>): string {
    match after case Some(p) => p case None => PATH_START
  }

  /** `POSTS` with one row more than asked for, which proves there is a next page. */
  function ThreadPage(rows: seq<Path>, after: Option<Path>, limit: nat): Page {
    var got := Take(Ordered(Beyond(rows, CursorText(after))), limit + 1);
    if |got| > limit then Page(got[..limit], if limit > 0 then Some(got[limit - 1]) else None)
    else Page(got, None)
  }

  lemma EverythingIsBeyondStart(p: Path)
    ensures Less(PATH_START, p)
  {
  }

  /** Reading on from the `i`-th post of an ascending listing reads the rest of that listing. */
  lemma ReadingOn(rows: seq<Path>, cursor: string, i: nat)
    requires Distinct(rows)
    ensures var l := Ordered(Beyond(rows, cursor));
            && Ascending(l)
            && (i < |l| ==> Ordered(Beyond(rows, l[i])) == l[i + 1..])
  {
    hide IsPath, Less, Ordered, Beyond;
    var l := Ordered(Beyond(rows, cursor));
    BeyondIsDistinct(rows, cursor);
    OrderedAscends(Beyond(rows, cursor));
    if i < |l| {
      var r := Ordered(Beyond(rows, l[i]));
      BeyondIsDistinct(rows, l[i]);
      OrderedAscends(Beyond(rows, l[i]));
      assert l[i] in l;
      forall q ensures q in r <==> q in l[i + 1..] {
        if q in r {
          LessTransitive(cursor, l[i], q);
          assert q in l;
          var j :| 0 <= j < |l| && l[j] == q;
          LessTotal(l[i], q);
          LessIrreflexive(q);
          assert j > i;
          assert l[i + 1..][j - i - 1] == q;
        }
        if q in l[i + 1..] {
          var j :| 0 <= j < |l[i + 1..]| && l[i + 1..][j] == q;
          assert l[i + 1 + j] == q && q in l;
        }
      }
      AscendingIsUnique(r, l[i + 1..]);
    }
  }

  /** A page is the head of what lies beyond the cursor, and the next cursor is its last post. */
  lemma PageIsHead(rows: seq<Path>, after: Option<Path>, limit: nat)
    requires limit > 0 && Distinct(rows)
    ensures var l, page := Ordered(Beyond(rows, CursorText(after))), ThreadPage(rows, after, limit);
            && Ascending(l)
            && (if |l| > limit then page == Page(l[..limit], Some(l[limit - 1])) else page == Page(l, None))
  {
    hide IsPath;
    ReadingOn(rows, CursorText(after), limit - 1);
    var l := Ordered(Beyond(rows, CursorText(after)));
    if |l| > limit { assert l[..limit + 1][..limit] == l[..limit]; }
  }

  // ---- a walk over a thread that stands still -----------------------------------------------

  /** Follow the cursors from `after` to the end. */
  function Walk(rows: seq<Path>, after: Option<Path>, limit: nat): (pages: seq<seq<Path>>)
    requires limit > 0 && Distinct(rows)
    decreases |Beyond(rows, CursorText(after))|
  {
    var page := ThreadPage(rows, after, limit);
    ReadingOn(rows, CursorText(after), limit - 1);
    match page.next
    case None => [page.posts]
    case Some(cursor) => [page.posts] + Walk(rows, Some(cursor), limit)
  }

  function Chunks(s: seq<Path>, limit: nat): seq<seq<Path>>
    requires limit > 0
  {
    if |s| <= limit then [s] else [s[..limit]] + Chunks(s[limit..], limit)
  }

  function Concat(pages: seq<seq<Path>>): seq<Path> {
    if |pages| == 0 then [] else pages[0] + Concat(pages[1..])
  }

  lemma {:induction false} WalkIsChunks(rows: seq<Path>, after: Option<Path>, limit: nat)
    requires limit > 0 && Distinct(rows)
    ensures Walk(rows, after, limit) == Chunks(Ordered(Beyond(rows, CursorText(after))), limit)
    decreases |Beyond(rows, CursorText(after))|
  {
    var l, page := Ordered(Beyond(rows, CursorText(after))), ThreadPage(rows, after, limit);
    hide IsPath, ThreadPage, Ordered, Beyond;
    PageIsHead(rows, after, limit);
    ReadingOn(rows, CursorText(after), limit - 1);
    if |l| > limit { WalkIsChunks(rows, page.next, limit); }
  }

  lemma {:induction false} ChunksConcat(s: seq<Path>, limit: nat)
    requires limit > 0
    ensures Concat(Chunks(s, limit)) == s
    ensures forall k :: 0 <= k < |Chunks(s, limit)| - 1 ==> |Chunks(s, limit)[k]| == limit
    ensures |Chunks(s, limit)[|Chunks(s, limit)| - 1]| <= limit
  {
    if |s| <= limit {
      assert [s][1..] == [];
      assert s + [] == s;
    } else {
      ChunksConcat(s[limit..], limit);
      assert Chunks(s, limit)[1..] == Chunks(s[limit..], limit);
    }
  }

  /** A walk ends, fills every page but the last, and reads the whole thread in tree order. */
  lemma WalkReadsTheThread(rows: seq<Path>, limit: nat)
    requires limit > 0 && Distinct(rows)
    ensures var pages := Walk(rows, None, limit);
            && Concat(pages) == Ordered(rows)
            && Ascending(Concat(pages))
            && forall k :: 0 <= k < |pages| - 1 ==> |pages[k]| == limit
  {
    WalkIsChunks(rows, None, limit);
    AllBeyondStart(rows);
    OrderedAscends(rows);
    ChunksConcat(Ordered(rows), limit);
  }

  /** With a limit of zero nothing is read, and no cursor says there was more. */
  lemma ZeroLimitReadsNothing(rows: seq<Path>, after: Option<Path>)
    ensures ThreadPage(rows, after, 0) == Page([], None)
  {
  }

  // ---- a walk while replies arrive ----------------------------------------------------------

  /** What a walk has returned, and whether it reached the end, when the table stands as
      `tables[k]` for its `k`-th page. */
  function WalkOver(tables: seq<seq<Path>>, after: Option<Path>, limit: nat): (seq<Path>, bool) {
    if |tables| == 0 then ([], false)
    else
      var page := ThreadPage(tables[0], after, limit);
      match page.next
      case None => (page.posts, true)
      case Some(cursor) =>
        var rest := WalkOver(tables[1..], Some(cursor), limit);
        (page.posts + rest.0, rest.1)
  }

  predicate Includes(more: seq<Path>, rows: seq<Path>) {
    forall q :: q in rows ==> q in more
  }

  /** Rows are only ever added. */
  predicate OnlyGrows(tables: seq<seq<Path>>) {
    |tables| > 0 ==>
      && Distinct(tables[0])
      && (|tables| > 1 ==> Includes(tables[1], tables[0]))
      && OnlyGrows(tables[1..])
  }

  lemma HeadSplits(l: seq<Path>, n: nat)
    requires Ascending(l) && 0 < n < |l|
    ensures Ascending(l[..n])
    ensures forall q :: q in l[..n] ==> q in l && AtMost(q, l[n - 1])
    ensures forall q :: q in l ==> q in l[..n] || Less(l[n - 1], q)
  {
    hide IsPath;
    forall q | q in l[..n] ensures q in l && AtMost(q, l[n - 1]) {
      var j :| 0 <= j < n && l[..n][j] == q;
      assert l[j] == q;
    }
    forall q | q in l ensures q in l[..n] || Less(l[n - 1], q) {
      var j :| 0 <= j < |l| && l[j] == q;
      if j < n { assert l[..n][j] == q; }
    }
  }

  lemma PageSplits(rows: seq<Path>, after: Option<Path>, limit: nat)
    requires limit > 0 && Distinct(rows)
    ensures var page := ThreadPage(rows, after, limit);
            && Ascending(page.posts)
            && (forall q :: q in page.posts ==> q in rows && Less(CursorText(after), q))
            && (page.next.None? ==> forall q :: q in rows && Less(CursorText(after), q) ==> q in page.posts)
            && (page.next.Some? ==>
                  && (forall q :: q in page.posts ==> AtMost(q, page.next.value))
                  && Less(CursorText(after), page.next.value)
                  && forall q :: q in rows && Less(CursorText(after), q) ==>
                                   q in page.posts || Less(page.next.value, q))
  {
    hide IsPath, ThreadPage;
    var l := Ordered(Beyond(rows, CursorText(after)));
    PageIsHead(rows, after, limit);
    if |l| > limit {
      HeadSplits(l, limit);
      assert l[limit - 1] in l;
    }
  }

  /** Replies arriving during a walk never make it repeat a post or miss one that was there when
      it began. */
  lemma {:induction false} WalkMissesNothing(tables: seq<seq<Path>>, after: Option<Path>, limit: nat)
    requires limit > 0 && |tables| > 0 && OnlyGrows(tables)
    ensures var (posts, complete) := WalkOver(tables, after, limit);
            && Ascending(posts)
            && (forall q :: q in posts ==> Less(CursorText(after), q) && q in tables[|tables| - 1])
            && (complete ==> forall q :: q in tables[0] && Less(CursorText(after), q) ==> q in posts)
  {
    hide IsPath, ThreadPage;
    var page := ThreadPage(tables[0], after, limit);
    PageSplits(tables[0], after, limit);
    InLastTable(tables);
    if page.next.Some? && |tables| > 1 {
      WalkMissesNothing(tables[1..], page.next, limit);
      var tail := WalkOver(tables[1..], page.next, limit).0;
      ConcatAscends(page.posts, page.next.value, tail);
      forall q | q in tail ensures Less(CursorText(after), q) {
        LessTransitive(CursorText(after), page.next.value, q);
      }
    }
  }

  lemma {:induction false} InLastTable(tables: seq<seq<Path>>)
    requires |tables| > 0 && OnlyGrows(tables)
    ensures Includes(tables[|tables| - 1], tables[0])
  {
    if |tables| > 1 { InLastTable(tables[1..]); }
  }

  lemma ConcatAscends(x: seq<Path>, mid: Path, y: seq<Path>)
    requires Ascending(x) && Ascending(y)
    requires forall q :: q in x ==> AtMost(q, mid)
    requires forall q :: q in y ==> Less(mid, q)
    ensures Ascending(x + y)
  {
    forall i, j | 0 <= i < j < |x + y| ensures Less((x + y)[i], (x + y)[j]) {
      if i < |x| <= j {
        assert x[i] in x && y[j - |x|] in y;
        if x[i] != mid { LessTransitive(x[i], mid, y[j - |x|]); }
      }
    }
  }

  // ---- permalinks ---------------------------------------------------------------------------

  /** `POST_RANK`. */
  function Rank(rows: seq<Path>, p: Path): (n: nat)
    ensures n <= |rows|
  {
    if |rows| == 0 then 0 else (if Less(rows[0], p) then 1 else 0) + Rank(rows[1..], p)
  }

  /** `PATH_AT_OFFSET`. */
  function PathAtOffset(rows: seq<Path>, offset: nat): Option<Path> {
    if offset < |rows| then Some(Ordered(rows)[offset]) else None
  }

  /** The offset of the last post of the page before the one holding `rank`. */
  function PageCursorOffset(rank: nat, pageSize: nat): Option<nat> {
    var size: nat := if pageSize > 1 then pageSize else 1;
    var page := rank / size;
    if page > 0 then
      PageStart(rank, size);
      Some(page * size - 1)
    else None
  }

  lemma PageStart(rank: nat, size: nat)
    requires size > 0
    ensures (rank / size) * size <= rank < (rank / size) * size + size
    ensures rank / size > 0 ==> (rank / size) * size > 0
  {
    assert rank == size * (rank / size) + rank % size;
  }

  function Locate(rows: seq<Path>, p: Path, pageSize: nat): Option<Path> {
    match PageCursorOffset(Rank(rows, p), pageSize)
    case None => None
    case Some(offset) => PathAtOffset(rows, offset)
  }

  /** The cursor of the `k`-th page when a reader pages through from the top. */
  function SequentialCursor(rows: seq<Path>, k: nat, limit: nat): Option<Path> {
    if k == 0 then None else ThreadPage(rows, SequentialCursor(rows, k - 1, limit), limit).next
  }

  lemma {:induction false} RankOfInsert(p: Path, s: seq<Path>, q: Path)
    ensures Rank(Insert(p, s), q) == Rank(s, q) + if Less(p, q) then 1 else 0
  {
    if |s| > 0 && Less(s[0], p) {
      RankOfInsert(p, s[1..], q);
    } else {
      assert ([p] + s)[1..] == s;
    }
  }

  lemma {:induction false} RankIsOrderFree(rows: seq<Path>, p: Path)
    ensures Rank(Ordered(rows), p) == Rank(rows, p)
  {
    if |rows| > 0 {
      RankIsOrderFree(rows[1..], p);
      RankOfInsert(rows[0], Ordered(rows[1..]), p);
    }
  }

  lemma {:induction false} RankInAscending(s: seq<Path>, i: nat)
    requires Ascending(s) && i < |s|
    ensures Rank(s, s[i]) == i
  {
    if i > 0 {
      RankInAscending(s[1..], i - 1);
    } else {
      LessIrreflexive(s[0]);
      RankBelowAll(s[1..], s[0]);
    }
  }

  lemma {:induction false} RankBelowAll(s: seq<Path>, p: Path)
    requires forall q :: q in s ==> Less(p, q)
    ensures Rank(s, p) == 0
  {
    if |s| > 0 {
      assert s[0] in s;
      LessTotal(p, s[0]);
      RankBelowAll(s[1..], p);
    }
  }

  /** A post's rank is its index in page order. */
  lemma RankIsIndex(rows: seq<Path>, p: Path)
    requires Distinct(rows) && p in rows
    ensures Rank(rows, p) < |rows| && Ordered(rows)[Rank(rows, p)] == p
  {
    OrderedAscends(rows);
    var i :| 0 <= i < |rows| && Ordered(rows)[i] == p;
    RankInAscending(Ordered(rows), i);
    RankIsOrderFree(rows, p);
  }

  /** Posts on the first `k` full pages. */
  function Offset(k: nat, limit: nat): nat {
    if k == 0 then 0 else Offset(k - 1, limit) + limit
  }

  lemma {:induction false} OffsetIsProduct(k: nat, limit: nat)
    ensures Offset(k, limit) == k * limit
  {
    if k > 0 {
      OffsetIsProduct(k - 1, limit);
      assert k * limit == (k - 1) * limit + limit;
    }
  }

  lemma CursorOffset(rank: nat, size: nat)
    requires size > 0
    ensures Offset(rank / size, size) <= rank < Offset(rank / size, size) + size
    ensures PageCursorOffset(rank, size) ==
              if rank / size > 0 then Some(Offset(rank / size, size) - 1) else None
  {
    OffsetIsProduct(rank / size, size);
    PageStart(rank, size);
  }

  lemma NextPageStarts(rows: seq<Path>, after: Option<Path>, limit: nat, l: seq<Path>, start: nat)
    requires limit > 0 && Distinct(rows) && start + limit < |l|
    requires Ordered(Beyond(rows, CursorText(after))) == l[start..]
    ensures var next := ThreadPage(rows, after, limit).next;
            && next == Some(l[start + limit - 1])
            && Ordered(Beyond(rows, CursorText(next))) == l[start + limit..]
  {
    hide IsPath, ThreadPage, Ordered, Beyond;
    PageIsHead(rows, after, limit);
    ReadingOn(rows, CursorText(after), limit - 1);
    assert l[start..][limit..] == l[start + limit..];
  }

  lemma {:induction false} SequentialCursorAt(rows: seq<Path>, k: nat, limit: nat)
    requires limit > 0 && Distinct(rows) && Offset(k, limit) < |rows|
    ensures Ordered(Beyond(rows, CursorText(SequentialCursor(rows, k, limit)))) == Ordered(rows)[Offset(k, limit)..]
    ensures k > 0 ==> SequentialCursor(rows, k, limit) == Some(Ordered(rows)[Offset(k, limit) - 1])
  {
    hide IsPath, ThreadPage, Ordered, Beyond;
    if k == 0 {
      AllBeyondStart(rows);
    } else {
      SequentialCursorAt(rows, k - 1, limit);
      NextPageStarts(rows, SequentialCursor(rows, k - 1, limit), limit, Ordered(rows), Offset(k - 1, limit));
    }
  }

  lemma AllBeyondStart(rows: seq<Path>)
    requires Distinct(rows)
    ensures Ordered(Beyond(rows, PATH_START)) == Ordered(rows)
  {
    OrderedAscends(rows);
    ReadingOn(rows, PATH_START, 0);
    forall q | q in rows ensures Less(PATH_START, q) { EverythingIsBeyondStart(q); }
    AscendingIsUnique(Ordered(Beyond(rows, PATH_START)), Ordered(rows));
  }

  /** A permalink's cursor is the one a reader paging through would hold, so every post of a page
      agrees on it, and the page read after it shows the post. */
  lemma PermalinkFindsItsPage(rows: seq<Path>, p: Path, size: nat)
    requires size > 0 && Distinct(rows) && p in rows
    ensures Locate(rows, p, size) == SequentialCursor(rows, Rank(rows, p) / size, size)
    ensures p in ThreadPage(rows, Locate(rows, p, size), size).posts
  {
    CursorOffset(Rank(rows, p), size);
    PermalinkOnPage(rows, p, size, Rank(rows, p) / size);
  }

  lemma PermalinkOnPage(rows: seq<Path>, p: Path, size: nat, k: nat)
    requires size > 0 && Distinct(rows) && p in rows
    requires Offset(k, size) <= Rank(rows, p) < Offset(k, size) + size
    requires PageCursorOffset(Rank(rows, p), size) == if k > 0 then Some(Offset(k, size) - 1) else None
    ensures Locate(rows, p, size) == SequentialCursor(rows, k, size)
    ensures p in ThreadPage(rows, Locate(rows, p, size), size).posts
  {
    hide IsPath, ThreadPage, PageCursorOffset, Ordered, Beyond, Offset;
    RankIsIndex(rows, p);
    SequentialCursorAt(rows, k, size);
    OnThisPage(rows, SequentialCursor(rows, k, size), size, Offset(k, size), Rank(rows, p));
  }

  lemma OnThisPage(rows: seq<Path>, after: Option<Path>, size: nat, start: nat, i: nat)
    requires size > 0 && Distinct(rows) && start <= i < start + size && i < |rows|
    requires Ordered(Beyond(rows, CursorText(after))) == Ordered(rows)[start..]
    ensures Ordered(rows)[i] in ThreadPage(rows, after, size).posts
  {
    hide IsPath, ThreadPage, Ordered, Beyond;
    PageIsHead(rows, after, size);
    assert Ordered(rows)[start..][i - start] == Ordered(rows)[i];
    assert ThreadPage(rows, after, size).posts[i - start] == Ordered(rows)[i];
  }

  // ---- permalinks while replies arrive ------------------------------------------------------

  function BelowIn(rows: seq<Path>, p: Path): set<Path> {
    set q | q in rows && Less(q, p)
  }

  lemma MembersOneMore(q: Path, rest: seq<Path>, p: Path)
    requires q !in rest
    ensures BelowIn([q] + rest, p) == BelowIn(rest, p) + if Less(q, p) then {q} else {}
    ensures (set r | r in [q] + rest) == (set r | r in rest) + {q}
  {
    hide IsPath, Less;
    assert forall r :: r in [q] + rest <==> r == q || r in rest;
  }

  lemma {:induction false} RankCounts(rows: seq<Path>, p: Path)
    requires Distinct(rows)
    ensures Rank(rows, p) == |BelowIn(rows, p)|
    ensures |set q | q in rows| == |rows|
  {
    hide IsPath, Less, BelowIn;
    if |rows| == 0 {
      NoneBelow(p);
    } else {
      RankCounts(rows[1..], p);
      MembersOneMore(rows[0], rows[1..], p);
      assert rows == [rows[0]] + rows[1..];
      NotBelow(rows[0], rows[1..], p);
    }
  }

  lemma NoneBelow(p: Path)
    ensures BelowIn([], p) == {}
  {
  }

  lemma NotBelow(q: Path, rest: seq<Path>, p: Path)
    requires q !in rest
    ensures q !in BelowIn(rest, p)
  {
  }

  lemma RankGrows(rows: seq<Path>, more: seq<Path>, p: Path)
    requires Distinct(rows) && Distinct(more) && Includes(more, rows)
    ensures Rank(rows, p) <= Rank(more, p) && |rows| <= |more|
  {
    hide IsPath, Rank;
    RankCounts(rows, p);
    RankCounts(more, p);
    SubsetSize(BelowIn(rows, p), BelowIn(more, p));
    SubsetSize(set q | q in rows, set q | q in more);
  }

  lemma RankOfLess(rows: seq<Path>, c: Path, p: Path)
    requires Distinct(rows) && c in rows && p in rows && Rank(rows, c) < Rank(rows, p)
    ensures Less(c, p)
  {
    hide IsPath, Rank, Ordered;
    RankIsIndex(rows, c);
    RankIsIndex(rows, p);
    OrderedAscends(rows);
  }

  /** The cursor a permalink is given when the rank is counted in one table and the offset read in
      a later one. */
  function LocateOver(atRank: seq<Path>, atOffset: seq<Path>, p: Path, pageSize: nat): Option<Path> {
    match PageCursorOffset(Rank(atRank, p), pageSize)
    case None => None
    case Some(offset) => PathAtOffset(atOffset, offset)
  }

  /** Where the page after a cursor starts. */
  function PageStartsAt(rows: seq<Path>, cursor: Option<Path>): nat {
    match cursor case None => 0 case Some(c) => Rank(rows, c) + 1
  }

  lemma BeyondCursor(rows: seq<Path>, cursor: Option<Path>)
    requires Distinct(rows) && (cursor.Some? ==> cursor.value in rows)
    ensures PageStartsAt(rows, cursor) <= |rows|
    ensures Ordered(Beyond(rows, CursorText(cursor))) == Ordered(rows)[PageStartsAt(rows, cursor)..]
  {
    hide IsPath, Rank, Ordered, Beyond;
    AllBeyondStart(rows);
    if cursor.Some? {
      RankIsIndex(rows, cursor.value);
      ReadingOn(rows, PATH_START, Rank(rows, cursor.value));
    }
  }

  /** A post at or past the start of a page is on it exactly when it is within its length. */
  lemma OnPageExactly(rows: seq<Path>, cursor: Option<Path>, p: Path, size: nat)
    requires size > 0 && Distinct(rows) && p in rows && (cursor.Some? ==> cursor.value in rows)
    requires PageStartsAt(rows, cursor) <= Rank(rows, p)
    ensures p in ThreadPage(rows, cursor, size).posts <==> Rank(rows, p) < PageStartsAt(rows, cursor) + size
  {
    hide IsPath, Rank, Ordered, Beyond, ThreadPage;
    var start, i, l := PageStartsAt(rows, cursor), Rank(rows, p), Ordered(rows);
    BeyondCursor(rows, cursor);
    RankIsIndex(rows, p);
    OrderedAscends(rows);
    PageIsHead(rows, cursor, size);
    if i < start + size { OnThisPage(rows, cursor, size, start, i); }
    WithinPage(l, start, ThreadPage(rows, cursor, size).posts, size, i);
  }

  /** What a page of at most `size` posts from `start` shows has an index below its end. */
  lemma WithinPage(l: seq<Path>, start: nat, page: seq<Path>, size: nat, i: nat)
    requires Ascending(l) && start <= |l| && i < |l| && page <= l[start..] && |page| <= size
    ensures l[i] in page ==> i < start + size
  {
    hide IsPath, Less;
    if l[i] in page {
      var k :| 0 <= k < |page| && page[k] == l[i];
      assert l[start..][k] == l[start + k];
      IndexIsUnique(l, start + k, i);
    }
  }

  lemma IndexIsUnique(l: seq<Path>, i: nat, j: nat)
    requires Ascending(l) && i < |l| && j < |l| && l[i] == l[j]
    ensures i == j
  {
    LessIrreflexive(l[i]);
  }

  /** With replies arriving between the statements of a permalink and the reading of its page, the
      cursor still sorts before the post, and the page shows the post exactly as long as fewer than
      a page of posts lie between the two. */
  lemma PermalinkWhileGrowing(atRank: seq<Path>, atOffset: seq<Path>, atRead: seq<Path>, p: Path, size: nat)
    requires size > 0 && p in atRank && Distinct(atRank) && Distinct(atOffset) && Distinct(atRead)
    requires Includes(atOffset, atRank) && Includes(atRead, atOffset)
    ensures var cursor := LocateOver(atRank, atOffset, p, size);
            && (cursor.Some? ==> cursor.value in atRead && Less(cursor.value, p))
            && PageStartsAt(atRead, cursor) <= Rank(atRead, p)
            && (p in ThreadPage(atRead, cursor, size).posts <==> Rank(atRead, p) < PageStartsAt(atRead, cursor) + size)
  {
    hide IsPath, Rank, Ordered, Beyond, ThreadPage, PageCursorOffset;
    var r, cursor := Rank(atRank, p), LocateOver(atRank, atOffset, p, size);
    CursorOffset(r, size);
    RankGrows(atRank, atOffset, p);
    RankIsIndex(atRank, p);
    if cursor.Some? {
      var c := cursor.value;
      CursorSortsBefore(atRank, atOffset, p, size);
      LessCounts(atRead, c, p);
    }
    OnPageExactly(atRead, cursor, p, size);
  }

  lemma CursorSortsBefore(atRank: seq<Path>, atOffset: seq<Path>, p: Path, size: nat)
    requires size > 0 && p in atRank && Distinct(atRank) && Distinct(atOffset) && Includes(atOffset, atRank)
    requires LocateOver(atRank, atOffset, p, size).Some?
    ensures var c := LocateOver(atRank, atOffset, p, size).value;
            c in atOffset && Less(c, p)
  {
    hide IsPath, Rank, Ordered, PageCursorOffset;
    CursorOffset(Rank(atRank, p), size);
    RankGrows(atRank, atOffset, p);
    var offset, l := PageCursorOffset(Rank(atRank, p), size).value, Ordered(atOffset);
    OrderedAscends(atOffset);
    RankInAscending(l, offset);
    RankIsOrderFree(atOffset, l[offset]);
    assert l[offset] in l;
    RankOfLess(atOffset, l[offset], p);
  }

  lemma LessCounts(rows: seq<Path>, c: Path, p: Path)
    requires Distinct(rows) && c in rows && Less(c, p)
    ensures Rank(rows, c) < Rank(rows, p)
  {
    hide IsPath, Rank;
    RankCounts(rows, c);
    RankCounts(rows, p);
    forall q | q in BelowIn(rows, c) ensures q in BelowIn(rows, p) { LessTransitive(q, c, p); }
    LessIrreflexive(c);
    SubsetSize(BelowIn(rows, c) + {c}, BelowIn(rows, p));
  }

  /** The posts that came between two tables and sort before `p`. */
  function Arrived(before: seq<Path>, after: seq<Path>, p: Path): set<Path> {
    set q | q in after && q !in before && Less(q, p)
  }

  /** A rank grows by what arrives before it. */
  lemma RankGrowsByArrivals(before: seq<Path>, after: seq<Path>, p: Path)
    requires Distinct(before) && Distinct(after) && Includes(after, before)
    ensures Rank(after, p) == Rank(before, p) + |Arrived(before, after, p)|
  {
    hide IsPath, Rank, Less;
    RankCounts(before, p);
    RankCounts(after, p);
    assert BelowIn(after, p) == BelowIn(before, p) + Arrived(before, after, p);
    assert BelowIn(before, p) !! Arrived(before, after, p);
  }

  /** How far the start of the page has moved: by what arrived before its cursor since it was read. */
  function Moved(atOffset: seq<Path>, atRead: seq<Path>, cursor: Option<Path>): nat {
    match cursor case None => 0 case Some(c) => |Arrived(atOffset, atRead, c)|
  }

  /** When a permalink shows its post, by what arrives while its statements and its page are read:
      the place it had on its page, moved on by the replies that came before it and back by those
      that came before the cursor, must still be within the page. So it is shown whatever arrives,
      as long as fewer replies come before it than its page had posts from it on. */
  lemma PermalinkByArrivals(atRank: seq<Path>, atOffset: seq<Path>, atRead: seq<Path>, p: Path, size: nat)
    requires size > 0 && p in atRank && Distinct(atRank) && Distinct(atOffset) && Distinct(atRead)
    requires Includes(atOffset, atRank) && Includes(atRead, atOffset)
    ensures var place, cursor := Rank(atRank, p) % size, LocateOver(atRank, atOffset, p, size);
            var shown, before := p in ThreadPage(atRead, cursor, size).posts, |Arrived(atRank, atRead, p)|;
            && (cursor.None? <==> Rank(atRank, p) < size)
            && (shown <==> place + before - Moved(atOffset, atRead, cursor) < size)
            && (before < size - place ==> shown)
  {
    hide IsPath, Rank, Ordered, Beyond, ThreadPage, PageCursorOffset, Arrived, Offset;
    var r, cursor := Rank(atRank, p), LocateOver(atRank, atOffset, p, size);
    PermalinkWhileGrowing(atRank, atOffset, atRead, p, size);
    RankGrowsByArrivals(atRank, atRead, p);
    PlaceOnPage(r, size);
    CursorRank(atRank, atOffset, p, size);
    if cursor.Some? { RankGrowsByArrivals(atOffset, atRead, cursor.value); }
  }

  lemma PlaceOnPage(r: nat, size: nat)
    requires size > 0
    ensures r == Offset(r / size, size) + r % size && (r / size == 0 <==> r < size)
  {
    OffsetIsProduct(r / size, size);
    assert r == size * (r / size) + r % size;
  }

  /** The cursor is the last post before the page, in the table it was read from. */
  lemma CursorRank(atRank: seq<Path>, atOffset: seq<Path>, p: Path, size: nat)
    requires size > 0 && p in atRank && Distinct(atRank) && Distinct(atOffset) && Includes(atOffset, atRank)
    ensures var page, cursor := Rank(atRank, p) / size, LocateOver(atRank, atOffset, p, size);
            && (cursor.Some? <==> page > 0)
            && (cursor.Some? ==> Rank(atOffset, cursor.value) + 1 == Offset(page, size))
  {
    hide IsPath, Rank, Ordered, PageCursorOffset, Offset;
    var r := Rank(atRank, p);
    CursorOffset(r, size);
    RankIsIndex(atRank, p);
    RankGrows(atRank, atOffset, p);
    OrderedAscends(atOffset);
    if r / size > 0 {
      var offset: nat := PageCursorOffset(r, size).value;
      RankInAscending(Ordered(atOffset), offset);
      RankIsOrderFree(atOffset, Ordered(atOffset)[offset]);
    }
  }

  /** It can fall off: with two posts to a page, the last post of the first page is pushed to the
      second by a reply to the post above it. */
  lemma PermalinkMissed()
    ensures var first, p, reply := PathOf([0]), PathOf([1]), PathOf([0, 0]);
            var rows, later := [first, p], [first, p, reply];
            && LocateOver(rows, rows, p, 2) == None
            && p in ThreadPage(rows, None, 2).posts && p !in ThreadPage(later, None, 2).posts
  {
    var first, p, reply := PathOf([0]), PathOf([1]), PathOf([0, 0]);
    OrderIsPreorder(first, p);
    OrderIsPreorder(reply, p);
    OrderIsPreorder(first, reply);
    hide IsPath, ThreadPage, Less, Rank;
    PushedOff(first, p, reply);
  }

  lemma PushedOff(first: Path, p: Path, reply: Path)
    requires Less(first, p) && Less(reply, p) && Less(first, reply)
    ensures var rows, later := [first, p], [first, p, reply];
            && LocateOver(rows, rows, p, 2) == None
            && p in ThreadPage(rows, None, 2).posts && p !in ThreadPage(later, None, 2).posts
  {
    hide IsPath, ThreadPage, Less, Rank;
    LessIrreflexive(p);
    LessIrreflexive(first);
    LessIrreflexive(reply);
    RanksOf(first, p, reply);
    OnPageExactly([first, p], None, p, 2);
    OnPageExactly([first, p, reply], None, p, 2);
  }

  lemma RanksOf(first: Path, p: Path, reply: Path)
    requires Less(first, p) && Less(reply, p) && !Less(p, p)
    ensures Rank([first, p], p) == 1 && Rank([first, p, reply], p) == 2
  {
    hide IsPath, Less;
    assert [first, p][1..] == [p] && [p][1..] == [];
    assert [first, p, reply][1..] == [p, reply] && [p, reply][1..] == [reply] && [reply][1..] == [];
    assert Rank([], p) == 0 && Rank([p], p) == 0 && Rank([reply], p) == 1 && Rank([p, reply], p) == 1;
  }
}
