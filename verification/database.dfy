// The tables a thread page reads, and every statement batch that changes them
// (crates/core/src/sql.rs and the adapters' transactions). Each batch is one atomic step.
module Database {
  import opened Common
  import opened TreePath
  import opened PublicId
  import opened Allocation
  import opened ReplyTree
  import Paging

  datatype PostState = Shown | Pending | Withheld | Tombstone

  /** Columns that no statement changes (kind, author, creation time) are left out. */
  datatype Thread = Thread(
    title: string, url: Option<string>, space: nat, state: ThreadState,
    postCount: nat, bumpedAt: int, version: int)

  datatype Post = Post(
    id: string, thread: Id, path: Path, author: nat,
    html: string, editedAt: Option<int>, state: PostState)

  datatype Space = Space(path: string, name: string, ranking: string, depthCap: nat, config: string)

  datatype Db = Db(threads: map<Id, Thread>, posts: seq<Post>, spaces: map<nat, Space>)

  datatype Batch =
    | InsertThread(thread: Id, title: string, url: Option<string>, space: nat, now: int)
    | InsertPost(post: Post, now: int)
    | SetPostState(id: string, to: PostState)
    | UpdatePostBody(id: string, html: string, now: int)
    | TombstoneUserPosts(author: nat)
    | UpdateThread(thread: Id, title: string, url: Option<string>, state: ThreadState, space: nat)
    | InsertSpace(newId: nat, row: Space)
    | UpdateSpace(space: nat, name: string, ranking: string, depthCap: nat, config: string)

  // ---- statements ---------------------------------------------------------------------------

  /** `UPDATE thread SET cache_version = cache_version + 1 WHERE id IN (...)`. */
  function Bump(threads: map<Id, Thread>, which: set<Id>): map<Id, Thread> {
    map t | t in threads :: if t in which then threads[t].(version := threads[t].version + 1) else threads[t]
  }

  function ThreadsOfPost(posts: seq<Post>, id: string): set<Id> {
    set p | p in posts && p.id == id :: p.thread
  }

  function ThreadsOfUser(posts: seq<Post>, author: nat): set<Id> {
    set p | p in posts && p.author == author && p.state != Tombstone :: p.thread
  }

  function WithState(posts: seq<Post>, id: string, to: PostState): seq<Post> {
    seq(|posts|, i requires 0 <= i < |posts| => if posts[i].id == id then posts[i].(state := to) else posts[i])
  }

  function WithBody(posts: seq<Post>, id: string, html: string, now: int): seq<Post> {
    seq(|posts|, i requires 0 <= i < |posts| =>
      if posts[i].id == id then posts[i].(html := html, editedAt := Some(now)) else posts[i])
  }

  function Tombstoned(posts: seq<Post>, author: nat): seq<Post> {
    seq(|posts|, i requires 0 <= i < |posts| =>
      if posts[i].author == author && posts[i].state != Tombstone then posts[i].(state := Tombstone) else posts[i])
  }

  /** The unique indexes on the public id and on a path within its thread. */
  predicate Clashes(posts: seq<Post>, p: Post) {
    exists q :: q in posts && (q.id == p.id || (q.thread == p.thread && q.path == p.path))
  }

  /** A batch that a missing row or a constraint stops changes nothing. */
  function Apply(db: Db, b: Batch): Db {
    match b
    case InsertThread(t, title, url, space, now) =>
      if t in db.threads || space !in db.spaces then db
      else db.(threads := db.threads[t := Thread(title, url, space, Visible, 0, now, 0)])
    case InsertPost(p, now) =>
      if p.thread !in db.threads || Clashes(db.posts, p) then db
      else
        var t := db.threads[p.thread];
        db.(posts := db.posts + [p],
            threads := db.threads[p.thread := t.(postCount := t.postCount + 1, bumpedAt := now, version := t.version + 1)])
    case SetPostState(id, to) =>
      db.(posts := WithState(db.posts, id, to), threads := Bump(db.threads, ThreadsOfPost(db.posts, id)))
    case UpdatePostBody(id, html, now) =>
      db.(posts := WithBody(db.posts, id, html, now), threads := Bump(db.threads, ThreadsOfPost(db.posts, id)))
    case TombstoneUserPosts(author) =>
      db.(posts := Tombstoned(db.posts, author), threads := Bump(db.threads, ThreadsOfUser(db.posts, author)))
    case UpdateThread(t, title, url, state, space) =>
      if t !in db.threads || space !in db.spaces then db
      else
        var row := db.threads[t];
        db.(threads := db.threads[t := row.(title := title, url := url, state := state, space := space, version := row.version + 1)])
    case InsertSpace(s, row) =>
      if s in db.spaces then db else db.(spaces := db.spaces[s := row])
    case UpdateSpace(s, name, ranking, depthCap, config) =>
      if s !in db.spaces then db
      else db.(spaces := db.spaces[s := db.spaces[s].(name := name, ranking := ranking, depthCap := depthCap, config := config)])
  }

  // ---- what each batch writes, column by column ----------------------------------------------

  /** A stored post is never removed or moved. Only an edit of it sets its body and edit time, and only
      moderation of it or the tombstoning of its author sets its state. */
  lemma PostColumns(db: Db, b: Batch, i: nat)
    requires i < |db.posts|
    ensures |db.posts| <= |Apply(db, b).posts|
    ensures var p, q := db.posts[i], Apply(db, b).posts[i];
            && q.id == p.id && q.thread == p.thread && q.path == p.path && q.author == p.author
            && q.html == (if b.UpdatePostBody? && b.id == p.id then b.html else p.html)
            && q.editedAt == (if b.UpdatePostBody? && b.id == p.id then Some(b.now) else p.editedAt)
            && q.state == (if b.SetPostState? && b.id == p.id then b.to
                           else if b.TombstoneUserPosts? && b.author == p.author then Tombstone
                           else p.state)
  {
    hide IsPath, IsId, Clashes, Bump;
  }

  /** A post is added exactly by an insert into a thread that is there, under an id nobody has and a
      path its thread does not have, and then it is the one given. */
  lemma PostsAdded(db: Db, b: Batch)
    ensures var accepted := b.InsertPost? && b.post.thread in db.threads
                            && forall p :: p in db.posts ==> p.id != b.post.id && !(p.thread == b.post.thread && p.path == b.post.path);
            if accepted then Apply(db, b).posts == db.posts + [b.post] else |Apply(db, b).posts| == |db.posts|
  {
    hide IsPath, IsId, Bump;
  }

  /** The batch rewrites a post of this thread: one it names, or one of its author's not yet a
      tombstone. */
  predicate Rewrites(db: Db, b: Batch, t: Id) {
    exists p :: p in db.posts && p.thread == t &&
      match b
      case SetPostState(id, _) => p.id == id
      case UpdatePostBody(id, _, _) => p.id == id
      case TombstoneUserPosts(author) => p.author == author && p.state != Tombstone
      case _ => false
  }

  /** A thread's row is never removed. Its own update sets title, link, state and space; a post added
      to it counts and sets the bump time; and its version rises by one with each of these and with
      each batch that rewrites a post of it. */
  lemma ThreadColumns(db: Db, b: Batch, t: Id)
    requires t in db.threads
    ensures t in Apply(db, b).threads
    ensures var d := Apply(db, b);
            var r, s := db.threads[t], d.threads[t];
            var updated := b.UpdateThread? && b.thread == t && b.space in db.spaces;
            var posted := b.InsertPost? && b.post.thread == t && |d.posts| > |db.posts|;
            && s.title == (if updated then b.title else r.title)
            && s.url == (if updated then b.url else r.url)
            && s.state == (if updated then b.state else r.state)
            && s.space == (if updated then b.space else r.space)
            && s.postCount == r.postCount + (if posted then 1 else 0)
            && s.bumpedAt == (if posted then b.now else r.bumpedAt)
            && s.version == r.version + (if updated || posted || Rewrites(db, b, t) then 1 else 0)
  {
    hide IsPath, IsId, Clashes, WithState, WithBody, Tombstoned;
    match b {
      case SetPostState(id, _) =>
        assert t in ThreadsOfPost(db.posts, id) <==> exists p :: p in db.posts && p.thread == t && p.id == id;
      case UpdatePostBody(id, _, _) =>
        assert t in ThreadsOfPost(db.posts, id) <==> exists p :: p in db.posts && p.thread == t && p.id == id;
      case TombstoneUserPosts(author) =>
        assert t in ThreadsOfUser(db.posts, author)
          <==> exists p :: p in db.posts && p.thread == t && p.author == author && p.state != Tombstone;
      case _ =>
    }
  }

  /** A thread appears exactly by the insert of an absent one into a space that is there: visible, with
      no posts, at version 0. */
  lemma ThreadsAdded(db: Db, b: Batch, t: Id)
    requires t !in db.threads
    ensures t in Apply(db, b).threads <==> b.InsertThread? && b.thread == t && b.space in db.spaces
    ensures t in Apply(db, b).threads ==>
              var r := Apply(db, b).threads[t];
              && r.title == b.title && r.url == b.url && r.space == b.space && r.state == Visible
              && r.postCount == 0 && r.bumpedAt == b.now && r.version == 0
  {
    hide IsPath, IsId, Clashes, WithState, WithBody, Tombstoned;
  }

  /** A space appears by its insert, keeps its path, and its other columns are set by its update only. */
  lemma SpaceColumns(db: Db, b: Batch, s: nat)
    ensures var d := Apply(db, b);
            && (s in d.spaces <==> s in db.spaces || (b.InsertSpace? && b.newId == s))
            && (s !in db.spaces && s in d.spaces ==> d.spaces[s] == b.row)
            && (s in db.spaces ==>
                  var x, y := db.spaces[s], d.spaces[s];
                  var updated := b.UpdateSpace? && b.space == s;
                  && y.path == x.path
                  && y.name == (if updated then b.name else x.name)
                  && y.ranking == (if updated then b.ranking else x.ranking)
                  && y.depthCap == (if updated then b.depthCap else x.depthCap)
                  && y.config == (if updated then b.config else x.config))
  {
    hide IsPath, IsId, Clashes, WithState, WithBody, Tombstoned, Bump;
  }

  /** Foreign keys hold. */
  predicate Linked(db: Db) {
    && (forall t :: t in db.threads ==> db.threads[t].space in db.spaces)
    && forall p :: p in db.posts ==> p.thread in db.threads
  }

  lemma ApplyKeepsLinks(db: Db, b: Batch)
    requires Linked(db)
    ensures Linked(Apply(db, b))
  {
    hide IsPath, IsId, Clashes;
    var d := Apply(db, b);
    assert db.threads.Keys <= d.threads.Keys && db.spaces.Keys <= d.spaces.Keys;
    forall i | 0 <= i < |d.posts| ensures d.posts[i].thread in d.threads {
      if i < |db.posts| { assert db.posts[i] in db.posts && d.posts[i].thread == db.posts[i].thread; }
    }
  }

  /** The unique indexes hold: one row for each public id, and for each path of a thread. */
  predicate Indexed(posts: seq<Post>) {
    forall i, j :: 0 <= i < j < |posts| ==>
      posts[i].id != posts[j].id && (posts[i].thread != posts[j].thread || posts[i].path != posts[j].path)
  }

  /** What every state of the database satisfies. */
  predicate Sound(db: Db) {
    Linked(db) && Indexed(db.posts)
  }

  lemma ApplyKeepsIndexes(db: Db, b: Batch)
    requires Indexed(db.posts)
    ensures Indexed(Apply(db, b).posts)
  {
    hide IsPath, IsId, Clashes, Bump;
    var d := Apply(db, b);
    if b.InsertPost? && d.posts != db.posts {
      NoClash(db.posts, b.post);
    } else {
      assert |d.posts| == |db.posts|;
      assert forall i :: 0 <= i < |d.posts| ==> d.posts[i].id == db.posts[i].id;
      assert forall i :: 0 <= i < |d.posts| ==> d.posts[i].thread == db.posts[i].thread && d.posts[i].path == db.posts[i].path;
    }
  }

  lemma NoClash(posts: seq<Post>, p: Post)
    requires !Clashes(posts, p)
    ensures forall i :: 0 <= i < |posts| ==> posts[i].id != p.id && (posts[i].thread != p.thread || posts[i].path != p.path)
  {
    hide IsPath, IsId;
    forall i | 0 <= i < |posts|
      ensures posts[i].id != p.id && (posts[i].thread != p.thread || posts[i].path != p.path)
    {
      assert posts[i] in posts;
    }
  }

  lemma ApplyKeepsSound(db: Db, b: Batch)
    requires Sound(db)
    ensures Sound(Apply(db, b))
  {
    hide Apply, Linked, Indexed;
    ApplyKeepsLinks(db, b);
    ApplyKeepsIndexes(db, b);
  }

  // ---- what a version stands for ------------------------------------------------------------

  /** The thread's posts in insertion order. */
  function InThread(posts: seq<Post>, t: Id): (r: seq<Post>)
    ensures forall p :: p in r <==> p in posts && p.thread == t
  {
    if |posts| == 0 then []
    else
      var init, last := posts[..|posts| - 1], posts[|posts| - 1];
      assert posts == init + [last];
      InThread(init, t) + if last.thread == t then [last] else []
  }

  /** Everything a thread's page draws on, apart from its space. */
  function Content(db: Db, t: Id): (Thread, seq<Post>)
    requires t in db.threads
  {
    (db.threads[t], InThread(db.posts, t))
  }

  /** The second table repeats the first except in rows of other threads. */
  predicate SameIn(t: Id, posts: seq<Post>, later: seq<Post>) {
    && |posts| == |later|
    && forall i :: 0 <= i < |posts| ==> posts[i] == later[i] || (posts[i].thread != t && later[i].thread != t)
  }

  lemma {:induction false} UntouchedThread(t: Id, posts: seq<Post>, later: seq<Post>)
    requires SameIn(t, posts, later)
    ensures InThread(posts, t) == InThread(later, t)
  {
    if |posts| > 0 {
      UntouchedThread(t, posts[..|posts| - 1], later[..|later| - 1]);
    }
  }

  lemma OneMorePost(posts: seq<Post>, p: Post, t: Id)
    requires p.thread != t
    ensures InThread(posts + [p], t) == InThread(posts, t)
  {
    assert (posts + [p])[..|posts|] == posts;
  }

  /** Every batch keeps the promise the cache key relies on: versions never go back, and as long as
      a thread's version stands still so do its row and its posts. */
  lemma EveryChangeBumps(db: Db, b: Batch, t: Id)
    requires t in db.threads
    ensures var d := Apply(db, b);
            && t in d.threads && db.threads[t].version <= d.threads[t].version
            && (db.threads[t].version == d.threads[t].version ==> Content(db, t) == Content(d, t))
  {
    hide InThread;
    match b {
      case InsertPost(p, _) => InsertBumps(db, b, t);
      case SetPostState(id, _) => EditBumps(db, ThreadsOfPost(db.posts, id), Apply(db, b), t);
      case UpdatePostBody(id, _, _) => EditBumps(db, ThreadsOfPost(db.posts, id), Apply(db, b), t);
      case TombstoneUserPosts(author) => EditBumps(db, ThreadsOfUser(db.posts, author), Apply(db, b), t);
      case _ =>
    }
  }

  lemma InsertBumps(db: Db, b: Batch, t: Id)
    requires t in db.threads && b.InsertPost?
    ensures var d := Apply(db, b);
            && t in d.threads && db.threads[t].version <= d.threads[t].version
            && (db.threads[t].version == d.threads[t].version ==> Content(db, t) == Content(d, t))
  {
    hide InThread;
    if b.post.thread != t { OneMorePost(db.posts, b.post, t); }
  }

  /** A thread outside the bumped set has no row the batch rewrote. */
  lemma EditBumps(db: Db, which: set<Id>, d: Db, t: Id)
    requires t in db.threads && d.threads == Bump(db.threads, which) && |d.posts| == |db.posts|
    requires forall i :: 0 <= i < |db.posts| ==> d.posts[i] == db.posts[i] || db.posts[i].thread in which
    requires forall i :: 0 <= i < |db.posts| ==> d.posts[i].thread == db.posts[i].thread
    ensures t in d.threads && db.threads[t].version <= d.threads[t].version
    ensures db.threads[t].version == d.threads[t].version ==> Content(db, t) == Content(d, t)
  {
    if t !in which { UntouchedThread(t, db.posts, d.posts); }
  }

  /** The batch rewrites the row of the thread's own space and nothing else. */
  predicate OnlyEditsSpaceOf(db: Db, b: Batch, t: Id)
    requires Linked(db)
  {
    && t in db.threads && b.UpdateSpace? && b.space == db.threads[t].space
    && Apply(db, b).spaces[b.space] != db.spaces[b.space]
  }

  /** The one kind of write a version does not record. */
  lemma OnlySpaceEditsAreUnversioned(db: Db, b: Batch, t: Id)
    requires Linked(db) && t in db.threads
    ensures var d, s := Apply(db, b), db.threads[t].space;
            (d.threads[t].version == db.threads[t].version
             && (Content(d, t) != Content(db, t) || d.spaces[d.threads[t].space] != db.spaces[s]))
              <==> OnlyEditsSpaceOf(db, b, t)
  {
    ApplyKeepsLinks(db, b);
    EveryChangeBumps(db, b, t);
  }

  // ---- the same rows as the reply protocol's ------------------------------------------------

  /** The columns an insert decides for good: which post stands where. Its state may change later. */
  function RowOf(p: Post): Row {
    Row(p.id, TreePath.Parent(p.path), p.path, false)
  }

  function Rows(posts: seq<Post>): (rows: seq<Row>)
    ensures |rows| == |posts| && forall i :: 0 <= i < |posts| ==> rows[i] == RowOf(posts[i])
  {
    seq(|posts|, i requires 0 <= i < |posts| => RowOf(posts[i]))
  }

  function PathsOf(posts: seq<Post>): (ps: seq<Path>)
    ensures |ps| == |posts| && forall i :: 0 <= i < |ps| ==> ps[i] == posts[i].path
  {
    Paths(Rows(posts))
  }

  function ThreadRows(db: Db, t: Id): seq<Row> {
    Rows(InThread(db.posts, t))
  }

  lemma IndexedOneMore(s: seq<Post>, p: Post)
    requires Indexed(s)
    requires forall i :: 0 <= i < |s| ==> s[i].id != p.id && (s[i].thread != p.thread || s[i].path != p.path)
    ensures Indexed(s + [p])
  {
  }

  lemma {:induction false} IndexedInThread(posts: seq<Post>, t: Id)
    requires Indexed(posts)
    ensures Indexed(InThread(posts, t))
  {
    hide IsPath, IsId;
    if |posts| > 0 {
      var n, s := |posts| - 1, InThread(posts[..|posts| - 1], t);
      IndexedInThread(posts[..n], t);
      forall i | 0 <= i < |s| ensures s[i].id != posts[n].id && (s[i].thread != posts[n].thread || s[i].path != posts[n].path) {
        assert s[i] in s;
        var k :| 0 <= k < n && posts[..n][k] == s[i];
        assert posts[k] == s[i];
      }
      IndexedOneMore(s, posts[n]);
      assert s + [] == s;
    }
  }

  /** The indexes give each thread distinct paths and ids. */
  lemma ThreadIsDistinct(posts: seq<Post>, t: Id)
    requires Indexed(posts)
    ensures var s := InThread(posts, t);
            Paging.Distinct(PathsOf(s)) && forall i, j :: 0 <= i < j < |s| ==> s[i].id != s[j].id
  {
    hide IsPath, IsId, InThread;
    var s := InThread(posts, t);
    IndexedInThread(posts, t);
    forall i | 0 <= i < |s| ensures s[i].thread == t { assert s[i] in s; }
    forall i, j | 0 <= i < j < |s| ensures PathsOf(s)[i] != PathsOf(s)[j] { assert s[i].id != s[j].id; }
  }

  /** A reply's commit, seen from the whole database: the thread gains that row and no other. */
  lemma InsertIsCommit(db: Db, p: Post, now: int, seen: nat)
    requires Sound(db) && p.thread in db.threads && Commits(ThreadRows(db, p.thread), RowOf(p), seen)
    requires forall q :: q in db.posts ==> q.id != p.id
    ensures ThreadRows(Apply(db, InsertPost(p, now)), p.thread) == ThreadRows(db, p.thread) + [RowOf(p)]
  {
    hide IsPath, IsId, NextPath, Linked, Indexed, TreePath.Parent, InThread;
    var rows := ThreadRows(db, p.thread);
    NotTaken(db.posts, p);
    AppendedToThread(db.posts, p);
    assert Rows(InThread(db.posts, p.thread) + [p]) == rows + [RowOf(p)];
  }

  lemma NotTaken(posts: seq<Post>, p: Post)
    requires forall q :: q in posts ==> q.id != p.id
    requires !HasPath(Rows(InThread(posts, p.thread)), p.path)
    ensures !Clashes(posts, p)
  {
    hide IsPath, IsId, TreePath.Parent;
    var t := InThread(posts, p.thread);
    forall q | q in posts ensures !(q.thread == p.thread && q.path == p.path) {
      if q.thread == p.thread {
        var i :| 0 <= i < |t| && t[i] == q;
        assert Rows(t)[i].path == q.path;
      }
    }
  }

  lemma AppendedToThread(posts: seq<Post>, p: Post)
    ensures InThread(posts + [p], p.thread) == InThread(posts, p.thread) + [p]
  {
    hide IsPath, IsId;
    assert (posts + [p])[..|posts|] == posts;
  }

  /** No other batch adds, moves or removes a row of any thread. */
  lemma OnlyInsertsAddRows(db: Db, b: Batch, t: Id)
    requires !b.InsertPost?
    ensures ThreadRows(Apply(db, b), t) == ThreadRows(db, t)
  {
    hide IsPath, IsId, InThread, Bump, TreePath.Parent;
    SameRows(db.posts, Apply(db, b).posts, t);
  }

  lemma {:induction false} SameRows(posts: seq<Post>, later: seq<Post>, t: Id)
    requires |posts| == |later|
    requires forall i :: 0 <= i < |posts| ==> posts[i].thread == later[i].thread && RowOf(posts[i]) == RowOf(later[i])
    ensures Rows(InThread(posts, t)) == Rows(InThread(later, t))
  {
    hide IsPath, IsId, RowOf;
    if |posts| > 0 {
      var n := |posts| - 1;
      SameRows(posts[..n], later[..n], t);
      if posts[n].thread == t {
        OneMoreOfThread(InThread(posts[..n], t), posts[n]);
        OneMoreOfThread(InThread(later[..n], t), later[n]);
      }
    }
  }

  lemma OneMoreOfThread(s: seq<Post>, p: Post)
    ensures Rows(s + [p]) == Rows(s) + [RowOf(p)]
  {
    hide IsPath, IsId, RowOf;
  }

  // ---- a thread of the database is a reply history ------------------------------------------

  function Replay(db: Db, batches: seq<Batch>): Db {
    if |batches| == 0 then db else var n := |batches| - 1; Apply(Replay(db, batches[..n]), batches[n])
  }

  /** An insert built from a probe of its thread made since the thread had `from` rows. */
  ghost predicate FromProbe(db: Db, p: Post, from: nat) {
    exists seen :: from <= seen && Commits(ThreadRows(db, p.thread), RowOf(p), seen)
  }

  /** Every post inserted into thread `t` was given its path by the reply protocol. */
  ghost predicate RepliesFromProbes(db: Db, batches: seq<Batch>, t: Id) {
    |batches| > 0 ==>
      var n := |batches| - 1;
      && RepliesFromProbes(db, batches[..n], t)
      && (batches[n].InsertPost? && batches[n].post.thread == t ==>
            FromProbe(Replay(db, batches[..n]), batches[n].post, |ThreadRows(db, t)|))
  }

  lemma {:induction false} ReplayIsSound(db: Db, batches: seq<Batch>)
    requires Sound(db)
    ensures Sound(Replay(db, batches))
  {
    hide Sound, Apply;
    if |batches| > 0 {
      var n := |batches| - 1;
      ReplayIsSound(db, batches[..n]);
      ApplyKeepsSound(Replay(db, batches[..n]), batches[n]);
    }
  }

  /** One batch takes a thread's rows as far as one commit of the reply protocol, or leaves them. */
  lemma OneBatch(db: Db, b: Batch, t: Id)
    ensures var rows, after := ThreadRows(db, t), ThreadRows(Apply(db, b), t);
            after == rows || (b.InsertPost? && b.post.thread == t && after == rows + [RowOf(b.post)])
  {
    hide IsPath, IsId, TreePath.Parent, InThread;
    if b.InsertPost? {
      if b.post.thread == t {
        AppendedToThread(db.posts, b.post);
        OneMoreOfThread(InThread(db.posts, t), b.post);
      } else {
        OneMorePost(db.posts, b.post, t);
      }
    } else {
      OnlyInsertsAddRows(db, b, t);
    }
  }

  /** Whatever else is written between them, inserts built from earlier probes make each thread of
      the database a history of the reply protocol, over the rows it had to begin with. */
  lemma {:induction false} ThreadIsAHistory(db: Db, batches: seq<Batch>, t: Id)
    requires IsTable(ThreadRows(db, t)) && RepliesFromProbes(db, batches, t)
    ensures History(ThreadRows(db, t), ThreadRows(Replay(db, batches), t))
  {
    hide IsTable, Apply, Commits, IsPath, ThreadRows;
    var base := ThreadRows(db, t);
    if |batches| > 0 {
      var n := |batches| - 1;
      var before := Replay(db, batches[..n]);
      ThreadIsAHistory(db, batches[..n], t);
      OneBatch(before, batches[n], t);
      if ThreadRows(Apply(before, batches[n]), t) != ThreadRows(before, t) {
        var p := batches[n].post;
        var seen :| |base| <= seen && Commits(ThreadRows(before, t), RowOf(p), seen);
        HistoryExtends(base, ThreadRows(before, t), RowOf(p), seen);
      }
    }
  }
}
