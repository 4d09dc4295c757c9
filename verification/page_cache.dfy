// The version-keyed page cache (`render_thread`, crates/app/src/lib.rs). A request reads the
// thread's version, looks the page up under a key made from it, and on a miss reads the page and
// stores it under the version it read first. Between any two of these steps others may write,
// fill the cache, or have entries evicted.
module PageCache {
  import opened Common
  import opened TreePath
  import opened PublicId
  import opened IdText
  import opened CacheKey
  import opened Database
  import opened ReplyTree
  import Paging
  import Text

  const PAGE_SIZE: nat := 200

  // ---- what an uncached request answers -----------------------------------------------------

  /** One page as the store returns it. */
  datatype Page = Page(space: Space, thread: Thread, posts: seq<Post>, next: Option<Path>)

  /** The baked page: what a given template revision makes of it. */
  datatype Html = Html(revision: nat, page: Page)

  datatype Answer =
    | BadId(error: IdError)
    | BadCursor
    | Moved(to: string)
    | NotFound
    | HiddenThread
    | Rendered(html: Html)
    | Failed

  /** The posts at these positions, in this order. */
  function At(posts: seq<Post>, paths: seq<Path>): seq<Post> {
    if |posts| == 0 || |paths| == 0 then []
    else
      (if exists p :: p in posts && p.path == paths[0] then [FirstAt(posts, paths[0])] else []) + At(posts, paths[1..])
  }

  function FirstAt(posts: seq<Post>, path: Path): (p: Post)
    requires exists p :: p in posts && p.path == path
    ensures p in posts && p.path == path
  {
    if posts[0].path == path then posts[0] else FirstAt(posts[1..], path)
  }

  function PageOf(db: Db, t: Id, after: Option<Path>): Page
    requires Linked(db) && t in db.threads
  {
    var posts := InThread(db.posts, t);
    var read := Paging.ThreadPage(PathsOf(posts), after, PAGE_SIZE);
    Page(db.spaces[db.threads[t].space], db.threads[t], At(posts, read.posts), read.next)
  }

  lemma {:induction false} ShowsEveryPath(posts: seq<Post>, paths: seq<Path>)
    requires forall q :: q in paths ==> q in PathsOf(posts)
    ensures var shown := At(posts, paths);
            && PathsOf(shown) == paths
            && forall p :: p in shown ==> p in posts
  {
    hide IsPath;
    if |paths| > 0 {
      Stored(posts, paths[0]);
      ShowsEveryPath(posts, paths[1..]);
      ShownFirst(FirstAt(posts, paths[0]), At(posts, paths[1..]), paths);
    } else {
      assert PathsOf([]) == [];
    }
  }

  lemma Stored(posts: seq<Post>, q: Path)
    requires q in PathsOf(posts)
    ensures |posts| > 0 && exists p :: p in posts && p.path == q
  {
    hide IsPath;
    var i :| 0 <= i < |posts| && PathsOf(posts)[i] == q;
    assert posts[i] in posts;
  }

  lemma ShownFirst(p: Post, rest: seq<Post>, paths: seq<Path>)
    requires |paths| > 0 && p.path == paths[0] && PathsOf(rest) == paths[1..]
    ensures PathsOf([p] + rest) == paths
  {
    hide IsPath;
    var all := [p] + rest;
    forall i | 0 <= i < |all| ensures PathsOf(all)[i] == paths[i] {
      if i > 0 { assert all[i] == rest[i - 1] && PathsOf(rest)[i - 1] == paths[1..][i - 1]; }
    }
  }

  /** Stored posts of the thread, in path order past the cursor, with the cursor of the page after,
      under the thread's own row. */
  ghost predicate Shows(db: Db, t: Id, after: Option<Path>, page: Page) {
    && t in db.threads && page.thread == db.threads[t]
    && PathsOf(page.posts) == Paging.ThreadPage(PathsOf(InThread(db.posts, t)), after, PAGE_SIZE).posts
    && page.next == Paging.ThreadPage(PathsOf(InThread(db.posts, t)), after, PAGE_SIZE).next
    && Paging.Ascending(PathsOf(page.posts))
    && forall p :: p in page.posts ==> p in db.posts && p.thread == t
  }

  /** In every state of the database a page shows its thread. */
  lemma PageShowsStoredPosts(db: Db, t: Id, after: Option<Path>)
    requires Sound(db) && t in db.threads
    ensures Shows(db, t, after, PageOf(db, t, after))
    ensures PageOf(db, t, after).space == db.spaces[db.threads[t].space]
  {
    hide IsPath, Paging.ThreadPage, At, InThread, Indexed;
    var posts := InThread(db.posts, t);
    ThreadIsDistinct(db.posts, t);
    Paging.PageSplits(PathsOf(posts), after, PAGE_SIZE);
    ShowsEveryPath(posts, Paging.ThreadPage(PathsOf(posts), after, PAGE_SIZE).posts);
  }

  function Respond(db: Db, t: Id, after: Option<Path>, revision: nat): (a: Answer)
    requires Linked(db)
    ensures a.NotFound? || a.HiddenThread? || a.Rendered?
  {
    if t !in db.threads then NotFound
    else if db.threads[t].state in {Hidden, Deleted} then HiddenThread
    else Rendered(Html(revision, PageOf(db, t, after)))
  }

  /** What may be answered of this state: not found exactly when the thread is not there, hidden
      exactly when it is hidden or deleted, and a page of it exactly in its other states. */
  predicate Decides(db: Db, t: Id, revision: nat, a: Answer) {
    && (a == NotFound <==> t !in db.threads)
    && (a == HiddenThread <==> t in db.threads && db.threads[t].state in {Hidden, Deleted})
    && (a.Rendered? <==> t in db.threads && db.threads[t].state in {Visible, Pinned, Locked})
    && (a.Rendered? ==> a.html.revision == revision)
  }

  /** A page baked from this state: of a thread that is not hidden, showing it and its space. */
  ghost predicate BakedFrom(db: Db, t: Id, after: Option<Path>, revision: nat, html: Html)
    requires Linked(db)
  {
    && t in db.threads && db.threads[t].state in {Visible, Pinned, Locked}
    && html.revision == revision && Shows(db, t, after, html.page) && html.page.space == db.spaces[db.threads[t].space]
  }

  lemma RespondDecides(db: Db, t: Id, after: Option<Path>, revision: nat)
    requires Sound(db)
    ensures Decides(db, t, revision, Respond(db, t, after, revision))
    ensures var a := Respond(db, t, after, revision);
            a.Rendered? ==> BakedFrom(db, t, after, revision, a.html)
  {
    hide Indexed, Shows, PageOf;
    if t in db.threads {
      PageShowsStoredPosts(db, t, after);
      match db.threads[t].state {
        case Visible =>
        case Pinned =>
        case Locked =>
        case Hidden =>
        case Deleted =>
      }
    }
  }

  // ---- timelines ----------------------------------------------------------------------------

  /** Every state the database has been in. */
  ghost predicate Timeline(past: seq<Db>) {
    && |past| > 0
    && (forall i :: 0 <= i < |past| ==> Sound(past[i]))
    && forall i :: 0 < i < |past| ==> Follows(past[i - 1], past[i])
  }

  ghost predicate Follows(db: Db, next: Db) {
    exists b :: next == Apply(db, b)
  }

  lemma {:induction false} VersionsAdvance(past: seq<Db>, i: nat, j: nat, t: Id)
    requires Timeline(past) && i <= j < |past| && t in past[i].threads
    ensures t in past[j].threads && past[i].threads[t].version <= past[j].threads[t].version
    ensures past[i].threads[t].version == past[j].threads[t].version ==> Content(past[i], t) == Content(past[j], t)
    decreases j - i
  {
    hide Sound, Apply, InThread;
    if i < j {
      VersionsAdvance(past, i, j - 1, t);
      assert Follows(past[j - 1], past[j]);
      var b :| past[j] == Apply(past[j - 1], b);
      EveryChangeBumps(past[j - 1], b, t);
    }
  }

  function SpaceOf(db: Db, t: Id): Space
    requires Linked(db) && t in db.threads
  {
    db.spaces[db.threads[t].space]
  }

  /** Equal apart from the space's row. */
  predicate SameButSpace(a: Answer, b: Answer) {
    match (a, b)
    case (Rendered(x), Rendered(y)) => x == y.(page := y.page.(space := x.page.space))
    case _ => a == b
  }

  /** The answer was made at state `i` and stands for state `j`: thread and posts are those of `j`,
      and the whole answer is exactly when the row of the thread's space is the same at both. */
  ghost predicate Answers(past: seq<Db>, i: nat, j: nat, t: Id, after: Option<Path>, revision: nat, a: Answer)
    requires Timeline(past)
  {
    && i <= j < |past| && a == Respond(past[i], t, after, revision)
    && SameButSpace(a, Respond(past[j], t, after, revision))
    && Decides(past[j], t, revision, a)
    && (a.Rendered? ==>
          && t in past[i].threads && t in past[j].threads
          && BakedFrom(past[i], t, after, revision, a.html) && Shows(past[j], t, after, a.html.page)
          && (a == Respond(past[j], t, after, revision) <==> SpaceOf(past[i], t) == SpaceOf(past[j], t)))
  }

  /** It stands for some state since `start`. */
  ghost predicate AnsweredSince(past: seq<Db>, start: nat, t: Id, after: Option<Path>, revision: nat, a: Answer)
    requires Timeline(past)
  {
    exists i, j :: start <= j && Answers(past, i, j, t, after, revision, a)
  }

  /** The answer is one for this state: of the right kind and, if it is a page, showing it. */
  ghost predicate StandsFor(db: Db, t: Id, after: Option<Path>, revision: nat, a: Answer) {
    Decides(db, t, revision, a) && (a.Rendered? ==> Shows(db, t, after, a.html.page))
  }

  ghost predicate StandsSince(past: seq<Db>, start: nat, t: Id, after: Option<Path>, revision: nat, a: Answer) {
    exists j :: start <= j < |past| && StandsFor(past[j], t, after, revision, a)
  }

  lemma AnswerStands(past: seq<Db>, start: nat, t: Id, after: Option<Path>, revision: nat, a: Answer)
    requires Timeline(past) && AnsweredSince(past, start, t, after, revision, a)
    ensures StandsSince(past, start, t, after, revision, a)
  {
    hide Timeline, Respond, Shows, Decides, SameButSpace, BakedFrom;
    var i, j :| start <= j && Answers(past, i, j, t, after, revision, a);
    assert StandsFor(past[j], t, after, revision, a);
  }

  /** The row of the thread's space stays as it is across this step. */
  predicate SpaceStill(db: Db, next: Db, t: Id) {
    t in db.threads ==>
      var s := db.threads[t].space;
      s in db.spaces && s in next.spaces ==> db.spaces[s] == next.spaces[s]
  }

  /** As long as nobody edits the space the thread is in, an equal version is the whole page. */
  lemma {:induction false} UneditedSpaceLasts(past: seq<Db>, i: nat, j: nat, t: Id)
    requires Timeline(past) && i <= j < |past| && t in past[i].threads && t in past[j].threads
    requires past[i].threads[t].version == past[j].threads[t].version
    requires forall k :: i < k <= j ==> SpaceStill(past[k - 1], past[k], t)
    ensures SpaceOf(past[i], t) == SpaceOf(past[j], t)
    decreases j - i
  {
    hide Apply, InThread, Indexed;
    if i < j {
      VersionsAdvance(past, i, j - 1, t);
      VersionsAdvance(past, j - 1, j, t);
      UneditedSpaceLasts(past, i, j - 1, t);
      assert SpaceStill(past[j - 1], past[j], t);
    }
  }

  // ---- cache entries ------------------------------------------------------------------------

  /** State `i` answered with this page when its thread was at least at the version in the key; so
      nothing is ever stored of a hidden thread. */
  ghost predicate MadeAt(past: seq<Db>, i: nat, k: Parts, html: Html)
    requires Timeline(past) && i < |past|
  {
    && (k.after.Some? ==> IsPath(k.after.value))
    && k.thread in past[i].threads && k.version <= past[i].threads[k.thread].version
    && Respond(past[i], k.thread, k.after, k.revision) == Rendered(html)
    && BakedFrom(past[i], k.thread, k.after, k.revision, html)
  }

  ghost predicate Backed(past: seq<Db>, key: string, html: Html)
    requires Timeline(past)
  {
    exists k: Parts, i: nat :: ThreadKey(k) == Some(key) && i < |past| && MadeAt(past, i, k, html)
  }

  ghost predicate CacheBacked(past: seq<Db>, cache: map<string, Html>)
    requires Timeline(past)
  {
    forall key :: key in cache ==> Backed(past, key, cache[key])
  }

  lemma BackingLasts(past: seq<Db>, db: Db, key: string, html: Html)
    requires Timeline(past) && Timeline(past + [db]) && Backed(past, key, html)
    ensures Backed(past + [db], key, html)
  {
    hide Respond, ThreadKey;
    var k: Parts, i: nat :| ThreadKey(k) == Some(key) && i < |past| && MadeAt(past, i, k, html);
    assert (past + [db])[i] == past[i];
    assert MadeAt(past + [db], i, k, html);
  }

  /** A hit under the version current at `now` is the page of that state, or of a later one. */
  lemma HitAgrees(past: seq<Db>, now: nat, k: Parts, html: Html)
    requires Timeline(past) && now < |past| && (k.after.Some? ==> IsPath(k.after.value))
    requires k.thread in past[now].threads && past[now].threads[k.thread].version == k.version
    requires ThreadKey(k).Some? && Backed(past, ThreadKey(k).value, html)
    ensures AnsweredSince(past, now, k.thread, k.after, k.revision, Rendered(html))
  {
    hide ThreadKey, Content, Timeline, Answers, Respond;
    var l: Parts, i: nat :| ThreadKey(l) == ThreadKey(k) && i < |past| && MadeAt(past, i, l, html);
    KeysAreInjective(k, l);
    if i >= now {
      AnswersItself(past, i, k.thread, k.after, k.revision);
      assert Answers(past, i, i, k.thread, k.after, k.revision, Rendered(html));
    } else {
      VersionsAdvance(past, i, now, k.thread);
      SameContentSamePage(past, i, now, k, html);
      assert Answers(past, i, now, k.thread, k.after, k.revision, Rendered(html));
    }
  }

  lemma AnswersItself(past: seq<Db>, i: nat, t: Id, after: Option<Path>, revision: nat)
    requires Timeline(past) && i < |past|
    ensures Answers(past, i, i, t, after, revision, Respond(past[i], t, after, revision))
  {
    hide Shows, Indexed, Follows, PageOf;
    if t in past[i].threads { PageShowsStoredPosts(past[i], t, after); }
    RespondDecides(past[i], t, after, revision);
  }

  lemma SameContentSamePage(past: seq<Db>, i: nat, now: nat, k: Parts, html: Html)
    requires Timeline(past) && i <= now < |past| && MadeAt(past, i, k, html)
    requires k.thread in past[now].threads && Content(past[i], k.thread) == Content(past[now], k.thread)
    ensures Answers(past, i, now, k.thread, k.after, k.revision, Rendered(html))
  {
    hide InThread, At, PathsOf, Apply, Paging.ThreadPage, Indexed;
    assert Sound(past[i]) && Sound(past[now]);
    PageShowsStoredPosts(past[now], k.thread, k.after);
  }

  lemma AnswerLasts(past: seq<Db>, more: seq<Db>, i: nat, j: nat, t: Id, after: Option<Path>, revision: nat, a: Answer)
    requires Timeline(past) && Timeline(more) && past <= more && Answers(past, i, j, t, after, revision, a)
    ensures Answers(more, i, j, t, after, revision, a)
  {
    hide Timeline, Respond, Shows;
    assert past[i] == more[i] && past[j] == more[j];
  }

  lemma ReadServes(past: seq<Db>, t: Id, after: Option<Path>, revision: nat)
    requires Timeline(past)
    ensures |past| > 0
    ensures var now: nat := |past| - 1;
            Answers(past, now, now, t, after, revision, Respond(past[now], t, after, revision))
  {
    hide Answers, Respond;
    AnswersItself(past, |past| - 1, t, after, revision);
  }

  lemma ServedSince(past: seq<Db>, start: nat, since: nat, t: Id, after: Option<Path>, revision: nat, a: Answer)
    requires Timeline(past) && start <= since && AnsweredSince(past, since, t, after, revision, a)
    ensures AnsweredSince(past, start, t, after, revision, a) && StandsSince(past, start, t, after, revision, a)
  {
    hide Timeline, Answers, StandsSince;
    var i, j :| since <= j && Answers(past, i, j, t, after, revision, a);
    assert AnsweredSince(past, start, t, after, revision, a);
    AnswerStands(past, start, t, after, revision, a);
  }

  lemma FreshPage(past: seq<Db>, lookedUp: seq<Db>, read: seq<Db>, k: Parts, html: Html)
    requires Timeline(past) && Timeline(lookedUp) && Timeline(read) && lookedUp <= read <= past
    requires k.after.Some? ==> IsPath(k.after.value)
    requires var now := lookedUp[|lookedUp| - 1]; k.thread in now.threads && now.threads[k.thread].version == k.version
    requires Respond(read[|read| - 1], k.thread, k.after, k.revision) == Rendered(html)
    ensures MadeAt(past, |read| - 1, k, html)
  {
    hide Apply, Respond, InThread, Sound, Follows, Shows;
    RespondDecides(past[|read| - 1], k.thread, k.after, k.revision);
    assert past[|read| - 1] == read[|read| - 1] && past[|lookedUp| - 1] == lookedUp[|lookedUp| - 1];
    VersionsAdvance(past, |lookedUp| - 1, |read| - 1, k.thread);
  }

  /** Where another spelling of an id is sent. */
  function Canonical(t: Id, slug: Option<string>): string {
    "/t/" + t + (match slug case Some(s) => "/" + s case None => "")
  }

  /** An empty cursor asks for the first page. */
  function AfterCursor(cursor: string): Option<Path>
    requires cursor == "" || IsPath(cursor)
  {
    if cursor == "" then None else Some(cursor)
  }

  /** A redirected request is not redirected again. */
  lemma RedirectSettles(id: string)
    requires Parsed(id).Ok?
    ensures Parsed(Parsed(id).value) == Parsed(id)
  {
    TextRoundTrip(Parsed(id).value);
  }

  /** The key a request makes from the version it finds in this state, if it can make one. */
  function KeyAt(now: Db, host: Option<string>, t: Id, after: Option<Path>, revision: nat): (key: Option<Parts>)
    ensures key.Some? ==> ThreadKey(key.value).Some?
  {
    if t !in now.threads || host.None? then None
    else
      var k := Parts(host.value, t, now.threads[t].version, revision, after);
      if ThreadKey(k).Some? then Some(k) else None
  }

  /** A hit under the key of the version just looked up. */
  lemma HitServes(past: seq<Db>, cache: map<string, Html>, lookedUp: seq<Db>, host: Option<string>, t: Id, after: Option<Path>,
                  revision: nat)
    requires Timeline(past) && Timeline(lookedUp) && |lookedUp| > 0 && lookedUp <= past && CacheBacked(past, cache)
    requires var key := KeyAt(lookedUp[|lookedUp| - 1], host, t, after, revision);
             key.Some? && ThreadKey(key.value).value in cache
    ensures var key := KeyAt(lookedUp[|lookedUp| - 1], host, t, after, revision).value;
            AnsweredSince(past, |lookedUp| - 1, t, after, revision, Rendered(cache[ThreadKey(key).value]))
  {
    hide ThreadKey, Apply, Respond, Answers, Follows, Sound, Shows;
    assert past[|lookedUp| - 1] == lookedUp[|lookedUp| - 1];
    var k := KeyAt(lookedUp[|lookedUp| - 1], host, t, after, revision).value;
    HitAgrees(past, |lookedUp| - 1, k, cache[ThreadKey(k).value]);
  }

  // ---- the handler --------------------------------------------------------------------------

  class Server {
    var past: seq<Db>            // the last one is the database now
    var cache: map<string, Html>
    ghost var failures: nat      // how many reads have failed

    constructor ()
      ensures Valid()
    {
      past, cache, failures := [Db(map[], [], map[])], map[], 0;
    }

    ghost predicate Valid()
      reads this
    {
      Timeline(past) && CacheBacked(past, cache)
    }

    function Now(): (db: Db)
      requires Valid()
      reads this
      ensures Sound(db)
    {
      past[|past| - 1]
    }

    method Commit(b: Batch)
      requires Valid()
      modifies this`past
      ensures Valid() && past == old(past) + [Apply(old(Now()), b)]
    {
      ghost var before, filled := past, cache;
      var db := Apply(Now(), b);
      ApplyKeepsSound(Now(), b);
      past := past + [db];
      OneMoreState(before, b);
      forall key | key in filled ensures Backed(past, key, filled[key]) {
        BackingLasts(before, db, key, filled[key]);
      }
    }

    method Evict(key: string)
      requires Valid()
      modifies this`cache
      ensures Valid() && cache == old(cache) - {key}
    {
      cache := cache - {key};
    }

    /** A page read at state `readAt` may only go under a key with a version looked up no later. */
    method Put(k: Parts, html: Html, ghost readAt: nat)
      requires Valid() && readAt < |past| && MadeAt(past, readAt, k, html) && ThreadKey(k).Some?
      modifies this`cache
      ensures Valid() && cache == old(cache)[ThreadKey(k).value := html]
    {
      assert Backed(past, ThreadKey(k).value, html);
      cache := cache[ThreadKey(k).value := html];
    }

    /** The end of somebody else's request: it looked the version up at one state, read the page
        at a later one, and now stores it. */
    method PutByAnother(host: string, t: Id, after: Option<Path>, revision: nat, lookedUpAt: nat, readAt: nat)
      requires Valid() && lookedUpAt <= readAt < |past|
      modifies this`cache
      ensures Valid()
    {
      if t in past[lookedUpAt].threads {
        var k := Parts(host, t, past[lookedUpAt].threads[t].version, revision, after);
        var answer := Respond(past[readAt], t, after, revision);
        VersionsAdvance(past, lookedUpAt, readAt, t);
        RespondDecides(past[readAt], t, after, revision);
        if answer.Rendered? && ThreadKey(k).Some? {
          Put(k, answer.html, readAt);
        }
      }
    }

    /** Whether the next read fails. */
    method Fails() returns (failed: bool)
      modifies this`failures
      ensures failures == old(failures) + if failed then 1 else 0
    {
      failed := *;
      failures := failures + if failed then 1 else 0;
    }

    /** Anything others do: any number of writes, evictions and stores, in any order. */
    method Others()
      requires Valid()
      modifies this`past, this`cache
      ensures Valid() && old(past) <= past
    {
      var steps: nat :| 0 <= steps;
      for i := 0 to steps
        invariant Valid() && old(past) <= past
      {
        if {
          case true =>
            var b: Batch := *;
            Commit(b);
          case true =>
            var key: string := *;
            Evict(key);
          case true =>
            var host: string, t: Id, after: Option<Path>, revision: nat := *, *, *, *;
            var lookedUpAt: nat, readAt: nat := *, *;
            if lookedUpAt <= readAt < |past| {
              PutByAnother(host, t, after, revision, lookedUpAt, readAt);
            }
        }
      }
    }

    /** The cached page for a key. */
    function Hit(key: Parts): Option<Html>
      requires ThreadKey(key).Some?
      reads this
    {
      if ThreadKey(key).value in cache then Some(cache[ThreadKey(key).value]) else None
    }

    /** The cache, asked under the key of the version looked up before. */
    method FromCache(key: Parts, ghost lookedUp: seq<Db>, ghost host: Option<string>, t: Id, after: Option<Path>, revision: nat)
      returns (hit: Option<Html>)
      requires Valid() && Timeline(lookedUp) && |lookedUp| > 0 && lookedUp <= past
      requires KeyAt(lookedUp[|lookedUp| - 1], host, t, after, revision) == Some(key)
      modifies this`past, this`cache
      ensures Valid() && old(past) <= past
      ensures hit.Some? ==> AnsweredSince(past, |lookedUp| - 1, t, after, revision, Rendered(hit.value))
    {
      hide ThreadKey, KeyAt, Respond, Timeline, CacheBacked, AnsweredSince, Sound, IsId, IsPath;
      Others();
      hit := Hit(key);
      if hit.Some? { HitServes(past, cache, lookedUp, host, t, after, revision); }
    }

    /** The part of `render_thread` past its argument checks. */
    method Serve(host: Option<string>, t: Id, after: Option<Path>, revision: nat) returns (answer: Answer)
      requires Valid()
      modifies this
      ensures Valid() && old(past) <= past
      ensures answer.Failed? ==> failures > old(failures)
      ensures answer.Failed? || AnsweredSince(past, |old(past)| - 1, t, after, revision, answer)
      ensures answer.Failed? || StandsSince(past, |old(past)| - 1, t, after, revision, answer)
    {
      assert |past| > 0;
      ghost var start: nat := |past| - 1;
      hide ThreadKey, KeyAt, Respond, SameButSpace, Timeline, CacheBacked, MadeAt, Answers, AnsweredSince, StandsSince, Sound, IsId,
        IsPath, IsHostname, Shows;
      Others();
      var lookupFailed := Fails();
      ghost var lookedUp := past;
      var key := if lookupFailed then None else KeyAt(Now(), host, t, after, revision);
      if key.Some? {
        var hit := FromCache(key.value, lookedUp, host, t, after, revision);
        if hit.Some? {
          answer := Rendered(hit.value);
          ServedSince(past, start, |lookedUp| - 1, t, after, revision, answer);
          return;
        }
      }
      ghost var since: nat := |past| - 1;
      answer := ReadAndStore(key, lookedUp, host, t, after, revision);
      if !answer.Failed? { ServedSince(past, start, since, t, after, revision, answer); }
    }

    /** A miss: read the page and store it under the key of the version looked up before. */
    method ReadAndStore(key: Option<Parts>, ghost lookedUp: seq<Db>, ghost host: Option<string>,
                        t: Id, after: Option<Path>, revision: nat)
      returns (answer: Answer)
      requires Valid() && Timeline(lookedUp) && lookedUp <= past
      requires key.Some? ==> key == KeyAt(lookedUp[|lookedUp| - 1], host, t, after, revision)
      modifies this
      ensures Valid() && old(past) <= past
      ensures answer.Failed? ==> failures > old(failures)
      ensures answer.Failed? || AnsweredSince(past, |old(past)| - 1, t, after, revision, answer)
    {
      hide ThreadKey, Respond, SameButSpace, Timeline, CacheBacked, MadeAt, Answers;
      Others();
      var readFailed := Fails();
      if readFailed { return Failed; }
      answer := Respond(Now(), t, after, revision);
      ghost var read := past;
      ReadServes(past, t, after, revision);
      Others();
      AnswerLasts(read, past, |read| - 1, |read| - 1, t, after, revision, answer);
      if answer.Rendered? && key.Some? {
        FreshPage(past, lookedUp, read, key.value, answer.html);
        Put(key.value, answer.html, |read| - 1);
      }
    }

    /** `Serve` for a visible thread, with nobody else about and no failures. */
    method ServeAlone(host: string, t: Id, after: Option<Path>, revision: nat) returns (answer: Answer)
      requires Valid() && IsHostname(host) && IsVisible(past[|past| - 1], t)
      modifies this`cache
      ensures Valid() && AnsweredAlone(past, old(cache), cache, host, t, after, revision, answer)
    {
      hide Timeline, CacheBacked, MadeAt, Respond, ThreadKey, Sound, Linked, IsId, IsHostname, IsPath, KeyAt;
      KeyIsMade(past, host, t, after, revision);
      var key := KeyAt(Now(), Some(host), t, after, revision).value;
      var hit := Hit(key);
      if hit.Some? { return Rendered(hit.value); }
      answer := Respond(Now(), t, after, revision);
      Put(key, answer.html, |past| - 1);
    }

    /** `GET /t/{id}` and `/t/{id}/{slug}` with an optional cursor. */
    method RenderThread(host: Option<string>, id: string, slug: Option<string>, cursor: string, revision: nat)
      returns (answer: Answer)
      requires Valid()
      modifies this
      ensures Valid() && old(past) <= past
      ensures Parsed(id).Err? ==> answer == BadId(Parsed(id).error)
      ensures Parsed(id).Ok? && Parsed(id).value != id ==>
        answer == Moved("/t/" + Parsed(id).value + (if slug.Some? then "/" + slug.value else ""))
      ensures Parsed(id) == Ok(id) && cursor != "" && !IsPath(cursor) ==> answer == BadCursor
      ensures answer.Failed? ==> failures > old(failures)
      ensures Parsed(id) == Ok(id) && (cursor == "" || IsPath(cursor)) && !answer.Failed? ==>
        && AnsweredSince(past, |old(past)| - 1, id, if cursor == "" then None else Some(cursor), revision, answer)
        && StandsSince(past, |old(past)| - 1, id, if cursor == "" then None else Some(cursor), revision, answer)
    {
      hide AnsweredSince, StandsSince, ScanFrom, IsId;
      var parsed := IdText.Parse(id);
      if parsed.Err? { return BadId(parsed.error); }
      var t := parsed.value;
      if id != t { return Moved(Canonical(t, slug)); }
      if cursor != "" {
        var p := TreePath.Parse(cursor);
        if p.Err? { return BadCursor; }
      }
      answer := Serve(host, t, AfterCursor(cursor), revision);
    }
  }

  lemma OneMoreState(past: seq<Db>, b: Batch)
    requires Timeline(past)
    ensures Timeline(past + [Apply(past[|past| - 1], b)])
  {
    hide Apply, Sound;
    var last := past[|past| - 1];
    ApplyKeepsSound(last, b);
    var more := past + [Apply(last, b)];
    assert Follows(last, Apply(last, b));
    forall i | 0 < i < |more| ensures Follows(more[i - 1], more[i]) {
      if i < |past| { assert more[i] == past[i] && more[i - 1] == past[i - 1]; }
    }
  }

  // ---- the write a version does not record --------------------------------------------------

  predicate IsVisible(db: Db, t: Id) {
    t in db.threads && db.threads[t].state !in {Hidden, Deleted}
  }

  /** A request alone: the page under its key, or else the current one, which is under it afterwards. */
  ghost predicate AnsweredAlone(past: seq<Db>, cache: map<string, Html>, filled: map<string, Html>,
                                host: string, t: Id, after: Option<Path>, revision: nat, answer: Answer)
    requires Timeline(past)
  {
    var now := past[|past| - 1];
    var key := KeyAt(now, Some(host), t, after, revision);
    && key.Some? && ThreadKey(key.value).Some?
    && var name := ThreadKey(key.value).value;
       if name in cache then answer == Rendered(cache[name]) && filled == cache
       else
         && answer == Respond(now, t, after, revision) && answer.Rendered?
         && filled == cache[name := answer.html]
  }

  /** One request fills the cache, somebody edits the thread's space, and the next request, with
      nothing else in between, looks up the same version and is served the row from before. */
  method ServeAcrossSpaceEdit(s: Server, host: string, t: Id, after: Option<Path>, revision: nat, edit: Batch)
    returns (answer: Answer)
    requires s.Valid() && s.cache == map[] && IsHostname(host) && IsVisible(s.Now(), t)
    requires OnlyEditsSpaceOf(s.Now(), edit, t)
    modifies s
    ensures s.Valid() && s.past == old(s.past) + [Apply(old(s.Now()), edit)]
    ensures answer == Respond(old(s.Now()), t, after, revision) != Respond(s.Now(), t, after, revision)
  {
    hide Timeline, CacheBacked, Respond, ThreadKey, Sound, Linked, Apply, OnlyEditsSpaceOf, IsId, IsHostname, IsPath,
      KeyAt, IsVisible, AnsweredAlone;
    ghost var past, db := s.past, s.Now();
    EditKeepsKey(db, edit, host, t, after, revision);
    var first := s.ServeAlone(host, t, after, revision);
    ghost var filled := s.cache;
    s.Commit(edit);
    answer := s.ServeAlone(host, t, after, revision);
    SecondIsServedTheFirst(past, s.past, filled, s.cache, edit, host, t, after, revision, first, answer);
  }

  lemma SecondIsServedTheFirst(past: seq<Db>, edited: seq<Db>, filled: map<string, Html>, later: map<string, Html>, edit: Batch,
                               host: string, t: Id, after: Option<Path>, revision: nat, first: Answer, answer: Answer)
    requires Timeline(past) && Timeline(edited) && IsHostname(host) && IsVisible(past[|past| - 1], t)
    requires Sound(past[|past| - 1]) && OnlyEditsSpaceOf(past[|past| - 1], edit, t)
    requires edited == past + [Apply(past[|past| - 1], edit)]
    requires AnsweredAlone(past, map[], filled, host, t, after, revision, first)
    requires AnsweredAlone(edited, filled, later, host, t, after, revision, answer)
    ensures answer == Respond(past[|past| - 1], t, after, revision) != Respond(edited[|edited| - 1], t, after, revision)
  {
    assert |past| > 0;
    hide Timeline, Respond, ThreadKey, Sound, Apply, OnlyEditsSpaceOf, IsId, IsHostname, IsPath, KeyAt, IsVisible;
    EditKeepsKey(past[|past| - 1], edit, host, t, after, revision);
  }

  lemma KeyIsMade(past: seq<Db>, host: string, t: Id, after: Option<Path>, revision: nat)
    requires Timeline(past) && IsHostname(host) && IsVisible(past[|past| - 1], t)
    ensures |past| > 0
    ensures var now := past[|past| - 1];
            var key, first := KeyAt(now, Some(host), t, after, revision), Respond(now, t, after, revision);
            && Linked(now) && key.Some? && ThreadKey(key.value).Some? && first.Rendered?
            && MadeAt(past, |past| - 1, key.value, first.html)
  {
    hide PageOf, Indexed, Follows, Shows;
    RespondDecides(past[|past| - 1], t, after, revision);
  }

  lemma EditKeepsKey(db: Db, edit: Batch, host: string, t: Id, after: Option<Path>, revision: nat)
    requires Sound(db) && OnlyEditsSpaceOf(db, edit, t) && IsHostname(host) && IsVisible(db, t)
    ensures Sound(Apply(db, edit)) && IsVisible(Apply(db, edit), t)
    ensures KeyAt(Apply(db, edit), Some(host), t, after, revision) == KeyAt(db, Some(host), t, after, revision)
    ensures Respond(Apply(db, edit), t, after, revision) != Respond(db, t, after, revision)
  {
    hide InThread, At, Paging.ThreadPage, Indexed, PathsOf;
    ApplyKeepsSound(db, edit);
  }

  /** There is such a write: renaming the space of a thread, in a database of one of each. */
  lemma RenamingASpaceGoesUnseen(t: Id)
    ensures var thread, space := Thread("title", None, 0, Visible, 0, 0, 0), Space("a/", "A", "hot", 0, "{}");
            var db := Db(map[t := thread], [], map[0 := space]);
            Sound(db) && OnlyEditsSpaceOf(db, UpdateSpace(0, "B", "hot", 0, "{}"), t)
  {
    hide IsId;
  }

  // ---- an edit is shown from its commit on ---------------------------------------------------

  /** The writes behind a timeline, one between each state and the next. */
  predicate Written(past: seq<Db>, batches: seq<Batch>) {
    |past| == |batches| + 1 && forall i :: 0 <= i < |batches| ==> past[i + 1] == Apply(past[i], batches[i])
  }

  /** No batch from the one numbered `from` on writes the body of this post. */
  predicate Unedited(batches: seq<Batch>, from: nat, id: string) {
    forall k :: from <= k < |batches| ==> !(batches[k].UpdatePostBody? && batches[k].id == id)
  }

  /** The first of these batches writes this body, and no later one another. */
  predicate StartsWithEdit(batches: seq<Batch>, id: string, html: string, now: int) {
    |batches| > 0 && batches[0] == UpdatePostBody(id, html, now) && Unedited(batches, 1, id)
  }

  predicate HoldsPost(db: Db, t: Id, id: string) {
    exists p :: p in db.posts && p.id == id && p.thread == t
  }

  predicate Edited(p: Post, id: string, html: string, now: int) {
    p.id == id && p.html == html && p.editedAt == Some(now)
  }

  lemma {:induction false} BodyStands(past: seq<Db>, batches: seq<Batch>, i: nat, j: nat, n: nat, id: string, html: string, now: int)
    requires Written(past, batches) && Unedited(batches, i, id) && i <= j < |past|
    requires n < |past[i].posts| && Edited(past[i].posts[n], id, html, now)
    ensures n < |past[j].posts| && Edited(past[j].posts[n], id, html, now) && past[j].posts[n].thread == past[i].posts[n].thread
    decreases j - i
  {
    hide Apply, IsPath, IsId;
    if i < j {
      BodyStands(past, batches, i, j - 1, n, id, html, now);
      assert past[j - 1 + 1] == Apply(past[j - 1], batches[j - 1]);
      PostColumns(past[j - 1], batches[j - 1], n);
    }
  }

  /** The post, as edited, is in this state, and a page that shows the state shows it so: on the page
      exactly when its path is in the page's range, and under that id nothing else. */
  ghost predicate ShowsEdit(db: Db, t: Id, after: Option<Path>, page: Page, id: string, html: string, now: int) {
    exists p :: p in db.posts && p.thread == t && Edited(p, id, html, now)
      && (p in page.posts <==> p.path in Paging.ThreadPage(PathsOf(InThread(db.posts, t)), after, PAGE_SIZE).posts)
      && forall q :: q in page.posts && q.id == id ==> q == p
  }

  ghost predicate EditShownSince(past: seq<Db>, start: nat, t: Id, after: Option<Path>, page: Page, id: string, html: string, now: int) {
    exists j :: start <= j < |past| && ShowsEdit(past[j], t, after, page, id, html, now)
  }

  lemma PageShowsEdit(db: Db, t: Id, after: Option<Path>, page: Page, n: nat, id: string, html: string, now: int)
    requires Sound(db) && Shows(db, t, after, page)
    requires n < |db.posts| && db.posts[n].thread == t && Edited(db.posts[n], id, html, now)
    ensures ShowsEdit(db, t, after, page, id, html, now)
  {
    hide IsPath, IsId, InThread, Paging.ThreadPage, Linked;
    var p := db.posts[n];
    assert p in db.posts;
    var listed := PathsOf(page.posts);
    forall q | q in page.posts && (q.id == id || q.path == p.path) ensures q == p {
      var m :| 0 <= m < |db.posts| && db.posts[m] == q;
    }
    if p in page.posts {
      var k :| 0 <= k < |page.posts| && page.posts[k] == p;
      assert listed[k] == p.path;
    }
    if p.path in listed {
      var k :| 0 <= k < |listed| && listed[k] == p.path;
      assert page.posts[k] in page.posts && page.posts[k].path == p.path;
    }
  }

  /** However requests, writes and the cache interleave: once an edit of a post is committed, every
      page answered after it shows a state where the post reads as edited, and the post on it reads
      so, unless it has been edited again. `batches` is what was written from state `n` on. */
  lemma EditIsShown(past: seq<Db>, n: nat, batches: seq<Batch>, t: Id, after: Option<Path>, revision: nat, a: Answer,
                    id: string, html: string, now: int)
    requires Timeline(past) && n < |past| && Written(past[n..], batches) && StartsWithEdit(batches, id, html, now)
    requires HoldsPost(past[n], t, id)
    requires a.Rendered? && StandsSince(past, n + 1, t, after, revision, a)
    ensures EditShownSince(past, n + 1, t, after, a.html.page, id, html, now)
  {
    hide Apply, IsPath, IsId, Shows, ShowsEdit, Follows, Sound, Decides;
    var since := past[n..];
    var p :| p in past[n].posts && p.id == id && p.thread == t;
    var k :| 0 <= k < |past[n].posts| && past[n].posts[k] == p;
    assert since[1] == Apply(since[0], batches[0]);
    PostColumns(since[0], batches[0], k);
    var j :| n + 1 <= j < |past| && StandsFor(past[j], t, after, revision, a);
    BodyStands(since, batches, 1, j - n, k, id, html, now);
    PageShowsEdit(past[j], t, after, a.html.page, k, id, html, now);
  }

  /** By every account of what was written in which nobody edits the post again, the page shows it. */
  ghost predicate ShownUntilRewritten(past: seq<Db>, n: nat, t: Id, after: Option<Path>, page: Page, id: string, html: string, now: int)
    requires n < |past|
  {
    forall batches :: Written(past[n..], batches) && StartsWithEdit(batches, id, html, now)
      ==> EditShownSince(past, n + 1, t, after, page, id, html, now)
  }

  lemma EditIsShownUntilRewritten(past: seq<Db>, n: nat, t: Id, after: Option<Path>, revision: nat, a: Answer,
                                  id: string, html: string, now: int)
    requires Timeline(past) && n < |past| && HoldsPost(past[n], t, id)
    requires a.Rendered? && StandsSince(past, n + 1, t, after, revision, a)
    ensures ShownUntilRewritten(past, n, t, after, a.html.page, id, html, now)
  {
    hide Timeline, HoldsPost, StandsSince, Written, StartsWithEdit, EditShownSince;
    forall batches | Written(past[n..], batches) && StartsWithEdit(batches, id, html, now)
      ensures EditShownSince(past, n + 1, t, after, a.html.page, id, html, now)
    {
      EditIsShown(past, n, batches, t, after, revision, a, id, html, now);
    }
  }

  /** With nothing written since, that state is the edited one. */
  lemma EditIsShownAtOnce(past: seq<Db>, n: nat, t: Id, after: Option<Path>, revision: nat, a: Answer,
                          id: string, html: string, now: int)
    requires Timeline(past) && |past| == n + 2 && past[n + 1] == Apply(past[n], UpdatePostBody(id, html, now))
    requires HoldsPost(past[n], t, id)
    requires a.Rendered? && StandsSince(past, n + 1, t, after, revision, a)
    ensures ShowsEdit(past[n + 1], t, after, a.html.page, id, html, now)
  {
    hide Apply, ShowsEdit, Timeline, StandsSince, HoldsPost;
    EditIsShown(past, n, [UpdatePostBody(id, html, now)], t, after, revision, a, id, html, now);
  }

  lemma EditIsServed(before: seq<Db>, past: seq<Db>, t: Id, after: Option<Path>, revision: nat, a: Answer,
                     id: string, html: string, now: int)
    requires Timeline(past) && |before| > 0 && HoldsPost(before[|before| - 1], t, id)
    requires before + [Apply(before[|before| - 1], UpdatePostBody(id, html, now))] <= past
    requires a.Rendered? && StandsSince(past, |before|, t, after, revision, a)
    ensures ShownUntilRewritten(past, |before| - 1, t, after, a.html.page, id, html, now)
    ensures |past| == |before| + 1 ==> ShowsEdit(past[|before|], t, after, a.html.page, id, html, now)
  {
    hide Timeline, HoldsPost, StandsSince, ShownUntilRewritten, ShowsEdit, Apply;
    var n: nat := |before| - 1;
    assert past[n] == before[n];
    EditIsShownUntilRewritten(past, n, t, after, revision, a, id, html, now);
    if |past| == n + 2 { EditIsShownAtOnce(past, n, t, after, revision, a, id, html, now); }
  }

  /** Edit a post and then ask for its page, while others do anything: until somebody edits it again,
      a page answered shows the edit. */
  method ServeAfterEdit(s: Server, host: Option<string>, t: Id, after: Option<Path>, revision: nat,
                        id: string, html: string, now: int)
    returns (answer: Answer)
    requires s.Valid() && HoldsPost(s.Now(), t, id)
    modifies s
    ensures s.Valid() && old(s.past) + [Apply(old(s.Now()), UpdatePostBody(id, html, now))] <= s.past
    ensures answer.Failed? ==> s.failures > old(s.failures)
    ensures answer.Rendered? ==> ShownUntilRewritten(s.past, |old(s.past)| - 1, t, after, answer.html.page, id, html, now)
    ensures answer.Rendered? && |s.past| == |old(s.past)| + 1 ==>
      ShowsEdit(s.past[|s.past| - 1], t, after, answer.html.page, id, html, now)
  {
    assert |s.past| > 0;
    ghost var before := s.past;
    hide Timeline, CacheBacked, Respond, Sound, Apply, ShowsEdit, AnsweredSince, StandsSince, Written, StartsWithEdit,
      ShownUntilRewritten, HoldsPost, IsHostname;
    s.Commit(UpdatePostBody(id, html, now));
    answer := s.Serve(host, t, after, revision);
    if answer.Rendered? { EditIsServed(before, s.past, t, after, revision, answer, id, html, now); }
  }

  // ---- reading on while the database changes ------------------------------------------------

  lemma {:induction false} TimelineIsReplay(past: seq<Db>, batches: seq<Batch>, i: nat)
    requires Written(past, batches) && i < |past|
    ensures past[i] == Replay(past[0], batches[..i])
  {
    hide Apply;
    if i > 0 {
      TimelineIsReplay(past, batches, i - 1);
      assert batches[..i][..i - 1] == batches[..i - 1] && past[i - 1 + 1] == Apply(past[i - 1], batches[i - 1]);
    }
  }

  lemma {:induction false} ProbesOfPrefix(db: Db, batches: seq<Batch>, t: Id, n: nat)
    requires RepliesFromProbes(db, batches, t) && n <= |batches|
    ensures RepliesFromProbes(db, batches[..n], t)
  {
    hide FromProbe, Replay;
    if n == |batches| {
      assert batches[..n] == batches;
    } else {
      var init := batches[..|batches| - 1];
      assert init[..n] == batches[..n];
      ProbesOfPrefix(db, init, t, n);
    }
  }

  /** In every state a thread of the database is a reply history over the rows it began with. */
  lemma TimelineThreads(past: seq<Db>, batches: seq<Batch>, t: Id, i: nat)
    requires Written(past, batches) && i < |past|
    requires IsTable(ThreadRows(past[0], t)) && RepliesFromProbes(past[0], batches, t)
    ensures History(ThreadRows(past[0], t), ThreadRows(past[i], t)) && IsTable(ThreadRows(past[i], t))
  {
    hide IsTable, History, ThreadRows, Apply, IsPath;
    TimelineIsReplay(past, batches, i);
    ProbesOfPrefix(past[0], batches, t, i);
    ThreadIsAHistory(past[0], batches[..i], t);
    HistoryIsTable(ThreadRows(past[0], t), ThreadRows(past[i], t));
  }

  lemma {:induction false} ThreadOnlyGrows(past: seq<Db>, batches: seq<Batch>, t: Id, i: nat, j: nat)
    requires Written(past, batches) && i <= j < |past|
    ensures ThreadRows(past[i], t) <= ThreadRows(past[j], t)
    decreases j - i
  {
    hide ThreadRows, Apply;
    if i < j {
      ThreadOnlyGrows(past, batches, t, i, j - 1);
      OneBatch(past[j - 1], batches[j - 1], t);
      assert past[j - 1 + 1] == Apply(past[j - 1], batches[j - 1]);
    }
  }

  /** What the posts statement reads from at each of some states. */
  function TablesAt(past: seq<Db>, t: Id, at: seq<nat>): (tables: seq<seq<Path>>)
    requires forall k :: 0 <= k < |at| ==> at[k] < |past|
    ensures |tables| == |at| && forall k :: 0 <= k < |at| ==> tables[k] == PathsOf(InThread(past[at[k]].posts, t))
  {
    seq(|at|, k requires 0 <= k < |at| => PathsOf(InThread(past[at[k]].posts, t)))
  }

  /** A reader who follows the cursors of a thread, each page read at some later state of the
      database, has at the end seen every post of the first state exactly once, in tree order,
      whatever was written in between. */
  lemma WalkOverTimeline(past: seq<Db>, batches: seq<Batch>, t: Id, at: seq<nat>, limit: nat)
    requires Written(past, batches) && limit > 0 && |at| > 0 && Sound(past[0])
    requires forall k :: 0 <= k < |at| ==> at[k] < |past|
    requires forall j, k :: 0 <= j <= k < |at| ==> at[j] <= at[k]
    ensures var (posts, complete) := Paging.WalkOver(TablesAt(past, t, at), None, limit);
            && Paging.Ascending(posts)
            && (forall q :: q in posts ==> q in PathsOf(InThread(past[at[|at| - 1]].posts, t)))
            && (complete ==> forall q :: q in PathsOf(InThread(past[at[0]].posts, t)) ==> q in posts)
  {
    hide Paging.WalkOver, IsPath, InThread, PathsOf, Sound, Apply, Text.Less;
    TablesGrow(past, batches, t, at);
    Paging.WalkMissesNothing(TablesAt(past, t, at), None, limit);
    forall q | q in PathsOf(InThread(past[at[0]].posts, t)) ensures Text.Less(Paging.CursorText(None), q) {
      Paging.EverythingIsBeyondStart(q);
    }
  }

  lemma {:induction false} TablesGrow(past: seq<Db>, batches: seq<Batch>, t: Id, at: seq<nat>)
    requires Written(past, batches) && Sound(past[0])
    requires forall k :: 0 <= k < |at| ==> at[k] < |past|
    requires forall j, k :: 0 <= j <= k < |at| ==> at[j] <= at[k]
    ensures Paging.OnlyGrows(TablesAt(past, t, at))
    decreases |at|
  {
    hide IsPath, InThread, PathsOf, Apply, Sound, Indexed;
    if |at| > 0 {
      TablesGrow(past, batches, t, at[1..]);
      assert TablesAt(past, t, at)[1..] == TablesAt(past, t, at[1..]);
      DistinctAt(past, batches, t, at[0]);
      if |at| > 1 {
        ThreadOnlyGrows(past, batches, t, at[0], at[1]);
        MorePaths(past[at[0]], past[at[1]], t);
      }
    }
  }

  lemma DistinctAt(past: seq<Db>, batches: seq<Batch>, t: Id, i: nat)
    requires Written(past, batches) && Sound(past[0]) && i < |past|
    ensures Paging.Distinct(PathsOf(InThread(past[i].posts, t)))
  {
    hide InThread, Apply, Indexed, Linked, PathsOf;
    TimelineIsReplay(past, batches, i);
    ReplayIsSound(past[0], batches[..i]);
    ThreadIsDistinct(past[i].posts, t);
  }

  lemma MorePaths(db: Db, later: Db, t: Id)
    requires ThreadRows(db, t) <= ThreadRows(later, t)
    ensures Paging.Includes(PathsOf(InThread(later.posts, t)), PathsOf(InThread(db.posts, t)))
  {
    hide InThread, IsPath;
    var x, y := PathsOf(InThread(db.posts, t)), PathsOf(InThread(later.posts, t));
    forall q | q in x ensures q in y {
      var i :| 0 <= i < |x| && x[i] == q;
      assert ThreadRows(db, t)[i] == ThreadRows(later, t)[i];
      assert y[i] == q;
    }
  }
}
