# Notespace: a verified model

Notespace is a forum. A thread is a tree of posts stored in one table; a post's place in the tree is
a *path*, a string whose byte order is the order of the page. This project models the parts of the
program where order, concurrency and encoding have to agree, and proves that they do.
`dafny verify dfyconfig.toml` checks all of it.

| file | what it models |
|---|---|
| `path.dfy`, `allocation.dfy` | paths, and the arithmetic that allocates the next one from a single index probe |
| `reply_tree.dfy`, `writers.dfy` | the post table under concurrent inserts: the histories it can have, and the state machine of writers that produces them |
| `reply.dfy`, `ratelimit.dfy` | posting a reply: limiter, admission, bounded retries after lost races |
| `paging.dfy`, `thread_reads.dfy` | reading a thread page by page and finding a permalink's page, on a table that stands still and while replies arrive |
| `database.dfy`, `page_cache.dfy`, `cache_key.dfy` | the statement batches that change what a page shows, and the version-keyed cache in front of them |
| `public_id.dfy`, `id_text.dfy`, `packed_id.dfy` | sortable public ids of 16 to 26 characters, their text, ULID and UUID forms, and the packed integer form |
| `import_tree.dfy`, `imported_tree.dfy`, `importer.dfy`, `imported_ids.dfy`, `names.dfy`, `naming.dfy` | importing a Hacker News comment tree, its public ids and its author names |
| `space_path.dfy`, `base64.dfy`, `civil_date.dfy` | space paths, base64, and days to dates |
| `text.dfy`, `radix.dfy`, `crockford.dfy`, `bits.dfy`, `numerals.dfy`, `collections.dfy`, `common.dfy` | byte order, positional notation, shifts and formatting that the others share |

How it is modelled:

- Code that is made of expressions is a function; a loop is a method with invariants, proved equal to
  a specification function; an object that is updated in place is a class. Lemmas are then proved
  about the specification functions.
- Strings the program orders are ASCII, where comparing characters is comparing bytes.
- A statement batch is one atomic step. Others act between any two steps of a call: in `Writers` as
  an explicit interleaving, in `Reply.Store` and `PageCache.Server` as the method `Others`, whose
  body is any number of the steps another caller could take. A backend failure is a nondeterministic
  choice at each call, and a ghost counter of failures lets contracts say what happens without one.
- Integers are unbounded. Where a machine width matters it is written out: 128-bit shifts drop what
  leaves the top, the base64 accumulator is taken modulo 2^32, and the packed timestamp modulo 2^64.
- Clocks, randomness, request headers and the verdict of moderation are parameters.

What the proofs found:

- The rate limiter's comment allows for twice the limit across a window boundary. The exact bound is
  `2 * max - 1`: the attempt that opens a window falls outside any interval reaching past its end.
  It is reached for every window longer than one tick (`RateLimit.BoundIsTight`).
- The sort in the importer never moves anything: the walk already lists posts in path order
  (`ImportTree.SortedAlready` with `ImportedTree.FlattenKeeps`). Imported ordinals start at 1, while
  replies posted on the site start at 0; posting is modelled over either kind of table.
- The importer drops something other than a repeat exactly when a level of the de-duplicated, clamped
  tree is wider than 1,048,575 (`ImportedTree.PlacesExactlyWhatFits`).
- The comments in `packed.rs` speak of 25 characters and 125 bits; the code accepts 26 and 128, and
  the model follows the code. `PackedId::new` does not check the timestamp, so it agrees with the
  text form exactly up to the 48-bit maximum (`PackedIds.NewAgrees`).
- `render_thread` says every write bumps the version. Every write to a thread or its posts does;
  editing a space does not, and a cached page then shows the old space row
  (`Database.OnlySpaceEditsAreUnversioned`, `PageCache.ServeAcrossSpaceEdit`).
- A page limit of 0 reads nothing and reports no further page, so a reader would take the thread for
  empty (`Paging.ZeroLimitReadsNothing`). The site always asks for 200.
- No store ever answers `TooDeep`: a parent at the deepest level, like a level with every ordinal
  used, comes back as a backend failure, and no reply is refused as too deep (`Reply.Store.ProbeNext`,
  `Reply.Store.Post`, `Reply.AtTheLimits`).
- The limiter reads in one statement and records in another. Its bound holds in every schedule exactly
  when calls come one at a time: two at once can record twice the limit in an instant
  (`RateLimit.BoundNeedsOneAtATime`), and any number at once can all pass
  (`RateLimit.OverlappingCallsAllPass`).
- A permalink's rank, its cursor and its page are read at different moments. A reply that arrives in
  between can push the post off the page (`Paging.PermalinkMissed`); it is shown whatever arrives as
  long as fewer replies come before it than its page had posts from it on, and `Paging.PermalinkByArrivals`
  gives the exact condition.
- A thread locked after a reply was admitted still takes it (`Reply.CommitAfterLock`).

## Model

| member | source | states |
|---|---|---|
| TreePath.EncodeSegment | crates/core/src/path.rs:218-235 | the buffer filled from its low end is the four base32 digits of the ordinal; past 1,048,575 it is an error |
| TreePath.SegmentRoundTrip | crates/core/src/path.rs:218-244 | decoding inverts encoding for every ordinal, and encoding inverts decoding for every well-formed segment |
| TreePath.SegmentOrder | crates/core/src/path.rs:218-235 | segments sort as text exactly as their ordinals sort as numbers |
| TreePath.Root | crates/core/src/path.rs:69-71 | a top-level path for every ordinal up to the maximum, and the error past it |
| TreePath.Child | crates/core/src/path.rs:74-84 | the position one level down with that ordinal; fails exactly at the depth cap or past the largest ordinal, the depth first |
| TreePath.NextSibling | crates/core/src/path.rs:87-96 | the same parent with the ordinal one up, unless the level is full |
| TreePath.Parse | crates/core/src/path.rs:98-118 | accepts exactly the texts of positions and returns them unchanged; otherwise reports the first malformed segment or the 33rd level, whichever comes first |
| TreePath.PathSegments | crates/core/src/path.rs:98-118 | the accepted strings are those of at most 32 well-formed segments |
| TreePath.Depth | crates/core/src/path.rs:121-123 | counting separators gives the number of levels above the post |
| TreePath.Ordinal | crates/core/src/path.rs:126-132 | the text after the last separator decodes to the last ordinal of the position |
| TreePath.AncestorAtDepth | crates/core/src/path.rs:137-146 | the loop climbs to the requested ancestor, or answers none below the post's own depth |
| TreePath.AncestorAt | crates/core/src/path.rs:137-146 | that ancestor is the first levels of the position |
| TreePath.Parent | crates/core/src/path.rs:148-152 | cutting at the last separator removes exactly the last level; none at the top |
| TreePath.PathOf | crates/core/src/path.rs:155-157 | reading the segments of a position's text gives the position back |
| TreePath.OrderIsPreorder | crates/core/src/path.rs:1-16 | for all paths, byte order is tree preorder with ancestors first, and equal text is equal position |
| TreePath.SubtreeRangeIsExact | crates/core/src/path.rs:160-175 | a path lies from p up to p's subtree end exactly when it is p or a descendant, which is exactly when its position extends p's |
| Allocation.LastInRange | crates/core/src/sql.rs:63-66 | the probe's answer is in range and no row in range sorts after it |
| Allocation.BoundsSelectSubtree | crates/core/src/store.rs:465-474 | the exclusive bounds select exactly what lies strictly beneath the parent, at any depth |
| Allocation.AllocatesAfterBranch | crates/core/src/store.rs:476-491 | from one path beneath the parent, however deep, the next ordinal after its branch is allocated |
| Allocation.LastBranchIsGreatest | crates/core/src/store.rs:476-491 | the greatest path in range lies in the parent's last branch |
| Allocation.AllocatesFirstFree | crates/core/src/store.rs:476-491 | allocation takes the first ordinal past every branch in use; it fails exactly past the largest ordinal or at the depth cap, and says which |
| Allocation.AllocatedIsLastChild | crates/core/src/store.rs:476-491 | the allocated path is new, a direct child, and sorts after everything already beneath the parent |
| ReplyTree.CommitIsNextChild | crates/worker/src/store.rs:674-790 | an insert that passes the unique index takes exactly the first free ordinal at its commit, however stale its probe was and whatever the table held before |
| ReplyTree.NobodyElseCommitted | crates/worker/src/store.rs:674-790 | while the probed path stays free, so does every ordinal after it |
| ReplyTree.TakenByAChild | crates/worker/src/store.rs:727-790 | the probed path is taken exactly when the parent has gained a child since the probe |
| ReplyTree.ChildAt | crates/worker/src/store.rs:762-768 | a path free at the probe and taken now was taken by a later child of the same parent |
| ReplyTree.FirstFreeCounts | crates/core/src/store.rs:476-491 | each child a position gains moves its first free ordinal on by one, and nothing else does |
| ReplyTree.HistoryIsNumbered | crates/worker/src/store.rs:674-790 | every row added to a table, in any interleaving, is the next child of its parent in commit order |
| ReplyTree.HistoryShape | crates/core/src/sql.rs:59-109 | whatever was there before, paths and ids stay unique, parents come first, and new children are numbered without gap or reuse |
| ReplyTree.NewChildrenAreConsecutive | crates/core/src/sql.rs:59-67 | the children a position gains carry consecutive ordinals from the first one free before, whatever the table held |
| ReplyTree.HistoryIsTable | crates/core/src/sql.rs:102-109 | a table grown from any sound table keeps unique paths and ids with every parent present |
| ReplyTree.FromEmptyIsNumbered | crates/core/src/sql.rs:59-67 | from an empty thread each position's children carry exactly the ordinals 0 to n-1 |
| Writers.LocateKeepsInv | crates/worker/src/store.rs:674-713 | finding the parent keeps the invariant and the table |
| Writers.ProbeKeepsInv | crates/worker/src/store.rs:700-727 | probing keeps the invariant |
| Writers.PathOfIdIsRow | crates/core/src/sql.rs:96-100 | looking an id up gives the path of its row, wherever in the table it is, and fails exactly when no row has it |
| Writers.StaleInsertCommits | crates/worker/src/store.rs:727-790 | a batch built from a stale probe is still a step of some history |
| Writers.InsertKeepsInv | crates/worker/src/store.rs:727-790 | the insert batch keeps the invariant and never changes an older row; it adds the row asked for, as the parent's next child, unless the id is in use, there was no room at the probe, or the parent has gained a child since |
| Writers.StepKeepsInv | crates/worker/src/store.rs:674-790 | every step of every writer keeps the invariant and leaves the other writers alone; only the insert of a writer that has probed touches the table, and it adds its row with exactly those exceptions |
| Writers.EveryInsertIsDecided | crates/worker/src/store.rs:674-790 | one writer's locate, probe and insert with any steps of others in between: if the post it replies to is there, the reply is added exactly when its id is free, there was room at the probe and the parent has gained no child since; if not, nothing is added |
| Writers.AloneAddsTheReply | crates/worker/src/store.rs:674-790 | after any interleaving, a reply to a post that is there, posted with nobody in between, adds exactly the row asked for |
| Writers.EveryInterleavingKeepsTheTree | crates/worker/src/store.rs:672-790 | in every interleaving of any number of writers, from whatever the thread holds, the table stays sound, new children are numbered consecutively, rows are never changed or removed, and every writer that has probed would add its row now, with exactly those exceptions |
| Writers.EmptyThreadIsNumbered | crates/worker/src/store.rs:672-790 | from an empty thread each position's children are numbered exactly 0 to n-1, and the next top-level post made with nobody stepping in between is added and numbered n |
| Reply.Store.Others | crates/worker/src/store.rs:674-790 | whatever other callers do, the table keeps a history that extends the one before |
| Reply.Store.constructor | crates/core/src/reply.rs:129-135 | a store may start with any sound table, an imported one included |
| Reply.Store.LoginAttempts | crates/core/src/reply.rs:140-143 | reads both counters, or fails in the backend |
| Reply.Store.RecordAttempt | crates/core/src/reply.rs:193-198 | stores exactly the advanced counter, or fails and stores nothing |
| Reply.Store.LocateParent | crates/worker/src/store.rs:674-698 | answers the path of the row with the parent's id; says not found only if the thread was absent at some moment of the call or the parent when it was looked up, and fails in the backend exactly when a call failed |
| Reply.Store.ProbeNext | crates/worker/src/store.rs:700-727 | the path allocated from the rows at the probe; it fails exactly when a call failed, the parent is at the deepest level, or the first free ordinal is past the largest |
| Reply.Store.CommitBatch | crates/worker/src/store.rs:727-790 | one row, the next child of its parent, or none; a taken id or path is never written; unless the backend breaks, the answer is a conflict exactly when one is taken and the row otherwise |
| Reply.Store.InsertPost | crates/worker/src/store.rs:674-790 | a success is the requested reply; every failure has its reason: a failed call or no room, an absent thread or parent, or a used id or a reply by somebody else under the same parent since the call began |
| Reply.Store.Admit | crates/core/src/reply.rs:156-169 | reads the thread's state once and refuses in order an absent thread or author, a thread that takes no replies, and a duplicate |
| Reply.Store.Finish | crates/core/src/reply.rs:190-204 | records both counters, in order, and reports the row as held or posted |
| Reply.Store.Retry | crates/core/src/reply.rs:176-218 | at most four attempts; contention is answered only after that many distinct lost races, each charged to a different row of somebody else's; the only other refusal is a place that was absent, and an error means a failed call or no room |
| Reply.Store.Post | crates/core/src/reply.rs:129-218 | over any sound table: one row exactly when the outcome is posted or held, held exactly with reasons; each refusal only for its cause (length, counters read, thread state found, an absent place, lost races), none for depth; and with nothing in its way and no call failing, an allowed request ends with its row |
| Reply.KeysAreSeparate | crates/core/src/ratelimit.rs:107-120 | each author and each client has a counter of its own, and no author shares one with a client |
| Reply.RoomLasts | crates/core/src/store.rs:476-491 | as long as a parent gains no child, it keeps the room it had |
| Reply.NothingToBlame | crates/core/src/reply.rs:176-218 | with the thread open, the parent there with room, the ids free and nobody else replying, none of the reasons to end without a row holds |
| Reply.CommitAfterLock | crates/core/src/reply.rs:156-190 | a thread locked between admission and insert still takes the reply |
| Reply.AtTheLimits | crates/core/src/store.rs:476-491 | a parent at the deepest level and a level with its largest ordinal in use both leave nothing to allocate |
| Paging.OrderedAscends | crates/core/src/sql.rs:24-31 | ordering rows of distinct paths gives a strictly ascending listing |
| Paging.ReadingOn | crates/core/src/sql.rs:24-31 | reading past any post of a listing reads the rest of that listing |
| Paging.PageIsHead | crates/store-sqlite/src/lib.rs:692-735 | a page is the first posts beyond the cursor, with a next cursor exactly when more remain: the last post kept |
| Paging.WalkReadsTheThread | crates/core/src/sql.rs:21-31 | following the cursors ends, fills every page but the last, and returns every post once in tree order |
| Paging.ZeroLimitReadsNothing | crates/worker/src/store.rs:869-885 | a limit of zero gives an empty page and no cursor, whatever the thread holds |
| Paging.PageSplits | crates/store-sqlite/src/lib.rs:692-735 | everything beyond the cursor is on the page or beyond the next cursor |
| Paging.WalkMissesNothing | crates/core/src/sql.rs:21-31 | with replies arriving between pages, a completed walk returns every post present at its start exactly once, and no path twice |
| Paging.RankIsIndex | crates/core/src/sql.rs:72-75 | the number of smaller paths is the post's index in page order |
| Paging.CursorOffset | crates/core/src/store.rs:78-82 | the offset is that of the last post before the page holding the rank; none on the first page |
| Paging.SequentialCursorAt | crates/core/src/store.rs:78-82 | paging from the top, the k-th cursor is the last post of the first k pages |
| Paging.PermalinkFindsItsPage | crates/core/src/store.rs:78-82 | on a table that stands still, a permalink's cursor is the one paging would hold for that page, and the page read after it shows the post |
| Paging.PermalinkWhileGrowing | crates/store-sqlite/src/lib.rs:1049-1068 | with rank, offset and page read from three growing tables, the cursor sorts before the post, and the page shows it exactly when it is within a page of its start |
| Paging.PermalinkByArrivals | crates/store-sqlite/src/lib.rs:1049-1068 | the page shows the post exactly when the post's place on its page, plus the replies that came before it, less those that came before the cursor once read, is within the page; so always while fewer come before it than its page had posts from it on |
| Paging.RankGrowsByArrivals | crates/core/src/sql.rs:72-75 | a post's rank grows by exactly the posts that arrive before it |
| Paging.PermalinkMissed | crates/store-sqlite/src/lib.rs:1049-1068 | a reply that arrives in between can push the post to the next page |
| Paging.RankGrows | crates/core/src/sql.rs:72-75 | a post's rank never falls as rows are added |
| ThreadReads.HistoryOnlyGrows | crates/core/src/sql.rs:21-31 | the tables a reply history makes only ever grow |
| ThreadReads.WalkDuringReplies | crates/core/src/sql.rs:21-31 | in every interleaving of writers a completed walk has seen every post there was when it began exactly once, in tree order |
| ThreadReads.PermalinkDuringReplies | crates/store-sqlite/src/lib.rs:1035-1079 | at three moments of a reply history the same condition in replies arrived, and the post is shown whenever fewer rows were added than its page had posts from it on |
| RateLimit.TailMissesOpening | crates/core/src/ratelimit.rs:53-69 | an interval reaching past a window's end misses the attempt that opened it |
| RateLimit.RunIsBounded | crates/core/src/ratelimit.rs:53-69 | over any run the counter is exactly the attempts let through in its window, and every interval is bounded |
| RateLimit.AtMostTwiceTheLimit | crates/core/src/ratelimit.rs:34-69 | any interval as long as the window lets through at most 2 * max - 1 attempts |
| RateLimit.BoundIsTight | crates/core/src/ratelimit.rs:34-69 | for every limit with a window longer than one tick some run reaches that bound |
| RateLimit.WaitingReopensBoth | crates/core/src/ratelimit.rs:97-102 | waiting the larger of the two reported times makes both buckets allow, and a second less would not |
| RateLimit.OneCallIsSerial | crates/core/src/reply.rs:140-198 | with one call at a time, recording or giving up, the attempts recorded are those a run lets through |
| RateLimit.OneCallKeepsBound | crates/core/src/reply.rs:140-198 | such schedules keep the bound of 2 * max - 1 |
| RateLimit.TwoCallsBreakBound | crates/core/src/reply.rs:140-198 | a schedule with at most two calls outstanding records 2 * max attempts in one instant, for every limit |
| RateLimit.BoundNeedsOneAtATime | crates/core/src/reply.rs:140-198 | with at most c calls outstanding, every schedule keeps the bound if and only if c is at most one |
| RateLimit.OverlappingCallsAllPass | crates/core/src/reply.rs:140-198 | any number of calls that read together are all let through and all record, and the counter ends at one |
| Database.ApplyKeepsLinks | crates/core/src/sql.rs:106-109 | every batch keeps the foreign keys of threads and posts |
| Database.ApplyKeepsIndexes | crates/core/src/sql.rs:102-109 | every batch keeps one row for each public id and for each path of a thread |
| Database.PostColumns | crates/core/src/sql.rs:154-408 | column by column, what every batch does to a stored post: an edit sets body and edit time, moderation and tombstoning the state, and nothing else changes |
| Database.PostsAdded | crates/core/src/sql.rs:102-116 | a post is added exactly by an insert into a thread that is there, under a free id and path, and is the one given |
| Database.ThreadColumns | crates/core/src/sql.rs:111-499 | column by column, what every batch does to a thread's row; the version rises by one exactly with its update, a post added, or a post of it rewritten |
| Database.ThreadsAdded | crates/core/src/sql.rs:395-398 | a thread appears exactly by its insert into a space that is there, visible, empty and at version 0 |
| Database.SpaceColumns | crates/core/src/sql.rs:540-548 | a space appears by its insert, keeps its path, and its other columns are set by its update only |
| Database.ThreadIsDistinct | crates/core/src/sql.rs:102-109 | the indexes give each thread distinct paths and ids |
| Database.InsertIsCommit | crates/core/src/sql.rs:102-116 | a reply's commit, seen from the whole database, adds that row to its thread |
| Database.OnlyInsertsAddRows | crates/core/src/sql.rs:154-243 | no other batch adds, moves or removes a row of any thread |
| Database.OneBatch | crates/core/src/sql.rs:102-499 | a batch leaves a thread's rows alone or adds the one it inserts |
| Database.ThreadIsAHistory | crates/worker/src/store.rs:672-790 | whatever is written between them, inserts built from earlier probes make each thread of the database a reply history |
| Database.EveryChangeBumps | crates/core/src/sql.rs:106-499 | for every batch versions never go back, and while a thread's version stands still so do its row and its posts |
| Database.EditBumps | crates/core/src/sql.rs:146-158 | a thread outside the set a batch bumps has no post the batch rewrote |
| Database.UntouchedThread | crates/core/src/sql.rs:24-31 | a thread's posts read the same in two tables that differ only in other threads |
| Database.OnlySpaceEditsAreUnversioned | crates/core/src/sql.rs:544-548 | a batch changes what a thread's page draws on without changing its version exactly when it edits the row of the thread's own space |
| CacheKey.KeysAreInjective | crates/core/src/cache_key.rs:12-37 | two pages share a key only if host, thread, version, template revision and cursor all agree |
| CacheKey.KeyCuts | crates/core/src/cache_key.rs:19-28 | the key read as parts between separators, none of which a host contains |
| Numerals.PrintIsInjective | crates/core/src/cache_key.rs:22-27 | different numbers print differently, in decimal and in hexadecimal |
| Numerals.PrintIntIsInjective | crates/core/src/cache_key.rs:22-27 | so do different signed versions, and no printed version contains the key's separator |
| PageCache.VersionsAdvance | crates/core/src/sql.rs:106-499 | across any stretch of history versions never decrease, and an equal version means equal content |
| PageCache.PageShowsStoredPosts | crates/worker/src/store.rs:831-893 | in every state a page shows stored posts of its own thread, in path order past the cursor, with the next cursor, the thread's row and its space's |
| PageCache.RespondDecides | crates/app/src/lib.rs:818-860 | a state is answered not found, hidden or with a page exactly by the thread's absence or state; what may be stored comes from a thread that is not hidden |
| PageCache.HitAgrees | crates/app/src/lib.rs:791-812 | a cache hit under the version just looked up stands for the state then, or for a later one |
| PageCache.FreshPage | crates/app/src/lib.rs:791-841 | a page read after the lookup may be stored under the version looked up |
| PageCache.BackingLasts | crates/app/src/lib.rs:791-841 | a commit never invalidates what a cache entry is backed by |
| PageCache.UneditedSpaceLasts | crates/core/src/sql.rs:544-548 | as long as nobody edits the space a thread is in, an equal version is the whole page |
| PageCache.ServeAcrossSpaceEdit | crates/app/src/lib.rs:791-841 | a request fills the cache, the space is edited, and the next request is served the row from before |
| PageCache.SecondIsServedTheFirst | crates/app/src/lib.rs:791-812 | the lookup after the edit makes the same key, whose page differs from the current one |
| PageCache.RenamingASpaceGoesUnseen | crates/core/src/sql.rs:544-548 | renaming the space of a thread is such an edit |
| PageCache.TimelineThreads | crates/worker/src/store.rs:672-790 | in every state the cache reads, each thread is a reply history over the rows it began with |
| PageCache.WalkOverTimeline | crates/core/src/sql.rs:21-31 | a reader following the cursors while the database changes has at the end seen every post of the first state exactly once, in tree order |
| PageCache.EditIsShown | crates/core/src/sql.rs:404-408 | in every interleaving of requests, writes and the cache, a page answered after an edit's commit shows a state where the post reads as edited, and the post on it reads so, until it is edited again |
| PageCache.EditIsShownAtOnce | crates/core/src/sql.rs:404-408 | with nothing written since, the page shows the edited state itself |
| PageCache.ServeAfterEdit | crates/app/src/lib.rs:791-860 | an edit and then a request, others doing anything in between: the page answered shows the edit until it is edited again |
| PageCache.RedirectSettles | crates/app/src/lib.rs:764-776 | the canonical spelling a request is redirected to is not redirected again |
| PageCache.Server.Commit | crates/app/src/lib.rs:791-793 | a write extends the history by the batch's state, whose columns the lemmas on Apply fix, and leaves every cache entry backed |
| PageCache.Server.Put | crates/app/src/lib.rs:837-841 | storing a page made at or after the version in its key keeps every entry backed |
| PageCache.Server.PutByAnother | crates/app/src/lib.rs:791-841 | another request may store, at any time, what it read after its own lookup |
| PageCache.Server.FromCache | crates/app/src/lib.rs:808-812 | a hit stands for a moment since its version was looked up |
| PageCache.Server.Others | crates/app/src/lib.rs:791-841 | any number of writes, evictions and stores by others keep the cache backed and the history growing |
| PageCache.Server.ReadAndStore | crates/app/src/lib.rs:818-841 | a miss answers the state it reads, and stores only what keeps the cache backed |
| PageCache.Server.Serve | crates/app/src/lib.rs:791-860 | without a failed read, in every interleaving the answer stands for a moment since the request began: not found exactly if the thread was absent then, hidden exactly if it was hidden or deleted, else a page showing that state's thread, posts and next cursor; and exactly what an uncached request would have got then if and only if the row of the thread's space is the one the page was made with |
| PageCache.Server.ServeAlone | crates/app/src/lib.rs:791-841 | with nobody else about: the page under the key, or the current page, which is then under the key |
| PageCache.Server.RenderThread | crates/app/src/lib.rs:756-860 | bad ids, other spellings and bad cursors are answered as such, with the location written out; every other answer is as for Serve, and a failure only after a failed read |
| PublicId.Render | crates/core/src/id.rs:297-310 | shifting and masking per character writes the digits of the payload above its reserved bits |
| PublicId.ToU128 | crates/core/src/id.rs:132-142 | the integer read back is the digits' number without its reserved bits, and fits the width |
| PublicId.PayloadRoundTrip | crates/core/src/id.rs:132-148 | every payload that fits a width is read back from its id |
| PublicId.IntegerRoundTrip | crates/core/src/id.rs:121-142 | from_u128 inverts to_u128 at every width, and succeeds exactly on the integers of the width's payload bits |
| PublicId.PackedPayload | crates/core/src/id.rs:111-119 | packing a timestamp above its random bits loses no bit |
| PublicId.FieldsRoundTrip | crates/core/src/id.rs:111-119 | a new id gives back its width, timestamp and random bits |
| PublicId.TimestampInHead | crates/core/src/id.rs:254-256 | at every width the timestamp is held by the first ten characters |
| PublicId.TextOrderIsTimeOrder | crates/core/src/id.rs:1-15 | ids of any two widths sort as text in the order of their timestamps |
| PublicId.NarrowIdIsPrefix | crates/core/src/id.rs:12-15 | the 16-character id of the top 32 random bits is a literal prefix of every wider id with the same timestamp |
| IdText.Parse | crates/core/src/id.rs:221-251 | the loop answers the first problem met, or the canonical id |
| IdText.SpellingParses | crates/core/src/id.rs:219-251 | every spelling of an id's digits parses to that id, whatever its case, hyphens and letter confusions |
| IdText.ParsesExactlySpellings | crates/core/src/id.rs:219-251 | a string parses to an id exactly when it spells the id's digits |
| IdText.DecodesCharacters | crates/core/src/id.rs:221-251 | a digit is read from its letter in either case, 0 also from O, 1 also from I and L; only hyphens are skipped |
| IdText.TextRoundTrip | crates/core/src/id.rs:219-286 | the canonical, upper-case and grouped texts all parse to the id |
| IdText.EncodeGrouped | crates/core/src/id.rs:278-286 | a hyphen stands after every fourth character but the last, and the characters keep their order, place by place |
| IdText.ToUlid | crates/core/src/id.rs:195-203 | the 26 upper-case digits of the payload aligned to the top of 128 bits |
| IdText.FromUlid | crates/core/src/id.rs:150-171 | the loop imports exactly the 26-digit spellings that fit 128 bits |
| IdText.UlidsAreSpellings | crates/core/src/id.rs:150-171 | the strings imported as ULIDs are exactly those that spell 26 digits, the first below 8 |
| IdText.UlidRoundTrip | crates/core/src/id.rs:150-203 | an id sent out as a ULID comes back at 26 characters with the original as a prefix, and unchanged if it was that wide |
| IdText.WidenedHasPrefix | crates/core/src/id.rs:193-203 | zero-extending a narrower id keeps its text as a prefix |
| IdText.FromUuid | crates/core/src/id.rs:174-192 | the loop imports exactly 32 hexadecimal digits with hyphens anywhere |
| IdText.HexReadsCharacters | crates/core/src/id.rs:174-192 | a hexadecimal digit is read from its character in either case |
| IdText.UuidShape | crates/core/src/id.rs:205-217 | 36 characters, hyphens after the 8th, 12th, 16th and 20th digit, and the digits are those of the payload aligned to 128 bits |
| IdText.UuidsAreSpellings | crates/core/src/id.rs:174-192 | the strings imported as UUIDs are exactly those that spell 32 hexadecimal digits |
| IdText.UuidRoundTrip | crates/core/src/id.rs:174-217 | an id sent out as a UUID comes back at 26 characters with the original as a prefix |
| IdText.PayloadsSurvive | crates/core/src/id.rs:145-217 | every 128-bit integer survives the ULID and the UUID form |
| PackedIds.Parse | crates/bench-wasm/src/packed.rs:72-105 | on every string the packed parser answers exactly when the text parser does, with the packed form of the same id |
| PackedIds.Encode | crates/bench-wasm/src/packed.rs:107-121 | writes the same text as the text form for the same payload and width |
| PackedIds.PackingIsFaithful | crates/bench-wasm/src/packed.rs:48-130 | the packed form encodes back to the id, holds its timestamp, and stands for no other id |
| PackedIds.NewAgrees | crates/bench-wasm/src/packed.rs:56-70 | a new packed id is the new text id exactly when the timestamp is in range or both refuse the width |
| PackedIds.PaddedOrder | crates/bench-wasm/src/packed.rs:131-148 | padding digit runs to a common width keeps their order, with length as the tie-break |
| PackedIds.OrderIsTextOrder | crates/bench-wasm/src/packed.rs:131-148 | comparing left-aligned integers, then widths, is comparing texts across any two widths |
| ImportTree.Clamp | crates/hn-import/src/tree.rs:99-105 | the deepest ancestor that can still take a child: the position cut to one level less than allowed |
| ImportTree.DrainPushed | crates/hn-import/src/tree.rs:69-73 | emptying a stack with children pushed in reverse is visiting them in order first |
| ImportTree.DrainStep | crates/hn-import/src/tree.rs:44-74 | one turn of the loop is one step of the recursion, on a smaller stack |
| ImportTree.Link | crates/hn-import/src/tree.rs:79-94 | each row's parent is the index of the row at its path's parent |
| ImportTree.SortedAlready | crates/hn-import/src/tree.rs:76-76 | sorting rows that are in path order changes nothing |
| StoryImport.Importer.Place | crates/hn-import/src/tree.rs:13-96 | in terms of the limit asked for: a comment k replies deep sits at depth k or at the deepest level if that is less, under its real HN parent or else its ancestor one level up from there, by a smaller index; the opening post comes first exactly when there is one; and every first occurrence is placed, depth first, exactly when no level is too wide |
| StoryImport.VisitAllAddsReplies | crates/hn-import/src/tree.rs:44-74 | only the story's own text becomes an opening post |
| ImportedTree.TakingKeeps | crates/hn-import/src/tree.rs:44-68 | placing one item keeps the walk's invariant: order, counters, ids, and where posts hang |
| ImportedTree.HomeOfChildren | crates/hn-import/src/tree.rs:48-48 | replies to a new post go under it, or beside it when it is at the deepest level, starting from an unused counter |
| ImportedTree.VisitAllKeeps | crates/hn-import/src/tree.rs:44-74 | a stretch of the walk keeps the invariant and adds posts only beneath where it started |
| ImportedTree.VisitAllDescends | crates/hn-import/src/tree.rs:44-74 | what the walk adds are true lines of descent in the story, and no reply to an added post goes unseen |
| ImportedTree.FlattenKeeps | crates/hn-import/src/tree.rs:29-74 | the invariant holds of the whole walk, for every story, depth limit and set of ids seen before |
| ImportedTree.PlacementKeepsTheTree | crates/hn-import/src/tree.rs:13-96 | rows ascend strictly by path in the walk's order; each hangs at its own level or the deepest, under its real parent or else its ancestor at the level above the deepest, by a smaller index |
| ImportedTree.PlacementAccountsForItems | crates/hn-import/src/tree.rs:26-46 | placed ids are distinct, new and remembered, and an item whose parent was placed is missing only if its id was taken |
| ImportedTree.ImportIsATable | crates/hn-import/src/main.rs:354-403 | whatever the story, its placed posts with distinct public ids are a table that replies can be posted to |
| ImportedIds.PublicIdsDiffer | crates/hn-import/src/main.rs:153-156 | two imported ids are equal exactly when both their times and their salted HN ids are |
| ImportedIds.ImportedIdHolds | crates/hn-import/src/main.rs:153-156 | an imported id holds its item's time in milliseconds and its HN id, the top of 32 bits turned over for a story's own text |
| ImportedIds.ImportTakesReplies | crates/hn-import/src/main.rs:354-403 | for HN ids below 2^31 and times in range the derived public ids are distinct, so an import takes replies |
| ImportedTree.VisitAllExact | crates/hn-import/src/tree.rs:44-74 | either the first occurrences are placed in depth-first order with exact counters, or an id was taken in without a post |
| ImportedTree.PlacesExactlyWhatFits | crates/hn-import/src/tree.rs:18-62 | the ids seen grow by exactly the ids placed if and only if no level of the de-duplicated, clamped story is too wide; then the rows are that story in depth-first order at any depth limit |
| ImportedNames.Sanitize | crates/hn-import/src/names.rs:68-98 | the loop folds a name as the recursion does, with the prefix and the tombstone as fallbacks |
| ImportedNames.SanitizedIsAName | crates/hn-import/src/names.rs:67-98 | whatever the input, folding gives a valid username |
| ImportedNames.SanitizedByCase | crates/hn-import/src/names.rs:67-98 | without a letter or digit the tombstone; else the fold, if it has two characters and a letter and is not reserved; else the fold with the prefix |
| ImportedNames.FoldingKeepsPlain | crates/hn-import/src/names.rs:68-85 | folding keeps every letter and digit, in order and in lower case |
| ImportedNames.OrdinaryNamesPass | crates/hn-import/src/names.rs:68-92 | a name that is a username, case aside, is kept in lower case |
| ImportedNames.SuffixesDiffer | crates/hn-import/src/names.rs:40-47 | different counters give different candidates |
| ImportedNames.TriedAreTaken | crates/hn-import/src/names.rs:37-49 | suffixes tried in vain are that many names in the table, so the loop ends |
| ImportedNames.CandidatesFit | crates/hn-import/src/names.rs:41-47 | a candidate is the folded name, a valid username, or the start of it, a hyphen and a counter; none is longer than a username may be |
| ImportedNames.InverseIsInjective | crates/hn-import/src/names.rs:15-57 | with the two maps inverse, two accounts share a name only if they are one |
| ImportedNames.Names.constructor | crates/hn-import/src/names.rs:22-27 | the tombstone name belongs to the empty author from the start |
| ImportedNames.Names.Resolve | crates/hn-import/src/names.rs:29-57 | a known account keeps its name and nothing changes; a new one gets the first candidate nobody holds, the maps stay inverse, and a rewritten name is counted |
| ImportedNames.Names.TryCandidates | crates/hn-import/src/names.rs:34-50 | the suffix loop ends at the first candidate that is free or already this account's |
| ImportedNames.ResolveAll | crates/hn-import/src/names.rs:29-57 | over a whole import names agree exactly when accounts do, names once given stay, and only authorless posts get the tombstone |
| Naming.Validate | crates/core/src/naming.rs:45-86 | the loop answers the first rule broken, or the folded name |
| Naming.ValidatedIsName | crates/core/src/naming.rs:43-93 | exactly the strings whose lower-case form meets every rule are accepted, and only case is folded |
| SpacePaths.Root | crates/core/src/space_key.rs:74-76 | a one-segment path |
| SpacePaths.Child | crates/core/src/space_key.rs:79-85 | one more segment, up to three |
| SpacePaths.Parent | crates/core/src/space_key.rs:129-132 | the path without its last segment; none at the top |
| SpacePaths.Parse | crates/core/src/space_key.rs:88-98 | the loop over non-empty segments is the fold of root and child, failing at the first bad key or the fourth level |
| SpacePaths.ParsedSegments | crates/core/src/space_key.rs:88-98 | parsing succeeds exactly on one to three segments that are keys, case aside, and gives those keys |
| SpacePaths.UrlRoundTrip | crates/core/src/space_key.rs:88-108 | a path's URL form parses back to it, also with slashes at either end |
| SpacePaths.PrefixRange | crates/core/src/space_key.rs:134-142 | between a string and the same string with its last character raised lie exactly the strings it is a prefix of |
| SpacePaths.RangeIsSubtree | crates/core/src/space_key.rs:134-142 | for all paths the range holds exactly those whose segments extend this one's, keys with '-' included |
| Base64.EncodeWith | crates/core/src/encoding.rs:7-23 | the loop over chunks is the chunkwise encoding, for any table, padded or not |
| Base64.PushChunk | crates/core/src/encoding.rs:14-20 | a chunk of n bytes gives n + 1 digits and then padding, if asked for |
| Base64.Decode | crates/core/src/encoding.rs:36-59 | the loop keeps its accumulator below 2^bits and answers the characterwise decoding |
| Base64.ShiftNeverWraps | crates/core/src/encoding.rs:49-56 | shifting in 32 bits loses nothing |
| Base64.DecodesEncoded | crates/core/src/encoding.rs:7-59 | for any table in sextet order, decoding undoes unpadded encoding |
| Base64.RoundTrip | crates/core/src/encoding.rs:26-59 | decoding undoes both base64 (section 4 of RFC 4648) and unpadded base64url (section 5) for every byte sequence |
| Base64.DecodesAlphabets | crates/core/src/encoding.rs:35-59 | text decodes exactly when every character is in an alphabet, to the whole bytes its bits hold |
| CivilDate.YearOfEraIsRight | crates/render/src/time.rs:31-33 | the division chain finds the year of the era a day falls in |
| CivilDate.MonthIsRight | crates/render/src/time.rs:34-35 | the month formula splits the year at the ends of its months |
| CivilDate.DaysAreDates | crates/render/src/time.rs:27-38 | every day number is a valid date, leap years included, and counts back to itself |
| CivilDate.DatesAreDays | crates/render/src/time.rs:27-38 | every valid date is the date of its day number |
| CivilDate.NextDayCountsOne | crates/render/src/time.rs:27-38 | the calendar's next day has the next day number |
| CivilDate.CalendarWalk | crates/render/src/time.rs:27-38 | day 0 is 1 January 1970 and every day is followed by its Gregorian successor |
| CivilDate.DatesAscend | crates/render/src/time.rs:27-38 | dates ascend strictly with day numbers |
| CivilDate.StampIsTheInstant | crates/render/src/time.rs:18-24 | a stamp is a valid time of a valid day and counts back to its instant |
| CivilDate.EitherUnit | crates/render/src/time.rs:17-19 | from 1973 on seconds and milliseconds of one instant give the same stamp |

## Left out

- Reply.Store.Post: does not say which counter was written when the backend fails between the two writes, because the source leaves that to the failure; the row itself is pinned either way.
- Reply.Store.Post: triage is an arbitrary choice between publish, hold and refuse; the heuristics and the review queue behind a held post are not part of this model, beyond a call that may fail.
- Reply.Store.Others: other threads appear only as the ids they use; posts of other threads are rows of other instances.
- ImportedNames.Names.Resolve: assumes fewer than 2^31 names, where the source's counter would overflow; validity of a suffixed name is not claimed, since truncation can drop its only letter.
- StoryImport.Importer.Place: a level's counter is unbounded, where the source's would overflow past 2^32 siblings; the borrowed item is copied by value.
- ImportedIds.ImportTakesReplies: leaves out the fallback id of a post whose time is out of range, which counts row ids modulo a million and can repeat; the database would then refuse the row.
- PageCache.Server.RenderThread: the baked page is the pair of template revision and page data; the template, response headers and timings are left out.
- PageCache.Server.Serve: the space's row may be older than the moment answered for, because the source does not version it.
- Paging.PageIsHead: a limit of at least 1; a limit of 2^32 - 1, where the over-fetch saturates, is not modelled.
- Database.EveryChangeBumps: user names and author rows are taken as fixed, since no statement renames a user; seeding and import scripts that rewrite tables directly are outside it.
- CivilDate.CalendarWalk: over all integers, so the overflow of a 64-bit day count at the far ends is not modelled.
- Naming.Validate: reserved words are a set; that the source's lists are sorted, which its binary search needs, is not stated.
- `Names::all`, which lists names in sorted order (its comment says order of first use).
- Path, id and space serialization through serde, and formatting of dates and error messages.
- The HTTP handlers other than `render_thread`, page templates, markdown, mail, OAuth and sessions.
- Argon2, HMAC, SHA-256, RSA and random number generation, which are libraries.
- The adapters' row decoding and their handling of corrupt rows.
- Counting statements and rows read for the timing header.
