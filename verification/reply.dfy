// Posting a reply against a shared store (crates/core/src/reply.rs and append_post in
// crates/worker/src/store.rs). Between any two statements other writers may commit.
module Reply {
  import opened Common
  import opened TreePath
  import opened Allocation
  import opened ReplyTree
  import Numerals
  import RateLimit
  import Writers

  const MIN_BODY_CHARS: nat := 2
  const MAX_BODY_CHARS: nat := 32_768
  const MAX_PATH_RETRIES: nat := 3

  datatype StoreError = NotFound | Conflict | TooDeep(cap: nat) | Backend

  datatype Rejected =
    | EmptyBody
    | TooLong(chars: nat)
    | TooDeepFor(cap: nat)
    | NoSuchPlace
    | Contended
    | ThreadLocked
    | Duplicate

  datatype Outcome =
    | Posted(row: Row)
    | Held(row: Row)
    | Refused(why: Rejected)
    | RateLimited(retryAfterSecs: int)

  /** What triage makes of the body: refuse it as a duplicate, or publish it unless there are
      reasons to hold it. */
  datatype Triage = Refuse | Reasons(count: nat)

  datatype Request = Request(
    bodyChars: nat,              // characters of the trimmed body
    parent: Option<string>,      // the parent's public id
    author: int,
    authorExists: bool,
    client: string,
    ids: seq<string>,            // one per attempt
    now: int,
    triage: Triage)

  function CheckBody(chars: nat): Option<Rejected> {
    if chars < MIN_BODY_CHARS then Some(EmptyBody)
    else if chars > MAX_BODY_CHARS then Some(TooLong(chars))
    else None
  }

  function Counter(attempts: map<string, RateLimit.Attempts>, key: string): Option<RateLimit.Attempts> {
    if key in attempts then Some(attempts[key]) else None
  }

  /** The source folds the name to lower case; a user's name here is their number. */
  function IdentityKey(author: int): string { "id:" + Numerals.PrintInt(author) }
  function ClientKey(client: string): string { "ip:" + client }

  /** Each author and each client has a counter of its own. */
  lemma KeysAreSeparate(author: int, other: int, client: string, another: string)
    ensures IdentityKey(author) == IdentityKey(other) <==> author == other
    ensures ClientKey(client) == ClientKey(another) <==> client == another
    ensures IdentityKey(author) != ClientKey(client)
  {
    hide Numerals.PrintInt;
    assert IdentityKey(author)[0] == 'i' && IdentityKey(author)[1] == 'd' && ClientKey(client)[1] == 'p';
    assert IdentityKey(author)[3..] == Numerals.PrintInt(author) && IdentityKey(other)[3..] == Numerals.PrintInt(other);
    assert ClientKey(client)[3..] == client && ClientKey(another)[3..] == another;
    Numerals.PrintIntIsInjective(author, other);
  }

  /** What others can change back: the thread's state and the counters, at one moment. */
  datatype Moment = Moment(thread: Option<ThreadState>, attempts: map<string, RateLimit.Attempts>)

  /** The counters as they were at some moment from the one numbered `from` on. */
  predicate CountersWere(moments: seq<Moment>, from: nat, request: Request,
                         read: (Option<RateLimit.Attempts>, Option<RateLimit.Attempts>)) {
    exists i :: from <= i < |moments|
      && IsStored(moments[i].attempts, IdentityKey(request.author), read.0)
      && IsStored(moments[i].attempts, ClientKey(request.client), read.1)
  }

  predicate IsStored(attempts: map<string, RateLimit.Attempts>, key: string, counter: Option<RateLimit.Attempts>) {
    (counter.Some? <==> key in attempts) && (counter.Some? ==> counter.value == attempts[key])
  }

  predicate ThreadWas(moments: seq<Moment>, from: nat, thread: Option<ThreadState>) {
    exists i :: from <= i < |moments| && moments[i].thread == thread
  }

  lemma StatesLast(moments: seq<Moment>, more: seq<Moment>, from: nat)
    requires moments <= more
    ensures forall thread :: ThreadWas(moments, from, thread) ==> ThreadWas(more, from, thread)
  {
    assert forall i :: 0 <= i < |moments| ==> moments[i] == more[i];
  }

  lemma MomentsLast(moments: seq<Moment>, more: seq<Moment>, from: nat, earlier: nat, request: Request)
    requires moments <= more && earlier <= from
    ensures forall thread :: ThreadWas(moments, from, thread) ==> ThreadWas(more, earlier, thread)
    ensures forall read :: CountersWere(moments, from, request, read) ==> CountersWere(more, earlier, request, read)
  {
    hide IsStored, IdentityKey, ClientKey;
    assert forall i :: 0 <= i < |moments| ==> moments[i] == more[i];
  }

  /** Row `c` is a reply to the post with this id, or a top-level post if there is none. */
  predicate RepliesTo(rows: seq<Row>, c: nat, parent: Option<string>)
    requires c < |rows|
  {
    Names(rows, parent, rows[c].parent)
  }

  /** Row `i`, added since the table had `from` rows, is the requested reply and was the next
      child of its parent when it committed. */
  predicate IsReply(rows: seq<Row>, from: nat, i: nat, id: string, parent: Option<string>, pending: bool) {
    && from <= i < |rows|
    && rows[i].id == id && rows[i].pending == pending
    && RepliesTo(rows, i, parent)
    && NextChild(rows[..i], rows[i])
  }

  predicate IsRequested(rows: seq<Row>, from: nat, i: nat, request: Request) {
    exists id :: id in request.ids && IsReply(rows, from, i, id, request.parent, Pending(request))
  }

  /** The outcome names the row added, and names one only if one was added. */
  predicate Reported(outcome: Outcome, rows: seq<Row>, added: seq<nat>, request: Request) {
    match outcome
    case Posted(row) => |added| == 1 && added[0] < |rows| && row == rows[added[0]] && !Pending(request)
    case Held(row) => |added| == 1 && added[0] < |rows| && row == rows[added[0]] && Pending(request)
    case _ => added == []
  }

  predicate Increasing(s: seq<nat>) {
    forall i, j :: 0 <= i < j < |s| ==> s[i] < s[j]
  }

  /** Rows of somebody else's, all added under the same parent since the table had `from` rows. */
  predicate LostTo(rows: seq<Row>, charged: seq<nat>, from: nat, own: seq<nat>, parent: Option<string>) {
    && Increasing(charged)
    && forall c :: c in charged ==> from <= c < |rows| && c !in own && RepliesTo(rows, c, parent)
  }

  /** No id of the request is in use anywhere. */
  predicate Free(rows: seq<Row>, elsewhere: set<string>, ids: seq<string>) {
    (forall i :: 0 <= i < |rows| ==> rows[i].id !in ids) && forall id :: id in ids ==> id !in elsewhere
  }

  /** What stands against a reply to a thread found in this state. */
  function Admission(thread: Option<ThreadState>, request: Request): Option<Rejected> {
    if thread.None? || !request.authorExists then Some(NoSuchPlace)
    else if thread.value !in {Visible, Pinned} then Some(ThreadLocked)
    else if request.triage.Refuse? then Some(Duplicate)
    else None
  }

  function Pending(request: Request): bool {
    request.triage.Reasons? && request.triage.count > 0
  }

  function Attempts(request: Request): nat {
    if |request.ids| < MAX_PATH_RETRIES + 1 then |request.ids| else MAX_PATH_RETRIES + 1
  }

  /** At some moment since the table had `from` rows there was no room for another reply there. */
  ghost predicate RanOut(rows: seq<Row>, from: nat, parent: Option<string>) {
    exists n, path :: from <= n <= |rows| && Names(rows[..n], parent, path) && !HasRoom(rows[..n], path)
  }

  /** The thread was absent at some moment since `from`, or the parent was when the table was `rows`. */
  predicate PlaceMissing(rows: seq<Row>, moments: seq<Moment>, from: nat, parent: Option<string>) {
    ThreadWas(moments, from, None) || (parent.Some? && !HasId(rows, parent.value))
  }

  predicate IsOpen(thread: Option<ThreadState>) {
    thread == Some(Visible) || thread == Some(Pinned)
  }

  /** Somebody else has replied to the same parent since the table had `from` rows. */
  predicate Overtaken(rows: seq<Row>, from: nat, own: seq<nat>, parent: Option<string>) {
    exists c :: from <= c < |rows| && c !in own && RepliesTo(rows, c, parent)
  }

  /** Nothing stands in a request's way, from the table `before` and the moment `from` on: the thread
      stays open, the author exists, triage does not refuse, the parent is there and has room, the
      ids are in use only by the rows `added`, and nobody else replies to the same parent. */
  ghost predicate Clear(before: seq<Row>, rows: seq<Row>, added: seq<nat>, elsewhere: set<string>, moments: seq<Moment>, from: nat,
                  request: Request) {
    && (forall i :: from <= i < |moments| ==> IsOpen(moments[i].thread))
    && request.authorExists && request.triage.Reasons?
    && (exists path :: Names(before, request.parent, path) && HasRoom(before, path))
    && |request.ids| > 0
    && (forall i :: 0 <= i < |rows| && rows[i].id in request.ids ==> i in added)
    && (forall id :: id in request.ids ==> id !in elsewhere)
    && forall c :: |before| <= c < |rows| && RepliesTo(rows, c, request.parent) ==> c in added
  }

  class Store {
    var rows: seq<Row>                      // the thread's posts, in commit order
    var elsewhere: set<string>              // ids of posts in other threads
    var thread: Option<ThreadState>         // `None` while the thread does not exist
    var attempts: map<string, RateLimit.Attempts>
    const perAuthor: RateLimit.Limit
    const perClient: RateLimit.Limit
    const base: seq<Row>                    // the rows there were at the start, imported ones included
    ghost var moments: seq<Moment>          // every state of the thread and the counters, the last one now
    ghost var failures: nat                 // how many calls to the backend have failed
    ghost var own: seq<nat>                 // the rows this caller's batches added
    ghost var counted: seq<(string, RateLimit.Attempts)>  // the counters this caller wrote

    /** Whatever the thread holds to begin with: posts made here, imported ones, or none. */
    constructor (rows: seq<Row>, perAuthor: RateLimit.Limit, perClient: RateLimit.Limit)
      requires IsTable(rows)
      ensures Valid() && base == this.rows == rows && this.perAuthor == perAuthor && this.perClient == perClient
    {
      this.rows, base := rows, rows;
      elsewhere, thread, attempts := {}, None, map[];
      moments, failures := [Moment(None, map[])], 0;
      own, counted := [], [];
      this.perAuthor, this.perClient := perAuthor, perClient;
    }

    ghost predicate Valid()
      reads this
    {
      && History(base, rows) && |base| <= |rows| && (forall i :: i in own ==> i < |rows|)
      && |moments| > 0 && moments[|moments| - 1] == Moment(thread, attempts)
    }

    /** Anything others do, any number of times: commit a reply built from an earlier probe, use up
        ids elsewhere, change the thread's state, write counters. */
    method Others()
      requires Valid()
      modifies this`rows, this`elsewhere, this`thread, this`attempts, this`moments
      ensures Valid() && old(rows) <= rows && old(elsewhere) <= elsewhere && old(moments) <= moments
    {
      hide History, Commits, IsPath;
      var steps: nat :| 0 <= steps;
      for i := 0 to steps
        invariant Valid() && old(rows) <= rows && old(elsewhere) <= elsewhere && old(moments) <= moments
      {
        if {
          case true =>
            var row: Row, seen: nat := *, *;
            if |base| <= seen && Commits(rows, row, seen) {
              HistoryExtends(base, rows, row, seen);
              rows := rows + [row];
            }
          case true =>
            var id: string := *;
            elsewhere := elsewhere + {id};
          case true =>
            thread := *;
          case true =>
            attempts := *;
        }
        moments := moments + [Moment(thread, attempts)];
      }
    }

    /** Whether the next call to the backend fails. */
    method Fails() returns (failed: bool)
      modifies this`failures
      ensures failures == old(failures) + if failed then 1 else 0
    {
      failed := *;
      failures := failures + if failed then 1 else 0;
    }

    method LoginAttempts(request: Request)
      returns (r: Result<(Option<RateLimit.Attempts>, Option<RateLimit.Attempts>), StoreError>)
      requires Valid()
      modifies this`rows, this`elsewhere, this`thread, this`attempts, this`moments, this`failures
      ensures Valid() && old(rows) <= rows && old(elsewhere) <= elsewhere && old(moments) <= moments
      ensures r.Err? ==> r.error == Backend
      ensures failures == old(failures) + if r.Err? then 1 else 0
      ensures r.Ok? ==> r.value == (Counter(attempts, IdentityKey(request.author)), Counter(attempts, ClientKey(request.client)))
    {
      hide History, IsPath, IdentityKey, ClientKey;
      Others();
      var failed := Fails();
      if failed { return Err(Backend); }
      r := Ok((Counter(attempts, IdentityKey(request.author)), Counter(attempts, ClientKey(request.client))));
    }

    method RecordAttempt(key: string, next: RateLimit.Attempts) returns (r: Result<(), StoreError>)
      requires Valid()
      modifies this`rows, this`elsewhere, this`thread, this`attempts, this`moments, this`failures, this`counted
      ensures Valid() && old(rows) <= rows && old(elsewhere) <= elsewhere && old(moments) <= moments
      ensures r.Ok? ==> key in attempts && attempts[key] == next && counted == old(counted) + [(key, next)]
      ensures r.Err? ==> r.error == Backend && counted == old(counted)
      ensures failures == old(failures) + if r.Err? then 1 else 0
    {
      hide History, IsPath;
      Others();
      var failed := Fails();
      if failed { return Err(Backend); }
      attempts := attempts[key := next];
      moments := moments + [Moment(thread, attempts)];
      counted := counted + [(key, next)];
      r := Ok(());
    }

    /** The thread's row, and then `POST_IN_THREAD`. A place is missing only if the thread was at some
        moment of the call, or the parent was when it was looked up. */
    method LocateParent(parentId: Option<string>) returns (r: Result<Option<Path>, StoreError>)
      requires Valid()
      modifies this`rows, this`elsewhere, this`thread, this`attempts, this`moments, this`failures
      ensures Valid() && old(rows) <= rows && old(elsewhere) <= elsewhere && old(moments) <= moments
      ensures r.Ok? ==> ParentPresent(rows, r.value) && Names(rows, parentId, r.value)
      ensures r.Ok? ==> exists state :: ThreadWas(moments, |old(moments)| - 1, Some(state))
      ensures r.Err? ==> r.error in {NotFound, Backend}
      ensures r == Err(Backend) <==> failures > old(failures)
      ensures r == Err(NotFound) ==> PlaceMissing(rows, moments, |old(moments)| - 1, parentId)
      ensures failures >= old(failures)
    {
      hide History, IsPath;
      Others();
      var failed := Fails();
      if failed { return Err(Backend); }
      assert moments[|moments| - 1].thread == thread;
      if thread.None? { return Err(NotFound); }
      assert ThreadWas(moments, |old(moments)| - 1, Some(thread.value));
      if parentId.None? { return Ok(None); }
      ghost var found := moments;
      Others();
      StatesLast(found, moments, |old(moments)| - 1);
      failed := Fails();
      if failed { return Err(Backend); }
      Writers.PathOfIdIsRow(rows, parentId.value);
      var parent := Writers.PathOfId(rows, parentId.value);
      if parent.None? { return Err(NotFound); }
      r := Ok(parent);
    }

    /** `LAST_PATH_IN_RANGE` and the arithmetic on its answer. A position with no room for another
        reply, at the deepest level or with every ordinal used, reads as a failure of the backend. */
    method ProbeNext(parent: Option<Path>) returns (r: Result<Path, StoreError>)
      requires Valid() && ParentPresent(rows, parent)
      modifies this`rows, this`elsewhere, this`thread, this`attempts, this`moments, this`failures
      ensures Valid() && old(rows) <= rows && old(elsewhere) <= elsewhere && old(moments) <= moments
      ensures ParentPresent(rows, parent)
      ensures r.Ok? ==> NextPath(Paths(rows), parent) == Ok(r.value)
      ensures r.Err? ==> r.error == Backend
      ensures r.Err? <==> failures > old(failures) || |Position(parent)| == MAX_DEPTH || FirstFree(Paths(rows), parent) > MAX_ORDINAL
      ensures failures >= old(failures)
    {
      hide History, IsPath, LastInRange, SearchBounds, FirstFree;
      Others();
      HasPathGrows(rows, |old(rows)|, parent);
      var failed := Fails();
      if failed { return Err(Backend); }
      var last := LastInRange(Paths(rows), SearchBounds(parent));
      AllocatesFirstFree(Paths(rows), parent);
      match Allocate(parent, last) {
        case Ok(path) => r := Ok(path);
        case Err(_) => r := Err(Backend);
      }
    }

    /** `INSERT_POST` and `BUMP_THREAD` in one batch, for a path probed when the table had `seen`
        rows. */
    method CommitBatch(row: Row, ghost seen: nat) returns (r: Result<Row, StoreError>, ghost added: seq<nat>)
      requires Valid() && |base| <= seen <= |rows| && ParentPresent(rows[..seen], row.parent)
      requires NextPath(Paths(rows[..seen]), row.parent) == Ok(row.path)
      modifies this`rows, this`own, this`failures
      ensures Valid() && old(rows) <= rows && own == old(own) + added
      ensures added == [] ==> rows == old(rows)
      ensures added != [] ==> added == [|old(rows)|] && rows == old(rows) + [row] && NextChild(old(rows), row)
      ensures r.Ok? ==> r.value == row && added != []
      ensures r.Err? && r.error != Backend ==> added == []
      ensures var taken := row.id in elsewhere || HasId(old(rows), row.id) || HasPath(old(rows), row.path);
              && (r == Err(Conflict) ==> taken)
              && (taken ==> r.Err? && added == [])
              && (failures == old(failures) ==> r == if taken then Err(Conflict) else Ok(row))
      ensures r.Err? ==> r.error in {Conflict, Backend}
      ensures r == Err(Backend) <==> failures > old(failures)
      ensures failures >= old(failures)
    {
      hide NextPath, History, IsPath, Numbered;
      var failed := Fails();
      if failed { return Err(Backend), []; }
      if HasPath(rows, row.path) || HasId(rows, row.id) || row.id in elsewhere {
        return Err(Conflict), [];
      }
      HistoryIsNumbered(base, rows);
      CommitIsNextChild(base, rows, row, seen);
      HistoryExtends(base, rows, row, seen);
      added := [|rows|];
      own := own + added;
      rows := rows + [row];
      // The batch can succeed and still report no row id.
      failed := Fails();
      r := if failed then Err(Backend) else Ok(row);
    }

    /** Reads, then one batch. A success is the next child of its parent in commit order. Each failure
        has its reason: a call failed or there was no room, the thread or the parent was not there,
        or the id was taken or somebody else's reply took the probed path since this call began. */
    method InsertPost(id: string, parentId: Option<string>, pending: bool)
      returns (r: Result<Row, StoreError>, ghost added: seq<nat>)
      requires Valid()
      modifies this`rows, this`elsewhere, this`thread, this`attempts, this`moments, this`failures, this`own
      ensures Valid() && old(rows) <= rows && old(elsewhere) <= elsewhere && old(moments) <= moments
      ensures own == old(own) + added && |added| <= 1
      ensures |added| == 1 ==> IsReply(rows, |old(rows)|, added[0], id, parentId, pending)
      ensures r.Ok? ==> |added| == 1 && r.value == rows[added[0]]
      ensures r.Err? ==> r.error in {NotFound, Conflict, Backend}
      ensures r.Err? && r.error != Backend ==> added == []
      ensures r == Err(Conflict) ==>
                id in elsewhere || HasId(rows, id) || Overtaken(rows, |old(rows)|, own, parentId)
      ensures r == Err(NotFound) ==> PlaceMissing(old(rows), moments, |old(moments)| - 1, parentId)
      ensures r == Err(Backend) ==> failures > old(failures) || (added == [] && RanOut(rows, |old(rows)|, parentId))
      ensures failures > old(failures) ==> r == Err(Backend)
      ensures failures >= old(failures)
    {
      hide NextPath, History, IsPath, Numbered, NextChild, Ordinals, FirstFree, IsTable, Position, HasId, RanOut, HasRoom, ThreadWas,
        HasPath, Overtaken, Names, IsReply, PlaceMissing;
      added := [];
      ghost var start := moments;
      var located := LocateParent(parentId);
      if located.Err? {
        WasMissing(old(rows), rows, moments, |start| - 1, |start| - 1, parentId);
        return Err(located.error), [];
      }
      var parent := located.value;
      ghost var found := rows;

      var probe := ProbeNext(parent);
      if probe.Err? {
        NamesGrows(found, rows, parentId, parent);
        if failures == old(failures) { NoRoomNow(rows, |old(rows)|, parentId, parent); }
        return Err(probe.error), [];
      }
      ghost var probed := rows;

      Others();
      ghost var before := rows;
      assert before[..|probed|] == probed;
      NamesGrows(found, before, parentId, parent);
      LostRace(base, before, |old(rows)|, |probed|, own, parentId, parent, probe.value);
      r, added := CommitBatch(Row(id, parent, probe.value, pending), |probed|);
      if added != [] {
        BecomesReply(before, Row(id, parent, probe.value, pending), |old(rows)|, parentId);
      } else {
        assert rows == before && own == old(own);
      }
    }

    /** The row is written: advance both counters, then hand a held post to moderation. */
    method Finish(request: Request, row: Row, author: RateLimit.Attempts, client: RateLimit.Attempts)
      returns (r: Result<Outcome, StoreError>)
      requires Valid()
      modifies this`rows, this`elsewhere, this`thread, this`attempts, this`moments, this`failures, this`counted
      ensures Valid() && old(rows) <= rows && old(elsewhere) <= elsewhere && old(moments) <= moments
      ensures r.Ok? ==> r.value == if Pending(request) then Held(row) else Posted(row)
      ensures r.Ok? ==>
                counted == old(counted) + [(IdentityKey(request.author), author), (ClientKey(request.client), client)]
      ensures r.Err? ==> r.error == Backend
      ensures failures == old(failures) + if r.Err? then 1 else 0
    {
      hide History, IsPath, IdentityKey, ClientKey;
      var recorded := RecordAttempt(IdentityKey(request.author), author);
      if recorded.Err? { return Err(Backend); }
      recorded := RecordAttempt(ClientKey(request.client), client);
      if recorded.Err? { return Err(Backend); }
      if Pending(request) {
        var failed := Fails();
        if failed { return Err(Backend); }
        return Ok(Held(row));
      }
      r := Ok(Posted(row));
    }

    /** At most `MAX_PATH_RETRIES + 1` attempts, each with its own id; only a conflict is retried. */
    method Retry(request: Request, author: RateLimit.Attempts, client: RateLimit.Attempts)
      returns (r: Result<Outcome, StoreError>, ghost added: seq<nat>, ghost charged: seq<nat>)
      requires Valid()
      modifies this
      ensures Valid() && old(rows) <= rows && old(elsewhere) <= elsewhere && old(moments) <= moments
      ensures own == old(own) + added && |added| <= 1
      ensures |added| == 1 ==> IsRequested(rows, |old(rows)|, added[0], request)
      ensures r.Ok? ==> Reported(r.value, rows, added, request)
      ensures r.Ok? && |added| == 1 ==>
                counted == old(counted) + [(IdentityKey(request.author), author), (ClientKey(request.client), client)]
      ensures added == [] ==> counted == old(counted)
      ensures r.Err? ==> r.error == Backend
      ensures r.Err? ==> failures > old(failures) || (added == [] && RanOut(rows, |old(rows)|, request.parent))
      ensures failures > old(failures) ==> r.Err?
      ensures failures >= old(failures)
      ensures r.Ok? ==> !r.value.RateLimited?
      ensures r.Ok? && r.value.Refused? ==> r.value.why in {Contended, NoSuchPlace}
      ensures r == Ok(Refused(NoSuchPlace)) ==> PlaceMissing(old(rows), moments, |old(moments)| - 1, request.parent)
      ensures r == Ok(Refused(Contended)) && Free(rows, elsewhere, request.ids) ==>
                LostTo(rows, charged, |old(rows)|, own, request.parent) && |charged| == Attempts(request)
    {
      hide History, IsPath, NextChild, Names, LostTo, RanOut, ThreadWas, HasId, PlaceMissing, Free, IdentityKey, ClientKey;
      added, charged := [], [];
      ChargeNone(rows, own, request.parent);
      var last, n := Contended, 0;
      while n < Attempts(request)
        invariant 0 <= n <= Attempts(request)
        invariant Valid() && old(rows) <= rows && old(elsewhere) <= elsewhere && old(moments) <= moments
        invariant failures == old(failures)
        invariant own == old(own) && counted == old(counted) && added == [] && last == Contended
        invariant Free(rows, elsewhere, request.ids) ==>
                    |charged| == n && LostTo(rows, charged, |old(rows)|, own, request.parent)
      {
        ghost var before, others, from := rows, elsewhere, |moments| - 1;
        var id, inserted := request.ids[n], Err(Backend);
        inserted, added := InsertPost(id, request.parent, Pending(request));
        match inserted {
          case Ok(row) =>
            ghost var at := rows;
            r := Finish(request, row, author, client);
            IsReplyGrows(at, rows, |before|, |old(rows)|, added[0], id, request.parent, Pending(request));
            return;
          case Err(Conflict) =>
            last := Contended;
            assert own == old(own);
            if Free(rows, elsewhere, request.ids) {
              FreeBefore(before, rows, others, elsewhere, request.ids);
              FreeIsUnused(rows, elsewhere, request.ids, id);
              ghost var c :| |before| <= c < |rows| && c !in own && RepliesTo(rows, c, request.parent);
              ChargeOneMore(before, rows, charged, |old(rows)|, own, request.parent, c);
              charged := charged + [c];
            }
          case Err(TooDeep(_)) => assert false;    // no store answers this
          case Err(NotFound) =>
            WasMissing(old(rows), before, moments, |old(moments)| - 1, from, request.parent);
            return Ok(Refused(NoSuchPlace)), added, charged;
          case Err(Backend) =>
            if added != [] {
              IsReplyGrows(rows, rows, |before|, |old(rows)|, added[0], id, request.parent, Pending(request));
            } else {
              RanOutSince(rows, |before|, |old(rows)|, request.parent);
            }
            return Err(Backend), added, charged;
        }
        n := n + 1;
      }
      r := Ok(Refused(last));
    }

    /** The thread takes replies and triage does not refuse this one. */
    method Admit(request: Request) returns (r: Result<Option<Rejected>, StoreError>, ghost read: Option<ThreadState>)
      requires Valid()
      modifies this`rows, this`elsewhere, this`thread, this`attempts, this`moments, this`failures
      ensures Valid() && old(rows) <= rows && old(elsewhere) <= elsewhere && old(moments) <= moments
      ensures r.Err? ==> r.error == Backend
      ensures r.Err? <==> failures > old(failures)
      ensures failures >= old(failures)
      ensures r.Ok? ==> r.value == Admission(read, request)
      ensures ThreadWas(moments, |old(moments)| - 1, read)
    {
      hide History, IsPath;
      Others();
      read := thread;
      assert moments[|moments| - 1].thread == read;
      var failed := Fails();
      if failed { return Err(Backend), read; }
      if thread.None? || !request.authorExists { return Ok(Some(NoSuchPlace)), read; }
      if thread.value !in {Visible, Pinned} { return Ok(Some(ThreadLocked)), read; }
      failed := Fails();
      if failed { return Err(Backend), read; }
      r := Ok(if request.triage.Refuse? then Some(Duplicate) else None);
    }

    /** What the limiter decides on the two counters as read. */
    function Decisions(request: Request, read: (Option<RateLimit.Attempts>, Option<RateLimit.Attempts>))
      : (RateLimit.Decision, RateLimit.Decision)
    {
      (perAuthor.Check(read.0, request.now), perClient.Check(read.1, request.now))
    }

    predicate Allowed(request: Request, read: (Option<RateLimit.Attempts>, Option<RateLimit.Attempts>)) {
      Decisions(request, read).0.Allow? && Decisions(request, read).1.Allow?
    }

    /** The gates in order, then the attempts. `added` is this caller's own row, `read` the two
        counters and `found` the thread's state if it got that far, and `charged` the commits each
        conflict was lost to. */
    method Post(request: Request)
      returns (r: Result<Outcome, StoreError>, ghost added: seq<nat>, ghost charged: seq<nat>,
               ghost read: Option<(Option<RateLimit.Attempts>, Option<RateLimit.Attempts>)>,
               ghost found: Option<Option<ThreadState>>)
      requires Valid()
      modifies this
      ensures Valid() && old(rows) <= rows && old(elsewhere) <= elsewhere && old(moments) <= moments
      ensures own == old(own) + added && |added| <= 1
      ensures |added| == 1 ==> IsRequested(rows, |old(rows)|, added[0], request)
      // What it looked at is what was there at some moment of the call.
      ensures read.Some? ==> CountersWere(moments, |old(moments)| - 1, request, read.value)
      ensures found.Some? ==> ThreadWas(moments, |old(moments)| - 1, found.value)
      // A body of the wrong length, and only that, is refused as such, before anything is read.
      ensures r == Ok(Refused(EmptyBody)) <==> request.bodyChars < 2
      ensures forall n :: r == Ok(Refused(TooLong(n))) <==> n == request.bodyChars > 32_768
      ensures !(2 <= request.bodyChars <= 32_768) ==> added == [] && read.None?
      // A row exactly when the outcome says so; with a row written only the backend can still fail.
      ensures r.Ok? ==> Reported(r.value, rows, added, request)
      ensures r.Err? ==> r.error == Backend
      ensures r.Err? ==> failures > old(failures) || (added == [] && RanOut(rows, |old(rows)|, request.parent))
      ensures failures > old(failures) ==> r.Err?
      // Held exactly when triage has reasons.
      ensures r.Ok? && r.value.Held? ==> request.triage.Reasons? && request.triage.count > 0 && r.value.row.pending
      ensures r.Ok? && r.value.Posted? ==> request.triage == Reasons(0) && !r.value.row.pending
      // A row only if the thread was open when it was looked at, and the refusals that look at it.
      ensures |added| == 1 ==> found.Some? && IsOpen(found.value) && request.authorExists && !request.triage.Refuse?
      ensures r == Ok(Refused(ThreadLocked)) ==> found.Some? && found.value.Some? && !IsOpen(found.value)
      ensures r == Ok(Refused(Duplicate)) ==> found.Some? && IsOpen(found.value) && request.triage.Refuse?
      ensures r == Ok(Refused(NoSuchPlace)) ==>
                !request.authorExists || PlaceMissing(old(rows), moments, |old(moments)| - 1, request.parent)
      // No store reports a depth cap, so no reply is ever refused as too deep.
      ensures r.Ok? && r.value.Refused? ==> !r.value.why.TooDeepFor?
      // Both counters advance by the checked step when a row is reported, and never without a row.
      ensures |added| == 1 ==> read.Some? && Allowed(request, read.value)
      ensures r.Ok? && |added| == 1 ==>
                counted == old(counted) + [(IdentityKey(request.author), Decisions(request, read.value).0.next),
                                           (ClientKey(request.client), Decisions(request, read.value).1.next)]
      ensures added == [] ==> counted == old(counted)
      // The limiter refuses with the longer wait, and always before anything is written.
      ensures (r.Ok? && r.value.RateLimited?) <==> (read.Some? && !Allowed(request, read.value))
      ensures r.Ok? && r.value.RateLimited? ==>
                r.value.retryAfterSecs == RateLimit.Wait(Decisions(request, read.value).0, Decisions(request, read.value).1)
      // Each conflict was lost to somebody else's reply under the same parent, never the same one.
      ensures r == Ok(Refused(Contended)) && Free(rows, elsewhere, request.ids) ==>
                && LostTo(rows, charged, |old(rows)|, own, request.parent)
                && |charged| == if |request.ids| < 4 then |request.ids| else 4
      // With nothing in its way and the limiter open, a request ends with its row.
      ensures (Clear(old(rows), rows, added, elsewhere, moments, |old(moments)| - 1, request) && failures == old(failures)
               && 2 <= request.bodyChars <= 32_768 && (read.Some? ==> Allowed(request, read.value)))
                ==> |added| == 1 && r.Ok? && (r.value.Posted? || r.value.Held?)
    {
      hide History, RateLimit.Limit.Check, NextChild, Names, Free, RateLimit.Wait, RanOut, ThreadWas, PlaceMissing, Clear,
        CountersWere, LostTo, IsRequested, HasId, IdentityKey, ClientKey;
      added, charged, read, found := [], [], None, None;
      ghost var from: nat := |moments| - 1;
      var refusal := CheckBody(request.bodyChars);
      if refusal.Some? { return Ok(Refused(refusal.value)), [], [], None, None; }

      var states := LoginAttempts(request);
      if states.Err? { return Err(Backend), [], [], None, None; }
      read := Some(states.value);
      ReadNow(moments, from, request, states.value);
      ghost var known := moments;
      var author := perAuthor.Check(states.value.0, request.now);
      var client := perClient.Check(states.value.1, request.now);
      if author.Deny? || client.Deny? {
        return Ok(RateLimited(RateLimit.Wait(author, client))), [], [], read, None;
      }

      var admitted;
      ghost var state;
      ghost var since: nat := |moments| - 1;
      admitted, state := Admit(request);
      found := Some(state);
      MomentsLast(known, moments, from, from, request);
      MomentsLast(moments, moments, since, from, request);
      known := moments;
      if admitted.Err? { return Err(Backend), [], [], read, found; }
      if admitted.value.Some? {
        MissingWhenRead(old(rows), moments, from, request.parent, state);
        ClearIsOpen(old(rows), rows, added, elsewhere, moments, from, request, state);
        return Ok(Refused(admitted.value.value)), [], [], read, found;
      }

      ghost var reached, later: nat := rows, |moments| - 1;
      r, added, charged := Retry(request, author.next, client.next);
      MomentsLast(known, moments, from, from, request);
      RetriedSince(old(rows), reached, rows, moments, from, later, request, added, charged, own);
      if added == [] && Clear(old(rows), rows, added, elsewhere, moments, from, request) {
        NothingToBlame(base, old(rows), rows, own, elsewhere, moments, from, request, charged);
      }
    }
  }

  /** The insert does not look at the thread's state again: a thread that somebody locks between
      admission and insert still takes the reply. */
  method CommitAfterLock(store: Store, request: Request, row: Row) returns (r: Result<Row, StoreError>, ghost added: seq<nat>)
    requires store.Valid() && Admission(store.thread, request) == None
    requires Commits(store.rows, row, |store.rows|) && row.id !in store.elsewhere
    modifies store
    ensures store.Valid() && store.thread == Some(Locked)
    ensures store.failures == old(store.failures) ==> r == Ok(row) && store.rows == old(store.rows) + [row]
  {
    hide History, IsPath, NextPath, NextChild;
    store.thread := Some(Locked);
    store.moments := store.moments + [Moment(store.thread, store.attempts)];
    assert store.rows[..|store.rows|] == store.rows;
    r, added := store.CommitBatch(row, |store.rows|);
  }

  lemma HadNoId(rows: seq<Row>, more: seq<Row>, id: Option<string>)
    requires rows <= more
    ensures id.Some? && !HasId(more, id.value) ==> !HasId(rows, id.value)
  {
    assert forall i :: 0 <= i < |rows| ==> rows[i] == more[i];
  }

  lemma NoRoomNow(rows: seq<Row>, from: nat, parentId: Option<string>, parent: Option<Path>)
    requires from <= |rows| && Names(rows, parentId, parent)
    requires |Position(parent)| == MAX_DEPTH || FirstFree(Paths(rows), parent) > MAX_ORDINAL
    ensures RanOut(rows, from, parentId)
  {
    hide FirstFree, Names;
    assert rows[..|rows|] == rows;
  }

  lemma LostRace(base: seq<Row>, rows: seq<Row>, from: nat, probed: nat, own: seq<nat>, parentId: Option<string>,
                 parent: Option<Path>, path: Path)
    requires History(base, rows) && |base| <= probed <= |rows| && from <= probed && forall i :: i in own ==> i < from
    requires Names(rows, parentId, parent) && NextPath(Paths(rows[..probed]), parent) == Ok(path)
    ensures HasPath(rows, path) ==> Overtaken(rows, from, own, parentId)
  {
    hide History, IsPath, NextPath, Names;
    if HasPath(rows, path) {
      var c := ChildAt(base, rows, probed, parent, path);
      assert from <= c < |rows| && c !in own && RepliesTo(rows, c, parentId);
    }
  }

  lemma BecomesReply(rows: seq<Row>, row: Row, from: nat, parentId: Option<string>)
    requires from <= |rows| && NextChild(rows, row) && Names(rows, parentId, row.parent)
    ensures IsReply(rows + [row], from, |rows|, row.id, parentId, row.pending)
  {
    hide NextChild, Names;
    assert (rows + [row])[..|rows|] == rows;
    NamesGrows(rows, rows + [row], parentId, row.parent);
  }

  lemma RanOutSince(rows: seq<Row>, from: nat, earlier: nat, parent: Option<string>)
    requires earlier <= from
    ensures RanOut(rows, from, parent) ==> RanOut(rows, earlier, parent)
  {
    hide HasRoom, Names;
  }

  lemma WasMissing(before: seq<Row>, rows: seq<Row>, moments: seq<Moment>, from: nat, since: nat, parent: Option<string>)
    requires before <= rows && from <= since
    ensures PlaceMissing(rows, moments, since, parent) ==> PlaceMissing(before, moments, from, parent)
  {
    hide HasId;
    HadNoId(before, rows, parent);
  }

  lemma FreeIsUnused(rows: seq<Row>, elsewhere: set<string>, ids: seq<string>, id: string)
    requires Free(rows, elsewhere, ids) && id in ids
    ensures !HasId(rows, id) && id !in elsewhere
  {
  }

  lemma ReadNow(moments: seq<Moment>, from: nat, request: Request, read: (Option<RateLimit.Attempts>, Option<RateLimit.Attempts>))
    requires from < |moments|
    requires var now := moments[|moments| - 1].attempts;
             read == (Counter(now, IdentityKey(request.author)), Counter(now, ClientKey(request.client)))
    ensures CountersWere(moments, from, request, read)
  {
  }

  lemma MissingWhenRead(before: seq<Row>, moments: seq<Moment>, from: nat, parent: Option<string>, state: Option<ThreadState>)
    requires ThreadWas(moments, from, state)
    ensures state.None? ==> PlaceMissing(before, moments, from, parent)
  {
  }

  lemma ClearIsOpen(before: seq<Row>, rows: seq<Row>, added: seq<nat>, elsewhere: set<string>, moments: seq<Moment>, from: nat,
                    request: Request, state: Option<ThreadState>)
    requires ThreadWas(moments, from, state)
    ensures Clear(before, rows, added, elsewhere, moments, from, request) ==> Admission(state, request) == None
  {
    hide HasRoom, Names;
  }

  lemma RetriedSince(before: seq<Row>, reached: seq<Row>, rows: seq<Row>, moments: seq<Moment>, from: nat, later: nat,
                     request: Request, added: seq<nat>, charged: seq<nat>, own: seq<nat>)
    requires before <= reached <= rows && from <= later
    ensures RanOut(rows, |reached|, request.parent) ==> RanOut(rows, |before|, request.parent)
    ensures PlaceMissing(reached, moments, later, request.parent) ==> PlaceMissing(before, moments, from, request.parent)
    ensures |added| == 1 && IsRequested(rows, |reached|, added[0], request) ==> IsRequested(rows, |before|, added[0], request)
    ensures LostTo(rows, charged, |reached|, own, request.parent) ==> LostTo(rows, charged, |before|, own, request.parent)
    ensures |added| == 1 && IsRequested(rows, |reached|, added[0], request) ==>
              added[0] < |rows| && rows[added[0]].pending == Pending(request)
  {
    hide RanOut, PlaceMissing, NextChild, RepliesTo;
    RanOutSince(rows, |reached|, |before|, request.parent);
    WasMissing(before, reached, moments, from, later, request.parent);
    if |added| == 1 && IsRequested(rows, |reached|, added[0], request) {
      var id :| id in request.ids && IsReply(rows, |reached|, added[0], id, request.parent, Pending(request));
      assert IsReply(rows, |before|, added[0], id, request.parent, Pending(request));
    }
  }

  lemma NamesOnce(rows: seq<Row>, id: Option<string>, path: Option<Path>, other: Option<Path>)
    requires IsTable(rows) && Names(rows, id, path) && Names(rows, id, other)
    ensures path == other
  {
    hide IsPath;
    Writers.LocatesTheNamed(rows, id, path);
    Writers.LocatesTheNamed(rows, id, other);
  }

  lemma NoChildNoChange(base: seq<Row>, rows: seq<Row>, from: nat, path: Option<Path>)
    requires History(base, rows) && |base| <= from <= |rows| && !GainedChild(rows, from, path)
    ensures HasRoom(rows, path) <==> HasRoom(rows[..from], path)
  {
    hide IsPath, History, FirstFree, Position, Numbered, ChildCount, GainedChild;
    HistoryIsNumbered(base, rows);
    NumberedSince(base, rows, from);
    FirstFreeCounts(rows[..from], rows, path);
    GainsAreCounted(rows, from, path);
  }

  /** As long as a parent gains no child, it keeps the room it had. */
  lemma RoomLasts(base: seq<Row>, rows: seq<Row>, from: nat, parent: Option<string>, path: Option<Path>)
    requires History(base, rows) && |base| <= from <= |rows|
    requires Names(rows[..from], parent, path) && HasRoom(rows[..from], path)
    requires forall c :: from <= c < |rows| ==> !RepliesTo(rows, c, parent)
    ensures !RanOut(rows, from, parent)
  {
    hide IsPath, IsTable, Names, History, HasRoom;
    HistoryIsTable(base, rows);
    NamesGrows(rows[..from], rows, parent, path);
    forall n, other | from <= n <= |rows| && Names(rows[..n], parent, other) ensures HasRoom(rows[..n], other) {
      NamesGrows(rows[..n], rows, parent, other);
      NamesOnce(rows, parent, path, other);
      assert rows[..n][..from] == rows[..from];
      HistoryPrefix(base, rows, n);
      assert forall c :: from <= c < n ==> rows[..n][c] == rows[c] && !RepliesTo(rows, c, parent);
      NoChildNoChange(base, rows[..n], from, path);
    }
  }

  /** A request that ended without a row, although nothing stood in its way, has nothing to blame. */
  lemma NothingToBlame(base: seq<Row>, before: seq<Row>, rows: seq<Row>, own: seq<nat>, elsewhere: set<string>,
                       moments: seq<Moment>, from: nat, request: Request, charged: seq<nat>)
    requires History(base, rows) && |base| <= |before| && before <= rows
    requires Clear(before, rows, [], elsewhere, moments, from, request)
    ensures !RanOut(rows, |before|, request.parent) && !PlaceMissing(before, moments, from, request.parent)
    ensures Free(rows, elsewhere, request.ids) && |request.ids| > 0
    ensures LostTo(rows, charged, |before|, own, request.parent) ==> charged == []
  {
    hide History, HasRoom, RanOut;
    var path :| Names(before, request.parent, path) && HasRoom(before, path);
    assert rows[..|before|] == before;
    RoomLasts(base, rows, |before|, request.parent, path);
    if |charged| > 0 { assert charged[0] in charged; }
  }

  lemma FreeBefore(rows: seq<Row>, more: seq<Row>, elsewhere: set<string>, further: set<string>, ids: seq<string>)
    requires rows <= more && elsewhere <= further && Free(more, further, ids)
    ensures Free(rows, elsewhere, ids)
  {
    forall i | 0 <= i < |rows| ensures rows[i].id !in ids { assert rows[i] == more[i]; }
  }

  lemma ChargeNone(rows: seq<Row>, own: seq<nat>, parent: Option<string>)
    ensures LostTo(rows, [], |rows|, own, parent)
  {
  }

  /** One more conflict is charged to a row committed during this attempt, and so after every row
      charged before. */
  lemma ChargeOneMore(rows: seq<Row>, more: seq<Row>, charged: seq<nat>, from: nat, own: seq<nat>,
                      parent: Option<string>, c: nat)
    requires rows <= more && from <= |rows| <= c < |more|
    requires LostTo(rows, charged, from, own, parent) && c !in own && RepliesTo(more, c, parent)
    ensures LostTo(more, charged + [c], from, own, parent)
  {
    assert forall i :: 0 <= i < |charged| ==> charged[i] in charged;
    forall d | d in charged ensures RepliesTo(more, d, parent) {
      assert more[d] == rows[d];
      NamesGrows(rows, more, parent, rows[d].parent);
    }
  }

  lemma IsReplyGrows(rows: seq<Row>, more: seq<Row>, from: nat, start: nat, i: nat, id: string,
                     parent: Option<string>, pending: bool)
    requires start <= from && rows <= more && IsReply(rows, from, i, id, parent, pending)
    ensures IsReply(more, start, i, id, parent, pending)
  {
    assert more[i] == rows[i] && more[..i] == rows[..i];
    NamesGrows(rows, more, parent, rows[i].parent);
  }

  /** The two ways a position can be full: a parent at the deepest level, and a level whose largest
      ordinal is in use, here with a single post in the thread. */
  lemma AtTheLimits(rows: seq<Path>)
    ensures var deepest := PathOf(seq(MAX_DEPTH, _ => 0));
            Depth(deepest) == MAX_DEPTH - 1 && NextPath(rows, Some(deepest)) == Err(PathError.TooDeep(MAX_DEPTH))
    ensures NextPath([PathOf([MAX_ORDINAL])], None) == Err(OrdinalTooLarge(MAX_ORDINAL + 1))
  {
    hide NextPath;
    AllocatesFirstFree(rows, Some(PathOf(seq(MAX_DEPTH, _ => 0))));
    var last := PathOf([MAX_ORDINAL]);
    assert last in [last] && Under(None, last) && Branch(None, last) == MAX_ORDINAL;
    AllocatesFirstFree([last], None);
  }
}
