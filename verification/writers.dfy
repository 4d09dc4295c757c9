// The insert protocol as a state machine: any number of writers, one atomic statement or batch
// per step, in any order (crates/worker/src/store.rs, append_post).
module Writers {
  import opened Common
  import opened TreePath
  import opened Allocation
  import opened ReplyTree

  /** Where a writer is inside one insert. */
  datatype Writer =
    | Idle
    | Located(parent: Option<Path>)
    | Probed(parent: Option<Path>, last: Option<Path>)

  datatype System = System(rows: seq<Row>, writers: map<nat, Writer>) {
    function Writer(w: nat): Writer {
      if w in writers then writers[w] else Idle
    }

    function Move(w: nat, to: Writer): System {
      this.(writers := writers[w := to])
    }
  }

  datatype Action =
    | Locate(parentId: Option<string>)
    | Probe
    | Insert(id: string, pending: bool)

  /** `POST_IN_THREAD`: the path of the row with this id. */
  function PathOfId(rows: seq<Row>, id: string): Option<Path> {
    if |rows| == 0 then None
    else if rows[|rows| - 1].id == id then Some(rows[|rows| - 1].path)
    else PathOfId(rows[..|rows| - 1], id)
  }

  /** An absent parent sends the writer back to the start. */
  function LocateStep(s: System, w: nat, parentId: Option<string>): System {
    match parentId
    case None => s.Move(w, Located(None))
    case Some(id) =>
      match PathOfId(s.rows, id)
      case Some(p) => s.Move(w, Located(Some(p)))
      case None => s.Move(w, Idle)
  }

  function ProbeStep(s: System, w: nat, parent: Option<Path>): System {
    s.Move(w, Probed(parent, LastInRange(Paths(s.rows), SearchBounds(parent))))
  }

  /** The batch: a full level and a lost race leave the table alone. */
  function InsertStep(s: System, w: nat, parent: Option<Path>, last: Option<Path>, id: string, pending: bool): System {
    match Allocate(parent, last)
    case Err(_) => s.Move(w, Idle)
    case Ok(path) =>
      if HasPath(s.rows, path) || HasId(s.rows, id) then s.Move(w, Idle)
      else s.(rows := s.rows + [Row(id, parent, path, pending)]).Move(w, Idle)
  }

  /** One step of writer `w`; an action that is not its next one does nothing. */
  function Act(s: System, w: nat, a: Action): System {
    match (a, s.Writer(w))
    case (Locate(parentId), _) => LocateStep(s, w, parentId)
    case (Probe, Located(parent)) => ProbeStep(s, w, parent)
    case (Insert(id, pending), Probed(parent, last)) => InsertStep(s, w, parent, last, id, pending)
    case _ => s
  }

  /** What a writer has read is what the table held at some moment up to now. */
  predicate ReadEarlier(rows: seq<Row>, w: Writer, seen: nat) {
    && seen <= |rows|
    && (w.Located? ==> ParentPresent(rows[..seen], w.parent))
    && (w.Probed? ==>
          && ParentPresent(rows[..seen], w.parent)
          && w.last == LastInRange(Paths(rows[..seen]), SearchBounds(w.parent)))
  }

  ghost predicate Consistent(from: nat, rows: seq<Row>, w: Writer) {
    exists seen :: from <= seen && ReadEarlier(rows, w, seen)
  }

  /** `base` is the table as it stood before any of the writers read it. */
  ghost predicate Inv(base: seq<Row>, s: System) {
    History(base, s.rows) && |base| <= |s.rows| && forall w :: Consistent(|base|, s.rows, s.Writer(w))
  }

  /** Looking an id up finds its row, wherever in the table it is, or there is none. */
  lemma {:induction false} PathOfIdIsRow(rows: seq<Row>, id: string)
    ensures PathOfId(rows, id).Some? <==> HasId(rows, id)
    ensures PathOfId(rows, id).Some? ==> Names(rows, Some(id), PathOfId(rows, id)) && ParentPresent(rows, PathOfId(rows, id))
  {
    hide IsPath;
    if |rows| > 0 {
      var n := |rows| - 1;
      PathOfIdIsRow(rows[..n], id);
      if rows[n].id != id {
        assert forall j :: 0 <= j < n ==> rows[..n][j] == rows[j];
        if PathOfId(rows[..n], id).Some? {
          NamesGrows(rows[..n], rows, Some(id), PathOfId(rows[..n], id));
          HasPathGrows(rows, n, PathOfId(rows[..n], id));
        }
      }
    }
  }

  /** With ids unique, it finds the only row there is. */
  lemma LocatesTheNamed(rows: seq<Row>, parentId: Option<string>, parent: Option<Path>)
    requires IsTable(rows) && Names(rows, parentId, parent)
    ensures parentId.Some? ==> PathOfId(rows, parentId.value) == parent
  {
    hide IsPath;
    if parentId.Some? {
      var j :| 0 <= j < |rows| && rows[j].id == parentId.value && parent == Some(rows[j].path);
      PathOfIdIsRow(rows, parentId.value);
    }
  }

  lemma StillConsistent(from: nat, rows: seq<Row>, row: Row, w: Writer)
    requires Consistent(from, rows, w)
    ensures Consistent(from, rows + [row], w)
  {
    var seen: nat :| from <= seen && ReadEarlier(rows, w, seen);
    assert (rows + [row])[..seen] == rows[..seen];
    assert ReadEarlier(rows + [row], w, seen);
  }

  lemma ReadJustNow(from: nat, rows: seq<Row>, w: Writer)
    requires from <= |rows|
    requires w.Located? || w.Probed? ==> ParentPresent(rows, w.parent)
    requires w.Probed? ==> w.last == LastInRange(Paths(rows), SearchBounds(w.parent))
    ensures Consistent(from, rows, w)
  {
    assert rows[..|rows|] == rows;
    assert ReadEarlier(rows, w, |rows|);
  }

  lemma LocateKeepsInv(base: seq<Row>, s: System, w: nat, parentId: Option<string>)
    requires Inv(base, s)
    ensures Inv(base, LocateStep(s, w, parentId)) && LocateStep(s, w, parentId).rows == s.rows
  {
    if parentId.Some? { PathOfIdIsRow(s.rows, parentId.value); }
    ReadJustNow(|base|, s.rows, LocateStep(s, w, parentId).Writer(w));
    MovedOnly(base, s, w, LocateStep(s, w, parentId).Writer(w));
  }

  lemma ProbeKeepsInv(base: seq<Row>, s: System, w: nat, parent: Option<Path>)
    requires Inv(base, s) && s.Writer(w) == Located(parent)
    ensures Inv(base, ProbeStep(s, w, parent))
  {
    hide History, IsPath;
    var seen: nat :| |base| <= seen && ReadEarlier(s.rows, s.Writer(w), seen);
    HasPathGrows(s.rows, seen, parent);
    var to := ProbeStep(s, w, parent).Writer(w);
    ReadJustNow(|base|, s.rows, to);
    MovedOnly(base, s, w, to);
  }

  lemma MovedOnly(base: seq<Row>, s: System, w: nat, to: Writer)
    requires Inv(base, s) && Consistent(|base|, s.rows, to)
    ensures Inv(base, s.Move(w, to))
  {
    hide History, ReadEarlier;
    forall v ensures Consistent(|base|, s.rows, s.Move(w, to).Writer(v)) {
      assert v != w ==> s.Move(w, to).Writer(v) == s.Writer(v);
    }
  }

  /** A batch built from a stale probe is still one of the commits a history is made of. */
  lemma StaleInsertCommits(rows: seq<Row>, w: Writer, row: Row, seen: nat)
    requires w.Probed? && ReadEarlier(rows, w, seen)
    requires row.parent == w.parent && Allocate(w.parent, w.last) == Ok(row.path)
    requires !HasPath(rows, row.path) && !HasId(rows, row.id)
    ensures Commits(rows, row, seen)
  {
  }

  lemma CommitKeepsInv(base: seq<Row>, s: System, w: nat, row: Row, seen: nat)
    requires Inv(base, s) && |base| <= seen && Commits(s.rows, row, seen)
    ensures Inv(base, s.(rows := s.rows + [row]).Move(w, Idle))
  {
    var s' := s.(rows := s.rows + [row]);
    HistoryExtends(base, s.rows, row, seen);
    hide History, Commits, ReadEarlier;
    forall v ensures Consistent(|base|, s'.rows, s'.Writer(v)) { StillConsistent(|base|, s.rows, row, s.Writer(v)); }
    ReadJustNow(|base|, s'.rows, Idle);
    MovedOnly(base, s', w, Idle);
  }

  /** What an insert does to the table when its probe saw the first `seen` rows: nothing if the id is
      in use, there was no room, or the parent has gained a child since; otherwise it adds the one
      row asked for, as the parent's next child. */
  predicate Decided(rows: seq<Row>, seen: nat, parent: Option<Path>, id: string, pending: bool, after: seq<Row>) {
    && seen <= |rows|
    && if HasId(rows, id) || !HasRoom(rows[..seen], parent) || GainedChild(rows, seen, parent) then after == rows
       else
         && |after| == |rows| + 1 && after[..|rows|] == rows
         && after[|rows|].id == id && after[|rows|].parent == parent && after[|rows|].pending == pending
         && NextChild(rows, after[|rows|])
  }

  lemma InsertIsDecided(base: seq<Row>, s: System, w: nat, parent: Option<Path>, last: Option<Path>, id: string,
                        pending: bool, seen: nat)
    requires Inv(base, s) && s.Writer(w) == Probed(parent, last)
    requires |base| <= seen && ReadEarlier(s.rows, s.Writer(w), seen)
    ensures Decided(s.rows, seen, parent, id, pending, InsertStep(s, w, parent, last, id, pending).rows)
  {
    hide History, IsPath, LastInRange, FirstFree, NextChild, HasRoom, GainedChild, Numbered, Allocate;
    var r := Allocate(parent, last);
    AllocatesFirstFree(Paths(s.rows[..seen]), parent);
    RoomIsAllocated(s.rows[..seen], parent);
    if r.Ok? {
      TakenByAChild(base, s.rows, seen, parent, r.value);
      if !HasPath(s.rows, r.value) && !HasId(s.rows, id) {
        var row := Row(id, parent, r.value, pending);
        StaleInsertCommits(s.rows, s.Writer(w), row, seen);
        HistoryIsNumbered(base, s.rows);
        CommitIsNextChild(base, s.rows, row, seen);
        assert (s.rows + [row])[..|s.rows|] == s.rows;
      }
    }
  }

  lemma RoomIsAllocated(rows: seq<Row>, parent: Option<Path>)
    ensures HasRoom(rows, parent) <==> NextPath(Paths(rows), parent).Ok?
  {
    hide IsPath, FirstFree, NextPath;
    AllocatesFirstFree(Paths(rows), parent);
  }

  lemma InsertKeepsInv(base: seq<Row>, s: System, w: nat, parent: Option<Path>, last: Option<Path>, id: string, pending: bool)
    requires Inv(base, s) && s.Writer(w) == Probed(parent, last)
    ensures Inv(base, InsertStep(s, w, parent, last, id, pending))
    ensures s.rows <= InsertStep(s, w, parent, last, id, pending).rows
    ensures forall seen :: |base| <= seen && ReadEarlier(s.rows, s.Writer(w), seen)
              ==> Decided(s.rows, seen, parent, id, pending, InsertStep(s, w, parent, last, id, pending).rows)
  {
    hide History, IsPath, Decided;
    forall seen | |base| <= seen && ReadEarlier(s.rows, s.Writer(w), seen)
      ensures Decided(s.rows, seen, parent, id, pending, InsertStep(s, w, parent, last, id, pending).rows)
    {
      InsertIsDecided(base, s, w, parent, last, id, pending, seen);
    }
    var r := Allocate(parent, last);
    if r.Ok? && !HasPath(s.rows, r.value) && !HasId(s.rows, id) {
      assert Consistent(|base|, s.rows, s.Writer(w));
      var seen: nat :| |base| <= seen && ReadEarlier(s.rows, s.Writer(w), seen);
      var row := Row(id, parent, r.value, pending);
      StaleInsertCommits(s.rows, s.Writer(w), row, seen);
      CommitKeepsInv(base, s, w, row, seen);
    } else {
      ReadJustNow(|base|, s.rows, Idle);
      MovedOnly(base, s, w, Idle);
    }
  }

  /** Every step of every writer keeps the invariant. Only the insert of a writer that has probed
      can touch the table, and what was committed since its probe decides what it does. */
  lemma StepKeepsInv(base: seq<Row>, s: System, w: nat, a: Action)
    requires Inv(base, s)
    ensures Inv(base, Act(s, w, a)) && s.rows <= Act(s, w, a).rows
    ensures if a.Insert? && s.Writer(w).Probed? then
              forall seen :: |base| <= seen && ReadEarlier(s.rows, s.Writer(w), seen)
                ==> Decided(s.rows, seen, s.Writer(w).parent, a.id, a.pending, Act(s, w, a).rows)
            else Act(s, w, a).rows == s.rows
    ensures forall v :: v != w ==> Act(s, w, a).Writer(v) == s.Writer(v)
  {
    hide Inv, Decided, ReadEarlier;
    match (a, s.Writer(w)) {
      case (Locate(parentId), _) => LocateKeepsInv(base, s, w, parentId);
      case (Probe, Located(parent)) => ProbeKeepsInv(base, s, w, parent);
      case (Insert(id, pending), Probed(parent, last)) => InsertKeepsInv(base, s, w, parent, last, id, pending);
      case _ =>
    }
  }

  /** Some writer takes some step, again and again. */
  function Run(s: System, steps: seq<(nat, Action)>): System {
    if |steps| == 0 then s
    else var n := |steps| - 1; Act(Run(s, steps[..n]), steps[n].0, steps[n].1)
  }

  lemma {:induction false} RunKeepsInv(base: seq<Row>, s: System, steps: seq<(nat, Action)>)
    requires Inv(base, s)
    ensures Inv(base, Run(s, steps)) && s.rows <= Run(s, steps).rows
  {
    hide Inv, Act;
    if |steps| > 0 {
      var n := |steps| - 1;
      RunKeepsInv(base, s, steps[..n]);
      StepKeepsInv(base, Run(s, steps[..n]), steps[n].0, steps[n].1);
    }
  }

  predicate StepsOfOthers(steps: seq<(nat, Action)>, w: nat) {
    forall k :: 0 <= k < |steps| ==> steps[k].0 != w
  }

  lemma {:induction false} OthersLeaveWriter(base: seq<Row>, s: System, w: nat, steps: seq<(nat, Action)>)
    requires Inv(base, s) && StepsOfOthers(steps, w)
    ensures Run(s, steps).Writer(w) == s.Writer(w)
  {
    hide Inv, Act, Decided, ReadEarlier;
    if |steps| > 0 {
      var n := |steps| - 1;
      OthersLeaveWriter(base, s, w, steps[..n]);
      RunKeepsInv(base, s, steps[..n]);
      StepKeepsInv(base, Run(s, steps[..n]), steps[n].0, steps[n].1);
    }
  }

  /** One writer's whole insert, with any steps of others before its probe and between its probe and
      its batch. If the post it replies to is there, the reply is added exactly when its id is
      free, there was room at the probe and the parent has gained no child since. If that post is
      not there, nothing is. */
  lemma EveryInsertIsDecided(base: seq<Row>, s: System, w: nat, parentId: Option<string>, between: seq<(nat, Action)>,
                             meanwhile: seq<(nat, Action)>, id: string, pending: bool)
    requires Inv(base, s) && StepsOfOthers(between, w) && StepsOfOthers(meanwhile, w)
    ensures var probing := Run(Act(s, w, Locate(parentId)), between);
            var ready := Run(Act(probing, w, Probe), meanwhile);
            var after := Act(ready, w, Insert(id, pending)).rows;
            && Act(s, w, Locate(parentId)).rows == s.rows <= probing.rows
            && Act(probing, w, Probe).rows == probing.rows <= ready.rows <= after
            && (parentId.Some? && !HasId(s.rows, parentId.value) ==> after == ready.rows)
            && forall parent :: Names(s.rows, parentId, parent)
                 ==> Decided(ready.rows, |probing.rows|, parent, id, pending, after)
  {
    assert forall parent :: Names(s.rows, None, parent) ==> parent.None?;
    hide History, IsPath, Decided, Names, IsTable;
    var located := Act(s, w, Locate(parentId));
    var probing := Run(located, between);
    var probed := Act(probing, w, Probe);
    var ready := Run(probed, meanwhile);
    StepKeepsInv(base, s, w, Locate(parentId));
    RunKeepsInv(base, located, between);
    OthersLeaveWriter(base, located, w, between);
    StepKeepsInv(base, probing, w, Probe);
    RunKeepsInv(base, probed, meanwhile);
    OthersLeaveWriter(base, probed, w, meanwhile);
    StepKeepsInv(base, ready, w, Insert(id, pending));
    if parentId.Some? { PathOfIdIsRow(s.rows, parentId.value); }
    forall parent | Names(s.rows, parentId, parent)
      ensures Decided(ready.rows, |probing.rows|, parent, id, pending, Act(ready, w, Insert(id, pending)).rows)
    {
      HistoryIsTable(base, s.rows);
      LocatesTheNamed(s.rows, parentId, parent);
      assert probing.Writer(w) == Located(parent);
      ReadAtTheProbe(base, probing, w, parent, ready);
    }
  }

  lemma ReadAtTheProbe(base: seq<Row>, probing: System, w: nat, parent: Option<Path>, ready: System)
    requires Inv(base, probing) && probing.Writer(w) == Located(parent)
    requires probing.rows <= ready.rows && ready.Writer(w) == Act(probing, w, Probe).Writer(w)
    ensures ready.Writer(w).Probed? && ready.Writer(w).parent == parent
    ensures |base| <= |probing.rows| && ReadEarlier(ready.rows, ready.Writer(w), |probing.rows|)
  {
    hide History, IsPath;
    assert Consistent(|base|, probing.rows, probing.Writer(w));
    var seen: nat :| |base| <= seen && ReadEarlier(probing.rows, probing.Writer(w), seen);
    HasPathGrows(probing.rows, seen, parent);
    assert ready.rows[..|probing.rows|] == probing.rows;
  }

  function Start(base: seq<Row>): System {
    System(base, map[])
  }

  lemma StartKeepsInv(base: seq<Row>)
    requires IsTable(base)
    ensures Inv(base, Start(base))
  {
    forall w ensures Consistent(|base|, base, Start(base).Writer(w)) { ReadJustNow(|base|, base, Idle); }
  }

  /** In every interleaving of any number of writers, from whatever the thread already holds, the
      table is well shaped: paths and ids are unique, every row's parent is in it and every added
      row's parent was there first, and the children each position gains are numbered
      consecutively from its first free ordinal. No step changes or takes away a row. A writer that
      has probed adds its row unless the id is in use, there was no room when it probed, or its
      parent has gained a child since. */
  lemma EveryInterleavingKeepsTheTree(base: seq<Row>, before: seq<(nat, Action)>, after: seq<(nat, Action)>, parent: Option<Path>)
    requires IsTable(base)
    ensures var rows := Run(Start(base), before).rows;
            && History(base, rows) && IsTable(rows) && base <= rows
            && (forall i :: |base| <= i < |rows| ==> ParentPresent(rows[..i], rows[i].parent))
            && IsRun(NewOrdinals(rows, |base|, parent), FirstFree(Paths(base), parent), ChildCount(rows[|base|..], parent))
            && rows <= Run(Run(Start(base), before), after).rows
            && forall w :: Promised(Run(Start(base), before), w)
  {
    hide IsTable, History, IsPath, Act, Promised;
    StartKeepsInv(base);
    RunKeepsInv(base, Start(base), before);
    RunKeepsInv(base, Run(Start(base), before), after);
    HistoryShape(base, Run(Start(base), before).rows, parent);
    forall w ensures Promised(Run(Start(base), before), w) { InsertsArePromised(base, Run(Start(base), before), w); }
  }

  /** There is a moment at which the writer probed and which decides what its insert does now. */
  ghost predicate Promised(s: System, w: nat) {
    s.Writer(w).Probed? ==> exists seen :: ReadEarlier(s.rows, s.Writer(w), seen) && PromisedSince(s, w, seen)
  }

  ghost predicate PromisedSince(s: System, w: nat, seen: nat)
    requires s.Writer(w).Probed?
  {
    forall id, pending :: Decided(s.rows, seen, s.Writer(w).parent, id, pending, Act(s, w, Insert(id, pending)).rows)
  }

  lemma InsertsArePromised(base: seq<Row>, s: System, w: nat)
    requires Inv(base, s)
    ensures Promised(s, w)
  {
    hide History, ReadEarlier, Decided, Act;
    if s.Writer(w).Probed? {
      assert Consistent(|base|, s.rows, s.Writer(w));
      var seen: nat :| |base| <= seen && ReadEarlier(s.rows, s.Writer(w), seen);
      forall id, pending ensures Decided(s.rows, seen, s.Writer(w).parent, id, pending, Act(s, w, Insert(id, pending)).rows) {
        StepKeepsInv(base, s, w, Insert(id, pending));
      }
      assert PromisedSince(s, w, seen);
    }
  }

  /** Whatever writers did before, and wherever others stopped midway, a reply then posted with
      nobody stepping in between is added: the row asked for, as the next child of the post named. */
  lemma AloneAddsTheReply(base: seq<Row>, before: seq<(nat, Action)>, w: nat, parentId: Option<string>, parent: Option<Path>,
                          id: string, pending: bool)
    requires IsTable(base)
    requires var rows := Run(Start(base), before).rows;
             Names(rows, parentId, parent) && HasRoom(rows, parent) && !HasId(rows, id)
    ensures var s := Run(Start(base), before);
            exists path ::
              && Run(s, [(w, Locate(parentId)), (w, Probe), (w, Insert(id, pending))]).rows == s.rows + [Row(id, parent, path, pending)]
              && NextChild(s.rows, Row(id, parent, path, pending))
  {
    hide IsTable, IsPath, Act, Names, HasRoom, NextChild, HasId, Inv;
    var s := Run(Start(base), before);
    StartKeepsInv(base);
    RunKeepsInv(base, Start(base), before);
    EveryInsertIsDecided(base, s, w, parentId, [], [], id, pending);
    ThreeSteps(s, (w, Locate(parentId)), (w, Probe), (w, Insert(id, pending)));
    var after := Run(s, [(w, Locate(parentId)), (w, Probe), (w, Insert(id, pending))]).rows;
    assert s.rows[..|s.rows|] == s.rows;
    assert Decided(s.rows, |s.rows|, parent, id, pending, after);
    assert after == s.rows + [Row(id, parent, after[|s.rows|].path, pending)];
  }

  lemma ThreeSteps(s: System, a: (nat, Action), b: (nat, Action), c: (nat, Action))
    ensures Run(s, [a, b, c]) == Act(Act(Act(s, a.0, a.1), b.0, b.1), c.0, c.1)
  {
    hide Act;
    var steps := [a, b, c];
    assert steps[..2] == [a, b] && [a, b][..1] == [a];
    assert Run(s, [a]) == Act(s, a.0, a.1);
  }

  /** From an empty thread each position's children are numbered exactly 0..n-1, and the next post
      added at top level with nobody stepping in between is numbered n. */
  lemma EmptyThreadIsNumbered(steps: seq<(nat, Action)>, parent: Option<Path>, w: nat, id: string, pending: bool)
    ensures var s := Run(Start([]), steps);
            && IsTable(s.rows)
            && IsRun(NewOrdinals(s.rows, 0, parent), 0, ChildCount(s.rows, parent))
            && var n, after := ChildCount(s.rows, None), Run(s, [(w, Locate(None)), (w, Probe), (w, Insert(id, pending))]).rows;
               !HasId(s.rows, id) && n <= MAX_ORDINAL ==>
                 && |after| == |s.rows| + 1 && after[..|s.rows|] == s.rows
                 && after[|s.rows|].id == id && Ordinals(after[|s.rows|].path) == [n]
  {
    assert IsTable([]);
    hide History, IsPath, Act, IsRun, Consistent, IsTable, Ordinals, HasId;
    StartKeepsInv([]);
    RunKeepsInv([], Start([]), steps);
    var rows := Run(Start([]), steps).rows;
    HistoryIsTable([], rows);
    FromEmptyIsNumbered(rows, parent);
    FromEmptyIsNumbered(rows, None);
    if !HasId(rows, id) && ChildCount(rows, None) <= MAX_ORDINAL {
      AloneAddsTheReply([], steps, w, None, None, id, pending);
      var path :|
        && Run(Run(Start([]), steps), [(w, Locate(None)), (w, Probe), (w, Insert(id, pending))]).rows == rows + [Row(id, None, path, pending)]
        && NextChild(rows, Row(id, None, path, pending));
      assert (rows + [Row(id, None, path, pending)])[..|rows|] == rows;
    }
  }
}
