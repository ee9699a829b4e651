/** The controller object: the fields its synchronous methods update, each method against its specification. */
module InPluginIndexController {
  import opened Vault
  import opened PendingQueues
  import opened Coverage
  import IndexController

  class InPluginIndexController {
    var pendingUpserts: set<Path>
    var pendingRemovals: set<Path>
    var pendingRenames: seq<Rename>
    var blocked: bool
    var rescanRequested: bool
    var rebuildRequested: bool
    var rescanSequence: nat
    var eventSequence: nat
    var lastTouchedSequence: map<Path, nat>
    var disposed: bool
    var stoppingForCheckpoint: bool
    const maxPendingPaths: nat

    /** The abstract value of the fields. */
    function Q(): Queues
      reads this
    {
      Queues(pendingUpserts, pendingRemovals, pendingRenames, blocked, rescanRequested, rebuildRequested,
             rescanSequence, eventSequence, lastTouchedSequence)
    }

    constructor (maxPendingPaths: nat)
      ensures Q() == Queues({}, {}, [], false, false, false, 0, 0, map[])
      ensures this.maxPendingPaths == maxPendingPaths && !disposed && !stoppingForCheckpoint
    {
      pendingUpserts, pendingRemovals, pendingRenames := {}, {}, [];
      blocked, rescanRequested, rebuildRequested := false, false, false;
      rescanSequence, eventSequence, lastTouchedSequence := 0, 0, map[];
      disposed, stoppingForCheckpoint := false, false;
      this.maxPendingPaths := maxPendingPaths;
    }

    /** handleEvent: number the event, mark its paths, queue it, enforce the bound; nothing once disposed or stopping. */
    method HandleEvent(event: Event)
      modifies this
      ensures disposed == old(disposed) && stoppingForCheckpoint == old(stoppingForCheckpoint)
      ensures Q() == if disposed || stoppingForCheckpoint then old(Q()) else PendingQueues.HandleEvent(old(Q()), event, maxPendingPaths)
    {
      if disposed || stoppingForCheckpoint { return; }
      eventSequence := eventSequence + 1;
      match event {
        case Upsert(path) =>
          lastTouchedSequence := lastTouchedSequence[path := eventSequence];
        case Remove(path) =>
          lastTouchedSequence := lastTouchedSequence[path := eventSequence];
        case Moved(oldPath, path) =>
          lastTouchedSequence := lastTouchedSequence[oldPath := eventSequence];
          lastTouchedSequence := lastTouchedSequence[path := eventSequence];
        case Rescan =>
      }
      assert Q() == Stamp(old(Q()), event);
      Enqueue(event);
      EnforcePendingBound();
    }

    method Enqueue(event: Event)
      modifies this
      ensures disposed == old(disposed) && stoppingForCheckpoint == old(stoppingForCheckpoint)
      ensures Q() == PendingQueues.Enqueue(old(Q()), event)
    {
      match event {
        case Upsert(path) => QueueUpsert(path);
        case Remove(path) => QueueRemoval(path);
        case Moved(oldPath, path) => QueueRename(oldPath, path);
        case Rescan => RequestAuthoritativeRescan();
      }
    }

    method QueueUpsert(path: Path)
      modifies this
      ensures disposed == old(disposed) && stoppingForCheckpoint == old(stoppingForCheckpoint)
      ensures Q() == PendingQueues.QueueUpsert(old(Q()), path)
    {
      pendingRemovals := pendingRemovals - {path};
      if HasDest(pendingRenames, path) { return; }
      pendingUpserts := pendingUpserts + {path};
    }

    method QueueRemoval(path: Path)
      modifies this
      ensures disposed == old(disposed) && stoppingForCheckpoint == old(stoppingForCheckpoint)
      ensures Q() == PendingQueues.QueueRemoval(old(Q()), path)
    {
      var chained := DestIndex(pendingRenames, path);
      if chained < |pendingRenames| {
        var root := pendingRenames[chained].root;
        var rootIsReused := exists i :: 0 <= i < |pendingRenames| && pendingRenames[i].root != root && pendingRenames[i].dest == root;
        if rootIsReused {
          RequestAuthoritativeRescan();
          return;
        }
        pendingRenames := RemoveAt(pendingRenames, chained);
        pendingRemovals := pendingRemovals + {root};
      }
      pendingUpserts := pendingUpserts - {path};
      pendingRemovals := pendingRemovals + {path};
    }

    method QueueRename(oldPath: Path, path: Path)
      modifies this
      ensures disposed == old(disposed) && stoppingForCheckpoint == old(stoppingForCheckpoint)
      ensures Q() == PendingQueues.QueueRename(old(Q()), oldPath, path)
    {
      if HasRoot(pendingRenames, oldPath) {
        RequestAuthoritativeRescan();
        return;
      }
      var root := ChainRoot(pendingRenames, oldPath);
      pendingRenames := Put(pendingRenames, root, path);
      var cycle := HasRenameCycle();
      if cycle {
        RequestAuthoritativeRescan();
        return;
      }
      pendingUpserts := pendingUpserts - {root};
      pendingUpserts := pendingUpserts - {oldPath};
      pendingUpserts := pendingUpserts - {path};
      pendingRemovals := pendingRemovals - {path};
      assert pendingUpserts == old(pendingUpserts) - {root, oldPath, path};
    }

    method HasRenameCycle() returns (cycle: bool)
      ensures cycle <==> Cyclic(pendingRenames)
    {
      var i := 0;
      while i < |pendingRenames|
        invariant 0 <= i <= |pendingRenames|
        invariant forall j :: 0 <= j < i ==> !OnCycle(pendingRenames, pendingRenames[j].root)
      {
        RootsAreEndpoints(pendingRenames, i);
        var repeats := WalkRepeats(pendingRenames[i].root);
        if repeats { return true; }
        i := i + 1;
      }
      KeysOffCycles(pendingRenames);
      cycle := false;
    }

    /** The inner loop of hasRenameCycle: follow the renames from one key until a path repeats or none follows. */
    method WalkRepeats(root: Path) returns (repeats: bool)
      requires root in Endpoints(pendingRenames)
      ensures repeats ==> Cyclic(pendingRenames)
      ensures !repeats ==> !OnCycle(pendingRenames, root)
    {
      var seen: set<Path> := {};
      var path := Some(root);
      ghost var n: nat := 0;
      while path.Some?
        invariant path == Walk(pendingRenames, root, n)
        invariant forall p :: p in seen ==> Visited(pendingRenames, root, n, p)
        invariant seen <= Endpoints(pendingRenames)
        invariant path.Some? ==> path.value in Endpoints(pendingRenames)
        decreases Endpoints(pendingRenames) - seen, path.Some?
      {
        if path.value in seen {
          RevisitIsCycle(pendingRenames, root, n, path.value);
          return true;
        }
        StepStaysInside(pendingRenames, path.value);
        VisitedGrows(pendingRenames, root, n);
        seen := seen + {path.value};
        path := FollowRename(pendingRenames, path.value);
        n := n + 1;
      }
      EndedWalkIsNoCycle(pendingRenames, root, n);
      repeats := false;
    }

    method RequestAuthoritativeRescan()
      modifies this
      ensures disposed == old(disposed) && stoppingForCheckpoint == old(stoppingForCheckpoint)
      ensures Q() == RequestRescan(old(Q()))
    {
      pendingUpserts, pendingRemovals, pendingRenames := {}, {}, [];
      blocked := false;
      rescanRequested := true;
      rescanSequence := eventSequence;
      rebuildRequested := true;
    }

    /** Every path some queue names. */
    method PathsPending() returns (paths: set<Path>)
      ensures paths == PendingPaths(Q())
    {
      paths := pendingUpserts + pendingRemovals;
      var i := 0;
      while i < |pendingRenames|
        invariant 0 <= i <= |pendingRenames|
        invariant paths == pendingUpserts + pendingRemovals + Endpoints(pendingRenames[..i])
      {
        assert pendingRenames[..i + 1] == pendingRenames[..i] + [pendingRenames[i]];
        EndpointsSnoc(pendingRenames[..i], pendingRenames[i]);
        paths := paths + {pendingRenames[i].root} + {pendingRenames[i].dest};
        i := i + 1;
      }
      assert pendingRenames[..i] == pendingRenames;
    }

    method EnforcePendingBound()
      modifies this
      ensures disposed == old(disposed) && stoppingForCheckpoint == old(stoppingForCheckpoint)
      ensures Q() == EnforceBound(old(Q()), maxPendingPaths)
    {
      var paths := PathsPending();
      if |paths| <= maxPendingPaths { return; }
      RequestAuthoritativeRescan();
    }

    /** The end of captureSnapshot: the events up to the cut are in the snapshot, so their intents are consumed. */
    method ConsumeSnapshotCut() returns (cut: nat)
      modifies this
      ensures disposed == old(disposed) && stoppingForCheckpoint == old(stoppingForCheckpoint)
      ensures cut == eventSequence
      ensures Q() == old(Q()).(upserts := {}, removals := {}, renames := [])
    {
      cut := eventSequence;
      pendingUpserts, pendingRemovals, pendingRenames := {}, {}, [];
    }

    method AcknowledgeCommittedSnapshot(cut: nat)
      modifies this
      ensures disposed == old(disposed) && stoppingForCheckpoint == old(stoppingForCheckpoint)
      ensures Q() == IndexController.Acknowledged(old(Q()), cut)
      ensures Q() == if old(rescanSequence) > cut then old(Q()) else old(Q()).(rescanRequested := false, rebuildRequested := false)
    {
      if rescanSequence > cut { return; }
      rescanRequested := false;
      rebuildRequested := false;
    }

    /** takePendingChanges: the first rename, else the least pending path. */
    method TakePendingChanges() returns (change: Change)
      requires HasPending(Q())
      modifies this
      ensures disposed == old(disposed) && stoppingForCheckpoint == old(stoppingForCheckpoint)
      ensures old(pendingRenames) != [] ==> (change, Q()) == TakeRename(old(Q()))
      ensures old(pendingRenames) == [] ==>
                exists p :: IndexController.Takes(old(Q()), p) && (change, Q()) == TakePath(old(Q()), p)
    {
      if pendingRenames != [] {
        var rename := pendingRenames[0];
        pendingRenames := pendingRenames[1..];
        return Change({rename.dest}, {rename.root}, Some(rename));
      }
      var path := LeastPath(pendingUpserts + pendingRemovals);
      var upserts, removals := {}, {};
      if path in pendingUpserts {
        pendingUpserts := pendingUpserts - {path};
        upserts := {path};
      }
      if path in pendingRemovals {
        pendingRemovals := pendingRemovals - {path};
        removals := {path};
      }
      change := Change(upserts, removals, None);
      assert upserts == old(pendingUpserts) * {path} && removals == old(pendingRemovals) * {path};
      assert pendingUpserts == old(pendingUpserts) - {path} && pendingRemovals == old(pendingRemovals) - {path};
      assert IndexController.Takes(old(Q()), path);
    }

    /**
     The replay loop: while changes are pending, take one, read its paths and apply it. With no event
     meanwhile it ends, and every path holds what its fate in the queues says.
     */
    method ReplayPending(index: Files, vault: Files) returns (replayed: Files)
      modifies this
      ensures disposed == old(disposed) && stoppingForCheckpoint == old(stoppingForCheckpoint)
      ensures !HasPending(Q())
      ensures forall p :: Lookup(replayed, p) == FinalContent(old(Q()), vault, index, p)
    {
      replayed := index;
      while pendingUpserts != {} || pendingRemovals != {} || pendingRenames != []
        invariant forall p :: FinalContent(Q(), vault, replayed, p) == FinalContent(old(Q()), vault, index, p)
        invariant disposed == old(disposed) && stoppingForCheckpoint == old(stoppingForCheckpoint)
        decreases |pendingRenames|, pendingUpserts + pendingRemovals
      {
        ghost var q, before := Q(), replayed;
        var change := TakePendingChanges();
        var found := Found(change, vault);
        replayed := IndexController.Landed(replayed, change, found);
        if q.renames != [] {
          TakeRenameKeepsFinal(q, vault, before);
        } else {
          ghost var p :| IndexController.Takes(q, p) && (change, Q()) == TakePath(q, p);
          TakePathKeepsFinal(q, vault, before, p);
        }
      }
    }
  }

  /** No queued path comes before `p`. */
  predicate LeastPending(q: Queues, p: Path) {
    p in q.upserts + q.removals && forall x :: x in q.upserts + q.removals ==> x == p || Less(p, x)
  }

  /** What was queued for `p`, and only that, is taken. */
  predicate TakesExactly(q: Queues, p: Path, change: Change, q': Queues) {
    && change.rename == None
    && (p in q.upserts <==> change.upserts == {p}) && (p !in q.upserts <==> change.upserts == {})
    && (p in q.removals <==> change.removals == {p}) && (p !in q.removals <==> change.removals == {})
    && q' == q.(upserts := q.upserts - {p}, removals := q.removals - {p})
  }

  /** The drain takes the oldest rename whole, or else what is queued for the first path, and nothing besides. */
  lemma TakeOutcome(q: Queues, p: Path)
    ensures q.renames != [] ==>
              var r := q.renames[0];
              TakeRename(q) == (Change({r.dest}, {r.root}, Some(r)), q.(renames := q.renames[1..]))
    ensures q.renames == [] ==> (IndexController.Takes(q, p) <==> LeastPending(q, p))
    ensures TakesExactly(q, p, TakePath(q, p).0, TakePath(q, p).1)
  {
    assert q.upserts * {p} == if p in q.upserts then {p} else {};
    assert q.removals * {p} == if p in q.removals then {p} else {};
  }

  /// ---- hasRenameCycle --------------------------------------------------------------------------

  lemma StepStaysInside(m: seq<Rename>, p: Path)
    ensures FollowRename(m, p).Some? ==> FollowRename(m, p).value in Endpoints(m)
  {
    var i := RootIndex(m, p);
    if i < |m| {
      assert m[i] in m;
    }
  }

  lemma RootsAreEndpoints(m: seq<Rename>, i: nat)
    requires i < |m|
    ensures m[i].root in Endpoints(m)
  {
    assert m[i] in m;
  }

  ghost predicate Visited(m: seq<Rename>, root: Path, n: nat, p: Path) {
    exists k: nat :: k < n && Walk(m, root, k) == Some(p)
  }

  lemma VisitedGrows(m: seq<Rename>, root: Path, n: nat)
    ensures forall p :: Visited(m, root, n, p) || Walk(m, root, n) == Some(p) ==> Visited(m, root, n + 1, p)
  {
  }

  /** A walk that comes back to a path it has visited goes round for ever. */
  lemma RevisitIsCycle(m: seq<Rename>, root: Path, n: nat, p: Path)
    requires Visited(m, root, n, p) && Walk(m, root, n) == Some(p)
    ensures Cyclic(m)
  {
    var k: nat :| k < n && Walk(m, root, k) == Some(p);
    WalkCompose(m, root, k, n - k);
    assert OnCycle(m, p);
  }

  lemma EndedWalkIsNoCycle(m: seq<Rename>, root: Path, n: nat)
    requires Walk(m, root, n).None?
    ensures !OnCycle(m, root)
  {
    if OnCycle(m, root) {
      var k: nat :| 0 < k && Walk(m, root, k) == Some(root);
      CycleNeverStops(m, root, k, n);
    }
  }

  lemma CycleHasKey(m: seq<Rename>, p: Path)
    requires OnCycle(m, p)
    ensures RootIndex(m, p) < |m|
  {
    var k: nat :| 0 < k && Walk(m, p, k) == Some(p);
    CycleNeverStops(m, p, k, 1);
    assert Walk(m, p, 1) == FollowRename(m, p);
  }

  /** Every cycle passes through a key. */
  lemma KeysOffCycles(m: seq<Rename>)
    requires forall i :: 0 <= i < |m| ==> !OnCycle(m, m[i].root)
    ensures !Cyclic(m)
  {
    forall p ensures !OnCycle(m, p) {
      if OnCycle(m, p) {
        CycleHasKey(m, p);
      }
    }
  }

  lemma EndpointsSnoc(m: seq<Rename>, r: Rename)
    ensures Endpoints(m + [r]) == Endpoints(m) + {r.root} + {r.dest}
  {
    assert (set x | x in m + [r] :: x.root) == (set x | x in m :: x.root) + {r.root};
    assert (set x | x in m + [r] :: x.dest) == (set x | x in m :: x.dest) + {r.dest};
  }

  /// ---- what a full drain does --------------------------------------------------------------------

  /** What the index holds at `p` once the queues have drained against a vault that no longer changes. */
  function FinalContent(q: Queues, vault: Files, index: Files, p: Path): Option<Content> {
    match FateOf(q, p)
    case Refreshed => Lookup(vault, p)
    case Removed => None
    case Untouched => Lookup(index, p)
  }

  function Found(change: Change, vault: Files): map<Path, Option<Content>> {
    map p | p in change.upserts :: Lookup(vault, p)
  }

  /** One drain of the oldest rename changes the index and the queues but not where the drain will end. */
  lemma TakeRenameKeepsFinal(q: Queues, vault: Files, index: Files)
    requires q.renames != []
    ensures
      var (change, q') := TakeRename(q);
      forall p :: FinalContent(q', vault, IndexController.Landed(index, change, Found(change, vault)), p)
                  == FinalContent(q, vault, index, p)
  {
    var (change, q') := TakeRename(q);
    var index' := IndexController.Landed(index, change, Found(change, vault));
    forall p ensures FinalContent(q', vault, index', p) == FinalContent(q, vault, index, p) {
      FateOfTail(q.renames, p);
    }
  }

  lemma TakePathKeepsFinal(q: Queues, vault: Files, index: Files, x: Path)
    requires q.renames == []
    ensures
      var (change, q') := TakePath(q, x);
      forall p :: FinalContent(q', vault, IndexController.Landed(index, change, Found(change, vault)), p)
                  == FinalContent(q, vault, index, p)
  {
  }

  /** The meaning of coverage: a full drain yields the vault exactly when every path is covered. */
  lemma CoveredIffDrainsToVault(q: Queues, vault: Files, index: Files, drained: Files)
    requires forall p :: Lookup(drained, p) == FinalContent(q, vault, index, p)
    ensures drained == vault <==> forall p :: Covered(q, vault, p, Holds(Lookup(index, p)))
  {
    forall p ensures Covered(q, vault, p, Holds(Lookup(index, p))) <==> Lookup(drained, p) == Lookup(vault, p) {
      assert Lookup(drained, p) == FinalContent(q, vault, index, p);
    }
    if forall p :: Covered(q, vault, p, Holds(Lookup(index, p))) {
      SameLookups(drained, vault);
    }
  }
}
