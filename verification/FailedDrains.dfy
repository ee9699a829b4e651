/** A failed drain puts its change back: exactly which paths that forgets. */
module FailedDrains {
  import opened Vault
  import opened PendingQueues
  import opened Coverage
  import opened IndexController
  import opened Coalescing

  /// ---- one path put back -------------------------------------------------------------------------

  /** Putting an upsert back. The index still holds what it held before the drain, so the slot may be any. */
  lemma RequeuedUpsert(q: Queues, v: Files, p: Path, x: Path, base: Slot)
    ensures Covered(QueueUpsert(q, p), v, x, base) <==>
            if x == p then UpsertSafe(q, p) || p !in v else Covered(q, v, x, base)
  {
    if HasDest(q.renames, p) {
      assert Touches(q.renames[DestIndex(q.renames, p)], p);
    }
  }

  /** Putting a removal back forgets its path exactly when the path exists again. */
  lemma RequeuedRemoval(q: Queues, v: Files, p: Path, x: Path, base: Slot)
    requires WellFormed(q) && !RemovalRescans(q, p)
    requires x != p ==> Covered(q, v, x, base)
    ensures Covered(QueueRemoval(q, p), v, x, base) <==> (x == p ==> p !in v)
  {
    if x != p {
      RemovalKeeps(q, v, p, x, base, base);
    }
  }

  /// ---- a rename put back --------------------------------------------------------------------------

  /** The rename's source, or the first source of the chain it joins, stays accounted for. */
  predicate RequeuedRoot(q: Queues, v: Files, a: Path) {
    var i := DestIndex(q.renames, a);
    if i < |q.renames| then RootGone(q, v, i) else a !in v
  }

  /** So does the source of a rename that joins a chain: it is dropped from the queues. */
  predicate RequeuedIntermediate(q: Queues, v: Files, a: Path, base: Slot) {
    var i := DestIndex(q.renames, a);
    i < |q.renames| ==>
      if a in q.removals then a !in v
      else RenamedOntoLater(q.renames, i, a) || (base.Holds? ==> base.content == Lookup(v, a))
  }

  predicate RequeuedDestination(q: Queues, v: Files, a: Path, b: Path) {
    var i := DestIndex(q.renames, a);
    b !in v || i == |q.renames| || NotRenamedLater(q.renames, i, b)
  }

  lemma RequeuedRename(q: Queues, v: Files, a: Path, b: Path, x: Path, base: Slot)
    requires WellFormed(q) && !RenameRescans(q, a, b) && a != b
    ensures Covered(QueueRename(q, a, b), v, x, base) <==>
            if x == b then RequeuedDestination(q, v, a, b)
            else if x == ChainRoot(q.renames, a) then RequeuedRoot(q, v, a)
            else if x == a then RequeuedIntermediate(q, v, a, base)
            else Covered(q, v, x, base)
  {
    RenameOutcome(q, a, b, x);
    RenamedRequeued(q, v, a, b, x, base, QueueRename(q, a, b));
  }

  lemma RenamedRequeued(q: Queues, v: Files, a: Path, b: Path, x: Path, base: Slot, q': Queues)
    requires Renamed(q, a, b, x, q') && !HasRoot(q.renames, a) && a != b
    ensures Covered(q', v, x, base) <==>
            if x == b then RequeuedDestination(q, v, a, b)
            else if x == ChainRoot(q.renames, a) then RequeuedRoot(q, v, a)
            else if x == a then RequeuedIntermediate(q, v, a, base)
            else Covered(q, v, x, base)
  {
    var m, i := q.renames, DestIndex(q.renames, a);
    if i < |m| {
      assert m[i].root != a;
    }
  }

  /// ---- a failed drain ------------------------------------------------------------------------------

  /** The queues once the removal of a one-path change is back. */
  function WithRemoval(q: Queues, change: Change, p: Path): Queues {
    if p in change.removals then QueueRemoval(q, p) else q
  }

  /** Putting the change back ends in a rescan request. */
  ghost predicate RequeueRescans(q: Queues, change: Change) {
    if change.rename.Some? then RenameRescans(q, change.rename.value.root, change.rename.value.dest)
    else exists p :: p in change.removals && RemovalRescans(q, p)
  }

  /** The guard: at the paths the change names, what putting it back keeps. `index` is what is still served. */
  predicate RequeueSafe(q: Queues, v: Files, change: Change, index: Files) {
    match change.rename
    case Some(r) =>
      && RequeuedDestination(q, v, r.root, r.dest)
      && RequeuedRoot(q, v, r.root)
      && RequeuedIntermediate(q, v, r.root, Holds(Lookup(index, r.root)))
    case None =>
      && (forall p :: p in change.upserts ==> UpsertSafe(WithRemoval(q, change, p), p) || p !in v)
      && (forall p :: p in change.removals && p !in change.upserts ==> p !in v)
  }

  /** The part of the guard that concerns the path `x`. */
  predicate RequeueSafeAt(q: Queues, v: Files, change: Change, index: Files, x: Path) {
    match change.rename
    case Some(r) =>
      if x == r.dest then RequeuedDestination(q, v, r.root, r.dest)
      else if x == ChainRoot(q.renames, r.root) then RequeuedRoot(q, v, r.root)
      else if x == r.root then RequeuedIntermediate(q, v, r.root, Holds(Lookup(index, r.root)))
      else true
    case None =>
      if x in change.upserts then UpsertSafe(WithRemoval(q, change, x), x) || x !in v
      else x in change.removals ==> x !in v
  }

  lemma RequeueKeeps(q: Queues, v: Files, change: Change, index: Files, x: Path, base: Slot)
    requires WellFormed(q) && TakesOne(change) && !RequeueRescans(q, change)
    requires x !in change.upserts + change.removals ==> Covered(q, v, x, base)
    requires base == Holds(Lookup(index, x))
    ensures Covered(Requeue(q, change), v, x, base) <==> RequeueSafeAt(q, v, change, index, x)
  {
    if change.rename.Some? {
      RequeuedRename(q, v, change.rename.value.root, change.rename.value.dest, x, base);
    } else if change.removals == {} {
      if change.upserts != {} {
        RequeuedUpsert(q, v, Only(change.upserts), x, base);
      }
    } else {
      var p := Only(change.removals);
      RequeuedRemoval(q, v, p, x, base);
      if change.upserts != {} {
        assert Only(change.upserts) == p;
        RequeuedUpsert(QueueRemoval(q, p), v, p, x, base);
      }
    }
  }

  /** The guard fails at one of the paths that it speaks of. */
  lemma UnsafeRequeueSomewhere(q: Queues, v: Files, change: Change, index: Files)
    requires WellFormed(q) && TakesOne(change) && !RequeueRescans(q, change)
    ensures RequeueSafe(q, v, change, index) <==> forall x :: RequeueSafeAt(q, v, change, index, x)
  {
    if change.rename.Some? {
      var r := change.rename.value;
      RenamesAfter(q.renames, r.root, r.dest);
      if !RequeueSafe(q, v, change, index) {
        assert !RequeueSafeAt(q, v, change, index, r.dest)
               || !RequeueSafeAt(q, v, change, index, ChainRoot(q.renames, r.root))
               || !RequeueSafeAt(q, v, change, index, r.root);
      }
    } else if !RequeueSafe(q, v, change, index) {
      var p :| p in change.upserts + change.removals && !RequeueSafeAt(q, v, change, index, p);
    }
  }

  /** Whether putting the change back ends in a rescan request. */
  lemma RequeueRescansExactly(q: Queues, change: Change)
    requires WellFormed(q) && TakesOne(change)
    ensures if RequeueRescans(q, change) then JustRescanned(Requeue(q, change)) else SameFlags(q, Requeue(q, change))
  {
    RequeueEffect(q, change);
    if change.rename.None? && change.removals != {} {
      OnlyRemoval(q, change);
    }
  }

  lemma OnlyRemoval(q: Queues, change: Change)
    requires TakesOne(change) && change.rename.None? && change.removals != {}
    ensures RequeueRescans(q, change) <==> RemovalRescans(q, Only(change.removals))
  {
    var p := Only(change.removals);
    assert p in change.upserts + change.removals;
    forall x | x in change.removals ensures x == p {
      assert x in change.upserts + change.removals;
    }
  }

  lemma FailCoversAt(s: State, n: nat, x: Path)
    requires Consistent(s) && Tracking(s) && CoveredIn(s, x)
    requires s.work.Serving? && s.work.drain.Applying? && !RequeueRescans(s.q, s.work.drain.change)
    ensures CoveredIn(Next(s, Fail, n), x) <==> RequeueSafeAt(s.q, s.vault, s.work.drain.change, s.active.value, x)
  {
    var change, base := s.work.drain.change, Holds(Lookup(s.active.value, x));
    RequeueKeeps(s.q, s.vault, change, s.active.value, x, base);
    FailedState(s, n, x);
  }

  /** After the failure the index holds what it held before the drain. */
  lemma FailedState(s: State, n: nat, x: Path)
    requires s.active.Some? && s.work.Serving? && s.work.drain.Applying?
    ensures CoveredIn(Next(s, Fail, n), x) <==>
            Covered(Requeue(s.q, s.work.drain.change), s.vault, x, Holds(Lookup(s.active.value, x)))
  {
  }

  /**
   With every difference between index and vault pending or in flight, a drain fails: the blocked controller still
   accounts for every path if and only if putting the change back asks for a rescan or the guard holds.
   */
  lemma FailCoverage(s: State, n: nat)
    requires Consistent(s) && Tracking(s) && AllCovered(s)
    requires s.work.Serving? && s.work.drain.Applying?
    ensures Waiting(Next(s, Fail, n)) <==> !RequeueRescans(s.q, s.work.drain.change)
    ensures AllFollowed(Next(s, Fail, n)) <==>
            RequeueRescans(s.q, s.work.drain.change) || RequeueSafe(s.q, s.vault, s.work.drain.change, s.active.value)
  {
    var s', change, index := Next(s, Fail, n), s.work.drain.change, s.active.value;
    RequeueRescansExactly(s.q, change);
    if !RequeueRescans(s.q, change) {
      forall x ensures CoveredIn(s', x) <==> RequeueSafeAt(s.q, s.vault, change, index, x) {
        assert CoveredIn(s, x);
        FailCoversAt(s, n, x);
      }
      UnsafeRequeueSomewhere(s.q, s.vault, change, index);
    }
  }

  /** No event since the change was taken has left one of its paths pending. */
  predicate Unnamed(q: Queues, change: Change) {
    change.upserts + change.removals !! PendingPaths(q)
  }

  lemma UnnamedIsNoDestination(q: Queues, change: Change, p: Path)
    requires Unnamed(q, change) && p in change.upserts + change.removals
    ensures !HasDest(q.renames, p)
  {
    AllEndpoints(q.renames);
  }

  /** The simplest case in which the guard holds: the queues name no path of the change. */
  lemma UnnamedIsSafe(s: State)
    requires Consistent(s) && Tracking(s) && AllCovered(s)
    requires s.work.Serving? && s.work.drain.Applying? && Unnamed(s.q, s.work.drain.change)
    ensures RequeueSafe(s.q, s.vault, s.work.drain.change, s.active.value)
  {
    var change := s.work.drain.change;
    forall p | p in change.upserts + change.removals ensures !HasDest(s.q.renames, p) {
      UnnamedIsNoDestination(s.q, change, p);
    }
    forall p | p in change.removals && p !in change.upserts ensures p !in s.vault {
      assert CoveredIn(s, p);
      UnnamedIsUntouched(s.q, change, p);
    }
  }

  lemma UnnamedIsUntouched(q: Queues, change: Change, p: Path)
    requires Unnamed(q, change) && p in change.upserts + change.removals
    ensures FateOf(q, p) == Untouched
  {
    AllEndpoints(q.renames);
  }

  /** A failed drain forgets nothing unless an event left one of its paths pending meanwhile. */
  lemma UnnamedFailureFollowed(s: State, n: nat)
    requires Consistent(s) && Tracking(s) && AllCovered(s)
    requires s.work.Serving? && s.work.drain.Applying? && Unnamed(s.q, s.work.drain.change)
    ensures AllFollowed(Next(s, Fail, n))
  {
    UnnamedIsSafe(s);
    FailCoverage(s, n);
  }

  /** A restored index is current wherever it was still to be checked, or its change is pending. */
  predicate RestoreSafe(s: State)
    requires s.work.Restoring? && s.active.Some?
  {
    && (forall p :: p in s.work.entries && !TouchedAfter(s.q, p, s.work.cut) ==>
          Covered(s.q, s.vault, p, Holds(Lookup(s.active.value, p))))
    && (s.work.landing.Some? ==>
          Covered(s.q, s.vault, s.work.landing.value.path, Holds(Lookup(s.active.value, s.work.landing.value.path))))
  }

  /** A failure while a restored index is checked: the blocked controller accounts for every path iff the rest was current. */
  lemma FailRestoreCoverage(s: State, n: nat)
    requires Consistent(s) && Tracking(s) && AllCovered(s) && s.work.Restoring?
    ensures AllFollowed(Next(s, Fail, n)) <==> RestoreSafe(s)
  {
    var s' := Next(s, Fail, n);
    assert Waiting(s');
    forall x ensures CoveredIn(s', x) <==> Covered(s.q, s.vault, x, Holds(Lookup(s.active.value, x))) {
    }
    forall x | !ToRead(s, x) && Underway(s, x).None? ensures CoveredIn(s', x) {
      assert CoveredIn(s, x);
    }
  }

  /** A blocked controller that follows an index leaves that state only through a rescan request. */
  lemma WaitingEndsInRescan(s: State, step: Step, n: nat)
    requires Consistent(s) && Waiting(s) && Enabled(s, step)
    ensures Waiting(Next(s, step, n)) || Next(s, step, n).q.rescanRequested
    ensures !Waiting(Next(s, step, n)) ==> step.Observe? || step.RequestRebuild?
  {
    if step.Observe? {
      EventEffect(s.q, EventOf(step.change), n);
    }
  }

  /** Every step but an event, and a failure outside a build, keeps every path accounted for. */
  lemma QuietStepFollowed(s: State, step: Step, n: nat)
    requires Consistent(s) && AllFollowed(s) && Enabled(s, step) && !step.Observe?
    requires !(step.Fail? && (s.work.Serving? || s.work.Restoring?))
    ensures AllFollowed(Next(s, step, n))
  {
    if Waiting(s) {
      WaitingEndsInRescan(s, step, n);
    } else {
      QuietStepCoverage(s, step, n);
      FailedBuildNotFollowed(s, step, n);
    }
  }

  /** A failed build leaves a rescan owed, or no index at all. */
  lemma FailedBuildNotFollowed(s: State, step: Step, n: nat)
    requires Consistent(s) && !Waiting(s) && Enabled(s, step) && !step.Observe?
    requires !(step.Fail? && (s.work.Serving? || s.work.Restoring?))
    ensures !Waiting(Next(s, step, n))
  {
    if step.Fail? && DrainOf(s.work).Applying? {
      RequeueEffect(s.q, DrainOf(s.work).change);
    }
  }
}
