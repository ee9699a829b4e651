/**
 Which paths the pending queues still account for. A path is covered when draining the queues,
 with no further event, leaves the index holding exactly what the vault holds there.
 The lemmas say for each queue operation exactly when it keeps a path covered.
 */
module Coverage {
  import opened Vault
  import opened PendingQueues

  /**
   What the index will hold at a path once the change in flight has landed:
   the content of a read still to be made, or a value already fixed.
   */
  datatype Slot = Unread | Holds(content: Option<Content>)

  /** What draining does to a path: re-read it, remove it, or leave it alone. */
  datatype Fate = Refreshed | Removed | Untouched

  predicate Touches(r: Rename, p: Path) { r.root == p || r.dest == p }

  /** Position of the last entry that names `p`, or -1. */
  function LastIndex(m: seq<Rename>, p: Path): (k: int)
    ensures -1 <= k < |m|
    ensures k >= 0 ==> Touches(m[k], p)
    ensures forall j :: k < j < |m| ==> !Touches(m[j], p)
  {
    if m == [] then -1
    else if Touches(m[|m| - 1], p) then |m| - 1
    else LastIndex(m[..|m| - 1], p)
  }

  /** Entries are drained in order, so the last one that names a path decides it. */
  function RenameFate(m: seq<Rename>, p: Path): Fate {
    var k := LastIndex(m, p);
    if k < 0 then Untouched else if m[k].dest == p then Refreshed else Removed
  }

  /** Renames drain first, so a path also queued by itself is decided by that queue. */
  function FateOf(q: Queues, p: Path): Fate {
    if p in q.upserts then Refreshed
    else if p in q.removals then Removed
    else RenameFate(q.renames, p)
  }

  predicate Covered(q: Queues, v: Files, p: Path, base: Slot) {
    match FateOf(q, p)
    case Refreshed => true
    case Removed => p !in v
    case Untouched => base.Holds? ==> base.content == Lookup(v, p)
  }

  predicate NoSelfRename(m: seq<Rename>) {
    forall i :: 0 <= i < |m| ==> m[i].root != m[i].dest
  }

  /** What every queue operation keeps, whatever the events: a Map's keys are distinct, no entry is a self rename. */
  predicate WellFormed(q: Queues) {
    DistinctRoots(q.renames) && NoSelfRename(q.renames)
  }

  lemma RemovedWellFormed(m: seq<Rename>, i: nat)
    requires DistinctRoots(m) && NoSelfRename(m) && i < |m|
    ensures DistinctRoots(RemoveAt(m, i)) && NoSelfRename(RemoveAt(m, i))
  {
    var m' := RemoveAt(m, i);
    assert forall j :: 0 <= j < |m'| ==> m'[j] == m[if j < i then j else j + 1];
  }

  lemma PutWellFormed(m: seq<Rename>, root: Path, dest: Path)
    requires DistinctRoots(m) && NoSelfRename(m) && !Cyclic(Put(m, root, dest))
    ensures DistinctRoots(Put(m, root, dest)) && NoSelfRename(Put(m, root, dest))
  {
    var m', i := Put(m, root, dest), RootIndex(m, root);
    assert DistinctRoots(m') && m'[i] == Rename(root, dest);
    if root == dest {
      SelfRenameIsCycle(m', i);
    }
  }

  lemma WellFormedEnqueue(q: Queues, e: Event)
    requires WellFormed(q)
    ensures WellFormed(Enqueue(q, e))
  {
    match e {
      case Remove(p) =>
        var i := DestIndex(q.renames, p);
        if i < |q.renames| { RemovedWellFormed(q.renames, i); }
      case Moved(a, b) =>
        if !RenameRescans(q, a, b) { PutWellFormed(q.renames, ChainRoot(q.renames, a), b); }
      case _ =>
    }
  }

  /** The pending renames never form a cycle: a rename that would close one asks for a rescan instead. */
  lemma AcyclicEnqueue(q: Queues, e: Event)
    requires WellFormed(q) && !Cyclic(q.renames)
    ensures !Cyclic(Enqueue(q, e).renames)
  {
    FewerAcyclic(q.renames, []);
    if e.Remove? && !RemovalRescans(q, e.path) {
      FewerAcyclic(q.renames, QueueRemoval(q, e.path).renames);
    }
  }

  /// ---- exactly when an operation keeps a path covered ------------------------------------------

  /** queueUpsert loses `p` when a pending rename lands there but a later one moves it away again. */
  predicate UpsertSafe(q: Queues, p: Path) {
    p in q.upserts || !HasDest(q.renames, p) || RenameFate(q.renames, p) == Refreshed
  }

  lemma UpsertKeeps(q: Queues, v: Files, p: Path, c: Content, x: Path, base: Slot, base': Slot)
    requires Covered(q, v, x, base)
    requires x != p ==> base' == base
    ensures Covered(QueueUpsert(q, p), v[p := c], x, base') <==> (x == p ==> UpsertSafe(q, p))
  {
    if HasDest(q.renames, p) {
      assert Touches(q.renames[DestIndex(q.renames, p)], p);
    }
  }

  predicate RemovalRescans(q: Queues, p: Path) {
    var i := DestIndex(q.renames, p);
    i < |q.renames| && RootReused(q.renames, q.renames[i].root)
  }

  lemma FateAfterRemoveAt(m: seq<Rename>, i: nat, x: Path)
    requires i < |m| && !Touches(m[i], x)
    ensures RenameFate(RemoveAt(m, i), x) == RenameFate(m, x)
  {
    var k, k' := LastIndex(m, x), LastIndex(RemoveAt(m, i), x);
    var m' := RemoveAt(m, i);
    if k > i {
      assert m'[k - 1] == m[k];
    } else if k >= 0 {
      assert m'[k] == m[k];
    }
    forall j | 0 <= j < |m'| ensures m'[j] == m[if j < i then j else j + 1] {
    }
  }

  /** The first entry decides a path only if no later one does. */
  lemma FateOfTail(m: seq<Rename>, p: Path)
    requires m != []
    ensures RenameFate(m, p) ==
            if RenameFate(m[1..], p) != Untouched then RenameFate(m[1..], p)
            else if p == m[0].dest then Refreshed
            else if p == m[0].root then Removed
            else Untouched
  {
    var k, k' := LastIndex(m, p), LastIndex(m[1..], p);
    if k > 0 {
      assert m[1..][k - 1] == m[k];
    }
    if k' >= 0 {
      assert m[k' + 1] == m[1..][k'];
    }
    assert forall j :: 0 < j < |m| ==> m[j] == m[1..][j - 1];
  }

  /** queueRemoval never loses a path: it rescans where it would. */
  lemma RemovalKeeps(q: Queues, v: Files, p: Path, x: Path, base: Slot, base': Slot)
    requires WellFormed(q) && !RemovalRescans(q, p)
    requires Covered(q, v, x, base)
    requires x != p ==> base' == base
    ensures Covered(QueueRemoval(q, p), v - {p}, x, base')
  {
    var i := DestIndex(q.renames, p);
    if i < |q.renames| && x != p && x !in q.upserts && x !in q.removals {
      if x == q.renames[i].root {
        var k := LastIndex(q.renames, x);
        assert Touches(q.renames[i], x);
        assert RenameFate(q.renames, x) == Removed;
      } else {
        FateAfterRemoveAt(q.renames, i, x);
      }
    }
  }

  /**
   A rename away from a path that no pending rename lands on is always safe. A chained one keeps the
   first key's place in the drain order, and is safe iff that key was not created again, no later
   entry takes the new destination away, and the intermediate path is not left in the index.
   */
  predicate RenameSafe(q: Queues, v: Files, oldPath: Path, path: Path, base: Slot) {
    var m := q.renames;
    var i := DestIndex(m, oldPath);
    i == |m| ||
    (RootGone(q, v, i) && NotRenamedLater(m, i, path) && IntermediateGone(q, i, oldPath, base))
  }

  predicate RenamedOntoLater(m: seq<Rename>, i: nat, p: Path) {
    exists j :: i < j < |m| && m[j].dest == p
  }

  predicate RootGone(q: Queues, v: Files, i: nat)
    requires i < |q.renames|
  {
    var root := q.renames[i].root;
    root !in v || (root !in q.removals && RenamedOntoLater(q.renames, i, root))
  }

  predicate NotRenamedLater(m: seq<Rename>, i: nat, path: Path) {
    LastIndex(m, path) <= i || RenameFate(m, path) == Refreshed
  }

  predicate IntermediateGone(q: Queues, i: nat, oldPath: Path, base: Slot) {
    oldPath in q.removals || RenamedOntoLater(q.renames, i, oldPath) || base.Unread? || base.content.None?
  }

  function MoveFile(v: Files, a: Path, b: Path): Files
    requires a in v
  {
    (v - {a})[b := v[a]]
  }

  /** The part of RenameSafe that concerns the path `x`. */
  predicate RenameSafeAt(q: Queues, v: Files, oldPath: Path, path: Path, x: Path, base: Slot) {
    var m := q.renames;
    var i := DestIndex(m, oldPath);
    i == |m| ||
    ((x == m[i].root ==> RootGone(q, v, i))
     && (x == path ==> NotRenamedLater(m, i, path))
     && (x == oldPath ==> IntermediateGone(q, i, oldPath, base)))
  }

  /** How redirecting entry `i` to `b` changes what the renames do to a path. */
  lemma ChainedFate(m: seq<Rename>, i: nat, b: Path, x: Path)
    requires i < |m| && DistinctRoots(m) && NoSelfRename(m) && m[i].root != b
    requires !HasRoot(m, m[i].dest) && DestIndex(m, m[i].dest) == i
    ensures
      var m' := m[i := Rename(m[i].root, b)];
      RenameFate(m', x) ==
      (if x == b then (if NotRenamedLater(m, i, b) then Refreshed else Removed)
       else if x == m[i].root then (if RenamedOntoLater(m, i, x) then Refreshed else Removed)
       else if x == m[i].dest then (if RenamedOntoLater(m, i, x) then Refreshed else Untouched)
       else RenameFate(m, x))
  {
    var m' := m[i := Rename(m[i].root, b)];
    var k, k' := LastIndex(m, x), LastIndex(m', x);
    assert forall j :: 0 <= j < |m| && j != i ==> m'[j] == m[j];
    if x == b {
      assert Touches(m'[i], x);
      assert k > i || k' > i ==> k == k';
    } else if x == m[i].root {
      assert Touches(m'[i], x) && Touches(m[i], x);
      assert k == k';
    } else if x == m[i].dest {
      assert Touches(m[i], x);
      assert k > i || k' > i ==> k == k';
    } else {
      assert k == k';
    }
  }

  lemma AppendedFate(m: seq<Rename>, a: Path, b: Path, x: Path)
    requires a != b
    ensures RenameFate(m + [Rename(a, b)], x) ==
            (if x == b then Refreshed else if x == a then Removed else RenameFate(m, x))
  {
    var m' := m + [Rename(a, b)];
    assert m'[|m|] == Rename(a, b);
    assert forall j :: 0 <= j < |m| ==> m'[j] == m[j];
    assert LastIndex(m', x) == if x == a || x == b then |m| else LastIndex(m, x);
  }

  /** A rename that does not rescan redirects the entry it chains onto, or appends a new one. */
  lemma RenamesAfter(m: seq<Rename>, a: Path, b: Path)
    requires DistinctRoots(m) && NoSelfRename(m) && !HasRoot(m, a)
    requires !Cyclic(Put(m, ChainRoot(m, a), b))
    ensures ChainRoot(m, a) != b
    ensures
      var i := DestIndex(m, a);
      Put(m, ChainRoot(m, a), b) ==
      if i < |m| then m[i := Rename(m[i].root, b)] else m + [Rename(a, b)]
  {
    var root, i := ChainRoot(m, a), DestIndex(m, a);
    var ri, m' := RootIndex(m, root), Put(m, root, b);
    if i < |m| {
      assert ri == i;
    }
    assert m'[ri] == Rename(root, b);
    assert DistinctRoots(m');
    if root == b {
      SelfRenameIsCycle(m', ri);
    }
  }

  /** What the lemmas above give for the queues after the rename. */
  predicate Renamed(q: Queues, a: Path, b: Path, x: Path, q': Queues) {
    var m, i, root := q.renames, DestIndex(q.renames, a), ChainRoot(q.renames, a);
    && q'.upserts == q.upserts - {root, a, b}
    && q'.removals == q.removals - {b}
    && root != b
    && RenameFate(q'.renames, x) ==
       if x == b then (if i == |m| || NotRenamedLater(m, i, b) then Refreshed else Removed)
       else if x == root then (if i < |m| && RenamedOntoLater(m, i, x) then Refreshed else Removed)
       else if x == a then (if RenamedOntoLater(m, i, x) then Refreshed else Untouched)
       else RenameFate(m, x)
  }

  lemma RenameOutcome(q: Queues, a: Path, b: Path, x: Path)
    requires WellFormed(q) && !RenameRescans(q, a, b) && a != b
    ensures Renamed(q, a, b, x, QueueRename(q, a, b))
  {
    RenamesAfter(q.renames, a, b);
    var i := DestIndex(q.renames, a);
    if i == |q.renames| {
      AppendedFate(q.renames, a, b, x);
    } else {
      ChainedFate(q.renames, i, b, x);
    }
  }

  lemma RenamedCovered(q: Queues, v: Files, a: Path, b: Path, x: Path, base: Slot, base': Slot, q': Queues)
    requires Renamed(q, a, b, x, q') && !HasRoot(q.renames, a)
    requires a in v && a != b
    requires Covered(q, v, x, base)
    requires x != a && x != b ==> base' == base
    ensures Covered(q', MoveFile(v, a, b), x, base') <==> RenameSafeAt(q, v, a, b, x, base')
  {
    var m, i := q.renames, DestIndex(q.renames, a);
    if i < |m| {
      assert m[i].root != a;
    }
  }

  lemma RenameKeeps(q: Queues, v: Files, a: Path, b: Path, x: Path, base: Slot, base': Slot)
    requires WellFormed(q) && !RenameRescans(q, a, b)
    requires a in v && a != b
    requires Covered(q, v, x, base)
    requires x != a && x != b ==> base' == base
    ensures Covered(QueueRename(q, a, b), MoveFile(v, a, b), x, base') <==> RenameSafeAt(q, v, a, b, x, base')
  {
    RenameOutcome(q, a, b, x);
    RenamedCovered(q, v, a, b, x, base, base', QueueRename(q, a, b));
  }
}
