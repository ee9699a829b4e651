/**
 The pending queues of the index controller: what each vault event does to them, and the exact
 condition under which a queue operation loses no path.
 */
module PendingQueues {
  import opened Vault

  /** One entry of `pendingRenames`; the sequence order is the Map's insertion order. */
  datatype Rename = Rename(root: Path, dest: Path)

  datatype Event =
    | Upsert(path: Path)
    | Remove(path: Path)
    | Moved(oldPath: Path, path: Path)
    | Rescan

  /** The fields of the controller that events and drains read and write. */
  datatype Queues = Queues(
    upserts: set<Path>,
    removals: set<Path>,
    renames: seq<Rename>,
    blocked: bool,
    rescanRequested: bool,
    rebuildRequested: bool,
    rescanSequence: nat,
    eventSequence: nat,
    touched: map<Path, nat>)

  /// ---- the rename map -------------------------------------------------------------------

  /** Position of the entry keyed `p`, or the length of `m`. */
  function RootIndex(m: seq<Rename>, p: Path): (i: nat)
    ensures i <= |m|
    ensures i < |m| ==> m[i].root == p
    ensures forall j :: 0 <= j < i ==> m[j].root != p
  {
    if m == [] then 0 else if m[0].root == p then 0 else 1 + RootIndex(m[1..], p)
  }

  /** Position of the first entry whose destination is `p`, or the length of `m`. */
  function DestIndex(m: seq<Rename>, p: Path): (i: nat)
    ensures i <= |m|
    ensures i < |m| ==> m[i].dest == p
    ensures forall j :: 0 <= j < i ==> m[j].dest != p
  {
    if m == [] then 0 else if m[0].dest == p then 0 else 1 + DestIndex(m[1..], p)
  }

  predicate HasRoot(m: seq<Rename>, p: Path) { RootIndex(m, p) < |m| }

  predicate HasDest(m: seq<Rename>, p: Path) { DestIndex(m, p) < |m| }

  /** Map.set: an existing key keeps its place, a new key goes to the end. */
  function Put(m: seq<Rename>, root: Path, dest: Path): seq<Rename> {
    var i := RootIndex(m, root);
    if i < |m| then m[i := Rename(root, dest)] else m + [Rename(root, dest)]
  }

  function RemoveAt(m: seq<Rename>, i: nat): seq<Rename>
    requires i < |m|
  {
    m[..i] + m[i + 1..]
  }

  function Endpoints(m: seq<Rename>): set<Path> {
    (set r | r in m :: r.root) + (set r | r in m :: r.dest)
  }

  /** Keys of a Map are distinct. */
  predicate DistinctRoots(m: seq<Rename>) {
    forall i, j :: 0 <= i < j < |m| ==> m[i].root != m[j].root
  }

  /// ---- rename cycles ----------------------------------------------------------------------

  function FollowRename(m: seq<Rename>, p: Path): Option<Path> {
    var i := RootIndex(m, p);
    if i < |m| then Some(m[i].dest) else None
  }

  function Walk(m: seq<Rename>, p: Path, n: nat): Option<Path> {
    if n == 0 then Some(p)
    else match Walk(m, p, n - 1)
      case None => None
      case Some(q) => FollowRename(m, q)
  }

  ghost predicate OnCycle(m: seq<Rename>, p: Path) {
    exists n: nat :: 0 < n && Walk(m, p, n) == Some(p)
  }

  ghost predicate Cyclic(m: seq<Rename>) {
    exists p :: OnCycle(m, p)
  }

  lemma {:induction false} WalkCompose(m: seq<Rename>, p: Path, i: nat, j: nat)
    requires Walk(m, p, i).Some?
    ensures Walk(m, p, i + j) == Walk(m, Walk(m, p, i).value, j)
    decreases j
  {
    if j > 0 {
      WalkCompose(m, p, i, j - 1);
    }
  }

  /** A walk that has ended never resumes. */
  lemma {:induction false} WalkStopped(m: seq<Rename>, p: Path, i: nat, j: nat)
    requires i <= j && Walk(m, p, i).None?
    ensures Walk(m, p, j).None?
    decreases j
  {
    if i < j {
      WalkStopped(m, p, i, j - 1);
    }
  }

  /** A path on a cycle is walked forever. */
  lemma {:induction false} CycleNeverStops(m: seq<Rename>, p: Path, n: nat, k: nat)
    requires 0 < n && Walk(m, p, n) == Some(p)
    ensures Walk(m, p, k).Some?
    decreases k
  {
    if k <= n {
      if Walk(m, p, k).None? {
        WalkStopped(m, p, k, n);
      }
    } else {
      CycleNeverStops(m, p, n, k - n);
      WalkCompose(m, p, n, k - n);
    }
  }

  lemma SelfRenameIsCycle(m: seq<Rename>, i: nat)
    requires DistinctRoots(m) && i < |m| && m[i].root == m[i].dest
    ensures Cyclic(m)
  {
    var p := m[i].root;
    assert Walk(m, p, 0) == Some(p);
    assert Walk(m, p, 1) == FollowRename(m, p) == Some(p);
    assert OnCycle(m, p);
  }

  /** Dropping entries breaks walks but redirects none. */
  lemma {:induction false} WalkInFewer(m: seq<Rename>, m': seq<Rename>, p: Path, n: nat)
    requires DistinctRoots(m) && forall r :: r in m' ==> r in m
    ensures Walk(m', p, n).Some? ==> Walk(m, p, n) == Walk(m', p, n)
    decreases n
  {
    if n > 0 {
      WalkInFewer(m, m', p, n - 1);
      if Walk(m', p, n).Some? {
        var q := Walk(m', p, n - 1).value;
        assert m'[RootIndex(m', q)] in m;
      }
    }
  }

  lemma FewerAcyclic(m: seq<Rename>, m': seq<Rename>)
    requires DistinctRoots(m) && (forall r :: r in m' ==> r in m) && !Cyclic(m)
    ensures !Cyclic(m')
  {
    forall p ensures !OnCycle(m', p) {
      if n: nat :| 0 < n && Walk(m', p, n) == Some(p) {
        WalkInFewer(m, m', p, n);
        assert OnCycle(m, p);
      }
    }
  }

  /// ---- the specification of the queue operations --------------------------------------------

  function RequestRescan(q: Queues): Queues {
    q.(upserts := {}, removals := {}, renames := [],
       blocked := false,
       rescanRequested := true,
       rescanSequence := q.eventSequence,
       rebuildRequested := true)
  }

  function QueueUpsert(q: Queues, p: Path): Queues {
    var q' := q.(removals := q.removals - {p});
    if HasDest(q.renames, p) then q' else q'.(upserts := q.upserts + {p})
  }

  /** Another entry renames onto `root`. */
  predicate RootReused(m: seq<Rename>, root: Path) {
    exists i :: 0 <= i < |m| && m[i].root != root && m[i].dest == root
  }

  function QueueRemoval(q: Queues, p: Path): Queues {
    var i := DestIndex(q.renames, p);
    if i < |q.renames| && RootReused(q.renames, q.renames[i].root) then
      RequestRescan(q)
    else
      var q' := if i < |q.renames|
                then q.(renames := RemoveAt(q.renames, i), removals := q.removals + {q.renames[i].root})
                else q;
      q'.(upserts := q'.upserts - {p}, removals := q'.removals + {p})
  }

  /** The key under which a rename away from `p` is recorded: chained renames keep their first key. */
  function ChainRoot(m: seq<Rename>, p: Path): Path {
    var i := DestIndex(m, p);
    if i < |m| then m[i].root else p
  }

  /** queueRename gives up and asks for a rescan. */
  ghost predicate RenameRescans(q: Queues, oldPath: Path, path: Path) {
    HasRoot(q.renames, oldPath) ||
    Cyclic(Put(q.renames, ChainRoot(q.renames, oldPath), path))
  }

  ghost function QueueRename(q: Queues, oldPath: Path, path: Path): Queues {
    var root := ChainRoot(q.renames, oldPath);
    if RenameRescans(q, oldPath, path) then RequestRescan(q)
    else q.(renames := Put(q.renames, root, path),
            upserts := q.upserts - {root, oldPath, path},
            removals := q.removals - {path})
  }

  function PendingPaths(q: Queues): set<Path> {
    q.upserts + q.removals + Endpoints(q.renames)
  }

  function EnforceBound(q: Queues, maxPendingPaths: nat): Queues {
    if |PendingPaths(q)| <= maxPendingPaths then q else RequestRescan(q)
  }

  function HasPending(q: Queues): bool {
    q.upserts != {} || q.removals != {} || q.renames != []
  }

  /** The event is numbered and its paths are marked touched before it is queued. */
  function Stamp(q: Queues, e: Event): Queues {
    var n := q.eventSequence + 1;
    q.(eventSequence := n,
       touched := match e
         case Upsert(p) => q.touched[p := n]
         case Remove(p) => q.touched[p := n]
         case Moved(a, b) => q.touched[a := n][b := n]
         case Rescan => q.touched)
  }

  ghost function Enqueue(q: Queues, e: Event): Queues {
    match e
    case Upsert(p) => QueueUpsert(q, p)
    case Remove(p) => QueueRemoval(q, p)
    case Moved(a, b) => QueueRename(q, a, b)
    case Rescan => RequestRescan(q)
  }

  ghost function HandleEvent(q: Queues, e: Event, maxPendingPaths: nat): Queues {
    EnforceBound(Enqueue(Stamp(q, e), e), maxPendingPaths)
  }

  /** The event names `p`. */
  predicate Names(e: Event, p: Path) {
    match e
    case Upsert(q) => p == q
    case Remove(q) => p == q
    case Moved(a, b) => p == a || p == b
    case Rescan => false
  }

  /// ---- draining -----------------------------------------------------------------------------

  /** What takePendingChanges removes from the queues: the first rename, else the least pending path. */
  datatype Change = Change(upserts: set<Path>, removals: set<Path>, rename: Option<Rename>)

  function TakeRename(q: Queues): (Change, Queues)
    requires q.renames != []
  {
    var r := q.renames[0];
    (Change({r.dest}, {r.root}, Some(r)), q.(renames := q.renames[1..]))
  }

  function TakePath(q: Queues, p: Path): (Change, Queues) {
    (Change(q.upserts * {p}, q.removals * {p}, None),
     q.(upserts := q.upserts - {p}, removals := q.removals - {p}))
  }

  /** A failed drain puts its change back: the rename, or the removals and then the upserts. */
  ghost function Requeue(q: Queues, change: Change): Queues {
    if change.rename.Some? then QueueRename(q, change.rename.value.root, change.rename.value.dest)
    else
      var q1 := if change.removals == {} then q else QueueRemoval(q, Only(change.removals));
      if change.upserts == {} then q1 else QueueUpsert(q1, Only(change.upserts))
  }

  /** The element of a one-element set. */
  ghost function Only(s: set<Path>): Path
    requires s != {}
  {
    var p :| p in s;
    p
  }
}
