/**
 The queue operations once more, entry by entry: when each gives up and asks for a rescan, what it leaves in the
 queues otherwise, and whether giving up was needed to lose no path.
 */
module QueueLaws {
  import opened Vault
  import opened PendingQueues
  import opened Coverage
  import LostPaths

  /** The queues are empty, a rescan and a rebuild are recorded at the latest event, and the controller is unblocked. */
  predicate GaveUp(q: Queues, q': Queues) {
    q' == Queues({}, {}, [], false, true, true, q.eventSequence, q.eventSequence, q.touched)
  }

  /** Entry `i` is the first that renames onto `p`. */
  predicate FirstOnto(m: seq<Rename>, i: nat, p: Path) {
    i < |m| && m[i].dest == p && forall j :: 0 <= j < i ==> m[j].dest != p
  }

  predicate NoneOnto(m: seq<Rename>, p: Path) {
    forall j :: 0 <= j < |m| ==> m[j].dest != p
  }

  lemma FirstIsDestIndex(m: seq<Rename>, p: Path)
    ensures forall i: nat :: FirstOnto(m, i, p) ==> DestIndex(m, p) == i
    ensures NoneOnto(m, p) ==> DestIndex(m, p) == |m|
    ensures NoneOnto(m, p) || FirstOnto(m, DestIndex(m, p), p)
  {
  }

  /// ---- upsert and removal ----------------------------------------------------------------------

  /** An upsert is left to the rename that lands on its path, if there is one, and never gives up. */
  lemma UpsertOutcome(q: Queues, p: Path)
    ensures QueueUpsert(q, p) ==
            q.(removals := q.removals - {p}, upserts := if NoneOnto(q.renames, p) then q.upserts + {p} else q.upserts)
  {
    FirstIsDestIndex(q.renames, p);
  }

  /** Another entry than `i` renames onto the key of entry `i`. */
  predicate KeyReused(m: seq<Rename>, i: nat)
    requires i < |m|
  {
    exists j :: 0 <= j < |m| && j != i && m[j].dest == m[i].root
  }

  /** Entry `i` is gone; its destination and its key are to be removed. */
  function Dropped(q: Queues, i: nat): Queues
    requires i < |q.renames|
  {
    var r := q.renames[i];
    q.(renames := q.renames[..i] + q.renames[i + 1..],
       upserts := q.upserts - {r.dest},
       removals := q.removals + {r.dest, r.root})
  }

  /** A removal gives up iff it would drop a rename whose key another rename lands on; else it drops it. */
  lemma RemovalOutcome(q: Queues, p: Path)
    requires WellFormed(q)
    ensures NoneOnto(q.renames, p) ==> QueueRemoval(q, p) == q.(upserts := q.upserts - {p}, removals := q.removals + {p})
    ensures forall i: nat :: FirstOnto(q.renames, i, p) ==>
              if KeyReused(q.renames, i) then GaveUp(q, QueueRemoval(q, p)) else QueueRemoval(q, p) == Dropped(q, i)
  {
    FirstIsDestIndex(q.renames, p);
    forall i: nat | FirstOnto(q.renames, i, p)
      ensures if KeyReused(q.renames, i) then GaveUp(q, QueueRemoval(q, p)) else QueueRemoval(q, p) == Dropped(q, i)
    {
      KeyReusedIff(q.renames, i);
      assert q.removals + {q.renames[i].root} + {p} == q.removals + {p, q.renames[i].root};
    }
  }

  lemma KeyReusedIff(m: seq<Rename>, i: nat)
    requires i < |m| && DistinctRoots(m) && NoSelfRename(m)
    ensures KeyReused(m, i) <==> RootReused(m, m[i].root)
  {
    if RootReused(m, m[i].root) {
      var j :| 0 <= j < |m| && m[j].root != m[i].root && m[j].dest == m[i].root;
      assert j != i;
    }
  }

  /** Dropping entry `i` for a removal of its destination loses no path of any vault. */
  ghost predicate DropLosesNothing(q: Queues, i: nat)
    requires i < |q.renames|
  {
    var p := q.renames[i].dest;
    forall v: Files, x: Path, base: Slot, base': Slot ::
      Covered(q, v, x, base) && (x != p ==> base' == base) ==> Covered(Dropped(q, i), v - {p}, x, base')
  }

  /** A later entry renames onto the key of entry `i`, which no queue names by itself. */
  predicate KeyRefilled(q: Queues, i: nat)
    requires i < |q.renames|
  {
    var root := q.renames[i].root;
    RenamedOntoLater(q.renames, i, root) && root !in q.upserts + q.removals
  }

  /** Dropping is lossless unless a later entry fills the key again; whenever that is so the removal gives up. */
  lemma DropLosesNothingIff(q: Queues, i: nat)
    requires WellFormed(q) && i < |q.renames|
    ensures DropLosesNothing(q, i) <==> !KeyRefilled(q, i)
    ensures !DropLosesNothing(q, i) ==> KeyReused(q.renames, i)
  {
    var p, root := q.renames[i].dest, q.renames[i].root;
    if KeyRefilled(q, i) {
      RefilledIsRefreshed(q.renames, i);
      var v: Files := map[root := Content([])];
      assert Covered(q, v, root, Unread) && !Covered(Dropped(q, i), v - {p}, root, Unread);
    } else {
      forall v: Files, x: Path, base: Slot, base': Slot | Covered(q, v, x, base) && (x != p ==> base' == base)
        ensures Covered(Dropped(q, i), v - {p}, x, base')
      {
        DropKeeps(q, i, v, x, base, base');
      }
    }
  }

  lemma RefilledIsRefreshed(m: seq<Rename>, i: nat)
    requires DistinctRoots(m) && i < |m|
    ensures RenameFate(m, m[i].root) == if RenamedOntoLater(m, i, m[i].root) then Refreshed
                                         else if m[i].dest == m[i].root then Refreshed else Removed
  {
    var k := LastIndex(m, m[i].root);
    assert Touches(m[i], m[i].root);
    if RenamedOntoLater(m, i, m[i].root) {
      var j :| i < j < |m| && m[j].dest == m[i].root;
      assert Touches(m[j], m[i].root);
    }
  }

  lemma DropKeeps(q: Queues, i: nat, v: Files, x: Path, base: Slot, base': Slot)
    requires WellFormed(q) && i < |q.renames| && !KeyRefilled(q, i)
    requires Covered(q, v, x, base) && (x != q.renames[i].dest ==> base' == base)
    ensures Covered(Dropped(q, i), v - {q.renames[i].dest}, x, base')
  {
    if x == q.renames[i].root {
      RefilledIsRefreshed(q.renames, i);
    } else if x != q.renames[i].dest {
      FateAfterRemoveAt(q.renames, i, x);
    }
  }

  /** The walks of two renames whose keys and first destination differ end after three steps. */
  lemma TwoRenamesAcyclic(k: Path, x: Path, a: Path, b: Path)
    requires k != a && b != k && b != a && x != k
    ensures !Cyclic([Rename(k, x), Rename(a, b)])
  {
    var m := [Rename(k, x), Rename(a, b)];
    assert RootIndex(m, k) == 0 && RootIndex(m, a) == 1 && RootIndex(m, b) == 2;
    assert FollowRename(m, k) == Some(x) && FollowRename(m, a) == Some(b) && FollowRename(m, b) == None;
    assert FollowRename(m, x) == if x == a then Some(b) else None;
    assert Walk(m, k, 0) == Some(k) && Walk(m, k, 1) == Some(x);
    assert Walk(m, k, 2) == FollowRename(m, x);
    assert Walk(m, a, 0) == Some(a) && Walk(m, a, 1) == Some(b) && Walk(m, a, 2) == None;
    assert Walk(m, k, 3) == None && Walk(m, a, 3) == None;
    LostPaths.WalksEndAcyclic(m, 3);
  }

  /** Rename k to x, a to b, and x to a: deleting b asks for a rescan although dropping its rename would lose nothing. */
  lemma RescansWithoutNeed(k: Path, x: Path, a: Path, b: Path)
    requires k != x && k != a && k != b && x != a && x != b && a != b
    ensures
      var q := QueueRename(QueueRename(QueueRename(LostPaths.EMPTY, k, x), a, b), x, a);
      && q.renames == [Rename(k, a), Rename(a, b)] && WellFormed(q)
      && GaveUp(q, QueueRemoval(q, b)) && DropLosesNothing(q, 1)
  {
    LostPaths.FirstRename(LostPaths.EMPTY, k, x);
    var q1 := QueueRename(LostPaths.EMPTY, k, x);
    LostPaths.OneRename(k, x);
    TwoRenamesAcyclic(k, x, a, b);
    assert Put(q1.renames, a, b) == [Rename(k, x), Rename(a, b)];
    var q2 := QueueRename(q1, a, b);
    TwoRenamesAcyclic(k, a, a, b);
    assert DestIndex(q2.renames, x) == 0 && Put(q2.renames, k, a) == [Rename(k, a), Rename(a, b)];
    var q := QueueRename(q2, x, a);
    assert FirstOnto(q.renames, 1, b) && q.renames[0].dest == q.renames[1].root;
    RemovalOutcome(q, b);
    DropLosesNothingIff(q, 1);
  }

  /// ---- rename ------------------------------------------------------------------------------------

  /** Each path is renamed to the next. */
  predicate Trail(m: seq<Rename>, ps: seq<Path>) {
    ps != [] && forall k :: 0 <= k < |ps| - 1 ==> Rename(ps[k], ps[k + 1]) in m
  }

  /** Some path is renamed, step by step, back to itself. */
  ghost predicate ClosedTrail(m: seq<Rename>) {
    exists ps :: Trail(m, ps) && |ps| >= 2 && ps[0] == ps[|ps| - 1]
  }

  lemma {:induction false} WalkIsTrail(m: seq<Rename>, p: Path, n: nat) returns (ps: seq<Path>)
    requires Walk(m, p, n).Some?
    ensures Trail(m, ps) && |ps| == n + 1 && ps[0] == p && Walk(m, p, n) == Some(ps[n])
  {
    if n == 0 {
      return [p];
    }
    var front := WalkIsTrail(m, p, n - 1);
    var i := RootIndex(m, front[n - 1]);
    ps := front + [m[i].dest];
    assert m[i] in m && m[i] == Rename(ps[n - 1], ps[n]);
  }

  lemma {:induction false} TrailIsWalk(m: seq<Rename>, ps: seq<Path>)
    requires DistinctRoots(m) && Trail(m, ps)
    ensures Walk(m, ps[0], |ps| - 1) == Some(ps[|ps| - 1])
    decreases |ps|
  {
    var n := |ps| - 1;
    if n > 0 {
      var front := ps[..n];
      forall k | 0 <= k < n - 1 ensures Rename(front[k], front[k + 1]) in m {
        assert Rename(ps[k], ps[k + 1]) in m;
      }
      TrailIsWalk(m, ps[..n]);
      assert Rename(ps[n - 1], ps[n - 1 + 1]) in m;
      var i :| 0 <= i < |m| && m[i] == Rename(ps[n - 1], ps[n]);
      assert RootIndex(m, ps[n - 1]) == i;
    }
  }

  lemma CyclicIff(m: seq<Rename>)
    requires DistinctRoots(m)
    ensures Cyclic(m) <==> ClosedTrail(m)
  {
    if Cyclic(m) {
      var p, n: nat :| 0 < n && Walk(m, p, n) == Some(p);
      var ps := WalkIsTrail(m, p, n);
      assert ps[0] == ps[|ps| - 1];
    }
    if ps :| Trail(m, ps) && |ps| >= 2 && ps[0] == ps[|ps| - 1] {
      TrailIsWalk(m, ps);
      assert OnCycle(m, ps[0]);
    }
  }

  /** The key under which a rename away from `a` is recorded: that of the first rename onto `a`, else `a`. */
  ghost predicate IsKey(m: seq<Rename>, a: Path, key: Path) {
    (NoneOnto(m, a) && key == a) || exists i: nat :: FirstOnto(m, i, a) && m[i].root == key
  }

  /** The pending renames with `key` sent to `b`, in its place if it is there, else at the end. */
  predicate Redirected(m: seq<Rename>, key: Path, b: Path, m': seq<Rename>) {
    || (m' == m + [Rename(key, b)] && forall i :: 0 <= i < |m| ==> m[i].root != key)
    || exists i :: 0 <= i < |m| && m[i].root == key && m' == m[i := Rename(key, b)]
  }

  /** A rename gives up iff its source is a key already or it would close a circle; else it redirects its key. */
  lemma RenameOutcomeExact(q: Queues, a: Path, b: Path, key: Path, m': seq<Rename>)
    requires WellFormed(q) && IsKey(q.renames, a, key) && Redirected(q.renames, key, b, m')
    ensures
      if (exists i :: 0 <= i < |q.renames| && q.renames[i].root == a) || ClosedTrail(m')
      then GaveUp(q, QueueRename(q, a, b))
      else QueueRename(q, a, b) == q.(renames := m', upserts := q.upserts - {key, a, b}, removals := q.removals - {b})
  {
    var m := q.renames;
    FirstIsDestIndex(m, a);
    assert ChainRoot(m, a) == key;
    RedirectedIsPut(m, key, b, m');
    CyclicIff(m');
    assert HasRoot(m, a) <==> exists i :: 0 <= i < |m| && m[i].root == a;
  }

  lemma RedirectedIsPut(m: seq<Rename>, key: Path, b: Path, m': seq<Rename>)
    requires DistinctRoots(m) && Redirected(m, key, b, m')
    ensures m' == Put(m, key, b) && DistinctRoots(m')
  {
    if i :| 0 <= i < |m| && m[i].root == key && m' == m[i := Rename(key, b)] {
      assert RootIndex(m, key) == i;
    }
  }

  /// ---- numbering and the bound -----------------------------------------------------------------

  /** A queue or a pending rename names the path. */
  predicate IsPending(q: Queues, p: Path) {
    p in q.upserts || p in q.removals || exists i :: 0 <= i < |q.renames| && (q.renames[i].root == p || q.renames[i].dest == p)
  }

  /** The bound counts each pending path once, and gives up iff there are more than the limit. */
  lemma BoundOutcome(q: Queues, n: nat, pending: set<Path>)
    requires forall p :: p in pending <==> IsPending(q, p)
    ensures if |pending| <= n then EnforceBound(q, n) == q else GaveUp(q, EnforceBound(q, n))
  {
    forall p ensures p in PendingPaths(q) <==> IsPending(q, p) {
      if i :| 0 <= i < |q.renames| && (q.renames[i].root == p || q.renames[i].dest == p) {
        assert q.renames[i] in q.renames;
      }
    }
    assert PendingPaths(q) == pending;
  }

  /** An event gets the next number, and so do the marks of the paths it names. */
  lemma StampOutcome(q: Queues, e: Event)
    ensures
      var s := Stamp(q, e);
      && s == q.(eventSequence := q.eventSequence + 1, touched := s.touched)
      && forall p ::
           var named := e == Upsert(p) || e == Remove(p) || (e.Moved? && (e.oldPath == p || e.path == p));
           Mark(s.touched, p) == if named then Some(q.eventSequence + 1) else Mark(q.touched, p)
  {
  }

  function Mark(touched: map<Path, nat>, p: Path): Option<nat> {
    if p in touched then Some(touched[p]) else None
  }

  /** An event is numbered, then queued by its kind, and only then are the pending paths counted. */
  lemma EventOutcome(q: Queues, e: Event, n: nat, queued: Queues, pending: set<Path>)
    requires
      var s := Stamp(q, e);
      match e
      case Upsert(p) => queued == QueueUpsert(s, p)
      case Remove(p) => queued == QueueRemoval(s, p)
      case Moved(a, b) => queued == QueueRename(s, a, b)
      case Rescan => GaveUp(s, queued)
    requires forall p :: p in pending <==> IsPending(queued, p)
    ensures if |pending| <= n then HandleEvent(q, e, n) == queued else GaveUp(queued, HandleEvent(q, e, n))
  {
    BoundOutcome(queued, n, pending);
  }
}
