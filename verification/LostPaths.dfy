/** Event sequences outside the hypothesis in which the queues lose a path, and a rebuild request without effect. */
module LostPaths {
  import opened Vault
  import opened PendingQueues
  import opened Coverage
  import opened IndexController

  const EMPTY := Queues({}, {}, [], false, false, false, 0, 0, map[])

  /** Renames along which every walk ends form no cycle. */
  lemma WalksEndAcyclic(m: seq<Rename>, n: nat)
    requires n > 0 && forall i :: 0 <= i < |m| ==> Walk(m, m[i].root, n).None?
    ensures !Cyclic(m)
  {
    forall p ensures !OnCycle(m, p) {
      if OnCycle(m, p) {
        var k: nat :| 0 < k && Walk(m, p, k) == Some(p);
        CycleNeverStops(m, p, k, 1);
        CycleNeverStops(m, p, k, n);
      }
    }
  }

  lemma OneRename(a: Path, b: Path)
    requires a != b
    ensures Put([], a, b) == [Rename(a, b)] && !Cyclic([Rename(a, b)])
    ensures DestIndex([Rename(a, b)], b) == 0 && RootIndex([Rename(a, b)], a) == 0
    ensures RootIndex([Rename(a, b)], b) == 1 && DestIndex([Rename(a, b)], a) == 1
    ensures forall c :: Put([Rename(a, b)], a, c) == [Rename(a, c)]
  {
    var m := [Rename(a, b)];
    assert Walk(m, a, 0) == Some(a);
    assert Walk(m, a, 1) == Some(b);
    assert Walk(m, a, 2) == None;
    WalksEndAcyclic(m, 2);
  }

  /** A rename away from a settled path is queued as it is. */
  lemma FirstRename(q: Queues, a: Path, b: Path)
    requires q.renames == [] && a != b
    ensures QueueRename(q, a, b) ==
            q.(renames := [Rename(a, b)], upserts := q.upserts - {a, b}, removals := q.removals - {b})
  {
    OneRename(a, b);
    assert q.upserts - {a, a, b} == q.upserts - {a, b};
  }

  /** A chained rename keeps the first source. */
  lemma SecondRename(q: Queues, a: Path, b: Path, c: Path)
    requires q.renames == [Rename(a, b)] && a != b && a != c && b != c
    ensures QueueRename(q, b, c) ==
            q.(renames := [Rename(a, c)], upserts := q.upserts - {a, b, c}, removals := q.removals - {c})
  {
    OneRename(a, b);
    OneRename(a, c);
  }

  /** Rename a to b, create a again, rename b to c: the new a is never indexed. */
  lemma RecreatedSourceIsLost(a: Path, b: Path, c: Path, first: Content, second: Content)
    requires a != b && a != c && b != c
    ensures
      var q1 := QueueRename(EMPTY, a, b);
      var q2 := QueueUpsert(q1, a);
      var q3 := QueueRename(q2, b, c);
      && !RenameSafe(q2, map[a := second, b := first], b, c, Holds(None))
      && !Covered(q3, map[a := second, c := first], a, Holds(Some(first)))
  {
    FirstRename(EMPTY, a, b);
    OneRename(a, b);
    var q2 := QueueUpsert(QueueRename(EMPTY, a, b), a);
    SecondRename(q2, a, b, c);
    assert LastIndex([Rename(a, c)], a) == 0;
  }

  /** b is indexed; delete b, rename a to b, rename b to c: the old b stays in the index. */
  lemma IndexedIntermediateIsLost(a: Path, b: Path, c: Path, moved: Content, deleted: Content)
    requires a != b && a != c && b != c
    ensures
      var q1 := QueueRemoval(EMPTY, b);
      var q2 := QueueRename(q1, a, b);
      var q3 := QueueRename(q2, b, c);
      && !RenameSafe(q2, map[b := moved], b, c, Holds(Some(deleted)))
      && !Covered(q3, map[c := moved], b, Holds(Some(deleted)))
  {
    var q1 := QueueRemoval(EMPTY, b);
    FirstRename(q1, a, b);
    OneRename(a, b);
    SecondRename(QueueRename(q1, a, b), a, b, c);
    assert LastIndex([Rename(a, c)], b) == -1;
  }

  /** Rename x to m, k to y, m to k: draining in order indexes the new k and then removes it. */
  lemma ReusedSourceIsLost(x: Path, m: Path, k: Path, y: Path, first: Content, second: Content)
    requires x != m && x != k && x != y && m != k && m != y && k != y
    ensures
      var q1 := QueueRename(EMPTY, x, m);
      var q2 := QueueRename(q1, k, y);
      var q3 := QueueRename(q2, m, k);
      && !RenameSafe(q2, map[m := first, y := second], m, k, Holds(None))
      && !Covered(q3, map[k := first, y := second], k, Holds(Some(second)))
  {
    FirstRename(EMPTY, x, m);
    var q1 := QueueRename(EMPTY, x, m);
    TwoRenames(x, m, k, y);
    TwoRenames(x, k, k, y);
    var q2, q3 := QueueRename(q1, k, y), QueueRename(QueueRename(q1, k, y), m, k);
    assert q2.renames == [Rename(x, m), Rename(k, y)];
    assert q3.renames == [Rename(x, k), Rename(k, y)];
    assert LastIndex([Rename(x, m), Rename(k, y)], k) == 1;
    assert LastIndex([Rename(x, k), Rename(k, y)], k) == 1;
  }

  /** Two renames, the first of which may lead to the second. */
  lemma TwoRenames(x: Path, m: Path, k: Path, y: Path)
    requires x != m && x != k && x != y && m != y && k != y
    ensures
      var two := [Rename(x, m), Rename(k, y)];
      && Put([Rename(x, m)], k, y) == two && !Cyclic(two)
      && RootIndex([Rename(x, m)], k) == 1 && (m != k ==> DestIndex([Rename(x, m)], k) == 1)
      && DestIndex(two, m) == 0 && (m != k ==> RootIndex(two, m) == 2)
      && (forall z :: Put(two, x, z) == [Rename(x, z), Rename(k, y)])
  {
    var two := [Rename(x, m), Rename(k, y)];
    assert two[1..] == [Rename(k, y)];
    assert RootIndex([Rename(k, y)], y) == 1;
    WalkThree(two, x);
    WalkThree(two, k);
    WalksEndAcyclic(two, 3);
  }

  lemma WalkThree(m: seq<Rename>, p: Path)
    ensures Walk(m, p, 3) ==
            match FollowRename(m, p)
            case None => None
            case Some(q) =>
              match FollowRename(m, q)
              case None => None
              case Some(r) => FollowRename(m, r)
  {
    assert Walk(m, p, 0) == Some(p);
    assert Walk(m, p, 1) == FollowRename(m, p);
    assert Walk(m, p, 2) == match FollowRename(m, p) case None => None case Some(q) => FollowRename(m, q);
  }

  /**
   A removal of p is in flight when p is created again; if the drain then fails, putting the removal back
   forgets the new p. Only the rebuild that must follow a failure brings it back.
   */
  lemma FailedRemovalForgetsCreation(p: Path, c: Content)
    ensures
      var (change, q1) := TakePath(QueueRemoval(EMPTY, p), p);
      var q2 := QueueUpsert(q1, p);
      Covered(q2, map[p := c], p, Holds(None)) && !Covered(Requeue(q2, change), map[p := c], p, Holds(None))
  {
    var (change, q1) := TakePath(QueueRemoval(EMPTY, p), p);
    assert change.removals == {p} && change.upserts == {};
    assert Only(change.removals) == p;
  }

  /** After a failure, requestRebuild resumes work iff no rebuild of an active index is already recorded. */
  lemma RebuildUnblocks(s: State, n: nat)
    requires Consistent(s) && s.q.blocked
    ensures !Next(s, RequestRebuild, n).q.blocked <==> !(s.active.Some? && s.q.rebuildRequested)
    ensures s.active.Some? && s.q.rebuildRequested ==> Next(s, RequestRebuild, n) == s
  {
  }
}
