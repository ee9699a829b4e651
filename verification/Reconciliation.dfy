/**
 The reconciliation planner of the Worker, which classifies a fresh inventory against the stored rows, and the
 controller's check that a plan covers everything.
 */
module Reconciliation {
  import opened Vault

  const MAX_CANONICAL_MTIME_NANOS := 999_999_999_999_999_999_999_999_999_999_999_999_999

  /** A file of the vault: its bytes and its modification time in milliseconds. */
  datatype SourceFile = SourceFile(content: Content, mtime: int)

  type Sources = map<Path, SourceFile>

  /** SHA-256, taken to be injective. */
  datatype Digest = Digest(content: Content)

  /** What a stored row tells of the content: an oversized source is skipped, and a row may carry no digest. */
  datatype Body = Skipped | Undigested | Digested(content: Content)

  datatype Row = Row(byteLength: nat, mtimeNanos: nat, body: Body)

  type Rows = map<Path, Row>

  /** What an inspection tells about a present source. */
  datatype Inspection = Inspection(path: Path, size: nat, mtime: int, indexable: bool)

  datatype Audit = Audit(path: Path, contentHash: Digest)

  datatype Plan = Plan(
    intact: seq<Path>,
    audit: seq<Audit>,
    refresh: seq<Path>,
    remove: seq<Path>,
    storedSourceCount: int,
    matchedSourceCount: int)

  function CanonicalMtimeNanos(mtime: int): nat {
    if mtime <= 0 then 0
    else if mtime * 1_000_000 > MAX_CANONICAL_MTIME_NANOS then MAX_CANONICAL_MTIME_NANOS
    else mtime * 1_000_000
  }

  predicate IsOversized(f: SourceFile) {
    |f.content.bytes| > MAX_INDEXABLE_SOURCE_BYTES
  }

  function Inspect(p: Path, f: SourceFile): Inspection {
    Inspection(p, |f.content.bytes|, f.mtime, !IsOversized(f))
  }

  /** The row the Worker stores for a file. */
  function RowOf(f: SourceFile): Row {
    Row(|f.content.bytes|, CanonicalMtimeNanos(f.mtime), if IsOversized(f) then Skipped else Digested(f.content))
  }

  /** The rows of a complete index of the vault. */
  function IndexOf(vault: Sources): Rows {
    map p | p in vault :: RowOf(vault[p])
  }

  function RowAt(rows: Rows, p: Path): Option<Row> {
    if p in rows then Some(rows[p]) else None
  }

  function PathsOf(current: seq<Inspection>): (paths: seq<Path>)
    ensures |paths| == |current| && forall i :: 0 <= i < |current| ==> paths[i] == current[i].path
  {
    seq(|current|, i requires 0 <= i < |current| => current[i].path)
  }

  /** No element occurs twice. */
  predicate Distinct<T(==)>(s: seq<T>) {
    s == [] || (s[|s| - 1] !in s[..|s| - 1] && Distinct(s[..|s| - 1]))
  }

  lemma {:induction false} DistinctAt<T>(s: seq<T>, i: nat, j: nat)
    requires Distinct(s) && i < j < |s|
    ensures s[i] != s[j]
  {
    if j < |s| - 1 {
      DistinctAt(s[..|s| - 1], i, j);
    } else {
      assert s[i] in s[..|s| - 1];
    }
  }

  lemma DistinctAppend<T>(s: seq<T>, x: T)
    requires Distinct(s) && x !in s
    ensures Distinct(s + [x])
  {
    assert (s + [x])[..|s|] == s;
  }

  function ToSet<T>(s: seq<T>): set<T> {
    set x | x in s
  }

  function AuditPaths(audit: seq<Audit>): (paths: seq<Path>)
    ensures |paths| == |audit| && forall i :: 0 <= i < |audit| ==> paths[i] == audit[i].path
  {
    seq(|audit|, i requires 0 <= i < |audit| => audit[i].path)
  }

  /// ---- the planner ------------------------------------------------------------------------------------

  datatype Class = Unchanged | Audited(contentHash: Digest) | Refreshed

  function Classify(previous: Option<Row>, source: Inspection): Class {
    match previous
    case None => Refreshed
    case Some(row) =>
      if row.byteLength == source.size && row.mtimeNanos == CanonicalMtimeNanos(source.mtime)
         && row.body.Skipped? == !source.indexable
      then (match row.body
            case Skipped => Unchanged
            case Digested(content) => Audited(Digest(content))
            case Undigested => Refreshed)
      else Refreshed
  }

  /** The plan the planner makes of an inventory that lists each path once. */
  ghost predicate PlanFor(plan: Plan, rows: Rows, current: seq<Inspection>) {
    && Distinct(plan.intact) && Distinct(AuditPaths(plan.audit)) && Distinct(plan.refresh) && Ascending(plan.remove)
    && (forall p :: p in plan.intact <==> ClassifiedAs(rows, current, p, Unchanged))
    && (forall a :: a in plan.audit <==> ClassifiedAs(rows, current, a.path, Audited(a.contentHash)))
    && (forall p :: p in plan.refresh <==> ClassifiedAs(rows, current, p, Refreshed))
    && ToSet(plan.remove) == rows.Keys - ToSet(PathsOf(current))
    && plan.storedSourceCount == |rows|
    && plan.matchedSourceCount == |rows.Keys * ToSet(PathsOf(current))|
  }

  ghost predicate ClassifiedAs(rows: Rows, current: seq<Inspection>, p: Path, c: Class) {
    exists s :: s in current && s.path == p && Classify(RowAt(rows, p), s) == c
  }

  /** sort(comparePaths) of the keys of a Map or Set. */
  method SortedPaths(paths: set<Path>) returns (sorted: seq<Path>)
    ensures Ascending(sorted) && ToSet(sorted) == paths
  {
    sorted := [];
    var rest := paths;
    while rest != {}
      invariant rest <= paths && Ascending(sorted) && ToSet(sorted) == paths - rest
      invariant forall i, p :: 0 <= i < |sorted| && p in rest ==> Less(sorted[i], p)
      decreases rest
    {
      var least := LeastPath(rest);
      forall p | p in rest - {least} ensures Less(least, p) {
        assert AtMost(least, p);
      }
      assert ToSet(sorted + [least]) == ToSet(sorted) + {least};
      sorted := sorted + [least];
      rest := rest - {least};
    }
  }

  lemma {:induction false} AscendingIsDistinct(paths: seq<Path>)
    requires Ascending(paths)
    ensures Distinct(paths)
  {
    if paths != [] {
      var n := |paths| - 1;
      AscendingIsDistinct(paths[..n]);
      forall i | 0 <= i < n ensures paths[..n][i] != paths[n] {
        PathOrder(paths[i], paths[n], paths[n]);
      }
    }
  }

  /** The paths of the first `n` sources in class `c`, in order. */
  function PathsClassed(rows: Rows, current: seq<Inspection>, n: nat, c: Class): seq<Path>
    requires n <= |current|
  {
    if n == 0 then []
    else PathsClassed(rows, current, n - 1, c)
         + if Classify(RowAt(rows, current[n - 1].path), current[n - 1]) == c then [current[n - 1].path] else []
  }

  function Audits(rows: Rows, current: seq<Inspection>, n: nat): seq<Audit>
    requires n <= |current|
  {
    if n == 0 then []
    else Audits(rows, current, n - 1)
         + match Classify(RowAt(rows, current[n - 1].path), current[n - 1])
           case Audited(contentHash) => [Audit(current[n - 1].path, contentHash)]
           case _ => []
  }

  lemma {:induction false} PathsClassedExact(rows: Rows, current: seq<Inspection>, n: nat, c: Class)
    requires n <= |current| && Distinct(PathsOf(current))
    ensures forall p :: p in PathsClassed(rows, current, n, c) <==> ClassifiedAs(rows, current[..n], p, c)
    ensures Distinct(PathsClassed(rows, current, n, c))
  {
    if n > 0 {
      PathsClassedExact(rows, current, n - 1, c);
      forall p ensures p in PathsClassed(rows, current, n, c) <==> ClassifiedAs(rows, current[..n], p, c) {
        ClassifiedByPrefix(rows, current, n, p, c);
      }
      PathsByPrefix(current, n - 1);
      var before := PathsClassed(rows, current, n - 1, c);
      assert before + [] == before;
      if current[n - 1].path in before {
        ClassifiedIsListed(rows, current[..n - 1], current[n - 1].path, c);
      } else {
        DistinctAppend(before, current[n - 1].path);
      }
    }
  }

  lemma {:induction false} AuditsExact(rows: Rows, current: seq<Inspection>, n: nat, a: Audit)
    requires n <= |current|
    ensures a in Audits(rows, current, n) <==> ClassifiedAs(rows, current[..n], a.path, Audited(a.contentHash))
  {
    if n > 0 {
      AuditsExact(rows, current, n - 1, a);
      ClassifiedByPrefix(rows, current, n, a.path, Audited(a.contentHash));
    }
  }

  lemma {:induction false} AuditsDistinct(rows: Rows, current: seq<Inspection>, n: nat)
    requires n <= |current| && Distinct(PathsOf(current))
    ensures Distinct(AuditPaths(Audits(rows, current, n)))
  {
    if n > 0 {
      AuditsDistinct(rows, current, n - 1);
      var before, p := Audits(rows, current, n - 1), current[n - 1].path;
      PathsByPrefix(current, n - 1);
      assert before + [] == before;
      match Classify(RowAt(rows, p), current[n - 1])
      case Audited(contentHash) =>
        assert AuditPaths(before + [Audit(p, contentHash)]) == AuditPaths(before) + [p];
        if j :| 0 <= j < |before| && AuditPaths(before)[j] == p {
          AuditsExact(rows, current, n - 1, before[j]);
          ClassifiedIsListed(rows, current[..n - 1], p, Audited(before[j].contentHash));
        } else {
          DistinctAppend(AuditPaths(before), p);
        }
      case _ =>
    }
  }

  lemma ClassifiedIsListed(rows: Rows, current: seq<Inspection>, p: Path, c: Class)
    requires ClassifiedAs(rows, current, p, c)
    ensures p in ToSet(PathsOf(current))
  {
    var s :| s in current && s.path == p && Classify(RowAt(rows, p), s) == c;
    var i :| 0 <= i < |current| && current[i] == s;
    assert PathsOf(current)[i] == p;
  }

  lemma ClassifiedByPrefix(rows: Rows, current: seq<Inspection>, n: nat, p: Path, c: Class)
    requires 0 < n <= |current|
    ensures ClassifiedAs(rows, current[..n], p, c)
            <==> || ClassifiedAs(rows, current[..n - 1], p, c)
                 || (current[n - 1].path == p && Classify(RowAt(rows, p), current[n - 1]) == c)
  {
    assert current[..n] == current[..n - 1] + [current[n - 1]];
    if ClassifiedAs(rows, current[..n - 1], p, c) {
      var s :| s in current[..n - 1] && s.path == p && Classify(RowAt(rows, p), s) == c;
      assert s in current[..n];
    }
    if ClassifiedAs(rows, current[..n], p, c) {
      var s :| s in current[..n] && s.path == p && Classify(RowAt(rows, p), s) == c;
      assert s in current[..n - 1] || s == current[n - 1];
    }
    if current[n - 1].path == p && Classify(RowAt(rows, p), current[n - 1]) == c {
      assert current[n - 1] in current[..n];
    }
  }

  lemma PathsByPrefix(current: seq<Inspection>, i: nat)
    requires i < |current| && Distinct(PathsOf(current))
    ensures ToSet(PathsOf(current[..i + 1])) == ToSet(PathsOf(current[..i])) + {current[i].path}
    ensures current[i].path !in ToSet(PathsOf(current[..i]))
  {
    var before, after := PathsOf(current[..i]), PathsOf(current[..i + 1]);
    assert after == before + [current[i].path];
    forall j | 0 <= j < i ensures before[j] != current[i].path {
      DistinctAt(PathsOf(current), j, i);
    }
  }

  /** The paths of the first `n` sources. */
  function Listed(current: seq<Inspection>, n: nat): set<Path>
    requires n <= |current|
  {
    if n == 0 then {} else Listed(current, n - 1) + {current[n - 1].path}
  }

  lemma {:induction false} ListedIsPrefix(current: seq<Inspection>, n: nat)
    requires n <= |current| && Distinct(PathsOf(current))
    ensures Listed(current, n) == ToSet(PathsOf(current[..n]))
  {
    if n > 0 {
      ListedIsPrefix(current, n - 1);
      PathsByPrefix(current, n - 1);
    }
  }

  lemma NotListedBefore(current: seq<Inspection>, i: nat)
    requires i < |current| && Distinct(PathsOf(current))
    ensures current[i].path !in Listed(current, i)
  {
    ListedIsPrefix(current, i);
    PathsByPrefix(current, i);
  }

  /** The rows no source among the first `n` has taken, and how many have been taken. */
  function Untaken(rows: Rows, current: seq<Inspection>, n: nat): Rows
    requires n <= |current|
  {
    if n == 0 then rows else Untaken(rows, current, n - 1) - {current[n - 1].path}
  }

  function Taken(rows: Rows, current: seq<Inspection>, n: nat): nat
    requires n <= |current|
  {
    if n == 0 then 0
    else Taken(rows, current, n - 1) + if current[n - 1].path in Untaken(rows, current, n - 1) then 1 else 0
  }

  lemma {:induction false} UntakenAt(rows: Rows, current: seq<Inspection>, n: nat, p: Path)
    requires n <= |current|
    ensures RowAt(Untaken(rows, current, n), p) == if p in Listed(current, n) then None else RowAt(rows, p)
  {
    if n > 0 {
      UntakenAt(rows, current, n - 1, p);
    }
  }

  /** In an inventory without repeats no earlier source has taken a source's row. */
  lemma NotTakenBefore(rows: Rows, current: seq<Inspection>, i: nat)
    requires i < |current| && Distinct(PathsOf(current))
    ensures RowAt(Untaken(rows, current, i), current[i].path) == RowAt(rows, current[i].path)
  {
    NotListedBefore(current, i);
    UntakenAt(rows, current, i, current[i].path);
  }

  lemma OneMoreMatched(stored: set<Path>, listed: set<Path>, p: Path)
    requires p !in listed
    ensures |stored * (listed + {p})| == |stored * listed| + if p in stored then 1 else 0
  {
    if p in stored {
      assert stored * (listed + {p}) == stored * listed + {p};
    } else {
      assert stored * (listed + {p}) == stored * listed;
    }
  }

  /** How many of a list's paths are stored. */
  function CountIn(stored: set<Path>, paths: seq<Path>): nat {
    if paths == [] then 0
    else CountIn(stored, paths[..|paths| - 1]) + if paths[|paths| - 1] in stored then 1 else 0
  }

  lemma {:induction false} CountInIsCardinality(stored: set<Path>, paths: seq<Path>)
    requires Distinct(paths)
    ensures CountIn(stored, paths) == |stored * ToSet(paths)|
  {
    if paths == [] {
      assert stored * ToSet(paths) == {};
    } else {
      var n := |paths| - 1;
      CountInIsCardinality(stored, paths[..n]);
      assert ToSet(paths) == ToSet(paths[..n]) + {paths[n]};
      OneMoreMatched(stored, ToSet(paths[..n]), paths[n]);
    }
  }

  lemma {:induction false} TakenCounts(rows: Rows, current: seq<Inspection>, n: nat)
    requires n <= |current| && Distinct(PathsOf(current))
    ensures Taken(rows, current, n) == CountIn(rows.Keys, PathsOf(current)[..n])
  {
    if n > 0 {
      TakenCounts(rows, current, n - 1);
      NotTakenBefore(rows, current, n - 1);
      assert PathsOf(current)[..n][..n - 1] == PathsOf(current)[..n - 1];
    }
  }

  lemma TakenAll(rows: Rows, current: seq<Inspection>)
    requires Distinct(PathsOf(current))
    ensures Untaken(rows, current, |current|).Keys == rows.Keys - ToSet(PathsOf(current))
    ensures Taken(rows, current, |current|) == |rows.Keys * ToSet(PathsOf(current))|
  {
    var n := |current|;
    assert current[..n] == current;
    ListedIsPrefix(current, n);
    TakenCounts(rows, current, n);
    assert PathsOf(current)[..n] == PathsOf(current);
    CountInIsCardinality(rows.Keys, PathsOf(current));
    forall p ensures p in Untaken(rows, current, n).Keys <==> p in rows.Keys - Listed(current, n) {
      UntakenAt(rows, current, n, p);
    }
  }

  /** The planner's loop over the inventory. */
  method ClassifyAll(rows: Rows, current: seq<Inspection>)
    returns (intact: seq<Path>, audit: seq<Audit>, refresh: seq<Path>, stored: Rows, matched: nat)
    requires Distinct(PathsOf(current))
    ensures stored == Untaken(rows, current, |current|)
    ensures matched == Taken(rows, current, |current|)
    ensures intact == PathsClassed(rows, current, |current|, Unchanged)
    ensures audit == Audits(rows, current, |current|)
    ensures refresh == PathsClassed(rows, current, |current|, Refreshed)
  {
    stored, matched := rows, 0;
    intact, audit, refresh := [], [], [];
    for i := 0 to |current|
      invariant stored == Untaken(rows, current, i)
      invariant matched == Taken(rows, current, i)
      invariant intact == PathsClassed(rows, current, i, Unchanged)
      invariant audit == Audits(rows, current, i)
      invariant refresh == PathsClassed(rows, current, i, Refreshed)
    {
      NotTakenBefore(rows, current, i);
      var previous := RowAt(stored, current[i].path);
      if previous.Some? {
        matched := matched + 1;
      }
      stored := stored - {current[i].path};
      intact, audit, refresh := Place(rows, current, i, previous, intact, audit, refresh);
    }
  }

  method Place(rows: Rows, current: seq<Inspection>, i: nat, previous: Option<Row>,
               intact: seq<Path>, audit: seq<Audit>, refresh: seq<Path>)
    returns (intact': seq<Path>, audit': seq<Audit>, refresh': seq<Path>)
    requires i < |current| && previous == RowAt(rows, current[i].path)
    requires intact == PathsClassed(rows, current, i, Unchanged)
    requires audit == Audits(rows, current, i)
    requires refresh == PathsClassed(rows, current, i, Refreshed)
    ensures intact' == PathsClassed(rows, current, i + 1, Unchanged)
    ensures audit' == Audits(rows, current, i + 1)
    ensures refresh' == PathsClassed(rows, current, i + 1, Refreshed)
  {
    intact', audit', refresh' := intact, audit, refresh;
    match Classify(previous, current[i]) {
      case Unchanged => intact' := intact + [current[i].path];
      case Audited(contentHash) => audit' := audit + [Audit(current[i].path, contentHash)];
      case Refreshed => refresh' := refresh + [current[i].path];
    }
  }

  /** planReconciliation; None is the thrown capacity error. */
  method PlanReconciliation(rows: Rows, current: seq<Inspection>) returns (plan: Option<Plan>)
    requires Distinct(PathsOf(current))
    ensures plan.None? <==> |rows| > MAX_RECONCILIATION_SOURCES
    ensures plan.Some? ==> PlanFor(plan.value, rows, current)
  {
    if |rows| > MAX_RECONCILIATION_SOURCES { return None; }
    var rowsPlan := PlanRows(rows, current);
    plan := Some(rowsPlan);
  }

  method PlanRows(rows: Rows, current: seq<Inspection>) returns (plan: Plan)
    requires Distinct(PathsOf(current))
    ensures PlanFor(plan, rows, current)
  {
    var intact, audit, refresh, stored, matched := ClassifyAll(rows, current);
    TakenAll(rows, current);
    assert current[..|current|] == current;
    PathsClassedExact(rows, current, |current|, Unchanged);
    PathsClassedExact(rows, current, |current|, Refreshed);
    AuditsDistinct(rows, current, |current|);
    forall a {
      AuditsExact(rows, current, |current|, a);
    }
    var remove := SortedPaths(stored.Keys);
    plan := Plan(intact, audit, refresh, remove, |rows|, matched);
  }

  /// ---- the controller's check ---------------------------------------------------------------------------

  /** assertCompleteReconciliationPlan does not throw. */
  function AssertComplete(plan: Plan, currentPaths: seq<Path>): bool {
    var current, intact := ToSet(currentPaths), ToSet(plan.intact);
    var audit, refresh, remove := ToSet(AuditPaths(plan.audit)), ToSet(plan.refresh), ToSet(plan.remove);
    var uniqueCount := |intact| + |audit| + |refresh| + |remove|;
    var declaredCount := |plan.intact| + |plan.audit| + |plan.refresh| + |plan.remove|;
    !(
      || |current| != |currentPaths|
      || uniqueCount != declaredCount
      || (exists p :: p in plan.intact && (p in audit || p in refresh || p in remove))
      || (exists a :: a in plan.audit && (a.path in refresh || a.path in remove))
      || (exists p :: p in plan.refresh && p in remove)
      || (exists p :: p in plan.remove && p in current)
      || (exists p :: p in plan.intact && p !in current)
      || (exists a :: a in plan.audit && a.path !in current)
      || (exists p :: p in plan.refresh && p !in current)
      || |plan.intact| + |plan.audit| + |plan.refresh| != |current|
      || (exists p :: p in current && p !in intact && p !in audit && p !in refresh)
      || plan.storedSourceCount < 0
      || plan.matchedSourceCount < |plan.intact| + |plan.audit|
      || plan.matchedSourceCount > |current|
      || plan.matchedSourceCount + |plan.remove| != plan.storedSourceCount)
  }

  /** A partition of the inventory into three duplicate-free lists, and removals outside it. */
  ghost predicate Covers(plan: Plan, currentPaths: seq<Path>) {
    var intact, audit, refresh := ToSet(plan.intact), ToSet(AuditPaths(plan.audit)), ToSet(plan.refresh);
    && Distinct(currentPaths) && Distinct(plan.intact) && Distinct(AuditPaths(plan.audit))
    && Distinct(plan.refresh) && Distinct(plan.remove)
    && intact !! audit !! refresh !! ToSet(plan.remove)
    && intact + audit + refresh == ToSet(currentPaths)
  }

  lemma {:induction false} SetOfList<T>(s: seq<T>)
    ensures |ToSet(s)| <= |s|
    ensures |ToSet(s)| == |s| <==> Distinct(s)
  {
    if s != [] {
      var n := |s| - 1;
      SetOfList(s[..n]);
      assert s == s[..n] + [s[n]];
      assert ToSet(s) == ToSet(s[..n]) + {s[n]};
    }
  }

  lemma CoversSizes(plan: Plan, currentPaths: seq<Path>)
    requires Covers(plan, currentPaths)
    ensures |plan.intact| + |plan.audit| + |plan.refresh| == |currentPaths|
  {
    SetOfList(plan.intact);
    SetOfList(AuditPaths(plan.audit));
    SetOfList(plan.refresh);
    SetOfList(currentPaths);
    var intact, audit, refresh := ToSet(plan.intact), ToSet(AuditPaths(plan.audit)), ToSet(plan.refresh);
    assert |intact + audit| == |intact| + |audit|;
    assert |intact + audit + refresh| == |intact + audit| + |refresh|;
  }

  lemma AuditedPaths(audit: seq<Audit>)
    ensures ToSet(AuditPaths(audit)) == set a | a in audit :: a.path
  {
    forall a | a in audit ensures a.path in AuditPaths(audit) {
      var i :| 0 <= i < |audit| && audit[i] == a;
      assert AuditPaths(audit)[i] == a.path;
    }
  }

  /** The check passes exactly on partitions whose counts add up. */
  lemma AcceptedIffCovers(plan: Plan, currentPaths: seq<Path>)
    ensures AssertComplete(plan, currentPaths) <==>
              && Covers(plan, currentPaths)
              && |plan.intact| + |plan.audit| <= plan.matchedSourceCount <= |currentPaths|
              && plan.matchedSourceCount + |plan.remove| == plan.storedSourceCount
  {
    if AssertComplete(plan, currentPaths) {
      AcceptedCovers(plan, currentPaths);
    }
    if Covers(plan, currentPaths) {
      CoversSizes(plan, currentPaths);
      DuplicateFree(plan, currentPaths);
      AuditedPaths(plan.audit);
    }
  }

  /** The two counting clauses of the check say that no list repeats a path. */
  lemma DuplicateFree(plan: Plan, currentPaths: seq<Path>)
    ensures |ToSet(currentPaths)| == |currentPaths| <==> Distinct(currentPaths)
    ensures |ToSet(plan.intact)| + |ToSet(AuditPaths(plan.audit))| + |ToSet(plan.refresh)| + |ToSet(plan.remove)|
            == |plan.intact| + |plan.audit| + |plan.refresh| + |plan.remove|
            <==> Distinct(plan.intact) && Distinct(AuditPaths(plan.audit)) && Distinct(plan.refresh) && Distinct(plan.remove)
  {
    SetOfList(plan.intact);
    SetOfList(AuditPaths(plan.audit));
    SetOfList(plan.refresh);
    SetOfList(plan.remove);
    SetOfList(currentPaths);
  }

  lemma AcceptedCovers(plan: Plan, currentPaths: seq<Path>)
    requires AssertComplete(plan, currentPaths)
    ensures Covers(plan, currentPaths) && |ToSet(currentPaths)| == |currentPaths|
  {
    DuplicateFree(plan, currentPaths);
    AcceptedPaths(plan, currentPaths);
  }

  /** The clauses of the check that compare paths. */
  lemma AcceptedPaths(plan: Plan, currentPaths: seq<Path>)
    requires AssertComplete(plan, currentPaths)
    ensures
      var intact, audit, refresh := ToSet(plan.intact), ToSet(AuditPaths(plan.audit)), ToSet(plan.refresh);
      intact !! audit !! refresh !! ToSet(plan.remove) && intact + audit + refresh == ToSet(currentPaths)
  {
    AuditedPaths(plan.audit);
    var intact, audit, refresh := ToSet(plan.intact), ToSet(AuditPaths(plan.audit)), ToSet(plan.refresh);
    forall p | p in audit ensures p in currentPaths {
      var a :| a in plan.audit && a.path == p;
    }
    assert intact + audit + refresh == ToSet(currentPaths);
  }

  /**
   A plan that passes, and whose removals and counts are about the stored rows, removes exactly the rows
   of paths outside the inventory: counting leaves no stale row out.
   */
  lemma AcceptedPlanMissesNoStaleRow(plan: Plan, currentPaths: seq<Path>, rows: Rows)
    requires AssertComplete(plan, currentPaths)
    requires ToSet(plan.remove) <= rows.Keys && plan.storedSourceCount == |rows|
    requires plan.matchedSourceCount == |rows.Keys * ToSet(currentPaths)|
    ensures ToSet(plan.remove) == rows.Keys - ToSet(currentPaths)
  {
    AcceptedIffCovers(plan, currentPaths);
    SetOfList(plan.remove);
    var current, remove := ToSet(currentPaths), ToSet(plan.remove);
    MatchedAndStale(rows, currentPaths);
    assert remove <= rows.Keys - current;
    SubsetOfSameSize(remove, rows.Keys - current);
  }

  lemma SubsetOfSameSize<T>(a: set<T>, b: set<T>)
    requires a <= b && |a| == |b|
    ensures a == b
  {
    if x :| x in b && x !in a {
      assert a + {x} <= b;
      SubsetSize(a + {x}, b);
    }
  }

  lemma SubsetSize<T>(a: set<T>, b: set<T>)
    requires a <= b
    ensures |a| <= |b|
  {
    assert b == a + (b - a);
    assert |b| == |a| + |b - a|;
  }

  /** The planner's own plans always pass the check. */
  lemma PlannedIsAccepted(plan: Plan, rows: Rows, current: seq<Inspection>)
    requires Distinct(PathsOf(current)) && PlanFor(plan, rows, current)
    ensures AssertComplete(plan, PathsOf(current))
  {
    var paths := PathsOf(current);
    AuditedPaths(plan.audit);
    AscendingIsDistinct(plan.remove);
    PlannedCovers(plan, rows, current);
    PlannedCounts(plan, rows, current);
    AcceptedIffCovers(plan, paths);
  }

  lemma OneClass(rows: Rows, current: seq<Inspection>, p: Path, c: Class, d: Class)
    requires Distinct(PathsOf(current)) && ClassifiedAs(rows, current, p, c) && ClassifiedAs(rows, current, p, d)
    ensures c == d
  {
    var s :| s in current && s.path == p && Classify(RowAt(rows, p), s) == c;
    var t :| t in current && t.path == p && Classify(RowAt(rows, p), t) == d;
    var i :| 0 <= i < |current| && current[i] == s;
    var j :| 0 <= j < |current| && current[j] == t;
    if i < j { DistinctAt(PathsOf(current), i, j); }
    if j < i { DistinctAt(PathsOf(current), j, i); }
  }

  lemma SomeClass(rows: Rows, current: seq<Inspection>, p: Path)
    ensures p in PathsOf(current) <==> exists c :: ClassifiedAs(rows, current, p, c)
  {
    if p in PathsOf(current) {
      var i :| 0 <= i < |current| && PathsOf(current)[i] == p;
      assert ClassifiedAs(rows, current, p, Classify(RowAt(rows, p), current[i]));
    }
    if c :| ClassifiedAs(rows, current, p, c) {
      ClassifiedIsListed(rows, current, p, c);
    }
  }

  lemma InOneList(plan: Plan, rows: Rows, current: seq<Inspection>, p: Path)
    requires Distinct(PathsOf(current)) && PlanFor(plan, rows, current)
    ensures var intact, audit, refresh := ToSet(plan.intact), ToSet(AuditPaths(plan.audit)), ToSet(plan.refresh);
            && (p in intact || p in audit || p in refresh <==> p in ToSet(PathsOf(current)))
            && !(p in intact && p in audit) && !(p in intact && p in refresh) && !(p in audit && p in refresh)
            && (p in intact || p in audit ==> p in rows)
  {
    AuditedPaths(plan.audit);
    assert p in AuditPaths(plan.audit) <==> p in ToSet(AuditPaths(plan.audit));
    SomeClass(rows, current, p);
    if p in PathsOf(current) {
      var c :| ClassifiedAs(rows, current, p, c);
      forall d | ClassifiedAs(rows, current, p, d) ensures c == d {
        OneClass(rows, current, p, c, d);
      }
      if c.Audited? {
        assert Audit(p, c.contentHash) in plan.audit;
      }
    }
  }

  lemma PlannedCovers(plan: Plan, rows: Rows, current: seq<Inspection>)
    requires Distinct(PathsOf(current)) && PlanFor(plan, rows, current)
    ensures Covers(plan, PathsOf(current))
  {
    AscendingIsDistinct(plan.remove);
    ListsPartition(plan, rows, current);
  }

  /** Which of three lists a path is in: exactly one if it is listed, otherwise none. */
  predicate InOneOf(p: Path, intact: set<Path>, audit: set<Path>, refresh: set<Path>, listed: set<Path>) {
    && (p in intact || p in audit || p in refresh <==> p in listed)
    && !(p in intact && p in audit) && !(p in intact && p in refresh) && !(p in audit && p in refresh)
  }

  lemma SetsPartition(intact: set<Path>, audit: set<Path>, refresh: set<Path>, listed: set<Path>, remove: set<Path>)
    requires forall p :: InOneOf(p, intact, audit, refresh, listed)
    requires listed !! remove
    ensures intact + audit + refresh == listed && intact !! audit !! refresh !! remove
  {
    forall p ensures p in intact + audit + refresh <==> p in listed {
      assert InOneOf(p, intact, audit, refresh, listed);
    }
    forall p | p in intact ensures p !in audit && p !in refresh {
      assert InOneOf(p, intact, audit, refresh, listed);
    }
    forall p | p in audit ensures p !in refresh {
      assert InOneOf(p, intact, audit, refresh, listed);
    }
  }

  lemma ListsPartition(plan: Plan, rows: Rows, current: seq<Inspection>)
    requires Distinct(PathsOf(current)) && PlanFor(plan, rows, current)
    ensures var intact, audit, refresh := ToSet(plan.intact), ToSet(AuditPaths(plan.audit)), ToSet(plan.refresh);
            && intact + audit + refresh == ToSet(PathsOf(current))
            && intact !! audit !! refresh !! ToSet(plan.remove)
  {
    var intact, audit, refresh := ToSet(plan.intact), ToSet(AuditPaths(plan.audit)), ToSet(plan.refresh);
    var listed := ToSet(PathsOf(current));
    forall p ensures InOneOf(p, intact, audit, refresh, listed) {
      InOneList(plan, rows, current, p);
    }
    SetsPartition(intact, audit, refresh, listed, ToSet(plan.remove));
  }

  lemma PlannedCounts(plan: Plan, rows: Rows, current: seq<Inspection>)
    requires Distinct(PathsOf(current)) && PlanFor(plan, rows, current)
    requires Covers(plan, PathsOf(current))
    ensures |plan.intact| + |plan.audit| <= plan.matchedSourceCount <= |PathsOf(current)|
    ensures plan.matchedSourceCount + |plan.remove| == plan.storedSourceCount
  {
    KeptRowsMatched(plan, rows, current);
    MatchedAndStale(rows, PathsOf(current));
    SetOfList(plan.remove);
    assert ToSet(plan.remove) == rows.Keys - ToSet(PathsOf(current));
  }

  lemma MatchedAndStale(rows: Rows, paths: seq<Path>)
    requires Distinct(paths)
    ensures var listed := ToSet(paths);
            |rows.Keys * listed| <= |paths| && |rows.Keys * listed| + |rows.Keys - listed| == |rows|
  {
    var listed := ToSet(paths);
    var matched := rows.Keys * listed;
    SetOfList(paths);
    SubsetSize(matched, listed);
    assert rows.Keys == matched + (rows.Keys - listed);
    assert |rows.Keys| == |matched| + |rows.Keys - listed|;
  }

  lemma KeptRowsMatched(plan: Plan, rows: Rows, current: seq<Inspection>)
    requires Distinct(PathsOf(current)) && PlanFor(plan, rows, current)
    requires Covers(plan, PathsOf(current))
    ensures |plan.intact| + |plan.audit| <= |rows.Keys * ToSet(PathsOf(current))|
  {
    var intact, audit := ToSet(plan.intact), ToSet(AuditPaths(plan.audit));
    SetOfList(plan.intact);
    SetOfList(AuditPaths(plan.audit));
    assert |intact + audit| == |intact| + |audit|;
    forall p | p in intact + audit ensures p in rows.Keys * ToSet(PathsOf(current)) {
      InOneList(plan, rows, current, p);
    }
    SubsetSize(intact + audit, rows.Keys * ToSet(PathsOf(current)));
  }

  /** What a class means: an unchanged path's row is current, an audited one's is too if the digests agree. */
  lemma ClassMeans(rows: Rows, p: Path, f: SourceFile)
    ensures Classify(RowAt(rows, p), Inspect(p, f)).Unchanged? ==> RowAt(rows, p) == Some(RowOf(f)) && IsOversized(f)
    ensures Classify(RowAt(rows, p), Inspect(p, f)).Audited? ==>
              && !IsOversized(f)
              && (Classify(RowAt(rows, p), Inspect(p, f)).contentHash == Digest(f.content)
                  <==> RowAt(rows, p) == Some(RowOf(f)))
  {
  }

  /// ---- what a plan says of each source ------------------------------------------------------------------

  /** The class of a listed source is the class of its path. */
  lemma ListedClass(rows: Rows, current: seq<Inspection>, s: Inspection, c: Class)
    requires Distinct(PathsOf(current)) && s in current
    ensures ClassifiedAs(rows, current, s.path, c) <==> Classify(RowAt(rows, s.path), s) == c
  {
    if Classify(RowAt(rows, s.path), s) == c {
      assert ClassifiedAs(rows, current, s.path, c);
    }
    if ClassifiedAs(rows, current, s.path, c) {
      var d := Classify(RowAt(rows, s.path), s);
      assert ClassifiedAs(rows, current, s.path, d);
      OneClass(rows, current, s.path, c, d);
    }
  }

  /**
   A listed source is audited with the digest of a row that agrees in length and modification time, intact if such
   a row and the source are both oversized, and refreshed in every other case. Only listed paths are planned for.
   */
  lemma PlannedExactly(plan: Plan, rows: Rows, current: seq<Inspection>, s: Inspection)
    requires Distinct(PathsOf(current)) && PlanFor(plan, rows, current) && s in current
    ensures
      var p, agrees := s.path, s.path in rows && rows[s.path].byteLength == s.size && rows[s.path].mtimeNanos == CanonicalMtimeNanos(s.mtime);
      && (forall h :: Audit(p, h) in plan.audit <==> agrees && s.indexable && rows[p].body == Digested(h.content))
      && (p in plan.intact <==> agrees && !s.indexable && rows[p].body == Skipped)
      && (p in plan.refresh <==> !agrees || rows[p].body == Undigested || (rows[p].body == Skipped <==> s.indexable))
  {
    ListedClass(rows, current, s, Unchanged);
    ListedClass(rows, current, s, Refreshed);
    forall h ensures Audit(s.path, h) in plan.audit <==> Classify(RowAt(rows, s.path), s) == Audited(h) {
      ListedClass(rows, current, s, Audited(h));
    }
  }

  lemma OnlyListedPlanned(plan: Plan, rows: Rows, current: seq<Inspection>, p: Path)
    requires PlanFor(plan, rows, current)
    requires p in plan.intact || p in plan.refresh || exists h :: Audit(p, h) in plan.audit
    ensures exists s :: s in current && s.path == p
  {
    if p in plan.intact {
      assert ClassifiedAs(rows, current, p, Unchanged);
    } else if p in plan.refresh {
      assert ClassifiedAs(rows, current, p, Refreshed);
    } else {
      var h :| Audit(p, h) in plan.audit;
      assert ClassifiedAs(rows, current, p, Audited(h));
    }
  }

  /** The inventory of a vault. */
  ghost predicate Inventories(current: seq<Inspection>, vault: Sources) {
    && (forall s :: s in current ==> s.path in vault && s == Inspect(s.path, vault[s.path]))
    && (forall p :: p in vault ==> Inspect(p, vault[p]) in current)
  }

  /** Over the index of the very vault that is inventoried there is nothing to refresh and nothing to remove. */
  lemma CurrentIndexNeedsNothing(plan: Plan, vault: Sources, current: seq<Inspection>)
    requires Distinct(PathsOf(current)) && Inventories(current, vault) && PlanFor(plan, IndexOf(vault), current)
    ensures plan.refresh == [] && plan.remove == []
    ensures forall p :: p in plan.intact <==> p in vault && IsOversized(vault[p])
    ensures forall p, h :: Audit(p, h) in plan.audit <==> p in vault && !IsOversized(vault[p]) && h == Digest(vault[p].content)
  {
    NothingToRefresh(plan, vault, current);
    NothingToRemove(plan, vault, current);
    forall p ensures p in plan.intact <==> p in vault && IsOversized(vault[p]) {
      CurrentPathPlanned(plan, vault, current, p);
    }
    forall p, h ensures Audit(p, h) in plan.audit <==> p in vault && !IsOversized(vault[p]) && h == Digest(vault[p].content) {
      CurrentPathPlanned(plan, vault, current, p);
    }
  }

  lemma NothingToRefresh(plan: Plan, vault: Sources, current: seq<Inspection>)
    requires Distinct(PathsOf(current)) && Inventories(current, vault) && PlanFor(plan, IndexOf(vault), current)
    ensures plan.refresh == []
  {
    forall s | s in current ensures s.path !in plan.refresh {
      PlannedExactly(plan, IndexOf(vault), current, s);
    }
    if plan.refresh != [] {
      OnlyListedPlanned(plan, IndexOf(vault), current, plan.refresh[0]);
    }
  }

  lemma NothingToRemove(plan: Plan, vault: Sources, current: seq<Inspection>)
    requires Inventories(current, vault) && PlanFor(plan, IndexOf(vault), current)
    ensures plan.remove == []
  {
    forall p | p in vault ensures p in ToSet(PathsOf(current)) {
      var i :| 0 <= i < |current| && current[i] == Inspect(p, vault[p]);
      assert PathsOf(current)[i] == p;
    }
    NotEmptyList(plan.remove);
  }

  lemma NotEmptyList<T>(s: seq<T>)
    ensures s != [] ==> ToSet(s) != {}
  {
    if s != [] {
      assert s[0] in ToSet(s);
    }
  }

  lemma CurrentPathPlanned(plan: Plan, vault: Sources, current: seq<Inspection>, p: Path)
    requires Distinct(PathsOf(current)) && Inventories(current, vault) && PlanFor(plan, IndexOf(vault), current)
    ensures p in plan.intact <==> p in vault && IsOversized(vault[p])
    ensures forall h :: Audit(p, h) in plan.audit <==> p in vault && !IsOversized(vault[p]) && h == Digest(vault[p].content)
  {
    if p in vault {
      PlannedExactly(plan, IndexOf(vault), current, Inspect(p, vault[p]));
    } else if p in plan.intact || exists h :: Audit(p, h) in plan.audit {
      OnlyListedPlanned(plan, IndexOf(vault), current, p);
    }
  }

  /** Modification times within range are told apart, and later ones never get an earlier canonical time. */
  lemma CanonicalTimes(a: int, b: int)
    requires a < b
    ensures CanonicalMtimeNanos(a) <= CanonicalMtimeNanos(b)
    ensures 0 <= a && b * 1_000_000 <= MAX_CANONICAL_MTIME_NANOS ==> CanonicalMtimeNanos(a) == 1_000_000 * a < CanonicalMtimeNanos(b)
  {
  }
}
