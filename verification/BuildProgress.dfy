/**
 The progress of an initial build: which snapshot entries an acknowledged batch represents, and the cursor
 a checkpoint of the build carries.
 */
module BuildProgress {
  import opened Vault

  const MAX_PATH_UNITS := 4_096

  const NUL: CodeUnit := 0
  const DOT: CodeUnit := 46
  const SLASH: CodeUnit := 47
  const BACKSLASH: CodeUnit := 92

  datatype Cursor = Cursor(
    snapshotSourceCount: nat,
    acknowledgedAddBatches: nat,
    acknowledgedPrefixSources: nat,
    lastAcknowledgedPath: Option<Path>)

  /** The components of a path between its slashes. */
  function Components(units: seq<CodeUnit>): (cs: seq<seq<CodeUnit>>)
    ensures cs != []
  {
    if units == [] then [[]]
    else
      var rest := Components(units[1..]);
      if units[0] == SLASH then [[]] + rest else [[units[0]] + rest[0]] + rest[1..]
  }

  /** The stretch from `i` to `j` is what lies between two slashes, or between one and an end. */
  predicate IsComponent(units: seq<CodeUnit>, i: nat, j: nat) {
    && i <= j <= |units|
    && (i == 0 || units[i - 1] == SLASH) && (j == |units| || units[j] == SLASH)
    && SLASH !in units[i..j]
  }

  /** `c` is a component that begins at position `from` or later. */
  ghost predicate HasComponent(units: seq<CodeUnit>, from: nat, c: seq<CodeUnit>) {
    exists i: nat, j: nat :: from <= i && IsComponent(units, i, j) && units[i..j] == c
  }

  /** The first component ends where the first slash is, or with the text. */
  lemma {:induction false} FirstComponent(units: seq<CodeUnit>)
    ensures var n := |Components(units)[0]|; IsComponent(units, 0, n) && units[0..n] == Components(units)[0]
  {
    if units != [] && units[0] != SLASH {
      FirstComponent(units[1..]);
      var n := |Components(units[1..])[0]|;
      assert units[0..n + 1] == [units[0]] + units[1..][0..n];
    }
  }

  /** Only one component begins at a position. */
  lemma OneComponent(units: seq<CodeUnit>, i: nat, j: nat, k: nat)
    requires IsComponent(units, i, j) && IsComponent(units, i, k)
    ensures j == k
  {
    if j < k { NoSlashWithin(units, i, k, j); }
    if k < j { NoSlashWithin(units, i, j, k); }
  }

  lemma NoSlashWithin(units: seq<CodeUnit>, i: nat, j: nat, k: nat)
    requires i <= k < j <= |units| && SLASH !in units[i..j]
    ensures units[k] != SLASH
  {
    assert units[i..j][k - i] == units[k];
  }

  lemma TailSlice<T>(s: seq<T>, i: nat, j: nat)
    requires 1 <= i <= j <= |s|
    ensures s[i..j] == s[1..][i - 1..j - 1]
  {
    var a, b := s[i..j], s[1..][i - 1..j - 1];
    assert |a| == |b| && forall k :: 0 <= k < |a| ==> a[k] == b[k];
    assert a == b;
  }

  /** Components that begin after the first unit are those of what follows it. */
  lemma ShiftComponent(units: seq<CodeUnit>, c: seq<CodeUnit>)
    requires units != []
    ensures HasComponent(units, 1, c) <==> HasComponent(units[1..], if units[0] == SLASH then 0 else 1, c)
  {
    var rest, from := units[1..], if units[0] == SLASH then 0 else 1;
    if i: nat, j: nat :| 1 <= i && IsComponent(units, i, j) && units[i..j] == c {
      var k, l := i - 1, j - 1;
      TailSlice(units, i, j);
      assert i > 1 ==> rest[k - 1] == units[i - 1];
      assert IsComponent(rest, k, l) && from <= k;
    }
    if i: nat, j: nat :| from <= i && IsComponent(rest, i, j) && rest[i..j] == c {
      var k, l := i + 1, j + 1;
      TailSlice(units, k, l);
      assert i > 0 ==> units[k - 1] == rest[i - 1];
      assert IsComponent(units, k, l);
    }
  }

  lemma {:induction false} LaterComponents(units: seq<CodeUnit>, c: seq<CodeUnit>)
    ensures c in Components(units)[1..] <==> HasComponent(units, 1, c)
  {
    if units != [] {
      LaterComponents(units[1..], c);
      ShiftComponent(units, c);
      AllComponents(units[1..], c);
    }
  }

  lemma AllComponents(units: seq<CodeUnit>, c: seq<CodeUnit>)
    requires c in Components(units)[1..] <==> HasComponent(units, 1, c)
    ensures c in Components(units) <==> HasComponent(units, 0, c)
  {
    FirstComponent(units);
    var all := Components(units);
    assert all == [all[0]] + all[1..];
    if HasComponent(units, 0, c) && !HasComponent(units, 1, c) {
      var i: nat, j: nat :| IsComponent(units, i, j) && units[i..j] == c;
      OneComponent(units, 0, j, |all[0]|);
    }
  }

  /** Splitting at the slashes yields exactly the stretches between them. */
  lemma ComponentsExactly(units: seq<CodeUnit>, c: seq<CodeUnit>)
    ensures c in Components(units) <==> HasComponent(units, 0, c)
  {
    LaterComponents(units, c);
    AllComponents(units, c);
  }

  predicate IsNormalizedVaultFilePath(p: Path) {
    && 0 < |p.units| <= MAX_PATH_UNITS
    && p.units[0] != SLASH && BACKSLASH !in p.units && NUL !in p.units
    && forall c :: c in Components(p.units) ==> c != [] && c != [DOT] && c != [DOT, DOT]
  }

  /** isInitialBuildCheckpointCursor: what the checkpoint store and the Worker accept. */
  predicate IsCheckpointCursor(c: Cursor) {
    && c.snapshotSourceCount <= MAX_RECONCILIATION_SOURCES
    && c.acknowledgedAddBatches <= c.snapshotSourceCount
    && c.acknowledgedPrefixSources <= c.snapshotSourceCount
    && if c.acknowledgedPrefixSources == 0 then c.lastAcknowledgedPath.None?
       else c.acknowledgedAddBatches > 0 && c.lastAcknowledgedPath.Some?
            && IsNormalizedVaultFilePath(c.lastAcknowledgedPath.value)
  }

  function CountTrue(b: seq<bool>): (n: nat)
    ensures n <= |b|
  {
    if b == [] then 0 else CountTrue(b[..|b| - 1]) + if b[|b| - 1] then 1 else 0
  }

  lemma {:induction false} CountTrueGrows(b: seq<bool>, c: seq<bool>)
    requires |b| == |c| && forall i :: 0 <= i < |b| && b[i] ==> c[i]
    ensures CountTrue(b) <= CountTrue(c)
    ensures (exists i :: 0 <= i < |b| && !b[i] && c[i]) ==> CountTrue(b) < CountTrue(c)
  {
    if b != [] {
      CountTrueGrows(b[..|b| - 1], c[..|c| - 1]);
      if i :| 0 <= i < |b| && !b[i] && c[i] {
        if i < |b| - 1 {
          assert !b[..|b| - 1][i] && c[..|c| - 1][i];
        }
      }
    }
  }

  lemma {:induction false} CountTrueOfPrefix(b: seq<bool>, k: nat)
    requires k <= |b| && forall i :: 0 <= i < |b| ==> (b[i] <==> i < k)
    ensures CountTrue(b) == k
  {
    if b != [] {
      CountTrueOfPrefix(b[..|b| - 1], if k < |b| then k else k - 1);
    }
  }

  /** `k` is the length of the longest run of represented entries from the start. */
  predicate LongestPrefix(represented: seq<bool>, k: nat) {
    && k <= |represented|
    && (forall i :: 0 <= i < k ==> represented[i])
    && (k < |represented| ==> !represented[k])
  }

  /** findIndex of the first path after `last`; a null path finds none. */
  function PrefixLength(paths: seq<Path>, last: Option<Path>): (k: nat)
    ensures k <= |paths|
    ensures last.Some? ==> forall i :: 0 <= i < k ==> !Less(last.value, paths[i])
    ensures last.Some? && k < |paths| ==> Less(last.value, paths[k])
    ensures last.None? ==> k == |paths|
  {
    if last.None? || paths == [] then |paths|
    else if Less(last.value, paths[0]) then 0
    else 1 + PrefixLength(paths[1..], last)
  }

  /** In a sorted snapshot that is exactly the number of paths up to `last`. */
  lemma PrefixIsUpToCursor(paths: seq<Path>, last: Path, i: nat)
    requires Ascending(paths) && i < |paths|
    ensures i < PrefixLength(paths, Some(last)) <==> AtMost(paths[i], last)
  {
    var k := PrefixLength(paths, Some(last));
    PathOrder(paths[i], last, last);
    if k <= i {
      PathOrder(last, paths[k], paths[i]);
      PathOrder(last, paths[i], last);
    }
  }

  class InitialBuildProgress {
    const paths: seq<Path>
    var represented: seq<bool>
    var acknowledgedAddBatches: nat
    var acknowledgedPrefixSources: nat
    var lastAcknowledgedPath: Option<Path>

    /** Batches never outnumber represented entries, and the recorded prefix is the longest one. */
    ghost predicate Valid()
      reads this
    {
      && |represented| == |paths|
      && acknowledgedAddBatches <= CountTrue(represented)
      && (CountTrue(represented) > 0 ==> acknowledgedAddBatches > 0)
      && LongestPrefix(represented, acknowledgedPrefixSources)
      && lastAcknowledgedPath
         == (if acknowledgedPrefixSources > 0 then Some(paths[acknowledgedPrefixSources - 1]) else None)
    }

    /** buildGeneration starts with nothing represented. */
    constructor (paths: seq<Path>)
      ensures Valid() && this.paths == paths
      ensures represented == seq(|paths|, i => false) && acknowledgedAddBatches == 0
    {
      this.paths := paths;
      represented := seq(|paths|, i => false);
      acknowledgedAddBatches, acknowledgedPrefixSources, lastAcknowledgedPath := 0, 0, None;
      new;
      CountTrueOfPrefix(represented, 0);
    }

    /** resumeInitialBuildFromCheckpoint rebases a saved cursor to the prefix of the fresh snapshot. */
    constructor Resumed(paths: seq<Path>, saved: Cursor)
      requires IsCheckpointCursor(saved)
      ensures this.paths == paths
      ensures represented == seq(|paths|, i => i < PrefixLength(paths, saved.lastAcknowledgedPath))
      ensures acknowledgedAddBatches <= saved.acknowledgedAddBatches
      ensures acknowledgedPrefixSources == PrefixLength(paths, saved.lastAcknowledgedPath)
      ensures acknowledgedAddBatches == saved.acknowledgedAddBatches || acknowledgedAddBatches == acknowledgedPrefixSources
      ensures acknowledgedAddBatches <= acknowledgedPrefixSources
      ensures acknowledgedAddBatches < saved.acknowledgedAddBatches ==> acknowledgedAddBatches == acknowledgedPrefixSources
      ensures saved.lastAcknowledgedPath.Some? ==> Valid()
    {
      var representedPrefix := PrefixLength(paths, saved.lastAcknowledgedPath);
      this.paths := paths;
      represented := seq(|paths|, i => i < representedPrefix);
      acknowledgedAddBatches :=
        if saved.acknowledgedAddBatches < representedPrefix then saved.acknowledgedAddBatches else representedPrefix;
      acknowledgedPrefixSources := representedPrefix;
      lastAcknowledgedPath := if representedPrefix > 0 then Some(paths[representedPrefix - 1]) else None;
      new;
      CountTrueOfPrefix(represented, representedPrefix);
    }

    function ExportedCursor(): Cursor
      reads this
    {
      Cursor(|paths|, acknowledgedAddBatches, acknowledgedPrefixSources, lastAcknowledgedPath)
    }

    method AdvanceAcknowledgedPrefix()
      requires |represented| == |paths|
      requires acknowledgedPrefixSources <= |paths|
      requires forall i :: 0 <= i < acknowledgedPrefixSources ==> represented[i]
      modifies this`acknowledgedPrefixSources, this`lastAcknowledgedPath
      ensures LongestPrefix(represented, acknowledgedPrefixSources)
      ensures acknowledgedPrefixSources >= old(acknowledgedPrefixSources)
      ensures lastAcknowledgedPath
           == (if acknowledgedPrefixSources > 0 then Some(paths[acknowledgedPrefixSources - 1]) else None)
    {
      while acknowledgedPrefixSources < |represented| && represented[acknowledgedPrefixSources]
        invariant acknowledgedPrefixSources <= |represented|
        invariant acknowledgedPrefixSources >= old(acknowledgedPrefixSources)
        invariant forall i :: 0 <= i < acknowledgedPrefixSources ==> represented[i]
      {
        acknowledgedPrefixSources := acknowledgedPrefixSources + 1;
      }
      lastAcknowledgedPath := if acknowledgedPrefixSources > 0 then Some(paths[acknowledgedPrefixSources - 1]) else None;
    }

    /** The turn in which the Worker acknowledges a batch holding these entries. */
    method Acknowledge(ordinals: seq<nat>)
      requires Valid() && forall o :: o in ordinals ==> o < |paths|
      requires exists o :: o in ordinals && !represented[o]
      modifies this
      ensures Valid()
      ensures acknowledgedAddBatches == old(acknowledgedAddBatches) + 1
      ensures forall i :: 0 <= i < |paths| ==> (represented[i] <==> (old(represented)[i] || i in ordinals))
    {
      ghost var before := represented;
      for k := 0 to |ordinals|
        modifies this`represented
        invariant |represented| == |paths|
        invariant forall i :: 0 <= i < |paths| ==> (represented[i] <==> (before[i] || i in ordinals[..k]))
      {
        assert ordinals[k] in ordinals;
        represented := represented[ordinals[k] := true];
      }
      assert ordinals[..|ordinals|] == ordinals;
      CountTrueGrows(before, represented);
      acknowledgedAddBatches := acknowledgedAddBatches + 1;
      AdvanceAcknowledgedPrefix();
    }
  }

  /** Every cursor exported from a valid progress over at most 200,000 normalized paths is accepted. */
  lemma ExportedCursorAccepted(p: InitialBuildProgress)
    requires p.Valid() && |p.paths| <= MAX_RECONCILIATION_SOURCES
    requires forall q :: q in p.paths ==> IsNormalizedVaultFilePath(q)
    ensures IsCheckpointCursor(p.ExportedCursor())
  {
    var k := p.acknowledgedPrefixSources;
    if k > 0 {
      CountTrueGrows(seq(|p.paths|, i => i < k), p.represented);
      CountTrueOfPrefix(seq(|p.paths|, i => i < k), k);
    }
  }

  /** What the fields of a build's progress over these paths may be. */
  ghost predicate Progress(paths: seq<Path>, represented: seq<bool>, batches: nat, prefix: nat, last: Option<Path>) {
    && |represented| == |paths| && batches <= CountTrue(represented) && (CountTrue(represented) > 0 ==> batches > 0)
    && LongestPrefix(represented, prefix)
    && last == (if prefix > 0 then Some(paths[prefix - 1]) else None)
  }

  /** These are exactly the values that the fields of a build under way may have. */
  lemma ValidIsProgress(p: InitialBuildProgress)
    ensures p.Valid() <==>
            Progress(p.paths, p.represented, p.acknowledgedAddBatches, p.acknowledgedPrefixSources, p.lastAcknowledgedPath)
  {
  }

  /** Some build over normalized paths, no more than may be listed, has this cursor. */
  ghost predicate Exportable(c: Cursor) {
    exists paths, represented :: ExportedBy(c, paths, represented)
  }

  ghost predicate ExportedBy(c: Cursor, paths: seq<Path>, represented: seq<bool>) {
    && |paths| == c.snapshotSourceCount <= MAX_RECONCILIATION_SOURCES
    && (forall q :: q in paths ==> IsNormalizedVaultFilePath(q))
    && Progress(paths, represented, c.acknowledgedAddBatches, c.acknowledgedPrefixSources, c.lastAcknowledgedPath)
  }

  lemma {:induction false} CountAllBut(b: seq<bool>, k: nat)
    requires k < |b| && forall i :: 0 <= i < |b| ==> (b[i] <==> i != k)
    ensures CountTrue(b) == |b| - 1
  {
    var n := |b| - 1;
    if k < n {
      CountAllBut(b[..n], k);
    } else {
      CountTrueOfPrefix(b[..n], n);
    }
  }

  lemma {:induction false} CountBelow(b: seq<bool>, k: nat)
    requires k < |b| && !b[k]
    ensures CountTrue(b) <= |b| - 1
  {
    if k < |b| - 1 {
      CountBelow(b[..|b| - 1], k);
    }
  }

  /**
   The check accepts what builds export and no more, but for one kind of cursor: as many batches as sources although
   the first source after the prefix is still missing.
   */
  lemma AcceptedIffExportable(c: Cursor)
    ensures Exportable(c) <==>
            IsCheckpointCursor(c) && (c.acknowledgedAddBatches < c.snapshotSourceCount || c.acknowledgedPrefixSources == c.snapshotSourceCount)
  {
    if paths, represented :| ExportedBy(c, paths, represented) {
      ExportedIsAccepted(c, paths, represented);
    }
    if IsCheckpointCursor(c) && (c.acknowledgedAddBatches < c.snapshotSourceCount || c.acknowledgedPrefixSources == c.snapshotSourceCount) {
      var paths, represented := BuildFor(c);
      assert ExportedBy(c, paths, represented);
    }
  }

  lemma ExportedIsAccepted(c: Cursor, paths: seq<Path>, represented: seq<bool>)
    requires ExportedBy(c, paths, represented)
    ensures IsCheckpointCursor(c) && (c.acknowledgedAddBatches < c.snapshotSourceCount || c.acknowledgedPrefixSources == c.snapshotSourceCount)
  {
    var k := c.acknowledgedPrefixSources;
    if k > 0 {
      CountTrueGrows(seq(|paths|, i => i < k), represented);
      CountTrueOfPrefix(seq(|paths|, i => i < k), k);
    }
    if k < |paths| {
      CountBelow(represented, k);
    }
  }

  /** The build of an accepted cursor: nothing acknowledged, or all but the first source after the prefix. */
  lemma BuildFor(c: Cursor) returns (paths: seq<Path>, represented: seq<bool>)
    requires IsCheckpointCursor(c)
    requires c.acknowledgedAddBatches < c.snapshotSourceCount || c.acknowledgedPrefixSources == c.snapshotSourceCount
    ensures ExportedBy(c, paths, represented)
  {
    var n, k := c.snapshotSourceCount, c.acknowledgedPrefixSources;
    var p := if c.lastAcknowledgedPath.Some? then c.lastAcknowledgedPath.value else Path([97]);
    OneLetterPath();
    paths := seq(n, i => p);
    represented := seq(n, i => c.acknowledgedAddBatches > 0 && i != k);
    if c.acknowledgedAddBatches == 0 {
      CountTrueOfPrefix(represented, 0);
    } else if k < n {
      CountAllBut(represented, k);
    } else {
      CountTrueOfPrefix(represented, n);
    }
  }

  lemma OneLetterPath()
    ensures IsNormalizedVaultFilePath(Path([97]))
  {
    var units: seq<CodeUnit> := [97];
    assert units[1..] == [];
    var rest := Components(units[1..]);
    assert rest == [[]] && rest[1..] == [] && [units[0]] + rest[0] == units;
    assert Components(units) == [units] + rest[1..];
  }
}
