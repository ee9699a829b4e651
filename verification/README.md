# Verified models of the Obsidian client's stateful core

This project models the parts of the Kwiry Obsidian client that keep state, in Dafny, and proves what they
promise. Every module follows one file of the client. Code that mutates fields is a class whose methods are
proved against a specification function or a state-machine step; the properties are then lemmas about that
specification, over every input or every run.

- **Index controller.** `PendingQueues`, `QueueLaws`, `Coverage`, `InPluginIndexController`: the three pending queues,
  what each operation does to them entry by entry, and the condition under which one loses no path.
  `IndexController`, `Coalescing`, `FailedDrains`, `ControllerRuns`, `ControllerProgress`, `LostPaths`: the controller
  as a machine whose steps are the stretches between awaits, lossless coalescing, what a failed drain keeps, rescan
  debt, coming to rest, and runs that lose paths. `BuildProgress`, `SnapshotBatching`: bounded batching and the
  checkpoint cursor. `Reconciliation`, `CheckpointResume`: the planner, its completeness check, and the resumed build.
- **Cache store.** `CacheDisk`, `PublishProtocol`, `PutSequence`, `StoreTrace`, `LocalCacheStore`: directories with
  a volatile and a durable part, the publish protocol of both namespaces, pruning, quarantine and discard, and the
  disks of all windows in a row.
- **Backend manager and search session.** `BackendLifecycle`, `BackendManager`, `SearchScheduling`, `SearchSession`:
  asynchronous protocols with one step for each turn between awaits. `BackendOutcomes`, `SearchOutcomes`: how every
  activation and every search ends, told from the calls, answers and timers of a run.
- **Block file, excerpt, identifier, diagnostics.** `BlockFile` (on heap arrays), `ExcerptSearch`, `Excerpt`,
  `Base32`, `ExactIdentifier`, `DiagnosticRing`, `BoundedSummary`.
- `Vault` and `Arithmetic` hold the shared values and division facts.

## How to read the main results

**Coalescing.** `Coalescing.EventCoverage` is exact: with every difference between index and vault pending, one
more event keeps it so if and only if it ends in a rescan request or a guard on the queues holds. The guard is not
always met, and `LostPaths` gives three short event sequences that lose a path.
`ControllerRuns.LosslessUnderHypothesis` restricts events instead: no endpoint of a pending rename is created again
or renamed onto, and no rename lands on a path that is indexed, taken but not yet applied, or in the batch about to
be stored. A vault change and its event are one turn. A run may start with a fresh build, with a build resumed from
a checkpoint, or with a generation restored from the cache; the index that a resume or a restore brings may differ
from the vault only at paths that are then read or compared, which for a resume is what
`CheckpointResume.ReconciledExceptSuffix` proves of the reconciled prefix.

**Removals.** Deleting the destination of a pending rename drops that rename, or asks for a rescan if another rename
lands on its key (`QueueLaws.RemovalOutcome`). Whenever dropping would lose a path of some vault, it asks; but it also
asks when nothing would be lost: `QueueLaws.RescansWithoutNeed` has three renames and a removal that does. Dropping is
lossless if and only if no later rename fills the key again, or another queue names it
(`QueueLaws.DropLosesNothingIff`).

**Failed drains.** A failed drain blocks the controller until a rebuild or a rescan, so the two results above need no
hypothesis on failures: they speak of the index while it is being drained. What the blocked controller keeps is
`FailedDrains.FailCoverage`, again exact: putting the change back forgets a path if and only if it does not ask for
a rescan and the guard fails. For a removal the guard says that the path has not come back; for an upsert, that no
pending rename takes the path away or the path is gone; for a rename, the conditions of `FailedDrains.RequeuedRename`
at its destination, its first source and its own source. It always holds when no event has left a path of the change
pending meanwhile (`FailedDrains.UnnamedFailureFollowed`). `ControllerRuns.GuardedRunFollowed` carries both guards
through every run, blocked states included.

**Coming to rest.** The work loop does not look at `rescanRequested`, so that an owed rescan is carried out needs an
invariant (`ControllerProgress.ScheduledStep`). Under it an unblocked controller that is left alone takes a bounded
number of steps and is at rest where it can take no more; if the events before met the hypothesis, its index then is
the vault (`ControllerProgress.ComesToRestCurrent`).

**Rebuild requests.** `ControllerRuns.SwallowedRebuildIsReachable`: a folder event during a replacement build that
then fails leaves the controller blocked with a rebuild recorded, and `requestRebuild` answers that it scheduled
one without doing so. A resumed build commits even if a rescan was asked for after its snapshot; the debt stays
recorded.

**Resuming.** A checkpoint cursor always names a path when the controller writes it. The cursor check also accepts
one without a path, and the rebase then takes the whole snapshot as represented
(`CheckpointResume.NullCursorCommits`). A caller can therefore check the condition beforehand: a reconciled prefix and
its replayed suffix always make the index if and only if the cursor names a path
(`CheckpointResume.CursorCompletesIff`); `ResumeInitialBuild` is the run for such a cursor.

The cursor check is also wider than what builds export: it lets through a cursor that counts as many batches as sources
while sources are still missing, and nothing else that no build exports (`BuildProgress.AcceptedIffExportable`).

**Store.** Writer-lock sections exclude each other; that is assumed, since breaking a stale lock does not check
its owner. Generation ids of complete puts are not reused. Whether a directory sync takes effect is an input of a
put: on win32 none does, and the put goes on without it; elsewhere a put whose image directory cannot be synced stops
before its pointer. `PutSequence.PutCrashSafeIff` says for each call of a put, pruning included, whether a crash
there loads the old record or the new one. Up to the pointer rename it always does. From there on, a complete put
under a new image name does exactly when the image directory was synced (`PutSequence.NewNameCrashSafeIff`): without
that sync, as on win32, a crash can leave a pointer whose image is gone. Once its image is durable, a complete put
also survives the loss of its pointer rename. A checkpoint put keeps only its own image, so while its pointer's
directory is not synced it is unsafe from the call that unlinks the image of the checkpoint it replaces
(`PutSequence.CheckpointPutCrashSafeIff`), and a finished one survives exactly when none preceded it
(`PutSequence.CheckpointPutRecoverableIff`).

Unlike the checkpoint namespace, a load of complete generations removes a pointer that does not parse without taking
the lock and without looking again. Over any trace of calls of all windows, it takes a valid pointer exactly when a
put renamed one into place after the load looked and nothing has removed that one since
(`StoreTrace.UnlockedRemovalTakesIff`), so it is harmless as long as no window holds the writer lock in between.

**Backend manager.** A disposal settles when its promise resolves or rejects. The branches that dispose of a stray
previous or late backend never run (`BackendLifecycle.NoStrayBackends`). An activation resolves if and only if its
initialize succeeded before any later activate or dispose was called (`BackendOutcomes.ResolvedIff`).

**Search session.** `SearchOutcomes.AnswerOutcome` says exactly when a call gets results, staleness or an error. Under
the invariant the mode-unavailable branch of `search` is never taken.

**Excerpt.** On ASCII text the anchor scan finds a term exactly when one of its chunks holds one
(`ExcerptSearch.FindAnchor`). A term length is therefore found wherever the scanned part holds it if and only if it
is at most 257 units, one more than the overlap (`ExcerptSearch.AlwaysFoundIff`). A query has at most 4,096 units
(`worker/protocol.ts:12`), so of the texts in `ExcerptSearch.MissedTerm`, whose term no chunk holds, those with a term
of 258 to 4,096 units can occur. A found term starts at most 80 units into the window, so only the cap of 256
matches can keep it from being highlighted: with no more matches than that a highlight is present exactly when a
chunk holds a term (`Excerpt.HydrateExcerpt`), and `Excerpt.LostHighlight` has a text where the matches of one term use
up the cap past the 512th unit. Terms that are not blank are needed for the exact highlight result, because a blank
section yields no excerpt.

## Model

| member | source | states |
|---|---|---|
| `Vault.PathOrder` | clients/obsidian/src/backends/in-plugin-index-controller.ts:3201-3203 | comparePaths is a strict total order on UTF-16 strings |
| `Vault.LessExactly` | clients/obsidian/src/backends/in-plugin-index-controller.ts:3201-3203 | one path precedes another iff at the first unit that differs it ends or has the smaller unit |
| `Vault.LeastPath` | clients/obsidian/src/backends/in-plugin-index-controller.ts:2206-2211 | the first path in comparePaths order, as the drain picks it |
| `InPluginIndexController.InPluginIndexController.HandleEvent` | clients/obsidian/src/backends/in-plugin-index-controller.ts:645-674 | one vault event: the new queues, sequences and flags, bound check included; nothing once disposed or stopping |
| `InPluginIndexController.InPluginIndexController.Enqueue` | clients/obsidian/src/backends/in-plugin-index-controller.ts:652-669 | the queue operation each kind of event performs |
| `InPluginIndexController.InPluginIndexController.QueueUpsert` | clients/obsidian/src/backends/in-plugin-index-controller.ts:676-682 | an upsert cancels a removal and yields to a rename that lands on the path |
| `InPluginIndexController.InPluginIndexController.QueueRemoval` | clients/obsidian/src/backends/in-plugin-index-controller.ts:684-702 | the specification that RemovalOutcome pins: a removal of a rename destination drops the rename and removes its source, or asks for a rescan |
| `InPluginIndexController.InPluginIndexController.QueueRename` | clients/obsidian/src/backends/in-plugin-index-controller.ts:704-721 | chained renames collapse to their first source; cycles and reused paths ask for a rescan |
| `InPluginIndexController.InPluginIndexController.HasRenameCycle` | clients/obsidian/src/backends/in-plugin-index-controller.ts:723-734 | returns true iff some path comes back to itself through the pending renames |
| `InPluginIndexController.InPluginIndexController.WalkRepeats` | clients/obsidian/src/backends/in-plugin-index-controller.ts:725-732 | a repeat means a cycle; a walk that ends means its start is on none |
| `InPluginIndexController.KeysOffCycles` | clients/obsidian/src/backends/in-plugin-index-controller.ts:723-734 | testing the keys is enough: a cycle anywhere contains one |
| `InPluginIndexController.InPluginIndexController.RequestAuthoritativeRescan` | clients/obsidian/src/backends/in-plugin-index-controller.ts:736-746 | drops the path queues, records the request at the latest event and unblocks |
| `InPluginIndexController.InPluginIndexController.EnforcePendingBound` | clients/obsidian/src/backends/in-plugin-index-controller.ts:748-756 | asks for a rescan iff more distinct paths are pending than the limit |
| `InPluginIndexController.InPluginIndexController.ConsumeSnapshotCut` | clients/obsidian/src/backends/in-plugin-index-controller.ts:1809-1819 | a snapshot empties the path queues, keeps every flag and returns the event cut |
| `InPluginIndexController.InPluginIndexController.AcknowledgeCommittedSnapshot` | clients/obsidian/src/backends/in-plugin-index-controller.ts:1769-1775 | a commit repays a rescan iff its cut is at or after the request |
| `InPluginIndexController.InPluginIndexController.TakePendingChanges` | clients/obsidian/src/backends/in-plugin-index-controller.ts:2187-2233 | takes the oldest rename, else the least pending path, and removes exactly that |
| `InPluginIndexController.InPluginIndexController.ReplayPending` | clients/obsidian/src/backends/in-plugin-index-controller.ts:2122-2185 | without events the drain ends, the queues are empty, and each path holds what its last pending intent says |
| `InPluginIndexController.TakeOutcome` | clients/obsidian/src/backends/in-plugin-index-controller.ts:2187-2233 | the drain takes the oldest rename whole, or else exactly what is queued for the first pending path |
| `QueueLaws.UpsertOutcome` | clients/obsidian/src/backends/in-plugin-index-controller.ts:676-682 | an upsert is queued unless a pending rename lands on its path, always cancels the removal, and never gives up |
| `QueueLaws.RemovalOutcome` | clients/obsidian/src/backends/in-plugin-index-controller.ts:684-702 | where entry i is the first rename onto the path: a rescan iff another entry renames onto the key of i; otherwise the flags stay, entry i is gone, and path and key are both in removals |
| `QueueLaws.DropLosesNothingIff` | clients/obsidian/src/backends/in-plugin-index-controller.ts:684-702 | dropping the rename loses no path of any vault iff no later rename refills its key unnamed by the other queues; whenever it would lose one, the removal gives up |
| `QueueLaws.RescansWithoutNeed` | clients/obsidian/src/backends/in-plugin-index-controller.ts:690-694 | the converse is false: rename k to x, a to b, x to a, then delete b: a rescan although dropping loses nothing |
| `QueueLaws.RenameOutcomeExact` | clients/obsidian/src/backends/in-plugin-index-controller.ts:704-721 | a rename gives up iff its source is a key already or redirecting its key closes a circle of renames; else it redirects that key and unqueues the paths involved |
| `QueueLaws.CyclicIff` | clients/obsidian/src/backends/in-plugin-index-controller.ts:723-734 | the walk finds a cycle iff some list of pending renames leads from a path back to it |
| `QueueLaws.BoundOutcome` | clients/obsidian/src/backends/in-plugin-index-controller.ts:748-756 | each path that a queue or a rename names counts once; a rescan iff there are more than the limit |
| `QueueLaws.StampOutcome` | clients/obsidian/src/backends/in-plugin-index-controller.ts:645-651 | an event takes the next number, marks exactly the paths it names, and touches nothing else |
| `QueueLaws.EventOutcome` | clients/obsidian/src/backends/in-plugin-index-controller.ts:645-674 | an event is numbered, then queued by its kind, and only then are pending paths counted |
| `InPluginIndexController.TakeRenameKeepsFinal` | clients/obsidian/src/backends/in-plugin-index-controller.ts:2193-2203 | draining one rename does not change where any path will end up |
| `InPluginIndexController.TakePathKeepsFinal` | clients/obsidian/src/backends/in-plugin-index-controller.ts:2205-2232 | nor does draining one path |
| `InPluginIndexController.CoveredIffDrainsToVault` | clients/obsidian/src/backends/in-plugin-index-controller.ts:2122-2233 | a full drain yields the vault iff every difference between index and vault is pending |
| `PendingQueues.CycleNeverStops` | clients/obsidian/src/backends/in-plugin-index-controller.ts:723-734 | a path on a rename cycle is walked forever, so the walk must remember what it saw |
| `PendingQueues.SelfRenameIsCycle` | clients/obsidian/src/backends/in-plugin-index-controller.ts:723-734 | a rename onto its own source counts as a cycle |
| `Coverage.WellFormedEnqueue` | clients/obsidian/src/backends/in-plugin-index-controller.ts:676-721 | every queue operation keeps the sources of renames distinct and no rename onto its own source |
| `Coverage.AcyclicEnqueue` | clients/obsidian/src/backends/in-plugin-index-controller.ts:704-734 | every queue operation keeps the pending renames free of cycles |
| `ControllerRuns.RunAcyclic` | clients/obsidian/src/backends/in-plugin-index-controller.ts:676-734 | in every run, failures included, the pending renames form no cycle |
| `Coverage.UpsertKeeps` | clients/obsidian/src/backends/in-plugin-index-controller.ts:676-682 | after an upsert a path is covered iff the stated guard holds |
| `Coverage.RemovalKeeps` | clients/obsidian/src/backends/in-plugin-index-controller.ts:684-702 | a removal loses no path |
| `Coverage.RenameKeeps` | clients/obsidian/src/backends/in-plugin-index-controller.ts:704-721 | after a rename a path is covered iff the guard on the chain holds |
| `Coverage.RenameOutcome` | clients/obsidian/src/backends/in-plugin-index-controller.ts:704-721 | what a rename does to the pending intent of every path |
| `Coverage.FateAfterRemoveAt` | clients/obsidian/src/backends/in-plugin-index-controller.ts:684-702 | dropping a rename changes the intent of its two endpoints only |
| `Coverage.FateOfTail` | clients/obsidian/src/backends/in-plugin-index-controller.ts:2193-2203 | taking the first rename leaves the intents the later ones give |
| `LostPaths.RecreatedSourceIsLost` | clients/obsidian/src/backends/in-plugin-index-controller.ts:704-721 | rename a to b, create a, rename b to c: the guard fails and the new a is lost |
| `LostPaths.IndexedIntermediateIsLost` | clients/obsidian/src/backends/in-plugin-index-controller.ts:704-721 | delete an indexed b, rename a to b, then b to c: the old b stays indexed |
| `LostPaths.ReusedSourceIsLost` | clients/obsidian/src/backends/in-plugin-index-controller.ts:704-721 | rename x to m, k to y, m to k: the drain removes the new k |
| `LostPaths.FailedRemovalForgetsCreation` | clients/obsidian/src/backends/in-plugin-index-controller.ts:2174-2183 | the shortest instance: putting a failed removal back drops an upsert queued meanwhile |
| `LostPaths.RebuildUnblocks` | clients/obsidian/src/backends/in-plugin-index-controller.ts:482-520 | requestRebuild unblocks a failed controller iff no rebuild is already recorded or under way |
| `Coalescing.ConsistentStep` | clients/obsidian/src/backends/in-plugin-index-controller.ts:645-829 | every step keeps the queues well formed and the flags consistent |
| `Coalescing.EventCoverage` | clients/obsidian/src/backends/in-plugin-index-controller.ts:645-756 | with everything covered, one more event keeps it so iff it ends in a rescan request or the guard of its queue operation holds, both read off the state before the event |
| `Coalescing.StillFollowed` | clients/obsidian/src/backends/in-plugin-index-controller.ts:645-756 | an event ends the tracking of an index iff its queue operation gives up or leaves more paths pending than the bound |
| `Coalescing.EventKeeps` | clients/obsidian/src/backends/in-plugin-index-controller.ts:645-721 | path by path: covered after the event iff the guard holds for that path |
| `Coalescing.TakeKeeps` | clients/obsidian/src/backends/in-plugin-index-controller.ts:2187-2233 | taking a change moves its paths from pending to in flight |
| `Coalescing.LandKeeps` | clients/obsidian/src/backends/in-plugin-index-controller.ts:2122-2185 | landing a change leaves every path covered by the new index |
| `Coalescing.SnapshotCovers` | clients/obsidian/src/backends/in-plugin-index-controller.ts:1777-1820 | a snapshot covers every path by itself |
| `Coalescing.StartupKeeps` | clients/obsidian/src/backends/in-plugin-index-controller.ts:831-1040 | every step of a restored generation or a resumed build that leaves a tracked index leaves each path covered |
| `Coalescing.ResumedSnapshotCovers` | clients/obsidian/src/backends/in-plugin-index-controller.ts:1144-1172 | the final snapshot of a resumed build covers every path, with only the suffix left to read |
| `Coalescing.RestoredCacheCovers` | clients/obsidian/src/backends/in-plugin-index-controller.ts:1317-1336 | so does the snapshot of a restored generation, with the paths in doubt left to check |
| `Coalescing.QuietStepCoverage` | clients/obsidian/src/backends/in-plugin-index-controller.ts:1612-1767 | no step other than an event loses a path of an index being drained, built, resumed or restored; a failure blocks the controller, of which FailCoverage speaks |
| `Coalescing.HypothesisIsSafe` | clients/obsidian/src/backends/in-plugin-index-controller.ts:676-721 | the hypothesis on events implies the exact guard |
| `Coalescing.RequeueEffect` | clients/obsidian/src/backends/in-plugin-index-controller.ts:2174-2183 | putting a change back keeps sequences and marks, and keeps the flags or ends in a rescan request |
| `FailedDrains.RequeuedUpsert` | clients/obsidian/src/backends/in-plugin-index-controller.ts:2174-2183 | putting an upsert back keeps its path covered iff the path is gone or no pending rename takes it away |
| `FailedDrains.RequeuedRemoval` | clients/obsidian/src/backends/in-plugin-index-controller.ts:2174-2183 | putting a removal back keeps its path covered iff the path has not come back |
| `FailedDrains.RequeuedRename` | clients/obsidian/src/backends/in-plugin-index-controller.ts:2174-2183 | putting a rename back: for its destination, its first source, its own source and every other path, the exact condition |
| `FailedDrains.RequeueRescansExactly` | clients/obsidian/src/backends/in-plugin-index-controller.ts:2174-2183 | putting a change back asks for a rescan iff its queue operation gives up |
| `FailedDrains.FailCoverage` | clients/obsidian/src/backends/in-plugin-index-controller.ts:2122-2185 | a failed drain leaves every path covered by the blocked controller iff putting the change back rescans or the guard on the paths it names holds |
| `FailedDrains.FailRestoreCoverage` | clients/obsidian/src/backends/in-plugin-index-controller.ts:1317-1520 | a failure while a restored generation is reconciled forgets nothing iff every path still in doubt or being applied is pending or already current |
| `FailedDrains.UnnamedFailureFollowed` | clients/obsidian/src/backends/in-plugin-index-controller.ts:2174-2183 | a failed drain forgets nothing unless an event left one of its paths pending meanwhile |
| `FailedDrains.WaitingEndsInRescan` | clients/obsidian/src/backends/in-plugin-index-controller.ts:482-520 | a controller blocked by a failed drain leaves that state only through a rescan request |
| `ControllerRuns.LosslessUnderHypothesis` | clients/obsidian/src/backends/in-plugin-index-controller.ts:645-829 | over every run of events, drains, fresh builds, resumed builds and restored generations, failures included: in an unblocked controller each difference between index and vault is pending or a rescan is owed; once quiet the index is the vault |
| `ControllerRuns.SafeRunCovered` | clients/obsidian/src/backends/in-plugin-index-controller.ts:676-721 | the same under the exact guard on events |
| `ControllerRuns.GuardedRunFollowed` | clients/obsidian/src/backends/in-plugin-index-controller.ts:676-721 | with the exact guard on failed drains as well, also while a failure blocks the controller |
| `ControllerRuns.HypothesisRun` | clients/obsidian/src/backends/in-plugin-index-controller.ts:704-721 | the hypothesis keeps pending renames untangled, so every event of the run is safe |
| `ControllerRuns.QuiescentIsCurrent` | clients/obsidian/src/backends/in-plugin-index-controller.ts:814-829 | nothing pending and everything covered means index equals vault |
| `ControllerRuns.RequestIsOwed` | clients/obsidian/src/backends/in-plugin-index-controller.ts:736-746 | a rescan asked for by an event is owed even during a commit |
| `ControllerRuns.DebtStep` | clients/obsidian/src/backends/in-plugin-index-controller.ts:1671-1775 | only a commit whose cut covers the request clears it |
| `ControllerRuns.RescanDebt` | clients/obsidian/src/backends/in-plugin-index-controller.ts:1671-1775 | an owed rescan stays recorded through aborts and failures until a later snapshot commits |
| `ControllerRuns.SwallowedRebuildIsReachable` | clients/obsidian/src/backends/in-plugin-index-controller.ts:490-493 | a run after which requestRebuild reports a schedule and changes nothing |
| `ControllerRuns.FirstBuildCommits` | clients/obsidian/src/backends/in-plugin-index-controller.ts:1612-1733 | the run of a first build of an empty vault |
| `ControllerRuns.ResumedBuildCommits` | clients/obsidian/src/backends/in-plugin-index-controller.ts:1101-1188 | the run of a resumed build |
| `ControllerRuns.RestoredIndexServes` | clients/obsidian/src/backends/in-plugin-index-controller.ts:1317-1520 | the run of a restored generation with one stale row |
| `ControllerProgress.ScheduledStep` | clients/obsidian/src/backends/in-plugin-index-controller.ts:758-829 | every step keeps a rebuild recorded wherever an unblocked controller owes its index a rescan, which the work loop does not look at |
| `ControllerProgress.SomethingToDo` | clients/obsidian/src/backends/in-plugin-index-controller.ts:758-829 | an unblocked controller that is not at rest has a step to take by itself |
| `ControllerProgress.RankDecreases` | clients/obsidian/src/backends/in-plugin-index-controller.ts:758-1767 | every step the controller takes by itself decreases a rank |
| `ControllerProgress.ComesToRestCurrent` | clients/obsidian/src/backends/in-plugin-index-controller.ts:758-829 | left alone, an unblocked controller takes at most as many steps as its rank; where it stops it is at rest and its index is the vault |
| `ControllerProgress.FailureStopsWork` | clients/obsidian/src/backends/in-plugin-index-controller.ts:2174-2183 | after a failure no step is the controller's own until an event or a request unblocks it |
| `ControllerProgress.SnapshotTakesOver` | clients/obsidian/src/backends/in-plugin-index-controller.ts:1640-1643 | a snapshot stands for all events before it: nothing pending, no rebuild recorded, the rescan still owed |
| `ControllerProgress.DisturbedRestoreRebuilds` | clients/obsidian/src/backends/in-plugin-index-controller.ts:1589-1594 | an event that disturbs the check of a restored index leaves it served and a rebuild recorded, asked for once |
| `BuildProgress.InitialBuildProgress.constructor` | clients/obsidian/src/backends/in-plugin-index-controller.ts:1648-1657 | a fresh build starts with nothing represented and a valid cursor |
| `BuildProgress.InitialBuildProgress.Resumed` | clients/obsidian/src/backends/in-plugin-index-controller.ts:1122-1145 | the rebase on resume: the prefix of the new snapshot up to the cursor is represented, and the batches are cut to at most that many |
| `BuildProgress.InitialBuildProgress.AdvanceAcknowledgedPrefix` | clients/obsidian/src/backends/in-plugin-index-controller.ts:1974-1982 | the prefix becomes the longest run of represented entries |
| `BuildProgress.InitialBuildProgress.Acknowledge` | clients/obsidian/src/backends/in-plugin-index-controller.ts:1846-1853 | an acknowledged batch marks its entries and keeps the invariant |
| `BuildProgress.ExportedCursorAccepted` | clients/obsidian/src/cache/cache-store.ts:305-330 | every cursor exported over at most 200,000 normalized paths passes the cursor check |
| `BuildProgress.AcceptedIffExportable` | clients/obsidian/src/cache/cache-store.ts:305-330 | the cursor check accepts exactly the cursors some build exports, and those whose batches number all sources while sources are still missing, which none does |
| `BuildProgress.ValidIsProgress` | clients/obsidian/src/backends/in-plugin-index-controller.ts:1648-1657 | what a build exports is read off exactly the values its fields may have |
| `BuildProgress.ComponentsExactly` | clients/obsidian/src/vault-path.ts:16-19 | the components of a path are exactly the stretches between its slashes |
| `BuildProgress.PrefixIsUpToCursor` | clients/obsidian/src/backends/in-plugin-index-controller.ts:1123-1127 | in a sorted snapshot the represented prefix is exactly the paths up to the cursor |
| `BuildProgress.CountTrueGrows` | clients/obsidian/src/backends/in-plugin-index-controller.ts:1846-1853 | marking a new entry raises the number of represented ones |
| `SnapshotBatching.SnapshotBatcher.constructor` | clients/obsidian/src/backends/in-plugin-index-controller.ts:1830-1836 | the initial state of the batching loop, for a whole snapshot or a suffix |
| `SnapshotBatching.SnapshotBatcher.Flush` | clients/obsidian/src/backends/in-plugin-index-controller.ts:1838-1866 | exact: an empty batch sends nothing; else one request, whose answer and the shutdown flag decide the outcome and whether the batch counts |
| `SnapshotBatching.SnapshotBatcher.FillWindow` | clients/obsidian/src/backends/in-plugin-index-controller.ts:1870-1902 | a window respects read slots and bytes, is as long as they allow, never stalls, and sends only a batch that has no room for the next source |
| `SnapshotBatching.SnapshotBatcher.SettleEntry` | clients/obsidian/src/backends/in-plugin-index-controller.ts:1923-1960 | what one settled read adds, re-queues or marks, as SettledExactly tells from the read itself |
| `SnapshotBatching.SnapshotBatcher.AddSource` | clients/obsidian/src/backends/in-plugin-index-controller.ts:1938-1959 | an added source fits its batch, which is sent when full and not before |
| `SnapshotBatching.SnapshotBatcher.RequireActive` | clients/obsidian/src/backends/in-plugin-index-controller.ts:2934-2937 | an error once disposed, else one once a shutdown is requested |
| `SnapshotBatching.SnapshotBatcher.SettleEntries` | clients/obsidian/src/backends/in-plugin-index-controller.ts:1922-1957 | the settled reads in entry order |
| `SnapshotBatching.SnapshotBatcher.SettleWindow` | clients/obsidian/src/backends/in-plugin-index-controller.ts:1906-1968 | a window ends well only if both activity checks found the controller running and unreadable reads are few |
| `SnapshotBatching.SnapshotBatcher.NextWindow` | clients/obsidian/src/backends/in-plugin-index-controller.ts:1868-1968 | reads outstanding never exceed the limit |
| `SnapshotBatching.SnapshotBatcher.AddSnapshotSources` | clients/obsidian/src/backends/in-plugin-index-controller.ts:1822-1972 | the loop ends; done only if the Worker accepted every batch, no check found a stop, and unreadable reads are few; every entry is accounted for, all batches but the last are full, and a failure has a stated cause |
| `SnapshotBatching.SettledExactly` | clients/obsidian/src/backends/in-plugin-index-controller.ts:1922-1957 | by inspection, read and touch alone: re-queued as upsert iff a stale untouched candidate, as removal iff missing, marked iff unreadable, batched with the bytes read iff an untouched source or too large to read |
| `SnapshotBatching.AddedItemsExact` | clients/obsidian/src/backends/in-plugin-index-controller.ts:1937-1952 | the added sources are the entries that read as sources and were not touched, each once, in order |
| `SnapshotBatching.BatchedIffAdded` | clients/obsidian/src/backends/in-plugin-index-controller.ts:1937-1952 | a path is in an acknowledged batch iff its entry was added |
| `SnapshotBatching.SourcesConserved` | clients/obsidian/src/backends/in-plugin-index-controller.ts:1822-1972 | each entry has exactly one end: one batch, touched, re-queued or unreadable; batches are in path order |
| `SnapshotBatching.InPathOrder` | clients/obsidian/src/backends/in-plugin-index-controller.ts:1822-1972 | every source of an earlier batch precedes every source of a later one |
| `SnapshotBatching.OrdinalInOneBatch` | clients/obsidian/src/backends/in-plugin-index-controller.ts:1838-1858 | no entry is in two batches |
| `SnapshotBatching.NewlyAcknowledged` | clients/obsidian/src/backends/in-plugin-index-controller.ts:1847 | a batch about to be acknowledged holds only entries no earlier batch held |
| `SnapshotBatching.AllAdded` | clients/obsidian/src/backends/in-plugin-index-controller.ts:1937-1952 | undisturbed reads add every entry, in order |
| `SnapshotBatching.DefaultBatchesAccepted` | clients/obsidian/src/worker/protocol.ts:1002-1030 | with the default limits every batch meets the protocol bounds |
| `Reconciliation.SortedPaths` | clients/obsidian/src/backends/in-plugin-index-controller.ts:1265 | the paths of a set, each once, in comparePaths order |
| `Reconciliation.ClassifyAll` | clients/obsidian/src/worker/fts5-index.ts:1181-1200 | the planner loop: the classes in inventory order, the rows left over and the hits |
| `Reconciliation.PlanReconciliation` | clients/obsidian/src/worker/fts5-index.ts:1156-1209 | None iff more rows are stored than a plan may list; else the plan of PlannedExactly, which removes exactly the stored paths outside the inventory and counts both |
| `Reconciliation.ClassMeans` | clients/obsidian/src/worker/fts5-index.ts:1185-1199 | an unchanged row is current; an audited row is current iff the digests agree |
| `Reconciliation.PlannedExactly` | clients/obsidian/src/worker/fts5-index.ts:1181-1200 | audit with hash h iff the stored row agrees in length, time and size class and carries h; intact iff it agrees and both are oversized; refresh in exactly the other listed cases |
| `Reconciliation.CurrentIndexNeedsNothing` | clients/obsidian/src/worker/fts5-index.ts:1181-1209 | over the index of the vault itself nothing is refreshed or removed, every readable file is audited with its own hash, every oversized one left intact |
| `Reconciliation.CanonicalTimes` | clients/obsidian/src/active-vault-source.ts:38-44 | canonical times keep the order of the milliseconds, and within the range they tell any two apart |
| `Reconciliation.AcceptedIffCovers` | clients/obsidian/src/backends/in-plugin-index-controller.ts:3147-3178 | the completeness check passes iff the lists partition the inventory, removals lie outside it, and the counts add up |
| `Reconciliation.AcceptedPlanMissesNoStaleRow` | clients/obsidian/src/backends/in-plugin-index-controller.ts:3147-3178 | an accepted plan with honest counts removes every stale row |
| `Reconciliation.PlannedIsAccepted` | clients/obsidian/src/backends/in-plugin-index-controller.ts:3147-3178 | the check never rejects the planner |
| `Reconciliation.PathsClassedExact` | clients/obsidian/src/worker/fts5-index.ts:1181-1200 | each class list holds exactly its paths, without repeats |
| `Reconciliation.AuditsExact` | clients/obsidian/src/worker/fts5-index.ts:1192-1194 | each audit carries the stored digest of its path |
| `CheckpointResume.InitialBuildResume.CaptureSnapshot` | clients/obsidian/src/backends/in-plugin-index-controller.ts:1777-1820 | the sorted inventory of the vault |
| `CheckpointResume.InitialBuildResume.ProbeSnapshotRefresh` | clients/obsidian/src/backends/in-plugin-index-controller.ts:1519-1529 | without an event a successful probe yields the row of the current file |
| `CheckpointResume.InitialBuildResume.ProbePotentialRemoval` | clients/obsidian/src/backends/in-plugin-index-controller.ts:1531-1544 | without an event it tells whether the path is gone |
| `CheckpointResume.InitialBuildResume.ProbePrefix` | clients/obsidian/src/backends/in-plugin-index-controller.ts:1239-1263 | every refreshed or audited prefix entry is found current or gets a fresh row, unless an event supersedes |
| `CheckpointResume.InitialBuildResume.SettleProbe` | clients/obsidian/src/backends/in-plugin-index-controller.ts:1249-1259 | a read has the audited digest and stores nothing, or gives a fresh row, or ends the resume |
| `CheckpointResume.InitialBuildResume.ProbeRemovals` | clients/obsidian/src/backends/in-plugin-index-controller.ts:1265-1288 | only paths missing now are removed; the others get fresh rows |
| `CheckpointResume.InitialBuildResume.ApplyAll` | clients/obsidian/src/backends/in-plugin-index-controller.ts:1294-1312 | without an event the staging holds exactly the upserts and lacks the removals; the Worker is asked once for each such path, in path order, and for no other |
| `CheckpointResume.InitialBuildResume.PlanSnapshot` | clients/obsidian/src/backends/in-plugin-index-controller.ts:1199-1224 | a plan of the fresh snapshot that always passes the completeness check |
| `CheckpointResume.InitialBuildResume.TryPass` | clients/obsidian/src/backends/in-plugin-index-controller.ts:1197-1313 | a pass reconciles the prefix, with transactions only for rows that differ from the vault, or an event superseded it; the vault counts as unavailable only after two failed reads |
| `CheckpointResume.InitialBuildResume.ReconcileCheckpointPrefix` | clients/obsidian/src/backends/in-plugin-index-controller.ts:1190-1315 | the loop ends for every finite schedule of events; it returns a reconciled prefix of the vault as it then is, always so when reads succeed, and an unavailable vault only after two failed reads |
| `CheckpointResume.InitialBuildResume.ResumeInitialBuild` | clients/obsidian/src/backends/in-plugin-index-controller.ts:1101-1188 | a resumed build commits the index of the vault, whatever changed before the final snapshot |
| `CheckpointResume.AddSuffix` | clients/obsidian/src/backends/in-plugin-index-controller.ts:1150-1162 | the suffix through the ordinary batching: exactly the entries after the cursor, each once, in order |
| `CheckpointResume.PassReconciles` | clients/obsidian/src/backends/in-plugin-index-controller.ts:1226-1312 | the evidence of a pass is enough for the prefix to be current and no stale row to remain |
| `CheckpointResume.OnlyStaleRowsApplied` | clients/obsidian/src/backends/in-plugin-index-controller.ts:1226-1312 | what a pass applies is never for a row that is current already |
| `CheckpointResume.ReconciledExceptSuffix` | clients/obsidian/src/backends/in-plugin-index-controller.ts:1144-1162 | after a reconciled prefix the staging differs from the index of the vault at most in the suffix, as the machine requires of a resume |
| `CheckpointResume.VerifiedRowIsCurrent` | clients/obsidian/src/backends/in-plugin-index-controller.ts:1226-1262 | a verified entry that was not upserted already has its current row |
| `CheckpointResume.SuffixCompletes` | clients/obsidian/src/backends/in-plugin-index-controller.ts:1150-1172 | reconciled prefix plus replayed suffix is the index of the vault |
| `CheckpointResume.FreshBuildCompletes` | clients/obsidian/src/backends/in-plugin-index-controller.ts:1659-1668 | rows for every entry of a snapshot, added to an empty staging, are the index |
| `CheckpointResume.InitialBuildResume.BuildGeneration` | clients/obsidian/src/backends/in-plugin-index-controller.ts:1612-1733 | an undisturbed build, initial or replacement, commits the index of the vault; only the Worker, a shutdown or disposal, or stuck reads stop it |
| `CheckpointResume.AddAll` | clients/obsidian/src/backends/in-plugin-index-controller.ts:1648-1668 | the whole snapshot through the batching: every entry, each once, in order |
| `CheckpointResume.NullCursorCommits` | clients/obsidian/src/backends/in-plugin-index-controller.ts:1123-1127 | with a cursor that names no path the rebase skips everything, so the commit is the index iff every file already had its current row |
| `CheckpointResume.CursorCompletesIff` | clients/obsidian/src/backends/in-plugin-index-controller.ts:1123-1127 | reconciled prefix and replayed suffix always make the index iff the cursor names a path |
| `CheckpointResume.QuietCause` | clients/obsidian/src/backends/in-plugin-index-controller.ts:1822-1972 | undisturbed reads leave only the Worker, a shutdown or disposal, or stuck reads as causes of failure |
| `CacheDisk.RecoverableIff` | clients/obsidian/src/cache/local-cache-store.ts:643-726 | a load after every possible crash finds an image iff every pointer that may survive names one that surely does |
| `CacheDisk.LoadExactly` | clients/obsidian/src/cache/local-cache-store.ts:643-726 | each result of a load, in terms of the pointer file and the named image file alone; a hit iff the image is whole and as long as recorded |
| `PublishProtocol.BeforeCrashes` | clients/obsidian/src/cache/local-cache-store.ts:830-866 | a disk that still has the old pointer and image crashes to the old load and nothing else |
| `PublishProtocol.PastCrashesIff` | clients/obsidian/src/cache/local-cache-store.ts:867-882 | past the pointer rename: to the old or the new load iff all the new image name may hold serves the new pointer, and the old pointer is gone for good or its image is still there or never was |
| `PublishProtocol.ImageCallKeeps` | clients/obsidian/src/cache/local-cache-store.ts:846-850 | image calls before the rename keep the old pointer and image |
| `PublishProtocol.RootCallKeeps` | clients/obsidian/src/cache/local-cache-store.ts:867-876 | calls in the pointer directory that leave the pointer alone keep what is known before and past the rename |
| `PublishProtocol.ImageCallRecoverable` | clients/obsidian/src/cache/local-cache-store.ts:846-850 | an image call keeps recovery when no surviving pointer needs what it changes |
| `PublishProtocol.RootCallRecoverable` | clients/obsidian/src/cache/local-cache-store.ts:867-876 | a pointer call keeps recovery when what it names is durable |
| `PublishProtocol.UnlinkRecoverable` | clients/obsidian/src/cache/local-cache-store.ts:1332-1356 | removing an image keeps recovery iff no pointer that may survive names it |
| `PublishProtocol.LoadNeverMixes` | clients/obsidian/src/cache/local-cache-store.ts:643-726 | an unlocked load among writers misses or returns one put with exactly its bytes |
| `PutSequence.PutCrashSafeIff` | clients/obsidian/src/cache/local-cache-store.ts:830-965 | either namespace: stop after any call, pruning included, and lose any unsynced change: the next load is the old one or the new record with its bytes iff the pointer was not yet renamed, or the new image surely serves and the old pointer cannot survive without its image |
| `PutSequence.CompletePutCrashSafeIff` | clients/obsidian/src/cache/local-cache-store.ts:830-894 | for complete generations, which keep the old image: iff the pointer was not yet renamed, the image directory was synced, or what its name held before loads so |
| `PutSequence.CheckpointPutCrashSafeIff` | clients/obsidian/src/cache/local-cache-store.ts:896-965 | for a checkpoint over one that loads: iff its directory was synced or the old image is not unlinked yet, which it is by the last call |
| `PutSequence.UncommittedPutKeepsLoad` | clients/obsidian/src/cache/local-cache-store.ts:830-882 | before the pointer rename, or where a put stops short of it, a crash changes no load |
| `PutSequence.NewNameCrashSafeIff` | clients/obsidian/src/cache/local-cache-store.ts:990-1004 | for a new image name that is: before the pointer rename, with the sync, or over an index that could not load anyway |
| `PutSequence.PutCommits` | clients/obsidian/src/cache/local-cache-store.ts:830-894 | exactly one call of a put replaces the pointer |
| `PutSequence.FinishedPutLeaves` | clients/obsidian/src/cache/local-cache-store.ts:830-965 | a finished put leaves the new pointer with the generation it replaced, its image, for complete generations the replaced one, and no other file |
| `PutSequence.DiscardLeaves` | clients/obsidian/src/cache/local-cache-store.ts:443-479 | a discard leaves no pointer and no image, and no other pointer file changed |
| `PutSequence.PutStages` | clients/obsidian/src/cache/local-cache-store.ts:830-965 | every intermediate disk of a put, pruning included, is before the commit point or past it, with the image it replaces unlinked or not |
| `PutSequence.PutRecoverableIff` | clients/obsidian/src/cache/local-cache-store.ts:1332-1356 | a finished put survives every crash iff its image surely does, and the pointer directory synced or retention keeps what older pointers name |
| `PutSequence.CompletePutRecoverableIff` | clients/obsidian/src/cache/local-cache-store.ts:1332-1356 | retention keeps the old image in case the pointer rename is lost: a complete put survives iff the image directory synced or its name already served |
| `PutSequence.CheckpointPutRecoverableIff` | clients/obsidian/src/cache/local-cache-store.ts:1309-1330 | a checkpoint put survives iff its image surely does, and the pointer directory synced or no checkpoint preceded it |
| `PutSequence.PublishRecoverable` | clients/obsidian/src/cache/local-cache-store.ts:830-876 | every step up to the pointer rename is recoverable; from then on, iff the image directory synced or the image name already served |
| `PutSequence.PruneImagesRecoverable` | clients/obsidian/src/cache/local-cache-store.ts:1332-1356 | pruning keeps recovery iff it spares what surviving pointers need |
| `PutSequence.PutSound` | clients/obsidian/src/cache/local-cache-store.ts:830-965 | at every step of a put a valid pointer file has its image and everything stored was put |
| `PutSequence.PutThenLoad` | clients/obsidian/src/cache/local-cache-store.ts:643-894 | a put is followed by a hit on what it wrote |
| `PutSequence.PutLoads` | clients/obsidian/src/cache/local-cache-store.ts:643-894 | so is every step of it from the pointer rename on |
| `PutSequence.QuarantineSound` | clients/obsidian/src/cache/local-cache-store.ts:1220-1244 | a quarantine keeps that and spares a pointer that names another record |
| `PutSequence.DiscardSound` | clients/obsidian/src/cache/local-cache-store.ts:468-479 | a discard is pointer-first, so no step leaves a dangling pointer |
| `PutSequence.CheckpointCleanupSpares` | clients/obsidian/src/cache/local-cache-store.ts:443-462 | a checkpoint cleanup decided earlier leaves a different record alone |
| `PutSequence.LateCleanupSpares` | clients/obsidian/src/cache/local-cache-store.ts:1220-1307 | cleanup decided on one disk and run on a later one spares a pointer to another record, except the unlocked removal |
| `PutSequence.CleanupSound` | clients/obsidian/src/cache/local-cache-store.ts:1220-1307 | every disk of any such cleanup, in either namespace, keeps valid pointers on existing images |
| `StoreTrace.UnlockedRemovalTakesIff` | clients/obsidian/src/cache/local-cache-store.ts:643-668 | over any trace of all windows, the removal takes a valid pointer iff a put committed one after the load looked and no later call removed it |
| `StoreTrace.UnlockedRemovalHarmless` | clients/obsidian/src/cache/local-cache-store.ts:1006-1042 | never, if no call in between held the writer lock |
| `StoreTrace.RemovalDuringPutIff` | clients/obsidian/src/cache/local-cache-store.ts:643-894 | a removal after some call of one put turns a hit on its record into a miss iff that call is the pointer rename or later |
| `LocalCacheStore.LocalCacheStore.constructor` | clients/obsidian/src/cache/local-cache-store.ts:402-416 | an open store over a sound disk |
| `LocalCacheStore.LocalCacheStore.Put` | clients/obsidian/src/cache/local-cache-store.ts:830-965 | a refused put touches nothing; one whose required sync fails or whose pointer is too long adds its image and nothing else; any other performs the publish and prune calls under the lock and leaves exactly pointer, image and the retained old image |
| `LocalCacheStore.LocalCacheStore.PublishImage` | clients/obsidian/src/cache/local-cache-store.ts:846-850 | temporary, file sync, rename, and the directory sync where there is one |
| `LocalCacheStore.LocalCacheStore.PublishPointer` | clients/obsidian/src/cache/local-cache-store.ts:867-876 | the same for the pointer |
| `LocalCacheStore.LocalCacheStore.RemoveImages` | clients/obsidian/src/cache/local-cache-store.ts:1332-1356 | unlinks every image not retained, in directory order |
| `LocalCacheStore.LocalCacheStore.RemoveTemps` | clients/obsidian/src/cache/local-cache-store.ts:1332-1356 | unlinks leftover temporaries, never the pointer |
| `LocalCacheStore.LocalCacheStore.Load` | clients/obsidian/src/cache/local-cache-store.ts:643-828 | an error once disposed; else what the disk serves, and of the files exactly a pointer or image that cannot serve is gone, with the lock or without as the miss says |
| `LocalCacheStore.LocalCacheStore.Cleanup` | clients/obsidian/src/cache/local-cache-store.ts:1220-1307 | the locked cleanup on whatever disk it finds, for what the load saw; on an unmoved disk the damaged record is gone and nothing else |
| `LocalCacheStore.LocalCacheStore.RemoveUnparsed` | clients/obsidian/src/cache/local-cache-store.ts:653-668 | the unlocked removal, exact about when it takes a valid pointer |
| `LocalCacheStore.LocalCacheStore.Quarantine` | clients/obsidian/src/cache/local-cache-store.ts:1220-1244 | a pointer to another record leaves the disk as it was; else exactly the pointer and the damaged image are gone |
| `LocalCacheStore.LocalCacheStore.Discard` | clients/obsidian/src/cache/local-cache-store.ts:468-479 | an error once disposed or without the lock and then no change; else no pointer and no image is left |
| `LocalCacheStore.LocalCacheStore.DiscardCheckpoint` | clients/obsidian/src/cache/local-cache-store.ts:443-462 | an error once disposed or without the lock; with a pointer that names the expected record no pointer and no image is left; with any other the disk is the same |
| `LocalCacheStore.LocalCacheStore.DiscardInvalid` | clients/obsidian/src/cache/local-cache-store.ts:1284-1307 | a pointer that still is the one seen and still does not parse goes with every image; any other disk is the same |
| `LocalCacheStore.LocalCacheStore.UnlockedLoad` | clients/obsidian/src/cache/local-cache-store.ts:643-726 | reads taken at three moments of a store run never mix two puts |
| `BackendManager.BackendManager.Activate` | clients/obsidian/src/backend-manager.ts:53-64 | the turn of activate: epoch, immediate disposal, chained activation |
| `BackendManager.BackendManager.AfterPrior` | clients/obsidian/src/backend-manager.ts:66-69 | the turn after the prior activation |
| `BackendManager.BackendManager.AfterImmediate` | clients/obsidian/src/backend-manager.ts:70-80 | the turn after the immediate disposal, whether or not the factory throws |
| `BackendManager.BackendManager.DisposeStray` | clients/obsidian/src/backend-manager.ts:70-80 | its three outcomes: failure, stray previous backend, creation |
| `BackendManager.BackendManager.AfterPrevious` | clients/obsidian/src/backend-manager.ts:71-80 | the turn after disposing of a stray previous backend |
| `BackendManager.BackendManager.Create` | clients/obsidian/src/backend-manager.ts:72-82 | cancelled, or an instance id is used and a new backend becomes active unless the factory throws |
| `BackendManager.BackendManager.AfterInitialize` | clients/obsidian/src/backend-manager.ts:99-105 | the turn after a successful initialize, of which InitializeOutcome tells what it does |
| `BackendManager.BackendManager.AfterInitializeFailure` | clients/obsidian/src/backend-manager.ts:83-86 | the turn after a failed one |
| `BackendManager.BackendManager.AfterOwnDispose` | clients/obsidian/src/backend-manager.ts:86-104 | the activation ends after its own disposal |
| `BackendManager.BackendManager.AfterCurrent` | clients/obsidian/src/backend-manager.ts:111-125 | current returns what it saw iff that is still active and the manager open |
| `BackendManager.BackendManager.Dispose` | clients/obsidian/src/backend-manager.ts:127-138 | the turn of dispose, once |
| `BackendManager.BackendManager.AfterActiveDisposed` | clients/obsidian/src/backend-manager.ts:139 | the turn after the active backend is disposed of |
| `BackendManager.BackendManager.AfterPending` | clients/obsidian/src/backend-manager.ts:140-145 | the turn after the last activation ends |
| `BackendOutcomes.InitializeOutcome` | clients/obsidian/src/backend-manager.ts:99-105 | told from the calls made: a successful initialize resolves with the backend made, active and not told to dispose, iff no later activate and no dispose was called; else it disposes of it |
| `BackendOutcomes.FailureOutcome` | clients/obsidian/src/backend-manager.ts:83-86 | a failed initialize disposes of its backend, which is active no longer |
| `BackendOutcomes.ResolvedIff` | clients/obsidian/src/backend-manager.ts:53-109 | an activation is resolved iff at some step its initialize succeeded before any later activate or dispose |
| `BackendOutcomes.HeldWasMade` | clients/obsidian/src/backend-manager.ts:72-82 | and what it resolved with is the backend that this activation made |
| `BackendOutcomes.ResolvedIsCurrent` | clients/obsidian/src/backend-manager.ts:111-125 | while no later call is made that backend stays active, undisposed, and is what current hands out |
| `BackendOutcomes.CreationOutcome` | clients/obsidian/src/backend-manager.ts:66-82 | after its awaits an activation makes the next backend iff it is the latest, nothing is disposed of, and its dispose call did not fail |
| `BackendOutcomes.FactoryThrowsOutcome` | clients/obsidian/src/backend-manager.ts:72-82 | a factory that throws ends the activation and makes nothing |
| `BackendOutcomes.ActivateOutcome` | clients/obsidian/src/backend-manager.ts:53-64 | activate tells the active backend, if any, and joins the chain |
| `BackendOutcomes.DisposeOutcome` | clients/obsidian/src/backend-manager.ts:127-138 | the first dispose tells the active backend, later ones change nothing |
| `BackendOutcomes.DisposalOutcome` | clients/obsidian/src/backend-manager.ts:139-147 | disposal fails iff its own dispose call failed, and else is over when the last activation has ended |
| `BackendOutcomes.EverythingEnds` | clients/obsidian/src/backend-manager.ts:53-147 | when callers stop, awaits and answers run out within a rank, and then every activation and the disposal have ended |
| `BackendLifecycle.InvStep` | clients/obsidian/src/backend-manager.ts:53-147 | every step of every interleaving keeps the lifecycle invariant |
| `BackendLifecycle.AtMostOneLive` | clients/obsidian/src/backend-manager.ts:53-147 | a created backend has not been told to dispose iff it is the active one |
| `BackendLifecycle.CreatedAfterDisposals` | clients/obsidian/src/backend-manager.ts:66-82 | a backend is created only after all earlier disposals have settled |
| `BackendLifecycle.DisposalIsComplete` | clients/obsidian/src/backend-manager.ts:127-147 | when disposal resolves every backend ever created has been told to dispose and has settled |
| `BackendLifecycle.DisposalIsFinal` | clients/obsidian/src/backend-manager.ts:53-147 | and so it stays in every later state: none is created again |
| `BackendLifecycle.NoStrayBackends` | clients/obsidian/src/backend-manager.ts:71-144 | the stray-backend branches never run |
| `BackendLifecycle.CurrentIsLive` | clients/obsidian/src/backend-manager.ts:111-125 | current never hands out a backend told to dispose |
| `SearchSession.SearchSessionController.constructor` | clients/obsidian/src/search-session.ts:75-93 | an unsupported initial mode falls back to the first supported one |
| `SearchSession.SearchSessionController.SetMode` | clients/obsidian/src/search-session.ts:99-115 | an accepted mode change makes earlier queries stale |
| `SearchSession.SearchSessionController.Search` | clients/obsidian/src/search-session.ts:127-184 | one search call: immediate outcome, or the pending query is replaced and its timer armed |
| `SearchSession.SearchSessionController.Dispose` | clients/obsidian/src/search-session.ts:186-191 | disposal resolves the pending query as stale, once |
| `SearchSession.SearchSessionController.ClearPending` | clients/obsidian/src/search-session.ts:194-203 | the pending query is resolved as stale and its timer cancelled |
| `SearchSession.SearchSessionController.TryDispatch` | clients/obsidian/src/search-session.ts:210-227 | dispatches the due query iff nothing is in flight; identity drift makes it stale |
| `SearchSession.SearchSessionController.TimerFired` | clients/obsidian/src/search-session.ts:176-181 | the debounce callback acts only for its own entry |
| `SearchSession.SearchSessionController.Answered` | clients/obsidian/src/search-session.ts:229-271 | the verdict on an answer |
| `SearchSession.SearchSessionController.FlightEnded` | clients/obsidian/src/search-session.ts:223-226 | the next due query goes out when a flight ends |
| `SearchScheduling.InvStep` | clients/obsidian/src/search-session.ts:99-271 | every turn keeps the scheduling invariant |
| `SearchScheduling.ResolvedAtMostOnce` | clients/obsidian/src/search-session.ts:99-271 | each call resolves at most once and is unresolved iff something will resolve it; at most one flight |
| `SearchScheduling.GenerationCounts` | clients/obsidian/src/search-session.ts:99-191 | the generation grows with every superseding call |
| `SearchScheduling.EntryKeepsGeneration` | clients/obsidian/src/search-session.ts:127-184 | a query carries its own call's generation until it is resolved |
| `SearchScheduling.ResultsReachOnlyLatest` | clients/obsidian/src/search-session.ts:229-250 | results reach a call only if nothing superseded it |
| `SearchOutcomes.AnswerOutcome` | clients/obsidian/src/search-session.ts:229-271 | exactly when an answer gives results, staleness or failure: results iff no search, accepted mode change or dispose came since, the backend is still that of the call, and the answer is that backend's for the mode of the call |
| `SearchOutcomes.SearchOutcome` | clients/obsidian/src/search-session.ts:127-184 | what search does to the pending query and which outcome or entry the new call has |
| `SearchOutcomes.InterruptOutcome` | clients/obsidian/src/search-session.ts:99-115 | an accepted mode change or the first dispose makes exactly the pending query stale; any other changes nothing |
| `SearchOutcomes.TimerOutcome` | clients/obsidian/src/search-session.ts:176-227 | a due query is sent at once iff nothing is in flight and the backend is that of the call; stale if it is another; else it waits |
| `SearchOutcomes.FlightEndOutcome` | clients/obsidian/src/search-session.ts:210-227 | when a request is over the query that is due goes next, and one that is not due keeps waiting |
| `SearchOutcomes.UninterruptedIff` | clients/obsidian/src/search-session.ts:99-191 | the generation and disposal tell exactly whether the session was interrupted |
| `SearchOutcomes.EntryKeepsTarget` | clients/obsidian/src/search-session.ts:127-184 | a query keeps the backend and the mode of its call |
| `SearchScheduling.InternalDecreases` | clients/obsidian/src/search-session.ts:99-271 | timers and answers cannot go on forever |
| `SearchScheduling.SomethingPending` | clients/obsidian/src/search-session.ts:210-227 | an unresolved call always has a timer, an answer or a turn to come |
| `SearchScheduling.EveryCallResolves` | clients/obsidian/src/search-session.ts:127-271 | when callers stop every call has resolved exactly once |
| `BlockFile.BlockFile.constructor` | clients/obsidian/src/worker/block-file.ts:14-21 | an empty file |
| `BlockFile.BlockFile.FromBytes` | clients/obsidian/src/worker/block-file.ts:23-33 | holds exactly the bytes; only the last block may be short |
| `BlockFile.BlockFile.ResidentBytes` | clients/obsidian/src/worker/block-file.ts:35-39 | the sum of block lengths, at most the size rounded up to a block |
| `BlockFile.BlockFile.Read` | clients/obsidian/src/worker/block-file.ts:41-64 | reads what the flat file would, fills no more, changes no content |
| `BlockFile.BlockFile.Write` | clients/obsidian/src/worker/block-file.ts:66-81 | the flat file with the bytes written and any gap zero |
| `BlockFile.BlockFile.Truncate` | clients/obsidian/src/worker/block-file.ts:83-101 | the flat file cut or zero-extended |
| `BlockFile.BlockFile.ToBytes` | clients/obsidian/src/worker/block-file.ts:103-118 | a fresh copy of the flat file |
| `BlockFile.BlockFile.Release` | clients/obsidian/src/worker/block-file.ts:120-124 | zeroes every block and becomes empty |
| `BlockFile.BlockFile.EnsureWritable` | clients/obsidian/src/worker/block-file.ts:126-135 | a full-length block, with no byte of the file changed |
| `BlockFile.BlockFile.CutAt` | clients/obsidian/src/worker/block-file.ts:85-98 | every byte past the cut is zero, every other unchanged |
| `BlockFile.BlockFile.AddBlock` | clients/obsidian/src/worker/block-file.ts:26-31 | one block of a copy |
| `BlockFile.WriteThenRead` | clients/obsidian/src/worker/block-file.ts:41-81 | reading back a write yields it |
| `BlockFile.CutThenGrow` | clients/obsidian/src/worker/block-file.ts:83-101 | regrown bytes are zero |
| `BlockFile.ResizeTwice` | clients/obsidian/src/worker/block-file.ts:83-101 | cutting after growing is cutting; resizing to the size is nothing |
| `BlockFile.ReadPart` | clients/obsidian/src/worker/block-file.ts:41-64 | a read inside the file is that slice, one over its end the rest, one past it empty |
| `BlockFile.RoundedUp` | clients/obsidian/src/worker/block-file.ts:35-39 | whole blocks hold the size and less than one block more |
| `ExcerptSearch.FirstMatch` | clients/obsidian/src/hydrate-excerpt.ts:304-314 | the earliest match of any term, the longest at its start |
| `ExcerptSearch.FoldWithMap` | clients/obsidian/src/hydrate-excerpt.ts:211-234 | origins never decrease and stay in the text; on ASCII the fold is lower case and the map the identity |
| `ExcerptSearch.FindAnchor` | clients/obsidian/src/hydrate-excerpt.ts:255-286 | the chunked scan ends; on ASCII it finds the first and longest match in the first chunk that holds one, some iff any does, and for terms of up to 257 units iff the scanned part does |
| `ExcerptSearch.ScanChunk` | clients/obsidian/src/hydrate-excerpt.ts:264-279 | one chunk |
| `ExcerptSearch.ChunksCoverScannable` | clients/obsidian/src/hydrate-excerpt.ts:280-283 | a term of up to 257 units lies in one chunk wherever it starts |
| `ExcerptSearch.AlwaysFoundIff` | clients/obsidian/src/hydrate-excerpt.ts:264-283 | a term length is found in every ASCII text whose scanned part holds it iff it is at most 257 (or longer than the scan) |
| `ExcerptSearch.MissedTerm` | clients/obsidian/src/hydrate-excerpt.ts:264-283 | for every longer one, a text that holds a term which no chunk holds |
| `ExcerptSearch.CollectMatches` | clients/obsidian/src/hydrate-excerpt.ts:317-328 | the occurrences of each term, left to right without overlap, term by term, the first 256 of them; none missed below the cap, and some if any exists |
| `ExcerptSearch.GreedyExactly` | clients/obsidian/src/hydrate-excerpt.ts:317-328 | each match of a term is the next occurrence after the end of the one before it, and after the last there is none |
| `ExcerptSearch.CollectionExactly` | clients/obsidian/src/hydrate-excerpt.ts:317-328 | what is collected before the cap are the matches of each term and no others |
| `ExcerptSearch.Sort` | clients/obsidian/src/hydrate-excerpt.ts:329 | a permutation by start, longer first |
| `ExcerptSearch.Merge` | clients/obsidian/src/hydrate-excerpt.ts:330-338 | disjoint stretches that cover exactly the same units |
| `ExcerptSearch.FindMatches` | clients/obsidian/src/hydrate-excerpt.ts:316-340 | merged matches cover exactly the units of the collected occurrences |
| `Excerpt.LocateWindow` | clients/obsidian/src/hydrate-excerpt.ts:342-355 | the window holds the anchor, with at most 80 and, if cut, at least 40 units of lead, and is full length but for at most 40 units given up to end at a word |
| `Excerpt.NextBoundary` | clients/obsidian/src/hydrate-excerpt.ts:357-366 | past the first run of white space before the limit, else unmoved, and then there is none |
| `Excerpt.PreviousBoundary` | clients/obsidian/src/hydrate-excerpt.ts:368-373 | the last white space above the limit, else unmoved, and then there is none |
| `Excerpt.BuildSegments` | clients/obsidian/src/hydrate-excerpt.ts:114-126 | for all text the segments spell the window slice; with the identity map a unit is highlighted iff a match covers it |
| `Excerpt.FinalizeSegments` | clients/obsidian/src/hydrate-excerpt.ts:375-410 | a stretch of the first 512 cells with their marks, only plain white space dropped; at most 514 units |
| `Excerpt.AnchorWindow` | clients/obsidian/src/hydrate-excerpt.ts:106-110 | on ASCII the window is located at the first match of the first chunk that holds one, or at the start; it is never shorter than 200 units or the text; terms of up to 432 units fit the cap |
| `Excerpt.PaintWindow` | clients/obsidian/src/hydrate-excerpt.ts:110-126 | a unit is marked iff a collected match covers it; some is iff the window holds a term, and one under the cap iff a collected match starts there |
| `Excerpt.HydrateExcerpt` | clients/obsidian/src/hydrate-excerpt.ts:94-129 | file text only, at most 514 units, each ellipsis iff text was cut off on its side, only plain white space dropped; on ASCII a unit is highlighted iff a collected match covers it, and some is, for terms of up to 432 units or no more than 256 matches, iff a scanned chunk holds a term |
| `Excerpt.LostHighlight` | clients/obsidian/src/hydrate-excerpt.ts:316-410 | a text that holds a term from its first unit on and is not highlighted, because another term uses up the matches past the cap |
| `Excerpt.HighlightSurvives` | clients/obsidian/src/hydrate-excerpt.ts:375-410 | finalizing drops no highlight of the capped cells |
| `Excerpt.NoTermInBlank` | clients/obsidian/src/hydrate-excerpt.ts:297-302 | a blank section holds no term that is not blank |
| `ExactIdentifier.IsUnicodeScalarString` | clients/obsidian/src/worker/exact-identifier-token.ts:38-48 | true iff every surrogate is paired |
| `ExactIdentifier.EncodeExactIdentifierToken` | clients/obsidian/src/worker/exact-identifier-token.ts:13-32 | the token is z and the unpadded base32 of the UTF-8 bytes; None iff empty or not scalar |
| `ExactIdentifier.EncodeBytes` | clients/obsidian/src/worker/exact-identifier-token.ts:18-31 | the bit-buffer loop computes base32; the buffer stays below two to the bits, below five bits between bytes |
| `ExactIdentifier.EmitGroups` | clients/obsidian/src/worker/exact-identifier-token.ts:24-28 | a letter for every five bits |
| `ExactIdentifier.ByteValue` | clients/obsidian/src/worker/exact-identifier-token.ts:22 | the 32-bit shift and the bitwise or append the byte without wrapping |
| `ExactIdentifier.OrAdds` | clients/obsidian/src/worker/exact-identifier-token.ts:22 | bitwise or is addition where the low bits are clear |
| `ExactIdentifier.AndMasks` | clients/obsidian/src/worker/exact-identifier-token.ts:26-27 | bitwise and with a mask of low bits is the remainder |
| `ExactIdentifier.ShiftRightDivides` | clients/obsidian/src/worker/exact-identifier-token.ts:26 | the right shift, bit by bit, is division |
| `ExactIdentifier.GroupStep` | clients/obsidian/src/worker/exact-identifier-token.ts:25-27 | the quotient is the next group and the remainder what follows it |
| `ExactIdentifier.LastValue` | clients/obsidian/src/worker/exact-identifier-token.ts:30 | the last group is filled with zeros |
| `ExactIdentifier.TokenInjective` | clients/obsidian/src/worker/exact-identifier-token.ts:13-32 | no two identifiers share a token, whose length is 1 + ceil(8n/5) |
| `ExactIdentifier.MatchInjective` | clients/obsidian/src/worker/exact-identifier-token.ts:34-36 | no two lists share a match |
| `ExactIdentifier.JoinInjective` | clients/obsidian/src/worker/exact-identifier-token.ts:34-36 | joining tokens with spaces can be undone |
| `ExactIdentifier.Utf8Injective` | clients/obsidian/src/worker/exact-identifier-token.ts:17 | the UTF-8 of scalar strings is injective |
| `ExactIdentifier.Utf8WellFormed` | clients/obsidian/src/worker/exact-identifier-token.ts:17 | shortest form, lead byte ranges, continuation bytes in 0x80 to 0xbf, and the scalar read back from the bytes |
| `ExactIdentifier.FirstScalarExact` | clients/obsidian/src/worker/exact-identifier-token.ts:17 | a scalar value is a unit of its own or the value of a surrogate pair |
| `ExactIdentifier.ScalarIffPaired` | clients/obsidian/src/worker/exact-identifier-token.ts:38-48 | a string is scalar iff every high surrogate is followed by a low one and every low one preceded by a high one |
| `ExactIdentifier.JoinPlaces` | clients/obsidian/src/worker/exact-identifier-token.ts:34-36 | each token stands whole at its place in the match, after one space |
| `Base32.RoundTrip` | clients/obsidian/src/worker/exact-identifier-token.ts:18-31 | decoding an encoding returns the bytes |
| `Base32.EncodesNumber` | clients/obsidian/src/worker/exact-identifier-token.ts:18-31 | the letters are the digits to base 32 of the number the bytes write to base 256, shifted to a whole letter |
| `Base32.Encode` | clients/obsidian/src/worker/exact-identifier-token.ts:4 | letters of the alphabet only, ceil(8n/5) of them |
| `Base32.LetterOfAlphabet` | clients/obsidian/src/worker/exact-identifier-token.ts:4 | the alphabet string is a to z and 2 to 7 |
| `DiagnosticRing.DiagnosticLog.constructor` | clients/obsidian/src/diagnostics/log.ts:660-669 | an empty ring; numbering starts at 1 |
| `DiagnosticRing.DiagnosticLog.Append` | clients/obsidian/src/diagnostics/log.ts:739-750 | the history grows by one consecutively numbered entry, of which the ring keeps the last ones |
| `DiagnosticRing.DiagnosticLog.Place` | clients/obsidian/src/diagnostics/log.ts:742-749 | into the first free slot, or over the oldest entry |
| `DiagnosticRing.DiagnosticLog.TakeSnapshot` | clients/obsidian/src/diagnostics/log.ts:717-730 | of the last min(capacity, n) entries exactly those of an admitted level, in order; dropped and retained make n |
| `DiagnosticRing.DiagnosticLog.Clear` | clients/obsidian/src/diagnostics/log.ts:732-737 | forgets entries and never the numbering |
| `DiagnosticRing.DiagnosticLog.CreateExportPlan` | clients/obsidian/src/diagnostics/log.ts:838-876 | exactly the retained entries of an admitted level and a wanted category, in order; selected and filtered out make retained; retained and dropped make n |
| `DiagnosticRing.FiltersSelect` | clients/obsidian/src/diagnostics/log.ts:838-876 | the two filters keep an entry iff its level and its category are wanted, in the order of capture |
| `DiagnosticRing.RingTurns` | clients/obsidian/src/diagnostics/log.ts:746-748 | a full ring that overwrites its oldest slot holds the history shifted by one |
| `DiagnosticRing.SlotIsModulo` | clients/obsidian/src/diagnostics/log.ts:743 | the ring index |
| `DiagnosticRing.ConsecutiveIncreasing` | clients/obsidian/src/diagnostics/log.ts:740-741 | sequence numbers give the order of capture |
| `BoundedSummary.CollectBoundedDiagnosticSummary` | clients/obsidian/src/diagnostics/log.ts:914-960 | throws or fits in UTF-8 bytes; emitted and omitted make selected; the emitted entries are the longest prefix that fits |
| `BoundedSummary.EmitLines` | clients/obsidian/src/diagnostics/log.ts:928-940 | the greedy loop stops where nothing longer fits |
| `BoundedSummary.LongerReports` | clients/obsidian/src/diagnostics/log.ts:914-960 | a report never shrinks when an entry is added |
| `BoundedSummary.ReportSize` | clients/obsidian/src/diagnostics/log.ts:926-939 | the byte count the loop adds up is that of the whole text |
| `BoundedSummary.CharSizeIsUtf8` | clients/obsidian/src/diagnostics/log.ts:926-939 | a character counts as many bytes as its UTF-8 form has |
| `BoundedSummary.ClipboardFooterIsSteady` | clients/obsidian/src/diagnostics/log.ts:1068-1072 | moving an entry costs the footer at most one byte although its digit counts change |
| `BoundedSummary.ClipboardFooterReads` | clients/obsidian/src/diagnostics/log.ts:1068-1072 | the digits under the first label read back as the emitted count, those under the second as the omitted count |
| `BoundedSummary.DecimalReads` | clients/obsidian/src/diagnostics/log.ts:1068-1072 | digits only, no leading zero, and they read back as the number |
| `BoundedSummary.LinePlace` | clients/obsidian/src/diagnostics/log.ts:928-940 | each emitted entry has its own line, in order |
| `BoundedSummary.ReportReads` | clients/obsidian/src/diagnostics/log.ts:944-956 | a report is its header, the lines, the note on an empty selection iff it is empty, and the footer with its counts |
| `BoundedSummary.DecimalGrows` | clients/obsidian/src/diagnostics/log.ts:1068-1072 | counting up adds at most one digit |

## Left out

- LosslessUnderHypothesis: sources are readable and the controller is neither shut down nor disposed of; of a
  controller blocked by a failed drain it says nothing, GuardedRunFollowed does.
- AddSnapshotSources: what the reads, the Worker, a shutdown, a disposal and later events do is an input; the number
  of earlier reads still outstanding is fixed while one window is formed.
- ResumeInitialBuild: no event follows the final snapshot, and the cursor names a path; events after that snapshot
  are steps of the controller machine, whose runs contain resumed builds. The same holds of BuildGeneration.
- ReconcileCheckpointPrefix: events form a finite schedule, and the seconds column of a row is not modelled; the limit
  on stored rows is PlanReconciliation's, and a resume under it is what is stated.
- PlanReconciliation: the integrity errors of the Worker's stored inventory, which would be errors of SQLite's contents.
- FindAnchor: exactness is stated for ASCII text; for other text only bounds and termination.
- HydrateExcerpt: takes one section of the text; headings and frontmatter (`locateSection`) are not modelled, and
  folding of non-ASCII characters is any function from characters to code points.
- CollectBoundedDiagnosticSummary: the header and the formatting of an entry are parameters; characters are Unicode
  scalar values, so a lone surrogate stands for the replacement character it is encoded as.
- LocalCacheStore.Put: no I/O error other than a crash, a failed directory sync and a pointer over its bound. JSON
  and digests are validated values; temporary names are fresh.
- LocalCacheStore.Load: one turn, with no other window's call between its reads and its cleanup; UnlockedLoad,
  Cleanup and RemoveUnparsed are about the same parts among other windows' calls.
- RestoreCache: the Worker's import of a cached image and the refused rows are inputs: an index, and the paths at which
  it may differ from the vault. Of the pass that reconciles it the machine has the reads, checks and transactions, not
  the order of its phases, the budgets of its buffered probes, or its verdict on unreadable sources.
- Unreadable-source retries and backoff, cold previews, idle exports, status emission and vault activity counts.
- Controller shutdown and disposal outside the batching, and persistence of checkpoints beyond the cursor they carry.
- Writer-lock acquisition and stale breaking, path ownership checks, directory modes, quarantine directories.
- SHA-256 (an injective function), Unicode normalization, real time (timer steps), SQLite, WASM and the Worker's
  indexing, which is a map from path to row.
- The protocol's shape validators other than batch bounds and the checkpoint cursor.
- Query term extraction, grouped search, startup timeline, settings and user interface.
