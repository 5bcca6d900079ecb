# A verified model of a small database engine

This project models five components of the engine and proves what they are for.

- **Concurrency control.** Two managers grant reads and writes of records to transactions: one by
  two-phase locking with S and X locks, queues and a wait-for graph, one by timestamp ordering. What
  they grant is a history (`Histories`); running a history means reading and writing a store, where a
  transaction is an arbitrary function from what it has read so far to what it writes next. In every
  run of the locking manager the interleaved execution equals the serial execution of the committed
  transactions in commit order. In every run of the timestamp manager it equals the serial execution
  in timestamp order. The source undoes a rollback only after its locks are gone, and lets a failed
  transaction's writes be read until it is undone; then the equivalence can be lost. `DelayedUndo` and
  `TimestampFailures` say exactly when it holds whatever the transactions are: with nothing overwritten
  that is still to be undone, if and only if nobody who stays has read any of it, and in general if and
  only if who reads from whom is as in the serial run (`ReadsFrom`). Both managers let it be lost
  (`DirtyReads`, `TimestampFailures.GrantDirtyRead`).
  The deadlock search finds a cycle exactly when there is one to find, and `LockGrants` says when a lock
  is granted and what a refusal leaves.
- **Failure recovery.** A buffered write-ahead log, aborts, checkpoints and three-phase crash
  recovery over a store of rows under their primary keys. `RecoveryRuns` is a machine of every small
  step the recovery manager and the buffer pool take between two crashes (one entry appended or
  flushed, one page evicted, one entry undone, one half of a checkpoint). Wherever a run of that
  machine stops with no checkpoint half done, recovery finds the committed store when eviction waits
  for the log. The source's eviction does not, and a crash can fall within a checkpoint:
  `RecoveryExactness` says for every run, every eviction and every crash exactly when the committed
  store is found, and `RecoveryLimits` has three runs on which it is not (an uncommitted row survives a
  crash within a checkpoint, or an eviction ahead of the log; a committed row is lost when a checkpoint
  starts before the pages are written). `FailureRecovery` is the manager itself, an object each of
  whose calls is proved to be a sequence of such steps; `LogFileRecovery` goes on to the bytes of a
  torn log file, and `LogExactness` says exactly which log files are read back.
- **B+ tree.** Insert with splits and root growth, search, lazy remove, the chain of leaves and bulk
  load, over nodes addressed by offset in a cache. The trees refine a multimap (a key to a sequence of
  offsets). Bulk load is right for at most 63 * 64 keys, and only for those.
- **Buffer pool and paged tables.** A write-back cache with pins over pages of 4096 bytes, the page
  codec, and the four row operations, which agree with operations on one plain list of rows.
- **Plan rewriting.** Splitting conjunctions, reordering selections by selectivity and pushing them
  below joins: the plan yields the same sequence of rows, the passes terminate, and nothing that could
  be pushed is left.

Codecs (`Binary`, `TypedBytes`, `LogCodec`, `NodeCodec`, `PageCodec`) model files as sequences of bytes.

How the project is laid out: an entity the source updates in place is a class
(`TwoPhaseLockingCCManager`, `TimestampCCManager`, `FailureRecoveryManager`, `BPTreeManager`,
`BufferManager`, `StorageEngine`); its methods are proved against functions on values, and the
theorems are lemmas about those functions and about runs of them. A mutex-protected call is one step.
`Serialisability` is shared by both concurrency managers, `Binary` by all codecs, `PageCodec` by the
buffer pool, the buffer pool by the tables.

Where the documentation or a comment of the source promises more than the code does, the model follows
the code: the promise "row may already exist" of a redone insert is taken as an assumption about a
keyed store; a SELECT is logged as a COMMIT; a crash between the two entries of a checkpoint loses the
list of active transactions; eviction does not look at the log; the bulk loader takes a node's first
separator for its smallest key and drops a lone child.

Index keys are byte strings in the source. The tree is modelled over real numbers, into which byte
strings embed with their order (`StringKeys.EmbedOrder`), so every statement about the tree holds of
strings. `std::lower_bound` is the position it is specified to return.

## Model

| member | source | states |
|---|---|---|
| TwoPhaseLockingSafety.RunsAreSerialisable | src/concurrency_control/two_phase_locking_protocol.cpp:30-474 | in every run of begin, validate and end calls the granted accesses are strict, and executing them as interleaved gives every committed transaction the same reads, and the records the same final values, as the serial run in commit order |
| DelayedUndo.DelayedRunsAreSerialisable | src/query_processor/query_processor.cpp:1285-1300 | with a rollback's changes undone at any time after its locks are gone, and a rollback of an active transaction ending as a commit in the lock manager: for every run in which nobody overwrites what is still to be undone, whatever the transactions do it is equivalent to the serial run of those not rolled back, if and only if none of these has read what was still to be undone |
| DelayedUndo.EveryScheduleIsDecided | src/query_processor/query_processor.cpp:1285-1300 | for every run and every schedule of undos, overwritten or not: the equivalence holds whatever the transactions do if and only if those not rolled back read from the same writes as in the serial run, and the records were last written by the same |
| ReadsFrom.ViewDecides | src/query_processor/query_processor.cpp:1285-1300 | of two histories with the same accesses of the compared transactions: all programs on all stores read, write and leave the same if and only if every read is of the same write in both and every record was last written by the same |
| DelayedUndo.DelayedSimulation | src/query_processor/query_processor.cpp:1285-1300 | at every point of such a schedule those that stay, and whoever else reads nothing dirty, have the logs of the execution that undoes at once; the stores differ only on what is still to be undone or being written by somebody who does not stay, and all before-images are right |
| DirtyReads.DirtyRead | src/query_processor/query_processor.cpp:1285-1300 | the lock manager lets it happen: for every record, a run of it, overwriting nothing and with everything undone in the end, in which a committed transaction has read what a rolled-back one wrote |
| TwoPhaseLockingSafety.RunInvariant | src/concurrency_control/two_phase_locking_protocol.cpp:13-474 | every reachable state is consistent (lock tables, transaction table, queues, graph), and an unfinished transaction still holds all it touched, exclusively what it wrote |
| TwoPhaseLockingSafety.RunsKeepTables | src/concurrency_control/two_phase_locking_protocol.cpp:96-474 | in every reachable state: the wait-for graph is acyclic, an X lock excludes all others, inactive transactions hold no lock, queue place or edge, and an edge T -> H has a record H holds and T is queued on |
| TwoPhaseLockingSafety.CallKeepsConsistent | src/concurrency_control/two_phase_locking_protocol.cpp:30-474 | any one call keeps the lock tables, transaction table, queues and acyclic justified graph consistent |
| TwoPhaseLockingSafety.CallRemembers | src/concurrency_control/two_phase_locking_protocol.cpp:30-474 | any one call keeps the history strict and the locks remembering it |
| TwoPhaseLockingSafety.InactiveHoldNothing | src/concurrency_control/two_phase_locking_protocol.cpp:357-474 | a transaction that is not active holds nothing, queues nowhere and is on no edge |
| TwoPhaseLockingSafety.QueuesAreFair | src/concurrency_control/two_phase_locking_protocol.cpp:96-474 | who stays in a queue stays in order, and a newcomer goes behind everyone, whatever the call |
| TwoPhaseLockingSafety.GrantsGoToTheHead | src/concurrency_control/two_phase_locking_protocol.cpp:96-312 | an access is granted only to the head of the record's queue or when there is none, and then the lock is held (X for a write) |
| LockGrants.WhenGranted | src/concurrency_control/two_phase_locking_protocol.cpp:96-312 | in every consistent state an access is granted if and only if the transaction is active, nobody else is first in the record's queue, and no other holds it in X (for a write: at all); S locks do not exclude each other |
| LockGrants.EveryRunGrants | src/concurrency_control/two_phase_locking_protocol.cpp:13-312 | the same in every state of every run |
| LockGrants.WhatGrantGives | src/concurrency_control/two_phase_locking_protocol.cpp:96-312 | a grant gives exactly that lock (X for a write), and nobody loses one |
| LockGrants.WhatGrantChanges | src/concurrency_control/two_phase_locking_protocol.cpp:165-188 | a lock that is held changes nothing; a new one takes the transaction off the front of the queue and drops its edges |
| LockGrants.WhatRefusalLeaves | src/concurrency_control/two_phase_locking_protocol.cpp:100-312 | behind others the refused one only queues; else it waits for the X holder or the least other S holder, queued and with one more edge, unless the edge closes a cycle: then it is aborted and nothing of it is left |
| LockGrants.WhatEndLeaves | src/concurrency_control/two_phase_locking_protocol.cpp:369-474 | a commit leaves nothing of the transaction and takes nothing from the others |
| LockGrants.WhatLateEndLeaves | src/concurrency_control/two_phase_locking_protocol.cpp:369-474 | ending what is not active leaves locks, queues, edges and statuses as they are |
| LockGrants.GrantsAreTheHistory | src/concurrency_control/two_phase_locking_protocol.cpp:30-312 | an access is in the history if and only if it was granted |
| LockGrants.EndsAreTheHistory | src/concurrency_control/two_phase_locking_protocol.cpp:13-400 | an end of an active transaction is a commit in the history; a begin and a late end are not in it |
| TwoPhaseLocking.TwoPhaseLockingCCManager.constructor | src/concurrency_control/two_phase_locking_protocol.cpp:8-11 | the manager starts empty, with an empty history |
| TwoPhaseLocking.TwoPhaseLockingCCManager.BeginTransaction | src/concurrency_control/two_phase_locking_protocol.cpp:13-23 | the next identifier, unused before, becomes an active growing transaction; nothing else changes |
| TwoPhaseLocking.TwoPhaseLockingCCManager.ValidateObject | src/concurrency_control/two_phase_locking_protocol.cpp:30-94 | answer, whole new state and history are those of the state machine; the invariant is kept |
| TwoPhaseLocking.TwoPhaseLockingCCManager.AcquireSLock | src/concurrency_control/two_phase_locking_protocol.cpp:96-182 | queue, lock, deadlock and grant branches in the source's order, as the whole new state |
| TwoPhaseLocking.TwoPhaseLockingCCManager.AcquireXLock | src/concurrency_control/two_phase_locking_protocol.cpp:184-312 | the same for X locks, with the upgrade and the first other S holder |
| TwoPhaseLocking.TwoPhaseLockingCCManager.FirstOther | src/concurrency_control/two_phase_locking_protocol.cpp:251-258 | the loop over the ordered S holders stops at the least one that is not the caller |
| TwoPhaseLocking.TwoPhaseLockingCCManager.JoinQueue | src/concurrency_control/two_phase_locking_protocol.cpp:101-119 | behind everyone, unless already queued |
| TwoPhaseLocking.TwoPhaseLockingCCManager.WaitOrAbort | src/concurrency_control/two_phase_locking_protocol.cpp:131-160 | abort when the edge would let the waiter reach a cycle, else the edge and a queue place |
| TwoPhaseLocking.TwoPhaseLockingCCManager.RecordGrant | src/concurrency_control/two_phase_locking_protocol.cpp:164-177 | the record in the lock set, the transaction's own edges gone, its place at the head taken |
| TwoPhaseLocking.TwoPhaseLockingCCManager.DetectDeadlock | src/concurrency_control/two_phase_locking_protocol.cpp:336-355 | true exactly when the added edge lets the waiter reach a cycle; otherwise the edge is taken back |
| TwoPhaseLocking.TwoPhaseLockingCCManager.AbortTransaction | src/concurrency_control/two_phase_locking_protocol.cpp:357-367 | aborted, and everything it holds, waits for or is waited for is gone |
| TwoPhaseLocking.TwoPhaseLockingCCManager.EndTransaction | src/concurrency_control/two_phase_locking_protocol.cpp:369-389 | a commit releases everything; an aborted or unknown transaction releases nothing more |
| TwoPhaseLocking.TwoPhaseLockingCCManager.ReleaseSLock | src/concurrency_control/two_phase_locking_protocol.cpp:391-408 | one S holder fewer, the record's entry gone with the last; only a holder's lock set changes |
| TwoPhaseLocking.TwoPhaseLockingCCManager.ReleaseXLock | src/concurrency_control/two_phase_locking_protocol.cpp:410-421 | the X lock goes only if it is the caller's |
| TwoPhaseLocking.TwoPhaseLockingCCManager.ReleaseAllLocks | src/concurrency_control/two_phase_locking_protocol.cpp:423-474 | the three clean-up loops remove exactly the transaction's locks, edges in both directions and queue places |
| TwoPhaseLocking.TwoPhaseLockingCCManager.ReleaseHeld | src/concurrency_control/two_phase_locking_protocol.cpp:429-435 | the loop over the lock set empties it and frees each record, S or X, of this transaction only |
| TwoPhaseLocking.OneReleased | src/concurrency_control/two_phase_locking_protocol.cpp:429-435 | one round of it frees that record and no other |
| TwoPhaseLocking.TwoPhaseLockingCCManager.DropFromGraph | src/concurrency_control/two_phase_locking_protocol.cpp:437-450 | the transaction goes as waiter and as holder, and waiters left waiting for nobody go too |
| TwoPhaseLocking.TwoPhaseLockingCCManager.DropFromQueues | src/concurrency_control/two_phase_locking_protocol.cpp:452-463 | it goes from every queue, the others stay in order, and empty queues go |
| WaitForGraph.CheckCycle | src/concurrency_control/two_phase_locking_protocol.cpp:314-334 | the depth-first search terminates; true only if a cycle is reachable from its start, and when false the visited nodes that left the stack are closed and cycle-free |
| WaitForGraph.HasCycleFrom | src/concurrency_control/two_phase_locking_protocol.cpp:314-343 | from empty sets: true if and only if a cycle is reachable from the start |
| WaitForGraph.AddEdgeKeepsAcyclic | src/concurrency_control/two_phase_locking_protocol.cpp:336-355 | an edge added to an acyclic graph leaves it acyclic unless a cycle is reachable from the edge's source |
| Histories.StrictSnoc | src/concurrency_control/two_phase_locking_protocol.cpp:30-94 | strictness of a whole history (a conflicting access only after the earlier transaction's end) is the condition granted one event at a time |
| Serialisability.Simulation | src/concurrency_control/two_phase_locking_protocol.cpp:357-389 | after every strict history the interleaved world simulates the serial one: same reads of the committed, same values off the unfinished transactions' writes |
| Serialisability.SerialEquivalence | src/concurrency_control/two_phase_locking_protocol.cpp:357-389 | a strict history is equivalent to its serial history: reads of all committed transactions, final values, and before-images of what is still open |
| Serialisability.SerialEquivalenceAtRest | src/concurrency_control/two_phase_locking_protocol.cpp:357-389 | once every transaction has ended the two stores are equal |
| Serialisability.SerialKeepsOps | src/concurrency_control/two_phase_locking_protocol.cpp:369-389 | the serial history has each committed transaction's accesses, all, in order, and no others |
| Serialisability.SerialIsSerial | src/concurrency_control/two_phase_locking_protocol.cpp:369-389 | in the serial history transactions do not interleave |
| TimestampOrdering.TimestampOrderIsSerial | src/concurrency_control/timestamp_ordering.cpp:82-122 | running the granted accesses as granted equals running them stably sorted by timestamp: same store, same reads of every transaction |
| TimestampOrdering.TimestampCCManager.RunsAreSerial | src/concurrency_control/timestamp_ordering.cpp:55-122 | in every state of the manager its granted accesses equal their serial execution in timestamp order: same store, same reads |
| TimestampFailures.UnfailedAreSerial | src/concurrency_control/timestamp_ordering.cpp:55-122 | with failed transactions undone at any later time: for all the manager granted, with nobody overwriting what another that fails is still to have undone, whatever the transactions do the unfailed read and leave what they do run serially in timestamp order, if and only if none of them has read what was still to be undone |
| TimestampFailures.EveryFailureIsDecided | src/concurrency_control/timestamp_ordering.cpp:55-122 | for every schedule of undos, overwritten or not: that holds whatever the transactions do if and only if the unfailed read from the same writes as in the serial run, and the settled records were last written by the same |
| TimestampFailures.FailedLeaveNoTrace | src/query_processor/query_processor.cpp:1285-1300 | at every point of such a schedule without a dirty read the unfailed have the logs of the execution without the failed, and the stores differ only on what is still to be undone |
| TimestampFailures.GrantDirtyRead | src/concurrency_control/timestamp_ordering.cpp:82-122 | the manager grants 2 a read of what 1 wrote and fails 1 afterwards, with 2 still active |
| TimestampFailures.DirtyReadStays | src/concurrency_control/timestamp_ordering.cpp:82-122 | on that history, overwriting nothing and with 1 undone in the end, 2 has read what it reads in no run without 1, whatever the two write |
| TimestampOrdering.ByTimestampIsSerial | src/concurrency_control/timestamp_ordering.cpp:82-122 | that sorted history is serial, and each transaction keeps all its accesses in order |
| TimestampOrdering.GrantKeepsOrder | src/concurrency_control/timestamp_ordering.cpp:82-122 | what the test admits keeps all conflicting accesses in timestamp order |
| TimestampOrdering.TestDecidesConflicts | src/concurrency_control/timestamp_ordering.cpp:82-108 | comparing with the two stored timestamps decides whether any conflicting access of a larger timestamp was granted before |
| TimestampOrdering.GrantIsTracked | src/concurrency_control/timestamp_ordering.cpp:109-122 | after a grant read_ts and write_ts are again the maxima over the granted reads and writes |
| TimestampOrdering.MaxTsIsMax | src/concurrency_control/timestamp_ordering.cpp:82-122 | the tracked value bounds every granted access of its kind |
| TimestampOrdering.TimestampCCManager.constructor | src/concurrency_control/timestamp_ordering.cpp:10-12 | the manager starts empty at time 0 |
| TimestampOrdering.TimestampCCManager.BeginTransaction | src/concurrency_control/timestamp_ordering.cpp:19-32 | a fresh identifier that is also the timestamp; one active transaction more |
| TimestampOrdering.TimestampCCManager.LogObject | src/concurrency_control/timestamp_ordering.cpp:34-53 | an unseen object gets timestamps 0 and 0, a seen one keeps its own; an unknown transaction changes nothing |
| TimestampOrdering.TimestampCCManager.ValidateObject | src/concurrency_control/timestamp_ordering.cpp:55-123 | granted exactly when the transaction is known and not failed, the object known, and no conflicting access with a larger timestamp was granted; otherwise it fails |
| TimestampOrdering.TimestampCCManager.EndTransaction | src/concurrency_control/timestamp_ordering.cpp:125-201 | the transaction is removed; the history stands |
| FailureRecovery.CrashAndRestart | src/failure_recovery/failure_recovery.cpp:1222-1353 | whatever calls strict transactions made, a crash between two calls leaves a disk and a log from which a new process gets exactly the committed store, and a second crash and recovery changes nothing |
| RecoveryRuns.EveryCrashIsRecovered | src/failure_recovery/failure_recovery.cpp:1222-1353 | over every run of the step machine stopped anywhere but within a checkpoint: analysis finds the unfinished transactions, redo then undo gives the committed store, recovering again changes nothing |
| RecoveryExactness.WhenRecoveryFindsCommitted | src/failure_recovery/failure_recovery.cpp:1222-1353 | over every run, with pages evicted at any time, and wherever it crashes, within a checkpoint or not: recovery gives the committed store if and only if, on every key, what it redoes and undoes repairs what the disk has (the winners' last and the losers' first change decide it) |
| RecoveryExactness.WhenEvictionIsSafe | src/storage_manager/buffer_manager.cpp:162-195 | after a run that kept to the write-ahead rule, one eviction ahead of the log is recovered if and only if that key is repaired; with nothing to redo or undo on it, if and only if the page had the committed value |
| RecoveryExactness.OpenCheckpointIsRecovered | src/failure_recovery/failure_recovery.cpp:332-387 | a crash within a checkpoint is recovered when nobody active at its start is unfinished and what was committed before the start is on disk |
| RecoveryExactness.WhenCheckpointPagesAreSafe | src/failure_recovery/failure_recovery.cpp:344-357 | after a checkpoint's pages and before its end entry, a crash is recovered if and only if no key changed by a transaction active at the start differs from its committed value |
| RecoveryRuns.WhenAnalysisIsExact | src/failure_recovery/failure_recovery.cpp:1236-1265 | over every run: analysis finds exactly the unfinished transactions if and only if no checkpoint is open or all those active at its start have finished |
| RecoveryRuns.RunsAreSound | src/failure_recovery/failure_recovery.cpp:117-387 | in every reachable state the disk has, of each key, all up to the last completed checkpoint and some prefix of the rest |
| RecoveryRuns.ActionKeeps | src/failure_recovery/failure_recovery.cpp:117-387 | each of the nine kinds of step keeps that invariant |
| RecoveryRuns.UndoneKey | src/failure_recovery/failure_recovery.cpp:389-452 | part of a transaction's changes to a key undone, latest first, is a prefix of them remaining |
| RecoverySteps.CompletedIsClosed | src/failure_recovery/failure_recovery.cpp:332-387 | a possible run whose checkpoints are all completed leaves a log file that ends in no open checkpoint |
| CrashRecovery.RecoveryRestoresCommitted | src/failure_recovery/failure_recovery.cpp:1222-1353 | from any disk the crash may have left, recovery gives exactly the committed store when analysis is exact |
| CrashRecovery.RecoveryIsDecided | src/failure_recovery/failure_recovery.cpp:1222-1353 | from any disk whatever, of rows of their tables: recovery gives the committed store if and only if every key is repaired |
| CrashRecovery.RecoveryIsIdempotent | src/failure_recovery/failure_recovery.cpp:1222-1353 | recovering the recovered store changes nothing |
| CrashRecovery.AnalysisFindsLosers | src/failure_recovery/failure_recovery.cpp:1236-1265 | from the last checkpoint's list of those then active, the scan computes those begun and not finished |
| CrashRecovery.AnalysisInOpenCheckpoint | src/failure_recovery/failure_recovery.cpp:1236-1265 | after a crash within a checkpoint, analysis misses exactly those active at its start; it is exact if and only if they have all finished |
| CrashRecovery.AbortAsIfNeverRan | src/failure_recovery/failure_recovery.cpp:256-452 | undoing a transaction's entries in reverse gives what the other transactions' entries alone make of the initial store |
| CrashRecovery.LiveIsReplay | src/failure_recovery/failure_recovery.cpp:117-330 | the live store of a run, aborts included, is the replay of the changes of those that did not abort |
| RecoveryLog.RunSettles | src/failure_recovery/failure_recovery.cpp:117-330 | of every key: committed changes first, then those of the one open transaction, a chain that replays to the live value |
| KeyedStore.UndoFromAnyPoint | src/failure_recovery/failure_recovery.cpp:986-1061 | undoing all changes to a key, whichever prefix of them took effect, leads to the state before the first |
| KeyedStore.RedoFromAnyPoint | src/failure_recovery/failure_recovery.cpp:1104-1170 | redoing the first j changes to a key from any point reached leads to a point at or past j |
| KeyedStore.CellRecovery | src/failure_recovery/failure_recovery.cpp:986-1170 | one key: redo of the winners' changes then undo of the losers' gives the winners' value, from any point in between |
| KeyedStore.CellIsRecovered | src/failure_recovery/failure_recovery.cpp:986-1170 | one key, from any state whatever: redo then undo gives the winners' value if and only if they repair that state |
| KeyedStore.RedoFromAnyState | src/failure_recovery/failure_recovery.cpp:1104-1170 | redo from any state: exact if and only if the last change is a delete, an update that finds a row, or an insert that does not find another one |
| KeyedStore.UndoFromAnyState | src/failure_recovery/failure_recovery.cpp:986-1061 | undo from any state: exact if and only if the first change is an insert, an update that finds a row, or a delete that does not find another one |
| RecoveryLimits.CrashWithinCheckpoint | src/failure_recovery/failure_recovery.cpp:332-387 | for every row: a possible run that crashes between START and END, after which the row of a transaction that never committed survives |
| RecoveryLimits.CommitBeforeCheckpoint | src/failure_recovery/failure_recovery.cpp:332-387 | for every row: a possible run with nobody active at START in which a committed row is lost, since redo begins at START and the pages were not yet written |
| RecoveryLimits.EvictionAheadOfLog | src/storage_manager/buffer_manager.cpp:162-195 | for every row: a possible run after which evicting a page ahead of the log makes recovery keep the row of a transaction that never committed |
| FailureRecovery.FailureRecoveryManager.constructor | src/failure_recovery/failure_recovery.cpp:61-66 | a new manager over a store that is also on disk, with an empty log |
| FailureRecovery.FailureRecoveryManager.Restart | src/failure_recovery/failure_recovery.cpp:61-94 | a restart after a crash has the recovered store in memory and on disk, no active transactions, and the next log identifier |
| FailureRecovery.FailureRecoveryManager.WriteLog | src/failure_recovery/failure_recovery.cpp:117-226 | the log gets exactly the entry that the first word asks for: for UPDATE the first row as the old and the second as the new value, for INSERT and DELETE the row, a begin, commit or abort for the others; a failed result or an update without both rows logs nothing; what a strict transaction did is in the store and the run stays one of strict transactions; the whole buffer goes to the file at 50 entries |
| FailureRecovery.EveryQueryAsks | src/failure_recovery/failure_recovery.cpp:13-54 | every query asks for exactly one operation, by its first word in capitals; an unknown or missing word for a BEGIN |
| FailureRecovery.FailureRecoveryManager.CommitTransaction | src/failure_recovery/failure_recovery.cpp:228-254 | the log has one more entry, the COMMIT, all of it in the file; then all pages are on disk, and the transaction is no longer active |
| FailureRecovery.FailureRecoveryManager.AbortTransaction | src/failure_recovery/failure_recovery.cpp:256-330 | an unknown transaction changes nothing; else its changes are undone in reverse and the ABORT entry written last, and with no changes only the entry |
| FailureRecovery.FailureRecoveryManager.HasDataModifications | src/failure_recovery/failure_recovery.cpp:267-296 | true exactly when the transaction has an INSERT, UPDATE or DELETE entry in buffer or file |
| FailureRecovery.FailureRecoveryManager.SaveCheckpoint | src/failure_recovery/failure_recovery.cpp:332-387 | the log has two more entries, START and END with the active transactions, all of it in the file, and the pages are on disk |
| FailureRecovery.FailureRecoveryManager.PickOwn | src/failure_recovery/failure_recovery.cpp:404-421 | the filter keeps the transaction's entries in order |
| FailureRecovery.FailureRecoveryManager.UndoTransaction | src/failure_recovery/failure_recovery.cpp:389-452 | filter and backward loop together undo the transaction |
| FailureRecovery.FailureRecoveryManager.UndoOperation | src/failure_recovery/failure_recovery.cpp:986-1102 | per kind of entry: an INSERT is deleted, a DELETE inserted, an UPDATE overwritten with the old columns, anything else nothing |
| FailureRecovery.FailureRecoveryManager.RedoOperation | src/failure_recovery/failure_recovery.cpp:1104-1220 | per kind of entry: the row's logged change applied |
| FailureRecovery.FailureRecoveryManager.FindCheckpoint | src/failure_recovery/failure_recovery.cpp:1240-1248 | the backward loop finds the last CHECKPOINT entry and its list, the log's start and nobody without one |
| FailureRecovery.FailureRecoveryManager.Analyse | src/failure_recovery/failure_recovery.cpp:1236-1265 | start, losers and winners are those of the log |
| FailureRecovery.FailureRecoveryManager.RedoPhase | src/failure_recovery/failure_recovery.cpp:1274-1300 | the forward loop is the redo of the winners from the checkpoint on |
| FailureRecovery.FailureRecoveryManager.UndoPhase | src/failure_recovery/failure_recovery.cpp:1305-1338 | the backward loop is the undo of each loser down to its BEGIN, and may stop early |
| FailureRecovery.FailureRecoveryManager.RecoverFromCrash | src/failure_recovery/failure_recovery.cpp:1222-1353 | the three phases together, then the pages on disk; an empty log recovers nothing |
| FailureRecovery.FailureRecoveryManager.FlushBuffer | src/failure_recovery/failure_recovery.cpp:1355-1382 | the buffer's entries appended to the file in order, the buffer empty |
| FailureRecovery.FailureRecoveryManager.EvictPage | src/storage_manager/buffer_manager.cpp:162-195 | eviction at any time writes one key's live row, or its absence, to disk |
| CheckpointList.ListRoundTrip | src/failure_recovery/failure_recovery.cpp:963-984 | the printed list of any set of 32-bit identifiers parses back to that set |
| CheckpointList.PrintList | src/failure_recovery/failure_recovery.cpp:363-371 | the loop prints the set in ascending order, comma-separated, in brackets |
| CheckpointList.ParseCheckpointList | src/failure_recovery/failure_recovery.cpp:963-984 | the loop over the tokens between the first brackets; tokens that are no int are skipped |
| CheckpointList.ParsedAreListed | src/failure_recovery/failure_recovery.cpp:963-984 | parsed are exactly the integers that the pieces between commas start with, between the first brackets: blanks, a sign, digits, within 32 bits |
| CheckpointList.StartParsesToNobody | src/failure_recovery/failure_recovery.cpp:963-984 | the query of a START entry parses to the empty set |
| LogExactness.WhenLogIsReadBack | src/failure_recovery/failure_recovery.cpp:663-784 | reading the concatenation of encoded entries returns them, each with the fields its operation stores, if and only if the rows of all of them have all their values |
| LogCodec.TornLog | src/failure_recovery/failure_recovery.cpp:663-784 | reading any byte prefix returns exactly the entries wholly inside it |
| LogFileRecovery.WhenTornFlushIsRecovered | src/failure_recovery/failure_recovery.cpp:1355-1382 | over every run, early evictions and open checkpoints included: a crash while the buffer is written, leaving any byte prefix of the file, is read back as the old log and some of the buffer, and recovery finds what is committed in it if and only if it repairs every key; entries are read by table, primary key and columns |
| LogFileRecovery.TornFlushIsRecovered | src/failure_recovery/failure_recovery.cpp:1355-1382 | under the write-ahead rule and outside checkpoints it always does |
| LogReading.StoredIsEnough | src/storage_manager/storage_manager.cpp:1342-1390 | the table, the primary key (the column in the catalog, else the first common name) and the columns of a change depend only on the stored fields |
| LogReading.ChangesDiffer | src/failure_recovery/failure_recovery.cpp:986-1104 | nothing of a change is lost in reading it: who, which operation, which table, which columns with which values |
| LogReading.KeyColumnIs | src/storage_manager/storage_manager.cpp:1342-1390 | the key column is the one in the catalog if the row has it, else the first that it has of id, ID, Id, StudentID, CourseID, <table>_id, <table>ID |
| LogReading.ChangeIsRead | src/failure_recovery/failure_recovery.cpp:986-1104 | with a key column an insert, delete or update is read as one, of the row with that key, with its old and new columns |
| LogExactness.WhenEntryIsReadBack | src/failure_recovery/failure_recovery.cpp:663-760 | one entry of any operation, followed by anything, is read back if and only if each column it stores has a value |
| LogCodec.EntryExtends | src/failure_recovery/failure_recovery.cpp:710-760 | reading an entry does not look beyond it |
| LogCodec.AnyRoundTrip | src/failure_recovery/failure_recovery.cpp:491-536 | an int, float or string value, followed by anything |
| LogExactness.WhenRowIsReadBack | src/failure_recovery/failure_recovery.cpp:491-573 | a row, in whatever order its hash map is enumerated and whatever follows, is read back if and only if each of its columns has a value |
| LogCodec.SchemaRoundTrip | src/failure_recovery/failure_recovery.cpp:575-661 | a table schema with its foreign keys |
| LogCodec.WriteColumns | src/failure_recovery/failure_recovery.cpp:538-546 | the loop writes the count, then every column once, in some order |
| LogCodec.ReadColumns | src/failure_recovery/failure_recovery.cpp:548-559 | the loop reads the count and the pairs into a map |
| LogCodec.ReadAllLogs | src/failure_recovery/failure_recovery.cpp:762-784 | the loop to the end of the file or the first entry that cannot be read |
| LogExactness.LogTakes | src/failure_recovery/failure_recovery.cpp:491-784 | reading a log back takes at least the bytes that were written, and more if a value is missing |
| Binary.StringRoundTrip | src/failure_recovery/failure_recovery.cpp:475-489 | a string behind its 32-bit length, followed by anything |
| Binary.SignedRoundTrip | src/failure_recovery/failure_recovery.cpp:518-536 | a two's complement integer of any width |
| Binary.ByteAt | src/failure_recovery/failure_recovery.cpp:518-536 | byte i of a written integer is its i-th from the lowest |
| Binary.TornFile | src/failure_recovery/failure_recovery.cpp:762-784 | any prefix of a file of blocks, for any reader that is local and makes progress |
| Binary.PairsRoundTrip | src/failure_recovery/failure_recovery.cpp:538-559 | a map written in any order of its keys is read back |
| Binary.AppendBlocks | src/failure_recovery/failure_recovery.cpp:1370-1376 | the loop that appends blocks to a file |
| Binary.ReadPairs | src/failure_recovery/failure_recovery.cpp:553-557 | the loop that reads pairs into a map |
| BPlusTreeManager.BPTreeManager.constructor | src/storage_manager/bptree_index.cpp:48-49 | an empty index |
| BPlusTreeManager.BPTreeManager.Insert | src/storage_manager/bptree_index.cpp:207-244 | from any valid index, whole or split up to the root, the contents are the old ones with the value appended to the key's values, and the index is valid: well-formed, packed, chained, no node shared |
| BPlusTreeManager.BPTreeManager.InsertInternal | src/storage_manager/bptree_index.cpp:246-304 | the recursive insert refines the insert on trees, names its split, and touches only the subtree's nodes and new ones |
| BPlusTreeManager.BPTreeManager.InsertIntoLeaf | src/storage_manager/bptree_index.cpp:251-274 | the leaf branch, with its split |
| BPlusTreeManager.BPTreeManager.PlaceSplit | src/storage_manager/bptree_index.cpp:286-299 | a child's split key and new child go in beside it, and the node splits when overfull |
| BPlusTreeManager.BPTreeManager.SplitLeafNode | src/storage_manager/bptree_index.cpp:306-332 | both halves stored and linked; the split key is the right half's first |
| BPlusTreeManager.BPTreeManager.SplitInternalNode | src/storage_manager/bptree_index.cpp:334-356 | both halves stored; the middle key moves up |
| BPlusTreeManager.BPTreeManager.GrowRoot | src/storage_manager/bptree_index.cpp:227-241 | a new root over the two halves |
| BPlusTreeManager.BPTreeManager.Search | src/storage_manager/bptree_index.cpp:358-380 | on any store of nodes: what the descent's leaf lists under the key, or not found with no values |
| BPlusTreeManager.BPTreeManager.SearchIsExact | src/storage_manager/bptree_index.cpp:358-417 | on a valid index the search returns exactly the values the contents list under the key |
| BPlusTreeManager.BPTreeManager.FindLeaf | src/storage_manager/bptree_index.cpp:382-417 | the loop down to a leaf, giving up at a missing node, a bad child index or 100 levels |
| BPlusTreeManager.BPTreeManager.Remove | src/storage_manager/bptree_index.cpp:424-444 | every occurrence of the value leaves the key's values, the key goes with its last one, the rest stays and the index is valid |
| BPlusTreeManager.BPTreeManager.Erase | src/storage_manager/bptree_index.cpp:433-434 | the erase-remove loop |
| BPlusTreeManager.BPTreeManager.LeavesAreChained | src/storage_manager/bptree_index.cpp:306-332 | the leaf links from the first leaf visit the leaves in order, which list the contents in key order |
| BPlusTreeManager.BPTreeManager.BuildTree | src/storage_manager/bptree_index.cpp:102-127 | sorted data of at most 63 * 64 entries gives a valid index with exactly that content; every key is found with its values if and only if there are no more entries than that |
| BPlusTreeManager.BPTreeManager.BuildLeafLevel | src/storage_manager/bptree_index.cpp:129-170 | leaves of 63 entries each, in order, linked |
| BPlusTreeManager.BPTreeManager.BuildInternalLevel | src/storage_manager/bptree_index.cpp:172-205 | over at most 64 leaves one node, stored as the tree; over more, a search that misses |
| BPlusTreeManager.BPTreeManager.BuildLevel | src/storage_manager/bptree_index.cpp:176-202 | one level: nodes over groups of 64, listed upward under their first separator, a lone child's node dropped |
| BPlusTreeManager.BPTreeManager.FillLeaf | src/storage_manager/bptree_index.cpp:143-148 | the next 63 entries |
| BPlusTreeManager.BPTreeManager.FillNode | src/storage_manager/bptree_index.cpp:183-191 | the next 64 children |
| BPlusTreeManager.BPTreeManager.LosesOne | src/storage_manager/bptree_index.cpp:172-205 | more than 63 * 64 entries: some entry is not found |
| BPlusTree.PutIsMultimap | src/storage_manager/bptree_index.cpp:207-304 | inserting into a sorted list of entries appends to one key's values and leaves every other key's alone, sorted |
| BPlusTree.RemoveIsMultimap | src/storage_manager/bptree_index.cpp:424-444 | removing filters one key's values and leaves every other key's alone, sorted |
| BPlusTree.WithoutKeepsOthers | src/storage_manager/bptree_index.cpp:433-434 | no occurrence of the value is left, and every other value occurs as often as before |
| BPlusTreeInsert.PutKeepsWellFormed | src/storage_manager/bptree_index.cpp:246-356 | insert keeps order, separator bounds (left < key <= right), uniform depth and at most 63 keys, in the whole tree or in both halves |
| BPlusTreeInsert.PutEntriesOf | src/storage_manager/bptree_index.cpp:246-356 | and its entries are the old ones with the value put in |
| BPlusTreeInsert.SearchFinds | src/storage_manager/bptree_index.cpp:358-422 | the search path leads to the one leaf that can have the key |
| BPlusTreeInsert.EntriesSorted | src/storage_manager/bptree_index.cpp:419-422 | a well-formed tree's entries are in strict key order |
| BPlusTreeInsert.RemoveKeepsWellFormed | src/storage_manager/bptree_index.cpp:424-444 | remove keeps the tree well-formed, empty leaves allowed |
| BPlusTreeInsert.RemoveEntriesOf | src/storage_manager/bptree_index.cpp:424-444 | and its entries are the old ones with the value taken out |
| BPlusTreeNodes.PutIds | src/storage_manager/bptree_index.cpp:246-356 | an insert adds only fresh node numbers and shares none |
| BPlusTreeNodes.PutKeepsPacked | src/storage_manager/bptree_index.cpp:334-356 | insert keeps at least 31 keys in every internal node but the root |
| BPlusTreeNodes.RemoveKeepsPacked | src/storage_manager/bptree_index.cpp:424-444 | so does remove |
| BPlusTreeNodes.LeafCount | src/storage_manager/bptree_index.cpp:334-356 | with d >= 1 internal levels there are at least 2 * 32^(d-1) leaves |
| BPlusTreeNodes.HeightBound | src/storage_manager/bptree_index.cpp:382-417 | with node numbers below 2^31 there are at most 6 internal levels, so the 100-level cut-off is never reached |
| BPlusTreeNodes.LeafChain | src/storage_manager/bptree_index.cpp:306-332 | in a stored tree the leaf links are the in-order leaves |
| BPlusTreeDescent.DescendStored | src/storage_manager/bptree_index.cpp:382-417 | on a stored well-formed tree the loop reaches the leaf that can have the key |
| BPlusTreeDescent.RemoveStored | src/storage_manager/bptree_index.cpp:424-444 | changing that one leaf stores the tree after the remove |
| BPlusTreeDescent.NodeStored | src/storage_manager/bptree_index.cpp:276-303 | after the recursive call, writing this node stores the subtree with the child's split placed |
| BPlusTreeDescent.HalvesStored | src/storage_manager/bptree_index.cpp:334-356 | the two halves of a split internal node are stored |
| BulkLoad.BulkSound | src/storage_manager/bptree_index.cpp:102-205 | the bulk-loaded tree of at most 64 leaves is well-formed, packed, and within the node count |
| BulkLoad.BulkEntries | src/storage_manager/bptree_index.cpp:102-205 | its entries are the data |
| BulkLoad.BulkStored | src/storage_manager/bptree_index.cpp:129-205 | it is what the built nodes store |
| BulkLoad.AstrayFirstLevel | src/storage_manager/bptree_index.cpp:194-195 | over more than 64 leaves, the level above the leaves sends the 65th leaf's first key to the 64th leaf |
| BulkLoad.AstrayLevel | src/storage_manager/bptree_index.cpp:194-195 | and every further level keeps sending it there |
| BulkLoad.MissedSearch | src/storage_manager/bptree_index.cpp:358-417 | a search led astray ends in not found, whatever the depth allowed |
| StringKeys.EmbedOrder | src/storage_manager/bptree_index.cpp:419-422 | byte strings compare as their embeddings in the reals do, equal only if equal |
| NodeCodec.NodeRoundTrip | src/storage_manager/bptree_index.cpp:502-595 | a node of at most 63 keys, leaf or internal, is read back, whatever follows |
| NodeCodec.OverfullIsRefused | src/storage_manager/bptree_index.cpp:553-557 | a stored key count above 63 is refused |
| BufferPool.BufferManager.GetPage | src/storage_manager/buffer_manager.cpp:66-102 | the page comes pinned once more; at most the victim leaves the pool, and every page reads as before; it fails, changing nothing, only when the page is absent and the pool full of pinned pages |
| BufferPool.BufferManager.NewPage | src/storage_manager/buffer_manager.cpp:104-143 | an empty dirty pinned page whose number is beyond all in pool and file; every page reads as before |
| BufferPool.BufferManager.UnpinPage | src/storage_manager/buffer_manager.cpp:145-160 | one pin fewer, never below zero, dirty kept or set; an absent page changes nothing |
| BufferPool.BufferManager.EvictPage | src/storage_manager/buffer_manager.cpp:162-195 | the least recently used unpinned page goes, flushed if dirty; with all pages pinned it fails and nothing changes |
| BufferPool.BufferManager.FindVictim | src/storage_manager/buffer_manager.cpp:162-178 | the loop finds an unpinned page of oldest access, or tells there is none |
| BufferPool.BufferManager.FlushPageInternal | src/storage_manager/buffer_manager.cpp:370-454 | the page's rows are what the file then reads as, and no other page of any file changes |
| BufferPool.BufferManager.FlushPage | src/storage_manager/buffer_manager.cpp:212-221 | a dirty page to disk, clean afterwards, and no other page of any file changes; an absent or clean page changes nothing |
| BufferPool.BufferManager.FlushAll | src/storage_manager/buffer_manager.cpp:197-210 | the loop writes exactly the dirty pages, which are clean afterwards; every other page of every file is as before |
| BufferPool.BufferManager.Checkpoint | src/storage_manager/buffer_manager.cpp:250-270 | the same; the disk then reads as the pool and the disk did together if and only if no clean page differed from its disk, as when no page is pinned |
| BufferPool.BufferManager.GetMaxPageId | src/storage_manager/buffer_manager.cpp:30-51 | the largest page number of the table in pool or file, -1 without any |
| BufferPool.BufferManager.constructor | src/storage_manager/buffer_manager.cpp:11-14 | an empty pool over the files |
| BufferPool.BufferManager.SetRows | src/storage_manager/storage_manager.cpp:281-283 | what the holder of a pin does to the rows: that page reads as the new rows, all others as before |
| BufferPool.FlushReads | src/storage_manager/buffer_manager.cpp:370-454 | after a flush of complete rows, which may lengthen the file with zeros, that page reads as those that fit up to the first that starts with zero, so as its rows if and only if they fit and none does; every other page as before |
| BufferPool.FlushKeeps | src/storage_manager/buffer_manager.cpp:370-454 | a flush changes what no page reads as and keeps the pool's pages flushable |
| PageCodec.PageRoundTrip | src/storage_manager/buffer_manager.cpp:340-405 | loading a flushed page, cut off at 4096 bytes or not, returns the rows that fit up to the first that starts with four zero bytes; so the rows if and only if they fit and none starts so |
| PageCodec.TornRows | src/storage_manager/buffer_manager.cpp:340-365 | reading rows cut off at any byte returns those before the cut, up to the first that starts with zero |
| PageCodec.CompleteRoundTrip | src/storage_manager/buffer_manager.cpp:456-531 | a complete typed row, followed by anything |
| PageCodec.ZeroRow | src/storage_manager/buffer_manager.cpp:345-355 | a row looks like padding if and only if its first column is 0, 0.0 or empty |
| PageCodec.SerialiseRows | src/storage_manager/buffer_manager.cpp:391-397 | the loop over the rows |
| PageCodec.DeserialiseRows | src/storage_manager/buffer_manager.cpp:340-365 | the loop that stops at padding, at a short tail or at bytes that are no row |
| PageCodec.EstimateIsExact | src/storage_manager/storage_manager.cpp:1405-1427 | for a complete row the reckoned size is the encoded size |
| PageCodec.InsertFits | src/storage_manager/storage_manager.cpp:253-265 | what the insert guard admits leaves the page within 4096 bytes and readable |
| PagedTable.StorageEngine.InsertBlock | src/storage_manager/storage_manager.cpp:213-293 | the table's list gets the row at its end, on its last page if it fits there, else on an empty one behind all rows; count 1, pins as before, other tables untouched; it fails, and changes nothing, if and only if the pool is full of pinned pages and the last page is not in it or has no room |
| PagedTable.StorageEngine.UpdateBlock | src/storage_manager/storage_manager.cpp:295-346 | the list keeps its length and order; a row that matches has the new value in each named column that has one and the old ones elsewhere, the others are as they were; the count is the matches; pins as before; it fails if and only if the pool is full of pinned pages and a page of the table is not in it |
| PagedTable.StorageEngine.DeleteBlock | src/storage_manager/storage_manager.cpp:348-405 | the list is the old one without the matches, in order; the count is the matches; pins as before; it fails if and only if the pool is full of pinned pages and a page of the table is not in it |
| PagedTable.StorageEngine.FullScan | src/storage_manager/storage_manager.cpp:160-211 | the matches in order, each with those of the columns that it has, or whole for "*"; nothing changes, pins as before; it fails if and only if the pool is full of pinned pages and a page of the table is not in it |
| PagedTable.StorageEngine.ChoosePage | src/storage_manager/storage_manager.cpp:245-270 | the last page if the row fits, else an empty one behind all rows; it fails exactly when neither can be had |
| PagedTable.SameObtainable | src/storage_manager/buffer_manager.cpp:81-178 | while the pins stay, whatever is loaded and evicted, the same pages can be had: all, unless the pool is full of pinned pages, and then those in it |
| PagedTable.DeleteFromPage | src/storage_manager/storage_manager.cpp:376-395 | the backward loop leaves exactly the rows that do not match, in order, and counts the others |
| PagedTable.UpdatePage | src/storage_manager/storage_manager.cpp:313-339 | the loop gives exactly the matches the new values, column by column, in their places, and counts them |
| PagedTable.ScanPage | src/storage_manager/storage_manager.cpp:186-204 | the loop collects the matches in order, each with those of the columns that it has |
| PagedTable.TotalSize | src/storage_manager/storage_manager.cpp:253-257 | the loop adds up the page's row sizes |
| PagedTable.AllPages | src/storage_manager/storage_manager.cpp:176-405 | an operation on every page is the operation on the concatenation, count included |
| PagedTable.OneMore | src/storage_manager/storage_manager.cpp:281-283 | a row pushed onto the last page is a row at the end of the list |
| PagedTable.HoldsOneList | src/storage_manager/storage_manager.cpp:176-179 | a table holds exactly one list of rows |
| PagedTable.DeleteKeepsFit | src/storage_manager/storage_manager.cpp:376-395 | a page stays flushable under deletes |
| PlanRewriting.RewritingKeepsMeaning | src/query_optimizer/optimizer/optimizer_rules.cpp:269-271 | split, reordered and pushed down, a plan yields the same sequence of rows, and nowhere in it stands a selection right above a join that belongs to one side |
| PushdownSelection.PushdownKeepsMeaning | src/query_optimizer/optimizer/optimizer_rules.cpp:110-178 | pushed down, a plan yields the same sequence of rows when each selection depends on its one table |
| PushdownSelection.PushdownIsComplete | src/query_optimizer/optimizer/optimizer_rules.cpp:110-178 | no selection that belongs on one side stands directly above a join |
| PushdownTargets.NothingIsMisplaced | src/query_optimizer/optimizer/optimizer_rules.cpp:110-178 | nowhere in the pushed-down plan stands a selection right above a two-child join such that the first condition its text speaks of is about a table that is the alias of a scan within exactly one of the children |
| PushdownTargets.WhenPushed | src/query_optimizer/optimizer/optimizer_rules.cpp:121-174 | a selection is pushed to a side if and only if that holds of the side |
| PushdownTargets.TablesAreScanned | src/query_optimizer/optimizer/optimizer_helper.cpp:28-38 | the collected tables are the aliases of the scans within the plan |
| QueryTexts.TableIs | src/query_optimizer/optimizer/optimizer_helper.cpp:12-18 | the table of a column is what stands before its first dot, nothing without a dot |
| QueryTexts.AliasIs | src/query_optimizer/optimizer/optimizer_helper.cpp:20-26 | the alias is what stands behind the last space, without outer blanks, or the whole text |
| QueryTexts.MatchIsFirst | src/query_optimizer/optimizer/optimizer_rules.cpp:130-137 | the condition found is the first whose column and operator occur in the text |
| PushdownSelection.Pushdown | src/query_optimizer/optimizer/optimizer_rules.cpp:110-178 | the pass terminates (on tree size, over the re-entry on the rebuilt child) and keeps tree size and set of tables |
| PushdownSelection.SwapKeeps | src/query_optimizer/optimizer/optimizer_rules.cpp:121-174 | moving one selection below one join |
| PushdownSelection.PushdownPass | src/query_optimizer/optimizer/optimizer_rules.cpp:110-178 | the in-place pass refines the function |
| PushdownSelection.PushdownKids | src/query_optimizer/optimizer/optimizer_rules.cpp:115-117 | its loop over the children |
| PushdownSelection.PushHere | src/query_optimizer/optimizer/optimizer_rules.cpp:119-175 | its step at one node |
| SelectionChains.Split | src/query_optimizer/optimizer/optimizer_rules.cpp:13-43 | the pass terminates, though it re-enters the same node, and adds no text |
| SelectionChains.SplitKeepsMeaning | src/query_optimizer/optimizer/optimizer_rules.cpp:13-43 | the split plan yields the same sequence of rows |
| SelectionChains.SplitChain | src/query_optimizer/optimizer/optimizer_rules.cpp:13-43 | each selection of a chain becomes one for each of its conjuncts, in order |
| SelectionChains.SplitChainByText | src/query_optimizer/optimizer/optimizer_rules.cpp:13-43 | said of the texts: each is cut at its first " AND ", both sides lose their outer blanks, and the right one is cut further |
| SelectionChains.ConjunctsByText | src/query_optimizer/optimizer/optimizer_rules.cpp:24-28 | and there is one such list of parts |
| SelectionChains.LeftHasNoAnd | src/query_optimizer/optimizer/optimizer_rules.cpp:24-28 | left of the first AND there is none |
| SelectionChains.SplitPass | src/query_optimizer/optimizer/optimizer_rules.cpp:13-43 | the in-place pass refines the function |
| ReorderSelections.ReorderKeepsMeaning | src/query_optimizer/optimizer/optimizer_rules.cpp:45-108 | the reordered plan yields the same sequence of rows |
| ReorderSelections.ReorderSortsChains | src/query_optimizer/optimizer/optimizer_rules.cpp:45-108 | every maximal chain becomes its stable sort on the same bottom |
| ReorderSelections.SortIsStable | src/query_optimizer/optimizer/optimizer_rules.cpp:85-93 | falling score, unmatched last, ties in their old order |
| ReorderSelections.SortIsByOperator | src/query_optimizer/optimizer/optimizer_rules.cpp:53-93 | said of the operators: = first, then < and >, <= and >=, unknown ones, LIKE, !=, and texts without a condition last; texts of one rank keep their order |
| ReorderSelections.StableSortIsUnique | src/query_optimizer/optimizer/optimizer_rules.cpp:85-93 | nothing else is a stable sort of the chain |
| ReorderSelections.CollectChain | src/query_optimizer/optimizer/optimizer_rules.cpp:53-83 | the loop down the chain |
| ReorderSelections.RebuildChain | src/query_optimizer/optimizer/optimizer_rules.cpp:95-102 | the loop that puts the selections back |
| ReorderSelections.ReorderPass | src/query_optimizer/optimizer/optimizer_rules.cpp:45-108 | the in-place pass refines the function |
| PushdownSelection.FilterLeft | src/query_processor/query_processor.cpp:1617-1647 | filtering an inner nested-loop join by a condition on the left side is joining the filtered left side |
| PushdownSelection.FilterRight | src/query_processor/query_processor.cpp:1617-1647 | the same for the right side |
| PlanTrees.MeaningFrom | src/query_optimizer/optimizer/optimizer_helper.cpp:28-38 | the rows of a plan have records of no tables but the collected ones |

## Left out

Weaker or narrower than the source, on purpose:

- TwoPhaseLockingSafety.RunsAreSerialisable: an abort puts its before-images back at once; `DelayedUndo` lets the undo come later, as the source does, and says when that makes no difference.
- Serialisability.Simulation: the same, as are the two equivalences built on it.
- Serialisability.SerialEquivalence: the same.
- Serialisability.SerialEquivalenceAtRest: the same.
- DelayedUndo.DelayedRunsAreSerialisable: is for schedules that overwrite nothing that is still to be undone. When something is, an overwritten value can be lost and the loss be hidden by a later write, so the exact condition is about who reads from whom (`DelayedUndo.EveryScheduleIsDecided`).
- TimestampOrdering.TimestampOrderIsSerial: is about the granted accesses of all transactions; `TimestampFailures` adds that failed ones are undone.
- TimestampOrdering.TimestampCCManager.RunsAreSerial: the same.
- TimestampFailures.UnfailedAreSerial: the same as for locking; the condition for all schedules is `TimestampFailures.EveryFailureIsDecided`.
- RecoveryRuns.ActionKeeps: eviction waits for the key's buffered changes, which the source's buffer pool does not; `RecoveryExactness` drops the rule and says exactly what then is recovered.
- RecoveryRuns.RunsAreSound: the same.
- FailureRecovery.FailureRecoveryManager.WriteLog: a log entry and its effect on the row are one step; an INSERT or DELETE result without a row has no effect, where the source's redo would insert an empty row.
- FailureRecovery.FailureRecoveryManager.AbortTransaction: is one step for other callers; the source gives up its mutex between the parts of an abort.
- FailureRecovery.FailureRecoveryManager.UndoOperation: entries that create or drop tables have no effect on rows here.
- FailureRecovery.FailureRecoveryManager.RedoOperation: the store is keyed, so an insert of a row that is there changes nothing; the source's insert appends, and nothing is claimed for bags of rows.
- FailureRecovery.FailureRecoveryManager.RecoverFromCrash: the crash marker file and the choice whether to recover at start are left out.
- FailureRecovery.CrashAndRestart: crashes between calls only (those within a call are runs of `RecoveryRuns`), and one incarnation's log: identifiers restart with each process and losers get no ABORT entry, so several incarnations sharing a log are not covered.
- FailureRecovery.FailureRecoveryManager.constructor: the marker file is left out.
- FailureRecovery.FailureRecoveryManager.Restart: always recovers; the new process starts a new run.
- FailureRecovery.FailureRecoveryManager.RedoPhase: entries that create or drop tables have no effect on rows here.
- FailureRecovery.FailureRecoveryManager.UndoPhase: the same.
- FailureRecovery.FailureRecoveryManager.EvictPage: a page is one key's row here.
- RecoveryRuns.EveryCrashIsRecovered: one way, for runs under the write-ahead rule and outside checkpoints; the equivalence for all runs is `RecoveryExactness.WhenRecoveryFindsCommitted`. Rows keep their primary keys and each operation logs the one row it changed.
- CrashRecovery.RecoveryRestoresCommitted: the store is keyed.
- CrashRecovery.RecoveryIsIdempotent: the store is keyed.
- RecoveryExactness.WhenRecoveryFindsCommitted: the store is keyed and a page is one row; so for the other theorems of the module.
- CrashRecovery.RecoveryIsDecided: the store is keyed.
- KeyedStore.CellIsRecovered: an insert of a row that is there changes nothing; so for the two lemmas on any state.
- KeyedStore.UndoFromAnyPoint: columns hold opaque integers.
- KeyedStore.RedoFromAnyPoint: an insert of a row that is there changes nothing, as redo's own warning assumes; the source's insert appends.
- KeyedStore.CellRecovery: the same.
- LogCodec.TornLog: a string whose length itself is cut off makes the read fail; the source then reads on with an uninitialised length. Stored columns must have a value, since a file with another entry is not read back (`LogExactness.WhenLogIsReadBack`).
- LogFileRecovery.WhenTornFlushIsRecovered: as for `LogCodec.TornLog` and `RecoveryExactness.WhenRecoveryFindsCommitted`; a row without a key column changes nothing, where the source still inserts it.
- BPlusTreeManager.BPTreeManager.Insert: needs room for eight more nodes below 2^31, because the source's counter is an int that would overflow.
- BPlusTreeManager.BPTreeManager.BuildTree: the nodes stay in the cache, as the source writes only the header of a bulk-loaded tree.
- BPlusTreeManager.BPTreeManager.Search: every node is in the cache; reading a missing node from the file is not modelled.
- BPlusTreeManager.BPTreeManager.FindLeaf: the same.
- NodeCodec.NodeRoundTrip: where in the file a node stands is not modelled.
- BufferPool.BufferManager.EvictPage: ties in age go to any page, where the source takes the smallest key; a page whose schema is not registered may not be dirty.
- BufferPool.BufferManager.NewPage: the table's schema must be registered, because the source silently drops the page otherwise.
- BufferPool.BufferManager.UnpinPage: a changed page must be returned as dirty, because the source loses the change otherwise.
- BufferPool.BufferManager.SetRows: the rows must be flushable, because the source throws on incomplete rows at the flush and cuts off what does not fit (`BufferPool.FlushReads` says what is left).
- BufferPool.BufferManager.FlushPageInternal: the same.
- BufferPool.FlushKeeps: the same.
- BufferPool.FlushReads: rows must be complete, because the source throws otherwise.
- BufferPool.BufferManager.GetPage: the clock is a parameter; several holders of one page are seen through its pin count only.
- PagedTable.StorageEngine.UpdateBlock: every page must still fit its 4096 bytes after the update; `PageCodec.PageRoundTrip` says exactly which rows the source loses otherwise.
- PagedTable.StorageEngine.InsertBlock: the row must be complete, fit a page and not start with four zero bytes, because the source would throw at the flush, cut off or lose it.
- PagedTable.StorageEngine.DeleteBlock: when the pool is full of pinned pages the operation stops with the earlier pages done, as the source's exception does.
- PagedTable.StorageEngine.FullScan: the conditions are a predicate on rows; comparing values, and floats in particular, is not modelled.
- PageCodec.CompleteRoundTrip: a double in a FLOAT column is taken as already narrowed to its four bytes.
- PlanRewriting.RewritingKeepsMeaning: as for the three passes.
- PushdownSelection.SwapKeeps: as for the pass.
- ReorderSelections.ReorderKeepsMeaning: a selection is taken to have one child.
- PushdownSelection.PushdownKeepsMeaning: a selection's text is taken to depend only on the table of the condition found in it; conditions over two tables are outside, since the source looks at the left column only.
- SelectionChains.SplitKeepsMeaning: a selection is taken to have one child, and a text with AND to hold where both sides hold.

Not in the model:

- Asking a concurrency manager for a transaction's status, which reads one field.
- Deadlock freedom and liveness of two-phase locking: waiting behind a queue adds no edge, and only the first S holder gets one.
- Updates in place of transaction records, index nodes and plan nodes: their owners' maps hold them as values, so aliasing between them is not captured.
- Integer width of transaction and log identifiers (the identifiers in a checkpoint's list are 32-bit).
- The hash that identifies a record: records are abstract and distinct.
- OR in conditions, redundant projections, the cost model, null children of plan nodes.
- Index and table agreement, the hash index, offsets after rows move.
- DDL recovery, the text log, statistics, metadata and schema files.
- SQL parsing, sockets, the client, the user interface, threads, real files and clocks.
