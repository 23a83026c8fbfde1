# Model of the distributed cache store

This project models, in Dafny, the parts of the cache store whose state has to agree with something simpler, and proves
that it does, or says exactly when it does not.

* **Transactions.** `WaitGraph` is the depth-first cycle search over the wait-for graph; `LockManager` the three lock
  tables, the wait graph and the background deadlock pass; `CircularWaits` says when a wait edge stands for a lock that is
  held; `Transactions` is the transaction manager as a state machine over its calls, with the class that implements those
  steps; `TransactionRuns` says what whole runs make of isolation levels, votes, activity and locks; `Serializability` the theory of histories that turns strict locking into serializability. A call that would block
  is one attempt that answers "must wait" and leaves its wait edge; asking again is a new attempt and running into the
  deadline is a step of its own.
* **Storage.** `Crc32c` is the table-driven checksum against the bit-serial one; `Wal` the framed log and its replay;
  `SsTable` the table file, its index and the binary search; `MemTable` the in-memory table and its accounting. `Layers`
  and `MergedScan` compare a stack of maps with one plain map. `Disk` is the same stack with each table as file bytes and a
  loaded index, and shows that it refines the stack of maps. `Recovery` says what the engine logs and what replaying that
  rebuilds; `Restarts` runs the engine over operations, compactions, restarts and crashes on the bytes of its log and table
  files; `LsmTree` is the engine class, proved against `Disk` and `Restarts`. `Keys` and `Ranges` hold the key order and
  range queries. A file is a sequence of bytes.
* **Cluster.** `Partitions` is the breadth-first search over a connectivity matrix, `Quorum` the quorum arithmetic and the
  split-brain detector's round, `DetectorRuns` what runs of heartbeats and rounds make of each node.
* **Time.** `HybridClock` is the hybrid logical clock as a protocol of many nodes, and timestamp ordering; `NtpTime` the
  two fixed-point conversions; `MedianOffset` the robust median and the vote over known nodes.

Methods are atomic steps, and clock readings, vote answers and whether a file opens are arguments of the step. A
specification function describes each state change; the class method is proved equal to it, and the theorems are about
the function over all inputs, states and runs. `Bytes`, `Collections` and `Results` hold fixed-width integers, lists without
duplicates and result types.

Where the code and its documentation disagree the model follows the code. The main cases, each proved:

* A tombstone does not end a `get`: a removed key reads as removed only if no older layer still holds it live
  (`Layers.RemoveTakesEffect`, `Layers.RemovedValueComesBack`).
* Tombstones count against a scan's limit, so that a range scan can return a stale value (`MergedScan.StaleRangeScan`); a
  scan whose start is after its end can return entries past the end (`Ranges.BackwardVisits`).
* A put refused for its size is logged all the same; over 1 MiB it keeps the engine from ever opening again
  (`Restarts.RejectedPutPoisonsLog`).
* A crash can leave a piece of a record behind. The next start accepts up to seven bytes of it, and what is logged after them
  is read with a wrong length (`Wal.TornHeader`, `Restarts.TornHeaderThenPut`). An earlier value that survives in the log
  hides a later one that is safe in a table (`Restarts.CrashHidesFlushed`).
* Compaction takes the two oldest tables out of memory and then fails, so that what only they hold is not found until the
  next restart (`Layers.CompactionSurvivedIff`, `Layers.CompactionLoses`).
* A primary key with a colon is lost after its table's index is loaded again, and can take colon-free keys of the same table
  with it, because the index is then out of order (`SsTable.ColonKeyIsLost`, `SsTable.NeighbourIsLost`).
* Expired transactions are promised to be cleaned up, but the abort refuses them, and a refused prepare drops the
  transaction: in both cases the locks stay for good (`Transactions.LocksReleasableIffAlive`).
* A prepared transaction never commits, because commit asks for the active state (`TransactionRuns.PreparedNeverCommits`), and
  READ_COMMITTED, REPEATABLE_READ and SERIALIZABLE take the same locks, held to the end (`TransactionRuns.ReadsRepeat`).
* Automatic deadlock resolution never acts, since no checked wait closes a cycle (`LockManager.DefaultLockManager.DetectionPass`);
  wait edges outlive the locks they stand for, and a transaction without any lock can be refused as a deadlock
  (`CircularWaits.RefusedWithoutLocks`), while a circular wait through any but the first holder in the way is not noticed
  (`CircularWaits.LaterHolderIsMissed`).
* The dynamic quorum asks no more nodes than the static one, and every strategy but MAJORITY lets two sides of a large enough
  cluster go on (`Quorum.QuorumSplitsIff`); decision validation does not look at the membership (`Quorum.StrangersValidate`).
* The log keeps neither version, timestamp nor deletion mark of an entry (`Wal.EntryRoundTrip`).
* A merge with a received clock value can go back behind the receiver's own last timestamp; `HybridClock.CausalityIff` says when.

## Model

| member | source | states |
|---|---|---|
| `WaitGraph.Dfs` | src/transaction/transaction_manager.cpp:275-303 | the recursive search terminates; on success the path is simple and its last node has an edge back onto it, on failure everything it visited is finished and path and stack are as before |
| `WaitGraph.FindCycle` | src/transaction/transaction_manager.cpp:270-309 | sound and complete: empty iff no cycle is reachable from the start, otherwise a simple path from the start ending in a cycle |
| `WaitGraph.FinishedHasNoLasso` | src/transaction/transaction_manager.cpp:275-303 | no path that runs into a cycle starts at a node the search has finished: why skipping visited nodes is safe |
| `WaitGraph.CheckedEdgeKeepsAcyclic` | src/transaction/transaction_manager.cpp:39-52 | an edge after which nothing is found from its source keeps the whole graph acyclic |
| `WaitGraph.FoundPathIsCycle` | src/transaction/transaction_manager.cpp:43-52 | the path found right after adding an edge to an acyclic graph is itself a cycle through the requester |
| `LockManager.DeadlockIffHolderWaits` | src/transaction/transaction_manager.cpp:39-52 | a request is refused as a deadlock iff the holder already waits, directly or not, for the requester |
| `LockManager.AcquireKeepsInv` | src/transaction/transaction_manager.cpp:18-96 | one attempt keeps: three tables describe the same locks without duplicates or empty buckets, locks of different transactions on a key are compatible, waits are acyclic |
| `LockManager.ReleaseAllIsExact` | src/transaction/transaction_manager.cpp:138-160 | releasing a transaction removes exactly its locks |
| `LockManager.InvariantOverRuns` | src/transaction/transaction_manager.cpp:18-160 | the invariant holds after every run of acquire, time-out, release and release-all steps by any number of transactions |
| `LockManager.CompatibleSymmetric` | src/transaction/transaction_manager.cpp:251-268 | the compatibility table does not depend on who came first |
| `LockManager.CompatibleIff` | src/transaction/transaction_manager.cpp:251-268 | two modes stand beside each other in the table iff nothing one allows collides with what the other allows: one of the two a change, and not both left to the locks on parts |
| `LockManager.GrantedIff` | src/transaction/transaction_manager.cpp:25-42 | in every reachable state a request is granted iff it goes together with every lock that others hold on the key |
| `LockManager.HeldTogetherIff` | src/transaction/transaction_manager.cpp:18-160 | over all runs: two transactions can hold two given modes on one key at once iff the modes go together |
| `LockManager.GrantAdds` | src/transaction/transaction_manager.cpp:77-89 | a grant adds one lock of the mode asked for, and nothing else changes who holds what |
| `LockManager.AcquirableIsGranted` | src/transaction/transaction_manager.cpp:169-188 | what `can_acquire_lock` says is what `acquire_lock` then does, for a transaction holding nothing on the key in both directions |
| `CircularWaits.AcquireKeepsGenuine` | src/transaction/transaction_manager.cpp:18-96 | an attempt never makes an edge stale: each edge target still holds a lock that conflicts with the request behind the edge |
| `CircularWaits.ReleaseKeepsGenuineIff` | src/transaction/transaction_manager.cpp:98-136 | releasing one lock leaves no stale edge iff nobody waits for just that lock |
| `CircularWaits.ReleaseAllKeepsGenuineIff` | src/transaction/transaction_manager.cpp:138-160 | releasing a transaction leaves no stale edge iff nobody waits for it |
| `CircularWaits.NeverStaleIff` | src/transaction/transaction_manager.cpp:18-160 | over all runs: no edge is ever stale iff nothing is released that someone waits for |
| `CircularWaits.EdgesAre` | src/transaction/transaction_manager.cpp:39-160 | over all runs: the wait graph has an edge for each wait answered and not ended since by a grant, a refusal at that holder, the deadline, or the release of a transaction that holds a lock |
| `CircularWaits.RefusalIsCircularWait` | src/transaction/transaction_manager.cpp:39-52 | while no edge is stale: a request is refused iff it would close a circular wait through the first holder in its way, a chain of transactions each waiting for the next, which holds a lock its request needs |
| `CircularWaits.RefusalsAreReal` | src/transaction/transaction_manager.cpp:39-52 | hence the same in every run that releases only what nobody waits for |
| `CircularWaits.RefusedWithoutLocks` | src/transaction/transaction_manager.cpp:138-160 | counter-example: after a release that was waited for, a transaction holding no lock is refused as a deadlock |
| `CircularWaits.LaterHolderIsMissed` | src/transaction/transaction_manager.cpp:25-52 | counter-example: a circular wait through the second holder, and the request is told to wait for the first |
| `LockManager.DefaultLockManager.AcquireLock` | src/transaction/transaction_manager.cpp:18-96 | state and answer are those of the specified attempt, and the invariant is kept |
| `LockManager.DefaultLockManager.CheckWait` | src/transaction/transaction_manager.cpp:39-52 | the wait edge is added, the cycle search run, and the edge withdrawn exactly when a cycle is reachable from the requester |
| `LockManager.DefaultLockManager.Record` | src/transaction/transaction_manager.cpp:77-93 | a granted lock is entered in all three tables under a new id and the requester waits no more |
| `LockManager.DefaultLockManager.GiveUp` | src/transaction/transaction_manager.cpp:54-71 | the deadline withdraws the wait edge and nothing else |
| `LockManager.DefaultLockManager.ReleaseLock` | src/transaction/transaction_manager.cpp:98-136 | removes exactly that lock from all three tables, or reports that there is none |
| `LockManager.DefaultLockManager.ReleaseAllLocks` | src/transaction/transaction_manager.cpp:138-160 | the loop over the transaction's lock ids ends in the specified release of all its locks |
| `LockManager.DefaultLockManager.CanAcquireLock` | src/transaction/transaction_manager.cpp:169-188 | true iff every lock held on the key is compatible |
| `LockManager.DefaultLockManager.DetectDeadlocks` | src/transaction/transaction_manager.cpp:209-228 | empty iff the whole wait graph is acyclic; every path returned ends in a cycle |
| `LockManager.DefaultLockManager.ResolveDeadlock` | src/transaction/transaction_manager.cpp:230-243 | releases all locks of the largest transaction id of the cycle, and refuses an empty one |
| `LockManager.DefaultLockManager.DetectionPass` | src/transaction/transaction_manager.cpp:830-845 | in every reachable state the background pass finds nothing and changes nothing |
| `Serializability.Commute` | src/transaction/transaction_manager.cpp:251-268 | operations of different transactions whose locks are compatible can change places without changing what is read or stored |
| `Serializability.ConflictOrderIsSerial` | src/transaction/transaction_manager.cpp:251-268 | if every conflict follows an order of the transactions, running them one by one in that order reads and stores the same |
| `Serializability.CommitsBeforeConflict` | src/transaction/transaction_manager.cpp:412-488 | of two conflicting operations of committed transactions, the earlier one's transaction committed before the later operation |
| `Serializability.CommitOrderIsSerialOrder` | src/transaction/transaction_manager.cpp:386-640 | for every strict history, commit order is an equivalent serial order: same values read by every read, same final store |
| `Transactions.StepKeepsSound` | src/transaction/transaction_manager.cpp:386-698 | every call keeps: lock invariant, operations of unfinished transactions still hold their locks, history strict, nothing after commit or abort |
| `Transactions.RunIsSound` | src/transaction/transaction_manager.cpp:386-698 | hence every state reached by any sequence of calls keeps it |
| `Transactions.RunsAreStrict` | src/transaction/transaction_manager.cpp:527-640 | in every run a conflicting operation comes only after the earlier transaction committed or aborted |
| `Transactions.RunsAreSerializable` | src/transaction/transaction_manager.cpp:386-640 | every run of all calls is serializable in commit order (lock-free reads at READ_UNCOMMITTED left out of the comparison) |
| `Transactions.UncommittedReadsAreNotSerializable` | src/transaction/transaction_manager.cpp:527-570 | counter-example: with READ_UNCOMMITTED reads counted, a run equals neither serial order |
| `Transactions.LocksReleasableIffAlive` | src/transaction/transaction_manager.cpp:490-525 | a held lock can still be released by some later run iff its transaction is known and not expired |
| `Transactions.GoneWriterBlocksKey` | src/transaction/transaction_manager.cpp:860-877 | while a gone transaction holds an exclusive lock no locking operation of another one on the key succeeds, in any later run |
| `TransactionRuns.ClashesWait` | src/transaction/transaction_manager.cpp:527-640 | in every run, of a read and a change or two changes of one key by different transactions, no read at READ_UNCOMMITTED, the later comes after the earlier transaction committed or aborted |
| `TransactionRuns.NoDirtyRead` | src/transaction/transaction_manager.cpp:527-570 | in every run a read above READ_UNCOMMITTED sees no write or remove of a transaction that is still open |
| `TransactionRuns.ReadsRepeat` | src/transaction/transaction_manager.cpp:541-543 | above READ_UNCOMMITTED, READ_COMMITTED included: between a read of a key and any later operation of that transaction nobody else changes the key |
| `TransactionRuns.UncommittedReadIsFree` | src/transaction/transaction_manager.cpp:541-543 | in every run a read of a live transaction at READ_UNCOMMITTED succeeds at once and leaves the locks alone |
| `TransactionRuns.AccessDoneIff` | src/transaction/transaction_manager.cpp:527-675 | an attempt succeeds iff the transaction is known and was active within its time-out and, unless it reads at READ_UNCOMMITTED, the lock (shared for a read, exclusive for a write or remove, the one asked for by `lock`) goes together with the locks of others; the other answers are the lock manager's |
| `TransactionRuns.LevelsOverRuns` | src/transaction/transaction_manager.cpp:386-410 | in every run ids are given in order, levels are those asked for, and the operations without a lock are the reads at READ_UNCOMMITTED |
| `TransactionRuns.RecordsOverRuns` | src/transaction/transaction_manager.cpp:386-698 | in every run an open transaction's record holds the manager's time-out, the time of its last success, the last vote of each participant, and whether it was prepared |
| `TransactionRuns.LocksAreOperations` | src/transaction/transaction_manager.cpp:527-675 | in every run an open transaction holds exactly the locks of its recorded operations, which are its operations in the history: nothing is released before the end |
| `TransactionRuns.LocksFollow` | src/transaction/transaction_manager.cpp:412-675 | in every run locks and wait graph are those of a lock manager asked for one lock per locking operation and one release per commit or abort |
| `TransactionRuns.OpenIff` | src/transaction/transaction_manager.cpp:386-525 | a transaction is on record iff it was begun and no commit, done or refused by a vote, and no abort has ended it |
| `TransactionRuns.RefusedIff` | src/transaction/transaction_manager.cpp:860-877 | in every run a call is answered unknown iff its transaction is not open, and expired iff it is open and was idle for longer than the time-out |
| `TransactionRuns.CommitAnswer` | src/transaction/transaction_manager.cpp:412-488 | in every run, from the calls before it: when a commit is done, refused because of a prepare, or refused because of a vote |
| `TransactionRuns.CommittedIff` | src/transaction/transaction_manager.cpp:412-488 | over all runs: exactly the transactions commit that have a commit call while open, not idle too long, never prepared, and with every participant's last vote yes |
| `TransactionRuns.PreparedNeverCommits` | src/transaction/transaction_manager.cpp:677-698 | over all runs: a transaction whose prepare call succeeded never commits |
| `TransactionRuns.RefusedCommitKeepsLocks` | src/transaction/transaction_manager.cpp:445-451 | a commit refused by a vote drops the transaction and leaves every lock |
| `Transactions.DefaultTransactionManager.Start` | src/transaction/transaction_manager.cpp:344-361 | the manager runs and no transaction or lock changes |
| `Transactions.DefaultTransactionManager.Stop` | src/transaction/transaction_manager.cpp:363-382 | the manager stops and no transaction or lock changes |
| `Transactions.DefaultTransactionManager.BeginTransaction` | src/transaction/transaction_manager.cpp:386-410 | refused when not running, otherwise the next id with an empty, active transaction |
| `Transactions.DefaultTransactionManager.ValidateTransaction` | src/transaction/transaction_manager.cpp:860-877 | unknown, expired or fine, in that order |
| `Transactions.DefaultTransactionManager.AccessKey` | src/transaction/transaction_manager.cpp:527-675 | read, write, remove and lock: validation, the lock the operation needs, then the operation recorded; state and answer as specified |
| `Transactions.DefaultTransactionManager.CommitTransaction` | src/transaction/transaction_manager.cpp:412-488 | commit only from ACTIVE; votes decide; locks released on success and left behind when the prepare is refused |
| `Transactions.DefaultTransactionManager.AbortTransaction` | src/transaction/transaction_manager.cpp:490-525 | abort releases all locks and is refused for unknown and expired transactions |
| `Transactions.DefaultTransactionManager.PrepareTransaction` | src/transaction/transaction_manager.cpp:677-698 | only from ACTIVE, to PREPARED, locks untouched |
| `Transactions.DefaultTransactionManager.HandlePrepareResponse` | src/transaction/transaction_manager.cpp:1013-1027 | records the participant's vote, unknown transactions ignored |
| `Transactions.DefaultTransactionManager.CleanupExpiredTransactions` | src/transaction/transaction_manager.cpp:791-808 | changes nothing: each expired transaction it collects is refused by abort |
| `Transactions.DefaultTransactionManager.DeadlockDetectionPass` | src/transaction/transaction_manager.cpp:830-854 | never takes a lock from anyone |
| `Crc32c.Engine.InitTable` | src/crc32c.cpp:12-27 | the nested loops fill the table with eight register steps per index |
| `Crc32c.TableStepIsEightBits` | src/crc32c.cpp:33-36 | one look-up and shift equals feeding the byte's eight bits through the register |
| `Crc32c.Engine.Run` | src/crc32c.cpp:33-36 | the byte loop feeds all bits of the data through the register |
| `Crc32c.Engine.Compute` | src/crc32c.cpp:29-38 | the table-driven checksum equals the bit-serial one on every input |
| `Crc32c.Engine.Extend` | src/crc32c.cpp:40-49 | extending the checksum of a prefix gives the checksum of prefix and data |
| `Crc32c.ExtendIsConcatenation` | src/crc32c.cpp:40-49 | the same as a law of the bit-serial checksum, for all byte strings |
| `Crc32c.PolyIsReflectedGenerator` | src/crc32c.cpp:6 | the constant is the generator of section 12.1 of RFC 3720 with its bits reflected |
| `Crc32c.CrcIsNegatedRemainder` | src/crc32c.cpp:29-38 | for every message: append 32 zero bits, negate the first 32 bits, divide by the generator as polynomials over bits, and negate the remainder; no constant of the code is used |
| `Crc32c.BitsAt` | src/crc32c.cpp:33-36 | the bits of the message are those of its bytes in order, each byte's lowest bit first |
| `Crc32c.LeadingZeroDetected` | src/crc32c.cpp:32-37 | one more zero byte in front changes the checksum of every message, the empty one included |
| `Crc32c.FeedInjective` | src/crc32c.cpp:12-27 | the register step is a bijection: different states stay different over the same data |
| `Crc32c.BurstDetected` | src/crc32c.cpp:29-38 | any error burst of at most 32 bits, at any bit position, changes the checksum |
| `Crc32c.FourByteChangeDetected` | src/crc32c.cpp:29-38 | a change confined to four consecutive bytes changes the checksum |
| `Crc32c.ToBytesRoundTrip` | src/storage/wal.cpp:179-184 | the checksum written as four bytes reads back as itself |
| `Wal.EntryRoundTrip` | src/storage/wal.cpp:26-91 | a serialized entry always parses, and to what the format logs iff its key is NUL-free |
| `Wal.PayloadLayout` | src/storage/wal.cpp:26-44 | the payload byte by byte: type, sequence number lowest byte first, both key parts each closed by a zero byte, value |
| `Wal.RecordLayout` | src/storage/wal.cpp:176-188 | the record byte by byte: length lowest byte first, checksum, payload |
| `Wal.SmallIff` | src/storage/wal.cpp:246-250 | a record is accepted by replay iff key parts and value have at most 1048565 bytes together |
| `Wal.FromConcat` | src/storage/wal.cpp:266-272 | replay from a sequence number keeps the log's order and takes each entry by itself |
| `Wal.FromSingle` | src/storage/wal.cpp:266-272 | and takes it iff its number is not smaller |
| `Wal.ParsedIsLogged` | src/storage/wal.cpp:26-91 | the same for each entry of a whole log |
| `Wal.WholeLogReplays` | src/storage/wal.cpp:170-284 | a written log replays iff no record is over 1 MiB, and then to exactly its entries from the asked sequence number on |
| `Wal.ReplayLogThen` | src/storage/wal.cpp:217-284 | a good log in front of any bytes replays to its entries followed by what those bytes replay to |
| `Wal.ReplayOfCutLog` | src/storage/wal.cpp:217-284 | a log cut at any byte: exactly the complete records if the cut is on a boundary or inside a header, an error inside a payload |
| `Wal.TornLength` | src/storage/wal.cpp:230-250 | behind a torn header of four bytes or more replay reads the lost record's length, behind fewer the next record's length shifted into it |
| `Wal.TornHeader` | src/storage/wal.cpp:230-264 | a log that goes on behind a torn header: an error if that length is over 1 MiB or more than is left, and otherwise unless the bytes there happen to have the checksum in front of them |
| `Wal.TornLengthTooLong` | src/storage/wal.cpp:246-250 | with two or three torn bytes a record of usual size is always misread as too long |
| `Wal.CorruptPayloadReported` | src/storage/wal.cpp:259-264 | a payload with a burst of at most 32 bits is reported, whatever surrounds it |
| `Wal.FourCorruptBytesReported` | src/storage/wal.cpp:259-264 | any change inside four consecutive payload bytes is reported |
| `Wal.ReplayedReplays` | src/storage/wal.cpp:286-339 | entries that were replayed can be logged again and replay to themselves |
| `Wal.Wal.Append` | src/storage/wal.cpp:170-197 | an open log grows by exactly one framed record and the sequence number by one |
| `Wal.Wal.Open` | src/storage/wal.cpp:105-144 | open if it was or the file opens; the file is untouched |
| `Wal.Wal.Close` | src/storage/wal.cpp:146-168 | closed, whatever it was |
| `Wal.Wal.NextRecord` | src/storage/wal.cpp:230-275 | one round of the loop: end of log, error or entry, with the table-driven checksum |
| `Wal.Wal.ReplayFrom` | src/storage/wal.cpp:217-284 | the loop returns what the specification of replay says, or refuses when closed |
| `Wal.Wal.Truncate` | src/storage/wal.cpp:286-339 | the new file replays to what the old one replayed to from that number on; on error the file stays |
| `Keys.LessIsTotalOrder` | include/cache/common/types.h:37-50 | the key order is total, irreflexive, asymmetric and agrees with equality |
| `Keys.LessTransitive` | include/cache/common/types.h:45-50 | and transitive |
| `Bytes.LexLessIff` | include/cache/common/types.h:45-50 | strings compare by the first byte in which they differ, as a number below 256, a proper prefix being smaller |
| `Keys.LessIff` | include/cache/common/types.h:45-50 | the same for keys, by primary part and then by secondary part |
| `Keys.ParseKeyRoundTrip` | src/storage/sstable.cpp:352-359 | a stored key is parsed back as itself iff its primary part has no colon |
| `Keys.FirstKeptIsFirst` | src/storage/lsm_tree.cpp:325-341 | a subset of the keys that keeps the first `limit` has the same first `limit`: why cutting twice is harmless |
| `Ranges.SliceIsRange` | src/storage/memtable.cpp:93-106 | with the start not behind the end, the slice between the two bounds is the range, end key always included |
| `Ranges.ForwardIff` | src/storage/memtable.cpp:95-106 | the start is not behind the end iff the query is in order, or no key lies strictly between its bounds and an exclusive start is not itself a key |
| `Ranges.ForwardVisits` | src/storage/memtable.cpp:108-114 | a forward walk visits the first `limit` keys of the range |
| `Ranges.BackwardVisits` | src/storage/memtable.cpp:108-114 | a backward walk that stays in the table visits `limit` keys, all past the end of the range |
| `Ranges.ScanIsFirstLive` | src/storage/memtable.cpp:88-118 | a forward scan of a layer returns its first `limit` live entries iff no tombstone used up the limit or nothing live is left |
| `Ranges.ScanReturnsIff` | src/storage/memtable.cpp:88-118 | entry by entry what a forward scan returns: live, from the start (if included) to the end (always), with fewer than `limit` keys of the range before it, in ascending order |
| `MemTable.UsageWithout` | src/storage/memtable.cpp:28-86 | the charge of a table is independent of the order it is counted in |
| `MemTable.UsageAfterUpdate` | src/storage/memtable.cpp:40-58 | replacing an entry changes the charge by the difference of the two, and the subtraction never underflows |
| `MemTable.CostIs` | src/storage/memtable.cpp:40-50 | an entry is charged for its key with the separator, its value, and the record around it |
| `MemTable.AcceptsIff` | src/storage/memtable.cpp:28-38 | a put is accepted iff both key parts have at most 255 bytes together and the value at most 4096 |
| `MemTable.RemovedIs` | src/storage/memtable.cpp:63-86 | a removed key is marked with the time and keeps value and version, or gets empty ones; other keys stay |
| `MemTable.MemTable.Get` | src/storage/memtable.cpp:11-26 | the live entry, not found for tombstones and absent keys |
| `MemTable.MemTable.Put` | src/storage/memtable.cpp:28-61 | stores within the size limits, refuses otherwise, and the charged memory stays the sum over the entries |
| `MemTable.MemTable.Remove` | src/storage/memtable.cpp:63-86 | leaves a tombstone whether or not the key was there; accounting kept |
| `MemTable.MemTable.RangeScan` | src/storage/memtable.cpp:88-118 | the loop returns the specified scan, forward or backward, whenever it stays in the map |
| `MemTable.MemTable.ShouldFlush` | src/storage/memtable.cpp:127-129 | true iff the charge of all entries in the table has reached the limit |
| `MemTable.MemTable.Clear` | src/storage/memtable.cpp:136-140 | empty table, nothing charged |
| `SsTable.OffsetsAreExact` | src/storage/sstable.cpp:39-94 | each index entry's offset is where its record begins and parses back whole |
| `SsTable.FileLayout` | src/storage/sstable.cpp:39-115 | the file byte by byte: magic number and version, count, records, count, index, and the position of the index in the last eight bytes |
| `SsTable.RecordLayout` | src/storage/sstable.cpp:59-84 | a record byte by byte: key text and value with their lengths, version, time stamp in two's complement, deletion mark |
| `SsTable.IndexRecordLayout` | src/storage/sstable.cpp:95-108 | an index record byte by byte: key text, offset in eight bytes, size in four |
| `SsTable.CorruptIff` | src/storage/sstable.cpp:306-335 | any file: refused as corrupt iff its first eight bytes are there and are not those of the format |
| `SsTable.LoadAfterWrite` | src/storage/sstable.cpp:306-379 | loading a written file gives the written index with its keys parsed again |
| `SsTable.IndexRoundTrip` | src/storage/sstable.cpp:306-379 | that is the index itself iff no primary key has a colon |
| `SsTable.LowerSearchIsBound` | src/storage/sstable.cpp:141-145 | the halving search finds the lower bound of a sorted index |
| `SsTable.UpperSearchIsBound` | src/storage/sstable.cpp:238-242 | the same for the upper bound |
| `SsTable.ReadAgrees` | src/storage/sstable.cpp:128-206 | reading a written table returns exactly the stored entry if live and not found otherwise |
| `SsTable.ReadAgreesAfterLoad` | src/storage/sstable.cpp:128-206 | and so does reading through a reloaded index when primary keys are colon-free |
| `SsTable.ReadNeverMixesKeys` | src/storage/sstable.cpp:147-206 | whatever index and bytes: an entry is answered only from a live record stored under that key's text |
| `SsTable.ReadOfAnyBytes` | src/storage/sstable.cpp:147-206 | whatever the bytes behind a sorted index: short read, storage error for another key's text, not found for a tombstone, else the entry |
| `SsTable.ColonKeyIsLost` | src/storage/sstable.cpp:352-359 | after a reload a key with a colon in its primary part is never found |
| `SsTable.ReloadAgreesIff` | src/storage/sstable.cpp:306-379 | a table without tombstones reads the same after a reload, for every key, iff all its primary keys are colon-free |
| `SsTable.AfterReloadIs` | src/storage/sstable.cpp:306-379 | for any table: after a reload a key reads the live entry that the search over the parsed keys ends on, if that entry's key is parsed as the key asked for |
| `SsTable.ReloadAgreesExactly` | src/storage/sstable.cpp:306-379 | any table, with or without tombstones, reads the same after a reload iff each live key is colon-free and the search over the parsed keys still ends on it |
| `SsTable.NeighbourIsLost` | src/storage/sstable.cpp:352-359 | counter-example: a key without a colon is lost because a colon key in the same table is parsed to a place out of order |
| `SsTable.ColonKeyIsMisread` | src/storage/sstable.cpp:352-359 | and its entry answers for a key that was never written |
| `SsTable.ScanAgrees` | src/storage/sstable.cpp:208-302 | scanning a written table is scanning the map it was written from, and leaves the index iff the other leaves the map |
| `SsTable.SsTable.Write` | src/storage/sstable.cpp:15-126 | file bytes, index and size are those of the map; an empty map or an unopened file changes nothing |
| `SsTable.WriteRecords` | src/storage/sstable.cpp:53-87 | the loop writes the records of the format and an index with where each begins and how long it is |
| `SsTable.WriteIndex` | src/storage/sstable.cpp:95-108 | the loop writes the index records of the format |
| `SsTable.AppendRecord` | src/storage/sstable.cpp:59-84 | the field writes of one entry give one record of the format |
| `SsTable.SsTable.LoadIndex` | src/storage/sstable.cpp:306-379 | index and errors as parsed from the bytes |
| `SsTable.SsTable.Read` | src/storage/sstable.cpp:128-206 | loads the index if empty, then reads |
| `SsTable.SsTable.RangeScan` | src/storage/sstable.cpp:208-302 | loads the index if empty, then scans, forward or backward |
| `Layers.FlushIsInvisible` | src/storage/lsm_tree.cpp:545-594 | from any state and whichever file fails to open, a flush changes no `get` |
| `Layers.FlushStack` | src/storage/lsm_tree.cpp:545-594 | apart from an empty layer on top a flush leaves the order and contents of all layers as they were |
| `Layers.NewestIsPlain` | src/storage/lsm_tree.cpp:139-257 | in every run the newest mention of each key is what a plain map holds |
| `Layers.GetRefinesPlainMap` | src/storage/lsm_tree.cpp:139-172 | `get` answers as the plain map iff no tombstone shadows an older live entry |
| `Layers.ShadowedIff` | src/storage/lsm_tree.cpp:139-257 | by the operations alone: a tombstone shadows a live entry iff the key is gone from the plain map although some flush that had work to do happened while it was there |
| `Layers.NeverDeletedReadsLastPut` | src/storage/lsm_tree.cpp:139-202 | a key never removed reads as its last accepted put over any run of puts, removes of other keys and flushes |
| `Layers.PutReadsBack` | src/storage/lsm_tree.cpp:174-202 | after any run a put within the size bounds is read back, and any other changes nothing |
| `Layers.RemoveTakesEffect` | src/storage/lsm_tree.cpp:234-257 | right after a remove the key is gone iff no older layer holds it live |
| `Layers.RemovedValueComesBack` | src/storage/lsm_tree.cpp:139-172 | counter-example: put, flush, remove, and the value is read again |
| `Layers.CompactionSurvivedIff` | src/storage/lsm_tree.cpp:596-622 | compaction keeps the answer of `get` iff a layer that stays holds the key live or neither of the two oldest tables does |
| `Layers.CompactionLoses` | src/storage/lsm_tree.cpp:596-622 | counter-example: two flushed keys, one compaction, and both are gone |
| `MergedScan.MergeShowsNewest` | src/storage/lsm_tree.cpp:290-322 | a key contributed wherever it is live appears with its newest entry |
| `MergedScan.RangeScanIsFirstVisible` | src/storage/lsm_tree.cpp:282-342 | if every layer is walked forward and the limit suffices in it, the scan is the first `limit` entries of the newest-wins union over the range |
| `MergedScan.RangeScanExactIff` | src/storage/lsm_tree.cpp:282-342 | for all layers walked forward: the scan is that iff for each of those keys the newest layer reaching it within its own limit holds the entry `get` returns |
| `MergedScan.RangeScanAgreesWithGet` | src/storage/lsm_tree.cpp:282-342 | each returned entry is what `get` returns for its key |
| `MergedScan.NoTombstonesSuffices` | src/storage/lsm_tree.cpp:282-342 | the condition holds whenever no layer has tombstones |
| `MergedScan.OrderedIsForward` | src/storage/lsm_tree.cpp:282-342 | a query whose start is not after its end walks every layer forward |
| `MergedScan.ScanWithoutDeletes` | src/storage/lsm_tree.cpp:282-342 | in every run without deletes the scan is the first `limit` entries in range of the plain map |
| `MergedScan.StaleRangeScan` | src/storage/lsm_tree.cpp:282-342 | counter-example, from an empty engine: put, flush, put again and remove of another key, and the scan returns the old value while `get` returns the new one |
| `Disk.GetRefines` | src/storage/lsm_tree.cpp:139-172 | reading through file bytes and loaded indexes answers as the stack of maps does |
| `Disk.ScanRefines` | src/storage/lsm_tree.cpp:282-342 | scanning and merging through them returns the scan of the stack of maps |
| `Disk.StepRefines` | src/storage/lsm_tree.cpp:174-257 | put, remove and flush keep the files in step with the maps |
| `Disk.CompactRefines` | src/storage/lsm_tree.cpp:596-622 | and so does compaction |
| `Disk.FlushReports` | src/storage/lsm_tree.cpp:545-594 | a flush reports success iff there was nothing to flush or nothing is left unflushed |
| `Disk.LoadedFiles` | src/storage/lsm_tree.cpp:666-699 | loading the files of written tables gives one table per file, its keys parsed again |
| `Disk.ReloadedIsWritten` | src/storage/lsm_tree.cpp:687-693 | a reloaded table is the written one iff no primary key in it has a colon |
| `Disk.ReadDiskFails` | src/storage/lsm_tree.cpp:705-716 | nothing is found on disk iff no table answers, and it is then reported as not found |
| `Recovery.RecoveryIsFold` | src/storage/lsm_tree.cpp:639-664 | a replayed log of NUL-free keys and puts of live entries rebuilds the table of running every logged put and remove, refused puts included |
| `Recovery.MutationsOfLogs` | src/storage/lsm_tree.cpp:174-257 | each put and remove is logged as itself, a flush as no operation |
| `Recovery.LoggedTypes` | src/storage/lsm_tree.cpp:174-257 | the engine logs type 1 for a put, 2 for a remove, 4 for a checkpoint, all with number 0 |
| `Recovery.AcceptedIsSmall` | src/storage/lsm_tree.cpp:174-202 | every put the memtable accepts is logged in a record replay accepts |
| `Recovery.InMemoryIsPlain` | src/storage/lsm_tree.cpp:174-257 | the live part of that table is the plain map |
| `Recovery.RecoverySucceeds` | src/storage/lsm_tree.cpp:639-644 | replaying a whole log succeeds iff no record is over 1 MiB, and then gives its entries |
| `Restarts.CutBytes` | src/storage/wal.cpp:170-197 | the first bytes of a log are its first records and a piece of the next |
| `Restarts.CutOpens` | src/storage/lsm_tree.cpp:51-93 | after a crash at any byte the engine opens iff no surviving record is over 1 MiB and the piece left is shorter than a header |
| `Restarts.CutInsidePayload` | src/storage/lsm_tree.cpp:66-71 | cut inside a payload the log is reported as incomplete and the engine does not open |
| `Restarts.DoTracks` | src/storage/lsm_tree.cpp:174-257 | every operation keeps log bytes, table files and memtables in step with the run of maps |
| `Restarts.CompactTracks` | src/storage/lsm_tree.cpp:596-622 | a compaction changes only which tables are in memory |
| `Restarts.RestartTracks` | src/storage/lsm_tree.cpp:51-93 | opening a new engine on the bytes that survive succeeds iff the run of maps goes on, and then does what it says |
| `Restarts.NodeFollows` | src/storage/lsm_tree.cpp:51-257 | every run on bytes, with operations, compactions, restarts and crashes, follows the run of maps and stops where that one does |
| `Restarts.NodeRefines` | src/storage/lsm_tree.cpp:51-257 | with colon-free primary keys the engine on bytes represents the stack of maps after every such run |
| `Restarts.RestartedReads` | src/storage/lsm_tree.cpp:51-93 | after every such run and a restart that leaves at most a torn header: opens iff no surviving record is over 1 MiB; a key the surviving records leave present reads its last surviving value; any other reads what the reloaded tables say, not found iff none answers, with colon-free keys iff none holds it live |
| `Restarts.LosslessLog` | src/storage/lsm_tree.cpp:174-257 | if no restart lost bytes, the log stands for all operations of the run |
| `Restarts.LosslessReads` | src/storage/lsm_tree.cpp:51-93 | then every key of the plain map reads its last accepted value after a restart, whatever was flushed, removed before or compacted away |
| `Restarts.NewestOverLives` | src/storage/lsm_tree.cpp:139-257 | in runs without compaction and without logging behind a torn header, lossy restarts included: the newest mention of each key the surviving operations mention says what one unflushed table would |
| `Restarts.MentionedOverLives` | src/storage/lsm_tree.cpp:139-257 | without loss no layer mentions a key that no operation mentioned |
| `Restarts.ReadsOverLives` | src/storage/lsm_tree.cpp:139-172 | in lossless runs without compaction a key of the plain map reads its last accepted value, and `get` answers as the plain map iff no tombstone shadows an older live entry |
| `Restarts.RejectedPutPoisonsLog` | src/storage/lsm_tree.cpp:174-202 | a refused put over 1 MiB keeps the engine from opening as long as the log is kept |
| `Restarts.CrashHidesFlushed` | src/storage/lsm_tree.cpp:51-93 | counter-example: put, flush, put, flush, crash behind the first record, and the first value is read although the second is in a table |
| `Restarts.TornLogStopsEngine` | src/storage/lsm_tree.cpp:66-71 | a log that goes on behind two or three torn bytes with a record of usual size never opens again, whatever follows |
| `Restarts.TornHeaderThenPut` | src/storage/lsm_tree.cpp:51-202 | such a log comes from a crash inside a header, a restart that succeeds, and one more put |
| `LsmTree.LsmTreeEngine.Open` | src/storage/lsm_tree.cpp:51-93 | an open engine is left alone; otherwise log, replay and tables in that order, and it is open iff log and replay are; for a new engine exactly the specified reopening |
| `LsmTree.LsmTreeEngine.Close` | src/storage/lsm_tree.cpp:95-135 | an open engine flushes, whatever comes of it, and closes; log, directory and tables as that flush leaves them |
| `LsmTree.LsmTreeEngine.RecoverFromWal` | src/storage/lsm_tree.cpp:639-664 | the loop over replayed entries rebuilds the specified table, nothing on error |
| `LsmTree.LsmTreeEngine.LoadSsTables` | src/storage/lsm_tree.cpp:666-699 | one table per file whose index can be loaded, in order, behind the tables already there |
| `LsmTree.LsmTreeEngine.Get` | src/storage/lsm_tree.cpp:139-172 | memtable, immutable memtable, tables from newest to oldest, as the read on disk says |
| `LsmTree.LsmTreeEngine.GetFromSsTables` | src/storage/lsm_tree.cpp:705-716 | the newest table that answers, errors of others passed over |
| `LsmTree.LsmTreeEngine.Put` | src/storage/lsm_tree.cpp:174-202 | logs first, then stores; the log grows even when the put is refused |
| `LsmTree.LsmTreeEngine.Remove` | src/storage/lsm_tree.cpp:234-257 | logs first, then leaves a tombstone |
| `LsmTree.LsmTreeEngine.FlushMemtable` | src/storage/lsm_tree.cpp:545-594 | a leftover immutable table first, then the memtable; result, state, files and log exactly as specified |
| `LsmTree.LsmTreeEngine.FlushLeftover` | src/storage/lsm_tree.cpp:552-564 | no leftover, nothing done; otherwise written, or the reason why not |
| `LsmTree.LsmTreeEngine.WriteImmutable` | src/storage/lsm_tree.cpp:554-563 | the immutable table becomes the newest table and file iff it is not empty and the file opens |
| `LsmTree.LsmTreeEngine.Freeze` | src/storage/lsm_tree.cpp:566-567 | the memtable becomes the immutable one, a new empty one takes its place |
| `LsmTree.LsmTreeEngine.FlushActive` | src/storage/lsm_tree.cpp:566-587 | a failed write is reported and keeps the entries in the immutable table; a good one adds table, file and checkpoint |
| `LsmTree.LsmTreeEngine.Checkpoint` | src/storage/lsm_tree.cpp:582-585 | one checkpoint record is logged |
| `LsmTree.LsmTreeEngine.CompactSsTables` | src/storage/lsm_tree.cpp:596-622 | with two tables or more the two oldest leave memory and the call fails; the files stay |
| `LsmTree.LsmTreeEngine.BackgroundWork` | src/storage/lsm_tree.cpp:531-541 | a full memtable is flushed, then too many tables are compacted |
| `LsmTree.LsmTreeEngine.RangeScan` | src/storage/lsm_tree.cpp:282-342 | the merge loops over all layers return the specified scan, whenever no layer is walked past its end |
| `LsmTree.LsmTreeEngine.AddSsTables` | src/storage/lsm_tree.cpp:313-323 | the loop over the tables, newest first, merges them below the layers already merged |
| `LsmTree.AddMissing` | src/storage/lsm_tree.cpp:290-322 | inserting where absent is a union in which the upper layer and the first result of a key win |
| `LsmTree.FirstNotDeleted` | src/storage/lsm_tree.cpp:325-341 | the last loop returns the first `limit` merged entries in key order |
| `Partitions.CalculateConnectivityMatrix` | src/cluster/split_brain_detector.cpp:588-605 | square and symmetric; each entry is the checker's answer for the pair, the diagonal true |
| `Partitions.CollectPartition` | src/cluster/split_brain_detector.cpp:614-633 | one search terminates with a part reachable from its root, no index twice, and every link out of it already visited |
| `Partitions.FindNetworkPartitions` | src/cluster/split_brain_detector.cpp:607-639 | terminates on every square matrix; every index is in exactly one part, each part is reachable from its first index, links leave a part only to earlier parts |
| `Partitions.PartsAreComponents` | src/cluster/split_brain_detector.cpp:607-639 | on a symmetric matrix two indices share a part iff a path joins them |
| `Partitions.PartitionsAreComponents` | src/cluster/split_brain_detector.cpp:607-639 | for distinct nodes and a symmetric matrix: two nodes are in one returned partition iff a path joins them |
| `Quorum.SplitStrategies` | src/cluster/split_brain_detector.cpp:641-655 | two disjoint sides can both have the required size iff there are two nodes or more, the strategy is not MAJORITY, and not DYNAMIC over an odd number |
| `Quorum.SizesAreExact` | src/cluster/split_brain_detector.cpp:641-655 | MAJORITY is the smallest size two sides never both have, the dynamic size the largest one of two sides always has, the static size the largest three sides can all have, the witness size the largest two can |
| `Quorum.CanSplitIff` | src/cluster/split_brain_detector.cpp:641-655 | two disjoint sides of a set can both have a size iff the set has it twice |
| `Quorum.OneMajorityPart` | src/cluster/split_brain_detector.cpp:607-655 | of the partitions found at most one has the majority size |
| `Quorum.SurvivingPartitions` | src/cluster/split_brain_detector.cpp:588-639 | matrix and search together: at most one returned partition holds more than half of the nodes |
| `Quorum.OneMajorityView` | src/cluster/split_brain_detector.cpp:329-362 | two views of one membership with disjoint active sets never both have a majority |
| `Quorum.QuorumSplitsIff` | src/cluster/split_brain_detector.cpp:329-435 | two disjoint sides of a membership can both have quorum: never under MAJORITY, under the static and dynamic strategies iff it holds the minimum twice, with witnesses iff it holds two of them and twice the minimum or one |
| `Quorum.ValidateQuorumDecision` | src/cluster/split_brain_detector.cpp:657-684 | true iff the sizes add up and no node is named twice, within or across the lists |
| `Quorum.ValidationMeans` | src/cluster/split_brain_detector.cpp:657-684 | about nodes of the membership: valid iff each node is on exactly one side |
| `Quorum.StrangersValidate` | src/cluster/split_brain_detector.cpp:657-684 | counter-example: a decision naming only unknown nodes is valid |
| `Quorum.DecisionsValidate` | src/cluster/split_brain_detector.cpp:329-435 | majority decisions always validate, the others iff no node is down or isolated |
| `Quorum.ManyComponentsIffSplit` | src/cluster/split_brain_detector.cpp:437-494 | more than one component is found iff two live nodes are not both heard from lately |
| `Quorum.SplitsIff` | src/cluster/split_brain_detector.cpp:475-494 | that is: two live nodes, one of them not heard from for twice the heartbeat time-out |
| `Quorum.AllPairsIff` | src/cluster/split_brain_detector.cpp:284-297 | the pairs recorded are those of an earlier and a later component, one for each choice of two |
| `Quorum.PairsOf` | src/cluster/split_brain_detector.cpp:284-297 | the two nested loops list each component with every later one |
| `Quorum.IsolationKeepsQuorum` | src/cluster/split_brain_detector.cpp:200-225 | isolating the minority leaves active set, quorum and the next decision as they were |
| `Quorum.TwoSides` | src/cluster/split_brain_detector.cpp:200-225 | two MAJORITY detectors with disjoint active nodes that saw a partition: at least one confirms the split, and the sides stay disjoint |
| `Quorum.DefaultSplitBrainDetector.MajorityQuorum` | src/cluster/split_brain_detector.cpp:329-362 | lists exactly the active and the other nodes; quorum iff the active ones are more than half |
| `Quorum.DefaultSplitBrainDetector.CalculateQuorum` | src/cluster/split_brain_detector.cpp:300-313 | all four strategies; the dynamic one has quorum iff the static one has |
| `Quorum.DefaultSplitBrainDetector.AliveWitnesses` | src/cluster/split_brain_detector.cpp:413-424 | exactly the active nodes that are configured as witnesses |
| `Quorum.DefaultSplitBrainDetector.CollectComponent` | src/cluster/split_brain_detector.cpp:444-464 | one search over the unvisited live nodes collects exactly the component of its root |
| `Quorum.DefaultSplitBrainDetector.FindConnectedComponents` | src/cluster/split_brain_detector.cpp:437-473 | whatever the map's order: the recently heard live nodes are one component, every other live node one by itself, nothing else |
| `Quorum.DefaultSplitBrainDetector.DetectNetworkPartitions` | src/cluster/split_brain_detector.cpp:262-298 | marks missed heartbeats and records every pair of the components found, in order; something new iff two live nodes are not both heard from lately |
| `Quorum.DefaultSplitBrainDetector.SweepHeartbeats` | src/cluster/split_brain_detector.cpp:265-278 | every node that is not isolated and is overdue counts one more miss and dies at the limit; isolated nodes are left alone |
| `Quorum.DefaultSplitBrainDetector.IsolateNode` | src/cluster/split_brain_detector.cpp:153-167 | a known node is marked and listed as isolated, an unknown one ignored |
| `Quorum.DefaultSplitBrainDetector.DetectionRound` | src/cluster/split_brain_detector.cpp:200-225 | with a partition on record: no quorum confirms the split, a quorum isolates exactly the nodes the decision cuts off |
| `Quorum.DefaultSplitBrainDetector.AddNode` | src/cluster/split_brain_detector.cpp:66-69 | a node starts as not alive and never heard from, also when it was known |
| `Quorum.DefaultSplitBrainDetector.ProcessHeartbeat` | src/cluster/split_brain_detector.cpp:90-101 | a known node is alive, without misses, and heard from at that time |
| `DetectorRuns.RoundOnNode` | src/cluster/split_brain_detector.cpp:262-278 | one round field by field: a node overdue and not isolated counts a miss and dies at the limit; it is isolated iff it was, or it is dead and MAJORITY has its quorum with a partition on record |
| `DetectorRuns.AliveIff` | src/cluster/split_brain_detector.cpp:66-278 | over all runs of additions, heartbeats and rounds: a node not isolated is alive iff it was heard from since it was added and fewer rounds than the limit, or none, found it overdue since |
| `DetectorRuns.ActiveAfterRounds` | src/cluster/split_brain_detector.cpp:200-278 | rounds without a heartbeat leave active exactly the nodes that too few rounds found overdue, and only count on their records |
| `DetectorRuns.HeardIsUnchanged` | src/cluster/split_brain_detector.cpp:265-278 | a live node heard from in time for every round stays as it is |
| `DetectorRuns.ConfirmedIff` | src/cluster/split_brain_detector.cpp:200-225 | with a partition on record, rounds without a heartbeat confirm the split iff the nodes that stay active do not make the quorum, under every strategy |
| `DetectorRuns.MajorityConfirmsIff` | src/cluster/split_brain_detector.cpp:200-362 | under MAJORITY that is iff at most half of the nodes stay active |
| `DetectorRuns.SilentHalfConfirms` | src/cluster/split_brain_detector.cpp:200-362 | so a side that half of the nodes were silent to for the limit of rounds confirms the split |
| `HybridClock.LessIsStrictTotalOrder` | include/cache/time/time_sync.h:35-52 | the clock comparison is a strict total order agreeing with equality |
| `HybridClock.IncrementAdvancesIff` | src/time/time_sync.cpp:587-608 | a local event moves the clock forward iff time advanced or the counter is not at its end |
| `HybridClock.IncrementIsLeast` | src/time/time_sync.cpp:587-608 | unless the counter wraps, the next timestamp is the least one after the clock that is not before the reading |
| `HybridClock.MergedIs` | src/time/time_sync.cpp:128-174 | the merged timestamp exactly: least counter above both, also where the reading is past both clocks; else the received one plus one; a drift of more than the tolerated whole milliseconds keeps the reading's time |
| `HybridClock.UpdateAdvancesIff` | src/time/time_sync.cpp:128-174 | the merged timestamp exceeds both the receiver's clock and the received one iff the stated test on the inputs holds |
| `HybridClock.ReceivedIsExceededIff` | src/time/time_sync.cpp:128-174 | the merged timestamp exceeds the received one iff a test without the receiver's physical clock holds |
| `HybridClock.PathIsLess` | src/time/time_sync.cpp:128-174 | if every event passed its test, timestamps increase along every causal path |
| `HybridClock.OrderedMeansAdvancing` | src/time/time_sync.cpp:128-174 | if the timestamps handed out follow causality in a run, every event passed its test |
| `HybridClock.CausalityIff` | src/time/time_sync.cpp:128-174 | over every run of any number of nodes: the timestamps handed out follow happened-before iff every event passed its test, a node's first event having no earlier timestamp of its own to exceed |
| `HybridClock.SteadyRunsKeepCausality` | src/time/time_sync.cpp:128-174 | clocks not behind the last timestamp, no drift rejection and no counter overflow suffice |
| `HybridClock.GeneratedIncrease` | src/time/time_sync.cpp:687-702 | whatever the time service returns, generated timestamps strictly increase iff no step wraps the counter |
| `HybridClock.GeneratedIsLeast` | src/time/time_sync.cpp:687-702 | unless the counter wraps, the timestamp handed out is the least one after the latest that is not before the reading |
| `HybridClock.DefaultTimeService.IncrementLogicalClock` | src/time/time_sync.cpp:587-608 | result and stored clock are the specified increment |
| `HybridClock.DefaultTimeService.NowLogical` | src/time/time_sync.cpp:115-126 | the increment, or the plain reading with the clock untouched when hybrid clocks are off |
| `HybridClock.DefaultTimeService.UpdateLogicalClock` | src/time/time_sync.cpp:128-174 | result and stored clock are the specified merge, and it advances both iff its test held |
| `HybridClock.TimestampOrdering.GenerateTimestamp` | src/time/time_sync.cpp:687-702 | unless the counter is at its end the timestamp given out exceeds the previous one, even when the service's reading does not |
| `NtpTime.NtpFields` | src/time/time_sync.cpp:845-862 | no intermediate product overflows 64 bits; seconds of the era and fraction sit side by side |
| `NtpTime.PhysicalFields` | src/time/time_sync.cpp:864-876 | the reverse product does not overflow, and the unsigned seconds read back signed |
| `NtpTime.EpochsAre` | src/time/time_sync.cpp:845-876 | the epochs are 70 years with 17 leap days apart |
| `NtpTime.RoundTrip` | src/time/time_sync.cpp:845-876 | in era 0, from 1900: exact iff the nanoseconds within the second are a multiple of 5^9, otherwise one nanosecond early |
| `NtpTime.RoundTripIffEra0` | src/time/time_sync.cpp:845-876 | for every instant the code can hold: within one nanosecond iff it lies in era 0 |
| `NtpTime.LaterEras` | src/time/time_sync.cpp:845-876 | later instants come back whole eras early |
| `NtpTime.ReverseTrip` | src/time/time_sync.cpp:845-876 | for every NTP timestamp between 0 and 5 fraction units are lost |
| `NtpTime.ReverseTripLosesFive` | src/time/time_sync.cpp:845-876 | the bound of 5 is reached |
| `NtpTime.StrictlyMonotone` | src/time/time_sync.cpp:845-862 | within era 0 order is preserved strictly, both ways, at nanosecond resolution |
| `MedianOffset.MedianIgnoresOrder` | src/time/time_sync.cpp:806-821 | the result depends only on the multiset of samples |
| `MedianOffset.MedianHalves` | src/time/time_sync.cpp:806-821 | at most half of the samples lie below the result and at most half above |
| `MedianOffset.MajorityHoldsMedian` | src/time/time_sync.cpp:806-821 | an interval with a strict majority of the samples holds the result, also when it is an average truncated toward zero |
| `MedianOffset.HalfIsNotEnough` | src/time/time_sync.cpp:806-821 | half of the samples do not suffice |
| `MedianOffset.MedianOfNegated` | src/time/time_sync.cpp:806-821 | the median of the negated offsets is the negated median: the average of the two middle ones is cut toward zero |
| `MedianOffset.BerkeleyAlgorithm` | src/time/time_sync.cpp:528-561 | both errors exactly when due; otherwise the median of the confident offsets in whatever order the map is walked |

## Left out

- Threads, sleeps, condition variables and mutex re-entry: every method is one atomic step.
- Stream error flags: replay reads its stream to the end and never clears the flags that this sets (src/storage/wal.cpp:230-275), after which later appends have no effect in the source; the byte-sequence file of the model takes them. All results about logs and restarts are about the log as its format and code describe it, apart from these flags.
- Two-phase commit messaging, participants' commit, abort and prepare handlers, rollback and the simulated read value: the sends are stubs and the history of operations is modelled instead of stored transaction data.
- Compaction: only what is written is modelled, the removal of the two oldest tables and the failure that follows; the merge and the deletion of files behind it are never reached.
- Table file names and their load order: tables are kept in flush order.
- Conditional puts and removes, multi-get and multi-put, backup, restore, background threads and statistics.
- `flush`: the modelled flush behind an open test, followed by a log sync.
- Lock expiry (`cleanup_expired_locks`), lock time stamps and the lock listing calls.
- Hotspot detection, Raft, sharding, networking, security, monitoring and configuration.
- Floating-point code: offset filtering, sync quality, standard deviation; calendar strings and `is_concurrent`.
- Event handlers, reason strings and partition records' times; recovery of partitions (`update_partition_status`, `force_merge_partitions`); `remove_node` and `update_node_status`.
- LockManager.DefaultLockManager.AcquireLock: lock and transaction ids are unbounded numbers; the source's 64-bit counters do not wrap in the model.
- Transactions.RunsAreSerializable: reads at READ_UNCOMMITTED take no lock and are not part of the compared operations; `UncommittedReadsAreNotSerializable` shows why.
- Wal.ReplayOfCutLog: needs records of at most 1 MiB, the bound replay itself enforces; `WholeLogReplays` covers the others.
- Wal.WholeLogReplays: records shorter than 2^32 bytes, so that the length field is not truncated.
- Recovery.RecoveryIsFold: puts of entries marked deleted are left out, since the log carries no such mark and would bring them back live.
- Wal.EntryRoundTrip: the entry checksum field, which the format does not log, is left out.
- SsTable.LoadAfterWrite: texts and values shorter than 2^32 bytes and files shorter than 2^64, so that lengths and offsets fit their fields.
- SsTable.SsTable.Read: a file that ends inside a record gives a short-read error; the source goes on with whatever its variables hold.
- SsTable.SsTable.RangeScan: a walk past the end of the index gives that error too, where the source's iterator is invalid.
- MemTable.MemTable.RangeScan: not defined for walks past the end of the map, which C++ leaves undefined.
- LsmTree.LsmTreeEngine.RangeScan: not defined when some layer is walked past its end, for the same reason.
- LsmTree.LsmTreeEngine.FlushMemtable: needs an open log, as its callers make sure of.
- Disk.GetRefines: tables whose lengths fit the file format's fields, as for writing them.
- Restarts.NodeFollows: records shorter than 2^32 bytes and tables that fit their fields; a crash loses the end of the log, never bytes in its middle or of table files.
- Restarts.RestartedReads: a log that goes on behind a torn header is left to `Wal.TornHeader` and `Restarts.TornLogStopsEngine`.
- Restarts.ReadsOverLives: runs without compaction; what one compaction does to reads is `Layers.CompactionSurvivedIff`.
- CircularWaits.RefusalIsCircularWait: the requests behind wait edges are not stored by the source; the model keeps them beside its state.
- Quorum.DefaultSplitBrainDetector.FindConnectedComponents: one clock reading for the whole round, where the source reads the clock for each pair.
- Quorum.DefaultSplitBrainDetector.DetectNetworkPartitions: the 32-bit count of missed heartbeats does not wrap in the model.
- HybridClock.DefaultTimeService.UpdateLogicalClock: with hybrid clocks off the source locks its mutex twice; the model returns what the second call would.
- NtpTime.RoundTripIffEra0: instants whose distance from 1900 overflows a signed 64-bit count, undefined in the source, are excluded.
- MedianOffset.MajorityHoldsMedian: offsets whose sum fits 64 bits; larger ones overflow in the source.
