# A verified model of the database toolkit

The repository is a collection of database components: concurrency control, replication and
consensus, indexes, caches, a planner with its joins, and a log. This project models fifteen of
them in Dafny and proves what they keep, over whole runs and for all inputs. `dafny verify
dfyconfig.toml` verifies everything.

Each component follows one pattern. A value-level part gives the state and what every operation
does to it, and holds the theorems. Beside it, where the source changes objects in place, a class
with the same fields carries out the operations with the source's loops and is proved against the
value-level part: its invariant says that the fields are in the state that the sequence of
operations so far leads to. A method that holds a mutex in the source is one step.

| modules | component |
|---|---|
| `TimestampOrdering`, `TimestampReference`, `TimestampAborts` | basic timestamp ordering, with the history of granted accesses; a scheduler that decides by the history alone; what aborts leave behind |
| `TwoPhaseLocking`, `LockRecords`, `MixedLocks`, `DeadlockDetection` | lock queues, the transaction manager, what its records mean, runs with both kinds of locks, cycle search in the wait-for graph |
| `Paxos` | proposers and acceptors, interleaved call by call |
| `MultiMaster` | last-writer-wins replication with messages in flight |
| `IsolationLevels`, `IsolationReference` | transactions with private overlays; what every read returns |
| `WriteAheadLog`, `Decimal` | printing and parsing of log records |
| `BTreeModel`, `BTreeNodes`, `BTreeIndex` | the B-tree as values, its nodes and arrays in memory, the index object |
| `BTreeRebalance`, `BTreeDelete`, `BTreeRemoval` | refilling a child, deletion as values, deletion in memory |
| `TrieIndex` | the trie of heap-allocated nodes, with pruning removal |
| `JoinAlgorithms`, `JoinPushDown` | the three joins, and filters before and after them |
| `PlanModel`, `PlanSafety`, `MergeSafety`, `PhysicalPlan` | plans, their evaluation and the filter push-down; when it is safe; the linked plan nodes |
| `LfuCache`, `LruCache`, `UseLog` | the two caches against histories of uses; lists kept by recency |
| `BufferPool`, `BufferManager` | the buffer pool over a disk; its shared page objects |
| `ConsistentHashing` | the hash ring, the hash being any function |
| `Sets`, `Sequences` | choosing from a set, for loops over hash tables; a fact about sequences |

## What does not hold

Some properties that one would expect fail. The lemmas named here give the cases that fail and the
exact conditions under which the code does what one would expect.

- A filter pushed to the right of a hash join, or to a side of a merge join, can change the result
  when ids repeat (`OptimizeCanChangeResult`, `OptimizeCanChangeMergeResult`). For one plan and database a push is safe
  exactly under the conditions of `HashPushRightPreservesIff`, `MergePushLeftPreservesIff` and
  `MergePushRightPreservesIff`, and for all tables opposite under those of `MergePushLeftSafeIff` and
  `MergePushRightSafeIff`; over tables whose ids determine their rows whole plans keep their results
  (`KeyedPlansArePreserved`).
- Deletion from a B-tree of three or more levels can leave the keys out of order, because the walk
  for a predecessor follows the last child but one (`DeletionCanBreakOrder`). It keeps the order exactly when the
  key that the walk finds is the largest below the child (`RemoveKeepsOrderIff`, `PredFromIsLastIff`).
- Releasing a lock grants the first waiter without comparing it with the locks that stay
  (`RunCanBreakCompatibility`); locks stay compatible throughout a run exactly when every release finds a
  compatible first waiter (`CompatibleThroughoutIff`).
- With both kinds of locks requests are not granted in the order of arrival. A waiting reader can be passed by a
  writer's shared request (`SharedCanBeOvertaken`), a waiting writer by no other transaction
  (`OnlySharedIsOvertaken`) but by a shared request of its own (`WriterPassedByOwn`). Nobody is passed throughout a run
  exactly when no lock is granted to a new request while another, the asker's own included, waits on the resource
  (`NonePassedThroughoutIff`); grants are in the order of arrival exactly when every release grants a request that
  came after all granted before (`GrantedInOrderIff`).
- Replicas differ after a write that is not newer than what the writer holds (`WriteAtRestIff`, `WriteKeepsInvIff`),
  until a newer write of the key (`NewerWriteReunitesIff`). The source stamps writes with the clock in seconds and
  stores its own write unconditionally.
- Paxos proposals with larger numbers replace a chosen value, because promises carry no accepted
  value (`LaterProposalReplacesChosenValue`); in every run an idle proposer can still have any value chosen
  (`AnyValueCanBeChosen`, `TwoValuesCanBeChosen`).
- Writes of aborted transactions stay under timestamp ordering (`AbortedWriteIsRead`). A read returns such a write
  exactly when the last granted write of the item is one (`ReadReturnsWriteOfIff`). The serial history without the
  aborted transactions is legal exactly when every surviving read returned the value of the last surviving write
  before it (`StruckOutLegalIff`), in particular if no surviving read returned an aborted write
  (`AbortedCanBeStruckOut`).
- They stay too at the two lower isolation levels (`RolledBackWriteRemains`); a commit also writes back what was only
  read (`ReaderUndoesWrite`). A transaction leaves no trace in any state of a run exactly when each of its writes and
  commits leaves the data as it is when it is made (`NoTraceThroughoutIff`, `WriteHiddenIff`, `CommitChangesNothingIff`).
- A node id and the same id followed by a number smaller than a tenth of the replicas collide on the hash ring under
  every hash (`ExtendedIdsCollide`); under a hash without collisions no other ids do (`ApartIff`).
- The log does not read back data with commas or line breaks (`RoundTripIff`).
- `Trie::remove` answers true only when it removed the last word (`Trie.Remove`).
- A page that a client changed is lost if it is evicted before it is marked dirty, even if it is marked afterwards
  (`MarkedTooLate`). Pages are as last written throughout a run exactly when no eviction takes a page that was changed
  and not marked and no client writes to a page that is no longer cached (`PagesAsWrittenIff`); flushing everything
  brings the disk up to date exactly when no change is left unmarked (`FlushedDiskIsLastWrittenIff`).

## Readings

- The planner's headers are not part of this model. A condition is a test on the id and on the
  columns it reads; it applies to a subtree if the subtree has these columns. The two sides of a
  join have no column in common. Projection, sort, limit, aggregate and distinct are any function
  of their input's rows, union, intersection and difference any function of two inputs' rows. The
  sort of the merge join may order rows of equal id in any way. Plans are trees: no node occurs
  twice in one.
- Proposers share one list of distinct acceptors.
- Waiting for a lock is two steps, the request and the return once it is granted.
- The clock and the hash function are parameters. The disk is a map from pages to contents, a page
  never written being 4096 zero bytes; the log file is a string.
- Where the source throws, the model returns an error value. Where it has undefined behaviour (the
  back of an empty list in a cache or pool of capacity 0, a log line with too few fields) the model
  asks for another capacity or returns an error value.
- Clients of the buffer manager write through the shared page, outside its mutex; each such write, of the whole
  page, is one step between the manager's operations.
- Capacities may be negative: compared with an unsigned size they are never reached.

## Model

| member | source | states |
|---|---|---|
| TimestampOrdering.RunsAreSerializable | transactions/concurrency_control/timestamp_ordering.cpp:36-123 | for every sequence of begin, read, write, commit and abort requests, the granted accesses (those of transactions that abort later included) sorted stably by start timestamp are the same accesses, keep every transaction's own order, give every read the value it had in the run and leave every item with its final value |
| TimestampOrdering.SortedHistoryIsSerial | transactions/concurrency_control/timestamp_ordering.cpp:36-96 | if no two transactions began with one timestamp, that sorted history runs one transaction at a time |
| TimestampOrdering.GrantedAccessIsNotLate | transactions/concurrency_control/timestamp_ordering.cpp:60-66 | a granted access conflicts with no earlier granted access of a larger timestamp: the guards of read and write are what the ordering needs |
| TimestampOrdering.StepKeepsInv | transactions/concurrency_control/timestamp_ordering.cpp:36-123 | every request keeps the bounds that `read_ts` and `write_ts` put on the history, the history legal and without late accesses, and every active transaction in step with the record of what became of each |
| TimestampReference.RefusedExactlyWhenLate | transactions/concurrency_control/timestamp_ordering.cpp:44-96 | for every run: a read by an active transaction of an item written before is refused exactly when some granted write of the item has a larger timestamp, and a write exactly when some granted access of the item has one |
| TimestampReference.SchedulerIsPlain | transactions/concurrency_control/timestamp_ordering.cpp:36-123 | over every run the scheduler has the same active transactions with their timestamps, the same fates and the same granted accesses as a reference that keeps no timestamps per item and looks through the history, and every item holds what was last written to it |
| TimestampOrdering.SortingKeepsMeaning | transactions/concurrency_control/timestamp_ordering.cpp:60-92 | a history in which no access conflicts with an earlier one of a larger timestamp is legal exactly when it is legal sorted by timestamp, and leaves the same contents |
| TimestampAborts.ReadReturnsWriteOfIff | transactions/concurrency_control/timestamp_ordering.cpp:44-69 | for every run and every granted read: it returns a write of an aborted, a running or a committed transaction exactly as the last granted write of the item before it is one of such a transaction |
| TimestampAborts.StruckOutLegalIff | transactions/concurrency_control/timestamp_ordering.cpp:44-123 | for every run: the history sorted by timestamp without the aborted transactions is legal exactly when every surviving read has a last surviving write of its item before it in the run, with the value it returned; the items end as the last surviving writes left them |
| TimestampAborts.AbortedCanBeStruckOut | transactions/concurrency_control/timestamp_ordering.cpp:113-123 | in particular it is legal if no surviving transaction read what an aborted one had written, and then items last written by survivors end with the values they have in the run |
| TimestampAborts.CommittedReadsSurviveAborts | transactions/concurrency_control/timestamp_ordering.cpp:44-123 | if before every granted read the last write of its item was committed or the reader's own, that is so at the end of the run, whoever has aborted by then |
| TimestampAborts.SortWithout | transactions/concurrency_control/timestamp_ordering.cpp:113-123 | striking transactions out of a history and sorting it can be done in either order |
| TimestampAborts.AbortedWriteIsRead | transactions/concurrency_control/timestamp_ordering.cpp:113-123 | an abort does not undo writes: for every item and value a run in which a later transaction reads the value of an aborted one, and whose history without the aborted one is not legal |
| TimestampOrdering.Scheduler.constructor | transactions/concurrency_control/timestamp_ordering.cpp:34 | the empty scheduler is in the state of the empty run |
| TimestampOrdering.Scheduler.BeginTransaction | transactions/concurrency_control/timestamp_ordering.cpp:36-42 | the fields end up as the run extended by this request prescribes; a transaction that is active already is not begun again |
| TimestampOrdering.Scheduler.ReadItem | transactions/concurrency_control/timestamp_ordering.cpp:44-69 | answers true exactly when the access is granted, aborts the transaction when it came too late, and otherwise raises the read timestamp |
| TimestampOrdering.Scheduler.WriteItem | transactions/concurrency_control/timestamp_ordering.cpp:71-96 | answers true exactly when the access is granted; a missing item is created before the timestamps are compared |
| TimestampOrdering.Scheduler.CommitTransaction | transactions/concurrency_control/timestamp_ordering.cpp:98-111 | ends the transaction if it is active and changes nothing else |
| TimestampOrdering.Scheduler.AbortTransaction | transactions/concurrency_control/timestamp_ordering.cpp:113-123 | ends the transaction if it is active and leaves all items as they are |
| DeadlockDetection.WaitForGraph.DetectDeadlock | transactions/concurrency_control/two_phase_locking.cpp:195-211 | on every finite graph it terminates and answers true exactly when the graph has a cycle, whatever order the hash map yields |
| DeadlockDetection.WaitForGraph.Dfs | transactions/concurrency_control/two_phase_locking.cpp:115-137 | true only if a cycle was closed; after false the recursion stack is as before and everything reachable is finished in an order that no edge goes against |
| DeadlockDetection.OrderedGraphHasNoCycle | transactions/concurrency_control/two_phase_locking.cpp:120-136 | a graph all of whose nodes are finished in such an order has no cycle |
| DeadlockDetection.CycleOnStack | transactions/concurrency_control/two_phase_locking.cpp:116-119 | meeting a transaction that is on the recursion stack closes a cycle |
| DeadlockDetection.RemovalBreaksItsCycles | transactions/concurrency_control/two_phase_locking.cpp:167-171 | removing a transaction from the graph leaves exactly the cycles that do not pass through it |
| DeadlockDetection.WaitForGraph.RemoveTransaction | transactions/concurrency_control/two_phase_locking.cpp:168-171 | the graph without the transaction and without edges to it |
| DeadlockDetection.WaitsCloseCycleIff | transactions/concurrency_control/two_phase_locking.cpp:153-159 | recording waits leaves a cycle in the graph exactly when there was one, or one of those waited for already leads back to the transaction |
| DeadlockDetection.WaitForGraph.AddWait | transactions/concurrency_control/two_phase_locking.cpp:157 | the edge to the other transaction is added and no other; the entry is created if there is none |
| TwoPhaseLocking.MutualExclusion | transactions/concurrency_control/two_phase_locking.cpp:27-98 | in every run with exclusive locks only, in which transactions release what they hold: a resource with requests has a holder, all its granted requests belong to one transaction, and no two transactions are recorded as holding it |
| TwoPhaseLocking.GrantedInArrivalOrder | transactions/concurrency_control/two_phase_locking.cpp:57-95 | in those runs each resource is granted in the order in which the requests arrived, and no request of another transaction is passed over |
| TwoPhaseLocking.ReleaseCompatibleIff | transactions/concurrency_control/two_phase_locking.cpp:71-95 | with shared and exclusive locks mixed, a release keeps granted locks compatible exactly when the first waiting request is compatible with the locks that stay |
| TwoPhaseLocking.ReleaseCanBreakCompatibility | transactions/concurrency_control/two_phase_locking.cpp:88-94 | two readers and a waiting writer: the release of one reader grants the writer beside the other |
| TwoPhaseLocking.AcquireKeepsCompatible | transactions/concurrency_control/two_phase_locking.cpp:40-59 | acquiring never grants a lock that is incompatible with a granted one |
| TwoPhaseLocking.DoKeepsInv | transactions/concurrency_control/two_phase_locking.cpp:142-193 | every operation of the transaction manager keeps the queue invariants of all resources and its own records in step with them |
| TwoPhaseLocking.ActiveIff | transactions/concurrency_control/two_phase_locking.cpp:142-193 | in every run a transaction is active exactly when it was begun and not finished since |
| TwoPhaseLocking.HeldIff | transactions/concurrency_control/two_phase_locking.cpp:148-175 | in every run a transaction is recorded as holding exactly the resources that it obtained and has not released since |
| LockRecords.QueuedIff | transactions/concurrency_control/two_phase_locking.cpp:27-98 | in every run a resource has queued exactly the requests that were made for it and whose transaction has not released it since |
| LockRecords.GrantedAtOnceIff | transactions/concurrency_control/two_phase_locking.cpp:40-59 | a request is granted at once exactly when no other transaction has an outstanding request on the resource, or all of them and itself are shared; so a sole holder can upgrade |
| LockRecords.FinishedLeavesNoRequest | transactions/concurrency_control/two_phase_locking.cpp:162-193 | the end of a begun transaction leaves no request of it on any resource that it had obtained |
| LockRecords.EdgeIff | transactions/concurrency_control/two_phase_locking.cpp:153-171 | in every run the wait-for graph has exactly the edges from a transaction that obtained a lock beside a waiting request of another, as long as neither has released anything since |
| MixedLocks.CompatibleThroughoutIff | transactions/concurrency_control/two_phase_locking.cpp:27-193 | in every run with locks of both kinds, granted locks are compatible in every state exactly when at every release the request that it grants is compatible with the locks that stay |
| MixedLocks.DoCompatibleIff | transactions/concurrency_control/two_phase_locking.cpp:27-193 | one operation of the transaction manager keeps granted locks compatible exactly when each request that it grants on release is; acquiring always does |
| MixedLocks.RecordsAreGranted | transactions/concurrency_control/two_phase_locking.cpp:142-193 | in every run, whatever the locks, a transaction is recorded as holding only resources on which it has a granted request |
| MixedLocks.HoldersShare | transactions/concurrency_control/two_phase_locking.cpp:27-193 | as long as releases are sound, two transactions recorded as holding one resource hold it with shared locks only |
| MixedLocks.OnlySharedIsOvertaken | transactions/concurrency_control/two_phase_locking.cpp:27-98 | in every run, whatever the locks, queues are in the order of arrival and a waiting request is overtaken by another transaction's only if both are shared |
| MixedLocks.NonePassedThroughoutIff | transactions/concurrency_control/two_phase_locking.cpp:27-98 | in every run, whatever the locks: in every state each waiting request came after everything granted on its resource, exactly when no request is granted at once while another, the asker's own included, waits there |
| MixedLocks.DoUnpassedIff | transactions/concurrency_control/two_phase_locking.cpp:27-98 | one operation lets a waiting request be passed exactly when it is such a request; a release never does |
| MixedLocks.UnpassedGrantsAscend | transactions/concurrency_control/two_phase_locking.cpp:57-95 | in such runs, whatever the locks, each resource is granted in the order in which the requests arrived |
| MixedLocks.GrantedInOrderIff | transactions/concurrency_control/two_phase_locking.cpp:57-95 | in every run, whatever the locks: each resource is granted in the order of arrival throughout exactly when every request that a release grants came after all granted on the resource before |
| MixedLocks.SharedCanBeOvertaken | transactions/concurrency_control/two_phase_locking.cpp:40-95 | a run in which a reader waiting behind a writer is passed by the writer's own shared request, so that grants are not in the order of arrival |
| MixedLocks.WriterPassedByOwn | transactions/concurrency_control/two_phase_locking.cpp:40-59 | a run in which a waiting writer is passed by a shared request of its own transaction |
| MixedLocks.RunCanBreakCompatibility | transactions/concurrency_control/two_phase_locking.cpp:71-95 | a run that ends with a writer holding a lock beside a reader: two readers, a waiting writer, and one reader leaves |
| TwoPhaseLocking.LockManager.RequestLock | transactions/concurrency_control/two_phase_locking.cpp:27-59 | appends the request and grants it exactly when no request of another transaction conflicts with it |
| TwoPhaseLocking.LockManager.IsGranted | transactions/concurrency_control/two_phase_locking.cpp:60-67 | the condition on which a waiting call returns: the transaction has a granted request on the resource |
| TwoPhaseLocking.LockManager.ReleaseLock | transactions/concurrency_control/two_phase_locking.cpp:71-98 | drops all requests of the transaction on the resource, grants the first that waits, and forgets a resource without requests |
| TwoPhaseLocking.TransactionManager.constructor | transactions/concurrency_control/two_phase_locking.cpp:140 | starts in the state of the empty run |
| TwoPhaseLocking.TransactionManager.BeginTransaction | transactions/concurrency_control/two_phase_locking.cpp:142-146 | the run extended by this operation |
| TwoPhaseLocking.TransactionManager.RequestLock | transactions/concurrency_control/two_phase_locking.cpp:148-149 | the first half of acquiring, up to where the call may wait |
| TwoPhaseLocking.TransactionManager.AddWaits | transactions/concurrency_control/two_phase_locking.cpp:153-159 | the loop over the requests adds an edge to every other transaction with a waiting request on the resource, and no other edge |
| TwoPhaseLocking.TransactionManager.ObtainLock | transactions/concurrency_control/two_phase_locking.cpp:149-160 | the second half: when the lock is granted the resource is recorded and the edges are added |
| TwoPhaseLocking.TransactionManager.ReleaseHeld | transactions/concurrency_control/two_phase_locking.cpp:165-172 | releases each recorded resource once, in any order, and takes the transaction out of the graph if there was any |
| TwoPhaseLocking.TransactionManager.ReleaseLocks | transactions/concurrency_control/two_phase_locking.cpp:162-175 | the run extended by the release of everything the transaction holds |
| TwoPhaseLocking.TransactionManager.FinishTransaction | transactions/concurrency_control/two_phase_locking.cpp:177-193 | commit and rollback: the run extended by the end of a transaction that was begun and not finished since, nothing for another |
| Paxos.OneValuePerNumber | distributed_systems/consensus/paxos.go:61-120 | in every reachable state of every interleaving of prepare and accept calls, all acceptances of a number come from one proposer and carry one value, and no acceptor has accepted beyond its promise |
| Paxos.OneProposerPerNumber | distributed_systems/consensus/paxos.go:69-78 | two proposers never get into the accept phase with one number: their majorities of promises would meet |
| Paxos.MajorityIsMoreThanHalf | distributed_systems/consensus/paxos.go:50 | a number of acceptors is a majority exactly when it is more than half of them |
| Paxos.ChosenIsMoreThanHalf | distributed_systems/consensus/paxos.go:50 | a value is chosen exactly when the acceptors that hold it, as a set, are more than half |
| Paxos.MajoritiesMeet | distributed_systems/consensus/paxos.go:50 | any two sets of `numAcceptors/2 + 1` acceptors have one in common |
| Paxos.NumbersNeverDecrease | distributed_systems/consensus/paxos.go:95-120 | over a whole run no acceptor's promised or accepted number ever goes down |
| Paxos.StepKeepsInv | distributed_systems/consensus/paxos.go:61-120 | every single call of every proposer keeps the invariant that counts promises, records who entered the accept phase and bounds accepted by promised numbers |
| Paxos.LaterProposalReplacesChosenValue | distributed_systems/consensus/paxos.go:61-120 | agreement across numbers fails: whatever other value is chosen, an undisturbed proposal leaves it chosen exactly when its number is not above the promises of a majority, and has its own value chosen exactly otherwise |
| Paxos.AnyValueCanBeChosen | distributed_systems/consensus/paxos.go:61-120 | every run, whatever it has led to, can be continued so that any value of an idle proposer is chosen; the others need not move |
| Paxos.TwoValuesCanBeChosen | distributed_systems/consensus/paxos.go:61-120 | for any two values, of any proposers, there is a run in which one is chosen and later the other |
| Paxos.SuccessMeansAccepted | distributed_systems/consensus/paxos.go:80-93 | in every interleaving: a proposer that has sent all its accept messages counts a majority exactly when a majority accepted its number with its value, and none of these ever goes back to a smaller number |
| Paxos.Proposer.constructor | distributed_systems/consensus/paxos.go:50 | the majority for the given acceptors: reached exactly by more than half of them |
| Paxos.Proposer.SendPrepare | distributed_systems/consensus/paxos.go:95-106 | a promise is given exactly to a larger number |
| Paxos.Proposer.SendAccept | distributed_systems/consensus/paxos.go:108-120 | the proposal is accepted exactly when no larger number was promised |
| Paxos.Proposer.PrepareLoop | distributed_systems/consensus/paxos.go:69-74 | counts the promises and leaves every acceptor as one prepare leaves it |
| Paxos.Proposer.AcceptLoop | distributed_systems/consensus/paxos.go:80-85 | counts the acceptances and leaves every acceptor as one accept leaves it |
| Paxos.Proposer.Propose | distributed_systems/consensus/paxos.go:61-93 | undisturbed, it succeeds exactly when more than half of the acceptors, as a set, had promised only smaller numbers, and then more than half hold its value |
| PlanSafety.KeyedPlansArePreserved | query_processor/planner/physical_plan.cpp:98-128 | over tables whose ids determine their rows the optimized plan returns the same rows in the same order, for every nesting of scans, filters and joins of any kind, with any other operators above the joins |
| PlanSafety.KeyedDetermines | query_processor/planner/physical_plan.cpp:98-128 | what scans, filters and joins of any kind return over such tables is again determined by the id |
| PlanSafety.MergePushLeftSafeIff | query_processor/planner/physical_plan.cpp:115-117 | the push to the left of a merge join keeps what the filter above returns, for every right table, exactly when the sort gives the filtered rows as it gives them among all rows, passing rows first per id |
| PlanSafety.MergePushRightSafeIff | query_processor/planner/physical_plan.cpp:118-120 | the same for the push to the right and every left table |
| MergeSafety.MergePushLeftPreservesIff | query_processor/planner/physical_plan.cpp:115-117 | for one plan and database the push to the left of a merge join keeps the result exactly when, for every id, the k-th passing left row finds after the push, if it finds a partner, the same values opposite as before it |
| MergeSafety.MergePushRightPreservesIff | query_processor/planner/physical_plan.cpp:118-120 | the same for the push to the right |
| MergeSafety.MergeResultChanges | query_processor/planner/physical_plan.cpp:98-123 | two left rows of one id, the first failing and the second passing, and one right row of the id: the optimized plan returns another result, whatever else the rows and the condition are |
| MergeSafety.OptimizeCanChangeMergeResult | query_processor/planner/physical_plan.cpp:98-123 | there is such a plan and database |
| PlanModel.OptimizePreserves | query_processor/planner/physical_plan.cpp:98-128 | for every well-formed plan and database, if every push is safe the optimized plan returns the same rows in the same order |
| PlanModel.NestedLoopsAreSafe | query_processor/planner/physical_plan.cpp:98-123 | plans that join by nested loops are optimized safely whatever the tables hold |
| PlanModel.HashPushRightPreservesIff | query_processor/planner/physical_plan.cpp:110-122 | pushing a filter to the right of a hash join keeps the result exactly when, for every left id, a passing right row implies that the last right row of that id passes |
| PlanModel.PushPreserves | query_processor/planner/physical_plan.cpp:110-123 | one push keeps what the filter above the join returns |
| PlanModel.DeterminedSideIsSafe | query_processor/planner/physical_plan.cpp:110-123 | pushing to a side whose ids determine its rows is safe for every kind of join |
| PlanModel.OptimizeCanChangeResult | query_processor/planner/physical_plan.cpp:98-123 | a plan with a hash join and a database for which the optimized plan returns another result |
| PlanModel.OptimizePushes | query_processor/planner/physical_plan.cpp:98-123 | in the optimized plan every filter above a join has its copy on the side it applies to, the left one first, all the way down |
| PlanModel.OptimizeColumns | query_processor/planner/physical_plan.cpp:98-123 | optimizing keeps the columns of a plan and its well-formedness |
| PlanModel.PushInto | query_processor/planner/physical_plan.cpp:110-123 | a push adds no node with two children and no one-child node above the join, and keeps the columns; so the recursion of `optimizePlan` ends |
| JoinPushDown.NestedLoopPushLeft | query_processor/planner/physical_plan.cpp:115-117 | filtering the left input of a nested loop join first gives the same rows |
| JoinPushDown.NestedLoopPushRight | query_processor/planner/physical_plan.cpp:118-120 | filtering the right input of a nested loop join first gives the same rows |
| JoinPushDown.HashPushLeft | query_processor/planner/physical_plan.cpp:115-117 | filtering the left input of a hash join first gives the same rows |
| JoinPushDown.HashPushRightIff | query_processor/planner/physical_plan.cpp:118-120 | filtering the right input of a hash join first gives the same rows exactly when the last row per id decides, and otherwise more rows |
| JoinPushDown.MergePushLeftIff | query_processor/planner/physical_plan.cpp:115-117 | filtering the left input of a merge first gives the same rows for every right input exactly when, per id, passing rows come first |
| JoinPushDown.MergePushRightIff | query_processor/planner/physical_plan.cpp:118-120 | the same for the right input of a merge |
| PhysicalPlan.PlanNode.Scanning | query_processor/planner/physical_plan.cpp:9-24 | a scan node stands for the scan of its table and is a tree of its own |
| PhysicalPlan.PlanNode.Processing | query_processor/planner/physical_plan.cpp:62-96 | a projection, sort, limit or aggregate node over the given plan |
| PhysicalPlan.PlanNode.Combining | query_processor/planner/physical_plan.cpp:130-155 | a union, intersection or difference node over two plans that share no node |
| PhysicalPlan.PlanNode.Filtering | query_processor/planner/physical_plan.cpp:53-60 | a filter node over the given plan |
| PhysicalPlan.PlanNode.Joining | query_processor/planner/physical_plan.cpp:26-51 | a join node over two plans that share no node |
| PhysicalPlan.PlanNode.CanPushFilter | query_processor/planner/physical_plan.cpp:125-128 | the condition reads only columns of the subtree |
| PhysicalPlan.PlanNode.PushDownFilter | query_processor/planner/physical_plan.cpp:110-123 | relinks the nodes so that they stand for the pushed plan; new nodes are the only additions |
| PhysicalPlan.PlanNode.OptimizePlan | query_processor/planner/physical_plan.cpp:98-108 | terminates on every plan tree and relinks it in place into the optimized plan |
| JoinAlgorithms.NestedLoopMultiplicity | query_processor/executor/join_algorithms.cpp:80-93 | a joined row occurs as often as its left part in the left table times its right part in the right table |
| JoinAlgorithms.HashIsNestedLoopOfLast | query_processor/executor/join_algorithms.cpp:34-51 | the hash join emits what the nested loop join emits against the right table reduced to its last row per id |
| JoinAlgorithms.MergePairsUp | query_processor/executor/join_algorithms.cpp:61-76 | the merge of sorted tables emits, per id, the left and right values paired up in order |
| JoinAlgorithms.MergeCountsPerId | query_processor/executor/join_algorithms.cpp:54-77 | the merge join emits, per id, the smaller of the two counts, whatever sort was used |
| JoinAlgorithms.JoinsAgreeOnUniqueIds | query_processor/executor/join_algorithms.cpp:34-93 | with ids unique in both tables all three joins emit the same bag of rows |
| JoinAlgorithms.HashJoin | query_processor/executor/join_algorithms.cpp:34-51 | the loops compute the specified sequence |
| JoinAlgorithms.NestedLoopJoin | query_processor/executor/join_algorithms.cpp:80-93 | the loops compute the specified sequence |
| JoinAlgorithms.MergeJoin | query_processor/executor/join_algorithms.cpp:54-77 | both tables are sorted in place, keeping their rows, and the result is the merge of the sorted tables |
| JoinAlgorithms.MergeSorted | query_processor/executor/join_algorithms.cpp:61-76 | the two-index loop computes the merge |
| LfuCache.UsesAreOperations | caching/lfu_cache.cpp:34-64 | the uses of a resident are the gets and puts of it since the put that brought it in, that put included |
| LfuCache.BornIsEntry | caching/lfu_cache.cpp:43-64 | that put found the key missing, and the key has been resident without a break since |
| LfuCache.PutEffect | caching/lfu_cache.cpp:43-64 | with a capacity other than 0 a put makes its key resident with its value and keeps the other residents and their values, except that a new key drives out of a full cache the resident with the fewest such gets and puts, the longest ago among equals |
| LfuCache.GetEffect | caching/lfu_cache.cpp:34-41 | a get changes no resident and no value |
| LfuCache.BackIsVictim | caching/lfu_cache.cpp:48-49 | the node at the back of the list of `minFreq` belongs to the resident key with the fewest uses since it came in, the one used longest ago among those |
| LfuCache.VictimUnique | caching/lfu_cache.cpp:47-54 | there is only one such key |
| LfuCache.MinFreqIsLeastUse | caching/lfu_cache.cpp:12-29 | `minFreq` is the least number of uses of any resident key, and some key has it |
| LfuCache.SizeWithinCapacity | caching/lfu_cache.cpp:43-63 | over every run a cache of capacity c >= 0 holds at most c keys |
| LfuCache.ResidentsHoldLastPut | caching/lfu_cache.cpp:34-64 | over every run a resident key has the value of its last put |
| LfuCache.MoveFiles | caching/lfu_cache.cpp:16-29 | moving a used node to the front of the next list keeps the lists equal to what the history of uses prescribes |
| LfuCache.MoveKeepsLeast | caching/lfu_cache.cpp:20-24 | and keeps `minFreq` the least non-empty frequency |
| LfuCache.EvictFiles | caching/lfu_cache.cpp:48-54 | dropping the back of a list removes exactly its key |
| LfuCache.EnterFiles | caching/lfu_cache.cpp:57-59 | a new key goes to the front of the list of frequency 1, which is then the least |
| LfuCache.LFUCache.constructor | caching/lfu_cache.cpp:32 | the empty cache is in the state of the empty run |
| LfuCache.LFUCache.UpdateFrequency | caching/lfu_cache.cpp:16-29 | from the lists of a history to the lists of the history with one more use |
| LfuCache.LFUCache.Get | caching/lfu_cache.cpp:34-41 | answers the value of the last put of a resident key or -1, and counts as one more use |
| LfuCache.LFUCache.Put | caching/lfu_cache.cpp:43-64 | refines the history-based specification: updates, or enters after evicting the specified victim from a full cache |
| LfuCache.LFUCache.Evict | caching/lfu_cache.cpp:47-54 | removes the specified victim |
| LruCache.SmallerIsIncluded | caching/lru_cache.cpp:17-56 | for capacities 1 <= c1 <= c2 and any shared run, the smaller cache's list is a subsequence of the larger's with the same values |
| LruCache.HitsAgree | caching/lru_cache.cpp:30-38 | so every hit of the smaller cache is the same hit of the larger |
| LruCache.ListIsByLastUse | caching/lru_cache.cpp:17-56 | over every run the list holds the resident keys, each once, in the order of their last get or put |
| LruCache.PutEffect | caching/lru_cache.cpp:40-56 | a put makes its key resident with its value and keeps the other residents and their values, except that a new key drives out of a full cache the one whose last get or put is the oldest |
| LruCache.ResidentsHoldLastPut | caching/lru_cache.cpp:30-56 | a resident key has the value of its last put |
| LruCache.VictimIsLeastRecent | caching/lru_cache.cpp:46-51 | a put evicts only from a full cache, and only the key used longest ago |
| LruCache.LRUCache.constructor | caching/lru_cache.cpp:25-27 | the empty cache is in the state of the empty run |
| LruCache.LRUCache.MoveKeyToFront | caching/lru_cache.cpp:17-21 | the same keys with this one at the front and any two others in the order they had |
| LruCache.LRUCache.Get | caching/lru_cache.cpp:30-38 | answers the value of the last put of a resident key or -1, and makes it the most recent |
| LruCache.LRUCache.Put | caching/lru_cache.cpp:40-56 | the state that the run extended by this put prescribes |
| MultiMaster.Convergence | distributed_systems/replication/multi_master.cpp:39-76 | for any number of replicas in a full mesh and any interleaving of writes and deliveries, if every write's timestamp is fresh then whenever no message is on its way every replica holds, for every key, exactly the write with the greatest timestamp |
| MultiMaster.WriteKeepsInvIff | distributed_systems/replication/multi_master.cpp:39-53 | a write keeps the replication invariant exactly when its timestamp is new for the key and newer than what the writer holds |
| MultiMaster.InvThroughoutIff | distributed_systems/replication/multi_master.cpp:39-76 | the replication invariant holds in every state of a run exactly when every write's timestamp is fresh when it is made |
| MultiMaster.WriteAtRestIff | distributed_systems/replication/multi_master.cpp:39-76 | equal replicas at rest are equal again after a write and its deliveries exactly when the write is newer than what was there, or the same |
| MultiMaster.NewerWriteReunitesIff | distributed_systems/replication/multi_master.cpp:39-76 | replicas at rest, equal or not, agree on a key after a write of it and its deliveries exactly when the write is newer than what each other one had, or the same; other keys are untouched |
| MultiMaster.DeliveryOrderIrrelevant | distributed_systems/replication/multi_master.cpp:56-76 | all orders of delivering what is on its way end in the same stores |
| MultiMaster.Drain | distributed_systems/replication/multi_master.cpp:49-52 | from every reachable state everything on its way can be delivered |
| MultiMaster.LatestIsGreatest | distributed_systems/replication/multi_master.cpp:62-75 | the reference: the latest write of a key is a write of it, and none has a greater timestamp |
| MultiMaster.MasterNode.ReplicateData | distributed_systems/replication/multi_master.cpp:56-76 | the entry replaces an older one or none, and is ignored otherwise |
| MultiMaster.MasterNode.WriteData | distributed_systems/replication/multi_master.cpp:39-53 | the entry is stored unconditionally here and received by every peer |
| BTreeModel.AnyInsertions | indexing/b_tree/b_tree_index.cpp:48-148 | after any sequence of insertions, duplicates included: the traversal is the sorted sequence of the inserted keys, all leaves are at one depth, the key bounds hold, search finds exactly the inserted keys, and n keys at height h satisfy n >= 2*3^h - 1 |
| BTreeModel.InsertCorrect | indexing/b_tree/b_tree_index.cpp:76-97 | one insertion keeps the tree well formed and adds exactly one occurrence of its key |
| BTreeModel.InsertNonFullCorrect | indexing/b_tree/b_tree_index.cpp:99-122 | insertion below a non-full node keeps the shape and adds the key in order |
| BTreeModel.SplitChildCorrect | indexing/b_tree/b_tree_index.cpp:124-148 | a split keeps the shape, keeps the in-order keys and leaves two halves that are not full |
| BTreeModel.SearchCorrect | indexing/b_tree/b_tree_index.cpp:62-74 | the search succeeds exactly on the keys of the tree, in a node that holds the key |
| BTreeModel.KeyCount | indexing/b_tree/b_tree_index.cpp:15-20 | a subtree of height h with m keys in its root holds at least (m + 1)*3^h - 1 keys |
| BTreeNodes.InsertSorted | indexing/b_tree/b_tree_index.cpp:103-108 | the shifting loop inserts the key into the sorted prefix of the array |
| BTreeNodes.BTreeNode.Search | indexing/b_tree/b_tree_index.cpp:62-74 | on the nodes in memory: finds a node exactly when the tree they hold has the key, and that node has it |
| BTreeNodes.BTreeNode.Traverse | indexing/b_tree/b_tree_index.cpp:48-60 | prints the in-order sequence of the tree the nodes hold |
| BTreeNodes.BTreeNode.SplitChild | indexing/b_tree/b_tree_index.cpp:124-148 | the nodes changed in place hold the tree with the child split |
| BTreeNodes.BTreeNode.InsertNonFull | indexing/b_tree/b_tree_index.cpp:99-122 | the nodes changed in place hold the tree with the key inserted |
| BTreeIndex.BTree.constructor | indexing/b_tree/b_tree_index.cpp:32-34 | the empty index |
| BTreeIndex.BTree.Search | indexing/b_tree/b_tree_index.cpp:41-43 | a node is returned exactly for the keys inserted so far |
| BTreeIndex.BTree.Traverse | indexing/b_tree/b_tree_index.cpp:36-39 | prints the inserted keys, sorted, each as often as it was inserted |
| BTreeIndex.BTree.Insert | indexing/b_tree/b_tree_index.cpp:76-97 | the objects hold a well-formed B-tree of the inserted keys and this one |
| BTreeRebalance.FillChoice | indexing/b_tree/node.cpp:128-140 | a key comes over from the left neighbour if it has one to spare, else from the right one if it has, and else the child is joined with the right neighbour, or the left one if it is the last |
| BTreeRebalance.FillInOrder | indexing/b_tree/node.cpp:128-207 | whichever repair is chosen, the node's keys stay the same in the same order |
| BTreeRebalance.FillShape | indexing/b_tree/node.cpp:76-85 | the node keeps its height and bounds, loses at most one key, and the child to descend into has at least t keys |
| BTreeRebalance.FillKeepsKeyReachable | indexing/b_tree/node.cpp:74-85 | the key being deleted is below the chosen child exactly if the node held it |
| BTreeRebalance.SuccFromIsFirst | indexing/b_tree/node.cpp:120-126 | the successor walk finds the first key of the subtree |
| BTreeRebalance.PredFromIsLastIff | indexing/b_tree/node.cpp:112-118 | the predecessor walk finds the last key of the subtree exactly when it starts at a leaf or all keys below the last child equal the one it finds |
| BTreeRebalance.PredFromIsLastIffLeaf | indexing/b_tree/node.cpp:112-118 | on distinct keys the predecessor walk finds the last key of the subtree exactly when the subtree is a leaf |
| BTreeDelete.RemoveKeys | indexing/b_tree/node.cpp:61-110 | deletion takes out exactly one occurrence of the key, and nothing for a key that is absent |
| BTreeDelete.RemoveShape | indexing/b_tree/node.cpp:61-110 | deletion keeps all leaves at one depth and every key bound; the node itself loses at most one key |
| BTreeDelete.RemoveKeepsOrderIff | indexing/b_tree/node.cpp:61-118 | on every ordered tree, repeated keys included, deletion keeps the keys in order exactly when, wherever on its way down it looks for a predecessor, the walk finds the last key below the child |
| BTreeDelete.RemoveKeepsDistinctOrderIff | indexing/b_tree/node.cpp:61-118 | on distinct keys that is exactly when it never looks for a predecessor below a child that is not a leaf |
| BTreeDelete.LowTreesAreOrderly | indexing/b_tree/node.cpp:61-118 | in trees of one or two levels that never happens |
| BTreeDelete.DeletionCanBreakOrder | indexing/b_tree/node.cpp:94-118 | a tree of three levels whose deletion of key 11 leaves the keys out of order |
| BTreeNodes.BTreeNode.FindKey | indexing/b_tree/node.cpp:54-59 | the first position whose key is not below the given one |
| BTreeNodes.BTreeNode.BorrowFromPrev | indexing/b_tree/node.cpp:141-160 | the arrays changed in place hold the tree with one key moved over from the left |
| BTreeNodes.BTreeNode.BorrowFromNext | indexing/b_tree/node.cpp:162-183 | the arrays changed in place hold the tree with one key moved over from the right |
| BTreeNodes.BTreeNode.Merge | indexing/b_tree/node.cpp:185-207 | the arrays changed in place hold the tree with the two children joined |
| BTreeNodes.BTreeNode.Fill | indexing/b_tree/node.cpp:128-139 | the nodes changed in place hold the refilled tree |
| BTreeRemoval.CloseGap | indexing/b_tree/node.cpp:89-93 | the loop that closes the gap of a deleted key |
| BTreeRemoval.GetPred | indexing/b_tree/node.cpp:112-118 | the walk in memory returns what the walk on the tree returns |
| BTreeRemoval.GetSucc | indexing/b_tree/node.cpp:120-126 | the walk in memory returns what the walk on the tree returns |
| BTreeRemoval.Remove | indexing/b_tree/node.cpp:61-87 | the nodes changed in place hold the tree that the deletion on values gives |
| TrieIndex.Trie.constructor | indexing/trie_index/trie_index.cpp:48-50 | the empty trie |
| TrieIndex.Trie.Insert | indexing/trie_index/trie_index.cpp:56-65 | the stored set grows by the word; every node still lies on the way to a stored word |
| TrieIndex.Trie.Remove | indexing/trie_index/trie_index.cpp:86-111 | the stored set loses the word, nodes that lead to no word are cut off, and the answer is true exactly when it was the only word |
| TrieIndex.Trie.RemoveHelper | indexing/trie_index/trie_index.cpp:91-111 | below a node: the word is gone, pruned up to this node, and the answer says whether no other word goes through it |
| TrieIndex.Trie.SearchPrefix | indexing/trie_index/trie_index.cpp:36-45 | a node is found exactly for the empty prefix and for prefixes of stored words |
| TrieIndex.Trie.Search | indexing/trie_index/trie_index.cpp:67-70 | true exactly for stored words |
| TrieIndex.Trie.StartsWith | indexing/trie_index/trie_index.cpp:72-74 | true exactly for the empty prefix and for prefixes of stored words |
| TrieIndex.Trie.CollectWords | indexing/trie_index/trie_index.cpp:25-34 | lists the stored words below a node, each once |
| TrieIndex.Trie.GetWordsWithPrefix | indexing/trie_index/trie_index.cpp:76-84 | lists exactly the stored words with the prefix, each once |
| TrieIndex.ChildlessIff | indexing/trie_index/trie_index.cpp:92-110 | a node can be cut off, being no word and having no children, exactly when no stored word goes through it |
| IsolationReference.ReadReturns | transactions/isolation_levels.cpp:24-56 | for every run and every read, told from the operations alone: it returns the transaction's own last write or first read of the key at the two upper levels, else the value published last by a write below the overlays or a commit; it fails exactly when the transaction is not active or there is no such value |
| IsolationReference.ReadsLatest | transactions/isolation_levels.cpp:24-56 | after a write below the overlays, and any operations that publish nothing else of the key, every read at the two lower levels and every first read at the two upper levels returns it |
| IsolationReference.RunIsReference | transactions/isolation_levels.cpp:24-69 | in every state of every run each transaction has the level and the own value of each key, and the data the published value, that the operations give |
| IsolationLevels.NoTraceThroughoutIff | transactions/isolation_levels.cpp:24-69 | for every run and every transaction, at whatever level and committed or not: erasing its operations changes nothing else in any state of the run exactly when each of its writes below the overlay levels and each of its commits leaves the data as it is when it is made |
| IsolationLevels.UncommittedLeavesNoTrace | transactions/isolation_levels.cpp:24-69 | a transaction at REPEATABLE_READ or SERIALIZABLE that never commits leaves no trace: erasing its operations from any run changes neither the data, nor the other transactions, nor any result of theirs |
| IsolationLevels.RollbackUndoesEverything | transactions/isolation_levels.cpp:115-119 | a run that ends by rolling such a transaction back ends as if it had never been |
| IsolationLevels.ReadsRepeat | transactions/isolation_levels.cpp:30-46 | in such a transaction a second read returns what the first did, whatever the others do in between |
| IsolationLevels.ReadsOwnWrite | transactions/isolation_levels.cpp:49-56 | in such a transaction a read returns its own last write |
| IsolationLevels.WriteHiddenIff | transactions/isolation_levels.cpp:49-56 | a write leaves the shared data as it is exactly at the two upper levels or when the value was there already |
| IsolationLevels.RolledBackWriteRemains | transactions/isolation_levels.cpp:49-69 | at the two lower levels a rolled-back write stays |
| IsolationLevels.CommitChangesNothingIff | transactions/isolation_levels.cpp:58-64 | a commit leaves the data as it is exactly when everything in the overlay, values only read included, is still current |
| IsolationLevels.ReaderUndoesWrite | transactions/isolation_levels.cpp:34-36 | so the commit of a transaction that only read can undo a write committed meanwhile |
| IsolationLevels.Database.constructor | transactions/isolation_levels.cpp:87-92 | the three initial entries |
| IsolationLevels.Database.BeginTransaction | transactions/isolation_levels.cpp:94-97 | a new transaction with an empty overlay, after those of the same id |
| IsolationLevels.Database.ReadItem | transactions/isolation_levels.cpp:99-102 | result and new state as specified, with the two exceptions as outcomes |
| IsolationLevels.Database.WriteItem | transactions/isolation_levels.cpp:104-107 | result and new state as specified, with a missing transaction as outcome |
| IsolationLevels.Database.CommitTransaction | transactions/isolation_levels.cpp:109-113 | the overlay is applied and all transactions of the id are removed |
| IsolationLevels.Database.RollbackTransaction | transactions/isolation_levels.cpp:115-119 | all transactions of the id are removed |
| IsolationLevels.Database.GetTransaction | transactions/isolation_levels.cpp:122-129 | the first transaction of the id |
| IsolationLevels.Database.CommitLocal | transactions/isolation_levels.cpp:58-64 | the loop applies the whole overlay, in any order |
| ConsistentHashing.ServesIffNearest | networking/load_balancing/consistent_hashing.cpp:53-59 | the point that serves a hash is the nearest one going up and around |
| ConsistentHashing.AddMovesOnlyToNew | networking/load_balancing/consistent_hashing.cpp:36-41 | on a non-empty ring a new node takes exactly the keys that one of its points now serves; every other key keeps its owner |
| ConsistentHashing.RemoveMovesOnlyOwned | networking/load_balancing/consistent_hashing.cpp:43-48 | if a node's points carry no other node, its removal changes the owner only of keys it owned |
| ConsistentHashing.RemoveMovesNoOtherIff | networking/load_balancing/consistent_hashing.cpp:43-60 | a removal moves no key that another node owns exactly when each point that it takes from another node, by collision, is followed on the ring that is left by one of the same node |
| ConsistentHashing.AddThenRemoveIff | networking/load_balancing/consistent_hashing.cpp:36-48 | adding and then removing a node restores the ring exactly when its points were free |
| ConsistentHashing.AddsCommuteIff | networking/load_balancing/consistent_hashing.cpp:36-41 | two nodes can be added in either order exactly when they share no point |
| ConsistentHashing.HistoryIndependent | networking/load_balancing/consistent_hashing.cpp:36-48 | without collisions the ring depends only on who is on it, not on the sequence of additions and removals |
| ConsistentHashing.ApartIff | networking/load_balancing/consistent_hashing.cpp:36-41 | under a hash without collisions a set of nodes shares no point exactly when no id in it is another id followed by a number smaller than a tenth of the replicas |
| ConsistentHashing.PointsMeetIff | networking/load_balancing/consistent_hashing.cpp:36-41 | the same for two nodes |
| ConsistentHashing.ExtendedIdsCollide | networking/load_balancing/consistent_hashing.cpp:36-41 | under every hash two such ids share a point |
| ConsistentHashing.HashRing.AddNode | networking/load_balancing/consistent_hashing.cpp:36-41 | the loop gives the node all its points |
| ConsistentHashing.HashRing.RemoveNode | networking/load_balancing/consistent_hashing.cpp:43-48 | the loop erases all the node's points |
| ConsistentHashing.HashRing.FindPoint | networking/load_balancing/consistent_hashing.cpp:53-59 | the first point from a hash on, or the first of all |
| ConsistentHashing.HashRing.GetNode | networking/load_balancing/consistent_hashing.cpp:50-60 | the owner, or none on an empty ring |
| BufferPool.PagesAsWrittenIff | storage/buffer_manager.cpp:44-107 | over every run of fetches, writes through pages, marks and flushes: pages are as last written in every state of the run exactly when no fetch evicts a page that was changed and not marked, and nothing new is written to a page that is no longer the cached one |
| BufferPool.StepAsExpectedIff | storage/buffer_manager.cpp:44-107 | one operation changes the contents of pages as it should exactly when it loses no write in that sense |
| BufferPool.FlushedDiskIsLastWrittenIff | storage/buffer_manager.cpp:99-107 | at the end of a run that lost nothing, flushing everything leaves the last writes on disk exactly when no change is left unmarked |
| BufferPool.FlushedPageIsLastWrittenIff | storage/buffer_manager.cpp:90-97 | at the end of a run that lost nothing, flushing a page leaves its last write on disk exactly when it has no unmarked change, and no other page on disk is touched |
| BufferPool.DirtyIff | storage/buffer_manager.cpp:83-107 | in every run a cached page is dirty exactly when it was marked while cached and neither flushed nor loaded anew since |
| BufferPool.DisciplineLosesNothing | storage/buffer_manager.cpp:115-125 | clients that write only to cached pages, and mark every page before the next fetch, lose nothing, and have no change left unmarked but those not yet marked by their calls |
| BufferPool.CallsShowDiscipline | storage/buffer_manager.cpp:115-125 | clients that write only to the page fetched last keep to that discipline, which their calls alone show |
| BufferPool.MarkedTooLate | storage/buffer_manager.cpp:44-88 | in a pool of one page a page is fetched and written, another is fetched and the first is marked: the write is lost, for every disk and every data |
| BufferPool.EvictKeepsContentsIff | storage/buffer_manager.cpp:46-53 | an eviction keeps the contents exactly when the victim is dirty or as on disk: an unmarked change is lost |
| BufferPool.SizeWithinCapacity | storage/buffer_manager.cpp:45 | the pool never holds more pages than its capacity |
| BufferPool.EvictsAtMostOne | storage/buffer_manager.cpp:45 | a page is evicted only from a full pool, and only one |
| BufferPool.ListIsByLastUse | storage/buffer_manager.cpp:66-78 | over every run the list is in the order in which pages were last asked for |
| BufferPool.LeastRecentGoes | storage/buffer_manager.cpp:44-56 | a fetch that evicts keeps only pages asked for more recently |
| BufferManager.Manager.constructor | storage/buffer_manager.cpp:59-60 | the empty pool over the given disk |
| BufferManager.Manager.EvictPage | storage/buffer_manager.cpp:44-56 | the eviction loop |
| BufferManager.Manager.FetchPage | storage/buffer_manager.cpp:62-81 | returns the cached page, as last written if nothing was lost so far, and makes it the most recent |
| BufferManager.Manager.WritePage | storage/buffer_manager.cpp:115-116 | a write through a page given out at any time: it changes the cached page if this is still the one, and nothing in the pool otherwise; the dirty flag stays |
| BufferManager.Manager.MarkPage | storage/buffer_manager.cpp:83-88 | marks a cached page and ignores others |
| BufferManager.Manager.FlushPage | storage/buffer_manager.cpp:90-97 | writes a dirty cached page back |
| BufferManager.Manager.FlushAllPages | storage/buffer_manager.cpp:99-107 | whatever order the table yields, afterwards all dirty pages are on disk; if nothing was lost, the disk is as last written exactly when no change was left unmarked |
| WriteAheadLog.RoundTripIff | transactions/logging/write_ahead_log.cpp:32-104 | the log reads back the records as written, but for their timestamps, exactly when no old or new data holds a comma or a line break |
| WriteAheadLog.ParsedIsClean | transactions/logging/write_ahead_log.cpp:62-104 | whatever is read from any file has data without commas and line breaks |
| WriteAheadLog.ParsePrintedLine | transactions/logging/write_ahead_log.cpp:32-37 | a printed record parses back, negative ids and empty data included |
| WriteAheadLog.LineLayout | transactions/logging/write_ahead_log.cpp:32-37 | a line is the kind, the transaction, the page, the old and the new data and the time, in this order and with commas between |
| WriteAheadLog.ParsesIff | transactions/logging/write_ahead_log.cpp:88-104 | a line parses exactly when it has at least six fields, the first three and the sixth being numbers in range |
| Decimal.ParsePrinted | transactions/logging/write_ahead_log.cpp:96-101 | a printed integer reads back as itself, if it is in the range of the parsed type |
| Decimal.ParseNumeral | transactions/logging/write_ahead_log.cpp:96-101 | white space, a sign or none and digits parse to their value if it is in range, whatever follows the digits |
| Decimal.OnlyNumeralsParse | transactions/logging/write_ahead_log.cpp:96-101 | nothing else is taken for a number |
| WriteAheadLog.SplitUnlines | transactions/logging/write_ahead_log.cpp:66-71 | reading line by line gives back the lines that were written |
| WriteAheadLog.SplitText | transactions/logging/write_ahead_log.cpp:89-94 | the loop of separated reads computes the specified pieces |
| WriteAheadLog.Log.WriteLog | transactions/logging/write_ahead_log.cpp:52-59 | the file holds the records written so far and this one |
| WriteAheadLog.Log.ParseLogRecord | transactions/logging/write_ahead_log.cpp:88-104 | the specified record or the specified error |
| WriteAheadLog.Log.ReadLogs | transactions/logging/write_ahead_log.cpp:62-73 | returns what was written exactly when all of it was clean |
| WriteAheadLog.Log.ClearLogs | transactions/logging/write_ahead_log.cpp:76-81 | the empty log |

## Left out

- TwoPhaseLocking.MutualExclusion: exclusive locks only, and transactions that release what they hold; what holds with both kinds of locks is in MixedLocks. That the wait-for graph shows the real waits is not claimed: the source adds edges after the wait.
- TwoPhaseLocking.GrantedInArrivalOrder: exclusive locks only; with both kinds it fails (SharedCanBeOvertaken), and GrantedInOrderIff and NonePassedThroughoutIff say when it holds.
- TwoPhaseLocking.DoKeepsInv: exclusive locks only; DoCompatibleIff, RecordsAreGranted and OnlySharedIsOvertaken are for both kinds.
- PlanModel.OptimizePreserves: the safety condition is sufficient for a whole plan; exact conditions are proved for every single push, since an operator above an unsafe push may hide the difference.
- IsolationLevels.UncommittedLeavesNoTrace: for transactions that work on an overlay from their first operation; NoTraceThroughoutIff is for all.
- Paxos.Proposer.Propose: one proposer undisturbed; interleavings are the subject of OneValuePerNumber and SuccessMeansAccepted. The learners and the uncalled receive functions are not modelled.
- Iterators into lists, reference counts, freed memory, condition variables and the overflow of counters and timestamps.
- The second mutex that some methods take while they hold it; the inner call is part of the same step.
- Shrinking the root of a B-tree after a deletion: the class that owns the root is not part of this model; the root may be left without keys.
- `BTreeNode::search` of the deletion code: it reads one key past the last.
- Hash, range and geographic sharding, the hash index, row and column stores, the inverted index, round robin, the parsers: they would only add easy members.
- Raft, the R-tree, the write-back and write-through caches, master-slave replication: what one would want of them does not follow from the code there is.
- Cost estimation, compression, encryption, authentication, the network layers, dashboards and scripts.
