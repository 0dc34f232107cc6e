# ActonDB in Dafny

ActonDB is the replicated transactional store behind the Acton runtime (`backend/`). This project
models its hard core and proves what that core is for:

* **Commit protocol** (`Quorum`, `QuorumSafety`, `CommitOrder`, `Decisions`, `Rounds`, `CommitEffects`,
  `CommitRuns`). Clients, servers and votes in flight form one state machine with any interleaving,
  with clients that ask again and with servers that stop, at a failed assertion or for no reason. In
  every run, committed transactions that write the same path are ordered by the servers both clients
  counted, that order is the order in which the clients decided, and it has no cycle. A server votes
  for a transaction exactly when it clashes with no validated one and its queue operations apply, and a
  client commits exactly when a majority voted for it. Every server holds at every path what the
  transaction it persisted last there leaves; those that voted in time hold what the last decision
  leaves, and agree, if the writers conflict.
* **Transactions on a server** (`TxnWrites`, `WriteSets`, `Database`, `Transactions`, `IssueOrder`,
  `EnqueueOrder`, `QueueLives`, `TxnReads`, `HeadCommits`). What the write-set comparator orders, what
  a sorted and deduplicated write set still says about the operations issued, when persisting it agrees
  with the order of issue, which queues are there after a commit, that reading queues in a transaction
  agrees with reading them directly, and exactly when a commit gets past the assertions on queue heads.
* **Skiplist** (`Order`, `SortedSeq`, `Skiplists`). Linked nodes with per-level forward arrays, updated
  in place, refine a sorted map for every choice of levels and every sequence of operations.
* **Queues** (`Queues`, `QueueRows`, `QueueRuns`, `Deliveries`, `DeliveryRuns`). Append-only logs with
  per-consumer heads, for every interleaving of direct operations and transactions. Direct reads
  deliver exactly once and in order; for reads in transactions there is an exact condition on the
  commits, and what else is delivered is accounted for.
* **Row trees** (`KeyPaths`, `Cells`, `Tables`, `FlatTables`, `RowTrees`, `Rebuild`). Nested cells in
  the heap refine a flat map; flattening rows into a response and rebuilding them at the client gives
  the rows back.
* **Hash ring and membership** (`Hashes`, `HashRings`, `Memberships`). The hash is a bijection, the
  ring's lookup finds the owner wherever its comparator orders the positions and its counter is right,
  and a membership round does not depend on the order of the answers.

Where a promise does not hold of the code, the code is kept, a lemma names a concrete input, and
another says exactly when the promise holds (for conflicts of row deletes, where it is sure to):

* comparing keys: `LongCmpOrdersInterval` (input `LongCmpCycle`); comparing ring positions:
  `LongCmpOrdersIff` (`RingGoesAstray` is a lookup that goes wrong where they are not ordered);
* deleting from an empty list: `Skiplist.Delete`, `Table.DeleteRow` and `QueueRow.Unsubscribe` say when
  the header is freed, `LooksLikeHeaderIff` for which keys (`HeaderTakenForEntry`);
* range searches: `RangeExactIff` (`RangeOvershoots`); reads of no entries: `CountCheckIff`
  (`ZeroReadFindsOne`);
* delivering entries once: `ExactlyOnceIff` and `OverlapLaw` (`TwoTransactionsGetTheSame`,
  `OutlivedSubscriptionSkips`);
* committing queue reads: `ReadChecksIff` (`OvertakenCommitStops`, and as a run `OvertakenReadStops`);
* consuming in a transaction: `ConsumeChecksIff` (`UnreadConsumeStops`);
* row deletes in a transaction: `PersistMatchesIssueOrderIff` (`DeletedCellComesBack`);
* deleting queues in a transaction: `QueuesAfterCommit` (`DeletionIsLost`); reporting failed writes:
  `CommitReports` (`FailureNotReported`);
* asking for validation again: `ValidationFindsActive` (`SecondRoundStops`);
* persist order outside the quorums: `PersistOrderIsVoteOrder` (`LateVoterReverses`); conflicts of row
  deletes: `UpdatesConflict` (`RowDeleteDoesNotConflict`);
* inserting rows: `InsertPathIff` (`ExtraKeyMisplaced`), `Table.Insert` (`LongerRowDoesNotFit`,
  `FirstInsertLosesColumns`);
* answering reads: `ReadAnsweredIff`, `FullPathReadIff` and `RangeAnsweredIff` (`PartialReadStops`,
  `ColumnlessReadStops`);
* counting live buckets: `LiveCounterIff` (`CounterSlips`); finding one: `NobodyIff`
  (`LiveBucketNotFound`) and `AnsweredIff` (`SearchNeverEnds`).

## Assumptions

* **Key order.** Skiplists take any comparator that is a total preorder on the keys used. `long_cmp` is
  one on intervals of at most 2^31 keys, and on no longer one; write sets are assumed to stay within
  such an interval (`Issuable`). Queue entry ids and row keys are compared in their intended order. The
  ring takes any comparator, and its lookup is right where the comparator orders the positions.
* **Sentinel key.** The header's key is not a user key. Keys that merely compare equal to it are; on an
  empty list deleting them frees the header.
* **Table kinds.** No table mixes regular writes and queue operations (`Admissible`);
  `MixedTableBreaksOrder` shows why.
* **Row shape.** The schema's clustering keys are columns 1 to d. Rows of one table may have different
  numbers of keys in `Tables`; the flat tables of `Database` stand for tables whose rows all have the
  same number, at least one clustering key among them, where every insert fits (`SameDepthFits`;
  `PersistIsInsert` and `PersistIsDeleteRow` tie the two).
* **Vector clocks.** Versions are opaque. Whether a read set is stale, and the outcome of a head's
  version check, are arbitrary inputs of every validation.
* **Clients and network.** A client broadcasts to all servers over reliable first-in-first-out
  connections and writes nothing after it first asks for validation. Replies to an earlier round of
  validation do not count. There are at most `replication_factor` servers. Servers handle one message
  at a time and may stop for ever; votes may be lost. That a server validates the complete write set
  is then a consequence (`ValidationFindsActive`).

## Model

| member | source | states |
|---|---|---|
| `Order.LongCmpOrdersInterval` | backend/skiplist.c:31-33 | `long_cmp` agrees with the order of 64-bit keys on an interval if and only if the interval has at most 2^31 keys |
| `Order.LongCmpCycle` | backend/skiplist.c:31-33 | three 32-bit keys each of which compares below the next |
| `Order.LongCmpPreorder` | backend/skiplist.c:31-33 | within a window of 2^31 keys `long_cmp` is a total preorder |
| `Order.LooksLikeHeaderIff` | backend/skiplist.c:31-70 | `long_cmp` does not tell a key from the header's if and only if its low 32 bits are all set |
| `SortedSeq.GetAfterPut` | backend/skiplist.c:80-117 | after inserting, the key (and any equal one) answers with the new value and every other key as before |
| `SortedSeq.PutKeepsOrder` | backend/skiplist.c:80-117 | inserting keeps the entries strictly sorted and adds one entry exactly when the key was not there |
| `SortedSeq.PutKeepsKeys` | backend/skiplist.c:91-96 | what is stored keeps its key, also when its value is replaced |
| `SortedSeq.GetAfterRemove` | backend/skiplist.c:208-239 | after deleting, the key answers with nothing and every other key as before |
| `SortedSeq.GetDetermines` | backend/skiplist.c:131-145 | sorted entries that answer every lookup alike are the same |
| `Skiplists.Skiplist.constructor` | backend/skiplist.c:54-70 | a new list is empty and well linked on every level |
| `Skiplists.Skiplist.Search` | backend/skiplist.c:131-145 | the walk ends, and at the node of the key if it is stored, else at none |
| `Skiplists.Skiplist.SearchHigher` | backend/skiplist.c:147-160 | finds the node of the least key not below the argument |
| `Skiplists.Skiplist.FindPredecessors` | backend/skiplist.c:81-89 | records, for each level, the last node before the key that takes part in that level |
| `Skiplists.LinkAll` | backend/skiplist.c:108-112 | redirecting one pointer per level leaves every level exactly the chain of tall enough nodes, the new one included |
| `Skiplists.Skiplist.Insert` | backend/skiplist.c:80-117 | for every choice of level the list is well linked again and holds the old map with the key updated |
| `Skiplists.UnlinkAll` | backend/skiplist.c:223-227 | stops at the first level the node does not take part in and leaves every level the chain without it |
| `Skiplists.Skiplist.Delete` | backend/skiplist.c:208-239 | returns the stored value and leaves the map without that key, levels and count adjusted, on nodes that were there before; it frees the header if and only if the list is empty and the header compares equal to the key |
| `Skiplists.Skiplist.Clone` | backend/skiplist.c:119-129 | a separate list of new nodes with the same entries |
| `Skiplists.Skiplist.WalkToEnd` | backend/client_api.c:1577-1581 | a walk along the lowest level from the head to the end counts as many nodes as the list has items |
| `Skiplists.Skiplist.Perform` | backend/skiplist.c:80-239 | any sequence of inserts, deletes and searches answers and ends as the same sequence on a sorted map, unless a delete frees the header |
| `Skiplists.HeaderTakenForEntry` | backend/skiplist.c:208-239 | on an empty list of 64-bit keys, deleting 2^32 - 1 frees the header |
| `TxnWrites.WriteCmpIsLex` | backend/txn_state.c:26-78 | the comparator has the sign of the lexicographic order on a key of each write |
| `TxnWrites.WriteCmpPreorder` | backend/txn_state.c:26-78 | on admissible writes the comparator is a total preorder |
| `TxnWrites.EqualClasses` | backend/txn_state.c:26-78 | two writes compare equal exactly when they are on the same path, the same consumer's head, or share their stamp |
| `TxnWrites.MixedTableBreaksOrder` | backend/txn_state.c:34-50 | on a table with both kinds of operation two writes can each compare above the other |
| `WriteSets.WriteSetOrdered` | backend/txn_state.c:362-378 | whatever is issued, the write set stays strictly sorted and no larger than the number of operations |
| `WriteSets.LastWriteWins` | backend/txn_state.c:362-378 | looking up an operation finds the last one issued on the same object |
| `WriteSets.ValuesSorted` | backend/txns.c:556-575 | the operations a persist goes through are strictly increasing |
| `WriteSets.ValueIsLast` | backend/txn_state.c:537-571 | each of them is the last one issued on its object |
| `WriteSets.LastIsValue` | backend/txn_state.c:537-571 | and the last one issued on any object is among them |
| `Queues.RangeSearch` | backend/db.c:648-689 | the scan returns the first row not below the start and the number of rows up to where it stops |
| `Queues.RangeExactIff` | backend/db.c:648-689 | the result is the closed key range if and only if the end key is stored or nothing is stored beyond it |
| `Queues.RangeOvershoots` | backend/db.c:648-689 | a search that returns a key beyond its end |
| `Queues.BatchIsLogSlice` | backend/queue.c:573-596 | a read of at least one entry returns the log between the old and the new head, and its count assertion holds |
| `Queues.CountCheckIff` | backend/queue.c:573-587 | with unread entries the count assertion holds if and only if at least one entry is asked for |
| `Queues.CompleteIff` | backend/queue.c:567-603 | a read says COMPLETE if and only if it leaves nothing unread, which it does if and only if max reaches the end |
| `Queues.ConsumeMoves` | backend/queue.c:753-782 | an accepted consume sets that consume head, also back, and touches nothing else; a rejected one changes nothing; the status tells which |
| `Queues.ZeroReadFindsOne` | backend/queue.c:573-587 | a read that asks for nothing and finds an entry |
| `QueueRows.Fetch` | backend/queue.c:648-664 | the shared part of read and peek returns the log after an offset, up to the new head, and says COMPLETE if and only if that is the last entry |
| `QueueRows.QueueRow.constructor` | backend/queue.c:1078-1108 | a new queue is the sentinel entry and an empty log |
| `QueueRows.QueueRow.Enqueue` | backend/queue.c:258-293 | the item goes to the end of the log under the next id; heads stay in bounds |
| `QueueRows.QueueRow.Subscribe` | backend/queue.c:785-825 | a new consumer starts before the first entry; a known one keeps its heads and gets them back |
| `QueueRows.QueueRow.Unsubscribe` | backend/queue.c:951-983 | only that consumer's heads go and the status is 0 even if it had none, unless the header of the consumer list is freed, which happens if and only if there are no consumers and the id looks like the header's key |
| `QueueRows.QueueRow.Read` | backend/queue.c:515-604 | the batch is the log between the consumer's old and new head, and the status is COMPLETE if and only if the new head is the last entry; assertions hold and heads stay in bounds |
| `QueueRows.QueueRow.Peek` | backend/queue.c:606-667 | the same batch and status from an offset or the head, with nothing moved; an unknown consumer is reported |
| `QueueRows.QueueRow.ReadWhileNotEmpty` | backend/test/queue_unit_tests.c:121-157 | reading until COMPLETE ends and returns exactly the entries the consumer had not read |
| `QueueRows.QueueRow.Consume` | backend/queue.c:735-783 | moves the consume head to where it says if the consumer has read that far, and else changes nothing; consume heads stay at or below read heads |
| `QueueRows.QueueRow.SetPrivateReadHead` | backend/queue.c:427-473 | moves one read head forward; heads stay in bounds |
| `QueueRows.QueueRow.SetPrivateConsumeHead` | backend/queue.c:475-513 | moves one consume head forward, up to the read head at most; heads stay in bounds |
| `QueueRuns.ReachableQueue` | backend/queue.c:258-293 | after every history of direct operations and commits the cells are the sentinel and the log numbered from 0, and consume head <= read head < number of entries for every consumer |
| `QueueRuns.ChecksIff` | backend/queue.c:427-667 | in every reachable queue the assertions of an operation hold if and only if it asks for an entry when there are unread ones, or commits a head between the right bounds |
| `QueueRuns.ReadHeadsNeverRewind` | backend/queue.c:427-473 | no event but unsubscribing moves a read head back, commits included; subscribing again changes nothing |
| `QueueRuns.ConsumeHeadIsLast` | backend/queue.c:735-783 | after every history a consume head is that of the last accepted consume, direct or committed, since the subscription, and -1 if there was none |
| `Deliveries.ReachableState` | backend/queue.c:427-667 | every run of direct operations and of transactions that read, commit and abort is a history of the queue: numbered log, heads in bounds |
| `Deliveries.DeliveredFromLog` | backend/queue.c:515-667 | whatever a consumer is handed, by direct reads or by committed transactions, are entries of the log with their own items |
| `Deliveries.ExactlyOnceIff` | backend/queue.c:427-473 | all along a run a consumer has been handed the log up to its read head, once and in order, if and only if every commit for it passes exactly the entries its transaction read |
| `Deliveries.CommitOverlaps` | backend/queue.c:427-473 | a commit hands over again the entries the head has passed since its transaction's reads started; none exactly when the head is still there |
| `Deliveries.OverlapLaw` | backend/queue.c:427-667 | if no transaction outlives its consumer's subscription, a consumer has been handed every entry up to its head and as many more as its commits overlapped; none twice if and only if none did |
| `Deliveries.CaughtUp` | backend/queue.c:515-604 | a consumer whose commits are in step has been handed the whole log if and only if nothing is unread for it |
| `Deliveries.CompleteReadCatchesUp` | backend/queue.c:596 | for such a consumer a read says COMPLETE if and only if with it the whole log has been handed over |
| `Deliveries.AbortForgets` | backend/txns.c:582-585 | what an aborted transaction has read is not delivered by a later commit, and no head moves |
| `DeliveryRuns.TwoTransactionsGetTheSame` | backend/txns.c:793-832 | two transactions read an entry before either commits, and both commit |
| `DeliveryRuns.OvertakenReadStops` | backend/queue.c:399-404 | a direct read overtakes a transaction, whose commit stops the server |
| `DeliveryRuns.OutlivedSubscriptionSkips` | backend/queue.c:951-983 | a transaction commits into a later subscription of its consumer, which then misses an entry |
| `IssueOrder.RowAfter` | backend/txns.c:494-541 | after a sequence of writes a cell is what the last write on it leaves |
| `IssueOrder.CellAgreesIff` | backend/txns.c:543-580 | a cell ends up as the order of issue says if and only if its row is not deleted after its last update |
| `IssueOrder.PersistMatchesIssueOrderIff` | backend/txns.c:543-580 | the same for whole tables |
| `IssueOrder.DeletedCellComesBack` | backend/txns.c:508 | update a cell, delete its row, commit: the cell is there |
| `EnqueueOrder.EnqueuesKeepIssueOrder` | backend/txn_state.c:528-535 | for every queue the write set holds exactly the enqueues issued, in the order of issue |
| `EnqueueOrder.PersistAppendsInIssueOrder` | backend/txns.c:543-580 | persisting appends them to the queue in that order under consecutive ids |
| `Database.PersistIsStep` | backend/txns.c:494-541 | what a persisted operation does to a queue that stays is one of the queue's own events, with its assertions met |
| `Database.PersistKeepsQueues` | backend/txns.c:543-580 | whatever a transaction holds, persisting it keeps every queue a numbered log with heads in bounds |
| `QueueLives.WriteTouches` | backend/txns.c:494-541 | a write touches the rows of its table or the one queue it names, and nothing else |
| `QueueLives.StatusReported` | backend/txns.c:494-541 | persisting reports 0 if and only if the table, queue, consumer or row it needs is there, and a queue to be created is not; otherwise it names what is missing |
| `QueueLives.CommitReports` | backend/txns.c:543-580 | a commit reports what its last write reports |
| `QueueLives.FailureNotReported` | backend/txns.c:563-575 | an earlier write is lost and the commit reports 0 |
| `QueueLives.QueueGoesAndComes` | backend/queue.c:1057-1220 | a deleted queue is gone, a created one is an empty log without consumers, and one that is there is not created again |
| `QueueLives.QueuesAfterCommit` | backend/txns.c:543-580 | after a commit a queue is there if and only if it was there or is created, and the transaction's last deletion from the table is not of this queue |
| `QueueLives.CreatedIsEmpty` | backend/txns.c:543-580 | a queue that a commit creates is empty after it: enqueues are persisted before creations |
| `QueueLives.DeletionIsLost` | backend/txn_state.c:26-78 | of two deletions in a transaction only the later one happens |
| `Transactions.Server.NewTxn` | backend/actondb.c:878-908 | adds an empty active transaction, or reports a duplicate and changes nothing |
| `Transactions.Server.AddToTxn` | backend/txn_state.c:362-378 | stamps the operation and puts it into the write set, or reports an unknown transaction |
| `Transactions.Server.IsWriteInvalidated` | backend/txns.c:324-447 | a regular write is invalid exactly when another validated transaction holds an equal one; queue operations are judged by the backend |
| `Transactions.Server.ValidateTxn` | backend/txns.c:450-492 | votes by the first invalid write and marks the transaction validated exactly on COMMIT; see `Decisions.ValidateIff` |
| `Transactions.Server.PersistTxn` | backend/txns.c:543-580 | persists the write set in its order and closes the transaction; the server stops if and only if some write on the way is not safe |
| `Transactions.Server.HandleCommit` | backend/actondb.c:918-932 | the same for whatever the server has of the transaction, validated or not |
| `Transactions.Server.AbortTxn` | backend/txns.c:582-585 | forgets the transaction and leaves the backend alone |
| `Transactions.Server.CommitTxn` | backend/txns.c:587-629 | persists exactly when validation says COMMIT; the transaction is gone either way if the server is still there |
| `Transactions.ValidatedEnqueuesPersist` | backend/txns.c:352-365 | once validation says COMMIT, every enqueue persists with status 0 |
| `TxnReads.LookupPrevHead` | backend/txns.c:802-820 | the scan finds the head of the first matching read in the write set |
| `TxnReads.PrevHeadIsLastRead` | backend/txns.c:802-820 | that is the head of the read issued last |
| `TxnReads.ReadQueueInTxn` | backend/txns.c:793-832 | returns the log from where the transaction has read to, with the right status, or says what is missing; the new head is recorded in either case |
| `TxnReads.SameReads` | backend/queue.c:606-667 | step by step, a transaction's reads return what direct reads return, whatever other clients do |
| `TxnReads.ReadsAreSession` | backend/txns.c:793-832 | whatever other clients do, the head in the write set and the entries returned are those the runs of module Deliveries keep for the transaction |
| `HeadCommits.TransactionalReadsMatchDirect` | backend/txns.c:793-832 | any sequence of reads in a transaction and its commit return the same entries and leave the same read head as direct reads |
| `HeadCommits.CommitSetsHead` | backend/queue.c:427-473 | a commit leaves the read head of the transaction's last read |
| `HeadCommits.CommitSetsConsumeHead` | backend/queue.c:475-513 | and the consume head of its last consume, or the old one if it has none |
| `HeadCommits.ReadChecksIff` | backend/queue.c:399-461 | when the commit gets to the read, the assertions on the new head hold if and only if it is that of an entry at or after the consumer's read head before the commit |
| `HeadCommits.HeadChecksPass` | backend/queue.c:427-473 | so they hold as long as nobody else moves the head of the transaction's consumer |
| `HeadCommits.OvertakenCommitStops` | backend/txns.c:332-344 | a transaction whose read was overtaken is validated, since only the version of the queue is checked, and its commit stops the server |
| `HeadCommits.ConsumeChecksIff` | backend/queue.c:475-513 | when the commit gets to the consume, the assertions on the new head hold if and only if it is between the old consume head and the read head that the transaction's own reads leave |
| `HeadCommits.UnreadConsumeStops` | backend/queue.c:497-503 | a transaction that is validated and whose commit stops the server: it consumes what its consumer has not read |
| `Quorum.TallyVotes` | backend/client_api.c:3188-3223 | the counting loop decides by the votes alone, in whatever order they arrive: COMMIT if and only if a majority voted so, NO_QUORUM if and only if only a minority replied |
| `Quorum.TallyIsSupport` | backend/client_api.c:3197-3212 | the count is the number of servers that voted COMMIT |
| `Quorum.DecisionIff` | backend/client_api.c:3188-3227 | the decision is COMMIT if and only if some majority of the replicas all voted COMMIT, whatever the others did, and there is none if and only if only a minority replied |
| `QuorumSafety.ClashBlocksVote` | backend/txns.c:374-415 | a server holding one of two clashing transactions validated does not vote for the other |
| `Decisions.ValidateIff` | backend/txns.c:324-492 | a server votes COMMIT if and only if reads are up to date, the transaction clashes with no VALIDATED one, and its queue operations apply; ACTIVE transactions do not matter |
| `Decisions.SchemaAbortIff` | backend/txns.c:324-366 | a refusal names the schema if and only if the first refused write is on a queue that is not there and needs to be |
| `Decisions.VoteIff` | backend/txns.c:324-492 | the same in every run, over the transactions the server has voted for and not finished |
| `Decisions.CommitStopsIff` | backend/actondb.c:918-932 | in every run the decision to commit stops a server if and only if persisting the write set fails an assertion, and else the write set is persisted |
| `Decisions.DecideIff` | backend/client_api.c:3188-3227 | in every run a client commits if and only if a majority voted for its transaction, goes without a quorum if and only if a minority replied, and else aborts; nothing else moves |
| `Rounds.VotesAccounted` | backend/client_api.c:3159-3195 | in every run a server has answered the last request of a waiting client if and only if its vote is counted or on its way: none is lost, and none of an earlier round counts |
| `Rounds.StoppedForGood` | backend/txns.c:543-580 | a server that stopped at an assertion handles nothing ever after and stores what it stored |
| `QuorumSafety.NextKeeps` | backend/client_api.c:3381-3457 | every step of every client and server, further rounds of validation and crashes included, keeps the invariants of votes, persists and decisions |
| `QuorumSafety.Reachable` | backend/client_api.c:3381-3457 | so they hold after every run |
| `CommitOrder.QuorumsMeet` | backend/client_api.c:176 | two quorums share a server |
| `CommitOrder.PersistOrderIsVoteOrder` | backend/actondb.c:910-932 | on a server that voted for two clashing committed transactions, the one it voted for first is persisted before the vote for the other, and only that one |
| `CommitOrder.PromptVoterFollowsDecisions` | backend/actondb.c:910-932 | a server that voted for the first decided one by then persists both in decision order |
| `CommitOrder.ConflictOrderIsDecisionOrder` | backend/client_api.c:3413-3433 | in every run, of two clashing committed transactions a shared server persisted exactly one before voting for the other, and it is the one decided first; all shared servers agree |
| `CommitOrder.NoConflictCycle` | backend/client_api.c:3413-3433 | no path of conflicts in any run leads back to where it started |
| `CommitOrder.ValidationFindsActive` | backend/txns.c:450-462 | a validation finds the transaction with all its writes, and finds it active if and only if the server has not voted for it before; otherwise the server stops |
| `CommitOrder.FirstRoundFindsActive` | backend/txns.c:450-462 | in a first round the assertion holds |
| `CommitOrder.ValidatedDisjoint` | backend/txns.c:324-492 | in every reachable state no server holds two validated transactions with regular writes that compare equal |
| `CommitEffects.EveryRunStores` | backend/txns.c:543-580 | after every run each server holds at each path what the transaction it persisted last among those that write there leaves |
| `CommitEffects.HoldsLastDecided` | backend/client_api.c:3413-3433 | a server that voted in time for all committed transactions writing a path, and persisted them, holds there what the one decided last leaves, if that one conflicts with the others |
| `CommitEffects.ReplicasAgree` | backend/client_api.c:3413-3433 | two such servers agree |
| `CommitEffects.UpdatesConflict` | backend/txns.c:374-415 | the conflicts this needs are there if no transaction deletes the row |
| `CommitEffects.RowDeleteDoesNotConflict` | backend/txns.c:374-415 | a row delete and an update in the row are both validated, and the order of persisting decides what is left |
| `CommitRuns.BothCommit` | backend/client_api.c:3381-3433 | two transactions on one path do commit one after the other at two of three servers |
| `CommitRuns.LateVoterReverses` | backend/actondb.c:910-932 | in a run of three servers the one that is late to vote persists two clashing committed transactions against the order of the decisions |
| `CommitRuns.SecondRoundStops` | backend/client_api.c:3451-3457 | a run in which a client without a quorum asks again and stops a server that had voted |
| `Cells.CreateRow` | backend/db.c:60-149 | a new row is a chain of new cells, one per key, with the columns in the last |
| `Cells.Hang` | backend/db.c:369 | hanging a chain below a cell gives a well-shaped tree with exactly the chain's paths added |
| `Cells.NewCell` | backend/db.c:383-393 | one more cell, at one more path |
| `Tables.InsertPathIff` | backend/db.c:379 | the path of an insert is the row's leading columns if and only if it has no keys beyond the schema's, or these repeat the column before |
| `Tables.ExtraKeyMisplaced` | backend/db.c:379 | a row whose last key is taken from the wrong column |
| `Tables.InsertRow` | backend/db.c:365-370 | the new-row branch adds one path to the flat map, without columns if the row has no clustering key |
| `Tables.InsertBelow` | backend/db.c:371-425 | the existing-row branch adds or replaces one path; it gets to a leaf if and only if no stored path goes on where this one ends or ends where it goes on |
| `Tables.Table.Insert` | backend/db.c:348-434 | for any number of clustering keys from the schema's on, the flat map is updated at the row's path and nowhere else, or the server stops; says exactly when |
| `Tables.StoredCompatible` | backend/db.c:348-434 | no stored path is the beginning of another |
| `Tables.SameDepthFits` | backend/db.c:348-434 | in a table whose rows all have the same number of keys every insert fits |
| `Tables.LongerRowDoesNotFit` | backend/db.c:379-399 | a row with one key more or less than one that is there stops the server |
| `Tables.FirstInsertLosesColumns` | backend/db.c:60-108 | without clustering keys a row's columns are stored by the second insert only |
| `FlatTables.UpdatePath` | backend/db.c:348-434 | the path and the columns at which the tree stores an update are those of the flat rows |
| `FlatTables.PersistIsInsert` | backend/txns.c:498-503 | on a table whose rows have the schema's number of keys, persisting an update is inserting the row into the tree |
| `FlatTables.PersistIsDeleteRow` | backend/txns.c:504-509 | persisting a row delete is deleting the row of the tree, and frees the header in the same case |
| `Tables.Table.Search` | backend/db.c:587-622 | returns the cell at the path, or none; the server stops if and only if a stored path ends above it |
| `Tables.SearchIsLookup` | backend/db.c:587-622 | that is lookup in the flat map for stored paths, and for others finds a cell exactly when a stored path starts there |
| `Tables.Table.DeleteRow` | backend/db.c:940-959 | removes the paths of one row and reports whether there were any, unless the header of the row list is freed, which happens if and only if the table is empty and the key looks like the header's |
| `RowTrees.CountCells` | backend/actondb.c:416-434 | counts the leaves, and raises the depth by the number of inner cells |
| `RowTrees.CountMatches` | backend/actondb.c:416-475 | as many cells are counted as are emitted |
| `RowTrees.DepthBound` | backend/actondb.c:416-434 | the depth computed is enough for every leaf |
| `RowTrees.PathsFit` | backend/actondb.c:436-475 | no emitted path is longer than that |
| `RowTrees.SerializeCells` | backend/actondb.c:436-475 | fills exactly the next places of the output with the row's cells and leaves the outer part of the path buffer alone; its assertions hold if and only if every leaf has columns and is deep enough |
| `RowTrees.ReadResponse` | backend/actondb.c:477-533 | the response to a read is the flattened row; buffers are large enough and the count assertion holds; there is none if and only if an assertion on a leaf fails |
| `RowTrees.RangeResponse` | backend/actondb.c:590-632 | the same for a range of rows of different depths |
| `RowTrees.ColumnsRoundTrip` | backend/failure_detector/cells.c:236-267 | columns and blob survive being sent |
| `RowTrees.ReadAnsweredIff` | backend/actondb.c:446-490 | a single read by m of a table's d + 1 keys is answered if and only if no leaf is without columns and, where m is all of them, the row has the schema's `min_no_cols`, and else m is 1 |
| `RowTrees.RangeAnsweredIff` | backend/actondb.c:445-446 | a range read by m keys is answered if and only if m is 1 and no leaf is without columns |
| `RowTrees.PartialReadStops` | backend/actondb.c:446 | a cell and a range of leaves, in a table with three keys, that are not answered |
| `RowTrees.FullPathReadIff` | backend/actondb.c:489 | a row read by its full path is answered if and only if its columns without keys are at least `min_no_cols`, which counts the keys too |
| `RowTrees.ColumnlessReadStops` | backend/actondb.c:488 | a row inserted once without clustering keys cannot be read |
| `Rebuild.InsertCell` | backend/client_api.c:1552-1575 | adds one path below the deepest existing cell; the duplicate-path assertion holds |
| `Rebuild.ListRoots` | backend/client_api.c:1535-1549 | the list of roots holds one root for each first key, whatever the order of the cells |
| `Rebuild.RebuildForest` | backend/client_api.c:1514-1586 | for cells none of which is above another, the forest holds exactly what they say, and walking the list of roots counts them all: the count assertion holds |
| `Rebuild.LongCmpTellsApart` | backend/client_api.c:1526 | the list's comparator is good enough for roots within a window of 2^31 keys |
| `Rebuild.RebuildTree` | backend/client_api.c:1588-1633 | the same for a single tree; the common-root assertion holds |
| `Rebuild.SentIsRebuildable` | backend/actondb.c:590-632 | what a server sends for a range is such a list |
| `Rebuild.RowsInOrder` | backend/actondb.c:436-475 | the cells are sent in lexicographic order of their key paths |
| `Rebuild.SentIsOneTree` | backend/actondb.c:477-533 | what it sends for a single row is one with a common root |
| `Rebuild.RebuildUndoesSerialize` | backend/client_api.c:1514-1586 | rebuilding the forest gives back the same roots, keys, children, columns and blobs at every depth |
| `Rebuild.RebuildTreeUndoesSerialize` | backend/client_api.c:1588-1633 | so does rebuilding the tree of a single row |
| `Hashes.XorShiftTwice` | backend/hashes.h:18-25 | combining a word with its upper half is its own inverse |
| `Hashes.TimesBack` | backend/hashes.h:18-25 | multiplication by an invertible factor modulo 2^32 can be undone |
| `Hashes.HashIsBijection` | backend/hashes.h:18-25 | `hash32` has a two-sided inverse on 32-bit words |
| `Hashes.OneHash` | backend/hashes.h:18-25 | one value of it |
| `HashRings.HasBucketIff` | backend/hash_ring.c:52-58 | where the comparator orders the positions, one is taken exactly when a bucket with the same 32-bit id is there |
| `HashRings.HashRing.AddBucket` | backend/hash_ring.c:48-68 | leaves the counter as right or wrong as it was, under any comparator; where it orders the positions, refuses exactly such buckets and else adds this one and no other |
| `HashRings.HashRing.SetBucketStatus` | backend/hash_ring.c:98-126 | sets the status of the bucket with that id and nothing else where the positions are ordered; the counter goes off by one if and only if the change is between two statuses other than LIVE |
| `HashRings.SetMarks` | backend/hash_ring.c:98-126 | afterwards the bucket with the id has the status, and every other bucket and all positions are as before |
| `HashRings.AddPlaces` | backend/hash_ring.c:48-68 | a bucket is added at its position beside all others, unless its id is there |
| `HashRings.LiveCounterIff` | backend/hash_ring.c:48-126 | after every history, under any comparator, the counter is the number of live buckets less the number of such changes |
| `HashRings.RingStaysInOrder` | backend/hash_ring.c:48-126 | after every history of buckets at ordered positions the ring is in order |
| `HashRings.LiveDeadHistoriesCount` | backend/hash_ring.c:48-126 | with LIVE and DEAD only, the counter is always right |
| `HashRings.CounterSlips` | backend/hash_ring.c:113-121 | a bucket that joins with a third status and dies takes the counter to -1 |
| `HashRings.FindLive` | backend/hash_ring.c:155-180 | the search ends within one wrap at the first live bucket from where it started |
| `HashRings.FoundOwns` | backend/hash_ring.c:155-180 | in a ring in order that is the live bucket at the least clockwise distance |
| `HashRings.LookupFindsOwner` | backend/hash_ring.c:138-185 | so lookup finds the owner, or nothing exactly when none is live |
| `HashRings.LookupOnCircle` | backend/hash_ring.c:138-185 | in the intended order this holds after every history, for every object |
| `HashRings.LookupOnArc` | backend/hash_ring.c:138-185 | under `long_cmp` it does for buckets and objects on an arc of less than half the circle, across position 0 as well |
| `HashRings.AnsweredIff` | backend/hash_ring.c:145-185 | a lookup comes to an end if and only if the counter or the factor keep it from starting or some bucket is live; which answer it gives then |
| `HashRings.NobodyIff` | backend/hash_ring.c:147-154 | nobody is found exactly when no bucket is live if and only if the counter is 0 exactly then |
| `HashRings.LiveBucketNotFound` | backend/hash_ring.c:147-154 | a history after which a live bucket is found for no object |
| `HashRings.SearchNeverEnds` | backend/hash_ring.c:158-180 | a history after which a lookup never ends |
| `HashRings.HashRing.GetBucket` | backend/hash_ring.c:138-185 | the answer for any state of the counter and any factor; a bucket that is returned is the owner where the positions are ordered |
| `HashRings.OwnerUnique` | backend/hash_ring.c:138-185 | an object has one owner |
| `HashRings.KillMovesOnlyItsOwn` | backend/hash_ring.c:98-131 | between a lookup before and one after a bucket is killed, all objects it owned move to others and no other object moves |
| `HashRings.ReviveMovesOnlyToIt` | backend/hash_ring.c:98-136 | after a bucket is revived an object belongs to it if and only if the bucket is there and no live one is nearer, and other objects stay |
| `HashRings.AddMovesOnlyToIt` | backend/hash_ring.c:48-68 | a live bucket that is added gets exactly the objects to which no live one is nearer, and other objects stay |
| `HashRings.IdCmpOrders` | backend/hash_ring.c:28 | the intended order is one for all positions |
| `HashRings.LongCmpOrdersIff` | backend/hash_ring.c:28 | the comparator the ring is created with orders a set of positions if and only if they lie on an arc of less than half the circle |
| `HashRings.LookupGoesAstray` | backend/hash_ring.c:138-185 | three buckets around the circle end up out of order, and an object is sent past its owner |
| `HashRings.RingGoesAstray` | backend/hash_ring.c:138-185 | there are such buckets and objects under `hash32` |
| `Memberships.FateAfter` | backend/actondb.c:1841-1877 | updating the status by one answer gives the fate of all answers so far |
| `Memberships.RoundOutcome` | backend/actondb.c:1815-1883 | for every sequence of responses, counter, status and amendments depend only on who answered what; stale responses change nothing |
| `Memberships.StatusIff` | backend/actondb.c:1841-1877 | at any time in a round, exactly when it is rejected, amended, accepted and still active; accepted only once everybody answered |
| `Memberships.AllAnswered` | backend/actondb.c:1815-1883 | once the counter is 0: rejected if anyone rejected, else amended if anyone amended, else accepted |
| `Memberships.Proposer.Propose` | backend/actondb.c:1592-1625 | asks exactly the live connected peers and counts them |
| `Memberships.Proposer.HandleResponse` | backend/actondb.c:1815-1883 | the counter is the number of missing answers and never negative; exactly which responses yield a merged view, and every finished proposal that is not rejected has one |

## Left out

- Sockets, packets, argument parsing, monitoring, logging and protobuf packing: input and output.
- Memory management, locks and condition variables: the server is single threaded, and each handler is one step.
- Vector clock arithmetic and everything it decides, including version checks of queue heads and merging of membership views: versions are opaque.
- Read-write conflicts between transactions and conflicts between queue operations: the code returns before it gets to them.
- Deleting a single cell, which removes the whole row (backend/txns.c:508), in the comparison with the order of issue; deleting rows is covered.
- Group subscriptions and notification of subscribers: callbacks and sockets.
- Replay of queues and `skiplist_get_range`: not used by the handlers.
- Liveness of the client's persist loop; retrying and giving up are steps that may or may not happen.
- Secondary indexes, column reads and row tombstones: unsupported paths or side data.
- The skiplists inside cells, write sets, rings and queues are used at their proved meaning, a sorted or finite map, and not linked node by node again.
- QuorumSafety.Reachable: a client that issues more operations between two rounds of validation is not modelled; servers that stopped do not come back.
- Database.PersistKeepsQueues: inserts that do not fit among rows of another depth, which `Tables.Table.Insert` covers, are not among the writes that stop a server here.
- Rebuild.RebuildForest: the root list is filled in a pass of its own after the forest, with the same searches and inserts in the same order; the original does both cell by cell.
- HashRings.LookupGoesAstray: out of order, the list is taken with all its nodes on the lowest level, which is one of the choices `rand_level` has.
