# A verified model of the Diamante consensus node

Four connected parts of a hybrid blockchain node, written as imperative Dafny where the Go code
works by changing state, and as functions and lemmas where the statements range over whole graphs,
runs or lists. Each locked Go method is one atomic step. Every loop over a Go map takes its next
key by an arbitrary choice, so what is proved holds for every iteration order. Where the code
never returns, the model answers so instead.

**Finality over an event DAG.** `EventGraph` defines, on values, what it means that a validator has
been seen by an event, what passes the vote and what the periodic scan detects; `DagRuns` what
holds over every run of the operations that build a DAG. `DagStore`, `Voting` and `Finality` hold
the classes; their search loops and their two different early-exit stake counts are proved against
those definitions. `FinalityRuns` states what holds over every run of the engine, and the methods of `Lachesis` promise to be steps of such runs. `Lachesis.Orderly`
is what all its operations keep: events lie under their own IDs, every recorded entry is the DAG's
own object and flagged, final IDs are flagged, the threshold is legal. `GraphRepair` is about
calling the repair again and again. `FinalityCases` holds short runs that show where the promises
end.

**Transaction pool.** `TxHeap` is the binary heap with back-pointers, including the sifting loops
that Go's `container/heap` supplies. `TransactionPool` keeps heap, map, account index, nonce
watermark and counters in agreement; `Pool.Valid` is what every operation keeps. The ghost list
`accepted` is the history: in `Valid`, every sender's accepted nonces strictly rise over the whole
run, across removal, eviction and expiry, and every transaction was signed, well formed and in time
by what the node answered when it came (`arrivals`). `PoolCases` is one run that evicts. `Nonces` is replay
protection and batch validation, `TransactionManager` the interplay of pool and nonce tracker.

**Proof of stake and governance.** `ProofOfStake.DPoS` keeps books: the total is the sum over all
validators, the active total the sum over the active list, the flags mark exactly that list, and
the total plus everything in the slash log equals what was registered, edited in and rewarded. All
of it holds through every step inside an epoch. `StakeMath` has the truncating arithmetic with the
64-bit wrap-around of products, `ValidatorRanking` the exchange sort in place. `Tally` is the
arithmetic of a vote, `Governance` the life of a proposal; each proposal carries, as ghost state,
its statuses so far, the ballot it was decided on and how often it was carried out with success.
The call that carries a proposal out does the counting and looks at no status; that nothing is
carried out twice is what the methods around it keep, and each of them states the new status,
history and count of every proposal.

**Proof of history and recovery.** `ProofOfHistory` is the hash chain. `Recovery` saves three
engines in a checkpoint, restores them from it, and rolls all three back when one refuses. From
engines in order, recovery ends with all three at the checkpoint or all three as before.

Where a contract names a function of the model, the fields, numbers and bounds behind it are
spelled out beside it or in a lemma about that function.

Hashes are free constructors over what is hashed. Stakes and counters are natural numbers,
thresholds, fees and performance are reals, times are whole numbers. What a computation needs from
outside (clock readings, network load, priority, signature and balance checks, the score of stake
and performance, the decay factor, payload decoding) is a parameter.

## What turned out different

Each of these is the code's behaviour, stated by the member named.

- `Vote` counts the creator's stake even when the creator is deactivated, detection does not. They
  differ exactly when such stake tips the vote or there is no stake
  (`EventGraph.VoteAndDetectionDiffer`); one graph for each side is
  `EventGraph.DeactivatedCreatorTips` and `EventGraph.NoStakeDetects`.
- The search for a validator marks IDs, so the entry stored under the ID of the event it starts
  from is never looked behind. Where stored events lie under their own IDs, as in every DAG built
  from nothing (`DagRuns.BuiltDagsAreIdentified`), it finds exactly what can be reached without
  that entry (`Voting.VirtualVoting.HasSeen`), and vote and detection count exactly that. This is
  the whole ancestry for a stored event or one with a free ID. For an event outside the DAG under
  a taken ID it need not be (`DagRuns.ForeignEventIsRefused`); `EventGraph.SeesThrough` says what
  is missed, `EventGraph.VoteMissesExactly` and `EventGraph.DetectionMissesExactly` when that
  changes the decision. In a graph whose keys and IDs disagree, which takes an altered snapshot,
  an ancestor can be hidden as well (`EventGraph.HiddenAncestor`).
- One call of `RepairConsistency` does not cascade (`GraphRepair.OnePassDoesNotCascade`). It is
  enough exactly when every child of an orphan is an orphan itself (`GraphRepair.OnePassSuffices`).
- New IDs are new because the running count grows. A repair that removes an orphan sets the count
  back, and then the next ID can be taken (`GraphRepair.RepairCanRepeatAnId`). All later IDs are
  new, whatever is done, exactly if no count lies above the number of events
  (`DagRuns.IdsStayNewExactly`, `GraphRepair.NewIdsAfterRepair`), the next one exactly if none is
  that number plus one (`DagRuns.NextIdFreeExactly`).
- `ProcessEvent` records an event again that is recorded already: a record without repetitions
  stays so exactly when the event was not in it (`Finality.RepeatsExactly`;
  `FinalityCases.RecordedTwice` is a run of scan and processing that repeats one).
- Not every recorded event is final: the scan does not tell the finalizer. From an engine in order
  whose record is final, it stays so exactly when the scan finds nothing unflagged to be detected
  (`Finality.Lachesis.ProcessEvents`; `FinalityCases.RecordedNotFinal`).
- Every recorded entry stays flagged unless a second object under an ID that is final already is
  processed (`Finality.Lachesis.ProcessEvent`, exact; `FinalityCases.SecondObjectStaysUnflagged`).
- `GetFinalizedEvents` never returns when asked up to height 2^64 - 1, since its counter wraps
  before it gets past it, and returns for every other height (`Finality.LoopEndsExactly`).
- A Lachesis state with an empty list of entries, or with an entry that is not in the DAG, does not
  come back as it was saved (`Finality.EmptyListIsLost`,
  `FinalityCases.ForeignEventBreaksTheSnapshot`); when it does is exact
  (`Finality.RestorableExactly`, `Finality.Lachesis.RestoreState`).
- `optimizePool` says it evicts the lowest priority; it evicts the highest, which is the same
  exactly if nothing or everything goes or all priorities are equal
  (`TransactionPool.Pool.OptimizePool`, `TransactionPool.LowestLeftExactly`;
  `PoolCases.HighestIsEvicted`).
- Eviction and expiry leave a contract's index entry behind
  (`TransactionPool.ContractEntryGoesStale`). The index is complete, not exact; the query filters.
- The conflict resolution never has anything to resolve
  (`TransactionPool.Pool.HandleConflicts`). If all fees were zero it would keep nothing, or an
  item whose ID is the empty string.
- A transaction that the manager created is never processed while only the manager moves the
  tracker: creating it has moved the tracker to its nonce
  (`TransactionManager.Manager.ProcessTransaction`).
- A penalty can vanish when the product wraps (`StakeMath.PenaltyIsExact`, exact condition;
  `StakeMath.PenaltyCanVanish`).
- `GetValidatorStake` says it returns the validator's stake; it returns an equal share of the total
  (`ProofOfStake.DPoS.GetValidatorStake`). A unanimous vote can therefore fail
  (`Tally.UnanimityCanFail`); it passes exactly under the condition of `Tally.UnanimityPasses`.
  Without any stake everything passes (`Tally.NoStakePassesAll`).
- In test mode a passed proposal counts as executed even when carrying it out failed
  (`Governance.Governance.TestTick`).
- `CleanupOldProposals` uses its age only as a switch (`Governance.Governance.CleanupOldProposals`).
- A failed DPoS restore leaves new validators beside the old list and sums
  (`ProofOfStake.DPoS.RestoreState`); recovery's rollback repairs that.
- Cleaning up old checkpoints takes a lock that `createCheckpoint` holds already. The first
  checkpoint past two intervals is stored, and then the call waits for ever; so does every later
  attempt to save or recover (`Recovery.HybridConsensus.CreateCheckpoint`).
- The hash chain accepts no target in its past, so recovery to a checkpoint taken before the chain
  moved on always ends in the rollback (`Recovery.HybridConsensus.RecoverFromError`).
- `Lachesis` keeps an illegal voting threshold that the voting module ignores, and its own
  threshold is not part of its saved state (`Finality.Lachesis.SetVotingThreshold`).

## Model

| member | source | states |
|---|---|---|
| Voting.VirtualVoting.HasSeen | consensus/diamantefinality/voting.go:283-330 | with stored events under their own IDs, true exactly if an event created by the validator is reached through present parents other than the entry under the ID of the starting event; the whole ancestry counts if that event is stored or its ID free; a positive answer is right on any graph, and the queue search ends on any finite one, cyclic ones included |
| EventGraph.SeesThrough | consensus/diamantefinality/voting.go:283-330 | what is seen only through one entry, exactly: an ancestor names its ID, and it is seen from that entry without coming back to it |
| Voting.VirtualVoting.Vote | consensus/diamantefinality/voting.go:111-207 | whatever order the active nodes come in, the early accept answers the comparison of the stake the search finds with threshold times total; that is the plain comparison if the event is stored or its ID free |
| EventGraph.VoteMissesExactly | consensus/diamantefinality/voting.go:111-207 | when the vote refuses what the plain comparison accepts: an ancestor names the event's taken ID, and what only the entry there shows tips the balance |
| DagRuns.ForeignEventIsRefused | consensus/diamantefinality/voting.go:111-207 | an event that such a difference refuses, on a DAG built from nothing |
| Finality.Lachesis.DetectFinality | consensus/diamantefinality/lachesis.go:245-281 | whatever the order, early accept and early reject answer the comparison of what the search finds, which is the plain one if the event is stored or its ID free |
| EventGraph.DetectionMissesExactly | consensus/diamantefinality/lachesis.go:245-281 | when the detection misses what the plain comparison detects |
| Finality.TallyStep | consensus/diamantefinality/lachesis.go:259-278 | after each node asked, accepting or rejecting at that point already is the final answer |
| EventGraph.VoteIsDetection | consensus/diamantefinality/voting.go:111-199 | with an active creator, positive stake and one positive threshold, vote and detection agree |
| EventGraph.VoteAndDetectionDiffer | consensus/diamantefinality/lachesis.go:245-281 | when they differ: exactly if a deactivated creator's stake tips the vote, or there is no stake at all |
| EventGraph.DeactivatedCreatorTips | consensus/diamantefinality/voting.go:147-199 | an event that passes the vote by its deactivated creator's stake and is not detected |
| EventGraph.NoStakeDetects | consensus/diamantefinality/lachesis.go:245-281 | without stake an event is detected that does not pass the vote |
| EventGraph.HiddenAncestor | consensus/diamantefinality/voting.go:283-330 | the search marks IDs, so an event stored under another ID can hide an ancestor |
| EventGraph.QuorumIntersection | consensus/diamantefinality/voting.go:112-199 | two passing events with active creators were seen in common by at least (2 * threshold - 1) of the total stake |
| EventGraph.ChildPasses | consensus/diamantefinality/voting.go:283-330 | under one stake table the child of a passing event passes |
| EventGraph.DescendantPasses | consensus/diamantefinality/voting.go:283-330 | ... and so does every descendant |
| DagRuns.LaterDescendantsPass | consensus/diamantefinality/voting.go:283-330 | ... and so does whatever comes to descend from it as the DAG grows on |
| EventGraph.GrowthKeepsSees | consensus/diamantefinality/dag.go:121-163 | a new event changes nothing about who has seen an event whose parents are present |
| EventGraph.GrowthKeepsDecisions | consensus/diamantefinality/dag.go:121-163 | ... and nothing about that event's vote or detection |
| DagRuns.RunKeepsDecisions | consensus/diamantefinality/dag.go:55-180 | ... over any run of operations with known parents |
| Voting.VirtualVoting.GetConsensusEvents | consensus/diamantefinality/voting.go:341-371 | returns events of the height that pass the vote, and all of them when IDs are in order |
| Voting.VirtualVoting.SetThreshold | consensus/diamantefinality/voting.go:60-78 | only a threshold in (0, 1] is taken over |
| Voting.VirtualVoting.RestoreState | consensus/diamantefinality/voting.go:396-427 | refuses exactly the illegal thresholds and then changes nothing |
| DagStore.DAG.NewEvent | consensus/diamantefinality/dag.go:104-180 | an active creator's event holds payload, parents in order, clock reading and creator as given, the next count, height 1 without parents and otherwise just above its highest present parent or 2, and raises the maximum; anybody else gets an error and no change |
| DagRuns.BuiltEventsMatchTheirIds | consensus/diamantefinality/dag.go:104-180 | in every DAG built from nothing, payload, clock reading and creator of each event are those in its ID |
| DagStore.DAG.HeightAbove | consensus/diamantefinality/dag.go:121-137 | the height is one above the highest present parent (a listed but absent parent counts as height 1) |
| DagStore.DAG.AddNode | consensus/diamantefinality/dag.go:55-71 | adds an active node, or sets the stake of a known one and activates it |
| DagStore.DAG.RemoveNode | consensus/diamantefinality/dag.go:88-99 | a known node is deactivated and kept |
| DagRuns.BuiltDagsAreSound | consensus/diamantefinality/dag.go:55-180 | every DAG built from nothing by these operations with known parents passes the consistency check, has no cycle, and keeps its events where the search is exact |
| DagRuns.BuiltDagsAreIdentified | consensus/diamantefinality/dag.go:139-163 | ... and with unknown parents too, the events lie under their own IDs, so search, vote and detection are exact |
| EventGraph.NewEventConsistent | consensus/diamantefinality/dag.go:121-163 | adding the built event keeps a consistent graph consistent exactly when all listed parents were present |
| EventGraph.ConsistentIsAcyclic | consensus/diamantefinality/dag.go:370-433 | a graph that passes the check has no cycle |
| EventGraph.NewIdIsFresh | consensus/diamantefinality/dag.go:139-150 | the running count in its preimage makes each new ID new |
| DagStore.DAG.VerifyConsistency | consensus/diamantefinality/dag.go:370-433 | accepts exactly known creators, present and lower parents, positive heights and a maximum that some event has and none exceeds; reports only faults that hold |
| DagStore.DAG.RepairConsistency | consensus/diamantefinality/dag.go:436-499 | one call leaves exactly the events whose creator is known and whose parents are all present with known creators, unaltered, and corrects the maximum; it reports whether anything changed |
| GraphRepair.RepairTerminates | consensus/diamantefinality/dag.go:436-499 | among the first |events| + 2 repeated calls one changes nothing |
| GraphRepair.RepairReachesLargest | consensus/diamantefinality/dag.go:436-499 | then the largest set of events is left whose creators are known and whose parents are all in it, unaltered, with its own maximum height |
| GraphRepair.OnePassDoesNotCascade | consensus/diamantefinality/dag.go:460-482 | a single call can leave an event without its parent |
| GraphRepair.OnePassSuffices | consensus/diamantefinality/dag.go:460-482 | exactly when a single call is enough: every child of an orphan is an orphan |
| GraphRepair.RepairLeavesConsistentAlone | consensus/diamantefinality/dag.go:436-499 | a DAG that passes the check is not changed by the repair |
| GraphRepair.RepairCanRepeatAnId | consensus/diamantefinality/dag.go:104-163 | a DAG built from nothing, with an orphan, in which the ID after a repair is taken |
| DagRuns.NextIdFreeExactly | consensus/diamantefinality/dag.go:139-150 | the next ID is new for certain exactly if no event carries the next count |
| DagRuns.IdsStayNewExactly | consensus/diamantefinality/dag.go:139-163 | every ID to come is new, over all runs, exactly if no count lies above the number of events |
| GraphRepair.NewIdsAfterRepair | consensus/diamantefinality/dag.go:436-499 | ... and what this means for the events a repair leaves |
| GraphRepair.LaterClockMakesFresh | consensus/diamantefinality/dag.go:139-150 | and in any case an ID is new while the clock is past every stored event |
| DagStore.DAG.GetState | consensus/diamantefinality/dag.go:256-290 | saves stake, activity and history of each node, and content and flag of each event |
| DagStore.DAG.RestoreState | consensus/diamantefinality/dag.go:292-334 | every node and event then has the saved fields, in new objects |
| Finality.Finalizer.Finalize | consensus/diamantefinality/finalize.go:48-107 | an event not yet final that passes the vote becomes final and flagged, and is stored as the checkpoint of its height exactly when that is a multiple of 1000; no other checkpoint changes |
| Finality.Finalizer.GetLatestCheckpoint | consensus/diamantefinality/finalize.go:94-107 | the checkpoint of the largest height above 0, if there is one |
| Finality.Lachesis.ProcessEvent | consensus/diamantefinality/lachesis.go:165-186 | accepts exactly active creators whose event passes by what the search finds, and appends the event to the record; a record of flagged entries stays one exactly if the event ends up flagged, one without repetitions exactly if the event was not in it; an event of the DAG's own leaves the engine in order |
| Finality.RepeatsExactly | consensus/diamantefinality/lachesis.go:224-227 | a record without repetitions stays so exactly when the new entry was not in it |
| Finality.Lachesis.ProcessEvents | consensus/diamantefinality/lachesis.go:366-376 | records and flags what is detected among the unflagged events, and misses none that is certain; a record of flagged entries stays one, an engine in order stays in order and repeats nothing; whatever is recorded stays final exactly if nothing unflagged was detected |
| Finality.ScannedMeans | consensus/diamantefinality/lachesis.go:366-376 | what the scan adds was scanned and due, and everything certain to be due was added |
| FinalityRuns.FinalityOnlyGrows | consensus/diamantefinality/lachesis.go:165-227 | over every run, records only get longer at their end and final IDs stay final |
| FinalityRuns.EveryEntryMetItsThreshold | consensus/diamantefinality/lachesis.go:165-227 | each recorded entry has the height it is filed under and met the threshold of the very step that added it |
| FinalityRuns.CheckpointsStayInPlace | consensus/diamantefinality/finalize.go:85-107 | over every run each checkpoint sits at its own height, a multiple of 1000, and is final |
| FinalityRuns.FinalHasCheckpoint | consensus/diamantefinality/finalize.go:48-107 | over every run, whatever is final became so in one step; at a multiple of 1000 that step stored it as the checkpoint of its height, which has one in every later state |
| FinalityRuns.CheckpointsRemain | consensus/diamantefinality/finalize.go:85-107 | a height that has a checkpoint keeps one |
| FinalityRuns.FinalStaysRecorded | consensus/diamantefinality/lachesis.go:165-186 | whatever the finalizer holds final is in the record |
| FinalityCases.RecordedNotFinal | consensus/diamantefinality/lachesis.go:366-376 | a run after which a recorded event is not final |
| FinalityCases.RecordedTwice | consensus/diamantefinality/lachesis.go:165-186 | a run after which an event is recorded twice |
| FinalityCases.SecondObjectStaysUnflagged | consensus/diamantefinality/finalize.go:48-75 | a run that records an unflagged object, because its ID was final through another |
| Finality.Lachesis.GetFinalizedEvents | consensus/diamantefinality/lachesis.go:230-241 | with the wrapping counter: the loop has ended after a number of rounds exactly if one of them got past the last height, and then gives the entries of the heights asked for, height by height |
| Finality.LoopEndsExactly | consensus/diamantefinality/lachesis.go:230-241 | the wrapping counter gets past the last height exactly if that is not the largest one |
| Finality.RangeHolds | consensus/diamantefinality/lachesis.go:230-241 | a range holds an event exactly if one of its heights records it |
| Finality.Lachesis.RestoreState | consensus/diamantefinality/lachesis.go:427-470 | succeeds exactly with a threshold in (0, 1] and known IDs, and then every field is the saved one and the record is the listed events; says what a failure leaves behind; with a legal threshold the state is the snapshot exactly if that was restorable |
| Finality.Lachesis.GetState | consensus/diamantefinality/lachesis.go:386-425 | saves every node, event, mark and checkpoint field by field, and the record as IDs in order |
| Finality.RestorableExactly | consensus/diamantefinality/lachesis.go:427-470 | restorable is what the look-up gives back unchanged |
| Finality.EmptyListIsLost | consensus/diamantefinality/lachesis.go:455-466 | a snapshot that is accepted and comes back changed |
| Finality.Lachesis.SnapshotInOrder | consensus/diamantefinality/lachesis.go:386-425 | what is saved of an engine in order is restorable |
| FinalityCases.ForeignEventBreaksTheSnapshot | consensus/diamantefinality/lachesis.go:165-186 | a run after which the saved state cannot be restored |
| Finality.RecordComesBack | consensus/diamantefinality/lachesis.go:386-470 | looking the listed IDs up again gives the same lists |
| TxHeap.RootIsHighest | transaction/transaction_pool.go:790-792 | in heap order the first item has the highest priority |
| TxHeap.PriorityQueue.Swap | transaction/transaction_pool.go:794-798 | exchanges two items, and every item still knows its position |
| TxHeap.PriorityQueue.Up | transaction/transaction_pool.go:786-805 | sifting up restores the heap order and only rearranges |
| TxHeap.PriorityQueue.Down | transaction/transaction_pool.go:786-815 | sifting down restores the heap order, or moves nothing and leaves only the way up open |
| TxHeap.PriorityQueue.HeapPop | transaction/transaction_pool.go:807-815 | takes out an item of highest priority |
| TxHeap.PriorityQueue.HeapRemove | transaction/transaction_pool.go:364-376 | takes out exactly the item at the position, from anywhere in the heap |
| TxHeap.PriorityQueue.Update | transaction/transaction_pool.go:818-821 | a changed priority is put in its place, nothing is lost |
| TransactionPool.Pool.AddTransaction | transaction/transaction_pool.go:190-340 | accepts exactly new, signed transactions above the sender's watermark while there is room, with positive amount, sufficient fee, both parties, not expired and not too old; making room happens first and is kept even if the transaction is then refused; heap, map, index, nonces and counters agree before and after |
| TransactionPool.Pool.LiveCameSound | transaction/transaction_pool.go:296-340 | over every run, whatever is live was signed and in time when it came |
| TransactionPool.AdjustedFeeIs | transaction/transaction_pool.go:596-632 | the fee after an adjustment, in thousandths of the one before, for each range of the load |
| TransactionPool.FeeMovesWithLoad | transaction/transaction_pool.go:596-632 | below the maximum the fee rises exactly above a load of 50 and stays exactly at it |
| TransactionPool.Pool.OptimizePool | transaction/transaction_pool.go:531-593 | shrinks a pool above 80% of its capacity to the largest size within 80%; everything that leaves had at least the priority of everything that stays, and at most it exactly if nothing or everything leaves or all are equal |
| TransactionPool.LowestLeftExactly | transaction/transaction_pool.go:531-593 | when taking the highest is taking the lowest |
| PoolCases.HighestIsEvicted | transaction/transaction_pool.go:531-593 | a run in which priority 90 is evicted and priority 1 stays |
| TransactionPool.Pool.RemoveTransaction | transaction/transaction_pool.go:364-411 | takes a transaction out of heap, map and both account entries, and nothing else |
| TransactionPool.Pool.RemoveExpiredTransactions | transaction/transaction_pool.go:635-684 | removes exactly the expired transactions by their heap index, counts them, and strikes the senders' entries |
| TransactionPool.ContractEntryGoesStale | transaction/transaction_pool.go:562-570 | after eviction or expiry the contract's entry is stale exactly when the contract is not the sender |
| TransactionPool.LiveNoncesDiffer | transaction/transaction_pool.go:236-239 | no two live transactions share sender and nonce |
| TransactionPool.AcceptKeepsRise | transaction/transaction_pool.go:330-334 | accepting above the watermark keeps every sender's accepted nonces strictly rising |
| TransactionPool.Pool.HandleConflicts | transaction/transaction_pool.go:463-528 | of transactions that share sender and nonce at most one stays, with a highest positive fee, and nothing else goes; in a pool that only went through these operations nothing changes |
| TransactionPool.NoConflictNoDoom | transaction/transaction_pool.go:495-511 | without a shared sender and nonce nothing is marked for removal |
| TransactionPool.Pool.GetAccountTransactions | transaction/transaction_pool.go:438-460 | each live transaction listed under the account, once |
| TransactionPool.Pool.ListIsComplete | transaction/transaction_pool.go:241-254 | no live transaction is missing from its sender's or its contract's list |
| Nonces.NonceTracker.ValidateNonce | transaction/transaction_utils.go:103-131 | accepts the one expected nonce, and tells reuse from a gap |
| Nonces.ReplayProtection | transaction/transaction_utils.go:281-293 | accepts the one expected nonce and then moves the tracker |
| Nonces.ValidateTransaction | transaction/transaction_utils.go:189-262 | accepts exactly payable, signed transactions in time with the one expected nonce; otherwise answers the first fault |
| Nonces.JudgedIs | transaction/transaction_utils.go:189-262 | each answer by itself, as a condition on transaction and tracker |
| Nonces.ValidateTransactionBatch | transaction/transaction_utils.go:349-379 | keeps, in order, what validates against the running nonces; errors lie exactly under the IDs of what was not kept; the caller's tracker is untouched |
| Nonces.CodesMean | transaction/transaction_utils.go:349-379 | the error under an ID is the verdict on the last faulty transaction of that ID at its place in the batch |
| Nonces.NoCodeNoFault | transaction/transaction_utils.go:349-379 | ... and an ID without one has no faulty transaction |
| Nonces.KeptReplays | transaction/transaction_utils.go:281-379 | what a batch keeps passes replay protection one by one from the caller's tracker |
| Nonces.ReplayedIsGapFree | transaction/transaction_utils.go:281-293 | what passes counts up one by one for every sender |
| Nonces.GapFreeReplays | transaction/transaction_utils.go:281-293 | ... and what counts up one by one passes |
| Nonces.KeptNext | transaction/transaction_utils.go:349-379 | the next transaction is kept exactly when it is sound and follows the sender's kept ones without a gap |
| TransactionManager.Manager.ValidateTransaction | transaction/transaction_manager.go:312-378 | accepts exactly positive amounts and nonces, sufficient fees, both parties, bounded size and age, covered costs, a nonce in the window above the tracker's, and data for contracts |
| TransactionManager.Manager.CreateTransaction | transaction/transaction_manager.go:193-269 | exactly when the sender's next transaction passes validation, signing and the pool, it is pooled as given and the tracker moves to its nonce at once, so that no pooled nonce is ahead of the tracker |
| TransactionManager.Manager.ProcessTransaction | transaction/transaction_manager.go:449-470 | goes through exactly when the pooled nonce is the expected one; hence never for what the manager created |
| ProofOfStake.DPoS.AddValidator | consensus/diamantepos/diamantepos.go:87-108 | a new validator enters with its stake, performance 1.0 and nothing on its record, a known one is left alone; sums and list are right afterwards |
| ProofOfStake.DPoS.UpdateStake | consensus/diamantepos/diamantepos.go:111-128 | the stake is replaced, the total moves by the difference, the list is rebuilt |
| ProofOfStake.DPoS.UpdateActiveValidators | consensus/diamantepos/diamantepos.go:132-161 | min(validators, set size) distinct validators, best first, by stake and performance none outside scores above one inside; the flags mark exactly them and the sum is theirs |
| ProofOfStake.DPoS.HandleSlashing | consensus/diamantepos/diamantepos.go:258-296 | in any order, every validator loses the hundredth of its stake times its count, wrapped and capped, and its count; each entry of the log names one, with the amount and the time; the answer says whether any stake changed |
| ProofOfStake.DPoS.DistributeRewards | consensus/diamantepos/diamantepos.go:237-255 | rewards follow the list order with a growing divisor, and together stay within the epoch's total; all sums stay right |
| ProofOfStake.DPoS.ProcessEpoch | consensus/diamantepos/diamantepos.go:185-305 | nothing off the boundary; on it slashing, a list chosen by the slashed stakes, rewards only if nobody was slashed, decay and reset, with the books balanced throughout; a sole active validator gets 100 in epoch 1 and the share of a million later |
| StakeMath.TotalRewardIs | consensus/diamantepos/diamantepos.go:653-659 | 100 up to epoch 1, then a million divided by one more than the hundreds of epochs |
| StakeMath.TotalRewardFalls | consensus/diamantepos/diamantepos.go:653-659 | from epoch 2 on it never rises |
| StakeMath.RewardAt | consensus/diamantepos/diamantepos.go:245-252 | each reward by itself: the wrapped product over the active stake with all rewards before it |
| StakeMath.RewardIsShare | consensus/diamantepos/diamantepos.go:245-246 | while the product fits, the truncated share |
| ProofOfStake.SoleReward | consensus/diamantepos/diamantepos.go:237-255 | a sole listed validator gets the whole total |
| ProofOfStake.DecayClamps | consensus/diamantepos/diamantepos.go:330-343 | performance ages by the factor of the hours passed, kept between 0.1 and 1 |
| ProofOfStake.PaidOutMeans | consensus/diamantepos/diamantepos.go:245-252 | every listed validator gets exactly its own reward |
| StakeMath.RewardsWithinBudget | consensus/diamantepos/diamantepos.go:237-255 | one epoch hands out at most the total, although the divisor grows and whether or not products wrap |
| StakeMath.RewardProductsFit | consensus/diamantepos/diamantepos.go:245-246 | no product wraps while stakes are at most (2^64 - 1) / 10^6 |
| StakeMath.LaterNeverGetsMore | consensus/diamantepos/diamantepos.go:245-252 | of two equal stakes the later one in the list never gets more |
| StakeMath.PenaltyIsExact | consensus/diamantepos/diamantepos.go:262-268 | the charged penalty is the capped product exactly when the product fits 64 bits or wraps to something the cap hides |
| StakeMath.PenaltyCanVanish | consensus/diamantepos/diamantepos.go:662-664 | a larger misbehavior count can cost nothing |
| ProofOfStake.DPoS.GetValidatorStake | consensus/diamantepos/diamantepos.go:390-412 | an active validator is reported the truncated equal share of the total of all validators, anybody else 0 |
| ProofOfStake.DPoS.GetState | consensus/diamantepos/diamantepos.go:455-521 | saves every field of every validator, the list and the settings |
| ProofOfStake.DPoS.RestoreState | consensus/diamantepos/diamantepos.go:523-612 | every validator then has the saved fields; succeeds exactly when all listed IDs are known, and then the list and flags are the saved ones and the books balance; otherwise new validators stand beside the old list and sums |
| ValidatorRanking.SortValidatorsByScore | consensus/validator_manager.go:530-540 | the exchange sort in place gives a descending permutation |
| ValidatorRanking.ValidatorManager.UpdateActiveValidators | consensus/validator_manager.go:500-527 | the active list holds active-status validators, distinct and best score first, none left out scoring above one taken, all of them or as many as the set size, with their sum |
| Tally.SidesWithinTotal | consensus/governance/governance.go:273-293 | yes and no together never count more than the total stake |
| Tally.PassingNeedsMajority | consensus/governance/governance.go:273-293 | with positive stake, nothing passes on fewer than 66% of the active validators |
| Tally.UnanimityPasses | consensus/governance/governance.go:273-293 | exactly when a unanimous yes passes, in terms of quotient and remainder of total stake by active count |
| Tally.OutcomeIs | consensus/governance/governance.go:273-293 | passed exactly if the active yes votes times the truncated share make 66% of the total |
| Tally.TwoUnitsEachCarry | consensus/diamantepos/diamantepos.go:390-412 | two units of stake per active validator are enough for unanimity to carry |
| Tally.UnanimityCanFail | consensus/diamantepos/diamantepos.go:411 | five units among three validators: a unanimous yes is rejected |
| Tally.NoStakePassesAll | consensus/governance/governance.go:285 | without stake everything passes |
| Governance.TableIsAllowed | consensus/diamantefinality/lachesis.go:201-219 | the string table of the finality engine allows exactly the status changes that proposals make |
| Governance.HistoryNeverReturns | consensus/diamantefinality/lachesis.go:201-219 | along the table no status is ever taken twice |
| Governance.ExecutedHasPassed | consensus/diamantefinality/lachesis.go:201-219 | an executed proposal was pending, active and passed before, in this order |
| Governance.PassedHadMajority | consensus/governance/governance.go:273-293 | whatever is passed or executed still holds the votes it was decided on, with its 66% if there was stake |
| Governance.Governance.CreateProposal | consensus/governance/governance.go:130-166 | a new pending proposal under the ID of start, joined texts and creator; an earlier one under that ID is dropped |
| Governance.Governance.CancelProposal | consensus/governance/governance.go:169-197 | only creator or super validator, only before the decision |
| Governance.Governance.Vote | consensus/governance/governance.go:199-220 | only active validators on active proposals in time; a second vote replaces the first |
| Governance.Governance.FinalizeProposal | consensus/governance/governance.go:273-293 | adding the votes up in any order decides by the tally |
| Governance.Governance.CountVotes | consensus/governance/governance.go:374-396 | the two sides reported, within the total |
| Governance.Governance.ProcessProposals | consensus/governance/governance.go:242-271 | pending becomes active exactly after its start, active is decided by its votes exactly after its end, anything else stays |
| Governance.Governance.Perform | consensus/governance/governance.go:464-562 | kind by kind when it succeeds and which settings take which decoded value, all others staying; counts a success |
| Governance.Governance.ExecuteProposal | consensus/governance/governance.go:222-239 | executes exactly passed proposals that can be carried out, then changes the settings they name, moves them to executed and counts them once, no other proposal being touched |
| Governance.Governance.ExecutePassedProposals | consensus/governance/governance.go:445-462 | in any order, exactly what has passed and can be carried out is executed, each once, and the settings change in that order; the rest stays passed and is counted |
| Governance.Governance.TestTick | consensus/governance/governance.go:313-343 | the test-mode round: proposals with votes are decided early, and if there was one, all passed ones count as executed; carried out, each once, are exactly those that can be |
| Governance.Governance.ForceFinalize | consensus/governance/governance.go:313-331 | exactly the active proposals that have votes are decided, whatever the time |
| Governance.Governance.CleanupOldProposals | consensus/governance/governance.go:505-526 | drops exactly the rejected and executed proposals whose voting ended a minute ago, for any age asked for of at least a minute |
| ProofOfHistory.PoH.GenerateProof | consensus/diamantepoh/diamantepoh.go:270-298 | the proof is the hash of the data on the state so many steps on |
| ProofOfHistory.PoH.VerifyProof | consensus/diamantepoh/diamantepoh.go:302-342 | accepts exactly that proof |
| ProofOfHistory.ProofIsUnique | consensus/diamantepoh/diamantepoh.go:302-342 | from one start a proof fits at most one pair of data and iterations |
| ProofOfHistory.PoH.VerifyHashRange | consensus/diamantepoh/diamantepoh.go:390-405 | accepts exactly the states that advancing passes through |
| ProofOfHistory.RangeSplits | consensus/diamantepoh/diamantepoh.go:390-405 | a range is accepted exactly when its two halves are, cut anywhere |
| ProofOfHistory.ChainSplits | consensus/diamantepoh/diamantepoh.go:238-245 | advancing in two stages is advancing at once |
| ProofOfHistory.ChainGoesOn | consensus/diamantepoh/diamantepoh.go:238-245 | the last step hashes the counter reached onto the state before |
| Bytes.EncodingIsRead | consensus/diamantepoh/diamantepoh.go:238-245 | a counter's bytes, least significant first, spell the counter |
| ProofOfHistory.PoH.Record | consensus/diamantepoh/diamantepoh.go:76-124 | hashes the data onto the state, with a counter step before it exactly if the delay has passed |
| ProofOfHistory.PoH.BatchRecord | consensus/diamantepoh/diamantepoh.go:346-370 | records the first 500 items one by one with the same clock readings, each hash on the one before |
| ProofOfHistory.RecordedItem | consensus/diamantepoh/diamantepoh.go:346-370 | state, count and last tick after each item |
| ProofOfHistory.NoTickInTime | consensus/diamantepoh/diamantepoh.go:76-90 | within the delay the count grows by one an item |
| ProofOfHistory.TickEveryTime | consensus/diamantepoh/diamantepoh.go:76-90 | at readings a delay apart it grows by two |
| ProofOfHistory.BatchesCompose | consensus/diamantepoh/diamantepoh.go:346-370 | two batches in a row are one batch |
| ProofOfHistory.CountTracksDepth | consensus/diamantepoh/diamantepoh.go:110-124 | the counter moves with the length of the chain, by one or two per item |
| ProofOfHistory.RecordedVerifies | consensus/diamantepoh/diamantepoh.go:128-202 | a proof just recorded verifies exactly when its data is neither empty nor too large |
| ProofOfHistory.PoH.Verify | consensus/diamantepoh/diamantepoh.go:128-202 | accepts exactly the hash of 1 to 1048576 bytes on a state that is not zero, up to 10000 counts ahead; empty data never |
| ProofOfHistory.PoH.Synchronize | consensus/diamantepoh/diamantepoh.go:248-267 | jumps to any target that is not in the past |
| Recovery.HybridConsensus.RestoreAll | consensus/diamantehybrid.go:1690-1720 | restores engine after engine; succeeds exactly when all three accept, and then every field of the engines is the saved one; says what a refusal leaves in each engine |
| Recovery.HybridConsensus.Rollback | consensus/diamantehybrid.go:1722-1749 | DPoS and the hash chain are as in the backup in any case, and with a legal threshold all three exactly if the Lachesis part was restorable |
| Recovery.HybridConsensus.RecoverFromError | consensus/diamantehybrid.go:1654-1767 | from engines in order, all three end at the checkpoint or all as before, and in order; from any, DPoS and the hash chain never mix, every validator having the saved fields or the old ones; it rolls back exactly when the checkpoint is not acceptable, and a checkpoint with fewer hash-chain steps than now never is |
| Recovery.HybridConsensus.VerifySystemConsistency | consensus/diamantehybrid.go:1770-1808 | the three fatal checks after recovery |
| Recovery.HybridConsensus.CreateCheckpoint | consensus/diamantehybrid.go:1437-1533 | stores the three states under a block number that the interval divides, restorable from engines in order; returns exactly up to two intervals, and past them leaves the lock taken; so no checkpoint lies past two intervals but the one that never returned |
| Recovery.HybridConsensus.CleanOldCheckpoints | consensus/diamantehybrid.go:1535-1546 | drops exactly the checkpoints more than two intervals back, if it gets the lock |

## Left out

- HTTP, storage, networking, metrics, configuration, wallets, logging, cryptography: no algorithm of the node's own.
- Goroutines, tickers, locks: every locked section is one step. The gossip channels and the re-creation of received events are not part of this model.
- Rounding of floating-point numbers: thresholds, fees, scores and performance are exact reals, 80% of the capacity is floor(4 * max / 5), 66% is 66 / 100.
- 64-bit overflow of counters, heights and stake sums; wrap-around is modelled for the products of rewards and penalties only.
- nil arguments and malformed JSON: values here are always present and decoded.
- `GetNextValidator`: a pseudo-random pick by hash from the active list.
- The suspicious-voting log and its Gini coefficient: they decide nothing.
- Pool metrics, priority distribution, the formula of the priority: priorities are given numbers.
- The persistent nonce tracker, the ledger and balances: whether the sender can pay and the signature holds is an input.
- Batch processing of events, the event flow manager, optimizer and error-recovery managers, the checkpoint manager, token supply: metrics, chunking, file handling and balance moves.
- The rest of the validator manager: jailing, slashing and rewards repeat in a simpler way what DPoS does.
- The DPoS slash log is not part of a snapshot in the code either; a restore re-bases the ghost ledger on it.
- `SynchronizeState`: the same restores without a rollback, then the processing of recorded events once more.
- DagStore.Node: keeps the unchanging part of a creator's events, not the shared event objects, so the flag is not visible through it.
- ProofOfStake.SortSlice: stands for the library sort; only its contract (a descending permutation) is used.
- Voting.VirtualVoting.Vote: on a graph in which a stored event does not lie under its own ID (`EventGraph.HiddenAncestor`; no operation and no snapshot of an engine in order gives one, only an altered snapshot), just the direction from passing to the comparison is promised, because the outcome then depends on the order of the search.
- Recovery.HybridConsensus.RecoverFromError: when the Lachesis state was not restorable, a rollback cannot bring that part back, since the code saves IDs only (`FinalityCases.ForeignEventBreaksTheSnapshot`); with a legal threshold it does so exactly if it was restorable.
