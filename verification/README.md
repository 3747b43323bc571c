# Verified model of the FAN chain core

This project models the parts of the FAN node that decide what is stored and what nodes agree on, and
proves for all inputs and all runs what those parts are meant to guarantee.

- **The ledger and its write-back cache.** `StateManager.Manager` caches `Account` objects, mutates them
  through shared references, tracks dirty addresses and flushes them to a store of 36 shards behind the
  total-supply gate ("P0"). It is proved to behave as one plain map from addresses to accounts,
  `Ledger.Exec`, whatever accounts of a transaction coincide. On top stand block production and the
  replay after a crash (`Node`).
- **Storage.** The flat-file block store is modelled down to the bytes of its index entries
  (`FlatFile`), the checkpoint file as a protocol with a crash anywhere (`CheckpointFile`).
- **Encodings.** The Merkle state root (`Merkle`) and the base-36 address (`AddressCodec`).
- **Consensus and synchronisation.** Fork choice, proposer selection, the validator set, block rewards,
  the filter on pending transactions, the downward backfill and the contiguous block filter.

Code that changes fields became classes and methods, each proved against a function of the old state;
the properties are lemmas about those functions. `Ledger` is a total `imap`: an address that was never
written holds a default account. `TotalSupply.Supply` is the mathematical sum of balances, so wrapping
of the 64-bit sum in the code is visible.

Outside calls are inputs. Signature verification, the address derived from a public key and the clock
are parameters (`Transactions.Env`, `now`, `clock`); the SHA3 behind addresses, records and the proposer
draw is an arbitrary function. The hash of the state root is assumed to be collision-free and to tell
leaves from inner nodes: a digest *is* the term that was hashed. The validator callbacks are returned as
events.

## What the proofs found

The model follows the code where it differs from its documentation or from what one would expect.

- The P0 gate sums modulo 2^64, and the cost of a transfer is computed modulo 2^64. A transfer whose
  amount plus fee wraps, and whose credits do not, creates 2^64 units and still passes the gate
  (`Runs.WrappedTransferPassesP0`, with a concrete one in `Runs.WrappedTransferExample`). What the gate
  lets through, and when the stored supply is then exact, is `Node.CommittedBlockExactIff`.
- A transfer to genesis credits its fee to nobody, so an ordinary block that was produced without error
  passes P0 if and only if it holds no authentic transfer to genesis with a positive fee
  (`Runs.ProducedBlockPassesP0Iff`; a block that fails is in `Runs.BurnedFeeFailsP0`).
- Recovery with state height 0 replays nothing: the first block after genesis can be lost
  (`Node.FirstBlockLost`). `Node.CrashEquivalence` gives the exact condition.
- A received block that fails at a transaction or at P0 is not rolled back: its executed part stays in the
  cache and is stored by the next commit, but not by recovery (`Node.FullNode.ReceiveBlock`,
  `Node.LeftoversBreakEquivalence`). A received block is committed before it is saved; after a crash in
  between, recovery moves the height back and keeps the accounts (`Node.ReceivedCrashIff`), so that the
  block is executed a second time and its reward paid twice (`Node.RewardPaidTwice`).
- The filter on pending transactions tests each one against the balance before the block, so it can keep
  transactions that cannot all be paid, and then the block is not produced
  (`NoncePipeline.FilterKeepsUnpayable`, exact condition in `NoncePipeline.FilteredRunsIff`).
- A validator that changes its stake without leaving sends no event, so its recorded stake goes stale
  (`ValidatorSet.RunRecordsIff`).
- A backfill towards a reported earliest height of 0 never ends (`Backfill.RunBackfill`). When no block of
  an answer can be saved, the next request starts at height 2^64-2 (`Backfill.Server.HandleBackfill`).
- A confiscation sends no event, so it leaves a confiscated validator in the validator list
  (`ValidatorSet.ConfiscationTracksIff`). Staking adds with wrap-around and sends no leaving event, so a
  validator whose stake wraps around below the required one stays in the list too
  (`ValidatorSet.WrappedStakeLosesTrack`). Over runs, nothing else goes wrong: `ValidatorSet.RunTracksIff`.
- The very first checkpoint is not crash-safe: a torn temporary file becomes the latest one
  (`CheckpointFile.CrashSafeIff`).
- `DeleteBlocksAboveHeight` is right exactly under the condition in its contract. With a target that is
  not stored it cuts the target chunk's data file to 32 bytes (`FlatFile.MissingTargetIff`); in a store
  where backfill appended a lower block behind the target it loses that block
  (`FlatFile.BackfilledStoreBreaks`).
- A node can come back to a branch that it dropped. The drop deletes its checkpoint, and without one
  `applyCheckpoint` takes any checkpoint that is not below the rolled-back head, also the dropped one
  (`ForkChoice.ReturnsToDropped`), so that nodes which compared the same rivals can end apart
  (`ForkChoice.ConvergenceCanFail`). `ForkChoice.StandingNeverFallsIff` gives the exact condition, and
  `ForkChoice.ReceivedRegressesIff` says when a received checkpoint breaks it: for a node that holds a
  checkpoint, only when its head block is younger than the checkpoint.
- The rollback height of a forced resync wraps around when the local chain is longer than a peer
  checkpoint younger than one interval (`ForkChoice.RollbackHeight`; for example heights 150 and 100 with
  interval 1000). Then no block is cut, the wrapped value is recorded as the latest block height, and the
  chain in memory goes back to block 1. When the rollback block is missing in the chunk of block 1, the cut
  destroys block 1 and the resync fails (`Resync.LocalNode.ForceResyncFromPeer`).
- `HasBlock` takes an empty slot for a block at heights that are 0 in 32 bits, such as 0 itself
  (`FlatFile.ReadsAgree`).
- A checkpoint snapshot may list an address twice. Its sum counts both entries while the store keeps the
  last, so a snapshot with the right sum can leave a stored supply of 1
  (`StateManager.RepeatedAddressBreaksP0`, exact condition in `StateManager.SnapshotPassesP0Iff`).
- While acceptance starts at or below the local head (checkpoint mode) the block filter keeps nothing
  (`Backfill.Filter`).
- Two nodes with different checkpoints stay apart when the one with the better checkpoint has the shorter
  chain: a report from a lower chain is never compared (`ForkChoice.ExchangeResolvesIff`).
- A block whose production was reported as failed is committed by the next recovery if the failure came
  after the height had been recorded (`Node.RecoveryAfterSaveFault`).
- A restored snapshot agrees with the store exactly if it still fits it
  (`StateManager.Manager.RestoreSnapshot`).
- The address checksum has 3 bytes (core/types.go:140), not the 4 that the tools README names. Cached
  default accounts count in the state root (state/merkle.go:28-30).

## Model

| member | source | states |
|---|---|---|
| `StateManager.Manager.GetAccount` | state/state.go:99-114 | returns the one cached object of the address; caching an account never changes the ledger |
| `StateManager.Manager.UpdateAccount` | state/state.go:117-120 | marks the account dirty and changes nothing else |
| `StateManager.Manager.ExecuteTransfer` | state/state.go:374-411 | on shared objects, does what the plain-map transfer does for any coincidence of sender, receiver and genesis; on failure nothing changes |
| `StateManager.Manager.ExecuteStake` | state/state.go:414-438 | ledger, dirty marks and joining event of a stake |
| `StateManager.Manager.ExecuteUnstake` | state/state.go:441-465 | ledger, dirty marks and leaving event of an unstake |
| `StateManager.Manager.ExecuteSystemTx` | state/state.go:468-530 | rewards, slashes and sender-less credits match the plain ledger, errors included |
| `StateManager.Manager.ConfiscateAllFunds` | state/state.go:214-259 | confiscation matches the plain ledger; genesis is exempt and an empty account is left alone |
| `StateManager.Manager.ExecuteTransaction` | state/state.go:263-371 | the cache refines the plain ledger for every transaction; an error leaves ledger and dirty marks unchanged; clean cached accounts keep agreeing with the store |
| `StateManager.Manager.MergeAccounts` | state/state.go:748-775 | the store overlaid by the cache, which as a ledger is what readers see |
| `StateManager.Manager.Commit` | state/state.go:123-143 | the store alone becomes the ledger and nothing stays dirty |
| `StateManager.Manager.CommitWithP0Verify` | state/state.go:149-211 | succeeds if and only if the accounts stored afterwards sum to the total supply modulo 2^64; a refused commit leaves the store untouched |
| `StateManager.GateDecidesOnStored` | state/state.go:149-211 | summing store and cache modulo 2^64 decides the same as summing what the dirty-only write will store |
| `StateManager.FlushIsView` | state/state.go:123-143 | writing only the dirty accounts stores the whole ledger |
| `StateManager.Manager.VerifyTotalSupply` | state/state.go:657-708 | returns the sum over merged accounts modulo 2^64 and whether it is the total supply |
| `StateManager.Manager.CreateSnapshot` | state/state.go:555-571 | a deep copy that fits the store and denotes the current ledger |
| `StateManager.Manager.RestoreSnapshot` | state/state.go:573-584 | restores ledger and marks with fresh objects; the cache agrees with the store if and only if the snapshot fits it |
| `StateManager.Manager.CreateCheckpointSnapshot` | state/checkpoint_snapshot.go:22-49 | the merged accounts, each exactly once |
| `StateManager.Manager.ApplyCheckpointSnapshot` | state/checkpoint_snapshot.go:131-163 | accepted exactly when the listed sum is right modulo 2^64; then store and ledger are the snapshot, and pass P0 if and only if the overwritten entries sum to 0 modulo 2^64; else nothing changes |
| `StateManager.TransferSnapshot` | state/checkpoint_snapshot.go:131-163 | any receiver ends with the sender's merged map whatever it held or cached, exactly when the sender passes P0 |
| `StateManager.ListSupply` | state/checkpoint_snapshot.go:131-163 | the sum over a snapshot list is the supply of the map it denotes plus the overwritten entries |
| `StateManager.SnapshotPassesP0Iff` | state/checkpoint_snapshot.go:131-163 | a snapshot with the right sum stores accounts that pass P0 if and only if the overwritten entries sum to 0 modulo 2^64 |
| `StateManager.RepeatedAddressBreaksP0` | state/checkpoint_snapshot.go:131-163 | a list with a repeated address, the right sum and a stored supply of 1 |
| `StateManager.SumOfDistinct` | state/checkpoint_snapshot.go:22-49 | without repeated addresses the sum of a list is the supply of its map |
| `Ledger.AdmittedIff` | core/transaction.go:135-205 | which user transactions pass the stateless checks, in terms of addresses, amount, fee bounds, data size, signature, key and clock |
| `Ledger.UserOutcome` | state/state.go:263-371 | how an admitted user transaction ends: punishment, funds, nonce, kind, in that order |
| `Ledger.SystemOutcome` | state/state.go:468-530 | how a system transaction ends, and who pays |
| `Runs.ProducedTransfers` | core/transaction.go:150-192 | every transfer of a block produced without error is positive, pays a fee within bounds and is timely |
| `Runs.ExecutedTransfer` | core/transaction.go:150-163 | every executed transfer is positive and pays a fee within bounds |
| `Ledger.ExecFrame` | state/state.go:263-530 | a transaction changes only accounts it marks for writing |
| `Ledger.ExecIgnoresClock` | state/state.go:263-371 | without the clock check an accepted transaction has the same effect |
| `Ledger.TransferPostings` | state/state.go:374-411 | what a transfer posts to each account modulo 2^64, for any aliasing |
| `TotalSupply.TransferSupply` | state/state.go:374-411 | total after a transfer with every wrap-around accounted for |
| `TotalSupply.TransferExactIff` | state/state.go:374-411 | on a ledger within the supply, the total is exact if and only if the cost fits in 64 bits or a credit overflows |
| `Runs.WrappedTransferPassesP0` | state/state.go:149-211 | every executed transfer with a wrapped cost and no overflowing credit, on an exact ledger, creates 2^64 units and passes P0 |
| `Runs.WrappedTransferExample` | state/state.go:374-411 | such a transfer exists: amount 2^64-1, fee 1, between empty accounts |
| `TotalSupply.TransferNoOverflow` | state/state.go:374-411 | with total within the supply and a fitting cost, no credit overflows |
| `TotalSupply.ConfiscateSupply` | state/state.go:214-259 | confiscation keeps the total up to counted wrap-arounds, of which there are none within the supply |
| `TotalSupply.StakeSupply` | core/account.go:80-90 | staking keeps the total, likewise |
| `TotalSupply.UnstakeSupply` | core/account.go:93-106 | unstaking keeps the total, likewise |
| `TotalSupply.SystemSupply` | state/state.go:468-530 | rewards and slashes keep the total and a sender-less one adds its amount, up to counted wrap-arounds |
| `TotalSupply.ExecSupply` | state/state.go:263-530 | exact supply change of every executed transaction without any size bound: burned fee, minted amount, and 2^64 per wrapped cost or credit; nothing wraps for ordinary transactions within the supply |
| `Runs.ReplayRepeatsProduction` | node.go:199-222 | replaying an error-free block repeats its production exactly, clock checks and ignored errors notwithstanding |
| `Runs.RunFrame` | block_producer.go:222-228 | a run changes only accounts it marked |
| `Runs.RunSupply` | state/state.go:263-530 | over a run of any transactions the total changes by minted minus burned plus 2^64 times wrapped costs minus wrapped credits |
| `Runs.OrdinaryRun` | state/state.go:263-530 | in a run of ordinary transactions within the supply nothing wraps and the total falls by the burned fees |
| `Runs.BlockPassesP0Iff` | state/state.go:149-211 | any block passes P0 again if and only if burned and minted agree modulo 2^64; the supply stays exact if and only if wrapped costs and credits cancel against the difference; an ordinary block passes if and only if it burns nothing |
| `Runs.ProducedBlockPassesP0Iff` | state/state.go:149-211 | for blocks produced without error the same, read off the transactions: no authentic transfer to genesis with a positive fee |
| `Runs.BurnedFeeFailsP0` | state/state.go:374-411 | a transfer of 9 with fee 1 from genesis to itself runs without error, and the total falls by 1 |
| `Node.CommittedBlockExactIff` | state/state.go:149-211 | when the gate accepts a replayed block on a stored account map, and when the stored supply is then exact |
| `Runs.NonceCountsExecutions` | state/state.go:356-465 | over any run a nonce rises by one per executed transfer, stake or unstake and never otherwise |
| `ShardedStore.ShardKey` | storage/sharded_state.go:100-110 | every address has one of the 36 shards |
| `ShardedStore.SameShardIff` | storage/sharded_state.go:100-110 | the shard is the second character of the address if usable, else 0 |
| `ShardedStore.HoldsUnique` | storage/sharded_state.go:202-225 | the shards determine the stored map |
| `ShardedStore.GroupByShard` | storage/sharded_state.go:142-175 | the per-shard batches hold exactly the given accounts, the last entry of an address winning |
| `ShardedStore.Store.SaveAccountsBatch` | storage/sharded_state.go:142-175 | shard-wise batches together overlay the stored map by the given accounts |
| `ShardedStore.Store.SaveAccountsBatchWithHeight` | storage/sharded_state.go:372-407 | the same, and the state height is set also for an empty batch |
| `ShardedStore.Store.GetAccount` | storage/sharded_state.go:178-199 | the stored account or a default one |
| `ShardedStore.Store.GetAllAccounts` | storage/sharded_state.go:202-225 | every stored account exactly once |
| `Node.FullNode.ProduceBlock` | block_producer.go:216-245 | a block that is invalid or fails at a transaction leaves the disk untouched, a failed save leaves it as far as the fault says; in all failures ledger, marks and stored accounts are as before; success leaves the committed disk |
| `Node.FullNode.SaveAndCommit` | block_producer.go:230-243 | block first, state second; restore on either failure |
| `Node.RecoveryAfterSaveFault` | block_producer.go:230-235 | recovery after a failed save ends as without the attempt, unless the height had been recorded: then the block is committed after all |
| `Node.FullNode.RecoverStateIfNeeded` | node.go:167-228 | the disk becomes what `Recover` says, with success exactly when it completes |
| `Node.CrashEquivalence` | node.go:167-228 | on a node without leftover dirty marks, after a crash between saving the block and any account write, recovery ends in the disk of the uncrashed commit, or both are refused, if and only if the state height was at least 1 or the commit goes ahead and changes no account |
| `Node.FirstBlockLost` | node.go:180-185 | a first block with one reward whose commit stores the receiver while recovery does not |
| `Node.FullNode.ReceiveBlock` | node_network.go:24-103 | the callbacks for received blocks, with disk and chain head for every outcome; a refused block leaves store, blocks and head alone, and its executed part in ledger and marks |
| `Node.LeftoversBreakEquivalence` | node_network.go:48-57 | a refused received block whose first transaction the next commit stores and recovery does not |
| `Node.ReceivedCrashIff` | node_network.go:55-72 | after a crash between commit and save of a received block, recovery restores the disk before it if and only if the block changed no stored account |
| `Node.RewardPaidTwice` | node_network.go:55-72 | a block whose reward is paid twice that way, passing P0 both times |
| `Node.ReplayCompletes` | node.go:199-228 | a completed replay brings the state height to the block height and touches no block |
| `Node.RecoverIsIdempotent` | node.go:167-228 | recovering again changes nothing |
| `Node.ReplayKeepsP0` | node.go:199-222 | every account state that replay leaves passes P0 |
| `FlatFile.EntryRoundTrip` | storage/flatfile.go:162-228 | 16-byte index entries decode to what was encoded |
| `FlatFile.EntryLayout` | storage/flatfile.go:162-228 | an entry is 8 bytes of offset, 4 of length and 4 of height, big-endian |
| `FlatFile.ChunkOf` | storage/flatfile.go:88-90 | chunks are ranges of 10000 heights from a multiple of 10000 |
| `FlatFile.SlotsOfWrite` | storage/flatfile.go:162-228 | seeking and writing an entry changes exactly one slot, the gap reading as empty |
| `FlatFile.SlotsOfTruncate` | storage/flatfile.go:675-690 | truncating the index file cuts or extends the slots |
| `FlatFile.WritesRefineMap` | storage/flatfile.go:162-228 | after any writes in any order, with overwrites, the files hold exactly the map of last writes |
| `FlatFile.ReadsAgree` | storage/flatfile.go:233-413 | at every height plain and verified read agree with the map; so does the presence test, except for empty slots at heights that are 0 in 32 bits |
| `FlatFile.ReadGuards` | storage/flatfile.go:233-359 | what reads promise on any files: entry height, length, bounds and, with verification, the hash |
| `FlatFile.BlockStore.WriteBlock` | storage/flatfile.go:162-228 | appends the record, overwrites the slot, and keeps files and map in agreement |
| `FlatFile.BlockStore.ReadBlock` | storage/flatfile.go:233-289 | the last data written or a failure |
| `FlatFile.BlockStore.ReadBlockWithVerify` | storage/flatfile.go:293-359 | the same, with a matching hash |
| `FlatFile.BlockStore.HasBlock` | storage/flatfile.go:375-413 | true exactly for stored heights and those empty slots |
| `FlatFile.BlockStore.GetChunkList` | storage/flatfile.go:416-444 | all chunks in ascending order |
| `FlatFile.BlockStore.GetEarliestBlockHeight` | storage/flatfile.go:521-559 | the minimum of the map, an error when empty |
| `FlatFile.BlockStore.GetLatestBlockHeight` | storage/flatfile.go:562-613 | the maximum of the map, 0 when empty |
| `FlatFile.DeleteHoldsIff` | storage/flatfile.go:637-723 | truncation at a stored target keeps exactly the blocks up to it, intact, if and only if no kept record of its chunk lies behind it |
| `FlatFile.MissingTargetIff` | storage/flatfile.go:637-723 | for a target that is not stored it is right if and only if the target's chunk has no files |
| `FlatFile.MissingTargetUnreadable` | storage/flatfile.go:637-723 | otherwise the kept records of that chunk can no longer be read |
| `FlatFile.BlockStore.DeleteBlocksAboveHeight` | storage/flatfile.go:637-723 | file effects, and the exact condition under which the files hold the restricted map |
| `FlatFile.AppendKeepsOrder` | storage/flatfile.go:162-228 | appending above the latest block keeps records in height order |
| `FlatFile.DeleteKeepsOrder` | storage/flatfile.go:637-723 | truncation keeps records in height order |
| `FlatFile.RunsRefineMap` | storage/flatfile.go:637-723 | over any run of writes at any heights and deletions at any targets, the files hold exactly the map all the way if and only if every deletion meets its condition when it happens |
| `FlatFile.OrderedRunsRefineMap` | storage/flatfile.go:637-723 | runs that append at the end and go back to stored blocks always do |
| `FlatFile.BackfilledStoreBreaks` | storage/flatfile.go:637-723 | after writes at 5, 4 and 6, going back to 5 loses block 4 |
| `FlatFile.BlockStore.PruneChunks` | storage/flatfile.go:449-518 | exactly the blocks from the chunk of latest minus keep upwards stay, and the number of removed chunks is returned |
| `CheckpointFile.CheckpointDir.SaveCheckpoint` | storage/checkpoint.go:15-70 | the directory that each prefix of the steps leaves, a stop inside the clean-up loop included |
| `CheckpointFile.CheckpointDir.RecoverTransaction` | storage/checkpoint.go:110-131 | recovery, or nothing when interrupted |
| `CheckpointFile.CrashSafe` | storage/checkpoint.go:15-70 | after a crash anywhere and recovery: wholly old or wholly new, new exactly when the delete step was reached, no temporary file |
| `CheckpointFile.SaveKeepsFile` | storage/checkpoint.go:55-67 | a completed save keeps the state file and files named otherwise, and removes the other checkpoint and state files |
| `CheckpointFile.TornTemp` | storage/checkpoint.go:30-34 | a stop while writing leaves a prefix in the temporary file and nothing else changed |
| `CheckpointFile.CrashSafeIff` | storage/checkpoint.go:110-131 | all-or-nothing at every crash point if and only if there was a checkpoint before (or the data is empty) |
| `CheckpointFile.InterruptionsHarmless` | storage/checkpoint.go:110-131 | recovery may be interrupted and repeated any number of times |
| `CheckpointFile.RunsKeepOneCheckpoint` | storage/checkpoint.go:15-131 | over any run of crashing saves and restarts there is exactly one whole checkpoint, the last durable one |
| `AddressCodec.BytesFit` | core/types.go:136-145 | 256^23 <= 36^36 |
| `AddressCodec.Base36Encode` | core/types.go:175-189 | the minimal base-36 numeral |
| `AddressCodec.Base36Decode` | core/types.go:231-255 | at least 23 bytes of the number, nothing for foreign characters |
| `AddressCodec.DeriveAddress` | core/types.go:148-172 | the fixed-width numeral of payload and checksum: 37 characters |
| `AddressCodec.ValidateAddress` | core/types.go:192-228 | accepts exactly the addresses of 20-byte payloads |
| `AddressCodec.AddressDecodes` | core/types.go:231-255 | decoding inverts encoding |
| `AddressCodec.AlphabetOrder` | core/types.go:145-145 | digits are the letters of the alphabet in order |
| `AddressCodec.AddressSpells` | core/types.go:148-172 | an address is F and 36 digits of the number of payload and three hash bytes |
| `AddressCodec.EncodesBack` | core/types.go:175-255 | encoding inverts decoding |
| `AddressCodec.AddressInjective` | core/types.go:148-172 | the payload of an address is unique |
| `Merkle.BuildMerkleTree` | state/merkle.go:76-99 | the loop with padding computes the specified root |
| `Merkle.LeafAt` | state/merkle.go:76-106 | walking down from the root by the bits of i, left for 0 and right for 1, reaches leaf i |
| `Merkle.AccountAt` | state/merkle.go:14-106 | position i of the state tree holds the text of the account with the i-th smallest address |
| `Merkle.RootInjective` | state/merkle.go:76-106 | distinct leaves are determined by the root, across different lengths |
| `Merkle.DuplicateLeafCollides` | state/merkle.go:76-99 | a repeated last leaf cannot be told from the padding |
| `Merkle.AccountTextInjective` | state/merkle.go:63-73 | the hashed text determines every hashed field, for any address text |
| `Merkle.AccountTextReads` | state/merkle.go:63-73 | cutting the text at its last four colons gives address, available, staked, nonce and node type in decimal |
| `Merkle.StateRootDecides` | state/merkle.go:14-106 | equal roots if and only if the merged accounts agree on all hashed fields; listing order is irrelevant |
| `Merkle.CalculateStateRoot` | state/merkle.go:14-60 | the root of the merged accounts, whatever order they were collected in |
| `Merkle.RootsAfterTransfer` | state/checkpoint_snapshot.go:131-163 | after a snapshot transfer both nodes compute the same root |
| `ForkChoice.ForkResolver.ResolveForkUsingCheckpoint` | fork_resolver.go:156-230 | drops exactly for a better rival at the own height that nothing known exceeds |
| `ForkChoice.ForkResolver.DetectAndResolveFork` | fork_resolver.go:31-150 | known-highest update, and the decision for every peer report in terms of heights, hashes, times and chains |
| `ForkChoice.BetterIsStrictTotal` | fork_resolver.go:190-225 | preference by timestamp and hash is a strict total order |
| `ForkChoice.ExactlyOneDrops` | fork_resolver.go:156-230 | of two nodes with different checkpoints exactly one switches |
| `ForkChoice.HearingDropsIff` | fork_resolver.go:31-150 | exactly when a report makes a node drop its checkpoint; never for a peer with a lower chain |
| `ForkChoice.ExchangeResolvesIff` | fork_resolver.go:81-121 | of two nodes reporting to each other the worse gives way if and only if the better has the longer chain, or an equally long one with another head |
| `ForkChoice.KnownNeverFalls` | fork_resolver.go:31-80 | over any run the known height never falls and bounds all reported and compared checkpoints |
| `ForkChoice.KnownWasMet` | fork_resolver.go:31-80 | it is the initial height or one that was met |
| `ForkChoice.DropsOnlyAtTop` | fork_resolver.go:156-230 | a branch is dropped only when peer height = own height = highest known |
| `ForkChoice.ApplyCheckpoint` | node_network.go:480-551 | when a received checkpoint replaces the local one |
| `ForkChoice.ForkResolver.Observe` | fork_resolver.go:287-303 | the node after a report, a received checkpoint or one of its own; a drop leaves it without a checkpoint |
| `ForkChoice.ReceivedRegressesIff` | node_network.go:495-551 | when a received checkpoint is a step back: for a holding node only with a head younger than its checkpoint, after a drop for anything worse than the rival and not below the head |
| `ForkChoice.StandingNeverFallsIff` | node_network.go:480-551 | over any run of reports and checkpoints, what a node stands for never gets worse if and only if no adopted checkpoint is a step back |
| `ForkChoice.ReturnsToDropped` | node_network.go:495-551 | a node drops its checkpoint for a better rival, is sent the dropped one, and holds it again |
| `ForkChoice.NeverReturns` | fork_resolver.go:156-230 | in a run without steps back a node never comes back to a branch it dropped |
| `ForkChoice.SettlesOnBest` | fork_resolver.go:31-150 | in a run without steps back a node ends at least as well as every rival it compared itself with while it held a checkpoint |
| `ForkChoice.ForkChoiceConverges` | fork_resolver.go:156-230 | in runs without steps back, nodes that start among the same rivals and compare themselves with all of them end on the same branch |
| `ForkChoice.ConvergenceCanFail` | node_network.go:495-551 | with a step back, two nodes that compared themselves with both rivals end apart |
| `ForkChoice.RollbackHeight` | fork_resolver.go:246-282 | one interval below the peer checkpoint, at least 1, if and only if the stated condition holds; otherwise the wrapped value, normally above the local chain |
| `Resync.LocalNode.CutStore` | storage/database.go:225-230 | recorded height, files and readable blocks after a cut, safe or not |
| `Resync.LocalNode.ForceResyncFromPeer` | fork_resolver.go:236-346 | checkpoint, block files, recorded height and chain head afterwards; recorded height and head agree if and only if the rollback block can be read and is not above the old head; the safe, the destructive and the wrapped case |
| `ValidatorSet.Validators.LoadFromState` | consensus/validator.go:32-54 | the list names exactly the stored validators, each once, active and with its stored stake |
| `ValidatorSet.Validators.UpdateActiveSet` | consensus/validator.go:78-101 | the active set is the top of the eligible validators |
| `ValidatorSet.Validators.AddValidator` | consensus/validator.go:116-130 | updates a known address, else appends; active set refreshed |
| `ValidatorSet.Validators.RemoveValidator` | consensus/validator.go:133-143 | removes every entry of the address; active set refreshed |
| `ValidatorSet.Validators.OnEvent` | node.go:75-91 | the callbacks do to the list what the event says |
| `ValidatorSet.ActiveIsTop` | consensus/validator.go:78-101 | active set and bench partition the eligible validators; sorted, full, and nobody on the bench outranks a member |
| `ValidatorSet.ActiveMeansMostStake` | consensus/validator.go:78-101 | members and bench are exactly the active validators with the required stake; nobody on the bench has more stake, or the same and a smaller address; stakes fall and addresses rise within the set |
| `ValidatorSet.ExecStatus` | state/state.go:414-465 | for every account, only a transaction's own event changes validator status, except exactly where the sender's stake wraps out |
| `ValidatorSet.OrdinaryRunTracks` | state/state.go:414-465 | corollary for ordinary, unforged runs within the supply: the list is right all the way |
| `ValidatorSet.ExecTracksIff` | state/state.go:214-465 | any executed transaction keeps the list right if and only if it neither strikes a validator nor wraps a stake out |
| `ValidatorSet.RunTracksIff` | state/state.go:214-465 | over any run whatever, the list has distinct addresses and names exactly the validators all the way if and only if no executed confiscation hits a validator that holds something and no validator's stake wraps out |
| `ValidatorSet.WrappedStakeLosesTrack` | core/account.go:80-90 | a run of four authentic transactions from the genesis ledger after which a listed account has no stake |
| `ValidatorSet.ExecRecordsIff` | state/state.go:414-465 | an unforged transaction keeps the recorded stakes right if and only if it does not change the stake of a validator without a leaving event |
| `ValidatorSet.RunRecordsIff` | state/state.go:214-465 | over any run whatever, list and recorded stakes are right all the way if and only if no such transaction is executed and no confiscation hits a validator that holds something |
| `ValidatorSet.ConfiscationTracksIff` | state/state.go:214-259 | after a confiscation the list is right if and only if the account was no validator or held nothing |
| `Proposers.GetCycleProposers` | consensus/validator.go:230-265 | the draw of each position of the cycle |
| `Proposers.CycleAgreement` | consensus/validator.go:182-265 | the precomputed cycle is what each height selects on its own |
| `Proposers.CycleTickets` | consensus/validator.go:182-227 | positions and starts agree for the whole cycle exactly when it begins at a cycle start |
| `Proposers.ProposerAgreement` | consensus/validator.go:182-227 | with distinct addresses the selection is invariant under permutation |
| `Proposers.DrawHasRank` | consensus/validator.go:190-226 | the selected address has exactly value mod n smaller ones among the n active |
| `Rewards.CalculateBlockReward` | core/consensus_config.go:328-365 | the two loops compute the reward schedule |
| `Rewards.RewardIs` | core/consensus_config.go:328-365 | 0 below 10^13, the minimum below 2*10^13, then base / 2^k but at least the minimum, k the number of thresholds above the balance |
| `Rewards.RewardMoves` | consensus/validator.go:296-317 | a block reward moves exactly that amount from genesis to the proposer |
| `Rewards.RewardMonotone` | core/consensus_config.go:328-365 | the reward is monotone in the genesis balance for every threshold list |
| `Rewards.RewardsNeverExhaust` | consensus/validator.go:296-317 | a run of block rewards from 10^13 up never fails and never goes below 10^13 minus the minimum reward |
| `NoncePipeline.FilterAccount` | transaction.go:158-214 | keeps greedily the affordable transactions that continue the nonce; the duplicate test never decides |
| `NoncePipeline.ValidateAndDeduplicate` | transaction.go:131-224 | per account the greedy share, in order; system transactions unchanged at the end; independent of the visiting order |
| `NoncePipeline.AcceptedConsecutive` | transaction.go:158-214 | kept transactions were pending, are affordable and carry consecutive nonces |
| `NoncePipeline.AffordableIff` | transaction.go:170-207 | the balance test passes exactly those that would not end short of balance or stake on the ledger before the block |
| `NoncePipeline.KeptIff` | transaction.go:158-214 | a transfer, stake or unstake is kept exactly when it continues the nonce and would not end short |
| `NoncePipeline.FilteredIsPipelined` | transaction.go:131-224 | each kept transaction's nonce is its sender's stored nonce plus the sender's earlier ones |
| `NoncePipeline.FilteredNeverMissesNonce` | state/state.go:356-371 | when signatures and addresses verify, executing the filtered list never fails the nonce check |
| `NoncePipeline.FlowsAfterRun` | state/state.go:374-530 | after an error-free run of presentable transactions every balance is the one before plus the flows read off the list, modulo 2^64 |
| `NoncePipeline.PlainFlows` | state/state.go:374-530 | corollary: for ordinary transactions within the supply the sums are plain |
| `NoncePipeline.PipelineRunsIff` | state/state.go:320-371 | any pipeline of presentable transactions runs without error if and only if each is funded by the balances before the block and the earlier flows |
| `NoncePipeline.FilteredRunsIff` | transaction.go:131-224 | hence when the filtered list runs without error |
| `NoncePipeline.FilterKeepsUnpayable` | transaction.go:170-183 | two transfers of 9 with fee 1 on a balance of 10 are both kept, and executing them ends with a balance error |
| `Backfill.Server.HandleEarliestHeight` | network/message_handler.go:898-939 | the first request, or none when nothing is missing |
| `Backfill.NextBatch` | network/message_handler.go:942-957 | a request ends at the given height, is at most 100 long, not below the target or height 1, and shorter only when it reaches one of them |
| `Backfill.Server.HandleBackfill` | network/message_handler.go:272-315 | every block that can be saved is saved; continues below the lowest saved one or ends, also when none could be saved |
| `Backfill.BackfillCovers` | network/message_handler.go:942-982 | for every target: requests are disjoint, at most 100 long, ceil(n/100) many, and cover exactly the heights from the target up except 0; for target 0 the last one is the empty range from 1 to 0 |
| `Backfill.CoversMissingIff` | network/message_handler.go:942-982 | exactly the missing heights are requested if and only if the target is at least 1 |
| `Backfill.RunBackfill` | network/message_handler.go:272-315 | against a peer with all blocks the run ends having asked for and saved exactly the missing heights if and only if the reported earliest height is at least 1; for 0 it stays in progress |
| `Backfill.Filter` | network/message_handler.go:341-378 | in normal mode keeps exactly the maximal gap-free run from head+1, in checkpoint mode nothing; stored ahead are exactly the blocks beyond the gap |

## Left out

- I/O errors of LevelDB and partial failure between shard batches; only the faults of `SaveBlock` are modelled.
- JSON, gzip, file handles, mutexes and handle caching; `DeleteBlocksAboveHeight` re-enters its own lock (storage/flatfile.go:638-641), which the file effects do not show.
- The supply tracker (`InitializeTotalSupplyTracker`, `VerifyTotalSupplyFast`, `VerifyTotalSupplyDual`): P0 uses the full sum.
- Building headers, VRF and signatures in `produceBlock`; whether the block validates, whether saving fails and whether the head links are inputs of `ProduceBlock`.
- Restoring historical state: `ReloadStateFromHeight` only re-reads the current database, so reorganisation of account state has no such property.
- Joint atomicity of checkpoint file and state snapshot file: `SaveStateSnapshot` has no recovery step.
- `JumpToBlock`, `generateCheckpoint` with its unstable tie order, `LoadFromCheckpoint`, `ImportSnapshot`: they would add only easy members or have no determinate result.
- Account fields that no modelled operation reads (code hash, storage root), and validator fields other than address, stake and status; validators are values, so the pointer shared by the two slices of a set is not modelled, and each change refreshes the active slice as the code does.
- Block heights in `Node`, `Backfill` and `Proposers` are unbounded: wrap-around at 2^64 blocks is not modelled. Heights, lengths and offsets in `FlatFile` have their real widths.
- Text is a sequence of characters compared character by character; the byte order of non-ASCII text is not modelled.
- Log lines, including slices such as `tx.From[:10]` that fail on shorter text (transaction.go:145).
- StateManager.TransferSnapshot: for two different nodes with their own stores and caches.
- Backfill.Filter: the blocks are given sorted, as the sort at the start of `handleBlocks` leaves them; applying blocks already in the database afterwards is not modelled.
- FlatFile.BlockStore.WriteBlock: data files stay below 2^64 bytes; agreement with the map is claimed after writes of non-empty data at heights from 1 to 2^32-1.
- NoncePipeline.ValidateAndDeduplicate: a list has fewer than 2^64 transactions; account reads come from one fixed state, as nothing writes it meanwhile.
- ForkChoice.ForkChoiceConverges: for runs without steps back, which the code does not rule out (`ForkChoice.ReturnsToDropped`); rival checkpoints with the same hash are the same checkpoint.
- Resync.LocalNode.ForceResyncFromPeer: reloading the state (which only re-reads the database) and the request to a peer are left out, and every block that can be read can be decoded.
- Node.CrashEquivalence: for a node without leftover dirty marks; `Node.LeftoversBreakEquivalence` shows what leftovers do.
- ValidatorSet.OrdinaryRunTracks: a corollary for the ordinary case; `ValidatorSet.RunTracksIff` has no such bound.
- NoncePipeline.PlainFlows: a corollary for the ordinary case; `NoncePipeline.FlowsAfterRun` has no such bound.
- ForkChoice.NeverReturns: for runs without steps back.
- ForkChoice.SettlesOnBest: for runs without steps back.
- Sockets, peers, DNS, HTTP, web pages and the tools directory.
