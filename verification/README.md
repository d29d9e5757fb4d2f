# Axiom Ledger: verified models of its state-keeping core

Axiom Ledger is a blockchain node. Four of its subsystems keep a fast or incremental structure that
has to agree with something simple, and this project models them in Dafny and proves that they do:

- **Journaled world state** (`internal/ledger`). Every mutation appends an entry that undoes it;
  `Snapshot` and `RevertToSnapshot` nest. `AccessLists`, `Accounts`, `Journal`, `Revisions`,
  `CodeHashes`, `Readings` and `StateLedger` hold the model. `Revisions` has runs of calls and the main
  theorem; the classes of `StateLedger` are proved to take exactly those steps, and to leave what
  `Readings` says a caller then reads.
- **Flat snapshot and prune cache** (`internal/ledger/snapshot`, `internal/ledger/prune`). A block's
  journal undoes it, any number of blocks deep; trie nodes live in a list of diffs that is merged and
  flushed in the background. `FlatSnapshots`, `SnapshotStore`, `PruneCaches`, `Pruner`.
- **Transaction pool** (`internal/txpool`). Binary heaps in slices, a scheduler by price over nonce
  queues, two batch builders, indexes that must agree, and the exchange by which a replica gets
  missing transactions. `Heaps`, `NonceQueues`, `PriceQueues`, `PriorityQueues`, `SchedulerRuns`,
  `BatchByPrice`, `BatchByTime`, `TxStores`, `PoolBatches`, `MissingTxs`, `TxRecords`.
- **Block sync** (`internal/sync`). Requesters fill a chunk, the chunk is validated, invalid heights
  are fetched again, chunks advance to the target. `SyncPlans`, `SyncChains`, `SyncAccounts`,
  `SyncManagers`.

Three companions are smaller: persisting and rolling back the chain (`CachedStorages`,
`ChainLedgers`), the record file of local transactions (`TxRecords`) and the quorum (`Quorums`).

Values are datatypes with functions and lemmas. What the source updates in place is a class whose
methods are proved against those functions. Where the source iterates over a Go map, the model picks
the next key arbitrarily, so the result holds for every order. Caches may forget entries at any time.

## What does not hold, and exactly when it does

The code is kept as it is. Each statement is an if-and-only-if over all inputs, followed by the member
that shows it at a failing input.

- Reverting does not always restore an account's **code hash**: undoing a code change stores the hash
  of the previous bytes, also when the account had no hash. It is restored if and only if no call
  since the snapshot set the code, or the hash was that of the code bytes (`CodeHashRestoredIff`;
  `CodeHashNotRestored`). Everything else a reader can see is restored.
- **Code that is set** reads back if and only if it is not nil or the account has no stored code
  (`StateLedger.SetCode`; `NilCodeShowsStored`).
- A **self-destructed account** is absent after a commit if and only if it was not written, or written as
  it is stored: the second pass adds it again otherwise (`CommitSets`; `DestroyedComesBack`).
- Sync posts the chain's **headers** always, but the chain's **blocks** if and only if every posted body
  matches its header, hence always with full validation, which snapshot mode turns off
  (`BodiesDecide`, `SyncManager.ProcessChunkTask`; `TamperedBodyPasses`, `PostsTamperedBody`).
- An **epoch checkpoint** is checked during sync if and only if no epoch below the target is longer than
  the maximum chunk: each chunk uses up one epoch change, reached or not (`EpochsCheckedIff`;
  `LongEpochIsNotChecked`).
- When the quorum **rejects a chunk's last block**, the sync bookkeeping stays balanced if and only if
  the height in that block's header, which nothing compares with the requested one, is a height of
  the chunk. Otherwise, and only then, the sync hangs: no arrivals and no handled events ever make the
  chunk be processed again (`SyncManager.ReportLast`, `HangsIff`; `ForeignHeightUnbalances`).
- **Popping the price scheduler** dereferences nil if and only if the popped nonce is the last but one
  number of 64 bits and its queue becomes empty (`PriorityQueue.Pop`; `PopPanics`). What is left of the
  queue is in no heap if and only if the next nonce is missing (`PriorityQueue.Pop`; `GapStrands`).
- A transaction that is filed keeps its account's nonces a **run** if and only if it adjoins them, and
  over any run of calls from a new scheduler the queues are runs throughout if and only if everything
  filed adjoined (`PutKeepsRunIff`, `RunGaplessIff`). For an accepted push that means no gap below
  the lowest nonce (`PushKeepsRunIff`; `PushLeavesGap`).
- The price scheduler finds entries by nonce in one place and by object in another. Its invariant (the
  heap holds exactly each account's head, the size is the number queued) survives **removing from a
  transaction on** if and only if the account's head has a lower nonce or is that very transaction
  (`BehindKeepsInvIff`; `RemoveBehindBreaks`), **replacing** if and only if the nonce is queued or the
  account unknown (`PriorityQueue.ReplaceTx`; `ReplaceBreaks`), and **putting back** a queued nonce if
  and only if it is the queued object or not the head (`OfferKeepsInvIff`; `PushBackBreaks`).
- **Cleaning up to a commit nonce** keeps the scheduler's later nonces if and only if the commit nonce is
  not zero or only the largest nonce is queued (`CleanBeforeCommitNonce`; `CommitZeroEmptiesQueue`).
- A **batch size** caps a time-ordered batch if and only if it is not zero or nothing is ready at the
  start (`PopExecutableTxsByTime`; `ZeroIsNoCap`).
- In time order, adding a ready transaction with the skipped ones that follow keeps batched nonces
  **runs** if and only if the chain does not run past the largest nonce to a stale nonce zero
  (`VisitKeepsRunsIff`; `StaleZeroFollows`).
- **Chain rollback** restores all lookups if and only if the removed blocks share no block or transaction
  hash with the remaining ones (`RollbackRestoresIndexIff`; `RepeatedTxIsLost`).

Some operations are right only because of how they are called. Deleting an access-list slot spares other
addresses' slots if and only if the slot set survives or is the last one (`DeleteSlotSparesOthersIff`;
`OutOfOrderDropsSlot`), which reverting in journal order ensures. Dropping flushed trie diffs is invisible
if and only if, for every key both written and pruned in them, the store already holds what the diffs say
(`DropIsInvisibleIff`; `UnstampedComesBack`), which version stamps ensure (`StampedIsSettled`). Flushing
is invisible at versions from the last flushed height on, not below (`FlushShowsBelow`). Inserting a
transaction keeps the pool's indexes in agreement if and only if its hash is new or known at its own
place (`TransactionStore.InsertPoolTx`; `OneHashTwoPlaces`), which hashing ensures.

## Assumptions

- Keccak is injective on code; account handles are used through the ledger, so accounts are values in
  its map. `InnerAccountChanged` of axiom-kit compares records and treats "nothing written" as
  unchanged. Empty and absent slot values are the same.
- Between snapshot and revert nothing replaces state without journaling (`Prepare`, `Finalise`).
- Trie node keys are stamped with the version they are written at, and a node is pruned later than it
  is written. The account and the storage trie have disjoint keys, so their caches are one map here.
- Block updates, prune updates and persisted blocks come with consecutive heights.
- A pool transaction's hash identifies it. The time-ordered index holds each place once.
- Sync: the quorum's answer about a block is true to the chain. No other header has a chain header's
  hash and no other transactions have the root of a chain block's; a fetched body may be any. Epoch
  changes come in increasing order and none lies behind.

## Model

| member | source | states |
|---|---|---|
| AccessLists.AddAddressKeepsWellFormed | internal/ledger/access_list.go:64-70 | Warming an address keeps every index in range and owned by one address, adds that address to the list and touches no slot. |
| AccessLists.AddSlotKeepsWellFormed | internal/ledger/access_list.go:72-86 | Warming a slot keeps every index in range, every slot set non-empty and owned by exactly one address. |
| AccessLists.AddSlotWarmsOneSlot | internal/ledger/access_list.go:72-86 | After adding a slot exactly that slot and its address are warm in addition to what was. |
| AccessLists.DeleteAddressUndoesAddAddress | internal/ledger/access_list.go:101-103 | Deleting the address just added gives back the exact list. |
| AccessLists.DeleteSlotUndoesAddSlot | internal/ledger/access_list.go:88-99 | Deleting the slot just added gives back the exact list, whether or not it opened a new slot set; the address still has its set, so nothing panics. |
| AccessLists.DeleteSlotSparesOthersIff | internal/ledger/access_list.go:88-99 | Truncating the slot vector leaves all other addresses' slots alone if and only if the slot set survives or is the last one. |
| AccessLists.OutOfOrderDropsSlot | internal/ledger/access_list.go:88-99 | Emptying the older of two slot sets first drops the other address's slot. |
| AccessLists.AccessList.Contains | internal/ledger/access_list.go:30-40 | Reports whether the address and whether the slot is warm. |
| AccessLists.AccessList.AddAddress | internal/ledger/access_list.go:64-70 | Adds the address and reports whether it was new. |
| AccessLists.AccessList.AddSlot | internal/ledger/access_list.go:72-86 | Adds address and slot in one call and reports which of the two were new. |
| AccessLists.AccessList.DeleteSlot | internal/ledger/access_list.go:88-99 | Removes the slot, truncating the vector when its set becomes empty. |
| AccessLists.AccessList.DeleteAddress | internal/ledger/access_list.go:101-103 | Removes the address. |
| Accounts.CachedIsInvisible | internal/ledger/account.go:144-179 | The first read of a slot fills the origin layer and changes no current or committed value. |
| Accounts.FinalisePublishes | internal/ledger/account.go:404-414 | Finalise makes exactly the current slot values the committed ones and keeps every pending key an origin key. |
| Accounts.WithRestores | internal/ledger/account.go:228-244 | Writing a slot and writing its previous value back leaves every current and committed slot value as it was, and every dirty key an origin key. |
| Accounts.UndoInvertsApply | internal/ledger/account.go:228-384 | Undoing the entry of a balance, nonce, code, slot or self-destruct write right after it restores balance, nonce, code bytes, flags and every slot. |
| Accounts.UndoRespectsSame | internal/ledger/account.go:242-384 | Undoing an entry on two accounts no reader can tell apart gives two such accounts. |
| Journal.PerformKeepsOk | internal/ledger/state_accessor.go:27-207 | Every journaled mutation keeps the origin layers at block-start values, the access list well formed and the logs free of empty lists. |
| Journal.UndoInvertsWrite | internal/ledger/state_changer.go:128-248 | Undoing any entry right after its mutation restores every observable, and finds the account, slot set or log it needs. |
| Journal.UndoRespectsCovers | internal/ledger/state_changer.go:128-248 | Undoing any entry gives indistinguishable results on indistinguishable states, and is possible on the better-loaded one whenever it is on the other. |
| Revisions.UndoneComposes | internal/ledger/state_changer.go:35-47 | Undoing the journal down to one position and then further down is undoing it all the way. |
| Revisions.ExecKeepsValid | internal/ledger/state_accessor.go:27-40 | Every call, in any state, keeps the journal undoable entry by entry (each entry finds its account loaded, so undoing never appends), the revision ids strictly increasing and their positions non-decreasing. |
| Revisions.RevertOfDescendant | internal/ledger/state_accessor.go:489-500 | Reverting to a snapshot whose ledger was reached by any calls gives back its state, journal and older revisions. |
| Revisions.RevertRestoresSnapshot | internal/ledger/state_accessor.go:481-500 | For every run of calls after a snapshot, with snapshots and reverts nested in any way, reverting to it, if it is still live, restores account existence, balance, nonce, code bytes, every slot, self-destruct and created flags, transient storage, refund, logs, preimages and access list, and the journal and revisions of that moment. |
| Revisions.RevertedStaysDead | internal/ledger/state_accessor.go:489-500 | A snapshot that was reverted to, or past, is never live again in any later run. |
| CodeHashes.CodeHashRestoredIff | internal/ledger/account.go:261-268 | After any run, reverting restores an existing account's code hash if and only if the run never set its code or the hash at the snapshot was that of the code bytes. |
| CodeHashes.CodeHashNotRestored | internal/ledger/account.go:247-268 | An account without a code hash that is given code and reverted ends with a hash. |
| Readings.StoredReads | internal/ledger/state_accessor.go:27-94 | An account that is not loaded reads as its stored record, code and slots. |
| Readings.FetchReads | internal/ledger/state_accessor.go:27-94 | Fetching creates a missing account as an empty one and changes no other reading. |
| Readings.ApplyReads | internal/ledger/account.go:225-371 | What an account reads like after each write: the written field, and nothing else. |
| Readings.UpdateReads | internal/ledger/account.go:225-371 | The same for all accounts and slots of the ledger: only the written one reads differently. |
| Readings.FetchAndUpdateReads | internal/ledger/state_accessor.go:103-207 | The same for fetching an account and writing it, in any valid ledger. |
| Readings.NilCodeShowsStored | internal/ledger/account.go:247-290 | Setting nil code on an account with stored code reads the stored code. |
| Readings.FinaliseReads | internal/ledger/state_ledger.go:175-186 | Finalising changes no slot reading and of accounts only the created flag. |
| StateLedgers.StateChanger.Append | internal/ledger/state_changer.go:28-33 | Appends the entry; the dirties map still counts, per account, exactly the entries that dirty it. |
| StateLedgers.StateChanger.Pop | internal/ledger/state_changer.go:35-47 | Drops the entry just undone; the dirties map still counts exactly and holds no zero. |
| StateLedgers.StateLedger.constructor | internal/ledger/state_ledger.go:352-384 | A new ledger is empty and valid. |
| StateLedgers.StateLedger.GetOrCreateAccount | internal/ledger/state_accessor.go:27-94 | Yields the loaded account, else the stored one, else a new one; only creating it is journaled. No other account and no slot reads differently, nor does anything else. |
| StateLedgers.StateLedger.SetBalance | internal/ledger/state_accessor.go:109-112 | Fetches the account, then takes the journaled balance step. Afterwards the account is there with that balance; its nonce, code, code hash, flags and slots, every other account and all other state read as before. |
| StateLedgers.StateLedger.SubBalance | internal/ledger/state_accessor.go:114-119 | Takes the step on a non-empty account with a non-zero amount, and otherwise only fetches the account. Afterwards the balance reads as the old one minus the amount, unless the account was empty, and everything else as before. |
| StateLedgers.StateLedger.GetBalance | internal/ledger/state_accessor.go:103-106 | Answers the balance a reader of the state expects, zero for an unknown account, and changes no reading. |
| StateLedgers.StateLedger.SetNonce | internal/ledger/state_accessor.go:204-207 | Fetches the account, then takes the journaled nonce step. The nonce reads back and everything else reads as before. |
| StateLedgers.StateLedger.SetCode | internal/ledger/state_accessor.go:151-154 | Fetches the account, then takes the journaled code step. The code reads back if it is not nil or none is stored, else the stored code does; the hash is that of the given code; everything else reads as before. |
| StateLedgers.StateLedger.GetState | internal/ledger/state_accessor.go:127-130 | Answers the current slot value and only fills caches: no account, slot or other state reads differently. |
| StateLedgers.StateLedger.SetState | internal/ledger/state_accessor.go:145-148 | Fetches the account, then takes the journaled slot step. The slot reads back, its account is there, and every other slot and account reads as before. |
| StateLedgers.StateLedger.SelfDestruct | internal/ledger/state_accessor.go:436-448 | Flags the account and sets its balance to zero, each as a journaled step. It then reads as destroyed with balance zero, and everything else as before. |
| StateLedgers.StateLedger.AddRefund | internal/ledger/state_accessor.go:180-183 | Adds to the refund modulo 2^64, journaled; nothing else changes. |
| StateLedgers.StateLedger.SubRefund | internal/ledger/state_accessor.go:185-191 | Subtracts from the refund and changes nothing else; reports the case in which the source panics, after the entry was appended. |
| StateLedgers.StateLedger.AddLog | internal/ledger/state_accessor.go:632-648 | Appends the log with its data, the running index and the current transaction's index to those of the given transaction hash or the current one, journaled, and counts it; nothing else changes. |
| StateLedgers.StateLedger.AddPreimage | internal/ledger/state_accessor.go:554-561 | Stores an unknown preimage, journaled; a known one changes nothing. Nothing else changes. |
| StateLedgers.StateLedger.SetTransientState | internal/ledger/evmstate_db.go:93-105 | Sets a transient slot, journaled, unless it already has the value; that slot reads back and every other one as before. |
| StateLedgers.StateLedger.AddAddressToAccessList | internal/ledger/state_accessor.go:509-513 | Warms exactly the address, journaled if new. |
| StateLedgers.StateLedger.AddSlotToAccessList | internal/ledger/state_accessor.go:515-526 | Warms exactly address and slot in one call and appends up to two entries in the order that undoes them. |
| StateLedgers.StateLedger.Snapshot | internal/ledger/state_accessor.go:481-487 | Hands out the next id at the current journal length. |
| StateLedgers.StateLedger.SearchRevision | internal/ledger/state_accessor.go:489-495 | The binary search splits the revisions into smaller ids and the rest. |
| StateLedgers.StateLedger.RevertChange | internal/ledger/state_changer.go:128-248 | Undoes one entry as the journal model says, without appending. |
| StateLedgers.StateLedger.RevertChanges | internal/ledger/state_changer.go:35-47 | Undoes entries from the back down to a position, keeping the dirties count exact. |
| StateLedgers.StateLedger.RevertToSnapshot | internal/ledger/state_accessor.go:489-500 | Succeeds exactly on a live id and then is the revert step of the run model; otherwise nothing changes. |
| StateLedgers.StateLedger.Finalise | internal/ledger/state_ledger.go:175-186 | Publishes every account's slots and starts journal, refund and revisions afresh, keeping the invariant. Every slot reads as before, now as the committed value too, and every account but for the created flag. |
| StateLedgers.WarmBoth | internal/ledger/state_accessor.go:515-526 | Adding a slot to the list at once is warming the address and then the slot, in state and in journal. |
| FlatSnapshots.RevertPullsAccountBack | internal/ledger/snapshot/journal.go:9-30 | Reverting a journal whose entries hold the values of an earlier state pulls every account it mentions back to that state and leaves the others. |
| FlatSnapshots.RevertPullsSlotBack | internal/ledger/snapshot/journal.go:9-30 | The same for every slot. |
| FlatSnapshots.RevertInvertsUpdate | internal/ledger/snapshot/journal.go:9-30 | Reverting the journal of a block undoes the block exactly, if the journal holds the block-start value of everything the block changes. |
| FlatSnapshots.AccountJournalIsFaithful | internal/ledger/account.go:416-447 | An account's journal entry holds block-start values, and every slot whose block-end value differs. |
| FlatSnapshots.CollectDirtyData | internal/ledger/state_accessor.go:214-232 | Collects exactly the accounts whose written record differs from the stored one, or that are destroyed, or with a pending slot that differs from the stored one; each with its journal entry. |
| FlatSnapshots.ChangedMeansDiffers | internal/ledger/account.go:416-447 | An account counts as changed if and only if what it would store differs from what is stored or it is destroyed. |
| FlatSnapshots.StorageSets | internal/ledger/state_accessor.go:259-292 | Collects the destroyed accounts, and the pending slots of the other changed ones. |
| FlatSnapshots.AccountSet | internal/ledger/state_accessor.go:323-351 | Collects the changed account records with their new storage roots, those of destroyed accounts included. |
| FlatSnapshots.CommitSets | internal/ledger/state_accessor.go:235-351 | What a block hands to the snapshot is journaled faithfully. After the update the snapshot answers for every surviving account its committed slots, and its balance, nonce and code hash if its record was written and else the stored record; a destroyed account is absent if and only if it was not written or written as stored; accounts that are not loaded are untouched. |
| FlatSnapshots.DestroyedComesBack | internal/ledger/state_accessor.go:323-351 | A stored account with a balance that is destroyed is stored again, emptied. |
| SnapshotStore.RevertInto | internal/ledger/snapshot/journal.go:9-30 | The writes appended for an entry undo it when the batch is applied, last write winning. |
| SnapshotStore.RevertJournalInto | internal/ledger/snapshot/journal.go:9-30 | The writes appended for a block journal undo the block. |
| SnapshotStore.BlockInto | internal/ledger/snapshot/snapshot.go:130-175 | The batch of a block updates accounts, slots, journal and heights together. |
| SnapshotStore.BlockRevertInto | internal/ledger/snapshot/snapshot.go:206-224 | Appends undoing a block, deleting its journal and lowering the maximum height. |
| SnapshotStore.RollbackInvertsUpdates | internal/ledger/snapshot/snapshot.go:178-228 | Rolling back any number of blocks gives back the store exactly as it was: accounts, slots, journals and heights. |
| SnapshotStore.Snapshot.Account | internal/ledger/snapshot/snapshot.go:74-108 | Answers the stored record through a cache that may have forgotten anything, and caches it. |
| SnapshotStore.Snapshot.Storage | internal/ledger/snapshot/snapshot.go:110-127 | Answers the stored slot value through the cache, up to empty being absent, and caches it. |
| SnapshotStore.Snapshot.Update | internal/ledger/snapshot/snapshot.go:130-175 | Takes over a block, writing the caches through, and keeps every earlier height reachable by rollback. |
| SnapshotStore.Snapshot.Rollback | internal/ledger/snapshot/snapshot.go:178-228 | Returns the contents recorded for the height, wherever the growing batch is committed on the way, with the maximum height lowered; rejects heights above the maximum and below the minimum, changing nothing. |
| SnapshotStore.Snapshot.RemoveJournalsBeforeBlock | internal/ledger/snapshot/snapshot.go:53-72 | Deletes exactly the journals from the minimum up to the height, unless they are too few or the height is out of range, and keeps the remaining heights reachable. |
| PruneCaches.ScanIsMerge | internal/ledger/prune/prunner.go:78-103 | Newest-first search over settled diffs is reading the merged write and prune sets. |
| PruneCaches.FlushIsInvisible | internal/ledger/prune/prunner.go:117-148 | Between committing the flush and dropping the diffs no read changes, at any version at or above the last flushed height. |
| PruneCaches.FlushShowsBelow | internal/ledger/prune/prunner.go:117-148 | Below the flushed heights a read can change: a node that a later block pruned is gone after the flush. |
| PruneCaches.DropIsInvisibleIff | internal/ledger/prune/prunner.go:117-163 | Flushing and dropping diffs changes no read at or above the last flushed height if and only if the store is settled for the keys that are both written and pruned, which the flush leaves alone. |
| PruneCaches.UnstampedComesBack | internal/ledger/prune/prunner.go:117-148 | A key without a version stamp that is written and then pruned answers its old value once the diffs are dropped. |
| PruneCaches.StampedIsSettled | internal/ledger/prune/prunner.go:117-143 | Nodes stamped with their version and pruned later than written are settled. |
| PruneCaches.FlushKeepsCoherent | internal/ledger/prune/prunner.go:117-143 | Flushing into store and trie cache alike keeps the cache in line with the store. |
| Pruner.ReplayCut | internal/ledger/prune/prune_cache.go:176-217 | Cutting the diffs at a height is cutting the stored journals at it. |
| PruneCaches.DiffHolds | internal/ledger/prune/prune_cache.go:105-123 | Each half of a block's diff holds for every key the last journal of that trie about it, and no other key. |
| PruneCaches.AppendedIsAbsorbed | internal/ledger/prune/prune_cache.go:139-173 | Appending such a diff makes a search at its height answer from it and leaves lower heights alone. |
| Pruner.States.RebuildAllKeyMap | internal/ledger/prune/prune_cache.go:57-69 | The rebuilt key filter lets through exactly the keys of the diffs. |
| Pruner.States.Get | internal/ledger/prune/prune_cache.go:139-173 | The backward search behind the key filter finds what a plain newest-first scan finds. |
| Pruner.PruneCache.AddNewDiff | internal/ledger/prune/prune_cache.go:89-124 | Appends a diff that says of every key what the last journal of its trie says, account journals in the account half and the others in the storage half, a write winning over a prune of the same journal, and that knows no other key; keeps the filter complete. |
| Pruner.PruneCache.Update | internal/ledger/prune/prune_cache.go:126-133 | Appends a block; the diffs in memory stay the replay of the stored journals. A search at its height then answers the node the last journal about a key writes, pruned if it prunes it, and for other keys what it answered before; searches at lower heights answer as before. |
| Pruner.PruneCache.Get | internal/ledger/prune/prune_cache.go:139-173 | Answers the newest-first scan of the diffs. |
| Pruner.PruneCache.Rollback | internal/ledger/prune/prune_cache.go:176-217 | Rebuilds the diffs from the journals, changes no read at or below the height, and when persisted deletes exactly the later journals and keeps memory and journals consistent; rejects heights out of range. |
| Pruner.FlushInto | internal/ledger/prune/prunner.go:117-143 | Puts what was only written and deletes what was only pruned, whatever the order of keys. |
| Pruner.MergeRange | internal/ledger/prune/prunner.go:78-104 | Merges the newly stale diffs into the pending sets and marks their journals. |
| Pruner.Prunner.Merge | internal/ledger/prune/prunner.go:71-105 | The pending sets are the merge of exactly the pending diffs. |
| Pruner.Prunner.Flush | internal/ledger/prune/prunner.go:117-171 | Writes the pending sets, drops the diffs and their journals; no read at or above the last flushed height changes and memory stays the replay of the journals. |
| Pruner.Prunner.Tick | internal/ledger/prune/prunner.go:64-172 | One round flushes if and only if it is due and enough diffs are kept, reports the last flushed height, changes no read at or above it, and otherwise only merges. |
| Heaps.TopIsLeast | internal/components/heap/heap.go:12-18 | No entry of a heap is before its top, for any strict weak order. |
| Heaps.Up | internal/components/heap/heap.go:20-23 | Sifting up restores the heap order, keeps the entries, and keeps entries before a bound in front of the starting index. |
| Heaps.Down | internal/components/heap/heap.go:25-31 | Sifting down restores the heap order or reports that nothing moved; nothing in front moves. |
| Heaps.Push | internal/components/heap/heap.go:20-23 | Adds one entry and keeps the heap. |
| Heaps.Pop | internal/components/heap/heap.go:25-31 | Removes the top, which no remaining entry is before, and keeps the heap. |
| Heaps.Remove | internal/txpool/heap.go:111-117 | Removes the entry at an index and keeps the heap; entries before a bound stay in front of the index even when the moved entry sifts up past it. |
| NonceQueues.TopIsHead | internal/txpool/heap.go:88-91 | The item of the top nonce is the item of lowest nonce. |
| NonceQueues.SuccessorIsNext | internal/txpool/heap.go:46-86 | After the successor of the last nonce is pushed, its own successor is accepted. |
| NonceQueues.LastIsHighest | internal/txpool/heap.go:75-86 | The last nonce never falls, covers a newly queued nonce and is no other number. |
| NonceQueues.AcceptsMeans | internal/txpool/heap.go:46-55 | Everything below the queued nonces is accepted; from them on only zero and the successor of the last. |
| NonceQueues.AccountQueue.IsValidPush | internal/txpool/heap.go:46-55 | Accepts nonces below the lowest, zero, and the successor of the last nonce modulo 2^64. |
| NonceQueues.AccountQueue.Push | internal/txpool/heap.go:75-86 | Files the transaction under its nonce, reports a replacement, raises the last nonce, and keeps items and heap in bijection. |
| NonceQueues.AccountQueue.Peek | internal/txpool/heap.go:89-91 | The transaction of lowest nonce, or none. |
| NonceQueues.AccountQueue.Pop | internal/txpool/heap.go:94-105 | Removes and returns the transaction of lowest nonce. |
| NonceQueues.AccountQueue.Prune | internal/txpool/heap.go:59-72 | Removes exactly the nonces up to the given one, the largest number excepted, lowest first, each once. |
| NonceQueues.AccountQueue.RemoveBehind | internal/txpool/heap.go:108-128 | Scanning the heap array by index while deleting from it removes exactly the nonces from the given one on, each once, keeps heap order and bijection, and terminates. |
| PriceQueues.BestOfAll | internal/txpool/heap.go:141-149 | No account's current transaction has a higher gas price than the top of the price heap, and none of the same price an earlier timestamp. |
| PriceQueues.PriceQueue.RemovePriced | internal/txpool/heap.go:181-191 | Removes the very object if present and keeps the heap. |
| PriceQueues.PriceQueue.Push | internal/txpool/priority_queue.go:31-44 | An account's entry is replaced unless its nonce is lower; the heap holds each account's entry once. |
| PriceQueues.PriceQueue.Pop | internal/txpool/priority_queue.go:46-56 | Removes the top and its account's entry. |
| PriceQueues.PriceQueue.Remove | internal/txpool/priority_queue.go:65-73 | Removes the account's entry if it has the nonce; heap and map stay in step if and only if such an entry is the very object given. |
| PriorityQueues.CountTaken | internal/txpool/priority_queue.go:214-229 | The number of queued transactions falls by exactly the number taken out. |
| PriorityQueues.PutKeepsRunIff | internal/txpool/heap.go:74-85 | Filing a transaction keeps a run of nonces a run if and only if its nonce is queued, next to a queued one, or the first. |
| PriorityQueues.PushLeavesGap | internal/txpool/heap.go:46-55 | A queue holding nonce 5 accepts nonce 3 and then has a gap. |
| PriorityQueues.PushKeepsRunIff | internal/txpool/heap.go:46-55 | On a run that ends at the last nonce, an accepted push keeps a run if and only if it leaves no gap below the lowest nonce. |
| PriorityQueues.PopKeepsInv | internal/txpool/priority_queue.go:137-175 | Popping a head and shifting in the successor, if its nonce follows, leaves each account's lowest-nonce transaction in the price heap and the count exact; an account is kept out of the heap exactly when a gap follows the popped nonce. |
| PriorityQueues.BehindKeepsInvIff | internal/txpool/priority_queue.go:214-229 | Removing from a nonce on leaves heap, heads and size right if and only if the account's head is lower or is the transaction given. |
| PriorityQueues.OfferKeepsInvIff | internal/txpool/priority_queue.go:122-135 | Offering a transaction whose nonce is queued keeps the heads right if and only if it is the queued object or not the head. |
| PriorityQueues.UncountedBreaksInv | internal/txpool/priority_queue.go:195-212 | Queueing a new nonce without counting it makes the size wrong. |
| PriorityQueues.PriorityQueue.constructor | internal/txpool/priority_queue.go:94-102 | A new scheduler is empty and valid. |
| PriorityQueues.PriorityQueue.Push | internal/txpool/priority_queue.go:104-120 | Queues an accepted transaction, raising the last nonce, and leaves the queue alone otherwise; the heap still holds exactly the heads and the size is the number of queued transactions. Queue objects stay, or are new. |
| PriorityQueues.PriorityQueue.PushBack | internal/txpool/priority_queue.go:122-135 | Puts a batch's transaction back at its nonce, with the same invariant; when the nonce is still queued the queue is unchanged and the invariant holds if and only if it is the queued object or not the head. Queue objects stay, or are new. |
| PriorityQueues.PriorityQueue.Shift | internal/txpool/priority_queue.go:160-175 | Moves the next transaction to the heap when its nonce follows; its panic is unreachable, and it fails exactly where the source dereferences nil. |
| PriorityQueues.PriorityQueue.Pop | internal/txpool/priority_queue.go:137-151 | Returns a head such that no other has a higher gas price, and none of the same price an earlier timestamp, and removes it from its queue; the mismatch panic is unreachable; panics exactly when the nonce is 2^64 - 2 and the queue becomes empty; the rest of the queue is out of the heap exactly when a gap follows. |
| PriorityQueues.PriorityQueue.ReplaceTx | internal/txpool/priority_queue.go:195-212 | Replaces a queued transaction, in the heap too exactly when it is the head, which the result reports; the invariant holds afterwards if and only if the nonce was queued or the account unknown. |
| PriorityQueues.PriorityQueue.RemoveTxBehindNonce | internal/txpool/priority_queue.go:214-229 | Removes exactly the account's nonces from the given one on, each once; heads, heap and size are right afterwards if and only if the head was lower or the very transaction given. |
| PriorityQueues.PriorityQueue.RemoveTxBeforeNonce | internal/txpool/priority_queue.go:232-260 | Removes exactly the nonces up to the given one and offers the new head, keeping heads and size right. |
| PriorityQueues.PriorityQueue.UpdateAccountNonce | internal/txpool/priority_queue.go:189-193 | Changes only what the next push is compared with. |
| SchedulerRuns.CallGaplessIff | internal/txpool/priority_queue.go:104-260 | After any call all queues are runs of nonces if and only if what the call filed adjoins what was there; taking out never breaks a run. |
| SchedulerRuns.RunGaplessIff | internal/txpool/priority_queue.go:94-260 | Over any sequence of calls from a new scheduler all queues are runs at every point if and only if everything filed adjoined what was there. |
| SchedulerRuns.Apply | internal/txpool/priority_queue.go:104-260 | Any call that meets its condition keeps heap, heads and size right and changes the queued items as stated for it. |
| SchedulerRuns.ApplyAll | internal/txpool/priority_queue.go:104-260 | Any sequence of calls, each meeting its condition in every state the earlier ones can lead to, takes the queues through the calls one after the other and keeps the scheduler valid and its queues runs. |
| SchedulerRuns.RunFromNew | internal/txpool/priority_queue.go:94-260 | The same from a new scheduler. |
| SchedulerRuns.DearerFirst | internal/txpool/priority_queue.go:104-151 | Of two accounts' transactions the one with the higher price is popped first, whichever was pushed first. |
| SchedulerRuns.PopPanics | internal/txpool/priority_queue.go:137-175 | Popping an account's only transaction, of nonce 2^64 - 2, panics. |
| SchedulerRuns.GapStrands | internal/txpool/priority_queue.go:137-175 | After a push that leaves a gap and a pop, a transaction is queued but in no heap, and the next pop returns nothing. |
| SchedulerRuns.RemoveBehindBreaks | internal/txpool/priority_queue.go:214-229 | Removing from another object with the head's nonce on leaves the scheduler invalid. |
| SchedulerRuns.ReplaceBreaks | internal/txpool/priority_queue.go:195-212 | Replacing a nonce that is not queued leaves the scheduler invalid. |
| SchedulerRuns.PushBackBreaks | internal/txpool/priority_queue.go:122-135 | Putting back another object under the head's nonce leaves the scheduler invalid. |
| BatchByPrice.DrawnIsRun | internal/txpool/txpoolImpl.go:1156-1185 | What a batch takes from a run of nonces is the consecutive nonces from its lowest on, in order. |
| BatchByPrice.GreedyNext | internal/txpool/txpoolImpl.go:1156-1185 | Taking the best head keeps the batch greedy: no entry has a higher gas price, or the same and an earlier timestamp, than one in front of it that was taken while it was already its account's head. |
| BatchByPrice.PopExecutableTxsByPrice | internal/txpool/txpoolImpl.go:1156-1185 | The batch is within the size, valid, greedy by price, and takes each account's lowest nonces in order and nothing else; a batch below the size leaves only accounts stuck at an invalid head, cut off by a gap behind their last batched nonce, or kept out before. From runs of nonces it leaves runs and cuts nothing off. |
| BatchByPrice.RunIsNotCutOff | internal/txpool/txpoolImpl.go:1156-1185 | What a batch leaves of a run is a run, and is not behind a gap. |
| BatchByPrice.DrewLacks | internal/txpool/txpoolImpl.go:1156-1185 | After a batch the queues lack exactly its transactions. |
| BatchByPrice.PutBack | internal/txpool/txpoolImpl.go:2076-2081 | Putting a batch's transactions back, in any order, gives every account exactly the queue it had before the batch, with heap, heads and size right, and runs again if they were. |
| BatchByTime.GrewMeans | internal/txpool/txpoolImpl.go:1187-1256 | No entry of the batch is repeated or was batched before, and each is next for its account given the entries in front of it. |
| BatchByTime.Include | internal/txpool/txpoolImpl.go:1229-1249 | Adds a transaction and exactly the skipped ones that follow it one by one in 64-bit arithmetic, until none follows or the batch is full; terminates. |
| BatchByTime.ChainGrows | internal/txpool/txpoolImpl.go:1229-1249 | A chain that stays below the largest nonce adds ready transactions only, keeps runs, and leaves nothing skipped ready but what follows it. |
| BatchByTime.VisitKeepsRunsIff | internal/txpool/txpoolImpl.go:1187-1256 | Adding a ready entry with what follows it keeps batched nonces runs if and only if the chain does not run round to a stale nonce zero. |
| BatchByTime.StaleZeroFollows | internal/txpool/txpoolImpl.go:1229-1249 | A skipped stale nonce zero is batched behind the largest nonce. |
| BatchByTime.Visit | internal/txpool/txpoolImpl.go:1190-1254 | One entry of the index: nothing, a marked account, a skipped entry, or a chain added to the batch. |
| BatchByTime.PopExecutableTxsByTime | internal/txpool/txpoolImpl.go:1187-1256 | For any index order the batch is empty exactly when nothing is ready at the start, so it is within the size if and only if the size is not zero or that holds. Unless an account has both the largest nonce and a stale nonce zero, every account's batched nonces stay a run from its commit nonce and below the cap no ready transaction of an account without invalid ones is left. |
| BatchByTime.ZeroIsNoCap | internal/txpool/txpoolImpl.go:1230-1232 | With size zero one ready transaction is batched. |
| BatchByTime.ReadyRunIsTaken | internal/txpool/txpoolImpl.go:1187-1256 | A batch that leaves nothing ready contains every queued nonce that follows the commit nonce without a gap. |
| TxStores.AddKeepsAgree | internal/txpool/tx_store.go:95-122 | Adding a transaction at a free place with a new hash keeps the hash index pointing at exactly the pooled transactions. |
| TxStores.DeleteKeepsAgree | internal/txpool/tx_store.go:124-142 | Deleting a transaction with its hash keeps the agreement. |
| TxStores.CollectLists | internal/txpool/txpoolImpl.go:735-754 | Dropping accounts marked empty drops no transaction. |
| TxStores.Forward | internal/txpool/tx_store.go:242-253 | Exactly the transactions below the nonce, lowest first. |
| TxStores.Behind | internal/txpool/tx_store.go:255-266 | Exactly the transactions from the nonce on, lowest first. |
| TxStores.FilterReady | internal/txpool/tx_store.go:221-238 | The longest run from the demanded nonce, and the nonce behind it, which is not pooled; it wraps to zero behind the largest nonce. |
| TxStores.TransactionStore.DeletePoolTx | internal/txpool/tx_store.go:124-142 | Empties the place and nothing else, hash included. |
| TxStores.TransactionStore.InsertPoolTx | internal/txpool/tx_store.go:95-122 | Puts the transaction at its place, replacing another, and nothing else changes; the indexes agree afterwards if and only if its hash was new or known at that place. |
| TxStores.HashAfterDelete | internal/txpool/tx_store.go:124-142 | After a place is emptied a hash is known exactly where it was, and not at that place. |
| TxStores.OneHashTwoPlaces | internal/txpool/tx_store.go:95-122 | One hash at two places breaks the agreement. |
| TxStores.TransactionStore.ReplaceTx | internal/txpool/txpoolImpl.go:1825-1844 | The same through remove and insert, reporting a replacement. |
| TxStores.TransactionStore.CleanTxsByAccount | internal/txpool/txpoolImpl.go:1462-1521 | Removes exactly the listed nonces of the account from pool and batched set and marks an emptied account. |
| TxStores.TransactionStore.CleanTxsBeforeCommitNonce | internal/txpool/txpoolImpl.go:1446-1457 | Removes exactly the account's transactions below the commit nonce. |
| PoolBatches.CleanBeforeCommitNonce | internal/txpool/txpoolImpl.go:1435-1460 | Removes exactly the account's transactions below the commit nonce from the store, and from the scheduler keeps exactly those from it on, but at commit nonce zero only the largest; later nonces are kept if and only if the commit nonce is not zero or only the largest is queued. |
| PoolBatches.CommitZeroEmptiesQueue | internal/txpool/txpoolImpl.go:1435-1460 | Cleaning at commit nonce zero removes a queued transaction. |
| PoolBatches.FillBatch | internal/txpool/txpoolImpl.go:1187-1256 | The batch holds stored, valid transactions, none batched before and none twice; exactly they become batched, and each account's batched nonces stay a run; an account reported invalid has a stored invalid transaction; a batch that is not full leaves nothing ready of the other accounts. |
| TxStores.TransactionStore.HandleGcAccountEvent | internal/txpool/txpoolImpl.go:735-754 | Collects exactly the accounts marked empty for long enough; no lookup by hash or by place changes. |
| MissingTxs.LookUp | internal/txpool/txpoolImpl.go:1695-1728 | Reports exactly the missing indices, or the transactions in list order, or a duplicate exactly when one is batched and not excused. |
| MissingTxs.SendMissing | internal/txpool/txpoolImpl.go:1897-1917 | Answers with the batch's transactions exactly when every hash is known and at its index in the batch. |
| MissingTxs.ValidateReceived | internal/txpool/txpoolImpl.go:1797-1815 | Accepts an answer exactly when it has the asked-for hash at every asked-for index. |
| MissingTxs.Pool.HandleGetRequestsByHashList | internal/txpool/txpoolImpl.go:1674-1759 | Answers from the batch cache, then from the remembered missing indices, then by looking up; a found batch is cached and its transactions are marked batched. |
| MissingTxs.Pool.HandleMissingTxs | internal/txpool/txpoolImpl.go:327-338 | Applies an accepted answer: the asked-for transactions at different places are all there, nothing else changed, and the indexes agree; a rejected one changes nothing. |
| MissingTxs.Exchange | internal/txpool/txpoolImpl.go:1674-1917 | A replica that asks the primary for what it lacks, applies the answer and looks again has the primary's transactions in the primary's order. |
| SyncPlans.ChunkFits | internal/sync/sync_manager.go:610-648 | A chunk has a size from one to the maximum, ends at or before the target, and a checkpoint it carries is that of its last height. |
| SyncPlans.PlanTiles | internal/sync/sync_manager.go:1322-1331 | The chunks cover the heights from start to target once and in order. |
| SyncPlans.EpochsCheckedIff | internal/sync/sync_manager.go:1322-1331 | Every epoch change below the target is checked by some chunk if and only if no epoch is longer than the maximum chunk. |
| SyncPlans.LongEpochIsNotChecked | internal/sync/sync_manager.go:610-648 | An epoch change 150 blocks ahead with chunks of 100 is never checked. |
| SyncPlans.FirstEpoch | internal/sync/common/types.go:207-211 | The chunk carries the next epoch's checkpoint exactly when that epoch is not longer than the maximum chunk. |
| SyncChains.ConfirmedIsChain | internal/sync/sync_manager.go:473-545 | Linked blocks that start behind a known block and end in a confirmed one have the chain's own headers at those heights, whatever heights they claim. |
| SyncChains.BodiesDecide | internal/sync/sync_manager.go:547-569 | Blocks with the chain's headers are the chain's if and only if every body's root is the one in its header. |
| SyncChains.ChainsExist | internal/sync/sync_manager.go:473-569 | There are chains that meet what is assumed of the network's. |
| SyncAccounts.SignalMeansFull | internal/sync/sync_manager.go:1165-1171 | When as many blocks are counted as the chunk is long, every height has its block and no invalid-block event is pending. |
| SyncAccounts.ArriveKeepsBalance | internal/sync/sync_manager.go:1138-1163 | A block that arrives for a waiting requester keeps received plus pending events equal to blocks held. |
| SyncAccounts.HandleKeepsBalance | internal/sync/sync_manager.go:1370-1413 | Handling an invalid-block event clears a held block and keeps the balance. |
| SyncAccounts.ReportKeepsBalanceIff | internal/sync/sync_manager.go:351-388 | Reporting a height as invalid keeps the balance if and only if a block is held there. |
| SyncAccounts.ForeignHeightUnbalances | internal/sync/sync_manager.go:381-388 | A reported header height outside the chunk breaks the balance. |
| SyncAccounts.StuckForever | internal/sync/sync_manager.go:196-256 | Once every height has its block, the count is short and no event is about a height of the chunk, no sequence of arrivals and events makes the chunk be processed. |
| SyncAccounts.HangsIff | internal/sync/sync_manager.go:376-389 | After a height is reported on a full chunk the sync hangs if and only if the height is not one of the chunk's. |
| SyncManagers.ValidateChunk | internal/sync/sync_manager.go:473-545 | On a full chunk it accepts exactly linked blocks with matching bodies, otherwise reports the first misfit, with its predecessor when it is unclear which is wrong; a height without block is reported only if there is one. |
| SyncManagers.TamperedBodyPasses | internal/sync/sync_manager.go:547-569 | A chain header over other transactions is a valid and confirmed chunk without body validation, and is refused with it. |
| SyncManagers.PostsTamperedBody | internal/sync/sync_manager.go:1246-1249 | A whole sync without body validation posts such a block and finishes. |
| SyncManagers.Collect | internal/sync/sync_manager.go:391-404 | Copies every received block to its index, in whatever order requesters come. |
| SyncManagers.TakeBlocks | internal/sync/sync_manager.go:391-417 | Collects the blocks and releases their requesters without a panic, leaving none. |
| SyncManagers.ReleaseAll | internal/sync/sync_manager.go:412-416 | Releasing by header height goes well if and only if every block names a requester and no two the same, and then removes exactly those. |
| SyncManagers.VerifyChunkCheckpoint | internal/sync/sync_manager.go:419-433 | Compares the checkpoint with the block at its height; the index is never out of range. |
| SyncManagers.SyncManager.constructor | internal/sync/sync_manager.go:578-608 | A sync starts valid, with nothing posted. |
| SyncManagers.SyncManager.MakeRequester | internal/sync/sync_manager.go:1295-1320 | Adds the requester of the next height of the chunk. |
| SyncManagers.SyncManager.AddCommitData | internal/sync/sync_manager.go:1138-1163 | Counts data a requester waits for and ignores other data; in balance it signals exactly when that fills the chunk and no invalid-block event is pending. |
| SyncManagers.SyncManager.HandleInvalidBlock | internal/sync/sync_manager.go:1370-1413 | Clears the block of the reported height; in balance its requester always exists, otherwise the event does nothing. |
| SyncManagers.SyncManager.ReportInvalid | internal/sync/sync_manager.go:351-365 | Counts the heights as not received and posts one event each, keeping the balance. |
| SyncManagers.SyncManager.ReportLast | internal/sync/sync_manager.go:376-389 | After the quorum rejects the last block, the bookkeeping stays balanced if and only if the height in its header is one of the chunk, and the sync hangs if and only if it is not. |
| SyncManagers.SyncManager.UpdateStatus | internal/sync/sync_manager.go:1322-1331 | Plans the next chunk and uses up one epoch change. |
| SyncManagers.SyncManager.PostChunk | internal/sync/sync_manager.go:391-467 | Posts a confirmed chunk that matches its checkpoint and finishes exactly at the target, otherwise advances; a mismatch ends the sync with nothing posted. |
| SyncManagers.SyncManager.ProcessChunkTask | internal/sync/sync_manager.go:341-467 | Retries exactly on an invalid chunk; otherwise posts the next part of the chain. All posted headers are the chain's from the start height, without gap or overlap, up to the target when finished; the posted blocks are the chain's if and only if every posted body matches, hence always with full validation; every checkpoint carried agrees with the posted block; the current height grows with each chunk; the error branches for missing requesters and blocks are unreachable. |
| CachedStorages.SummaryNext | internal/storagemgr/cached_storage.go:115-128 | The final value kept per key says what applying the whole batch does to any store. |
| CachedStorages.CachedStorage.Read | internal/storagemgr/cached_storage.go:59-71 | Answers what the store holds, whatever the cache forgot, and caches exactly a present value. |
| CachedStorages.BatchWrapper.Commit | internal/storagemgr/cached_storage.go:130-139 | Applies the batch in order and leaves the cache in line with the store. |
| ChainLedgers.IndexIsTrue | internal/ledger/chain_ledger.go:446-497 | Every index entry is true of the chain: a transaction is where its entry says, a block hash belongs to the block at its height. |
| ChainLedgers.KeysMean | internal/ledger/chain_ledger.go:446-497 | A transaction hash or block hash is indexed if and only if the chain has it. |
| ChainLedgers.RollbackRestoresIndexIff | internal/ledger/chain_ledger.go:510-577 | Removing the later blocks' keys gives the index of the shorter chain if and only if no block or transaction hash is shared. |
| ChainLedgers.RepeatedTxIsLost | internal/ledger/chain_ledger.go:510-532 | A transaction in two blocks is lost with the second one. |
| ChainLedgers.ChainLedger.GetBlock | internal/ledger/chain_ledger.go:129-225 | Answers the block of a height up to the head through caches that may have forgotten anything. |
| ChainLedgers.ChainLedger.GetTransaction | internal/ledger/chain_ledger.go:228-253 | Found if and only if some block has a transaction of that hash; the answer is such a transaction. |
| ChainLedgers.ChainLedger.GetTransactionMeta | internal/ledger/chain_ledger.go:269-281 | Found if and only if some block has a transaction of that hash; the entry's height, block hash and position are those of one. |
| ChainLedgers.ChainLedger.GetBlockNumberByHash | internal/ledger/chain_ledger.go:115-126 | Found if and only if some block has that hash, and then the height of one. |
| ChainLedgers.ChainLedger.BatchPersist | internal/ledger/chain_ledger.go:341-411 | Appends the blocks; store, caches and head are those of the longer chain, and the new blocks are cached. |
| ChainLedgers.ChainLedger.RollbackBlockChain | internal/ledger/chain_ledger.go:534-577 | Truncates to the height wherever the batch is committed on the way; all lookups are those of the shorter chain if and only if no hash is shared; rejects heights above the head. |
| TxRecords.UintOfPut | internal/txpool/tx_records.go:109-111 | Reading a written little-endian length gives the length. |
| TxRecords.PrefixHolds64Bits | internal/txpool/tx_records.go:121-186 | The eight-byte prefix holds any 64-bit length. |
| TxRecords.CutFileParses | internal/txpool/tx_records.go:188-213 | A file cut at any byte gives back exactly the records whose frames are complete. |
| TxRecords.CompleteMeans | internal/txpool/tx_records.go:188-213 | A record counts as complete if and only if everything up to its end is there. |
| TxRecords.FileParses | internal/txpool/tx_records.go:188-213 | An uncut file gives back all records in order. |
| TxRecords.GetAllTxRecords | internal/txpool/tx_records.go:188-213 | Reads exactly the records a file holds completely. |
| TxRecords.Load | internal/txpool/tx_records.go:45-99 | The batches together are the decodable records in order; all but the last are full and none is empty. |
| TxRecords.Rotate | internal/txpool/tx_records.go:121-186 | Reading the rewritten file back gives the bytes of exactly the local items that marshal, once each and in the order visited, however the writes are batched. |
| TxRecords.Records.Insert | internal/txpool/tx_records.go:101-119 | Appends one frame, or reports that no file is open. |
| Quorums.QuorumsIntersect | internal/consensus/common/config.go:179-189 | For every f with 3f + 1 <= n, any two quorums share more than f nodes and n - f nodes are enough for one. |
| Quorums.SharedCorrectNode | internal/consensus/common/config.go:179-189 | Whichever nodes are faulty, if 3 times their number plus one is at most n, two quorums share a correct one. |
| Quorums.QuorumIsLeast | internal/consensus/common/config.go:179-189 | The quorum is the least size such that what any two sets of it share is too many nodes to be all faulty. |
| Quorums.FaultyIsLargest | internal/consensus/common/config.go:182-182 | The f of the formula is the largest with 3f + 1 <= n. |
| Quorums.SmallQuorums | internal/consensus/common/config.go:179-189 | The quorum is 3 of 4 and 5 of 7, and 0 for the other consensus types. |

## Left out

- The Jellyfish Merkle trie, the EVM, axiom-bft, the btree, LRU, fastcache and block-file libraries: maps, ordered lists and caches that may forget stand for them.
- Network pipes, timers, contexts, retries, logging, metrics, configuration and file-system errors.
- Peers in block sync: who is asked, timeouts and error messages, which only ask again and change neither blocks nor counters.
- Trie snapshots, proofs, history ranges and the trie preloader and indexer.
- Account getters and setters that only wrap one of the modelled steps (AddBalance, GetCode, Exist, Empty and the like).
- Code(): the debug message slices the first four bytes and panics on shorter code.
- EvmStateDBAdaptor.Prepare, which replaces access list and transient storage without journaling.
- Handles to account objects kept across a revert: accounts are values in the ledger's map, so aliasing is not modelled.
- Per-account lists of the pool store are values in its map, so aliasing is not modelled; its time-ordered and parking-lot indexes and its size counters, which the code lets drift, are left out.
- BatchByTime.PopExecutableTxsByTime: for a whole walk the condition on the two ends of the nonces is sufficient; for one entry it is exact.
- PoolBatches.FillBatch: the same condition, and batched nonces that are runs, are required.
- TxStores.TransactionStore.ReplaceTx: the time, parking-lot and lifetime indexes are left out.
- TxStores.TransactionStore.CleanTxsByAccount: the other indexes and the parking-lot counter are left out.
- TxStores.TransactionStore.HandleGcAccountEvent: dropping the account's cached nonces is left out.
- MissingTxs.Pool.HandleGetRequestsByHashList: local flags and the non-batch counter are left out.
- MissingTxs.Pool.HandleMissingTxs: an answer whose hash the pool knows at another place is excluded; what one such insertion does is stated by TransactionStore.ReplaceTx.
- Pruner.PruneCache.AddNewDiff: the root-hash entries of the same loop are left out.
- Pruner.PruneCache.Update: heights come one after the other.
- ChainLedgers.ChainLedger.BatchPersist: blocks come with consecutive numbers.
- SyncManagers.SyncManager.constructor: epoch changes behind the start height are excluded.
- Receipts in snapshot sync and a block's extra data, which nothing validates.
- SnapshotStore.Snapshot.Update: heights come one after the other; the source writes whatever height it is given.
- Recovery at start-up (checkChainMeta), the indexer, system contracts, JSON-RPC and the command line.
- Concurrent interleavings inside one handler: event handlers and the goroutines of cleanTxsByAccount run one after the other.
