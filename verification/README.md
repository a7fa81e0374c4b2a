# Verified model of the UTXO indexer

The indexer keeps the unspent transaction outputs of a block chain in a key-value
store, answers which of them pay an address, follows the chain block by block, and
starts from a snapshot of a node's chainstate. The files here model its four parts
that are hard to get right and prove what they are for.

**The store and its undo checkpoint.** `Ledger` is the plain rule: transactions add
outputs and remove the ones they spend. `Spending` says what spending does to sparse
lists and to the address counters, `Spender` is the imperative code over arrays and
nested maps, proved to compute that. `Database` has the commit of a checkpoint and its
rollback as functions on the whole database and as single writes. `Protocol` is the
machine of saves, transactions, removals, crashes between any two writes and restarts;
its theorems are about all its runs. `Consistency` has the check that a restart makes,
the address lookup and the staging of a transaction. `Refusals` says which blocks are
refused and what the others are made into, `Recovery` when that check can decide,
`Staleness` which index pairs nothing pays, and `Witnesses` has concrete chains on which
the rarer behaviours occur. `UtxoStore` is the store object: every write may fail, succeed,
or succeed and be reported as failed, unless the storage is a reliable one, and each method
leaves a legal run of the machine behind, so that the theorems hold at each of its exits.

**The downloader.** `Downloader` interleaves the header goroutine, the dispatcher, the
workers and the consumer step by step, and proves order, absence of loss and of
deadlock, and termination of every schedule; `Sequencer` is the code inside the mutex,
tied to the steps of that machine.

**The migrator.** `Migration` groups the record stream, batches it, and resumes by
probing; the result is tied to the snapshot and to what `Protocol` needs of a base.

**The codecs.** `Vlq`, `Amount`, `Script` and `TxOutCodec` have the number, amount,
script and output formats over byte arrays with 64-bit wrap-around; `BinaryUtils` has
the byte reader and the second number decoder; `Records` reads coins and records of
the chainstate.

## Assumptions

- Blocks are valid by the rule and use new transaction ids (BIP 30); the chain is fixed.
- An output's addresses travel with the output, so they are any function of its script.
- A transaction of the database takes effect whole or not at all, with an outcome that
  may be misreported. `Protocol` also covers torn transactions, in which each touched
  key holds its old or its new value; `atomic` in its `Env` chooses.
- The checkpoint file is one cell that changes at once.
- A public key is parsed by an unknown function of which only section 2.3.4 of SEC 1 is
  assumed: a key with both coordinates is recovered from the first one and a parity.

## What the code does that its comments do not say

- The index is a superset: pairs of outputs created and spent in one block stay in it.
  `Staleness.StaleExactly` says which, and `Database.LookupIsFullScan` that no answer changes.
- After a rollback the store refuses everything until the next process is started
  (`UtxoStore.Store.CheckConsistencyAndTryToFix`).
- A store without a block hash and with a leftover checkpoint fails its check at every
  start. So does one whose hash, height and references are new and which lacks live new
  entries and differs in nothing else; if it differs in another entry too, the order in
  which a map is walked decides between failing and rolling back
  (`Consistency.IsConsistenceWithCheckpoint`). It takes a torn transaction to get there
  (`Recovery.WholeStateDecides`, `Recovery.AtomicDecides`), and one does
  (`Witnesses.GivesUpOccurs`).
- A block that names a stored output already spent stops the program while it reads the
  output's addresses (`Database.Build`, outcome `NilOutput`); valid blocks never do
  (`Database.ValidNoTrouble`).
- An empty script at the very end of the input is refused by the chainstate reader and
  accepted anywhere else (`Records.CoinRoundTrip`).
- A compressed output cut after a script-size byte 0x85 decodes as one with an empty
  script (`TxOutCodec.Truncated`).
- Amounts whose compressed form exceeds 64 bits do not come back; these are the ones that
  do not end in zero and are larger than about a ninth of the largest word
  (`Amount.LosslessExactly`).
- The amount 50000000 compresses to 48; a comment gives 47 (`Amount.CodeExamples`).

## Model

| member | source | states |
|---|---|---|
| `Protocol.RunKeeps` | internal/pkg/utxo/utxostore/utxostore.go:70-176 | In every state of every run of save, transaction, removal, crash, restart and single rollback writes, the database is the chain state at the number of transactions that took effect, with at most the checkpoint of a neighbouring block left over, or a partial rollback of it. |
| `Protocol.StepKeeps` | internal/pkg/utxo/utxostore/utxostore.go:676-783 | One step of any kind keeps that invariant: at the next height when a transaction takes effect (reported or not), at the same height otherwise. |
| `Protocol.CrashSafety` | internal/pkg/utxo/utxostore/utxostore.go:70-176 | After any run the database is exactly the chain state at the height applied, or completing the saved rollback makes it so. |
| `Protocol.AtomicCrashSafety` | internal/pkg/utxo/utxostore/utxostore.go:725-775 | When transactions are atomic the database is a chain state at every instant of every run, even between rollback writes. |
| `Protocol.AppliesInOrder` | internal/pkg/utxo/utxospending/utxospending.go:41-64 | Whatever is redelivered, retried or restarted, a transaction that takes effect is that of the next block of the chain, and leads from its parent's chain state to its own: every height once, in order. |
| `Protocol.ServingStateAnswersByTheRule` | internal/pkg/utxo/utxostore/utxostore.go:389-481 | Whenever the store serves, its unspent outputs are those the plain UTXO rule gives at its height, and an index lookup equals a full scan of them. |
| `Protocol.StoredValueConserved` | internal/pkg/utxo/utxostore/utxostore.go:710-783 | Total stored amount at any height = the base total + all spendable outputs created - all outputs spent up to that height. |
| `Protocol.OnlyNextBlockBuilds` | internal/pkg/utxo/utxospending/utxospending.go:41-64 | At height n a chain block yields a checkpoint if and only if it is the next one; the last stored one yields the no-difference error. |
| `Protocol.StateRepresents` | internal/pkg/utxo/utxospending/utxospending.go:35-113 | At every height of a fixed chain of valid blocks the stored state represents the coins of the rule. |
| `Protocol.CheckpointFacts` | internal/pkg/utxo/utxospending/utxospending.go:105-112 | The checkpoint of the next block describes the current state, commits to the next one, keeps new and dropped references apart, and never has the current hash as its new one. |
| `Protocol.RollbackWriteKeeps` | internal/pkg/utxo/utxostore/utxostore.go:130-173 | Any single rollback write keeps the completed rollback unchanged. |
| `Protocol.StartKeeps` | internal/pkg/utxo/utxostore/utxostore.go:70-112 | Accepting a leftover checkpoint only when it is fully applied, and starting a rollback otherwise, keeps the invariant. |
| `Database.RollbackExactIff` | internal/pkg/utxo/utxostore/utxostore.go:123-176 | Rolling back a commit restores the database, index included, if and only if the checkpoint's before-image, references and previous block are right for it. |
| `Database.CommitAbsorbsRollback` | internal/pkg/utxo/utxostore/utxostore.go:123-176 | Committing after a rollback gives what committing alone gives. |
| `Database.PartialRollback` | internal/pkg/utxo/utxostore/utxostore.go:123-176 | Stopping after any of the rollback's writes, in any order, leaves the result of completing it unchanged. |
| `Database.CompleteRollback` | internal/pkg/utxo/utxostore/utxostore.go:123-176 | A complete set of rollback writes, in any order and with any repetition, equals the down migration. |
| `Database.MixedRollsBack` | internal/pkg/utxo/utxostore/utxostore.go:123-176 | From any state in which each touched key and index pair holds its old or new value, the rollback gives exactly the old database. |
| `Database.SettledIsRolledBack` | internal/pkg/utxo/utxostore/utxostore.go:123-176 | A database in which every write of the rollback has settled is its own rollback. |
| `Database.BuildSucceeds` | internal/pkg/utxo/utxospending/utxospending.go:35-113 | For a valid next block over a store that represents the rule's coins a checkpoint is built, and it describes that store. |
| `Database.CommitRepresents` | internal/pkg/utxo/utxostore/utxostore.go:725-775 | Committing that checkpoint leaves a store that represents the coins after the block, drops fully spent entries, and covers every paid address in the index. |
| `Database.CommitCovers` | internal/pkg/utxo/utxostore/utxostore.go:760-772 | After a commit every address of every unspent output references its transaction. |
| `Staleness.StaleExactly` | internal/pkg/utxo/utxostore/utxostore.go:760-772 | The stale index pairs after the commit of a valid block are the old ones and, disjoint from them, exactly the pairs of the block's transactions all of whose outputs paying that address an input of the block names. |
| `Staleness.AddsNoneExactly` | internal/pkg/utxo/utxostore/utxostore.go:760-772 | A commit adds no stale pair if and only if each address that a transaction of the block pays is paid by an output of it that the block does not spend. |
| `Staleness.StillPays` | internal/pkg/utxo/utxospending/utxospending.go:157-208 | After a valid block a transaction of it pays an address if and only if some spendable output of it that does is named by no input of the block. |
| `Witnesses.StaleOccurs` | internal/pkg/utxo/utxospending/utxospending.go:120-145 | A valid block that spends what it creates, and a pair it leaves stale. |
| `Database.CommitIdempotent` | internal/pkg/utxo/utxostore/utxostore.go:178-248 | A committed checkpoint, replayed, changes nothing: the state after a commit is always accepted. |
| `Database.LookupIsFullScan` | internal/pkg/utxo/utxostore/utxostore.go:397-481 | Over any store that represents a set of coins the index lookup equals the full scan, whatever stale pairs there are. |
| `Ledger.CreatedSurvives` | internal/pkg/utxo/utxospending/utxospending.go:157-208 | An output that a valid block creates is left after it if and only if no input of the block names it. |
| `Ledger.ValueConserved` | internal/pkg/utxo/utxospending/utxospending.go:157-208 | Over the transactions of a valid block the rule conserves value: total after + spent = total before + created. |
| `Spending.SpendTxsRefinesRule` | internal/pkg/utxo/utxospending/utxospending.go:157-208 | Spending on sparse lists refines the plain rule: the unspent outputs of the stored entries overlaid with the result are those of folding "add spendable outputs, remove inputs". |
| `Spending.DropSpentKeepsUnspent` | internal/pkg/utxo/utxostore/utxostore.go:744-758 | Dropping fully spent entries changes no unspent output. |
| `Spending.ValidTxsSucceed` | internal/pkg/utxo/utxospending/utxospending.go:335-366 | A valid block is never refused: all its inputs resolve and the spending loop succeeds on every before-image that covers what the block touches. |
| `Spending.SpendTxsKeys` | internal/pkg/utxo/utxospending/utxospending.go:157-208 | The result of spending has exactly the before-image's transactions and the block's. |
| `Spending.DereferenceExact` | internal/pkg/utxo/utxospending/utxospending.go:247-333 | A pair is dropped if and only if some output of that stored transaction paid the address before the block and none does after it. |
| `Spending.BlockCount` | internal/pkg/utxo/utxospending/utxospending.go:276-333 | For every address and stored transaction, the live outputs naming it after the block and those the block spends add up to the live ones before. |
| `Spender.GetAllSpendableOutputs` | internal/pkg/utxo/utxospending/utxospending.go:210-245 | The sparse list of a transaction's outputs: each spendable one at its own index, nothing at the others. |
| `Spender.SpendInPlace` | internal/pkg/utxo/utxospending/utxospending.go:175-195 | Sets one output of one list to nothing and leaves every other list as it was. |
| `Spender.SpendAllOutputs` | internal/pkg/utxo/utxospending/utxospending.go:157-208 | In place on copied lists, it computes the specified spending, fails exactly when that does, and leaves the before-image unchanged. |
| `Spender.ExtractSpendingOutputsFromBlock` | internal/pkg/utxo/utxospending/utxospending.go:335-366 | Reads exactly the stored entries the block's inputs touch, or fails exactly when an input resolves to nothing. |
| `Spender.CountAddressOutputs` | internal/pkg/utxo/utxospending/utxospending.go:247-274 | The nested counters equal, for each address and transaction, the number of times its live outputs name the address. |
| `Spender.DerefAddresses` | internal/pkg/utxo/utxospending/utxospending.go:276-333 | For every block, valid or not: decrementing the counters and collecting zeroes yields the pairs whose count the inputs of the block use up, or else the first trouble in the order of the inputs, an output that is not there or one already spent. |
| `Spender.ExtractAddressReferencesFromOutputs` | internal/pkg/utxo/utxospending/utxospending.go:115-155 | The references of every address paid by a spendable output of the block, in-block spends included. |
| `Database.ValidNoTrouble` | internal/pkg/utxo/utxospending/utxospending.go:276-321 | A valid block names no stored output that is missing or already spent, so the counters never go wrong. |
| `Spender.NewCheckpointFromNextBlock` | internal/pkg/utxo/utxospending/utxospending.go:35-113 | For every database and block, valid or not, the imperative builder returns the specified checkpoint or the specified reason for refusing; on an empty store the checkpoint without a previous block and with four empty maps, and no difference or too far by the heights alone otherwise. |
| `Refusals.FirstBlock` | internal/pkg/utxo/utxospending/utxospending.go:71-79 | On a store without a block any block yields the checkpoint with no previous block, its height and hash, and empty maps; committing it stores that hash and height and changes no entry and no reference. |
| `Refusals.RefusedExactly` | internal/pkg/utxo/utxospending/utxospending.go:41-97 | On a store with a block each reason to refuse is given if and only if, in this order: the height is the stored one; it is neither that nor the next; an input names neither a stored transaction nor one of the block up to its own; an input names a stored output already spent, and none before it one that is not there; an input names an output that a stored transaction or one of the block does not have. Any other block is accepted. |
| `Refusals.BuiltExactly` | internal/pkg/utxo/utxospending/utxospending.go:81-113 | An accepted block's checkpoint names the stored block and the new one; its before-image is what is stored of the transactions that inputs name, its new entries are those and the block's, and its references are those of every address paid by a spendable output of the block. |
| `Refusals.UpdatedExactly` | internal/pkg/utxo/utxospending/utxospending.go:157-208 | Each output of the new entries is in its place, unless an input of the block names it or it is not spendable, under the height it was created at. |
| `Refusals.DroppedExactly` | internal/pkg/utxo/utxospending/utxospending.go:247-333 | The references that the checkpoint of a valid block drops are exactly those of outputs that paid the address before, when none is left that does. |
| `Consistency.IsAllSpent` | internal/pkg/utxo/utxostore/utxostore.go:250-258 | True if and only if no output of the list is left. |
| `Consistency.IsConsistenceWithCheckpoint` | internal/pkg/utxo/utxostore/utxostore.go:178-248 | Answers yes if and only if replaying the checkpoint would leave the database unchanged; gives up for want of a block hash if and only if there is none; may give up on a missing live entry only if hash, height and references are the new ones, and must if besides such entries nothing differs. |
| `Recovery.AtomicDecides` | internal/pkg/utxo/utxostore/utxostore.go:94-112 | With atomic transactions the check never gives up, in any run: there is a block hash, and a leftover checkpoint is applied or has another hash as its new one. |
| `Recovery.WholeStateDecides` | internal/pkg/utxo/utxostore/utxostore.go:94-112 | The same whenever the database is a chain state, so only a torn transaction or a partial rollback of one can keep a restart from deciding. |
| `Recovery.TornGivesUp` | internal/pkg/utxo/utxostore/utxostore.go:236-239 | Any transaction torn just before a new live entry leaves a database on which the check must give up. |
| `Witnesses.GivesUpOccurs` | internal/pkg/utxo/utxostore/utxostore.go:94-97 | A concrete run of a process that starts, saves, tears its transaction and dies, after which the check must give up. |
| `Consistency.GetUnspentOutputsByAddress` | internal/pkg/utxo/utxostore/utxostore.go:397-481 | Returns each live output paying the address exactly once, with its id, index and height, and nothing else. |
| `Consistency.StageCommit` | internal/pkg/utxo/utxostore/utxostore.go:734-774 | The commands staged in one transaction amount to the commit of the checkpoint. |
| `UtxoStore.Storage.Write` | internal/pkg/utxo/utxostore/utxostore.go:335-387 | A write takes effect, or fails without effect, or fails after taking effect. |
| `UtxoStore.Storage.SaveCheckpoint` | internal/pkg/utxo/checkpointstore/checkpointsstore.go:42-54 | The cell holds the checkpoint, or on a reported failure the old or the new one. |
| `UtxoStore.Storage.RemoveLatestCheckpoint` | internal/pkg/utxo/checkpointstore/checkpointsstore.go:56-63 | The cell is empty, or on a reported failure empty or unchanged. |
| `UtxoStore.Store.DownCheckpoint` | internal/pkg/utxo/utxostore/utxostore.go:123-176 | The write-by-write rollback loop, when all writes succeed, leaves exactly the down migration of the database it found; when it stops, a partial rollback that a restart completes. |
| `UtxoStore.Store.CheckConsistencyAndTryToFix` | internal/pkg/utxo/utxostore/utxostore.go:70-121 | Succeeds when no write fails and the check decides, as it always does with atomic transactions or without a checkpoint; then no checkpoint is left and the database is the chain state at the height applied: unchanged and serving if the checkpoint was fully applied or there was none, its exact rollback and still refusing if not. Without a failed write it fails exactly when the check gives up, and then changes nothing. |
| `UtxoStore.Store.New` | internal/pkg/utxo/utxostore/utxostore.go:43-68 | Starting the program: with atomic transactions and no failed write it succeeds and leaves no checkpoint, serving if the checkpoint was fully applied or there was none, after its exact rollback and still refusing if not; a start that finds no checkpoint serves. |
| `UtxoStore.Store.SpendOutputsWithNewBlockInfo` | internal/pkg/utxo/utxostore/utxostore.go:710-783 | The database becomes the commit of the checkpoint or stays as it was; a reported failure stops the store whichever it was. |
| `UtxoStore.Store.CommitCheckpoint` | internal/pkg/utxo/utxostore/utxostore.go:676-708 | For each way out, what it leaves in the database, in the checkpoint cell and in the consistency flag. |
| `UtxoStore.Store.AddFromBlock` | internal/pkg/utxo/service/service.go:112-130 | A chain block is applied at most once, and only as the next one; success and the already-stored error both mean that it is stored. Offered the next one, a serving store fails only together with a write, and always succeeds over a storage that does not fail. It goes on serving if and only if the block's transaction does not fail. |
| `UtxoStore.Store.GetUnspentOutputsByAddress` | internal/pkg/utxo/utxostore/utxostore.go:389-395 | Refused exactly when the store does not serve; otherwise a full scan of the rule's coins at the store's height. |
| `UtxoStore.Store.Start` | internal/pkg/blockchainscanner/scanner/scanner.go:43-89 | Blocks delivered in chain order are handled one after the other, each until it is stored; the height applied never falls and ends at the last block handled. A store that goes on serving, as it does while no write fails, handles them all within one try a block and one a failed write. |
| `UtxoStore.Store.constructor` | internal/pkg/utxo/utxostore/utxostore.go:43-68 | A new process over existing storage changes nothing in it and does not serve yet. |
| `UtxoStore.RunFacts` | internal/pkg/utxo/utxostore/utxostore.go:70-121 | What every run establishes about the state a process finds. |
| `Downloader.DeliveredInOrder` | internal/pkg/bitcoinblocksiterator/iterator.go:68-167 | In every state of every schedule the blocks sent are exactly those from the start to before the expected height, in order, without gap or duplicate, and downloads in flight stay within the limit. |
| `Downloader.NothingHeldBack` | internal/pkg/bitcoinblocksiterator/iterator.go:124-160 | With no download in flight and the mutex free the reorder buffer is empty and every dispatched block has been sent. |
| `Downloader.SomeStepEnabled` | internal/pkg/bitcoinblocksiterator/iterator.go:97-163 | No deadlock: until everything is received and every permit is back some step is enabled. |
| `Downloader.StepIsProgress` | internal/pkg/bitcoinblocksiterator/iterator.go:97-163 | Every step of every goroutine lowers the work that is left. |
| `Downloader.EveryScheduleDelivers` | internal/pkg/bitcoinblocksiterator/iterator.go:68-206 | Every schedule takes at most twelve steps a block, and one that stops only when nothing is enabled has delivered every block in order and returned every permit. |
| `Downloader.StepKeeps` | internal/pkg/bitcoinblocksiterator/iterator.go:97-163 | Every interleaved step keeps each dispatched and unsent height in exactly one place. |
| `Downloader.PermitsKeep` | internal/pkg/semaphore/semaphore.go:13-19 | Acquire and release keep the permits within the limit and equal to the workers that hold one. |
| `Downloader.Sequencer.Deliver` | internal/pkg/bitcoinblocksiterator/iterator.go:142-160 | Inside the mutex, storing a block and draining sends everything that is next in order, loses no height, and leaves nothing in the buffer that could be sent; it is a schedule of the machine in which the worker stores, takes one turn of send, delete and advance for each block sent, and unlocks, while the consumer only receives. |
| `Downloader.Sequencer.SendNext` | internal/pkg/bitcoinblocksiterator/iterator.go:145-160 | One turn of the draining loop sends the expected block and takes it out of the buffer, which becomes smaller. |
| `Migration.PushElementToPlace` | internal/pkg/chainstatemigration/migration.go:310-329 | Writes in place when the index fits, else extends with nothing up to it; fails exactly on a negative index, without effect. |
| `Migration.GroupingExact` | internal/pkg/chainstatemigration/migration.go:126-193 | For a stream contiguous by transaction, each transaction has exactly one list, with every record at its index, nothing elsewhere, and a last element that is there. |
| `Migration.GroupsGrow` | internal/pkg/chainstatemigration/migration.go:140-160 | Later records leave every list but the last as it is. |
| `Migration.ConvertUTXOlistToTransactionOutputList` | internal/pkg/chainstatemigration/migration.go:275-294 | The stored list has each record's output in its place and nothing at the empty ones. |
| `Migration.CloseGroup` | internal/pkg/chainstatemigration/migration.go:141-149 | A closed list is stored under its transaction with the height of its last record, each output in its place. |
| `Migration.Target.CreateAddressUTXOTxIdIndex` | internal/pkg/utxo/utxostore/utxostore.go:914-940 | Adds exactly the references of the transaction's live outputs. |
| `Migration.Target.AddTransactionOutputsBatch` | internal/pkg/utxo/utxostore/utxostore.go:856-901 | Stores a whole batch with its references or nothing, whatever is reported. |
| `Migration.BatchExtendsPrefix` | internal/pkg/chainstatemigration/migration.go:256-273 | Storing a batch that starts within the stored prefix leaves a prefix, with exactly its references. |
| `Migration.ProbeTells` | internal/pkg/chainstatemigration/migration.go:230-251 | Over a stored prefix, a transaction is found if and only if the prefix reaches past it. |
| `Migration.Migrator.StoreUTXOBatch` | internal/pkg/chainstatemigration/migration.go:220-254 | Skips a batch only when all of it is stored; otherwise the stored prefix reaches its end or is no shorter than before. |
| `Migration.Migrator.Migrate` | internal/pkg/chainstatemigration/migration.go:99-218 | From any stored prefix and for any batch size, success leaves exactly the entries, index, hash and height of an uninterrupted migration, each transaction handed over once in batches within the size. With no failed request the outcome is determined: a negative index among the records read, else an interruption if and only if the stream breaks off, else success. Stopping anywhere leaves a prefix no shorter than before, and an interruption less than a batch behind what was read; hash and height are written only over everything. |
| `Migration.MigratedIsSnapshot` | internal/pkg/chainstatemigration/migration.go:99-218 | The unspent outputs of a migrated store are exactly those of the snapshot. |
| `Migration.MigratedStoreServes` | internal/pkg/chainstatemigration/migration.go:195-217 | A migrated store represents the snapshot's coins and has no stale reference, so the block protocol can start from it. |
| `Vlq.ReadsEnc` | internal/pkg/bitcoincore/bitcoincorecompression/compression.go:95-108 | Reading an encoding followed by anything gives back every 64-bit number and stops exactly after it. |
| `Vlq.ReadsComplete` | internal/pkg/bitcoincore/bitcoincorecompression/compression.go:95-108 | A complete encoding is read without loss if and only if its number fits in 64 bits. |
| `Vlq.Canonical` | internal/pkg/bitcoincore/bitcoincorecompression/compression.go:14-49 | Every complete encoding is the encoding of the number it denotes, and different ones denote different numbers. |
| `Vlq.PrefixFree` | internal/pkg/bitcoincore/bitcoincorecompression/compression.go:14-49 | No encoding is the beginning of another. |
| `Vlq.EncLength` | internal/pkg/bitcoincore/bitcoincorecompression/compression.go:24-27 | A number takes at most k bytes if and only if it is below 128 + 128^2 + ... + 128^k. |
| `Vlq.EncAtMostTen` | internal/pkg/bitcoincore/bitcoincorecompression/compression.go:44-44 | A 64-bit number takes at most ten bytes; the largest takes ten. |
| `Vlq.EncStep` | internal/pkg/bitcoincore/bitcoincorecompression/compression.go:14-34 | The code byte by byte: a number below 128 is its own byte; 128 times one more than m, plus d below 128, is the encoding of m with the high bit of its last byte set, and then d. |
| `Vlq.Examples` | internal/pkg/bitcoincore/bitcoincorecompression/compression.go:32-43 | The documented encodings from 0 to 270549119. |
| `Vlq.LargestEncoding` | internal/pkg/bitcoincore/bitcoincorecompression/compression.go:44-44 | The documented encoding of the largest 64-bit number. |
| `Vlq.ReadsTruncated` | internal/pkg/bitcoincore/bitcoincorecompression/compression.go:95-108 | An input that ends within a number is read to its end, as one more than the number it would be if its last byte ended it, in 64 bits. |
| `Vlq.ShiftIn` | internal/pkg/bitcoincore/bitcoincorecompression/compression.go:100-104 | Shifting seven bits in with 64-bit wrap-around is the unbounded sum reduced. |
| `Vlq.SerializeSizeVLQ` | internal/pkg/bitcoincore/bitcoincorecompression/compression.go:54-61 | The size loop returns the length of the encoding. |
| `Vlq.PutVLQ` | internal/pkg/bitcoincore/bitcoincorecompression/compression.go:68-90 | The in-place writer puts exactly the encoding at its place, turns the groups around, and leaves every other byte as it was. |
| `Vlq.ReverseBetween` | internal/pkg/bitcoincore/bitcoincorecompression/compression.go:84-87 | Reverses one stretch of an array in place and leaves the rest. |
| `Vlq.DeserializeVLQ` | internal/pkg/bitcoincore/bitcoincorecompression/compression.go:95-108 | The slice reader returns, on every input, truncated or overlong ones included, the value and size that the stream reader returns. |
| `BinaryUtils.DeserializeVLQ` | internal/pkg/binaryutils/utils.go:11-33 | The stream reader returns the same value and size as the slice reader on every input, and stops exactly after them. |
| `BinaryUtils.ReverseBytesWithCopy` | internal/pkg/binaryutils/utils.go:35-42 | Returns the input turned around. |
| `Amount.DecompressCompress` | internal/pkg/bitcoincore/utxocompression/compress.go:110-175 | Decompression undoes compression on every natural number. |
| `Amount.CompressDecompress` | internal/pkg/bitcoincore/utxocompression/compress.go:110-175 | Compression undoes decompression on every natural number, so both are bijections. |
| `Amount.CompressAtMostNinefold` | internal/pkg/bitcoincore/utxocompression/compress.go:110-135 | Compressing never makes an amount more than nine times as large. |
| `Amount.LosslessExactly` | internal/pkg/bitcoincore/utxocompression/compress.go:110-175 | The 64-bit code gives a word back if and only if its compressed form fits in 64 bits, which is if and only if it ends in zero or nine times it, plus its last digit, less nine, does. |
| `Amount.LostWhenTooLarge` | internal/pkg/bitcoincore/utxocompression/compress.go:110-175 | Every amount whose compressed form does not fit comes back as another. |
| `Amount.TooLargeIsLost` | internal/pkg/bitcoincore/utxocompression/compress.go:110-175 | Instances: nine, which compressing makes nine times as large, and the largest word, which does not come back. |
| `Amount.CodeOf` | internal/pkg/bitcoincore/bitcoincorecompression/compression.go:438-449 | The code of every amount n times a power of ten e up to the ninth, n not ending in zero when e is below nine: 1 + 10(9 floor(n/10) + n mod 10 - 1) + e, or 10 + 10(n - 1) when e is nine; and that code decompresses to the amount. |
| `Amount.CodeExamples` | internal/pkg/bitcoincore/bitcoincorecompression/compression.go:451-460 | The documented examples, but for 50000000, which is 48 and not 47. |
| `Amount.CompressTxOutAmount` | internal/pkg/bitcoincore/utxocompression/compress.go:110-135 | The loop computes the compression reduced modulo 2^64. |
| `Amount.DecompressTxOutAmount` | internal/pkg/bitcoincore/utxocompression/compress.go:140-175 | The loop computes the decompression reduced modulo 2^64. |
| `Script.ScriptRoundTrip` | internal/pkg/bitcoincore/bitcoincorecompression/compression.go:301-423 | Given the law of section 2.3.4 of SEC 1, decompression undoes compression on every script, whatever follows it, and the declared size is exact. |
| `Script.KeyRoundTrip` | internal/pkg/bitcoincore/bitcoincorecompression/compression.go:317-331 | The same for pay-to-pubkey scripts: the parity in the type byte and the first coordinate restore an uncompressed key. |
| `Script.HashForms` | internal/pkg/bitcoincore/bitcoincorecompression/compression.go:303-314 | For every 20-byte hash h: 76 a9 14 h 88 ac is compressed to 00 h, and a9 14 h 87 to 01 h. |
| `Script.CompressedKeyForm` | internal/pkg/bitcoincore/bitcoincorecompression/compression.go:317-323 | For a valid key of type t, 2 or 3, and coordinate x: 21 t x ac is compressed to t x. |
| `Script.UncompressedKeyForm` | internal/pkg/bitcoincore/bitcoincorecompression/compression.go:324-329 | For a valid key of coordinates x and y: 41 04 x y ac is compressed to 4 or 5, by the parity of y, and x. |
| `Script.GeneralForm` | internal/pkg/bitcoincore/bitcoincorecompression/compression.go:333-339 | A script of none of these five forms, an invalid key included, is compressed to its length plus six and itself. |
| `Script.HashesRead` | internal/pkg/bitcoincore/bitcoincorecompression/compression.go:362-382 | Whatever follows, 00 h is read as 76 a9 14 h 88 ac and 01 h as a9 14 h 87, and each declares 21 bytes. |
| `Script.CompressedKeyRead` | internal/pkg/bitcoincore/bitcoincorecompression/compression.go:384-392 | Whatever follows, t x with t 2 or 3 is read as 21 t x ac and declares 33 bytes. |
| `Script.UncompressedKeyRead` | internal/pkg/bitcoincore/bitcoincorecompression/compression.go:394-413 | Whatever follows, t x with t 4 or 5 is read as 41 k ac for the key k that t - 2 and x stand for, as the empty script if they stand for none, and declares 33 bytes. |
| `Script.CutKeyRead` | internal/pkg/bitcoincore/bitcoincorecompression/compression.go:401-407 | A coordinate that the input cuts short is filled up with zeroes. |
| `Script.DeclaredSizes` | internal/pkg/bitcoincore/bitcoincorecompression/compression.go:273-294 | For every type t: nothing declares 0, t up to 1 declares 21, up to 5 declares 33, and above that t - 6 and the length of t, less 2^64 from 2^63 on. |
| `Script.CompressedScriptSize` | internal/pkg/bitcoincore/bitcoincorecompression/compression.go:246-267 | The size function returns the length of the compressed script. |
| `Script.DecodeCompressedScriptSize` | internal/pkg/bitcoincore/bitcoincorecompression/compression.go:273-294 | Returns the declared size, 64-bit wrap-around and the signed conversion included. |
| `Script.PutCompressedScript` | internal/pkg/bitcoincore/bitcoincorecompression/compression.go:301-340 | Writes exactly the compressed script at its place, leaves every other byte, and returns its length. |
| `Script.DecompressScript` | internal/pkg/bitcoincore/bitcoincorecompression/compression.go:349-423 | The array-building decompressor computes the specified script. |
| `Script.FitsBuffer` | internal/pkg/utxo/utxostore/types.go:51-56 | The buffer of sixteen extra bytes is always large enough. |
| `TxOutCodec.TxOutRoundTrip` | internal/pkg/bitcoincore/bitcoincorecompression/compression.go:558-588 | Decoding an encoding followed by anything returns the script and the exact byte count, and the amount if and only if its compressed form fits. |
| `TxOutCodec.ParsedIs` | internal/pkg/bitcoincore/bitcoincorecompression/compression.go:567-588 | A coded amount a and any bytes that read as a script are decoded as the amount a stands for, that script, and the number of bytes of both. |
| `TxOutCodec.Truncated` | internal/pkg/bitcoincore/bitcoincorecompression/compression.go:567-582 | A proper beginning of an encoding is refused with the error of the place where it stops, if and only if it is not cut just after a first script-size byte 0x85; that cut reads as an empty script. |
| `TxOutCodec.TruncationOccurs` | internal/pkg/bitcoincore/bitcoincorecompression/compression.go:567-582 | The cut occurs: the script of 762 zeroes. |
| `TxOutCodec.CompressedTxOutSize` | internal/pkg/bitcoincore/bitcoincorecompression/compression.go:548-551 | Returns the length of the encoding. |
| `TxOutCodec.PutCompressedTxOut` | internal/pkg/bitcoincore/bitcoincorecompression/compression.go:558-562 | Writes exactly the encoding at its place and leaves every other byte. |
| `TxOutCodec.DecodeCompressedTxOut` | internal/pkg/bitcoincore/bitcoincorecompression/compression.go:567-588 | Computes the specified result on every input, each error included. |
| `TxOutCodec.TransactionOutput.SetAmount` | internal/pkg/utxo/utxostore/types.go:27-29 | What is set is what is got if and only if the compressed form fits in 64 bits. |
| `TxOutCodec.TransactionOutput.GetAmount` | internal/pkg/utxo/utxostore/types.go:31-33 | Returns the amount the stored word stands for. |
| `TxOutCodec.TransactionOutput.GetScriptBytes` | internal/pkg/utxo/utxostore/types.go:47-49 | Returns the script the stored bytes stand for. |
| `TxOutCodec.TransactionOutput.SetScriptBytes` | internal/pkg/utxo/utxostore/types.go:51-56 | What is set is what is got, for every script, given the curve law. |
| `Records.DecompressorsAgree` | internal/pkg/bitcoincore/utxocompression/compress.go:49-108 | The payload-based decompressor, with the type byte unread for keys, agrees with the slice-based one on every type and every input long enough for both. |
| `Records.DecompressPayload` | internal/pkg/bitcoincore/utxocompression/compress.go:60-108 | Computes the specified script from any payload, shorter and longer ones included. |
| `Records.PayloadIsRead` | internal/pkg/bitcoincore/utxo/coin.go:70-92 | Stepping back after a key type always succeeds and lands on the type byte. |
| `Records.Coin.Deserialize` | internal/pkg/bitcoincore/utxo/coin.go:47-100 | Reads the specified coin or fails with the specified error, and then leaves the output as it was; height and flag are those of the code either way. |
| `Records.TxOut.Deserialize` | internal/pkg/bitcoincore/utxo/txout.go:61-79 | Reads the specified record or fails with the specified error; says what every field holds either way. |
| `Records.CoinRoundTrip` | internal/pkg/bitcoincore/utxo/coin.go:47-100 | Reading a written coin succeeds if and only if its script is within 10000 bytes and is not an empty script at the end of the input, the error being stated for both, and then gives it back if and only if its amount fits compressed. |
| `Records.RecordRoundTrip` | internal/pkg/bitcoincore/utxo/txout.go:61-79 | The same for a whole record with a reversed 32-byte id and an index. |
| `Records.RecordReads` | internal/pkg/bitcoincore/utxo/txout.go:61-79 | The fields byte for byte: the first 32 bytes turned around are the id; then come the index, twice the height plus the flag, the amount read as a signed word, and here a hash, filled up with zeroes if cut; nothing after its type is the end of the input. |
| `Records.PlainCoinReads` | internal/pkg/bitcoincore/utxo/coin.go:47-100 | A script of type n + 6 is the next n bytes, filled up with zeroes if cut, refused if n is above 10000 or nothing follows. |

## Left out

- UtxoStore.Store.Start: bounds the tries by a parameter, where the program retries for ever, and says how many are enough; it takes blocks as a list instead of from a channel.
- Migration.Migrator.Migrate: bounds the retries of one batch by a parameter, where the program retries for ever; the snapshot is a list, and the place where its stream breaks off, if any, a parameter.
- Script.DecompressScript: requires the bytes it slices to be there, as the source does of its callers; a slice's capacity counts as its length.
- TxOutCodec.DecodeCompressedTxOut: a size whose slice lies outside the data is the result OutOfRange, where the program stops with a run-time error or, for overlong sizes that wrap, reads on within the slice's capacity.
- Recovery of a store that never had a block: its first checkpoint has no previous block to roll back to.
- Reference lists are sets; their order comes from iterating over maps and carries no meaning.
- Redis, LevelDB and msgpack, key formatting, the transaction driver and watched keys: a transaction is one step.
- A checkpoint file torn by a crash while it is written.
- Downloads fail and are retried without changing any state, so failed attempts are no steps; the hash of a block is named by its height, and reading a header and queueing its hash are one step.
- Cancellation, closing of channels and reorganisations of the chain.
- Elliptic-curve arithmetic, extraction of addresses from scripts, base58.
- The unused path that spends a single output in the store, and the in-memory and LevelDB key-value providers.
- The version manager of the migration, logging, tracing, configuration, HTTP and gRPC.
