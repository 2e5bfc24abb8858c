# Verification of the thomasd node

This project models the consensus-relevant core of the thomasd node and proves what it keeps: Merkle roots and
inclusion proofs, the account ledger, the reward allocator, the validator set, the engine that cuts a receipt log into
rounds and chains headers over them, payment requests (R2P), and the list cursor. `dafny verify dfyconfig.toml` checks
every file.

## How the model is built

- **Two layers.** What one operation does is a function on values (`AfterTransfer`, `CommitRound`, `Step`,
  `ApproveRecord`). Where the program changes objects in place, a class does the same (`DB` with its account cells held
  by reference, `ValSet`, the engine `Node`, `R2pRecord` and `Server`), and each of its methods is proved equal to the
  function. Properties of whole runs are then lemmas about the functions. The level loops, the path loop, the two payout
  loops and the binary search are loops here too.
- **Hashes are parameters.** `Hasher` is any function from bytes to 32 bytes; nothing is assumed about it. A soundness
  lemma says "the claim holds, or here are two distinct inputs with one hash". Because some collision always exists, every
  such lemma also names the two finite sets the inputs come from: the bytes actually hashed for the two trees, the path
  or the two header chains. The SHA-256 tree of `internal/merkle/merkle.go` and the BLAKE3 tree are one loop at two
  values of this parameter.
- **Encoders are parameters.** CBOR, and the JSON of transfers, receipts and the supply record, are functions in `Env`.
  Only where a lemma says so are CBOR injective and the supply JSON readable back (`Env.Faithful`). The JSON of an
  account and the decimal, hexadecimal and base64url forms are written out, and what is needed of them is proved.
- **Machine integers are explicit.** Every `uint64` sum, difference and product that can wrap goes through `Wrap64`,
  conversions to `int64` through `Wrap64Signed`. Heights, rounds and leaf counts are natural numbers: they are slice
  lengths in the program, so they stay below 2^63.
- **Library sorts** (`sort.Strings`, `sort.Slice`, `slices.SortFunc`) enter by their contract in `Sorting.Sort`: a
  sorted rearrangement, nothing said about ties.
- **Map iteration order** is arbitrary: loops over maps pick any remaining key.

## What is proved, in short

- A root is the hash of a perfect tree over the list's *duplicate-last completion*, for all three level loops. Up to
  collisions, roots are equal exactly when completions are. Lists of one length are therefore bound by their root, and so
  is the whole account map by the state root.
- An accepted state proof of any path length proves its raw leaf. A transaction proof starts at a node, not a leaf,
  because the claimed hash is not hashed again; it names a leaf exactly when the path has the tree's depth. Every leaf
  has an accepted proof of ceil(log2 n) steps.
- Transfers keep the sum of balances under every aliasing of sender, receiver and fee receiver, modulo 2^64 always and
  exactly over every run of the node. Nonces count the applied transfers, in order.
- Rewards are paid out to the last unit when nothing wraps, never exceed the share when only the products wrap, and every
  unit paid is accounted for when the sum of weights wraps too.
- A batch on the sorted validator list acts as on a map after each of its ops exactly when no search misses harmfully. For
  the result alone that is sufficient and not necessary, like keeping fresh Adds last, which a caller can check.
- Rounds partition the log and never change, each signed as it stands and stamped with the time of its commit; the k-th
  receipt carries the terms of the k-th transfer asked for; headers chain; the last block ID binds the whole chain and the
  whole committed log; the bounded cache agrees with the log; the supply history stays readable; save and load return the
  leaves exactly when hashes differ, and which invariants a restarted engine starts from is decided exactly.
- The validators root binds the whole validator set up to node-type normalisation, although its tree has no tags.
- After a commit every account can be proved against the emitted header, and every committed receipt against the header of
  its round, in every later state.
- A payment request settles at most once, exactly when a request accepted for the right party closes it, and one paid by a
  transfer has its own applied receipt; balances then move by exactly the amount and the fee.
- What is written down is said apart from the functions that write it: account records are read back by looking for their
  field names, small trees are spelled out byte by byte, as are keys, hashed field lists and the base64url alphabet, and
  the fields an op, an approval or a commit sets are named one by one.
- The cursor decodes to what was encoded, and older numeric cursors are never mistaken for the new form.

## Where the code departs from what one would expect

Each line names a lemma with an input on which the expected property fails, and the theorem with the exact condition under
which it holds.

- Repeating the last leaf of an odd list leaves the root unchanged, and the empty list has the root of the list with one
  empty leaf: `Merkle.RepeatedLastLeafSameRoot`; roots agree exactly when completions do: `Merkle.RootBinds`.
- A transaction proof with a short path accepts an inner node as a transaction, and the empty list's root accepts the hash of
  the lone leaf tag: `Proofs.ShortTxProofAccepted`, `Proofs.EmptyListTxProofAccepted`; a leaf is named exactly when the list is
  not empty and the path has the tree's depth: `Proofs.TxProofSound`.
- A state proof's key can be cut at a zero byte inside an address: `StateRoot.CutKeyAccepted`; an entry is named exactly when
  the claimed value has no zero byte: `StateRoot.AccountProofSound`.
- The ledger does not check `amount + fee` for wrap-around: `Ledger.WrappedSumMints`; the sum of balances is kept exactly when
  that sum fits or a credit wraps as well, which can happen: `Ledger.TransferKeepsTotalIff`, `Ledger.TwoWrapsCancel`. The
  pre-check in front of the ledger rules the wrap out.
- A wrapped product in the allocator leaves part of the share unpaid and a wrapped sum of weights pays more than the share:
  `Rewards.WrappedProductUnderpays`, `Rewards.WrappedSumOverpays`; when exactly each happens: `Rewards.PaidAccounting`. The
  80/10/10 split holds exactly while ten times the total fits in 64 bits: `Rewards.SplitFairIff`.
- After a fresh Add in the same batch an existing key can be missed: `Stake.AddThenRemoveMisses`; a batch acts as on a map
  after each of its ops exactly when no search misses harmfully: `Stake.BatchRefinesIff`. For the result alone that condition
  suffices but is not necessary, since later ops can undo the difference: `Stake.MissesCanCancel`.
- The validators root normalises a node type that was already normalised, so a stored light node and a full one share a
  leaf: `StakeRoot.NodeTypesOneAndThreeShareLeaf`; what the root sees exactly: `ValidatorsCommitment.ValidatorsRootBinds`.
- The fee floor undercharges when its product wraps: `Ledger.WrappedFloorUndercharges`; it is the rate rounded up exactly
  while the product fits: `Ledger.MinFeeIsCeiling`.
- Deleting the last score does not clear the quorum hash of a bundle committed before: `CommitCache.DeletedScoresStillCount`;
  the light check passes exactly when that hash is zero or the state root, so always if the table was empty at the commit:
  `CommitCache.CacheAgreesWithLog`.
- An approval takes an explicit positive fee as it is: `RouterRuns.UnderpricedApprovalPaid` is paid at a fee of one under a
  floor of two; the floor is met exactly when no fee is named or the named one meets it: `Router.ApprovalReachesFloorIff`.
  Conservation does not need the floor, so it holds there as well.
- A caller who names nobody counts as the right party, so anyone closes an open request: `RouterRuns.UnnamedActorCloses`;
  exactly which requests close a record, in one step and over a run: `RouterRuns.ServeClosesIff`,
  `RouterRuns.RecordClosedIff`. The signature checks of the router guard `/tx` only.
- `saveLedger` keeps receipts by hash and rounds, nothing else. After a restart headers, cache and supply history are gone and
  the next header links to zero: `Restart.RestartForgets`, `Restart.ChainStartsAgain`. A transaction posted twice loses a
  leaf: `Restart.RepostedTransactionLosesLeaf`. The loaded log is consistent exactly when no hash was repeated, the rounds
  fit it exactly when no committed receipt was replaced, and all invariants hold exactly when no hash was repeated and, with
  keys, no round was committed: `Restart.RestartKeepsLogIff`, `Restart.RestartKeepsRoundsIff`, `Restart.RestartKeepsInvIff`.

`docs/consensus_headers.md` describes a header and a commit bundle with fields the code no longer has; the structs of
`internal/types` are followed.

## Model

| member | source | states |
|---|---|---|
| MerkleSpec.LevelRootIsPerfectRoot | internal/merkle/blake3tree.go:77-87 | for every node function, going up level by level with the last odd node doubled gives the root of the perfect binary tree over the list's duplicate-last completion |
| MerkleSpec.DepthIsCeilLog2 | internal/merkle/blake3tree.go:77-86 | the number of levels above n leaves is log2 n rounded up |
| MerkleSpec.CompletionExtends | internal/merkle/blake3tree.go:78-80 | padding keeps the list as a prefix and adds no new element |
| MerkleSpec.OddListAndRepeat | internal/merkle/blake3tree.go:78-80 | an odd list and the same list with its last element repeated have one completion |
| MerkleSpec.CompletionInjectiveOnLength | internal/merkle/blake3tree.go:78-80 | lists of one length with one completion are equal |
| MerkleSpec.CompletionInjectiveOnDistinct | internal/merkle/blake3tree.go:78-80 | lists without repetitions and with one completion are equal, whatever their lengths |
| Merkle.Blake3RootFromRaw | internal/merkle/blake3tree.go:67-88 | the loop that pads by appending returns the specified root, the empty list included |
| Merkle.HashPairs | internal/merkle/blake3tree.go:81-84 | filling the next level by index gives the pairwise level |
| Merkle.RootIsTreeHash | internal/merkle/merkle.go:19-40 | the root of any list is the top-down tagged hash of its completion |
| Merkle.RootsOfFew | internal/merkle/blake3tree.go:9-29 | the roots of none to three leaves, byte by byte |
| Merkle.StepUpSpelled | internal/merkle/blake3tree.go:38-51 | one path step, byte by byte, and its errors |
| Merkle.PathFoldsIff | internal/merkle/blake3tree.go:33-53 | a path of any length folds if and only if every sibling has 32 bytes and every direction is 0 or 1 |
| Merkle.NodeInputInjective | internal/merkle/blake3tree.go:22-29 | a node's hashed bytes determine both children |
| Merkle.RootInputOfLeaf | internal/merkle/blake3tree.go:9-19 | the tags keep leaves and inner nodes apart: only a one-leaf tree hashes a leaf's bytes last |
| Merkle.TreeHashBinds | internal/merkle/blake3tree.go:67-88 | equal roots of two perfect trees of any depths give equal leaves or a collision among the bytes hashed for them |
| Merkle.RootBinds | internal/merkle/blake3tree.go:67-88 | up to such a collision, two lists have one root if and only if they have one completion |
| Merkle.EqualCompletionsEqualRoots | internal/merkle/blake3tree.go:67-88 | one completion, one root, with no exception |
| Merkle.RootBindsEqualLengths | internal/merkle/blake3tree.go:67-88 | lists of equal length with equal roots are equal or collide |
| Merkle.RootBindsDistinct | internal/merkle/blake3tree.go:67-88 | lists of any lengths without repetitions, other than the lone empty leaf, are equal or collide |
| Merkle.RepeatedLastLeafSameRoot | internal/merkle/merkle.go:30-32 | appending a copy of the last leaf to an odd list leaves the root unchanged |
| Merkle.ComputeBlake3Root | internal/merkle/blake3tree.go:33-53 | the path loop returns the fold of the path, or the error of its first bad sibling or direction, or a length mismatch |
| Proofs.TxInclusionProof.Verify | internal/types/proof.go:22-39 | true exactly for a 32-byte hash whose path folds to the root; false exactly when it folds to something else; otherwise an error |
| Proofs.StateProof.VerifyBinary | internal/types/proof.go:49-62 | true exactly when the path from the hashed key, zero byte and value folds to the root; false exactly when it folds to something else |
| Proofs.PathSound | internal/merkle/blake3tree.go:33-53 | a path that folds to a tree's root starts at the root of one of its subtrees and is no longer than the tree is deep, or a collision shows |
| Proofs.StateProofSound | internal/types/proof.go:49-62 | whatever its path length, an accepted state proof names a raw leaf at the position its directions spell, and its path has the tree's depth, or a collision shows |
| Proofs.TxProofSound | internal/types/proof.go:22-39 | for every leaf list, the empty one included, an accepted transaction proof names a leaf hash if and only if the list is not empty and its path has the tree's depth, and then the one its directions spell; never longer; or a collision shows |
| Proofs.ShortTxProofAccepted | internal/types/proof.go:22-39 | an empty path makes the inner node over two leaves an accepted transaction |
| Proofs.EmptyListTxProofAccepted | internal/types/proof.go:22-39 | the empty list's root accepts the hash of the lone leaf tag, though there is no leaf |
| Proofs.PathFoldsToRoot | internal/merkle/blake3tree.go:33-53 | the path read off the levels (sibling i xor 1 after padding, direction i mod 2) folds to the root from every node |
| Proofs.PathIndexOfDirections | internal/merkle/blake3tree.go:31-32 | the directions of leaf i spell i in binary |
| Proofs.TxProofComplete | internal/types/proof.go:22-39 | every leaf of every list has an accepted proof of log2 n steps, rounded up, that names its position |
| Proofs.StateProofComplete | internal/types/proof.go:49-62 | every key and value stored as a state leaf has an accepted proof |
| Proofs.StateLeafSpelled | internal/types/proof.go:50-52 | the hashed state leaf, byte by byte |
| Ledger.AppliedTransferEffect | internal/state/state.go:58-78 | under every aliasing an applied transfer moves each balance by the sum of that address's roles modulo 2^64 and only the sender's nonce, by one |
| Ledger.AppliedTransferKeys | internal/state/state.go:142-149 | the accounts that exist afterwards are the old ones and the parties, the fee receiver only when one is set |
| Ledger.RejectionSpelled | internal/state/state.go:62-69 | when each error is returned: the nonce is looked at first, then the balance against the 64-bit sum |
| Ledger.RejectedTransferEffect | internal/state/state.go:62-69 | a rejected transfer changes no balance and no nonce and adds at most a zero account for the sender |
| Ledger.TransferKeepsTotalModulo | internal/state/state.go:66-77 | whatever wraps, the sum of balances is kept modulo 2^64, less the fee when there is no fee receiver |
| Ledger.TransferKeepsTotal | internal/state/state.go:66-77 | with amount plus fee and the total below 2^64, the sum is kept exactly, applied or not |
| Ledger.TransferTotal | internal/state/state.go:66-77 | the sum after an applied transfer to the unit: 2^64 made by a wrapped amount plus fee, 2^64 lost by each wrapped credit, the fee burnt without a receiver |
| Ledger.TransferKeepsTotalIff | internal/state/state.go:66-77 | from a total below 2^64 the sum is kept if and only if amount plus fee does not wrap or a credit wraps too |
| Ledger.SenderCoversIff | internal/state/state.go:66-69 | the sender of an applied transfer covers amount and fee if and only if their sum does not wrap |
| Ledger.TwoWrapsCancel | internal/state/state.go:66-73 | amount plus fee and the receiver's balance wrap together and the sum is kept |
| Ledger.TransferMovesExactly | internal/state/state.go:66-77 | and each balance moves by exactly its delta, without wrap |
| Ledger.WrappedSumMints | internal/state/state.go:66-73 | amount plus fee that wraps to zero lets an empty account pay 2^64 - 1 |
| Ledger.MinFee | internal/rpc/router.go:119-125 | the fee floor is at least one and bounded, also when the product wraps |
| Ledger.MinFeeIsCeiling | internal/rpc/router.go:119-125 | the floor is the rate rounded up, and at least one, if and only if the product fits |
| Ledger.WrappedFloorUndercharges | internal/rpc/router.go:119-125 | at 25 basis points an int64 amount of 2^64 / 25 + 1 has a floor of one |
| StateDB.DB.Get | internal/state/state.go:142-149 | returns the one cell of the address, creating a zero account if there was none |
| StateDB.DB.InitGenesis | internal/state/state.go:41-47 | each allocated address is raised by its allocation, in whatever order the map is read |
| StateDB.EndowedEffect | internal/state/state.go:41-47 | each balance moves by its own allocation modulo 2^64, no nonce moves, and exactly the allocated addresses come to exist |
| StateDB.DB.AddBalance | internal/state/state.go:49-56 | credits the address modulo 2^64 and does not even create an account for a zero amount |
| StateDB.DB.ApplyTransfer | internal/state/state.go:58-78 | through references that may alias: the error and the new account map are those of the specification |
| StateDB.DB.GetAccount | internal/state/state.go:80-84 | reads the account and leaves a zero account behind for a new address |
| StateDB.DB.Snapshot | internal/state/state.go:86-94 | the values of all cells |
| StateDB.DB.Restore | internal/state/state.go:96-104 | exactly the given map, in cells that are new and distinct |
| StateDB.DB.SetKey | internal/state/state.go:107-111 | one key of the store is set, accounts unchanged |
| StateDB.DB.DeleteKey | internal/state/state.go:123-127 | one key of the store is gone, accounts unchanged |
| StateDB.DB.ComputeStateRoot | internal/state/merkle.go:11-33 | the root over the account leaves in address order, a function of the map whatever the iteration order; StateRoot.StateLeafReads says what each leaf is |
| StateRoot.StateLeafReads | internal/state/merkle.go:21-31 | the i-th leaf is the prefix, the i-th address in byte order, a zero byte, and a text that reads as that account's balance and nonce |
| StateRoot.RecordReadsBack | internal/state/state.go:8-11 | the number after each name in an account's record is that account's balance and nonce, for a reader that knows only the names |
| Text.LessIff | internal/state/merkle.go:20 | the key order is byte order: a proper prefix first, else the first difference decides |
| StateDB.SortedKeys | internal/state/merkle.go:16-20 | sorting the keys of a map gives its one ascending list |
| StateRoot.AccountLeafInjective | internal/state/merkle.go:22-31 | an account leaf determines the address and the record |
| StateRoot.StateLeavesInjective | internal/state/merkle.go:11-33 | the leaf list determines the account map |
| StateRoot.StateRootBinds | internal/state/merkle.go:11-33 | account maps of any sizes with one state root are the same map, or a collision shows |
| StateRoot.AccountProofComplete | internal/types/proof.go:49-62 | every account has an accepted proof with key account/ and its address against the state root, of log2 n steps rounded up, whose value reads as its balance and nonce |
| StateRoot.AccountProofSound | internal/types/proof.go:49-62 | an accepted proof names an account and a value that reads as its balance and nonce if and only if the claimed value has no zero byte, or a collision shows |
| StateRoot.CutKeyAccepted | internal/types/proof.go:49-62 | an address with a zero byte inside makes an accepted proof that names no account |
| Rewards.SplitMint | internal/rewards/engine.go:34-47 | the three shares add up to the total for every uint64, wrapped products included |
| Rewards.SplitFairIff | internal/rewards/engine.go:34-47 | the split is 80/10/10 with the rounding in the network share if and only if ten times the total fits in 64 bits |
| Rewards.RewardEngine.Compute | internal/rewards/engine.go:124-183 | the total is the schedule's emission or, that being zero, the block mint; foundation and exchange get a tenth each (the 64-bit tenth when ten times the total wraps) and the validators the rest; without wrap in weights and products the payouts sum to the validators' share; summary and epoch as the bucket and the epoch length say |
| Rewards.TenthsOf | internal/rewards/engine.go:34-47 | foundation and exchange each get the wrapped tenth of every total, the plain tenth while ten times the total fits |
| Rewards.Weigh | internal/rewards/engine.go:147-161 | the weight loop: each weight on 64 bits, their sum modulo 2^64 |
| Rewards.WeightIsScaledScore | internal/rewards/engine.go:150-158 | while nothing wraps a weight is base plus both scores, at least zero, times the multiplier for a pool node |
| Rewards.PayFloors | internal/rewards/engine.go:168-176 | floors for the non-zero weights, and what remains modulo 2^64 |
| Rewards.HandOut | internal/rewards/engine.go:177-180 | one unit more for each of the first payouts until nothing remains |
| Rewards.ExactAllocation | internal/rewards/engine.go:147-180 | without wrap the payouts sum to the share, each is the floor of its proportional part or one more, and those with one more are a prefix shorter than the number of non-zero weights |
| Rewards.ValidatorsArePaid | internal/rewards/engine.go:147-180 | without wrap each validator with a weight is paid once, under its own address and in the given order, its rounded part plus the extra unit of the first ones |
| Rewards.PaidAccounting | internal/rewards/engine.go:147-180 | for all weights and shares, whatever wraps: floors plus one unit each as far as the 64-bit remainder reaches are paid; the share is met if and only if it lies between the floors and the floors plus one each, and is exceeded if and only if the floors alone exceed it, which needs a weight sum of 2^64 |
| Rewards.FloorsWithinShare | internal/rewards/engine.go:168-176 | total weight times the floors never exceeds share times the weights |
| Rewards.WrappedProductUnderpays | internal/rewards/engine.go:173 | one pool node of weight 2^63 is paid one unit of a share of two |
| Rewards.WrappedSumOverpays | internal/rewards/engine.go:147-161 | three validators whose weights sum to 2^64 + 1 are paid 2^64 + 1 out of a share of one |
| Stake.Search | internal/stake/types.go:63-78 | on any list, a found position holds the key |
| Stake.SearchComplete | internal/stake/types.go:63-78 | on an ascending list every present key is found, at its position |
| Stake.ValSet.FindIndex | internal/stake/types.go:63-78 | the lo/hi loop: found is sound on any list and complete on an ascending one |
| Stake.ValSet.Clone | internal/stake/types.go:24-28 | a fresh set with the same validators |
| Stake.ValSet.SortPubKeyAsc | internal/stake/types.go:34-44 | a rearrangement of the list, ascending by key |
| Stake.ValSet.ApplyOne | internal/stake/ops.go:25-93 | one Add, Update or Remove in place is the list step |
| Stake.ApplyOps | internal/stake/ops.go:22-97 | the input set is untouched and the result sorted; it is the listing of the map after the batch if and only if the list before sorting stands for that map, as when no search misses harmfully or fresh Adds come last; then, field by field, a key named once has what its op says (present fields set, scores capped, node types 0→1, 1→3, 2→2, 3→3, else 1; absent fields kept, or 0, 1, 65536, false on a fresh Add; gone on Remove) and unnamed keys are unchanged |
| Stake.PatchShows | internal/stake/ops.go:30-63 | a present field is set, an absent one kept, for an Add, an Update and a fresh Add |
| Stake.BatchSetsFields | internal/stake/ops.go:22-97 | the same for the result of a batch over distinct keys, key by key |
| Stake.StepRefines | internal/stake/ops.go:25-93 | an op whose search answers right does to the list what it does to the map |
| Stake.MissDiverges | internal/stake/ops.go:25-93 | an op whose search misses its key agrees with the map if and only if it is an unknown kind or an update that changes nothing |
| Stake.BatchRefinesIff | internal/stake/ops.go:22-97 | a batch acts as the map after each of its ops if and only if none of its searches misses harmfully |
| Stake.FreshAddsLastRefines | internal/stake/ops.go:22-97 | if no op after the first fresh Add names a key then present, the whole batch acts as the map |
| Stake.AddThenRemoveMisses | internal/stake/ops.go:65-92 | after Add of a smaller key the existing key survives its own removal |
| Stake.MissesCanCancel | internal/stake/ops.go:22-97 | a batch with a harmful miss whose result is nevertheless that of the map |
| Stake.SortedIsListing | internal/stake/types.go:34-44 | sorting a list of distinct keys gives the one ascending listing of its map |
| Stake.PatchKeepsRange | internal/stake/weights.go:18-50 | a patch keeps scores clamped and node types known, keeps absent fields, and applied twice is applied once |
| Stake.BatchKeepsRanges | internal/stake/ops.go:22-97 | so does every batch, whatever its ops carry |
| StakeRoot.MerkleRoot | internal/stake/root.go:23-43 | the loop that pairs an odd node with itself computes the same level root as the appending loops |
| StakeRoot.RootsOfFew | internal/stake/root.go:10-43 | the roots of none, one and two validators, field by field, the smaller key on the left |
| StakeRoot.SortValidators | internal/stake/types.go:46-60 | a sorted rearrangement of the input |
| StakeRoot.ComputeValidatorsRoot | internal/stake/root.go:46-53 | the root is over a sorted rearrangement of the validators, repeated keys included; for distinct keys it is a function of their map |
| StakeRoot.NextValidatorsRoot | internal/state/validators/stub_nolegacy.go:59-62 | the root over a sorted rearrangement of the list after the batch; whenever that list stands for the map after the batch, as when no search misses harmfully, the root of that map |
| StakeRoot.OrderOfValidatorsIrrelevant | internal/stake/root.go:45-53 | all permutations of validators with distinct keys have one root |
| StakeRoot.BatchOrderIrrelevant | internal/stake/ops.go:22-97 | permuted batches with distinct keys lead to one map |
| StakeRoot.NextRootOrderIrrelevant | internal/state/validators/stub_nolegacy.go:59-62 | and so to one next root |
| StakeRoot.NodeTypesOneAndThreeShareLeaf | internal/stake/weights.go:18-29 | normalisation is not idempotent, so stored types 1 and 3 share a leaf |
| ValidatorsCommitment.ValidatorsRootIsTaggedRoot | internal/stake/root.go:23-43 | the untagged validators tree is the tagged tree at a hash that drops the tags |
| ValidatorsCommitment.UntaggedInjective | internal/stake/root.go:10-19 | without tags a leaf and an inner node still hash different bytes, since their encodings have five and two items |
| ValidatorsCommitment.LeafItemInjective | internal/stake/root.go:10-20 | a leaf shows exactly the validator after node-type normalisation, every field of it |
| ValidatorsCommitment.ValidatorsRootBinds | internal/stake/root.go:46-53 | validator sets of any sizes have one root if and only if they agree after normalisation, up to a collision, or a hash of zero when just one set is empty |
| Rounds.StoreKeepsInv | internal/app/engine.go:161-188 | storing a receipt keeps the log, round and header invariants |
| Rounds.StepKeepsInv | internal/app/engine.go:161-259 | so does every step of the engine |
| Rounds.RunKeepsInv | internal/app/engine.go:161-259 | the invariants hold after every run from an empty ledger: height is the number of leaves, rounds are contiguous, each round's root is that of its slice and its signature that of the unsigned header whenever there is a private key; headers are linked, carry their fixed fields and epoch, and the latest commit root is the last header's |
| Rounds.LogFollowsStores | internal/app/engine.go:165-183 | in every run the k-th receipt carries the hash, parties, amount, fee, nonce, outcome with its reason, and time of the k-th receipt asked for, applied or rejected, and the k-th leaf is its JSON |
| Rounds.RoundTimes | internal/app/engine.go:209-238 | in every run there is one round for each commit that found a receipt pending, stamped with its time |
| Text.HexAt | internal/app/engine.go:231 | roots and signatures are lower-case hexadecimal, the high digit first |
| Rounds.RoundsPartitionLog | internal/app/engine.go:200-241 | a leaf is committed if and only if some round holds it, and no two rounds hold one leaf |
| Rounds.PastRoundsStay | internal/app/engine.go:200-241 | in every continuation each earlier round and header is still there and the round's root is still that of the same slice |
| Rounds.EmittedHeadersLinked | internal/app/engine.go:333-395 | every emitted header carries the hash of the one before it, the first the zero hash |
| Rounds.HeaderItemInjective | internal/types/header.go:55-74 | the header's encoded fields determine the header |
| Chain.HashesSpelled | internal/types/header.go:55-86 | header and bundle are hashed over their fields in this order |
| Rounds.LastBlockIdBindsChain | internal/types/header.go:80-86 | linked chains with one last block ID are equal or collide; different lengths also need a header hashing to zero |
| Rounds.SameHeadersSameLog | internal/app/engine.go:360-377 | two ledgers with equal headers have equal committed leaves and receipts, or the leaves of a round collide |
| Rounds.LastBlockIdBindsLog | internal/app/engine.go:360-392 | any two runs that end in one block ID have equal headers, committed leaves and committed receipts, up to a collision among headers or round leaves, or a header hashing to zero for different lengths |
| CommitCache.RunKeepsFeed | internal/app/engine.go:243-257 | after every run the cache is the records of the last min(64, n) commits of that run in order; each fits its header, whose state root is that of the accounts at the commit, and its bundle is a precommit over a one-byte bitmap with the digest of the score table at the commit, zero if that was empty |
| CommitCache.LightVerdict | internal/light/verify.go:27-64 | accepted if and only if round, quorum hash, bundle hash and state root all match; otherwise the first failing check names the error |
| CommitCache.HeaderAtFinds | internal/app/engine.go:279-289 | the newest-first look-up finds a header if and only if its height occurs |
| CommitCache.BundleAtFinds | internal/app/engine.go:429-438 | the cache look-up answers if and only if the height is cached, with the bundle of that height |
| CommitCache.CacheAgreesWithLog | internal/light/verify.go:27-64 | at exactly the last min(64, n) committed heights both look-ups answer, the bundle is that of the commit and hashes to the header's commit root, and the light check against the header's state root passes if and only if the quorum hash is zero or that root, always if the score table was empty at that commit |
| CommitCache.DeletedScoresStillCount | internal/app/engine.go:344-353 | after the last score is deleted the cached bundle keeps its digest, and the light check passes if and only if that is zero or the state root |
| CommitCache.ScoreKeysSpelled | internal/app/validator_state.go:12-32 | the score table is read from exactly the keys under `validators/`, and no supply key is one of them |
| CommitCache.CommitRootBindsBundle | internal/types/commit_bundle.go:18-40 | bundles with one commit root are equal or collide |
| CommitCache.AcceptedBundleIsCommitted | internal/light/verify.go:27-64 | a bundle the light check accepts with an emitted header is the committed one or collides with it, and the accepted validators root is the header's state root |
| HeaderProofs.HeaderProvesAccount | internal/app/engine.go:341-377 | every account has a state proof that checks against the header just emitted and whose value reads as its balance and nonce |
| HeaderProofs.HeaderBindsAccounts | internal/types/proof.go:49-62 | a state proof that checks against that header names an account of that ledger if and only if its value has no zero byte, or a collision shows |
| HeaderProofs.HeaderProvesReceipt | internal/app/engine.go:223-257 | after every run each committed receipt, however old, has a proof against the transaction root of the header whose round holds it |
| SupplyRuns.MintAllTotals | internal/app/state_reward.go:27-36 | the minted total is the sum of the mints and the sum of the three vaults, modulo 2^64 |
| SupplyRuns.VaultsHoldTheirShares | internal/app/state_reward.go:27-36 | each vault is the sum of its own shares over all rounds, modulo 2^64 |
| SupplyRuns.SupplyTotals | internal/app/engine.go:397-405 | both after every run of the engine |
| SupplyRuns.RunKeepsSupply | internal/app/engine.go:397-405 | after every run the stored current supply, the last mint and its epoch are those of the last round |
| SupplyRuns.SupplyKeysSpelled | internal/app/state_reward.go:11-40 | the keys as stored: the prefix and the height in twenty digits |
| SupplyRuns.HistoryKeyInjective | internal/app/state_reward.go:38-40 | history keys of different heights differ, beyond twenty digits too |
| SupplyRuns.SupplyAtHeight | internal/app/engine.go:413-420 | a height has a supply if and only if a round ended there or it is zero before the first round, and then it is the supply after that round or the empty one, by the fast path or the store |
| SupplyRuns.SupplyHistoryStays | internal/app/engine.go:413-420 | in every continuation of a run the last committed height returns the supply right after its commit |
| SaveLoad.KeepLastElements | internal/app/engine.go:181-183 | the receipts kept are exactly those no later one of the same hash replaced |
| SaveLoad.SavedListIsKeepLast | internal/app/engine.go:558-571 | whatever the map iteration order, the saved list is the last receipt of each hash in log order |
| SaveLoad.KeepLastIsAllIff | internal/app/engine.go:161-188 | nothing is lost if and only if all hashes in the log differ |
| SaveLoad.SaveLoadRoundTrip | internal/app/engine.go:558-604 | for every run, save then load returns rounds, the receipt map and the last receipt of each hash; leaves and height return unchanged if and only if all hashes differ |
| Restart.RestartIsLoad | internal/app/engine.go:558-604 | saving after any run and loading into a new engine gives the restarted state, whatever the map order |
| Restart.RestartForgets | internal/app/engine.go:74-129 | a restarted engine knows no past header, bundle or supply, and its block ID is zero |
| Restart.ChainStartsAgain | internal/app/engine.go:360-369 | the next header it emits is its first and links to zero |
| Restart.RestartKeepsLogIff | internal/app/engine.go:592-603 | heights and leaves of the loaded log agree if and only if no hash was repeated |
| Restart.RestartKeepsRoundsIff | internal/app/engine.go:592-603 | the stored rounds fit the loaded leaves if and only if no committed receipt was replaced, or some round's root collides |
| Restart.RestartKeepsInvIff | internal/app/engine.go:592-603 | all engine invariants hold after a restart if and only if no hash was repeated and, with keys, no round was committed |
| Restart.RoundsSurviveRestart | internal/app/engine.go:200-241 | without repeated hashes, log and rounds go on fitting together in every run after a restart |
| Restart.RepeatedTransferLosesLeaf | internal/app/engine.go:161-188 | storing one transfer twice, applied or rejected, loses a leaf at the next restart |
| Restart.RepostedTransactionLosesLeaf | internal/rpc/router.go:1892-1905 | at any point of any run, posting one transaction twice does |
| Engine.Node.ApplyTransfer | internal/app/engine.go:144-159 | the ledger step on the engine's accounts, nothing else changed |
| Engine.Node.GetAccount | internal/app/engine.go:141 | the account, a zero one created if absent, nothing else changed |
| Engine.Node.StoreReceipt | internal/app/engine.go:161-188 | the whole new state and the returned receipt are those of the specification |
| Engine.Node.CommitRound | internal/app/engine.go:200-259 | the whole new state is that of the specification, and a round is returned if and only if leaves were pending |
| Engine.Node.ComposeRound | internal/app/engine.go:223-236 | the pending leaves and the header over them |
| Engine.Node.ComposeHeader | internal/app/engine.go:341-377 | the bundle and the block header over the current state |
| Engine.Node.AppendHeader | internal/app/engine.go:243-257 | the header, the block ID and the bounded cache, and nothing without a usable key pair |
| Engine.Node.ApplyBlockMint | internal/app/engine.go:397-405 | supply, both stored records and the epoch after a mint |
| Engine.Node.EternityHeaderAt | internal/app/engine.go:279-289 | the backward loop is the newest-first look-up |
| Engine.Node.CommitBundleAt | internal/app/engine.go:429-438 | the same on the cache |
| Engine.Node.SupplyAtHeight | internal/app/engine.go:413-420 | the fast path, else the stored record |
| Engine.Node.SaveLedger | internal/app/engine.go:558-571 | the map's receipts, each once, sorted by height, with rounds and heights |
| Engine.Node.LoadLedger | internal/app/engine.go:592-603 | the ledger fields are rebuilt from the sorted receipts, everything else stays |
| Router.Precheck | internal/rpc/router.go:2095-2117 | the list of complaints holds each complaint exactly when it applies, and is empty exactly when the request passes |
| Router.PrecheckSpelled | internal/rpc/router.go:2095-2117 | the pre-check in plain terms: chain, amount, fee floor, both address prefixes, expiry |
| Router.ApprovalReachesFloorIff | internal/rpc/router.go:1380-1383 | an approval pays at least the fee floor if and only if it names no positive fee or one that meets it |
| Router.SpeaksForSpelled | internal/rpc/router.go:1369-1378 | an actor, or for an unnamed one the party itself, is accepted if and only if it resolves to the party's address, which is not empty |
| RouterRuns.NodeRunIsEngineRun | internal/rpc/router.go:1866-1912 | serving requests drives the engine through a run of engine events, so every engine theorem applies |
| RouterRuns.PostedSumFits | internal/rpc/router.go:2099-2110 | a posted transfer that passes the pre-check has a fee of at least the floor, and amount plus fee does not wrap, also when the floor's product does |
| RouterRuns.BalancesConserved | internal/rpc/router.go:1881-1905 | over every run of the node the sum of all balances is constant |
| RouterRuns.PostMovesExactly | internal/rpc/router.go:1881-1905 | at any point of any run a posted transfer that passes the pre-check is applied if and only if its nonce is next and the sender covers amount and fee; it then moves exactly those between its parties, else nothing; its receipt carries the posted terms, the hash of the transaction and the outcome, a wrong nonce being reported before a short balance |
| RouterRuns.NoncesFollowLog | internal/state/state.go:62-71 | after every run an account's nonce counts its applied receipts in the log, and they used the nonces in between in order |
| RouterRuns.NoNonceTwice | internal/state/state.go:62-71 | no two applied transfers of one sender share a nonce within 2^64 transfers |
| RouterRuns.RecordSettlesOnce | internal/rpc/router.go:1361-1367 | over any stretch of a run a request keeps its terms, leaves open at most once and never changes afterwards |
| RouterRuns.PaidRecordsHaveReceipts | internal/rpc/router.go:1384-1432 | each request paid outside developer mode has an applied receipt with its hash, payer, payee and amount, at the fee and nonce of its approval, and no two requests share one |
| RouterRuns.ServeClosesIff | internal/rpc/router.go:1353-1554 | a request closes an open record if and only if it names its id, its actor is unnamed or resolves to the right party, and, to approve outside developer mode, the payer covers the transfer; closing sets the status, that status's own time and the hash and leaves the other times and the terms; otherwise the record does not change |
| RouterRuns.RecordClosedIff | internal/rpc/router.go:1353-1554 | over any stretch of a run an open record ends up closed if and only if one of the requests in between closes it |
| RouterRuns.UnnamedActorCloses | internal/rpc/router.go:1369-1378 | without naming anybody a caller declines, cancels, and, if the payer covers it, pays an open record whose party has an ordinary address |
| RouterRuns.ApprovalRejection | internal/rpc/router.go:1384-1398 | an approval carries the next nonce, so the ledger rejects it if and only if the payer does not cover it |
| RouterRuns.ApprovalPaysPayee | internal/rpc/router.go:1380-1432 | at any point of any run, for every open record and every accepted actor, an approval becomes paid if and only if the payer covers amount and fee or developer mode is on; balances move by exactly that if and only if it is covered; the receipt carries the transfer of payer, payee, amount, fee and next nonce, or in uncovered developer mode there is none and the hash is the developer one |
| RouterRuns.RequestPaysPayee | internal/rpc/router.go:1272-1432 | create, then approve: payee and payer are the resolved parties of the request, and payer, payee and fee receiver move by exactly amount and fee if and only if the payer covers them |
| RouterRuns.Created | internal/rpc/router.go:1280-1297 | the record of a good request, field by field |
| RouterRuns.RefusedCreate | internal/rpc/router.go:1274-1278 | without two addresses and a positive amount nothing is created |
| RouterRuns.UnderpricedApprovalPaid | internal/rpc/router.go:1380-1383 | at 25 basis points a request for 800 is paid at a fee of one under a floor of two |
| RouterRuns.TxHashIsNotDev | internal/rpc/router.go:1407 | a real transaction hash never reads as a developer one |
| R2pServer.Server.Post | internal/rpc/router.go:1881-1905 | pre-check, transfer and receipt as specified |
| R2pServer.Server.Create | internal/rpc/router.go:1272-1297 | a new open request, or nothing on bad parameters |
| R2pServer.Server.Approve | internal/rpc/router.go:1353-1432 | through the stored reference: paid, paid in developer mode, or rejected with a receipt, as specified |
| R2pServer.Server.Decline | internal/rpc/router.go:1460-1493 | an open request of this payer becomes declined, anything else is left alone |
| R2pServer.Server.Cancel | internal/rpc/router.go:1521-1554 | an open request of this payee becomes canceled, anything else is left alone |
| Cursor.SextetsRoundTrip | internal/rpc/r2p_cursor.go:13 | regrouping bytes into sextets and back loses nothing |
| Cursor.Base64RoundTrip | internal/rpc/r2p_cursor.go:13-21 | decoding unpadded base64url (sections 3.2 and 5 of RFC 4648) undoes encoding for all bytes |
| Cursor.ParseFormatted | internal/rpc/r2p_cursor.go:12-24 | every int64 is read back from its decimal form |
| Cursor.ParseSpelled | internal/rpc/r2p_cursor.go:24-30 | digits, with or without a sign, read as their value when it fits in 64 bits |
| Cursor.NumberIsSpelled | internal/rpc/r2p_cursor.go:24-30 | nothing but digits after at most one sign reads as a number |
| Cursor.SplitJoined | internal/rpc/r2p_cursor.go:22-25 | splitting at the first bar returns number and id, bars in the id included |
| Cursor.CursorRoundTrip | internal/rpc/r2p_cursor.go:11-34 | decode of encode is the identity for every int64 and every id |
| Cursor.EncodedLetters | internal/rpc/r2p_cursor.go:13 | each letter of an encoding spells its sextet in the alphabet of section 5 of RFC 4648 |
| Cursor.LetterValueIff | internal/rpc/r2p_cursor.go:21 | a byte decodes to a value if and only if the alphabet has it |
| Cursor.LineBreaksSkipped | internal/rpc/r2p_cursor.go:21 | a line break anywhere in a cursor changes nothing |
| Cursor.SextetsSpelled | internal/rpc/r2p_cursor.go:13 | three bytes are four sextets of the same 24 bits, one or two last bytes padded with zero bits |
| Cursor.AcceptedIff | internal/rpc/r2p_cursor.go:17-34 | a cursor is accepted if and only if it is empty, decodes to a number before a bar, or is a number |
| Cursor.CursorExample | internal/rpc/r2p_cursor.go:11-14 | one encoding, byte by byte |
| Cursor.NumberAsBase64 | internal/rpc/r2p_cursor.go:21-24 | a number that happens to be valid base64url decodes to a first byte of at least 0xD3 |
| Cursor.LegacyCursorDecodes | internal/rpc/r2p_cursor.go:29-32 | every number, signed or not, decodes as that number |
| Cursor.EncodedIsNoNumber | internal/rpc/r2p_cursor.go:11-14 | no encoded cursor reads as a number |

## Left out

- StakeRoot.ComputeValidatorsRoot: for repeated keys the root is over some sorted rearrangement; which one is not said, because the order of ties after the library sort is not specified.
- HTTP routing, JSON request parsing, alias look-up (a parameter of `Config`), event streams and metrics: no invariant of their own.
- The alias transaction path of `ApplyTransfer` behind `THOMAS_FEAT_ALIAS`: a file-backed table.
- Signature and commitment checks around posting: one boolean parameter of a post request.
- Disk access: `SaveLedger` hands its value to `LoadLedger`; failures to write are not modelled.
- BLAKE3, SHA-256, Ed25519, CBOR and most JSON: parameters, as described above.
- The emission curve in floating point: an arbitrary function of the height.
- Concurrent handlers: handlers run one at a time. The program releases its lock between the check of a request and its update.
- `RecordCommitBundle`: a bundle injected from outside need not match a header.
- `GetReceipt` after a repeated hash: it returns the last receipt only, as the map lemmas of `SaveLoad` show.
- The digest of the score table: a parameter; only the zero digest of an empty table is fixed.
- Score events, node-type weights and effective power: separate linear arithmetic.
- `RangePrefix` and the stores for epoch payouts: plain map access.
- Drawing request ids: fresh ids are a condition of the R2P run lemmas.
- Saved accounts: a restarted engine starts from arbitrary accounts, since the account file is separate from the ledger file. The header, supply and R2P run lemmas speak of one start of the node.
