# Verified model of the imuachain node

Imuachain is a Cosmos SDK chain with an oracle that collects large off-chain data piece by piece. This
project is a Dafny model of the parts of its Go code that carry the most logic, with proofs of what they
guarantee.

- **Oracle mempool** (`Pool`, `Mempool`, `PoolInvariant`, `PoolRuns`, `PoolSelect`, `OracleTx`). The mempool
  caches raw-data pieces per feeder and piece index, and `Select` builds the next block from a request and
  the cache. `ImuaMempool` is a class whose methods follow the source's loops. Each method is proved to change
  the state by a step function, and the theorems are about every run of those steps.
- **Merkle collection** (`Merkle`, `MerkleCollect`, `MerkleWalk`, `MerkleBuild`, `MerkleRecovery`,
  `MerkleStore`, `MerkleNode`). Pieces are accepted one after the other against a root hash. Proved: whatever is
  submitted, only the data the root commits to is collected; every run that contains the pieces with their minimal
  proofs collects it, and no smaller proof is accepted; the proof nodes a node stores suffice to decide as if it
  had never stopped; but the pieces are not stored, so a node panics exactly at the restarts at which some
  pieces are collected and some are missing.
- **Validator order** (`ValidatorSort`), **reward proportions and coins** (`Reward`), **USD values**
  (`UsdValue`), all on the fixed-point numbers of `Decimal`.
- **Store keys and scans** (`JoinedKeys`, `StoreScan`): tuples flattened to bytes, prefix scans, and the
  generic iterate-and-update loop.
- **Consensus keys** (`TextCodec`, `ConsensusKey`): one key in several lazily filled formats.
- **Batch funding** (`Funding`) and **chain identifiers** (`ChainId`).
- `Common`, `Order` and `ByteOrder` hold subsequences, sums over maps, sorting, and the order of byte strings.

What the code takes from elsewhere is a parameter: `parsed` is what the feeder manager reads from a raw-data
message, `request` the transactions of a proposal after decoding, `collecting` the feeders that collect, each
with the number that the base blocks of its pieces are compared with, `next` the piece index each of them
expects. `Libraries` stands for the JSON codec and the address hash, `sha` for SHA-256, `validAddress` for the address check, `exponentOf` for the exponent the keeper
knows for a denomination. Laws that are assumed of them are named predicates (`Lawful`, `Digests`) in the
`requires` clauses.

`dafny verify dfyconfig.toml` checks everything.

## Where code and documentation disagree

The model follows the code. In each case the exact condition is proved.

- The comment on `IsValidOracleTx` gives a true second result the meaning that all messages are oracle
  messages and none is of phase two. A foreign message in front goes unnoticed, and a single phase-two message
  gives a true result too (`OracleTx.SecondResultAsDocumented`, `OracleTx.SecondResultFails`). The fourth
  result does not always tell a mixture of oracle and foreign messages either
  (`OracleTx.FourthResultAsDocumented`, `OracleTx.FourthResultFails`), nor the third a single oracle message of
  phase two (`OracleTx.ThirdResultAsDocumented`, `OracleTx.ThirdResultFails`).
- `clearExpiredFeederIDcache` is meant to drop expired pieces. If every cached piece is expired, all of them
  stay (`PoolInvariant.PurgeLeavesOnlyCurrent`, `PoolRuns.ExpiredPieceStays`), and the counter can move away
  from the number of cached pieces (`PoolInvariant.PurgeKeepsCountExact`, `PoolRuns.CountIsExact`). Its comment
  speaks of piece indices up to the base block; the index plays no part (`PoolSelect.PurgeGoesByBlock`).
- The number a purge compares base blocks with is called a base block in `clearExpiredFeederIDcache`. The feeder
  manager passes the id of the round (x/oracle/keeper/feedermanagement/feedermanager_two_phases.go:161), while a
  piece carries the block its message is based on (line 91 there). So a piece counts as current only if the
  two numbers coincide (`PoolSelect.PurgeGoesByBlock`). The theorems hold for any numbers.
- The comments at x/oracle/keeper/two_phases.go:101 and
  x/oracle/keeper/feedermanagement/feedermanager_two_phases.go:205-207 say that collected pieces are written to the
  store for recovery. Nothing calls `SetRawDataPiece`, while the index of the next piece is written at the end of
  a block. So the pieces are missed at a restart, and the node panics exactly if some pieces are collected and
  some are missing (`MerkleNode.RestartPanics`, `MerkleNode.FirstPieceStrands`). With the pieces written no
  restart would panic (`MerkleNode.RestartsAreInvisible`).
- `FundingObjects` sends the pending outputs only at a full message or at the last object, and an object that
  is skipped returns before that. If the last object is skipped, pending top-ups are dropped without an error
  (`Funding.AllTopUpsAreSent`, `Funding.SkippedLastObject`).
- `ToTmKey` says its conversion fails only for unknown key types; it also fails, and returns nil, exactly for
  keys that do not have 32 bytes, which the constructors accept (`ConsensusKey.WrongSizeReplies`,
  `ConsensusKey.WrongSizeIsAccepted`).

## Model

| member | source | states |
|---|---|---|
| OracleTx.IsValidOracleTx | app/ante/utils/oracle.go:33-57 | the loop with its early returns classifies by three declarative predicates: raw data (a single phase-two message), mixed, oracle; and returns all oracle messages unless mixed |
| OracleTx.OracleMsgsInOrder | app/ante/utils/oracle.go:33-57 | the returned messages are a subsequence of the transaction's |
| OracleTx.OracleMsgsCount | app/ante/utils/oracle.go:33-57 | every oracle message is returned as often as it occurs, and nothing else |
| OracleTx.IsOraclePhaseTwoTx | app/ante/utils/oracle.go:16-26 | it singles out the same transactions as the third result of `IsValidOracleTx` |
| OracleTx.SecondResultAsDocumented | app/ante/utils/oracle.go:28-57 | a true second result means what the comment says (all messages are oracle messages, none of phase two) if and only if the first message is such a message; conversely only the empty transaction is missed |
| OracleTx.SecondResultFails | app/ante/utils/oracle.go:30-57 | two inputs with a true second result: a foreign message in front, and a single phase-two message |
| OracleTx.ThirdResultAsDocumented | app/ante/utils/oracle.go:31-57 | a true third result means one oracle message, of phase two; a false one misses that exactly if there are foreign messages too |
| OracleTx.ThirdResultFails | app/ante/utils/oracle.go:31-57 | an input with one oracle message, of phase two, and a false third result |
| OracleTx.FourthResultAsDocumented | app/ante/utils/oracle.go:32-57 | a mixed verdict without foreign messages is exactly that on several oracle messages with a phase-two one; a mixture is missed exactly if the foreign messages come first and no message is of phase two |
| OracleTx.FourthResultFails | app/ante/utils/oracle.go:32-57 | an input for each of the two |
| Mempool.ImuaMempool.constructor | app/mempool.go:314-320 | the new mempool is empty with counter 0 |
| Mempool.ImuaMempool.Insert | app/mempool.go:36-75 | the whole new state and outcome, by `InsertStep` |
| PoolRuns.InsertEffect | app/mempool.go:36-75 | fails exactly on raw data that is unreadable or has the index, data and proof of a piece cached for its message's feeder under any index, and then changes nothing; else the piece with the message's block comes last in the slot of that feeder and index, and no other slot changes |
| Mempool.ImuaMempool.Select | app/mempool.go:79-162 | the new state and the list behind the iterator, by `SelectStep`; nil exactly for an empty list; the early exit when every collecting feeder was seen loses nothing |
| Mempool.ImuaMempool.DecodeNonRaw | app/mempool.go:87-98 | without collecting feeders: the decodable transactions that are not raw data, in order |
| Mempool.ImuaMempool.KeepFirst | app/mempool.go:108-133 | the first loop keeps all but later raw data and raw data of other feeders, and the set of seen feeders is the complement of the missing ones |
| Mempool.ImuaMempool.FillMissing | app/mempool.go:135-155 | the second loop hands out and turns the slots of exactly the missing feeders, in ascending order |
| Mempool.ImuaMempool.Remove | app/mempool.go:170-196 | the new state and outcome by `RemoveStep`, including the nil dereference |
| Mempool.ImuaMempool.CutSlots | app/mempool.go:181-189 | keeps the slots above the index and takes the others' pieces off the counter |
| Mempool.ImuaMempool.IncludesMsgOracle | app/mempool.go:199-207 | true exactly if some message is an oracle message |
| Mempool.ImuaMempool.GetTxByFeederIDPieceIndex | app/mempool.go:226-245 | hands out the head of the slot and moves it to the end; other slots and the counter stay |
| Mempool.ImuaMempool.Reset | app/mempool.go:248-251 | back to the empty state |
| Mempool.ImuaMempool.PurgeSlot | app/mempool.go:268-275 | the pieces of the given base block in order; the counter falls by the others |
| Mempool.ImuaMempool.PurgeFeeder | app/mempool.go:267-282 | the slots with a current piece, reduced to those; the counter falls by the stale pieces |
| Mempool.ImuaMempool.ClearExpiredFeederIDcache | app/mempool.go:256-287 | the nested loops do one purge step, for every iteration order of the maps |
| Mempool.ImuaMemIterator.constructor | app/mempool.go:290-292 | starts at the first transaction |
| Mempool.ImuaMemIterator.Next | app/mempool.go:299-305 | advances, or returns nil after the last |
| Mempool.ImuaMemIterator.Current | app/mempool.go:307-312 | the transaction under the cursor |
| Mempool.Drain | app/mempool.go:299-312 | asking for the transaction and then the next iterator until nil yields the rest of the list once and in order |
| PoolRuns.ReachableIsValid | app/mempool.go:36-287 | in every state reachable from the new mempool no inner map or list is empty, every piece sits under its own index, its transaction is raw data of that feeder, and no two pieces of a slot are equal |
| PoolSelect.CachedWasInserted | app/mempool.go:36-75 | in every such state each cached piece was inserted by an earlier event with this index, data and proof, and its transaction is one phase-two message that names the feeder it is filed under and its base block |
| Pool.CacheBySlots | app/mempool.go:36-287 | such a state is determined by its slots, so what is proved slot by slot below determines the cache |
| PoolInvariant.InsertKeepsDrift | app/mempool.go:52-74 | insertion keeps the difference between counter and number of cached pieces |
| PoolInvariant.RemoveKeepsDrift | app/mempool.go:170-196 | so does removal |
| PoolInvariant.TotalSplit | app/mempool.go:256-287 | every cached piece survives a purge, is stale, or belongs to a feeder that no longer collects: the three numbers add up |
| PoolInvariant.PurgeDrift | app/mempool.go:256-287 | a purge moves the counter up by the dropped feeders' pieces if something survives, else down by the stale pieces |
| PoolInvariant.PurgeKeepsCountExact | app/mempool.go:256-287 | an exact counter stays exact if and only if something survives and every cached feeder collects, or nothing survives and no collecting feeder has a stale piece |
| PoolInvariant.PurgeLeavesOnlyCurrent | app/mempool.go:256-287 | only current pieces are left if and only if the cache was empty or something survives |
| PoolRuns.ExpiredPieceStays | app/mempool.go:269-286 | a run of one insertion and one selection for another block ends with the expired piece cached and the counter too small by one |
| PoolRuns.StepDrift | app/mempool.go:36-287 | how each operation moves the counter against the cache; only `Select` can |
| PoolRuns.CountIsExact | app/mempool.go:52-74 | along every run from the new mempool the counter is exact throughout if and only if every purge of the run meets the condition above |
| PoolRuns.RemoveEffect | app/mempool.go:170-196 | `Remove` panics exactly on unreadable raw data of a feeder with cached pieces; else it empties exactly the slots, up to the piece's index, of the feeder that the message names |
| PoolRuns.CutSlot | app/mempool.go:181-194 | exactly the feeder's pieces with a larger index stay; no other feeder is touched |
| PoolRuns.RemovesAreOneRemove | app/mempool.go:170-196 | any sequence of removals for one feeder, in any order, equals one removal of the largest index, counter included |
| PoolRuns.CutsCommute | app/mempool.go:170-196 | removals commute, whatever their feeders |
| PoolSelect.SelectPerFeeder | app/mempool.go:79-162 | with or without collecting feeders: the block has every other transaction of the request, per collecting feeder the first raw data of the request or else the head of the slot it expects next after the purge, and no raw data of any other feeder |
| PoolSelect.SelectOrder | app/mempool.go:79-162 | the block is a subsequence of the request followed by fill-ins in ascending order of the feeders their messages name; each of these collects, has nothing in the request, and had the fill-in's piece cached at the index it expects next |
| PoolSelect.SelectSlot | app/mempool.go:84-155 | after the purge exactly the slots picked from are turned by one, all others stay; without collecting feeders all are emptied |
| PoolSelect.PurgeGoesByBlock | app/mempool.go:253-287 | where something survives, a purge keeps exactly the pieces of the feeder's block, whatever their index |
| PoolSelect.KeptExactly | app/mempool.go:36-287 | exactly which operations leave a cached piece in its slot: a removal must concern another feeder or a smaller index, a selection must collect and, unless nothing survives its purge, collect for the piece's feeder and block |
| PoolSelect.NoStarvation | app/mempool.go:226-245 | a piece at position q is handed out within q + 1 picks of its slot, whatever insertions, removals and selections come between, as long as it stays cached |
| PoolSelect.RoundRobin | app/mempool.go:226-245 | as long as the pieces of a slot stay cached and it is only picked from, they are handed out one after the other, and as many picks as pieces restore the slot |
| MerkleBuild.BuildLayer | x/oracle/types/merkletree.go:545-586 | one round of the outer loop on the map of nodes: from a map that holds a layer and nothing else to one that holds the next, with lifted nodes re-filed; every node looked up above the bottom layer is there, every place lifted to is free, so neither error can occur; it panics exactly if the end of the last piece wraps around 32 bits |
| MerkleBuild.BuildTreeNodes | x/oracle/types/merkletree.go:537-589 | at the end every node of the recursive tree is in the map under its own index, with its true hash if there is raw data, and every place of the map holds a node of the tree; the returned index is the root's and the pieces are the cut data |
| MerkleBuild.SliceIsPiece | x/oracle/types/merkletree.go:604-605 | the slice with bounds in 32 bits is the piece, and panics exactly if the end of the piece does not fit |
| MerkleBuild.CutIsSlices | x/oracle/types/merkletree.go:486-489 | the leaf count computed by division is the number of pieces, and piece i is the slice at i times the piece size |
| MerkleBuild.DeriveMT | x/oracle/types/merkletree.go:464-466 | fails exactly on a zero piece size, no data, or 2^32 bytes and more; panics exactly if there are several pieces and their number times the piece size reaches 2^32; else the root is the one the data is committed by |
| MerkleBuild.NewMT | x/oracle/types/merkletree.go:458-460 | fails exactly on a zero piece size or a root of another length, dereferences nil exactly on zero leaves; else a tree that knows its root only, with the places of the map that was built |
| Merkle.ShapeOk | x/oracle/types/merkletree.go:537-662 | for every leaf count no index is used twice, lifted nodes included, and the leaves are 0 to n - 1 |
| Merkle.RootIsLayered | x/oracle/types/merkletree.go:537-589 | the root hash of the tree is that of the plain layer-by-layer computation: digests of the pieces, then neighbours hashed left before right, a last one alone carried up |
| Merkle.LookupFindsFirst | x/oracle/types/merkletree.go:71-78 | the hash taken from a proof is that of its first node with the index, if it is not empty |
| Merkle.ClimbIsSound | x/oracle/types/merkletree.go:223-266 | a walk up that ends in the right hash without a second preimage started from the right piece and computed only true hashes |
| Merkle.SettleIsSound | x/oracle/types/merkletree.go:213-268 | so a successful check against the lowest cached ancestor accepts the right piece only |
| Merkle.SettleKeepsWay | x/oracle/types/merkletree.go:213-268 | a successful check caches the hashes of the nodes on the way and their siblings, and no others |
| MerkleWalk.MerkleTree.VerifyAndCacheOrdered | x/oracle/types/merkletree.go:201-268 | the new cache, the new pieces, the verdict and the returned proof nodes, by `Submit` |
| MerkleWalk.MerkleTree.Check | x/oracle/types/merkletree.go:213-268 | the loop up the parent pointers computes the recursive check at the lowest known node, for any set of known hashes with the root |
| MerkleWalk.MerkleTree.CompleteRawData | x/oracle/types/merkletree.go:289-302 | the data put together before, or else the concatenated pieces, exactly if all are there; these are the same unless the pieces were replaced |
| MerkleWalk.MerkleTree.SetRawDataPieces | x/oracle/types/merkletree.go:123-125 | replaces the pieces and nothing else, not even raw data put together before |
| MerkleWalk.MerkleTree.SetProofNodes | x/oracle/types/merkletree.go:129-137 | sets the hashes of the nodes in the listed places, one after the other, the second place of a lifted leaf included, and skips indices that are no place |
| MerkleWalk.ProofPathFromLeafIndex | x/oracle/types/merkletree.go:141-165 | the loop up the parent pointers gives the siblings on the way, with or without the computed nodes, and nothing for an index beyond the leaves |
| MerkleWalk.CalculateProofPaths | x/oracle/types/merkletree.go:412-439 | the loops with their set of seen indices give every leaf the siblings that no earlier leaf has brought in, and no entry to a leaf without any |
| MerkleCollect.SubmitKeepsValid | x/oracle/types/merkletree.go:201-268 | siblings are cached together and never without their parent, after every submission |
| MerkleCollect.CollectedSizes | x/oracle/types/merkletree.go:201-212 | in every run, whatever the root commits to, there are never more pieces than leaves, and all but the last leaf's have the full size |
| MerkleCollect.OnlyGenuinePieces | x/oracle/types/merkletree.go:201-268 | in every run, whatever is submitted, the collected pieces are the first pieces of the committed data and all cached hashes are true, unless a submission exhibits a second preimage |
| MerkleCollect.ConcatOfCut | x/oracle/types/merkletree.go:464-470 | cutting data into pieces loses nothing, and all pieces but the last have full size |
| MerkleCollect.CollectedDataIsGenuine | x/oracle/types/merkletree.go:289-302 | data collected to the end is byte for byte the data the root commits to |
| MerkleCollect.HonestDataIsCollected | x/oracle/types/merkletree.go:338-345 | submitting just the pieces in order with their minimal proofs is accepted at every step and yields the data, for every data and piece size |
| MerkleCollect.RunTracks | x/oracle/types/merkletree.go:412-439 | in every run, whatever is submitted and whatever the hash function, the cached hashes are exactly those the minimal proofs count on |
| MerkleCollect.NextPieceIsAccepted | x/oracle/types/merkletree.go:201-268 | after any run without a second preimage the next piece with its minimal proof is accepted |
| MerkleCollect.DataIsCollected | x/oracle/types/merkletree.go:201-268 | a run that contains the honest submissions in order, among any others, collects the data |
| MerkleCollect.MinimalProofIsNeeded | x/oracle/types/merkletree.go:328-345 | in any run a submission whose proof lacks a node of its minimal path is rejected: minimal proofs are minimal |
| MerkleRecovery.AlikeStep | x/oracle/types/merkletree.go:201-268 | two trees of which one lacks hashes whose children are known to the other give the same verdict, return the same proof, and stay so |
| MerkleRecovery.RecoveredIsAlike | x/oracle/keeper/feedermanagement/feedermanager.go:1186-1197 | after any run, the tree made from the root, the collected pieces and the stored proof nodes alone is like the live one: the hashes that are not stored are never needed |
| MerkleStore.AddNodesToMerkleTree | x/oracle/keeper/two_phases.go:172-218 | sorting, dropping repeated indices and merging gives an ascending list with the indices of both lists, in which stored nodes are never overwritten |
| MerkleStore.MergeIsUnion | x/oracle/keeper/two_phases.go:191-214 | as a map from indices to hashes it is the union |
| MerkleStore.BlockIsStored | x/oracle/keeper/feedermanagement/feedermanager.go:399-404 | merging the proof nodes that a block's submissions returned brings the store up to what the run persists |
| MerkleStore.GetRawDataPieces | x/oracle/keeper/two_phases.go:109-134 | the stored pieces below the stored index, or an error exactly if one of them is missing |
| MerkleStore.Recover | x/oracle/keeper/feedermanagement/feedermanager.go:1183-1197 | which of the four outcomes recovery has, the missing piece and the nil dereference included; a restored tree has the stored pieces, and the stored proof nodes on top of the root |
| MerkleNode.NodeInStep | x/oracle/keeper/feedermanagement/feedermanager.go:398-428 | for every list of blocks and restarts, with what the end of a block stores or clears: a node panics exactly if pieces are not written and it restarts while some are collected and some are missing; as long as it is up it is like one that never stopped, and its store holds the index, pieces and proof nodes of that one's run; no assumption on the hash function |
| MerkleNode.RestartPanics | x/oracle/keeper/feedermanagement/feedermanager.go:1188-1191 | with no piece written, as in the code, a restart of a node that is up panics if and only if some pieces are collected and some are missing |
| MerkleNode.FirstPieceStrands | x/oracle/keeper/feedermanagement/feedermanager.go:1188-1191 | for any data of several pieces, a block with the first piece and then a restart panics |
| MerkleNode.RestartsAreInvisible | x/oracle/keeper/feedermanagement/feedermanager.go:1173-1199 | if pieces were written no restart would panic; in any case a node that is up gives every submission the verdict and the proof that one that never stopped gives |
| ValidatorSort.SortIndices | utils/utils.go:236-243 | sorts the index slice in place: a permutation, in order |
| ValidatorSort.SortByPower | utils/utils.go:223-255 | an aligned permutation of the (address, key, power) triples; on the returned slices powers fall, and among equal powers the earlier address is equal or smaller at the first byte that differs |
| ByteOrder.ByteLessAtFirstDifference | utils/utils.go:239 | the recursive order of byte strings is the one that decides at the first difference, an end counting as smaller |
| ValidatorSort.SortIsCanonical | utils/utils.go:223-255 | with distinct addresses every permutation of the input has one and the same sorted output, whatever algorithm sorts |
| ValidatorSort.TiedEntriesCanSwap | utils/utils.go:236-243 | entries with equal power and address but different keys can be exchanged in any sorted output |
| ValidatorSort.SortedInOneWay | utils/utils.go:236-243 | the output is determined if and only if entries with equal power and address have equal keys |
| Reward.ToProtoStruct | precompiles/reward/types.go:201-240 | the loop with its running total accepts exactly the lists whose fractions are positive and at most one, whose operators are valid and distinct, and whose rounded shares sum to at most 10^18 units, and returns the shares |
| Reward.AcceptanceIgnoresOrder | utils/utils.go:142-165 | acceptance is the same for every permutation of the list |
| Reward.SharesAt | precompiles/reward/types.go:220-226 | the share of each entry, in the order of the list |
| Reward.ShareIsAtMostOne | precompiles/reward/types.go:220-229 | a rounded proportion is between zero and one |
| Reward.ShareBounds | precompiles/reward/types.go:220-229 | how far the twice rounded quotient can be from the fraction, up and down |
| Reward.AcceptedSumIsNearOne | precompiles/reward/types.go:220-229 | the exact sum of an accepted list of n is at most 1 + n (1/2 + 10^-18) 10^-18 |
| Reward.SumBelowOneIsAccepted | precompiles/reward/types.go:220-229 | an otherwise valid list with exact sum at most 1 - (n/2) 10^-18 is accepted |
| Reward.CoinsToProtoStruct | precompiles/reward/types.go:169-199 | exactly the valid lists of coins are accepted; the result is a permutation of the scaled coins with rising denominations, compared at the first byte that differs |
| Reward.AcceptedCoins | precompiles/reward/types.go:169-199 | the valid lists: no denomination twice, each amount positive, registered, and with a digit within 18 places |
| Reward.CoinAmount | x/feedistribution/types/types.go:913-919 | the scaled amount is amount over the power of ten, cut to 18 digits |
| Reward.CoinsAreCanonical | precompiles/reward/types.go:169-199 | permuted requests are accepted alike and give the identical coins |
| Reward.ScaledIsPositive | x/feedistribution/types/types.go:913-919 | a positive amount stays positive under scaling if and only if it has a digit within 18 places |
| UsdValue.ValuesAreFractions | utils/usd_value.go:6-20 | both values are amount times price over the power of ten of their decimals, cut toward zero at 18 digits, whatever the signs |
| UsdValue.FormulasAgree | utils/usd_value.go:6-20 | the reward formula and the asset formula agree for every price, to the last digit, if and only if scaling by the exponent is exact |
| UsdValue.SmallExponentScalesExactly | utils/usd_value.go:15-20 | which it always is with an exponent of at most 18 |
| UsdValue.SplittingLosesLittle | utils/usd_value.go:6-12 | splitting an amount into n parts never raises the value and loses fewer than n units of 10^-18 |
| JoinedKeys.JoinUndoesSplit | utils/utils.go:55-65 | joining the parsed components gives back every byte string |
| JoinedKeys.SplitUndoesJoin | utils/utils.go:55-65 | parsing gives back the components if and only if there are some and none contains the delimiter |
| JoinedKeys.KeysHaveSlashes | utils/utils.go:55-61 | joined keys are the components with a slash between them, prefix keys end with one |
| JoinedKeys.ParseJoined | utils/utils.go:71-81 | parsing with a count succeeds with the right count only, and gives the components |
| JoinedKeys.PrefixOfComponents | utils/utils.go:55-65 | for any two byte strings: one followed by the delimiter is a prefix of the other if and only if its components are a proper prefix of the other's |
| JoinedKeys.PrefixScan | utils/utils.go:59-61 | a prefix key matches exactly the keys with further components |
| JoinedKeys.AsKeyOfPrepend | utils/store.go:234-253 | the bytes of a prepended key of any depth: prefix, delimiter, key |
| JoinedKeys.AppendKeys | utils/store.go:261-263 | appending concatenates the components, and the bytes around the delimiter, and is associative |
| JoinedKeys.AsKeyIsJoin | utils/store.go:234-242 | flattening a key of any depth is joining its components |
| JoinedKeys.StructuredPrefixScan | utils/store.go:156-159 | the prefix iterator sees exactly the keys whose components extend the prefix, if components have no delimiter |
| StoreScan.GenericIterateStoreWithUpdate | utils/store.go:283-329 | refines a fold over the ascending snapshot of the matching entries: on an error the store is untouched, else exactly the fold's updates are written; what the fold asks and writes is stated by the next rows |
| StoreScan.CallsOfScan | utils/store.go:298-324 | every scan makes a list of calls: for each key in turn the callback gets its own last state, the components of the key and the unmarshalled value, until the keys are used up, one cannot be read, or an answer fails or breaks off |
| StoreScan.ScanMakesCalls | utils/store.go:298-324 | with those calls, the scan fails exactly if its last answer does or a key or value cannot be read, and else ends in the callback's last state |
| StoreScan.ScanWritesChanges | utils/store.go:316-328 | with those calls, each matching key ends up with the marshalled value of its answer if that changed it, updates are on and the scan went on after it, and else with the old one |
| StoreScan.RecordedScan | utils/store.go:283-329 | a callback that records its arguments ends with the tuples of all matching keys and their values, in ascending order of the keys |
| StoreScan.Collect | utils/store.go:298-324 | the first loop collects what the fold changes |
| StoreScan.FoldFails | utils/store.go:299-316 | a scan fails exactly if an entry is reached on which parsing, unmarshalling or the callback fails |
| StoreScan.ScanEffect | utils/store.go:283-329 | the key set never changes, entries outside the prefix stay, and inside exactly the changed entries before a break are overwritten |
| StoreScan.ScanVisitsTuples | utils/store.go:283-329 | a scan by a prefix key visits exactly the stored tuples that extend its components |
| TextCodec.HexRoundTrip | types/keys/consensus.go:277-290 | decoding undoes hex encoding, on all byte strings |
| TextCodec.HexDigitsOfBytes | types/keys/consensus.go:182-187 | the hex form is `0x` and two digits of 0123456789abcdef for each byte, the higher first (section 8 of RFC 4648) |
| TextCodec.HexLettersRead | types/keys/consensus.go:281 | exactly these digits are read, in either case |
| TextCodec.Base64RoundTrip | types/keys/consensus.go:261-271 | decoding undoes base64 encoding (section 4 of RFC 4648), padding included |
| TextCodec.EncodedGroup | types/keys/consensus.go:297 | each four letters of the base64 form are, in the alphabet of section 4 of RFC 4648, the number of their three bytes, with padding for missing ones |
| TextCodec.LineBreaksAreSkipped | types/keys/consensus.go:262 | line breaks do not matter to the decoder |
| ConsensusKey.JsonForm | types/keys/consensus.go:292-304 | the JSON form names the ed25519 type and has the key in base64; a form with another type is not read |
| ConsensusKey.FromJSON | types/keys/consensus.go:93-102 | succeeds exactly if the text holds a key, with formats that all denote it |
| ConsensusKey.FromHex | types/keys/consensus.go:107-116 | succeeds exactly for 66 characters of hex with prefix |
| ConsensusKey.FromTmProtoKey | types/keys/consensus.go:120-132 | succeeds exactly for ed25519 keys |
| ConsensusKey.FromTmKey | types/keys/consensus.go:136-150 | succeeds exactly for ed25519 keys |
| ConsensusKey.FromSdkKey | types/keys/consensus.go:155-171 | succeeds exactly for ed25519 keys |
| ConsensusKey.JsonRoundTrip | types/keys/consensus.go:236-304 | reading the JSON form of a key gives the key |
| ConsensusKey.HexKeyRoundTrip | types/keys/consensus.go:277-290 | reading the hex form succeeds exactly for 32 bytes, and gives the key |
| ConsensusKey.GetKeepsConsistent | types/keys/consensus.go:174-231 | after every getter all filled formats denote the same key |
| ConsensusKey.CallsAreInvisible | types/keys/consensus.go:174-231 | after any sequence of getters every getter replies as it would have at first |
| ConsensusKey.WrongSizeReplies | types/keys/consensus.go:207-231 | after any calls `ToTmKey` returns nil and `ToConsAddr` panics if and only if the key does not have 32 bytes |
| ConsensusKey.WrongSizeIsAccepted | types/keys/consensus.go:93-102 | keys of every size are accepted from JSON, so both occur |
| ConsensusKey.RebuiltKeyIsEqual | types/keys/consensus.go:93-116 | a key rebuilt from its JSON or hex form after any calls equals the original; from hex exactly if it has 32 bytes |
| ConsensusKey.WrappedConsKey.constructor | types/keys/consensus.go:98-101 | holds the given formats |
| ConsensusKey.WrappedConsKey.ToJSON | types/keys/consensus.go:174-179 | fills the format on first use and returns it |
| ConsensusKey.WrappedConsKey.ToHex | types/keys/consensus.go:182-187 | likewise |
| ConsensusKey.WrappedConsKey.ToSdkKey | types/keys/consensus.go:197-204 | likewise; of consistent formats it is the key |
| ConsensusKey.WrappedConsKey.ToConsAddr | types/keys/consensus.go:207-215 | likewise; of consistent formats the address, or the panic exactly if the key does not have 32 bytes |
| ConsensusKey.WrappedConsKey.ToTmKey | types/keys/consensus.go:227-231 | of consistent formats the key, or nil exactly if it does not have 32 bytes |
| Funding.TopUpIsExact | testutil/batch/utils.go:174-187 | an object is topped up to exactly the tokens needed if and only if it has fewer; one with enough is taken for underfunded exactly if its balance cut to 64 bits reads as less |
| Funding.StopsAtTrouble | testutil/batch/utils.go:163-187 | what stops the iteration, and with which outcome: an object that cannot be loaded or whose balance is unknown, or a shortfall of 2^63 tokens or more; never a skipped object |
| Funding.CollectMessages | testutil/batch/utils.go:157-210 | the iteration stops at the first trouble, else delivers: every message has one to `limit` outputs and balanced amounts, and the outputs are the top-ups in order |
| Funding.FundingObjects | testutil/batch/utils.go:145-232 | which outcome is taken (an error before or during the iteration, nothing to fund, an unknown or too small faucet balance, sending with its result), and that what is sent is what was collected |
| Funding.AllTopUpsAreSent | testutil/batch/utils.go:163-205 | every top-up is sent if and only if the last object is fundable or the underfunded objects fill the messages evenly |
| Funding.SkippedLastObject | testutil/batch/utils.go:163-167 | for an underfunded object before a skipped last one no message at all is sent although no error is reported |
| Funding.InputsEqualOutputs | testutil/batch/utils.go:176-203 | what all messages take in is what they give out |
| ChainId.SubmatchesOfSpelled | types/chain_id.go:12-24 | a string that fits the pattern decomposes in one way, which is found |
| ChainId.PrintIsInjective | types/chain_id.go:12-24 | a printed identifier determines its name, number and epoch |
| ChainId.ValidByCharacters | types/chain_id.go:12-33 | an identifier is valid if and only if it has at most 48 characters: letters a to z, an underscore, digits, a dash, digits, no number starting with 0 |
| ChainId.TrimSpaceSplits | types/chain_id.go:38 | every string is its trimmed form with white space before and after, and that form neither starts nor ends with any |
| ChainId.TrimSpaceOf | types/chain_id.go:38 | and there is no other such form |
| ChainId.PaddedParses | types/chain_id.go:37-55 | a printed identifier with any white space around it parses to its number, exactly if it has at most 48 characters itself |
| ChainId.ParseIsInverseOfPrint | types/chain_id.go:37-55 | parsing gives a number if and only if the trimmed string is printed from it and has at most 48 characters; it succeeds exactly on valid identifiers |
| ChainId.RevisionIsDropped | utils/utils.go:286-296 | a dash with a revision number is dropped exactly if before it there is something on one line that does not end with a dash; nothing else is ever dropped |
| ChainId.EpochIsDropped | utils/utils.go:286-296 | of a chain identifier name and number stay; dropping twice is dropping once |

## Left out

- App wiring, command line, keepers, precompile dispatch and generated bindings: delegation with little logic of its own.
- BLS and bech32 precompiles: calls into foreign libraries.
- `utils/key/key.go`: its append may share a backing slice; the structured keys of `utils/store.go` cover the algebra.
- Gas meter, block and integer helpers, metrics: they would only add easy members.
- The panics of the SDK's integers and decimals beyond 256 and 315 bits: numbers are unbounded here.
- Go's `sort.Slice` and `DecCoins.Sort`: modelled by an insertion sort; the canonicity theorems hold for any sorting algorithm.
- `CommonValidation` as a higher-order function: its loop is written out in `Reward.ToProtoStruct` and `Reward.CoinsToProtoStruct` with their closures in place.
- Merkle nodes as linked objects: a node of the map holds the tree below it as a value, and the way along parent pointers is the list `Spine`; in-place update of a node shared by two places is not modelled.
- MerkleBuild.BuildTreeNodes: node indices are unbounded, where those of a tree with about 2^31 leaves or more would wrap around 32 bits.
- MerkleBuild.DeriveMT: the same of its nodes.
- `GetCopy` of trees and proofs.
- MerkleNode.NodeInStep: restarts are between blocks, where the store is committed; rounds that end or are sealed before the data is complete, and a change of the piece size while it is collected, are not modelled.
- MerkleNode.RestartsAreInvisible: that a node never panics is stated for a store that pieces are written to (`writes`), which the code does not do.
- `CountTx`: it returns the counter that `PoolRuns.CountIsExact` is about.
- MerkleCollect.OnlyGenuinePieces: assumes of SHA-256 that no submission of the run exhibits a second preimage, since an unconditional claim would be false of any hash function.
- MerkleCollect.CollectedDataIsGenuine: assumes the same of its run.
- MerkleCollect.NextPieceIsAccepted: assumes the same of its run, since after a second preimage other data may have been collected.
- MerkleCollect.DataIsCollected: assumes the same of its run.
- UsdValue.FormulasAgree: only exponents of at most the sum of the decimals, since the source panics on a negative power of ten.
- ConsensusKey.JsonRoundTrip: assumes that the JSON codec reads back what it writes; the codec itself is not modelled.
- ConsensusKey.WrappedConsKey.ToConsAddr: the address hash is an arbitrary function.
- `EqualsWrapped` with a nil receiver, and nil keys in `Append` and `Prepend`.
- ValidatorSort.SortByPower: takes three slices of one length, as its callers pass; with others the source panics or leaves empty entries.
- StoreScan.GenericIterateStoreWithUpdate: the callback answers from the entry and its own state; a callback that writes the store by itself is not modelled.
- Balance queries, node selection, signing and sending in the batch tool: the balances and the faucet's funds are parameters.
- Reading a piece from a message (`GetPieceWithProof`) beyond whether it is readable.
- Strings are sequences of characters, so lengths count characters and not bytes.
- Concurrent calls: the mempool is driven by one goroutine at a time.
