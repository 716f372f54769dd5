# A verified model of Smaran's version commitments

Smaran (module `samurai`) keeps, for every account, the history of its balances in a layered segment
tree whose batch trees are committed to with KZG vector commitments; the state trie stores one hash per
account that binds the current balance and the top-layer commitment. This project models that system in
Dafny, from the account object that is updated in place, through persistence, cache and the ingestion
pipeline, to the prover and the client that verifies a range of versions, and proves:

- **Incremental commitments.** After any in-order series of leaves, every layer's commitment, which is only
  ever added to, is the commitment to the whole tree computed from scratch, and that tree is the reference
  tree of its batch, in which one can go down from the root to every version (`SegmentTree`, `Descent`,
  `AccountObjects`).
- **Archive, save and load.** For every batch started, the store holds its root and commitment; saving and
  loading is the identity on trees; a cache that evicts anything at any time returns the commitment of the
  uncached run; exactly which bulks of balances do what single updates do (`Accounts`, `AccountCache`, `BulkUpdates`).
- **Which proofs, which nodes.** A range needs at most two proofs per layer; their opened nodes are distinct
  and lie over each version of the range exactly once, if and only if its top-layer batch does not lie
  entirely in the range; the batches with proofs are exactly those that have a version in the range and one
  outside it (`Cover`, `RangeCover`, `Dependencies`, `RequiredCommitments`, `ReplyShape`).
- **Three constructions of one tree.** The trees rebuilt from stored roots and those rebuilt from all leaves
  are both the live ones; the slow path succeeds if and only if no required batch would hold a child batch
  that starts at the current version; both give the same proofs (`StoredTrees`, `ProverTrees`, `RangeProofs`).
- **Soundness and completeness of verification**, end to end from the entry in the state trie to every single
  balance, for balances listed in any order and number; which balances the entry determines at all; for each demand
  on a reply that the program does not make, that it is needed (`VerifierTrees`, `Listed`, `Verification`,
  `Verifier`, `EndToEnd`, `Binding`, `RangeEnds`).
- **Block queries.** The version intervals tile the blocks, the versions returned for a block range are exactly
  those valid at one of its blocks, and the client accepts what the server replies (`VersionSearch`, `Service`).
- **Openings and interpolation.** Over any field, the witness polynomial satisfies its identity if and only if
  the claimed values are those of the committed polynomial; the precomputed weight commitments are those of the
  Lagrange basis (`Polynomials`, `PolynomialDivision`, `Interpolation`).
- **The pipeline.** Every interleaving of producer, commit workers and assembler commits the blocks in order,
  each with the state of the sequential application; none is lost; at the end the trie has for every account touched
  the commitment over all its updates (`Pipeline` and the modules after it).
- **The key directory.** After any mix of calls and for any batch size a user's keys are its puts in order, and
  the trie holds exactly its versions; exactly which replies the client accepts (`Optiks`, `OptiksObjects`,
  `OptiksClient`).
- **The dataset.** Reading gives back what was written, byte for byte, and a range visits exactly the written
  blocks (`DatasetFormat`, `DatasetSegments`, `DatasetObjects`).

## How to read it

`dafny verify dfyconfig.toml` checks everything. The files, in order of dependence:
`Arithmetic`, `Primitives` (hashes, commitments, openings), `Heap`, `Layers` (the reference trees), `Shifts`,
`SegmentTree`, `Descent`, `Accounts`, `Bulk` (`BulkUpdates`), `AccountInfo` (`AccountObjects`), `Cache` (`AccountCache`); `Cover`, `RangeCover`, `Dependencies`,
`Required` (`RequiredCommitments`); `Rebuild`, `Snapshots`, `StoredTrees`, `ProverTrees`, `RangeProofs`, `ReplyShape`; `VerifierTrees`,
`Listed`, `Verification`, `Verifier`, `EndToEnd`, `Binding`, `RangeEnds`,
`VersionSearch`, `Service`; `Pipeline`, `PipelineFlow`, `PipelineSafety`,
`PipelineSteps`, `PipelineRuns`, `PipelineWorkers`, `PipelineMeaning`; `Fields`, `Polynomials`, `PolynomialDivision`,
`Interpolation`; `Encodings`, `TrieKeys`, `Optiks`, `OptiksServer` (`OptiksObjects`), `OptiksClient`;
`DatasetFormat`, `DatasetSegments`, `DatasetFiles` (`DatasetObjects`).

Conventions and idealisations:

- The hub is the reference tree `Layers.FullTree(layer, batch, m)`, a function of the versions present. Every
  construction in the program is proved equal to it.
- A hash is a constructor of a free datatype, so hashing is injective and never yields the all-zero hash; the
  zero hash in a tree is `None`. The encodings that are hashed have the different lengths 56, 48, 64 and 96
  bytes (`internal/tree/balance.go:26-53`), so no two kinds of hash can coincide by encoding.
- A commitment is an element of the free abelian group over the terms value(hash) * W[index]. An equation
  proved there holds in every group and for every choice of the weight commitments. Openings are ideal: the
  pairing check succeeds exactly for the opening that belongs to a commitment and a set of nodes, when the
  committed vector has the claimed values there.
- The batch sizes, the number of layers and the chunk size are the program's (2048, 1365, 4, 64).
- `Updates` is the series of balances of one account; `LeafHashes`, `Superseded` and `Current` say what it
  means. The predicate `Accounts.Saved` says what the records of an account hold after a save; `SaveSaves`
  and `UpdateInMemory` show that every run establishes it.
- Integers are unbounded, but where the program's arithmetic wraps on values that occur, it wraps here too: the
  store key of version 0 (`Accounts.Predecessor`), the bounds of a dataset segment and its last block
  (`DatasetSegments.SegmentEnd`, `DatasetObjects.Reads`).
- All lemmas are written with automatic induction off, so that each induction is visible in its proof.

## Model

| member | source | states |
|---|---|---|
| `Heap.GetAncestors` | internal/tree/helpers.go:56-64 | the list is exactly the proper ancestors of the node, each the parent of the one before, ending at the root |
| `Heap.MerkleFull` | internal/tree/types.go:336-361 | a node of the reference tree holds a hash if and only if every leaf below it is present |
| `Heap.MerkleInjective` | internal/tree/types.go:346-355 | equal hashes at a node force equal leaves below it |
| `Heap.ClimbRepairs` | internal/tree/types.go:346-361 | recomputing ancestors up to the first missing sibling restores the hash equation at every node |
| `Heap.InsertHolds` | internal/tree/types.go:336-361 | inserting a leaf into the tree over any set of leaves gives the tree over the larger set and touches nothing else: the early break never leaves a fillable ancestor empty |
| `Heap.ClimbWritesOnce` | internal/tree/types.go:336-361 | when the leaf was empty before, every node that the walk writes was empty before |
| `Heap.ClimbPairs` | internal/tree/types.go:346-361 | every node that the walk writes ends up with the hash of its two children, the one with the odd index first |
| `Heap.ClimbCommits` | internal/tree/types.go:363-386 | the terms of the nodes written are exactly those that the commitment lacks; no old value has to be subtracted |
| `Heap.MultiExpAgrees` | internal/tree/types.go:367-386 | one multi-exponentiation added to a commitment equals adding its terms one by one |
| `Primitives.CommitReplace` | internal/tree/types.go:316-334 | replacing a stored hash changes the commitment by the difference of the two terms |
| `Primitives.CommitBinding` | internal/proof/verify.go:171-190 | vectors of one length with equal commitments are equal |
| `Primitives.OpensToEntry` | internal/proof/verify.go:171-190 | a commitment to a vector opens at a position to its entry there and to nothing else |
| `Layers.RootFull` | internal/tree/types.go:304-394 | a batch of any layer has a root if and only if all its versions are present |
| `Layers.RootInjective` | internal/tree/types.go:304-394 | equal roots of a batch force equal leaf hashes for all its versions |
| `Layers.NodeInjective` | internal/proof/verify.go:130-140 | equal hashes at a node of a batch tree force equal leaf hashes for every version beneath it, through all lower layers |
| `Layers.SlotsAdd` | internal/tree/types.go:316-334 | adding a version to its predecessors changes one slot of its batch tree, to the hash of the child's new commitment |
| `Descent.BatchTreePairs` | internal/tree/types.go:346-361 | in the tree of a batch every inner node holds the hash of its left and its right child, in this order, or nothing while one is missing |
| `Descent.ChildPlaces` | internal/tree/types.go:304-334 | above layer 1 the leaf of a child batch is the top of its tree, and the slot behind the heap holds the hash of the commitment to its tree as soon as the child has been started |
| `Descent.RootDescends` | internal/tree/types.go:304-394 | going down from the root of a complete batch of any layer, to the left at odd nodes and to the right at even ones, reaches the leaf hash of each of its versions |
| `Shifts.FullTreeShifted` | internal/tree/types.go:304-394 | a batch tree, slots included, depends on the positions of its versions within the batch only, and not on the batch |
| `SegmentTree.CommitWrittenAgrees` | internal/tree/types.go:367-386 | the branch for more than seven written nodes and the branch for fewer give the same commitment |
| `SegmentTree.UpdateLayerHolds` | internal/tree/types.go:304-394 | updating a layer that holds a tree and its commitment gives the tree with the new leaf and slot, and the commitment to it |
| `SegmentTree.ResetHolds` | internal/tree/types.go:275-287 | clearing the batches that start at a version leaves every layer with the tree of that version's batch |
| `SegmentTree.AddLeafHolds` | internal/tree/types.go:256-301 | one in-order insertion keeps every layer equal to the reference tree of its batch, with the commitment to the whole tree |
| `SegmentTree.IncrementalIsFromScratch` | internal/tree/types.go:256-394 | after any number of in-order insertions from any initial trees, every layer's incremental commitment is the commitment to its whole tree computed from scratch |
| `AccountObjects.AccountInfo.Walk` | internal/tree/types.go:336-361 | the in-place walk stores the value and writes exactly the climbed nodes, each with the hash of its left and right child, marks their chunks and returns each written node with its hash |
| `AccountObjects.AccountInfo.StoreSlot` | internal/tree/types.go:316-334 | the slot gets the hash; an existing hash is differenced; the other layers are unchanged |
| `AccountObjects.AccountInfo.UpdateLXTree` | internal/tree/types.go:304-394 | the layer becomes the specified one, the returned commitment is the stored one, the other layers are unchanged |
| `AccountObjects.AccountInfo.StartBatches` | internal/tree/types.go:275-287 | exactly the layers whose batch starts at the version are cleared, with all their chunks marked |
| `AccountObjects.AccountInfo.AddLeafNode` | internal/tree/types.go:256-301 | the whole stack of trees, commitments and marks after the loop over the layers; for versions in order every layer holds the reference tree, every inner node the hash of its left and right child, and the new hash is at its place |
| `AccountObjects.AccountInfo.Update` | internal/tree/types.go:178-235 | the new balance, trees and records after an update, first update included |
| `AccountObjects.AccountInfo.UpdateBulk` | internal/tree/types.go:123-175 | the state and the records after a bulk of any length, round by round; within a round every entry supersedes the same balance |
| `BulkUpdates.BulkExact` | internal/tree/types.go:123-175 | a bulk does what one update for each entry does if and only if it has at most one entry, or two of which the first creates the account or ends a layer-1 batch |
| `BulkUpdates.BulkAfterUpdates` | internal/tree/types.go:123-175 | the same in terms of the number of balances that the account has had |
| `BulkUpdates.MoreDiffers` | internal/tree/types.go:144-163 | any other bulk leaves a version without its history entry |
| `BulkUpdates.BulkCurrent` | internal/tree/types.go:144-153 | the current balance after any bulk is that after one update for each entry |
| `BulkUpdates.RoundOverwrites` | internal/tree/types.go:144-168 | the balance that a round supersedes gets its history entry and its leaf from the last entry of the round |
| `BulkUpdates.RoundTerms` | internal/tree/types.go:166-168 | unless the version starts a batch, the layer-1 commitment after a round has a term for every entry at the one leaf that the round sets, where the tree has the last one only |
| `AccountObjects.AccountInfo.CalculateFinalCommitment` | internal/tree/types.go:238-245 | after any series of updates its left part is the hash of the last balance with its version and block, and its right part the hash of the commitment to the complete tree of the current top-layer batch: a function of the updates alone |
| `AccountObjects.AccountInfo.StoreTree` | internal/tree/persistence.go:75-127 | looping over the marked chunks in any order stores or deletes each of them and leaves the others |
| `AccountObjects.AccountInfo.StoreBatchRecords` | internal/tree/persistence.go:188-261 | commitments and roots of all layers are stored under the keys of the version |
| `AccountObjects.AccountInfo.Save` | internal/tree/types.go:248-253 | the records after a save |
| `AccountObjects.AccountInfo.Load` | internal/storage/account.go:54-74 | the object built from the records has the stored trees and commitments and no marked chunks |
| `Accounts.StoreTreesChunk` | internal/tree/persistence.go:75-127 | after a store every marked chunk reads back as the tree's chunk, an empty one through its absence, and every other chunk as before; a marked chunk is in the store if and only if it is not empty |
| `Accounts.NodeStored` | internal/tree/persistence.go:75-127 | node i of a stored tree is entry i % 64 of its chunk i / 64 |
| `Accounts.LoadStoredTree` | internal/tree/persistence.go:75-184 | save followed by load is the identity on trees when unmarked chunks agree with the store |
| `Accounts.LoadAfterSave` | internal/tree/persistence.go:75-230 | save followed by load gives back the balance, every tree and every commitment, version 0 with its wrapped key included |
| `Accounts.UpdateChunks` | internal/tree/types.go:256-394 | an update keeps the agreement of unmarked chunks with the store: every node that changes is in a marked chunk |
| `Descent.NewMarks` | internal/tree/types.go:336-361 | a chunk that an insertion marks anew holds a node on the way from the new leaf to the root, or the slot, unless the batch starts with the version |
| `Accounts.UpdateState` | internal/tree/types.go:178-235 | an update takes the state of a series of updates to the state of the longer series |
| `Accounts.UpdateArchive` | internal/tree/types.go:200-235 | an update keeps the archive: every superseded version has its history entry, every completed batch of every layer its root and commitment |
| `Accounts.UpdateStarted` | internal/tree/persistence.go:188-204 | commitments are stored for started batches only, apart from the wrapped key of version 0 |
| `Accounts.UpdateInMemory` | internal/tree/types.go:178-235 | an update keeps everything that is known of an account in memory |
| `Accounts.SaveSaves` | internal/tree/types.go:248-253 | a save establishes everything that is known of a saved account |
| `Accounts.StateCommitment` | internal/tree/types.go:238-245 | the committed hash depends on the account's updates alone |
| `AccountCache.Cache.Evict` | internal/storage/cache.go:26-28 | an evicted account is saved; what is known of every account is kept |
| `AccountCache.Cache.Fetch` | internal/storage/cache.go:39-50 | a cached, loaded or new account has the state of its updates |
| `AccountCache.Cache.CreateOrUpdate` | internal/storage/account.go:49-84 | whichever account is evicted, the returned hash is that of the account's own updates; one account is evicted if and only if the cache would overflow, and the records of accounts that stay in it, or were not in it, do not change |
| `AccountCache.Cache.Close` | internal/storage/cache.go:62-65 | after the flush the records alone determine every account |
| `AccountCache.UncachedCommitment` | internal/storage/cache.go:39-59 | the run without a cache commits to the same hash |
| `Cover.CoverExact` | internal/proof/proof.go:442-462 | the covering nodes lie over each leaf of [L, R] exactly once and over no other leaf, for any number of leaves |
| `Cover.CoverDisjoint` | internal/proof/proof.go:442-462 | their subtrees share no leaf |
| `Cover.CoverTwoPerLevel` | internal/proof/proof.go:442-462 | at most two of them are on any level of the heap |
| `Cover.FindCoveringNodes` | internal/proof/proof.go:442-462 | the loop terminates with an exact, duplicate-free cover inside the heap, two nodes per level at most |
| `RangeCover.FragmentsCount` | internal/proof/proof.go:339-390 | a version is in exactly one fragment of the range, or in none when its top-layer batch lies entirely in the range or it is outside |
| `RangeCover.FragmentsShape` | internal/proof/proof.go:339-390 | each fragment is made of whole child batches inside one batch that contains an end of the range, and no batch occurs twice |
| `RangeCover.FragmentCover` | internal/proof/proof.go:393-439 | the opened covering nodes of a fragment have exactly its versions beneath them, each beneath one |
| `Dependencies.AddDependencyCommitments` | internal/proof/proof.go:291-335 | the work list terminates; the result is the closure under parents; each entry has its own range and lists exactly its required children, each once |
| `RequiredCommitments.FindCommitmentsCoveringRange` | internal/proof/proof.go:283-288 | the required commitments of a range |
| `RequiredCommitments.RequiredAtEnd` | internal/proof/proof.go:291-390 | every required commitment is of the batch of the first or of the last version |
| `ReplyShape.RequiredExactly` | internal/proof/proof.go:283-390 | the required commitments are exactly those of the batches, of any layer, that have a version in the range and one outside it |
| `ReplyShape.RequiredRange` | internal/proof/proof.go:339-390 | the range of a required commitment holds exactly the versions whose batch at its layer does not lie in the range while the one at the layer below does |
| `RequiredCommitments.ConstantProofCount` | internal/proof/proof.go:291-390 | at most two proofs per layer are required, however long the range |
| `RequiredCommitments.ParentRequired` | internal/proof/proof.go:303-328 | the parent of a required commitment below the top layer is required and lists it |
| `RequiredCommitments.RequiredNodes` | internal/proof/proof.go:393-439 | the nodes opened for a commitment are distinct and below the tree size |
| `RequiredCommitments.FindNodesToInterpolate` | internal/proof/proof.go:393-439 | slots of the dependents, then the cover of the fragment in the batch's own leaf numbers |
| `RequiredCommitments.EndToEndCover` | internal/proof/proof.go:283-462 | a version is beneath exactly one opened node of exactly one required commitment if and only if it is in the range and its top-layer batch is not entirely in it |
| `Rebuild.UpdateLXTree` | internal/proof/rebuildproof.go:199-218 | the in-place update of a layer's tree without commitments is the specified insertion |
| `Rebuild.AddLeafNode` | internal/proof/rebuildproof.go:163-196 | the trees of all layers after a leaf |
| `Rebuild.AddBareLeafHolds` | internal/proof/rebuildproof.go:163-196 | in-order insertion from any first version keeps every layer equal to the reference tree over the versions seen |
| `Rebuild.BareAddedPairs` | internal/proof/rebuildproof.go:199-218 | in these trees every inner node holds the hash of its left and right child, and the new hash is at its place |
| `Rebuild.FinalBatch` | internal/proof/rebuildproof_old.go:64-76 | a tree copied when its batch is complete, or after the last version, is the tree over all versions |
| `Snapshots.CopyFinished` | internal/proof/rebuildproof_old.go:64-76 | exactly the required batches that the version completes are copied |
| `Snapshots.CopiedStep` | internal/proof/rebuildproof_old.go:64-76 | the copies made so far are the trees over all versions, one for each required batch finished |
| `StoredTrees.StoredBatch` | internal/tree/persistence.go:188-270 | for every batch started, a saved account's records hold its root and the commitment to its complete tree |
| `StoredTrees.UpdateBatchTree` | internal/proof/rebuildproof.go:121-136 | the in-place insertion into a batch tree |
| `StoredTrees.BuildLeafBatch` | internal/proof/rebuildproof.go:54-86 | a layer-1 tree built from history entries, clamped to the last one, is the live tree |
| `StoredTrees.InsertCommitmentHashes` | internal/proof/rebuildproof.go:138-160 | it succeeds if and only if all commitments up to the latest child batch are stored, and then fills exactly these slots |
| `StoredTrees.BuildRootBatch` | internal/proof/rebuildproof.go:92-107 | an upper tree built from stored roots is the live tree without slots |
| `StoredTrees.StoredSlotsAll` | internal/proof/rebuildproof.go:138-160 | slots filled from the stored commitments are those of the complete tree |
| `ProverTrees.RebuildSegmentTreeForProof` | internal/proof/rebuildproof.go:28-118 | the fast path returns exactly the required trees, each the complete reference tree, the balances of the range and only authentic cached commitments |
| `ProverTrees.SlowFinds` | internal/proof/rebuildproof_old.go:182-203 | the slow path finds all commitments it looks for if and only if no child batch of the required batch starts at the current version |
| `ProverTrees.OldRebuildSegmentTreeForProof` | internal/proof/rebuildproof_old.go:21-102 | the slow path succeeds if and only if that holds for every required batch, and then returns the same trees and balances |
| `ProverTrees.SlowPathSucceeds` | internal/proof/rebuildproof_old.go:182-203 | it always succeeds when the version is not a multiple of the layer-1 batch size |
| `RangeProofs.GetProofRange` | internal/proof/proof.go:151-280 | one proof for each required commitment, of the complete tree, with the stored commitment; the same for both paths; the path that rebuilds from leaves fails only when a commitment that it looks for does not exist |
| `ReplyShape.HonestDescribes` | internal/proof/proof.go:264-274 | the range of each proof holds exactly the versions of the query that belong to its batch, and its dependents are exactly the child batches of which the reply has a proof, each once |
| `RangeProofs.SameProofs` | internal/proof/proof.go:145-162 | two replies for one range contain the same proofs, whatever path and order produced them |
| `RangeProofs.SlowPathFails` | internal/proof/rebuildproof_old.go:182-203 | with 2049 updates and the range of version 0 alone, a required batch holds the child batch that starts at the current version, and so the slow path fails |
| `VerifierTrees.RebuildSegmentTreeForVerify` | internal/proof/rebuildverify.go:14-79 | for balances in any order and number the client's trees are the copies of the replayed trees, with the supplied commitments in the slots; it stops if and only if a required proof below the top layer is missing |
| `VerifierTrees.TreesInOrder` | internal/proof/rebuildverify.go:30-52 | for the balances of a range in order, the copies are exactly one for each required batch, each the reference tree over the supplied leaves |
| `VerifierTrees.CopiedExactly` | internal/proof/rebuildverify.go:30-52 | a batch is copied if and only if it is required and some listed balance of it is the last listed or precedes a version of another batch; its tree is the one after the last such balance |
| `Listed.ReplayListed` | internal/proof/rebuildverify.go:30-52 | whatever is listed, every hash in the replayed trees is made of listed balances |
| `Listed.NodeListed` | internal/proof/rebuildverify.go:30-52 | a node of a batch tree that is made of listed balances has, for every version beneath it, a listed balance, through all lower layers |
| `Listed.RepeatedFirst` | internal/proof/rebuildverify.go:30-52 | any number of further balances of the first version in front of a list leave no trace in the client's trees |
| `Verification.Authentic` | internal/proof/verify.go:94-168 | in an accepted reply every commitment above a version is authentic if that of its top-layer batch is, by induction down the layers, whatever balances are listed |
| `Verification.SoundAt` | internal/proof/verify.go:94-168 | then the balance of the version, in a list in order, is the committed one, unless its whole top-layer batch lies in the range |
| `Verification.Sound` | internal/proof/verify.go:94-168 | so the balances are exactly the account's history of the range |
| `Verification.ListedSoundAt` | internal/proof/verify.go:94-168 | in a list in any order and number, for a range that ends before the current version, the account's balance of the version is among those listed |
| `Verification.ListedSound` | internal/proof/verify.go:94-168 | such a list has at least as many balances as the range has versions, and it is a permutation of the account's history of the range if and only if it has no more |
| `Verification.NotLookedAt` | internal/proof/verify.go:94-168 | the exception is exact: the checks do not depend on a balance whose top-layer batch lies entirely in the range |
| `Verification.OpenedNodeAgrees` | internal/proof/verify.go:130-140 | every opened node, rebuilt from the leaves of the range alone, holds a hash, the one in the prover's node |
| `Verification.Complete` | internal/proof/verify.go:94-168 | honest proofs and balances pass every check, for every range of the history |
| `Verifier.ParentHandled` | internal/proof/verify.go:101-113 | the exit for commitments that are not verified never fires |
| `Verifier.CheckAnchor` | internal/proof/verify.go:39-87 | the decision about the trie proof, in all cases of the reply |
| `EndToEnd.AcceptedWithNodes` | internal/proof/verify.go:39-57 | an accepted reply has trie nodes if and only if the client has a state root, and then the account was found and the reply has a current balance |
| `EndToEnd.AnchorExact` | internal/proof/verify.go:39-87 | with the account's entry in the trie, the check passes if and only if there are trie nodes, the current balance is the account's and, above version 0, the compared commitment is the current one of the top layer |
| `EndToEnd.CommitmentOnlyExact` | internal/proof/verify.go:62-72 | a reply without balances is accepted with the account's entry if and only if the account is at version 0 or the reply is one top-layer proof with the current top-layer commitment |
| `Verifier.MissingLowerStops` | internal/proof/rebuildverify.go:56-61 | without the proof of a required batch below the top layer the program stops |
| `Verifier.LastTopFirst` | internal/proof/verify.go:115-140 | the top-layer batch of the last version is checked first: without its proof the reply is rejected, and with a proof but no balance of it the program stops |
| `Verifier.MissingTopsRejected` | internal/proof/verify.go:101-113 | without any top-layer proof, when none is missing below, the reply is rejected |
| `Verifier.StrayBalancesStop` | internal/proof/verify.go:115-140 | with all proofs, but no balance listed of any required top-layer batch, the program stops |
| `Verifier.AcceptedOpening` | internal/proof/verify.go:130-168 | in an accepted reply the opening of every required batch belongs to its commitment and to exactly the nodes to be opened |
| `Verifier.VerifyNewRangeProofs` | internal/proof/verify.go:36-169 | the verdict on every reply, whatever balances it lists: accepted if and only if the anchor and all checks pass; a stop if and only if a required lower proof is missing or the first check to fail, from the top layer down, is of a batch that no listed balance completes; an error otherwise |
| `EndToEnd.AnchorBinds` | internal/proof/mpt.go:96-112 | the anchor check binds the current balance and the top-layer commitment |
| `EndToEnd.AnchoredSound` | internal/proof/verify.go:36-169 | an accepted reply tied to the account's trie entry that is bound at every version of the range and lists the balances in order has the account's current balance and exactly its history of the range, if the range contains no complete top-layer batch |
| `EndToEnd.AnchoredSoundAt` | internal/proof/verify.go:36-169 | the same at one version, whatever the range: it is enough that the current version is above 0 and that the proof used for the version's own top-layer batch carries the commitment of the first top-layer proof |
| `EndToEnd.AnchoredListedAt` | internal/proof/verify.go:36-169 | for balances in any order and number, the account's balance of a version of the current top-layer batch is among those listed, if the reply is bound there and the range ends before the current version |
| `EndToEnd.AnchoredListed` | internal/proof/verify.go:36-169 | for a range within the current top-layer batch such a list has at least as many balances as the range has versions, and with no more it is the account's history of the range in some order |
| `EndToEnd.HonestBoundExact` | internal/proof/verify.go:75-99 | an honest reply that is accepted is bound at exactly the versions of the account's current top-layer batch |
| `Binding.EntryDeterminesCurrentTop` | internal/tree/types.go:238-245 | the account's entry in the state trie determines the balance of a superseded version if and only if the version lies in the current top-layer batch |
| `Binding.TreeInjective` | internal/tree/types.go:304-394 | equal batch trees, complete or not, have equal versions, through the commitments in their slots |
| `Binding.BindingNeeded` | internal/proof/verify.go:62-99 | for every account, range and version whose top-layer batch does not lie in the range, and for either demand made or not: accepted replies determine the balance of an account at version 0 if and only if a current version above 0 is demanded, and of any other account if and only if it is demanded that the top-layer proof used carries the commitment of the first one |
| `Binding.VersionZeroMisleads` | internal/proof/verify.go:62-65 | at version 0 some reply with a wrong balance is accepted although the top-layer proof used is the first one |
| `Binding.UnboundTopMisleads` | internal/proof/verify.go:75-99 | for any other account some reply with a wrong balance is accepted although the current version is above 0 |
| `Binding.PaddingIgnored` | internal/proof/rebuildverify.go:30-52 | any number of wrong balances of the first version in front of the history of a range leaves every verdict as it is |
| `Binding.CountExact` | internal/proof/rebuildverify.go:30-52 | for every range within the current top-layer batch that ends before the current version and every number of balances: accepted replies that are bound list the account's balances only, if and only if they list no more balances than the range has versions |
| `RangeEnds.FewDetermineExact` | internal/proof/verify.go:36-169 | for every range within the current top-layer batch: accepted replies that are bound and list at most as many balances as the range has versions list the account's balances only, if and only if the range ends before the current version or needs a batch that has not been started |
| `RangeEnds.StartedMisleads` | internal/proof/verify.go:94-168 | for any other range that reaches the current version some such reply lists a wrong balance |
| `RangeEnds.AcceptedStarted` | internal/proof/verify.go:94-168 | in an accepted reply with balances that is bound throughout every required batch has been started |
| `Binding.VersionZeroUnbound` | internal/proof/verify.go:62-65 | an account at version 0: the proofs and balances of any other history are accepted with its trie entry |
| `Binding.FirstTopUnbound` | internal/proof/verify.go:75-99 | any other account: with its top-layer commitment in front, the proofs and balances of any other history are accepted |
| `EndToEnd.HonestReplyExact` | internal/proof/verify.go:36-169 | the prover's reply for any range of the history is accepted with the account's trie entry if and only if its first top-layer proof is that of the current batch |
| `EndToEnd.OldRangeRejected` | internal/proof/verify.go:75-85 | so the prover's reply for a range before the current top-layer batch is rejected |
| `EndToEnd.HonestReplyAccepted` | internal/proof/verify.go:36-169 | the prover's reply for a range within the current top-layer batch, and not all of it, is accepted and bound throughout |
| `EndToEnd.HonestProofsAccepted` | internal/proof/verify.go:36-169 | without a state root the prover's reply is accepted for every range of the history |
| `VersionSearch.Tiling` | internal/proof/proof.go:60-79 | exactly one version is valid at every block from the first update up to the current balance, and none at other blocks |
| `VersionSearch.BinarySearchVersionByBlockNumber` | internal/proof/proof.go:60-79 | the search terminates and finds a version of the search range valid at the block if there is one |
| `VersionSearch.BlockRangeToVersionRange` | internal/proof/proof.go:85-129 | the versions returned are exactly those valid at some block of the range; the errors are exactly those for an account without history and a range outside it; for a range that ends before it starts, the version valid at both ends, if there is one |
| `VersionSearch.GenerateProof` | internal/server/server.go:72-181 | the reply to every query, backward ones included: errors, current balance, the top-layer proof with its batch, or the current balance with honest proofs, which describe themselves, and balances for exactly the versions valid in the block range; a stop only of the leaf-rebuilding path and only when a commitment that it looks for does not exist |
| `Service.VersionSpan` | cmd/proofc/main.go:525-537 | the smallest and the largest version listed |
| `Service.VerifyResponse` | cmd/proofc/main.go:514-549 | a reply is verified for the range from the smallest to the largest version that it lists |
| `Service.TopOnlyAccepted` | internal/proof/verify.go:66-72 | the server's reply with the latest top-layer commitment is accepted with the account's entry |
| `Service.CurrentOnlyAccepted` | internal/proof/verify.go:62-65 | so is the current balance alone, for an account at version 0 |
| `Service.FullRangeAccepted` | internal/proof/verify.go:36-169 | a full-range reply is verified for its own versions, and accepted if they are within the current top-layer batch |
| `Service.QueryAndVerify` | cmd/proofc/main.go:469-549 | query and verification together: what the server replies the client accepts |
| `VersionSearch.SameVersions` | internal/server/server.go:117-150 | the server and BlockRangeToVersionRange give the same versions |
| `PipelineFlow.LedgerAccount` | internal/ingest/ingest.go:61-162 | the sequential ledger of an account is a function of the account's own events |
| `PipelineFlow.SequentialStep` | internal/ingest/ingest.go:353-359 | a sequential block sets an account to the last value that its worker sends for the block |
| `PipelineSafety.BlockProgramBlocks` | internal/ingest/ingest.go:658-714 | a block gives rise to exactly as many messages as its announcement says |
| `PipelineSteps.FlowWorkOwn` | internal/ingest/ingest.go:80-145 | a worker's step moves the account's event from its queue to its handled ones, with the worker's state and messages |
| `PipelineSteps.FlowWorkOther` | internal/ingest/ingest.go:80-145 | a worker sends nothing about accounts of other shards |
| `PipelineRuns.FlowDelivers` | internal/ingest/ingest.go:240-300 | when nothing for a block is under way, the messages received say of every account exactly what the block does to it |
| `PipelineRuns.CreateMeansComplete` | internal/ingest/ingest.go:320-332 | a block is built only when it was announced and all its messages have arrived |
| `PipelineRuns.PipelineRefinesSequential` | internal/ingest/ingest.go:61-408 | in every state of every run the blocks built are the first ones, in order and each once, each with the state of the sequential application |
| `PipelineRuns.NothingLost` | internal/ingest/ingest.go:61-408 | when no process can take a step, every block has been built; neither the guard on the number of waiting blocks nor the 100 places of the channel of announcements can hold a block up for ever |
| `PipelineMeaning.BuiltHolds` | internal/ingest/ingest.go:658-723 | in every state of every run, each block built holds for every account: what it had before its first entry, the balance of its last entry if no block has recorded commitments since, or the commitment over all its updates so far |
| `PipelineMeaning.BlockValues` | internal/ingest/ingest.go:658-714 | the last block and every 7240th one has the commitment, over all updates so far, of every account with an entry in it or since the previous such block; any other block has the balance of the account's last entry in it |
| `PipelineMeaning.FinalValues` | internal/ingest/ingest.go:61-408 | at the end of a run the trie has for every account touched in it the commitment over all its updates, those before the run and those of the run, and for any other account what it had |
| `PipelineMeaning.QueuedAtShard` | internal/ingest/ingest.go:664-672 | the updates of an account are in the queue of the worker that its address gives |
| `PipelineWorkers.CommitWorker.HandleTask` | internal/ingest/ingest.go:71-145 | a worker's in-place step, with its cache, is the specified step and sends the specified messages |
| `PipelineWorkers.MptWorker.MaybeCreateNewBlock` | internal/ingest/ingest.go:312-408 | a block is built if and only if it is buffered and complete, with the specified new state |
| `PipelineWorkers.MptWorker.TakeMessage` | internal/ingest/ingest.go:249-303 | a message is buffered and counted, then all complete blocks are built |
| `PipelineWorkers.MptWorker.TakeInfo` | internal/ingest/ingest.go:226-247 | an announcement is recorded, then all complete blocks are built |
| `Polynomials.SubtractPolys` | internal/crypto/kzg/helpers.go:64-81 | the difference takes the difference of the values at every point, whatever the lengths |
| `Polynomials.MultiplyLinear` | internal/crypto/kzg/helpers.go:14-22 | one round multiplies the values by t - x and keeps the leading coefficient |
| `Polynomials.VanishingPolynomial` | internal/crypto/polynomial/polynomial.go:99-115 | the polynomial is monic, takes the product of t - x at every t, and vanishes exactly at the given points |
| `Polynomials.TooManyRoots` | internal/crypto/kzg/helpers.go:83-103 | a polynomial that vanishes at as many distinct points as it has coefficients is zero |
| `Polynomials.SyntheticDivide` | internal/crypto/kzg/barycentric4096.go:96-108 | the in-place loop computes the quotient of P by X - a |
| `Polynomials.SyntheticIdentity` | internal/crypto/kzg/barycentric4096.go:94-108 | P = quotient * (X - a) + P(a) at every point |
| `PolynomialDivision.SyntheticCoefficients` | internal/crypto/kzg/barycentric4096.go:94-108 | the same identity coefficient by coefficient |
| `PolynomialDivision.DivisionRound` | internal/crypto/kzg/helpers.go:91-101 | a round keeps num = q * denom + rem, in coefficients and values, and lowers the degree of the remainder by one |
| `PolynomialDivision.PolyDiv` | internal/crypto/kzg/helpers.go:84-103 | num = q * denom + rem coefficient by coefficient and at every point, with rem shorter than denom when denom has a leading coefficient |
| `PolynomialDivision.ExactQuotient` | internal/crypto/kzg/helpers.go:83-103 | the division by a vanishing polynomial is exact, coefficient by coefficient, when the dividend vanishes at the points |
| `PolynomialDivision.OpeningQuotient` | internal/proof/proof.go:241-260 | the witness satisfies P - I = Q * Z if and only if I agrees with P at the opened points, and then coefficient by coefficient |
| `PolynomialDivision.QuotientMeansAgreement` | internal/proof/verify.go:171-190 | any Q with P - I = Q * Z forces P and I to agree where Z vanishes |
| `Interpolation.Interpolate` | internal/crypto/kzg/helpers.go:27-61 | for distinct points the result takes the given values there |
| `Interpolation.InterpolantUnique` | internal/proof/proof.go:250-257 | values at as many distinct points as coefficients determine the polynomial, so all ways of interpolating agree |
| `Interpolation.DerivativeIsQuotient` | internal/crypto/kzg/barycentric4096.go:143-157 | the derivative of P takes at a the value of the quotient of P by X - a |
| `Interpolation.PowersDistinct` | internal/crypto/polynomial/polynomial.go:99-104 | the powers of a root of unity below its order are distinct |
| `Interpolation.LagrangeBasis` | internal/crypto/kzg/barycentric4096.go:110-173 | the polynomials committed to as weight commitments are one at their own power of omega and zero at the others |
| `Interpolation.CombinationInterpolates` | internal/tree/types.go:363-386 | adding up values times basis polynomials gives the polynomial that takes these values, the same as any interpolation of them |
| `TrieKeys.EqualKeysExact` | internal/kt/optiks.go:431-440 | two keys are equal if and only if the longer user extends the shorter one by some bytes, perhaps none, and the version of the shorter one, shifted by their number, is the number written by these bytes and the version of the longer one; for all versions of 64 bits |
| `TrieKeys.ShareKeyExact` | internal/kt/optiks.go:431-440 | different users share a key at versions from 1 to 2^56 - 1 if and only if one of them is the other followed by a zero byte and at most five more bytes |
| `TrieKeys.TrieKeyInjective` | internal/kt/optiks.go:431-440 | for such versions users that are not so related have different keys for different users or versions |
| `TrieKeys.ShadowVersions` | internal/kt/optiks.go:431-440 | the versions at which users that are so related share a key |
| `TrieKeys.NulFreeSeparate` | internal/kt/optiks.go:431-440 | no user without zero bytes is so related to another such user |
| `TrieKeys.TrieKeysCollide` | internal/kt/optiks.go:431-440 | without the bound on versions a user, and the user followed by any byte, share keys |
| `Optiks.RecordDescribes` | internal/kt/optiks.go:352-371 | one update keeps the tables of all users in agreement with the updates applied |
| `Optiks.TrieExact` | internal/kt/optiks.go:373-402 | the trie holds exactly the versions 1..n of a user, with their epochs and keys, and never version n + 1 |
| `Optiks.VersionValue` | internal/kt/optiks.go:373-402 | after any puts the value of version i of a user is the epoch of its i-th put, in eight bytes, most significant first, followed by its key |
| `Optiks.HistoryKeys` | internal/kt/optiks.go:352-371 | the keys in a user's history are those put for it, in order |
| `Optiks.HistoryAscends` | internal/kt/optiks.go:342-363 | the epochs of a user's updates never decrease |
| `OptiksObjects.ComputeCommonProofPrefix` | internal/kt/optiks.go:298-333 | the result is the longest common prefix of all proofs |
| `OptiksObjects.StripThenPrepend` | cmd/ktbench/main.go:566-574 | putting the stripped prefix back restores the proof |
| `OptiksObjects.OptiksServer.ApplyUpdates` | internal/kt/optiks.go:338-409 | all buffered pairs are applied in order at the next epoch, to the tables and to the trie |
| `OptiksObjects.OptiksServer.Put` | internal/kt/optiks.go:170-183 | the pair joins those put; the buffer is flushed exactly when it reaches the batch size |
| `OptiksObjects.OptiksServer.GetCommitment` | internal/kt/optiks.go:188-203 | the root is that of the trie after all puts so far |
| `OptiksObjects.OptiksServer.ProveVersions` | internal/kt/optiks.go:232-266 | the proofs with the prefix restored are those of the trie for versions 1..n and n + 1, and the prefix is the longest one common to all of them |
| `OptiksObjects.OptiksServer.Get` | internal/kt/optiks.go:209-291 | old keys followed by the current one are exactly the keys put for the user, in order, for every batch size and every sequence of calls; the proofs are those of the trie, without their longest common prefix |
| `OptiksClient.VerifyOptiksResult` | cmd/ktbench/main.go:520-562 | the client's verdict: version n + 1 proved absent and every version with a proof proved present |
| `OptiksClient.AcceptedExactly` | cmd/ktbench/main.go:520-562 | a reply is accepted if and only if its proofs are valid and the user's number of updates lies between its number of proofs and the version it claims |
| `OptiksClient.AcceptedVersionRight` | cmd/ktbench/main.go:520-562 | with one proof for each claimed version, only the right version is accepted |
| `OptiksClient.HighClaimAccepted` | cmd/ktbench/main.go:520-562 | with proofs for any number of versions that is not too high, every claim that is not too low is accepted, since the client does not compare the two numbers |
| `OptiksClient.PossibleExactly` | cmd/ktbench/main.go:520-562 | accepted replies with k proofs that claim version n leave open exactly the numbers of updates from k to n |
| `OptiksClient.CountDecides` | cmd/ktbench/main.go:520-562 | so, for every number of proofs up to the claim, accepted replies determine the version if and only if the two are equal |
| `OptiksClient.ServerReplyAccepted` | cmd/ktbench/main.go:520-562 | what the server replies is accepted |
| `Encodings.UvarintRoundTrip` | internal/dataset/writer.go:113-121 | reading an encoded 64-bit number gives it back with its length |
| `Encodings.UvarintAt` | internal/dataset/writer.go:113-121 | each byte of an encoded number holds seven bits of it, the lowest first, and its high bit is set in all bytes but the last |
| `DatasetFormat.BlockRoundTrip` | internal/dataset/reader.go:162-196 | decoding an encoded block gives back its entries |
| `DatasetFormat.BlockHeader` | internal/dataset/writer.go:104-109 | a block starts with its number of entries in four bytes, the least significant one first |
| `DatasetFormat.BlockEntry` | internal/dataset/writer.go:111-126 | an entry is the 20 bytes of its address, the encoded length of its balance and the balance, at the position that the entries before it determine |
| `DatasetFormat.BlockLength` | internal/dataset/writer.go:104-126 | nothing else is in a block |
| `DatasetFormat.IndexByte` | internal/dataset/writer.go:134-143 | each entry of the index is the number of bytes before its block in eight bytes, the least significant one first |
| `DatasetFormat.StoredOffset` | internal/dataset/writer.go:134-143 | position i of the index holds the number of bytes before block i |
| `DatasetFormat.StoredBlock` | internal/dataset/reader.go:140-160 | the bytes between two consecutive offsets are those of the block |
| `DatasetSegments.WrittenIsKept` | internal/dataset/writer.go:23-41 | after any appends in increasing order block n holds what was kept of it, where a block is kept if it starts its segment or follows a kept block of it |
| `DatasetSegments.ConsecutiveKept` | internal/dataset/writer.go:23-41 | blocks appended one after the other from the start of a segment are all kept |
| `DatasetSegments.ReopenedEmpty` | internal/dataset/writer.go:23-94 | an append to a segment that is not the open one leaves that segment with its first block or with none, whatever was in it |
| `DatasetSegments.VisitsExactly` | internal/dataset/reader.go:31-67 | a range visits exactly its written blocks, in ascending order |
| `DatasetSegments.ZeroSegment` | internal/dataset/reader.go:117-123 | segment 0 exists without blocks exactly when the first append was to a later block of it |
| `DatasetObjects.SegmentWriter.AppendBlock` | internal/dataset/writer.go:96-147 | a block that is next in its segment extends both files as the format says; any other is refused without a change |
| `DatasetObjects.DatasetWriter.AppendBlock` | internal/dataset/writer.go:23-41 | the new files and the verdict, a segment opened anew included |
| `DatasetObjects.OpenSegmentReader` | internal/dataset/reader.go:85-130 | the offsets and the last block of the segment, wrapped for an empty segment at 0 |
| `DatasetObjects.RunBounded` | internal/dataset/reader.go:117-141 | appends in increasing order leave segments within 32-bit bounds, and an empty segment 0 if and only if the first append was to a later block of it |
| `DatasetObjects.DatasetReader.GetBlock` | internal/dataset/reader.go:22-28 | reading a block gives what was written as it; the program stops if and only if the block is in an empty segment 0, and otherwise refuses a block that was not written |
| `DatasetObjects.DatasetReader.IterateRange` | internal/dataset/reader.go:31-67 | the written blocks of the range are visited in order and once, up to the first segment without files, and how the iteration ends, for every range of 32-bit numbers: it stops the program if and only if the range starts in an empty segment 0; at the end of the 32-bit numbers it may end with an error, start again at block 0, or repeat a round for ever |
| `DatasetObjects.RestartsForEver` | internal/dataset/reader.go:61-64 | an iteration that starts again at block 0 never ends if and only if all segments before the range have files and segment 0 is not empty |

## Findings

Where the program does not do what its use suggests, a lemma shows it and another one says exactly when.

| lines | what happens | shown by | exactly when |
|---|---|---|---|
| internal/proof/verify.go:62-65 | for a current balance of version 0 the trie is compared with the zero commitment, and proofs and balances in the reply are not tied to it | `Binding.VersionZeroUnbound`, `Binding.VersionZeroMisleads` | `Binding.BindingNeeded` |
| internal/proof/verify.go:75-99 | the first top-layer proof is compared with the trie, but the last proof for each batch is used | `Binding.FirstTopUnbound`, `Binding.UnboundTopMisleads` | `Binding.BindingNeeded`, `EndToEnd.HonestBoundExact` |
| internal/tree/types.go:238-245 | the entry in the state trie says nothing about balances of older top-layer batches | `Binding.OldUndetermined` | `Binding.EntryDeterminesCurrentTop` |
| internal/proof/verify.go:75-85 | honest replies for older top-layer batches are rejected | `EndToEnd.OldRangeRejected` | `EndToEnd.HonestReplyExact` |
| internal/proof/proof.go:384-387 | versions whose whole top-layer batch lies in the range are not checked | `Verification.NotLookedAt` | `EndToEnd.AnchoredSoundAt` |
| internal/proof/rebuildverify.go:30-52 | balances may be listed more than once, and then wrong ones are accepted beside the right one | `Binding.PaddingIgnored` | `Binding.CountExact` |
| internal/proof/verify.go:94-168 | for a range that reaches the current version, wrong balances can be accepted although no more are listed than the range has versions | `RangeEnds.StartedMisleads` | `RangeEnds.FewDetermineExact` |
| internal/proof/rebuildproof_old.go:182-203 | the slow path looks for the commitment of a child batch that does not exist yet | `RangeProofs.SlowPathFails` | `ProverTrees.SlowFinds` |
| internal/kt/optiks.go:431-440 | different users and versions can share a trie key | `TrieKeys.ShadowVersions`, `TrieKeys.TrieKeysCollide` | `TrieKeys.ShareKeyExact`, `TrieKeys.EqualKeysExact` |
| cmd/ktbench/main.go:520-562 | the number of proofs is not compared with the claimed version | `OptiksClient.HighClaimAccepted` | `OptiksClient.CountDecides`, `OptiksClient.AcceptedExactly` |
| internal/tree/types.go:144-168 | the balance that a bulk's entries supersede is not advanced, so that later entries overwrite the history entry and the leaf of the first, while the commitment keeps the terms of all | `BulkUpdates.MoreDiffers`, `BulkUpdates.RoundTerms` | `BulkUpdates.BulkExact` |
| internal/dataset/reader.go:42-64 | where the last segment reaches the end of the 32-bit numbers, the counter of a range wraps | `DatasetObjects.RestartsForEver` | `DatasetObjects.DatasetReader.IterateRange` |
| internal/dataset/reader.go:117-141 | an empty segment 0 makes the reader index past its offsets | `DatasetObjects.DatasetReader.GetBlock` | `DatasetObjects.RunBounded` |

## Left out

- Curve arithmetic, pairings, FFTs, the SRS, SHA-256, Keccak and Poseidon are idealised as described above.
- State tries, RLP, the databases and the LRU list are maps, identity codecs and "evict any other account".
- gRPC and HTTP servers, command lines, benchmarks, CSV files, logging and timers are I/O.
- AccountCache.Cache: cached accounts are values; that the program's cache hands out pointers to objects that are mutated in place (`AccountObjects`) is not modelled, and neither is the order in which the LRU list evicts.
- Accounts.Saved: databases are taken to be empty before the first update of an account.
- RequiredCommitments.FindCommitmentsCoveringRange: ranges whose first version is after the last are not modelled; the version search returns none (`VersionSearch.BlockRangeToVersionRange`), and the client takes the smallest and the largest version listed.
- EndToEnd.AnchoredSoundAt: the demands on the current version and on the top-layer proof are ones that the program does not make; `Binding.BindingNeeded` shows for each of them which accounts need it. Nothing is claimed about versions of older top-layer batches, which the trie entry does not determine (`Binding.EntryDeterminesCurrentTop`).
- EndToEnd.AnchoredListed: claims nothing about ranges that reach the current version; `RangeEnds.FewDetermineExact` shows that nothing can be claimed there for lists in any order. For lists in order `EndToEnd.AnchoredSound` covers them.
- Verification.Sound: claims nothing about versions whose whole top-layer batch lies in the range; `Verification.NotLookedAt` shows that no check depends on them.
- ProverTrees.OldRebuildSegmentTreeForProof: that success implies the condition is claimed for version numbers at least one top-layer batch below 2^64, where the wrapped key of version 0 cannot be mistaken for a batch.
- RangeProofs.GetProofRange: the goroutines that compute the proofs write disjoint entries and are modelled as a loop in arbitrary order.
- VersionSearch.BlockRangeToVersionRange: claims are for strictly increasing update blocks.
- Pipeline: the hot-account filter, the benchmark deadline and metrics, `RunDeferred`, and what happens when channels are closed are not modelled; claims are about safety and about states in which no process can take a step.
- Pipeline.Number: the blocks are numbered consecutively from the first one; if the dataset skipped a block that was not written (`DatasetObjects.DatasetReader.IterateRange`), the assembler would wait for its number.
- Pipeline.Next: a worker handles a task, and the assembler a message with the blocks it completes, in one step; each touches only its own state and sends at most one message.
- Pipeline.WithCommitments: the order in which a map of commitments is iterated is not modelled; its keys are distinct.
- `__runMPTWorker`, `BoundedQueue` and `cmd/samuraiold` are not used by the program.
- PolynomialDivision.OpeningQuotient: FFTs are not modelled; that interpolants are unique (`Interpolation.InterpolantUnique`) is what makes them exchangeable.
- OptiksObjects.OptiksServer: the lock is modelled by running each call as a whole; users longer than 24 bytes, at which the program stops, are excluded; RLP is the identity, and epochs and versions are unbounded.
- OptiksClient.AcceptedExactly: claims are about versions below 2^56; the keys in a reply are not authenticated by the program, and nothing is claimed about them.
- DatasetObjects.DatasetReader: files are read after writing; file-system errors, and a callback that fails, are not modelled; a corrupt length of 2^63 or more, at which the program stops, is an error in the model.
- The Samurai key-transparency server and the other tree libraries are not part of this model.
