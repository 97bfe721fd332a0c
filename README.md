# optimisedmt accumulator: a Dafny model

This project models optimisedmt's append-only Merkle accumulator and proves properties of the model. The accumulator has a fixed depth and an arbitrary arity, so each tree holds `arity^depth` leaves. It has three parts:

- **Root calculator** (`calculateRoot`). Hashes consecutive groups of `arity` leaves, then the resulting parents, until one value remains. Any leaf count that is not a power of the arity is refused with `InvalidLeafCount`.
- **`IncrementalTree`**, the single tree. Its in-place methods are `insert`, which refuses a full tree with `TreeFull`, and `update`, which refuses a slot never written with `IndexNotInserted`. For each level the tree keeps:
  - the nodes filled so far (`filledPaths`);
  - the cached sibling group of the frontier (`filledSubtrees`);
  - its `root`.

  The tree also builds proofs:
  - `genMerklePath(index)` builds a leaf proof. An index past the inserted leaves proves the zero value; an index past the capacity gives `IndexOutOfRange`.
  - `genMerkleSubrootPath(start, end)` builds a sub-root proof for an aligned block of `arity^k` leaves. A block that is not aligned gives `MisalignedRange`; one ending past the capacity gives `IndexOutOfRange`.
  - The static `verifyMerklePath` checks a proof. It never raises: a malformed path is simply rejected.
- **`MultiIncrementalTree`**, the router. It chains shards of equal shape and opens a new shard when the active one is full. It keeps `roots`, `filledPaths` and `filledSubtrees` per shard. A global index `g` goes to shard `g / capacity`, slot `g mod capacity`. A shard never opened gives `ShardNotFound`. A block larger than a shard, which would cross a shard boundary, gives `MisalignedRange`.

The modules, in dependency order:

- `Arith`: powers, ancestor positions and occupied prefixes.
- `Merkle`: configuration, error kinds, proof records, `CalculateRoot`, `VerifyMerklePath` and the tamper lemmas.
- `TreeSpec`: the specification.
  - The leaves, padded with the zero value, form a complete tree whose levels are `LayerAt`.
  - `CanonicalPaths` and `CanonicalSubtrees` define what the records must hold.
  - `LeafPath` and `SubrootPath` define what the proofs must be.
- `TreeEngine`: the level-by-level loops both classes share (zero table, write one leaf, collect siblings, block proofs). Each loop is proved against `TreeSpec`.
- `Incremental` and `Multi`: the two classes, whose methods update their fields in place.
- `Scenarios`: the five scenarios of the repository's test file, stated for every depth, every arity of at least 2 and every hash function.

Field elements are unbounded integers. The hash is a function value `seq<int> -> int` that the caller passes in, as the trees take `hashFunc` in their constructors.

## Model

| member | source | states |
|---|---|---|
| `Merkle.CalculateRootSucceedsIff` | ts/__tests__/OptimisedMT.test.ts:43-43 | The root calculator succeeds exactly when the leaf count is a power of the arity; otherwise it gives InvalidLeafCount. |
| `Merkle.CalculateRootOfPower` | ts/__tests__/OptimisedMT.test.ts:69-71 | On arity^k leaves the calculator returns the single top node of the complete tree built from those leaves. |
| `Merkle.CalculateRootRejects` | ts/__tests__/OptimisedMT.test.ts:81-81 | Any leaf count that is no power of the arity is refused with InvalidLeafCount. |
| `Merkle.ComputeRootInjective` | ts/__tests__/OptimisedMT.test.ts:206-208 | With a hash that is injective on groups of arity values, two different starting nodes climbing the same siblings reach different roots. |
| `Merkle.ComputeRootTamper` | ts/__tests__/OptimisedMT.test.ts:206-207 | With an injective hash, replacing any single sibling at any level by a different value changes the recomputed root. |
| `Merkle.TamperedPathRejected` | ts/__tests__/OptimisedMT.test.ts:206-208 | A proof that verifies stops verifying once any one of its siblings is replaced by a different value, provided the hash is injective. |
| `TreeSpec.EmptyTreeRoot` | ts/__tests__/OptimisedMT.test.ts:38-46 | The root of an empty tree is the calculated root of capacity zero values, which is the top entry of the ZeroHash table. |
| `TreeSpec.TreeRootIsCalculatedRoot` | ts/__tests__/OptimisedMT.test.ts:69-71 | The root of the padded tree is the root calculator's result on the padded leaves. |
| `TreeSpec.SubrootIsCalculatedRoot` | ts/__tests__/OptimisedMT.test.ts:185-189 | The node at height sub over the q-th aligned block equals the calculated root of that block's leaves. |
| `TreeSpec.LayerAtUpdate` | ts/__tests__/OptimisedMT.test.ts:101-108 | Overwriting one leaf changes, on each level, only that leaf's ancestor; every other node keeps its value. |
| `TreeSpec.LeafPathVerifies` | ts/__tests__/OptimisedMT.test.ts:143-149 | The specified proof of any leaf slot of a full-size padded tree passes the stateless verifier. |
| `TreeSpec.SubrootPathVerifies` | ts/__tests__/OptimisedMT.test.ts:189-197 | The specified proof of the q-th block of height sub passes the verifier, climbs depth - sub levels, carries position q, and its leaf is the calculated root of the block. |
| `TreeSpec.ConsistentRoot` | ts/__tests__/OptimisedMT.test.ts:69-71 | Records consistent with the leaves carry as root the calculated root of the padded leaves. |
| `TreeEngine.ComputeZeros` | ts/__tests__/OptimisedMT.test.ts:35-36 | The loop builds the ZeroHash table: entry l is the root of an all-zero sub-tree of height l. |
| `TreeEngine.InitialRecords` | ts/__tests__/OptimisedMT.test.ts:35-48 | An empty tree's records: no filled nodes, each level's cached group is all zero hashes, and the root is the top zero hash. Each is the specified record for no leaves. |
| `TreeEngine.WriteLeaf` | ts/__tests__/OptimisedMT.test.ts:59-67 | Writing a leaf at a slot (appending at the next slot, or overwriting) recomputes the ancestors bottom-up. The resulting paths, frontier groups and root are exactly the specified records of the written leaves. |
| `TreeEngine.CollectSiblings` | ts/__tests__/OptimisedMT.test.ts:143-145 | Reading the recorded levels, using zero hashes for unfilled nodes, yields the specified sibling groups of the position from the given level to the top. |
| `TreeEngine.LeafProof` | ts/__tests__/OptimisedMT.test.ts:143-145 | The proof built from the records is the specified proof of the leaf slot. |
| `TreeEngine.BlockDepth` | ts/__tests__/OptimisedMT.test.ts:185-189 | The block size is an exact power of the arity exactly when the flag is set, and then the returned height is its logarithm. |
| `TreeEngine.SubrootProof` | ts/__tests__/OptimisedMT.test.ts:185-192 | Gives MisalignedRange for a block that is not one aligned sub-tree and IndexOutOfRange for one ending past the capacity. It succeeds exactly otherwise, with the specified sub-root proof. |
| `TreeEngine.BlockPathVerifies` | ts/__tests__/OptimisedMT.test.ts:185-204 | The proof of an aligned block verifies against the root and climbs depth - log(size) levels. Its leaf is the calculated root of the block's leaves. |
| `Incremental.IncrementalTree.constructor` | ts/__tests__/OptimisedMT.test.ts:36-45 | A new tree is empty and its root is the calculated root of capacity zero values. |
| `Incremental.IncrementalTree.Insert` | ts/__tests__/OptimisedMT.test.ts:59-71 | A full tree refuses with TreeFull and is left unchanged. Otherwise the leaf is appended. Either way the root is the calculated root of the padded leaves. |
| `Incremental.IncrementalTree.Update` | ts/__tests__/OptimisedMT.test.ts:101-109 | A slot not yet inserted is refused with IndexNotInserted and the tree is unchanged. Otherwise that one leaf is replaced. The root is the calculated root of the padded leaves. |
| `Incremental.IncrementalTree.GenMerklePath` | ts/__tests__/OptimisedMT.test.ts:143-155 | Gives IndexOutOfRange exactly when the index is at or past the capacity. Otherwise the proof verifies against the current root and carries the index, the full depth and the leaf value (the zero value for a slot not yet written). |
| `Incremental.IncrementalTree.GenMerkleSubrootPath` | ts/__tests__/OptimisedMT.test.ts:185-208 | Gives MisalignedRange for a block that is not aligned and IndexOutOfRange for one past the capacity. Otherwise the proof verifies against the root, has depth depth - log(end - start), and its leaf is the calculated root of the block's padded leaves. |
| `Multi.FlattenLength` | ts/__tests__/OptimisedMT.test.ts:113-117 | With every shard but the last full, the global leaf count is (shards - 1) * capacity plus the last shard's length. |
| `Multi.Routing` | ts/__tests__/OptimisedMT.test.ts:123-124 | Global slot g lies in the run of capacity slots that starts its shard, at its slot's offset, and no other shard's run contains it. |
| `Multi.FlattenIndex` | ts/__tests__/OptimisedMT.test.ts:123-124 | Global index g is inserted exactly when shard g / capacity exists and holds slot g mod capacity, and the global leaf g is that slot's leaf. |
| `Multi.FlattenUpdate` | ts/__tests__/OptimisedMT.test.ts:123-124 | Writing slot g mod capacity of shard g / capacity is writing global leaf g, and every shard but the last stays full. |
| `Multi.FlattenAppend` | ts/__tests__/OptimisedMT.test.ts:73-80 | Appending to the active shard, or to a newly opened one, appends to the global leaf sequence. |
| `Multi.MultiIncrementalTree.constructor` | ts/__tests__/OptimisedMT.test.ts:35-46 | A new router has one empty shard whose root is the calculated root of capacity zero values. |
| `Multi.MultiIncrementalTree.OpenShard` | ts/__tests__/OptimisedMT.test.ts:73-74 | With the active shard full, a new empty shard is appended and made active, and the roots of the earlier shards are unchanged. |
| `Multi.MultiIncrementalTree.Insert` | ts/__tests__/OptimisedMT.test.ts:73-82 | The router never refuses a leaf. It appends to the active shard, or to a new shard when the active one is full. The global leaf sequence grows by exactly that leaf. |
| `Multi.MultiIncrementalTree.Update` | ts/__tests__/OptimisedMT.test.ts:113-126 | Succeeds exactly when global index g has been inserted, and then writes slot g mod capacity of shard g / capacity. A shard never opened gives ShardNotFound and an unwritten slot IndexNotInserted, leaving the router unchanged. |
| `Multi.MultiIncrementalTree.GenMerklePath` | ts/__tests__/OptimisedMT.test.ts:157-165 | Gives ShardNotFound exactly when shard g / capacity was never opened. Otherwise it gives the shard's leaf proof for slot g mod capacity, which verifies against that shard's root and carries global leaf g (or the zero value). |
| `Multi.MultiIncrementalTree.GenMerkleSubrootPath` | ts/__tests__/OptimisedMT.test.ts:189-204 | Gives MisalignedRange for a block that is not aligned or is larger than a shard, and ShardNotFound for an unopened shard. Otherwise it gives the owning shard's sub-root proof, which verifies against that shard's root with the block's calculated root as leaf. |
| `Multi.BlockInShard` | ts/__tests__/OptimisedMT.test.ts:192-192 | An aligned block no larger than a shard fits inside its shard from its local slot onwards, and is aligned there. |
| `Multi.ShardRoot` | ts/__tests__/OptimisedMT.test.ts:81-82 | Each shard's root is the calculated root of its padded leaves, and of its own leaves once the shard is full. |
| `Scenarios.ShardMatchesSingle` | ts/__tests__/OptimisedMT.test.ts:14-28 | A router shard and a single tree holding the same leaves have equal filledPaths, filledSubtrees and root. |
| `Scenarios.TestEmpty` | ts/__tests__/OptimisedMT.test.ts:30-49 | For empty trees, both roots equal the calculated root of capacity zeros, and shard 0's records equal the single tree's. |
| `Scenarios.TestInsertion` | ts/__tests__/OptimisedMT.test.ts:51-83 | After leaves 0 .. capacity-1, both roots equal the calculated root of those leaves. The router has one shard until leaf 1234 opens a second, and once that shard is full its root is the calculated root of [1234, 1, ..., capacity-1]. |
| `Scenarios.TestUpdate` | ts/__tests__/OptimisedMT.test.ts:85-127 | Setting the last leaf of full trees to 1234 gives both trees the calculated root of the updated leaves. Setting global leaf capacity (shard 1, slot 0) to 4567 gives roots[1] the calculated root of the updated second shard. |
| `Scenarios.UpdateLastLeaf` | ts/__tests__/OptimisedMT.test.ts:101-111 | On full trees, updating the last slot gives both trees the same root, the calculated root of the updated leaves. |
| `Scenarios.UpdateSecondShard` | ts/__tests__/OptimisedMT.test.ts:113-126 | Updating the first slot of the second shard of a router holding 0 .. 2*capacity-1 gives that shard the calculated root of its updated leaves. |
| `Scenarios.TestGenMerkleProof` | ts/__tests__/OptimisedMT.test.ts:129-166 | Every leaf of full trees has a proof that verifies, carries that leaf, and is the same from both trees. After a second shard is filled, the router's proofs for its leaves verify too. |
| `Scenarios.BumpRejected` | ts/__tests__/OptimisedMT.test.ts:206-208 | Raising the first sibling of a verifying proof by one makes it fail verification when the hash is injective. |
| `Scenarios.BlockProofPair` | ts/__tests__/OptimisedMT.test.ts:186-208 | For each block the loop visits, both trees give the same sub-root proof, which verifies, climbs depth - subDepth levels, carries the calculated root of the block and rejects a bumped first sibling. |
| `Scenarios.TestGenMerkleSubtreeProof` | ts/__tests__/OptimisedMT.test.ts:168-210 | For every aligned block of arity^subDepth leaves that the loop visits, ending just before the last block, the properties of BlockProofPair hold. |

## Left out

- The implementation file `ts/OptimisedMT.ts` is not part of this model, so the layout of the records is this model's choice. `filledPaths[l]` holds the occupied nodes of level l (those covering at least one written leaf). `filledPaths[depth]` holds `[root]` once a leaf is written and is empty before that; the root itself is always in `root`. `filledSubtrees[l]` holds the whole group of arity nodes on level l that contains the ancestor of the last written leaf, with zero hashes for members not yet filled. The test file only compares these records between the two trees.
- Hash construction (Poseidon `hash2`/`hash5`/`hash16`) and field arithmetic are not modelled. The hash is any caller-supplied function on integer sequences, and field elements are unbounded integers.
- The JSON and `stringifyBigInts` comparisons of the test file become equality of values. Jest itself, the timeout and `expect` are left out.
- The arity-5 and arity-16 suites are commented out in the source. The scenarios are proved for every arity of at least 2 and every depth, which covers them.
- `Merkle.TamperedPathRejected`: rejecting a tampered proof depends on the hash. It is proved only for a hash injective on groups of arity values; a concrete hash with collisions is not covered.
- `Scenarios.TestGenMerkleSubtreeProof`: the loop bound `i < arity ** depth - subCapacity` skips the last aligned block. The model keeps that bound as written, and the last block is covered by `Incremental.IncrementalTree.GenMerkleSubrootPath` in general.
- The leaves of each tree and shard are a ghost field, used only to state contracts. The running code keeps only the records.
- The router is modelled with per-shard record arrays rather than a list of shard objects, so aliasing between shards does not arise.
- `Incremental.IncrementalTree.GenMerkleSubrootPath` and `TreeEngine.SubrootProof`: returning `IndexOutOfRange` for an aligned block that ends past the capacity is this model's choice. The test file never requests such a block, and the program lists `IndexOutOfRange` only for leaf proofs.
