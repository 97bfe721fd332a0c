/** The single tree: a fixed-depth, fixed-arity accumulator of at most arity^depth
    leaves that keeps, per level, the nodes filled so far (`filledPaths`), the cached
    group of the frontier (`filledSubtrees`) and its root, and updates them in place. */
module Incremental {
  import opened Arith
  import opened Merkle
  import opened TreeSpec
  import opened TreeEngine

  class IncrementalTree {
    const config: Config
    /** The ZeroHash table: the root of an all-zero sub-tree of each height. */
    const zeros: seq<int>
    var filledPaths: seq<seq<int>>
    var filledSubtrees: seq<seq<int>>
    var root: int
    /** The number of leaves inserted; the next insert writes this slot. */
    var nextIndex: nat
    /** The leaves inserted, in order, with updates applied. */
    ghost var leaves: seq<int>

    ghost predicate Valid()
      reads this
    {
      && nextIndex == |leaves|
      && zeros == ZeroTable(config)
      && Consistent(config, leaves, filledPaths, filledSubtrees, root)
    }

    /** An empty tree: its root is the root calculator's result on `capacity` zeros. */
    constructor (depth: nat, zeroValue: int, arity: nat, hashFunc: seq<int> -> int)
      requires arity >= 2
      ensures Valid() && leaves == [] && nextIndex == 0
      ensures config == Config(depth, arity, zeroValue, hashFunc)
      ensures CalculateRoot(Repeat(zeroValue, Pow(arity, depth)), arity, hashFunc) == Ok(root)
    {
      var c := Config(depth, arity, zeroValue, hashFunc);
      config := c;
      var zs := ComputeZeros(c);
      zeros := zs;
      var paths, subtrees, top := InitialRecords(c, zs);
      filledPaths, filledSubtrees, root := paths, subtrees, top;
      nextIndex := 0;
      leaves := [];
      EmptyTreeRoot(c);
    }

    /** Appends a leaf; a full tree refuses with TreeFull and is left unchanged. */
    method Insert(leaf: int) returns (r: Outcome)
      requires Valid()
      modifies this
      ensures Valid()
      ensures old(nextIndex) == Capacity(config) ==>
                r == Fail(TreeFull) && leaves == old(leaves) && root == old(root)
                && filledPaths == old(filledPaths) && filledSubtrees == old(filledSubtrees)
      ensures old(nextIndex) < Capacity(config) ==> r == Pass && leaves == old(leaves) + [leaf]
      ensures CalculateRoot(Pad(config, leaves), config.arity, config.hashFunc) == Ok(root)
    {
      if nextIndex == Capacity(config) {
        r := Fail(TreeFull);
      } else {
        filledPaths, filledSubtrees, root :=
          WriteRecords(config, zeros, leaves, filledPaths, filledSubtrees, root, nextIndex, nextIndex, leaf);
        leaves := leaves + [leaf];
        nextIndex := nextIndex + 1;
        r := Pass;
      }
      ConsistentRoot(config, leaves, filledPaths, filledSubtrees, root);
    }

    /** Overwrites an inserted leaf; a slot not yet inserted is refused with
        IndexNotInserted and the tree is left unchanged. */
    method Update(index: nat, leaf: int) returns (r: Outcome)
      requires Valid()
      modifies this
      ensures Valid() && nextIndex == old(nextIndex)
      ensures index >= old(nextIndex) ==>
                r == Fail(IndexNotInserted) && leaves == old(leaves) && root == old(root)
                && filledPaths == old(filledPaths) && filledSubtrees == old(filledSubtrees)
      ensures index < old(nextIndex) ==> r == Pass && leaves == old(leaves)[index := leaf]
      ensures CalculateRoot(Pad(config, leaves), config.arity, config.hashFunc) == Ok(root)
    {
      if index >= nextIndex {
        r := Fail(IndexNotInserted);
      } else {
        filledPaths, filledSubtrees, root :=
          WriteRecords(config, zeros, leaves, filledPaths, filledSubtrees, root, nextIndex, index, leaf);
        leaves := leaves[index := leaf];
        r := Pass;
      }
      ConsistentRoot(config, leaves, filledPaths, filledSubtrees, root);
    }

    /** The proof for leaf `index`, which may lie beyond the inserted leaves (it then
        proves the zero value); an index past the capacity is refused with IndexOutOfRange. */
    method GenMerklePath(index: nat) returns (r: Result<MerklePath>)
      requires Valid()
      ensures index >= Capacity(config) <==> r == Err(IndexOutOfRange)
      ensures r.Ok? <==> index < Capacity(config)
      ensures r.Ok? ==> && r.value == LeafPath(config, Pad(config, leaves), index)
                        && VerifyMerklePath(r.value, config.hashFunc)
                        && r.value.root == root && r.value.index == index && r.value.depth == config.depth
                        && r.value.leaf == (if index < |leaves| then leaves[index] else config.zeroValue)
    {
      if index >= Capacity(config) {
        return Err(IndexOutOfRange);
      }
      var path := LeafProof(config, zeros, filledPaths, root, nextIndex, index, Pad(config, leaves));
      LeafPathVerifies(config, Pad(config, leaves), index);
      r := Ok(path);
    }

    /** The proof that the block [start, end) has the calculated sub-root that the proof
        carries as its leaf, climbing only the depth - log(end - start) levels above it.
        A block that is not one aligned sub-tree is refused with MisalignedRange, one
        ending past the capacity with IndexOutOfRange. */
    method GenMerkleSubrootPath(start: nat, end: nat) returns (r: Result<MerklePath>)
      requires Valid()
      ensures !AlignedBlock(config.arity, start, end) ==> r == Err(MisalignedRange)
      ensures AlignedBlock(config.arity, start, end) && end > Capacity(config) ==> r == Err(IndexOutOfRange)
      ensures r.Ok? <==> AlignedBlock(config.arity, start, end) && end <= Capacity(config)
      ensures r.Ok? ==> && Log(end - start, config.arity) <= config.depth && start < end <= Capacity(config)
                        && r.value == SubrootPath(config, Pad(config, leaves), start, Log(end - start, config.arity))
                        && VerifyMerklePath(r.value, config.hashFunc)
                        && r.value.root == root
                        && r.value.depth == config.depth - Log(end - start, config.arity)
                        && CalculateRoot(Pad(config, leaves)[start..end], config.arity, config.hashFunc)
                           == Ok(r.value.leaf)
    {
      r := SubrootProof(config, zeros, filledPaths, root, nextIndex, start, end, Pad(config, leaves));
      if r.Ok? {
        BlockPathVerifies(config, Pad(config, leaves), start, end);
      }
    }
  }
}
