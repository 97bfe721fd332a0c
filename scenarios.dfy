/** The scenarios the repository's test suite runs against both trees, for any depth,
    any arity of at least two and any hash function, with zero as the padding value.
    Each scenario returns the values the suite compares and states the comparison. */
module Scenarios {
  import opened Arith
  import opened Merkle
  import opened TreeSpec
  import opened TreeEngine
  import opened Incremental
  import opened Multi

  const ZeroValue: int := 0

  /** The leaves from, from + 1, ..., from + n - 1. */
  function Run(from: int, n: nat): (r: seq<int>)
    ensures |r| == n && forall j :: 0 <= j < n ==> r[j] == from + j
  {
    seq(n, j => from + j)
  }

  lemma RunSnoc(from: int, n: nat)
    ensures Run(from, n + 1) == Run(from, n) + [from + n]
  {
    assert Run(from, n + 1)[..n] == Run(from, n);
  }

  /** Global slot g of the router lies in shard s at slot g - s * cap. */
  lemma Locate(g: nat, cap: nat, s: nat)
    requires cap >= 1 && s * cap <= g < s * cap + cap
    ensures ShardOf(g, cap) == s && SlotOf(g, cap) == g - s * cap
  {
    Routing(g, cap, s);
  }

  /** A router shard holding the same leaves as a single tree of the same shape holds
      the same records and the same root. */
  lemma ShardMatchesSingle(t: IncrementalTree, m: MultiIncrementalTree, k: nat)
    requires t.Valid() && m.Valid() && t.config == m.config
    requires k < |m.shards| && m.shards[k] == t.leaves
    ensures m.filledPaths[k] == t.filledPaths && m.filledSubtrees[k] == t.filledSubtrees
    ensures m.roots[k] == t.root
  {
    assert Consistent(m.config, m.shards[k], m.filledPaths[k], m.filledSubtrees[k], m.roots[k]);
  }

  /** The first sibling of the lowest level of a proof, raised by one. */
  function BumpFirstSibling(path: MerklePath): (forged: MerklePath)
    requires |path.pathElements| > 0 && |path.pathElements[0]| > 0
  {
    var first := path.pathElements[0];
    path.(pathElements := path.pathElements[0 := first[0 := first[0] + 1]])
  }

  /** Inserts the leaves 0 .. capacity - 1 into an empty single tree. */
  method FillSingle(t: IncrementalTree)
    requires t.Valid() && t.leaves == []
    modifies t
    ensures t.Valid() && t.leaves == Run(0, Capacity(t.config))
  {
    var i := 0;
    while i < Capacity(t.config)
      invariant 0 <= i <= Capacity(t.config)
      invariant t.Valid() && t.leaves == Run(0, i)
    {
      var outcome := t.Insert(i);
      RunSnoc(0, i);
      i := i + 1;
    }
  }

  /** Inserts the leaves 0 .. capacity - 1 into a fresh router, filling its first shard. */
  method FillFirstShard(m: MultiIncrementalTree)
    requires m.Valid() && m.shards == [[]]
    modifies m
    ensures m.Valid() && m.shards == [Run(0, Capacity(m.config))]
  {
    var i := 0;
    while i < Capacity(m.config)
      invariant 0 <= i <= Capacity(m.config)
      invariant m.Valid() && m.shards == [Run(0, i)]
    {
      m.Insert(i);
      RunSnoc(0, i);
      i := i + 1;
    }
  }

  /** With the active shard full, inserts `first` and then from + 1 .. from + capacity - 1,
      which opens one new shard and fills it. */
  method AppendShard(m: MultiIncrementalTree, first: int, from: int)
    requires m.Valid() && m.nextIndex == Capacity(m.config)
    modifies m
    ensures m.Valid() && m.shards == old(m.shards) + [Run(from, Capacity(m.config))[0 := first]]
  {
    ghost var before := m.shards;
    var cap := Capacity(m.config);
    m.Insert(first);
    assert [first] == Run(from, 1)[0 := first];
    var i := 1;
    while i < cap
      invariant 1 <= i <= cap
      invariant m.Valid() && m.shards == before + [Run(from, i)[0 := first]]
    {
      m.Insert(from + i);
      RunSnoc(from, i);
      assert Run(from, i)[0 := first] + [from + i] == Run(from, i + 1)[0 := first];
      i := i + 1;
    }
  }

  /** Empty trees: the root of either is the root calculator's result on capacity zeros,
      and the router's shard 0 keeps the same records as the single tree. */
  method TestEmpty(depth: nat, arity: nat, hashFunc: seq<int> -> int)
    returns (iRoot: int, miRoot: int, sameRecords: bool)
    requires arity >= 2
    ensures CalculateRoot(Repeat(ZeroValue, Pow(arity, depth)), arity, hashFunc) == Ok(iRoot)
    ensures miRoot == iRoot && sameRecords
  {
    var m := new MultiIncrementalTree(depth, ZeroValue, arity, hashFunc);
    var t := new IncrementalTree(depth, ZeroValue, arity, hashFunc);
    ShardMatchesSingle(t, m, 0);
    iRoot, miRoot := t.root, m.roots[0];
    sameRecords := t.filledSubtrees == m.filledSubtrees[0] && t.filledPaths == m.filledPaths[0];
  }

  /** Filling both trees keeps shard 0's root equal to the single tree's root after every
      insert, and ends at the calculated root of the leaves. The next leaf opens shard 1,
      whose root, once the shard is full, is the calculated root of its own leaves. */
  method TestInsertion(depth: nat, arity: nat, hashFunc: seq<int> -> int)
    returns (root: int, root0: int, shardsBefore: nat, shardsAfter: nat, root1: int)
    requires arity >= 2
    ensures CalculateRoot(Run(0, Pow(arity, depth)), arity, hashFunc) == Ok(root) && root0 == root
    ensures shardsBefore == 1 && shardsAfter == 2
    ensures CalculateRoot(Run(0, Pow(arity, depth))[0 := 1234], arity, hashFunc) == Ok(root1)
  {
    var m := new MultiIncrementalTree(depth, ZeroValue, arity, hashFunc);
    var t := new IncrementalTree(depth, ZeroValue, arity, hashFunc);
    var cap := Pow(arity, depth);
    var i := 0;
    while i < cap
      invariant 0 <= i <= cap
      invariant t.Valid() && m.Valid() && t.config == m.config == Config(depth, arity, ZeroValue, hashFunc)
      invariant t.leaves == Run(0, i) && m.shards == [Run(0, i)]
      invariant m.roots[0] == t.root
    {
      m.Insert(i);
      var outcome := t.Insert(i);
      RunSnoc(0, i);
      ShardMatchesSingle(t, m, 0);
      i := i + 1;
    }
    ShardRoot(m, 0);
    root, root0 := t.root, m.roots[0];
    shardsBefore := |m.roots|;
    AppendShard(m, 1234, 0);
    shardsAfter := |m.roots|;
    ShardRoot(m, 1);
    root1 := m.roots[1];
  }

  /** Both trees hold the leaves 0 .. capacity - 1, the router in its shard 0. */
  ghost predicate Filled(t: IncrementalTree, m: MultiIncrementalTree)
    reads t, m
  {
    && t.Valid() && m.Valid() && t.config == m.config
    && t.leaves == Run(0, Capacity(t.config)) && m.shards[0] == t.leaves
  }

  /** Overwriting the last leaf of full trees gives both the calculated root of the
      updated leaves; overwriting the first leaf of a router's second shard gives that
      shard the calculated root of its updated leaves. */
  method TestUpdate(depth: nat, arity: nat, hashFunc: seq<int> -> int)
    returns (iRoot: int, miRoot: int, root1: int)
    requires arity >= 2
    ensures var cap := Pow(arity, depth);
            CalculateRoot(Run(0, cap)[cap - 1 := 1234], arity, hashFunc) == Ok(iRoot) && miRoot == iRoot
    ensures var cap := Pow(arity, depth);
            CalculateRoot(Run(cap, cap)[0 := 4567], arity, hashFunc) == Ok(root1)
  {
    var m := new MultiIncrementalTree(depth, ZeroValue, arity, hashFunc);
    var t := new IncrementalTree(depth, ZeroValue, arity, hashFunc);
    FillFirstShard(m);
    FillSingle(t);
    iRoot, miRoot := UpdateLastLeaf(t, m);
    root1 := UpdateSecondShard(depth, arity, hashFunc);
  }

  /** Overwrites the last leaf of both full trees with 1234. */
  method UpdateLastLeaf(t: IncrementalTree, m: MultiIncrementalTree) returns (iRoot: int, miRoot: int)
    requires Filled(t, m) && |m.shards| == 1
    modifies t, m
    ensures var cap := Capacity(t.config);
            CalculateRoot(Run(0, cap)[cap - 1 := 1234], t.config.arity, t.config.hashFunc) == Ok(iRoot)
    ensures miRoot == iRoot
  {
    var cap := Capacity(t.config);
    assert Flatten(m.shards) == Run(0, cap) by {
      assert m.shards == [Run(0, cap)] && m.shards[..0] == [];
    }
    Locate(cap - 1, cap, 0);
    var r := m.Update(cap - 1, 1234);
    assert r == Pass;
    assert m.shards == [Run(0, cap)[cap - 1 := 1234]];
    var outcome := t.Update(cap - 1, 1234);
    assert t.leaves == Run(0, cap)[cap - 1 := 1234];
    ShardMatchesSingle(t, m, 0);
    ShardRoot(m, 0);
    iRoot, miRoot := t.root, m.roots[0];
  }

  /** Fills a router's first two shards with 0 .. 2 * capacity - 1 and overwrites the
      first leaf of the second shard with 4567. */
  method UpdateSecondShard(depth: nat, arity: nat, hashFunc: seq<int> -> int) returns (root1: int)
    requires arity >= 2
    ensures var cap := Pow(arity, depth);
            CalculateRoot(Run(cap, cap)[0 := 4567], arity, hashFunc) == Ok(root1)
  {
    var m := new MultiIncrementalTree(depth, ZeroValue, arity, hashFunc);
    var cap := Pow(arity, depth);
    FillFirstShard(m);
    AppendShard(m, cap, cap);
    RunFirst(cap, cap);
    FlattenLength(m.shards, cap);
    Locate(cap, cap, 1);
    var r := m.Update(cap, 4567);
    ShardRoot(m, 1);
    root1 := m.roots[1];
  }

  lemma RunFirst(from: int, n: nat)
    requires n > 0
    ensures Run(from, n)[0 := from] == Run(from, n)
  {
  }

  /** The proofs of leaf i from the single tree and from the router's shard 0. */
  method LeafProofPair(t: IncrementalTree, m: MultiIncrementalTree, i: nat) returns (path: MerklePath, path2: MerklePath)
    requires Filled(t, m) && i < Capacity(t.config)
    ensures path == path2 && VerifyMerklePath(path, t.config.hashFunc)
    ensures path.index == i && path.leaf == i && path.root == t.root
  {
    var mp := t.GenMerklePath(i);
    Locate(i, Capacity(m.config), 0);
    var mp2 := m.GenMerklePath(i);
    path, path2 := mp.value, mp2.value;
  }

  /** The router's proof of the leaf at slot i of a shard s holding 0 .. capacity - 1. */
  method ShardLeafProof(m: MultiIncrementalTree, s: nat, i: nat) returns (path: MerklePath)
    requires m.Valid() && s < |m.shards| && m.shards[s] == Run(0, Capacity(m.config))
    requires i < Capacity(m.config)
    ensures VerifyMerklePath(path, m.config.hashFunc) && path.leaf == i && path.root == m.roots[s]
  {
    var cap := Capacity(m.config);
    Locate(s * cap + i, cap, s);
    var mp := m.GenMerklePath(s * cap + i);
    path := mp.value;
  }

  /** Every leaf of full trees has a proof that verifies, the same from either tree, for
      that leaf's value; after a second shard is filled, the router's proofs for its
      leaves verify too. */
  method TestGenMerkleProof(depth: nat, arity: nat, hashFunc: seq<int> -> int)
    returns (paths: seq<MerklePath>, paths2: seq<MerklePath>, paths3: seq<MerklePath>)
    requires arity >= 2
    ensures |paths| == |paths2| == |paths3| == Pow(arity, depth)
    ensures forall k :: 0 <= k < |paths| ==>
              && paths[k] == paths2[k] && VerifyMerklePath(paths[k], hashFunc)
              && paths[k].index == k && paths[k].leaf == k
    ensures forall k :: 0 <= k < |paths3| ==> VerifyMerklePath(paths3[k], hashFunc) && paths3[k].leaf == k
  {
    var m := new MultiIncrementalTree(depth, ZeroValue, arity, hashFunc);
    var t := new IncrementalTree(depth, ZeroValue, arity, hashFunc);
    FillFirstShard(m);
    FillSingle(t);
    paths, paths2 := LeafProofs(t, m);
    AppendShard(m, 0, 0);
    assert Run(0, Capacity(m.config))[0 := 0] == Run(0, Capacity(m.config));
    paths3 := ShardLeafProofs(m, 1);
  }

  /** The proofs of every leaf of the full trees, from both. */
  method LeafProofs(t: IncrementalTree, m: MultiIncrementalTree) returns (paths: seq<MerklePath>, paths2: seq<MerklePath>)
    requires Filled(t, m)
    ensures |paths| == |paths2| == Capacity(t.config)
    ensures forall k :: 0 <= k < |paths| ==>
              && paths[k] == paths2[k] && VerifyMerklePath(paths[k], t.config.hashFunc)
              && paths[k].index == k && paths[k].leaf == k
  {
    paths, paths2 := [], [];
    var i := 0;
    while i < Capacity(t.config)
      invariant 0 <= i <= Capacity(t.config) && |paths| == |paths2| == i
      invariant forall k :: 0 <= k < i ==>
                  && paths[k] == paths2[k] && VerifyMerklePath(paths[k], t.config.hashFunc)
                  && paths[k].index == k && paths[k].leaf == k
    {
      var mp, mp2 := LeafProofPair(t, m, i);
      paths, paths2 := paths + [mp], paths2 + [mp2];
      i := i + 1;
    }
  }

  /** The router's proofs of every leaf of its shard s, which holds 0 .. capacity - 1. */
  method ShardLeafProofs(m: MultiIncrementalTree, s: nat) returns (paths: seq<MerklePath>)
    requires m.Valid() && s < |m.shards| && m.shards[s] == Run(0, Capacity(m.config))
    ensures |paths| == Capacity(m.config)
    ensures forall k :: 0 <= k < |paths| ==> VerifyMerklePath(paths[k], m.config.hashFunc) && paths[k].leaf == k
  {
    paths := [];
    var i := 0;
    while i < Capacity(m.config)
      invariant 0 <= i <= Capacity(m.config) && |paths| == i
      invariant forall k :: 0 <= k < i ==> VerifyMerklePath(paths[k], m.config.hashFunc) && paths[k].leaf == k
    {
      var mp := ShardLeafProof(m, s, i);
      paths := paths + [mp];
      i := i + 1;
    }
  }

  /** What the suite checks of the sub-root proofs of the q-th block of arity^subDepth
      leaves 0 .. capacity - 1: the two trees agree, the proof verifies, climbs
      depth - subDepth levels and carries the calculated root of the block's leaves, and
      with an injective hash its first sibling cannot be altered without it failing. */
  ghost predicate BlockProofHolds(c: Config, subDepth: nat, q: nat, path: MerklePath, path2: MerklePath) {
    && ValidConfig(c)
    && path == path2 && VerifyMerklePath(path, c.hashFunc)
    && path.depth == c.depth - subDepth
    && CalculateRoot(Run(q * Pow(c.arity, subDepth), Pow(c.arity, subDepth)), c.arity, c.hashFunc)
       == Ok(path.leaf)
    && |path.pathElements| > 0 && |path.pathElements[0]| > 0
    && (Injective(c.hashFunc, c.arity) ==> !VerifyMerklePath(BumpFirstSibling(path), c.hashFunc))
  }

  /** The sub-root proofs of the q-th block of arity^subDepth leaves from both trees. */
  method BlockProofPair(t: IncrementalTree, m: MultiIncrementalTree, subDepth: nat, q: nat)
    returns (path: MerklePath, path2: MerklePath)
    requires Filled(t, m)
    requires q * Pow(t.config.arity, subDepth) < Capacity(t.config) - Pow(t.config.arity, subDepth)
    ensures BlockProofHolds(t.config, subDepth, q, path, path2) && path.root == t.root
  {
    var c := t.config;
    var subCap := Pow(c.arity, subDepth);
    var start := q * subCap;
    BlockInTree(c.arity, c.depth, subDepth, q);
    var end := start + subCap;
    assert Log(end - start, c.arity) == subDepth;
    var mp := t.GenMerkleSubrootPath(start, end);
    ghost var P := Pad(c, t.leaves);
    assert CalculateRoot(P[start..end], c.arity, c.hashFunc) == Ok(mp.value.leaf);
    assert m.config == c && ShardOf(start, Capacity(c)) < |m.shards|;
    var mp2 := m.GenMerkleSubrootPath(start, end);
    path, path2 := mp.value, mp2.value;
    FullPadSlice(c, t.leaves, start, subCap);
    assert P[start..end] == Run(start, subCap);
    BumpRejected(path, c.hashFunc, c.arity);
  }

  /** The q-th block of arity^sub leaves, when another block follows it inside a tree
      of arity^d leaves, is an aligned block of shard 0 lying below the tree's top. */
  lemma BlockInTree(a: nat, d: nat, sub: nat, q: nat)
    requires a >= 2 && q * Pow(a, sub) < Pow(a, d) - Pow(a, sub)
    ensures sub < d && Log(Pow(a, sub), a) == sub && Pow(a, sub) < Pow(a, d)
    ensures AlignedBlock(a, q * Pow(a, sub), q * Pow(a, sub) + Pow(a, sub))
    ensures ShardOf(q * Pow(a, sub), Pow(a, d)) == 0 && SlotOf(q * Pow(a, sub), Pow(a, d)) == q * Pow(a, sub)
  {
    var size, cap := Pow(a, sub), Pow(a, d);
    var start := q * size;
    MulMono(0, q, size);
    assert start + size < cap;
    PowBelow(a, sub, d);
    LogOfPow(a, sub);
    BlockAligned(a, sub, q);
    Locate(start, cap, 0);
  }

  /** A slice of a full tree of the leaves 0 .. capacity - 1 is a run of consecutive leaves. */
  lemma FullPadSlice(c: Config, leaves: seq<int>, start: nat, n: nat)
    requires leaves == Run(0, Capacity(c)) && start + n <= |leaves|
    ensures Pad(c, leaves)[start .. start + n] == Run(start, n)
  {
    assert Pad(c, leaves) == leaves;
  }

  /** A verifying proof with at least one level of arity - 1 siblings stops verifying
      when its first sibling is raised by one, provided the hash is injective. */
  lemma BumpRejected(path: MerklePath, hash: seq<int> -> int, a: nat)
    requires a >= 2 && VerifyMerklePath(path, hash) && path.depth > 0
    requires |path.pathElements[0]| == a - 1
    ensures |path.pathElements| > 0 && |path.pathElements[0]| > 0
    ensures Injective(hash, a) ==> !VerifyMerklePath(BumpFirstSibling(path), hash)
  {
    if Injective(hash, a) {
      TamperedPathRejected(path, hash, 0, 0, path.pathElements[0][0] + 1);
    }
  }

  /** For every aligned block of arity^subDepth leaves before the last one, both trees give
      the same sub-root proof, with the properties BlockProofHolds lists. */
  method TestGenMerkleSubtreeProof(depth: nat, subDepth: nat, arity: nat, hashFunc: seq<int> -> int)
    returns (paths: seq<MerklePath>, paths2: seq<MerklePath>)
    requires arity >= 2
    ensures |paths| == |paths2|
    ensures var cap, subCap := Pow(arity, depth), Pow(arity, subDepth);
            && (|paths| == 0 || (|paths| - 1) * subCap < cap - subCap)
            && |paths| * subCap >= cap - subCap
    ensures forall k :: 0 <= k < |paths| ==>
              BlockProofHolds(Config(depth, arity, ZeroValue, hashFunc), subDepth, k, paths[k], paths2[k])
  {
    var m := new MultiIncrementalTree(depth, ZeroValue, arity, hashFunc);
    var t := new IncrementalTree(depth, ZeroValue, arity, hashFunc);
    FillFirstShard(m);
    FillSingle(t);
    paths, paths2 := BlockProofs(t, m, subDepth);
  }

  /** The sub-root proofs of the blocks 0, 1, ... of arity^subDepth leaves, as long as
      another block follows, from both trees. */
  method BlockProofs(t: IncrementalTree, m: MultiIncrementalTree, subDepth: nat)
    returns (paths: seq<MerklePath>, paths2: seq<MerklePath>)
    requires Filled(t, m)
    ensures |paths| == |paths2|
    ensures var cap, subCap := Capacity(t.config), Pow(t.config.arity, subDepth);
            && (|paths| == 0 || (|paths| - 1) * subCap < cap - subCap)
            && |paths| * subCap >= cap - subCap
    ensures forall k :: 0 <= k < |paths| ==> BlockProofHolds(t.config, subDepth, k, paths[k], paths2[k])
  {
    var c := t.config;
    var cap: int, subCap: int := Capacity(c), Pow(c.arity, subDepth);
    paths, paths2 := [], [];
    var i := 0;
    while i < cap - subCap
      invariant i == |paths| * subCap && |paths| == |paths2|
      invariant |paths| == 0 || (|paths| - 1) * subCap < cap - subCap
      invariant forall k :: 0 <= k < |paths| ==> BlockProofHolds(c, subDepth, k, paths[k], paths2[k])
    {
      var mp, mp2 := BlockProofPair(t, m, subDepth, |paths|);
      HoldsAppend(c, subDepth, paths, paths2, mp, mp2);
      paths, paths2 := paths + [mp], paths2 + [mp2];
      MulDistrib(|paths| - 1, 1, subCap);
      i := i + subCap;
    }
  }

  lemma HoldsAppend(c: Config, subDepth: nat, paths: seq<MerklePath>, paths2: seq<MerklePath>,
                    path: MerklePath, path2: MerklePath)
    requires |paths| == |paths2|
    requires forall k :: 0 <= k < |paths| ==> BlockProofHolds(c, subDepth, k, paths[k], paths2[k])
    requires BlockProofHolds(c, subDepth, |paths|, path, path2)
    ensures forall k :: 0 <= k < |paths| + 1 ==>
              BlockProofHolds(c, subDepth, k, (paths + [path])[k], (paths2 + [path2])[k])
  {
    forall k | 0 <= k < |paths| + 1
      ensures BlockProofHolds(c, subDepth, k, (paths + [path])[k], (paths2 + [path2])[k])
    {
      if k < |paths| {
        assert (paths + [path])[k] == paths[k] && (paths2 + [path2])[k] == paths2[k];
      }
    }
  }

  /** The q-th block of arity^sub leaves is aligned. */
  lemma BlockAligned(a: nat, sub: nat, q: nat)
    requires a >= 2
    ensures AlignedBlock(a, q * Pow(a, sub), q * Pow(a, sub) + Pow(a, sub))
  {
    var size := Pow(a, sub);
    LogOfPow(a, sub);
    DivOfMultiple(q, size);
    DivMod(q * size, size);
  }
}
