/** The sharded router: an unbounded stream of leaves spread over a chain of trees of
    equal capacity, each with its own root. Global leaf g lives in shard g / capacity
    at local slot g mod capacity; a new shard opens when the active one is full. The
    router keeps each shard's records side by side (`filledPaths[k]`,
    `filledSubtrees[k]`, `roots[k]`), as the single tree keeps its own. */
module Multi {
  import opened Arith
  import opened Merkle
  import opened TreeSpec
  import opened TreeEngine

  /** The global leaf list: the shards' leaves one after the other. */
  ghost function Flatten(shards: seq<seq<int>>): seq<int>
  {
    if shards == [] then [] else Flatten(shards[..|shards| - 1]) + shards[|shards| - 1]
  }

  /** At least one shard; every shard but the last is full; the last is not over-full. */
  ghost predicate Chained(shards: seq<seq<int>>, cap: nat) {
    && |shards| >= 1
    && (forall k :: 0 <= k < |shards| - 1 ==> |shards[k]| == cap)
    && |shards[|shards| - 1]| <= cap
  }

  lemma {:induction false} FlattenLength(shards: seq<seq<int>>, cap: nat)
    requires Chained(shards, cap)
    ensures |Flatten(shards)| == (|shards| - 1) * cap + |shards[|shards| - 1]|
  {
    var n := |shards|;
    if n > 1 {
      var init := shards[..n - 1];
      FlattenLength(init, cap);
      MulDistrib(n - 2, 1, cap);
    }
  }

  /** Global slot g is written exactly when its shard exists and its local slot is
      written there, and then it holds that shard's leaf. */
  lemma {:induction false} FlattenIndex(shards: seq<seq<int>>, cap: nat, g: nat)
    requires cap >= 1 && Chained(shards, cap)
    ensures g < |Flatten(shards)| <==> ShardOf(g, cap) < |shards| && SlotOf(g, cap) < |shards[ShardOf(g, cap)]|
    ensures g < |Flatten(shards)| ==> Flatten(shards)[g] == shards[ShardOf(g, cap)][SlotOf(g, cap)]
  {
    var n := |shards|;
    var init := shards[..n - 1];
    FlattenLength(shards, cap);
    if n > 1 && g < (n - 1) * cap {
      FlattenIndex(init, cap, g);
      FlattenLength(init, cap);
    } else {
      LastShardPosition(g, cap, n);
    }
  }

  /** Where a slot at or after the start of shard n - 1 falls. */
  lemma LastShardPosition(g: nat, cap: nat, n: nat)
    requires cap >= 1 && n >= 1 && g >= (n - 1) * cap
    ensures g < (n - 1) * cap + cap ==> ShardOf(g, cap) == n - 1 && SlotOf(g, cap) == g - (n - 1) * cap
    ensures g >= (n - 1) * cap + cap ==> ShardOf(g, cap) > n - 1
  {
    DivMod(g, cap);
    var q := g / cap;
    if q < n - 1 {
      MulMono(q + 1, n - 1, cap);
      MulDistrib(q, 1, cap);
    } else if q > n - 1 {
      MulMono(n, q, cap);
      MulDistrib(n - 1, 1, cap);
    }
  }

  /** Overwriting global slot g is overwriting local slot g mod cap of shard g / cap. */
  lemma FlattenUpdate(shards: seq<seq<int>>, cap: nat, g: nat, v: int)
    requires cap >= 1 && Chained(shards, cap) && g < |Flatten(shards)|
    ensures g / cap < |shards| && g % cap < |shards[g / cap]|
    ensures var updated := shards[g / cap := shards[g / cap][g % cap := v]];
            && Chained(updated, cap)
            && Flatten(updated) == Flatten(shards)[g := v]
  {
    FlattenIndex(shards, cap, g);
    var updated := shards[g / cap := shards[g / cap][g % cap := v]];
    assert Chained(updated, cap);
    FlattenLength(shards, cap);
    FlattenLength(updated, cap);
    forall k | 0 <= k < |Flatten(shards)|
      ensures Flatten(updated)[k] == Flatten(shards)[g := v][k]
    {
      FlattenUpdateAt(shards, cap, g, v, k);
    }
  }

  /** Slot k of the global list after the overwrite of slot g. */
  lemma FlattenUpdateAt(shards: seq<seq<int>>, cap: nat, g: nat, v: int, k: nat)
    requires cap >= 1 && Chained(shards, cap) && g / cap < |shards| && g % cap < |shards[g / cap]|
    requires Chained(shards[g / cap := shards[g / cap][g % cap := v]], cap)
    requires k < |Flatten(shards)| && k < |Flatten(shards[g / cap := shards[g / cap][g % cap := v]])|
    ensures Flatten(shards[g / cap := shards[g / cap][g % cap := v]])[k] == if k == g then v else Flatten(shards)[k]
  {
    var updated := shards[g / cap := shards[g / cap][g % cap := v]];
    DivBounds(k, cap);
    DivMod(k, cap);
    FlattenIndex(shards, cap, k);
    FlattenIndex(updated, cap, k);
    if k != g {
      DivModInjective(k, g, cap);
    }
  }

  /** Opening a shard after a full last one, or adding a leaf to a last shard that is
      not full, keeps the chain of shards. */
  lemma ChainedGrow(shards: seq<seq<int>>, cap: nat, v: int)
    requires Chained(shards, cap)
    ensures |shards[|shards| - 1]| == cap ==> Chained(shards + [[]], cap)
    ensures |shards[|shards| - 1]| < cap ==> Chained(shards[|shards| - 1 := shards[|shards| - 1] + [v]], cap)
  {
  }

  /** Appending to the last shard, or opening a shard with one leaf, appends to the
      global leaf list. */
  lemma FlattenAppend(shards: seq<seq<int>>, v: int)
    requires |shards| >= 1
    ensures Flatten(shards[|shards| - 1 := shards[|shards| - 1] + [v]]) == Flatten(shards) + [v]
    ensures Flatten(shards + [[v]]) == Flatten(shards) + [v]
  {
    var n := |shards|;
    assert shards[n - 1 := shards[n - 1] + [v]][..n - 1] == shards[..n - 1];
    assert (shards + [[v]])[..n] == shards;
  }

  /** The leaf row of the shard holding global slot g holds, at g's local slot, the
      leaf written there, or the zero value when g is not yet written. */
  lemma GlobalLeaf(c: Config, shards: seq<seq<int>>, g: nat)
    requires ValidConfig(c) && Chained(shards, Capacity(c)) && g / Capacity(c) < |shards|
    ensures 0 <= g / Capacity(c) && 0 <= g % Capacity(c) < Capacity(c)
    ensures Pad(c, shards[g / Capacity(c)])[g % Capacity(c)]
            == if g < |Flatten(shards)| then Flatten(shards)[g] else c.zeroValue
  {
    var cap := Capacity(c);
    DivBounds(g, cap);
    DivMod(g, cap);
    FlattenIndex(shards, cap, g);
  }

  /** The shard holding global slot g. */
  function ShardOf(g: nat, cap: nat): nat
    requires cap >= 1
  {
    DivBounds(g, cap);
    g / cap
  }

  /** The slot of global slot g within its shard. */
  function SlotOf(g: nat, cap: nat): (j: nat)
    requires cap >= 1
    ensures j < cap
  {
    DivMod(g, cap);
    g % cap
  }

  /** Routing: global slot g lies in the run of cap slots that starts shard ShardOf(g, cap),
      at offset SlotOf(g, cap), and that is the only shard whose run contains g. */
  lemma Routing(g: nat, cap: nat, s: nat)
    requires cap >= 1
    ensures ShardOf(g, cap) * cap <= g < ShardOf(g, cap) * cap + cap
    ensures g == ShardOf(g, cap) * cap + SlotOf(g, cap)
    ensures s * cap <= g < s * cap + cap ==> ShardOf(g, cap) == s
  {
    DivMod(g, cap);
    if s * cap <= g < s * cap + cap {
      DivUnique(g, cap, s);
    }
  }

  /** Shard k's records are the state of shard k's leaves, for every shard. */
  ghost predicate AllConsistent(c: Config, shards: seq<seq<int>>, paths: seq<seq<seq<int>>>,
                                subtrees: seq<seq<seq<int>>>, roots: seq<int>) {
    && |paths| == |shards| && |subtrees| == |shards| && |roots| == |shards|
    && forall k {:trigger Consistent(c, shards[k], paths[k], subtrees[k], roots[k])} :: 0 <= k < |shards| ==>
         Consistent(c, shards[k], paths[k], subtrees[k], roots[k])
  }

  /** Replacing one shard's leaves and records by a consistent pair keeps every shard consistent. */
  lemma AllConsistentSet(c: Config, shards: seq<seq<int>>, paths: seq<seq<seq<int>>>,
                         subtrees: seq<seq<seq<int>>>, roots: seq<int>, k: nat,
                         leaves: seq<int>, p: seq<seq<int>>, s: seq<seq<int>>, r: int)
    requires AllConsistent(c, shards, paths, subtrees, roots) && k < |shards|
    requires Consistent(c, leaves, p, s, r)
    ensures AllConsistent(c, shards[k := leaves], paths[k := p], subtrees[k := s], roots[k := r])
  {
    var shards', paths', subtrees', roots' := shards[k := leaves], paths[k := p], subtrees[k := s], roots[k := r];
    forall j | 0 <= j < |shards'|
      ensures Consistent(c, shards'[j], paths'[j], subtrees'[j], roots'[j])
    {
      if j != k {
        assert Consistent(c, shards[j], paths[j], subtrees[j], roots[j]);
      }
    }
  }

  /** Appending a consistent shard keeps every shard consistent. */
  lemma AllConsistentAppend(c: Config, shards: seq<seq<int>>, paths: seq<seq<seq<int>>>,
                            subtrees: seq<seq<seq<int>>>, roots: seq<int>,
                            leaves: seq<int>, p: seq<seq<int>>, s: seq<seq<int>>, r: int)
    requires AllConsistent(c, shards, paths, subtrees, roots)
    requires Consistent(c, leaves, p, s, r)
    ensures AllConsistent(c, shards + [leaves], paths + [p], subtrees + [s], roots + [r])
  {
    var shards', paths', subtrees', roots' := shards + [leaves], paths + [p], subtrees + [s], roots + [r];
    forall j | 0 <= j < |shards'|
      ensures Consistent(c, shards'[j], paths'[j], subtrees'[j], roots'[j])
    {
      if j < |shards| {
        assert Consistent(c, shards[j], paths[j], subtrees[j], roots[j]);
      }
    }
  }

  class MultiIncrementalTree {
    const config: Config
    /** The ZeroHash table shared by every shard. */
    const zeros: seq<int>
    var filledPaths: seq<seq<seq<int>>>
    var filledSubtrees: seq<seq<seq<int>>>
    var roots: seq<int>
    /** The active shard: the last one opened. */
    var currentTreeNum: nat
    /** The number of leaves in the active shard. */
    var nextIndex: nat
    /** The leaves of each shard, in order, with updates applied. */
    ghost var shards: seq<seq<int>>

    ghost predicate Valid()
      reads this
    {
      && ValidConfig(config)
      && zeros == ZeroTable(config)
      && |shards| == currentTreeNum + 1
      && Chained(shards, Capacity(config))
      && nextIndex == |shards[currentTreeNum]|
      && AllConsistent(config, shards, filledPaths, filledSubtrees, roots)
    }

    /** A router holding one empty shard, whose root is the root calculator's result on
        `capacity` zeros. */
    constructor (depth: nat, zeroValue: int, arity: nat, hashFunc: seq<int> -> int)
      requires arity >= 2
      ensures Valid() && shards == [[]] && currentTreeNum == 0 && nextIndex == 0
      ensures config == Config(depth, arity, zeroValue, hashFunc)
      ensures CalculateRoot(Repeat(zeroValue, Pow(arity, depth)), arity, hashFunc) == Ok(roots[0])
    {
      var c := Config(depth, arity, zeroValue, hashFunc);
      config := c;
      var zs := ComputeZeros(c);
      zeros := zs;
      var paths, subtrees, top := InitialRecords(c, zs);
      filledPaths, filledSubtrees, roots := [paths], [subtrees], [top];
      currentTreeNum, nextIndex := 0, 0;
      shards := [[]];
      EmptyTreeRoot(c);
      AllConsistentAppend(c, [], [], [], [], [], paths, subtrees, top);
    }

    /** Opens a new, empty shard after the full active one and makes it active. */
    method OpenShard()
      requires Valid() && nextIndex == Capacity(config)
      modifies this
      ensures Valid()
      ensures shards == old(shards) + [[]] && currentTreeNum == old(currentTreeNum) + 1 && nextIndex == 0
      ensures roots[..old(|roots|)] == old(roots)
    {
      var paths, subtrees, top := InitialRecords(config, zeros);
      ChainedGrow(shards, Capacity(config), 0);
      AllConsistentAppend(config, shards, filledPaths, filledSubtrees, roots, [], paths, subtrees, top);
      filledPaths, filledSubtrees, roots := filledPaths + [paths], filledSubtrees + [subtrees], roots + [top];
      shards := shards + [[]];
      currentTreeNum, nextIndex := currentTreeNum + 1, 0;
    }

    /** Appends a leaf to the active shard, opening a new shard first when the active
        one is full; the router never refuses a leaf. */
    method Insert(leaf: int)
      requires Valid()
      modifies this
      ensures Valid()
      ensures Flatten(shards) == old(Flatten(shards)) + [leaf]
      ensures old(nextIndex) == Capacity(config) ==> shards == old(shards) + [[leaf]]
      ensures old(nextIndex) < Capacity(config) ==>
                shards == old(shards)[old(currentTreeNum) := old(shards)[old(currentTreeNum)] + [leaf]]
    {
      if nextIndex == Capacity(config) {
        OpenShard();
        ghost var widened := shards;
        assert widened[..|old(shards)|] == old(shards);
        AppendToActive(leaf);
        ghost var n := |old(shards)|;
        assert shards == widened[n := [] + [leaf]] && |shards| == n + 1;
        assert shards[..n] == old(shards) && shards[n] == [leaf];
        assert shards == shards[..n] + [shards[n]];
      } else {
        AppendToActive(leaf);
      }
    }

    /** Appends a leaf to the active shard, which has room for it. */
    method AppendToActive(leaf: int)
      requires Valid() && nextIndex < Capacity(config)
      modifies this
      ensures Valid() && currentTreeNum == old(currentTreeNum)
      ensures shards == old(shards)[currentTreeNum := old(shards)[currentTreeNum] + [leaf]]
      ensures Flatten(shards) == old(Flatten(shards)) + [leaf]
    {
      var t := currentTreeNum;
      FlattenAppend(shards, leaf);
      ChainedGrow(shards, Capacity(config), leaf);
      assert Consistent(config, shards[t], filledPaths[t], filledSubtrees[t], roots[t]);
      var paths, subtrees, top :=
        WriteRecords(config, zeros, shards[t], filledPaths[t], filledSubtrees[t], roots[t], nextIndex, nextIndex, leaf);
      AllConsistentSet(config, shards, filledPaths, filledSubtrees, roots, t, shards[t] + [leaf], paths, subtrees, top);
      filledPaths, filledSubtrees, roots := filledPaths[t := paths], filledSubtrees[t := subtrees], roots[t := top];
      shards := shards[t := shards[t] + [leaf]];
      nextIndex := nextIndex + 1;
    }

    /** Overwrites global leaf g in its shard. A shard not yet opened is refused with
        ShardNotFound, a slot not yet inserted in an open shard with IndexNotInserted;
        a refused call leaves the router unchanged. */
    method Update(g: nat, leaf: int) returns (r: Outcome)
      requires Valid()
      modifies this
      ensures Valid() && currentTreeNum == old(currentTreeNum) && nextIndex == old(nextIndex)
      ensures r == Pass <==> g < |old(Flatten(shards))|
      ensures ShardOf(g, Capacity(config)) >= old(|shards|) ==> r == Fail(ShardNotFound)
      ensures var s, j := ShardOf(g, Capacity(config)), SlotOf(g, Capacity(config));
              s < old(|shards|) && j >= |old(shards)[s]| ==> r == Fail(IndexNotInserted)
      ensures r.Fail? ==> && shards == old(shards) && roots == old(roots)
                          && filledPaths == old(filledPaths) && filledSubtrees == old(filledSubtrees)
      ensures r == Pass ==> var s, j := ShardOf(g, Capacity(config)), SlotOf(g, Capacity(config));
                            && s < old(|shards|) && j < |old(shards)[s]|
                            && Flatten(shards) == old(Flatten(shards))[g := leaf]
                            && shards == old(shards)[s := old(shards)[s][j := leaf]]
    {
      var cap := Capacity(config);
      FlattenIndex(shards, cap, g);
      var s, j := ShardOf(g, cap), SlotOf(g, cap);
      if s > currentTreeNum {
        return Fail(ShardNotFound);
      }
      var n := if s == currentTreeNum then nextIndex else cap;
      if j >= n {
        return Fail(IndexNotInserted);
      }
      FlattenUpdate(shards, cap, g, leaf);
      assert Consistent(config, shards[s], filledPaths[s], filledSubtrees[s], roots[s]);
      var paths, subtrees, top :=
        WriteRecords(config, zeros, shards[s], filledPaths[s], filledSubtrees[s], roots[s], n, j, leaf);
      AllConsistentSet(config, shards, filledPaths, filledSubtrees, roots, s, shards[s][j := leaf], paths, subtrees, top);
      filledPaths, filledSubtrees, roots := filledPaths[s := paths], filledSubtrees[s := subtrees], roots[s := top];
      shards := shards[s := shards[s][j := leaf]];
      r := Pass;
    }

    /** The proof for global leaf g, from its shard and against that shard's root; a
        shard not yet opened is refused with ShardNotFound. */
    method GenMerklePath(g: nat) returns (r: Result<MerklePath>)
      requires Valid()
      ensures ShardOf(g, Capacity(config)) >= |shards| <==> r == Err(ShardNotFound)
      ensures r.Ok? <==> ShardOf(g, Capacity(config)) < |shards|
      ensures r.Ok? ==> var s := ShardOf(g, Capacity(config));
                        && s < |shards|
                        && r.value == LeafPath(config, Pad(config, shards[s]), SlotOf(g, Capacity(config)))
                        && VerifyMerklePath(r.value, config.hashFunc)
                        && r.value.root == roots[s]
                        && r.value.leaf == (if g < |Flatten(shards)| then Flatten(shards)[g] else config.zeroValue)
    {
      var cap := Capacity(config);
      DivBounds(g, cap);
      var s, j := g / cap, g % cap;
      if s > currentTreeNum {
        return Err(ShardNotFound);
      }
      GlobalLeaf(config, shards, g);
      var n := if s == currentTreeNum then nextIndex else cap;
      assert Consistent(config, shards[s], filledPaths[s], filledSubtrees[s], roots[s]);
      var path := LeafProof(config, zeros, filledPaths[s], roots[s], n, j, Pad(config, shards[s]));
      LeafPathVerifies(config, Pad(config, shards[s]), j);
      r := Ok(path);
    }

    /** The proof for the aligned block [start, end), from the shard holding it. A block
        that is not one aligned sub-tree, or is larger than a shard and so would cross
        a shard boundary, is refused with MisalignedRange; one in a shard not yet
        opened with ShardNotFound. */
    method GenMerkleSubrootPath(start: nat, end: nat) returns (r: Result<MerklePath>)
      requires Valid()
      ensures !AlignedBlock(config.arity, start, end) || end - start > Capacity(config) ==>
                r == Err(MisalignedRange)
      ensures (AlignedBlock(config.arity, start, end) && end - start <= Capacity(config)
               && ShardOf(start, Capacity(config)) >= |shards|) ==> r == Err(ShardNotFound)
      ensures r.Ok? <==> AlignedBlock(config.arity, start, end) && end - start <= Capacity(config)
                         && ShardOf(start, Capacity(config)) < |shards|
      ensures r.Ok? ==> var s, local, sub := ShardOf(start, Capacity(config)), SlotOf(start, Capacity(config)),
                                            Log(end - start, config.arity);
                        && s < |shards| && sub <= config.depth && local + (end - start) <= Capacity(config)
                        && r.value == SubrootPath(config, Pad(config, shards[s]), local, sub)
                        && VerifyMerklePath(r.value, config.hashFunc)
                        && r.value.root == roots[s]
                        && r.value.depth == config.depth - sub
                        && CalculateRoot(Pad(config, shards[s])[local .. local + (end - start)],
                                         config.arity, config.hashFunc) == Ok(r.value.leaf)
    {
      var a, cap := config.arity, Capacity(config);
      if end <= start {
        return Err(MisalignedRange);
      }
      var size := end - start;
      var sub, exact := BlockDepth(size, a);
      if !exact || start % size != 0 || size > cap {
        return Err(MisalignedRange);
      }
      var s, local := ShardOf(start, cap), SlotOf(start, cap);
      if s > currentTreeNum {
        return Err(ShardNotFound);
      }
      BlockInShard(a, config.depth, start, end);
      var path := ShardBlockProof(s, local, size, sub);
      r := Ok(path);
    }

    /** The proof of the aligned block of `size` leaves at slot `local` of shard s, whose
        height sub is already known. */
    method ShardBlockProof(s: nat, local: nat, size: nat, sub: nat) returns (path: MerklePath)
      requires Valid() && s < |shards|
      requires AlignedBlock(config.arity, local, local + size) && local + size <= Capacity(config)
      requires sub == Log(size, config.arity)
      ensures sub <= config.depth
      ensures path == SubrootPath(config, Pad(config, shards[s]), local, sub)
      ensures VerifyMerklePath(path, config.hashFunc) && path.root == roots[s] && path.depth == config.depth - sub
      ensures CalculateRoot(Pad(config, shards[s])[local .. local + size], config.arity, config.hashFunc)
              == Ok(path.leaf)
    {
      var n := if s == currentTreeNum then nextIndex else Capacity(config);
      assert Consistent(config, shards[s], filledPaths[s], filledSubtrees[s], roots[s]);
      ghost var P := Pad(config, shards[s]);
      var localEnd := local + size;
      assert localEnd - local == size;
      path := AlignedSubrootProof(config, zeros, filledPaths[s], roots[s], n, local, localEnd, sub, P);
      BlockPathVerifies(config, P, local, localEnd);
    }
  }

  /** An aligned block no larger than a shard lies inside one shard: from its slot in
      that shard a whole block still fits, and it is aligned there again. */
  lemma BlockInShard(a: nat, d: nat, start: nat, end: nat)
    requires a >= 2 && AlignedBlock(a, start, end) && end - start <= Pow(a, d)
    ensures var local := SlotOf(start, Pow(a, d));
            local + (end - start) <= Pow(a, d) && AlignedBlock(a, local, local + (end - start))
  {
    var cap, size := Pow(a, d), end - start;
    var k := Log(size, a);
    PowBelow(a, k, d);
    PowAdd(a, k, d - k);
    var w := Pow(a, d - k);
    assert size == Pow(a, k);
    assert cap == size * w;
    ShardSplit(start, size, w, cap);
  }

  /** Cutting positions into shards of cap = size * w slots keeps a multiple of size a
      multiple of size, with a whole run of size still inside its shard. */
  lemma ShardSplit(start: nat, size: nat, w: nat, cap: nat)
    requires size >= 1 && cap == size * w && cap >= 1 && start % size == 0
    ensures var s := start / cap;
            && s * cap <= start
            && start - s * cap == start % cap
            && (start - s * cap) % size == 0
            && start - s * cap + size <= cap
  {
    var s := start / cap;
    DivMod(start, cap);
    var r := start - s * cap;
    MulAssoc(s, w, size);
    MulAssoc(w, size, 1);
    assert s * cap == (s * w) * size;
    ModOfShift(start, s * w, size);
    MultipleInBlock(r, size, w);
  }

  /** Each shard's root is the root calculator's result on the shard's padded leaves,
      and on the shard's leaves themselves once it is full. */
  lemma ShardRoot(m: MultiIncrementalTree, k: nat)
    requires m.Valid() && k < |m.shards|
    ensures CalculateRoot(Pad(m.config, m.shards[k]), m.config.arity, m.config.hashFunc) == Ok(m.roots[k])
    ensures |m.shards[k]| == Capacity(m.config) ==>
              CalculateRoot(m.shards[k], m.config.arity, m.config.hashFunc) == Ok(m.roots[k])
  {
    assert Consistent(m.config, m.shards[k], m.filledPaths[k], m.filledSubtrees[k], m.roots[k]);
    ConsistentRoot(m.config, m.shards[k], m.filledPaths[k], m.filledSubtrees[k], m.roots[k]);
  }
}
