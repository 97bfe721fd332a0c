/** The working parts shared by the single tree and every shard of the multi-tree:
    each takes a tree's records (`filledPaths`, `filledSubtrees`, root, number of
    leaves written) as values and returns new ones, in O(depth) hash evaluations.
    Each is proved against the canonical records of TreeSpec. */
module TreeEngine {
  import opened Arith
  import opened Merkle
  import opened TreeSpec

  /** Exponent of n as a power of a, when it is one (0 otherwise). */
  function Log(n: nat, a: nat): (k: nat)
    requires a >= 2
  {
    if n <= 1 || n % a != 0 then 0 else 1 + Log(n / a, a)
  }

  predicate IsPower(n: nat, a: nat)
    requires a >= 2
  {
    n == Pow(a, Log(n, a))
  }

  /** [start, end) is exactly one aligned sub-tree: its size is a power of the arity
      and its start a multiple of that size. */
  predicate AlignedBlock(a: nat, start: nat, end: nat)
    requires a >= 2
  {
    start < end && IsPower(end - start, a) && start % (end - start) == 0
  }

  /** IsPower is the usual notion: n is some power of a. */
  lemma {:induction false} IsPowerIff(n: nat, a: nat)
    requires a >= 2
    ensures IsPower(n, a) <==> exists k :: n == Pow(a, k)
  {
    if exists k :: n == Pow(a, k) {
      var k :| n == Pow(a, k);
      LogOfPow(a, k);
    }
  }

  lemma {:induction false} LogOfPow(a: nat, k: nat)
    requires a >= 2
    ensures Log(Pow(a, k), a) == k
  {
    if k > 0 {
      LogOfPow(a, k - 1);
      DivOfMultiple(Pow(a, k - 1), a);
      DivMod(Pow(a, k), a);
    }
  }

  /** A power of the arity that is no larger than a^d has an exponent no larger than d. */
  lemma {:induction false} PowBelow(a: nat, k: nat, d: nat)
    requires a >= 2 && Pow(a, k) <= Pow(a, d)
    ensures k <= d
  {
    if k > d {
      var big, small := Pow(a, k - d), Pow(a, d);
      PowAdd(a, d, k - d);
      assert Pow(a, k) == small * big;
      MulAssoc(small, big, 1);
      MulMono(2, big, small);
    }
  }

  /** Builds the ZeroHash table level by level. */
  method ComputeZeros(c: Config) returns (zeros: seq<int>)
    ensures zeros == ZeroTable(c)
  {
    zeros := [c.zeroValue];
    var l := 0;
    while l < c.depth
      invariant l <= c.depth && |zeros| == l + 1
      invariant forall k :: 0 <= k <= l ==> zeros[k] == Zeros(c.arity, c.zeroValue, c.hashFunc, k)
    {
      zeros := zeros + [c.hashFunc(Repeat(zeros[l], c.arity))];
      l := l + 1;
    }
  }

  /** The records of a tree with no leaves: nothing filled, every cached group made
      of zero hashes, and the top-level zero hash as root. */
  method InitialRecords(c: Config, zeros: seq<int>) returns (paths: seq<seq<int>>, subtrees: seq<seq<int>>, root: int)
    requires ValidConfig(c) && zeros == ZeroTable(c)
    ensures paths == CanonicalPaths(c, Pad(c, []), 0)
    ensures subtrees == CanonicalSubtrees(c, Pad(c, []), 0)
    ensures root == TreeRoot(c, Pad(c, []))
  {
    paths := seq(c.depth + 1, _ => []);
    subtrees := seq(c.depth, l requires 0 <= l < c.depth => Repeat(zeros[l], c.arity));
    root := zeros[c.depth];
    EmptyRecords(c);
    EmptyTreeRoot(c);
  }

  /** Writes v at slot i (i == n appends a new leaf, i < n overwrites one) and
      recomputes the ancestors of i bottom-up, reading each sibling group from the
      records with the zero hash for nodes not yet filled. */
  method WriteLeaf(c: Config, zeros: seq<int>, paths: seq<seq<int>>, subtrees: seq<seq<int>>,
                   n: nat, i: nat, v: int, ghost P: seq<int>)
    returns (paths': seq<seq<int>>, subtrees': seq<seq<int>>, root': int)
    requires Padded(c, P, n) && zeros == ZeroTable(c)
    requires i <= n && i < |P|
    requires paths == CanonicalPaths(c, P, n) && subtrees == CanonicalSubtrees(c, P, n)
    ensures var n' := if i == n then n + 1 else n;
            && paths' == CanonicalPaths(c, P[i := v], n')
            && subtrees' == CanonicalSubtrees(c, P[i := v], n')
            && root' == TreeRoot(c, P[i := v])
  {
    var a := c.arity;
    assert a >= 2;
    var n' := if i == n then n + 1 else n;
    ghost var P' := P[i := v];
    assert Padded(c, P', n');
    paths', subtrees' := paths, subtrees;
    var node := v;
    var pos: nat, fpos: nat := i, n' - 1;
    var l := 0;
    while l < c.depth
      invariant l <= c.depth
      invariant pos == Ancestor(i, a, l) && fpos == Ancestor(n' - 1, a, l)
      invariant pos < |Nodes(c, P', l)| && node == Nodes(c, P', l)[pos]
      invariant |paths'| == c.depth + 1 && |subtrees'| == c.depth
      invariant forall k :: 0 <= k < l ==> paths'[k] == LevelNodes(c, P', n', k)
      invariant forall k :: l <= k <= c.depth ==> paths'[k] == paths[k]
      invariant forall k :: 0 <= k < l ==> subtrees'[k] == FrontierGroup(c, P', n', k)
      invariant forall k :: l <= k < c.depth ==> subtrees'[k] == subtrees[k]
    {
      var level, cached;
      level, cached, node := ClimbLevel(c, zeros, P, n, i, v, l, paths'[l], subtrees'[l], node, pos, fpos);
      paths', subtrees' := paths'[l := level], subtrees'[l := cached];
      pos, fpos := Parent(pos, a), Parent(fpos, a);
      l := l + 1;
    }
    AncestorInTree(c, i, c.depth);
    paths' := paths'[c.depth := [node]];
    root' := node;
    RecordsComplete(c, P', n', paths', subtrees', root');
  }

  /** Records that hold every level's occupied prefix and frontier group, with the root
      alone on the top level, are the canonical records. */
  lemma RecordsComplete(c: Config, P: seq<int>, n: nat, paths: seq<seq<int>>, subtrees: seq<seq<int>>, root: int)
    requires Padded(c, P, n) && 1 <= n
    requires |paths| == c.depth + 1 && |subtrees| == c.depth
    requires forall k :: 0 <= k < c.depth ==> paths[k] == LevelNodes(c, P, n, k)
    requires forall k :: 0 <= k < c.depth ==> subtrees[k] == FrontierGroup(c, P, n, k)
    requires paths[c.depth] == [root] && root == TreeRoot(c, P)
    ensures paths == CanonicalPaths(c, P, n) && subtrees == CanonicalSubtrees(c, P, n)
  {
    TopLevel(c, P, n);
  }

  /** WriteLeaf on a tree's state: writing v at slot i of the leaves (i == |leaves|
      appends) yields the state of the written leaves. */
  method WriteRecords(c: Config, zeros: seq<int>, ghost leaves: seq<int>, paths: seq<seq<int>>,
                      subtrees: seq<seq<int>>, root: int, n: nat, i: nat, v: int)
    returns (paths': seq<seq<int>>, subtrees': seq<seq<int>>, root': int)
    requires zeros == ZeroTable(c) && Consistent(c, leaves, paths, subtrees, root)
    requires n == |leaves| && i <= n && i < Capacity(c)
    ensures Consistent(c, if i == n then leaves + [v] else leaves[i := v], paths', subtrees', root')
  {
    PadWrite(c, leaves, i, v);
    paths', subtrees', root' := WriteLeaf(c, zeros, paths, subtrees, n, i, v, Pad(c, leaves));
  }

  /** One level of WriteLeaf: stores the new value of the ancestor of slot i in the
      level's record, reads its group back with zero hashes beyond the record, replaces
      the cached frontier group when that group is the frontier's, and hashes the group
      into the parent. */
  method ClimbLevel(c: Config, zeros: seq<int>, ghost P: seq<int>, n: nat, i: nat, v: int, l: nat,
                    level: seq<int>, cached: seq<int>, node: int, pos: nat, fpos: nat)
    returns (level': seq<int>, cached': seq<int>, parent: int)
    requires Padded(c, P, n) && zeros == ZeroTable(c)
    requires i <= n && i < |P| && l < c.depth
    requires level == LevelNodes(c, P, n, l) && cached == FrontierGroup(c, P, n, l)
    requires var n' := if i == n then n + 1 else n;
             && pos == Ancestor(i, c.arity, l) && fpos == Ancestor(n' - 1, c.arity, l)
             && pos < |Nodes(c, P[i := v], l)| && node == Nodes(c, P[i := v], l)[pos]
    ensures var n' := if i == n then n + 1 else n;
            && level' == LevelNodes(c, P[i := v], n', l)
            && cached' == FrontierGroup(c, P[i := v], n', l)
            && Ancestor(i, c.arity, l + 1) < |Nodes(c, P[i := v], l + 1)|
            && parent == Nodes(c, P[i := v], l + 1)[Ancestor(i, c.arity, l + 1)]
  {
    var a := c.arity;
    ghost var P', n' := P[i := v], if i == n then n + 1 else n;
    assert Padded(c, P', n');
    WriteLevel(c, P, n, i, v, l);
    level' := if pos < |level| then level[pos := node] else level + [node];
    assert level' == LevelNodes(c, P', n', l);
    var up := Parent(pos, a);
    ReadGroup(c, zeros, P', n', i, l);
    var group := RecordedGroup(level', zeros[l], up, a);
    if up == Parent(fpos, a) {
      cached' := group;
    } else {
      WriteFrontier(c, P, n, i, v, l);
      cached' := cached;
    }
    parent := c.hashFunc(group);
  }

  /** Reading back from the record of level l the group of the level-(l + 1) ancestor
      q of leaf i gives the group whose hash is node q of level l + 1; when q is also
      the frontier's ancestor, that group is the frontier group. */
  lemma ReadGroup(c: Config, zeros: seq<int>, P: seq<int>, n: nat, i: nat, l: nat)
    requires Padded(c, P, n) && zeros == ZeroTable(c) && i < n && l < c.depth
    ensures var a, q := c.arity, Ancestor(i, c.arity, l + 1);
            var group := RecordedGroup(LevelNodes(c, P, n, l), zeros[l], q, a);
            && q < |Nodes(c, P, l + 1)|
            && c.hashFunc(group) == Nodes(c, P, l + 1)[q]
            && (q == Ancestor(n - 1, a, l + 1) ==> group == FrontierGroup(c, P, n, l))
  {
    var q := Ancestor(i, c.arity, l + 1);
    AncestorInTree(c, i, l + 1);
    RecordedGroupExact(c, P, n, l, q);
    NodesLength(c, P, l);
    NodesLength(c, P, l + 1);
  }

  /** Reads from the records the sibling groups met when climbing from the
      level-`from` ancestor of leaf i to the root. */
  method CollectSiblings(c: Config, zeros: seq<int>, paths: seq<seq<int>>, n: nat, i: nat, from: nat,
                         ghost P: seq<int>)
    returns (elems: seq<seq<int>>)
    requires Padded(c, P, n) && zeros == ZeroTable(c) && paths == CanonicalPaths(c, P, n)
    requires i < |P| && from <= c.depth
    ensures elems == PathElements(c, P, i, from)
  {
    var a := c.arity;
    elems := [];
    var pos := Ancestor(i, a, from);
    var l := from;
    while l < c.depth
      invariant from <= l <= c.depth && pos == Ancestor(i, a, l)
      invariant elems == PathElements(c, P, i, from)[..l - from]
    {
      AncestorInTree(c, i, l + 1);
      var up := Parent(pos, a);
      RecordedGroupExact(c, P, n, l, up);
      assert paths[l] == LevelNodes(c, P, n, l);
      var group := RecordedGroup(paths[l], zeros[l], up, a);
      ghost var full := PathElements(c, P, i, from);
      assert full[l - from] == LevelSiblings(c, P, i, l);
      assert full[..l + 1 - from] == full[..l - from] + [full[l - from]];
      elems := elems + [group[..pos % a] + group[pos % a + 1..]];
      pos := up;
      l := l + 1;
    }
  }

  /** The proof for leaf i; a slot not yet written is proved to hold the zero value. */
  method LeafProof(c: Config, zeros: seq<int>, paths: seq<seq<int>>, root: int, n: nat, i: nat,
                   ghost P: seq<int>)
    returns (path: MerklePath)
    requires Padded(c, P, n) && zeros == ZeroTable(c) && paths == CanonicalPaths(c, P, n)
    requires root == TreeRoot(c, P) && i < |P|
    ensures path == LeafPath(c, P, i)
  {
    var leaf := if i < |paths[0]| then paths[0][i] else c.zeroValue;
    var elems := CollectSiblings(c, zeros, paths, n, i, 0, P);
    path := MerklePath(i, c.depth, leaf, elems, root);
  }

  /** Finds how many levels a block of `size` leaves spans, and whether it spans whole levels. */
  method BlockDepth(size: nat, a: nat) returns (sub: nat, exact: bool)
    requires a >= 2
    ensures sub == Log(size, a)
    ensures exact <==> IsPower(size, a)
  {
    var rest := size;
    sub := 0;
    while rest > 1 && rest % a == 0
      invariant size == rest * Pow(a, sub)
      invariant Log(size, a) == sub + Log(rest, a)
      decreases rest
    {
      BlockStep(size, a, rest, sub);
      rest := Parent(rest, a);
      sub := sub + 1;
    }
    BlockExit(size, a, rest, sub);
    exact := rest == 1;
  }

  /** One division of the remaining factor by the arity keeps the loop's accounting. */
  lemma BlockStep(size: nat, a: nat, rest: nat, sub: nat)
    requires a >= 2 && rest > 1 && rest % a == 0
    requires size == rest * Pow(a, sub) && Log(size, a) == sub + Log(rest, a)
    ensures size == (rest / a) * Pow(a, sub + 1) && Log(size, a) == sub + 1 + Log(rest / a, a)
    ensures rest / a < rest
  {
    var q := rest / a;
    DivMod(rest, a);
    assert rest == q * a;
    MulRegroup(q, Pow(a, sub), a);
    MulMono(2, a, q);
    MulAssoc(2, q, 1);
    MulAssoc(a, q, 1);
  }

  /** Once the remaining factor is no longer divisible, the block is a whole power exactly
      when nothing remains. */
  lemma BlockExit(size: nat, a: nat, rest: nat, sub: nat)
    requires a >= 2 && !(rest > 1 && rest % a == 0)
    requires size == rest * Pow(a, sub) && Log(size, a) == sub + Log(rest, a)
    ensures Log(size, a) == sub && (rest == 1 <==> IsPower(size, a))
  {
    var w := Pow(a, sub);
    assert Log(rest, a) == 0;
    if rest == 0 {
      assert size == 0;
    } else if rest > 1 {
      MulMono(2, rest, w);
    }
  }

  /** The proof for the aligned block [start, end): refused with MisalignedRange when
      the block is not one aligned sub-tree, with IndexOutOfRange when it ends past
      the capacity. Its leaf is the sub-root computed by the root calculator over the
      block's leaves (the zero value for slots not yet written). */
  method SubrootProof(c: Config, zeros: seq<int>, paths: seq<seq<int>>, root: int, n: nat,
                      start: nat, end: nat, ghost P: seq<int>)
    returns (r: Result<MerklePath>)
    requires Padded(c, P, n) && zeros == ZeroTable(c) && paths == CanonicalPaths(c, P, n)
    requires root == TreeRoot(c, P)
    ensures !AlignedBlock(c.arity, start, end) ==> r == Err(MisalignedRange)
    ensures AlignedBlock(c.arity, start, end) && end > |P| ==> r == Err(IndexOutOfRange)
    ensures r.Ok? <==> AlignedBlock(c.arity, start, end) && end <= |P|
    ensures r.Ok? ==> && Log(end - start, c.arity) <= c.depth && start < |P|
                      && r.value == SubrootPath(c, P, start, Log(end - start, c.arity))
  {
    var a := c.arity;
    if end <= start {
      return Err(MisalignedRange);
    }
    var size := end - start;
    var sub, exact := BlockDepth(size, a);
    if !exact || start % size != 0 {
      return Err(MisalignedRange);
    }
    if end > Capacity(c) {
      return Err(IndexOutOfRange);
    }
    var path := AlignedSubrootProof(c, zeros, paths, root, n, start, end, sub, P);
    r := Ok(path);
  }

  /** The proof of an aligned block inside the tree, whose height sub is already known. */
  method AlignedSubrootProof(c: Config, zeros: seq<int>, paths: seq<seq<int>>, root: int, n: nat,
                             start: nat, end: nat, sub: nat, ghost P: seq<int>)
    returns (path: MerklePath)
    requires Padded(c, P, n) && zeros == ZeroTable(c) && paths == CanonicalPaths(c, P, n)
    requires root == TreeRoot(c, P)
    requires AlignedBlock(c.arity, start, end) && end <= |P| && sub == Log(end - start, c.arity)
    ensures sub <= c.depth && start < |P| && path == SubrootPath(c, P, start, sub)
  {
    var a, size := c.arity, end - start;
    AlignedBlockBounds(a, start, end);
    PowBelow(a, sub, c.depth);
    var q := Parent(start, size);
    assert start == q * Pow(a, sub) && end == (q + 1) * Pow(a, sub);
    var block := seq(size, j requires 0 <= j < size =>
                       if start + j < |paths[0]| then paths[0][start + j] else c.zeroValue);
    assert block == P[start .. end];
    var subroot := CalculateRoot(block, a, c.hashFunc);
    SubrootIsCalculatedRoot(c, P, q, sub);
    AncestorOfMultiple(q, a, sub);
    var elems := CollectSiblings(c, zeros, paths, n, start, sub, P);
    path := MerklePath(q, c.depth - sub, subroot.value, elems, root);
  }

  /** An aligned block is the q-th run of arity^log(size) leaves, q = start / size. */
  lemma AlignedBlockBounds(a: nat, start: nat, end: nat)
    requires a >= 2 && AlignedBlock(a, start, end)
    ensures var size := end - start;
            && size == Pow(a, Log(size, a))
            && start == (start / size) * Pow(a, Log(size, a))
            && end == (start / size + 1) * Pow(a, Log(size, a))
  {
    var size := end - start;
    var q := start / size;
    DivMod(start, size);
    MulDistrib(q, 1, size);
    MulAssoc(q, size, 1);
  }

  /** The proof of an aligned block inside the tree verifies against the tree's root,
      is depth - log(size) levels long, and carries as its leaf the root calculated
      from the block's leaves. */
  lemma BlockPathVerifies(c: Config, P: seq<int>, start: nat, end: nat)
    requires ValidConfig(c) && |P| == Capacity(c)
    requires AlignedBlock(c.arity, start, end) && end <= |P|
    ensures Log(end - start, c.arity) <= c.depth && start < |P|
    ensures var path := SubrootPath(c, P, start, Log(end - start, c.arity));
            && VerifyMerklePath(path, c.hashFunc)
            && path.root == TreeRoot(c, P)
            && path.depth == c.depth - Log(end - start, c.arity)
            && CalculateRoot(P[start..end], c.arity, c.hashFunc) == Ok(path.leaf)
  {
    var a, size := c.arity, end - start;
    var sub := Log(size, a);
    AlignedBlockBounds(a, start, end);
    PowBelow(a, sub, c.depth);
    var q := Parent(start, size);
    assert start == q * Pow(a, sub) && end == (q + 1) * Pow(a, sub);
    SubrootPathVerifies(c, P, q, sub);
  }
}
