/** What a tree of fixed depth and arity holds, stated on the full row of
    `arity^depth` leaves in which every slot not yet written holds the zero value:
    the nodes of each level, the per-level records the tree keeps
    (`filledPaths`, `filledSubtrees`), its root, and the proofs it hands out. */
module TreeSpec {
  import opened Arith
  import opened Merkle

  /** The full leaf row of a tree holding `leaves`: absent slots hold the zero value. */
  function Pad(c: Config, leaves: seq<int>): (p: seq<int>)
    requires |leaves| <= Capacity(c)
    ensures |p| == Capacity(c)
    ensures forall j :: 0 <= j < |leaves| ==> p[j] == leaves[j]
    ensures forall j :: |leaves| <= j < |p| ==> p[j] == c.zeroValue
  {
    leaves + Repeat(c.zeroValue, Capacity(c) - |leaves|)
  }

  /** P is a full leaf row of which only the first n slots may differ from the zero value. */
  ghost predicate Padded(c: Config, P: seq<int>, n: nat) {
    && ValidConfig(c)
    && |P| == Capacity(c)
    && n <= |P|
    && forall j :: n <= j < |P| ==> P[j] == c.zeroValue
  }

  /** The nodes of level l. */
  function Nodes(c: Config, P: seq<int>, l: nat): (r: seq<int>)
    requires ValidConfig(c)
  {
    LayerAt(P, c.arity, c.hashFunc, l)
  }

  /** The root of the tree whose full leaf row is P. */
  function TreeRoot(c: Config, P: seq<int>): (r: int)
    requires ValidConfig(c) && |P| == Capacity(c)
  {
    LevelRoot(P, c.arity, c.hashFunc, c.depth)
  }

  /** The ZeroHash table, one entry per level 0..depth. */
  function ZeroTable(c: Config): (zs: seq<int>)
    ensures |zs| == c.depth + 1
  {
    seq(c.depth + 1, l requires 0 <= l < c.depth + 1 => Zeros(c.arity, c.zeroValue, c.hashFunc, l))
  }

  /** Level l of a full tree has arity^(depth - l) nodes. */
  lemma NodesLength(c: Config, P: seq<int>, l: nat)
    requires ValidConfig(c) && |P| == Capacity(c) && l <= c.depth
    ensures |Nodes(c, P, l)| == Pow(c.arity, c.depth - l)
  {
    LayerAtPowLength(P, c.arity, c.hashFunc, c.depth, l);
  }

  /** Below the top, level l splits into arity^(depth - l - 1) whole groups. */
  lemma GroupsOfLevel(c: Config, l: nat)
    requires ValidConfig(c) && l < c.depth
    ensures Pow(c.arity, c.depth - l) == Pow(c.arity, c.depth - l - 1) * c.arity
    ensures Pow(c.arity, c.depth - l) / c.arity == Pow(c.arity, c.depth - l - 1)
  {
    DivOfMultiple(Pow(c.arity, c.depth - l - 1), c.arity);
  }

  /** The ancestor at level l of a leaf of the tree is a node of level l. */
  lemma AncestorInTree(c: Config, i: nat, l: nat)
    requires ValidConfig(c) && i < Capacity(c) && l <= c.depth
    ensures Ancestor(i, c.arity, l) < Pow(c.arity, c.depth - l)
  {
    PowAdd(c.arity, c.depth - l, l);
    AncestorBound(i, Pow(c.arity, c.depth - l), c.arity, l);
  }

  /** The nodes of level l that cover at least one of the first n leaves: what
      `filledPaths[l]` records. */
  function LevelNodes(c: Config, P: seq<int>, n: nat, l: nat): (r: seq<int>)
    requires ValidConfig(c) && |P| == Capacity(c) && n <= |P| && l <= c.depth
    ensures |r| == Occupied(n, c.arity, l)
  {
    NodesLength(c, P, l);
    OccupiedBound(n, c.arity, c.depth, l);
    Nodes(c, P, l)[..Occupied(n, c.arity, l)]
  }

  function CanonicalPaths(c: Config, P: seq<int>, n: nat): (r: seq<seq<int>>)
    requires ValidConfig(c) && |P| == Capacity(c) && n <= |P|
    ensures |r| == c.depth + 1
  {
    seq(c.depth + 1, l requires 0 <= l < c.depth + 1 => LevelNodes(c, P, n, l))
  }

  /** The last leaf written, or slot 0 while nothing is. */
  function Frontier(n: nat): nat {
    if n == 0 then 0 else n - 1
  }

  /** The group of arity nodes at level l holding the frontier's ancestor: what
      `filledSubtrees[l]` caches. */
  function FrontierGroup(c: Config, P: seq<int>, n: nat, l: nat): (g: seq<int>)
    requires ValidConfig(c) && |P| == Capacity(c) && n <= |P| && l < c.depth
    ensures |g| == c.arity
  {
    NodesLength(c, P, l);
    GroupsOfLevel(c, l);
    AncestorInTree(c, Frontier(n), l + 1);
    Group(Nodes(c, P, l), c.arity, Ancestor(Frontier(n), c.arity, l + 1))
  }

  function CanonicalSubtrees(c: Config, P: seq<int>, n: nat): (r: seq<seq<int>>)
    requires ValidConfig(c) && |P| == Capacity(c) && n <= |P|
    ensures |r| == c.depth
  {
    seq(c.depth, l requires 0 <= l < c.depth => FrontierGroup(c, P, n, l))
  }

  /** The q-th group of a level as the tree reads it from its records: the recorded
      node where there is one, the level's zero hash beyond. */
  function RecordedGroup(level: seq<int>, zero: int, q: nat, a: nat): (g: seq<int>)
    ensures |g| == a
  {
    seq(a, j requires 0 <= j < a => if q * a + j < |level| then level[q * a + j] else zero)
  }

  /** The arity - 1 siblings, in order, of the level-l ancestor of leaf i. */
  function LevelSiblings(c: Config, P: seq<int>, i: nat, l: nat): (r: seq<int>)
    requires ValidConfig(c) && |P| == Capacity(c) && i < |P| && l < c.depth
    ensures |r| == c.arity - 1
  {
    NodesLength(c, P, l);
    GroupsOfLevel(c, l);
    AncestorInTree(c, i, l + 1);
    var p := Ancestor(i, c.arity, l);
    var g := Group(Nodes(c, P, l), c.arity, p / c.arity);
    g[..p % c.arity] + g[p % c.arity + 1..]
  }

  /** The sibling groups met when climbing from the level-`from` ancestor of leaf i to the root. */
  function PathElements(c: Config, P: seq<int>, i: nat, from: nat): (r: seq<seq<int>>)
    requires ValidConfig(c) && |P| == Capacity(c) && i < |P| && from <= c.depth
    ensures |r| == c.depth - from
    ensures forall k :: 0 <= k < |r| ==> |r[k]| == c.arity - 1
  {
    var r := seq(c.depth - from, k requires 0 <= k < c.depth - from => LevelSiblings(c, P, i, from + k));
    assert forall k :: 0 <= k < |r| ==> r[k] == LevelSiblings(c, P, i, from + k);
    r
  }

  /** The proof for leaf i. */
  function LeafPath(c: Config, P: seq<int>, i: nat): MerklePath
    requires ValidConfig(c) && |P| == Capacity(c) && i < |P|
  {
    MerklePath(i, c.depth, P[i], PathElements(c, P, i, 0), TreeRoot(c, P))
  }

  /** The proof for the aligned block of arity^sub leaves starting at `start`: its
      leaf is the block's sub-root, its index the sub-root's position on level sub. */
  function SubrootPath(c: Config, P: seq<int>, start: nat, sub: nat): MerklePath
    requires ValidConfig(c) && |P| == Capacity(c) && start < |P| && sub <= c.depth
  {
    NodesLength(c, P, sub);
    AncestorInTree(c, start, sub);
    var p := Ancestor(start, c.arity, sub);
    MerklePath(p, c.depth - sub, Nodes(c, P, sub)[p], PathElements(c, P, start, sub), TreeRoot(c, P))
  }

  // ---------------------------------------------------------------------------
  // How the levels react to writes, padding and slicing

  /** Writing leaf i changes, on every level, only the ancestor of i. */
  lemma {:induction false} LayerAtUpdate(s: seq<int>, a: nat, hash: seq<int> -> int, i: nat, v: int, l: nat)
    requires a >= 1 && i < |s|
    ensures |LayerAt(s[i := v], a, hash, l)| == |LayerAt(s, a, hash, l)|
    ensures forall p :: 0 <= p < |LayerAt(s, a, hash, l)| && p != Ancestor(i, a, l) ==>
              LayerAt(s[i := v], a, hash, l)[p] == LayerAt(s, a, hash, l)[p]
  {
    if l > 0 {
      LayerAtUpdate(s, a, hash, i, v, l - 1);
      var x := LayerAt(s, a, hash, l - 1);
      var x' := LayerAt(s[i := v], a, hash, l - 1);
      forall p | 0 <= p < |x| / a && p != Ancestor(i, a, l)
        ensures Group(x', a, p) == Group(x, a, p)
      {
        GroupUnchanged(x, x', a, Ancestor(i, a, l - 1), p);
      }
    }
  }

  /** A group that does not hold the one changed node is unchanged. */
  lemma GroupUnchanged(x: seq<int>, x': seq<int>, a: nat, changed: nat, p: nat)
    requires a >= 1 && |x'| == |x| && p < |x| / a && p != changed / a
    requires forall m :: 0 <= m < |x| && m != changed ==> x'[m] == x[m]
    ensures Group(x', a, p) == Group(x, a, p)
  {
    GroupFits(|x|, a, p);
    forall m | p * a <= m < p * a + a
      ensures x'[m] == x[m]
    {
      DivUnique(m, a, p);
    }
  }

  /** Slots from n on holding the zero value make every node of level l past the
      occupied prefix the zero hash of that level. */
  lemma {:induction false} LayerAtPadding(s: seq<int>, a: nat, hash: seq<int> -> int, z: int, n: nat, l: nat)
    requires a >= 1
    requires forall j :: n <= j < |s| ==> s[j] == z
    ensures forall p :: Occupied(n, a, l) <= p < |LayerAt(s, a, hash, l)| ==>
              LayerAt(s, a, hash, l)[p] == Zeros(a, z, hash, l)
  {
    if l > 0 {
      LayerAtPadding(s, a, hash, z, n, l - 1);
      var x := LayerAt(s, a, hash, l - 1);
      forall p | Occupied(n, a, l) <= p < |x| / a
        ensures LayerAt(s, a, hash, l)[p] == Zeros(a, z, hash, l)
      {
        OccupiedChildren(n, a, l - 1, p);
        GroupFits(|x|, a, p);
        assert Group(x, a, p) == Repeat(Zeros(a, z, hash, l - 1), a);
      }
    }
  }

  /** One level up, a slice of whole groups becomes the slice of their parents. */
  lemma LayerSlice(s: seq<int>, a: nat, hash: seq<int> -> int, x: nat, y: nat)
    requires a >= 1 && x <= y && y * a <= |s|
    ensures y <= |s| / a
    ensures Layer(s[x * a .. y * a], a, hash) == Layer(s, a, hash)[x .. y]
  {
    SliceBounds(|s|, a, x, y);
    var t := s[x * a .. y * a];
    forall q | 0 <= q < y - x
      ensures Group(t, a, q) == Group(s, a, x + q)
    {
      GroupOfSlice(s, a, x, y, q);
    }
  }

  /** Group q of a slice of whole groups x..y is group x + q of the whole. */
  lemma GroupOfSlice(s: seq<int>, a: nat, x: nat, y: nat, q: nat)
    requires a >= 1 && x <= y && y * a <= |s| && q < y - x
    ensures x * a <= y * a && q < (y * a - x * a) / a && x + q < |s| / a
    ensures Group(s[x * a .. y * a], a, q) == Group(s, a, x + q)
  {
    SliceBounds(|s|, a, x, y);
    var lo, hi := x * a, y * a;
    var t := s[lo .. hi];
    GroupFits(|t|, a, q);
    MulDistrib(x, q, a);
    var off := q * a;
    assert Group(t, a, q) == t[off .. off + a];
    assert Group(s, a, x + q) == s[lo + off .. lo + off + a];
    SliceOfSlice(s, lo, hi, off, off + a);
  }

  lemma SliceOfSlice(s: seq<int>, lo: nat, hi: nat, i: nat, j: nat)
    requires lo <= hi <= |s| && i <= j <= hi - lo
    ensures s[lo .. hi][i .. j] == s[lo + i .. lo + j]
  {
    var t := s[lo .. hi];
    forall k | 0 <= k < j - i
      ensures t[i .. j][k] == s[lo + i .. lo + j][k]
    {
      assert t[i .. j][k] == t[i + k] == s[lo + i + k];
    }
  }

  /** The bounds of a slice of whole groups x..y of n elements. */
  lemma SliceBounds(n: nat, a: nat, x: nat, y: nat)
    requires a >= 1 && x <= y && y * a <= n
    ensures x * a <= y * a && y <= n / a && (y * a - x * a) / a == y - x
  {
    DivOfMultiple(y, a);
    DivMono(y * a, n, a);
    MulMono(x, y, a);
    MulDistrib(y - x, x, a);
    DivOfMultiple(y - x, a);
  }

  /** The nodes of level l over the leaves of whole blocks x..y of size arity^l (the
      leaves lo..hi) are exactly nodes x..y of level l. */
  lemma {:induction false} LayerAtSlice(s: seq<int>, a: nat, hash: seq<int> -> int, l: nat, x: nat, y: nat, lo: nat, hi: nat)
    requires a >= 1 && x <= y && lo == x * Pow(a, l) && hi == y * Pow(a, l) && hi <= |s|
    ensures lo <= hi && y <= |LayerAt(s, a, hash, l)|
    ensures LayerAt(s[lo .. hi], a, hash, l) == LayerAt(s, a, hash, l)[x .. y]
    decreases l
  {
    MulMono(x, y, Pow(a, l));
    if l == 0 {
      assert s[lo .. hi] == LayerAt(s, a, hash, 0)[x .. y];
    } else {
      BlocksOneLevelDown(x, y, a, l, lo, hi);
      MulMono(x, y, a);
      LayerAtSlice(s, a, hash, l - 1, x * a, y * a, lo, hi);
      LayerAtSliceUp(s, a, hash, l, x, y, lo, hi);
    }
  }

  /** One level of LayerAtSlice: hashing the groups of a slice of level l - 1 that starts
      and ends on group boundaries gives the matching slice of level l. */
  lemma LayerAtSliceUp(s: seq<int>, a: nat, hash: seq<int> -> int, l: nat, x: nat, y: nat, lo: nat, hi: nat)
    requires a >= 1 && l >= 1 && x <= y && lo <= hi <= |s|
    requires x * a <= y * a <= |LayerAt(s, a, hash, l - 1)|
    requires LayerAt(s[lo .. hi], a, hash, l - 1) == LayerAt(s, a, hash, l - 1)[x * a .. y * a]
    ensures y <= |LayerAt(s, a, hash, l)|
    ensures LayerAt(s[lo .. hi], a, hash, l) == LayerAt(s, a, hash, l)[x .. y]
  {
    LayerSlice(LayerAt(s, a, hash, l - 1), a, hash, x, y);
  }

  /** Blocks x..y of size a^l are blocks x*a..y*a of size a^(l-1). */
  lemma BlocksOneLevelDown(x: nat, y: nat, a: nat, l: nat, lo: nat, hi: nat)
    requires l >= 1 && lo == x * Pow(a, l) && hi == y * Pow(a, l)
    ensures lo == (x * a) * Pow(a, l - 1) && hi == (y * a) * Pow(a, l - 1)
  {
    var w := Pow(a, l - 1);
    MulRegroup(x, w, a);
    MulRegroup(y, w, a);
  }

  /** The sub-root of an aligned block, as the root calculator computes it from the
      block's leaves, is the block's node on level sub. */
  lemma SubrootIsCalculatedRoot(c: Config, P: seq<int>, q: nat, sub: nat)
    requires ValidConfig(c) && |P| == Capacity(c) && sub <= c.depth
    requires (q + 1) * Pow(c.arity, sub) <= |P|
    ensures q < |Nodes(c, P, sub)|
    ensures q * Pow(c.arity, sub) + Pow(c.arity, sub) == (q + 1) * Pow(c.arity, sub)
    ensures CalculateRoot(P[q * Pow(c.arity, sub) .. (q + 1) * Pow(c.arity, sub)], c.arity, c.hashFunc)
            == Ok(Nodes(c, P, sub)[q])
  {
    var w := Pow(c.arity, sub);
    MulDistrib(q, 1, w);
    LayerAtSlice(P, c.arity, c.hashFunc, sub, q, q + 1, q * w, (q + 1) * w);
    var block := P[q * w .. (q + 1) * w];
    CalculateRootOfPower(block, c.arity, c.hashFunc, sub);
  }

  /** The root of the tree is what the root calculator computes from its full leaf row. */
  lemma TreeRootIsCalculatedRoot(c: Config, P: seq<int>)
    requires ValidConfig(c) && |P| == Capacity(c)
    ensures CalculateRoot(P, c.arity, c.hashFunc) == Ok(TreeRoot(c, P))
  {
    CalculateRootOfPower(P, c.arity, c.hashFunc, c.depth);
  }

  /** The root of a tree with no leaves written is the ZeroHash of the top level, which
      is also what the root calculator returns on `capacity` copies of the zero value. */
  lemma EmptyTreeRoot(c: Config)
    requires ValidConfig(c)
    ensures TreeRoot(c, Pad(c, [])) == Zeros(c.arity, c.zeroValue, c.hashFunc, c.depth)
    ensures CalculateRoot(Repeat(c.zeroValue, Capacity(c)), c.arity, c.hashFunc)
            == Ok(Zeros(c.arity, c.zeroValue, c.hashFunc, c.depth))
  {
    var P := Pad(c, []);
    NodesLength(c, P, c.depth);
    OccupiedEmpty(c.arity, c.depth);
    LayerAtPadding(P, c.arity, c.hashFunc, c.zeroValue, 0, c.depth);
    assert P == Repeat(c.zeroValue, Capacity(c));
    TreeRootIsCalculatedRoot(c, P);
  }

  // ---------------------------------------------------------------------------
  // Proofs built from the levels verify

  /** Climbing from the level-`from` ancestor of leaf i with the sibling groups of
      PathElements reaches the root of the tree. */
  lemma {:induction false} PathReachesRoot(c: Config, P: seq<int>, i: nat, from: nat)
    requires ValidConfig(c) && |P| == Capacity(c) && i < |P| && from <= c.depth
    ensures Ancestor(i, c.arity, from) < |Nodes(c, P, from)|
    ensures ComputeRoot(Nodes(c, P, from)[Ancestor(i, c.arity, from)], Ancestor(i, c.arity, from),
                        PathElements(c, P, i, from), c.arity, c.hashFunc) == TreeRoot(c, P)
    decreases c.depth - from
  {
    NodesLength(c, P, from);
    AncestorInTree(c, i, from);
    var elems := PathElements(c, P, i, from);
    if from == c.depth {
      assert elems == [];
    } else {
      ClimbOneLevel(c, P, i, from);
      assert elems[1..] == PathElements(c, P, i, from + 1);
      PathReachesRoot(c, P, i, from + 1);
    }
  }

  /** Putting the ancestor of leaf i back among its siblings on level l and hashing
      gives its parent on level l + 1. */
  lemma ClimbOneLevel(c: Config, P: seq<int>, i: nat, l: nat)
    requires ValidConfig(c) && |P| == Capacity(c) && i < |P| && l < c.depth
    ensures Ancestor(i, c.arity, l) < |Nodes(c, P, l)|
    ensures Ancestor(i, c.arity, l + 1) < |Nodes(c, P, l + 1)|
    ensures var p := Ancestor(i, c.arity, l);
            c.hashFunc(Splice(LevelSiblings(c, P, i, l), p % c.arity, Nodes(c, P, l)[p]))
            == Nodes(c, P, l + 1)[Ancestor(i, c.arity, l + 1)]
  {
    var a := c.arity;
    NodesLength(c, P, l);
    NodesLength(c, P, l + 1);
    AncestorInTree(c, i, l);
    AncestorInTree(c, i, l + 1);
    GroupsOfLevel(c, l);
    var p := Ancestor(i, a, l);
    var x := Nodes(c, P, l);
    var g := Group(x, a, p / a);
    DivMod(p, a);
    GroupFits(|x|, a, p / a);
    assert g[p % a] == x[p];
    assert Splice(LevelSiblings(c, P, i, l), p % a, x[p]) == g;
  }

  /** The proof for any leaf of the tree verifies against the tree's root. */
  lemma LeafPathVerifies(c: Config, P: seq<int>, i: nat)
    requires ValidConfig(c) && |P| == Capacity(c) && i < |P|
    ensures VerifyMerklePath(LeafPath(c, P, i), c.hashFunc)
  {
    PathReachesRoot(c, P, i, 0);
    var path := LeafPath(c, P, i);
    assert c.depth > 0 ==> PathArity(path) == c.arity;
    assert c.depth == 0 ==> path.pathElements == [];
  }

  /** The proof for any aligned block verifies against the tree's root, is
      depth - sub levels long, and carries the block's calculated root as its leaf. */
  lemma SubrootPathVerifies(c: Config, P: seq<int>, q: nat, sub: nat)
    requires ValidConfig(c) && |P| == Capacity(c) && sub <= c.depth
    requires (q + 1) * Pow(c.arity, sub) <= |P|
    ensures q * Pow(c.arity, sub) < |P|
    ensures var path := SubrootPath(c, P, q * Pow(c.arity, sub), sub);
            && VerifyMerklePath(path, c.hashFunc)
            && path.depth == c.depth - sub
            && path.index == q
            && CalculateRoot(P[q * Pow(c.arity, sub) .. (q + 1) * Pow(c.arity, sub)], c.arity, c.hashFunc)
               == Ok(path.leaf)
  {
    var w := Pow(c.arity, sub);
    MulDistrib(q, 1, w);
    AncestorOfMultiple(q, c.arity, sub);
    SubrootIsCalculatedRoot(c, P, q, sub);
    PathReachesRoot(c, P, q * w, sub);
    var path := SubrootPath(c, P, q * w, sub);
    assert c.depth > sub ==> PathArity(path) == c.arity;
    assert c.depth == sub ==> path.pathElements == [];
  }

  // ---------------------------------------------------------------------------
  // The records after a write

  /** The leaf rows before and after writing v at slot i. */
  lemma PadWrite(c: Config, leaves: seq<int>, i: nat, v: int)
    requires |leaves| <= Capacity(c) && i <= |leaves| && i < Capacity(c)
    ensures var after := if i == |leaves| then leaves + [v] else leaves[i := v];
            Pad(c, after) == Pad(c, leaves)[i := v]
  {
    var after := if i == |leaves| then leaves + [v] else leaves[i := v];
    assert Pad(c, after) == Pad(c, leaves)[i := v];
  }

  /** Reading a group from the records, with the zero hash beyond the occupied prefix,
      gives the group of the level itself. */
  lemma RecordedGroupExact(c: Config, P: seq<int>, n: nat, l: nat, q: nat)
    requires Padded(c, P, n) && l < c.depth && q < Pow(c.arity, c.depth - l - 1)
    ensures q < |Nodes(c, P, l)| / c.arity
    ensures RecordedGroup(LevelNodes(c, P, n, l), Zeros(c.arity, c.zeroValue, c.hashFunc, l), q, c.arity)
            == Group(Nodes(c, P, l), c.arity, q)
  {
    NodesLength(c, P, l);
    GroupsOfLevel(c, l);
    GroupFits(|Nodes(c, P, l)|, c.arity, q);
    LayerAtPadding(P, c.arity, c.hashFunc, c.zeroValue, n, l);
  }

  /** Writing leaf i (i == n appends) changes `filledPaths[l]` at the ancestor of i only,
      growing it by one node when that ancestor is new. */
  lemma WriteLevel(c: Config, P: seq<int>, n: nat, i: nat, v: int, l: nat)
    requires Padded(c, P, n) && i <= n && i < |P| && l <= c.depth
    ensures var p := Ancestor(i, c.arity, l);
            var before := LevelNodes(c, P, n, l);
            var n' := if i == n then n + 1 else n;
            && p <= |before|
            && p < |Nodes(c, P[i := v], l)|
            && LevelNodes(c, P[i := v], n', l)
               == if p < |before| then before[p := Nodes(c, P[i := v], l)[p]]
                  else before + [Nodes(c, P[i := v], l)[p]]
  {
    var a := c.arity;
    var p := Ancestor(i, a, l);
    var n' := if i == n then n + 1 else n;
    NodesLength(c, P, l);
    LayerAtUpdate(P, a, c.hashFunc, i, v, l);
    AncestorInTree(c, i, l);
    if i == n {
      OccupiedNext(n, a, l);
      OccupiedRange(n, a, l);
    } else {
      AncestorOccupied(i, n, a, l);
    }
    OccupiedBound(n', a, c.depth, l);
  }

  /** After a write the cached frontier group of a level changes only when it is the
      group of the written leaf's ancestor. */
  lemma WriteFrontier(c: Config, P: seq<int>, n: nat, i: nat, v: int, l: nat)
    requires Padded(c, P, n) && i < n && l < c.depth
    requires Ancestor(i, c.arity, l + 1) != Ancestor(Frontier(n), c.arity, l + 1)
    ensures FrontierGroup(c, P[i := v], n, l) == FrontierGroup(c, P, n, l)
  {
    var a := c.arity;
    NodesLength(c, P, l);
    GroupsOfLevel(c, l);
    AncestorInTree(c, Frontier(n), l + 1);
    LayerAtUpdate(P, a, c.hashFunc, i, v, l);
    GroupUnchanged(Nodes(c, P, l), Nodes(c, P[i := v], l), a, Ancestor(i, a, l), Ancestor(Frontier(n), a, l + 1));
  }

  /** Once a leaf is written, the top level records exactly the root. */
  lemma TopLevel(c: Config, P: seq<int>, n: nat)
    requires ValidConfig(c) && |P| == Capacity(c) && 1 <= n <= |P|
    ensures LevelNodes(c, P, n, c.depth) == [TreeRoot(c, P)]
  {
    OccupiedNext(n - 1, c.arity, c.depth);
    AncestorInTree(c, n - 1, c.depth);
    NodesLength(c, P, c.depth);
    assert Nodes(c, P, c.depth)[..1] == [Nodes(c, P, c.depth)[0]];
  }

  /** The records of a tree with no leaves written. */
  lemma EmptyRecords(c: Config)
    requires ValidConfig(c)
    ensures CanonicalPaths(c, Pad(c, []), 0) == seq(c.depth + 1, _ => [])
    ensures CanonicalSubtrees(c, Pad(c, []), 0)
            == seq(c.depth, l requires 0 <= l < c.depth => Repeat(Zeros(c.arity, c.zeroValue, c.hashFunc, l), c.arity))
  {
    var P := Pad(c, []);
    forall l | 0 <= l <= c.depth
      ensures LevelNodes(c, P, 0, l) == []
    {
      OccupiedEmpty(c.arity, l);
    }
    forall l | 0 <= l < c.depth
      ensures FrontierGroup(c, P, 0, l) == Repeat(Zeros(c.arity, c.zeroValue, c.hashFunc, l), c.arity)
    {
      RecordedGroupExact(c, P, 0, l, 0);
      OccupiedEmpty(c.arity, l);
      AncestorOfMultiple(0, c.arity, l + 1);
      AncestorInTree(c, 0, l + 1);
    }
  }

  // ---------------------------------------------------------------------------
  // A tree's state

  /** The state a tree keeps for the leaves written so far: the canonical records
      and the root of the leaf row padded with the zero value. */
  ghost predicate Consistent(c: Config, leaves: seq<int>, paths: seq<seq<int>>, subtrees: seq<seq<int>>, root: int) {
    && ValidConfig(c)
    && |leaves| <= Capacity(c)
    && paths == CanonicalPaths(c, Pad(c, leaves), |leaves|)
    && subtrees == CanonicalSubtrees(c, Pad(c, leaves), |leaves|)
    && root == TreeRoot(c, Pad(c, leaves))
  }

  /** The root a tree keeps is the root calculator's result on its padded leaves, and
      on the leaves themselves once the tree is full. */
  lemma ConsistentRoot(c: Config, leaves: seq<int>, paths: seq<seq<int>>, subtrees: seq<seq<int>>, root: int)
    requires Consistent(c, leaves, paths, subtrees, root)
    ensures CalculateRoot(Pad(c, leaves), c.arity, c.hashFunc) == Ok(root)
    ensures |leaves| == Capacity(c) ==> CalculateRoot(leaves, c.arity, c.hashFunc) == Ok(root)
  {
    TreeRootIsCalculatedRoot(c, Pad(c, leaves));
    if |leaves| == Capacity(c) {
      assert Pad(c, leaves) == leaves;
    }
  }
}
