/** The value-level vocabulary of the accumulator: tree parameters, error kinds,
    proof records, the bottom-up root calculator and the stateless proof verifier.
    Field elements are modelled as unbounded integers and the hash as an opaque
    function value supplied by the caller. */
module Merkle {
  import opened Arith

  /** Tree parameters, fixed for the lifetime of a tree: capacity is arity^depth. */
  datatype Config = Config(depth: nat, arity: nat, zeroValue: int, hashFunc: seq<int> -> int)

  predicate ValidConfig(c: Config) {
    c.arity >= 2
  }

  function Capacity(c: Config): nat {
    Pow(c.arity, c.depth)
  }

  /** Caller contract violations reported by the trees and the root calculator. */
  datatype Error =
    | TreeFull
    | IndexNotInserted
    | IndexOutOfRange
    | MisalignedRange
    | InvalidLeafCount
    | ShardNotFound

  datatype Result<T> = Ok(value: T) | Err(error: Error)

  datatype Outcome = Pass | Fail(error: Error)

  /** A membership proof: `leaf` (a leaf or the root of an aligned sub-tree) sits at
      position `index` of its level, and `pathElements[k]` holds the arity - 1
      siblings met k levels above it, in order, with the travelling node left out. */
  datatype MerklePath = MerklePath(
    index: nat,
    depth: nat,
    leaf: int,
    pathElements: seq<seq<int>>,
    root: int)

  function Repeat(x: int, n: nat): (r: seq<int>)
    ensures |r| == n && forall j :: 0 <= j < n ==> r[j] == x
  {
    seq(n, _ => x)
  }

  /** The q-th run of a consecutive nodes of a level: the children of node q one level up. */
  function Group(s: seq<int>, a: nat, q: nat): (g: seq<int>)
    requires a >= 1 && q < |s| / a
    ensures |g| == a
  {
    GroupFits(|s|, a, q);
    s[q * a .. q * a + a]
  }

  /** One level up: every complete group of a consecutive nodes is hashed into its parent. */
  function Layer(s: seq<int>, a: nat, hash: seq<int> -> int): (r: seq<int>)
    requires a >= 1
    ensures |r| == |s| / a
  {
    seq(|s| / a, q requires 0 <= q < |s| / a => hash(Group(s, a, q)))
  }

  /** The nodes of level l of the tree whose leaves are s. */
  function LayerAt(s: seq<int>, a: nat, hash: seq<int> -> int, l: nat): (r: seq<int>)
    requires a >= 1
    ensures |r| == Ancestor(|s|, a, l)
  {
    if l == 0 then s else Layer(LayerAt(s, a, hash, l - 1), a, hash)
  }

  /** The single node of the top level of a tree with a^k leaves. */
  function LevelRoot(s: seq<int>, a: nat, hash: seq<int> -> int, k: nat): (r: int)
    requires a >= 1 && |s| == Pow(a, k)
  {
    LayerAtPowLength(s, a, hash, k, k);
    LayerAt(s, a, hash, k)[0]
  }

  /** The ZeroHash table: the root of a sub-tree of height l whose leaves are all z. */
  function Zeros(a: nat, z: int, hash: seq<int> -> int, l: nat): (r: int) {
    if l == 0 then z else hash(Repeat(Zeros(a, z, hash, l - 1), a))
  }

  /** The root calculator: hash consecutive groups of `arity` leaves, then the
      resulting parents, until one value remains. Only a length that is an exact
      power of the arity can end in one value. */
  function CalculateRoot(leaves: seq<int>, arity: nat, hash: seq<int> -> int): (r: Result<int>)
    requires arity >= 2
    decreases |leaves|
  {
    if |leaves| == 1 then Ok(leaves[0])
    else if |leaves| == 0 || |leaves| % arity != 0 then Err(InvalidLeafCount)
    else CalculateRoot(Layer(leaves, arity, hash), arity, hash)
  }

  /** Places the travelling node at position j among its siblings. */
  function Splice(siblings: seq<int>, j: nat, node: int): (r: seq<int>)
    requires j <= |siblings|
    ensures |r| == |siblings| + 1 && r[j] == node
  {
    siblings[..j] + [node] + siblings[j..]
  }

  /** Climbs from `node` at position `index` through the sibling groups, one level each. */
  function ComputeRoot(node: int, index: nat, elems: seq<seq<int>>, a: nat, hash: seq<int> -> int): (r: int)
    requires a >= 1 && forall k :: 0 <= k < |elems| ==> |elems[k]| == a - 1
    decreases |elems|
  {
    if elems == [] then node
    else ComputeRoot(hash(Splice(elems[0], index % a, node)), index / a, elems[1..], a, hash)
  }

  /** The arity a path was built for, as its first sibling group implies. */
  function PathArity(path: MerklePath): (a: nat) {
    if path.pathElements == [] then 2 else |path.pathElements[0]| + 1
  }

  /** A path of the right shape: one sibling group per level, all of one size. */
  predicate WellFormed(path: MerklePath) {
    && |path.pathElements| == path.depth
    && PathArity(path) >= 2
    && forall k :: 0 <= k < |path.pathElements| ==> |path.pathElements[k]| == PathArity(path) - 1
  }

  /** Stateless check of a proof: a malformed path is rejected, never an error. */
  function VerifyMerklePath(path: MerklePath, hash: seq<int> -> int): bool {
    && WellFormed(path)
    && ComputeRoot(path.leaf, path.index, path.pathElements, PathArity(path), hash) == path.root
  }

  // ---------------------------------------------------------------------------
  // Facts about levels

  /** Hashing one level first and then l more is climbing l + 1 levels. */
  lemma {:induction false} LayerAtShift(s: seq<int>, a: nat, hash: seq<int> -> int, l: nat)
    requires a >= 1
    ensures LayerAt(Layer(s, a, hash), a, hash, l) == LayerAt(s, a, hash, l + 1)
  {
    if l > 0 {
      LayerAtShift(s, a, hash, l - 1);
    }
  }

  /** A sequence of a^k nodes has a^(k-l) nodes at level l. */
  lemma LayerAtPowLength(s: seq<int>, a: nat, hash: seq<int> -> int, k: nat, l: nat)
    requires a >= 1 && |s| == Pow(a, k) && l <= k
    ensures |LayerAt(s, a, hash, l)| == Pow(a, k - l)
  {
    PowAdd(a, k - l, l);
    AncestorOfMultiple(Pow(a, k - l), a, l);
  }

  // ---------------------------------------------------------------------------
  // The root calculator

  /** On a^k leaves the calculator succeeds and returns the single node of level k. */
  lemma {:induction false} CalculateRootOfPower(leaves: seq<int>, arity: nat, hash: seq<int> -> int, k: nat)
    requires arity >= 2 && |leaves| == Pow(arity, k)
    ensures CalculateRoot(leaves, arity, hash) == Ok(LevelRoot(leaves, arity, hash, k))
    decreases k
  {
    LayerAtPowLength(leaves, arity, hash, k, k);
    if k > 0 {
      var up := Layer(leaves, arity, hash);
      DivOfMultiple(Pow(arity, k - 1), arity);
      assert |leaves| % arity == 0 by {
        DivMod(|leaves|, arity);
      }
      CalculateRootOfPower(up, arity, hash, k - 1);
      LayerAtShift(leaves, arity, hash, k - 1);
    }
  }

  /** Any other length is refused with InvalidLeafCount. */
  lemma {:induction false} CalculateRootRejects(leaves: seq<int>, arity: nat, hash: seq<int> -> int)
    requires arity >= 2
    requires forall k :: |leaves| != Pow(arity, k)
    ensures CalculateRoot(leaves, arity, hash) == Err(InvalidLeafCount)
    decreases |leaves|
  {
    assert |leaves| != 1 by {
      assert |leaves| != Pow(arity, 0);
    }
    if |leaves| != 0 && |leaves| % arity == 0 {
      var up := Layer(leaves, arity, hash);
      QuotientNotPower(|leaves|, arity);
      assert forall k :: |up| != Pow(arity, k);
      CalculateRootRejects(up, arity, hash);
    }
  }

  /** A multiple of a that is no power of a has a quotient by a that is no power of a. */
  lemma QuotientNotPower(n: nat, a: nat)
    requires a >= 1 && n % a == 0 && forall k :: n != Pow(a, k)
    ensures forall k :: n / a != Pow(a, k)
  {
    forall k: nat
      ensures n / a != Pow(a, k)
    {
      if n / a == Pow(a, k) {
        DivMod(n, a);
        assert n == Pow(a, k + 1);
      }
    }
  }

  /** The calculator succeeds exactly on the powers of the arity. */
  lemma CalculateRootSucceedsIff(leaves: seq<int>, arity: nat, hash: seq<int> -> int)
    requires arity >= 2
    ensures CalculateRoot(leaves, arity, hash).Ok? <==> exists k :: |leaves| == Pow(arity, k)
  {
    if exists k :: |leaves| == Pow(arity, k) {
      var k :| |leaves| == Pow(arity, k);
      CalculateRootOfPower(leaves, arity, hash, k);
    } else {
      CalculateRootRejects(leaves, arity, hash);
    }
  }

  // ---------------------------------------------------------------------------
  // Tampering with a proof

  /** The hash tells apart any two different groups of `a` elements. */
  ghost predicate Injective(hash: seq<int> -> int, a: nat) {
    forall u, w :: |u| == a && |w| == a && hash(u) == hash(w) ==> u == w
  }

  /** With an injective hash, two different starting nodes climb to different roots. */
  lemma {:induction false} ComputeRootInjective(x: int, y: int, index: nat, elems: seq<seq<int>>, a: nat, hash: seq<int> -> int)
    requires a >= 1 && forall k :: 0 <= k < |elems| ==> |elems[k]| == a - 1
    requires Injective(hash, a) && x != y
    ensures ComputeRoot(x, index, elems, a, hash) != ComputeRoot(y, index, elems, a, hash)
    decreases |elems|
  {
    if elems != [] {
      DivBounds(index, a);
      var j := index % a;
      var gx := Splice(elems[0], j, x);
      var gy := Splice(elems[0], j, y);
      assert gx[j] != gy[j];
      ComputeRootInjective(hash(gx), hash(gy), index / a, elems[1..], a, hash);
    }
  }

  /** With an injective hash, changing one sibling at level k changes the computed root. */
  lemma {:induction false} ComputeRootTamper(node: int, index: nat, elems: seq<seq<int>>, a: nat, hash: seq<int> -> int,
                                             k: nat, j: nat, w: int)
    requires a >= 1 && forall m :: 0 <= m < |elems| ==> |elems[m]| == a - 1
    requires Injective(hash, a)
    requires k < |elems| && j < |elems[k]| && elems[k][j] != w
    ensures var forged := elems[k := elems[k][j := w]];
            ComputeRoot(node, index, forged, a, hash) != ComputeRoot(node, index, elems, a, hash)
    decreases k
  {
    var forged := elems[k := elems[k][j := w]];
    DivBounds(index, a);
    var p := index % a;
    var g := Splice(elems[0], p, node);
    var g' := Splice(forged[0], p, node);
    if k == 0 {
      var at := if j < p then j else j + 1;
      assert g[at] == elems[0][j] && g'[at] == w;
      ComputeRootInjective(hash(g'), hash(g), index / a, elems[1..], a, hash);
      assert forged[1..] == elems[1..];
    } else {
      assert forged[0] == elems[0];
      assert forged[1..] == elems[1..][k - 1 := elems[1..][k - 1][j := w]];
      ComputeRootTamper(hash(g), index / a, elems[1..], a, hash, k - 1, j, w);
    }
  }

  /** A proof that verifies stops verifying once any one sibling is replaced by a
      different value, provided the hash is collision-free on groups of its arity. */
  lemma TamperedPathRejected(path: MerklePath, hash: seq<int> -> int, k: nat, j: nat, w: int)
    requires VerifyMerklePath(path, hash)
    requires Injective(hash, PathArity(path))
    requires k < path.depth && j < |path.pathElements[k]| && path.pathElements[k][j] != w
    ensures !VerifyMerklePath(path.(pathElements := path.pathElements[k := path.pathElements[k][j := w]]), hash)
  {
    var forged := path.(pathElements := path.pathElements[k := path.pathElements[k][j := w]]);
    assert PathArity(forged) == PathArity(path);
    ComputeRootTamper(path.leaf, path.index, path.pathElements, PathArity(path), hash, k, j, w);
  }
}
