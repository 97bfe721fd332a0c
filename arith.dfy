/** Index arithmetic of an arity-ary tree: powers, the position of a node's
    ancestor at a given level, and how many nodes of a level are occupied
    once the first n leaves have been written. Positions are obtained by
    dividing by the arity once per level, as the tree's own loops do. */
module Arith {

  /** b raised to the k-th power. */
  function Pow(b: nat, k: nat): (r: nat)
    ensures b >= 1 ==> r >= 1
    ensures b >= 2 && k >= 1 ==> r >= b
  {
    if k == 0 then 1 else Pow(b, k - 1) * b
  }

  /** Position, at level l, of the ancestor of the node at position i of level 0. */
  function Ancestor(i: nat, a: nat, l: nat): (p: nat)
    requires a >= 1
  {
    if l == 0 then i else Ancestor(i, a, l - 1) / a
  }

  /** Number of nodes at level l that cover at least one of the first n leaves
      (the ceiling of n / a^l). */
  function Occupied(n: nat, a: nat, l: nat): (r: nat)
    requires a >= 1
  {
    if l == 0 then n else (Occupied(n, a, l - 1) + a - 1) / a
  }

  /** Position of the parent of the node at position p: p / a, as a natural number. */
  function Parent(p: nat, a: nat): (r: nat)
    requires a >= 1
    ensures r == p / a && r <= p
  {
    DivBounds(p, a);
    p / a
  }

  lemma DivMod(x: int, a: int)
    requires a > 0
    ensures x == (x / a) * a + x % a && 0 <= x % a < a
  {
  }

  lemma MulAssoc(x: int, y: int, z: int)
    ensures (x * y) * z == x * (y * z) && x * y == y * x
  {
  }

  lemma MulDistrib(x: int, y: int, a: int)
    ensures (x + y) * a == x * a + y * a
  {
  }

  lemma MulRegroup(x: int, w: int, a: int)
    ensures x * (w * a) == (x * a) * w
  {
    MulAssoc(x, a, w);
    MulAssoc(x, w, a);
  }

  lemma MulMono(x: int, y: int, a: int)
    requires a >= 0 && x <= y
    ensures x * a <= y * a
  {
  }

  lemma DivBounds(x: nat, a: nat)
    requires a >= 1
    ensures 0 <= x / a <= x
  {
    DivMod(x, a);
    if x / a < 0 {
      MulMono(x / a, -1, a);
    } else {
      MulMono(1, a, x / a);
    }
  }

  /** The q-th complete group of a elements fits inside n elements. */
  lemma GroupFits(n: nat, a: nat, q: nat)
    requires a >= 1 && q < n / a
    ensures q * a + a <= n
  {
    DivMod(n, a);
    MulMono(q + 1, n / a, a);
    MulDistrib(q, 1, a);
  }

  /** The quotient is the only q whose multiple brackets x. */
  lemma DivUnique(x: int, a: int, q: int)
    requires a > 0 && q * a <= x < q * a + a
    ensures x / a == q
  {
    DivMod(x, a);
    var d := x / a;
    if d < q {
      MulMono(d + 1, q, a);
    } else if d > q {
      MulMono(q + 1, d, a);
    }
  }

  /** Dividing preserves order. */
  lemma DivMono(x: nat, y: nat, a: nat)
    requires a > 0 && x <= y
    ensures x / a <= y / a
  {
    DivMod(x, a);
    DivMod(y, a);
    if x / a > y / a {
      MulMono(y / a + 1, x / a, a);
    }
  }

  /** Integer division is exact on a multiple. */
  lemma DivOfMultiple(c: nat, a: nat)
    requires a > 0
    ensures (c * a) / a == c && (c * a + a - 1) / a == c
  {
    DivUnique(c * a, a, c);
    DivUnique(c * a + a - 1, a, c);
  }

  /** A node strictly inside a block of c * a^l leaves has its level-l ancestor below c. */
  lemma {:induction false} AncestorBound(i: nat, c: nat, a: nat, l: nat)
    requires a >= 1 && i < c * Pow(a, l)
    ensures Ancestor(i, a, l) < c
    decreases l
  {
    if l > 0 {
      MulAssoc(c, Pow(a, l - 1), a);
      MulAssoc(c, a, Pow(a, l - 1));
      MulAssoc(Pow(a, l - 1), a, 1);
      assert c * Pow(a, l) == (c * a) * Pow(a, l - 1);
      AncestorBound(i, c * a, a, l - 1);
      var p := Ancestor(i, a, l - 1);
      DivMod(p, a);
      if p / a >= c {
        MulMono(c, p / a, a);
      }
    }
  }

  /** The leftmost leaf of the c-th block of size a^l has c as its level-l ancestor. */
  lemma {:induction false} AncestorOfMultiple(c: nat, a: nat, l: nat)
    requires a >= 1
    ensures Ancestor(c * Pow(a, l), a, l) == c
    decreases l
  {
    if l > 0 {
      MulAssoc(c, Pow(a, l - 1), a);
      MulAssoc(c, a, Pow(a, l - 1));
      MulAssoc(Pow(a, l - 1), a, 1);
      assert c * Pow(a, l) == (c * a) * Pow(a, l - 1);
      AncestorOfMultiple(c * a, a, l - 1);
      DivOfMultiple(c, a);
    }
  }

  lemma {:induction false} AncestorMono(i: nat, j: nat, a: nat, l: nat)
    requires a >= 1 && i <= j
    ensures Ancestor(i, a, l) <= Ancestor(j, a, l)
  {
    if l > 0 {
      AncestorMono(i, j, a, l - 1);
      DivMono(Ancestor(i, a, l - 1), Ancestor(j, a, l - 1), a);
    }
  }

  lemma {:induction false} OccupiedEmpty(a: nat, l: nat)
    requires a >= 1
    ensures Occupied(0, a, l) == 0
  {
    if l > 0 {
      OccupiedEmpty(a, l - 1);
      DivUnique(a - 1, a, 0);
    }
  }

  /** After n + 1 leaves, the occupied prefix of level l ends just after the
      ancestor of leaf n. */
  lemma {:induction false} OccupiedNext(n: nat, a: nat, l: nat)
    requires a >= 1
    ensures Occupied(n + 1, a, l) == Ancestor(n, a, l) + 1
  {
    if l > 0 {
      OccupiedNext(n, a, l - 1);
      var p := Ancestor(n, a, l - 1);
      DivMod(p, a);
      MulDistrib(p / a, 1, a);
      DivUnique(p + a, a, p / a + 1);
    }
  }

  /** The occupied prefix of a level ends at the ancestor of leaf n or just after it. */
  lemma {:induction false} OccupiedRange(n: nat, a: nat, l: nat)
    requires a >= 1
    ensures Ancestor(n, a, l) <= Occupied(n, a, l) <= Ancestor(n, a, l) + 1
  {
    if l > 0 {
      OccupiedRange(n, a, l - 1);
      var x := Ancestor(n, a, l - 1);
      var c := Occupied(n, a, l - 1);
      DivMono(x, c + a - 1, a);
      DivMono(c + a - 1, x + a, a);
      DivMod(x, a);
      MulDistrib(x / a, 1, a);
      DivUnique(x + a, a, x / a + 1);
    }
  }

  /** The ancestor of a written leaf lies in the occupied prefix. */
  lemma AncestorOccupied(i: nat, n: nat, a: nat, l: nat)
    requires a >= 1 && i < n
    ensures Ancestor(i, a, l) < Occupied(n, a, l)
  {
    AncestorMono(i, n - 1, a, l);
    OccupiedNext(n - 1, a, l);
  }

  /** The occupied prefix of level l never exceeds the a^(d-l) nodes of that level
      when at most a^d leaves are written. */
  lemma OccupiedBound(n: nat, a: nat, d: nat, l: nat)
    requires a >= 1 && l <= d && n <= Pow(a, d)
    ensures Occupied(n, a, l) <= Pow(a, d - l)
  {
    if n == 0 {
      OccupiedEmpty(a, l);
    } else {
      OccupiedNext(n - 1, a, l);
      PowAdd(a, d - l, l);
      AncestorBound(n - 1, Pow(a, d - l), a, l);
    }
  }

  /** A node at or beyond the occupied prefix of level l + 1 has all its children
      at or beyond the occupied prefix of level l. */
  lemma OccupiedChildren(n: nat, a: nat, l: nat, p: nat)
    requires a >= 1 && p >= Occupied(n, a, l + 1)
    ensures p * a >= Occupied(n, a, l)
  {
    CeilingBound(Occupied(n, a, l), a, p);
  }

  /** A number at least the ceiling of c / a, times a, is at least c. */
  lemma CeilingBound(c: nat, a: nat, p: nat)
    requires a >= 1 && p >= (c + a - 1) / a
    ensures p * a >= c
  {
    if p * a < c {
      var q := p + 1;
      MulDistrib(p, 1, a);
      assert q * a <= c + a - 1;
      DivMono(q * a, c + a - 1, a);
      DivOfMultiple(q, a);
    }
  }

  lemma {:induction false} PowAdd(a: nat, x: nat, y: nat)
    ensures Pow(a, x + y) == Pow(a, x) * Pow(a, y)
  {
    if y > 0 {
      PowAdd(a, x, y - 1);
      MulAssoc(Pow(a, x), Pow(a, y - 1), a);
    }
  }

  /** Removing whole multiples of size leaves the remainder unchanged. */
  lemma ModOfShift(x: int, m: int, size: int)
    requires size > 0
    ensures (x - m * size) % size == x % size
  {
    DivMod(x, size);
    var q := x / size;
    MulDistrib(q - m, m, size);
    DivUnique(x - m * size, size, q - m);
    DivMod(x - m * size, size);
  }

  /** A multiple of size below size * w leaves room for a whole run of size after it. */
  lemma MultipleInBlock(x: nat, size: nat, w: nat)
    requires size > 0 && x % size == 0 && x < size * w
    ensures x + size <= size * w
  {
    DivMod(x, size);
    var t := x / size;
    MulAssoc(size, w, 1);
    if t >= w {
      MulMono(w, t, size);
    }
    MulMono(t + 1, w, size);
    MulDistrib(t, 1, size);
  }

  /** A number is determined by its quotient and remainder. */
  lemma DivModInjective(x: int, y: int, a: int)
    requires a > 0 && x != y
    ensures x / a != y / a || x % a != y % a
  {
    DivMod(x, a);
    DivMod(y, a);
  }
}
