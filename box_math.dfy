// Integer facts about the root x root box layout of a size x size board,
// where size == root * root. The source computes root with a floating-point
// square root; here root is an integer given together with size.

module BoxMath {

  /** Multiplying both sides of a <= b by a non-negative factor keeps the order. */
  lemma MulMonotone(a: int, b: int, c: int)
    requires a <= b && 0 <= c
    ensures a * c <= b * c
  {
    var d := b - a;
    assert b * c == a * c + d * c;
    assert 0 <= d * c;
  }

  /** If q * d <= x < q * d + d then q is the quotient and x - q * d the remainder. */
  lemma DivModUnique(x: int, q: int, d: int)
    requires 0 < d && q * d <= x < q * d + d
    ensures x / d == q && x % d == x - q * d
  {
    var q' := x / d;
    var m' := x % d;
    assert x == q' * d + m' && 0 <= m' < d;
    if q' < q {
      MulMonotone(q' + 1, q, d);
      assert false;
    } else if q < q' {
      MulMonotone(q + 1, q', d);
      assert false;
    }
  }

  /** Every x in [0, d * d) lies in a block b < d, with b * d <= x < b * d + d. */
  lemma DivBounds(x: int, d: int)
    requires 0 < d && 0 <= x < d * d
    ensures 0 <= x / d < d
    ensures (x / d) * d <= x < (x / d) * d + d
  {
    var q := x / d;
    assert x == q * d + x % d && 0 <= x % d < d;
    if q >= d {
      MulMonotone(d, q, d);
      assert false;
    }
    if q < 0 {
      MulMonotone(q, -1, d);
      assert false;
    }
  }

  /** Block b < d of height d stays inside [0, d * d). */
  lemma BlockInside(b: int, d: int)
    requires 0 <= b < d
    ensures 0 <= b * d && b * d + d <= d * d
  {
    MulMonotone(0, b, d);
    MulMonotone(b + 1, d, d);
  }

  /** A block index b lies inside [0, d) exactly when its first line b * d does. */
  lemma BlockCount(b: int, d: int)
    requires 0 < d && 0 <= b
    ensures b * d < d * d <==> b < d
  {
    if b < d {
      BlockInside(b, d);
    } else {
      MulMonotone(d, b, d);
    }
  }

  /** Stepping a block index by one steps its first line by d. */
  lemma NextBlock(b: int, d: int)
    ensures (b + 1) * d == b * d + d
  {
  }

  /** For x in [0, d * d): x lies in block b exactly when x / d == b. */
  lemma InBlockIff(x: int, b: int, d: int)
    requires 0 < d && 0 <= x < d * d
    ensures (b * d <= x < b * d + d) <==> x / d == b
  {
    DivBounds(x, d);
    if b * d <= x < b * d + d {
      DivModUnique(x, b, d);
    }
  }

  /** The loop of forward_checking that locates the box of a coordinate:
      b runs up from 0 and stops at the first b with x < (b + 1) * root. */
  method BoxIndex(x: int, root: int) returns (b: int)
    requires 0 < root && 0 <= x < root * root
    ensures 0 <= b < root
    ensures b == x / root
    ensures b * root <= x < b * root + root
  {
    b := 0;
    while b < root
      invariant 0 <= b <= root
      invariant b * root <= x
    {
      if x < (b + 1) * root {
        break;
      }
      b := b + 1;
    }
    DivModUnique(x, b, root);
  }
}
