/** The few facts about products and quotients that the flat layouts of grids need. */
module Arithmetic {

  lemma MulAtLeast(a: int, x: int)
    requires a > 0 && x >= 1
    ensures a * x >= a
  {
  }

  lemma MulStep(a: int, x: int)
    ensures a * (x + 1) == a * x + a
  {
  }

  lemma MulOrder(a: int, x: int, y: int)
    requires a > 0
    ensures x < y ==> a * x + a <= a * y
    ensures x <= y ==> a * x <= a * y
    ensures a * x == a * y ==> x == y
  {
    if x < y {
      var d := y - x;
      MulAtLeast(a, d);
      assert a * y == a * (x + d) == a * x + a * d;
    } else if y < x {
      var d := x - y;
      MulAtLeast(a, d);
      assert a * x == a * (y + d) == a * y + a * d;
    }
  }

  /** q and r are the quotient and the remainder of a * q + r. */
  lemma DivModOf(a: int, q: int, r: int)
    requires 0 <= r < a
    ensures (a * q + r) / a == q && (a * q + r) % a == r
  {
    var d, m := (a * q + r) / a, (a * q + r) % a;
    assert a * d + m == a * q + r;
    MulOrder(a, d, q);
    MulOrder(a, q, d);
  }

  lemma DivModSplit(a: int, x: int)
    requires a > 0
    ensures x == a * (x / a) + x % a && 0 <= x % a < a
  {
  }

  /** Mixed radix with two digits stays below the product of the extents. */
  lemma TwoDigits(a: int, b: int, q: int, r: int)
    requires 0 <= r < a && 0 <= q < b
    ensures 0 <= a * q + r < a * b
  {
    MulOrder(a, q, b);
    MulOrder(a, 0, q);
  }

  lemma DivBound(a: int, b: int, x: int)
    requires a > 0 && 0 <= x < a * b
    ensures 0 <= x / a < b
  {
    DivModSplit(a, x);
    if x / a >= b {
      MulOrder(a, b, x / a);
    }
    if x / a < 0 {
      MulOrder(a, x / a, 0);
    }
  }

  /** Dividing by a product is dividing by one factor after the other. */
  lemma DivDiv(a: int, b: int, x: int)
    requires a > 0 && b > 0
    ensures a * b > 0 && x / (a * b) == (x / a) / b
  {
    var q := x / a;
    var h := q / b;
    MulAtLeast(a, b);
    DivModSplit(a, x);
    DivModSplit(b, q);
    TwoDigits(a, b, q % b, x % a);
    assert a * (b * h + q % b) == (a * b) * h + a * (q % b);
    DivModOf(a * b, h, a * (q % b) + x % a);
  }

  /** Adding a multiple of the modulus does not change the remainder. */
  lemma ModShift(a: int, x: int, k: int)
    requires a > 0
    ensures (x + a * k) % a == x % a && (x + a * k) / a == x / a + k
  {
    DivModSplit(a, x);
    assert a * (x / a + k) == a * (x / a) + a * k;
    DivModOf(a, x / a + k, x % a);
  }
}
