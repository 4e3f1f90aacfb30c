/** Every value that a lifting step computes is a fixed linear combination of at most four old values.
    Two such combinations, taken along different axes, commute. */
module Rows {
  import opened Dyadic
  import opened Lifting

  datatype Row = Row(c0: real, i0: int, c1: real, i1: int, c2: real, i2: int, c3: real, i3: int) {
    predicate Within(n: int) {
      0 <= i0 <= n && 0 <= i1 <= n && 0 <= i2 <= n && 0 <= i3 <= n
    }
  }

  function Combine(r: Row, x0: real, x1: real, x2: real, x3: real): real {
    r.c0 * x0 + r.c1 * x1 + r.c2 * x2 + r.c3 * x3
  }

  function RowOf(lmax: nat, s: Step, x: int): (row: Row)
    requires Fits(lmax, s) && 0 <= x <= Pow2(lmax)
    ensures row.Within(Pow2(lmax))
  {
    var n, w := Pow2(lmax), Pow2(s.k);
    match s
    case Predict(k, subtract) =>
      if OddMult(k, x) then
        OddIsInside(lmax, k, x);
        Row(1.0, x, Half(subtract, 1.0), x - w, Half(subtract, 1.0), x + w, 0.0, x)
      else Row(1.0, x, 0.0, x, 0.0, x, 0.0, x)
    case Smooth(k, b, periodic) =>
      if !IsSmoothed(lmax, k, x) then Row(1.0, x, 0.0, x, 0.0, x, 0.0, x)
      else
        var l, r := LeftOf(lmax, k, periodic, x), RightOf(lmax, k, periodic, x);
        if (x == 0 || x == n) && periodic then Row(Keep(b, 0.5), 0, Keep(b, 0.5), n, Mix(b, 1.0), l, Mix(b, 1.0), r)
        else Row(Keep(b, 1.0), x, Mix(b, 1.0), l, Mix(b, 1.0), r, 0.0, x)
  }

  lemma AtIsRow(lmax: nat, s: Step, u: seq<real>, x: int)
    requires Fits(lmax, s) && |u| == Pow2(lmax) + 1 && 0 <= x <= Pow2(lmax)
    ensures var r := RowOf(lmax, s, x); At(lmax, s, u, x) == Combine(r, u[r.i0], u[r.i1], u[r.i2], u[r.i3])
  {
  }

  lemma CombineScales(r: Row, c: real, x0: real, x1: real, x2: real, x3: real)
    ensures Combine(r, c * x0, c * x1, c * x2, c * x3) == c * Combine(r, x0, x1, x2, x3)
  {
    assert r.c0 * (c * x0) == c * (r.c0 * x0);
    assert r.c1 * (c * x1) == c * (r.c1 * x1);
    assert r.c2 * (c * x2) == c * (r.c2 * x2);
    assert r.c3 * (c * x3) == c * (r.c3 * x3);
  }

  lemma ProductOfSum(c: real, x: real, y: real, z: real, w: real)
    ensures c * (x + y + z + w) == c * x + c * y + c * z + c * w
  {
  }

  lemma CombineAdds(r: Row, x0: real, x1: real, x2: real, x3: real, y0: real, y1: real, y2: real, y3: real,
                    z0: real, z1: real, z2: real, z3: real, w0: real, w1: real, w2: real, w3: real)
    ensures Combine(r, x0 + y0 + z0 + w0, x1 + y1 + z1 + w1, x2 + y2 + z2 + w2, x3 + y3 + z3 + w3)
            == Combine(r, x0, x1, x2, x3) + Combine(r, y0, y1, y2, y3) + Combine(r, z0, z1, z2, z3)
              + Combine(r, w0, w1, w2, w3)
  {
    ProductOfSum(r.c0, x0, y0, z0, w0);
    ProductOfSum(r.c1, x1, y1, z1, w1);
    ProductOfSum(r.c2, x2, y2, z2, w2);
    ProductOfSum(r.c3, x3, y3, z3, w3);
  }

  /** Combining the rows of a 4 by 4 table and then the results gives the same as combining the
      columns first. */
  lemma CombineBothWays(r: Row, t: Row,
                        g00: real, g01: real, g02: real, g03: real, g10: real, g11: real, g12: real, g13: real,
                        g20: real, g21: real, g22: real, g23: real, g30: real, g31: real, g32: real, g33: real)
    ensures Combine(r, Combine(t, g00, g01, g02, g03), Combine(t, g10, g11, g12, g13),
                    Combine(t, g20, g21, g22, g23), Combine(t, g30, g31, g32, g33))
            == Combine(t, Combine(r, g00, g10, g20, g30), Combine(r, g01, g11, g21, g31),
                       Combine(r, g02, g12, g22, g32), Combine(r, g03, g13, g23, g33))
  {
    CombineAdds(r, t.c0 * g00, t.c0 * g10, t.c0 * g20, t.c0 * g30, t.c1 * g01, t.c1 * g11, t.c1 * g21, t.c1 * g31,
                t.c2 * g02, t.c2 * g12, t.c2 * g22, t.c2 * g32, t.c3 * g03, t.c3 * g13, t.c3 * g23, t.c3 * g33);
    CombineScales(r, t.c0, g00, g10, g20, g30);
    CombineScales(r, t.c1, g01, g11, g21, g31);
    CombineScales(r, t.c2, g02, g12, g22, g32);
    CombineScales(r, t.c3, g03, g13, g23, g33);
  }
}
