/** The hierarchical hat functions.  Dehierarchizing a single surplus gives the values of its hat function. */
module HatFunctions {
  import opened Dyadic
  import opened Bases
  import opened KernelStages
  import opened LinearTransforms

  /** Half the width of the support of the hat function at point y: the spacing of its level, or that of the coarsest
      level if the point is coarser. */
  function Radius(stages: nat, y: int): (r: int)
    ensures r > 0
  {
    if y != 0 && Ctz(y) < stages then Pow2(Ctz(y)) else Pow2(stages)
  }

  /** The height of a hat of radius r at distance z from its centre, in units of 1 / r. */
  function Height(r: int, z: int): int {
    if z <= -r || z >= r then 0 else if z < 0 then r + z else r - z
  }

  /** The value at x of the hat function at y: one at y, zero at distance Radius and beyond, linear in between. */
  function HatAt(stages: nat, y: int, x: int): real {
    Height(Radius(stages, y), x - y) as real / Radius(stages, y) as real
  }

  /** The radius is the largest power of two up to 2^stages that divides y. */
  lemma RadiusExponent(lmax: nat, stages: nat, y: int) returns (j: nat)
    requires stages <= lmax && 0 <= y <= Pow2(lmax)
    ensures j <= stages && Radius(stages, y) == Pow2(j) && Mult(j, y) && (j < stages ==> OddMult(j, y))
  {
    MultZero(stages);
    if y != 0 {
      CtzIsOddMult(y, Ctz(y));
      j := if Ctz(y) < stages then Ctz(y) else stages;
      MultWeaken(j, Ctz(y), y);
    } else {
      j := stages;
    }
  }

  lemma MeanOfFractions(r: int, a: int, b: int, c: int)
    requires r > 0 && a + c == 2 * b
    ensures (a as real / r as real) / 2.0 + (c as real / r as real) / 2.0 == b as real / r as real
  {
    assert a as real + c as real == 2.0 * b as real;
    assert (a as real + c as real) / r as real == a as real / r as real + c as real / r as real;
  }

  lemma Fractions(r: int)
    requires r > 0
    ensures 0 as real / r as real == 0.0 && r as real / r as real == 1.0
  {
  }

  /** A hat vanishes at all multiples of its radius but its centre. */
  lemma OtherMultiples(j: nat, y: int, x: int)
    requires Mult(j, y) && Mult(j, x)
    ensures Height(Pow2(j), x - y) == if x == y then Pow2(j) else 0
  {
    if y < x < y + Pow2(j) {
      Spacing(j, y, x);
    } else if x < y < x + Pow2(j) {
      Spacing(j, x, y);
    }
  }

  /** Between the neighbours of an odd multiple there is no other even multiple. */
  lemma NothingBetween(k: nat, x: int, z: int)
    requires OddMult(k, x) && Mult(k + 1, z)
    ensures z <= x - Pow2(k) || z >= x + Pow2(k)
  {
    Neighbours(k, x);
    if x - Pow2(k) < z < x + Pow2(k) {
      Spacing(k + 1, x - Pow2(k), z);
    }
  }

  lemma HeightsBetween(r: int, h: int, z: int)
    requires 0 < h && 2 * h <= r && (z <= -h || z >= h) && (z <= -r - h || z >= -r + h) && (z <= r - h || z >= r + h)
    ensures Height(r, z - h) + Height(r, z + h) == 2 * Height(r, z)
  {
  }

  /** Around a point between two neighbouring multiples of twice the spacing a wide hat is linear. */
  lemma WideHat(k: nat, j: nat, y: int, x: int)
    requires k < j && Mult(j, y) && OddMult(k, x)
    ensures x != y
    ensures var r, h := Pow2(j), Pow2(k); Height(r, x - h - y) + Height(r, x + h - y) == 2 * Height(r, x - y)
  {
    hide Pow2, Mult, OddMult, Height;
    var r, h := Pow2(j), Pow2(k);
    MultWeaken(k + 1, j, y);
    MultPow2(k + 1, j);
    MultClosed(k + 1, y, r);
    Pow2Monotone(k, j);
    NothingBetween(k, x, y);
    NothingBetween(k, x, y - r);
    NothingBetween(k, x, y + r);
    HeightsBetween(r, h, x - y);
  }

  /** The hat function at an odd multiple of 2^k, from its values at the two neighbours. */
  lemma HatBetween(lmax: nat, stages: nat, k: nat, y: int, x: int)
    requires k < stages <= lmax && 0 <= y <= Pow2(lmax) && OddMult(k, x)
    ensures HatAt(stages, y, x)
            == (if x == y then 1.0 else 0.0) + HatAt(stages, y, x - Pow2(k)) / 2.0 + HatAt(stages, y, x + Pow2(k)) / 2.0
  {
    hide Ctz, Pow2, Mult, OddMult, Height, Radius;
    var j := RadiusExponent(lmax, stages, y);
    var r, h := Pow2(j), Pow2(k);
    Fractions(r);
    if k < j {
      WideHat(k, j, y, x);
      MeanOfFractions(r, Height(r, x - h - y), Height(r, x - y), Height(r, x + h - y));
    } else {
      MultWeaken(j, k, x);
      Neighbours(k, x);
      MultWeaken(j, k + 1, x - h);
      MultWeaken(j, k + 1, x + h);
      OtherMultiples(j, y, x);
      OtherMultiples(j, y, x - h);
      OtherMultiples(j, y, x + h);
      CoarserPoint(j, k, y, x - h);
      CoarserPoint(j, k, y, x + h);
    }
  }

  lemma CoarserPoint(j: nat, k: nat, y: int, z: int)
    requires j <= k && OddMult(j, y) && Mult(k + 1, z)
    ensures z != y
  {
    MultWeaken(j + 1, k + 1, z);
    MultSplit(j, z);
  }

  /** While a single surplus is dehierarchized, the points that are done have the values of its hat function. */
  lemma {:induction false} PartialHat(lmax: nat, stages: nat, from: nat, y: int, x: int)
    requires from <= stages <= lmax && 0 <= y <= Pow2(lmax) && 0 <= x <= Pow2(lmax)
    ensures Dehierarchized(lmax, Hat, stages, from, Unit(Pow2(lmax) + 1, y))[x]
            == if Mult(from, x) then HatAt(stages, y, x) else if x == y then 1.0 else 0.0
    decreases stages - from
  {
    hide Pow2, Mult, OddMult, HatAt, Backward;
    var u := Unit(Pow2(lmax) + 1, y);
    NoStage(lmax, Hat, stages, u);
    MultSplit(from, x);
    if from < stages {
      var v, w := Dehierarchized(lmax, Hat, stages, from + 1, u), Pow2(from);
      PartialHat(lmax, stages, from + 1, y, x);
      StageDown(lmax, Hat, stages, from, u);
      HatStage(lmax, from, v, x);
      if OddMult(from, x) {
        KindsOfPoints(lmax, from, x);
        Neighbours(from, x);
        PartialHat(lmax, stages, from + 1, y, x - w);
        PartialHat(lmax, stages, from + 1, y, x + w);
        HatBetween(lmax, stages, from, y, x);
      }
    } else if Mult(from, x) {
      var j := RadiusExponent(lmax, stages, y);
      MultWeaken(j, stages, x);
      OtherMultiples(j, y, x);
      HatAtMultiple(stages, y, x, j);
    }
  }

  lemma HatAtMultiple(stages: nat, y: int, x: int, j: nat)
    requires Radius(stages, y) == Pow2(j) && Height(Pow2(j), x - y) == if x == y then Pow2(j) else 0
    ensures HatAt(stages, y, x) == if x == y then 1.0 else 0.0
  {
    Fractions(Pow2(j));
  }

  /** Dehierarchizing a single surplus gives the hat function of its point. */
  lemma SurplusGivesHat(lmax: nat, stages: nat, y: int, x: int)
    requires stages <= lmax && 0 <= y <= Pow2(lmax) && 0 <= x <= Pow2(lmax)
    ensures Dehierarchized(lmax, Hat, stages, 0, Unit(Pow2(lmax) + 1, y))[x] == HatAt(stages, y, x)
  {
    PartialHat(lmax, stages, 0, y, x);
  }
}
