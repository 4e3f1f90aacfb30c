/** The documented stencils: what one surplus of a level looks like on the points of that level and of the next coarser
    ones when it is dehierarchized by one level. */
module Wavelets {
  import opened Dyadic
  import opened Bases
  import opened KernelStages
  import opened LinearTransforms

  /** x is a point of the level with spacing w = 2^k that is not next to an end. */
  ghost predicate IsInnerPoint(lmax: nat, k: nat, x: int) {
    k < lmax && OddMult(k, x) && 3 * Pow2(k) <= x <= Pow2(lmax) - 3 * Pow2(k)
  }

  /** The value at y of the stencil [-1/2, 1, -1/2] around x. */
  function HatWavelet(w: int, x: int, y: int): real {
    if y == x then 1.0 else if y == x - w || y == x + w then -0.5 else 0.0
  }

  /** The value at y of the stencil [-1/8, -1/4, 3/4, -1/4, -1/8] around x. */
  function BiorthogonalWavelet(w: int, x: int, y: int): real {
    if y == x then 0.75
    else if y == x - w || y == x + w then -0.25
    else if y == x - 2 * w || y == x + 2 * w then -0.125
    else 0.0
  }

  lemma UnitAt(n: nat, x: int, y: int)
    requires 0 <= y < n
    ensures Unit(n, x)[y] == if y == x then 1.0 else 0.0
  {
  }

  /** In the full weighting basis a surplus is a hat wavelet. */
  lemma FullWeightingWavelet(lmax: nat, k: nat, periodic: bool, x: int, y: int)
    requires IsInnerPoint(lmax, k, x) && 0 <= y <= Pow2(lmax)
    ensures Backward(lmax, FullWeighting(periodic), k, Unit(Pow2(lmax) + 1, x))[y] == HatWavelet(Pow2(k), x, y)
  {
    hide Pow2, OddMult, Mult, Backward, Unit;
    var n, w, e := Pow2(lmax), Pow2(k), Unit(Pow2(lmax) + 1, x);
    var v := Backward(lmax, FullWeighting(periodic), k, e);
    forall z | 0 <= z <= n && OddMult(k, z)
      ensures v[z] == if z == x then 1.0 else 0.0
    {
      KindsOfPoints(lmax, k, z);
      EvenNeighbours(lmax, k, z);
      FullWeightingBackward(lmax, k, periodic, e, z);
      UnitAt(n + 1, x, z);
      UnitAt(n + 1, x, z - w);
      UnitAt(n + 1, x, z + w);
    }
    EvenNeighbours(lmax, k, x);
    if !OddMult(k, y) {
      EvenWavelet(lmax, k, periodic, x, y);
    }
  }

  lemma EvenWavelet(lmax: nat, k: nat, periodic: bool, x: int, y: int)
    requires IsInnerPoint(lmax, k, x) && 0 <= y <= Pow2(lmax) && !OddMult(k, y)
    requires var v := Backward(lmax, FullWeighting(periodic), k, Unit(Pow2(lmax) + 1, x));
             forall z :: 0 <= z <= Pow2(lmax) && OddMult(k, z) ==> v[z] == if z == x then 1.0 else 0.0
    ensures Backward(lmax, FullWeighting(periodic), k, Unit(Pow2(lmax) + 1, x))[y] == HatWavelet(Pow2(k), x, y)
  {
    hide Pow2, OddMult, Mult, Backward, Unit;
    var n, w, e := Pow2(lmax), Pow2(k), Unit(Pow2(lmax) + 1, x);
    KindsOfPoints(lmax, k, y);
    KindsOfPoints(lmax, k, x);
    MultSplit(k, y);
    EvenNeighbours(lmax, k, x);
    FullWeightingBackward(lmax, k, periodic, e, y);
    UnitAt(n + 1, x, y);
    UnitAt(n + 1, x, 0);
    UnitAt(n + 1, x, n);
  }

  /** The even points first take a quarter of the surplus away. */
  lemma BiorthogonalEven(lmax: nat, k: nat, periodic: bool, x: int, y: int)
    requires IsInnerPoint(lmax, k, x) && 0 <= y <= Pow2(lmax) && !OddMult(k, y)
    ensures Backward(lmax, Biorthogonal(periodic), k, Unit(Pow2(lmax) + 1, x))[y]
            == if y == x - Pow2(k) || y == x + Pow2(k) then -0.25 else 0.0
  {
    hide Pow2, OddMult, Mult, Backward, Unit;
    var n, w, e := Pow2(lmax), Pow2(k), Unit(Pow2(lmax) + 1, x);
    KindsOfPoints(lmax, k, y);
    KindsOfPoints(lmax, k, x);
    MultSplit(k, y);
    EvenNeighbours(lmax, k, x);
    BiorthogonalBackward(lmax, k, periodic, e, y);
    UnitAt(n + 1, x, y);
    UnitAt(n + 1, x, 0);
    UnitAt(n + 1, x, n);
    UnitAt(n + 1, x, w);
    UnitAt(n + 1, x, n - w);
    if 0 < y < n && Mult(k + 1, y) {
      UnitAt(n + 1, x, y - w);
      UnitAt(n + 1, x, y + w);
    }
  }

  /** In the biorthogonal basis a surplus is the wavelet of Cohen, Daubechies and Feauveau. */
  lemma BiorthogonalIsWavelet(lmax: nat, k: nat, periodic: bool, x: int, y: int)
    requires IsInnerPoint(lmax, k, x) && 0 <= y <= Pow2(lmax)
    ensures Backward(lmax, Biorthogonal(periodic), k, Unit(Pow2(lmax) + 1, x))[y] == BiorthogonalWavelet(Pow2(k), x, y)
  {
    hide Pow2, OddMult, Mult, Backward, Unit;
    var w, e := Pow2(k), Unit(Pow2(lmax) + 1, x);
    KindsOfPoints(lmax, k, y);
    KindsOfPoints(lmax, k, x);
    EvenNeighbours(lmax, k, x);
    if OddMult(k, y) {
      EvenNeighbours(lmax, k, y);
      BiorthogonalBackward(lmax, k, periodic, e, y);
      UnitAt(Pow2(lmax) + 1, x, y);
      BiorthogonalEven(lmax, k, periodic, x, y - w);
      BiorthogonalEven(lmax, k, periodic, x, y + w);
    } else {
      BiorthogonalEven(lmax, k, periodic, x, y);
      OddAround(lmax, k, x);
    }
  }

  lemma OddAround(lmax: nat, k: nat, x: int)
    requires IsInnerPoint(lmax, k, x)
    ensures OddMult(k, x - 2 * Pow2(k)) && OddMult(k, x + 2 * Pow2(k))
  {
    Neighbours(k, x);
    Neighbours(k, x - Pow2(k));
    Neighbours(k, x + Pow2(k));
  }
}
