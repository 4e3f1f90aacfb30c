/** What the transforms are for: in the hat basis the surpluses interpolate the grid.  The value at every grid point is
    the sum of all surpluses times the products of their hat functions at that point, and no other numbers have that
    property. */
module Interpolation {
  import opened Dyadic
  import opened Bases
  import opened Tensor
  import opened GridAxes
  import opened GridSweep
  import opened GridTransform
  import opened LocalTransform
  import opened NoBoundary
  import opened LinearTransforms
  import opened HatFunctions
  import opened TensorProduct

  /** The kernels for each basis: non-periodic biorthogonal data are handed to the full weighting kernels. */
  function Kernel(d: Dim, forward: bool, w: seq<real>): (v: seq<real>)
    requires d.lmin <= d.lmax && |w| == Pow2(d.lmax) + 1
    ensures |v| == |w|
  {
    var n := d.lmax - d.lmin;
    match d.basis
    case Hat => if forward then Hierarchized(d.lmax, Hat, n, w) else Dehierarchized(d.lmax, Hat, n, 0, w)
    case FullWeighting(p) =>
      if forward then Hierarchized(d.lmax, FullWeighting(p), n, w)
      else Dehierarchized(d.lmax, FullWeighting(p), n, 0, w)
    case Biorthogonal(true) =>
      if forward then Hierarchized(d.lmax, Biorthogonal(true), n, w)
      else Dehierarchized(d.lmax, Biorthogonal(true), n, 0, w)
    case Biorthogonal(false) =>
      if forward then Hierarchized(d.lmax, FullWeighting(false), n, w)
      else Dehierarchized(d.lmax, FullWeighting(false), n, 0, w)
  }

  lemma TransformIsKernel(d: Dim, forward: bool, w: seq<real>)
    requires d.lmin <= d.lmax && |w| == Pow2(d.lmax) + 1
    ensures Transformed(d.lmax, d.lmin, TransformOf(d, forward), w) == Kernel(d, forward, w)
  {
    hide Hierarchized, Dehierarchized, Pow2;
  }

  /** The sweep over a selected dimension hands every pole to the kernel of its basis and of its direction. */
  lemma PolesGoToKernels(d: Dim, forward: bool, u: seq<real>, li: int)
    requires d.Valid(|u|) && d.active && 0 <= li < |u|
    ensures PoleAt(d, AxisTransform(d, forward, u), li) == Kernel(d, forward, PoleAt(d, u, li))
  {
    hide PoleAt, AxisTransform, Transformed, TransformOf, Kernel, Pow2;
    AxisTransformsPoles(d, forward, u, li);
    TransformIsKernel(d, forward, PoleAt(d, u, li));
  }

  /** Hierarchization along one dimension in the hat basis: a cell of a level above lmin loses the mean of its two
      direct predecessors on its pole, and every other cell keeps its value. */
  lemma SurplusAlongAxis(d: Dim, u: seq<real>, li: int)
    requires d.Valid(|u|) && d.active && d.basis.Hat? && 0 <= li < |u|
    ensures d.axis.Valid() && 0 <= d.PointOf(li) <= Pow2(d.lmax)
    ensures var x, w := d.PointOf(li), PoleAt(d, u, li);
            if 0 < x < Pow2(d.lmax) && Ctz(x) < d.lmax - d.lmin then
              var h := Pow2(Ctz(x));
              h <= x <= Pow2(d.lmax) - h && AxisTransform(d, true, u)[li] == u[li] - (w[x - h] + w[x + h]) / 2.0
            else AxisTransform(d, true, u)[li] == u[li]
  {
    hide PoleAt, AxisTransform, Pow2, Ctz, Hierarchized;
    var v, x := AxisTransform(d, true, u), d.PointOf(li);
    OwnValue(d, u, li);
    OwnValue(d, v, li);
    PolesGoToKernels(d, true, u, li);
    HierarchizedIsSurplus(d.lmax, d.lmax - d.lmin, PoleAt(d, u, li), x);
    if 0 < x < Pow2(d.lmax) {
      PredecessorsInside(d.lmax, x);
    }
  }

  /** The value at point x of the hat function of cell c along a dimension.  Cell 0 of a one-sided pole has the hat
      function of its virtual last point, too.  A dimension that is left alone has hats of radius one. */
  ghost function HatWeight(d: Dim, c: int, x: int): real
    requires d.lmin <= d.lmax
  {
    var stages := if d.active then d.lmax - d.lmin else 0;
    HatAt(stages, d.Point(c), x)
    + if d.boundary == 1 && c == 0 then HatAt(stages, Pow2(d.lmax), x) else 0.0
  }

  /** The product of the hat functions of cell c, at grid point g. */
  ghost function HatProduct(dims: seq<Dim>, k: nat, c: int, g: int, size: int): real
    requires IsGrid(dims, size) && k <= |dims| && 0 <= g < size
  {
    if k == 0 then 1.0
    else
      var d := dims[k - 1];
      HatProduct(dims, k - 1, c, g, size) * HatWeight(d, d.axis.Coordinate(c), d.PointOf(g))
  }

  /** The value at grid point g of the function with the given surpluses, as far as the first m cells go. */
  ghost function Interpolant(dims: seq<Dim>, surpluses: seq<real>, m: nat, g: int): real
    requires IsGrid(dims, |surpluses|) && m <= |surpluses| && 0 <= g < |surpluses|
  {
    if m == 0 then 0.0
    else
      Interpolant(dims, surpluses, m - 1, g)
      + surpluses[m - 1] * HatProduct(dims, |dims|, m - 1, g, |surpluses|)
  }

  /** With these surpluses the function has the values of the grid at all grid points. */
  ghost predicate Interpolates(dims: seq<Dim>, surpluses: seq<real>, values: seq<real>) {
    && |values| == |surpluses| && IsGrid(dims, |surpluses|)
    && forall g {:trigger values[g]} :: 0 <= g < |values| ==>
         values[g] == Interpolant(dims, surpluses, |surpluses|, g)
  }

  ghost predicate IsHatBox(global: Index, dims: seq<Dim>, size: int) {
    IsBox(global, dims, size) && forall d :: 0 <= d < |dims| ==> dims[d].basis.Hat?
  }

  lemma UnitPoleIsHat(d: Dim, c: int, x: int)
    requires d.active && d.basis.Hat? && d.lmin <= d.lmax && 0 <= d.Point(c) <= Pow2(d.lmax) && 0 <= x <= Pow2(d.lmax)
    ensures Weight(d, false, c, x) == HatWeight(d, c, x)
  {
    hide Pow2, HatAt, Dehierarchized, Plus, Unit, Run;
    var n, stages := Pow2(d.lmax), d.lmax - d.lmin;
    var p, q := Unit(n + 1, d.Point(c)), Unit(n + 1, n);
    var a := if d.boundary == 1 && c == 0 then 1.0 else 0.0;
    StepsTransform(d, false, p);
    StepsTransform(d, false, q);
    StepsTransform(d, false, Plus(p, a, q));
    RunIsLinear(d.lmax, StepsOf(d, false), p, a, q);
    SurplusGivesHat(d.lmax, stages, d.Point(c), x);
    SurplusGivesHat(d.lmax, stages, n, x);
    PlusAt(Run(d.lmax, StepsOf(d, false), p), a, Run(d.lmax, StepsOf(d, false), q), x);
  }

  /** Without stages a hat function is one at its point and zero at all others. */
  lemma NarrowHat(y: int, x: int)
    ensures HatAt(0, y, x) == if x == y then 1.0 else 0.0
  {
    Fractions(1);
  }

  lemma WeightIsHat(d: Dim, c: int, x: int)
    requires d.basis.Hat? && d.lmin <= d.lmax && 0 <= d.Point(c) <= Pow2(d.lmax) && 0 <= x <= Pow2(d.lmax)
    requires d.boundary == 1 ==> x < Pow2(d.lmax)
    ensures Weight(d, false, c, x) == HatWeight(d, c, x)
  {
    hide Pow2, HatAt, Transformed, PoleUnit;
    if d.active {
      UnitPoleIsHat(d, c, x);
    } else {
      NarrowHat(d.Point(c), x);
      NarrowHat(Pow2(d.lmax), x);
    }
  }

  lemma {:induction false} FactorIsHatProduct(dims: seq<Dim>, k: nat, c: int, g: int, size: int)
    requires IsGrid(dims, size) && k <= |dims| && 0 <= g < size && 0 <= c < size
    requires forall d :: 0 <= d < |dims| ==> dims[d].basis.Hat?
    ensures Factor(dims, false, k, c, g, size) == HatProduct(dims, k, c, g, size)
  {
    hide Weight, HatWeight, Axis.Coordinate, IsGrid;
    if k > 0 {
      var d := dims[k - 1];
      DimIsValid(dims, k - 1, size);
      FactorIsHatProduct(dims, k - 1, c, g, size);
      d.axis.MoveIsExact(c, 0, size);
      d.axis.MoveIsExact(g, 0, size);
      WeightIsHat(d, d.axis.Coordinate(c), d.PointOf(g));
    }
  }

  lemma {:induction false} SuperposedIsInterpolant(dims: seq<Dim>, v: seq<real>, m: nat, g: int)
    requires IsGrid(dims, |v|) && m <= |v| && 0 <= g < |v|
    requires forall d :: 0 <= d < |dims| ==> dims[d].basis.Hat?
    ensures Superposed(dims, false, v, m, g) == Interpolant(dims, v, m, g)
  {
    hide Factor, HatProduct, IsGrid;
    if m > 0 {
      SuperposedIsInterpolant(dims, v, m - 1, g);
      FactorIsHatProduct(dims, |dims|, m - 1, g, |v|);
    }
  }

  /** Dehierarchization evaluates the function with the given surpluses at every grid point. */
  lemma DehierarchizationInterpolates(global: Index, dims: seq<Dim>, v: seq<real>)
    requires IsHatBox(global, dims, |v|)
    ensures Interpolates(dims, v, Swept(dims, false, 0, |dims|, v))
  {
    hide Swept, Superposed, Interpolant, IsGrid;
    forall g | 0 <= g < |v|
      ensures Swept(dims, false, 0, |dims|, v)[g] == Interpolant(dims, v, |v|, g)
    {
      SweepIsProduct(global, dims, false, v, g);
      SuperposedIsInterpolant(dims, v, |v|, g);
    }
  }

  /** Hierarchization computes the surpluses of the grid: the only numbers with which the sum of hat functions has the
      value of the grid at every grid point, in any number of dimensions, with any kinds of boundary and any coarsest
      levels, even if some dimensions are left alone. */
  lemma SurplusesInterpolate(global: Index, dims: seq<Dim>, u: seq<real>, v: seq<real>)
    requires IsHatBox(global, dims, |u|) && |v| == |u|
    ensures Interpolates(dims, v, u) <==> v == Swept(dims, true, 0, |dims|, u)
  {
    hide Swept, Interpolant, IsGrid, SeamsMatch;
    HatSeamsMatch(dims, u);
    HatSeamsMatch(dims, v);
    GridRoundTrip(dims, true, u);
    GridRoundTrip(dims, false, v);
    DehierarchizationInterpolates(global, dims, v);
    if Interpolates(dims, v, u) {
      assert Swept(dims, false, 0, |dims|, v) == u;
    }
  }

  lemma HatSeamsMatch(dims: seq<Dim>, u: seq<real>)
    requires IsGrid(dims, |u|) && forall d :: 0 <= d < |dims| ==> dims[d].basis.Hat?
    ensures AllSeamsMatch(dims, u)
  {
  }
}
