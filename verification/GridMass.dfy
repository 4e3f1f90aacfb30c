/** Mass conservation in any number of dimensions.  The mass of a grid takes the trapezoidal sum along one dimension
    after the other; hierarchization of all dimensions leaves the same mass on the coarse points. */
module GridMass {
  import opened Dyadic
  import opened Lifting
  import opened Rows
  import opened Mass
  import opened GridAxes
  import opened GridSweep
  import opened GridTransform

  /** Point by point, u is a combination of four poles. */
  ghost predicate IsCombined(r: Row, u: seq<real>, x0: seq<real>, x1: seq<real>, x2: seq<real>, x3: seq<real>) {
    && |u| == |x0| == |x1| == |x2| == |x3|
    && forall i {:trigger u[i]} :: 0 <= i < |u| ==> u[i] == Combine(r, x0[i], x1[i], x2[i], x3[i])
  }

  lemma CombineSum(r: Row, x0: real, x1: real, x2: real, x3: real, y0: real, y1: real, y2: real, y3: real)
    ensures Combine(r, x0 + y0, x1 + y1, x2 + y2, x3 + y3) == Combine(r, x0, x1, x2, x3) + Combine(r, y0, y1, y2, y3)
  {
    CombineAdds(r, x0, x1, x2, x3, y0, y1, y2, y3, 0.0, 0.0, 0.0, 0.0, 0.0, 0.0, 0.0, 0.0);
  }

  lemma {:induction false} SumOfCombined(r: Row, u: seq<real>, x0: seq<real>, x1: seq<real>, x2: seq<real>,
                                         x3: seq<real>, x: int, w: int, n: int)
    requires IsCombined(r, u, x0, x1, x2, x3) && 0 <= x && 0 < w && n < |u|
    ensures SumFrom(u, x, w, n)
            == Combine(r, SumFrom(x0, x, w, n), SumFrom(x1, x, w, n), SumFrom(x2, x, w, n), SumFrom(x3, x, w, n))
    decreases n - x
  {
    if x < n {
      SumOfCombined(r, u, x0, x1, x2, x3, x + w, w, n);
      CombineSum(r, x0[x], x1[x], x2[x], x3[x],
                 SumFrom(x0, x + w, w, n), SumFrom(x1, x + w, w, n), SumFrom(x2, x + w, w, n), SumFrom(x3, x + w, w,
                                                                                                       n));
    }
  }

  function EndSum(u: seq<real>): real
    requires |u| > 0
  {
    0.5 * u[0] + 0.5 * u[|u| - 1]
  }

  lemma EndsOfCombined(r: Row, u: seq<real>, x0: seq<real>, x1: seq<real>, x2: seq<real>, x3: seq<real>)
    requires IsCombined(r, u, x0, x1, x2, x3) && |u| > 0
    ensures EndSum(u) == Combine(r, EndSum(x0), EndSum(x1), EndSum(x2), EndSum(x3))
  {
    hide Combine;
    var n := |u| - 1;
    CombineScales(r, 0.5, x0[0], x1[0], x2[0], x3[0]);
    CombineScales(r, 0.5, x0[n], x1[n], x2[n], x3[n]);
    CombineSum(r, 0.5 * x0[0], 0.5 * x1[0], 0.5 * x2[0], 0.5 * x3[0], 0.5 * x0[n], 0.5 * x1[n], 0.5 * x2[n],
               0.5 * x3[n]);
  }

  lemma TrapezoidOfCombined(lmax: nat, k: nat, r: Row, u: seq<real>, x0: seq<real>, x1: seq<real>, x2: seq<real>,
                            x3: seq<real>)
    requires k <= lmax && |u| == Pow2(lmax) + 1 && IsCombined(r, u, x0, x1, x2, x3)
    ensures Trapezoid(lmax, k, u)
            == Combine(r, Trapezoid(lmax, k, x0), Trapezoid(lmax, k, x1), Trapezoid(lmax, k, x2),
                       Trapezoid(lmax, k, x3))
  {
    hide Combine, SumFrom;
    var n, w := Pow2(lmax), Pow2(k);
    SumOfCombined(r, u, x0, x1, x2, x3, w, w, n);
    EndsOfCombined(r, u, x0, x1, x2, x3);
    CombineSum(r, EndSum(x0), EndSum(x1), EndSum(x2), EndSum(x3),
               SumFrom(x0, w, w, n), SumFrom(x1, w, w, n), SumFrom(x2, w, w, n), SumFrom(x3, w, w, n));
    assert Trapezoid(lmax, k, x0) == EndSum(x0) + SumFrom(x0, w, w, n)
           && Trapezoid(lmax, k, x1) == EndSum(x1) + SumFrom(x1, w, w, n);
    assert Trapezoid(lmax, k, x2) == EndSum(x2) + SumFrom(x2, w, w, n)
           && Trapezoid(lmax, k, x3) == EndSum(x3) + SumFrom(x3, w, w, n);
  }

  lemma MassOfCombined(lmax: nat, k: nat, r: Row, u: seq<real>, x0: seq<real>, x1: seq<real>, x2: seq<real>,
                       x3: seq<real>)
    requires k <= lmax && |u| == Pow2(lmax) + 1 && IsCombined(r, u, x0, x1, x2, x3)
    ensures MassOf(lmax, k, u)
            == Combine(r, MassOf(lmax, k, x0), MassOf(lmax, k, x1), MassOf(lmax, k, x2), MassOf(lmax, k, x3))
  {
    hide Combine, Trapezoid;
    var c, t0, t1, t2, t3 := Pow2(k) as real, Trapezoid(lmax, k, x0), Trapezoid(lmax, k, x1), Trapezoid(lmax, k, x2),
      Trapezoid(lmax, k, x3);
    TrapezoidOfCombined(lmax, k, r, u, x0, x1, x2, x3);
    CombineScales(r, c, t0, t1, t2, t3);
    assert MassOf(lmax, k, u) == c * Combine(r, t0, t1, t2, t3);
    assert MassOf(lmax, k, x0) == c * t0 && MassOf(lmax, k, x1) == c * t1 && MassOf(lmax, k, x2) == c * t2
           && MassOf(lmax, k, x3) == c * t3;
  }

  function ZeroPole(lmax: nat): (u: seq<real>)
    ensures |u| == Pow2(lmax) + 1 && forall i :: 0 <= i < |u| ==> u[i] == 0.0
  {
    seq(Pow2(lmax) + 1, i => 0.0)
  }

  lemma {:induction false} SumOfZeros(u: seq<real>, x: int, w: int, n: int)
    requires 0 <= x && 0 < w && n < |u| && forall i :: 0 <= i < |u| ==> u[i] == 0.0
    ensures SumFrom(u, x, w, n) == 0.0
    decreases n - x
  {
    if x < n {
      SumOfZeros(u, x + w, w, n);
    }
  }

  lemma MassOfZeros(lmax: nat, k: nat)
    requires k <= lmax
    ensures MassOf(lmax, k, ZeroPole(lmax)) == 0.0
  {
    SumOfZeros(ZeroPole(lmax), Pow2(k), Pow2(k), Pow2(lmax));
  }

  /** The mass of the pole through every cell, on the points of spacing 2^k. */
  ghost function AxisMass(d: Dim, k: nat, u: seq<real>): (v: seq<real>)
    requires d.Valid(|u|) && k <= d.lmax
    ensures |v| == |u|
  {
    seq(|u|, li requires 0 <= li < |u| => MassOf(d.lmax, k, PoleAt(d, u, li)))
  }

  /** The pole along a through point j along b. */
  ghost function PoleOver(a: Dim, b: Dim, u: seq<real>, li: int, j: int): (v: seq<real>)
    requires a.Valid(|u|) && b.Valid(|u|) && 0 <= li < |u| && 0 <= j <= Pow2(b.lmax)
    ensures |v| == Pow2(a.lmax) + 1
  {
    if b.IsStored(j) then
      b.axis.MoveIsExact(li, b.Wrap(j), |u|);
      PoleAt(a, u, b.axis.Move(li, b.Wrap(j)))
    else ZeroPole(a.lmax)
  }

  lemma PoleOverIsCells(a: Dim, b: Dim, u: seq<real>, li: int, i: int, j: int)
    requires a.Valid(|u|) && b.Valid(|u|) && Independent(a.axis, b.axis)
    requires 0 <= li < |u| && 0 <= i <= Pow2(a.lmax) && 0 <= j <= Pow2(b.lmax)
    ensures PoleOver(a, b, u, li, j)[i] == CellValue(a, b, u, li, i, j)
  {
    CellValueIsSymmetric(a, b, u, li, i, j);
    if b.IsStored(j) {
      PoleThroughMove(b, a, u, li, j, i);
    }
  }

  lemma MassOverPoint(a: Dim, b: Dim, k: nat, u: seq<real>, li: int, j: int)
    requires a.Valid(|u|) && b.Valid(|u|) && k <= a.lmax && 0 <= li < |u| && 0 <= j <= Pow2(b.lmax)
    ensures MassOf(a.lmax, k, PoleOver(a, b, u, li, j)) == PoleAt(b, AxisMass(a, k, u), li)[j]
  {
    if b.IsStored(j) {
      b.axis.MoveIsExact(li, b.Wrap(j), |u|);
    } else {
      MassOfZeros(a.lmax, k);
    }
  }

  lemma SteppedPoleIsCombined(a: Dim, b: Dim, t: Step, u: seq<real>, li: int)
    requires a.Valid(|u|) && b.Valid(|u|) && StepFits(b, t) && Independent(a.axis, b.axis) && 0 <= li < |u|
    ensures 0 <= b.PointOf(li) <= Pow2(b.lmax)
    ensures var q := RowOf(b.lmax, t, b.PointOf(li));
            IsCombined(q, PoleAt(a, AxisStep(b, t, u), li), PoleOver(a, b, u, li, q.i0), PoleOver(a, b, u, li, q.i1),
                       PoleOver(a, b, u, li, q.i2), PoleOver(a, b, u, li, q.i3))
  {
    hide Combine, RowOf, PoleOver, CellValue, AxisStep;
    InnerValue(a, b, t, u, li, 0);
    var q := RowOf(b.lmax, t, b.PointOf(li));
    forall i | 0 <= i <= Pow2(a.lmax)
      ensures PoleAt(a, AxisStep(b, t, u), li)[i]
              == Combine(q, PoleOver(a, b, u, li, q.i0)[i], PoleOver(a, b, u, li, q.i1)[i],
                         PoleOver(a, b, u, li, q.i2)[i], PoleOver(a, b, u, li, q.i3)[i])
    {
      InnerValue(a, b, t, u, li, i);
      PoleOverIsCells(a, b, u, li, i, q.i0);
      PoleOverIsCells(a, b, u, li, i, q.i1);
      PoleOverIsCells(a, b, u, li, i, q.i2);
      PoleOverIsCells(a, b, u, li, i, q.i3);
    }
  }

  lemma CellOfMassAndStep(a: Dim, k: nat, b: Dim, t: Step, u: seq<real>, li: int)
    requires a.Valid(|u|) && b.Valid(|u|) && StepFits(b, t) && Independent(a.axis, b.axis) && k <= a.lmax
             && 0 <= li < |u|
    ensures AxisMass(a, k, AxisStep(b, t, u))[li] == AxisStep(b, t, AxisMass(a, k, u))[li]
  {
    hide Combine, RowOf, PoleOver, MassOf, PoleAt;
    b.axis.MoveIsExact(li, 0, |u|);
    var q := RowOf(b.lmax, t, b.PointOf(li));
    SteppedPoleIsCombined(a, b, t, u, li);
    MassOfCombined(a.lmax, k, q, PoleAt(a, AxisStep(b, t, u), li), PoleOver(a, b, u, li, q.i0),
                   PoleOver(a, b, u, li, q.i1), PoleOver(a, b, u, li, q.i2), PoleOver(a, b, u, li, q.i3));
    MassOverPoint(a, b, k, u, li, q.i0);
    MassOverPoint(a, b, k, u, li, q.i1);
    MassOverPoint(a, b, k, u, li, q.i2);
    MassOverPoint(a, b, k, u, li, q.i3);
    AtIsRow(b.lmax, t, PoleAt(b, AxisMass(a, k, u), li), b.PointOf(li));
  }

  /** The sum along one dimension commutes with a step along another. */
  lemma MassAndStepCommute(a: Dim, k: nat, b: Dim, t: Step, u: seq<real>)
    requires a.Valid(|u|) && b.Valid(|u|) && StepFits(b, t) && Independent(a.axis, b.axis) && k <= a.lmax
    ensures AxisMass(a, k, AxisStep(b, t, u)) == AxisStep(b, t, AxisMass(a, k, u))
  {
    hide AxisMass, AxisStep;
    forall li | 0 <= li < |u|
      ensures AxisMass(a, k, AxisStep(b, t, u))[li] == AxisStep(b, t, AxisMass(a, k, u))[li]
    {
      CellOfMassAndStep(a, k, b, t, u, li);
    }
  }

  lemma {:induction false} MassAndRunCommute(a: Dim, k: nat, b: Dim, steps: seq<Step>, u: seq<real>)
    requires a.Valid(|u|) && b.Valid(|u|) && (forall t :: t in steps ==> StepFits(b, t)) && Independent(a.axis, b.axis)
             && k <= a.lmax
    ensures AxisMass(a, k, AxisRun(b, steps, u)) == AxisRun(b, steps, AxisMass(a, k, u))
  {
    hide AxisMass, AxisStep;
    if steps != [] {
      var n := |steps| - 1;
      MassAndRunCommute(a, k, b, steps[..n], u);
      MassAndStepCommute(a, k, b, steps[n], AxisRun(b, steps[..n], u));
    }
  }

  lemma MassAndTransformCommute(a: Dim, k: nat, b: Dim, forward: bool, u: seq<real>)
    requires a.Valid(|u|) && b.Valid(|u|) && Independent(a.axis, b.axis) && k <= a.lmax
    ensures AxisMass(a, k, AxisTransform(b, forward, u)) == AxisTransform(b, forward, AxisMass(a, k, u))
  {
    StepsOfFit(b, forward, |u|);
    MassAndRunCommute(a, k, b, StepsOf(b, forward), u);
  }

  /** The number of levels that a sweep treats. */
  function StagesOf(d: Dim): (k: nat)
    requires d.lmin <= d.lmax
    ensures k <= d.lmax
  {
    if d.active then d.lmax - d.lmin else 0
  }

  /** The dimension is not hierarchized, or in a basis that keeps the mass. */
  predicate KeepsMass(d: Dim) {
    d.active ==> !d.basis.Hat?
  }

  /** Along its own dimension a transform keeps the mass of every pole. */
  lemma AxisMassIsKept(d: Dim, u: seq<real>)
    requires d.Valid(|u|) && KeepsMass(d)
    ensures AxisMass(d, StagesOf(d), AxisTransform(d, true, u)) == AxisMass(d, 0, u)
  {
    hide AxisTransform, PoleAt, MassOf;
    if d.active {
      forall li | 0 <= li < |u|
        ensures MassOf(d.lmax, StagesOf(d), PoleAt(d, AxisTransform(d, true, u), li))
                == MassOf(d.lmax, 0, PoleAt(d, u, li))
      {
        AxisTransformsPoles(d, true, u, li);
        MassIsConserved(d.lmax, KernelBasis(d.basis), d.lmax - d.lmin, PoleAt(d, u, li));
      }
    } else {
      InactiveStays(d, true, u);
    }
  }

  /** The sums along the first n dimensions, over all points or over those that stay coarse.  With n the number of
      dimensions they are the mass of the whole grid. */
  ghost function MassAlong(dims: seq<Dim>, coarse: bool, n: nat, u: seq<real>): (v: seq<real>)
    requires IsGrid(dims, |u|) && n <= |dims|
    ensures |v| == |u|
  {
    if n == 0 then u
    else AxisMass(dims[n - 1], if coarse then StagesOf(dims[n - 1]) else 0, MassAlong(dims, coarse, n - 1, u))
  }

  lemma {:induction false} MassMovesPast(dims: seq<Dim>, coarse: bool, n: nat, k: nat, forward: bool, u: seq<real>)
    requires IsGrid(dims, |u|) && n <= k < |dims|
    ensures MassAlong(dims, coarse, n, AxisTransform(dims[k], forward, u))
            == AxisTransform(dims[k], forward, MassAlong(dims, coarse, n, u))
  {
    hide AxisTransform, AxisMass;
    if n > 0 {
      MassMovesPast(dims, coarse, n - 1, k, forward, u);
      MassAndTransformCommute(dims[n - 1], if coarse then StagesOf(dims[n - 1])
                              else 0, dims[k], forward, MassAlong(dims, coarse, n - 1, u));
    }
  }

  /** Hierarchization of the first n dimensions keeps the sums along them. */
  lemma {:induction false} GridMassIsConserved(dims: seq<Dim>, n: nat, u: seq<real>)
    requires IsGrid(dims, |u|) && n <= |dims| && forall d :: d in dims ==> KeepsMass(d)
    ensures MassAlong(dims, true, n, Swept(dims, true, 0, n, u)) == MassAlong(dims, false, n, u)
  {
    hide AxisTransform, AxisMass;
    if n > 0 {
      var m, v := n - 1, Swept(dims, true, 0, n - 1, u);
      GridMassIsConserved(dims, m, u);
      LastSweep(dims, true, 0, n, u);
      MassMovesPast(dims, true, m, m, true, v);
      AxisMassIsKept(dims[m], MassAlong(dims, false, m, u));
    }
  }

  /** v has the same value all along every pole of the axis. */
  ghost predicate IsConstantAlong(a: Axis, v: seq<real>) {
    a.Divides(|v|) && forall li, i {:trigger a.Move(li, i)} :: 0 <= li < |v| && 0 <= i < a.count ==>
      0 <= a.Move(li, i) < |v| && v[a.Move(li, i)] == v[li]
  }

  lemma AxisMassIsConstant(d: Dim, k: nat, u: seq<real>)
    requires d.Valid(|u|) && k <= d.lmax
    ensures IsConstantAlong(d.axis, AxisMass(d, k, u))
  {
    forall li, i | 0 <= li < |u| && 0 <= i < d.axis.count
      ensures 0 <= d.axis.Move(li, i) < |u| && AxisMass(d, k, u)[d.axis.Move(li, i)] == AxisMass(d, k, u)[li]
    {
      SamePole(d, u, li, i);
    }
  }

  lemma MassStaysConstant(a: Dim, b: Dim, k: nat, v: seq<real>)
    requires a.Valid(|v|) && b.Valid(|v|) && Independent(a.axis, b.axis) && IsConstantAlong(a.axis, v) && k <= b.lmax
    ensures IsConstantAlong(a.axis, AxisMass(b, k, v))
  {
    forall li, i | 0 <= li < |v| && 0 <= i < a.axis.count
      ensures 0 <= a.axis.Move(li, i) < |v| && AxisMass(b, k, v)[a.axis.Move(li, i)] == AxisMass(b, k, v)[li]
    {
      SamePoleBeside(a, b, v, li, i);
    }
  }

  lemma SamePoleBeside(a: Dim, b: Dim, v: seq<real>, li: int, i: int)
    requires a.Valid(|v|) && b.Valid(|v|) && Independent(a.axis, b.axis) && IsConstantAlong(a.axis, v) && 0 <= li < |v|
             && 0 <= i < a.axis.count
    ensures 0 <= a.axis.Move(li, i) < |v| && PoleAt(b, v, a.axis.Move(li, i)) == PoleAt(b, v, li)
  {
    a.axis.MoveIsExact(li, i, |v|);
    var c := a.axis.Move(li, i);
    forall x | 0 <= x <= Pow2(b.lmax)
      ensures PoleAt(b, v, c)[x] == PoleAt(b, v, li)[x]
    {
      if b.IsStored(x) {
        b.axis.MoveIsExact(li, b.Wrap(x), |v|);
        MovesCommute(a.axis, b.axis, li, i, b.Wrap(x));
      }
    }
  }

  /** The sums along the first n dimensions do not depend on the coordinates in these dimensions. */
  lemma {:induction false} MassIsTheSameEverywhere(dims: seq<Dim>, coarse: bool, n: nat, k: nat, u: seq<real>)
    requires IsGrid(dims, |u|) && k < n <= |dims|
    ensures IsConstantAlong(dims[k].axis, MassAlong(dims, coarse, n, u))
  {
    hide AxisMass, IsConstantAlong;
    var m, stage := n - 1, if coarse then StagesOf(dims[n - 1]) else 0;
    if k == m {
      AxisMassIsConstant(dims[m], stage, MassAlong(dims, coarse, m, u));
    } else {
      MassIsTheSameEverywhere(dims, coarse, m, k, u);
      MassStaysConstant(dims[k], dims[m], stage, MassAlong(dims, coarse, m, u));
    }
  }
}
