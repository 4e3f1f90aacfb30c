/** Which step sizes keep the values of the upwind scheme between their bounds.  The check at initialisation has no
    lower limit, so it also accepts negative step sizes, which do not. */
module StepSize {
  import opened Tensor
  import opened GridAxes
  import opened DistributedGrid
  import opened UpwindGrid
  import opened UpwindFacts

  /** Every grid function that lies between two bounds still does so after a step. */
  ghost predicate KeepsBounds(global: Index, oneOverH: seq<real>, dt: real)
    requires Positive(global) && |global| == |oneOverH|
  {
    forall u, low, high {:trigger IsBetween(u, low, high)} ::
      |u| == Stride(global, |global|) && IsBetween(u, low, high) ==>
        IsBetween(Upwind(global, u, oneOverH, dt), low, high)
  }

  /** Along a dimension with several points the neighbour below is another cell. */
  lemma PreviousIsOther(global: Index, d: nat, g: int)
    requires Positive(global) && d < |global| && global[d] > 1 && 0 <= g < Stride(global, |global|)
    ensures Previous(global, d, g) != g
  {
    StridePositive(global, d);
    var higher := BoxAxisDivides(global, d);
    PreviousOnAxis(BoxAxis(global, d), g, Stride(global, |global|));
  }

  lemma PreviousOnAxis(a: Axis, g: int, size: int)
    requires a.Divides(size) && 0 <= g < size && a.count > 1
    ensures a.Move(g, if a.Coordinate(g) == 0 then a.count - 1 else a.Coordinate(g) - 1) != g
  {
    var c := a.Coordinate(g);
    a.MoveIsExact(g, 0, size);
    a.MoveIsExact(g, if c == 0 then a.count - 1 else c - 1, size);
  }

  /** One in the first cell, zero everywhere else. */
  function Spike(size: nat): (u: seq<real>)
    ensures |u| == size && IsBetween(u, 0.0, 1.0)
  {
    seq(size, g => if g == 0 then 1.0 else 0.0)
  }

  ghost predicate HasNeighboursEverywhere(global: Index) {
    Positive(global) && global != [] && forall d :: 0 <= d < |global| ==> global[d] > 1
  }

  ghost predicate AllPositive(x: seq<real>) {
    forall d :: 0 <= d < |x| ==> x[d] > 0.0
  }

  lemma {:induction false} SlopeOfSpike(global: Index, oneOverH: seq<real>, d: nat)
    requires HasNeighboursEverywhere(global) && d <= |global| == |oneOverH| && Stride(global, |global|) > 0
    ensures StencilSum(global, Spike(Stride(global, |global|)), oneOverH, d, 0) == SumOf(oneOverH, d)
  {
    if d > 0 {
      SlopeOfSpike(global, oneOverH, d - 1);
      PreviousInGrid(global, d - 1, 0);
      PreviousIsOther(global, d - 1, 0);
    }
  }

  lemma {:induction false} SumIsPositive(x: seq<real>, n: nat)
    requires AllPositive(x) && n <= |x|
    ensures SumOf(x, n) >= 0.0 && (n > 0 ==> SumOf(x, n) > 0.0)
  {
    if n > 0 {
      SumIsPositive(x, n - 1);
    }
  }

  /** The number of cells, which is positive. */
  ghost function CellCount(global: Index): (size: nat)
    requires Positive(global)
    ensures size == Stride(global, |global|) > 0
  {
    StridePositive(global, |global|);
    Stride(global, |global|)
  }

  /** In one step the first cell of a spike goes down by the part that flows out. */
  lemma SpikeAfterStep(global: Index, oneOverH: seq<real>, dt: real)
    requires HasNeighboursEverywhere(global) && |global| == |oneOverH|
    ensures Stride(global, |global|) > 0
    ensures Upwind(global, Spike(Stride(global, |global|)), oneOverH, dt)[0]
            == 1.0 - Courant(dt, SumOf(oneOverH, |oneOverH|))
  {
    StridePositive(global, |global|);
    SlopeOfSpike(global, oneOverH, |global|);
  }

  lemma NegativeFlux(dt: real, total: real)
    requires total > 0.0 && dt < 0.0
    ensures Courant(dt, total) < 0.0
  {
    assert (-dt) * total > 0.0;
  }

  lemma SpikeLimitsStep(global: Index, oneOverH: seq<real>, dt: real)
    requires HasNeighboursEverywhere(global) && |global| == |oneOverH| && AllPositive(oneOverH)
    requires IsBetween(Upwind(global, Spike(CellCount(global)), oneOverH, dt), 0.0, 1.0)
    ensures dt >= 0.0 && Courant(dt, SumOf(oneOverH, |oneOverH|)) <= 1.0
  {
    SumIsPositive(oneOverH, |oneOverH|);
    SpikeAfterStep(global, oneOverH, dt);
    if dt < 0.0 {
      NegativeFlux(dt, SumOf(oneOverH, |oneOverH|));
    }
  }

  lemma SmallStepKeepsBounds(global: Index, oneOverH: seq<real>, dt: real)
    requires Positive(global) && |global| == |oneOverH| && NonNegative(oneOverH)
    requires dt >= 0.0 && Courant(dt, SumOf(oneOverH, |oneOverH|)) <= 1.0
    ensures KeepsBounds(global, oneOverH, dt)
  {
    forall u, low, high {:trigger IsBetween(u, low, high)} | |u| == Stride(global, |global|) && IsBetween(u, low, high)
      ensures IsBetween(Upwind(global, u, oneOverH, dt), low, high)
    {
      BoundsAreKept(global, u, oneOverH, dt, low, high);
    }
  }

  /** A step keeps all bounds if and only if the step size is not negative and no more flows out of a cell than it
      holds. */
  lemma BoundsAreKeptExactly(global: Index, oneOverH: seq<real>, dt: real)
    requires HasNeighboursEverywhere(global) && |global| == |oneOverH| && AllPositive(oneOverH)
    ensures KeepsBounds(global, oneOverH, dt) <==> dt >= 0.0 && Courant(dt, SumOf(oneOverH, |oneOverH|)) <= 1.0
  {
    if KeepsBounds(global, oneOverH, dt) {
      assert IsBetween(Spike(CellCount(global)), 0.0, 1.0);
      SpikeLimitsStep(global, oneOverH, dt);
    }
    if dt >= 0.0 && Courant(dt, SumOf(oneOverH, |oneOverH|)) <= 1.0 {
      SmallStepKeepsBounds(global, oneOverH, dt);
    }
  }

  /** Two cells, a step of -1 with 1/h = 2: the check accepts it, and a spike of 1 grows to 3. */
  lemma NegativeStepLeavesBounds()
    ensures Courant(-1.0, SumOf([2.0], 1)) < 1.0
    ensures Positive([2]) && Stride([2], 1) == 2 && IsBetween([1.0, 0.0], 0.0, 1.0)
    ensures Upwind([2], [1.0, 0.0], [2.0], -1.0)[0] == 3.0
  {
    assert Stride([2], 1) == Stride([2], 0) * 2;
    assert Spike(2) == [1.0, 0.0];
    assert SumOf([2.0], 1) == SumOf([2.0], 0) + 2.0;
    SpikeAfterStep([2], [2.0], -1.0);
  }
}
