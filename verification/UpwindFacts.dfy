/** The upwind stencil keeps the total mass, and with a time step of at least zero that meets the step size condition it
    keeps the values between their bounds. */
module UpwindFacts {
  import opened FiniteSums
  import opened Tensor
  import opened GridAxes
  import opened DistributedGrid
  import opened LocalUpwind
  import opened UpwindGrid
  import opened Advection

  /** The neighbour above along dimension d, around the periodic boundary. */
  ghost function Next(global: Index, d: nat, g: int): int
    requires Positive(global) && d < |global|
  {
    StridePositive(global, d);
    var a := BoxAxis(global, d);
    a.Move(g, if a.Coordinate(g) == global[d] - 1 then 0 else a.Coordinate(g) + 1)
  }

  lemma NextAndPrevious(global: Index, d: nat, g: int)
    requires Positive(global) && d < |global| && 0 <= g < Stride(global, |global|)
    ensures 0 <= Next(global, d, g) < Stride(global, |global|) && Previous(global, d, Next(global, d, g)) == g
    ensures 0 <= Previous(global, d, g) < Stride(global, |global|) && Next(global, d, Previous(global, d, g)) == g
  {
    StridePositive(global, d);
    var higher := BoxAxisDivides(global, d);
    NextAndPreviousOn(BoxAxis(global, d), g, Stride(global, |global|));
    PreviousInGrid(global, d, g);
  }

  lemma NextAndPreviousOn(a: Axis, g: int, size: int)
    requires a.Divides(size) && 0 <= g < size
    ensures var up := a.Move(g, if a.Coordinate(g) == a.count - 1 then 0 else a.Coordinate(g) + 1);
            0 <= up < size && a.Move(up, if a.Coordinate(up) == 0 then a.count - 1 else a.Coordinate(up) - 1) == g
    ensures var down := a.Move(g, if a.Coordinate(g) == 0 then a.count - 1 else a.Coordinate(g) - 1);
            0 <= down < size && a.Move(down, if a.Coordinate(down) == a.count - 1 then 0 else a.Coordinate(down) + 1)
              == g
  {
    var c := a.Coordinate(g);
    a.MoveIsExact(g, 0, size);
    a.MoveIsExact(g, if c == a.count - 1 then 0 else c + 1, size);
    a.MoveIsExact(g, if c == 0 then a.count - 1 else c - 1, size);
  }

  /** All cells of the grid. */
  ghost function Cells(n: nat): (cells: set<int>)
    ensures forall g :: g in cells <==> 0 <= g < n
  {
    if n == 0 then {} else Cells(n - 1) + {n - 1}
  }

  ghost function ValueAt(u: seq<real>, g: int): real {
    if 0 <= g < |u| then u[g] else 0.0
  }

  ghost function Values(u: seq<real>): int -> real {
    g => ValueAt(u, g)
  }

  ghost function Mass(u: seq<real>): real {
    Sum(Cells(|u|), Values(u))
  }

  /** What flows out of a cell with value x in one step. */
  ghost function Flux(x: real, oneOverH: real, dt: real): real {
    x * oneOverH * dt
  }

  lemma EulerInFluxes(x: real, y: real, slope: real, oneOverH: real, dt: real)
    ensures Euler(x, slope + Quotient(x, y, oneOverH), dt)
            == Euler(x, slope, dt) + Flux(y, oneOverH, dt) - Flux(x, oneOverH, dt)
  {
    assert (slope + (x - y) * oneOverH) * dt == slope * dt + x * oneOverH * dt - y * oneOverH * dt;
  }

  /** The step with the differences of the first d dimensions only. */
  ghost function PartialUpwind(global: Index, u: seq<real>, oneOverH: seq<real>, dt: real, d: nat): (v: seq<real>)
    requires Positive(global) && |u| == Stride(global, |global|) && d <= |global| == |oneOverH|
    ensures |v| == |u|
  {
    seq(|u|, g requires 0 <= g < |u| => Euler(u[g], StencilSum(global, u, oneOverH, d, g), dt))
  }

  ghost function Fluxes(u: seq<real>, oneOverH: real, dt: real): int -> real {
    g => Flux(ValueAt(u, g), oneOverH, dt)
  }

  ghost function FluxesFrom(global: Index, d: nat, u: seq<real>, oneOverH: real, dt: real): int -> real
    requires Positive(global) && d < |global|
  {
    g => Flux(ValueAt(u, Previous(global, d, g)), oneOverH, dt)
  }

  /** Whatever flows out of one cell flows into the next. */
  lemma InflowIsOutflow(global: Index, d: nat, u: seq<real>, oneOverH: real, dt: real)
    requires Positive(global) && d < |global| && |u| == Stride(global, |global|)
    ensures Sum(Cells(|u|), FluxesFrom(global, d, u, oneOverH, dt)) == Sum(Cells(|u|), Fluxes(u, oneOverH, dt))
  {
    var down := g => Previous(global, d, g);
    forall g | g in Cells(|u|)
      ensures down(g) in Cells(|u|) && Next(global, d, down(g)) == g
      ensures Next(global, d, g) in Cells(|u|) && down(Next(global, d, g)) == g
    {
      NextAndPrevious(global, d, g);
    }
    forall y | y in Cells(|u|)
      ensures exists x :: x in Cells(|u|) && down(x) == y
    {
      assert down(Next(global, d, y)) == y;
    }
    SumOfImage(Cells(|u|), Cells(|u|), down, Fluxes(u, oneOverH, dt), FluxesFrom(global, d, u, oneOverH, dt));
  }

  lemma {:induction false} PartialMass(global: Index, u: seq<real>, oneOverH: seq<real>, dt: real, d: nat)
    requires Positive(global) && |u| == Stride(global, |global|) && d <= |global| == |oneOverH|
    ensures Mass(PartialUpwind(global, u, oneOverH, dt, d)) == Mass(u)
  {
    if d == 0 {
      SumEqual(Cells(|u|), Values(PartialUpwind(global, u, oneOverH, dt, 0)), Values(u));
    } else {
      PartialMass(global, u, oneOverH, dt, d - 1);
      OneDimension(global, u, oneOverH, dt, d - 1);
    }
  }

  lemma CellBalance(global: Index, u: seq<real>, oneOverH: seq<real>, dt: real, d: nat, g: int)
    requires Positive(global) && |u| == Stride(global, |global|) && d < |global| == |oneOverH| && 0 <= g < |u|
    ensures ValueAt(PartialUpwind(global, u, oneOverH, dt, d + 1), g) + Fluxes(u, oneOverH[d], dt)(g)
            == ValueAt(PartialUpwind(global, u, oneOverH, dt, d), g) + FluxesFrom(global, d, u, oneOverH[d], dt)(g)
  {
    PreviousInGrid(global, d, g);
    EulerInFluxes(u[g], u[Previous(global, d, g)], StencilSum(global, u, oneOverH, d, g), oneOverH[d], dt);
  }

  ghost function Plus(u: seq<real>, f: int -> real): int -> real {
    g => ValueAt(u, g) + f(g)
  }

  lemma OneDimension(global: Index, u: seq<real>, oneOverH: seq<real>, dt: real, d: nat)
    requires Positive(global) && |u| == Stride(global, |global|) && d < |global| == |oneOverH|
    ensures Mass(PartialUpwind(global, u, oneOverH, dt, d + 1)) == Mass(PartialUpwind(global, u, oneOverH, dt, d))
  {
    var cells, before, after := Cells(|u|), PartialUpwind(global, u, oneOverH, dt, d),
      PartialUpwind(global, u, oneOverH, dt, d + 1);
    var into, out := FluxesFrom(global, d, u, oneOverH[d], dt), Fluxes(u, oneOverH[d], dt);
    forall g | g in cells
      ensures Plus(before, into)(g) == Plus(after, out)(g)
    {
      CellBalance(global, u, oneOverH, dt, d, g);
    }
    SumPlus(cells, Values(before), into, Plus(before, into));
    SumPlus(cells, Values(after), out, Plus(after, out));
    SumEqual(cells, Plus(before, into), Plus(after, out));
    InflowIsOutflow(global, d, u, oneOverH[d], dt);
  }

  /** A step keeps the total mass. */
  lemma MassIsConstant(global: Index, u: seq<real>, oneOverH: seq<real>, dt: real)
    requires Positive(global) && |u| == Stride(global, |global|) && |global| == |oneOverH|
    ensures Mass(Upwind(global, u, oneOverH, dt)) == Mass(u)
  {
    PartialMass(global, u, oneOverH, dt, |global|);
    assert Upwind(global, u, oneOverH, dt) == PartialUpwind(global, u, oneOverH, dt, |global|);
  }

  /** Any number of steps keeps the total mass. */
  lemma {:induction false} MassOfSteps(global: Index, u: seq<real>, oneOverH: seq<real>, dt: real, n: nat)
    requires Positive(global) && |u| == Stride(global, |global|) && |global| == |oneOverH|
    ensures Mass(UpwindSteps(global, u, oneOverH, dt, n)) == Mass(u)
  {
    if n > 0 {
      MassOfSteps(global, u, oneOverH, dt, n - 1);
      MassIsConstant(global, UpwindSteps(global, u, oneOverH, dt, n - 1), oneOverH, dt);
    }
  }

  ghost function SumOf(x: seq<real>, n: nat): real
    requires n <= |x|
  {
    if n == 0 then 0.0 else SumOf(x, n - 1) + x[n - 1]
  }

  /** The part of a cell that flows out in one step. */
  function Courant(dt: real, sumOneOverH: real): real {
    dt * sumOneOverH
  }

  /** The check at initialisation. */
  method CheckStepSize(oneOverH: seq<real>, dt: real) returns (ok: bool)
    ensures ok <==> Courant(dt, SumOf(oneOverH, |oneOverH|)) < 1.0
  {
    var sumOneOverH := 0.0;
    for d := 0 to |oneOverH|
      invariant sumOneOverH == SumOf(oneOverH, d)
    {
      sumOneOverH := sumOneOverH + oneOverH[d];
    }
    ok := Courant(dt, sumOneOverH) < 1.0;
  }

  ghost predicate IsBetween(u: seq<real>, low: real, high: real) {
    forall g :: 0 <= g < |u| ==> low <= u[g] <= high
  }

  ghost predicate NonNegative(x: seq<real>) {
    forall d :: 0 <= d < |x| ==> x[d] >= 0.0
  }

  lemma QuotientMonotone(x: real, y: real, z: real, oneOverH: real)
    requires oneOverH >= 0.0 && y <= z
    ensures Quotient(x, z, oneOverH) <= Quotient(x, y, oneOverH)
  {
  }

  lemma QuotientPlus(x: real, y: real, a: real, b: real)
    ensures Quotient(x, y, a) + Quotient(x, y, b) == Quotient(x, y, a + b)
  {
  }

  /** Neighbours within the bounds limit the slope. */
  lemma {:induction false} SlopeBounds(global: Index, u: seq<real>, oneOverH: seq<real>, low: real, high: real, d: nat,
                                       g: int)
    requires Positive(global) && |u| == Stride(global, |global|) && d <= |global| == |oneOverH| && 0 <= g < |u|
    requires IsBetween(u, low, high) && NonNegative(oneOverH)
    ensures Quotient(u[g], high, SumOf(oneOverH, d)) <= StencilSum(global, u, oneOverH, d, g)
            <= Quotient(u[g], low, SumOf(oneOverH, d))
  {
    if d > 0 {
      SlopeBounds(global, u, oneOverH, low, high, d - 1, g);
      PreviousInGrid(global, d - 1, g);
      var y := u[Previous(global, d - 1, g)];
      QuotientMonotone(u[g], low, y, oneOverH[d - 1]);
      QuotientMonotone(u[g], y, high, oneOverH[d - 1]);
      QuotientPlus(u[g], low, SumOf(oneOverH, d - 1), oneOverH[d - 1]);
      QuotientPlus(u[g], high, SumOf(oneOverH, d - 1), oneOverH[d - 1]);
    }
  }

  /** A step from x with a limited slope stays within the bounds. */
  lemma StepStaysBelow(x: real, slope: real, high: real, total: real, dt: real)
    requires x <= high && dt >= 0.0 && Courant(dt, total) <= 1.0 && Quotient(x, high, total) <= slope
    ensures Euler(x, slope, dt) <= high
  {
    assert Quotient(x, high, total) * dt <= slope * dt;
    assert Quotient(x, high, total) * dt == (x - high) * (dt * total);
    assert (high - x) * (dt * total) <= (high - x) * 1.0;
  }

  lemma StepStaysAbove(x: real, slope: real, low: real, total: real, dt: real)
    requires low <= x && dt >= 0.0 && Courant(dt, total) <= 1.0 && slope <= Quotient(x, low, total)
    ensures low <= Euler(x, slope, dt)
  {
    assert slope * dt <= Quotient(x, low, total) * dt;
    assert Quotient(x, low, total) * dt == (x - low) * (dt * total);
    assert (x - low) * (dt * total) <= (x - low) * 1.0;
  }

  /** With a time step of at least zero that meets the step size condition, no step leaves the bounds. */
  lemma BoundsAreKept(global: Index, u: seq<real>, oneOverH: seq<real>, dt: real, low: real, high: real)
    requires Positive(global) && |u| == Stride(global, |global|) && |global| == |oneOverH|
    requires IsBetween(u, low, high) && NonNegative(oneOverH) && dt >= 0.0
             && Courant(dt, SumOf(oneOverH, |oneOverH|)) <= 1.0
    ensures IsBetween(Upwind(global, u, oneOverH, dt), low, high)
  {
    forall g | 0 <= g < |u|
      ensures low <= Upwind(global, u, oneOverH, dt)[g] <= high
    {
      SlopeBounds(global, u, oneOverH, low, high, |global|, g);
      var slope := StencilSum(global, u, oneOverH, |global|, g);
      StepStaysBelow(u[g], slope, high, SumOf(oneOverH, |oneOverH|), dt);
      StepStaysAbove(u[g], slope, low, SumOf(oneOverH, |oneOverH|), dt);
    }
  }

  lemma {:induction false} BoundsOfSteps(global: Index, u: seq<real>, oneOverH: seq<real>, dt: real, low: real,
                                         high: real, n: nat)
    requires Positive(global) && |u| == Stride(global, |global|) && |global| == |oneOverH|
    requires IsBetween(u, low, high) && NonNegative(oneOverH) && dt >= 0.0
             && Courant(dt, SumOf(oneOverH, |oneOverH|)) <= 1.0
    ensures IsBetween(UpwindSteps(global, u, oneOverH, dt, n), low, high)
  {
    if n > 0 {
      BoundsOfSteps(global, u, oneOverH, dt, low, high, n - 1);
      BoundsAreKept(global, UpwindSteps(global, u, oneOverH, dt, n - 1), oneOverH, dt, low, high);
    }
  }

  /** The neighbour below has the next smaller coordinate, or the largest one around the boundary. */
  lemma PreviousIsBelow(global: Index, d: nat, g: int)
    requires Positive(global) && d < |global| && 0 <= g < Stride(global, |global|)
    ensures var v := Vector(global, g, |global|);
            Previous(global, d, g) == Linear(global, v[d := if v[d] == 0 then global[d] - 1 else v[d] - 1], |global|)
  {
    IndexBijection(global, [], g);
    var v := Vector(global, g, |global|);
    MoveChangesDigit(global, g, d, if v[d] == 0 then global[d] - 1 else v[d] - 1);
  }

  /** A linear function with the given slopes is carried along exactly: where it grows by slope times the spacing from
      every neighbour below, a step lowers it by dt times the sum of the slopes, which is its value at the point dt
      before in every dimension. */
  lemma LinearIsCarriedAlong(global: Index, u: seq<real>, oneOverH: seq<real>, dt: real, slopes: seq<real>, g: int)
    requires Positive(global) && |u| == Stride(global, |global|) && |global| == |oneOverH| == |slopes| && 0 <= g < |u|
    requires forall d :: 0 <= d < |global| ==>
               0 <= Previous(global, d, g) < |u| && (u[g] - u[Previous(global, d, g)]) * oneOverH[d] == slopes[d]
    ensures Upwind(global, u, oneOverH, dt)[g] == u[g] - dt * SumOf(slopes, |slopes|)
  {
    SlopesAddUp(global, u, oneOverH, slopes, |global|, g);
  }

  lemma {:induction false} SlopesAddUp(global: Index, u: seq<real>, oneOverH: seq<real>, slopes: seq<real>, k: nat,
                                       g: int)
    requires Positive(global) && |u| == Stride(global, |global|) && |global| == |oneOverH| == |slopes| && 0 <= g < |u|
    requires k <= |global| && forall d :: 0 <= d < |global| ==>
               0 <= Previous(global, d, g) < |u| && (u[g] - u[Previous(global, d, g)]) * oneOverH[d] == slopes[d]
    ensures StencilSum(global, u, oneOverH, k, g) == SumOf(slopes, k)
  {
    if k > 0 {
      SlopesAddUp(global, u, oneOverH, slopes, k - 1, g);
    }
  }

  /** With a step of exactly one cell along one dimension, and none along the others, every value moves on by one
      cell. */
  lemma WholeCellStep(global: Index, u: seq<real>, oneOverH: seq<real>, dt: real, e: nat, g: int)
    requires Positive(global) && |u| == Stride(global, |global|) && e < |global| == |oneOverH| && 0 <= g < |u|
    requires forall d :: 0 <= d < |global| && d != e ==> oneOverH[d] == 0.0
    requires dt * oneOverH[e] == 1.0
    ensures 0 <= Previous(global, e, g) < |u| && Upwind(global, u, oneOverH, dt)[g] == u[Previous(global, e, g)]
  {
    hide *;
    OnlyOneSlope(global, u, oneOverH, e, |global|, g);
    StepOfCell(global, u, oneOverH, dt, g);
    WholeSlope(u[g], u[Previous(global, e, g)], oneOverH[e], dt, StencilSum(global, u, oneOverH, |global|, g));
  }

  lemma StepOfCell(global: Index, u: seq<real>, oneOverH: seq<real>, dt: real, g: int)
    requires Positive(global) && |u| == Stride(global, |global|) && |global| == |oneOverH| && 0 <= g < |u|
    ensures Upwind(global, u, oneOverH, dt)[g] == Euler(u[g], StencilSum(global, u, oneOverH, |global|, g), dt)
  {
    hide Euler, StencilSum;
  }

  lemma WholeSlope(x: real, y: real, oneOverH: real, dt: real, slope: real)
    requires dt * oneOverH == 1.0 && slope == (x - y) * oneOverH
    ensures Euler(x, slope, dt) == y
  {
    assert (x - y) * oneOverH * dt == (x - y) * (dt * oneOverH);
  }

  lemma {:induction false} OnlyOneSlope(global: Index, u: seq<real>, oneOverH: seq<real>, e: nat, k: nat, g: int)
    requires Positive(global) && |u| == Stride(global, |global|) && e < |global| == |oneOverH| && 0 <= g < |u|
    requires k <= |global| && forall d :: 0 <= d < |global| && d != e ==> oneOverH[d] == 0.0
    ensures 0 <= Previous(global, e, g) < |u|
    ensures StencilSum(global, u, oneOverH, k, g)
            == if e < k then (u[g] - u[Previous(global, e, g)]) * oneOverH[e] else 0.0
  {
    hide Previous, Stride;
    PreviousInGrid(global, e, g);
    if k > 0 {
      OnlyOneSlope(global, u, oneOverH, e, k - 1, g);
    }
  }
}
