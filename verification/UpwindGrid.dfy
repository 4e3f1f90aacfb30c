/** The advection step on a distributed periodic grid: every rank updates its part with its flat arrays and
    the ghost layers, and together the ranks compute the upwind stencil of the whole grid. */
module UpwindGrid {
  import opened Tensor
  import opened GridAxes
  import opened DistributedGrid
  import opened GridExchange
  import opened LocalUpwind

  /** The neighbour below along dimension d, around the periodic boundary. */
  ghost function Previous(global: Index, d: nat, g: int): int
    requires Positive(global) && d < |global|
  {
    StridePositive(global, d);
    var a := BoxAxis(global, d);
    a.Move(g, if a.Coordinate(g) == 0 then global[d] - 1 else a.Coordinate(g) - 1)
  }

  lemma PreviousInGrid(global: Index, d: nat, g: int)
    requires Positive(global) && d < |global| && 0 <= g < Stride(global, |global|)
    ensures 0 <= Previous(global, d, g) < Stride(global, |global|)
  {
    StridePositive(global, d);
    var higher := BoxAxisDivides(global, d);
    var a := BoxAxis(global, d);
    a.MoveIsExact(g, 0, Stride(global, |global|));
    a.MoveIsExact(g, if a.Coordinate(g) == 0 then global[d] - 1 else a.Coordinate(g) - 1, Stride(global, |global|));
  }

  /** Sum of the upwind differences of cell g in the first d dimensions. */
  ghost function StencilSum(global: Index, u: seq<real>, oneOverH: seq<real>, d: nat, g: int): real
    requires Positive(global) && |u| == Stride(global, |global|) && d <= |global| == |oneOverH| && 0 <= g < |u|
  {
    if d == 0 then 0.0
    else
      PreviousInGrid(global, d - 1, g);
      StencilSum(global, u, oneOverH, d - 1, g) + Quotient(u[g], u[Previous(global, d - 1, g)], oneOverH[d - 1])
  }

  /** Explicit Euler step. */
  function Euler(x: real, slope: real, dt: real): real {
    x - slope * dt
  }

  /** The upwind step on the whole grid. */
  ghost function Upwind(global: Index, u: seq<real>, oneOverH: seq<real>, dt: real): (v: seq<real>)
    requires Positive(global) && |u| == Stride(global, |global|) && |global| == |oneOverH|
    ensures |v| == |u|
  {
    seq(|u|, g requires 0 <= g < |u| => Euler(u[g], StencilSum(global, u, oneOverH, |global|, g), dt))
  }

  /** The layer below the part of a rank, one value for every pole. */
  ghost predicate IsGhostLayer(global: Index, extents: Index, lower: Index, d: nat, layer: seq<real>, u: seq<real>)
    requires IsInside(global, extents, lower) && d < |global|
  {
    && |u| == Stride(global, |global|)
    && |layer| == HigherPoles(extents, d) * Stride(extents, d)
    && forall n {:trigger layer[n]} :: 0 <= n < |layer| ==>
         var g := Previous(global, d, GlobalStart(global, extents, lower, d, n));
         0 <= g < |u| && layer[n] == u[g]
  }

  lemma LocalFits(extents: Index, d: nat)
    requires Positive(extents) && d < |extents|
    ensures FitsAxis(BoxAxis(extents, d), HigherPoles(extents, d), Stride(extents, |extents|))
  {
    StridePositive(extents, d);
  }

  /** The coordinate of a global cell is the shifted local one. */
  lemma CoordinateOfGlobal(global: Index, extents: Index, lower: Index, d: nat, li: int)
    requires IsInside(global, extents, lower) && d < |global| && 0 <= li < Stride(extents, |global|)
    ensures BoxAxis(extents, d).Valid() && BoxAxis(global, d).Valid()
    ensures 0 <= GlobalOf(global, extents, lower, li) < Stride(global, |global|)
    ensures BoxAxis(global, d).Coordinate(GlobalOf(global, extents, lower, li))
            == lower[d] + BoxAxis(extents, d).Coordinate(li)
    ensures 0 <= BoxAxis(extents, d).Coordinate(li) < extents[d]
  {
    StridePositive(extents, d);
    StridePositive(global, d);
    var higher := BoxAxisDivides(extents, d);
    var a, b := BoxAxis(extents, d), BoxAxis(global, d);
    a.MoveIsExact(li, 0, Stride(extents, |global|));
    var c := a.Coordinate(li);
    GlobalOfMove(global, extents, lower, li, d, c);
    var g := GlobalOf(global, extents, lower, li);
    MoveToItself(b, g, lower[d] + c);
  }

  lemma MoveToItself(a: Axis, g: int, i: int)
    requires a.Valid() && a.Move(g, i) == g
    ensures a.Coordinate(g) == i
  {
    if i != a.Coordinate(g) {
      NonZeroProduct(i - a.Coordinate(g), a.stride);
    }
  }

  lemma NonZeroProduct(x: int, s: int)
    requires x != 0 && s > 0
    ensures x * s != 0
  {
  }

  lemma MoveDown(a: Axis, li: int)
    requires a.Valid()
    ensures a.Move(li, a.Coordinate(li) - 1) == li - a.stride
  {
  }

  lemma FlatIsMove(a: Axis, size: int, li: int)
    requires a.Divides(size) && 0 <= li < size && a.Coordinate(li) > 0
    ensures FlatNeighbour(a, size, li) == a.Move(li, a.Coordinate(li) - 1) && 0 <= FlatNeighbour(a, size, li) < size
  {
    a.MoveIsExact(li, 0, size);
    a.MoveIsExact(li, a.Coordinate(li) - 1, size);
    MoveDown(a, li);
  }

  lemma PreviousOfInner(global: Index, d: nat, g: int)
    requires Positive(global) && d < |global| && BoxAxis(global, d).Valid() && BoxAxis(global, d).Coordinate(g) > 0
    ensures Previous(global, d, g) == BoxAxis(global, d).Move(g, BoxAxis(global, d).Coordinate(g) - 1)
  {
  }

  /** Away from the lowest layer the flat neighbour is the neighbour. */
  lemma InnerNeighbour(global: Index, extents: Index, lower: Index, d: nat, li: int)
    requires IsInside(global, extents, lower) && d < |global| && 0 <= li < Stride(extents, |global|)
    requires BoxAxis(extents, d).Valid() && BoxAxis(extents, d).Coordinate(li) > 0
    ensures var w := FlatNeighbour(BoxAxis(extents, d), Stride(extents, |global|), li);
            0 <= w < Stride(extents, |global|)
            && GlobalOf(global, extents, lower, w) == Previous(global, d, GlobalOf(global, extents, lower, li))
  {
    var higher := BoxAxisDivides(extents, d);
    CoordinateOfGlobal(global, extents, lower, d, li);
    FlatIsMove(BoxAxis(extents, d), Stride(extents, |global|), li);
    GlobalOfMove(global, extents, lower, li, d, BoxAxis(extents, d).Coordinate(li) - 1);
    PreviousOfInner(global, d, GlobalOf(global, extents, lower, li));
  }

  /** With the ghost layer, the local difference is that of the whole grid. */
  lemma GradientIsUpwind(global: Index, extents: Index, lower: Index, d: nat, e: seq<real>, layer: seq<real>,
                         u: seq<real>, oneOverH: real, li: int)
    requires IsInside(global, extents, lower) && d < |global| && Holds(global, extents, lower, e, u)
    requires IsGhostLayer(global, extents, lower, d, layer, u) && 0 <= li < |e|
    ensures FitsAxis(BoxAxis(extents, d), HigherPoles(extents, d), |e|)
    ensures var g := GlobalOf(global, extents, lower, li);
            0 <= g < |u| && 0 <= Previous(global, d, g) < |u|
            && Gradient(BoxAxis(extents, d), HigherPoles(extents, d), e, layer, oneOverH, |layer|, li)
               == Quotient(u[g], u[Previous(global, d, g)], oneOverH)
  {
    LocalFits(extents, d);
    var a, higher := BoxAxis(extents, d), HigherPoles(extents, d);
    var g := GlobalOf(global, extents, lower, li);
    CellOfLowestLayer(a, higher, |e|, li);
    CoordinateOfGlobal(global, extents, lower, d, li);
    PreviousInGrid(global, d, g);
    assert e[li] == u[g];
    if a.Coordinate(li) == 0 {
      var n := PoleNumber(a, li);
      assert li == LocalStart(extents, d, n);
      assert layer[n] == u[Previous(global, d, GlobalStart(global, extents, lower, d, n))];
    } else {
      InnerNeighbour(global, extents, lower, d, li);
      var w := FlatNeighbour(a, |e|, li);
      assert e[w] == u[GlobalOf(global, extents, lower, w)];
    }
  }

  /** Local differences summed over the first d dimensions. */
  ghost function SumOfGradients(extents: Index, e: seq<real>, layers: seq<seq<real>>, oneOverH: seq<real>, d: nat,
                                li: int): real
    requires HaveLayers(extents, e, layers) && d <= |extents| == |oneOverH| && 0 <= li < |e|
  {
    if d == 0 then 0.0
    else
      LocalFits(extents, d - 1);
      SumOfGradients(extents, e, layers, oneOverH, d - 1, li)
      + Gradient(BoxAxis(extents, d - 1), HigherPoles(extents, d - 1), e, layers[d - 1], oneOverH[d - 1],
                 |layers[d - 1]|, li)
  }

  /** One value for every pole in every dimension. */
  ghost predicate HaveSizes(extents: Index, layers: seq<seq<real>>)
    requires Positive(extents)
  {
    && |layers| == |extents|
    && forall d {:trigger layers[d]} :: 0 <= d < |layers| ==>
      |layers[d]| == HigherPoles(extents, d) * Stride(extents, d)
  }

  ghost predicate HaveLayers(extents: Index, e: seq<real>, layers: seq<seq<real>>) {
    Positive(extents) && |e| == Stride(extents, |extents|) && HaveSizes(extents, layers)
  }

  ghost predicate AreGhostLayers(global: Index, extents: Index, lower: Index, layers: seq<seq<real>>, u: seq<real>)
    requires IsInside(global, extents, lower)
  {
    |layers| == |global| && forall d {:trigger layers[d]} :: 0 <= d < |layers| ==>
      IsGhostLayer(global, extents, lower, d, layers[d], u)
  }

  lemma HeldCell(global: Index, extents: Index, lower: Index, e: seq<real>, u: seq<real>, li: int)
    requires IsInside(global, extents, lower) && Holds(global, extents, lower, e, u) && 0 <= li < |e|
    ensures 0 <= GlobalOf(global, extents, lower, li) < |u| && e[li] == u[GlobalOf(global, extents, lower, li)]
  {
    CoordinateInRange(global, extents, lower, li);
    assert e[li] == u[GlobalOf(global, extents, lower, li)];
  }

  lemma CoordinateInRange(global: Index, extents: Index, lower: Index, li: int)
    requires IsInside(global, extents, lower) && 0 <= li < Stride(extents, |global|)
    ensures 0 <= GlobalOf(global, extents, lower, li) < Stride(global, |global|)
  {
    IndexBijection(extents, [], li);
    GlobalVector(global, extents, lower, Vector(extents, li, |global|));
  }

  lemma {:induction false} SumIsStencil(global: Index, extents: Index, lower: Index, e: seq<real>,
                                        layers: seq<seq<real>>, u: seq<real>, oneOverH: seq<real>, d: nat, li: int)
    requires IsInside(global, extents, lower) && Holds(global, extents, lower, e, u) && HaveLayers(extents, e, layers)
    requires AreGhostLayers(global, extents, lower, layers, u) && |oneOverH| == |global| && d <= |global|
             && 0 <= li < |e|
    ensures 0 <= GlobalOf(global, extents, lower, li) < |u|
    ensures SumOfGradients(extents, e, layers, oneOverH, d, li)
            == StencilSum(global, u, oneOverH, d, GlobalOf(global, extents, lower, li))
  {
    HeldCell(global, extents, lower, e, u, li);
    if d > 0 {
      SumIsStencil(global, extents, lower, e, layers, u, oneOverH, d - 1, li);
      assert IsGhostLayer(global, extents, lower, d - 1, layers[d - 1], u);
      GradientIsUpwind(global, extents, lower, d - 1, e, layers[d - 1], u, oneOverH[d - 1], li);
    }
  }

  /** The accumulated differences of the first d dimensions. */
  ghost predicate IsAccumulated(extents: Index, e: seq<real>, layers: seq<seq<real>>, oneOverH: seq<real>,
                                phi: seq<real>, d: nat)
    requires HaveLayers(extents, e, layers) && d <= |extents| == |oneOverH|
  {
    |phi| == |e| && forall li {:trigger phi[li]} :: 0 <= li < |phi| ==>
      phi[li] == SumOfGradients(extents, e, layers, oneOverH, d, li)
  }

  lemma NextDimension(extents: Index, e: seq<real>, layers: seq<seq<real>>, oneOverH: seq<real>, before: seq<real>,
                      phi: seq<real>, d: nat)
    requires HaveLayers(extents, e, layers) && d < |extents| == |oneOverH|
             && IsAccumulated(extents, e, layers, oneOverH, before, d)
    requires FitsAxis(BoxAxis(extents, d), HigherPoles(extents, d), |e|) && |phi| == |e|
    requires CorrectedTo(BoxAxis(extents, d), HigherPoles(extents, d), e, layers[d], oneOverH[d], before, phi,
                         |layers[d]|)
    ensures IsAccumulated(extents, e, layers, oneOverH, phi, d + 1)
  {
  }

  /** Adds the differences along dimension d. */
  method AddDimension(extents: Index, e: array<real>, phi: array<real>, layers: seq<seq<real>>, oneOverH: seq<real>,
                      d: nat)
    requires HaveLayers(extents, e[..], layers) && d < |extents| == |oneOverH| && phi != e
    requires IsAccumulated(extents, e[..], layers, oneOverH, phi[..], d)
    modifies phi
    ensures IsAccumulated(extents, e[..], layers, oneOverH, phi[..], d + 1)
  {
    ghost var before := phi[..];
    LocalFits(extents, d);
    StridePositive(extents, d);
    var stride := Stride(extents, d);
    var a := Axis(stride, extents[d]);
    HigherFromLength(stride, extents[d], HigherPoles(extents, d), e.Length);
    var numberOfPolesHigherDimensions := e.Length / (stride * extents[d]);
    AddFlatDifferences(a, numberOfPolesHigherDimensions, e, phi, layers[d], oneOverH[d]);
    AllAdded(a, numberOfPolesHigherDimensions, e[..], layers[d], oneOverH[d], before, phi[..]);
    CorrectLowestLayer(a, numberOfPolesHigherDimensions, e, phi, layers[d], oneOverH[d], before);
    NextDimension(extents, e[..], layers, oneOverH, before, phi[..], d);
  }

  lemma AllAdded(a: Axis, higher: int, e: seq<real>, layer: seq<real>, oneOverH: real, before: seq<real>,
                 now: seq<real>)
    requires FitsAxis(a, higher, |e|) && |layer| == higher * a.stride && |before| == |now| == |e|
    requires AddedTo(a, higher, e, layer, oneOverH, before, now, |e|)
    ensures CorrectedTo(a, higher, e, layer, oneOverH, before, now, 0)
  {
  }

  /** The values of a rank after one step. */
  ghost function RankStep(extents: Index, e: seq<real>, layers: seq<seq<real>>, oneOverH: seq<real>,
                          dt: real): (after: seq<real>)
    requires HaveLayers(extents, e, layers) && |extents| == |oneOverH|
    ensures |after| == |e|
  {
    seq(|e|, li requires 0 <= li < |e| => Euler(e[li], SumOfGradients(extents, e, layers, oneOverH, |extents|, li), dt))
  }

  /** One time step of a rank; phi and data change places at the end. */
  method TimeStep(extents: Index, data: array<real>, phi: array<real>, layers: seq<seq<real>>, oneOverH: seq<real>,
                  dt: real)
    returns (newData: array<real>, newPhi: array<real>)
    requires HaveLayers(extents, data[..], layers) && |extents| == |oneOverH| && phi != data
             && phi.Length == data.Length
    modifies phi
    ensures newData == phi && newPhi == data
    ensures newData[..] == RankStep(extents, data[..], layers, oneOverH, dt)
  {
    ghost var e := data[..];
    for li := 0 to phi.Length
      invariant forall j :: 0 <= j < li ==> phi[j] == 0.0
    {
      phi[li] := 0.0;
    }
    for d := 0 to |extents|
      invariant data[..] == e && IsAccumulated(extents, e, layers, oneOverH, phi[..], d)
    {
      AddDimension(extents, data, phi, layers, oneOverH, d);
    }
    ghost var slopes := phi[..];
    for li := 0 to phi.Length
      invariant data[..] == e
      invariant forall j {:trigger phi[j]} :: 0 <= j < phi.Length ==> phi[j] == if j < li
                  then Euler(e[j], slopes[j], dt) else slopes[j]
    {
      phi[li] := Euler(data[li], phi[li], dt);
    }
    newData, newPhi := phi, data;
  }

  /** The step of a rank is its part of the upwind step of the whole grid. */
  lemma PartOfUpwind(global: Index, extents: Index, lower: Index, e: seq<real>, layers: seq<seq<real>>, u: seq<real>,
                     oneOverH: seq<real>, dt: real, after: seq<real>)
    requires IsInside(global, extents, lower) && Holds(global, extents, lower, e, u) && HaveLayers(extents, e, layers)
    requires AreGhostLayers(global, extents, lower, layers, u) && |oneOverH| == |global|
    requires after == RankStep(extents, e, layers, oneOverH, dt)
    ensures Holds(global, extents, lower, after, Upwind(global, u, oneOverH, dt))
  {
    forall li | 0 <= li < |after|
      ensures var g := GlobalOf(global, extents, lower, li);
              0 <= g < |u| && after[li] == Upwind(global, u, oneOverH, dt)[g]
    {
      SumIsStencil(global, extents, lower, e, layers, u, oneOverH, |global|, li);
      assert e[li] == u[GlobalOf(global, extents, lower, li)];
    }
  }
}
