/** The upwind difference along one dimension on the part of a rank, which is stored flat.  It is first
    taken with the neighbour in the flat array, which is the wrong cell for the lowest layer, and then
    corrected there with the layer received from the lower neighbour. */
module LocalUpwind {
  import opened Arithmetic
  import opened GridAxes
  import opened PoleSweep
  import opened DistributedGrid

  /** The difference quotient of two neighbouring values. */
  function Quotient(x: real, y: real, oneOverH: real): real {
    (x - y) * oneOverH
  }

  ghost predicate FitsAxis(a: Axis, higher: int, size: int) {
    a.Valid() && higher > 0 && size == a.stride * (a.count * higher)
  }

  /** The number of the pole through a cell, which is the place of its value in the ghost layer. */
  function PoleNumber(a: Axis, li: int): int
    requires a.Valid()
  {
    li % a.stride + (li / a.stride / a.count) * a.stride
  }

  function FlatNeighbour(a: Axis, size: int, li: int): int {
    if li < a.stride then li - a.stride + size else li - a.stride
  }

  lemma StrideIsWithin(a: Axis, higher: int, size: int)
    requires FitsAxis(a, higher, size)
    ensures 0 < a.stride <= size && higher * a.stride > 0
  {
    MulAtLeast(a.count, higher);
    MulAtLeast(a.stride, a.count * higher);
    MulAtLeast(higher, a.stride);
  }

  /** The cells of the lowest layer are the first cells of the poles. */
  lemma LowestLayer(a: Axis, higher: int, size: int, n: int)
    requires FitsAxis(a, higher, size) && 0 <= n < higher * a.stride
    ensures var p := PoleStart(a.stride, a.count, n);
            0 <= p < size && a.Coordinate(p) == 0 && PoleNumber(a, p) == n
  {
    PoleCells(a, n, 0, size, higher);
    var h, low := n / a.stride, n % a.stride;
    DivModSplit(a.stride, n);
    DivModOf(a.stride, a.count * h, low);
    DivModOf(a.count, h, 0);
  }

  lemma CellOfLowestLayer(a: Axis, higher: int, size: int, li: int)
    requires FitsAxis(a, higher, size) && 0 <= li < size
    ensures 0 <= PoleNumber(a, li) < higher * a.stride
    ensures a.Coordinate(li) == 0 ==> li == PoleStart(a.stride, a.count, PoleNumber(a, li))
  {
    MulAtLeast(a.count, higher);
    assert a.Divides(size);
    CellOnPole(a, li, size, higher);
  }

  /** The difference to the neighbour, once the first done poles of the lowest layer are corrected. */
  ghost function Gradient(a: Axis, higher: int, e: seq<real>, layer: seq<real>, oneOverH: real, done: int,
                          li: int): real
    requires FitsAxis(a, higher, |e|) && |layer| == higher * a.stride && 0 <= li < |e|
  {
    CellOfLowestLayer(a, higher, |e|, li);
    StrideIsWithin(a, higher, |e|);
    if a.Coordinate(li) == 0 && PoleNumber(a, li) < done then Quotient(e[li], layer[PoleNumber(a, li)], oneOverH)
    else Quotient(e[li], e[FlatNeighbour(a, |e|, li)], oneOverH)
  }

  ghost predicate AddedTo(a: Axis, higher: int, e: seq<real>, layer: seq<real>, oneOverH: real, before: seq<real>,
                          now: seq<real>, n: int)
    requires FitsAxis(a, higher, |e|) && |layer| == higher * a.stride && |before| == |now| == |e|
  {
    forall j {:trigger now[j]} :: 0 <= j < |now| ==>
      now[j] == if j < n then before[j] + Gradient(a, higher, e, layer, oneOverH, 0, j) else before[j]
  }

  ghost predicate CorrectedTo(a: Axis, higher: int, e: seq<real>, layer: seq<real>, oneOverH: real, before: seq<real>,
                              now: seq<real>, done: int)
    requires FitsAxis(a, higher, |e|) && |layer| == higher * a.stride && |before| == |now| == |e|
  {
    forall j {:trigger now[j]} :: 0 <= j < |now| ==>
      now[j] == before[j] + Gradient(a, higher, e, layer, oneOverH, done, j)
  }

  lemma AddNext(a: Axis, higher: int, e: seq<real>, layer: seq<real>, oneOverH: real, before: seq<real>, now: seq<real>,
                n: int)
    requires FitsAxis(a, higher, |e|) && |layer| == higher * a.stride && |before| == |now| == |e| && 0 <= n < |e|
    requires AddedTo(a, higher, e, layer, oneOverH, before, now, n)
    ensures 0 <= FlatNeighbour(a, |e|, n) < |e|
    ensures AddedTo(a, higher, e, layer, oneOverH, before,
                    now[n := now[n] + Quotient(e[n], e[FlatNeighbour(a, |e|, n)], oneOverH)], n + 1)
  {
    StrideIsWithin(a, higher, |e|);
    CellOfLowestLayer(a, higher, |e|, n);
  }

  lemma TakenTogether(x: real, y: real, z: real, c: real)
    ensures Quotient(x, y, c) + Quotient(y, z, c) == Quotient(x, z, c)
  {
  }

  lemma OthersUncorrected(a: Axis, higher: int, e: seq<real>, layer: seq<real>, oneOverH: real, done: int, j: int)
    requires FitsAxis(a, higher, |e|) && |layer| == higher * a.stride && 0 <= done < |layer| && 0 <= j < |e|
    requires j != PoleStart(a.stride, a.count, done)
    ensures Gradient(a, higher, e, layer, oneOverH, done + 1, j) == Gradient(a, higher, e, layer, oneOverH, done, j)
  {
    CellOfLowestLayer(a, higher, |e|, j);
  }

  lemma OneCorrected(a: Axis, higher: int, e: seq<real>, layer: seq<real>, oneOverH: real, done: int, p: int)
    requires FitsAxis(a, higher, |e|) && |layer| == higher * a.stride && 0 <= done < |layer|
    requires p == PoleStart(a.stride, a.count, done)
    ensures 0 <= p < |e| && 0 <= FlatNeighbour(a, |e|, p) < |e|
    ensures Gradient(a, higher, e, layer, oneOverH, done + 1, p)
            == Gradient(a, higher, e, layer, oneOverH, done, p)
              + Quotient(e[FlatNeighbour(a, |e|, p)], layer[done], oneOverH)
  {
    StrideIsWithin(a, higher, |e|);
    LowestLayer(a, higher, |e|, done);
    TakenTogether(e[p], e[FlatNeighbour(a, |e|, p)], layer[done], oneOverH);
  }

  /** The correction replaces the wrong neighbour of one cell of the lowest layer. */
  lemma CorrectNext(a: Axis, higher: int, e: seq<real>, layer: seq<real>, oneOverH: real, before: seq<real>,
                    now: seq<real>, done: int, p: int)
    requires FitsAxis(a, higher, |e|) && |layer| == higher * a.stride && |before| == |now| == |e| && 0 <= done < |layer|
    requires CorrectedTo(a, higher, e, layer, oneOverH, before, now, done) && p == PoleStart(a.stride, a.count, done)
    ensures 0 <= p < |e| && 0 <= FlatNeighbour(a, |e|, p) < |e|
    ensures CorrectedTo(a, higher, e, layer, oneOverH, before,
                        now[p := now[p] + Quotient(e[FlatNeighbour(a, |e|, p)], layer[done], oneOverH)], done + 1)
  {
    OneCorrected(a, higher, e, layer, oneOverH, done, p);
    forall j | 0 <= j < |e| && j != p
      ensures now[j] == before[j] + Gradient(a, higher, e, layer, oneOverH, done + 1, j)
    {
      OthersUncorrected(a, higher, e, layer, oneOverH, done, j);
    }
  }

  /** Adds the difference of two values to one entry. */
  method AddDifference(phi: array<real>, i: int, x: real, y: real, oneOverH: real)
    requires 0 <= i < phi.Length
    modifies phi
    ensures phi[..] == old(phi[..])[i := old(phi[i]) + Quotient(x, y, oneOverH)]
  {
    phi[i] := phi[i] + Quotient(x, y, oneOverH);
  }

  method AddCell(a: Axis, ghost higher: int, e: array<real>, phi: array<real>, ghost layer: seq<real>, oneOverH: real,
                 ghost before: seq<real>, li: int, neighborLinearIndex: int)
    requires FitsAxis(a, higher, e.Length) && |layer| == higher * a.stride && phi.Length == e.Length == |before|
             && phi != e
    requires 0 <= li < e.Length && neighborLinearIndex == FlatNeighbour(a, e.Length, li)
    requires AddedTo(a, higher, e[..], layer, oneOverH, before, phi[..], li)
    modifies phi
    ensures AddedTo(a, higher, e[..], layer, oneOverH, before, phi[..], li + 1)
  {
    AddNext(a, higher, e[..], layer, oneOverH, before, phi[..], li);
    AddDifference(phi, li, e[li], e[neighborLinearIndex], oneOverH);
  }

  /** The differences to the flat neighbours; the first loop avoids negative indices. */
  method AddFlatDifferences(a: Axis, ghost higher: int, e: array<real>, phi: array<real>, ghost layer: seq<real>,
                            oneOverH: real)
    requires FitsAxis(a, higher, e.Length) && |layer| == higher * a.stride && phi.Length == e.Length && phi != e
    modifies phi
    ensures AddedTo(a, higher, e[..], layer, oneOverH, old(phi[..]), phi[..], e.Length)
  {
    StrideIsWithin(a, higher, e.Length);
    ghost var before := phi[..];
    for li := 0 to a.stride
      invariant AddedTo(a, higher, e[..], layer, oneOverH, before, phi[..], li)
    {
      AddCell(a, higher, e, phi, layer, oneOverH, before, li, li - a.stride + e.Length);
    }
    for li := a.stride to e.Length
      invariant AddedTo(a, higher, e[..], layer, oneOverH, before, phi[..], li)
    {
      AddCell(a, higher, e, phi, layer, oneOverH, before, li, li - a.stride);
    }
  }

  /** Corrects the lowest layer, where the flat neighbour was wrong. */
  method CorrectLowestLayer(a: Axis, higher: int, e: array<real>, phi: array<real>, layer: seq<real>, oneOverH: real,
                            ghost before: seq<real>)
    requires FitsAxis(a, higher, e.Length) && |layer| == higher * a.stride && phi.Length == e.Length == |before|
             && phi != e
    requires CorrectedTo(a, higher, e[..], layer, oneOverH, before, phi[..], 0)
    modifies phi
    ensures CorrectedTo(a, higher, e[..], layer, oneOverH, before, phi[..], |layer|)
  {
    StrideIsWithin(a, higher, e.Length);
    ghost var u := e[..];
    var jump := a.stride * a.count;
    var done := 0;
    var nHigher := 0;
    while nHigher < higher
      invariant 0 <= nHigher <= higher && done == nHigher * a.stride && e[..] == u
      invariant CorrectedTo(a, higher, u, layer, oneOverH, before, phi[..], done)
    {
      NextLayer(a.stride, higher, nHigher, done);
      CorrectPoles(a, higher, e, phi, layer, oneOverH, before, jump, nHigher, done);
      done := done + a.stride;
      nHigher := nHigher + 1;
    }
  }

  lemma NextLayer(stride: int, higher: int, nHigher: int, done: int)
    requires stride > 0 && 0 <= nHigher < higher && done == nHigher * stride
    ensures 0 <= done && done + stride == (nHigher + 1) * stride <= higher * stride
  {
    MulOrder(stride, nHigher, higher);
    MulOrder(stride, 0, nHigher);
  }

  method CorrectCell(a: Axis, ghost higher: int, e: array<real>, phi: array<real>, layer: seq<real>, oneOverH: real,
                     ghost before: seq<real>, ghostIndex: int, lowest: int, wrongNeighbor: int)
    requires FitsAxis(a, higher, e.Length) && |layer| == higher * a.stride && phi.Length == e.Length == |before|
             && phi != e
    requires 0 <= ghostIndex < |layer| && lowest == PoleStart(a.stride, a.count, ghostIndex)
             && wrongNeighbor == FlatNeighbour(a, e.Length, lowest)
    requires CorrectedTo(a, higher, e[..], layer, oneOverH, before, phi[..], ghostIndex)
    modifies phi
    ensures CorrectedTo(a, higher, e[..], layer, oneOverH, before, phi[..], ghostIndex + 1)
  {
    CorrectNext(a, higher, e[..], layer, oneOverH, before, phi[..], ghostIndex, lowest);
    AddDifference(phi, lowest, e[wrongNeighbor], layer[ghostIndex], oneOverH);
  }

  /** The poles of the lowest layer that share their higher coordinates; for the first of them the wrong
      neighbour lies at the end of the array. */
  method CorrectPoles(a: Axis, higher: int, e: array<real>, phi: array<real>, layer: seq<real>, oneOverH: real,
                      ghost before: seq<real>, jump: int, nHigher: int, done: int)
    requires FitsAxis(a, higher, e.Length) && |layer| == higher * a.stride && phi.Length == e.Length == |before|
             && phi != e
    requires 0 <= nHigher < higher && 0 <= done == nHigher * a.stride && done + a.stride <= |layer|
             && jump == a.stride * a.count
    requires CorrectedTo(a, higher, e[..], layer, oneOverH, before, phi[..], done)
    modifies phi
    ensures CorrectedTo(a, higher, e[..], layer, oneOverH, before, phi[..], done + a.stride)
  {
    for nLower := 0 to a.stride
      invariant CorrectedTo(a, higher, e[..], layer, oneOverH, before, phi[..], nLower + done)
    {
      PoleOfCoordinates(a.stride, a.count, nHigher, nLower, done, jump);
      var lowest := nHigher * jump + nLower;
      FirstLayerIsWithin(a, higher, e.Length, nHigher, nLower, lowest, jump);
      var wrongNeighbor := if nHigher == 0 then lowest - a.stride + e.Length else lowest - a.stride;
      CorrectCell(a, higher, e, phi, layer, oneOverH, before, nLower + done, lowest, wrongNeighbor);
    }
  }

  lemma FirstLayerIsWithin(a: Axis, higher: int, size: int, nHigher: int, nLower: int, lowest: int, jump: int)
    requires FitsAxis(a, higher, size) && 0 <= nLower < a.stride && 0 <= nHigher < higher
    requires jump == a.stride * a.count && lowest == nHigher * jump + nLower
    ensures lowest < a.stride <==> nHigher == 0
  {
    MulAtLeast(a.stride, a.count);
    if nHigher > 0 {
      MulAtLeast(jump, nHigher);
    }
  }
}
