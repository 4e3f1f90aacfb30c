/** Serial hierarchization of a whole grid.  Dimensions with and without boundary points may be mixed; the result
    is that of the distributed transform. */
module SerialGrid {
  import opened Arithmetic
  import opened Dyadic
  import opened Bases
  import opened GridAxes
  import opened GridSweep
  import opened GridTransform
  import opened LocalTransform
  import opened PoleSweep
  import opened PoleLoops
  import opened DistributedGrid
  import opened InnerGrid
  import opened Tensor
  import opened NoBoundary
  import opened NoBoundaryTransform
  import opened Interpolation
  import opened SerialKernels
  import opened SerialInnerKernels

  /** One dimension: its level and whether it has boundary points. */
  datatype Extent = Extent(level: nat, boundary: bool) {
    function Points(): int {
      if boundary then Pow2(level) + 1 else Pow2(level) - 1
    }
  }

  /** The hat transform of the stored points. */
  function StoredTransform(e: Extent, forward: bool, w: seq<real>): (v: seq<real>)
    requires e.level > 0 && |w| == e.Points()
    ensures |v| == |w|
  {
    if e.boundary then Transformed(e.level, 0, HatOf(forward), w) else InnerTransformed(e.level, forward, w)
  }

  ghost predicate FitsExtent(e: Extent, a: Axis, higher: int, size: int) {
    e.level > 0 && a.count == e.Points() && a.Valid() && higher > 0 && size == a.stride * (a.count * higher)
  }

  lemma AxisDivides(a: Axis, higher: int, size: int)
    requires a.Valid() && higher > 0 && size == a.stride * (a.count * higher)
    ensures a.Divides(size)
  {
  }

  /** The transform of all poles along one dimension. */
  ghost function SerialAxis(e: Extent, a: Axis, forward: bool, u: seq<real>): (v: seq<real>)
    requires e.level > 0 && a.Divides(|u|) && a.count == e.Points()
    ensures |v| == |u|
  {
    seq(|u|, li requires 0 <= li < |u| =>
      (a.MoveIsExact(li, 0, |u|); StoredTransform(e, forward, StoredPole(a, u, li))[a.Coordinate(li)]))
  }

  lemma PoleIsLine(line: Line, data: seq<real>, start: int, first: nat, w: seq<real>, values: seq<real>)
    requires line.stride > 0 && line.base == start - first * line.stride && line.from == first
             && line.to == first + |w| <= |values|
    requires values[first..first + |w|] == w && PoleHolds(data, start, line.stride, w)
    ensures line.Holds(data, values)
  {
    forall i | line.from <= i < line.to
      ensures 0 <= line.Cell(i) < |data| && data[line.Cell(i)] == values[i]
    {
      CellOfOffset(line, start, line.stride, i - first, i, first);
      PoleValue(data, start, line.stride, w, i - first, line.Cell(i));
      SliceAt(values, first, w, i - first);
    }
  }

  lemma PoleValue(data: seq<real>, start: int, stride: int, w: seq<real>, i: int, cell: int)
    requires PoleHolds(data, start, stride, w) && 0 <= i < |w| && cell == start + i * stride
    ensures 0 <= cell < |data| && data[cell] == w[i]
  {
    assert cell == start + stride * i;
  }

  lemma LineIsPole(line: Line, data: seq<real>, start: int, first: nat, w: seq<real>, values: seq<real>)
    requires line.stride > 0 && line.base == start - first * line.stride && line.from == first
             && line.to == first + |w| <= |values|
    requires values[first..first + |w|] == w && line.Holds(data, values)
    ensures PoleHolds(data, start, line.stride, w)
  {
    forall i | 0 <= i < |w|
      ensures 0 <= start + line.stride * i < |data| && data[start + line.stride * i] == w[i]
    {
      CellOfOffset(line, start, line.stride, i, i + first, first);
      Commute(start, line.stride, i);
      SliceAt(values, first, w, i);
    }
  }

  lemma Commute(start: int, stride: int, i: int)
    ensures start + i * stride == start + stride * i
  {
  }

  lemma LineChanges(line: Line, before: seq<real>, after: seq<real>, start: int, first: nat, size: int)
    requires line.stride > 0 && line.base == start - first * line.stride && line.from == first
             && line.to == first + size
    requires line.OnlyChanged(before, after)
    ensures OnlyPoleChanged(before, after, start, line.stride, size)
  {
    forall x | 0 <= x < |after| && (forall i :: 0 <= i < size ==> x != start + line.stride * i)
      ensures after[x] == before[x]
    {
      forall i | line.from <= i < line.to
        ensures x != line.Cell(i)
      {
        CellOfOffset(line, start, line.stride, i - first, i, first);
        assert x != start + line.stride * (i - first);
      }
    }
  }

  method TransformBoundary(val: array<real>, forward: bool, start: int, stride: int, level: nat, ghost w: seq<real>)
    requires level > 0 && |w| == Pow2(level) + 1 && stride > 0 && PoleHolds(val[..], start, stride, w)
    modifies val
    ensures PoleHolds(val[..], start, stride, Transformed(level, 0, HatOf(forward), w))
    ensures OnlyPoleChanged(old(val[..]), val[..], start, stride, |w|)
  {
    ghost var line := BoundaryLine(level, start, stride);
    ghost var was := val[..];
    PoleIsLine(line, was, start, 0, w, w);
    if forward {
      HierarchizeBoundary(val, start, stride, level, w);
    } else {
      DehierarchizeBoundary(val, start, stride, level, w);
    }
    ghost var v := Transformed(level, 0, HatOf(forward), w);
    LineIsPole(line, val[..], start, 0, v, v);
    LineChanges(line, was, val[..], start, 0, |w|);
  }

  method TransformInnerLine(val: array<real>, forward: bool, start: int, stride: int, level: nat, ghost w: seq<real>)
    requires level > 0 && |w| == Pow2(level) - 1 && stride > 0 && PoleHolds(val[..], start, stride, w)
    modifies val
    ensures PoleHolds(val[..], start, stride, InnerTransformed(level, forward, w))
    ensures OnlyPoleChanged(old(val[..]), val[..], start, stride, |w|)
  {
    ghost var line := InnerLine(level, start, stride);
    ghost var was := val[..];
    PoleIsLine(line, was, start, 1, w, Bordered(w));
    if forward {
      HierarchizeInner(val, start, stride, level, Bordered(w));
    } else {
      DehierarchizeInner(val, start, stride, level, Bordered(w));
    }
    LineIsPole(line, val[..], start, 1, InnerTransformed(level, forward, w),
               Transformed(level, 0, HatOf(forward), Bordered(w)));
    LineChanges(line, was, val[..], start, 1, |w|);
  }

  /** The kernel for a dimension, chosen by its boundary flag. */
  method TransformOne(val: array<real>, forward: bool, e: Extent, start: int, stride: int, ghost w: seq<real>)
    requires e.level > 0 && |w| == e.Points() && stride > 0 && PoleHolds(val[..], start, stride, w)
    modifies val
    ensures PoleHolds(val[..], start, stride, StoredTransform(e, forward, w))
    ensures OnlyPoleChanged(old(val[..]), val[..], start, stride, |w|)
  {
    if e.boundary {
      TransformBoundary(val, forward, start, stride, e.level, w);
    } else {
      TransformInnerLine(val, forward, start, stride, e.level, w);
    }
  }

  lemma StartInGrid(a: Axis, higher: int, size: int, n: int)
    requires a.Valid() && higher > 0 && size == a.stride * (a.count * higher) && 0 <= n < higher * a.stride
    ensures 0 <= PoleStart(a.stride, a.count, n) < size && a.Coordinate(PoleStart(a.stride, a.count, n)) == 0
  {
    PoleCells(a, n, 0, size, higher);
    DivModSplit(a.stride, n);
    DivModOf(a.stride, a.count * (n / a.stride), n % a.stride);
    DivModOf(a.count, n / a.stride, 0);
  }

  /** The stored points of all poles, by pole number. */
  ghost function AllPoles(a: Axis, higher: int, u: seq<real>): (wholes: seq<seq<real>>)
    requires a.Valid() && higher > 0 && |u| == a.stride * (a.count * higher) && higher * a.stride >= 0
    ensures |wholes| == higher * a.stride
  {
    AxisDivides(a, higher, |u|);
    seq(higher * a.stride, n requires 0 <= n < higher * a.stride =>
      (StartInGrid(a, higher, |u|, n); StoredPole(a, u, PoleStart(a.stride, a.count, n))))
  }

  lemma PolesBefore(a: Axis, higher: int, u: seq<real>)
    requires a.Valid() && higher > 0 && |u| == a.stride * (a.count * higher) && higher * a.stride >= 0
    ensures PolesHold(u, a.stride, a.count, AllPoles(a, higher, u))
  {
    var wholes := AllPoles(a, higher, u);
    AxisDivides(a, higher, |u|);
    forall n | 0 <= n < |wholes|
      ensures PoleHolds(u, PoleStart(a.stride, a.count, n), a.stride, wholes[n])
    {
      StartInGrid(a, higher, |u|, n);
      var start := PoleStart(a.stride, a.count, n);
      forall i | 0 <= i < a.count
        ensures 0 <= start + a.stride * i < |u| && u[start + a.stride * i] == wholes[n][i]
      {
        a.MoveIsExact(start, i, |u|);
        assert a.Move(start, i) == start + a.stride * i;
      }
    }
  }

  ghost function AllStoredTransforms(e: Extent, forward: bool, wholes: seq<seq<real>>): (after: seq<seq<real>>)
    requires e.level > 0 && forall n :: 0 <= n < |wholes| ==> |wholes[n]| == e.Points()
    ensures |after| == |wholes|
  {
    seq(|wholes|, n requires 0 <= n < |wholes| => StoredTransform(e, forward, wholes[n]))
  }

  /** Once every pole is transformed, the array is the transformed grid. */
  lemma PolesAfter(e: Extent, a: Axis, higher: int, forward: bool, u: seq<real>, data: seq<real>)
    requires FitsExtent(e, a, higher, |u|) && |data| == |u| && higher * a.stride >= 0
    requires PolesHold(data, a.stride, a.count, AllStoredTransforms(e, forward, AllPoles(a, higher, u)))
    ensures a.Divides(|u|) && data == SerialAxis(e, a, forward, u)
  {
    AxisDivides(a, higher, |u|);
    forall li | 0 <= li < |u|
      ensures data[li] == SerialAxis(e, a, forward, u)[li]
    {
      CellAfter(e, a, higher, forward, u, data, li);
    }
  }

  lemma CellAfter(e: Extent, a: Axis, higher: int, forward: bool, u: seq<real>, data: seq<real>, li: int)
    requires FitsExtent(e, a, higher, |u|) && |data| == |u| && higher * a.stride >= 0 && 0 <= li < |u|
    requires PolesHold(data, a.stride, a.count, AllStoredTransforms(e, forward, AllPoles(a, higher, u)))
    ensures a.Divides(|u|) && data[li] == SerialAxis(e, a, forward, u)[li]
  {
    AxisDivides(a, higher, |u|);
    CellOnPole(a, li, |u|, higher);
    var n := li % a.stride + (li / a.stride / a.count) * a.stride;
    var start, c := PoleStart(a.stride, a.count, n), a.Coordinate(li);
    StartInGrid(a, higher, |u|, n);
    SameStoredPole(a, u, start, c, li);
    var after := AllStoredTransforms(e, forward, AllPoles(a, higher, u));
    CellHeld(data, start, a.stride, after[n], c);
  }

  lemma SameStoredPole(a: Axis, u: seq<real>, start: int, c: int, li: int)
    requires a.Divides(|u|) && 0 <= start < |u| && 0 <= li < |u| && 0 <= c < a.count && a.Coordinate(start) == 0
    requires li == start + a.stride * c
    ensures StoredPole(a, u, start) == StoredPole(a, u, li)
  {
    a.MoveIsExact(start, c, |u|);
    assert a.Move(start, c) == li;
    forall i | 0 <= i < a.count
      ensures StoredPole(a, u, start)[i] == StoredPole(a, u, li)[i]
    {
      assert a.Move(a.Move(start, c), i) == a.Move(start, i);
    }
  }

  /** Transforms all poles of one dimension. */
  method TransformPoles(val: array<real>, forward: bool, e: Extent, stride: int, ndim: int, nbrOfPoles: int,
                        ghost higher: int)
    requires FitsExtent(e, Axis(stride, ndim), higher, val.Length) && nbrOfPoles == higher * stride && nbrOfPoles >= 0
    modifies val
    ensures Axis(stride, ndim).Divides(val.Length)
    ensures val[..] == SerialAxis(e, Axis(stride, ndim), forward, old(val[..]))
  {
    ghost var a, u := Axis(stride, ndim), val[..];
    var jump := stride * ndim;
    ghost var before := AllPoles(a, higher, u);
    ghost var after := AllStoredTransforms(e, forward, before);
    PolesBefore(a, higher, u);
    MixedEnds(before, after);
    for nn := 0 to nbrOfPoles
      invariant PolesHold(val[..], stride, ndim, Mixed(before, after, nn))
    {
      StartOfPole(stride, ndim, nn, jump);
      TransformNext(val, forward, e, (nn / stride) * jump + nn % stride, stride, ndim, nn, before, after);
    }
    PolesAfter(e, a, higher, forward, u, val[..]);
  }

  method TransformNext(val: array<real>, forward: bool, e: Extent, start: int, stride: int, ghost size: int,
                       ghost n: int, ghost before: seq<seq<real>>, ghost after: seq<seq<real>>)
    requires e.level > 0 && stride > 0 && size == e.Points() && start == PoleStart(stride, size, n)
    requires (forall m :: 0 <= m < |before| ==> |before[m]| == e.Points())
             && after == AllStoredTransforms(e, forward, before) && 0 <= n < |before|
    requires PolesHold(val[..], stride, size, Mixed(before, after, n))
    modifies val
    ensures PolesHold(val[..], stride, size, Mixed(before, after, n + 1))
  {
    ghost var was := val[..];
    PoleBefore(was, stride, size, before, after, n);
    TransformOne(val, forward, e, start, stride, before[n]);
    NextPole(was, val[..], stride, size, before, after, n);
  }

  /** Number of points in every dimension. */
  function Sizes(extents: seq<Extent>): (n: Index)
    ensures |n| == |extents|
  {
    seq(|extents|, d requires 0 <= d < |extents| => extents[d].Points())
  }

  ghost predicate IsFullGrid(extents: seq<Extent>, size: int) {
    (forall d :: 0 <= d < |extents| ==> extents[d].level > 0) && size == Stride(Sizes(extents), |extents|)
  }

  lemma SizesArePositive(extents: seq<Extent>)
    requires forall d :: 0 <= d < |extents| ==> extents[d].level > 0
    ensures Positive(Sizes(extents))
  {
  }

  lemma ExtentDivides(extents: seq<Extent>, d: nat)
    requires (forall j :: 0 <= j < |extents| ==> extents[j].level > 0) && d < |extents|
    ensures Positive(Sizes(extents)) && BoxAxis(Sizes(extents), d).Divides(Stride(Sizes(extents), |extents|))
  {
    SizesArePositive(extents);
    var higher := BoxAxisDivides(Sizes(extents), d);
  }

  /** The grid after the first k dimensions. */
  ghost function SerialSwept(extents: seq<Extent>, forward: bool, k: nat, u: seq<real>): (v: seq<real>)
    requires IsFullGrid(extents, |u|) && k <= |extents|
    ensures |v| == |u|
  {
    if k == 0 then u
    else
      ExtentDivides(extents, k - 1);
      SerialAxis(extents[k - 1], BoxAxis(Sizes(extents), k - 1), forward, SerialSwept(extents, forward, k - 1, u))
  }

  /** All poles of one dimension. */
  method TransformDimension(val: array<real>, forward: bool, extents: seq<Extent>, stride: int, dim: nat,
                            ghost u: seq<real>)
    requires IsFullGrid(extents, val.Length) && |u| == val.Length && dim < |extents|
             && stride == Stride(Sizes(extents), dim)
    requires val[..] == SerialSwept(extents, forward, dim, u)
    modifies val
    ensures val[..] == SerialSwept(extents, forward, dim + 1, u)
  {
    hide AxisTransform, StoredPole;
    SizesArePositive(extents);
    var ndim := extents[dim].Points();
    ghost var higher := BoxAxisDivides(Sizes(extents), dim);
    StridePositive(Sizes(extents), dim);
    NumberOfPoles(stride, ndim, higher, val.Length);
    TransformPoles(val, forward, extents[dim], stride, ndim, val.Length / ndim, higher);
  }

  /** Hierarchizes or dehierarchizes the grid, one dimension after the other. */
  method Transform(val: array<real>, forward: bool, extents: seq<Extent>)
    requires IsFullGrid(extents, val.Length)
    modifies val
    ensures val[..] == SerialSwept(extents, forward, |extents|, old(val[..]))
    ensures if forward then Interpolates(HatDims(extents), val[..], old(val[..]))
            else Interpolates(HatDims(extents), old(val[..]), val[..])
  {
    hide Interpolates;
    ghost var u := val[..];
    var stride := 1;
    var dim := 0;
    while dim < |extents|
      invariant 0 <= dim <= |extents| && stride == Stride(Sizes(extents), dim)
      invariant val[..] == SerialSwept(extents, forward, dim, u)
    {
      TransformDimension(val, forward, extents, stride, dim, u);
      stride := stride * extents[dim].Points();
      dim := dim + 1;
    }
    if forward {
      SerialSurplusesInterpolate(extents, u, val[..]);
    } else {
      SerialSurplusesInterpolate(extents, val[..], u);
    }
  }

  lemma NumberOfPoles(stride: int, ndim: int, higher: int, size: int)
    requires stride > 0 && ndim > 0 && higher > 0 && size == stride * (ndim * higher)
    ensures size / ndim == higher * stride && higher * stride > 0
  {
    assert size == ndim * (higher * stride);
    DivModOf(ndim, higher * stride, 0);
    MulAtLeast(higher, stride);
  }

  /** The same grid as a grid of the distributed transform with the hat basis and coarsest level 0. */
  ghost function HatDims(extents: seq<Extent>): (dims: seq<Dim>)
    ensures |dims| == |extents|
  {
    seq(|extents|, d requires 0
        <= d < |extents| => Dim(BoxAxis(Sizes(extents), d), extents[d].level, if extents[d].boundary then 2
                                else 0, true, 0, Hat))
  }

  lemma HatDimsAreGrid(extents: seq<Extent>, size: int)
    requires IsFullGrid(extents, size)
    ensures IsGrid(HatDims(extents), size)
  {
    SizesArePositive(extents);
    var n, dims := Sizes(extents), HatDims(extents);
    forall d | 0 <= d < |dims|
      ensures dims[d].Valid(size)
    {
      var higher := BoxAxisDivides(n, d);
    }
    forall i, j | 0 <= i < j < |dims|
      ensures IsLater(dims[i].axis, dims[j].axis)
    {
      StridePositive(n, i);
      StridePositive(n, j);
      var m := StrideFactor(n, i, j);
    }
  }

  lemma SerialAxisIsAxisTransform(e: Extent, dim: Dim, forward: bool, u: seq<real>)
    requires e.level > 0 && dim == Dim(dim.axis, e.level, if e.boundary then 2 else 0, true, 0, Hat) && dim.Valid(|u|)
    ensures SerialAxis(e, dim.axis, forward, u) == AxisTransform(dim, forward, u)
  {
    forall li | 0 <= li < |u|
      ensures SerialAxis(e, dim.axis, forward, u)[li] == AxisTransform(dim, forward, u)[li]
    {
      SerialCellIsCell(e, dim, forward, u, li);
    }
  }

  lemma SerialCellIsCell(e: Extent, dim: Dim, forward: bool, u: seq<real>, li: int)
    requires e.level > 0 && dim == Dim(dim.axis, e.level, if e.boundary then 2 else 0, true, 0, Hat) && dim.Valid(|u|)
             && 0 <= li < |u|
    ensures SerialAxis(e, dim.axis, forward, u)[li] == AxisTransform(dim, forward, u)[li]
  {
    hide AxisTransform;
    dim.axis.MoveIsExact(li, 0, |u|);
    AxisTransformsPoles(dim, forward, u, li);
    OwnValue(dim, AxisTransform(dim, forward, u), li);
    if e.boundary {
      assert PoleAt(dim, u, li) == StoredPole(dim.axis, u, li);
    } else {
      InnerPoleIsBordered(dim, u, li);
    }
  }

  /** The serial and the distributed code transform a grid in the same way. */
  lemma {:induction false} SerialIsDistributed(extents: seq<Extent>, forward: bool, k: nat, u: seq<real>)
    requires IsFullGrid(extents, |u|) && k <= |extents|
    ensures IsGrid(HatDims(extents), |u|)
    ensures SerialSwept(extents, forward, k, u) == Swept(HatDims(extents), forward, 0, k, u)
  {
    HatDimsAreGrid(extents, |u|);
    if k > 0 {
      SerialIsDistributed(extents, forward, k - 1, u);
      SizesArePositive(extents);
      SerialAxisIsAxisTransform(extents[k - 1], HatDims(extents)[k - 1], forward,
                                SerialSwept(extents, forward, k - 1, u));
    }
  }

  /** Serial dehierarchization undoes serial hierarchization, and the other way round. */
  lemma SerialRoundTrip(extents: seq<Extent>, forward: bool, u: seq<real>)
    requires IsFullGrid(extents, |u|)
    ensures SerialSwept(extents, !forward, |extents|, SerialSwept(extents, forward, |extents|, u)) == u
  {
    SerialIsDistributed(extents, forward, |extents|, u);
    SerialIsDistributed(extents, !forward, |extents|, SerialSwept(extents, forward, |extents|, u));
    GridRoundTrip(HatDims(extents), forward, u);
    assert forall k :: 0 <= k < |extents| ==> SeamsMatch(HatDims(extents)[k], u);
  }

  /** Serial hierarchization along one dimension: an inner cell loses the mean of its two direct predecessors on its
      pole, and an end keeps its value. */
  lemma SerialSurplus(e: Extent, d: Dim, u: seq<real>, li: int)
    requires e.level > 0 && d == Dim(d.axis, e.level, if e.boundary then 2 else 0, true, 0, Hat) && d.Valid(|u|)
    requires 0 <= li < |u|
    ensures d.axis.Valid() && 0 <= d.PointOf(li) <= Pow2(e.level)
    ensures var x, w := d.PointOf(li), PoleAt(d, u, li);
            if 0 < x < Pow2(e.level) then
              var h := Pow2(Ctz(x));
              h <= x <= Pow2(e.level) - h
              && SerialAxis(e, d.axis, true, u)[li] == u[li] - (w[x - h] + w[x + h]) / 2.0
            else SerialAxis(e, d.axis, true, u)[li] == u[li]
  {
    hide PoleAt, AxisTransform, Pow2, Ctz, SerialAxis;
    SerialAxisIsAxisTransform(e, d, true, u);
    SurplusAlongAxis(d, u, li);
    if 0 < d.PointOf(li) < Pow2(d.lmax) {
      PredecessorsInside(d.lmax, d.PointOf(li));
    }
  }
  lemma SerialIsHatBox(extents: seq<Extent>, size: int)
    requires IsFullGrid(extents, size)
    ensures IsHatBox(Sizes(extents), HatDims(extents), size)
  {
    SizesArePositive(extents);
    HatDimsAreGrid(extents, size);
  }

  /** The serial code computes the surpluses of the grid and evaluates them again, and nothing else does. */
  lemma SerialSurplusesInterpolate(extents: seq<Extent>, u: seq<real>, v: seq<real>)
    requires IsFullGrid(extents, |u|) && |v| == |u|
    ensures Interpolates(HatDims(extents), v, u) <==> v == SerialSwept(extents, true, |extents|, u)
    ensures Interpolates(HatDims(extents), v, u) <==> u == SerialSwept(extents, false, |extents|, v)
  {
    hide *;
    SerialIsHatBox(extents, |u|);
    SerialIsDistributed(extents, true, |extents|, u);
    SerialRoundTrip(extents, true, u);
    SerialRoundTrip(extents, false, v);
    SurplusesInterpolate(Sizes(extents), HatDims(extents), u, v);
  }
}
