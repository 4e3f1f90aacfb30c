/** A d-dimensional grid distributed over ranks.  Every rank stores a box of the grid as a flat array
    of its own.  Sweeping a dimension turns the box of the grid into the box of the swept grid. */
module DistributedGrid {
  import opened Arithmetic
  import opened Dyadic
  import opened Poles
  import opened Tensor
  import opened GridAxes
  import opened GridSweep
  import opened GridTransform
  import opened LocalTransform
  import opened PoleSweep

  function Shift(v: Index, w: Index): Index
    requires |v| == |w|
  {
    seq(|v|, j requires 0 <= j < |v| => v[j] + w[j])
  }

  /** The global linear index of local linear index l. */
  ghost function GlobalOf(global: Index, extents: Index, lower: Index, l: int): int
    requires |extents| == |lower| == |global| && Positive(extents)
  {
    Linear(global, Shift(Vector(extents, l, |global|), lower), |global|)
  }

  /** The axis of dimension d of a box. */
  function BoxAxis(extents: Index, d: nat): Axis
    requires d < |extents|
  {
    Axis(Stride(extents, d), extents[d])
  }

  /** The local data is the part of grid function u between lower and lower + extents. */
  ghost predicate Holds(global: Index, extents: Index, lower: Index, data: seq<real>, u: seq<real>)
    requires IsInside(global, extents, lower)
  {
    && |data| == Stride(extents, |global|)
    && |u| == Stride(global, |global|)
    && forall l {:trigger data[l]} :: 0 <= l < |data| ==>
         var g := GlobalOf(global, extents, lower, l);
         0 <= g < |u| && data[l] == u[g]
  }

  lemma HeldSizes(global: Index, extents: Index, lower: Index, data: seq<real>, u: seq<real>)
    requires IsInside(global, extents, lower) && Holds(global, extents, lower, data, u)
    ensures |data| == Stride(extents, |global|) && |u| == Stride(global, |global|)
  {
  }

  lemma {:induction false} LinearUpdate(extents: Index, v: Index, d: nat, i: int, k: nat)
    requires d < |v| == |extents| && k <= |extents|
    ensures Linear(extents, v[d := i], k)
            == Linear(extents, v, k) + (if d < k then (i - v[d]) * Stride(extents, d) else 0)
  {
    if k > 0 {
      LinearUpdate(extents, v, d, i, k - 1);
      if d == k - 1 {
        assert i * Stride(extents, d) == v[d] * Stride(extents, d) + (i - v[d]) * Stride(extents, d);
      }
    }
  }

  /** Moving along one dimension of a box changes one coordinate of the vector index. */
  lemma MoveChangesDigit(extents: Index, l: int, d: nat, i: int)
    requires Positive(extents) && d < |extents| && 0 <= l < Stride(extents, |extents|) && 0 <= i < extents[d]
    ensures BoxAxis(extents, d).Valid()
    ensures var v, a := Vector(extents, l, |extents|), BoxAxis(extents, d);
            v[d] == a.Coordinate(l) && InBox(extents, v) && a.Move(l, i) == Linear(extents, v[d := i], |extents|)
  {
    var n := |extents|;
    StridePositive(extents, d);
    IndexBijection(extents, [], l);
    var v := Vector(extents, l, n);
    DigitOfLinear(extents, v, n, d);
    LinearUpdate(extents, v, d, i, n);
  }

  predicate IsInside(global: Index, extents: Index, lower: Index) {
    && |extents| == |lower| == |global| && Positive(extents) && Positive(global)
    && forall j :: 0 <= j < |global| ==> lower[j] >= 0 && lower[j] + extents[j] <= global[j]
  }

  lemma ShiftUpdate(v: Index, w: Index, d: nat, i: int)
    requires d < |v| == |w|
    ensures Shift(v[d := i], w) == Shift(v, w)[d := w[d] + i]
  {
  }

  /** The vector index of a global cell is the shifted vector index of the local cell. */
  lemma GlobalVector(global: Index, extents: Index, lower: Index, v: Index)
    requires IsInside(global, extents, lower) && InBox(extents, v)
    ensures var g := Linear(global, Shift(v, lower), |global|);
            0 <= g < Stride(global, |global|) && Vector(global, g, |global|) == Shift(v, lower)
    ensures var l := Linear(extents, v, |global|);
            0 <= l < Stride(extents, |global|) && Vector(extents, l, |global|) == v
  {
    assert InBox(global, Shift(v, lower));
    IndexBijection(global, Shift(v, lower), 0);
    IndexBijection(extents, v, 0);
  }

  lemma MoveOfShifted(global: Index, extents: Index, lower: Index, v: Index, d: nat, i: int)
    requires IsInside(global, extents, lower) && InBox(extents, v) && d < |global| && 0 <= i < extents[d]
    ensures BoxAxis(global, d).Valid()
    ensures var g := Linear(global, Shift(v, lower), |global|);
            0 <= g < Stride(global, |global|)
            && BoxAxis(global, d).Move(g, lower[d] + i) == Linear(global, Shift(v[d := i], lower), |global|)
  {
    GlobalVector(global, extents, lower, v);
    MoveChangesDigit(global, Linear(global, Shift(v, lower), |global|), d, lower[d] + i);
    ShiftUpdate(v, lower, d, i);
  }

  /** Local moves are global moves. */
  lemma GlobalOfMove(global: Index, extents: Index, lower: Index, l: int, d: nat, i: int)
    requires IsInside(global, extents, lower) && d < |global|
    requires 0 <= l < Stride(extents, |global|) && 0 <= i < extents[d]
    ensures BoxAxis(extents, d).Valid() && BoxAxis(global, d).Valid()
    ensures 0 <= GlobalOf(global, extents, lower, l) < Stride(global, |global|)
    ensures GlobalOf(global, extents, lower, BoxAxis(extents, d).Move(l, i))
            == BoxAxis(global, d).Move(GlobalOf(global, extents, lower, l), lower[d] + i)
  {
    var v := Vector(extents, l, |global|);
    MoveChangesDigit(extents, l, d, i);
    GlobalVector(global, extents, lower, v[d := i]);
    MoveOfShifted(global, extents, lower, v, d, i);
  }

  lemma BoxAxisDivides(extents: Index, d: nat) returns (higher: int)
    requires d < |extents| && Positive(extents)
    ensures higher > 0 && Stride(extents, |extents|) == Stride(extents, d) * (extents[d] * higher)
    ensures BoxAxis(extents, d).Divides(Stride(extents, |extents|))
  {
    StridePositive(extents, d);
    higher := StrideFactor(extents, d, |extents|);
  }

  /** Every local cell lies on exactly one pole of dimension d, at its coordinate. */
  lemma CellOnPole(a: Axis, l: int, size: int, higher: int)
    requires a.Divides(size) && 0 <= l < size && size == a.stride * (a.count * higher) && higher >= 0
    ensures var n := l % a.stride + (l / a.stride / a.count) * a.stride;
            0 <= n < higher * a.stride && l == PoleStart(a.stride, a.count, n) + a.stride * a.Coordinate(l)
            && 0 <= a.Coordinate(l) < a.count
  {
    var q := l / a.stride;
    var h := q / a.count;
    var n := l % a.stride + h * a.stride;
    DivModSplit(a.stride, l);
    DivModSplit(a.count, q);
    DivBound(a.stride, a.count * higher, l);
    DivBound(a.count, higher, q);
    TwoDigits(a.stride, higher, h, l % a.stride);
    DivModOf(a.stride, h, l % a.stride);
    assert a.stride * (a.count * h + q % a.count) == a.stride * (a.count * h) + a.stride * (q % a.count);
  }

  /** The start of a pole is a cell with coordinate 0, and the cells of the pole are its moves. */
  lemma PoleCells(a: Axis, n: int, i: int, size: int, higher: int)
    requires a.Valid() && higher >= 0 && size == a.stride * (a.count * higher) && 0 <= n < higher * a.stride
             && 0 <= i < a.count
    ensures 0 <= PoleStart(a.stride, a.count, n) < size
    ensures PoleStart(a.stride, a.count, n) + a.stride * i == a.Move(PoleStart(a.stride, a.count, n), i)
    ensures 0 <= a.Move(PoleStart(a.stride, a.count, n), i) < size
  {
    var h, low := n / a.stride, n % a.stride;
    var start := PoleStart(a.stride, a.count, n);
    DivModSplit(a.stride, n);
    DivBound(a.stride, higher, n);
    TwoDigits(a.count, higher, h, 0);
    TwoDigits(a.stride, a.count * higher, a.count * h, low);
    DivModOf(a.stride, a.count * h, low);
    DivModOf(a.count, h, 0);
    assert a.Coordinate(start) == 0;
    assert a.Divides(size);
    a.MoveIsExact(start, i, size);
  }

  /** Local pole n of dimension d: where it starts in the local array and in the global grid. */
  ghost function LocalStart(extents: Index, d: nat, n: int): int
    requires d < |extents| && Positive(extents)
  {
    StridePositive(extents, d);
    PoleStart(Stride(extents, d), extents[d], n)
  }

  ghost function GlobalStart(global: Index, extents: Index, lower: Index, d: nat, n: int): int
    requires IsInside(global, extents, lower) && d < |global|
  {
    GlobalOf(global, extents, lower, LocalStart(extents, d, n))
  }

  /** The number of poles of dimension d is higher times the stride. */
  ghost predicate PoleCount(extents: Index, d: nat, higher: int, count: int)
    requires d < |extents|
  {
    && higher >= 0 && count == higher * Stride(extents, d)
    && Stride(extents, |extents|) == Stride(extents, d) * (extents[d] * higher)
  }

  /** Cell i of local pole n is point lower[d] + i of a global pole. */
  lemma CellOfPole(global: Index, extents: Index, lower: Index, d: nat, higher: int, count: int, n: int, i: int)
    requires IsInside(global, extents, lower) && d < |global| && PoleCount(extents, d, higher, count)
    requires 0 <= n < count && 0 <= i < extents[d]
    ensures BoxAxis(global, d).Valid()
    ensures var l := LocalStart(extents, d, n) + Stride(extents, d) * i;
            0 <= l < Stride(extents, |global|)
            && 0 <= GlobalStart(global, extents, lower, d, n) < Stride(global, |global|)
            && GlobalOf(global, extents, lower, l)
              == BoxAxis(global, d).Move(GlobalStart(global, extents, lower, d, n), lower[d] + i)
  {
    hide Stride, GlobalOf;
    StridePositive(extents, d);
    PoleCells(BoxAxis(extents, d), n, i, Stride(extents, |global|), higher);
    GlobalOfMove(global, extents, lower, LocalStart(extents, d, n), d, i);
  }

  lemma PoleOfCell(extents: Index, d: nat, higher: int, count: int, l: int) returns (n: int, i: int)
    requires d < |extents| && Positive(extents) && PoleCount(extents, d, higher, count)
    requires 0 <= l < Stride(extents, |extents|)
    ensures 0 <= n < count && 0 <= i < extents[d] && l == LocalStart(extents, d, n) + Stride(extents, d) * i
  {
    StridePositive(extents, d);
    var a := BoxAxis(extents, d);
    assert a.Divides(Stride(extents, |extents|));
    CellOnPole(a, l, Stride(extents, |extents|), higher);
    n, i := l % a.stride + (l / a.stride / a.count) * a.stride, a.Coordinate(l);
  }

  lemma PoleAtCell(dim: Dim, u: seq<real>, g: int, x: int)
    requires dim.Valid(|u|) && 0 <= g < |u| && 0 <= x < dim.axis.count
    ensures 0 <= dim.Point(x) <= Pow2(dim.lmax) && 0 <= dim.axis.Move(g, x) < |u|
    ensures PoleAt(dim, u, g)[dim.Point(x)] == u[dim.axis.Move(g, x)]
  {
    dim.axis.MoveIsExact(g, x, |u|);
  }

  lemma FullPoleValue(dim: Dim, global: Index, extents: Index, lower: Index, d: nat, higher: int, count: int,
                      u: seq<real>, n: int, i: int)
    requires IsInside(global, extents, lower) && d < |global| && |u| == Stride(global, |global|)
    requires dim.axis == BoxAxis(global, d) && dim.Valid(|u|)
    requires PoleCount(extents, d, higher, count) && 0 <= n < count && 0 <= i < extents[d]
    ensures 0 <= dim.Point(lower[d] + i) <= Pow2(dim.lmax)
    ensures var g := GlobalStart(global, extents, lower, d, n);
            var h := GlobalOf(global, extents, lower, LocalStart(extents, d, n) + Stride(extents, d) * i);
            0 <= g < |u| && 0 <= h < |u| && u[h] == PoleAt(dim, u, g)[dim.Point(lower[d] + i)]
  {
    CellOfPole(global, extents, lower, d, higher, count, n, i);
    PoleAtCell(dim, u, GlobalStart(global, extents, lower, d, n), lower[d] + i);
  }

  /** Dimension d of the grid, the pole that cuts it up, and the place of this rank on the pole. */
  ghost predicate DimFits(dim: Dim, p: Pole, me: nat, global: Index, extents: Index, lower: Index, d: nat)
    requires IsInside(global, extents, lower) && d < |global|
  {
    && dim.axis == BoxAxis(global, d) && dim.Valid(Stride(global, |global|))
    && p.Valid() && me < |p.cuts| && p.lmax == dim.lmax && p.boundary == dim.boundary
    && p.First(me) == lower[d] && p.Last(me) == lower[d] + extents[d] - 1
  }

  /** wholes are the full poles of dimension d through the part, one for each local pole. */
  ghost predicate AreFullPoles(dim: Dim, global: Index, extents: Index, lower: Index, d: nat, u: seq<real>,
                               wholes: seq<seq<real>>)
    requires IsInside(global, extents, lower) && d < |global| && dim.Valid(|u|)
  {
    forall n {:trigger wholes[n]} {:trigger GlobalStart(global, extents, lower, d, n)} :: 0 <= n < |wholes| ==>
      var g := GlobalStart(global, extents, lower, d, n);
      0 <= g < |u| && wholes[n] == PoleAt(dim, u, g)
  }

  lemma FullPolesAreWhole(dim: Dim, p: Pole, me: nat, global: Index, extents: Index, lower: Index, d: nat, u: seq<real>,
                          wholes: seq<seq<real>>)
    requires dim.boundary > 0
    requires IsInside(global, extents, lower) && d < |global| && DimFits(dim, p, me, global, extents, lower, d)
    requires |u| == Stride(global, |global|) && AreFullPoles(dim, global, extents, lower, d, u, wholes)
    ensures AreWholePoles(p, me, wholes)
  {
  }

  lemma CellBeforeSweep(dim: Dim, global: Index, extents: Index, lower: Index, d: nat, higher: int, count: int,
                        data: seq<real>, u: seq<real>, n: int, i: int, l: int)
    requires dim.boundary > 0
    requires IsInside(global, extents, lower) && d < |global| && dim.axis == BoxAxis(global, d)
             && dim.Valid(Stride(global, |global|))
    requires Holds(global, extents, lower, data, u) && PoleCount(extents, d, higher, count)
    requires 0 <= n < count && 0 <= i < extents[d] && l == LocalStart(extents, d, n) + Stride(extents, d) * i
    ensures 0 <= l < |data| && 0 <= GlobalStart(global, extents, lower, d, n) < |u| && lower[d] + i <= Pow2(dim.lmax)
    ensures data[l] == PoleAt(dim, u, GlobalStart(global, extents, lower, d, n))[lower[d] + i]
  {
    CellOfPole(global, extents, lower, d, higher, count, n, i);
    FullPoleValue(dim, global, extents, lower, d, higher, count, u, n, i);
  }

  lemma SliceAt(s: seq<real>, from: int, values: seq<real>, i: int)
    requires 0 <= from && from + |values| <= |s| && values == s[from..from + |values|] && 0 <= i < |values|
    ensures values[i] == s[from + i]
  {
  }

  lemma ValueBeforeSweep(dim: Dim, global: Index, extents: Index, lower: Index, d: nat, higher: int, count: int,
                        data: seq<real>, u: seq<real>, n: int, start: int, stride: int, values: seq<real>, i: int)
    requires dim.boundary > 0
    requires IsInside(global, extents, lower) && d < |global| && dim.axis == BoxAxis(global, d)
             && dim.Valid(Stride(global, |global|))
    requires Holds(global, extents, lower, data, u) && PoleCount(extents, d, higher, count) && 0 <= n < count
    requires start == LocalStart(extents, d, n) && stride == Stride(extents, d)
    requires |values| == extents[d] && 0 <= GlobalStart(global, extents, lower, d, n) < |u|
    requires lower[d] + |values| <= Pow2(dim.lmax) + 1
    requires values == PoleAt(dim, u, GlobalStart(global, extents, lower, d, n))[lower[d]..lower[d] + |values|]
    requires 0 <= i < |values|
    ensures 0 <= start + stride * i < |data| && data[start + stride * i] == values[i]
  {
    CellBeforeSweep(dim, global, extents, lower, d, higher, count, data, u, n, i, start + stride * i);
    SliceAt(PoleAt(dim, u, GlobalStart(global, extents, lower, d, n)), lower[d], values, i);
  }

  lemma PoleBeforeSweep(dim: Dim, global: Index, extents: Index, lower: Index, d: nat, higher: int, count: int,
                        data: seq<real>, u: seq<real>, n: int, start: int, stride: int, values: seq<real>)
    requires dim.boundary > 0
    requires IsInside(global, extents, lower) && d < |global| && dim.axis == BoxAxis(global, d)
             && dim.Valid(Stride(global, |global|))
    requires Holds(global, extents, lower, data, u) && PoleCount(extents, d, higher, count) && 0 <= n < count
    requires start == LocalStart(extents, d, n) && stride == Stride(extents, d)
    requires |values| == extents[d] && 0 <= GlobalStart(global, extents, lower, d, n) < |u|
    requires lower[d] + |values| <= Pow2(dim.lmax) + 1
    requires values == PoleAt(dim, u, GlobalStart(global, extents, lower, d, n))[lower[d]..lower[d] + |values|]
    ensures PoleHolds(data, start, stride, values)
  {
    hide LocalStart, GlobalStart, PoleAt, Stride, PoleCount, Holds;
    forall i | 0 <= i < |values|
      ensures 0 <= start + stride * i < |data| && data[start + stride * i] == values[i]
    {
      ValueBeforeSweep(dim, global, extents, lower, d, higher, count, data, u, n, start, stride, values, i);
    }
  }

  /** Before the sweep the local cells hold the values of the full poles. */
  lemma PartBeforeSweep(dim: Dim, p: Pole, me: nat, global: Index, extents: Index, lower: Index, d: nat, higher: int,
                        data: seq<real>, u: seq<real>, wholes: seq<seq<real>>, op: Transform)
    requires dim.boundary > 0
    requires IsInside(global, extents, lower) && d < |global| && DimFits(dim, p, me, global, extents, lower, d)
    requires Holds(global, extents, lower, data, u) && PoleCount(extents, d, higher, |wholes|)
    requires AreFullPoles(dim, global, extents, lower, d, u, wholes) && AreWholePoles(p, me, wholes)
             && Stride(extents, d) > 0
    ensures SweptTo(p, me, dim.lmin, op, data, Stride(extents, d), wholes, 0)
  {
    hide Stride, PoleHolds, PoleAt, PoleCount, Holds;
    forall n | 0 <= n < |wholes|
      ensures PoleHolds(data, PoleStart(Stride(extents, d), p.Last(me) - p.First(me) + 1, n), Stride(extents, d),
                        PoleValues(p, me, dim.lmin, op, wholes[n], false))
    {
      var values := PoleValues(p, me, dim.lmin, op, wholes[n], false);
      PoleBeforeSweep(dim, global, extents, lower, d, higher, |wholes|, data, u, n, LocalStart(extents, d, n),
                      Stride(extents, d), values);
    }
  }

  lemma CellAfterSweep(dim: Dim, global: Index, extents: Index, lower: Index, d: nat, higher: int, count: int,
                       u: seq<real>, forward: bool, n: int, i: int, l: int)
    requires dim.boundary > 0
    requires IsInside(global, extents, lower) && d < |global| && dim.axis == BoxAxis(global, d)
             && dim.Valid(Stride(global, |global|))
    requires |u| == Stride(global, |global|) && dim.active && PoleCount(extents, d, higher, count)
    requires 0 <= n < count && 0 <= i < extents[d] && l == LocalStart(extents, d, n) + Stride(extents, d) * i
    ensures 0 <= GlobalStart(global, extents, lower, d, n) < |u| && lower[d] + i <= Pow2(dim.lmax)
    ensures 0 <= GlobalOf(global, extents, lower, l) < |u|
    ensures AxisTransform(dim, forward, u)[GlobalOf(global, extents, lower, l)]
            == Transformed(dim.lmax, dim.lmin, TransformOf(dim, forward),
                           PoleAt(dim, u, GlobalStart(global, extents, lower, d, n)))[lower[d] + i]
  {
    FullPoleValue(dim, global, extents, lower, d, higher, count, AxisTransform(dim, forward, u), n, i);
    AxisTransformsPoles(dim, forward, u, GlobalStart(global, extents, lower, d, n));
  }

  lemma SweptCell(dim: Dim, p: Pole, me: nat, global: Index, extents: Index, lower: Index, d: nat, higher: int,
                  data: seq<real>, u: seq<real>, whole: seq<real>, count: int, forward: bool, n: int, i: int)
    requires dim.boundary > 0
    requires IsInside(global, extents, lower) && d < |global| && DimFits(dim, p, me, global, extents, lower, d)
             && dim.active
    requires |u| == Stride(global, |global|) && PoleCount(extents, d, higher, count) && 0 <= n < count
             && 0 <= i < extents[d]
    requires 0 <= GlobalStart(global, extents, lower, d, n) < |u|
    requires whole == PoleAt(dim, u, GlobalStart(global, extents, lower, d, n))
             && 0 <= p.First(me) <= p.Last(me) <= Pow2(p.lmax)
    requires PoleHolds(data, LocalStart(extents, d, n), Stride(extents, d),
                       PoleValues(p, me, dim.lmin, TransformOf(dim, forward), whole, true))
    ensures var l := LocalStart(extents, d, n) + Stride(extents, d) * i;
            var g := GlobalOf(global, extents, lower, l);
            0 <= l < |data| && 0 <= g < |u| && data[l] == AxisTransform(dim, forward, u)[g]
  {
    var l := LocalStart(extents, d, n) + Stride(extents, d) * i;
    var values := PoleValues(p, me, dim.lmin, TransformOf(dim, forward), whole, true);
    CellAfterSweep(dim, global, extents, lower, d, higher, count, u, forward, n, i, l);
    CellHeld(data, LocalStart(extents, d, n), Stride(extents, d), values, i);
    SliceAt(Transformed(dim.lmax, dim.lmin, TransformOf(dim, forward), whole), lower[d], values, i);
  }

  lemma FullPoleAt(dim: Dim, global: Index, extents: Index, lower: Index, d: nat, u: seq<real>, wholes: seq<seq<real>>,
                   n: int)
    requires IsInside(global, extents, lower) && d < |global| && dim.Valid(|u|)
    requires AreFullPoles(dim, global, extents, lower, d, u, wholes) && 0 <= n < |wholes|
    ensures 0 <= GlobalStart(global, extents, lower, d, n) < |u|
    ensures wholes[n] == PoleAt(dim, u, GlobalStart(global, extents, lower, d, n))
  {
  }

  lemma SweptPoleAt(p: Pole, me: nat, lmin: nat, op: Transform, data: seq<real>, stride: int, size: int,
                    wholes: seq<seq<real>>, n: int)
    requires me < |p.cuts| && lmin <= p.lmax && stride > 0 && AreWholePoles(p, me, wholes)
    requires SweptTo(p, me, lmin, op, data, stride, wholes, |wholes|) && 0 <= n < |wholes|
             && size == p.Last(me) - p.First(me) + 1
    ensures PoleHolds(data, PoleStart(stride, size, n), stride, PoleValues(p, me, lmin, op, wholes[n], true))
  {
  }

  lemma PartCell(dim: Dim, p: Pole, me: nat, global: Index, extents: Index, lower: Index, d: nat, higher: int,
                 data: seq<real>, u: seq<real>, wholes: seq<seq<real>>, forward: bool, l: int)
    requires dim.boundary > 0
    requires IsInside(global, extents, lower) && d < |global| && DimFits(dim, p, me, global, extents, lower, d)
             && dim.active
    requires |u| == Stride(global, |global|) && |data| == Stride(extents, |global|)
             && PoleCount(extents, d, higher, |wholes|)
    requires AreFullPoles(dim, global, extents, lower, d, u, wholes) && AreWholePoles(p, me, wholes)
             && Stride(extents, d) > 0
    requires SweptTo(p, me, dim.lmin, TransformOf(dim, forward), data, Stride(extents, d), wholes, |wholes|)
             && 0 <= l < |data|
    ensures var g := GlobalOf(global, extents, lower, l);
            0 <= g < |u| && data[l] == AxisTransform(dim, forward, u)[g]
  {
    hide GlobalStart, AreFullPoles, SweptTo, PoleHolds, PoleValues, AxisTransform, TransformOf, PoleAt, PoleCount;
    var n, i := PoleOfCell(extents, d, higher, |wholes|, l);
    FullPoleAt(dim, global, extents, lower, d, u, wholes, n);
    SweptPoleAt(p, me, dim.lmin, TransformOf(dim, forward), data, Stride(extents, d), extents[d], wholes, n);
    SweptCell(dim, p, me, global, extents, lower, d, higher, data, u, wholes[n], |wholes|, forward, n, i);
  }

  /** After the sweep the local cells hold the part of the swept grid. */
  lemma PartAfterSweep(dim: Dim, p: Pole, me: nat, global: Index, extents: Index, lower: Index, d: nat, higher: int,
                       data: seq<real>, u: seq<real>, wholes: seq<seq<real>>, forward: bool)
    requires dim.boundary > 0
    requires IsInside(global, extents, lower) && d < |global| && DimFits(dim, p, me, global, extents, lower, d)
             && dim.active
    requires |u| == Stride(global, |global|) && |data| == Stride(extents, |global|)
             && PoleCount(extents, d, higher, |wholes|)
    requires AreFullPoles(dim, global, extents, lower, d, u, wholes) && AreWholePoles(p, me, wholes)
             && Stride(extents, d) > 0
    requires SweptTo(p, me, dim.lmin, TransformOf(dim, forward), data, Stride(extents, d), wholes, |wholes|)
    ensures Holds(global, extents, lower, data, AxisTransform(dim, forward, u))
  {
    forall l | 0 <= l < |data|
      ensures var g := GlobalOf(global, extents, lower, l);
              0 <= g < |u| && data[l] == AxisTransform(dim, forward, u)[g]
    {
      PartCell(dim, p, me, global, extents, lower, d, higher, data, u, wholes, forward, l);
    }
  }

  lemma CellHeld(data: seq<real>, start: int, stride: int, values: seq<real>, i: int)
    requires PoleHolds(data, start, stride, values) && 0 <= i < |values|
    ensures 0 <= start + stride * i < |data| && data[start + stride * i] == values[i]
  {
  }

  /** A rank's sweep over dimension d of its part of the distributed grid.  u is the whole grid function
      before the sweep; the remote slices hold its values at the indices the exchange provides. */
  method SweepDimension(dim: Dim, p: Pole, me: nat, ghost global: Index, extents: Index, ghost lower: Index, d: nat,
                        ldata: array<real>, remote: seq<RemoteSlice>, forward: bool, ghost u: seq<real>,
                        ghost wholes: seq<seq<real>>, stride: int, higher: int)
    requires dim.boundary > 0
    requires IsInside(global, extents, lower) && d < |global| && DimFits(dim, p, me, global, extents, lower, d)
    requires dim.active
    requires Holds(global, extents, lower, ldata[..], u)
    requires stride == Stride(extents, d) && stride > 0 && PoleCount(extents, d, higher, |wholes|)
    requires AreFullPoles(dim, global, extents, lower, d, u, wholes) && AreWholePoles(p, me, wholes)
    requires forall n :: 0 <= n < |wholes| ==>
               RemoteComplete(p, me, dim.lmin, TransformOf(dim, forward), remote, n, wholes[n])
    modifies ldata
    ensures Holds(global, extents, lower, ldata[..], AxisTransform(dim, forward, u))
  {
    PartBeforeSweep(dim, p, me, global, extents, lower, d, higher, ldata[..], u, wholes, TransformOf(dim, forward));
    SweepPoles(p, me, dim.lmin, TransformOf(dim, forward), ldata, stride, higher, remote, wholes);
    PartAfterSweep(dim, p, me, global, extents, lower, d, higher, ldata[..], u, wholes, forward);
  }
}
