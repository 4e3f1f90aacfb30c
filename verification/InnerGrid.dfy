/** One dimension without boundary points of a distributed grid: sweeping it turns the part of a rank into its
    part of the swept grid. */
module InnerGrid {
  import opened Poles
  import opened Tensor
  import opened GridAxes
  import opened GridSweep
  import opened GridTransform
  import opened PoleSweep
  import opened PoleLoops
  import opened DistributedGrid
  import opened NoBoundary
  import opened NoBoundaryKernels
  import opened NoBoundaryTransform
  import opened NoBoundarySweep

  /** The stored points of the full pole through the first cell of local pole n. */
  ghost function StoredThrough(dim: Dim, global: Index, extents: Index, lower: Index, d: nat, u: seq<real>,
                               n: int): seq<real>
    requires IsInside(global, extents, lower) && d < |global| && dim.Valid(|u|)
  {
    var g := GlobalStart(global, extents, lower, d, n);
    if 0 <= g < |u| then StoredPole(dim.axis, u, g) else []
  }

  ghost function StoredPoles(dim: Dim, global: Index, extents: Index, lower: Index, d: nat, count: nat,
                             u: seq<real>): (wholes: seq<seq<real>>)
    requires IsInside(global, extents, lower) && d < |global| && dim.Valid(|u|)
    ensures |wholes| == count
  {
    seq(count, n requires 0 <= n < count => StoredThrough(dim, global, extents, lower, d, u, n))
  }

  ghost predicate InnerFits(dim: Dim, p: Pole, me: nat, global: Index, extents: Index, lower: Index, d: nat)
    requires IsInside(global, extents, lower) && d < |global|
  {
    dim.boundary == 0 && DimFits(dim, p, me, global, extents, lower, d)
  }

  /** Stored point lower[d] + i of the full pole is local cell i of the local pole. */
  lemma StoredCell(dim: Dim, p: Pole, me: nat, global: Index, extents: Index, lower: Index, d: nat, higher: int,
                   count: int, u: seq<real>, n: int, i: int)
    requires IsInside(global, extents, lower) && d < |global| && InnerFits(dim, p, me, global, extents, lower, d)
    requires |u| == Stride(global, |global|) && PoleCount(extents, d, higher, count) && 0 <= n < count
             && 0 <= i < extents[d]
    ensures var l := LocalStart(extents, d, n) + Stride(extents, d) * i;
            var g, w := GlobalOf(global, extents, lower, l), StoredThrough(dim, global, extents, lower, d, u, n);
            0 <= l < Stride(extents, |global|) && 0 <= g < |u| && 0 <= lower[d] + i < |w| == dim.axis.count
              && w[lower[d] + i] == u[g]
  {
    hide LocalStart, GlobalStart, GlobalOf, Stride, PoleCount;
    CellOfPole(global, extents, lower, d, higher, count, n, i);
    dim.axis.MoveIsExact(GlobalStart(global, extents, lower, d, n), lower[d] + i, |u|);
  }

  lemma StoredPolesAreInner(dim: Dim, p: Pole, me: nat, global: Index, extents: Index, lower: Index, d: nat,
                            higher: int, count: nat, u: seq<real>)
    requires IsInside(global, extents, lower) && d < |global| && InnerFits(dim, p, me, global, extents, lower, d)
    requires |u| == Stride(global, |global|) && PoleCount(extents, d, higher, count)
    ensures IsInner(p) && AreInnerPoles(p, me, StoredPoles(dim, global, extents, lower, d, count, u))
    ensures me < |p.cuts| && extents[d] == p.Last(me) - p.First(me) + 1 && p.First(me) == lower[d]
  {
    var wholes := StoredPoles(dim, global, extents, lower, d, count, u);
    forall n | 0 <= n < |wholes|
      ensures IsInnerPole(p.lmax, wholes[n])
    {
      StoredCell(dim, p, me, global, extents, lower, d, higher, count, u, n, 0);
    }
  }

  /** Before the sweep the local cells hold their slices of the full poles. */
  lemma InnerBefore(dim: Dim, p: Pole, me: nat, global: Index, extents: Index, lower: Index, d: nat, higher: int,
                    count: nat, data: seq<real>, u: seq<real>)
    requires IsInside(global, extents, lower) && d < |global| && InnerFits(dim, p, me, global, extents, lower, d)
    requires Holds(global, extents, lower, data, u) && PoleCount(extents, d, higher, count) && Stride(extents, d) > 0
    ensures AreInnerPoles(p, me, StoredPoles(dim, global, extents, lower, d, count, u))
    ensures PolesHold(data, Stride(extents, d), extents[d],
                      LocalSlices(p, me, StoredPoles(dim, global, extents, lower, d, count, u)))
  {
    StoredPolesAreInner(dim, p, me, global, extents, lower, d, higher, count, u);
    var wholes := StoredPoles(dim, global, extents, lower, d, count, u);
    var slices := LocalSlices(p, me, wholes);
    forall n | 0 <= n < |slices|
      ensures PoleHolds(data, PoleStart(Stride(extents, d), extents[d], n), Stride(extents, d), slices[n])
    {
      SliceBefore(dim, p, me, global, extents, lower, d, higher, count, data, u, n, LocalStart(extents, d, n),
                  Stride(extents, d), slices[n]);
    }
  }

  lemma CellBeforeInner(dim: Dim, p: Pole, me: nat, global: Index, extents: Index, lower: Index, d: nat, higher: int,
                        count: nat, data: seq<real>, u: seq<real>, n: int, i: int, l: int)
    requires IsInside(global, extents, lower) && d < |global| && InnerFits(dim, p, me, global, extents, lower, d)
    requires Holds(global, extents, lower, data, u) && PoleCount(extents, d, higher, count) && 0 <= n < count
             && 0 <= i < extents[d]
    requires l == LocalStart(extents, d, n) + Stride(extents, d) * i
    ensures var w := StoredThrough(dim, global, extents, lower, d, u, n);
            0 <= l < |data| && 0 <= lower[d] + i < |w| && data[l] == w[lower[d] + i]
  {
    StoredCell(dim, p, me, global, extents, lower, d, higher, count, u, n, i);
    assert data[l] == u[GlobalOf(global, extents, lower, l)];
  }

  lemma SliceValueBefore(dim: Dim, p: Pole, me: nat, global: Index, extents: Index, lower: Index, d: nat, higher: int,
                         count: nat, data: seq<real>, u: seq<real>, n: int, start: int, stride: int, slice: seq<real>,
                         i: int)
    requires IsInside(global, extents, lower) && d < |global| && InnerFits(dim, p, me, global, extents, lower, d)
    requires Holds(global, extents, lower, data, u) && PoleCount(extents, d, higher, count) && 0 <= n < count
             && |slice| == extents[d]
    requires start == LocalStart(extents, d, n) && stride == Stride(extents, d)
    requires var w := StoredThrough(dim, global, extents, lower, d, u, n);
             lower[d] + |slice| <= |w| && slice == w[lower[d]..lower[d] + |slice|]
    requires 0 <= i < |slice|
    ensures 0 <= start + stride * i < |data| && data[start + stride * i] == slice[i]
  {
    CellBeforeInner(dim, p, me, global, extents, lower, d, higher, count, data, u, n, i, start + stride * i);
    SliceAt(StoredThrough(dim, global, extents, lower, d, u, n), lower[d], slice, i);
  }

  lemma SliceBefore(dim: Dim, p: Pole, me: nat, global: Index, extents: Index, lower: Index, d: nat, higher: int,
                    count: nat, data: seq<real>, u: seq<real>, n: int, start: int, stride: int, slice: seq<real>)
    requires IsInside(global, extents, lower) && d < |global| && InnerFits(dim, p, me, global, extents, lower, d)
    requires Holds(global, extents, lower, data, u) && PoleCount(extents, d, higher, count) && 0 <= n < count
             && |slice| == extents[d]
    requires start == LocalStart(extents, d, n) && stride == Stride(extents, d)
    requires var w := StoredThrough(dim, global, extents, lower, d, u, n);
             lower[d] + |slice| <= |w| && slice == w[lower[d]..lower[d] + |slice|]
    ensures PoleHolds(data, start, stride, slice)
  {
    hide LocalStart, Stride, StoredThrough, PoleCount, Holds;
    forall i | 0 <= i < |slice|
      ensures 0 <= start + stride * i < |data| && data[start + stride * i] == slice[i]
    {
      SliceValueBefore(dim, p, me, global, extents, lower, d, higher, count, data, u, n, start, stride, slice, i);
    }
  }

  /** A pole without boundary points, with its two zeros. */
  lemma InnerPoleIsBordered(dim: Dim, u: seq<real>, g: int)
    requires dim.Valid(|u|) && dim.boundary == 0 && 0 <= g < |u|
    ensures PoleAt(dim, u, g) == Bordered(StoredPole(dim.axis, u, g))
  {
  }

  /** What the sweep makes of a stored cell. */
  lemma TransformedCell(dim: Dim, forward: bool, u: seq<real>, g: int, c: int)
    requires dim.Valid(|u|) && dim.boundary == 0 && dim.active && 0 <= g < |u| && 0 <= c < dim.axis.count
    ensures 0 <= dim.axis.Move(g, c) < |u|
    ensures AxisTransform(dim, forward, u)[dim.axis.Move(g, c)]
            == InnerTransformed(dim.lmax, forward, StoredPole(dim.axis, u, g))[c]
  {
    AxisTransformsPoles(dim, forward, u, g);
    InnerPoleIsBordered(dim, u, g);
    PoleAtCell(dim, AxisTransform(dim, forward, u), g, c);
  }

  lemma SweptInnerCell(dim: Dim, p: Pole, me: nat, global: Index, extents: Index, lower: Index, d: nat, higher: int,
                       count: nat, u: seq<real>, forward: bool, n: int, i: int, l: int)
    requires IsInside(global, extents, lower) && d < |global| && InnerFits(dim, p, me, global, extents, lower, d)
             && dim.active
    requires |u| == Stride(global, |global|) && PoleCount(extents, d, higher, count) && 0 <= n < count
             && 0 <= i < extents[d]
    requires l == LocalStart(extents, d, n) + Stride(extents, d) * i
    ensures var g, w := GlobalOf(global, extents, lower, l), StoredThrough(dim, global, extents, lower, d, u, n);
            0 <= g < |u| && IsInnerPole(dim.lmax, w) && 0 <= lower[d] + i < |w|
            && AxisTransform(dim, forward, u)[g] == InnerTransformed(dim.lmax, forward, w)[lower[d] + i]
  {
    hide LocalStart, GlobalStart, GlobalOf, Stride, PoleCount, AxisTransform, InnerTransformed;
    CellOfPole(global, extents, lower, d, higher, count, n, i);
    TransformedCell(dim, forward, u, GlobalStart(global, extents, lower, d, n), lower[d] + i);
  }

  lemma CellAfterInner(dim: Dim, p: Pole, me: nat, global: Index, extents: Index, lower: Index, d: nat, higher: int,
                       count: nat, data: seq<real>, u: seq<real>, forward: bool, n: int, i: int, l: int,
                       slice: seq<real>)
    requires IsInside(global, extents, lower) && d < |global| && InnerFits(dim, p, me, global, extents, lower, d)
             && dim.active
    requires |u| == Stride(global, |global|) && PoleCount(extents, d, higher, count) && 0 <= n < count
             && 0 <= i < extents[d]
    requires PoleHolds(data, LocalStart(extents, d, n), Stride(extents, d), slice) && |slice| == extents[d]
    requires l == LocalStart(extents, d, n) + Stride(extents, d) * i
    requires var w := StoredThrough(dim, global, extents, lower, d, u, n);
             IsInnerPole(dim.lmax, w) && lower[d] + |slice| <= |w|
             && slice == InnerTransformed(dim.lmax, forward, w)[lower[d]..lower[d] + |slice|]
    ensures var g := GlobalOf(global, extents, lower, l);
            0 <= l < |data| && 0 <= g < |u| && data[l] == AxisTransform(dim, forward, u)[g]
  {
    hide LocalStart, Stride, GlobalOf, PoleCount, StoredThrough, AxisTransform, InnerTransformed;
    CellHeld(data, LocalStart(extents, d, n), Stride(extents, d), slice, i);
    SweptInnerCell(dim, p, me, global, extents, lower, d, higher, count, u, forward, n, i, l);
    SliceAt(InnerTransformed(dim.lmax, forward, StoredThrough(dim, global, extents, lower, d, u, n)), lower[d], slice,
            i);
  }

  lemma SliceOf(p: Pole, me: nat, forward: bool, wholes: seq<seq<real>>, n: int)
    requires IsInner(p) && me < |p.cuts| && AreInnerPoles(p, me, wholes) && 0 <= n < |wholes|
    ensures LocalSlices(p, me, AllTransformed(p, me, forward, wholes))[n]
            == InnerTransformed(p.lmax, forward, wholes[n])[p.First(me)..p.Last(me) + 1]
  {
  }

  /** After the sweep the local cells hold the part of the swept grid. */
  lemma InnerAfter(dim: Dim, p: Pole, me: nat, global: Index, extents: Index, lower: Index, d: nat, higher: int,
                   count: nat, data: seq<real>, u: seq<real>, forward: bool, wholes: seq<seq<real>>)
    requires IsInside(global, extents, lower) && d < |global| && InnerFits(dim, p, me, global, extents, lower, d)
             && dim.active
    requires |u| == Stride(global, |global|) && |data| == Stride(extents, |global|)
             && PoleCount(extents, d, higher, count) && Stride(extents, d) > 0
    requires IsInner(p) && wholes == StoredPoles(dim, global, extents, lower, d, count, u)
             && AreInnerPoles(p, me, wholes)
    requires PolesHold(data, Stride(extents, d), extents[d], LocalSlices(p, me, AllTransformed(p, me, forward, wholes)))
    ensures Holds(global, extents, lower, data, AxisTransform(dim, forward, u))
  {
    forall l | 0 <= l < |data|
      ensures var g := GlobalOf(global, extents, lower, l);
              0 <= g < |u| && data[l] == AxisTransform(dim, forward, u)[g]
    {
      var n, i := PoleOfCell(extents, d, higher, count, l);
      var slice := LocalSlices(p, me, AllTransformed(p, me, forward, wholes))[n];
      SliceOf(p, me, forward, wholes, n);
      CellAfterInner(dim, p, me, global, extents, lower, d, higher, count, data, u, forward, n, i, l, slice);
    }
  }

  /** A rank's sweep over a dimension without boundary points. */
  method SweepInnerDimension(dim: Dim, p: Pole, me: nat, ghost global: Index, extents: Index, ghost lower: Index,
                             d: nat, ldata: array<real>, remote: seq<RemoteSlice>, forward: bool, ghost u: seq<real>,
                             ghost wholes: seq<seq<real>>, stride: int, ghost higher: int, nbrOfPoles: nat)
    requires IsInside(global, extents, lower) && d < |global| && InnerFits(dim, p, me, global, extents, lower, d)
             && dim.active
    requires Holds(global, extents, lower, ldata[..], u) && stride == Stride(extents, d) && stride > 0
    requires PoleCount(extents, d, higher, nbrOfPoles)
             && wholes == StoredPoles(dim, global, extents, lower, d, nbrOfPoles, u)
    requires AreInnerPoles(p, me, wholes)
             && forall n :: 0 <= n < |wholes| ==> RemoteInner(p, me, forward, remote, n, wholes[n])
    modifies ldata
    ensures Holds(global, extents, lower, ldata[..], AxisTransform(dim, forward, u))
  {
    hide *;
    HeldSizes(global, extents, lower, ldata[..], u);
    StoredPolesAreInner(dim, p, me, global, extents, lower, d, higher, nbrOfPoles, u);
    InnerBefore(dim, p, me, global, extents, lower, d, higher, nbrOfPoles, ldata[..], u);
    SweepInnerPoles(p, me, forward, ldata, stride, remote, nbrOfPoles, wholes);
    InnerAfter(dim, p, me, global, extents, lower, d, higher, nbrOfPoles, ldata[..], u, forward, wholes);
  }
}
