/** What a rank sends during the sweep over a dimension is what the receiver's poles need, and the sweep of one
    rank. */
module GridExchange {
  import opened Arithmetic
  import opened Dyadic
  import opened Poles
  import opened Tensor
  import opened GridSweep
  import opened GridTransform
  import opened PoleSweep
  import opened DistributedGrid
  import opened NoBoundarySweep
  import opened InnerGrid

  /** The parts of two ranks on the same pole of dimension d: they differ in that dimension only. */
  ghost predicate OnSamePole(global: Index, e1: Index, l1: Index, e2: Index, l2: Index, d: nat) {
    && IsInside(global, e1, l1) && IsInside(global, e2, l2) && d < |global|
    && forall j :: 0 <= j < |global| && j != d ==> e1[j] == e2[j] && l1[j] == l2[j]
  }

  lemma {:induction false} SameLowStrides(e1: Index, e2: Index, d: nat, k: nat)
    requires |e1| == |e2| && k <= d < |e1| && forall j :: 0 <= j < |e1| && j != d ==> e1[j] == e2[j]
    ensures Stride(e1, k) == Stride(e2, k)
  {
    if k > 0 {
      SameLowStrides(e1, e2, d, k - 1);
    }
  }

  /** Product of the extents strictly between d and k. */
  function Between(extents: Index, d: nat, k: nat): int
    requires d < k <= |extents|
  {
    if k == d + 1 then 1 else Between(extents, d, k - 1) * extents[k - 1]
  }

  lemma {:induction false} StrideSplits(extents: Index, d: nat, k: nat)
    requires d < k <= |extents| && Positive(extents)
    ensures Between(extents, d, k) > 0
    ensures Stride(extents, k) == Stride(extents, d) * (extents[d] * Between(extents, d, k))
  {
    if k > d + 1 {
      StrideSplits(extents, d, k - 1);
      MulAtLeast(Between(extents, d, k - 1), extents[k - 1]);
      assert Stride(extents, d) * (extents[d] * Between(extents, d, k - 1)) * extents[k - 1]
             == Stride(extents, d) * (extents[d] * (Between(extents, d, k - 1) * extents[k - 1]));
    }
  }

  lemma {:induction false} SameBetween(e1: Index, e2: Index, d: nat, k: nat)
    requires |e1| == |e2| && d < k <= |e1| && forall j :: 0 <= j < |e1| && j != d ==> e1[j] == e2[j]
    ensures Between(e1, d, k) == Between(e2, d, k)
  {
    if k > d + 1 {
      SameBetween(e1, e2, d, k - 1);
    }
  }

  /** The coordinates of the first cell of pole n: below d those of n % stride, in d zero, above d those
      of n / stride. */
  lemma StartDigits(extents: Index, d: nat, n: int, j: nat)
    requires Positive(extents) && d < |extents| && j < |extents|
    ensures Stride(extents, d) > 0 && Stride(extents, j) > 0
    ensures j < d ==> Digit(extents, LocalStart(extents, d, n), j)
                      == (n % Stride(extents, d) / Stride(extents, j)) % extents[j]
    ensures j == d ==> Digit(extents, LocalStart(extents, d, n), j) == 0
    ensures j > d ==> Between(extents, d, j) > 0
                      && Digit(extents, LocalStart(extents, d, n), j)
                        == (n / Stride(extents, d) / Between(extents, d, j)) % extents[j]
  {
    StridePositive(extents, d);
    StridePositive(extents, j);
    var s, m := Stride(extents, d), extents[d];
    var low, h := n % s, n / s;
    if j < d {
      var f := StrideFactor(extents, j, d);
      LowDigit(Stride(extents, j), extents[j], f, low, m * h);
    } else if j == d {
      DivModOf(s, m * h, low);
      DivModOf(m, h, 0);
    } else {
      StrideSplits(extents, d, j);
      HighDigit(s, m, Between(extents, d, j), low, h);
    }
  }

  lemma LowDigit(a: int, e: int, f: int, low: int, c: int)
    requires a > 0 && e > 0
    ensures ((low + a * (e * f) * c) / a) % e == (low / a) % e
  {
    assert a * (e * f) * c == a * (e * (f * c));
    ModShift(a, low, e * (f * c));
    ModShift(e, low / a, f * c);
  }

  lemma HighDigit(s: int, m: int, f: int, low: int, h: int)
    requires s > 0 && m > 0 && f > 0 && 0 <= low < s
    ensures s * (m * f) > 0 && (low + s * (m * h)) / (s * (m * f)) == h / f
  {
    MulAtLeast(m, f);
    DivDiv(s, m * f, low + s * (m * h));
    DivModOf(s, m * h, low);
    DivDiv(m, f, m * h);
    DivModOf(m, h, 0);
  }

  /** Pole number n starts at the same coordinates in the part of either rank. */
  lemma StartsAgree(global: Index, e1: Index, l1: Index, e2: Index, l2: Index, d: nat, n: int)
    requires OnSamePole(global, e1, l1, e2, l2, d)
    requires 0 <= LocalStart(e1, d, n) < Stride(e1, |global|) && 0 <= LocalStart(e2, d, n) < Stride(e2, |global|)
    ensures Vector(e1, LocalStart(e1, d, n), |global|) == Vector(e2, LocalStart(e2, d, n), |global|)
  {
    var k := |global|;
    var v1, v2 := Vector(e1, LocalStart(e1, d, n), k), Vector(e2, LocalStart(e2, d, n), k);
    IndexBijection(e1, [], LocalStart(e1, d, n));
    IndexBijection(e2, [], LocalStart(e2, d, n));
    forall j | 0 <= j < k
      ensures v1[j] == v2[j]
    {
      DigitOfLinear(e1, v1, k, j);
      DigitOfLinear(e2, v2, k, j);
      SameLowStrides(e1, e2, d, d);
      StartDigits(e1, d, n, j);
      StartDigits(e2, d, n, j);
      if j < d {
        SameLowStrides(e1, e2, d, j);
      } else if j > d {
        SameBetween(e1, e2, d, j);
      }
    }
  }

  lemma StartMove(global: Index, extents: Index, lower: Index, d: nat, n: int, x: int)
    requires IsInside(global, extents, lower) && d < |global| && 0 <= x < global[d]
    requires 0 <= LocalStart(extents, d, n) < Stride(extents, |global|)
    ensures BoxAxis(global, d).Valid()
    ensures var v := Vector(extents, LocalStart(extents, d, n), |global|);
            BoxAxis(global, d).Move(GlobalStart(global, extents, lower, d, n), x)
              == Linear(global, Shift(v, lower)[d := x], |global|)
  {
    var v := Vector(extents, LocalStart(extents, d, n), |global|);
    IndexBijection(extents, [], LocalStart(extents, d, n));
    GlobalVector(global, extents, lower, v);
    MoveChangesDigit(global, GlobalStart(global, extents, lower, d, n), d, x);
  }

  /** The two ranks see the same global pole under the same number. */
  lemma SamePoleNumber(global: Index, e1: Index, l1: Index, e2: Index, l2: Index, d: nat, n: int, x: int)
    requires OnSamePole(global, e1, l1, e2, l2, d) && 0 <= x < global[d]
    requires 0 <= LocalStart(e1, d, n) < Stride(e1, |global|) && 0 <= LocalStart(e2, d, n) < Stride(e2, |global|)
    ensures BoxAxis(global, d).Valid()
    ensures BoxAxis(global, d).Move(GlobalStart(global, e1, l1, d, n), x)
            == BoxAxis(global, d).Move(GlobalStart(global, e2, l2, d, n), x)
  {
    StartsAgree(global, e1, l1, e2, l2, d, n);
    StartMove(global, e1, l1, d, n, x);
    StartMove(global, e2, l2, d, n, x);
    var v := Vector(e1, LocalStart(e1, d, n), |global|);
    assert Shift(v, l1)[d := x] == Shift(v, l2)[d := x];
  }

  /** The n-th value that the owner of index x sends for x is the value at x of the receiver's n-th pole. */
  lemma SentValueIsReceived(dim: Dim, global: Index, e1: Index, l1: Index, e2: Index, l2: Index, d: nat, count: int,
                            h1: int, h2: int, sent: seq<real>, u: seq<real>, n: int, x: int)
    requires OnSamePole(global, e1, l1, e2, l2, d) && dim.axis == BoxAxis(global, d) && dim.Valid(|u|)
    requires Holds(global, e1, l1, sent, u) && PoleCount(e1, d, h1, count) && PoleCount(e2, d, h2, count)
    requires 0 <= n < count && l1[d] <= x < l1[d] + e1[d]
    ensures var l := LocalStart(e1, d, n) + Stride(e1, d) * (x - l1[d]);
            0 <= l < |sent| && 0 <= GlobalStart(global, e2, l2, d, n) < |u| && 0 <= dim.Point(x) <= Pow2(dim.lmax)
            && sent[l] == PoleAt(dim, u, GlobalStart(global, e2, l2, d, n))[dim.Point(x)]
  {
    CellOfPole(global, e1, l1, d, h1, count, n, x - l1[d]);
    CellOfPole(global, e1, l1, d, h1, count, n, 0);
    CellOfPole(global, e2, l2, d, h2, count, n, 0);
    StartBounds(e1, d, n);
    StartBounds(e2, d, n);
    SamePoleNumber(global, e1, l1, e2, l2, d, n, x);
    PoleAtCell(dim, u, GlobalStart(global, e2, l2, d, n), x);
  }

  lemma StartBounds(extents: Index, d: nat, n: int)
    requires Positive(extents) && d < |extents|
    ensures LocalStart(extents, d, n) + Stride(extents, d) * 0 == LocalStart(extents, d, n)
  {
  }

  /** The full pole through the first cell of local pole n. */
  ghost function PoleThrough(dim: Dim, global: Index, extents: Index, lower: Index, d: nat, u: seq<real>,
                             n: int): seq<real>
    requires IsInside(global, extents, lower) && d < |global| && dim.Valid(|u|)
  {
    var g := GlobalStart(global, extents, lower, d, n);
    if 0 <= g < |u| then PoleAt(dim, u, g) else []
  }

  /** The full poles of dimension d through a part. */
  ghost function PolesThrough(dim: Dim, global: Index, extents: Index, lower: Index, d: nat, count: nat, u: seq<real>)
    : (wholes: seq<seq<real>>)
    requires IsInside(global, extents, lower) && d < |global| && dim.Valid(|u|)
    ensures |wholes| == count
  {
    seq(count, n requires 0 <= n < count => PoleThrough(dim, global, extents, lower, d, u, n))
  }

  lemma PolesThroughAreFull(dim: Dim, global: Index, extents: Index, lower: Index, d: nat, higher: int, count: nat,
                            u: seq<real>)
    requires IsInside(global, extents, lower) && d < |global| && |u| == Stride(global, |global|)
    requires dim.Valid(|u|) && PoleCount(extents, d, higher, count)
    ensures AreFullPoles(dim, global, extents, lower, d, u, PolesThrough(dim, global, extents, lower, d, count, u))
  {
    forall n | 0 <= n < count
      ensures 0 <= GlobalStart(global, extents, lower, d, n) < |u|
    {
      CellOfPole(global, extents, lower, d, higher, count, n, 0);
    }
  }

  /** Number of poles of dimension d that lie in higher dimensions. */
  ghost function HigherPoles(extents: Index, d: nat): (higher: int)
    requires Positive(extents) && d < |extents|
    ensures higher > 0 && PoleCount(extents, d, higher, higher * Stride(extents, d)) && higher * Stride(extents, d) > 0
  {
    StridePositive(extents, d);
    StrideSplits(extents, d, |extents|);
    MulAtLeast(Between(extents, d, |extents|), Stride(extents, d));
    Between(extents, d, |extents|)
  }

  lemma SameHigherPoles(e1: Index, e2: Index, d: nat)
    requires Positive(e1) && Positive(e2) && d < |e1| == |e2| && forall j :: 0 <= j < |e1| && j != d ==> e1[j] == e2[j]
    ensures HigherPoles(e1, d) == HigherPoles(e2, d) && Stride(e1, d) == Stride(e2, d)
  {
    SameLowStrides(e1, e2, d, d);
    SameBetween(e1, e2, d, |e1|);
  }

  /** The remote values that a rank has received for dimension d are those of the grid as it is after
      the sweeps over the earlier dimensions. */
  ghost predicate ReceivedFor(dims: seq<Dim>, p: Pole, me: nat, global: Index, extents: Index, lower: Index, d: nat,
                              forward: bool, remote: seq<RemoteSlice>, u: seq<real>)
    requires IsInside(global, extents, lower) && d < |dims| == |global| && IsGrid(dims, |u|)
             && |u| == Stride(global, |global|)
    requires DimFits(dims[d], p, me, global, extents, lower, d)
  {
    var count, v := HigherPoles(extents, d) * Stride(extents, d), Swept(dims, forward, 0, d, u);
    if dims[d].boundary > 0 then ReceivedPoles(dims[d], p, me, global, extents, lower, d, forward, remote, count, v)
    else ReceivedInner(dims[d], p, me, global, extents, lower, d, forward, remote, count, v)
  }

  ghost predicate ReceivedPoles(dim: Dim, p: Pole, me: nat, global: Index, extents: Index, lower: Index, d: nat,
                                forward: bool, remote: seq<RemoteSlice>, count: nat, v: seq<real>)
    requires IsInside(global, extents, lower) && d < |global| && |v| == Stride(global, |global|) && dim.boundary > 0
    requires DimFits(dim, p, me, global, extents, lower, d) && count == HigherPoles(extents, d) * Stride(extents, d)
  {
    var wholes := PolesThrough(dim, global, extents, lower, d, count, v);
    PolesThroughAreFull(dim, global, extents, lower, d, HigherPoles(extents, d), count, v);
    FullPolesAreWhole(dim, p, me, global, extents, lower, d, v, wholes);
    forall n :: 0 <= n < |wholes| ==> RemoteComplete(p, me, dim.lmin, TransformOf(dim, forward), remote, n, wholes[n])
  }

  ghost predicate ReceivedInner(dim: Dim, p: Pole, me: nat, global: Index, extents: Index, lower: Index, d: nat,
                                forward: bool, remote: seq<RemoteSlice>, count: nat, v: seq<real>)
    requires IsInside(global, extents, lower) && d < |global| && |v| == Stride(global, |global|) && dim.boundary == 0
    requires DimFits(dim, p, me, global, extents, lower, d) && count == HigherPoles(extents, d) * Stride(extents, d)
  {
    var wholes := StoredPoles(dim, global, extents, lower, d, count, v);
    StoredPolesAreInner(dim, p, me, global, extents, lower, d, HigherPoles(extents, d), count, v);
    forall n :: 0 <= n < |wholes| ==> RemoteInner(p, me, forward, remote, n, wholes[n])
  }

  /** What one rank does to sweep a selected dimension: it goes on to its part of the grid after the sweep. */
  method SweepActive(dims: seq<Dim>, p: Pole, me: nat, ghost global: Index, extents: Index, ghost lower: Index, d: nat,
                     ldata: array<real>, remote: seq<RemoteSlice>, forward: bool, ghost u: seq<real>)
    requires IsInside(global, extents, lower) && d < |dims| == |global| && IsGrid(dims, |u|)
             && |u| == Stride(global, |global|)
    requires DimFits(dims[d], p, me, global, extents, lower, d) && dims[d].active && dims[d].boundary > 0
    requires Holds(global, extents, lower, ldata[..], Swept(dims, forward, 0, d, u))
    requires ReceivedFor(dims, p, me, global, extents, lower, d, forward, remote, u)
    modifies ldata
    ensures Holds(global, extents, lower, ldata[..], Swept(dims, forward, 0, d + 1, u))
  {
    ghost var v := Swept(dims, forward, 0, d, u);
    var stride := Stride(extents, d);
    StridePositive(extents, d);
    ghost var h := HigherPoles(extents, d);
    HigherFromLength(stride, extents[d], h, ldata.Length);
    var higher := ldata.Length / (stride * extents[d]);
    ghost var wholes := PolesThrough(dims[d], global, extents, lower, d, h * stride, v);
    PolesThroughAreFull(dims[d], global, extents, lower, d, h, h * stride, v);
    FullPolesAreWhole(dims[d], p, me, global, extents, lower, d, v, wholes);
    SweepDimension(dims[d], p, me, global, extents, lower, d, ldata, remote, forward, v, wholes, stride, higher);
  }

  method SweepActiveInner(dims: seq<Dim>, p: Pole, me: nat, ghost global: Index, extents: Index, ghost lower: Index,
                          d: nat, ldata: array<real>, remote: seq<RemoteSlice>, forward: bool, ghost u: seq<real>)
    requires IsInside(global, extents, lower) && d < |dims| == |global| && IsGrid(dims, |u|)
             && |u| == Stride(global, |global|)
    requires DimFits(dims[d], p, me, global, extents, lower, d) && dims[d].active && dims[d].boundary == 0
    requires Holds(global, extents, lower, ldata[..], Swept(dims, forward, 0, d, u))
    requires ReceivedFor(dims, p, me, global, extents, lower, d, forward, remote, u)
    modifies ldata
    ensures Holds(global, extents, lower, ldata[..], Swept(dims, forward, 0, d + 1, u))
  {
    ghost var v := Swept(dims, forward, 0, d, u);
    var stride := Stride(extents, d);
    StridePositive(extents, d);
    ghost var h := HigherPoles(extents, d);
    PoleNumberFromLength(stride, extents[d], h, ldata.Length);
    var nbrOfPoles := ldata.Length / extents[d];
    ghost var wholes := StoredPoles(dims[d], global, extents, lower, d, h * stride, v);
    StoredPolesAreInner(dims[d], p, me, global, extents, lower, d, h, h * stride, v);
    SweepInnerDimension(dims[d], p, me, global, extents, lower, d, ldata, remote, forward, v, wholes, stride, h,
                        nbrOfPoles);
  }

  lemma PoleNumberFromLength(stride: int, extent: int, higher: int, length: int)
    requires stride > 0 && extent > 0 && length == stride * (extent * higher)
    ensures length / extent == higher * stride
  {
    assert length == extent * (higher * stride);
    DivModOf(extent, higher * stride, 0);
  }

  lemma HigherFromLength(stride: int, extent: int, higher: int, length: int)
    requires stride > 0 && extent > 0 && length == stride * (extent * higher)
    ensures stride * extent > 0 && length / (stride * extent) == higher
  {
    MulAtLeast(stride, extent);
    assert length == stride * extent * higher;
    DivModOf(stride * extent, higher, 0);
  }
}
