/** The exchange delivers what the transform needs: the slices that the owners send for the exchanged indices are
    the values of the receiver's full poles. */
module Delivery {
  import opened Dyadic
  import opened Poles
  import opened SuccessorSearch
  import opened LocalTransform
  import opened PoleSweep
  import opened Tensor
  import opened GridAxes
  import opened GridSweep
  import opened GridTransform
  import opened DistributedGrid
  import opened NoBoundaryTransform
  import opened NoBoundarySweep
  import opened InnerGrid
  import opened GridExchange

  /** What one rank on the pole stores. */
  datatype Share = Share(extents: Index, lower: Index, data: seq<real>)

  /** The ranks on a pole of dimension d, which together hold their parts of the grid function v. */
  ghost predicate AreRanksOnPole(dim: Dim, p: Pole, global: Index, d: nat, shares: seq<Share>, v: seq<real>) {
    && d < |global| && |shares| == |p.cuts|
    && (forall q {:trigger shares[q]} :: 0 <= q < |shares| ==> HoldsShare(dim, p, global, d, shares[q], q, v))
    && (forall q, r {:trigger shares[q], shares[r]} :: 0 <= q < |shares| && 0 <= r < |shares| ==>
          OnSamePole(global, shares[q].extents, shares[q].lower, shares[r].extents, shares[r].lower, d))
  }

  ghost predicate HoldsShare(dim: Dim, p: Pole, global: Index, d: nat, share: Share, q: nat, v: seq<real>)
    requires d < |global|
  {
    && IsInside(global, share.extents, share.lower)
    && DimFits(dim, p, q, global, share.extents, share.lower, d)
    && Holds(global, share.extents, share.lower, share.data, v)
  }

  /** The value of the n-th pole at the i-th local index. */
  ghost predicate IsCell(share: Share, d: nat, n: int, i: int, value: real)
    requires Positive(share.extents) && d < |share.extents|
  {
    var l := LocalStart(share.extents, d, n) + Stride(share.extents, d) * i;
    0 <= l < |share.data| && value == share.data[l]
  }

  /** The slice for one index: one value for every pole, in the order of the poles. */
  ghost predicate IsSliceOf(share: Share, d: nat, slice: RemoteSlice) {
    && Positive(share.extents) && d < |share.extents| == |share.lower|
    && share.lower[d] <= slice.key < share.lower[d] + share.extents[d]
    && |slice.data| == HigherPoles(share.extents, d) * Stride(share.extents, d)
    && forall n {:trigger slice.data[n]} :: 0 <= n < |slice.data| ==>
         IsCell(share, d, n, slice.key - share.lower[d], slice.data[n])
  }

  /** A slice of the part of another rank. */
  ghost predicate IsFromOther(shares: seq<Share>, me: nat, d: nat, slice: RemoteSlice) {
    exists q: nat :: q < |shares| && q != me && IsSliceOf(shares[q], d, slice)
  }

  /** Rank me has received slices of other ranks, among them one for every index of the receive sets. */
  ghost predicate Delivered(p: Pole, me: nat, lmin: nat, op: Transform, d: nat, shares: seq<Share>,
                            remote: seq<RemoteSlice>)
    requires p.Valid() && |shares| == |p.cuts|
  {
    && (forall i {:trigger remote[i]} :: 0 <= i < |remote| ==> IsFromOther(shares, me, d, remote[i]))
    && (forall q, x :: 0 <= q < |p.cuts| && q != me && x in Required(p, lmin, op, q, me) ==>
          exists i :: 0 <= i < |remote| && remote[i].key == x)
  }

  lemma SliceValue(dim: Dim, global: Index, d: nat, from: Share, to: Share, higher: int, v: seq<real>,
                   slice: RemoteSlice, n: int)
    requires OnSamePole(global, from.extents, from.lower, to.extents, to.lower, d) && dim.axis == BoxAxis(global, d)
             && dim.Valid(|v|)
    requires Holds(global, from.extents, from.lower, from.data, v) && IsSliceOf(from, d, slice) && 0 <= n < |slice.data|
    requires PoleCount(from.extents, d, higher, |slice.data|) && PoleCount(to.extents, d, higher, |slice.data|)
    ensures var g := GlobalStart(global, to.extents, to.lower, d, n);
            0 <= g < |v| && 0 <= dim.Point(slice.key) <= Pow2(dim.lmax)
              && slice.data[n] == PoleAt(dim, v, g)[dim.Point(slice.key)]
  {
    assert IsCell(from, d, n, slice.key - from.lower[d], slice.data[n]);
    SentValueIsReceived(dim, global, from.extents, from.lower, to.extents, to.lower, d, |slice.data|, higher, higher,
                        from.data, v, n, slice.key);
  }

  lemma KeyIsOwned(dim: Dim, p: Pole, global: Index, d: nat, share: Share, q: nat, v: seq<real>, slice: RemoteSlice)
    requires d < |global| && p.Valid() && q < |p.cuts| && HoldsShare(dim, p, global, d, share, q, v)
             && IsSliceOf(share, d, slice)
    ensures p.Owns(q, slice.key) && p.InGrid(slice.key)
  {
    OwnershipIsExclusive(p, q, q, slice.key);
  }

  /** Every delivered value is the value of the receiver's full pole. */
  lemma DeliveredValue(dim: Dim, p: Pole, me: nat, global: Index, d: nat, shares: seq<Share>, v: seq<real>, q: nat,
                       slice: RemoteSlice, n: int)
    requires p.Valid() && AreRanksOnPole(dim, p, global, d, shares, v) && me < |shares| && q < |shares|
             && IsSliceOf(shares[q], d, slice)
    requires 0 <= n < HigherPoles(shares[me].extents, d) * Stride(shares[me].extents, d)
    ensures p.Owns(q, slice.key) && p.InGrid(slice.key) && n < |slice.data|
    ensures var g := GlobalStart(global, shares[me].extents, shares[me].lower, d, n);
            0 <= g < |v| && 0 <= dim.Point(slice.key) <= Pow2(dim.lmax)
            && slice.data[n] == PoleAt(dim, v, g)[dim.Point(slice.key)]
  {
    var from, to := shares[q], shares[me];
    assert HoldsShare(dim, p, global, d, from, q, v);
    SameHigherPoles(from.extents, to.extents, d);
    var higher := HigherPoles(to.extents, d);
    KeyIsOwned(dim, p, global, d, from, q, v, slice);
    SliceValue(dim, global, d, from, to, higher, v, slice, n);
  }

  /** With boundary points, what is delivered is what the sweep needs. */
  lemma DeliveredIsReceived(dim: Dim, p: Pole, me: nat, global: Index, d: nat, forward: bool, shares: seq<Share>,
                            remote: seq<RemoteSlice>, v: seq<real>)
    requires p.Valid() && AreRanksOnPole(dim, p, global, d, shares, v) && me < |shares| && dim.boundary > 0
    requires Delivered(p, me, dim.lmin, TransformOf(dim, forward), d, shares, remote)
    ensures HoldsShare(dim, p, global, d, shares[me], me, v)
    ensures ReceivedPoles(dim, p, me, global, shares[me].extents, shares[me].lower, d, forward, remote,
                          HigherPoles(shares[me].extents, d) * Stride(shares[me].extents, d), v)
  {
    var to := shares[me];
    var count := HigherPoles(to.extents, d) * Stride(to.extents, d);
    var wholes := PolesThrough(dim, global, to.extents, to.lower, d, count, v);
    PolesThroughAreFull(dim, global, to.extents, to.lower, d, HigherPoles(to.extents, d), count, v);
    FullPolesAreWhole(dim, p, me, global, to.extents, to.lower, d, v, wholes);
    forall n | 0 <= n < |wholes|
      ensures RemoteComplete(p, me, dim.lmin, TransformOf(dim, forward), remote, n, wholes[n])
    {
      forall i | 0 <= i < |remote|
        ensures p.InGrid(remote[i].key) && n < |remote[i].data| && remote[i].data[n] == wholes[n][remote[i].key]
      {
        assert IsFromOther(shares, me, d, remote[i]);
        var q: nat :| q < |shares| && q != me && IsSliceOf(shares[q], d, remote[i]);
        DeliveredValue(dim, p, me, global, d, shares, v, q, remote[i], n);
      }
    }
  }

  /** The same without boundary points, in terms of the stored points of the pole. */
  lemma DeliveredInnerValue(dim: Dim, p: Pole, me: nat, global: Index, d: nat, shares: seq<Share>, v: seq<real>, q: nat,
                            slice: RemoteSlice, n: int, w: seq<real>)
    requires p.Valid() && AreRanksOnPole(dim, p, global, d, shares, v) && me < |shares| && q < |shares|
             && IsSliceOf(shares[q], d, slice)
    requires 0 <= n < HigherPoles(shares[me].extents, d) * Stride(shares[me].extents, d) && dim.boundary == 0
    requires w == StoredThrough(dim, global, shares[me].extents, shares[me].lower, d, v, n)
    ensures 0 <= slice.key < |w| && n < |slice.data| && slice.data[n] == w[slice.key]
  {
    DeliveredValue(dim, p, me, global, d, shares, v, q, slice, n);
    var to := shares[me];
    assert HoldsShare(dim, p, global, d, to, me, v);
    StoredPoint(dim, v, GlobalStart(global, to.extents, to.lower, d, n), slice.key);
  }

  lemma StoredPoint(dim: Dim, u: seq<real>, g: int, c: int)
    requires dim.Valid(|u|) && dim.boundary == 0 && 0 <= g < |u| && 0 <= c < Pow2(dim.lmax) - 1
    ensures c < |StoredPole(dim.axis, u, g)| && PoleAt(dim, u, g)[dim.Point(c)] == StoredPole(dim.axis, u, g)[c]
  {
    InnerPoleIsBordered(dim, u, g);
  }

  /** And without boundary points. */
  lemma DeliveredIsReceivedInner(dim: Dim, p: Pole, me: nat, global: Index, d: nat, forward: bool, shares: seq<Share>,
                                 remote: seq<RemoteSlice>, v: seq<real>)
    requires p.Valid() && AreRanksOnPole(dim, p, global, d, shares, v) && me < |shares| && dim.boundary == 0
    requires Delivered(p, me, 0, HatOf(forward), d, shares, remote)
    ensures HoldsShare(dim, p, global, d, shares[me], me, v)
    ensures ReceivedInner(dim, p, me, global, shares[me].extents, shares[me].lower, d, forward, remote,
                          HigherPoles(shares[me].extents, d) * Stride(shares[me].extents, d), v)
  {
    var to := shares[me];
    var count := HigherPoles(to.extents, d) * Stride(to.extents, d);
    var wholes := StoredPoles(dim, global, to.extents, to.lower, d, count, v);
    StoredPolesAreInner(dim, p, me, global, to.extents, to.lower, d, HigherPoles(to.extents, d), count, v);
    forall n | 0 <= n < |wholes|
      ensures RemoteInner(p, me, forward, remote, n, wholes[n])
    {
      forall i | 0 <= i < |remote|
        ensures 0 <= remote[i].key < |wholes[n]| && n < |remote[i].data|
                && remote[i].data[n] == wholes[n][remote[i].key]
      {
        assert IsFromOther(shares, me, d, remote[i]);
        var q: nat :| q < |shares| && q != me && IsSliceOf(shares[q], d, remote[i]);
        DeliveredInnerValue(dim, p, me, global, d, shares, v, q, remote[i], n, wholes[n]);
      }
    }
  }
}
