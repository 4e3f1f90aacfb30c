/** One rank's sweep over all poles of its part along a dimension without boundary points.  The buffer still
    holds values of earlier poles. */
module NoBoundarySweep {
  import opened Dyadic
  import opened Poles
  import opened SuccessorSearch
  import opened LocalTransform
  import opened PoleSweep
  import opened PoleLoops
  import opened NoBoundary
  import opened NoBoundaryKernels
  import opened NoBoundaryTransform

  /** The remote slices hold the values of pole n for every index that the rank must have received. */
  ghost predicate RemoteInner(p: Pole, me: nat, forward: bool, remote: seq<RemoteSlice>, n: int, whole: seq<real>)
    requires p.Valid() && me < |p.cuts| && IsInnerPole(p.lmax, whole)
  {
    && (forall i :: 0 <= i < |remote| ==>
          0 <= remote[i].key < |whole| && 0 <= n < |remote[i].data| && remote[i].data[n] == whole[remote[i].key])
    && (forall q, x ::
          0 <= q < |p.cuts| && q != me && x in Required(p, 0, HatOf(forward), q, me)
          ==> exists i :: 0 <= i < |remote| && remote[i].key == x)
  }

  method CopyRemoteInner(p: Pole, me: nat, forward: bool, remote: seq<RemoteSlice>, n: int, ghost whole: seq<real>,
                         tmp: array<real>)
    requires p.Valid() && me < |p.cuts| && IsInnerPole(p.lmax, whole) && tmp.Length == |whole|
    requires RemoteInner(p, me, forward, remote, n, whole)
    modifies tmp
    ensures forall q, x ::
              0 <= q < |p.cuts| && q != me && 0 <= x < |whole| && x in Required(p, 0, HatOf(forward), q, me)
              ==> tmp[x] == whole[x]
  {
    var i := 0;
    while i < |remote|
      invariant 0 <= i <= |remote|
      invariant forall j :: 0 <= j < i ==> tmp[remote[j].key] == whole[remote[j].key]
    {
      tmp[remote[i].key] := remote[i].data[n];
      i := i + 1;
    }
  }

  lemma FilledAfterInnerCopies(p: Pole, me: nat, forward: bool, whole: seq<real>, received: seq<real>,
                               filled: seq<real>)
    requires IsInner(p) && me < |p.cuts| && IsInnerPole(p.lmax, whole) && |received| == |filled| == |whole|
    requires 0 <= p.First(me) <= p.Last(me) < |whole|
    requires forall q, x ::
               0 <= q < |p.cuts| && q != me && 0 <= x < |whole| && x in Required(p, 0, HatOf(forward), q, me)
               ==> received[x] == whole[x]
    requires filled[p.First(me)..p.Last(me) + 1] == whole[p.First(me)..p.Last(me) + 1]
    requires forall x :: 0 <= x < |whole| && !(p.First(me) <= x < p.Last(me) + 1) ==> filled[x] == received[x]
    ensures FilledInner(p, me, forward, whole, filled)
  {
    forall x | p.Owns(me, x) && 0 <= x < |filled|
      ensures filled[x] == whole[x]
    {
      assert filled[x] == filled[p.First(me)..p.Last(me) + 1][x - p.First(me)];
    }
    forall q, x | 0 <= q < |p.cuts| && q != me && 0 <= x < |filled| && x in Required(p, 0, HatOf(forward), q, me)
      ensures filled[x] == whole[x]
    {
      assert p.Owns(q, x);
      OwnershipIsExclusive(p, q, me, x);
      assert filled[x] == received[x];
    }
  }

  /** The cells of rank me of a pole. */
  ghost function LocalSlice(p: Pole, me: nat, whole: seq<real>): (v: seq<real>)
    requires me < |p.cuts| && 0 <= p.First(me) <= p.Last(me) < |whole|
    ensures |v| == p.Last(me) - p.First(me) + 1
  {
    whole[p.First(me)..p.Last(me) + 1]
  }

  lemma SliceIsExact(p: Pole, me: nat, forward: bool, whole: seq<real>, after: seq<real>)
    requires IsInner(p) && me < |p.cuts| && IsInnerPole(p.lmax, whole) && |after| == |whole|
    requires 0 <= p.First(me) <= p.Last(me) < |whole| && LocallyExact(p, me, forward, whole, after)
    ensures LocalSlice(p, me, after) == LocalSlice(p, me, InnerTransformed(p.lmax, forward, whole))
  {
    forall x | p.First(me) <= x <= p.Last(me)
      ensures after[x] == InnerTransformed(p.lmax, forward, whole)[x]
    {
      assert p.Owns(me, x);
    }
  }

  /** Assembles one pole, transforms it and copies the local part back. */
  method TransformInnerPole(p: Pole, me: nat, forward: bool, ldata: array<real>, start: int, stride: int,
                            remote: seq<RemoteSlice>, n: int, tmp: array<real>, ghost whole: seq<real>)
    requires IsInner(p) && me < |p.cuts| && IsInnerPole(p.lmax, whole) && tmp.Length == |whole| && ldata != tmp
             && stride > 0
    requires 0 <= p.First(me) <= p.Last(me) < |whole| && RemoteInner(p, me, forward, remote, n, whole)
    requires PoleHolds(ldata[..], start, stride, LocalSlice(p, me, whole))
    modifies ldata, tmp
    ensures PoleHolds(ldata[..], start, stride, LocalSlice(p, me, InnerTransformed(p.lmax, forward, whole)))
    ensures OnlyPoleChanged(old(ldata[..]), ldata[..], start, stride, p.Last(me) - p.First(me) + 1)
  {
    var gstart, size := p.First(me), p.Last(me) - p.First(me) + 1;
    CopyRemoteInner(p, me, forward, remote, n, whole, tmp);
    ghost var received := tmp[..];
    CopyLocal(gstart, size, ldata, start, stride, LocalSlice(p, me, whole), tmp);
    FilledAfterInnerCopies(p, me, forward, whole, received, tmp[..]);
    TransformInner(p, me, forward, tmp, whole);
    SliceIsExact(p, me, forward, whole, tmp[..]);
    assert tmp[gstart..gstart + size] == LocalSlice(p, me, tmp[..]);
    CopyBack(gstart, size, ldata, start, stride, tmp, LocalSlice(p, me, whole));
  }

  ghost predicate AreInnerPoles(p: Pole, me: nat, wholes: seq<seq<real>>)
    requires me < |p.cuts|
  {
    && 0 <= p.First(me) <= p.Last(me) < Pow2(p.lmax) - 1
    && forall n :: 0 <= n < |wholes| ==> IsInnerPole(p.lmax, wholes[n])
  }

  /** The local cells of all poles, before or after the transform. */
  ghost function LocalSlices(p: Pole, me: nat, wholes: seq<seq<real>>): (slices: seq<seq<real>>)
    requires me < |p.cuts| && AreInnerPoles(p, me, wholes)
    ensures |slices| == |wholes|
  {
    seq(|wholes|, n requires 0 <= n < |wholes| => LocalSlice(p, me, wholes[n]))
  }

  ghost function AllTransformed(p: Pole, me: nat, forward: bool, wholes: seq<seq<real>>): (after: seq<seq<real>>)
    requires p.lmax > 0 && me < |p.cuts| && AreInnerPoles(p, me, wholes)
    ensures |after| == |wholes| && AreInnerPoles(p, me, after)
  {
    seq(|wholes|, n requires 0 <= n < |wholes| => InnerTransformed(p.lmax, forward, wholes[n]))
  }

  method TransformNumber(p: Pole, me: nat, forward: bool, ldata: array<real>, start: int, stride: int,
                         remote: seq<RemoteSlice>, n: int, tmp: array<real>, ghost wholes: seq<seq<real>>)
    requires IsInner(p) && me < |p.cuts| && AreInnerPoles(p, me, wholes) && 0 <= n < |wholes|
    requires tmp.Length == Pow2(p.lmax) - 1 && ldata != tmp && stride > 0
             && RemoteInner(p, me, forward, remote, n, wholes[n])
    requires start == PoleStart(stride, p.Last(me) - p.First(me) + 1, n)
    requires PolesHold(ldata[..], stride, p.Last(me) - p.First(me) + 1,
                       Mixed(LocalSlices(p, me, wholes), LocalSlices(p, me, AllTransformed(p, me, forward, wholes)), n))
    modifies ldata, tmp
    ensures PolesHold(ldata[..], stride, p.Last(me) - p.First(me) + 1,
                      Mixed(LocalSlices(p, me, wholes), LocalSlices(p, me, AllTransformed(p, me, forward, wholes)),
                            n + 1))
  {
    ghost var was := ldata[..];
    ghost var before, after := LocalSlices(p, me, wholes), LocalSlices(p, me, AllTransformed(p, me, forward, wholes));
    PoleBefore(was, stride, p.Last(me) - p.First(me) + 1, before, after, n);
    TransformInnerPole(p, me, forward, ldata, start, stride, remote, n, tmp, wholes[n]);
    NextPole(was, ldata[..], stride, p.Last(me) - p.First(me) + 1, before, after, n);
  }

  /** The distributed transform along one dimension without boundary points. */
  method SweepInnerPoles(p: Pole, me: nat, forward: bool, ldata: array<real>, stride: int, remote: seq<RemoteSlice>,
                         nbrOfPoles: int, ghost wholes: seq<seq<real>>)
    requires IsInner(p) && me < |p.cuts| && AreInnerPoles(p, me, wholes) && stride > 0 && nbrOfPoles == |wholes|
    requires forall n :: 0 <= n < |wholes| ==> RemoteInner(p, me, forward, remote, n, wholes[n])
    requires PolesHold(ldata[..], stride, p.Last(me) - p.First(me) + 1, LocalSlices(p, me, wholes))
    modifies ldata
    ensures PolesHold(ldata[..], stride, p.Last(me) - p.First(me) + 1,
                      LocalSlices(p, me, AllTransformed(p, me, forward, wholes)))
  {
    var tmp := new real[Pow2(p.lmax) - 1];
    var jump := stride * (p.Last(me) - p.First(me) + 1);
    ghost var before, after := LocalSlices(p, me, wholes), LocalSlices(p, me, AllTransformed(p, me, forward, wholes));
    MixedEnds(before, after);
    for nn := 0 to nbrOfPoles
      invariant fresh(tmp) && tmp.Length == Pow2(p.lmax) - 1
      invariant PolesHold(ldata[..], stride, p.Last(me) - p.First(me) + 1, Mixed(before, after, nn))
    {
      StartOfPole(stride, p.Last(me) - p.First(me) + 1, nn, jump);
      TransformNumber(p, me, forward, ldata, (nn / stride) * jump + nn % stride, stride, remote, nn, tmp, wholes);
    }
  }
}
