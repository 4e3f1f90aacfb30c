/** One rank's sweep over all poles of its part of the grid along one dimension.

    The local data is a flat array; along the dimension, neighbouring points of a pole are lower
    entries apart.  One buffer is reused for all poles, so it still holds values of earlier poles. */
module PoleSweep {
  import opened Arithmetic
  import opened Dyadic
  import opened Poles
  import opened SuccessorSearch
  import opened Lifting
  import opened Kernels
  import opened HatKernels
  import opened LocalTransform

  /** The values of one remote index for all poles. */
  datatype RemoteSlice = RemoteSlice(key: int, data: seq<real>)

  method RunKernel(tmp: array<real>, lmax: nat, lmin: nat, op: Transform)
    requires IsPoleBuffer(lmax, tmp) && lmin <= lmax
    modifies tmp
    ensures tmp[..] == Transformed(lmax, lmin, op, old(tmp[..]))
  {
    match op
    case Hierarchize(Hat) => HierarchizeHat(tmp, lmax, lmin);
    case Hierarchize(FullWeighting(periodic)) => HierarchizeFullWeighting(tmp, lmax, lmin, periodic);
    case Hierarchize(Biorthogonal(periodic)) => HierarchizeBiorthogonal(tmp, lmax, lmin, periodic);
    case Dehierarchize(Hat) => DehierarchizeHat(tmp, lmax, lmin);
    case Dehierarchize(FullWeighting(periodic)) => DehierarchizeFullWeighting(tmp, lmax, lmin, periodic);
    case Dehierarchize(Biorthogonal(periodic)) => DehierarchizeBiorthogonal(tmp, lmax, lmin, periodic);
  }

  /** The remote slices give the values of the pole for every index that rank me must have received. */
  ghost predicate RemoteComplete(p: Pole, me: nat, lmin: nat, op: Transform, remote: seq<RemoteSlice>, pole: nat,
                                 whole: seq<real>)
    requires p.Valid() && me < |p.cuts| && |whole| == Pow2(p.lmax) + 1
  {
    && (forall i :: 0 <= i < |remote| ==> p.InGrid(remote[i].key) && pole < |remote[i].data|
                                          && remote[i].data[pole] == whole[remote[i].key])
    && (forall q, x :: 0 <= q < |p.cuts| && q != me && x in Required(p, lmin, op, q, me) ==>
          exists i :: 0 <= i < |remote| && remote[i].key == x)
  }

  /** The local part of a pole: cell i lies at start + stride * i. */
  ghost predicate PoleHolds(data: seq<real>, start: int, stride: int, values: seq<real>)
  {
    forall i :: 0 <= i < |values| ==> 0 <= start + stride * i < |data| && data[start + stride * i] == values[i]
  }

  /** Only the cells start + stride * i with i below size may differ. */
  ghost predicate OnlyPoleChanged(before: seq<real>, after: seq<real>, start: int, stride: int, size: int)
    requires |before| == |after|
  {
    forall x {:trigger after[x]} :: 0 <= x < |after| && (forall i :: 0 <= i < size ==> x != start + stride * i)
      ==> after[x] == before[x]
  }

  method CopyRemote(p: Pole, me: nat, lmin: nat, op: Transform, remote: seq<RemoteSlice>, pole: nat,
                    ghost whole: seq<real>, tmp: array<real>)
    requires p.boundary > 0 && p.Valid() && me < |p.cuts| && |whole| == Pow2(p.lmax) + 1 && IsPoleBuffer(p.lmax, tmp)
    requires RemoteComplete(p, me, lmin, op, remote, pole, whole)
    modifies tmp
    ensures forall q, x :: 0 <= q < |p.cuts| && q != me && 0 <= x < |whole| && x in Required(p, lmin, op, q, me) ==>
              tmp[x] == whole[x]
  {
    var i := 0;
    while i < |remote|
      invariant 0 <= i <= |remote|
      invariant forall j :: 0 <= j < i ==> tmp[remote[j].key] == whole[remote[j].key]
    {
      tmp[remote[i].key] := remote[i].data[pole];
      i := i + 1;
    }
  }

  method CopyLocal(gstart: int, size: int, ldata: array<real>, start: int, stride: int, ghost own: seq<real>,
                   tmp: array<real>)
    requires ldata != tmp && size == |own| && 0 <= gstart && gstart + size <= tmp.Length
    requires PoleHolds(ldata[..], start, stride, own)
    modifies tmp
    ensures tmp[gstart..gstart + size] == own
    ensures forall x :: 0 <= x < tmp.Length && !(gstart <= x < gstart + size) ==> tmp[x] == old(tmp[x])
  {
    var i := 0;
    while i < size
      invariant 0 <= i <= size
      invariant forall j :: 0 <= j < i ==> tmp[gstart + j] == own[j]
      invariant forall x :: 0 <= x < tmp.Length && !(gstart <= x < gstart + i) ==> tmp[x] == old(tmp[x])
    {
      tmp[gstart + i] := ldata[start + stride * i];
      i := i + 1;
    }
  }

  method CopyBack(gstart: int, size: int, ldata: array<real>, start: int, stride: int, tmp: array<real>,
                  ghost own: seq<real>)
    requires ldata != tmp && size == |own| && stride > 0 && 0 <= gstart && gstart + size <= tmp.Length
    requires PoleHolds(ldata[..], start, stride, own)
    modifies ldata
    ensures PoleHolds(ldata[..], start, stride, tmp[gstart..gstart + size])
    ensures OnlyPoleChanged(old(ldata[..]), ldata[..], start, stride, size)
  {
    var i := 0;
    while i < size
      invariant 0 <= i <= size
      invariant forall j {:trigger tmp[gstart + j]} {:trigger own[j]} :: 0 <= j < i ==>
                  ldata[start + stride * j] == tmp[gstart + j]
      invariant forall x {:trigger ldata[x]} :: 0 <= x < ldata.Length
                  && (forall j :: 0 <= j < size ==> x != start + stride * j)
                  ==> ldata[x] == old(ldata[x])
    {
      forall j | 0 <= j < i
        ensures start + stride * j != start + stride * i
      {
        MulOrder(stride, j, i);
      }
      ldata[start + stride * i] := tmp[gstart + i];
      i := i + 1;
    }
  }

  /** Assembles one pole from received and local values, transforms it and copies the local part back. */
  method TransformPole(p: Pole, me: nat, lmin: nat, op: Transform, ldata: array<real>, start: int, stride: int,
                       remote: seq<RemoteSlice>, pole: nat, tmp: array<real>, ghost whole: seq<real>)
    requires p.boundary > 0 && p.Valid() && me < |p.cuts| && lmin <= p.lmax && stride > 0 && ldata != tmp
    requires IsPoleBuffer(p.lmax, tmp) && |whole| == Pow2(p.lmax) + 1 && (p.boundary == 1 ==> EndsEqual(whole))
    requires RemoteComplete(p, me, lmin, op, remote, pole, whole)
    requires 0 <= p.First(me) <= p.Last(me) < |whole|
    requires PoleHolds(ldata[..], start, stride, whole[p.First(me)..p.Last(me) + 1])
    modifies ldata, tmp
    ensures PoleHolds(ldata[..], start, stride, Transformed(p.lmax, lmin, op, whole)[p.First(me)..p.Last(me) + 1])
    ensures OnlyPoleChanged(old(ldata[..]), ldata[..], start, stride, p.Last(me) - p.First(me) + 1)
  {
    var gstart, size := p.First(me), p.Last(me) - p.First(me) + 1;
    CopyRemote(p, me, lmin, op, remote, pole, whole, tmp);
    ghost var received := tmp[..];
    CopyLocal(gstart, size, ldata, start, stride, whole[gstart..gstart + size], tmp);
    ghost var filled := tmp[..];
    if p.boundary == 1 {
      tmp[p.Length()] := tmp[0];
    }
    FilledAfterCopies(p, me, lmin, op, whole, received, filled, tmp[..]);
    ghost var buffer := tmp[..];
    RunKernel(tmp, p.lmax, lmin, op);
    forall x | p.Owns(me, x)
      ensures 0 <= x < tmp.Length && tmp[x] == Transformed(p.lmax, lmin, op, whole)[x]
    {
      LocalResultIsExact(p, me, lmin, op, whole, buffer, x);
    }
    assert tmp[gstart..gstart + size] == Transformed(p.lmax, lmin, op, whole)[gstart..gstart + size];
    CopyBack(gstart, size, ldata, start, stride, tmp, whole[gstart..gstart + size]);
  }

  lemma FilledAfterCopies(p: Pole, me: nat, lmin: nat, op: Transform, whole: seq<real>, received: seq<real>,
                          filled: seq<real>, buffer: seq<real>)
    requires p.boundary > 0 && p.Valid() && me < |p.cuts| && 0 <= p.First(me) <= p.Last(me) < |whole|
    requires |whole| == |received| == |filled| == |buffer| == Pow2(p.lmax) + 1 && (p.boundary == 1 ==> EndsEqual(whole))
    requires forall q, x :: 0 <= q < |p.cuts| && q != me && 0 <= x < |whole| && x in Required(p, lmin, op, q, me) ==>
               received[x] == whole[x]
    requires filled[p.First(me)..p.Last(me) + 1] == whole[p.First(me)..p.Last(me) + 1]
    requires forall x :: 0 <= x < |whole| && !(p.First(me) <= x < p.Last(me) + 1) ==> filled[x] == received[x]
    requires buffer == if p.boundary == 1 then filled[p.Length() := filled[0]] else filled
    ensures FilledFor(p, me, lmin, op, whole, buffer)
  {
    forall x | p.Owns(me, x) && 0 <= x < |buffer|
      ensures buffer[x] == whole[x]
    {
      assert filled[x] == filled[p.First(me)..p.Last(me) + 1][x - p.First(me)];
      OwnershipIsExclusive(p, me, me, x);
    }
    forall q, x | 0 <= q < |p.cuts| && q != me && 0 <= x < |buffer| && x in Required(p, lmin, op, q, me)
      ensures buffer[x] == whole[x]
    {
      assert p.Owns(q, x);
      OwnershipIsExclusive(p, q, me, x);
      assert filled[x] == received[x];
    }
  }

  /** Where pole number n starts in the flat local array: its lower and higher coordinates are the
      remainder and the quotient of n by lower. */
  function PoleStart(lower: int, size: int, n: int): int
    requires lower > 0
  {
    n % lower + lower * (size * (n / lower))
  }

  /** Different poles occupy different cells. */
  lemma PolesAreDisjoint(lower: int, size: int, n: int, i: int, m: int, j: int)
    requires lower > 0 && 0 <= i < size && 0 <= j < size
    requires PoleStart(lower, size, n) + lower * i == PoleStart(lower, size, m) + lower * j
    ensures n == m
  {
    var h, h' := n / lower, m / lower;
    DivModSplit(lower, n);
    DivModSplit(lower, m);
    SplitCell(lower, size, h, n % lower, i);
    SplitCell(lower, size, h', m % lower, j);
  }

  lemma SplitCell(lower: int, size: int, h: int, low: int, i: int)
    requires 0 <= low < lower && 0 <= i < size
    ensures var cell := low + lower * (size * h) + lower * i;
            cell % lower == low && (cell / lower) / size == h
  {
    assert low + lower * (size * h) + lower * i == lower * (size * h + i) + low;
    DivModOf(lower, size * h + i, low);
    DivModOf(size, h, i);
  }

  /** The local values of a pole, before or after its transformation. */
  ghost function PoleValues(p: Pole, me: nat, lmin: nat, op: Transform, whole: seq<real>,
                            transformed: bool): (v: seq<real>)
    requires me < |p.cuts| && lmin <= p.lmax && |whole| == Pow2(p.lmax) + 1
    requires 0 <= p.First(me) <= p.Last(me) <= Pow2(p.lmax)
    ensures |v| == p.Last(me) - p.First(me) + 1
  {
    (if transformed then Transformed(p.lmax, lmin, op, whole) else whole)[p.First(me)..p.Last(me) + 1]
  }

  ghost predicate AreWholePoles(p: Pole, me: nat, wholes: seq<seq<real>>)
    requires me < |p.cuts|
  {
    && 0 <= p.First(me) <= p.Last(me) <= Pow2(p.lmax)
    && (forall n :: 0 <= n < |wholes| ==> |wholes[n]| == Pow2(p.lmax) + 1 && (p.boundary == 1 ==> EndsEqual(wholes[n])))
  }

  /** The poles before number done are transformed, the others hold their old values. */
  ghost predicate SweptTo(p: Pole, me: nat, lmin: nat, op: Transform, data: seq<real>, lower: int,
                          wholes: seq<seq<real>>, done: int)
    requires me < |p.cuts| && lmin <= p.lmax && lower > 0 && AreWholePoles(p, me, wholes)
  {
    forall n {:trigger wholes[n]} :: 0 <= n < |wholes| ==>
      PoleHolds(data, PoleStart(lower, p.Last(me) - p.First(me) + 1, n), lower,
                PoleValues(p, me, lmin, op, wholes[n], n < done))
  }

  lemma OtherPoleStays(before: seq<real>, after: seq<real>, lower: int, size: int, n: int, m: int, values: seq<real>)
    requires lower > 0 && |values| == size && n != m && |before| == |after|
    requires PoleHolds(before, PoleStart(lower, size, m), lower, values)
    requires OnlyPoleChanged(before, after, PoleStart(lower, size, n), lower, size)
    ensures PoleHolds(after, PoleStart(lower, size, m), lower, values)
  {
    forall i | 0 <= i < size
      ensures 0 <= PoleStart(lower, size, m) + lower * i < |after|
              && after[PoleStart(lower, size, m) + lower * i] == values[i]
    {
      var x := PoleStart(lower, size, m) + lower * i;
      assert before[x] == values[i];
      forall j | 0 <= j < size
        ensures x != PoleStart(lower, size, n) + lower * j
      {
        if x == PoleStart(lower, size, n) + lower * j {
          PolesAreDisjoint(lower, size, m, i, n, j);
        }
      }
    }
  }

  /** Transforming pole n leaves all other poles as they were. */
  lemma SweepAdvances(p: Pole, me: nat, lmin: nat, op: Transform, before: seq<real>, after: seq<real>, lower: int,
                      wholes: seq<seq<real>>, n: int)
    requires me < |p.cuts| && lmin <= p.lmax && lower > 0 && AreWholePoles(p, me, wholes)
    requires 0 <= n < |wholes| && |before| == |after|
    requires SweptTo(p, me, lmin, op, before, lower, wholes, n)
    requires PoleHolds(after, PoleStart(lower, p.Last(me) - p.First(me) + 1, n), lower,
                       PoleValues(p, me, lmin, op, wholes[n], true))
    requires OnlyPoleChanged(before, after, PoleStart(lower, p.Last(me) - p.First(me) + 1, n), lower,
                             p.Last(me) - p.First(me) + 1)
    ensures SweptTo(p, me, lmin, op, after, lower, wholes, n + 1)
  {
    hide PoleHolds, PoleStart, PoleValues, OnlyPoleChanged;
    var size := p.Last(me) - p.First(me) + 1;
    forall m | 0 <= m < |wholes| && m != n
      ensures PoleHolds(after, PoleStart(lower, size, m), lower, PoleValues(p, me, lmin, op, wholes[m], m < n + 1))
    {
      var values := PoleValues(p, me, lmin, op, wholes[m], m < n);
      assert PoleHolds(before, PoleStart(lower, size, m), lower, values);
      OtherPoleStays(before, after, lower, size, n, m, values);
      assert values == PoleValues(p, me, lmin, op, wholes[m], m < n + 1);
    }
  }

  lemma PoleOfCoordinates(lower: int, size: int, high: int, low: int, base: int, jump: int)
    requires 0 <= low < lower && base == high * lower && jump == lower * size
    ensures high * jump + low == PoleStart(lower, size, low + base)
  {
    DivModOf(lower, high, low);
    assert high * (lower * size) == lower * (size * high);
  }

  /** Pole number n in the loop, with its place in the flat array given by the running coordinates. */
  method SweepOne(p: Pole, me: nat, lmin: nat, op: Transform, ldata: array<real>, lower: int, poleStart: int,
                  remote: seq<RemoteSlice>, n: int, tmp: array<real>, ghost wholes: seq<seq<real>>)
    requires p.boundary > 0 && p.Valid() && me < |p.cuts| && lmin <= p.lmax && lower > 0 && ldata != tmp
    requires IsPoleBuffer(p.lmax, tmp) && AreWholePoles(p, me, wholes) && 0 <= n < |wholes|
    requires RemoteComplete(p, me, lmin, op, remote, n, wholes[n])
    requires poleStart == PoleStart(lower, p.Last(me) - p.First(me) + 1, n)
    requires SweptTo(p, me, lmin, op, ldata[..], lower, wholes, n)
    modifies ldata, tmp
    ensures SweptTo(p, me, lmin, op, ldata[..], lower, wholes, n + 1)
  {
    ghost var before := ldata[..];
    assert PoleHolds(before, poleStart, lower, PoleValues(p, me, lmin, op, wholes[n], false));
    TransformPole(p, me, lmin, op, ldata, poleStart, lower, remote, n, tmp, wholes[n]);
    SweepAdvances(p, me, lmin, op, before, ldata[..], lower, wholes, n);
  }

  /** The poles that share their coordinates in the higher dimensions. */
  method SweepLayer(p: Pole, me: nat, lmin: nat, op: Transform, ldata: array<real>, lower: int, jump: int, nHigher: int,
                    ghost base: int, remote: seq<RemoteSlice>, tmp: array<real>, ghost wholes: seq<seq<real>>)
    requires p.boundary > 0 && p.Valid() && me < |p.cuts| && lmin <= p.lmax && lower > 0 && ldata != tmp
    requires IsPoleBuffer(p.lmax, tmp) && AreWholePoles(p, me, wholes)
    requires base == nHigher * lower && 0 <= base && base + lower <= |wholes|
             && jump == lower * (p.Last(me) - p.First(me) + 1)
    requires forall n :: 0 <= n < |wholes| ==> RemoteComplete(p, me, lmin, op, remote, n, wholes[n])
    requires SweptTo(p, me, lmin, op, ldata[..], lower, wholes, base)
    modifies ldata, tmp
    ensures SweptTo(p, me, lmin, op, ldata[..], lower, wholes, base + lower)
  {
    var nLower := 0;
    while nLower < lower
      invariant 0 <= nLower <= lower
      invariant SweptTo(p, me, lmin, op, ldata[..], lower, wholes, nLower + base)
    {
      PoleOfCoordinates(lower, p.Last(me) - p.First(me) + 1, nHigher, nLower, base, jump);
      var poleStart := nHigher * jump + nLower;
      var poleNumber := nLower + nHigher * lower;
      SweepOne(p, me, lmin, op, ldata, lower, poleStart, remote, poleNumber, tmp, wholes);
      nLower := nLower + 1;
    }
  }

  /** The distributed transform along one dimension.  wholes[n] is the full pole number n, whose local
      part this rank stores and of which it has received what the exchange provides. */
  method SweepPoles(p: Pole, me: nat, lmin: nat, op: Transform, ldata: array<real>, lower: int, higher: int,
                    remote: seq<RemoteSlice>, ghost wholes: seq<seq<real>>)
    requires p.boundary > 0 && p.Valid() && me < |p.cuts| && lmin <= p.lmax && lower > 0 && higher >= 0
    requires AreWholePoles(p, me, wholes) && |wholes| == higher * lower
    requires forall n :: 0 <= n < |wholes| ==> RemoteComplete(p, me, lmin, op, remote, n, wholes[n])
    requires SweptTo(p, me, lmin, op, ldata[..], lower, wholes, 0)
    modifies ldata
    ensures SweptTo(p, me, lmin, op, ldata[..], lower, wholes, |wholes|)
  {
    hide AreWholePoles, RemoteComplete, SweptTo, Pow2;
    var tmp := new real[Pow2(p.lmax) + 1];
    var jump := lower * (p.Last(me) - p.First(me) + 1);
    ghost var base := 0;
    var nHigher := 0;
    while nHigher < higher
      invariant 0 <= nHigher <= higher && fresh(tmp) && IsPoleBuffer(p.lmax, tmp)
      invariant base == nHigher * lower
      invariant SweptTo(p, me, lmin, op, ldata[..], lower, wholes, base)
    {
      NextBase(lower, higher, nHigher, base);
      SweepLayer(p, me, lmin, op, ldata, lower, jump, nHigher, base, remote, tmp, wholes);
      base := base + lower;
      nHigher := nHigher + 1;
    }
  }

  lemma NextBase(lower: int, higher: int, high: int, base: int)
    requires lower > 0 && 0 <= high < higher && base == high * lower
    ensures 0 <= base && base + lower == (high + 1) * lower && base + lower <= higher * lower
  {
    MulOrder(lower, high, higher);
    MulOrder(lower, 0, high);
  }
}
