/** The ranks transform their arrays in place.  Whatever they store, distributed hierarchization followed by distributed
    dehierarchization restores every cell of every rank. */
module DistributedRun {
  import opened Poles
  import opened PoleSweep
  import opened Tensor
  import opened GridSweep
  import opened GridTransform
  import opened Interpolation
  import opened DistributedGrid
  import opened GridExchange
  import opened ProcessGrid
  import opened DistributedTransform

  predicate AreSeparate(datas: seq<array<real>>) {
    forall r, s :: 0 <= r < s < |datas| ==> datas[r] != datas[s]
  }

  /** The ranks store their parts of grid function u. */
  ghost predicate StoreAll(global: Index, dims: seq<Dim>, poles: seq<Pole>, datas: seq<array<real>>, u: seq<real>)
    reads datas
  {
    && AreDecompositions(global, dims, poles) && Positive(Counts(poles)) && |datas| == Stride(Counts(poles), |poles|)
    && |u| == Stride(global, |global|) && AreSeparate(datas)
    && forall r {:trigger datas[r]} :: 0 <= r < |datas| ==> HoldsPart(global, dims, poles, r, datas[r][..], u)
  }

  /** What the ranks store before they change anything. */
  method Snapshot(datas: seq<array<real>>) returns (data: seq<seq<real>>)
    ensures |data| == |datas|
            && forall r {:trigger data[r]} {:trigger datas[r]} :: 0 <= r < |datas| ==> data[r] == datas[r][..]
  {
    data := [];
    for r := 0 to |datas|
      invariant |data| == r && forall s {:trigger data[s]} {:trigger datas[s]} :: 0 <= s < r ==> data[s] == datas[s][..]
    {
      data := data + [datas[r][..]];
    }
  }

  /** The grid function before and after the sweep over dimension d. */
  ghost predicate AreSweep(global: Index, dims: seq<Dim>, d: nat, forward: bool, u: seq<real>, v: seq<real>,
                           w: seq<real>) {
    && d < |dims| && |u| == |v| == |w| == Stride(global, |global|) && IsGrid(dims, |u|)
    && v == Swept(dims, forward, 0, d, u) && w == Swept(dims, forward, 0, d + 1, u)
  }

  /** The sweep of rank r over dimension d. */
  method SweepRank(dims: seq<Dim>, poles: seq<Pole>, ghost global: Index, r: nat, d: nat, forward: bool,
                   ldata: array<real>, remote: seq<RemoteSlice>, ghost u: seq<real>, ghost v: seq<real>,
                   ghost w: seq<real>)
    requires AreDecompositions(global, dims, poles) && IsRank(poles, r) && d < |dims| && dims[d].active
    requires AreSweep(global, dims, d, forward, u, v, w)
    requires HoldsPart(global, dims, poles, r, ldata[..], v)
             && HasReceived(global, dims, poles, r, d, forward, remote, v)
    modifies ldata
    ensures HoldsPart(global, dims, poles, r, ldata[..], w)
  {
    PartFits(global, dims, poles, r);
    var me, extents := CoordsOf(poles, r)[d], ExtentsOf(poles, r);
    ghost var lower := LowerOf(poles, r);
    if dims[d].boundary > 0 {
      SweepActive(dims, poles[d], me, global, extents, lower, d, ldata, remote, forward, u);
    } else {
      SweepActiveInner(dims, poles[d], me, global, extents, lower, d, ldata, remote, forward, u);
    }
  }

  lemma HeldAndReceived(global: Index, dims: seq<Dim>, poles: seq<Pole>, r: nat, d: nat, forward: bool,
                        data: seq<seq<real>>, remotes: seq<seq<RemoteSlice>>, v: seq<real>)
    requires HoldAll(global, dims, poles, data, v) && r < |data| == |remotes| && d < |poles|
    requires AllReceived(global, dims, poles, d, forward, remotes, v, |remotes|)
    ensures IsRank(poles, r) && HoldsPart(global, dims, poles, r, data[r], v)
    ensures HasReceived(global, dims, poles, r, d, forward, remotes[r], v)
  {
  }

  /** All ranks exchange, then all sweep. */
  method SweepAll(dims: seq<Dim>, poles: seq<Pole>, ghost global: Index, d: nat, forward: bool, datas: seq<array<real>>,
                  ghost u: seq<real>, ghost v: seq<real>, ghost w: seq<real>)
    requires AreSweep(global, dims, d, forward, u, v, w) && dims[d].active
    requires StoreAll(global, dims, poles, datas, v)
    modifies datas
    ensures StoreAll(global, dims, poles, datas, w)
  {
    var data := Snapshot(datas);
    SnapshotHolds(global, dims, poles, datas, data, v);
    var remotes := ExchangeAll(dims, poles, global, d, forward, data, v);
    ghost var after := SweepEach(dims, poles, global, d, forward, datas, data, remotes, u, v, w);
    forall r | 0 <= r < |datas|
      ensures HoldsPart(global, dims, poles, r, datas[r][..], w)
    {
      assert HoldsPart(global, dims, poles, r, after[r], w);
    }
  }

  lemma SnapshotHolds(global: Index, dims: seq<Dim>, poles: seq<Pole>, datas: seq<array<real>>, data: seq<seq<real>>,
                      v: seq<real>)
    requires StoreAll(global, dims, poles, datas, v) && |data| == |datas|
    requires forall r {:trigger data[r]} {:trigger datas[r]} :: 0 <= r < |datas| ==> data[r] == datas[r][..]
    ensures HoldAll(global, dims, poles, data, v)
  {
    forall r | 0 <= r < |data|
      ensures HoldsPart(global, dims, poles, r, data[r], v)
    {
      assert HoldsPart(global, dims, poles, r, datas[r][..], v);
    }
  }

  /** The first ranks hold their parts. */
  ghost predicate HoldFirst(global: Index, dims: seq<Dim>, poles: seq<Pole>, data: seq<seq<real>>, w: seq<real>)
    requires AreDecompositions(global, dims, poles)
  {
    forall r {:trigger data[r]} :: 0 <= r < |data| ==> IsRank(poles, r) && HoldsPart(global, dims, poles, r, data[r], w)
  }

  lemma HoldNext(global: Index, dims: seq<Dim>, poles: seq<Pole>, data: seq<seq<real>>, w: seq<real>, part: seq<real>)
    requires AreDecompositions(global, dims, poles) && HoldFirst(global, dims, poles, data, w)
    requires IsRank(poles, |data|) && HoldsPart(global, dims, poles, |data|, part, w)
    ensures HoldFirst(global, dims, poles, data + [part], w)
  {
    var more := data + [part];
    forall r | 0 <= r < |more|
      ensures IsRank(poles, r) && HoldsPart(global, dims, poles, r, more[r], w)
    {
      if r < |data| {
        assert more[r] == data[r];
      }
    }
  }

  /** The sweep of one rank leaves the arrays of the others alone. */
  method SweepOnly(dims: seq<Dim>, poles: seq<Pole>, ghost global: Index, r: nat, d: nat, forward: bool,
                   datas: seq<array<real>>, remote: seq<RemoteSlice>, ghost u: seq<real>, ghost v: seq<real>,
                   ghost w: seq<real>)
    requires AreDecompositions(global, dims, poles) && IsRank(poles, r) && d < |dims| && dims[d].active
    requires AreSweep(global, dims, d, forward, u, v, w) && AreSeparate(datas) && r < |datas|
    requires HoldsPart(global, dims, poles, r, datas[r][..], v)
             && HasReceived(global, dims, poles, r, d, forward, remote, v)
    modifies datas
    ensures HoldsPart(global, dims, poles, r, datas[r][..], w)
    ensures forall s {:trigger datas[s]} :: 0 <= s < |datas| && s != r ==> datas[s][..] == old(datas[s][..])
  {
    SweepRank(dims, poles, global, r, d, forward, datas[r], remote, u, v, w);
  }

  /** The loop over the ranks. */
  method SweepEach(dims: seq<Dim>, poles: seq<Pole>, ghost global: Index, d: nat, forward: bool,
                   datas: seq<array<real>>, ghost data: seq<seq<real>>, remotes: seq<seq<RemoteSlice>>,
                   ghost u: seq<real>, ghost v: seq<real>, ghost w: seq<real>)
    returns (ghost after: seq<seq<real>>)
    requires AreSweep(global, dims, d, forward, u, v, w) && dims[d].active
    requires HoldAll(global, dims, poles, data, v) && AreSeparate(datas) && |datas| == |remotes| == |data|
    requires forall r {:trigger data[r]} {:trigger datas[r]} :: 0 <= r < |datas| ==> data[r] == datas[r][..]
    requires AllReceived(global, dims, poles, d, forward, remotes, v, |remotes|)
    modifies datas
    ensures |after| == |datas| && HoldFirst(global, dims, poles, after, w)
    ensures forall r {:trigger after[r]} {:trigger datas[r]} :: 0 <= r < |datas| ==> after[r] == datas[r][..]
  {
    after := [];
    for r := 0 to |datas|
      modifies datas
      invariant |after| == r && HoldFirst(global, dims, poles, after, w)
      invariant forall s {:trigger after[s]} {:trigger datas[s]} :: 0 <= s < r ==> after[s] == datas[s][..]
      invariant forall s {:trigger data[s]} {:trigger datas[s]} :: r <= s < |datas| ==> datas[s][..] == data[s]
    {
      HeldAndReceived(global, dims, poles, r, d, forward, data, remotes, v);
      ghost var before := after;
      SweepOnly(dims, poles, global, r, d, forward, datas, remotes[r], u, v, w);
      HoldNext(global, dims, poles, after, w, datas[r][..]);
      after := after + [datas[r][..]];
      assert forall s :: 0 <= s < r ==> after[s] == before[s];
    }
  }

  /** The whole transform of all ranks computes the transform of the whole grid. */
  method TransformAll(dims: seq<Dim>, poles: seq<Pole>, ghost global: Index, forward: bool, datas: seq<array<real>>,
                      ghost u: seq<real>)
    requires StoreAll(global, dims, poles, datas, u)
    modifies datas
    ensures IsGrid(dims, |u|) && StoreAll(global, dims, poles, datas, Swept(dims, forward, 0, |dims|, u))
    ensures (forall d :: 0 <= d < |dims| ==> dims[d].basis.Hat?) ==>
              var v := Swept(dims, forward, 0, |dims|, u);
              if forward then Interpolates(dims, v, u) else Interpolates(dims, u, v)
  {
    hide Interpolates;
    BoxIsGrid(global, dims, poles);
    for d := 0 to |dims|
      modifies datas
      invariant StoreAll(global, dims, poles, datas, Swept(dims, forward, 0, d, u))
    {
      if dims[d].active {
        SweepAll(dims, poles, global, d, forward, datas, u, Swept(dims, forward, 0, d, u),
                 Swept(dims, forward, 0, d + 1, u));
      } else {
        InactiveSweep(dims, forward, d, u);
      }
    }
    if forall d :: 0 <= d < |dims| ==> dims[d].basis.Hat? {
      SweptInterpolates(global, dims, poles, forward, u);
    }
  }

  /** In the hat basis the ranks compute surpluses that interpolate the grid, or evaluate them. */
  lemma SweptInterpolates(global: Index, dims: seq<Dim>, poles: seq<Pole>, forward: bool, u: seq<real>)
    requires AreDecompositions(global, dims, poles) && |u| == Stride(global, |global|) && IsGrid(dims, |u|)
    requires forall d :: 0 <= d < |dims| ==> dims[d].basis.Hat?
    ensures var v := Swept(dims, forward, 0, |dims|, u);
            if forward then Interpolates(dims, v, u) else Interpolates(dims, u, v)
  {
    hide Swept, Interpolates, IsGrid;
    if forward {
      SurplusesInterpolate(global, dims, u, Swept(dims, true, 0, |dims|, u));
    } else {
      DehierarchizationInterpolates(global, dims, u);
    }
  }

  lemma InactiveSweep(dims: seq<Dim>, forward: bool, d: nat, u: seq<real>)
    requires IsGrid(dims, |u|) && d < |dims| && !dims[d].active
    ensures Swept(dims, forward, 0, d + 1, u) == Swept(dims, forward, 0, d, u)
  {
  }

  /** The grid point of global cell g lies in the part of this rank, at this place. */
  function OwnerOf(poles: seq<Pole>, v: Index): int
    requires |v| == |poles|
  {
    Linear(Counts(poles), OwnerCoords(poles, v), |poles|)
  }

  function Unshifted(v: Index, lower: Index): (w: Index)
    requires |v| == |lower|
    ensures |w| == |v|
  {
    seq(|v|, j requires 0 <= j < |v| => v[j] - lower[j])
  }

  function StoredAt(poles: seq<Pole>, data: seq<seq<real>>, v: Index): real
    requires |v| == |poles|
  {
    var r := OwnerOf(poles, v);
    if !IsRank(poles, r) || r >= |data| then 0.0
    else
      var l := Linear(ExtentsOf(poles, r), Unshifted(v, LowerOf(poles, r)), |poles|);
      if 0 <= l < |data[r]| then data[r][l] else 0.0
  }

  /** The grid function that the ranks store together. */
  ghost function Assembled(global: Index, poles: seq<Pole>, data: seq<seq<real>>): (u: seq<real>)
    requires Positive(global) && |poles| == |global|
    ensures |u| == Stride(global, |global|)
  {
    StridePositive(global, |global|);
    seq(Stride(global, |global|),
        g requires 0 <= g < Stride(global, |global|) => StoredAt(poles, data, Vector(global, g, |global|)))
  }

  lemma CellOfRank(global: Index, dims: seq<Dim>, poles: seq<Pole>, r: int, l: int)
    requires AreDecompositions(global, dims, poles) && IsRank(poles, r) && 0 <= l < Stride(ExtentsOf(poles, r), |poles|)
    ensures IsInside(global, ExtentsOf(poles, r), LowerOf(poles, r))
    ensures var v := Vector(ExtentsOf(poles, r), l, |global|);
            Linear(ExtentsOf(poles, r), v, |global|) == l && OwnerOf(poles, Shift(v, LowerOf(poles, r))) == r
  {
    PartFits(global, dims, poles, r);
    IndexBijection(ExtentsOf(poles, r), [], l);
    OwnerIsUnique(global, dims, poles, r, Vector(ExtentsOf(poles, r), l, |global|));
    IndexBijection(Counts(poles), [], r);
  }

  lemma StoredIsOwn(global: Index, dims: seq<Dim>, poles: seq<Pole>, data: seq<seq<real>>, r: nat, l: nat)
    requires AreParts(global, dims, poles, data) && r < |data| && l < |data[r]|
    ensures IsInside(global, ExtentsOf(poles, r), LowerOf(poles, r))
    ensures StoredAt(poles, data, Shift(Vector(ExtentsOf(poles, r), l, |global|), LowerOf(poles, r))) == data[r][l]
  {
    CellOfRank(global, dims, poles, r, l);
    UnshiftOfShift(Vector(ExtentsOf(poles, r), l, |global|), LowerOf(poles, r));
  }

  lemma UnshiftOfShift(v: Index, lower: Index)
    requires |v| == |lower|
    ensures Unshifted(Shift(v, lower), lower) == v
  {
  }

  /** Any contents of the arrays are some grid function. */
  lemma PartsAreAGrid(global: Index, dims: seq<Dim>, poles: seq<Pole>, data: seq<seq<real>>)
    requires AreParts(global, dims, poles, data)
    ensures HoldAll(global, dims, poles, data, Assembled(global, poles, data))
  {
    var u := Assembled(global, poles, data);
    forall r | 0 <= r < |data|
      ensures HoldsPart(global, dims, poles, r, data[r], u)
    {
      PartOfAssembled(global, dims, poles, data, r);
    }
  }

  lemma PartOfAssembled(global: Index, dims: seq<Dim>, poles: seq<Pole>, data: seq<seq<real>>, r: nat)
    requires AreParts(global, dims, poles, data) && r < |data|
    ensures HoldsPart(global, dims, poles, r, data[r], Assembled(global, poles, data))
  {
    var extents, lower, u := ExtentsOf(poles, r), LowerOf(poles, r), Assembled(global, poles, data);
    PartFits(global, dims, poles, r);
    forall l | 0 <= l < |data[r]|
      ensures var g := GlobalOf(global, extents, lower, l); 0 <= g < |u| && data[r][l] == u[g]
    {
      StoredIsOwn(global, dims, poles, data, r, l);
      IndexBijection(extents, [], l);
      GlobalVector(global, extents, lower, Vector(extents, l, |global|));
    }
  }

  lemma SameGridSameCells(global: Index, dims: seq<Dim>, poles: seq<Pole>, r: int, a: seq<real>, b: seq<real>,
                          u: seq<real>)
    requires AreDecompositions(global, dims, poles) && IsRank(poles, r)
    requires HoldsPart(global, dims, poles, r, a, u) && HoldsPart(global, dims, poles, r, b, u)
    ensures a == b
  {
    PartFits(global, dims, poles, r);
    assert forall l :: 0 <= l < |a| ==> a[l] == b[l];
  }

  /** Where a part stores the point with coordinates v. */
  lemma PlaceOf(global: Index, extents: Index, lower: Index, v: Index) returns (l: int)
    requires IsInside(global, extents, lower) && |v| == |global| && InBox(extents, Unshifted(v, lower))
    ensures 0 <= l < Stride(extents, |global|) && GlobalOf(global, extents, lower, l) == Linear(global, v, |global|)
  {
    hide Linear, Vector, Stride;
    var w := Unshifted(v, lower);
    assert Shift(w, lower) == v;
    GlobalVector(global, extents, lower, w);
    l := Linear(extents, w, |global|);
  }

  /** Every grid point is stored by some rank. */
  lemma CellHasRank(global: Index, dims: seq<Dim>, poles: seq<Pole>, g: int) returns (r: int, l: int)
    requires AreDecompositions(global, dims, poles) && Positive(Counts(poles)) && 0 <= g < Stride(global, |global|)
    ensures IsRank(poles, r) && IsInside(global, ExtentsOf(poles, r), LowerOf(poles, r))
    ensures 0 <= l < Stride(ExtentsOf(poles, r), |global|)
            && GlobalOf(global, ExtentsOf(poles, r), LowerOf(poles, r), l) == g
  {
    hide Linear, Vector, OwnerOf, LowerOf, ExtentsOf, Stride, Dim.Valid, Pole.Valid, BoxAxis;
    var v := Vector(global, g, |global|);
    IndexBijection(global, [], g);
    OwnerIsRank(global, dims, poles, v);
    r := OwnerOf(poles, v);
    PartFits(global, dims, poles, r);
    l := PlaceOf(global, ExtentsOf(poles, r), LowerOf(poles, r), v);
  }

  lemma OwnerAlong(p: Pole, i: int)
    requires p.Valid() && 0 <= i < p.Length()
    ensures 0 <= p.Neighbor(i) < |p.cuts| && p.First(p.Neighbor(i)) <= i <= p.Last(p.Neighbor(i))
  {
    assert p.Owns(p.Neighbor(i), i);
  }

  lemma OwnerInBox(global: Index, dims: seq<Dim>, poles: seq<Pole>, v: Index)
    requires AreDecompositions(global, dims, poles) && InBox(global, v)
    ensures InBox(Counts(poles), OwnerCoords(poles, v))
    ensures forall d :: 0 <= d < |v| ==>
              var c := OwnerCoords(poles, v)[d]; poles[d].First(c) <= v[d] <= poles[d].Last(c)
  {
    hide Pole.Neighbor, Pole.First, Pole.Last, Pole.Valid, Pole.Owns, Dim.Valid, BoxAxis;
    var c := OwnerCoords(poles, v);
    forall d | 0 <= d < |v|
      ensures 0 <= c[d] < |poles[d].cuts| && poles[d].First(c[d]) <= v[d] <= poles[d].Last(c[d])
    {
      assert poles[d].Valid() && global[d] == poles[d].Length();
      OwnerAlong(poles[d], v[d]);
    }
  }

  lemma OwnerIsRank(global: Index, dims: seq<Dim>, poles: seq<Pole>, v: Index)
    requires AreDecompositions(global, dims, poles) && Positive(Counts(poles)) && InBox(global, v)
    ensures IsRank(poles, OwnerOf(poles, v))
    ensures InBox(ExtentsOf(poles, OwnerOf(poles, v)), Unshifted(v, LowerOf(poles, OwnerOf(poles, v))))
  {
    hide Pole.Neighbor, Pole.First, Pole.Last, Pole.Valid, Dim.Valid, BoxAxis, Linear, Vector, OwnerCoords;
    var counts, c := Counts(poles), OwnerCoords(poles, v);
    OwnerInBox(global, dims, poles, v);
    IndexBijection(counts, c, 0);
    assert CoordsOf(poles, OwnerOf(poles, v)) == c;
  }

  /** What the ranks store is the whole grid function. */
  lemma HeldGridIsUnique(global: Index, dims: seq<Dim>, poles: seq<Pole>, data: seq<seq<real>>, u: seq<real>,
                         v: seq<real>)
    requires HoldAll(global, dims, poles, data, u) && HoldAll(global, dims, poles, data, v)
    ensures u == v
  {
    forall g | 0 <= g < |u|
      ensures u[g] == v[g]
    {
      var r, l := CellHasRank(global, dims, poles, g);
      assert HoldsPart(global, dims, poles, r, data[r], u) && HoldsPart(global, dims, poles, r, data[r], v);
      assert data[r][l] == u[g];
    }
  }

  /** Whatever the ranks store is some grid function u.  Hierarchization and then dehierarchization, or the other way
      round, by all ranks leaves every array as it was if and only if the seams of u match. */
  method RoundTripAll(dims: seq<Dim>, poles: seq<Pole>, ghost global: Index, forward: bool, datas: seq<array<real>>)
    returns (ghost u: seq<real>)
    requires AreDecompositions(global, dims, poles) && Positive(Counts(poles))
             && |datas| == Stride(Counts(poles), |poles|)
    requires AreSeparate(datas)
             && forall r {:trigger datas[r]} :: 0 <= r < |datas| ==>
             datas[r].Length == Stride(ExtentsOf(poles, r), |poles|)
    modifies datas
    ensures old(StoreAll(global, dims, poles, datas, u)) && IsGrid(dims, |u|)
    ensures (forall r {:trigger datas[r]} :: 0 <= r < |datas| ==> datas[r][..] == old(datas[r][..]))
            <==> AllSeamsMatch(dims, u)
  {
    ghost var data := Snapshot(datas);
    PartsAreAGrid(global, dims, poles, data);
    u := Assembled(global, poles, data);
    TransformAll(dims, poles, global, forward, datas, u);
    TransformAll(dims, poles, global, !forward, datas, Swept(dims, forward, 0, |dims|, u));
    ghost var after := Snapshot(datas);
    SnapshotHolds(global, dims, poles, datas, after,
                  Swept(dims, !forward, 0, |dims|, Swept(dims, forward, 0, |dims|, u)));
    RestoredArrays(global, dims, poles, forward, data, after, u);
  }

  lemma RestoredArrays(global: Index, dims: seq<Dim>, poles: seq<Pole>, forward: bool, data: seq<seq<real>>,
                       after: seq<seq<real>>, u: seq<real>)
    requires IsGrid(dims, |u|) && HoldAll(global, dims, poles, data, u)
    requires HoldAll(global, dims, poles, after, Swept(dims, !forward, 0, |dims|, Swept(dims, forward, 0, |dims|, u)))
    ensures (forall r {:trigger after[r]} {:trigger data[r]} :: 0 <= r < |data| ==> after[r] == data[r])
            <==> AllSeamsMatch(dims, u)
  {
    hide AllSeamsMatch, IsGrid;
    var v := Swept(dims, !forward, 0, |dims|, Swept(dims, forward, 0, |dims|, u));
    GridRoundTrip(dims, forward, u);
    if forall r {:trigger after[r]} {:trigger data[r]} :: 0 <= r < |data| ==> after[r] == data[r] {
      assert after == data;
      HeldGridIsUnique(global, dims, poles, data, u, v);
    }
    if AllSeamsMatch(dims, u) {
      forall r | 0 <= r < |data|
        ensures after[r] == data[r]
      {
        assert HoldsPart(global, dims, poles, r, after[r], v) && HoldsPart(global, dims, poles, r, data[r], u);
        SameGridSameCells(global, dims, poles, r, after[r], data[r], u);
      }
    }
  }
}
