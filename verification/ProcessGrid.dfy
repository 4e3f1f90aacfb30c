/** The ranks of a grid form a Cartesian arrangement: dimension d is cut into |poles[d].cuts| parts, and a rank stores
    one part of every dimension. */
module ProcessGrid {
  import opened Poles
  import opened SuccessorSearch
  import opened Tensor
  import opened GridAxes
  import opened GridSweep
  import opened GridTransform
  import opened DistributedGrid
  import opened GridExchange

  /** Number of parts in every dimension. */
  function Counts(poles: seq<Pole>): (counts: Index)
    ensures |counts| == |poles|
  {
    seq(|poles|, d requires 0 <= d < |poles| => |poles[d].cuts|)
  }

  /** The poles are decompositions of the dimensions of the grid. */
  ghost predicate AreDecompositions(global: Index, dims: seq<Dim>, poles: seq<Pole>) {
    && |dims| == |poles| == |global| && Positive(global)
    && forall d {:trigger dims[d]} {:trigger poles[d]} :: 0 <= d < |dims| ==>
         && poles[d].Valid() && poles[d].lmax == dims[d].lmax && poles[d].boundary == dims[d].boundary
         && global[d] == poles[d].Length() && dims[d].axis == BoxAxis(global, d)
           && dims[d].Valid(Stride(global, |global|))
  }

  predicate IsRank(poles: seq<Pole>, r: int) {
    Positive(Counts(poles)) && 0 <= r < Stride(Counts(poles), |poles|)
  }

  /** The coordinates of a rank. */
  function CoordsOf(poles: seq<Pole>, r: int): (c: Index)
    requires IsRank(poles, r)
    ensures InBox(Counts(poles), c) && |c| == |poles| && forall d :: 0 <= d < |c| ==> 0 <= c[d] < |poles[d].cuts|
  {
    IndexBijection(Counts(poles), [], r);
    Vector(Counts(poles), r, |poles|)
  }

  function LowerOf(poles: seq<Pole>, r: int): (lower: Index)
    requires IsRank(poles, r)
    ensures |lower| == |poles|
  {
    var c := CoordsOf(poles, r);
    seq(|poles|, d requires 0 <= d < |poles| => poles[d].First(c[d]))
  }

  function ExtentsOf(poles: seq<Pole>, r: int): (extents: Index)
    requires IsRank(poles, r)
    ensures |extents| == |poles|
  {
    var c := CoordsOf(poles, r);
    seq(|poles|, d requires 0 <= d < |poles| => poles[d].Last(c[d]) - poles[d].First(c[d]) + 1)
  }

  lemma PartFits(global: Index, dims: seq<Dim>, poles: seq<Pole>, r: int)
    requires AreDecompositions(global, dims, poles) && IsRank(poles, r)
    ensures IsInside(global, ExtentsOf(poles, r), LowerOf(poles, r))
    ensures forall d :: 0 <= d < |dims| ==>
              DimFits(dims[d], poles[d], CoordsOf(poles, r)[d], global, ExtentsOf(poles, r), LowerOf(poles, r), d)
  {
    var c, extents, lower := CoordsOf(poles, r), ExtentsOf(poles, r), LowerOf(poles, r);
    forall d | 0 <= d < |global|
      ensures lower[d] >= 0 && extents[d] > 0 && lower[d] + extents[d] <= global[d]
    {
      assert poles[d].Valid();
      OwnershipIsExclusive(poles[d], c[d], c[d], poles[d].First(c[d]));
      OwnershipIsExclusive(poles[d], c[d], c[d], poles[d].Last(c[d]));
    }
  }

  /** The axes of a flat grid follow each other. */
  lemma BoxIsGrid(global: Index, dims: seq<Dim>, poles: seq<Pole>)
    requires AreDecompositions(global, dims, poles)
    ensures IsGrid(dims, Stride(global, |global|))
  {
    forall i, j | 0 <= i < j < |dims|
      ensures IsLater(dims[i].axis, dims[j].axis)
    {
      StridePositive(global, i);
      StridePositive(global, j);
      var m := StrideFactor(global, i, j);
      assert dims[i].axis == BoxAxis(global, i) && dims[j].axis == BoxAxis(global, j);
    }
  }

  /** The q-th rank on the pole of rank r along dimension d. */
  function RankAt(poles: seq<Pole>, r: int, d: nat, q: nat): int
    requires IsRank(poles, r) && d < |poles|
  {
    StridePositive(Counts(poles), d);
    BoxAxis(Counts(poles), d).Move(r, q)
  }

  lemma RankAtCoords(poles: seq<Pole>, r: int, d: nat, q: nat)
    requires IsRank(poles, r) && d < |poles| && q < |poles[d].cuts|
    ensures IsRank(poles, RankAt(poles, r, d, q))
            && CoordsOf(poles, RankAt(poles, r, d, q)) == CoordsOf(poles, r)[d := q]
  {
    var counts, c := Counts(poles), CoordsOf(poles, r);
    MoveChangesDigit(counts, r, d, q);
    IndexBijection(counts, c[d := q], 0);
  }

  lemma OwnPlace(poles: seq<Pole>, r: int, d: nat)
    requires IsRank(poles, r) && d < |poles|
    ensures RankAt(poles, r, d, CoordsOf(poles, r)[d]) == r
  {
    var counts, c := Counts(poles), CoordsOf(poles, r);
    MoveChangesDigit(counts, r, d, c[d]);
    IndexBijection(counts, [], r);
    assert c[d := c[d]] == c;
  }

  /** The ranks on a pole differ in that dimension only. */
  lemma OnOneLine(global: Index, dims: seq<Dim>, poles: seq<Pole>, r: int, d: nat, q: nat, s: nat)
    requires AreDecompositions(global, dims, poles) && IsRank(poles, r) && d < |poles|
    requires q < |poles[d].cuts| && s < |poles[d].cuts|
    ensures IsRank(poles, RankAt(poles, r, d, q)) && IsRank(poles, RankAt(poles, r, d, s))
    ensures var a, b := RankAt(poles, r, d, q), RankAt(poles, r, d, s);
            OnSamePole(global, ExtentsOf(poles, a), LowerOf(poles, a), ExtentsOf(poles, b), LowerOf(poles, b), d)
  {
    RankAtCoords(poles, r, d, q);
    RankAtCoords(poles, r, d, s);
    PartFits(global, dims, poles, RankAt(poles, r, d, q));
    PartFits(global, dims, poles, RankAt(poles, r, d, s));
  }

  /** The coordinates of the rank that owns a grid point. */
  function OwnerCoords(poles: seq<Pole>, v: Index): (c: Index)
    requires |v| == |poles|
    ensures |c| == |v|
  {
    seq(|v|, d requires 0 <= d < |v| => poles[d].Neighbor(v[d]))
  }

  lemma OwnerIsUnique(global: Index, dims: seq<Dim>, poles: seq<Pole>, r: int, v: Index)
    requires AreDecompositions(global, dims, poles) && IsRank(poles, r) && InBox(ExtentsOf(poles, r), v)
    ensures OwnerCoords(poles, Shift(v, LowerOf(poles, r))) == CoordsOf(poles, r)
  {
    var c, w := CoordsOf(poles, r), Shift(v, LowerOf(poles, r));
    forall d | 0 <= d < |v|
      ensures poles[d].Neighbor(w[d]) == c[d]
    {
      assert poles[d].Valid();
      assert poles[d].Owns(c[d], w[d]);
      OwnershipIsExclusive(poles[d], c[d], c[d], w[d]);
      OwnershipIsExclusive(poles[d], c[d], poles[d].Neighbor(w[d]), w[d]);
    }
  }
}
