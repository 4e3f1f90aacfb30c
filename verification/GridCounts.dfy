/** How many points there are, counted in different ways: along a pole, level by level, and over the parts of all
    ranks. */
module GridCounts {
  import opened Sums
  import opened Dyadic
  import opened Tensor
  import opened Poles
  import opened ProcessGrid
  import opened LevelLists
  import opened TaskDistribution
  import opened PartitionedCount
  import opened SubspacePoints

  /** The first q points of a level on an undivided pole. */
  lemma {:induction false} FirstPoints(p: Pole, l: nat, q: nat) returns (list: seq<int>)
    requires 1 <= l <= p.lmax && p.cuts == [0]
    ensures |list| == q
    ensures ListsLevel(p, 0, l, list, OffsetForThisLevel(p, l) + q * StrideForThisLevel(p, l))
    ensures forall i :: i in list ==> i <= OffsetForThisLevel(p, l) + (q - 1) * StrideForThisLevel(p, l)
  {
    hide OnLevel, OffsetForThisLevel, StrideForThisLevel;
    var offset, stride := OffsetForThisLevel(p, l), StrideForThisLevel(p, l);
    if q == 0 {
      list := [];
      FirstOfLevel(p, l);
    } else {
      var front := FirstPoints(p, l, q - 1);
      var start := offset + (q - 1) * stride;
      SizesOfLevel(p, l, q - 1);
      NthOfLevel(p, l, q - 1);
      NextPoint(p, 0, l, front, start);
      assert start + stride == offset + q * stride;
      list := front + [start];
    }
  }

  lemma SizesOfLevel(p: Pole, l: nat, q: nat)
    requires 1 <= l <= p.lmax
    ensures StrideForThisLevel(p, l) > 0 && OffsetForThisLevel(p, l) + q * StrideForThisLevel(p, l) >= 0
  {
    var stride := StrideForThisLevel(p, l);
    MulNatural(q, stride);
  }

  /** Number of points of level l on a pole; its boundary points count as level 1. */
  function PointsOnPole(l: nat, boundary: nat): nat
    requires l > 0
  {
    if l == 1 then 1 + boundary else Pow2(l - 1)
  }

  lemma LastOfLevel(p: Pole, l: nat)
    requires 1 <= l <= p.lmax
    ensures OffsetForThisLevel(p, l) + PointsOnPole(l, p.boundary) * StrideForThisLevel(p, l) >= p.Length()
    ensures OffsetForThisLevel(p, l) + (PointsOnPole(l, p.boundary) - 1) * StrideForThisLevel(p, l) < p.Length()
  {
    var h := Pow2(p.lmax - l);
    if l > 1 {
      Pow2Sum(l - 1, p.lmax - l + 1);
      assert PointsOnPole(l, p.boundary) * StrideForThisLevel(p, l) == Pow2(p.lmax);
      assert (PointsOnPole(l, p.boundary) - 1) * StrideForThisLevel(p, l) == Pow2(p.lmax) - 2 * h;
    }
  }

  /** The list of a level on an undivided pole has as many entries as the level has points. */
  lemma LevelListLength(p: Pole, l: nat, list: seq<int>)
    requires 1 <= l <= p.lmax && p.cuts == [0] && IsLevelList(p, 0, l, list)
    ensures |list| == PointsOnPole(l, p.boundary)
    ensures p.boundary == 2 ==> |list| == PointsOfLevel(l)
  {
    hide OnLevel, OffsetForThisLevel, StrideForThisLevel, LocalLevel;
    var q := PointsOnPole(l, p.boundary);
    var points := FirstPoints(p, l, q);
    LastOfLevel(p, l);
    LevelListComplete(p, 0, l, points, OffsetForThisLevel(p, l) + q * StrideForThisLevel(p, l));
    AscendingIsUnique(list, points);
  }

  /** One process has the whole grid, which has boundary points in all dimensions and contains the subspace. */
  ghost predicate IsUndivided(poles: seq<Pole>, me: seq<nat>, l: seq<nat>) {
    && |poles| == |me| == |l|
    && forall d {:trigger poles[d]} {:trigger l[d]} :: 0 <= d < |l| ==>
         poles[d].cuts == [0] && poles[d].boundary == 2 && 1 <= l[d] <= poles[d].lmax && me[d] == 0
  }

  lemma {:induction false} ProductOfLevels(poles: seq<Pole>, me: seq<nat>, l: seq<nat>, lists: Lists, k: nat)
    requires IsUndivided(poles, me, l) && k <= |l| && AreLevelLists(poles, me, l, lists)
    ensures forall d :: 0 <= d < k ==> l[..k][d] > 0
    ensures Product(lists, k) == PointsOfSubspace(l[..k])
  {
    hide IsLevelList, PointsOfLevel;
    assert forall d :: 0 <= d < k ==> l[..k][d] == l[d];
    if k > 0 {
      ProductOfLevels(poles, me, l, lists, k - 1);
      LevelListLength(poles[k - 1], l[k - 1], lists[k - 1]);
      assert l[..k][..k - 1] == l[..k - 1];
    }
  }

  lemma LengthOfPoints(poles: seq<Pole>, me: seq<nat>, extents: Index, l: seq<nat>, lists: Lists)
    requires IsUndivided(poles, me, l) && AreLevelLists(poles, me, l, lists) && |lists| == |extents| > 0
    ensures (forall d :: 0 <= d < |l| ==> l[d] > 0)
            && |PointsOf(extents, lists, |lists| - 1, 0)| == PointsOfSubspace(l)
  {
    hide PointsOf, Choices, IsLevelList, PointsOfSubspace, Product;
    SameLength(extents, lists, |lists| - 1, 0);
    NumberOfChoices(lists, |lists| - 1);
    ProductOfLevels(poles, me, l, lists, |l|);
    assert l[..|l|] == l;
  }

  /** The list of a subspace has as many entries as the count says. */
  lemma SubspaceListLength(poles: seq<Pole>, me: seq<nat>, extents: Index, l: seq<nat>, points: seq<int>)
    requires IsUndivided(poles, me, l) && IsGridPart(poles, me, extents)
             && IsSubspaceList(poles, me, extents, l, points)
    ensures (forall d :: 0 <= d < |l| ==> l[d] > 0) && |points| == PointsOfSubspace(l)
  {
    hide PointsOf, IsLevelList, PointsOfSubspace;
    var lists :| AreLevelLists(poles, me, l, lists) && points == PointsOf(extents, lists, |lists| - 1, 0);
    LengthOfPoints(poles, me, extents, l, lists);
  }

  /** The points of the first l levels. */
  function PointsUpTo(l: nat, boundary: nat): nat {
    if l == 0 then 0 else PointsUpTo(l - 1, boundary) + PointsOnPole(l, boundary)
  }

  /** The levels together have as many points as one dimension of the grid. */
  lemma {:induction false} LevelsFillThePole(l: nat, boundary: nat)
    requires l > 0
    ensures PointsUpTo(l, boundary) == PointsAlong(l, boundary)
  {
    if l > 1 {
      LevelsFillThePole(l - 1, boundary);
    } else {
      assert PointsUpTo(0, boundary) == 0;
    }
  }

  /** The poles of the grid with the given level. */
  ghost predicate ArePolesOf(poles: seq<Pole>, level: seq<nat>, boundary: seq<nat>) {
    && |poles| == |level| == |boundary|
    && forall d :: 0 <= d < |poles| ==> poles[d].lmax == level[d] && poles[d].boundary == boundary[d]
  }

  /** The sizes that the load is computed from are the numbers of points on the poles of the grid. */
  lemma SizesAreLengths(level: seq<nat>, boundary: seq<nat>, poles: seq<Pole>, d: nat)
    requires ArePolesOf(poles, level, boundary) && d < |poles|
    ensures GridSizes(level, boundary)[d] == poles[d].Length()
  {
  }

  /** How many points of a pole every rank owns. */
  function PartSizes(p: Pole): (sizes: seq<int>)
    ensures |sizes| == |p.cuts|
  {
    seq(|p.cuts|, r requires 0 <= r < |p.cuts| => p.Last(r) - p.First(r) + 1)
  }

  lemma {:induction false} PartsBelow(p: Pole, r: nat)
    requires p.Valid() && r <= |p.cuts|
    ensures Sum(PartSizes(p)[..r]) == if r < |p.cuts| then p.First(r) else p.Length()
  {
    if r > 0 {
      PartsBelow(p, r - 1);
      assert PartSizes(p)[..r][..r - 1] == PartSizes(p)[..r - 1];
    }
  }

  function AllPartSizes(poles: seq<Pole>): (lists: seq<seq<int>>)
    ensures |lists| == |poles|
  {
    seq(|poles|, d requires 0 <= d < |poles| => PartSizes(poles[d]))
  }

  ghost predicate AreValidPoles(poles: seq<Pole>) {
    forall d :: 0 <= d < |poles| ==> poles[d].Valid()
  }

  lemma CountsMatch(poles: seq<Pole>)
    requires AreValidPoles(poles)
    ensures Matches(Counts(poles), AllPartSizes(poles))
  {
  }

  lemma {:induction false} ProductOfLengths(poles: seq<Pole>, level: seq<nat>, boundary: seq<nat>, k: nat)
    requires ArePolesOf(poles, level, boundary) && AreValidPoles(poles) && k <= |poles|
    ensures ProductOfSums(AllPartSizes(poles), k) == Stride(GridSizes(level, boundary), k)
  {
    if k > 0 {
      var p := poles[k - 1];
      ProductOfLengths(poles, level, boundary, k - 1);
      PartsBelow(p, |p.cuts|);
      assert PartSizes(p)[..|p.cuts|] == PartSizes(p);
      SizesAreLengths(level, boundary, poles, k - 1);
    }
  }

  lemma {:induction false} PartOfRank(poles: seq<Pole>, r: int, k: nat)
    requires IsRank(poles, r) && k <= |poles|
    ensures forall d :: 0 <= d < |poles| ==> |AllPartSizes(poles)[d]| == |poles[d].cuts|
    ensures ProductAt(AllPartSizes(poles), CoordsOf(poles, r), k) == Stride(ExtentsOf(poles, r), k)
  {
    hide CoordsOf, IsRank, Pole.First, Pole.Last;
    if k > 0 {
      PartOfRank(poles, r, k - 1);
      assert AllPartSizes(poles)[k - 1][CoordsOf(poles, r)[k - 1]] == ExtentsOf(poles, r)[k - 1];
    }
  }

  /** Cells that the first n ranks store. */
  ghost function CellsOfRanks(poles: seq<Pole>, n: nat): int
    requires Positive(Counts(poles)) && n <= Stride(Counts(poles), |poles|)
  {
    if n == 0 then 0 else CellsOfRanks(poles, n - 1) + Stride(ExtentsOf(poles, n - 1), |poles|)
  }

  lemma {:induction false} SharesAreCells(poles: seq<Pole>, n: nat)
    requires AreValidPoles(poles) && Positive(Counts(poles)) && n <= Stride(Counts(poles), |poles|)
    requires Matches(Counts(poles), AllPartSizes(poles))
    ensures SumOfShares(Counts(poles), AllPartSizes(poles), |poles|, n) == CellsOfRanks(poles, n)
  {
    hide Stride, ExtentsOf, ProductAt;
    if n > 0 {
      SharesAreCells(poles, n - 1);
      PartOfRank(poles, n - 1, |poles|);
    }
  }

  /** The load of a grid is the number of cells that all ranks of a group store for it, however it is decomposed. */
  lemma LoadIsStored(level: seq<nat>, boundary: seq<nat>, poles: seq<Pole>)
    requires ArePolesOf(poles, level, boundary) && AreValidPoles(poles)
    ensures Positive(Counts(poles)) && Stride(Counts(poles), |poles|) >= 0
    ensures CellsOfRanks(poles, Stride(Counts(poles), |poles|)) == Stride(GridSizes(level, boundary), |level|)
  {
    hide SumOfShares, CellsOfRanks, Stride, GridSizes, ProductOfSums;
    var procs := Counts(poles);
    CountsMatch(poles);
    SharesMultiply(procs, AllPartSizes(poles), |poles|);
    SharesAreCells(poles, Stride(procs, |poles|));
    ProductOfLengths(poles, level, boundary, |poles|);
  }

  /** So are the loads by which the grids are handed out. */
  lemma LoadsAreStored(loads: seq<nat>, allLevels: seq<seq<nat>>, boundary: seq<nat>, i: nat, poles: seq<Pole>)
    requires AreGridSizes(loads, allLevels, boundary) && i < |allLevels|
    requires ArePolesOf(poles, allLevels[i], boundary) && AreValidPoles(poles)
    ensures Positive(Counts(poles)) && Stride(Counts(poles), |poles|) >= 0
    ensures loads[i] == CellsOfRanks(poles, Stride(Counts(poles), |poles|))
  {
    LoadIsStored(allLevels[i], boundary, poles);
  }
}
