/** Whether the count of a process is the number of points that it stores. */
module PartitionedPoints {
  import opened Arithmetic
  import opened Dyadic
  import opened Poles
  import opened Tensor
  import opened LevelLists
  import opened SubspacePoints
  import opened PartitionedCount

  /** An odd multiple of 2^k is 2^k times an odd number. */
  lemma {:induction false} OddFactor(k: nat, x: int) returns (q: int)
    requires OddMult(k, x)
    ensures x == (2 * q + 1) * Pow2(k)
  {
    if k == 0 {
      q := x / 2;
    } else {
      q := OddFactor(k - 1, x / 2);
      assert (2 * q + 1) * Pow2(k) == 2 * ((2 * q + 1) * Pow2(k - 1));
    }
  }

  lemma Doubled(a: int, p: int, q: int)
    requires q == 2 * p
    ensures a * q == 2 * (a * p)
  {
  }

  lemma {:induction false} OddProduct(k: nat, q: int)
    ensures OddMult(k, (2 * q + 1) * Pow2(k))
  {
    if k > 0 {
      OddProduct(k - 1, q);
      Doubled(2 * q + 1, Pow2(k - 1), Pow2(k));
    } else {
      assert (2 * q + 1) * Pow2(0) == 2 * q + 1;
    }
  }

  /** The part of process r begins here; the last part ends behind the last point. */
  function PartStart(p: Pole, r: nat): int
    requires r <= |p.cuts|
  {
    if r < |p.cuts| then p.cuts[r] else p.Length()
  }

  ghost predicate IsCutPole(p: Pole, r: nat) {
    p.Valid() && p.lmax > 0 && p.boundary == 2 && r < |p.cuts|
  }

  lemma PartOfPole(p: Pole, r: nat)
    requires IsCutPole(p, r)
    ensures IsPart(p, r) && p.First(r) == PartStart(p, r) && p.Last(r) + 1 == PartStart(p, r + 1)
    ensures 0 <= PartStart(p, r) < PartStart(p, r + 1) <= Pow2(p.lmax) + 1
    ensures IsDecomposition(p.cuts, p.lmax)
  {
    assert 0 < |p.cuts| - 1 ==> p.cuts[0] < p.cuts[|p.cuts| - 1];
    assert 0 < r ==> p.cuts[0] < p.cuts[r];
    assert r < |p.cuts| - 1 ==> p.cuts[r + 1] <= p.cuts[|p.cuts| - 1];
  }

  /** From level 2 on the number of points given to the processes before r is the number of points before its part. */
  lemma PointsBeforeIsExact(p: Pole, r: nat, level: nat, i: nat)
    requires p.Valid() && p.boundary == 2 && r <= |p.cuts| && 1 < level <= p.lmax
    ensures i < PointsBefore(level, p.cuts, p.lmax, r) <==> (2 * i + 1) * Pow2(p.lmax - level) < PartStart(p, r)
  {
    var step := Pow2(p.lmax - level);
    if r == 0 {
      MulNatural(2 * i + 1, step);
    } else if r < |p.cuts| {
      HighestIndexIsExact(level, p.cuts[r], p.lmax, i);
    } else {
      LastPointIsInside(p.lmax, level, i);
    }
  }

  lemma LastPointIsInside(lmax: nat, level: nat, i: nat)
    requires 1 < level <= lmax
    ensures i < Pow2(level - 1) <==> (2 * i + 1) * Pow2(lmax - level) < Pow2(lmax) + 1
  {
    var half, step := Pow2(level - 1), Pow2(lmax - level);
    Pow2Sum(level, lmax - level);
    assert Pow2(level) == 2 * half;
    OddOrLarger(half, step, i);
  }

  lemma OddOrLarger(half: int, step: int, i: int)
    requires step > 0
    ensures i < half <==> (2 * i + 1) * step < (2 * half) * step + 1
  {
    assert step * (2 * i + 1) == (2 * i + 1) * step && step * (2 * half) == (2 * half) * step;
    if i < half {
      MulOrder(step, 2 * i + 1, 2 * half);
    } else {
      MulOrder(step, 2 * half, 2 * i + 1);
    }
  }

  /** The local indices of points a to b - 1 of a level. */
  function LocalPoints(p: Pole, r: nat, level: nat, a: nat, b: nat): (list: seq<int>)
    requires r < |p.cuts| && a <= b && level <= p.lmax
    ensures |list| == b - a
  {
    seq(b - a, j requires 0 <= j < b - a => (2 * (a + j) + 1) * Pow2(p.lmax - level) - p.First(r))
  }

  lemma LocalPointsAscend(p: Pole, r: nat, level: nat, a: nat, b: nat)
    requires r < |p.cuts| && a <= b && level <= p.lmax
    ensures StrictlyAscending(LocalPoints(p, r, level, a, b))
  {
    var list, step := LocalPoints(p, r, level, a, b), Pow2(p.lmax - level);
    forall i, j | 0 <= i < j < |list|
      ensures list[i] < list[j]
    {
      MulOrder(step, 2 * (a + i) + 1, 2 * (a + j) + 1);
      assert step * (2 * (a + i) + 1) == (2 * (a + i) + 1) * step;
      assert step * (2 * (a + j) + 1) == (2 * (a + j) + 1) * step;
    }
  }

  lemma GivenIsInPart(p: Pole, r: nat, level: nat, z: nat)
    requires IsCutPole(p, r) && 1 < level <= p.lmax
    requires PointsBefore(level, p.cuts, p.lmax, r) <= z < PointsBefore(level, p.cuts, p.lmax, r + 1)
    ensures var x := (2 * z + 1) * Pow2(p.lmax - level);
            p.First(r) <= x <= p.Last(r) && OddMult(p.lmax - level, x)
  {
    hide OddMult, PointsBefore, Pow2;
    PartOfPole(p, r);
    OddProduct(p.lmax - level, z);
    PointsBeforeIsExact(p, r, level, z);
    PointsBeforeIsExact(p, r + 1, level, z);
  }

  lemma PartIsGiven(p: Pole, r: nat, level: nat, x: int) returns (z: nat)
    requires IsCutPole(p, r) && 1 < level <= p.lmax && p.First(r) <= x <= p.Last(r) && OddMult(p.lmax - level, x)
    ensures x == (2 * z + 1) * Pow2(p.lmax - level)
    ensures PointsBefore(level, p.cuts, p.lmax, r) <= z < PointsBefore(level, p.cuts, p.lmax, r + 1)
  {
    hide OddMult, PointsBefore, Pow2;
    PartOfPole(p, r);
    var q := OddFactor(p.lmax - level, x);
    NotBelow(Pow2(p.lmax - level), q, x);
    z := q;
    PointsBeforeIsExact(p, r, level, z);
    PointsBeforeIsExact(p, r + 1, level, z);
  }

  lemma NotBelow(step: int, q: int, x: int)
    requires step > 0 && x == (2 * q + 1) * step && x >= 0
    ensures q >= 0
  {
    assert step * (2 * q + 1) == x;
    MulOrder(step, 2 * q + 1, 0);
  }

  lemma LocalPointsAre(p: Pole, r: nat, level: nat, a: nat, b: nat, i: int)
    requires r < |p.cuts| && a <= b && level <= p.lmax
    ensures i in LocalPoints(p, r, level, a, b)
            <==> exists z: nat :: a <= z < b && p.First(r) + i == (2 * z + 1) * Pow2(p.lmax - level)
  {
    hide Pow2;
    var list := LocalPoints(p, r, level, a, b);
    if i in list {
      var j :| 0 <= j < |list| && list[j] == i;
      var z: nat := a + j;
      assert p.First(r) + i == (2 * z + 1) * Pow2(p.lmax - level);
    }
    if z: nat :| a <= z < b && p.First(r) + i == (2 * z + 1) * Pow2(p.lmax - level) {
      assert list[z - a] == i;
    }
  }

  lemma ListedIsOnLevel(p: Pole, r: nat, level: nat, a: nat, b: nat, i: int)
    requires IsCutPole(p, r) && 1 < level <= p.lmax && a <= b
    requires a == PointsBefore(level, p.cuts, p.lmax, r) && b == PointsBefore(level, p.cuts, p.lmax, r + 1)
    ensures i in LocalPoints(p, r, level, a, b) <==> 0 <= i < PartSize(p, r) && OddMult(p.lmax - level, p.First(r) + i)
  {
    hide OddMult, PointsBefore, Pow2, LocalPoints;
    LocalPointsAre(p, r, level, a, b, i);
    if z: nat :| a <= z < b && p.First(r) + i == (2 * z + 1) * Pow2(p.lmax - level) {
      GivenIsInPart(p, r, level, z);
    }
    if 0 <= i < PartSize(p, r) && OddMult(p.lmax - level, p.First(r) + i) {
      var z := PartIsGiven(p, r, level, p.First(r) + i);
    }
  }

  /** From level 2 on every process is given exactly the points that it stores. */
  lemma PartExtentIsExact(p: Pole, r: nat, level: nat, list: seq<int>)
    requires IsCutPole(p, r) && 1 < level <= p.lmax && IsLevelList(p, r, level, list)
    ensures |list| == PartExtents(level, p.cuts, p.lmax)[r]
  {
    hide PointsBefore, OddMult, IsDecomposition;
    PartOfPole(p, r);
    PointsBeforeGrow(level, p.cuts, p.lmax, r);
    var a, b := PointsBefore(level, p.cuts, p.lmax, r), PointsBefore(level, p.cuts, p.lmax, r + 1);
    var points := LocalPoints(p, r, level, a, b);
    LocalPointsAscend(p, r, level, a, b);
    forall i
      ensures i in list <==> i in points
    {
      ListedIsOnLevel(p, r, level, a, b, i);
      if 0 <= i < PartSize(p, r) {
        OnLevelMeansLevel(p, level, p.First(r) + i);
      }
    }
    AscendingIsUnique(list, points);
  }

  /** The points of level 1 between two cuts, as local indices. */
  function LevelOnePoints(lmax: nat, start: int, end: int): (list: seq<int>) {
    (if start <= 0 < end then [0 - start] else [])
    + (if start <= Pow2(lmax) / 2 < end then [Pow2(lmax) / 2 - start] else [])
    + if start <= Pow2(lmax) < end then [Pow2(lmax) - start] else []
  }

  /** The process before a cut is given one point too many of level 1 if the cut falls on the middle or the last
      point. */
  predicate IsHit(p: Pole, r: nat) {
    0 < r < |p.cuts| && (p.cuts[r] == Pow2(p.lmax) / 2 || p.cuts[r] == Pow2(p.lmax))
  }

  lemma LevelOneBefore(p: Pole, r: nat)
    requires p.Valid() && p.lmax > 0 && p.boundary == 2 && r <= |p.cuts|
    ensures PointsBefore(1, p.cuts, p.lmax, r)
            == LevelOnePointsBelow(PartStart(p, r), p.lmax) + if IsHit(p, r) then 1 else 0
  {
    assert Pow2(p.lmax) == 2 * Pow2(p.lmax - 1);
  }

  lemma LevelOneMembers(p: Pole, r: nat, i: int)
    requires IsCutPole(p, r)
    ensures i in LevelOnePoints(p.lmax, p.First(r), p.Last(r) + 1)
            <==> 0 <= i < PartSize(p, r) && LocalLevel(p, r, i) == 1
  {
    hide IsDecomposition, Mult, Pow2, LocalLevel;
    PartOfPole(p, r);
    if 0 <= i < PartSize(p, r) {
      OnLevelOne(p, r, i);
    }
  }

  lemma OnLevelOne(p: Pole, r: nat, i: int)
    requires IsCutPole(p, r) && 0 <= i < PartSize(p, r) && IsPart(p, r)
    ensures var x, n := p.First(r) + i, Pow2(p.lmax); LocalLevel(p, r, i) == 1 <==> x == 0 || x == n / 2 || x == n
  {
    hide Mult, Pow2;
    OnLevelMeansLevel(p, 1, p.First(r) + i);
    MultiplesOfHalf(p.lmax, p.First(r) + i);
  }

  lemma LevelOneAscends(lmax: nat, start: int, end: int)
    requires lmax > 0
    ensures StrictlyAscending(LevelOnePoints(lmax, start, end))
  {
    assert Pow2(lmax) == 2 * Pow2(lmax - 1);
  }

  lemma LevelOneLength(lmax: nat, start: int, end: int)
    requires lmax > 0 && start <= end
    ensures |LevelOnePoints(lmax, start, end)| == LevelOnePointsBelow(end, lmax) - LevelOnePointsBelow(start, lmax)
  {
    hide Pow2;
  }

  lemma LevelOneList(p: Pole, r: nat, list: seq<int>)
    requires IsCutPole(p, r) && IsLevelList(p, r, 1, list)
    ensures |list| == LevelOnePointsBelow(PartStart(p, r + 1), p.lmax) - LevelOnePointsBelow(PartStart(p, r), p.lmax)
  {
    hide LevelOnePoints, LevelOnePointsBelow, LocalLevel;
    PartOfPole(p, r);
    var points := LevelOnePoints(p.lmax, p.First(r), p.Last(r) + 1);
    forall i
      ensures i in list <==> i in points
    {
      LevelOneMembers(p, r, i);
    }
    LevelOneAscends(p.lmax, p.First(r), p.Last(r) + 1);
    LevelOneLength(p.lmax, p.First(r), p.Last(r) + 1);
    AscendingIsUnique(list, points);
  }

  lemma MultiplesOfHalf(lmax: nat, x: int)
    requires lmax > 0 && 0 <= x <= Pow2(lmax)
    ensures Mult(lmax - 1, x) <==> x == 0 || x == Pow2(lmax) / 2 || x == Pow2(lmax)
  {
    var h := Pow2(lmax - 1);
    MultZero(lmax - 1);
    MultPow2(lmax - 1, lmax - 1);
    MultPow2(lmax - 1, lmax);
    if 0 < x < h {
      Spacing(lmax - 1, 0, x);
    } else if h < x < 2 * h {
      Spacing(lmax - 1, h, x);
    }
  }

  /** On level 1 a process is given exactly the points that it stores if and only if both of its cuts hit the middle or
      the last point, or neither. */
  lemma LevelOneExtentIsExact(p: Pole, r: nat, list: seq<int>)
    requires IsCutPole(p, r) && IsLevelList(p, r, 1, list)
    ensures |list| == PartExtents(1, p.cuts, p.lmax)[r] <==> (IsHit(p, r) <==> IsHit(p, r + 1))
  {
    hide PointsBefore, IsHit, LevelOnePointsBelow;
    LevelOneList(p, r, list);
    LevelOneBefore(p, r);
    LevelOneBefore(p, r + 1);
  }

  /** A process is given what it stores of a level. */
  ghost predicate IsExactOn(p: Pole, r: nat, level: nat) {
    IsCutPole(p, r) && 1 <= level <= p.lmax && (level == 1 ==> (IsHit(p, r) <==> IsHit(p, r + 1)))
  }

  /** The decomposition and the reference level of the counts are those of the poles. */
  ghost predicate AreCounted(poles: seq<Pole>, me: seq<nat>, l: seq<nat>, referenceLevel: seq<nat>,
                             decomposition: seq<seq<int>>) {
    && |poles| == |me| == |l| == |referenceLevel| == |decomposition|
    && forall d {:trigger poles[d]} {:trigger l[d]} {:trigger decomposition[d]} :: 0 <= d < |poles| ==>
         IsExactOn(poles[d], me[d], l[d]) && decomposition[d] == poles[d].cuts && referenceLevel[d] == poles[d].lmax
  }

  lemma CountedIsWithin(poles: seq<Pole>, me: seq<nat>, l: seq<nat>, referenceLevel: seq<nat>,
                        decomposition: seq<seq<int>>)
    requires AreCounted(poles, me, l, referenceLevel, decomposition)
    ensures IsWithin(l, referenceLevel) && |decomposition| == |l|
    ensures forall d :: 0 <= d < |l| ==> me[d] < |decomposition[d]|
  {
    hide IsHit;
  }

  lemma ExtentIsLength(p: Pole, r: nat, level: nat, list: seq<int>)
    requires IsExactOn(p, r, level) && IsLevelList(p, r, level, list)
    ensures |list| == PartExtents(level, p.cuts, p.lmax)[r]
  {
    hide IsLevelList, PartExtents, IsHit;
    if level == 1 {
      LevelOneExtentIsExact(p, r, list);
    } else {
      PartExtentIsExact(p, r, level, list);
    }
  }

  lemma {:induction false} ProductOfParts(poles: seq<Pole>, me: seq<nat>, l: seq<nat>, referenceLevel: seq<nat>,
                                          decomposition: seq<seq<int>>, lists: Lists, k: nat)
    requires AreCounted(poles, me, l, referenceLevel, decomposition) && AreLevelLists(poles, me, l, lists) && k <= |l|
    requires IsWithin(l, referenceLevel) && forall d :: 0 <= d < |l| ==> me[d] < |decomposition[d]|
    ensures Product(lists, k) == ProductAt(AllPartExtents(l, referenceLevel, decomposition), me, k)
  {
    hide IsLevelList, PartExtents, IsExactOn, IsWithin;
    if k > 0 {
      ProductOfParts(poles, me, l, referenceLevel, decomposition, lists, k - 1);
      ExtentIsLength(poles[k - 1], me[k - 1], l[k - 1], lists[k - 1]);
    }
  }

  /** What process i is given of a subspace is the length of the list of the cells that it stores. */
  lemma ShareIsStored(poles: seq<Pole>, me: seq<nat>, extents: Index, l: seq<nat>, referenceLevel: seq<nat>,
                      decomposition: seq<seq<int>>, i: nat, points: seq<int>)
    requires AreCounted(poles, me, l, referenceLevel, decomposition)
    requires IsGridPart(poles, me, extents) && IsSubspaceList(poles, me, extents, l, points)
    requires var procs := ProcsOf(decomposition);
             Positive(procs) && i < Stride(procs, |procs|) && me == Vector(procs, i, |procs|)
    ensures IsWithin(l, referenceLevel)
            && Matches(ProcsOf(decomposition), AllPartExtents(l, referenceLevel, decomposition))
    ensures |points| == Share(ProcsOf(decomposition), AllPartExtents(l, referenceLevel, decomposition), |decomposition|,
                              i)
  {
    hide IsLevelList, PointsOf, Choices, PartExtents, IsExactOn, Product, Vector;
    var lists :| AreLevelLists(poles, me, l, lists) && points == PointsOf(extents, lists, |lists| - 1, 0);
    CountedIsWithin(poles, me, l, referenceLevel, decomposition);
    SameLength(extents, lists, |lists| - 1, 0);
    NumberOfChoices(lists, |lists| - 1);
    ProductOfParts(poles, me, l, referenceLevel, decomposition, lists, |l|);
  }
}
