/** Degrees of freedom of a sparse grid, counted for every process of a group. */
module PartitionedCount {
  import opened Arithmetic
  import opened Sums
  import opened Tensor
  import opened Dyadic
  import opened Downsampling

  /** Points of a hierarchical level in one dimension; boundary points count as level 1. */
  function PointsOfLevel(level: nat): nat
    requires level > 0
  {
    if level > 1 then Pow2(level - 1) else 3
  }

  /** Highest index in the hierarchical subspace whose point lies left of nodalIndex on the reference level,
      or -1. */
  function HighestIndexLowerThan(level: nat, nodalIndex: int, referenceLevel: nat): int
    requires 0 < level <= referenceLevel
  {
    if level == 1 then
      if nodalIndex <= 0 then -1
      else if nodalIndex >= Pow2(referenceLevel) then 2
      else if nodalIndex >= Pow2(referenceLevel) / 2 then 1
      else 0
    else
      var step := Pow2(referenceLevel - level);
      if nodalIndex > step then CeilDiv(nodalIndex - step, 2 * step) - 1 else -1
  }

  /** From level 2 on the index is exact: point i lies at (2i + 1) steps. */
  lemma HighestIndexIsExact(level: nat, nodalIndex: int, referenceLevel: nat, i: int)
    requires 1 < level <= referenceLevel && i >= 0
    ensures i <= HighestIndexLowerThan(level, nodalIndex, referenceLevel)
            <==> (2 * i + 1) * Pow2(referenceLevel - level) < nodalIndex
  {
    var step := Pow2(referenceLevel - level);
    CeilDivBound(nodalIndex - step, 2 * step, i);
    assert i * (2 * step) == 2 * i * step;
    assert (2 * i + 1) * step == 2 * i * step + step;
    if nodalIndex <= step {
      assert 2 * i * step >= 0 by {
        MulNatural(2 * i, step);
      }
    }
  }

  lemma MulNatural(a: int, b: int)
    requires a >= 0 && b >= 0
    ensures a * b >= 0
  {
  }

  /** Number of the three points of level 1 left of nodalIndex. */
  function LevelOnePointsBelow(nodalIndex: int, referenceLevel: nat): int {
    (if 0 < nodalIndex then 1 else 0) + (if Pow2(referenceLevel) / 2 < nodalIndex then 1 else 0)
    + if Pow2(referenceLevel) < nodalIndex then 1 else 0
  }

  /** On level 1 the index is one too high exactly when a cut falls on the middle or the last point. */
  lemma LevelOneIsExactUnlessCut(nodalIndex: int, referenceLevel: nat)
    requires referenceLevel > 0
    ensures HighestIndexLowerThan(1, nodalIndex, referenceLevel) == LevelOnePointsBelow(nodalIndex, referenceLevel) - 1
            <==> nodalIndex != Pow2(referenceLevel) / 2 && nodalIndex != Pow2(referenceLevel)
  {
    assert Pow2(referenceLevel) == 2 * Pow2(referenceLevel - 1);
  }

  lemma HighestIndexInRange(level: nat, nodalIndex: int, other: int, referenceLevel: nat)
    requires 0 < level <= referenceLevel && nodalIndex <= other <= Pow2(referenceLevel)
    ensures -1 <= HighestIndexLowerThan(level, nodalIndex, referenceLevel)
            <= HighestIndexLowerThan(level, other, referenceLevel)
    ensures HighestIndexLowerThan(level, other, referenceLevel) <= PointsOfLevel(level) - 1
  {
    if level > 1 {
      var step := Pow2(referenceLevel - level);
      var a, b := HighestIndexLowerThan(level, nodalIndex, referenceLevel),
        HighestIndexLowerThan(level, other, referenceLevel);
      if nodalIndex > step {
        CeilDivBound(nodalIndex - step, 2 * step, 0);
        HighestIndexIsExact(level, nodalIndex, referenceLevel, a);
        HighestIndexIsExact(level, other, referenceLevel, a);
      } else if other > step {
        CeilDivBound(other - step, 2 * step, 0);
      }
      LastPointOfLevel(level, referenceLevel);
      HighestIndexIsExact(level, other, referenceLevel, Pow2(level - 1));
    } else {
      assert Pow2(referenceLevel) == 2 * Pow2(referenceLevel - 1);
    }
  }

  lemma LastPointOfLevel(level: nat, referenceLevel: nat)
    requires 1 < level <= referenceLevel
    ensures (2 * Pow2(level - 1) + 1) * Pow2(referenceLevel - level) >= Pow2(referenceLevel)
  {
    Pow2Sum(level, referenceLevel - level);
    var p, step := Pow2(level), Pow2(referenceLevel - level);
    assert (p + 1) * step == p * step + step;
  }

  /** Ascending cuts within the reference grid. */
  ghost predicate IsDecomposition(decomposition: seq<int>, referenceLevel: nat) {
    && (forall i, j :: 0 <= i < j < |decomposition| ==> decomposition[i] <= decomposition[j])
    && (decomposition != [] ==> decomposition[|decomposition| - 1] <= Pow2(referenceLevel))
  }

  ghost predicate AllNatural(s: seq<int>) {
    forall i :: 0 <= i < |s| ==> s[i] >= 0
  }

  /** Number of points of a level that are given to the first r processes. */
  function PointsBefore(level: nat, decomposition: seq<int>, referenceLevel: nat, r: nat): int
    requires 0 < level <= referenceLevel && r <= |decomposition|
  {
    if r == 0 then 0
    else if r == |decomposition| then PointsOfLevel(level)
    else HighestIndexLowerThan(level, decomposition[r], referenceLevel) + 1
  }

  /** What each process is given. */
  function PartExtents(level: nat, decomposition: seq<int>, referenceLevel: nat): (extents: seq<int>)
    requires 0 < level <= referenceLevel
    ensures |extents| == |decomposition|
  {
    seq(|decomposition|, r requires 0 <= r < |decomposition| =>
      PointsBefore(level, decomposition, referenceLevel, r + 1) - PointsBefore(level, decomposition, referenceLevel, r))
  }

  lemma PointsBeforeGrow(level: nat, decomposition: seq<int>, referenceLevel: nat, r: nat)
    requires 0 < level <= referenceLevel && r < |decomposition| && IsDecomposition(decomposition, referenceLevel)
    ensures 0 <= PointsBefore(level, decomposition, referenceLevel, r)
            <= PointsBefore(level, decomposition, referenceLevel, r + 1)
  {
    hide HighestIndexLowerThan, PointsOfLevel;
    var last := decomposition[|decomposition| - 1];
    assert decomposition[r] <= last;
    HighestIndexInRange(level, decomposition[r], decomposition[r], referenceLevel);
    if r + 1 < |decomposition| {
      assert decomposition[r] <= decomposition[r + 1] <= last;
      HighestIndexInRange(level, decomposition[r], decomposition[r + 1], referenceLevel);
    }
  }

  lemma PartExtentsAreNatural(level: nat, decomposition: seq<int>, referenceLevel: nat)
    requires 0 < level <= referenceLevel && IsDecomposition(decomposition, referenceLevel)
    ensures AllNatural(PartExtents(level, decomposition, referenceLevel))
  {
    hide PointsBefore, IsDecomposition;
    forall r | 0 <= r < |decomposition|
      ensures PartExtents(level, decomposition, referenceLevel)[r] >= 0
    {
      PointsBeforeGrow(level, decomposition, referenceLevel, r);
    }
  }

  /** Extents of the first processes, whose highest index is processed. */
  ghost predicate ArePartialExtents(level: nat, decomposition: seq<int>, referenceLevel: nat, extents: seq<int>,
                                    processed: int)
    requires 0 < level <= referenceLevel && |extents| < |decomposition|
  {
    && Sum(extents) == processed + 1
    && (IsDecomposition(decomposition, referenceLevel) ==>
          extents == PartExtents(level, decomposition, referenceLevel)[..|extents|]
          && processed == PointsBefore(level, decomposition, referenceLevel, |extents|) - 1)
  }

  lemma NextExtent(level: nat, decomposition: seq<int>, referenceLevel: nat, extents: seq<int>, processed: int)
    requires 0 < level <= referenceLevel && |extents| + 1 < |decomposition|
    requires ArePartialExtents(level, decomposition, referenceLevel, extents, processed)
    ensures var highest := HighestIndexLowerThan(level, decomposition[|extents| + 1], referenceLevel);
            && (highest != -1 ==> ArePartialExtents(level, decomposition, referenceLevel,
                                                    extents + [highest - processed], highest))
            && (highest == -1 ==> ArePartialExtents(level, decomposition, referenceLevel, extents + [0], processed))
  {
    hide HighestIndexLowerThan, IsDecomposition;
    var k := |extents|;
    var highest := HighestIndexLowerThan(level, decomposition[k + 1], referenceLevel);
    assert Appended(extents, highest - processed) == extents + [highest - processed]
           && Appended(extents, 0) == extents + [0];
    if IsDecomposition(decomposition, referenceLevel) {
      PointsBeforeGrow(level, decomposition, referenceLevel, k);
      var all := PartExtents(level, decomposition, referenceLevel);
      assert all[..k + 1] == all[..k] + [all[k]];
    }
  }

  lemma LastExtent(level: nat, decomposition: seq<int>, referenceLevel: nat, extents: seq<int>, processed: int)
    requires 0 < level <= referenceLevel && |extents| + 1 == |decomposition|
    requires ArePartialExtents(level, decomposition, referenceLevel, extents, processed)
    ensures Sum(extents + [PointsOfLevel(level) - processed - 1]) == PointsOfLevel(level)
    ensures IsDecomposition(decomposition, referenceLevel) ==>
              extents + [PointsOfLevel(level) - processed - 1] == PartExtents(level, decomposition, referenceLevel)
  {
    hide HighestIndexLowerThan, IsDecomposition, PointsOfLevel;
    var k, all := |extents|, PartExtents(level, decomposition, referenceLevel);
    assert Appended(extents, PointsOfLevel(level) - processed - 1) == extents + [PointsOfLevel(level) - processed - 1];
    assert all == all[..k] + [all[k]];
  }

  /** Extents of a subspace in one dimension, for the processes along that dimension. */
  method ExtentsPerProcess(level: nat, decomposition: seq<int>, referenceLevel: nat) returns (extents: seq<int>)
    requires 0 < level <= referenceLevel && decomposition != []
    ensures |extents| == |decomposition| && Sum(extents) == PointsOfLevel(level)
    ensures IsDecomposition(decomposition, referenceLevel) ==>
              extents == PartExtents(level, decomposition, referenceLevel) && AllNatural(extents)
  {
    extents := [];
    var processed := -1;
    for k := 0 to |decomposition| - 1
      invariant |extents| == k && ArePartialExtents(level, decomposition, referenceLevel, extents, processed)
    {
      var highest := HighestIndexLowerThan(level, decomposition[k + 1], referenceLevel);
      NextExtent(level, decomposition, referenceLevel, extents, processed);
      if highest != -1 {
        extents := extents + [highest - processed];
        processed := highest;
      } else {
        extents := extents + [0];
      }
    }
    LastExtent(level, decomposition, referenceLevel, extents, processed);
    extents := extents + [PointsOfLevel(level) - processed - 1];
    if IsDecomposition(decomposition, referenceLevel) {
      PartExtentsAreNatural(level, decomposition, referenceLevel);
    }
  }

  function Appended(s: seq<int>, x: int): (r: seq<int>)
    ensures r == s + [x] && Sum(r) == Sum(s) + x
  {
    assert (s + [x])[..|s|] == s;
    s + [x]
  }

  /** Product of the extents at the coordinates of a process. */
  function ProductAt(lists: seq<seq<int>>, v: Index, k: nat): int
    requires k <= |lists| && k <= |v| && forall d :: 0 <= d < k ==> 0 <= v[d] < |lists[d]|
  {
    if k == 0 then 1 else ProductAt(lists, v, k - 1) * lists[k - 1][v[k - 1]]
  }

  /** Product over the dimensions of the sums over the processes. */
  function ProductOfSums(lists: seq<seq<int>>, k: nat): int
    requires k <= |lists|
  {
    if k == 0 then 1 else ProductOfSums(lists, k - 1) * Sum(lists[k - 1])
  }

  ghost predicate Matches(procs: Index, lists: seq<seq<int>>) {
    Positive(procs) && |procs| == |lists| && forall d :: 0 <= d < |lists| ==> |lists[d]| == procs[d]
  }

  /** What process i adds in the first k dimensions. */
  ghost function Share(procs: Index, lists: seq<seq<int>>, k: nat, i: int): int
    requires Matches(procs, lists) && k <= |procs| && 0 <= i < Stride(procs, k)
  {
    LinearOfVector(procs, i, k);
    ProductAt(lists, Vector(procs, i, k), k)
  }

  ghost function SumOfShares(procs: Index, lists: seq<seq<int>>, k: nat, n: nat): int
    requires Matches(procs, lists) && k <= |procs| && n <= Stride(procs, k)
  {
    if n == 0 then 0 else SumOfShares(procs, lists, k, n - 1) + Share(procs, lists, k, n - 1)
  }

  lemma {:induction false} ProductOfPrefix(lists: seq<seq<int>>, v: Index, w: Index, k: nat)
    requires k <= |lists| && k <= |v| && k <= |w| && v[..k] == w[..k]
             && forall d :: 0 <= d < k ==> 0 <= v[d] < |lists[d]|
    ensures (forall d :: 0 <= d < k ==> w[d] == v[d]) && ProductAt(lists, v, k) == ProductAt(lists, w, k)
  {
    forall d | 0 <= d < k
      ensures w[d] == v[d]
    {
      assert v[..k][d] == w[..k][d];
    }
    if k > 0 {
      assert v[..k - 1] == v[..k][..k - 1] == w[..k][..k - 1] == w[..k - 1];
      ProductOfPrefix(lists, v, w, k - 1);
    }
  }

  /** The share of process q * stride + r is that of r, times the extent at coordinate q. */
  lemma ShareSplits(procs: Index, lists: seq<seq<int>>, k: nat, q: nat, r: nat)
    requires Matches(procs, lists) && k < |procs| && q < procs[k] && r < Stride(procs, k)
    ensures 0 <= q * Stride(procs, k) + r < Stride(procs, k + 1)
    ensures Share(procs, lists, k + 1, q * Stride(procs, k) + r) == Share(procs, lists, k, r) * lists[k][q]
  {
    var s := Stride(procs, k);
    TwoDigits(s, procs[k], q, r);
    DivModOf(s, q, r);
    var i := q * s + r;
    LinearOfVector(procs, i, k + 1);
    LinearOfVector(procs, r, k);
    assert Vector(procs, i, k + 1) == Vector(procs, r, k) + [q];
    ProductOfPrefix(lists, Vector(procs, r, k), Vector(procs, r, k) + [q], k);
  }

  lemma BlockInRange(s: int, q: int, n: int, bound: int)
    requires s > 0 && 0 <= q < bound && n == q * s
    ensures 0 <= n && n + s <= bound * s
  {
    MulOrder(s, q, bound);
    MulOrder(s, 0, q);
  }

  /** r processes from n on, whose shares are those of the first r with a common factor. */
  lemma {:induction false} BlockOfShares(procs: Index, lists: seq<seq<int>>, k: nat, n: nat, r: nat, x: int)
    requires Matches(procs, lists) && k < |procs| && r <= Stride(procs, k) && n + r <= Stride(procs, k + 1)
    requires forall j {:trigger Share(procs, lists, k, j)} :: 0 <= j < r ==>
               Share(procs, lists, k + 1, n + j) == Share(procs, lists, k, j) * x
    ensures SumOfShares(procs, lists, k + 1, n + r)
            == SumOfShares(procs, lists, k + 1, n) + SumOfShares(procs, lists, k, r) * x
  {
    hide Share, Matches, Stride;
    if r > 0 {
      BlockOfShares(procs, lists, k, n, r - 1, x);
      Distribute(SumOfShares(procs, lists, k, r - 1), Share(procs, lists, k, r - 1), x);
    }
  }

  lemma Distribute(a: int, b: int, c: int)
    ensures (a + b) * c == a * c + b * c
  {
  }

  lemma NextBlock(s: int, q: int, n: int, bound: int)
    requires s > 0 && 0 < q <= bound && n == q * s
    ensures 0 <= n - s && n - s == (q - 1) * s && n <= bound * s
  {
    MulOrder(s, q, bound);
    MulOrder(s, 0, q - 1);
  }

  lemma DistributeLeft(a: int, b: int, c: int)
    ensures a * (b + c) == a * b + a * c
  {
  }

  lemma LastBlock(procs: Index, lists: seq<seq<int>>, k: nat, q: nat, n: nat)
    requires Matches(procs, lists) && k < |procs| && q < procs[k] && n == q * Stride(procs, k)
    ensures 0 < Stride(procs, k) && n + Stride(procs, k) <= Stride(procs, k + 1)
    ensures SumOfShares(procs, lists, k + 1, n + Stride(procs, k))
            == SumOfShares(procs, lists, k + 1, n) + SumOfShares(procs, lists, k, Stride(procs, k)) * lists[k][q]
  {
    StridePositive(procs, k);
    BlockInRange(Stride(procs, k), q, n, procs[k]);
    forall j | 0 <= j < Stride(procs, k)
      ensures Share(procs, lists, k + 1, n + j) == Share(procs, lists, k, j) * lists[k][q]
    {
      ShareSplits(procs, lists, k, q, j);
    }
    BlockOfShares(procs, lists, k, n, Stride(procs, k), lists[k][q]);
  }

  lemma {:induction false} BlocksOfShares(procs: Index, lists: seq<seq<int>>, k: nat, q: nat, n: nat)
    requires Matches(procs, lists) && k < |procs| && q <= procs[k] && n == q * Stride(procs, k) <= Stride(procs, k + 1)
    ensures SumOfShares(procs, lists, k + 1, n) == SumOfShares(procs, lists, k, Stride(procs, k)) * Sum(lists[k][..q])
  {
    var s := Stride(procs, k);
    StridePositive(procs, k);
    if q > 0 {
      NextBlock(s, q, n, procs[k]);
      BlocksOfShares(procs, lists, k, q - 1, n - s);
      LastBlock(procs, lists, k, q - 1, n - s);
      SumOfNext(lists[k], q);
      DistributeLeft(SumOfShares(procs, lists, k, s), Sum(lists[k][..q - 1]), lists[k][q - 1]);
    }
  }

  lemma SumOfNext(s: seq<int>, q: nat)
    requires 0 < q <= |s|
    ensures Sum(s[..q]) == Sum(s[..q - 1]) + s[q - 1]
  {
    assert s[..q][..q - 1] == s[..q - 1];
  }

  /** Summed over all processes, the products of extents are the product of the sums of extents. */
  lemma {:induction false} SharesMultiply(procs: Index, lists: seq<seq<int>>, k: nat)
    requires Matches(procs, lists) && k <= |procs|
    ensures Stride(procs, k) > 0 && SumOfShares(procs, lists, k, Stride(procs, k)) == ProductOfSums(lists, k)
  {
    StridePositive(procs, k);
    if k == 0 {
      assert SumOfShares(procs, lists, 0, 1) == SumOfShares(procs, lists, 0, 0) + Share(procs, lists, 0, 0);
    } else {
      SharesMultiply(procs, lists, k - 1);
      assert Stride(procs, k) == procs[k - 1] * Stride(procs, k - 1);
      BlocksOfShares(procs, lists, k - 1, procs[k - 1], Stride(procs, k));
      assert lists[k - 1][..procs[k - 1]] == lists[k - 1];
    }
  }

  /** Points of a subspace, and of all subspaces of a down set. */
  function PointsOfSubspace(level: seq<nat>): int
    requires forall d :: 0 <= d < |level| ==> level[d] > 0
  {
    if level == [] then 1 else PointsOfSubspace(level[..|level| - 1]) * PointsOfLevel(level[|level| - 1])
  }

  predicate IsPositiveLevel(l: seq<nat>, dim: nat) {
    |l| == dim && forall d :: 0 <= d < dim ==> l[d] > 0
  }

  predicate ArePositiveLevels(downSet: seq<seq<nat>>, dim: nat) {
    forall l :: l in downSet ==> IsPositiveLevel(l, dim)
  }

  function PointsOfDownSet(downSet: seq<seq<nat>>, dim: nat): int
    requires ArePositiveLevels(downSet, dim)
  {
    if downSet == [] then 0
    else
      var n := |downSet| - 1;
      FrontIsPositive(downSet, dim);
      PointsOfDownSet(downSet[..n], dim) + PointsOfSubspace(downSet[n])
  }

  lemma FrontIsPositive(downSet: seq<seq<nat>>, dim: nat)
    requires ArePositiveLevels(downSet, dim) && downSet != []
    ensures ArePositiveLevels(downSet[..|downSet| - 1], dim)
    ensures IsPositiveLevel(downSet[|downSet| - 1], dim)
  {
    assert downSet[|downSet| - 1] in downSet;
    forall l | l in downSet[..|downSet| - 1]
      ensures l in downSet
    {
    }
  }

  lemma PrefixIsPositive(downSet: seq<seq<nat>>, dim: nat, n: nat)
    requires ArePositiveLevels(downSet, dim) && n <= |downSet|
    ensures ArePositiveLevels(downSet[..n], dim)
  {
    forall l | l in downSet[..n]
      ensures l in downSet
    {
    }
  }

  /** The unpartitioned count. */
  method GetSGDegreesOfFreedomFromDownSet(downSet: seq<seq<nat>>, dim: nat) returns (numDOF: int)
    requires ArePositiveLevels(downSet, dim)
    ensures numDOF == PointsOfDownSet(downSet, dim)
  {
    numDOF := 0;
    for n := 0 to |downSet|
      invariant ArePositiveLevels(downSet[..n], dim) && numDOF == PointsOfDownSet(downSet[..n], dim)
    {
      PrefixIsPositive(downSet, dim, n + 1);
      var level := downSet[n];
      assert level in downSet;
      var numDOFSpace := 1;
      for d := 0 to |level|
        invariant numDOFSpace == PointsOfSubspace(level[..d])
      {
        assert level[..d + 1][..d] == level[..d];
        if level[d] > 1 {
          numDOFSpace := numDOFSpace * Pow2(level[d] - 1);
        } else {
          numDOFSpace := numDOFSpace * 3;
        }
      }
      assert level[..|level|] == level && downSet[..n + 1][..n] == downSet[..n];
      numDOF := numDOF + numDOFSpace;
    }
    assert downSet[..|downSet|] == downSet;
  }

  lemma ShareOfLast(procs: Index, lists: seq<seq<int>>, k: nat, i: nat)
    requires Matches(procs, lists) && k < |procs| && i < Stride(procs, k + 1)
    ensures Stride(procs, k) > 0 && 0 <= i / Stride(procs, k) < procs[k] && 0 <= i % Stride(procs, k) < Stride(procs, k)
    ensures Share(procs, lists, k + 1, i)
            == Share(procs, lists, k, i % Stride(procs, k)) * lists[k][i / Stride(procs, k)]
  {
    StridePositive(procs, k);
    var s := Stride(procs, k);
    DivModSplit(s, i);
    DivBound(s, procs[k], i);
    ShareSplits(procs, lists, k, i / s, i % s);
    assert i / s * s + i % s == i;
  }

  /** The product of the extents of process i, whose coordinates are peeled off from the last dimension on. */
  method ShareOfProcess(procs: Index, lists: seq<seq<int>>, i: nat) returns (numDOFtoAdd: int)
    requires Matches(procs, lists) && i < Stride(procs, |procs|)
    ensures numDOFtoAdd == Share(procs, lists, |procs|, i)
  {
    numDOFtoAdd := 1;
    var tmp := i;
    var d := |procs|;
    while d > 0
      invariant 0 <= d <= |procs| && 0 <= tmp < Stride(procs, d)
      invariant numDOFtoAdd * Share(procs, lists, d, tmp) == Share(procs, lists, |procs|, i)
    {
      d := d - 1;
      ShareOfLast(procs, lists, d, tmp);
      var s := Stride(procs, d);
      MulRegroup(numDOFtoAdd, Share(procs, lists, d, tmp % s), lists[d][tmp / s]);
      numDOFtoAdd := numDOFtoAdd * lists[d][tmp / s];
      tmp := tmp % s;
    }
  }

  lemma MulRegroup(a: int, b: int, c: int)
    ensures a * (b * c) == (a * c) * b
  {
  }

  /** The first n processes have been given their shares. */
  ghost predicate IsAdded(procs: Index, lists: seq<seq<int>>, before: seq<int>, now: seq<int>, n: nat)
    requires Matches(procs, lists) && |before| == |now| == Stride(procs, |procs|) && n <= |now|
  {
    && (forall j {:trigger now[j]} :: 0 <= j < n ==> now[j] == before[j] + Share(procs, lists, |procs|, j))
    && (forall j {:trigger now[j]} :: n <= j < |now| ==> now[j] == before[j])
    && Sum(now) == Sum(before) + SumOfShares(procs, lists, |procs|, n)
  }

  lemma AddNext(procs: Index, lists: seq<seq<int>>, before: seq<int>, now: seq<int>, n: nat)
    requires Matches(procs, lists) && |before| == |now| == Stride(procs, |procs|) && n < |now|
             && IsAdded(procs, lists, before, now, n)
    ensures IsAdded(procs, lists, before, now[n := now[n] + Share(procs, lists, |procs|, n)], n + 1)
  {
    hide Matches, Stride, Share;
    SumOfUpdated(now, n, now[n] + Share(procs, lists, |procs|, n));
  }

  /** Adds the points of one subspace to every process. */
  method AddSubspace(numDOF: seq<int>, procs: Index, lists: seq<seq<int>>) returns (more: seq<int>)
    requires Matches(procs, lists) && |numDOF| == Stride(procs, |procs|)
    ensures |more| == |numDOF| && Sum(more) == Sum(numDOF) + ProductOfSums(lists, |lists|)
    ensures forall i {:trigger more[i]} :: 0 <= i < |more| ==> more[i] == numDOF[i] + Share(procs, lists, |procs|, i)
  {
    more := numDOF;
    for i := 0 to |numDOF|
      invariant |more| == |numDOF| && IsAdded(procs, lists, numDOF, more, i)
    {
      var numDOFtoAdd := ShareOfProcess(procs, lists, i);
      AddNext(procs, lists, numDOF, more, i);
      more := more[i := more[i] + numDOFtoAdd];
    }
    SharesMultiply(procs, lists, |procs|);
  }

  function ProcsOf(decomposition: seq<seq<int>>): (procs: Index)
    ensures |procs| == |decomposition|
  {
    seq(|decomposition|, d requires 0 <= d < |decomposition| => |decomposition[d]|)
  }

  lemma {:induction false} SumsArePoints(lists: seq<seq<int>>, level: seq<nat>, k: nat)
    requires |lists| == |level| && k <= |level|
             && forall d :: 0 <= d < |level| ==> level[d] > 0 && Sum(lists[d]) == PointsOfLevel(level[d])
    ensures ProductOfSums(lists, k) == PointsOfSubspace(level[..k])
  {
    if k > 0 {
      SumsArePoints(lists, level, k - 1);
      assert level[..k][..k - 1] == level[..k - 1];
    }
  }

  ghost predicate AllDecompositions(decomposition: seq<seq<int>>, referenceLevel: seq<nat>) {
    |decomposition| == |referenceLevel|
    && forall d {:trigger decomposition[d]} :: 0 <= d < |decomposition| ==>
      IsDecomposition(decomposition[d], referenceLevel[d])
  }

  predicate IsWithin(level: seq<nat>, referenceLevel: seq<nat>) {
    |level| == |referenceLevel| && forall d :: 0 <= d < |level| ==> 0 < level[d] <= referenceLevel[d]
  }

  /** What the processes along each dimension are given. */
  function AllPartExtents(level: seq<nat>, referenceLevel: seq<nat>,
                          decomposition: seq<seq<int>>): (lists: seq<seq<int>>)
    requires IsWithin(level, referenceLevel) && |decomposition| == |level|
    ensures |lists| == |level| && forall d :: 0 <= d < |lists| ==> |lists[d]| == |decomposition[d]|
  {
    seq(|level|, d requires 0 <= d < |level| => PartExtents(level[d], decomposition[d], referenceLevel[d]))
  }

  /** Extents of one subspace in all dimensions. */
  method ExtentsOfSubspace(level: seq<nat>, referenceLevel: seq<nat>, decomposition: seq<seq<int>>)
    returns (lists: seq<seq<int>>)
    requires IsWithin(level, referenceLevel) && |level| == |decomposition|
    requires forall d :: 0 <= d < |level| ==> decomposition[d] != []
    ensures Matches(ProcsOf(decomposition), lists) && ProductOfSums(lists, |lists|) == PointsOfSubspace(level)
    ensures AllDecompositions(decomposition, referenceLevel) ==>
              lists == AllPartExtents(level, referenceLevel, decomposition)
              && forall d {:trigger lists[d]} :: 0 <= d < |lists| ==> AllNatural(lists[d])
  {
    hide PartExtents, IsDecomposition, AllNatural, PointsOfLevel;
    lists := [];
    for d := 0 to |level|
      invariant |lists| == d
      invariant forall e {:trigger lists[e]} :: 0 <= e < d ==>
                  |lists[e]| == |decomposition[e]| && Sum(lists[e]) == PointsOfLevel(level[e])
      invariant forall e {:trigger lists[e]} :: 0 <= e < d && IsDecomposition(decomposition[e], referenceLevel[e]) ==>
                  lists[e] == PartExtents(level[e], decomposition[e], referenceLevel[e]) && AllNatural(lists[e])
    {
      var extents := ExtentsPerProcess(level[d], decomposition[d], referenceLevel[d]);
      lists := lists + [extents];
    }
    SumsArePoints(lists, level, |level|);
    assert level[..|level|] == level;
  }

  lemma {:induction false} ShareIsNatural(procs: Index, lists: seq<seq<int>>, v: Index, k: nat)
    requires k <= |lists| && k <= |v| && (forall d :: 0 <= d < k ==> 0 <= v[d] < |lists[d]|)
    requires forall d {:trigger lists[d]} :: 0 <= d < |lists| ==> AllNatural(lists[d])
    ensures ProductAt(lists, v, k) >= 0
  {
    if k > 0 {
      ShareIsNatural(procs, lists, v, k - 1);
      MulNatural(ProductAt(lists, v, k - 1), lists[k - 1][v[k - 1]]);
    }
  }

  ghost predicate AreWithin(downSet: seq<seq<nat>>, referenceLevel: seq<nat>) {
    forall l :: l in downSet ==> IsWithin(l, referenceLevel)
  }

  /** The points of all subspaces that process i is given: in each subspace the product of its extents. */
  ghost function PointsOfProcess(downSet: seq<seq<nat>>, referenceLevel: seq<nat>, decomposition: seq<seq<int>>,
                                 i: nat): int
    requires AreWithin(downSet, referenceLevel) && |decomposition| == |referenceLevel|
    requires Positive(ProcsOf(decomposition)) && i < Stride(ProcsOf(decomposition), |decomposition|)
  {
    if downSet == [] then 0
    else
      var n, procs := |downSet| - 1, ProcsOf(decomposition);
      PointsOfProcess(downSet[..n], referenceLevel, decomposition, i)
      + Share(procs, AllPartExtents(downSet[n], referenceLevel, decomposition), |procs|, i)
  }

  /** The counts of all processes add up to the points of the down set, and each is that of the process. */
  method GetPartitionedNumDOFSG(downSet: seq<seq<nat>>, referenceLevel: seq<nat>, decomposition: seq<seq<int>>,
                                dim: nat)
    returns (numDOF: seq<int>)
    requires |referenceLevel| == |decomposition| == dim && ArePositiveLevels(downSet, dim)
    requires forall d :: 0 <= d < dim ==> decomposition[d] != []
    requires AreWithin(downSet, referenceLevel)
    ensures downSet == [] ==> numDOF == []
    ensures downSet != [] ==> |numDOF| == Stride(ProcsOf(decomposition), dim)
    ensures Sum(numDOF) == PointsOfDownSet(downSet, dim)
    ensures AllDecompositions(decomposition, referenceLevel) ==> AllNatural(numDOF)
    ensures AllDecompositions(decomposition, referenceLevel) ==>
              forall i {:trigger numDOF[i]} :: 0 <= i < |numDOF| ==>
                numDOF[i] == PointsOfProcess(downSet, referenceLevel, decomposition, i)
  {
    if downSet == [] {
      return [];
    }
    var procs := ProcsOf(decomposition);
    StridePositive(procs, dim);
    numDOF := seq(Stride(procs, dim), i => 0);
    SumOfZeros(Stride(procs, dim));
    for n := 0 to |downSet|
      invariant |numDOF| == Stride(procs, dim) && ArePositiveLevels(downSet[..n], dim)
                && Sum(numDOF) == PointsOfDownSet(downSet[..n], dim)
      invariant AllDecompositions(decomposition, referenceLevel) ==>
                  AllNatural(numDOF) && AreCounts(downSet[..n], referenceLevel, decomposition, numDOF)
    {
      PrefixIsPositive(downSet, dim, n + 1);
      assert downSet[n] in downSet && downSet[..n + 1][..n] == downSet[..n];
      var lists := ExtentsOfSubspace(downSet[n], referenceLevel, decomposition);
      ghost var before := numDOF;
      numDOF := AddSubspace(numDOF, procs, lists);
      if AllDecompositions(decomposition, referenceLevel) {
        StillNatural(procs, lists, before, numDOF);
        NextCounts(downSet, referenceLevel, decomposition, n, before, lists, numDOF);
      }
    }
    assert downSet[..|downSet|] == downSet;
  }

  ghost predicate AreCounts(downSet: seq<seq<nat>>, referenceLevel: seq<nat>, decomposition: seq<seq<int>>,
                            numDOF: seq<int>) {
    && AreWithin(downSet, referenceLevel) && |decomposition| == |referenceLevel| && Positive(ProcsOf(decomposition))
    && |numDOF| == Stride(ProcsOf(decomposition), |decomposition|)
    && forall i {:trigger numDOF[i]} :: 0 <= i < |numDOF| ==>
         numDOF[i] == PointsOfProcess(downSet, referenceLevel, decomposition, i)
  }

  lemma NextCounts(downSet: seq<seq<nat>>, referenceLevel: seq<nat>, decomposition: seq<seq<int>>, n: nat,
                   before: seq<int>, lists: seq<seq<int>>, after: seq<int>)
    requires n < |downSet| && AreWithin(downSet, referenceLevel) && |after| == |before|
    requires AreCounts(downSet[..n], referenceLevel, decomposition, before)
    requires IsWithin(downSet[n], referenceLevel)
             && lists == AllPartExtents(downSet[n], referenceLevel, decomposition)
    requires Matches(ProcsOf(decomposition), lists)
    requires forall i {:trigger after[i]} :: 0 <= i < |after| ==>
               after[i] == before[i] + Share(ProcsOf(decomposition), lists, |decomposition|, i)
    ensures AreCounts(downSet[..n + 1], referenceLevel, decomposition, after)
  {
    hide Share, AllPartExtents, IsWithin, Stride;
    var next := downSet[..n + 1];
    assert next[..n] == downSet[..n] && next[n] == downSet[n];
    forall l | l in next
      ensures IsWithin(l, referenceLevel)
    {
      assert l in downSet;
    }
  }

  lemma StillNatural(procs: Index, lists: seq<seq<int>>, before: seq<int>, after: seq<int>)
    requires Matches(procs, lists) && |before| == |after| == Stride(procs, |procs|) && AllNatural(before)
    requires forall i :: 0 <= i < |after| ==> after[i] == before[i] + Share(procs, lists, |procs|, i)
    requires forall d {:trigger lists[d]} :: 0 <= d < |lists| ==> AllNatural(lists[d])
    ensures AllNatural(after)
  {
    forall i | 0 <= i < |after|
      ensures after[i] >= 0
    {
      LinearOfVector(procs, i, |procs|);
      ShareIsNatural(procs, lists, Vector(procs, i, |procs|), |procs|);
    }
  }
}
