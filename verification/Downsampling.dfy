/** Decompositions of coarser grids, derived from that of a reference grid: every rank keeps the same
    part of the domain, so its points of a level are the same points in every grid. */
module Downsampling {
  import opened Dyadic
  import opened Poles
  import opened LevelLists

  function CeilDiv(a: int, s: int): int
    requires s > 0
  {
    (a + s - 1) / s
  }

  lemma CeilDivBound(a: int, s: int, x: int)
    requires s > 0
    ensures CeilDiv(a, s) <= x <==> a <= x * s
  {
    var q := CeilDiv(a, s);
    if q <= x {
      assert q * s <= x * s;
    } else {
      assert (x + 1) * s <= q * s;
    }
  }

  /** The first index on the coarser grid that is not left of index dec of the finer grid. */
  function Downsampled(boundary: nat, levelDiff: nat, dec: int): int {
    var step := Pow2(levelDiff);
    if boundary > 0 then CeilDiv(dec, step)
    else
      var leftProtrusion := step - 1;
      var r := CeilDiv(dec - leftProtrusion, step);
      if r < 0 then 0 else r
  }

  /** The index on the finer grid of point x of the coarser grid. */
  function RefIndex(boundary: nat, levelDiff: nat, x: int): int {
    if boundary > 0 then x * Pow2(levelDiff) else (x + 1) * Pow2(levelDiff) - 1
  }

  lemma DownsampledBound(boundary: nat, levelDiff: nat, dec: int, x: int)
    requires x >= 0
    ensures Downsampled(boundary, levelDiff, dec) <= x <==> dec <= RefIndex(boundary, levelDiff, x)
    ensures dec >= 0 ==> Downsampled(boundary, levelDiff, dec) >= 0
  {
    var s := Pow2(levelDiff);
    CeilDivBound(dec, s, x);
    CeilDivBound(dec - (s - 1), s, x);
    CeilDivBound(dec, s, -1);
    assert (x + 1) * s == x * s + s;
  }

  method DownsampleDecomposition(decomposition: seq<seq<int>>, referenceLevel: seq<nat>, newLevel: seq<nat>,
                                 boundary: seq<nat>)
    returns (newDecomposition: seq<seq<int>>)
    requires |decomposition| == |referenceLevel| == |newLevel| == |boundary|
    requires forall d :: 0 <= d < |newLevel| ==> newLevel[d] <= referenceLevel[d]
    ensures |newDecomposition| == |decomposition|
    ensures forall d {:trigger newDecomposition[d]} :: 0 <= d < |decomposition| ==>
              newDecomposition[d] == DownsampledCuts(boundary[d], referenceLevel[d] - newLevel[d], decomposition[d])
  {
    newDecomposition := [];
    for d := 0 to |referenceLevel|
      invariant |newDecomposition| == d
      invariant forall e {:trigger newDecomposition[e]} :: 0 <= e < d ==>
                  newDecomposition[e] == DownsampledCuts(boundary[e], referenceLevel[e] - newLevel[e], decomposition[e])
    {
      var levelDiff := referenceLevel[d] - newLevel[d];
      var cuts: seq<int> := [];
      for r := 0 to |decomposition[d]|
        invariant cuts == DownsampledCuts(boundary[d], levelDiff, decomposition[d])[..r]
      {
        cuts := cuts + [Downsampled(boundary[d], levelDiff, decomposition[d][r])];
      }
      newDecomposition := newDecomposition + [cuts];
    }
  }

  function DownsampledCuts(boundary: nat, levelDiff: nat, cuts: seq<int>): (r: seq<int>)
    ensures |r| == |cuts|
  {
    seq(|cuts|, i requires 0 <= i < |cuts| => Downsampled(boundary, levelDiff, cuts[i]))
  }

  /** The pole of a coarser grid. */
  function Coarser(p: Pole, levelDiff: nat): Pole
    requires levelDiff <= p.lmax
  {
    Pole(p.lmax - levelDiff, p.boundary, DownsampledCuts(p.boundary, levelDiff, p.cuts))
  }

  lemma Pow2Splits(a: nat, b: nat)
    requires b <= a
    ensures Pow2(a) == Pow2(a - b) * Pow2(b)
  {
    Pow2Sum(a - b, b);
  }

  lemma ProductOrder(x: int, y: int, s: int)
    requires s > 0
    ensures x <= y <==> x * s <= y * s
    ensures x < y <==> x * s < y * s
  {
  }

  /** The coarser pole ends where the finer one does. */
  lemma EndsTogether(p: Pole, levelDiff: nat, x: int)
    requires levelDiff <= p.lmax
    ensures x < Coarser(p, levelDiff).Length() <==> RefIndex(p.boundary, levelDiff, x) < p.Length()
  {
    var s, n := Pow2(levelDiff), Pow2(p.lmax - levelDiff);
    Pow2Splits(p.lmax, levelDiff);
    ProductOrder(x, n, s);
    ProductOrder(x + 1, n, s);
    ProductOrder(n, x, s);
  }

  /** A rank owns a point of the coarser grid if and only if it owns that point in the reference grid. */
  lemma OwnershipIsKept(p: Pole, levelDiff: nat, me: nat, x: int)
    requires levelDiff <= p.lmax && me < |p.cuts| && x >= 0
    ensures Coarser(p, levelDiff).Owns(me, x) <==> p.Owns(me, RefIndex(p.boundary, levelDiff, x))
  {
    DownsampledBound(p.boundary, levelDiff, p.cuts[me], x);
    if me + 1 < |p.cuts| {
      DownsampledBound(p.boundary, levelDiff, p.cuts[me + 1], x);
    } else {
      EndsTogether(p, levelDiff, x);
    }
  }

  lemma RefIsAscending(boundary: nat, levelDiff: nat, x: int, y: int)
    ensures x < y <==> RefIndex(boundary, levelDiff, x) < RefIndex(boundary, levelDiff, y)
  {
    ProductOrder(x, y, Pow2(levelDiff));
    ProductOrder(x + 1, y + 1, Pow2(levelDiff));
  }

  lemma CtzOfDouble(x: int)
    requires x != 0
    ensures Ctz(2 * x) == Ctz(x) + 1
  {
    assert (2 * x) / 2 == x && (2 * x) % 2 == 0;
  }

  lemma DoubleProduct(n: int, d: nat)
    requires d > 0
    ensures n * Pow2(d) == 2 * (n * Pow2(d - 1))
  {
    assert n * (2 * Pow2(d - 1)) == 2 * (n * Pow2(d - 1));
  }

  lemma TimesOne(n: int)
    ensures n * Pow2(0) == n
  {
  }

  lemma {:induction false} CtzOfProduct(n: int, d: nat)
    requires n != 0
    ensures n * Pow2(d) != 0 && Ctz(n * Pow2(d)) == Ctz(n) + d
  {
    hide Ctz, Pow2;
    if d > 0 {
      CtzOfProduct(n, d - 1);
      DoubleProduct(n, d);
      CtzOfDouble(n * Pow2(d - 1));
    } else {
      TimesOne(n);
    }
  }

  lemma {:induction false} MultIsProduct(d: nat, n: int) returns (m: int)
    requires Mult(d, n)
    ensures n == m * Pow2(d)
  {
    if d == 0 {
      m := n;
    } else {
      m := MultIsProduct(d - 1, n / 2);
      assert n == 2 * (n / 2) == m * Pow2(d);
    }
  }

  /** A point has the same level in the coarser grid. */
  lemma LevelIsKept(p: Pole, levelDiff: nat, x: int)
    requires levelDiff <= p.lmax && x >= 0
    ensures p.Level(RefIndex(p.boundary, levelDiff, x)) == Coarser(p, levelDiff).Level(x)
  {
    var q := Coarser(p, levelDiff);
    if q.Node(x) != 0 {
      CtzOfProduct(q.Node(x), levelDiff);
    }
  }

  /** Points of coarse levels are all there in the coarser grid. */
  lemma CoarsePointsRemain(p: Pole, levelDiff: nat, y: int) returns (x: int)
    requires levelDiff < p.lmax && p.InGrid(y) && CountedLevel(p, y) <= p.lmax - levelDiff
    ensures x >= 0 && RefIndex(p.boundary, levelDiff, x) == y
  {
    p.ExponentFacts(y);
    MultWeaken(levelDiff, p.Exp(y), p.Node(y));
    var m := MultIsProduct(levelDiff, p.Node(y));
    ProductOrder(m, 0, Pow2(levelDiff));
    x := if p.boundary > 0 then m else m - 1;
  }

  lemma DownsampledIsMonotone(boundary: nat, levelDiff: nat, c: int, d: int)
    requires 0 <= c <= d
    ensures 0 <= Downsampled(boundary, levelDiff, c) <= Downsampled(boundary, levelDiff, d)
  {
    DownsampledBound(boundary, levelDiff, c, 0);
    DownsampledBound(boundary, levelDiff, d, 0);
    DownsampledBound(boundary, levelDiff, d, Downsampled(boundary, levelDiff, d));
    DownsampledBound(boundary, levelDiff, c, Downsampled(boundary, levelDiff, d));
  }

  /** Downsampling may leave a rank without points, but never with a part outside of the grid. */
  lemma CoarserHasPart(p: Pole, levelDiff: nat, me: nat)
    requires p.Valid() && me < |p.cuts| && levelDiff < p.lmax
    ensures IsPart(p, me) && IsPart(Coarser(p, levelDiff), me)
  {
    var q := Coarser(p, levelDiff);
    Pow2Monotone(0, p.lmax - levelDiff);
    forall r | 0 <= r < |p.cuts|
      ensures p.cuts[r] >= 0
    {
      assert r > 0 ==> p.cuts[0] < p.cuts[r];
    }
    var last := |p.cuts| - 1;
    EndsTogether(p, levelDiff, q.Length());
    DownsampledBound(p.boundary, levelDiff, p.cuts[last], q.Length());
    DownsampledIsMonotone(p.boundary, levelDiff, p.cuts[me], p.cuts[last]);
    if me + 1 < |p.cuts| {
      DownsampledIsMonotone(p.boundary, levelDiff, p.cuts[me], p.cuts[me + 1]);
      DownsampledIsMonotone(p.boundary, levelDiff, p.cuts[me + 1], p.cuts[last]);
    }
  }

  /** The local list of the coarser grid, as local indices of the reference grid. */
  function OnReference(p: Pole, levelDiff: nat, me: nat, coarse: seq<int>): (r: seq<int>)
    requires levelDiff <= p.lmax && me < |p.cuts|
    ensures |r| == |coarse|
  {
    seq(|coarse|, j requires 0 <= j < |coarse| =>
      RefIndex(p.boundary, levelDiff, Coarser(p, levelDiff).First(me) + coarse[j]) - p.First(me))
  }

  lemma ListedPointIsListed(p: Pole, levelDiff: nat, me: nat, l: nat, coarse: seq<int>, fine: seq<int>, j: nat)
    requires levelDiff < p.lmax && IsPart(p, me) && IsPart(Coarser(p, levelDiff), me) && j < |coarse|
    requires IsLevelList(Coarser(p, levelDiff), me, l, coarse) && IsLevelList(p, me, l, fine)
    ensures OnReference(p, levelDiff, me, coarse)[j] in fine
  {
    var q := Coarser(p, levelDiff);
    assert coarse[j] in coarse;
    var x := q.First(me) + coarse[j];
    assert LocalLevel(q, me, coarse[j]) == l;
    OwnershipIsKept(p, levelDiff, me, x);
    LevelIsKept(p, levelDiff, x);
    assert LocalLevel(p, me, RefIndex(p.boundary, levelDiff, x) - p.First(me)) == l;
  }

  lemma EveryPointIsListed(p: Pole, levelDiff: nat, me: nat, l: nat, coarse: seq<int>, fine: seq<int>, i: int)
    requires levelDiff < p.lmax && IsPart(p, me) && IsPart(Coarser(p, levelDiff), me) && 1 <= l <= p.lmax - levelDiff
    requires IsLevelList(Coarser(p, levelDiff), me, l, coarse) && IsLevelList(p, me, l, fine) && i in fine
    ensures i in OnReference(p, levelDiff, me, coarse)
  {
    var q := Coarser(p, levelDiff);
    assert LocalLevel(p, me, i) == l;
    var x := CoarsePointsRemain(p, levelDiff, p.First(me) + i);
    OwnershipIsKept(p, levelDiff, me, x);
    LevelIsKept(p, levelDiff, x);
    assert LocalLevel(q, me, x - q.First(me)) == l;
    var j :| 0 <= j < |coarse| && coarse[j] == x - q.First(me);
    assert OnReference(p, levelDiff, me, coarse)[j] == i;
  }

  /** The lists of a level on the coarser and on the reference grid name the same points in the same order. */
  lemma ListsMatch(p: Pole, levelDiff: nat, me: nat, l: nat, coarse: seq<int>, fine: seq<int>)
    requires levelDiff < p.lmax && IsPart(p, me) && IsPart(Coarser(p, levelDiff), me) && 1 <= l <= p.lmax - levelDiff
    requires IsLevelList(Coarser(p, levelDiff), me, l, coarse) && IsLevelList(p, me, l, fine)
    ensures OnReference(p, levelDiff, me, coarse) == fine
  {
    var mapped := OnReference(p, levelDiff, me, coarse);
    var first := Coarser(p, levelDiff).First(me);
    forall i, j | 0 <= i < j < |mapped|
      ensures mapped[i] < mapped[j]
    {
      RefIsAscending(p.boundary, levelDiff, first + coarse[i], first + coarse[j]);
    }
    forall i | i in mapped
      ensures i in fine
    {
      var j :| 0 <= j < |mapped| && mapped[j] == i;
      ListedPointIsListed(p, levelDiff, me, l, coarse, fine, j);
    }
    forall i | i in fine
      ensures i in mapped
    {
      EveryPointIsListed(p, levelDiff, me, l, coarse, fine, i);
    }
    AscendingIsUnique(mapped, fine);
  }

  /** Two grids whose decompositions come from the same reference list the same points in the same order,
      on every rank and for every level they share. */
  lemma SamePoints(p: Pole, diffA: nat, diffB: nat, me: nat, l: nat, a: seq<int>, b: seq<int>)
    requires p.Valid() && me < |p.cuts| && diffA < p.lmax && diffB < p.lmax
    requires 1 <= l <= p.lmax - diffA && l <= p.lmax - diffB
    requires IsLevelList(Coarser(p, diffA), me, l, a) && IsLevelList(Coarser(p, diffB), me, l, b)
    ensures |a| == |b|
    ensures forall j :: 0 <= j < |a| ==>
              RefIndex(p.boundary, diffA, Coarser(p, diffA).First(me) + a[j])
                == RefIndex(p.boundary, diffB, Coarser(p, diffB).First(me) + b[j])
  {
    CoarserHasPart(p, diffA, me);
    CoarserHasPart(p, diffB, me);
    var fine := LevelList(p, me, l, PartSize(p, me));
    assert IsLevelList(p, me, l, fine);
    ListsMatch(p, diffA, me, l, a, fine);
    ListsMatch(p, diffB, me, l, b, fine);
    forall j | 0 <= j < |a|
      ensures RefIndex(p.boundary, diffA, Coarser(p, diffA).First(me) + a[j])
              == RefIndex(p.boundary, diffB, Coarser(p, diffB).First(me) + b[j])
    {
      assert OnReference(p, diffA, me, a)[j] == OnReference(p, diffB, me, b)[j];
    }
  }

  /** The local indices below n that count as level l. */
  ghost function LevelList(p: Pole, me: nat, l: nat, n: int): (list: seq<int>)
    requires me < |p.cuts|
    ensures StrictlyAscending(list) && forall i :: i in list <==> 0 <= i < n && LocalLevel(p, me, i) == l
    decreases n
  {
    if n <= 0 then []
    else
      var front := LevelList(p, me, l, n - 1);
      assert forall i :: 0 <= i < |front| ==> front[i] in front;
      if LocalLevel(p, me, n - 1) == l then front + [n - 1] else front
  }
}
