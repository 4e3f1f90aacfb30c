/** The points of one hierarchical level on the part of a pole that a rank owns. */
module LevelLists {
  import opened Dyadic
  import opened Poles

  /** The part of a rank, which may be empty. */
  predicate IsPart(p: Pole, me: nat) {
    && p.lmax > 0 && me < |p.cuts|
    && 0 <= p.First(me) <= p.Last(me) + 1 <= p.Length()
  }

  function PartSize(p: Pole, me: nat): int
    requires me < |p.cuts|
  {
    p.Last(me) + 1 - p.First(me)
  }

  /** In the sparse grid, boundary points count as level 1. */
  function CountedLevel(p: Pole, x: int): int {
    if p.Level(x) == 0 && p.boundary > 0 then 1 else p.Level(x)
  }

  function StrideForThisLevel(p: Pole, l: nat): int
    requires 1 <= l <= p.lmax
  {
    if l == 1 && p.boundary > 0 then Pow2(p.lmax - 1) else Pow2(p.lmax - l + 1)
  }

  function OffsetForThisLevel(p: Pole, l: nat): int
    requires 1 <= l <= p.lmax
  {
    if p.boundary > 0 then (if l == 1 then 0 else Pow2(p.lmax - l)) else Pow2(p.lmax - l) - 1
  }

  function LocalStartForThisLevel(p: Pole, me: nat, l: nat): int
    requires 1 <= l <= p.lmax && me < |p.cuts|
  {
    var offset, stride := OffsetForThisLevel(p, l), StrideForThisLevel(p, l);
    var q := if p.First(me) < offset then 0 else (p.First(me) - offset + stride - 1) / stride;
    q * stride + offset - p.First(me)
  }

  function NumPointsOnThisPartition(p: Pole, me: nat, localStart: int, stride: int): int
    requires me < |p.cuts| && stride > 0
  {
    if PartSize(p, me) - 1 < localStart then 0 else (PartSize(p, me) - 1 - localStart) / stride + 1
  }

  /** x is a point of level l, by the zero bits of its index. */
  predicate OnLevel(p: Pole, l: nat, x: int)
    requires 1 <= l <= p.lmax
  {
    if l == 1 && p.boundary > 0 then Mult(p.lmax - 1, x) else OddMult(p.lmax - l, p.Node(x))
  }

  lemma OnLevelMeansLevel(p: Pole, l: nat, x: int)
    requires 1 <= l <= p.lmax && p.InGrid(x)
    ensures OnLevel(p, l, x) <==> CountedLevel(p, x) == l
    ensures 1 <= CountedLevel(p, x) <= p.lmax
  {
    p.ExponentFacts(x);
    CtzIsOddMult(p.Node(x), p.lmax - l);
    MultZero(p.lmax - l);
    if p.boundary == 0 && p.Exp(x) == p.lmax {
      MultZero(p.lmax);
      Spacing(p.lmax, 0, p.Node(x));
    }
    if l == 1 && p.boundary > 0 {
      CoarseIsMult(p, x);
    }
  }

  lemma CoarseIsMult(p: Pole, x: int)
    requires p.lmax > 0 && p.boundary > 0 && p.InGrid(x)
    ensures Mult(p.lmax - 1, x) <==> p.Level(x) <= 1
  {
    p.ExponentFacts(x);
    MultZero(p.lmax - 1);
    if x != 0 {
      CtzIsOddMult(x, p.lmax - 1);
      CtzIsOddMult(x, p.Exp(x));
      MultSplit(p.lmax - 1, x);
      if p.Exp(x) >= p.lmax - 1 {
        MultWeaken(p.lmax - 1, p.Exp(x), x);
      }
      if Mult(p.lmax - 1, x) && p.Exp(x) < p.lmax - 1 {
        MultWeaken(p.Exp(x) + 1, p.lmax - 1, x);
        MultSplit(p.Exp(x), x);
      }
    }
  }

  /** The points of a level are an arithmetic progression. */
  lemma LevelProgression(p: Pole, l: nat, x: int)
    requires 1 <= l <= p.lmax && OnLevel(p, l, x)
    ensures OnLevel(p, l, x + StrideForThisLevel(p, l))
    ensures forall y :: x < y < x + StrideForThisLevel(p, l) ==> !OnLevel(p, l, y)
  {
    var k := p.lmax - l;
    if l == 1 && p.boundary > 0 {
      MultPow2(k, k);
      MultClosed(k, x, Pow2(k));
      forall y | x < y < x + Pow2(k)
        ensures !Mult(k, y)
      {
        Spacing(k, x, y);
      }
    } else {
      OddNext(k, p.Node(x));
      forall y | x < y < x + Pow2(k + 1)
        ensures !OddMult(k, p.Node(y))
      {
        OddSpacing(k, p.Node(x), p.Node(y));
      }
    }
  }

  lemma FirstOfLevel(p: Pole, l: nat)
    requires 1 <= l <= p.lmax
    ensures OnLevel(p, l, OffsetForThisLevel(p, l))
    ensures forall y :: 0 <= y < OffsetForThisLevel(p, l) ==> !OnLevel(p, l, y)
  {
    var k := p.lmax - l;
    MultZero(k);
    MultPow2(k, k);
    if !(l == 1 && p.boundary > 0) {
      forall y | 0 <= y < OffsetForThisLevel(p, l)
        ensures !OddMult(k, p.Node(y))
      {
        Neighbours(k, p.Node(y));
        BelowFirst(k, p.Node(y));
      }
    }
  }

  lemma {:induction false} BelowFirst(k: nat, y: int)
    requires 0 <= y < Pow2(k)
    ensures !OddMult(k, y)
  {
    if k > 0 && y % 2 == 0 {
      BelowFirst(k - 1, y / 2);
    }
  }

  lemma {:induction false} NthOfLevel(p: Pole, l: nat, q: nat)
    requires 1 <= l <= p.lmax
    ensures OnLevel(p, l, q * StrideForThisLevel(p, l) + OffsetForThisLevel(p, l))
  {
    FirstOfLevel(p, l);
    if q > 0 {
      NthOfLevel(p, l, q - 1);
      LevelProgression(p, l, (q - 1) * StrideForThisLevel(p, l) + OffsetForThisLevel(p, l));
      assert q * StrideForThisLevel(p, l) == (q - 1) * StrideForThisLevel(p, l) + StrideForThisLevel(p, l);
    }
  }

  lemma RoundUp(n: int, s: int)
    requires n >= 0 && s > 0
    ensures (n + s - 1) / s >= 0
    ensures (n + s - 1) / s * s >= n && (n + s - 1) / s * s < n + s
  {
  }

  /** The local start is the first local point of the level. */
  lemma LocalStartIsFirst(p: Pole, me: nat, l: nat)
    requires 1 <= l <= p.lmax && IsPart(p, me)
    ensures var start := LocalStartForThisLevel(p, me, l);
            start >= 0 && OnLevel(p, l, p.First(me) + start)
            && forall x :: p.First(me) <= x < p.First(me) + start ==> !OnLevel(p, l, x)
  {
    var offset, stride, first := OffsetForThisLevel(p, l), StrideForThisLevel(p, l), p.First(me);
    FirstOfLevel(p, l);
    if first >= offset {
      var q := (first - offset + stride - 1) / stride;
      RoundUp(first - offset, stride);
      NthOfLevel(p, l, q);
      if q > 0 {
        NthOfLevel(p, l, q - 1);
        LevelProgression(p, l, (q - 1) * stride + offset);
        assert q * stride == (q - 1) * stride + stride;
      }
    }
  }

  predicate StrictlyAscending(list: seq<int>) {
    forall i, j :: 0 <= i < j < |list| ==> list[i] < list[j]
  }

  /** The list holds exactly the local indices below bound that lie on level l. */
  ghost predicate ListsLevel(p: Pole, me: nat, l: nat, list: seq<int>, bound: int)
    requires 1 <= l <= p.lmax && me < |p.cuts|
  {
    && StrictlyAscending(list)
    && forall i :: i in list <==> 0 <= i < bound && OnLevel(p, l, p.First(me) + i)
  }

  /** The level as which local index i counts. */
  function LocalLevel(p: Pole, me: nat, i: int): int
    requires me < |p.cuts|
  {
    CountedLevel(p, p.First(me) + i)
  }

  lemma LocalLevelInRange(p: Pole, me: nat, i: int)
    requires IsPart(p, me) && 0 <= i < PartSize(p, me)
    ensures 1 <= LocalLevel(p, me, i) <= p.lmax
  {
    OnLevelMeansLevel(p, 1, p.First(me) + i);
  }

  /** The list holds, in ascending order, exactly the local indices of the points that count as level l. */
  ghost predicate IsLevelList(p: Pole, me: nat, l: nat, list: seq<int>)
    requires me < |p.cuts|
  {
    && StrictlyAscending(list)
    && forall i :: i in list <==> 0 <= i < PartSize(p, me) && LocalLevel(p, me, i) == l
  }

  lemma NextPoint(p: Pole, me: nat, l: nat, list: seq<int>, localStart: int)
    requires 1 <= l <= p.lmax && me < |p.cuts| && ListsLevel(p, me, l, list, localStart)
    requires localStart >= 0 && OnLevel(p, l, p.First(me) + localStart)
    ensures ListsLevel(p, me, l, list + [localStart], localStart + StrideForThisLevel(p, l))
    ensures OnLevel(p, l, p.First(me) + localStart + StrideForThisLevel(p, l))
  {
    LevelProgression(p, l, p.First(me) + localStart);
    var more := list + [localStart];
    forall i, j | 0 <= i < j < |more|
      ensures more[i] < more[j]
    {
      assert list[i] in list;
    }
    forall i
      ensures i in more <==> 0 <= i < localStart + StrideForThisLevel(p, l) && OnLevel(p, l, p.First(me) + i)
    {
      if localStart < i < localStart + StrideForThisLevel(p, l) {
        assert !OnLevel(p, l, p.First(me) + i);
      }
    }
  }

  /** The running start after j steps. */
  ghost function StartAfter(start: int, stride: int, j: nat): int {
    if j == 0 then start else StartAfter(start, stride, j - 1) + stride
  }

  lemma {:induction false} StartAfterIs(start: int, stride: int, j: nat)
    ensures StartAfter(start, stride, j) == start + j * stride
  {
    if j > 0 {
      StartAfterIs(start, stride, j - 1);
      assert j * stride == (j - 1) * stride + stride;
    }
  }

  lemma FloorBounds(last: int, s: int, j: nat)
    requires last >= 0 && s > 0
    ensures j <= last / s ==> j * s <= last
    ensures j > last / s ==> j * s > last
  {
    if j <= last / s {
      assert j * s <= (last / s) * s;
    } else {
      assert j * s >= (last / s + 1) * s;
    }
  }

  /** The computed number of points is the number of steps that stay within the part. */
  lemma PointsInRange(p: Pole, me: nat, start: int, stride: int, j: nat)
    requires me < |p.cuts| && stride > 0 && start >= 0
    ensures j < NumPointsOnThisPartition(p, me, start, stride) ==> StartAfter(start, stride, j) < PartSize(p, me)
    ensures j == NumPointsOnThisPartition(p, me, start, stride) ==> StartAfter(start, stride, j) >= PartSize(p, me)
  {
    StartAfterIs(start, stride, j);
    if PartSize(p, me) - 1 >= start {
      FloorBounds(PartSize(p, me) - 1 - start, stride, j);
    }
  }

  lemma NumPointsIsNatural(p: Pole, me: nat, start: int, stride: int)
    requires me < |p.cuts| && stride > 0
    ensures NumPointsOnThisPartition(p, me, start, stride) >= 0
  {
  }

  /** Local indices of a level, computed from start, stride and count alone. */
  method Get1dIndicesLocal(p: Pole, me: nat, l: nat) returns (oneDIndices: seq<int>)
    requires IsPart(p, me) && l > 0
    ensures IsLevelList(p, me, l, oneDIndices)
  {
    if l > p.lmax {
      NoFinerPoints(p, me, l);
      return [];
    }
    var stride := StrideForThisLevel(p, l);
    var start := LocalStartForThisLevel(p, me, l);
    var n := NumPointsOnThisPartition(p, me, start, stride);
    LocalStartIsFirst(p, me, l);
    NumPointsIsNatural(p, me, start, stride);
    oneDIndices := Progression(p, me, l, start, stride, n);
  }

  method Progression(p: Pole, me: nat, l: nat, start: int, stride: int, n: nat) returns (oneDIndices: seq<int>)
    requires 1 <= l <= p.lmax && IsPart(p, me) && stride == StrideForThisLevel(p, l) && start >= 0
    requires OnLevel(p, l, p.First(me) + start)
             && forall x :: p.First(me) <= x < p.First(me) + start ==> !OnLevel(p, l, x)
    requires n == NumPointsOnThisPartition(p, me, start, stride)
    ensures IsLevelList(p, me, l, oneDIndices)
  {
    oneDIndices := [];
    var localStart := start;
    assert ListsLevel(p, me, l, oneDIndices, localStart);
    for j := 0 to n
      invariant localStart == StartAfter(start, stride, j) && localStart >= 0 && OnLevel(p, l, p.First(me) + localStart)
      invariant ListsLevel(p, me, l, oneDIndices, localStart) && AllBelow(oneDIndices, PartSize(p, me))
    {
      PointsInRange(p, me, start, stride, j);
      NextPoint(p, me, l, oneDIndices, localStart);
      oneDIndices := oneDIndices + [localStart];
      localStart := localStart + stride;
    }
    PointsInRange(p, me, start, stride, n);
    LevelListComplete(p, me, l, oneDIndices, localStart);
  }

  ghost predicate AllBelow(list: seq<int>, bound: int) {
    forall i :: i in list ==> i < bound
  }

  lemma NoFinerPoints(p: Pole, me: nat, l: nat)
    requires IsPart(p, me) && l > p.lmax
    ensures forall i :: 0 <= i < PartSize(p, me) ==> LocalLevel(p, me, i) != l
  {
    forall i | 0 <= i < PartSize(p, me)
      ensures LocalLevel(p, me, i) != l
    {
      OnLevelMeansLevel(p, 1, p.First(me) + i);
    }
  }

  lemma LevelListComplete(p: Pole, me: nat, l: nat, list: seq<int>, bound: int)
    requires 1 <= l <= p.lmax && IsPart(p, me) && ListsLevel(p, me, l, list, bound) && bound >= PartSize(p, me)
    requires AllBelow(list, PartSize(p, me))
    ensures IsLevelList(p, me, l, list)
  {
    forall i | 0 <= i < PartSize(p, me)
      ensures i in list <==> LocalLevel(p, me, i) == l
    {
      OnLevelMeansLevel(p, l, p.First(me) + i);
    }
  }

  /** Every local point is in the list of exactly one level. */
  lemma LevelListsPartition(p: Pole, me: nat, lists: seq<seq<int>>, i: int)
    requires IsPart(p, me) && |lists| == p.lmax + 1 && 0 <= i < PartSize(p, me)
    requires forall l :: 1 <= l < |lists| ==> IsLevelList(p, me, l, lists[l])
    ensures var l := LocalLevel(p, me, i);
            1 <= l <= p.lmax && forall k :: 1 <= k < |lists| ==> (i in lists[k] <==> k == l)
  {
    OnLevelMeansLevel(p, 1, p.First(me) + i);
  }

  /** A level has only one list. */
  lemma {:induction false} AscendingIsUnique(a: seq<int>, b: seq<int>)
    requires StrictlyAscending(a) && StrictlyAscending(b) && forall x :: x in a <==> x in b
    ensures a == b
  {
    if |a| > 0 && |b| > 0 {
      var fa, la, fb, lb := a[..|a| - 1], a[|a| - 1], b[..|b| - 1], b[|b| - 1];
      assert la in a && lb in b && a == fa + [la] && b == fb + [lb];
      forall x | x in fa
        ensures x in fb
      {
        assert x in a && x < la;
      }
      forall x | x in fb
        ensures x in fa
      {
        assert x in b && x < lb;
      }
      AscendingIsUnique(fa, fb);
    } else if |a| > 0 {
      HasFirst(a);
    } else if |b| > 0 {
      HasFirst(b);
    }
  }

  lemma HasFirst(a: seq<int>)
    requires |a| > 0
    ensures a[0] in a
  {
  }
}
