/** All subspaces of a full grid together have as many points as the grid. */
module DownSetCounts {
  import opened Tensor
  import opened TaskDistribution
  import opened PartitionedCount
  import opened GridCounts

  /** Every level of the list with j as one more dimension. */
  function Extended(list: seq<seq<nat>>, j: nat): (longer: seq<seq<nat>>)
    ensures |longer| == |list|
  {
    seq(|list|, i requires 0 <= i < |list| => list[i] + [j])
  }

  /** All levels from one up to l, listed dimension by dimension. */
  function Box(l: seq<nat>): seq<seq<nat>> {
    if l == [] then [[]] else Layers(Box(l[..|l| - 1]), l[|l| - 1])
  }

  function Layers(front: seq<seq<nat>>, m: nat): seq<seq<nat>> {
    if m == 0 then [] else Layers(front, m - 1) + Extended(front, m)
  }

  lemma {:induction false} PointsOfJoined(a: seq<seq<nat>>, b: seq<seq<nat>>, dim: nat)
    requires ArePositiveLevels(a, dim) && ArePositiveLevels(b, dim)
    ensures ArePositiveLevels(a + b, dim)
    ensures PointsOfDownSet(a + b, dim) == PointsOfDownSet(a, dim) + PointsOfDownSet(b, dim)
  {
    if b == [] {
      assert a + b == a;
    } else {
      var n := |b| - 1;
      FrontIsPositive(b, dim);
      PointsOfJoined(a, b[..n], dim);
      assert (a + b)[..|a + b| - 1] == a + b[..n];
    }
  }

  lemma PositiveExtended(list: seq<seq<nat>>, j: nat, dim: nat)
    requires ArePositiveLevels(list, dim) && j > 0
    ensures ArePositiveLevels(Extended(list, j), dim + 1)
  {
    forall k | k in Extended(list, j)
      ensures IsPositiveLevel(k, dim + 1)
    {
      var i :| 0 <= i < |list| && k == list[i] + [j];
      assert list[i] in list;
    }
  }

  lemma {:induction false} PointsOfExtended(list: seq<seq<nat>>, j: nat, dim: nat)
    requires ArePositiveLevels(list, dim) && j > 0
    ensures ArePositiveLevels(Extended(list, j), dim + 1)
    ensures PointsOfDownSet(Extended(list, j), dim + 1) == PointsOfDownSet(list, dim) * PointsOfLevel(j)
  {
    hide PointsOfLevel;
    PositiveExtended(list, j, dim);
    if list != [] {
      var n := |list| - 1;
      FrontIsPositive(list, dim);
      PointsOfExtended(list[..n], j, dim);
      assert Extended(list, j)[..n] == Extended(list[..n], j);
      assert (list[n] + [j])[..dim] == list[n];
      Distribute(PointsOfDownSet(list[..n], dim), PointsOfSubspace(list[n]), PointsOfLevel(j));
    }
  }

  lemma {:induction false} PointsOfLayers(front: seq<seq<nat>>, m: nat, dim: nat)
    requires ArePositiveLevels(front, dim)
    ensures ArePositiveLevels(Layers(front, m), dim + 1)
    ensures PointsOfDownSet(Layers(front, m), dim + 1) == PointsOfDownSet(front, dim) * PointsUpTo(m, 2)
  {
    hide PointsOfLevel, PointsOnPole, Extended, ArePositiveLevels;
    NoPoints(dim + 1);
    if m > 0 {
      hide PointsOfDownSet;
      PointsOfLayers(front, m - 1, dim);
      PointsOfExtended(front, m, dim);
      PointsOfJoined(Layers(front, m - 1), Extended(front, m), dim + 1);
      SameCounts(m);
      DistributeLeft(PointsOfDownSet(front, dim), PointsUpTo(m - 1, 2), PointsOnPole(m, 2));
    }
  }

  lemma NoPoints(dim: nat)
    ensures ArePositiveLevels([], dim) && PointsOfDownSet([], dim) == 0
  {
  }

  lemma SameCounts(m: nat)
    requires m > 0
    ensures PointsOnPole(m, 2) == PointsOfLevel(m)
  {
  }

  function Twos(dim: nat): (boundary: seq<nat>)
    ensures |boundary| == dim
  {
    seq(dim, d => 2)
  }

  lemma {:induction false} PointsOfBox(l: seq<nat>)
    requires forall d :: 0 <= d < |l| ==> l[d] > 0
    ensures ArePositiveLevels(Box(l), |l|)
    ensures PointsOfDownSet(Box(l), |l|) == Stride(GridSizes(l, Twos(|l|)), |l|)
  {
    if l == [] {
      var one: seq<seq<nat>> := [[]];
      assert Box(l) == one && one[..0] == [];
    } else {
      var n := |l| - 1;
      PointsOfBox(l[..n]);
      PointsOfLayers(Box(l[..n]), l[n], n);
      LevelsFillThePole(l[n], 2);
      StrideOfFront(GridSizes(l, Twos(|l|)), GridSizes(l[..n], Twos(n)), n);
    }
  }

  lemma {:induction false} StrideOfFront(a: Index, b: Index, k: nat)
    requires k <= |a| && k <= |b| && forall d :: 0 <= d < k ==> a[d] == b[d]
    ensures Stride(a, k) == Stride(b, k)
  {
    if k > 0 {
      StrideOfFront(a, b, k - 1);
    }
  }

  /** k is one of the levels from one up to l. */
  predicate IsInBox(l: seq<nat>, k: seq<nat>) {
    |k| == |l| && forall d :: 0 <= d < |l| ==> 1 <= k[d] <= l[d]
  }

  ghost predicate NoLevelTwice(list: seq<seq<nat>>) {
    forall i, j :: 0 <= i < j < |list| ==> list[i] != list[j]
  }

  lemma {:induction false} LayerMembers(front: seq<seq<nat>>, m: nat, k: seq<nat>)
    ensures k in Layers(front, m) <==> |k| > 0 && k[..|k| - 1] in front && 1 <= k[|k| - 1] <= m
  {
    if m > 0 {
      LayerMembers(front, m - 1, k);
      var last := Extended(front, m);
      if k in last {
        var i :| 0 <= i < |last| && last[i] == k;
        assert k[..|k| - 1] == front[i];
      }
      if |k| > 0 && k[..|k| - 1] in front && k[|k| - 1] == m {
        var i :| 0 <= i < |front| && front[i] == k[..|k| - 1];
        assert last[i] == k;
      }
    }
  }

  lemma InBoxByFront(l: seq<nat>, k: seq<nat>)
    requires l != []
    ensures IsInBox(l, k)
            <==> |k| > 0 && IsInBox(l[..|l| - 1], k[..|k| - 1]) && 1 <= k[|k| - 1] <= l[|l| - 1]
  {
    if |k| == |l| {
      assert k == k[..|k| - 1] + [k[|k| - 1]] && l == l[..|l| - 1] + [l[|l| - 1]];
    }
  }

  lemma {:induction false} BoxMembers(l: seq<nat>, k: seq<nat>)
    ensures k in Box(l) <==> IsInBox(l, k)
  {
    hide Layers;
    if l != [] {
      hide IsInBox;
      var n := |l| - 1;
      LayerMembers(Box(l[..n]), l[n], k);
      InBoxByFront(l, k);
      if |k| > 0 {
        BoxMembers(l[..n], k[..|k| - 1]);
      }
    }
  }

  lemma {:induction false} LayersAreDistinct(front: seq<seq<nat>>, m: nat)
    requires NoLevelTwice(front)
    ensures NoLevelTwice(Layers(front, m))
  {
    if m > 0 {
      LayersAreDistinct(front, m - 1);
      var a, b := Layers(front, m - 1), Extended(front, m);
      var all := a + b;
      forall i, j | 0 <= i < j < |all|
        ensures all[i] != all[j]
      {
        if j < |a| {
          assert all[i] == a[i] && all[j] == a[j];
        } else if i < |a| {
          assert all[i] in a && all[j] == front[j - |a|] + [m];
          LayerMembers(front, m - 1, all[i]);
        } else {
          assert all[i][..|all[i]| - 1] == front[i - |a|] && all[j][..|all[j]| - 1] == front[j - |a|];
        }
      }
    }
  }

  lemma {:induction false} BoxIsDistinct(l: seq<nat>)
    ensures NoLevelTwice(Box(l))
  {
    if l != [] {
      BoxIsDistinct(l[..|l| - 1]);
      LayersAreDistinct(Box(l[..|l| - 1]), l[|l| - 1]);
    }
  }

  lemma FirstIsMember(b: seq<seq<nat>>)
    requires b != []
    ensures b[0] in b
  {
  }

  ghost predicate SameMembers(a: seq<seq<nat>>, b: seq<seq<nat>>) {
    forall k :: k in a <==> k in b
  }

  lemma WithoutOne(b: seq<seq<nat>>, i: nat, dim: nat)
    requires ArePositiveLevels(b, dim) && i < |b|
    ensures ArePositiveLevels(b[..i] + b[i + 1..], dim) && IsPositiveLevel(b[i], dim)
    ensures PointsOfDownSet(b, dim) == PointsOfDownSet(b[..i] + b[i + 1..], dim) + PointsOfSubspace(b[i])
  {
    hide PointsOfDownSet, PointsOfSubspace, ArePositiveLevels, IsPositiveLevel;
    PositiveParts(b, i, dim);
    PointsOfJoined(b[..i], b[i + 1..], dim);
    PointsOfJoined(b[..i], [b[i]], dim);
    PointsOfJoined(b[..i] + [b[i]], b[i + 1..], dim);
    assert b == b[..i] + [b[i]] + b[i + 1..];
    PointsOfOne(b[i], dim);
  }

  lemma PointsOfLast(a: seq<seq<nat>>, dim: nat)
    requires ArePositiveLevels(a, dim) && a != []
    ensures ArePositiveLevels(a[..|a| - 1], dim) && IsPositiveLevel(a[|a| - 1], dim)
    ensures PointsOfDownSet(a, dim) == PointsOfDownSet(a[..|a| - 1], dim) + PointsOfSubspace(a[|a| - 1])
  {
    FrontIsPositive(a, dim);
  }

  /** The count does not depend on the order of the levels. */
  lemma {:induction false} OrderIsIrrelevant(a: seq<seq<nat>>, b: seq<seq<nat>>, dim: nat)
    requires ArePositiveLevels(a, dim) && ArePositiveLevels(b, dim) && NoLevelTwice(a) && NoLevelTwice(b)
    requires SameMembers(a, b)
    ensures PointsOfDownSet(a, dim) == PointsOfDownSet(b, dim)
    decreases |a|
  {
    hide ArePositiveLevels, NoLevelTwice, PointsOfSubspace;
    if a == [] {
      if b != [] {
        FirstIsMember(b);
      }
    } else {
      hide PointsOfDownSet;
      var n := |a| - 1;
      assert a[n] in a;
      var i :| 0 <= i < |b| && b[i] == a[n];
      RestOfList(a, b, i);
      PointsOfLast(a, dim);
      WithoutOne(b, i, dim);
      OrderIsIrrelevant(a[..n], b[..i] + b[i + 1..], dim);
    }
  }

  lemma PositiveParts(b: seq<seq<nat>>, i: nat, dim: nat)
    requires ArePositiveLevels(b, dim) && i < |b|
    ensures ArePositiveLevels(b[..i], dim) && ArePositiveLevels(b[i + 1..], dim) && ArePositiveLevels([b[i]], dim)
    ensures ArePositiveLevels(b[..i] + b[i + 1..], dim) && IsPositiveLevel(b[i], dim)
  {
    assert b[i] in b;
  }

  lemma PointsOfOne(k: seq<nat>, dim: nat)
    requires ArePositiveLevels([k], dim) && IsPositiveLevel(k, dim)
    ensures PointsOfDownSet([k], dim) == PointsOfSubspace(k)
  {
    assert [k][..0] == [];
  }

  /** Without the last level of a and the same level of b the lists still have the same members. */
  lemma RestOfList(a: seq<seq<nat>>, b: seq<seq<nat>>, i: nat)
    requires a != [] && NoLevelTwice(a) && NoLevelTwice(b) && i < |b| && b[i] == a[|a| - 1]
    requires SameMembers(a, b)
    ensures NoLevelTwice(a[..|a| - 1]) && NoLevelTwice(b[..i] + b[i + 1..])
    ensures SameMembers(a[..|a| - 1], b[..i] + b[i + 1..])
  {
    var n, rest := |a| - 1, b[..i] + b[i + 1..];
    forall k
      ensures k in a[..n] <==> k in rest
    {
      if k in a[..n] {
        assert k in a && k != a[n];
        var j :| 0 <= j < |b| && b[j] == k;
        assert if j < i then rest[j] == k else rest[j - 1] == k;
      }
      if k in rest {
        var j :| 0 <= j < |rest| && rest[j] == k;
        assert k == b[if j < i then j else j + 1] && k in b && k in a;
        var h :| 0 <= h < |a| && a[h] == k;
        assert h != n;
      }
    }
  }

  /** The subspaces of all levels up to l, each listed once in any order, have as many points as the full grid of level
      l has cells. */
  lemma FullGridIsCounted(l: seq<nat>, downSet: seq<seq<nat>>)
    requires forall d :: 0 <= d < |l| ==> l[d] > 0
    requires NoLevelTwice(downSet) && forall k :: k in downSet <==> IsInBox(l, k)
    ensures ArePositiveLevels(downSet, |l|)
    ensures PointsOfDownSet(downSet, |l|) == Stride(GridSizes(l, Twos(|l|)), |l|)
  {
    hide PointsOfDownSet, Box, GridSizes, NoLevelTwice;
    PointsOfBox(l);
    BoxIsDistinct(l);
    forall k
      ensures k in Box(l) <==> IsInBox(l, k)
    {
      BoxMembers(l, k);
    }
    OrderIsIrrelevant(downSet, Box(l), |l|);
  }
}
