/** Component grids of different levels list the points of a shared subspace in the same order, so that
    the reduction adds values of the same points. */
module SharedPoints {
  import opened Tensor
  import opened Poles
  import opened LevelLists
  import opened Downsampling
  import opened SubspacePoints

  /** A component grid whose decomposition is downsampled from that of the reference grid. */
  ghost predicate IsComponent(reference: seq<Pole>, levelDiff: seq<nat>, poles: seq<Pole>) {
    |reference| == |levelDiff| == |poles|
    && forall d {:trigger poles[d]} {:trigger reference[d]} :: 0 <= d < |poles| ==>
         reference[d].Valid() && levelDiff[d] < reference[d].lmax && poles[d] == Coarser(reference[d], levelDiff[d])
  }

  /** Coordinate d of local cell li, as an index of the reference grid. */
  ghost function ReferenceIndex(reference: seq<Pole>, levelDiff: seq<nat>, poles: seq<Pole>, me: seq<nat>,
                                extents: Index, li: int, d: nat): int
    requires IsComponent(reference, levelDiff, poles) && IsGridPart(poles, me, extents) && d < |poles|
  {
    RefIndex(reference[d].boundary, levelDiff[d], poles[d].First(me[d]) + Vector(extents, li, |extents|)[d])
  }

  lemma SharedLists(reference: seq<Pole>, diffA: seq<nat>, diffB: seq<nat>, a: seq<Pole>, b: seq<Pole>, me: seq<nat>,
                    l: seq<nat>, listsA: Lists, listsB: Lists, d: nat)
    requires IsComponent(reference, diffA, a) && IsComponent(reference, diffB, b) && |l| == |me| == |reference|
             && d < |l|
    requires 1 <= l[d] <= a[d].lmax && l[d] <= b[d].lmax
    requires AreLevelLists(a, me, l, listsA) && AreLevelLists(b, me, l, listsB)
    ensures me[d] < |a[d].cuts| == |b[d].cuts|
    ensures AreSamePoints(reference[d], diffA[d], diffB[d], me[d], listsA[d], listsB[d])
  {
    assert IsLevelList(a[d], me[d], l[d], listsA[d]) && IsLevelList(b[d], me[d], l[d], listsB[d]);
    assert me[d] < |reference[d].cuts|;
    SamePoints(reference[d], diffA[d], diffB[d], me[d], l[d], listsA[d], listsB[d]);
  }

  /** Two lists of local indices on coarser grids that name the same points. */
  ghost predicate AreSamePoints(p: Pole, diffA: nat, diffB: nat, me: nat, a: seq<int>, b: seq<int>)
    requires diffA <= p.lmax && diffB <= p.lmax && me < |p.cuts|
  {
    |a| == |b|
    && forall j {:trigger a[j]} {:trigger b[j]} :: 0 <= j < |a| ==>
         RefIndex(p.boundary, diffA, Coarser(p, diffA).First(me) + a[j])
           == RefIndex(p.boundary, diffB, Coarser(p, diffB).First(me) + b[j])
  }

  lemma {:induction false} ChoicesDependOnLengths(a: Lists, b: Lists, d: nat)
    requires d < |a| == |b| && forall e :: 0 <= e <= d ==> |a[e]| == |b[e]|
    ensures Choices(a, d) == Choices(b, d)
  {
    if d > 0 {
      ChoicesDependOnLengths(a, b, d - 1);
      assert ChoiceBlocks(a, d) == ChoiceBlocks(b, d);
    }
  }

  lemma CoordinateOfChoice(extents: Index, lists: Lists, c: seq<nat>, j: nat, d: nat)
    requires Positive(extents) && 0 < |lists| == |extents| && d < |lists|
    requires j < |Choices(lists, |lists| - 1)| && c == Choices(lists, |lists| - 1)[j] && IsChoice(lists, c, |lists| - 1)
    requires InBox(extents, Picked(lists, c))
    ensures j < |PointsOf(extents, lists, |lists| - 1, 0)|
    ensures Vector(extents, PointsOf(extents, lists, |lists| - 1, 0)[j], |extents|)[d] == lists[d][c[d]]
  {
    PointIsChoice(extents, lists, |lists| - 1, 0, j);
    IndexBijection(extents, Picked(lists, c), 0);
  }

  /** Coordinate d of point number j. */
  lemma CoordinateOfPoint(poles: seq<Pole>, me: seq<nat>, extents: Index, l: seq<nat>, lists: Lists, j: nat, d: nat)
    requires IsGridPart(poles, me, extents) && |l| == |poles| && AreLevelLists(poles, me, l, lists)
    requires j < |Choices(lists, |l| - 1)| && d < |l|
    ensures j < |PointsOf(extents, lists, |l| - 1, 0)|
    ensures var c := Choices(lists, |l| - 1)[j];
            |c| == |l| && c[d] < |lists[d]|
            && Vector(extents, PointsOf(extents, lists, |l| - 1, 0)[j], |extents|)[d] == lists[d][c[d]]
  {
    var c := Choices(lists, |l| - 1)[j];
    ChoicesAreChoices(lists, |l| - 1, j);
    PickedIsInBox(poles, me, extents, l, lists, c);
    CoordinateOfChoice(extents, lists, c, j, d);
  }

  lemma SameReferenceIndex(p: Pole, diffA: nat, diffB: nat, me: nat, a: seq<int>, b: seq<int>, c: nat)
    requires diffA <= p.lmax && diffB <= p.lmax && me < |p.cuts| && AreSamePoints(p, diffA, diffB, me, a, b) && c < |a|
    ensures c < |b|
    ensures RefIndex(p.boundary, diffA, Coarser(p, diffA).First(me) + a[c])
            == RefIndex(p.boundary, diffB, Coarser(p, diffB).First(me) + b[c])
  {
  }

  lemma EntriesMatch(reference: seq<Pole>, diffA: seq<nat>, diffB: seq<nat>, a: seq<Pole>, b: seq<Pole>, me: seq<nat>,
                     l: seq<nat>, extentsA: Index, extentsB: Index, listsA: Lists, listsB: Lists, j: nat, d: nat)
    requires IsComponent(reference, diffA, a) && IsComponent(reference, diffB, b) && |l| == |reference|
    requires IsGridPart(a, me, extentsA) && IsGridPart(b, me, extentsB) && d < |l|
    requires 1 <= l[d] <= a[d].lmax && l[d] <= b[d].lmax
    requires AreLevelLists(a, me, l, listsA) && AreLevelLists(b, me, l, listsB)
    requires Choices(listsA, |l| - 1) == Choices(listsB, |l| - 1) && j < |Choices(listsA, |l| - 1)|
    ensures j < |PointsOf(extentsA, listsA, |l| - 1, 0)| && j < |PointsOf(extentsB, listsB, |l| - 1, 0)|
    ensures ReferenceIndex(reference, diffA, a, me, extentsA, PointsOf(extentsA, listsA, |l| - 1, 0)[j], d)
            == ReferenceIndex(reference, diffB, b, me, extentsB, PointsOf(extentsB, listsB, |l| - 1, 0)[j], d)
  {
    CoordinateOfPoint(a, me, extentsA, l, listsA, j, d);
    CoordinateOfPoint(b, me, extentsB, l, listsB, j, d);
    SharedLists(reference, diffA, diffB, a, b, me, l, listsA, listsB, d);
    SameReferenceIndex(reference[d], diffA[d], diffB[d], me[d], listsA[d], listsB[d], Choices(listsA, |l| - 1)[j][d]);
  }

  lemma SameChoices(reference: seq<Pole>, diffA: seq<nat>, diffB: seq<nat>, a: seq<Pole>, b: seq<Pole>, me: seq<nat>,
                    l: seq<nat>, listsA: Lists, listsB: Lists)
    requires IsComponent(reference, diffA, a) && IsComponent(reference, diffB, b) && |l| == |me| == |reference| > 0
    requires forall d {:trigger l[d]} :: 0 <= d < |l| ==> 1 <= l[d] <= a[d].lmax && l[d] <= b[d].lmax
    requires AreLevelLists(a, me, l, listsA) && AreLevelLists(b, me, l, listsB)
    ensures Choices(listsA, |l| - 1) == Choices(listsB, |l| - 1)
  {
    forall d | 0 <= d < |l|
      ensures |listsA[d]| == |listsB[d]|
    {
      SharedLists(reference, diffA, diffB, a, b, me, l, listsA, listsB, d);
    }
    ChoicesDependOnLengths(listsA, listsB, |l| - 1);
  }

  lemma ListsOf(poles: seq<Pole>, me: seq<nat>, extents: Index, l: seq<nat>, points: seq<int>) returns (lists: Lists)
    requires IsGridPart(poles, me, extents) && |l| == |poles| && IsSubspaceList(poles, me, extents, l, points)
    ensures AreLevelLists(poles, me, l, lists) && points == PointsOf(extents, lists, |l| - 1, 0)
    ensures |points| == |Choices(lists, |l| - 1)|
  {
    lists :| AreLevelLists(poles, me, l, lists) && points == PointsOf(extents, lists, |lists| - 1, 0);
    SameLength(extents, lists, |l| - 1, 0);
  }

  /** On the same rank, two component grids list equally many points of a subspace that both contain, and
      the j-th entries of their lists are the same point. */
  lemma SubspacesMatch(reference: seq<Pole>, diffA: seq<nat>, diffB: seq<nat>, a: seq<Pole>, b: seq<Pole>, me: seq<nat>,
                       l: seq<nat>, extentsA: Index, extentsB: Index, pointsA: seq<int>, pointsB: seq<int>, j: nat,
                       d: nat)
    requires IsComponent(reference, diffA, a) && IsComponent(reference, diffB, b) && |l| == |reference|
    requires IsGridPart(a, me, extentsA) && IsGridPart(b, me, extentsB)
    requires forall d {:trigger l[d]} :: 0 <= d < |l| ==> 1 <= l[d] <= a[d].lmax && l[d] <= b[d].lmax
    requires IsSubspaceList(a, me, extentsA, l, pointsA) && IsSubspaceList(b, me, extentsB, l, pointsB)
    ensures |pointsA| == |pointsB|
    ensures j < |pointsA| && d < |l| ==>
              ReferenceIndex(reference, diffA, a, me, extentsA, pointsA[j], d)
                == ReferenceIndex(reference, diffB, b, me, extentsB, pointsB[j], d)
  {
    var listsA := ListsOf(a, me, extentsA, l, pointsA);
    var listsB := ListsOf(b, me, extentsB, l, pointsB);
    SameChoices(reference, diffA, diffB, a, b, me, l, listsA, listsB);
    if j < |pointsA| && d < |l| {
      EntriesMatch(reference, diffA, diffB, a, b, me, l, extentsA, extentsB, listsA, listsB, j, d);
    }
  }
}
