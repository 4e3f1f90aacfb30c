/** The local linear indices of the points of a d-dimensional hierarchical subspace. */
module SubspacePoints {
  import opened Arithmetic
  import opened Tensor
  import opened Poles
  import opened LevelLists

  /** One list of local indices for every dimension. */
  type Lists = seq<seq<int>>

  function Flat<T>(blocks: seq<seq<T>>): seq<T> {
    if blocks == [] then [] else Flat(blocks[..|blocks| - 1]) + blocks[|blocks| - 1]
  }

  /** Two lists of blocks of the same lengths, laid out one block after the other, correspond position by
      position. */
  lemma {:induction false} FlatPair<T, U>(a: seq<seq<T>>, b: seq<seq<U>>, j: nat) returns (i: nat, k: nat)
    requires |a| == |b| && (forall i :: 0 <= i < |a| ==> |a[i]| == |b[i]|) && j < |Flat(a)|
    ensures |Flat(a)| == |Flat(b)| && i < |a| && k < |a[i]| && Flat(a)[j] == a[i][k] && Flat(b)[j] == b[i][k]
  {
    var n := |a| - 1;
    FlatLengths(a[..n], b[..n]);
    if j < |Flat(a[..n])| {
      i, k := FlatPair(a[..n], b[..n], j);
    } else {
      i, k := n, j - |Flat(a[..n])|;
    }
  }

  lemma {:induction false} FlatLengths<T, U>(a: seq<seq<T>>, b: seq<seq<U>>)
    requires |a| == |b| && forall i :: 0 <= i < |a| ==> |a[i]| == |b[i]|
    ensures |Flat(a)| == |Flat(b)|
  {
    if a != [] {
      FlatLengths(a[..|a| - 1], b[..|b| - 1]);
    }
  }

  lemma {:induction false} FlatMember<T>(a: seq<seq<T>>, i: nat, x: T)
    requires i < |a| && x in a[i]
    ensures x in Flat(a)
  {
    if i < |a| - 1 {
      FlatMember(a[..|a| - 1], i, x);
    }
  }

  lemma {:induction false} FlatLength<T>(a: seq<seq<T>>, length: nat)
    requires forall i :: 0 <= i < |a| ==> |a[i]| == length
    ensures |Flat(a)| == |a| * length
  {
    if a != [] {
      FlatLength(a[..|a| - 1], length);
      assert |a| * length == (|a| - 1) * length + length;
    }
  }

  /** All ways to choose one entry each from the lists of dimensions 0 to d; the last dimension varies
      slowest. */
  function Choices(lists: Lists, d: nat): seq<seq<nat>>
    requires d < |lists|
    decreases d, 1
  {
    if d == 0 then seq(|lists[0]|, n requires 0 <= n < |lists[0]| => [n]) else Flat(ChoiceBlocks(lists, d))
  }

  function ChoiceBlocks(lists: Lists, d: nat): (blocks: seq<seq<seq<nat>>>)
    requires 0 < d < |lists|
    ensures |blocks| == |lists[d]|
    decreases d, 0
  {
    seq(|lists[d]|, n requires 0 <= n < |lists[d]| => Extended(Choices(lists, d - 1), n))
  }

  function Extended(cs: seq<seq<nat>>, n: nat): (r: seq<seq<nat>>)
    ensures |r| == |cs| && forall j :: 0 <= j < |r| ==> r[j] == cs[j] + [n]
  {
    seq(|cs|, j requires 0 <= j < |cs| => cs[j] + [n])
  }

  predicate IsChoice(lists: Lists, c: seq<nat>, d: nat)
    requires d < |lists|
  {
    |c| == d + 1 && forall e :: 0 <= e <= d ==> c[e] < |lists[e]|
  }

  function Picked(lists: Lists, c: seq<nat>): (v: Index)
    requires |c| <= |lists| && forall e :: 0 <= e < |c| ==> c[e] < |lists[e]|
    ensures |v| == |c|
  {
    seq(|c|, e requires 0 <= e < |c| => lists[e][c[e]])
  }

  lemma {:induction false} ChoicesAreChoices(lists: Lists, d: nat, j: nat)
    requires d < |lists| && j < |Choices(lists, d)|
    ensures IsChoice(lists, Choices(lists, d)[j], d)
  {
    if d > 0 {
      var blocks := ChoiceBlocks(lists, d);
      var i, k := FlatPair(blocks, blocks, j);
      ChoicesAreChoices(lists, d - 1, k);
    }
  }

  lemma {:induction false} EveryChoiceIsThere(lists: Lists, d: nat, c: seq<nat>)
    requires d < |lists| && IsChoice(lists, c, d)
    ensures c in Choices(lists, d)
  {
    if d == 0 {
      assert c == Choices(lists, 0)[c[0]];
    } else {
      var inner := Choices(lists, d - 1);
      EveryChoiceIsThere(lists, d - 1, c[..d]);
      var j :| 0 <= j < |inner| && inner[j] == c[..d];
      assert ChoiceBlocks(lists, d)[c[d]][j] == c;
      FlatMember(ChoiceBlocks(lists, d), c[d], c);
    }
  }

  function Product(lists: Lists, k: nat): nat
    requires k <= |lists|
  {
    if k == 0 then 1 else Product(lists, k - 1) * |lists[k - 1]|
  }

  lemma {:induction false} NumberOfChoices(lists: Lists, d: nat)
    requires d < |lists|
    ensures |Choices(lists, d)| == Product(lists, d + 1)
  {
    if d > 0 {
      NumberOfChoices(lists, d - 1);
      FlatLength(ChoiceBlocks(lists, d), Product(lists, d));
    } else {
      assert Product(lists, 1) == Product(lists, 0) * |lists[0]|;
    }
  }

  /** The points, as the recursion over the dimensions appends them. */
  ghost function PointsOf(extents: Index, lists: Lists, d: nat, sum: int): seq<int>
    requires d < |lists| == |extents|
    decreases d, 1
  {
    if d == 0 then seq(|lists[0]|, n requires 0 <= n < |lists[0]| => sum + Stride(extents, 0) * lists[0][n])
    else Flat(PointBlocks(extents, lists, d, sum))
  }

  ghost function PointBlocks(extents: Index, lists: Lists, d: nat, sum: int): (blocks: seq<seq<int>>)
    requires 0 < d < |lists| == |extents|
    ensures |blocks| == |lists[d]|
    decreases d, 0
  {
    seq(|lists[d]|, n requires 0
        <= n < |lists[d]| => PointsOf(extents, lists, d - 1, sum + Stride(extents, d) * lists[d][n]))
  }

  lemma {:induction false} SameLength(extents: Index, lists: Lists, d: nat, sum: int)
    requires d < |lists| == |extents|
    ensures |PointsOf(extents, lists, d, sum)| == |Choices(lists, d)|
  {
    if d > 0 {
      forall n | 0 <= n < |lists[d]|
        ensures |PointBlocks(extents, lists, d, sum)[n]| == |ChoiceBlocks(lists, d)[n]|
      {
        SameLength(extents, lists, d - 1, sum + Stride(extents, d) * lists[d][n]);
      }
      FlatLengths(PointBlocks(extents, lists, d, sum), ChoiceBlocks(lists, d));
    }
  }

  lemma {:induction false} LinearOfAppended(extents: Index, v: Index, x: int)
    requires |v| < |extents|
    ensures Linear(extents, v + [x], |v| + 1) == Linear(extents, v, |v|) + x * Stride(extents, |v|)
  {
    PrefixOnly(extents, v, v + [x], |v|);
  }

  /** Point number j is the linear index of choice number j. */
  lemma {:induction false} PointIsChoice(extents: Index, lists: Lists, d: nat, sum: int, j: nat)
    requires d < |lists| == |extents| && j < |Choices(lists, d)|
    ensures |PointsOf(extents, lists, d, sum)| == |Choices(lists, d)|
    ensures IsChoice(lists, Choices(lists, d)[j], d)
    ensures PointsOf(extents, lists, d, sum)[j] == sum + Linear(extents, Picked(lists, Choices(lists, d)[j]), d + 1)
    decreases d
  {
    SameLength(extents, lists, d, sum);
    ChoicesAreChoices(lists, d, j);
    if d == 0 {
      assert Picked(lists, [j]) == [] + [lists[0][j]];
      LinearOfAppended(extents, [], lists[0][j]);
    } else {
      PointInBlock(extents, lists, d, sum, j);
    }
  }

  lemma {:induction false} PointInBlock(extents: Index, lists: Lists, d: nat, sum: int, j: nat)
    requires 0 < d < |lists| == |extents| && j < |Choices(lists, d)|
             && |PointsOf(extents, lists, d, sum)| == |Choices(lists, d)|
    requires IsChoice(lists, Choices(lists, d)[j], d)
    ensures PointsOf(extents, lists, d, sum)[j] == sum + Linear(extents, Picked(lists, Choices(lists, d)[j]), d + 1)
    decreases d, 0
  {
    var points, choices := PointBlocks(extents, lists, d, sum), ChoiceBlocks(lists, d);
    forall n | 0 <= n < |lists[d]|
      ensures |points[n]| == |choices[n]|
    {
      SameLength(extents, lists, d - 1, sum + Stride(extents, d) * lists[d][n]);
    }
    var i, k := FlatPair(points, choices, j);
    var x := lists[d][i];
    PointIsChoice(extents, lists, d - 1, sum + Stride(extents, d) * x, k);
    var c := Choices(lists, d - 1)[k];
    assert Picked(lists, c + [i]) == Picked(lists, c) + [x];
    LinearOfAppended(extents, Picked(lists, c), x);
  }

  method GetFGPointsOfSubspaceRecursive(extents: Index, lists: Lists, d: nat, localLinearIndexSum: int)
    returns (subspaceIndices: seq<int>)
    requires d < |lists| == |extents|
    ensures subspaceIndices == PointsOf(extents, lists, d, localLinearIndexSum)
    decreases d
  {
    subspaceIndices := [];
    if d == 0 {
      for n := 0 to |lists[0]|
        invariant subspaceIndices == PointsOf(extents, lists, 0, localLinearIndexSum)[..n]
      {
        subspaceIndices := subspaceIndices + [localLinearIndexSum + Stride(extents, 0) * lists[0][n]];
      }
    } else {
      ghost var blocks := PointBlocks(extents, lists, d, localLinearIndexSum);
      for n := 0 to |lists[d]|
        invariant subspaceIndices == Flat(blocks[..n])
      {
        var updatedLocalIndexSum := localLinearIndexSum + Stride(extents, d) * lists[d][n];
        var deeper := GetFGPointsOfSubspaceRecursive(extents, lists, d - 1, updatedLocalIndexSum);
        assert blocks[..n + 1][..n] == blocks[..n];
        subspaceIndices := subspaceIndices + deeper;
      }
      assert blocks[..|lists[d]|] == blocks;
    }
  }

  /** The part of a grid that a rank owns: in every dimension its part of a pole. */
  ghost predicate IsGridPart(poles: seq<Pole>, me: seq<nat>, extents: Index) {
    && |poles| == |me| == |extents| > 0 && Positive(extents)
    && forall d {:trigger extents[d]} {:trigger poles[d]} :: 0 <= d < |poles| ==>
         IsPart(poles[d], me[d]) && extents[d] == PartSize(poles[d], me[d])
  }

  /** The cell with local linear index li lies in the subspace of level l. */
  ghost predicate InSubspace(poles: seq<Pole>, me: seq<nat>, extents: Index, l: seq<nat>, li: int)
    requires IsGridPart(poles, me, extents) && |l| == |poles|
  {
    && 0 <= li < Stride(extents, |extents|)
    && forall d {:trigger l[d]} :: 0 <= d < |poles| ==>
      LocalLevel(poles[d], me[d], Vector(extents, li, |extents|)[d]) == l[d]
  }

  ghost predicate AreLevelLists(poles: seq<Pole>, me: seq<nat>, l: seq<nat>, lists: Lists)
    requires |poles| == |me| == |l|
  {
    && |lists| == |poles|
    && forall d {:trigger lists[d]} :: 0 <= d < |lists| ==>
      me[d] < |poles[d].cuts| && IsLevelList(poles[d], me[d], l[d], lists[d])
  }

  lemma PickedIsInBox(poles: seq<Pole>, me: seq<nat>, extents: Index, l: seq<nat>, lists: Lists, c: seq<nat>)
    requires IsGridPart(poles, me, extents) && |l| == |poles| && AreLevelLists(poles, me, l, lists)
    requires IsChoice(lists, c, |lists| - 1)
    ensures InBox(extents, Picked(lists, c))
    ensures forall d {:trigger l[d]} :: 0 <= d < |l| ==> LocalLevel(poles[d], me[d], Picked(lists, c)[d]) == l[d]
  {
    forall d | 0 <= d < |l|
      ensures 0 <= Picked(lists, c)[d] < extents[d] && LocalLevel(poles[d], me[d], Picked(lists, c)[d]) == l[d]
    {
      assert IsLevelList(poles[d], me[d], l[d], lists[d]) && lists[d][c[d]] in lists[d];
    }
  }

  lemma ListedIsInSubspace(poles: seq<Pole>, me: seq<nat>, extents: Index, l: seq<nat>, lists: Lists, j: nat)
    requires IsGridPart(poles, me, extents) && |l| == |poles| && AreLevelLists(poles, me, l, lists)
    requires j < |PointsOf(extents, lists, |lists| - 1, 0)|
    ensures InSubspace(poles, me, extents, l, PointsOf(extents, lists, |lists| - 1, 0)[j])
  {
    var d := |lists| - 1;
    SameLength(extents, lists, d, 0);
    PointIsChoice(extents, lists, d, 0, j);
    var v := Picked(lists, Choices(lists, d)[j]);
    PickedIsInBox(poles, me, extents, l, lists, Choices(lists, d)[j]);
    IndexBijection(extents, v, 0);
  }

  /** A choice of entries is listed at its linear index. */
  lemma ChosenIsListed(extents: Index, lists: Lists, c: seq<nat>)
    requires 0 < |lists| == |extents| && IsChoice(lists, c, |lists| - 1)
    ensures Linear(extents, Picked(lists, c), |lists|) in PointsOf(extents, lists, |lists| - 1, 0)
  {
    hide *;
    var d := |lists| - 1;
    EveryChoiceIsThere(lists, d, c);
    var j :| 0 <= j < |Choices(lists, d)| && Choices(lists, d)[j] == c;
    PointIsChoice(extents, lists, d, 0, j);
    assert PointsOf(extents, lists, d, 0)[j] in PointsOf(extents, lists, d, 0);
  }

  lemma SubspaceIsListed(poles: seq<Pole>, me: seq<nat>, extents: Index, l: seq<nat>, lists: Lists, li: int)
    requires IsGridPart(poles, me, extents) && |l| == |poles| && AreLevelLists(poles, me, l, lists)
    requires InSubspace(poles, me, extents, l, li)
    ensures li in PointsOf(extents, lists, |lists| - 1, 0)
  {
    IndexBijection(extents, [], li);
    var v := Vector(extents, li, |extents|);
    var c := ChoiceOf(poles, me, extents, l, lists, v);
    ChosenIsListed(extents, lists, c);
    assert Picked(lists, c) == v;
  }

  /** Exactly the cells of the subspace are listed. */
  lemma PointsAreSubspace(poles: seq<Pole>, me: seq<nat>, extents: Index, l: seq<nat>, lists: Lists, li: int)
    requires IsGridPart(poles, me, extents) && |l| == |poles| && AreLevelLists(poles, me, l, lists)
    ensures li in PointsOf(extents, lists, |lists| - 1, 0) <==> InSubspace(poles, me, extents, l, li)
  {
    var points := PointsOf(extents, lists, |lists| - 1, 0);
    if li in points {
      var j :| 0 <= j < |points| && points[j] == li;
      ListedIsInSubspace(poles, me, extents, l, lists, j);
    }
    if InSubspace(poles, me, extents, l, li) {
      SubspaceIsListed(poles, me, extents, l, lists, li);
    }
  }

  function PositionOf(list: seq<int>, x: int): (i: nat)
    requires x in list
    ensures i < |list| && list[i] == x
  {
    if list[0] == x then 0 else 1 + PositionOf(list[1..], x)
  }

  lemma ChoiceOf(poles: seq<Pole>, me: seq<nat>, extents: Index, l: seq<nat>, lists: Lists, v: Index)
    returns (c: seq<nat>)
    requires IsGridPart(poles, me, extents) && |l| == |poles| && AreLevelLists(poles, me, l, lists) && InBox(extents, v)
    requires forall d {:trigger l[d]} :: 0 <= d < |l| ==> LocalLevel(poles[d], me[d], v[d]) == l[d]
    ensures IsChoice(lists, c, |lists| - 1) && forall d :: 0 <= d < |v| ==> lists[d][c[d]] == v[d]
  {
    forall d | 0 <= d < |v|
      ensures v[d] in lists[d]
    {
      assert IsLevelList(poles[d], me[d], l[d], lists[d]) && LocalLevel(poles[d], me[d], v[d]) == l[d]
             && 0 <= v[d] < extents[d];
    }
    c := seq(|v|, d requires 0 <= d < |v| => PositionOf(lists[d], v[d]));
  }

  lemma {:induction false} EmptyProduct(lists: Lists, k: nat, d: nat)
    requires d < k <= |lists| && lists[d] == []
    ensures Product(lists, k) == 0
  {
    if d < k - 1 {
      EmptyProduct(lists, k - 1, d);
    }
  }

  /** A grid that is too coarse in one dimension has no point of the subspace. */
  lemma TooFineIsEmpty(poles: seq<Pole>, me: seq<nat>, extents: Index, l: seq<nat>, lists: Lists, d: nat)
    requires IsGridPart(poles, me, extents) && |l| == |poles| && AreLevelLists(poles, me, l, lists)
    requires d < |l| && l[d] > poles[d].lmax
    ensures PointsOf(extents, lists, |lists| - 1, 0) == []
  {
    hide PointsOf;
    NoFinerPoints(poles[d], me[d], l[d]);
    assert IsLevelList(poles[d], me[d], l[d], lists[d]);
    if lists[d] != [] {
      HasFirst(lists[d]);
    }
    EmptyProduct(lists, |lists|, d);
    NumberOfChoices(lists, |lists| - 1);
    SameLength(extents, lists, |lists| - 1, 0);
  }

  method LevelListsOf(poles: seq<Pole>, me: seq<nat>, extents: Index, l: seq<nat>)
    returns (oneDIndices: Lists, numPointsOfSubspace: nat)
    requires IsGridPart(poles, me, extents) && |l| == |poles| && forall d :: 0 <= d < |l| ==> l[d] > 0
    ensures AreLevelLists(poles, me, l, oneDIndices) && numPointsOfSubspace == Product(oneDIndices, |oneDIndices|)
  {
    oneDIndices, numPointsOfSubspace := [], 1;
    for d := 0 to |poles|
      invariant |oneDIndices| == d && numPointsOfSubspace == Product(oneDIndices, d)
      invariant forall e {:trigger oneDIndices[e]} :: 0 <= e < d ==>
                  me[e] < |poles[e].cuts| && IsLevelList(poles[e], me[e], l[e], oneDIndices[e])
    {
      assert extents[d] == PartSize(poles[d], me[d]);
      var list := Get1dIndicesLocal(poles[d], me[d], l[d]);
      ProductOfPrefix(oneDIndices, list, d);
      oneDIndices := oneDIndices + [list];
      numPointsOfSubspace := numPointsOfSubspace * |list|;
    }
  }

  /** The points listed for a level, whatever the lists of the single dimensions are called. */
  ghost predicate IsSubspaceList(poles: seq<Pole>, me: seq<nat>, extents: Index, l: seq<nat>, points: seq<int>)
    requires IsGridPart(poles, me, extents) && |l| == |poles|
  {
    exists lists {:trigger AreLevelLists(poles, me, l, lists)} ::
      AreLevelLists(poles, me, l, lists) && points == PointsOf(extents, lists, |lists| - 1, 0)
  }

  /** All cells of the local part that lie in the subspace. */
  method GetFGPointsOfSubspace(poles: seq<Pole>, me: seq<nat>, extents: Index, l: seq<nat>)
    returns (subspaceIndices: seq<int>)
    requires IsGridPart(poles, me, extents) && |l| == |poles| && forall d :: 0 <= d < |l| ==> l[d] > 0
    ensures forall li :: li in subspaceIndices <==> InSubspace(poles, me, extents, l, li)
    ensures IsSubspaceList(poles, me, extents, l, subspaceIndices)
  {
    var oneDIndices, numPointsOfSubspace := LevelListsOf(poles, me, extents, l);
    forall li
      ensures li in PointsOf(extents, oneDIndices, |poles| - 1, 0) <==> InSubspace(poles, me, extents, l, li)
    {
      PointsAreSubspace(poles, me, extents, l, oneDIndices, li);
    }
    subspaceIndices := [];
    for d := 0 to |poles|
    {
      if l[d] > poles[d].lmax {
        TooFineIsEmpty(poles, me, extents, l, oneDIndices, d);
        return;
      }
    }
    SameLength(extents, oneDIndices, |poles| - 1, 0);
    NumberOfChoices(oneDIndices, |poles| - 1);
    if numPointsOfSubspace > 0 {
      subspaceIndices := GetFGPointsOfSubspaceRecursive(extents, oneDIndices, |poles| - 1, 0);
    }
  }

  lemma {:induction false} ProductOfPrefix(lists: Lists, list: seq<int>, k: nat)
    requires k <= |lists|
    ensures Product(lists + [list], k) == Product(lists, k)
  {
    if k > 0 {
      ProductOfPrefix(lists, list, k - 1);
    }
  }

  /** The levels of the coordinates of a cell. */
  ghost function LevelsOf(poles: seq<Pole>, me: seq<nat>, extents: Index, li: int): (l: seq<int>)
    requires IsGridPart(poles, me, extents)
    ensures |l| == |poles|
  {
    seq(|poles|, d requires 0 <= d < |poles| => LocalLevel(poles[d], me[d], Vector(extents, li, |extents|)[d]))
  }

  lemma LevelInBox(poles: seq<Pole>, me: seq<nat>, extents: Index, li: int, d: nat)
    requires IsGridPart(poles, me, extents) && 0 <= li < Stride(extents, |extents|) && d < |poles|
    ensures 1 <= LevelsOf(poles, me, extents, li)[d] <= poles[d].lmax
  {
    IndexBijection(extents, [], li);
    var v := Vector(extents, li, |extents|);
    assert 0 <= v[d] < extents[d];
    LocalLevelInRange(poles[d], me[d], v[d]);
  }

  /** Every local cell is in the subspace of one level only, that of its coordinates, which lies between level 1 and
      the level of the grid. */
  lemma CellIsInOneSubspace(poles: seq<Pole>, me: seq<nat>, extents: Index, l: seq<nat>, li: int)
    requires IsGridPart(poles, me, extents) && |l| == |poles| && 0 <= li < Stride(extents, |extents|)
    ensures InSubspace(poles, me, extents, l, li)
            <==> forall d {:trigger l[d]} :: 0 <= d < |l| ==> l[d] == LevelsOf(poles, me, extents, li)[d]
    ensures forall d :: 0 <= d < |poles| ==> 1 <= LevelsOf(poles, me, extents, li)[d] <= poles[d].lmax
  {
    forall d | 0 <= d < |poles|
      ensures 1 <= LevelsOf(poles, me, extents, li)[d] <= poles[d].lmax
    {
      LevelInBox(poles, me, extents, li, d);
    }
    forall d | 0 <= d < |l|
      ensures LevelsOf(poles, me, extents, li)[d] == LocalLevel(poles[d], me[d], Vector(extents, li, |extents|)[d])
    {
    }
  }

  lemma {:induction false} FlatAscends(blocks: seq<seq<int>>)
    requires forall i :: 0 <= i < |blocks| ==> StrictlyAscending(blocks[i])
    requires forall i, j, x, y :: 0 <= i < j < |blocks| && x in blocks[i] && y in blocks[j] ==> x < y
    ensures StrictlyAscending(Flat(blocks))
    ensures forall x :: x in Flat(blocks) ==> exists i :: 0 <= i < |blocks| && x in blocks[i]
  {
    if blocks != [] {
      var n := |blocks| - 1;
      var front, last := Flat(blocks[..n]), blocks[n];
      FlatAscends(blocks[..n]);
      forall i, j | 0 <= i < j < |front + last|
        ensures (front + last)[i] < (front + last)[j]
      {
        if i < |front| <= j {
          assert front[i] in front && last[j - |front|] in last;
        }
      }
      forall x | x in Flat(blocks)
        ensures exists i :: 0 <= i < |blocks| && x in blocks[i]
      {
        if x in front {
          var i :| 0 <= i < n && x in blocks[..n][i];
          assert x in blocks[i];
        }
      }
    }
  }

  ghost predicate WithinExtents(extents: Index, lists: Lists, d: nat)
    requires d < |lists| == |extents|
  {
    forall e :: 0 <= e <= d ==> StrictlyAscending(lists[e]) && forall x :: x in lists[e] ==> 0 <= x < extents[e]
  }

  lemma PointInRange(extents: Index, lists: Lists, d: nat, sum: int, p: int)
    requires d < |lists| == |extents| && Positive(extents) && WithinExtents(extents, lists, d)
             && p in PointsOf(extents, lists, d, sum)
    ensures sum <= p < sum + Stride(extents, d + 1)
  {
    var points := PointsOf(extents, lists, d, sum);
    SameLength(extents, lists, d, sum);
    var j :| 0 <= j < |points| && points[j] == p;
    PointIsChoice(extents, lists, d, sum, j);
    PickedInRange(extents, lists, d, Choices(lists, d)[j], d + 1);
  }

  lemma {:induction false} PickedInRange(extents: Index, lists: Lists, d: nat, c: seq<nat>, k: nat)
    requires d < |lists| == |extents| && Positive(extents) && WithinExtents(extents, lists, d) && IsChoice(lists, c, d)
             && k <= d + 1
    ensures 0 <= Linear(extents, Picked(lists, c), k) < Stride(extents, k)
  {
    if k > 0 {
      PickedInRange(extents, lists, d, c, k - 1);
      assert lists[k - 1][c[k - 1]] in lists[k - 1];
      TwoDigits(Stride(extents, k - 1), extents[k - 1], Picked(lists, c)[k - 1],
                Linear(extents, Picked(lists, c), k - 1));
    }
  }

  /** The list is ascending, so no cell is listed twice. */
  lemma {:induction false} PointsAscend(extents: Index, lists: Lists, d: nat, sum: int)
    requires d < |lists| == |extents| && Positive(extents) && WithinExtents(extents, lists, d)
    ensures StrictlyAscending(PointsOf(extents, lists, d, sum))
  {
    StridePositive(extents, d);
    var s := Stride(extents, d);
    if d == 0 {
      assert s == 1;
    } else {
      var blocks := PointBlocks(extents, lists, d, sum);
      forall i | 0 <= i < |blocks|
        ensures StrictlyAscending(blocks[i])
      {
        PointsAscend(extents, lists, d - 1, sum + s * lists[d][i]);
      }
      forall i, j, x, y | 0 <= i < j < |blocks| && x in blocks[i] && y in blocks[j]
        ensures x < y
      {
        PointInRange(extents, lists, d - 1, sum + s * lists[d][i], x);
        PointInRange(extents, lists, d - 1, sum + s * lists[d][j], y);
        MulOrder(s, lists[d][i], lists[d][j]);
      }
      FlatAscends(blocks);
    }
  }
}
