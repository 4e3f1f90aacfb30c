/** The levels of a truncated sparse grid, in lexicographic order. */
module LevelGeneration {
  import opened LevelSets

  /** A selection of dimensions. */
  type Mask = seq<bool>

  function Ones(mask: Mask): nat {
    if mask == [] then 0 else Ones(mask[1..]) + if mask[0] then 1 else 0
  }

  function Prepend(b: bool, masks: seq<Mask>): (r: seq<Mask>)
    ensures |r| == |masks| && forall i :: 0 <= i < |r| ==> r[i] == [b] + masks[i]
  {
    seq(|masks|, i requires 0 <= i < |masks| => [b] + masks[i])
  }

  /** All selections of k out of d dimensions, those with the first dimension first. */
  function AllKOutOfDDimensions(k: int, d: nat): seq<Mask>
    decreases d
  {
    if d == 0 then (if k == 0 then [[]] else [])
    else Prepend(true, AllKOutOfDDimensions(k - 1, d - 1)) + Prepend(false, AllKOutOfDDimensions(k, d - 1))
  }

  lemma {:induction false} SelectionsAreAll(k: int, d: nat, mask: Mask)
    ensures mask in AllKOutOfDDimensions(k, d) <==> |mask| == d && Ones(mask) == k
    decreases d
  {
    if d > 0 {
      var taken, left := AllKOutOfDDimensions(k - 1, d - 1), AllKOutOfDDimensions(k, d - 1);
      if mask != [] {
        assert mask == [mask[0]] + mask[1..];
        SelectionsAreAll(k - 1, d - 1, mask[1..]);
        SelectionsAreAll(k, d - 1, mask[1..]);
        InPrepended(true, taken, mask);
        InPrepended(false, left, mask);
      }
    }
  }

  lemma InPrepended(b: bool, masks: seq<Mask>, mask: Mask)
    requires mask != []
    ensures mask in Prepend(b, masks) <==> mask[0] == b && mask[1..] in masks
  {
    if mask[0] == b && mask[1..] in masks {
      var i :| 0 <= i < |masks| && masks[i] == mask[1..];
      assert Prepend(b, masks)[i] == mask;
    }
    if mask in Prepend(b, masks) {
      var i :| 0 <= i < |masks| && Prepend(b, masks)[i] == mask;
      assert masks[i] == mask[1..];
    }
  }

  /** Sum over the selected dimensions. */
  function PartSum(l: Level, mask: Mask): int
    requires |l| == |mask|
  {
    if l == [] then 0
    else
      var n := |l| - 1;
      PartSum(l[..n], mask[..n]) + if mask[n] then l[n] else 0
  }

  ghost predicate BelowHyperplane(l: Level, lmin: Level, n: int, mask: Mask) {
    |l| == |lmin| == |mask| && PartSum(l, mask) <= PartSum(lmin, mask) + n
  }

  /** No sum over two or more dimensions exceeds that of lmin by more than n. */
  ghost predicate BelowAllHyperplanes(l: Level, lmin: Level, n: int) {
    forall mask: Mask {:trigger BelowHyperplane(l, lmin, n, mask)} :: |mask| == |lmin| && Ones(mask) >= 2 ==>
      BelowHyperplane(l, lmin, n, mask)
  }

  /** The levels of the truncated sparse grid. */
  ghost predicate IsLevel(l: Level, lmax: Level, lmin: Level, n: int) {
    |l| == |lmax| == |lmin| && (forall i :: 0 <= i < |l| ==> 1 <= l[i] <= lmax[i]) && BelowAllHyperplanes(l, lmin, n)
  }

  predicate FirstDifference(a: Level, b: Level, i: nat) {
    i < |a| == |b| && a[i] < b[i] && forall j :: 0 <= j < i ==> a[j] == b[j]
  }

  /** Lexicographic order of levels of the same dimension. */
  predicate LexLess(a: Level, b: Level) {
    exists i :: 0 <= i < |a| && FirstDifference(a, b, i)
  }

  ghost predicate Sorted(list: seq<Level>) {
    forall i, j :: 0 <= i < j < |list| ==> LexLess(list[i], list[j])
  }

  /** list enumerates, in order, the levels that start with l and have an entry below bound next. */
  ghost predicate Enumerates(list: seq<Level>, l: Level, bound: int, lmax: Level, lmin: Level, n: int)
    requires |l| < |lmax|
  {
    && Sorted(list)
    && forall v :: v in list <==> IsLevel(v, lmax, lmin, n) && l <= v && v[|l|] < bound
  }

  method IsBelowAllHyperplanes(l: Level, lmin: Level, n: int) returns (pleaseAdd: bool)
    requires |l| == |lmin|
    ensures pleaseAdd <==> BelowAllHyperplanes(l, lmin, n)
  {
    var dimensionality := |lmin|;
    pleaseAdd := true;
    var k := 2;
    while k <= dimensionality
      invariant 2 <= k && (k <= dimensionality + 1 || k == 2)
      invariant pleaseAdd ==>
                forall mask: Mask {:trigger BelowHyperplane(l, lmin, n, mask)} ::
                  |mask| == dimensionality && 2 <= Ones(mask) < k ==> BelowHyperplane(l, lmin, n, mask)
      invariant !pleaseAdd ==> !BelowAllHyperplanes(l, lmin, n)
    {
      var dimList := AllKOutOfDDimensions(k, dimensionality);
      var below := BelowEach(l, lmin, n, k, dimList);
      ListedAreSelected(l, lmin, n, k);
      if !below {
        pleaseAdd := false;
      }
      k := k + 1;
    }
    forall mask: Mask | |mask| == dimensionality
      ensures Ones(mask) <= dimensionality
    {
      OnesBound(mask);
    }
  }

  lemma {:induction false} OnesBound(mask: Mask)
    ensures Ones(mask) <= |mask|
  {
    if mask != [] {
      OnesBound(mask[1..]);
    }
  }

  ghost predicate BelowListed(l: Level, lmin: Level, n: int, masks: seq<Mask>) {
    forall j {:trigger masks[j]} :: 0 <= j < |masks| ==> BelowHyperplane(l, lmin, n, masks[j])
  }

  lemma ListedAreSelected(l: Level, lmin: Level, n: int, k: int)
    ensures BelowListed(l, lmin, n, AllKOutOfDDimensions(k, |lmin|)) <==>
            (forall mask: Mask {:trigger BelowHyperplane(l, lmin, n, mask)} :: |mask| == |lmin| && Ones(mask) == k ==>
               BelowHyperplane(l, lmin, n, mask))
  {
    var dimList := AllKOutOfDDimensions(k, |lmin|);
    forall mask: Mask
      ensures mask in dimList <==> |mask| == |lmin| && Ones(mask) == k
    {
      SelectionsAreAll(k, |lmin|, mask);
    }
    forall j | 0 <= j < |dimList|
      ensures dimList[j] in dimList
    {
    }
  }

  method BelowEach(l: Level, lmin: Level, n: int, k: int, dimList: seq<Mask>) returns (below: bool)
    requires |l| == |lmin| && dimList == AllKOutOfDDimensions(k, |lmin|)
    ensures below <==> BelowListed(l, lmin, n, dimList)
  {
    for i := 0 to |dimList|
      invariant forall j {:trigger dimList[j]} :: 0 <= j < i ==> BelowHyperplane(l, lmin, n, dimList[j])
    {
      SelectionsAreAll(k, |lmin|, dimList[i]);
      var partlsum, partlminsum := PartSum(l, dimList[i]), PartSum(lmin, dimList[i]);
      if partlsum > partlminsum + n {
        assert !BelowHyperplane(l, lmin, n, dimList[i]);
        return false;
      }
    }
    return true;
  }

  /** A level that is below all hyperplanes leaves room for its own entry in the loop. */
  lemma EntryWithinLoop(v: Level, lmax: Level, lmin: Level, n: int, dim: nat)
    requires IsLevel(v, lmax, lmin, n) && dim < |lmax| && lmax[dim] == lmin[dim] + n
    ensures v[dim] <= LevelSum(lmin) + n - LevelSum(v[..dim])
  {
    var d := |lmin|;
    if d == 1 {
      assert lmin == lmin[..0] + [lmin[0]];
    } else {
      var all := seq(d, i => true);
      AllOnes(d);
      assert BelowHyperplane(v, lmin, n, all);
      FullPartSum(v, all);
      FullPartSum(lmin, all);
      PrefixSum(v, dim + 1);
      assert v[..dim + 1][..dim] == v[..dim];
    }
  }

  lemma {:induction false} AllOnes(d: nat)
    ensures Ones(seq(d, i => true)) == d
  {
    if d > 0 {
      AllOnes(d - 1);
      assert seq(d, i => true)[1..] == seq(d - 1, i => true);
    }
  }

  lemma {:induction false} FullPartSum(l: Level, mask: Mask)
    requires |l| == |mask| && forall i :: 0 <= i < |mask| ==> mask[i]
    ensures PartSum(l, mask) == LevelSum(l)
  {
    if l != [] {
      FullPartSum(l[..|l| - 1], mask[..|l| - 1]);
    }
  }

  lemma {:induction false} PrefixSum(v: Level, k: nat)
    requires k <= |v| && forall i :: 0 <= i < |v| ==> v[i] >= 0
    ensures LevelSum(v[..k]) <= LevelSum(v)
  {
    if k < |v| {
      PrefixSum(v[..|v| - 1], k);
      assert v[..|v| - 1][..k] == v[..k];
    } else {
      assert v[..k] == v;
    }
  }

  lemma SortedJoin(a: seq<Level>, b: seq<Level>, dim: nat, bound: int)
    requires Sorted(a) && Sorted(b)
    requires forall v :: v in a ==> dim < |v| && v[dim] < bound
    requires forall v :: v in b ==> dim < |v| && v[dim] == bound
    requires forall v, w :: v in a && w in b ==> |v| == |w| && v[..dim] == w[..dim]
    ensures Sorted(a + b)
  {
    forall i, j | 0 <= i < j < |a| + |b|
      ensures LexLess((a + b)[i], (a + b)[j])
    {
      if i < |a| <= j {
        var v, w := a[i], b[j - |a|];
        assert v in a && w in b;
        forall k | 0 <= k < dim
          ensures v[k] == w[k]
        {
          assert v[..dim][k] == w[..dim][k];
        }
        assert FirstDifference(v, w, dim);
      }
    }
  }

  lemma NextEntry(created: seq<Level>, added: seq<Level>, l: Level, ldim: int, lmax: Level, lmin: Level, n: int)
    requires |l| < |lmax| && Enumerates(created, l, ldim, lmax, lmin, n) && Sorted(added)
    requires forall v :: v in added <==> IsLevel(v, lmax, lmin, n) && l + [ldim] <= v
    ensures Enumerates(created + added, l, ldim + 1, lmax, lmin, n)
  {
    var dim := |l|;
    forall v | |v| == |lmax|
      ensures l + [ldim] <= v <==> l <= v && v[dim] == ldim
    {
    }
    SortedJoin(created, added, dim, ldim);
  }

  /** The levels that start with l and the entry ldim. */
  method LevelsWithEntry(n: int, l: Level, ldim: int, lmax: Level, lmin: Level) returns (added: seq<Level>)
    requires |l| < |lmax| == |lmin| && (forall i :: 0 <= i < |l| ==> 1 <= l[i] <= lmax[i]) && ldim >= 1
    requires forall i :: 0 <= i < |lmax| ==> lmax[i] == lmin[i] + n
    ensures Sorted(added) && forall v :: v in added <==> IsLevel(v, lmax, lmin, n) && l + [ldim] <= v
    decreases |lmax| - |l|, 0
  {
    var dim := |l|;
    added := [];
    // smallereq than lmax in every dim
    if ldim > lmax[dim] {
      forall v | l + [ldim] <= v && |v| == |lmax|
        ensures v[dim] == ldim
      {
      }
    } else if dim == |lmax| - 1 {
      var pleaseAdd := IsBelowAllHyperplanes(l + [ldim], lmin, n);
      if pleaseAdd {
        added := [l + [ldim]];
      }
      forall v | |v| == |lmax|
        ensures l + [ldim] <= v <==> v == l + [ldim]
      {
      }
    } else {
      added := CreateTruncatedHierarchicalLevelsRec(n, l + [ldim], lmax, lmin);
    }
  }

  /** The levels that start with l, in order. */
  method CreateTruncatedHierarchicalLevelsRec(n: int, l: Level, lmax: Level, lmin: Level) returns (created: seq<Level>)
    requires |l| < |lmax| == |lmin| && (forall i :: 0 <= i < |l| ==> 1 <= l[i] <= lmax[i])
    requires forall i :: 0 <= i < |lmax| ==> lmax[i] == lmin[i] + n
    ensures Sorted(created) && forall v :: v in created <==> IsLevel(v, lmax, lmin, n) && l <= v
    decreases |lmax| - |l|, 1
  {
    var dim := |l|;
    created := [];
    var ldim := 1;
    while ldim <= LevelSum(lmin) + n - LevelSum(l)
      invariant 1 <= ldim && Enumerates(created, l, ldim, lmax, lmin, n)
      invariant ldim == 1 || ldim <= LevelSum(lmin) + n - LevelSum(l) + 1
    {
      var added := LevelsWithEntry(n, l, ldim, lmax, lmin);
      NextEntry(created, added, l, ldim, lmax, lmin, n);
      created := created + added;
      ldim := ldim + 1;
    }
    forall v | IsLevel(v, lmax, lmin, n) && l <= v
      ensures v[dim] < ldim
    {
      EntryWithinLoop(v, lmax, lmin, n, dim);
      assert v[..dim] == l;
    }
  }

  function Minus(a: Level, b: Level): Level
    requires |a| == |b|
  {
    seq(|a|, i requires 0 <= i < |a| => a[i] - b[i])
  }

  /** Every entry of lmax reduced by n. */
  function Lowered(lmax: Level, n: int): Level {
    seq(|lmax|, i requires 0 <= i < |lmax| => lmax[i] - n)
  }

  predicate IsMinimum(l: Level, n: int) {
    n in l && forall i :: 0 <= i < |l| ==> n <= l[i]
  }

  method MinElement(l: Level) returns (n: int)
    requires l != []
    ensures IsMinimum(l, n)
  {
    n := l[0];
    for i := 1 to |l|
      invariant n in l && forall j :: 0 <= j < i ==> n <= l[j]
    {
      if l[i] < n {
        n := l[i];
      }
    }
  }

  /** The levels of the truncated sparse grid whose corners are n below lmax. */
  ghost predicate ListsLevels(list: seq<Level>, lmax: Level, n: int) {
    Sorted(list) && forall v :: v in list <==> IsLevel(v, lmax, Lowered(lmax, n), n)
  }

  /** All levels of the truncated sparse grid, every one once and smaller levels first. */
  method CreateTruncatedHierarchicalLevels(lmax: Level, lmin: Level) returns (created: seq<Level>, n: int)
    requires lmax != [] && Leq(lmin, lmax)
    ensures IsMinimum(Minus(lmax, lmin), n)
    ensures ListsLevels(created, lmax, n)
  {
    n := MinElement(Minus(lmax, lmin));
    created := CreateTruncatedHierarchicalLevelsRec(n, [], lmax, Lowered(lmax, n));
  }
}
