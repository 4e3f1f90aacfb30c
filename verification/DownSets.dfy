/** Down sets of levels, and the down set of the grids with coefficient one. */
module DownSets {
  import opened LevelSets
  import opened LevelGeneration
  import opened LevelDictionary

  /** k is one of the levels 1 to l in every dimension. */
  predicate InDownSet(l: Level, k: Level) {
    |k| == |l| && forall i :: 0 <= i < |l| ==> 1 <= k[i] <= l[i]
  }

  ghost predicate EnumeratesDownSet(list: seq<Level>, l: Level, fixed: Level, bound: int)
    requires |fixed| < |l|
  {
    Sorted(list) && forall k :: k in list <==> InDownSet(l, k) && fixed <= k && k[|fixed|] < bound
  }

  lemma NextInDownSet(list: seq<Level>, more: seq<Level>, l: Level, fixed: Level, i: int)
    requires |fixed| < |l| && EnumeratesDownSet(list, l, fixed, i)
    requires Sorted(more) && forall k :: k in more <==> InDownSet(l, k) && fixed + [i] <= k
    ensures EnumeratesDownSet(list + more, l, fixed, i + 1)
  {
    forall k | |k| == |l|
      ensures fixed + [i] <= k <==> fixed <= k && k[|fixed|] == i
    {
    }
    SortedJoin(list, more, |fixed|, i);
  }

  /** The levels of the down set that start with the fixed dimensions, in order. */
  method GetDownSetRecursively(l: Level, fixedDimensions: Level) returns (downSet: seq<Level>)
    requires |fixedDimensions| <= |l| && forall i :: 0 <= i < |fixedDimensions| ==> 1 <= fixedDimensions[i] <= l[i]
    ensures Sorted(downSet) && forall k :: k in downSet <==> InDownSet(l, k) && fixedDimensions <= k
    decreases |l| - |fixedDimensions|
  {
    if |fixedDimensions| == |l| {
      downSet := [fixedDimensions];
      forall k | InDownSet(l, k) && fixedDimensions <= k
        ensures k == fixedDimensions
      {
      }
    } else {
      var d := |fixedDimensions|;
      downSet := [];
      var i := 1;
      while i <= l[d]
        invariant 1 <= i && (i <= l[d] + 1 || i == 1)
        invariant EnumeratesDownSet(downSet, l, fixedDimensions, i)
      {
        var more := GetDownSetRecursively(l, fixedDimensions + [i]);
        NextInDownSet(downSet, more, l, fixedDimensions, i);
        downSet := downSet + more;
        i := i + 1;
      }
    }
  }

  method GetDownSet(l: Level) returns (downSet: seq<Level>)
    ensures Sorted(downSet) && forall k :: k in downSet <==> InDownSet(l, k)
  {
    downSet := GetDownSetRecursively(l, []);
  }

  /** A grid with coefficient one among the first n grids contains subspace k. */
  ghost predicate InFront(spaces: seq<Level>, coefficients: seq<real>, n: nat, k: Level)
    requires |spaces| == |coefficients|
  {
    exists i :: 0 <= i < n && i < |spaces| && coefficients[i] == 1.0 && InDownSet(spaces[i], k)
  }

  lemma KeysOfInsert(d: Dict, dim: nat, l: Level, k: Level)
    requires IsDict(d, dim) && |l| == dim
    ensures k in Keys(Insert(d, l, 0.0)) <==> k in Keys(d) || k == l
  {
    var e := Insert(d, l, 0.0);
    if k in Keys(e) {
      var i :| 0 <= i < |e| && Keys(e)[i] == k;
      InsertMembers(d, dim, l, 0.0, e[i]);
      if e[i] in d {
        var j :| 0 <= j < |d| && d[j] == e[i];
        assert Keys(d)[j] == k;
      }
    }
    if k in Keys(d) {
      var i :| 0 <= i < |d| && Keys(d)[i] == k;
      InsertMembers(d, dim, l, 0.0, d[i]);
      KeyOfEntry(e, d[i]);
    } else if k == l {
      InsertMembers(d, dim, l, 0.0, Entry(l, 0.0));
      KeyOfEntry(e, Entry(l, 0.0));
    }
  }

  lemma KeyOfEntry(d: Dict, e: Entry)
    requires e in d
    ensures e.key in Keys(d)
  {
    var i :| 0 <= i < |d| && d[i] == e;
    assert Keys(d)[i] == e.key;
  }

  /** Inserts a list of levels into an ordered set, which is kept as the keys of a dictionary. */
  method InsertAll(subspaces: Dict, dim: nat, list: seq<Level>) returns (all: Dict)
    requires IsDict(subspaces, dim) && forall l :: l in list ==> |l| == dim
    ensures IsDict(all, dim) && forall k :: k in Keys(all) <==> k in Keys(subspaces) || k in list
  {
    all := subspaces;
    for j := 0 to |list|
      invariant IsDict(all, dim) && forall k :: k in Keys(all) <==> k in Keys(subspaces) || k in list[..j]
    {
      ghost var before := all;
      InsertInOrder(all, dim, list[j], 0.0);
      all := Insert(all, list[j], 0.0);
      forall k
        ensures k in Keys(all) <==> k in Keys(subspaces) || k in list[..j + 1]
      {
        KeysOfInsert(before, dim, list[j], k);
        assert list[..j + 1] == list[..j] + [list[j]];
      }
    }
    assert list[..|list|] == list;
  }

  /** The union of the down sets of the grids with coefficient one, in order. */
  method DownSetOfFront(spaces: seq<Level>, coefficients: seq<real>, dim: nat) returns (levels: seq<Level>)
    requires |spaces| == |coefficients| && forall l :: l in spaces ==> |l| == dim
    ensures Sorted(levels) && forall k :: k in levels <==> InFront(spaces, coefficients, |spaces|, k)
  {
    var subspaces: Dict := [];
    for i := 0 to |spaces|
      invariant IsDict(subspaces, dim) && forall k :: k in Keys(subspaces) <==> InFront(spaces, coefficients, i, k)
    {
      ghost var before := subspaces;
      if coefficients[i] == 1.0 {
        var thisGridsDownSet := GetDownSet(spaces[i]);
        subspaces := InsertAll(subspaces, dim, thisGridsDownSet);
      }
      forall k
        ensures k in Keys(subspaces) <==> InFront(spaces, coefficients, i + 1, k)
      {
        NextOfFront(spaces, coefficients, i, k);
      }
    }
    levels := Keys(subspaces);
  }

  lemma NextOfFront(spaces: seq<Level>, coefficients: seq<real>, i: nat, k: Level)
    requires |spaces| == |coefficients| && i < |spaces|
    ensures InFront(spaces, coefficients, i + 1, k) <==>
            InFront(spaces, coefficients, i, k) || (coefficients[i] == 1.0 && InDownSet(spaces[i], k))
  {
  }
}
