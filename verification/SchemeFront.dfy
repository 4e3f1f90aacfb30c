/** The grids with coefficient one are enough to recover the whole down set of a scheme. */
module SchemeFront {
  import opened FiniteSums
  import opened LevelSets
  import opened DownSets
  import opened CombiScheme
  import opened ClassicalScheme

  /** No other level of the list lies above m. */
  ghost predicate IsMaximal(list: seq<Level>, m: Level) {
    m in list && forall l :: l in list && Leq(m, l) ==> l == m
  }

  /** A maximal level has coefficient one: it is its only neighbour. */
  lemma MaximalHasOne(list: seq<Level>, m: Level)
    requires IsMaximal(list, m)
    ensures Coefficient(Elements(list), One(), m) == 1.0
  {
    var s := Elements(list);
    var terms := NeighbourTerm(m);
    CoefficientIsSum(s, m);
    forall l | l in s && l != m
      ensures terms(l) == 0.0
    {
      if Adjacent(m, l) {
        assert Leq(m, l);
      }
    }
    SumSingle(s, terms, m);
    assert Adjacent(m, m);
  }

  /** Above every level of a list there is a maximal one. */
  lemma {:induction false} MaximalAbove(list: seq<Level>, l: Level, bound: int) returns (m: Level)
    requires l in list && forall k :: k in list ==> LevelSum(k) <= bound
    ensures IsMaximal(list, m) && Leq(l, m)
    decreases bound - LevelSum(l)
  {
    if k :| k in list && Leq(l, k) && k != l {
      LargerSum(l, k);
      m := MaximalAbove(list, k, bound);
    } else {
      m := l;
    }
  }

  /** A level whose coefficient is not zero is kept, with its coefficient. */
  lemma {:induction false} KeptAt(all: set<Level>, list: seq<Level>, m: Level) returns (i: nat)
    requires m in list && Coefficient(all, One(), m) != 0.0
    ensures |KeptSpaces(all, list)| == |KeptCoefficients(all, list)|
    ensures i < |KeptSpaces(all, list)| && KeptSpaces(all, list)[i] == m
            && KeptCoefficients(all, list)[i] == Coefficient(all, One(), m)
  {
    var front, last := list[..|list| - 1], list[|list| - 1];
    assert list == front + [last];
    KeptCount(all, list, []);
    KeptCount(all, front, []);
    if m in front {
      i := KeptAt(all, front, m);
    } else {
      i := |KeptSpaces(all, front)|;
    }
  }

  lemma {:induction false} SumBound(list: seq<Level>) returns (bound: int)
    ensures forall k :: k in list ==> LevelSum(k) <= bound
  {
    if list == [] {
      bound := 0;
    } else {
      var front, last := list[..|list| - 1], list[|list| - 1];
      var b := SumBound(front);
      assert list == front + [last];
      bound := if b < LevelSum(last) then LevelSum(last) else b;
    }
  }

  /** The kept grids with coefficient one contain every subspace that some level of the list contains. */
  lemma FrontCoversScheme(list: seq<Level>, k: Level)
    ensures |KeptSpaces(Elements(list), list)| == |KeptCoefficients(Elements(list), list)|
    ensures InFront(KeptSpaces(Elements(list), list), KeptCoefficients(Elements(list), list),
                    |KeptSpaces(Elements(list), list)|, k)
            <==> exists l :: l in list && InDownSet(l, k)
  {
    var all := Elements(list);
    KeptCount(all, list, []);
    if l :| l in list && InDownSet(l, k) {
      var bound := SumBound(list);
      var m := MaximalAbove(list, l, bound);
      MaximalHasOne(list, m);
      var i := KeptAt(all, list, m);
      assert InDownSet(m, k);
    }
    forall i | 0 <= i < |KeptSpaces(all, list)|
      ensures KeptSpaces(all, list)[i] in list
    {
      KeptComeFromList(all, list, i);
    }
  }

  lemma {:induction false} ExtraSpacesAre(lmin: Level, effDim: nat, n: int, levels: seq<Level>, l: Level)
    ensures l in ExtraSpaces(lmin, effDim, n, levels) <==>
            l in levels && Leq(lmin, l) && n - effDim - 2 < LevelSum(l) <= n - effDim
  {
    if levels != [] {
      ExtraSpacesAre(lmin, effDim, n, levels[..|levels| - 1], l);
      assert levels == levels[..|levels| - 1] + [levels[|levels| - 1]];
    }
  }

  lemma {:induction false} OnDiagonalsAre(lmin: Level, dim: nat, n: int, levels: seq<Level>, l: Level)
    ensures l in OnDiagonals(lmin, dim, n, levels) <==> l in levels && Leq(lmin, l) && n - dim < LevelSum(l) <= n
  {
    if levels != [] {
      OnDiagonalsAre(lmin, dim, n, levels[..|levels| - 1], l);
      assert levels == levels[..|levels| - 1] + [levels[|levels| - 1]];
    }
  }

  /** The extra grids of the classical scheme are new, and together with the others they are the levels of
      dim + 2 diagonals. */
  lemma ExtraGridsAreNew(lmin: Level, dim: nat, n: int, levels: seq<Level>, l: Level)
    ensures l in ExtraSpaces(lmin, dim, n, levels) ==> l !in OnDiagonals(lmin, dim, n, levels)
    ensures l in OnDiagonals(lmin, dim, n, levels) + ExtraSpaces(lmin, dim, n, levels)
            <==> l in OnDiagonals(lmin, dim + 2, n, levels)
  {
    ExtraSpacesAre(lmin, dim, n, levels, l);
    OnDiagonalsAre(lmin, dim, n, levels, l);
    OnDiagonalsAre(lmin, dim + 2, n, levels, l);
  }
}
