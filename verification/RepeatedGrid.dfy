/** A scheme in which a recovery leaves traces, and one that recovery cannot deal with. */
module RepeatedGrid {
  import opened FiniteSums
  import opened LevelSets
  import opened LevelGeneration
  import opened LevelDictionary
  import opened CombiScheme
  import opened ClassicalCoefficients
  import opened ClassicalScheme
  import opened AdaptiveScheme
  import opened FaultDownset
  import opened FaultRecovery
  import opened MaximalSolutions
  import opened LpOptimization
  import opened RecoveredScheme
  import opened SchemeParameters
  import opened SchemeRecovery
  import opened RestoredScheme
  import opened RecoveryCycle

  function ThreeGrids(): (grids: seq<Level>)
    ensures |grids| == 3
  {
    [[1, 1], [1, 2], [2, 1]]
  }

  lemma InputThreeTwo()
    ensures IsInput([1, 1], [3, 2], 4) && Shift([1, 1], [3, 2], 4) == 1 && EffectiveDim([1, 1], [3, 2]) == 2
    ensures DiagonalsMeet([1, 1], [3, 2], 4)
  {
    SumOfTwo(1, 1);
    SumOfTwo(0, 1);
    assert Minus([3, 2], [1, 1]) == [2, 1] && Minus([3, 2], [1, 1])[0] == 2;
    assert Lag([1, 1], [3, 2], 2) == [0, 1];
    TwoDifferences([1, 1], [3, 2]);
  }

  lemma TwoDifferences(lmin: Level, lmax: Level)
    requires |lmin| == |lmax| == 2 && lmin[0] != lmax[0] && lmin[1] != lmax[1]
    ensures EffectiveDim(lmin, lmax) == 2
  {
    assert lmin[..1][..0] == [] && lmax[..1][..0] == [];
    assert EffectiveDim(lmin[..1], lmax[..1]) == 1;
  }

  lemma PairSum(l: Level)
    requires |l| == 2
    ensures LevelSum(l) == l[0] + l[1]
  {
    SumOfTwo(l[0], l[1]);
    assert l == [l[0], l[1]];
  }

  lemma ThreeAreSorted(lmin: Level, lmax: Level, levels: seq<Level>)
    requires ListsLevels(levels, lmax, 2)
    ensures Sorted(KeptGrids(lmin, 4, levels)) && Sorted(ExtraSpaces(lmin, 2, 4, levels))
    ensures Sorted(ThreeGrids()) && Sorted([[1, 1]])
  {
    hide LexLess, ExtraSpaces, Selected, KeptSpaces;
    SelectedIsSubsequence(lmin, 4, levels);
    KeptAreSorted(Elements(Selected(lmin, 4, levels)), Selected(lmin, 4, levels));
    ExtraAreSorted(lmin, 2, 4, levels);
    ThreeGridsAreSorted();
  }

  lemma ThreeGridsAreKept(levels: seq<Level>)
    requires ListsLevels(levels, [3, 2], 2)
    ensures KeptGrids([1, 1], 4, levels) == ThreeGrids() && ExtraGrids([1, 1], [3, 2], 4, levels) == [[1, 1]]
    ensures AllGrids([1, 1], [3, 2], 4, levels) == ThreeGrids() + [[1, 1]]
  {
    hide KeptGrids, ExtraSpaces, ThreeGrids, IsInput, ListsLevels, Shift, EffectiveDim, LexLess;
    var lmin, lmax := [1, 1], [3, 2];
    InputThreeTwo();
    SumOfTwo(1, 1);
    ThreeAreSorted(lmin, lmax, levels);
    forall l
      ensures l in KeptGrids(lmin, 4, levels) <==> l in ThreeGrids()
      ensures l in ExtraSpaces(lmin, 2, 4, levels) <==> l in [[1, 1]]
    {
      KeptGridsAre(lmin, lmax, 4, levels, l);
      ExtraGridsAre(lmin, lmax, 4, levels, l);
      LowPairs(l);
    }
    SortedAreEqual(KeptGrids(lmin, 4, levels), ThreeGrids());
    SortedAreEqual(ExtraSpaces(lmin, 2, 4, levels), [[1, 1]]);
  }

  lemma LowPairs(l: Level)
    ensures l in ThreeGrids() <==> Leq([1, 1], l) && LevelSum(l) <= 3
    ensures l in [[1, 1]] <==> Leq([1, 1], l) && LevelSum(l) <= 2
  {
    if |l| == 2 {
      PairSum(l);
      assert l == [l[0], l[1]];
      if Leq([1, 1], l) && LevelSum(l) <= 3 {
        assert l == ThreeGrids()[if l[0] == 2 then 2 else l[1] - 1];
      }
    }
  }

  lemma ThreeGridsAreSorted()
    ensures Sorted(ThreeGrids())
  {
    assert FirstDifference([1, 1], [1, 2], 1) && FirstDifference([1, 1], [2, 1], 0)
           && FirstDifference([1, 2], [2, 1], 0);
  }

  ghost function ThreeKept(levels: seq<Level>): seq<real> {
    KeptCoefficients(Elements(Selected([1, 1], 4, levels)), Selected([1, 1], 4, levels))
  }

  lemma KeptOfThree(levels: seq<Level>, i: nat)
    requires ListsLevels(levels, [3, 2], 2) && i < 3
    ensures |ThreeKept(levels)| == 3 && ThreeKept(levels)[i] == ClassicalCoefficient(2, 3 - LevelSum(ThreeGrids()[i]))
  {
    hide IsInput, ListsLevels, Coefficient, ClassicalCoefficient, IsSimplex, Selected, KeptCoefficients, KeptSpaces,
      ThreeGrids, Shift;
    var list := Selected([1, 1], 4, levels);
    InputThreeTwo();
    SumOfTwo(1, 1);
    ThreeGridsAreKept(levels);
    SelectedIsSimplex([1, 1], [3, 2], 4, levels);
    assert KeptGrids([1, 1], 4, levels)[i] == ThreeGrids()[i];
    KeptComeFromList(Elements(list), list, i);
    CoefficientOnSimplex(Elements(list), [1, 1], 3, ThreeGrids()[i]);
  }

  lemma OneAndMinusOne()
    ensures ClassicalCoefficient(2, 0) == 1.0 && ClassicalCoefficient(2, 1) == -1.0
  {
    assert Binomial(1, 0) == 1 && Binomial(1, 1) == 1;
  }

  lemma ExtraIsOne(levels: seq<Level>)
    requires ListsLevels(levels, [3, 2], 2)
    ensures AllCoefficients([1, 1], [3, 2], 4, levels) == ThreeKept(levels) + [0.0]
  {
    hide ListsLevels, KeptGrids, KeptCoefficients;
    ThreeGridsAreKept(levels);
    assert |ExtraGrids([1, 1], [3, 2], 4, levels)| == 1;
  }

  lemma ThreeCoefficients(levels: seq<Level>)
    requires ListsLevels(levels, [3, 2], 2)
    ensures AllCoefficients([1, 1], [3, 2], 4, levels) == [-1.0, 1.0, 1.0, 0.0]
  {
    hide ListsLevels, ClassicalCoefficient, ThreeKept, AllGrids;
    OneAndMinusOne();
    KeptOfThree(levels, 0);
    forall i: nat | i < 3
      ensures ThreeKept(levels)[i] == if i == 0 then -1.0 else 1.0
    {
      KeptOfThree(levels, i);
      PairSum(ThreeGrids()[i]);
    }
    ExtraIsOne(levels);
  }

  lemma SelectedAreThree(levels: seq<Level>)
    requires ListsLevels(levels, [3, 2], 2)
    ensures Selected([1, 1], 4, levels) == ThreeGrids() && Distinct(ThreeGrids())
  {
    hide Sorted, Shift, ThreeGrids, IsMaximum;
    InputThreeTwo();
    SumOfTwo(1, 1);
    SelectedIsSubsequence([1, 1], 4, levels);
    SelectedIsSimplex([1, 1], [3, 2], 4, levels);
    ThreeGridsAreSorted();
    SortedIsDistinct(ThreeGrids());
    forall l
      ensures l in Selected([1, 1], 4, levels) <==> l in ThreeGrids()
    {
      LowPairs(l);
      assert l in Elements(Selected([1, 1], 4, levels)) <==> Leq([1, 1], l) && LevelSum(l) <= 3;
    }
    SortedAreEqual(Selected([1, 1], 4, levels), ThreeGrids());
  }

  /** Without grid (1,2) only grid (2,1) is left of the finest diagonal. */
  lemma ThreeWithoutOne()
    ensures Others(ThreeGrids(), [[1, 2]]) == [1.0, 0.0, 1.0]
    ensures RowOf(ThreeGrids(), [1, 1]) == [1.0, -1.0, -1.0]
    ensures RowOf(ThreeGrids(), [1, 2]) == [0.0, 1.0, 0.0] && RowOf(ThreeGrids(), [2, 1]) == [0.0, 0.0, 1.0]
  {
    forall j: nat | j < 3
      ensures LevelSum(ThreeGrids()[j]) == if j == 0 then 2 else 3
    {
      PairSum(ThreeGrids()[j]);
    }
    assert ThreeGrids()[0] == [1, 1] && ThreeGrids()[1] == [1, 2] && ThreeGrids()[2] == [2, 1];
    assert !Adjacent([1, 2], [1, 1]) && !Adjacent([1, 2], [2, 1]) && !Adjacent([2, 1], [1, 1])
           && !Adjacent([2, 1], [1, 2]);
  }

  lemma DotOfThree(a: seq<real>, b: seq<real>)
    requires |a| == |b| == 3
    ensures Dot(a, b) == a[0] * b[0] + a[1] * b[1] + a[2] * b[2]
  {
    assert a[..2][..1] == a[..1] && b[..2][..1] == b[..1] && a[..1][..0] == [] && b[..1][..0] == [];
    assert Dot(a[..1], b[..1]) == a[0] * b[0];
    assert Dot(a[..2], b[..2]) == a[0] * b[0] + a[1] * b[1];
  }

  lemma RecoveredAt(i: nat, w: seq<real>)
    requires i < 4 && w == Others(ThreeGrids(), [[1, 2]])
    ensures Dot(RowOf(ThreeGrids(), (ThreeGrids() + [[1, 1]])[i]), w) == if i == 2 then 1.0 else 0.0
  {
    hide Others, RowOf, Dot;
    ThreeWithoutOne();
    var grids: seq<Level> := ThreeGrids() + [[1, 1]];
    assert grids[0] == grids[3] == [1, 1] && grids[1] == [1, 2] && grids[2] == [2, 1];
    DotOfThree(RowOf(ThreeGrids(), grids[i]), w);
  }

  lemma OneOfThreeFails()
    ensures FinestSum([1, 1], [3, 2]) == 4 && MayFail(ThreeGrids(), ThreeGrids() + [[1, 1]], 4, [[1, 2]])
    ensures AreUpward(ThreeGrids(), [[1, 2]]) && forall k :: k in ThreeGrids() ==> LevelSum(k) <= 3
  {
    SumOfTwo(1, 1);
    SumOfTwo(1, 2);
    assert ThreeGrids()[1] == [1, 2] && (ThreeGrids() + [[1, 1]])[1] == [1, 2];
    forall k | k in ThreeGrids()
      ensures LevelSum(k) <= 3 && (Leq([1, 2], k) ==> k == [1, 2])
    {
      PairSum(k);
    }
  }

  /** When grid (1,2) fails, the recovery leaves a coefficient for grid (2,1) only. */
  lemma FaultIsRecovered(levels: seq<Level>)
    requires ListsLevels(levels, [3, 2], 2)
    ensures var grids := AllGrids([1, 1], [3, 2], 4, levels);
            && RecoversFrom([0.0, 0.0, 1.0, 0.0], Selected([1, 1], 4, levels), grids, FinestSum([1, 1], [3, 2]),
                            [[1, 2]], Others(ThreeGrids(), [[1, 2]]))
            && CanLeave([1, 1], [3, 2], 4, levels, [0.0, 0.0, 1.0, 0.0])
  {
    hide ListsLevels, AllGrids, AllCoefficients, Selected, IsGiven, SchemeDictionary, Dot, RowOf, Others, ObjectiveOf,
      EffectiveDim, Shift, AreUpward, MayFail, Distinct, ThreeGrids, IsMaximalSolution, IsMaximum;
    var w := Others(ThreeGrids(), [[1, 2]]);
    InputThreeTwo();
    ThreeGridsAreKept(levels);
    SelectedAreThree(levels);
    DictionaryIsGiven([1, 1], [3, 2], 4, levels);
    OneOfThreeFails();
    OthersAreMaximal(ThreeGrids(), [[1, 2]], ObjectiveOf(ThreeGrids()), 3);
    forall i: nat | i < 4
      ensures Dot(RowOf(ThreeGrids(), AllGrids([1, 1], [3, 2], 4, levels)[i]), w) == [0.0, 0.0, 1.0, 0.0][i]
    {
      RecoveredAt(i, w);
    }
  }

  /** For lmin (1,1) and lmax (3,2) grid (1,1) is there twice.  When grid (1,2) fails, the recovery leaves coefficients
      0, 0, 1, 0, and after the scheme has been restored subspace (1,1) is counted twice. */
  lemma GridIsRepeated(levels: seq<Level>)
    requires ListsLevels(levels, [3, 2], 2)
    ensures IsInput([1, 1], [3, 2], 4) && CanLeave([1, 1], [3, 2], 4, levels, [0.0, 0.0, 1.0, 0.0])
    ensures AllGrids([1, 1], [3, 2], 4, levels) == [[1, 1], [1, 2], [2, 1], [1, 1]]
    ensures AllCoefficients([1, 1], [3, 2], 4, levels) == [-1.0, 1.0, 1.0, 0.0]
    ensures var grids := [[1, 1], [1, 2], [2, 1], [1, 1]];
            TimesCounted(grids, RestoredCoefficients(grids, [0.0, 0.0, 1.0, 0.0], [-1.0, 1.0, 1.0, 0.0]), [1, 1]) == 2.0
  {
    hide RestoredCoefficients, CanLeave, AllGrids, AllCoefficients;
    var grids: seq<Level> := [[1, 1], [1, 2], [2, 1], [1, 1]];
    InputThreeTwo();
    ThreeGridsAreKept(levels);
    ThreeCoefficients(levels);
    FaultIsRecovered(levels);
    RestoredFour();
    TotalIsCount(grids, [0.0, 1.0, 1.0, 0.0], [1, 1]);
    TotalOfFour([0.0, 1.0, 1.0, 0.0]);
  }

  lemma RestoredFour()
    ensures RestoredCoefficients([[1, 1], [1, 2], [2, 1], [1, 1]], [0.0, 0.0, 1.0, 0.0], [-1.0, 1.0, 1.0, 0.0])
            == [0.0, 1.0, 1.0, 0.0]
  {
    var grids: seq<Level> := [[1, 1], [1, 2], [2, 1], [1, 1]];
    assert grids[3] == grids[0] && !IsLast(grids, 0);
    assert IsLast(grids, 1) && IsLast(grids, 2) && IsLast(grids, 3);
  }

  lemma TotalOfFour(c: seq<real>)
    requires |c| == 4
    ensures TotalOf(c) == c[0] + c[1] + c[2] + c[3]
  {
    assert c[..3][..2] == c[..2] && c[..2][..1] == c[..1] && c[..1][..0] == [];
    assert TotalOf(c[..1]) == c[0];
    assert TotalOf(c[..2]) == c[0] + c[1];
    assert TotalOf(c[..3]) == c[0] + c[1] + c[2];
  }

  /** For lmin (1,1) and lmax (2,4) all coefficients of the scheme are overwritten with zero, so that the optimisation
      has no down set, although grids such as (1,2) are looked at when they fail. */
  lemma NothingIsStored(levels: seq<Level>, l: Level)
    requires ListsLevels(levels, [2, 4], 3)
    ensures IsInput([1, 1], [2, 4], 5) && FinestAreOverwritten([1, 1], [2, 4], 5)
    ensures [1, 2] in AllGrids([1, 1], [2, 4], 5, levels) && IsLookedAt([1, 1], [2, 4], [1, 2])
    ensures ValueIn(SchemeDictionary([1, 1], [2, 4], 5, levels), l) == 0.0
  {
    hide ListsLevels, AllGrids, SchemeDictionary, ExtraSpaces, Coefficient, Selected;
    SumOfTwo(1, 1);
    SumOfTwo(1, 2);
    SumOfTwo(2, 0);
    assert Minus([2, 4], [1, 1]) == [1, 3] && Minus([2, 4], [1, 1])[1] == 3;
    assert Lag([1, 1], [2, 4], 3) == [2, 0];
    TwoDifferences([1, 1], [2, 4]);
    AllGridsAre([1, 1], [2, 4], 5, levels, [1, 2]);
    AllGridsAre([1, 1], [2, 4], 5, levels, l);
    ExtraGridsAre([1, 1], [2, 4], 5, levels, l);
    DictionaryKeys([1, 1], [2, 4], 5, levels);
    EntryOfKey(SchemeDictionary([1, 1], [2, 4], 5, levels), l);
    if l in AllGrids([1, 1], [2, 4], 5, levels) {
      SumIsMonotone([1, 1], l);
      DictionaryValue([1, 1], [2, 4], 5, levels, l);
    }
  }
}
