/** Where the grids of the adaptive scheme lie, and whether the extra grids for fault tolerance, which are chosen by the
    diagonals of a scheme with equal level differences, fit them. */
module AdaptiveScheme {
  import opened FiniteSums
  import opened LevelSets
  import opened LevelGeneration
  import opened CombiScheme
  import opened ClassicalScheme
  import opened SchemeFront

  /** The sum of the lags: by how many diagonals the finest grids fall short of diagonal n. */
  function Shift(lmin: Level, lmax: Level, n: int): int
    requires |lmin| == |lmax|
  {
    LevelSum(Lag(lmin, lmax, n - LevelSum(lmin)))
  }

  /** Input of the adaptive construction, with the n that it computes. */
  ghost predicate IsInput(lmin: Level, lmax: Level, n: int) {
    Leq(lmin, lmax) && (forall i :: 0 <= i < |lmin| ==> lmin[i] > 0) && IsMaximum(Minus(lmax, lmin), n - LevelSum(lmin))
  }

  /** The lags as seen from level l. */
  lemma LagOfLevel(lmin: Level, lmax: Level, n: int, l: Level)
    requires IsInput(lmin, lmax, n) && Leq(lmin, l)
    ensures LevelSum(Lag(l, lmax, n - LevelSum(lmin))) == LevelSum(l) - LevelSum(lmin) + Shift(lmin, lmax, n)
    ensures forall i :: 0 <= i < |l| ==> Lag(l, lmax, n - LevelSum(lmin))[i] >= l[i] - lmin[i]
  {
    var c, all := n - LevelSum(lmin), seq(|l|, i => true);
    PartSumOfLag(l, lmax, c, all);
    PartSumOfLag(lmin, lmax, c, all);
    FullPartSum(Lag(l, lmax, c), all);
    FullPartSum(Lag(lmin, lmax, c), all);
    FullPartSum(l, all);
    FullPartSum(lmin, all);
    LagsAreNatural(lmin, lmax, c);
    forall i | 0 <= i < |l|
      ensures Lag(l, lmax, c)[i] >= l[i] - lmin[i]
    {
      assert Lag(l, lmax, c)[i] == l[i] - lmin[i] + Lag(lmin, lmax, c)[i];
    }
  }

  lemma InSchemeMeansBelow(lmin: Level, lmax: Level, n: int, l: Level)
    requires IsInput(lmin, lmax, n) && InScheme(lmin, lmax, n, l)
    ensures LevelSum(l) <= n - Shift(lmin, lmax, n)
  {
    var c := n - LevelSum(lmin);
    LagOfLevel(lmin, lmax, n, l);
    if |l| == 1 {
      assert Lag(lmin, lmax, c)[..0] == [] && Minus(lmax, lmin)[0] == c;
    } else {
      var all := seq(|l|, i => true);
      AllOnes(|l|);
      assert BelowHyperplane(l, Lowered(lmax, c), c, all);
      PartSumOfLag(l, lmax, c, all);
      FullPartSum(Lag(l, lmax, c), all);
    }
  }

  lemma BelowMeansInScheme(lmin: Level, lmax: Level, n: int, l: Level)
    requires IsInput(lmin, lmax, n) && Leq(lmin, l) && LevelSum(l) <= n - Shift(lmin, lmax, n)
    ensures InScheme(lmin, lmax, n, l)
  {
    var c := n - LevelSum(lmin);
    var lag := Lag(l, lmax, c);
    LagOfLevel(lmin, lmax, n, l);
    ShiftIsNatural(lmin, lmax, n);
    forall i | 0 <= i < |l|
      ensures 1 <= l[i] <= lmax[i]
    {
      EntryBound(lag, i);
    }
    forall mask: Mask | |mask| == |l|
      ensures BelowHyperplane(l, Lowered(lmax, c), c, mask)
    {
      PartSumOfLag(l, lmax, c, mask);
      PartSumBound(lag, mask);
    }
  }

  lemma ShiftIsNatural(lmin: Level, lmax: Level, n: int)
    requires IsInput(lmin, lmax, n)
    ensures Shift(lmin, lmax, n) >= 0
  {
    LagsAreNatural(lmin, lmax, n - LevelSum(lmin));
    NaturalSum(Lag(lmin, lmax, n - LevelSum(lmin)));
  }

  /** The levels of the adaptive scheme are a simplex, as those of a scheme with equal differences, but one that ends as
      many diagonals earlier as the lags add up to. */
  lemma AdaptiveIsSimplex(lmin: Level, lmax: Level, n: int, l: Level)
    requires IsInput(lmin, lmax, n)
    ensures InScheme(lmin, lmax, n, l) <==> Leq(lmin, l) && LevelSum(l) <= n - Shift(lmin, lmax, n)
  {
    if InScheme(lmin, lmax, n, l) {
      InSchemeMeansBelow(lmin, lmax, n, l);
    }
    if Leq(lmin, l) && LevelSum(l) <= n - Shift(lmin, lmax, n) {
      BelowMeansInScheme(lmin, lmax, n, l);
    }
  }

  lemma SelectedIsSimplex(lmin: Level, lmax: Level, n: int, levels: seq<Level>)
    requires IsInput(lmin, lmax, n) && ListsLevels(levels, lmax, n - LevelSum(lmin))
    ensures IsSimplex(Elements(Selected(lmin, n, levels)), lmin, n - Shift(lmin, lmax, n))
  {
    SelectionIsScheme(lmin, lmax, n, levels);
    forall l
      ensures l in Elements(Selected(lmin, n, levels)) <==> Leq(lmin, l) && LevelSum(l) <= n - Shift(lmin, lmax, n)
    {
      AdaptiveIsSimplex(lmin, lmax, n, l);
    }
  }

  /** The grids that the adaptive construction keeps. */
  ghost function KeptGrids(lmin: Level, n: int, levels: seq<Level>): seq<Level> {
    KeptSpaces(Elements(Selected(lmin, n, levels)), Selected(lmin, n, levels))
  }

  /** They are the levels of the dim finest diagonals of that simplex. */
  lemma KeptGridsAre(lmin: Level, lmax: Level, n: int, levels: seq<Level>, l: Level)
    requires lmin != [] && IsInput(lmin, lmax, n) && ListsLevels(levels, lmax, n - LevelSum(lmin))
    ensures l in KeptGrids(lmin, n, levels) <==>
            Leq(lmin, l) && n - Shift(lmin, lmax, n) - |lmin| < LevelSum(l) <= n - Shift(lmin, lmax, n)
  {
    var list, m := Selected(lmin, n, levels), n - Shift(lmin, lmax, n);
    SelectedIsSimplex(lmin, lmax, n, levels);
    if l in list {
      assert l in Elements(list);
      CoefficientOnSimplex(Elements(list), lmin, m, l);
    }
    KeptHaveCoefficients(Elements(list), list, l);
    assert l in list <==> l in Elements(list);
  }

  lemma {:induction false} KeptHaveCoefficients(all: set<Level>, list: seq<Level>, l: Level)
    ensures l in KeptSpaces(all, list) <==> l in list && Coefficient(all, One(), l) != 0.0
  {
    if list != [] {
      KeptHaveCoefficients(all, list[..|list| - 1], l);
      assert list == list[..|list| - 1] + [list[|list| - 1]];
    }
  }

  lemma ExtraGridsAre(lmin: Level, lmax: Level, n: int, levels: seq<Level>, l: Level)
    requires IsInput(lmin, lmax, n) && ListsLevels(levels, lmax, n - LevelSum(lmin))
    ensures var e := EffectiveDim(lmin, lmax);
            l in ExtraSpaces(lmin, e, n, levels) <==>
            Leq(lmin, l) && LevelSum(l) <= n - Shift(lmin, lmax, n) && n - e - 2 < LevelSum(l) <= n - e
  {
    ExtraSpacesAre(lmin, EffectiveDim(lmin, lmax), n, levels, l);
    AdaptiveIsSimplex(lmin, lmax, n, l);
  }

  /** The extra grids; a scheme with a single grid has none. */
  function ExtraGrids(lmin: Level, lmax: Level, n: int, levels: seq<Level>): seq<Level>
    requires |lmin| == |lmax|
  {
    if lmin == lmax then [] else ExtraSpaces(lmin, EffectiveDim(lmin, lmax), n, levels)
  }

  /** The grids of the adaptive scheme after it has been made fault tolerant. */
  ghost function AllGrids(lmin: Level, lmax: Level, n: int, levels: seq<Level>): seq<Level>
    requires |lmin| == |lmax|
  {
    KeptGrids(lmin, n, levels) + ExtraGrids(lmin, lmax, n, levels)
  }

  ghost function AllCoefficients(lmin: Level, lmax: Level, n: int, levels: seq<Level>): (c: seq<real>)
    requires |lmin| == |lmax|
    ensures |c| == |AllGrids(lmin, lmax, n, levels)|
  {
    var list := Selected(lmin, n, levels);
    KeptCount(Elements(list), list, []);
    KeptCoefficients(Elements(list), list) + seq(|ExtraGrids(lmin, lmax, n, levels)|, i => 0.0)
  }

  lemma AllGridsAre(lmin: Level, lmax: Level, n: int, levels: seq<Level>, l: Level)
    requires lmin != [] && IsInput(lmin, lmax, n) && ListsLevels(levels, lmax, n - LevelSum(lmin))
    ensures var m, e := n - Shift(lmin, lmax, n), EffectiveDim(lmin, lmax);
            l in AllGrids(lmin, lmax, n, levels) <==>
            Leq(lmin, l) && LevelSum(l) <= m
              && (m - |lmin| < LevelSum(l) || (lmin != lmax && n - e - 2 < LevelSum(l) <= n - e))
  {
    KeptGridsAre(lmin, lmax, n, levels, l);
    ExtraGridsAre(lmin, lmax, n, levels, l);
  }

  lemma SchemeSpaces(spaces: seq<Level>, coeffs: seq<real>, lmin: Level, lmax: Level, n: int, levels: seq<Level>)
    requires |lmin| == |lmax|
    requires lmin == lmax ==>
             spaces == KeptGrids(lmin, n, levels)
             && coeffs == KeptCoefficients(Elements(Selected(lmin, n, levels)), Selected(lmin, n, levels))
    requires lmin != lmax ==>
             spaces == AllGrids(lmin, lmax, n, levels) && coeffs == AllCoefficients(lmin, lmax, n, levels)
    ensures spaces == AllGrids(lmin, lmax, n, levels) && coeffs == AllCoefficients(lmin, lmax, n, levels)
  {
    if lmin == lmax {
      assert spaces + [] == spaces && coeffs + seq(0, i => 0.0) == coeffs;
    }
  }

  /** Creates the adaptive scheme and makes it fault tolerant. */
  method CreateFaultTolerantScheme(dim: nat, lmin: Level, lmax: Level)
    returns (ok: bool, spaces: seq<Level>, coefficients: seq<real>, ghost n: int, ghost levels: seq<Level>)
    requires dim > 0 && |lmin| == |lmax| == dim && Leq(lmin, lmax) && forall i :: 0 <= i < dim ==> lmin[i] > 0
    ensures IsInput(lmin, lmax, n) && ListsLevels(levels, lmax, n - LevelSum(lmin)) && (ok <==> levels != [])
    ensures ok ==> spaces == AllGrids(lmin, lmax, n, levels) && coefficients == AllCoefficients(lmin, lmax, n, levels)
  {
    var combischeme := new CombiMinMaxScheme(dim, lmin, lmax);
    ok := combischeme.CreateAdaptiveCombischeme();
    n, levels := combischeme.n, combischeme.levels;
    if ok {
      combischeme.MakeFaultTolerant();
      SchemeSpaces(combischeme.combiSpaces, combischeme.coefficients, lmin, lmax, n, levels);
    }
    spaces, coefficients := combischeme.combiSpaces, combischeme.coefficients;
  }

  lemma {:induction false} EqualDimension(lmin: Level, lmax: Level) returns (i: nat)
    requires |lmin| == |lmax| && EffectiveDim(lmin, lmax) < |lmin|
    ensures i < |lmin| && lmin[i] == lmax[i]
  {
    var n := |lmin| - 1;
    if lmin[n] == lmax[n] {
      i := n;
    } else {
      i := EqualDimension(lmin[..n], lmax[..n]);
    }
  }

  /** A dimension with equal levels lags by the whole largest difference. */
  lemma NoShiftMeansAllDiffer(lmin: Level, lmax: Level, n: int)
    requires IsInput(lmin, lmax, n)
    ensures if lmin == lmax then n == LevelSum(lmin) && Shift(lmin, lmax, n) == 0 else n > LevelSum(lmin)
    ensures EffectiveDim(lmin, lmax) < |lmin| ==> Shift(lmin, lmax, n) >= n - LevelSum(lmin)
  {
    var c := n - LevelSum(lmin);
    if lmin == lmax {
      assert Lag(lmin, lmax, c) == Minus(lmin, lmin);
      SumOfDifference(lmin, lmin);
    } else {
      var j :| 0 <= j < |lmin| && lmin[j] != lmax[j];
      assert Minus(lmax, lmin)[j] <= c;
    }
    if EffectiveDim(lmin, lmax) < |lmin| {
      var i := EqualDimension(lmin, lmax);
      LagsAreNatural(lmin, lmax, c);
      EntryBound(Lag(lmin, lmax, c), i);
    }
  }

  /** There is a level of every sum from that of lmin on. */
  lemma LevelOfSum(lmin: Level, s: int) returns (l: Level)
    requires lmin != [] && LevelSum(lmin) <= s
    ensures Leq(lmin, l) && LevelSum(l) == s
  {
    var top := lmin[0] + s - LevelSum(lmin);
    l := lmin[0 := top];
    SumOfUpdate(lmin, 0, top);
  }

  /** Some extra grid is one that the scheme has already. */
  ghost predicate RepeatsGrid(lmin: Level, lmax: Level, n: int, levels: seq<Level>)
    requires |lmin| == |lmax|
  {
    exists l :: l in KeptGrids(lmin, n, levels) && l in ExtraSpaces(lmin, EffectiveDim(lmin, lmax), n, levels)
  }

  /** When the extra diagonals meet those of the scheme: the lags are not all zero, but not too large either. */
  predicate DiagonalsMeet(lmin: Level, lmax: Level, n: int)
    requires |lmin| == |lmax|
  {
    var e, c, shift := EffectiveDim(lmin, lmax), n - LevelSum(lmin), Shift(lmin, lmax, n);
    0 < shift <= e + 1 && shift <= c && e <= c
  }

  lemma GridsRepeat(lmin: Level, lmax: Level, n: int, levels: seq<Level>)
    requires lmin != [] && lmin != lmax && IsInput(lmin, lmax, n) && ListsLevels(levels, lmax, n - LevelSum(lmin))
    ensures RepeatsGrid(lmin, lmax, n, levels) <==> DiagonalsMeet(lmin, lmax, n)
  {
    var e, shift := EffectiveDim(lmin, lmax), Shift(lmin, lmax, n);
    NoShiftMeansAllDiffer(lmin, lmax, n);
    ShiftIsNatural(lmin, lmax, n);
    if l :| l in KeptGrids(lmin, n, levels) && l in ExtraSpaces(lmin, e, n, levels) {
      KeptGridsAre(lmin, lmax, n, levels, l);
      ExtraGridsAre(lmin, lmax, n, levels, l);
      SumIsMonotone(lmin, l);
    }
    if DiagonalsMeet(lmin, lmax, n) {
      var l := LevelOfSum(lmin, if shift < e then n - e else n - shift);
      KeptGridsAre(lmin, lmax, n, levels, l);
      ExtraGridsAre(lmin, lmax, n, levels, l);
    }
  }
}
