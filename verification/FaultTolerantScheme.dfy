/** Which grids fault recovery needs: on the levels of a combination scheme those of the finest diagonals, up to two
    more than the combination technique itself uses, and when the grids of the fault tolerant scheme are enough. */
module FaultTolerantScheme {
  import opened FiniteSums
  import opened LevelSets
  import opened LevelGeneration
  import opened LevelDictionary
  import opened LevelOdometer
  import opened CombiScheme
  import opened ClassicalScheme
  import opened AdaptiveScheme
  import opened FaultDownset
  import opened FaultRecovery
  import opened MaximalSolutions
  import opened LpOptimization
  import opened RecoveredScheme

  lemma {:induction false} SumOfPlusOne(l: Level)
    ensures LevelSum(PlusOne(l)) == LevelSum(l) + |l|
  {
    if l != [] {
      var n := |l| - 1;
      assert PlusOne(l)[..n] == PlusOne(l[..n]);
      SumOfPlusOne(l[..n]);
    }
  }

  lemma SimplexIsClosed(s: set<Level>, lmin: Level, n: int)
    requires IsSimplex(s, lmin, n)
    ensures DownClosed(s, lmin)
  {
    forall l, m | m in s && Leq(lmin, l) && Leq(l, m)
      ensures l in s
    {
      SumIsMonotone(l, m);
    }
  }

  lemma NeighbourBound(l: Level, m: Level)
    requires Adjacent(l, m)
    ensures LevelSum(m) <= LevelSum(l) + |l|
  {
    assert Leq(m, PlusOne(l));
    SumIsMonotone(m, PlusOne(l));
    SumOfPlusOne(l);
  }

  /** How many diagonals recovery needs beyond the dim finest, if faults are looked for on the diagonal that lies `gap`
      above the finest, and on the one below that. */
  function MoreDiagonals(gap: int): int {
    if gap >= 2 then 0 else 2 - gap
  }

  /** On a simplex of levels the settled ones are those below the diagonals that recovery needs. */
  lemma SettledOnSimplex(keys: seq<Level>, lmin: Level, m: int, n: int, l: Level)
    requires lmin != [] && IsSimplex(Elements(keys), lmin, m) && m <= n && l in keys
    ensures IsSettled(keys, n, l) <==> LevelSum(l) <= m - |lmin| - MoreDiagonals(n - m)
  {
    assert l in Elements(keys) && Leq(lmin, l);
    CoefficientOnSimplex(Elements(keys), lmin, m, l);
    if LevelSum(l) <= m - |lmin| - MoreDiagonals(n - m) {
      forall k | k in keys && Adjacent(l, k)
        ensures LevelSum(k) <= n - 2
      {
        assert k in Elements(keys);
        NeighbourBound(l, k);
      }
    } else if LevelSum(l) <= m - |lmin| {
      var k := PlusOne(l);
      SumOfPlusOne(l);
      assert k in Elements(keys);
      assert Adjacent(l, k) && LevelSum(k) > n - 2;
    }
  }

  /** The levels are the simplex that ends at diagonal m, and faults are looked for on diagonals n and n - 1.  Whatever
      grids there fail, and for any positive objective, the given levels suffice if and only if they hold the finest
      dim diagonals, one more if n is m + 1, and two more if n is m. */
  lemma DiagonalsAreNeeded(keys: seq<Level>, lmin: Level, given: seq<Level>, m: int, n: int, g: seq<real>)
    requires lmin != [] && Distinct(keys) && IsSimplex(Elements(keys), lmin, m) && m <= n && IsObjective(keys, g)
    ensures AlwaysSuffice(keys, given, n, g)
            <==> forall l :: l in keys && LevelSum(l) > m - |lmin| - MoreDiagonals(n - m) ==> l in given
  {
    SimplexIsClosed(Elements(keys), lmin, m);
    forall k | k in keys
      ensures LevelSum(k) <= n
    {
      assert k in Elements(keys);
    }
    GivenSufficeAlways(keys, lmin, given, n, g);
    forall l | l in keys
      ensures IsSettled(keys, n, l) <==> LevelSum(l) <= m - |lmin| - MoreDiagonals(n - m)
    {
      SettledOnSimplex(keys, lmin, m, n, l);
    }
  }

  /** By how many diagonals the finest levels of the adaptive scheme fall short of the first diagonal on which faults
      are looked for: by the lags of all dimensions but the first. */
  function Gap(lmin: Level, lmax: Level, n: int): int
    requires |lmin| == |lmax| > 0
  {
    Shift(lmin, lmax, n) - Lag(lmin, lmax, n - LevelSum(lmin))[0]
  }

  lemma FinestSumIs(lmin: Level, lmax: Level, n: int)
    requires lmin != [] && IsInput(lmin, lmax, n)
    ensures FinestSum(lmin, lmax) == n - Shift(lmin, lmax, n) + Gap(lmin, lmax, n) && Gap(lmin, lmax, n) >= 0
  {
    var c := n - LevelSum(lmin);
    LagsAreNatural(lmin, lmax, c);
    EntryBound(Lag(lmin, lmax, c), 0);
    assert Lag(lmin, lmax, c)[0] == lmin[0] - (lmax[0] - c);
  }

  /** When the grids of the fault tolerant scheme are enough for recovery. */
  predicate AreEnough(lmin: Level, lmax: Level, n: int)
    requires |lmin| == |lmax| > 0
  {
    var c, shift, gap := n - LevelSum(lmin), Shift(lmin, lmax, n), Gap(lmin, lmax, n);
    gap >= 2 || shift == 0 || c < shift + |lmin| || (shift == 1 && (gap == 1 || c == |lmin| + 1))
  }

  /** The grids of the adaptive scheme and the extra ones always suffice if and only if the dimensions after the first
      lag by two or more, or none lags, or the scheme has so few diagonals that none is left out, or the only lag is by
      one and the one diagonal that is left out is not needed or not there. */
  lemma ExtraGridsSuffice(keys: seq<Level>, lmin: Level, lmax: Level, n: int, levels: seq<Level>, given: seq<Level>,
                          g: seq<real>)
    requires lmin != [] && IsInput(lmin, lmax, n) && ListsLevels(levels, lmax, n - LevelSum(lmin))
    requires Distinct(keys) && IsSimplex(Elements(keys), lmin, n - Shift(lmin, lmax, n)) && IsObjective(keys, g)
    requires forall l :: l in given <==> l in AllGrids(lmin, lmax, n, levels)
    ensures AlwaysSuffice(keys, given, FinestSum(lmin, lmax), g) <==> AreEnough(lmin, lmax, n)
  {
    hide AlwaysSuffice, AllGrids, Distinct, IsObjective, ListsLevels, EffectiveDim, FinestSum, Gap, Shift;
    var m := n - Shift(lmin, lmax, n);
    FinestSumIs(lmin, lmax, n);
    DiagonalsAreNeeded(keys, lmin, given, m, FinestSum(lmin, lmax), g);
    if AreEnough(lmin, lmax, n) {
      forall l | l in keys && LevelSum(l) > m - |lmin| - MoreDiagonals(FinestSum(lmin, lmax) - m)
        ensures l in given
      {
        assert l in Elements(keys);
        NeededIsGrid(lmin, lmax, n, levels, l);
      }
    } else {
      var l := MissedLevel(lmin, lmax, n, levels);
      assert l in Elements(keys);
    }
  }

  lemma NeededIsGrid(lmin: Level, lmax: Level, n: int, levels: seq<Level>, l: Level)
    requires lmin != [] && IsInput(lmin, lmax, n) && ListsLevels(levels, lmax, n - LevelSum(lmin))
             && AreEnough(lmin, lmax, n)
    requires Leq(lmin, l) && LevelSum(l) <= n - Shift(lmin, lmax, n)
    requires LevelSum(l) > n - Shift(lmin, lmax, n) - |lmin| - MoreDiagonals(Gap(lmin, lmax, n))
    ensures l in AllGrids(lmin, lmax, n, levels)
  {
    hide AllGrids, ListsLevels, EffectiveDim, Gap, Shift, LevelSum;
    SumIsMonotone(lmin, l);
    AllGridsAre(lmin, lmax, n, levels, l);
    ShiftIsNatural(lmin, lmax, n);
    FinestSumIs(lmin, lmax, n);
    NoShiftMeansAllDiffer(lmin, lmax, n);
  }

  lemma MissedLevel(lmin: Level, lmax: Level, n: int, levels: seq<Level>) returns (l: Level)
    requires lmin != [] && IsInput(lmin, lmax, n) && ListsLevels(levels, lmax, n - LevelSum(lmin))
             && !AreEnough(lmin, lmax, n)
    ensures Leq(lmin, l) && LevelSum(l) <= n - Shift(lmin, lmax, n)
    ensures LevelSum(l) > n - Shift(lmin, lmax, n) - |lmin| - MoreDiagonals(Gap(lmin, lmax, n))
    ensures l !in AllGrids(lmin, lmax, n, levels)
  {
    hide AllGrids, ListsLevels, EffectiveDim, Gap, Shift, LevelSum;
    var shift, m := Shift(lmin, lmax, n), n - Shift(lmin, lmax, n);
    ShiftIsNatural(lmin, lmax, n);
    FinestSumIs(lmin, lmax, n);
    NoShiftMeansAllDiffer(lmin, lmax, n);
    l := LevelOfSum(lmin, if shift == 1 then m - |lmin| - 1 else m - |lmin|);
    AllGridsAre(lmin, lmax, n, levels, l);
  }

  /** For lmin (1,1) and lmax (5,6) they are not: recovery needs the levels with sums 3 to 6, but the scheme has those
      with sums 5 and 6, and the extra ones have sums 4 and 5. */
  lemma DiagonalIsMissed(keys: seq<Level>, levels: seq<Level>, given: seq<Level>, g: seq<real>)
    requires ListsLevels(levels, [5, 6], 5)
    requires Distinct(keys) && IsSimplex(Elements(keys), [1, 1], 6) && IsObjective(keys, g)
    requires forall l :: l in given <==> l in AllGrids([1, 1], [5, 6], 7, levels)
    ensures IsInput([1, 1], [5, 6], 7) && FinestSum([1, 1], [5, 6]) == 6
    ensures !AlwaysSuffice(keys, given, 6, g)
  {
    hide AlwaysSuffice, AllGrids, Distinct, IsObjective, ListsLevels, EffectiveDim;
    SumOfTwo(1, 1);
    SumOfTwo(1, 0);
    assert Minus([5, 6], [1, 1]) == [4, 5] && Minus([5, 6], [1, 1])[1] == 5;
    assert Lag([1, 1], [5, 6], 5) == [1, 0];
    ExtraGridsSuffice(keys, [1, 1], [5, 6], 7, levels, given, g);
  }

  /** What recovery is given for a fault tolerant scheme: the down set is the simplex of its levels, the grids are all
      its grids, and the faults are grids on the two diagonals looked at. */
  ghost predicate IsRecoverable(output: Dict, aux: Dict, lmin: Level, lmax: Level, n: int, levels: seq<Level>,
                                faults: seq<Level>) {
    && lmin != [] && IsInput(lmin, lmax, n) && ListsLevels(levels, lmax, n - LevelSum(lmin))
    && IsDict(aux, |lmin|) && IsDict(output, |lmin|) && IsSimplex(Elements(Keys(aux)), lmin, n - Shift(lmin, lmax, n))
    && (forall l :: l in Keys(output) <==> l in AllGrids(lmin, lmax, n, levels))
    && (forall f :: f in faults ==> f in Keys(output)) && AreFine(faults, FinestSum(lmin, lmax))
  }

  lemma FaultsMayFail(output: Dict, aux: Dict, lmin: Level, lmax: Level, n: int, levels: seq<Level>, faults: seq<Level>)
    requires IsRecoverable(output, aux, lmin, lmax, n, levels, faults)
    ensures MayFail(Keys(aux), Keys(output), FinestSum(lmin, lmax), faults)
  {
    hide FinestSum, Shift, Gap, AllGrids, IsDict, ListsLevels, EffectiveDim;
    FinestSumIs(lmin, lmax, n);
    forall f | f in faults
      ensures f in Keys(aux) && LevelSum(f) <= FinestSum(lmin, lmax)
    {
      AllGridsAre(lmin, lmax, n, levels, f);
      assert f in Elements(Keys(aux));
    }
  }

  lemma OptimumSuffices(output: Dict, aux: Dict, lmin: Level, lmax: Level, n: int, levels: seq<Level>,
                        faults: seq<Level>, g: seq<real>, w: seq<real>)
    requires IsRecoverable(output, aux, lmin, lmax, n, levels, faults) && IsMaximalSolution(Keys(aux), faults, g, w)
    ensures KeepsCoarse(Keys(aux), w, FinestSum(lmin, lmax))
    ensures AreEnough(lmin, lmax, n) ==> GivenSuffice(Keys(aux), Keys(output), w)
  {
    hide FinestSum, Shift, Gap, AllGrids, IsDict, ListsLevels, EffectiveDim, Dot, GivenSuffice;
    DictIsDistinct(aux, |lmin|);
    FaultsMayFail(output, aux, lmin, lmax, n, levels, faults);
    MaximalKeepsCoarse(Keys(aux), faults, g, w, FinestSum(lmin, lmax));
    ExtraGridsSuffice(Keys(aux), lmin, lmax, n, levels, Keys(output), g);
  }

  /** With the grids of the fault tolerant scheme, if they are enough, and an optimal solution, the output counts every
      level as the whole solution does, and every level two diagonals below those looked at exactly once.  If the
      minimal level is one of these, the coefficients add up to one, as the process manager asserts. */
  lemma RecoveryIsComplete(output: Dict, aux: Dict, lmin: Level, lmax: Level, n: int, levels: seq<Level>,
                           faults: seq<Level>, g: seq<real>, w: seq<real>, allC: seq<real>)
    requires IsRecoverable(output, aux, lmin, lmax, n, levels, faults) && IsMaximalSolution(Keys(aux), faults, g, w)
    requires TakesCoefficients(output, aux, allC) && AreRecovered(Keys(aux), w, allC) && AreEnough(lmin, lmax, n)
    ensures OutputCountsAlike(output, Keys(aux), allC)
    ensures forall k :: k in Keys(aux) && LevelSum(k) <= FinestSum(lmin, lmax) - 2
              ==> TimesCounted(Keys(output), Values(output), k) == 1.0
    ensures lmin in Keys(aux) && LevelSum(lmin) <= FinestSum(lmin, lmax) - 2 ==> TotalOf(Values(output)) == 1.0
  {
    hide FinestSum, Shift, Gap, AllGrids, IsDict, ListsLevels, EffectiveDim, Dot, AreEnough, IsMaximalSolution;
    var keys := Keys(aux);
    DictIsDistinct(aux, |lmin|);
    SimplexIsClosed(Elements(keys), lmin, n - Shift(lmin, lmax, n));
    OptimumSuffices(output, aux, lmin, lmax, n, levels, faults, g, w);
    assert Recovered(keys, w) == allC;
    OutputIsMasked(output, aux, |lmin|, lmin, allC);
    forall k | k in keys && LevelSum(k) <= FinestSum(lmin, lmax) - 2
      ensures TimesCounted(Keys(output), Values(output), k) == 1.0
    {
      CoarseLevelsAreCounted(keys, lmin, w, allC, FinestSum(lmin, lmax), k);
    }
    if lmin in keys && LevelSum(lmin) <= FinestSum(lmin, lmax) - 2 {
      GridsAreAbove(output, aux, lmin, lmax, n, levels, faults);
      TotalIsCount(Keys(output), Values(output), lmin);
    }
  }

  lemma GridsAreAbove(output: Dict, aux: Dict, lmin: Level, lmax: Level, n: int, levels: seq<Level>, faults: seq<Level>)
    requires IsRecoverable(output, aux, lmin, lmax, n, levels, faults)
    ensures forall l :: l in Keys(output) ==> Leq(lmin, l)
  {
    forall l | l in Keys(output)
      ensures Leq(lmin, l)
    {
      AllGridsAre(lmin, lmax, n, levels, l);
    }
  }

  /** Whatever fails, the coefficients of the solution add up to one. */
  ghost predicate AlwaysAddUpToOne(keys: seq<Level>, n: int, g: seq<real>) {
    forall faults, w :: MayFail(keys, keys, n, faults) && IsMaximalSolution(keys, faults, g, w) ==>
      TotalOf(Recovered(keys, w)) == 1.0
  }

  lemma TotalIsWeight(keys: seq<Level>, lmin: Level, n: int, w: seq<real>, j: nat)
    requires Distinct(keys) && IsSimplex(Elements(keys), lmin, n) && |w| == |keys| && j < |keys| && keys[j] == lmin
    ensures TotalOf(Recovered(keys, w)) == w[j]
  {
    SimplexIsClosed(Elements(keys), lmin, n);
    forall k | k in keys
      ensures Leq(lmin, k)
    {
      assert k in Elements(keys);
    }
    TotalIsCount(keys, Recovered(keys, w), lmin);
    RecoveredCounts(keys, lmin, w, Recovered(keys, w), lmin);
    assert Join(lmin, lmin) == lmin;
    WeightAtKey(keys, w, j);
  }

  lemma AllMayFail(keys: seq<Level>, lmin: Level, m: int, n: int, g: seq<real>)
    requires Distinct(keys) && IsSimplex(Elements(keys), lmin, m) && m <= n && IsObjective(keys, g)
             && LevelSum(lmin) >= n - 1
    ensures MayFail(keys, keys, n, keys) && IsMaximalSolution(keys, keys, g, Others(keys, keys))
  {
    hide IsMaximalSolution;
    forall k | k in keys
      ensures n - 1 <= LevelSum(k) <= n
    {
      assert k in Elements(keys);
      SumIsMonotone(lmin, k);
    }
    OthersAreMaximal(keys, keys, g, n);
  }

  /** The process manager asserts that the new coefficients add up to one.  On the levels of a scheme, which end at
      diagonal m, this holds whatever fails on diagonals n and n - 1 if and only if the minimal level lies below these:
      otherwise all grids may fail. */
  lemma CoefficientsAddUpToOne(keys: seq<Level>, lmin: Level, m: int, n: int, g: seq<real>)
    requires Distinct(keys) && IsSimplex(Elements(keys), lmin, m) && IsObjective(keys, g) && LevelSum(lmin) <= m <= n
    ensures AlwaysAddUpToOne(keys, n, g) <==> LevelSum(lmin) <= n - 2
  {
    hide TotalOf, Recovered, Dot;
    assert lmin in Elements(keys);
    var j :| 0 <= j < |keys| && keys[j] == lmin;
    if LevelSum(lmin) <= n - 2 {
      forall faults, w | MayFail(keys, keys, n, faults) && IsMaximalSolution(keys, faults, g, w)
        ensures TotalOf(Recovered(keys, w)) == 1.0
      {
        MaximalKeepsCoarse(keys, faults, g, w, n);
        TotalIsWeight(keys, lmin, m, w, j);
      }
    } else {
      AllMayFail(keys, lmin, m, n, g);
      TotalIsWeight(keys, lmin, m, Others(keys, keys), j);
    }
  }

  /** The given grids are levels of the simplex, and those of the finest diagonal m have positive coefficients. */
  ghost predicate HoldsFinest(given: Dict, lmin: Level, m: int) {
    && (forall k {:trigger k in Keys(given)} :: k in Keys(given) ==> Leq(lmin, k) && LevelSum(k) <= m)
    && (forall k :: Leq(lmin, k) && LevelSum(k) == m ==> exists e :: IsActive(given, e) && e.key == k)
  }

  /** The down set that fault recovery builds for such grids is the whole simplex. */
  lemma DownsetIsSimplex(entire: Dict, given: Dict, lmin: Level, lmax: Level, n: int)
    requires lmin != [] && IsInput(lmin, lmax, n) && HoldsFinest(given, lmin, n - Shift(lmin, lmax, n))
    requires IsEntireDownset(entire, given, lmin, lmax, Greatest(lmax))
    ensures IsSimplex(Elements(Keys(entire)), lmin, n - Shift(lmin, lmax, n))
  {
    hide Shift, HoldsFinest, IsEntireDownset, Greatest, Keys;
    forall l
      ensures l in Elements(Keys(entire)) <==> Leq(lmin, l) && LevelSum(l) <= n - Shift(lmin, lmax, n)
    {
      if l in Keys(entire) {
        KeyIsInSimplex(entire, given, lmin, lmax, n - Shift(lmin, lmax, n), l);
      }
      if Leq(lmin, l) && LevelSum(l) <= n - Shift(lmin, lmax, n) {
        InSimplexIsKey(entire, given, lmin, lmax, n, l);
      }
    }
  }

  lemma KeyIsInSimplex(entire: Dict, given: Dict, lmin: Level, lmax: Level, n: int, l: Level)
    requires lmax != [] && HoldsFinest(given, lmin, n) && IsEntireDownset(entire, given, lmin, lmax, Greatest(lmax))
             && l in Keys(entire)
    ensures Leq(lmin, l) && LevelSum(l) <= n
  {
    var i :| 0 <= i < |entire| && Keys(entire)[i] == l;
    assert entire[i] in entire;
    assert InDownset(given, lmin, lmax, Greatest(lmax), l);
    var e :| IsActive(given, e) && Leq(l, e.key);
    var j :| 0 <= j < |given| && given[j] == e;
    assert Keys(given)[j] == e.key && e.key in Keys(given);
    SumIsMonotone(l, e.key);
  }

  lemma InSimplexIsKey(entire: Dict, given: Dict, lmin: Level, lmax: Level, n: int, l: Level)
    requires lmin != [] && IsInput(lmin, lmax, n) && HoldsFinest(given, lmin, n - Shift(lmin, lmax, n))
    requires IsEntireDownset(entire, given, lmin, lmax, Greatest(lmax)) && Leq(lmin, l)
             && LevelSum(l) <= n - Shift(lmin, lmax, n)
    ensures l in Keys(entire)
  {
    hide LevelSum, HoldsFinest, IsEntireDownset, Greatest, Keys, Shift, IsMaximum;
    BelowFinest(given, lmin, n - Shift(lmin, lmax, n), l);
    InsideBox(lmin, lmax, n, l);
    SumIsMonotone(l, lmax);
    KeyOfDownset(entire, given, lmin, lmax, Greatest(lmax), l);
  }

  lemma BelowFinest(given: Dict, lmin: Level, n: int, l: Level)
    requires lmin != [] && HoldsFinest(given, lmin, n) && Leq(lmin, l) && LevelSum(l) <= n
    ensures exists e :: IsActive(given, e) && Leq(l, e.key)
  {
    var top := l[0 := l[0] + n - LevelSum(l)];
    SumOfUpdate(l, 0, l[0] + n - LevelSum(l));
    assert Leq(lmin, top) && LevelSum(top) == n;
    var e :| IsActive(given, e) && e.key == top;
    assert Leq(l, e.key);
  }

  lemma InsideBox(lmin: Level, lmax: Level, n: int, l: Level)
    requires lmin != [] && IsInput(lmin, lmax, n) && Leq(lmin, l) && LevelSum(l) <= n - Shift(lmin, lmax, n)
    ensures InRange(l, Greatest(lmax)) && Leq(l, lmax)
  {
    hide LevelSum, Shift, Greatest, BelowAllHyperplanes;
    AdaptiveIsSimplex(lmin, lmax, n, l);
  }

  /** The grids of the classical scheme for lmin (1,1) and lmax (3,3), and the down set of the active ones. */
  function FiveGrids(): Dict {
    [Entry([1, 2], -1.0), Entry([1, 3], 1.0), Entry([2, 1], -1.0), Entry([2, 2], 1.0), Entry([3, 1], 1.0)]
  }

  function SixLevels(): Dict {
    [Entry([1, 1], 0.0)] + FiveGrids()
  }

  /** Everything but grid (2,2). */
  function WithoutFault(): seq<real> {
    [1.0, 1.0, 1.0, 1.0, 0.0, 1.0]
  }

  lemma PairLess(a: Level, b: Level)
    requires |a| == |b| == 2 && (a[0] < b[0] || (a[0] == b[0] && a[1] < b[1]))
    ensures LexLess(a, b)
  {
    assert FirstDifference(a, b, if a[0] < b[0] then 0 else 1);
  }

  lemma PairsAreDict(d: Dict)
    requires forall i :: 0 <= i < |d| ==> |d[i].key| == 2
    requires forall i, j :: 0 <= i < j < |d| ==>
               d[i].key[0] < d[j].key[0] || (d[i].key[0] == d[j].key[0] && d[i].key[1] < d[j].key[1])
    ensures IsDict(d, 2)
  {
    forall i, j | 0 <= i < j < |d|
      ensures LexLess(Keys(d)[i], Keys(d)[j])
    {
      PairLess(d[i].key, d[j].key);
    }
  }

  function SixKeys(): seq<Level> {
    [[1, 1], [1, 2], [1, 3], [2, 1], [2, 2], [3, 1]]
  }

  lemma SixKeysAreDistinct()
    ensures IsDict(SixLevels(), 2) && Keys(SixLevels()) == SixKeys() && Distinct(SixKeys())
  {
    PairsAreDict(SixLevels());
    DictIsDistinct(SixLevels(), 2);
    assert Keys(SixLevels()) == SixKeys();
  }

  lemma AboveLowest(m: Level)
    requires |m| == 2 && m[0] >= 1 && m[1] >= 1
    ensures Adjacent([1, 1], m) <==> m[0] <= 2 && m[1] <= 2
    ensures LevelSum(m) - LevelSum([1, 1]) == m[0] + m[1] - 2
  {
    SumOfTwo(1, 1);
    SumOfTwo(m[0], m[1]);
    assert m == [m[0], m[1]];
  }

  lemma ChosenAboveLowest(j: nat)
    requires j < 6
    ensures IsChosen(SixKeys(), WithoutFault(), [1, 1], 0, SixKeys()[j]) <==> j == 0
    ensures IsChosen(SixKeys(), WithoutFault(), [1, 1], 1, SixKeys()[j]) <==> j == 1 || j == 3
  {
    SixKeysAreDistinct();
    WeightAtKey(SixKeys(), WithoutFault(), j);
    AboveLowest(SixKeys()[j]);
  }

  lemma ChosenMember(m: Level)
    ensures m in Chosen(SixKeys(), WithoutFault(), [1, 1], 0) <==> m == SixKeys()[0]
    ensures m in Chosen(SixKeys(), WithoutFault(), [1, 1], 1) <==> m == SixKeys()[1] || m == SixKeys()[3]
  {
    if m in SixKeys() {
      var j :| 0 <= j < 6 && SixKeys()[j] == m;
      SixKeysAreDistinct();
      ChosenAboveLowest(j);
    } else {
      assert SixKeys()[0] in SixKeys() && SixKeys()[1] in SixKeys() && SixKeys()[3] in SixKeys();
    }
  }

  lemma OneAndTwo(a: set<Level>, b: set<Level>, x: Level, y: Level, z: Level)
    requires y != z && forall m :: (m in a <==> m == x) && (m in b <==> m == y || m == z)
    ensures |a| == 1 && |b| == 2
  {
    assert a == {x} && b == {y, z};
  }

  /** The neighbour of (1,1) at the fault is not chosen, the two others are. */
  lemma LowestIsUnbalanced()
    ensures !IsBalanced(SixKeys(), WithoutFault(), [1, 1])
  {
    forall m
      ensures m in Chosen(SixKeys(), WithoutFault(), [1, 1], 0) <==> m == SixKeys()[0]
      ensures m in Chosen(SixKeys(), WithoutFault(), [1, 1], 1) <==> m == SixKeys()[1] || m == SixKeys()[3]
    {
      ChosenMember(m);
    }
    SixKeysAreDistinct();
    OneAndTwo(Chosen(SixKeys(), WithoutFault(), [1, 1], 0), Chosen(SixKeys(), WithoutFault(), [1, 1], 1),
              SixKeys()[0], SixKeys()[1], SixKeys()[3]);
  }

  lemma ActiveGrids(e: Entry)
    ensures IsActive(FiveGrids(), e) <==> e == FiveGrids()[1] || e == FiveGrids()[3] || e == FiveGrids()[4]
  {
    if e in FiveGrids() {
      var i :| 0 <= i < 5 && FiveGrids()[i] == e;
    }
  }

  lemma BelowActiveGrid(l: Level, e: Entry)
    requires IsActive(FiveGrids(), e) && Leq(l, e.key) && Leq([1, 1], l)
    ensures l in SixKeys()
  {
    ActiveGrids(e);
    assert l[0] >= 1 && l[1] >= 1 && l[0] <= e.key[0] && l[1] <= e.key[1];
    var j := if l[0] == 1 then l[1] - 1 else if l[0] == 2 then l[1] + 2 else 5;
    assert SixKeys()[j] == l;
  }

  lemma ActiveGridAbove(j: nat)
    requires j < 6
    ensures InDownset(FiveGrids(), [1, 1], [3, 3], 3, SixKeys()[j])
  {
    var l := SixKeys()[j];
    SumOfTwo(3, 3);
    SumOfTwo(l[0], l[1]);
    assert l == [l[0], l[1]];
    var e := FiveGrids()[if j <= 2 then 1 else if j == 5 then 4 else 3];
    ActiveGrids(e);
    assert Leq(l, e.key);
  }

  lemma InSixLevels(l: Level)
    ensures InDownset(FiveGrids(), [1, 1], [3, 3], 3, l) <==> l in SixKeys()
  {
    if InDownset(FiveGrids(), [1, 1], [3, 3], 3, l) {
      var e :| IsActive(FiveGrids(), e) && Leq(l, e.key);
      BelowActiveGrid(l, e);
    }
    if l in SixKeys() {
      var j :| 0 <= j < 6 && SixKeys()[j] == l;
      ActiveGridAbove(j);
    }
  }

  lemma SixLevelsAreDownset()
    ensures IsEntireDownset(SixLevels(), FiveGrids(), [1, 1], [3, 3], Greatest([3, 3]))
  {
    assert Greatest([3, 3]) == 3;
    SixEntriesAreDownset(SixLevels(), FiveGrids(), [1, 1], [3, 3]);
  }

  lemma SixEntriesAreDownset(six: Dict, five: Dict, lmin: Level, lmax: Level)
    requires six == SixLevels() && five == FiveGrids() && lmin == [1, 1] && lmax == [3, 3]
    ensures IsEntireDownset(six, five, lmin, lmax, 3)
  {
    SixKeysAreDistinct();
    forall e
      ensures e in six <==> InDownset(five, lmin, lmax, 3, e.key) && e.value == ValueIn(five, e.key)
    {
      InSixLevels(e.key);
      SixEntries(e);
    }
  }

  lemma SixEntries(e: Entry)
    ensures e in SixLevels() <==> e.key in SixKeys() && e.value == ValueIn(FiveGrids(), e.key)
  {
    SixKeysAreDistinct();
    PairsAreDict(FiveGrids());
    if e.key in SixKeys() {
      var j :| 0 <= j < 6 && SixKeys()[j] == e.key;
      if j > 0 {
        FindUnique(FiveGrids(), 2, j - 1);
      }
      assert ValueIn(FiveGrids(), e.key) == SixLevels()[j].value;
      forall i | 0 <= i < 6 && SixLevels()[i] == e
        ensures i == j
      {
        assert SixKeys()[i] == e.key;
      }
    }
    if e in SixLevels() {
      var i :| 0 <= i < 6 && SixLevels()[i] == e;
      assert SixKeys()[i] == e.key;
    }
  }

  lemma UnbalancedIsLost(entire: Dict, given: Dict, lmin: Level, w: seq<real>, output: Dict, allC: seq<real>,
                         lost: Level)
    requires IsDict(entire, |lmin|) && DownClosed(Elements(Keys(entire)), lmin)
    requires IsDict(output, |lmin|) && Keys(output) == Keys(given) && AreBinary(w)
    requires AreRecovered(Keys(entire), w, allC) && TakesCoefficients(output, Numbered(entire), allC)
    requires lost in Keys(entire) && lost !in Keys(given) && !IsBalanced(Keys(entire), w, lost)
    ensures !OutputCountsAlike(output, Keys(entire), allC)
  {
    LeavingOutIsHarmless(output, Numbered(entire), |lmin|, lmin, w, allC);
  }

  /** The classical scheme without the extra grids: after the fault of grid (2,2) the weights of all other levels are
      an optimal solution, but the coefficient of level (1,1) is lost and the output does not count as the solution
      does. */
  lemma LostCoefficient(output: Dict, allC: seq<real>)
    requires IsDict(output, 2) && Keys(output) == Keys(FiveGrids())
    requires AreRecovered(Keys(SixLevels()), WithoutFault(), allC)
             && TakesCoefficients(output, Numbered(SixLevels()), allC)
    ensures IsEntireDownset(SixLevels(), FiveGrids(), [1, 1], [3, 3], Greatest([3, 3]))
    ensures IsRelevant(FiveGrids(), FinestSum([1, 1], [3, 3]), [2, 2])
            && KeepsCoarse(Keys(SixLevels()), WithoutFault(), 4)
    ensures IsMaximalSolution(Keys(SixLevels()), [[2, 2]], ObjectiveOf(Keys(SixLevels())), WithoutFault())
    ensures !OutputCountsAlike(output, Keys(SixLevels()), allC)
  {
    SixLevelsAreDownset();
    FaultOfScheme();
    SixLevelsAreClosed();
    LowestIsLeftOut();
    UnbalancedIsLost(SixLevels(), FiveGrids(), [1, 1], WithoutFault(), output, allC, [1, 1]);
  }

  lemma SixLevelsAreClosed()
    ensures IsDict(SixLevels(), 2) && Keys(SixLevels()) == SixKeys() && DownClosed(Elements(SixKeys()), [1, 1])
  {
    hide *;
    SixLevelsAreDownset();
    SixKeysAreDistinct();
    DownsetIsClosed(SixLevels(), FiveGrids(), [1, 1], [3, 3], Greatest([3, 3]));
  }

  lemma LowestIsLeftOut()
    ensures [1, 1] in SixKeys() && [1, 1] !in Keys(FiveGrids()) && !IsBalanced(SixKeys(), WithoutFault(), [1, 1])
  {
    LowestIsUnbalanced();
    LowestIsNotGiven(SixKeys(), Keys(FiveGrids()));
  }

  lemma LowestIsNotGiven(keys: seq<Level>, given: seq<Level>)
    requires keys == SixKeys() && given == Keys(FiveGrids())
    ensures [1, 1] in keys && [1, 1] !in given
  {
    assert keys[0] == [1, 1];
    forall i | 0 <= i < |given|
      ensures given[i] != [1, 1]
    {
      assert given[i][0] + given[i][1] > 2;
    }
  }

  lemma FaultIsRelevant()
    ensures IsRelevant(FiveGrids(), FinestSum([1, 1], [3, 3]), [2, 2]) && AreFine([[2, 2]], 4)
  {
    PairsAreDict(FiveGrids());
    FindUnique(FiveGrids(), 2, 3);
    SumOfTwo(1, 1);
    SumOfTwo(2, 2);
  }

  lemma OthersAreTheRest()
    ensures Others(SixKeys(), [[2, 2]]) == WithoutFault() && AreUpward(SixKeys(), [[2, 2]])
    ensures forall k :: k in SixKeys() ==> LevelSum(k) <= 4
  {
    forall j: nat | j < 6
      ensures LevelSum(SixKeys()[j]) <= 4 && (Leq([2, 2], SixKeys()[j]) ==> SixKeys()[j] == [2, 2])
    {
      var m := SixKeys()[j];
      SumOfTwo(m[0], m[1]);
      assert m == [m[0], m[1]];
    }
    assert SixKeys()[4] == [2, 2];
  }

  lemma FaultOfScheme()
    ensures IsRelevant(FiveGrids(), FinestSum([1, 1], [3, 3]), [2, 2]) && KeepsCoarse(SixKeys(), WithoutFault(), 4)
    ensures IsMaximalSolution(SixKeys(), [[2, 2]], ObjectiveOf(SixKeys()), WithoutFault())
  {
    hide Dot, IsMaximalSolution, ObjectiveOf, SixKeys, WithoutFault, FiveGrids, IsRelevant, AreUpward, Others, AreFine,
      KeepsCoarse;
    FaultIsRelevant();
    SixKeysAreDistinct();
    OthersAreTheRest();
    OthersAreMaximal(SixKeys(), [[2, 2]], ObjectiveOf(SixKeys()), 4);
    MaximalKeepsCoarse(SixKeys(), [[2, 2]], ObjectiveOf(SixKeys()), WithoutFault(), 4);
  }
}
