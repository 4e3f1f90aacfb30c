/** Recovery and restoration together: what the process manager knows when it restores the scheme after a recovery, and
    what the grids are combined with over a whole run with faults. */
module RecoveryCycle {
  import opened FiniteSums
  import opened LevelSets
  import opened LevelGeneration
  import opened LevelDictionary
  import opened CombiScheme
  import opened SchemeFront
  import opened AdaptiveScheme
  import opened FaultDownset
  import opened FaultRecovery
  import opened MaximalSolutions
  import opened LpOptimization
  import opened RecoveredScheme
  import opened FaultTolerantScheme
  import opened SchemeParameters
  import opened SchemeRecovery
  import opened RestoredScheme

  /** The coefficients of the fault tolerant scheme by level; of two for the same level the last one is stored. */
  ghost function SchemeDictionary(lmin: Level, lmax: Level, n: int, levels: seq<Level>): Dict
    requires |lmin| == |lmax|
  {
    AssignAll([], AllGrids(lmin, lmax, n, levels), AllCoefficients(lmin, lmax, n, levels))
  }

  lemma DictionaryKeys(lmin: Level, lmax: Level, n: int, levels: seq<Level>)
    requires lmin != [] && IsInput(lmin, lmax, n) && ListsLevels(levels, lmax, n - LevelSum(lmin))
    ensures forall l :: l in AllGrids(lmin, lmax, n, levels) ==> |l| == |lmin|
    ensures IsDict(SchemeDictionary(lmin, lmax, n, levels), |lmin|)
    ensures forall l :: l in Keys(SchemeDictionary(lmin, lmax, n, levels)) <==> l in AllGrids(lmin, lmax, n, levels)
  {
    hide IsDict, AllGrids, AllCoefficients, ListsLevels, Keys, IsMaximum;
    forall l | l in AllGrids(lmin, lmax, n, levels)
      ensures |l| == |lmin|
    {
      AllGridsAre(lmin, lmax, n, levels, l);
    }
    EmptyIsDict(|lmin|);
    AssignAllIsDict([], |lmin|, AllGrids(lmin, lmax, n, levels), AllCoefficients(lmin, lmax, n, levels));
  }

  lemma CoefficientAtPosition(lmin: Level, lmax: Level, n: int, levels: seq<Level>, i: nat)
    requires |lmin| == |lmax| && i < |AllGrids(lmin, lmax, n, levels)|
    ensures var l, c := AllGrids(lmin, lmax, n, levels)[i], AllCoefficients(lmin, lmax, n, levels)[i];
            if i < |KeptGrids(lmin, n, levels)|
            then l == KeptGrids(lmin, n, levels)[i] && c == Coefficient(Elements(Selected(lmin, n, levels)), One(), l)
            else l in ExtraGrids(lmin, lmax, n, levels) && c == 0.0
  {
    hide Coefficient, ExtraGrids;
    var list := Selected(lmin, n, levels);
    KeptCount(Elements(list), list, []);
    if i < |KeptGrids(lmin, n, levels)| {
      KeptComeFromList(Elements(list), list, i);
    } else {
      assert AllGrids(lmin, lmax, n, levels)[i] == ExtraGrids(lmin, lmax, n, levels)[i - |KeptGrids(lmin, n, levels)|];
    }
  }

  lemma PositionOf(lmin: Level, lmax: Level, n: int, levels: seq<Level>, l: Level) returns (i: nat)
    requires |lmin| == |lmax| && l in AllGrids(lmin, lmax, n, levels)
    ensures i < |AllGrids(lmin, lmax, n, levels)| && AllGrids(lmin, lmax, n, levels)[i] == l
    ensures l in ExtraGrids(lmin, lmax, n, levels) ==> i >= |KeptGrids(lmin, n, levels)|
  {
    hide KeptGrids, ExtraGrids;
    var kept, extra := KeptGrids(lmin, n, levels), ExtraGrids(lmin, lmax, n, levels);
    if l in extra {
      var j :| 0 <= j < |extra| && extra[j] == l;
      i := |kept| + j;
    } else {
      i :| 0 <= i < |kept| && kept[i] == l;
    }
  }

  /** The dictionary holds zero for every extra grid, even for one that was in the scheme before. */
  lemma DictionaryValue(lmin: Level, lmax: Level, n: int, levels: seq<Level>, l: Level)
    requires lmin != [] && IsInput(lmin, lmax, n) && ListsLevels(levels, lmax, n - LevelSum(lmin))
    requires l in AllGrids(lmin, lmax, n, levels)
    ensures ValueIn(SchemeDictionary(lmin, lmax, n, levels), l)
            == if l in ExtraGrids(lmin, lmax, n, levels) then 0.0
              else Coefficient(Elements(Selected(lmin, n, levels)), One(), l)
  {
    hide AllGrids, AllCoefficients, KeptGrids, ExtraGrids, Selected, Coefficient, ListsLevels, IsMaximum, IsDict, Keys,
      IsLast, ValueIn, AssignAll, LevelSum;
    var grids, c := AllGrids(lmin, lmax, n, levels), AllCoefficients(lmin, lmax, n, levels);
    DictionaryKeys(lmin, lmax, n, levels);
    var i := PositionOf(lmin, lmax, n, levels, l);
    var j := LastPosition(grids, i);
    CoefficientAtPosition(lmin, lmax, n, levels, j);
    EmptyIsDict(|lmin|);
    AssignedLast([], |lmin|, grids, c, j);
  }

  /** An extra diagonal is the finest of the scheme, whose coefficients the dictionary then does not hold. */
  predicate FinestAreOverwritten(lmin: Level, lmax: Level, n: int)
    requires |lmin| == |lmax|
  {
    var e, c, shift := EffectiveDim(lmin, lmax), n - LevelSum(lmin), Shift(lmin, lmax, n);
    lmin != lmax && shift <= c && e <= shift <= e + 1
  }

  lemma FinestHasOne(lmin: Level, lmax: Level, n: int, levels: seq<Level>, l: Level)
    requires IsInput(lmin, lmax, n) && ListsLevels(levels, lmax, n - LevelSum(lmin))
    requires Leq(lmin, l) && LevelSum(l) == n - Shift(lmin, lmax, n)
    ensures Coefficient(Elements(Selected(lmin, n, levels)), One(), l) == 1.0
  {
    hide IsMaximum, ListsLevels, Shift, Coefficient;
    var list, m := Selected(lmin, n, levels), n - Shift(lmin, lmax, n);
    SelectedIsSimplex(lmin, lmax, n, levels);
    assert l in Elements(list);
    forall k | k in list && Leq(l, k)
      ensures k == l
    {
      assert k in Elements(list);
      if k != l {
        LargerSum(l, k);
      }
    }
    MaximalHasOne(list, l);
  }

  lemma FinestIsActive(lmin: Level, lmax: Level, n: int, levels: seq<Level>, l: Level)
    requires lmin != [] && IsInput(lmin, lmax, n) && ListsLevels(levels, lmax, n - LevelSum(lmin))
    requires !FinestAreOverwritten(lmin, lmax, n) && Leq(lmin, l) && LevelSum(l) == n - Shift(lmin, lmax, n)
    ensures exists e :: IsActive(SchemeDictionary(lmin, lmax, n, levels), e) && e.key == l
  {
    hide IsMaximum, ListsLevels, Shift, Coefficient, AllGrids, SchemeDictionary, EffectiveDim, ExtraSpaces, Keys;
    var d := SchemeDictionary(lmin, lmax, n, levels);
    AllGridsAre(lmin, lmax, n, levels, l);
    ExtraGridsAre(lmin, lmax, n, levels, l);
    SumIsMonotone(lmin, l);
    DictionaryKeys(lmin, lmax, n, levels);
    DictionaryValue(lmin, lmax, n, levels, l);
    FinestHasOne(lmin, lmax, n, levels, l);
    EntryOfKey(d, l);
    assert IsActive(d, Entry(l, ValueIn(d, l)));
  }

  /** The dictionary of a fault tolerant scheme whose finest coefficients are not overwritten is what recovery
      expects. */
  lemma DictionaryHoldsScheme(lmin: Level, lmax: Level, n: int, levels: seq<Level>)
    requires lmin != [] && IsInput(lmin, lmax, n) && ListsLevels(levels, lmax, n - LevelSum(lmin))
    requires !FinestAreOverwritten(lmin, lmax, n)
    ensures HoldsScheme(SchemeDictionary(lmin, lmax, n, levels), lmin, lmax, n, levels)
  {
    hide IsMaximum, ListsLevels, Shift, AllGrids, SchemeDictionary, FinestAreOverwritten, Keys, IsActive;
    var d := SchemeDictionary(lmin, lmax, n, levels);
    DictionaryKeys(lmin, lmax, n, levels);
    forall k | k in Keys(d)
      ensures Leq(lmin, k) && LevelSum(k) <= n - Shift(lmin, lmax, n)
    {
      AllGridsAre(lmin, lmax, n, levels, k);
    }
    forall k | Leq(lmin, k) && LevelSum(k) == n - Shift(lmin, lmax, n)
      ensures exists e :: IsActive(d, e) && e.key == k
    {
      FinestIsActive(lmin, lmax, n, levels, k);
    }
  }

  lemma SchemeIsGiven(given: Dict, lmin: Level, lmax: Level, n: int, levels: seq<Level>)
    requires lmin != [] && IsDict(given, |lmin|) && HoldsScheme(given, lmin, lmax, n, levels)
    ensures IsGiven(given, lmin, lmax)
  {
    hide ListsLevels, Shift, AllGrids, Keys, IsActive, LevelSum, IsMaximum, IsDict;
    forall k | k in Keys(given)
      ensures Leq(lmin, k) && Leq(k, lmax) && exists e :: IsActive(given, e) && Leq(k, e.key)
    {
      InsideBox(lmin, lmax, n, k);
      BelowFinest(given, lmin, n - Shift(lmin, lmax, n), k);
    }
  }

  lemma OverwrittenIsNotGiven(lmin: Level, lmax: Level, n: int, levels: seq<Level>)
    requires lmin != [] && IsInput(lmin, lmax, n) && ListsLevels(levels, lmax, n - LevelSum(lmin))
    requires FinestAreOverwritten(lmin, lmax, n)
    ensures !LiesBelowActive(SchemeDictionary(lmin, lmax, n, levels), lmin, lmax)
  {
    hide IsMaximum, ListsLevels, Shift, Coefficient, AllGrids, SchemeDictionary, EffectiveDim, ExtraSpaces, Keys,
      IsDict;
    var d := SchemeDictionary(lmin, lmax, n, levels);
    var l := LevelOfSum(lmin, n - Shift(lmin, lmax, n));
    AllGridsAre(lmin, lmax, n, levels, l);
    ExtraGridsAre(lmin, lmax, n, levels, l);
    DictionaryKeys(lmin, lmax, n, levels);
    DictionaryValue(lmin, lmax, n, levels, l);
    if e :| IsActive(d, e) && Leq(l, e.key) {
      EntryOfKey(d, e.key);
      AllGridsAre(lmin, lmax, n, levels, e.key);
      ValueOfEntry(d, |lmin|, e);
      if e.key != l {
        LargerSum(l, e.key);
      }
    }
  }

  /** The optimisation can deal with the dictionary of a fault tolerant scheme if and only if no extra diagonal is the
      finest of the scheme. */
  lemma DictionaryIsGiven(lmin: Level, lmax: Level, n: int, levels: seq<Level>)
    requires lmin != [] && IsInput(lmin, lmax, n) && ListsLevels(levels, lmax, n - LevelSum(lmin))
    ensures IsGiven(SchemeDictionary(lmin, lmax, n, levels), lmin, lmax) <==> !FinestAreOverwritten(lmin, lmax, n)
  {
    hide IsMaximum, ListsLevels, SchemeDictionary, FinestAreOverwritten, HoldsScheme, LiesBelowActive;
    if FinestAreOverwritten(lmin, lmax, n) {
      OverwrittenIsNotGiven(lmin, lmax, n, levels);
    } else {
      DictionaryKeys(lmin, lmax, n, levels);
      DictionaryHoldsScheme(lmin, lmax, n, levels);
      SchemeIsGiven(SchemeDictionary(lmin, lmax, n, levels), lmin, lmax, n, levels);
    }
  }

  /** The coefficients that a recovery can leave: those of the scheme if nothing relevant failed, or else those of a
      best solution for some faults, if the optimisation can deal with the scheme at all. */
  ghost predicate CanLeave(lmin: Level, lmax: Level, n: int, levels: seq<Level>, left: seq<real>)
    requires |lmin| == |lmax| > 0
  {
    var grids := AllGrids(lmin, lmax, n, levels);
    left == AllCoefficients(lmin, lmax, n, levels)
    || (IsGiven(SchemeDictionary(lmin, lmax, n, levels), lmin, lmax)
        && exists faults, w :: RecoversFrom(left, Selected(lmin, n, levels), grids, FinestSum(lmin, lmax), faults, w))
  }

  /** Whatever a recovery has left, the tasks count the scheme after it has been restored. */
  ghost predicate IsAlwaysRestored(lmin: Level, lmax: Level, n: int, levels: seq<Level>)
    requires |lmin| == |lmax| > 0
  {
    forall left :: CanLeave(lmin, lmax, n, levels, left) && |left| == |AllGrids(lmin, lmax, n, levels)| ==>
      CountsScheme(lmin, lmax, n, AllGrids(lmin, lmax, n, levels),
                   RestoredCoefficients(AllGrids(lmin, lmax, n, levels), left, AllCoefficients(lmin, lmax, n, levels)))
  }

  /** When a recovery leaves traces: the extra diagonals meet those of the scheme below its finest one, and some grid
      lies on a diagonal on which faults are looked for. */
  predicate LeavesTraces(lmin: Level, lmax: Level, n: int)
    requires |lmin| == |lmax| > 0
  {
    var e, c, shift := EffectiveDim(lmin, lmax), n - LevelSum(lmin), Shift(lmin, lmax, n);
    0 < shift < e <= c && Gap(lmin, lmax, n) <= 1
  }

  lemma NothingIsLeft(lmin: Level, lmax: Level, n: int, levels: seq<Level>, left: seq<real>)
    requires lmin != [] && IsInput(lmin, lmax, n) && ListsLevels(levels, lmax, n - LevelSum(lmin))
    requires CanLeave(lmin, lmax, n, levels, left) && DiagonalsMeet(lmin, lmax, n) && !LeavesTraces(lmin, lmax, n)
    ensures left == AllCoefficients(lmin, lmax, n, levels)
  {
    hide IsMaximum, ListsLevels, AllGrids, AllCoefficients, SchemeDictionary, IsGiven, EffectiveDim, Dot,
      IsMaximalSolution, Shift, Gap, FinestSum;
    DictionaryIsGiven(lmin, lmax, n, levels);
    NoShiftMeansAllDiffer(lmin, lmax, n);
    if faults, w :| !FinestAreOverwritten(lmin, lmax, n)
                    && RecoversFrom(left, Selected(lmin, n, levels), AllGrids(lmin, lmax, n, levels),
                                    FinestSum(lmin, lmax), faults, w) {
      FinestSumIs(lmin, lmax, n);
      SelectedIsSimplex(lmin, lmax, n, levels);
      assert faults[0] in faults && faults[0] in Elements(Selected(lmin, n, levels));
    }
  }

  /** l with its first q entries increased by one. */
  lemma {:induction false} RaisedLevel(l: Level, q: nat) returns (h: Level)
    requires q <= |l|
    ensures Adjacent(l, h) && Leq(l, h) && LevelSum(h) == LevelSum(l) + q
  {
    if q == 0 {
      h := l;
    } else {
      var n := |l| - 1;
      var front := RaisedLevel(l[..n], q - 1);
      h := front + [l[n] + 1];
      assert h[..n] == front;
    }
  }

  lemma {:induction false} CountIsLocal(grids: seq<Level>, a: seq<real>, b: seq<real>, k: Level)
    requires |a| == |b| == |grids| && forall j :: 0 <= j < |grids| && Leq(k, grids[j]) ==> a[j] == b[j]
    ensures TimesCounted(grids, a, k) == TimesCounted(grids, b, k)
  {
    if grids != [] {
      CountIsLocal(grids[..|grids| - 1], a[..|a| - 1], b[..|b| - 1], k);
    }
  }

  /** A repeated grid l, on the finest diagonal that is repeated, and a neighbour h of l on the finest diagonal of
      all. */
  lemma TracedGrid(lmin: Level, lmax: Level, n: int, levels: seq<Level>) returns (l: Level, h: Level)
    requires lmin != [] && IsInput(lmin, lmax, n) && ListsLevels(levels, lmax, n - LevelSum(lmin))
             && LeavesTraces(lmin, lmax, n)
    ensures l in KeptGrids(lmin, n, levels) && LevelSum(l) == n - EffectiveDim(lmin, lmax)
            && l in ExtraGrids(lmin, lmax, n, levels)
    ensures Leq(lmin, h) && Adjacent(l, h) && LevelSum(h) == n - Shift(lmin, lmax, n)
  {
    hide IsMaximum, ListsLevels, EffectiveDim, Shift, Gap, KeptGrids, ExtraSpaces, LevelSum;
    var e := EffectiveDim(lmin, lmax);
    NoShiftMeansAllDiffer(lmin, lmax, n);
    l := LevelOfSum(lmin, n - e);
    KeptGridsAre(lmin, lmax, n, levels, l);
    ExtraGridsAre(lmin, lmax, n, levels, l);
    h := RaisedLevel(l, e - Shift(lmin, lmax, n));
  }

  /** The failure of one grid h on the finest diagonal. */
  lemma OneFault(lmin: Level, lmax: Level, n: int, levels: seq<Level>, h: Level) returns (left: seq<real>)
    requires lmin != [] && IsInput(lmin, lmax, n) && ListsLevels(levels, lmax, n - LevelSum(lmin))
             && LeavesTraces(lmin, lmax, n)
    requires Leq(lmin, h) && LevelSum(h) == n - Shift(lmin, lmax, n)
    ensures |left| == |AllGrids(lmin, lmax, n, levels)| && CanLeave(lmin, lmax, n, levels, left)
    ensures var keys := Selected(lmin, n, levels);
            forall i :: 0 <= i < |left| ==>
              left[i] == Dot(RowOf(keys, AllGrids(lmin, lmax, n, levels)[i]), Others(keys, KeysAbove(keys, h)))
  {
    hide IsMaximum, ListsLevels, EffectiveDim, Shift, Gap, AllGrids, AllCoefficients, SchemeDictionary, IsGiven, Dot,
      RowOf, Others, IsMaximalSolution, FinestSum, Distinct, KeysAbove, ObjectiveOf;
    var keys, grids := Selected(lmin, n, levels), AllGrids(lmin, lmax, n, levels);
    var faults := KeysAbove(keys, h);
    left := seq(|grids|, i requires 0 <= i < |grids| => Dot(RowOf(keys, grids[i]), Others(keys, faults)));
    DictionaryIsGiven(lmin, lmax, n, levels);
    FaultOfFinest(lmin, lmax, n, levels, h);
    assert RecoversFrom(left, keys, grids, FinestSum(lmin, lmax), faults, Others(keys, faults));
  }

  lemma FaultOfFinest(lmin: Level, lmax: Level, n: int, levels: seq<Level>, h: Level)
    requires lmin != [] && IsInput(lmin, lmax, n) && ListsLevels(levels, lmax, n - LevelSum(lmin))
             && Gap(lmin, lmax, n) <= 1
    requires Leq(lmin, h) && LevelSum(h) == n - Shift(lmin, lmax, n)
    ensures var keys := Selected(lmin, n, levels);
            var faults := KeysAbove(keys, h);
            && h in keys && faults != [] && (forall k :: k in faults <==> k == h)
            && MayFail(keys, AllGrids(lmin, lmax, n, levels), FinestSum(lmin, lmax), faults)
            && IsMaximalSolution(keys, faults, ObjectiveOf(keys), Others(keys, faults))
  {
    hide IsMaximum, ListsLevels, EffectiveDim, Shift, Gap, AllGrids, Dot, RowOf, Others, IsMaximalSolution, FinestSum,
      Distinct, ObjectiveOf, KeysAbove;
    var keys, m := Selected(lmin, n, levels), n - Shift(lmin, lmax, n);
    var faults := KeysAbove(keys, h);
    SelectedIsSimplex(lmin, lmax, n, levels);
    SelectedIsDistinct(lmin, lmax, n, levels);
    assert h in Elements(keys);
    forall k | k in keys
      ensures LevelSum(k) <= m && (Leq(h, k) ==> k == h)
    {
      assert k in Elements(keys);
      if Leq(h, k) && k != h {
        LargerSum(h, k);
      }
    }
    assert h in faults;
    FinestSumIs(lmin, lmax, n);
    AllGridsAre(lmin, lmax, n, levels, h);
    OthersAreMaximal(keys, faults, ObjectiveOf(keys), m);
  }

  /** The failure of grid h changes the coefficient of grid l. */
  lemma CoefficientChanges(lmin: Level, lmax: Level, n: int, levels: seq<Level>, l: Level, h: Level)
    requires lmin != [] && IsInput(lmin, lmax, n) && ListsLevels(levels, lmax, n - LevelSum(lmin))
             && Gap(lmin, lmax, n) <= 1
    requires Leq(lmin, h) && LevelSum(h) == n - Shift(lmin, lmax, n) && Adjacent(l, h)
    ensures var keys := Selected(lmin, n, levels);
            Dot(RowOf(keys, l), Others(keys, KeysAbove(keys, h))) != Coefficient(Elements(keys), One(), l)
  {
    hide IsMaximum, ListsLevels, Shift, Gap, AllGrids, Dot, RowOf, Others, Coefficient, IsMaximalSolution, Distinct,
      KeysAbove;
    var keys, m := Selected(lmin, n, levels), n - Shift(lmin, lmax, n);
    FaultOfFinest(lmin, lmax, n, levels, h);
    SelectedIsSimplex(lmin, lmax, n, levels);
    SelectedIsDistinct(lmin, lmax, n, levels);
    forall k | k in keys
      ensures LevelSum(k) <= m && (Leq(h, k) ==> k in KeysAbove(keys, h))
    {
      assert k in Elements(keys);
    }
    AdaptiveWithoutFaults(keys, m, l);
    NeighbourMatters(keys, l, h);
  }

  /** Only one position whose coefficient is not set again is that of a grid above l. */
  lemma OnlyOneIsKept(lmin: Level, lmax: Level, n: int, levels: seq<Level>, i: nat, j: nat)
    requires lmin != [] && IsInput(lmin, lmax, n) && ListsLevels(levels, lmax, n - LevelSum(lmin))
    requires i < |KeptGrids(lmin, n, levels)| && LevelSum(KeptGrids(lmin, n, levels)[i]) == n - EffectiveDim(lmin, lmax)
    requires j < |AllGrids(lmin, lmax, n, levels)| && !IsLast(AllGrids(lmin, lmax, n, levels), j)
    requires Leq(KeptGrids(lmin, n, levels)[i], AllGrids(lmin, lmax, n, levels)[j])
    ensures j == i
  {
    hide IsMaximum, ListsLevels, EffectiveDim, Shift, KeptGrids, ExtraSpaces, LevelSum;
    var l, k := KeptGrids(lmin, n, levels)[i], AllGrids(lmin, lmax, n, levels)[j];
    NotLastMeansRepeated(lmin, lmax, n, levels, j);
    ExtraGridsAre(lmin, lmax, n, levels, k);
    if k != l {
      LargerSum(l, k);
    }
    PartsAreDistinct(lmin, lmax, n, levels);
  }

  lemma TracesCount(lmin: Level, lmax: Level, n: int, levels: seq<Level>, left: seq<real>, i: nat)
    requires lmin != [] && IsInput(lmin, lmax, n) && ListsLevels(levels, lmax, n - LevelSum(lmin))
    requires |left| == |AllGrids(lmin, lmax, n, levels)| && i < |KeptGrids(lmin, n, levels)|
    requires LevelSum(KeptGrids(lmin, n, levels)[i]) == n - EffectiveDim(lmin, lmax)
    requires KeptGrids(lmin, n, levels)[i] in ExtraGrids(lmin, lmax, n, levels)
    requires left[i] != AllCoefficients(lmin, lmax, n, levels)[i]
    ensures !CountsScheme(lmin, lmax, n, AllGrids(lmin, lmax, n, levels),
                          RestoredCoefficients(AllGrids(lmin, lmax, n, levels), left,
                                               AllCoefficients(lmin, lmax, n, levels)))
  {
    hide IsMaximum, ListsLevels, EffectiveDim, Shift, KeptGrids, ExtraGrids, LevelSum, InScheme, IsLast,
      AllCoefficients;
    var grids, c := AllGrids(lmin, lmax, n, levels), AllCoefficients(lmin, lmax, n, levels);
    var r, l := RestoredCoefficients(grids, left, c), KeptGrids(lmin, n, levels)[i];
    assert grids[i] == l;
    AllGridsCount(lmin, lmax, n, levels);
    DictionaryKeys(lmin, lmax, n, levels);
    NotLastMeansRepeated(lmin, lmax, n, levels, i);
    forall j | 0 <= j < |grids| && Leq(l, grids[j])
      ensures r[j] == c[i := left[i]][j]
    {
      if !IsLast(grids, j) {
        OnlyOneIsKept(lmin, lmax, n, levels, i, j);
      }
    }
    CountIsLocal(grids, r, c[i := left[i]], l);
    CountOfUpdate(grids, c, i, left[i], l);
    assert grids[i] in grids;
  }

  lemma TracesAreLeft(lmin: Level, lmax: Level, n: int, levels: seq<Level>)
    requires lmin != [] && IsInput(lmin, lmax, n) && ListsLevels(levels, lmax, n - LevelSum(lmin))
             && LeavesTraces(lmin, lmax, n)
    ensures !IsAlwaysRestored(lmin, lmax, n, levels)
  {
    hide IsMaximum, ListsLevels, EffectiveDim, Shift, Gap, KeptGrids, ExtraGrids, AllCoefficients, CountsScheme,
      CanLeave, Dot, RowOf, Others, KeysAbove, RestoredCoefficients, Coefficient;
    var l, h := TracedGrid(lmin, lmax, n, levels);
    var i :| 0 <= i < |KeptGrids(lmin, n, levels)| && KeptGrids(lmin, n, levels)[i] == l;
    var left := OneFault(lmin, lmax, n, levels, h);
    CoefficientAtPosition(lmin, lmax, n, levels, i);
    CoefficientChanges(lmin, lmax, n, levels, l, h);
    TracesCount(lmin, lmax, n, levels, left, i);
  }

  /** Setting the coefficients of the scheme level by level restores it after every recovery if and only if the extra
      diagonals do not meet those of the scheme below its finest one, or no fault is looked at.  Otherwise the failure
      of a single grid on the finest diagonal changes the coefficient of a grid that has two tasks, and the first task
      keeps it. */
  lemma RestoringIsExact(lmin: Level, lmax: Level, n: int, levels: seq<Level>)
    requires lmin != [] && IsInput(lmin, lmax, n) && ListsLevels(levels, lmax, n - LevelSum(lmin))
    ensures IsAlwaysRestored(lmin, lmax, n, levels) <==> !LeavesTraces(lmin, lmax, n)
  {
    hide IsMaximum, ListsLevels, Shift, Gap, AllGrids, AllCoefficients, CountsScheme, CanLeave, RestoredCoefficients,
      DiagonalsMeet;
    var grids, c := AllGrids(lmin, lmax, n, levels), AllCoefficients(lmin, lmax, n, levels);
    if LeavesTraces(lmin, lmax, n) {
      TracesAreLeft(lmin, lmax, n, levels);
    } else {
      forall left | CanLeave(lmin, lmax, n, levels, left) && |left| == |grids|
        ensures CountsScheme(lmin, lmax, n, grids, RestoredCoefficients(grids, left, c))
      {
        IsRestored(lmin, lmax, n, levels, left);
      }
    }
  }

  lemma IsRestored(lmin: Level, lmax: Level, n: int, levels: seq<Level>, left: seq<real>)
    requires lmin != [] && IsInput(lmin, lmax, n) && ListsLevels(levels, lmax, n - LevelSum(lmin))
             && !LeavesTraces(lmin, lmax, n)
    requires CanLeave(lmin, lmax, n, levels, left) && |left| == |AllGrids(lmin, lmax, n, levels)|
    ensures CountsScheme(lmin, lmax, n, AllGrids(lmin, lmax, n, levels),
                         RestoredCoefficients(AllGrids(lmin, lmax, n, levels), left,
                                              AllCoefficients(lmin, lmax, n, levels)))
  {
    hide AllGrids, AllCoefficients, CountsScheme, RestoredCoefficients, CanLeave, DiagonalsMeet, LeavesTraces,
      ListsLevels, IsMaximum, Distinct, LevelSum, Shift;
    var grids, c := AllGrids(lmin, lmax, n, levels), AllCoefficients(lmin, lmax, n, levels);
    AllGridsCount(lmin, lmax, n, levels);
    GridsAreDistinct(lmin, lmax, n, levels);
    if DiagonalsMeet(lmin, lmax, n) {
      NothingIsLeft(lmin, lmax, n, levels, left);
      RestoredAgain(grids, c, c);
    } else {
      DistinctIsRestored(grids, left, c);
    }
  }

  /** The process manager knows a fault tolerant scheme: its grids with their tasks, the dictionary of its coefficients,
      and the coefficients of the scheme for all tasks that are set when it is restored. */
  ghost predicate KnowsScheme(params: CombiParameters, lmin: Level, lmax: Level, n: int, levels: seq<Level>)
    requires |lmin| == |lmax| > 0
    reads params
  {
    && levels != [] && params.Describes(AllGrids(lmin, lmax, n, levels), |lmin|)
    && params.combiDictionary == SchemeDictionary(lmin, lmax, n, levels)
    && HasTraces(TaskCoefficients(params.coeffs, |AllGrids(lmin, lmax, n, levels)|), lmin, lmax, n, levels)
  }

  /** The coefficients of the tasks are those of the scheme, up to what some earlier recovery has left. */
  ghost predicate HasTraces(c: seq<real>, lmin: Level, lmax: Level, n: int, levels: seq<Level>)
    requires |lmin| == |lmax| > 0
  {
    exists left :: |left| == |AllGrids(lmin, lmax, n, levels)| && CanLeave(lmin, lmax, n, levels, left)
                   && c == RestoredCoefficients(AllGrids(lmin, lmax, n, levels), left,
                                                AllCoefficients(lmin, lmax, n, levels))
  }

  lemma NoTracesYet(lmin: Level, lmax: Level, n: int, levels: seq<Level>)
    requires |lmin| == |lmax| > 0
    ensures HasTraces(AllCoefficients(lmin, lmax, n, levels), lmin, lmax, n, levels)
  {
    hide RestoredCoefficients, AllGrids, AllCoefficients;
    var c := AllCoefficients(lmin, lmax, n, levels);
    RestoredAgain(AllGrids(lmin, lmax, n, levels), c, c);
    assert CanLeave(lmin, lmax, n, levels, c);
  }

  /** Creates the scheme and a task for every grid. */
  method CreateScheme(dim: nat, lmin: Level, lmax: Level)
    returns (ok: bool, params: CombiParameters, ghost n: int, ghost levels: seq<Level>)
    requires dim > 0 && |lmin| == |lmax| == dim && Leq(lmin, lmax) && forall i :: 0 <= i < dim ==> lmin[i] > 0
    ensures fresh(params) && IsInput(lmin, lmax, n) && ListsLevels(levels, lmax, n - LevelSum(lmin))
            && (ok <==> levels != [])
    ensures ok ==> KnowsScheme(params, lmin, lmax, n, levels)
  {
    hide HasTraces, AllGrids, AllCoefficients, ListsLevels, IsMaximum, IsDict, AreTasks, AssignAll, Keys;
    var spaces, coefficients;
    ok, spaces, coefficients, n, levels := CreateFaultTolerantScheme(dim, lmin, lmax);
    if ok {
      DictionaryKeys(lmin, lmax, n, levels);
      NoTracesYet(lmin, lmax, n, levels);
      params := CreateParameters(spaces, coefficients, dim);
    } else {
      params := new CombiParameters();
    }
  }

  /** The input determines the levels. */
  lemma SchemeIsUnique(lmin: Level, lmax: Level, n: int, levels: seq<Level>, other: int, others: seq<Level>)
    requires IsInput(lmin, lmax, n) && ListsLevels(levels, lmax, n - LevelSum(lmin))
    requires IsInput(lmin, lmax, other) && ListsLevels(others, lmax, other - LevelSum(lmin))
    ensures n == other && levels == others
  {
    hide Sorted, IsLevel;
    SortedAreEqual(levels, others);
  }

  /** Restores the scheme when the tasks have the coefficients `before`. */
  method RestoreScheme(params: CombiParameters, dim: nat, lmin: Level, lmax: Level, ghost n: int,
                       ghost levels: seq<Level>, ghost before: seq<real>)
    requires dim > 0 && |lmin| == |lmax| == dim && IsInput(lmin, lmax, n)
             && ListsLevels(levels, lmax, n - LevelSum(lmin))
    requires levels != [] && params.Describes(AllGrids(lmin, lmax, n, levels), dim)
    requires before == TaskCoefficients(params.coeffs, |AllGrids(lmin, lmax, n, levels)|)
    modifies params`coeffs, params`combiDictionary
    ensures params.Describes(AllGrids(lmin, lmax, n, levels), dim)
    ensures params.combiDictionary == SchemeDictionary(lmin, lmax, n, levels)
    ensures TaskCoefficients(params.coeffs, |AllGrids(lmin, lmax, n, levels)|)
            == RestoredCoefficients(AllGrids(lmin, lmax, n, levels), before, AllCoefficients(lmin, lmax, n, levels))
  {
    hide AllGrids, AllCoefficients, ListsLevels, IsMaximum, IsDict, AssignAll, Keys, SetAgain, LevelsOf,
      RestoredCoefficients;
    ghost var grids, c, d := AllGrids(lmin, lmax, n, levels), AllCoefficients(lmin, lmax, n, levels),
      params.combiDictionary;
    forall other, others | IsInput(lmin, lmax, other) && ListsLevels(others, lmax, other - LevelSum(lmin))
      ensures params.Knows(AllGrids(lmin, lmax, other, others))
    {
      SchemeIsUnique(lmin, lmax, n, levels, other, others);
    }
    TasksAreRestored(params.levels, params.levelsToIDs, params.coeffs, grids, c);
    var ok, other, others := RestoreCombischeme(params, dim, lmin, lmax);
    SchemeIsUnique(lmin, lmax, n, levels, other, others);
    DictionaryKeys(lmin, lmax, n, levels);
    AssignAgain(d, dim, grids, c);
  }

  /** No grid that failed is used if it is looked at. */
  ghost predicate AvoidsFailed(lmin: Level, lmax: Level, grids: seq<Level>, failed: seq<Level>, c: seq<real>)
    requires |lmin| == |lmax| > 0
  {
    |c| == |grids|
    && forall i :: 0 <= i < |grids| && grids[i] in failed && IsLookedAt(lmin, lmax, grids[i]) ==> c[i] == 0.0
  }

  /** What the coefficients c are worth with which the grids are combined after some have failed: no grid that failed
      is used if it is looked at, and if none is, the scheme is counted, unless a recovery leaves traces.  Otherwise
      what the failed grids leave is counted, if the grids are enough and none has two tasks. */
  ghost predicate CombinesWell(lmin: Level, lmax: Level, n: int, levels: seq<Level>, failed: seq<Level>, c: seq<real>)
    requires |lmin| == |lmax| > 0
  {
    var grids, m, finest := AllGrids(lmin, lmax, n, levels), n - Shift(lmin, lmax, n), FinestSum(lmin, lmax);
    && AvoidsFailed(lmin, lmax, grids, failed, c)
    && if exists f :: f in failed && f in grids && IsLookedAt(lmin, lmax, f)
       then AreEnough(lmin, lmax, n) && !DiagonalsMeet(lmin, lmax, n) ==> CountsMost(grids, c, lmin, m, finest)
       else !LeavesTraces(lmin, lmax, n) ==> CountsScheme(lmin, lmax, n, grids, c)
  }

  lemma CombinedUnchanged(lmin: Level, lmax: Level, n: int, levels: seq<Level>, failed: seq<Level>, c: seq<real>)
    requires lmin != [] && IsInput(lmin, lmax, n) && ListsLevels(levels, lmax, n - LevelSum(lmin))
    requires HasTraces(c, lmin, lmax, n, levels)
    requires forall f :: f in failed && f in AllGrids(lmin, lmax, n, levels) ==> !IsLookedAt(lmin, lmax, f)
    ensures CombinesWell(lmin, lmax, n, levels, failed, c)
    ensures HasTraces(RestoredCoefficients(AllGrids(lmin, lmax, n, levels), c, AllCoefficients(lmin, lmax, n, levels)),
                      lmin, lmax, n, levels)
  {
    hide IsMaximum, ListsLevels, AllGrids, AllCoefficients, LeavesTraces, CanLeave, CountsScheme, RestoredCoefficients,
      Shift, FinestSum, IsLookedAt;
    var grids, all := AllGrids(lmin, lmax, n, levels), AllCoefficients(lmin, lmax, n, levels);
    var left :| |left| == |grids| && CanLeave(lmin, lmax, n, levels, left)
      && c == RestoredCoefficients(grids, left, all);
    RestoredAgain(grids, left, all);
    if !LeavesTraces(lmin, lmax, n) {
      IsRestored(lmin, lmax, n, levels, left);
    }
    forall i | 0 <= i < |grids|
      ensures grids[i] in grids
    {
    }
  }

  /** Without two tasks for one grid, the tasks count like the recovered grids. */
  lemma TasksCountMost(lmin: Level, lmax: Level, n: int, levels: seq<Level>, newDict: Dict, m: int, finest: int)
    requires lmin != [] && IsInput(lmin, lmax, n) && ListsLevels(levels, lmax, n - LevelSum(lmin))
             && !DiagonalsMeet(lmin, lmax, n)
    requires IsDict(newDict, |lmin|) && forall l :: l in Keys(newDict) <==> l in AllGrids(lmin, lmax, n, levels)
    requires CountsMost(Keys(newDict), Values(newDict), lmin, m, finest)
    ensures var grids := AllGrids(lmin, lmax, n, levels);
            CountsMost(grids, CoefficientsIn(newDict, grids), lmin, m, finest)
  {
    hide IsMaximum, ListsLevels, AllGrids, Keys, Values, CoefficientsIn, DiagonalsMeet, IsDict, Distinct, TotalOf;
    var grids := AllGrids(lmin, lmax, n, levels);
    var c := CoefficientsIn(newDict, grids);
    GridsAreDistinct(lmin, lmax, n, levels);
    forall k
      ensures TimesCounted(grids, c, k) == TimesCounted(Keys(newDict), Values(newDict), k)
    {
      DistinctTasksCount(grids, newDict, |lmin|, k);
    }
    if LevelSum(lmin) <= m && LevelSum(lmin) <= finest - 2 {
      forall l | l in grids
        ensures Leq(lmin, l)
      {
        AllGridsAre(lmin, lmax, n, levels, l);
      }
      TotalIsCount(grids, c, lmin);
    }
  }

  /** The relevant faults are the failed grids that are looked at. */
  lemma RelevantAreLookedAt(lmin: Level, lmax: Level, given: Dict, relevant: seq<Level>, failed: seq<Level>, f: Level)
    requires |lmin| == |lmax| > 0 && AreRelevant(relevant, given, lmin, lmax, failed)
    ensures f in relevant <==> f in failed && f in Keys(given) && IsLookedAt(lmin, lmax, f)
  {
    EntryOfKey(given, f);
  }

  lemma RecoveredIsLeft(lmin: Level, lmax: Level, n: int, levels: seq<Level>, relevant: seq<Level>, newDict: Dict)
    requires |lmin| == |lmax| > 0 && IsGiven(SchemeDictionary(lmin, lmax, n, levels), lmin, lmax)
    requires RecoversScheme(newDict, lmin, lmax, n, levels, relevant)
    ensures CanLeave(lmin, lmax, n, levels, CoefficientsIn(newDict, AllGrids(lmin, lmax, n, levels)))
  {
    hide AllGrids, AllCoefficients, IsGiven, SchemeDictionary, RecoversFrom, CoefficientsIn, Selected, FinestSum,
      AreEnough, CountsMost, Shift, Values, Keys;
  }

  lemma FailedAreZero(lmin: Level, lmax: Level, newDict: Dict, grids: seq<Level>, relevant: seq<Level>,
                      failed: seq<Level>)
    requires |lmin| == |lmax| > 0 && AvoidsFaults(newDict, relevant) && forall l :: l in Keys(newDict) <==> l in grids
    requires forall f :: f in relevant <==> f in failed && f in grids && IsLookedAt(lmin, lmax, f)
    ensures AvoidsFailed(lmin, lmax, grids, failed, CoefficientsIn(newDict, grids))
  {
    hide IsLookedAt;
    forall i | 0 <= i < |grids| && grids[i] in failed && IsLookedAt(lmin, lmax, grids[i])
      ensures CoefficientsIn(newDict, grids)[i] == 0.0
    {
      assert grids[i] in grids;
      EntryOfKey(newDict, grids[i]);
      assert newDict[Find(newDict, grids[i])].key == grids[i];
    }
  }

  lemma CombinesWellAfter(lmin: Level, lmax: Level, n: int, levels: seq<Level>, failed: seq<Level>, c: seq<real>,
                          f: Level)
    requires |lmin| == |lmax| > 0 && AvoidsFailed(lmin, lmax, AllGrids(lmin, lmax, n, levels), failed, c)
    requires f in failed && f in AllGrids(lmin, lmax, n, levels) && IsLookedAt(lmin, lmax, f)
    requires AreEnough(lmin, lmax, n) && !DiagonalsMeet(lmin, lmax, n) ==>
               CountsMost(AllGrids(lmin, lmax, n, levels), c, lmin, n - Shift(lmin, lmax, n), FinestSum(lmin, lmax))
    ensures CombinesWell(lmin, lmax, n, levels, failed, c)
  {
    hide AllGrids, AreEnough, DiagonalsMeet, CountsMost, LeavesTraces, CountsScheme, IsLookedAt, Shift, FinestSum;
  }

  lemma RecoveredCountMost(lmin: Level, lmax: Level, n: int, levels: seq<Level>, relevant: seq<Level>, newDict: Dict)
    requires |lmin| == |lmax| > 0 && RecoversScheme(newDict, lmin, lmax, n, levels, relevant)
             && AreEnough(lmin, lmax, n)
    ensures CountsMost(Keys(newDict), Values(newDict), lmin, n - Shift(lmin, lmax, n), FinestSum(lmin, lmax))
  {
    hide AreEnough, CountsMost, AllGrids, RecoversFrom, Shift, FinestSum, Values, Keys, CoefficientsIn, Selected;
  }

  lemma LeftIsTraced(lmin: Level, lmax: Level, n: int, levels: seq<Level>, left: seq<real>)
    requires |lmin| == |lmax| > 0 && |left| == |AllGrids(lmin, lmax, n, levels)|
             && CanLeave(lmin, lmax, n, levels, left)
    ensures HasTraces(RestoredCoefficients(AllGrids(lmin, lmax, n, levels), left,
                                           AllCoefficients(lmin, lmax, n, levels)), lmin, lmax, n, levels)
  {
    hide CanLeave, AllGrids, AllCoefficients, RestoredCoefficients;
  }

  lemma CombinedAfterFaults(lmin: Level, lmax: Level, n: int, levels: seq<Level>, failed: seq<Level>,
                            relevant: seq<Level>, newDict: Dict)
    requires |lmin| == |lmax| > 0 && IsInput(lmin, lmax, n) && ListsLevels(levels, lmax, n - LevelSum(lmin))
    requires relevant != []
    requires IsDict(newDict, |lmin|) && forall l :: l in Keys(newDict) <==> l in AllGrids(lmin, lmax, n, levels)
    requires AvoidsFaults(newDict, relevant) && RecoversScheme(newDict, lmin, lmax, n, levels, relevant)
    requires forall f :: f in relevant <==>
               f in failed && f in AllGrids(lmin, lmax, n, levels) && IsLookedAt(lmin, lmax, f)
    ensures CombinesWell(lmin, lmax, n, levels, failed, CoefficientsIn(newDict, AllGrids(lmin, lmax, n, levels)))
  {
    hide *;
    var grids := AllGrids(lmin, lmax, n, levels);
    var c, f := CoefficientsIn(newDict, grids), relevant[0];
    assert f in relevant;
    FailedAreZero(lmin, lmax, newDict, grids, relevant, failed);
    if AreEnough(lmin, lmax, n) && !DiagonalsMeet(lmin, lmax, n) {
      RecoveredCountMost(lmin, lmax, n, levels, relevant, newDict);
      TasksCountMost(lmin, lmax, n, levels, newDict, n - Shift(lmin, lmax, n), FinestSum(lmin, lmax));
    }
    CombinesWellAfter(lmin, lmax, n, levels, failed, c, f);
  }

  /** One combination after some grids have failed: the coefficients are recomputed before and restored after. */
  method CombineAfterFaults(params: CombiParameters, dim: nat, lmin: Level, lmax: Level, failed: seq<Level>,
                            solver: Solver, ghost n: int, ghost levels: seq<Level>)
    returns (c: seq<real>)
    requires dim > 0 && |lmin| == |lmax| == dim && IsInput(lmin, lmax, n)
             && ListsLevels(levels, lmax, n - LevelSum(lmin))
    requires KnowsScheme(params, lmin, lmax, n, levels) && !FinestAreOverwritten(lmin, lmax, n) && FindsOptimum(solver)
    modifies params
    ensures KnowsScheme(params, lmin, lmax, n, levels) && CombinesWell(lmin, lmax, n, levels, failed, c)
  {
    hide HasTraces, AllGrids, AllCoefficients, SchemeDictionary, ListsLevels, IsMaximum, FindsOptimum, IsDict, Keys,
      IsLast, CombinesWell, RestoredCoefficients, TaskCoefficients, CoefficientsIn, CanLeave, IsGiven, HoldsScheme,
      AvoidsFaults, FinestAreOverwritten, AreRelevant, RecoversScheme, IsLookedAt, LevelSum, CombiParameters.Knows;
    ghost var grids, d := AllGrids(lmin, lmax, n, levels), params.combiDictionary;
    DictionaryIsGiven(lmin, lmax, n, levels);
    DictionaryHoldsScheme(lmin, lmax, n, levels);
    var newDict, recomputed;
    ghost var relevant;
    newDict, recomputed, relevant := RecomputeOptimumCoefficients(params, grids, lmin, lmax, failed, solver);
    CountOfTasks(params.levels, params.levelsToIDs, params.coeffs, grids);
    c := TaskCoefficients(params.coeffs, |params.levels|);
    RestoreScheme(params, dim, lmin, lmax, n, levels, c);
    forall f
      ensures f in relevant <==> f in failed && f in grids && IsLookedAt(lmin, lmax, f)
    {
      RelevantAreLookedAt(lmin, lmax, d, relevant, failed, f);
    }
    if recomputed {
      CombinedAfterFaults(lmin, lmax, n, levels, failed, relevant, newDict);
      RecoveredIsLeft(lmin, lmax, n, levels, relevant, newDict);
      LeftIsTraced(lmin, lmax, n, levels, c);
    } else {
      CombinedUnchanged(lmin, lmax, n, levels, failed, c);
    }
  }

  /** One combination without faults. */
  method CombineGrids(params: CombiParameters, ghost lmin: Level, ghost lmax: Level, ghost n: int,
                      ghost levels: seq<Level>)
    returns (c: seq<real>)
    requires lmin != [] && IsInput(lmin, lmax, n) && ListsLevels(levels, lmax, n - LevelSum(lmin))
    requires KnowsScheme(params, lmin, lmax, n, levels)
    ensures CombinesWell(lmin, lmax, n, levels, [], c)
  {
    hide HasTraces, AllGrids, AllCoefficients, SchemeDictionary, ListsLevels, IsMaximum, IsDict, Keys, IsLast,
      CombinesWell, TaskCoefficients, IsLookedAt, LevelSum;
    CountOfTasks(params.levels, params.levelsToIDs, params.coeffs, AllGrids(lmin, lmax, n, levels));
    c := TaskCoefficients(params.coeffs, |params.levels|);
    CombinedUnchanged(lmin, lmax, n, levels, [], c);
  }

  /** A whole run: the grids are combined once for every list of grids that have failed since the last combination.
      However often and whatever fails, nothing of it impairs a later combination, unless a recovery leaves traces. */
  method RunCombinations(params: CombiParameters, dim: nat, lmin: Level, lmax: Level, failures: seq<seq<Level>>,
                         solver: Solver, ghost n: int, ghost levels: seq<Level>)
    returns (combined: seq<seq<real>>)
    requires dim > 0 && |lmin| == |lmax| == dim && IsInput(lmin, lmax, n)
             && ListsLevels(levels, lmax, n - LevelSum(lmin))
    requires KnowsScheme(params, lmin, lmax, n, levels) && !FinestAreOverwritten(lmin, lmax, n) && FindsOptimum(solver)
    modifies params
    ensures |combined| == |failures| && KnowsScheme(params, lmin, lmax, n, levels)
    ensures forall i :: 0 <= i < |failures| ==> CombinesWell(lmin, lmax, n, levels, failures[i], combined[i])
  {
    hide *;
    combined := [];
    for i := 0 to |failures|
      invariant |combined| == i && KnowsScheme(params, lmin, lmax, n, levels)
      invariant forall k :: 0 <= k < i ==> CombinesWell(lmin, lmax, n, levels, failures[k], combined[k])
    {
      var c;
      if failures[i] == [] {
        c := CombineGrids(params, lmin, lmax, n, levels);
      } else {
        c := CombineAfterFaults(params, dim, lmin, lmax, failures[i], solver, n, levels);
      }
      combined := combined + [c];
    }
  }

  /** From the minimal and maximal level on: creates the scheme and runs it with these failures. */
  method RunWithFaults(dim: nat, lmin: Level, lmax: Level, failures: seq<seq<Level>>, solver: Solver)
    returns (ok: bool, combined: seq<seq<real>>, ghost n: int, ghost levels: seq<Level>)
    requires dim > 0 && |lmin| == |lmax| == dim && Leq(lmin, lmax) && forall i :: 0 <= i < dim ==> lmin[i] > 0
    requires FindsOptimum(solver) && forall n :: IsInput(lmin, lmax, n) ==> !FinestAreOverwritten(lmin, lmax, n)
    ensures IsInput(lmin, lmax, n) && ListsLevels(levels, lmax, n - LevelSum(lmin)) && (ok <==> levels != [])
    ensures ok ==> |combined| == |failures|
    ensures ok ==> forall i :: 0 <= i < |failures| ==> CombinesWell(lmin, lmax, n, levels, failures[i], combined[i])
  {
    hide *;
    var params;
    ok, params, n, levels := CreateScheme(dim, lmin, lmax);
    combined := [];
    if ok {
      combined := RunCombinations(params, dim, lmin, lmax, failures, solver, n, levels);
    }
  }
}
