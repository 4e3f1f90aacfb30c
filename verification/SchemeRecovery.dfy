/** How the process manager recovers from faults: it hands the scheme to the optimisation, and gives every task the new
    coefficient of its level. */
module SchemeRecovery {
  import opened FiniteSums
  import opened LevelSets
  import opened LevelGeneration
  import opened LevelDictionary
  import opened LevelOdometer
  import opened CombiScheme
  import opened ClassicalScheme
  import opened FaultDownset
  import opened FaultRecovery
  import opened MaximalSolutions
  import opened LpOptimization
  import opened RecoveredScheme
  import opened FaultTolerantScheme
  import opened AdaptiveScheme
  import opened SchemeParameters

  /** A solver gets the constraint matrix, its numbers of columns and rows, and the objective. */
  type Solver = (seq<real>, nat, nat, seq<real>) -> seq<real>

  /** It finds an optimal solution wherever there is one. */
  ghost predicate FindsOptimum(solver: Solver) {
    forall constrMat, size: nat, noFaults: nat, g, w {:trigger IsOptimal(constrMat, size, noFaults, g, w)} ::
      |constrMat| == 1 + noFaults * size && IsOptimal(constrMat, size, noFaults, g, w)
      ==> IsOptimal(constrMat, size, noFaults, g, solver(constrMat, size, noFaults, g))
  }

  /** What the optimisation expects of the grids of a scheme. */
  ghost predicate IsGiven(given: Dict, lmin: Level, lmax: Level) {
    && lmin != [] && |lmin| == |lmax| && lmax[0] >= 1 && (forall i :: 0 <= i < |lmin| ==> lmin[i] >= 1)
    && IsDict(given, |lmin|) && LiesBelowActive(given, lmin, lmax)
  }

  /** The faults that have to be avoided: given grids on one of the two diagonals looked at. */
  ghost predicate AreRelevant(relevant: seq<Level>, given: Dict, lmin: Level, lmax: Level, faults: seq<Level>)
    requires |lmin| == |lmax| > 0
  {
    forall f :: f in relevant <==> f in faults && IsRelevant(given, FinestSum(lmin, lmax), f)
  }

  /** The grids of a fault tolerant scheme, those of its finest diagonal with positive coefficients. */
  ghost predicate HoldsScheme(given: Dict, lmin: Level, lmax: Level, n: int, levels: seq<Level>) {
    && IsInput(lmin, lmax, n) && ListsLevels(levels, lmax, n - LevelSum(lmin))
    && (forall l :: l in Keys(given) <==> l in AllGrids(lmin, lmax, n, levels))
    && HoldsFinest(given, lmin, n - Shift(lmin, lmax, n))
  }

  /** Every subspace is counted once or not at all, and every one of the scheme that lies two diagonals below those
      looked at is counted once.  If the minimal level is one of these, the coefficients add up to one. */
  ghost predicate CountsMost(grids: seq<Level>, c: seq<real>, lmin: Level, m: int, finest: int) {
    && |grids| == |c|
    && (forall k {:trigger TimesCounted(grids, c, k)} :: |k| == |lmin| ==>
          TimesCounted(grids, c, k) == 0.0 || TimesCounted(grids, c, k) == 1.0)
    && (forall k {:trigger TimesCounted(grids, c, k)} :: Leq(lmin, k) && LevelSum(k) <= m && LevelSum(k) <= finest - 2
          ==> TimesCounted(grids, c, k) == 1.0)
    && (LevelSum(lmin) <= m && LevelSum(lmin) <= finest - 2 ==> TotalOf(c) == 1.0)
  }

  /** The coefficients that tasks of these grids take. */
  function CoefficientsIn(d: Dict, grids: seq<Level>): (c: seq<real>)
    ensures |c| == |grids|
  {
    seq(|grids|, i requires 0 <= i < |grids| => ValueIn(d, grids[i]))
  }

  ghost function ValueAt(d: Dict): Level -> real {
    l => ValueIn(d, l)
  }

  /** The coefficients c of the grids are those of the best solution w for the levels that avoids these faults. */
  ghost predicate RecoversFrom(c: seq<real>, keys: seq<Level>, grids: seq<Level>, finest: int, faults: seq<Level>,
                               w: seq<real>) {
    && faults != [] && MayFail(keys, grids, finest, faults) && IsMaximalSolution(keys, faults, ObjectiveOf(keys), w)
    && |c| == |grids| && forall i :: 0 <= i < |grids| ==> c[i] == Dot(RowOf(keys, grids[i]), w)
  }

  /** The masked coefficients are all coefficients, so the output counts every subspace as they do. */
  lemma CompleteIsRecovered(output: Dict, aux: Dict, lmin: Level, lmax: Level, n: int, levels: seq<Level>,
                            faults: seq<Level>, g: seq<real>, w: seq<real>, allC: seq<real>)
    requires IsRecoverable(output, aux, lmin, lmax, n, levels, faults) && IsMaximalSolution(Keys(aux), faults, g, w)
    requires TakesCoefficients(output, aux, allC) && AreRecovered(Keys(aux), w, allC) && AreEnough(lmin, lmax, n)
    requires CountsOnceOrNever(Keys(aux), allC, |lmin|)
    ensures CountsMost(Keys(output), Values(output), lmin, n - Shift(lmin, lmax, n), FinestSum(lmin, lmax))
  {
    hide FinestSum, Shift, AllGrids, IsDict, ListsLevels, Dot, AreEnough, IsMaximalSolution, Masked, Values;
    var keys, m := Keys(aux), n - Shift(lmin, lmax, n);
    RecoveryIsComplete(output, aux, lmin, lmax, n, levels, faults, g, w, allC);
    DictIsDistinct(aux, |lmin|);
    SimplexIsClosed(Elements(keys), lmin, m);
    OutputIsMasked(output, aux, |lmin|, lmin, allC);
    MaskedIsSame(keys, allC, Keys(output));
    forall k
      ensures TimesCounted(Keys(output), Values(output), k) == TimesCounted(keys, allC, k)
    {
      OutputCountsMasked(output, aux, |lmin|, allC, k);
    }
    forall k | Leq(lmin, k) && LevelSum(k) <= m
      ensures k in keys
    {
      assert k in Elements(keys);
    }
  }

  lemma SameKeysAreDict(a: Dict, b: Dict, dim: nat)
    requires IsDict(a, dim) && Keys(a) == Keys(b)
    ensures IsDict(b, dim)
  {
    forall i | 0 <= i < |b|
      ensures |b[i].key| == dim
    {
      assert Keys(b)[i] == a[i].key;
    }
  }

  /** What the optimisation is given and what it builds for the grids of a fault tolerant scheme. */
  lemma SchemeIsRecoverable(output: Dict, given: Dict, entire: Dict, lmin: Level, lmax: Level, n: int,
                            levels: seq<Level>, faults: seq<Level>)
    requires IsGiven(given, lmin, lmax) && HoldsScheme(given, lmin, lmax, n, levels) && Keys(output) == Keys(given)
    requires IsEntireDownset(entire, given, lmin, lmax, Greatest(lmax))
    requires (forall f :: f in faults ==> f in Keys(given)) && AreFine(faults, FinestSum(lmin, lmax))
    ensures IsRecoverable(output, Numbered(entire), lmin, lmax, n, levels, faults)
    ensures Keys(entire) == Selected(lmin, n, levels)
  {
    hide FinestSum, Shift, AllGrids, ListsLevels, Greatest, LiesBelowActive, HoldsFinest, Sorted;
    DownsetIsSimplex(entire, given, lmin, lmax, n);
    SameKeysAreDict(entire, Numbered(entire), |lmin|);
    SameKeysAreDict(given, output, |lmin|);
    SimplexIsSelected(Keys(entire), lmin, lmax, n, levels);
  }

  lemma SimplexIsSelected(keys: seq<Level>, lmin: Level, lmax: Level, n: int, levels: seq<Level>)
    requires IsInput(lmin, lmax, n) && ListsLevels(levels, lmax, n - LevelSum(lmin))
    requires Sorted(keys) && IsSimplex(Elements(keys), lmin, n - Shift(lmin, lmax, n))
    ensures keys == Selected(lmin, n, levels)
  {
    hide Sorted, Shift;
    SelectedIsSubsequence(lmin, n, levels);
    SelectedIsSimplex(lmin, lmax, n, levels);
    forall l
      ensures l in keys <==> l in Selected(lmin, n, levels)
    {
      assert l in Elements(keys) <==> l in Elements(Selected(lmin, n, levels));
    }
    SortedAreEqual(keys, Selected(lmin, n, levels));
  }

  lemma OutputRecovers(output: Dict, aux: Dict, lmin: Level, lmax: Level, n: int, levels: seq<Level>,
                       faults: seq<Level>, w: seq<real>, allC: seq<real>)
    requires IsRecoverable(output, aux, lmin, lmax, n, levels, faults) && faults != []
    requires IsMaximalSolution(Keys(aux), faults, ObjectiveOf(Keys(aux)), w)
    requires TakesCoefficients(output, aux, allC) && AreRecovered(Keys(aux), w, allC)
    ensures var grids := AllGrids(lmin, lmax, n, levels);
            RecoversFrom(CoefficientsIn(output, grids), Keys(aux), grids, FinestSum(lmin, lmax), faults, w)
  {
    hide FinestSum, Shift, ListsLevels, IsMaximalSolution, ObjectiveOf, Dot, RowOf, AllGrids;
    var grids := AllGrids(lmin, lmax, n, levels);
    FaultsMayFail(output, aux, lmin, lmax, n, levels, faults);
    forall i | 0 <= i < |grids|
      ensures ValueIn(output, grids[i]) == Dot(RowOf(Keys(aux), grids[i]), w)
    {
      EntryOfKey(output, grids[i]);
      var at := Find(output, grids[i]);
      assert TakesCoefficients(output, aux, allC) && output[at].key == grids[i];
    }
  }

  lemma NewDictionary(d: Dict, newDict: Dict, dim: nat, grids: seq<Level>)
    requires IsDict(d, dim) && IsDict(newDict, dim) && Keys(newDict) == Keys(d)
             && forall k :: k in Keys(d) <==> k in grids
    ensures grids == [] ==> d == newDict
    ensures AssignAll(d, grids, CoefficientsIn(newDict, grids)) == newDict
  {
    hide AssignAll, ValueIn, IsDict, Keys, Sorted;
    GridsAreKeys(d, dim, grids);
    var c := CoefficientsIn(newDict, grids);
    AssignAllIsDict(d, dim, grids, c);
    forall k | k in grids
      ensures ValueIn(AssignAll(d, grids, c), k) == ValueIn(newDict, k)
    {
      var i :| 0 <= i < |grids| && grids[i] == k;
      var j := LastPosition(grids, i);
      AssignedLast(d, dim, grids, c, j);
    }
    SameDict(AssignAll(d, grids, c), newDict, dim);
    if grids == [] {
      SameDict(d, newDict, dim);
    }
  }

  lemma GridsAreKeys(d: Dict, dim: nat, grids: seq<Level>)
    requires IsDict(d, dim) && forall k :: k in Keys(d) <==> k in grids
    ensures forall l :: l in grids ==> |l| == dim
  {
    forall l | l in grids
      ensures |l| == dim
    {
      EntryOfKey(d, l);
    }
  }

  /** Every task gets the new coefficient of its level. */
  method TakeNewCoefficients(params: CombiParameters, ghost grids: seq<Level>, dim: nat, newDict: Dict)
    requires params.Describes(grids, dim) && IsDict(newDict, dim) && Keys(newDict) == Keys(params.combiDictionary)
    modifies params
    ensures params.Describes(grids, dim) && params.combiDictionary == newDict
    ensures TaskCoefficients(params.coeffs, |grids|) == CoefficientsIn(newDict, grids)
  {
    hide IsDict, AssignAll, Stored, Keys, ValueIn;
    var newLevels: seq<Level>, newCoeffs: seq<real>, newTaskIDs: seq<nat> := [], [], [];
    CountOfTasks(params.levels, params.levelsToIDs, params.coeffs, grids);
    for i := 0 to |params.levels|
      invariant newLevels == grids[..i] && newCoeffs == CoefficientsIn(newDict, grids)[..i]
                && newTaskIDs == Naturals(|grids|)[..i]
    {
      var lvl := params.levels[i];
      newLevels, newCoeffs, newTaskIDs := newLevels + [lvl], newCoeffs + [ValueIn(newDict, lvl)], newTaskIDs + [i];
    }
    assert newLevels == grids && newCoeffs == CoefficientsIn(newDict, grids) && newTaskIDs == Naturals(|grids|);
    NewDictionary(params.combiDictionary, newDict, dim, grids);
    StoredAreTasks(params.levels, params.levelsToIDs, params.coeffs, grids, newCoeffs);
    params.SetLevelsCoeffs(newTaskIDs, newLevels, newCoeffs);
  }

  /** The new coefficients are those of a best solution for these faults, and if the grids are enough, they count the
      scheme. */
  ghost predicate RecoversScheme(newDict: Dict, lmin: Level, lmax: Level, n: int, levels: seq<Level>,
                                 faults: seq<Level>)
    requires |lmin| == |lmax| > 0
  {
    && (exists w :: RecoversFrom(CoefficientsIn(newDict, AllGrids(lmin, lmax, n, levels)), Selected(lmin, n, levels),
                                 AllGrids(lmin, lmax, n, levels), FinestSum(lmin, lmax), faults, w))
    && (AreEnough(lmin, lmax, n) ==>
          CountsMost(Keys(newDict), Values(newDict), lmin, n - Shift(lmin, lmax, n), FinestSum(lmin, lmax)))
  }

  /** The optimisation for the grids of a fault tolerant scheme. */
  lemma SchemeIsRecovered(output: Dict, given: Dict, entire: Dict, lmin: Level, lmax: Level, n: int, levels: seq<Level>,
                          faults: seq<Level>, w: seq<real>, allC: seq<real>)
    requires IsGiven(given, lmin, lmax) && HoldsScheme(given, lmin, lmax, n, levels) && Keys(output) == Keys(given)
    requires IsEntireDownset(entire, given, lmin, lmax, Greatest(lmax)) && faults != []
    requires (forall f :: f in faults ==> f in Keys(given)) && AreFine(faults, FinestSum(lmin, lmax))
    requires IsMaximalSolution(Keys(entire), faults, ObjectiveOf(Keys(entire)), w)
             && AreRecovered(Keys(entire), w, allC)
    requires TakesCoefficients(output, Numbered(entire), allC) && CountsOnceOrNever(Keys(entire), allC, |lmin|)
    ensures RecoversScheme(output, lmin, lmax, n, levels, faults)
  {
    hide AllGrids, CoefficientsIn, RecoversFrom, FinestSum, AreEnough, CountsMost, Shift, Values, Keys, IsDict,
      Selected, LiesBelowActive, HoldsScheme, IsEntireDownset, AreFine, IsMaximalSolution, AreRecovered,
      TakesCoefficients, CountsOnceOrNever, Greatest, Numbered, ObjectiveOf;
    SchemeIsRecoverable(output, given, entire, lmin, lmax, n, levels, faults);
    OutputRecovers(output, Numbered(entire), lmin, lmax, n, levels, faults, w, allC);
    if AreEnough(lmin, lmax, n) {
      CompleteIsRecovered(output, Numbered(entire), lmin, lmax, n, levels, faults, ObjectiveOf(Keys(entire)), w, allC);
    }
  }

  method Solved(solver: Solver, constrMat: seq<real>, size: nat, noFaults: nat, g: seq<real>, ghost some: seq<real>)
    returns (w: seq<real>)
    requires FindsOptimum(solver) && |constrMat| == 1 + noFaults * size && IsOptimal(constrMat, size, noFaults, g, some)
    ensures IsOptimal(constrMat, size, noFaults, g, w)
  {
    w := solver(constrMat, size, noFaults, g);
  }

  /** Solves the problem and returns the new coefficients of the grids. */
  method SolveOptiProblem(optInterp: LpOptInterp, solver: Solver) returns (newDict: Dict)
    requires optInterp.Valid() && IsGiven(optInterp.given, optInterp.levelMin, optInterp.levelMax)
             && FindsOptimum(solver)
    requires optInterp.objective == ObjectiveOf(Keys(optInterp.aux)) && optInterp.faults != []
    requires RowsAreSet(optInterp.constrMat[..], Keys(optInterp.aux), optInterp.faults, |optInterp.faults|)
    ensures Keys(newDict) == Keys(optInterp.given) && AvoidsFaults(newDict, optInterp.faults)
    ensures forall n, levels :: HoldsScheme(optInterp.given, optInterp.levelMin, optInterp.levelMax, n, levels)
              ==> RecoversScheme(newDict, optInterp.levelMin, optInterp.levelMax, n, levels, optInterp.faults)
  {
    hide HoldsScheme, RecoversScheme, FindsOptimum, LiesBelowActive, IsDict, RowsAreSet, IsObjective, Greatest,
      FinestSum;
    ghost var keys, rows, lmin, lmax := Keys(optInterp.entire), optInterp.constrMat[..], optInterp.levelMin,
      optInterp.levelMax;
    ghost var some := OptimumExists(rows, keys, optInterp.faults, optInterp.objective, FinestSum(lmin, lmax));
    var w := Solved(solver, optInterp.constrMat[..], |optInterp.aux|, |optInterp.faults|, optInterp.objective, some);
    OptimalIsMaximal(rows, keys, optInterp.faults, optInterp.objective, w);
    ghost var allC;
    newDict, allC := optInterp.Results(w);
    forall n, levels | HoldsScheme(optInterp.given, lmin, lmax, n, levels)
      ensures RecoversScheme(newDict, lmin, lmax, n, levels, optInterp.faults)
    {
      SchemeIsRecovered(newDict, optInterp.given, optInterp.entire, lmin, lmax, n, levels, optInterp.faults, w, allC);
    }
  }

  /** The new coefficients of the grids, unless there is no relevant fault. */
  method NewCoefficients(given: Dict, lmin: Level, lmax: Level, faults: seq<Level>, solver: Solver)
    returns (newDict: Dict, recomputed: bool, ghost relevant: seq<Level>)
    requires IsGiven(given, lmin, lmax) && FindsOptimum(solver)
    ensures AreRelevant(relevant, given, lmin, lmax, faults) && (recomputed <==> relevant != [])
    ensures if recomputed then Keys(newDict) == Keys(given) && AvoidsFaults(newDict, relevant) else newDict == given
    ensures recomputed ==> forall n, levels :: HoldsScheme(given, lmin, lmax, n, levels)
                                               ==> RecoversScheme(newDict, lmin, lmax, n, levels, relevant)
  {
    hide HoldsScheme, RecoversScheme, FindsOptimum, IsRelevant, LiesBelowActive, IsDict, RowsAreSet, IsObjective;
    newDict := given;
    var optInterp := new LpOptInterp(lmin, lmax, |lmin|, given, faults);
    recomputed := |optInterp.faults| != 0;
    relevant := optInterp.faults;
    if recomputed {
      optInterp.InitOptiProb();
      optInterp.SetConstraints();
      newDict := SolveOptiProblem(optInterp, solver);
    }
  }

  /** Without relevant faults nothing changes.  Otherwise the relevant faults get the coefficient zero, every task gets
      the new coefficient of its level, and if the grids are those of a fault tolerant scheme, the new coefficients are
      those of a best solution, which count it completely if the grids are enough. */
  method RecomputeOptimumCoefficients(params: CombiParameters, ghost grids: seq<Level>, lmin: Level, lmax: Level,
                                      faults: seq<Level>, solver: Solver)
    returns (newDict: Dict, recomputed: bool, ghost relevant: seq<Level>)
    requires params.Describes(grids, |lmin|) && IsGiven(params.combiDictionary, lmin, lmax) && FindsOptimum(solver)
    modifies params
    ensures params.Describes(grids, |lmin|) && params.combiDictionary == newDict
    ensures AreRelevant(relevant, old(params.combiDictionary), lmin, lmax, faults) && (recomputed <==> relevant != [])
    ensures !recomputed ==> params.coeffs == old(params.coeffs) && newDict == old(params.combiDictionary)
    ensures recomputed ==> TaskCoefficients(params.coeffs, |grids|) == CoefficientsIn(newDict, grids)
    ensures recomputed ==> AvoidsFaults(newDict, relevant)
    ensures recomputed ==> forall n, levels :: HoldsScheme(old(params.combiDictionary), lmin, lmax, n, levels)
                                               ==> RecoversScheme(newDict, lmin, lmax, n, levels, relevant)
  {
    hide LiesBelowActive, IsDict, Keys, FindsOptimum, AreRelevant, AvoidsFaults, HoldsScheme, RecoversScheme, AreTasks,
      TaskCoefficients, CoefficientsIn;
    newDict, recomputed, relevant := NewCoefficients(params.combiDictionary, lmin, lmax, faults, solver);
    if recomputed {
      SameKeysAreDict(params.combiDictionary, newDict, |lmin|);
      TakeNewCoefficients(params, grids, |lmin|, newDict);
    }
  }

  lemma DistinctTasksCount(grids: seq<Level>, d: Dict, dim: nat, k: Level)
    requires IsDict(d, dim) && Distinct(grids) && forall l :: l in grids <==> l in Keys(d)
    ensures TimesCounted(grids, CoefficientsIn(d, grids), k) == TimesCounted(Keys(d), Values(d), k)
  {
    var f := ValueAt(d);
    forall i | 0 <= i < |d|
      ensures Values(d)[i] == f(Keys(d)[i])
    {
      ValueOfKey(d, dim, i);
    }
    DictIsDistinct(d, dim);
    TimesCountedIsCount(grids, CoefficientsIn(d, grids), k, f);
    TimesCountedIsCount(Keys(d), Values(d), k, f);
    assert Elements(grids) == Elements(Keys(d));
  }

  /** A coefficient of one for a single grid. */
  function Indicator(n: nat, at: nat): (c: seq<real>)
    ensures |c| == n
  {
    seq(n, i => if i == at then 1.0 else 0.0)
  }

  lemma {:induction false} CountOfIndicator(grids: seq<Level>, at: nat)
    requires at < |grids|
    ensures TimesCounted(grids, Indicator(|grids|, at), grids[at]) == 1.0
  {
    var n, c := |grids| - 1, Indicator(|grids|, at);
    if at < n {
      assert c[..n] == Indicator(n, at);
      CountOfIndicator(grids[..n], at);
    } else {
      CountOfZeros(grids[..n], c[..n], grids[at]);
    }
  }

  lemma {:induction false} CountOfZeros(grids: seq<Level>, c: seq<real>, k: Level)
    requires |c| == |grids| && forall i :: 0 <= i < |c| ==> c[i] == 0.0
    ensures TimesCounted(grids, c, k) == 0.0
  {
    if grids != [] {
      CountOfZeros(grids[..|grids| - 1], c[..|c| - 1], k);
    }
  }

  lemma {:induction false} CountAtLeast(grids: seq<Level>, c: seq<real>, k: Level, least: seq<real>)
    requires |c| == |grids| == |least| && forall i :: 0 <= i < |c| ==> least[i] <= c[i]
    ensures TimesCounted(grids, least, k) <= TimesCounted(grids, c, k)
  {
    if grids != [] {
      CountAtLeast(grids[..|grids| - 1], c[..|c| - 1], k, least[..|c| - 1]);
    }
  }

  /** However the new coefficients turn out, the tasks count like the grids. */
  ghost predicate AlwaysCountAlike(grids: seq<Level>, d: Dict) {
    forall newC: seq<real>, k :: |newC| == |d| ==>
      TimesCounted(grids, CoefficientsIn(WithCoefficients(d, newC), grids), k) == TimesCounted(Keys(d), newC, k)
  }

  lemma RepeatedTaskCountsTwice(grids: seq<Level>, d: Dict, dim: nat, a: nat, b: nat)
    requires IsDict(d, dim) && (forall l :: l in grids <==> l in Keys(d)) && a < b < |grids| && grids[a] == grids[b]
    ensures !AlwaysCountAlike(grids, d)
  {
    hide IsDict, Keys, Sorted, WithCoefficients, CoefficientsIn, Indicator, TimesCounted, ValueIn, Find, Leq;
    assert grids[a] in Keys(d);
    var at :| 0 <= at < |Keys(d)| && Keys(d)[at] == grids[a];
    var newC := Indicator(|d|, at);
    var c, one := CoefficientsIn(WithCoefficients(d, newC), grids), Indicator(|grids|, a);
    CountOfIndicator(Keys(d), at);
    CountOfIndicator(grids, a);
    CountOfUpdate(grids, one, b, 1.0, grids[a]);
    IndicatorIsLess(grids, d, dim, a, b, at);
    CountAtLeast(grids, c, grids[a], one[b := 1.0]);
    SameLevelIsBelow(grids[a]);
  }

  lemma SameLevelIsBelow(l: Level)
    ensures Leq(l, l)
  {
  }

  lemma IndicatorIsLess(grids: seq<Level>, d: Dict, dim: nat, a: nat, b: nat, at: nat)
    requires IsDict(d, dim) && a < b < |grids| && grids[a] == grids[b] && at < |d| && Keys(d)[at] == grids[a]
    ensures var c, one := CoefficientsIn(WithCoefficients(d, Indicator(|d|, at)), grids), Indicator(|grids|, a);
            one[b] == 0.0 && forall i :: 0 <= i < |grids| ==> one[b := 1.0][i] <= c[i]
  {
    hide IsDict;
    var out, one := WithCoefficients(d, Indicator(|d|, at)), Indicator(|grids|, a);
    SameKeysAreDict(d, out, dim);
    ValueOfKey(out, dim, at);
    forall i | 0 <= i < |grids|
      ensures one[b := 1.0][i] <= CoefficientsIn(out, grids)[i]
    {
      NewValueIsNatural(d, dim, at, grids[i]);
    }
  }

  lemma NewValueIsNatural(d: Dict, dim: nat, at: nat, l: Level)
    requires IsDict(d, dim)
    ensures ValueIn(WithCoefficients(d, Indicator(|d|, at)), l) >= 0.0
  {
  }

  /** The tasks count every subspace as the recovered grids do, whatever the coefficients are, if and only if no two
      tasks have the same level. */
  lemma TasksCountAlike(grids: seq<Level>, d: Dict, dim: nat)
    requires IsDict(d, dim) && forall l :: l in grids <==> l in Keys(d)
    ensures AlwaysCountAlike(grids, d) <==> Distinct(grids)
  {
    if Distinct(grids) {
      forall newC: seq<real>, k | |newC| == |d|
        ensures TimesCounted(grids, CoefficientsIn(WithCoefficients(d, newC), grids), k)
                == TimesCounted(Keys(d), newC, k)
      {
        var out := WithCoefficients(d, newC);
        SameKeysAreDict(d, out, dim);
        assert Values(out) == newC;
        DistinctTasksCount(grids, out, dim, k);
      }
    } else {
      var a, b :| 0 <= a < b < |grids| && grids[a] == grids[b];
      RepeatedTaskCountsTwice(grids, d, dim, a, b);
    }
  }

  /** Grid l lies on a diagonal on which faults are looked for. */
  predicate IsLookedAt(lmin: Level, lmax: Level, l: Level)
    requires |lmin| == |lmax| > 0
  {
    FinestSum(lmin, lmax) - 1 <= LevelSum(l) <= FinestSum(lmin, lmax)
  }

  /** Some grid of the adaptive scheme lies on one of the two diagonals on which the optimisation looks for faults. */
  ghost predicate SeesFaults(lmin: Level, lmax: Level, n: int, levels: seq<Level>)
    requires |lmin| == |lmax| > 0
  {
    exists f :: f in KeptGrids(lmin, n, levels) && IsLookedAt(lmin, lmax, f)
  }

  /** It does if and only if the scheme has a grid at all and the dimensions after the first lag by at most one
      together. */
  lemma FaultsAreSeen(lmin: Level, lmax: Level, n: int, levels: seq<Level>)
    requires lmin != [] && IsInput(lmin, lmax, n) && ListsLevels(levels, lmax, n - LevelSum(lmin))
    ensures SeesFaults(lmin, lmax, n, levels) <==> Shift(lmin, lmax, n) <= n - LevelSum(lmin) && Gap(lmin, lmax, n) <= 1
  {
    hide KeptGrids, ListsLevels, Shift, Gap, FinestSum, LevelSum;
    var m := n - Shift(lmin, lmax, n);
    FinestSumIs(lmin, lmax, n);
    if f :| f in KeptGrids(lmin, n, levels) && IsLookedAt(lmin, lmax, f) {
      KeptGridsAre(lmin, lmax, n, levels, f);
      SumIsMonotone(lmin, f);
    }
    if LevelSum(lmin) <= m && Gap(lmin, lmax, n) <= 1 {
      var f := LevelOfSum(lmin, m);
      KeptGridsAre(lmin, lmax, n, levels, f);
    }
  }

  /** For lmin (1,1,1) and lmax (5,4,4) no fault is ever dealt with, although the scheme has grids. */
  lemma NoFaultIsSeen(levels: seq<Level>)
    requires ListsLevels(levels, [5, 4, 4], 4)
    ensures IsInput([1, 1, 1], [5, 4, 4], 7) && [1, 1, 3] in KeptGrids([1, 1, 1], 7, levels)
    ensures !SeesFaults([1, 1, 1], [5, 4, 4], 7, levels)
  {
    SumOfThree(1, 1, 1);
    SumOfThree(0, 1, 1);
    SumOfThree(1, 1, 3);
    assert Minus([5, 4, 4], [1, 1, 1]) == [4, 3, 3] && Minus([5, 4, 4], [1, 1, 1])[0] == 4;
    assert Lag([1, 1, 1], [5, 4, 4], 4) == [0, 1, 1];
    FaultsAreSeen([1, 1, 1], [5, 4, 4], 7, levels);
    KeptGridsAre([1, 1, 1], [5, 4, 4], 7, levels, [1, 1, 3]);
  }
}
