/** The optimisation problem that finds new combination coefficients after faults. */
module LpOptimization {
  import opened LevelSets
  import opened LevelGeneration
  import opened LevelDictionary
  import opened LevelOdometer
  import opened CombiScheme
  import opened FaultDownset
  import opened FaultRecovery
  import opened MaximalSolutions

  /** Row i of the constraint matrix, which is stored row by row from index 1 on. */
  function ConstraintRow(constrMat: seq<real>, size: nat, i: nat): (row: seq<real>)
    requires 1 + (i + 1) * size <= |constrMat|
    ensures |row| == size
  {
    assert (i + 1) * size == i * size + size;
    MulNotNegative(i, size);
    constrMat[1 + i * size..1 + i * size + size]
  }

  lemma MulNotNegative(a: int, b: int)
    requires a >= 0 && b >= 0
    ensures a * b >= 0
  {
  }

  ghost predicate RowsAreSet(constrMat: seq<real>, keys: seq<Level>, faults: seq<Level>, n: nat)
    requires n <= |faults| && |constrMat| == 1 + |faults| * |keys|
  {
    forall i {:trigger faults[i]} :: 0 <= i < n ==>
      (i + 1) * |keys| <= |faults| * |keys| && ConstraintRow(constrMat, |keys|, i) == RowOf(keys, faults[i])
  }

  lemma EarlierRowStays(before: seq<real>, after: seq<real>, size: nat, i: nat, n: nat)
    requires |before| == |after| && i < n && 1 + n * size <= |before|
    requires forall k :: 0 <= k < 1 + n * size ==> after[k] == before[k]
    ensures (i + 1) * size <= n * size && ConstraintRow(after, size, i) == ConstraintRow(before, size, i)
  {
    RowOrder(i + 1, n, size);
    MulNotNegative(i, size);
    assert (i + 1) * size == i * size + size;
  }

  /** Writing row n leaves the earlier rows alone. */
  lemma NextRowIsSet(before: seq<real>, after: seq<real>, keys: seq<Level>, faults: seq<Level>, n: nat)
    requires n < |faults| && |before| == |after| == 1 + |faults| * |keys|
    requires RowsAreSet(before, keys, faults, n)
    requires (n + 1) * |keys| <= |faults| * |keys| && n * |keys| <= |faults| * |keys|
    requires forall k :: 0 <= k < 1 + n * |keys| ==> after[k] == before[k]
    requires ConstraintRow(after, |keys|, n) == RowOf(keys, faults[n])
    ensures RowsAreSet(after, keys, faults, n + 1)
  {
    forall i | 0 <= i < n + 1
      ensures (i + 1) * |keys| <= |faults| * |keys| && ConstraintRow(after, |keys|, i) == RowOf(keys, faults[i])
    {
      if i < n {
        EarlierRowStays(before, after, |keys|, i, n);
        RowOfSet(before, keys, faults, n, i);
      }
    }
  }

  lemma RowOfSet(constrMat: seq<real>, keys: seq<Level>, faults: seq<Level>, n: nat, i: nat)
    requires i < n <= |faults| && |constrMat| == 1 + |faults| * |keys| && RowsAreSet(constrMat, keys, faults, n)
    ensures (i + 1) * |keys| <= |faults| * |keys| && ConstraintRow(constrMat, |keys|, i) == RowOf(keys, faults[i])
  {
  }

  lemma RowOrder(a: int, b: int, size: nat)
    requires a <= b
    ensures a * size <= b * size
  {
  }

  /** Writes one row of the inverse into the constraint matrix. */
  method FillConstraint(mInv: array2<real>, row: nat, constrMat: array<real>, start: nat, ghost keys: seq<Level>)
    requires IsInverse(mInv, keys) && row < |keys| && 1 + start + |keys| <= constrMat.Length
    modifies constrMat
    ensures constrMat[1 + start..1 + start + |keys|] == RowOf(keys, keys[row])
    ensures forall k :: 0 <= k < constrMat.Length && !(1 + start <= k < 1 + start + |keys|) ==>
              constrMat[k] == old(constrMat[k])
  {
    for j := 0 to mInv.Length1
      invariant forall k {:trigger constrMat[k]} :: 1 + start <= k < 1 + start + j ==>
                  constrMat[k] == Term(keys[row], keys[k - 1 - start], 1.0)
      invariant forall k :: 0 <= k < constrMat.Length && !(1 + start <= k < 1 + start + |keys|) ==>
                  constrMat[k] == old(constrMat[k])
    {
      constrMat[j + start + 1] := mInv[row, j];
    }
  }

  /** One row for every fault: the row of the inverse that belongs to it. */
  method SetConstrMatrix(aux: Dict, dim: nat, faults: seq<Level>, mInv: array2<real>, constrMat: array<real>)
    requires IsDict(aux, dim) && (forall k :: 0 <= k < |aux| ==> aux[k].value == k as real)
    requires IsInverse(mInv, Keys(aux)) && constrMat.Length == 1 + |faults| * |aux|
    requires forall i :: 0 <= i < |faults| ==> faults[i] in Keys(aux)
    modifies constrMat
    ensures RowsAreSet(constrMat[..], Keys(aux), faults, |faults|)
  {
    for i := 0 to |faults|
      invariant RowsAreSet(constrMat[..], Keys(aux), faults, i)
    {
      ghost var before := constrMat[..];
      var it := Find(aux, faults[i]);
      FaultIsFound(aux, faults[i]);
      MulNotNegative(i, |aux|);
      RowOrder(i, |faults|, |aux|);
      RowOrder(i + 1, |faults|, |aux|);
      assert (i + 1) * |aux| == i * |aux| + |aux|;
      FillConstraint(mInv, aux[it].value.Floor, constrMat, i * |aux|, Keys(aux));
      NextRowIsSet(before, constrMat[..], Keys(aux), faults, i);
    }
  }

  lemma FaultIsFound(aux: Dict, fault: Level)
    requires fault in Keys(aux)
    ensures Find(aux, fault) < |aux|
  {
    var i :| 0 <= i < |aux| && Keys(aux)[i] == fault;
    assert aux[i].key == fault;
  }

  /** What the solver guarantees: binary weights that make every constraint row zero. */
  ghost predicate SolvesRows(constrMat: seq<real>, size: nat, noFaults: nat, w: seq<real>)
    requires |constrMat| == 1 + noFaults * size
  {
    && |w| == size
    && (forall j :: 0 <= j < |w| ==> w[j] == 0.0 || w[j] == 1.0)
    && forall i :: 0 <= i < noFaults && 1 + (i + 1) * size <= |constrMat| ==>
      Dot(ConstraintRow(constrMat, size, i), w) == 0.0
  }

  lemma RowsMeanSolution(constrMat: seq<real>, keys: seq<Level>, faults: seq<Level>, w: seq<real>)
    requires |constrMat| == 1 + |faults| * |keys| && RowsAreSet(constrMat, keys, faults, |faults|)
    requires SolvesRows(constrMat, |keys|, |faults|, w)
    ensures IsSolution(keys, faults, w)
  {
    forall i | 0 <= i < |faults|
      ensures Dot(RowOf(keys, faults[i]), w) == 0.0
    {
      assert ConstraintRow(constrMat, |keys|, i) == RowOf(keys, faults[i]);
    }
  }

  lemma SolutionsSolveRows(constrMat: seq<real>, keys: seq<Level>, faults: seq<Level>, w: seq<real>)
    requires |constrMat| == 1 + |faults| * |keys| && RowsAreSet(constrMat, keys, faults, |faults|)
    ensures SolvesRows(constrMat, |keys|, |faults|, w) <==> IsSolution(keys, faults, w)
  {
    if IsSolution(keys, faults, w) {
      forall i | 0 <= i < |faults| && 1 + (i + 1) * |keys| <= |constrMat|
        ensures Dot(ConstraintRow(constrMat, |keys|, i), w) == 0.0
      {
        RowOfSet(constrMat, keys, faults, |faults|, i);
      }
    }
    if SolvesRows(constrMat, |keys|, |faults|, w) {
      RowsMeanSolution(constrMat, keys, faults, w);
    }
  }

  /** What the solver looks for: of all weights that solve the rows, those with the largest objective. */
  ghost predicate IsOptimal(constrMat: seq<real>, size: nat, noFaults: nat, g: seq<real>, w: seq<real>)
    requires |constrMat| == 1 + noFaults * size
  {
    && SolvesRows(constrMat, size, noFaults, w) && |g| == size
    && forall v :: SolvesRows(constrMat, size, noFaults, v) ==> Dot(g, v) <= Dot(g, w)
  }

  lemma OptimalIsMaximal(constrMat: seq<real>, keys: seq<Level>, faults: seq<Level>, g: seq<real>, w: seq<real>)
    requires |constrMat| == 1 + |faults| * |keys| && RowsAreSet(constrMat, keys, faults, |faults|)
             && IsObjective(keys, g)
    ensures IsOptimal(constrMat, |keys|, |faults|, g, w) <==> IsMaximalSolution(keys, faults, g, w)
  {
    hide SolvesRows, IsSolution, RowsAreSet, Dot;
    forall v
      ensures SolvesRows(constrMat, |keys|, |faults|, v) <==> IsSolution(keys, faults, v)
    {
      SolutionsSolveRows(constrMat, keys, faults, v);
    }
  }

  /** Whatever the faults on the two finest diagonals are, the solver has something to find. */
  lemma OptimumExists(constrMat: seq<real>, keys: seq<Level>, faults: seq<Level>, g: seq<real>, n: int)
    returns (w: seq<real>)
    requires |constrMat| == 1 + |faults| * |keys| && RowsAreSet(constrMat, keys, faults, |faults|)
    requires IsObjective(keys, g) && AreFine(faults, n)
    ensures IsOptimal(constrMat, |keys|, |faults|, g, w)
  {
    w := MaximalSolutionExists(keys, faults, g, n);
    OptimalIsMaximal(constrMat, keys, faults, g, w);
  }

  /** Four to the power of -n. */
  function NegativePower(n: nat): (x: real)
    ensures x > 0.0
  {
    if n == 0 then 1.0 else NegativePower(n - 1) / 4.0
  }

  function PowerOfFour(n: nat): (x: real)
    ensures x > 0.0
  {
    if n == 0 then 1.0 else 4.0 * PowerOfFour(n - 1)
  }

  lemma {:induction false} PowersAreInverse(n: nat)
    ensures NegativePower(n) * PowerOfFour(n) == 1.0
  {
    if n > 0 {
      PowersAreInverse(n - 1);
      assert NegativePower(n) * PowerOfFour(n) == NegativePower(n - 1) * PowerOfFour(n - 1);
    }
  }

  /** The objective coefficient of a level falls with its norm. */
  function ObjectiveOf(keys: seq<Level>): (g: seq<real>)
    ensures IsObjective(keys, g)
  {
    seq(|keys|, i requires 0 <= i < |keys| => NegativePower(L1Norm(keys[i])))
  }

  /** The coefficient of a level is the inverse of four to the power of its norm, so one diagonal further it is a
      quarter. */
  lemma ObjectiveFalls(keys: seq<Level>, i: nat, j: nat)
    requires i < |keys| && j < |keys|
    ensures ObjectiveOf(keys)[i] * PowerOfFour(L1Norm(keys[i])) == 1.0
    ensures L1Norm(keys[j]) == L1Norm(keys[i]) + 1 ==> ObjectiveOf(keys)[j] == ObjectiveOf(keys)[i] / 4.0
  {
    PowersAreInverse(L1Norm(keys[i]));
  }

  ghost predicate AreInversePowers(objective: seq<real>, aux: Dict) {
    |objective| == |aux| && forall i {:trigger objective[i]} :: 0 <= i < |aux| ==>
      objective[i] * PowerOfFour(L1Norm(aux[i].key)) == 1.0
  }

  lemma ObjectiveIsInverse(aux: Dict)
    ensures AreInversePowers(ObjectiveOf(Keys(aux)), aux)
  {
    hide ObjectiveOf;
    forall i | 0 <= i < |aux|
      ensures ObjectiveOf(Keys(aux))[i] * PowerOfFour(L1Norm(aux[i].key)) == 1.0
    {
      ObjectiveFalls(Keys(aux), i, i);
    }
  }

  method ObjectiveCoefficients(aux: Dict) returns (objective: seq<real>)
    ensures objective == ObjectiveOf(Keys(aux))
  {
    objective := [];
    for i := 0 to |aux|
      invariant objective == ObjectiveOf(Keys(aux))[..i]
    {
      objective := objective + [NegativePower(L1Norm(aux[i].key))];
    }
  }

  /** Every level of the down set at least two diagonals below diagonal n is counted exactly once. */
  ghost predicate CountsCoarse(keys: seq<Level>, allC: seq<real>, n: int) {
    |allC| == |keys| && forall k :: k in keys && LevelSum(k) <= n - 2 ==> TimesCounted(keys, allC, k) == 1.0
  }

  /** The coefficient part of the results: every row of the inverse times the weights. */
  method MultiplyInvM(mInv: array2<real>, w: seq<real>, ghost keys: seq<Level>) returns (allC: seq<real>)
    requires IsInverse(mInv, keys) && |w| == |keys|
    ensures AreRecovered(keys, w, allC)
  {
    allC := [];
    for i := 0 to |w|
      invariant |allC| == i && forall k {:trigger allC[k]} :: 0 <= k < i ==> allC[k] == Dot(RowOf(keys, keys[k]), w)
    {
      var ci := 0.0;
      for j := 0 to |w|
        invariant ci == Dot(RowOf(keys, keys[i])[..j], w[..j])
      {
        assert RowOf(keys, keys[i])[..j + 1][..j] == RowOf(keys, keys[i])[..j] && w[..j + 1][..j] == w[..j];
        ci := ci + mInv[i, j] * w[j];
      }
      assert RowOf(keys, keys[i])[..|w|] == RowOf(keys, keys[i]) && w[..|w|] == w;
      allC := allC + [ci];
    }
  }

  /** The keys of aux that are also keys of given, in order. */
  function Common(aux: Dict, given: Dict): (keys: seq<Level>)
    ensures forall k :: k in keys ==> k in Keys(aux)
  {
    if aux == [] then []
    else
      var front, last := aux[..|aux| - 1], aux[|aux| - 1].key;
      assert Keys(aux) == Keys(front) + [last];
      if Find(given, last) < |given| then Common(front, given) + [last] else Common(front, given)
  }

  lemma {:induction false} CommonFacts(aux: Dict, given: Dict, dim: nat)
    requires IsDict(aux, dim)
    ensures Sorted(Common(aux, given))
    ensures forall k :: k in Common(aux, given) <==> k in Keys(aux) && k in Keys(given)
  {
    if aux != [] {
      var front, last := aux[..|aux| - 1], aux[|aux| - 1];
      FrontIsDict(aux, dim);
      CommonFacts(front, given, dim);
      assert Keys(aux) == Keys(front) + [last.key];
      FindIsMember(given, last.key);
      forall k | k in Common(front, given)
        ensures LexLess(k, last.key)
      {
        var i :| 0 <= i < |front| && Keys(front)[i] == k;
        assert front[i] in front;
      }
      AppendedIsSorted(Common(front, given), last.key);
    }
  }

  lemma FindIsMember(d: Dict, key: Level)
    ensures Find(d, key) < |d| <==> key in Keys(d)
  {
    if Find(d, key) < |d| {
      assert Keys(d)[Find(d, key)] == key;
    }
    if key in Keys(d) {
      FaultIsFound(d, key);
    }
  }

  /** c holds the coefficients of the listed levels. */
  ghost predicate AreChosen(aux: Dict, list: seq<Level>, allC: seq<real>, c: seq<real>) {
    |c| == |list| && |allC| == |aux|
    && forall i {:trigger list[i]} {:trigger c[i]} :: 0 <= i < |list| ==>
      Find(aux, list[i]) < |aux| && c[i] == allC[Find(aux, list[i])]
  }

  lemma CommonNext(aux: Dict, given: Dict, n: nat)
    requires n < |aux|
    ensures var before := Common(aux[..n], given);
            Common(aux[..n + 1], given) == if Find(given, aux[n].key) < |given| then before + [aux[n].key] else before
    ensures Common([], given) == []
  {
    assert aux[..n + 1][..n] == aux[..n];
  }

  method SelectCoeffDownset(allC: seq<real>, given: Dict, aux: Dict, dim: nat) returns (downsetC: seq<real>)
    requires IsDict(aux, dim) && |allC| == |aux| && forall k :: 0 <= k < |aux| ==> aux[k].value == k as real
    ensures AreChosen(aux, Common(aux, given), allC, downsetC)
  {
    downsetC := [];
    for ii := 0 to |aux|
      invariant AreChosen(aux, Common(aux[..ii], given), allC, downsetC)
    {
      FindUnique(aux, dim, ii);
      CommonNext(aux, given, ii);
      if Find(given, aux[ii].key) < |given| {
        downsetC := downsetC + [allC[aux[ii].value.Floor]];
      }
    }
    assert aux[..|aux|] == aux;
  }

  /** The given levels with new coefficients. */
  function WithCoefficients(given: Dict, newC: seq<real>): (out: Dict)
    requires |newC| == |given|
    ensures |out| == |given| && Keys(out) == Keys(given)
  {
    seq(|given|, i requires 0 <= i < |given| => Entry(given[i].key, newC[i]))
  }

  method CreateOutDict(given: Dict, newC: seq<real>, dim: nat) returns (out: Dict)
    requires IsDict(given, dim) && |newC| == |given|
    ensures out == WithCoefficients(given, newC)
  {
    out := [];
    for i := 0 to |given|
      invariant out == WithCoefficients(given, newC)[..i]
    {
      PrefixOfCoefficients(given, newC, dim, i);
      InsertLast(out, dim, given[i].key, newC[i]);
      out := Insert(out, given[i].key, newC[i]);
    }
  }

  lemma PrefixOfCoefficients(given: Dict, newC: seq<real>, dim: nat, n: nat)
    requires IsDict(given, dim) && |newC| == |given| && n < |given|
    ensures IsDict(WithCoefficients(given, newC)[..n], dim)
    ensures forall i :: 0 <= i < n ==> LexLess(WithCoefficients(given, newC)[i].key, given[n].key)
  {
    forall i, j | 0 <= i < j <= n
      ensures LexLess(given[i].key, given[j].key)
    {
      assert LexLess(Keys(given)[i], Keys(given)[j]);
    }
  }

  /** New coefficients for the given grids from a solution of the linear program.  Although they are
      paired by position, every grid gets its own coefficient. */
  method GetResults(aux: Dict, given: Dict, mInv: array2<real>, w: seq<real>, dim: nat)
    returns (output: Dict, ghost allC: seq<real>)
    requires IsDict(aux, dim) && IsDict(given, dim) && (forall k :: 0 <= k < |aux| ==> aux[k].value == k as real)
    requires IsInverse(mInv, Keys(aux)) && |w| == |aux|
    requires forall k :: k in Keys(given) ==> k in Keys(aux)
    ensures AreRecovered(Keys(aux), w, allC)
    ensures Keys(output) == Keys(given)
    ensures TakesCoefficients(output, aux, allC)
  {
    var c := MultiplyInvM(mInv, w, Keys(aux));
    allC := c;
    var newC := SelectCoeffDownset(c, given, aux, dim);
    CommonFacts(aux, given, dim);
    SortedAreEqual(Common(aux, given), Keys(given));
    output := CreateOutDict(given, newC, dim);
  }

  /** The level sum of the finest grids, as the constructor adds it up. */
  function FinestSum(levelMin: Level, levelMax: Level): int
    requires |levelMin| == |levelMax| > 0
  {
    levelMax[0] + LevelSum(levelMin) - levelMin[0]
  }

  /** Adds the entries of levelMin but the first to the first entry of levelMax. */
  method SumOfFinest(levelMin: Level, levelMax: Level) returns (lMax: int)
    requires |levelMin| == |levelMax| > 0
    ensures lMax == FinestSum(levelMin, levelMax)
  {
    lMax := levelMax[0];
    assert levelMin[..1] == [levelMin[0]] && levelMin[..1][..0] == [];
    for i := 1 to |levelMin|
      invariant lMax == levelMax[0] + LevelSum(levelMin[..i]) - levelMin[0]
    {
      assert levelMin[..i + 1][..i] == levelMin[..i];
      lMax := lMax + levelMin[i];
    }
    assert levelMin[..|levelMin|] == levelMin;
  }

  /** Faults that have to be avoided lie on the two finest diagonals of the scheme; the others may be
      recomputed. */
  predicate IsRelevant(given: Dict, lMax: int, fault: Level) {
    Find(given, fault) < |given| && (LevelSum(fault) == lMax || LevelSum(fault) == lMax - 1)
  }

  method FilterFaults(input: seq<Level>, lMax: int, given: Dict) returns (output: seq<Level>)
    ensures forall f :: f in output <==> f in input && IsRelevant(given, lMax, f)
  {
    output := [];
    for i := 0 to |input|
      invariant forall f :: f in output <==> f in input[..i] && IsRelevant(given, lMax, f)
    {
      if IsRelevant(given, lMax, input[i]) {
        output := output + [input[i]];
      }
      assert input[..i + 1] == input[..i] + [input[i]];
    }
    assert input[..|input|] == input;
  }

  /** Every given grid lies between the minimal and maximal level, below a grid with a positive
      coefficient. */
  ghost predicate LiesBelowActive(given: Dict, levelMin: Level, levelMax: Level) {
    forall k {:trigger k in Keys(given)} :: k in Keys(given) ==>
      Leq(levelMin, k) && Leq(k, levelMax) && exists e :: IsActive(given, e) && Leq(k, e.key)
  }

  lemma GivenInDownset(entire: Dict, given: Dict, levelMin: Level, levelMax: Level, upper: int)
    requires IsEntireDownset(entire, given, levelMin, levelMax, upper) && LiesBelowActive(given, levelMin, levelMax)
    requires forall i :: 0 <= i < |levelMin| ==> levelMin[i] >= 1
    requires forall i :: 0 <= i < |levelMax| ==> levelMax[i] <= upper
    ensures forall k :: k in Keys(given) ==> k in Keys(entire)
  {
    forall k | k in Keys(given)
      ensures k in Keys(entire)
    {
      SumIsMonotone(k, levelMax);
      forall j | 0 <= j < |k|
        ensures 1 <= k[j] <= upper
      {
        assert levelMin[j] <= k[j] <= levelMax[j];
      }
      KeyOfDownset(entire, given, levelMin, levelMax, upper, k);
    }
  }

  lemma KeyOfDownset(entire: Dict, given: Dict, levelMin: Level, levelMax: Level, upper: int, k: Level)
    requires IsEntireDownset(entire, given, levelMin, levelMax, upper) && InDownset(given, levelMin, levelMax, upper, k)
    ensures k in Keys(entire)
  {
    var e := Entry(k, ValueIn(given, k));
    assert e in entire;
    var j :| 0 <= j < |entire| && entire[j] == e;
    assert Keys(entire)[j] == k;
  }

  /** Every grid of the output has its own new coefficient. */
  ghost predicate TakesCoefficients(output: Dict, aux: Dict, allC: seq<real>) {
    |allC| == |aux|
    && forall i {:trigger output[i]} :: 0 <= i < |output| ==>
         Find(aux, output[i].key) < |aux| && output[i].value == allC[Find(aux, output[i].key)]
  }

  /** No grid that failed is used. */
  ghost predicate AvoidsFaults(output: Dict, faults: seq<Level>) {
    forall i {:trigger output[i]} :: 0 <= i < |output| && output[i].key in faults ==> output[i].value == 0.0
  }

  /** Every subspace is counted once or not at all. */
  ghost predicate CountsOnceOrNever(keys: seq<Level>, allC: seq<real>, dim: nat) {
    |allC| == |keys|
    && forall k {:trigger TimesCounted(keys, allC, k)} :: |k| == dim ==>
         TimesCounted(keys, allC, k) == 0.0 || (IsCovered(keys, k) && TimesCounted(keys, allC, k) == 1.0)
  }

  lemma SolutionIsSound(entire: Dict, given: Dict, levelMin: Level, levelMax: Level, upper: int, constrMat: seq<real>,
                        faults: seq<Level>, w: seq<real>, allC: seq<real>, output: Dict)
    requires IsEntireDownset(entire, given, levelMin, levelMax, upper)
             && forall i :: 0 <= i < |levelMin| ==> levelMin[i] >= 1
    requires |constrMat| == 1 + |faults| * |entire| && RowsAreSet(constrMat, Keys(entire), faults, |faults|)
    requires SolvesRows(constrMat, |entire|, |faults|, w) && AreRecovered(Keys(entire), w, allC)
    requires TakesCoefficients(output, Numbered(entire), allC)
    ensures AvoidsFaults(output, faults) && CountsOnceOrNever(Keys(entire), allC, |levelMin|)
  {
    DictIsDistinct(entire, |levelMin|);
    DownsetIsClosed(entire, given, levelMin, levelMax, upper);
    RowsMeanSolution(constrMat, Keys(entire), faults, w);
    FaultsAreAvoided(Keys(entire), levelMin, faults, w, allC);
    forall i | 0 <= i < |output| && output[i].key in faults
      ensures output[i].value == 0.0
    {
      var at := Find(Numbered(entire), output[i].key);
      assert Keys(entire)[at] == output[i].key;
    }
  }

  /** If the solution is optimal, the coarse levels are all counted. */
  lemma OptimumIsComplete(entire: Dict, given: Dict, levelMin: Level, levelMax: Level, upper: int, constrMat: seq<real>,
                          faults: seq<Level>, g: seq<real>, w: seq<real>, allC: seq<real>, n: int)
    requires IsEntireDownset(entire, given, levelMin, levelMax, upper)
             && forall i :: 0 <= i < |levelMin| ==> levelMin[i] >= 1
    requires |constrMat| == 1 + |faults| * |entire| && RowsAreSet(constrMat, Keys(entire), faults, |faults|)
             && AreFine(faults, n)
    requires IsObjective(Keys(entire), g) && IsOptimal(constrMat, |entire|, |faults|, g, w)
             && AreRecovered(Keys(entire), w, allC)
    ensures CountsCoarse(Keys(entire), allC, n)
  {
    var keys := Keys(entire);
    DictIsDistinct(entire, |levelMin|);
    DownsetIsClosed(entire, given, levelMin, levelMax, upper);
    OptimalIsMaximal(constrMat, keys, faults, g, w);
    MaximalKeepsCoarse(keys, faults, g, w, n);
    forall k | k in keys && LevelSum(k) <= n - 2
      ensures TimesCounted(keys, allC, k) == 1.0
    {
      CoarseLevelsAreCounted(keys, levelMin, w, allC, n, k);
    }
  }

  class LpOptInterp {
    const levelMin: Level
    const levelMax: Level
    const dim: nat
    const given: Dict
    var entire: Dict
    var aux: Dict
    var faults: seq<Level>
    var invM: array2<real>
    var constrMat: array<real>
    var objective: seq<real>

    ghost predicate Valid()
      reads this, invM
    {
      && dim > 0 && |levelMin| == |levelMax| == dim && (forall i :: 0 <= i < dim ==> levelMin[i] >= 1)
      && IsDict(given, dim) && IsEntireDownset(entire, given, levelMin, levelMax, Greatest(levelMax))
      && aux == Numbered(entire) && IsInverse(invM, Keys(aux))
      && constrMat.Length == 1 + |faults| * |aux|
      && (forall k :: k in Keys(given) ==> k in Keys(aux))
      && (forall f :: f in faults ==> f in Keys(given)) && AreFine(faults, FinestSum(levelMin, levelMax))
    }

    constructor (levelMin: Level, levelMax: Level, dim: nat, given: Dict, inputFaults: seq<Level>)
      requires dim > 0 && |levelMin| == |levelMax| == dim && (forall i :: 0 <= i < dim ==> levelMin[i] >= 1)
      requires IsDict(given, dim) && LiesBelowActive(given, levelMin, levelMax) && levelMax[0] >= 1
      ensures Valid() && fresh(invM) && fresh(constrMat)
      ensures this.levelMin == levelMin && this.levelMax == levelMax && this.dim == dim && this.given == given
      ensures forall f :: f in faults <==> f in inputFaults && IsRelevant(given, FinestSum(levelMin, levelMax), f)
    {
      this.levelMin, this.levelMax, this.dim, this.given := levelMin, levelMax, dim, given;
      var lMax := SumOfFinest(levelMin, levelMax);
      var valid := FilterFaults(inputFaults, lMax, given);
      var downset := SetEntireDownsetDict(levelMin, levelMax, given, dim);
      var numbered := CreateAuxEntireDict(downset, dim);
      var inverse := GetInvM(numbered, dim);
      faults, entire, aux, invM, objective := valid, downset, numbered, inverse, [];
      constrMat := new real[1 + |valid| * |numbered|];
      GivenInDownset(downset, given, levelMin, levelMax, Greatest(levelMax));
      FaultsAreGiven(valid, inputFaults, lMax, given);
    }

    /** Sets the objective coefficient of every level of the down set. */
    method InitOptiProb()
      requires Valid()
      modifies this`objective
      ensures Valid() && objective == ObjectiveOf(Keys(aux))
      ensures AreInversePowers(objective, aux)
    {
      hide AreInversePowers;
      objective := ObjectiveCoefficients(aux);
      ObjectiveIsInverse(aux);
    }

    /** Fills the constraint rows. */
    method SetConstraints()
      requires Valid()
      modifies constrMat
      ensures Valid() && RowsAreSet(constrMat[..], Keys(aux), faults, |faults|)
    {
      SetConstrMatrix(aux, dim, faults, invM, constrMat);
    }

    /** With a solution of the linear program no grid that failed is used, and the coefficients of the
        whole down set count every subspace once or not at all.  With an optimal one they count every level at least two
        diagonals below the finest exactly once. */
    method Results(w: seq<real>) returns (output: Dict, ghost allC: seq<real>)
      requires Valid() && RowsAreSet(constrMat[..], Keys(aux), faults, |faults|)
      requires SolvesRows(constrMat[..], |aux|, |faults|, w)
      ensures Keys(output) == Keys(given) && TakesCoefficients(output, aux, allC) && AreRecovered(Keys(aux), w, allC)
      ensures AvoidsFaults(output, faults) && CountsOnceOrNever(Keys(aux), allC, dim)
      ensures objective == ObjectiveOf(Keys(aux)) && IsOptimal(constrMat[..], |aux|, |faults|, objective, w)
              ==> CountsCoarse(Keys(aux), allC, FinestSum(levelMin, levelMax))
    {
      output, allC := GetResults(aux, given, invM, w, dim);
      SolutionIsSound(entire, given, levelMin, levelMax, Greatest(levelMax), constrMat[..], faults, w, allC, output);
      if objective == ObjectiveOf(Keys(aux)) && IsOptimal(constrMat[..], |aux|, |faults|, objective, w) {
        OptimumIsComplete(entire, given, levelMin, levelMax, Greatest(levelMax), constrMat[..], faults, objective, w,
                          allC, FinestSum(levelMin, levelMax));
      }
    }
  }

  lemma FaultsAreGiven(valid: seq<Level>, input: seq<Level>, lMax: int, given: Dict)
    requires forall f :: f in valid <==> f in input && IsRelevant(given, lMax, f)
    ensures (forall f :: f in valid ==> f in Keys(given)) && AreFine(valid, lMax)
  {
    forall f | f in valid
      ensures f in Keys(given) && LevelSum(f) >= lMax - 1
    {
      FindIsMember(given, f);
    }
  }
}
