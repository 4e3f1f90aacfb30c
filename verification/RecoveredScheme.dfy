/** What becomes of the recovered coefficients: fault recovery computes them for a whole down set but returns only
    those of the given grids. */
module RecoveredScheme {
  import opened FiniteSums
  import opened LevelSets
  import opened LevelDictionary
  import opened CombiScheme
  import opened FaultRecovery
  import opened MaximalSolutions
  import opened LpOptimization

  function Values(d: Dict): (values: seq<real>)
    ensures |values| == |d|
  {
    seq(|d|, i requires 0 <= i < |d| => d[i].value)
  }

  /** The coefficients of the whole down set without those of levels that were not given. */
  function Masked(keys: seq<Level>, allC: seq<real>, given: seq<Level>): (c: seq<real>)
    requires |allC| == |keys|
    ensures |c| == |keys|
  {
    seq(|keys|, i requires 0 <= i < |keys| => if keys[i] in given then allC[i] else 0.0)
  }

  /** The output counts like the masked coefficients. */
  lemma OutputCountsMasked(output: Dict, aux: Dict, dim: nat, allC: seq<real>, k: Level)
    requires IsDict(aux, dim) && IsDict(output, dim) && TakesCoefficients(output, aux, allC)
    ensures TimesCounted(Keys(output), Values(output), k)
            == TimesCounted(Keys(aux), Masked(Keys(aux), allC, Keys(output)), k)
  {
    var keys, given := Keys(aux), Keys(output);
    var c := Masked(keys, allC, given);
    var f := WeightAt(keys, c);
    DictIsDistinct(aux, dim);
    DictIsDistinct(output, dim);
    forall j | 0 <= j < |keys|
      ensures f(keys[j]) == c[j]
    {
      WeightAtKey(keys, c, j);
    }
    forall i | 0 <= i < |output|
      ensures given[i] in keys && f(given[i]) == Values(output)[i]
    {
      var at := Find(aux, output[i].key);
      assert keys[at] == given[i] && c[at] == allC[at];
    }
    TimesCountedIsSum(keys, c, k, f);
    TimesCountedIsSum(given, Values(output), k, f);
    SeqSumIsSum(keys, CountedTerm(k, f));
    SeqSumIsSum(given, CountedTerm(k, f));
    forall l | l in Elements(keys) && l !in Elements(given)
      ensures f(l) == 0.0
    {
      var j :| 0 <= j < |keys| && keys[j] == l;
    }
    SumOfSubset(Elements(keys), Elements(given), CountedTerm(k, f));
  }

  ghost predicate CountAlike(keys: seq<Level>, c: seq<real>, d: seq<real>)
    requires |c| == |d| == |keys|
  {
    forall k :: k in keys ==> TimesCounted(keys, c, k) == TimesCounted(keys, d, k)
  }

  /** Different coefficients count differently. */
  lemma CountsDetermineCoefficients(keys: seq<Level>, lmin: Level, c: seq<real>, d: seq<real>)
    requires Distinct(keys) && DownClosed(Elements(keys), lmin) && |c| == |d| == |keys|
    ensures CountAlike(keys, c, d) <==> c == d
  {
    if CountAlike(keys, c, d) {
      var w := seq(|keys|, i requires 0 <= i < |keys| => TimesCounted(keys, c, keys[i]));
      RecoveredAreUnique(keys, lmin, w, c);
      RecoveredAreUnique(keys, lmin, w, d);
    }
  }

  ghost predicate OutputCountsAlike(output: Dict, keys: seq<Level>, allC: seq<real>)
    requires |allC| == |keys|
  {
    forall k :: k in keys ==> TimesCounted(Keys(output), Values(output), k) == TimesCounted(keys, allC, k)
  }

  lemma MaskedIsSame(keys: seq<Level>, allC: seq<real>, given: seq<Level>)
    requires |allC| == |keys|
    ensures Masked(keys, allC, given) == allC <==> forall i :: 0 <= i < |keys| && keys[i] !in given ==> allC[i] == 0.0
  {
    if Masked(keys, allC, given) == allC {
      forall i | 0 <= i < |keys| && keys[i] !in given
        ensures allC[i] == 0.0
      {
        assert Masked(keys, allC, given)[i] == allC[i];
      }
    }
  }

  ghost predicate IsChosen(keys: seq<Level>, w: seq<real>, l: Level, parity: int, m: Level)
    requires |w| == |keys|
  {
    Adjacent(l, m) && (LevelSum(m) - LevelSum(l)) % 2 == parity && WeightAt(keys, w)(m) == 1.0
  }

  /** The neighbours of l with weight one at an even (parity 0) or odd (parity 1) distance. */
  ghost function Chosen(keys: seq<Level>, w: seq<real>, l: Level, parity: int): set<Level>
    requires |w| == |keys|
  {
    set m | m in keys && IsChosen(keys, w, l, parity, m)
  }

  /** As many neighbours at an even distance are chosen as at an odd one. */
  ghost predicate IsBalanced(keys: seq<Level>, w: seq<real>, l: Level)
    requires |w| == |keys|
  {
    |Chosen(keys, w, l, 0)| == |Chosen(keys, w, l, 1)|
  }

  /** A sum of ones and minus ones. */
  lemma {:induction false} SumOfSigns<T>(s: set<T>, f: T -> real, plus: set<T>, minus: set<T>)
    requires plus <= s && minus <= s && plus !! minus
    requires forall x :: x in s ==> f(x) == if x in plus then 1.0 else if x in minus then -1.0 else 0.0
    ensures Sum(s, f) == (|plus| - |minus|) as real
    decreases |s|
  {
    if s != {} {
      var x := Pick(s);
      SumOfSigns(s - {x}, f, plus - {x}, minus - {x});
    }
  }

  lemma WeightIsBinary(keys: seq<Level>, w: seq<real>, l: Level)
    requires |w| == |keys| && AreBinary(w)
    ensures WeightAt(keys, w)(l) == 0.0 || WeightAt(keys, w)(l) == 1.0
  {
  }

  /** The recovered coefficient of a level counts its chosen neighbours with alternating signs. */
  lemma CoefficientIsBalance(keys: seq<Level>, w: seq<real>, l: Level)
    requires Distinct(keys) && |w| == |keys| && AreBinary(w)
    ensures Dot(RowOf(keys, l), w) == (|Chosen(keys, w, l, 0)| - |Chosen(keys, w, l, 1)|) as real
  {
    var s, f := Elements(keys), WeightedTerm(l, WeightAt(keys, w));
    DotIsCoefficient(keys, w, l);
    SumEqual(s, f, m => Term(l, m, WeightAt(keys, w)(m)));
    forall m | m in s
      ensures f(m) == if m in Chosen(keys, w, l, 0) then 1.0 else if m in Chosen(keys, w, l, 1) then -1.0 else 0.0
    {
      WeightIsBinary(keys, w, m);
    }
    SumOfSigns(s, f, Chosen(keys, w, l, 0), Chosen(keys, w, l, 1));
  }

  /** The output, which leaves out the levels that were not given, counts every level of the down set as the whole
      solution does if and only if the chosen neighbours of every level left out are balanced. */
  lemma LeavingOutIsHarmless(output: Dict, aux: Dict, dim: nat, lmin: Level, w: seq<real>, allC: seq<real>)
    requires IsDict(aux, dim) && IsDict(output, dim) && TakesCoefficients(output, aux, allC)
    requires DownClosed(Elements(Keys(aux)), lmin) && AreRecovered(Keys(aux), w, allC) && AreBinary(w)
    ensures OutputCountsAlike(output, Keys(aux), allC) <==>
            forall l :: l in Keys(aux) && l !in Keys(output) ==> IsBalanced(Keys(aux), w, l)
  {
    var keys := Keys(aux);
    DictIsDistinct(aux, dim);
    OutputIsMasked(output, aux, dim, lmin, allC);
    forall i | 0 <= i < |keys|
      ensures allC[i] == 0.0 <==> IsBalanced(keys, w, keys[i])
    {
      CoefficientIsBalance(keys, w, keys[i]);
    }
  }

  lemma OutputIsMasked(output: Dict, aux: Dict, dim: nat, lmin: Level, allC: seq<real>)
    requires IsDict(aux, dim) && IsDict(output, dim) && TakesCoefficients(output, aux, allC)
    requires DownClosed(Elements(Keys(aux)), lmin)
    ensures OutputCountsAlike(output, Keys(aux), allC)
            <==> CountAlike(Keys(aux), Masked(Keys(aux), allC, Keys(output)), allC)
    ensures OutputCountsAlike(output, Keys(aux), allC) <==>
            forall i :: 0 <= i < |aux| && Keys(aux)[i] !in Keys(output) ==> allC[i] == 0.0
  {
    var keys := Keys(aux);
    var c := Masked(keys, allC, Keys(output));
    DictIsDistinct(aux, dim);
    forall k
      ensures TimesCounted(Keys(output), Values(output), k) == TimesCounted(keys, c, k)
    {
      OutputCountsMasked(output, aux, dim, allC, k);
    }
    CountsDetermineCoefficients(keys, lmin, c, allC);
    MaskedIsSame(keys, allC, Keys(output));
  }

  /** The coefficients of the solution w. */
  ghost function Recovered(keys: seq<Level>, w: seq<real>): (c: seq<real>)
    requires |w| == |keys|
    ensures AreRecovered(keys, w, c)
  {
    seq(|keys|, i requires 0 <= i < |keys| => Dot(RowOf(keys, keys[i]), w))
  }

  /** The recovered coefficients of the given levels count like those of all levels. */
  ghost predicate GivenSuffice(keys: seq<Level>, given: seq<Level>, w: seq<real>)
    requires |w| == |keys|
  {
    CountAlike(keys, Masked(keys, Recovered(keys, w), given), Recovered(keys, w))
  }

  /** No neighbour of l lies on the two finest diagonals, and the adaptive coefficient of l is zero. */
  ghost predicate IsSettled(keys: seq<Level>, n: int, l: Level) {
    Coefficient(Elements(keys), One(), l) == 0.0 && forall m :: m in keys && Adjacent(l, m) ==> LevelSum(m) <= n - 2
  }

  lemma GivenSufficeIf(keys: seq<Level>, lmin: Level, given: seq<Level>, w: seq<real>)
    requires Distinct(keys) && DownClosed(Elements(keys), lmin) && |w| == |keys|
    ensures GivenSuffice(keys, given, w) <==>
            forall i :: 0 <= i < |keys| && keys[i] !in given ==> Dot(RowOf(keys, keys[i]), w) == 0.0
  {
    var c := Recovered(keys, w);
    CountsDetermineCoefficients(keys, lmin, Masked(keys, c, given), c);
    MaskedIsSame(keys, c, given);
    assert forall i :: 0 <= i < |keys| ==> c[i] == Dot(RowOf(keys, keys[i]), w);
  }

  /** Without neighbours on the two finest diagonals, the recovered coefficient is the adaptive one. */
  lemma CoarseCoefficient(keys: seq<Level>, w: seq<real>, n: int, l: Level)
    requires Distinct(keys) && KeepsCoarse(keys, w, n)
             && forall m :: m in keys && Adjacent(l, m) ==> LevelSum(m) <= n - 2
    ensures Dot(RowOf(keys, l), w) == Coefficient(Elements(keys), One(), l)
  {
    var s, f := Elements(keys), WeightAt(keys, w);
    DotIsCoefficient(keys, w, l);
    forall m | m in s
      ensures Term(l, m, f(m)) == Term(l, m, One()(m))
    {
      if Adjacent(l, m) {
        var j :| 0 <= j < |keys| && keys[j] == m;
        WeightAtKey(keys, w, j);
      }
    }
    SumEqual(s, m => Term(l, m, f(m)), m => Term(l, m, One()(m)));
  }

  /** A weight vector that keeps the coarse levels needs no other levels if those left out are settled. */
  lemma SettledSuffice(keys: seq<Level>, lmin: Level, given: seq<Level>, w: seq<real>, n: int)
    requires Distinct(keys) && DownClosed(Elements(keys), lmin) && KeepsCoarse(keys, w, n)
    requires forall l :: l in keys && l !in given ==> IsSettled(keys, n, l)
    ensures GivenSuffice(keys, given, w)
  {
    forall i | 0 <= i < |keys| && keys[i] !in given
      ensures Dot(RowOf(keys, keys[i]), w) == 0.0
    {
      assert IsSettled(keys, n, keys[i]);
      CoarseCoefficient(keys, w, n, keys[i]);
    }
    GivenSufficeIf(keys, lmin, given, w);
  }

  /** The faults that have to be avoided are given levels on the two finest diagonals. */
  ghost predicate MayFail(keys: seq<Level>, given: seq<Level>, n: int, faults: seq<Level>) {
    forall f :: f in faults ==> f in keys && f in given && n - 1 <= LevelSum(f) <= n
  }

  /** Whatever fails, and whichever of the best solutions the solver finds, the given levels suffice. */
  ghost predicate AlwaysSuffice(keys: seq<Level>, given: seq<Level>, n: int, g: seq<real>) {
    forall faults, w :: MayFail(keys, given, n, faults) && IsMaximalSolution(keys, faults, g, w) ==>
      GivenSuffice(keys, given, w)
  }

  function KeysAbove(keys: seq<Level>, m: Level): (list: seq<Level>)
    ensures forall k :: k in list <==> k in keys && Leq(m, k)
  {
    if keys == [] then []
    else
      var front, last := keys[..|keys| - 1], keys[|keys| - 1];
      assert keys == front + [last];
      KeysAbove(front, m) + if Leq(m, last) then [last] else []
  }

  /** The highest of the neighbours of l above m. */
  lemma {:induction false} HighestNeighbour(keys: seq<Level>, l: Level, m: Level) returns (h: Level)
    requires m in keys && Adjacent(l, m)
    ensures h in keys && Adjacent(l, h) && Leq(m, h) && forall k :: k in keys && Adjacent(l, k) && Leq(h, k) ==> k == h
    decreases LevelSum(PlusOne(l)) - LevelSum(m)
  {
    if k :| k in keys && Adjacent(l, k) && Leq(m, k) && k != m {
      LargerSum(m, k);
      assert Leq(k, PlusOne(l));
      SumIsMonotone(k, PlusOne(l));
      h := HighestNeighbour(keys, l, k);
    } else {
      h := m;
    }
  }

  /** Failing a highest neighbour and everything above it changes the coefficient of l by one. */
  lemma NeighbourMatters(keys: seq<Level>, l: Level, h: Level)
    requires Distinct(keys) && h in keys && Adjacent(l, h)
    requires forall k :: k in keys && Adjacent(l, k) && Leq(h, k) ==> k == h
    ensures Dot(RowOf(keys, l), Others(keys, [])) != Dot(RowOf(keys, l), Others(keys, KeysAbove(keys, h)))
    ensures l == h ==> Dot(RowOf(keys, l), Others(keys, KeysAbove(keys, h))) == 0.0
  {
    var row, ones, rest := RowOf(keys, l), Others(keys, []), Others(keys, KeysAbove(keys, h));
    var j :| 0 <= j < |keys| && keys[j] == h;
    forall i | 0 <= i < |keys|
      ensures row[i] == 0.0 || ones[i] == rest[j := 1.0][i]
      ensures l == h ==> row[i] == 0.0 || rest[i] == 0.0
    {
      assert keys[i] in keys;
    }
    DotOfUpdate(row, rest, j);
    DotIsLocal(row, ones, rest[j := 1.0]);
    if l == h {
      DotOfZeros(row, rest);
    }
  }

  /** A solution that gives a coefficient to a level that is not given spoils the output. */
  lemma CoefficientIsMissed(keys: seq<Level>, lmin: Level, given: seq<Level>, n: int, g: seq<real>, l: Level,
                            faults: seq<Level>)
    requires Distinct(keys) && DownClosed(Elements(keys), lmin) && IsObjective(keys, g)
    requires l in keys && l !in given && (forall k :: k in keys ==> LevelSum(k) <= n)
    requires MayFail(keys, given, n, faults) && AreUpward(keys, faults)
    requires Dot(RowOf(keys, l), Others(keys, faults)) != 0.0
    ensures !AlwaysSuffice(keys, given, n, g)
  {
    var i :| 0 <= i < |keys| && keys[i] == l;
    OthersAreMaximal(keys, faults, g, n);
    GivenSufficeIf(keys, lmin, given, Others(keys, faults));
  }

  /** Without faults the recovered coefficient is the adaptive one. */
  lemma AdaptiveWithoutFaults(keys: seq<Level>, n: int, l: Level)
    requires Distinct(keys) && forall k :: k in keys ==> LevelSum(k) <= n
    ensures Dot(RowOf(keys, l), Others(keys, [])) == Coefficient(Elements(keys), One(), l)
  {
    assert KeepsCoarse(keys, Others(keys, []), n + 2);
    CoarseCoefficient(keys, Others(keys, []), n + 2, l);
  }

  /** If a level left out is not settled, but all finer levels of the two finest diagonals are given, then either it
      has a coefficient without any fault, or it gets one when a highest neighbour fails with everything above it. */
  lemma UnsettledIsMissed(keys: seq<Level>, lmin: Level, given: seq<Level>, n: int, g: seq<real>, l: Level)
    requires Distinct(keys) && DownClosed(Elements(keys), lmin) && IsObjective(keys, g)
    requires l in keys && l !in given && (forall k :: k in keys ==> LevelSum(k) <= n) && !IsSettled(keys, n, l)
    requires forall k :: k in keys && LevelSum(l) < LevelSum(k) && n - 1 <= LevelSum(k) ==> k in given
    ensures !AlwaysSuffice(keys, given, n, g)
  {
    hide Dot, AlwaysSuffice, Others, Coefficient, KeysAbove, IsObjective, DownClosed, Distinct;
    AdaptiveWithoutFaults(keys, n, l);
    if Dot(RowOf(keys, l), Others(keys, [])) != 0.0 {
      CoefficientIsMissed(keys, lmin, given, n, g, l, []);
    } else {
      var m :| m in keys && Adjacent(l, m) && LevelSum(m) > n - 2;
      var h := HighestNeighbour(keys, l, m);
      NeighbourMatters(keys, l, h);
      LargerSum(l, h);
      forall f | f in KeysAbove(keys, h)
        ensures f in given && n - 1 <= LevelSum(f)
      {
        SumIsMonotone(m, h);
        SumIsMonotone(h, f);
      }
      CoefficientIsMissed(keys, lmin, given, n, g, l, KeysAbove(keys, h));
    }
  }

  lemma {:induction false} SufficeMeansSettled(keys: seq<Level>, lmin: Level, given: seq<Level>, n: int, g: seq<real>,
                                               l: Level)
    requires Distinct(keys) && DownClosed(Elements(keys), lmin) && IsObjective(keys, g)
    requires (forall k :: k in keys ==> LevelSum(k) <= n) && AlwaysSuffice(keys, given, n, g)
    requires l in keys && l !in given
    ensures IsSettled(keys, n, l)
    decreases n - LevelSum(l)
  {
    forall k | k in keys && LevelSum(l) < LevelSum(k) && n - 1 <= LevelSum(k)
      ensures k in given
    {
      assert Adjacent(k, k);
      if k !in given {
        SufficeMeansSettled(keys, lmin, given, n, g, k);
      }
    }
    if !IsSettled(keys, n, l) {
      UnsettledIsMissed(keys, lmin, given, n, g, l);
    }
  }

  /** Whatever levels of the two finest diagonals fail, and for any positive objective, the given levels suffice if and
      only if every other level is settled.  Which levels are given and which are settled is known before anything
      fails. */
  lemma GivenSufficeAlways(keys: seq<Level>, lmin: Level, given: seq<Level>, n: int, g: seq<real>)
    requires Distinct(keys) && DownClosed(Elements(keys), lmin) && IsObjective(keys, g)
    requires forall k :: k in keys ==> LevelSum(k) <= n
    ensures AlwaysSuffice(keys, given, n, g) <==> forall l :: l in keys && l !in given ==> IsSettled(keys, n, l)
  {
    if forall l :: l in keys && l !in given ==> IsSettled(keys, n, l) {
      forall faults, w | MayFail(keys, given, n, faults) && IsMaximalSolution(keys, faults, g, w)
        ensures GivenSuffice(keys, given, w)
      {
        MaximalKeepsCoarse(keys, faults, g, w, n);
        SettledSuffice(keys, lmin, given, w, n);
      }
    }
    if AlwaysSuffice(keys, given, n, g) {
      forall l | l in keys && l !in given
        ensures IsSettled(keys, n, l)
      {
        SufficeMeansSettled(keys, lmin, given, n, g, l);
      }
    }
  }
}
