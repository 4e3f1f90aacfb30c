/** The solutions among which the solver of the fault recovery chooses: of all solutions one with the largest objective,
    which prefers coarse levels.  Such a solution keeps every level that no fault forces it to leave out. */
module MaximalSolutions {
  import opened LevelSets
  import opened FiniteSums
  import opened CombiScheme
  import opened FaultRecovery

  ghost predicate AreBinary(w: seq<real>) {
    forall j :: 0 <= j < |w| ==> w[j] == 0.0 || w[j] == 1.0
  }

  ghost predicate AllPositive(g: seq<real>) {
    forall j :: 0 <= j < |g| ==> g[j] > 0.0
  }

  /** A positive objective coefficient for every key. */
  ghost predicate IsObjective(keys: seq<Level>, g: seq<real>) {
    |g| == |keys| && AllPositive(g)
  }

  /** A solution with the largest possible sum of the objective coefficients g of the levels that it chooses. */
  ghost predicate IsMaximalSolution(keys: seq<Level>, faults: seq<Level>, g: seq<real>, w: seq<real>) {
    && IsSolution(keys, faults, w) && IsObjective(keys, g)
    && forall v :: IsSolution(keys, faults, v) ==> Dot(g, v) <= Dot(g, w)
  }

  lemma {:induction false} DotOfZeros(row: seq<real>, w: seq<real>)
    requires |row| == |w| && forall j :: 0 <= j < |row| ==> row[j] == 0.0 || w[j] == 0.0
    ensures Dot(row, w) == 0.0
  {
    if row != [] {
      DotOfZeros(row[..|row| - 1], w[..|w| - 1]);
    }
  }

  lemma {:induction false} DotOfSingle(row: seq<real>, w: seq<real>, j: nat)
    requires |row| == |w| && j < |row| && forall i :: 0 <= i < |row| && i != j ==> row[i] == 0.0 || w[i] == 0.0
    ensures Dot(row, w) == row[j] * w[j]
  {
    var n := |row| - 1;
    if j == n {
      DotOfZeros(row[..n], w[..n]);
    } else {
      DotOfSingle(row[..n], w[..n], j);
    }
  }

  lemma {:induction false} DotOfUpdate(row: seq<real>, w: seq<real>, j: nat)
    requires |row| == |w| && j < |w| && w[j] == 0.0
    ensures Dot(row, w[j := 1.0]) == Dot(row, w) + row[j]
  {
    var n := |row| - 1;
    assert w[j := 1.0][..n] == if j == n then w[..n] else w[..n][j := 1.0];
    if j < n {
      DotOfUpdate(row[..n], w[..n], j);
    }
  }

  /** Where the row is zero the weights do not matter. */
  lemma {:induction false} DotIsLocal(row: seq<real>, v: seq<real>, w: seq<real>)
    requires |row| == |v| == |w| && forall j :: 0 <= j < |row| ==> row[j] == 0.0 || v[j] == w[j]
    ensures Dot(row, v) == Dot(row, w)
  {
    if row != [] {
      DotIsLocal(row[..|row| - 1], v[..|v| - 1], w[..|w| - 1]);
    }
  }

  lemma ProductIsMonotone(x: real, a: real, b: real)
    requires x >= 0.0 && a <= b
    ensures x * a <= x * b
  {
  }

  lemma LastProduct(g: seq<real>, w: seq<real>) returns (last: real)
    requires |g| == |w| > 0
    ensures var n := |g| - 1; last == g[n] * w[n] && Dot(g, w) == Dot(g[..n], w[..n]) + last
  {
    last := g[|g| - 1] * w[|g| - 1];
  }

  lemma {:induction false} DotIsMonotone(g: seq<real>, v: seq<real>, w: seq<real>)
    requires |g| == |v| == |w| && AllPositive(g) && forall j :: 0 <= j < |g| ==> v[j] <= w[j]
    ensures Dot(g, v) <= Dot(g, w)
  {
    hide Dot;
    if g != [] {
      var n := |g| - 1;
      DotIsMonotone(g[..n], v[..n], w[..n]);
      var a := LastProduct(g, v);
      var b := LastProduct(g, w);
      ProductIsMonotone(g[n], v[n], w[n]);
      assert a <= b;
    } else {
      assert v == [] && w == [];
    }
  }

  /** The weights are binary, and one for every level at least two diagonals below diagonal n. */
  ghost predicate KeepsCoarse(keys: seq<Level>, w: seq<real>, n: int) {
    |w| == |keys| && AreBinary(w) && forall j :: 0 <= j < |keys| && LevelSum(keys[j]) <= n - 2 ==> w[j] == 1.0
  }

  ghost predicate AreFine(faults: seq<Level>, n: int) {
    forall f :: f in faults ==> LevelSum(f) >= n - 1
  }

  /** Choosing another coarse level breaks no constraint. */
  lemma CoarserIsSolution(keys: seq<Level>, faults: seq<Level>, w: seq<real>, n: int, j: nat)
    requires IsSolution(keys, faults, w) && AreFine(faults, n) && j < |keys| && LevelSum(keys[j]) <= n - 2
             && w[j] == 0.0
    ensures IsSolution(keys, faults, w[j := 1.0])
  {
    forall i | 0 <= i < |faults|
      ensures Dot(RowOf(keys, faults[i]), w[j := 1.0]) == 0.0
    {
      assert faults[i] in faults;
      if Adjacent(faults[i], keys[j]) {
        SumIsMonotone(faults[i], keys[j]);
      }
      DotOfUpdate(RowOf(keys, faults[i]), w, j);
    }
  }

  /** If only levels of the two finest diagonals fail, the solver chooses all coarser levels: any solution that does not
      is improved by adding one. */
  lemma MaximalKeepsCoarse(keys: seq<Level>, faults: seq<Level>, g: seq<real>, w: seq<real>, n: int)
    requires IsMaximalSolution(keys, faults, g, w) && AreFine(faults, n)
    ensures KeepsCoarse(keys, w, n)
  {
    forall j | 0 <= j < |keys| && LevelSum(keys[j]) <= n - 2
      ensures w[j] == 1.0
    {
      if w[j] == 0.0 {
        CoarserIsSolution(keys, faults, w, n, j);
        DotOfUpdate(g, w, j);
      }
    }
  }

  /** Recovery with such weights counts every level at least two diagonals below n exactly once. */
  lemma CoarseLevelsAreCounted(keys: seq<Level>, lmin: Level, w: seq<real>, allC: seq<real>, n: int, k: Level)
    requires Distinct(keys) && DownClosed(Elements(keys), lmin) && AreRecovered(keys, w, allC)
    requires KeepsCoarse(keys, w, n) && k in keys && LevelSum(k) <= n - 2
    ensures TimesCounted(keys, allC, k) == 1.0
  {
    assert k in Elements(keys) && Leq(lmin, k);
    RecoveredCounts(keys, lmin, w, allC, k);
    assert Join(k, lmin) == k;
    var j :| 0 <= j < |keys| && keys[j] == k;
    WeightAtKey(keys, w, j);
  }

  /** Weight one for exactly the levels at least two diagonals below diagonal n. */
  function CoarseWeights(keys: seq<Level>, n: int): (w: seq<real>)
    ensures KeepsCoarse(keys, w, n)
  {
    seq(|keys|, j requires 0 <= j < |keys| => if LevelSum(keys[j]) <= n - 2 then 1.0 else 0.0)
  }

  /** Whatever the faults on the two finest diagonals are, the linear program has a solution, and one that keeps all
      coarser levels. */
  lemma CoarseIsSolution(keys: seq<Level>, faults: seq<Level>, n: int)
    requires AreFine(faults, n)
    ensures IsSolution(keys, faults, CoarseWeights(keys, n))
  {
    var w := CoarseWeights(keys, n);
    forall i | 0 <= i < |faults|
      ensures Dot(RowOf(keys, faults[i]), w) == 0.0
    {
      assert faults[i] in faults;
      forall j | 0 <= j < |keys|
        ensures RowOf(keys, faults[i])[j] == 0.0 || w[j] == 0.0
      {
        if Adjacent(faults[i], keys[j]) {
          SumIsMonotone(faults[i], keys[j]);
        }
      }
      DotOfZeros(RowOf(keys, faults[i]), w);
    }
  }

  /** All vectors of n binary entries. */
  ghost function BinaryVectors(n: nat): seq<seq<real>> {
    if n == 0 then [[]] else Extended(BinaryVectors(n - 1), 0.0) + Extended(BinaryVectors(n - 1), 1.0)
  }

  ghost function Extended(list: seq<seq<real>>, x: real): (longer: seq<seq<real>>)
    ensures |longer| == |list| && forall i :: 0 <= i < |list| ==> longer[i] == list[i] + [x]
  {
    seq(|list|, i requires 0 <= i < |list| => list[i] + [x])
  }

  lemma ExtendedMember(list: seq<seq<real>>, v: seq<real>, x: real)
    requires v in list
    ensures v + [x] in Extended(list, x)
  {
    var i :| 0 <= i < |list| && list[i] == v;
    assert Extended(list, x)[i] == v + [x];
  }

  lemma {:induction false} AllBinaryVectors(w: seq<real>)
    requires AreBinary(w)
    ensures w in BinaryVectors(|w|)
  {
    if w != [] {
      var n := |w| - 1;
      AllBinaryVectors(w[..n]);
      ExtendedMember(BinaryVectors(n), w[..n], w[n]);
      assert w == w[..n] + [w[n]];
    }
  }

  /** Of the solutions in a list, one has the largest objective. */
  lemma {:induction false} BestOfList(list: seq<seq<real>>, keys: seq<Level>, faults: seq<Level>, g: seq<real>,
                                      v: seq<real>)
    returns (best: seq<real>)
    requires v in list && IsSolution(keys, faults, v) && |g| == |keys|
    ensures IsSolution(keys, faults, best)
            && forall w :: w in list && IsSolution(keys, faults, w) ==> Dot(g, w) <= Dot(g, best)
  {
    var front, last := list[..|list| - 1], list[|list| - 1];
    assert list == front + [last];
    if u :| u in front && IsSolution(keys, faults, u) {
      best := BestOfList(front, keys, faults, g, u);
      if IsSolution(keys, faults, last) && Dot(g, best) < Dot(g, last) {
        best := last;
      }
    } else {
      best := v;
    }
  }

  /** The solver has something to find. */
  lemma MaximalSolutionExists(keys: seq<Level>, faults: seq<Level>, g: seq<real>, n: int) returns (w: seq<real>)
    requires IsObjective(keys, g) && AreFine(faults, n)
    ensures IsMaximalSolution(keys, faults, g, w)
  {
    CoarseIsSolution(keys, faults, n);
    AllBinaryVectors(CoarseWeights(keys, n));
    w := BestOfList(BinaryVectors(|keys|), keys, faults, g, CoarseWeights(keys, n));
    forall v | IsSolution(keys, faults, v)
      ensures Dot(g, v) <= Dot(g, w)
    {
      AllBinaryVectors(v);
    }
  }

  /** With every fault all keys above it have failed. */
  ghost predicate AreUpward(keys: seq<Level>, faults: seq<Level>) {
    (forall f :: f in faults ==> f in keys) && forall f, k :: f in faults && k in keys && Leq(f, k) ==> k in faults
  }

  /** Weight one for everything that has not failed. */
  function Others(keys: seq<Level>, faults: seq<Level>): (w: seq<real>)
    ensures |w| == |keys| && forall j :: 0 <= j < |keys| ==> w[j] == if keys[j] in faults then 0.0 else 1.0
  {
    seq(|keys|, j requires 0 <= j < |keys| => if keys[j] in faults then 0.0 else 1.0)
  }

  lemma OthersAreSolution(keys: seq<Level>, faults: seq<Level>)
    requires AreUpward(keys, faults)
    ensures IsSolution(keys, faults, Others(keys, faults))
  {
    var w := Others(keys, faults);
    forall i | 0 <= i < |faults|
      ensures Dot(RowOf(keys, faults[i]), w) == 0.0
    {
      assert faults[i] in faults;
      forall j | 0 <= j < |keys|
        ensures RowOf(keys, faults[i])[j] == 0.0 || w[j] == 0.0
      {
        assert keys[j] in keys;
      }
      DotOfZeros(RowOf(keys, faults[i]), w);
    }
  }

  /** If all keys above a failed level have failed, every solution leaves it out. */
  lemma {:induction false} UpwardIsLeftOut(keys: seq<Level>, faults: seq<Level>, w: seq<real>, j: nat, bound: int)
    requires Distinct(keys) && AreUpward(keys, faults) && IsSolution(keys, faults, w)
    requires j < |keys| && keys[j] in faults && forall k :: k in keys ==> LevelSum(k) <= bound
    ensures w[j] == 0.0
    decreases bound - LevelSum(keys[j])
  {
    var row := RowOf(keys, keys[j]);
    var at :| 0 <= at < |faults| && faults[at] == keys[j];
    forall i | 0 <= i < |keys| && i != j
      ensures row[i] == 0.0 || w[i] == 0.0
    {
      if Adjacent(keys[j], keys[i]) {
        assert keys[i] in keys && keys[j] in keys;
        LargerSum(keys[j], keys[i]);
        UpwardIsLeftOut(keys, faults, w, i, bound);
      }
    }
    DotOfSingle(row, w, j);
    assert Dot(RowOf(keys, faults[at]), w) == 0.0 && row[j] == 1.0;
  }

  /** Then the solver chooses everything that has not failed, whatever its objective. */
  lemma OthersAreMaximal(keys: seq<Level>, faults: seq<Level>, g: seq<real>, bound: int)
    requires Distinct(keys) && AreUpward(keys, faults) && IsObjective(keys, g)
    requires forall k :: k in keys ==> LevelSum(k) <= bound
    ensures IsMaximalSolution(keys, faults, g, Others(keys, faults))
  {
    OthersAreSolution(keys, faults);
    forall v | IsSolution(keys, faults, v)
      ensures Dot(g, v) <= Dot(g, Others(keys, faults))
    {
      forall j | 0 <= j < |keys|
        ensures v[j] <= Others(keys, faults)[j]
      {
        if keys[j] in faults {
          UpwardIsLeftOut(keys, faults, v, j, bound);
        }
      }
      DotIsMonotone(g, v, Others(keys, faults));
    }
  }
}
