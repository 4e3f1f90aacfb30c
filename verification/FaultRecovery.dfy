/** New combination coefficients after faults: the inverse of the counting matrix, the rows of the
    linear program, and the coefficients of its solution. */
module FaultRecovery {
  import opened FiniteSums
  import opened LevelSets
  import opened LevelGeneration
  import opened LevelDictionary
  import opened CombiScheme

  /** Every key with its position in the order. */
  function Numbered(entire: Dict): (aux: Dict)
    ensures |aux| == |entire| && Keys(aux) == Keys(entire)
  {
    seq(|entire|, i requires 0 <= i < |entire| => Entry(entire[i].key, i as real))
  }

  method CreateAuxEntireDict(entire: Dict, dim: nat) returns (aux: Dict)
    requires IsDict(entire, dim)
    ensures aux == Numbered(entire)
  {
    aux := [];
    for i := 0 to |entire|
      invariant aux == Numbered(entire)[..i]
    {
      PrefixOfNumbered(entire, dim, i);
      InsertLast(aux, dim, entire[i].key, i as real);
      aux := Insert(aux, entire[i].key, i as real);
    }
  }

  lemma PrefixOfNumbered(entire: Dict, dim: nat, n: nat)
    requires IsDict(entire, dim) && n < |entire|
    ensures IsDict(Numbered(entire)[..n], dim)
    ensures forall i :: 0 <= i < n ==> LexLess(Numbered(entire)[i].key, entire[n].key)
  {
    forall i, j | 0 <= i < j <= n
      ensures LexLess(entire[i].key, entire[j].key)
    {
      assert LexLess(Keys(entire)[i], Keys(entire)[j]);
    }
  }

  function MaxOf(l: Level): (n: int)
    requires l != []
    ensures n in l && forall i :: 0 <= i < |l| ==> l[i] <= n
  {
    if |l| == 1 then l[0]
    else
      var n := MaxOf(l[..|l| - 1]);
      if n < l[|l| - 1] then l[|l| - 1] else n
  }

  /** The test of the original on the difference of two levels. */
  predicate IsStep(diff: Level, dim: nat)
    requires diff != []
  {
    (LevelSum(diff) > 0 || LevelSum(diff) <= dim) && MaxOf(diff) <= 1 && forall i :: 0 <= i < |diff| ==> diff[i] >= 0
  }

  lemma StepMeansAdjacent(w: Level, c: Level, dim: nat)
    requires |w| == |c| && w != []
    ensures IsStep(Minus(c, w), dim) <==> Adjacent(w, c)
  {
    var diff := Minus(c, w);
    if IsStep(diff, dim) {
      forall i | 0 <= i < |w|
        ensures w[i] <= c[i] <= w[i] + 1
      {
        assert 0 <= diff[i] <= 1;
      }
    }
  }

  lemma EarlierIsNoNeighbour(aux: Dict, dim: nat, i: nat, j: nat)
    requires IsDict(aux, dim) && j < i < |aux|
    ensures !Adjacent(aux[i].key, aux[j].key)
  {
    SortedIsAscending(Keys(aux));
    assert !Leq(Keys(aux)[i], Keys(aux)[j]);
  }

  /** Row i of the inverse, computed from the current entry of the dictionary onward. */
  method FillRow(aux: Dict, dim: nat, ii: nat, mInv: array2<real>)
    requires dim > 0 && IsDict(aux, dim) && ii < |aux| && mInv.Length0 == mInv.Length1 == |aux|
    requires forall k :: 0 <= k < |aux| ==> aux[k].value == k as real
    requires forall j :: 0 <= j < |aux| ==> mInv[ii, j] == 0.0
    modifies mInv
    ensures forall j :: 0 <= j < |aux| ==> mInv[ii, j] == Term(aux[ii].key, aux[j].key, 1.0)
    ensures forall i, j :: 0 <= i < |aux| && 0 <= j < |aux| && i != ii ==> mInv[i, j] == old(mInv[i, j])
  {
    var i := aux[ii].value.Floor;
    var w := aux[ii].key;
    forall j: nat | j < ii
      ensures Term(w, aux[j].key, 1.0) == 0.0
    {
      EarlierIsNoNeighbour(aux, dim, ii, j);
    }
    for jj := ii to |aux|
      invariant forall j :: 0 <= j < jj ==> mInv[ii, j] == Term(w, aux[j].key, 1.0)
      invariant forall j :: jj <= j < |aux| ==> mInv[ii, j] == 0.0
      invariant forall i, j :: 0 <= i < |aux| && 0 <= j < |aux| && i != ii ==> mInv[i, j] == old(mInv[i, j])
    {
      var j := aux[jj].value.Floor;
      var diff := Minus(aux[jj].key, w);
      StepMeansAdjacent(w, aux[jj].key, dim);
      if IsStep(diff, dim) {
        SumOfDifference(aux[jj].key, w);
        mInv[i, j] := Signed(LevelSum(diff), 1.0);
      }
    }
  }

  ghost predicate IsInverse(m: array2<real>, keys: seq<Level>)
    reads m
  {
    && m.Length0 == m.Length1 == |keys|
    && forall i, j :: 0 <= i < |keys| && 0 <= j < |keys| ==> m[i, j] == Term(keys[i], keys[j], 1.0)
  }

  /** Although only later entries are looked at, no neighbour is missed. */
  method GetInvM(aux: Dict, dim: nat) returns (mInv: array2<real>)
    requires dim > 0 && IsDict(aux, dim) && forall k :: 0 <= k < |aux| ==> aux[k].value == k as real
    ensures fresh(mInv) && IsInverse(mInv, Keys(aux))
  {
    mInv := new real[|aux|, |aux|]((i, j) => 0.0);
    for ii := 0 to |aux|
      invariant forall i, j :: 0 <= i < ii && 0 <= j < |aux| ==> mInv[i, j] == Term(aux[i].key, aux[j].key, 1.0)
      invariant forall i, j :: ii <= i < |aux| && 0 <= j < |aux| ==> mInv[i, j] == 0.0
    {
      FillRow(aux, dim, ii, mInv);
    }
  }

  /** The weight vector as a function of the level. */
  function IndexOf(keys: seq<Level>, l: Level): (i: nat)
    ensures i <= |keys| && (i < |keys| ==> keys[i] == l) && forall j :: 0 <= j < i ==> keys[j] != l
  {
    if keys == [] then 0 else if keys[0] == l then 0 else 1 + IndexOf(keys[1..], l)
  }

  function WeightAt(keys: seq<Level>, w: seq<real>): Level -> real
    requires |w| == |keys|
  {
    l => if IndexOf(keys, l) < |w| then w[IndexOf(keys, l)] else 0.0
  }

  lemma WeightAtKey(keys: seq<Level>, w: seq<real>, j: nat)
    requires |w| == |keys| && Distinct(keys) && j < |keys|
    ensures WeightAt(keys, w)(keys[j]) == w[j]
  {
    assert IndexOf(keys, keys[j]) <= j;
  }

  /** Sum of the products of the first n entries. */
  ghost function Dot(row: seq<real>, w: seq<real>): real
    requires |row| == |w|
  {
    if row == [] then 0.0
    else
      var n := |row| - 1;
      Dot(row[..n], w[..n]) + row[n] * w[n]
  }

  /** Row i of the inverse. */
  function RowOf(keys: seq<Level>, l: Level): (row: seq<real>)
    ensures |row| == |keys|
  {
    seq(|keys|, j requires 0 <= j < |keys| => Term(l, keys[j], 1.0))
  }

  lemma TermIsProduct(l: Level, m: Level, x: real)
    ensures Term(l, m, 1.0) * x == Term(l, m, x)
  {
  }

  ghost function WeightedTerm(l: Level, f: Level -> real): Level -> real {
    m => Term(l, m, f(m))
  }

  lemma {:induction false} DotIsSeqSum(keys: seq<Level>, w: seq<real>, l: Level, f: Level -> real)
    requires |w| == |keys| && forall j :: 0 <= j < |keys| ==> f(keys[j]) == w[j]
    ensures Dot(RowOf(keys, l), w) == SeqSum(keys, WeightedTerm(l, f))
  {
    if keys != [] {
      var n := |keys| - 1;
      assert RowOf(keys, l)[..n] == RowOf(keys[..n], l);
      DotIsSeqSum(keys[..n], w[..n], l, f);
      TermIsProduct(l, keys[n], w[n]);
    }
  }

  /** A row of the inverse times the weights is the Moebius coefficient. */
  lemma DotIsCoefficient(keys: seq<Level>, w: seq<real>, l: Level)
    requires |w| == |keys| && Distinct(keys)
    ensures Dot(RowOf(keys, l), w) == Coefficient(Elements(keys), WeightAt(keys, w), l)
  {
    var f := WeightAt(keys, w);
    forall j | 0 <= j < |keys|
      ensures f(keys[j]) == w[j]
    {
      WeightAtKey(keys, w, j);
    }
    DotIsSeqSum(keys, w, l, f);
    SeqSumIsSum(keys, WeightedTerm(l, f));
    SumEqual(Elements(keys), WeightedTerm(l, f), m => Term(l, m, f(m)));
  }

  lemma DictIsDistinct(d: Dict, dim: nat)
    requires IsDict(d, dim)
    ensures Distinct(Keys(d))
  {
    SortedIsAscending(Keys(d));
  }

  /** Coefficients of the solution w: row by row the inverse times the weights. */
  ghost predicate AreRecovered(keys: seq<Level>, w: seq<real>, allC: seq<real>) {
    |w| == |allC| == |keys| && forall i {:trigger allC[i]} :: 0 <= i < |keys| ==>
      allC[i] == Dot(RowOf(keys, keys[i]), w)
  }

  ghost function CountedTerm(k: Level, f: Level -> real): Level -> real {
    l => if Leq(k, l) then f(l) else 0.0
  }

  lemma {:induction false} TimesCountedIsSum(keys: seq<Level>, c: seq<real>, k: Level, f: Level -> real)
    requires |c| == |keys| && forall i :: 0 <= i < |keys| ==> c[i] == f(keys[i])
    ensures TimesCounted(keys, c, k) == SeqSum(keys, CountedTerm(k, f))
  {
    if keys != [] {
      TimesCountedIsSum(keys[..|keys| - 1], c[..|keys| - 1], k, f);
    }
  }

  lemma TimesCountedIsCount(keys: seq<Level>, c: seq<real>, k: Level, f: Level -> real)
    requires |c| == |keys| && Distinct(keys) && forall i :: 0 <= i < |keys| ==> c[i] == f(keys[i])
    ensures TimesCounted(keys, c, k) == Count(Elements(keys), f, k)
  {
    TimesCountedIsSum(keys, c, k, f);
    SeqSumIsSum(keys, CountedTerm(k, f));
    SumEqual(Elements(keys), CountedTerm(k, f), l => if Leq(k, l) then f(l) else 0.0);
  }

  ghost function CoefficientAt(s: set<Level>, f: Level -> real): Level -> real {
    l => Coefficient(s, f, l)
  }

  /** The recovered coefficients count every subspace as often as the weights say: the matrix that
      GetInvM builds is a right inverse of the counting matrix. */
  lemma RecoveredCounts(keys: seq<Level>, lmin: Level, w: seq<real>, allC: seq<real>, k: Level)
    requires Distinct(keys) && DownClosed(Elements(keys), lmin) && |k| == |lmin| && AreRecovered(keys, w, allC)
    ensures TimesCounted(keys, allC, k) == if Join(k, lmin) in keys then WeightAt(keys, w)(Join(k, lmin)) else 0.0
  {
    var s, f := Elements(keys), WeightAt(keys, w);
    forall i | 0 <= i < |keys|
      ensures allC[i] == CoefficientAt(s, f)(keys[i])
    {
      DotIsCoefficient(keys, w, keys[i]);
    }
    TimesCountedIsCount(keys, allC, k, CoefficientAt(s, f));
    CountOfCoefficients(s, lmin, f, k);
    CountEqual(s, CoefficientAt(s, f), l => Coefficient(s, f, l), k);
  }

  lemma CountEqual(s: set<Level>, c: Level -> real, d: Level -> real, k: Level)
    requires forall l :: l in s ==> c(l) == d(l)
    ensures Count(s, c, k) == Count(s, d, k)
  {
    SumEqual(s, l => if Leq(k, l) then c(l) else 0.0, l => if Leq(k, l) then d(l) else 0.0);
  }

  /** Any coefficients that count every subspace as the weights say are the recovered ones: the matrix
      is a left inverse as well. */
  lemma RecoveredAreUnique(keys: seq<Level>, lmin: Level, w: seq<real>, c: seq<real>)
    requires Distinct(keys) && DownClosed(Elements(keys), lmin) && |w| == |c| == |keys|
    requires forall i :: 0 <= i < |keys| ==> TimesCounted(keys, c, keys[i]) == w[i]
    ensures AreRecovered(keys, w, c)
  {
    var s, f, g := Elements(keys), WeightAt(keys, w), WeightAt(keys, c);
    forall j | 0 <= j < |keys|
      ensures f(keys[j]) == w[j] && g(keys[j]) == c[j]
    {
      WeightAtKey(keys, w, j);
      WeightAtKey(keys, c, j);
    }
    forall k | k in s
      ensures Count(s, g, k) == f(k)
    {
      var i :| 0 <= i < |keys| && keys[i] == k;
      TimesCountedIsCount(keys, c, k, g);
    }
    forall i | 0 <= i < |keys|
      ensures c[i] == Dot(RowOf(keys, keys[i]), w)
    {
      CoefficientsAreUnique(s, lmin, g, f, keys[i]);
      DotIsCoefficient(keys, w, keys[i]);
    }
  }

  /** The weights of the solution are 0 or 1 and every fault's row of the inverse cancels them. */
  ghost predicate IsSolution(keys: seq<Level>, faults: seq<Level>, w: seq<real>) {
    && |w| == |keys|
    && (forall j :: 0 <= j < |w| ==> w[j] == 0.0 || w[j] == 1.0)
    && forall i {:trigger faults[i]} :: 0 <= i < |faults| ==> Dot(RowOf(keys, faults[i]), w) == 0.0
  }

  /** With a solution of the linear program no fault is used and every subspace is counted once or not
      at all. */
  lemma FaultsAreAvoided(keys: seq<Level>, lmin: Level, faults: seq<Level>, w: seq<real>, allC: seq<real>)
    requires Distinct(keys) && DownClosed(Elements(keys), lmin)
    requires IsSolution(keys, faults, w) && AreRecovered(keys, w, allC)
    ensures forall i :: 0 <= i < |keys| && keys[i] in faults ==> allC[i] == 0.0
    ensures forall k {:trigger TimesCounted(keys, allC, k)} :: |k| == |lmin| ==>
              TimesCounted(keys, allC, k) == 0.0 || (IsCovered(keys, k) && TimesCounted(keys, allC, k) == 1.0)
  {
    forall k | |k| == |lmin|
      ensures TimesCounted(keys, allC, k) == 0.0 || (IsCovered(keys, k) && TimesCounted(keys, allC, k) == 1.0)
    {
      RecoveredCounts(keys, lmin, w, allC, k);
      CoveredMeansJoin(keys, lmin, k);
    }
  }
}
