/** The classical combination technique: binomial coefficients on the finest diagonals. */
module ClassicalCoefficients {
  import opened FiniteSums
  import opened LevelSets
  import opened CombiScheme

  function Binomial(n: nat, k: nat): nat {
    if k == 0 then 1 else if n == 0 then 0 else Binomial(n - 1, k) + Binomial(n - 1, k - 1)
  }

  lemma {:induction false} BinomialIsPositive(n: nat, k: nat)
    ensures Binomial(n, k) > 0 <==> k <= n
  {
    if k > 0 && n > 0 {
      BinomialIsPositive(n - 1, k);
      BinomialIsPositive(n - 1, k - 1);
    }
  }

  /** (-1)^p times the binomial coefficient of dim - 1 over p. */
  function ClassicalCoefficient(dim: nat, p: int): real
    requires dim > 0
  {
    if p < 0 then 0.0 else Signed(p, Binomial(dim - 1, p) as real)
  }

  /** Alternating sum over the subsets of j dimensions with at most p elements. */
  function AlternatingSum(j: nat, p: int): real {
    if j == 0 then (if p < 0 then 0.0 else 1.0)
    else AlternatingSum(j - 1, p) - AlternatingSum(j - 1, p - 1)
  }

  lemma {:induction false} AlternatingSumIsBinomial(j: nat, p: int)
    requires j > 0
    ensures AlternatingSum(j, p) == ClassicalCoefficient(j, p)
  {
    if j > 1 {
      AlternatingSumIsBinomial(j - 1, p);
      AlternatingSumIsBinomial(j - 1, p - 1);
    } else {
      assert AlternatingSum(1, p) == AlternatingSum(0, p) - AlternatingSum(0, p - 1);
    }
  }

  /** l with at most p of its first j entries increased by one. */
  ghost function Neighbours(l: Level, j: nat, p: int): set<Level>
    requires j <= |l|
  {
    if p < 0 then {}
    else if j == 0 then {l}
    else Neighbours(l, j - 1, p) + Raised(l, j - 1, Neighbours(l, j - 1, p - 1))
  }

  function Raise(l: Level, i: nat, m: Level): Level {
    if i < |l| && i < |m| then m[i := l[i] + 1] else m
  }

  ghost function Raiser(l: Level, i: nat): Level -> Level {
    m => Raise(l, i, m)
  }

  ghost function Raised(l: Level, i: nat, s: set<Level>): set<Level> {
    set m | m in s :: Raise(l, i, m)
  }

  lemma {:induction false} NeighbourMembers(l: Level, j: nat, p: int, m: Level)
    requires j <= |l|
    ensures m in Neighbours(l, j, p) <==>
            Adjacent(l, m) && (forall i :: j <= i < |l| ==> m[i] == l[i]) && LevelSum(m) - LevelSum(l) <= p
    decreases j, 1
  {
    if Adjacent(l, m) {
      AdjacentSum(l, m);
    }
    if p >= 0 && j == 0 && Adjacent(l, m) && forall i :: 0 <= i < |l| ==> m[i] == l[i] {
      assert m == l;
    }
    if p >= 0 && j > 0 {
      NeighbourMembers(l, j - 1, p, m);
      if |m| == |l| {
        RaisedMembers(l, j, p, m);
      } else if m in Raised(l, j - 1, Neighbours(l, j - 1, p - 1)) {
        var b :| b in Neighbours(l, j - 1, p - 1) && Raise(l, j - 1, b) == m;
        NeighbourMembers(l, j - 1, p - 1, b);
      }
    }
  }

  lemma {:induction false} RaisedMembers(l: Level, j: nat, p: int, m: Level)
    requires 0 < j <= |l| == |m|
    ensures m in Raised(l, j - 1, Neighbours(l, j - 1, p - 1)) <==>
            m[j - 1] == l[j - 1] + 1 && Adjacent(l, m) && (forall i :: j <= i < |l| ==> m[i] == l[i])
              && LevelSum(m) - LevelSum(l) <= p
    decreases j, 0
  {
    var base := m[j - 1 := l[j - 1]];
    SumOfUpdate(m, j - 1, l[j - 1]);
    NeighbourMembers(l, j - 1, p - 1, base);
    if m[j - 1] == l[j - 1] + 1 && base in Neighbours(l, j - 1, p - 1) {
      assert Raise(l, j - 1, base) == m;
    }
    if m in Raised(l, j - 1, Neighbours(l, j - 1, p - 1)) {
      var b :| b in Neighbours(l, j - 1, p - 1) && Raise(l, j - 1, b) == m;
      NeighbourMembers(l, j - 1, p - 1, b);
      LowerAgain(l, j - 1, b);
    }
  }

  lemma LowerAgain(l: Level, i: nat, b: Level)
    requires i < |l| == |b| && b[i] == l[i]
    ensures Raise(l, i, b)[i] == l[i] + 1 && Raise(l, i, b)[i := l[i]] == b
  {
  }

  lemma {:induction false} AdjacentSum(l: Level, m: Level)
    requires Adjacent(l, m)
    ensures LevelSum(m) >= LevelSum(l)
    ensures LevelSum(m) == LevelSum(l) ==> m == l
  {
    if l != [] {
      var n := |l| - 1;
      AdjacentSum(l[..n], m[..n]);
      assert l == l[..n] + [l[n]] && m == m[..n] + [m[n]];
    }
  }

  lemma RaisedTerm(l: Level, j: nat, p: int, m: Level)
    requires 0 < j <= |l| && m in Neighbours(l, j - 1, p - 1)
    ensures NeighbourTerm(l)(Raise(l, j - 1, m)) == -NeighbourTerm(l)(m)
  {
    NeighbourMembers(l, j - 1, p - 1, m);
    SumOfUpdate(m, j - 1, l[j - 1] + 1);
  }

  lemma RaisedSum(l: Level, j: nat, p: int)
    requires 0 < j <= |l|
    ensures var base := Neighbours(l, j - 1, p - 1);
            Sum(Raised(l, j - 1, base), NeighbourTerm(l)) == -Sum(base, NeighbourTerm(l))
  {
    var f, h := NeighbourTerm(l), Raiser(l, j - 1);
    var base := Neighbours(l, j - 1, p - 1);
    var high := Raised(l, j - 1, base);
    forall m | m in base
      ensures f(h(m)) == -f(m) && |m| == |l| && m[j - 1] == l[j - 1]
    {
      RaisedTerm(l, j, p, m);
      NeighbourMembers(l, j - 1, p - 1, m);
    }
    forall m, k | m in base && k in base && h(m) == h(k)
      ensures m == k
    {
      RaiseIsOneToOne(l, j - 1, m, k);
    }
    forall y | y in high
      ensures exists m :: m in base && h(m) == y
    {
      var m :| m in base && Raise(l, j - 1, m) == y;
      assert h(m) == y;
    }
    SumOfImage(base, high, h, f, m => -f(m));
    SumNegated(base, f, m => -f(m));
  }

  lemma RaiseIsOneToOne(l: Level, i: nat, m: Level, k: Level)
    requires i < |l| == |m| == |k| && m[i] == k[i] && Raise(l, i, m) == Raise(l, i, k)
    ensures m == k
  {
    forall j | 0 <= j < |m|
      ensures m[j] == k[j]
    {
      assert j != i ==> Raise(l, i, m)[j] == m[j];
    }
  }

  lemma {:induction false} NeighbourSumIsAlternating(l: Level, j: nat, p: int)
    requires j <= |l|
    ensures Sum(Neighbours(l, j, p), NeighbourTerm(l)) == AlternatingSum(j, p)
  {
    if p < 0 {
      NegativeIsZero(j, p);
    } else if j == 0 {
      SumSingle({l}, NeighbourTerm(l), l);
    } else {
      var low, high := Neighbours(l, j - 1, p), Raised(l, j - 1, Neighbours(l, j - 1, p - 1));
      NeighbourSumIsAlternating(l, j - 1, p);
      NeighbourSumIsAlternating(l, j - 1, p - 1);
      RaisedSum(l, j, p);
      forall m | m in low
        ensures m !in high
      {
        NeighbourMembers(l, j - 1, p, m);
        RaisedMembers(l, j, p, m);
      }
      SumOfUnion(low, high, NeighbourTerm(l));
    }
  }

  lemma {:induction false} NegativeIsZero(j: nat, p: int)
    requires p < 0
    ensures AlternatingSum(j, p) == 0.0
  {
    if j > 0 {
      NegativeIsZero(j - 1, p);
      NegativeIsZero(j - 1, p - 1);
    }
  }

  /** On a simplex of levels the adaptive coefficient of a level on diagonal p is the classical one,
      and zero below diagonal dim - 1. */
  lemma AdaptiveIsClassical(s: set<Level>, lmin: Level, n: int, l: Level)
    requires lmin != [] && l in s
    requires forall m :: m in s <==> Leq(lmin, m) && LevelSum(m) <= n
    ensures Coefficient(s, One(), l) == ClassicalCoefficient(|lmin|, n - LevelSum(l))
  {
    var near := Neighbours(l, |l|, n - LevelSum(l));
    CoefficientIsSum(s, l);
    forall m | m in near
      ensures m in s
    {
      NeighbourMembers(l, |l|, n - LevelSum(l), m);
      LeqTransitive(lmin, l, m);
    }
    forall m | m in s && m !in near
      ensures NeighbourTerm(l)(m) == 0.0
    {
      NeighbourMembers(l, |l|, n - LevelSum(l), m);
    }
    SumOfSubset(s, near, NeighbourTerm(l));
    NeighbourSumIsAlternating(l, |l|, n - LevelSum(l));
    AlternatingSumIsBinomial(|l|, n - LevelSum(l));
  }
}
