/** Level vectors and Moebius inversion over level sets that are closed downwards. */
module LevelSets {
  import opened FiniteSums

  type Level = seq<int>

  predicate Leq(a: Level, b: Level) {
    |a| == |b| && forall i :: 0 <= i < |a| ==> a[i] <= b[i]
  }

  function LevelSum(l: Level): int {
    if l == [] then 0 else LevelSum(l[..|l| - 1]) + l[|l| - 1]
  }

  /** m is l with a subset of the entries increased by one. */
  predicate Adjacent(l: Level, m: Level) {
    |l| == |m| && forall i :: 0 <= i < |l| ==> l[i] <= m[i] <= l[i] + 1
  }

  /** (-1)^n * x */
  function Signed(n: int, x: real): real {
    if n % 2 == 0 then x else -x
  }

  /** The term of neighbour m, with weight x, in the coefficient of l. */
  function Term(l: Level, m: Level, x: real): real {
    if Adjacent(l, m) then Signed(LevelSum(m) - LevelSum(l), x) else 0.0
  }

  /** Signed sum of the weights of l and its upper neighbours. */
  ghost function Coefficient(s: set<Level>, w: Level -> real, l: Level): real {
    Sum(s, m => Term(l, m, w(m)))
  }

  /** How often subspace k is counted when grid l is taken c(l) times: a grid contains k if l >= k. */
  ghost function Count(s: set<Level>, c: Level -> real, k: Level): real {
    Sum(s, l => if Leq(k, l) then c(l) else 0.0)
  }

  /** All levels of the set have lmin's dimension and lie above lmin, and with a level the set
      contains everything between lmin and that level. */
  ghost predicate DownClosed(s: set<Level>, lmin: Level) {
    && (forall m :: m in s ==> Leq(lmin, m))
    && (forall l, m {:trigger Leq(l, m), m in s} :: m in s && Leq(lmin, l) && Leq(l, m) ==> l in s)
  }

  function Join(k: Level, l: Level): Level
    requires |k| == |l|
  {
    seq(|k|, i requires 0 <= i < |k| => if k[i] < l[i] then l[i] else k[i])
  }

  lemma {:induction false} SumOfUpdate(l: Level, i: nat, v: int)
    requires i < |l|
    ensures LevelSum(l[i := v]) == LevelSum(l) + v - l[i]
  {
    var n := |l| - 1;
    if i == n {
      assert l[i := v][..n] == l[..n];
    } else {
      SumOfUpdate(l[..n], i, v);
      assert l[i := v][..n] == l[..n][i := v];
    }
  }

  lemma {:induction false} SumIsMonotone(a: Level, b: Level)
    requires Leq(a, b)
    ensures LevelSum(a) <= LevelSum(b)
  {
    if a != [] {
      SumIsMonotone(a[..|a| - 1], b[..|b| - 1]);
    }
  }

  lemma {:induction false} LargerSum(a: Level, b: Level)
    requires Leq(a, b) && a != b
    ensures LevelSum(a) < LevelSum(b)
  {
    var n := |a| - 1;
    assert a == a[..n] + [a[n]] && b == b[..n] + [b[n]];
    SumIsMonotone(a[..n], b[..n]);
    if a[..n] != b[..n] {
      LargerSum(a[..n], b[..n]);
    }
  }

  predicate InBetween(lo: Level, hi: Level, l: Level) {
    Leq(lo, l) && Leq(l, hi)
  }

  /** Mirrors entry i of a level in the box. */
  function Flip(lo: Level, hi: Level, i: nat, l: Level): Level {
    if i < |lo| && |lo| == |hi| == |l| then l[i := lo[i] + hi[i] - l[i]] else l
  }

  lemma FlipIsSigned(lo: Level, hi: Level, i: nat, l: Level, n: int, x: real)
    requires Leq(lo, hi) && InBetween(lo, hi, l) && i < |lo| && hi[i] == lo[i] + 1
    ensures var m := Flip(lo, hi, i, l);
            InBetween(lo, hi, m) && m != l && Flip(lo, hi, i, m) == l
            && Signed(n + LevelSum(m), x) == -Signed(n + LevelSum(l), x)
  {
    var m := Flip(lo, hi, i, l);
    SumOfUpdate(l, i, lo[i] + hi[i] - l[i]);
    assert m[i] != l[i];
    assert Flip(lo, hi, i, m) == l;
    assert LevelSum(m) == LevelSum(l) + 1 || LevelSum(m) == LevelSum(l) - 1;
  }

  /** The alternating sum over a box of side lengths 0 and 1 is zero, unless the box is a point. */
  lemma BoxCancels(s: set<Level>, lo: Level, hi: Level, n: int, x: real, f: Level -> real)
    requires Leq(lo, hi) && Adjacent(lo, hi)
    requires forall l :: InBetween(lo, hi, l) ==> l in s
    requires forall l :: l in s ==> f(l) == if InBetween(lo, hi, l) then Signed(n + LevelSum(l), x) else 0.0
    ensures Sum(s, f) == if lo == hi then Signed(n + LevelSum(lo), x) else 0.0
  {
    if lo == hi {
      forall l | InBetween(lo, hi, l)
        ensures l == lo
      {
        forall i | 0 <= i < |l|
          ensures l[i] == lo[i]
        {
          assert lo[i] <= l[i] <= hi[i];
        }
      }
      SumSingle(s, f, lo);
    } else {
      var i :| 0 <= i < |lo| && lo[i] != hi[i];
      var flip := l => Flip(lo, hi, i, l);
      forall l | l in s && f(l) != 0.0
        ensures flip(l) in s && flip(l) != l && flip(flip(l)) == l && f(flip(l)) == -f(l)
      {
        FlipIsSigned(lo, hi, i, l, n, x);
      }
      ZeroByPairing(s, f, flip);
    }
  }

  function UpperCorner(l: Level, k: Level): Level
    requires |l| == |k|
  {
    seq(|l|, i requires 0 <= i < |l| => if k[i] < l[i] + 1 then k[i] else l[i] + 1)
  }

  /** The neighbours of l below k are a box. */
  lemma UpperBox(l: Level, m: Level, k: Level)
    requires |l| == |m| && Leq(l, k)
    ensures var hi := UpperCorner(l, k);
            Leq(l, hi) && Adjacent(l, hi) && (l == hi <==> l == k)
              && (InBetween(l, hi, m) <==> Adjacent(l, m) && Leq(m, k))
  {
    var hi := UpperCorner(l, k);
    if l == hi {
      forall i | 0 <= i < |l|
        ensures l[i] == k[i]
      {
        assert hi[i] == l[i];
      }
    }
    if InBetween(l, hi, m) {
      forall i | 0 <= i < |l|
        ensures l[i] <= m[i] <= l[i] + 1 && m[i] <= k[i]
      {
        assert m[i] <= hi[i];
      }
    }
  }

  /** The levels above k that have m as a neighbour are a box. */
  function LowerCorner(k: Level, m: Level): Level
    requires |k| == |m|
  {
    seq(|m|, i requires 0 <= i < |m| => if k[i] < m[i] - 1 then m[i] - 1 else k[i])
  }

  lemma LowerBox(k: Level, m: Level, l: Level)
    requires Leq(k, m) && |l| == |m|
    ensures var lo := LowerCorner(k, m);
            Leq(lo, m) && Adjacent(lo, m) && Leq(k, lo) && (lo == m <==> k == m)
            && (InBetween(lo, m, l) <==> Leq(k, l) && Adjacent(l, m))
  {
    var lo := LowerCorner(k, m);
    if lo == m {
      forall i | 0 <= i < |m|
        ensures k[i] == m[i]
      {
        assert lo[i] == m[i];
      }
    }
    if InBetween(lo, m, l) {
      forall i | 0 <= i < |m|
        ensures k[i] <= l[i] <= m[i] <= l[i] + 1
      {
        assert lo[i] <= l[i];
      }
    }
  }

  /** Joining with lmin does not change which levels above lmin lie above k. */
  lemma JoinIsLeast(k: Level, lmin: Level, l: Level)
    requires |k| == |lmin| && Leq(lmin, l)
    ensures Leq(Join(k, lmin), l) <==> Leq(k, l)
    ensures Leq(lmin, Join(k, lmin))
  {
    var j := Join(k, lmin);
    if Leq(j, l) {
      forall i | 0 <= i < |k|
        ensures k[i] <= l[i]
      {
        assert j[i] <= l[i];
      }
    }
  }

  lemma BoxBelow(s: set<Level>, lmin: Level, j: Level, m: Level, l: Level)
    requires DownClosed(s, lmin) && m in s && Leq(lmin, j) && Leq(j, m) && |l| == |m|
    ensures InBetween(LowerCorner(j, m), m, l) <==> Leq(j, l) && Adjacent(l, m)
    ensures InBetween(LowerCorner(j, m), m, l) ==> l in s
  {
    LowerBox(j, m, l);
    if InBetween(LowerCorner(j, m), m, l) {
      JoinBelow(j, lmin, l);
      assert Leq(lmin, l) && Leq(l, m);
    }
  }

  lemma SignedOfDifference(a: int, b: int, x: real)
    ensures Signed(a - b, x) == Signed(-a + b, x)
  {
  }

  /** Summing the terms of m over all levels above k leaves the weight of m if m is the least level
      of the set above k, and nothing otherwise. */
  lemma ColumnCancels(s: set<Level>, lmin: Level, k: Level, m: Level, x: real, f: Level -> real)
    requires DownClosed(s, lmin) && |k| == |lmin| && m in s
    requires forall l :: l in s ==> f(l) == if Leq(k, l) then Term(l, m, x) else 0.0
    ensures Sum(s, f) == if m == Join(k, lmin) then x else 0.0
  {
    hide Sum, Join, LowerCorner, LevelSum;
    var j := Join(k, lmin);
    JoinIsLeast(k, lmin, m);
    if Leq(j, m) {
      var lo := LowerCorner(j, m);
      LowerBox(j, m, m);
      forall l | InBetween(lo, m, l)
        ensures l in s
      {
        BoxBelow(s, lmin, j, m, l);
      }
      forall l | l in s
        ensures f(l) == if InBetween(lo, m, l) then Signed(-LevelSum(m) + LevelSum(l), x) else 0.0
      {
        JoinIsLeast(k, lmin, l);
        BoxBelow(s, lmin, j, m, l);
        SignedOfDifference(LevelSum(m), LevelSum(l), x);
      }
      BoxCancels(s, lo, m, -LevelSum(m), x, f);
    } else {
      forall l | l in s
        ensures f(l) == 0.0
      {
        JoinIsLeast(k, lmin, l);
        if Leq(j, l) && Adjacent(l, m) {
          LeqTransitive(j, l, m);
        }
      }
      SumZero(s, f);
    }
  }

  lemma LeqTransitive(a: Level, b: Level, c: Level)
    requires Leq(a, b) && |b| == |c| && forall i :: 0 <= i < |b| ==> b[i] <= c[i]
    ensures Leq(a, c)
  {
  }

  lemma JoinBelow(j: Level, lmin: Level, l: Level)
    requires Leq(lmin, j) && Leq(j, l)
    ensures Leq(lmin, l)
  {
  }

  /** Moebius inversion, first half: with the coefficients of a weight function every subspace is
      counted with the weight of the least level of the set that contains it. */
  lemma CountOfCoefficients(s: set<Level>, lmin: Level, w: Level -> real, k: Level)
    requires DownClosed(s, lmin) && |k| == |lmin|
    ensures Count(s, l => Coefficient(s, w, l), k) == if Join(k, lmin) in s then w(Join(k, lmin)) else 0.0
  {
    var f := (l: Level, m: Level) => if Leq(k, l) then Term(l, m, w(m)) else 0.0;
    var c := l => if Leq(k, l) then Coefficient(s, w, l) else 0.0;
    var d := m => if m == Join(k, lmin) then w(m) else 0.0;
    forall l | l in s
      ensures c(l) == RowSum(s, f, l)
    {
      if Leq(k, l) {
        RowSumIs(s, f, l, m => Term(l, m, w(m)));
      } else {
        RowSumIs(s, f, l, m => 0.0);
        SumZero(s, m => 0.0);
      }
    }
    forall m | m in s
      ensures d(m) == ColumnSum(s, f, m)
    {
      var g := l => f(l, m);
      ColumnSumIs(s, f, m, g);
      ColumnCancels(s, lmin, k, m, w(m), g);
    }
    SumSwap(s, s, f, c, d);
    SumSingle(s, d, Join(k, lmin));
    SumEqual(s, c, l => if Leq(k, l) then (l => Coefficient(s, w, l))(l) else 0.0);
  }

  /** Summing the terms of l over all its neighbours below k leaves the weight of l if l is k, and
      nothing otherwise. */
  lemma RowCancels(s: set<Level>, lmin: Level, l: Level, k: Level, x: real, f: Level -> real)
    requires DownClosed(s, lmin) && l in s && k in s
    requires forall m :: m in s ==> f(m) == if Leq(m, k) then Term(l, m, x) else 0.0
    ensures Sum(s, f) == if l == k then x else 0.0
  {
    if Leq(l, k) {
      UpperBox(l, l, k);
      var hi := UpperCorner(l, k);
      forall m | InBetween(l, hi, m)
        ensures m in s
      {
        UpperBox(l, m, k);
        JoinBelow(l, lmin, m);
        assert Leq(lmin, m) && Leq(m, k);
      }
      forall m | m in s
        ensures f(m) == if InBetween(l, hi, m) then Signed(-LevelSum(l) + LevelSum(m), x) else 0.0
      {
        UpperBox(l, m, k);
      }
      BoxCancels(s, l, hi, -LevelSum(l), x, f);
    } else {
      forall m | m in s
        ensures f(m) == 0.0
      {
        if Leq(m, k) && Adjacent(l, m) {
          LeqTransitive(l, m, k);
        }
      }
      SumZero(s, f);
    }
  }

  lemma TermOfSum(s: set<Level>, l: Level, m: Level, f: Level -> real, g: Level -> real)
    requires forall k :: k in s ==> g(k) == Term(l, m, f(k))
    ensures Term(l, m, Sum(s, f)) == Sum(s, g)
  {
    if !Adjacent(l, m) {
      SumZero(s, g);
    } else if (LevelSum(m) - LevelSum(l)) % 2 == 0 {
      SumEqual(s, f, g);
    } else {
      SumNegated(s, f, g);
    }
  }

  /** Moebius inversion, second half: the coefficients can be recovered from how often every subspace
      is counted. */
  lemma CoefficientsOfCounts(s: set<Level>, lmin: Level, c: Level -> real, l: Level)
    requires DownClosed(s, lmin) && l in s
    ensures Coefficient(s, m => Count(s, c, m), l) == c(l)
  {
    var f := (m: Level, k: Level) => if Leq(m, k) then Term(l, m, c(k)) else 0.0;
    var g := m => Term(l, m, Count(s, c, m));
    var h := k => if k == l then c(k) else 0.0;
    forall m | m in s
      ensures g(m) == RowSum(s, f, m)
    {
      TermOfSum(s, l, m, k => if Leq(m, k) then c(k) else 0.0, k => f(m, k));
      RowSumIs(s, f, m, k => f(m, k));
      SumEqual(s, k => if Leq(m, k) then c(k) else 0.0, k => if Leq(m, k) then c(k) else 0.0);
    }
    forall k | k in s
      ensures h(k) == ColumnSum(s, f, k)
    {
      var q := m => f(m, k);
      ColumnSumIs(s, f, k, q);
      RowCancels(s, lmin, l, k, c(k), q);
    }
    SumSwap(s, s, f, g, h);
    SumSingle(s, h, l);
    SumEqual(s, g, m => Term(l, m, (m => Count(s, c, m))(m)));
  }

  /** Coefficients that count every subspace as often as the weights say are the Moebius ones. */
  lemma CoefficientsAreUnique(s: set<Level>, lmin: Level, c: Level -> real, w: Level -> real, l: Level)
    requires DownClosed(s, lmin) && l in s
    requires forall k :: k in s ==> Count(s, c, k) == w(k)
    ensures c(l) == Coefficient(s, w, l)
  {
    CoefficientsOfCounts(s, lmin, c, l);
    SumEqual(s, m => Term(l, m, (m => Count(s, c, m))(m)), m => Term(l, m, w(m)));
  }
}
