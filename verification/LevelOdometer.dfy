/** Enumeration of all levels in a box by counting with one digit per dimension. */
module LevelOdometer {
  import opened LevelSets
  import opened LevelGeneration
  import opened LevelDictionary

  ghost predicate InRange(l: Level, upper: int) {
    forall i :: 0 <= i < |l| ==> 1 <= l[i] <= upper
  }

  /** The level after l, counting up in the last dimension first; all ones again after the last. */
  function Next(l: Level, upper: int): (r: Level)
    ensures |r| == |l|
  {
    if l == [] then []
    else
      var n := |l| - 1;
      if l[n] < upper then l[n := l[n] + 1] else Next(l[..n], upper) + [1]
  }

  predicate IsLast(l: Level, upper: int) {
    forall i :: 0 <= i < |l| ==> l[i] == upper
  }

  /** Number of levels that follow. */
  ghost function Remaining(l: Level, upper: int): int {
    if l == [] then 0 else Remaining(l[..|l| - 1], upper) * upper + (upper - l[|l| - 1])
  }

  lemma {:induction false} NextRemains(l: Level, upper: int)
    requires InRange(l, upper)
    ensures Remaining(l, upper) >= 0
    ensures InRange(Next(l, upper), upper)
    ensures !IsLast(l, upper) ==> Remaining(Next(l, upper), upper) == Remaining(l, upper) - 1
  {
    if l != [] {
      var n := |l| - 1;
      NextRemains(l[..n], upper);
      assert 1 <= l[n] <= upper;
      ProductNotNegative(Remaining(l[..n], upper), upper);
      if l[n] < upper {
        assert l[n := l[n] + 1][..n] == l[..n];
      } else {
        assert (Next(l[..n], upper) + [1])[..n] == Next(l[..n], upper);
        MinusOneTimes(Remaining(l[..n], upper), upper);
      }
    }
  }

  lemma ProductNotNegative(a: int, b: int)
    requires a >= 0 && b >= 0
    ensures a * b >= 0
  {
  }

  lemma MinusOneTimes(a: int, b: int)
    ensures (a - 1) * b == a * b - b
  {
  }

  lemma LexAppended(a: Level, b: Level, x: int, y: int)
    requires |a| == |b|
    ensures LexLess(a + [x], b + [y]) <==> LexLess(a, b) || (a == b && x < y)
  {
    var v, w := a + [x], b + [y];
    if LexLess(v, w) {
      var i :| 0 <= i < |v| && FirstDifference(v, w, i);
      if i < |a| {
        forall j | 0 <= j <= i
          ensures a[j] == v[j] && b[j] == w[j]
        {
        }
        assert FirstDifference(a, b, i);
      } else {
        forall j | 0 <= j < |a|
          ensures a[j] == b[j]
        {
          assert v[j] == w[j];
        }
      }
    }
    if LexLess(a, b) {
      var i :| 0 <= i < |a| && FirstDifference(a, b, i);
      assert FirstDifference(v, w, i);
    }
    if a == b && x < y {
      assert FirstDifference(v, w, |a|);
    }
  }

  /** Nothing lies between a level and the next one. */
  lemma {:induction false} NextIsNext(l: Level, upper: int, v: Level)
    requires InRange(l, upper) && InRange(v, upper) && |l| == |v| && !IsLast(l, upper)
    ensures LexLess(v, Next(l, upper)) <==> LexLess(v, l) || v == l
  {
    var n := |l| - 1;
    assert l == l[..n] + [l[n]] && v == v[..n] + [v[n]];
    LexAppended(v[..n], l[..n], v[n], l[n]);
    if l[n] < upper {
      assert Next(l, upper) == l[..n] + [l[n] + 1];
      LexAppended(v[..n], l[..n], v[n], l[n] + 1);
    } else {
      NextIsNext(l[..n], upper, v[..n]);
      LexAppended(v[..n], Next(l[..n], upper), v[n], 1);
    }
  }

  lemma {:induction false} LastIsGreatest(l: Level, upper: int, v: Level)
    requires IsLast(l, upper) && InRange(v, upper) && |l| == |v|
    ensures LexLess(v, l) || v == l
  {
    if l != v {
      LexIsTotal(l, v);
      forall i: nat | i < |l|
        ensures !FirstDifference(l, v, i)
      {
        assert v[i] <= l[i];
      }
    }
  }

  function L1Norm(u: Level): nat {
    if u == [] then 0
    else L1Norm(u[..|u| - 1]) + if u[|u| - 1] < 0 then -u[|u| - 1] else u[|u| - 1]
  }

  lemma {:induction false} NormOfPositive(l: Level)
    requires forall i :: 0 <= i < |l| ==> l[i] >= 0
    ensures L1Norm(l) == LevelSum(l)
  {
    if l != [] {
      NormOfPositive(l[..|l| - 1]);
    }
  }

  /** The levels of the box that are no finer in total than levelMax. */
  ghost predicate IsIndex(l: Level, dimension: nat, levelMax: Level, upper: int) {
    |l| == dimension && InRange(l, upper) && LevelSum(l) <= LevelSum(levelMax)
  }

  /** list enumerates those before temp. */
  ghost predicate EnumeratedBefore(list: seq<Level>, temp: Level, dimension: nat, levelMax: Level, upper: int) {
    && Sorted(list)
    && forall v :: v in list <==> IsIndex(v, dimension, levelMax, upper) && LexLess(v, temp)
  }

  /** The largest entry of a level. */
  ghost function Greatest(l: Level): (n: int)
    requires l != []
    ensures n in l && forall i :: 0 <= i < |l| ==> l[i] <= n
  {
    var last := l[|l| - 1];
    if |l| == 1 then last
    else
      var n := Greatest(l[..|l| - 1]);
      if n < last then last else n
  }

  method MaxElement(l: Level) returns (n: int)
    requires l != []
    ensures n == Greatest(l)
  {
    n := l[0];
    for i := 1 to |l|
      invariant n in l && forall j :: 0 <= j < i ==> l[j] <= n
    {
      if n < l[i] {
        n := l[i];
      }
    }
  }

  /** Counts up by one: the last digits that are at their limit start again at one. */
  method Increment(temp: Level, upper: int) returns (next: Level, j: int)
    requires InRange(temp, upper)
    ensures next == Next(temp, upper)
    ensures j < 0 <==> IsLast(temp, upper)
  {
    next := temp;
    j := |temp| - 1;
    assert temp[..|temp|] == temp && next[|temp|..] == [];
    while j >= 0
      invariant -1 <= j < |temp| == |next|
      invariant next[..j + 1] == temp[..j + 1]
      invariant Next(temp, upper) == Next(temp[..j + 1], upper) + next[j + 1..]
      invariant forall i :: j < i < |temp| ==> temp[i] == upper
      decreases j
    {
      CarryOver(temp, upper, j, next);
      next := next[j := next[j] + 1];
      if next[j] <= upper {
        return;
      }
      next := next[j := 1];
      j := j - 1;
    }
  }

  lemma CarryOver(temp: Level, upper: int, j: nat, next: Level)
    requires InRange(temp, upper) && j < |temp| == |next| && next[..j + 1] == temp[..j + 1]
    requires Next(temp, upper) == Next(temp[..j + 1], upper) + next[j + 1..]
    ensures next[j] == temp[j]
    ensures temp[j] < upper ==> Next(temp, upper) == next[j := temp[j] + 1]
    ensures temp[j] == upper ==> Next(temp, upper) == Next(temp[..j], upper) + next[j := 1][j..]
  {
    assert temp[..j + 1][j] == next[..j + 1][j];
    assert temp[..j + 1][..j] == temp[..j];
  }

  lemma FirstIsLeast(l: Level, v: Level, upper: int)
    requires InRange(v, upper) && |l| == |v| && forall i :: 0 <= i < |l| ==> l[i] == 1
    ensures !LexLess(v, l)
  {
  }

  lemma AppendedIsSorted(list: seq<Level>, temp: Level)
    requires Sorted(list) && forall v :: v in list ==> LexLess(v, temp)
    ensures Sorted(list + [temp])
  {
    forall i, j | 0 <= i < j < |list| + 1
      ensures LexLess((list + [temp])[i], (list + [temp])[j])
    {
      assert list[i] in list;
    }
  }

  /** All levels between one and the largest entry of levelMax whose sum does not exceed that of
      levelMax, in lexicographic order. */
  method Mindex(dimension: nat, levelMax: Level) returns (result: seq<Level>)
    requires dimension > 0 && levelMax != [] && exists i :: 0 <= i < |levelMax| && levelMax[i] >= 1
    ensures Sorted(result) && forall v :: v in result <==> IsIndex(v, dimension, levelMax, Greatest(levelMax))
  {
    var upper := MaxElement(levelMax);
    var sumLevelMax := LevelSum(levelMax);
    var temp := seq(dimension, i => 1);
    result := [];
    forall v | IsIndex(v, dimension, levelMax, upper)
      ensures !LexLess(v, temp)
    {
      FirstIsLeast(temp, v, upper);
    }
    while true
      invariant |temp| == dimension && InRange(temp, upper)
      invariant EnumeratedBefore(result, temp, dimension, levelMax, upper)
      decreases Remaining(temp, upper)
    {
      NormOfPositive(temp);
      Enumerated(result, temp, dimension, levelMax, upper);
      if L1Norm(temp) <= sumLevelMax {
        result := result + [temp];
      }
      NextRemains(temp, upper);
      var next, j := Increment(temp, upper);
      if j < 0 {
        break;
      }
      temp := next;
      NextRemains(temp, upper);
    }
  }

  lemma Enumerated(list: seq<Level>, temp: Level, dimension: nat, levelMax: Level, upper: int)
    requires |temp| == dimension && InRange(temp, upper) && EnumeratedBefore(list, temp, dimension, levelMax, upper)
    ensures var more := if LevelSum(temp) <= LevelSum(levelMax) then list + [temp] else list;
            if IsLast(temp, upper) then Sorted(more)
              && forall v :: v in more <==> IsIndex(v, dimension, levelMax, upper)
            else EnumeratedBefore(more, Next(temp, upper), dimension, levelMax, upper)
  {
    AppendedIsSorted(list, temp);
    forall v | IsIndex(v, dimension, levelMax, upper)
      ensures if IsLast(temp, upper) then LexLess(v, temp) || v == temp
              else LexLess(v, Next(temp, upper)) <==> LexLess(v, temp) || v == temp
    {
      if IsLast(temp, upper) {
        LastIsGreatest(temp, upper, v);
      } else {
        NextIsNext(temp, upper, v);
      }
    }
  }
}
