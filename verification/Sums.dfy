/** Sums of integer sequences. */
module Sums {
  function Sum(s: seq<int>): int {
    if s == [] then 0 else Sum(s[..|s| - 1]) + s[|s| - 1]
  }

  lemma {:induction false} SumOfUpdated(s: seq<int>, g: nat, v: int)
    requires g < |s|
    ensures Sum(s[g := v]) == Sum(s) - s[g] + v
  {
    var n := |s| - 1;
    if g == n {
      assert s[g := v][..n] == s[..n];
    } else {
      SumOfUpdated(s[..n], g, v);
      assert s[g := v][..n] == s[..n][g := v];
    }
  }

  lemma {:induction false} SumAtLeast(s: seq<int>, low: int)
    requires forall g :: 0 <= g < |s| ==> s[g] >= low
    ensures Sum(s) >= |s| * low
  {
    if s != [] {
      SumAtLeast(s[..|s| - 1], low);
      assert |s| * low == (|s| - 1) * low + low;
    }
  }

  lemma {:induction false} SumAtMost(s: seq<int>, high: int)
    requires forall g :: 0 <= g < |s| ==> s[g] <= high
    ensures Sum(s) <= |s| * high
  {
    if s != [] {
      SumAtMost(s[..|s| - 1], high);
      assert |s| * high == (|s| - 1) * high + high;
    }
  }

  lemma {:induction false} SumOfZeros(m: nat)
    ensures Sum(seq(m, g => 0)) == 0
  {
    if m > 0 {
      SumOfZeros(m - 1);
      assert seq(m, g => 0)[..m - 1] == seq(m - 1, g => 0);
    }
  }

  lemma {:induction false} SumIsNatural(t: seq<nat>)
    ensures Sum(t) >= 0
  {
    if t != [] {
      SumIsNatural(t[..|t| - 1]);
    }
  }
}
