/** Handing out the largest tasks first keeps the highest load within 4/3 - 1/(3m) of that of any other
    assignment. */
module LoadBalancingBound {
  import opened Sums
  import opened LoadBalancing

  function NumOnes(s: seq<int>): nat {
    if s == [] then 0 else NumOnes(s[..|s| - 1]) + if s[|s| - 1] == 1 then 1 else 0
  }

  lemma {:induction false} OnesBelowSlack(s: seq<int>)
    ensures (forall g :: 0 <= g < |s| ==> s[g] <= 2) ==> NumOnes(s) <= 2 * |s| - Sum(s)
    ensures (forall g :: 0 <= g < |s| ==> s[g] >= 1) ==> NumOnes(s) >= 2 * |s| - Sum(s)
  {
    if s != [] {
      OnesBelowSlack(s[..|s| - 1]);
    }
  }

  ghost function OnesOf(s: seq<int>): set<nat> {
    set g: nat | g < |s| && s[g] == 1
  }

  lemma {:induction false} NumOnesIsCardinality(s: seq<int>)
    ensures |OnesOf(s)| == NumOnes(s)
  {
    if s == [] {
      assert OnesOf(s) == {};
    } else {
      var n := |s| - 1;
      NumOnesIsCardinality(s[..n]);
      assert OnesOf(s) == OnesOf(s[..n]) + if s[n] == 1 then {n} else {};
    }
  }

  lemma {:induction false} InjectionGrows(s: set<nat>, t: set<nat>, f: nat -> nat)
    requires forall x :: x in s ==> f(x) in t
    requires forall x, y :: x in s && y in s && f(x) == f(y) ==> x == y
    ensures |s| <= |t|
    decreases |s|
  {
    if s != {} {
      var x :| x in s;
      InjectionGrows(s - {x}, t - {f(x)}, f);
    }
  }

  /** Two tasks of a group are part of its load. */
  lemma {:induction false} TwoTasks(a: seq<nat>, t: seq<nat>, m: nat, i: nat, j: nat)
    requires |a| <= |t| && IsAssignmentTo(a, m) && i < j < |a| && a[i] == a[j]
    ensures Loads(a, t, m)[a[i]] >= t[i] + t[j]
  {
    var n := |a| - 1;
    if j < n {
      TwoTasks(a[..n], t, m, i, j);
    } else {
      OneTask(a[..n], t, m, i);
    }
  }

  lemma {:induction false} OneTask(a: seq<nat>, t: seq<nat>, m: nat, i: nat)
    requires |a| <= |t| && IsAssignmentTo(a, m) && i < |a|
    ensures Loads(a, t, m)[a[i]] >= t[i] && Counts(a, m)[a[i]] >= 1
  {
    var n := |a| - 1;
    CountTimesLow(a[..n], t, m, 0, a[n]);
    if i < n {
      OneTask(a[..n], t, m, i);
    }
  }

  /** If a group has more tasks than this one, here is another. */
  lemma {:induction false} AnotherTask(a: seq<nat>, t: seq<nat>, m: nat, s: nat) returns (j: nat)
    requires |a| <= |t| && IsAssignmentTo(a, m) && s < |a| && Counts(a, m)[a[s]] != 1
    ensures j < |a| && j != s && a[j] == a[s]
  {
    var n := |a| - 1;
    OneTask(a, t, m, s);
    if s == n {
      CountTimesLow(a[..n], t, m, 0, a[n]);
      j := SomeTask(a[..n], m, a[n]);
    } else if a[n] == a[s] {
      j := n;
    } else {
      j := AnotherTask(a[..n], t, m, s);
    }
  }

  lemma {:induction false} SomeTask(a: seq<nat>, m: nat, g: nat) returns (j: nat)
    requires IsAssignmentTo(a, m) && g < m && Counts(a, m)[g] != 0
    ensures j < |a| && a[j] == g
  {
    j := |a| - 1;
    if a[j] != g {
      j := SomeTask(a[..j], m, g);
    }
  }

  /** Before task n, the assignment a would exceed high on every group; b keeps within it. */
  ghost predicate Overloads(a: seq<nat>, b: seq<nat>, t: seq<nat>, m: nat, high: int) {
    && |a| < |t| && |b| == |a| + 1 && IsAssignmentTo(a, m) && IsAssignmentTo(b, m)
    && (forall i :: 0 <= i <= |a| ==> t[i] >= t[|a|])
    && 3 * t[|a|] > high
    && (forall g :: 0 <= g < m ==> Loads(b, t, m)[g] <= high)
    && forall g :: 0 <= g < m ==> Loads(a, t, m)[g] + t[|a|] > high
  }

  /** The only task of a group with one task, otherwise some task. */
  ghost function SoleTask(a: seq<nat>, g: nat): (s: nat)
    ensures (exists i :: 0 <= i < |a| && a[i] == g) ==> s < |a| && a[s] == g
  {
    if exists i :: 0 <= i < |a| && a[i] == g then
      var i :| 0 <= i < |a| && a[i] == g;
      i
    else 0
  }

  lemma SoleTaskLoad(a: seq<nat>, t: seq<nat>, m: nat, g: nat)
    requires |a| <= |t| && IsAssignmentTo(a, m) && g < m && Counts(a, m)[g] == 1
    ensures var s := SoleTask(a, g); s < |a| && a[s] == g && Loads(a, t, m)[g] == t[s]
  {
    var s := OnlyTask(a, t, m, g);
    OnlyTaskIsUnique(a, m, s, SoleTask(a, g));
  }

  lemma {:induction false} OnlyTaskIsUnique(a: seq<nat>, m: nat, i: nat, j: nat)
    requires IsAssignmentTo(a, m) && i < |a| && j < |a| && a[i] == a[j] && Counts(a, m)[a[i]] == 1
    ensures i == j
  {
    var n := |a| - 1;
    var t := seq(|a|, k => 0);
    if i < n && j < n {
      if a[n] == a[i] {
        OneTask(a[..n], t, m, i);
      }
      OnlyTaskIsUnique(a[..n], m, i, j);
    } else if i < n {
      OneTask(a[..n], t, m, i);
    } else if j < n {
      OneTask(a[..n], t, m, j);
    }
  }

  lemma AtMostTwo(a: seq<nat>, b: seq<nat>, t: seq<nat>, m: nat, high: int, g: nat)
    requires Overloads(a, b, t, m, high) && g < m
    ensures Counts(b, m)[g] <= 2
  {
    CountTimesLow(b, t, m, t[|a|], g);
    var c := Counts(b, m)[g];
    assert Loads(b, t, m)[g] <= high;
    if c >= 3 {
      ThreeTimes(c, t[|a|]);
    }
  }

  lemma ThreeTimes(c: int, x: int)
    requires c >= 3 && x >= 0
    ensures c * x >= 3 * x
  {
  }

  lemma AtLeastOne(a: seq<nat>, b: seq<nat>, t: seq<nat>, m: nat, high: int, g: nat)
    requires Overloads(a, b, t, m, high) && g < m
    ensures Counts(a, m)[g] >= 1
  {
    CountTimesLow(a, t, m, 0, g);
    assert Loads(a, t, m)[g] + t[|a|] > high;
    OneTask(b, t, m, |a|);
    assert Loads(b, t, m)[b[|a|]] <= high;
  }

  /** A task that fills a group of a alone is alone in its group of b as well. */
  lemma AloneInBoth(a: seq<nat>, b: seq<nat>, t: seq<nat>, m: nat, high: int, g: nat)
    requires Overloads(a, b, t, m, high) && g < m && Counts(a, m)[g] == 1
    ensures SoleTask(a, g) < |a| && a[SoleTask(a, g)] == g
    ensures Counts(b, m)[b[SoleTask(a, g)]] == 1
  {
    SoleTaskLoad(a, t, m, g);
    var s := SoleTask(a, g);
    assert Loads(a, t, m)[g] + t[|a|] > high;
    if Counts(b, m)[b[s]] != 1 {
      var j := AnotherTask(b, t, m, s);
      if s < j {
        TwoTasks(b, t, m, s, j);
      } else {
        TwoTasks(b, t, m, j, s);
      }
    }
  }

  lemma DifferentGroups(a: seq<nat>, b: seq<nat>, t: seq<nat>, m: nat, high: int, g: nat, h: nat)
    requires Overloads(a, b, t, m, high) && g < m && h < m && Counts(a, m)[g] == 1 && Counts(a, m)[h] == 1
    requires SoleTask(a, g) < |a| && SoleTask(a, h) < |a| && b[SoleTask(a, g)] == b[SoleTask(a, h)]
    ensures g == h
  {
    AloneInBoth(a, b, t, m, high, g);
    AloneInBoth(a, b, t, m, high, h);
    OnlyTaskIsUnique(b, m, SoleTask(a, g), SoleTask(a, h));
  }

  ghost function GroupInB(a: seq<nat>, b: seq<nat>): nat -> nat {
    g => if SoleTask(a, g) < |b| then b[SoleTask(a, g)] else 0
  }

  /** Such an overload is impossible: counting the groups with a single task gives a contradiction. */
  lemma NoOverload(a: seq<nat>, b: seq<nat>, t: seq<nat>, m: nat, high: int)
    ensures !Overloads(a, b, t, m, high)
  {
    if Overloads(a, b, t, m, high) {
      var ca, cb := Counts(a, m), Counts(b, m);
      forall g: nat | g < m
        ensures ca[g] >= 1 && cb[g] <= 2
      {
        AtLeastOne(a, b, t, m, high, g);
        AtMostTwo(a, b, t, m, high, g);
      }
      OnesBelowSlack(ca);
      OnesBelowSlack(cb);
      CountIsConserved(a, m);
      CountIsConserved(b, m);
      NumOnesIsCardinality(ca);
      NumOnesIsCardinality(cb);
      OnesInject(a, b, t, m, high);
    }
  }

  lemma OnesInject(a: seq<nat>, b: seq<nat>, t: seq<nat>, m: nat, high: int)
    requires Overloads(a, b, t, m, high)
    ensures |OnesOf(Counts(a, m))| <= |OnesOf(Counts(b, m))|
  {
    var f := GroupInB(a, b);
    var s, u := OnesOf(Counts(a, m)), OnesOf(Counts(b, m));
    forall g | g in s
      ensures f(g) in u && SoleTask(a, g) < |a|
    {
      AloneInBoth(a, b, t, m, high, g);
    }
    forall g, h | g in s && h in s && f(g) == f(h)
      ensures g == h
    {
      DifferentGroups(a, b, t, m, high, g, h);
    }
    InjectionGrows(s, u, f);
  }

  lemma {:induction false} PrefixLoads(b: seq<nat>, t: seq<nat>, m: nat, n: nat, g: nat)
    requires |b| <= |t| && IsAssignmentTo(b, m) && n <= |b| && g < m
    ensures Loads(b[..n], t, m)[g] <= Loads(b, t, m)[g]
  {
    if n < |b| {
      PrefixLoads(b[..|b| - 1], t, m, n, g);
      assert b[..|b| - 1][..n] == b[..n];
    } else {
      assert b[..n] == b;
    }
  }

  /** When a large task is handed out, the lowest load leaves room for it below the highest load of b. */
  lemma LargeTaskFits(a: seq<nat>, b: seq<nat>, t: seq<nat>, m: nat, high: int, n: nat)
    requires |a| == |b| == |t| && IsAssignmentTo(a, m) && IsAssignmentTo(b, m) && IsGreedy(a, t, m) && IsDescending(t)
    requires (forall g :: 0 <= g < m ==> Loads(b, t, m)[g] <= high) && n < |t| && 3 * t[n] > high
    ensures Loads(a[..n], t, m)[a[n]] + t[n] <= high
  {
    NoOverload(a[..n], b[..n + 1], t, m, high);
    var loads := Loads(b[..n + 1], t, m);
    forall g | 0 <= g < m
      ensures loads[g] <= high
    {
      PrefixLoads(b, t, m, n + 1, g);
    }
    var low := LowestLoad(a, t, m, n);
  }

  /** load <= (4/3 - 1/(3m)) * high */
  ghost predicate IsWithinBound(m: int, load: int, high: int) {
    3 * (m * load) <= (4 * m - 1) * high
  }

  lemma ThirdOfHigh(m: int, load: int, high: int, x: int)
    requires m >= 1 && 3 * x <= high && m * load <= m * high + (m - 1) * x
    ensures IsWithinBound(m, load, high)
  {
    assert 3 * ((m - 1) * x) == (m - 1) * (3 * x);
    ScaleByOthers(m, 3 * x, high);
    assert (4 * m - 1) * high == 3 * (m * high) + (m - 1) * high;
  }

  lemma AtMostHigh(m: int, load: int, high: int)
    requires m >= 1 && load <= high && high >= 0
    ensures IsWithinBound(m, load, high)
  {
    ScaleByOthers(m + 1, load, high);
    ScaleByOthers(m, 0, high);
    assert (4 * m - 1) * high == 3 * (m * high) + (m - 1) * high;
  }

  /** With the tasks in descending order, no group's load exceeds 4/3 - 1/(3m) times the highest load of
      any assignment b. */
  lemma LargestFirstBound(a: seq<nat>, b: seq<nat>, t: seq<nat>, m: nat, high: nat, g: nat)
    requires |a| == |b| == |t| && IsAssignmentTo(a, m) && IsAssignmentTo(b, m) && IsGreedy(a, t, m) && IsDescending(t)
    requires (forall h :: 0 <= h < m ==> Loads(b, t, m)[h] <= high) && g < m
    ensures IsWithinBound(m, Loads(a, t, m)[g], high)
  {
    hide *;
    var load := Loads(a, t, m)[g];
    if load <= 0 {
      AtMostHigh(m, load, high);
    } else {
      var n := LastTask(a, t, m, g);
      if 3 * t[n] > high {
        LargeTaskFits(a, b, t, m, high, n);
        AtMostHigh(m, load, high);
      } else {
        AverageAndTask(a, b, t, m, high, n);
        ThirdOfHigh(m, load, high, t[n]);
      }
    }
  }

  lemma AverageAndTask(a: seq<nat>, b: seq<nat>, t: seq<nat>, m: nat, high: nat, n: nat)
    requires |a| == |b| == |t| && IsAssignmentTo(a, m) && IsAssignmentTo(b, m) && IsGreedy(a, t, m) && n < |t|
    requires forall h :: 0 <= h < m ==> Loads(b, t, m)[h] <= high
    ensures m * (Loads(a[..n], t, m)[a[n]] + t[n]) <= m * high + (m - 1) * t[n]
  {
    LowestIsBelowAverage(a, t, m, n);
    TotalGrows(t, n + 1);
    TotalIsBelow(b, t, m, high);
  }

  lemma TotalIsBelow(b: seq<nat>, t: seq<nat>, m: nat, high: nat)
    requires |b| == |t| && IsAssignmentTo(b, m) && forall h :: 0 <= h < m ==> Loads(b, t, m)[h] <= high
    ensures Sum(t) <= m * high
  {
    LoadIsConserved(b, t, m);
    assert t[..|b|] == t;
    SumAtMost(Loads(b, t, m), high);
  }
}
