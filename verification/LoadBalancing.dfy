/** Distribution of the component grids over the process groups: the largest remaining grid goes to the
    group with the lowest load. */
module LoadBalancing {
  import opened Sums

  /** Load of every group, when a[i] is the group of task i and t[i] its load. */
  function Loads(a: seq<nat>, t: seq<nat>, m: nat): (loads: seq<int>)
    requires |a| <= |t| && IsAssignmentTo(a, m)
    ensures |loads| == m
  {
    if a == [] then seq(m, g => 0)
    else
      var n := |a| - 1;
      var before := Loads(a[..n], t, m);
      before[a[n] := before[a[n]] + t[n]]
  }

  predicate IsAssignmentTo(a: seq<nat>, m: nat) {
    forall i :: 0 <= i < |a| ==> a[i] < m
  }

  /** All loads together are the load of all tasks. */
  lemma {:induction false} LoadIsConserved(a: seq<nat>, t: seq<nat>, m: nat)
    requires |a| <= |t| && IsAssignmentTo(a, m)
    ensures Sum(Loads(a, t, m)) == Sum(t[..|a|])
  {
    if a == [] {
      SumOfZeros(m);
    } else {
      var n := |a| - 1;
      LoadIsConserved(a[..n], t, m);
      var before := Loads(a[..n], t, m);
      SumOfUpdated(before, a[n], before[a[n]] + t[n]);
      assert t[..|a|][..n] == t[..n];
    }
  }

  /** The first group with the lowest load. */
  predicate IsFirstMinimum(loads: seq<int>, g: nat) {
    g < |loads|
    && (forall h :: 0 <= h < |loads| ==> loads[g] <= loads[h])
    && forall h :: 0 <= h < g ==> loads[g] < loads[h]
  }

  /** Every task went to the first group with the lowest load at its time. */
  ghost predicate IsGreedy(a: seq<nat>, t: seq<nat>, m: nat)
    requires |a| <= |t| && IsAssignmentTo(a, m)
  {
    forall n :: 0 <= n < |a| ==> IsFirstMinimum(Loads(a[..n], t, m), a[n])
  }

  method GroupWithLowestLoad(loads: seq<int>) returns (minGroup: nat)
    requires loads != []
    ensures IsFirstMinimum(loads, minGroup)
  {
    minGroup := 0;
    for group := 1 to |loads|
      invariant minGroup < group && (forall h :: 0 <= h < group ==> loads[minGroup] <= loads[h])
      invariant forall h :: 0 <= h < minGroup ==> loads[minGroup] < loads[h]
    {
      if loads[group] < loads[minGroup] {
        minGroup := group;
      }
    }
  }

  /** All tasks have been assigned greedily. */
  ghost predicate IsGreedyAssignment(a: seq<nat>, t: seq<nat>, m: nat) {
    |a| == |t| && IsAssignmentTo(a, m) && IsGreedy(a, t, m)
  }

  function TasksOf(order: seq<nat>, a: seq<nat>, g: nat): seq<nat>
    requires |a| <= |order|
  {
    if a == [] then []
    else
      var n := |a| - 1;
      TasksOf(order, a[..n], g) + if a[n] == g then [order[n]] else []
  }

  lemma GreedyExtends(a: seq<nat>, t: seq<nat>, m: nat, g: nat)
    requires |a| < |t| && IsAssignmentTo(a, m) && IsGreedy(a, t, m) && IsFirstMinimum(Loads(a, t, m), g)
    ensures g < m && IsAssignmentTo(a + [g], m) && IsGreedy(a + [g], t, m)
  {
    var more := a + [g];
    forall n | 0 <= n < |more|
      ensures IsFirstMinimum(Loads(more[..n], t, m), more[n])
    {
      assert n < |a| ==> more[..n] == a[..n];
      assert n == |a| ==> more[..n] == a;
    }
  }

  lemma FirstMinimumIsUnique(loads: seq<int>, g: nat, h: nat)
    requires IsFirstMinimum(loads, g) && IsFirstMinimum(loads, h)
    ensures g == h
  {
    assert loads[g] == loads[h];
  }

  /** All groups compute the same assignment. */
  lemma {:induction false} GreedyIsUnique(a: seq<nat>, b: seq<nat>, t: seq<nat>, m: nat)
    requires |a| == |b| <= |t| && IsAssignmentTo(a, m) && IsAssignmentTo(b, m) && IsGreedy(a, t, m) && IsGreedy(b, t, m)
    ensures a == b
  {
    if a != [] {
      var n := |a| - 1;
      GreedyPrefix(a, t, m, n);
      GreedyPrefix(b, t, m, n);
      GreedyIsUnique(a[..n], b[..n], t, m);
      FirstMinimumIsUnique(Loads(a[..n], t, m), a[n], b[n]);
      assert a == a[..n] + [a[n]] && b == b[..n] + [b[n]];
    }
  }

  lemma GreedyPrefix(a: seq<nat>, t: seq<nat>, m: nat, n: nat)
    requires |a| <= |t| && IsAssignmentTo(a, m) && IsGreedy(a, t, m) && n <= |a|
    ensures IsGreedy(a[..n], t, m)
  {
    forall i | 0 <= i < n
      ensures IsFirstMinimum(Loads(a[..n][..i], t, m), a[..n][i])
    {
      assert a[..n][..i] == a[..i];
    }
  }

  /** Every task belongs to exactly one group's list. */
  lemma {:induction false} TaskHasOneGroup(order: seq<nat>, a: seq<nat>, n: nat, g: nat)
    requires |a| <= |order| && n < |a| && forall i, j :: 0 <= i < j < |order| ==> order[i] != order[j]
    ensures order[n] in TasksOf(order, a, g) <==> a[n] == g
  {
    var k := |a| - 1;
    if n < k {
      TaskHasOneGroup(order, a[..k], n, g);
    } else {
      TasksComeFrom(order, a[..k], g, order[n]);
    }
  }

  lemma {:induction false} TasksComeFrom(order: seq<nat>, a: seq<nat>, g: nat, x: nat)
    requires |a| <= |order| && forall i :: 0 <= i < |a| ==> order[i] != x
    ensures x !in TasksOf(order, a, g)
  {
    if a != [] {
      TasksComeFrom(order, a[..|a| - 1], g, x);
    }
  }

  /** The last task of a group: without it the group had the lowest load. */
  lemma {:induction false} LastTask(a: seq<nat>, t: seq<nat>, m: nat, g: nat) returns (n: nat)
    requires |a| <= |t| && IsAssignmentTo(a, m) && g < m && Loads(a, t, m)[g] > 0
    ensures n < |a| && a[n] == g && Loads(a, t, m)[g] == Loads(a[..n], t, m)[g] + t[n]
  {
    n := |a| - 1;
    if a[n] != g {
      var k := n;
      n := LastTask(a[..k], t, m, g);
      assert a[..k][..n] == a[..n];
    }
  }

  lemma {:induction false} TotalGrows(t: seq<nat>, n: nat)
    requires n <= |t|
    ensures Sum(t[..n]) <= Sum(t)
  {
    if n < |t| {
      TotalGrows(t[..|t| - 1], n);
      assert t[..|t| - 1][..n] == t[..n];
    } else {
      assert t[..n] == t;
    }
  }

  lemma AddToAverage(m: int, low: int, x: int, sum: int)
    requires m * low <= sum
    ensures m * (low + x) <= sum + x + (m - 1) * x
  {
    assert m * (low + x) == m * low + x + (m - 1) * x;
  }

  lemma ScaleByOthers(m: int, x: int, y: int)
    requires m >= 1 && x <= y
    ensures (m - 1) * x <= (m - 1) * y
  {
  }

  /** When task n is handed out, its group has at most the average load of the tasks so far. */
  lemma LowestIsBelowAverage(a: seq<nat>, t: seq<nat>, m: nat, n: nat)
    requires |a| <= |t| && IsAssignmentTo(a, m) && IsGreedy(a, t, m) && n < |a|
    ensures m * (Loads(a[..n], t, m)[a[n]] + t[n]) <= Sum(t[..n + 1]) + (m - 1) * t[n]
  {
    var low := LowestLoad(a, t, m, n);
    AddToAverage(m, low, t[n], Sum(t[..n]));
    assert t[..n + 1][..n] == t[..n];
  }

  lemma LowestLoad(a: seq<nat>, t: seq<nat>, m: nat, n: nat) returns (low: int)
    requires |a| <= |t| && IsAssignmentTo(a, m) && IsGreedy(a, t, m) && n < |a|
    ensures low == Loads(a[..n], t, m)[a[n]] && m * low <= Sum(t[..n])
    ensures forall h :: 0 <= h < m ==> low <= Loads(a[..n], t, m)[h]
  {
    var loads := Loads(a[..n], t, m);
    low := loads[a[n]];
    assert IsFirstMinimum(loads, a[n]);
    SumAtLeast(loads, low);
    LoadIsConserved(a[..n], t, m);
  }

  /** No group gets more than the average load plus most of one task, for any order of the tasks. */
  lemma LoadBound(a: seq<nat>, t: seq<nat>, m: nat, g: nat, largest: nat)
    requires |a| == |t| && IsAssignmentTo(a, m) && IsGreedy(a, t, m) && g < m
    requires forall i :: 0 <= i < |t| ==> t[i] <= largest
    ensures m * Loads(a, t, m)[g] <= Sum(t) + (m - 1) * largest
  {
    hide Loads, IsGreedy, Sum, IsAssignmentTo;
    SumIsNatural(t);
    var load := Loads(a, t, m)[g];
    if load > 0 {
      var n := LastTask(a, t, m, g);
      LoadOfLastTask(a, t, m, n, largest);
    } else {
      ScaleByOthers(m, 0, largest);
      ScaleByOthers(m + 1, load, 0);
    }
  }

  lemma LoadOfLastTask(a: seq<nat>, t: seq<nat>, m: nat, n: nat, largest: nat)
    requires |a| == |t| && IsAssignmentTo(a, m) && IsGreedy(a, t, m) && n < |a| && t[n] <= largest
    ensures m * (Loads(a[..n], t, m)[a[n]] + t[n]) <= Sum(t) + (m - 1) * largest
  {
    LowestIsBelowAverage(a, t, m, n);
    TotalGrows(t, n + 1);
    ScaleByOthers(m, t[n], largest);
  }

  /** The largest tasks come first. */
  predicate IsDescending(t: seq<nat>) {
    forall i, j :: 0 <= i < j < |t| ==> t[i] >= t[j]
  }

  /** Number of tasks of every group. */
  function Counts(a: seq<nat>, m: nat): (counts: seq<int>)
    requires IsAssignmentTo(a, m)
    ensures |counts| == m
  {
    if a == [] then seq(m, g => 0)
    else
      var n := |a| - 1;
      var before := Counts(a[..n], m);
      before[a[n] := before[a[n]] + 1]
  }

  lemma {:induction false} CountIsConserved(a: seq<nat>, m: nat)
    requires IsAssignmentTo(a, m)
    ensures Sum(Counts(a, m)) == |a|
  {
    if a == [] {
      SumOfZeros(m);
    } else {
      var n := |a| - 1;
      CountIsConserved(a[..n], m);
      SumOfUpdated(Counts(a[..n], m), a[n], Counts(a[..n], m)[a[n]] + 1);
    }
  }

  /** A group whose tasks are all at least low carries at least low for each of them. */
  lemma {:induction false} CountTimesLow(a: seq<nat>, t: seq<nat>, m: nat, low: nat, g: nat)
    requires |a| <= |t| && IsAssignmentTo(a, m) && g < m && forall i :: 0 <= i < |a| ==> t[i] >= low
    ensures Counts(a, m)[g] >= 0 && Loads(a, t, m)[g] >= Counts(a, m)[g] * low
    ensures Counts(a, m)[g] == 0 ==> Loads(a, t, m)[g] == 0
  {
    if a != [] {
      var n := |a| - 1;
      CountTimesLow(a[..n], t, m, low, g);
      if a[n] == g {
        var c := Counts(a[..n], m)[g];
        assert (c + 1) * low == c * low + low;
      }
    }
  }

  /** A group with one task, and that task. */
  lemma {:induction false} OnlyTask(a: seq<nat>, t: seq<nat>, m: nat, g: nat) returns (s: nat)
    requires |a| <= |t| && IsAssignmentTo(a, m) && g < m && Counts(a, m)[g] == 1
    ensures s < |a| && a[s] == g && Loads(a, t, m)[g] == t[s]
  {
    var n := |a| - 1;
    if a[n] == g {
      s := n;
      CountTimesLow(a[..n], t, m, 0, g);
    } else {
      s := OnlyTask(a[..n], t, m, g);
    }
  }
}
