/** Which component grids a process group computes: all groups sort the grids by their number of points, hand out the
    largest first, and keep their own. */
module TaskDistribution {
  import opened Dyadic
  import opened Tensor
  import opened LoadBalancing
  import opened LoadBalancingBound

  /** Number of points in one dimension, with 0, 1 or 2 boundary points. */
  function PointsAlong(level: nat, boundary: nat): nat {
    if level > 0 then Pow2(level) - 1 + boundary else boundary
  }

  function GridSizes(level: seq<nat>, boundary: seq<nat>): (extents: Index)
    requires |level| == |boundary|
    ensures |extents| == |level| && forall d :: 0 <= d < |extents| ==> extents[d] >= 0
  {
    seq(|level|, d requires 0 <= d < |level| => PointsAlong(level[d], boundary[d]))
  }

  lemma ProductIsNatural(a: int, b: int)
    requires a >= 0 && b >= 0
    ensures a * b >= 0
  {
  }

  /** The number of cells of the grid. */
  method GetCombiDegreesOfFreedom(level: seq<nat>, boundary: seq<nat>) returns (numDOF: nat)
    requires |level| == |boundary|
    ensures numDOF == Stride(GridSizes(level, boundary), |level|)
  {
    numDOF := 1;
    for d := 0 to |level|
      invariant numDOF == Stride(GridSizes(level, boundary), d)
    {
      var points := if level[d] > 0 then Pow2(level[d]) - 1 + boundary[d] else boundary[d];
      assert GridSizes(level, boundary)[d] == points;
      ProductIsNatural(numDOF, points);
      numDOF := numDOF * points;
    }
  }

  ghost predicate AreGridSizes(loads: seq<nat>, allLevels: seq<seq<nat>>, boundary: seq<nat>) {
    && |loads| == |allLevels|
    && forall i :: 0 <= i < |allLevels| ==>
         |allLevels[i]| == |boundary| && loads[i] == Stride(GridSizes(allLevels[i], boundary), |boundary|)
  }

  method GetLoads(allLevels: seq<seq<nat>>, boundary: seq<nat>) returns (loads: seq<nat>)
    requires forall i :: 0 <= i < |allLevels| ==> |allLevels[i]| == |boundary|
    ensures AreGridSizes(loads, allLevels, boundary)
  {
    loads := [];
    for i := 0 to |allLevels|
      invariant AreGridSizes(loads, allLevels[..i], boundary)
    {
      var numDOF := GetCombiDegreesOfFreedom(allLevels[i], boundary);
      loads := loads + [numDOF];
    }
    assert allLevels[..|allLevels|] == allLevels;
  }

  predicate AreTasks(order: seq<nat>, n: nat) {
    forall i :: 0 <= i < |order| ==> order[i] < n
  }

  /** Inserts task x behind all tasks that have at least its load. */
  function InsertTask(order: seq<nat>, x: nat, loads: seq<nat>): (longer: seq<nat>)
    requires x < |loads| && AreTasks(order, |loads|)
    ensures |longer| == |order| + 1 && AreTasks(longer, |loads|)
  {
    if order == [] then [x]
    else
      var n := |order| - 1;
      if loads[order[n]] >= loads[x] then order + [x] else InsertTask(order[..n], x, loads) + [order[n]]
  }

  /** The first n tasks, the largest load first. */
  function SortedTasks(loads: seq<nat>, n: nat): (order: seq<nat>)
    requires n <= |loads|
    ensures |order| == n && AreTasks(order, |loads|)
  {
    if n == 0 then [] else InsertTask(SortedTasks(loads, n - 1), n - 1, loads)
  }

  /** A property of the tasks, in the order of the list. */
  function InOrder(order: seq<nat>, x: seq<nat>): (t: seq<nat>)
    requires AreTasks(order, |x|)
    ensures |t| == |order|
  {
    seq(|order|, i requires 0 <= i < |order| => x[order[i]])
  }

  lemma {:induction false} InsertKeepsOrder(order: seq<nat>, x: nat, loads: seq<nat>)
    requires x < |loads| && AreTasks(order, |loads|) && IsDescending(InOrder(order, loads))
    ensures IsDescending(InOrder(InsertTask(order, x, loads), loads))
    ensures forall y :: y in InsertTask(order, x, loads) <==> y in order || y == x
  {
    if order != [] {
      var n := |order| - 1;
      var t := InOrder(order, loads);
      assert order == order[..n] + [order[n]];
      if loads[order[n]] < loads[x] {
        var front := InsertTask(order[..n], x, loads);
        forall i, j | 0 <= i < j < n
          ensures InOrder(order[..n], loads)[i] >= InOrder(order[..n], loads)[j]
        {
          assert t[i] >= t[j];
        }
        InsertKeepsOrder(order[..n], x, loads);
        forall i | 0 <= i < |front|
          ensures loads[front[i]] >= loads[order[n]]
        {
          LowestIsLast(order, loads, x, front[i]);
        }
        AppendLowest(front, order[n], loads);
      } else {
        forall i | 0 <= i < |order|
          ensures loads[order[i]] >= loads[x]
        {
          assert t[i] >= t[n];
        }
        AppendLowest(order, x, loads);
      }
    }
  }

  lemma LowestIsLast(order: seq<nat>, loads: seq<nat>, x: nat, y: nat)
    requires order != [] && AreTasks(order, |loads|) && IsDescending(InOrder(order, loads)) && x < |loads|
    requires (y in order || y == x) && loads[x] >= loads[order[|order| - 1]]
    ensures y < |loads| && loads[y] >= loads[order[|order| - 1]]
  {
    if y in order {
      var i :| 0 <= i < |order| && order[i] == y;
      assert InOrder(order, loads)[i] >= InOrder(order, loads)[|order| - 1];
    }
  }

  lemma AppendLowest(order: seq<nat>, x: nat, loads: seq<nat>)
    requires x < |loads| && AreTasks(order, |loads|) && IsDescending(InOrder(order, loads))
    requires forall i :: 0 <= i < |order| ==> loads[order[i]] >= loads[x]
    ensures IsDescending(InOrder(order + [x], loads))
  {
    var t, longer := InOrder(order, loads), InOrder(order + [x], loads);
    forall i, j | 0 <= i < j < |longer|
      ensures longer[i] >= longer[j]
    {
      if j < |order| {
        assert t[i] >= t[j];
      }
    }
  }

  /** Every task is in the list, and larger loads come first. */
  lemma {:induction false} SortedTasksAreDescending(loads: seq<nat>, n: nat)
    requires n <= |loads|
    ensures IsDescending(InOrder(SortedTasks(loads, n), loads))
    ensures forall y :: y in SortedTasks(loads, n) <==> 0 <= y < n
  {
    if n > 0 {
      SortedTasksAreDescending(loads, n - 1);
      InsertKeepsOrder(SortedTasks(loads, n - 1), n - 1, loads);
    }
  }

  ghost predicate NoTaskTwice(order: seq<nat>) {
    forall i, j :: 0 <= i < j < |order| ==> order[i] != order[j]
  }

  lemma {:induction false} InsertKeepsDistinct(order: seq<nat>, x: nat, loads: seq<nat>)
    requires x < |loads| && AreTasks(order, |loads|) && NoTaskTwice(order) && x !in order
    ensures NoTaskTwice(InsertTask(order, x, loads))
    ensures forall y :: y in InsertTask(order, x, loads) ==> y in order || y == x
  {
    if order != [] {
      var n := |order| - 1;
      assert order == order[..n] + [order[n]];
      InsertKeepsDistinct(order[..n], x, loads);
      var front := InsertTask(order[..n], x, loads);
      forall i | 0 <= i < |front|
        ensures front[i] != order[n]
      {
        assert front[i] in front;
      }
    }
  }

  lemma {:induction false} SortedTasksAreDistinct(loads: seq<nat>, n: nat)
    requires n <= |loads|
    ensures NoTaskTwice(SortedTasks(loads, n))
  {
    if n > 0 {
      SortedTasksAreDistinct(loads, n - 1);
      SortedTasksAreDescending(loads, n - 1);
      InsertKeepsDistinct(SortedTasks(loads, n - 1), n - 1, loads);
    }
  }

  /** The tasks with their levels and coefficients. */
  ghost predicate AreSelected(taskNumbers: seq<nat>, allLevels: seq<seq<nat>>, allCoeffs: seq<real>,
                              levels: seq<seq<nat>>, coeffs: seq<real>) {
    && |taskNumbers| == |levels| == |coeffs| && AreTasks(taskNumbers, |allLevels|) && |allCoeffs| == |allLevels|
    && forall i {:trigger levels[i]} {:trigger coeffs[i]} :: 0 <= i < |taskNumbers| ==>
         levels[i] == allLevels[taskNumbers[i]] && coeffs[i] == allCoeffs[taskNumbers[i]]
  }

  lemma SelectNext(taskNumbers: seq<nat>, allLevels: seq<seq<nat>>, allCoeffs: seq<real>, levels: seq<seq<nat>>,
                   coeffs: seq<real>, taskNo: nat)
    requires AreSelected(taskNumbers, allLevels, allCoeffs, levels, coeffs) && taskNo < |allLevels|
    ensures AreSelected(taskNumbers + [taskNo], allLevels, allCoeffs, levels + [allLevels[taskNo]],
                        coeffs + [allCoeffs[taskNo]])
  {
  }

  /** The first tasks have been handed out. */
  ghost predicate IsHandedOut(a: seq<nat>, t: seq<nat>, m: nat, n: nat, loadAssignedToGroup: seq<int>) {
    n == |a| <= |t| && IsAssignmentTo(a, m) && IsGreedy(a, t, m) && loadAssignedToGroup == Loads(a, t, m)
  }

  lemma HandOutNext(a: seq<nat>, t: seq<nat>, m: nat, n: nat, loads: seq<int>, g: nat)
    requires IsHandedOut(a, t, m, n, loads) && n < |t| && IsFirstMinimum(loads, g)
    ensures IsHandedOut(a + [g], t, m, n + 1, loads[g := loads[g] + t[n]])
  {
    GreedyExtends(a, t, m, g);
    assert (a + [g])[..n] == a;
  }

  lemma NextTask(order: seq<nat>, a: seq<nat>, me: nat, g: nat)
    requires |a| < |order|
    ensures TasksOf(order, a + [g], me) == TasksOf(order, a, me) + if g == me then [order[|a|]] else []
  {
    assert (a + [g])[..|a|] == a;
  }

  /** What one group computes for itself: its own tasks of the greedy assignment, in the order in which they are
      handed out. */
  method GetLoadBalancedLevels(allLevels: seq<seq<nat>>, allCoeffs: seq<real>, boundary: seq<nat>,
                               myProcessGroupNumber: nat, totalNumGroups: nat)
    returns (total: nat, levels: seq<seq<nat>>, coeffs: seq<real>, taskNumbers: seq<nat>)
    requires |allCoeffs| == |allLevels| && totalNumGroups > 0
    requires forall i :: 0 <= i < |allLevels| ==> |allLevels[i]| == |boundary|
    ensures total == |allLevels| && AreSelected(taskNumbers, allLevels, allCoeffs, levels, coeffs)
    ensures forall loads, a {:trigger IsGreedyFor(loads, a, totalNumGroups),
                             AreGridSizes(loads, allLevels, boundary)} ::
              AreGridSizes(loads, allLevels, boundary) && IsGreedyFor(loads, a, totalNumGroups)
              ==> taskNumbers == TasksOf(SortedTasks(loads, |loads|), a, myProcessGroupNumber)
    ensures exists loads, a :: AreGridSizes(loads, allLevels, boundary) && IsGreedyFor(loads, a, totalNumGroups)
  {
    var loads := GetLoads(allLevels, boundary);
    var allTaskIDs := SortedTasks(loads, |loads|);
    ghost var a;
    levels, coeffs, taskNumbers, a :=
      HandOut(allTaskIDs, loads, allLevels, allCoeffs, myProcessGroupNumber, totalNumGroups);
    total := |allLevels|;
    assert AreGridSizes(loads, allLevels, boundary) && IsGreedyFor(loads, a, totalNumGroups);
    forall others, b | AreGridSizes(others, allLevels, boundary) && IsGreedyFor(others, b, totalNumGroups)
      ensures others == loads && b == a
    {
      SizesAreUnique(loads, others, allLevels, boundary);
      GreedyIsUnique(a, b, InOrder(allTaskIDs, loads), totalNumGroups);
    }
  }

  /** The loop over the sorted tasks. */
  method HandOut(allTaskIDs: seq<nat>, loads: seq<nat>, allLevels: seq<seq<nat>>, allCoeffs: seq<real>, me: nat,
                 totalNumGroups: nat)
    returns (levels: seq<seq<nat>>, coeffs: seq<real>, taskNumbers: seq<nat>, ghost a: seq<nat>)
    requires |allCoeffs| == |allLevels| == |loads| && totalNumGroups > 0 && AreTasks(allTaskIDs, |loads|)
    ensures AreSelected(taskNumbers, allLevels, allCoeffs, levels, coeffs)
    ensures IsGreedyAssignment(a, InOrder(allTaskIDs, loads), totalNumGroups)
            && taskNumbers == TasksOf(allTaskIDs, a, me)
  {
    ghost var t := InOrder(allTaskIDs, loads);
    var loadAssignedToGroup: seq<int> := seq(totalNumGroups, g => 0);
    a := [];
    levels, coeffs, taskNumbers := [], [], [];
    for n := 0 to |allTaskIDs|
      invariant IsHandedOut(a, t, totalNumGroups, n, loadAssignedToGroup)
      invariant taskNumbers == TasksOf(allTaskIDs, a, me)
      invariant AreSelected(taskNumbers, allLevels, allCoeffs, levels, coeffs)
    {
      var taskNo := allTaskIDs[n];
      var minGroup := GroupWithLowestLoad(loadAssignedToGroup);
      HandOutNext(a, t, totalNumGroups, n, loadAssignedToGroup, minGroup);
      NextTask(allTaskIDs, a, me, minGroup);
      SelectNext(taskNumbers, allLevels, allCoeffs, levels, coeffs, taskNo);
      a := a + [minGroup];
      loadAssignedToGroup := loadAssignedToGroup[minGroup := loadAssignedToGroup[minGroup] + loads[taskNo]];
      if minGroup == me {
        taskNumbers := taskNumbers + [taskNo];
        coeffs := coeffs + [allCoeffs[taskNo]];
        levels := levels + [allLevels[taskNo]];
      }
    }
  }

  lemma SizesAreUnique(loads: seq<nat>, others: seq<nat>, allLevels: seq<seq<nat>>, boundary: seq<nat>)
    requires AreGridSizes(loads, allLevels, boundary) && AreGridSizes(others, allLevels, boundary)
    ensures loads == others
  {
  }

  /** The greedy assignment of the sorted tasks; a[i] is the group of the i-th task in the list. */
  ghost predicate IsGreedyFor(loads: seq<nat>, a: seq<nat>, m: nat) {
    IsGreedyAssignment(a, InOrder(SortedTasks(loads, |loads|), loads), m)
  }

  /** Every task is computed by exactly one group. */
  lemma EveryTaskOnce(loads: seq<nat>, a: seq<nat>, m: nat, task: nat) returns (g: nat)
    requires IsGreedyFor(loads, a, m) && task < |loads|
    ensures g < m && forall h :: task in TasksOf(SortedTasks(loads, |loads|), a, h) <==> h == g
  {
    var order := SortedTasks(loads, |loads|);
    SortedTasksAreDescending(loads, |loads|);
    SortedTasksAreDistinct(loads, |loads|);
    assert task in order;
    var i :| 0 <= i < |order| && order[i] == task;
    g := a[i];
    forall h: nat
      ensures task in TasksOf(order, a, h) <==> h == g
    {
      TaskHasOneGroup(order, a, i, h);
    }
  }

  /** The loads of the groups when c[x] is the group of task x. */
  ghost function OrderedLoads(order: seq<nat>, loads: seq<nat>, c: seq<nat>, m: nat): (r: seq<int>)
    requires |c| == |loads| && IsAssignmentTo(c, m) && AreTasks(order, |loads|)
    ensures |r| == m
  {
    Loads(InOrder(order, c), InOrder(order, loads), m)
  }

  /** Inserting a task adds its load to its group, wherever it goes. */
  lemma {:induction false} InsertAddsLoad(order: seq<nat>, x: nat, loads: seq<nat>, c: seq<nat>, m: nat)
    requires |c| == |loads| && IsAssignmentTo(c, m) && x < |loads| && AreTasks(order, |loads|)
    ensures var before := OrderedLoads(order, loads, c, m);
            OrderedLoads(InsertTask(order, x, loads), loads, c, m) == before[c[x] := before[c[x]] + loads[x]]
  {
    var longer := InsertTask(order, x, loads);
    if order == [] {
      LoadsOfSnoc([], x, loads, c, m);
      assert [] + [x] == [x];
    } else {
      var n := |order| - 1;
      if loads[order[n]] >= loads[x] {
        LoadsOfSnoc(order, x, loads, c, m);
      } else {
        InsertAddsLoad(order[..n], x, loads, c, m);
        LoadsOfSnoc(InsertTask(order[..n], x, loads), order[n], loads, c, m);
        assert order == order[..n] + [order[n]];
        LoadsOfSnoc(order[..n], order[n], loads, c, m);
      }
    }
  }

  lemma LoadsOfSnoc(order: seq<nat>, x: nat, loads: seq<nat>, c: seq<nat>, m: nat)
    requires |c| == |loads| && IsAssignmentTo(c, m) && x < |loads| && AreTasks(order, |loads|)
    ensures var before := OrderedLoads(order, loads, c, m);
            OrderedLoads(order + [x], loads, c, m) == before[c[x] := before[c[x]] + loads[x]]
  {
    var a, t := InOrder(order, c), InOrder(order, loads);
    assert InOrder(order + [x], c) == a + [c[x]] && InOrder(order + [x], loads) == t + [loads[x]];
    assert (a + [c[x]])[..|a|] == a;
    LoadsOfLonger(a, t, loads[x], m);
  }

  lemma {:induction false} LoadsOfLonger(a: seq<nat>, t: seq<nat>, x: nat, m: nat)
    requires |a| <= |t| && IsAssignmentTo(a, m)
    ensures Loads(a, t + [x], m) == Loads(a, t, m)
  {
    if a != [] {
      LoadsOfLonger(a[..|a| - 1], t, x, m);
    }
  }

  lemma LoadsOfPrefix(loads: seq<nat>, c: seq<nat>, m: nat, n: nat)
    requires |c| == |loads| && IsAssignmentTo(c, m) && n < |loads|
    ensures var before := Loads(c[..n], loads, m);
            Loads(c[..n + 1], loads, m) == before[c[n] := before[c[n]] + loads[n]]
  {
    assert c[..n + 1][..n] == c[..n];
  }

  lemma SortedAddsLoad(loads: seq<nat>, c: seq<nat>, m: nat, n: nat)
    requires |c| == |loads| && IsAssignmentTo(c, m) && n < |loads|
    ensures var before := OrderedLoads(SortedTasks(loads, n), loads, c, m);
            OrderedLoads(SortedTasks(loads, n + 1), loads, c, m) == before[c[n] := before[c[n]] + loads[n]]
  {
    InsertAddsLoad(SortedTasks(loads, n), n, loads, c, m);
  }

  /** The loads of the groups do not depend on the order of the tasks. */
  lemma {:induction false} LoadsOfSorted(loads: seq<nat>, c: seq<nat>, m: nat, n: nat)
    requires |c| == |loads| && IsAssignmentTo(c, m) && n <= |loads|
    ensures OrderedLoads(SortedTasks(loads, n), loads, c, m) == Loads(c[..n], loads, m)
  {
    if n > 0 {
      LoadsOfSorted(loads, c, m, n - 1);
      SortedAddsLoad(loads, c, m, n - 1);
      LoadsOfPrefix(loads, c, m, n - 1);
    }
  }

  /** No group gets more than 4/3 - 1/(3m) times the highest load of any other distribution of the tasks. */
  lemma NearlyOptimal(loads: seq<nat>, a: seq<nat>, c: seq<nat>, m: nat, high: nat, g: nat)
    requires IsGreedyFor(loads, a, m) && |c| == |loads| && IsAssignmentTo(c, m) && g < m
    requires forall h :: 0 <= h < m ==> Loads(c, loads, m)[h] <= high
    ensures IsWithinBound(m, Loads(a, InOrder(SortedTasks(loads, |loads|), loads), m)[g], high)
  {
    var order := SortedTasks(loads, |loads|);
    SortedTasksAreDescending(loads, |loads|);
    LoadsOfSorted(loads, c, m, |loads|);
    assert c[..|loads|] == c;
    LargestFirstBound(a, InOrder(order, c), InOrder(order, loads), m, high, g);
  }
}
