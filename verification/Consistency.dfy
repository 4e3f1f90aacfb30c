/** What the sums of a combination are made of, and that combining grids that already agree changes nothing, because the
    scheme counts every subspace once. */
module Consistency {
  import opened LevelSets
  import opened CombiScheme
  import opened Chunks
  import opened ChunkedReduce

  /** Sum of the coefficients of the tasks that contain subspace s. */
  ghost function Weight(group: Group, s: int): real {
    if group == [] then 0.0
    else
      var front, last := group[..|group| - 1], group[|group| - 1];
      Weight(front, s) + if s in last.grid then last.coefficient else 0.0
  }

  ghost function TotalWeight(groups: seq<Group>, s: int): real {
    if groups == [] then 0.0 else TotalWeight(groups[..|groups| - 1], s) + Weight(groups[|groups| - 1], s)
  }

  ghost predicate HoldsEverywhere(group: Group, s: int, v: seq<real>) {
    forall i {:trigger group[i]} :: 0 <= i < |group| && s in group[i].grid ==> group[i].grid[s] == v
  }

  lemma ScaledPlus(c: real, d: real, v: seq<real>)
    ensures Plus(Scaled(c, v), Scaled(d, v)) == Scaled(c + d, v)
  {
  }

  lemma {:induction false} GroupSumOfEqual(sizes: Sizes, group: Group, s: int, v: seq<real>)
    requires HoldsEverywhere(group, s, v) && |v| == SizeOf(sizes, s)
    ensures FitsGroup(sizes, group, s) && GroupSum(sizes, group, s) == Scaled(Weight(group, s), v)
  {
    if group == [] {
      assert ZeroData(|v|) == Scaled(0.0, v);
    } else {
      var front, last := group[..|group| - 1], group[|group| - 1];
      GroupSumOfEqual(sizes, front, s, v);
      ScaledPlus(Weight(front, s), last.coefficient, v);
    }
  }

  lemma {:induction false} TotalSumOfEqual(sizes: Sizes, groups: seq<Group>, s: int, v: seq<real>)
    requires (forall g {:trigger groups[g]} :: 0 <= g < |groups| ==> HoldsEverywhere(groups[g], s, v))
             && |v| == SizeOf(sizes, s)
    ensures FitsAll(sizes, groups, s) && TotalSum(sizes, groups, s) == Scaled(TotalWeight(groups, s), v)
  {
    forall g | 0 <= g < |groups|
      ensures FitsGroup(sizes, groups[g], s)
    {
      GroupSumOfEqual(sizes, groups[g], s, v);
    }
    if groups == [] {
      assert ZeroData(|v|) == Scaled(0.0, v);
    } else {
      var n := |groups| - 1;
      TotalSumOfEqual(sizes, groups[..n], s, v);
      GroupSumOfEqual(sizes, groups[n], s, v);
      ScaledPlus(TotalWeight(groups[..n], s), Weight(groups[n], s), v);
    }
  }

  function AllTasks(groups: seq<Group>): seq<Task> {
    if groups == [] then [] else AllTasks(groups[..|groups| - 1]) + groups[|groups| - 1]
  }

  lemma {:induction false} WeightOfJoined(a: Group, b: Group, s: int)
    ensures Weight(a + b, s) == Weight(a, s) + Weight(b, s)
  {
    if b == [] {
      assert a + b == a;
    } else {
      WeightOfJoined(a, b[..|b| - 1], s);
      assert (a + b)[..|a + b| - 1] == a + b[..|b| - 1];
    }
  }

  lemma {:induction false} TotalWeightIsWeight(groups: seq<Group>, s: int)
    ensures TotalWeight(groups, s) == Weight(AllTasks(groups), s)
  {
    if groups != [] {
      TotalWeightIsWeight(groups[..|groups| - 1], s);
      WeightOfJoined(AllTasks(groups[..|groups| - 1]), groups[|groups| - 1], s);
    }
  }

  /** The tasks, listed in any distribution over groups, are the grids of the scheme; the one for level l
      contains the subspace s of level k if k <= l. */
  ghost predicate AreGridsOf(tasks: seq<Task>, spaces: seq<Level>, coefficients: seq<real>, k: Level, s: int) {
    |tasks| == |spaces| == |coefficients|
    && forall i {:trigger tasks[i]} :: 0 <= i < |tasks| ==>
         tasks[i].coefficient == coefficients[i] && (s in tasks[i].grid <==> Leq(k, spaces[i]))
  }

  lemma {:induction false} WeightIsTimesCounted(tasks: seq<Task>, spaces: seq<Level>, coefficients: seq<real>, k: Level,
                                                s: int)
    requires AreGridsOf(tasks, spaces, coefficients, k, s)
    ensures Weight(tasks, s) == TimesCounted(spaces, coefficients, k)
  {
    if tasks != [] {
      var n := |tasks| - 1;
      WeightIsTimesCounted(tasks[..n], spaces[..n], coefficients[..n], k, s);
    }
  }

  /** If all component grids hold the same values in a subspace that their scheme counts once, so does the
      combination. */
  lemma AgreementIsKept(sizes: Sizes, groups: seq<Group>, spaces: seq<Level>, coefficients: seq<real>, k: Level, s: int,
                        v: seq<real>)
    requires AreGridsOf(AllTasks(groups), spaces, coefficients, k, s) && TimesCounted(spaces, coefficients, k) == 1.0
    requires (forall g {:trigger groups[g]} :: 0 <= g < |groups| ==> HoldsEverywhere(groups[g], s, v))
             && |v| == SizeOf(sizes, s)
    ensures FitsAll(sizes, groups, s) && TotalSum(sizes, groups, s) == v
  {
    TotalSumOfEqual(sizes, groups, s, v);
    TotalWeightIsWeight(groups, s);
    WeightIsTimesCounted(AllTasks(groups), spaces, coefficients, k, s);
    assert Scaled(1.0, v) == v;
  }

  /** What a task contributes to entry j of subspace s. */
  ghost function Share(t: Task, s: int, j: nat): real {
    if s in t.grid && j < |t.grid[s]| then t.coefficient * t.grid[s][j] else 0.0
  }

  /** Exchanging one task changes the sum by the difference of what the two contribute.  Without tasks it is zero. */
  lemma {:induction false} ExchangedTask(sizes: Sizes, group: Group, i: nat, t: Task, s: int, j: nat)
    requires FitsGroup(sizes, group, s) && i < |group| && j < SizeOf(sizes, s)
    requires s in t.grid ==> |t.grid[s]| == SizeOf(sizes, s)
    ensures FitsGroup(sizes, group[i := t], s)
    ensures GroupSum(sizes, [], s)[j] == 0.0
    ensures GroupSum(sizes, group[i := t], s)[j] - GroupSum(sizes, group, s)[j]
            == Share(t, s, j) - Share(group[i], s, j)
  {
    var n, more := |group| - 1, group[i := t];
    assert FitsGroup(sizes, more, s);
    if i == n {
      assert more[..n] == group[..n];
    } else {
      ExchangedTask(sizes, group[..n], i, t, s, j);
      assert more[..n] == group[..n][i := t];
    }
  }

  lemma {:induction false} SumOfJoined(sizes: Sizes, a: Group, b: Group, s: int)
    requires FitsGroup(sizes, a, s) && FitsGroup(sizes, b, s)
    ensures FitsGroup(sizes, a + b, s)
    ensures GroupSum(sizes, a + b, s) == Plus(GroupSum(sizes, a, s), GroupSum(sizes, b, s))
  {
    assert FitsGroup(sizes, a + b, s);
    if b == [] {
      assert a + b == a;
    } else {
      var front := b[..|b| - 1];
      SumOfJoined(sizes, a, front, s);
      assert (a + b)[..|a + b| - 1] == a + front;
    }
  }

  /** The total does not depend on how the tasks are distributed over the groups: it is the sum over all tasks. */
  lemma {:induction false} TotalIsSumOfAll(sizes: Sizes, groups: seq<Group>, s: int)
    requires FitsAll(sizes, groups, s)
    ensures FitsGroup(sizes, AllTasks(groups), s)
    ensures TotalSum(sizes, groups, s) == GroupSum(sizes, AllTasks(groups), s)
  {
    if groups != [] {
      var n := |groups| - 1;
      TotalIsSumOfAll(sizes, groups[..n], s);
      SumOfJoined(sizes, AllTasks(groups[..n]), groups[n], s);
    }
  }

  ghost predicate HoldsNowhere(group: Group, s: int) {
    forall i {:trigger group[i]} :: 0 <= i < |group| ==> s !in group[i].grid
  }

  lemma {:induction false} NoWeight(group: Group, s: int)
    requires HoldsNowhere(group, s)
    ensures Weight(group, s) == 0.0
  {
    if group != [] {
      NoWeight(group[..|group| - 1], s);
    }
  }

  /** A subspace of one group only has its whole weight there. */
  lemma {:induction false} WeightInOneGroup(groups: seq<Group>, g: nat, s: int)
    requires g < |groups| && forall h :: 0 <= h < |groups| && h != g ==> HoldsNowhere(groups[h], s)
    ensures TotalWeight(groups, s) == Weight(groups[g], s)
  {
    var n := |groups| - 1;
    if g == n {
      NoTotalWeight(groups[..n], s);
    } else {
      WeightInOneGroup(groups[..n], g, s);
      NoWeight(groups[n], s);
    }
  }

  lemma {:induction false} NoTotalWeight(groups: seq<Group>, s: int)
    requires forall h :: 0 <= h < |groups| ==> HoldsNowhere(groups[h], s)
    ensures TotalWeight(groups, s) == 0.0
  {
    if groups != [] {
      NoTotalWeight(groups[..|groups| - 1], s);
      NoWeight(groups[|groups| - 1], s);
    }
  }

  /** After the combination all tasks that contain a shared subspace hold the same values there. */
  lemma SharedSubspacesAgree(sizes: Sizes, before: seq<Group>, after: seq<Group>, outgroup: seq<int>,
                             ingroup: seq<seq<int>>, s: int)
    requires FitSizes(sizes, before) && |ingroup| == |before| && s in outgroup
    requires IsCombined(sizes, before, after, Members(outgroup), AllMembers(ingroup, |ingroup|))
    ensures forall g :: 0 <= g < |after| ==> HoldsEverywhere(after[g], s, TotalSum(sizes, before, s))
  {
    hide TotalSum, IsCombined;
    CombinedValues(sizes, before, after, outgroup, ingroup);
  }

  /** The combination leaves a subspace alone in which all tasks already hold the same values, if the scheme counts it
      once and a group that treats it as its own is the only one that has it. */
  lemma CombinationKeepsAgreement(sizes: Sizes, before: seq<Group>, after: seq<Group>, outgroup: seq<int>,
                                  ingroup: seq<seq<int>>, spaces: seq<Level>, coefficients: seq<real>, k: Level, s: int,
                                  v: seq<real>)
    requires FitSizes(sizes, before) && |ingroup| == |before|
    requires IsCombined(sizes, before, after, Members(outgroup), AllMembers(ingroup, |ingroup|))
    requires AreGridsOf(AllTasks(before), spaces, coefficients, k, s) && TimesCounted(spaces, coefficients, k) == 1.0
    requires (forall g {:trigger before[g]} :: 0 <= g < |before| ==> HoldsEverywhere(before[g], s, v))
             && |v| == SizeOf(sizes, s)
    requires forall g, h :: 0 <= g < |before| && 0 <= h < |before| && g != h && s in ingroup[g] ==>
               HoldsNowhere(before[h], s)
    ensures |after| == |before| && forall g {:trigger after[g]} :: 0 <= g < |after| ==> HoldsEverywhere(after[g], s, v)
  {
    hide TotalSum, GroupSum, IsCombined, AreGridsOf;
    CombinedValues(sizes, before, after, outgroup, ingroup);
    AgreementIsKept(sizes, before, spaces, coefficients, k, s, v);
    forall g | 0 <= g < |before| && s in ingroup[g]
      ensures GroupSum(sizes, before[g], s) == v
    {
      GroupSumOfEqual(sizes, before[g], s, v);
      WeightInOneGroup(before, g, s);
      TotalWeightIsWeight(before, s);
      WeightIsTimesCounted(AllTasks(before), spaces, coefficients, k, s);
      assert Scaled(1.0, v) == v;
    }
  }

  /** Tasks with the same coefficients that contain the subspace alike. */
  ghost predicate AreAlike(a: seq<Task>, b: seq<Task>, s: int) {
    |a| == |b| && forall i {:trigger a[i]} {:trigger b[i]} :: 0 <= i < |a| ==>
      a[i].coefficient == b[i].coefficient && (s in a[i].grid <==> s in b[i].grid)
  }

  lemma {:induction false} AllTasksAreAlike(a: seq<Group>, b: seq<Group>, s: int)
    requires |a| == |b| && forall g :: 0 <= g < |a| ==> AreAlike(a[g], b[g], s)
    ensures AreAlike(AllTasks(a), AllTasks(b), s)
  {
    if a != [] {
      AllTasksAreAlike(a[..|a| - 1], b[..|b| - 1], s);
    }
  }

  /** A second combination right after the first changes no shared subspace that the scheme counts once. */
  lemma CombiningTwice(sizes: Sizes, before: seq<Group>, once: seq<Group>, twice: seq<Group>, outgroup: seq<int>,
                       ingroup: seq<seq<int>>, spaces: seq<Level>, coefficients: seq<real>, k: Level, s: int, g: nat)
    requires FitSizes(sizes, before) && FitSizes(sizes, once) && |ingroup| == |before| == |once|
    requires IsCombined(sizes, before, once, Members(outgroup), AllMembers(ingroup, |ingroup|))
    requires IsCombined(sizes, once, twice, Members(outgroup), AllMembers(ingroup, |ingroup|))
    requires AreGridsOf(AllTasks(before), spaces, coefficients, k, s) && TimesCounted(spaces, coefficients, k) == 1.0
    requires s in outgroup && g < |before|
    ensures |twice| == |once| && AgreeOn(once[g], twice[g], s)
  {
    hide TotalSum, GroupSum, IsCombined;
    var v := TotalSum(sizes, before, s);
    SharedSubspacesAgree(sizes, before, once, outgroup, ingroup, s);
    SharedSubspacesAgree(sizes, once, twice, outgroup, ingroup, s);
    CombinedValues(sizes, before, once, outgroup, ingroup);
    CombinedValues(sizes, once, twice, outgroup, ingroup);
    AllTasksAreAlike(before, once, s);
    AgreementIsKept(sizes, once, spaces, coefficients, k, s, v);
  }
}
