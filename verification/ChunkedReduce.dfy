/** Reducing the grids of all process groups into a sparse grid that never holds more than one chunk
    of subspaces, and writing the sums back before the next chunk is read. */
module ChunkedReduce {
  import opened Chunks

  /** A component grid in its hierarchical representation: the values of every subspace it contains. */
  datatype Task = Task(coefficient: real, grid: map<int, seq<real>>)

  /** The tasks of one process group. */
  type Group = seq<Task>

  /** The subspaces of a sparse grid that are allocated at the moment. */
  type Partial = map<int, seq<real>>

  ghost predicate FitSizes(sizes: Sizes, groups: seq<Group>) {
    forall g, i, s :: 0 <= g < |groups| && 0 <= i < |groups[g]| && s in groups[g][i].grid ==>
      |groups[g][i].grid[s]| == SizeOf(sizes, s)
  }

  function ZeroData(n: nat): (z: seq<real>)
    ensures |z| == n
  {
    seq(n, j => 0.0)
  }

  function Plus(a: seq<real>, b: seq<real>): (c: seq<real>)
    requires |a| == |b|
    ensures |c| == |a|
  {
    seq(|a|, j requires 0 <= j < |a| => a[j] + b[j])
  }

  function Scaled(c: real, a: seq<real>): (b: seq<real>)
    ensures |b| == |a|
  {
    seq(|a|, j requires 0 <= j < |a| => c * a[j])
  }

  ghost predicate FitsGroup(sizes: Sizes, group: Group, s: int) {
    forall i :: 0 <= i < |group| && s in group[i].grid ==> |group[i].grid[s]| == SizeOf(sizes, s)
  }

  /** Coefficients times values of subspace s, summed over the tasks of a group. */
  ghost function GroupSum(sizes: Sizes, group: Group, s: int): (sum: seq<real>)
    requires FitsGroup(sizes, group, s)
    ensures |sum| == SizeOf(sizes, s)
  {
    if group == [] then ZeroData(SizeOf(sizes, s))
    else
      var front, last := group[..|group| - 1], group[|group| - 1];
      if s in last.grid then Plus(GroupSum(sizes, front, s), Scaled(last.coefficient, last.grid[s]))
        else GroupSum(sizes, front, s)
  }

  ghost predicate FitsAll(sizes: Sizes, groups: seq<Group>, s: int) {
    forall g :: 0 <= g < |groups| ==> FitsGroup(sizes, groups[g], s)
  }

  /** The same, summed over all groups. */
  ghost function TotalSum(sizes: Sizes, groups: seq<Group>, s: int): (sum: seq<real>)
    requires FitsAll(sizes, groups, s)
    ensures |sum| == SizeOf(sizes, s)
  {
    if groups == [] then ZeroData(SizeOf(sizes, s))
    else Plus(TotalSum(sizes, groups[..|groups| - 1], s), GroupSum(sizes, groups[|groups| - 1], s))
  }

  /** Tasks with the same coefficients and the same values in subspace s. */
  ghost predicate AgreeOn(a: Group, b: Group, s: int) {
    |a| == |b| && forall i {:trigger a[i]} {:trigger b[i]} :: 0 <= i < |a| ==>
      a[i].coefficient == b[i].coefficient && (s in a[i].grid <==> s in b[i].grid)
      && (s in a[i].grid ==> a[i].grid[s] == b[i].grid[s])
  }

  lemma {:induction false} SumDependsOnSubspace(sizes: Sizes, a: Group, b: Group, s: int)
    requires AgreeOn(a, b, s) && FitsGroup(sizes, a, s)
    ensures FitsGroup(sizes, b, s) && GroupSum(sizes, a, s) == GroupSum(sizes, b, s)
  {
    if a != [] {
      SumDependsOnSubspace(sizes, a[..|a| - 1], b[..|b| - 1], s);
    }
  }

  lemma {:induction false} TotalDependsOnSubspace(sizes: Sizes, a: seq<Group>, b: seq<Group>, s: int)
    requires |a| == |b| && (forall g :: 0 <= g < |a| ==> AgreeOn(a[g], b[g], s)) && FitsAll(sizes, a, s)
    ensures FitsAll(sizes, b, s) && TotalSum(sizes, a, s) == TotalSum(sizes, b, s)
  {
    forall g | 0 <= g < |b|
      ensures FitsGroup(sizes, b[g], s)
    {
      SumDependsOnSubspace(sizes, a[g], b[g], s);
    }
    if a != [] {
      var n := |a| - 1;
      TotalDependsOnSubspace(sizes, a[..n], b[..n], s);
      SumDependsOnSubspace(sizes, a[n], b[n], s);
    }
  }

  /** What a task of group g holds in subspace s once the subspaces in out have been reduced over all
      groups and those in inner[g] within the group. */
  ghost function Combined(sizes: Sizes, before: seq<Group>, g: nat, s: int, own: seq<real>, out: set<int>,
                          inner: seq<set<int>>): seq<real>
    requires FitSizes(sizes, before) && g < |before| == |inner|
  {
    if s in out then TotalSum(sizes, before, s) else if s in inner[g] then GroupSum(sizes, before[g], s) else own
  }

  ghost predicate IsCombinedGroup(sizes: Sizes, before: seq<Group>, g: nat, after: Group, out: set<int>,
                                  inner: seq<set<int>>)
    requires FitSizes(sizes, before) && g < |before| == |inner|
  {
    |after| == |before[g]|
    && forall i {:trigger after[i]} :: 0 <= i < |after| ==>
         && after[i].coefficient == before[g][i].coefficient
         && after[i].grid.Keys == before[g][i].grid.Keys
         && forall s :: s in after[i].grid ==>
           after[i].grid[s] == Combined(sizes, before, g, s, before[g][i].grid[s], out, inner)
  }

  ghost predicate IsCombined(sizes: Sizes, before: seq<Group>, after: seq<Group>, out: set<int>, inner: seq<set<int>>)
    requires FitSizes(sizes, before) && |before| == |inner|
  {
    |after| == |before|
    && forall g {:trigger after[g]} :: 0 <= g < |after| ==> IsCombinedGroup(sizes, before, g, after[g], out, inner)
  }

  /** The combined values are determined by the grids before. */
  lemma CombinedIsUnique(sizes: Sizes, before: seq<Group>, a: seq<Group>, b: seq<Group>, out: set<int>,
                         inner: seq<set<int>>, g: nat, s: int)
    requires FitSizes(sizes, before) && g < |before| == |inner|
    requires IsCombined(sizes, before, a, out, inner) && IsCombined(sizes, before, b, out, inner)
    ensures AgreeOn(a[g], b[g], s)
  {
    assert IsCombinedGroup(sizes, before, g, a[g], out, inner) && IsCombinedGroup(sizes, before, g, b[g], out, inner);
    forall i | 0 <= i < |a[g]|
      ensures s in a[g][i].grid <==> s in b[g][i].grid
    {
      assert s in a[g][i].grid <==> s in before[g][i].grid.Keys;
      assert s in b[g][i].grid <==> s in before[g][i].grid.Keys;
    }
  }

  /** A subspace that has not been combined yet still has its old values in every task. */
  lemma UntouchedAgrees(sizes: Sizes, before: seq<Group>, now: seq<Group>, out: set<int>, inner: seq<set<int>>, g: nat,
                        s: int)
    requires FitSizes(sizes, before) && g < |before| == |inner| && IsCombined(sizes, before, now, out, inner)
    requires s !in out && s !in inner[g]
    ensures AgreeOn(before[g], now[g], s)
  {
    assert IsCombinedGroup(sizes, before, g, now[g], out, inner);
  }

  lemma CombinedFits(sizes: Sizes, before: seq<Group>, now: seq<Group>, out: set<int>, inner: seq<set<int>>)
    requires FitSizes(sizes, before) && |before| == |inner| && IsCombined(sizes, before, now, out, inner)
    ensures FitSizes(sizes, now)
  {
    forall g, i, s | 0 <= g < |now| && 0 <= i < |now[g]| && s in now[g][i].grid
      ensures |now[g][i].grid[s]| == SizeOf(sizes, s)
    {
      assert IsCombinedGroup(sizes, before, g, now[g], out, inner);
    }
  }

  /** The sparse grid holds the given sums. */
  ghost predicate HoldsGroupSums(sizes: Sizes, group: Group, dsg: Partial, chunk: set<int>) {
    && dsg.Keys == chunk
    && forall s :: s in chunk ==> FitsGroup(sizes, group, s) && dsg[s] == GroupSum(sizes, group, s)
  }

  /** Adds the grid of a task to the allocated subspaces. */
  function AddGrid(dsg: Partial, t: Task): Partial {
    map s | s in dsg :: if s in t.grid && |t.grid[s]| == |dsg[s]| then Plus(dsg[s], Scaled(t.coefficient, t.grid[s]))
      else dsg[s]
  }

  /** Local reduce: allocates the subspaces of a chunk with zeros and adds the grids of all tasks. */
  method AddFullGrids(sizes: Sizes, group: Group, chunk: set<int>) returns (dsg: Partial)
    requires forall s :: s in chunk ==> FitsGroup(sizes, group, s)
    ensures HoldsGroupSums(sizes, group, dsg, chunk)
  {
    dsg := map s | s in chunk :: ZeroData(SizeOf(sizes, s));
    for i := 0 to |group|
      invariant HoldsGroupSums(sizes, group[..i], dsg, chunk)
    {
      AddOne(sizes, group, i, dsg, chunk);
      dsg := AddGrid(dsg, group[i]);
    }
    assert group[..|group|] == group;
  }

  lemma AddOne(sizes: Sizes, group: Group, i: nat, dsg: Partial, chunk: set<int>)
    requires i < |group| && HoldsGroupSums(sizes, group[..i], dsg, chunk)
    requires forall s :: s in chunk ==> FitsGroup(sizes, group, s)
    ensures HoldsGroupSums(sizes, group[..i + 1], AddGrid(dsg, group[i]), chunk)
  {
    var now := group[..i + 1];
    assert now[..i] == group[..i] && now[i] == group[i];
    forall s | s in chunk
      ensures FitsGroup(sizes, now, s)
    {
    }
  }

  ghost predicate HoldsTotalSums(sizes: Sizes, groups: seq<Group>, dsg: Partial, chunk: set<int>) {
    && dsg.Keys == chunk
    && forall s :: s in chunk ==> FitsAll(sizes, groups, s) && dsg[s] == TotalSum(sizes, groups, s)
  }

  function AddPartial(sum: Partial, dsg: Partial): Partial {
    map s | s in sum :: if s in dsg && |dsg[s]| == |sum[s]| then Plus(sum[s], dsg[s]) else sum[s]
  }

  lemma AddGroup(sizes: Sizes, groups: seq<Group>, g: nat, dsg: Partial, sum: Partial, chunk: set<int>)
    requires g < |groups| && HoldsTotalSums(sizes, groups[..g], sum, chunk)
             && HoldsGroupSums(sizes, groups[g], dsg, chunk)
    ensures HoldsTotalSums(sizes, groups[..g + 1], AddPartial(sum, dsg), chunk)
  {
    var now := groups[..g + 1];
    assert now[..g] == groups[..g] && now[g] == groups[g];
    forall s | s in chunk
      ensures FitsAll(sizes, now, s) && TotalSum(sizes, now, s) == Plus(sum[s], dsg[s])
    {
      assert FitsAll(sizes, groups[..g], s) && FitsGroup(sizes, groups[g], s);
    }
  }

  /** Global reduce: the sum over the groups, which every group receives. */
  method GlobalSubspaceReduce(sizes: Sizes, ghost groups: seq<Group>, dsgs: seq<Partial>, chunk: set<int>)
    returns (sum: Partial)
    requires |dsgs| == |groups| && forall g :: 0 <= g < |dsgs| ==> HoldsGroupSums(sizes, groups[g], dsgs[g], chunk)
    ensures HoldsTotalSums(sizes, groups, sum, chunk)
  {
    sum := map s | s in chunk :: ZeroData(SizeOf(sizes, s));
    for g := 0 to |dsgs|
      invariant HoldsTotalSums(sizes, groups[..g], sum, chunk)
    {
      AddGroup(sizes, groups, g, dsgs[g], sum, chunk);
      sum := AddPartial(sum, dsgs[g]);
    }
    assert groups[..|dsgs|] == groups;
  }

  function Extracted(t: Task, dsg: Partial): Task {
    t.(grid := map s | s in t.grid :: if s in dsg then dsg[s] else t.grid[s])
  }

  ghost predicate IsExtracted(group: Group, after: Group, dsg: Partial) {
    |after| == |group| && forall i {:trigger after[i]} :: 0 <= i < |group| ==> after[i] == Extracted(group[i], dsg)
  }

  /** Distribute: every task takes over the allocated subspaces. */
  method ExtractFromSparseGrid(group: Group, dsg: Partial) returns (after: Group)
    ensures IsExtracted(group, after, dsg)
  {
    after := [];
    for i := 0 to |group|
      invariant |after| == i && forall j {:trigger after[j]} :: 0 <= j < i ==> after[j] == Extracted(group[j], dsg)
    {
      after := after + [Extracted(group[i], dsg)];
    }
  }

  /** A chunk whose sums over all groups have been written back is combined. */
  lemma OutgroupChunkIsCombined(sizes: Sizes, before: seq<Group>, now: seq<Group>, after: seq<Group>, out: set<int>,
                                inner: seq<set<int>>, chunk: set<int>, dsg: Partial)
    requires FitSizes(sizes, before) && |before| == |inner| && IsCombined(sizes, before, now, out, inner)
    requires chunk !! out && (forall g :: 0 <= g < |inner| ==> chunk !! inner[g])
    requires HoldsTotalSums(sizes, now, dsg, chunk) && |after| == |now|
    requires forall g {:trigger after[g]} :: 0 <= g < |now| ==> IsExtracted(now[g], after[g], dsg)
    ensures IsCombined(sizes, before, after, out + chunk, inner)
  {
    forall s | s in chunk
      ensures FitsAll(sizes, before, s) && dsg[s] == TotalSum(sizes, before, s)
    {
      forall g | 0 <= g < |before|
        ensures AgreeOn(before[g], now[g], s)
      {
        UntouchedAgrees(sizes, before, now, out, inner, g, s);
      }
      TotalDependsOnSubspace(sizes, before, now, s);
    }
    forall g | 0 <= g < |after|
      ensures IsCombinedGroup(sizes, before, g, after[g], out + chunk, inner)
    {
      assert IsCombinedGroup(sizes, before, g, now[g], out, inner);
      forall i | 0 <= i < |after[g]|
        ensures after[g][i].coefficient == before[g][i].coefficient && after[g][i].grid.Keys == before[g][i].grid.Keys
        ensures forall s :: s in after[g][i].grid ==>
                  after[g][i].grid[s] == Combined(sizes, before, g, s, before[g][i].grid[s], out + chunk, inner)
      {
        assert after[g][i] == Extracted(now[g][i], dsg) && now[g][i].grid.Keys == before[g][i].grid.Keys;
      }
    }
  }

  /** A chunk whose sums within group g have been written back is combined. */
  lemma IngroupChunkIsCombined(sizes: Sizes, before: seq<Group>, now: seq<Group>, group: Group, out: set<int>,
                               inner: seq<set<int>>, g: nat, chunk: set<int>, dsg: Partial)
    requires FitSizes(sizes, before) && g < |before| == |inner| && IsCombined(sizes, before, now, out, inner)
    requires chunk !! out && chunk !! inner[g] && HoldsGroupSums(sizes, now[g], dsg, chunk)
    requires IsExtracted(now[g], group, dsg)
    ensures IsCombined(sizes, before, now[g := group], out, inner[g := inner[g] + chunk])
  {
    var more := inner[g := inner[g] + chunk];
    forall s | s in chunk
      ensures dsg[s] == GroupSum(sizes, before[g], s)
    {
      UntouchedAgrees(sizes, before, now, out, inner, g, s);
      SumDependsOnSubspace(sizes, before[g], now[g], s);
    }
    var after := now[g := group];
    forall h | 0 <= h < |after|
      ensures IsCombinedGroup(sizes, before, h, after[h], out, more)
    {
      assert IsCombinedGroup(sizes, before, h, now[h], out, inner);
      if h == g {
        forall i | 0 <= i < |group|
          ensures group[i].coefficient == before[g][i].coefficient && group[i].grid.Keys == before[g][i].grid.Keys
          ensures forall s :: s in group[i].grid ==>
                    group[i].grid[s] == Combined(sizes, before, g, s, before[g][i].grid[s], out, more)
        {
          assert group[i] == Extracted(now[g][i], dsg) && now[g][i].grid.Keys == before[g][i].grid.Keys;
        }
      }
    }
  }

  /** Every group adds up its own tasks. */
  method LocalReduce(sizes: Sizes, groups: seq<Group>, chunk: set<int>) returns (dsgs: seq<Partial>)
    requires FitSizes(sizes, groups)
    ensures |dsgs| == |groups|
            && forall g {:trigger dsgs[g]} :: 0 <= g < |dsgs| ==> HoldsGroupSums(sizes, groups[g], dsgs[g], chunk)
  {
    dsgs := [];
    for g := 0 to |groups|
      invariant |dsgs| == g && forall h {:trigger dsgs[h]} :: 0 <= h < g ==>
                HoldsGroupSums(sizes, groups[h], dsgs[h], chunk)
    {
      var dsg := AddFullGrids(sizes, groups[g], chunk);
      dsgs := dsgs + [dsg];
    }
  }

  /** What a combined state holds, task by task and subspace by subspace. */
  lemma CombinedValues(sizes: Sizes, before: seq<Group>, after: seq<Group>, outgroup: seq<int>, ingroup: seq<seq<int>>)
    requires FitSizes(sizes, before) && |ingroup| == |before|
    requires IsCombined(sizes, before, after, Members(outgroup), AllMembers(ingroup, |ingroup|))
    ensures |after| == |before| && forall g {:trigger after[g]} :: 0 <= g < |after| ==> |after[g]| == |before[g]|
    ensures forall g, i {:trigger after[g][i]} :: 0 <= g < |after| && 0 <= i < |after[g]| ==>
              && after[g][i].coefficient == before[g][i].coefficient
              && after[g][i].grid.Keys == before[g][i].grid.Keys
    ensures forall g, i, s {:trigger after[g][i].grid[s]} ::
              0 <= g < |after| && 0 <= i < |after[g]| && s in after[g][i].grid ==>
                after[g][i].grid[s]
                == if s in outgroup then TotalSum(sizes, before, s)
                   else if s in ingroup[g] then GroupSum(sizes, before[g], s)
                   else before[g][i].grid[s]
  {
    hide TotalSum, GroupSum;
    var out, inner := Members(outgroup), AllMembers(ingroup, |ingroup|);
    forall g | 0 <= g < |after|
      ensures IsCombinedGroup(sizes, before, g, after[g], out, inner)
    {
    }
    forall g, i, s | 0 <= g < |after| && 0 <= i < |after[g]| && s in after[g][i].grid
      ensures s in before[g][i].grid
      ensures after[g][i].grid[s]
              == if s in outgroup then TotalSum(sizes, before, s)
                 else if s in ingroup[g] then GroupSum(sizes, before[g], s)
                 else before[g][i].grid[s]
    {
      assert IsCombinedGroup(sizes, before, g, after[g], out, inner);
      assert after[g][i].grid.Keys == before[g][i].grid.Keys;
      assert after[g][i].grid[s] == Combined(sizes, before, g, s, before[g][i].grid[s], out, inner);
    }
  }

  method DistributeToTasks(groups: seq<Group>, sum: Partial) returns (after: seq<Group>)
    ensures |after| == |groups|
            && forall g {:trigger after[g]} :: 0 <= g < |after| ==> IsExtracted(groups[g], after[g], sum)
  {
    after := [];
    for g := 0 to |groups|
      invariant |after| == g && forall h {:trigger after[h]} :: 0 <= h < g ==> IsExtracted(groups[h], after[h], sum)
    {
      var group := ExtractFromSparseGrid(groups[g], sum);
      after := after + [group];
    }
  }

  /** The process groups that share an outgroup communicator, with what all their tasks hold. */
  class ProcessGroups {
    const sizes: Sizes
    var groups: seq<Group>

    constructor (sizes: Sizes, groups: seq<Group>)
      ensures this.sizes == sizes && this.groups == groups
    {
      this.sizes, this.groups := sizes, groups;
    }

    /** Local reduce in every group, global reduce over the groups, and distribution to all tasks. */
    method CombineOutgroup(chunk: set<int>, ghost before: seq<Group>, ghost out: set<int>, ghost inner: seq<set<int>>)
      requires FitSizes(sizes, before) && |before| == |inner| && IsCombined(sizes, before, groups, out, inner)
      requires chunk !! out && forall g :: 0 <= g < |inner| ==> chunk !! inner[g]
      modifies this`groups
      ensures IsCombined(sizes, before, groups, out + chunk, inner)
    {
      CombinedFits(sizes, before, groups, out, inner);
      ghost var now := groups;
      var dsgs := LocalReduce(sizes, groups, chunk);
      var sum := GlobalSubspaceReduce(sizes, groups, dsgs, chunk);
      var after := DistributeToTasks(groups, sum);
      groups := after;
      OutgroupChunkIsCombined(sizes, before, now, groups, out, inner, chunk, sum);
    }

    /** Subspaces of one group only: local reduce and distribution. */
    method CombineIngroup(g: nat, chunk: set<int>, ghost before: seq<Group>, ghost out: set<int>,
                          ghost inner: seq<set<int>>)
      requires FitSizes(sizes, before) && g < |before| == |inner| && IsCombined(sizes, before, groups, out, inner)
      requires chunk !! out && chunk !! inner[g]
      modifies this`groups
      ensures IsCombined(sizes, before, groups, out, inner[g := inner[g] + chunk])
    {
      CombinedFits(sizes, before, groups, out, inner);
      var dsg := AddFullGrids(sizes, groups[g], chunk);
      var group := ExtractFromSparseGrid(groups[g], dsg);
      IngroupChunkIsCombined(sizes, before, groups, group, out, inner, g, chunk, dsg);
      groups := groups[g := group];
    }

    /** The chunks of the list are combined one after the other. */
    method CombineOutgroupChunks(list: seq<int>, limit: int, ghost before: seq<Group>, ghost inner: seq<set<int>>)
      requires FitSizes(sizes, before) && |before| == |inner| && IsCombined(sizes, before, groups, {}, inner)
      requires NoDuplicates(list) && forall g :: 0 <= g < |inner| ==> inner[g] == {}
      modifies this`groups
      ensures IsCombined(sizes, before, groups, Members(list), inner)
    {
      var chunks := GetChunkedSubspaces(sizes, list, limit);
      ghost var parts :| Flatten(parts) == list && AreSetsOf(chunks, parts) && AreChunks(sizes, parts, limit);
      for c := 0 to |chunks|
        invariant IsCombined(sizes, before, groups, Members(Flatten(parts[..c])), inner)
      {
        NextPart(list, parts, c);
        CombineOutgroup(chunks[c], before, Members(Flatten(parts[..c])), inner);
      }
      assert parts[..|chunks|] == parts;
    }

    method CombineIngroupChunks(g: nat, list: seq<int>, limit: int, ghost before: seq<Group>, ghost out: set<int>,
                                ghost inner: seq<set<int>>)
      requires FitSizes(sizes, before) && g < |before| == |inner| && IsCombined(sizes, before, groups, out, inner)
      requires NoDuplicates(list) && Members(list) !! out && inner[g] == {}
      modifies this`groups
      ensures IsCombined(sizes, before, groups, out, inner[g := Members(list)])
    {
      var chunks := GetChunkedSubspaces(sizes, list, limit);
      ghost var parts :| Flatten(parts) == list && AreSetsOf(chunks, parts) && AreChunks(sizes, parts, limit);
      assert Members(Flatten(parts[..0])) == {} && inner[g := Members(Flatten(parts[..0]))] == inner;
      for c := 0 to |chunks|
        invariant IsCombined(sizes, before, groups, out, inner[g := Members(Flatten(parts[..c]))])
      {
        NextPart(list, parts, c);
        ghost var now := inner[g := Members(Flatten(parts[..c]))];
        CombineIngroup(g, chunks[c], before, out, now);
        assert now[g := now[g] + chunks[c]] == inner[g := Members(Flatten(parts[..c + 1]))];
      }
      assert parts[..|chunks|] == parts;
    }

    /** The memory-saving combination: no group ever holds more than one chunk of the sparse grid. */
    method CollectReduceDistribute(outgroup: seq<int>, ingroup: seq<seq<int>>, limit: int)
      requires FitSizes(sizes, groups) && |ingroup| == |groups| && AreSeparate(outgroup, ingroup)
      modifies this`groups
      ensures IsCombined(sizes, old(groups), groups, Members(outgroup), AllMembers(ingroup, |ingroup|))
      ensures |groups| == |old(groups)| && forall g {:trigger groups[g]} ::
                0 <= g < |groups| ==> |groups[g]| == |old(groups)[g]|
      ensures forall g, i {:trigger groups[g][i]} :: 0 <= g < |groups| && 0 <= i < |groups[g]| ==>
                && groups[g][i].coefficient == old(groups)[g][i].coefficient
                && groups[g][i].grid.Keys == old(groups)[g][i].grid.Keys
      ensures forall g, i, s {:trigger groups[g][i].grid[s]} ::
                0 <= g < |groups| && 0 <= i < |groups[g]| && s in groups[g][i].grid ==>
                  groups[g][i].grid[s]
                  == if s in outgroup then TotalSum(sizes, old(groups), s)
                     else if s in ingroup[g] then GroupSum(sizes, old(groups)[g], s)
                     else old(groups)[g][i].grid[s]
    {
      ghost var before := groups;
      assert forall g :: 0 <= g < |ingroup| ==> AllMembers(ingroup, 0)[g] == {};
      CombineOutgroupChunks(outgroup, limit, before, AllMembers(ingroup, 0));
      for g := 0 to |ingroup|
        invariant IsCombined(sizes, before, groups, Members(outgroup), AllMembers(ingroup, g))
      {
        CombineIngroupChunks(g, ingroup[g], limit, before, Members(outgroup), AllMembers(ingroup, g));
        assert AllMembers(ingroup, g)[g := Members(ingroup[g])] == AllMembers(ingroup, g + 1);
      }
      CombinedValues(sizes, before, groups, outgroup, ingroup);
    }

    /** The simple combination: all subspaces are allocated and reduced, and only then distributed. */
    method ReduceThenDistribute(outgroup: seq<int>, ingroup: seq<seq<int>>, limit: int)
      requires FitSizes(sizes, groups) && |ingroup| == |groups| && AreSeparate(outgroup, ingroup)
      modifies this`groups
      ensures IsCombined(sizes, old(groups), groups, Members(outgroup), AllMembers(ingroup, |ingroup|))
      ensures |groups| == |old(groups)| && forall g {:trigger groups[g]} ::
                0 <= g < |groups| ==> |groups[g]| == |old(groups)[g]|
      ensures forall g, i {:trigger groups[g][i]} :: 0 <= g < |groups| && 0 <= i < |groups[g]| ==>
                && groups[g][i].coefficient == old(groups)[g][i].coefficient
                && groups[g][i].grid.Keys == old(groups)[g][i].grid.Keys
      ensures forall g, i, s {:trigger groups[g][i].grid[s]} ::
                0 <= g < |groups| && 0 <= i < |groups[g]| && s in groups[g][i].grid ==>
                  groups[g][i].grid[s]
                  == if s in outgroup then TotalSum(sizes, old(groups), s)
                     else if s in ingroup[g] then GroupSum(sizes, old(groups)[g], s)
                     else old(groups)[g][i].grid[s]
    {
      var dsgs := ReduceLocalAndGlobal(sizes, groups, outgroup, ingroup, limit);
      var after: seq<Group> := DistributeCombinedSolution(groups, dsgs);
      ReducedIsCombined(sizes, groups, dsgs, after, outgroup, ingroup);
      CombinedValues(sizes, groups, after, outgroup, ingroup);
      groups := after;
    }
  }

  /** Group g's sparse grid while the shared subspaces are being reduced: those in done hold the total. */
  ghost predicate IsReduced(sizes: Sizes, groups: seq<Group>, g: nat, dsg: Partial, all: set<int>, done: set<int>)
    requires FitSizes(sizes, groups) && g < |groups|
  {
    && dsg.Keys == all
    && forall s :: s in all ==> dsg[s] == if s in done then TotalSum(sizes, groups, s)
      else GroupSum(sizes, groups[g], s)
  }

  ghost predicate AreReduced(sizes: Sizes, groups: seq<Group>, dsgs: seq<Partial>, out: set<int>, inner: seq<set<int>>,
                             done: set<int>)
    requires FitSizes(sizes, groups) && |groups| == |inner|
  {
    |dsgs| == |groups| && forall g {:trigger dsgs[g]} :: 0 <= g < |dsgs| ==>
      IsReduced(sizes, groups, g, dsgs[g], out + inner[g], done)
  }

  function Restricted(dsg: Partial, chunk: set<int>): Partial {
    map s | s in chunk && s in dsg :: dsg[s]
  }

  /** Takes over the reduced subspaces. */
  function Overwritten(dsg: Partial, sum: Partial): Partial {
    map s | s in dsg :: if s in sum then sum[s] else dsg[s]
  }

  /** The global reduction of the subspaces of one chunk, in the sparse grids of all groups. */
  method ReduceChunk(sizes: Sizes, ghost groups: seq<Group>, dsgs: seq<Partial>, chunk: set<int>,
                     ghost out: set<int>, ghost inner: seq<set<int>>, ghost done: set<int>)
    returns (after: seq<Partial>)
    requires FitSizes(sizes, groups) && |groups| == |inner| && AreReduced(sizes, groups, dsgs, out, inner, done)
    requires chunk <= out && chunk !! done
    ensures AreReduced(sizes, groups, after, out, inner, done + chunk)
  {
    var parts: seq<Partial> := [];
    for g := 0 to |dsgs|
      invariant |parts| == g && forall h {:trigger parts[h]} :: 0 <= h < g ==>
                HoldsGroupSums(sizes, groups[h], parts[h], chunk)
    {
      assert IsReduced(sizes, groups, g, dsgs[g], out + inner[g], done);
      parts := parts + [Restricted(dsgs[g], chunk)];
    }
    var sum := GlobalSubspaceReduce(sizes, groups, parts, chunk);
    after := [];
    for g := 0 to |dsgs|
      invariant |after| == g
      invariant forall h {:trigger after[h]} :: 0 <= h < g ==>
                  IsReduced(sizes, groups, h, after[h], out + inner[h], done + chunk)
    {
      assert IsReduced(sizes, groups, g, dsgs[g], out + inner[g], done);
      after := after + [Overwritten(dsgs[g], sum)];
    }
  }

  /** Allocates all subspaces of every group and adds up its tasks. */
  method ReduceLocal(sizes: Sizes, groups: seq<Group>, outgroup: seq<int>, ingroup: seq<seq<int>>)
    returns (dsgs: seq<Partial>)
    requires FitSizes(sizes, groups) && |ingroup| == |groups|
    ensures AreReduced(sizes, groups, dsgs, Members(outgroup), AllMembers(ingroup, |ingroup|), {})
  {
    ghost var out, inner := Members(outgroup), AllMembers(ingroup, |ingroup|);
    dsgs := [];
    for g := 0 to |groups|
      invariant |dsgs| == g && forall h {:trigger dsgs[h]} :: 0 <= h < g ==>
                IsReduced(sizes, groups, h, dsgs[h], out + inner[h], {})
    {
      var all := (set s | s in outgroup) + (set s | s in ingroup[g]);
      assert all == out + inner[g];
      var dsg := AddFullGrids(sizes, groups[g], all);
      dsgs := dsgs + [dsg];
    }
  }

  method ReduceLocalAndGlobal(sizes: Sizes, groups: seq<Group>, outgroup: seq<int>, ingroup: seq<seq<int>>, limit: int)
    returns (dsgs: seq<Partial>)
    requires FitSizes(sizes, groups) && |ingroup| == |groups| && NoDuplicates(outgroup)
    ensures AreReduced(sizes, groups, dsgs, Members(outgroup), AllMembers(ingroup, |ingroup|), Members(outgroup))
  {
    hide AreReduced, FitSizes;
    ghost var out, inner := Members(outgroup), AllMembers(ingroup, |ingroup|);
    dsgs := ReduceLocal(sizes, groups, outgroup, ingroup);
    var chunks := GetChunkedSubspaces(sizes, outgroup, limit);
    ghost var parts :| Flatten(parts) == outgroup && AreSetsOf(chunks, parts) && AreChunks(sizes, parts, limit);
    assert Members(Flatten(parts[..0])) == {};
    for c := 0 to |chunks|
      invariant AreReduced(sizes, groups, dsgs, out, inner, Members(Flatten(parts[..c])))
    {
      NextPart(outgroup, parts, c);
      dsgs := ReduceChunk(sizes, groups, dsgs, chunks[c], out, inner, Members(Flatten(parts[..c])));
    }
    assert parts[..|chunks|] == parts;
  }

  method DistributeCombinedSolution(groups: seq<Group>, dsgs: seq<Partial>) returns (after: seq<Group>)
    requires |dsgs| == |groups|
    ensures |after| == |groups|
            && forall g {:trigger after[g]} :: 0 <= g < |after| ==> IsExtracted(groups[g], after[g], dsgs[g])
  {
    after := [];
    for g := 0 to |groups|
      invariant |after| == g && forall h {:trigger after[h]} :: 0 <= h < g ==> IsExtracted(groups[h], after[h], dsgs[h])
    {
      var group := ExtractFromSparseGrid(groups[g], dsgs[g]);
      after := after + [group];
    }
  }

  lemma ReducedIsCombined(sizes: Sizes, groups: seq<Group>, dsgs: seq<Partial>, after: seq<Group>, outgroup: seq<int>,
                          ingroup: seq<seq<int>>)
    requires FitSizes(sizes, groups) && |ingroup| == |groups| == |after|
    requires AreReduced(sizes, groups, dsgs, Members(outgroup), AllMembers(ingroup, |ingroup|), Members(outgroup))
    requires forall g {:trigger after[g]} :: 0 <= g < |after| ==> IsExtracted(groups[g], after[g], dsgs[g])
    ensures IsCombined(sizes, groups, after, Members(outgroup), AllMembers(ingroup, |ingroup|))
  {
    var out, inner := Members(outgroup), AllMembers(ingroup, |ingroup|);
    forall g | 0 <= g < |after|
      ensures IsCombinedGroup(sizes, groups, g, after[g], out, inner)
    {
      assert IsReduced(sizes, groups, g, dsgs[g], out + inner[g], out);
      forall i | 0 <= i < |after[g]|
        ensures after[g][i].coefficient == groups[g][i].coefficient && after[g][i].grid.Keys == groups[g][i].grid.Keys
        ensures forall s :: s in after[g][i].grid ==>
                  after[g][i].grid[s] == Combined(sizes, groups, g, s, groups[g][i].grid[s], out, inner)
      {
        assert after[g][i] == Extracted(groups[g][i], dsgs[g]);
      }
    }
  }

  /** The lists of subspaces that are shared between groups, and that belong to one group each. */
  ghost predicate AreSeparate(outgroup: seq<int>, ingroup: seq<seq<int>>) {
    && NoDuplicates(outgroup)
    && forall g :: 0 <= g < |ingroup| ==> NoDuplicates(ingroup[g]) && Members(ingroup[g]) !! Members(outgroup)
  }

  /** The subspaces of the first n groups' own lists. */
  ghost function AllMembers(ingroup: seq<seq<int>>, n: int): (r: seq<set<int>>)
    ensures |r| == |ingroup|
  {
    seq(|ingroup|, g requires 0 <= g < |ingroup| => if g < n then Members(ingroup[g]) else {})
  }

  lemma NotInEarlierPart(parts: seq<seq<int>>, c: nat, s: int)
    requires c < |parts| && NoDuplicates(Flatten(parts)) && s in parts[c]
    ensures s !in Flatten(parts[..c]) && s in Flatten(parts)
  {
    FlattenMembers(parts, s);
    FlattenMembers(parts[..c], s);
    forall i | 0 <= i < c
      ensures s !in parts[..c][i]
    {
      ChunksAreDisjoint(parts, i, c);
      assert s in Members(parts[c]);
    }
  }

  /** Part c is disjoint from the parts before it. */
  lemma NextPart(list: seq<int>, parts: seq<seq<int>>, c: nat)
    requires c < |parts| && Flatten(parts) == list && NoDuplicates(list)
    ensures Members(parts[c]) !! Members(Flatten(parts[..c]))
    ensures Members(Flatten(parts[..c + 1])) == Members(Flatten(parts[..c])) + Members(parts[c])
    ensures Members(parts[c]) <= Members(list)
  {
    forall s | s in Members(parts[c])
      ensures s !in Members(Flatten(parts[..c])) && s in Members(list)
    {
      NotInEarlierPart(parts, c, s);
    }
    assert parts[..c + 1][..c] == parts[..c];
    MembersOfConcat(Flatten(parts[..c]), parts[c]);
  }

  lemma MembersOfConcat(a: seq<int>, b: seq<int>)
    ensures Members(a + b) == Members(a) + Members(b)
  {
  }
}
