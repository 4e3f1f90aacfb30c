/** Whether the process manager gets back to the combination scheme after a recovery.  It sets the coefficients of the
    original scheme level by level, but there may be two tasks for one level. */
module RestoredScheme {
  import opened FiniteSums
  import opened LevelSets
  import opened LevelGeneration
  import opened LevelDictionary
  import opened CombiScheme
  import opened AdaptiveScheme
  import opened SchemeParameters

  /** The coefficients of the tasks when that of every grid in turn has been set, for the task of its level. */
  function SetAgain(coeffs: map<nat, real>, toIDs: map<Level, nat>, grids: seq<Level>, c: seq<real>): (r: map<nat,
                                                                                                       real>)
    requires |grids| == |c| && forall l :: l in grids ==> l in toIDs
    ensures forall id :: id in r <==> id in coeffs || id in IDsOf(toIDs, grids)
  {
    Stored(coeffs, IDsOf(toIDs, grids), c)
  }

  /** Sets the coefficients of the scheme again, whatever they are now. */
  method RestoreCombischeme(params: CombiParameters, dim: nat, lmin: Level, lmax: Level)
    returns (ok: bool, ghost n: int, ghost levels: seq<Level>)
    requires dim > 0 && |lmin| == |lmax| == dim && Leq(lmin, lmax) && forall i :: 0 <= i < dim ==> lmin[i] > 0
    requires forall n, levels :: IsInput(lmin, lmax, n) && ListsLevels(levels, lmax, n - LevelSum(lmin))
                                 ==> params.Knows(AllGrids(lmin, lmax, n, levels))
    modifies params`coeffs, params`combiDictionary
    ensures IsInput(lmin, lmax, n) && ListsLevels(levels, lmax, n - LevelSum(lmin)) && (ok <==> levels != [])
    ensures params.Knows(AllGrids(lmin, lmax, n, levels))
    ensures ok ==> params.coeffs == SetAgain(old(params.coeffs), params.levelsToIDs, AllGrids(lmin, lmax, n, levels),
                                             AllCoefficients(lmin, lmax, n, levels))
    ensures ok ==> params.combiDictionary
                   == AssignAll(old(params.combiDictionary),
                                LevelsOf(params.levels, params.levelsToIDs, AllGrids(lmin, lmax, n, levels)),
                                AllCoefficients(lmin, lmax, n, levels))
    ensures !ok ==> params.coeffs == old(params.coeffs) && params.combiDictionary == old(params.combiDictionary)
  {
    var spaces, coefficients;
    ok, spaces, coefficients, n, levels := CreateFaultTolerantScheme(dim, lmin, lmax);
    if ok {
      SetCoefficients(params, spaces, coefficients);
    }
  }

  /** The loop over the grids. */
  method SetCoefficients(params: CombiParameters, levels: seq<Level>, coeffs: seq<real>)
    requires |levels| == |coeffs| && params.Knows(levels)
    modifies params`coeffs, params`combiDictionary
    ensures params.Knows(levels)
    ensures params.coeffs == SetAgain(old(params.coeffs), params.levelsToIDs, levels, coeffs)
    ensures params.combiDictionary
            == AssignAll(old(params.combiDictionary), LevelsOf(params.levels, params.levelsToIDs, levels), coeffs)
  {
    hide Assign, Stored;
    ghost var ids := IDsOf(params.levelsToIDs, levels);
    ghost var keys := LevelsOf(params.levels, params.levelsToIDs, levels);
    StoreNothing(params.coeffs, ids, coeffs);
    for i := 0 to |levels|
      modifies params`coeffs, params`combiDictionary
      invariant params.coeffs == Stored(old(params.coeffs), ids[..i], coeffs[..i]) && params.Knows(levels)
      invariant params.combiDictionary == AssignAll(old(params.combiDictionary), keys[..i], coeffs[..i])
    {
      assert levels[i] in levels;
      StoreNext(old(params.coeffs), ids, coeffs, i);
      AssignNext(old(params.combiDictionary), keys, coeffs, i);
      params.SetCoeff(params.levelsToIDs[levels[i]], coeffs[i]);
    }
    assert ids[..|levels|] == ids && keys[..|levels|] == keys && coeffs[..|levels|] == coeffs;
  }

  /** The levels of the tasks of these grids. */
  function LevelsOf(levels: map<nat, Level>, toIDs: map<Level, nat>, grids: seq<Level>): (r: seq<Level>)
    requires forall l :: l in grids ==> l in toIDs && toIDs[l] in levels
    ensures |r| == |grids|
  {
    seq(|grids|, i requires 0 <= i < |grids| => levels[toIDs[grids[i]]])
  }

  /** What the coefficients of the tasks are after the coefficients c of their grids have been set again: only the last
      task of every level is set. */
  function RestoredCoefficients(grids: seq<Level>, before: seq<real>, c: seq<real>): (after: seq<real>)
    requires |grids| == |before| == |c|
    ensures |after| == |grids|
  {
    seq(|grids|, i requires 0 <= i < |grids| => if IsLast(grids, i) then c[i] else before[i])
  }

  lemma LastIsUnique(grids: seq<Level>, i: nat, j: nat)
    requires IsLast(grids, i) && IsLast(grids, j) && grids[i] == grids[j]
    ensures i == j
  {
  }

  lemma SetAgainAt(levels: map<nat, Level>, toIDs: map<Level, nat>, coeffs: map<nat, real>, grids: seq<Level>,
                   c: seq<real>, i: nat)
    requires AreTasks(levels, toIDs, coeffs, grids) && |c| == |grids| && i < |grids|
    ensures i in SetAgain(coeffs, toIDs, grids, c)
    ensures SetAgain(coeffs, toIDs, grids, c)[i] == if IsLast(grids, i) then c[i] else coeffs[i]
  {
    hide Stored;
    var ids := IDsOf(toIDs, grids);
    forall j: nat | j < |grids| && ids[j] == i
      ensures IsLast(grids, i) && j <= i
    {
      assert grids[j] in grids;
    }
    if IsLast(grids, i) {
      assert grids[i] in grids;
      LastIsUnique(grids, i, toIDs[grids[i]]);
      StoredLast(coeffs, ids, c, i);
    } else {
      StoredOther(coeffs, ids, c, i);
    }
  }

  /** What is set are the coefficients of the tasks of the grids. */
  lemma TasksAreRestored(levels: map<nat, Level>, toIDs: map<Level, nat>, coeffs: map<nat, real>, grids: seq<Level>,
                         c: seq<real>)
    requires AreTasks(levels, toIDs, coeffs, grids) && |c| == |grids|
    ensures AreTasks(levels, toIDs, SetAgain(coeffs, toIDs, grids, c), grids) && LevelsOf(levels, toIDs, grids) == grids
    ensures TaskCoefficients(SetAgain(coeffs, toIDs, grids, c), |grids|)
            == RestoredCoefficients(grids, TaskCoefficients(coeffs, |grids|), c)
  {
    hide SetAgain;
    forall i: nat | i < |grids|
      ensures i in SetAgain(coeffs, toIDs, grids, c) && grids[i] in grids
      ensures SetAgain(coeffs, toIDs, grids, c)[i] == if IsLast(grids, i) then c[i] else coeffs[i]
    {
      SetAgainAt(levels, toIDs, coeffs, grids, c, i);
    }
    forall i: nat
      ensures i in SetAgain(coeffs, toIDs, grids, c) <==> i < |grids|
    {
      IDsAreBelow(levels, toIDs, coeffs, grids, c, i);
    }
  }

  lemma IDsAreBelow(levels: map<nat, Level>, toIDs: map<Level, nat>, coeffs: map<nat, real>, grids: seq<Level>,
                    c: seq<real>, i: nat)
    requires AreTasks(levels, toIDs, coeffs, grids) && |c| == |grids|
    ensures i in SetAgain(coeffs, toIDs, grids, c) <==> i < |grids|
  {
    if i in IDsOf(toIDs, grids) {
      var j :| 0 <= j < |grids| && IDsOf(toIDs, grids)[j] == i;
      assert grids[j] in grids;
    }
  }

  lemma DistinctIsRestored(grids: seq<Level>, before: seq<real>, c: seq<real>)
    requires |grids| == |before| == |c| && Distinct(grids)
    ensures RestoredCoefficients(grids, before, c) == c
  {
  }

  /** Restoring twice, or without a recovery, changes nothing more. */
  lemma RestoredAgain(grids: seq<Level>, before: seq<real>, c: seq<real>)
    requires |grids| == |before| == |c|
    ensures RestoredCoefficients(grids, RestoredCoefficients(grids, before, c), c)
            == RestoredCoefficients(grids, before, c)
    ensures RestoredCoefficients(grids, c, c) == c
  {
  }

  /** Each subspace that lies in some level of the scheme is counted exactly once, and any other not at all. */
  ghost predicate CountsScheme(lmin: Level, lmax: Level, n: int, grids: seq<Level>, c: seq<real>) {
    |grids| == |c| && forall k :: |k| == |lmin| ==>
      TimesCounted(grids, c, k) == if exists l :: InScheme(lmin, lmax, n, l) && Leq(k, l) then 1.0 else 0.0
  }

  lemma AllGridsCount(lmin: Level, lmax: Level, n: int, levels: seq<Level>)
    requires IsInput(lmin, lmax, n) && ListsLevels(levels, lmax, n - LevelSum(lmin))
    ensures CountsScheme(lmin, lmax, n, AllGrids(lmin, lmax, n, levels), AllCoefficients(lmin, lmax, n, levels))
  {
    var list := Selected(lmin, n, levels);
    AdaptiveCounts(lmin, lmax, n, levels, KeptGrids(lmin, n, levels), KeptCoefficients(Elements(list), list));
    forall k | |k| == |lmin|
      ensures TimesCounted(AllGrids(lmin, lmax, n, levels), AllCoefficients(lmin, lmax, n, levels), k)
              == TimesCounted(KeptGrids(lmin, n, levels), KeptCoefficients(Elements(list), list), k)
    {
      ZeroGridsCountNothing(KeptGrids(lmin, n, levels), KeptCoefficients(Elements(list), list),
                            ExtraGrids(lmin, lmax, n, levels), k);
    }
  }

  lemma SortedIsDistinct(list: seq<Level>)
    requires Sorted(list)
    ensures Distinct(list)
  {
    SortedIsAscending(list);
    AscendingIsDistinct(list);
  }

  lemma {:induction false} KeptAreSorted(all: set<Level>, list: seq<Level>)
    requires Sorted(list)
    ensures Sorted(KeptSpaces(all, list)) && forall l :: l in KeptSpaces(all, list) ==> l in list
  {
    if list != [] {
      var front, last := list[..|list| - 1], list[|list| - 1];
      KeptAreSorted(all, front);
      LastIsMaximum(list);
      LastIsAbove(KeptSpaces(all, front), front, last);
    }
  }

  lemma LastIsAbove(part: seq<Level>, front: seq<Level>, last: Level)
    requires Sorted(front + [last]) && Sorted(part) && forall l :: l in part ==> l in front
    ensures Sorted(part + [last])
  {
    forall i | 0 <= i < |part|
      ensures LexLess(part[i], last)
    {
      assert part[i] in part;
      var j :| 0 <= j < |front| && front[j] == part[i];
      assert LexLess((front + [last])[j], (front + [last])[|front|]);
    }
  }

  lemma {:induction false} ExtraAreSorted(lmin: Level, e: nat, n: int, levels: seq<Level>)
    requires Sorted(levels)
    ensures Sorted(ExtraSpaces(lmin, e, n, levels)) && forall l :: l in ExtraSpaces(lmin, e, n, levels) ==> l in levels
  {
    if levels != [] {
      var front, last := levels[..|levels| - 1], levels[|levels| - 1];
      ExtraAreSorted(lmin, e, n, front);
      LastIsMaximum(levels);
      assert levels == front + [last];
      LastIsAbove(ExtraSpaces(lmin, e, n, front), front, last);
    }
  }

  lemma SelectedIsDistinct(lmin: Level, lmax: Level, n: int, levels: seq<Level>)
    requires ListsLevels(levels, lmax, n - LevelSum(lmin))
    ensures Distinct(Selected(lmin, n, levels))
  {
    SelectedIsSubsequence(lmin, n, levels);
    SortedIsDistinct(Selected(lmin, n, levels));
  }

  lemma PartsAreDistinct(lmin: Level, lmax: Level, n: int, levels: seq<Level>)
    requires IsInput(lmin, lmax, n) && ListsLevels(levels, lmax, n - LevelSum(lmin))
    ensures Distinct(KeptGrids(lmin, n, levels)) && Distinct(ExtraGrids(lmin, lmax, n, levels))
  {
    SelectedIsSubsequence(lmin, n, levels);
    KeptAreSorted(Elements(Selected(lmin, n, levels)), Selected(lmin, n, levels));
    ExtraAreSorted(lmin, EffectiveDim(lmin, lmax), n, levels);
    SortedIsDistinct(KeptGrids(lmin, n, levels));
    SortedIsDistinct(ExtraGrids(lmin, lmax, n, levels));
  }

  /** A position whose coefficient is not set again is one of a kept grid that is also an extra one. */
  lemma NotLastMeansRepeated(lmin: Level, lmax: Level, n: int, levels: seq<Level>, i: nat)
    requires IsInput(lmin, lmax, n) && ListsLevels(levels, lmax, n - LevelSum(lmin))
    requires i < |AllGrids(lmin, lmax, n, levels)|
    ensures !IsLast(AllGrids(lmin, lmax, n, levels), i)
            <==> i < |KeptGrids(lmin, n, levels)| && KeptGrids(lmin, n, levels)[i] in ExtraGrids(lmin, lmax, n, levels)
  {
    hide KeptGrids, ExtraGrids, IsMaximum, ListsLevels, LevelSum;
    var kept, extra := KeptGrids(lmin, n, levels), ExtraGrids(lmin, lmax, n, levels);
    PartsAreDistinct(lmin, lmax, n, levels);
    if i < |kept| && kept[i] in extra {
      var j :| 0 <= j < |extra| && extra[j] == kept[i];
      assert (kept + extra)[|kept| + j] == (kept + extra)[i];
    }
    if j :| i < j < |kept + extra| && (kept + extra)[j] == (kept + extra)[i] {
      assert j >= |kept| > i && extra[j - |kept|] == kept[i];
    }
  }

  /** No grid is there twice if and only if the diagonals do not meet. */
  lemma GridsAreDistinct(lmin: Level, lmax: Level, n: int, levels: seq<Level>)
    requires lmin != [] && IsInput(lmin, lmax, n) && ListsLevels(levels, lmax, n - LevelSum(lmin))
    ensures Distinct(AllGrids(lmin, lmax, n, levels)) <==> !DiagonalsMeet(lmin, lmax, n)
  {
    PartsAreDistinct(lmin, lmax, n, levels);
    JoinIsDistinct(KeptGrids(lmin, n, levels), ExtraGrids(lmin, lmax, n, levels));
    if lmin == lmax {
      NoShiftMeansAllDiffer(lmin, lmax, n);
    } else {
      GridsRepeat(lmin, lmax, n, levels);
    }
  }

  lemma JoinIsDistinct(a: seq<Level>, b: seq<Level>)
    requires Distinct(a) && Distinct(b)
    ensures Distinct(a + b) <==> forall l :: l in a ==> l !in b
  {
    if l :| l in a && l in b {
      var i :| 0 <= i < |a| && a[i] == l;
      var j :| 0 <= j < |b| && b[j] == l;
      assert (a + b)[i] == (a + b)[|a| + j];
    }
    if forall l :: l in a ==> l !in b {
      forall i, j | 0 <= i < j < |a + b|
        ensures (a + b)[i] != (a + b)[j]
      {
        if i < |a| <= j {
          assert a[i] in a && b[j - |a|] in b;
        }
      }
    }
  }
}
