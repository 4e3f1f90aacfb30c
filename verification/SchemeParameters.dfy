/** What the process manager knows about the combination scheme: the level and the coefficient of every task, the task
    of every level, and the coefficient of every level. */
module SchemeParameters {
  import opened LevelSets
  import opened LevelGeneration
  import opened LevelDictionary
  import opened FaultDownset

  /** Entries stored one after the other; a later one replaces an earlier one with the same key. */
  function Stored<K(==,!new), V>(m: map<K, V>, keys: seq<K>, values: seq<V>): (r: map<K, V>)
    requires |keys| == |values|
    ensures forall x :: x in r <==> x in m || x in keys
  {
    if keys == [] then m
    else
      var n := |keys| - 1;
      assert keys == keys[..n] + [keys[n]];
      Stored(m, keys[..n], values[..n])[keys[n] := values[n]]
  }

  /** The last entry with its key. */
  predicate IsLast<K(==)>(keys: seq<K>, j: nat) {
    j < |keys| && forall i :: j < i < |keys| ==> keys[i] != keys[j]
  }

  lemma {:induction false} StoredLast<K(!new), V>(m: map<K, V>, keys: seq<K>, values: seq<V>, j: nat)
    requires |keys| == |values| && IsLast(keys, j)
    ensures keys[j] in Stored(m, keys, values) && Stored(m, keys, values)[keys[j]] == values[j]
  {
    var n := |keys| - 1;
    if j < n {
      assert keys[n] != keys[j];
      var front := keys[..n];
      assert front[j] == keys[j] && IsLast(front, j);
      StoredLast(m, front, values[..n], j);
    }
  }

  lemma {:induction false} StoredOther<K(!new), V>(m: map<K, V>, keys: seq<K>, values: seq<V>, x: K)
    requires |keys| == |values| && x in m && x !in keys
    ensures x in Stored(m, keys, values) && Stored(m, keys, values)[x] == m[x]
  {
    if keys != [] {
      var n := |keys| - 1;
      assert keys[n] in keys;
      StoredOther(m, keys[..n], values[..n], x);
    }
  }

  /** The last position of a grid in the list. */
  lemma {:induction false} LastPosition(grids: seq<Level>, i: nat) returns (j: nat)
    requires i < |grids|
    ensures i <= j < |grids| && IsLast(grids, j) && grids[j] == grids[i]
    decreases |grids| - i
  {
    if k :| i < k < |grids| && grids[k] == grids[i] {
      j := LastPosition(grids, k);
    } else {
      j := i;
    }
  }

  lemma StoreNothing<K(!new), V>(m: map<K, V>, keys: seq<K>, values: seq<V>)
    requires |keys| == |values|
    ensures Stored(m, keys[..0], values[..0]) == m
  {
  }

  lemma StoreNext<K(!new), V>(m: map<K, V>, keys: seq<K>, values: seq<V>, n: nat)
    requires n < |keys| == |values|
    ensures Stored(m, keys[..n + 1], values[..n + 1]) == Stored(m, keys[..n], values[..n])[keys[n] := values[n]]
  {
    assert keys[..n + 1][..n] == keys[..n] && values[..n + 1][..n] == values[..n];
  }

  /** Sets the value of a key, whether it is there already or not. */
  function Assign(d: Dict, key: Level, value: real): Dict {
    if Find(d, key) < |d| then d[Find(d, key) := Entry(key, value)] else Insert(d, key, value)
  }

  function AssignAll(d: Dict, keys: seq<Level>, values: seq<real>): Dict
    requires |keys| == |values|
  {
    if keys == [] then d
    else
      var n := |keys| - 1;
      Assign(AssignAll(d, keys[..n], values[..n]), keys[n], values[n])
  }

  lemma AssignNext(d: Dict, keys: seq<Level>, values: seq<real>, n: nat)
    requires n < |keys| == |values|
    ensures AssignAll(d, keys[..n + 1], values[..n + 1])
            == Assign(AssignAll(d, keys[..n], values[..n]), keys[n], values[n])
  {
    assert keys[..n + 1][..n] == keys[..n] && values[..n + 1][..n] == values[..n];
  }

  lemma ValueOfKey(d: Dict, dim: nat, i: nat)
    requires IsDict(d, dim) && i < |d|
    ensures ValueIn(d, d[i].key) == d[i].value
  {
    FindUnique(d, dim, i);
  }

  lemma ValueOfEntry(d: Dict, dim: nat, e: Entry)
    requires IsDict(d, dim) && e in d
    ensures ValueIn(d, e.key) == e.value
  {
    var i :| 0 <= i < |d| && d[i] == e;
    ValueOfKey(d, dim, i);
  }

  lemma EntryOfKey(d: Dict, key: Level)
    ensures key in Keys(d) <==> exists e :: e in d && e.key == key
    ensures key in Keys(d) <==> Find(d, key) < |d|
    ensures key in Keys(d) ==> Entry(key, ValueIn(d, key)) in d
  {
    if key in Keys(d) {
      var i :| 0 <= i < |d| && Keys(d)[i] == key;
      assert d[i] in d && d[i].key == key;
    }
    if e :| e in d && e.key == key {
      var i :| 0 <= i < |d| && d[i] == e;
      assert Keys(d)[i] == key;
    }
    if Find(d, key) < |d| {
      assert Keys(d)[Find(d, key)] == key;
    }
  }

  lemma ReplaceAt(d: Dict, dim: nat, key: Level, value: real, k: Level)
    requires IsDict(d, dim) && key in Keys(d)
    ensures IsDict(Assign(d, key, value), dim) && Keys(Assign(d, key, value)) == Keys(d)
    ensures ValueIn(Assign(d, key, value), k) == if k == key then value else ValueIn(d, k)
  {
    hide Insert, Sorted;
    var all := Assign(d, key, value);
    EntryOfKey(d, key);
    EntryOfKey(d, k);
    EntryOfKey(all, k);
    assert Keys(all) == Keys(d);
    if k in Keys(d) {
      ValueOfKey(all, dim, Find(d, k));
    }
  }

  lemma InsertAt(d: Dict, dim: nat, key: Level, value: real, k: Level)
    requires IsDict(d, dim) && key !in Keys(d) && |key| == dim
    ensures IsDict(Assign(d, key, value), dim)
    ensures k in Keys(Assign(d, key, value)) <==> k == key || k in Keys(d)
    ensures ValueIn(Assign(d, key, value), k) == if k == key then value else ValueIn(d, k)
  {
    hide IsDict, Insert, Keys;
    EntryOfKey(d, key);
    InsertInOrder(d, dim, key, value);
    var all := Insert(d, key, value);
    var e := Entry(k, if k == key then value else ValueIn(d, k));
    EntryOfKey(d, k);
    EntryOfKey(all, k);
    InsertMembers(d, dim, key, value, Entry(k, ValueIn(all, k)));
    InsertMembers(d, dim, key, value, e);
    if k == key || k in Keys(d) {
      ValueOfEntry(all, dim, e);
    }
  }

  /** Assigning a key changes nothing for the others. */
  lemma AssignAt(d: Dict, dim: nat, key: Level, value: real, k: Level)
    requires IsDict(d, dim) && |key| == dim
    ensures IsDict(Assign(d, key, value), dim)
    ensures k in Keys(Assign(d, key, value)) <==> k == key || k in Keys(d)
    ensures ValueIn(Assign(d, key, value), k) == if k == key then value else ValueIn(d, k)
  {
    hide *;
    if key in Keys(d) {
      ReplaceAt(d, dim, key, value, k);
    } else {
      InsertAt(d, dim, key, value, k);
    }
  }

  lemma {:induction false} AssignAllIsDict(d: Dict, dim: nat, keys: seq<Level>, values: seq<real>)
    requires IsDict(d, dim) && |keys| == |values| && forall l :: l in keys ==> |l| == dim
    ensures IsDict(AssignAll(d, keys, values), dim)
    ensures forall k :: k in Keys(AssignAll(d, keys, values)) <==> k in keys || k in Keys(d)
  {
    hide IsDict, Assign, Keys;
    if keys != [] {
      var n := |keys| - 1;
      var front := AssignAll(d, keys[..n], values[..n]);
      assert keys == keys[..n] + [keys[n]];
      AssignAllIsDict(d, dim, keys[..n], values[..n]);
      forall k
        ensures k in Keys(Assign(front, keys[n], values[n])) <==> k == keys[n] || k in Keys(front)
      {
        AssignAt(front, dim, keys[n], values[n], k);
      }
      AssignAt(front, dim, keys[n], values[n], keys[n]);
    }
  }

  /** Of several values for a key the last one is stored. */
  lemma {:induction false} AssignedLast(d: Dict, dim: nat, keys: seq<Level>, values: seq<real>, j: nat)
    requires IsDict(d, dim) && |keys| == |values| && (forall l :: l in keys ==> |l| == dim) && IsLast(keys, j)
    ensures ValueIn(AssignAll(d, keys, values), keys[j]) == values[j]
  {
    hide IsDict, Assign, Keys, ValueIn;
    var n := |keys| - 1;
    var front := keys[..n];
    assert keys == front + [keys[n]];
    AssignAllIsDict(d, dim, front, values[..n]);
    AssignAt(AssignAll(d, front, values[..n]), dim, keys[n], values[n], keys[j]);
    if j < n {
      assert front[j] == keys[j] && IsLast(front, j);
      AssignedLast(d, dim, front, values[..n], j);
    }
  }

  /** A dictionary is determined by its keys and values. */
  lemma SameDict(a: Dict, b: Dict, dim: nat)
    requires IsDict(a, dim) && IsDict(b, dim) && forall k :: k in Keys(a) <==> k in Keys(b)
    requires forall k :: k in Keys(a) ==> ValueIn(a, k) == ValueIn(b, k)
    ensures a == b
  {
    hide Sorted;
    SortedAreEqual(Keys(a), Keys(b));
    forall i | 0 <= i < |a|
      ensures a[i] == b[i]
    {
      assert a[i].key == Keys(a)[i] == Keys(b)[i] == b[i].key;
      ValueOfKey(a, dim, i);
      ValueOfKey(b, dim, i);
    }
  }

  lemma EmptyIsDict(dim: nat)
    ensures IsDict([], dim)
  {
  }

  /** What is stored for all keys does not depend on what was stored before. */
  lemma AssignAgain(d: Dict, dim: nat, keys: seq<Level>, values: seq<real>)
    requires IsDict(d, dim) && |keys| == |values| && (forall l :: l in keys ==> |l| == dim)
             && forall k :: k in Keys(d) ==> k in keys
    ensures AssignAll(d, keys, values) == AssignAll([], keys, values)
  {
    hide *;
    EmptyIsDict(dim);
    var a, b := AssignAll(d, keys, values), AssignAll([], keys, values);
    AssignAllIsDict(d, dim, keys, values);
    AssignAllIsDict([], dim, keys, values);
    forall k | k in Keys(a)
      ensures ValueIn(a, k) == ValueIn(b, k)
    {
      var i :| 0 <= i < |keys| && keys[i] == k;
      var j := LastPosition(keys, i);
      AssignedLast(d, dim, keys, values, j);
      AssignedLast([], dim, keys, values, j);
    }
    SameDict(a, b, dim);
  }

  /** Tasks 0, 1, 2 and so on stand for these grids; of several tasks for one grid the last is the task of its level. */
  ghost predicate AreTasks(levels: map<nat, Level>, toIDs: map<Level, nat>, coeffs: map<nat, real>, grids: seq<Level>) {
    && (forall i: nat :: i in levels <==> i < |grids|) && (forall i: nat :: i in coeffs <==> i < |grids|)
    && (forall i: nat {:trigger levels[i]} :: i < |grids| ==> levels[i] == grids[i])
    && forall l :: l in grids ==> l in toIDs && IsLast(grids, toIDs[l]) && grids[toIDs[l]] == l
  }

  function Naturals(n: nat): (ids: seq<nat>)
    ensures |ids| == n && (forall i :: 0 <= i < n ==> ids[i] == i) && forall i :: i in ids ==> i < n
  {
    seq(n, i => i)
  }

  lemma TaskOfLevel(toIDs: map<Level, nat>, grids: seq<Level>, l: Level)
    requires l in grids
    ensures l in Stored(toIDs, grids, Naturals(|grids|)) && IsLast(grids, Stored(toIDs, grids, Naturals(|grids|))[l])
    ensures grids[Stored(toIDs, grids, Naturals(|grids|))[l]] == l
  {
    hide Stored;
    var i :| 0 <= i < |grids| && grids[i] == l;
    var j := LastPosition(grids, i);
    StoredLast(toIDs, grids, Naturals(|grids|), j);
  }

  /** The coefficients of the first n tasks. */
  function TaskCoefficients(coeffs: map<nat, real>, n: nat): (c: seq<real>)
    requires forall i: nat :: i < n ==> i in coeffs
    ensures |c| == n
  {
    seq(n, i requires 0 <= i < n => coeffs[i])
  }

  /** Storing tasks 0, 1, 2 and so on with their grids, whatever was stored for them before. */
  lemma StoredAreTasks(levels: map<nat, Level>, toIDs: map<Level, nat>, coeffs: map<nat, real>, grids: seq<Level>,
                       c: seq<real>)
    requires |c| == |grids| && (forall i :: i in levels ==> i < |grids|) && (forall i :: i in coeffs ==> i < |grids|)
    ensures var ids := Naturals(|grids|);
            AreTasks(Stored(levels, ids, grids), Stored(toIDs, grids, ids), Stored(coeffs, ids, c), grids)
    ensures forall i: nat :: i < |grids| ==> Stored(coeffs, Naturals(|grids|), c)[i] == c[i]
  {
    hide Stored;
    var ids := Naturals(|grids|);
    forall i: nat | i < |grids|
      ensures i in Stored(levels, ids, grids) && i in Stored(coeffs, ids, c)
      ensures Stored(levels, ids, grids)[i] == grids[i] && Stored(coeffs, ids, c)[i] == c[i]
    {
      assert ids[i] == i;
      StoredLast(levels, ids, grids, i);
      StoredLast(coeffs, ids, c, i);
    }
    forall l | l in grids
      ensures var to := Stored(toIDs, grids, ids);
              l in to && IsLast(grids, to[l]) && grids[to[l]] == l
    {
      TaskOfLevel(toIDs, grids, l);
    }
    forall i: nat
      ensures i in Stored(levels, ids, grids) <==> i < |grids|
      ensures i in Stored(coeffs, ids, c) <==> i < |grids|
    {
      if i < |grids| {
        assert ids[i] == i;
      }
    }
  }

  class CombiParameters {
    var levels: map<nat, Level>
    var coeffs: map<nat, real>
    var levelsToIDs: map<Level, nat>
    var combiDictionary: Dict

    constructor ()
      ensures levels == map[] && coeffs == map[] && levelsToIDs == map[] && combiDictionary == []
    {
      levels, coeffs, levelsToIDs, combiDictionary := map[], map[], map[], [];
    }

    /** If several tasks have the same level, the last one becomes the task of that level.  Without tasks nothing
        happens. */
    method SetLevelsCoeffs(taskIDs: seq<nat>, newLevels: seq<Level>, newCoeffs: seq<real>)
      requires |newLevels| == |newCoeffs| && (taskIDs == [] || |taskIDs| == |newLevels|)
      modifies this
      ensures taskIDs == [] ==> coeffs == old(coeffs) && levels == old(levels)
      ensures taskIDs == [] ==> levelsToIDs == old(levelsToIDs) && combiDictionary == old(combiDictionary)
      ensures taskIDs != [] ==>
              coeffs == Stored(old(coeffs), taskIDs, newCoeffs) && levels == Stored(old(levels), taskIDs, newLevels)
      ensures taskIDs != [] ==> levelsToIDs == Stored(old(levelsToIDs), newLevels, taskIDs)
      ensures taskIDs != [] ==> combiDictionary == AssignAll(old(combiDictionary), newLevels, newCoeffs)
    {
      if taskIDs == [] {
        return;
      }
      hide Assign, Stored;
      StoreNothing(coeffs, taskIDs, newCoeffs);
      StoreNothing(levels, taskIDs, newLevels);
      StoreNothing(levelsToIDs, newLevels, taskIDs);
      for i := 0 to |taskIDs|
        invariant coeffs == Stored(old(coeffs), taskIDs[..i], newCoeffs[..i])
        invariant levels == Stored(old(levels), taskIDs[..i], newLevels[..i])
        invariant levelsToIDs == Stored(old(levelsToIDs), newLevels[..i], taskIDs[..i])
        invariant combiDictionary == AssignAll(old(combiDictionary), newLevels[..i], newCoeffs[..i])
      {
        StoreNext(old(coeffs), taskIDs, newCoeffs, i);
        StoreNext(old(levels), taskIDs, newLevels, i);
        StoreNext(old(levelsToIDs), newLevels, taskIDs, i);
        AssignNext(old(combiDictionary), newLevels, newCoeffs, i);
        coeffs := coeffs[taskIDs[i] := newCoeffs[i]];
        levels := levels[taskIDs[i] := newLevels[i]];
        levelsToIDs := levelsToIDs[newLevels[i] := taskIDs[i]];
        combiDictionary := Assign(combiDictionary, newLevels[i], newCoeffs[i]);
      }
      assert taskIDs[..|taskIDs|] == taskIDs && newLevels[..|taskIDs|] == newLevels
             && newCoeffs[..|taskIDs|] == newCoeffs;
    }

    method SetCoeff(taskID: nat, coeff: real)
      requires taskID in coeffs && taskID in levels
      modifies this`coeffs, this`combiDictionary
      ensures coeffs == old(coeffs)[taskID := coeff]
      ensures combiDictionary == Assign(old(combiDictionary), levels[taskID], coeff)
    {
      coeffs := coeffs[taskID := coeff];
      combiDictionary := Assign(combiDictionary, levels[taskID], coeff);
    }

    /** What is known are exactly these grids: their tasks and a dictionary of their coefficients. */
    ghost predicate Describes(grids: seq<Level>, dim: nat)
      reads this
    {
      AreTasks(levels, levelsToIDs, coeffs, grids) && IsDict(combiDictionary, dim)
      && forall k :: k in Keys(combiDictionary) <==> k in grids
    }

    /** Every listed level belongs to a task that has a coefficient. */
    ghost predicate Knows(list: seq<Level>)
      reads this
    {
      forall l :: l in list ==> l in levelsToIDs && levelsToIDs[l] in coeffs && levelsToIDs[l] in levels
    }
  }

  lemma {:induction false} CountOfNaturals(s: set<nat>, n: nat)
    requires forall i: nat :: i in s <==> i < n
    ensures |s| == n
    decreases n
  {
    if n > 0 {
      CountOfNaturals(s - {n - 1}, n - 1);
    } else {
      assert s == {};
    }
  }

  /** There are as many levels as tasks. */
  lemma CountOfTasks(levels: map<nat, Level>, toIDs: map<Level, nat>, coeffs: map<nat, real>, grids: seq<Level>)
    requires AreTasks(levels, toIDs, coeffs, grids)
    ensures |levels| == |grids|
  {
    CountOfNaturals(levels.Keys, |grids|);
  }

  /** The parameters of a scheme whose grids get tasks 0, 1, 2 and so on. */
  method CreateParameters(grids: seq<Level>, c: seq<real>, dim: nat) returns (params: CombiParameters)
    requires |grids| == |c| && forall l :: l in grids ==> |l| == dim
    ensures fresh(params) && params.Describes(grids, dim) && TaskCoefficients(params.coeffs, |grids|) == c
    ensures params.combiDictionary == AssignAll([], grids, c)
  {
    hide IsDict, AreTasks, Stored, Keys, IsLast;
    params := new CombiParameters();
    EmptyIsDict(dim);
    AssignAllIsDict([], dim, grids, c);
    StoredAreTasks(params.levels, params.levelsToIDs, params.coeffs, grids, c);
    params.SetLevelsCoeffs(Naturals(|grids|), grids, c);
  }

  /** The task of every listed level. */
  function IDsOf(levelsToIDs: map<Level, nat>, list: seq<Level>): (ids: seq<nat>)
    requires forall l :: l in list ==> l in levelsToIDs
    ensures |ids| == |list|
  {
    seq(|list|, i requires 0 <= i < |list| => levelsToIDs[list[i]])
  }
}
