/** The down set of the active grids of a scheme, as the fault recovery builds it. */
module FaultDownset {
  import opened FiniteSums
  import opened LevelSets
  import opened LevelGeneration
  import opened LevelDictionary
  import opened LevelOdometer

  function ValueIn(d: Dict, key: Level): real {
    if Find(d, key) < |d| then d[Find(d, key)].value else 0.0
  }

  function ActiveOf(d: Dict): Dict {
    if d == [] then []
    else
      var front, last := d[..|d| - 1], d[|d| - 1];
      if last.value > 0.0 then ActiveOf(front) + [last] else ActiveOf(front)
  }

  ghost predicate IsActive(d: Dict, e: Entry) {
    e in d && e.value > 0.0
  }

  lemma {:induction false} ActiveFacts(d: Dict, dim: nat)
    requires IsDict(d, dim)
    ensures IsDict(ActiveOf(d), dim)
    ensures forall e :: e in ActiveOf(d) <==> IsActive(d, e)
  {
    if d != [] {
      var front, last := d[..|d| - 1], d[|d| - 1];
      FrontIsDict(d, dim);
      ActiveFacts(front, dim);
      assert d == front + [last];
      if last.value > 0.0 {
        forall i | 0 <= i < |ActiveOf(front)|
          ensures LexLess(ActiveOf(front)[i].key, last.key)
        {
          assert ActiveOf(front)[i] in ActiveOf(front);
        }
        SnocIsDict(ActiveOf(front), last, dim);
      }
    }
  }

  lemma FrontIsDict(d: Dict, dim: nat)
    requires IsDict(d, dim) && d != []
    ensures IsDict(d[..|d| - 1], dim)
    ensures forall e :: e in d[..|d| - 1] ==> LexLess(e.key, d[|d| - 1].key)
  {
    var front := d[..|d| - 1];
    forall i, j | 0 <= i < j < |front|
      ensures LexLess(Keys(front)[i], Keys(front)[j])
    {
      assert LexLess(Keys(d)[i], Keys(d)[j]);
    }
    forall i | 0 <= i < |front|
      ensures LexLess(front[i].key, d[|d| - 1].key)
    {
      assert LexLess(Keys(d)[i], Keys(d)[|d| - 1]);
    }
  }

  lemma SnocIsDict(d: Dict, e: Entry, dim: nat)
    requires IsDict(d, dim) && |e.key| == dim && forall i :: 0 <= i < |d| ==> LexLess(d[i].key, e.key)
    ensures IsDict(d + [e], dim)
  {
    var keys := Keys(d + [e]);
    forall i, j | 0 <= i < j < |keys|
      ensures LexLess(keys[i], keys[j])
    {
      if j < |d| {
        assert LexLess(Keys(d)[i], Keys(d)[j]);
      }
    }
  }

  method SelectActive(received: Dict, dim: nat) returns (active: Dict)
    requires IsDict(received, dim)
    ensures active == ActiveOf(received)
  {
    active := [];
    for i := 0 to |received|
      invariant active == ActiveOf(received[..i])
    {
      var front := received[..i + 1];
      assert front[..i] == received[..i] && front[i] == received[i];
      PrefixIsDict(received, dim, i + 1);
      FrontIsDict(front, dim);
      ActiveFacts(received[..i], dim);
      if received[i].value > 0.0 {
        forall j | 0 <= j < |active|
          ensures LexLess(active[j].key, received[i].key)
        {
          assert active[j] in active && IsActive(received[..i], active[j]);
        }
        InsertLast(active, dim, received[i].key, received[i].value);
        active := Insert(active, received[i].key, received[i].value);
      }
    }
    assert received[..|received|] == received;
  }

  lemma PrefixIsDict(d: Dict, dim: nat, n: nat)
    requires IsDict(d, dim) && n <= |d|
    ensures IsDict(d[..n], dim)
  {
    forall i, j | 0 <= i < j < n
      ensures LexLess(Keys(d[..n])[i], Keys(d[..n])[j])
    {
      assert LexLess(Keys(d)[i], Keys(d)[j]);
    }
  }

  /** l lies below one of the listed grids. */
  ghost predicate BelowSome(active: Dict, l: Level) {
    exists e :: e in active && Leq(l, e.key)
  }

  method AddFeasible(top: Level, allLevels: seq<Level>, levelMin: Level, feasible: seq<Level>)
    returns (more: seq<Level>)
    ensures forall l :: l in more <==> l in feasible || (l in allLevels && Leq(l, top) && Leq(levelMin, l))
  {
    more := feasible;
    for i := 0 to |allLevels|
      invariant forall l :: l in more <==> l in feasible || (l in allLevels[..i] && Leq(l, top) && Leq(levelMin, l))
    {
      if Leq(allLevels[i], top) && Leq(levelMin, allLevels[i]) {
        more := more + [allLevels[i]];
      }
      assert allLevels[..i + 1] == allLevels[..i] + [allLevels[i]];
    }
    assert allLevels[..|allLevels|] == allLevels;
  }

  method FeasibleLevels(active: Dict, allLevels: seq<Level>, levelMin: Level) returns (feasible: seq<Level>)
    ensures forall l :: l in feasible <==> l in allLevels && Leq(levelMin, l) && BelowSome(active, l)
  {
    feasible := [];
    for i := 0 to |active|
      invariant forall l :: l in feasible <==> l in allLevels && Leq(levelMin, l) && BelowSome(active[..i], l)
    {
      assert active[..i + 1] == active[..i] + [active[i]];
      forall l
        ensures BelowSome(active[..i + 1], l) <==> BelowSome(active[..i], l) || Leq(l, active[i].key)
      {
        if Leq(l, active[i].key) {
          assert active[i] in active[..i + 1];
        }
      }
      feasible := AddFeasible(active[i].key, allLevels, levelMin, feasible);
    }
    assert active[..|active|] == active;
  }

  /** The levels of the down set: within the enumerated box, above the minimal level and below a grid
      with a positive coefficient. */
  ghost predicate InDownset(received: Dict, levelMin: Level, levelMax: Level, upper: int, l: Level) {
    IsIndex(l, |levelMin|, levelMax, upper) && Leq(levelMin, l) && exists e :: IsActive(received, e) && Leq(l, e.key)
  }

  /** Exactly the levels of the down set are keys, with their received coefficient or zero. */
  ghost predicate IsEntireDownset(output: Dict, received: Dict, levelMin: Level, levelMax: Level, upper: int) {
    && IsDict(output, |levelMin|)
    && forall e :: e in output <==>
         InDownset(received, levelMin, levelMax, upper, e.key) && e.value == ValueIn(received, e.key)
  }

  ghost predicate HoldsLevels(output: Dict, received: Dict, levels: seq<Level>, dim: nat) {
    && IsDict(output, dim)
    && forall e :: e in output <==> e.key in levels && e.value == ValueIn(received, e.key)
  }

  lemma InsertLevel(output: Dict, received: Dict, levels: seq<Level>, dim: nat, level: Level)
    requires HoldsLevels(output, received, levels, dim) && |level| == dim
    ensures HoldsLevels(Insert(output, level, ValueIn(received, level)), received, levels + [level], dim)
  {
    var value := ValueIn(received, level);
    InsertInOrder(output, dim, level, value);
    forall e
      ensures e in Insert(output, level, value) <==> e.key in levels + [level] && e.value == ValueIn(received, e.key)
    {
      InsertMembers(output, dim, level, value, e);
      if level in Keys(output) {
        var i :| 0 <= i < |output| && output[i].key == level;
        assert output[i] in output;
      }
      if level in levels {
        assert Entry(level, value) in output;
        var i :| 0 <= i < |output| && output[i] == Entry(level, value);
        assert Keys(output)[i] == level;
      }
    }
  }

  method InsertLevels(feasible: seq<Level>, received: Dict, dim: nat) returns (output: Dict)
    requires forall l :: l in feasible ==> |l| == dim
    ensures HoldsLevels(output, received, feasible, dim)
  {
    output := [];
    for i := 0 to |feasible|
      invariant HoldsLevels(output, received, feasible[..i], dim)
    {
      var level := feasible[i];
      InsertLevel(output, received, feasible[..i], dim, level);
      assert feasible[..i + 1] == feasible[..i] + [level];
      var at := Find(received, level);
      if at < |received| {
        output := Insert(output, level, received[at].value);
      } else {
        output := Insert(output, level, 0.0);
      }
    }
    assert feasible[..|feasible|] == feasible;
  }

  method SetEntireDownsetDict(levelMin: Level, levelMax: Level, received: Dict, dim: nat) returns (output: Dict)
    requires dim > 0 && |levelMin| == |levelMax| == dim && IsDict(received, dim)
    requires exists i :: 0 <= i < dim && levelMax[i] >= 1
    ensures IsEntireDownset(output, received, levelMin, levelMax, Greatest(levelMax))
  {
    var allLevels := Mindex(dim, levelMax);
    var active := SelectActive(received, dim);
    ActiveFacts(received, dim);
    var feasible := FeasibleLevels(active, allLevels, levelMin);
    output := InsertLevels(feasible, received, dim);
    forall l
      ensures BelowSome(active, l) <==> exists e :: IsActive(received, e) && Leq(l, e.key)
    {
      if BelowSome(active, l) {
        var e :| e in active && Leq(l, e.key);
        assert IsActive(received, e);
      }
    }
  }

  /** The keys are closed downwards above the minimal level. */
  lemma DownsetIsClosed(output: Dict, received: Dict, levelMin: Level, levelMax: Level, upper: int)
    requires IsEntireDownset(output, received, levelMin, levelMax, upper)
    requires forall i :: 0 <= i < |levelMin| ==> levelMin[i] >= 1
    ensures DownClosed(Elements(Keys(output)), levelMin)
  {
    var s := Elements(Keys(output));
    forall l
      ensures l in s <==> InDownset(received, levelMin, levelMax, upper, l)
    {
      if l in s {
        var i :| 0 <= i < |output| && output[i].key == l;
        assert output[i] in output;
      }
      if InDownset(received, levelMin, levelMax, upper, l) {
        var e := Entry(l, ValueIn(received, l));
        assert e in output;
        var i :| 0 <= i < |output| && output[i] == e;
        assert Keys(output)[i] == l;
      }
    }
    forall l, m | m in s && Leq(levelMin, l) && Leq(l, m)
      ensures l in s
    {
      LowerIsIndex(levelMin, levelMax, upper, l, m);
      var e :| IsActive(received, e) && Leq(m, e.key);
      LeqTransitive(l, m, e.key);
    }
  }

  lemma LowerIsIndex(levelMin: Level, levelMax: Level, upper: int, l: Level, m: Level)
    requires IsIndex(m, |levelMin|, levelMax, upper) && Leq(levelMin, l) && Leq(l, m)
    requires forall i :: 0 <= i < |levelMin| ==> levelMin[i] >= 1
    ensures IsIndex(l, |levelMin|, levelMax, upper)
  {
    SumIsMonotone(l, m);
    forall i | 0 <= i < |l|
      ensures 1 <= l[i] <= upper
    {
      assert levelMin[i] <= l[i] <= m[i];
    }
  }
}
