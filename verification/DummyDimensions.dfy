/** Dimensions with equal minimal and maximal level.  The classical construction leaves them out and puts them back into
    every level afterwards. */
module DummyDimensions {
  import opened LevelSets
  import opened LevelGeneration
  import opened CombiScheme

  predicate IsDummy(lmin: Level, lmax: Level, i: nat)
    requires i < |lmin| == |lmax|
  {
    lmax[i] - lmin[i] == 0
  }

  /** The dummy dimensions in ascending order. */
  function Dummies(lmin: Level, lmax: Level): (d: seq<nat>)
    requires |lmin| == |lmax|
    ensures |d| + EffectiveDim(lmin, lmax) == |lmin| && forall i :: 0 <= i < |d| ==> d[i] < |lmin|
  {
    if lmin == [] then []
    else
      var n := |lmin| - 1;
      Dummies(lmin[..n], lmax[..n]) + if IsDummy(lmin, lmax, n) then [n] else []
  }

  /** The entries of the other dimensions. */
  function Rest(lmin: Level, lmax: Level, l: Level): (r: Level)
    requires |lmin| == |lmax| == |l|
    ensures |r| == EffectiveDim(lmin, lmax)
  {
    if l == [] then []
    else
      var n := |l| - 1;
      Rest(lmin[..n], lmax[..n], l[..n]) + if IsDummy(lmin, lmax, n) then [] else [l[n]]
  }

  /** The level with the entries of e in the other dimensions and those of fill, in order, in the dummy ones. */
  function Filled(lmin: Level, lmax: Level, e: Level, fill: Level): (l: Level)
    requires |lmin| == |lmax| && |e| == EffectiveDim(lmin, lmax) && |fill| == |Dummies(lmin, lmax)|
    ensures |l| == |lmin|
  {
    if lmin == [] then []
    else
      var n := |lmin| - 1;
      if IsDummy(lmin, lmax, n) then Filled(lmin[..n], lmax[..n], e, fill[..|fill| - 1]) + [fill[|fill| - 1]]
      else Filled(lmin[..n], lmax[..n], e[..|e| - 1], fill) + [e[|e| - 1]]
  }

  lemma LastDimension(lmin: Level, lmax: Level)
    requires |lmin| == |lmax| > 0
    ensures var n := |lmin| - 1;
            Dummies(lmin, lmax) == Dummies(lmin[..n], lmax[..n]) + (if IsDummy(lmin, lmax, n) then [n] else [])
            && EffectiveDim(lmin, lmax) == EffectiveDim(lmin[..n], lmax[..n]) + if IsDummy(lmin, lmax, n) then 0 else 1
  {
  }

  lemma LastOfRest(lmin: Level, lmax: Level, l: Level)
    requires |lmin| == |lmax| == |l| > 0
    ensures var n := |lmin| - 1;
            Rest(lmin, lmax, l) == Rest(lmin[..n], lmax[..n], l[..n]) + if IsDummy(lmin, lmax, n) then [] else [l[n]]
  {
  }

  lemma LastOfFilled(lmin: Level, lmax: Level, e: Level, fill: Level)
    requires |lmin| == |lmax| > 0 && |e| == EffectiveDim(lmin, lmax) && |fill| == |Dummies(lmin, lmax)|
    ensures var n := |lmin| - 1;
            Filled(lmin, lmax, e, fill)
            == if IsDummy(lmin, lmax, n) then Filled(lmin[..n], lmax[..n], e, fill[..|fill| - 1]) + [fill[|fill| - 1]]
               else Filled(lmin[..n], lmax[..n], e[..|e| - 1], fill) + [e[|e| - 1]]
  {
  }

  lemma JoinsTo(front: Level, x: int, l: Level)
    requires l != [] && front == l[..|l| - 1] && x == l[|l| - 1]
    ensures front + [x] == l
  {
  }

  lemma FrontOfLonger(l: Level, x: int)
    ensures (l + [x])[..|l|] == l && (l + [x])[|l|] == x
  {
  }

  lemma FrontOfFilled(lmin: Level, lmax: Level, e: Level, fill: Level)
    requires |lmin| == |lmax| > 0 && |e| == EffectiveDim(lmin, lmax) && |fill| == |Dummies(lmin, lmax)|
    ensures var n, l := |lmin| - 1, Filled(lmin, lmax, e, fill);
            if IsDummy(lmin, lmax, n) then l[..n] == Filled(lmin[..n], lmax[..n], e, fill[..|fill| - 1])
            else l[..n] == Filled(lmin[..n], lmax[..n], e[..|e| - 1], fill) && l[n] == e[|e| - 1]
  {
    hide Dummies, EffectiveDim, Filled;
    var n := |lmin| - 1;
    LastDimension(lmin, lmax);
    LastOfFilled(lmin, lmax, e, fill);
    if IsDummy(lmin, lmax, n) {
      FrontOfLonger(Filled(lmin[..n], lmax[..n], e, fill[..|fill| - 1]), fill[|fill| - 1]);
    } else {
      FrontOfLonger(Filled(lmin[..n], lmax[..n], e[..|e| - 1], fill), e[|e| - 1]);
    }
  }

  lemma {:induction false} RestOfFilled(lmin: Level, lmax: Level, e: Level, fill: Level)
    requires |lmin| == |lmax| && |e| == EffectiveDim(lmin, lmax) && |fill| == |Dummies(lmin, lmax)|
    ensures Rest(lmin, lmax, Filled(lmin, lmax, e, fill)) == e
  {
    hide Rest, Filled, Dummies, EffectiveDim;
    if lmin == [] {
      assert e == [];
    } else {
      var n, l := |lmin| - 1, Filled(lmin, lmax, e, fill);
      LastDimension(lmin, lmax);
      FrontOfFilled(lmin, lmax, e, fill);
      LastOfRest(lmin, lmax, l);
      if IsDummy(lmin, lmax, n) {
        RestOfFilled(lmin[..n], lmax[..n], e, fill[..|fill| - 1]);
      } else {
        RestOfFilled(lmin[..n], lmax[..n], e[..|e| - 1], fill);
        JoinsTo(Rest(lmin[..n], lmax[..n], l[..n]), l[n], e);
      }
    }
  }

  lemma {:induction false} DummiesAreFilled(lmin: Level, lmax: Level, e: Level, fill: Level, i: nat)
    requires |lmin| == |lmax| && |e| == EffectiveDim(lmin, lmax) && i < |fill| == |Dummies(lmin, lmax)|
    ensures Filled(lmin, lmax, e, fill)[Dummies(lmin, lmax)[i]] == fill[i]
  {
    hide Filled, Dummies, EffectiveDim;
    var n := |lmin| - 1;
    LastDimension(lmin, lmax);
    LastOfFilled(lmin, lmax, e, fill);
    if !IsDummy(lmin, lmax, n) {
      DummiesAreFilled(lmin[..n], lmax[..n], e[..|e| - 1], fill, i);
    } else if i < |fill| - 1 {
      DummiesAreFilled(lmin[..n], lmax[..n], e, fill[..|fill| - 1], i);
    }
  }

  lemma LeqOfLast(a: Level, b: Level)
    requires |a| == |b| > 0
    ensures var n := |a| - 1; Leq(a, b) <==> Leq(a[..n], b[..n]) && a[n] <= b[n]
  {
  }

  /** Every dummy entry of k is at most the one that is filled in. */
  ghost predicate DummiesBelow(lmin: Level, lmax: Level, k: Level, fill: Level)
    requires |lmin| == |lmax| == |k| && |fill| == |Dummies(lmin, lmax)|
  {
    forall i :: 0 <= i < |fill| ==> k[Dummies(lmin, lmax)[i]] <= fill[i]
  }

  lemma LastOfBelow(lmin: Level, lmax: Level, k: Level, fill: Level)
    requires |lmin| == |lmax| == |k| > 0 && |fill| == |Dummies(lmin, lmax)|
    ensures var n := |lmin| - 1;
            DummiesBelow(lmin, lmax, k, fill)
            <==> if IsDummy(lmin, lmax, n)
              then DummiesBelow(lmin[..n], lmax[..n], k[..n], fill[..|fill| - 1]) && k[n] <= fill[|fill| - 1]
                 else DummiesBelow(lmin[..n], lmax[..n], k[..n], fill)
  {
    hide Dummies, EffectiveDim;
    LastDimension(lmin, lmax);
    var n, d, f := |lmin| - 1, Dummies(lmin, lmax), Dummies(lmin[..|lmin| - 1], lmax[..|lmin| - 1]);
    assert forall i :: 0 <= i < |f| ==> d[i] == f[i] && k[..n][f[i]] == k[d[i]];
  }

  /** Comparing levels with dummy entries is comparing both parts. */
  lemma {:induction false} LeqOfFilled(lmin: Level, lmax: Level, k: Level, e: Level, fill: Level)
    requires |lmin| == |lmax| == |k| && |e| == EffectiveDim(lmin, lmax) && |fill| == |Dummies(lmin, lmax)|
    ensures Leq(k, Filled(lmin, lmax, e, fill)) <==> Leq(Rest(lmin, lmax, k), e) && DummiesBelow(lmin, lmax, k, fill)
  {
    if lmin != [] {
      hide Rest, Filled, Dummies, EffectiveDim, Leq, DummiesBelow;
      var n, l, r := |lmin| - 1, Filled(lmin, lmax, e, fill), Rest(lmin, lmax, k);
      LastDimension(lmin, lmax);
      LastOfFilled(lmin, lmax, e, fill);
      LastOfRest(lmin, lmax, k);
      LastOfBelow(lmin, lmax, k, fill);
      LeqOfLast(k, l);
      if IsDummy(lmin, lmax, n) {
        LeqOfFilled(lmin[..n], lmax[..n], k[..n], e, fill[..|fill| - 1]);
      } else {
        LeqOfFilled(lmin[..n], lmax[..n], k[..n], e[..|e| - 1], fill);
        LeqOfLast(r, e);
      }
    }
  }

  lemma {:induction false} SumOfFilled(lmin: Level, lmax: Level, e: Level, fill: Level)
    requires |lmin| == |lmax| && |e| == EffectiveDim(lmin, lmax) && |fill| == |Dummies(lmin, lmax)|
    ensures LevelSum(Filled(lmin, lmax, e, fill)) == LevelSum(e) + LevelSum(fill)
  {
    if lmin != [] {
      var n := |lmin| - 1;
      if IsDummy(lmin, lmax, n) {
        SumOfFilled(lmin[..n], lmax[..n], e, fill[..|fill| - 1]);
      } else {
        SumOfFilled(lmin[..n], lmax[..n], e[..|e| - 1], fill);
      }
    }
  }

  lemma EraseBetween(r: Level, x: int, t: Level)
    ensures (r + ([x] + t))[..|r|] + (r + ([x] + t))[|r| + 1..] == r + t
    ensures (r + [x]) + t == r + ([x] + t)
  {
  }

  lemma NothingLeftOut(lmin: Level, lmax: Level, l: Level)
    requires |lmin| == |lmax| == |l|
    ensures Dummies(lmin[..0], lmax[..0]) == [] && Rest(lmin[..0], lmax[..0], l[..0]) + l[0..] == l
    ensures lmin[..|l|] == lmin && lmax[..|l|] == lmax && l[..|l|] == l && l[|l|..] == []
  {
    assert Rest(lmin[..0], lmax[..0], l[..0]) == [];
  }

  /** The first i dimensions have been looked at. */
  ghost predicate IsErasedUpTo(lmin: Level, lmax: Level, l: Level, i: nat, now: Level)
    requires |lmin| == |lmax| == |l| && i <= |l|
  {
    now == Rest(lmin[..i], lmax[..i], l[..i]) + l[i..]
  }

  lemma DummiesOfNext(lmin: Level, lmax: Level, i: nat)
    requires |lmin| == |lmax| && i < |lmin|
    ensures Dummies(lmin[..i + 1], lmax[..i + 1]) == Dummies(lmin[..i], lmax[..i]) + if lmax[i] - lmin[i] == 0 then [i]
            else []
    ensures i - |Dummies(lmin[..i], lmax[..i])| == EffectiveDim(lmin[..i], lmax[..i])
  {
    hide Dummies, EffectiveDim;
    assert lmin[..i + 1][..i] == lmin[..i] && lmax[..i + 1][..i] == lmax[..i];
    LastDimension(lmin[..i + 1], lmax[..i + 1]);
  }

  lemma EraseNext(lmin: Level, lmax: Level, l: Level, i: nat, now: Level)
    requires |lmin| == |lmax| == |l| && i < |l| && IsErasedUpTo(lmin, lmax, l, i, now)
    ensures EffectiveDim(lmin[..i], lmax[..i]) < |now|
    ensures var at := EffectiveDim(lmin[..i], lmax[..i]);
            IsErasedUpTo(lmin, lmax, l, i + 1, if lmax[i] - lmin[i] == 0 then now[..at] + now[at + 1..] else now)
  {
    hide Rest, Dummies, EffectiveDim;
    RestOfNext(lmin, lmax, l, i);
    EraseBetween(Rest(lmin[..i], lmax[..i], l[..i]), l[i], l[i + 1..]);
  }

  /** Erases the dummy dimensions one after the other. */
  method RemoveDummyDims(lmin: Level, lmax: Level) returns (lmaxtmp: Level, lmintmp: Level, dummyDims: seq<nat>)
    requires |lmin| == |lmax|
    ensures lmaxtmp == Rest(lmin, lmax, lmax) && lmintmp == Rest(lmin, lmax, lmin) && dummyDims == Dummies(lmin, lmax)
  {
    hide Rest, Dummies, EffectiveDim;
    lmaxtmp, lmintmp, dummyDims := lmax, lmin, [];
    NothingLeftOut(lmin, lmax, lmax);
    NothingLeftOut(lmin, lmax, lmin);
    for i := 0 to |lmax|
      invariant dummyDims == Dummies(lmin[..i], lmax[..i])
      invariant IsErasedUpTo(lmin, lmax, lmax, i, lmaxtmp) && IsErasedUpTo(lmin, lmax, lmin, i, lmintmp)
    {
      DummiesOfNext(lmin, lmax, i);
      EraseNext(lmin, lmax, lmax, i, lmaxtmp);
      EraseNext(lmin, lmax, lmin, i, lmintmp);
      if lmax[i] - lmin[i] == 0 {
        var at := i - |dummyDims|;
        lmaxtmp := lmaxtmp[..at] + lmaxtmp[at + 1..];
        lmintmp := lmintmp[..at] + lmintmp[at + 1..];
        dummyDims := dummyDims + [i];
      }
    }
  }

  lemma RestOfNext(lmin: Level, lmax: Level, l: Level, i: nat)
    requires |lmin| == |lmax| == |l| && i < |l|
    ensures Rest(lmin[..i + 1], lmax[..i + 1], l[..i + 1])
            == Rest(lmin[..i], lmax[..i], l[..i]) + if lmax[i] - lmin[i] == 0 then [] else [l[i]]
    ensures l[i..] == [l[i]] + l[i + 1..]
  {
    hide Rest, Dummies, EffectiveDim;
    assert lmin[..i + 1][..i] == lmin[..i] && lmax[..i + 1][..i] == lmax[..i] && l[..i + 1][..i] == l[..i];
    LastOfRest(lmin[..i + 1], lmax[..i + 1], l[..i + 1]);
  }

  /** Inserts an entry at a position. */
  function InsertedAt(l: Level, at: nat, x: int): Level
    requires at <= |l|
  {
    l[..at] + [x] + l[at..]
  }

  /** The first n dummy entries are in. */
  function Reinserted(lmin: Level, lmax: Level, e: Level, fill: Level, n: nat): (l: Level)
    requires |lmin| == |lmax| && |e| == EffectiveDim(lmin, lmax) && n <= |fill| == |Dummies(lmin, lmax)|
    ensures |l| == |e| + n
  {
    if n == 0 then e
    else
      DummyPosition(lmin, lmax, n - 1);
      InsertedAt(Reinserted(lmin, lmax, e, fill, n - 1), Dummies(lmin, lmax)[n - 1], fill[n - 1])
  }

  /** Before the i-th dummy dimension there are i others and no more than all effective ones. */
  lemma {:induction false} DummyPosition(lmin: Level, lmax: Level, i: nat)
    requires |lmin| == |lmax| && i < |Dummies(lmin, lmax)|
    ensures Dummies(lmin, lmax)[i] <= EffectiveDim(lmin, lmax) + i
  {
    var n := |lmin| - 1;
    if i < |Dummies(lmin[..n], lmax[..n])| {
      DummyPosition(lmin[..n], lmax[..n], i);
    }
  }

  lemma NextInserted(lmin: Level, lmax: Level, e: Level, fill: Level, n: nat)
    requires |lmin| == |lmax| && |e| == EffectiveDim(lmin, lmax) && 0 < n <= |fill| == |Dummies(lmin, lmax)|
    ensures Dummies(lmin, lmax)[n - 1] <= EffectiveDim(lmin, lmax) + n - 1
    ensures Reinserted(lmin, lmax, e, fill, n)
            == InsertedAt(Reinserted(lmin, lmax, e, fill, n - 1), Dummies(lmin, lmax)[n - 1], fill[n - 1])
  {
    hide Dummies, EffectiveDim, InsertedAt;
    DummyPosition(lmin, lmax, n - 1);
  }

  lemma InsertBefore(l: Level, at: nat, x: int, y: int)
    requires at <= |l|
    ensures InsertedAt(l + [y], at, x) == InsertedAt(l, at, x) + [y]
  {
  }

  lemma NothingInserted(lmin: Level, lmax: Level, e: Level, fill: Level)
    requires |lmin| == |lmax| > 0 && |e| == EffectiveDim(lmin, lmax) && |fill| == |Dummies(lmin, lmax)|
    ensures var m := |lmin| - 1;
            Reinserted(lmin, lmax, e, fill, 0)
            == if IsDummy(lmin, lmax, m) then Reinserted(lmin[..m], lmax[..m], e, fill[..|fill| - 1], 0)
               else Reinserted(lmin[..m], lmax[..m], e[..|e| - 1], fill, 0) + [e[|e| - 1]]
  {
    hide Dummies, EffectiveDim;
    LastDimension(lmin, lmax);
  }

  /** Entries behind the dummy dimensions stay behind. */
  lemma {:induction false} ReinsertedFront(lmin: Level, lmax: Level, e: Level, fill: Level, n: nat)
    requires |lmin| == |lmax| > 0 && |e| == EffectiveDim(lmin, lmax) && |fill| == |Dummies(lmin, lmax)|
    requires n <= |Dummies(lmin[..|lmin| - 1], lmax[..|lmin| - 1])|
    ensures var m := |lmin| - 1;
            Reinserted(lmin, lmax, e, fill, n)
            == if IsDummy(lmin, lmax, m) then Reinserted(lmin[..m], lmax[..m], e, fill[..|fill| - 1], n)
               else Reinserted(lmin[..m], lmax[..m], e[..|e| - 1], fill, n) + [e[|e| - 1]]
  {
    hide Dummies, EffectiveDim, Reinserted, InsertedAt;
    var m := |lmin| - 1;
    LastDimension(lmin, lmax);
    if n == 0 {
      NothingInserted(lmin, lmax, e, fill);
    } else if IsDummy(lmin, lmax, m) {
      NextInserted(lmin, lmax, e, fill, n);
      NextInserted(lmin[..m], lmax[..m], e, fill[..|fill| - 1], n);
      ReinsertedFront(lmin, lmax, e, fill, n - 1);
    } else {
      var front := e[..|e| - 1];
      NextInserted(lmin, lmax, e, fill, n);
      NextInserted(lmin[..m], lmax[..m], front, fill, n);
      ReinsertedFront(lmin, lmax, e, fill, n - 1);
      InsertBefore(Reinserted(lmin[..m], lmax[..m], front, fill, n - 1), Dummies(lmin, lmax)[n - 1], fill[n - 1],
                   e[|e| - 1]);
    }
  }

  lemma NothingToInsert(lmin: Level, lmax: Level, e: Level, fill: Level)
    requires lmin == lmax == [] && |e| == EffectiveDim(lmin, lmax) && |fill| == |Dummies(lmin, lmax)|
    ensures Reinserted(lmin, lmax, e, fill, |fill|) == Filled(lmin, lmax, e, fill)
  {
  }

  lemma LastInserted(lmin: Level, lmax: Level, e: Level, fill: Level)
    requires |lmin| == |lmax| > 0 && |e| == EffectiveDim(lmin, lmax) && |fill| == |Dummies(lmin, lmax)|
             && IsDummy(lmin, lmax, |lmin| - 1)
    ensures Reinserted(lmin, lmax, e, fill, |fill|) == Reinserted(lmin, lmax, e, fill, |fill| - 1) + [fill[|fill| - 1]]
  {
    hide Dummies, EffectiveDim, Reinserted;
    LastDimension(lmin, lmax);
    NextInserted(lmin, lmax, e, fill, |fill|);
  }

  /** Inserting all dummy entries in turn puts each into its dimension. */
  lemma {:induction false} ReinsertedIsFilled(lmin: Level, lmax: Level, e: Level, fill: Level)
    requires |lmin| == |lmax| && |e| == EffectiveDim(lmin, lmax) && |fill| == |Dummies(lmin, lmax)|
    ensures Reinserted(lmin, lmax, e, fill, |fill|) == Filled(lmin, lmax, e, fill)
  {
    hide Filled, Dummies, EffectiveDim, Reinserted;
    if lmin == [] {
      NothingToInsert(lmin, lmax, e, fill);
    } else {
      var m := |lmin| - 1;
      LastDimension(lmin, lmax);
      LastOfFilled(lmin, lmax, e, fill);
      if IsDummy(lmin, lmax, m) {
        LastInserted(lmin, lmax, e, fill);
        ReinsertedFront(lmin, lmax, e, fill, |fill| - 1);
        ReinsertedIsFilled(lmin[..m], lmax[..m], e, fill[..|fill| - 1]);
      } else {
        ReinsertedFront(lmin, lmax, e, fill, |fill|);
        ReinsertedIsFilled(lmin[..m], lmax[..m], e[..|e| - 1], fill);
      }
    }
  }

  /** What the construction puts into the dummy dimensions: the first entries of the maximal level, not those of the
      dummy dimensions. */
  function Fill(lmin: Level, lmax: Level): (fill: Level)
    requires |lmin| == |lmax|
    ensures |fill| == |Dummies(lmin, lmax)|
  {
    lmax[..|Dummies(lmin, lmax)|]
  }

  /** Every dummy dimension has its own level again. */
  ghost predicate HasDummyLevels(lmin: Level, lmax: Level, l: Level)
    requires |lmin| == |lmax| == |l|
  {
    forall k :: 0 <= k < |l| && IsDummy(lmin, lmax, k) ==> l[k] == lmax[k]
  }

  lemma {:induction false} DummiesAre(lmin: Level, lmax: Level, k: nat)
    requires |lmin| == |lmax|
    ensures k in Dummies(lmin, lmax) <==> k < |lmin| && IsDummy(lmin, lmax, k)
  {
    if lmin != [] {
      var n := |lmin| - 1;
      DummiesAre(lmin[..n], lmax[..n], k);
    }
  }

  /** The first entries of the maximal level happen to be those of the dummy dimensions. */
  ghost predicate FillFits(lmin: Level, lmax: Level)
    requires |lmin| == |lmax|
  {
    forall i :: 0 <= i < |Dummies(lmin, lmax)| ==> lmax[i] == lmax[Dummies(lmin, lmax)[i]]
  }

  /** The dummy dimensions get their own levels if and only if the fill fits. */
  lemma FillIsRight(lmin: Level, lmax: Level, e: Level)
    requires |lmin| == |lmax| && |e| == EffectiveDim(lmin, lmax)
    ensures HasDummyLevels(lmin, lmax, Filled(lmin, lmax, e, Fill(lmin, lmax))) <==> FillFits(lmin, lmax)
  {
    var l, d := Filled(lmin, lmax, e, Fill(lmin, lmax)), Dummies(lmin, lmax);
    forall k: nat
      ensures k in d <==> k < |lmin| && IsDummy(lmin, lmax, k)
    {
      DummiesAre(lmin, lmax, k);
    }
    if HasDummyLevels(lmin, lmax, l) {
      forall i | 0 <= i < |d|
        ensures lmax[i] == lmax[d[i]]
      {
        assert d[i] in d;
        DummiesAreFilled(lmin, lmax, e, Fill(lmin, lmax), i);
      }
    }
    if FillFits(lmin, lmax) {
      forall k | 0 <= k < |l| && IsDummy(lmin, lmax, k)
        ensures l[k] == lmax[k]
      {
        assert k in d;
        var i :| 0 <= i < |d| && d[i] == k;
        DummiesAreFilled(lmin, lmax, e, Fill(lmin, lmax), i);
      }
    }
  }

  /** A level of the other dimensions as a level of all dimensions. */
  function Embedded(lmin: Level, lmax: Level, e: Level): (l: Level)
    requires |lmin| == |lmax|
  {
    if |e| == EffectiveDim(lmin, lmax) then Filled(lmin, lmax, e, Fill(lmin, lmax)) else e
  }

  function EmbeddedAll(lmin: Level, lmax: Level, list: seq<Level>): (all: seq<Level>)
    requires |lmin| == |lmax|
    ensures |all| == |list|
  {
    seq(|list|, i requires 0 <= i < |list| => Embedded(lmin, lmax, list[i]))
  }

  ghost predicate AllEffective(lmin: Level, lmax: Level, list: seq<Level>)
    requires |lmin| == |lmax|
  {
    forall i {:trigger list[i]} :: 0 <= i < |list| ==> |list[i]| == EffectiveDim(lmin, lmax)
  }

  lemma EmbeddedOrder(lmin: Level, lmax: Level, a: Level, b: Level)
    requires |lmin| == |lmax| && |a| == |b| == EffectiveDim(lmin, lmax)
    ensures Leq(Embedded(lmin, lmax, a), Embedded(lmin, lmax, b)) <==> Leq(a, b)
    ensures LevelSum(Embedded(lmin, lmax, a)) == LevelSum(a) + LevelSum(Fill(lmin, lmax))
  {
    hide Leq, Filled, Rest, Dummies, Fill;
    var fill := Fill(lmin, lmax);
    var k := Filled(lmin, lmax, a, fill);
    LeqOfFilled(lmin, lmax, k, b, fill);
    RestOfFilled(lmin, lmax, a, fill);
    forall i | 0 <= i < |fill|
      ensures k[Dummies(lmin, lmax)[i]] <= fill[i]
    {
      DummiesAreFilled(lmin, lmax, a, fill, i);
    }
    SumOfFilled(lmin, lmax, a, fill);
  }

  /** Two levels with the same entries in the dummy dimensions and in the others are the same. */
  lemma {:induction false} SameParts(lmin: Level, lmax: Level, a: Level, b: Level)
    requires |lmin| == |lmax| == |a| == |b| && Rest(lmin, lmax, a) == Rest(lmin, lmax, b)
    requires forall i :: 0 <= i < |Dummies(lmin, lmax)| ==> a[Dummies(lmin, lmax)[i]] == b[Dummies(lmin, lmax)[i]]
    ensures a == b
  {
    hide Rest, Dummies, EffectiveDim;
    if a != [] {
      var n := |a| - 1;
      LastDimension(lmin, lmax);
      LastOfRest(lmin, lmax, a);
      LastOfRest(lmin, lmax, b);
      var d, f := Dummies(lmin, lmax), Dummies(lmin[..n], lmax[..n]);
      assert forall i :: 0 <= i < |f| ==> d[i] == f[i];
      if IsDummy(lmin, lmax, n) {
        assert d[|f|] == n;
        assert Rest(lmin, lmax, a) == Rest(lmin[..n], lmax[..n], a[..n])
               && Rest(lmin, lmax, b) == Rest(lmin[..n], lmax[..n], b[..n]);
      } else {
        SameEnds(Rest(lmin[..n], lmax[..n], a[..n]), a[n], Rest(lmin[..n], lmax[..n], b[..n]), b[n]);
      }
      SameParts(lmin[..n], lmax[..n], a[..n], b[..n]);
      JoinsTo(b[..n], b[n], a);
    }
  }

  lemma SameEnds(a: Level, x: int, b: Level, y: int)
    requires a + [x] == b + [y]
    ensures a == b && x == y
  {
    FrontOfLonger(a, x);
    FrontOfLonger(b, y);
    assert |a| == |b|;
  }

  lemma {:induction false} RestOfUpdate(lmin: Level, lmax: Level, l: Level, i: nat, x: int)
    requires |lmin| == |lmax| == |l| && i < |Dummies(lmin, lmax)|
    ensures Rest(lmin, lmax, l[Dummies(lmin, lmax)[i] := x]) == Rest(lmin, lmax, l)
  {
    hide Rest, Dummies, EffectiveDim;
    var n, d := |l| - 1, Dummies(lmin, lmax);
    LastDimension(lmin, lmax);
    var f, u := Dummies(lmin[..n], lmax[..n]), l[d[i] := x];
    LastOfRest(lmin, lmax, l);
    LastOfRest(lmin, lmax, u);
    if i < |f| {
      assert d[i] == f[i] && u[..n] == l[..n][f[i] := x];
      RestOfUpdate(lmin[..n], lmax[..n], l[..n], i, x);
    } else {
      assert u[..n] == l[..n];
    }
  }

  lemma {:induction false} DummiesAscend(lmin: Level, lmax: Level, i: nat, j: nat)
    requires |lmin| == |lmax| && i < j < |Dummies(lmin, lmax)|
    ensures Dummies(lmin, lmax)[i] < Dummies(lmin, lmax)[j]
  {
    var n := |lmin| - 1;
    if j < |Dummies(lmin[..n], lmax[..n])| {
      DummiesAscend(lmin[..n], lmax[..n], i, j);
    }
  }

  lemma {:induction false} RestOfLowered(lmin: Level, lmax: Level, l: Level, c: int)
    requires |lmin| == |lmax| == |l|
    ensures Rest(lmin, lmax, Lowered(l, c)) == Lowered(Rest(lmin, lmax, l), c)
  {
    hide Rest, Dummies, EffectiveDim;
    if l == [] {
      NothingLeftOut(lmin, lmax, l);
      assert Rest(lmin, lmax, l) == [];
      assert Lowered(l, c) == l;
    } else {
      var n := |l| - 1;
      LastDimension(lmin, lmax);
      LastOfRest(lmin, lmax, l);
      LastOfRest(lmin, lmax, Lowered(l, c));
      assert Lowered(l, c)[..n] == Lowered(l[..n], c);
      RestOfLowered(lmin[..n], lmax[..n], l[..n], c);
    }
  }

  /** Every level with its first n dummy entries. */
  function ReinsertedAll(lmin: Level, lmax: Level, list: seq<Level>, n: nat): (all: seq<Level>)
    requires |lmin| == |lmax| && n <= |Dummies(lmin, lmax)|
    ensures |all| == |list|
  {
    seq(|list|, i requires 0 <= i < |list| =>
      if |list[i]| == EffectiveDim(lmin, lmax) then Reinserted(lmin, lmax, list[i], Fill(lmin, lmax), n) else list[i])
  }

  lemma AllAreReinserted(lmin: Level, lmax: Level, list: seq<Level>)
    requires |lmin| == |lmax| && AllEffective(lmin, lmax, list)
    ensures ReinsertedAll(lmin, lmax, list, 0) == list
    ensures ReinsertedAll(lmin, lmax, list, |Dummies(lmin, lmax)|) == EmbeddedAll(lmin, lmax, list)
  {
    hide Filled, Dummies, EffectiveDim;
    forall i | 0 <= i < |list|
      ensures Reinserted(lmin, lmax, list[i], Fill(lmin, lmax), |Dummies(lmin, lmax)|) == Embedded(lmin, lmax, list[i])
    {
      ReinsertedIsFilled(lmin, lmax, list[i], Fill(lmin, lmax));
    }
  }

  /** Puts the dummy dimensions back into every level and into the minimal level. */
  method InsertDummyDims(given: Level, lmax: Level, lmin: Level, list: seq<Level>, dummyDims: seq<nat>)
    returns (levels: seq<Level>, low: Level)
    requires |given| == |lmax| == |lmin| && dummyDims == Dummies(given, lmax) && AllEffective(given, lmax, list)
    ensures levels == EmbeddedAll(given, lmax, list) && low == Embedded(given, lmax, Rest(given, lmax, lmin))
  {
    hide Dummies, EffectiveDim, Rest, Reinserted;
    levels, low := list, lmin;
    AllAreReinserted(given, lmax, list);
    for i := 0 to |dummyDims|
      invariant levels == ReinsertedAll(given, lmax, list, i)
      invariant |low| == |lmax| && Rest(given, lmax, low) == Rest(given, lmax, lmin)
                && forall j :: 0 <= j < i ==> low[dummyDims[j]] == lmax[j]
    {
      levels := InsertDim(given, lmax, list, levels, i, dummyDims[i]);
      RestOfUpdate(given, lmax, low, i, lmax[i]);
      forall j | 0 <= j < i
        ensures dummyDims[j] < dummyDims[i]
      {
        DummiesAscend(given, lmax, j, i);
      }
      low := low[dummyDims[i] := lmax[i]];
    }
    LowIsEmbedded(given, lmax, lmin, low);
  }

  lemma LowIsEmbedded(given: Level, lmax: Level, lmin: Level, low: Level)
    requires |given| == |lmax| == |lmin| == |low| && Rest(given, lmax, low) == Rest(given, lmax, lmin)
    requires forall j :: 0 <= j < |Dummies(given, lmax)| ==> low[Dummies(given, lmax)[j]] == lmax[j]
    ensures low == Embedded(given, lmax, Rest(given, lmax, lmin))
  {
    hide Dummies, EffectiveDim, Rest, Filled;
    var e, fill := Rest(given, lmax, lmin), Fill(given, lmax);
    RestOfFilled(given, lmax, e, fill);
    forall i | 0 <= i < |fill|
      ensures Filled(given, lmax, e, fill)[Dummies(given, lmax)[i]] == fill[i]
    {
      DummiesAreFilled(given, lmax, e, fill, i);
    }
    SameParts(given, lmax, low, Filled(given, lmax, e, fill));
  }

  /** Puts one dummy dimension back into every level. */
  method InsertDim(given: Level, lmax: Level, ghost list: seq<Level>, now: seq<Level>, i: nat, at: nat)
    returns (levels: seq<Level>)
    requires |given| == |lmax| && i < |Dummies(given, lmax)| && at == Dummies(given, lmax)[i]
             && AllEffective(given, lmax, list)
    requires now == ReinsertedAll(given, lmax, list, i)
    ensures levels == ReinsertedAll(given, lmax, list, i + 1)
  {
    hide Dummies, EffectiveDim, Reinserted;
    levels := now;
    for j := 0 to |levels|
      invariant |levels| == |now| && forall k :: j <= k < |now| ==> levels[k] == now[k]
      invariant forall k :: 0 <= k < j ==> levels[k] == ReinsertedAll(given, lmax, list, i + 1)[k]
    {
      NextInserted(given, lmax, list[j], Fill(given, lmax), i + 1);
      levels := levels[j := InsertedAt(levels[j], at, lmax[i])];
    }
  }

  lemma {:induction false} EqualMeansDummies(lmin: Level, lmax: Level)
    requires |lmin| == |lmax|
    ensures EffectiveDim(lmin, lmax) == 0 <==> lmin == lmax
  {
    hide EffectiveDim;
    if lmin == [] {
      assert lmax == [];
      LastDimensionOfNone(lmin, lmax);
    } else {
      var n := |lmin| - 1;
      LastDimension(lmin, lmax);
      EqualMeansDummies(lmin[..n], lmax[..n]);
      assert lmin == lmax <==> lmin[..n] == lmax[..n] && lmin[n] == lmax[n] by {
        if lmin[..n] == lmax[..n] && lmin[n] == lmax[n] {
          JoinsTo(lmin[..n], lmin[n], lmax);
          JoinsTo(lmin[..n], lmin[n], lmin);
        }
      }
    }
  }

  lemma LastDimensionOfNone(lmin: Level, lmax: Level)
    requires lmin == lmax == []
    ensures EffectiveDim(lmin, lmax) == 0
  {
  }

  lemma {:induction false} RestIsMonotone(lmin: Level, lmax: Level, a: Level, b: Level)
    requires |lmin| == |lmax| == |a| && Leq(a, b)
    ensures Leq(Rest(lmin, lmax, a), Rest(lmin, lmax, b))
  {
    if a != [] {
      var n := |a| - 1;
      RestIsMonotone(lmin[..n], lmax[..n], a[..n], b[..n]);
    }
  }

  lemma {:induction false} RestIsPositive(lmin: Level, lmax: Level, l: Level)
    requires |lmin| == |lmax| == |l| && forall i :: 0 <= i < |l| ==> l[i] > 0
    ensures forall i :: 0 <= i < EffectiveDim(lmin, lmax) ==> Rest(lmin, lmax, l)[i] > 0
  {
    if l != [] {
      var n := |l| - 1;
      RestIsPositive(lmin[..n], lmax[..n], l[..n]);
    }
  }

  /** If no dimension is a dummy, nothing is left out and nothing is filled in. */
  lemma {:induction false} NoDummies(lmin: Level, lmax: Level, l: Level)
    requires |lmin| == |lmax| && forall i :: 0 <= i < |lmin| ==> lmin[i] != lmax[i]
    ensures Dummies(lmin, lmax) == [] && EffectiveDim(lmin, lmax) == |lmin| && LevelSum(Fill(lmin, lmax)) == 0
    ensures |l| == |lmin| ==> Rest(lmin, lmax, l) == l && Embedded(lmin, lmax, l) == l
  {
    if lmin != [] {
      var n := |lmin| - 1;
      LastDimension(lmin, lmax);
      if |l| == |lmin| {
        NoDummies(lmin[..n], lmax[..n], l[..n]);
        LastOfRest(lmin, lmax, l);
        JoinsTo(l[..n], l[n], l);
        assert Fill(lmin, lmax) == Fill(lmin[..n], lmax[..n]) == [];
        LastOfFilled(lmin, lmax, l, []);
      } else {
        NoDummies(lmin[..n], lmax[..n], []);
      }
    }
  }
}
