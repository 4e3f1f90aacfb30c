/** Hierarchization and dehierarchization of a pole without boundary points on one rank.  Hierarchization
    updates the local points only; dehierarchization updates all points, also those it knows nothing about. */
module NoBoundaryKernels {
  import opened Dyadic
  import opened Poles
  import opened SuccessorSearch
  import opened Lifting
  import opened Bases
  import opened Kernels
  import opened NoBoundary

  predicate IsInner(p: Pole) {
    p.Valid() && p.boundary == 0 && p.lmax > 0
  }

  lemma LevelOfPoint(p: Pole, x: int, l: int)
    requires IsInner(p) && p.InGrid(x) && 0 < l <= p.lmax
    ensures p.Level(x) == l <==> OddMult(p.lmax - l, x + 1)
    ensures 0 < p.Level(x) <= p.lmax
  {
    p.ExponentFacts(x);
    CtzIsOddMult(x + 1, p.lmax - l);
    PredecessorsInside(p.lmax, x + 1);
  }

  /** The first local point of level l, or -1. */
  method GetFirstIndexOfLevel1d(p: Pole, me: nat, l: int) returns (first: int)
    requires p.Valid() && me < |p.cuts|
    ensures first >= 0 ==> p.Owns(me, first) && p.Level(first) == l
    ensures first >= 0 || first == -1
    ensures forall x :: p.Owns(me, x) && (first < 0 || x < first) ==> p.Level(x) != l
  {
    var i := p.First(me);
    while i <= p.Last(me)
      invariant p.First(me) <= i
      invariant forall x :: p.Owns(me, x) && x < i ==> p.Level(x) != l
      decreases p.Last(me) - i
    {
      if p.Level(i) == l {
        OwnershipIsExclusive(p, me, me, i);
        return i;
      }
      i := i + 1;
    }
    return -1;
  }

  /** The local points of levels above l, and those of level l before idx, have become surpluses. */
  ghost predicate LocalSurpluses(p: Pole, me: nat, u: seq<real>, now: seq<real>, l: int, idx: int)
    requires IsInner(p) && IsInnerPole(p.lmax, u) && |now| == |u|
  {
    forall x {:trigger now[x]} :: 0 <= x < |now| ==>
      now[x] == if p.Owns(me, x) && (p.Level(x) > l || (p.Level(x) == l && x < idx))
        then Surplus(p.lmax, Bordered(u), x + 1) else u[x]
  }

  lemma CoarserIsUnchanged(p: Pole, me: nat, u: seq<real>, now: seq<real>, l: int, idx: int, y: int)
    requires IsInner(p) && IsInnerPole(p.lmax, u) && |now| == |u| && 0 < l <= p.lmax && 0 <= idx < |u|
    requires p.Level(idx) == l && LocalSurpluses(p, me, u, now, l, idx)
    requires (y == idx - Pow2(p.lmax - l) || y == idx + Pow2(p.lmax - l)) && 0 <= y < |u|
    ensures now[y] == u[y]
  {
    LevelOfPoint(p, idx, l);
    CoarserNeighbours(p.lmax, p.lmax - l, idx + 1);
    assert y + 1 == idx + 1 - Pow2(p.lmax - l) || y + 1 == idx + 1 + Pow2(p.lmax - l);
    assert p.Level(y) < l;
  }

  lemma SurplusHere(p: Pole, me: nat, u: seq<real>, now: seq<real>, l: int, idx: int, parentOffset: int)
    requires IsInner(p) && IsInnerPole(p.lmax, u) && |now| == |u| && 0 < l <= p.lmax && 0 <= idx < |u|
    requires p.Level(idx) == l && parentOffset == Pow2(p.lmax - l) && LocalSurpluses(p, me, u, now, l, idx)
    ensures (-0.5 * LeftValue(now, idx, parentOffset)) + (now[idx] - 0.5 * RightValue(now, idx, parentOffset))
            == Surplus(p.lmax, Bordered(u), idx + 1)
  {
    LevelOfPoint(p, idx, l);
    if idx - parentOffset > 0 {
      CoarserIsUnchanged(p, me, u, now, l, idx, idx - parentOffset);
    }
    if idx + parentOffset < |u| {
      CoarserIsUnchanged(p, me, u, now, l, idx, idx + parentOffset);
    }
    assert LeftValue(now, idx, parentOffset) == LeftValue(u, idx, parentOffset);
    assert RightValue(now, idx, parentOffset) == RightValue(u, idx, parentOffset);
    SurplusFromParents(p.lmax, p.lmax - l, u, idx);
  }

  lemma SurplusFromParents(lmax: nat, k: nat, u: seq<real>, idx: int)
    requires IsInnerPole(lmax, u) && k < lmax && 0 <= idx < |u| && OddMult(k, idx + 1)
    ensures u[idx] + Half(true, LeftValue(u, idx, Pow2(k))) + Half(true, RightValue(u, idx, Pow2(k)))
            == Surplus(lmax, Bordered(u), idx + 1)
  {
    hide OddMult, LeftValue, Pow2, RightValue, Surplus;
    FirstIsNoPredecessor(lmax, k, u, idx);
    CtzIsOddMult(idx + 1, k);
    SurplusAt(lmax, k, Bordered(u), idx + 1);
  }

  lemma SurplusAt(lmax: nat, k: nat, b: seq<real>, x: int)
    requires |b| == Pow2(lmax) + 1 && 0 < x < Pow2(lmax) && Ctz(x) == k && 0 <= x - Pow2(k) && x + Pow2(k) <= Pow2(lmax)
    ensures Surplus(lmax, b, x) == b[x] + Half(true, b[x - Pow2(k)]) + Half(true, b[x + Pow2(k)])
  {
  }

  lemma NextOfLevel(p: Pole, l: int, idx: int, parentOffset: int, x: int)
    requires IsInner(p) && 0 < l <= p.lmax && p.InGrid(idx) && p.Level(idx) == l && parentOffset == Pow2(p.lmax - l)
    requires p.InGrid(x)
    ensures idx < x < idx + 2 * parentOffset ==> p.Level(x) != l
    ensures x == idx + 2 * parentOffset ==> p.Level(x) == l
  {
    LevelOfPoint(p, idx, l);
    LevelOfPoint(p, x, l);
    if idx < x < idx + 2 * parentOffset {
      OddSpacing(p.lmax - l, idx + 1, x + 1);
    }
    OddNext(p.lmax - l, idx + 1);
  }

  lemma SurplusesAdvance(p: Pole, me: nat, u: seq<real>, now: seq<real>, l: int, idx: int, parentOffset: int)
    requires IsInner(p) && IsInnerPole(p.lmax, u) && |now| == |u| && 0 < l <= p.lmax && p.Owns(me, idx)
             && 0 <= idx < |u|
    requires p.Level(idx) == l && parentOffset == Pow2(p.lmax - l) && LocalSurpluses(p, me, u, now, l, idx)
    ensures LocalSurpluses(p, me, u, now[idx := Surplus(p.lmax, Bordered(u), idx + 1)], l, idx + 2 * parentOffset)
  {
    forall x | 0 <= x < |now| && idx < x < idx + 2 * parentOffset
      ensures p.Level(x) != l
    {
      NextOfLevel(p, l, idx, parentOffset, x);
    }
  }

  lemma LevelDone(p: Pole, me: nat, u: seq<real>, now: seq<real>, l: int, idx: int)
    requires IsInner(p) && IsInnerPole(p.lmax, u) && |now| == |u|
    requires LocalSurpluses(p, me, u, now, l, idx) && forall x :: p.Owns(me, x) && x >= idx ==> p.Level(x) != l
    ensures LocalSurpluses(p, me, u, now, l - 1, 0)
  {
  }

  method UpdatePoint(tmp: array<real>, idx: int, parentOffset: int)
    requires 0 <= idx < tmp.Length && parentOffset > 0
    modifies tmp
    ensures tmp[..] == old(tmp[..])[idx := (-0.5 * LeftValue(old(tmp[..]), idx, parentOffset))
                                           + (old(tmp[idx]) - 0.5 * RightValue(old(tmp[..]), idx, parentOffset))]
  {
    var left, right := 0.0, 0.0;
    if idx - parentOffset > 0 {
      left := tmp[idx - parentOffset];
    }
    if idx + parentOffset < tmp.Length {
      right := tmp[idx + parentOffset];
    }
    var buf := -0.5 * left;
    tmp[idx] := tmp[idx] - 0.5 * right;
    tmp[idx] := tmp[idx] + buf;
  }

  method HierarchizeLevel(p: Pole, me: nat, tmp: array<real>, l: int, ghost u: seq<real>)
    requires IsInner(p) && me < |p.cuts| && IsInnerPole(p.lmax, u) && tmp.Length == |u| && 0 < l <= p.lmax
    requires LocalSurpluses(p, me, u, tmp[..], l, 0)
    modifies tmp
    ensures LocalSurpluses(p, me, u, tmp[..], l - 1, 0)
  {
    var firstOfLevel := GetFirstIndexOfLevel1d(p, me, l);
    var parentOffset := Pow2(p.lmax - l);
    if firstOfLevel > -1 {
      var idx := firstOfLevel;
      ghost var now := tmp[..];
      while idx <= p.Last(me)
        invariant p.First(me) <= idx && (p.InGrid(idx) ==> p.Level(idx) == l)
        invariant tmp[..] == now && LocalSurpluses(p, me, u, now, l, idx)
        decreases p.Last(me) - idx
      {
        OwnershipIsExclusive(p, me, me, idx);
        SurplusHere(p, me, u, now, l, idx, parentOffset);
        SurplusesAdvance(p, me, u, now, l, idx, parentOffset);
        UpdatePoint(tmp, idx, parentOffset);
        now := now[idx := Surplus(p.lmax, Bordered(u), idx + 1)];
        if p.InGrid(idx + 2 * parentOffset) {
          NextOfLevel(p, l, idx, parentOffset, idx + 2 * parentOffset);
        }
        idx := idx + 2 * parentOffset;
      }
      LevelDone(p, me, u, tmp[..], l, idx);
    } else {
      LevelDone(p, me, u, tmp[..], l, 0);
    }
  }

  /** Hierarchizes the local points of a pole in place. */
  method HierarchizeNoBoundary(p: Pole, me: nat, tmp: array<real>)
    requires IsInner(p) && me < |p.cuts| && IsInnerPole(p.lmax, tmp[..])
    modifies tmp
    ensures LocalSurpluses(p, me, old(tmp[..]), tmp[..], 0, 0)
  {
    ghost var u := tmp[..];
    AboveAllLevels(p, me, u);
    var l: int := p.lmax;
    while l > 0
      invariant 0 <= l <= p.lmax
      invariant LocalSurpluses(p, me, u, tmp[..], l, 0)
    {
      HierarchizeLevel(p, me, tmp, l, u);
      l := l - 1;
    }
  }

  lemma AboveAllLevels(p: Pole, me: nat, u: seq<real>)
    requires IsInner(p) && IsInnerPole(p.lmax, u)
    ensures LocalSurpluses(p, me, u, u, p.lmax, 0)
  {
    forall x | 0 <= x < |u|
      ensures p.Level(x) <= p.lmax
    {
      LevelOfPoint(p, x, 1);
    }
  }

  /** Values of a bordered pole while a dehierarchization pass has reached idx. */
  ghost predicate PassedInner(lmax: nat, s: Step, u: seq<real>, now: seq<real>, idx: int)
    requires Fits(lmax, s) && IsInnerPole(lmax, u) && |now| == |u|
  {
    IsTarget(s, idx + 1) && PassedTo(lmax, s, Bordered(u), Bordered(now), idx + 1)
  }

  lemma InnerStarts(lmax: nat, s: Step, u: seq<real>)
    requires Fits(lmax, s) && s.Predict? && IsInnerPole(lmax, u)
    ensures PassedInner(lmax, s, u, u, Pow2(s.k) - 1)
  {
    PassStarts(lmax, s, Bordered(u));
  }

  lemma BorderedUpdate(v: seq<real>, i: int, x: real)
    requires 0 <= i < |v|
    ensures Bordered(v[i := x]) == Bordered(v)[i + 1 := x]
  {
  }

  lemma InnerAdvances(lmax: nat, s: Step, u: seq<real>, now: seq<real>, idx: int)
    requires Fits(lmax, s) && s.Predict? && !s.subtract && IsInnerPole(lmax, u) && |now| == |u| && 0 <= idx < |u|
    requires PassedInner(lmax, s, u, now, idx)
    ensures PassedInner(lmax, s, u,
                        now[idx := 0.5 * LeftValue(now, idx, Pow2(s.k))
                            + (now[idx] + 0.5 * RightValue(now, idx, Pow2(s.k)))], idx + 2 * Pow2(s.k))
  {
    var before := Bordered(u);
    FirstIsNoPredecessor(lmax, s.k, now, idx);
    FirstIsNoPredecessor(lmax, s.k, u, idx);
    OldAround(lmax, s, before, Bordered(now), idx + 1);
    Neighbours(s.k, idx + 1);
    MultSplit(s.k, idx + 1 - Pow2(s.k));
    assert Bordered(now)[idx + 1 - Pow2(s.k)] == before[idx + 1 - Pow2(s.k)];
    PassAdvances(lmax, s, before, Bordered(now), idx + 1);
    BorderedUpdate(now, idx, At(lmax, s, before, idx + 1));
  }

  lemma InnerEnds(lmax: nat, s: Step, u: seq<real>, now: seq<real>, idx: int)
    requires Fits(lmax, s) && s.Predict? && IsInnerPole(lmax, u) && |now| == |u| && idx >= |u|
             && PassedInner(lmax, s, u, now, idx)
    ensures Bordered(now) == Apply(lmax, s, Bordered(u))
  {
    PassEnds(lmax, s, Bordered(u), Bordered(now), idx + 1);
  }

  method AddToPoint(tmp: array<real>, idx: int, parentOffset: int)
    requires 0 <= idx < tmp.Length && parentOffset > 0
    modifies tmp
    ensures tmp[..] == old(tmp[..])[idx := 0.5 * LeftValue(old(tmp[..]), idx, parentOffset)
                                           + (old(tmp[idx]) + 0.5 * RightValue(old(tmp[..]), idx, parentOffset))]
  {
    var left, right := 0.0, 0.0;
    if idx - parentOffset > 0 {
      left := tmp[idx - parentOffset];
    }
    if idx + parentOffset < tmp.Length {
      right := tmp[idx + parentOffset];
    }
    var buf := 0.5 * left;
    tmp[idx] := tmp[idx] + 0.5 * right;
    tmp[idx] := tmp[idx] + buf;
  }

  method DehierarchizeLevel(lmax: nat, tmp: array<real>, l: int)
    requires IsInnerPole(lmax, tmp[..]) && 0 < l <= lmax
    modifies tmp
    ensures Bordered(tmp[..]) == Apply(lmax, Predict(lmax - l, false), Bordered(old(tmp[..])))
  {
    ghost var s := Predict(lmax - l, false);
    ghost var u := tmp[..];
    ghost var now := u;
    InnerStarts(lmax, s, u);
    var parentOffset := Pow2(lmax - l);
    var idx := parentOffset - 1;
    while idx < tmp.Length
      invariant 0 <= idx && tmp[..] == now && |now| == |u| && PassedInner(lmax, s, u, now, idx)
      decreases tmp.Length - idx
    {
      InnerAdvances(lmax, s, u, now, idx);
      AddToPoint(tmp, idx, parentOffset);
      now := tmp[..];
      idx := idx + 2 * parentOffset;
    }
    InnerEnds(lmax, s, u, now, idx);
  }

  /** Level 2 is where something changes first. */
  lemma FirstLevelIsDone(lmax: nat, v: seq<real>)
    requires IsInnerPole(lmax, v)
    ensures Dehierarchized(lmax, Hat, lmax, lmax - 1, Bordered(v)) == Bordered(v)
  {
    CoarsestIsUnchanged(lmax, false, Bordered(v));
    assert Dehierarchized(lmax, Hat, lmax, lmax, Bordered(v)) == Bordered(v);
  }

  lemma NextLevel(lmax: nat, from: nat, b: seq<real>)
    requires from < lmax && |b| == Pow2(lmax) + 1
    ensures Dehierarchized(lmax, Hat, lmax, from, b)
            == Apply(lmax, Predict(from, false), Dehierarchized(lmax, Hat, lmax, from + 1, b))
  {
  }

  /** Dehierarchizes a whole pole in place, from level 2 on. */
  method DehierarchizeNoBoundary(lmax: nat, tmp: array<real>)
    requires IsInnerPole(lmax, tmp[..])
    modifies tmp
    ensures IsInnerPole(lmax, tmp[..])
            && Bordered(tmp[..]) == Dehierarchized(lmax, Hat, lmax, 0, Bordered(old(tmp[..])))
  {
    hide Bordered, Dehierarchized;
    ghost var b := Bordered(tmp[..]);
    ghost var v := b;
    FirstLevelIsDone(lmax, tmp[..]);
    var l: int := 2;
    while l <= lmax
      invariant 2 <= l <= lmax + 1 && Bordered(tmp[..]) == v
      invariant v == Dehierarchized(lmax, Hat, lmax, lmax - l + 1, b)
    {
      NextLevel(lmax, lmax - l, b);
      DehierarchizeLevel(lmax, tmp, l);
      v := Dehierarchized(lmax, Hat, lmax, lmax - l, b);
      l := l + 1;
    }
  }
}
