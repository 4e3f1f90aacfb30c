/** The receive side of the exchange before dehierarchization: a rank follows the predecessors of its
    points and notes those that other ranks own.  The search does not start from every point: it
    jumps to the right predecessor whenever that is local. */
module PredecessorSearch {
  import opened Dyadic
  import opened Poles
  import opened Ancestry
  import opened SuccessorSearch

  predicate Candidate(p: Pole, idx: int, i: int) {
    p.Level(i) == p.lmax || p.Level(i) == p.Level(idx) + 1
  }

  /** The first local candidate after idx; without one, the index right after idx. */
  ghost predicate IsNextCandidate(p: Pole, me: nat, idx: int, next: int)
    requires me < |p.cuts|
  {
    || (idx < next <= p.Last(me) && Candidate(p, idx, next)
        && forall i :: idx < i < next ==> !Candidate(p, idx, i))
    || (next == idx + 1 && forall i :: idx < i <= p.Last(me) ==> !Candidate(p, idx, i))
  }

  method GetNextIndex1d(p: Pole, me: nat, idx: int) returns (next: int)
    requires p.Valid() && me < |p.cuts|
    ensures IsNextCandidate(p, me, idx, next)
  {
    var i := idx + 1;
    while i <= p.Last(me)
      invariant idx < i
      invariant forall k :: idx < k < i ==> !Candidate(p, idx, k)
    {
      if p.Level(i) == p.lmax || p.Level(i) == p.Level(idx) + 1 {
        return i;
      }
      i := i + 1;
    }
    return idx + 1;
  }

  /** The support of the basis function at i, with its end points, does not leave the part of rank me. */
  ghost predicate SupportIsLocal(p: Pole, me: nat, lmin: nat, i: int)
    requires me < |p.cuts|
  {
    p.First(me) <= i - p.Reach(lmin, i) && i + p.Reach(lmin, i) <= p.Last(me)
  }

  /** Going from idx to next skips only points whose support is local, and never skips the last
      local point. */
  ghost predicate SafeAdvance(p: Pole, me: nat, lmin: nat, idx: int, next: int)
    requires me < |p.cuts|
  {
    && idx < next
    && (forall i :: idx < i < next && i <= p.Last(me) ==> SupportIsLocal(p, me, lmin, i))
    && (idx < p.Last(me) && lmin < p.lmax ==> next <= p.Last(me))
  }

  lemma FinestLevel(p: Pole, i: int)
    requires 0 < p.Node(i) < Pow2(p.lmax)
    ensures p.Level(i) == p.lmax <==> p.Node(i) % 2 == 1
  {
    p.ExponentFacts(i);
  }

  /** Right of a point that is not on the finest level lies a candidate; right of a point that is on
      the finest level lies its right predecessor. */
  lemma RightNeighbour(p: Pole, idx: int)
    requires p.InGrid(idx) && p.InGrid(idx + 1) && p.lmax > 0
    ensures p.Level(idx) == p.lmax ==> p.RightPredecessor(idx) == idx + 1
    ensures p.Level(idx) != p.lmax ==> p.Level(idx + 1) == p.lmax
  {
    if p.Node(idx + 1) < Pow2(p.lmax) {
      FinestLevel(p, idx + 1);
    }
    p.ExponentFacts(idx);
    if p.Node(idx) != 0 {
      FinestLevel(p, idx);
    }
  }

  /** Moving on to the next candidate index is safe if the right predecessor is not local. */
  lemma NextCandidateIsSafe(p: Pole, me: nat, lmin: nat, idx: int, next: int)
    requires p.Valid() && me < |p.cuts| && p.Owns(me, idx)
    requires p.Level(idx) <= lmin || p.RightPredecessor(idx) < 0 || p.RightPredecessor(idx) > p.Last(me)
    requires IsNextCandidate(p, me, idx, next)
    ensures SafeAdvance(p, me, lmin, idx, next)
  {
    if lmin < p.lmax {
      if idx < p.Last(me) {
        RightNeighbour(p, idx);
        assert Candidate(p, idx, idx + 1);
      }
      assert next == idx + 1;
    }
  }

  /** Jumping to a local right predecessor is safe. */
  lemma JumpIsSafe(p: Pole, me: nat, lmin: nat, idx: int)
    requires p.Valid() && me < |p.cuts| && p.Owns(me, idx)
    requires p.Owns(me, idx + Pow2(p.Exp(idx)))
    ensures SafeAdvance(p, me, lmin, idx, idx + Pow2(p.Exp(idx)))
  {
    var h := Pow2(p.Exp(idx));
    p.ExponentFacts(idx);
    forall i | idx < i < idx + h
      ensures SupportIsLocal(p, me, lmin, i)
    {
      ReachBound(p, lmin, i);
      p.ExponentFacts(i);
      var e := p.Exp(i);
      if e >= p.Exp(idx) {
        MultWeaken(p.Exp(idx), e, p.Node(i));
        Spacing(p.Exp(idx), p.Node(idx), p.Node(i));
      }
      MultWeaken(e, p.Exp(idx), p.Node(idx));
      if i < idx + Pow2(e) {
        Spacing(e, p.Node(idx), p.Node(i));
      }
      MultPow2(e, p.Exp(idx));
      MultClosed(e, p.Node(idx), h);
      if idx + h < i + Pow2(e) {
        Spacing(e, p.Node(i), p.Node(idx) + h);
      }
    }
  }

  /** Everything the search from idx adds is an ancestor of idx that another rank owns. */
  ghost predicate OnlyAncestorsAdded(p: Pole, me: nat, lmin: nat, before: map<int, set<int>>,
                                     after: map<int, set<int>>, idx: int)
    requires p.Valid() && p.InGrid(idx)
  {
    forall r, y {:trigger y in SetAt(after, r)} :: y in SetAt(after, r) ==>
      y in SetAt(before, r) || (r != me && p.Owns(r, y) && p.IsAncestor(lmin, y, idx))
  }

  ghost predicate NothingRemoved(before: map<int, set<int>>, after: map<int, set<int>>) {
    forall r, y {:trigger y in SetAt(before, r)} :: y in SetAt(before, r) ==> y in SetAt(after, r)
  }

  /** All remote ancestors to the left of idx have been received. */
  ghost predicate LeftComplete(p: Pole, me: nat, lmin: nat, m: map<int, set<int>>, idx: int)
    requires me < |p.cuts|
  {
    forall r, y :: p.Owns(r, y) && y < idx && y < p.First(me) && p.Covers(lmin, y, idx) ==> y in SetAt(m, r)
  }

  /** All remote ancestors to the right of idx have been received, and index 0 in place of the
      virtual last point. */
  ghost predicate RightComplete(p: Pole, me: nat, lmin: nat, m: map<int, set<int>>, idx: int)
    requires me < |p.cuts|
  {
    && (forall r, y :: p.Owns(r, y) && idx < y && p.Last(me) < y && p.Covers(lmin, y, idx) ==> y in SetAt(m, r))
    && (p.boundary == 1 && p.First(me) > 0 && p.Covers(lmin, p.Length(), idx) ==> 0 in SetAt(m, 0))
  }

  lemma AncestorsOfPredecessor(p: Pole, me: nat, lmin: nat, m0: map<int, set<int>>, m1: map<int, set<int>>,
                               m2: map<int, set<int>>, idx: int, pred: int)
    requires p.Valid() && p.InGrid(idx) && p.InGrid(pred) && p.Level(idx) > lmin
    requires pred == p.LeftPredecessor(idx) || pred == p.RightPredecessor(idx)
    requires OnlyAncestorsAdded(p, me, lmin, m0, m1, idx) && OnlyAncestorsAdded(p, me, lmin, m1, m2, pred)
    ensures OnlyAncestorsAdded(p, me, lmin, m0, m2, idx)
  {
    p.PredecessorsAreCoarser(idx);
    forall r, y | y in SetAt(m2, r) && y !in SetAt(m1, r)
      ensures p.IsAncestor(lmin, y, idx)
    {
      assert p.IsAncestor(lmin, y, pred);
    }
  }

  /** Receives the left predecessor of idx and, recursively, what that predecessor needs. */
  method FollowLeft(p: Pole, me: nat, lmin: nat, idx: int, recv: IndexSets)
    requires p.Valid() && me < |p.cuts| && p.InGrid(idx) && p.Level(idx) > lmin
    modifies recv
    ensures OnlyAncestorsAdded(p, me, lmin, old(recv.sets), recv.sets, idx)
    ensures NothingRemoved(old(recv.sets), recv.sets)
    ensures LeftComplete(p, me, lmin, recv.sets, idx)
    decreases p.Level(idx), 0
  {
    var left := p.LeftPredecessor(idx);
    var leftLevel := p.Level(left);
    p.PredecessorsAreCoarser(idx);
    if 0 <= left < p.First(me) {
      var r := p.Neighbor(left);
      recv.Insert(r, left);
    }
    ghost var m := recv.sets;
    assert OnlyAncestorsAdded(p, me, lmin, old(recv.sets), m, idx);
    assert NothingRemoved(old(recv.sets), m);
    if left >= 0 && leftLevel >= lmin {
      var _ := CheckPredecessors(p, me, lmin, left, recv);
      AncestorsOfPredecessor(p, me, lmin, old(recv.sets), m, recv.sets, idx, left);
    }
    forall r, y | p.Owns(r, y) && y < idx && y < p.First(me) && p.Covers(lmin, y, idx)
      ensures y in SetAt(recv.sets, r)
    {
      CoverStep(p, lmin, y, idx);
      if y == left {
        OwnershipIsExclusive(p, r, p.Neighbor(left), left);
        assert y in SetAt(m, r);
      } else if leftLevel < lmin {
        CoarsePointsAreUncovered(p, lmin, y, left);
      }
    }
  }

  /** Receives the right predecessor of idx, if it is remote, and what that predecessor needs;
      a local right predecessor is left to be visited next. */
  method FollowRight(p: Pole, me: nat, lmin: nat, idx: int, recv: IndexSets) returns (next: int)
    requires p.Valid() && me < |p.cuts| && p.InGrid(idx) && p.Level(idx) > lmin
    modifies recv
    ensures OnlyAncestorsAdded(p, me, lmin, old(recv.sets), recv.sets, idx)
    ensures NothingRemoved(old(recv.sets), recv.sets)
    ensures idx >= p.Last(me) ==> RightComplete(p, me, lmin, recv.sets, idx)
    ensures p.Owns(me, idx) ==> SafeAdvance(p, me, lmin, idx, next)
    decreases p.Level(idx), 1
  {
    var right := p.RightPredecessor(idx);
    var rightLevel := p.Level(right);
    p.PredecessorsAreCoarser(idx);
    p.ExponentFacts(idx);
    if right < 0 {
      next := GetNextIndex1d(p, me, idx);
      if p.Owns(me, idx) {
        NextCandidateIsSafe(p, me, lmin, idx, next);
      }
      NothingOnTheRight(p, me, lmin, recv.sets, idx);
      return;
    }
    if right > p.Last(me) {
      if p.boundary == 1 && right == p.Length() {
        if p.First(me) > 0 {
          var r := p.Neighbor(0);
          if r != me {
            recv.Insert(r, 0);
          }
        }
        OnlyVirtualPointOnTheRight(p, me, lmin, recv.sets, idx);
      } else {
        ReceiveRight(p, me, lmin, idx, right, recv);
      }
      next := GetNextIndex1d(p, me, idx);
      if p.Owns(me, idx) {
        NextCandidateIsSafe(p, me, lmin, idx, next);
      }
    } else {
      next := right;
      if p.Owns(me, idx) {
        JumpIsSafe(p, me, lmin, idx);
      }
    }
  }

  lemma NothingOnTheRight(p: Pole, me: nat, lmin: nat, m: map<int, set<int>>, idx: int)
    requires p.Valid() && me < |p.cuts| && p.InGrid(idx) && p.Level(idx) > lmin
    requires p.RightPredecessor(idx) < 0
    ensures RightComplete(p, me, lmin, m, idx)
  {
    p.PredecessorsAreCoarser(idx);
    forall r, y | p.Owns(r, y) && idx < y && p.Last(me) < y
      ensures !p.Covers(lmin, y, idx)
    {
      CoverStep(p, lmin, y, idx);
    }
  }

  lemma OnlyVirtualPointOnTheRight(p: Pole, me: nat, lmin: nat, m: map<int, set<int>>, idx: int)
    requires p.Valid() && me < |p.cuts| && p.InGrid(idx) && p.Level(idx) > lmin
    requires p.boundary == 1 && p.RightPredecessor(idx) == p.Length()
    requires p.First(me) > 0 ==> 0 in SetAt(m, 0)
    ensures RightComplete(p, me, lmin, m, idx)
  {
    p.PredecessorsAreCoarser(idx);
    forall r, y | p.Owns(r, y) && idx < y && p.Last(me) < y
      ensures !p.Covers(lmin, y, idx)
    {
      CoverStep(p, lmin, y, idx);
    }
  }

  method ReceiveRight(p: Pole, me: nat, lmin: nat, idx: int, right: int, recv: IndexSets)
    requires p.Valid() && me < |p.cuts| && p.InGrid(idx) && p.Level(idx) > lmin
    requires right == p.RightPredecessor(idx) && p.Last(me) < right < p.Length()
    modifies recv
    ensures OnlyAncestorsAdded(p, me, lmin, old(recv.sets), recv.sets, idx)
    ensures NothingRemoved(old(recv.sets), recv.sets)
    ensures RightComplete(p, me, lmin, recv.sets, idx)
    decreases p.Level(idx), 0
  {
    p.PredecessorsAreCoarser(idx);
    var r := p.Neighbor(right);
    recv.Insert(r, right);
    ghost var m := recv.sets;
    assert OnlyAncestorsAdded(p, me, lmin, old(recv.sets), m, idx);
    assert NothingRemoved(old(recv.sets), m);
    if p.Level(right) >= lmin {
      var _ := CheckPredecessors(p, me, lmin, right, recv);
      AncestorsOfPredecessor(p, me, lmin, old(recv.sets), m, recv.sets, idx, right);
    }
    RightAncestorsOf(p, me, lmin, recv.sets, idx, right);
  }

  /** The right ancestors of idx are its right predecessor and the right ancestors of that. */
  lemma RightAncestorsOf(p: Pole, me: nat, lmin: nat, m: map<int, set<int>>, idx: int, right: int)
    requires p.Valid() && me < |p.cuts| && p.InGrid(idx) && p.Level(idx) > lmin
    requires right == p.RightPredecessor(idx) && p.Last(me) < right < p.Length()
    requires right in SetAt(m, p.Neighbor(right))
    requires p.Level(right) >= lmin ==> RightComplete(p, me, lmin, m, right)
    ensures RightComplete(p, me, lmin, m, idx)
  {
    p.PredecessorsAreCoarser(idx);
    forall q, y | p.Owns(q, y) && idx < y && p.Last(me) < y && p.Covers(lmin, y, idx)
      ensures y in SetAt(m, q)
    {
      CoverStep(p, lmin, y, idx);
      if y == right {
        OwnershipIsExclusive(p, q, p.Neighbor(right), right);
      } else if p.Level(right) < lmin {
        CoarsePointsAreUncovered(p, lmin, y, right);
      }
    }
    if p.boundary == 1 && p.Covers(lmin, p.Length(), idx) {
      CoverStep(p, lmin, p.Length(), idx);
      if p.Level(right) < lmin {
        CoarsePointsAreUncovered(p, lmin, p.Length(), right);
      }
    }
  }

  method CheckPredecessors(p: Pole, me: nat, lmin: nat, idx: int, recv: IndexSets) returns (next: int)
    requires p.Valid() && me < |p.cuts| && p.InGrid(idx)
    modifies recv
    ensures OnlyAncestorsAdded(p, me, lmin, old(recv.sets), recv.sets, idx)
    ensures NothingRemoved(old(recv.sets), recv.sets)
    ensures LeftComplete(p, me, lmin, recv.sets, idx)
    ensures idx >= p.Last(me) ==> RightComplete(p, me, lmin, recv.sets, idx)
    ensures p.Owns(me, idx) ==> SafeAdvance(p, me, lmin, idx, next)
    decreases p.Level(idx), 2
  {
    if p.Level(idx) <= lmin || idx < 0 {
      next := GetNextIndex1d(p, me, idx);
      if p.Owns(me, idx) {
        NextCandidateIsSafe(p, me, lmin, idx, next);
      }
      CoarsePointNeedsNothing(p, me, lmin, recv.sets, idx);
      return;
    }
    FollowLeft(p, me, lmin, idx, recv);
    next := FollowRight(p, me, lmin, idx, recv);
  }

  lemma CoarsePointNeedsNothing(p: Pole, me: nat, lmin: nat, m: map<int, set<int>>, idx: int)
    requires p.Valid() && me < |p.cuts| && p.InGrid(idx) && p.Level(idx) <= lmin
    ensures LeftComplete(p, me, lmin, m, idx) && RightComplete(p, me, lmin, m, idx)
  {
    forall y | 0 <= p.Node(y) <= Pow2(p.lmax)
      ensures !p.Covers(lmin, y, idx)
    {
      CoarsePointsAreUncovered(p, lmin, y, idx);
    }
  }
}
