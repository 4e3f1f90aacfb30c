/** The exchange before hierarchization: every rank needs only the direct predecessors of its points. */
module DirectExchange {
  import opened Dyadic
  import opened Poles
  import opened Ancestry
  import opened SuccessorSearch
  import opened PredecessorSearch

  ghost predicate DirectlyNeededBy(p: Pole, lmin: nat, r: int, i: int) {
    exists j :: p.Owns(r, j) && p.IsDirectPredecessor(lmin, i, j)
  }

  /** What rank q has to send to rank r before hierarchization. */
  ghost function DirectlyNeeded(p: Pole, lmin: nat, q: nat, r: nat): set<int>
    requires p.Valid() && q < |p.cuts|
  {
    set i | p.First(q) <= i <= p.Last(q) && DirectlyNeededBy(p, lmin, r, i)
  }

  /** Rank r owns a direct successor of i on level l; left successors of index 0 wrap around. */
  predicate OwnsSuccessor(p: Pole, r: int, i: int, l: int)
    requires l <= p.lmax
  {
    || p.Owns(r, i - Pow2(p.lmax - l))
    || p.Owns(r, i + Pow2(p.lmax - l))
    || (p.boundary == 1 && i == 0 && p.Owns(r, p.Length() - Pow2(p.lmax - l)))
  }

  ghost predicate OwnsSuccessorBelow(p: Pole, lmin: nat, r: int, i: int, top: int)
    requires top <= p.lmax + 1
  {
    exists l :: p.Level(i) < l < top && l > lmin && OwnsSuccessor(p, r, i, l)
  }

  lemma SuccessorOfPredecessor(p: Pole, lmin: nat, i: int, j: int)
    requires p.InGrid(i) && p.InGrid(j) && p.IsDirectPredecessor(lmin, i, j)
    ensures p.Level(i) < p.Level(j) <= p.lmax && p.Level(j) > lmin
    ensures var d := Pow2(p.lmax - p.Level(j));
            j == i - d || j == i + d || (p.boundary == 1 && i == 0 && j == p.Length() - d)
  {
    p.PredecessorsAreCoarser(j);
    p.ExponentFacts(j);
  }

  lemma PredecessorOfSuccessor(p: Pole, lmin: nat, i: int, l: int, j: int)
    requires p.InGrid(i) && p.InGrid(j) && p.Level(i) < l <= p.lmax && l > lmin
    requires var d := Pow2(p.lmax - l);
             j == i - d || j == i + d || (p.boundary == 1 && i == 0 && j == p.Length() - d)
    ensures p.IsDirectPredecessor(lmin, i, j)
  {
    p.ExponentFacts(i);
    if j == p.Length() - Pow2(p.lmax - l) && p.boundary == 1 && i == 0 {
      VirtualPoint(p, lmin);
      p.ExponentFacts(p.Length());
      p.SuccessorLevel(p.Length(), p.lmax - l);
    } else {
      p.SuccessorLevel(i, p.lmax - l);
    }
  }

  /** Direct predecessors and direct successors are the same relation read in two directions. */
  lemma NeededByIsOwnsSuccessor(p: Pole, lmin: nat, r: nat, i: int)
    requires p.Valid() && r < |p.cuts| && p.InGrid(i)
    ensures DirectlyNeededBy(p, lmin, r, i) <==> OwnsSuccessorBelow(p, lmin, r, i, p.lmax + 1)
  {
    if DirectlyNeededBy(p, lmin, r, i) {
      var j :| p.Owns(r, j) && p.IsDirectPredecessor(lmin, i, j);
      OwnershipIsExclusive(p, r, r, j);
      SuccessorOfPredecessor(p, lmin, i, j);
      assert OwnsSuccessor(p, r, i, p.Level(j));
    }
    if OwnsSuccessorBelow(p, lmin, r, i, p.lmax + 1) {
      var l :| p.Level(i) < l < p.lmax + 1 && l > lmin && OwnsSuccessor(p, r, i, l);
      var d := Pow2(p.lmax - l);
      var j := if p.Owns(r, i - d) then i - d else if p.Owns(r, i + d) then i + d else p.Length() - d;
      OwnershipIsExclusive(p, r, r, j);
      PredecessorOfSuccessor(p, lmin, i, l, j);
    }
  }

  /** Inserts idx for the owner of its successor at distance shift * 2^(lmax - l), if that is remote. */
  method SendTowards(p: Pole, me: nat, idx: int, shift: int, idiff: int, send: IndexSets)
    requires p.Valid() && me < |p.cuts| && p.Owns(me, idx) && (shift == -1 || shift == 1) && idiff > 0
    modifies send
    ensures forall r :: SetAt(send.sets, r) == With(SetAt(old(send.sets), r),
              r != me && (p.Owns(r, idx + shift * idiff)
                          || (p.boundary == 1 && idx == 0 && shift == -1 && p.Owns(r, p.Length() - idiff))), idx)
  {
    var sIdx := idx + shift * idiff;
    if (shift < 0 && 0 <= sIdx < p.First(me)) || (shift > 0 && p.Last(me) < sIdx < p.Length()) {
      MarkOwner(p, me, sIdx, idx, send);
    }
    if p.boundary == 1 && idx == 0 && sIdx < 0 {
      var mirrored := p.Length() + sIdx;
      if mirrored > p.Last(me) {
        MarkOwner(p, me, mirrored, idx, send);
      }
    }
  }

  /** The local indices before idx have been noted for exactly the ranks that need them. */
  ghost predicate SentBefore(p: Pole, me: nat, lmin: nat, m: map<int, set<int>>, idx: int)
    requires me < |p.cuts|
  {
    forall r, i {:trigger i in SetAt(m, r)} ::
      i in SetAt(m, r) <==> (p.First(me) <= i < idx && i <= p.Last(me) && r != me
                             && OwnsSuccessorBelow(p, lmin, r, i, p.lmax + 1))
  }

  ghost predicate SentLevels(p: Pole, me: nat, lmin: nat, m0: map<int, set<int>>, m1: map<int, set<int>>, idx: int,
                             l: int)
    requires l <= p.lmax + 1
  {
    forall r {:trigger SetAt(m1, r)} ::
      SetAt(m1, r) == With(SetAt(m0, r), r != me && OwnsSuccessorBelow(p, lmin, r, idx, l), idx)
  }

  method SendIndex(p: Pole, me: nat, lmin: nat, idx: int, send: IndexSets)
    requires p.Valid() && me < |p.cuts| && p.Owns(me, idx)
    modifies send
    ensures SentLevels(p, me, lmin, old(send.sets), send.sets, idx, p.lmax + 1)
  {
    p.ExponentFacts(idx);
    var l := p.Level(idx) + 1;
    while l <= p.lmax
      invariant p.Level(idx) < l <= p.lmax + 1
      invariant SentLevels(p, me, lmin, old(send.sets), send.sets, idx, l)
    {
      if l > lmin {
        SendLevel(p, me, lmin, idx, l, old(send.sets), send);
      }
      l := l + 1;
    }
  }

  method SendLevel(p: Pole, me: nat, lmin: nat, idx: int, l: int, ghost before: map<int, set<int>>, send: IndexSets)
    requires p.Valid() && me < |p.cuts| && p.Owns(me, idx)
    requires p.Level(idx) < l <= p.lmax && l > lmin
    requires SentLevels(p, me, lmin, before, send.sets, idx, l)
    modifies send
    ensures SentLevels(p, me, lmin, before, send.sets, idx, l + 1)
  {
    var idiff := Pow2(p.lmax - l);
    ghost var m0 := send.sets;
    SendTowards(p, me, idx, -1, idiff, send);
    ghost var m1 := send.sets;
    SendTowards(p, me, idx, 1, idiff, send);
    forall r
      ensures SetAt(send.sets, r) == With(SetAt(before, r), r != me && OwnsSuccessorBelow(p, lmin, r, idx, l + 1), idx)
    {
      assert OwnsSuccessorBelow(p, lmin, r, idx, l + 1) <==>
             (OwnsSuccessorBelow(p, lmin, r, idx, l) || OwnsSuccessor(p, r, idx, l));
      assert SetAt(m0, r) == With(SetAt(before, r), r != me && OwnsSuccessorBelow(p, lmin, r, idx, l), idx);
      assert SetAt(send.sets, r) == With(SetAt(m1, r), r != me && p.Owns(r, idx + idiff), idx);
    }
  }

  /** Everything received is a direct predecessor of a local point. */
  ghost predicate OnlyNeededReceived(p: Pole, me: nat, lmin: nat, m: map<int, set<int>>) {
    forall r, y {:trigger y in SetAt(m, r)} ::
      y in SetAt(m, r) ==> r != me && p.Owns(r, y) && DirectlyNeededBy(p, lmin, me, y)
  }

  /** The remote direct predecessors of the local points before idx have been received. */
  ghost predicate ReceivedBefore(p: Pole, me: nat, lmin: nat, m: map<int, set<int>>, idx: int)
    requires me < |p.cuts|
  {
    forall r, y, j | p.First(me) <= j < idx && j <= p.Last(me) && r != me ::
      p.Owns(r, y) && p.IsDirectPredecessor(lmin, y, j) ==> y in SetAt(m, r)
  }

  lemma InsertNeeded(p: Pole, me: nat, lmin: nat, m: map<int, set<int>>, idx: int, r: int, y: int)
    requires OnlyNeededReceived(p, me, lmin, m)
    requires p.Owns(me, idx) && p.IsDirectPredecessor(lmin, y, idx) && p.Owns(r, y) && r != me
    ensures OnlyNeededReceived(p, me, lmin, m[r := SetAt(m, r) + {y}])
  {
    var m1 := m[r := SetAt(m, r) + {y}];
    forall q, x | x in SetAt(m1, q)
      ensures q != me && p.Owns(q, x) && DirectlyNeededBy(p, lmin, me, x)
    {
      assert x in SetAt(m, q) || (q == r && x == y);
    }
  }

  lemma PredecessorAt(p: Pole, lmin: nat, idx: int, pIdx: int)
    requires p.InGrid(idx) && p.Level(idx) > lmin
    requires pIdx == idx - Pow2(p.Exp(idx)) || pIdx == idx + Pow2(p.Exp(idx))
    ensures p.InGrid(pIdx) ==> p.IsDirectPredecessor(lmin, pIdx, idx)
    ensures p.boundary == 1 && pIdx == p.Length() && idx < pIdx ==> p.IsDirectPredecessor(lmin, 0, idx)
  {
    p.PredecessorsAreCoarser(idx);
  }

  /** Receives the predecessor pIdx of idx on the side given by shift, if it is remote. */
  method ReceiveTowards(p: Pole, me: nat, lmin: nat, idx: int, pIdx: int, shift: int, recv: IndexSets)
    requires p.Valid() && me < |p.cuts| && p.Owns(me, idx) && p.InGrid(idx) && p.Level(idx) > lmin
    requires (shift == -1 || shift == 1) && pIdx == idx + shift * Pow2(p.Exp(idx))
    requires OnlyNeededReceived(p, me, lmin, recv.sets)
    modifies recv
    ensures OnlyNeededReceived(p, me, lmin, recv.sets)
    ensures NothingRemoved(old(recv.sets), recv.sets)
    ensures forall r :: r != me && p.Owns(r, pIdx) ==> pIdx in SetAt(recv.sets, r)
  {
    if p.Level(idx) > 0 && ((shift < 0 && 0 <= pIdx < p.First(me)) || (shift > 0 && p.Last(me) < pIdx < p.Length())) {
      var r := p.Neighbor(pIdx);
      PredecessorAt(p, lmin, idx, pIdx);
      InsertNeeded(p, me, lmin, recv.sets, idx, r, pIdx);
      if r >= 0 {
        recv.Insert(r, pIdx);
      }
      forall q | p.Owns(q, pIdx)
        ensures q == r
      {
        OwnershipIsExclusive(p, q, r, pIdx);
      }
    }
  }

  /** Receives index 0 in place of the virtual last point of a periodic pole. */
  method ReceiveWrapped(p: Pole, me: nat, lmin: nat, idx: int, pIdx: int, recv: IndexSets)
    requires p.Valid() && me < |p.cuts| && p.Owns(me, idx) && p.InGrid(idx) && p.Level(idx) > lmin
    requires pIdx == idx + Pow2(p.Exp(idx))
    requires OnlyNeededReceived(p, me, lmin, recv.sets)
    modifies recv
    ensures OnlyNeededReceived(p, me, lmin, recv.sets)
    ensures NothingRemoved(old(recv.sets), recv.sets)
    ensures p.boundary == 1 && pIdx == p.Length() && me != 0 ==> 0 in SetAt(recv.sets, 0)
  {
    if p.boundary == 1 && pIdx == p.Length() {
      var r := p.Neighbor(0);
      if r >= 0 && r != me {
        PredecessorAt(p, lmin, idx, pIdx);
        InsertNeeded(p, me, lmin, recv.sets, idx, r, 0);
        recv.Insert(r, 0);
      }
    }
  }

  /** Receives the direct predecessors of local index idx. */
  method ReceiveFor(p: Pole, me: nat, lmin: nat, idx: int, recv: IndexSets)
    requires p.Valid() && me < |p.cuts| && p.Owns(me, idx) && p.InGrid(idx) && p.Level(idx) > lmin
    requires OnlyNeededReceived(p, me, lmin, recv.sets)
    modifies recv
    ensures OnlyNeededReceived(p, me, lmin, recv.sets)
    ensures NothingRemoved(old(recv.sets), recv.sets)
    ensures forall r, y :: r != me && p.Owns(r, y) && p.IsDirectPredecessor(lmin, y, idx) ==> y in SetAt(recv.sets, r)
  {
    var diff := Pow2(p.Exp(idx));
    ReceiveTowards(p, me, lmin, idx, idx - diff, -1, recv);
    ReceiveTowards(p, me, lmin, idx, idx + diff, 1, recv);
    ReceiveWrapped(p, me, lmin, idx, idx + diff, recv);
    forall r, y | r != me && p.Owns(r, y) && p.IsDirectPredecessor(lmin, y, idx)
      ensures y in SetAt(recv.sets, r)
    {
      if y != idx - diff && y != idx + diff {
        OwnershipIsExclusive(p, r, 0, y);
      }
    }
  }

  /** Skipped points have local predecessors and local successors. */
  lemma SkippingIsHarmless(p: Pole, me: nat, lmin: nat, idx: int, next: int, i: int)
    requires p.Valid() && me < |p.cuts| && p.Owns(me, idx) && SafeAdvance(p, me, lmin, idx, next)
    requires idx < i < next && i <= p.Last(me)
    ensures forall r {:trigger OwnsSuccessorBelow(p, lmin, r, i, p.lmax + 1)} ::
              r != me ==> !OwnsSuccessorBelow(p, lmin, r, i, p.lmax + 1)
    ensures forall r, y :: r != me && p.Owns(r, y) ==> !p.IsDirectPredecessor(lmin, y, i)
  {
    assert SupportIsLocal(p, me, lmin, i);
    OwnershipIsExclusive(p, me, me, i);
    p.ExponentFacts(i);
    forall r, l | r != me && p.Level(i) < l <= p.lmax && l > lmin
      ensures !OwnsSuccessor(p, r, i, l)
    {
      ReachFromStep(p, lmin, i, l);
      var d := Pow2(p.lmax - l);
      assert p.Owns(me, i - d) && p.Owns(me, i + d);
      if 0 <= r < |p.cuts| {
        OwnershipIsExclusive(p, me, r, i - d);
        OwnershipIsExclusive(p, me, r, i + d);
      }
    }
    forall r, y | r != me && p.Owns(r, y)
      ensures !p.IsDirectPredecessor(lmin, y, i)
    {
      OwnershipIsExclusive(p, me, r, y);
    }
  }

  lemma SkipSent(p: Pole, me: nat, lmin: nat, m0: map<int, set<int>>, m1: map<int, set<int>>, idx: int, next: int)
    requires p.Valid() && me < |p.cuts| && p.Owns(me, idx) && SafeAdvance(p, me, lmin, idx, next)
    requires SentBefore(p, me, lmin, m0, idx) && SentLevels(p, me, lmin, m0, m1, idx, p.lmax + 1)
    ensures SentBefore(p, me, lmin, m1, next)
  {
    forall r, i
      ensures i in SetAt(m1, r) <==> (p.First(me) <= i < next && i <= p.Last(me) && r != me
                                      && OwnsSuccessorBelow(p, lmin, r, i, p.lmax + 1))
    {
      assert SetAt(m1, r) == With(SetAt(m0, r), r != me && OwnsSuccessorBelow(p, lmin, r, idx, p.lmax + 1), idx);
      assert i in SetAt(m0, r) <==> (p.First(me) <= i < idx && i <= p.Last(me) && r != me
                                     && OwnsSuccessorBelow(p, lmin, r, i, p.lmax + 1));
      if idx < i < next && i <= p.Last(me) {
        SkippingIsHarmless(p, me, lmin, idx, next, i);
      }
    }
  }

  lemma SkipReceived(p: Pole, me: nat, lmin: nat, m0: map<int, set<int>>, m1: map<int, set<int>>, idx: int, next: int)
    requires p.Valid() && me < |p.cuts| && p.Owns(me, idx) && SafeAdvance(p, me, lmin, idx, next)
    requires ReceivedBefore(p, me, lmin, m0, idx) && NothingRemoved(m0, m1)
    requires forall r, y :: r != me && p.Owns(r, y) && p.IsDirectPredecessor(lmin, y, idx) ==> y in SetAt(m1, r)
    ensures ReceivedBefore(p, me, lmin, m1, next)
  {
    forall r, y, j | p.First(me) <= j < next && j <= p.Last(me) && r != me && p.Owns(r, y)
                     && p.IsDirectPredecessor(lmin, y, j)
      ensures y in SetAt(m1, r)
    {
      if j < idx {
        assert y in SetAt(m0, r);
      } else if j > idx {
        SkippingIsHarmless(p, me, lmin, idx, next, j);
      }
    }
  }

  method ExchangeData1d(p: Pole, me: nat, lmin: nat) returns (send: IndexSets, recv: IndexSets)
    requires p.Valid() && me < |p.cuts|
    ensures fresh(send) && fresh(recv)
    ensures forall r: nat :: r < |p.cuts| && r != me ==> send.At(r) == DirectlyNeeded(p, lmin, me, r)
    ensures forall r: nat :: r < |p.cuts| && r != me ==> recv.At(r) == DirectlyNeeded(p, lmin, r, me)
    ensures send.At(me) == {} && recv.At(me) == {}
  {
    send := new IndexSets();
    recv := new IndexSets();
    var idx := p.First(me);
    while idx <= p.Last(me)
      invariant p.First(me) <= idx
      invariant SentBefore(p, me, lmin, send.sets, idx)
      invariant OnlyNeededReceived(p, me, lmin, recv.sets)
      invariant ReceivedBefore(p, me, lmin, recv.sets, idx)
      decreases p.Last(me) - idx
    {
      OwnershipIsExclusive(p, me, me, idx);
      ghost var s0, r0 := send.sets, recv.sets;
      SendIndex(p, me, lmin, idx, send);
      if p.Level(idx) > lmin {
        ReceiveFor(p, me, lmin, idx, recv);
      }
      var next := NextAfter(p, me, lmin, idx);
      SkipSent(p, me, lmin, s0, send.sets, idx, next);
      SkipReceived(p, me, lmin, r0, recv.sets, idx, next);
      idx := next;
    }
    forall r: nat | r < |p.cuts| && r != me
      ensures send.At(r) == DirectlyNeeded(p, lmin, me, r)
      ensures recv.At(r) == DirectlyNeeded(p, lmin, r, me)
    {
      SetsAreComplete(p, me, lmin, send.sets, recv.sets, idx, r);
    }
    assert forall i :: i !in SetAt(send.sets, me) && i !in SetAt(recv.sets, me);
  }

  /** Jumps to the right predecessor if it is local, otherwise to the next candidate. */
  method NextAfter(p: Pole, me: nat, lmin: nat, idx: int) returns (next: int)
    requires p.Valid() && me < |p.cuts| && p.Owns(me, idx) && p.InGrid(idx)
    ensures SafeAdvance(p, me, lmin, idx, next)
  {
    p.ExponentFacts(idx);
    var pIdx := idx + Pow2(p.Exp(idx));
    if p.Level(idx) == 0 || pIdx > p.Last(me) {
      next := GetNextIndex1d(p, me, idx);
      NextCandidateIsSafe(p, me, lmin, idx, next);
    } else {
      next := pIdx;
      JumpIsSafe(p, me, lmin, idx);
    }
  }

  lemma SetsAreComplete(p: Pole, me: nat, lmin: nat, s: map<int, set<int>>, m: map<int, set<int>>, idx: int, r: nat)
    requires p.Valid() && me < |p.cuts| && r < |p.cuts| && r != me && idx > p.Last(me)
    requires SentBefore(p, me, lmin, s, idx)
    requires OnlyNeededReceived(p, me, lmin, m) && ReceivedBefore(p, me, lmin, m, idx)
    ensures SetAt(s, r) == DirectlyNeeded(p, lmin, me, r)
    ensures SetAt(m, r) == DirectlyNeeded(p, lmin, r, me)
  {
    forall i | p.Owns(me, i)
      ensures DirectlyNeededBy(p, lmin, r, i) <==> OwnsSuccessorBelow(p, lmin, r, i, p.lmax + 1)
    {
      OwnershipIsExclusive(p, me, me, i);
      NeededByIsOwnsSuccessor(p, lmin, r, i);
    }
    forall y | p.Owns(r, y) && DirectlyNeededBy(p, lmin, me, y)
      ensures y in SetAt(m, r)
    {
      var j :| p.Owns(me, j) && p.IsDirectPredecessor(lmin, y, j);
    }
  }
}
