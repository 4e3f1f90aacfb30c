/** Which indices the ranks of a pole send to and receive from each other before they hierarchize
    or dehierarchize.  Every rank computes its own send and receive sets without communication; the
    sets of any two ranks match, and they are exactly what the receiver needs. */
module PoleExchange {
  import opened Poles
  import opened Ancestry
  import opened SuccessorSearch
  import opened PredecessorSearch

  /** Index i must be known to rank r before r dehierarchizes its part. */
  ghost predicate NeededBy(p: Pole, lmin: nat, r: int, i: int)
    requires p.Valid()
  {
    exists j :: p.Owns(r, j) && p.InGrid(j) && p.IsAncestor(lmin, i, j)
  }

  /** What rank q has to send to rank r before dehierarchization. */
  ghost function Needed(p: Pole, lmin: nat, q: nat, r: nat): set<int>
    requires p.Valid() && q < |p.cuts|
  {
    set i | p.First(q) <= i <= p.Last(q) && NeededBy(p, lmin, r, i)
  }

  ghost predicate InSupportOf(p: Pole, lmin: nat, r: int, i: int) {
    exists j :: p.Owns(r, j) && p.InSupport(lmin, i, j)
  }

  lemma NeededIsSupport(p: Pole, lmin: nat, r: nat, i: int)
    requires p.Valid() && r < |p.cuts|
    ensures NeededBy(p, lmin, r, i) <==> InSupportOf(p, lmin, r, i)
  {
    forall j | p.Owns(r, j)
      ensures p.InGrid(j) && (p.IsAncestor(lmin, i, j) <==> p.InSupport(lmin, i, j))
    {
      OwnershipIsExclusive(p, r, r, j);
      AncestorsCover(p, lmin, i, j);
    }
    if NeededBy(p, lmin, r, i) {
      var j :| p.Owns(r, j) && p.InGrid(j) && p.IsAncestor(lmin, i, j);
      assert p.InSupport(lmin, i, j);
    }
    if InSupportOf(p, lmin, r, i) {
      var j :| p.Owns(r, j) && p.InSupport(lmin, i, j);
      assert p.IsAncestor(lmin, i, j);
    }
  }

  /** The local indices before idx have been noted for exactly the ranks that need them. */
  ghost predicate SentBefore(p: Pole, me: nat, lmin: nat, m: map<int, set<int>>, idx: int)
    requires me < |p.cuts|
  {
    forall r, i {:trigger i in SetAt(m, r)} ::
      i in SetAt(m, r) <==> (p.First(me) <= i < idx && i <= p.Last(me) && r != me && InSupportOf(p, lmin, r, i))
  }

  lemma SearchedIsSupport(p: Pole, lmin: nat, r: int, i: int)
    requires p.Valid() && p.InGrid(i)
    ensures InSupportOf(p, lmin, r, i) <==>
            (Hit(p, r, i - p.Reach(lmin, i), i, false)
             || Hit(p, r, i, i + p.Reach(lmin, i), i == 0 && p.boundary == 1))
  {
    var w := p.Reach(lmin, i);
    if InSupportOf(p, lmin, r, i) {
      var j :| p.Owns(r, j) && p.InSupport(lmin, i, j);
      assert Meets(p, r, j, false) && Meets(p, r, j, i == 0 && p.boundary == 1);
      if !p.Covers(lmin, i, j) {
        assert Meets(p, r, p.Length() - j, true);
      }
    }
    if Hit(p, r, i - w, i, false) {
      var j :| i - w < j < i && Meets(p, r, j, false);
      assert p.InSupport(lmin, i, j);
    }
    if Hit(p, r, i, i + w, i == 0 && p.boundary == 1) {
      var j :| i < j < i + w && Meets(p, r, j, i == 0 && p.boundary == 1);
      assert p.InSupport(lmin, i, if p.Owns(r, j) then j else p.Length() - j);
    }
  }

  /** Notes local index idx for every rank that needs it. */
  method SendIndex(p: Pole, me: nat, lmin: nat, idx: int, send: IndexSets)
    requires p.Valid() && me < |p.cuts| && p.Owns(me, idx)
    requires SentBefore(p, me, lmin, send.sets, idx)
    modifies send
    ensures SentBefore(p, me, lmin, send.sets, idx + 1)
  {
    ghost var m0 := send.sets;
    CheckLeftSuccessors(p, me, lmin, idx, idx, send);
    ghost var m1 := send.sets;
    CheckRightSuccessors(p, me, lmin, idx, idx, send);
    forall r, i
      ensures i in SetAt(send.sets, r) <==>
              (p.First(me) <= i < idx + 1 && i <= p.Last(me) && r != me && InSupportOf(p, lmin, r, i))
    {
      SearchedIsSupport(p, lmin, r, idx);
      assert i in SetAt(m0, r)
             <==> (p.First(me) <= i < idx && i <= p.Last(me) && r != me && InSupportOf(p, lmin, r, i));
      assert SetAt(m1, r) == With(SetAt(m0, r), r != me && Hit(p, r, idx - p.Reach(lmin, idx), idx, false), idx);
    }
  }

  /** Points with local support need not be sent, so skipping them is harmless. */
  lemma SkippingIsHarmless(p: Pole, me: nat, lmin: nat, m: map<int, set<int>>, idx: int, next: int)
    requires p.Valid() && me < |p.cuts| && p.Owns(me, idx)
    requires SentBefore(p, me, lmin, m, idx + 1) && SafeAdvance(p, me, lmin, idx, next)
    ensures SentBefore(p, me, lmin, m, next)
  {
    forall r, i | idx < i < next && i <= p.Last(me) && r != me && 0 <= r < |p.cuts|
      ensures !InSupportOf(p, lmin, r, i)
    {
      assert SupportIsLocal(p, me, lmin, i);
      forall j | p.InSupport(lmin, i, j)
        ensures !p.Owns(r, j)
      {
        OwnershipIsExclusive(p, me, r, j);
      }
    }
  }

  /** Every index received so far is an ancestor of a local point. */
  ghost predicate OnlyNeededReceived(p: Pole, me: nat, lmin: nat, m: map<int, set<int>>)
    requires p.Valid()
  {
    forall r, y {:trigger y in SetAt(m, r)} ::
      y in SetAt(m, r) ==> r != me && p.Owns(r, y) && NeededBy(p, lmin, me, y)
  }

  /** What the first point needs on its left and the last point needs on its right is all that the
      local points need from other ranks. */
  lemma EndsNeedEverything(p: Pole, me: nat, lmin: nat, m: map<int, set<int>>, q: nat)
    requires p.Valid() && me < |p.cuts| && q < |p.cuts| && q != me
    requires OnlyNeededReceived(p, me, lmin, m)
    requires LeftComplete(p, me, lmin, m, p.First(me)) && RightComplete(p, me, lmin, m, p.Last(me))
    ensures SetAt(m, q) == Needed(p, lmin, q, me)
  {
    forall y | p.Owns(q, y) && NeededBy(p, lmin, me, y)
      ensures y in SetAt(m, q)
    {
      NeededIsSupport(p, lmin, me, y);
      var j :| p.Owns(me, j) && p.InSupport(lmin, y, j);
      OwnershipIsExclusive(p, q, me, y);
      OwnershipIsExclusive(p, q, 0, y);
      if !p.Covers(lmin, y, j) {
        VirtualPoint(p, lmin);
        assert p.Covers(lmin, p.Length(), p.Last(me));
      }
    }
  }

  /** Both searches together, for all local indices that cannot be skipped.  The send set for rank r
      and the receive set from rank r are given by the same function of sender and receiver, so the
      sets of any two ranks match. */
  method ExchangeData1dDehierarchization(p: Pole, me: nat, lmin: nat) returns (send: IndexSets, recv: IndexSets)
    requires p.Valid() && me < |p.cuts|
    ensures fresh(send) && fresh(recv)
    ensures forall r: nat :: r < |p.cuts| && r != me ==> send.At(r) == Needed(p, lmin, me, r)
    ensures forall r: nat :: r < |p.cuts| && r != me ==> recv.At(r) == Needed(p, lmin, r, me)
    ensures send.At(me) == {} && recv.At(me) == {}
  {
    send := new IndexSets();
    recv := new IndexSets();
    var idx := p.First(me);
    OwnershipIsExclusive(p, me, me, idx);
    while idx <= p.Last(me)
      invariant p.First(me) <= idx
      invariant SentBefore(p, me, lmin, send.sets, idx)
      invariant OnlyNeededReceived(p, me, lmin, recv.sets)
      invariant idx > p.First(me) ==> LeftComplete(p, me, lmin, recv.sets, p.First(me))
      invariant idx > p.Last(me) && lmin < p.lmax ==> RightComplete(p, me, lmin, recv.sets, p.Last(me))
      decreases p.Last(me) - idx
    {
      SendIndex(p, me, lmin, idx, send);
      ghost var m := recv.sets;
      var next := CheckPredecessors(p, me, lmin, idx, recv);
      SkippingIsHarmless(p, me, lmin, send.sets, idx, next);
      StillOnlyNeeded(p, me, lmin, m, recv.sets, idx);
      idx := next;
    }
    if lmin >= p.lmax {
      assert RightComplete(p, me, lmin, recv.sets, p.Last(me));
    }
    forall r: nat | r < |p.cuts| && r != me
      ensures send.At(r) == Needed(p, lmin, me, r)
      ensures recv.At(r) == Needed(p, lmin, r, me)
    {
      EndsNeedEverything(p, me, lmin, recv.sets, r);
      forall i
        ensures NeededBy(p, lmin, r, i) <==> InSupportOf(p, lmin, r, i)
      {
        NeededIsSupport(p, lmin, r, i);
      }
    }
    assert forall i :: i !in SetAt(send.sets, me) && i !in SetAt(recv.sets, me);
  }

  lemma StillOnlyNeeded(p: Pole, me: nat, lmin: nat, m0: map<int, set<int>>, m1: map<int, set<int>>, idx: int)
    requires p.Valid() && me < |p.cuts| && p.Owns(me, idx) && p.InGrid(idx)
    requires OnlyNeededReceived(p, me, lmin, m0) && OnlyAncestorsAdded(p, me, lmin, m0, m1, idx)
    ensures OnlyNeededReceived(p, me, lmin, m1)
  {
    forall r, y | y in SetAt(m1, r)
      ensures r != me && p.Owns(r, y) && NeededBy(p, lmin, me, y)
    {
      if y in SetAt(m0, r) {
      } else {
        assert p.IsAncestor(lmin, y, idx);
      }
    }
  }
}
