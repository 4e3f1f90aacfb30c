/** The exchange for the bases whose kernels read the whole pole: every rank sends all its indices to all others.  And
    which exchange is used before which transform. */
module AllExchange {
  import opened Poles
  import opened SuccessorSearch
  import opened PoleExchange
  import opened DirectExchange
  import opened LocalTransform

  function Owned(p: Pole, q: nat): set<int>
    requires q < |p.cuts|
  {
    set i {:trigger p.Owns(q, i)} | p.First(q) <= i <= p.Last(q) && p.Owns(q, i)
  }

  /** The indices of other ranks below k have been noted for their owners. */
  ghost predicate OthersBelow(p: Pole, me: nat, m: map<int, set<int>>, k: int) {
    forall r, i {:trigger i in SetAt(m, r)} :: i in SetAt(m, r) <==> r != me && p.Owns(r, i) && i < k
  }

  lemma OtherIsNoted(p: Pole, me: nat, m: map<int, set<int>>, k: int, r: nat)
    requires p.Valid() && me < |p.cuts| && OthersBelow(p, me, m, k) && r != me && p.Owns(r, k)
    ensures OthersBelow(p, me, m[r := SetAt(m, r) + {k}], k + 1)
  {
    var more := m[r := SetAt(m, r) + {k}];
    forall s, i
      ensures i in SetAt(more, s) <==> s != me && p.Owns(s, i) && i < k + 1
    {
      assert i in SetAt(m, s) <==> s != me && p.Owns(s, i) && i < k;
      if i == k && p.Owns(s, i) {
        OwnershipIsExclusive(p, s, r, k);
      }
    }
  }

  lemma OwnIsSkipped(p: Pole, me: nat, m: map<int, set<int>>)
    requires p.Valid() && me < |p.cuts| && OthersBelow(p, me, m, p.First(me))
    ensures OthersBelow(p, me, m, p.Last(me) + 1)
  {
    forall r, i
      ensures i in SetAt(m, r) <==> r != me && p.Owns(r, i) && i < p.Last(me) + 1
    {
      assert i in SetAt(m, r) <==> r != me && p.Owns(r, i) && i < p.First(me);
      if r != me && p.Owns(r, i) {
        OwnershipIsExclusive(p, r, me, i);
      }
    }
  }

  /** Notes index i for its owner. */
  method ReceiveIndex(p: Pole, me: nat, i: int, recv: IndexSets)
    requires p.Valid() && me < |p.cuts| && OthersBelow(p, me, recv.sets, i) && p.InGrid(i) && !p.Owns(me, i)
    modifies recv
    ensures OthersBelow(p, me, recv.sets, i + 1)
  {
    var r := p.Neighbor(i);
    if r >= 0 {
      OtherIsNoted(p, me, recv.sets, i, r);
      recv.Insert(r, i);
    }
  }

  ghost predicate IsEmpty(m: map<int, set<int>>) {
    forall r {:trigger SetAt(m, r)} :: SetAt(m, r) == {}
  }

  /** The first n ranks get all indices of rank me. */
  ghost predicate AllSent(p: Pole, me: nat, m: map<int, set<int>>, n: nat)
    requires me < |p.cuts|
  {
    forall r {:trigger SetAt(m, r)} :: SetAt(m, r) == if 0 <= r < n && r != me then Owned(p, me) else {}
  }

  lemma UpdatedSet(m: map<int, set<int>>, r: int, x: set<int>)
    ensures forall q {:trigger SetAt(m[r := x], q)} :: SetAt(m[r := x], q) == if q == r then x else SetAt(m, q)
  {
  }

  lemma NothingBelow(p: Pole, me: nat, m: map<int, set<int>>)
    requires p.Valid() && me < |p.cuts| && IsEmpty(m)
    ensures OthersBelow(p, me, m, 0)
  {
    forall r, i
      ensures i in SetAt(m, r) <==> r != me && p.Owns(r, i) && i < 0
    {
      if p.Owns(r, i) {
        OwnershipIsExclusive(p, r, r, i);
      }
    }
  }

  /** All indices go to all other ranks. */
  method SendAll(p: Pole, me: nat, send: IndexSets, recv: IndexSets)
    requires p.Valid() && me < |p.cuts| && send.sets == map[] && recv.sets == map[] && send != recv
    modifies send, recv
    ensures AllSent(p, me, send.sets, |p.cuts|) && IsEmpty(recv.sets)
  {
    var allMyIndices: set<int> := {};
    OwnershipIsExclusive(p, me, me, p.First(me));
    for i := p.First(me) to p.Last(me) + 1
      invariant forall j :: j in allMyIndices <==> p.First(me) <= j < i
    {
      allMyIndices := allMyIndices + {i};
    }
    assert forall j :: j in allMyIndices <==> p.Owns(me, j);
    for r := 0 to |p.cuts|
      invariant AllSent(p, me, send.sets, r) && IsEmpty(recv.sets)
    {
      UpdatedSet(send.sets, r, allMyIndices);
      UpdatedSet(recv.sets, r, {});
      if r != me {
        send.sets := send.sets[r := allMyIndices];
        recv.sets := recv.sets[r := {}];
      }
    }
  }

  method ExchangeAllData1d(p: Pole, me: nat) returns (send: IndexSets, recv: IndexSets)
    requires p.Valid() && me < |p.cuts|
    ensures fresh(send) && fresh(recv)
    ensures forall r: nat :: r < |p.cuts| && r != me ==> send.At(r) == Owned(p, me) && recv.At(r) == Owned(p, r)
    ensures send.At(me) == {} && recv.At(me) == {}
  {
    send := new IndexSets();
    recv := new IndexSets();
    OwnershipIsExclusive(p, me, me, p.First(me));
    OwnershipIsExclusive(p, me, me, p.Last(me));
    SendAll(p, me, send, recv);
    NothingBelow(p, me, recv.sets);
    for i := 0 to p.First(me)
      invariant OthersBelow(p, me, recv.sets, i) && AllSent(p, me, send.sets, |p.cuts|)
    {
      ReceiveIndex(p, me, i, recv);
    }
    OwnIsSkipped(p, me, recv.sets);
    for i := p.Last(me) + 1 to p.Length()
      invariant OthersBelow(p, me, recv.sets, i) && AllSent(p, me, send.sets, |p.cuts|)
    {
      ReceiveIndex(p, me, i, recv);
    }
    AllOthersNoted(p, me, recv.sets);
  }

  lemma AllOthersNoted(p: Pole, me: nat, m: map<int, set<int>>)
    requires p.Valid() && me < |p.cuts| && OthersBelow(p, me, m, p.Length())
    ensures forall r: nat :: r < |p.cuts| && r != me ==> SetAt(m, r) == Owned(p, r)
    ensures SetAt(m, me) == {}
  {
    forall r: nat | r < |p.cuts| && r != me
      ensures SetAt(m, r) == Owned(p, r)
    {
      forall i
        ensures i in SetAt(m, r) <==> i in Owned(p, r)
      {
        OwnershipIsExclusive(p, r, r, i);
      }
    }
    assert forall i :: i !in SetAt(m, me);
  }

  /** What a rank sends to and receives from the others. */
  datatype Plan = Plan(send: map<int, set<int>>, recv: map<int, set<int>>)

  ghost predicate IsPlan(p: Pole, me: nat, lmin: nat, op: Transform, plan: Plan)
    requires p.Valid() && me < |p.cuts|
  {
    forall r: nat {:trigger SetAt(plan.send, r)} {:trigger SetAt(plan.recv, r)} :: r < |p.cuts| && r != me ==>
      SetAt(plan.send, r) == Required(p, lmin, op, me, r) && SetAt(plan.recv, r) == Required(p, lmin, op, r, me)
  }

  lemma RequiredIsOwned(p: Pole, lmin: nat, op: Transform, q: nat, me: nat)
    requires p.Valid() && q < |p.cuts| && !op.b.Hat?
    ensures Required(p, lmin, op, q, me) == Owned(p, q)
  {
  }

  /** Before the hat transforms only ancestors are exchanged, before the others everything. */
  method PlanExchange(p: Pole, me: nat, lmin: nat, op: Transform) returns (plan: Plan)
    requires p.Valid() && me < |p.cuts|
    ensures IsPlan(p, me, lmin, op, plan)
  {
    var send, recv;
    if !op.b.Hat? {
      send, recv := ExchangeAllData1d(p, me);
      forall r: nat | r < |p.cuts|
        ensures Required(p, lmin, op, me, r) == Owned(p, me) && Required(p, lmin, op, r, me) == Owned(p, r)
      {
        RequiredIsOwned(p, lmin, op, me, r);
        RequiredIsOwned(p, lmin, op, r, me);
      }
    } else if op.Hierarchize? {
      send, recv := ExchangeData1d(p, me, lmin);
    } else {
      send, recv := ExchangeData1dDehierarchization(p, me, lmin);
    }
    plan := Plan(send.sets, recv.sets);
    forall r: nat | r < |p.cuts| && r != me
      ensures SetAt(plan.send, r) == Required(p, lmin, op, me, r) && SetAt(plan.recv, r) == Required(p, lmin, op, r, me)
    {
      assert SetAt(plan.send, r) == send.At(r) && SetAt(plan.recv, r) == recv.At(r);
    }
  }
}
