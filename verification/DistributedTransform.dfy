/** The distributed transform with all its ranks: for every selected dimension the ranks work out what to exchange, send
    and receive slices, and sweep their parts.  Together they compute the transform of the whole grid. */
module DistributedTransform {
  import opened Poles
  import opened SuccessorSearch
  import opened LocalTransform
  import opened PoleSweep
  import opened Tensor
  import opened GridSweep
  import opened GridTransform
  import opened DistributedGrid
  import opened NoBoundaryTransform
  import opened GridExchange
  import opened Delivery
  import opened SliceExchange
  import opened AllExchange
  import opened ProcessGrid

  /** What the ranks store. */
  ghost predicate AreParts(global: Index, dims: seq<Dim>, poles: seq<Pole>, data: seq<seq<real>>) {
    && AreDecompositions(global, dims, poles) && Positive(Counts(poles)) && |data| == Stride(Counts(poles), |poles|)
    && forall r {:trigger data[r]} :: 0 <= r < |data| ==> |data[r]| == Stride(ExtentsOf(poles, r), |poles|)
  }

  ghost predicate HoldsPart(global: Index, dims: seq<Dim>, poles: seq<Pole>, r: int, part: seq<real>, u: seq<real>)
    requires AreDecompositions(global, dims, poles) && IsRank(poles, r)
  {
    PartFits(global, dims, poles, r);
    Holds(global, ExtentsOf(poles, r), LowerOf(poles, r), part, u)
  }

  /** All ranks together hold grid function u. */
  ghost predicate HoldAll(global: Index, dims: seq<Dim>, poles: seq<Pole>, data: seq<seq<real>>, u: seq<real>) {
    && AreDecompositions(global, dims, poles) && Positive(Counts(poles)) && |data| == Stride(Counts(poles), |poles|)
    && |u| == Stride(global, |global|)
    && forall r {:trigger data[r]} :: 0 <= r < |data| ==> HoldsPart(global, dims, poles, r, data[r], u)
  }

  /** The parts of the ranks on the pole of rank r along dimension d. */
  function Line(poles: seq<Pole>, r: int, d: nat, data: seq<seq<real>>): (shares: seq<Share>)
    requires IsRank(poles, r) && d < |poles| && |data| == Stride(Counts(poles), |poles|)
    ensures |shares| == |poles[d].cuts|
  {
    seq(|poles[d].cuts|, q requires 0 <= q < |poles[d].cuts| => ShareAt(poles, r, d, data, q))
  }

  function ShareAt(poles: seq<Pole>, r: int, d: nat, data: seq<seq<real>>, q: nat): Share
    requires IsRank(poles, r) && d < |poles| && |data| == Stride(Counts(poles), |poles|) && q < |poles[d].cuts|
  {
    RankAtCoords(poles, r, d, q);
    var s := RankAt(poles, r, d, q);
    Share(ExtentsOf(poles, s), LowerOf(poles, s), data[s])
  }

  lemma ShareIsHeld(global: Index, dims: seq<Dim>, poles: seq<Pole>, r: int, d: nat, data: seq<seq<real>>, u: seq<real>,
                    q: nat)
    requires HoldAll(global, dims, poles, data, u) && IsRank(poles, r) && d < |poles| && q < |poles[d].cuts|
    ensures HoldsShare(dims[d], poles[d], global, d, ShareAt(poles, r, d, data, q), q, u)
    ensures ShareFits(poles[d], q, ShareAt(poles, r, d, data, q), d)
  {
    RankAtCoords(poles, r, d, q);
    var s := RankAt(poles, r, d, q);
    PartFits(global, dims, poles, s);
    assert HoldsPart(global, dims, poles, s, data[s], u);
  }

  /** The ranks on a pole. */
  lemma LineIsOnPole(global: Index, dims: seq<Dim>, poles: seq<Pole>, r: int, d: nat, data: seq<seq<real>>,
                     u: seq<real>)
    requires HoldAll(global, dims, poles, data, u) && IsRank(poles, r) && d < |poles|
    ensures AreRanksOnPole(dims[d], poles[d], global, d, Line(poles, r, d, data), u)
    ensures forall q {:trigger Line(poles, r, d, data)[q]} :: 0 <= q < |poles[d].cuts| ==>
              ShareFits(poles[d], q, Line(poles, r, d, data)[q], d)
  {
    hide IsRank, ShareFits, HoldsShare, OnSamePole;
    var shares := Line(poles, r, d, data);
    forall q | 0 <= q < |shares|
      ensures HoldsShare(dims[d], poles[d], global, d, shares[q], q, u) && ShareFits(poles[d], q, shares[q], d)
    {
      ShareIsHeld(global, dims, poles, r, d, data, u, q);
    }
    forall q, s | 0 <= q < |shares| && 0 <= s < |shares|
      ensures OnSamePole(global, shares[q].extents, shares[q].lower, shares[s].extents, shares[s].lower, d)
    {
      OnOneLine(global, dims, poles, r, d, q, s);
    }
  }

  lemma OwnShare(poles: seq<Pole>, r: int, d: nat, data: seq<seq<real>>)
    requires IsRank(poles, r) && d < |poles| && |data| == Stride(Counts(poles), |poles|)
    ensures var me := CoordsOf(poles, r)[d];
            me < |poles[d].cuts| && Line(poles, r, d, data)[me]
              == Share(ExtentsOf(poles, r), LowerOf(poles, r), data[r])
  {
    OwnPlace(poles, r, d);
  }

  /** Every rank's plan for the exchange along dimension d. */
  ghost predicate ArePlans(poles: seq<Pole>, d: nat, lmin: nat, op: Transform, plans: seq<Plan>, n: nat)
    requires d < |poles| && poles[d].Valid()
  {
    && n <= |plans|
    && forall r {:trigger plans[r]} :: 0 <= r < n && IsRank(poles, r) ==>
      IsPlan(poles[d], CoordsOf(poles, r)[d], lmin, op, plans[r])
  }

  /** Every rank works out its plan for itself. */
  method PlanAll(poles: seq<Pole>, d: nat, lmin: nat, op: Transform) returns (plans: seq<Plan>)
    requires d < |poles| && poles[d].Valid() && Positive(Counts(poles)) && Stride(Counts(poles), |poles|) >= 0
    ensures |plans| == Stride(Counts(poles), |poles|) && ArePlans(poles, d, lmin, op, plans, |plans|)
  {
    plans := [];
    for r := 0 to Stride(Counts(poles), |poles|)
      invariant |plans| == r && ArePlans(poles, d, lmin, op, plans, r)
    {
      var plan := PlanExchange(poles[d], CoordsOf(poles, r)[d], lmin, op);
      plans := plans + [plan];
    }
  }

  /** What the other ranks on the pole have noted for rank r, and r for them. */
  function SentTo(poles: seq<Pole>, r: int, d: nat, plans: seq<Plan>): (sends: seq<set<int>>)
    requires IsRank(poles, r) && d < |poles| && |plans| == Stride(Counts(poles), |poles|)
    ensures |sends| == |poles[d].cuts|
  {
    var me := CoordsOf(poles, r)[d];
    seq(|poles[d].cuts|, q requires 0 <= q < |poles[d].cuts| =>
      (RankAtCoords(poles, r, d, q); SetAt(plans[RankAt(poles, r, d, q)].send, me)))
  }

  function ReceivedFrom(poles: seq<Pole>, r: int, d: nat, plans: seq<Plan>): (recvs: seq<set<int>>)
    requires IsRank(poles, r) && d < |poles| && |plans| == Stride(Counts(poles), |poles|)
    ensures |recvs| == |poles[d].cuts|
  {
    seq(|poles[d].cuts|, q requires 0 <= q < |poles[d].cuts| => SetAt(plans[r].recv, q))
  }

  lemma PlansMatch(poles: seq<Pole>, r: int, d: nat, lmin: nat, op: Transform, plans: seq<Plan>, q: nat)
    requires IsRank(poles, r) && d < |poles| && poles[d].Valid() && |plans| == Stride(Counts(poles), |poles|)
    requires ArePlans(poles, d, lmin, op, plans, |plans|) && q < |poles[d].cuts| && q != CoordsOf(poles, r)[d]
    ensures SentTo(poles, r, d, plans)[q] == ReceivedFrom(poles, r, d, plans)[q]
            == Required(poles[d], lmin, op, q, CoordsOf(poles, r)[d])
  {
    RankAtCoords(poles, r, d, q);
    var s := RankAt(poles, r, d, q);
    assert IsPlan(poles[d], CoordsOf(poles, s)[d], lmin, op, plans[s])
           && IsPlan(poles[d], CoordsOf(poles, r)[d], lmin, op, plans[r]);
  }

  /** What rank r receives along dimension d. */
  ghost predicate HasReceived(global: Index, dims: seq<Dim>, poles: seq<Pole>, r: int, d: nat, forward: bool,
                              remote: seq<RemoteSlice>, u: seq<real>)
    requires AreDecompositions(global, dims, poles) && IsRank(poles, r) && d < |poles|
             && |u| == Stride(global, |global|)
  {
    PartFits(global, dims, poles, r);
    var me, extents, lower := CoordsOf(poles, r)[d], ExtentsOf(poles, r), LowerOf(poles, r);
    var count := HigherPoles(extents, d) * Stride(extents, d);
    if dims[d].boundary > 0 then ReceivedPoles(dims[d], poles[d], me, global, extents, lower, d, forward, remote, count,
                                               u)
    else ReceivedInner(dims[d], poles[d], me, global, extents, lower, d, forward, remote, count, u)
  }

  lemma DeliveredToRank(global: Index, dims: seq<Dim>, poles: seq<Pole>, r: int, d: nat, forward: bool,
                        data: seq<seq<real>>, remote: seq<RemoteSlice>, u: seq<real>)
    requires HoldAll(global, dims, poles, data, u) && IsRank(poles, r) && d < |poles|
    requires Delivered(poles[d], CoordsOf(poles, r)[d], dims[d].lmin, TransformOf(dims[d], forward), d,
                       Line(poles, r, d, data), remote)
    ensures HasReceived(global, dims, poles, r, d, forward, remote, u)
  {
    var me, shares := CoordsOf(poles, r)[d], Line(poles, r, d, data);
    LineIsOnPole(global, dims, poles, r, d, data, u);
    OwnShare(poles, r, d, data);
    PartFits(global, dims, poles, r);
    if dims[d].boundary > 0 {
      DeliveredIsReceived(dims[d], poles[d], me, global, d, forward, shares, remote, u);
    } else {
      assert TransformOf(dims[d], forward) == HatOf(forward) && dims[d].lmin == 0;
      DeliveredIsReceivedInner(dims[d], poles[d], me, global, d, forward, shares, remote, u);
    }
  }

  /** The exchange of rank r along dimension d. */
  method ExchangeOne(dims: seq<Dim>, poles: seq<Pole>, ghost global: Index, r: nat, d: nat, forward: bool,
                     data: seq<seq<real>>, plans: seq<Plan>, ghost u: seq<real>)
    returns (remote: seq<RemoteSlice>)
    requires HoldAll(global, dims, poles, data, u) && r < |data| && d < |poles| && |plans| == |data|
    requires ArePlans(poles, d, dims[d].lmin, TransformOf(dims[d], forward), plans, |plans|)
    ensures HasReceived(global, dims, poles, r, d, forward, remote, u)
  {
    assert poles[d].Valid();
    var me := CoordsOf(poles, r)[d];
    var shares, sends, recvs := Line(poles, r, d, data), SentTo(poles, r, d, plans), ReceivedFrom(poles, r, d, plans);
    LineIsOnPole(global, dims, poles, r, d, data, u);
    forall q: nat | q < |poles[d].cuts| && q != me
      ensures sends[q] == recvs[q] == Required(poles[d], dims[d].lmin, TransformOf(dims[d], forward), q, me)
    {
      PlansMatch(poles, r, d, dims[d].lmin, TransformOf(dims[d], forward), plans, q);
    }
    remote := SendAndReceiveIndicesBlock(poles[d], me, dims[d].lmin, TransformOf(dims[d], forward), d, shares, sends,
                                         recvs);
    DeliveredToRank(global, dims, poles, r, d, forward, data, remote, u);
  }

  ghost predicate AllReceived(global: Index, dims: seq<Dim>, poles: seq<Pole>, d: nat, forward: bool,
                              remotes: seq<seq<RemoteSlice>>, u: seq<real>, n: nat)
    requires AreDecompositions(global, dims, poles) && d < |poles| && |u| == Stride(global, |global|)
  {
    n <= |remotes| && forall r {:trigger remotes[r]} :: 0 <= r < n && IsRank(poles, r) ==>
      HasReceived(global, dims, poles, r, d, forward, remotes[r], u)
  }

  lemma MoreReceived(global: Index, dims: seq<Dim>, poles: seq<Pole>, d: nat, forward: bool,
                     remotes: seq<seq<RemoteSlice>>, u: seq<real>, remote: seq<RemoteSlice>)
    requires AreDecompositions(global, dims, poles) && d < |poles| && |u| == Stride(global, |global|)
    requires AllReceived(global, dims, poles, d, forward, remotes, u, |remotes|)
    requires IsRank(poles, |remotes|) ==> HasReceived(global, dims, poles, |remotes|, d, forward, remote, u)
    ensures AllReceived(global, dims, poles, d, forward, remotes + [remote], u, |remotes| + 1)
  {
    var more := remotes + [remote];
    forall r | 0 <= r < |remotes| + 1 && IsRank(poles, r)
      ensures HasReceived(global, dims, poles, r, d, forward, more[r], u)
    {
      if r < |remotes| {
        assert more[r] == remotes[r];
      }
    }
  }

  /** All ranks exchange what they need before they sweep dimension d. */
  method ExchangeAll(dims: seq<Dim>, poles: seq<Pole>, ghost global: Index, d: nat, forward: bool, data: seq<seq<real>>,
                     ghost u: seq<real>)
    returns (remotes: seq<seq<RemoteSlice>>)
    requires HoldAll(global, dims, poles, data, u) && d < |poles|
    ensures |remotes| == |data| && AllReceived(global, dims, poles, d, forward, remotes, u, |remotes|)
  {
    assert poles[d].Valid();
    var plans := PlanAll(poles, d, dims[d].lmin, TransformOf(dims[d], forward));
    remotes := [];
    for r := 0 to |data|
      invariant |remotes| == r && AllReceived(global, dims, poles, d, forward, remotes, u, r)
    {
      var remote := ExchangeOne(dims, poles, global, r, d, forward, data, plans, u);
      MoreReceived(global, dims, poles, d, forward, remotes, u, remote);
      remotes := remotes + [remote];
    }
  }
}
