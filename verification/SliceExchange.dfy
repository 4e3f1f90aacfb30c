/** Sending and receiving the slices of the exchanged indices.  A message holds one block for every index of a set,
    in ascending order; the receiver pairs the blocks with the indices of its own receive set, so both sets must
    be the same. */
module SliceExchange {
  import opened Poles
  import opened LocalTransform
  import opened PoleSweep
  import opened Tensor
  import opened GridAxes
  import opened DistributedGrid
  import opened GridExchange
  import opened Delivery

  /** The indices of a set between low and high, in ascending order. */
  function InOrder(indices: set<int>, low: int, high: int): (list: seq<int>)
    ensures forall x :: x in list <==> x in indices && low <= x < high
    decreases high - low
  {
    if low >= high then [] else (if low in indices then [low] else []) + InOrder(indices, low + 1, high)
  }

  /** The share is the part of a rank in a grid. */
  ghost predicate IsShare(share: Share, d: nat) {
    && Positive(share.extents) && d < |share.extents| == |share.lower|
    && |share.data| == Stride(share.extents, |share.extents|)
  }

  lemma SharePoles(share: Share, d: nat, stride: int, size: int)
    requires IsShare(share, d) && stride == Stride(share.extents, d) && size == |share.data|
    ensures stride > 0 && share.extents[d] > 0 && size / share.extents[d] == HigherPoles(share.extents, d) * stride
    ensures size / share.extents[d] >= 0
  {
    StridePositive(share.extents, d);
    PoleNumberFromLength(stride, share.extents[d], HigherPoles(share.extents, d), size);
  }

  lemma CellInShare(share: Share, d: nat, n: int, i: int)
    requires IsShare(share, d) && 0 <= i < share.extents[d]
    requires 0 <= n < HigherPoles(share.extents, d) * Stride(share.extents, d)
    ensures var l := LocalStart(share.extents, d, n) + Stride(share.extents, d) * i; 0 <= l < |share.data|
  {
    StridePositive(share.extents, d);
    PoleCells(BoxAxis(share.extents, d), n, i, |share.data|, HigherPoles(share.extents, d));
  }

  lemma Offset(stride: int, size: int, n: int, i: int, start: int)
    requires stride > 0 && start == i * stride
    ensures start + (n % stride + (n / stride) * (stride * size)) == PoleStart(stride, size, n) + stride * i
  {
    assert (n / stride) * (stride * size) == stride * (size * (n / stride));
  }

  /** The subarray starts at the index; the coordinates above dimension d move it on by whole planes. */
  method ReadCell(share: Share, d: nat, stride: int, start: int, plane: int, n: int, ghost i: int) returns (value: real)
    requires IsShare(share, d) && 0 <= i < share.extents[d] && stride == Stride(share.extents, d) > 0
    requires start == i * stride && plane == stride * share.extents[d]
    requires 0 <= n < HigherPoles(share.extents, d) * stride
    ensures IsCell(share, d, n, i, value)
  {
    CellInShare(share, d, n, i);
    Offset(stride, share.extents[d], n, i, start);
    value := share.data[start + (n % stride + (n / stride) * plane)];
  }

  /** The subarray at one index: all coordinates but the one along dimension d, first dimension fastest. */
  method PackBlock(share: Share, d: nat, index: int) returns (block: seq<real>)
    requires IsShare(share, d) && share.lower[d] <= index < share.lower[d] + share.extents[d]
    ensures IsSliceOf(share, d, RemoteSlice(index, block))
  {
    var stride := Stride(share.extents, d);
    SharePoles(share, d, stride, |share.data|);
    ghost var i := index - share.lower[d];
    var start := (index - share.lower[d]) * stride;
    var plane := stride * share.extents[d];
    var count := |share.data| / share.extents[d];
    block := [];
    for n := 0 to count
      invariant |block| == n
      invariant forall m {:trigger block[m]} :: 0 <= m < n ==> IsCell(share, d, m, i, block[m])
    {
      var value := ReadCell(share, d, stride, start, plane, n, i);
      block := block + [value];
    }
  }

  /** The blocks of a message belong to the listed indices. */
  ghost predicate AreBlocksOf(share: Share, d: nat, indices: seq<int>, message: seq<seq<real>>) {
    |message| == |indices| && forall k {:trigger message[k]} :: 0 <= k < |message| ==>
      IsSliceOf(share, d, RemoteSlice(indices[k], message[k]))
  }

  method Send(share: Share, d: nat, indices: seq<int>) returns (message: seq<seq<real>>)
    requires IsShare(share, d) && forall x :: x in indices ==> share.lower[d] <= x < share.lower[d] + share.extents[d]
    ensures AreBlocksOf(share, d, indices, message)
  {
    message := [];
    for k := 0 to |indices|
      invariant |message| == k
                && forall j {:trigger message[j]} :: 0 <= j < k ==>
                IsSliceOf(share, d, RemoteSlice(indices[j], message[j]))
    {
      assert indices[k] in indices;
      var block := PackBlock(share, d, indices[k]);
      message := message + [block];
    }
  }

  /** Pairs the blocks with the receiver's own indices. */
  method Receive(indices: seq<int>, message: seq<seq<real>>) returns (slices: seq<RemoteSlice>)
    requires |message| == |indices|
    ensures |slices| == |indices|
            && forall k {:trigger slices[k]} :: 0 <= k < |slices| ==> slices[k] == RemoteSlice(indices[k], message[k])
  {
    slices := [];
    for k := 0 to |indices|
      invariant |slices| == k && forall j {:trigger slices[j]} :: 0 <= j < k ==>
                slices[j] == RemoteSlice(indices[j], message[j])
    {
      slices := slices + [RemoteSlice(indices[k], message[k])];
    }
  }

  /** What has been received from the ranks before rank n. */
  ghost predicate DeliveredFrom(p: Pole, me: nat, lmin: nat, op: Transform, d: nat, shares: seq<Share>,
                                remote: seq<RemoteSlice>, n: nat)
    requires p.Valid() && |shares| == |p.cuts|
  {
    && (forall i {:trigger remote[i]} :: 0 <= i < |remote| ==> IsFromOther(shares, me, d, remote[i]))
    && (forall q, x :: 0 <= q < n && q < |p.cuts| && q != me && x in Required(p, lmin, op, q, me) ==>
          exists i :: 0 <= i < |remote| && remote[i].key == x)
  }

  lemma MoreDelivered(p: Pole, me: nat, lmin: nat, op: Transform, d: nat, shares: seq<Share>, remote: seq<RemoteSlice>,
                      n: nat, slices: seq<RemoteSlice>)
    requires p.Valid() && |shares| == |p.cuts| && n < |shares| && DeliveredFrom(p, me, lmin, op, d, shares, remote, n)
    requires n == me ==> slices == []
    requires forall k {:trigger slices[k]} :: 0 <= k < |slices| ==> IsSliceOf(shares[n], d, slices[k])
    requires n != me ==> forall x :: x in Required(p, lmin, op, n, me) ==>
             exists k :: 0 <= k < |slices| && slices[k].key == x
    ensures DeliveredFrom(p, me, lmin, op, d, shares, remote + slices, n + 1)
  {
    var more := remote + slices;
    forall i | 0 <= i < |more|
      ensures IsFromOther(shares, me, d, more[i])
    {
      if i >= |remote| {
        assert more[i] == slices[i - |remote|];
      } else {
        assert more[i] == remote[i];
      }
    }
    forall q, x | 0 <= q < n + 1 && q < |p.cuts| && q != me && x in Required(p, lmin, op, q, me)
      ensures exists i :: 0 <= i < |more| && more[i].key == x
    {
      if q == n {
        var k :| 0 <= k < |slices| && slices[k].key == x;
        assert more[|remote| + k] == slices[k];
      } else {
        var i :| 0 <= i < |remote| && remote[i].key == x;
        assert more[i] == remote[i];
      }
    }
  }

  /** A rank and its part of the pole. */
  ghost predicate ShareFits(p: Pole, q: nat, share: Share, d: nat)
    requires q < |p.cuts|
  {
    IsShare(share, d) && p.First(q) == share.lower[d] && p.Last(q) == share.lower[d] + share.extents[d] - 1
  }

  lemma RequiredIsOwned(p: Pole, lmin: nat, op: Transform, q: nat, me: nat, x: int)
    requires p.Valid() && q < |p.cuts| && x in Required(p, lmin, op, q, me)
    ensures p.First(q) <= x <= p.Last(q)
  {
  }

  /** The message of one rank: its send set is packed in order and unpacked with the receive set. */
  method ExchangeWith(p: Pole, ghost me: nat, ghost lmin: nat, ghost op: Transform, d: nat, q: nat, share: Share,
                      sent: set<int>, received: set<int>)
    returns (slices: seq<RemoteSlice>)
    requires p.Valid() && q < |p.cuts| && ShareFits(p, q, share, d)
    requires sent == received == Required(p, lmin, op, q, me)
    ensures forall k {:trigger slices[k]} :: 0 <= k < |slices| ==> IsSliceOf(share, d, slices[k])
    ensures forall x :: x in Required(p, lmin, op, q, me) ==> exists k :: 0 <= k < |slices| && slices[k].key == x
  {
    var low, high := share.lower[d], share.lower[d] + share.extents[d];
    var indices := InOrder(received, low, high);
    var message := Send(share, d, InOrder(sent, low, high));
    slices := Receive(indices, message);
    forall x | x in Required(p, lmin, op, q, me)
      ensures exists k :: 0 <= k < |slices| && slices[k].key == x
    {
      RequiredIsOwned(p, lmin, op, q, me, x);
      var k :| 0 <= k < |indices| && indices[k] == x;
      assert slices[k].key == x;
    }
  }

  /** All messages that rank me receives.  sends[q] is what rank q has noted for me, recvs[q] what me has noted for
      q. */
  method SendAndReceiveIndicesBlock(p: Pole, me: nat, ghost lmin: nat, ghost op: Transform, d: nat, shares: seq<Share>,
                                    sends: seq<set<int>>, recvs: seq<set<int>>)
    returns (remote: seq<RemoteSlice>)
    requires p.Valid() && |shares| == |p.cuts| == |sends| == |recvs|
    requires forall q {:trigger shares[q]} :: 0 <= q < |shares| ==> ShareFits(p, q, shares[q], d)
    requires forall q {:trigger sends[q]} {:trigger recvs[q]} :: 0 <= q < |shares| && q != me ==>
               sends[q] == recvs[q] == Required(p, lmin, op, q, me)
    ensures Delivered(p, me, lmin, op, d, shares, remote)
  {
    remote := [];
    for q := 0 to |shares|
      invariant DeliveredFrom(p, me, lmin, op, d, shares, remote, q)
    {
      var slices: seq<RemoteSlice> := [];
      if q != me {
        slices := ExchangeWith(p, me, lmin, op, d, q, shares[q], sends[q], recvs[q]);
      }
      MoreDelivered(p, me, lmin, op, d, shares, remote, q, slices);
      remote := remote + slices;
    }
  }
}
