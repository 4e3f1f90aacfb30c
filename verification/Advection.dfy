/** Whole runs of the advection task.  The ranks only exchange ghost layers, yet together they compute the
    steps of the upwind stencil on the whole grid.  These keep the total mass, and with a time step of at least
    zero that passes the step size check they keep the values between the initial bounds. */
module Advection {
  import opened Tensor
  import opened GridAxes
  import opened DistributedGrid
  import opened GridExchange
  import opened LocalUpwind
  import opened UpwindGrid

  /** The box of the grid that one rank stores. */
  datatype Part = Part(extents: Index, lower: Index)

  predicate Fits(global: Index, part: Part) {
    IsInside(global, part.extents, part.lower)
  }

  /** The neighbour that sends its highest layer to a part, around the periodic boundary. */
  ghost predicate IsLowerNeighbour(global: Index, sender: Part, receiver: Part, d: nat) {
    && OnSamePole(global, sender.extents, sender.lower, receiver.extents, receiver.lower, d)
    && var top := sender.lower[d] + sender.extents[d];
       if receiver.lower[d] == 0 then top == global[d] else top == receiver.lower[d]
  }

  /** The cell of local pole n in layer i. */
  ghost function CellInLayer(extents: Index, d: nat, n: int, i: int): int
    requires Positive(extents) && d < |extents|
  {
    LocalStart(extents, d, n) + Stride(extents, d) * i
  }

  /** The cell of local pole n in the highest layer. */
  ghost function TopCell(extents: Index, d: nat, n: int): int
    requires Positive(extents) && d < |extents|
  {
    CellInLayer(extents, d, n, extents[d] - 1)
  }

  lemma TopCellInPart(part: Part, d: nat, n: int)
    requires Positive(part.extents) && d < |part.extents| == |part.lower|
    requires 0 <= n < HigherPoles(part.extents, d) * Stride(part.extents, d)
    ensures 0 <= TopCell(part.extents, d, n) < Stride(part.extents, |part.extents|)
  {
    var extents := part.extents;
    CellOfPole(extents, extents, seq(|extents|, _ => 0), d, HigherPoles(extents, d),
               HigherPoles(extents, d) * Stride(extents, d), n, extents[d] - 1);
  }

  /** The highest layer of a part, in the order in which it is packed for sending. */
  ghost function UpperLayer(part: Part, d: nat, e: seq<real>): (layer: seq<real>)
    requires Positive(part.extents) && d < |part.extents| == |part.lower| && |e| == Stride(part.extents, |part.extents|)
    ensures |layer| == HigherPoles(part.extents, d) * Stride(part.extents, d)
  {
    seq(HigherPoles(part.extents, d) * Stride(part.extents, d),
        n requires 0 <= n < HigherPoles(part.extents, d) * Stride(part.extents, d) =>
      TopCellInPart(part, d, n);
      e[TopCell(part.extents, d, n)])
  }

  lemma StartInPart(global: Index, part: Part, d: nat, higher: int, count: int, n: int)
    requires Fits(global, part) && d < |global| && PoleCount(part.extents, d, higher, count) && 0 <= n < count
    ensures 0 <= LocalStart(part.extents, d, n) < Stride(part.extents, |global|)
  {
    CellOfPole(global, part.extents, part.lower, d, higher, count, n, 0);
    StartBounds(part.extents, d, n);
  }

  /** Both ranks see the same pole under number n. */
  lemma SamePole(global: Index, sender: Part, receiver: Part, d: nat, higher: int, count: int, n: int, x: int)
    requires OnSamePole(global, sender.extents, sender.lower, receiver.extents, receiver.lower, d) && 0 <= x < global[d]
    requires PoleCount(sender.extents, d, higher, count) && PoleCount(receiver.extents, d, higher, count)
             && 0 <= n < count
    ensures BoxAxis(global, d).Valid()
    ensures BoxAxis(global, d).Move(GlobalStart(global, sender.extents, sender.lower, d, n), x)
            == BoxAxis(global, d).Move(GlobalStart(global, receiver.extents, receiver.lower, d, n), x)
  {
    StartInPart(global, sender, d, higher, count, n);
    StartInPart(global, receiver, d, higher, count, n);
    SamePoleNumber(global, sender.extents, sender.lower, receiver.extents, receiver.lower, d, n, x);
  }

  lemma CellOnSamePole(global: Index, sender: Part, receiver: Part, d: nat, higher: int, count: int, n: int, i: int)
    requires OnSamePole(global, sender.extents, sender.lower, receiver.extents, receiver.lower, d)
             && 0 <= i < sender.extents[d]
    requires PoleCount(sender.extents, d, higher, count) && PoleCount(receiver.extents, d, higher, count)
             && 0 <= n < count
    ensures BoxAxis(global, d).Valid() && 0 <= CellInLayer(sender.extents, d, n, i) < Stride(sender.extents, |global|)
    ensures GlobalOf(global, sender.extents, sender.lower, CellInLayer(sender.extents, d, n, i))
            == BoxAxis(global, d).Move(GlobalStart(global, receiver.extents, receiver.lower, d, n), sender.lower[d] + i)
  {
    CellInPart(global, sender, d, higher, count, n, i);
    SamePole(global, sender, receiver, d, higher, count, n, sender.lower[d] + i);
  }

  lemma CellInPart(global: Index, part: Part, d: nat, higher: int, count: int, n: int, i: int)
    requires Fits(global, part) && d < |global| && PoleCount(part.extents, d, higher, count) && 0 <= n < count
             && 0 <= i < part.extents[d]
    ensures BoxAxis(global, d).Valid() && 0 <= CellInLayer(part.extents, d, n, i) < Stride(part.extents, |global|)
    ensures GlobalOf(global, part.extents, part.lower, CellInLayer(part.extents, d, n, i))
            == BoxAxis(global, d).Move(GlobalStart(global, part.extents, part.lower, d, n), part.lower[d] + i)
  {
    var l := LocalStart(part.extents, d, n) + Stride(part.extents, d) * i;
    assert CellInLayer(part.extents, d, n, i) == l;
    CellOfPole(global, part.extents, part.lower, d, higher, count, n, i);
    assert GlobalOf(global, part.extents, part.lower, l)
           == GlobalOf(global, part.extents, part.lower, CellInLayer(part.extents, d, n, i));
  }

  /** The top cell of the sender's pole n is the cell below the receiver's pole n. */
  lemma TopCellIsPrevious(global: Index, sender: Part, receiver: Part, d: nat, n: int)
    requires IsLowerNeighbour(global, sender, receiver, d)
    requires 0 <= n < HigherPoles(receiver.extents, d) * Stride(receiver.extents, d)
    ensures 0 <= TopCell(sender.extents, d, n) < Stride(sender.extents, |global|)
    ensures GlobalOf(global, sender.extents, sender.lower, TopCell(sender.extents, d, n))
            == Previous(global, d, GlobalStart(global, receiver.extents, receiver.lower, d, n))
  {
    SameHigherPoles(sender.extents, receiver.extents, d);
    var higher := HigherPoles(receiver.extents, d);
    CellOnSamePole(global, sender, receiver, d, higher, higher * Stride(receiver.extents, d), n, sender.extents[d] - 1);
    StartCoordinate(global, receiver, d, n);
    PreviousOfLowest(global, d, GlobalStart(global, receiver.extents, receiver.lower, d, n), receiver.lower[d],
                     sender.lower[d] + (sender.extents[d] - 1));
  }

  lemma PreviousOfLowest(global: Index, d: nat, g: int, low: int, below: int)
    requires Positive(global) && d < |global| && BoxAxis(global, d).Valid() && BoxAxis(global, d).Coordinate(g) == low
    requires below == (if low == 0 then global[d] else low) - 1
    ensures Previous(global, d, g) == BoxAxis(global, d).Move(g, below)
  {
  }

  lemma StartCoordinate(global: Index, part: Part, d: nat, n: int)
    requires Fits(global, part) && d < |global| && 0 <= n < HigherPoles(part.extents, d) * Stride(part.extents, d)
    ensures BoxAxis(global, d).Valid()
    ensures BoxAxis(global, d).Coordinate(GlobalStart(global, part.extents, part.lower, d, n)) == part.lower[d]
  {
    LocalFits(part.extents, d);
    LowestLayer(BoxAxis(part.extents, d), HigherPoles(part.extents, d), Stride(part.extents, |global|), n);
    CoordinateOfGlobal(global, part.extents, part.lower, d, LocalStart(part.extents, d, n));
  }

  /** What the lower neighbour sends is the ghost layer of the receiver. */
  lemma LayerArrives(global: Index, sender: Part, receiver: Part, d: nat, sent: seq<real>, u: seq<real>)
    requires IsLowerNeighbour(global, sender, receiver, d) && Holds(global, sender.extents, sender.lower, sent, u)
    ensures IsGhostLayer(global, receiver.extents, receiver.lower, d, UpperLayer(sender, d, sent), u)
  {
    var layer := UpperLayer(sender, d, sent);
    SameHigherPoles(sender.extents, receiver.extents, d);
    forall n | 0 <= n < |layer|
      ensures var g := Previous(global, d, GlobalStart(global, receiver.extents, receiver.lower, d, n));
              0 <= g < |u| && layer[n] == u[g]
    {
      TopCellIsPrevious(global, sender, receiver, d, n);
      assert layer[n] == sent[TopCell(sender.extents, d, n)];
      HeldCell(global, sender.extents, sender.lower, sent, u, TopCell(sender.extents, d, n));
    }
  }

  /** Steps of the stencil on the whole grid. */
  ghost function UpwindSteps(global: Index, u: seq<real>, oneOverH: seq<real>, dt: real, n: nat): (v: seq<real>)
    requires Positive(global) && |u| == Stride(global, |global|) && |global| == |oneOverH|
    ensures |v| == |u|
  {
    if n == 0 then u else Upwind(global, UpwindSteps(global, u, oneOverH, dt, n - 1), oneOverH, dt)
  }

  /** Ghost layers of the right sizes for every step. */
  ghost predicate HaveLayersFor(extents: Index, size: nat, received: seq<seq<seq<real>>>) {
    && Positive(extents) && size == Stride(extents, |extents|)
    && forall i {:trigger received[i]} :: 0 <= i < |received| ==> HaveSizes(extents, received[i])
  }

  /** What a rank holds after n steps with the ghost layers that it has received. */
  ghost function RankSteps(extents: Index, e: seq<real>, received: seq<seq<seq<real>>>, oneOverH: seq<real>, dt: real,
                           n: nat): (r: seq<real>)
    requires HaveLayersFor(extents, |e|, received) && n <= |received| && |extents| == |oneOverH|
    ensures |r| == |e|
  {
    if n == 0 then e
    else RankStep(extents, RankSteps(extents, e, received, oneOverH, dt, n - 1), received[n - 1], oneOverH, dt)
  }

  /** The run of one rank: in every step the new values are computed in the second buffer, then the buffers
      change places. */
  method Run(extents: Index, data: array<real>, phi: array<real>, received: seq<seq<seq<real>>>, oneOverH: seq<real>,
             dt: real, nsteps: nat)
    returns (newData: array<real>)
    requires HaveLayersFor(extents, data.Length, received) && nsteps == |received| && |extents| == |oneOverH|
    requires phi != data && phi.Length == data.Length
    modifies data, phi
    ensures newData.Length == data.Length
    ensures newData[..] == RankSteps(extents, old(data[..]), received, oneOverH, dt, nsteps)
  {
    ghost var e := data[..];
    var current, other := data, phi;
    for i := 0 to nsteps
      invariant {current, other} == {data, phi} && current != other && current.Length == other.Length == |e|
      invariant current[..] == RankSteps(extents, e, received, oneOverH, dt, i)
    {
      current, other := TimeStep(extents, current, other, received[i], oneOverH, dt);
    }
    newData := current;
  }

  /** All ranks: their parts and, for every dimension, the rank whose highest layer they receive. */
  datatype Ranks = Ranks(parts: seq<Part>, below: seq<seq<nat>>)

  ghost predicate AreRanks(global: Index, ranks: Ranks) {
    && |ranks.parts| == |ranks.below|
    && (forall r {:trigger ranks.parts[r]} :: 0 <= r < |ranks.parts| ==> Fits(global, ranks.parts[r]))
    && forall r {:trigger ranks.below[r]} :: 0 <= r < |ranks.below| ==> HasNeighbours(global, ranks, r)
  }

  ghost predicate HasNeighbours(global: Index, ranks: Ranks, r: nat)
    requires r < |ranks.parts| == |ranks.below|
  {
    && |ranks.below[r]| == |global|
    && forall d {:trigger ranks.below[r][d]} :: 0 <= d < |global| ==>
         ranks.below[r][d] < |ranks.parts|
           && IsLowerNeighbour(global, ranks.parts[ranks.below[r][d]], ranks.parts[r], d)
  }

  /** Every rank stores its part of the grid. */
  ghost predicate FitData(global: Index, ranks: Ranks, data: seq<seq<real>>) {
    && AreRanks(global, ranks) && |data| == |ranks.parts|
    && forall r {:trigger data[r]} :: 0 <= r < |data| ==> |data[r]| == Stride(ranks.parts[r].extents, |global|)
  }

  /** What rank r receives along dimension d. */
  ghost function LayerOf(global: Index, ranks: Ranks, data: seq<seq<real>>, r: nat, d: nat): (layer: seq<real>)
    requires FitData(global, ranks, data) && r < |data| && d < |global|
    ensures |layer| == HigherPoles(ranks.parts[r].extents, d) * Stride(ranks.parts[r].extents, d)
  {
    assert HasNeighbours(global, ranks, r);
    var s := ranks.below[r][d];
    SameHigherPoles(ranks.parts[s].extents, ranks.parts[r].extents, d);
    UpperLayer(ranks.parts[s], d, data[s])
  }

  ghost function LayersOf(global: Index, ranks: Ranks, data: seq<seq<real>>, r: nat): (layers: seq<seq<real>>)
    requires FitData(global, ranks, data) && r < |data|
    ensures HaveLayers(ranks.parts[r].extents, data[r], layers)
  {
    assert Fits(global, ranks.parts[r]);
    seq(|global|, d requires 0 <= d < |global| => LayerOf(global, ranks, data, r, d))
  }

  /** One step of rank r with what the others send. */
  ghost function StepOf(global: Index, ranks: Ranks, data: seq<seq<real>>, oneOverH: seq<real>, dt: real,
                        r: nat): (e: seq<real>)
    requires FitData(global, ranks, data) && |oneOverH| == |global| && r < |data|
    ensures |e| == |data[r]|
  {
    assert Fits(global, ranks.parts[r]);
    RankStep(ranks.parts[r].extents, data[r], LayersOf(global, ranks, data, r), oneOverH, dt)
  }

  /** What all ranks hold after n steps. */
  ghost function AllSteps(global: Index, ranks: Ranks, data: seq<seq<real>>, oneOverH: seq<real>, dt: real,
                          n: nat): (after: seq<seq<real>>)
    requires FitData(global, ranks, data) && |oneOverH| == |global|
    ensures FitData(global, ranks, after)
  {
    if n == 0 then data
    else
      var before := AllSteps(global, ranks, data, oneOverH, dt, n - 1);
      seq(|data|, r requires 0 <= r < |data| => StepOf(global, ranks, before, oneOverH, dt, r))
  }

  /** The ghost layers that rank r receives in the first n steps. */
  ghost function ReceivedBy(global: Index, ranks: Ranks, data: seq<seq<real>>, oneOverH: seq<real>, dt: real, r: nat,
                            n: nat)
    : (received: seq<seq<seq<real>>>)
    requires FitData(global, ranks, data) && |oneOverH| == |global| && r < |data|
    ensures |received| == n && HaveLayersFor(ranks.parts[r].extents, |data[r]|, received)
  {
    assert Fits(global, ranks.parts[r]);
    seq(n, i requires 0 <= i < n => LayersOf(global, ranks, AllSteps(global, ranks, data, oneOverH, dt, i), r))
  }

  lemma LastStepOfRank(extents: Index, e: seq<real>, received: seq<seq<seq<real>>>, oneOverH: seq<real>, dt: real,
                       n: nat)
    requires HaveLayersFor(extents, |e|, received) && 0 < n <= |received| && |extents| == |oneOverH|
    ensures HaveLayers(extents, RankSteps(extents, e, received, oneOverH, dt, n - 1), received[n - 1])
    ensures RankSteps(extents, e, received, oneOverH, dt, n)
            == RankStep(extents, RankSteps(extents, e, received, oneOverH, dt, n - 1), received[n - 1], oneOverH, dt)
  {
  }

  lemma LastStepOfAll(global: Index, ranks: Ranks, data: seq<seq<real>>, oneOverH: seq<real>, dt: real, r: nat, n: nat,
                      i: nat)
    requires FitData(global, ranks, data) && |oneOverH| == |global| && r < |data| && 0 < i <= n
    ensures |ranks.parts[r].extents| == |global|
    ensures var before := AllSteps(global, ranks, data, oneOverH, dt, i - 1);
            HaveLayers(ranks.parts[r].extents, before[r], ReceivedBy(global, ranks, data, oneOverH, dt, r, n)[i - 1])
            && AllSteps(global, ranks, data, oneOverH, dt, i)[r]
               == RankStep(ranks.parts[r].extents, before[r],
                           ReceivedBy(global, ranks, data, oneOverH, dt, r, n)[i - 1], oneOverH, dt)
  {
    hide RankStep, LayersOf, Stride;
    assert Fits(global, ranks.parts[r]);
  }

  lemma NoStepOfAll(global: Index, ranks: Ranks, data: seq<seq<real>>, oneOverH: seq<real>, dt: real, r: nat, n: nat)
    requires FitData(global, ranks, data) && |oneOverH| == |global| && r < |data|
    ensures r < |ranks.parts| && |ranks.parts[r].extents| == |global|
    ensures RankSteps(ranks.parts[r].extents, data[r], ReceivedBy(global, ranks, data, oneOverH, dt, r, n), oneOverH,
                      dt, 0) == data[r]
    ensures AllSteps(global, ranks, data, oneOverH, dt, 0)[r] == data[r]
  {
    hide RankStep, LayersOf, Stride;
    assert Fits(global, ranks.parts[r]);
  }

  /** The run of one rank with these layers is its share of the run of all ranks. */
  lemma {:induction false} RankRunsAlong(global: Index, ranks: Ranks, data: seq<seq<real>>, oneOverH: seq<real>,
                                         dt: real, r: nat, n: nat, i: nat)
    requires FitData(global, ranks, data) && |oneOverH| == |global| && r < |data| && i <= n
    ensures |ranks.parts[r].extents| == |oneOverH|
    ensures RankSteps(ranks.parts[r].extents, data[r], ReceivedBy(global, ranks, data, oneOverH, dt, r, n), oneOverH,
                      dt, i)
            == AllSteps(global, ranks, data, oneOverH, dt, i)[r]
  {
    hide *;
    NoStepOfAll(global, ranks, data, oneOverH, dt, r, n);
    if i > 0 {
      RankRunsAlong(global, ranks, data, oneOverH, dt, r, n, i - 1);
      LastStepOfRank(ranks.parts[r].extents, data[r], ReceivedBy(global, ranks, data, oneOverH, dt, r, n), oneOverH, dt,
                     i);
      LastStepOfAll(global, ranks, data, oneOverH, dt, r, n, i);
    }
  }

  /** Together the ranks hold the grid function u. */
  ghost predicate HoldTogether(global: Index, ranks: Ranks, data: seq<seq<real>>, u: seq<real>)
    requires AreRanks(global, ranks)
  {
    && |data| == |ranks.parts|
    && forall r {:trigger data[r]} {:trigger ranks.parts[r]} :: 0 <= r < |data| ==>
         Holds(global, ranks.parts[r].extents, ranks.parts[r].lower, data[r], u)
  }

  lemma StepTogether(global: Index, ranks: Ranks, data: seq<seq<real>>, oneOverH: seq<real>, dt: real, u: seq<real>,
                     r: nat)
    requires FitData(global, ranks, data) && HoldTogether(global, ranks, data, u) && |oneOverH| == |global|
             && r < |data|
    requires Positive(global) && |u| == Stride(global, |global|)
    ensures Holds(global, ranks.parts[r].extents, ranks.parts[r].lower, StepOf(global, ranks, data, oneOverH, dt, r),
                  Upwind(global, u, oneOverH, dt))
  {
    var part, layers := ranks.parts[r], LayersOf(global, ranks, data, r);
    forall d | 0 <= d < |layers|
      ensures IsGhostLayer(global, part.extents, part.lower, d, layers[d], u)
    {
      assert HasNeighbours(global, ranks, r);
      var s := ranks.below[r][d];
      LayerArrives(global, ranks.parts[s], part, d, data[s], u);
    }
    PartOfUpwind(global, part.extents, part.lower, data[r], layers, u, oneOverH, dt,
                 StepOf(global, ranks, data, oneOverH, dt, r));
  }

  lemma NextOfAll(global: Index, ranks: Ranks, data: seq<seq<real>>, oneOverH: seq<real>, dt: real, u: seq<real>,
                  n: nat, r: nat)
    requires FitData(global, ranks, data) && |oneOverH| == |global| && n > 0 && r < |data|
    requires Positive(global) && |u| == Stride(global, |global|)
    ensures AllSteps(global, ranks, data, oneOverH, dt, n)[r]
            == StepOf(global, ranks, AllSteps(global, ranks, data, oneOverH, dt, n - 1), oneOverH, dt, r)
    ensures UpwindSteps(global, u, oneOverH, dt, n)
            == Upwind(global, UpwindSteps(global, u, oneOverH, dt, n - 1), oneOverH, dt)
  {
    hide StepOf, Upwind, Stride;
  }

  lemma NoStepYet(global: Index, ranks: Ranks, data: seq<seq<real>>, oneOverH: seq<real>, dt: real, u: seq<real>)
    requires FitData(global, ranks, data) && |oneOverH| == |global| && Positive(global)
             && |u| == Stride(global, |global|)
    ensures AllSteps(global, ranks, data, oneOverH, dt, 0) == data && UpwindSteps(global, u, oneOverH, dt, 0) == u
  {
  }

  /** Every run of the ranks computes the steps of the upwind stencil on the whole grid. */
  lemma {:induction false} RunIsUpwind(global: Index, ranks: Ranks, data: seq<seq<real>>, oneOverH: seq<real>, dt: real,
                                       u: seq<real>, n: nat)
    requires FitData(global, ranks, data) && HoldTogether(global, ranks, data, u) && |oneOverH| == |global|
    requires Positive(global) && |u| == Stride(global, |global|)
    ensures HoldTogether(global, ranks, AllSteps(global, ranks, data, oneOverH, dt, n),
                         UpwindSteps(global, u, oneOverH, dt, n))
  {
    hide AllSteps, UpwindSteps, StepOf, Upwind, Holds, Stride;
    if n > 0 {
      RunIsUpwind(global, ranks, data, oneOverH, dt, u, n - 1);
      var before, v := AllSteps(global, ranks, data, oneOverH, dt, n - 1), UpwindSteps(global, u, oneOverH, dt, n - 1);
      forall r | 0 <= r < |data|
        ensures Holds(global, ranks.parts[r].extents, ranks.parts[r].lower,
                      AllSteps(global, ranks, data, oneOverH, dt, n)[r], UpwindSteps(global, u, oneOverH, dt, n))
      {
        StepTogether(global, ranks, before, oneOverH, dt, v, r);
        NextOfAll(global, ranks, data, oneOverH, dt, u, n, r);
      }
    } else {
      NoStepYet(global, ranks, data, oneOverH, dt, u);
    }
  }
}
