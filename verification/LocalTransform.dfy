/** A rank transforms a whole pole of which it knows only some cells.  The cells it owns come out as
    if it had known all of them. */
module LocalTransform {
  import opened Dyadic
  import opened Poles
  import opened Ancestry
  import opened SuccessorSearch
  import opened PoleExchange
  import opened DirectExchange
  import opened Lifting
  import opened Bases

  ghost predicate Agree(u: seq<real>, v: seq<real>, cells: iset<int>) {
    |u| == |v| && forall x {:trigger u[x]} {:trigger v[x]} :: 0 <= x < |u| && x in cells ==> u[x] == v[x]
  }

  /** Predict keeps agreement on a set of cells that contains the neighbours of its targets. */
  lemma PredictAgrees(lmax: nat, s: Step, u: seq<real>, v: seq<real>, before: iset<int>, after: iset<int>)
    requires Fits(lmax, s) && s.Predict? && |u| == |v| == Pow2(lmax) + 1
    requires Agree(u, v, before) && after <= before
    requires forall x :: x in after && 0 <= x <= Pow2(lmax) && OddMult(s.k, x) ==>
               x - Pow2(s.k) in before && x + Pow2(s.k) in before
    ensures Agree(Apply(lmax, s, u), Apply(lmax, s, v), after)
  {
    forall x | 0 <= x <= Pow2(lmax) && x in after
      ensures At(lmax, s, u, x) == At(lmax, s, v, x)
    {
      if OddMult(s.k, x) {
        OddIsInside(lmax, s.k, x);
      }
    }
  }

  /** The cells of rank me and everything that covers them. */
  ghost function DehierarchizationCells(p: Pole, me: nat, lmin: nat): iset<int>
    requires me < |p.cuts|
  {
    iset y | p.Owns(me, y) || (exists x :: p.Owns(me, x) && p.Covers(lmin, y, x))
  }

  lemma WiderReach(p: Pole, lmin: nat, y: int, z: int)
    requires 0 <= p.Node(y) <= Pow2(p.lmax) && p.Level(y) > lmin && (z == y - Pow2(p.Exp(y)) || z == y + Pow2(p.Exp(y)))
    ensures p.Reach(lmin, z) >= 2 * Pow2(p.Exp(y)) && p.Reach(lmin, y) == Pow2(p.Exp(y))
  {
    p.ExponentFacts(y);
    p.PredecessorsAreCoarser(y);
    p.ExponentFacts(z);
    p.ExponentIsMaximal(z, p.Exp(y) + 1);
    Pow2Monotone(p.Exp(y) + 1, p.Exp(z));
    Pow2Monotone(p.Exp(y) + 1, p.lmax - lmin);
  }

  /** Who covers a point covers what that point covers. */
  lemma CoversTransitively(p: Pole, lmin: nat, y: int, x: int)
    requires 0 <= p.Node(y) <= Pow2(p.lmax) && p.Level(y) > lmin && (x == y || p.Covers(lmin, y, x))
    ensures p.Covers(lmin, y - Pow2(p.Exp(y)), x) && p.Covers(lmin, y + Pow2(p.Exp(y)), x)
  {
    hide Pow2;
    var h := Pow2(p.Exp(y));
    WiderReach(p, lmin, y, y - h);
    WiderReach(p, lmin, y, y + h);
  }

  lemma DehierarchizationCellsAreClosed(p: Pole, me: nat, lmin: nat, k: nat, y: int)
    requires p.boundary > 0 && p.Valid() && me < |p.cuts| && k < p.lmax - lmin
    requires 0 <= y <= Pow2(p.lmax) && OddMult(k, y) && y in DehierarchizationCells(p, me, lmin)
    ensures y - Pow2(k) in DehierarchizationCells(p, me, lmin) && y + Pow2(k) in DehierarchizationCells(p, me, lmin)
  {
    CtzIsOddMult(y, k);
    var x :| p.Owns(me, x) && (x == y || p.Covers(lmin, y, x));
    CoversTransitively(p, lmin, y, x);
  }

  lemma {:induction false} DehierarchizationAgrees(p: Pole, me: nat, lmin: nat, from: nat, u: seq<real>, v: seq<real>)
    requires p.boundary > 0 && p.Valid() && me < |p.cuts| && lmin <= p.lmax && from <= p.lmax - lmin
    requires |u| == |v| == Pow2(p.lmax) + 1
    requires Agree(u, v, DehierarchizationCells(p, me, lmin))
    ensures Agree(Dehierarchized(p.lmax, Hat, p.lmax - lmin, from, u),
                  Dehierarchized(p.lmax, Hat, p.lmax - lmin, from, v), DehierarchizationCells(p, me, lmin))
    decreases p.lmax - lmin - from
  {
    var cells := DehierarchizationCells(p, me, lmin);
    if from < p.lmax - lmin {
      DehierarchizationAgrees(p, me, lmin, from + 1, u, v);
      forall x | x in cells && 0 <= x <= Pow2(p.lmax) && OddMult(from, x)
        ensures x - Pow2(from) in cells && x + Pow2(from) in cells
      {
        DehierarchizationCellsAreClosed(p, me, lmin, from, x);
      }
      PredictAgrees(p.lmax, Undo(Decompose(from)), Dehierarchized(p.lmax, Hat, p.lmax - lmin, from + 1, u),
                    Dehierarchized(p.lmax, Hat, p.lmax - lmin, from + 1, v), cells, cells);
    }
  }

  /** The cells of rank me and the neighbours of those that are still to be hierarchized at stage k. */
  ghost function HierarchizationCells(p: Pole, me: nat, lmin: nat, k: nat): iset<int>
    requires me < |p.cuts|
  {
    iset y | p.Owns(me, y)
             || (exists x :: p.Owns(me, x) && p.Level(x) > lmin && p.Exp(x) >= k
                             && (y == x - Pow2(p.Exp(x)) || y == x + Pow2(p.Exp(x))))
  }

  lemma NeighboursAreCells(p: Pole, me: nat, lmin: nat, k: nat, y: int)
    requires p.boundary > 0 && p.Valid() && me < |p.cuts| && k < p.lmax - lmin && p.Owns(me, y) && OddMult(k, y)
    ensures y - Pow2(k) in HierarchizationCells(p, me, lmin, k) && y + Pow2(k) in HierarchizationCells(p, me, lmin, k)
  {
    CtzIsOddMult(y, k);
  }

  /** A coarser neighbour of a local point is no point of stage k. */
  lemma ParentIsCoarser(p: Pole, lmin: nat, k: nat, x: int, y: int)
    requires p.boundary > 0 && p.Valid() && p.InGrid(x) && p.Level(x) > lmin && p.Exp(x) >= k + 1
    requires y == x - Pow2(p.Exp(x)) || y == x + Pow2(p.Exp(x))
    ensures !OddMult(k, y)
  {
    p.PredecessorsAreCoarser(x);
    MultWeaken(k + 1, p.Exp(x) + 1, y);
    MultSplit(k, y);
  }

  lemma HierarchizationCellsShrink(p: Pole, me: nat, lmin: nat, k: nat, y: int)
    requires p.boundary > 0 && p.Valid() && me < |p.cuts| && k < p.lmax - lmin
    requires y in HierarchizationCells(p, me, lmin, k + 1)
    ensures y in HierarchizationCells(p, me, lmin, k)
    ensures 0 <= y <= Pow2(p.lmax) && OddMult(k, y) ==>
              y - Pow2(k) in HierarchizationCells(p, me, lmin, k) && y + Pow2(k) in HierarchizationCells(p, me, lmin, k)
  {
    if p.Owns(me, y) {
      if OddMult(k, y) {
        NeighboursAreCells(p, me, lmin, k, y);
      }
    } else {
      var x :| p.Owns(me, x) && p.Level(x) > lmin && p.Exp(x) >= k + 1
               && (y == x - Pow2(p.Exp(x)) || y == x + Pow2(p.Exp(x)));
      OwnershipIsExclusive(p, me, me, x);
      ParentIsCoarser(p, lmin, k, x, y);
    }
  }

  lemma {:induction false} HierarchizationAgrees(p: Pole, me: nat, lmin: nat, stages: nat, u: seq<real>, v: seq<real>)
    requires p.boundary > 0 && p.Valid() && me < |p.cuts| && lmin <= p.lmax && stages <= p.lmax - lmin
    requires |u| == |v| == Pow2(p.lmax) + 1
    requires Agree(u, v, HierarchizationCells(p, me, lmin, 0))
    ensures Agree(Hierarchized(p.lmax, Hat, stages, u), Hierarchized(p.lmax, Hat, stages, v),
                  HierarchizationCells(p, me, lmin, stages))
  {
    if stages > 0 {
      var k := stages - 1;
      var before, after := HierarchizationCells(p, me, lmin, k), HierarchizationCells(p, me, lmin, k + 1);
      HierarchizationAgrees(p, me, lmin, k, u, v);
      forall y | y in after
        ensures y in before
      {
        HierarchizationCellsShrink(p, me, lmin, k, y);
      }
      forall y | y in after && 0 <= y <= Pow2(p.lmax) && OddMult(k, y)
        ensures y - Pow2(k) in before && y + Pow2(k) in before
      {
        HierarchizationCellsShrink(p, me, lmin, k, y);
      }
      PredictAgrees(p.lmax, Decompose(k), Hierarchized(p.lmax, Hat, k, u), Hierarchized(p.lmax, Hat, k, v), before,
                    after);
    }
  }

  /** What a transform does to a full pole, with the virtual last value of a periodic one. */
  datatype Transform = Hierarchize(b: Basis) | Dehierarchize(b: Basis)

  function Transformed(lmax: nat, lmin: nat, op: Transform, u: seq<real>): (v: seq<real>)
    requires lmin <= lmax && |u| == Pow2(lmax) + 1
    ensures |v| == |u|
  {
    match op
    case Hierarchize(b) => Hierarchized(lmax, b, lmax - lmin, u)
    case Dehierarchize(b) => Dehierarchized(lmax, b, lmax - lmin, 0, u)
  }

  /** What rank me must have received from rank q: the sets of the two exchanges for the hat basis,
      everything for the other bases. */
  ghost function Required(p: Pole, lmin: nat, op: Transform, q: nat, me: nat): set<int>
    requires p.Valid() && q < |p.cuts|
  {
    if !op.b.Hat? then set i {:trigger p.Owns(q, i)} | p.First(q) <= i <= p.Last(q) && p.Owns(q, i)
    else if op.Hierarchize? then DirectlyNeeded(p, lmin, q, me)
    else Needed(p, lmin, q, me)
  }

  /** A buffer for one pole that holds the values of whole in the cells of rank me and in the received
      cells, and anything at all elsewhere; on a periodic pole the last cell repeats the first. */
  ghost predicate FilledFor(p: Pole, me: nat, lmin: nat, op: Transform, whole: seq<real>, buffer: seq<real>)
    requires p.Valid() && me < |p.cuts|
  {
    && |whole| == |buffer| == Pow2(p.lmax) + 1
    && (forall x :: p.Owns(me, x) && 0 <= x < |buffer| ==> buffer[x] == whole[x])
    && (forall q, x :: 0 <= q < |p.cuts| && q != me && 0 <= x < |buffer| && x in Required(p, lmin, op, q, me) ==>
          buffer[x] == whole[x])
    && (p.boundary == 1 ==> EndsEqual(whole) && EndsEqual(buffer))
  }

  lemma FilledCellsAgree(p: Pole, me: nat, lmin: nat, op: Transform, whole: seq<real>, buffer: seq<real>, y: int)
    requires p.boundary > 0 && p.Valid() && me < |p.cuts| && FilledFor(p, me, lmin, op, whole, buffer)
    requires 0 <= y <= Pow2(p.lmax)
    requires || !op.b.Hat?
             || (op.Dehierarchize? && y in DehierarchizationCells(p, me, lmin))
             || (op.Hierarchize? && y in HierarchizationCells(p, me, lmin, 0))
    ensures buffer[y] == whole[y]
  {
    var z := if y == p.Length() then 0 else y;
    if !p.Owns(me, z) {
      var q := p.Neighbor(z);
      if op.b.Hat? && op.Dehierarchize? {
        if !p.Owns(me, y) {
          var x :| p.Owns(me, x) && p.Covers(lmin, y, x);
          if y == p.Length() {
            VirtualPoint(p, lmin);
          }
          OwnershipIsExclusive(p, me, me, x);
          assert p.InSupport(lmin, z, x);
          NeededIsSupport(p, lmin, me, z);
        }
      } else if op.b.Hat? {
        if !p.Owns(me, y) {
          var x :| p.Owns(me, x) && p.Level(x) > lmin && (y == x - Pow2(p.Exp(x)) || y == x + Pow2(p.Exp(x)));
          assert p.IsDirectPredecessor(lmin, z, x);
        }
      }
      assert z in Required(p, lmin, op, q, me);
    }
  }

  /** The distributed transform refines the sequential one: with nothing but the local and the
      received cells filled in, every local cell gets the value of the transformed whole pole. */
  lemma LocalResultIsExact(p: Pole, me: nat, lmin: nat, op: Transform, whole: seq<real>, buffer: seq<real>, x: int)
    requires p.boundary > 0 && p.Valid() && me < |p.cuts| && lmin <= p.lmax
    requires FilledFor(p, me, lmin, op, whole, buffer) && p.Owns(me, x)
    ensures 0 <= x < |buffer|
    ensures Transformed(p.lmax, lmin, op, buffer)[x] == Transformed(p.lmax, lmin, op, whole)[x]
  {
    OwnershipIsExclusive(p, me, me, x);
    if !op.b.Hat? {
      forall y | 0 <= y <= Pow2(p.lmax)
        ensures buffer[y] == whole[y]
      {
        FilledCellsAgree(p, me, lmin, op, whole, buffer, y);
      }
      assert buffer == whole;
    } else if op.Hierarchize? {
      forall y | 0 <= y <= Pow2(p.lmax) && y in HierarchizationCells(p, me, lmin, 0)
        ensures buffer[y] == whole[y]
      {
        FilledCellsAgree(p, me, lmin, op, whole, buffer, y);
      }
      HierarchizationAgrees(p, me, lmin, p.lmax - lmin, buffer, whole);
    } else {
      forall y | 0 <= y <= Pow2(p.lmax) && y in DehierarchizationCells(p, me, lmin)
        ensures buffer[y] == whole[y]
      {
        FilledCellsAgree(p, me, lmin, op, whole, buffer, y);
      }
      DehierarchizationAgrees(p, me, lmin, 0, buffer, whole);
    }
  }
}
