/** The transform of poles without boundary points, distributed over ranks: with nothing but the local and the
    received cells filled in, every local cell gets the value of the transformed whole pole. */
module NoBoundaryTransform {
  import opened Dyadic
  import opened Poles
  import opened SuccessorSearch
  import opened PoleExchange
  import opened DirectExchange
  import opened Lifting
  import opened Bases
  import opened LocalTransform
  import opened NoBoundary
  import opened NoBoundaryKernels

  /** The hat transform of a pole with zero boundary values. */
  function InnerTransformed(lmax: nat, forward: bool, whole: seq<real>): (v: seq<real>)
    requires lmax > 0 && |whole| == Pow2(lmax) - 1
    ensures |v| == |whole|
  {
    Transformed(lmax, 0, HatOf(forward), Bordered(whole))[1..|whole| + 1]
  }

  function HatOf(forward: bool): Transform {
    if forward then Hierarchize(Hat) else Dehierarchize(Hat)
  }

  /** A buffer with the local and the received cells of a pole filled in. */
  ghost predicate FilledInner(p: Pole, me: nat, forward: bool, whole: seq<real>, buffer: seq<real>)
    requires p.Valid() && me < |p.cuts|
  {
    && IsInnerPole(p.lmax, whole) && IsInnerPole(p.lmax, buffer)
    && (forall x :: p.Owns(me, x) && 0 <= x < |buffer| ==> buffer[x] == whole[x])
    && (forall q, x ::
          0 <= q < |p.cuts| && q != me && 0 <= x < |buffer| && x in Required(p, 0, HatOf(forward), q, me)
          ==> buffer[x] == whole[x])
  }

  lemma PredecessorIsFilled(p: Pole, me: nat, whole: seq<real>, buffer: seq<real>, x: int, y: int)
    requires IsInner(p) && me < |p.cuts| && FilledInner(p, me, true, whole, buffer) && p.Owns(me, x)
    requires (y == x - Pow2(p.Exp(x)) || y == x + Pow2(p.Exp(x))) && 0 <= y < |buffer|
    ensures buffer[y] == whole[y]
  {
    OwnershipIsExclusive(p, me, me, x);
    LevelOfPoint(p, x, 1);
    assert p.IsDirectPredecessor(0, y, x);
    var q := p.Neighbor(y);
    if q != me {
      assert DirectlyNeededBy(p, 0, me, y);
      assert y in Required(p, 0, HatOf(true), q, me);
    }
  }

  lemma SurplusIsLocal(p: Pole, me: nat, whole: seq<real>, buffer: seq<real>, x: int)
    requires IsInner(p) && me < |p.cuts| && FilledInner(p, me, true, whole, buffer) && p.Owns(me, x)
    ensures 0 <= x < |buffer| && Surplus(p.lmax, Bordered(buffer), x + 1) == Surplus(p.lmax, Bordered(whole), x + 1)
  {
    OwnershipIsExclusive(p, me, me, x);
    PredecessorsInside(p.lmax, x + 1);
    var h := Pow2(p.Exp(x));
    if x - h >= 0 {
      PredecessorIsFilled(p, me, whole, buffer, x, x - h);
    }
    if x + h < |buffer| {
      PredecessorIsFilled(p, me, whole, buffer, x, x + h);
    }
  }

  /** The points of a bordered pole that matter to the dehierarchization of the local cells. */
  ghost predicate IsInnerCell(p: Pole, me: nat, z: int)
    requires me < |p.cuts|
  {
    z == 0 || z == Pow2(p.lmax) || z - 1 in DehierarchizationCells(p, me, 0)
  }

  ghost function InnerCells(p: Pole, me: nat): iset<int>
    requires me < |p.cuts|
  {
    iset z | IsInnerCell(p, me, z)
  }

  lemma InnerCellsAreClosed(p: Pole, me: nat, k: nat, z: int)
    requires IsInner(p) && me < |p.cuts| && k < p.lmax && 0 <= z <= Pow2(p.lmax) && OddMult(k, z)
             && z in InnerCells(p, me)
    ensures z - Pow2(k) in InnerCells(p, me) && z + Pow2(k) in InnerCells(p, me)
  {
    hide IsInner, Pow2, OddMult;
    EndsAreNoTargets(p.lmax, k);
    CoarserNeighbours(p.lmax, k, z);
    var y := z - 1;
    LevelOfPoint(p, y, p.lmax - k);
    assert y in DehierarchizationCells(p, me, 0);
    var x :| p.Owns(me, x) && (x == y || p.Covers(0, y, x));
    CoversTransitively(p, 0, y, x);
    var h := Pow2(k);
    assert y - h in DehierarchizationCells(p, me, 0) && z - h == y - h + 1;
    assert y + h in DehierarchizationCells(p, me, 0) && z + h == y + h + 1;
  }

  lemma {:induction false} InnerDehierarchizationAgrees(p: Pole, me: nat, from: nat, u: seq<real>, v: seq<real>)
    requires IsInner(p) && me < |p.cuts| && from <= p.lmax && |u| == |v| == Pow2(p.lmax) + 1
    requires Agree(u, v, InnerCells(p, me))
    ensures Agree(Dehierarchized(p.lmax, Hat, p.lmax, from, u), Dehierarchized(p.lmax, Hat, p.lmax, from, v),
                  InnerCells(p, me))
    decreases p.lmax - from
  {
    var cells := InnerCells(p, me);
    if from < p.lmax {
      InnerDehierarchizationAgrees(p, me, from + 1, u, v);
      forall x | x in cells && 0 <= x <= Pow2(p.lmax) && OddMult(from, x)
        ensures x - Pow2(from) in cells && x + Pow2(from) in cells
      {
        InnerCellsAreClosed(p, me, from, x);
      }
      PredictAgrees(p.lmax, Undo(Decompose(from)), Dehierarchized(p.lmax, Hat, p.lmax, from + 1, u),
                    Dehierarchized(p.lmax, Hat, p.lmax, from + 1, v), cells, cells);
    }
  }

  lemma InnerCellIsFilled(p: Pole, me: nat, whole: seq<real>, buffer: seq<real>, z: int)
    requires IsInner(p) && me < |p.cuts| && FilledInner(p, me, false, whole, buffer) && z in InnerCells(p, me)
             && 0 <= z <= Pow2(p.lmax)
    ensures Bordered(buffer)[z] == Bordered(whole)[z]
  {
    var y := z - 1;
    if 0 < z < Pow2(p.lmax) && !p.Owns(me, y) {
      assert y in DehierarchizationCells(p, me, 0);
      var x :| p.Owns(me, x) && p.Covers(0, y, x);
      assert p.InSupport(0, y, x);
      NeededIsSupport(p, 0, me, y);
      var q := p.Neighbor(y);
      assert y in Required(p, 0, HatOf(false), q, me);
    }
  }

  lemma DehierarchizationIsLocal(p: Pole, me: nat, whole: seq<real>, buffer: seq<real>, x: int)
    requires IsInner(p) && me < |p.cuts| && FilledInner(p, me, false, whole, buffer) && p.Owns(me, x)
    ensures 0 <= x < |buffer|
    ensures Dehierarchized(p.lmax, Hat, p.lmax, 0, Bordered(buffer))[x + 1]
            == Dehierarchized(p.lmax, Hat, p.lmax, 0, Bordered(whole))[x + 1]
  {
    OwnershipIsExclusive(p, me, me, x);
    forall z | z in InnerCells(p, me) && 0 <= z <= Pow2(p.lmax)
      ensures Bordered(buffer)[z] == Bordered(whole)[z]
    {
      InnerCellIsFilled(p, me, whole, buffer, z);
    }
    InnerDehierarchizationAgrees(p, me, 0, Bordered(buffer), Bordered(whole));
    assert x in DehierarchizationCells(p, me, 0) && IsInnerCell(p, me, x + 1);
  }

  ghost predicate LocallyExact(p: Pole, me: nat, forward: bool, whole: seq<real>, after: seq<real>)
    requires p.lmax > 0 && |whole| == Pow2(p.lmax) - 1
  {
    forall x :: p.Owns(me, x) ==> 0 <= x < |after| == |whole| && after[x] == InnerTransformed(p.lmax, forward, whole)[x]
  }

  lemma LocalSurplusesAreExact(p: Pole, me: nat, whole: seq<real>, buffer: seq<real>, after: seq<real>)
    requires IsInner(p) && me < |p.cuts| && FilledInner(p, me, true, whole, buffer) && |after| == |buffer|
    requires LocalSurpluses(p, me, buffer, after, 0, 0)
    ensures LocallyExact(p, me, true, whole, after)
  {
    forall x | p.Owns(me, x)
      ensures 0 <= x < |after| && after[x] == InnerTransformed(p.lmax, true, whole)[x]
    {
      SurplusIsLocal(p, me, whole, buffer, x);
      LevelOfPoint(p, x, 1);
      PredecessorsInside(p.lmax, x + 1);
      HierarchizedIsSurplus(p.lmax, p.lmax, Bordered(whole), x + 1);
    }
  }

  lemma LocalValuesAreExact(p: Pole, me: nat, whole: seq<real>, buffer: seq<real>, after: seq<real>)
    requires IsInner(p) && me < |p.cuts| && FilledInner(p, me, false, whole, buffer) && |after| == |buffer|
    requires Bordered(after) == Dehierarchized(p.lmax, Hat, p.lmax, 0, Bordered(buffer))
    ensures LocallyExact(p, me, false, whole, after)
  {
    forall x | p.Owns(me, x)
      ensures 0 <= x < |after| && after[x] == InnerTransformed(p.lmax, false, whole)[x]
    {
      DehierarchizationIsLocal(p, me, whole, buffer, x);
      assert after[x] == Bordered(after)[x + 1];
    }
  }

  /** What the kernel of one rank leaves in its local cells is the transform of the whole pole. */
  method TransformInner(p: Pole, me: nat, forward: bool, tmp: array<real>, ghost whole: seq<real>)
    requires IsInner(p) && me < |p.cuts| && FilledInner(p, me, forward, whole, tmp[..])
    modifies tmp
    ensures LocallyExact(p, me, forward, whole, tmp[..])
  {
    ghost var buffer := tmp[..];
    if forward {
      HierarchizeNoBoundary(p, me, tmp);
      LocalSurplusesAreExact(p, me, whole, buffer, tmp[..]);
    } else {
      DehierarchizeNoBoundary(p.lmax, tmp);
      LocalValuesAreExact(p, me, whole, buffer, tmp[..]);
    }
  }

  /** Dehierarchization undoes hierarchization and the other way round. */
  lemma InnerRoundTrip(lmax: nat, whole: seq<real>)
    requires lmax > 0 && |whole| == Pow2(lmax) - 1
    ensures InnerTransformed(lmax, false, InnerTransformed(lmax, true, whole)) == whole
    ensures InnerTransformed(lmax, true, InnerTransformed(lmax, false, whole)) == whole
  {
    var u := Bordered(whole);
    forall forward: bool
      ensures Bordered(InnerTransformed(lmax, forward, whole)) == Transformed(lmax, 0, HatOf(forward), u)
    {
      ZeroEnds(lmax, forward, u);
    }
    RoundTrip(lmax, Hat, lmax, u);
  }

  lemma {:induction false} HierarchizedZeroEnds(lmax: nat, stages: nat, u: seq<real>)
    requires stages <= lmax && |u| == Pow2(lmax) + 1 && u[0] == 0.0 && u[Pow2(lmax)] == 0.0
    ensures var v := Hierarchized(lmax, Hat, stages, u); v[0] == 0.0 && v[Pow2(lmax)] == 0.0
  {
    HierarchizedIsSurplus(lmax, stages, u, 0);
    HierarchizedIsSurplus(lmax, stages, u, Pow2(lmax));
  }

  lemma {:induction false} DehierarchizedZeroEnds(lmax: nat, from: nat, u: seq<real>)
    requires from <= lmax && |u| == Pow2(lmax) + 1 && u[0] == 0.0 && u[Pow2(lmax)] == 0.0
    ensures var v := Dehierarchized(lmax, Hat, lmax, from, u); v[0] == 0.0 && v[Pow2(lmax)] == 0.0
    decreases lmax - from
  {
    if from < lmax {
      DehierarchizedZeroEnds(lmax, from + 1, u);
      PredictKeepsEnds(lmax, Undo(Decompose(from)), Dehierarchized(lmax, Hat, lmax, from + 1, u));
    }
  }

  lemma ZeroEnds(lmax: nat, forward: bool, u: seq<real>)
    requires |u| == Pow2(lmax) + 1 && u[0] == 0.0 && u[Pow2(lmax)] == 0.0
    ensures var v := Transformed(lmax, 0, HatOf(forward), u); v[0] == 0.0 && v[Pow2(lmax)] == 0.0
  {
    HierarchizedZeroEnds(lmax, lmax, u);
    DehierarchizedZeroEnds(lmax, 0, u);
  }
}
