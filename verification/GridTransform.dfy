/** Sweeping all dimensions of a grid in ascending order, for hierarchization and for dehierarchization. */
module GridTransform {
  import opened Dyadic
  import opened Lifting
  import opened Bases
  import opened GridAxes
  import opened GridSweep
  import opened LocalTransform

  /** Several steps on one pole, in order. */
  function Run(lmax: nat, steps: seq<Step>, u: seq<real>): (v: seq<real>)
    requires |u| == Pow2(lmax) + 1 && forall s :: s in steps ==> Fits(lmax, s)
    ensures |v| == |u|
  {
    if steps == [] then u
    else Apply(lmax, steps[|steps| - 1], Run(lmax, steps[..|steps| - 1], u))
  }

  lemma {:induction false} RunConcat(lmax: nat, p: seq<Step>, q: seq<Step>, u: seq<real>)
    requires |u| == Pow2(lmax) + 1 && (forall s :: s in p ==> Fits(lmax, s)) && (forall s :: s in q ==> Fits(lmax, s))
    ensures Run(lmax, p + q, u) == Run(lmax, q, Run(lmax, p, u))
    decreases |q|
  {
    if q == [] {
      assert p + q == p;
    } else {
      var n := |q| - 1;
      RunConcat(lmax, p, q[..n], u);
      assert (p + q)[..|p + q| - 1] == p + q[..n];
    }
  }

  function ForwardSteps(b: Basis, k: nat): seq<Step> {
    match b
    case Hat => [Decompose(k)]
    case FullWeighting(p) => [Averaging(k, p), Decompose(k)]
    case Biorthogonal(p) => [Decompose(k), Updating(k, p)]
  }

  function BackwardSteps(b: Basis, k: nat): seq<Step> {
    match b
    case Hat => [Undo(Decompose(k))]
    case FullWeighting(p) => [Undo(Decompose(k)), Undo(Averaging(k, p))]
    case Biorthogonal(p) => [Undo(Updating(k, p)), Undo(Decompose(k))]
  }

  function StepsUp(b: Basis, stages: nat): seq<Step> {
    if stages == 0 then [] else StepsUp(b, stages - 1) + ForwardSteps(b, stages - 1)
  }

  function StepsDown(b: Basis, stages: nat, from: nat): seq<Step>
    requires from <= stages
    decreases stages - from
  {
    if from == stages then [] else StepsDown(b, stages, from + 1) + BackwardSteps(b, from)
  }

  predicate BasisStep(lmax: nat, b: Basis, s: Step) {
    Fits(lmax, s) && (s.Smooth? ==> !b.Hat? && s.periodic == b.IsPeriodic())
  }

  lemma {:induction false} StepsUpFit(lmax: nat, b: Basis, stages: nat)
    requires stages <= lmax
    ensures forall s :: s in StepsUp(b, stages) ==> BasisStep(lmax, b, s)
  {
    if stages > 0 {
      StepsUpFit(lmax, b, stages - 1);
    }
  }

  lemma {:induction false} StepsDownFit(lmax: nat, b: Basis, stages: nat, from: nat)
    requires from <= stages <= lmax
    ensures forall s :: s in StepsDown(b, stages, from) ==> BasisStep(lmax, b, s)
    decreases stages - from
  {
    if from < stages {
      StepsDownFit(lmax, b, stages, from + 1);
    }
  }

  lemma RunShort(lmax: nat, s: Step, t: Step, u: seq<real>)
    requires Fits(lmax, s) && Fits(lmax, t) && |u| == Pow2(lmax) + 1
    ensures Run(lmax, [s], u) == Apply(lmax, s, u)
    ensures Run(lmax, [s, t], u) == Apply(lmax, t, Apply(lmax, s, u))
  {
    assert [s][..0] == [];
    assert Run(lmax, [s][..0], u) == u;
    assert [s, t][..1] == [s];
  }

  lemma {:induction false} StepsUpHierarchize(lmax: nat, b: Basis, stages: nat, u: seq<real>)
    requires stages <= lmax && |u| == Pow2(lmax) + 1
    ensures forall s :: s in StepsUp(b, stages) ==> Fits(lmax, s)
    ensures Run(lmax, StepsUp(b, stages), u) == Hierarchized(lmax, b, stages, u)
  {
    if stages > 0 {
      var k := stages - 1;
      var p, q := StepsUp(b, k), ForwardSteps(b, k);
      var v := Hierarchized(lmax, b, k, u);
      StepsUpHierarchize(lmax, b, k, u);
      RunConcat(lmax, p, q, u);
      RunShort(lmax, q[0], q[|q| - 1], v);
      assert q == if |q| == 1 then [q[0]] else [q[0], q[|q| - 1]];
    }
  }

  lemma {:induction false} StepsDownDehierarchize(lmax: nat, b: Basis, stages: nat, from: nat, u: seq<real>)
    requires from <= stages <= lmax && |u| == Pow2(lmax) + 1
    ensures forall s :: s in StepsDown(b, stages, from) ==> Fits(lmax, s)
    ensures Run(lmax, StepsDown(b, stages, from), u) == Dehierarchized(lmax, b, stages, from, u)
    decreases stages - from
  {
    if from < stages {
      var p, q := StepsDown(b, stages, from + 1), BackwardSteps(b, from);
      var v := Dehierarchized(lmax, b, stages, from + 1, u);
      StepsDownDehierarchize(lmax, b, stages, from + 1, u);
      RunConcat(lmax, p, q, u);
      RunShort(lmax, q[0], q[|q| - 1], v);
      assert q == if |q| == 1 then [q[0]] else [q[0], q[|q| - 1]];
    }
  }

  /** Several steps on all poles along one dimension. */
  ghost function AxisRun(d: Dim, steps: seq<Step>, u: seq<real>): (v: seq<real>)
    requires d.Valid(|u|) && forall s :: s in steps ==> StepFits(d, s)
    ensures |v| == |u|
  {
    if steps == [] then u
    else AxisStep(d, steps[|steps| - 1], AxisRun(d, steps[..|steps| - 1], u))
  }

  lemma {:induction false} PoleOfAxisRun(d: Dim, steps: seq<Step>, u: seq<real>, li: int)
    requires d.Valid(|u|) && (forall s :: s in steps ==> StepFits(d, s)) && 0 <= li < |u|
    ensures PoleAt(d, AxisRun(d, steps, u), li) == Run(d.lmax, steps, PoleAt(d, u, li))
  {
    if steps != [] {
      var n := |steps| - 1;
      PoleOfAxisRun(d, steps[..n], u, li);
      PoleOfAxisStep(d, steps[n], AxisRun(d, steps[..n], u), li);
    }
  }

  lemma {:induction false} StepAndRunCommute(a: Dim, s: Step, b: Dim, steps: seq<Step>, u: seq<real>)
    requires a.Valid(|u|) && StepFits(a, s) && b.Valid(|u|) && Independent(a.axis, b.axis)
    requires forall t :: t in steps ==> StepFits(b, t)
    ensures AxisStep(a, s, AxisRun(b, steps, u)) == AxisRun(b, steps, AxisStep(a, s, u))
    decreases |steps|
  {
    if steps != [] {
      var n := |steps| - 1;
      StepAndRunCommute(a, s, b, steps[..n], u);
      StepsCommute(a, s, b, steps[n], AxisRun(b, steps[..n], u));
    }
  }

  lemma {:induction false} RunsCommute(a: Dim, p: seq<Step>, b: Dim, q: seq<Step>, u: seq<real>)
    requires a.Valid(|u|) && b.Valid(|u|) && Independent(a.axis, b.axis)
    requires (forall s :: s in p ==> StepFits(a, s)) && (forall t :: t in q ==> StepFits(b, t))
    ensures AxisRun(a, p, AxisRun(b, q, u)) == AxisRun(b, q, AxisRun(a, p, u))
    decreases |p|
  {
    if p != [] {
      var n := |p| - 1;
      RunsCommute(a, p[..n], b, q, u);
      StepAndRunCommute(a, p[n], b, q, AxisRun(a, p[..n], u));
    }
  }

  /** The kernel family that is called for a basis: the non-periodic biorthogonal basis is handed to
      the full weighting kernels, in both directions. */
  function KernelBasis(b: Basis): Basis {
    if b == Biorthogonal(false) then FullWeighting(false) else b
  }

  function TransformOf(d: Dim, forward: bool): Transform {
    if forward then Hierarchize(KernelBasis(d.basis)) else Dehierarchize(KernelBasis(d.basis))
  }

  function StepsOf(d: Dim, forward: bool): seq<Step>
    requires d.lmin <= d.lmax
  {
    if !d.active then []
    else if forward then StepsUp(KernelBasis(d.basis), d.lmax - d.lmin)
    else StepsDown(KernelBasis(d.basis), d.lmax - d.lmin, 0)
  }

  lemma StepsOfFit(d: Dim, forward: bool, size: int)
    requires d.Valid(size)
    ensures forall s :: s in StepsOf(d, forward) ==> StepFits(d, s)
  {
    StepsUpFit(d.lmax, KernelBasis(d.basis), d.lmax - d.lmin);
    StepsDownFit(d.lmax, KernelBasis(d.basis), d.lmax - d.lmin, 0);
  }

  /** The sweep over one dimension, which leaves the grid alone if the dimension is not selected. */
  ghost function AxisTransform(d: Dim, forward: bool, u: seq<real>): (v: seq<real>)
    requires d.Valid(|u|)
    ensures |v| == |u|
  {
    StepsOfFit(d, forward, |u|);
    AxisRun(d, StepsOf(d, forward), u)
  }

  lemma StepsTransform(d: Dim, forward: bool, w: seq<real>)
    requires d.active && d.lmin <= d.lmax && |w| == Pow2(d.lmax) + 1
    ensures forall s :: s in StepsOf(d, forward) ==> Fits(d.lmax, s)
    ensures Run(d.lmax, StepsOf(d, forward), w) == Transformed(d.lmax, d.lmin, TransformOf(d, forward), w)
  {
    hide Run, StepsUp, StepsDown, Hierarchized, Dehierarchized;
    if forward {
      StepsUpHierarchize(d.lmax, KernelBasis(d.basis), d.lmax - d.lmin, w);
    } else {
      StepsDownDehierarchize(d.lmax, KernelBasis(d.basis), d.lmax - d.lmin, 0, w);
    }
  }

  /** What the sweep over a selected dimension means: every pole is transformed by the kernel. */
  lemma AxisTransformsPoles(d: Dim, forward: bool, u: seq<real>, li: int)
    requires d.Valid(|u|) && 0 <= li < |u| && d.active
    ensures PoleAt(d, AxisTransform(d, forward, u), li)
            == Transformed(d.lmax, d.lmin, TransformOf(d, forward), PoleAt(d, u, li))
  {
    hide Run, AxisRun, StepsOf, TransformOf, Transformed, PoleAt, StepFits, Fits;
    StepsOfFit(d, forward, |u|);
    PoleOfAxisRun(d, StepsOf(d, forward), u, li);
    StepsTransform(d, forward, PoleAt(d, u, li));
  }

  lemma OwnValue(d: Dim, u: seq<real>, li: int)
    requires d.Valid(|u|) && 0 <= li < |u|
    ensures 0 <= d.PointOf(li) <= Pow2(d.lmax) && PoleAt(d, u, li)[d.PointOf(li)] == u[li]
  {
    d.axis.MoveIsExact(li, 0, |u|);
  }

  /** What a periodic basis needs: both ends of every pole have the same value.  A one-sided pole stores only one
      end. */
  ghost predicate SeamsMatch(d: Dim, u: seq<real>)
    requires d.Valid(|u|)
  {
    d.active && d.lmin < d.lmax && d.basis.IsPeriodic() ==> forall li :: 0 <= li < |u| ==> EndsEqual(PoleAt(d, u, li))
  }

  lemma PoleRoundTrip(d: Dim, first: bool, u: seq<real>, li: int)
    requires d.Valid(|u|) && d.active && 0 <= li < |u|
    ensures PoleAt(d, AxisTransform(d, !first, AxisTransform(d, first, u)), li) == PoleAt(d, u, li)
            <==> (d.basis.IsPeriodic() && d.lmin < d.lmax ==> EndsEqual(PoleAt(d, u, li)))
  {
    hide AxisTransform, PoleAt, Hierarchized, Dehierarchized, EndsEqual;
    AxisTransformsPoles(d, first, u, li);
    AxisTransformsPoles(d, !first, AxisTransform(d, first, u), li);
    RoundTrip(d.lmax, KernelBasis(d.basis), d.lmax - d.lmin, PoleAt(d, u, li));
  }

  /** The transforms along one dimension undo each other, in both orders, if and only if its seams match. */
  lemma AxisRoundTrip(d: Dim, first: bool, u: seq<real>)
    requires d.Valid(|u|)
    ensures AxisTransform(d, !first, AxisTransform(d, first, u)) == u <==> SeamsMatch(d, u)
  {
    hide AxisTransform, PoleAt, EndsEqual;
    var v := AxisTransform(d, !first, AxisTransform(d, first, u));
    if d.active {
      forall li | 0 <= li < |u|
        ensures PoleAt(d, v, li) == PoleAt(d, u, li)
                <==> (d.basis.IsPeriodic() && d.lmin < d.lmax ==> EndsEqual(PoleAt(d, u, li)))
        ensures PoleAt(d, v, li) == PoleAt(d, u, li) ==> v[li] == u[li]
      {
        PoleRoundTrip(d, first, u, li);
        OwnValue(d, u, li);
        OwnValue(d, v, li);
      }
    } else {
      InactiveStays(d, first, u);
      InactiveStays(d, !first, u);
    }
  }

  lemma InactiveStays(d: Dim, forward: bool, u: seq<real>)
    requires d.Valid(|u|) && !d.active
    ensures AxisTransform(d, forward, u) == u
  {
  }

  /** After a transform along a dimension its seams match. */
  lemma TransformedSeamsMatch(d: Dim, forward: bool, u: seq<real>)
    requires d.Valid(|u|)
    ensures SeamsMatch(d, AxisTransform(d, forward, u))
  {
    hide AxisTransform, PoleAt, EndsEqual;
    var b, stages := KernelBasis(d.basis), d.lmax - d.lmin;
    if d.active && d.lmin < d.lmax && d.basis.IsPeriodic() {
      forall li | 0 <= li < |u|
        ensures EndsEqual(PoleAt(d, AxisTransform(d, forward, u), li))
      {
        AxisTransformsPoles(d, forward, u, li);
        TransformedEnds(d, forward, PoleAt(d, u, li));
      }
    }
  }

  lemma TransformedEnds(d: Dim, forward: bool, w: seq<real>)
    requires d.lmin < d.lmax && d.basis.IsPeriodic() && |w| == Pow2(d.lmax) + 1
    ensures EndsEqual(Transformed(d.lmax, d.lmin, TransformOf(d, forward), w))
  {
    hide Forward, Backward, EndsEqual;
    var b, stages := KernelBasis(d.basis), d.lmax - d.lmin;
    if forward {
      StageUp(d.lmax, b, stages, w);
      LastStageEnds(d.lmax, b, stages - 1, Hierarchized(d.lmax, b, stages - 1, w));
    } else {
      StageDown(d.lmax, b, stages, 0, w);
      LastStageEnds(d.lmax, b, 0, Dehierarchized(d.lmax, b, stages, 1, w));
    }
  }

  /** A grid: every dimension fits the flat array, and different dimensions are different axes. */
  ghost predicate IsGrid(dims: seq<Dim>, size: int) {
    && (forall i :: 0 <= i < |dims| ==> dims[i].Valid(size))
    && (forall i, j :: 0 <= i < j < |dims| ==> IsLater(dims[i].axis, dims[j].axis))
  }

  /** Dimensions from, from + 1, ..., upto - 1 swept in ascending order. */
  ghost function Swept(dims: seq<Dim>, forward: bool, from: nat, upto: nat, u: seq<real>): (v: seq<real>)
    requires IsGrid(dims, |u|) && from <= upto <= |dims|
    ensures |v| == |u|
    decreases upto - from
  {
    if from == upto then u else AxisTransform(dims[upto - 1], forward, Swept(dims, forward, from, upto - 1, u))
  }

  lemma TransformsCommute(a: Dim, f: bool, b: Dim, g: bool, u: seq<real>, w: seq<real>)
    requires a.Valid(|u|) && b.Valid(|u|) && Independent(a.axis, b.axis) && w == AxisTransform(a, f, u)
    ensures AxisTransform(a, f, AxisTransform(b, g, u)) == AxisTransform(b, g, w)
  {
    StepsOfFit(a, f, |u|);
    StepsOfFit(b, g, |u|);
    RunsCommute(a, StepsOf(a, f), b, StepsOf(b, g), u);
  }

  /** A sweep along one dimension commutes with the sweeps over later dimensions. */
  lemma {:induction false} SweepMovesPast(dims: seq<Dim>, k: nat, f: bool, forward: bool, from: nat, upto: nat,
                                          u: seq<real>)
    requires IsGrid(dims, |u|) && k < from <= upto <= |dims|
    ensures AxisTransform(dims[k], f, Swept(dims, forward, from, upto, u))
            == Swept(dims, forward, from, upto, AxisTransform(dims[k], f, u))
    decreases upto - from
  {
    hide AxisTransform;
    if from < upto {
      var e, x := upto - 1, AxisTransform(dims[k], f, u);
      SweepMovesPast(dims, k, f, forward, from, e, u);
      LastSweep(dims, forward, from, upto, u);
      LastSweep(dims, forward, from, upto, x);
      TransformsCommute(dims[k], f, dims[e], forward, Swept(dims, forward, from, e, u),
                        Swept(dims, forward, from, e, x));
    }
  }

  lemma LastSweep(dims: seq<Dim>, forward: bool, from: nat, upto: nat, u: seq<real>)
    requires IsGrid(dims, |u|) && from < upto <= |dims|
    ensures Swept(dims, forward, from, upto, u)
            == AxisTransform(dims[upto - 1], forward, Swept(dims, forward, from, upto - 1, u))
  {
  }

  lemma {:induction false} FirstSweep(dims: seq<Dim>, forward: bool, from: nat, upto: nat, u: seq<real>)
    requires IsGrid(dims, |u|) && from < upto <= |dims|
    ensures Swept(dims, forward, from, upto, u)
            == Swept(dims, forward, from + 1, upto, AxisTransform(dims[from], forward, u))
    decreases upto - from
  {
    hide AxisTransform;
    LastSweep(dims, forward, from, upto, u);
    if from + 1 < upto {
      FirstSweep(dims, forward, from, upto - 1, u);
      LastSweep(dims, forward, from + 1, upto, AxisTransform(dims[from], forward, u));
    } else {
      assert Swept(dims, forward, from, from, u) == u;
    }
  }

  ghost predicate AllSeamsMatch(dims: seq<Dim>, u: seq<real>)
    requires IsGrid(dims, |u|)
  {
    forall k :: 0 <= k < |dims| ==> SeamsMatch(dims[k], u)
  }

  lemma {:induction false} SweepInTwoParts(dims: seq<Dim>, forward: bool, k: nat, upto: nat, u: seq<real>)
    requires IsGrid(dims, |u|) && k <= upto <= |dims|
    ensures Swept(dims, forward, 0, upto, u) == Swept(dims, forward, k, upto, Swept(dims, forward, 0, k, u))
    decreases upto
  {
    hide AxisTransform;
    if k < upto {
      SweepInTwoParts(dims, forward, k, upto - 1, u);
      LastSweep(dims, forward, 0, upto, u);
      LastSweep(dims, forward, k, upto, Swept(dims, forward, 0, k, u));
    }
  }

  /** After a sweep over all dimensions all seams match: each dimension might as well have been the last. */
  lemma SweptSeamsMatch(dims: seq<Dim>, forward: bool, u: seq<real>)
    requires IsGrid(dims, |u|)
    ensures AllSeamsMatch(dims, Swept(dims, forward, 0, |dims|, u))
  {
    hide AxisTransform, Swept, SeamsMatch;
    forall k: nat | k < |dims|
      ensures SeamsMatch(dims[k], Swept(dims, forward, 0, |dims|, u))
    {
      var v := Swept(dims, forward, 0, k, u);
      SweepInTwoParts(dims, forward, k, |dims|, u);
      FirstSweep(dims, forward, k, |dims|, v);
      SweepMovesPast(dims, k, forward, forward, k + 1, |dims|, v);
      TransformedSeamsMatch(dims[k], forward, Swept(dims, forward, k + 1, |dims|, v));
    }
  }

  /** After the sweeps that undo dimensions 0 to k - 1, the later dimensions are still transformed. */
  lemma {:induction false} PartialGridRoundTrip(dims: seq<Dim>, forward: bool, k: nat, u: seq<real>)
    requires IsGrid(dims, |u|) && k <= |dims| && AllSeamsMatch(dims, u)
    ensures Swept(dims, !forward, 0, k, Swept(dims, forward, 0, |dims|, u)) == Swept(dims, forward, k, |dims|, u)
    decreases k
  {
    if k > 0 {
      PartialGridRoundTrip(dims, forward, k - 1, u);
      var v := AxisTransform(dims[k - 1], forward, u);
      FirstSweep(dims, forward, k - 1, |dims|, u);
      SweepMovesPast(dims, k - 1, !forward, forward, k, |dims|, v);
      AxisRoundTrip(dims[k - 1], forward, u);
    }
  }

  /** In any number of dimensions dehierarchization undoes hierarchization, and the other way round, although both
      sweep the dimensions in the same ascending order.  Periodic bases on dimensions that store both ends need equal
      values there, and then this is not only sufficient. */
  lemma GridRoundTrip(dims: seq<Dim>, forward: bool, u: seq<real>)
    requires IsGrid(dims, |u|)
    ensures Swept(dims, !forward, 0, |dims|, Swept(dims, forward, 0, |dims|, u)) == u <==> AllSeamsMatch(dims, u)
  {
    hide SeamsMatch, AxisTransform;
    SweptSeamsMatch(dims, !forward, Swept(dims, forward, 0, |dims|, u));
    if AllSeamsMatch(dims, u) {
      PartialGridRoundTrip(dims, forward, |dims|, u);
    }
  }
}
