/** The three one-dimensional bases as sequences of lifting steps, their round trips and their mass. */
module Bases {
  import opened Dyadic
  import opened Lifting

  datatype Basis = Hat | FullWeighting(periodic: bool) | Biorthogonal(periodic: bool) {
    predicate IsPeriodic() {
      !Hat? && this.periodic
    }
  }

  function Decompose(k: nat): Step { Predict(k, true) }

  function Averaging(k: nat, periodic: bool): Step { Smooth(k, Average, periodic) }

  function Updating(k: nat, periodic: bool): Step { Smooth(k, Update, periodic) }

  /** Hierarchization of one level: the points at odd multiples of 2^k become surpluses. */
  function Forward(lmax: nat, b: Basis, k: nat, u: seq<real>): (v: seq<real>)
    requires k < lmax && |u| == Pow2(lmax) + 1
    ensures |v| == |u|
  {
    match b
    case Hat => Apply(lmax, Decompose(k), u)
    case FullWeighting(p) => Apply(lmax, Decompose(k), Apply(lmax, Averaging(k, p), u))
    case Biorthogonal(p) => Apply(lmax, Updating(k, p), Apply(lmax, Decompose(k), u))
  }

  function Backward(lmax: nat, b: Basis, k: nat, u: seq<real>): (v: seq<real>)
    requires k < lmax && |u| == Pow2(lmax) + 1
    ensures |v| == |u|
  {
    match b
    case Hat => Apply(lmax, Undo(Decompose(k)), u)
    case FullWeighting(p) => Apply(lmax, Undo(Averaging(k, p)), Apply(lmax, Undo(Decompose(k)), u))
    case Biorthogonal(p) => Apply(lmax, Undo(Decompose(k)), Apply(lmax, Undo(Updating(k, p)), u))
  }

  /** Hierarchization of the finest `stages` levels, finest first. */
  function Hierarchized(lmax: nat, b: Basis, stages: nat, u: seq<real>): (v: seq<real>)
    requires stages <= lmax && |u| == Pow2(lmax) + 1
    ensures |v| == |u|
  {
    if stages == 0 then u else Forward(lmax, b, stages - 1, Hierarchized(lmax, b, stages - 1, u))
  }

  /** Dehierarchization of the levels from stage `stages` - 1 down to stage `from`, coarsest first. */
  function Dehierarchized(lmax: nat, b: Basis, stages: nat, from: nat, u: seq<real>): (v: seq<real>)
    requires from <= stages <= lmax && |u| == Pow2(lmax) + 1
    ensures |v| == |u|
    decreases stages - from
  {
    if from == stages then u else Backward(lmax, b, from, Dehierarchized(lmax, b, stages, from + 1, u))
  }

  lemma StageUp(lmax: nat, b: Basis, stages: nat, u: seq<real>)
    requires 0 < stages <= lmax && |u| == Pow2(lmax) + 1
    ensures Hierarchized(lmax, b, stages, u) == Forward(lmax, b, stages - 1, Hierarchized(lmax, b, stages - 1, u))
  {
  }

  lemma StageDown(lmax: nat, b: Basis, stages: nat, from: nat, u: seq<real>)
    requires from < stages <= lmax && |u| == Pow2(lmax) + 1
    ensures Dehierarchized(lmax, b, stages, from, u)
            == Backward(lmax, b, from, Dehierarchized(lmax, b, stages, from + 1, u))
  {
  }

  lemma NoStage(lmax: nat, b: Basis, stages: nat, u: seq<real>)
    requires stages <= lmax && |u| == Pow2(lmax) + 1
    ensures Hierarchized(lmax, b, 0, u) == u && Dehierarchized(lmax, b, stages, stages, u) == u
  {
  }

  lemma PredictKeepsEnds(lmax: nat, s: Step, u: seq<real>)
    requires Fits(lmax, s) && |u| == Pow2(lmax) + 1 && s.Predict?
    ensures Apply(lmax, s, u)[0] == u[0] && Apply(lmax, s, u)[Pow2(lmax)] == u[Pow2(lmax)]
  {
    MultZero(s.k);
    MultPow2(s.k + 1, lmax);
    MultSplit(s.k, Pow2(lmax));
  }

  /** One level of hierarchization and one level of dehierarchization undo each other, both ways. */
  lemma StageRoundTrip(lmax: nat, b: Basis, k: nat, u: seq<real>)
    requires k < lmax && |u| == Pow2(lmax) + 1 && (b.IsPeriodic() ==> EndsEqual(u))
    ensures Backward(lmax, b, k, Forward(lmax, b, k, u)) == u
    ensures Forward(lmax, b, k, Backward(lmax, b, k, u)) == u
    ensures b.IsPeriodic() ==> EndsEqual(Forward(lmax, b, k, u)) && EndsEqual(Backward(lmax, b, k, u))
  {
    match b
    case Hat =>
      UndoBoth(lmax, Decompose(k), u);
    case FullWeighting(p) =>
      StepPairRoundTrip(lmax, Averaging(k, p), Decompose(k), u);
    case Biorthogonal(p) =>
      StepPairRoundTrip(lmax, Decompose(k), Updating(k, p), u);
  }

  lemma UndoBoth(lmax: nat, s: Step, u: seq<real>)
    requires Fits(lmax, s) && |u| == Pow2(lmax) + 1 && (IsPeriodicStep(s) ==> EndsEqual(u))
    ensures Apply(lmax, Undo(s), Apply(lmax, s, u)) == u && Apply(lmax, s, Apply(lmax, Undo(s), u)) == u
    ensures EndsEqual(u) && (s.Smooth? ==> s.periodic) ==>
            EndsEqual(Apply(lmax, s, u)) && EndsEqual(Apply(lmax, Undo(s), u))
  {
    UndoApply(lmax, s, u);
    UndoApply(lmax, Undo(s), u);
    UndoIsInvolution(s);
    if EndsEqual(u) && (s.Smooth? ==> s.periodic) {
      StepKeepsEndsEqual(lmax, s, u);
      StepKeepsEndsEqual(lmax, Undo(s), u);
    }
  }

  lemma StepKeepsEndsEqual(lmax: nat, s: Step, u: seq<real>)
    requires Fits(lmax, s) && |u| == Pow2(lmax) + 1 && EndsEqual(u) && (s.Smooth? ==> s.periodic)
    ensures EndsEqual(Apply(lmax, s, u))
  {
    if s.Predict? {
      PredictKeepsEnds(lmax, s, u);
    } else {
      EndsStayEqual(lmax, s, u);
    }
  }

  lemma StepPairRoundTrip(lmax: nat, s: Step, t: Step, u: seq<real>)
    requires Fits(lmax, s) && Fits(lmax, t) && |u| == Pow2(lmax) + 1
    requires IsPeriodicStep(s) || IsPeriodicStep(t) ==> EndsEqual(u)
    requires s.Smooth? <==> t.Predict?
    ensures Apply(lmax, Undo(s), Apply(lmax, Undo(t), Apply(lmax, t, Apply(lmax, s, u)))) == u
    ensures Apply(lmax, t, Apply(lmax, s, Apply(lmax, Undo(s), Apply(lmax, Undo(t), u)))) == u
    ensures IsPeriodicStep(s) || IsPeriodicStep(t) ==>
              EndsEqual(Apply(lmax, t, Apply(lmax, s, u)))
              && EndsEqual(Apply(lmax, Undo(s), Apply(lmax, Undo(t), u)))
  {
    UndoBoth(lmax, s, u);
    UndoBoth(lmax, t, Apply(lmax, s, u));
    UndoBoth(lmax, t, u);
    UndoBoth(lmax, s, Apply(lmax, Undo(t), u));
  }

  lemma {:induction false} HierarchizedEnds(lmax: nat, b: Basis, stages: nat, u: seq<real>)
    requires stages <= lmax && |u| == Pow2(lmax) + 1 && b.IsPeriodic() && EndsEqual(u)
    ensures EndsEqual(Hierarchized(lmax, b, stages, u))
  {
    hide *;
    if stages > 0 {
      HierarchizedEnds(lmax, b, stages - 1, u);
      LastStageEnds(lmax, b, stages - 1, Hierarchized(lmax, b, stages - 1, u));
      StageUp(lmax, b, stages, u);
    } else {
      NoStage(lmax, b, stages, u);
    }
  }

  lemma {:induction false} DehierarchizedEnds(lmax: nat, b: Basis, stages: nat, from: nat, u: seq<real>)
    requires from <= stages <= lmax && |u| == Pow2(lmax) + 1 && b.IsPeriodic() && EndsEqual(u)
    ensures EndsEqual(Dehierarchized(lmax, b, stages, from, u))
    decreases stages - from
  {
    if from < stages {
      var v := Dehierarchized(lmax, b, stages, from + 1, u);
      DehierarchizedEnds(lmax, b, stages, from + 1, u);
      LastStageEnds(lmax, b, from, v);
    }
  }

  /** After undoing the coarse stages, exactly the fine stages are left. */
  lemma {:induction false} PartialRoundTrip(lmax: nat, b: Basis, stages: nat, from: nat, u: seq<real>)
    requires from <= stages <= lmax && |u| == Pow2(lmax) + 1 && (b.IsPeriodic() ==> EndsEqual(u))
    ensures Dehierarchized(lmax, b, stages, from, Hierarchized(lmax, b, stages, u)) == Hierarchized(lmax, b, from, u)
    decreases stages - from
  {
    if from < stages {
      PartialRoundTrip(lmax, b, stages, from + 1, u);
      if b.IsPeriodic() {
        HierarchizedEnds(lmax, b, from, u);
      }
      var v := Hierarchized(lmax, b, from, u);
      assert Hierarchized(lmax, b, from + 1, u) == Forward(lmax, b, from, v);
      StageRoundTrip(lmax, b, from, v);
    }
  }

  lemma {:induction false} PartialRoundTripBack(lmax: nat, b: Basis, stages: nat, upto: nat, u: seq<real>)
    requires upto <= stages <= lmax && |u| == Pow2(lmax) + 1 && (b.IsPeriodic() ==> EndsEqual(u))
    ensures Hierarchized(lmax, b, upto, Dehierarchized(lmax, b, stages, 0, u))
            == Dehierarchized(lmax, b, stages, upto, u)
    decreases upto
  {
    hide Pow2, Backward;
    if upto > 0 {
      var v := Dehierarchized(lmax, b, stages, upto, u);
      PartialRoundTripBack(lmax, b, stages, upto - 1, u);
      if b.IsPeriodic() {
        DehierarchizedEnds(lmax, b, stages, upto, u);
      }
      assert Dehierarchized(lmax, b, stages, upto - 1, u) == Backward(lmax, b, upto - 1, v);
      StageRoundTrip(lmax, b, upto - 1, v);
    }
  }

  /** Hierarchization and dehierarchization are two-sided inverses on every pole, for every basis and
      every lmin.  A periodic basis needs equal end values, and there it is not only sufficient: its
      transforms return equal end values, so nothing else can be restored. */
  lemma RoundTrip(lmax: nat, b: Basis, stages: nat, u: seq<real>)
    requires stages <= lmax && |u| == Pow2(lmax) + 1
    ensures Dehierarchized(lmax, b, stages, 0, Hierarchized(lmax, b, stages, u)) == u
            <==> (b.IsPeriodic() && stages > 0 ==> EndsEqual(u))
    ensures Hierarchized(lmax, b, stages, Dehierarchized(lmax, b, stages, 0, u)) == u
            <==> (b.IsPeriodic() && stages > 0 ==> EndsEqual(u))
  {
    if stages == 0 {
    } else if b.IsPeriodic() && !EndsEqual(u) {
      LastStageEnds(lmax, b, 0, Dehierarchized(lmax, b, stages, 1, Hierarchized(lmax, b, stages, u)));
      LastStageEnds(lmax, b, stages - 1, Hierarchized(lmax, b, stages - 1, Dehierarchized(lmax, b, stages, 0, u)));
    } else {
      PartialRoundTrip(lmax, b, stages, 0, u);
      PartialRoundTripBack(lmax, b, stages, stages, u);
    }
  }

  lemma LastStageEnds(lmax: nat, b: Basis, k: nat, u: seq<real>)
    requires k < lmax && |u| == Pow2(lmax) + 1 && b.IsPeriodic()
    ensures EndsEqual(Forward(lmax, b, k, u)) && EndsEqual(Backward(lmax, b, k, u))
  {
    match b
    case FullWeighting(p) =>
      var v, v' := Apply(lmax, Averaging(k, p), u), Apply(lmax, Undo(Decompose(k)), u);
      EndsStayEqual(lmax, Averaging(k, p), u);
      PredictKeepsEnds(lmax, Decompose(k), v);
      EndsStayEqual(lmax, Undo(Averaging(k, p)), v');
    case Biorthogonal(p) =>
      var v, v' := Apply(lmax, Decompose(k), u), Apply(lmax, Undo(Updating(k, p)), u);
      EndsStayEqual(lmax, Updating(k, p), v);
      EndsStayEqual(lmax, Undo(Updating(k, p)), u);
      PredictKeepsEnds(lmax, Undo(Decompose(k)), v');
  }
}
