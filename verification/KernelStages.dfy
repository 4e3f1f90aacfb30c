/** What one level of a transform makes of every point of a pole, with all weights written out, and what becomes of
    constant values. */
module KernelStages {
  import opened Dyadic
  import opened Lifting
  import opened Bases
  import opened NoBoundary

  /** The full weighting of the odd and the even multiples of w = 2^k: an even one takes in its two neighbours, then
      an odd one loses the mean of its two new neighbours. */
  ghost predicate IsWeighted(lmax: nat, k: nat, periodic: bool, u: seq<real>, v: seq<real>, x: int)
    requires |u| == |v| == Pow2(lmax) + 1 && 0 <= x <= Pow2(lmax) && Pow2(k) <= Pow2(lmax)
  {
    var n, w := Pow2(lmax), Pow2(k);
    if x == 0 && !periodic then v[0] == (u[0] + u[w]) / 2.0
    else if x == n && !periodic then v[n] == (u[n] + u[n - w]) / 2.0
    else if x == 0 || x == n then v[x] == (u[0] + u[n] + u[w] + u[n - w]) / 4.0
    else if OddMult(k, x) then w <= x <= n - w && v[x] == u[x] - (v[x - w] + v[x + w]) / 2.0
    else if Mult(k + 1, x) then w <= x <= n - w && v[x] == (u[x - w] + 2.0 * u[x] + u[x + w]) / 4.0
    else v[x] == u[x]
  }

  /** The full weighting undone: an odd multiple gains the mean of its two old neighbours, then an even one gives back
      what it took in. */
  ghost predicate IsUnweighted(lmax: nat, k: nat, periodic: bool, u: seq<real>, v: seq<real>, x: int)
    requires |u| == |v| == Pow2(lmax) + 1 && 0 <= x <= Pow2(lmax) && Pow2(k) <= Pow2(lmax)
  {
    var n, w := Pow2(lmax), Pow2(k);
    if x == 0 && !periodic then v[0] == 2.0 * u[0] - v[w]
    else if x == n && !periodic then v[n] == 2.0 * u[n] - v[n - w]
    else if x == 0 || x == n then v[x] == u[0] + u[n] - (v[w] + v[n - w]) / 2.0
    else if OddMult(k, x) then w <= x <= n - w && v[x] == u[x] + (u[x - w] + u[x + w]) / 2.0
    else if Mult(k + 1, x) then w <= x <= n - w && v[x] == 2.0 * u[x] - (v[x - w] + v[x + w]) / 2.0
    else v[x] == u[x]
  }

  /** The biorthogonal transform of one level: an odd multiple loses the mean of its two neighbours, then an even one
      gains a quarter of each of its two new neighbours. */
  ghost predicate IsUpdated(lmax: nat, k: nat, periodic: bool, u: seq<real>, v: seq<real>, x: int)
    requires |u| == |v| == Pow2(lmax) + 1 && 0 <= x <= Pow2(lmax) && Pow2(k) <= Pow2(lmax)
  {
    var n, w := Pow2(lmax), Pow2(k);
    if x == 0 && !periodic then v[0] == u[0] + v[w] / 2.0
    else if x == n && !periodic then v[n] == u[n] + v[n - w] / 2.0
    else if x == 0 || x == n then v[x] == (u[0] + u[n]) / 2.0 + (v[w] + v[n - w]) / 4.0
    else if OddMult(k, x) then w <= x <= n - w && v[x] == u[x] - (u[x - w] + u[x + w]) / 2.0
    else if Mult(k + 1, x) then w <= x <= n - w && v[x] == u[x] + (v[x - w] + v[x + w]) / 4.0
    else v[x] == u[x]
  }

  ghost predicate IsDowndated(lmax: nat, k: nat, periodic: bool, u: seq<real>, v: seq<real>, x: int)
    requires |u| == |v| == Pow2(lmax) + 1 && 0 <= x <= Pow2(lmax) && Pow2(k) <= Pow2(lmax)
  {
    var n, w := Pow2(lmax), Pow2(k);
    if x == 0 && !periodic then v[0] == u[0] - u[w] / 2.0
    else if x == n && !periodic then v[n] == u[n] - u[n - w] / 2.0
    else if x == 0 || x == n then v[x] == (u[0] + u[n]) / 2.0 - (u[w] + u[n - w]) / 4.0
    else if OddMult(k, x) then w <= x <= n - w && v[x] == u[x] + (v[x - w] + v[x + w]) / 2.0
    else if Mult(k + 1, x) then w <= x <= n - w && v[x] == u[x] - (u[x - w] + u[x + w]) / 4.0
    else v[x] == u[x]
  }

  /** The hat basis at one level: an odd multiple loses, or gains, the mean of its two neighbours. */
  ghost predicate IsPredicted(lmax: nat, k: nat, sign: real, u: seq<real>, v: seq<real>, x: int)
    requires |u| == |v| == Pow2(lmax) + 1 && 0 <= x <= Pow2(lmax)
  {
    var n, w := Pow2(lmax), Pow2(k);
    if OddMult(k, x) then w <= x <= n - w && v[x] == u[x] + sign * ((u[x - w] + u[x + w]) / 2.0) else v[x] == u[x]
  }

  /** The values before and after hierarchizing the level with spacing 2^k. */
  ghost predicate IsStageUp(lmax: nat, b: Basis, k: nat, u: seq<real>, v: seq<real>) {
    && |u| == |v| == Pow2(lmax) + 1 && Pow2(k) <= Pow2(lmax)
    && forall x {:trigger v[x]} :: 0 <= x <= Pow2(lmax) ==>
         match b
         case Hat => IsPredicted(lmax, k, -1.0, u, v, x)
         case FullWeighting(p) => IsWeighted(lmax, k, p, u, v, x)
         case Biorthogonal(p) => IsUpdated(lmax, k, p, u, v, x)
  }

  /** The values before and after dehierarchizing it. */
  ghost predicate IsStageDown(lmax: nat, b: Basis, k: nat, u: seq<real>, v: seq<real>) {
    && |u| == |v| == Pow2(lmax) + 1 && Pow2(k) <= Pow2(lmax)
    && forall x {:trigger v[x]} :: 0 <= x <= Pow2(lmax) ==>
         match b
         case Hat => IsPredicted(lmax, k, 1.0, u, v, x)
         case FullWeighting(p) => IsUnweighted(lmax, k, p, u, v, x)
         case Biorthogonal(p) => IsDowndated(lmax, k, p, u, v, x)
  }

  /** The kinds of points at stage k: ends, inner even multiples, odd multiples, and the rest. */
  lemma KindsOfPoints(lmax: nat, k: nat, x: int)
    requires k < lmax && 0 <= x <= Pow2(lmax)
    ensures Pow2(k) < Pow2(lmax) && !OddMult(k, 0) && !OddMult(k, Pow2(lmax))
    ensures Mult(k, 0) && Mult(k, Pow2(lmax)) && Mult(k + 1, 0) && Mult(k + 1, Pow2(lmax))
    ensures OddMult(k, x) ==> Pow2(k) <= x <= Pow2(lmax) - Pow2(k) && !IsSmoothed(lmax, k, x)
                              && IsSmoothed(lmax, k, x - Pow2(k)) && IsSmoothed(lmax, k, x + Pow2(k))
    ensures 0 < x < Pow2(lmax) && Mult(k + 1, x) ==>
              Pow2(k) <= x <= Pow2(lmax) - Pow2(k) && OddMult(k, x - Pow2(k)) && OddMult(k, x + Pow2(k))
    ensures OddMult(k, Pow2(k)) && OddMult(k, Pow2(lmax) - Pow2(k))
    ensures OddMult(k, x) ==> Mult(k, x) && !Mult(k + 1, x)
    ensures !Mult(k, x) ==> !OddMult(k, x) && !IsSmoothed(lmax, k, x)
  {
    Pow2Monotone(k, lmax);
    EndsAreNoTargets(lmax, k);
    MultZero(k);
    MultZero(k + 1);
    MultPow2(k, lmax);
    MultPow2(k + 1, lmax);
    MultPow2(k, k);
    Neighbours(k, x);
    Neighbours(k, Pow2(lmax));
    MultSplit(k, x);
    if OddMult(k, x) {
      OddIsInside(lmax, k, x);
    } else if 0 < x < Pow2(lmax) && Mult(k + 1, x) {
      EvenIsInside(lmax, k, x);
    }
  }

  /** The values of one step, by the kind of the point. */
  lemma PredictValue(lmax: nat, k: nat, subtract: bool, u: seq<real>, x: int)
    requires k < lmax && |u| == Pow2(lmax) + 1 && 0 <= x <= Pow2(lmax)
    ensures OddMult(k, x) ==> Pow2(k) <= x <= Pow2(lmax) - Pow2(k)
                              && Apply(lmax, Predict(k, subtract), u)[x]
                                 == u[x] + Half(subtract, u[x - Pow2(k)]) + Half(subtract, u[x + Pow2(k)])
    ensures !OddMult(k, x) ==> Apply(lmax, Predict(k, subtract), u)[x] == u[x]
  {
    if OddMult(k, x) {
      OddIsInside(lmax, k, x);
    }
  }

  lemma SmoothValue(lmax: nat, k: nat, b: Blend, periodic: bool, u: seq<real>, x: int)
    requires k < lmax && |u| == Pow2(lmax) + 1 && 0 <= x <= Pow2(lmax)
    ensures 0 < x < Pow2(lmax) && Mult(k + 1, x) ==>
              Pow2(k) <= x <= Pow2(lmax) - Pow2(k)
              && Apply(lmax, Smooth(k, b, periodic), u)[x]
                 == Keep(b, u[x]) + Mix(b, u[x - Pow2(k)]) + Mix(b, u[x + Pow2(k)])
    ensures !IsSmoothed(lmax, k, x) ==> Apply(lmax, Smooth(k, b, periodic), u)[x] == u[x]
  {
    if 0 < x < Pow2(lmax) && Mult(k + 1, x) {
      EvenIsInside(lmax, k, x);
    }
  }

  lemma SmoothEndValues(lmax: nat, k: nat, b: Blend, periodic: bool, u: seq<real>)
    requires k < lmax && |u| == Pow2(lmax) + 1
    ensures 0 < Pow2(k) < Pow2(lmax)
    ensures var n, w, v := Pow2(lmax), Pow2(k), Apply(lmax, Smooth(k, b, periodic), u);
            if periodic then v[0] == v[n] == Keep(b, 0.5 * (u[0] + u[n])) + Mix(b, u[w]) + Mix(b, u[n - w])
            else v[0] == Keep(b, u[0]) + Mix(b, u[w]) + Mix(b, u[w])
                 && v[n] == Keep(b, u[n]) + Mix(b, u[n - w]) + Mix(b, u[n - w])
  {
    hide Keep, Mix, Mult;
    Pow2Monotone(k, lmax);
  }

  /** Smoothing first: the odd points then see the smoothed neighbours. */
  lemma SmoothThenPredict(lmax: nat, k: nat, b: Blend, periodic: bool, subtract: bool, u: seq<real>, x: int)
    requires k < lmax && |u| == Pow2(lmax) + 1 && 0 <= x <= Pow2(lmax)
    ensures var t := Apply(lmax, Smooth(k, b, periodic), u);
            var v := Apply(lmax, Predict(k, subtract), t);
            if OddMult(k, x) then
              Pow2(k) <= x <= Pow2(lmax) - Pow2(k)
              && v[x] == u[x] + Half(subtract, v[x - Pow2(k)]) + Half(subtract, v[x + Pow2(k)])
            else v[x] == t[x]
  {
    hide Apply, Mult, OddMult, Pow2, IsSmoothed, Half;
    var w, t := Pow2(k), Apply(lmax, Smooth(k, b, periodic), u);
    KindsOfPoints(lmax, k, x);
    PredictValue(lmax, k, subtract, t, x);
    if OddMult(k, x) {
      KindsOfPoints(lmax, k, x - w);
      KindsOfPoints(lmax, k, x + w);
      PredictValue(lmax, k, subtract, t, x - w);
      PredictValue(lmax, k, subtract, t, x + w);
      EvenIsNotOdd(lmax, k, x - w);
      EvenIsNotOdd(lmax, k, x + w);
      SmoothValue(lmax, k, b, periodic, u, x);
    }
  }

  lemma EvenIsNotOdd(lmax: nat, k: nat, x: int)
    requires k < lmax && IsSmoothed(lmax, k, x)
    ensures !OddMult(k, x)
  {
    KindsOfPoints(lmax, k, x);
  }

  /** Smoothing last: the even points then see the changed odd points, and leave them alone. */
  lemma PredictThenSmooth(lmax: nat, k: nat, b: Blend, periodic: bool, subtract: bool, u: seq<real>, x: int)
    requires k < lmax && |u| == Pow2(lmax) + 1 && 0 <= x <= Pow2(lmax)
    ensures var t := Apply(lmax, Predict(k, subtract), u);
            var v := Apply(lmax, Smooth(k, b, periodic), t);
            && (OddMult(k, x) ==>
                  Pow2(k) <= x <= Pow2(lmax) - Pow2(k)
                  && v[x] == u[x] + Half(subtract, u[x - Pow2(k)]) + Half(subtract, u[x + Pow2(k)]))
            && (0 < x < Pow2(lmax) && Mult(k + 1, x) ==>
                  Pow2(k) <= x <= Pow2(lmax) - Pow2(k)
                  && v[x] == Keep(b, u[x]) + Mix(b, v[x - Pow2(k)]) + Mix(b, v[x + Pow2(k)]))
            && (!Mult(k, x) ==> v[x] == u[x])
  {
    hide Apply, Mult, OddMult, Pow2, IsSmoothed, Half, Mix, Keep;
    var w, t := Pow2(k), Apply(lmax, Predict(k, subtract), u);
    KindsOfPoints(lmax, k, x);
    PredictValue(lmax, k, subtract, u, x);
    SmoothValue(lmax, k, b, periodic, t, x);
    if 0 < x < Pow2(lmax) && Mult(k + 1, x) {
      KindsOfPoints(lmax, k, x - w);
      KindsOfPoints(lmax, k, x + w);
      SmoothValue(lmax, k, b, periodic, t, x - w);
      SmoothValue(lmax, k, b, periodic, t, x + w);
    }
  }

  lemma PredictThenSmoothEnds(lmax: nat, k: nat, b: Blend, periodic: bool, subtract: bool, u: seq<real>)
    requires k < lmax && |u| == Pow2(lmax) + 1
    ensures 0 < Pow2(k) < Pow2(lmax)
    ensures var n, w := Pow2(lmax), Pow2(k);
            var v := Apply(lmax, Smooth(k, b, periodic), Apply(lmax, Predict(k, subtract), u));
            if periodic then v[0] == v[n] == Keep(b, 0.5 * (u[0] + u[n])) + Mix(b, v[w]) + Mix(b, v[n - w])
            else v[0] == Keep(b, u[0]) + Mix(b, v[w]) + Mix(b, v[w])
                 && v[n] == Keep(b, u[n]) + Mix(b, v[n - w]) + Mix(b, v[n - w])
  {
    hide Apply, Mult, OddMult, Pow2, IsSmoothed, Half, Mix, Keep;
    var n, w, t := Pow2(lmax), Pow2(k), Apply(lmax, Predict(k, subtract), u);
    KindsOfPoints(lmax, k, 0);
    KindsOfPoints(lmax, k, w);
    KindsOfPoints(lmax, k, n - w);
    PredictValue(lmax, k, subtract, u, 0);
    PredictValue(lmax, k, subtract, u, n);
    SmoothEndValues(lmax, k, b, periodic, t);
    SmoothValue(lmax, k, b, periodic, t, w);
    SmoothValue(lmax, k, b, periodic, t, n - w);
  }

  /** One level of hierarchization in the full weighting basis, at every point. */
  lemma FullWeightingForward(lmax: nat, k: nat, periodic: bool, u: seq<real>, x: int)
    requires k < lmax && |u| == Pow2(lmax) + 1 && 0 <= x <= Pow2(lmax)
    ensures Pow2(k) <= Pow2(lmax)
    ensures IsWeighted(lmax, k, periodic, u, Forward(lmax, FullWeighting(periodic), k, u), x)
  {
    hide Apply, Mult, OddMult, IsSmoothed, Pow2;
    KindsOfPoints(lmax, k, x);
    MultSplit(k, x);
    SmoothThenPredict(lmax, k, Average, periodic, true, u, x);
    SmoothValue(lmax, k, Average, periodic, u, x);
    SmoothEndValues(lmax, k, Average, periodic, u);
  }

  /** One level of dehierarchization in the full weighting basis, at every point. */
  lemma FullWeightingBackward(lmax: nat, k: nat, periodic: bool, u: seq<real>, x: int)
    requires k < lmax && |u| == Pow2(lmax) + 1 && 0 <= x <= Pow2(lmax)
    ensures Pow2(k) <= Pow2(lmax)
    ensures IsUnweighted(lmax, k, periodic, u, Backward(lmax, FullWeighting(periodic), k, u), x)
  {
    hide Apply, Mult, OddMult, IsSmoothed, Pow2;
    KindsOfPoints(lmax, k, x);
    PredictThenSmooth(lmax, k, Unaverage, periodic, false, u, x);
    PredictThenSmoothEnds(lmax, k, Unaverage, periodic, false, u);
    MultSplit(k, x);
  }

  lemma BiorthogonalForward(lmax: nat, k: nat, periodic: bool, u: seq<real>, x: int)
    requires k < lmax && |u| == Pow2(lmax) + 1 && 0 <= x <= Pow2(lmax)
    ensures Pow2(k) <= Pow2(lmax)
    ensures IsUpdated(lmax, k, periodic, u, Forward(lmax, Biorthogonal(periodic), k, u), x)
  {
    hide Apply, Mult, OddMult, IsSmoothed, Pow2;
    KindsOfPoints(lmax, k, x);
    PredictThenSmooth(lmax, k, Update, periodic, true, u, x);
    PredictThenSmoothEnds(lmax, k, Update, periodic, true, u);
    MultSplit(k, x);
  }

  lemma BiorthogonalBackward(lmax: nat, k: nat, periodic: bool, u: seq<real>, x: int)
    requires k < lmax && |u| == Pow2(lmax) + 1 && 0 <= x <= Pow2(lmax)
    ensures Pow2(k) <= Pow2(lmax)
    ensures IsDowndated(lmax, k, periodic, u, Backward(lmax, Biorthogonal(periodic), k, u), x)
  {
    hide Apply, Mult, OddMult, IsSmoothed, Pow2;
    KindsOfPoints(lmax, k, x);
    MultSplit(k, x);
    SmoothThenPredict(lmax, k, Downdate, periodic, false, u, x);
    SmoothValue(lmax, k, Downdate, periodic, u, x);
    SmoothEndValues(lmax, k, Downdate, periodic, u);
  }

  lemma HatStage(lmax: nat, k: nat, u: seq<real>, x: int)
    requires k < lmax && |u| == Pow2(lmax) + 1 && 0 <= x <= Pow2(lmax)
    ensures IsPredicted(lmax, k, -1.0, u, Forward(lmax, Hat, k, u), x)
    ensures IsPredicted(lmax, k, 1.0, u, Backward(lmax, Hat, k, u), x)
  {
    hide Apply, Pow2, OddMult;
    PredictValue(lmax, k, true, u, x);
    PredictValue(lmax, k, false, u, x);
  }

  lemma OneStage(lmax: nat, b: Basis, k: nat, u: seq<real>)
    requires k < lmax && |u| == Pow2(lmax) + 1
    ensures IsStageUp(lmax, b, k, u, Forward(lmax, b, k, u))
    ensures IsStageDown(lmax, b, k, u, Backward(lmax, b, k, u))
  {
    hide Pow2, Forward, Backward, IsPredicted, IsWeighted, IsUnweighted, IsUpdated, IsDowndated;
    KindsOfPoints(lmax, k, 0);
    forall x | 0 <= x <= Pow2(lmax)
      ensures b.Hat? ==> IsPredicted(lmax, k, -1.0, u, Forward(lmax, b, k, u), x)
                         && IsPredicted(lmax, k, 1.0, u, Backward(lmax, b, k, u), x)
      ensures b.FullWeighting? ==> IsWeighted(lmax, k, b.periodic, u, Forward(lmax, b, k, u), x)
                                   && IsUnweighted(lmax, k, b.periodic, u, Backward(lmax, b, k, u), x)
      ensures b.Biorthogonal? ==> IsUpdated(lmax, k, b.periodic, u, Forward(lmax, b, k, u), x)
                                  && IsDowndated(lmax, k, b.periodic, u, Backward(lmax, b, k, u), x)
    {
      match b
      case Hat => HatStage(lmax, k, u, x);
      case FullWeighting(p) =>
        FullWeightingForward(lmax, k, p, u, x);
        FullWeightingBackward(lmax, k, p, u, x);
      case Biorthogonal(p) =>
        BiorthogonalForward(lmax, k, p, u, x);
        BiorthogonalBackward(lmax, k, p, u, x);
    }
  }

  /** The kernels go through the levels one by one, from the finest to the coarsest when they hierarchize and back when
      they dehierarchize, and each level is treated with the weights of its basis. */
  lemma LevelByLevel(lmax: nat, b: Basis, stages: nat, k: nat, u: seq<real>)
    requires k < stages <= lmax && |u| == Pow2(lmax) + 1
    ensures Hierarchized(lmax, b, 0, u) == u && Dehierarchized(lmax, b, stages, stages, u) == u
    ensures IsStageUp(lmax, b, k, Hierarchized(lmax, b, k, u), Hierarchized(lmax, b, k + 1, u))
    ensures IsStageDown(lmax, b, k, Dehierarchized(lmax, b, stages, k + 1, u), Dehierarchized(lmax, b, stages, k, u))
  {
    hide *;
    NoStage(lmax, b, stages, u);
    StageUp(lmax, b, k + 1, u);
    StageDown(lmax, b, stages, k, u);
    OneStage(lmax, b, k, Hierarchized(lmax, b, k, u));
    OneStage(lmax, b, k, Dehierarchized(lmax, b, stages, k + 1, u));
  }

  /** Hierarchizing a constant leaves zero at every point of the treated levels and the constant at every coarser one,
      in every basis. */
  lemma {:induction false} ConstantsVanish(lmax: nat, b: Basis, stages: nat, c: real)
    requires stages <= lmax
    ensures Pow2(lmax) + 1 >= 0
    ensures IsConstant(lmax, stages, c, Hierarchized(lmax, b, stages, seq(Pow2(lmax) + 1, i => c)))
  {
    hide Pow2, Forward;
    var u := seq(Pow2(lmax) + 1, i => c);
    if stages > 0 {
      ConstantsVanish(lmax, b, stages - 1, c);
      var v := Hierarchized(lmax, b, stages - 1, u);
      forall x | 0 <= x <= Pow2(lmax)
        ensures Forward(lmax, b, stages - 1, v)[x] == if Mult(stages, x) then c else 0.0
      {
        ConstantStage(lmax, b, stages - 1, c, v, x);
      }
    }
  }

  /** The constant c at all multiples of 2^k, zero elsewhere. */
  ghost predicate IsConstant(lmax: nat, k: nat, c: real, u: seq<real>) {
    |u| == Pow2(lmax) + 1 && forall x {:trigger u[x]} :: 0 <= x <= Pow2(lmax) ==> u[x] == if Mult(k, x) then c else 0.0
  }

  lemma EvenNeighbours(lmax: nat, k: nat, x: int)
    requires k < lmax && 0 <= x <= Pow2(lmax)
    ensures OddMult(k, x) ==> Mult(k, x) && Mult(k, x - Pow2(k)) && Mult(k, x + Pow2(k))
                              && !OddMult(k, x - Pow2(k)) && !OddMult(k, x + Pow2(k))
    ensures Mult(k + 1, x) ==> Mult(k, x - Pow2(k)) && Mult(k, x + Pow2(k))
    ensures OddMult(k, x) ==> Mult(k + 1, x - Pow2(k)) && Mult(k + 1, x + Pow2(k))
    ensures Mult(k, Pow2(k)) && Mult(k, Pow2(lmax) - Pow2(k))
  {
    KindsOfPoints(lmax, k, x);
    Neighbours(k, x);
    MultSplit(k, x);
    MultSplit(k, x - Pow2(k));
    MultSplit(k, x + Pow2(k));
    MultSplit(k, Pow2(k));
    MultSplit(k, Pow2(lmax) - Pow2(k));
  }

  lemma ConstantStage(lmax: nat, b: Basis, k: nat, c: real, u: seq<real>, x: int)
    requires k < lmax && IsConstant(lmax, k, c, u) && 0 <= x <= Pow2(lmax)
    ensures Forward(lmax, b, k, u)[x] == if Mult(k + 1, x) then c else 0.0
  {
    hide *;
    match b
    case Hat =>
      DecomposedConstant(lmax, k, c, u, x);
    case FullWeighting(p) =>
      WeightedConstant(lmax, k, p, c, u, x);
    case Biorthogonal(p) =>
      UpdatedConstant(lmax, k, p, c, u, x);
  }

  lemma DecomposedConstant(lmax: nat, k: nat, c: real, u: seq<real>, x: int)
    requires k < lmax && IsConstant(lmax, k, c, u) && 0 <= x <= Pow2(lmax)
    ensures Forward(lmax, Hat, k, u)[x] == if Mult(k + 1, x) then c else 0.0
  {
    hide Pow2, Mult, OddMult, IsSmoothed, Apply;
    MultSplit(k, x);
    EvenNeighbours(lmax, k, x);
    PredictValue(lmax, k, true, u, x);
  }

  lemma WeightedConstant(lmax: nat, k: nat, periodic: bool, c: real, u: seq<real>, x: int)
    requires k < lmax && IsConstant(lmax, k, c, u) && 0 <= x <= Pow2(lmax)
    ensures Forward(lmax, FullWeighting(periodic), k, u)[x] == if Mult(k + 1, x) then c else 0.0
  {
    hide Pow2, Mult, OddMult, IsSmoothed, Forward, IsConstant;
    WeightedEvenPoint(lmax, k, periodic, c, u, x);
    if OddMult(k, x) {
      ConstantHere(lmax, k, c, u, x);
      MultSplit(k, x);
      EvenNeighbours(lmax, k, x);
      FullWeightingForward(lmax, k, periodic, u, x);
      KindsOfPoints(lmax, k, x);
      WeightedEvenPoint(lmax, k, periodic, c, u, x - Pow2(k));
      WeightedEvenPoint(lmax, k, periodic, c, u, x + Pow2(k));
    }
  }

  lemma ConstantHere(lmax: nat, k: nat, c: real, u: seq<real>, x: int)
    requires IsConstant(lmax, k, c, u) && 0 <= x <= Pow2(lmax)
    ensures |u| == Pow2(lmax) + 1 && u[x] == if Mult(k, x) then c else 0.0
  {
  }

  lemma WeightedEvenPoint(lmax: nat, k: nat, periodic: bool, c: real, u: seq<real>, x: int)
    requires k < lmax && IsConstant(lmax, k, c, u) && 0 <= x <= Pow2(lmax)
    ensures !OddMult(k, x) ==>
              Forward(lmax, FullWeighting(periodic), k, u)[x] == if Mult(k + 1, x) then c else 0.0
  {
    hide Pow2, Mult, OddMult, IsSmoothed, Forward;
    KindsOfPoints(lmax, k, x);
    MultSplit(k, x);
    EvenNeighbours(lmax, k, x);
    FullWeightingForward(lmax, k, periodic, u, x);
  }

  lemma UpdatedConstant(lmax: nat, k: nat, periodic: bool, c: real, u: seq<real>, x: int)
    requires k < lmax && IsConstant(lmax, k, c, u) && 0 <= x <= Pow2(lmax)
    ensures Forward(lmax, Biorthogonal(periodic), k, u)[x] == if Mult(k + 1, x) then c else 0.0
  {
    hide Pow2, Mult, OddMult, IsSmoothed, Forward;
    var n, w := Pow2(lmax), Pow2(k);
    var v := Forward(lmax, Biorthogonal(periodic), k, u);
    forall y | 0 <= y <= n && OddMult(k, y)
      ensures v[y] == 0.0
    {
      KindsOfPoints(lmax, k, y);
      EvenNeighbours(lmax, k, y);
      BiorthogonalForward(lmax, k, periodic, u, y);
    }
    KindsOfPoints(lmax, k, x);
    MultSplit(k, x);
    EvenNeighbours(lmax, k, x);
    BiorthogonalForward(lmax, k, periodic, u, x);
  }
}
