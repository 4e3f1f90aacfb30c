/** Lifting steps: the elementary in-place operations that all hierarchization kernels are made of.

    A step of exponent k works with the spacing w = 2^k.  Predict changes the odd multiples of w by
    half the sum of their two neighbours; Smooth blends the neighbours into the even multiples of w. */
module Lifting {
  import opened Dyadic

  datatype Step =
    | Predict(k: nat, subtract: bool)
    | Smooth(k: nat, blend: Blend, periodic: bool)

  datatype Blend = Average | Unaverage | Update | Downdate

  /** The weighted contribution of a neighbour under Predict. */
  function Half(subtract: bool, x: real): real {
    if subtract then -0.5 * x else 0.5 * x
  }

  /** What Smooth keeps of the value of a point. */
  function Keep(b: Blend, x: real): real {
    match b
    case Average => 0.5 * x
    case Unaverage => 2.0 * x
    case _ => x
  }

  /** The weighted contribution of a neighbour under Smooth. */
  function Mix(b: Blend, x: real): real {
    match b
    case Average => 0.25 * x
    case Update => 0.25 * x
    case Unaverage => -0.5 * x
    case Downdate => -0.25 * x
  }

  predicate Fits(lmax: nat, s: Step) {
    s.k < lmax
  }

  lemma OddIsInside(lmax: nat, k: nat, x: int)
    requires k < lmax && 0 <= x <= Pow2(lmax) && OddMult(k, x)
    ensures Pow2(k) <= x <= Pow2(lmax) - Pow2(k)
  {
    MultSplit(k, x);
    MultZero(k);
    MultPow2(k, lmax);
    MultPow2(lmax, lmax);
    if x < Pow2(k) {
      Spacing(k, 0, x);
    }
    if x > Pow2(lmax) - Pow2(k) {
      MultWeaken(k, lmax, Pow2(lmax));
      if x < Pow2(lmax) {
        Spacing(k, x, Pow2(lmax));
      }
    }
    MultPow2(k + 1, lmax);
    MultSplit(k, Pow2(lmax));
  }

  lemma EvenIsInside(lmax: nat, k: nat, x: int)
    requires k < lmax && 0 < x < Pow2(lmax) && Mult(k + 1, x)
    ensures 2 * Pow2(k) <= x <= Pow2(lmax) - 2 * Pow2(k)
  {
    MultZero(k + 1);
    MultPow2(k + 1, lmax);
    if x < Pow2(k + 1) {
      Spacing(k + 1, 0, x);
    }
    if x > Pow2(lmax) - Pow2(k + 1) {
      Spacing(k + 1, x, Pow2(lmax));
    }
  }

  /** The points that Smooth changes. */
  predicate IsSmoothed(lmax: nat, k: nat, x: int) {
    0 <= x <= Pow2(lmax) && (x == 0 || x == Pow2(lmax) || Mult(k + 1, x))
  }

  /** The two neighbours of a smoothed point; at an end point both are the same, or, if the pole is
      periodic, those of both ends. */
  function LeftOf(lmax: nat, k: nat, periodic: bool, x: int): (y: int)
    requires k < lmax && IsSmoothed(lmax, k, x)
    ensures 0 <= y <= Pow2(lmax)
  {
    var n, w := Pow2(lmax), Pow2(k);
    Pow2Monotone(k, lmax);
    if x == 0 || (x == n && periodic) then w
    else if x == n then n - w
    else
      EvenIsInside(lmax, k, x);
      x - w
  }

  function RightOf(lmax: nat, k: nat, periodic: bool, x: int): (y: int)
    requires k < lmax && IsSmoothed(lmax, k, x)
    ensures 0 <= y <= Pow2(lmax)
  {
    var n, w := Pow2(lmax), Pow2(k);
    Pow2Monotone(k, lmax);
    if x == n || (x == 0 && periodic) then n - w
    else if x == 0 then w
    else
      EvenIsInside(lmax, k, x);
      x + w
  }

  /** The new value at x. */
  function At(lmax: nat, s: Step, u: seq<real>, x: int): real
    requires Fits(lmax, s) && |u| == Pow2(lmax) + 1 && 0 <= x <= Pow2(lmax)
  {
    var n, w := Pow2(lmax), Pow2(s.k);
    match s
    case Predict(k, subtract) =>
      if OddMult(k, x) then
        OddIsInside(lmax, k, x);
        u[x] + Half(subtract, u[x - w]) + Half(subtract, u[x + w])
      else u[x]
    case Smooth(k, b, periodic) =>
      if !IsSmoothed(lmax, k, x) then u[x]
      else
        var own := if (x == 0 || x == n) && periodic then 0.5 * (u[0] + u[n]) else u[x];
        Keep(b, own) + Mix(b, u[LeftOf(lmax, k, periodic, x)]) + Mix(b, u[RightOf(lmax, k, periodic, x)])
  }

  function Apply(lmax: nat, s: Step, u: seq<real>): (v: seq<real>)
    requires Fits(lmax, s) && |u| == Pow2(lmax) + 1
    ensures |v| == |u|
  {
    seq(|u|, x requires 0 <= x < |u| => At(lmax, s, u, x))
  }

  function Inverse(b: Blend): Blend {
    match b
    case Average => Unaverage
    case Unaverage => Average
    case Update => Downdate
    case Downdate => Update
  }

  function Undo(s: Step): (t: Step)
    ensures t.k == s.k
  {
    match s
    case Predict(k, subtract) => Predict(k, !subtract)
    case Smooth(k, b, p) => Smooth(k, Inverse(b), p)
  }

  lemma UndoIsInvolution(s: Step)
    ensures Undo(Undo(s)) == s
  {
  }

  lemma BlendIsUndone(b: Blend, x: real, l: real, r: real)
    ensures Keep(Inverse(b), Keep(b, x) + Mix(b, l) + Mix(b, r)) + Mix(Inverse(b), l) + Mix(Inverse(b), r) == x
  {
  }

  predicate IsPeriodicStep(s: Step) {
    s.Smooth? && s.periodic
  }

  predicate EndsEqual(u: seq<real>)
    requires |u| > 0
  {
    u[0] == u[|u| - 1]
  }

  /** Undoing a step restores every value; a periodic step needs equal values at both ends. */
  lemma UndoApply(lmax: nat, s: Step, u: seq<real>)
    requires Fits(lmax, s) && |u| == Pow2(lmax) + 1 && (IsPeriodicStep(s) ==> EndsEqual(u))
    ensures Apply(lmax, Undo(s), Apply(lmax, s, u)) == u
  {
    var v := Apply(lmax, s, u);
    forall x | 0 <= x <= Pow2(lmax)
      ensures At(lmax, Undo(s), v, x) == u[x]
    {
      if s.Predict? {
        PredictIsUndone(lmax, s, u, x);
      } else {
        SmoothIsUndone(lmax, s, u, x);
      }
    }
  }

  lemma PredictIsUndone(lmax: nat, s: Step, u: seq<real>, x: int)
    requires Fits(lmax, s) && |u| == Pow2(lmax) + 1 && s.Predict? && 0 <= x <= Pow2(lmax)
    ensures At(lmax, Undo(s), Apply(lmax, s, u), x) == u[x]
  {
    var w := Pow2(s.k);
    if OddMult(s.k, x) {
      OddIsInside(lmax, s.k, x);
      Neighbours(s.k, x);
      MultSplit(s.k, x - w);
      MultSplit(s.k, x + w);
    }
  }

  lemma SmoothIsUndone(lmax: nat, s: Step, u: seq<real>, x: int)
    requires Fits(lmax, s) && |u| == Pow2(lmax) + 1 && s.Smooth? && 0 <= x <= Pow2(lmax)
    requires s.periodic ==> EndsEqual(u)
    ensures At(lmax, Undo(s), Apply(lmax, s, u), x) == u[x]
  {
    if IsSmoothed(lmax, s.k, x) {
      NeighboursStay(lmax, s, u, x);
      if s.periodic {
        EndsStayEqual(lmax, s, u);
      }
      BlendIsUndone(s.blend, u[x], u[LeftOf(lmax, s.k, s.periodic, x)], u[RightOf(lmax, s.k, s.periodic, x)]);
    }
  }

  lemma EndsStayEqual(lmax: nat, s: Step, u: seq<real>)
    requires Fits(lmax, s) && |u| == Pow2(lmax) + 1 && IsPeriodicStep(s)
    ensures EndsEqual(Apply(lmax, s, u))
  {
  }

  /** The neighbours of a smoothed point are odd multiples, which Smooth does not change. */
  lemma NeighboursStay(lmax: nat, s: Step, u: seq<real>, x: int)
    requires Fits(lmax, s) && |u| == Pow2(lmax) + 1 && s.Smooth? && IsSmoothed(lmax, s.k, x)
    ensures var y := LeftOf(lmax, s.k, s.periodic, x); Apply(lmax, s, u)[y] == u[y]
    ensures var y := RightOf(lmax, s.k, s.periodic, x); Apply(lmax, s, u)[y] == u[y]
  {
    var n, w := Pow2(lmax), Pow2(s.k);
    MultPow2(s.k, s.k);
    MultPow2(s.k + 1, lmax);
    Neighbours(s.k, n);
    Pow2Monotone(s.k, lmax);
    if 0 < x < n {
      EvenIsInside(lmax, s.k, x);
      Neighbours(s.k, x);
    }
    OddStays(lmax, s, u, LeftOf(lmax, s.k, s.periodic, x));
    OddStays(lmax, s, u, RightOf(lmax, s.k, s.periodic, x));
  }

  lemma OddStays(lmax: nat, s: Step, u: seq<real>, y: int)
    requires Fits(lmax, s) && |u| == Pow2(lmax) + 1 && s.Smooth? && 0 <= y <= Pow2(lmax) && OddMult(s.k, y)
    ensures Apply(lmax, s, u)[y] == u[y]
  {
    OddIsInside(lmax, s.k, y);
    MultSplit(s.k, y);
  }
}
