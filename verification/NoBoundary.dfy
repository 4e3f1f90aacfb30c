/** Poles without boundary points.  They are treated as if the two missing boundary points had the value zero. */
module NoBoundary {
  import opened Dyadic
  import opened Poles
  import opened Lifting
  import opened Bases

  /** What the hat basis hierarchization leaves at point x: its value minus the mean of its two
      direct predecessors, both before hierarchization. */
  function Surplus(lmax: nat, u: seq<real>, x: int): real
    requires |u| == Pow2(lmax) + 1 && 0 <= x <= Pow2(lmax)
  {
    if x == 0 || x == Pow2(lmax) then u[x]
    else
      PredecessorsInside(lmax, x);
      u[x] + Half(true, u[x - Pow2(Ctz(x))]) + Half(true, u[x + Pow2(Ctz(x))])
  }

  lemma PredecessorsInside(lmax: nat, x: int)
    requires 0 < x < Pow2(lmax)
    ensures Ctz(x) < lmax && OddMult(Ctz(x), x) && Pow2(Ctz(x)) <= x <= Pow2(lmax) - Pow2(Ctz(x))
  {
    var p := Pole(lmax, 2, [0]);
    p.ExponentFacts(x);
    if Ctz(x) == lmax {
      CtzIsOddMult(x, lmax);
      MultSplit(lmax, x);
      MultZero(lmax);
      Spacing(lmax, 0, x);
    }
    CtzIsOddMult(x, Ctz(x));
    OddIsInside(lmax, Ctz(x), x);
  }

  lemma EndsAreNoTargets(lmax: nat, k: nat)
    requires k < lmax
    ensures !OddMult(k, 0) && !OddMult(k, Pow2(lmax))
  {
    MultZero(k);
    MultPow2(k + 1, lmax);
    MultSplit(k, Pow2(lmax));
  }

  /** The coarser neighbours of a point of stage k are still unchanged when the stage begins. */
  lemma CoarserNeighbours(lmax: nat, k: nat, x: int)
    requires k < lmax && 0 <= x <= Pow2(lmax) && OddMult(k, x)
    ensures Pow2(k) <= x <= Pow2(lmax) - Pow2(k) && Ctz(x) == k && 0 < x < Pow2(lmax)
    ensures forall y :: (y == x - Pow2(k) || y == x + Pow2(k)) && 0 < y < Pow2(lmax) ==> Ctz(y) > k
  {
    hide Pow2, OddMult, Ctz;
    OddIsInside(lmax, k, x);
    CtzIsOddMult(x, k);
    Neighbours(k, x);
    forall y | (y == x - Pow2(k) || y == x + Pow2(k)) && 0 < y < Pow2(lmax)
      ensures Ctz(y) > k
    {
      var p := Pole(lmax, 2, [0]);
      p.ExponentFacts(y);
      p.ExponentIsMaximal(y, k + 1);
    }
  }

  /** In closed form: every point of the finest `stages` levels has become its surplus. */
  lemma {:induction false} HierarchizedIsSurplus(lmax: nat, stages: nat, u: seq<real>, x: int)
    requires stages <= lmax && |u| == Pow2(lmax) + 1 && 0 <= x <= Pow2(lmax)
    ensures Hierarchized(lmax, Hat, stages, u)[x] == if 0 < x < Pow2(lmax) && Ctz(x) < stages then Surplus(lmax, u, x)
            else u[x]
  {
    hide Pow2, Ctz, OddMult;
    if stages > 0 {
      var k := stages - 1;
      HierarchizedIsSurplus(lmax, k, u, x);
      if OddMult(k, x) {
        CoarserNeighbours(lmax, k, x);
        HierarchizedIsSurplus(lmax, k, u, x - Pow2(k));
        HierarchizedIsSurplus(lmax, k, u, x + Pow2(k));
      } else if 0 < x < Pow2(lmax) {
        CtzIsOddMult(x, k);
      }
    }
  }

  /** A pole with zeros for the missing boundary points. */
  function Bordered(v: seq<real>): (u: seq<real>)
    ensures |u| == |v| + 2
  {
    [0.0] + v + [0.0]
  }

  ghost predicate IsInnerPole(lmax: nat, v: seq<real>) {
    lmax > 0 && |v| == Pow2(lmax) - 1
  }

  /** The values of the two direct predecessors, zero if they lie outside. */
  function LeftValue(v: seq<real>, idx: int, parentOffset: int): real
    requires 0 < parentOffset && idx < |v|
  {
    if idx - parentOffset > 0 then v[idx - parentOffset] else 0.0
  }

  function RightValue(v: seq<real>, idx: int, parentOffset: int): real
    requires 0 < parentOffset && 0 <= idx
  {
    if idx + parentOffset < |v| then v[idx + parentOffset] else 0.0
  }

  /** Index 0 is excluded by the test for a left predecessor, but it is nobody's predecessor. */
  lemma FirstIsNoPredecessor(lmax: nat, k: nat, v: seq<real>, idx: int)
    requires IsInnerPole(lmax, v) && k < lmax && 0 <= idx < |v| && OddMult(k, idx + 1)
    ensures idx != Pow2(k)
    ensures 0 <= idx + 1 - Pow2(k) && idx + 1 + Pow2(k) <= Pow2(lmax)
    ensures LeftValue(v, idx, Pow2(k)) == Bordered(v)[idx + 1 - Pow2(k)]
    ensures RightValue(v, idx, Pow2(k)) == Bordered(v)[idx + 1 + Pow2(k)]
  {
    OddIsInside(lmax, k, idx + 1);
    Neighbours(k, idx + 1);
  }

  /** With zero boundary values the coarsest stage changes nothing. */
  lemma CoarsestIsUnchanged(lmax: nat, subtract: bool, u: seq<real>)
    requires lmax > 0 && |u| == Pow2(lmax) + 1 && u[0] == 0.0 && u[Pow2(lmax)] == 0.0
    ensures Apply(lmax, Predict(lmax - 1, subtract), u) == u
  {
    forall x | 0 <= x <= Pow2(lmax)
      ensures At(lmax, Predict(lmax - 1, subtract), u, x) == u[x]
    {
      if OddMult(lmax - 1, x) {
        OddIsInside(lmax, lmax - 1, x);
      }
    }
  }
}
