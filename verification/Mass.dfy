/** Mass conservation of the full weighting and biorthogonal bases.

    The mass on spacing w is w times the trapezoidal sum over the multiples of w.  Every level of
    hierarchization keeps it: the coarse points carry the mass of the fine ones. */
module Mass {
  import opened Dyadic
  import opened Lifting
  import opened Bases

  /** u[x] + u[x + w] + u[x + 2w] + ... over the points before n. */
  function SumFrom(u: seq<real>, x: int, w: int, n: int): real
    requires 0 <= x && 0 < w && n < |u|
    decreases n - x
  {
    if x >= n then 0.0 else u[x] + SumFrom(u, x + w, w, n)
  }

  /** The trapezoidal sum on spacing 2^k, without the factor 2^k. */
  function Trapezoid(lmax: nat, k: nat, u: seq<real>): real
    requires k <= lmax && |u| == Pow2(lmax) + 1
  {
    var n := Pow2(lmax);
    0.5 * u[0] + 0.5 * u[n] + SumFrom(u, Pow2(k), Pow2(k), n)
  }

  function MassOf(lmax: nat, k: nat, u: seq<real>): real
    requires k <= lmax && |u| == Pow2(lmax) + 1
  {
    Pow2(k) as real * Trapezoid(lmax, k, u)
  }

  /** Sums over the even multiples only see the even multiples. */
  lemma {:induction false} SumDependsOnEven(lmax: nat, k: nat, u: seq<real>, v: seq<real>, x: int)
    requires k < lmax && |u| == |v| == Pow2(lmax) + 1 && 0 <= x && Mult(k + 1, x)
    requires forall y :: 0 <= y < Pow2(lmax) && Mult(k + 1, y) ==> u[y] == v[y]
    ensures SumFrom(u, x, Pow2(k + 1), Pow2(lmax)) == SumFrom(v, x, Pow2(k + 1), Pow2(lmax))
    decreases Pow2(lmax) - x
  {
    if x < Pow2(lmax) {
      MultPow2(k + 1, k + 1);
      MultClosed(k + 1, x, Pow2(k + 1));
      SumDependsOnEven(lmax, k, u, v, x + Pow2(k + 1));
    }
  }

  lemma PredictKeepsCoarseSum(lmax: nat, s: Step, u: seq<real>)
    requires Fits(lmax, s) && |u| == Pow2(lmax) + 1 && s.Predict?
    ensures Trapezoid(lmax, s.k + 1, Apply(lmax, s, u)) == Trapezoid(lmax, s.k + 1, u)
  {
    var v := Apply(lmax, s, u);
    PredictKeepsEnds(lmax, s, u);
    forall y | 0 <= y < Pow2(lmax) && Mult(s.k + 1, y)
      ensures v[y] == u[y]
    {
      MultSplit(s.k, y);
    }
    MultPow2(s.k + 1, s.k + 1);
    SumDependsOnEven(lmax, s.k, v, u, Pow2(s.k + 1));
  }

  /** The even multiples of w are the first w - 1 multiples of 2w and so on: an even multiple below n
      has two neighbours, and the next even multiple is at most n. */
  lemma EvenStep(lmax: nat, k: nat, y: int)
    requires k < lmax && 0 < y <= Pow2(lmax) && Mult(k + 1, y)
    ensures 2 * Pow2(k) <= y
    ensures y < Pow2(lmax) ==> y + 2 * Pow2(k) <= Pow2(lmax) && Mult(k + 1, y + 2 * Pow2(k))
    ensures OddMult(k, y - Pow2(k)) && (y < Pow2(lmax) ==> OddMult(k, y + Pow2(k)))
  {
    MultPow2(k + 1, lmax);
    MultZero(k + 1);
    Neighbours(k, y);
    MultPow2(k + 1, k + 1);
    MultClosed(k + 1, y, Pow2(k + 1));
    if y < Pow2(lmax) {
      EvenIsInside(lmax, k, y);
    } else {
      Pow2Monotone(k, lmax);
    }
  }

  lemma SumTwo(u: seq<real>, y: int, w: int, n: int)
    requires 0 <= y && 0 < w && y + 2 * w <= n < |u|
    ensures SumFrom(u, y, w, n) == u[y] + u[y + w] + SumFrom(u, y + 2 * w, w, n)
  {
    assert SumFrom(u, y + w, w, n) == u[y + w] + SumFrom(u, y + w + w, w, n);
    assert y + w + w == y + 2 * w;
  }

  /** Averaging: twice the coarse sum from y on is the fine sum from y on, plus half of the odd point
      before y. */
  lemma {:induction false} AveragedSum(lmax: nat, k: nat, p: bool, u: seq<real>, y: int)
    requires k < lmax && |u| == Pow2(lmax) + 1 && 0 < y <= Pow2(lmax) && Mult(k + 1, y)
    ensures Pow2(k) <= y
    ensures var n, w := Pow2(lmax), Pow2(k);
            2.0 * SumFrom(Apply(lmax, Averaging(k, p), u), y, 2 * w, n) + 0.5 * u[n] + 0.5 * u[n - w]
            == 0.5 * u[y - w] + SumFrom(u, y, w, n) + 0.5 * u[n]
    decreases Pow2(lmax) - y
  {
    var n, w := Pow2(lmax), Pow2(k);
    EvenStep(lmax, k, y);
    if y < n {
      AveragedSum(lmax, k, p, u, y + 2 * w);
      SumTwo(u, y, w, n);
    }
  }

  /** Updating, when the odd points of v are the surpluses of u and the even points are those of u. */
  lemma {:induction false} UpdatedSum(lmax: nat, k: nat, p: bool, u: seq<real>, y: int)
    requires k < lmax && |u| == Pow2(lmax) + 1 && 0 < y <= Pow2(lmax) && Mult(k + 1, y)
    ensures Pow2(k) <= y
    ensures var n, w := Pow2(lmax), Pow2(k);
            var v := Apply(lmax, Decompose(k), u);
            2.0 * SumFrom(Apply(lmax, Updating(k, p), v), y, 2 * w, n) + u[n] + 0.5 * v[n - w]
            == 0.5 * v[y - w] + SumFrom(u, y, w, n) + 0.5 * u[y] + 0.5 * u[n]
    decreases Pow2(lmax) - y
  {
    var n, w := Pow2(lmax), Pow2(k);
    var v := Apply(lmax, Decompose(k), u);
    EvenStep(lmax, k, y);
    if y < n {
      UpdatedSum(lmax, k, p, u, y + 2 * w);
      SumTwo(u, y, w, n);
      UpdatedStep(lmax, k, p, u, y);
    }
  }

  lemma UpdatedStep(lmax: nat, k: nat, p: bool, u: seq<real>, y: int)
    requires k < lmax && |u| == Pow2(lmax) + 1 && 0 < y < Pow2(lmax) && Mult(k + 1, y)
    ensures 2 * Pow2(k) <= y <= Pow2(lmax) - 2 * Pow2(k)
    ensures var w := Pow2(k);
            var v := Apply(lmax, Decompose(k), u);
            && v[y + w] == u[y + w] - 0.5 * u[y] - 0.5 * u[y + 2 * w]
            && Apply(lmax, Updating(k, p), v)[y] == u[y] + 0.25 * v[y - w] + 0.25 * v[y + w]
  {
    EvenIsInside(lmax, k, y);
    Neighbours(k, y);
    MultSplit(k, y);
  }

  lemma AveragingKeepsMass(lmax: nat, k: nat, p: bool, u: seq<real>)
    requires k < lmax && |u| == Pow2(lmax) + 1
    ensures 2.0 * Trapezoid(lmax, k + 1, Apply(lmax, Averaging(k, p), u)) == Trapezoid(lmax, k, u)
  {
    var n, w := Pow2(lmax), Pow2(k);
    MultPow2(k + 1, k + 1);
    Pow2Monotone(k, lmax);
    AveragedSum(lmax, k, p, u, 2 * w);
    assert SumFrom(u, w, w, n) == u[w] + SumFrom(u, w + w, w, n);
  }

  lemma FirstSurplus(lmax: nat, k: nat, u: seq<real>)
    requires k < lmax && |u| == Pow2(lmax) + 1
    ensures 2 * Pow2(k) <= Pow2(lmax)
    ensures var v := Apply(lmax, Decompose(k), u);
            v[Pow2(k)] == u[Pow2(k)] - 0.5 * u[0] - 0.5 * u[2 * Pow2(k)] && v[0] == u[0]
              && v[Pow2(lmax)] == u[Pow2(lmax)]
  {
    MultPow2(k, k);
    Pow2Monotone(k + 1, lmax);
    PredictKeepsEnds(lmax, Decompose(k), u);
  }

  lemma NextTerm(u: seq<real>, w: int, n: int)
    requires 0 < w < n < |u|
    ensures SumFrom(u, w, w, n) == u[w] + SumFrom(u, 2 * w, w, n)
  {
    assert w + w == 2 * w;
  }

  lemma FirstEven(lmax: nat, k: nat)
    requires k < lmax
    ensures Mult(k + 1, 2 * Pow2(k)) && 2 * Pow2(k) <= Pow2(lmax) && Pow2(k + 1) == 2 * Pow2(k)
  {
    MultPow2(k + 1, k + 1);
    Pow2Monotone(k + 1, lmax);
  }

  /** Both ends together take half of the odd points next to them. */
  lemma UpdatedEnds(lmax: nat, k: nat, p: bool, v: seq<real>)
    requires k < lmax && |v| == Pow2(lmax) + 1
    ensures Pow2(k) <= Pow2(lmax)
    ensures var n, x := Pow2(lmax), Apply(lmax, Updating(k, p), v);
            x[0] + x[n] == v[0] + v[n] + 0.5 * v[Pow2(k)] + 0.5 * v[n - Pow2(k)]
  {
    Pow2Monotone(k, lmax);
  }

  lemma UpdatingKeepsMass(lmax: nat, k: nat, p: bool, u: seq<real>)
    requires k < lmax && |u| == Pow2(lmax) + 1
    ensures 2.0 * Trapezoid(lmax, k + 1, Apply(lmax, Updating(k, p), Apply(lmax, Decompose(k), u)))
            == Trapezoid(lmax, k, u)
  {
    hide Apply, Mult, SumFrom, Pow2;
    var n, w := Pow2(lmax), Pow2(k);
    var v := Apply(lmax, Decompose(k), u);
    FirstEven(lmax, k);
    UpdatedSum(lmax, k, p, u, 2 * w);
    FirstSurplus(lmax, k, u);
    UpdatedEnds(lmax, k, p, v);
    NextTerm(u, w, n);
  }

  lemma StageKeepsMass(lmax: nat, b: Basis, k: nat, u: seq<real>)
    requires k < lmax && |u| == Pow2(lmax) + 1 && !b.Hat?
    ensures 2.0 * Trapezoid(lmax, k + 1, Forward(lmax, b, k, u)) == Trapezoid(lmax, k, u)
  {
    match b
    case FullWeighting(p) =>
      AveragingKeepsMass(lmax, k, p, u);
      PredictKeepsCoarseSum(lmax, Decompose(k), Apply(lmax, Averaging(k, p), u));
    case Biorthogonal(p) =>
      UpdatingKeepsMass(lmax, k, p, u);
  }

  lemma DoubleSpacing(w: int, coarse: real, fine: real)
    requires 2.0 * coarse == fine
    ensures (2 * w) as real * coarse == w as real * fine
  {
  }

  lemma MassOfStage(lmax: nat, k: nat, u: seq<real>, v: seq<real>)
    requires k < lmax && |u| == |v| == Pow2(lmax) + 1
    requires 2.0 * Trapezoid(lmax, k + 1, v) == Trapezoid(lmax, k, u)
    ensures MassOf(lmax, k + 1, v) == MassOf(lmax, k, u)
  {
    DoubleSpacing(Pow2(k), Trapezoid(lmax, k + 1, v), Trapezoid(lmax, k, u));
  }

  /** The coarse points that remain after hierarchizing any number of levels have the mass of the
      original values, for every pole, with periodic and with two-sided boundary. */
  lemma {:induction false} MassIsConserved(lmax: nat, b: Basis, stages: nat, u: seq<real>)
    requires stages <= lmax && |u| == Pow2(lmax) + 1 && !b.Hat?
    ensures MassOf(lmax, stages, Hierarchized(lmax, b, stages, u)) == MassOf(lmax, 0, u)
  {
    hide Pow2, MassOf, Forward;
    if stages > 0 {
      var m, v := stages - 1, Hierarchized(lmax, b, stages - 1, u);
      MassIsConserved(lmax, b, m, u);
      StageKeepsMass(lmax, b, m, v);
      MassOfStage(lmax, m, v, Forward(lmax, b, m, v));
    }
  }
}
