/** All transforms are linear in the values of the grid, so they are known from what they make of single points. */
module LinearTransforms {
  import opened Dyadic
  import opened Lifting
  import opened Rows
  import opened GridSweep
  import opened GridTransform

  /** u plus c times e. */
  function Plus(u: seq<real>, c: real, e: seq<real>): (v: seq<real>)
    requires |e| == |u|
    ensures |v| == |u|
  {
    seq(|u|, x requires 0 <= x < |u| => u[x] + c * e[x])
  }

  function Zeros(n: nat): (z: seq<real>)
    ensures |z| == n
  {
    seq(n, x => 0.0)
  }

  /** One at index i, zero elsewhere. */
  function Unit(n: nat, i: int): (e: seq<real>)
    ensures |e| == n
  {
    seq(n, x => if x == i then 1.0 else 0.0)
  }

  lemma CombineIsLinear(r: Row, c: real, x0: real, x1: real, x2: real, x3: real, y0: real, y1: real, y2: real, y3: real,
                        z0: real, z1: real, z2: real, z3: real)
    requires z0 == x0 + c * y0 && z1 == x1 + c * y1 && z2 == x2 + c * y2 && z3 == x3 + c * y3
    ensures Combine(r, z0, z1, z2, z3) == Combine(r, x0, x1, x2, x3) + c * Combine(r, y0, y1, y2, y3)
  {
    CombineAdds(r, x0, x1, x2, x3, c * y0, c * y1, c * y2, c * y3, 0.0, 0.0, 0.0, 0.0, 0.0, 0.0, 0.0, 0.0);
    CombineScales(r, c, y0, y1, y2, y3);
  }

  lemma PlusAt(u: seq<real>, c: real, e: seq<real>, x: int)
    requires |e| == |u| && 0 <= x < |u|
    ensures Plus(u, c, e)[x] == u[x] + c * e[x]
  {
  }

  lemma ValueIsLinear(lmax: nat, s: Step, u: seq<real>, c: real, e: seq<real>, x: int)
    requires Fits(lmax, s) && |u| == |e| == Pow2(lmax) + 1 && 0 <= x <= Pow2(lmax)
    ensures At(lmax, s, Plus(u, c, e), x) == At(lmax, s, u, x) + c * At(lmax, s, e, x)
  {
    hide Combine, RowOf, At, Plus, Fits, Pow2;
    var r, v := RowOf(lmax, s, x), Plus(u, c, e);
    AtIsRow(lmax, s, u, x);
    AtIsRow(lmax, s, e, x);
    AtIsRow(lmax, s, v, x);
    PlusAt(u, c, e, r.i0);
    PlusAt(u, c, e, r.i1);
    PlusAt(u, c, e, r.i2);
    PlusAt(u, c, e, r.i3);
    CombineIsLinear(r, c, u[r.i0], u[r.i1], u[r.i2], u[r.i3], e[r.i0], e[r.i1], e[r.i2], e[r.i3],
                    v[r.i0], v[r.i1], v[r.i2], v[r.i3]);
  }

  lemma ApplyIsLinear(lmax: nat, s: Step, u: seq<real>, c: real, e: seq<real>)
    requires Fits(lmax, s) && |u| == |e| == Pow2(lmax) + 1
    ensures Apply(lmax, s, Plus(u, c, e)) == Plus(Apply(lmax, s, u), c, Apply(lmax, s, e))
  {
    hide At, Plus, Fits, Pow2;
    var v, w := Apply(lmax, s, Plus(u, c, e)), Plus(Apply(lmax, s, u), c, Apply(lmax, s, e));
    forall x | 0 <= x <= Pow2(lmax)
      ensures v[x] == w[x]
    {
      ValueIsLinear(lmax, s, u, c, e, x);
      PlusAt(Apply(lmax, s, u), c, Apply(lmax, s, e), x);
    }
  }

  lemma PointIsLinear(d: Dim, u: seq<real>, c: real, e: seq<real>, li: int, i: int)
    requires d.Valid(|u|) && |e| == |u| && 0 <= li < |u| && 0 <= i <= Pow2(d.lmax)
    ensures PointValue(d, Plus(u, c, e), li, i) == PointValue(d, u, li, i) + c * PointValue(d, e, li, i)
  {
    hide Plus;
    if d.IsStored(i) {
      d.axis.MoveIsExact(li, d.Wrap(i), |u|);
      PlusAt(u, c, e, d.axis.Move(li, d.Wrap(i)));
    }
  }

  lemma PoleIsLinear(d: Dim, u: seq<real>, c: real, e: seq<real>, li: int)
    requires d.Valid(|u|) && |e| == |u| && 0 <= li < |u|
    ensures PoleAt(d, Plus(u, c, e), li) == Plus(PoleAt(d, u, li), c, PoleAt(d, e, li))
  {
    hide Plus, PointValue, Dim.Valid, Pow2;
    var v, w := PoleAt(d, Plus(u, c, e), li), Plus(PoleAt(d, u, li), c, PoleAt(d, e, li));
    forall i | 0 <= i <= Pow2(d.lmax)
      ensures v[i] == w[i]
    {
      PointIsLinear(d, u, c, e, li, i);
      PlusAt(PoleAt(d, u, li), c, PoleAt(d, e, li), i);
    }
  }

  lemma StepAtCell(d: Dim, s: Step, u: seq<real>, li: int)
    requires d.Valid(|u|) && StepFits(d, s) && 0 <= li < |u|
    ensures d.axis.Valid() && 0 <= d.PointOf(li) <= Pow2(d.lmax)
    ensures AxisStep(d, s, u)[li] == At(d.lmax, s, PoleAt(d, u, li), d.PointOf(li))
  {
    hide At, PoleAt;
    d.axis.MoveIsExact(li, 0, |u|);
  }

  lemma CellIsLinear(d: Dim, s: Step, u: seq<real>, c: real, e: seq<real>, li: int)
    requires d.Valid(|u|) && StepFits(d, s) && |e| == |u| && 0 <= li < |u|
    ensures AxisStep(d, s, Plus(u, c, e))[li] == AxisStep(d, s, u)[li] + c * AxisStep(d, s, e)[li]
  {
    hide At, PoleAt, Plus, Fits, Pow2, Dim.Valid, Dim.PointOf, AxisStep;
    StepAtCell(d, s, u, li);
    StepAtCell(d, s, e, li);
    StepAtCell(d, s, Plus(u, c, e), li);
    PoleIsLinear(d, u, c, e, li);
    ValueIsLinear(d.lmax, s, PoleAt(d, u, li), c, PoleAt(d, e, li), d.PointOf(li));
  }

  lemma AxisStepIsLinear(d: Dim, s: Step, u: seq<real>, c: real, e: seq<real>)
    requires d.Valid(|u|) && StepFits(d, s) && |e| == |u|
    ensures AxisStep(d, s, Plus(u, c, e)) == Plus(AxisStep(d, s, u), c, AxisStep(d, s, e))
  {
    hide *;
    var v, w := AxisStep(d, s, Plus(u, c, e)), Plus(AxisStep(d, s, u), c, AxisStep(d, s, e));
    forall li | 0 <= li < |u|
      ensures v[li] == w[li]
    {
      CellIsLinear(d, s, u, c, e, li);
      PlusAt(AxisStep(d, s, u), c, AxisStep(d, s, e), li);
    }
  }

  lemma {:induction false} AxisRunIsLinear(d: Dim, steps: seq<Step>, u: seq<real>, c: real, e: seq<real>)
    requires d.Valid(|u|) && (forall s :: s in steps ==> StepFits(d, s)) && |e| == |u|
    ensures AxisRun(d, steps, Plus(u, c, e)) == Plus(AxisRun(d, steps, u), c, AxisRun(d, steps, e))
  {
    hide AxisStep, Plus;
    if steps != [] {
      var n := |steps| - 1;
      AxisRunIsLinear(d, steps[..n], u, c, e);
      AxisStepIsLinear(d, steps[n], AxisRun(d, steps[..n], u), c, AxisRun(d, steps[..n], e));
    }
  }

  lemma {:induction false} SweptIsLinear(dims: seq<Dim>, forward: bool, k: nat, u: seq<real>, c: real, e: seq<real>)
    requires IsGrid(dims, |u|) && k <= |dims| && |e| == |u|
    ensures Swept(dims, forward, 0, k, Plus(u, c, e)) == Plus(Swept(dims, forward, 0, k, u), c,
                                                              Swept(dims, forward, 0, k, e))
  {
    hide Plus, StepsOf, AxisRun, StepFits;
    if k > 0 {
      var d := dims[k - 1];
      SweptIsLinear(dims, forward, k - 1, u, c, e);
      StepsOfFit(d, forward, |u|);
      AxisRunIsLinear(d, StepsOf(d, forward), Swept(dims, forward, 0, k - 1, u), c, Swept(dims, forward, 0, k - 1, e));
    }
  }

  lemma {:induction false} RunIsLinear(lmax: nat, steps: seq<Step>, u: seq<real>, c: real, e: seq<real>)
    requires |u| == |e| == Pow2(lmax) + 1 && forall s :: s in steps ==> Fits(lmax, s)
    ensures Run(lmax, steps, Plus(u, c, e)) == Plus(Run(lmax, steps, u), c, Run(lmax, steps, e))
  {
    hide Apply, Plus, Fits, Pow2;
    if steps != [] {
      var n := |steps| - 1;
      RunIsLinear(lmax, steps[..n], u, c, e);
      ApplyIsLinear(lmax, steps[n], Run(lmax, steps[..n], u), c, Run(lmax, steps[..n], e));
    }
  }

  /** What a linear transform leaves of zeros. */
  lemma PlusOfZeros(n: nat, c: real, z: seq<real>)
    requires |z| == n && Plus(z, c, z) == z && c != 0.0
    ensures z == Zeros(n)
  {
    forall x | 0 <= x < n
      ensures z[x] == 0.0
    {
      assert Plus(z, c, z)[x] == z[x] + c * z[x];
    }
  }

  /** Multiples of one point: the transform of c times e is c times that of e. */
  lemma RunOfMultiple(lmax: nat, steps: seq<Step>, c: real, e: seq<real>)
    requires |e| == Pow2(lmax) + 1 && forall s :: s in steps ==> Fits(lmax, s)
    ensures Run(lmax, steps, Plus(Zeros(|e|), c, e)) == Plus(Zeros(|e|), c, Run(lmax, steps, e))
  {
    hide Run, Fits, Pow2;
    var z := Zeros(|e|);
    RunIsLinear(lmax, steps, z, c, e);
    RunIsLinear(lmax, steps, z, 1.0, z);
    assert Plus(z, 1.0, z) == z;
    PlusOfZeros(|e|, 1.0, Run(lmax, steps, z));
  }
}
