/** The in-place kernels for the hat basis.  They keep running loop variables (steps, offset,
    stepsize, parentOffset) that are doubled or halved from level to level. */
module HatKernels {
  import opened Dyadic
  import opened Lifting
  import opened Bases
  import opened Kernels

  /** The new value of a point with value val1 and halved parents parentL and parentR. */
  function HatValue(subtract: bool, val1: real, parentL: real, parentR: real): real {
    if subtract then val1 - parentL - parentR else val1 + parentL + parentR
  }

  lemma HatEnds(lmax: nat, s: Step, u: seq<real>, now: seq<real>, offset: int, parentL: real)
    requires Fits(lmax, s) && |u| == |now| == Pow2(lmax) + 1 && s.Predict?
             && HatLoop(lmax, s, u, now, offset, parentL, 0)
    ensures now == Apply(lmax, s, u)
  {
    PassEnds(lmax, s, u, now, offset);
  }

  /** The points of one level, visited by counting steps. */
  method HatPass(data: array<real>, lmax: nat, ghost k: nat, steps: nat, stepsize: int, parentOffset: int,
                 firstOffset: int, subtract: bool)
    requires IsPoleBuffer(lmax, data) && k < lmax
    requires parentOffset == firstOffset == Pow2(k) && stepsize == 2 * parentOffset && steps == Pow2(lmax - k - 1)
    modifies data
    ensures data[..] == Apply(lmax, Predict(k, subtract), old(data[..]))
  {
    hide Pow2, Apply, HatLoop;
    ghost var s := Predict(k, subtract);
    ghost var u := data[..];
    HatStarts(lmax, s, u);
    ghost var left := Pow2(lmax);
    var offset := firstOffset;
    var parentL := 0.5 * data[offset - parentOffset];
    for ctr := 0 to steps
      invariant left == Times(steps - ctr, stepsize)
      invariant HatLoop(lmax, s, u, data[..], offset, parentL, left)
    {
      StepFits(steps - ctr, stepsize);
      parentL := HatCell(data, lmax, s, u, offset, parentOffset, parentL, subtract, left);
      left := left - stepsize;
      offset := offset + stepsize;
    }
    HatEnds(lmax, s, u, data[..], offset, parentL);
  }

  /** Transforms the point at offset and returns its halved right parent. */
  method HatCell(data: array<real>, ghost lmax: nat, ghost s: Step, ghost u: seq<real>, offset: int, parentOffset: int,
                 parentL: real, subtract: bool, ghost left: int)
    returns (parentR: real)
    requires IsPoleBuffer(lmax, data) && Fits(lmax, s) && |u| == data.Length && s == Predict(s.k, subtract)
    requires parentOffset == Pow2(s.k) && left >= 2 * parentOffset
    requires HatLoop(lmax, s, u, data[..], offset, parentL, left)
    modifies data
    ensures HatLoop(lmax, s, u, data[..], offset + 2 * parentOffset, parentR, left - 2 * parentOffset)
  {
    HatAdvances(lmax, s, u, data[..], offset, parentL, left);
    parentR := 0.5 * data[offset + parentOffset];
    SetCell(data, offset, HatValue(subtract, data[offset], parentL, parentR));
  }

  /** The loop has reached offset; left is the distance from the last parent to the end of the pole. */
  ghost predicate HatLoop(lmax: nat, s: Step, u: seq<real>, now: seq<real>, offset: int, parentL: real, left: int)
    requires Fits(lmax, s) && |u| == |now| == Pow2(lmax) + 1
  {
    && IsTarget(s, offset)
    && PassedTo(lmax, s, u, now, offset)
    && 0 <= offset - Pow2(s.k) == Pow2(lmax) - left <= Pow2(lmax)
    && parentL == 0.5 * u[offset - Pow2(s.k)]
  }

  lemma HatStarts(lmax: nat, s: Step, u: seq<real>)
    requires Fits(lmax, s) && s.Predict? && |u| == Pow2(lmax) + 1
    ensures HatLoop(lmax, s, u, u, Pow2(s.k), 0.5 * u[0], Pow2(lmax))
    ensures Times(Pow2(lmax - s.k - 1), 2 * Pow2(s.k)) == Pow2(lmax)
  {
    PassStarts(lmax, s, u);
    StepsCoverPole(lmax, s.k);
  }

  lemma HatAdvances(lmax: nat, s: Step, u: seq<real>, now: seq<real>, i: int, parentL: real, left: int)
    requires Fits(lmax, s) && |u| == |now| == Pow2(lmax) + 1 && s.Predict?
    requires HatLoop(lmax, s, u, now, i, parentL, left) && left >= 2 * Pow2(s.k)
    ensures 0 <= i && i + Pow2(s.k) <= Pow2(lmax)
    ensures var parentR := 0.5 * now[i + Pow2(s.k)];
            HatLoop(lmax, s, u, now[i := HatValue(s.subtract, now[i], parentL, parentR)], i + 2 * Pow2(s.k), parentR,
                    left - 2 * Pow2(s.k))
  {
    OldAround(lmax, s, u, now, i);
    PassAdvances(lmax, s, u, now, i);
  }

  /** m * x, by repeated addition as the loop adds stepsize to offset. */
  function Times(m: nat, x: int): int {
    if m == 0 then 0 else x + Times(m - 1, x)
  }

  lemma {:induction false} TimesIsPositive(m: nat, x: int)
    requires x >= 0
    ensures Times(m, x) >= 0
  {
    if m > 0 {
      TimesIsPositive(m - 1, x);
    }
  }

  lemma StepFits(m: nat, x: int)
    requires m > 0 && x > 0
    ensures Times(m, x) == x + Times(m - 1, x) && Times(m - 1, x) >= 0
  {
    TimesIsPositive(m - 1, x);
  }

  lemma {:induction false} TimesSplits(m: nat, p: nat, x: int)
    ensures Times(m + p, x) == Times(m, x) + Times(p, x)
  {
    if m > 0 {
      TimesSplits(m - 1, p, x);
    }
  }

  lemma {:induction false} TimesPow2(a: nat, b: nat)
    ensures Times(Pow2(a), Pow2(b)) == Pow2(a + b)
  {
    if a == 0 {
      assert Times(1, Pow2(b)) == Pow2(b) + Times(0, Pow2(b));
    } else {
      TimesPow2(a - 1, b);
      TimesSplits(Pow2(a - 1), Pow2(a - 1), Pow2(b));
    }
  }

  /** 2^(lmax - k - 1) steps of size 2^(k + 1) walk through the whole pole. */
  lemma StepsCoverPole(lmax: nat, k: nat)
    requires k < lmax
    ensures Times(Pow2(lmax - k - 1), Pow2(k + 1)) == Pow2(lmax)
  {
    TimesPow2(lmax - k - 1, k + 1);
  }

  method HierarchizeHat(data: array<real>, lmax: nat, lmin: nat)
    requires IsPoleBuffer(lmax, data) && lmin <= lmax
    modifies data
    ensures data[..] == Hierarchized(lmax, Hat, lmax - lmin, old(data[..]))
  {
    ghost var u, v := data[..], data[..];
    var ll: int := lmax - 1;
    // without any level the shift has a negative amount and its result is not used
    var steps: int := if lmax > 0 then Pow2(lmax - 1) else 0;
    var offset := 1;
    var stepsize := 2;
    var parentOffset := 1;
    while ll >= lmin
      invariant lmin - 1 <= ll < lmax
      invariant ll >= 0 ==> steps == Pow2(ll)
      invariant offset == parentOffset == Pow2(lmax - 1 - ll) && stepsize == Pow2(lmax - ll)
      invariant data[..] == v == Hierarchized(lmax, Hat, lmax - 1 - ll, u)
    {
      HatPass(data, lmax, lmax - 1 - ll, steps, stepsize, parentOffset, offset, true);
      v := Hierarchized(lmax, Hat, lmax - ll, u);
      steps := steps / 2;
      offset := Pow2(lmax - ll);
      parentOffset := stepsize;
      stepsize := 2 * stepsize;
      ll := ll - 1;
    }
  }

  method DehierarchizeHat(data: array<real>, lmax: nat, lmin: nat)
    requires IsPoleBuffer(lmax, data) && lmin <= lmax
    modifies data
    ensures data[..] == Dehierarchized(lmax, Hat, lmax - lmin, 0, old(data[..]))
  {
    hide Dehierarchized, Apply;
    NoStage(lmax, Hat, lmax - lmin, data[..]);
    ghost var u, v := data[..], data[..];
    var steps: int := Pow2(lmin);
    // shifts by negative amounts are not used: without a level to treat, and after the last one
    var offset := if lmin < lmax then Pow2(lmax - lmin - 1) else 0;
    var stepsize := Pow2(lmax - lmin);
    var parentOffset := offset;
    var ll := lmin + 1;
    while ll <= lmax
      invariant lmin < ll <= lmax + 1
      invariant steps == Pow2(ll - 1)
      invariant ll <= lmax ==> offset == parentOffset == Pow2(lmax - ll) && stepsize == Pow2(lmax - ll + 1)
      invariant data[..] == v == Dehierarchized(lmax, Hat, lmax - lmin, lmax - ll + 1, u)
    {
      HatPass(data, lmax, lmax - ll, steps, stepsize, parentOffset, offset, false);
      StageDown(lmax, Hat, lmax - lmin, lmax - ll, u);
      v := Dehierarchized(lmax, Hat, lmax - lmin, lmax - ll, u);
      steps := 2 * steps;
      offset := if ll < lmax then Pow2(lmax - (ll + 1)) else 0;
      parentOffset := parentOffset / 2;
      stepsize := stepsize / 2;
      ll := ll + 1;
    }
  }
}
