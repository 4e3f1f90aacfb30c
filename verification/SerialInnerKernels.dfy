/** The kernels of the serial hierarchization for poles without boundary points.  The first and the last point
    of a level have one predecessor only. */
module SerialInnerKernels {
  import opened Dyadic
  import opened Lifting
  import opened Bases
  import opened Kernels
  import opened HatKernels
  import opened NoBoundary
  import opened SerialKernels

  /** Stored are the points 1 to 2^lmax - 1. */
  ghost function InnerLine(lmax: nat, start: int, stride: int): Line {
    Line(start - stride, stride, 1, Pow2(lmax))
  }

  ghost predicate HasZeroEnds(lmax: nat, u: seq<real>) {
    |u| == Pow2(lmax) + 1 && u[0] == 0.0 && u[Pow2(lmax)] == 0.0
  }

  lemma StepKeepsZeroEnds(lmax: nat, s: Step, u: seq<real>)
    requires Fits(lmax, s) && s.Predict? && HasZeroEnds(lmax, u)
    ensures HasZeroEnds(lmax, Apply(lmax, s, u))
  {
    PredictKeepsEnds(lmax, s, u);
  }

  /** The first point of a level has only a right predecessor. */
  method FirstOfPass(val: array<real>, ghost line: Line, ghost lmax: nat, ghost s: Step, ghost u: seq<real>, cell: int,
                     parOffsetStrided: int, stepsizeStrided: int, subtract: bool)
    returns (parL: real, ghost after: seq<real>)
    requires Fits(lmax, s) && s == Predict(s.k, subtract) && HasZeroEnds(lmax, u) && line.Holds(val[..], u)
    requires cell == line.Cell(Pow2(s.k)) && parOffsetStrided == Pow2(s.k) * line.stride
             && stepsizeStrided == 2 * parOffsetStrided
    requires line.from <= Pow2(s.k) && 2 * Pow2(s.k) < line.to
    modifies val
    ensures |after| == |u| && HatLoop(lmax, s, u, after, 3 * Pow2(s.k), parL, Pow2(lmax) - 2 * Pow2(s.k))
    ensures line.Holds(val[..], after) && line.OnlyChanged(old(val[..]), val[..])
  {
    ghost var i := Pow2(s.k);
    HatStarts(lmax, s, u);
    PassStarts(lmax, s, u);
    HatAdvances(lmax, s, u, u, i, 0.0, Pow2(lmax));
    line.Neighbours(i, Pow2(s.k), cell, parOffsetStrided);
    line.CellsDiffer(i, 2 * i);
    ghost var value := HatValue(subtract, u[i], 0.0, 0.5 * u[2 * i]);
    after := u[i := value];
    if subtract {
      SetOnLine(val, line, cell, val[cell] - 0.5 * val[cell + parOffsetStrided], i, u);
      parL := 0.5 * val[cell + stepsizeStrided - parOffsetStrided];
    } else {
      parL := 0.5 * val[cell + parOffsetStrided];
      SetOnLine(val, line, cell, val[cell] + parL, i, u);
    }
  }

  /** The last point of a level has only a left predecessor. */
  method LastOfPass(val: array<real>, ghost line: Line, ghost lmax: nat, ghost s: Step, ghost u: seq<real>,
                    ghost now: seq<real>, cell: int, parL: real, subtract: bool, ghost i: int)
    requires Fits(lmax, s) && s == Predict(s.k, subtract) && HasZeroEnds(lmax, u) && |now| == |u|
             && line.Holds(val[..], now)
    requires cell == line.Cell(i) && line.from <= i < line.to
    requires HatLoop(lmax, s, u, now, i, parL, 2 * Pow2(s.k))
    modifies val
    ensures line.Holds(val[..], Apply(lmax, s, u)) && line.OnlyChanged(old(val[..]), val[..])
  {
    HatAdvances(lmax, s, u, now, i, parL, 2 * Pow2(s.k));
    OldAround(lmax, s, u, now, i);
    ghost var value := HatValue(subtract, now[i], parL, 0.0);
    SetOnLine(val, line, cell, if subtract then val[cell] - parL else val[cell] + parL, i, now);
    PassEnds(lmax, s, u, now[i := value], i + 2 * Pow2(s.k));
  }

  lemma FirstAndLastDiffer(lmax: nat, k: nat)
    requires k + 1 < lmax
    ensures 2 * Pow2(k) < Pow2(lmax) && Pow2(lmax - k - 1) >= 2
    ensures Times(Pow2(lmax - k - 1) - 1, 2 * Pow2(k)) == Pow2(lmax) - 2 * Pow2(k)
  {
    StepsCoverPole(lmax, k);
    Pow2Monotone(1, lmax - k - 1);
    Pow2Monotone(k + 1, lmax);
    StepFits(Pow2(lmax - k - 1), 2 * Pow2(k));
  }

  /** One point in the middle of a pass has room for both predecessors. */
  lemma MiddleFits(m: nat, x: int)
    requires m >= 2 && x > 0
    ensures Times(m, x) == x + Times(m - 1, x) && Times(m - 1, x) >= x
  {
    StepFits(m, x);
    StepFits(m - 1, x);
  }

  /** One point in the middle of a pass. */
  method MiddleOfPass(val: array<real>, ghost line: Line, ghost lmax: nat, ghost s: Step, ghost u: seq<real>,
                      ghost now: seq<real>, start: int, stride: int, offset: int, parOffsetStrided: int, parL: real,
                      subtract: bool, ghost left: int)
    returns (parR: real, ghost after: seq<real>)
    requires Fits(lmax, s) && s == Predict(s.k, subtract) && |u| == |now| == Pow2(lmax) + 1 && line.Holds(val[..], now)
    requires line == InnerLine(lmax, start, stride) && parOffsetStrided == Pow2(s.k) * stride && left > 2 * Pow2(s.k)
    requires HatLoop(lmax, s, u, now, offset + 1, parL, left)
    modifies val
    ensures |after| == |u| && HatLoop(lmax, s, u, after, offset + 1 + 2 * Pow2(s.k), parR, left - 2 * Pow2(s.k))
    ensures line.Holds(val[..], after) && line.OnlyChanged(old(val[..]), val[..])
  {
    hide Apply;
    CellOfOffset(line, start, stride, offset, offset + 1, 1);
    HatAdvances(lmax, s, u, now, offset + 1, parL, left);
    parR, after := SerialCell(val, line, lmax, s, u, now,
                              start + offset * stride, parOffsetStrided, parL, subtract, offset + 1, left);
  }

  lemma TwoSteps(x: int)
    ensures Times(1, x) == x && Times(2, x) == 2 * x
  {
    assert Times(0, x) == 0;
  }

  method InnerPass(val: array<real>, start: int, stride: int, ghost lmax: nat, ghost k: nat, steps: nat, stepsize: int,
                   parentOffset: int, firstOffset: int, subtract: bool, ghost u: seq<real>)
    requires HasZeroEnds(lmax, u) && k + 1 < lmax && InnerLine(lmax, start, stride).Holds(val[..], u)
    requires parentOffset == firstOffset + 1 == Pow2(k) && stepsize == 2 * parentOffset && steps == Pow2(lmax - k - 1)
    modifies val
    ensures InnerLine(lmax, start, stride).Holds(val[..], Apply(lmax, Predict(k, subtract), u))
    ensures InnerLine(lmax, start, stride).OnlyChanged(old(val[..]), val[..])
  {
    ghost var s := Predict(k, subtract);
    ghost var line := InnerLine(lmax, start, stride);
    FirstAndLastDiffer(lmax, k);
    var offset := firstOffset;
    var parOffsetStrided := parentOffset * stride;
    CellOfOffset(line, start, stride, offset, offset + 1, 1);
    TwiceStrided(parentOffset, stride, stepsize);
    ghost var now;
    var parL;
    parL, now := FirstOfPass(val, line, lmax, s, u,
                             start + offset * stride, parOffsetStrided, stepsize * stride, subtract);
    offset := offset + stepsize;
    ghost var left := Pow2(lmax) - stepsize;
    for ctr := 1 to steps - 1
      invariant left == Times(steps - ctr, stepsize) && |now| == |u|
      invariant HatLoop(lmax, s, u, now, offset + 1, parL, left)
      invariant line.Holds(val[..], now) && line.OnlyChanged(old(val[..]), val[..])
    {
      MiddleFits(steps - ctr, stepsize);
      parL, now := MiddleOfPass(val, line, lmax, s, u, now, start, stride, offset, parOffsetStrided, parL, subtract,
                                left);
      left := left - stepsize;
      offset := offset + stepsize;
    }
    MiddleFits(2, stepsize);
    TwoSteps(stepsize);
    CellOfOffset(line, start, stride, offset, offset + 1, 1);
    HatAdvances(lmax, s, u, now, offset + 1, parL, left);
    LastOfPass(val, line, lmax, s, u, now, start + offset * stride, parL, subtract, offset + 1);
  }

  lemma TwiceStrided(parentOffset: int, stride: int, stepsize: int)
    requires stepsize == 2 * parentOffset
    ensures stepsize * stride == 2 * (parentOffset * stride)
  {
  }

  /** All levels but the coarsest, whose point has both predecessors on the boundary. */
  method HierarchizeInner(val: array<real>, start: int, stride: int, level: nat, ghost u: seq<real>)
    requires level > 0 && HasZeroEnds(level, u) && InnerLine(level, start, stride).Holds(val[..], u)
    modifies val
    ensures InnerLine(level, start, stride).Holds(val[..], Hierarchized(level, Hat, level, u))
    ensures InnerLine(level, start, stride).OnlyChanged(old(val[..]), val[..])
  {
    hide InnerLine, Hierarchized, Apply;
    NoStage(level, Hat, level, u);
    ghost var line := InnerLine(level, start, stride);
    ghost var v := u;
    var steps: int := Pow2(level - 1);
    var offset := 0;
    var stepsize := 2;
    var parentOffset := 1;
    var ll: int := level - 1;
    while ll > 0
      invariant 0 <= ll < level
      invariant steps == Pow2(ll)
      invariant offset + 1 == parentOffset == Pow2(level - 1 - ll) && stepsize == Pow2(level - ll)
      invariant HasZeroEnds(level, v) && v == Hierarchized(level, Hat, level - 1 - ll, u)
      invariant line.Holds(val[..], v) && line.OnlyChanged(old(val[..]), val[..])
    {
      StepKeepsZeroEnds(level, Predict(level - 1 - ll, true), v);
      InnerPass(val, start, stride, level, level - 1 - ll, steps, stepsize, parentOffset, offset, true, v);
      StageUp(level, Hat, level - ll, u);
      v := Hierarchized(level, Hat, level - ll, u);
      steps := steps / 2;
      offset := Pow2(level - ll) - 1;
      parentOffset := stepsize;
      stepsize := 2 * stepsize;
      ll := ll - 1;
    }
    StageUp(level, Hat, level, u);
    CoarsestIsUnchanged(level, true, v);
  }

  method DehierarchizeInner(val: array<real>, start: int, stride: int, maxL: nat, ghost u: seq<real>)
    requires maxL > 0 && HasZeroEnds(maxL, u) && InnerLine(maxL, start, stride).Holds(val[..], u)
    modifies val
    ensures InnerLine(maxL, start, stride).Holds(val[..], Dehierarchized(maxL, Hat, maxL, 0, u))
    ensures InnerLine(maxL, start, stride).OnlyChanged(old(val[..]), val[..])
  {
    hide InnerLine, Dehierarchized, Apply;
    ghost var line := InnerLine(maxL, start, stride);
    ghost var v := u;
    CoarsestIsUnchanged(maxL, false, u);
    NoStage(maxL, Hat, maxL, u);
    StageDown(maxL, Hat, maxL, maxL - 1, u);
    var steps: int := 2;
    // on level 1 the shifts have a negative amount and their results are not used
    var offset := if maxL >= 2 then Pow2(maxL - 2) - 1 else 0;
    var stepsize := Pow2(maxL - 1);
    var parentOffset := if maxL >= 2 then Pow2(maxL - 2) else 0;
    var ll := 2;
    while ll <= maxL
      invariant 2 <= ll <= maxL + 1
      invariant steps == Pow2(ll - 1)
      invariant ll <= maxL ==> offset + 1 == parentOffset == Pow2(maxL - ll) && stepsize == Pow2(maxL - ll + 1)
      invariant HasZeroEnds(maxL, v) && v == Dehierarchized(maxL, Hat, maxL, maxL - ll + 1, u)
      invariant line.Holds(val[..], v) && line.OnlyChanged(old(val[..]), val[..])
    {
      StepKeepsZeroEnds(maxL, Predict(maxL - ll, false), v);
      InnerPass(val, start, stride, maxL, maxL - ll, steps, stepsize, parentOffset, offset, false, v);
      StageDown(maxL, Hat, maxL, maxL - ll, u);
      v := Dehierarchized(maxL, Hat, maxL, maxL - ll, u);
      steps := 2 * steps;
      offset := if ll < maxL then Pow2(maxL - (ll + 1)) - 1 else 0;
      parentOffset := parentOffset / 2;
      stepsize := stepsize / 2;
      ll := ll + 1;
    }
  }
}
