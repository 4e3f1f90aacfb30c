/** The kernels of the serial hierarchization.  They work on a pole inside the array of the whole grid, whose
    points lie stride entries apart, with or without boundary points. */
module SerialKernels {
  import opened Arithmetic
  import opened Dyadic
  import opened Lifting
  import opened Bases
  import opened Kernels
  import opened HatKernels

  /** The stored points from, ..., to - 1 of a pole; point i lies at base + stride * i. */
  datatype Line = Line(base: int, stride: int, from: nat, to: nat) {

    function Cell(i: int): int {
      base + stride * i
    }

    ghost predicate Holds(data: seq<real>, values: seq<real>) {
      && stride > 0 && to <= |values|
      && forall i {:trigger Cell(i)} :: from <= i < to ==> 0 <= Cell(i) < |data| && data[Cell(i)] == values[i]
    }

    ghost predicate OnlyChanged(before: seq<real>, after: seq<real>) {
      && |before| == |after|
      && forall x {:trigger after[x]} ::
        0 <= x < |after| && (forall i :: from <= i < to ==> x != Cell(i)) ==> after[x] == before[x]
    }

    lemma CellsDiffer(i: int, j: int)
      requires stride > 0 && i != j
      ensures Cell(i) != Cell(j)
    {
      MulOrder(stride, i, j);
    }

    lemma Neighbours(i: int, w: int, cell: int, distance: int)
      requires cell == Cell(i) && distance == w * stride
      ensures cell - distance == Cell(i - w) && cell + distance == Cell(i + w)
    {
      assert stride * (i - w) == stride * i - w * stride;
    }
  }

  method SetOnLine(val: array<real>, ghost line: Line, cell: int, value: real, ghost i: int, ghost now: seq<real>)
    requires line.Holds(val[..], now) && line.from <= i < line.to && cell == line.Cell(i)
    modifies val
    ensures line.Holds(val[..], now[i := value]) && line.OnlyChanged(old(val[..]), val[..])
  {
    forall j | line.from <= j < line.to && j != i
      ensures line.Cell(j) != cell
    {
      line.CellsDiffer(i, j);
    }
    val[cell] := value;
  }

  /** Transforms one inner point of a pass and returns its halved right parent. */
  method SerialCell(val: array<real>, ghost line: Line, ghost lmax: nat, ghost s: Step, ghost u: seq<real>,
                    ghost now: seq<real>, cell: int, parOffsetStrided: int, parL: real, subtract: bool, ghost i: int,
                    ghost left: int)
    returns (parR: real, ghost after: seq<real>)
    requires Fits(lmax, s) && s == Predict(s.k, subtract) && |u| == |now| == Pow2(lmax) + 1 && line.Holds(val[..], now)
    requires cell == line.Cell(i) && parOffsetStrided == Pow2(s.k) * line.stride && left >= 2 * Pow2(s.k)
    requires HatLoop(lmax, s, u, now, i, parL, left) && line.from <= i && i + Pow2(s.k) < line.to
    modifies val
    ensures |after| == |u| && HatLoop(lmax, s, u, after, i + 2 * Pow2(s.k), parR, left - 2 * Pow2(s.k))
    ensures line.Holds(val[..], after) && line.OnlyChanged(old(val[..]), val[..])
  {
    HatAdvances(lmax, s, u, now, i, parL, left);
    line.Neighbours(i, Pow2(s.k), cell, parOffsetStrided);
    parR := 0.5 * val[cell + parOffsetStrided];
    ghost var value := HatValue(subtract, now[i], parL, parR);
    SetOnLine(val, line, cell, HatValue(subtract, val[cell], parL, parR), i, now);
    after := now[i := value];
  }

  ghost function BoundaryLine(lmax: nat, start: int, stride: int): Line {
    Line(start, stride, 0, Pow2(lmax) + 1)
  }

  /** A pass over the points of one level of a pole with boundary points. */
  method BoundaryPass(val: array<real>, start: int, stride: int, ghost lmax: nat, ghost k: nat, steps: nat,
                      stepsize: int, parentOffset: int, firstOffset: int, subtract: bool, ghost u: seq<real>)
    requires |u| == Pow2(lmax) + 1 && k < lmax && BoundaryLine(lmax, start, stride).Holds(val[..], u)
    requires parentOffset == firstOffset == Pow2(k) && stepsize == 2 * parentOffset && steps == Pow2(lmax - k - 1)
    modifies val
    ensures BoundaryLine(lmax, start, stride).Holds(val[..], Apply(lmax, Predict(k, subtract), u))
    ensures BoundaryLine(lmax, start, stride).OnlyChanged(old(val[..]), val[..])
  {
    ghost var s := Predict(k, subtract);
    ghost var line := BoundaryLine(lmax, start, stride);
    ghost var now := u;
    HatStarts(lmax, s, u);
    ghost var left := Pow2(lmax);
    var offset := firstOffset;
    var parOffsetStrided := parentOffset * stride;
    CellOfOffset(line, start, stride, offset, offset, 0);
    line.Neighbours(offset, parentOffset, start + offset * stride, parOffsetStrided);
    var parL := 0.5 * val[start + offset * stride - parOffsetStrided];
    for ctr := 0 to steps
      invariant left == Times(steps - ctr, stepsize) && |now| == |u|
      invariant HatLoop(lmax, s, u, now, offset, parL, left)
      invariant line.Holds(val[..], now) && line.OnlyChanged(old(val[..]), val[..])
    {
      StepFits(steps - ctr, stepsize);
      CellOfOffset(line, start, stride, offset, offset, 0);
      HatAdvances(lmax, s, u, now, offset, parL, left);
      parL, now := SerialCell(val, line, lmax, s, u, now,
                              start + offset * stride, parOffsetStrided, parL, subtract, offset, left);
      left := left - stepsize;
      offset := offset + stepsize;
    }
    PassEnds(lmax, s, u, now, offset);
  }

  /** Offset offset from the first stored point is point i; the first stored point is point first. */
  lemma CellOfOffset(line: Line, start: int, stride: int, offset: int, i: int, first: int)
    requires line.stride == stride && line.base == start - first * stride && i == offset + first
    ensures start + offset * stride == line.Cell(i)
  {
    assert stride * (offset + first) == offset * stride + first * stride;
  }

  lemma HatUp(lmax: nat, k: nat, u: seq<real>)
    requires k < lmax && |u| == Pow2(lmax) + 1
    ensures Hierarchized(lmax, Hat, k + 1, u) == Apply(lmax, Predict(k, true), Hierarchized(lmax, Hat, k, u))
  {
    hide Hierarchized, Apply;
    StageUp(lmax, Hat, k + 1, u);
  }

  lemma SizesOfCoarser(level: nat, ll: nat)
    requires ll < level
    ensures Pow2(level - ll) == 2 * Pow2(level - 1 - ll) && Pow2(level - ll + 1) == 2 * Pow2(level - ll)
    ensures ll > 0 ==> Pow2(ll) / 2 == Pow2(ll - 1)
  {
  }

  lemma PowersAtStart(maxL: nat)
    requires maxL > 0
    ensures Pow2(0) == 1 && Pow2(1) == 2 && Pow2(maxL) == 2 * Pow2(maxL - 1)
  {
  }

  method HierarchizeBoundary(val: array<real>, start: int, stride: int, level: nat, ghost u: seq<real>)
    requires level > 0 && |u| == Pow2(level) + 1 && BoundaryLine(level, start, stride).Holds(val[..], u)
    modifies val
    ensures BoundaryLine(level, start, stride).Holds(val[..], Hierarchized(level, Hat, level, u))
    ensures BoundaryLine(level, start, stride).OnlyChanged(old(val[..]), val[..])
  {
    hide BoundaryLine, Hierarchized, Apply, Pow2;
    ghost var line := BoundaryLine(level, start, stride);
    ghost var v := u;
    NoStage(level, Hat, level, u);
    PowersAtStart(level);
    var steps: int := Pow2(level - 1);
    var offset := 1;
    var stepsize := 2;
    var parentOffset := 1;
    var ll: int := level - 1;
    while ll > -1
      invariant -1 <= ll < level
      invariant ll >= 0 ==> steps == Pow2(ll)
      invariant offset == parentOffset == Pow2(level - 1 - ll) && stepsize == Pow2(level - ll)
      invariant v == Hierarchized(level, Hat, level - 1 - ll, u)
      invariant line.Holds(val[..], v) && line.OnlyChanged(old(val[..]), val[..])
    {
      SizesOfCoarser(level, ll);
      HatUp(level, level - 1 - ll, u);
      BoundaryPass(val, start, stride, level, level - 1 - ll, steps, stepsize, parentOffset, offset, true, v);
      v := Hierarchized(level, Hat, level - ll, u);
      steps := steps / 2;
      offset := Pow2(level - ll);
      parentOffset := stepsize;
      stepsize := 2 * stepsize;
      ll := ll - 1;
    }
  }

  /** One stage of the hat basis is one pass over its level. */
  lemma HatDown(lmax: nat, from: nat, u: seq<real>)
    requires from < lmax && |u| == Pow2(lmax) + 1
    ensures Dehierarchized(lmax, Hat, lmax, from, u)
            == Apply(lmax, Predict(from, false), Dehierarchized(lmax, Hat, lmax, from + 1, u))
  {
    hide Dehierarchized, Apply;
    StageDown(lmax, Hat, lmax, from, u);
  }

  lemma SizesOfNext(maxL: nat, ll: nat)
    requires 1 <= ll <= maxL
    ensures Pow2(ll) == 2 * Pow2(ll - 1) && Pow2(maxL - ll + 1) == 2 * Pow2(maxL - ll)
    ensures ll < maxL ==> Pow2(maxL - ll) / 2 == Pow2(maxL - ll - 1)
  {
  }

  method DehierarchizeBoundary(val: array<real>, start: int, stride: int, maxL: nat, ghost u: seq<real>)
    requires maxL > 0 && |u| == Pow2(maxL) + 1 && BoundaryLine(maxL, start, stride).Holds(val[..], u)
    modifies val
    ensures BoundaryLine(maxL, start, stride).Holds(val[..], Dehierarchized(maxL, Hat, maxL, 0, u))
    ensures BoundaryLine(maxL, start, stride).OnlyChanged(old(val[..]), val[..])
  {
    hide BoundaryLine, Dehierarchized, Apply, Pow2;
    ghost var line := BoundaryLine(maxL, start, stride);
    ghost var v := u;
    NoStage(maxL, Hat, maxL, u);
    PowersAtStart(maxL);
    var steps: int := 1;
    var offset := Pow2(maxL - 1);
    var stepsize := Pow2(maxL);
    var parentOffset := Pow2(maxL - 1);
    var ll := 1;
    while ll <= maxL
      invariant 1 <= ll <= maxL + 1
      invariant steps == Pow2(ll - 1)
      invariant ll <= maxL ==> offset == parentOffset == Pow2(maxL - ll) && stepsize == Pow2(maxL - ll + 1)
      invariant v == Dehierarchized(maxL, Hat, maxL, maxL - ll + 1, u)
      invariant line.Holds(val[..], v) && line.OnlyChanged(old(val[..]), val[..])
    {
      SizesOfNext(maxL, ll);
      HatDown(maxL, maxL - ll, u);
      BoundaryPass(val, start, stride, maxL, maxL - ll, steps, stepsize, parentOffset, offset, false, v);
      v := Dehierarchized(maxL, Hat, maxL, maxL - ll, u);
      steps := 2 * steps;
      offset := if ll < maxL then Pow2(maxL - (ll + 1)) else 0;
      parentOffset := parentOffset / 2;
      stepsize := stepsize / 2;
      ll := ll + 1;
    }
  }
}
