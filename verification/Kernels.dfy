/** The in-place kernels that transform one pole, including the virtual last value of a periodic one. */
module Kernels {
  import opened Dyadic
  import opened Lifting
  import opened Bases

  ghost predicate IsPoleBuffer(lmax: nat, data: array<real>) {
    data.Length == Pow2(lmax) + 1
  }

  method SetCell(data: array<real>, i: int, value: real)
    requires 0 <= i < data.Length
    modifies data
    ensures data[..] == old(data[..])[i := value]
  {
    data[i] := value;
  }

  /** The contents of data while a pass over the odd (or even) multiples of 2^k has reached i: the
      points before i have their new values. */
  ghost predicate PassedTo(lmax: nat, s: Step, before: seq<real>, now: seq<real>, i: int)
    requires Fits(lmax, s) && |before| == |now| == Pow2(lmax) + 1
  {
    forall x {:trigger now[x]} :: 0 <= x <= Pow2(lmax) ==>
      now[x] == if IsTarget(s, x) && x < i then At(lmax, s, before, x) else before[x]
  }

  /** The points that the pass of a step visits; the end points are handled outside the loop. */
  predicate IsTarget(s: Step, x: int) {
    if s.Predict? then OddMult(s.k, x) else x > 0 && Mult(s.k + 1, x)
  }

  /** Writing the new value at target i takes the pass to the next target. */
  lemma PassAdvances(lmax: nat, s: Step, before: seq<real>, now: seq<real>, i: int)
    requires Fits(lmax, s) && |before| == |now| == Pow2(lmax) + 1
    requires IsTarget(s, i) && 0 <= i < Pow2(lmax) && PassedTo(lmax, s, before, now, i)
    ensures PassedTo(lmax, s, before, now[i := At(lmax, s, before, i)], i + 2 * Pow2(s.k))
    ensures IsTarget(s, i + 2 * Pow2(s.k))
  {
    forall x | i < x < i + 2 * Pow2(s.k)
      ensures !IsTarget(s, x)
    {
      if s.Predict? {
        OddSpacing(s.k, i, x);
      } else {
        Spacing(s.k + 1, i, x);
      }
    }
    if s.Predict? {
      OddNext(s.k, i);
    } else {
      MultPow2(s.k + 1, s.k + 1);
      MultClosed(s.k + 1, i, Pow2(s.k + 1));
    }
  }

  lemma PassStarts(lmax: nat, s: Step, before: seq<real>)
    requires Fits(lmax, s) && |before| == Pow2(lmax) + 1
    ensures PassedTo(lmax, s, before, before, if s.Predict? then Pow2(s.k) else 2 * Pow2(s.k))
    ensures IsTarget(s, if s.Predict? then Pow2(s.k) else 2 * Pow2(s.k))
    ensures 2 * Pow2(s.k) <= Pow2(lmax)
  {
    var first := if s.Predict? then Pow2(s.k) else 2 * Pow2(s.k);
    Pow2Monotone(s.k, lmax);
    MultZero(s.k + 1);
    MultZero(s.k);
    MultPow2(s.k, s.k);
    MultPow2(s.k + 1, s.k + 1);
    forall x | 0 <= x < first
      ensures !IsTarget(s, x)
    {
      if s.Predict? {
        MultSplit(s.k, x);
        if x > 0 {
          Spacing(s.k, 0, x);
        }
      } else if x > 0 {
        Spacing(s.k + 1, 0, x);
      }
    }
  }

  /** Around a target, and at the target itself, a pass still sees the old values. */
  lemma OldAround(lmax: nat, s: Step, before: seq<real>, now: seq<real>, i: int)
    requires Fits(lmax, s) && |before| == |now| == Pow2(lmax) + 1
    requires IsTarget(s, i) && 0 <= i < Pow2(lmax) && PassedTo(lmax, s, before, now, i)
    ensures Pow2(s.k) <= i && i + Pow2(s.k) <= Pow2(lmax)
    ensures now[i] == before[i] && now[i + Pow2(s.k)] == before[i + Pow2(s.k)]
  {
    if s.Predict? {
      OddIsInside(lmax, s.k, i);
    } else {
      EvenIsInside(lmax, s.k, i);
    }
    Neighbours(s.k, i);
    MultSplit(s.k, i + Pow2(s.k));
  }

  lemma PassEnds(lmax: nat, s: Step, before: seq<real>, now: seq<real>, i: int)
    requires Fits(lmax, s) && |before| == |now| == Pow2(lmax) + 1
    requires i >= Pow2(lmax) && PassedTo(lmax, s, before, now, i) && s.Predict?
    ensures now == Apply(lmax, s, before)
  {
    MultPow2(s.k + 1, lmax);
    MultSplit(s.k, Pow2(lmax));
  }

  /** Updates the surpluses at odd multiples of 2^k in one pass that carries the left parent along. */
  method PredictPass(data: array<real>, lmax: nat, k: nat, subtract: bool)
    requires IsPoleBuffer(lmax, data) && k < lmax
    modifies data
    ensures data[..] == Apply(lmax, Predict(k, subtract), old(data[..]))
  {
    ghost var s := Predict(k, subtract);
    ghost var u := data[..];
    ghost var now := u;
    var n, w := Pow2(lmax), Pow2(k);
    PassStarts(lmax, s, u);
    var leftParent := Half(subtract, data[0]);
    var i := w;
    while i < n
      invariant IsTarget(s, i) && w <= i <= n + w
      invariant data[..] == now && PassedTo(lmax, s, u, now, i)
      invariant leftParent == Half(subtract, u[i - w])
      decreases n - i
    {
      OldAround(lmax, s, u, now, i);
      PassAdvances(lmax, s, u, now, i);
      var rightParent := Half(subtract, data[i + w]);
      SetCell(data, i, leftParent + (rightParent + data[i]));
      now := now[i := At(lmax, s, u, i)];
      leftParent := rightParent;
      i := i + 2 * w;
    }
    PassEnds(lmax, s, u, now, i);
  }

  lemma InnerValue(lmax: nat, s: Step, u: seq<real>, i: int)
    requires Fits(lmax, s) && |u| == Pow2(lmax) + 1 && s.Smooth? && IsTarget(s, i) && i < Pow2(lmax)
    ensures 2 * Pow2(s.k) <= i && i + 2 * Pow2(s.k) <= Pow2(lmax)
    ensures At(lmax, s, u, i) == Mix(s.blend, u[i - Pow2(s.k)]) + Mix(s.blend, u[i + Pow2(s.k)]) + Keep(s.blend, u[i])
  {
    EvenIsInside(lmax, s.k, i);
  }

  /** One iteration of the smoothing pass on values. */
  lemma SmoothAdvances(lmax: nat, s: Step, u: seq<real>, now: seq<real>, i: int, n: int, w: int, leftParent: real)
    requires Fits(lmax, s) && |u| == |now| == n + 1 && n == Pow2(lmax) && w == Pow2(s.k) && s.Smooth?
    requires IsTarget(s, i) && 2 * w <= i < n && PassedTo(lmax, s, u, now, i)
    requires leftParent == Mix(s.blend, u[i - w])
    ensures i + 2 * w <= n && IsTarget(s, i + 2 * w) && now[i + w] == u[i + w]
    ensures PassedTo(lmax, s, u, now[i := leftParent + Mix(s.blend, now[i + w]) + Keep(s.blend, now[i])], i + 2 * w)
  {
    OldAround(lmax, s, u, now, i);
    PassAdvances(lmax, s, u, now, i);
    InnerValue(lmax, s, u, i);
  }

  /** Blends the odd multiples of 2^k into the inner even multiples, in one pass. */
  method SmoothPass(data: array<real>, lmax: nat, k: nat, b: Blend, ghost periodic: bool)
    requires IsPoleBuffer(lmax, data) && k < lmax
    modifies data
    ensures PassedTo(lmax, Smooth(k, b, periodic), old(data[..]), data[..], Pow2(lmax))
  {
    hide PassedTo, Pow2, Mix, IsTarget, Keep;
    ghost var s := Smooth(k, b, periodic);
    ghost var u := data[..];
    ghost var now := u;
    var n, w := Pow2(lmax), Pow2(k);
    PassStarts(lmax, s, u);
    var leftParent := Mix(b, data[w]);
    var i := 2 * w;
    while i < n
      invariant IsTarget(s, i) && 2 * w <= i <= n
      invariant data[..] == now && PassedTo(lmax, s, u, now, i)
      invariant leftParent == Mix(b, u[i - w])
      decreases n - i
    {
      SmoothAdvances(lmax, s, u, now, i, n, w, leftParent);
      var rightParent := Mix(b, data[i + w]);
      SetCell(data, i, leftParent + rightParent + Keep(b, data[i]));
      now := now[i := data[i]];
      leftParent := rightParent;
      i := i + 2 * w;
    }
  }

  ghost function WithEnds(lmax: nat, s: Step, u: seq<real>): (v: seq<real>)
    requires Fits(lmax, s) && |u| == Pow2(lmax) + 1
    ensures |v| == |u|
  {
    u[0 := At(lmax, s, u, 0)][Pow2(lmax) := At(lmax, s, u, Pow2(lmax))]
  }

  /** The two end points; a periodic pole gets the same value at both. */
  method SmoothEnds(data: array<real>, lmax: nat, k: nat, b: Blend, periodic: bool)
    requires IsPoleBuffer(lmax, data) && k < lmax
    modifies data
    ensures data[..] == WithEnds(lmax, Smooth(k, b, periodic), old(data[..]))
  {
    var n, w := Pow2(lmax), Pow2(k);
    Pow2Monotone(k, lmax);
    if periodic {
      data[0] := Keep(b, 0.5 * (data[0] + data[n])) + Mix(b, data[w]) + Mix(b, data[n - w]);
      data[n] := data[0];
    } else {
      data[0] := Keep(b, data[0]) + Mix(b, data[w]) + Mix(b, data[w]);
      data[n] := Keep(b, data[n]) + Mix(b, data[n - w]) + Mix(b, data[n - w]);
    }
  }

  lemma EndsThenPass(lmax: nat, s: Step, u: seq<real>, now: seq<real>)
    requires Fits(lmax, s) && |u| == |now| == Pow2(lmax) + 1 && s.Smooth?
    requires PassedTo(lmax, s, WithEnds(lmax, s, u), now, Pow2(lmax))
    ensures now == Apply(lmax, s, u)
  {
    forall x | 0 <= x <= Pow2(lmax)
      ensures now[x] == At(lmax, s, u, x)
    {
      if IsTarget(s, x) && x < Pow2(lmax) {
        InnerValue(lmax, s, u, x);
        InnerValue(lmax, s, WithEnds(lmax, s, u), x);
      }
    }
  }

  lemma PassThenEnds(lmax: nat, s: Step, u: seq<real>, v: seq<real>)
    requires Fits(lmax, s) && |u| == |v| == Pow2(lmax) + 1 && s.Smooth?
    requires PassedTo(lmax, s, u, v, Pow2(lmax))
    ensures WithEnds(lmax, s, v) == Apply(lmax, s, u)
  {
    forall x | IsSmoothed(lmax, s.k, x) && (x == 0 || x == Pow2(lmax))
      ensures At(lmax, s, v, x) == At(lmax, s, u, x)
    {
      NeighboursAreOdd(lmax, s, x);
      MultZero(s.k + 1);
    }
  }

  lemma NeighboursAreOdd(lmax: nat, s: Step, x: int)
    requires Fits(lmax, s) && s.Smooth? && (x == 0 || x == Pow2(lmax))
    ensures !IsTarget(s, LeftOf(lmax, s.k, s.periodic, x)) && !IsTarget(s, RightOf(lmax, s.k, s.periodic, x))
  {
    var n, w := Pow2(lmax), Pow2(s.k);
    MultPow2(s.k, s.k);
    MultPow2(s.k + 1, lmax);
    Neighbours(s.k, n);
    MultSplit(s.k, w);
    MultSplit(s.k, n - w);
  }

  method SmoothEndsFirst(data: array<real>, lmax: nat, k: nat, b: Blend, periodic: bool)
    requires IsPoleBuffer(lmax, data) && k < lmax
    modifies data
    ensures data[..] == Apply(lmax, Smooth(k, b, periodic), old(data[..]))
  {
    ghost var u := data[..];
    SmoothEnds(data, lmax, k, b, periodic);
    SmoothPass(data, lmax, k, b, periodic);
    EndsThenPass(lmax, Smooth(k, b, periodic), u, data[..]);
  }

  method SmoothEndsLast(data: array<real>, lmax: nat, k: nat, b: Blend, periodic: bool)
    requires IsPoleBuffer(lmax, data) && k < lmax
    modifies data
    ensures data[..] == Apply(lmax, Smooth(k, b, periodic), old(data[..]))
  {
    ghost var u := data[..];
    SmoothPass(data, lmax, k, b, periodic);
    PassThenEnds(lmax, Smooth(k, b, periodic), u, data[..]);
    SmoothEnds(data, lmax, k, b, periodic);
  }

  method FullWeightingForward(data: array<real>, lmax: nat, k: nat, periodic: bool)
    requires IsPoleBuffer(lmax, data) && k < lmax
    modifies data
    ensures data[..] == Forward(lmax, FullWeighting(periodic), k, old(data[..]))
  {
    SmoothEndsFirst(data, lmax, k, Average, periodic);
    PredictPass(data, lmax, k, true);
  }

  method FullWeightingBackward(data: array<real>, lmax: nat, k: nat, periodic: bool)
    requires IsPoleBuffer(lmax, data) && k < lmax
    modifies data
    ensures data[..] == Backward(lmax, FullWeighting(periodic), k, old(data[..]))
  {
    PredictPass(data, lmax, k, false);
    SmoothEndsLast(data, lmax, k, Unaverage, periodic);
  }

  method BiorthogonalForward(data: array<real>, lmax: nat, k: nat, periodic: bool)
    requires IsPoleBuffer(lmax, data) && k < lmax
    modifies data
    ensures data[..] == Forward(lmax, Biorthogonal(periodic), k, old(data[..]))
  {
    PredictPass(data, lmax, k, true);
    SmoothEndsFirst(data, lmax, k, Update, periodic);
  }

  method BiorthogonalBackward(data: array<real>, lmax: nat, k: nat, periodic: bool)
    requires IsPoleBuffer(lmax, data) && k < lmax
    modifies data
    ensures data[..] == Backward(lmax, Biorthogonal(periodic), k, old(data[..]))
  {
    SmoothEndsFirst(data, lmax, k, Downdate, periodic);
    PredictPass(data, lmax, k, false);
  }

  method HierarchizeFullWeighting(data: array<real>, lmax: nat, lmin: nat, periodic: bool)
    requires IsPoleBuffer(lmax, data) && lmin <= lmax
    modifies data
    ensures data[..] == Hierarchized(lmax, FullWeighting(periodic), lmax - lmin, old(data[..]))
  {
    ghost var u := data[..];
    for ldiff := 0 to lmax - lmin
      invariant data[..] == Hierarchized(lmax, FullWeighting(periodic), ldiff, u)
    {
      FullWeightingForward(data, lmax, ldiff, periodic);
    }
  }

  method DehierarchizeFullWeighting(data: array<real>, lmax: nat, lmin: nat, periodic: bool)
    requires IsPoleBuffer(lmax, data) && lmin <= lmax
    modifies data
    ensures data[..] == Dehierarchized(lmax, FullWeighting(periodic), lmax - lmin, 0, old(data[..]))
  {
    hide Dehierarchized, Backward;
    ghost var u, v := data[..], data[..];
    NoStage(lmax, FullWeighting(periodic), lmax - lmin, u);
    var ldiff := lmax - lmin - 1;
    while ldiff >= 0
      invariant -1 <= ldiff < lmax - lmin
      invariant data[..] == v == Dehierarchized(lmax, FullWeighting(periodic), lmax - lmin, ldiff + 1, u)
    {
      FullWeightingBackward(data, lmax, ldiff, periodic);
      StageDown(lmax, FullWeighting(periodic), lmax - lmin, ldiff, u);
      v := Dehierarchized(lmax, FullWeighting(periodic), lmax - lmin, ldiff, u);
      ldiff := ldiff - 1;
    }
  }

  method HierarchizeBiorthogonal(data: array<real>, lmax: nat, lmin: nat, periodic: bool)
    requires IsPoleBuffer(lmax, data) && lmin <= lmax
    modifies data
    ensures data[..] == Hierarchized(lmax, Biorthogonal(periodic), lmax - lmin, old(data[..]))
  {
    ghost var u := data[..];
    for ldiff := 0 to lmax - lmin
      invariant data[..] == Hierarchized(lmax, Biorthogonal(periodic), ldiff, u)
    {
      BiorthogonalForward(data, lmax, ldiff, periodic);
    }
  }

  method DehierarchizeBiorthogonal(data: array<real>, lmax: nat, lmin: nat, periodic: bool)
    requires IsPoleBuffer(lmax, data) && lmin <= lmax
    modifies data
    ensures data[..] == Dehierarchized(lmax, Biorthogonal(periodic), lmax - lmin, 0, old(data[..]))
  {
    hide Dehierarchized, Backward;
    ghost var u, v := data[..], data[..];
    NoStage(lmax, Biorthogonal(periodic), lmax - lmin, u);
    var ldiff := lmax - lmin - 1;
    while ldiff >= 0
      invariant -1 <= ldiff < lmax - lmin
      invariant data[..] == v == Dehierarchized(lmax, Biorthogonal(periodic), lmax - lmin, ldiff + 1, u)
    {
      BiorthogonalBackward(data, lmax, ldiff, periodic);
      StageDown(lmax, Biorthogonal(periodic), lmax - lmin, ldiff, u);
      v := Dehierarchized(lmax, Biorthogonal(periodic), lmax - lmin, ldiff, u);
      ldiff := ldiff - 1;
    }
  }
}
