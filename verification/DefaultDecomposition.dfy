/** The default decomposition of a grid: every dimension is cut into nearly equal parts. */
module DefaultDecomposition {
  import opened Arithmetic
  import opened Dyadic
  import opened Poles
  import opened Tensor

  datatype Result = Ok(decomposition: seq<Index>) | TooManyProcesses

  /** Where part j starts: the rounded quotient of points * j and the number of parts. */
  function Cut(points: int, procs: int, j: int, forwardDecomposition: bool): int
    requires procs > 0
  {
    if forwardDecomposition then (points * j + procs - 1) / procs else (points * j) / procs
  }

  lemma RoundedStep(x: int, points: int, procs: int, up: int)
    requires procs > 0
    ensures points / procs <= (x + points + up) / procs - (x + up) / procs <= points / procs + 1
  {
    DivModSplit(procs, points);
    var y, r := x + up, points % procs;
    ModShift(procs, y + r, points / procs);
    DivModSplit(procs, y);
    var s := y % procs + r;
    ModShift(procs, s, y / procs);
    if s >= procs {
      DivModOf(procs, 1, s - procs);
    } else {
      DivModOf(procs, 0, s);
    }
  }

  /** The cut is the exact quotient rounded up, or rounded down. */
  lemma CutIsRounded(points: int, procs: int, j: int, forwardDecomposition: bool)
    requires procs > 0
    ensures var c := Cut(points, procs, j, forwardDecomposition);
            if forwardDecomposition then procs * (c - 1) < points * j <= procs * c
            else procs * c <= points * j < procs * (c + 1)
  {
    DivModSplit(procs, points * j);
    DivModSplit(procs, points * j + procs - 1);
    var q := (points * j + procs - 1) / procs;
    assert procs * (q - 1) == procs * q - procs;
  }

  /** Every part has the quotient of points and parts many points, or one more. */
  lemma PartsAreEven(points: int, procs: int, j: int, forwardDecomposition: bool)
    requires procs > 0
    ensures points / procs
            <= Cut(points, procs, j + 1, forwardDecomposition) - Cut(points, procs, j, forwardDecomposition)
            <= points / procs + 1
  {
    MulStep(points, j);
    RoundedStep(points * j, points, procs, if forwardDecomposition then procs - 1 else 0);
  }

  lemma EndCuts(points: int, procs: int, forwardDecomposition: bool)
    requires procs > 0
    ensures Cut(points, procs, 0, forwardDecomposition) == 0
            && Cut(points, procs, procs, forwardDecomposition) == points
  {
    assert points * procs == procs * points;
    var up := if forwardDecomposition then procs - 1 else 0;
    DivModOf(procs, points, up);
    DivModOf(procs, 0, up);
  }

  lemma {:induction false} CutsAscend(points: int, procs: int, i: int, j: int, forwardDecomposition: bool)
    requires 0 < procs <= points && i < j
    ensures Cut(points, procs, i, forwardDecomposition) < Cut(points, procs, j, forwardDecomposition)
    decreases j - i
  {
    AtLeastOne(points, procs);
    PartsAreEven(points, procs, j - 1, forwardDecomposition);
    if i < j - 1 {
      CutsAscend(points, procs, i, j - 1, forwardDecomposition);
    }
  }

  lemma AtLeastOne(points: int, procs: int)
    requires 0 < procs <= points
    ensures points / procs >= 1
  {
    ModShift(procs, points - procs, 1);
    DivModSplit(procs, points - procs);
    if (points - procs) / procs < 0 {
      MulOrder(procs, (points - procs) / procs, 0);
    }
  }

  ghost predicate IsDefault(points: int, procs: int, llbnd: Index, forwardDecomposition: bool) {
    0 < procs <= points && |llbnd| == procs
      && forall j :: 0 <= j < procs ==> llbnd[j] == Cut(points, procs, j, forwardDecomposition)
  }

  /** The cuts of a dimension are those of a pole whose parts are not empty and differ by at most one point. */
  lemma DefaultIsPole(lmax: nat, boundary: Boundary, procs: int, llbnd: Index, forwardDecomposition: bool)
    requires IsDefault(Pow2(lmax) - 1 + boundary, procs, llbnd, forwardDecomposition)
    ensures var p := Pole(lmax, boundary, llbnd);
            p.Valid()
            && forall r :: 0 <= r < procs ==> p.Length() / procs <= p.Last(r) - p.First(r) + 1 <= p.Length() / procs + 1
  {
    var p := Pole(lmax, boundary, llbnd);
    EndCuts(p.Length(), procs, forwardDecomposition);
    forall i, j | 0 <= i < j < procs
      ensures llbnd[i] < llbnd[j]
    {
      CutsAscend(p.Length(), procs, i, j, forwardDecomposition);
    }
    CutsAscend(p.Length(), procs, procs - 1, procs, forwardDecomposition);
    forall r | 0 <= r < procs
      ensures p.Length() / procs <= p.Last(r) - p.First(r) + 1 <= p.Length() / procs + 1
    {
      PartsAreEven(p.Length(), procs, r, forwardDecomposition);
    }
  }

  /** One list of cuts for every dimension, unless some dimension has more processes than points. */
  method GetDefaultDecomposition(points: Index, procs: Index, forwardDecomposition: bool) returns (result: Result)
    requires |points| == |procs| && forall i :: 0 <= i < |procs| ==> procs[i] > 0
    ensures result.TooManyProcesses? <==> exists i :: 0 <= i < |points| && procs[i] > points[i]
    ensures result.Ok? ==> |result.decomposition| == |points|
                           && forall i :: 0 <= i < |points| ==>
                             IsDefault(points[i], procs[i], result.decomposition[i], forwardDecomposition)
  {
    var decomposition: seq<Index> := [];
    for i := 0 to |points|
      invariant |decomposition| == i && forall k :: 0 <= k < i ==> procs[k] <= points[k]
      invariant forall k :: 0 <= k < i ==> IsDefault(points[k], procs[k], decomposition[k], forwardDecomposition)
    {
      if procs[i] > points[i] {
        return TooManyProcesses;
      }
      var llbnd := CutsOf(points[i], procs[i], forwardDecomposition);
      decomposition := decomposition + [llbnd];
    }
    result := Ok(decomposition);
  }

  method CutsOf(points: int, procs: int, forwardDecomposition: bool) returns (llbnd: Index)
    requires 0 < procs <= points
    ensures IsDefault(points, procs, llbnd, forwardDecomposition)
  {
    llbnd := seq(procs, j => 0);
    for j := 0 to procs
      invariant |llbnd| == procs && forall k :: 0 <= k < j ==> llbnd[k] == Cut(points, procs, k, forwardDecomposition)
    {
      llbnd := llbnd[j := if forwardDecomposition then (points * j + procs - 1) / procs else (points * j) / procs];
    }
  }
}
