/** Hierarchization and dehierarchization of a whole d-dimensional grid, one dimension after the other. */
module GridSweep {
  import opened Dyadic
  import opened Lifting
  import opened Bases
  import opened Rows
  import opened GridAxes

  /** One dimension of the grid.  A one-sided (periodic) dimension does not store its last point; a dimension
      without boundary points stores neither end, both have the value zero. */
  datatype Dim = Dim(axis: Axis, lmax: nat, boundary: nat, active: bool, lmin: nat, basis: Basis) {

    ghost predicate Valid(size: int) {
      && axis.Divides(size)
      && lmin <= lmax
      && boundary <= 2
      && axis.count == Pow2(lmax) - 1 + boundary
      && (boundary == 0 ==> basis.Hat? && lmin == 0 && lmax > 0)
      && (boundary == 1 ==> basis.Hat? || basis.IsPeriodic())
    }

    /** Point i of a pole has a stored cell. */
    predicate IsStored(i: int) {
      boundary != 0 || 0 < i < Pow2(lmax)
    }

    /** The stored cell for point i of a pole; the virtual last point of a one-sided pole is point 0. */
    function Wrap(i: int): int {
      if boundary == 0 then i - 1 else if i == axis.count then 0 else i
    }

    /** The point of a stored cell. */
    function Point(c: int): int {
      if boundary == 0 then c + 1 else c
    }

    function PointOf(li: int): int
      requires axis.Valid()
    {
      Point(axis.Coordinate(li))
    }

    lemma WrapIsCell(i: int, size: int)
      requires Valid(size) && 0 <= i <= Pow2(lmax) && IsStored(i)
      ensures 0 <= Wrap(i) < axis.count
    {
    }
  }

  /** The stored points of the pole through a cell. */
  ghost function StoredPole(a: Axis, u: seq<real>, li: int): (w: seq<real>)
    requires a.Divides(|u|) && 0 <= li < |u|
    ensures |w| == a.count
  {
    seq(a.count, i requires 0 <= i < a.count => (a.MoveIsExact(li, i, |u|); u[a.Move(li, i)]))
  }

  /** The pole through cell li, with its virtual last point or its zero end points. */
  ghost function PoleAt(d: Dim, u: seq<real>, li: int): (v: seq<real>)
    requires d.Valid(|u|) && 0 <= li < |u|
    ensures |v| == Pow2(d.lmax) + 1
    ensures d.boundary == 1 ==> EndsEqual(v)
  {
    seq(Pow2(d.lmax) + 1, i requires 0 <= i <= Pow2(d.lmax) => PointValue(d, u, li, i))
  }

  ghost function PointValue(d: Dim, u: seq<real>, li: int, i: int): real
    requires d.Valid(|u|) && 0 <= li < |u| && 0 <= i <= Pow2(d.lmax)
  {
    if d.IsStored(i) then (d.axis.MoveIsExact(li, d.Wrap(i), |u|); u[d.axis.Move(li, d.Wrap(i))]) else 0.0
  }

  predicate StepFits(d: Dim, s: Step) {
    && Fits(d.lmax, s)
    && (s.Smooth? ==> d.boundary > 0 && (d.boundary == 1 ==> s.periodic))
  }

  /** One lifting step on all poles along one dimension. */
  ghost function AxisStep(d: Dim, s: Step, u: seq<real>): (v: seq<real>)
    requires d.Valid(|u|) && StepFits(d, s)
    ensures |v| == |u|
  {
    seq(|u|, li requires 0 <= li < |u| =>
      (d.axis.MoveIsExact(li, 0, |u|); At(d.lmax, s, PoleAt(d, u, li), d.Point(d.axis.Coordinate(li)))))
  }

  /** After a step along a dimension, a pole along that dimension is the stepped pole. */
  lemma PoleOfAxisStep(d: Dim, s: Step, u: seq<real>, li: int)
    requires d.Valid(|u|) && StepFits(d, s) && 0 <= li < |u|
    ensures PoleAt(d, AxisStep(d, s, u), li) == Apply(d.lmax, s, PoleAt(d, u, li))
  {
    var v := PoleAt(d, u, li);
    forall i | 0 <= i <= Pow2(d.lmax)
      ensures PoleAt(d, AxisStep(d, s, u), li)[i] == Apply(d.lmax, s, v)[i]
    {
      if d.IsStored(i) {
        StoredPointOfAxisStep(d, s, u, li, i);
      }
      if !d.IsStored(i) || (d.boundary == 1 && i == Pow2(d.lmax)) {
        EndOfStep(d, s, v);
      }
    }
  }

  lemma EndOfStep(d: Dim, s: Step, v: seq<real>)
    requires StepFits(d, s) && |v| == Pow2(d.lmax) + 1 && (d.boundary == 1 ==> EndsEqual(v))
    ensures d.boundary == 0 ==> Apply(d.lmax, s, v)[0] == v[0] && Apply(d.lmax, s, v)[Pow2(d.lmax)] == v[Pow2(d.lmax)]
    ensures d.boundary == 1 ==> Apply(d.lmax, s, v)[0] == Apply(d.lmax, s, v)[Pow2(d.lmax)]
  {
    if s.Predict? {
      PredictKeepsEnds(d.lmax, s, v);
    } else if d.boundary == 1 {
      EndsStayEqual(d.lmax, s, v);
    }
  }

  lemma StoredPointOfAxisStep(d: Dim, s: Step, u: seq<real>, li: int, i: int)
    requires d.Valid(|u|) && StepFits(d, s) && 0 <= li < |u| && 0 <= i <= Pow2(d.lmax) && d.IsStored(i)
    ensures PoleAt(d, AxisStep(d, s, u), li)[i] == At(d.lmax, s, PoleAt(d, u, li), d.Point(d.Wrap(i)))
  {
    var c := d.axis.Move(li, d.Wrap(i));
    d.WrapIsCell(i, |u|);
    d.axis.MoveIsExact(li, d.Wrap(i), |u|);
    SamePole(d, u, li, d.Wrap(i));
    assert AxisStep(d, s, u)[c] == At(d.lmax, s, PoleAt(d, u, li), d.Point(d.Wrap(i)));
  }

  lemma SamePole(d: Dim, u: seq<real>, li: int, i: int)
    requires d.Valid(|u|) && 0 <= li < |u| && 0 <= i < d.axis.count
    ensures 0 <= d.axis.Move(li, i) < |u| && PoleAt(d, u, d.axis.Move(li, i)) == PoleAt(d, u, li)
  {
    d.axis.MoveIsExact(li, i, |u|);
    forall k | 0 <= k <= Pow2(d.lmax)
      ensures PoleAt(d, u, d.axis.Move(li, i))[k] == PoleAt(d, u, li)[k]
    {
      assert d.axis.Move(d.axis.Move(li, i), d.Wrap(k)) == d.axis.Move(li, d.Wrap(k));
      assert PointValue(d, u, d.axis.Move(li, i), k) == PointValue(d, u, li, k);
    }
  }

  /** The value after two steps along different dimensions, as a table of old values. */
  lemma TwoStepsAreTable(a: Dim, s: Step, b: Dim, t: Step, u: seq<real>, li: int)
    requires a.Valid(|u|) && StepFits(a, s) && b.Valid(|u|) && StepFits(b, t) && Independent(a.axis, b.axis)
    requires 0 <= li < |u|
    ensures 0 <= a.PointOf(li) <= Pow2(a.lmax) && 0 <= b.PointOf(li) <= Pow2(b.lmax)
    ensures var r, q := RowOf(a.lmax, s, a.PointOf(li)), RowOf(b.lmax, t, b.PointOf(li));
            AxisStep(a, s, AxisStep(b, t, u))[li]
            == Combine(r, InnerRow(a, b, q, u, li, r.i0), InnerRow(a, b, q, u, li, r.i1),
                       InnerRow(a, b, q, u, li, r.i2), InnerRow(a, b, q, u, li, r.i3))
  {
    var w := AxisStep(b, t, u);
    var x := a.PointOf(li);
    a.axis.MoveIsExact(li, 0, |u|);
    b.axis.MoveIsExact(li, 0, |u|);
    var r := RowOf(a.lmax, s, x);
    AtIsRow(a.lmax, s, PoleAt(a, w, li), x);
    InnerValue(a, b, t, u, li, r.i0);
    InnerValue(a, b, t, u, li, r.i1);
    InnerValue(a, b, t, u, li, r.i2);
    InnerValue(a, b, t, u, li, r.i3);
  }

  /** Old value at point i along a and point j along b, seen from cell li. */
  ghost function CellValue(a: Dim, b: Dim, u: seq<real>, li: int, i: int, j: int): real
    requires a.Valid(|u|) && b.Valid(|u|) && 0 <= li < |u| && 0 <= i <= Pow2(a.lmax) && 0 <= j <= Pow2(b.lmax)
  {
    if a.IsStored(i) && b.IsStored(j) then
      a.axis.MoveIsExact(li, a.Wrap(i), |u|);
      b.axis.MoveIsExact(a.axis.Move(li, a.Wrap(i)), b.Wrap(j), |u|);
      u[b.axis.Move(a.axis.Move(li, a.Wrap(i)), b.Wrap(j))]
    else 0.0
  }

  ghost function InnerRow(a: Dim, b: Dim, q: Row, u: seq<real>, li: int, i: int): real
    requires a.Valid(|u|) && b.Valid(|u|) && 0 <= li < |u| && 0 <= i <= Pow2(a.lmax) && q.Within(Pow2(b.lmax))
  {
    Combine(q, CellValue(a, b, u, li, i, q.i0), CellValue(a, b, u, li, i, q.i1),
            CellValue(a, b, u, li, i, q.i2), CellValue(a, b, u, li, i, q.i3))
  }

  lemma InnerValue(a: Dim, b: Dim, t: Step, u: seq<real>, li: int, i: int)
    requires a.Valid(|u|) && b.Valid(|u|) && StepFits(b, t) && Independent(a.axis, b.axis)
    requires 0 <= li < |u| && 0 <= i <= Pow2(a.lmax)
    ensures 0 <= b.PointOf(li) <= Pow2(b.lmax)
    ensures PoleAt(a, AxisStep(b, t, u), li)[i] == InnerRow(a, b, RowOf(b.lmax, t, b.PointOf(li)), u, li, i)
  {
    b.axis.MoveIsExact(li, 0, |u|);
    if a.IsStored(i) {
      StoredInnerValue(a, b, t, u, li, i);
    }
  }

  lemma StoredInnerValue(a: Dim, b: Dim, t: Step, u: seq<real>, li: int, i: int)
    requires a.Valid(|u|) && b.Valid(|u|) && StepFits(b, t) && Independent(a.axis, b.axis)
    requires 0 <= li < |u| && 0 <= i <= Pow2(a.lmax) && a.IsStored(i)
    ensures 0 <= b.PointOf(li) <= Pow2(b.lmax)
    ensures PoleAt(a, AxisStep(b, t, u), li)[i] == InnerRow(a, b, RowOf(b.lmax, t, b.PointOf(li)), u, li, i)
  {
    var c := a.axis.Move(li, a.Wrap(i));
    a.axis.MoveIsExact(li, a.Wrap(i), |u|);
    b.axis.MoveIsExact(li, 0, |u|);
    b.axis.MoveIsExact(c, 0, |u|);
    MovesCommute(a.axis, b.axis, li, a.Wrap(i), 0);
    var y := b.PointOf(li);
    assert AxisStep(b, t, u)[c] == At(b.lmax, t, PoleAt(b, u, c), y);
    AtIsRow(b.lmax, t, PoleAt(b, u, c), y);
    var q := RowOf(b.lmax, t, y);
    PoleThroughMove(a, b, u, li, i, q.i0);
    PoleThroughMove(a, b, u, li, i, q.i1);
    PoleThroughMove(a, b, u, li, i, q.i2);
    PoleThroughMove(a, b, u, li, i, q.i3);
  }

  lemma PoleThroughMove(a: Dim, b: Dim, u: seq<real>, li: int, i: int, j: int)
    requires a.Valid(|u|) && b.Valid(|u|) && 0 <= li < |u| && 0 <= i <= Pow2(a.lmax) && 0 <= j <= Pow2(b.lmax)
             && a.IsStored(i)
    ensures 0 <= a.axis.Move(li, a.Wrap(i)) < |u|
    ensures PoleAt(b, u, a.axis.Move(li, a.Wrap(i)))[j] == CellValue(a, b, u, li, i, j)
  {
    a.axis.MoveIsExact(li, a.Wrap(i), |u|);
  }

  lemma CellValueIsSymmetric(a: Dim, b: Dim, u: seq<real>, li: int, i: int, j: int)
    requires a.Valid(|u|) && b.Valid(|u|) && Independent(a.axis, b.axis)
    requires 0 <= li < |u| && 0 <= i <= Pow2(a.lmax) && 0 <= j <= Pow2(b.lmax)
    ensures CellValue(a, b, u, li, i, j) == CellValue(b, a, u, li, j, i)
  {
    if a.IsStored(i) && b.IsStored(j) {
      MovesCommute(a.axis, b.axis, li, a.Wrap(i), b.Wrap(j));
    }
  }

  /** Lifting steps along different dimensions commute. */
  lemma StepsCommute(a: Dim, s: Step, b: Dim, t: Step, u: seq<real>)
    requires a.Valid(|u|) && StepFits(a, s) && b.Valid(|u|) && StepFits(b, t) && Independent(a.axis, b.axis)
    ensures AxisStep(a, s, AxisStep(b, t, u)) == AxisStep(b, t, AxisStep(a, s, u))
  {
    forall li | 0 <= li < |u|
      ensures AxisStep(a, s, AxisStep(b, t, u))[li] == AxisStep(b, t, AxisStep(a, s, u))[li]
    {
      TwoStepsAreTable(a, s, b, t, u, li);
      TwoStepsAreTable(b, t, a, s, u, li);
      TableIsSymmetric(a, b, RowOf(a.lmax, s, a.PointOf(li)), RowOf(b.lmax, t, b.PointOf(li)), u, li);
    }
  }

  lemma TableIsSymmetric(a: Dim, b: Dim, r: Row, q: Row, u: seq<real>, li: int)
    requires a.Valid(|u|) && b.Valid(|u|) && Independent(a.axis, b.axis) && 0 <= li < |u|
    requires r.Within(Pow2(a.lmax)) && q.Within(Pow2(b.lmax))
    ensures Combine(r, InnerRow(a, b, q, u, li, r.i0), InnerRow(a, b, q, u, li, r.i1),
                    InnerRow(a, b, q, u, li, r.i2), InnerRow(a, b, q, u, li, r.i3))
            == Combine(q, InnerRow(b, a, r, u, li, q.i0), InnerRow(b, a, r, u, li, q.i1),
                       InnerRow(b, a, r, u, li, q.i2), InnerRow(b, a, r, u, li, q.i3))
  {
    forall i, j | i in {r.i0, r.i1, r.i2, r.i3} && j in {q.i0, q.i1, q.i2, q.i3}
      ensures CellValue(a, b, u, li, i, j) == CellValue(b, a, u, li, j, i)
    {
      CellValueIsSymmetric(a, b, u, li, i, j);
    }
    CombineBothWays(r, q,
      CellValue(a, b, u, li, r.i0, q.i0), CellValue(a, b, u, li, r.i0, q.i1), CellValue(a, b, u, li, r.i0,
                                                                                        q.i2), CellValue(a, b, u, li,
                                                                                                         r.i0, q.i3),
      CellValue(a, b, u, li, r.i1, q.i0), CellValue(a, b, u, li, r.i1, q.i1), CellValue(a, b, u, li, r.i1,
                                                                                        q.i2), CellValue(a, b, u, li,
                                                                                                         r.i1, q.i3),
      CellValue(a, b, u, li, r.i2, q.i0), CellValue(a, b, u, li, r.i2, q.i1), CellValue(a, b, u, li, r.i2,
                                                                                        q.i2), CellValue(a, b, u, li,
                                                                                                         r.i2, q.i3),
      CellValue(a, b, u, li, r.i3, q.i0), CellValue(a, b, u, li, r.i3, q.i1), CellValue(a, b, u, li, r.i3,
                                                                                        q.i2), CellValue(a, b, u, li,
                                                                                                         r.i3, q.i3));
  }
}
