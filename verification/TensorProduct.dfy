/** The transform of a whole grid in closed form: a sum over all cells of products of one-dimensional weights.  In the
    hat basis the weights are hat functions, so that the surpluses interpolate the grid. */
module TensorProduct {
  import opened Dyadic
  import opened Tensor
  import opened GridAxes
  import opened GridSweep
  import opened GridTransform
  import opened LocalTransform
  import opened DistributedGrid
  import opened LinearTransforms

  /** The pole with value one in stored cell c; cell 0 of a one-sided pole is its last point, too. */
  function PoleUnit(d: Dim, c: int): (w: seq<real>)
    ensures |w| == Pow2(d.lmax) + 1
  {
    var n := Pow2(d.lmax);
    Plus(Unit(n + 1, d.Point(c)), if d.boundary == 1 && c == 0 then 1.0 else 0.0, Unit(n + 1, n))
  }

  /** What the transform along one dimension makes at point x of a one in cell c. */
  ghost function Weight(d: Dim, forward: bool, c: int, x: int): real
    requires d.lmin <= d.lmax && 0 <= x <= Pow2(d.lmax)
  {
    if !d.active then if d.Point(c) == x then 1.0 else 0.0
    else Transformed(d.lmax, d.lmin, TransformOf(d, forward), PoleUnit(d, c))[x]
  }

  /** The product of the weights of the first k dimensions, from cell c to cell g. */
  ghost function Factor(dims: seq<Dim>, forward: bool, k: nat, c: int, g: int, size: int): real
    requires IsGrid(dims, size) && k <= |dims| && 0 <= g < size
  {
    if k == 0 then 1.0
    else
      var d := dims[k - 1];
      d.axis.MoveIsExact(g, 0, size);
      Factor(dims, forward, k - 1, c, g, size) * Weight(d, forward, d.axis.Coordinate(c), d.PointOf(g))
  }

  /** Cell g with the coordinates of cell c in the first k dimensions. */
  ghost function Moved(dims: seq<Dim>, k: nat, g: int, c: int, size: int): (h: int)
    requires IsGrid(dims, size) && k <= |dims| && 0 <= g < size && 0 <= c < size
    ensures 0 <= h < size
  {
    if k == 0 then g
    else
      var a := dims[k - 1].axis;
      a.MoveIsExact(c, 0, size);
      a.MoveIsExact(g, a.Coordinate(c), size);
      Moved(dims, k - 1, a.Move(g, a.Coordinate(c)), c, size)
  }

  lemma DimsAreIndependent(dims: seq<Dim>, i: nat, j: nat, size: int)
    requires IsGrid(dims, size) && i < |dims| && j < |dims| && i != j
    ensures Independent(dims[i].axis, dims[j].axis) && dims[i].Valid(size) && dims[j].Valid(size)
  {
  }

  /** Coordinates in later dimensions are kept. */
  lemma {:induction false} MovedKeepsLater(dims: seq<Dim>, k: nat, e: nat, g: int, c: int, size: int)
    requires IsGrid(dims, size) && k <= e < |dims| && 0 <= g < size && 0 <= c < size
    ensures dims[e].axis.Valid()
    ensures dims[e].axis.Coordinate(Moved(dims, k, g, c, size)) == dims[e].axis.Coordinate(g)
  {
    hide Axis.Move, Axis.Coordinate, IsGrid, Independent;
    if k > 0 {
      var a := dims[k - 1].axis;
      DimsAreIndependent(dims, k - 1, e, size);
      a.MoveIsExact(c, 0, size);
      a.MoveIsExact(g, a.Coordinate(c), size);
      MovesCommute(a, dims[e].axis, g, a.Coordinate(c), 0);
      MovedKeepsLater(dims, k - 1, e, a.Move(g, a.Coordinate(c)), c, size);
    } else {
      DimIsValid(dims, e, size);
    }
  }

  lemma DimIsValid(dims: seq<Dim>, e: nat, size: int)
    requires IsGrid(dims, size) && e < |dims|
    ensures dims[e].Valid(size) && dims[e].axis.Valid()
  {
  }

  /** The factor does not depend on coordinates of later dimensions. */
  lemma {:induction false} FactorOfMoved(dims: seq<Dim>, forward: bool, k: nat, e: nat, c: int, g: int, i: int,
                                         size: int)
    requires IsGrid(dims, size) && k <= e < |dims| && 0 <= g < size && 0 <= i < dims[e].axis.count
    ensures dims[e].axis.Valid() && 0 <= dims[e].axis.Move(g, i) < size
    ensures Factor(dims, forward, k, c, dims[e].axis.Move(g, i), size) == Factor(dims, forward, k, c, g, size)
  {
    hide Axis.Move, Axis.Coordinate, IsGrid, Weight, Independent;
    var b := dims[e].axis;
    DimIsValid(dims, e, size);
    b.MoveIsExact(g, i, size);
    if k > 0 {
      var a := dims[k - 1].axis;
      DimsAreIndependent(dims, k - 1, e, size);
      a.MoveIsExact(g, 0, size);
      MovesCommute(a, b, g, 0, i);
      FactorOfMoved(dims, forward, k - 1, e, c, g, i, size);
    }
  }

  lemma KernelOfMultiple(d: Dim, forward: bool, c: real, e: seq<real>, x: int)
    requires d.active && d.lmin <= d.lmax && |e| == Pow2(d.lmax) + 1 && 0 <= x < |e|
    ensures Transformed(d.lmax, d.lmin, TransformOf(d, forward), Plus(Zeros(|e|), c, e))[x]
            == c * Transformed(d.lmax, d.lmin, TransformOf(d, forward), e)[x]
  {
    hide *;
    var z := Zeros(|e|);
    StepsTransform(d, forward, e);
    StepsTransform(d, forward, Plus(z, c, e));
    RunOfMultiple(d.lmax, StepsOf(d, forward), c, e);
    MultipleAt(c, Run(d.lmax, StepsOf(d, forward), e), x);
  }

  lemma MultipleAt(c: real, e: seq<real>, x: int)
    requires 0 <= x < |e|
    ensures Plus(Zeros(|e|), c, e)[x] == c * e[x]
  {
  }

  /** A pole with a single value a in cell c. */
  lemma SingleCellPole(d: Dim, w: seq<real>, g: int, c: int, a: real)
    requires d.Valid(|w|) && 0 <= g < |w| && 0 <= c < d.axis.count
    requires forall i :: 0 <= i < d.axis.count ==>
               0 <= d.axis.Move(g, i) < |w| && w[d.axis.Move(g, i)] == if i == c then a else 0.0
    ensures PoleAt(d, w, g) == Plus(Zeros(Pow2(d.lmax) + 1), a, PoleUnit(d, c))
  {
    var v, u := PoleAt(d, w, g), PoleUnit(d, c);
    forall i | 0 <= i <= Pow2(d.lmax)
      ensures v[i] == Plus(Zeros(|u|), a, u)[i]
    {
      hide Axis.Move, Axis.Coordinate, Pow2;
      MultipleAt(a, u, i);
      PoleUnitAt(d, c, i);
      if d.IsStored(i) {
        d.WrapIsCell(i, |w|);
      }
    }
  }

  lemma PoleUnitAt(d: Dim, c: int, i: int)
    requires d.boundary <= 2 && d.axis.count == Pow2(d.lmax) - 1 + d.boundary && 0 <= c < d.axis.count
             && 0 <= i <= Pow2(d.lmax)
    ensures PoleUnit(d, c)[i] == if d.IsStored(i) && d.Wrap(i) == c then 1.0 else 0.0
  {
  }

  /** The values along dimension k after the first k dimensions of a single one in cell c are swept. */
  ghost predicate IsUnitSwept(dims: seq<Dim>, forward: bool, k: nat, c: int, w: seq<real>) {
    && IsGrid(dims, |w|) && k <= |dims| && 0 <= c < |w|
    && forall g {:trigger w[g]} :: 0 <= g < |w| ==>
         w[g] == if Moved(dims, k, g, c, |w|) == c then Factor(dims, forward, k, c, g, |w|) else 0.0
  }

  lemma UnitAlongPole(dims: seq<Dim>, forward: bool, k: nat, c: int, w: seq<real>, g: int, i: int)
    requires IsUnitSwept(dims, forward, k, c, w) && k < |dims| && 0 <= g < |w| && 0 <= i < dims[k].axis.count
    ensures 0 <= c < |w| && dims[k].axis.Valid() && 0 <= dims[k].axis.Coordinate(c) < dims[k].axis.count
    ensures var a := dims[k].axis; 0 <= a.Move(g, i) < |w| && 0 <= a.Move(g, a.Coordinate(c)) < |w|
    ensures var a := dims[k].axis;
            w[a.Move(g, i)] == if i == a.Coordinate(c) then w[a.Move(g, a.Coordinate(c))] else 0.0
    ensures var a := dims[k].axis;
            w[a.Move(g, a.Coordinate(c))]
            == if Moved(dims, k + 1, g, c, |w|) == c then Factor(dims, forward, k, c, g, |w|) else 0.0
  {
    hide Axis.Move, Axis.Coordinate, IsGrid, Factor;
    var a := dims[k].axis;
    DimIsValid(dims, k, |w|);
    a.MoveIsExact(c, 0, |w|);
    a.MoveIsExact(g, i, |w|);
    a.MoveIsExact(g, a.Coordinate(c), |w|);
    MovedKeepsLater(dims, k, k, a.Move(g, i), c, |w|);
    FactorOfMoved(dims, forward, k, k, c, g, a.Coordinate(c), |w|);
  }

  /** The sweep over one more dimension, for a selected dimension and for one that is left alone. */
  lemma UnitSweptActive(dims: seq<Dim>, forward: bool, k: nat, c: int, w: seq<real>, g: int)
    requires IsGrid(dims, |w|) && IsUnitSwept(dims, forward, k, c, w) && k < |dims| && 0 <= g < |w| && dims[k].active
    ensures dims[k].Valid(|w|)
    ensures AxisTransform(dims[k], forward, w)[g]
            == if Moved(dims, k + 1, g, c, |w|) == c then Factor(dims, forward, k + 1, c, g, |w|) else 0.0
  {
    hide AxisTransform, Transformed, PoleAt, Axis.Move, Axis.Coordinate, TransformOf, IsGrid, IsUnitSwept, Moved,
         PoleUnit, Plus, Zeros;
    var d, a := dims[k], dims[k].axis;
    DimIsValid(dims, k, |w|);
    a.MoveIsExact(g, 0, |w|);
    var i0 := a.Coordinate(c);
    UnitAlongPole(dims, forward, k, c, w, g, 0);
    var alpha, x := w[a.Move(g, i0)], d.PointOf(g);
    forall i | 0 <= i < a.count
      ensures 0 <= a.Move(g, i) < |w| && w[a.Move(g, i)] == if i == i0 then alpha else 0.0
    {
      UnitAlongPole(dims, forward, k, c, w, g, i);
    }
    SingleCellPole(d, w, g, i0, alpha);
    AxisTransformsPoles(d, forward, w, g);
    OwnValue(d, AxisTransform(d, forward, w), g);
    KernelOfMultiple(d, forward, alpha, PoleUnit(d, i0), x);
  }

  lemma UnitSweptInactive(dims: seq<Dim>, forward: bool, k: nat, c: int, w: seq<real>, g: int)
    requires IsUnitSwept(dims, forward, k, c, w) && k < |dims| && 0 <= g < |w| && !dims[k].active
    ensures dims[k].Valid(|w|)
    ensures AxisTransform(dims[k], forward, w)[g]
            == if Moved(dims, k + 1, g, c, |w|) == c then Factor(dims, forward, k + 1, c, g, |w|) else 0.0
  {
    hide AxisTransform, Axis.Move, Axis.Coordinate, IsGrid;
    var a := dims[k].axis;
    DimIsValid(dims, k, |w|);
    a.MoveIsExact(g, 0, |w|);
    UnitAlongPole(dims, forward, k, c, w, g, a.Coordinate(g));
    InactiveStays(dims[k], forward, w);
    MovedKeepsLater(dims, k, k, g, c, |w|);
  }

  /** A single one in cell c, swept: the product of the weights, in all cells that differ from c in swept dimensions
      only. */
  lemma {:induction false} UnitSwept(dims: seq<Dim>, forward: bool, k: nat, c: int, size: nat)
    requires IsGrid(dims, size) && k <= |dims| && 0 <= c < size
    ensures IsUnitSwept(dims, forward, k, c, Swept(dims, forward, 0, k, Unit(size, c)))
  {
    hide AxisTransform, IsGrid;
    if k > 0 {
      UnitSwept(dims, forward, k - 1, c, size);
      var v, w := Swept(dims, forward, 0, k - 1, Unit(size, c)), Swept(dims, forward, 0, k, Unit(size, c));
      LastSweep(dims, forward, 0, k, Unit(size, c));
      forall g | 0 <= g < size
        ensures w[g] == if Moved(dims, k, g, c, size) == c then Factor(dims, forward, k, c, g, size) else 0.0
      {
        if dims[k - 1].active {
          UnitSweptActive(dims, forward, k - 1, c, v, g);
        } else {
          UnitSweptInactive(dims, forward, k - 1, c, v, g);
        }
      }
    }
  }

  /** The grid fills the whole box. */
  ghost predicate IsBox(global: Index, dims: seq<Dim>, size: int) {
    && Positive(global) && |dims| == |global| && size == Stride(global, |global|) && IsGrid(dims, size)
    && forall d :: 0 <= d < |dims| ==> dims[d].axis == BoxAxis(global, d)
  }

  /** In a box every cell is reached from every other by moves along the dimensions. */
  lemma {:induction false} AllIsReached(global: Index, dims: seq<Dim>, k: nat, g: int, c: int, size: int)
    requires IsBox(global, dims, size) && k <= |dims| && 0 <= g < size && 0 <= c < size
    ensures Vector(global, Moved(dims, k, g, c, size), |global|)
            == Vector(global, c, |global|)[..k] + Vector(global, g, |global|)[k..]
    decreases k
  {
    hide Vector, Linear, Stride, Axis.Move, Axis.Coordinate, IsGrid;
    var n := |global|;
    IndexBijection(global, [], g);
    if k > 0 {
      var a, v, w := dims[k - 1].axis, Vector(global, g, n), Vector(global, c, n);
      DimIsValid(dims, k - 1, size);
      a.MoveIsExact(c, 0, size);
      a.MoveIsExact(g, a.Coordinate(c), size);
      MoveChangesDigit(global, g, k - 1, a.Coordinate(c));
      MoveChangesDigit(global, c, k - 1, a.Coordinate(c));
      var h := a.Move(g, a.Coordinate(c));
      IndexBijection(global, v[k - 1 := w[k - 1]], h);
      AllIsReached(global, dims, k - 1, h, c, size);
    }
  }

  lemma MovedToCell(global: Index, dims: seq<Dim>, g: int, c: int, size: int)
    requires IsBox(global, dims, size) && 0 <= g < size && 0 <= c < size
    ensures Moved(dims, |dims|, g, c, size) == c
  {
    var n := |global|;
    AllIsReached(global, dims, n, g, c, size);
    IndexBijection(global, [], c);
    IndexBijection(global, [], Moved(dims, n, g, c, size));
    assert Vector(global, c, n)[..n] + Vector(global, g, n)[n..] == Vector(global, c, n);
  }

  /** The first m cells, each with its value times the product of its weights. */
  ghost function Superposed(dims: seq<Dim>, forward: bool, u: seq<real>, m: nat, g: int): real
    requires IsGrid(dims, |u|) && m <= |u| && 0 <= g < |u|
  {
    if m == 0 then 0.0
    else Superposed(dims, forward, u, m - 1, g) + u[m - 1] * Factor(dims, forward, |dims|, m - 1, g, |u|)
  }

  /** The first m cells of u, zero elsewhere. */
  function FirstCells(u: seq<real>, m: nat): (v: seq<real>)
    ensures |v| == |u|
  {
    seq(|u|, c requires 0 <= c < |u| => if c < m then u[c] else 0.0)
  }

  lemma NextCell(u: seq<real>, m: nat)
    requires 0 < m <= |u|
    ensures FirstCells(u, m) == Plus(FirstCells(u, m - 1), u[m - 1], Unit(|u|, m - 1))
  {
  }

  lemma SweptZeros(dims: seq<Dim>, forward: bool, size: nat)
    requires IsGrid(dims, size)
    ensures Swept(dims, forward, 0, |dims|, Zeros(size)) == Zeros(size)
  {
    hide Swept, IsGrid;
    var z := Zeros(size);
    SweptIsLinear(dims, forward, |dims|, z, 1.0, z);
    assert Plus(z, 1.0, z) == z;
    PlusOfZeros(size, 1.0, Swept(dims, forward, 0, |dims|, z));
  }

  lemma {:induction false} SweptFirstCells(global: Index, dims: seq<Dim>, forward: bool, u: seq<real>, m: nat, g: int)
    requires IsBox(global, dims, |u|) && m <= |u| && 0 <= g < |u|
    ensures Swept(dims, forward, 0, |dims|, FirstCells(u, m))[g] == Superposed(dims, forward, u, m, g)
  {
    hide Swept, IsGrid, Factor, Moved, FirstCells, Unit, Plus;
    var n := |dims|;
    if m > 0 {
      var e := Unit(|u|, m - 1);
      SweptFirstCells(global, dims, forward, u, m - 1, g);
      NextCell(u, m);
      SweptIsLinear(dims, forward, n, FirstCells(u, m - 1), u[m - 1], e);
      PlusAt(Swept(dims, forward, 0, n, FirstCells(u, m - 1)), u[m - 1], Swept(dims, forward, 0, n, e), g);
      UnitSwept(dims, forward, n, m - 1, |u|);
      MovedToCell(global, dims, g, m - 1, |u|);
    } else {
      NoCells(u);
      SweptZeros(dims, forward, |u|);
    }
  }

  lemma NoCells(u: seq<real>)
    ensures FirstCells(u, 0) == Zeros(|u|) && FirstCells(u, |u|) == u
  {
  }

  /** The sweeps over all dimensions, for every basis and in both directions: every cell gets the sum over all cells of
      the old value times the product of one weight per dimension. */
  lemma SweepIsProduct(global: Index, dims: seq<Dim>, forward: bool, u: seq<real>, g: int)
    requires IsBox(global, dims, |u|) && 0 <= g < |u|
    ensures Swept(dims, forward, 0, |dims|, u)[g] == Superposed(dims, forward, u, |u|, g)
  {
    hide *;
    SweptFirstCells(global, dims, forward, u, |u|, g);
    NoCells(u);
  }
}
