/** Axes of a grid that is stored flat, first dimension fastest.  Moving a point along one axis does
    not change its coordinates on the others. */
module GridAxes {
  import opened Arithmetic

  /** An axis with count points that lie stride entries apart. */
  datatype Axis = Axis(stride: int, count: int) {

    predicate Valid() {
      stride > 0 && count > 0
    }

    function Coordinate(li: int): int
      requires Valid()
    {
      (li / stride) % count
    }

    /** The cell with coordinate i on the same line as li. */
    function Move(li: int, i: int): int
      requires Valid()
    {
      li + (i - Coordinate(li)) * stride
    }

    /** The axis belongs to a grid of the given size. */
    ghost predicate Divides(size: int) {
      Valid() && exists rest :: 0 <= rest && size == stride * (count * rest)
    }

    lemma Decompose(li: int)
      requires Valid()
      ensures var h := (li / stride) / count;
              0 <= Coordinate(li) < count && 0 <= li % stride < stride
              && forall i :: Move(li, i) == stride * (count * h + i) + li % stride
    {
      var q := li / stride;
      DivModSplit(stride, li);
      DivModSplit(count, q);
      forall i
        ensures Move(li, i) == stride * (count * (q / count) + i) + li % stride
      {
        assert stride * (count * (q / count) + i) == stride * (q + (i - q % count))
               == stride * q + stride * (i - q % count);
      }
    }

    lemma MoveIsExact(li: int, i: int, size: int)
      requires Divides(size) && 0 <= li < size && 0 <= i < count
      ensures 0 <= Move(li, i) < size && Coordinate(Move(li, i)) == i
      ensures forall j :: Move(Move(li, i), j) == Move(li, j)
      ensures 0 <= Coordinate(li) < count && Move(li, Coordinate(li)) == li
    {
      var rest :| 0 <= rest && size == stride * (count * rest);
      var q := li / stride;
      var h := q / count;
      Decompose(li);
      DivBound(stride, count * rest, li);
      DivBound(count, rest, q);
      TwoDigits(count, rest, h, i);
      TwoDigits(stride, count * rest, count * h + i, li % stride);
      DivModOf(stride, count * h + i, li % stride);
      DivModOf(count, h, i);
      Decompose(Move(li, i));
    }
  }

  /** Axis b comes later in the memory order than axis a. */
  ghost predicate IsLater(a: Axis, b: Axis) {
    a.Valid() && b.Valid() && exists m :: m > 0 && b.stride == a.stride * (a.count * m)
  }

  lemma MovingEarlierKeepsLater(a: Axis, b: Axis, li: int, i: int)
    requires IsLater(a, b) && 0 <= i < a.count
    ensures b.Coordinate(a.Move(li, i)) == b.Coordinate(li)
  {
    var m :| m > 0 && b.stride == a.stride * (a.count * m);
    var q := li / a.stride;
    var h := q / a.count;
    a.Decompose(li);
    DivModOf(a.stride, a.count * h + i, li % a.stride);
    DivModOf(a.count, h, i);
    MulAtLeast(a.count, m);
    DivDiv(a.stride, a.count * m, li);
    DivDiv(a.count, m, q);
    DivDiv(a.stride, a.count * m, a.Move(li, i));
    DivDiv(a.count, m, a.Move(li, i) / a.stride);
  }

  lemma MovingLaterKeepsEarlier(a: Axis, b: Axis, li: int, j: int)
    requires IsLater(a, b)
    ensures a.Coordinate(b.Move(li, j)) == a.Coordinate(li)
  {
    var m :| m > 0 && b.stride == a.stride * (a.count * m);
    var k := j - b.Coordinate(li);
    assert k * b.stride == a.stride * (a.count * (m * k));
    ModShift(a.stride, li, a.count * (m * k));
    ModShift(a.count, li / a.stride, m * k);
  }

  ghost predicate Independent(a: Axis, b: Axis) {
    IsLater(a, b) || IsLater(b, a)
  }

  /** Moves along different axes commute and do not disturb each other's coordinate. */
  lemma MovesCommute(a: Axis, b: Axis, li: int, i: int, j: int)
    requires Independent(a, b) && 0 <= i < a.count && 0 <= j < b.count
    ensures b.Coordinate(a.Move(li, i)) == b.Coordinate(li)
    ensures a.Coordinate(b.Move(li, j)) == a.Coordinate(li)
    ensures b.Move(a.Move(li, i), j) == a.Move(b.Move(li, j), i)
  {
    if IsLater(a, b) {
      MovingEarlierKeepsLater(a, b, li, i);
      MovingLaterKeepsEarlier(a, b, li, j);
    } else {
      MovingEarlierKeepsLater(b, a, li, j);
      MovingLaterKeepsEarlier(b, a, li, i);
    }
  }
}
