/** Loops that change one pole of a flat array after the other. */
module PoleLoops {
  import opened PoleSweep

  /** The array holds the given values on every pole of the dimension. */
  ghost predicate PolesHold(data: seq<real>, stride: int, size: int, values: seq<seq<real>>)
    requires stride > 0
  {
    forall n {:trigger values[n]} :: 0 <= n < |values| ==>
      |values[n]| == size && PoleHolds(data, PoleStart(stride, size, n), stride, values[n])
  }

  /** The poles before number done have their new values. */
  ghost function Mixed(before: seq<seq<real>>, after: seq<seq<real>>, done: int): (values: seq<seq<real>>)
    requires |before| == |after|
    ensures |values| == |before|
  {
    seq(|before|, n requires 0 <= n < |before| => if n < done then after[n] else before[n])
  }

  /** Changing pole number n only takes the loop to the next pole. */
  lemma NextPole(was: seq<real>, now: seq<real>, stride: int, size: int, before: seq<seq<real>>, after: seq<seq<real>>,
                 n: int)
    requires stride > 0 && |was| == |now| && |before| == |after| && 0 <= n < |after| && |after[n]| == size
    requires PolesHold(was, stride, size, Mixed(before, after, n))
    requires PoleHolds(now, PoleStart(stride, size, n), stride, after[n])
    requires OnlyPoleChanged(was, now, PoleStart(stride, size, n), stride, size)
    ensures PolesHold(now, stride, size, Mixed(before, after, n + 1))
  {
    var values := Mixed(before, after, n + 1);
    forall m | 0 <= m < |values|
      ensures |values[m]| == size && PoleHolds(now, PoleStart(stride, size, m), stride, values[m])
    {
      if m != n {
        assert Mixed(before, after, n)[m] == values[m];
        OtherPoleStays(was, now, stride, size, n, m, values[m]);
      }
    }
  }

  lemma PoleBefore(data: seq<real>, stride: int, size: int, before: seq<seq<real>>, after: seq<seq<real>>, n: int)
    requires stride > 0 && |before| == |after| && 0 <= n < |before|
             && PolesHold(data, stride, size, Mixed(before, after, n))
    ensures |before[n]| == size && PoleHolds(data, PoleStart(stride, size, n), stride, before[n])
  {
    assert Mixed(before, after, n)[n] == before[n];
  }

  lemma MixedEnds(before: seq<seq<real>>, after: seq<seq<real>>)
    requires |before| == |after|
    ensures Mixed(before, after, 0) == before && Mixed(before, after, |before|) == after
  {
  }

  /** Where the quotient and the remainder of the pole number put its first cell. */
  lemma StartOfPole(stride: int, size: int, n: int, jump: int)
    requires stride > 0 && jump == stride * size
    ensures (n / stride) * jump + n % stride == PoleStart(stride, size, n)
  {
    assert (n / stride) * (stride * size) == stride * (size * (n / stride));
  }
}
