/** Column-major indexing of a d-dimensional box: the map between vector indices and linear indices. */
module Tensor {
  import opened Arithmetic

  type Index = seq<int>

  /** Product of the first k extents, the distance between neighbours in dimension k. */
  function Stride(extents: Index, k: nat): int
    requires k <= |extents|
  {
    if k == 0 then 1 else Stride(extents, k - 1) * extents[k - 1]
  }

  predicate InBox(extents: Index, v: Index) {
    |v| == |extents| && forall j :: 0 <= j < |v| ==> 0 <= v[j] < extents[j]
  }

  predicate Positive(extents: Index) {
    forall j :: 0 <= j < |extents| ==> extents[j] > 0
  }

  /** The linear index of the first k coordinates. */
  function Linear(extents: Index, v: Index, k: nat): int
    requires k <= |extents| && k <= |v|
  {
    if k == 0 then 0 else Linear(extents, v, k - 1) + v[k - 1] * Stride(extents, k - 1)
  }

  lemma {:induction false} StridePositive(extents: Index, k: nat)
    requires k <= |extents| && Positive(extents)
    ensures Stride(extents, k) > 0
  {
    if k > 0 {
      StridePositive(extents, k - 1);
      MulAtLeast(Stride(extents, k - 1), extents[k - 1]);
    }
  }

  lemma {:induction false} LinearInRange(extents: Index, v: Index, k: nat)
    requires k <= |extents| && Positive(extents) && InBox(extents, v)
    ensures 0 <= Linear(extents, v, k) < Stride(extents, k)
  {
    if k > 0 {
      LinearInRange(extents, v, k - 1);
      TwoDigits(Stride(extents, k - 1), extents[k - 1], v[k - 1], Linear(extents, v, k - 1));
    }
  }

  /** Coordinate j of a linear index is read off by one division and one remainder. */
  function Digit(extents: Index, index: int, j: nat): int
    requires j < |extents| && Positive(extents)
  {
    StridePositive(extents, j);
    (index / Stride(extents, j)) % extents[j]
  }

  /** Every coordinate of a vector index can be read off its linear index. */
  lemma {:induction false} DigitOfLinear(extents: Index, v: Index, k: nat, j: nat)
    requires j < k <= |extents| && Positive(extents) && InBox(extents, v)
    ensures Digit(extents, Linear(extents, v, k), j) == v[j]
  {
    StridePositive(extents, j);
    LinearInRange(extents, v, k - 1);
    if j == k - 1 {
      TopDigit(Stride(extents, j), extents[j], Linear(extents, v, j), v[j]);
    } else {
      DigitOfLinear(extents, v, k - 1, j);
      var m := StrideFactor(extents, j, k - 1);
      HigherDigits(Stride(extents, j), extents[j], m, Linear(extents, v, k - 1), v[k - 1]);
    }
  }

  lemma LastDigit(a: int, low: int, c: int)
    requires 0 <= low < a
    ensures (low + c * a) / a == c && (low + c * a) % a == low
  {
    assert low + c * a == a * c + low;
    DivModOf(a, c, low);
  }

  lemma TopDigit(a: int, e: int, low: int, c: int)
    requires 0 <= low < a && 0 <= c < e
    ensures ((low + c * a) / a) % e == c
  {
    LastDigit(a, low, c);
    DivModOf(e, 0, c);
  }

  /** Adding a multiple of a * e * m changes neither the digit of base e at stride a nor lower ones. */
  lemma HigherDigits(a: int, e: int, m: int, low: int, c: int)
    requires a > 0 && e > 0
    ensures ((low + c * (a * (e * m))) / a) % e == (low / a) % e
  {
    assert c * (a * (e * m)) == a * (e * (m * c));
    ModShift(a, low, e * (m * c));
    ModShift(e, low / a, m * c);
  }

  /** Later strides are multiples of earlier strides times the extent in between. */
  lemma {:induction false} StrideFactor(extents: Index, j: nat, k: nat) returns (m: int)
    requires j < k <= |extents| && Positive(extents)
    ensures m > 0 && Stride(extents, k) == Stride(extents, j) * (extents[j] * m)
    decreases k
  {
    if k == j + 1 {
      m := 1;
    } else {
      var m' := StrideFactor(extents, j, k - 1);
      m := m' * extents[k - 1];
      MulAtLeast(m', extents[k - 1]);
      assert Stride(extents, j) * (extents[j] * m') * extents[k - 1]
             == Stride(extents, j) * (extents[j] * (m' * extents[k - 1]));
    }
  }

  /** The vector index, peeled off from the last dimension down to the first. */
  function Vector(extents: Index, index: int, k: nat): (v: Index)
    requires k <= |extents| && Positive(extents)
    ensures |v| == k
    decreases k
  {
    if k == 0 then []
    else
      StridePositive(extents, k - 1);
      Vector(extents, index % Stride(extents, k - 1), k - 1) + [index / Stride(extents, k - 1)]
  }

  /** Peeling off the quotients inverts the linear index, in both directions. */
  lemma {:induction false} LinearOfVector(extents: Index, index: int, k: nat)
    requires k <= |extents| && Positive(extents) && 0 <= index < Stride(extents, k)
    ensures InBox(extents[..k], Vector(extents, index, k))
    ensures Linear(extents, Vector(extents, index, k), k) == index
    decreases k
  {
    if k > 0 {
      var s := Stride(extents, k - 1);
      StridePositive(extents, k - 1);
      DivModSplit(s, index);
      DivBound(s, extents[k - 1], index);
      LinearOfVector(extents, index % s, k - 1);
      PrefixOnly(extents, Vector(extents, index % s, k - 1), Vector(extents, index, k), k - 1);
    }
  }

  lemma {:induction false} PrefixOnly(extents: Index, v: Index, w: Index, k: nat)
    requires k <= |extents| && k <= |v| && k <= |w| && v[..k] == w[..k]
    ensures Linear(extents, v, k) == Linear(extents, w, k)
  {
    if k > 0 {
      assert v[..k - 1] == v[..k][..k - 1] == w[..k][..k - 1] == w[..k - 1];
      assert v[k - 1] == v[..k][k - 1] == w[..k][k - 1];
      PrefixOnly(extents, v, w, k - 1);
    }
  }

  /** The two conversions are inverse to each other on the whole box. */
  lemma IndexBijection(extents: Index, v: Index, index: int)
    requires Positive(extents)
    ensures InBox(extents, v) ==> 0 <= Linear(extents, v, |extents|) < Stride(extents, |extents|)
                                  && Vector(extents, Linear(extents, v, |extents|), |extents|) == v
    ensures 0 <= index < Stride(extents, |extents|) ==>
              InBox(extents, Vector(extents, index, |extents|))
              && Linear(extents, Vector(extents, index, |extents|), |extents|) == index
  {
    var n := |extents|;
    assert extents[..n] == extents;
    if InBox(extents, v) {
      LinearInRange(extents, v, n);
      VectorOfLinear(extents, v, n);
      assert v[..n] == v;
    }
    if 0 <= index < Stride(extents, n) {
      LinearOfVector(extents, index, n);
    }
  }

  /** Later coordinates dominate: where two points of the box differ last, the smaller coordinate has the smaller linear
      index. */
  lemma {:induction false} LastDifferenceDecides(extents: Index, v: Index, w: Index, j: nat, k: nat)
    requires j < k <= |extents| && Positive(extents) && InBox(extents, v) && InBox(extents, w)
    requires v[j] < w[j] && forall i :: j < i < k ==> v[i] == w[i]
    ensures Linear(extents, v, k) < Linear(extents, w, k)
  {
    if j == k - 1 {
      var s := Stride(extents, j);
      LinearInRange(extents, v, j);
      LinearInRange(extents, w, j);
      StridePositive(extents, j);
      MulOrder(s, v[j] + 1, w[j]);
      assert (v[j] + 1) * s == v[j] * s + s;
    } else {
      LastDifferenceDecides(extents, v, w, j, k - 1);
    }
  }

  lemma {:induction false} VectorOfLinear(extents: Index, v: Index, k: nat)
    requires k <= |extents| && Positive(extents) && InBox(extents, v)
    ensures Vector(extents, Linear(extents, v, k), k) == v[..k]
  {
    hide Positive, Stride;
    if k > 0 {
      LinearInRange(extents, v, k - 1);
      LastDigit(Stride(extents, k - 1), Linear(extents, v, k - 1), v[k - 1]);
      VectorOfLinear(extents, v, k - 1);
    }
  }

  /** The indexer object: extents and offsets are computed once. */
  class TensorIndexer {
    var extents: Index
    var localOffsets: Index

    ghost predicate Valid()
      reads this
    {
      && Positive(extents)
      && |localOffsets| == |extents|
      && forall j :: 0 <= j < |extents| ==> localOffsets[j] == Stride(extents, j)
    }

    constructor (ext: Index)
      requires Positive(ext)
      ensures Valid() && extents == ext
    {
      extents := ext;
      localOffsets := [];
      new;
      var nrElements := 1;
      var j := 0;
      while j < |ext|
        invariant 0 <= j <= |ext| == |extents| && extents == ext
        invariant nrElements == Stride(ext, j) && |localOffsets| == j
        invariant forall i :: 0 <= i < j ==> localOffsets[i] == Stride(ext, i)
      {
        localOffsets := localOffsets + [nrElements];
        nrElements := nrElements * extents[j];
        j := j + 1;
      }
    }

    /** Number of elements; an indexer without dimensions has none. */
    method Size() returns (size: int)
      requires Valid()
      ensures size == if |extents| == 0 then 0 else Stride(extents, |extents|)
    {
      if |extents| == 0 {
        return 0;
      }
      size := 1;
      for j := 0 to |extents|
        invariant size == Stride(extents, j)
      {
        size := size * extents[j];
      }
    }

    method SequentialIndex(v: Index) returns (index: int)
      requires Valid() && |v| == |extents|
      ensures index == Linear(extents, v, |extents|)
      ensures InBox(extents, v) ==> Vector(extents, index, |extents|) == v
    {
      index := 0;
      for j := 0 to |v|
        invariant index == Linear(extents, v, j)
      {
        index := index + v[j] * localOffsets[j];
      }
      IndexBijection(extents, v, 0);
    }

    method GetVectorIndex(linear: int) returns (v: Index)
      requires Valid()
      ensures v == Vector(extents, linear, |extents|)
      ensures 0 <= linear < Stride(extents, |extents|) ==> InBox(extents, v) && Linear(extents, v, |extents|) == linear
    {
      var index := linear;
      v := seq(|extents|, _ => 0);
      var j := |extents|;
      while j > 0
        invariant 0 <= j <= |extents| == |v|
        invariant Vector(extents, linear, |extents|) == Vector(extents, index, j) + v[j..]
      {
        var dim := j - 1;
        StridePositive(extents, dim);
        ghost var tail := v[j..];
        var quotient := index / localOffsets[dim];
        var remainder := index % localOffsets[dim];
        v := v[dim := quotient];
        assert v[dim..] == [quotient] + tail;
        index := remainder;
        j := dim;
      }
      IndexBijection(extents, v, linear);
    }
  }
}
