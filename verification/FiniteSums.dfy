/** Sums of a function over a finite set, whatever the order of summation. */
module FiniteSums {
  ghost function Pick<T>(s: set<T>): (x: T)
    requires s != {}
    ensures x in s
  {
    var x :| x in s;
    x
  }

  ghost function Sum<T>(s: set<T>, f: T -> real): real {
    if s == {} then 0.0 else f(Pick(s)) + Sum(s - {Pick(s)}, f)
  }

  /** Any element may be added first. */
  lemma {:induction false} SumSplit<T>(s: set<T>, f: T -> real, y: T)
    requires y in s
    ensures Sum(s, f) == f(y) + Sum(s - {y}, f)
    decreases |s|
  {
    var x := Pick(s);
    if x != y {
      SumSplit(s - {x}, f, y);
      SumSplit(s - {y}, f, x);
      assert s - {x} - {y} == s - {y} - {x};
    }
  }

  lemma {:induction false} SumEqual<T>(s: set<T>, f: T -> real, g: T -> real)
    requires forall x :: x in s ==> f(x) == g(x)
    ensures Sum(s, f) == Sum(s, g)
    decreases |s|
  {
    if s != {} {
      SumEqual(s - {Pick(s)}, f, g);
    }
  }

  lemma {:induction false} SumPlus<T>(s: set<T>, f: T -> real, g: T -> real, h: T -> real)
    requires forall x :: x in s ==> h(x) == f(x) + g(x)
    ensures Sum(s, h) == Sum(s, f) + Sum(s, g)
    decreases |s|
  {
    if s != {} {
      SumPlus(s - {Pick(s)}, f, g, h);
    }
  }

  lemma {:induction false} SumZero<T>(s: set<T>, f: T -> real)
    requires forall x :: x in s ==> f(x) == 0.0
    ensures Sum(s, f) == 0.0
    decreases |s|
  {
    if s != {} {
      SumZero(s - {Pick(s)}, f);
    }
  }

  lemma {:induction false} SumNegated<T>(s: set<T>, f: T -> real, g: T -> real)
    requires forall x :: x in s ==> g(x) == -f(x)
    ensures Sum(s, g) == -Sum(s, f)
    decreases |s|
  {
    if s != {} {
      SumNegated(s - {Pick(s)}, f, g);
    }
  }

  /** A sum with at most one non-zero term. */
  lemma SumSingle<T>(s: set<T>, f: T -> real, y: T)
    requires forall x :: x in s && x != y ==> f(x) == 0.0
    ensures Sum(s, f) == if y in s then f(y) else 0.0
  {
    if y in s {
      SumSplit(s, f, y);
      SumZero(s - {y}, f);
    } else {
      SumZero(s, f);
    }
  }

  ghost function RowSum<T, U>(t: set<U>, f: (T, U) -> real, x: T): real {
    Sum(t, y => f(x, y))
  }

  ghost function ColumnSum<T, U>(s: set<T>, f: (T, U) -> real, y: U): real {
    Sum(s, x => f(x, y))
  }

  lemma RowSumIs<T, U>(t: set<U>, f: (T, U) -> real, x: T, g: U -> real)
    requires forall y :: y in t ==> f(x, y) == g(y)
    ensures RowSum(t, f, x) == Sum(t, g)
  {
    SumEqual(t, y => f(x, y), g);
  }

  lemma ColumnSumIs<T, U>(s: set<T>, f: (T, U) -> real, y: U, g: T -> real)
    requires forall x :: x in s ==> f(x, y) == g(x)
    ensures ColumnSum(s, f, y) == Sum(s, g)
  {
    SumEqual(s, x => f(x, y), g);
  }

  /** The order of a double sum may be exchanged. */
  lemma SumSwap<T, U>(s: set<T>, t: set<U>, f: (T, U) -> real, g: T -> real, h: U -> real)
    requires forall x :: x in s ==> g(x) == RowSum(t, f, x)
    requires forall y :: y in t ==> h(y) == ColumnSum(s, f, y)
    ensures Sum(s, g) == Sum(t, h)
  {
    SumOfRows(s, t, f);
    SumEqual(s, g, x => RowSum(t, f, x));
    SumEqual(t, h, y => ColumnSum(s, f, y));
  }

  lemma {:induction false} SumOfRows<T, U>(s: set<T>, t: set<U>, f: (T, U) -> real)
    ensures Sum(s, x => RowSum(t, f, x)) == Sum(t, y => ColumnSum(s, f, y))
    decreases |s|
  {
    if s == {} {
      SumZero(t, y => ColumnSum(s, f, y));
    } else {
      var x := Pick(s);
      SumOfRows(s - {x}, t, f);
      SumPlus(t, y => f(x, y), y => ColumnSum(s - {x}, f, y), y => ColumnSum(s, f, y));
      SumEqual(s - {x}, x => RowSum(t, f, x), x => RowSum(t, f, x));
      SumEqual(t, y => f(x, y), y => f(x, y));
    }
  }

  /** If the non-zero terms come in pairs of opposite sign, the sum is zero. */
  lemma {:induction false} ZeroByPairing<T>(s: set<T>, f: T -> real, flip: T -> T)
    requires forall x :: x in s && f(x) != 0.0 ==>
               flip(x) in s && flip(x) != x && flip(flip(x)) == x && f(flip(x)) == -f(x)
    ensures Sum(s, f) == 0.0
    decreases |s|
  {
    if s != {} {
      var x := Pick(s);
      if f(x) == 0.0 {
        ZeroByPairing(s - {x}, f, flip);
      } else {
        SumSplit(s - {x}, f, flip(x));
        ZeroByPairing(s - {x} - {flip(x)}, f, flip);
      }
    }
  }

  /** Terms outside a subset that are all zero may be left out. */
  lemma {:induction false} SumOfSubset<T>(s: set<T>, t: set<T>, f: T -> real)
    requires t <= s && forall x :: x in s && x !in t ==> f(x) == 0.0
    ensures Sum(s, f) == Sum(t, f)
    decreases |s|
  {
    if s != {} {
      var x := Pick(s);
      if x in t {
        SumOfSubset(s - {x}, t - {x}, f);
        SumSplit(t, f, x);
      } else {
        SumOfSubset(s - {x}, t, f);
      }
    }
  }

  lemma {:induction false} SumOfUnion<T>(s: set<T>, t: set<T>, f: T -> real)
    requires s !! t
    ensures Sum(s + t, f) == Sum(s, f) + Sum(t, f)
    decreases |s|
  {
    if s == {} {
      assert s + t == t;
    } else {
      var x := Pick(s);
      SumSplit(s + t, f, x);
      assert s + t - {x} == (s - {x}) + t;
      SumOfUnion(s - {x}, t, f);
    }
  }

  /** Summing over the image of a set under a one-to-one function. */
  lemma {:induction false} SumOfImage<T, U>(s: set<T>, t: set<U>, h: T -> U, f: U -> real, g: T -> real)
    requires forall x :: x in s ==> h(x) in t && g(x) == f(h(x))
    requires forall y :: y in t ==> exists x :: x in s && h(x) == y
    requires forall x, y :: x in s && y in s && h(x) == h(y) ==> x == y
    ensures Sum(t, f) == Sum(s, g)
    decreases |s|
  {
    if s == {} {
      assert t == {};
    } else {
      var x := Pick(s);
      SumSplit(t, f, h(x));
      forall y | y in t - {h(x)}
        ensures exists z :: z in s - {x} && h(z) == y
      {
        var z :| z in s && h(z) == y;
        assert z in s - {x};
      }
      SumOfImage(s - {x}, t - {h(x)}, h, f, g);
    }
  }

  /** The sum over a sequence, term by term, as a loop computes it. */
  ghost function SeqSum<T>(list: seq<T>, f: T -> real): real {
    if list == [] then 0.0 else SeqSum(list[..|list| - 1], f) + f(list[|list| - 1])
  }

  predicate Distinct<T(==)>(list: seq<T>) {
    forall i, j :: 0 <= i < j < |list| ==> list[i] != list[j]
  }

  ghost function Elements<T>(list: seq<T>): set<T> {
    set x | x in list
  }

  lemma {:induction false} SeqSumIsSum<T>(list: seq<T>, f: T -> real)
    requires Distinct(list)
    ensures SeqSum(list, f) == Sum(Elements(list), f)
  {
    if list != [] {
      var front, last := list[..|list| - 1], list[|list| - 1];
      SeqSumIsSum(front, f);
      assert list == front + [last];
      assert last !in front;
      assert Elements(list) - {last} == Elements(front);
      SumSplit(Elements(list), f, last);
    }
  }
}
