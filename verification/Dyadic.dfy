/** Powers of two and the dyadic structure of one-dimensional grid indices.

    A point of a grid with 2^lmax intervals has level lmax - ctz(index): the number of trailing
    zero bits decides which hierarchical level the point belongs to.  All facts below are proved by
    halving, so that no reasoning about variable moduli is needed. */
module Dyadic {

  function Pow2(k: nat): (p: int)
    ensures p >= 1
  {
    if k == 0 then 1 else 2 * Pow2(k - 1)
  }

  /** x is a multiple of 2^k. */
  predicate Mult(k: nat, x: int) {
    k == 0 || (x % 2 == 0 && Mult(k - 1, x / 2))
  }

  /** x is an odd multiple of 2^k. */
  predicate OddMult(k: nat, x: int) {
    if k == 0 then x % 2 == 1 else x % 2 == 0 && OddMult(k - 1, x / 2)
  }

  /** Number of trailing zero bits, the compiler builtin used by getLevel. */
  function Ctz(x: int): nat
    requires x != 0
    decreases if x < 0 then -x else x
  {
    if x % 2 == 1 then 0 else 1 + Ctz(x / 2)
  }

  lemma {:induction false} Pow2Monotone(a: nat, b: nat)
    requires a <= b
    ensures Pow2(a) <= Pow2(b)
    ensures a < b ==> 2 * Pow2(a) <= Pow2(b)
  {
    if a < b {
      Pow2Monotone(a, b - 1);
    }
  }

  lemma {:induction false} Pow2Sum(a: nat, b: nat)
    ensures Pow2(a + b) == Pow2(a) * Pow2(b)
  {
    if a > 0 {
      Pow2Sum(a - 1, b);
    }
  }

  lemma {:induction false} CtzIsOddMult(x: int, k: nat)
    ensures (x != 0 && Ctz(x) == k) <==> OddMult(k, x)
    decreases k
  {
    if k > 0 && x % 2 == 0 {
      CtzIsOddMult(x / 2, k - 1);
    }
  }

  lemma {:induction false} MultPow2(k: nat, r: nat)
    ensures k <= r ==> Mult(k, Pow2(r)) && Mult(k, -Pow2(r))
    ensures OddMult(r, Pow2(r)) && OddMult(r, -Pow2(r))
    decreases r
  {
    if r > 0 && k > 0 {
      MultPow2(k - 1, r - 1);
    } else if r > 0 {
      MultPow2(0, r - 1);
    }
    if r > 0 {
      assert -Pow2(r) / 2 == -Pow2(r - 1);
    }
  }

  lemma {:induction false} MultZero(k: nat)
    ensures Mult(k, 0) && !OddMult(k, 0)
  {
    if k > 0 {
      MultZero(k - 1);
    }
  }

  lemma {:induction false} MultClosed(k: nat, x: int, y: int)
    requires Mult(k, x) && Mult(k, y)
    ensures Mult(k, x + y) && Mult(k, x - y) && Mult(k, -x)
  {
    if k > 0 {
      MultClosed(k - 1, x / 2, y / 2);
      assert (x + y) / 2 == x / 2 + y / 2 && (x - y) / 2 == x / 2 - y / 2 && (-x) / 2 == -(x / 2);
    }
  }

  /** Every multiple of 2^k is an odd multiple of 2^k or a multiple of 2^(k+1), never both. */
  lemma {:induction false} MultSplit(k: nat, x: int)
    ensures Mult(k, x) <==> (OddMult(k, x) || Mult(k + 1, x))
    ensures !(OddMult(k, x) && Mult(k + 1, x))
  {
    if k > 0 && x % 2 == 0 {
      MultSplit(k - 1, x / 2);
    }
  }

  lemma {:induction false} MultWeaken(j: nat, k: nat, x: int)
    requires j <= k
    ensures Mult(k, x) ==> Mult(j, x)
    ensures OddMult(k, x) ==> Mult(j, x)
    ensures j < k && OddMult(k, x) ==> !OddMult(j, x)
  {
    if j > 0 && x % 2 == 0 {
      MultWeaken(j - 1, k - 1, x / 2);
    } else if k > 0 && j == 0 {
    }
  }

  /** Stepping by 2^k from a coarser point lands on level k; stepping by 2^k from level k lands on
      a strictly coarser point. */
  lemma {:induction false} Neighbours(k: nat, x: int)
    ensures Mult(k + 1, x) ==> OddMult(k, x - Pow2(k)) && OddMult(k, x + Pow2(k))
    ensures OddMult(k, x) ==> Mult(k + 1, x - Pow2(k)) && Mult(k + 1, x + Pow2(k))
  {
    if k > 0 && x % 2 == 0 {
      Neighbours(k - 1, x / 2);
      assert (x - Pow2(k)) / 2 == x / 2 - Pow2(k - 1);
      assert (x + Pow2(k)) / 2 == x / 2 + Pow2(k - 1);
    }
  }

  /** A multiple of 2^k strictly inside the open interval of radius 2^r around a multiple of 2^r
      stays at least 2^k away from the ends of that interval. */
  lemma {:induction false} SupportGap(k: nat, z: int, r: nat, y: int)
    requires Mult(k, z) && Mult(r, y)
    requires z != y && -Pow2(r) < z - y < Pow2(r)
    ensures k < r && -Pow2(r) + Pow2(k) <= z - y <= Pow2(r) - Pow2(k)
  {
    if k > 0 {
      if r > 0 {
        assert z - y == 2 * (z / 2 - y / 2);
        SupportGap(k - 1, z / 2, r - 1, y / 2);
      }
    }
  }

  /** Multiples of 2^k have spacing 2^k. */
  lemma {:induction false} Spacing(k: nat, x: int, y: int)
    requires Mult(k, x) && x < y < x + Pow2(k)
    ensures !Mult(k, y)
  {
    if k > 0 && y % 2 == 0 {
      Spacing(k - 1, x / 2, y / 2);
    }
  }

  /** Odd multiples of 2^k have spacing 2^(k+1). */
  lemma {:induction false} OddSpacing(k: nat, x: int, y: int)
    requires OddMult(k, x) && x < y < x + Pow2(k + 1)
    ensures !OddMult(k, y)
  {
    if k > 0 && y % 2 == 0 {
      OddSpacing(k - 1, x / 2, y / 2);
    }
  }

  lemma {:induction false} OddNext(k: nat, x: int)
    requires OddMult(k, x)
    ensures OddMult(k, x + Pow2(k + 1))
  {
    Neighbours(k, x);
    Neighbours(k, x + Pow2(k));
  }
}
