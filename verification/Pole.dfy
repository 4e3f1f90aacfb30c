/** One pole of a distributed full grid: a line of grid points along one dimension, cut into
    contiguous parts that are owned by the ranks of the pole.

    boundary is the number of boundary points: 0 (none), 1 (left only, periodic), 2 (both).
    cuts[r] is the first index owned by rank r. */
module Poles {
  import opened Dyadic

  type Boundary = b: nat | b <= 2

  datatype Pole = Pole(lmax: nat, boundary: Boundary, cuts: seq<int>) {

    predicate Valid() {
      && |cuts| > 0
      && cuts[0] == 0
      && (forall q, r :: 0 <= q < r < |cuts| ==> cuts[q] < cuts[r])
      && cuts[|cuts| - 1] < Length()
    }

    function Length(): int {
      Pow2(lmax) - 1 + boundary
    }

    predicate InGrid(i: int) {
      0 <= i < Length()
    }

    function First(r: nat): int
      requires r < |cuts|
    {
      cuts[r]
    }

    function Last(r: nat): int
      requires r < |cuts|
    {
      (if r + 1 < |cuts| then cuts[r + 1] else Length()) - 1
    }

    predicate Owns(r: int, i: int) {
      0 <= r < |cuts| && First(r) <= i <= Last(r)
    }

    /** Grids without boundary points start at the point next to the boundary. */
    function Node(i: int): int {
      if boundary == 0 then i + 1 else i
    }

    function Level(i: int): int {
      if Node(i) == 0 then 0 else lmax - Ctz(Node(i))
    }

    /** lmax - Level(i), the exponent of the distance between i and its predecessors. */
    function Exp(i: int): nat {
      if Node(i) == 0 then lmax else Ctz(Node(i))
    }

    function LeftPredecessor(i: int): int {
      if Level(i) == 0 then -1 else i - Pow2(Exp(i))
    }

    function RightPredecessor(i: int): int {
      if Level(i) == 0 then -1
      else
        var rp := i + Pow2(Exp(i));
        if boundary == 1 && rp == Length() then Length()
        else if rp > Length() - 1 then -1
        else rp
    }

    /** The rank that owns index i: the last cut that is at most i. */
    function Neighbor(i: int): (r: int)
      ensures Valid() && InGrid(i) ==> Owns(r, i)
      ensures Valid() && !InGrid(i) ==> r == -1
    {
      if i < 0 || i > Length() - 1 then -1 else LowerBound(i + 1, 0) - 1
    }

    /** Position of the first cut that is not less than v, searching from position from. */
    function LowerBound(v: int, from: nat): (p: nat)
      requires from <= |cuts|
      ensures from <= p <= |cuts|
      ensures forall q :: from <= q < p ==> cuts[q] < v
      ensures p < |cuts| ==> cuts[p] >= v
      decreases |cuts| - from
    {
      if from == |cuts| || cuts[from] >= v then from else LowerBound(v, from + 1)
    }

    /** y is needed to dehierarchize x: it is a direct predecessor of x, or an ancestor of one, where
        only points of level greater than lmin have predecessors.  The virtual last point of a
        periodic pole stands for index 0. */
    predicate IsAncestor(lmin: nat, y: int, x: int)
      requires InGrid(x)
      decreases Level(x)
    {
      Level(x) > lmin
      && (PredecessorsAreCoarser(x);
          || (LeftPredecessor(x) >= 0
              && (y == LeftPredecessor(x) || IsAncestor(lmin, y, LeftPredecessor(x))))
          || (RightPredecessor(x) >= 0
              && if RightPredecessor(x) == Length() then y == 0
                 else y == RightPredecessor(x) || IsAncestor(lmin, y, RightPredecessor(x))))
    }

    /** y is needed to hierarchize x. */
    predicate IsDirectPredecessor(lmin: nat, y: int, x: int) {
      && Level(x) > lmin
      && y >= 0
      && (|| y == LeftPredecessor(x)
          || (y == RightPredecessor(x) && y != Length())
          || (RightPredecessor(x) == Length() && y == 0))
    }

    /** Half the width of the support of the basis function at i when the coarsest level is lmin. */
    function Reach(lmin: nat, i: int): int {
      if lmax <= lmin then 1 else if Exp(i) <= lmax - lmin then Pow2(Exp(i)) else Pow2(lmax - lmin)
    }

    predicate Covers(lmin: nat, y: int, x: int) {
      y != x && y - Reach(lmin, y) < x < y + Reach(lmin, y)
    }

    /** x lies in the support of the basis function at y; index 0 of a periodic pole also has the
        support of the virtual last point. */
    predicate InSupport(lmin: nat, y: int, x: int) {
      && InGrid(y)
      && (Covers(lmin, y, x) || (boundary == 1 && y == 0 && Length() - Reach(lmin, 0) < x < Length()))
    }

    lemma ExponentFacts(i: int)
      requires 0 <= Node(i) <= Pow2(lmax)
      ensures Exp(i) <= lmax && Level(i) == lmax - Exp(i)
      ensures Mult(Exp(i), Node(i))
      ensures Level(i) > 0 ==> OddMult(Exp(i), Node(i)) && 0 < Node(i) < Pow2(lmax)
    {
      var x := Node(i);
      MultZero(lmax);
      if x != 0 {
        CtzIsOddMult(x, Ctz(x));
        MultSplit(Ctz(x), x);
        if Ctz(x) > lmax {
          MultWeaken(lmax, Ctz(x), x);
          MultSplit(lmax, x);
          if x < Pow2(lmax) {
            Spacing(lmax, 0, x);
          }
        }
        MultPow2(lmax, lmax);
        CtzIsOddMult(Pow2(lmax), lmax);
      }
    }

    lemma ExponentIsMaximal(i: int, j: nat)
      requires 0 <= Node(i) <= Pow2(lmax) && j <= lmax
      requires Mult(j, Node(i))
      ensures j <= Exp(i)
    {
      var x := Node(i);
      if x != 0 && j > Ctz(x) {
        CtzIsOddMult(x, Ctz(x));
        MultWeaken(Ctz(x) + 1, j, x);
        MultSplit(Ctz(x), x);
      }
    }

    lemma PredecessorsAreCoarser(i: int)
      requires 0 <= Node(i) <= Pow2(lmax) && Level(i) > 0
      ensures 0 <= Node(i) - Pow2(Exp(i)) && Node(i) + Pow2(Exp(i)) <= Pow2(lmax)
      ensures Mult(Exp(i) + 1, Node(i) - Pow2(Exp(i))) && Mult(Exp(i) + 1, Node(i) + Pow2(Exp(i)))
      ensures 0 <= Level(i - Pow2(Exp(i))) < Level(i) && 0 <= Level(i + Pow2(Exp(i))) < Level(i)
    {
      ExponentFacts(i);
      var k, x := Exp(i), Node(i);
      Neighbours(k, x);
      MultPow2(k, lmax);
      MultZero(k);
      if x < Pow2(k) {
        Spacing(k, 0, x);
      }
      if Pow2(lmax) < x + Pow2(k) {
        MultSplit(k, x);
        Spacing(k, x, Pow2(lmax));
      }
      ExponentFacts(i - Pow2(k));
      ExponentFacts(i + Pow2(k));
      ExponentIsMaximal(i - Pow2(k), k + 1);
      ExponentIsMaximal(i + Pow2(k), k + 1);
    }

    /** Points at distance 2^k below the exponent of i have exactly level lmax - k. */
    lemma SuccessorLevel(i: int, k: nat)
      requires 0 <= Node(i) <= Pow2(lmax) && k < Exp(i)
      ensures Level(i - Pow2(k)) == lmax - k && Level(i + Pow2(k)) == lmax - k
      ensures Exp(i - Pow2(k)) == k && Exp(i + Pow2(k)) == k
    {
      ExponentFacts(i);
      MultWeaken(k + 1, Exp(i), Node(i));
      Neighbours(k, Node(i));
      CtzIsOddMult(Node(i) - Pow2(k), k);
      CtzIsOddMult(Node(i) + Pow2(k), k);
    }
  }
}
