/** The ancestors of a grid point are exactly the points whose basis function covers it. */
module Ancestry {
  import opened Dyadic
  import opened Poles

  ghost predicate NodeCovers(r: nat, y: int, x: int) {
    y != x && y - Pow2(r) < x < y + Pow2(r)
  }

  /** One step of the closed form: y covers x from the left exactly if y is the left predecessor of
      x, or covers that predecessor from the left. */
  lemma CoverFromLeft(k: nat, x: int, e: nat, bound: nat, r: nat, y: int)
    requires OddMult(k, x) && k < bound
    requires Mult(e, y) && (Mult(k + 1, y) ==> k + 1 <= e)
    requires r == if e <= bound then e else bound
    requires y < x
    ensures NodeCovers(r, y, x) <==> (y == x - Pow2(k) || (y < x - Pow2(k) && NodeCovers(r, y, x - Pow2(k))))
  {
    Neighbours(k, x);
    MultSplit(k, x);
    MultWeaken(r, e, y);
    if NodeCovers(r, y, x) {
      SupportGap(k, x, r, y);
      MultWeaken(k, r, y);
      if x < y + Pow2(k) {
        Spacing(k, y, x);
      }
    }
    if y == x - Pow2(k) {
      Pow2Monotone(k, r);
    } else if y < x - Pow2(k) && NodeCovers(r, y, x - Pow2(k)) {
      SupportGap(k + 1, x - Pow2(k), r, y);
    }
  }

  lemma CoverFromRight(k: nat, x: int, e: nat, bound: nat, r: nat, y: int)
    requires OddMult(k, x) && k < bound
    requires Mult(e, y) && (Mult(k + 1, y) ==> k + 1 <= e)
    requires r == if e <= bound then e else bound
    requires x < y
    ensures NodeCovers(r, y, x) <==> (y == x + Pow2(k) || (x + Pow2(k) < y && NodeCovers(r, y, x + Pow2(k))))
  {
    Neighbours(k, x);
    MultSplit(k, x);
    MultWeaken(r, e, y);
    if NodeCovers(r, y, x) {
      SupportGap(k, x, r, y);
      MultWeaken(k, r, y);
      if y < x + Pow2(k) {
        Spacing(k, x, y);
      }
    }
    if y == x + Pow2(k) {
      Pow2Monotone(k, r);
    } else if x + Pow2(k) < y && NodeCovers(r, y, x + Pow2(k)) {
      SupportGap(k + 1, x + Pow2(k), r, y);
    }
  }

  /** Whatever covers a predecessor of x covers x. */
  lemma CoverOfPredecessor(k: nat, x: int, e: nat, bound: nat, r: nat, y: int)
    requires OddMult(k, x) && k < bound
    requires Mult(e, y) && (y == x ==> e == k) && (Mult(k + 1, y) ==> k + 1 <= e)
    requires r == if e <= bound then e else bound
    ensures NodeCovers(r, y, x + Pow2(k)) ==> NodeCovers(r, y, x)
    ensures NodeCovers(r, y, x - Pow2(k)) ==> NodeCovers(r, y, x)
  {
    Neighbours(k, x);
    MultWeaken(r, e, y);
    forall z | (z == x - Pow2(k) || z == x + Pow2(k)) && NodeCovers(r, y, z)
      ensures NodeCovers(r, y, x)
    {
      SupportGap(k + 1, z, r, y);
      MultWeaken(k, r, y);
      MultSplit(k, x);
      if x - Pow2(k) < y < x {
        Spacing(k, y, x);
      } else if x < y < x + Pow2(k) {
        Spacing(k, x, y);
      }
    }
  }

  /** A point of level at most lmin is covered by nobody else. */
  lemma CoarsePointsAreUncovered(p: Pole, lmin: nat, y: int, x: int)
    requires 0 <= p.Node(x) <= Pow2(p.lmax) && p.Level(x) <= lmin
    requires 0 <= p.Node(y) <= Pow2(p.lmax)
    ensures !p.Covers(lmin, y, x)
  {
    if p.Covers(lmin, y, x) {
      p.ExponentFacts(x);
      p.ExponentFacts(y);
      var r := if p.Exp(y) <= p.lmax - lmin then p.Exp(y) else p.lmax - lmin;
      MultWeaken(r, p.Exp(y), p.Node(y));
      SupportGap(p.Exp(x), p.Node(x), r, p.Node(y));
    }
  }

  /** y ranges over the grid indices and, for a periodic pole, the virtual last point. */
  lemma CoverStep(p: Pole, lmin: nat, y: int, x: int)
    requires p.InGrid(x) && p.Level(x) > lmin
    requires 0 <= p.Node(y) <= Pow2(p.lmax)
    ensures var h := Pow2(p.Exp(x));
            p.Covers(lmin, y, x) <==>
            (y == x - h || p.Covers(lmin, y, x - h) || y == x + h || p.Covers(lmin, y, x + h))
    ensures y < x && p.Covers(lmin, y, x) ==>
              y == x - Pow2(p.Exp(x)) || (y < x - Pow2(p.Exp(x)) && p.Covers(lmin, y, x - Pow2(p.Exp(x))))
    ensures x < y && p.Covers(lmin, y, x) ==>
              y == x + Pow2(p.Exp(x)) || (x + Pow2(p.Exp(x)) < y && p.Covers(lmin, y, x + Pow2(p.Exp(x))))
  {
    hide Pow2, Mult;
    p.ExponentFacts(x);
    p.ExponentFacts(y);
    var k, e, bound := p.Exp(x), p.Exp(y), p.lmax - lmin;
    var r := if e <= bound then e else bound;
    if Mult(k + 1, p.Node(y)) {
      p.ExponentIsMaximal(y, k + 1);
    }
    if y < x {
      CoverFromLeft(k, p.Node(x), e, bound, r, p.Node(y));
    } else if x < y {
      CoverFromRight(k, p.Node(x), e, bound, r, p.Node(y));
    }
    CoverOfPredecessor(k, p.Node(x), e, bound, r, p.Node(y));
  }

  /** A coarse point has no ancestors and lies in no other support. */
  lemma CoarseHasNoAncestor(p: Pole, lmin: nat, y: int, x: int)
    requires p.InGrid(x) && p.Level(x) <= lmin
    ensures !p.IsAncestor(lmin, y, x) && !p.InSupport(lmin, y, x)
  {
    hide Pow2;
    if p.InGrid(y) {
      CoarsePointsAreUncovered(p, lmin, y, x);
    }
    if p.boundary == 1 {
      VirtualPoint(p, lmin);
      CoarsePointsAreUncovered(p, lmin, p.Length(), x);
    }
  }

  /** Being an ancestor, defined by following predecessors, is the same as having a basis function
      whose support contains the point. */
  lemma {:induction false} AncestorsCover(p: Pole, lmin: nat, y: int, x: int)
    requires p.InGrid(x)
    ensures p.IsAncestor(lmin, y, x) <==> p.InSupport(lmin, y, x)
    decreases p.Level(x)
  {
    hide Pow2, Pole.Reach, Pole.Exp, Pole.Level;
    var n := p.Length();
    if p.Level(x) <= lmin {
      CoarseHasNoAncestor(p, lmin, y, x);
    } else {
      p.PredecessorsAreCoarser(x);
      var h := Pow2(p.Exp(x));
      if p.InGrid(x - h) {
        AncestorsCover(p, lmin, y, x - h);
      } else if p.InGrid(y) {
        OutsideIsUncovered(p, lmin, y, x - h);
      }
      if p.InGrid(x + h) {
        AncestorsCover(p, lmin, y, x + h);
      } else if p.InGrid(y) {
        OutsideIsUncovered(p, lmin, y, x + h);
      }
      if p.InGrid(y) {
        CoverStep(p, lmin, y, x);
      }
      if p.boundary == 1 {
        VirtualPoint(p, lmin);
        CoverStep(p, lmin, n, x);
      }
    }
  }

  lemma VirtualPoint(p: Pole, lmin: nat)
    requires p.boundary == 1
    ensures p.Level(p.Length()) == 0 && p.Reach(lmin, p.Length()) == p.Reach(lmin, 0)
  {
    MultPow2(p.lmax, p.lmax);
    CtzIsOddMult(Pow2(p.lmax), p.lmax);
  }

  /** The missing boundary points have level 0 and are covered by no grid point. */
  lemma OutsideIsUncovered(p: Pole, lmin: nat, y: int, z: int)
    requires p.InGrid(y) && !p.InGrid(z) && 0 <= p.Node(z) <= Pow2(p.lmax)
    ensures !p.Covers(lmin, y, z)
  {
    MultPow2(p.lmax, p.lmax);
    CtzIsOddMult(Pow2(p.lmax), p.lmax);
    assert p.Level(z) == 0;
    CoarsePointsAreUncovered(p, lmin, y, z);
  }
}
