/** The send side of the exchange before dehierarchization: a rank searches the hierarchical
    successors of each of its points, and notes the point for every rank it meets. */
module SuccessorSearch {
  import opened Dyadic
  import opened Poles

  /** A map from ranks to sets of pole indices, with the insert-or-create access of the original. */
  class IndexSets {
    var sets: map<int, set<int>>

    constructor ()
      ensures sets == map[]
    {
      sets := map[];
    }

    function At(r: int): set<int>
      reads this
    {
      SetAt(sets, r)
    }

    method Insert(r: int, i: int)
      modifies this
      ensures sets == old(sets)[r := old(At(r)) + {i}]
    {
      sets := sets[r := At(r) + {i}];
    }
  }

  function SetAt(m: map<int, set<int>>, r: int): set<int> {
    if r in m then m[r] else {}
  }

  /** Rank r owns index j or, when searching from index 0 of a periodic pole, the mirror image of j. */
  predicate Meets(p: Pole, r: int, j: int, mirrored: bool) {
    p.Owns(r, j) || (mirrored && p.Owns(r, p.Length() - j))
  }

  ghost predicate Hit(p: Pole, r: int, low: int, high: int, mirrored: bool) {
    exists j :: low < j < high && Meets(p, r, j, mirrored)
  }

  lemma OwnershipIsExclusive(p: Pole, q: nat, r: nat, i: int)
    requires p.Valid() && q < |p.cuts| && r < |p.cuts|
    ensures p.Owns(q, i) && p.Owns(r, i) ==> q == r
    ensures p.Owns(q, i) ==> p.InGrid(i)
    ensures p.First(q) <= p.Last(q)
  {
  }

  /** What a set of indices becomes when root is inserted on a condition. */
  ghost function With(before: set<int>, hit: bool, root: int): set<int> {
    if hit then before + {root} else before
  }

  /** after is before, with root added for every other rank that is met between low and high. */
  ghost predicate MarkedBetween(p: Pole, me: nat, before: map<int, set<int>>, after: map<int, set<int>>,
                                low: int, high: int, root: int, mirrored: bool)
  {
    forall r {:trigger SetAt(after, r)} ::
      SetAt(after, r) == With(SetAt(before, r), r != me && Hit(p, r, low, high, mirrored), root)
  }

  lemma MarkLeftToRight(p: Pole, me: nat, m0: map<int, set<int>>, m1: map<int, set<int>>, m2: map<int, set<int>>,
                        low: int, a: int, high: int, root: int, mirrored: bool)
    requires low <= a < high
    requires MarkedBetween(p, me, m0, m1, low, a + 1, root, mirrored)
    requires MarkedBetween(p, me, m1, m2, a, high, root, mirrored)
    ensures MarkedBetween(p, me, m0, m2, low, high, root, mirrored)
  {
    forall r
      ensures SetAt(m2, r) == With(SetAt(m0, r), r != me && Hit(p, r, low, high, mirrored), root)
    {
      HitJoin(p, r, low, a, high, mirrored);
    }
  }

  lemma MarkRightToLeft(p: Pole, me: nat, m0: map<int, set<int>>, m1: map<int, set<int>>, m2: map<int, set<int>>,
                        low: int, a: int, high: int, root: int, mirrored: bool)
    requires low <= a < high
    requires MarkedBetween(p, me, m0, m1, a, high, root, mirrored)
    requires MarkedBetween(p, me, m1, m2, low, a + 1, root, mirrored)
    ensures MarkedBetween(p, me, m0, m2, low, high, root, mirrored)
  {
    forall r
      ensures SetAt(m2, r) == With(SetAt(m0, r), r != me && Hit(p, r, low, high, mirrored), root)
    {
      HitJoin(p, r, low, a, high, mirrored);
    }
  }

  lemma HitJoin(p: Pole, r: int, low: int, a: int, high: int, mirrored: bool)
    requires low <= a < high
    ensures Hit(p, r, low, high, mirrored) <==> (Hit(p, r, low, a + 1, mirrored) || Hit(p, r, a, high, mirrored))
  {
    if Hit(p, r, low, high, mirrored) {
      var j :| low < j < high && Meets(p, r, j, mirrored);
      assert low < j < a + 1 || a < j < high;
    }
  }

  /** Marking a single point and then everything on one side of it. */
  lemma MarkPoint(p: Pole, me: nat, m0: map<int, set<int>>, m1: map<int, set<int>>, m2: map<int, set<int>>,
                  low: int, high: int, s: int, root: int, mirrored: bool)
    requires forall r :: SetAt(m1, r) == With(SetAt(m0, r), r != me && Meets(p, r, s, mirrored), root)
    requires MarkedBetween(p, me, m1, m2, low, high, root, mirrored)
    ensures low < s == high ==> MarkedBetween(p, me, m0, m2, low, s + 1, root, mirrored)
    ensures low == s < high ==> MarkedBetween(p, me, m0, m2, s - 1, high, root, mirrored)
  {
    forall r
      ensures low < s == high ==> SetAt(m2, r) == With(SetAt(m0, r), r != me && Hit(p, r, low, s + 1, mirrored), root)
      ensures low == s < high ==> SetAt(m2, r) == With(SetAt(m0, r), r != me && Hit(p, r, s - 1, high, mirrored), root)
    {
      if low < s == high && Hit(p, r, low, s + 1, mirrored) {
        var j :| low < j < s + 1 && Meets(p, r, j, mirrored);
        assert low < j < s || j == s;
      }
      if low == s < high && Hit(p, r, s - 1, high, mirrored) {
        var j :| s - 1 < j < high && Meets(p, r, j, mirrored);
        assert s < j < high || j == s;
      }
    }
  }

  /** Distances 2^(lmax - l) of a search over levels, compared with the reach of the point searched
      from: the steps of level at most lmin, which are skipped, lie beyond it. */
  lemma ReachFromStep(p: Pole, lmin: nat, i: int, l: int)
    requires 0 <= p.Node(i) <= Pow2(p.lmax) && p.Level(i) < l <= p.lmax
    ensures l <= lmin ==> Pow2(p.lmax - l) >= p.Reach(lmin, i)
    ensures l > lmin ==> 2 * Pow2(p.lmax - l) <= p.Reach(lmin, i)
  {
    p.ExponentFacts(i);
    if l <= lmin {
      if lmin <= p.lmax {
        Pow2Monotone(p.lmax - lmin, p.lmax - l);
      }
    } else {
      Pow2Monotone(p.lmax - l, p.Exp(i));
      Pow2Monotone(p.lmax - l, p.lmax - lmin);
    }
  }

  lemma SuccessorFacts(p: Pole, lmin: nat, i: int, l: int, s: int)
    requires 0 <= p.Node(i) <= Pow2(p.lmax) && p.Level(i) < l <= p.lmax
    requires s == i - Pow2(p.lmax - l) || s == i + Pow2(p.lmax - l)
    ensures p.Level(s) == l && p.Exp(s) == p.lmax - l < p.Exp(i)
    ensures Pow2(p.lmax - l + 1) == 2 * Pow2(p.lmax - l)
    ensures l > lmin ==> p.Reach(lmin, s) == Pow2(p.lmax - l)
  {
    p.ExponentFacts(i);
    p.SuccessorLevel(i, p.lmax - l);
  }

  lemma ReachBound(p: Pole, lmin: nat, i: int)
    ensures 1 <= p.Reach(lmin, i) <= Pow2(p.Exp(i))
  {
    if p.lmax > lmin && p.Exp(i) > p.lmax - lmin {
      Pow2Monotone(p.lmax - lmin, p.Exp(i));
    }
  }

  lemma MarkNothing(p: Pole, me: nat, m0: map<int, set<int>>, m1: map<int, set<int>>,
                    low1: int, high1: int, low2: int, high2: int, root: int, mirrored: bool)
    requires high1 <= low1 + 1 && high2 <= low2 + 1
    requires MarkedBetween(p, me, m0, m1, low1, high1, root, mirrored)
    ensures MarkedBetween(p, me, m0, m1, low2, high2, root, mirrored)
  {
  }

  /** Looks up the owner of index s and inserts root for it, if s is a grid point of another rank. */
  method MarkOwner(p: Pole, me: nat, s: int, root: int, send: IndexSets)
    requires p.Valid() && me < |p.cuts| && !p.Owns(me, s)
    modifies send
    ensures forall r :: send.At(r) == With(old(send.At(r)), r != me && p.Owns(r, s), root)
  {
    var r := p.Neighbor(s);
    if r >= 0 {
      send.Insert(r, root);
    }
    forall q
      ensures send.At(q) == With(old(send.At(q)), q != me && p.Owns(q, s), root)
    {
      if 0 <= q < |p.cuts| && r >= 0 {
        OwnershipIsExclusive(p, q, r, s);
      }
    }
  }

  /** Visits one left successor s: notes its owner and descends to the successors of s. */
  method VisitLeftSuccessor(p: Pole, me: nat, lmin: nat, s: int, rootIdx: int, send: IndexSets)
    requires p.Valid() && me < |p.cuts| && p.Owns(me, rootIdx)
    requires s < rootIdx && (s >= 0 ==> p.Level(s) > lmin) && p.Reach(lmin, s) == Pow2(p.Exp(s))
    modifies send
    ensures MarkedBetween(p, me, old(send.sets), send.sets, s - Pow2(p.Exp(s)), s + 1, rootIdx, false)
    decreases p.Exp(s), 3
  {
    if 0 <= s < p.First(me) {
      if p.Level(s) > lmin {
        MarkOwner(p, me, s, rootIdx, send);
      }
    }
    ghost var m := send.sets;
    if s >= 0 {
      CheckLeftSuccessors(p, me, lmin, s, rootIdx, send);
      MarkPoint(p, me, old(send.sets), m, send.sets, s - Pow2(p.Exp(s)), s, s, rootIdx, false);
    }
  }

  /** One round of the left search: the successor of level l is at distance 2^(lmax - l). */
  method LeftStep(p: Pole, me: nat, lmin: nat, checkIdx: int, rootIdx: int, l: int, send: IndexSets,
                  ghost before: map<int, set<int>>, ghost low: int)
    requires p.Valid() && me < |p.cuts| && p.Owns(me, rootIdx)
    requires p.InGrid(checkIdx) && checkIdx <= rootIdx
    requires checkIdx != rootIdx ==> p.Level(checkIdx) > lmin
    requires p.Level(checkIdx) < l <= p.lmax && low == checkIdx - p.Reach(lmin, checkIdx)
    requires MarkedBetween(p, me, before, send.sets, low, checkIdx - Pow2(p.lmax - l + 1) + 1, rootIdx, false)
    modifies send
    ensures MarkedBetween(p, me, before, send.sets, low, checkIdx - Pow2(p.lmax - l) + 1, rootIdx, false)
    decreases p.Exp(checkIdx), 0
  {
    var d := Pow2(p.lmax - l);
    var s := checkIdx - d;
    SuccessorFacts(p, lmin, checkIdx, l, s);
    ReachFromStep(p, lmin, checkIdx, l);
    ghost var m := send.sets;
    if checkIdx == rootIdx && p.Level(s) <= lmin {
      MarkNothing(p, me, before, m, low, s - d + 1, low, s + 1, rootIdx, false);
    } else {
      VisitLeftSuccessor(p, me, lmin, s, rootIdx, send);
      MarkLeftToRight(p, me, before, m, send.sets, low, s - d, s + 1, rootIdx, false);
    }
  }

  method CheckLeftSuccessors(p: Pole, me: nat, lmin: nat, checkIdx: int, rootIdx: int, send: IndexSets)
    requires p.Valid() && me < |p.cuts| && p.Owns(me, rootIdx)
    requires p.InGrid(checkIdx) && checkIdx <= rootIdx
    requires checkIdx != rootIdx ==> p.Level(checkIdx) > lmin
    modifies send
    ensures MarkedBetween(p, me, old(send.sets), send.sets, checkIdx - p.Reach(lmin, checkIdx), checkIdx, rootIdx,
                          false)
    decreases p.Exp(checkIdx), 2
  {
    p.ExponentFacts(checkIdx);
    ReachBound(p, lmin, checkIdx);
    var l := p.Level(checkIdx) + 1;
    ghost var low := checkIdx - p.Reach(lmin, checkIdx);
    while l <= p.lmax
      invariant p.Level(checkIdx) < l <= p.lmax + 1
      invariant MarkedBetween(p, me, old(send.sets), send.sets, low, checkIdx - Pow2(p.lmax - l + 1) + 1, rootIdx,
                              false)
    {
      LeftStep(p, me, lmin, checkIdx, rootIdx, l, send, old(send.sets), low);
      l := l + 1;
    }
  }

  /** Visits one right successor s; index 0 of a periodic pole also stands for the point after the
      last one, whose left successors are the mirror images of the right successors of 0. */
  method VisitRightSuccessor(p: Pole, me: nat, lmin: nat, s: int, rootIdx: int, send: IndexSets)
    requires p.Valid() && me < |p.cuts| && p.Owns(me, rootIdx)
    requires rootIdx < s && p.Level(s) > lmin && p.Reach(lmin, s) == Pow2(p.Exp(s))
    modifies send
    ensures MarkedBetween(p, me, old(send.sets), send.sets, s - 1, s + Pow2(p.Exp(s)), rootIdx,
                          rootIdx == 0 && p.boundary == 1)
    decreases p.Exp(s), 3
  {
    ghost var mirrored := rootIdx == 0 && p.boundary == 1;
    if p.Level(s) > lmin {
      if p.Last(me) < s < p.Length() {
        MarkOwner(p, me, s, rootIdx, send);
      }
      if rootIdx == 0 && p.boundary == 1 {
        var mirroredSuccessor := p.Length() - s;
        if mirroredSuccessor > p.Last(me) {
          MarkOwner(p, me, mirroredSuccessor, rootIdx, send);
        }
      }
    }
    ghost var m := send.sets;
    if s < p.Length() {
      CheckRightSuccessors(p, me, lmin, s, rootIdx, send);
      MarkPoint(p, me, old(send.sets), m, send.sets, s, s + Pow2(p.Exp(s)), s, rootIdx, mirrored);
    }
  }

  method RightStep(p: Pole, me: nat, lmin: nat, checkIdx: int, rootIdx: int, l: int, send: IndexSets,
                   ghost before: map<int, set<int>>, ghost high: int)
    requires p.Valid() && me < |p.cuts| && p.Owns(me, rootIdx)
    requires p.InGrid(checkIdx) && rootIdx <= checkIdx
    requires checkIdx != rootIdx ==> p.Level(checkIdx) > lmin
    requires p.Level(checkIdx) < l <= p.lmax && high == checkIdx + p.Reach(lmin, checkIdx)
    requires MarkedBetween(p, me, before, send.sets, checkIdx + Pow2(p.lmax - l + 1) - 1, high, rootIdx,
                           rootIdx == 0 && p.boundary == 1)
    modifies send
    ensures MarkedBetween(p, me, before, send.sets, checkIdx + Pow2(p.lmax - l) - 1, high, rootIdx,
                          rootIdx == 0 && p.boundary == 1)
    decreases p.Exp(checkIdx), 0
  {
    hide MarkedBetween, Pow2;
    var d := Pow2(p.lmax - l);
    var s := checkIdx + d;
    SuccessorFacts(p, lmin, checkIdx, l, s);
    ReachFromStep(p, lmin, checkIdx, l);
    ghost var m := send.sets;
    ghost var mirrored := rootIdx == 0 && p.boundary == 1;
    if checkIdx == rootIdx && p.Level(s) <= lmin {
      MarkNothing(p, me, before, m, s + d - 1, high, s - 1, high, rootIdx, mirrored);
    } else {
      VisitRightSuccessor(p, me, lmin, s, rootIdx, send);
      MarkRightToLeft(p, me, before, m, send.sets, s - 1, s + d - 1, high, rootIdx, mirrored);
    }
  }

  method CheckRightSuccessors(p: Pole, me: nat, lmin: nat, checkIdx: int, rootIdx: int, send: IndexSets)
    requires p.Valid() && me < |p.cuts| && p.Owns(me, rootIdx)
    requires p.InGrid(checkIdx) && rootIdx <= checkIdx
    requires checkIdx != rootIdx ==> p.Level(checkIdx) > lmin
    modifies send
    ensures MarkedBetween(p, me, old(send.sets), send.sets, checkIdx, checkIdx + p.Reach(lmin, checkIdx), rootIdx,
                          rootIdx == 0 && p.boundary == 1)
    decreases p.Exp(checkIdx), 2
  {
    p.ExponentFacts(checkIdx);
    ReachBound(p, lmin, checkIdx);
    var l := p.Level(checkIdx) + 1;
    ghost var high := checkIdx + p.Reach(lmin, checkIdx);
    while l <= p.lmax
      invariant p.Level(checkIdx) < l <= p.lmax + 1
      invariant MarkedBetween(p, me, old(send.sets), send.sets, checkIdx + Pow2(p.lmax - l + 1) - 1, high, rootIdx,
                              rootIdx == 0 && p.boundary == 1)
    {
      RightStep(p, me, lmin, checkIdx, rootIdx, l, send, old(send.sets), high);
      l := l + 1;
    }
  }
}
