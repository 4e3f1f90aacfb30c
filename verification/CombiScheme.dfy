/** The combination scheme: component grids and their coefficients. */
module CombiScheme {
  import opened FiniteSums
  import opened LevelSets
  import opened LevelGeneration
  import opened DownSets

  /** Smaller levels come first: no level lies below or equals an earlier one. */
  ghost predicate Ascending(list: seq<Level>) {
    forall i, j :: 0 <= i < j < |list| ==> !Leq(list[j], list[i])
  }

  ghost predicate ArePositive(list: seq<Level>, dim: nat) {
    forall l :: l in list ==> |l| == dim && forall i :: 0 <= i < dim ==> l[i] > 0
  }

  function Zeros(dim: nat): Level {
    seq(dim, i => 0)
  }

  function Without<T(==)>(list: seq<T>, x: T): seq<T> {
    if list == [] then []
    else
      var front, last := list[..|list| - 1], list[|list| - 1];
      if last == x then Without(front, x) else Without(front, x) + [last]
  }

  ghost function One(): Level -> real {
    l => 1.0
  }

  /** The spaces whose coefficient is not zero, and their coefficients. */
  ghost function KeptSpaces(all: set<Level>, list: seq<Level>): seq<Level> {
    if list == [] then []
    else
      var front, last := list[..|list| - 1], list[|list| - 1];
      if Coefficient(all, One(), last) == 0.0 then KeptSpaces(all, front) else KeptSpaces(all, front) + [last]
  }

  ghost function KeptCoefficients(all: set<Level>, list: seq<Level>): seq<real> {
    if list == [] then []
    else
      var front, last := list[..|list| - 1], list[|list| - 1];
      var c := Coefficient(all, One(), last);
      if c == 0.0 then KeptCoefficients(all, front) else KeptCoefficients(all, front) + [c]
  }

  /** What grid l contributes to the count of subspace k. */
  ghost function Contribution(all: set<Level>, k: Level): Level -> real {
    l => if Leq(k, l) then Coefficient(all, One(), l) else 0.0
  }

  /** How often the grids of a scheme count subspace k. */
  ghost function TimesCounted(spaces: seq<Level>, coefficients: seq<real>, k: Level): real
    requires |spaces| == |coefficients|
  {
    if spaces == [] then 0.0
    else
      var n := |spaces| - 1;
      TimesCounted(spaces[..n], coefficients[..n], k) + if Leq(k, spaces[n]) then coefficients[n] else 0.0
  }

  function TotalOf(c: seq<real>): real {
    if c == [] then 0.0 else TotalOf(c[..|c| - 1]) + c[|c| - 1]
  }

  /** A subspace that all grids contain is counted as often as the coefficients add up to. */
  lemma {:induction false} TotalIsCount(spaces: seq<Level>, c: seq<real>, k: Level)
    requires |spaces| == |c| && forall l :: l in spaces ==> Leq(k, l)
    ensures TotalOf(c) == TimesCounted(spaces, c, k)
  {
    if spaces != [] {
      TotalIsCount(spaces[..|spaces| - 1], c[..|c| - 1], k);
      assert spaces[|spaces| - 1] in spaces;
    }
  }

  ghost predicate IsCovered(list: seq<Level>, k: Level) {
    exists l :: l in list && Leq(k, l)
  }

  lemma {:induction false} SeqSumEqual(a: seq<Level>, b: seq<Level>, f: Level -> real)
    requires |a| == |b| && forall i :: 0 <= i < |a| ==> f(a[i]) == f(b[i])
    ensures SeqSum(a, f) == SeqSum(b, f)
  {
    if a != [] {
      SeqSumEqual(a[..|a| - 1], b[..|b| - 1], f);
    }
  }

  lemma AscendingIsDistinct(list: seq<Level>)
    requires Ascending(list)
    ensures Distinct(list)
  {
  }

  /** The kept grids count what all grids count. */
  lemma {:induction false} KeptCount(all: set<Level>, list: seq<Level>, k: Level)
    ensures |KeptSpaces(all, list)| == |KeptCoefficients(all, list)|
    ensures TimesCounted(KeptSpaces(all, list), KeptCoefficients(all, list), k)
            == SeqSum(list, Contribution(all, k))
  {
    if list != [] {
      var front, last := list[..|list| - 1], list[|list| - 1];
      KeptCount(all, front, k);
      var c := Coefficient(all, One(), last);
      if c != 0.0 {
        AppendedCount(KeptSpaces(all, front), KeptCoefficients(all, front), last, c, k);
      }
    }
  }

  lemma AppendedCount(spaces: seq<Level>, coefficients: seq<real>, l: Level, c: real, k: Level)
    requires |spaces| == |coefficients|
    ensures TimesCounted(spaces + [l], coefficients + [c], k)
            == TimesCounted(spaces, coefficients, k) + if Leq(k, l) then c else 0.0
  {
    assert (spaces + [l])[..|spaces|] == spaces;
    assert (coefficients + [c])[..|spaces|] == coefficients;
  }

  /** Every subspace that some grid contains is counted exactly once by the kept grids; any other is
      counted with total weight zero. */
  lemma EverySubspaceOnce(list: seq<Level>, lmin: Level, k: Level)
    requires Distinct(list) && DownClosed(Elements(list), lmin) && |k| == |lmin|
    ensures |KeptSpaces(Elements(list), list)| == |KeptCoefficients(Elements(list), list)|
    ensures TimesCounted(KeptSpaces(Elements(list), list), KeptCoefficients(Elements(list), list), k)
            == if IsCovered(list, k) then 1.0 else 0.0
  {
    var s := Elements(list);
    KeptCount(s, list, k);
    SeqSumIsSum(list, Contribution(s, k));
    CountOfCoefficients(s, lmin, One(), k);
    SumEqual(s, Contribution(s, k), l => if Leq(k, l) then (l => Coefficient(s, One(), l))(l) else 0.0);
    CoveredMeansJoin(list, lmin, k);
  }

  lemma CoveredMeansJoin(list: seq<Level>, lmin: Level, k: Level)
    requires DownClosed(Elements(list), lmin) && |k| == |lmin|
    ensures IsCovered(list, k) <==> Join(k, lmin) in Elements(list)
  {
    var j := Join(k, lmin);
    if IsCovered(list, k) {
      var l :| l in list && Leq(k, l);
      assert l in Elements(list);
      JoinIsLeast(k, lmin, l);
      assert Leq(lmin, j) && Leq(j, l);
    }
    if j in Elements(list) {
      assert Leq(k, j);
    }
  }

  function PlusOne(l: Level): Level {
    seq(|l|, i requires 0 <= i < |l| => l[i] + 1)
  }

  lemma {:induction false} SumOfDifference(a: Level, b: Level)
    requires |a| == |b|
    ensures LevelSum(Minus(a, b)) == LevelSum(a) - LevelSum(b)
  {
    if a != [] {
      var n := |a| - 1;
      SumOfDifference(a[..n], b[..n]);
      assert Minus(a, b)[..n] == Minus(a[..n], b[..n]);
    }
  }

  ghost function NeighbourTerm(center: Level): Level -> real {
    m => Term(center, m, 1.0)
  }

  /** Signed sum over the neighbours of center that are in the list. */
  method NeighbourSum(spaces: seq<Level>, center: Level) returns (coeff: real)
    ensures coeff == SeqSum(spaces, NeighbourTerm(center))
  {
    coeff := 0.0;
    for i := 0 to |spaces|
      invariant coeff == SeqSum(spaces[..i], NeighbourTerm(center))
    {
      var nbr := spaces[i];
      if Leq(center, nbr) && Leq(nbr, PlusOne(center)) {
        coeff := coeff + Signed(LevelSum(Minus(nbr, center)), 1.0);
        SumOfDifference(nbr, center);
      }
      BoundsMeanAdjacent(center, nbr);
      assert spaces[..i + 1][..i] == spaces[..i];
    }
    assert spaces[..|spaces|] == spaces;
  }

  lemma BoundsMeanAdjacent(l: Level, m: Level)
    ensures Leq(l, m) && Leq(m, PlusOne(l)) <==> Adjacent(l, m)
  {
    if Leq(l, m) && Leq(m, PlusOne(l)) {
      forall i | 0 <= i < |l|
        ensures l[i] <= m[i] <= l[i] + 1
      {
        assert m[i] <= PlusOne(l)[i];
      }
    }
  }

  /** The list while its first entries are being processed: those with coefficient zero have been
      overwritten. */
  ghost predicate ZeroedUpTo(all: seq<Level>, now: seq<Level>, dim: nat, n: nat) {
    && |now| == |all|
    && (forall j {:trigger now[j]} :: 0 <= j < |all| ==>
          now[j] == if j < n && Coefficient(Elements(all), One(), all[j]) == 0.0 then Zeros(dim) else all[j])
  }

  ghost predicate CoefficientsOf(all: seq<Level>, list: seq<Level>, coefficients: seq<real>) {
    && |coefficients| <= |list|
    && forall j {:trigger coefficients[j]} :: 0 <= j < |coefficients| ==>
         coefficients[j] == Coefficient(Elements(all), One(), list[j])
  }

  lemma CoefficientIsSum(s: set<Level>, l: Level)
    ensures Coefficient(s, One(), l) == Sum(s, NeighbourTerm(l))
  {
    forall m | m in s
      ensures NeighbourTerm(l)(m) == Term(l, m, One()(m))
    {
    }
    SumEqual(s, NeighbourTerm(l), m => Term(l, m, One()(m)));
  }

  lemma NextIsProcessed(all: seq<Level>, now: seq<Level>, coefficients: seq<real>, dim: nat, n: nat, coeff: real)
    requires ZeroedUpTo(all, now, dim, n) && CoefficientsOf(all, all, coefficients) && |coefficients| == n < |all|
    requires coeff == Coefficient(Elements(all), One(), all[n])
    ensures ZeroedUpTo(all, if coeff == 0.0 then now[n := Zeros(dim)] else now, dim, n + 1)
    ensures CoefficientsOf(all, all, coefficients + [coeff])
  {
  }

  /** Overwriting earlier entries does not change the coefficient of a later one. */
  lemma OverwritingIsHarmless(all: seq<Level>, now: seq<Level>, dim: nat, n: nat)
    requires dim > 0 && Ascending(all) && ArePositive(all, dim) && n < |all| && ZeroedUpTo(all, now, dim, n)
    ensures now[n] == all[n]
    ensures SeqSum(now, NeighbourTerm(all[n])) == Coefficient(Elements(all), One(), all[n])
  {
    var l := all[n];
    var f := NeighbourTerm(l);
    assert l in all && l[0] > 0;
    forall j | 0 <= j < |all|
      ensures f(now[j]) == f(all[j])
    {
      if j < n {
        assert !Leq(l, all[j]);
        assert !Leq(l, Zeros(dim)) by {
          assert Zeros(dim)[0] < l[0];
        }
      }
    }
    SeqSumEqual(now, all, f);
    AscendingIsDistinct(all);
    SeqSumIsSum(all, f);
    CoefficientIsSum(Elements(all), l);
  }

  /** Both erase passes drop the same positions. */
  lemma {:induction false} ErasingKeepsPairs(all: seq<Level>, list: seq<Level>, zeroed: seq<Level>,
                                             coefficients: seq<real>, dim: nat)
    requires dim > 0 && ArePositive(list, dim) && |zeroed| == |coefficients| == |list|
             && CoefficientsOf(all, list, coefficients)
    requires forall j {:trigger zeroed[j]} :: 0 <= j < |list| ==>
               zeroed[j] == if Coefficient(Elements(all), One(), list[j]) == 0.0 then Zeros(dim) else list[j]
    ensures Without(zeroed, Zeros(dim)) == KeptSpaces(Elements(all), list)
    ensures Without(coefficients, 0.0) == KeptCoefficients(Elements(all), list)
  {
    if list != [] {
      var n := |list| - 1;
      assert list[n] in list && list[n][0] > 0;
      forall l | l in list[..n]
        ensures |l| == dim && forall i :: 0 <= i < dim ==> l[i] > 0
      {
        assert l in list;
      }
      ErasingKeepsPairs(all, list[..n], zeroed[..n], coefficients[..n], dim);
      assert Zeros(dim)[0] == 0;
    }
  }

  /** The admissible levels that are no finer than the furthest corner. */
  ghost predicate InScheme(lmin: Level, lmax: Level, n: int, l: Level) {
    && Leq(lmin, l) && LevelSum(l) <= n
    && IsLevel(l, lmax, Lowered(lmax, n - LevelSum(lmin)), n - LevelSum(lmin))
  }

  function Selected(lmin: Level, n: int, levels: seq<Level>): seq<Level> {
    if levels == [] then []
    else
      var front, last := levels[..|levels| - 1], levels[|levels| - 1];
      if Leq(lmin, last) && LevelSum(last) <= n then Selected(lmin, n, front) + [last] else Selected(lmin, n, front)
  }

  ghost predicate IsMaximum(l: Level, n: int) {
    n in l && forall i :: 0 <= i < |l| ==> l[i] <= n
  }

  /** lmin with its entry raised to lmax in the first dimension where they are farthest apart. */
  method FurthestCorner(lmax: Level, lmin: Level) returns (lm: Level)
    requires |lmax| == |lmin| > 0
    ensures IsMaximum(Minus(lmax, lmin), LevelSum(lm) - LevelSum(lmin))
  {
    var ldiff := Minus(lmax, lmin);
    var indexMax := 0;
    for i := 1 to |ldiff|
      invariant indexMax < |ldiff| && forall j :: 0 <= j < i ==> ldiff[j] <= ldiff[indexMax]
    {
      if ldiff[indexMax] < ldiff[i] {
        indexMax := i;
      }
    }
    lm := lmin[indexMax := lmax[indexMax]];
    SumOfUpdate(lmin, indexMax, lmax[indexMax]);
    assert ldiff[indexMax] in ldiff;
  }

  lemma LoweredTwice(lmax: Level, c: int, diff: int)
    requires lmax != [] && IsMinimum(Minus(lmax, Lowered(lmax, c)), diff)
    ensures diff == c
  {
  }

  lemma {:induction false} SelectedIsSubsequence(lmin: Level, n: int, levels: seq<Level>)
    requires Sorted(levels)
    ensures Sorted(Selected(lmin, n, levels))
    ensures forall l :: l in Selected(lmin, n, levels) <==> l in levels && Leq(lmin, l) && LevelSum(l) <= n
  {
    if levels != [] {
      var front, last := levels[..|levels| - 1], levels[|levels| - 1];
      SelectedIsSubsequence(lmin, n, front);
      assert levels == front + [last];
      forall l | l in Selected(lmin, n, front)
        ensures LexLess(l, last)
      {
        var i :| 0 <= i < |front| && front[i] == l;
        assert LexLess(levels[i], levels[|levels| - 1]);
      }
    }
  }

  lemma SortedIsAscending(list: seq<Level>)
    requires Sorted(list)
    ensures Ascending(list)
  {
    forall i, j | 0 <= i < j < |list|
      ensures !Leq(list[j], list[i])
    {
      assert LexLess(list[i], list[j]);
    }
  }

  lemma {:induction false} PartSumIsMonotone(a: Level, b: Level, mask: Mask)
    requires Leq(a, b) && |mask| == |a|
    ensures PartSum(a, mask) <= PartSum(b, mask)
  {
    if a != [] {
      PartSumIsMonotone(a[..|a| - 1], b[..|b| - 1], mask[..|a| - 1]);
    }
  }

  lemma SchemeIsDownClosed(lmin: Level, lmax: Level, n: int, l: Level, m: Level)
    requires InScheme(lmin, lmax, n, m) && Leq(lmin, l) && Leq(l, m) && forall i :: 0 <= i < |lmin| ==> lmin[i] > 0
    ensures InScheme(lmin, lmax, n, l)
  {
    SumIsMonotone(l, m);
    var c := n - LevelSum(lmin);
    forall i | 0 <= i < |l|
      ensures 1 <= l[i] <= lmax[i]
    {
      assert lmin[i] <= l[i] <= m[i];
    }
    forall mask: Mask | |mask| == |l| && Ones(mask) >= 2
      ensures BelowHyperplane(l, Lowered(lmax, c), c, mask)
    {
      assert BelowHyperplane(m, Lowered(lmax, c), c, mask);
      PartSumIsMonotone(l, m, mask);
    }
  }

  lemma SelectionIsScheme(lmin: Level, lmax: Level, n: int, levels: seq<Level>)
    requires ListsLevels(levels, lmax, n - LevelSum(lmin))
    ensures Ascending(Selected(lmin, n, levels)) && ArePositive(Selected(lmin, n, levels), |lmax|)
    ensures forall l :: l in Selected(lmin, n, levels) <==> InScheme(lmin, lmax, n, l)
  {
    SelectedIsSubsequence(lmin, n, levels);
    SortedIsAscending(Selected(lmin, n, levels));
  }

  /** Kept entries come from the list and have a coefficient. */
  lemma {:induction false} KeptComeFromList(all: set<Level>, list: seq<Level>, i: nat)
    requires i < |KeptSpaces(all, list)|
    ensures |KeptSpaces(all, list)| == |KeptCoefficients(all, list)|
    ensures KeptSpaces(all, list)[i] in list
            && KeptCoefficients(all, list)[i] == Coefficient(all, One(), KeptSpaces(all, list)[i]) != 0.0
  {
    KeptCount(all, list, []);
    var front := list[..|list| - 1];
    KeptCount(all, front, []);
    if i < |KeptSpaces(all, front)| {
      KeptComeFromList(all, front, i);
    }
  }

  /** The grids are levels of the scheme with coefficients other than zero.  Each subspace
      that lies in some level of the scheme is counted exactly once, and any other not at all. */
  ghost predicate CountsEachOnce(lmin: Level, lmax: Level, n: int, spaces: seq<Level>, coefficients: seq<real>) {
    && |spaces| == |coefficients|
    && (forall i :: 0 <= i < |spaces| ==> InScheme(lmin, lmax, n, spaces[i]) && coefficients[i] != 0.0)
    && (forall k :: |k| == |lmin| ==> TimesCounted(spaces, coefficients, k)
                                      == if exists l :: InScheme(lmin, lmax, n, l) && Leq(k, l) then 1.0 else 0.0)
  }

  lemma SchemeCounts(lmin: Level, lmax: Level, n: int, all: seq<Level>)
    requires Ascending(all) && (forall i :: 0 <= i < |lmin| ==> lmin[i] > 0)
    requires forall l :: l in all <==> InScheme(lmin, lmax, n, l)
    ensures CountsEachOnce(lmin, lmax, n, KeptSpaces(Elements(all), all), KeptCoefficients(Elements(all), all))
  {
    AscendingIsDistinct(all);
    KeptCount(Elements(all), all, []);
    var spaces, coefficients := KeptSpaces(Elements(all), all), KeptCoefficients(Elements(all), all);
    forall i | 0 <= i < |spaces|
      ensures InScheme(lmin, lmax, n, spaces[i]) && coefficients[i] != 0.0
    {
      KeptComeFromList(Elements(all), all, i);
    }
    forall l, m | m in Elements(all) && Leq(lmin, l) && Leq(l, m)
      ensures l in Elements(all)
    {
      SchemeIsDownClosed(lmin, lmax, n, l, m);
    }
    forall k | |k| == |lmin|
      ensures TimesCounted(spaces, coefficients, k) == if exists l :: InScheme(lmin, lmax, n, l) && Leq(k, l) then 1.0
              else 0.0
    {
      EverySubspaceOnce(all, lmin, k);
      CoveredByScheme(lmin, lmax, n, all, k);
    }
  }

  lemma CoveredByScheme(lmin: Level, lmax: Level, n: int, all: seq<Level>, k: Level)
    requires forall l :: l in all <==> InScheme(lmin, lmax, n, l)
    ensures IsCovered(all, k) <==> exists l :: InScheme(lmin, lmax, n, l) && Leq(k, l)
  {
    if IsCovered(all, k) {
      var l :| l in all && Leq(k, l);
      assert InScheme(lmin, lmax, n, l);
    }
  }

  /** By how much each dimension falls short of the largest level difference. */
  function Lag(lmin: Level, lmax: Level, c: int): Level
    requires |lmin| == |lmax|
  {
    seq(|lmin|, i requires 0 <= i < |lmin| => lmin[i] - (lmax[i] - c))
  }

  lemma {:induction false} PartSumOfLag(lmin: Level, lmax: Level, c: int, mask: Mask)
    requires |lmin| == |lmax| == |mask|
    ensures PartSum(Lag(lmin, lmax, c), mask) == PartSum(lmin, mask) - PartSum(Lowered(lmax, c), mask)
  {
    if mask != [] {
      var n := |mask| - 1;
      PartSumOfLag(lmin[..n], lmax[..n], c, mask[..n]);
      assert Lag(lmin, lmax, c)[..n] == Lag(lmin[..n], lmax[..n], c);
      assert Lowered(lmax, c)[..n] == Lowered(lmax[..n], c);
    }
  }

  lemma {:induction false} PartSumBound(l: Level, mask: Mask)
    requires |l| == |mask| && forall i :: 0 <= i < |l| ==> l[i] >= 0
    ensures PartSum(l, mask) <= LevelSum(l)
  {
    if l != [] {
      PartSumBound(l[..|l| - 1], mask[..|l| - 1]);
    }
  }

  lemma LagsAreNatural(lmin: Level, lmax: Level, c: int)
    requires |lmin| == |lmax| && IsMaximum(Minus(lmax, lmin), c)
    ensures forall i :: 0 <= i < |lmin| ==> Lag(lmin, lmax, c)[i] >= 0
  {
    forall i | 0 <= i < |lmin|
      ensures Lag(lmin, lmax, c)[i] >= 0
    {
      assert Minus(lmax, lmin)[i] <= c;
    }
  }

  lemma LagsOfLeastLevel(lmin: Level, lmax: Level, n: int)
    requires InScheme(lmin, lmax, n, lmin) && IsMaximum(Minus(lmax, lmin), n - LevelSum(lmin))
    ensures LevelSum(Lag(lmin, lmax, n - LevelSum(lmin))) <= n - LevelSum(lmin)
  {
    var c := n - LevelSum(lmin);
    var lag := Lag(lmin, lmax, c);
    if |lmin| == 1 {
      assert lag == lag[..0] + [lag[0]];
      assert Minus(lmax, lmin)[0] == c;
    } else {
      var all := seq(|lmin|, i => true);
      AllOnes(|lmin|);
      assert BelowHyperplane(lmin, Lowered(lmax, c), c, all);
      PartSumOfLag(lmin, lmax, c, all);
      FullPartSum(lag, all);
    }
  }

  /** The scheme has a level if and only if the lags add up to no more than the largest difference.
      In particular it has one if all differences are equal. */
  lemma SchemeHasLevel(lmin: Level, lmax: Level, n: int)
    requires Leq(lmin, lmax) && (forall i :: 0 <= i < |lmin| ==> lmin[i] > 0)
    requires IsMaximum(Minus(lmax, lmin), n - LevelSum(lmin))
    ensures (exists l :: InScheme(lmin, lmax, n, l))
            <==> LevelSum(Lag(lmin, lmax, n - LevelSum(lmin))) <= n - LevelSum(lmin)
  {
    var c := n - LevelSum(lmin);
    var lag := Lag(lmin, lmax, c);
    LagsAreNatural(lmin, lmax, c);
    if exists l :: InScheme(lmin, lmax, n, l) {
      var l :| InScheme(lmin, lmax, n, l);
      SchemeIsDownClosed(lmin, lmax, n, lmin, l);
      LagsOfLeastLevel(lmin, lmax, n);
    }
    if LevelSum(lag) <= c {
      forall mask: Mask | |mask| == |lmin|
        ensures BelowHyperplane(lmin, Lowered(lmax, c), c, mask)
      {
        PartSumOfLag(lmin, lmax, c, mask);
        PartSumBound(lag, mask);
      }
      assert Minus(lmax, lmin)[0] <= c;
      assert InScheme(lmin, lmax, n, lmin);
    }
  }

  /** A scheme that stretches only one of three dimensions has levels but no grid at all, and no error
      is reported. */
  lemma StretchedSchemeIsEmpty(l: Level)
    ensures IsMaximum(Minus([4, 2, 2], [2, 2, 2]), 8 - LevelSum([2, 2, 2]))
    ensures IsLevel([1, 1, 1], [4, 2, 2], Lowered([4, 2, 2], 2), 2)
    ensures !InScheme([2, 2, 2], [4, 2, 2], 8, l)
  {
    var lmin, lmax := [2, 2, 2], [4, 2, 2];
    SumOfThree(2, 2, 2);
    SumOfThree(0, 2, 2);
    assert Minus(lmax, lmin) == [2, 0, 0];
    assert Lag(lmin, lmax, 2) == [0, 2, 2];
    SchemeHasLevel(lmin, lmax, 8);
    forall mask: Mask | |mask| == 3 && Ones(mask) >= 2
      ensures BelowHyperplane([1, 1, 1], Lowered(lmax, 2), 2, mask)
    {
      assert Lowered(lmax, 2) == [2, 0, 0];
      PartSumOfThree(1, 1, 1, mask);
      PartSumOfThree(2, 0, 0, mask);
    }
  }

  lemma SumOfTwo(a: int, b: int)
    ensures LevelSum([a, b]) == a + b
  {
    assert [a, b][..1] == [a] && [a][..0] == [];
    assert LevelSum([a]) == a;
  }

  lemma SumOfThree(a: int, b: int, c: int)
    ensures LevelSum([a, b, c]) == a + b + c
  {
    assert [a, b, c][..2] == [a, b] && [a, b][..1] == [a] && [a][..0] == [];
    assert LevelSum([a]) == a;
    assert LevelSum([a, b]) == LevelSum([a]) + b;
  }

  lemma PartSumOfThree(a: int, b: int, c: int, mask: Mask)
    requires |mask| == 3
    ensures PartSum([a, b, c], mask) == (if mask[0] then a else 0) + (if mask[1] then b else 0) + if mask[2] then c
            else 0
  {
    var first, two := [mask[0]], [mask[0], mask[1]];
    assert [a, b, c][..2] == [a, b] && mask[..2] == two && [a, b][..1] == [a] && two[..1] == first;
    assert [a][..0] == [] && PartSum([a], first) == if mask[0] then a else 0;
    assert PartSum([a, b], two) == PartSum([a], first) + if mask[1] then b else 0;
  }

  /** Levels on the two diagonals below those of the combination technique. */
  function ExtraSpaces(lmin: Level, effDim: nat, n: int, levels: seq<Level>): seq<Level> {
    if levels == [] then []
    else
      var front, last := levels[..|levels| - 1], levels[|levels| - 1];
      if Leq(lmin, last) && n - effDim - 2 < LevelSum(last) <= n - effDim
        then ExtraSpaces(lmin, effDim, n, front) + [last]
      else ExtraSpaces(lmin, effDim, n, front)
  }

  /** Grids with coefficient zero do not change how often a subspace is counted. */
  lemma {:induction false} ZeroGridsCountNothing(spaces: seq<Level>, coefficients: seq<real>, extra: seq<Level>,
                                                 k: Level)
    requires |spaces| == |coefficients|
    ensures TimesCounted(spaces + extra, coefficients + seq(|extra|, i => 0.0), k)
            == TimesCounted(spaces, coefficients, k)
  {
    if extra == [] {
      assert spaces + extra == spaces && coefficients + seq(0, i => 0.0) == coefficients;
    } else {
      var front, last := extra[..|extra| - 1], extra[|extra| - 1];
      var zeros := seq(|front|, i => 0.0);
      ZeroGridsCountNothing(spaces, coefficients, front, k);
      assert seq(|front|, i => 0.0) == zeros;
      assert spaces + extra == (spaces + front) + [last];
      assert coefficients + seq(|extra|, i => 0.0) == (coefficients + zeros) + [0.0];
      AppendedCount(spaces + front, coefficients + zeros, last, 0.0, k);
    }
  }

  lemma {:induction false} CountOfUpdate(grids: seq<Level>, c: seq<real>, i: nat, x: real, k: Level)
    requires |grids| == |c| && i < |grids|
    ensures TimesCounted(grids, c[i := x], k) == TimesCounted(grids, c, k) + if Leq(k, grids[i]) then x - c[i] else 0.0
  {
    var n := |grids| - 1;
    assert c[i := x][..n] == if i == n then c[..n] else c[..n][i := x];
    if i < n {
      CountOfUpdate(grids[..n], c[..n], i, x, k);
    }
  }

  /** Number of dimensions with different minimal and maximal level. */
  function EffectiveDim(lmin: Level, lmax: Level): (d: nat)
    requires |lmin| == |lmax|
    ensures d <= |lmin|
  {
    if lmin == [] then 0
    else
      var n := |lmin| - 1;
      EffectiveDim(lmin[..n], lmax[..n]) + if lmax[n] - lmin[n] == 0 then 0 else 1
  }

  /** What the adaptive construction makes of its minimal and maximal levels. */
  ghost predicate IsAdaptiveScheme(lmin: Level, lmax: Level, n: int, levels: seq<Level>, combiSpaces: seq<Level>,
                                   coefficients: seq<real>) {
    && ListsLevels(levels, lmax, n - LevelSum(lmin))
    && combiSpaces == KeptSpaces(Elements(Selected(lmin, n, levels)), Selected(lmin, n, levels))
    && coefficients == KeptCoefficients(Elements(Selected(lmin, n, levels)), Selected(lmin, n, levels))
  }

  lemma AdaptiveCounts(lmin: Level, lmax: Level, n: int, levels: seq<Level>, combiSpaces: seq<Level>,
                       coefficients: seq<real>)
    requires |lmin| == |lmax| && IsAdaptiveScheme(lmin, lmax, n, levels, combiSpaces, coefficients)
    requires forall i :: 0 <= i < |lmin| ==> lmin[i] > 0
    ensures CountsEachOnce(lmin, lmax, n, combiSpaces, coefficients)
  {
    SelectionIsScheme(lmin, lmax, n, levels);
    SchemeCounts(lmin, lmax, n, Selected(lmin, n, levels));
  }

  class CombiMinMaxScheme {
    const dim: nat
    const effDim: nat
    const lmin: Level
    const lmax: Level
    var n: int
    var levels: seq<Level>
    var combiSpaces: seq<Level>
    var coefficients: seq<real>

    constructor (dim: nat, lmin: Level, lmax: Level)
      requires |lmin| == |lmax|
      ensures this.dim == dim && this.lmin == lmin && this.lmax == lmax && effDim == EffectiveDim(lmin, lmax)
      ensures levels == [] && combiSpaces == [] && coefficients == []
    {
      this.dim, this.lmin, this.lmax, this.effDim := dim, lmin, lmax, EffectiveDim(lmin, lmax);
      n, levels, combiSpaces, coefficients := 0, [], [], [];
    }

    method ComputeCombiCoeffsAdaptive()
      requires dim > 0 && Ascending(combiSpaces) && ArePositive(combiSpaces, dim) && coefficients == []
      modifies this`combiSpaces, this`coefficients
      ensures combiSpaces == KeptSpaces(Elements(old(combiSpaces)), old(combiSpaces))
      ensures coefficients == KeptCoefficients(Elements(old(combiSpaces)), old(combiSpaces))
    {
      ghost var all := combiSpaces;
      var i := 0;
      while i < |combiSpaces|
        invariant 0 <= i == |coefficients| <= |all| && ZeroedUpTo(all, combiSpaces, dim, i)
        invariant CoefficientsOf(all, all, coefficients)
      {
        OverwritingIsHarmless(all, combiSpaces, dim, i);
        var coeff := NeighbourSum(combiSpaces, combiSpaces[i]);
        NextIsProcessed(all, combiSpaces, coefficients, dim, i, coeff);
        if coeff == 0.0 {
          combiSpaces := combiSpaces[i := Zeros(dim)];
        }
        coefficients := coefficients + [coeff];
        i := i + 1;
      }
      ErasingKeepsPairs(all, all, combiSpaces, coefficients, dim);
      combiSpaces := Without(combiSpaces, Zeros(dim));
      coefficients := Without(coefficients, 0.0);
    }

    method SelectCombiSpaces()
      requires combiSpaces == []
      modifies this`combiSpaces
      ensures combiSpaces == Selected(lmin, n, levels)
    {
      for i := 0 to |levels|
        invariant combiSpaces == Selected(lmin, n, levels[..i])
        modifies this`combiSpaces
      {
        if Leq(lmin, levels[i]) && LevelSum(levels[i]) <= n {
          combiSpaces := combiSpaces + [levels[i]];
        }
        assert levels[..i + 1][..i] == levels[..i];
      }
      assert levels[..|levels|] == levels;
    }

    method WeighCombiSpaces()
      requires dim > 0 && |lmin| == |lmax| == dim && forall i :: 0 <= i < dim ==> lmin[i] > 0
      requires ListsLevels(levels, lmax, n - LevelSum(lmin)) && combiSpaces == [] && coefficients == []
      modifies this`combiSpaces, this`coefficients
      ensures IsAdaptiveScheme(lmin, lmax, n, levels, combiSpaces, coefficients)
    {
      hide ListsLevels, Ascending, ArePositive, Selected, KeptSpaces, KeptCoefficients;
      SelectCombiSpaces();
      SelectionIsScheme(lmin, lmax, n, levels);
      ComputeCombiCoeffsAdaptive();
    }

    /** The scheme counts every subspace below one of its admissible levels exactly once.  Without any
        level the original throws. */
    method CreateAdaptiveCombischeme() returns (ok: bool)
      requires dim > 0 && |lmin| == |lmax| == dim && Leq(lmin, lmax) && forall i :: 0 <= i < dim ==> lmin[i] > 0
      requires levels == [] && combiSpaces == [] && coefficients == []
      modifies this
      ensures IsMaximum(Minus(lmax, lmin), n - LevelSum(lmin))
      ensures ok <==> levels != []
      ensures IsAdaptiveScheme(lmin, lmax, n, levels, combiSpaces, coefficients)
      ensures CountsEachOnce(lmin, lmax, n, combiSpaces, coefficients)
    {
      var lm := FurthestCorner(lmax, lmin);
      n := LevelSum(lm);
      ghost var c := n - LevelSum(lmin);
      var created, diff := CreateTruncatedHierarchicalLevels(lmax, Lowered(lmax, n - LevelSum(lmin)));
      LoweredTwice(lmax, c, diff);
      levels := created;
      WeighCombiSpaces();
      AdaptiveCounts(lmin, lmax, n, levels, combiSpaces, coefficients);
      ok := levels != [];
    }

    /** Adds the grids of two more diagonals with coefficient zero, to be used in case of faults. */
    method MakeFaultTolerant()
      requires |combiSpaces| == |coefficients|
      modifies this`combiSpaces, this`coefficients
      ensures lmin == lmax ==> combiSpaces == old(combiSpaces) && coefficients == old(coefficients)
      ensures lmin != lmax ==> combiSpaces == old(combiSpaces) + ExtraSpaces(lmin, effDim, n, levels)
      ensures lmin != lmax ==> coefficients == old(coefficients) + seq(|ExtraSpaces(lmin, effDim, n, levels)|, i => 0.0)
    {
      if lmin == lmax {
        return;
      }
      ghost var spaces, weights := combiSpaces, coefficients;
      for i := 0 to |levels|
        modifies this`combiSpaces, this`coefficients
        invariant combiSpaces == spaces + ExtraSpaces(lmin, effDim, n, levels[..i])
        invariant coefficients == weights + seq(|ExtraSpaces(lmin, effDim, n, levels[..i])|, j => 0.0)
      {
        AddOnDiagonals(levels[i]);
        assert levels[..i + 1][..i] == levels[..i];
      }
      assert levels[..|levels|] == levels;
    }

    /** Adds l if it lies on one of the two extra diagonals. */
    method AddOnDiagonals(l: Level)
      modifies this`combiSpaces, this`coefficients
      ensures var added := if Leq(lmin, l) && n - effDim - 2 < LevelSum(l) <= n - effDim then [l] else [];
              combiSpaces == old(combiSpaces) + added && coefficients == old(coefficients) + seq(|added|, i => 0.0)
    {
      ghost var spaces, weights := combiSpaces, coefficients;
      for p := effDim to effDim + 2
        modifies this`combiSpaces, this`coefficients
        invariant var added := if Leq(lmin, l) && n - p < LevelSum(l) <= n - effDim then [l] else [];
                  combiSpaces == spaces + added && coefficients == weights + seq(|added|, i => 0.0)
      {
        if Leq(lmin, l) && LevelSum(l) == n - p {
          combiSpaces := combiSpaces + [l];
          coefficients := coefficients + [0.0];
        }
      }
    }

    /** Regenerates the levels from the grids with coefficient one. */
    method CreateDownSet()
      requires |combiSpaces| == |coefficients| && forall l :: l in combiSpaces ==> |l| == dim
      modifies this`levels
      ensures Sorted(levels)
      ensures forall k :: k in levels <==> InFront(combiSpaces, coefficients, |combiSpaces|, k)
    {
      levels := DownSetOfFront(combiSpaces, coefficients, dim);
    }
  }
}
