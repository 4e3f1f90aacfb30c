/** The classical scheme as it is built from minimal and maximal levels, and that it is the adaptive
    scheme. */
module ClassicalScheme {
  import opened FiniteSums
  import opened LevelSets
  import opened LevelGeneration
  import opened LevelDictionary
  import opened CombiScheme
  import opened DummyDimensions
  import opened ClassicalCoefficients

  /** The levels on the finest dim diagonals above lmin. */
  function OnDiagonals(lmin: Level, dim: nat, n: int, levels: seq<Level>): seq<Level> {
    if levels == [] then []
    else
      var front, last := levels[..|levels| - 1], levels[|levels| - 1];
      if Leq(lmin, last) && n - dim < LevelSum(last) <= n then OnDiagonals(lmin, dim, n, front) + [last]
      else OnDiagonals(lmin, dim, n, front)
  }

  function ClassicalOf(dim: nat, n: int, spaces: seq<Level>): (r: seq<real>)
    requires dim > 0
    ensures |r| == |spaces|
  {
    seq(|spaces|, i requires 0 <= i < |spaces| => ClassicalCoefficient(dim, n - LevelSum(spaces[i])))
  }

  ghost predicate IsSimplex(s: set<Level>, lmin: Level, n: int) {
    forall l :: l in s <==> Leq(lmin, l) && LevelSum(l) <= n
  }

  lemma CoefficientOnSimplex(s: set<Level>, lmin: Level, n: int, l: Level)
    requires lmin != [] && l in s && IsSimplex(s, lmin, n)
    ensures Coefficient(s, One(), l) == ClassicalCoefficient(|lmin|, n - LevelSum(l))
    ensures Coefficient(s, One(), l) != 0.0 <==> n - |lmin| < LevelSum(l)
  {
    AdaptiveIsClassical(s, lmin, n, l);
    BinomialIsPositive(|lmin| - 1, n - LevelSum(l));
  }

  /** Dropping the grids with coefficient zero leaves the finest diagonals. */
  lemma {:induction false} KeptIsClassical(s: set<Level>, lmin: Level, n: int, levels: seq<Level>)
    requires lmin != [] && IsSimplex(s, lmin, n)
    ensures KeptSpaces(s, Selected(lmin, n, levels)) == OnDiagonals(lmin, |lmin|, n, levels)
    ensures KeptCoefficients(s, Selected(lmin, n, levels))
            == ClassicalOf(|lmin|, n, OnDiagonals(lmin, |lmin|, n, levels))
  {
    hide Coefficient, ClassicalCoefficient, LevelSum, Leq;
    if levels != [] {
      var front, last := levels[..|levels| - 1], levels[|levels| - 1];
      KeptIsClassical(s, lmin, n, front);
      if Leq(lmin, last) && LevelSum(last) <= n {
        CoefficientOnSimplex(s, lmin, n, last);
        assert (Selected(lmin, n, front) + [last])[..|Selected(lmin, n, front)|] == Selected(lmin, n, front);
      }
    }
  }

  /** If all dimensions have the same level difference, the levels of the scheme are a simplex. */
  lemma SchemeIsSimplex(lmin: Level, lmax: Level, n: int, l: Level)
    requires |lmin| == |lmax| && n >= LevelSum(lmin) && lmin == Lowered(lmax, n - LevelSum(lmin))
    requires forall i :: 0 <= i < |lmin| ==> lmin[i] > 0
    ensures InScheme(lmin, lmax, n, l) <==> Leq(lmin, l) && LevelSum(l) <= n
  {
    var c := n - LevelSum(lmin);
    if Leq(lmin, l) && LevelSum(l) <= n {
      var rise := Minus(l, lmin);
      SumOfDifference(l, lmin);
      forall i | 0 <= i < |l|
        ensures 1 <= l[i] <= lmax[i]
      {
        EntryBound(rise, i);
      }
      forall mask: Mask | |mask| == |l|
        ensures BelowHyperplane(l, lmin, c, mask)
      {
        PartSumOfDifference(l, lmin, mask);
        PartSumBound(rise, mask);
      }
    }
  }

  lemma {:induction false} EntryBound(l: Level, i: nat)
    requires i < |l| && forall j :: 0 <= j < |l| ==> l[j] >= 0
    ensures l[i] <= LevelSum(l)
  {
    if i < |l| - 1 {
      EntryBound(l[..|l| - 1], i);
    } else {
      NaturalSum(l[..i]);
    }
  }

  lemma {:induction false} NaturalSum(l: Level)
    requires forall j :: 0 <= j < |l| ==> l[j] >= 0
    ensures LevelSum(l) >= 0
  {
    if l != [] {
      NaturalSum(l[..|l| - 1]);
    }
  }

  lemma {:induction false} PartSumOfDifference(a: Level, b: Level, mask: Mask)
    requires |a| == |b| == |mask|
    ensures PartSum(Minus(a, b), mask) == PartSum(a, mask) - PartSum(b, mask)
  {
    if a != [] {
      var n := |a| - 1;
      PartSumOfDifference(a[..n], b[..n], mask[..n]);
      assert Minus(a, b)[..n] == Minus(a[..n], b[..n]);
    }
  }

  /** What the classical construction makes of different minimal and maximal levels. */
  ghost predicate IsClassicalScheme(lmin: Level, lmax: Level, n: int, levels: seq<Level>, combiSpaces: seq<Level>,
                                    coefficients: seq<real>)
    requires lmin != []
  {
    && ListsLevels(levels, lmax, n - LevelSum(lmin))
    && combiSpaces == OnDiagonals(lmin, |lmin|, n, levels)
    && coefficients == ClassicalOf(|lmin|, n, combiSpaces)
  }

  /** What the classical construction makes of the dimensions that are no dummies: minimal level low, levels eff. */
  datatype Effective = Effective(low: Level, n: int, levels: seq<Level>) {
    function Spaces(): seq<Level> {
      OnDiagonals(low, |low|, n, levels)
    }
  }

  ghost predicate IsEffectiveScheme(given: Level, lmax: Level, coefficients: seq<real>, eff: Effective)
    requires |given| == |lmax|
  {
    var hi, c := Rest(given, lmax, lmax), eff.n - LevelSum(eff.low);
    && eff.low != [] && IsMinimum(Minus(hi, Rest(given, lmax, given)), c) && eff.low == Lowered(hi, c)
    && IsClassicalScheme(eff.low, hi, eff.n, eff.levels, eff.Spaces(), coefficients)
  }

  /** All levels and grids are those of the scheme without dummy dimensions, embedded. */
  ghost predicate IsEmbeddedScheme(given: Level, low: Level, lmax: Level, n: int, levels: seq<Level>,
                                   combiSpaces: seq<Level>, eff: Effective)
    requires |given| == |lmax|
  {
    && low == Embedded(given, lmax, eff.low) && n == eff.n + LevelSum(Fill(given, lmax))
    && levels == EmbeddedAll(given, lmax, eff.levels) && combiSpaces == EmbeddedAll(given, lmax, eff.Spaces())
  }

  /** What it makes of the minimal level that it is given; afterwards the minimal level is low. */
  ghost predicate IsClassicalResult(given: Level, low: Level, lmax: Level, n: int, levels: seq<Level>,
                                    combiSpaces: seq<Level>, coefficients: seq<real>, eff: Effective)
    requires |given| == |lmax|
  {
    if given == lmax then low == lmax && levels == [lmax] && combiSpaces == [] && coefficients == [1.0]
    else IsEffectiveScheme(given, lmax, coefficients, eff)
         && IsEmbeddedScheme(given, low, lmax, n, levels, combiSpaces, eff)
  }

  /** The scheme has as many grids as coefficients if and only if the two levels differ; for equal ones it has a
      coefficient but no grid. */
  lemma EqualLevelsHaveNoGrid(given: Level, low: Level, lmax: Level, n: int, levels: seq<Level>,
                              combiSpaces: seq<Level>, coefficients: seq<real>, eff: Effective)
    requires |given| == |lmax| && IsClassicalResult(given, low, lmax, n, levels, combiSpaces, coefficients, eff)
    ensures |combiSpaces| == |coefficients| <==> given != lmax
  {
  }

  lemma {:induction false} DiagonalsOfEmbedded(given: Level, lmax: Level, low: Level, d: nat, n: int, list: seq<Level>)
    requires |given| == |lmax| && |low| == EffectiveDim(given, lmax) && AllEffective(given, lmax, list)
    ensures OnDiagonals(Embedded(given, lmax, low), d, n + LevelSum(Fill(given, lmax)), EmbeddedAll(given, lmax, list))
            == EmbeddedAll(given, lmax, OnDiagonals(low, d, n, list))
    ensures AllEffective(given, lmax, OnDiagonals(low, d, n, list))
  {
    hide Embedded, EffectiveDim, Leq;
    if list != [] {
      var m := |list| - 1;
      DiagonalsOfEmbedded(given, lmax, low, d, n, list[..m]);
      assert EmbeddedAll(given, lmax, list)[..m] == EmbeddedAll(given, lmax, list[..m]);
      EmbeddedOrder(given, lmax, low, list[m]);
      EmbeddedOrder(given, lmax, list[m], low);
    }
  }

  lemma ClassicalOfEmbedded(given: Level, lmax: Level, d: nat, n: int, list: seq<Level>)
    requires |given| == |lmax| && d > 0 && AllEffective(given, lmax, list)
    ensures ClassicalOf(d, n + LevelSum(Fill(given, lmax)), EmbeddedAll(given, lmax, list)) == ClassicalOf(d, n, list)
  {
    hide Embedded, EffectiveDim, ClassicalCoefficient;
    forall i | 0 <= i < |list|
      ensures LevelSum(Embedded(given, lmax, list[i])) == LevelSum(list[i]) + LevelSum(Fill(given, lmax))
    {
      EmbeddedOrder(given, lmax, list[i], list[i]);
    }
  }

  class ClassicalMinMaxScheme {
    const dim: nat
    const effDim: nat
    var lmin: Level
    const lmax: Level
    var n: int
    var levels: seq<Level>
    var combiSpaces: seq<Level>
    var coefficients: seq<real>

    constructor (dim: nat, lmin: Level, lmax: Level)
      requires |lmin| == |lmax|
      ensures this.dim == dim && this.lmin == lmin && this.lmax == lmax && effDim == EffectiveDim(lmin, lmax)
      ensures levels == [] && combiSpaces == [] && coefficients == []
    {
      this.dim, this.lmin, this.lmax, this.effDim := dim, lmin, lmax, EffectiveDim(lmin, lmax);
      n, levels, combiSpaces, coefficients := 0, [], [], [];
    }

    method ComputeCombiCoeffsClassical()
      requires effDim > 0 && coefficients == []
      modifies this`coefficients
      ensures coefficients == ClassicalOf(effDim, n, combiSpaces)
    {
      for i := 0 to |combiSpaces|
        modifies this`coefficients
        invariant coefficients == ClassicalOf(effDim, n, combiSpaces)[..i]
      {
        coefficients := coefficients + [ClassicalCoefficient(effDim, n - LevelSum(combiSpaces[i]))];
      }
    }

    method SelectDiagonals()
      requires combiSpaces == []
      modifies this`combiSpaces
      ensures combiSpaces == OnDiagonals(lmin, effDim, n, levels)
    {
      for i := 0 to |levels|
        modifies this`combiSpaces
        invariant combiSpaces == OnDiagonals(lmin, effDim, n, levels[..i])
      {
        ghost var before := combiSpaces;
        for p := 0 to effDim
          modifies this`combiSpaces
          invariant combiSpaces == if Leq(lmin, levels[i]) && n - p < LevelSum(levels[i]) <= n then before + [levels[i]]
                    else before
        {
          if Leq(lmin, levels[i]) && LevelSum(levels[i]) == n - p {
            combiSpaces := combiSpaces + [levels[i]];
          }
        }
        assert levels[..i + 1][..i] == levels[..i];
      }
      assert levels[..|levels|] == levels;
    }

    /** The grids of the effective scheme, embedded, once the levels and the minimal level are. */
    method WeighDiagonals(ghost given: Level, ghost eff: Effective)
      requires |given| == |lmax| && effDim == EffectiveDim(given, lmax) == |eff.low| > 0 && combiSpaces == []
               && coefficients == []
      requires AllEffective(given, lmax, eff.levels)
               && ListsLevels(eff.levels, Rest(given, lmax, lmax), eff.n - LevelSum(eff.low))
      requires lmin == Embedded(given, lmax, eff.low) && n == eff.n + LevelSum(Fill(given, lmax))
               && levels == EmbeddedAll(given, lmax, eff.levels)
      modifies this`combiSpaces, this`coefficients
      ensures IsClassicalScheme(eff.low, Rest(given, lmax, lmax), eff.n, eff.levels, eff.Spaces(), coefficients)
      ensures IsEmbeddedScheme(given, lmin, lmax, n, levels, combiSpaces, eff)
    {
      hide Embedded, EffectiveDim, Rest, Fill, ListsLevels, ClassicalCoefficient;
      SelectDiagonals();
      ComputeCombiCoeffsClassical();
      DiagonalsOfEmbedded(given, lmax, eff.low, effDim, eff.n, eff.levels);
      ClassicalOfEmbedded(given, lmax, effDim, eff.n, eff.Spaces());
    }

    method CreateClassicalCombischeme() returns (ghost eff: Effective)
      requires dim > 0 && |lmin| == |lmax| == dim && effDim == EffectiveDim(lmin, lmax)
      requires Leq(lmin, lmax) && levels == [] && combiSpaces == [] && coefficients == []
      modifies this
      ensures IsClassicalResult(old(lmin), lmin, lmax, n, levels, combiSpaces, coefficients, eff)
    {
      hide EffectiveDim, Rest, Embedded, ListsLevels, Fill;
      ghost var given := lmin;
      var lmaxtmp, lmintmp, dummyDims := RemoveDummyDims(lmin, lmax);
      EqualMeansDummies(lmin, lmax);
      eff := Effective([], 0, []);
      if lmintmp == [] {
        levels := [lmin];
        coefficients := [1.0];
        return;
      }
      var c := MinElement(Minus(lmaxtmp, lmintmp));
      RestIsMonotone(lmin, lmax, lmin, lmax);
      var created, diff := CreateTruncatedHierarchicalLevels(lmaxtmp, lmintmp);
      assert diff == c;
      eff := Effective(Lowered(lmaxtmp, c), LevelSum(Lowered(lmaxtmp, c)) + c, created);
      ListedAreEffective(given, lmax, created, c);
      RestOfLowered(lmin, lmax, lmax, c);
      EmbeddedOrder(lmin, lmax, eff.low, eff.low);
      levels, lmin := InsertDummyDims(lmin, lmax, Lowered(lmax, c), created, dummyDims);
      n := LevelSum(lmin) + c;
      WeighDiagonals(given, eff);
    }
  }

  lemma ListedAreEffective(given: Level, lmax: Level, list: seq<Level>, c: int)
    requires |given| == |lmax| && ListsLevels(list, Rest(given, lmax, lmax), c)
    ensures AllEffective(given, lmax, list)
  {
    forall i | 0 <= i < |list|
      ensures |list[i]| == EffectiveDim(given, lmax)
    {
      assert list[i] in list;
    }
  }

  /** The classical scheme is what the adaptive construction makes of the same levels, so it counts
      every subspace once as well. */
  lemma ClassicalIsAdaptive(lmin: Level, lmax: Level, n: int, levels: seq<Level>, combiSpaces: seq<Level>,
                            coefficients: seq<real>)
    requires lmin != [] && |lmin| == |lmax| && forall i :: 0 <= i < |lmin| ==> lmin[i] > 0
    requires n >= LevelSum(lmin) && lmin == Lowered(lmax, n - LevelSum(lmin))
    requires IsClassicalScheme(lmin, lmax, n, levels, combiSpaces, coefficients)
    ensures combiSpaces == KeptSpaces(Elements(Selected(lmin, n, levels)), Selected(lmin, n, levels))
    ensures coefficients == KeptCoefficients(Elements(Selected(lmin, n, levels)), Selected(lmin, n, levels))
    ensures CountsEachOnce(lmin, lmax, n, combiSpaces, coefficients)
  {
    var all := Selected(lmin, n, levels);
    SelectionIsScheme(lmin, lmax, n, levels);
    SelectionIsSimplex(lmin, lmax, n, all);
    KeptIsClassical(Elements(all), lmin, n, levels);
    SchemeCounts(lmin, lmax, n, all);
  }

  /** If all dimensions have the same level difference, the two constructions return the same scheme. */
  lemma SchemesAgree(lmin: Level, lmax: Level, c: nat, n: int, levels: seq<Level>, combiSpaces: seq<Level>,
                     coefficients: seq<real>, low: Level, m: int, levels2: seq<Level>, combiSpaces2: seq<Level>,
                     coefficients2: seq<real>, eff: Effective)
    requires lmin != [] && |lmin| == |lmax| && c > 0 && lmin == Lowered(lmax, c)
             && forall i :: 0 <= i < |lmin| ==> lmin[i] > 0
    requires IsMaximum(Minus(lmax, lmin), n - LevelSum(lmin))
             && IsAdaptiveScheme(lmin, lmax, n, levels, combiSpaces, coefficients)
    requires IsClassicalResult(lmin, low, lmax, m, levels2, combiSpaces2, coefficients2, eff)
    ensures low == lmin && m == n && levels2 == levels && combiSpaces2 == combiSpaces && coefficients2 == coefficients
    ensures n == LevelSum(lmin) + c
  {
    hide KeptSpaces, KeptCoefficients, Selected, OnDiagonals, ClassicalOf, IsClassicalResult, LevelSum, Coefficient,
      InScheme, IsLevel;
    DifferenceIs(lmin, lmax, c);
    assert lmin[0] != lmax[0];
    WithoutDummies(lmin, lmax, low, m, levels2, combiSpaces2, coefficients2, eff);
    assert low == Lowered(lmax, c);
    SortedAreEqual(levels, levels2);
    ClassicalIsAdaptive(lmin, lmax, n, levels, combiSpaces2, coefficients2);
  }

  lemma EffectiveOf(given: Level, lmax: Level, coefficients: seq<real>, eff: Effective)
    requires |given| == |lmax| && IsEffectiveScheme(given, lmax, coefficients, eff)
    ensures var hi, c := Rest(given, lmax, lmax), eff.n - LevelSum(eff.low);
            && IsMinimum(Minus(hi, Rest(given, lmax, given)), c) && eff.low == Lowered(hi, c) && eff.low != []
            && IsClassicalScheme(eff.low, hi, eff.n, eff.levels, eff.Spaces(), coefficients)
  {
  }

  /** Without dummy dimensions nothing is embedded. */
  lemma WithoutDummies(given: Level, lmax: Level, low: Level, n: int, levels: seq<Level>, combiSpaces: seq<Level>,
                       coefficients: seq<real>, eff: Effective)
    requires |given| == |lmax| > 0 && forall i :: 0 <= i < |given| ==> given[i] != lmax[i]
    requires IsClassicalResult(given, low, lmax, n, levels, combiSpaces, coefficients, eff)
    ensures |low| == |lmax| && IsMinimum(Minus(lmax, given), n - LevelSum(low))
            && low == Lowered(lmax, n - LevelSum(low))
    ensures IsClassicalScheme(low, lmax, n, levels, combiSpaces, coefficients)
  {
    hide Rest, Embedded, Dummies, OnDiagonals, ClassicalOf, EffectiveDim, ListsLevels, EmbeddedAll, AllEffective, Fill,
      IsEffectiveScheme;
    assert given[0] != lmax[0];
    ResultIsEmbedded(given, low, lmax, n, levels, combiSpaces, coefficients, eff);
    EffectiveOf(given, lmax, coefficients, eff);
    NoDummies(given, lmax, given);
    NoDummies(given, lmax, lmax);
    NoDummies(given, lmax, eff.low);
    SpacesAreEffective(given, lmax, eff, coefficients);
    NothingIsEmbedded(given, lmax, eff.levels);
    NothingIsEmbedded(given, lmax, eff.Spaces());
  }

  lemma NothingIsEmbedded(given: Level, lmax: Level, list: seq<Level>)
    requires |given| == |lmax| && (forall i :: 0 <= i < |given| ==> given[i] != lmax[i])
             && AllEffective(given, lmax, list)
    ensures EmbeddedAll(given, lmax, list) == list
  {
    hide Embedded, Rest, Dummies, EffectiveDim;
    NoDummies(given, lmax, given);
    forall i | 0 <= i < |list|
      ensures Embedded(given, lmax, list[i]) == list[i]
    {
      NoDummies(given, lmax, list[i]);
    }
  }

  lemma DifferenceIs(lmin: Level, lmax: Level, c: int)
    requires |lmin| == |lmax| > 0 && lmin == Lowered(lmax, c)
    ensures forall n :: IsMaximum(Minus(lmax, lmin), n) || IsMinimum(Minus(lmax, lmin), n) ==> n == c
  {
    assert forall i :: 0 <= i < |lmin| ==> Minus(lmax, lmin)[i] == c;
  }

  lemma SelectionIsSimplex(lmin: Level, lmax: Level, n: int, all: seq<Level>)
    requires |lmin| == |lmax| && n >= LevelSum(lmin) && lmin == Lowered(lmax, n - LevelSum(lmin))
    requires (forall i :: 0 <= i < |lmin| ==> lmin[i] > 0) && forall l :: l in all <==> InScheme(lmin, lmax, n, l)
    ensures IsSimplex(Elements(all), lmin, n)
  {
    forall l
      ensures l in Elements(all) <==> Leq(lmin, l) && LevelSum(l) <= n
    {
      SchemeIsSimplex(lmin, lmax, n, l);
      assert l in all <==> InScheme(lmin, lmax, n, l);
    }
  }

  /** An embedded grid contains a subspace if the grid contains its other entries, and the dummy entries are low
      enough. */
  lemma ContainedInEmbedded(given: Level, lmax: Level, k: Level, e: Level)
    requires |given| == |lmax| == |k| && |e| == EffectiveDim(given, lmax)
    ensures Leq(k, Embedded(given, lmax, e))
            <==> Leq(Rest(given, lmax, k), e) && DummiesBelow(given, lmax, k, Fill(given, lmax))
  {
    LeqOfFilled(given, lmax, k, e, Fill(given, lmax));
  }

  lemma {:induction false} CountOfEmbedded(given: Level, lmax: Level, list: seq<Level>, c: seq<real>, k: Level)
    requires |given| == |lmax| == |k| && |list| == |c| && AllEffective(given, lmax, list)
    ensures TimesCounted(EmbeddedAll(given, lmax, list), c, k)
            == if DummiesBelow(given, lmax, k, Fill(given, lmax)) then TimesCounted(list, c, Rest(given, lmax, k))
              else 0.0
  {
    hide Embedded, Rest, DummiesBelow, EffectiveDim, Leq, Fill;
    if list != [] {
      var m := |list| - 1;
      assert EmbeddedAll(given, lmax, list)[..m] == EmbeddedAll(given, lmax, list[..m]);
      CountOfEmbedded(given, lmax, list[..m], c[..m], k);
      ContainedInEmbedded(given, lmax, k, list[m]);
    }
  }

  /** Some level of the scheme contains subspace k. */
  ghost predicate IsBelowScheme(low: Level, n: int, levels: seq<Level>, k: Level) {
    exists l :: l in levels && Leq(low, l) && LevelSum(l) <= n && Leq(k, l)
  }

  ghost predicate IsBelowEffective(eff: Effective, hi: Level, k: Level) {
    exists e :: InScheme(eff.low, hi, eff.n, e) && Leq(k, e)
  }

  lemma ListedInScheme(low: Level, hi: Level, n: int, list: seq<Level>, e: Level)
    requires ListsLevels(list, hi, n - LevelSum(low))
    ensures e in list ==> |e| == |hi| && (InScheme(low, hi, n, e) <==> Leq(low, e) && LevelSum(e) <= n)
    ensures InScheme(low, hi, n, e) ==> e in list
  {
    hide Leq, LevelSum, BelowAllHyperplanes, Lowered;
  }

  /** The levels of the scheme are the embedded ones. */
  lemma EmbeddedInScheme(given: Level, lmax: Level, eff: Effective, coefficients: seq<real>, e: Level)
    requires |given| == |lmax| && IsEffectiveScheme(given, lmax, coefficients, eff) && e in eff.levels
    ensures |e| == |eff.low| == EffectiveDim(given, lmax)
    ensures var l := Embedded(given, lmax, e);
            Leq(Embedded(given, lmax, eff.low), l) && LevelSum(l) <= eff.n + LevelSum(Fill(given, lmax))
            <==> InScheme(eff.low, Rest(given, lmax, lmax), eff.n, e)
  {
    hide Embedded, Rest, EffectiveDim, Leq, Fill, OnDiagonals, ClassicalOf, ListsLevels, InScheme, LevelSum;
    ListedInScheme(eff.low, Rest(given, lmax, lmax), eff.n, eff.levels, e);
    EmbeddedOrder(given, lmax, eff.low, e);
    EmbeddedOrder(given, lmax, e, eff.low);
  }

  lemma EmbeddedIsMember(given: Level, lmax: Level, list: seq<Level>, e: Level)
    requires |given| == |lmax| && e in list
    ensures Embedded(given, lmax, e) in EmbeddedAll(given, lmax, list)
  {
    hide Embedded;
    var i :| 0 <= i < |list| && list[i] == e;
    assert EmbeddedAll(given, lmax, list)[i] == Embedded(given, lmax, e);
  }

  lemma BelowLevel(low: Level, n: int, levels: seq<Level>, k: Level, l: Level)
    requires l in levels && Leq(low, l) && LevelSum(l) <= n && Leq(k, l)
    ensures IsBelowScheme(low, n, levels, k)
  {
  }

  lemma EmbeddedIsBelow(given: Level, lmax: Level, eff: Effective, coefficients: seq<real>, k: Level, e: Level)
    requires |given| == |lmax| == |k| && IsEffectiveScheme(given, lmax, coefficients, eff) && e in eff.levels
    requires InScheme(eff.low, Rest(given, lmax, lmax), eff.n, e) && Leq(Rest(given, lmax, k), e)
             && DummiesBelow(given, lmax, k, Fill(given, lmax))
    ensures IsBelowScheme(Embedded(given, lmax, eff.low), eff.n + LevelSum(Fill(given, lmax)),
                          EmbeddedAll(given, lmax, eff.levels), k)
  {
    hide *;
    EmbeddedInScheme(given, lmax, eff, coefficients, e);
    ContainedInEmbedded(given, lmax, k, e);
    EmbeddedIsMember(given, lmax, eff.levels, e);
    BelowLevel(Embedded(given, lmax, eff.low), eff.n + LevelSum(Fill(given, lmax)),
               EmbeddedAll(given, lmax, eff.levels), k, Embedded(given, lmax, e));
  }

  lemma BelowEmbedded(given: Level, lmax: Level, eff: Effective, coefficients: seq<real>, k: Level)
    requires |given| == |lmax| == |k| && IsEffectiveScheme(given, lmax, coefficients, eff)
    ensures IsBelowScheme(Embedded(given, lmax, eff.low), eff.n + LevelSum(Fill(given, lmax)),
                          EmbeddedAll(given, lmax, eff.levels), k)
            <==> DummiesBelow(given, lmax, k, Fill(given, lmax))
                 && IsBelowEffective(eff, Rest(given, lmax, lmax), Rest(given, lmax, k))
  {
    hide Embedded, Rest, DummiesBelow, EffectiveDim, Fill, IsEffectiveScheme, InScheme, Leq, LevelSum;
    var all, low, n, hi := EmbeddedAll(given, lmax, eff.levels), Embedded(given, lmax, eff.low),
      eff.n + LevelSum(Fill(given, lmax)), Rest(given, lmax, lmax);
    if IsBelowScheme(low, n, all, k) {
      var l :| l in all && Leq(low, l) && LevelSum(l) <= n && Leq(k, l);
      var i :| 0 <= i < |all| && all[i] == l;
      EmbeddedInScheme(given, lmax, eff, coefficients, eff.levels[i]);
      ContainedInEmbedded(given, lmax, k, eff.levels[i]);
    }
    if DummiesBelow(given, lmax, k, Fill(given, lmax)) && IsBelowEffective(eff, hi, Rest(given, lmax, k)) {
      var e :| InScheme(eff.low, hi, eff.n, e) && Leq(Rest(given, lmax, k), e);
      SchemeIsListed(given, lmax, eff, coefficients, e);
      EmbeddedIsBelow(given, lmax, eff, coefficients, k, e);
    }
  }

  lemma SchemeIsListed(given: Level, lmax: Level, eff: Effective, coefficients: seq<real>, e: Level)
    requires |given| == |lmax| && IsEffectiveScheme(given, lmax, coefficients, eff)
    requires InScheme(eff.low, Rest(given, lmax, lmax), eff.n, e)
    ensures e in eff.levels
  {
    hide InScheme, ListsLevels, LevelSum;
    ListedInScheme(eff.low, Rest(given, lmax, lmax), eff.n, eff.levels, e);
  }

  lemma EffectiveIsPositive(given: Level, lmax: Level, c: int)
    requires |given| == |lmax| && (forall i :: 0 <= i < |given| ==> given[i] > 0)
    requires IsMinimum(Minus(Rest(given, lmax, lmax), Rest(given, lmax, given)), c)
    ensures forall i :: 0 <= i < EffectiveDim(given, lmax) ==> Lowered(Rest(given, lmax, lmax), c)[i] > 0
  {
    RestIsPositive(given, lmax, given);
    forall i | 0 <= i < EffectiveDim(given, lmax)
      ensures Lowered(Rest(given, lmax, lmax), c)[i] > 0
    {
      assert c <= Minus(Rest(given, lmax, lmax), Rest(given, lmax, given))[i];
    }
  }

  lemma EffectiveCounts(given: Level, lmax: Level, coefficients: seq<real>, eff: Effective, k: Level)
    requires Leq(given, lmax) && (forall i :: 0 <= i < |given| ==> given[i] > 0)
             && IsEffectiveScheme(given, lmax, coefficients, eff)
    requires |k| == |eff.low|
    ensures |eff.Spaces()| == |coefficients|
    ensures TimesCounted(eff.Spaces(), coefficients, k)
            == if IsBelowEffective(eff, Rest(given, lmax, lmax), k) then 1.0 else 0.0
  {
    hide Rest, EffectiveDim, OnDiagonals, ClassicalOf, InScheme, ListsLevels;
    var hi, c := Rest(given, lmax, lmax), eff.n - LevelSum(eff.low);
    RestIsMonotone(given, lmax, given, lmax);
    assert c in Minus(hi, Rest(given, lmax, given));
    EffectiveIsPositive(given, lmax, c);
    ClassicalIsAdaptive(eff.low, hi, eff.n, eff.levels, eff.Spaces(), coefficients);
  }

  lemma SpacesAreEffective(given: Level, lmax: Level, eff: Effective, coefficients: seq<real>)
    requires |given| == |lmax| && IsEffectiveScheme(given, lmax, coefficients, eff)
    ensures |eff.low| == EffectiveDim(given, lmax) && AllEffective(given, lmax, eff.levels)
            && AllEffective(given, lmax, eff.Spaces())
  {
    hide Rest, EffectiveDim, OnDiagonals, ListsLevels, ClassicalOf, AllEffective, IsMinimum;
    ListedAreEffective(given, lmax, eff.levels, eff.n - LevelSum(eff.low));
    DiagonalsOfEmbedded(given, lmax, eff.low, |eff.low|, eff.n, eff.levels);
  }

  lemma ResultIsEmbedded(given: Level, low: Level, lmax: Level, n: int, levels: seq<Level>, combiSpaces: seq<Level>,
                         coefficients: seq<real>, eff: Effective)
    requires |given| == |lmax| && given != lmax
    requires IsClassicalResult(given, low, lmax, n, levels, combiSpaces, coefficients, eff)
    ensures IsEffectiveScheme(given, lmax, coefficients, eff)
    ensures low == Embedded(given, lmax, eff.low) && n == eff.n + LevelSum(Fill(given, lmax))
    ensures levels == EmbeddedAll(given, lmax, eff.levels) && combiSpaces == EmbeddedAll(given, lmax, eff.Spaces())
  {
  }

  /** With any dummy dimensions, every subspace below some level of the classical scheme is counted once and every
      other one never. */
  lemma ClassicalCounts(given: Level, low: Level, lmax: Level, n: int, levels: seq<Level>, combiSpaces: seq<Level>,
                        coefficients: seq<real>, eff: Effective, k: Level)
    requires |given| == |lmax| == |k| && Leq(given, lmax) && given != lmax
             && forall i :: 0 <= i < |given| ==> given[i] > 0
    requires IsClassicalResult(given, low, lmax, n, levels, combiSpaces, coefficients, eff)
    ensures |combiSpaces| == |coefficients|
    ensures TimesCounted(combiSpaces, coefficients, k) == if IsBelowScheme(low, n, levels, k) then 1.0 else 0.0
  {
    hide *;
    ResultIsEmbedded(given, low, lmax, n, levels, combiSpaces, coefficients, eff);
    SpacesAreEffective(given, lmax, eff, coefficients);
    EffectiveCounts(given, lmax, coefficients, eff, Rest(given, lmax, k));
    CountOfEmbedded(given, lmax, eff.Spaces(), coefficients, k);
    BelowEmbedded(given, lmax, eff, coefficients, k);
  }

  /** The levels of the scheme have the levels of the dummy dimensions if and only if the first entries of the maximal
      level happen to be these. */
  lemma DummyLevelsAreRight(given: Level, low: Level, lmax: Level, n: int, levels: seq<Level>, combiSpaces: seq<Level>,
                            coefficients: seq<real>, eff: Effective)
    requires Leq(given, lmax) && given != lmax && forall i :: 0 <= i < |given| ==> given[i] > 0
    requires IsClassicalResult(given, low, lmax, n, levels, combiSpaces, coefficients, eff)
    ensures (forall l {:trigger l in levels} :: l in levels ==> |l| == |given| && HasDummyLevels(given, lmax, l))
            <==> FillFits(given, lmax)
  {
    hide Embedded, Rest, Dummies, EffectiveDim, HasDummyLevels, IsLevel, LevelSum, FillFits;
    var c := eff.n - LevelSum(eff.low);
    ListedAreEffective(given, lmax, eff.levels, c);
    LowestIsListed(given, lmax, eff);
    forall i | 0 <= i < |eff.levels|
      ensures levels[i] in levels && |levels[i]| == |given|
      ensures HasDummyLevels(given, lmax, levels[i]) <==> FillFits(given, lmax)
    {
      EmbeddedDummies(given, lmax, eff.levels[i]);
    }
    assert levels[0] in levels;
  }

  lemma EmbeddedDummies(given: Level, lmax: Level, e: Level)
    requires |given| == |lmax| && |e| == EffectiveDim(given, lmax)
    ensures |Embedded(given, lmax, e)| == |given|
    ensures HasDummyLevels(given, lmax, Embedded(given, lmax, e)) <==> FillFits(given, lmax)
  {
    FillIsRight(given, lmax, e);
  }

  lemma LowestIsListed(given: Level, lmax: Level, eff: Effective)
    requires Leq(given, lmax) && given != lmax && forall i :: 0 <= i < |given| ==> given[i] > 0
    requires IsMinimum(Minus(Rest(given, lmax, lmax), Rest(given, lmax, given)), eff.n - LevelSum(eff.low))
    requires eff.low == Lowered(Rest(given, lmax, lmax), eff.n - LevelSum(eff.low))
    requires ListsLevels(eff.levels, Rest(given, lmax, lmax), eff.n - LevelSum(eff.low))
    ensures eff.levels != []
  {
    var hi, c := Rest(given, lmax, lmax), eff.n - LevelSum(eff.low);
    RestIsMonotone(given, lmax, given, lmax);
    assert c in Minus(hi, Rest(given, lmax, given)) && c >= 0;
    EffectiveIsPositive(given, lmax, c);
    SchemeIsSimplex(eff.low, hi, eff.n, eff.low);
    assert eff.low in eff.levels;
  }

  /** For lmin (2,2,2) and lmax (4,4,2), the example given in the code, the third dimension gets level 4 instead of
      2. */
  lemma DummyGetsWrongLevel(a: int, b: int)
    ensures Dummies([2, 2, 2], [4, 4, 2]) == [2]
    ensures Embedded([2, 2, 2], [4, 4, 2], [a, b]) == [a, b, 4]
  {
    var lmin, lmax, lmin2, lmax2 := [2, 2, 2], [4, 4, 2], [2, 2], [4, 4];
    assert lmin[..2] == lmin2 && lmax[..2] == lmax2;
    NoDummies(lmin2, lmax2, [a, b]);
    LastDimension(lmin, lmax);
    LastOfFilled(lmin, lmax, [a, b], [4]);
    NothingFilled(lmin2, lmax2, [a, b]);
    assert Fill(lmin, lmax) == [4];
  }

  lemma NothingFilled(lmin: Level, lmax: Level, e: Level)
    requires |lmin| == |lmax| == |e| && forall i :: 0 <= i < |lmin| ==> lmin[i] != lmax[i]
    ensures EffectiveDim(lmin, lmax) == |e| && Dummies(lmin, lmax) == [] && Filled(lmin, lmax, e, []) == e
  {
    NoDummies(lmin, lmax, e);
    assert Fill(lmin, lmax) == [];
  }
}
