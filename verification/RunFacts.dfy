/** What the ranks hold together during a run: their masses add up to a constant, and with a time step
    of at least zero that passes the step size check no value leaves the initial bounds. */
module RunFacts {
  import opened FiniteSums
  import opened Tensor
  import opened DistributedGrid
  import opened UpwindGrid
  import opened Advection
  import opened UpwindFacts

  predicate Contains(part: Part, v: Index) {
    |v| == |part.extents| == |part.lower|
      && forall j :: 0 <= j < |v| ==> part.lower[j] <= v[j] < part.lower[j] + part.extents[j]
  }

  ghost predicate AreSeparate(global: Index, parts: seq<Part>) {
    forall r, s, v {:trigger Contains(parts[r], v), Contains(parts[s], v)} ::
      0 <= r < s < |parts| && Contains(parts[r], v) ==> !Contains(parts[s], v)
  }

  ghost predicate IsOwned(parts: seq<Part>, v: Index) {
    exists r :: 0 <= r < |parts| && Contains(parts[r], v)
  }

  /** Every grid point belongs to exactly one part. */
  ghost predicate IsDecomposition(global: Index, parts: seq<Part>) {
    AreSeparate(global, parts) && forall v :: InBox(global, v) ==> IsOwned(parts, v)
  }

  /** The cells of the grid that belong to a part. */
  ghost function CellsOf(global: Index, part: Part): (cells: set<int>)
    requires Positive(global)
    ensures forall g :: g in cells <==> 0 <= g < Stride(global, |global|) && Contains(part, Vector(global, g, |global|))
  {
    StridePositive(global, |global|);
    set g | g in Cells(Stride(global, |global|)) && Contains(part, Vector(global, g, |global|))
  }

  ghost function Unshift(v: Index, w: Index): Index
    requires |v| == |w|
  {
    seq(|v|, j requires 0 <= j < |v| => v[j] - w[j])
  }

  lemma VectorOfGlobal(global: Index, part: Part, li: int)
    requires Fits(global, part) && 0 <= li < Stride(part.extents, |global|)
    ensures var g := GlobalOf(global, part.extents, part.lower, li);
            0 <= g < Stride(global, |global|)
              && Vector(global, g, |global|) == Shift(Vector(part.extents, li, |global|), part.lower)
            && g in CellsOf(global, part)
  {
    IndexBijection(part.extents, [], li);
    GlobalVector(global, part.extents, part.lower, Vector(part.extents, li, |global|));
  }

  /** The local cell of a cell that belongs to a part. */
  ghost function LocalOf(global: Index, part: Part, g: int): (li: int)
    requires Fits(global, part) && g in CellsOf(global, part)
    ensures 0 <= li < Stride(part.extents, |global|) && GlobalOf(global, part.extents, part.lower, li) == g
  {
    var v := Vector(global, g, |global|);
    var w := Unshift(v, part.lower);
    IndexBijection(part.extents, w, 0);
    IndexBijection(global, v, g);
    assert Shift(w, part.lower) == v;
    Linear(part.extents, w, |global|)
  }

  lemma ShiftIsOneToOne(v: Index, w: Index, base: Index)
    requires |v| == |w| == |base| && Shift(v, base) == Shift(w, base)
    ensures v == w
  {
    forall j | 0 <= j < |v|
      ensures v[j] == w[j]
    {
      assert Shift(v, base)[j] == Shift(w, base)[j];
    }
  }

  lemma DifferentCells(global: Index, part: Part, a: int, b: int)
    requires Fits(global, part) && 0 <= a < Stride(part.extents, |global|) && 0 <= b < Stride(part.extents, |global|)
    requires GlobalOf(global, part.extents, part.lower, a) == GlobalOf(global, part.extents, part.lower, b)
    ensures a == b
  {
    VectorOfGlobal(global, part, a);
    VectorOfGlobal(global, part, b);
    IndexBijection(part.extents, [], a);
    IndexBijection(part.extents, [], b);
    ShiftIsOneToOne(Vector(part.extents, a, |global|), Vector(part.extents, b, |global|), part.lower);
  }

  /** The local mass is the mass of the cells that belong to the part. */
  lemma MassOfPart(global: Index, part: Part, e: seq<real>, u: seq<real>)
    requires Fits(global, part) && Holds(global, part.extents, part.lower, e, u)
    ensures Mass(e) == Sum(CellsOf(global, part), Values(u))
  {
    var toGlobal := li => GlobalOf(global, part.extents, part.lower, li);
    forall li | li in Cells(|e|)
      ensures toGlobal(li) in CellsOf(global, part) && Values(e)(li) == Values(u)(toGlobal(li))
    {
      VectorOfGlobal(global, part, li);
      HeldCell(global, part.extents, part.lower, e, u, li);
    }
    forall g | g in CellsOf(global, part)
      ensures exists li :: li in Cells(|e|) && toGlobal(li) == g
    {
      assert toGlobal(LocalOf(global, part, g)) == g;
    }
    forall a, b | a in Cells(|e|) && b in Cells(|e|) && toGlobal(a) == toGlobal(b)
      ensures a == b
    {
      DifferentCells(global, part, a, b);
    }
    SumOfImage(Cells(|e|), CellsOf(global, part), toGlobal, Values(u), Values(e));
  }

  /** The cells of the first n parts. */
  ghost function CellsOfFirst(global: Index, parts: seq<Part>, n: nat): set<int>
    requires Positive(global) && n <= |parts|
  {
    if n == 0 then {} else CellsOfFirst(global, parts, n - 1) + CellsOf(global, parts[n - 1])
  }

  lemma {:induction false} InFirst(global: Index, parts: seq<Part>, n: nat, r: nat, g: int)
    requires Positive(global) && r < n <= |parts| && g in CellsOf(global, parts[r])
    ensures g in CellsOfFirst(global, parts, n)
  {
    if r < n - 1 {
      InFirst(global, parts, n - 1, r, g);
    }
  }

  lemma {:induction false} WithinGrid(global: Index, parts: seq<Part>, n: nat, g: int)
    requires Positive(global) && n <= |parts| && g in CellsOfFirst(global, parts, n)
    ensures 0 <= g < Stride(global, |global|)
  {
    if g !in CellsOf(global, parts[n - 1]) {
      WithinGrid(global, parts, n - 1, g);
    }
  }

  /** A cell of one part is in no earlier one. */
  lemma {:induction false} NotInEarlier(global: Index, parts: seq<Part>, n: nat, r: nat, g: int)
    requires Positive(global) && AreSeparate(global, parts) && n <= r < |parts| && g in CellsOf(global, parts[r])
    ensures g !in CellsOfFirst(global, parts, n)
  {
    if n > 0 {
      NotInEarlier(global, parts, n - 1, r, g);
      assert !Contains(parts[n - 1], Vector(global, g, |global|));
    }
  }

  lemma NextPartIsDisjoint(global: Index, parts: seq<Part>, n: nat)
    requires Positive(global) && AreSeparate(global, parts) && n < |parts|
    ensures CellsOfFirst(global, parts, n) !! CellsOf(global, parts[n])
  {
    var own := CellsOf(global, parts[n]);
    forall g | g in own
      ensures g !in CellsOfFirst(global, parts, n)
    {
      NotInEarlier(global, parts, n, n, g);
    }
  }

  ghost function TotalMass(data: seq<seq<real>>, n: nat): real
    requires n <= |data|
  {
    if n == 0 then 0.0 else TotalMass(data, n - 1) + Mass(data[n - 1])
  }

  ghost predicate AllHold(global: Index, parts: seq<Part>, data: seq<seq<real>>, u: seq<real>) {
    && |data| == |parts|
    && forall r {:trigger parts[r]} {:trigger data[r]} :: 0 <= r < |parts| ==>
         Fits(global, parts[r]) && Holds(global, parts[r].extents, parts[r].lower, data[r], u)
  }

  ghost predicate AreMasses(global: Index, parts: seq<Part>, data: seq<seq<real>>, u: seq<real>)
    requires Positive(global) && |data| == |parts|
  {
    forall r {:trigger data[r]} :: 0 <= r < |data| ==> Mass(data[r]) == Sum(CellsOf(global, parts[r]), Values(u))
  }

  lemma LastOfFirst(global: Index, parts: seq<Part>, data: seq<seq<real>>, n: nat)
    requires Positive(global) && |data| == |parts| && n < |parts|
    ensures CellsOfFirst(global, parts, n + 1) == CellsOfFirst(global, parts, n) + CellsOf(global, parts[n])
    ensures TotalMass(data, n + 1) == TotalMass(data, n) + Mass(data[n])
  {
  }

  lemma NoneOfFirst(global: Index, parts: seq<Part>, data: seq<seq<real>>)
    requires Positive(global)
    ensures CellsOfFirst(global, parts, 0) == {} && TotalMass(data, 0) == 0.0
  {
  }

  lemma {:induction false} MassOfFirst(global: Index, parts: seq<Part>, data: seq<seq<real>>, u: seq<real>, n: nat)
    requires Positive(global) && AreSeparate(global, parts) && |data| == |parts| && AreMasses(global, parts, data, u)
             && n <= |parts|
    ensures TotalMass(data, n) == Sum(CellsOfFirst(global, parts, n), Values(u))
  {
    hide Positive, AreSeparate, Values, CellsOf, CellsOfFirst, TotalMass, Mass;
    if n > 0 {
      MassOfFirst(global, parts, data, u, n - 1);
      NextPartIsDisjoint(global, parts, n - 1);
      LastOfFirst(global, parts, data, n - 1);
      SumOfUnion(CellsOfFirst(global, parts, n - 1), CellsOf(global, parts[n - 1]), Values(u));
    } else {
      NoneOfFirst(global, parts, data);
    }
  }

  /** The masses of the ranks add up to the mass of the grid. */
  lemma MassesAddUp(global: Index, parts: seq<Part>, data: seq<seq<real>>, u: seq<real>)
    requires Positive(global) && IsDecomposition(global, parts) && AllHold(global, parts, data, u)
             && |u| == Stride(global, |global|)
    ensures TotalMass(data, |parts|) == Mass(u)
  {
    forall r | 0 <= r < |data|
      ensures Mass(data[r]) == Sum(CellsOf(global, parts[r]), Values(u))
    {
      MassOfPart(global, parts[r], data[r], u);
    }
    MassOfFirst(global, parts, data, u, |parts|);
    forall g | g in Cells(|u|)
      ensures g in CellsOfFirst(global, parts, |parts|)
    {
      IndexBijection(global, [], g);
      assert IsOwned(parts, Vector(global, g, |global|));
      var r :| 0 <= r < |parts| && Contains(parts[r], Vector(global, g, |global|));
      InFirst(global, parts, |parts|, r, g);
    }
    forall g | g in CellsOfFirst(global, parts, |parts|)
      ensures g in Cells(|u|)
    {
      WithinGrid(global, parts, |parts|, g);
    }
    assert CellsOfFirst(global, parts, |parts|) == Cells(|u|);
  }

  lemma RanksHold(global: Index, ranks: Ranks, data: seq<seq<real>>, u: seq<real>)
    requires AreRanks(global, ranks) && HoldTogether(global, ranks, data, u)
    ensures AllHold(global, ranks.parts, data, u)
  {
  }

  /** During every run the masses of the ranks add up to the same total. */
  lemma RunKeepsMass(global: Index, ranks: Ranks, data: seq<seq<real>>, oneOverH: seq<real>, dt: real, u: seq<real>,
                     n: nat)
    requires FitData(global, ranks, data) && HoldTogether(global, ranks, data, u) && |oneOverH| == |global|
    requires Positive(global) && |u| == Stride(global, |global|) && IsDecomposition(global, ranks.parts)
    ensures TotalMass(AllSteps(global, ranks, data, oneOverH, dt, n), |ranks.parts|) == TotalMass(data, |ranks.parts|)
  {
    var after, v := AllSteps(global, ranks, data, oneOverH, dt, n), UpwindSteps(global, u, oneOverH, dt, n);
    RunIsUpwind(global, ranks, data, oneOverH, dt, u, n);
    RanksHold(global, ranks, data, u);
    RanksHold(global, ranks, after, v);
    MassesAddUp(global, ranks.parts, data, u);
    MassesAddUp(global, ranks.parts, after, v);
    MassOfSteps(global, u, oneOverH, dt, n);
  }

  /** With a time step of at least zero that passes the step size check, no rank ever holds a value outside the initial
      bounds. */
  lemma RunKeepsBounds(global: Index, ranks: Ranks, data: seq<seq<real>>, oneOverH: seq<real>, dt: real, u: seq<real>,
                       n: nat, low: real, high: real, r: nat)
    requires FitData(global, ranks, data) && HoldTogether(global, ranks, data, u) && |oneOverH| == |global|
    requires Positive(global) && |u| == Stride(global, |global|) && r < |data|
    requires IsBetween(u, low, high) && NonNegative(oneOverH) && dt >= 0.0
             && Courant(dt, SumOf(oneOverH, |oneOverH|)) < 1.0
    ensures IsBetween(AllSteps(global, ranks, data, oneOverH, dt, n)[r], low, high)
  {
    RunIsUpwind(global, ranks, data, oneOverH, dt, u, n);
    BoundsOfSteps(global, u, oneOverH, dt, low, high, n);
    var part, e, v := ranks.parts[r], AllSteps(global, ranks, data, oneOverH, dt, n)[r],
      UpwindSteps(global, u, oneOverH, dt, n);
    assert Holds(global, part.extents, part.lower, e, v);
    forall li | 0 <= li < |e|
      ensures low <= e[li] <= high
    {
      HeldCell(global, part.extents, part.lower, e, v, li);
    }
  }
}
