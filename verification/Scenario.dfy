// From a household's income to the verdict on a housing scenario: the affordable amount
// (engines/affordability.py), the loan, the guarantee fee and the total cost
// (engines/tco.py), with the shared helpers of common.py. Amounts that the engines keep as
// floating point are exact reals here.
module Scenario {
  import opened Basics
  import opened Rounding
  import opened Npv

  function Min(a: int, b: int): int { if a <= b then a else b }

  function Max(a: int, b: int): int { if a >= b then a else b }

  function MinReal(a: real, b: real): real { if a <= b then a else b }

  function MaxReal(a: real, b: real): real { if a >= b then a else b }

  // `int(...)` truncates toward zero.
  function Trunc(x: real): int { if x >= 0.0 then x.Floor else -((-x).Floor) }

  // `safe_int`
  function SafeInt(value: real): nat { Max(0, HalfEven(value)) }

  // ---- floor_to ---------------------------------------------------------------------------------------

  function FloorTo(value: real, unit: nat): (r: nat)
    requires unit > 0
  {
    if value <= 0.0 then 0 else FloorDiv(value, unit) * unit
  }

  function FloorDiv(value: real, unit: nat): (q: nat)
    requires unit > 0 && value > 0.0
  {
    QuotientPositive(value, unit as real);
    (value / unit as real).Floor
  }

  lemma QuotientPositive(value: real, unit: real)
    requires unit > 0.0 && value > 0.0
    ensures value / unit >= 0.0
  {
  }

  ghost predicate MultipleOf(n: int, unit: nat) { exists k: int :: n == k * unit }

  lemma MulKeepsOrder(a: real, b: real, k: real)
    requires k > 0.0
    ensures a <= b ==> a * k <= b * k
    ensures a < b ==> a * k < b * k
  {
  }

  lemma DividesBack(value: real, unit: real)
    requires unit > 0.0
    ensures value / unit * unit == value
  {
  }

  lemma QuotientBelow(value: real, unit: real, q: real)
    requires unit > 0.0 && q <= value / unit
    ensures q * unit <= value
  {
    DividesBack(value, unit);
    MulKeepsOrder(q, value / unit, unit);
  }

  lemma QuotientAbove(value: real, unit: real, q: real)
    requires unit > 0.0 && value / unit < q
    ensures value < q * unit
  {
    DividesBack(value, unit);
    MulKeepsOrder(value / unit, q, unit);
  }

  lemma QuotientBounds(value: real, unit: real, q: real)
    requires unit > 0.0 && q <= value / unit < q + 1.0
    ensures q * unit <= value < q * unit + unit
  {
    QuotientBelow(value, unit, q);
    QuotientAbove(value, unit, q + 1.0);
    assert (q + 1.0) * unit == q * unit + unit;
  }

  lemma IntProduct(a: int, b: int)
    ensures (a * b) as real == a as real * b as real
  {
  }

  lemma FloorToBounds(value: real, unit: nat)
    requires unit > 0
    ensures MultipleOf(FloorTo(value, unit), unit)
    ensures value > 0.0 ==> FloorTo(value, unit) as real <= value < (FloorTo(value, unit) + unit) as real
  {
    if value > 0.0 {
      var q := FloorDiv(value, unit);
      QuotientBounds(value, unit as real, q as real);
      IntProduct(q, unit);
      assert FloorTo(value, unit) == q * unit;
    } else {
      assert FloorTo(value, unit) == 0 * unit;
    }
  }

  lemma MultiplesApart(m: int, k: int, unit: nat)
    requires unit > 0 && m * unit < k * unit + unit
    ensures m * unit <= k * unit
  {
    if m > k { NextMultiple(m, k, unit); }
  }

  lemma NextMultiple(m: int, k: int, unit: nat)
    requires m >= k + 1
    ensures m * unit >= k * unit + unit
  {
    assert (m - k - 1) * unit >= 0;
  }

  // No multiple of the unit lies between the result and the value.
  lemma FloorToGreatest(value: real, unit: nat, n: int)
    requires unit > 0 && MultipleOf(n, unit) && n as real <= value
    ensures n <= FloorTo(value, unit)
  {
    if value > 0.0 {
      FloorToBounds(value, unit);
      var m: int :| n == m * unit;
      MultiplesApart(m, FloorDiv(value, unit), unit);
    }
  }

  lemma FloorToMonotone(a: real, b: real, unit: nat)
    requires unit > 0 && a <= b
    ensures FloorTo(a, unit) <= FloorTo(b, unit)
  {
    if a > 0.0 {
      FloorToBounds(a, unit);
      FloorToGreatest(b, unit, FloorTo(a, unit));
    }
  }

  // ---- Affordability --------------------------------------------------------------------------------------

  datatype AffordConstants = AffordConstants(ratioCap: real, haircut: real, bufferRatio: real, fromAnnual: real,
                                             livingByHousehold: map<nat, nat>, extraPerPerson: nat)

  // The registry's shares are shares.
  predicate Shares(c: AffordConstants) { 0.0 <= c.haircut <= 1.0 && 0.0 <= c.bufferRatio <= 1.0 && 0.0 <= c.ratioCap }

  datatype Affordability = Affordability(netIncome: int, living: int, debt: nat, buffer: int, max: nat, recommended: nat)

  ghost predicate LargestKey(k: nat, table: map<nat, nat>) { k in table && forall j | j in table :: j <= k }

  // `size` is given as the code makes it, at least 1; `largest` is `max(by_household)`.
  function LivingCostFor(size: nat, largest: nat, c: AffordConstants): int
    requires LargestKey(largest, c.livingByHousehold)
  {
    if size in c.livingByHousehold then c.livingByHousehold[size]
    else c.livingByHousehold[largest] + (size - largest) * c.extraPerPerson
  }

  const UNIT: nat := 10_000

  // The deductions and the two caps.
  function NetIncome(net: real, annual: real, c: AffordConstants): int {
    if SafeInt(net) <= 0 && SafeInt(annual) > 0 then Trunc(SafeInt(annual) as real / 12.0 * c.fromAnnual) else SafeInt(net)
  }

  function Buffer(income: int, c: AffordConstants): int { Trunc(income as real * c.bufferRatio) }

  function RatioCap(income: int, c: AffordConstants): real { income as real * c.ratioCap }

  function MaxCost(income: int, living: int, debt: nat, c: AffordConstants): nat {
    if income > 0 then FloorTo(Binding(income, living, debt, c), UNIT) else 0
  }

  function Assess(net: real, annual: real, debtMonthly: real, size: nat, largest: nat, c: AffordConstants): Affordability
    requires LargestKey(largest, c.livingByHousehold)
  {
    AssessFrom(NetIncome(net, annual, c), LivingCostFor(size, largest, c), SafeInt(debtMonthly), c)
  }

  function Haircut(max: nat, share: real): real { max as real * share }

  function AssessFrom(income: int, living: int, debt: nat, c: AffordConstants): Affordability {
    var max := MaxCost(income, living, debt, c);
    Affordability(income, living, debt, Buffer(income, c), max, FloorTo(Haircut(max, c.haircut), UNIT))
  }

  lemma HaircutShrinks(max: nat, haircut: real)
    requires 0.0 <= haircut <= 1.0
    ensures Haircut(max, haircut) <= max as real
  {
  }

  lemma RecommendedBelowMax(max: nat, haircut: real)
    requires 0.0 <= haircut <= 1.0
    ensures FloorTo(Haircut(max, haircut), UNIT) <= max
  {
    var cut := Haircut(max, haircut);
    HaircutShrinks(max, haircut);
    FloorToBounds(cut, UNIT);
  }

  // What is left over for housing, in whole 10,000s, under both caps.
  ghost predicate WithinCaps(n: int, income: int, living: int, debt: nat, c: AffordConstants) {
    MultipleOf(n, 10_000) && n as real <= income as real * c.ratioCap && n + living + debt + Buffer(income, c) <= income
  }

  // The cap that binds.
  function Binding(income: int, living: int, debt: nat, c: AffordConstants): real {
    MinReal(RatioCap(income, c), (income - living - debt - Buffer(income, c)) as real)
  }

  lemma WithinBinding(n: int, income: int, living: int, debt: nat, c: AffordConstants)
    ensures WithinCaps(n, income, living, debt, c) <==> MultipleOf(n, UNIT) && n as real <= Binding(income, living, debt, c)
  {
  }

  lemma MaxCostIsLargest(income: int, living: int, debt: nat, c: AffordConstants, n: int)
    ensures MaxCost(income, living, debt, c) > 0 ==> WithinCaps(MaxCost(income, living, debt, c), income, living, debt, c)
    ensures income > 0 && WithinCaps(n, income, living, debt, c) ==> n <= MaxCost(income, living, debt, c)
  {
    if income > 0 {
      var cap := Binding(income, living, debt, c);
      FloorToBounds(cap, UNIT);
      WithinBinding(MaxCost(income, living, debt, c), income, living, debt, c);
      WithinBinding(n, income, living, debt, c);
      if WithinCaps(n, income, living, debt, c) { FloorToGreatest(cap, UNIT, n); }
    }
  }

  ghost predicate LeavesRoom(a: Affordability, c: AffordConstants) {
    && a.recommended <= a.max
    && (a.max > 0 ==> a.max + a.living + a.debt + a.buffer <= a.netIncome && a.max as real <= a.netIncome as real * c.ratioCap)
  }

  // The recommended amount never exceeds the maximum, and a positive maximum leaves room for
  // living cost, debt and buffer.
  lemma AffordableLeavesRoom(income: int, living: int, debt: nat, c: AffordConstants)
    requires Shares(c)
    ensures LeavesRoom(AssessFrom(income, living, debt, c), c)
  {
    RecommendedBelowMax(MaxCost(income, living, debt, c), c.haircut);
    RoomLeft(income, living, debt, c, Buffer(income, c), MaxCost(income, living, debt, c));
  }

  // The same for a household as it is asked about, coercions included.
  lemma HouseholdLeavesRoom(net: real, annual: real, debtMonthly: real, size: nat, largest: nat, c: AffordConstants)
    requires LargestKey(largest, c.livingByHousehold) && Shares(c)
    ensures LeavesRoom(Assess(net, annual, debtMonthly, size, largest, c), c)
  {
    AffordableLeavesRoom(NetIncome(net, annual, c), LivingCostFor(size, largest, c), SafeInt(debtMonthly), c);
  }

  lemma RoomLeft(income: int, living: int, debt: nat, c: AffordConstants, buffer: int, max: nat)
    requires buffer == Buffer(income, c) && max == MaxCost(income, living, debt, c)
    ensures max > 0 ==> max + living + debt + buffer <= income && max as real <= income as real * c.ratioCap
  {
    MaxCostIsLargest(income, living, debt, c, 0);
  }

  lemma BufferStep(income: nat, more: nat, c: AffordConstants)
    requires Shares(c) && income <= more
    ensures Buffer(more, c) - Buffer(income, c) <= more - income
    ensures RatioCap(income, c) <= RatioCap(more, c)
  {
    ShareGrowsSlower(income as real, more as real, c.bufferRatio);
    var a, b := income as real * c.bufferRatio, more as real * c.bufferRatio;
    FloorsApart(a, b, more - income);
    ScaleKeepsOrder(c.ratioCap, income as real, more as real);
  }

  lemma ShareGrowsSlower(x: real, y: real, share: real)
    requires 0.0 <= x <= y && 0.0 <= share <= 1.0
    ensures 0.0 <= x * share && y * share - x * share <= y - x
  {
    assert y * share - x * share == (y - x) * share;
  }

  lemma FloorsApart(a: real, b: real, n: nat)
    requires 0.0 <= a <= b && b - a <= n as real
    ensures 0 <= Trunc(b) - Trunc(a) <= n
  {
  }

  // More income never lowers the maximum, and more living cost or debt never raises it.
  lemma MaxCostMoves(income: nat, more: nat, living: int, living': int, debt: nat, debt': nat, c: AffordConstants)
    requires Shares(c) && income <= more && living' <= living && debt' <= debt
    ensures MaxCost(income, living, debt, c) <= MaxCost(more, living', debt', c)
  {
    BufferStep(income, more, c);
    var left, left' := income - living - debt - Buffer(income, c), more - living' - debt' - Buffer(more, c);
    FloorToMonotone(Binding(income, living, debt, c), Binding(more, living', debt', c), UNIT);
  }

  // Household sizes 1..largest are all tabulated, and larger households do not cost less.
  ghost predicate Tabulated(largest: nat, c: AffordConstants) {
    && LargestKey(largest, c.livingByHousehold)
    && (forall size | 1 <= size <= largest :: size in c.livingByHousehold)
    && (forall i, j | 1 <= i <= j <= largest && i in c.livingByHousehold && j in c.livingByHousehold :: c.livingByHousehold[i] <= c.livingByHousehold[j])
  }

  lemma LivingCostGrows(size: nat, size': nat, largest: nat, c: AffordConstants)
    requires Tabulated(largest, c) && 1 <= size <= size'
    ensures LivingCostFor(size, largest, c) <= LivingCostFor(size', largest, c)
  {
    if size > largest {
      assert (size' - size) * c.extraPerPerson >= 0;
      assert (size' - largest) * c.extraPerPerson == (size - largest) * c.extraPerPerson + (size' - size) * c.extraPerPerson;
    } else if size' > largest {
      assert (size' - largest) * c.extraPerPerson >= 0;
    }
  }

  // ---- The household's figures, written out -----------------------------------------------------------------

  // The nearest whole number, ties to even, and never below zero.
  lemma SafeIntIs(x: real, n: int)
    requires NearestEven(n, x)
    ensures SafeInt(x) == if n > 0 then n else 0
  {
    OnlyHalfEvenIsNearest(n, x);
  }

  lemma TruncIs(x: real)
    requires x >= 0.0
    ensures 0 <= Trunc(x) && Trunc(x) as real <= x < Trunc(x) as real + 1.0
  {
  }

  // A monthly net income counts as given. Without one, a twelfth of the yearly income counts with
  // its share; without either there is none.
  lemma NetIncomeIs(net: real, annual: real, c: AffordConstants, month: int, year: int)
    requires NearestEven(month, net) && NearestEven(year, annual) && c.fromAnnual >= 0.0
    ensures month > 0 ==> NetIncome(net, annual, c) == month
    ensures month <= 0 && year <= 0 ==> NetIncome(net, annual, c) == 0
    ensures month <= 0 && year > 0 ==>
      var income := NetIncome(net, annual, c);
      0 <= income && income as real <= year as real / 12.0 * c.fromAnnual < income as real + 1.0
  {
    SafeIntIs(net, month);
    SafeIntIs(annual, year);
    if month <= 0 && year > 0 {
      ShareNonNegative(year as real / 12.0, c.fromAnnual);
      TruncIs(year as real / 12.0 * c.fromAnnual);
    }
  }

  // The buffer is the whole part of its share of the income.
  lemma BufferIs(income: nat, c: AffordConstants)
    requires Shares(c)
    ensures 0 <= Buffer(income, c) && Buffer(income, c) as real <= income as real * c.bufferRatio < Buffer(income, c) as real + 1.0
  {
    ShareNonNegative(income as real, c.bufferRatio);
    TruncIs(income as real * c.bufferRatio);
  }

  // A tabulated household costs what the table says; any other is as far from the largest one as
  // it has persons more, or fewer.
  lemma LivingCostIs(size: nat, largest: nat, c: AffordConstants)
    requires LargestKey(largest, c.livingByHousehold)
    ensures size in c.livingByHousehold ==> LivingCostFor(size, largest, c) == c.livingByHousehold[size]
    ensures size !in c.livingByHousehold ==>
      LivingCostFor(size, largest, c) + largest * c.extraPerPerson == c.livingByHousehold[largest] + size * c.extraPerPerson
  {
    assert (size - largest) * c.extraPerPerson == size * c.extraPerPerson - largest * c.extraPerPerson;
  }

  lemma LargestShare(max: nat, share: real, n: int)
    requires share >= 0.0
    ensures MultipleOf(FloorTo(Haircut(max, share), UNIT), 10_000) && FloorTo(Haircut(max, share), UNIT) as real <= max as real * share
    ensures MultipleOf(n, 10_000) && n as real <= max as real * share ==> n <= FloorTo(Haircut(max, share), UNIT)
  {
    var cut := Haircut(max, share);
    ShareNonNegative(max as real, share);
    FloorToBounds(cut, UNIT);
    if MultipleOf(n, 10_000) && n as real <= cut { FloorToGreatest(cut, UNIT, n); }
  }

  // The recommended amount is the largest whole 10,000 within the registry's share of the maximum.
  lemma RecommendedIsLargest(income: int, living: int, debt: nat, c: AffordConstants, n: int)
    requires Shares(c)
    ensures var a := AssessFrom(income, living, debt, c);
      && MultipleOf(a.recommended, 10_000) && a.recommended as real <= a.max as real * c.haircut
      && (MultipleOf(n, 10_000) && n as real <= a.max as real * c.haircut ==> n <= a.recommended)
  {
    LargestShare(MaxCost(income, living, debt, c), c.haircut, n);
  }

  // The household's answers are read each into its own figure.
  lemma AssessReads(net: real, annual: real, debtMonthly: real, size: nat, largest: nat, c: AffordConstants, debt: int)
    requires LargestKey(largest, c.livingByHousehold) && NearestEven(debt, debtMonthly)
    ensures var a := Assess(net, annual, debtMonthly, size, largest, c);
      && a.netIncome == NetIncome(net, annual, c) && a.living == LivingCostFor(size, largest, c)
      && a.debt == (if debt > 0 then debt else 0) && a.buffer == Buffer(a.netIncome, c)
      && a == AssessFrom(a.netIncome, a.living, a.debt, c) && a.max == MaxCost(a.netIncome, a.living, a.debt, c)
  {
    SafeIntIs(debtMonthly, debt);
  }

  // ---- The loan -----------------------------------------------------------------------------------------------

  function SizeLoan(depositWon: real, assetsWon: real, capWon: real, ltv: real, unit: nat): nat
    requires unit > 0
  {
    LoanFor(SafeInt(depositWon), SafeInt(assetsWon), SafeInt(capWon), ltv, unit)
  }

  function LtvShare(deposit: nat, ltv: real): real { deposit as real * ltv }

  function LoanFor(deposit: nat, assets: nat, cap: nat, ltv: real, unit: nat): nat
    requires unit > 0
  {
    var needed := Max(0, deposit - assets);
    var ceiling := Min(Trunc(LtvShare(deposit, ltv)), cap);
    FloorTo(Min(needed, ceiling) as real, unit)
  }

  // What may be borrowed: whole units, no more than own capital leaves open, within the
  // loan-to-value share and within the product's cap.
  ghost predicate Lendable(n: nat, deposit: nat, assets: nat, cap: nat, ltv: real, unit: nat) {
    MultipleOf(n, unit) && (n == 0 || n + assets <= deposit) && n as real <= deposit as real * ltv && n <= cap
  }

  lemma TruncIsGreatest(n: nat, x: real)
    requires x >= 0.0
    ensures n as real <= x <==> n <= Trunc(x)
  {
  }

  lemma LoanIsLargest(deposit: nat, assets: nat, cap: nat, ltv: real, unit: nat, n: nat)
    requires unit > 0 && ltv >= 0.0
    ensures Lendable(LoanFor(deposit, assets, cap, ltv, unit), deposit, assets, cap, ltv, unit)
    ensures Lendable(n, deposit, assets, cap, ltv, unit) ==> n <= LoanFor(deposit, assets, cap, ltv, unit)
  {
    var share := LtvShare(deposit, ltv);
    ShareNonNegative(deposit as real, ltv);
    var bound := Min(Max(0, deposit - assets), Min(Trunc(share), cap));
    FloorToBounds(bound as real, unit);
    TruncIsGreatest(LoanFor(deposit, assets, cap, ltv, unit), share);
    TruncIsGreatest(n, share);
    if Lendable(n, deposit, assets, cap, ltv, unit) { FloorToGreatest(bound as real, unit, n); }
  }

  // The loan as it is asked for, coercions included, is the largest that may be lent.
  lemma SizeLoanIsLargest(depositWon: real, assetsWon: real, capWon: real, ltv: real, unit: nat, n: nat)
    requires unit > 0 && ltv >= 0.0
    ensures Lendable(SizeLoan(depositWon, assetsWon, capWon, ltv, unit), SafeInt(depositWon), SafeInt(assetsWon), SafeInt(capWon), ltv, unit)
    ensures Lendable(n, SafeInt(depositWon), SafeInt(assetsWon), SafeInt(capWon), ltv, unit) ==>
      n <= SizeLoan(depositWon, assetsWon, capWon, ltv, unit)
  {
    LoanIsLargest(SafeInt(depositWon), SafeInt(assetsWon), SafeInt(capWon), ltv, unit, n);
  }

  lemma ShareNonNegative(x: real, share: real)
    requires x >= 0.0 && share >= 0.0
    ensures x * share >= 0.0
  {
  }

  // ---- The guarantee fee ------------------------------------------------------------------------------------------

  // One cell of the published table; no upper bound means the open bracket.
  datatype Row = Row(depositMax: Option<nat>, ratePct: real)

  datatype RateError = UnknownRule | NoBracket

  // The least bound that still holds the deposit.
  function Bracket(table: seq<Row>, deposit: nat): (b: Option<nat>)
    ensures b.Some? ==> deposit <= b.value && exists i :: 0 <= i < |table| && table[i].depositMax == b
    ensures forall i | 0 <= i < |table| && table[i].depositMax.Some? && deposit <= table[i].depositMax.value ::
      b.Some? && b.value <= table[i].depositMax.value
  {
    if table == [] then None else
      var front, last := table[..|table| - 1], table[|table| - 1];
      var b := Bracket(front, deposit);
      assert forall i | 0 <= i < |front| :: front[i] == table[i];
      assert table[|table| - 1].depositMax == last.depositMax;
      if last.depositMax.Some? && deposit <= last.depositMax.value && (b.None? || last.depositMax.value < b.value) then last.depositMax else b
  }

  function Cells(table: seq<Row>, bracket: Option<nat>): (r: seq<real>)
    ensures forall x :: x in r <==> exists i :: 0 <= i < |table| && table[i].depositMax == bracket && table[i].ratePct == x
  {
    if table == [] then [] else
      var front, last := table[..|table| - 1], table[|table| - 1];
      var r := Cells(front, bracket);
      assert table == front + [last];
      CellsStep(front, last, bracket, r);
      if last.depositMax == bracket then r + [last.ratePct] else r
  }

  ghost predicate IsCell(table: seq<Row>, bracket: Option<nat>, x: real) {
    exists i :: 0 <= i < |table| && table[i].depositMax == bracket && table[i].ratePct == x
  }

  lemma CellsStep(front: seq<Row>, last: Row, bracket: Option<nat>, r: seq<real>)
    requires forall x :: x in r <==> IsCell(front, bracket, x)
    ensures forall x :: x in (if last.depositMax == bracket then r + [last.ratePct] else r) <==> IsCell(front + [last], bracket, x)
  {
    var table := front + [last];
    forall x ensures x in (if last.depositMax == bracket then r + [last.ratePct] else r) <==> IsCell(table, bracket, x) {
      if IsCell(front, bracket, x) {
        var i :| 0 <= i < |front| && front[i].depositMax == bracket && front[i].ratePct == x;
        assert table[i].depositMax == bracket;
      }
      if IsCell(table, bracket, x) {
        var i :| 0 <= i < |table| && table[i].depositMax == bracket && table[i].ratePct == x;
        assert i < |front| ==> front[i].depositMax == bracket;
      }
      assert table[|front|] == last;
    }
  }

  function Greatest(xs: seq<real>): (m: real)
    requires xs != []
    ensures m in xs && forall x | x in xs :: x <= m
  {
    if |xs| == 1 then xs[0] else
      var m := Greatest(xs[1..]);
      assert xs == [xs[0]] + xs[1..];
      if xs[0] > m then xs[0] else m
  }

  function GuaranteeRate(depositWon: real, table: seq<Row>, rule: string): Result<real, RateError> {
    if rule != "bracket_max" then Err(UnknownRule) else
      var cells := Cells(table, Bracket(table, SafeInt(depositWon)));
      if cells == [] then Err(NoBracket) else Ok(Greatest(cells))
  }

  // The row's bracket is the deposit's: it holds the deposit and no lower bracket does.
  ghost predicate Holds(row: Row, table: seq<Row>, deposit: nat) {
    && (row.depositMax.Some? ==> deposit <= row.depositMax.value)
    && forall other | other in table && other.depositMax.Some? && deposit <= other.depositMax.value ::
         row.depositMax.Some? && row.depositMax.value <= other.depositMax.value
  }

  lemma HoldsIffBracket(row: Row, table: seq<Row>, deposit: nat)
    requires row in table
    ensures Holds(row, table, deposit) <==> row.depositMax == Bracket(table, deposit)
  {
    var b := Bracket(table, deposit);
    if b.Some? {
      var i :| 0 <= i < |table| && table[i].depositMax == b;
      assert table[i] in table;
    }
    var k :| 0 <= k < |table| && table[k] == row;
  }

  // The rate is the highest in the deposit's bracket; a known rule fails exactly when the table
  // has no bracket for the deposit.
  lemma GuaranteeRateIsBracketMax(depositWon: real, table: seq<Row>, rule: string)
    ensures var r := GuaranteeRate(depositWon, table, rule);
      r.Ok? <==> rule == "bracket_max" && exists row :: row in table && Holds(row, table, SafeInt(depositWon))
    ensures var r := GuaranteeRate(depositWon, table, rule);
      r.Ok? ==> (forall row | row in table && Holds(row, table, SafeInt(depositWon)) :: row.ratePct <= r.value)
    ensures var r := GuaranteeRate(depositWon, table, rule);
      r.Ok? ==> exists row :: row in table && Holds(row, table, SafeInt(depositWon)) && row.ratePct == r.value
  {
    var deposit := SafeInt(depositWon);
    var bracket := Bracket(table, deposit);
    var cells := Cells(table, bracket);
    forall row | row in table && Holds(row, table, deposit) ensures row.ratePct in cells {
      HoldsIffBracket(row, table, deposit);
      var k :| 0 <= k < |table| && table[k] == row;
    }
    if cells != [] {
      assert Greatest(cells) in cells;
      var i :| 0 <= i < |table| && table[i].depositMax == bracket && table[i].ratePct == Greatest(cells);
      assert table[i] in table;
      HoldsIffBracket(table[i], table, deposit);
    }
  }
}
