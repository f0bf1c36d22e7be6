// The evaluation of one housing scenario: five cost components, their monthly equivalent, a
// verdict and a score (engines/tco.py, evaluate_scenario).
module Verdict {
  import opened Basics
  import opened Rounding
  import opened Scenario
  import Npv

  datatype Constants = Constants(horizonYears: nat, opportunityPct: real, monthlyDiscount: real, table: seq<Row>, rule: string,
                                 monthlyUnit: nat, affordWeight: real, overrunSlope: real, capitalWeight: real,
                                 matchScore: real, mismatchScore: real)

  // What the registry guarantees about its own values.
  predicate Sensible(c: Constants) {
    c.horizonYears > 0 && c.monthlyUnit > 0 && c.affordWeight >= 0.0 && c.overrunSlope >= 0.0
  }

  datatype Input = Input(kind: string, deposit: real, rent: real, maintenance: real, loan: real, loanRatePct: real, assets: real,
                         affordableMax: real, affordableRecommended: real, preferred: string, insured: bool, guaranteeCap: real)

  datatype Components = Components(interest: int, rent: int, maintenance: int, opportunityCost: int, insurance: int)

  datatype Grade = Affordable | Stretch | Unaffordable

  datatype Evaluation = Evaluation(components: Components, tco: int, monthly: nat, npv: int, grade: Grade, fit: int)

  function Months(c: Constants): nat { c.horizonYears * 12 }

  // `int(round(amount * pct / 100 * years))`
  function OverHorizon(amount: int, pct: real, years: nat): int {
    HalfEven(amount as real * pct / 100.0 * years as real)
  }

  function ComponentsOf(x: Input, guaranteePct: real, c: Constants): Components {
    var deposit := SafeInt(x.deposit);
    var loan := Min(SafeInt(x.loan), deposit);
    var ownCapital := Max(0, deposit - loan);
    Components(
      OverHorizon(loan, if x.loanRatePct > 0.0 then x.loanRatePct else 0.0, c.horizonYears),
      SafeInt(x.rent) * Months(c),
      SafeInt(x.maintenance) * Months(c),
      OverHorizon(ownCapital, c.opportunityPct, c.horizonYears),
      if x.insured && 0 < deposit <= SafeInt(x.guaranteeCap) then OverHorizon(deposit, guaranteePct, c.horizonYears) else 0)
  }

  function Total(k: Components): int { k.interest + k.rent + k.maintenance + k.opportunityCost + k.insurance }

  function PerMonth(tco: int, c: Constants): real
    requires Sensible(c)
  {
    tco as real / Months(c) as real
  }

  function GradeOf(monthly: nat, max: nat, recommended: nat): Grade {
    if max <= 0 then Unaffordable
    else if monthly <= recommended then Affordable
    else if monthly <= max then Stretch
    else Unaffordable
  }

  // `ratio`: a zero denominator gives zero.
  function Ratio(numerator: real, denominator: real): real { if denominator == 0.0 then 0.0 else numerator / denominator }

  function AffordScore(monthly: nat, recommended: nat, c: Constants): real {
    if recommended > 0 then
      var over := Ratio(monthly as real, recommended as real);
      if over <= 1.0 then c.affordWeight else MaxReal(0.0, c.affordWeight - (over - 1.0) * c.overrunSlope)
    else 0.0
  }

  function CapitalScore(x: Input, c: Constants): real {
    var deposit := SafeInt(x.deposit);
    var ownCapital := Max(0, deposit - Min(SafeInt(x.loan), deposit));
    CapitalShare(ownCapital, Max(0, ownCapital - SafeInt(x.assets)), c.capitalWeight)
  }

  function CapitalShare(ownCapital: nat, shortfall: nat, weight: real): real {
    if ownCapital <= 0 then weight else Weighted(weight, Ratio(shortfall as real, ownCapital as real))
  }

  function Weighted(weight: real, lack: real): real { weight * (1.0 - MinReal(1.0, lack)) }

  function PreferenceScore(x: Input, c: Constants): real {
    if x.preferred == "any" || x.preferred == x.kind then c.matchScore else c.mismatchScore
  }

  function Clamp100(n: int): int { Max(0, Min(100, n)) }

  function Evaluate(x: Input, c: Constants): Result<Evaluation, RateError>
    requires Sensible(c)
  {
    match GuaranteeRate(SafeInt(x.deposit) as real, c.table, c.rule)
    case Err(e) => Err(e)
    case Ok(pct) =>
      Ok(Judge(ComponentsOf(x, pct, c), SafeInt(x.affordableMax), SafeInt(x.affordableRecommended), CapitalScore(x, c), PreferenceScore(x, c), c))
  }

  function Judge(k: Components, max: nat, recommended: nat, capital: real, preference: real, c: Constants): Evaluation
    requires Sensible(c)
  {
    var tco := Total(k);
    var monthly := FloorTo(PerMonth(tco, c), c.monthlyUnit);
    Evaluation(k, tco, monthly, Npv.Npv(PerMonth(tco, c), Months(c), c.monthlyDiscount), GradeOf(monthly, max, recommended),
      Clamp100(HalfEven(AffordScore(monthly, recommended, c) + capital + preference)))
  }

  // ---- Raising the rent ------------------------------------------------------------------------------------------

  function Rank(g: Grade): nat { match g case Affordable => 0 case Stretch => 1 case Unaffordable => 2 }

  lemma GradeFalls(monthly: nat, monthly': nat, max: nat, recommended: nat)
    requires monthly <= monthly'
    ensures Rank(GradeOf(monthly, max, recommended)) <= Rank(GradeOf(monthly', max, recommended))
  {
  }

  lemma DivideKeepsOrder(a: real, b: real, d: real)
    requires a <= b && d > 0.0
    ensures a / d <= b / d
  {
    var x, y := a / d, b / d;
    assert x * d == a && y * d == b;
    assert (y - x) * d >= 0.0;
  }

  lemma OverrunCosts(weight: real, slope: real, over: real, over': real)
    requires slope >= 0.0 && over <= over'
    ensures weight - (over' - 1.0) * slope <= weight - (over - 1.0) * slope
    ensures over' >= 1.0 ==> weight - (over' - 1.0) * slope <= weight
  {
    assert (over' - over) * slope >= 0.0;
    assert (over' - 1.0) * slope == (over - 1.0) * slope + (over' - over) * slope;
    assert over' >= 1.0 ==> (over' - 1.0) * slope >= 0.0;
  }

  lemma AffordScoreFalls(monthly: nat, monthly': nat, recommended: nat, c: Constants)
    requires Sensible(c) && monthly <= monthly'
    ensures AffordScore(monthly', recommended, c) <= AffordScore(monthly, recommended, c)
  {
    if recommended > 0 {
      DivideKeepsOrder(monthly as real, monthly' as real, recommended as real);
      OverrunCosts(c.affordWeight, c.overrunSlope, Ratio(monthly as real, recommended as real), Ratio(monthly' as real, recommended as real));
    }
  }

  lemma FitFalls(a: real, a': real, rest: real, rest': real)
    requires a' <= a
    ensures Clamp100(HalfEven(a' + rest + rest')) <= Clamp100(HalfEven(a + rest + rest'))
  {
    HalfEvenMonotone(a' + rest + rest', a + rest + rest');
  }

  lemma RentGrows(rent: real, rent': real, months: nat)
    requires rent <= rent'
    ensures SafeInt(rent) * months <= SafeInt(rent') * months
  {
    HalfEvenMonotone(rent, rent');
    Times(SafeInt(rent), SafeInt(rent'), months);
  }

  lemma Times(a: nat, b: nat, k: nat)
    requires a <= b
    ensures a * k <= b * k
  {
  }

  ghost predicate NotBetter(worse: Evaluation, better: Evaluation) {
    && worse.tco >= better.tco && worse.monthly >= better.monthly && worse.npv >= better.npv
    && Rank(worse.grade) >= Rank(better.grade) && worse.fit <= better.fit
  }

  lemma MoreRentMoreCost(x: Input, rent': real, guaranteePct: real, c: Constants)
    requires x.rent <= rent'
    ensures Total(ComponentsOf(x, guaranteePct, c)) <= Total(ComponentsOf(x.(rent := rent'), guaranteePct, c))
  {
    RentGrows(x.rent, rent', Months(c));
  }

  lemma HigherCost(k: Components, k': Components, max: nat, recommended: nat, capital: real, preference: real, c: Constants)
    requires Sensible(c) && Total(k) <= Total(k')
    ensures NotBetter(Judge(k', max, recommended, capital, preference, c), Judge(k, max, recommended, capital, preference, c))
  {
    var cost, cost' := PerMonth(Total(k), c), PerMonth(Total(k'), c);
    DivideKeepsOrder(Total(k) as real, Total(k') as real, Months(c) as real);
    FloorToMonotone(cost, cost', c.monthlyUnit);
    var monthly, monthly' := FloorTo(cost, c.monthlyUnit), FloorTo(cost', c.monthlyUnit);
    Npv.NpvGrowsWithCost(cost, cost', Months(c), c.monthlyDiscount);
    GradeFalls(monthly, monthly', max, recommended);
    AffordScoreFalls(monthly, monthly', recommended, c);
    FitFalls(AffordScore(monthly, recommended, c), AffordScore(monthly', recommended, c), capital, preference);
  }

  // Raising the rent alone never improves the verdict or the score and never lowers a cost.
  lemma RaisingRentNeverHelps(x: Input, rent': real, c: Constants)
    requires Sensible(c) && x.rent <= rent'
    ensures Evaluate(x, c).Ok? <==> Evaluate(x.(rent := rent'), c).Ok?
    ensures Evaluate(x, c).Ok? ==> NotBetter(Evaluate(x.(rent := rent'), c).value, Evaluate(x, c).value)
  {
    var x' := x.(rent := rent');
    var rate := GuaranteeRate(SafeInt(x.deposit) as real, c.table, c.rule);
    if rate.Ok? {
      MoreRentMoreCost(x, rent', rate.value, c);
      RentLeavesScores(x, rent', c);
      HigherCost(ComponentsOf(x, rate.value, c), ComponentsOf(x', rate.value, c), SafeInt(x.affordableMax), SafeInt(x.affordableRecommended),
        CapitalScore(x, c), PreferenceScore(x, c), c);
    }
  }

  lemma RentLeavesScores(x: Input, rent': real, c: Constants)
    ensures CapitalScore(x.(rent := rent'), c) == CapitalScore(x, c) && PreferenceScore(x.(rent := rent'), c) == PreferenceScore(x, c)
  {
  }

  // ---- What a verdict promises the household ------------------------------------------------------------------------

  // The monthly figure is the cost per month less a rounding below one unit; a scenario that
  // costs nothing, or less than nothing, has the figure zero.
  lemma MonthlyIsClose(k: Components, max: nat, recommended: nat, capital: real, preference: real, c: Constants)
    requires Sensible(c)
    ensures var e := Judge(k, max, recommended, capital, preference, c);
      e.monthly as real <= MaxReal(0.0, PerMonth(e.tco, c)) < (e.monthly + c.monthlyUnit) as real && 0 <= e.fit <= 100
  {
    FloorToBounds(PerMonth(Total(k), c), c.monthlyUnit);
  }

  // A scenario not called unaffordable against the household's own limits leaves income for
  // living cost, debt and buffer; one called affordable stays within the recommended amount.
  lemma VerdictLeavesRoom(income: int, living: int, debt: nat, ac: AffordConstants, k: Components, capital: real, preference: real, c: Constants)
    requires Sensible(c) && Shares(ac)
    ensures var a := AssessFrom(income, living, debt, ac);
      var e := Judge(k, a.max, a.recommended, capital, preference, c);
      && (e.grade != Unaffordable <==> a.max > 0 && e.monthly <= a.max)
      && (e.grade == Affordable <==> a.max > 0 && e.monthly <= a.recommended)
      && (e.grade != Unaffordable ==> e.monthly + living + debt + a.buffer <= income)
  {
    AffordableLeavesRoom(income, living, debt, ac);
  }

  // From the household to the verdict: the two engines put together, coercions included.
  lemma EvaluationLeavesRoom(x: Input, c: Constants, income: int, living: int, debt: nat, ac: AffordConstants)
    requires Sensible(c) && Shares(ac)
    requires x.affordableMax == AssessFrom(income, living, debt, ac).max as real
    requires x.affordableRecommended == AssessFrom(income, living, debt, ac).recommended as real
    ensures Evaluate(x, c).Ok? && Evaluate(x, c).value.grade != Unaffordable ==>
      Evaluate(x, c).value.monthly + living + debt + AssessFrom(income, living, debt, ac).buffer <= income
  {
    var a := AssessFrom(income, living, debt, ac);
    HalfEvenOfInt(a.max);
    HalfEvenOfInt(a.recommended);
    var rate := GuaranteeRate(SafeInt(x.deposit) as real, c.table, c.rule);
    if rate.Ok? {
      VerdictLeavesRoom(income, living, debt, ac, ComponentsOf(x, rate.value, c), CapitalScore(x, c), PreferenceScore(x, c), c);
    }
  }

  // ---- What a scenario costs -----------------------------------------------------------------------------------------

  // A yearly charge on an amount, kept for the whole horizon.
  function Charge(amount: int, pct: real, years: nat): real { amount as real * pct / 100.0 * years as real }

  function LoanOf(x: Input): nat { Min(SafeInt(x.loan), SafeInt(x.deposit)) }

  predicate Guaranteed(x: Input) { x.insured && 0 < SafeInt(x.deposit) <= SafeInt(x.guaranteeCap) }

  // Interest on what is borrowed, the forgone return on what is not, the fee on the whole deposit
  // when it is guaranteed, and the running payments. The deposit itself comes back.
  function ExactCost(x: Input, guaranteePct: real, c: Constants): real {
    Charge(LoanOf(x), MaxReal(0.0, x.loanRatePct), c.horizonYears)
    + Charge(SafeInt(x.deposit) - LoanOf(x), c.opportunityPct, c.horizonYears)
    + (if Guaranteed(x) then Charge(SafeInt(x.deposit), guaranteePct, c.horizonYears) else 0.0)
    + ((SafeInt(x.rent) + SafeInt(x.maintenance)) * Months(c)) as real
  }

  lemma OverHorizonIsClose(amount: int, pct: real, years: nat)
    ensures Abs(OverHorizon(amount, pct, years) as real - Charge(amount, pct, years)) <= 0.5
  {
    HalfEvenBounds(Charge(amount, pct, years));
  }

  lemma RunningPayments(rent: nat, maintenance: nat, months: nat)
    ensures rent * months + maintenance * months == (rent + maintenance) * months
  {
  }

  // The total is off by the rounding of its three charges and by nothing else.
  lemma TotalIsExactCost(x: Input, guaranteePct: real, c: Constants)
    ensures Abs(Total(ComponentsOf(x, guaranteePct, c)) as real - ExactCost(x, guaranteePct, c)) <= 1.5
  {
    var loan, deposit := LoanOf(x), SafeInt(x.deposit);
    OverHorizonIsClose(loan, MaxReal(0.0, x.loanRatePct), c.horizonYears);
    OverHorizonIsClose(deposit - loan, c.opportunityPct, c.horizonYears);
    OverHorizonIsClose(deposit, guaranteePct, c.horizonYears);
    RunningPayments(SafeInt(x.rent), SafeInt(x.maintenance), Months(c));
    SumOfParts(ComponentsOf(x, guaranteePct, c), Charge(loan, MaxReal(0.0, x.loanRatePct), c.horizonYears),
      Charge(deposit - loan, c.opportunityPct, c.horizonYears), if Guaranteed(x) then Charge(deposit, guaranteePct, c.horizonYears) else 0.0,
      (SafeInt(x.rent) + SafeInt(x.maintenance)) * Months(c));
  }

  lemma SumOfParts(k: Components, interest: real, opportunity: real, fee: real, running: int)
    requires Abs(k.interest as real - interest) <= 0.5 && Abs(k.opportunityCost as real - opportunity) <= 0.5
    requires Abs(k.insurance as real - fee) <= 0.5 && k.rent + k.maintenance == running
    ensures Abs(Total(k) as real - (interest + opportunity + fee + running as real)) <= 1.5
  {
  }

  // ---- More capital ---------------------------------------------------------------------------------------------------

  lemma LessLacking(weight: real, lack: real, lack': real)
    requires weight >= 0.0 && lack' <= lack
    ensures Weighted(weight, lack) <= Weighted(weight, lack')
  {
    Npv.ScaleKeepsOrder(weight, 1.0 - MinReal(1.0, lack), 1.0 - MinReal(1.0, lack'));
  }

  lemma CapitalShareGrows(own: nat, lack: nat, lack': nat, weight: real)
    requires weight >= 0.0 && lack' <= lack
    ensures CapitalShare(own, lack, weight) <= CapitalShare(own, lack', weight)
  {
    if own > 0 {
      DivideKeepsOrder(lack' as real, lack as real, own as real);
      LessLacking(weight, Ratio(lack as real, own as real), Ratio(lack' as real, own as real));
    }
  }

  lemma CapitalScoreGrows(x: Input, assets': real, c: Constants)
    requires x.assets <= assets' && c.capitalWeight >= 0.0
    ensures CapitalScore(x, c) <= CapitalScore(x.(assets := assets'), c)
  {
    HalfEvenMonotone(x.assets, assets');
    var own := Max(0, SafeInt(x.deposit) - LoanOf(x));
    CapitalShareGrows(own, Max(0, own - SafeInt(x.assets)), Max(0, own - SafeInt(assets')), c.capitalWeight);
  }

  // More liquid assets change nothing about cost or verdict and never lower the score.
  lemma MoreAssetsNeverHurt(x: Input, assets': real, c: Constants)
    requires Sensible(c) && x.assets <= assets' && c.capitalWeight >= 0.0
    ensures Evaluate(x, c).Ok? <==> Evaluate(x.(assets := assets'), c).Ok?
    ensures Evaluate(x, c).Ok? ==>
      OnlyFitGrows(Evaluate(x, c).value, Evaluate(x.(assets := assets'), c).value)
  {
    var rate := GuaranteeRate(SafeInt(x.deposit) as real, c.table, c.rule);
    if rate.Ok? {
      CapitalScoreGrows(x, assets', c);
      JudgeCapital(ComponentsOf(x, rate.value, c), SafeInt(x.affordableMax), SafeInt(x.affordableRecommended),
        CapitalScore(x, c), CapitalScore(x.(assets := assets'), c), PreferenceScore(x, c), c);
    }
  }

  ghost predicate OnlyFitGrows(e: Evaluation, e': Evaluation) { e.fit <= e'.fit && e' == e.(fit := e'.fit) }

  lemma JudgeCapital(k: Components, max: nat, recommended: nat, capital: real, capital': real, preference: real, c: Constants)
    requires Sensible(c) && capital <= capital'
    ensures OnlyFitGrows(Judge(k, max, recommended, capital, preference, c), Judge(k, max, recommended, capital', preference, c))
  {
    var afford := AffordScore(FloorTo(PerMonth(Total(k), c), c.monthlyUnit), recommended, c);
    HalfEvenMonotone(afford + capital + preference, afford + capital' + preference);
  }

  // ---- Every figure of an evaluation -----------------------------------------------------------------------------------

  // A yearly charge over the horizon, rounded to the nearest won.
  ghost predicate RoundedCharge(n: int, amount: int, pct: real, years: nat) {
    NearestEven(n, amount as real * pct / 100.0 * years as real)
  }

  lemma OverHorizonIs(amount: int, pct: real, years: nat)
    ensures RoundedCharge(OverHorizon(amount, pct, years), amount, pct, years)
  {
    HalfEvenIsNearest(amount as real * pct / 100.0 * years as real);
  }

  // Each component is its own rounded charge or its running payment.
  lemma ComponentsAre(x: Input, guaranteePct: real, c: Constants)
    ensures var k, deposit, years := ComponentsOf(x, guaranteePct, c), SafeInt(x.deposit), c.horizonYears;
      var loan := if SafeInt(x.loan) <= deposit then SafeInt(x.loan) else deposit;
      && RoundedCharge(k.interest, loan, if x.loanRatePct > 0.0 then x.loanRatePct else 0.0, years)
      && k.rent == SafeInt(x.rent) * (12 * years) && k.maintenance == SafeInt(x.maintenance) * (12 * years)
      && RoundedCharge(k.opportunityCost, deposit - loan, c.opportunityPct, years)
      && (x.insured && 0 < deposit <= SafeInt(x.guaranteeCap) ==> RoundedCharge(k.insurance, deposit, guaranteePct, years))
      && (!x.insured || deposit == 0 || deposit > SafeInt(x.guaranteeCap) ==> k.insurance == 0)
  {
    var deposit, loan, years := SafeInt(x.deposit), LoanOf(x), c.horizonYears;
    OverHorizonIs(loan, if x.loanRatePct > 0.0 then x.loanRatePct else 0.0, years);
    OverHorizonIs(deposit - loan, c.opportunityPct, years);
    OverHorizonIs(deposit, guaranteePct, years);
  }

  // Within the recommended amount the weight counts whole; above it every share of an overrun
  // costs the slope, down to nothing; without a recommended amount there is nothing to count.
  lemma AffordScoreIs(monthly: nat, recommended: nat, c: Constants)
    ensures recommended == 0 ==> AffordScore(monthly, recommended, c) == 0.0
    ensures recommended > 0 && monthly <= recommended ==> AffordScore(monthly, recommended, c) == c.affordWeight
    ensures recommended > 0 && monthly > recommended ==> LeftAfterOverrun(AffordScore(monthly, recommended, c), monthly, recommended, c)
  {
    if recommended > 0 {
      var over := monthly as real / recommended as real;
      assert over * recommended as real == monthly as real;
      OverIffAbove(over, monthly, recommended);
      if monthly > recommended { OverrunScore(c.affordWeight - (over - 1.0) * c.overrunSlope, over, monthly, recommended, c); }
    }
  }

  // The weight less the overrun's price, both per won of the recommended amount, but not below zero.
  ghost predicate LeftAfterOverrun(score: real, monthly: nat, recommended: nat, c: Constants) {
    var left := c.affordWeight * recommended as real - (monthly - recommended) as real * c.overrunSlope;
    score >= 0.0 && score * recommended as real >= left && (score == 0.0 || score * recommended as real == left)
  }

  lemma OverrunScore(left: real, over: real, monthly: nat, recommended: nat, c: Constants)
    requires recommended > 0 && over * recommended as real == monthly as real
    requires left == c.affordWeight - (over - 1.0) * c.overrunSlope
    ensures LeftAfterOverrun(MaxReal(0.0, left), monthly, recommended, c)
  {
    OverrunLeaves(c.affordWeight, c.overrunSlope, over, monthly, recommended);
    if left < 0.0 { NegativeProduct(left, recommended as real); }
  }

  lemma NegativeProduct(x: real, y: real)
    requires x < 0.0 && y > 0.0
    ensures x * y <= 0.0
  {
  }

  lemma OverIffAbove(over: real, monthly: nat, recommended: nat)
    requires recommended > 0 && over * recommended as real == monthly as real
    ensures over <= 1.0 <==> monthly <= recommended
  {
    if over > 1.0 { assert (over - 1.0) * recommended as real > 0.0; } else { assert (1.0 - over) * recommended as real >= 0.0; }
  }

  lemma OverrunLeaves(weight: real, slope: real, over: real, monthly: nat, recommended: nat)
    requires over * recommended as real == monthly as real
    ensures (weight - (over - 1.0) * slope) * recommended as real == weight * recommended as real - (monthly - recommended) as real * slope
  {
    var r := recommended as real;
    assert (over - 1.0) * r == (monthly - recommended) as real;
    assert (over - 1.0) * slope * r == (over - 1.0) * r * slope;
  }

  // Own capital counts by the share of it that is there.
  lemma CapitalShareIs(own: nat, lack: nat, weight: real)
    ensures own == 0 ==> CapitalShare(own, lack, weight) == weight
    ensures own > 0 ==> CapitalShare(own, lack, weight) * own as real == weight * (own - Min(own, lack)) as real
  {
    if own > 0 {
      var short := lack as real / own as real;
      assert short * own as real == lack as real;
      OverIffAbove(short, lack, own);
      WeightedShare(weight, MinReal(1.0, short), own, Min(own, lack));
    }
  }

  lemma WeightedShare(weight: real, short: real, own: nat, lack: nat)
    requires short * own as real == lack as real && lack <= own
    ensures weight * (1.0 - short) * own as real == weight * (own - lack) as real
  {
    assert (1.0 - short) * own as real == (own - lack) as real;
    assert weight * (1.0 - short) * own as real == weight * ((1.0 - short) * own as real);
  }

  // The present value is the sum of what the months are worth now, rounded to the nearest won, and
  // the score is the rounded sum of the three scores, held between 0 and 100.
  lemma JudgeIs(k: Components, max: nat, recommended: nat, capital: real, preference: real, c: Constants, score: int)
    requires Sensible(c) && NearestEven(score, AffordScore(Judge(k, max, recommended, capital, preference, c).monthly, recommended, c) + capital + preference)
    ensures var e, cost := Judge(k, max, recommended, capital, preference, c), PerMonth(Total(k), c);
      && e.components == k && e.tco == k.interest + k.rent + k.maintenance + k.opportunityCost + k.insurance
      && cost * (12 * c.horizonYears) as real == e.tco as real
      && (e.tco <= 0 ==> e.npv == 0)
      && (e.tco > 0 ==> NearestEven(e.npv, Npv.Discounted(cost, MaxReal(0.0, c.monthlyDiscount), 12 * c.horizonYears)))
      && e.fit == (if score < 0 then 0 else if score > 100 then 100 else score)
      && (e.grade == Affordable <==> max > 0 && e.monthly <= recommended)
      && (e.grade == Stretch <==> max > 0 && recommended < e.monthly <= max)
  {
    var cost := PerMonth(Total(k), c);
    CostPerMonth(Total(k), Months(c), cost);
    OnlyHalfEvenIsNearest(score, AffordScore(FloorTo(cost, c.monthlyUnit), recommended, c) + capital + preference);
    if Total(k) > 0 { Npv.NpvIsDiscountedSum(cost, Months(c), c.monthlyDiscount); }
  }

  lemma CostPerMonth(tco: int, months: nat, cost: real)
    requires months > 0 && cost == tco as real / months as real
    ensures cost * months as real == tco as real && (cost > 0.0 <==> tco > 0)
  {
  }

  // An evaluation judges these components against the household's two limits.
  lemma EvaluationIs(x: Input, c: Constants)
    requires Sensible(c)
    ensures Evaluate(x, c).Ok? <==> GuaranteeRate(SafeInt(x.deposit) as real, c.table, c.rule).Ok?
    ensures Evaluate(x, c).Ok? ==>
      var pct := GuaranteeRate(SafeInt(x.deposit) as real, c.table, c.rule).value;
      var preference := if x.preferred == "any" || x.preferred == x.kind then c.matchScore else c.mismatchScore;
      Evaluate(x, c).value
      == Judge(ComponentsOf(x, pct, c), SafeInt(x.affordableMax), SafeInt(x.affordableRecommended), CapitalScore(x, c), preference, c)
  {
  }

  lemma CapitalScoreIs(x: Input, c: Constants)
    ensures HasCapitalScore(x, c.capitalWeight, CapitalScore(x, c))
  {
    var own := SafeInt(x.deposit) - LoanOf(x);
    CapitalShareIs(own, if own > SafeInt(x.assets) then own - SafeInt(x.assets) else 0, c.capitalWeight);
  }

  // Own capital is the deposit less the loan; the score is the weight's share for what the
  // household has of it.
  ghost predicate HasCapitalScore(x: Input, weight: real, score: real) {
    var own, assets := SafeInt(x.deposit) - LoanOf(x), SafeInt(x.assets);
    if own == 0 then score == weight
    else score * own as real == weight * (if assets < own then assets else own) as real
  }
}
