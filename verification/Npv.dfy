// Present value of a level monthly outflow (engines/tco.py, _npv). Amounts and rates are exact
// reals. The twelfth root the code takes is a parameter tied to its twelfth power.
module Npv {
  import opened Rounding

  function Power(base: real, n: nat): real {
    if n == 0 then 1.0 else base * Power(base, n - 1)
  }

  lemma {:induction false} PowerPositive(base: real, n: nat)
    requires base > 0.0
    ensures Power(base, n) > 0.0
  {
    if n > 0 {
      PowerPositive(base, n - 1);
      ProductPositive(base, Power(base, n - 1));
    }
  }

  lemma ProductPositive(a: real, b: real)
    requires a > 0.0 && b > 0.0
    ensures a * b > 0.0
  {
  }

  // `rate` is (1 + d / 100) ** (1 / 12) - 1 for a yearly rate of d percent.
  ghost predicate MonthlyRate(rate: real, yearlyPct: real) {
    rate >= -1.0 && Power(1.0 + rate, 12) == 1.0 + yearlyPct / 100.0
  }

  // (1 + rate) ** (-months)
  function Discount(rate: real, months: nat): real
    requires rate > -1.0
  {
    PowerPositive(1.0 + rate, months);
    1.0 / Power(1.0 + rate, months)
  }

  function Factor(rate: real, months: nat): real
    requires rate > 0.0
  {
    (1.0 - Discount(rate, months)) / rate
  }

  function Npv(monthlyCost: real, months: nat, monthlyRate: real): int {
    if monthlyCost <= 0.0 then 0
    else HalfEven(Present(monthlyCost, months, monthlyRate))
  }

  function Present(monthlyCost: real, months: nat, monthlyRate: real): real {
    if monthlyRate <= 0.0 then monthlyCost * months as real else monthlyCost * Factor(monthlyRate, months)
  }

  // What the k-th payment is worth now.
  function Payment(monthlyCost: real, rate: real, k: nat): real
    requires rate > -1.0
  {
    monthlyCost * Discount(rate, k)
  }

  // The definition of present value: the k-th payment is divided by (1 + rate)^k.
  function Discounted(monthlyCost: real, rate: real, months: nat): real
    requires rate > -1.0
  {
    if months == 0 then 0.0 else Discounted(monthlyCost, rate, months - 1) + Payment(monthlyCost, rate, months)
  }

  // ---- The closed form -------------------------------------------------------------------------------

  lemma Reciprocals(rate: real, p: real, q: real)
    requires rate > -1.0 && p > 0.0 && q == (1.0 + rate) * p && q > 0.0
    ensures 1.0 / p == (1.0 + rate) * (1.0 / q)
  {
    var w := 1.0 / q;
    assert w * q == 1.0;
    assert ((1.0 + rate) * w) * p == w * q;
  }

  lemma DiscountStep(rate: real, months: nat)
    requires rate > -1.0 && months > 0
    ensures Discount(rate, months - 1) == (1.0 + rate) * Discount(rate, months)
  {
    PowerPositive(1.0 + rate, months - 1);
    PowerPositive(1.0 + rate, months);
    Reciprocals(rate, Power(1.0 + rate, months - 1), Power(1.0 + rate, months));
  }

  lemma Telescope(rate: real, before: real, after: real)
    requires rate > 0.0 && before == (1.0 + rate) * after
    ensures (1.0 - after) / rate == (1.0 - before) / rate + after
  {
    var x := (1.0 - before) / rate;
    assert x * rate == 1.0 - before;
    assert (x + after) * rate == 1.0 - before + after * rate;
    assert before == after + rate * after;
  }

  lemma FactorStep(rate: real, months: nat)
    requires rate > 0.0 && months > 0
    ensures Factor(rate, months) == Factor(rate, months - 1) + Discount(rate, months)
  {
    DiscountStep(rate, months);
    Telescope(rate, Discount(rate, months - 1), Discount(rate, months));
  }

  lemma Distribute(c: real, a: real, b: real, sum: real)
    requires sum == a + b
    ensures c * sum == c * a + c * b
  {
  }

  lemma {:induction false} ClosedForm(monthlyCost: real, rate: real, months: nat)
    requires rate > 0.0
    ensures Discounted(monthlyCost, rate, months) == monthlyCost * Factor(rate, months)
  {
    if months == 0 {
      assert Discount(rate, 0) == 1.0;
      assert Factor(rate, 0) == 0.0;
    } else {
      ClosedForm(monthlyCost, rate, months - 1);
      FactorStep(rate, months);
      Distribute(monthlyCost, Factor(rate, months - 1), Discount(rate, months), Factor(rate, months));
    }
  }

  lemma PaymentAtPar(monthlyCost: real, k: nat)
    ensures Payment(monthlyCost, 0.0, k) == monthlyCost
  {
    PowerOfOne(k);
    assert Discount(0.0, k) == 1.0;
  }

  lemma OnePaymentMore(monthlyCost: real, months: nat)
    requires months > 0
    ensures monthlyCost * months as real == monthlyCost * (months - 1) as real + monthlyCost
  {
    Distribute(monthlyCost, (months - 1) as real, 1.0, months as real);
  }

  lemma {:induction false} Undiscounted(monthlyCost: real, months: nat)
    ensures Discounted(monthlyCost, 0.0, months) == monthlyCost * months as real
  {
    if months > 0 {
      Undiscounted(monthlyCost, months - 1);
      PaymentAtPar(monthlyCost, months);
      OnePaymentMore(monthlyCost, months);
    }
  }

  lemma {:induction false} PowerOfOne(n: nat)
    ensures Power(1.0, n) == 1.0
  {
    if n > 0 { PowerOfOne(n - 1); }
  }

  // The rate the result is discounted at: a rate of zero or less does not discount.
  function Effective(rate: real): real { if rate > 0.0 then rate else 0.0 }

  // The printed figure is the discounted sum, rounded to the nearest won.
  lemma NpvIsDiscountedSum(monthlyCost: real, months: nat, rate: real)
    requires monthlyCost > 0.0
    ensures NearestEven(Npv(monthlyCost, months, rate), Discounted(monthlyCost, Effective(rate), months))
    ensures Abs(Npv(monthlyCost, months, rate) as real - Discounted(monthlyCost, Effective(rate), months)) <= 0.5
  {
    if rate > 0.0 { ClosedForm(monthlyCost, rate, months); } else { Undiscounted(monthlyCost, months); }
    HalfEvenIsNearest(Discounted(monthlyCost, Effective(rate), months));
    HalfEvenBounds(Discounted(monthlyCost, Effective(rate), months));
  }

  // ---- How it moves with the rate ------------------------------------------------------------------------

  lemma {:induction false} PowerGrows(a: real, b: real, n: nat)
    requires 0.0 <= a <= b
    ensures 0.0 <= Power(a, n) <= Power(b, n)
  {
    if n > 0 {
      PowerGrows(a, b, n - 1);
      ProductGrows(a, b, Power(a, n - 1), Power(b, n - 1));
    }
  }

  lemma ProductGrows(a: real, b: real, p: real, q: real)
    requires 0.0 <= a <= b && 0.0 <= p <= q
    ensures 0.0 <= a * p <= b * q
  {
    assert a * p <= b * p;
    assert b * p <= b * q;
  }

  lemma ReciprocalFalls(p: real, q: real)
    requires 0.0 < p <= q
    ensures 1.0 / q <= 1.0 / p
  {
    var u, w := 1.0 / p, 1.0 / q;
    assert u * p == 1.0 && w * q == 1.0;
    assert w * p <= w * q;
    assert (w - u) * p <= 0.0;
  }

  lemma DiscountFalls(r: real, s: real, months: nat)
    requires -1.0 < r <= s
    ensures Discount(s, months) <= Discount(r, months)
  {
    PowerPositive(1.0 + r, months);
    PowerGrows(1.0 + r, 1.0 + s, months);
    ReciprocalFalls(Power(1.0 + r, months), Power(1.0 + s, months));
  }

  lemma ScaleKeepsOrder(c: real, a: real, b: real)
    requires c >= 0.0 && a <= b
    ensures c * a <= c * b
  {
  }

  lemma PaymentFalls(monthlyCost: real, r: real, s: real, k: nat)
    requires monthlyCost >= 0.0 && -1.0 < r <= s
    ensures Payment(monthlyCost, s, k) <= Payment(monthlyCost, r, k)
  {
    DiscountFalls(r, s, k);
    ScaleKeepsOrder(monthlyCost, Discount(s, k), Discount(r, k));
  }

  lemma {:induction false} DiscountedFalls(monthlyCost: real, r: real, s: real, months: nat)
    requires monthlyCost >= 0.0 && -1.0 < r <= s
    ensures Discounted(monthlyCost, s, months) <= Discounted(monthlyCost, r, months)
  {
    if months > 0 {
      DiscountedFalls(monthlyCost, r, s, months - 1);
      PaymentFalls(monthlyCost, r, s, months);
    }
  }

  lemma NpvIsRounded(monthlyCost: real, months: nat, rate: real)
    requires monthlyCost > 0.0
    ensures Npv(monthlyCost, months, rate) == HalfEven(Discounted(monthlyCost, Effective(rate), months))
  {
    NpvIsDiscountedSum(monthlyCost, months, rate);
    OnlyHalfEvenIsNearest(Npv(monthlyCost, months, rate), Discounted(monthlyCost, Effective(rate), months));
  }

  // A higher rate never gives a higher figure, and none exceeds the undiscounted total.
  lemma NpvFallsWithRate(monthlyCost: real, months: nat, r: real, s: real)
    requires r <= s
    ensures Npv(monthlyCost, months, s) <= Npv(monthlyCost, months, r)
    ensures monthlyCost > 0.0 ==> Npv(monthlyCost, months, s) <= HalfEven(monthlyCost * months as real)
  {
    if monthlyCost > 0.0 {
      NpvIsRounded(monthlyCost, months, r);
      NpvIsRounded(monthlyCost, months, s);
      DiscountedFalls(monthlyCost, Effective(r), Effective(s), months);
      DiscountedFalls(monthlyCost, 0.0, Effective(s), months);
      Undiscounted(monthlyCost, months);
      HalfEvenMonotone(Discounted(monthlyCost, Effective(s), months), Discounted(monthlyCost, Effective(r), months));
      HalfEvenMonotone(Discounted(monthlyCost, Effective(s), months), Discounted(monthlyCost, 0.0, months));
    }
  }

  lemma FactorNonNegative(rate: real, months: nat)
    requires rate > 0.0
    ensures Factor(rate, months) >= 0.0
  {
    PowerPositive(1.0 + rate, months);
    DiscountFalls(0.0, rate, months);
    PowerOfOne(months);
    NonNegativeQuotient(1.0 - Discount(rate, months), rate);
  }

  lemma NonNegativeQuotient(a: real, b: real)
    requires a >= 0.0 && b > 0.0
    ensures a / b >= 0.0
  {
  }

  lemma DiscountedGrows(cost: real, cost': real, months: nat, rate: real)
    requires 0.0 <= cost <= cost' && rate > 0.0
    ensures 0.0 <= Present(cost, months, rate) <= Present(cost', months, rate)
  {
    FactorNonNegative(rate, months);
    ScaleFrom0(cost, cost', Factor(rate, months));
  }

  lemma UndiscountedGrows(cost: real, cost': real, months: nat, rate: real)
    requires 0.0 <= cost <= cost' && rate <= 0.0
    ensures 0.0 <= Present(cost, months, rate) <= Present(cost', months, rate)
  {
    ScaleFrom0(cost, cost', months as real);
  }

  lemma ScaleFrom0(a: real, b: real, k: real)
    requires 0.0 <= a <= b && k >= 0.0
    ensures 0.0 <= a * k <= b * k
  {
  }

  // A larger monthly cost never has a smaller present value.
  lemma NpvGrowsWithCost(cost: real, cost': real, months: nat, rate: real)
    requires cost <= cost'
    ensures Npv(cost, months, rate) <= Npv(cost', months, rate)
  {
    if cost' > 0.0 {
      var from := if cost > 0.0 then cost else 0.0;
      if rate > 0.0 { DiscountedGrows(from, cost', months, rate); } else { UndiscountedGrows(from, cost', months, rate); }
      HalfEvenMonotone(0.0, Present(from, months, rate));
      HalfEvenMonotone(Present(from, months, rate), Present(cost', months, rate));
    }
  }

  // ---- The monthly rate ------------------------------------------------------------------------------------

  lemma {:induction false} PowerGrowsStrictly(a: real, b: real, n: nat)
    requires 0.0 <= a < b && n > 0
    ensures Power(a, n) < Power(b, n)
  {
    if n == 1 {
      PowerOne(a);
      PowerOne(b);
    } else {
      PowerGrowsStrictly(a, b, n - 1);
      PowerGrows(a, a, n - 1);
      StrictProduct(a, b, Power(a, n - 1), Power(b, n - 1));
    }
  }

  lemma PowerOne(a: real)
    ensures Power(a, 1) == a
  {
    assert Power(a, 0) == 1.0;
  }

  lemma StrictProduct(a: real, b: real, p: real, q: real)
    requires 0.0 <= a < b && 0.0 <= p < q
    ensures a * p < b * q
  {
    assert a * p <= b * p;
    assert b * p < b * q;
  }

  // A yearly rate has at most one monthly rate, the two have the same sign, and they move together.
  lemma MonthlyRatesMoveTogether(r: real, yearly: real, s: real, yearly': real)
    requires MonthlyRate(r, yearly) && MonthlyRate(s, yearly')
    ensures r < s <==> yearly < yearly'
    ensures r == s <==> yearly == yearly'
  {
    if r < s { PowerGrowsStrictly(1.0 + r, 1.0 + s, 12); }
    if s < r { PowerGrowsStrictly(1.0 + s, 1.0 + r, 12); }
  }

  lemma SignOfMonthlyRate(rate: real, yearly: real)
    requires MonthlyRate(rate, yearly)
    ensures rate <= 0.0 <==> yearly <= 0.0
  {
    PowerOfOne(12);
    MonthlyRatesMoveTogether(rate, yearly, 0.0, 0.0);
  }

  // ---- What a payment is worth, without powers --------------------------------------------------------

  // A payment now is worth itself, and each month of waiting costs one month's rate.
  lemma PaymentWaits(monthlyCost: real, rate: real, k: nat)
    requires rate > -1.0
    ensures Payment(monthlyCost, rate, 0) == monthlyCost
    ensures Payment(monthlyCost, rate, k + 1) * (1.0 + rate) == Payment(monthlyCost, rate, k)
  {
    PowerPositive(1.0 + rate, k);
    WaitOneMore(monthlyCost, 1.0 + rate, Power(1.0 + rate, k));
  }

  lemma WaitOneMore(cost: real, growth: real, p: real)
    requires growth > 0.0 && p > 0.0 && growth * p > 0.0
    ensures cost * (1.0 / (growth * p)) * growth == cost * (1.0 / p)
  {
    var x, y := 1.0 / (growth * p), 1.0 / p;
    assert x * (growth * p) == 1.0 && y * p == 1.0;
    InverseOfProduct(x, y, growth, p);
    assert x * growth == y;
    assert cost * x * growth == cost * (x * growth);
  }

  lemma InverseOfProduct(x: real, y: real, growth: real, p: real)
    requires p > 0.0 && x * (growth * p) == 1.0 && y * p == 1.0
    ensures x * growth == y
  {
    assert x * growth * p == y * p;
    assert (x * growth - y) * p == 0.0;
  }
}
