// Fixed-point printing of a double, exactly (format.js, decompose, scaledRoundHalfEven,
// decimalString). Shifts and masks on words are written as divisions and remainders.
module Decimal {
  import opened Basics
  import opened Digits
  import opened Rounding

  // ---- Powers of two -------------------------------------------------------------------------

  function TwoTo(n: nat): (p: nat)
    ensures p > 0
  {
    if n == 0 then 1 else 2 * TwoTo(n - 1)
  }

  function Pow2(k: int): (p: real)
    ensures p > 0.0
  {
    if k >= 0 then TwoTo(k) as real else 1.0 / TwoTo(-k) as real
  }

  lemma {:induction false} TwoToSum(a: nat, b: nat)
    ensures TwoTo(a + b) == TwoTo(a) * TwoTo(b)
  {
    if a > 0 { TwoToSum(a - 1, b); }
  }

  lemma ProductAsReal(a: nat, b: nat)
    ensures (a * b) as real == a as real * b as real
  {
  }

  lemma Doubled(n: nat, half: nat, value: nat)
    requires TwoTo(n) == half && value == half * half
    ensures TwoTo(n + n) == value
  {
    TwoToSum(n, n);
  }

  lemma TwoTo16()
    ensures TwoTo(16) == 0x1_0000
  {
    assert TwoTo(2) == 4;
    Doubled(2, 4, 0x10);
    Doubled(4, 0x10, 0x100);
    Doubled(8, 0x100, 0x1_0000);
  }

  lemma Joined(a: nat, b: nat, sum: nat, x: nat, y: nat, value: nat)
    requires sum == a + b && TwoTo(a) == x && TwoTo(b) == y && value == x * y
    ensures TwoTo(sum) == value
  {
    TwoToSum(a, b);
  }

  lemma TwoTo52(n: nat)
    requires n == 52
    ensures TwoTo(n) == 0x10_0000_0000_0000
  {
    TwoTo16();
    assert TwoTo(4) == 0x10 by { assert TwoTo(2) == 4; }
    Joined(16, 16, n - 20, 0x1_0000, 0x1_0000, 0x1_0000_0000);
    Joined(n - 20, 16, n - 4, 0x1_0000_0000, 0x1_0000, 0x1_0000_0000_0000);
    Joined(n - 4, 4, n, 0x1_0000_0000_0000, 0x10, 0x10_0000_0000_0000);
  }

  // Raising the exponent by 52 multiplies by 2^52, on either side of zero and across it.
  lemma Raise(n: nat)
    ensures TwoTo(n + 52) == TwoTo(n) * 0x10_0000_0000_0000
  {
    TwoTo52(52);
    Joined(n, 52, n + 52, TwoTo(n), 0x10_0000_0000_0000, TwoTo(n) * 0x10_0000_0000_0000);
  }

  lemma InverseOfMultiple(low: real, high: real)
    requires low > 0.0 && high == low * 4503599627370496.0
    ensures 1.0 / low == 1.0 / high * 4503599627370496.0
  {
    var u, v := 1.0 / low, 1.0 / high;
    assert u * low == 1.0 && v * high == 1.0;
    assert (v * 4503599627370496.0) * low == 1.0;
  }

  lemma RaiseInverse(n: nat)
    ensures 1.0 / TwoTo(n) as real == 1.0 / TwoTo(n + 52) as real * 4503599627370496.0
  {
    Raise(n);
    InverseOfMultiple(TwoTo(n) as real, TwoTo(n + 52) as real);
  }

  lemma Complement(a: nat, b: nat)
    requires a > 0 && a * b == 0x10_0000_0000_0000
    ensures b as real == 1.0 / a as real * 4503599627370496.0
  {
    var u := 1.0 / a as real;
    ProductAsReal(a, b);
    assert u * a as real == 1.0;
    assert b as real == (u * a as real) * b as real;
    assert (u * a as real) * b as real == u * (a as real * b as real);
  }

  lemma RaiseAcross(n: nat)
    requires n <= 52
    ensures TwoTo(52 - n) as real == 1.0 / TwoTo(n) as real * 4503599627370496.0
  {
    TwoTo52(52);
    TwoToSum(n, 52 - n);
    Complement(TwoTo(n), TwoTo(52 - n));
  }

  lemma Pow2Of(k: int, n: nat)
    requires k == n || k + n == 0
    ensures Pow2(k) == if k == n then TwoTo(n) as real else 1.0 / TwoTo(n) as real
  {
  }

  lemma Ulp(e: int)
    ensures Pow2(e + 52) == Pow2(e) * 4503599627370496.0
  {
    if e >= 0 {
      Raise(e);
    } else if e >= -52 {
      RaiseAcross(-e);
      Pow2Of(e, -e);
      Pow2Of(e + 52, 52 - -e);
    } else {
      RaiseInverse(-e - 52);
      Pow2Of(e, -e);
      Pow2Of(e + 52, -e - 52);
    }
  }

  // ---- The binary64 format (IEEE 754-2019 section 3.4) -----------------------------------------

  datatype Double = Double(negative: bool, biased: nat, fraction: nat)

  predicate WellFormed(x: Double) { x.biased <= 0x7ff && x.fraction < 0x10_0000_0000_0000 }

  predicate Finite(x: Double) { x.biased < 0x7ff }

  // Magnitude of a finite datum.
  function Magnitude(x: Double): real {
    var f := x.fraction as real / 4503599627370496.0;
    if x.biased == 0 then Pow2(1 - 1023) * f else Pow2(x.biased - 1023) * (1.0 + f)
  }

  // The two big-endian 32-bit words that `setFloat64` writes.
  function Words(x: Double): (w: (nat, nat)) {
    var bits := (if x.negative then 0x8000_0000_0000_0000 else 0) + x.biased * 0x10_0000_0000_0000 + x.fraction;
    (bits / 0x1_0000_0000, bits % 0x1_0000_0000)
  }

  datatype Parts = Parts(negative: bool, mant: nat, e: int)

  // Sign, significand and exponent of a datum, the implicit leading one put back.
  function PartsOf(x: Double): Parts { Parts(x.negative, Significand(x), Exponent(x)) }

  method Decompose(x: Double) returns (parts: Parts)
    requires WellFormed(x)
    ensures parts == PartsOf(x)
    ensures Finite(x) ==> Exact(parts, x)
  {
    var (hi, lo) := Words(x);
    FieldsOfWords(x);
    var negative := hi / 0x8000_0000 == 1;
    var biased := (hi / 0x10_0000) % 0x800;
    var mant := (hi % 0x10_0000) * 0x1_0000_0000 + lo;
    var e;
    if biased == 0 {
      e := -1074;
    } else {
      mant := mant + 0x10_0000_0000_0000;
      e := biased - 1075;
    }
    parts := Parts(negative, mant, e);
    PartsAreExact(x, parts);
  }

  ghost function ValueOf(mant: nat, e: int): real { mant as real * Pow2(e) }

  // The parts stand for the very value of the datum.
  ghost predicate Exact(parts: Parts, x: Double) {
    parts.negative == x.negative && ValueOf(parts.mant, parts.e) == Magnitude(x)
  }

  lemma FieldsOfWords(x: Double)
    requires WellFormed(x)
    ensures Words(x).0 < 0x1_0000_0000 && Words(x).1 < 0x1_0000_0000
    ensures (Words(x).0 / 0x8000_0000 == 1) == x.negative
    ensures (Words(x).0 / 0x10_0000) % 0x800 == x.biased
    ensures (Words(x).0 % 0x10_0000) * 0x1_0000_0000 + Words(x).1 == x.fraction
  {
  }

  function Exponent(x: Double): int { if x.biased == 0 then -1074 else x.biased - 1075 }

  function Significand(x: Double): nat { if x.biased == 0 then x.fraction else x.fraction + 0x10_0000_0000_0000 }

  lemma Rescale(f: real, u: real, low: real)
    requires u > 0.0
    ensures (low * u) * (f / u) == f * low
    ensures (low * u) * (1.0 + f / u) == (f + u) * low
  {
    var g := f / u;
    assert f == g * u;
    assert (low * u) * g == (g * u) * low;
    assert (low * u) * (1.0 + g) == low * u + (low * u) * g;
  }

  lemma SubnormalIsScaled(x: Double)
    requires x.biased == 0
    ensures Magnitude(x) == x.fraction as real * Pow2(-1074)
  {
    Ulp(-1074);
    Rescale(x.fraction as real, 4503599627370496.0, Pow2(-1074));
  }

  lemma NormalIsScaled(x: Double, e: int)
    requires x.biased > 0 && e == x.biased - 1075
    ensures Magnitude(x) == (x.fraction + 0x10_0000_0000_0000) as real * Pow2(e)
  {
    Ulp(e);
    Rescale(x.fraction as real, 4503599627370496.0, Pow2(e));
  }

  lemma MagnitudeIsScaled(x: Double, e: int)
    requires WellFormed(x) && e == Exponent(x)
    ensures Magnitude(x) == Significand(x) as real * Pow2(e)
  {
    if x.biased == 0 { SubnormalIsScaled(x); } else { NormalIsScaled(x, e); }
  }

  lemma PartsAreExact(x: Double, parts: Parts)
    requires WellFormed(x) && parts == PartsOf(x)
    ensures Exact(parts, x)
  {
    MagnitudeIsScaled(x, parts.e);
  }

  // ---- Rounding to a number of decimal places ---------------------------------------------------

  lemma Quotient(numerator: nat, denominator: nat)
    requires denominator > 0
    ensures numerator as real / denominator as real == (numerator / denominator) as real + (numerator % denominator) as real / denominator as real
    ensures 0.0 <= (numerator % denominator) as real / denominator as real < 1.0
  {
    var n, d, q, r := numerator as real, denominator as real, (numerator / denominator) as real, (numerator % denominator) as real;
    assert numerator == numerator / denominator * denominator + numerator % denominator;
    assert n == q * d + r;
    assert (q * d) / d == q;
  }

  lemma HalfEvenOfParts(x: real, whole: int, rest: real)
    requires x == whole as real + rest && 0.0 <= rest < 1.0
    ensures HalfEven(x) == whole + (if rest > 0.5 || (rest == 0.5 && whole % 2 == 1) then 1 else 0)
  {
    assert x.Floor == whole;
  }

  lemma Ratio(r: real, d: real, f: real)
    requires d > 0.0 && f == r / d
    ensures f > 0.5 <==> r > 0.5 * d
    ensures f == 0.5 <==> r == 0.5 * d
  {
    assert f * d == r;
  }

  // Comparing twice the remainder with the denominator is comparing the fraction with a half.
  lemma AgainstHalf(r: nat, d: nat, f: real)
    requires d > 0 && f == r as real / d as real
    ensures f > 0.5 <==> 2 * r > d
    ensures f == 0.5 <==> 2 * r == d
  {
    Ratio(r as real, d as real, f);
  }

  lemma RoundedQuotient(numerator: nat, denominator: nat)
    requires denominator > 0
    ensures var twiceRest := (numerator % denominator) * 2;
      HalfEven(numerator as real / denominator as real) ==
        numerator / denominator + (if twiceRest > denominator || (twiceRest == denominator && numerator / denominator % 2 == 1) then 1 else 0)
  {
    var rest := numerator % denominator;
    Quotient(numerator, denominator);
    AgainstHalf(rest, denominator, rest as real / denominator as real);
    HalfEvenOfParts(numerator as real / denominator as real, numerator / denominator, rest as real / denominator as real);
  }

  lemma Swap(m: real, p: real, s: real)
    ensures m * p * s == m * s * p
  {
  }

  lemma ScaledUp(mant: nat, e: nat, scale: nat)
    ensures mant as real * Pow2(e) * scale as real == (mant * scale * TwoTo(e)) as real
  {
    ProductAsReal(mant, scale);
    ProductAsReal(mant * scale, TwoTo(e));
    Swap(mant as real, TwoTo(e) as real, scale as real);
  }

  lemma Reciprocal(t: real)
    requires t > 0.0
    ensures 1.0 / t * t == 1.0
  {
  }

  lemma Cancel(m: real, p: real, s: real, t: real)
    requires p * t == 1.0 && t > 0.0
    ensures m * p * s == m * s / t
  {
    assert m * s / t * t == m * s;
    assert m * p * s * t == m * s * (p * t);
  }

  lemma ScaledDown(mant: nat, e: int, scale: nat)
    requires e < 0
    ensures mant as real * Pow2(e) * scale as real == (mant * scale) as real / TwoTo(-e) as real
  {
    Reciprocal(TwoTo(-e) as real);
    ProductAsReal(mant, scale);
    Cancel(mant as real, Pow2(e), scale as real, TwoTo(-e) as real);
  }

  // A magnitude in units of the last digit.
  ghost function InLastDigits(value: real, digits: nat): real { value * Pow10(digits) as real }

  // The number to be rounded.
  ghost function Scaled(mant: nat, e: int, digits: nat): real { InLastDigits(ValueOf(mant, e), digits) }

  function Numerator(mant: nat, digits: nat): nat { mant * Pow10(digits) }

  function ShiftLeft(n: nat, e: nat): nat { n * TwoTo(e) }

  lemma ScaledIsWhole(mant: nat, e: nat, digits: nat)
    ensures Scaled(mant, e, digits) == ShiftLeft(Numerator(mant, digits), e) as real
  {
    ScaledUp(mant, e, Pow10(digits));
    Pow2Of(e, e);
  }

  lemma RoundQuotient(x: real, numerator: nat, denominator: nat)
    requires denominator > 0 && x == numerator as real / denominator as real
    ensures var up := (numerator % denominator) * 2 > denominator || ((numerator % denominator) * 2 == denominator && numerator / denominator % 2 == 1);
      NearestEven(numerator / denominator + (if up then 1 else 0), x)
  {
    RoundedQuotient(numerator, denominator);
    HalfEvenIsNearest(x);
  }

  lemma ScaledIsQuotient(mant: nat, e: int, digits: nat)
    requires e < 0
    ensures Scaled(mant, e, digits) == Numerator(mant, digits) as real / TwoTo(-e) as real
  {
    ScaledDown(mant, e, Pow10(digits));
  }

  method RoundedDivision(numerator: nat, denominator: nat) returns (quotient: nat)
    requires denominator > 0
    ensures NearestEven(quotient, numerator as real / denominator as real)
  {
    RoundQuotient(numerator as real / denominator as real, numerator, denominator);
    quotient := numerator / denominator;
    var twiceRest := (numerator % denominator) * 2;
    if twiceRest > denominator || (twiceRest == denominator && quotient % 2 == 1) {
      quotient := quotient + 1;
    }
  }

  method ScaledRoundHalfEven(mant: nat, e: int, digits: nat) returns (n: nat)
    ensures NearestEven(n, Scaled(mant, e, digits))
  {
    var numerator := Numerator(mant, digits);
    if e >= 0 {
      ScaledIsWhole(mant, e, digits);
      n := ShiftLeft(numerator, e);
      WholeIsNearest(n, Scaled(mant, e, digits));
    } else {
      ScaledIsQuotient(mant, e, digits);
      n := RoundedDivision(numerator, TwoTo(-e));
    }
  }

  // ---- The printed string ------------------------------------------------------------------------

  // A digit string without superfluous leading zeros.
  predicate Canonical(a: string) { AllDigits(a) && a != "" && (|a| > 1 ==> a[0] != '0') }

  function Layout(negative: bool, a: string, b: string): string {
    (if negative then "-" else "") + a + (if b == "" then "" else "." + b)
  }

  // `s` shows n / 10^digits with its sign and exactly `digits` fraction digits.
  ghost predicate Shows(s: string, negative: bool, n: int, digits: nat) {
    exists a, b :: Reads(s, negative, a, b, n) && |b| == digits
  }

  ghost predicate Reads(s: string, negative: bool, a: string, b: string, n: int) {
    Canonical(a) && AllDigits(b) && s == Layout(negative, a, b) && Read(a + b) == n
  }

  lemma PadOne(s: string)
    requires AllDigits(s)
    ensures AllDigits("0" + s) && Read("0" + s) == Read(s)
  {
    assert Zeros(1) == "0";
    ReadZeros(1, s);
  }

  // Zeros in front until a digit is left for the whole part.
  method Pad(n: nat, digits: nat) returns (scaled: string)
    requires digits > 0
    ensures AllDigits(scaled) && Read(scaled) == n && |scaled| > digits
    ensures scaled == Print(n) || |scaled| == digits + 1
  {
    scaled := Print(n);
    ReadPrint(n);
    while |scaled| <= digits
      invariant AllDigits(scaled) && scaled != "" && Read(scaled) == n
      invariant scaled == Print(n) || |scaled| <= digits + 1
      decreases digits - |scaled|
    {
      PadOne(scaled);
      scaled := "0" + scaled;
    }
  }

  lemma PrintIsCanonical(n: nat)
    ensures Canonical(Print(n))
  {
    assert n == 0 ==> |Print(n)| == 1;
  }

  lemma Pointed(negative: bool, n: nat, scaled: string, a: string, b: string)
    requires AllDigits(scaled) && Read(scaled) == n && scaled == a + b && a != ""
    requires Canonical(scaled) || |a| == 1
    ensures Reads(Layout(negative, a, b), negative, a, b, n)
  {
    assert a[0] == scaled[0];
    assert forall i | 0 <= i < |a| :: a[i] == scaled[i];
    assert forall i | 0 <= i < |b| :: b[i] == scaled[|a| + i];
  }

  lemma Unpointed(negative: bool, n: nat)
    ensures Reads(Layout(negative, Print(n), ""), negative, Print(n), "", n)
  {
    ReadPrint(n);
    assert Print(n) + "" == Print(n);
  }

  method Lay(negative: bool, n: nat, digits: nat) returns (s: string)
    ensures Shows(s, negative, n, digits)
  {
    if digits > 0 {
      var scaled := Pad(n, digits);
      var a, b := scaled[..|scaled| - digits], scaled[|scaled| - digits..];
      PrintIsCanonical(n);
      Pointed(negative, n, scaled, a, b);
      s := Layout(negative, a, b);
    } else {
      Unpointed(negative, n);
      s := Layout(negative, Print(n), "");
    }
  }

  lemma ScaledMagnitude(x: Double, parts: Parts, digits: nat)
    requires Exact(parts, x)
    ensures Scaled(parts.mant, parts.e, digits) == InLastDigits(Magnitude(x), digits)
  {
  }

  datatype FormatError = NotFinite

  method DecimalString(x: Double, digits: nat) returns (r: Result<string, FormatError>)
    requires WellFormed(x)
    ensures r.Err? <==> !Finite(x)
    ensures r.Ok? ==> Shows(r.value, x.negative, HalfEven(InLastDigits(Magnitude(x), digits)), digits)
  {
    if !Finite(x) {
      return Err(NotFinite);
    }
    var parts := Decompose(x);
    var scaled := ScaledRoundHalfEven(parts.mant, parts.e, digits);
    ScaledMagnitude(x, parts, digits);
    OnlyHalfEvenIsNearest(scaled, Scaled(parts.mant, parts.e, digits));
    var s := Lay(parts.negative, scaled, digits);
    r := Ok(s);
  }

  // ---- Reading a printed string back --------------------------------------------------------------

  lemma {:induction false} CanonicalIsPrinted(a: string)
    requires Canonical(a)
    ensures a == Print(Read(a))
  {
    var front, last := a[..|a| - 1], a[|a| - 1];
    assert a == front + [last];
    if |a| == 1 {
      assert Read(front) == 0;
    } else {
      CanonicalIsPrinted(front);
      assert Read(front) > 0;
      assert Read(a) / 10 == Read(front) && Read(a) % 10 == DigitValue(last);
    }
  }

  lemma {:induction false} SameLengthSameDigits(b: string, c: string)
    requires AllDigits(b) && AllDigits(c) && |b| == |c| && Read(b) == Read(c)
    ensures b == c
  {
    if b != "" {
      SameLengthSameDigits(b[..|b| - 1], c[..|c| - 1]);
      assert b == b[..|b| - 1] + [b[|b| - 1]] && c == c[..|c| - 1] + [c[|c| - 1]];
    }
  }

  lemma NoMultipleBetween(d: int, p: nat, k: int)
    requires d * p == k && 0 - p < k < p
    ensures d == 0
  {
    assert d > 0 ==> d * p >= p;
    assert d < 0 ==> d * p <= 0 - p;
  }

  lemma QuotientIs(q: nat, p: nat, r: nat, n: nat)
    requires r < p && n == q * p + r
    ensures n / p == q && n % p == r
  {
    assert n == n / p * p + n % p;
    assert (n / p - q) * p == n / p * p - q * p;
    NoMultipleBetween(n / p - q, p, r - n % p);
  }

  lemma ReadParts(a: string, b: string)
    requires AllDigits(a) && AllDigits(b)
    ensures AllDigits(a + b) && Read(a) == Read(a + b) / Pow10(|b|) && Read(b) == Read(a + b) % Pow10(|b|)
  {
    ReadConcat(a, b);
    ReadBound(b);
    QuotientIs(Read(a), Pow10(|b|), Read(b), Read(a + b));
  }

  // One number has one string.
  lemma ShownOneWay(s: string, t: string, negative: bool, n: int, digits: nat)
    requires Shows(s, negative, n, digits) && Shows(t, negative, n, digits)
    ensures s == t
  {
    var a, b :| Reads(s, negative, a, b, n) && |b| == digits;
    var c, d :| Reads(t, negative, c, d, n) && |d| == digits;
    ReadParts(a, b);
    ReadParts(c, d);
    CanonicalIsPrinted(a);
    CanonicalIsPrinted(c);
    SameLengthSameDigits(b, d);
  }

  lemma LayoutHead(negative: bool, a: string, b: string)
    requires Canonical(a)
    ensures Layout(negative, a, b) != "" && (Layout(negative, a, b)[0] == '-' <==> negative)
    ensures negative ==> Layout(negative, a, b)[1..] == Layout(false, a, b)
  {
  }

  // Digits up to the point, if there is one.
  lemma PointAt(s: string, a: string, b: string)
    requires AllDigits(a) && AllDigits(b) && s == Layout(false, a, b)
    ensures |a| <= |s| && a == s[..|a|] && forall i | 0 <= i < |a| :: s[i] != '.'
    ensures |a| == |s| <==> b == ""
    ensures |a| < |s| ==> s[|a|] == '.' && b == s[|a| + 1..]
  {
    assert forall i | 0 <= i < |a| :: s[i] == a[i];
  }

  lemma SameLayout(s: string, a: string, b: string, c: string, d: string)
    requires AllDigits(a) && AllDigits(b) && AllDigits(c) && AllDigits(d)
    requires s == Layout(false, a, b) && s == Layout(false, c, d)
    ensures a == c && b == d
  {
    PointAt(s, a, b);
    PointAt(s, c, d);
  }

  // A printed string gives back its sign, its digits and their number.
  lemma ReadsBack(s: string, negative: bool, n: int, digits: nat, negative': bool, n': int, digits': nat)
    requires Shows(s, negative, n, digits) && Shows(s, negative', n', digits')
    ensures negative == negative' && n == n' && digits == digits'
  {
    var a, b :| Reads(s, negative, a, b, n) && |b| == digits;
    var c, d :| Reads(s, negative', c, d, n') && |d| == digits';
    LayoutHead(negative, a, b);
    LayoutHead(negative', c, d);
    SameLayout(Layout(false, a, b), a, b, c, d);
  }

  // Nothing is lost on the way: data with the same parts are the same datum.
  lemma PartsIdentify(x: Double, y: Double)
    requires WellFormed(x) && WellFormed(y) && PartsOf(x) == PartsOf(y)
    ensures x == y
  {
  }
}
