// Korean money strings, written once in Python (common.py, money) and once in JavaScript
// (format.js, money). Numbers are exact: the rounding of doubles is not part of this module.
module Money {
  import opened Digits

  // ---- common.py ---------------------------------------------------------------------------------

  // `_to_int_half_away_from_zero`, and format.js's toIntHalfAwayFromZero.
  function ToInt(value: real): int {
    var magnitude := ((if value < 0.0 then -value else value) + 0.5).Floor;
    if value < 0.0 then -magnitude else magnitude
  }

  // `_round_half_up` with the only unit in use.
  function RoundHalfUp(amount: nat, unit: nat): nat
    requires unit > 0
  {
    (amount + unit / 2) / unit
  }

  function Pad3(n: nat): (s: string)
    requires n < 1000
    ensures |s| == 3 && AllDigits(s)
  {
    [DigitChar(n / 100), DigitChar(n / 10 % 10), DigitChar(n % 10)]
  }

  // Python's `f"{n:,}"`.
  function Thousands(n: nat): string {
    if n < 1000 then Print(n) else Thousands(n / 1000) + "," + Pad3(n % 1000)
  }

  function Money(value: real): string {
    var whole := ToInt(value);
    (if whole < 0 then "-" else "") + Amount(if whole < 0 then -whole else whole)
  }

  function Amount(amount: nat): string {
    if amount >= 100_000_000 then
      var (eok, rest) := (amount / 100_000_000, amount % 100_000_000);
      var rounded := RoundHalfUp(rest, 10_000);
      var (eok', man) := if rounded >= 10_000 then (eok + 1, 0) else (eok, rounded);
      if man != 0 then Print(eok') + "억 " + Thousands(man) + "만원" else Print(eok') + "억원"
    else if amount >= 10_000 then Thousands(RoundHalfUp(amount, 10_000)) + "만원"
    else Thousands(amount) + "원"
  }

  // ---- format.js ----------------------------------------------------------------------------------

  // The commas put before the first `i` characters of a digit string.
  function Commas(text: string, i: nat): string
    requires i <= |text|
  {
    if i == 0 then "" else
      Commas(text, i - 1) + (if i - 1 > 0 && (|text| - (i - 1)) % 3 == 0 then "," else "") + [text[i - 1]]
  }

  method Group(n: nat) returns (out: string)
    ensures out == Thousands(n)
  {
    var text := Print(n);
    out := "";
    for i := 0 to |text|
      invariant out == Commas(text, i)
    {
      if i > 0 && (|text| - i) % 3 == 0 {
        out := out + ",";
      }
      out := out + [text[i]];
    }
    CommasEveryThree(n);
  }

  method AmountInScript(amount: nat) returns (s: string)
    ensures s == Amount(amount)
  {
    if amount >= 100_000_000 {
      var eok := amount / 100_000_000;
      var man := RoundHalfUp(amount - eok * 100_000_000, 10_000);
      if man >= 10_000 {
        eok, man := eok + 1, 0;
      }
      if man != 0 {
        var grouped := Group(man);
        s := Print(eok) + "억 " + grouped + "만원";
      } else {
        s := Print(eok) + "억원";
      }
    } else if amount >= 10_000 {
      var grouped := Group(RoundHalfUp(amount, 10_000));
      s := grouped + "만원";
    } else {
      var grouped := Group(amount);
      s := grouped + "원";
    }
  }

  method MoneyInScript(value: real) returns (s: string)
    ensures s == Money(value)
  {
    var amount := ToInt(value);
    var sign := if amount < 0 then "-" else "";
    var shown := AmountInScript(if amount < 0 then -amount else amount);
    s := sign + shown;
  }

  // Coercion to whole won: to the nearest, halves away from zero.
  lemma ToIntIsNearest(value: real)
    ensures -0.5 <= ToInt(value) as real - value <= 0.5
    ensures ToInt(value) as real - value == 0.5 ==> value > 0.0
    ensures ToInt(value) as real - value == -0.5 ==> value < 0.0
    ensures ToInt(-value) == -ToInt(value)
  {
  }

  // ---- Grouping digits ----------------------------------------------------------------------------

  lemma PrintStep(n: nat)
    requires n >= 10
    ensures Print(n) == Print(n / 10) + [DigitChar(n % 10)]
  {
  }

  lemma DigitsOfRest(n: nat)
    ensures n / 10 / 10 == n / 100 && n / 100 / 10 == n / 1000
    ensures n % 1000 / 100 == n / 10 / 10 % 10 && n % 1000 / 10 % 10 == n / 10 % 10 && n % 1000 % 10 == n % 10
  {
  }

  lemma PrintInThousands(n: nat)
    requires n >= 1000
    ensures Print(n) == Print(n / 1000) + Pad3(n % 1000)
  {
    var tens, hundreds := n / 10, n / 100;
    DigitsOfRest(n);
    PrintStep(n);
    PrintStep(tens);
    PrintStep(hundreds);
    ThreeMore(Print(n / 1000), DigitChar(hundreds % 10), DigitChar(tens % 10), DigitChar(n % 10));
  }

  lemma ThreeMore(front: string, a: char, b: char, c: char)
    ensures front + [a] + [b] + [c] == front + [a, b, c]
  {
  }

  lemma {:induction false} CommasOfFront(front: string, tail: string, i: nat)
    requires |tail| == 3 && i <= |front|
    ensures Commas(front + tail, i) == Commas(front, i)
  {
    if i > 0 { CommasOfFront(front, tail, i - 1); }
  }

  lemma CommaStep(text: string, i: nat)
    requires i < |text|
    ensures i > 0 && (|text| - i) % 3 == 0 ==> Commas(text, i + 1) == Commas(text, i) + "," + [text[i]]
    ensures (|text| - i) % 3 != 0 ==> Commas(text, i + 1) == Commas(text, i) + [text[i]]
  {
  }

  lemma OneMoreGroup(before: string, a: string, b: string, c: string, tail: string)
    requires |tail| == 3 && a == before + "," + [tail[0]] && b == a + [tail[1]] && c == b + [tail[2]]
    ensures c == before + "," + tail
  {
    assert tail == [tail[0], tail[1], tail[2]];
    ThreeMore(before + ",", tail[0], tail[1], tail[2]);
  }

  lemma CommasOfTail(text: string, f: nat)
    requires f > 0 && |text| == f + 3
    ensures Commas(text, |text|) == Commas(text, f) + "," + text[f..]
  {
    CommaStep(text, f);
    CommaStep(text, f + 1);
    CommaStep(text, f + 2);
    OneMoreGroup(Commas(text, f), Commas(text, f + 1), Commas(text, f + 2), Commas(text, f + 3), text[f..]);
  }

  lemma {:induction false} CommasEveryThree(n: nat)
    ensures Commas(Print(n), |Print(n)|) == Thousands(n)
  {
    if n < 1000 {
      ShortPrint(n);
      NoCommas(Print(n), |Print(n)|);
      assert Print(n)[..|Print(n)|] == Print(n);
    } else {
      var front, tail := Print(n / 1000), Pad3(n % 1000);
      PrintInThousands(n);
      CommasEveryThree(n / 1000);
      CommasOfFront(front, tail, |front|);
      CommasOfTail(Print(n), |front|);
      assert Print(n)[|front|..] == tail;
    }
  }

  lemma ShortPrint(n: nat)
    requires n < 1000
    ensures |Print(n)| <= 3
  {
    assert n >= 10 ==> Print(n) == Print(n / 10) + [DigitChar(n % 10)];
    assert n >= 100 ==> Print(n / 10) == Print(n / 100) + [DigitChar(n / 10 % 10)];
  }

  lemma {:induction false} NoCommas(text: string, i: nat)
    requires |text| <= 3 && i <= |text|
    ensures Commas(text, i) == text[..i]
  {
    if i > 0 { NoCommas(text, i - 1); }
  }

  function StripCommas(s: string): (r: string) {
    if s == "" then "" else StripCommas(s[..|s| - 1]) + (if s[|s| - 1] == ',' then "" else [s[|s| - 1]])
  }

  lemma {:induction false} StripConcat(a: string, b: string)
    ensures StripCommas(a + b) == StripCommas(a) + StripCommas(b)
  {
    if b == "" {
      assert a + b == a;
    } else {
      StripConcat(a, b[..|b| - 1]);
      assert (a + b)[..|a + b| - 1] == a + b[..|b| - 1];
    }
  }

  lemma {:induction false} StripDigits(s: string)
    requires AllDigits(s)
    ensures StripCommas(s) == s
  {
    if s != "" {
      StripDigits(s[..|s| - 1]);
      assert s == s[..|s| - 1] + [s[|s| - 1]];
    }
  }

  lemma StripComma(front: string)
    ensures StripCommas(front + ",") == StripCommas(front)
  {
    assert (front + ",")[..|front|] == front;
  }

  lemma StripGroup(front: string, tail: string)
    requires AllDigits(tail)
    ensures StripCommas(front + "," + tail) == StripCommas(front) + tail
  {
    StripConcat(front + ",", tail);
    StripComma(front);
    StripDigits(tail);
  }

  // Removing the commas undoes the grouping.
  lemma {:induction false} GroupUndone(n: nat)
    ensures StripCommas(Thousands(n)) == Print(n)
  {
    if n < 1000 {
      StripDigits(Print(n));
    } else {
      GroupUndone(n / 1000);
      StripGroup(Thousands(n / 1000), Pad3(n % 1000));
      PrintInThousands(n);
    }
  }

  // ---- Reading an amount back -----------------------------------------------------------------------

  predicate NumeralChar(c: char) { IsDigit(c) || c == ',' }

  predicate Numeral(s: string) { forall i | 0 <= i < |s| :: NumeralChar(s[i]) }

  lemma {:induction false} ThousandsIsNumeral(n: nat)
    ensures Numeral(Thousands(n)) && Thousands(n) != ""
  {
    if n >= 1000 { ThousandsIsNumeral(n / 1000); }
  }

  // The digits and commas at the front.
  function Front(s: string): (k: nat)
    ensures k <= |s| && forall i | 0 <= i < k :: NumeralChar(s[i])
    ensures k < |s| ==> !NumeralChar(s[k])
  {
    if s == "" || !NumeralChar(s[0]) then 0 else 1 + Front(s[1..])
  }

  lemma FrontOf(s: string, a: string, b: string)
    requires Numeral(a) && (b == "" || !NumeralChar(b[0])) && s == a + b
    ensures Front(s) == |a| && s[..|a|] == a && s[|a|..] == b
  {
    assert forall i | 0 <= i < |a| :: s[i] == a[i];
    assert b != "" ==> s[|a|] == b[0];
  }

  function ReadNumeral(s: string): nat {
    if AllDigits(StripCommas(s)) then Read(StripCommas(s)) else 0
  }

  // How a person reads a money string.
  function ReadMoney(s: string): int {
    if s != "" && s[0] == '-' then 0 - ReadAmount(s[1..]) else ReadAmount(s)
  }

  function ReadAmount(s: string): nat {
    var k := Front(s);
    var n, unit := ReadNumeral(s[..k]), s[k..];
    if unit == "원" then n
    else if unit == "만원" then n * 10_000
    else if unit == "억원" then n * 100_000_000
    else if |unit| > 2 && unit[0] == '억' then n * 100_000_000 + ReadNumeral(unit[2..][..Front(unit[2..])]) * 10_000
    else 0
  }

  lemma ReadThousands(n: nat)
    ensures ReadNumeral(Thousands(n)) == n
  {
    GroupUndone(n);
    ReadPrint(n);
  }

  lemma ReadPrinted(n: nat)
    ensures ReadNumeral(Print(n)) == n && Numeral(Print(n))
  {
    StripDigits(Print(n));
    ReadPrint(n);
  }

  // What a string is meant to stand for: the amount itself below 10,000 won, and the nearest
  // multiple of 10,000 (halves away from zero) from there on.
  function Nearest(amount: nat): nat {
    if amount < 10_000 then amount else (amount + 5_000) / 10_000 * 10_000
  }

  lemma ReadWithUnit(s: string, numeral: string, unit: string, n: nat)
    requires Numeral(numeral) && ReadNumeral(numeral) == n && unit in ["원", "만원", "억원"] && s == numeral + unit
    ensures ReadAmount(s) == if unit == "원" then n else if unit == "만원" then n * 10_000 else n * 100_000_000
  {
    FrontOf(s, numeral, unit);
  }

  lemma ReadMixed(s: string, eok: string, man: string, rest: string, n: nat, m: nat)
    requires Numeral(eok) && ReadNumeral(eok) == n && Numeral(man) && ReadNumeral(man) == m && rest == man + "만원"
    requires s == eok + ("억 " + rest)
    ensures ReadAmount(s) == n * 100_000_000 + m * 10_000
  {
    var unit := "억 " + rest;
    FrontOf(s, eok, unit);
    FrontOf(rest, man, "만원");
    assert unit[2..] == rest;
    assert |unit| > 3 && unit[1] == ' ';
  }

  lemma Rejoin(a: string, b: string, c: string, d: string)
    ensures a + b + c + d == a + (b + (c + d))
  {
  }

  lemma ReadEokAndMan(eok: nat, man: nat)
    ensures ReadAmount(Print(eok) + "억 " + Thousands(man) + "만원") == eok * 100_000_000 + man * 10_000
  {
    ReadPrinted(eok);
    ThousandsIsNumeral(man);
    ReadThousands(man);
    Rejoin(Print(eok), "억 ", Thousands(man), "만원");
    ReadMixed(Print(eok) + "억 " + Thousands(man) + "만원", Print(eok), Thousands(man), Thousands(man) + "만원", eok, man);
  }

  lemma ReadEok(eok: nat)
    ensures ReadAmount(Print(eok) + "억원") == eok * 100_000_000
  {
    ReadPrinted(eok);
    ReadWithUnit(Print(eok) + "억원", Print(eok), "억원", eok);
  }

  lemma ReadMan(man: nat)
    ensures ReadAmount(Thousands(man) + "만원") == man * 10_000
  {
    ThousandsIsNumeral(man);
    ReadThousands(man);
    ReadWithUnit(Thousands(man) + "만원", Thousands(man), "만원", man);
  }

  lemma ReadWon(won: nat)
    ensures ReadAmount(Thousands(won) + "원") == won
  {
    ThousandsIsNumeral(won);
    ReadThousands(won);
    ReadWithUnit(Thousands(won) + "원", Thousands(won), "원", won);
  }

  // After the carry the 만 part is below 10,000, and nothing is lost by it.
  lemma CarriedParts(eok: nat, rest: nat)
    requires rest < 100_000_000
    ensures RoundHalfUp(rest, 10_000) <= 10_000
    ensures (eok * 100_000_000 + rest + 5_000) / 10_000 == eok * 10_000 + RoundHalfUp(rest, 10_000)
  {
  }

  lemma Carried(amount: nat)
    requires amount >= 100_000_000
    ensures var rounded := RoundHalfUp(amount % 100_000_000, 10_000);
      rounded <= 10_000 && Nearest(amount) == amount / 100_000_000 * 100_000_000 + rounded * 10_000
  {
    var eok, rest := amount / 100_000_000, amount % 100_000_000;
    assert amount == eok * 100_000_000 + rest;
    CarriedParts(eok, rest);
  }

  lemma LargeReadsBack(amount: nat)
    requires amount >= 100_000_000
    ensures ReadAmount(Amount(amount)) == Nearest(amount)
  {
    Carried(amount);
    var eok, rounded := amount / 100_000_000, RoundHalfUp(amount % 100_000_000, 10_000);
    if rounded >= 10_000 {
      ReadEok(eok + 1);
    } else if rounded == 0 {
      ReadEok(eok);
    } else {
      ReadEokAndMan(eok, rounded);
    }
  }

  lemma MiddleReadsBack(amount: nat)
    requires 10_000 <= amount < 100_000_000
    ensures ReadAmount(Amount(amount)) == Nearest(amount)
  {
    var man := RoundHalfUp(amount, 10_000);
    ReadMan(man);
    assert Amount(amount) == Thousands(man) + "만원";
    assert man == (amount + 5_000) / 10_000;
  }

  lemma AmountReadsBack(amount: nat)
    ensures ReadAmount(Amount(amount)) == Nearest(amount)
  {
    if amount >= 100_000_000 {
      LargeReadsBack(amount);
    } else if amount >= 10_000 {
      MiddleReadsBack(amount);
    } else {
      ReadWon(amount);
    }
  }

  lemma AmountHasNoSign(amount: nat)
    ensures Amount(amount) != "" && Amount(amount)[0] != '-'
  {
    if amount >= 100_000_000 {
      assert forall eok: nat :: NumeralChar(Print(eok)[0]);
    } else if amount >= 10_000 {
      ThousandsIsNumeral(RoundHalfUp(amount, 10_000));
    } else {
      ThousandsIsNumeral(amount);
    }
  }

  // The meaning of a printed amount, sign included.
  function Meant(whole: int): int {
    if whole < 0 then 0 - Nearest(0 - whole) else Nearest(whole)
  }

  lemma ReadSigned(a: string, signed: string, negative: bool)
    requires a != "" && a[0] != '-' && signed == (if negative then "-" else "") + a
    ensures ReadMoney(signed) == if negative then 0 - ReadAmount(a) else ReadAmount(a)
    ensures signed != "" && (signed[0] == '-' <==> negative)
  {
    assert ("-" + a)[1..] == a;
    assert "" + a == a;
  }

  // A printed amount reads back as the rounded amount with its sign.
  lemma MoneyReadsBack(value: real)
    ensures ReadMoney(Money(value)) == Meant(ToInt(value))
    ensures Money(value) != "" && (Money(value)[0] == '-' <==> ToInt(value) < 0)
  {
    var whole := ToInt(value);
    var amount := if whole < 0 then 0 - whole else whole;
    AmountReadsBack(amount);
    AmountHasNoSign(amount);
    ReadSigned(Amount(amount), Money(value), whole < 0);
  }

  // It is off by at most 5,000 won, not at all below 10,000, and never on the wrong side of zero.
  lemma MeantIsClose(whole: int)
    ensures -5_000 <= Meant(whole) - whole <= 5_000
    ensures -10_000 < whole < 10_000 ==> Meant(whole) == whole
    ensures (Meant(whole) < 0 <==> whole < 0) && Meant(-whole) == -Meant(whole)
  {
  }

  // A larger amount never reads as a smaller one, across all three forms of the string.
  lemma ReadingIsMonotone(x: real, y: real)
    requires x <= y
    ensures ReadMoney(Money(x)) <= ReadMoney(Money(y))
  {
    MoneyReadsBack(x);
    MoneyReadsBack(y);
    MeantMonotone(ToInt(x), ToInt(y));
  }

  lemma MeantMonotone(m: int, n: int)
    requires m <= n
    ensures Meant(m) <= Meant(n)
  {
    if m < 0 <= n {
      MeantIsClose(m);
    }
  }

  // In the 억 form the 만 part is below 10,000: reading it back never reaches the next 억.
  lemma ManPartIsProper(amount: nat)
    requires amount >= 100_000_000
    ensures exists eok: nat, man: nat :: man < 10_000 && Amount(amount) == Mixed(eok, man) && Nearest(amount) == eok * 100_000_000 + man * 10_000
  {
    Carried(amount);
    var eok, rounded := amount / 100_000_000, RoundHalfUp(amount % 100_000_000, 10_000);
    if rounded >= 10_000 {
      assert Amount(amount) == Mixed(eok + 1, 0);
    } else {
      assert Amount(amount) == Mixed(eok, rounded);
    }
  }

  function Mixed(eok: nat, man: nat): string {
    Print(eok) + (if man == 0 then "억원" else "억 " + (Thousands(man) + "만원"))
  }

}
