// Decimal numerals: printing a natural number and reading it back.
module Digits {
  function DigitChar(d: nat): (c: char)
    requires d < 10
    ensures IsDigit(c) && DigitValue(c) == d
  {
    ('0' as int + d) as char
  }

  predicate IsDigit(c: char) { '0' <= c <= '9' }

  function DigitValue(c: char): nat
    requires IsDigit(c)
  {
    c as int - '0' as int
  }

  predicate AllDigits(s: string) { forall i | 0 <= i < |s| :: IsDigit(s[i]) }

  // `str(n)` of a natural number.
  function Print(n: nat): (s: string)
    ensures s != "" && AllDigits(s)
    ensures n > 0 ==> s[0] != '0'
  {
    if n < 10 then [DigitChar(n)] else Print(n / 10) + [DigitChar(n % 10)]
  }

  // `int(s)` of a digit string.
  function Read(s: string): nat
    requires AllDigits(s)
  {
    if s == "" then 0 else 10 * Read(s[..|s| - 1]) + DigitValue(s[|s| - 1])
  }

  function Pow10(k: nat): (p: nat)
    ensures p > 0
  {
    if k == 0 then 1 else 10 * Pow10(k - 1)
  }

  lemma {:induction false} ReadPrint(n: nat)
    ensures Read(Print(n)) == n
  {
    if n < 10 {
      assert Print(n)[..0] == "";
    } else {
      ReadPrint(n / 10);
      assert Print(n)[..|Print(n)| - 1] == Print(n / 10);
    }
  }

  lemma PrintInjective(m: nat, n: nat)
    requires Print(m) == Print(n)
    ensures m == n
  {
    ReadPrint(m);
    ReadPrint(n);
  }

  lemma {:induction false} ReadConcat(a: string, b: string)
    requires AllDigits(a) && AllDigits(b)
    ensures AllDigits(a + b) && Read(a + b) == Read(a) * Pow10(|b|) + Read(b)
  {
    if b == "" {
      assert a + b == a;
    } else {
      var c := b[..|b| - 1];
      assert (a + b)[..|a + b| - 1] == a + c;
      ReadConcat(a, c);
      assert Pow10(|b|) == 10 * Pow10(|c|);
      assert Read(a + b) == 10 * (Read(a) * Pow10(|c|) + Read(c)) + DigitValue(b[|b| - 1]);
      Scale(Read(a), Pow10(|c|));
    }
  }

  lemma Scale(x: nat, p: nat)
    ensures 10 * (x * p) == x * (10 * p)
  {
  }

  lemma {:induction false} ReadBound(s: string)
    requires AllDigits(s)
    ensures Read(s) < Pow10(|s|)
  {
    if s != "" { ReadBound(s[..|s| - 1]); }
  }

  function Zeros(k: nat): (s: string)
    ensures |s| == k && AllDigits(s) && forall i | 0 <= i < k :: s[i] == '0'
  {
    if k == 0 then "" else Zeros(k - 1) + "0"
  }

  lemma {:induction false} ReadZeros(k: nat, s: string)
    requires AllDigits(s)
    ensures AllDigits(Zeros(k) + s) && Read(Zeros(k) + s) == Read(s)
  {
    ReadConcat(Zeros(k), s);
    ZerosAreZero(k);
  }

  lemma {:induction false} ZerosAreZero(k: nat)
    ensures Read(Zeros(k)) == 0
  {
    if k > 0 { assert Zeros(k)[..k - 1] == Zeros(k - 1); ZerosAreZero(k - 1); }
  }

  // Reading forgets leading zeros and nothing else.
  lemma {:induction false} ReadsAs(s: string) returns (k: nat)
    requires s != "" && AllDigits(s)
    ensures s == Zeros(k) + Print(Read(s))
  {
    var t, c := s[..|s| - 1], s[|s| - 1];
    assert s == t + [c] && DigitChar(DigitValue(c)) == c;
    if t == "" {
      k := 0;
    } else {
      k := ReadsAs(t);
      if Read(t) == 0 {
        assert t == Zeros(k + 1);
        k := k + 1;
      } else {
        assert Print(Read(s)) == Print(Read(t)) + [c];
      }
    }
  }

  // The printed number, behind any number of zeros.
  ghost predicate Numeral(s: string, n: nat) { exists k: nat :: s == Zeros(k) + Print(n) }

  lemma ReadIff(s: string, n: nat)
    ensures (s != "" && AllDigits(s) && Read(s) == n) <==> Numeral(s, n)
  {
    if s != "" && AllDigits(s) { var k := ReadsAs(s); }
    if k: nat :| s == Zeros(k) + Print(n) {
      ReadZeros(k, Print(n));
      ReadPrint(n);
    }
  }
}
