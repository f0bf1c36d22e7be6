// Rounding a real number to an integer, in the ways Python and JavaScript do it.
module Rounding {
  function Abs(x: real): (r: real)
    ensures r >= 0.0 && (r == x || r == -x)
  {
    if x < 0.0 then -x else x
  }

  // Python's `round` to an integer: to the nearest, ties to the even neighbour.
  function HalfEven(x: real): int {
    var whole := x.Floor;
    var rest := x - whole as real;
    if rest > 0.5 || (rest == 0.5 && whole % 2 == 1) then whole + 1 else whole
  }

  // roundTiesToEven of IEEE 754-2019 section 4.3.1, stated without an algorithm: no integer is
  // nearer, and one just as near is only passed over in favour of an even number.
  ghost predicate NearestEven(n: int, x: real) {
    forall m: int :: m != n ==> Beats(n, m, x)
  }

  predicate Beats(n: int, m: int, x: real) {
    var mine, other := Abs(n as real - x), Abs(m as real - x);
    mine < other || (mine == other && n % 2 == 0)
  }

  lemma HalfEvenIsNearest(x: real)
    ensures NearestEven(HalfEven(x), x)
  {
  }

  lemma WholeIsNearest(n: int, x: real)
    requires x == n as real
    ensures NearestEven(n, x)
  {
  }

  lemma OnlyHalfEvenIsNearest(n: int, x: real)
    requires NearestEven(n, x)
    ensures n == HalfEven(x)
  {
    assert n == x.Floor || Beats(n, x.Floor, x);
    assert n == x.Floor + 1 || Beats(n, x.Floor + 1, x);
  }

  lemma HalfEvenBounds(x: real)
    ensures Abs(HalfEven(x) as real - x) <= 0.5
  {
  }

  lemma HalfEvenMonotone(x: real, y: real)
    requires x <= y
    ensures HalfEven(x) <= HalfEven(y)
  {
  }

  lemma HalfEvenOfInt(n: int)
    ensures HalfEven(n as real) == n
  {
  }
}
