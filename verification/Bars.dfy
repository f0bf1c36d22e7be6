// Widths of a stacked bar whose small segments keep a visible minimum (frontend/app.js,
// stackedBarSVG). Lengths are percentages, taken as exact reals.
module Bars {
  import opened Basics

  function Min(a: real, b: real): real { if a < b then a else b }

  function Max(a: real, b: real): real { if a < b then b else a }

  // ---- Sums over the indices still open ------------------------------------------------------------

  // Sum of the values below `n` whose index is listed.
  function Tally(values: seq<real>, listed: seq<nat>, n: nat): real
    requires n <= |values|
  {
    if n == 0 then 0.0 else Tally(values, listed, n - 1) + (if n - 1 in listed then values[n - 1] else 0.0)
  }

  function Count(listed: seq<nat>, n: nat): (c: real)
    ensures c >= 0.0
  {
    if n == 0 then 0.0 else Count(listed, n - 1) + (if n - 1 in listed then 1.0 else 0.0)
  }

  function Sum(values: seq<real>): real {
    if values == [] then 0.0 else Sum(values[..|values| - 1]) + values[|values| - 1]
  }

  // `reduce((a, b) => a + Math.max(0, b.value), 0)`.
  function PositiveTotal(values: seq<real>): real {
    if values == [] then 0.0 else PositiveTotal(values[..|values| - 1]) + Max(0.0, values[|values| - 1])
  }

  // `filter(s => s.value > 0)`.
  function Live(values: seq<real>): (r: seq<real>)
    ensures forall i | 0 <= i < |r| :: r[i] > 0.0
  {
    if values == [] then [] else Live(values[..|values| - 1]) + (if values[|values| - 1] > 0.0 then [values[|values| - 1]] else [])
  }

  lemma {:induction false} LiveTotal(values: seq<real>)
    ensures Sum(Live(values)) == PositiveTotal(values)
  {
    if values != [] {
      var front, last := values[..|values| - 1], values[|values| - 1];
      LiveTotal(front);
      if last > 0.0 {
        assert Live(values)[..|Live(values)| - 1] == Live(front);
      } else {
        assert Live(values) == Live(front);
      }
    }
  }

  function UpTo(n: nat): (r: seq<nat>)
    ensures |r| == n && forall i | 0 <= i < n :: r[i] == i
  {
    seq(n, i => i)
  }

  ghost predicate Listed(open: seq<nat>, n: nat) {
    (forall i | i in open :: i < n) && forall i, j | 0 <= i < j < |open| :: open[i] != open[j]
  }

  lemma {:induction false} AllListed(values: seq<real>, listed: seq<nat>, n: nat)
    requires n <= |values| && forall i: nat | i < n :: i in listed
    ensures Tally(values, listed, n) == Sum(values[..n]) && Count(listed, n) == n as real
  {
    if n > 0 {
      AllListed(values, listed, n - 1);
      assert values[..n][..n - 1] == values[..n - 1];
    } else {
      assert values[..0] == [];
    }
  }

  lemma {:induction false} OneMore(values: seq<real>, listed: seq<nat>, x: nat, n: nat)
    requires n <= |values| && x < |values| && x !in listed
    ensures Tally(values, listed + [x], n) == Tally(values, listed, n) + (if x < n then values[x] else 0.0)
    ensures Count(listed + [x], n) == Count(listed, n) + (if x < n then 1.0 else 0.0)
  {
    if n > 0 {
      OneMore(values, listed, x, n - 1);
      assert n - 1 in listed + [x] <==> n - 1 in listed || n - 1 == x;
    }
  }

  // Splitting the list splits the sums.
  lemma {:induction false} Parts(values: seq<real>, whole: seq<nat>, a: seq<nat>, b: seq<nat>, n: nat)
    requires n <= |values|
    requires forall i :: i in whole <==> i in a || i in b
    requires forall i :: i in a ==> i !in b
    ensures Tally(values, whole, n) == Tally(values, a, n) + Tally(values, b, n)
    ensures Count(whole, n) == Count(a, n) + Count(b, n)
  {
    if n > 0 { Parts(values, whole, a, b, n - 1); }
  }

  lemma {:induction false} TallyNonNegative(values: seq<real>, listed: seq<nat>, n: nat)
    requires n <= |values| && forall i | 0 <= i < |values| :: values[i] > 0.0
    ensures Tally(values, listed, n) >= 0.0
    ensures forall i | i in listed && i < n :: Tally(values, listed, n) > 0.0 && Count(listed, n) >= 1.0
  {
    if n > 0 { TallyNonNegative(values, listed, n - 1); }
  }

  // ---- The loop -----------------------------------------------------------------------------------

  predicate TooSmall(value: real, remaining: real, remainingValue: real, floor: real) {
    remainingValue > 0.0 && value / remainingValue * remaining < floor
  }

  // The same comparison without the division.
  lemma TooSmallIff(value: real, remaining: real, remainingValue: real, floor: real)
    requires remainingValue > 0.0
    ensures TooSmall(value, remaining, remainingValue, floor) <==> value * remaining < floor * remainingValue
  {
    var share := value / remainingValue;
    assert share * remainingValue == value;
    assert value * remaining == (share * remaining) * remainingValue;
  }

  lemma AppendListed(front: seq<nat>, last: nat, r: seq<nat>, n: nat)
    requires Listed(front + [last], n) && Listed(r, n) && forall i | i in r :: i in front
    ensures Listed(r + [last], n)
  {
    var all := front + [last];
    assert all[|front|] == last;
    assert last in all;
    forall k | 0 <= k < |r| ensures r[k] != last {
      assert r[k] in r;
      var l :| 0 <= l < |front| && front[l] == r[k];
      assert all[l] == front[l];
    }
    forall i | i in r + [last] ensures i < n { assert i in r || i == last; }
  }

  lemma FrontListed(front: seq<nat>, last: nat, n: nat)
    requires Listed(front + [last], n)
    ensures Listed(front, n)
  {
    forall k | 0 <= k < |front| ensures (front + [last])[k] == front[k] {}
    forall i | i in front ensures i in front + [last] {}
  }

  // `open.filter(...)`
  function Undersized(live: seq<real>, open: seq<nat>, remaining: real, remainingValue: real, floor: real): (r: seq<nat>)
    requires forall i | i in open :: i < |live|
    ensures forall i :: i in r <==> i in open && TooSmall(live[i], remaining, remainingValue, floor)
    ensures |r| <= |open|
  {
    if open == [] then [] else
      var front, last := open[..|open| - 1], open[|open| - 1];
      assert open == front + [last];
      assert last in open && forall i :: i in open <==> i in front || i == last;
      var r := Undersized(live, front, remaining, remainingValue, floor);
      if TooSmall(live[last], remaining, remainingValue, floor) then r + [last] else r
  }

  lemma {:induction false} UndersizedListed(live: seq<real>, open: seq<nat>, remaining: real, remainingValue: real, floor: real)
    requires Listed(open, |live|)
    ensures Listed(Undersized(live, open, remaining, remainingValue, floor), |live|)
  {
    if open != [] {
      var front, last := open[..|open| - 1], open[|open| - 1];
      assert open == front + [last];
      FrontListed(front, last, |live|);
      UndersizedListed(live, front, remaining, remainingValue, floor);
      AppendListed(front, last, Undersized(live, front, remaining, remainingValue, floor), |live|);
    }
  }

  function Without(open: seq<nat>, gone: seq<nat>): (r: seq<nat>)
    ensures forall i :: i in r <==> i in open && i !in gone
    ensures (forall i, j | 0 <= i < j < |open| :: open[i] != open[j]) ==> forall i, j | 0 <= i < j < |r| :: r[i] != r[j]
    ensures |r| <= |open| && ((exists i :: i in open && i in gone) ==> |r| < |open|)
  {
    if open == [] then [] else
      var front, last := open[..|open| - 1], open[|open| - 1];
      assert open == front + [last];
      var r := Without(front, gone);
      if last in gone then r else r + [last]
  }

  ghost predicate Balance(remaining: real, available: real, floor: real, closed: real) {
    remaining == available - floor * closed
  }

  // What the loop keeps: the open segments share what the closed ones left, and no closed one
  // would get more than the floor at the present rate.
  ghost predicate Sharing(live: seq<real>, widths: seq<real>, open: seq<nat>, remaining: real, remainingValue: real, floor: real, available: real) {
    && |widths| == |live| && Listed(open, |live|) && open != []
    && remainingValue == Tally(live, open, |live|) && remainingValue > 0.0
    && Balance(remaining, available, floor, |live| as real - Count(open, |live|))
    && ClosedAtFloor(live, widths, open, remaining, remainingValue, floor)
  }

  // Segments that are too small, taken together, take no more than their floors.
  lemma {:induction false} SmallTogether(live: seq<real>, gone: seq<nat>, n: nat, remaining: real, remainingValue: real, floor: real)
    requires n <= |live| && forall i | i in gone && i < n :: live[i] * remaining < floor * remainingValue
    ensures Tally(live, gone, n) * remaining <= Count(gone, n) * (floor * remainingValue)
    ensures Count(gone, n) > 0.0 ==> Tally(live, gone, n) * remaining < Count(gone, n) * (floor * remainingValue)
  {
    if n > 0 {
      SmallTogether(live, gone, n - 1, remaining, remainingValue, floor);
      if n - 1 in gone {
        Distribute(Tally(live, gone, n - 1), live[n - 1], remaining);
        Distribute(Count(gone, n - 1), 1.0, floor * remainingValue);
      }
    }
  }

  lemma Distribute(a: real, b: real, c: real)
    ensures (a + b) * c == a * c + b * c
  {
  }

  ghost predicate RateDrops(r: real, rv: real, r': real, rv': real) { r' * rv <= r * rv' }

  // Closing small segments never raises the rate for the others.
  lemma RateFalls(r: real, rv: real, r': real, rv': real, closed: real, t: real, floor: real)
    requires t * r <= closed * (floor * rv)
    requires Balance(r', r, floor, closed) && rv' == rv - t
    ensures RateDrops(r, rv, r', rv')
  {
    assert (r - floor * closed) * rv == r * rv - closed * (floor * rv);
    assert r * (rv - t) == r * rv - t * r;
  }

  lemma StillSmall(v: real, r: real, rv: real, r': real, rv': real, floor: real)
    requires v >= 0.0 && rv > 0.0 && rv' >= 0.0
    requires r' * rv <= r * rv' && v * r <= floor * rv
    ensures v * r' <= floor * rv'
  {
    MulMono(v, r' * rv, r * rv');
    MulMono(rv', v * r, floor * rv);
    assert v * (r' * rv) == (v * r') * rv;
    assert v * (r * rv') == rv' * (v * r);
    assert rv' * (floor * rv) == (floor * rv') * rv;
    CancelRight(v * r', floor * rv', rv);
  }

  lemma MulMono(k: real, a: real, b: real)
    requires k >= 0.0 && a <= b
    ensures k * a <= k * b
  {
  }

  lemma CancelRight(a: real, b: real, k: real)
    requires k > 0.0 && a * k <= b * k
    ensures a <= b
  {
  }

  // They cannot all be too small: together they hold at least a floor each.
  lemma NotAllSmall(live: seq<real>, widths: seq<real>, open: seq<nat>, remaining: real, remainingValue: real, floor: real, available: real)
    requires Sharing(live, widths, open, remaining, remainingValue, floor, available)
    requires Room(live, floor, available)
    ensures exists i :: i in open && !TooSmall(live[i], remaining, remainingValue, floor)
  {
    var n := |live|;
    if forall i | i in open :: TooSmall(live[i], remaining, remainingValue, floor) {
      forall i | i in open ensures live[i] * remaining < floor * remainingValue {
        TooSmallIff(live[i], remaining, remainingValue, floor);
      }
      assert open[0] in open;
      TallyNonNegative(live, open, n);
      SmallTogether(live, open, n, remaining, remainingValue, floor);
      EnoughLeft(remaining, remainingValue, floor, available, n as real, Count(open, n));
    }
  }

  lemma EnoughLeft(r: real, rv: real, floor: real, available: real, n: real, c: real)
    requires Balance(r, available, floor, n - c) && floor * n <= available && rv > 0.0
    ensures rv * r >= c * (floor * rv)
  {
    assert floor * (n - c) == floor * n - floor * c;
    MulMono(rv, floor * c, r);
    assert rv * (floor * c) == c * (floor * rv);
  }

  // A floor less for each segment closed, and its value less to share.
  ghost predicate Spending(live: seq<real>, gone: seq<nat>, r: real, rv: real, r': real, rv': real, floor: real) {
    Balance(r', r, floor, Count(gone, |live|)) && rv' == rv - Tally(live, gone, |live|)
  }

  // How closing `gone` moves the sums.
  lemma CloseSums(live: seq<real>, open: seq<nat>, gone: seq<nat>, left: seq<nat>,
                  r: real, rv: real, r': real, rv': real, floor: real)
    requires forall i | 0 <= i < |live| :: live[i] > 0.0
    requires Spending(live, gone, r, rv, r', rv', floor)
    requires forall i | i in open :: i < |live|
    requires (forall i :: i in open <==> i in gone || i in left) && forall i :: i in gone ==> i !in left
    requires rv == Tally(live, open, |live|) && rv > 0.0 && exists i :: i in left
    requires forall i | i in gone :: TooSmall(live[i], r, rv, floor)
    ensures Count(open, |live|) == Count(gone, |live|) + Count(left, |live|)
    ensures rv' == Tally(live, left, |live|) > 0.0
    ensures RateDrops(r, rv, r', rv')
  {
    var n := |live|;
    Parts(live, open, gone, left, n);
    var keep :| keep in left;
    assert keep in open;
    TallyNonNegative(live, left, n);
    SmallRate(live, gone, r, rv, r', rv', floor);
  }

  lemma SmallRate(live: seq<real>, gone: seq<nat>, r: real, rv: real, r': real, rv': real, floor: real)
    requires Spending(live, gone, r, rv, r', rv', floor)
    requires rv > 0.0 && forall i | i in gone :: i < |live| && TooSmall(live[i], r, rv, floor)
    ensures RateDrops(r, rv, r', rv')
  {
    forall i | i in gone ensures live[i] * r < floor * rv { TooSmallIff(live[i], r, rv, floor); }
    SmallTogether(live, gone, |live|, r, rv, floor);
    RateFalls(r, rv, r', rv', Count(gone, |live|), Tally(live, gone, |live|), floor);
  }

  // A closed segment, old or new, stays below the floor at the new rate.
  lemma StaysClosed(v: real, wasOpen: bool, r: real, rv: real, r': real, rv': real, floor: real)
    requires v > 0.0 && rv > 0.0 && rv' >= 0.0 && RateDrops(r, rv, r', rv')
    requires if wasOpen then TooSmall(v, r, rv, floor) else v * r <= floor * rv
    ensures v * r' <= floor * rv'
  {
    TooSmallIff(v, r, rv, floor);
    StillSmall(v, r, rv, r', rv', floor);
  }

  ghost predicate Room(live: seq<real>, floor: real, available: real) {
    floor >= 0.0 && floor * |live| as real <= available && forall i | 0 <= i < |live| :: live[i] > 0.0
  }

  ghost predicate ClosedAtFloor(live: seq<real>, widths: seq<real>, open: seq<nat>, remaining: real, remainingValue: real, floor: real)
    requires |widths| == |live|
  {
    forall i | 0 <= i < |live| && i !in open :: widths[i] == floor && live[i] * remaining <= floor * remainingValue
  }

  lemma CloseWidths(live: seq<real>, widths: seq<real>, widths': seq<real>, open: seq<nat>, gone: seq<nat>, left: seq<nat>,
                    r: real, rv: real, r': real, rv': real, floor: real)
    requires |widths| == |live| == |widths'| && ClosedAtFloor(live, widths, open, r, rv, floor)
    requires forall i | 0 <= i < |live| :: widths'[i] == if i in gone then floor else widths[i]
    requires forall i :: i in open <==> i in gone || i in left
    requires forall i | i in gone && i < |live| :: TooSmall(live[i], r, rv, floor)
    requires forall i | 0 <= i < |live| :: live[i] > 0.0
    requires rv > 0.0 && rv' >= 0.0 && RateDrops(r, rv, r', rv')
    ensures ClosedAtFloor(live, widths', left, r', rv', floor)
  {
    forall i | 0 <= i < |live| && i !in left ensures widths'[i] == floor && live[i] * r' <= floor * rv' {
      StaysClosed(live[i], i in gone, r, rv, r', rv', floor);
    }
  }

  lemma CloseStep(live: seq<real>, widths: seq<real>, widths': seq<real>, open: seq<nat>, gone: seq<nat>, left: seq<nat>,
                  r: real, rv: real, r': real, rv': real, floor: real, available: real)
    requires Sharing(live, widths, open, r, rv, floor, available) && Room(live, floor, available)
    requires gone == Undersized(live, open, r, rv, floor) && left == Without(open, gone)
    requires |widths'| == |widths| && forall i | 0 <= i < |live| :: widths'[i] == if i in gone then floor else widths[i]
    requires Spending(live, gone, r, rv, r', rv', floor)
    ensures Sharing(live, widths', left, r', rv', floor, available)
  {
    SomeoneStays(live, widths, open, gone, left, r, rv, floor, available);
    CloseSums(live, open, gone, left, r, rv, r', rv', floor);
    CloseWidths(live, widths, widths', open, gone, left, r, rv, r', rv', floor);
    StillBalanced(live, open, gone, left, r, rv, r', rv', floor, available);
  }

  lemma SomeoneStays(live: seq<real>, widths: seq<real>, open: seq<nat>, gone: seq<nat>, left: seq<nat>,
                     r: real, rv: real, floor: real, available: real)
    requires Sharing(live, widths, open, r, rv, floor, available) && Room(live, floor, available)
    requires gone == Undersized(live, open, r, rv, floor) && left == Without(open, gone)
    ensures left != [] && exists i :: i in left
  {
    NotAllSmall(live, widths, open, r, rv, floor, available);
    var keep :| keep in open && !TooSmall(live[keep], r, rv, floor);
    assert keep in left;
  }

  lemma StillBalanced(live: seq<real>, open: seq<nat>, gone: seq<nat>, left: seq<nat>,
                      r: real, rv: real, r': real, rv': real, floor: real, available: real)
    requires Spending(live, gone, r, rv, r', rv', floor) && Count(open, |live|) == Count(gone, |live|) + Count(left, |live|)
    requires Balance(r, available, floor, |live| as real - Count(open, |live|))
    ensures Balance(r', available, floor, |live| as real - Count(left, |live|))
  {
    var closed, g, closed' := |live| as real - Count(open, |live|), Count(gone, |live|), |live| as real - Count(left, |live|);
    Spent(r, available, floor, closed, g, closed', r');
  }

  lemma Spent(r: real, available: real, floor: real, closed: real, g: real, closed': real, r': real)
    requires Balance(r, available, floor, closed) && Balance(r', r, floor, g) && closed' == closed + g
    ensures Balance(r', available, floor, closed')
  {
    Distribute(closed, g, floor);
  }

  method Close(live: seq<real>, widths: seq<real>, gone: seq<nat>, remaining: real, remainingValue: real, floor: real)
    returns (widths': seq<real>, remaining': real, remainingValue': real)
    requires |widths| == |live| && Listed(gone, |live|)
    ensures |widths'| == |widths| && forall i | 0 <= i < |live| :: widths'[i] == if i in gone then floor else widths[i]
    ensures Spending(live, gone, remaining, remainingValue, remaining', remainingValue', floor)
  {
    widths', remaining', remainingValue' := widths, remaining, remainingValue;
    NothingListed(live, |live|);
    for k := 0 to |gone|
      invariant |widths'| == |widths| && forall i | 0 <= i < |live| :: widths'[i] == if i in gone[..k] then floor else widths[i]
      invariant remaining' == remaining - floor * Count(gone[..k], |live|)
      invariant remainingValue' == remainingValue - Tally(live, gone[..k], |live|)
    {
      assert gone[..k + 1] == gone[..k] + [gone[k]] && gone[k] in gone;
      OneMore(live, gone[..k], gone[k], |live|);
      Distribute(Count(gone[..k], |live|), 1.0, floor);
      widths' := widths'[gone[k] := floor];
      remaining' := remaining' - floor;
      remainingValue' := remainingValue' - live[gone[k]];
    }
    assert gone[..|gone|] == gone;
  }

  lemma {:induction false} NothingListed(values: seq<real>, n: nat)
    requires n <= |values|
    ensures Tally(values, [], n) == 0.0 && Count([], n) == 0.0
  {
    if n > 0 { NothingListed(values, n - 1); }
  }

  // ---- The outcome -----------------------------------------------------------------------------------

  // One rate for all, but nobody below the floor.
  function Width(floor: real, rate: real, value: real): real { Max(floor, rate * value) }

  ghost predicate Proportional(live: seq<real>, widths: seq<real>, floor: real, rate: real) {
    |widths| == |live| && rate >= 0.0 && forall i | 0 <= i < |live| :: widths[i] == Width(floor, rate, live[i])
  }

  // What the open segments take at the rate, and the closed ones at the floor.
  function Paid(rate: real, t: real, floor: real, closed: real): real { rate * t + floor * closed }

  lemma {:induction false} SumOfShares(live: seq<real>, widths: seq<real>, open: seq<nat>, rate: real, floor: real, n: nat)
    requires n <= |live| && Shares(live, widths, open, rate, floor)
    ensures Sum(widths[..n]) == Paid(rate, Tally(live, open, n), floor, n as real - Count(open, n))
  {
    if n > 0 {
      SumOfShares(live, widths, open, rate, floor, n - 1);
      assert widths[..n][..n - 1] == widths[..n - 1];
      PaidStep(rate, Tally(live, open, n - 1), live[n - 1], floor, (n - 1) as real - Count(open, n - 1));
    } else {
      assert widths[..0] == [];
    }
  }

  lemma PaidStep(rate: real, t: real, v: real, floor: real, closed: real)
    ensures Paid(rate, t + v, floor, closed) == Paid(rate, t, floor, closed) + rate * v
    ensures Paid(rate, t, floor, closed + 1.0) == Paid(rate, t, floor, closed) + floor
  {
  }

  lemma WidthAt(v: real, w: real, isOpen: bool, r: real, rv: real, floor: real)
    requires rv > 0.0
    requires if isOpen then w == v / rv * r && !TooSmall(v, r, rv, floor) else w == floor && v * r <= floor * rv
    ensures w == (if isOpen then r / rv * v else floor) && w == Width(floor, r / rv, v)
  {
    Reorder(v, rv, r);
    if !isOpen { AtRate(v, r, rv, floor); }
  }

  lemma RateIsNonNegative(r: real, rv: real)
    requires r >= 0.0 && rv > 0.0
    ensures r / rv >= 0.0 && r / rv * rv == r
  {
  }

  lemma FinishWidths(live: seq<real>, widths: seq<real>, widths': seq<real>, open: seq<nat>, r: real, rv: real, rate: real, floor: real)
    requires |widths| == |live| == |widths'| && ClosedAtFloor(live, widths, open, r, rv, floor)
    requires r >= 0.0 && rv > 0.0 && rate == r / rv
    requires forall i | i in open :: i < |live| && !TooSmall(live[i], r, rv, floor)
    requires forall i | 0 <= i < |live| :: widths'[i] == if i in open then live[i] / rv * r else widths[i]
    ensures Proportional(live, widths', floor, rate)
    ensures Shares(live, widths', open, rate, floor)
  {
    RateIsNonNegative(r, rv);
    forall i | 0 <= i < |live| ensures widths'[i] == (if i in open then rate * live[i] else floor) && widths'[i] == Width(floor, rate, live[i]) {
      WidthAt(live[i], widths'[i], i in open, r, rv, floor);
    }
  }

  lemma AllSpent(sum: real, rate: real, rv: real, r: real, floor: real, closed: real, available: real)
    requires sum == Paid(rate, rv, floor, closed) && rate * rv == r && Balance(r, available, floor, closed)
    ensures sum == available
  {
  }

  lemma Finish(live: seq<real>, widths: seq<real>, widths': seq<real>, open: seq<nat>, r: real, rv: real, rate: real, floor: real, available: real)
    requires Sharing(live, widths, open, r, rv, floor, available) && Room(live, floor, available) && rate == r / rv
    requires forall i | i in open :: !TooSmall(live[i], r, rv, floor)
    requires |widths'| == |widths| && forall i | 0 <= i < |live| :: widths'[i] == if i in open then live[i] / rv * r else widths[i]
    ensures Proportional(live, widths', floor, rate)
    ensures Sum(widths') == available
  {
    var n := |live|;
    LeftIsEnough(r, floor, available, n as real, Count(open, n));
    FinishWidths(live, widths, widths', open, r, rv, rate, floor);
    FinishSum(live, widths', open, r, rv, rate, floor, available);
  }

  lemma FinishSum(live: seq<real>, widths: seq<real>, open: seq<nat>, r: real, rv: real, rate: real, floor: real, available: real)
    requires |widths| == |live| && rv == Tally(live, open, |live|) && rv > 0.0 && rate == r / rv
    requires Balance(r, available, floor, |live| as real - Count(open, |live|))
    requires Shares(live, widths, open, rate, floor)
    ensures Sum(widths) == available
  {
    Undivide(r, rv);
    var closed := |live| as real - Count(open, |live|);
    SumOfAllShares(live, widths, open, rate, floor, closed);
    AllSpent(Sum(widths), rate, rv, r, floor, closed, available);
  }

  ghost predicate Shares(live: seq<real>, widths: seq<real>, open: seq<nat>, rate: real, floor: real) {
    |widths| == |live| && forall i | 0 <= i < |live| :: widths[i] == if i in open then rate * live[i] else floor
  }

  lemma WholeSum(widths: seq<real>, n: nat)
    requires n == |widths|
    ensures Sum(widths[..n]) == Sum(widths)
  {
    assert widths[..n] == widths;
  }

  lemma SumOfAllShares(live: seq<real>, widths: seq<real>, open: seq<nat>, rate: real, floor: real, closed: real)
    requires Shares(live, widths, open, rate, floor) && closed == |live| as real - Count(open, |live|)
    ensures Sum(widths) == Paid(rate, Tally(live, open, |live|), floor, closed)
  {
    SumOfShares(live, widths, open, rate, floor, |live|);
    WholeSum(widths, |live|);
  }

  lemma Undivide(r: real, rv: real)
    requires rv > 0.0
    ensures r / rv * rv == r
  {
  }

  lemma LeftIsEnough(r: real, floor: real, available: real, n: real, c: real)
    requires Balance(r, available, floor, n - c) && floor * n <= available && floor >= 0.0 && c >= 0.0
    ensures r >= 0.0
  {
    assert floor * (n - c) == floor * n - floor * c;
    assert floor * c >= 0.0;
  }

  lemma Reorder(v: real, rv: real, r: real)
    requires rv > 0.0
    ensures v / rv * r == r / rv * v
  {
    var inv := 1.0 / rv;
    assert v / rv == v * inv && r / rv == r * inv;
  }

  lemma AtRate(v: real, r: real, rv: real, floor: real)
    requires rv > 0.0 && v * r <= floor * rv
    ensures r / rv * v <= floor
  {
    var rate := r / rv;
    assert rate * rv == r;
    assert v * r == (rate * v) * rv;
    CancelRight(rate * v, floor, rv);
  }

  // The last round: every segment still open gets its share.
  method ShareOut(live: seq<real>, widths: seq<real>, open: seq<nat>, remaining: real, remainingValue: real) returns (widths': seq<real>)
    requires |widths| == |live| && Listed(open, |live|) && remainingValue > 0.0
    ensures |widths'| == |widths|
    ensures forall i | 0 <= i < |live| :: widths'[i] == if i in open then live[i] / remainingValue * remaining else widths[i]
  {
    widths' := widths;
    for k := 0 to |open|
      invariant |widths'| == |live|
      invariant forall i | 0 <= i < |live| :: widths'[i] == if i in open[..k] then live[i] / remainingValue * remaining else widths[i]
    {
      assert open[k] in open && open[..k + 1] == open[..k] + [open[k]];
      widths' := widths'[open[k] := if remainingValue > 0.0 then live[open[k]] / remainingValue * remaining else 0.0];
    }
    assert open[..|open|] == open;
  }

  method Allocate(live: seq<real>, total: real, available: real, floor: real) returns (widths: seq<real>, ghost rate: real)
    requires Room(live, floor, available)
    requires live != [] ==> total == Sum(live)
    ensures live != [] ==> Proportional(live, widths, floor, rate) && Sum(widths) == available
    ensures |widths| == |live|
  {
    widths, rate := seq(|live|, i => 0.0), 0.0;
    var remaining, remainingValue, open := available, total, UpTo(|live|);
    if live != [] { StartSharing(live, widths, open, total, floor, available); }
    while open != []
      invariant live == [] ==> open == []
      invariant live != [] ==> Sharing(live, widths, open, remaining, remainingValue, floor, available)
      invariant |widths| == |live|
      decreases |open|
    {
      var undersized := Undersized(live, open, remaining, remainingValue, floor);
      ghost var before, r, rv := widths, remaining, remainingValue;
      if undersized == [] {
        rate := Rate(remaining, remainingValue);
        NoneTooSmall(live, open, undersized, remaining, remainingValue, floor);
        widths := ShareOut(live, widths, open, remaining, remainingValue);
        Finish(live, before, widths, open, r, rv, rate, floor, available);
        return;
      }
      UndersizedListed(live, open, remaining, remainingValue, floor);
      widths, remaining, remainingValue := Close(live, widths, undersized, remaining, remainingValue, floor);
      CloseStep(live, before, widths, open, undersized, Without(open, undersized), r, rv, remaining, remainingValue, floor, available);
      assert undersized[0] in undersized;
      open := Without(open, undersized);
    }
  }

  function Rate(remaining: real, remainingValue: real): real
    requires remainingValue > 0.0
  {
    remaining / remainingValue
  }

  lemma NoneTooSmall(live: seq<real>, open: seq<nat>, undersized: seq<nat>, r: real, rv: real, floor: real)
    requires forall i | i in open :: i < |live|
    requires undersized == Undersized(live, open, r, rv, floor) && undersized == []
    ensures forall i | i in open :: !TooSmall(live[i], r, rv, floor)
  {
    forall i | i in open ensures !TooSmall(live[i], r, rv, floor) { assert i !in undersized; }
  }

  lemma StartSharing(live: seq<real>, widths: seq<real>, open: seq<nat>, total: real, floor: real, available: real)
    requires live != [] && |widths| == |live| && open == UpTo(|live|) && total == Sum(live)
    requires Room(live, floor, available)
    ensures Sharing(live, widths, open, available, total, floor, available)
  {
    forall i: nat | i < |live| ensures i in open { assert open[i] == i; }
    AllListed(live, open, |live|);
    assert live[..|live|] == live;
    TallyNonNegative(live, open, |live|);
  }

  // `n` equal parts.
  function Part(whole: real, n: int): real {
    if n > 0 then whole / n as real else 0.0
  }

  lemma PartsMakeWhole(whole: real, n: nat)
    requires n > 0
    ensures Part(whole, n) * n as real == whole
    ensures whole >= 0.0 ==> Part(whole, n) >= 0.0
  {
  }

  // `Math.min(100, total / base * 100)`.
  function Extent(total: real, base: real): real
    requires base > 0.0
  {
    Min(100.0, total / base * 100.0)
  }

  lemma ExtentIsPositive(total: real, base: real)
    requires total > 0.0 && base > 0.0
    ensures 0.0 < Extent(total, base) <= 100.0
    ensures base <= total ==> Extent(total, base) == 100.0
    ensures total <= base ==> Extent(total, base) * base == total * 100.0
  {
    var share := total / base;
    assert share * base == total;
    assert base <= total ==> share >= 1.0;
    assert total <= base ==> share <= 1.0;
    assert share > 0.0;
    assert share * 100.0 * base == total * 100.0;
  }

  lemma FloorFits(live: seq<real>, available: real, floor: real)
    requires live != [] && available >= 0.0 && floor == Min(3.2, Part(available, |live|)) && forall i | 0 <= i < |live| :: live[i] > 0.0
    ensures Room(live, floor, available)
  {
    PartsMakeWhole(available, |live|);
    MulMono(|live| as real, floor, Part(available, |live|));
  }

  // The whole width for the largest bar, and in proportion to its total for a smaller one.
  ghost predicate Reaches(extent: real, total: real, max: Option<real>) {
    if max.Some? && max.value > total then 0.0 < extent <= 100.0 && extent * max.value == total * 100.0 else extent == 100.0
  }

  // How far the bar reaches.
  method Reach(total: real, max: Option<real>) returns (extent: real)
    requires total > 0.0
    ensures 0.0 < extent && Reaches(extent, total, max)
  {
    var base := if max.Some? && max.value > 0.0 then max.value else total;
    ExtentIsPositive(total, base);
    extent := Extent(total, base);
  }

  // The nominal gap, or less when the gaps alone would fill the bar.
  function GapFor(n: nat, extent: real, height: real): real {
    Part(Min((if height > 16.0 then 0.9 else 0.6) * (n - 1) as real, extent), n - 1)
  }

  function AllGaps(gap: real, n: nat): real { gap * (n - 1) as real }

  // Gaps between the segments, and what is left for them.
  method Gaps(n: nat, extent: real, height: real) returns (gap: real, available: real, floor: real)
    requires extent > 0.0
    ensures n > 0 ==> available + AllGaps(gap, n) == extent
    ensures gap == GapFor(n, extent, height)
    ensures available >= 0.0 && (n > 0 ==> floor == Min(3.2, Part(available, n)))
    ensures n == 0 ==> floor == 0.0
  {
    var GAP := if height > 16.0 then 0.9 else 0.6;
    var gapTotal := Min(GAP * Max(0.0, (n - 1) as real), extent);
    gap := if n > 1 then Part(gapTotal, n - 1) else 0.0;
    available := Max(0.0, extent - gapTotal);
    floor := if n > 0 then Min(3.2, Part(available, n)) else 0.0;
    if n > 1 { PartsMakeWhole(gapTotal, n - 1); }
  }

  method StackedBar(values: seq<real>, max: Option<real>, height: real)
    returns (live: seq<real>, widths: seq<real>, extent: real, gap: real, floor: real, ghost rate: real)
    ensures live == Live(values) && |widths| == |live|
    ensures live != [] ==> PositiveTotal(values) > 0.0 && Reaches(extent, PositiveTotal(values), max)
    ensures live != [] ==> Sum(widths) + AllGaps(gap, |live|) == extent
    ensures gap == GapFor(|live|, extent, height)
    ensures live != [] ==> floor == Min(3.2, Part(Sum(widths), |live|))
    ensures live != [] ==> Proportional(live, widths, floor, rate)
  {
    var positive := PositiveTotal(values);
    var total := if positive == 0.0 then 1.0 else positive;
    live := Live(values);
    LiveTotal(values);
    SumPositive(live);
    extent := Reach(total, max);
    var available;
    gap, available, floor := Gaps(|live|, extent, height);
    if live != [] { FloorFits(live, available, floor); }
    widths, rate := Allocate(live, total, available, floor);
  }

  lemma {:induction false} SumPositive(values: seq<real>)
    requires forall i | 0 <= i < |values| :: values[i] > 0.0
    ensures if values == [] then Sum(values) == 0.0 else Sum(values) > 0.0
  {
    if values != [] { SumPositive(values[..|values| - 1]); }
  }

  lemma MulMonoLeft(a: real, b: real, k: real)
    requires k >= 0.0 && a <= b
    ensures a * k <= b * k
  {
  }

  lemma MaxGrows(floor: real, p: real, q: real)
    requires p <= q
    ensures floor <= Max(floor, p) <= Max(floor, q)
  {
  }

  lemma WidthGrowsWithValue(floor: real, rate: real, a: real, b: real)
    requires 0.0 <= rate && a <= b
    ensures floor <= Width(floor, rate, a) <= Width(floor, rate, b)
  {
    MulMono(rate, a, b);
    MaxGrows(floor, rate * a, rate * b);
  }

  lemma WidthGrowsWithRate(floor: real, rate: real, rate': real, value: real)
    requires rate <= rate' && 0.0 <= value
    ensures Width(floor, rate, value) <= Width(floor, rate', value)
  {
    MulMonoLeft(rate, rate', value);
    MaxGrows(floor, rate * value, rate' * value);
  }

  // What that form means: nobody below the floor, and a larger value never gets a smaller width.
  lemma LargerIsNotNarrower(live: seq<real>, widths: seq<real>, floor: real, rate: real, i: nat, j: nat)
    requires Proportional(live, widths, floor, rate) && i < |live| && j < |live| && 0.0 < live[i] <= live[j]
    ensures floor <= widths[i] <= widths[j]
  {
    WidthGrowsWithValue(floor, rate, live[i], live[j]);
  }

  lemma HigherRate(live: seq<real>, w: seq<real>, w': seq<real>, floor: real, rate: real, rate': real)
    requires Proportional(live, w, floor, rate) && Proportional(live, w', floor, rate') && rate <= rate'
    requires forall i | 0 <= i < |live| :: live[i] > 0.0
    ensures forall i | 0 <= i < |live| :: w[i] <= w'[i]
  {
    forall i | 0 <= i < |live| ensures w[i] <= w'[i] {
      WidthGrowsWithRate(floor, rate, rate', live[i]);
    }
  }

  // And it leaves no choice: floor and total width determine every width.
  lemma WidthsAreForced(live: seq<real>, w: seq<real>, w': seq<real>, floor: real, rate: real, rate': real)
    requires Proportional(live, w, floor, rate) && Proportional(live, w', floor, rate') && Sum(w) == Sum(w')
    requires forall i | 0 <= i < |live| :: live[i] > 0.0
    ensures w == w'
  {
    if rate <= rate' {
      HigherRate(live, w, w', floor, rate, rate');
      SameSumSameTerms(w, w');
    } else {
      HigherRate(live, w', w, floor, rate', rate);
      SameSumSameTerms(w', w);
    }
  }

  lemma {:induction false} SumMonotone(a: seq<real>, b: seq<real>)
    requires |a| == |b| && forall i | 0 <= i < |a| :: a[i] <= b[i]
    ensures Sum(a) <= Sum(b)
  {
    if a != [] { SumMonotone(a[..|a| - 1], b[..|b| - 1]); }
  }

  lemma {:induction false} SameSumSameTerms(a: seq<real>, b: seq<real>)
    requires |a| == |b| && Sum(a) == Sum(b) && forall i | 0 <= i < |a| :: a[i] <= b[i]
    ensures a == b
  {
    if a != [] {
      SumMonotone(a[..|a| - 1], b[..|b| - 1]);
      SameSumSameTerms(a[..|a| - 1], b[..|b| - 1]);
      assert a == a[..|a| - 1] + [a[|a| - 1]] && b == b[..|b| - 1] + [b[|b| - 1]];
    }
  }
}
