// Finding a quotation in the stored text and counting how often it occurs
// (extraction_verify.py, locate_quote and count_occurrences; main.py, admin_draft_detail_endpoint).
module Quotes {
  import opened Basics

  predicate OccursAt(text: string, quote: string, i: int) {
    0 <= i && i + |quote| <= |text| && text[i..i + |quote|] == quote
  }

  // `str.find` from a position: the least occurrence there or later.
  function FindFrom(text: string, quote: string, from: nat): (r: Option<nat>)
    ensures r.Some? ==> r.value >= from && OccursAt(text, quote, r.value) && forall i | from <= i < r.value :: !OccursAt(text, quote, i)
    ensures r.None? ==> forall i | from <= i :: !OccursAt(text, quote, i)
    decreases |text| - from
  {
    if OccursAt(text, quote, from) then Some(from)
    else if from + |quote| >= |text| then None
    else FindFrom(text, quote, from + 1)
  }

  // `str.count` for a non-empty quote: leftmost, then on after its end.
  function CountFrom(text: string, quote: string, from: nat): nat
    requires quote != ""
    decreases |text| - from
  {
    var hit := FindFrom(text, quote, from);
    if hit.None? then 0 else 1 + CountFrom(text, quote, hit.value + |quote|)
  }

  function LocateQuote(text: string, quote: string): (r: Option<(nat, nat)>)
    ensures r.Some? ==> r.value.0 < r.value.1 <= |text| && text[r.value.0..r.value.1] == quote
    ensures r.Some? ==> forall i | 0 <= i < r.value.0 :: !OccursAt(text, quote, i)
    ensures r.None? <==> quote == "" || forall i | 0 <= i :: !OccursAt(text, quote, i)
  {
    if quote == "" then None else
      var hit := FindFrom(text, quote, 0);
      if hit.None? then None else Some((hit.value, hit.value + |quote|))
  }

  function CountOccurrences(text: string, quote: string): nat {
    if quote == "" then 0 else CountFrom(text, quote, 0)
  }

  predicate Disjoint(quote: string, i: int, j: int) {
    i + |quote| <= j || j + |quote| <= i
  }

  // A set of places where the quote stands, no two of them sharing a character.
  ghost predicate Packing(text: string, quote: string, places: set<int>) {
    && (forall i | i in places :: OccursAt(text, quote, i))
    && (forall i, j | i in places && j in places && i != j :: Disjoint(quote, i, j))
  }

  // No packing beats the greedy count: at most one place touches the leftmost occurrence.
  lemma {:induction false} GreedyIsUpperBound(text: string, quote: string, from: nat, places: set<int>)
    requires quote != "" && Packing(text, quote, places) && forall i | i in places :: from <= i
    ensures |places| <= CountFrom(text, quote, from)
    decreases |text| - from
  {
    var hit := FindFrom(text, quote, from);
    if hit.None? {
      assert places == {} by { if i :| i in places { assert false; } }
    } else {
      var stop := hit.value + |quote|;
      if i :| i in places && i < stop {
        var rest := places - {i};
        forall j | j in rest ensures stop <= j { assert Disjoint(quote, i, j); }
        GreedyIsUpperBound(text, quote, stop, rest);
      } else {
        GreedyIsUpperBound(text, quote, stop, places);
      }
    }
  }

  // One occurrence before all the others of a packing, and clear of them.
  lemma PackingWithFirst(text: string, quote: string, rest: set<int>, first: int) returns (places: set<int>)
    requires quote != "" && Packing(text, quote, rest) && OccursAt(text, quote, first)
    requires forall i | i in rest :: first + |quote| <= i
    ensures Packing(text, quote, places) && |places| == 1 + |rest|
    ensures forall i | i in places :: first <= i
  {
    assert first !in rest;
    places := rest + {first};
  }

  lemma CountStep(text: string, quote: string, from: nat, hit: nat)
    requires quote != "" && FindFrom(text, quote, from) == Some(hit)
    ensures CountFrom(text, quote, from) == 1 + CountFrom(text, quote, hit + |quote|)
    ensures from <= hit && OccursAt(text, quote, hit) && hit + |quote| <= |text|
  {
  }

  // And the greedy count is reached.
  lemma {:induction false} GreedyIsReached(text: string, quote: string, from: nat) returns (places: set<int>)
    requires quote != ""
    ensures Packing(text, quote, places) && |places| == CountFrom(text, quote, from)
    ensures forall i | i in places :: from <= i
    decreases |text| - from
  {
    match FindFrom(text, quote, from) {
      case None => places := {};
      case Some(hit) =>
        CountStep(text, quote, from, hit);
        var rest := GreedyIsReached(text, quote, hit + |quote|);
        places := PackingWithFirst(text, quote, rest, hit);
    }
  }

  // `count_occurrences` is the largest number of pairwise disjoint occurrences.
  lemma CountIsLargestPacking(text: string, quote: string)
    requires quote != ""
    ensures exists places :: Packing(text, quote, places) && |places| == CountOccurrences(text, quote)
    ensures forall places | Packing(text, quote, places) :: |places| <= CountOccurrences(text, quote)
  {
    var best := GreedyIsReached(text, quote, 0);
    forall places | Packing(text, quote, places) ensures |places| <= CountOccurrences(text, quote) {
      GreedyIsUpperBound(text, quote, 0, places);
    }
  }

  lemma TwoMembers<T>(s: set<T>) returns (i: T, j: T)
    requires |s| > 1
    ensures i in s && j in s && i != j
  {
    i :| i in s;
    var rest := s - {i};
    assert |rest| == |s| - 1;
    j :| j in rest;
  }

  // A quotation is unambiguous exactly when any two places where it stands overlap.
  lemma UnambiguousIffOverlapping(text: string, quote: string)
    requires quote != ""
    ensures CountOccurrences(text, quote) <= 1
      <==> forall i, j | OccursAt(text, quote, i) && OccursAt(text, quote, j) && i != j :: !Disjoint(quote, i, j)
  {
    CountIsLargestPacking(text, quote);
    if i, j :| OccursAt(text, quote, i) && OccursAt(text, quote, j) && i != j && Disjoint(quote, i, j) {
      assert Packing(text, quote, {i, j});
      assert |{i, j}| == 2;
    } else {
      var places :| Packing(text, quote, places) && |places| == CountOccurrences(text, quote);
      if |places| > 1 {
        var i, j := TwoMembers(places);
      }
    }
  }

  // It is found exactly when it is counted.
  lemma LocatedIffCounted(text: string, quote: string)
    ensures LocateQuote(text, quote).Some? <==> CountOccurrences(text, quote) > 0
  {
  }
}
