// Small shared vocabulary: optional values, outcomes of calls that can be refused, and
// the orderings behind Python's `sorted`.
module Basics {
  datatype Option<+T> = None | Some(value: T)

  datatype Result<+T, +E> = Ok(value: T) | Err(error: E)

  // Code-point order on strings, the order in which Python compares `str`.
  predicate LexLe(a: string, b: string) {
    a == "" || (b != "" && (a[0] < b[0] || (a[0] == b[0] && LexLe(a[1..], b[1..]))))
  }

  lemma LexTotal(a: string, b: string)
    ensures LexLe(a, b) || LexLe(b, a)
  {
  }

  lemma LexAntisymmetric(a: string, b: string)
    requires LexLe(a, b) && LexLe(b, a)
    ensures a == b
  {
    if a != "" {
      LexAntisymmetric(a[1..], b[1..]);
      assert a == [a[0]] + a[1..] && b == [b[0]] + b[1..];
    }
  }

  lemma LexTransitive(a: string, b: string, c: string)
    requires LexLe(a, b) && LexLe(b, c)
    ensures LexLe(a, c)
  {
  }

  // At the first place where the two differ the smaller has the smaller character, or it ends there.
  ghost predicate FirstDiffers(a: string, b: string, i: int) { 0 <= i < |a| && i < |b| && a[..i] == b[..i] && a[i] < b[i] }

  lemma {:induction false} LexIff(a: string, b: string)
    ensures LexLe(a, b) <==> a <= b || exists i :: FirstDiffers(a, b, i)
  {
    if a != "" && b != "" && a[0] == b[0] {
      LexIff(a[1..], b[1..]);
      if i :| FirstDiffers(a[1..], b[1..], i) {
        assert a[..i + 1] == [a[0]] + a[1..][..i] && b[..i + 1] == [b[0]] + b[1..][..i];
        assert FirstDiffers(a, b, i + 1);
      }
      if i :| FirstDiffers(a, b, i) {
        assert a[1..][..i - 1] == a[..i][1..] && b[1..][..i - 1] == b[..i][1..];
        assert FirstDiffers(a[1..], b[1..], i - 1);
      }
    } else if a != "" && b != "" && a[0] < b[0] {
      assert FirstDiffers(a, b, 0);
    }
  }

  ghost predicate Sorted(s: seq<string>) {
    forall i, j | 0 <= i < j < |s| :: LexLe(s[i], s[j])
  }

  lemma SortedCons(x: string, s: seq<string>)
    requires Sorted(s) && (s == [] || LexLe(x, s[0]))
    ensures Sorted([x] + s)
  {
    if s != [] {
      LexTotal(s[0], s[0]);
      forall j | 0 <= j < |s| ensures LexLe(x, s[j]) { LexTransitive(x, s[0], s[j]); }
    }
  }

  lemma SortedBehind(first: string, x: string, s: seq<string>, rest: seq<string>)
    requires Sorted([first] + s) && Sorted(rest) && multiset(rest) == multiset(s) + multiset{x} && LexLe(first, x)
    ensures Sorted([first] + rest)
  {
    if rest != [] {
      assert rest[0] in multiset(rest);
      if rest[0] != x {
        assert rest[0] in multiset(s);
        var k :| 0 <= k < |s| && s[k] == rest[0];
        assert ([first] + s)[0] == first && ([first] + s)[k + 1] == rest[0];
      }
      SortedCons(first, rest);
    }
  }

  // Inserts before the first element that is not smaller.
  function Insert(x: string, s: seq<string>): (r: seq<string>)
    ensures multiset(r) == multiset(s) + multiset{x}
    ensures Sorted(s) ==> Sorted(r)
  {
    if s == [] then [x]
    else if LexLe(x, s[0]) then
      assert Sorted(s) ==> Sorted([x] + s) by { if Sorted(s) { SortedCons(x, s); } }
      [x] + s
    else
      var rest := Insert(x, s[1..]);
      assert s == [s[0]] + s[1..];
      assert Sorted(s) ==> Sorted([s[0]] + rest) by {
        if Sorted(s) {
          LexTotal(x, s[0]);
          SortedBehind(s[0], x, s[1..], rest);
        }
      }
      [s[0]] + rest
  }

  // Python's `sorted` on a list of strings.
  function Sort(s: seq<string>): (r: seq<string>)
    ensures Sorted(r)
    ensures multiset(r) == multiset(s)
  {
    if s == [] then []
    else
      assert s == [s[0]] + s[1..];
      Insert(s[0], Sort(s[1..]))
  }

  predicate IsLeast(x: string, s: set<string>) { x in s && forall y | y in s :: LexLe(x, y) }

  lemma LeastWithOneMore(s: set<string>, x: string, m: string)
    requires x in s && IsLeast(m, s - {x})
    ensures IsLeast(if LexLe(m, x) then m else x, s)
  {
    LexTotal(m, x);
    LexTotal(x, x);
    var least := if LexLe(m, x) then m else x;
    forall y | y in s ensures LexLe(least, y) {
      if y != x && least == x { LexTransitive(x, m, y); }
    }
  }

  lemma {:induction false} LeastExists(s: set<string>)
    requires s != {}
    ensures exists x :: IsLeast(x, s)
  {
    var x :| x in s;
    if s == {x} {
      LexTotal(x, x);
      assert IsLeast(x, s);
    } else {
      LeastExists(s - {x});
      var m :| IsLeast(m, s - {x});
      LeastWithOneMore(s, x, m);
    }
  }

  lemma LeastIsUnique(s: set<string>, a: string, b: string)
    requires IsLeast(a, s) && IsLeast(b, s)
    ensures a == b
  {
    LexAntisymmetric(a, b);
  }

  function Least(s: set<string>): (x: string)
    requires s != {}
    ensures IsLeast(x, s)
  {
    LeastExists(s);
    assert forall a, b | IsLeast(a, s) && IsLeast(b, s) :: a == b by {
      forall a, b | IsLeast(a, s) && IsLeast(b, s) ensures a == b { LeastIsUnique(s, a, b); }
    }
    var x :| x in s && IsLeast(x, s);
    x
  }

  // Python's `sorted` on a set of strings: every element once, in order.
  function SortedSeq(s: set<string>): (r: seq<string>)
    ensures forall x :: x in r <==> x in s
    ensures Sorted(r)
    ensures forall i, j | 0 <= i < j < |r| :: r[i] != r[j]
  {
    if s == {} then [] else
      var x := Least(s);
      [x] + SortedSeq(s - {x})
  }
}
