// The source text cut into pieces at every span boundary, so that a screen can draw each
// piece with the fields that rest on it (main.py, _highlight_segments).
module Segments {
  import opened Basics

  // A stored span. Nothing is assumed about its bounds: they may overlap other spans, be
  // inverted, or lie outside the text.
  datatype Mark = Mark(start: int, end: int, fieldPath: string)

  datatype Segment = Segment(text: string, fieldPaths: seq<string>)

  function Clamp(n: int, length: nat): (r: nat)
    ensures r <= length
    ensures 0 <= n <= length ==> r == n
  {
    if n < 0 then 0 else if n > length then length else n
  }

  // The quotation a mark stands for.
  function Quoted(text: string, m: Mark): string {
    var start, end := Clamp(m.start, |text|), Clamp(m.end, |text|);
    if start < end then text[start..end] else ""
  }

  // `sorted` on a set of offsets no larger than `last`.
  function Points(cuts: set<nat>, last: nat): (r: seq<nat>)
    ensures forall i | 0 <= i < |r| :: r[i] in cuts && r[i] <= last
    ensures forall i, j | 0 <= i < j < |r| :: r[i] < r[j]
  {
    (if last == 0 then [] else Points(cuts, last - 1)) + (if last in cuts then [last] else [])
  }

  lemma {:induction false} PointOf(cuts: set<nat>, last: nat, n: nat) returns (i: nat)
    requires n in cuts && n <= last
    ensures i < |Points(cuts, last)| && Points(cuts, last)[i] == n
  {
    if n == last { i := |Points(cuts, last)| - 1; } else { i := PointOf(cuts, last - 1, n); }
  }

  // Paths of the marks that hold the whole piece, as the code selects them.
  function Inside(marks: seq<Mark>, length: nat, start: nat, end: nat): seq<string> {
    if marks == [] then [] else
      (if Clamp(marks[0].start, length) <= start && end <= Clamp(marks[0].end, length) then [marks[0].fieldPath] else [])
      + Inside(marks[1..], length, start, end)
  }

  // Paths of the marks that hold the character at `i`.
  function PathsAt(marks: seq<Mark>, i: nat): seq<string> {
    if marks == [] then [] else
      (if marks[0].start <= i < marks[0].end then [marks[0].fieldPath] else []) + PathsAt(marks[1..], i)
  }

  predicate Bounds(cuts: set<nat>, marks: seq<Mark>, length: nat) {
    forall k | 0 <= k < |marks| :: Clamp(marks[k].start, length) in cuts && Clamp(marks[k].end, length) in cuts
  }

  // No cut falls strictly inside the piece, so every mark holds all of it or none of it.
  lemma {:induction false} InsideIsAt(marks: seq<Mark>, cuts: set<nat>, length: nat, start: nat, end: nat, i: nat)
    requires Bounds(cuts, marks, length) && start <= i < end <= length
    requires forall c | c in cuts :: c <= start || end <= c
    ensures Inside(marks, length, start, end) == PathsAt(marks, i)
  {
    if marks != [] {
      assert marks[0] in marks;
      assert Bounds(cuts, marks[1..], length) by { forall k | 0 <= k < |marks| - 1 ensures marks[1..][k] == marks[k + 1] {} }
      InsideIsAt(marks[1..], cuts, length, start, end, i);
    }
  }

  function Concat(segments: seq<Segment>): string {
    if segments == [] then "" else Concat(segments[..|segments| - 1]) + segments[|segments| - 1].text
  }

  // Where the k-th piece begins.
  function Offset(segments: seq<Segment>, k: nat): nat
    requires k <= |segments|
  {
    if k == 0 then 0 else Offset(segments, k - 1) + |segments[k - 1].text|
  }

  ghost predicate Increasing(points: seq<nat>, length: nat) {
    && |points| > 0 && points[0] == 0 && points[|points| - 1] == length
    && forall i, j | 0 <= i < j < |points| :: points[i] < points[j]
  }

  ghost predicate TextAt(text: string, points: seq<nat>, segments: seq<Segment>, k: nat) {
    k + 1 < |points| && k < |segments| && points[k] < points[k + 1] <= |text| && segments[k].text == text[points[k]..points[k + 1]]
  }

  ghost predicate PathsOf(marks: seq<Mark>, length: nat, points: seq<nat>, segments: seq<Segment>, k: nat) {
    k + 1 < |points| && k < |segments| && segments[k].fieldPaths == Sort(Inside(marks, length, points[k], points[k + 1]))
  }

  ghost predicate CutAt(text: string, points: seq<nat>, segments: seq<Segment>) {
    Increasing(points, |text|) && |segments| == |points| - 1 && forall k | 0 <= k < |segments| :: TextAt(text, points, segments, k)
  }

  lemma {:induction false} OffsetsArePoints(text: string, points: seq<nat>, segments: seq<Segment>, k: nat)
    requires CutAt(text, points, segments) && k <= |segments|
    ensures Offset(segments, k) == points[k]
  {
    if k > 0 {
      OffsetsArePoints(text, points, segments, k - 1);
      assert TextAt(text, points, segments, k - 1);
    }
  }

  // Consecutive pieces put together give the text between their boundaries.
  lemma {:induction false} RunOfPieces(text: string, points: seq<nat>, segments: seq<Segment>, a: nat, b: nat)
    requires CutAt(text, points, segments) && a <= b <= |segments|
    ensures points[a] <= points[b] <= |text|
    ensures Concat(segments[a..b]) == text[points[a]..points[b]]
  {
    if a < b {
      RunOfPieces(text, points, segments, a, b - 1);
      assert TextAt(text, points, segments, b - 1);
      assert segments[a..b][..b - a - 1] == segments[a..b - 1];
      assert segments[a..b][b - a - 1] == segments[b - 1];
    }
  }

  // The pieces rebuild the text, and none of them is empty.
  ghost predicate Rebuilds(text: string, segments: seq<Segment>) {
    Concat(segments) == text && forall k | 0 <= k < |segments| :: segments[k].text != ""
  }

  ghost predicate Holds(segments: seq<Segment>, k: nat, i: nat) {
    k < |segments| && Offset(segments, k) <= i < Offset(segments, k + 1)
  }

  ghost predicate Shown(segments: seq<Segment>, i: nat) {
    exists k: nat :: Holds(segments, k, i)
  }

  // Every character lies in a piece, and that piece names exactly the marks over it.
  ghost predicate Explains(text: string, marks: seq<Mark>, segments: seq<Segment>) {
    && (forall i: nat | i < |text| :: Shown(segments, i))
    && (forall k: nat, i: nat | Holds(segments, k, i) :: i < |text| && segments[k].fieldPaths == Sort(PathsAt(marks, i)))
  }

  // Every quotation is a run of whole pieces, and lies where the mark says.
  ghost predicate RunOf(text: string, m: Mark, segments: seq<Segment>, a: nat, b: nat) {
    && a <= b <= |segments| && Concat(segments[a..b]) == Quoted(text, m)
    && (Quoted(text, m) != "" ==> Offset(segments, a) == Clamp(m.start, |text|))
  }

  ghost predicate QuotesWhole(text: string, marks: seq<Mark>, segments: seq<Segment>) {
    forall m | m in marks :: exists a: nat, b: nat :: RunOf(text, m, segments, a, b)
  }

  method HighlightSegments(text: string, marks: seq<Mark>) returns (segments: seq<Segment>)
    ensures Rebuilds(text, segments)
    ensures Explains(text, marks, segments)
    ensures QuotesWhole(text, marks, segments)
  {
    var length := |text|;
    var cuts: set<nat> := {0, length};
    for k := 0 to |marks|
      invariant 0 in cuts && length in cuts && (forall c | c in cuts :: c <= length)
      invariant Bounds(cuts, marks[..k], length)
    {
      cuts := cuts + {Clamp(marks[k].start, length), Clamp(marks[k].end, length)};
    }
    assert marks[..|marks|] == marks;
    var points := Points(cuts, length);
    PointsSpan(cuts, points, length);
    segments := [];
    for k := 0 to |points| - 1
      invariant |segments| == k
      invariant forall j | 0 <= j < k :: TextAt(text, points, segments, j) && PathsOf(marks, length, points, segments, j)
    {
      var segment := Segment(text[points[k]..points[k + 1]], Sort(Inside(marks, length, points[k], points[k + 1])));
      MorePieces(text, marks, points, segments, segment);
      segments := segments + [segment];
    }
    PiecesRebuild(text, points, segments);
    PiecesExplain(text, marks, cuts, points, segments);
    PiecesQuote(text, marks, cuts, points, segments);
  }

  lemma MorePieces(text: string, marks: seq<Mark>, points: seq<nat>, segments: seq<Segment>, segment: Segment)
    requires Increasing(points, |text|) && |segments| + 1 < |points|
    requires forall j | 0 <= j < |segments| :: TextAt(text, points, segments, j) && PathsOf(marks, |text|, points, segments, j)
    requires points[|segments|] < points[|segments| + 1] <= |text|
    requires segment.text == text[points[|segments|]..points[|segments| + 1]]
    requires segment.fieldPaths == Sort(Inside(marks, |text|, points[|segments|], points[|segments| + 1]))
    ensures forall j | 0 <= j <= |segments| :: TextAt(text, points, segments + [segment], j) && PathsOf(marks, |text|, points, segments + [segment], j)
  {
    forall j | 0 <= j <= |segments|
      ensures TextAt(text, points, segments + [segment], j) && PathsOf(marks, |text|, points, segments + [segment], j)
    {
      assert j < |segments| ==> TextAt(text, points, segments, j) && PathsOf(marks, |text|, points, segments, j);
    }
  }

  lemma PointsSpan(cuts: set<nat>, points: seq<nat>, length: nat)
    requires 0 in cuts && length in cuts && points == Points(cuts, length)
    ensures Increasing(points, length)
  {
    var i := PointOf(cuts, length, 0);
    var j := PointOf(cuts, length, length);
  }

  lemma PiecesRebuild(text: string, points: seq<nat>, segments: seq<Segment>)
    requires CutAt(text, points, segments)
    ensures Rebuilds(text, segments)
  {
    RunOfPieces(text, points, segments, 0, |segments|);
    assert segments[0..|segments|] == segments;
    assert text[0..|text|] == text;
    assert forall k | 0 <= k < |segments| :: TextAt(text, points, segments, k) ==> segments[k].text != "";
  }

  lemma {:induction false} PieceFor(points: seq<nat>, length: nat, i: nat, upTo: nat) returns (k: nat)
    requires Increasing(points, length) && upTo < |points| && i < points[upTo]
    ensures k < upTo && points[k] <= i < points[k + 1]
  {
    if points[upTo - 1] <= i { k := upTo - 1; } else { k := PieceFor(points, length, i, upTo - 1); }
  }

  lemma NothingBetween(cuts: set<nat>, points: seq<nat>, length: nat, k: nat, c: nat)
    requires points == Points(cuts, length) && k + 1 < |points| && c in cuts && c <= length
    ensures c <= points[k] || points[k + 1] <= c
  {
    var j := PointOf(cuts, length, c);
  }

  lemma EveryCharacterIsShown(text: string, points: seq<nat>, segments: seq<Segment>, i: nat)
    requires CutAt(text, points, segments) && i < |text|
    ensures Shown(segments, i)
  {
    var k := PieceFor(points, |text|, i, |points| - 1);
    OffsetsArePoints(text, points, segments, k);
    OffsetsArePoints(text, points, segments, k + 1);
    assert Holds(segments, k, i);
  }

  lemma PathsAreExact(text: string, marks: seq<Mark>, cuts: set<nat>, points: seq<nat>, segments: seq<Segment>, k: nat, i: nat)
    requires CutAt(text, points, segments) && points == Points(cuts, |text|)
    requires PathsOf(marks, |text|, points, segments, k) && Bounds(cuts, marks, |text|) && forall c | c in cuts :: c <= |text|
    requires Holds(segments, k, i)
    ensures i < |text| && segments[k].fieldPaths == Sort(PathsAt(marks, i))
  {
    OffsetsArePoints(text, points, segments, k);
    OffsetsArePoints(text, points, segments, k + 1);
    assert TextAt(text, points, segments, k);
    forall c | c in cuts ensures c <= points[k] || points[k + 1] <= c { NothingBetween(cuts, points, |text|, k, c); }
    InsideIsAt(marks, cuts, |text|, points[k], points[k + 1], i);
  }

  lemma PiecesExplain(text: string, marks: seq<Mark>, cuts: set<nat>, points: seq<nat>, segments: seq<Segment>)
    requires CutAt(text, points, segments) && points == Points(cuts, |text|)
    requires forall k | 0 <= k < |segments| :: PathsOf(marks, |text|, points, segments, k)
    requires Bounds(cuts, marks, |text|) && forall c | c in cuts :: c <= |text|
    ensures Explains(text, marks, segments)
  {
    forall i: nat | i < |text| ensures Shown(segments, i) { EveryCharacterIsShown(text, points, segments, i); }
    forall k: nat, i: nat | Holds(segments, k, i)
      ensures i < |text| && segments[k].fieldPaths == Sort(PathsAt(marks, i))
    {
      PathsAreExact(text, marks, cuts, points, segments, k, i);
    }
  }

  lemma PiecesQuote(text: string, marks: seq<Mark>, cuts: set<nat>, points: seq<nat>, segments: seq<Segment>)
    requires CutAt(text, points, segments) && points == Points(cuts, |text|) && Bounds(cuts, marks, |text|)
    ensures QuotesWhole(text, marks, segments)
  {
    forall m | m in marks
      ensures exists a: nat, b: nat :: RunOf(text, m, segments, a, b)
    {
      var start, end := Clamp(m.start, |text|), Clamp(m.end, |text|);
      var k :| 0 <= k < |marks| && marks[k] == m;
      assert start in cuts && end in cuts;
      if start < end {
        var a := PointOf(cuts, |text|, start);
        var b := PointOf(cuts, |text|, end);
        RunOfPieces(text, points, segments, a, b);
        OffsetsArePoints(text, points, segments, a);
        assert RunOf(text, m, segments, a, b);
      } else {
        assert segments[0..0] == [];
        assert RunOf(text, m, segments, 0, 0);
      }
    }
  }

  ghost predicate OverAt(marks: seq<Mark>, i: nat, path: string) {
    exists k :: 0 <= k < |marks| && marks[k].fieldPath == path && marks[k].start <= i < marks[k].end
  }

  lemma OverStep(m: Mark, rest: seq<Mark>, i: nat, path: string)
    ensures OverAt([m] + rest, i, path) <==> (m.fieldPath == path && m.start <= i < m.end) || OverAt(rest, i, path)
  {
    var marks := [m] + rest;
    if k :| 0 <= k < |rest| && rest[k].fieldPath == path && rest[k].start <= i < rest[k].end {
      assert marks[k + 1].fieldPath == path;
    }
    if k :| 0 <= k < |marks| && marks[k].fieldPath == path && marks[k].start <= i < marks[k].end {
      assert k > 0 ==> rest[k - 1].fieldPath == path;
    }
    if m.fieldPath == path && m.start <= i < m.end { assert marks[0].fieldPath == path; }
  }

  lemma {:induction false} PathsAtIff(marks: seq<Mark>, i: nat, path: string)
    ensures path in PathsAt(marks, i) <==> OverAt(marks, i, path)
  {
    if marks != [] {
      PathsAtIff(marks[1..], i, path);
      assert marks == [marks[0]] + marks[1..];
      OverStep(marks[0], marks[1..], i, path);
    }
  }

  lemma SortKeepsMembers(s: seq<string>, x: string)
    ensures x in Sort(s) <==> x in s
  {
    assert x in Sort(s) <==> x in multiset(Sort(s));
    assert x in s <==> x in multiset(s);
  }

  // A path is shown on a character exactly when some mark with that path holds it.
  lemma PathShownIff(marks: seq<Mark>, i: nat, path: string)
    ensures path in Sort(PathsAt(marks, i)) <==> OverAt(marks, i, path)
  {
    SortKeepsMembers(PathsAt(marks, i), path);
    PathsAtIff(marks, i, path);
  }
}
