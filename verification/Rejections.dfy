// Why an extraction was refused, as it is recorded and as it is read back on the review
// screen (extraction_verify.py, Rejection; extraction.py, the joins; admin/app.js, parseFailureReason).
module Rejections {
  import opened Basics

  datatype Code =
    | EnvelopeInvalid | SchemaViolation | PolicyIdMismatch
    | NotFoundUnknownPointer | NotFoundValuePresent
    | SpanMissing | SpanDuplicate | SpanUnexpectedField | SpanForNotFoundField
    | SpanEmptyQuote | SpanNotInText | SpanOffsetMismatch
    | LlmUnavailable | LlmCallFailed | SpanStoreRejected

  // The vocabulary both sides share.
  function Name(c: Code): string {
    match c
    case EnvelopeInvalid => "envelope_invalid"
    case SchemaViolation => "schema_violation"
    case PolicyIdMismatch => "policy_id_mismatch"
    case NotFoundUnknownPointer => "not_found_unknown_pointer"
    case NotFoundValuePresent => "not_found_value_present"
    case SpanMissing => "span_missing"
    case SpanDuplicate => "span_duplicate"
    case SpanUnexpectedField => "span_unexpected_field"
    case SpanForNotFoundField => "span_for_not_found_field"
    case SpanEmptyQuote => "span_empty_quote"
    case SpanNotInText => "span_not_in_text"
    case SpanOffsetMismatch => "span_offset_mismatch"
    case LlmUnavailable => "llm_unavailable"
    case LlmCallFailed => "llm_call_failed"
    case SpanStoreRejected => "span_store_rejected"
  }

  datatype Rejection = Rejection(code: Code, detail: string)

  // `Rejection.__str__`.
  function Printed(r: Rejection): string { Name(r.code) + ": " + r.detail }

  // `" / ".join(...)`.
  function Joined(parts: seq<string>): string {
    if parts == [] then "" else if |parts| == 1 then parts[0] else parts[0] + " / " + Joined(parts[1..])
  }

  // The recorded reason of a failed extraction.
  function Recorded(rs: seq<Rejection>): string {
    Joined(PrintedAll(rs))
  }

  function PrintedAll(rs: seq<Rejection>): (r: seq<string>)
    ensures |r| == |rs| && forall i | 0 <= i < |rs| :: r[i] == Printed(rs[i])
  {
    if rs == [] then [] else [Printed(rs[0])] + PrintedAll(rs[1..])
  }

  predicate CodeChar(c: char) { 'a' <= c <= 'z' || c == '_' }

  predicate CodeLike(s: string) { forall i | 0 <= i < |s| :: CodeChar(s[i]) }

  lemma CodeLikeNames1()
    ensures CodeLike("envelope_invalid") && CodeLike("schema_violation") && CodeLike("policy_id_mismatch")
  {
  }

  lemma CodeLikeNames2()
    ensures CodeLike("not_found_unknown_pointer") && CodeLike("not_found_value_present") && CodeLike("span_missing")
  {
  }

  lemma CodeLikeNames3()
    ensures CodeLike("span_duplicate") && CodeLike("span_unexpected_field") && CodeLike("span_for_not_found_field")
  {
  }

  lemma CodeLikeNames4()
    ensures CodeLike("span_empty_quote") && CodeLike("span_not_in_text") && CodeLike("span_offset_mismatch")
  {
  }

  lemma CodeLikeNames5()
    ensures CodeLike("llm_unavailable") && CodeLike("llm_call_failed") && CodeLike("span_store_rejected")
  {
  }

  lemma NamesAreCodeLike(c: Code)
    ensures Name(c) != "" && CodeLike(Name(c))
  {
    CodeLikeNames1();
    CodeLikeNames2();
    CodeLikeNames3();
    CodeLikeNames4();
    CodeLikeNames5();
  }

  // "<known code>: " at the head of a text.
  predicate Heads(text: string, c: Code) { Name(c) + ": " <= text }

  predicate StartsWithCode(text: string) { exists c: Code :: Heads(text, c) }

  // A separator followed by a known code: the only place the screen cuts.
  predicate Boundary(text: string, i: int) {
    0 <= i && i + 3 <= |text| && text[i..i + 3] == " / " && StartsWithCode(text[i + 3..])
  }

  predicate HasBoundary(text: string) { exists i :: 0 <= i < |text| && Boundary(text, i) }

  function FirstBoundary(text: string, from: nat): (r: Option<nat>)
    requires from <= |text|
    ensures r.Some? ==> from <= r.value < |text| && Boundary(text, r.value) && forall i | from <= i < r.value :: !Boundary(text, i)
    ensures r.None? ==> forall i | from <= i :: !Boundary(text, i)
    decreases |text| - from
  {
    if from == |text| then None
    else if Boundary(text, from) then Some(from)
    else FirstBoundary(text, from + 1)
  }

  // `text.split(boundary)`.
  function Split(text: string): (r: seq<string>)
    ensures r != []
    decreases |text|
  {
    var cut := FirstBoundary(text, 0);
    if cut.None? then [text] else [text[..cut.value]] + Split(text[cut.value + 3..])
  }

  datatype Item = Item(code: Option<string>, pointer: Option<string>, detail: string)

  // The length of the leading run `[a-z_]*`.
  function Run(s: string): (n: nat)
    ensures n <= |s| && CodeLike(s[..n]) && (n < |s| ==> !CodeChar(s[n]))
  {
    if s == "" || !CodeChar(s[0]) then 0 else
      var n := 1 + Run(s[1..]);
      assert forall i | 0 < i < n :: s[i] == s[1..][i - 1];
      n
  }

  // Truthiness of a lookup in the label table. Two names live on every object's prototype.
  predicate HasLabel(s: string) {
    (exists c: Code :: Name(c) == s) || s == "constructor" || s == "__proto__"
  }

  // `^(\/[^\s:]*)`, with the white space ECMAScript knows.
  predicate PointerChar(c: char) {
    var n := c as int;
    !(0x09 <= n <= 0x0D || n == 0x20 || n == 0xA0 || n == 0x1680 || 0x2000 <= n <= 0x200A
      || n == 0x2028 || n == 0x2029 || n == 0x202F || n == 0x205F || n == 0x3000 || n == 0xFEFF) && c != ':'
  }

  function PointerRun(s: string): (n: nat)
    ensures n <= |s|
  {
    if s == "" || !PointerChar(s[0]) then 0 else 1 + PointerRun(s[1..])
  }

  function ParseChunk(chunk: string): Item {
    var n := Run(chunk);
    if n == 0 || n + 2 > |chunk| || chunk[n..n + 2] != ": " || !HasLabel(chunk[..n]) then Item(None, None, chunk)
    else
      var detail := chunk[n + 2..];
      Item(Some(chunk[..n]), if detail != "" && detail[0] == '/' then Some(detail[..PointerRun(detail)]) else None, detail)
  }

  function ParseAll(chunks: seq<string>): (r: seq<Item>)
    ensures |r| == |chunks| && forall i | 0 <= i < |chunks| :: r[i] == ParseChunk(chunks[i])
  {
    if chunks == [] then [] else [ParseChunk(chunks[0])] + ParseAll(chunks[1..])
  }

  function ParseFailureReason(text: string): seq<Item> {
    if text == "" then [] else ParseAll(Split(text))
  }

  // ---- The parser undoes the printer -----------------------------------------------------

  lemma JoinedStep(first: string, rest: seq<string>)
    requires rest != []
    ensures Joined([first] + rest) == first + " / " + Joined(rest)
  {
    assert ([first] + rest)[1..] == rest;
  }

  lemma AroundCut(text: string, i: nat)
    requires i + 3 <= |text| && text[i..i + 3] == " / "
    ensures text == text[..i] + " / " + text[i + 3..]
  {
    assert text == text[..i] + text[i..i + 3] + text[i + 3..];
  }

  // No character is lost by cutting: joining the chunks restores the text, whatever it is.
  lemma {:induction false} SplitLosesNothing(text: string)
    ensures Joined(Split(text)) == text
    decreases |text|
  {
    var cut := FirstBoundary(text, 0);
    if cut.Some? {
      SplitLosesNothing(text[cut.value + 3..]);
      JoinedStep(text[..cut.value], Split(text[cut.value + 3..]));
      AroundCut(text, cut.value);
    }
  }

  lemma PrintedStartsWithCode(r: Rejection, rest: string)
    ensures StartsWithCode(Printed(r) + rest)
  {
    assert Heads(Printed(r) + rest, r.code);
  }

  lemma {:induction false} RunStopsAfter(name: string, rest: string)
    requires CodeLike(name) && rest != "" && !CodeChar(rest[0])
    ensures Run(name + rest) == |name|
  {
    if name == "" { assert name + rest == rest; } else { assert (name + rest)[1..] == name[1..] + rest; RunStopsAfter(name[1..], rest); }
  }

  lemma LabelledChunk(name: string, detail: string)
    requires name != "" && CodeLike(name) && HasLabel(name)
    ensures ParseChunk(name + ": " + detail).code == Some(name) && ParseChunk(name + ": " + detail).detail == detail
  {
    var s := name + ": " + detail;
    assert s == name + (": " + detail);
    RunStopsAfter(name, ": " + detail);
    assert s[..|name|] == name && s[|name|..|name| + 2] == ": " && s[|name| + 2..] == detail;
  }

  // One printed item reads back as its code and detail.
  lemma ChunkReadsBack(r: Rejection)
    ensures ParseChunk(Printed(r)).code == Some(Name(r.code)) && ParseChunk(Printed(r)).detail == r.detail
  {
    NamesAreCodeLike(r.code);
    LabelledChunk(Name(r.code), r.detail);
  }

  // A chunk that reads back as a code and a detail is exactly their print.
  lemma ReadsBackOnlyIfPrinted(chunk: string, code: string)
    requires ParseChunk(chunk).code == Some(code)
    ensures chunk == code + ": " + ParseChunk(chunk).detail
  {
    var n := Run(chunk);
    assert chunk == chunk[..n] + chunk[n..n + 2] + chunk[n + 2..];
  }

  // The pattern "<code>: " has one space, its last character.
  lemma PatternHasOneSpace(c: Code)
    ensures var p := Name(c) + ": "; |p| > 2 && p[|p| - 1] == ' ' && p[0] != '/'
    ensures var p := Name(c) + ": "; forall j | 0 <= j < |p| - 1 :: p[j] != ' '
  {
    NamesAreCodeLike(c);
    var p := Name(c) + ": ";
    forall j | 0 <= j < |p| - 1 ensures p[j] != ' ' {
      if j < |Name(c)| { assert p[j] == Name(c)[j]; }
    }
    assert p[0] == Name(c)[0];
  }

  // So it cannot straddle the end of an item except by its closing space.
  lemma HeadInItem(tail: string, rest: string, c: Code)
    ensures Heads(tail + " / " + rest, c) <==> Heads(tail + " ", c)
  {
    PatternHasOneSpace(c);
    var p := Name(c) + ": ";
    var long, short := tail + " / " + rest, tail + " ";
    assert long[|tail|] == ' ';
    assert |tail| < |p| - 1 ==> p[|tail|] != long[|tail|];
    assert long[..|short|] == short;
    if p <= long { assert p == long[..|p|] == short[..|p|]; }
    if p <= short { assert p == short[..|p|] == long[..|p|]; }
  }

  // Whether the screen cuts inside an item depends on the item and one space only.
  lemma BoundaryInItem(item: string, rest: string, i: nat)
    requires i < |item|
    ensures Boundary(item + " / " + rest, i) <==> Boundary(item + " ", i)
  {
    if i + 3 > |item| {
      NoCutAcrossSeparator(item, rest, i);
    } else {
      var text, short, tail := item + " / " + rest, item + " ", item[i + 3..];
      assert text[i + 3..] == tail + " / " + rest && short[i + 3..] == tail + " ";
      assert text[i..i + 3] == short[i..i + 3];
      assert StartsWithCode(tail + " / " + rest) <==> StartsWithCode(tail + " ") by {
        if c: Code :| Heads(tail + " / " + rest, c) { HeadInItem(tail, rest, c); }
        if c: Code :| Heads(tail + " ", c) { HeadInItem(tail, rest, c); }
      }
    }
  }

  lemma NoCodeAtSlash(s: string)
    requires s != "" && s[0] == '/'
    ensures !StartsWithCode(s)
  {
    if c: Code :| Heads(s, c) { PatternHasOneSpace(c); }
  }

  // A separator that begins in the last two characters of an item would be followed by a
  // slash or a space, never by a code.
  lemma NoCutAcrossSeparator(item: string, rest: string, i: nat)
    requires i < |item| < i + 3
    ensures !Boundary(item + " / " + rest, i) && !Boundary(item + " ", i)
  {
    var text, short := item + " / " + rest, item + " ";
    assert i + 3 <= |short| ==> short[i + 3..] == "";
    assert forall c: Code :: !Heads("", c);
    if i + 1 == |item| {
      assert text[i + 1] == ' ' && text[i..i + 3][1] == text[i + 1];
    } else {
      assert text[i + 3..][0] == text[i + 3] == '/';
      NoCodeAtSlash(text[i + 3..]);
    }
  }

  // What the joined reason must not contain for the screen to show what was recorded. The
  // extra space stands for the one the separator after an item begins with.
  ghost predicate Readable(rs: seq<Rejection>) {
    forall k | 0 <= k < |rs| :: !HasBoundary(if k < |rs| - 1 then Printed(rs[k]) + " " else Printed(rs[k]))
  }

  ghost predicate Matches(items: seq<Item>, rs: seq<Rejection>) {
    |items| == |rs| && forall k | 0 <= k < |rs| :: items[k].code == Some(Name(rs[k].code)) && items[k].detail == rs[k].detail
  }

  // The screen recovers the recorded list of codes and details exactly when no printed item
  // contains a separator that a known code follows.
  lemma RoundTripIffReadable(rs: seq<Rejection>)
    ensures Matches(ParseFailureReason(Recorded(rs)), rs) <==> Readable(rs)
  {
    if rs != [] {
      RoundTripFrom(rs);
      assert PrintedAll(rs)[0] == Printed(rs[0]) && |Printed(rs[0])| > 0;
    }
  }

  lemma {:induction false} RoundTripFrom(rs: seq<Rejection>)
    requires rs != []
    ensures Recorded(rs) != "" && StartsWithCode(Recorded(rs))
    ensures Matches(ParseAll(Split(Recorded(rs))), rs) <==> Readable(rs)
    decreases |rs|
  {
    if |rs| == 1 {
      LastItem(rs[0]);
      assert rs == [rs[0]];
    } else {
      RoundTripFrom(rs[1..]);
      RecordedSplits(rs);
      PrependItem(rs);
    }
  }

  lemma RecordedSplits(rs: seq<Rejection>)
    requires |rs| > 1
    ensures Recorded(rs) == Printed(rs[0]) + " / " + Recorded(rs[1..])
  {
    assert PrintedAll(rs) == [Printed(rs[0])] + PrintedAll(rs[1..]);
    assert PrintedAll(rs)[1..] == PrintedAll(rs[1..]);
  }

  lemma PrependItem(rs: seq<Rejection>)
    requires |rs| > 1 && StartsWithCode(Recorded(rs[1..]))
    requires Recorded(rs) == Printed(rs[0]) + " / " + Recorded(rs[1..])
    requires Matches(ParseAll(Split(Recorded(rs[1..]))), rs[1..]) <==> Readable(rs[1..])
    ensures Recorded(rs) != "" && StartsWithCode(Recorded(rs))
    ensures Matches(ParseAll(Split(Recorded(rs))), rs) <==> Readable(rs)
  {
    ReadableTail(rs);
    PrependText(rs[0], Recorded(rs[1..]), Recorded(rs));
    FirstCut(Printed(rs[0]), Recorded(rs[1..]));
    PrependChunks(Split(Recorded(rs)), Split(Recorded(rs[1..])), rs);
  }

  lemma PrependText(r: Rejection, rest: string, text: string)
    requires text == Printed(r) + " / " + rest
    ensures text != "" && StartsWithCode(text)
  {
    assert text == Printed(r) + (" / " + rest);
    PrintedStartsWithCode(r, " / " + rest);
  }

  lemma PrependChunks(chunks: seq<string>, tail: seq<string>, rs: seq<Rejection>)
    requires |rs| > 1 && chunks != []
    requires Matches(ParseAll(tail), rs[1..]) <==> Readable(rs[1..])
    requires Readable(rs) <==> !HasBoundary(Printed(rs[0]) + " ") && Readable(rs[1..])
    requires !HasBoundary(Printed(rs[0]) + " ") ==> chunks == [Printed(rs[0])] + tail
    requires HasBoundary(Printed(rs[0]) + " ") ==> exists cut :: 0 <= cut < |Printed(rs[0])| && chunks[0] == Printed(rs[0])[..cut]
    ensures Matches(ParseAll(chunks), rs) <==> Readable(rs)
  {
    if HasBoundary(Printed(rs[0]) + " ") {
      MisreadFirst(chunks, rs);
    } else {
      assert chunks[1..] == tail;
      MatchesTail(ParseAll(tail), ParseAll(chunks), rs);
    }
  }

  lemma LastItem(r: Rejection)
    ensures StartsWithCode(Printed(r)) && Recorded([r]) == Printed(r)
    ensures Matches(ParseAll(Split(Printed(r))), [r]) <==> !HasBoundary(Printed(r))
  {
    var head := Printed(r);
    assert Heads(head, r.code);
    assert PrintedAll([r]) == [head];
    ChunkReadsBack(r);
    var cut := FirstBoundary(head, 0);
    if cut.Some? {
      ShortChunkMisreads(head, cut.value, r);
      assert Split(head)[0] == head[..cut.value];
    } else {
      assert Split(head) == [head];
    }
  }

  lemma SeparatorIsBoundary(head: string, rest: string)
    requires StartsWithCode(rest)
    ensures Boundary(head + " / " + rest, |head|) && (head + " / " + rest)[|head| + 3..] == rest
    ensures (head + " / " + rest)[..|head|] == head
  {
    var text := head + " / " + rest;
    assert text[|head|..|head| + 3] == " / " && text[|head| + 3..] == rest;
  }

  lemma CutAt(text: string, cut: nat)
    requires FirstBoundary(text, 0) == Some(cut)
    ensures cut + 3 <= |text| && Split(text) == [text[..cut]] + Split(text[cut + 3..])
  {
  }

  lemma {:induction false} FirstIs(text: string, from: nat, i: nat)
    requires from <= i < |text| && Boundary(text, i) && forall j | from <= j < i :: !Boundary(text, j)
    ensures FirstBoundary(text, from) == Some(i)
    decreases i - from
  {
    if from < i { FirstIs(text, from + 1, i); }
  }

  lemma CutAtSeparator(head: string, rest: string)
    requires StartsWithCode(rest) && !HasBoundary(head + " ")
    ensures Split(head + " / " + rest) == [head] + Split(rest)
  {
    var text := head + " / " + rest;
    SeparatorIsBoundary(head, rest);
    forall i: nat | i < |head| ensures !Boundary(text, i) { BoundaryInItem(head, rest, i); }
    FirstIs(text, 0, |head|);
    CutAt(text, |head|);
  }

  lemma CutTooEarly(head: string, rest: string)
    requires StartsWithCode(rest) && HasBoundary(head + " ")
    ensures exists cut :: 0 <= cut < |head| && Split(head + " / " + rest)[0] == head[..cut]
  {
    var text := head + " / " + rest;
    var i :| 0 <= i < |head + " "| && Boundary(head + " ", i);
    BoundaryInItem(head, rest, i);
    var cut := FirstBoundary(text, 0).value;
    assert cut <= i < |head|;
    CutAt(text, cut);
    assert text[..cut] == head[..cut];
  }

  // Either the first cut is at the separator after the item, or it comes too early.
  lemma FirstCut(head: string, rest: string)
    requires StartsWithCode(rest)
    ensures !HasBoundary(head + " ") ==> Split(head + " / " + rest) == [head] + Split(rest)
    ensures HasBoundary(head + " ") ==> exists cut :: 0 <= cut < |head| && Split(head + " / " + rest)[0] == head[..cut]
  {
    if HasBoundary(head + " ") { CutTooEarly(head, rest); } else { CutAtSeparator(head, rest); }
  }

  lemma MisreadFirst(chunks: seq<string>, rs: seq<Rejection>)
    requires chunks != [] && rs != []
    requires exists cut :: 0 <= cut < |Printed(rs[0])| && chunks[0] == Printed(rs[0])[..cut]
    ensures !Matches(ParseAll(chunks), rs)
  {
    var cut :| 0 <= cut < |Printed(rs[0])| && chunks[0] == Printed(rs[0])[..cut];
    ShortChunkMisreads(Printed(rs[0]), cut, rs[0]);
  }

  // A chunk cut short cannot read back as the whole item.
  lemma ShortChunkMisreads(printed: string, cut: nat, r: Rejection)
    requires printed == Printed(r) && cut < |printed|
    ensures !(ParseChunk(printed[..cut]).code == Some(Name(r.code)) && ParseChunk(printed[..cut]).detail == r.detail)
  {
    var item := ParseChunk(printed[..cut]);
    if item.code == Some(Name(r.code)) {
      ReadsBackOnlyIfPrinted(printed[..cut], Name(r.code));
    }
  }

  lemma ReadableTail(rs: seq<Rejection>)
    requires |rs| > 1
    ensures Readable(rs) <==> !HasBoundary(Printed(rs[0]) + " ") && Readable(rs[1..])
  {
    var tail := rs[1..];
    if Readable(rs) {
      forall k | 0 <= k < |tail| ensures !HasBoundary(if k < |tail| - 1 then Printed(tail[k]) + " " else Printed(tail[k])) {
        assert tail[k] == rs[k + 1];
      }
    }
    if !HasBoundary(Printed(rs[0]) + " ") && Readable(tail) {
      forall k | 0 <= k < |rs| ensures !HasBoundary(if k < |rs| - 1 then Printed(rs[k]) + " " else Printed(rs[k])) {
        if k > 0 { assert rs[k] == tail[k - 1]; }
      }
    }
  }

  lemma MatchesTail(tail: seq<Item>, all: seq<Item>, rs: seq<Rejection>)
    requires rs != [] && all == [ParseChunk(Printed(rs[0]))] + tail
    ensures Matches(all, rs) <==> Matches(tail, rs[1..])
  {
    ChunkReadsBack(rs[0]);
    var rest := rs[1..];
    assert forall k | 0 <= k < |rest| :: rest[k] == rs[k + 1];
    assert forall k | 0 <= k < |tail| :: tail[k] == all[k + 1];
    if Matches(tail, rest) {
      forall k | 0 <= k < |rs| ensures all[k].code == Some(Name(rs[k].code)) && all[k].detail == rs[k].detail {
        if k > 0 { assert all[k] == tail[k - 1] && rs[k] == rest[k - 1]; }
      }
    }
  }

  // ---- What the screen shows of one chunk --------------------------------------------------------

  // A pointer is shown exactly of a labelled chunk whose detail starts with a slash: all of the
  // detail up to the first white space or colon.
  ghost predicate PointerOf(item: Item) {
    match item.pointer
    case None => item.code.None? || item.detail == "" || item.detail[0] != '/'
    case Some(p) =>
      && item.code.Some? && p != "" && p[0] == '/' && p <= item.detail
      && (forall i | 0 <= i < |p| :: PointerChar(p[i]))
      && (|p| < |item.detail| ==> !PointerChar(item.detail[|p|]))
  }

  ghost predicate Labelled(chunk: string, name: string, detail: string) {
    name != "" && CodeLike(name) && HasLabel(name) && chunk == name + ": " + detail
  }

  lemma {:induction false} PointerRunIs(s: string)
    ensures forall i | 0 <= i < PointerRun(s) :: PointerChar(s[i])
    ensures PointerRun(s) < |s| ==> !PointerChar(s[PointerRun(s)])
  {
    if s != "" && PointerChar(s[0]) {
      PointerRunIs(s[1..]);
      forall i | 0 <= i < PointerRun(s) ensures PointerChar(s[i]) { assert i > 0 ==> s[i] == s[1..][i - 1]; }
    }
  }

  // A chunk is shown with a label exactly when it is one, ": " and a detail; otherwise it is shown
  // whole, as a detail without label or pointer.
  lemma ChunkIs(chunk: string)
    ensures var item := ParseChunk(chunk);
      && PointerOf(item)
      && (item.code.Some? ==> Labelled(chunk, item.code.value, item.detail))
      && (item.code.None? ==> item.detail == chunk && !(exists name, detail :: Labelled(chunk, name, detail)))
  {
    var item := ParseChunk(chunk);
    PointerRunIs(item.detail);
    if item.code.Some? {
      ReadsBackOnlyIfPrinted(chunk, item.code.value);
    } else {
      forall name, detail ensures !Labelled(chunk, name, detail) {
        if Labelled(chunk, name, detail) { LabelledChunk(name, detail); }
      }
    }
  }
}
