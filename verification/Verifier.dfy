// The mechanical verification of an extraction: which envelopes pass, and what comes out of
// the ones that do (extraction_verify.py, verify and its helpers).
module Verifier {
  import opened Basics
  import opened JsonValues
  import opened Digits
  import opened Pointers
  import opened Quotes
  import opened Rejections

  // Fields that need evidence unless they were reported as not found.
  const EVIDENCE: seq<string> := [
    "/criteria/ageMin", "/criteria/ageMax", "/criteria/annualIncomeMaxKRW", "/criteria/assetMaxKRW",
    "/criteria/requireHomeless", "/criteria/requireNewlywed", "/criteria/requireSME", "/criteria/regionPrefixes",
    "/maxAmountKRW", "/rateRangePct"]

  function CheckPath(i: nat): string { "/conditionalChecks/" + Print(i) }

  datatype VerifiedSpan = VerifiedSpan(fieldPath: string, start: int, end: int, quote: string, occurrences: nat)

  datatype VerifiedExtraction = VerifiedExtraction(draft: Json, spans: seq<VerifiedSpan>)

  // Stands where a reason is already on record.
  const PLACEHOLDER: VerifiedSpan := VerifiedSpan("", 0, 0, "", 1)

  // ---- The envelope ------------------------------------------------------------------------

  predicate EntryShape(entry: Json) {
    && entry.Obj?
    && {"field_path", "quote"} <= entry.fields.Keys <= {"field_path", "quote", "start", "end"}
    && entry.fields["field_path"].Str? && entry.fields["quote"].Str?
    && ("start" in entry.fields ==> entry.fields["start"].Int?)
    && ("end" in entry.fields ==> entry.fields["end"].Int?)
  }

  predicate OuterShape(envelope: Json) {
    envelope.Obj? && envelope.fields.Keys == {"draft", "spans"} && envelope.fields["draft"].Obj? && envelope.fields["spans"].Arr?
  }

  predicate EnvelopeShape(envelope: Json) {
    OuterShape(envelope) && forall i | 0 <= i < |envelope.fields["spans"].items| :: EntryShape(envelope.fields["spans"].items[i])
  }

  predicate AllOf(rs: seq<Rejection>, code: Code) { forall i | 0 <= i < |rs| :: rs[i].code == code }

  // Both offsets are there and neither is an integer: each is complained about.
  predicate BothOffsetsBad(entry: Json) {
    && entry.Obj? && entry.fields.Keys == {"field_path", "quote", "start", "end"}
    && entry.fields["field_path"].Str? && entry.fields["quote"].Str? && !entry.fields["start"].Int? && !entry.fields["end"].Int?
  }

  // The complaint names the entry it is about.
  predicate ShapeComplaint(envelope: Json, r: Rejection) {
    && r.code == EnvelopeInvalid
    && if !OuterShape(envelope) then r.detail == "" else BadEntry(envelope.fields["spans"].items, r.detail)
  }

  predicate BadEntry(entries: seq<Json>, detail: string) {
    exists i :: 0 <= i < |entries| && !EntryShape(entries[i]) && detail == "spans[" + Print(i) + "]"
  }

  lemma BadEntryStep(entries: seq<Json>, i: nat, detail: string)
    requires i < |entries|
    ensures BadEntry(entries[..i + 1], detail) <==> BadEntry(entries[..i], detail) || (!EntryShape(entries[i]) && detail == "spans[" + Print(i) + "]")
  {
    var all := entries[..i + 1];
    assert all == entries[..i] + [entries[i]];
    if j :| 0 <= j < i && !EntryShape(entries[..i][j]) && detail == "spans[" + Print(j) + "]" { assert all[j] == entries[..i][j]; }
    if !EntryShape(entries[i]) && detail == "spans[" + Print(i) + "]" { assert all[i] == entries[i]; }
    if j :| 0 <= j < i + 1 && !EntryShape(all[j]) && detail == "spans[" + Print(j) + "]" { assert j < i ==> entries[..i][j] == all[j]; }
  }

  method EnvelopeRejections(envelope: Json) returns (rs: seq<Rejection>)
    ensures rs == [] <==> EnvelopeShape(envelope)
    ensures AllOf(rs, EnvelopeInvalid)
    ensures forall r :: r in rs <==> ShapeComplaint(envelope, r)
  {
    if !OuterShape(envelope) {
      return [Rejection(EnvelopeInvalid, "")];
    }
    rs := [];
    var entries := envelope.fields["spans"].items;
    for i := 0 to |entries|
      invariant rs == [] <==> forall j | 0 <= j < i :: EntryShape(entries[j])
      invariant AllOf(rs, EnvelopeInvalid)
      invariant forall r :: r in rs <==> r.code == EnvelopeInvalid && BadEntry(entries[..i], r.detail)
    {
      forall detail ensures BadEntry(entries[..i + 1], detail)
        <==> BadEntry(entries[..i], detail) || (!EntryShape(entries[i]) && detail == "spans[" + Print(i) + "]") { BadEntryStep(entries, i, detail); }
      if !EntryShape(entries[i]) {
        var complaint := Rejection(EnvelopeInvalid, "spans[" + Print(i) + "]");
        rs := rs + if BothOffsetsBad(entries[i]) then [complaint, complaint] else [complaint];
      }
    }
    assert entries[..|entries|] == entries;
  }

  // What the draft schema guarantees and the checks below rely on.
  predicate DraftShape(draft: Json) {
    && draft.Obj? && {"policy_id", "not_found", "conditionalChecks"} <= draft.fields.Keys
    && draft.fields["policy_id"].Str? && draft.fields["conditionalChecks"].Arr?
    && draft.fields["not_found"].Arr? && forall i | 0 <= i < |draft.fields["not_found"].items| :: draft.fields["not_found"].items[i].Str?
  }

  // The JSON Schema validator: the list of its complaints about a draft.
  type Schema = Json -> seq<string>

  ghost predicate SchemaContract(schema: Schema) { forall d: Json :: schema(d) == [] ==> DraftShape(d) }

  // ---- What acceptance means -----------------------------------------------------------------

  // Absent values: null, and the empty list for a field that cannot be null.
  predicate IsEmpty(v: Json) { v == Null || v == Arr([]) }

  function NotFoundList(draft: Json): (r: seq<string>)
    requires DraftShape(draft)
    ensures |r| == |draft.fields["not_found"].items|
  {
    seq(|draft.fields["not_found"].items|, i requires 0 <= i < |draft.fields["not_found"].items| => draft.fields["not_found"].items[i].s)
  }

  predicate HonestlyMissing(draft: Json, pointer: string) {
    Resolve(draft, pointer).Some? && IsEmpty(Resolve(draft, pointer).value)
  }

  predicate Covered(path: string, pointers: seq<string>) {
    exists i :: 0 <= i < |pointers| && (path == pointers[i] || pointers[i] + "/" <= path)
  }

  predicate Required(notFound: seq<string>, checks: nat, path: string) {
    (path in EVIDENCE && path !in notFound) || exists i :: 0 <= i < checks && path == CheckPath(i)
  }

  function PathOf(entry: Json): string
    requires EntryShape(entry)
  {
    entry.fields["field_path"].s
  }

  // Given offsets are checked against the text; without offsets the quotation must occur.
  predicate QuoteHolds(entry: Json, text: string)
    requires EntryShape(entry)
  {
    var f, quote := entry.fields, entry.fields["quote"].s;
    && quote != ""
    && if "start" in f || "end" in f
       then "start" in f && "end" in f && 0 <= f["start"].i < f["end"].i <= |text| && text[f["start"].i..f["end"].i] == quote
       else exists i :: 0 <= i <= |text| && OccursAt(text, quote, i)
  }

  predicate EntryHolds(entry: Json, notFound: seq<string>, checks: nat, text: string)
    requires EntryShape(entry)
  {
    !Covered(PathOf(entry), notFound) && Required(notFound, checks, PathOf(entry)) && QuoteHolds(entry, text)
  }

  ghost predicate AllShaped(entries: seq<Json>) { forall i | 0 <= i < |entries| :: EntryShape(entries[i]) }

  ghost predicate EvidenceHolds(entries: seq<Json>, notFound: seq<string>, checks: nat, text: string)
    requires AllShaped(entries)
  {
    && (forall i | 0 <= i < |entries| :: EntryHolds(entries[i], notFound, checks, text))
    && (forall i, j | 0 <= i < j < |entries| :: PathOf(entries[i]) != PathOf(entries[j]))
  }

  ghost predicate EvidenceComplete(entries: seq<Json>, notFound: seq<string>, checks: nat)
    requires AllShaped(entries)
  {
    forall path | Required(notFound, checks, path) :: exists i :: 0 <= i < |entries| && PathOf(entries[i]) == path
  }

  // What the checks after the schema ask for.
  ghost predicate ContentHolds(draft: Json, entries: seq<Json>, policyId: string, text: string)
    requires DraftShape(draft) && AllShaped(entries)
  {
    && draft.fields["policy_id"].s == policyId
    && var notFound, checks := NotFoundList(draft), |draft.fields["conditionalChecks"].items|;
       && (forall i | 0 <= i < |notFound| :: HonestlyMissing(draft, notFound[i]))
       && EvidenceHolds(entries, notFound, checks, text)
       && EvidenceComplete(entries, notFound, checks)
  }

  ghost predicate Acceptable(schema: Schema, envelope: Json, policyId: string, text: string) {
    && EnvelopeShape(envelope)
    && schema(envelope.fields["draft"]) == [] && DraftShape(envelope.fields["draft"])
    && ContentHolds(envelope.fields["draft"], envelope.fields["spans"].items, policyId, text)
  }

  // ---- Canonical order -------------------------------------------------------------------------

  function KeptEvidence(candidates: seq<string>, notFound: seq<string>): (r: seq<string>)
    ensures forall p :: p in r <==> p in candidates && p !in notFound
    ensures Distinct(candidates) ==> Distinct(r)
  {
    if candidates == [] then [] else
      var rest := KeptEvidence(candidates[1..], notFound);
      assert candidates == [candidates[0]] + candidates[1..];
      assert Distinct(candidates) ==> Distinct(candidates[1..]) && candidates[0] !in candidates[1..];
      if candidates[0] in notFound then rest else [candidates[0]] + rest
  }

  ghost predicate Distinct(s: seq<string>) { forall i, j | 0 <= i < j < |s| :: s[i] != s[j] }

  function CheckPaths(checks: nat): (r: seq<string>)
    ensures |r| == checks && forall i | 0 <= i < checks :: r[i] == CheckPath(i)
  {
    seq(checks, i requires 0 <= i < checks => CheckPath(i))
  }

  function CanonicalOrder(notFound: seq<string>, checks: nat): seq<string> {
    KeptEvidence(EVIDENCE, notFound) + CheckPaths(checks)
  }

  lemma CanonicalIsRequired(notFound: seq<string>, checks: nat, path: string)
    ensures path in CanonicalOrder(notFound, checks) <==> Required(notFound, checks, path)
  {
    if i :| 0 <= i < checks && path == CheckPath(i) {
      assert CheckPaths(checks)[i] == path;
    }
  }

  lemma CheckPathInjective(i: nat, j: nat)
    requires CheckPath(i) == CheckPath(j)
    ensures i == j
  {
    assert CheckPath(i)[|"/conditionalChecks/"|..] == Print(i);
    assert CheckPath(j)[|"/conditionalChecks/"|..] == Print(j);
    PrintInjective(i, j);
  }

  lemma EvidenceIsDistinct()
    ensures Distinct(EVIDENCE)
    ensures forall i, n: nat | 0 <= i < |EVIDENCE| :: EVIDENCE[i] != CheckPath(n)
  {
    assert EVIDENCE[0][14] == 'i' && EVIDENCE[1][14] == 'a';
    assert |EVIDENCE[0]| == 16 && |EVIDENCE[1]| == 16 && |EVIDENCE[2]| == 28 && |EVIDENCE[3]| == 21 && |EVIDENCE[4]| == 25
        && |EVIDENCE[5]| == 25 && |EVIDENCE[6]| == 20 && |EVIDENCE[7]| == 24 && |EVIDENCE[8]| == 13 && |EVIDENCE[9]| == 13;
    assert EVIDENCE[4][17] == 'H' && EVIDENCE[5][17] == 'N';
    assert EVIDENCE[8][1] == 'm' && EVIDENCE[9][1] == 'r';
    forall i, n: nat | 0 <= i < |EVIDENCE| ensures EVIDENCE[i] != CheckPath(n) {
      assert CheckPath(n)[1] == 'c' && CheckPath(n)[2] == 'o';
      assert i < 8 ==> EVIDENCE[i][2] == 'r';
      assert i >= 8 ==> EVIDENCE[i][1] != 'c';
    }
  }

  lemma CanonicalIsDistinct(notFound: seq<string>, checks: nat)
    ensures Distinct(CanonicalOrder(notFound, checks))
  {
    EvidenceIsDistinct();
    var kept, paths := KeptEvidence(EVIDENCE, notFound), CheckPaths(checks);
    forall i, j | 0 <= i < j < |kept + paths| ensures (kept + paths)[i] != (kept + paths)[j] {
      if |kept| <= i {
        if CheckPath(i - |kept|) == CheckPath(j - |kept|) { CheckPathInjective(i - |kept|, j - |kept|); }
      } else if |kept| <= j {
        assert kept[i] in EVIDENCE;
        assert paths[j - |kept|] == CheckPath(j - |kept|);
      }
    }
  }

  lemma {:induction false} KeptInOrder(candidates: seq<string>, notFound: seq<string>, a: nat, b: nat) returns (i: nat, j: nat)
    requires a < b < |KeptEvidence(candidates, notFound)|
    ensures i < j < |candidates| && KeptEvidence(candidates, notFound)[a] == candidates[i] && KeptEvidence(candidates, notFound)[b] == candidates[j]
  {
    var kept, rest := KeptEvidence(candidates, notFound), KeptEvidence(candidates[1..], notFound);
    if candidates[0] in notFound {
      i, j := KeptInOrder(candidates[1..], notFound, a, b);
      i, j := i + 1, j + 1;
    } else if a > 0 {
      i, j := KeptInOrder(candidates[1..], notFound, a - 1, b - 1);
      i, j := i + 1, j + 1;
    } else {
      assert kept[b] == rest[b - 1] && rest[b - 1] in candidates[1..];
      var k :| 0 <= k < |candidates| - 1 && candidates[1..][k] == rest[b - 1];
      i, j := 0, k + 1;
    }
  }

  // The order is that of the evidence list, with the checks behind it in their own order.
  lemma CanonicalIsOrdered(notFound: seq<string>, checks: nat, a: nat, b: nat)
    requires a < b < |CanonicalOrder(notFound, checks)|
    ensures var ordered, kept := CanonicalOrder(notFound, checks), |CanonicalOrder(notFound, checks)| - checks;
      && (b < kept ==> exists i, j :: 0 <= i < j < |EVIDENCE| && ordered[a] == EVIDENCE[i] && ordered[b] == EVIDENCE[j])
      && (b >= kept ==> ordered[b] == CheckPath(b - kept))
      && (a >= kept ==> ordered[a] == CheckPath(a - kept))
  {
    var kept := KeptEvidence(EVIDENCE, notFound);
    assert |CanonicalOrder(notFound, checks)| - checks == |kept|;
    if b < |kept| { var i, j := KeptInOrder(EVIDENCE, notFound, a, b); }
  }

  // ---- One quotation ---------------------------------------------------------------------------

  // The span an accepted entry becomes: its own offsets, or the first place it stands.
  ghost predicate SpanFor(span: VerifiedSpan, entry: Json, text: string)
    requires EntryShape(entry)
  {
    var f, quote := entry.fields, entry.fields["quote"].s;
    && span.fieldPath == PathOf(entry) && span.quote == quote && quote != ""
    && 0 <= span.start < span.end <= |text| && text[span.start..span.end] == quote
    && span.occurrences == CountOccurrences(text, quote)
    && if "start" in f && "end" in f
       then span.start == f["start"].i && span.end == f["end"].i
       else forall i | 0 <= i < span.start :: !OccursAt(text, quote, i)
  }

  // Why a quotation fails: empty, not what the offsets point at, or nowhere in the text.
  predicate QuoteFault(entry: Json, text: string, code: Code)
    requires EntryShape(entry)
  {
    var offsets := "start" in entry.fields || "end" in entry.fields;
    match code
    case SpanEmptyQuote => entry.fields["quote"].s == ""
    case SpanOffsetMismatch => entry.fields["quote"].s != "" && offsets && !QuoteHolds(entry, text)
    case SpanNotInText => entry.fields["quote"].s != "" && !offsets && !QuoteHolds(entry, text)
    case _ => false
  }

  method VerifyQuote(entry: Json, text: string) returns (span: VerifiedSpan, reasons: seq<Rejection>)
    requires EntryShape(entry)
    ensures reasons == [] <==> QuoteHolds(entry, text)
    ensures reasons == [] ==> SpanFor(span, entry, text)
    ensures reasons != [] ==> |reasons| == 1 && reasons[0].detail == PathOf(entry) && QuoteFault(entry, text, reasons[0].code)
  {
    var f, path, quote := entry.fields, PathOf(entry), entry.fields["quote"].s;
    span, reasons := PLACEHOLDER, [];
    if quote == "" {
      reasons := [Rejection(SpanEmptyQuote, path)];
    } else if "start" in f || "end" in f {
      if "start" !in f || "end" !in f {
        reasons := [Rejection(SpanOffsetMismatch, path)];
        return;
      }
      var start, end := f["start"].i, f["end"].i;
      if start < 0 || end <= start || end > |text| {
        reasons := [Rejection(SpanOffsetMismatch, path)];
      } else if text[start..end] != quote {
        reasons := [Rejection(SpanOffsetMismatch, path)];
      } else {
        span := VerifiedSpan(path, start, end, quote, CountOccurrences(text, quote));
      }
    } else {
      var located := LocateQuote(text, quote);
      if located.None? {
        reasons := [Rejection(SpanNotInText, path)];
      } else {
        assert OccursAt(text, quote, located.value.0);
        span := VerifiedSpan(path, located.value.0, located.value.1, quote, CountOccurrences(text, quote));
      }
    }
  }

  // ---- The whole verification ------------------------------------------------------------------

  predicate ContentCodes(rs: seq<Rejection>) {
    forall i | 0 <= i < |rs| :: rs[i].code != EnvelopeInvalid && rs[i].code != SchemaViolation
  }

  // A reason names the pointer and what is wrong with it.
  predicate MissingFault(draft: Json, r: Rejection) {
    match r.code
    case NotFoundUnknownPointer => Resolve(draft, r.detail).None?
    case NotFoundValuePresent => Resolve(draft, r.detail).Some? && !IsEmpty(Resolve(draft, r.detail).value)
    case _ => false
  }

  predicate MissingComplaint(draft: Json, notFound: seq<string>, r: Rejection) { r.detail in notFound && MissingFault(draft, r) }

  // The complaints about these pointers, and no other.
  ghost predicate MissingReasons(rs: seq<Rejection>, draft: Json, notFound: seq<string>) {
    (rs == [] <==> AllHonest(draft, notFound)) && (forall r :: r in rs <==> MissingComplaint(draft, notFound, r)) && ContentCodes(rs)
  }

  ghost predicate AllHonest(draft: Json, notFound: seq<string>) { forall i | 0 <= i < |notFound| :: HonestlyMissing(draft, notFound[i]) }

  lemma HonestNext(draft: Json, before: seq<string>, pointer: string)
    ensures AllHonest(draft, before + [pointer]) <==> AllHonest(draft, before) && HonestlyMissing(draft, pointer)
  {
    var after := before + [pointer];
    assert after[|before|] == pointer;
    assert forall i | 0 <= i < |before| :: after[i] == before[i];
  }

  // One pointer is complained about by what is wrong with it, or not at all.
  ghost predicate About(added: seq<Rejection>, draft: Json, pointer: string) {
    && (added == [] <==> HonestlyMissing(draft, pointer))
    && (forall r :: r in added <==> r.detail == pointer && MissingFault(draft, r)) && ContentCodes(added)
  }

  lemma AboutOne(added: seq<Rejection>, draft: Json, pointer: string)
    requires added == if Resolve(draft, pointer).None? then [Rejection(NotFoundUnknownPointer, pointer)]
                      else if !IsEmpty(Resolve(draft, pointer).value) then [Rejection(NotFoundValuePresent, pointer)] else []
    ensures About(added, draft, pointer)
  {
    forall r ensures r in added <==> r.detail == pointer && MissingFault(draft, r) {
      assert added != [] ==> (r in added <==> r == added[0]);
    }
  }

  lemma MissingNext(rs: seq<Rejection>, added: seq<Rejection>, draft: Json, before: seq<string>, pointer: string)
    requires MissingReasons(rs, draft, before) && About(added, draft, pointer)
    ensures MissingReasons(rs + added, draft, before + [pointer])
  {
    HonestNext(draft, before, pointer);
    forall r ensures r in rs + added <==> MissingComplaint(draft, before + [pointer], r) {
      assert r.detail in before + [pointer] <==> r.detail in before || r.detail == pointer;
    }
  }

  // `not_found` may only name places that are there and empty.
  method CheckNotFound(draft: Json, notFound: seq<string>) returns (rs: seq<Rejection>)
    ensures rs == [] <==> forall i | 0 <= i < |notFound| :: HonestlyMissing(draft, notFound[i])
    ensures forall r :: r in rs <==> MissingComplaint(draft, notFound, r)
    ensures ContentCodes(rs)
  {
    rs := [];
    for i := 0 to |notFound|
      invariant MissingReasons(rs, draft, notFound[..i])
    {
      var value := ResolvePointer(draft, notFound[i]);
      var added := [];
      if value.None? {
        added := [Rejection(NotFoundUnknownPointer, notFound[i])];
      } else if !IsEmpty(value.value) {
        added := [Rejection(NotFoundValuePresent, notFound[i])];
      }
      AboutOne(added, draft, notFound[i]);
      MissingNext(rs, added, draft, notFound[..i], notFound[i]);
      OneLonger(notFound, i);
      rs := rs + added;
    }
    Whole(notFound);
  }

  // The verdict on one entry, before its quotation is looked at.
  function PathVerdict(path: string, notFound: seq<string>, checks: nat): Option<Code> {
    if Covered(path, notFound) then Some(SpanForNotFoundField)
    else if !Required(notFound, checks, path) then Some(SpanUnexpectedField)
    else None
  }

  // While nothing is wrong, every entry seen so far has its span on file under its path.
  ghost predicate OnFile(verified: map<string, VerifiedSpan>, entries: seq<Json>, text: string)
    requires AllShaped(entries)
  {
    forall i | 0 <= i < |entries| :: PathOf(entries[i]) in verified && SpanFor(verified[PathOf(entries[i])], entries[i], text)
  }

  ghost predicate KeysArePaths(verified: map<string, VerifiedSpan>, entries: seq<Json>)
    requires AllShaped(entries)
  {
    forall path :: path in verified <==> exists i :: 0 <= i < |entries| && PathOf(entries[i]) == path
  }

  // Why an entry fails: the first of the checks, in order, that it does not pass.
  predicate EntryFault(entry: Json, seen: bool, notFound: seq<string>, checks: nat, text: string, code: Code)
    requires EntryShape(entry)
  {
    var path := PathOf(entry);
    match code
    case SpanDuplicate => seen
    case SpanForNotFoundField => !seen && Covered(path, notFound)
    case SpanUnexpectedField => !seen && !Covered(path, notFound) && !Required(notFound, checks, path)
    case _ => !seen && !Covered(path, notFound) && Required(notFound, checks, path) && QuoteFault(entry, text, code)
  }

  method CheckEntry(entry: Json, verified: map<string, VerifiedSpan>, notFound: seq<string>, checks: nat, text: string)
    returns (next: map<string, VerifiedSpan>, reasons: seq<Rejection>)
    requires EntryShape(entry)
    ensures reasons == [] <==> PathOf(entry) !in verified && EntryHolds(entry, notFound, checks, text)
    ensures next.Keys == verified.Keys + {PathOf(entry)}
    ensures forall path | path in verified :: next[path] == verified[path]
    ensures reasons == [] ==> SpanFor(next[PathOf(entry)], entry, text)
    ensures reasons != [] ==>
      |reasons| == 1 && reasons[0].detail == PathOf(entry) && EntryFault(entry, PathOf(entry) in verified, notFound, checks, text, reasons[0].code)
    ensures ContentCodes(reasons)
  {
    var path := PathOf(entry);
    if path in verified {
      return verified, [Rejection(SpanDuplicate, path)];
    }
    var verdict := PathVerdict(path, notFound, checks);
    if verdict.Some? {
      return verified[path := PLACEHOLDER], [Rejection(verdict.value, path)];
    }
    var span;
    span, reasons := VerifyQuote(entry, text);
    next := verified[path := span];
  }

  // An entry has at most one fault, and none exactly when it is new and holds.
  lemma OneFault(entry: Json, seen: bool, notFound: seq<string>, checks: nat, text: string, code: Code, other: Code)
    requires EntryShape(entry)
    ensures EntryFault(entry, seen, notFound, checks, text, code) && EntryFault(entry, seen, notFound, checks, text, other) ==> code == other
    ensures !seen && EntryHolds(entry, notFound, checks, text) ==> !EntryFault(entry, seen, notFound, checks, text, code)
  {
  }

  predicate Repeats(entries: seq<Json>, i: int)
    requires AllShaped(entries) && 0 <= i < |entries|
  {
    exists j :: 0 <= j < i && PathOf(entries[j]) == PathOf(entries[i])
  }

  // A complaint names the path of an entry and the first check this entry fails.
  ghost predicate EntryComplaint(entries: seq<Json>, notFound: seq<string>, checks: nat, text: string, r: Rejection)
    requires AllShaped(entries)
  {
    exists i :: ComplaintAt(entries, notFound, checks, text, r, i)
  }

  ghost predicate ComplaintAt(entries: seq<Json>, notFound: seq<string>, checks: nat, text: string, r: Rejection, i: int)
    requires AllShaped(entries)
  {
    0 <= i < |entries| && r.detail == PathOf(entries[i]) && EntryFault(entries[i], Repeats(entries, i), notFound, checks, text, r.code)
  }

  lemma ComplaintStep(entries: seq<Json>, entry: Json, more: seq<Json>, seen: bool, notFound: seq<string>, checks: nat, text: string, r: Rejection)
    requires AllShaped(entries) && EntryShape(entry) && more == entries + [entry]
    requires seen <==> exists j :: 0 <= j < |entries| && PathOf(entries[j]) == PathOf(entry)
    ensures EntryComplaint(more, notFound, checks, text, r)
      <==> EntryComplaint(entries, notFound, checks, text, r) || (r.detail == PathOf(entry) && EntryFault(entry, seen, notFound, checks, text, r.code))
  {
    forall i | 0 <= i <= |entries| ensures more[i] == if i < |entries| then entries[i] else entry {}
    RepeatsStep(entries, entry, more, seen);
    if i :| ComplaintAt(entries, notFound, checks, text, r, i) { assert ComplaintAt(more, notFound, checks, text, r, i); }
    if i :| ComplaintAt(more, notFound, checks, text, r, i) { assert i < |entries| ==> ComplaintAt(entries, notFound, checks, text, r, i); }
    if r.detail == PathOf(entry) && EntryFault(entry, seen, notFound, checks, text, r.code) {
      assert ComplaintAt(more, notFound, checks, text, r, |entries|);
    }
  }

  lemma RepeatsStep(entries: seq<Json>, entry: Json, more: seq<Json>, seen: bool)
    requires AllShaped(entries) && EntryShape(entry) && more == entries + [entry]
    requires seen <==> exists j :: 0 <= j < |entries| && PathOf(entries[j]) == PathOf(entry)
    ensures AllShaped(more) && Repeats(more, |entries|) == seen
    ensures forall i | 0 <= i < |entries| :: Repeats(more, i) == Repeats(entries, i)
  {
    assert forall i | 0 <= i < |entries| :: more[i] == entries[i];
    if j :| 0 <= j < |entries| && PathOf(entries[j]) == PathOf(entry) { assert PathOf(more[j]) == PathOf(more[|entries|]); }
  }

  // What the loop has complained about so far.
  ghost predicate Complained(rs: seq<Rejection>, entries: seq<Json>, notFound: seq<string>, checks: nat, text: string)
    requires AllShaped(entries)
  {
    forall r :: r in rs <==> EntryComplaint(entries, notFound, checks, text, r)
  }

  // What one entry may be answered with: nothing when it is new and holds, else its one fault.
  ghost predicate Answers(reasons: seq<Rejection>, entry: Json, seen: bool, notFound: seq<string>, checks: nat, text: string)
    requires EntryShape(entry)
  {
    && (reasons == [] <==> !seen && EntryHolds(entry, notFound, checks, text))
    && (reasons != [] ==>
      |reasons| == 1 && reasons[0].detail == PathOf(entry) && EntryFault(entry, seen, notFound, checks, text, reasons[0].code))
  }

  lemma InAnswer(reasons: seq<Rejection>, entry: Json, seen: bool, notFound: seq<string>, checks: nat, text: string, r: Rejection)
    requires EntryShape(entry) && Answers(reasons, entry, seen, notFound, checks, text)
    ensures r in reasons <==> r.detail == PathOf(entry) && EntryFault(entry, seen, notFound, checks, text, r.code)
  {
    OneFault(entry, seen, notFound, checks, text, r.code, if reasons == [] then r.code else reasons[0].code);
  }

  lemma ComplainedStep(rs: seq<Rejection>, reasons: seq<Rejection>, entries: seq<Json>, entry: Json, more: seq<Json>, seen: bool,
                       notFound: seq<string>, checks: nat, text: string)
    requires AllShaped(entries) && EntryShape(entry) && more == entries + [entry] && Complained(rs, entries, notFound, checks, text)
    requires seen <==> exists j :: 0 <= j < |entries| && PathOf(entries[j]) == PathOf(entry)
    requires Answers(reasons, entry, seen, notFound, checks, text)
    ensures Complained(rs + reasons, more, notFound, checks, text)
  {
    forall r ensures r in rs + reasons <==> EntryComplaint(more, notFound, checks, text, r) {
      ComplaintStep(entries, entry, more, seen, notFound, checks, text, r);
      InAnswer(reasons, entry, seen, notFound, checks, text, r);
    }
  }

  ghost predicate Checked(clean: bool, verified: map<string, VerifiedSpan>, seen: seq<Json>, notFound: seq<string>, checks: nat, text: string)
    requires AllShaped(seen)
  {
    && (clean <==> EvidenceHolds(seen, notFound, checks, text))
    && (clean ==> OnFile(verified, seen, text))
    && KeysArePaths(verified, seen)
  }

  // The loop as it stands after these entries.
  ghost predicate Progress(rs: seq<Rejection>, verified: map<string, VerifiedSpan>, seen: seq<Json>, notFound: seq<string>, checks: nat, text: string)
    requires AllShaped(seen)
  {
    Checked(rs == [], verified, seen, notFound, checks, text) && Complained(rs, seen, notFound, checks, text)
  }

  lemma ProgressStep(rs: seq<Rejection>, before: map<string, VerifiedSpan>, reasons: seq<Rejection>, after: map<string, VerifiedSpan>,
                     seen: seq<Json>, entry: Json, more: seq<Json>, notFound: seq<string>, checks: nat, text: string)
    requires AllShaped(seen) && EntryShape(entry) && more == seen + [entry] && Progress(rs, before, seen, notFound, checks, text)
    requires after.Keys == before.Keys + {PathOf(entry)} && forall path | path in before :: after[path] == before[path]
    requires reasons == [] ==> SpanFor(after[PathOf(entry)], entry, text)
    requires Answers(reasons, entry, PathOf(entry) in before, notFound, checks, text)
    ensures AllShaped(more) && Progress(rs + reasons, after, more, notFound, checks, text)
  {
    EvidenceStep(rs == [], before, after, seen, entry, more, notFound, checks, text);
    KeyIsEarlierPath(before, seen, PathOf(entry));
    ComplainedStep(rs, reasons, seen, entry, more, PathOf(entry) in before, notFound, checks, text);
  }

  method CheckEvidence(entries: seq<Json>, notFound: seq<string>, checks: nat, text: string)
    returns (verified: map<string, VerifiedSpan>, rs: seq<Rejection>)
    requires AllShaped(entries)
    ensures Checked(rs == [], verified, entries, notFound, checks, text)
    ensures Complained(rs, entries, notFound, checks, text) && ContentCodes(rs)
  {
    verified, rs := map[], [];
    ghost var seen: seq<Json> := [];
    for i := 0 to |entries|
      invariant seen == entries[..i] && AllShaped(seen) && Progress(rs, verified, seen, notFound, checks, text)
      invariant ContentCodes(rs)
    {
      ghost var before := verified;
      var reasons;
      verified, reasons := CheckEntry(entries[i], verified, notFound, checks, text);
      ProgressStep(rs, before, reasons, verified, seen, entries[i], seen + [entries[i]], notFound, checks, text);
      OneLonger(entries, i);
      seen := seen + [entries[i]];
      rs := rs + reasons;
    }
    Whole(entries);
  }

  lemma Whole<T>(s: seq<T>)
    ensures s[..|s|] == s
  {
  }

  lemma OneLonger<T>(s: seq<T>, i: nat)
    requires i < |s|
    ensures s[..i + 1] == s[..i] + [s[i]]
  {
  }

  // One entry more: the evidence still holds exactly when this entry does and its path is new.
  lemma EvidenceStep(clean: bool, before: map<string, VerifiedSpan>, after: map<string, VerifiedSpan>, seen: seq<Json>, entry: Json, more: seq<Json>,
                     notFound: seq<string>, checks: nat, text: string)
    requires AllShaped(seen) && EntryShape(entry) && more == seen + [entry] && Checked(clean, before, seen, notFound, checks, text)
    requires after.Keys == before.Keys + {PathOf(entry)} && forall path | path in before :: after[path] == before[path]
    requires PathOf(entry) !in before && EntryHolds(entry, notFound, checks, text) ==> SpanFor(after[PathOf(entry)], entry, text)
    ensures Checked(clean && PathOf(entry) !in before && EntryHolds(entry, notFound, checks, text), after, more, notFound, checks, text)
  {
    KeysGrow(before, after, seen, entry);
    EvidenceGrows(seen, entry, notFound, checks, text);
    KeyIsEarlierPath(before, seen, PathOf(entry));
    if clean && PathOf(entry) !in before && EntryHolds(entry, notFound, checks, text) {
      OnFileGrows(before, after, seen, entry, text);
    }
  }

  lemma KeyIsEarlierPath(verified: map<string, VerifiedSpan>, entries: seq<Json>, path: string)
    requires AllShaped(entries) && KeysArePaths(verified, entries)
    ensures path !in verified <==> forall i | 0 <= i < |entries| :: PathOf(entries[i]) != path
  {
  }

  lemma OnFileGrows(before: map<string, VerifiedSpan>, after: map<string, VerifiedSpan>, entries: seq<Json>, entry: Json, text: string)
    requires AllShaped(entries) && EntryShape(entry) && OnFile(before, entries, text)
    requires PathOf(entry) in after && SpanFor(after[PathOf(entry)], entry, text)
    requires forall path | path in before :: path in after && after[path] == before[path]
    ensures OnFile(after, entries + [entry], text)
  {
    var all := entries + [entry];
    forall i | 0 <= i < |all| ensures PathOf(all[i]) in after && SpanFor(after[PathOf(all[i])], all[i], text) {
      assert i < |entries| ==> all[i] == entries[i];
    }
  }

  lemma KeysGrow(before: map<string, VerifiedSpan>, after: map<string, VerifiedSpan>, entries: seq<Json>, entry: Json)
    requires AllShaped(entries) && EntryShape(entry) && KeysArePaths(before, entries)
    requires after.Keys == before.Keys + {PathOf(entry)}
    ensures KeysArePaths(after, entries + [entry])
  {
    var all := entries + [entry];
    forall path ensures path in after <==> exists i :: 0 <= i < |all| && PathOf(all[i]) == path {
      if path in before { var i :| 0 <= i < |entries| && PathOf(entries[i]) == path; assert PathOf(all[i]) == path; }
      if path == PathOf(entry) { assert PathOf(all[|entries|]) == path; }
      if i :| 0 <= i < |all| && PathOf(all[i]) == path { assert i < |entries| ==> PathOf(entries[i]) == path; }
    }
  }

  lemma EvidenceGrows(entries: seq<Json>, entry: Json, notFound: seq<string>, checks: nat, text: string)
    requires AllShaped(entries) && EntryShape(entry)
    ensures EvidenceHolds(entries + [entry], notFound, checks, text) <==>
      EvidenceHolds(entries, notFound, checks, text) && EntryHolds(entry, notFound, checks, text)
      && forall i | 0 <= i < |entries| :: PathOf(entries[i]) != PathOf(entry)
  {
    var all := entries + [entry];
    assert all[|entries|] == entry;
    assert forall i | 0 <= i < |entries| :: all[i] == entries[i];
  }

  // Every required path must have been given evidence.
  method CheckComplete(verified: map<string, VerifiedSpan>, ordered: seq<string>) returns (rs: seq<Rejection>)
    ensures rs == [] <==> forall i | 0 <= i < |ordered| :: ordered[i] in verified
    ensures forall r :: r in rs <==> r.code == SpanMissing && r.detail in ordered && r.detail !in verified
    ensures ContentCodes(rs)
  {
    rs := [];
    for i := 0 to |ordered|
      invariant rs == [] <==> forall j | 0 <= j < i :: ordered[j] in verified
      invariant forall r :: r in rs <==> r.code == SpanMissing && r.detail in ordered[..i] && r.detail !in verified
      invariant ContentCodes(rs)
    {
      if ordered[i] !in verified {
        rs := rs + [Rejection(SpanMissing, ordered[i])];
      }
      assert ordered[..i + 1] == ordered[..i] + [ordered[i]];
    }
    assert ordered[..|ordered|] == ordered;
  }

  // What an accepted envelope turns into: one true span per required path, in canonical order.
  ghost predicate WellVerified(v: VerifiedExtraction, envelope: Json, text: string)
    requires EnvelopeShape(envelope) && DraftShape(envelope.fields["draft"])
  {
    v.draft == envelope.fields["draft"] && TrueSpans(v.spans, v.draft, envelope.fields["spans"].items, text)
  }

  ghost predicate TrueSpans(spans: seq<VerifiedSpan>, draft: Json, entries: seq<Json>, text: string)
    requires DraftShape(draft) && AllShaped(entries)
  {
    var ordered := CanonicalOrder(NotFoundList(draft), |draft.fields["conditionalChecks"].items|);
    && |spans| == |ordered| == |entries|
    && forall i | 0 <= i < |ordered| ::
         spans[i].fieldPath == ordered[i] && exists j :: 0 <= j < |entries| && SpanFor(spans[i], entries[j], text)
  }

  // A required path no entry speaks of is missing.
  ghost predicate MissingPath(entries: seq<Json>, notFound: seq<string>, checks: nat, r: Rejection)
    requires AllShaped(entries)
  {
    r.code == SpanMissing && Required(notFound, checks, r.detail) && forall i | 0 <= i < |entries| :: PathOf(entries[i]) != r.detail
  }

  lemma MissingIs(verified: map<string, VerifiedSpan>, entries: seq<Json>, notFound: seq<string>, checks: nat, r: Rejection)
    requires AllShaped(entries) && KeysArePaths(verified, entries)
    ensures MissingPath(entries, notFound, checks, r)
      <==> r.code == SpanMissing && r.detail in CanonicalOrder(notFound, checks) && r.detail !in verified
  {
    CanonicalIsRequired(notFound, checks, r.detail);
    KeyIsEarlierPath(verified, entries, r.detail);
  }

  // The evidence as a whole: every entry in order, then nothing missing.
  method CheckAllEvidence(entries: seq<Json>, notFound: seq<string>, checks: nat, text: string)
    returns (verified: map<string, VerifiedSpan>, rs: seq<Rejection>)
    requires AllShaped(entries)
    ensures rs == [] <==> EvidenceHolds(entries, notFound, checks, text) && EvidenceComplete(entries, notFound, checks)
    ensures rs == [] ==> OnFile(verified, entries, text) && KeysArePaths(verified, entries)
    ensures forall r :: r in rs <==> EntryComplaint(entries, notFound, checks, text, r) || MissingPath(entries, notFound, checks, r)
    ensures ContentCodes(rs)
  {
    var unproven, incomplete;
    verified, unproven := CheckEvidence(entries, notFound, checks, text);
    incomplete := CheckComplete(verified, CanonicalOrder(notFound, checks));
    CompleteIffOrdered(verified, entries, notFound, checks);
    rs := unproven + incomplete;
    forall r ensures r in rs <==> EntryComplaint(entries, notFound, checks, text, r) || MissingPath(entries, notFound, checks, r) {
      MissingIs(verified, entries, notFound, checks, r);
    }
  }

  function SpansInOrder(verified: map<string, VerifiedSpan>, ordered: seq<string>): (r: seq<VerifiedSpan>)
    requires forall i | 0 <= i < |ordered| :: ordered[i] in verified
    ensures |r| == |ordered| && forall i | 0 <= i < |ordered| :: r[i] == verified[ordered[i]]
  {
    seq(|ordered|, i requires 0 <= i < |ordered| => verified[ordered[i]])
  }

  // Everything the checks after the schema can complain about, and what each complaint means.
  ghost predicate ContentComplaint(draft: Json, entries: seq<Json>, policyId: string, text: string, r: Rejection)
    requires DraftShape(draft) && AllShaped(entries)
  {
    var notFound, checks := NotFoundList(draft), |draft.fields["conditionalChecks"].items|;
    || (r == Rejection(PolicyIdMismatch, draft.fields["policy_id"].s) && draft.fields["policy_id"].s != policyId)
    || MissingComplaint(draft, notFound, r)
    || EntryComplaint(entries, notFound, checks, text, r)
    || MissingPath(entries, notFound, checks, r)
  }

  method CheckContent(draft: Json, entries: seq<Json>, policyId: string, text: string) returns (spans: seq<VerifiedSpan>, rejections: seq<Rejection>)
    requires DraftShape(draft) && AllShaped(entries)
    ensures rejections == [] <==> ContentHolds(draft, entries, policyId, text)
    ensures rejections == [] ==> TrueSpans(spans, draft, entries, text)
    ensures forall r :: r in rejections <==> ContentComplaint(draft, entries, policyId, text, r)
    ensures ContentCodes(rejections)
  {
    var mismatch := if draft.fields["policy_id"].s == policyId then [] else [Rejection(PolicyIdMismatch, draft.fields["policy_id"].s)];
    var notFound, checks := NotFoundList(draft), |draft.fields["conditionalChecks"].items|;
    var missing := CheckNotFound(draft, notFound);
    var verified, unproven := CheckAllEvidence(entries, notFound, checks, text);
    rejections := mismatch + missing + unproven;
    spans := [];
    if rejections == [] {
      SpansAreTrue(verified, entries, notFound, checks, text);
      spans := SpansInOrder(verified, CanonicalOrder(notFound, checks));
    }
  }

  // The reasons an envelope is turned down for: its shape, else its schema, else its content.
  ghost predicate ReasonsFit(schema: Schema, envelope: Json, policyId: string, text: string, reasons: seq<Rejection>) {
    && (reasons == [] <==> Acceptable(schema, envelope, policyId, text))
    && (!EnvelopeShape(envelope) ==> AllOf(reasons, EnvelopeInvalid))
    && (EnvelopeShape(envelope) && schema(envelope.fields["draft"]) != [] ==> AllOf(reasons, SchemaViolation))
    && (EnvelopeShape(envelope) && schema(envelope.fields["draft"]) == [] ==> ContentCodes(reasons))
    && Complete(schema, envelope, policyId, text, reasons)
  }

  // No complaint is left out and none is made up.
  ghost predicate Complete(schema: Schema, envelope: Json, policyId: string, text: string, reasons: seq<Rejection>) {
    if !EnvelopeShape(envelope) then forall r :: r in reasons <==> ShapeComplaint(envelope, r)
    else if schema(envelope.fields["draft"]) != [] then SchemaReasons(schema(envelope.fields["draft"]), reasons)
    else DraftShape(envelope.fields["draft"]) && ContentReasons(envelope.fields["draft"], envelope.fields["spans"].items, policyId, text, reasons)
  }

  ghost predicate ContentReasons(draft: Json, entries: seq<Json>, policyId: string, text: string, reasons: seq<Rejection>)
    requires DraftShape(draft) && AllShaped(entries)
  {
    forall r :: r in reasons <==> ContentComplaint(draft, entries, policyId, text, r)
  }

  ghost predicate SchemaReasons(errors: seq<string>, reasons: seq<Rejection>) {
    |reasons| == |errors| && forall i | 0 <= i < |errors| :: reasons[i] == Rejection(SchemaViolation, errors[i])
  }

  method Verify(schema: Schema, envelope: Json, policyId: string, text: string) returns (r: Result<VerifiedExtraction, seq<Rejection>>)
    requires SchemaContract(schema)
    ensures r.Ok? <==> Acceptable(schema, envelope, policyId, text)
    ensures r.Ok? ==> EnvelopeShape(envelope) && DraftShape(envelope.fields["draft"]) && WellVerified(r.value, envelope, text)
    ensures r.Err? ==> r.error != []
    ensures r.Err? ==> Complete(schema, envelope, policyId, text, r.error)
    ensures r.Ok? ==> Complete(schema, envelope, policyId, text, [])
    ensures !EnvelopeShape(envelope) ==> r.Err? && AllOf(r.error, EnvelopeInvalid)
    ensures EnvelopeShape(envelope) && schema(envelope.fields["draft"]) != [] ==>
      r.Err? && AllOf(r.error, SchemaViolation) && |r.error| == |schema(envelope.fields["draft"])|
    ensures EnvelopeShape(envelope) && schema(envelope.fields["draft"]) == [] && r.Err? ==> ContentCodes(r.error)
  {
    var fatal := EnvelopeRejections(envelope);
    if fatal != [] {
      return Err(fatal);
    }
    var draft, entries := envelope.fields["draft"], envelope.fields["spans"].items;
    var errors := schema(draft);
    if errors != [] {
      return Err(seq(|errors|, i requires 0 <= i < |errors| => Rejection(SchemaViolation, errors[i])));
    }
    var spans, rejections := CheckContent(draft, entries, policyId, text);
    r := if rejections == [] then Ok(VerifiedExtraction(draft, spans)) else Err(rejections);
  }

  lemma CompleteIffOrdered(verified: map<string, VerifiedSpan>, entries: seq<Json>, notFound: seq<string>, checks: nat)
    requires AllShaped(entries) && KeysArePaths(verified, entries)
    ensures (forall i | 0 <= i < |CanonicalOrder(notFound, checks)| :: CanonicalOrder(notFound, checks)[i] in verified)
      <==> EvidenceComplete(entries, notFound, checks)
  {
    var ordered := CanonicalOrder(notFound, checks);
    if forall i | 0 <= i < |ordered| :: ordered[i] in verified {
      forall path | Required(notFound, checks, path) ensures exists i :: 0 <= i < |entries| && PathOf(entries[i]) == path {
        CanonicalIsRequired(notFound, checks, path);
        var i :| 0 <= i < |ordered| && ordered[i] == path;
      }
    }
    if EvidenceComplete(entries, notFound, checks) {
      forall i | 0 <= i < |ordered| ensures ordered[i] in verified { CanonicalIsRequired(notFound, checks, ordered[i]); }
    }
  }

  lemma SpansAreTrue(verified: map<string, VerifiedSpan>, entries: seq<Json>, notFound: seq<string>, checks: nat, text: string)
    requires AllShaped(entries) && KeysArePaths(verified, entries) && OnFile(verified, entries, text)
    requires EvidenceHolds(entries, notFound, checks, text) && EvidenceComplete(entries, notFound, checks)
    ensures var ordered := CanonicalOrder(notFound, checks);
      && |ordered| == |entries|
      && forall i | 0 <= i < |ordered| :: ordered[i] in verified && verified[ordered[i]].fieldPath == ordered[i]
           && exists j :: 0 <= j < |entries| && SpanFor(verified[ordered[i]], entries[j], text)
  {
    var ordered := CanonicalOrder(notFound, checks);
    forall i | 0 <= i < |ordered|
      ensures ordered[i] in verified && verified[ordered[i]].fieldPath == ordered[i]
      ensures exists j :: 0 <= j < |entries| && SpanFor(verified[ordered[i]], entries[j], text)
    {
      CanonicalIsRequired(notFound, checks, ordered[i]);
      var j :| 0 <= j < |entries| && PathOf(entries[j]) == ordered[i];
    }
    var paths := seq(|entries|, i requires 0 <= i < |entries| => PathOf(entries[i]));
    CanonicalIsDistinct(notFound, checks);
    forall p ensures p in paths <==> p in ordered {
      CanonicalIsRequired(notFound, checks, p);
      if p in paths { var i :| 0 <= i < |paths| && paths[i] == p; assert EntryHolds(entries[i], notFound, checks, text); }
      if p in ordered { var i :| 0 <= i < |entries| && PathOf(entries[i]) == p; assert paths[i] == p; }
    }
    SameLength(paths, ordered);
  }

  lemma EmptyWithoutMembers(b: seq<string>)
    requires forall p :: p !in b
    ensures b == []
  {
    if b != [] { HasMember(b); }
  }

  lemma HasMember(b: seq<string>)
    requires b != []
    ensures exists p :: p in b
  {
    assert b[0] in b;
  }

  lemma {:induction false} SameLength(a: seq<string>, b: seq<string>)
    requires Distinct(a) && Distinct(b) && forall p :: p in a <==> p in b
    ensures |a| == |b|
  {
    if a == [] {
      EmptyWithoutMembers(b);
    } else {
      assert a[0] in a && a[0] in b;
      var k :| 0 <= k < |b| && b[k] == a[0];
      var rest := b[..k] + b[k + 1..];
      forall p ensures p in a[1..] <==> p in rest {
        assert p in a[1..] <==> p in a && p != a[0];
        if p in rest { var i :| 0 <= i < |rest| && rest[i] == p; assert b[if i < k then i else i + 1] == p; }
        if p in b && p != b[k] { var i :| 0 <= i < |b| && b[i] == p; assert rest[if i < k then i else i - 1] == p; }
      }
      SameLength(a[1..], rest);
    }
  }
}
