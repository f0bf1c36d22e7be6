// One stored text, a bounded number of model calls, one draft
// (extraction.py, extract_one, _store_success, _store_failure).
module Extraction {
  import opened Basics
  import opened JsonValues
  import opened Digits
  import opened Quotes
  import opened Rejections
  import opened RuleStore
  import V = Verifier

  // What a model call can come back with. Nothing is assumed about it.
  datatype Answer = Unavailable(message: string) | Failed(message: string) | Answered(envelope: Json)

  datatype Outcome =
    | Stored(draftId: string, status: Status, reasons: seq<string>, attemptCodes: seq<seq<Code>>, spanCount: nat, ambiguousSpans: nat)
    | BadConfiguration
    | SourceMissing
    | DraftIdTaken

  // `tuple(dict.fromkeys(...))`: each code once, in order of appearance.
  function Fold(codes: seq<Code>): (r: seq<Code>)
    ensures forall c :: c in r <==> c in codes
    ensures forall i, j | 0 <= i < j < |r| :: r[i] != r[j]
  {
    if codes == [] then [] else
      var last := codes[|codes| - 1];
      var rest := Fold(codes[..|codes| - 1]);
      assert codes == codes[..|codes| - 1] + [last];
      if last in rest then rest else rest + [last]
  }

  function CodesOf(rs: seq<Rejection>): (r: seq<Code>)
    ensures |r| == |rs| && forall i | 0 <= i < |rs| :: r[i] == rs[i].code
  {
    seq(|rs|, i requires 0 <= i < |rs| => rs[i].code)
  }

  ghost predicate Accepted(schema: V.Schema, answer: Answer, policyId: string, text: string) {
    answer.Answered? && V.Acceptable(schema, answer.envelope, policyId, text)
  }

  // An accepted answer ends the loop, and so does a provider that is not there at all.
  ghost predicate Conclusive(schema: V.Schema, answer: Answer, policyId: string, text: string) {
    answer.Unavailable? || Accepted(schema, answer, policyId, text)
  }

  ghost predicate FirstConclusive(schema: V.Schema, answers: nat -> Answer, policyId: string, text: string, attempts: nat, limit: nat) {
    && 1 <= attempts <= limit
    && (forall k: nat | k < attempts - 1 :: !Conclusive(schema, answers(k), policyId, text))
    && (attempts < limit ==> Conclusive(schema, answers(attempts - 1), policyId, text))
  }

  // What an accepted answer delivered.
  ghost predicate Delivered(v: V.VerifiedExtraction, answer: Answer, text: string) {
    && answer.Answered? && V.EnvelopeShape(answer.envelope) && V.DraftShape(answer.envelope.fields["draft"])
    && V.WellVerified(v, answer.envelope, text)
  }

  // Why a call did not do: the provider's own message, or the verifier's reasons.
  ghost predicate ReasonsOf(schema: V.Schema, answer: Answer, policyId: string, text: string, reasons: seq<Rejection>) {
    match answer
    case Unavailable(message) => reasons == [Rejection(LlmUnavailable, message)]
    case Failed(message) => reasons == [Rejection(LlmCallFailed, message)]
    case Answered(envelope) => V.ReasonsFit(schema, envelope, policyId, text, reasons)
  }

  method AttemptOnce(schema: V.Schema, answer: Answer, policyId: string, text: string)
    returns (verified: Option<V.VerifiedExtraction>, rejections: seq<Rejection>)
    requires V.SchemaContract(schema)
    ensures verified.Some? <==> Accepted(schema, answer, policyId, text)
    ensures verified.Some? ==> Delivered(verified.value, answer, text)
    ensures verified.None? <==> rejections != []
    ensures ReasonsOf(schema, answer, policyId, text, rejections)
  {
    match answer {
      case Unavailable(message) => return None, [Rejection(LlmUnavailable, message)];
      case Failed(message) => return None, [Rejection(LlmCallFailed, message)];
      case Answered(envelope) =>
        var result := V.Verify(schema, envelope, policyId, text);
        match result {
          case Ok(v) => return Some(v), [];
          case Err(reasons) => return None, reasons;
        }
    }
  }

  lemma FoldEmpty(rs: seq<Rejection>)
    ensures Fold(CodesOf(rs)) == [] <==> rs == []
  {
    if rs != [] { assert CodesOf(rs)[0] in Fold(CodesOf(rs)); }
  }

  // Nothing conclusive so far, and every call has its codes.
  ghost predicate Struggling(schema: V.Schema, answers: nat -> Answer, policyId: string, text: string, codes: seq<seq<Code>>) {
    forall k: nat | k < |codes| :: codes[k] != [] && !Conclusive(schema, answers(k), policyId, text)
  }

  // No codes are recorded for a call exactly when its answer was accepted.
  ghost predicate CodesTell(schema: V.Schema, answers: nat -> Answer, policyId: string, text: string, codes: seq<seq<Code>>) {
    forall k: nat | k < |codes| :: codes[k] == [] <==> Accepted(schema, answers(k), policyId, text)
  }

  lemma Settle(schema: V.Schema, answers: nat -> Answer, policyId: string, text: string, codes: seq<seq<Code>>, last: seq<Code>, limit: nat)
    requires Struggling(schema, answers, policyId, text, codes) && |codes| < limit
    requires last == [] <==> Accepted(schema, answers(|codes|), policyId, text)
    ensures CodesTell(schema, answers, policyId, text, codes + [last])
    ensures last == [] || answers(|codes|).Unavailable? || |codes| + 1 == limit ==>
      FirstConclusive(schema, answers, policyId, text, |codes| + 1, limit)
    ensures last != [] && !answers(|codes|).Unavailable? ==> Struggling(schema, answers, policyId, text, codes + [last])
  {
  }

  // The first call is told nothing; every other is told, as printed, why the one before it failed.
  ghost predicate Told(repairs: seq<seq<string>>, reasons: seq<seq<Rejection>>) {
    |repairs| == |reasons| && forall k: nat | k < |repairs| :: ToldAt(repairs, reasons, k)
  }

  ghost predicate ToldAt(repairs: seq<seq<string>>, reasons: seq<seq<Rejection>>, k: nat) {
    k < |repairs| && k <= |reasons| && repairs[k] == RepairFor(reasons, k)
  }

  function RepairFor(reasons: seq<seq<Rejection>>, k: nat): seq<string>
    requires k <= |reasons|
  {
    if k == 0 then [] else PrintedAll(reasons[k - 1])
  }

  ghost predicate LoggedAt(schema: V.Schema, answers: nat -> Answer, policyId: string, text: string,
                           reasons: seq<seq<Rejection>>, codes: seq<seq<Code>>, k: nat) {
    k < |reasons| && k < |codes| && ReasonsOf(schema, answers(k), policyId, text, reasons[k]) && codes[k] == Fold(CodesOf(reasons[k]))
  }

  // Every call has its reasons on file, and their codes.
  ghost predicate Logged(schema: V.Schema, answers: nat -> Answer, policyId: string, text: string, reasons: seq<seq<Rejection>>, codes: seq<seq<Code>>) {
    |reasons| == |codes| && forall k: nat | k < |reasons| :: LoggedAt(schema, answers, policyId, text, reasons, codes, k)
  }

  lemma LogOne(schema: V.Schema, answers: nat -> Answer, policyId: string, text: string, reasons: seq<seq<Rejection>>, codes: seq<seq<Code>>, last: seq<Rejection>)
    requires Logged(schema, answers, policyId, text, reasons, codes) && ReasonsOf(schema, answers(|reasons|), policyId, text, last)
    ensures Logged(schema, answers, policyId, text, reasons + [last], codes + [Fold(CodesOf(last))])
  {
    forall k: nat | k < |reasons| + 1 ensures LoggedAt(schema, answers, policyId, text, reasons + [last], codes + [Fold(CodesOf(last))], k) {
      assert k < |reasons| ==> LoggedAt(schema, answers, policyId, text, reasons, codes, k);
    }
  }

  lemma RepairStands(reasons: seq<seq<Rejection>>, last: seq<Rejection>, k: nat)
    requires k <= |reasons|
    ensures RepairFor(reasons + [last], k) == RepairFor(reasons, k)
  {
    assert k > 0 ==> (reasons + [last])[k - 1] == reasons[k - 1];
  }

  lemma RepairOfLast(reasons: seq<seq<Rejection>>, last: seq<Rejection>)
    ensures RepairFor(reasons + [last], |reasons| + 1) == PrintedAll(last)
  {
    assert (reasons + [last])[|reasons|] == last;
  }

  lemma ToldOne(repairs: seq<seq<string>>, reasons: seq<seq<Rejection>>, repair: seq<string>, last: seq<Rejection>)
    requires Told(repairs, reasons) && repair == RepairFor(reasons, |reasons|)
    ensures Told(repairs + [repair], reasons + [last])
  {
    forall k: nat | k < |repairs| + 1 ensures ToldAt(repairs + [repair], reasons + [last], k) {
      assert k < |repairs| ==> ToldAt(repairs, reasons, k);
      RepairStands(reasons, last, k);
    }
  }

  // The log so far, and what the next call will be told.
  ghost predicate Trail(schema: V.Schema, answers: nat -> Answer, policyId: string, text: string,
                        reasons: seq<seq<Rejection>>, codes: seq<seq<Code>>, repairs: seq<seq<string>>, repair: seq<string>) {
    Logged(schema, answers, policyId, text, reasons, codes) && Told(repairs, reasons) && repair == RepairFor(reasons, |reasons|)
  }

  lemma TrailGrows(schema: V.Schema, answers: nat -> Answer, policyId: string, text: string,
                   reasons: seq<seq<Rejection>>, codes: seq<seq<Code>>, repairs: seq<seq<string>>, repair: seq<string>, last: seq<Rejection>)
    requires Trail(schema, answers, policyId, text, reasons, codes, repairs, repair)
    requires ReasonsOf(schema, answers(|reasons|), policyId, text, last)
    ensures Trail(schema, answers, policyId, text, reasons + [last], codes + [Fold(CodesOf(last))], repairs + [repair], PrintedAll(last))
  {
    LogOne(schema, answers, policyId, text, reasons, codes, last);
    ToldOne(repairs, reasons, repair, last);
    RepairOfLast(reasons, last);
  }

  // How the loop stands when it stops.
  ghost predicate Stopped(schema: V.Schema, answers: nat -> Answer, policyId: string, text: string, limit: nat,
                          verified: Option<V.VerifiedExtraction>, rejections: seq<Rejection>, codes: seq<seq<Code>>) {
    && codes != [] && FirstConclusive(schema, answers, policyId, text, |codes|, limit)
    && CodesTell(schema, answers, policyId, text, codes) && codes[|codes| - 1] == Fold(CodesOf(rejections))
    && (verified.Some? <==> Accepted(schema, answers(|codes| - 1), policyId, text))
    && (verified.Some? ==> Delivered(verified.value, answers(|codes| - 1), text))
    && (verified.None? <==> rejections != [])
  }

  method AttemptNext(schema: V.Schema, answers: nat -> Answer, policyId: string, text: string, codes: seq<seq<Code>>, limit: nat)
    returns (verified: Option<V.VerifiedExtraction>, rejections: seq<Rejection>, stop: bool)
    requires V.SchemaContract(schema) && |codes| < limit && Struggling(schema, answers, policyId, text, codes)
    ensures ReasonsOf(schema, answers(|codes|), policyId, text, rejections)
    ensures stop || |codes| + 1 == limit ==>
      Stopped(schema, answers, policyId, text, limit, verified, rejections, codes + [Fold(CodesOf(rejections))])
    ensures !stop ==> Struggling(schema, answers, policyId, text, codes + [Fold(CodesOf(rejections))]) && rejections != []
  {
    verified, rejections := AttemptOnce(schema, answers(|codes|), policyId, text);
    FoldEmpty(rejections);
    Settle(schema, answers, policyId, text, codes, Fold(CodesOf(rejections)), limit);
    stop := verified.Some? || answers(|codes|).Unavailable?;
  }

  // The retry loop. `reasons` and `repairs` are what each call met with and what it was told.
  method Attempt(schema: V.Schema, answers: nat -> Answer, policyId: string, text: string, limit: nat)
    returns (verified: Option<V.VerifiedExtraction>, rejections: seq<Rejection>, attemptCodes: seq<seq<Code>>,
             reasons: seq<seq<Rejection>>, repairs: seq<seq<string>>)
    requires V.SchemaContract(schema) && limit >= 1
    ensures Stopped(schema, answers, policyId, text, limit, verified, rejections, attemptCodes)
    ensures Logged(schema, answers, policyId, text, reasons, attemptCodes) && Told(repairs, reasons)
    ensures |reasons| > 0 && reasons[|reasons| - 1] == rejections
  {
    verified, rejections, attemptCodes, reasons, repairs := None, [], [], [], [];
    var repair: seq<string> := [];
    for attempt := 0 to limit
      invariant attempt == |attemptCodes| == |reasons|
      invariant Struggling(schema, answers, policyId, text, attemptCodes)
      invariant Trail(schema, answers, policyId, text, reasons, attemptCodes, repairs, repair)
      invariant attempt > 0 ==> reasons[attempt - 1] == rejections
      invariant attempt == limit ==>
        Stopped(schema, answers, policyId, text, limit, verified, rejections, attemptCodes)
    {
      var stop;
      verified, rejections, stop := AttemptNext(schema, answers, policyId, text, attemptCodes, limit);
      TrailGrows(schema, answers, policyId, text, reasons, attemptCodes, repairs, repair, rejections);
      attemptCodes, reasons, repairs := attemptCodes + [Fold(CodesOf(rejections))], reasons + [rejections], repairs + [repair];
      if stop {
        return;
      }
      repair := PrintedAll(rejections);
    }
  }

  // ---- Storing the result -------------------------------------------------------------------

  function Pad6(n: nat): string {
    var s := Print(n);
    if |s| < 6 then Zeros(6 - |s|) + s else s
  }

  function DraftId(count: nat, policyId: string): string { Numbered("draft-", count + 1, policyId) }

  function Numbered(head: string, number: nat, tail: string): string { head + Pad6(number) + "-" + tail }

  function SpanRow(draftId: string, s: V.VerifiedSpan): Span { Span(draftId, s.fieldPath, s.start, s.end) }

  function SpanRows(draftId: string, spans: seq<V.VerifiedSpan>): (r: seq<Span>)
    ensures |r| == |spans| && forall i | 0 <= i < |spans| :: r[i] == SpanRow(draftId, spans[i])
  {
    seq(|spans|, i requires 0 <= i < |spans| => SpanRow(draftId, spans[i]))
  }

  predicate Storable(s: V.VerifiedSpan, text: string) {
    JsonPointer(s.fieldPath) && 0 <= s.start < s.end <= |text|
  }

  function Texts(codes: seq<Code>): Json {
    Arr(seq(|codes|, i requires 0 <= i < |codes| => Str(Name(codes[i]))))
  }

  function AttemptNote(attemptCodes: seq<seq<Code>>): Json {
    Arr(seq(|attemptCodes|, i requires 0 <= i < |attemptCodes| => Texts(attemptCodes[i])))
  }

  // The spans whose quotation counts more than once, in order.
  function Ambiguous(spans: seq<V.VerifiedSpan>): seq<V.VerifiedSpan> {
    if spans == [] then []
    else Ambiguous(spans[..|spans| - 1]) + if spans[|spans| - 1].occurrences > 1 then [spans[|spans| - 1]] else []
  }

  function AmbiguousNote(spans: seq<V.VerifiedSpan>): Json {
    var found := Ambiguous(spans);
    Arr(seq(|found|, i requires 0 <= i < |found| => Obj(map["field_path" := Str(found[i].fieldPath), "occurrences" := Int(found[i].occurrences)])))
  }

  // What the audit trail keeps of a failed extraction, and of one whose spans the store refused.
  function FailureNote(codes: seq<Code>, attemptCodes: seq<seq<Code>>): Dict {
    map["codes" := Texts(codes), "attempts" := Int(|attemptCodes|), "attempt_codes" := AttemptNote(attemptCodes)]
  }

  function RefusalNote(attempts: nat): Dict {
    map["codes" := Texts([SpanStoreRejected]), "attempts" := Int(attempts)]
  }

  // And what it keeps of a draft that waits for review.
  function SuccessNote(verified: V.VerifiedExtraction, attemptCodes: seq<seq<Code>>): Dict
    requires Reported(verified)
  {
    map["spans" := Int(|verified.spans|), "not_found" := verified.draft.fields["not_found"], "attempts" := Int(|attemptCodes|),
        "attempt_codes" := AttemptNote(attemptCodes), "ambiguous_spans" := AmbiguousNote(verified.spans)]
  }

  predicate Reported(verified: V.VerifiedExtraction) { verified.draft.Obj? && "not_found" in verified.draft.fields }

  function EventFor(draftId: string, policyId: string, sourceId: string, outcome: string, note: Dict, now: int): AuditEvent {
    AuditEvent("system:extract", now, "rule_draft.extract", draftId, outcome,
      map["policy_id" := Str(policyId), "policy_source_id" := Str(sourceId)] + note)
  }

  // The i-th span is the first the store refuses: the rows before it stay, and the draft, payload
  // and all, is marked as failed with the refused path for its reason.
  ghost predicate RefusedAt(before: Db, after: Db, draftId: string, policyId: string, sourceId: string, verified: V.VerifiedExtraction,
                            attempts: nat, now: int, i: nat) {
    && verified.draft.Obj? && i < |verified.spans| && sourceId in before.sources && !Storable(verified.spans[i], before.sources[sourceId])
    && (forall j | 0 <= j < i :: Storable(verified.spans[j], before.sources[sourceId]))
    && after == before.(
         drafts := before.drafts[draftId := Draft(policyId, sourceId, ExtractionFailed, verified.draft.fields,
                                                  Some(Recorded([Rejection(SpanStoreRejected, verified.spans[i].fieldPath)])))],
         spans := before.spans + SpanRows(draftId, verified.spans[..i]),
         audit := before.audit + [EventFor(draftId, policyId, sourceId, "extraction_failed", RefusalNote(attempts), now)])
  }

  method StoreSuccess(store: Store, draftId: string, policyId: string, sourceId: string, verified: V.VerifiedExtraction,
                      attemptCodes: seq<seq<Code>>, now: int) returns (r: Outcome)
    requires Reported(verified) && sourceId in store.db.sources
    modifies store
    ensures r.DraftIdTaken? <==> draftId in old(store.db).drafts
    ensures r.DraftIdTaken? ==> store.db == old(store.db)
    ensures !r.DraftIdTaken? ==> r.Stored? && r.draftId == draftId && r.attemptCodes == attemptCodes
    ensures !r.DraftIdTaken? ==> (r.status == Pending <==> forall i | 0 <= i < |verified.spans| :: Storable(verified.spans[i], old(store.db).sources[sourceId]))
    ensures r.Stored? && r.status == Pending ==>
      store.db == old(store.db).(drafts := old(store.db).drafts[draftId := Draft(policyId, sourceId, Pending, verified.draft.fields, None)],
                                 spans := old(store.db).spans + SpanRows(draftId, verified.spans),
                                 audit := old(store.db).audit + [EventFor(draftId, policyId, sourceId, "pending", SuccessNote(verified, attemptCodes), now)])
    ensures r.Stored? && r.status == Pending ==> r.spanCount == |verified.spans| && r.ambiguousSpans == |Ambiguous(verified.spans)| && r.reasons == []
    ensures r.Stored? && r.status != Pending ==>
      r.status == ExtractionFailed
    ensures r.Stored? && r.status != Pending ==>
      exists i: nat :: RefusedAt(old(store.db), store.db, draftId, policyId, sourceId, verified, |attemptCodes|, now, i)
  {
    var text := store.db.sources[sourceId];
    var ok := store.InsertDraft(draftId, Draft(policyId, sourceId, Pending, verified.draft.fields, None));
    if !ok {
      return DraftIdTaken;
    }
    ghost var inserted := store.db;
    for i := 0 to |verified.spans|
      invariant store.db == inserted.(spans := inserted.spans + SpanRows(draftId, verified.spans[..i]))
      invariant forall j | 0 <= j < i :: Storable(verified.spans[j], text)
    {
      ok := store.InsertSpan(SpanRow(draftId, verified.spans[i]));
      if !ok {
        // The rows stored before this one stay; the draft must not look reviewable.
        var reason := Rejection(SpanStoreRejected, verified.spans[i].fieldPath);
        ok := store.SetDraftStatus(draftId, ExtractionFailed, Some(Recorded([reason])));
        store.Audit(EventFor(draftId, policyId, sourceId, "extraction_failed", RefusalNote(|attemptCodes|), now));
        assert RefusedAt(old(store.db), store.db, draftId, policyId, sourceId, verified, |attemptCodes|, now, i);
        return Stored(draftId, ExtractionFailed, [Printed(reason)], attemptCodes, 0, 0);
      }
      assert SpanRows(draftId, verified.spans[..i + 1]) == SpanRows(draftId, verified.spans[..i]) + [SpanRow(draftId, verified.spans[i])];
    }
    assert verified.spans[..|verified.spans|] == verified.spans;
    store.Audit(EventFor(draftId, policyId, sourceId, "pending", SuccessNote(verified, attemptCodes), now));
    r := Stored(draftId, Pending, [], attemptCodes, |verified.spans|, |Ambiguous(verified.spans)|);
  }

  const UNRECORDED: string := "사유가 기록되지 않았다"

  // `" / ".join(reasons) or ...`.
  function ReasonFor(rejections: seq<Rejection>): (reason: string)
    ensures reason != ""
  {
    var joined := Recorded(rejections);
    if joined != "" then joined else UNRECORDED
  }

  method StoreFailure(store: Store, draftId: string, policyId: string, sourceId: string, rejections: seq<Rejection>,
                      attemptCodes: seq<seq<Code>>, now: int) returns (r: Outcome)
    requires sourceId in store.db.sources
    modifies store
    ensures r.DraftIdTaken? <==> draftId in old(store.db).drafts
    ensures r.DraftIdTaken? ==> store.db == old(store.db)
    ensures !r.DraftIdTaken? ==> r == Stored(draftId, ExtractionFailed, PrintedAll(rejections), attemptCodes, 0, 0)
    ensures !r.DraftIdTaken? ==>
      store.db == old(store.db).(drafts := old(store.db).drafts[draftId := Draft(policyId, sourceId, ExtractionFailed, map[], Some(ReasonFor(rejections)))],
                                 audit := old(store.db).audit + [EventFor(draftId, policyId, sourceId, "extraction_failed", FailureNote(Fold(CodesOf(rejections)), attemptCodes), now)])
    ensures !r.DraftIdTaken? && rejections != [] && attemptCodes != [] && attemptCodes[|attemptCodes| - 1] == Fold(CodesOf(rejections)) ==>
      Explained(old(store.db), store.db, r, policyId, sourceId, now)
  {
    var ok := store.InsertDraft(draftId, Draft(policyId, sourceId, ExtractionFailed, map[], Some(ReasonFor(rejections))));
    if !ok {
      return DraftIdTaken;
    }
    store.Audit(EventFor(draftId, policyId, sourceId, "extraction_failed", FailureNote(Fold(CodesOf(rejections)), attemptCodes), now));
    r := Stored(draftId, ExtractionFailed, PrintedAll(rejections), attemptCodes, 0, 0);
    if rejections != [] && attemptCodes != [] && attemptCodes[|attemptCodes| - 1] == Fold(CodesOf(rejections)) {
      FailureIs(old(store.db), store.db, r, draftId, policyId, sourceId, rejections,
        EventFor(draftId, policyId, sourceId, "extraction_failed", FailureNote(Fold(CodesOf(rejections)), attemptCodes), now), now);
    }
  }

  // ---- What verification promises the store ------------------------------------------------

  ghost predicate NoTilde(s: string) { forall i | 0 <= i < |s| :: s[i] != '~' }

  lemma EvidencePathsHaveNoTilde1()
    ensures NoTilde("/criteria/ageMin") && NoTilde("/criteria/ageMax") && NoTilde("/criteria/annualIncomeMaxKRW")
  {
  }

  lemma EvidencePathsHaveNoTilde2()
    ensures NoTilde("/criteria/assetMaxKRW") && NoTilde("/criteria/requireHomeless") && NoTilde("/criteria/requireNewlywed")
  {
  }

  lemma EvidencePathsHaveNoTilde3()
    ensures NoTilde("/criteria/requireSME") && NoTilde("/criteria/regionPrefixes") && NoTilde("/maxAmountKRW") && NoTilde("/rateRangePct")
  {
  }

  lemma CheckPathIsPointer(i: nat)
    ensures JsonPointer(V.CheckPath(i))
  {
    var head := "/conditionalChecks/";
    assert NoTilde(head);
    assert NoTilde(Print(i)) by { assert AllDigits(Print(i)); }
    assert NoTilde(head + Print(i));
  }

  lemma EvidenceIsPointer(i: nat)
    requires i < |V.EVIDENCE|
    ensures JsonPointer(V.EVIDENCE[i])
  {
    EvidencePathsHaveNoTilde1();
    EvidencePathsHaveNoTilde2();
    EvidencePathsHaveNoTilde3();
    assert NoTilde(V.EVIDENCE[i]) && V.EVIDENCE[i][0] == '/';
  }

  // Every span of a verified extraction passes the store's own validation.
  lemma VerifiedSpansAreStorable(v: V.VerifiedExtraction, envelope: Json, text: string, i: nat)
    requires V.EnvelopeShape(envelope) && V.DraftShape(envelope.fields["draft"]) && V.WellVerified(v, envelope, text)
    requires i < |v.spans|
    ensures Storable(v.spans[i], text)
  {
    var draft := envelope.fields["draft"];
    var notFound, checks := V.NotFoundList(draft), |draft.fields["conditionalChecks"].items|;
    var path := V.CanonicalOrder(notFound, checks)[i];
    V.CanonicalIsRequired(notFound, checks, path);
    if path in V.EVIDENCE {
      var k :| 0 <= k < |V.EVIDENCE| && V.EVIDENCE[k] == path;
      EvidenceIsPointer(k);
    } else {
      var k :| 0 <= k < checks && path == V.CheckPath(k);
      CheckPathIsPointer(k);
    }
  }

  // ---- One extraction ------------------------------------------------------------------------

  // Exactly one draft and one audit event more, nothing else but the draft's own spans.
  ghost predicate OneMoreDraft(before: Db, after: Db, draftId: string, spans: seq<Span>, event: AuditEvent) {
    && draftId !in before.drafts && draftId in after.drafts && after.drafts == before.drafts[draftId := after.drafts[draftId]]
    && after.spans == before.spans + spans && after.audit == before.audit + [event]
    && after.versions == before.versions && after.approvals == before.approvals && after.sources == before.sources
  }

  // The draft waits for review with its whole payload and one row per verified span.
  ghost predicate Reviewable(before: Db, after: Db, r: Outcome, policyId: string, sourceId: string, v: V.VerifiedExtraction, answers: nat -> Answer, now: int) {
    && r.Stored? && r.attemptCodes != [] && r.status == Pending && r.reasons == [] && sourceId in before.sources
    && Delivered(v, answers(|r.attemptCodes| - 1), before.sources[sourceId]) && Reported(v)
    && r.spanCount == |v.spans| && r.ambiguousSpans == |Ambiguous(v.spans)|
    && OneMoreDraft(before, after, r.draftId, SpanRows(r.draftId, v.spans),
         EventFor(r.draftId, policyId, sourceId, "pending", SuccessNote(v, r.attemptCodes), now))
    && after.drafts[r.draftId] == Draft(policyId, sourceId, Pending, v.draft.fields, None)
  }

  // The draft carries no rule content and no spans, only a reason, and the event the same codes
  // as the last call.
  ghost predicate Explained(before: Db, after: Db, r: Outcome, policyId: string, sourceId: string, now: int) {
    && r.Stored? && r.attemptCodes != [] && r.status == ExtractionFailed && r.spanCount == 0 && r.ambiguousSpans == 0
    && r.reasons != [] && Joined(r.reasons) != ""
    && OneMoreDraft(before, after, r.draftId, [],
         EventFor(r.draftId, policyId, sourceId, "extraction_failed", FailureNote(r.attemptCodes[|r.attemptCodes| - 1], r.attemptCodes), now))
    && after.drafts[r.draftId] == Draft(policyId, sourceId, ExtractionFailed, map[], Some(Joined(r.reasons)))
  }

  // What the two storing paths leave behind.
  function WithDraft(before: Db, draftId: string, draft: Draft, spans: seq<Span>, event: AuditEvent): Db {
    before.(drafts := before.drafts[draftId := draft], spans := before.spans + spans, audit := before.audit + [event])
  }

  lemma WithDraftIsOneMore(before: Db, draftId: string, draft: Draft, spans: seq<Span>, event: AuditEvent)
    requires draftId !in before.drafts && event.target == draftId
    ensures OneMoreDraft(before, WithDraft(before, draftId, draft, spans, event), draftId, spans, event)
    ensures WithDraft(before, draftId, draft, spans, event).drafts[draftId] == draft
  {
  }

  lemma ReasonStands(rejections: seq<Rejection>)
    requires rejections != []
    ensures PrintedAll(rejections) != [] && Joined(PrintedAll(rejections)) != ""
    ensures ReasonFor(rejections) == Joined(PrintedAll(rejections))
  {
    RoundTripFrom(rejections);
  }

  lemma FailureExplains(before: Db, after: Db, r: Outcome, draftId: string, policyId: string, sourceId: string, reason: string, event: AuditEvent, now: int)
    requires draftId !in before.drafts && r.Stored? && r.attemptCodes != [] && event.target == draftId
    requires r == Stored(draftId, ExtractionFailed, r.reasons, r.attemptCodes, 0, 0) && r.reasons != [] && reason == Joined(r.reasons) != ""
    requires event == EventFor(draftId, policyId, sourceId, "extraction_failed", FailureNote(r.attemptCodes[|r.attemptCodes| - 1], r.attemptCodes), now)
    requires after == WithDraft(before, draftId, Draft(policyId, sourceId, ExtractionFailed, map[], Some(reason)), [], event)
    ensures Explained(before, after, r, policyId, sourceId, now)
  {
    WithDraftIsOneMore(before, draftId, Draft(policyId, sourceId, ExtractionFailed, map[], Some(reason)), [], event);
  }

  lemma FailureIs(before: Db, after: Db, r: Outcome, draftId: string, policyId: string, sourceId: string, rejections: seq<Rejection>, event: AuditEvent, now: int)
    requires draftId !in before.drafts && r.Stored? && r.attemptCodes != [] && rejections != [] && event.target == draftId
    requires r == Stored(draftId, ExtractionFailed, PrintedAll(rejections), r.attemptCodes, 0, 0)
    requires event == EventFor(draftId, policyId, sourceId, "extraction_failed", FailureNote(r.attemptCodes[|r.attemptCodes| - 1], r.attemptCodes), now)
    requires after == before.(
      drafts := before.drafts[draftId := Draft(policyId, sourceId, ExtractionFailed, map[], Some(ReasonFor(rejections)))], audit := before.audit + [event])
    ensures Explained(before, after, r, policyId, sourceId, now)
  {
    ReasonStands(rejections);
    assert before.spans + [] == before.spans;
    FailureExplains(before, after, r, draftId, policyId, sourceId, ReasonFor(rejections), event, now);
  }

  method Finish(store: Store, draftId: string, policyId: string, sourceId: string, verified: Option<V.VerifiedExtraction>,
                rejections: seq<Rejection>, attemptCodes: seq<seq<Code>>, now: int, ghost answers: nat -> Answer) returns (r: Outcome)
    requires sourceId in store.db.sources && attemptCodes != []
    requires verified.Some? ==> Delivered(verified.value, answers(|attemptCodes| - 1), store.db.sources[sourceId])
    requires verified.None? <==> rejections != []
    requires attemptCodes[|attemptCodes| - 1] == Fold(CodesOf(rejections))
    modifies store
    ensures r.DraftIdTaken? <==> draftId in old(store.db).drafts
    ensures r.DraftIdTaken? ==> store.db == old(store.db)
    ensures !r.DraftIdTaken? ==> r.Stored? && r.draftId == draftId && r.attemptCodes == attemptCodes
    ensures r.Stored? ==> (r.status == Pending <==> verified.Some?) && r.reasons == PrintedAll(rejections)
    ensures r.Stored? && verified.Some? ==> Reviewable(old(store.db), store.db, r, policyId, sourceId, verified.value, answers, now)
    ensures r.Stored? && verified.None? ==> Explained(old(store.db), store.db, r, policyId, sourceId, now)
  {
    ghost var before := store.db;
    match verified {
      case None =>
        r := StoreFailure(store, draftId, policyId, sourceId, rejections, attemptCodes, now);
      case Some(v) =>
        assert rejections == [];
        AllStorable(v, answers(|attemptCodes| - 1), store.db.sources[sourceId]);
        r := StoreSuccess(store, draftId, policyId, sourceId, v, attemptCodes, now);
        if r.Stored? {
          WithDraftIsOneMore(before, draftId, Draft(policyId, sourceId, Pending, v.draft.fields, None), SpanRows(draftId, v.spans),
            EventFor(draftId, policyId, sourceId, "pending", SuccessNote(v, attemptCodes), now));
        }
    }
  }

  // The loop ended where it should, every call has its codes, the draft waits for review exactly
  // when the last answer was acceptable, and the reasons are those of the last call, as printed.
  ghost predicate Settled(schema: V.Schema, answers: nat -> Answer, policyId: string, text: string, limit: nat, r: Outcome) {
    && r.Stored? && r.attemptCodes != [] && FirstConclusive(schema, answers, policyId, text, |r.attemptCodes|, limit)
    && CodesTell(schema, answers, policyId, text, r.attemptCodes)
    && (r.status == Pending <==> Accepted(schema, answers(|r.attemptCodes| - 1), policyId, text))
    && exists reasons :: Explains(schema, answers, policyId, text, r, reasons)
  }

  // Each call's codes and the outcome's reasons, from why each call did not do.
  ghost predicate Explains(schema: V.Schema, answers: nat -> Answer, policyId: string, text: string, r: Outcome, reasons: seq<seq<Rejection>>) {
    && r.Stored? && reasons != [] && Logged(schema, answers, policyId, text, reasons, r.attemptCodes)
    && r.reasons == PrintedAll(reasons[|reasons| - 1])
  }

  lemma StoppedIsSettled(schema: V.Schema, answers: nat -> Answer, policyId: string, text: string, limit: nat,
                         verified: Option<V.VerifiedExtraction>, rejections: seq<Rejection>, r: Outcome, reasons: seq<seq<Rejection>>)
    requires Explains(schema, answers, policyId, text, r, reasons)
    requires r.Stored? && Stopped(schema, answers, policyId, text, limit, verified, rejections, r.attemptCodes)
    requires r.status == Pending <==> verified.Some?
    ensures Settled(schema, answers, policyId, text, limit, r)
  {
  }

  method ExtractOne(store: Store, schema: V.Schema, sourceId: string, policyId: string, maxAttempts: int, answers: nat -> Answer, now: int)
    returns (r: Outcome)
    requires V.SchemaContract(schema)
    modifies store
    ensures r.BadConfiguration? <==> maxAttempts < 1
    ensures r.SourceMissing? <==> maxAttempts >= 1 && sourceId !in old(store.db).sources
    ensures r.DraftIdTaken? <==> maxAttempts >= 1 && sourceId in old(store.db).sources && DraftId(|old(store.db).drafts|, policyId) in old(store.db).drafts
    ensures !r.Stored? ==> store.db == old(store.db)
    ensures r.Stored? ==> maxAttempts >= 1 && sourceId in old(store.db).sources && r.draftId == DraftId(|old(store.db).drafts|, policyId)
    ensures r.Stored? ==> Settled(schema, answers, policyId, old(store.db).sources[sourceId], maxAttempts, r)
    ensures r.Stored? && r.status == Pending ==>
      exists v :: Reviewable(old(store.db), store.db, r, policyId, sourceId, v, answers, now)
    ensures r.Stored? && r.status != Pending ==> Explained(old(store.db), store.db, r, policyId, sourceId, now)
  {
    if maxAttempts < 1 {
      return BadConfiguration;
    }
    if sourceId !in store.db.sources {
      return SourceMissing;
    }
    var text := store.db.sources[sourceId];
    var verified, rejections, attemptCodes, reasons, repairs := Attempt(schema, answers, policyId, text, maxAttempts);
    var draftId := DraftId(|store.db.drafts|, policyId);
    r := Finish(store, draftId, policyId, sourceId, verified, rejections, attemptCodes, now, answers);
    if r.Stored? { StoppedIsSettled(schema, answers, policyId, text, maxAttempts, verified, rejections, r, reasons); }
  }

  lemma AllStorable(v: V.VerifiedExtraction, answer: Answer, text: string)
    requires Delivered(v, answer, text)
    ensures Reported(v) && forall i | 0 <= i < |v.spans| :: Storable(v.spans[i], text)
  {
    forall i | 0 <= i < |v.spans| ensures Storable(v.spans[i], text) {
      VerifiedSpansAreStorable(v, answer.envelope, text, i);
    }
  }

  // ---- Draft ids never run into each other ----------------------------------------------------

  lemma ReadPad(n: nat)
    ensures AllDigits(Pad6(n)) && Read(Pad6(n)) == n
  {
    ReadPrint(n);
    if |Print(n)| < 6 { ReadZeros(6 - |Print(n)|, Print(n)); }
  }

  lemma DashAt(s: string, a: string, p: string)
    requires AllDigits(a) && s == a + "-" + p
    ensures |a| < |s| && s[|a|] == '-' && forall i | 0 <= i < |a| :: s[i] != '-'
    ensures a == s[..|a|] && p == s[|a| + 1..]
  {
    assert forall i | 0 <= i < |a| :: s[i] == a[i];
  }

  // Digits before the first "-" decide.
  lemma SplitAtDash(s: string, a: string, b: string, p: string, q: string)
    requires AllDigits(a) && AllDigits(b) && s == a + "-" + p && s == b + "-" + q
    ensures a == b && p == q
  {
    DashAt(s, a, p);
    DashAt(s, b, q);
  }

  lemma DropPrefix(head: string, a: string, b: string, p: string, q: string)
    requires head + a + "-" + p == head + b + "-" + q
    ensures a + "-" + p == b + "-" + q
  {
    assert (head + a + "-" + p)[|head|..] == a + "-" + p;
    assert (head + b + "-" + q)[|head|..] == b + "-" + q;
  }

  lemma SameNumberAndTail(head: string, a: string, b: string, p: string, q: string)
    requires AllDigits(a) && AllDigits(b) && head + a + "-" + p == head + b + "-" + q
    ensures a == b && p == q
  {
    DropPrefix(head, a, b, p, q);
    SplitAtDash(a + "-" + p, a, b, p, q);
  }

  lemma NumberedInjective(head: string, m: nat, p: string, n: nat, q: string)
    requires Numbered(head, m, p) == Numbered(head, n, q)
    ensures m == n && p == q
  {
    ReadPad(m);
    ReadPad(n);
    SameNumberAndTail(head, Pad6(m), Pad6(n), p, q);
  }

  lemma DraftIdInjective(m: nat, p: string, n: nat, q: string)
    requires DraftId(m, p) == DraftId(n, q)
    ensures m == n && p == q
  {
    NumberedInjective("draft-", m + 1, p, n + 1, q);
  }

  ghost predicate NumberedBelow(id: string, bound: nat) {
    exists n: nat, p :: n < bound && id == DraftId(n, p)
  }

  // Every draft on file was numbered by an extraction.
  ghost predicate AllNumbered(db: Db) {
    forall id | id in db.drafts :: NumberedBelow(id, |db.drafts|)
  }

  // On a store filled only by extractions the next id is always free, and stays so.
  lemma NextIdIsFree(before: Db, policyId: string, draft: Draft)
    requires AllNumbered(before)
    ensures DraftId(|before.drafts|, policyId) !in before.drafts
    ensures AllNumbered(before.(drafts := before.drafts[DraftId(|before.drafts|, policyId) := draft]))
  {
    var count := |before.drafts|;
    var id := DraftId(count, policyId);
    if id in before.drafts {
      var n: nat, p :| n < count && id == DraftId(n, p);
      DraftIdInjective(count, policyId, n, p);
    } else {
      var after := before.(drafts := before.drafts[id := draft]);
      assert |after.drafts| == count + 1;
      forall other | other in after.drafts ensures NumberedBelow(other, count + 1) {
        if other == id {
          assert count < count + 1 && other == DraftId(count, policyId);
        } else {
          var n: nat, p :| n < count && other == DraftId(n, p);
          assert n < count + 1;
        }
      }
    }
  }

  // ---- What the notes keep ---------------------------------------------------------------------

  // Codes are folded in the order in which they first appear: what an earlier part of the list
  // folds to is where the whole starts.
  lemma {:induction false} FoldKeepsOrder(codes: seq<Code>, k: nat)
    requires k <= |codes|
    ensures Fold(codes[..k]) <= Fold(codes)
  {
    if k < |codes| {
      var front := codes[..|codes| - 1];
      assert front[..k] == codes[..k];
      FoldKeepsOrder(front, k);
    } else {
      assert codes[..k] == codes;
    }
  }

  ghost function AmbiguousPlaces(spans: seq<V.VerifiedSpan>): set<int> {
    set i | 0 <= i < |spans| && spans[i].occurrences > 1
  }

  // The ambiguous spans are the ones whose quotation counts more than once, each place once ...
  lemma {:induction false} AmbiguousAre(spans: seq<V.VerifiedSpan>, s: V.VerifiedSpan)
    ensures |Ambiguous(spans)| == |AmbiguousPlaces(spans)|
    ensures s in Ambiguous(spans) <==> s in spans && s.occurrences > 1
  {
    if spans != [] {
      var n := |spans| - 1;
      var front, last := spans[..n], spans[n];
      AmbiguousAre(front, s);
      assert spans == front + [last];
      assert AmbiguousPlaces(spans) == AmbiguousPlaces(front) + if last.occurrences > 1 then {n} else {};
    }
  }

  // ... in the order of the spans.
  lemma {:induction false} AmbiguousKeepOrder(spans: seq<V.VerifiedSpan>, k: nat)
    requires k <= |spans|
    ensures Ambiguous(spans[..k]) <= Ambiguous(spans)
  {
    if k < |spans| {
      var front := spans[..|spans| - 1];
      assert front[..k] == spans[..k];
      AmbiguousKeepOrder(front, k);
    } else {
      assert spans[..k] == spans;
    }
  }
}
