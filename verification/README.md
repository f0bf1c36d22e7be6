# Home Compass: a verified model of its hard core

Home Compass judges whether a household qualifies for Korean housing-support policies and what
a home would cost it. The rules it judges by are extracted from public notices by a language
model, checked mechanically, reviewed by a person and then installed as immutable rule versions
with half-open windows of effect. This project models the parts where a mistake would be hard
to see, and proves what they promise:

- **Approval** (`RuleStore`, `Timeline`, `Approval`, `Impact`, `Protocol`, `Runs`, `Served`). Drafts are claimed,
  reflected as versions, recorded and audited, one at a time or in batches. `RuleStore` holds one
  value per database state, one function per store call and the store object; `Approval` holds the
  serial requests as methods on that object; `Protocol` interleaves any number of requests, one
  store call per step, and lets any call throw. The main theorems hold for every run; `Runs` puts
  together the runs that show where a promise ends, and `Served` proves what one request does when
  its own steps follow each other, for batches of any length.
- **Review material** (`JsonValues`, `ReviewMerge`, `Segments`, and the preview in `Impact`). The
  JSON diff, the field-by-field merge and the table that explains it, the highlighted source text,
  and the preview that must predict the approval.
- **Extraction** (`Pointers`, `Quotes`, `Verifier`, `Rejections`, `Extraction`). The mechanical
  verifier, the retry loop around the model calls, what is stored, and the admin screen's parser
  that must undo the printed failure reason.
- **Exact numbers as text** (`Digits`, `Rounding`, `Decimal`, `Money`). Printing a binary64 value to
  a fixed number of places with ties to even, and the money strings written in two languages.
- **Numeric engines** (`Bars`, `Npv`, `Scenario`, `Verdict`). The bar chart's width allocation, the
  present-value closed form, and the chain from income to the verdict on a scenario.

`Basics` holds small shared vocabulary. Code that works by updating state or by loops is modelled
as methods (on the store object, or over local variables), each proved against a function or a
predicate; expressions and recursion are functions.

Four findings deserve a reader's attention.

- The batch endpoint is described as all or nothing. It is, with one exact exception: a batch that
  passed every check fails halfway exactly when some draft's current version carries an end ahead
  of the instant the batch read (`Approval.BatchApprove`). Served undisturbed from a store whose
  clock never stepped back, a batch never meets such a version (`Served.SerialBatchFinishes`). Two
  things produce one: a clock that stepped back (`Impact.AcceptedBatchCanFailHalfway`), and, with a
  clock that only moves forward and no exception, an approval that read the clock later and
  overtook the batch after its checks (`Runs.OvertakenRun`, `Runs.OvertakenExample`).
- A failed reflection hands its draft back. A version comes to stand in force without its draft
  being approved exactly when the audit write of its approval threw and the rollback then handed
  the draft back (`Protocol.UnapprovedVersionIff`; a full run in `Runs.StrandedExample`). Such a draft
  can never be approved again (`Protocol.NeverApprovedAgain`), yet it can be rejected while its
  version is in force (`Runs.RejectionRun`). No exception elsewhere does this
  (`Protocol.VersionMeansApproved`).
- The review table marks every difference the approval makes beside the id, except one: where the previous rule
  had no criteria and the draft found none of its own, the stored rule gains an empty criteria
  object and no row is marked (`ReviewMerge.CriteriaAppearUnmarked`, an exact condition). Rules whose
  criteria are absent, null or empty look the same in the table (`ReviewMerge.RowsDetermine`).
- The failure-reason screen shows what was recorded exactly when no printed item contains
  " / " followed by a known code and ": " (`Rejections.RoundTripIffReadable`).

## Model

| member | source | states |
|---|---|---|
| `RuleStore.FindVersion` | backend/src/home_compass/store/sqlite_store.py:483-485 | a version is found exactly when the table has its id, and it is that row |
| `RuleStore.ClaimIsExclusive` | backend/src/home_compass/store/sqlite_store.py:334-374 | a claim is won exactly by a caller that finds the draft pending, moves that draft alone, and makes the claim after it, for whatever decision, fail as already decided; a lost claim says whether the draft is missing |
| `RuleStore.ReleaseUndoesClaim` | backend/src/home_compass/main.py:2291-2299 | giving a claim back restores the database exactly |
| `Timeline.SupersedeIff` | backend/src/home_compass/store/sqlite_store.py:491-516 | a supersede succeeds exactly when the previous version is open and starts earlier and the new one can stand in the table; then the previous one gets its end, the new one comes last, and every other row is as before |
| `Timeline.SupersededOnce` | contracts/README.md:92-94 | the end of a version goes from unknown to known once: every later supersede of it is refused |
| `Timeline.ExactlyOneActive` | contracts/README.md:76-94 | in a chain of contiguous half-open windows exactly one version is active at any instant |
| `Timeline.SupersedeExtendsChain` | backend/src/home_compass/store/sqlite_store.py:491-516 | superseding the current version closes the open end of the chain and adds one link |
| `Timeline.OtherPoliciesUntouched` | backend/src/home_compass/store/sqlite_store.py:491-516 | superseding a version of one policy leaves the history of every other policy alone |
| `Timeline.CurrentOfChain` | backend/src/home_compass/main.py:2202-2205 | the version an approval reads as current is the one version of the chain in force |
| `Approval.ApplyApproval` | backend/src/home_compass/main.py:2202-2270 | an approval goes through exactly when its id is free and the current version is open and older; then the database gains one version, one record and one event; otherwise only its record stays behind |
| `Approval.ApplyRejection` | backend/src/home_compass/main.py:2240-2270 | a rejection goes through exactly when it has a reason that is not blank, and adds one record and one event |
| `Approval.WhatApprovalWrites` | backend/src/home_compass/main.py:2202-2270 | the version carries the id of the draft, starts now, stays open, names the version in force and merges into its payload; that version ends at the same instant and every other row is as before; record and event point at the new version |
| `Approval.WhatRejectionWrites` | backend/src/home_compass/main.py:2240-2270 | a rejection adds a record about the draft and an event without a version, and changes nothing else |
| `Approval.Decide` | backend/src/home_compass/main.py:2168-2192 | a lost claim changes nothing and is answered by whether the draft is missing or decided; a failed reflection gives the draft back and adds at most one record; success is the whole new state |
| `Approval.ReleaseClaims` | backend/src/home_compass/main.py:2291-2299 | exactly the listed drafts return to pending and nothing else changes |
| `Approval.ClaimAll` | backend/src/home_compass/main.py:2387-2398 | either every draft of the batch is claimed, or none is left claimed and the refusal names the first that is missing or decided |
| `Approval.Preflight` | backend/src/home_compass/main.py:2302-2331 | the batch is blocked exactly when an id is taken or a current version does not start before now, and the refusal names the first such draft, a taken id before the window |
| `Approval.ApplyNext` | backend/src/home_compass/main.py:2302-2331 | the preflight facts of a draft survive the drafts reflected before it, so it can only be refused for a version that has already ended; reflecting it extends the closed form by one |
| `Approval.ApplyAll` | backend/src/home_compass/main.py:2405-2419 | every draft is reflected in request order, or the batch stops at the first whose current version has ended, keeps the ones before and gives back the rest |
| `Approval.BatchApprove` | backend/src/home_compass/main.py:2334-2421 | a declined batch leaves the database as it was; the exact conditions for declining and for success; success adds one version, one record and one event per draft, in order; the residue when an accepted batch cannot be finished; which refusal a declined batch is answered with |
| `Impact.AfterPolicies` | backend/src/home_compass/main.py:2495-2505 | the loop that replaces or appends the merged payload builds the predicted list |
| `Impact.PreviewPredictsApproval` | backend/src/home_compass/main.py:2486-2507 | for any database with at most one active version of the policy, the active payloads after an undisturbed approval are, as a multiset, those the preview was judged with |
| `Impact.ChainGivesPreview` | backend/src/home_compass/main.py:223-235 | a policy whose history is a chain has exactly the one active version the preview needs |
| `Impact.PastHistoryEndsOpen` | backend/src/home_compass/main.py:2302-2331 | when no version of the policy ends after now, its current version is open, so an accepted batch cannot be refused there |
| `Impact.PastHistoryFinishes` | backend/src/home_compass/main.py:2334-2421 | when no version in the table ends after now, a batch succeeds exactly when it is acceptable |
| `Impact.OvertakenBatchStops` | backend/src/home_compass/main.py:2302-2419 | for every database: a batch of two that would have finished still passes every check after a later-dated approval of its second policy, and then has one possible outcome, the first draft reflected for good and the second refused and given back |
| `Impact.AcceptedBatchCanFailHalfway` | backend/src/home_compass/main.py:2302-2419 | one such database, a seeded one after an approval at instant 10, with every version's record as the store demands it: a batch at instant 5 passes every check, stops at its second draft, and leaves exactly the stated state |
| `Protocol.RunIsSafe` | backend/src/home_compass/main.py:2168-2192 | in every state of every run, whatever throws, a claimed draft has one holder and stands at the holder's decision |
| `Protocol.OnlyTheOwnerReleases` | backend/src/home_compass/main.py:2291-2299 | only a step of the request that holds a draft can return it to pending |
| `Protocol.SuccessIsForever` | backend/src/home_compass/main.py:2168-2192 | once a request returned success for a draft, the draft keeps that decision in every later state |
| `Protocol.AtMostOneSuccess` | backend/src/home_compass/main.py:2151-2192 | no two requests of a run ever return success for the same draft |
| `Protocol.VersionExistsIffPassed` | backend/src/home_compass/main.py:2207-2239 | while nothing throws, the version of a draft exists exactly when an approving request has passed its add step for it |
| `Protocol.AuditedVersionIsThere` | backend/src/home_compass/main.py:2228-2262 | in every run, an approval about to be audited has its version in the table |
| `Protocol.UnapprovedVersionIff` | backend/src/home_compass/main.py:2177-2192 | in every run, whatever throws: a version comes to stand in the table without its draft being approved exactly when an earlier step threw at the audit write of that draft's approval and a later step of the same request handed the draft back |
| `Protocol.VersionMeansApproved` | backend/src/home_compass/main.py:2207-2270 | as long as no audit write of the draft's approval has thrown, whatever else did, a version in the table belongs to an approved draft and to the one request that holds it |
| `Protocol.NeverApprovedAgain` | backend/src/home_compass/main.py:2207-2239 | a draft whose version stands without approval can never be approved again: no approval of it can be installed, and the only success ever reported for it later is a rejection |
| `Runs.ApprovalRun` | backend/src/home_compass/main.py:2168-2270 | an approval nobody disturbs leads the interleaved system to the database the serial decision leaves |
| `Runs.ThrownAuditStrands` | backend/src/home_compass/main.py:2177-2270 | from every state in which a draft could be approved, its approval, a throwing audit write and the rollback lead to a pending draft whose version is in the table |
| `Runs.StrandedExample` | backend/src/home_compass/main.py:2177-2270 | one such run in full, from a seeded policy, one draft and no requests |
| `Runs.RejectionRun` | backend/src/home_compass/main.py:2240-2270 | any pending draft, a stranded one too, can be rejected, and the versions in force stay as they are |
| `Runs.OvertakenRun` | backend/src/home_compass/main.py:2334-2421 | with a clock that does not step back and no exception, a batch overtaken after its checks by an approval that read the clock later fails at its second draft, for every database where the two could run |
| `Runs.OvertakenExample` | backend/src/home_compass/main.py:2334-2421 | one such run in full, from a seeded policy |
| `Protocol.RunKeepsOrder` | contracts/README.md:76-94 | with a clock that does not step back, every interleaving keeps the history of a seeded policy a chain, and version ids unique |
| `Protocol.OneVersionInForce` | backend/src/home_compass/main.py:223-235 | from one open seed version on, every reachable state has exactly one active version of the policy at every instant, and the one in force now has no end |
| `Protocol.InForceChangesOnlyForward` | backend/src/home_compass/main.py:2228-2239 | a step changes the version in force at an instant only if its request's time is not after that instant, so judgements about the past stand |
| `Protocol.RunKeepsIds` | backend/src/home_compass/store/sqlite_store.py:491-516 | no interleaving ever writes the same version id twice |
| `Served.AloneEnds` | backend/src/home_compass/main.py:2168-2421 | the calls of one request, one after the other and unthrown, have one possible end, and touch nothing but the database and that request |
| `Served.AloneRuns` | backend/src/home_compass/main.py:2168-2421 | from every state and every point a request can be at, its own calls lead it to an end |
| `Served.BatchServed` | backend/src/home_compass/main.py:2334-2421 | a batch of any length, on any store with unique version ids: if it is not acceptable the database is as before and nothing is kept; if it is and every current version is open, all drafts are reflected and approved; otherwise it stops at the first version with an end, its record and the drafts before it stay and the rest is pending again |
| `Served.DecisionServed` | backend/src/home_compass/main.py:2168-2270 | a single approval or rejection, on any store with unique version ids: the interleaved protocol left alone does what the serial decision does, in each of its five outcomes |
| `Served.LostClaimGivesBack` | backend/src/home_compass/main.py:2387-2398 | a batch that loses a claim to another request gives back exactly what it had claimed |
| `Served.ThrowServed` | backend/src/home_compass/main.py:2177-2192 | a call that throws writes nothing; while a draft is being reflected, that draft and the later ones go back to pending and the earlier ones stay decided; at any other time every claim stays as it is |
| `Served.SerialBatchFinishes` | backend/src/home_compass/main.py:2334-2421 | from every state of every run whose clock never stepped back: a batch that has just read the clock and is then served on its own ends with all of its drafts reflected exactly when it is acceptable, and otherwise with the database as before |
| `JsonValues.NoChangesIffSame` | backend/src/home_compass/main.py:2448-2467 | the diff of two JSON values is empty exactly when Python's == holds between them |
| `JsonValues.SameIffCanonical` | backend/src/home_compass/main.py:2464-2467 | Python's == holds exactly between documents that have the same canonical form, in which booleans and numbers are told apart only by what they count and everything else is kept |
| `JsonValues.NoChangesIffCanonical` | backend/src/home_compass/main.py:2448-2467 | the diff is empty exactly when the canonical forms are equal |
| `JsonValues.PathsArePrefixFree` | backend/src/home_compass/main.py:2448-2467 | no reported path is a prefix of another, and no path is reported twice |
| `JsonValues.PatchYieldsAfter` | backend/src/home_compass/main.py:2448-2467 | replacing each reported path by its new value turns the first document into one equal to the second, in whatever order the changes are applied |
| `JsonValues.PatchYieldsCanonical` | backend/src/home_compass/main.py:2448-2467 | patching the first document gives the canonical form of the second |
| `JsonValues.ChangesDiffer` | backend/src/home_compass/main.py:2448-2467 | every reported change is between two different canonical forms |
| `JsonValues.ChangesAreReal` | backend/src/home_compass/main.py:2448-2467 | every reported change names the value at its path in each document, and the two differ |
| `ReviewMerge.MergedPayload` | backend/src/home_compass/main.py:1828-1855 | the loops compute the merge function |
| `ReviewMerge.CriteriaSurvive` | backend/src/home_compass/main.py:1828-1855 | every previous criterion survives, and what the draft could not find is never applied |
| `ReviewMerge.TopLevelMerge` | backend/src/home_compass/main.py:1828-1855 | outside the criteria, a field changes only when it is one of the overridable ones and the draft said it |
| `ReviewMerge.NotFoundCriterionStays` | backend/src/home_compass/main.py:1840-1853 | a criterion whose pointer, or the pointer of all criteria, is in the list of the draft's not_found stays what it was, or absent |
| `ReviewMerge.FoundCriterionIsStored` | backend/src/home_compass/main.py:1840-1853 | a criterion the draft gives and does not list, by either pointer, is stored as given, whatever else is listed |
| `ReviewMerge.NotFoundFieldStays` | backend/src/home_compass/main.py:1840-1853 | a field whose pointer is in that list, or that a draft cannot speak about, stays what it was, or absent |
| `ReviewMerge.FoundFieldIsStored` | backend/src/home_compass/main.py:1840-1853 | a whole field the draft gives and does not list is stored as given |
| `ReviewMerge.MergeIdempotent` | backend/src/home_compass/main.py:1828-1855 | merging the same draft again changes nothing |
| `ReviewMerge.FieldChanges` | backend/src/home_compass/main.py:1993-2110 | the loops compute the table of rows |
| `ReviewMerge.EveryDifferenceHasOneRow` | backend/src/home_compass/main.py:1993-2110 | every single criterion, and every field beside the id and the criteria as a whole, that differs between the previous and the merged payload has exactly one row, and it is marked changed |
| `ReviewMerge.CriteriaAppearUnmarked` | backend/src/home_compass/main.py:1828-2110 | the criteria as a whole differ while no criterion is marked exactly when the draft's criteria apply, the previous payload had no criteria object, and the draft found none of its criteria |
| `ReviewMerge.CriteriaAppearUnmarkedExample` | backend/src/home_compass/main.py:1828-2110 | it happens on the first version of a policy whose only criterion is null and reported as not found |
| `ReviewMerge.ChangedMeansSaid` | backend/src/home_compass/main.py:1971-2110 | a row is marked changed only if the draft gave a value or an explicit null, and then shows the draft's value; otherwise before and after agree |
| `ReviewMerge.RowQuotes` | backend/src/home_compass/main.py:1971-2110 | every row shows the two values found in the two rules, is marked exactly when their presence or canonical form differs, classifies what the draft said by its own value and list, and warns exactly when a non-empty list would be emptied |
| `ReviewMerge.RowsRebuildMerged` | backend/src/home_compass/main.py:1993-2110 | the rows give back every criterion and every field of the merged payload beside its id and the key of the criteria themselves |
| `ReviewMerge.RowsDetermine` | backend/src/home_compass/main.py:1993-2110 | two payloads have the same rows exactly when they agree on every criterion and every other field; criteria that are absent, null or empty look the same |
| `ReviewMerge.RowsRebuildStored` | backend/src/home_compass/main.py:1828-2110 | the rows together with the draft, the previous payload and the policy id rebuild the stored payload whole |
| `Segments.HighlightSegments` | backend/src/home_compass/main.py:1867-1907 | for any text and any spans, the pieces are non-empty and join to the text, each character's piece lists exactly the spans over it, and each span's quotation is a run of whole pieces at its place |
| `Segments.PathShownIff` | backend/src/home_compass/main.py:1899-1905 | a path is listed on a character exactly when some span with that path covers it |
| `Pointers.ResolvePointer` | backend/src/home_compass/ingest/extraction_verify.py:227-250 | the loop follows the pointer's tokens one by one and fails on the first that leads nowhere |
| `Pointers.UnescapeEscape` | backend/src/home_compass/ingest/extraction_verify.py:227-250 | replacing "~1" then "~0" undoes the escaping of a member name |
| `Pointers.ResolvePrinted` | backend/src/home_compass/ingest/extraction_verify.py:227-250 | the pointer written for a path of a document resolves to the value at that path |
| `Pointers.ResolveIff` | backend/src/home_compass/ingest/extraction_verify.py:227-250 | a pointer resolves to a value exactly when it is empty and the value is the document, or its pieces name, one by one, the steps of a path of the document that leads to the value |
| `Pointers.SplitSlashIs` | backend/src/home_compass/ingest/extraction_verify.py:238 | the pieces of a pointer hold no slash, and with slashes between them they are the pointer again |
| `Pointers.UnfoldIs` | backend/src/home_compass/ingest/extraction_verify.py:239 | a replacement leaves a text without its mark alone, and otherwise replaces the first mark and goes on behind it |
| `Digits.ReadIff` | backend/src/home_compass/ingest/extraction_verify.py:244-247 | a text reads as an index exactly when it is the printed number behind any number of zeros |
| `Quotes.CountIsLargestPacking` | backend/src/home_compass/ingest/extraction_verify.py:210-217 | the greedy count of a quotation is the largest number of pairwise disjoint occurrences |
| `Quotes.UnambiguousIffOverlapping` | backend/src/home_compass/ingest/extraction_verify.py:165-168 | a quotation counts at most once exactly when any two places where it stands overlap |
| `Quotes.LocateQuote` | backend/src/home_compass/ingest/extraction_verify.py:192-207 | a quotation is located at its least occurrence, or nowhere when it is empty or does not occur |
| `Quotes.LocatedIffCounted` | backend/src/home_compass/ingest/extraction_verify.py:192-217 | a quotation is located exactly when it is counted at least once |
| `Verifier.EnvelopeRejections` | backend/src/home_compass/ingest/extraction_verify.py:267-308 | no complaint exactly when the envelope has the required shape; otherwise exactly the ill-shaped entries are complained about |
| `Verifier.CheckNotFound` | backend/src/home_compass/ingest/extraction_verify.py:366-379 | no complaint exactly when every pointer reported as not found resolves to an empty value; exactly the faulty pointers are complained about, each with its fault |
| `Verifier.VerifyQuote` | backend/src/home_compass/ingest/extraction_verify.py:455-509 | a quotation passes exactly when it is non-empty and matches its offsets, or without offsets occurs; otherwise one reason, and it fits |
| `Verifier.CheckEntry` | backend/src/home_compass/ingest/extraction_verify.py:386-419 | an entry passes exactly when its path is new, required and not covered, and its quotation holds; the reason is the first check it fails |
| `Verifier.Verify` | backend/src/home_compass/ingest/extraction_verify.py:332-443 | an extraction is accepted exactly when it meets the independent definition of acceptance; then there is one true span per required path in canonical order; structural and content reasons never mix; the complaints are complete, each about one pointer or path and its first fault, and none is made up |
| `Verifier.CanonicalIsRequired` | backend/src/home_compass/ingest/extraction_verify.py:321-329 | the canonical order lists exactly the required paths |
| `Verifier.CanonicalIsDistinct` | backend/src/home_compass/ingest/extraction_verify.py:321-329 | and lists none of them twice |
| `Verifier.CanonicalIsOrdered` | backend/src/home_compass/ingest/extraction_verify.py:321-329 | the order is that of the evidence list, with the checks behind it in their own order |
| `Rejections.RoundTripIffReadable` | admin/app.js:254-266 | for every list of reasons, the screen recovers codes and details exactly when no printed item holds a separator that a known code follows |
| `Rejections.SplitLosesNothing` | admin/app.js:256-258 | for any text, joining the chunks with " / " restores it |
| `Rejections.ChunkReadsBack` | admin/app.js:259-264 | one printed reason reads back as its code and detail |
| `Rejections.ChunkIs` | admin/app.js:259-264 | any chunk is shown with a label exactly when it is a label, ": " and a detail, and whole otherwise; its pointer is the detail up to the first white space or colon, exactly when the detail starts with a slash |
| `Extraction.AttemptOnce` | backend/src/home_compass/ingest/extraction.py:163-194 | a call yields an extraction exactly when its answer is acceptable, and otherwise at least one reason |
| `Extraction.Attempt` | backend/src/home_compass/ingest/extraction.py:161-194 | for any sequence of answers the loop stops at the first accepted or unavailable one or at the limit; each call has its reasons and their codes on file, and is told, as printed, the reasons of the call before it |
| `Extraction.StoreSuccess` | backend/src/home_compass/ingest/extraction.py:261-351 | the draft stays pending exactly when the store accepts every span, with its payload and one row per span; otherwise it is marked failed at the first refused span, whose path is the reason, and the rows before it stay |
| `Extraction.StoreFailure` | backend/src/home_compass/ingest/extraction.py:354-395 | the draft is stored as failed with no rule content and a reason that is never empty, plus one audit event |
| `Extraction.ExtractOne` | backend/src/home_compass/ingest/extraction.py:113-208 | every extraction ends within its attempts with exactly one new draft and one audit event, pending exactly when the last answer is acceptable; no error path touches the store; the recorded and returned reasons are the last call's, as printed, and the event carries the codes of every call |
| `Extraction.VerifiedSpansAreStorable` | backend/src/home_compass/store/validation.py:88-112 | every span of a verified extraction passes the store's own validation |
| `Extraction.NextIdIsFree` | backend/src/home_compass/ingest/extraction.py:228-236 | on a store filled by extractions the next draft id is free, and stays so after each one |
| `Extraction.FoldKeepsOrder` | backend/src/home_compass/ingest/extraction.py:367 | codes are folded in the order in which they first appear |
| `Extraction.AmbiguousAre` | backend/src/home_compass/ingest/extraction.py:340-349 | the ambiguous spans noted and counted are exactly those whose quotation counts more than once |
| `Decimal.Decompose` | frontend/format.js:36-52 | the parts taken from the two words are the datum's own, and reconstruct the IEEE 754 value of every finite double exactly |
| `Decimal.PartsIdentify` | frontend/format.js:36-52 | two doubles from which the same parts are taken are the same double |
| `Decimal.ScaledRoundHalfEven` | frontend/format.js:54-65 | the result is the integer nearest to the scaled magnitude, ties to even |
| `Decimal.DecimalString` | frontend/format.js:71-85 | refused exactly when not finite; otherwise the sign, no superfluous zero, exactly the asked number of fraction digits, and digits that read as the rounded magnitude |
| `Decimal.ReadsBack` | frontend/format.js:71-85 | a printed string gives back its sign, its integer and its number of places |
| `Decimal.ShownOneWay` | frontend/format.js:71-85 | a sign, an integer and a number of places have only one string |
| `Rounding.HalfEvenIsNearest` | frontend/format.js:54-65 | rounding half to even gives a nearest integer, ties to even |
| `Rounding.OnlyHalfEvenIsNearest` | frontend/format.js:54-65 | and it is the only integer that is |
| `Money.ToIntIsNearest` | backend/src/home_compass/common.py:45-59 | coercion to won goes to the nearest, halves away from zero, the same on both sides of zero |
| `Money.Group` | frontend/format.js:116-124 | the comma loop groups every natural number as Python's thousands separator does |
| `Money.GroupUndone` | frontend/format.js:116-124 | removing the commas gives the plain digits back |
| `Money.MoneyInScript` | frontend/format.js:129-141 | the JavaScript money string equals the Python one for every amount |
| `Money.MoneyReadsBack` | backend/src/home_compass/common.py:67-96 | a money string reads back as the rounded amount, with a minus exactly for negative amounts |
| `Money.MeantIsClose` | backend/src/home_compass/common.py:67-96 | what is read back is within 5,000 won, exact below 10,000, and on the same side of zero |
| `Money.ReadingIsMonotone` | backend/src/home_compass/common.py:67-96 | a larger amount never reads as a smaller one, across all three forms |
| `Money.ManPartIsProper` | backend/src/home_compass/common.py:85-91 | in the 억 form the 만 part is below 10,000 after the carry |
| `Bars.Allocate` | frontend/app.js:323-341 | the loop ends; one rate gives every width as the larger of the floor and the proportional share; widths sum to what is available |
| `Bars.NotAllSmall` | frontend/app.js:328-341 | in no round are all open segments too small |
| `Bars.StackedBar` | frontend/app.js:310-341 | widths and gaps together fill the bar's extent, which is the whole width or in proportion to the given maximum |
| `Bars.LargerIsNotNarrower` | frontend/app.js:327-341 | no segment is below the floor, and a larger value never gets a smaller width |
| `Bars.WidthsAreForced` | frontend/app.js:327-341 | floor and total width leave no choice of widths |
| `Npv.ClosedForm` | backend/src/home_compass/engines/tco.py:38-39 | the factor formula equals the sum of the payments, the k-th divided by (1 + r)^k |
| `Npv.NpvIsDiscountedSum` | backend/src/home_compass/engines/tco.py:31-39 | the figure is the nearest integer to that sum, ties to even, hence within one half |
| `Npv.PaymentWaits` | backend/src/home_compass/engines/tco.py:35-39 | a payment now is worth itself, and one a month later is worth that much less by one month's rate |
| `Npv.NpvFallsWithRate` | backend/src/home_compass/engines/tco.py:31-39 | a higher rate never raises the figure, and it never exceeds the rounded undiscounted total |
| `Npv.NpvGrowsWithCost` | backend/src/home_compass/engines/tco.py:31-39 | a larger monthly cost never has a smaller present value |
| `Npv.MonthlyRatesMoveTogether` | backend/src/home_compass/engines/tco.py:35 | a yearly rate has at most one monthly rate, and the two move together |
| `Npv.SignOfMonthlyRate` | backend/src/home_compass/engines/tco.py:35-37 | the monthly rate is at most zero exactly when the yearly one is |
| `Scenario.FloorToBounds` | backend/src/home_compass/common.py:29-33 | the result is a multiple of the unit, at most the value and less than one unit below it |
| `Scenario.FloorToGreatest` | backend/src/home_compass/common.py:29-33 | no multiple of the unit lies between the result and the value |
| `Scenario.MaxCostIsLargest` | backend/src/home_compass/engines/affordability.py:82-88 | a positive maximum is the largest whole 10,000 won within both caps |
| `Scenario.AffordableLeavesRoom` | backend/src/home_compass/engines/affordability.py:78-95 | recommended is at most the maximum, and a positive maximum leaves income for living cost, debt and buffer |
| `Scenario.HouseholdLeavesRoom` | backend/src/home_compass/engines/affordability.py:60-95 | the same for the raw inputs, coercions and the estimate from yearly income included |
| `Scenario.RecommendedIsLargest` | backend/src/home_compass/engines/affordability.py:88-95 | the recommended amount is the largest whole 10,000 won within the registry's share of the maximum |
| `Scenario.AssessReads` | backend/src/home_compass/engines/affordability.py:68-95 | each answer of the household is read into its own figure |
| `Scenario.NetIncomeIs` | backend/src/home_compass/engines/affordability.py:68-75 | a positive monthly income counts as given; otherwise the whole part of a twelfth of the yearly income times its share; otherwise there is none |
| `Scenario.BufferIs` | backend/src/home_compass/engines/affordability.py:83 | the buffer is the whole part of its share of the income |
| `Scenario.LivingCostIs` | backend/src/home_compass/engines/affordability.py:30-39 | a tabulated household costs what the table says, any other the largest one's cost plus the extra for each person more, or less it for each person fewer |
| `Scenario.SafeIntIs` | backend/src/home_compass/common.py:36-42 | a coerced amount is the nearest whole number, ties to even, and never below zero |
| `Scenario.MaxCostMoves` | backend/src/home_compass/engines/affordability.py:78-88 | more income never lowers the maximum, more living cost or debt never raises it |
| `Scenario.LivingCostGrows` | backend/src/home_compass/engines/affordability.py:30-39 | with every size up to the largest tabulated in non-decreasing order, a larger household never has a smaller living cost |
| `Scenario.SizeLoanIsLargest` | backend/src/home_compass/engines/tco.py:78-89 | for the raw inputs, coercions included, the loan is the largest multiple of the unit within the gap, the loan-to-value share and the product cap |
| `Scenario.GuaranteeRateIsBracketMax` | backend/src/home_compass/engines/tco.py:42-75 | the rate is the highest of the deposit's bracket; the lookup fails exactly on an unknown rule or when no bracket holds the deposit |
| `Verdict.RaisingRentNeverHelps` | backend/src/home_compass/engines/tco.py:143-229 | raising the rent alone never lowers total, monthly equivalent or present value, and never improves the verdict or the score |
| `Verdict.TotalIsExactCost` | backend/src/home_compass/engines/tco.py:143-168 | the total is interest on the loan, the forgone return on own capital, the guarantee fee when the deposit is guaranteed and the running payments, off by the rounding of three charges only; the deposit itself is no cost |
| `Verdict.ComponentsAre` | backend/src/home_compass/engines/tco.py:156-167 | each of the five components is its own yearly charge over the horizon, rounded to the nearest won, or its running payment; the fee is charged exactly when the deposit can be guaranteed |
| `Verdict.EvaluationIs` | backend/src/home_compass/engines/tco.py:92-229 | a scenario is evaluated exactly when its guarantee rate is found; its components are then judged against the household's two limits, with the scores for capital and preference |
| `Verdict.JudgeIs` | backend/src/home_compass/engines/tco.py:168-229 | the present value is the discounted sum of the monthly cost, rounded; the verdict follows the two limits; the score is the rounded sum of the three scores, held between 0 and 100 |
| `Verdict.AffordScoreIs` | backend/src/home_compass/engines/tco.py:201-214 | within the recommended amount the weight counts whole, above it every share of an overrun costs the slope, down to nothing |
| `Verdict.CapitalScoreIs` | backend/src/home_compass/engines/tco.py:216-222 | own capital counts by the share of it the household has |
| `Verdict.MoreAssetsNeverHurt` | backend/src/home_compass/engines/tco.py:204-229 | more liquid assets change no cost and no verdict and never lower the score |
| `Verdict.MonthlyIsClose` | backend/src/home_compass/engines/tco.py:168-171 | the monthly equivalent is the cost per month, or zero when that is negative, less a rounding below one unit, and the score is within 0 to 100 |
| `Verdict.VerdictLeavesRoom` | backend/src/home_compass/engines/tco.py:194-202 | the verdict is exact against the household's limits, and anything but unaffordable leaves income for living cost, debt and buffer |
| `Verdict.EvaluationLeavesRoom` | backend/src/home_compass/engines/tco.py:92-229 | the two engines put together: an evaluated scenario that is not unaffordable fits the household's income |

## Left out

- Npv.MonthlyRatesMoveTogether: that a twelfth root exists is not proved; the monthly rate is a parameter tied to its twelfth power. A yearly rate below -100 percent, where Python leaves the reals, has none.
- The Schwabe index beside the monthly figure: one division and a rounding.
- Money.ToIntIsNearest: values that are not numbers are not part of this model (the two languages treat an infinity differently).
- Json objects are maps, so the order of members, and with it the order of reported changes, is not modelled; paths are lists of tokens, not the rendered strings, which may coincide when a member name contains a slash.
- Floating-point rounding inside the engines and the bar chart, and the conversion of a decimal string back to a double; the numbers there are exact reals.
- JavaScript integers above 2^53 in `money` and `group`.
- The detail text of verifier reasons: a reason carries its code and the pointer or position it is about.
- Evidence and note texts of the review table, provenance, identifiers drawn at random, latency and token counts, and the names of audit ids.
- The text sent to the model for a repair, and the model itself: calls are an arbitrary sequence of answers and failures.
- JSON Schema validation: a function to a list of complaints, assumed to guarantee the three members the verifier reads.
- SQLite: the store calls are atomic functions on the database value with the constraints the schema and the validators state.
- Requests refused for an empty or repeating list of drafts do not enter the interleaving; the serial batch method covers them. Approvals that open the history of a brand-new policy concurrently are outside the timeline claim.
- Unicode digits other than 0-9 in array positions of pointers.
- Routing, sessions, permissions, cookies, seeding, ingestion of regions and policies, and configuration.
- The eligibility and risk engines, rationale sentences, and the copy of the engines in JavaScript.
- The affordability band and the sorting of scenarios, settled by reading their branches.
