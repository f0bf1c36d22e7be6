// Deciding drafts, one at a time and in batches, as a single request runs it
// (main.py, _decide, _apply_decision, _release_claims, _approval_preflight, _batch_approve).
module Approval {
  import opened Basics
  import opened JsonValues
  import opened ReviewMerge
  import opened RuleStore
  import opened Timeline

  datatype Session = Session(userId: string, username: string)

  datatype Refusal =
    | DraftIdsRequired
    | DuplicateDraftId
    | DraftNotFound(id: string)
    | DraftAlreadyDecided(status: Status)
    | DuplicatePolicyTarget
    | RuleVersionExists(versionId: string)
    | WindowConflict(policyId: string)

  datatype Receipt = Receipt(draftId: string, decision: Status, versionId: Option<string>, at: int)

  // `Raised` is an exception leaving the handler: the caller sees a server error.
  datatype Reply<+T> = Success(value: T) | Declined(refusal: Refusal) | Raised

  function VersionId(draftId: string): string { "approval:" + draftId }

  lemma VersionIdsDiffer(a: string, b: string)
    requires a != b
    ensures VersionId(a) != VersionId(b)
  {
    assert VersionId(a)[9..] == a && VersionId(b)[9..] == b;
  }

  // ---- What one decision writes ----------------------------------------------------------

  function PayloadOf(previous: Option<Version>): Dict {
    if previous.Some? then previous.value.payload else map[]
  }

  function NewVersion(previous: Option<Version>, id: string, draft: Draft, session: Session, now: int): Version {
    Version(VersionId(id), draft.policyId, Merged(PayloadOf(previous), draft.policyId, draft.payload), HumanApproval,
            Some(now), None, if previous.Some? then Some(previous.value.id) else None, Some(session.userId))
  }

  function RecordOf(id: string, decision: Status, reason: Option<string>, session: Session, now: int): Approval {
    if decision == Approved
    then Approval(session.userId, now, "rule_version", VersionId(id), decision, if reason == Some("") then None else reason)
    else Approval(session.userId, now, "rule_draft", id, decision, reason)
  }

  function EventOf(id: string, draft: Draft, decision: Status, session: Session, now: int): AuditEvent {
    AuditEvent(session.username, now, if decision == Approved then "rule.approve" else "rule.reject", id, "success",
               map["policyId" := Str(draft.policyId), "ruleVersionId" := if decision == Approved then Str(VersionId(id)) else Null])
  }

  function ReceiptOf(id: string, decision: Status, now: int): Receipt {
    Receipt(id, decision, if decision == Approved then Some(VersionId(id)) else None, now)
  }

  // Every reason the store has to refuse the new version, readable before anything is written.
  predicate CanInstall(db: Db, id: string, draft: Draft, now: int) {
    !HasVersion(db.versions, VersionId(id))
    && match Current(db.versions, draft.policyId, now)
       case None => true
       case Some(previous) => previous.to.None? && (previous.from.Some? ==> previous.from.value < now)
  }

  // The database after an approval went through.
  function Reflected(db: Db, id: string, draft: Draft, reason: Option<string>, session: Session, now: int): Db {
    var previous := Current(db.versions, draft.policyId, now);
    db.(versions := (if previous.Some? then Close(db.versions, previous.value.id, now) else db.versions)
                    + [NewVersion(previous, id, draft, session, now)],
        approvals := db.approvals + [RecordOf(id, Approved, reason, session, now)],
        audit := db.audit + [EventOf(id, draft, Approved, session, now)])
  }

  method ApplyApproval(store: Store, session: Session, id: string, draft: Draft, reason: Option<string>, now: int) returns (r: Option<Receipt>)
    requires UniqueIds(store.db.versions) && session.userId != ""
    modifies store
    ensures r.Some? <==> CanInstall(old(store.db), id, draft, now)
    ensures r.Some? ==> r.value == ReceiptOf(id, Approved, now) && store.db == Reflected(old(store.db), id, draft, reason, session, now)
    ensures r.None? ==> store.db == old(store.db).(approvals := old(store.db).approvals + [RecordOf(id, Approved, reason, session, now)])
  {
    var previous := Current(store.db.versions, draft.policyId, now);
    CurrentIsActive(store.db.versions, draft.policyId, now);
    var version := NewVersion(previous, id, draft, session, now);
    // The record goes first: the store demands it before a human-approved version.
    var record := RecordOf(id, Approved, reason, session, now);
    var ok := store.RecordApproval(record);
    assert record in store.db.approvals && record.targetId == version.id;
    if previous.None? {
      ok := store.InstallFirst(version);
    } else {
      FoundById(store.db.versions, previous.value);
      ok := store.InstallOver(previous.value.id, version, now);
    }
    if !ok {
      return None;
    }
    store.Audit(EventOf(id, draft, Approved, session, now));
    r := Some(ReceiptOf(id, Approved, now));
  }

  lemma FoundById(versions: seq<Version>, v: Version)
    requires UniqueIds(versions) && v in versions
    ensures FindVersion(versions, v.id) == Some(v)
  {
    assert HasVersion(versions, v.id);
    SameIdSameVersion(versions, FindVersion(versions, v.id).value, v);
  }

  // The database after a rejection went through: no version, one record, one event.
  function TurnedDown(db: Db, id: string, draft: Draft, reason: Option<string>, session: Session, now: int): Db {
    db.(approvals := db.approvals + [RecordOf(id, Rejected, reason, session, now)],
        audit := db.audit + [EventOf(id, draft, Rejected, session, now)])
  }

  method ApplyRejection(store: Store, session: Session, id: string, draft: Draft, reason: Option<string>, now: int) returns (r: Option<Receipt>)
    modifies store
    ensures r.Some? <==> reason.Some? && !Blank(reason.value)
    ensures r.Some? ==> r.value == ReceiptOf(id, Rejected, now)
    ensures r.Some? ==> store.db == TurnedDown(old(store.db), id, draft, reason, session, now)
    ensures r.None? ==> store.db == old(store.db)
  {
    var ok := store.RecordApproval(RecordOf(id, Rejected, reason, session, now));
    if !ok {
      return None;
    }
    store.Audit(EventOf(id, draft, Rejected, session, now));
    r := Some(ReceiptOf(id, Rejected, now));
  }

  // ---- One draft -------------------------------------------------------------------------

  // Pending drafts carry no failure reason, so claiming and releasing one restores it exactly.
  ghost predicate PendingIsClean(db: Db) {
    forall d | d in db.drafts && db.drafts[d].status == Pending :: db.drafts[d].failureReason == None
  }

  // What the caller of a draft that cannot be decided is told.
  function RefusalFor(db: Db, id: string): Refusal {
    if id in db.drafts then DraftAlreadyDecided(db.drafts[id].status) else DraftNotFound(id)
  }

  method Decide(store: Store, session: Session, id: string, draft: Draft, decision: Status, reason: Option<string>, now: int) returns (r: Reply<Receipt>)
    requires UniqueIds(store.db.versions) && PendingIsClean(store.db) && session.userId != ""
    requires decision == Approved || decision == Rejected
    modifies store
    ensures r.Declined? <==> id !in old(store.db).drafts || old(store.db).drafts[id].status != Pending
    ensures r.Declined? ==> store.db == old(store.db) && r.refusal == RefusalFor(old(store.db), id)
    ensures r.Raised? <==> !r.Declined? && !(if decision == Approved then CanInstall(old(store.db), id, draft, now) else reason.Some? && !Blank(reason.value))
    ensures r.Success? && decision == Approved ==> store.db == Reflected(ClaimPending(old(store.db), id, Approved).value, id, draft, reason, session, now)
    ensures r.Success? && decision == Rejected ==> store.db == TurnedDown(ClaimPending(old(store.db), id, Rejected).value, id, draft, reason, session, now)
    ensures r.Success? ==> r.value == ReceiptOf(id, decision, now)
    ensures r.Raised? ==> store.db == old(store.db).(approvals := store.db.approvals)
    ensures r.Raised? ==> old(store.db).approvals <= store.db.approvals && |store.db.approvals| <= |old(store.db).approvals| + 1
  {
    var lost := store.Claim(id, decision);
    if lost.Some? {
      return Declined(if lost.value.NotFoundError? then DraftNotFound(id) else DraftAlreadyDecided(store.db.drafts[id].status));
    }
    var applied;
    if decision == Approved {
      applied := ApplyApproval(store, session, id, draft, reason, now);
    } else {
      applied := ApplyRejection(store, session, id, draft, reason, now);
    }
    if applied.None? {
      var released := store.SetDraftStatus(id, Pending, None);
      assert store.db.drafts == old(store.db).drafts;
      return Raised;
    }
    r := Success(applied.value);
  }

  // ---- Batches ---------------------------------------------------------------------------

  function MarkAll(drafts: map<string, Draft>, ids: seq<string>, status: Status): map<string, Draft> {
    map d | d in drafts :: if d in ids then Marked(drafts[d], status, None) else drafts[d]
  }

  method ReleaseClaims(store: Store, ids: seq<string>)
    requires forall id | id in ids :: id in store.db.drafts
    modifies store
    ensures store.db == old(store.db).(drafts := MarkAll(old(store.db).drafts, ids, Pending))
  {
    for i := 0 to |ids|
      invariant store.db == old(store.db).(drafts := MarkAll(old(store.db).drafts, ids[..i], Pending))
    {
      assert ids[i] in ids;
      assert ids[..i + 1] == ids[..i] + [ids[i]];
      var ok := store.SetDraftStatus(ids[i], Pending, None);
    }
    assert ids[..|ids|] == ids;
  }

  ghost predicate Distinct(ids: seq<string>) {
    forall i, j | 0 <= i < j < |ids| :: ids[i] != ids[j]
  }

  ghost predicate AllPending(db: Db, ids: seq<string>) {
    forall id | id in ids :: id in db.drafts && db.drafts[id].status == Pending
  }

  // The refusal names the first draft that is missing or not pending.
  ghost predicate FirstUnclaimable(db: Db, ids: seq<string>, refusal: Refusal) {
    exists i :: 0 <= i < |ids| && AllPending(db, ids[..i]) && !AllPending(db, [ids[i]]) && refusal == RefusalFor(db, ids[i])
  }

  // Claims one draft after the other; the first loss gives back everything claimed so far.
  method ClaimAll(store: Store, ids: seq<string>) returns (claim: Reply<seq<Receipt>>)
    requires PendingIsClean(store.db) && Distinct(ids)
    modifies store
    ensures !claim.Raised? && (claim.Success? <==> AllPending(old(store.db), ids))
    ensures claim.Success? ==> store.db == old(store.db).(drafts := MarkAll(old(store.db).drafts, ids, Approved))
    ensures claim.Declined? ==> store.db == old(store.db) && FirstUnclaimable(old(store.db), ids, claim.refusal)
  {
    for i := 0 to |ids|
      invariant AllPending(old(store.db), ids[..i])
      invariant store.db == old(store.db).(drafts := MarkAll(old(store.db).drafts, ids[..i], Approved))
    {
      assert ids[..i + 1] == ids[..i] + [ids[i]];
      var refused := store.Claim(ids[i], Approved);
      if refused.Some? {
        ReleaseClaims(store, ids[..i]);
        assert store.db.drafts == old(store.db).drafts;
        assert ids[i] in ids;
        return Declined(if refused.value.NotFoundError? then DraftNotFound(ids[i]) else DraftAlreadyDecided(store.db.drafts[ids[i]].status));
      }
    }
    assert ids[..|ids|] == ids;
    claim := Success([]);
  }

  // The window test of the preflight. It looks at the start of the current version only.
  predicate StartsInTime(db: Db, draft: Draft, now: int) {
    var previous := Current(db.versions, draft.policyId, now);
    previous.Some? && previous.value.from.Some? ==> previous.value.from.value < now
  }

  ghost predicate PreflightPasses(db: Db, drafts: map<string, Draft>, ids: seq<string>, now: int)
    requires forall id | id in ids :: id in drafts
  {
    forall i | 0 <= i < |ids| :: !HasVersion(db.versions, VersionId(ids[i])) && StartsInTime(db, drafts[ids[i]], now)
  }

  // The refusal names the first draft that fails its test, the taken id before the window.
  ghost predicate FirstBlocked(db: Db, drafts: map<string, Draft>, ids: seq<string>, now: int, refusal: Refusal)
    requires forall id | id in ids :: id in drafts
  {
    exists i ::
      && 0 <= i < |ids| && PreflightPasses(db, drafts, ids[..i], now)
      && if HasVersion(db.versions, VersionId(ids[i])) then refusal == RuleVersionExists(VersionId(ids[i]))
         else !StartsInTime(db, drafts[ids[i]], now) && refusal == WindowConflict(drafts[ids[i]].policyId)
  }

  method Preflight(store: Store, drafts: map<string, Draft>, ids: seq<string>, now: int) returns (blocked: Option<Refusal>)
    requires forall id | id in ids :: id in drafts
    ensures blocked.None? <==> PreflightPasses(store.db, drafts, ids, now)
    ensures blocked.Some? ==> FirstBlocked(store.db, drafts, ids, now, blocked.value)
  {
    for i := 0 to |ids|
      invariant PreflightPasses(store.db, drafts, ids[..i], now)
    {
      assert ids[i] in ids;
      if FindVersion(store.db.versions, VersionId(ids[i])).Some? {
        return Some(RuleVersionExists(VersionId(ids[i])));
      }
      if !StartsInTime(store.db, drafts[ids[i]], now) {
        return Some(WindowConflict(drafts[ids[i]].policyId));
      }
    }
    assert ids[..|ids|] == ids;
    blocked := None;
  }

  // The versions that stay open until this request closes them. The preflight does not ask this.
  predicate EndsOpen(db: Db, draft: Draft, now: int) {
    var previous := Current(db.versions, draft.policyId, now);
    previous.Some? ==> previous.value.to.None?
  }

  function CloseAll(versions: seq<Version>, ids: set<string>, at: int): (r: seq<Version>)
    ensures |r| == |versions|
  {
    seq(|versions|, i requires 0 <= i < |versions| => if versions[i].id in ids then versions[i].(to := Some(at)) else versions[i])
  }

  // The ids of the versions in force when the request began, one per draft that has one.
  function PreviousIds(db: Db, drafts: map<string, Draft>, ids: seq<string>, now: int): set<string>
    requires forall id | id in ids :: id in drafts
  {
    set id | id in ids && Current(db.versions, drafts[id].policyId, now).Some? :: Current(db.versions, drafts[id].policyId, now).value.id
  }

  function NewVersions(db: Db, drafts: map<string, Draft>, ids: seq<string>, session: Session, now: int): (r: seq<Version>)
    requires forall id | id in ids :: id in drafts
    ensures |r| == |ids|
    ensures forall i | 0 <= i < |ids| :: r[i] == NewVersion(Current(db.versions, drafts[ids[i]].policyId, now), ids[i], drafts[ids[i]], session, now)
  {
    seq(|ids|, i requires 0 <= i < |ids| => NewVersion(Current(db.versions, drafts[ids[i]].policyId, now), ids[i], drafts[ids[i]], session, now))
  }

  function Records(ids: seq<string>, reason: Option<string>, session: Session, now: int): (r: seq<Approval>)
    ensures |r| == |ids| && forall i | 0 <= i < |ids| :: r[i] == RecordOf(ids[i], Approved, reason, session, now)
  {
    seq(|ids|, i requires 0 <= i < |ids| => RecordOf(ids[i], Approved, reason, session, now))
  }

  function Events(drafts: map<string, Draft>, ids: seq<string>, session: Session, now: int): (r: seq<AuditEvent>)
    requires forall id | id in ids :: id in drafts
    ensures |r| == |ids| && forall i | 0 <= i < |ids| :: r[i] == EventOf(ids[i], drafts[ids[i]], Approved, session, now)
  {
    seq(|ids|, i requires 0 <= i < |ids| => EventOf(ids[i], drafts[ids[i]], Approved, session, now))
  }

  // One version, one record and one event per draft, in request order, all computed from
  // the database as the request found it.
  function Applied(db: Db, drafts: map<string, Draft>, ids: seq<string>, reason: Option<string>, session: Session, now: int): Db
    requires forall id | id in ids :: id in drafts
  {
    db.(versions := CloseAll(db.versions, PreviousIds(db, drafts, ids, now), now) + NewVersions(db, drafts, ids, session, now),
        approvals := db.approvals + Records(ids, reason, session, now),
        audit := db.audit + Events(drafts, ids, session, now))
  }

  ghost predicate DistinctPolicies(drafts: map<string, Draft>, ids: seq<string>) {
    (forall id | id in ids :: id in drafts) && forall i, j | 0 <= i < j < |ids| :: drafts[ids[i]].policyId != drafts[ids[j]].policyId
  }

  // A policy none of the applied drafts speaks about reads as it did before.
  lemma OthersReadAsBefore(db: Db, drafts: map<string, Draft>, ids: seq<string>, reason: Option<string>, session: Session, now: int, p: string)
    requires UniqueIds(db.versions) && forall id | id in ids :: id in drafts
    requires forall id | id in ids :: drafts[id].policyId != p
    ensures Current(Applied(db, drafts, ids, reason, session, now).versions, p, now) == Current(db.versions, p, now)
  {
    var closing := PreviousIds(db, drafts, ids, now);
    var next := Applied(db, drafts, ids, reason, session, now).versions;
    var closed := next[..|db.versions|];
    assert next == closed + next[|db.versions|..];
    forall v | v in db.versions && v.policyId == p ensures v.id !in closing {
      if v.id in closing {
        var id :| id in ids && Current(db.versions, drafts[id].policyId, now).Some? && Current(db.versions, drafts[id].policyId, now).value.id == v.id;
        CurrentIsActive(db.versions, drafts[id].policyId, now);
        SameIdSameVersion(db.versions, v, Current(db.versions, drafts[id].policyId, now).value);
      }
    }
    assert closed == CloseAll(db.versions, closing, now);
    assert next[|db.versions|..] == NewVersions(db, drafts, ids, session, now);
    OfCloseAll(db.versions, closing, now, p);
    OfConcat(closed, next[|db.versions|..], p);
    OfNothing(next[|db.versions|..], p);
    assert Of(next, p) == Of(db.versions, p);
    OfActive(next, p, now);
    OfActive(db.versions, p, now);
  }

  lemma {:induction false} OfCloseAll(vs: seq<Version>, ids: set<string>, at: int, p: string)
    requires forall v | v in vs && v.policyId == p :: v.id !in ids
    ensures Of(CloseAll(vs, ids, at), p) == Of(vs, p)
  {
    if vs != [] {
      assert vs[0] in vs;
      assert CloseAll(vs, ids, at)[1..] == CloseAll(vs[1..], ids, at);
      OfCloseAll(vs[1..], ids, at, p);
    }
  }

  lemma {:induction false} OfNothing(vs: seq<Version>, p: string)
    requires forall v | v in vs :: v.policyId != p
    ensures Of(vs, p) == []
  {
    if vs != [] { assert vs[0] in vs; OfNothing(vs[1..], p); }
  }

  // Old versions keep their ids, and each draft adds its own.
  ghost predicate NewIds(earlier: seq<Version>, after: seq<Version>, ids: seq<string>) {
    |after| == |earlier| + |ids|
    && forall i | 0 <= i < |after| :: after[i].id == if i < |earlier| then earlier[i].id else VersionId(ids[i - |earlier|])
  }

  lemma AppliedIds(db: Db, drafts: map<string, Draft>, ids: seq<string>, reason: Option<string>, session: Session, now: int)
    requires forall id | id in ids :: id in drafts
    ensures NewIds(db.versions, Applied(db, drafts, ids, reason, session, now).versions, ids)
  {
  }

  ghost predicate AllFree(versions: seq<Version>, ids: seq<string>) { forall i | 0 <= i < |ids| :: !HasVersion(versions, VersionId(ids[i])) }

  lemma UniqueWithNew(earlier: seq<Version>, after: seq<Version>, ids: seq<string>)
    requires UniqueIds(earlier) && Distinct(ids) && AllFree(earlier, ids) && NewIds(earlier, after, ids)
    ensures UniqueIds(after)
  {
    var n := |earlier|;
    forall i, j | 0 <= i < j < |after| ensures after[i].id != after[j].id {
      if n <= i {
        VersionIdsDiffer(ids[i - n], ids[j - n]);
      } else if n <= j {
        assert !HasVersion(earlier, VersionId(ids[j - n]));
      }
    }
  }

  lemma PrefixIsFree(db: Db, drafts: map<string, Draft>, ids: seq<string>, k: nat, now: int)
    requires k <= |ids| && Distinct(ids) && DistinctPolicies(drafts, ids) && PreflightPasses(db, drafts, ids, now)
    ensures Distinct(ids[..k]) && AllFree(db.versions, ids[..k])
  {
  }

  lemma OtherIdIsFree(earlier: seq<Version>, after: seq<Version>, ids: seq<string>, id: string)
    requires id !in ids && !HasVersion(earlier, VersionId(id)) && NewIds(earlier, after, ids)
    ensures !HasVersion(after, VersionId(id))
  {
    var n := |earlier|;
    forall i | 0 <= i < |after| ensures after[i].id != VersionId(id) {
      if n <= i { VersionIdsDiffer(ids[i - n], id); }
    }
  }

  lemma AppliedIdsAreNew(db: Db, drafts: map<string, Draft>, ids: seq<string>, k: nat, reason: Option<string>, session: Session, now: int)
    requires k < |ids| && Distinct(ids) && DistinctPolicies(drafts, ids)
    requires UniqueIds(db.versions) && PreflightPasses(db, drafts, ids, now)
    ensures var sofar := Applied(db, drafts, ids[..k], reason, session, now).versions;
      UniqueIds(sofar) && !HasVersion(sofar, VersionId(ids[k]))
  {
    var sofar := Applied(db, drafts, ids[..k], reason, session, now).versions;
    AppliedIds(db, drafts, ids[..k], reason, session, now);
    PrefixIsFree(db, drafts, ids, k, now);
    UniqueWithNew(db.versions, sofar, ids[..k]);
    OtherIdIsFree(db.versions, sofar, ids[..k], ids[k]);
  }

  lemma CanInstallAfter(before: Db, after: Db, id: string, draft: Draft, now: int)
    requires Current(after.versions, draft.policyId, now) == Current(before.versions, draft.policyId, now)
    requires !HasVersion(after.versions, VersionId(id)) && StartsInTime(before, draft, now)
    ensures CanInstall(after, id, draft, now) <==> EndsOpen(before, draft, now)
  {
  }

  // The preflight facts of a remaining draft survive the drafts applied before it, and
  // applying it next extends the closed form by one.
  lemma ApplyNext(db: Db, drafts: map<string, Draft>, ids: seq<string>, k: nat, reason: Option<string>, session: Session, now: int)
    requires k < |ids| && Distinct(ids) && DistinctPolicies(drafts, ids)
    requires UniqueIds(db.versions) && PreflightPasses(db, drafts, ids, now)
    ensures var sofar := Applied(db, drafts, ids[..k], reason, session, now);
      && UniqueIds(sofar.versions)
      && (CanInstall(sofar, ids[k], drafts[ids[k]], now) <==> EndsOpen(db, drafts[ids[k]], now))
      && Reflected(sofar, ids[k], drafts[ids[k]], reason, session, now) == Applied(db, drafts, ids[..k + 1], reason, session, now)
  {
    AppliedIdsAreNew(db, drafts, ids, k, reason, session, now);
    OthersReadAsBefore(db, drafts, ids[..k], reason, session, now, drafts[ids[k]].policyId);
    CanInstallAfter(db, Applied(db, drafts, ids[..k], reason, session, now), ids[k], drafts[ids[k]], now);
    ExtendApplied(db, drafts, ids, k, reason, session, now);
  }

  lemma ExtendRecords(drafts: map<string, Draft>, ids: seq<string>, k: nat, reason: Option<string>, session: Session, now: int)
    requires k < |ids| && forall id | id in ids :: id in drafts
    ensures Records(ids[..k + 1], reason, session, now) == Records(ids[..k], reason, session, now) + [RecordOf(ids[k], Approved, reason, session, now)]
    ensures Events(drafts, ids[..k + 1], session, now) == Events(drafts, ids[..k], session, now) + [EventOf(ids[k], drafts[ids[k]], Approved, session, now)]
  {
    assert ids[..k + 1] == ids[..k] + [ids[k]];
  }

  lemma ExtendApplied(db: Db, drafts: map<string, Draft>, ids: seq<string>, k: nat, reason: Option<string>, session: Session, now: int)
    requires k < |ids| && DistinctPolicies(drafts, ids) && PreflightPasses(db, drafts, ids, now)
    requires Current(Applied(db, drafts, ids[..k], reason, session, now).versions, drafts[ids[k]].policyId, now) == Current(db.versions, drafts[ids[k]].policyId, now)
    ensures Reflected(Applied(db, drafts, ids[..k], reason, session, now), ids[k], drafts[ids[k]], reason, session, now)
      == Applied(db, drafts, ids[..k + 1], reason, session, now)
  {
    ExtendVersions(db, drafts, ids, k, session, now);
    ExtendRecords(drafts, ids, k, reason, session, now);
  }

  lemma NewIdsAreNotOld(db: Db, drafts: map<string, Draft>, ids: seq<string>, k: nat, session: Session, now: int, previous: Version)
    requires k < |ids| && DistinctPolicies(drafts, ids) && PreflightPasses(db, drafts, ids, now) && previous in db.versions
    ensures forall v | v in NewVersions(db, drafts, ids[..k], session, now) :: v.id != previous.id
  {
    var news := NewVersions(db, drafts, ids[..k], session, now);
    forall v | v in news ensures v.id != previous.id {
      var i :| 0 <= i < k && v == news[i];
      assert !HasVersion(db.versions, VersionId(ids[i]));
    }
  }

  lemma ExtendVersions(db: Db, drafts: map<string, Draft>, ids: seq<string>, k: nat, session: Session, now: int)
    requires k < |ids| && DistinctPolicies(drafts, ids) && PreflightPasses(db, drafts, ids, now)
    ensures var previous := Current(db.versions, drafts[ids[k]].policyId, now);
      var sofar := CloseAll(db.versions, PreviousIds(db, drafts, ids[..k], now), now) + NewVersions(db, drafts, ids[..k], session, now);
      (if previous.Some? then Close(sofar, previous.value.id, now) else sofar) + [NewVersion(previous, ids[k], drafts[ids[k]], session, now)]
      == CloseAll(db.versions, PreviousIds(db, drafts, ids[..k + 1], now), now) + NewVersions(db, drafts, ids[..k + 1], session, now)
  {
    var previous := Current(db.versions, drafts[ids[k]].policyId, now);
    var before := PreviousIds(db, drafts, ids[..k], now);
    var news := NewVersions(db, drafts, ids[..k], session, now);
    var next := NewVersion(previous, ids[k], drafts[ids[k]], session, now);
    NewVersionsStep(db, drafts, ids, k, session, now);
    PreviousIdsStep(db, drafts, ids, k, now);
    if previous.Some? {
      CurrentIsActive(db.versions, drafts[ids[k]].policyId, now);
      NewIdsAreNotOld(db, drafts, ids, k, session, now, previous.value);
      OneMoreOver(db.versions, news, before, previous.value.id, now, next);
    } else {
      OneMoreFirst(db.versions, news, before, now, next);
    }
  }

  lemma OneMoreOver(versions: seq<Version>, news: seq<Version>, ids: set<string>, id: string, at: int, next: Version)
    requires forall v | v in news :: v.id != id
    ensures Close(CloseAll(versions, ids, at) + news, id, at) + [next] == CloseAll(versions, ids + {id}, at) + (news + [next])
  {
    CloseOneMore(versions, news, ids, id, at);
  }

  lemma OneMoreFirst(versions: seq<Version>, news: seq<Version>, ids: set<string>, at: int, next: Version)
    ensures CloseAll(versions, ids, at) + news + [next] == CloseAll(versions, ids + {}, at) + (news + [next])
  {
    assert ids + {} == ids;
  }

  lemma NewVersionsStep(db: Db, drafts: map<string, Draft>, ids: seq<string>, k: nat, session: Session, now: int)
    requires k < |ids| && forall id | id in ids :: id in drafts
    ensures NewVersions(db, drafts, ids[..k + 1], session, now)
      == NewVersions(db, drafts, ids[..k], session, now)
       + [NewVersion(Current(db.versions, drafts[ids[k]].policyId, now), ids[k], drafts[ids[k]], session, now)]
  {
  }

  lemma PreviousIdsStep(db: Db, drafts: map<string, Draft>, ids: seq<string>, k: nat, now: int)
    requires k < |ids| && forall id | id in ids :: id in drafts
    ensures var previous := Current(db.versions, drafts[ids[k]].policyId, now);
      PreviousIds(db, drafts, ids[..k + 1], now) == PreviousIds(db, drafts, ids[..k], now) + if previous.Some? then {previous.value.id} else {}
  {
    assert ids[..k + 1] == ids[..k] + [ids[k]];
  }

  lemma CloseOneMore(versions: seq<Version>, news: seq<Version>, ids: set<string>, id: string, at: int)
    requires forall v | v in news :: v.id != id
    ensures Close(CloseAll(versions, ids, at) + news, id, at) == CloseAll(versions, ids + {id}, at) + news
  {
  }

  // Everything a caller could check before sending the batch.
  ghost predicate Acceptable(db: Db, ids: seq<string>, now: int) {
    && ids != [] && Distinct(ids) && AllPending(db, ids)
    && DistinctPolicies(db.drafts, ids) && PreflightPasses(db, db.drafts, ids, now)
  }

  // The residue of a batch that failed at draft k: the drafts before it are reflected for
  // good, its own approval record stays behind, and the rest is pending again.
  function Residue(before: Db, drafts: map<string, Draft>, ids: seq<string>, k: nat, reason: Option<string>, session: Session, now: int): Db
    requires k < |ids| && forall id | id in ids :: id in drafts
  {
    var done := Applied(before, drafts, ids[..k], reason, session, now);
    done.(approvals := done.approvals + [RecordOf(ids[k], Approved, reason, session, now)],
          drafts := MarkAll(done.drafts, ids[k..], Pending))
  }

  ghost predicate StoppedAt(before: Db, after: Db, drafts: map<string, Draft>, ids: seq<string>, k: int, reason: Option<string>, session: Session, now: int)
    requires DistinctPolicies(drafts, ids)
  {
    && 0 <= k < |ids| && !EndsOpen(before, drafts[ids[k]], now)
    && (forall i | 0 <= i < k :: EndsOpen(before, drafts[ids[i]], now))
    && after == Residue(before, drafts, ids, k, reason, session, now)
  }

  // The first k drafts have been reflected, and nothing else has changed.
  ghost predicate AppliedUpTo(before: Db, after: Db, drafts: map<string, Draft>, ids: seq<string>, k: int, reason: Option<string>, session: Session, now: int)
    requires DistinctPolicies(drafts, ids)
  {
    && 0 <= k <= |ids| && (forall i | 0 <= i < k :: EndsOpen(before, drafts[ids[i]], now))
    && after == Applied(before, drafts, ids[..k], reason, session, now)
  }

  // One draft of the batch; when it is refused, the claims from here on are given back.
  method ApplyOne(store: Store, session: Session, drafts: map<string, Draft>, ids: seq<string>, k: nat, reason: Option<string>, now: int,
                  ghost before: Db) returns (one: Option<Receipt>)
    requires session.userId != "" && UniqueIds(before.versions) && Distinct(ids) && DistinctPolicies(drafts, ids)
    requires PreflightPasses(before, drafts, ids, now) && forall id | id in ids :: id in before.drafts
    requires k < |ids| && AppliedUpTo(before, store.db, drafts, ids, k, reason, session, now)
    modifies store
    ensures one.Some? ==> one.value == ReceiptOf(ids[k], Approved, now) && AppliedUpTo(before, store.db, drafts, ids, k + 1, reason, session, now)
    ensures one.None? ==> StoppedAt(before, store.db, drafts, ids, k, reason, session, now)
  {
    assert ids[k] in ids;
    ApplyNext(before, drafts, ids, k, reason, session, now);
    one := ApplyApproval(store, session, ids[k], drafts[ids[k]], reason, now);
    if one.None? {
      // Versions are immutable: only the drafts not yet reflected can be given back.
      ReleaseClaims(store, ids[k..]);
    }
  }

  // Every draft reflected, or the batch stopped at the first one whose version had ended.
  ghost predicate AllOrStopped(before: Db, after: Db, drafts: map<string, Draft>, ids: seq<string>, raised: bool, reason: Option<string>, session: Session, now: int)
    requires DistinctPolicies(drafts, ids)
  {
    && (!raised <==> forall i | 0 <= i < |ids| :: EndsOpen(before, drafts[ids[i]], now))
    && (!raised ==> after == Applied(before, drafts, ids, reason, session, now))
    && (raised ==> exists k :: StoppedAt(before, after, drafts, ids, k, reason, session, now))
  }

  lemma AllApplied(before: Db, after: Db, drafts: map<string, Draft>, ids: seq<string>, reason: Option<string>, session: Session, now: int)
    requires DistinctPolicies(drafts, ids) && AppliedUpTo(before, after, drafts, ids, |ids|, reason, session, now)
    ensures AllOrStopped(before, after, drafts, ids, false, reason, session, now)
  {
    assert ids[..|ids|] == ids;
  }

  method ApplyAll(store: Store, session: Session, drafts: map<string, Draft>, ids: seq<string>, reason: Option<string>, now: int) returns (results: seq<Receipt>, raised: bool)
    requires session.userId != "" && UniqueIds(store.db.versions) && Distinct(ids) && DistinctPolicies(drafts, ids)
    requires PreflightPasses(store.db, drafts, ids, now) && forall id | id in ids :: id in store.db.drafts
    modifies store
    ensures AllOrStopped(old(store.db), store.db, drafts, ids, raised, reason, session, now)
    ensures !raised ==> |results| == |ids| && forall i | 0 <= i < |ids| :: results[i] == ReceiptOf(ids[i], Approved, now)
  {
    results := [];
    ghost var before := store.db;
    for k := 0 to |ids|
      invariant AppliedUpTo(before, store.db, drafts, ids, k, reason, session, now)
      invariant |results| == k && forall i | 0 <= i < k :: results[i] == ReceiptOf(ids[i], Approved, now)
    {
      var one := ApplyOne(store, session, drafts, ids, k, reason, now, before);
      if one.None? {
        return results, true;
      }
      results := results + [one.value];
    }
    AllApplied(before, store.db, drafts, ids, reason, session, now);
    raised := false;
  }

  // The drafts of the request, or the first one that is missing or not pending.
  method FetchAll(store: Store, ids: seq<string>) returns (r: Option<Refusal>)
    ensures r.None? <==> AllPending(store.db, ids)
    ensures r.Some? ==> FirstUnclaimable(store.db, ids, r.value)
  {
    for i := 0 to |ids|
      invariant AllPending(store.db, ids[..i])
    {
      assert ids[i] in ids;
      if ids[i] !in store.db.drafts {
        return Some(DraftNotFound(ids[i]));
      }
      if store.db.drafts[ids[i]].status != Pending {
        return Some(DraftAlreadyDecided(store.db.drafts[ids[i]].status));
      }
    }
    assert ids[..|ids|] == ids;
    r := None;
  }

  method HasRepeats(names: seq<string>) returns (b: bool)
    ensures !b <==> Distinct(names)
  {
    var seen: set<string> := {};
    for i := 0 to |names|
      invariant Distinct(names[..i])
      invariant forall x :: x in seen <==> x in names[..i]
    {
      assert names[..i + 1] == names[..i] + [names[i]];
      if names[i] in seen {
        var j :| 0 <= j < i && names[j] == names[i];
        return true;
      }
      seen := seen + {names[i]};
    }
    assert names[..|names|] == names;
    b := false;
  }

  method RepeatsTarget(drafts: map<string, Draft>, ids: seq<string>) returns (b: bool)
    requires forall id | id in ids :: id in drafts
    ensures b <==> !DistinctPolicies(drafts, ids)
  {
    var policies := seq(|ids|, i requires 0 <= i < |ids| => assert ids[i] in ids; drafts[ids[i]].policyId);
    b := HasRepeats(policies);
    if !b {
      forall i, j | 0 <= i < j < |ids| ensures drafts[ids[i]].policyId != drafts[ids[j]].policyId {
        assert policies[i] != policies[j];
      }
    } else {
      var i, j :| 0 <= i < j < |ids| && policies[i] == policies[j];
      assert drafts[ids[i]].policyId == drafts[ids[j]].policyId;
    }
  }

  // An accepted batch that could not be finished, seen from before its claims.
  ghost predicate LeftHalfway(before: Db, after: Db, ids: seq<string>, reason: Option<string>, session: Session, now: int) {
    Acceptable(before, ids, now)
    && AllOrStopped(before.(drafts := MarkAll(before.drafts, ids, Approved)), after, before.drafts, ids, true, reason, session, now)
  }

  // Everything is in order, and no current version of the batch's policies carries an end.
  ghost predicate Finishes(db: Db, ids: seq<string>, now: int) {
    Acceptable(db, ids, now) && forall i | 0 <= i < |ids| :: EndsOpen(db, db.drafts[ids[i]], now)
  }

  // The order in which a batch is questioned, and what its caller is told.
  ghost predicate DeclinedFor(db: Db, ids: seq<string>, now: int, refusal: Refusal) {
    if ids == [] then refusal == DraftIdsRequired
    else if !Distinct(ids) then refusal == DuplicateDraftId
    else if !AllPending(db, ids) then FirstUnclaimable(db, ids, refusal)
    else if !DistinctPolicies(db.drafts, ids) then refusal == DuplicatePolicyTarget
    else FirstBlocked(db, db.drafts, ids, now, refusal)
  }

  // All or nothing: a declined batch leaves the database as it was. An accepted one writes
  // one version, one record and one event per draft. In between lies a single case: a current
  // version already carries an end that lies ahead of the instant the request carries.
  method BatchApprove(store: Store, session: Session, ids: seq<string>, reason: Option<string>, now: int) returns (r: Reply<seq<Receipt>>)
    requires session.userId != "" && UniqueIds(store.db.versions) && PendingIsClean(store.db)
    modifies store
    ensures r.Declined? <==> !Acceptable(old(store.db), ids, now)
    ensures r.Declined? ==> store.db == old(store.db) && DeclinedFor(old(store.db), ids, now, r.refusal)
    ensures r.Success? <==> Finishes(old(store.db), ids, now)
    ensures r.Success? ==> Acceptable(old(store.db), ids, now)
    ensures r.Success? ==>
      store.db == Applied(old(store.db), old(store.db).drafts, ids, reason, session, now).(drafts := MarkAll(old(store.db).drafts, ids, Approved))
    ensures r.Success? ==> |r.value| == |ids| && forall i | 0 <= i < |ids| :: r.value[i] == ReceiptOf(ids[i], Approved, now)
    ensures r.Raised? ==> LeftHalfway(old(store.db), store.db, ids, reason, session, now)
  {
    if ids == [] {
      return Declined(DraftIdsRequired);
    }
    var repeated := HasRepeats(ids);
    if repeated {
      return Declined(DuplicateDraftId);
    }
    var missing := FetchAll(store, ids);
    if missing.Some? {
      return Declined(missing.value);
    }
    var drafts := store.db.drafts;
    var collision := RepeatsTarget(drafts, ids);
    if collision {
      return Declined(DuplicatePolicyTarget);
    }
    var claim := ClaimAll(store, ids);
    if claim.Declined? {
      return claim;
    }
    var blocked := Preflight(store, drafts, ids, now);
    if blocked.Some? {
      ReleaseClaims(store, ids);
      assert store.db.drafts == drafts;
      return Declined(blocked.value);
    }
    var results, raised := ApplyAll(store, session, drafts, ids, reason, now);
    r := if raised then Raised else Success(results);
  }

  // ---- What a decision writes, row by row ----------------------------------------------------

  // The approved version starts now, stays open and carries the draft's id. Its record and its
  // event point at it.
  ghost predicate RowsOfApproval(v: Version, record: RuleStore.Approval, event: AuditEvent, id: string, draft: Draft, reason: Option<string>, session: Session, now: int) {
    && v.id == "approval:" + id && v.policyId == draft.policyId
    && v.origin == HumanApproval && v.approvedBy == Some(session.userId) && v.from == Some(now) && v.to == None
    && record.targetKind == "rule_version" && record.targetId == v.id
    && record.actor == session.userId && record.at == now && record.decision == Approved
    && record.reason == (match reason case Some(text) => (if text == "" then None else reason) case None => None)
    && event.action == "rule.approve" && event.target == id && event.outcome == "success"
    && event.actor == session.username && event.at == now
    && event.after == map["policyId" := Str(v.policyId), "ruleVersionId" := Str(v.id)]
  }

  // The version in force ends where the new one starts, the new one names it and merges into
  // its payload; every other row is as before.
  ghost predicate TakesOver(versions: seq<Version>, after: seq<Version>, previous: Option<Version>, draft: Draft, now: int) {
    |after| == |versions| + 1
    && after[|versions|].supersedes == (if previous.Some? then Some(previous.value.id) else None)
    && after[|versions|].payload == Merged(if previous.Some? then previous.value.payload else map[], draft.policyId, draft.payload)
    && forall i | 0 <= i < |versions| ::
      after[i] == if previous.Some? && versions[i] == previous.value then versions[i].(to := Some(now)) else versions[i]
  }

  lemma WhatApprovalWrites(db: Db, id: string, draft: Draft, reason: Option<string>, session: Session, now: int)
    requires UniqueIds(db.versions)
    ensures var after := Reflected(db, id, draft, reason, session, now);
      && TakesOver(db.versions, after.versions, Current(db.versions, draft.policyId, now), draft, now)
      && |after.approvals| == |db.approvals| + 1 && after.approvals[..|db.approvals|] == db.approvals
      && |after.audit| == |db.audit| + 1 && after.audit[..|db.audit|] == db.audit
      && RowsOfApproval(after.versions[|db.versions|], after.approvals[|db.approvals|], after.audit[|db.audit|], id, draft, reason, session, now)
      && after.drafts == db.drafts && after.spans == db.spans && after.sources == db.sources
  {
    CurrentIsActive(db.versions, draft.policyId, now);
    var previous := Current(db.versions, draft.policyId, now);
    if previous.Some? {
      forall i | 0 <= i < |db.versions| ensures db.versions[i].id == previous.value.id <==> db.versions[i] == previous.value {
        if db.versions[i].id == previous.value.id { SameIdSameVersion(db.versions, db.versions[i], previous.value); }
      }
    }
  }

  // A rejection writes a record about the draft and an event without a version, and nothing else.
  lemma WhatRejectionWrites(db: Db, id: string, draft: Draft, reason: Option<string>, session: Session, now: int)
    ensures var after := TurnedDown(db, id, draft, reason, session, now);
      && after == db.(approvals := after.approvals, audit := after.audit)
      && after.approvals == db.approvals + [RuleStore.Approval(session.userId, now, "rule_draft", id, Rejected, reason)]
      && after.audit == db.audit
        + [AuditEvent(session.username, now, "rule.reject", id, "success", map["policyId" := Str(draft.policyId), "ruleVersionId" := Null])]
  {
  }
}
