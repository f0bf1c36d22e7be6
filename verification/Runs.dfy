// Runs of the approval protocol, put together step by step: what a request does when nobody
// disturbs it, and two runs in which one does.
module Runs {
  import opened Basics
  import opened JsonValues
  import opened RuleStore
  import opened Timeline
  import opened Approval
  import opened Impact
  import opened Protocol

  // ---- Reaching a state -----------------------------------------------------------------

  ghost predicate Joins(states: seq<System>, actions: seq<Action>, s: System, t: System, quiet: bool) {
    && |states| == |actions| + 1 && states[0] == s && states[|actions|] == t
    && (forall i | 0 <= i < |actions| :: StepAt(states, actions, i)) && (quiet ==> Quiet(actions))
  }

  // Some steps lead from s to t; `quiet`: none of them throws.
  ghost predicate Reaches(s: System, t: System, quiet: bool) {
    exists states, actions :: Joins(states, actions, s, t, quiet)
  }

  lemma ReachesItself(s: System, quiet: bool)
    ensures Reaches(s, s, quiet)
  {
    assert Joins([s], [], s, s, quiet);
  }

  lemma JoinOne(states: seq<System>, actions: seq<Action>, s: System, t: System, a: Action, u: System, quiet: bool)
    requires Joins(states, actions, s, t, quiet) && Next(t, a, u) && (quiet && a.Act? ==> !a.throws)
    ensures Joins(states + [u], actions + [a], s, u, quiet)
  {
    var states', actions' := states + [u], actions + [a];
    forall i | 0 <= i < |actions'| ensures StepAt(states', actions', i) {
      assert i < |actions| ==> StepAt(states, actions, i);
    }
  }

  lemma Then(s: System, t: System, a: Action, u: System, quiet: bool)
    requires Reaches(s, t, quiet) && Next(t, a, u) && (quiet && a.Act? ==> !a.throws)
    ensures Reaches(s, u, quiet)
  {
    var states, actions :| Joins(states, actions, s, t, quiet);
    JoinOne(states, actions, s, t, a, u, quiet);
  }

  // From a system without requests, what is reached is reached by a run.
  lemma RunOf(s: System, t: System, quiet: bool) returns (states: seq<System>, actions: seq<Action>)
    requires Reaches(s, t, quiet) && s.requests == []
    ensures Run(states, actions) && states[0] == s && states[|states| - 1] == t && (quiet ==> Quiet(actions))
  {
    states, actions :| Joins(states, actions, s, t, quiet);
  }

  function With(s: System, k: nat, db: Db, r: Request): System
    requires k < |s.requests|
  {
    s.(db := db, requests := s.requests[k := r])
  }

  // One call of request k.
  lemma Go(origin: System, s: System, k: nat, db: Db, r: Request, throws: bool, db': Db, r': Request, quiet: bool)
    requires k < |s.requests| && Reaches(origin, With(s, k, db, r), quiet) && (quiet ==> !throws)
    requires InRange(r) && !r.pc.Done? && Advance(db, r, throws) == (db', r')
    ensures Reaches(origin, With(s, k, db', r'), quiet)
  {
    assert With(s, k, db, r).requests[k := r'] == With(s, k, db', r').requests;
    Then(origin, With(s, k, db, r), Act(k, throws), With(s, k, db', r'), quiet);
  }

  // ---- A request on its own ----------------------------------------------------------------

  function Fresh(batch: bool, decision: Status, ids: seq<string>, reason: Option<string>, session: Session, now: int): Request {
    Request(batch, decision, ids, [], reason, session, now, Checking(0))
  }

  function Joined(s: System, r: Request): System { s.(requests := s.requests + [r]) }

  lemma Arrives(origin: System, s: System, r: Request, quiet: bool)
    requires Reaches(origin, s, quiet) && Arriving(r, s.clock)
    ensures Reaches(origin, With(Joined(s, r), |s.requests|, s.db, r), quiet)
  {
    Then(origin, s, Arrive(r), Joined(s, r), quiet);
    assert With(Joined(s, r), |s.requests|, s.db, r) == Joined(s, r);
  }

  predicate PendingIn(db: Db, id: string) { id in db.drafts && db.drafts[id].status == Pending }

  function Claimed(db: Db, id: string, decision: Status): Db
    requires id in db.drafts
  {
    db.(drafts := db.drafts[id := Marked(db.drafts[id], decision, None)])
  }

  lemma SingleIsChecked(db: Db, r: Request)
    requires r.pc == Checking(0) && |r.ids| == 1 && r.drafts == [] && !r.batch && PendingIn(db, r.ids[0])
    requires r.decision == Rejected ==> r.reason.Some? && !Blank(r.reason.value)
    ensures Advance(db, r, false) == (db, r.(drafts := [db.drafts[r.ids[0]]], pc := Claiming(0)))
  {
    assert r.drafts + [db.drafts[r.ids[0]]] == [db.drafts[r.ids[0]]];
  }

  lemma SingleIsClaimed(db: Db, r: Request)
    requires r.pc == Claiming(0) && |r.ids| == 1 && |r.drafts| == 1 && !r.batch && PendingIn(db, r.ids[0]) && r.decision != Pending
    ensures Advance(db, r, false) == (Claimed(db, r.ids[0], r.decision), r.(pc := Reading(0)))
  {
  }

  // A decision on one pending draft gets as far as reading what it is to replace.
  lemma SingleStarts(origin: System, s: System, r: Request, quiet: bool)
    requires Reaches(origin, s, quiet) && r == Fresh(false, r.decision, r.ids, r.reason, r.session, s.clock)
    requires |r.ids| == 1 && PendingIn(s.db, r.ids[0]) && (r.decision == Approved || r.decision == Rejected)
    requires r.decision == Rejected ==> r.reason.Some? && !Blank(r.reason.value)
    ensures Reaches(origin, With(Joined(s, r), |s.requests|, Claimed(s.db, r.ids[0], r.decision),
      r.(drafts := [s.db.drafts[r.ids[0]]], pc := Reading(0))), quiet)
  {
    var k, at := |s.requests|, Joined(s, r);
    var read := r.(drafts := [s.db.drafts[r.ids[0]]], pc := Claiming(0));
    Arrives(origin, s, r, quiet);
    SingleIsChecked(s.db, r);
    Go(origin, at, k, s.db, r, false, s.db, read, quiet);
    SingleIsClaimed(s.db, read);
    Go(origin, at, k, s.db, read, false, Claimed(s.db, r.ids[0], r.decision), read.(pc := Reading(0)), quiet);
  }

  // ---- Reflecting one draft ------------------------------------------------------------------

  // The database between the new version and its audit event.
  function Written(db: Db, r: Request, i: nat): Db
    requires i < |r.ids| && i < |r.drafts|
  {
    Reflected(db, r.ids[i], r.drafts[i], r.reason, r.session, r.now).(audit := db.audit)
  }

  function Recorded(db: Db, r: Request, i: nat): Db
    requires i < |r.ids|
  {
    db.(approvals := db.approvals + [RecordOf(r.ids[i], Approved, r.reason, r.session, r.now)])
  }

  ghost predicate ReadyToReflect(db: Db, r: Request, i: nat) {
    && i < |r.ids| && |r.drafts| == |r.ids| && r.decision == Approved && r.session.userId != ""
    && UniqueIds(db.versions) && CanInstall(db, r.ids[i], r.drafts[i], r.now)
  }

  lemma InstallSucceeds(db: Db, r: Request, i: nat)
    requires ReadyToReflect(db, r, i)
    ensures Install(Recorded(db, r, i), r, i, Current(db.versions, r.drafts[i].policyId, r.now)) == Ok(Written(db, r, i))
  {
    var previous := Current(db.versions, r.drafts[i].policyId, r.now);
    var v := NewVersion(previous, r.ids[i], r.drafts[i], r.session, r.now);
    var after := Recorded(db, r, i);
    assert RecordOf(r.ids[i], Approved, r.reason, r.session, r.now) in after.approvals;
    assert Insertable(after, v);
    CurrentIsActive(db.versions, r.drafts[i].policyId, r.now);
    if previous.Some? { FoundById(db.versions, previous.value); }
  }

  lemma ReadingReads(db: Db, r: Request, i: nat)
    requires r.pc == Reading(i) && i < |r.ids| && |r.drafts| == |r.ids| && r.decision == Approved
    ensures Advance(db, r, false) == (db, r.(pc := Recording(i, Current(db.versions, r.drafts[i].policyId, r.now))))
  {
  }

  lemma RecordingRecords(db: Db, r: Request, i: nat, previous: Option<Version>)
    requires r.pc == Recording(i, previous) && i < |r.ids| && |r.drafts| == |r.ids| && r.decision == Approved
    ensures Advance(db, r, false) == (Recorded(db, r, i), r.(pc := Installing(i, previous)))
  {
  }

  lemma InstallingInstalls(db: Db, r: Request, i: nat, previous: Option<Version>, after: Db)
    requires r.pc == Installing(i, previous) && i < |r.ids| && |r.drafts| == |r.ids| && r.decision == Approved
    requires Install(db, r, i, previous) == Ok(after)
    ensures Advance(db, r, false) == (after, r.(pc := Auditing(i)))
  {
  }

  lemma AuditingAudits(db: Db, r: Request, i: nat)
    requires r.pc == Auditing(i) && i < |r.ids| && |r.drafts| == |r.ids|
    ensures Advance(db, r, false) == (AppendAudit(db, EventOf(r.ids[i], r.drafts[i], r.decision, r.session, r.now)),
      if i + 1 < |r.ids| then r.(pc := Reading(i + 1)) else Protocol.Finish(r, true, r.ids))
  {
  }

  // A draft that can be installed gets its record and its version.
  lemma ReflectsUpToAudit(origin: System, s: System, k: nat, db: Db, r: Request, i: nat, quiet: bool)
    requires k < |s.requests| && r.pc == Reading(i) && ReadyToReflect(db, r, i)
    requires Reaches(origin, With(s, k, db, r), quiet)
    ensures Reaches(origin, With(s, k, Written(db, r, i), r.(pc := Auditing(i))), quiet)
  {
    var previous := Current(db.versions, r.drafts[i].policyId, r.now);
    var r1, r2, r3 := r.(pc := Recording(i, previous)), r.(pc := Installing(i, previous)), r.(pc := Auditing(i));
    ReadingReads(db, r, i);
    Go(origin, s, k, db, r, false, db, r1, quiet);
    RecordingRecords(db, r1, i, previous);
    Go(origin, s, k, db, r1, false, Recorded(db, r, i), r2, quiet);
    InstallSucceeds(db, r, i);
    InstallingInstalls(Recorded(db, r, i), r2, i, previous, Written(db, r, i));
    Go(origin, s, k, Recorded(db, r, i), r2, false, Written(db, r, i), r3, quiet);
  }

  lemma Reflects(origin: System, s: System, k: nat, db: Db, r: Request, i: nat, quiet: bool)
    requires k < |s.requests| && r.pc == Reading(i) && ReadyToReflect(db, r, i)
    requires Reaches(origin, With(s, k, db, r), quiet)
    ensures Reaches(origin, With(s, k, Reflected(db, r.ids[i], r.drafts[i], r.reason, r.session, r.now),
      if i + 1 < |r.ids| then r.(pc := Reading(i + 1)) else Protocol.Finish(r, true, r.ids)), quiet)
  {
    ReflectsUpToAudit(origin, s, k, db, r, i, quiet);
    var audited := r.(pc := Auditing(i));
    AuditingAudits(Written(db, r, i), audited, i);
    Go(origin, s, k, Written(db, r, i), audited, false, Reflected(db, r.ids[i], r.drafts[i], r.reason, r.session, r.now),
      if i + 1 < |r.ids| then r.(pc := Reading(i + 1)) else Protocol.Finish(r, true, r.ids), quiet);
  }

  function Approve(id: string, reason: Option<string>, session: Session, now: int): Request {
    Fresh(false, Approved, [id], reason, session, now)
  }

  // An approval nobody disturbs does to the database what the serial decision does.
  lemma ApprovalRun(origin: System, s: System, id: string, reason: Option<string>, session: Session, quiet: bool)
    requires Reaches(origin, s, quiet) && PendingIn(s.db, id) && session.userId != ""
    requires UniqueIds(s.db.versions) && CanInstall(s.db, id, s.db.drafts[id], s.clock)
    ensures var r := Approve(id, reason, session, s.clock);
      Reaches(origin, With(Joined(s, r), |s.requests|, Overtaken(s.db, id, reason, session, s.clock),
        Protocol.Finish(r.(drafts := [s.db.drafts[id]]), true, [id])), quiet)
  {
    var r := Approve(id, reason, session, s.clock);
    var reading := r.(drafts := [s.db.drafts[id]], pc := Reading(0));
    SingleStarts(origin, s, r, quiet);
    Reflects(origin, Joined(s, r), |s.requests|, Claimed(s.db, id, Approved), reading, 0, quiet);
  }

  // ---- An audit write that throws ---------------------------------------------------------------

  lemma AuditThrowsBack(db: Db, r: Request)
    requires r.pc == Auditing(0) && |r.ids| == 1 && |r.drafts| == 1
    ensures Advance(db, r, true) == (db, r.(pc := Releasing(r.ids, [])))
  {
    assert r.ids[0..] == r.ids && r.ids[..0] == [];
  }

  lemma ReleasesLast(db: Db, r: Request, id: string, kept: seq<string>)
    requires r.pc == Releasing([id], kept) && id in db.drafts
    ensures Advance(db, r, false) == (Claimed(db, id, Pending), Protocol.Finish(r, false, kept))
  {
  }

  // From any state in which a draft could be approved: its approval, an audit write that throws,
  // and the rollback lead to a pending draft whose version is in the table.
  lemma ThrownAuditStrands(s: System, id: string, reason: Option<string>, session: Session) returns (t: System)
    requires PendingIn(s.db, id) && session.userId != ""
    requires UniqueIds(s.db.versions) && CanInstall(s.db, id, s.db.drafts[id], s.clock)
    ensures Reaches(s, t, false) && PendingIn(t.db, id) && HasVersion(t.db.versions, VersionId(id))
  {
    var r, k := Approve(id, reason, session, s.clock), |s.requests|;
    var at, db := Joined(s, r), Claimed(s.db, id, Approved);
    var reading := r.(drafts := [s.db.drafts[id]], pc := Reading(0));
    var audited, releasing := reading.(pc := Auditing(0)), reading.(pc := Releasing([id], []));
    var after := Written(db, reading, 0);
    ReachesItself(s, false);
    SingleStarts(s, s, r, false);
    ReflectsUpToAudit(s, at, k, db, reading, 0, false);
    AuditThrowsBack(after, audited);
    Go(s, at, k, after, audited, true, after, releasing, false);
    ReleasesLast(after, releasing, id, []);
    t := With(at, k, Claimed(after, id, Pending), Protocol.Finish(releasing, false, []));
    Go(s, at, k, after, releasing, false, t.db, Protocol.Finish(releasing, false, []), false);
    var n := |after.versions| - 1;
    assert t.db.versions[n].id == VersionId(id);
  }

  // One such run in full: a seeded policy, one draft, one request.
  lemma StrandedExample() returns (states: seq<System>, actions: seq<Action>)
    ensures Run(states, actions) && states[0] == System(Seeding(), [], 10)
    ensures var last := states[|states| - 1]; PendingIn(last.db, "e") && VersionWithoutApproval(last, "e")
    ensures Stranded(states, actions, |states| - 1, "e")
  {
    var s := System(Seeding(), [], 10);
    SeedingOvertakes(10, 5);
    var t := ThrownAuditStrands(s, "e", None, OPERATOR);
    states, actions := RunOf(s, t, false);
    assert !HasVersion(states[0].db.versions, VersionId("e"));
    ApprovedOrStranded(states, actions, |states| - 1, "e");
  }

  // ---- Rejecting a stranded draft ---------------------------------------------------------------

  lemma RejectionReads(db: Db, r: Request)
    requires r.pc == Reading(0) && |r.ids| == 1 && |r.drafts| == 1 && r.decision == Rejected
    ensures Advance(db, r, false) == (db, r.(pc := Recording(0, None)))
  {
  }

  lemma RejectionRecords(db: Db, r: Request)
    requires r.pc == Recording(0, None) && |r.ids| == 1 && |r.drafts| == 1 && r.decision == Rejected
    requires r.reason.Some? && !Blank(r.reason.value)
    ensures Advance(db, r, false)
      == (db.(approvals := db.approvals + [RecordOf(r.ids[0], Rejected, r.reason, r.session, r.now)]), r.(pc := Auditing(0)))
  {
  }

  // Any pending draft can be rejected, a stranded one too: the rejection succeeds, and the
  // versions in force stay as they are.
  lemma RejectionRun(s: System, id: string, reason: string, session: Session) returns (t: System)
    requires PendingIn(s.db, id) && !Blank(reason)
    ensures Reaches(s, t, true) && t.db.versions == s.db.versions && t.clock == s.clock
    ensures Succeeded(t, |s.requests|, id) && id in t.db.drafts && t.db.drafts[id].status == Rejected
  {
    var r, k := Fresh(false, Rejected, [id], Some(reason), session, s.clock), |s.requests|;
    var at, db := Joined(s, r), Claimed(s.db, id, Rejected);
    var reading := r.(drafts := [s.db.drafts[id]], pc := Reading(0));
    var recording, audited := reading.(pc := Recording(0, None)), reading.(pc := Auditing(0));
    ReachesItself(s, true);
    SingleStarts(s, s, r, true);
    RejectionReads(db, reading);
    Go(s, at, k, db, reading, false, db, recording, true);
    RejectionRecords(db, recording);
    var recorded := db.(approvals := db.approvals + [RecordOf(id, Rejected, Some(reason), session, s.clock)]);
    Go(s, at, k, db, recording, false, recorded, audited, true);
    AuditingAudits(recorded, audited, 0);
    var after := AppendAudit(recorded, EventOf(id, s.db.drafts[id], Rejected, session, s.clock));
    Go(s, at, k, recorded, audited, false, after, Protocol.Finish(audited, true, [id]), true);
    t := With(at, k, after, Protocol.Finish(audited, true, [id]));
  }

  // ---- A batch overtaken by an approval -----------------------------------------------------------

  function BatchOf(c: string, d: string, reason: Option<string>, session: Session, now: int): Request {
    Fresh(true, Approved, [c, d], reason, session, now)
  }

  // The batch once both drafts have been read.
  function Read(db: Db, c: string, d: string, reason: Option<string>, session: Session, now: int, pc: Pc): Request
    requires c in db.drafts && d in db.drafts
  {
    BatchOf(c, d, reason, session, now).(drafts := [db.drafts[c], db.drafts[d]], pc := pc)
  }

  lemma BatchIsChecked(db: Db, c: string, d: string, reason: Option<string>, session: Session, now: int)
    requires PendingIn(db, c) && PendingIn(db, d) && db.drafts[c].policyId != db.drafts[d].policyId
    ensures var r := BatchOf(c, d, reason, session, now);
      var half := r.(drafts := [db.drafts[c]], pc := Checking(1));
      && Advance(db, r, false) == (db, half)
      && InRange(half) && Advance(db, half, false) == (db, Read(db, c, d, reason, session, now, Claiming(0)))
  {
    var r := BatchOf(c, d, reason, session, now);
    assert r.ids[0] == c && r.ids[1] == d;
    assert [] + [db.drafts[c]] == [db.drafts[c]];
    var both := [db.drafts[c]] + [db.drafts[d]];
    assert both == [db.drafts[c], db.drafts[d]];
    assert !RepeatsPolicy(both);
  }

  lemma BatchIsClaimed(db: Db, r: Request, c: string, d: string)
    requires r.ids == [c, d] && |r.drafts| == 2 && r.batch && r.decision == Approved && c != d
    requires PendingIn(db, c) && PendingIn(db, d) && r.pc == Claiming(0)
    ensures Advance(db, r, false) == (Claimed(db, c, Approved), r.(pc := Claiming(1)))
    ensures Advance(Claimed(db, c, Approved), r.(pc := Claiming(1)), false)
      == (Claimed(Claimed(db, c, Approved), d, Approved), r.(pc := CheckingId(0)))
  {
  }

  lemma BatchPassesPreflight(db: Db, r: Request, i: nat)
    requires r.pc == CheckingId(i) && i < |r.ids| && |r.drafts| == |r.ids|
    requires !HasVersion(db.versions, VersionId(r.ids[i])) && StartsInTime(db, r.drafts[i], r.now)
    ensures Advance(db, r, false) == (db, r.(pc := CheckingWindow(i)))
    ensures Advance(db, r.(pc := CheckingWindow(i)), false) == (db, r.(pc := if i + 1 < |r.ids| then CheckingId(i + 1) else Reading(0)))
  {
  }

  // Two drafts in order are checked and claimed.
  lemma BatchClaims(s: System, c: string, d: string, reason: Option<string>, session: Session)
    requires PendingIn(s.db, c) && PendingIn(s.db, d) && c != d && s.db.drafts[c].policyId != s.db.drafts[d].policyId
    requires Arriving(BatchOf(c, d, reason, session, s.clock), s.clock)
    ensures var r := BatchOf(c, d, reason, session, s.clock);
      Reaches(s, With(Joined(s, r), |s.requests|, Claimed(Claimed(s.db, c, Approved), d, Approved),
        Read(s.db, c, d, reason, session, s.clock, CheckingId(0))), true)
  {
    var r, k := BatchOf(c, d, reason, session, s.clock), |s.requests|;
    var at, db := Joined(s, r), s.db;
    ReachesItself(s, true);
    Arrives(s, s, r, true);
    BatchIsChecked(db, c, d, reason, session, s.clock);
    var half, whole := r.(drafts := [db.drafts[c]], pc := Checking(1)), Read(db, c, d, reason, session, s.clock, Claiming(0));
    Go(s, at, k, db, r, false, db, half, true);
    Go(s, at, k, db, half, false, db, whole, true);
    BatchIsClaimed(db, whole, c, d);
    var one := Claimed(db, c, Approved);
    Go(s, at, k, db, whole, false, one, whole.(pc := Claiming(1)), true);
    Go(s, at, k, one, whole.(pc := Claiming(1)), false, Claimed(one, d, Approved), whole.(pc := CheckingId(0)), true);
  }

  // They pass, and the first is about to be reflected.
  lemma BatchStarts(s: System, c: string, d: string, reason: Option<string>, session: Session)
    requires Finishes(s.db, [c, d], s.clock)
    ensures var r := BatchOf(c, d, reason, session, s.clock);
      && c in s.db.drafts && d in s.db.drafts
      && Reaches(s, With(Joined(s, r), |s.requests|, Claimed(Claimed(s.db, c, Approved), d, Approved),
           Read(s.db, c, d, reason, session, s.clock, Reading(0))), true)
  {
    var ids, db := [c, d], s.db;
    assert ids[0] == c && ids[1] == d && c in ids && d in ids;
    assert db.drafts[ids[0]].policyId != db.drafts[ids[1]].policyId;
    BatchClaims(s, c, d, reason, session);
    var r := BatchOf(c, d, reason, session, s.clock);
    PreflightRuns(s, Joined(s, r), |s.requests|, Claimed(Claimed(db, c, Approved), d, Approved),
      Read(db, c, d, reason, session, s.clock, CheckingId(0)), db);
  }

  lemma PreflightRuns(origin: System, s: System, k: nat, db: Db, r: Request, before: Db)
    requires k < |s.requests| && r.pc == CheckingId(0) && |r.ids| == 2 && |r.drafts| == 2 && db.versions == before.versions
    requires forall i | 0 <= i < 2 :: !HasVersion(before.versions, VersionId(r.ids[i])) && StartsInTime(before, r.drafts[i], r.now)
    requires Reaches(origin, With(s, k, db, r), true)
    ensures Reaches(origin, With(s, k, db, r.(pc := Reading(0))), true)
  {
    BatchPassesPreflight(db, r, 0);
    Go(origin, s, k, db, r, false, db, r.(pc := CheckingWindow(0)), true);
    Go(origin, s, k, db, r.(pc := CheckingWindow(0)), false, db, r.(pc := CheckingId(1)), true);
    BatchPassesPreflight(db, r.(pc := CheckingId(1)), 1);
    Go(origin, s, k, db, r.(pc := CheckingId(1)), false, db, r.(pc := CheckingWindow(1)), true);
    Go(origin, s, k, db, r.(pc := CheckingWindow(1)), false, db, r.(pc := Reading(0)), true);
  }

  // A version that carries an end cannot be superseded.
  lemma InstallRefused(db: Db, r: Request, i: nat, previous: Version)
    requires i < |r.ids| && i < |r.drafts| && UniqueIds(db.versions) && previous in db.versions && previous.to.Some?
    ensures Install(db, r, i, Some(previous)).Err?
  {
    FoundById(db.versions, previous);
  }

  lemma InstallingRefuses(db: Db, r: Request, i: nat, previous: Option<Version>)
    requires r.pc == Installing(i, previous) && i < |r.ids| && |r.drafts| == |r.ids| && r.decision == Approved
    requires Install(db, r, i, previous).Err?
    ensures Advance(db, r, false) == (db, RollBack(r, i))
  {
  }

  // The second draft of a batch meets a current version with an end: it is given back, and the
  // first stays decided.
  lemma SecondIsRefused(origin: System, s: System, k: nat, db: Db, r: Request, c: string, d: string)
    requires k < |s.requests| && r.pc == Reading(1) && r.ids == [c, d] && |r.drafts| == 2 && r.decision == Approved
    requires UniqueIds(db.versions) && d in db.drafts && Reaches(origin, With(s, k, db, r), true)
    requires var previous := Current(db.versions, r.drafts[1].policyId, r.now); previous.Some? && previous.value.to.Some?
    ensures Reaches(origin, With(s, k, Claimed(Recorded(db, r, 1), d, Pending), Protocol.Finish(r, false, [c])), true)
  {
    var previous := Current(db.versions, r.drafts[1].policyId, r.now);
    CurrentIsActive(db.versions, r.drafts[1].policyId, r.now);
    var r1, r2 := r.(pc := Recording(1, previous)), r.(pc := Installing(1, previous));
    var db1 := Recorded(db, r, 1);
    ReadingReads(db, r, 1);
    Go(origin, s, k, db, r, false, db, r1, true);
    RecordingRecords(db, r1, 1, previous);
    Go(origin, s, k, db, r1, false, db1, r2, true);
    InstallRefused(db1, r2, 1, previous.value);
    InstallingRefuses(db1, r2, 1, previous);
    var r3 := r.(pc := Releasing([d], [c]));
    assert r.ids[1..] == [d] && r.ids[..1] == [c];
    Go(origin, s, k, db1, r2, false, db1, r3, true);
    ReleasesLast(db1, r3, d, [c]);
    Go(origin, s, k, db1, r3, false, Claimed(db1, d, Pending), Protocol.Finish(r3, false, [c]), true);
  }

  lemma ReflectedUnique(db: Db, id: string, draft: Draft, reason: Option<string>, session: Session, now: int)
    requires UniqueIds(db.versions) && CanInstall(db, id, draft, now)
    ensures UniqueIds(Reflected(db, id, draft, reason, session, now).versions)
    ensures HasVersion(Reflected(db, id, draft, reason, session, now).versions, VersionId(id))
  {
    var previous := Current(db.versions, draft.policyId, now);
    var after := Reflected(db, id, draft, reason, session, now).versions;
    assert after[|after| - 1].id == VersionId(id);
    if previous.Some? {
      CloseUnique(db.versions, previous.value.id, now, NewVersion(previous, id, draft, session, now));
    }
  }

  // How the table reads once the batch has been overtaken: its first draft can still be
  // installed, and its second meets a current version with an end, before and after that.
  lemma OvertakenTable(db: Db, c: string, d: string, e: string, reason: Option<string>, session: Session, at: int, now: int, db3: Db)
    requires Overtakes(db, c, d, e, at, now) && db3.versions == Overtaken(db, e, reason, session, at).versions
    ensures UniqueIds(db3.versions) && CanInstall(db3, c, db.drafts[c], now)
    ensures var db4 := Reflected(db3, c, db.drafts[c], reason, session, now);
      var previous := Current(db4.versions, db.drafts[d].policyId, now);
      && UniqueIds(db4.versions) && HasVersion(db4.versions, VersionId(c)) && !HasVersion(db4.versions, VersionId(d))
      && previous.Some? && previous.value.to.Some?
  {
    OvertakenDrafts(db, c, d, e, reason, session, at, now);
    ReflectedUnique(Claimed(db, e, Approved), e, db.drafts[e], reason, session, at);
    ReflectedUnique(db3, c, db.drafts[c], reason, session, now);
    ReflectedAddsOneId(db3, c, db.drafts[c], reason, session, now, d);
    OvertakenLeaves(db3, c, db.drafts[c], reason, session, now, db.drafts[d].policyId, now);
    assert !EndsOpen(db3, db.drafts[d], now);
  }

  // The batch has failed halfway: its first draft is decided for good and has its version, its
  // second is pending again and has none.
  ghost predicate FailedHalfway(t: System, c: string, d: string) {
    && t.requests != [] && t.requests[0].ids == [c, d] && t.requests[0].batch && t.requests[0].pc == Done(false, [c])
    && c in t.db.drafts && t.db.drafts[c].status == Approved && HasVersion(t.db.versions, VersionId(c))
    && PendingIn(t.db, d) && !HasVersion(t.db.versions, VersionId(d))
  }

  // The batch has passed its checks at its own instant, and the clock has moved on.
  lemma BatchThenTick(db: Db, c: string, d: string, reason: Option<string>, session: Session, at: int, now: int) returns (s: System)
    requires Finishes(db, [c, d], now) && now <= at && c in db.drafts && d in db.drafts
    ensures s == System(Claimed(Claimed(db, c, Approved), d, Approved), [Read(db, c, d, reason, session, now, Reading(0))], at)
    ensures Reaches(System(db, [], now), s, true)
  {
    var s0 := System(db, [], now);
    BatchStarts(s0, c, d, reason, session);
    var s1 := s0.(db := Claimed(Claimed(db, c, Approved), d, Approved), requests := [Read(db, c, d, reason, session, now, Reading(0))]);
    assert s1 == With(Joined(s0, BatchOf(c, d, reason, session, now)), 0, s1.db, s1.requests[0]);
    s := s1.(clock := at);
    Then(s0, s1, Tick(at), s, true);
  }

  lemma Approves(s0: System, s: System, e: string, reason: Option<string>, session: Session) returns (t: System)
    requires Reaches(s0, s, true) && |s.requests| == 1 && session.userId != ""
    requires PendingIn(s.db, e) && UniqueIds(s.db.versions) && CanInstall(s.db, e, s.db.drafts[e], s.clock)
    ensures Reaches(s0, t, true) && |t.requests| == 2 && t.requests[0] == s.requests[0] && Succeeded(t, 1, e) && t.clock == s.clock
    ensures t.db == Overtaken(s.db, e, reason, session, s.clock)
  {
    ApprovalRun(s0, s, e, reason, session, true);
    var r := Approve(e, reason, session, s.clock);
    t := With(Joined(s, r), 1, Overtaken(s.db, e, reason, session, s.clock), Protocol.Finish(r.(drafts := [s.db.drafts[e]]), true, [e]));
  }

  // The clock never steps back and nothing throws: a batch reads the clock, passes its checks,
  // is overtaken by an approval that read the clock later, and fails at its second draft.
  lemma OvertakenRun(db: Db, c: string, d: string, e: string, reason: Option<string>, session: Session, at: int, now: int) returns (t: System)
    requires Overtakes(db, c, d, e, at, now) && session.userId != ""
    ensures Reaches(System(db, [], now), t, true) && FailedHalfway(t, c, d) && t.clock == at
    ensures |t.requests| == 2 && Succeeded(t, 1, e)
  {
    var s0 := System(db, [], now);
    ClaimsStandAside(db, c, d, e, reason, session, at);
    var s2 := BatchThenTick(db, c, d, reason, session, at, now);
    var s3 := Approves(s0, s2, e, reason, session);
    t := FailSecond(s0, s3, db, c, d, e, reason, session, at, now);
  }

  lemma FailSecond(s0: System, s3: System, db: Db, c: string, d: string, e: string, reason: Option<string>, session: Session, at: int, now: int)
    returns (t: System)
    requires Overtakes(db, c, d, e, at, now) && session.userId != "" && Reaches(s0, s3, true)
    requires |s3.requests| == 2 && s3.requests[0] == Read(db, c, d, reason, session, now, Reading(0)) && Succeeded(s3, 1, e)
    requires s3.db.versions == Overtaken(db, e, reason, session, at).versions
    requires c in s3.db.drafts && d in s3.db.drafts && s3.db.drafts[c].status == Approved
    ensures Reaches(s0, t, true) && FailedHalfway(t, c, d) && t.clock == s3.clock
    ensures |t.requests| == 2 && Succeeded(t, 1, e)
  {
    var r := s3.requests[0];
    assert With(s3, 0, s3.db, r) == s3;
    OvertakenTable(db, c, d, e, reason, session, at, now, s3.db);
    assert TableReady(s3.db, r, c, d);
    ReflectFirst(s0, s3, r, c, d);
    t := StopSecond(s0, s3, Reflected(s3.db, c, r.drafts[0], r.reason, r.session, r.now), r.(pc := Reading(1)), c, d);
  }

  lemma StandsHalfway(t: System, db4: Db, r: Request, c: string, d: string)
    requires r.ids == [c, d] && r.batch && c != d && c in db4.drafts && d in db4.drafts && db4.drafts[c].status == Approved
    requires HasVersion(db4.versions, VersionId(c)) && !HasVersion(db4.versions, VersionId(d))
    requires t.db == Claimed(Recorded(db4, r, 1), d, Pending) && t.requests != [] && t.requests[0] == Protocol.Finish(r, false, [c])
    ensures FailedHalfway(t, c, d)
  {
  }

  // Claims do not change what an approval writes, and the claimed drafts stay claimed.
  lemma ClaimsStandAside(db: Db, c: string, d: string, e: string, reason: Option<string>, session: Session, at: int)
    requires PendingIn(db, c) && PendingIn(db, d) && PendingIn(db, e) && c != d && c != e && d != e
    ensures var two := Claimed(Claimed(db, c, Approved), d, Approved);
      PendingIn(two, e) && two.drafts[e] == db.drafts[e] && two.versions == db.versions
    ensures var db3 := Overtaken(Claimed(Claimed(db, c, Approved), d, Approved), e, reason, session, at);
      && db3.versions == Overtaken(db, e, reason, session, at).versions
      && c in db3.drafts && d in db3.drafts && db3.drafts[c].status == Approved
  {
  }

  // The first draft is reflected, and the second is about to meet a version with an end.
  ghost predicate HalfReflected(s0: System, s: System, db4: Db, r: Request, c: string, d: string) {
    && s.requests != [] && r.pc == Reading(1) && r.ids == [c, d] && |r.drafts| == 2 && r.decision == Approved && r.batch && c != d
    && Reaches(s0, With(s, 0, db4, r), true) && c in db4.drafts && d in db4.drafts && db4.drafts[c].status == Approved
    && UniqueIds(db4.versions) && HasVersion(db4.versions, VersionId(c)) && !HasVersion(db4.versions, VersionId(d))
    && var previous := Current(db4.versions, r.drafts[1].policyId, r.now); previous.Some? && previous.value.to.Some?
  }

  // What the first draft's reflection needs, and what it leaves, in terms of the table alone.
  ghost predicate TableReady(db3: Db, r: Request, c: string, d: string) {
    && r.ids == [c, d] && |r.drafts| == 2 && UniqueIds(db3.versions) && CanInstall(db3, c, r.drafts[0], r.now)
    && var db4 := Reflected(db3, c, r.drafts[0], r.reason, r.session, r.now);
       var previous := Current(db4.versions, r.drafts[1].policyId, r.now);
       && UniqueIds(db4.versions) && HasVersion(db4.versions, VersionId(c)) && !HasVersion(db4.versions, VersionId(d))
       && previous.Some? && previous.value.to.Some?
  }

  lemma ReflectFirst(s0: System, s3: System, r: Request, c: string, d: string)
    requires s3.requests != [] && TableReady(s3.db, r, c, d) && c != d
    requires r.pc == Reading(0) && r.decision == Approved && r.batch && r.session.userId != ""
    requires Reaches(s0, With(s3, 0, s3.db, r), true)
    requires c in s3.db.drafts && d in s3.db.drafts && s3.db.drafts[c].status == Approved
    ensures HalfReflected(s0, s3, Reflected(s3.db, c, r.drafts[0], r.reason, r.session, r.now), r.(pc := Reading(1)), c, d)
  {
    assert r.ids[0] == c;
    Reflects(s0, s3, 0, s3.db, r, 0, true);
  }

  lemma StopSecond(s0: System, s: System, db4: Db, r: Request, c: string, d: string) returns (t: System)
    requires HalfReflected(s0, s, db4, r, c, d)
    ensures Reaches(s0, t, true) && FailedHalfway(t, c, d) && t.clock == s.clock
    ensures |t.requests| == |s.requests| && forall i | 1 <= i < |s.requests| :: t.requests[i] == s.requests[i]
  {
    SecondIsRefused(s0, s, 0, db4, r, c, d);
    t := With(s, 0, Claimed(Recorded(db4, r, 1), d, Pending), Protocol.Finish(r, false, [c]));
    StandsHalfway(t, db4, r, c, d);
  }

  // One such run in full, from a seeded policy: the batch reads its clock at 5, the approval at 6.
  lemma OvertakenExample() returns (states: seq<System>, actions: seq<Action>)
    ensures Run(states, actions) && Quiet(actions) && states[0] == System(Seeding(), [], 5) && NothingAhead(states[0])
    ensures FailedHalfway(states[|states| - 1], "c", "d")
  {
    SeedingOvertakes(6, 5);
    var t := OvertakenRun(Seeding(), "c", "d", "e", None, OPERATOR, 6, 5);
    states, actions := RunOf(System(Seeding(), [], 5), t, true);
  }
}
