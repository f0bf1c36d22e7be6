// A request served on its own: every call of it in order, none throwing and no other request
// in between. What the interleaved protocol does then is what the serial handlers promise.
module Served {
  import opened Basics
  import opened JsonValues
  import opened RuleStore
  import opened Timeline
  import opened Approval
  import opened Impact
  import opened Protocol
  import opened Runs

  // ---- A request ends ---------------------------------------------------------------------

  // A bound on the calls a request still has to make.
  function CallsLeft(r: Request): nat
    requires InRange(r)
  {
    var n := |r.ids|;
    match r.pc
    case Checking(k) => n - k + 8 * n
    case Claiming(k) => n - k + 7 * n
    case CheckingId(k) => 2 * (n - k) + 5 * n
    case CheckingWindow(k) => 2 * (n - k) + 5 * n - 1
    case Reading(k) => 4 * (n - k) + n
    case Recording(k, _) => 4 * (n - k) + n - 1
    case Installing(k, _) => 4 * (n - k) + n - 2
    case Auditing(k) => 4 * (n - k) + n - 3
    case Releasing(todo, _) => |todo|
    case Done(_, _) => 0
  }

  ghost predicate Closer(r: Request, r': Request) {
    && InRange(r) && InRange(r') && CallsLeft(r') < CallsLeft(r)
    && r' == r.(drafts := r'.drafts, pc := r'.pc)
  }

  lemma LookingIsCloser(db: Db, r: Request, throws: bool)
    requires InRange(r) && (r.pc.Checking? || r.pc.Claiming?)
    ensures Closer(r, Advance(db, r, throws).1)
  {
  }

  lemma PreflightIsCloser(db: Db, r: Request, throws: bool)
    requires InRange(r) && (r.pc.CheckingId? || r.pc.CheckingWindow?)
    ensures Closer(r, Advance(db, r, throws).1)
  {
  }

  lemma ReflectingIsCloser(db: Db, r: Request, throws: bool)
    requires InRange(r) && (r.pc.Reading? || r.pc.Recording? || r.pc.Installing? || r.pc.Auditing?)
    ensures Closer(r, Advance(db, r, throws).1)
  {
  }

  // Every call, thrown or not, brings its request closer to its end.
  lemma CallIsCloser(db: Db, r: Request, throws: bool)
    requires InRange(r) && !r.pc.Done?
    ensures Closer(r, Advance(db, r, throws).1)
  {
    if r.pc.Checking? || r.pc.Claiming? { LookingIsCloser(db, r, throws); }
    else if r.pc.CheckingId? || r.pc.CheckingWindow? { PreflightIsCloser(db, r, throws); }
    else if !r.pc.Releasing? { ReflectingIsCloser(db, r, throws); }
  }

  // All calls of the request, one after the other.
  ghost function Serve(db: Db, r: Request): (Db, Request)
    requires InRange(r)
    decreases CallsLeft(r)
  {
    if r.pc.Done? then (db, r)
    else
      CallIsCloser(db, r, false);
      var (db', r') := Advance(db, r, false);
      Serve(db', r')
  }

  lemma ServeNext(db: Db, r: Request, db': Db, r': Request)
    requires InRange(r) && !r.pc.Done? && Advance(db, r, false) == (db', r')
    ensures InRange(r') && Serve(db, r) == Serve(db', r')
  {
    CallIsCloser(db, r, false);
  }

  lemma {:induction false} ServedIsDone(db: Db, r: Request)
    requires InRange(r)
    ensures var (after, end) := Serve(db, r);
      end.pc.Done? && end == r.(drafts := end.drafts, pc := end.pc)
    decreases CallsLeft(r)
  {
    if !r.pc.Done? {
      CallIsCloser(db, r, false);
      var (db', r') := Advance(db, r, false);
      ServedIsDone(db', r');
    }
  }

  // ---- Serving is what the steps of that request alone do ------------------------------------

  ghost predicate Alone(states: seq<System>, actions: seq<Action>, k: nat) {
    |states| == |actions| + 1 && k < |states[0].requests|
    && forall i | 0 <= i < |actions| :: actions[i] == Act(k, false) && StepAt(states, actions, i)
  }

  // Another request, or anything but request k and the database, stays as it was.
  lemma {:induction false} AloneIsServed(states: seq<System>, actions: seq<Action>, k: nat, i: nat)
    requires Alone(states, actions, k) && i < |states| && InRange(states[0].requests[k])
    ensures k < |states[i].requests| && InRange(states[i].requests[k])
    ensures states[i] == With(states[0], k, states[i].db, states[i].requests[k])
    ensures Serve(states[i].db, states[i].requests[k]) == Serve(states[0].db, states[0].requests[k])
  {
    if i > 0 {
      AloneIsServed(states, actions, k, i - 1);
      var s, t := states[i - 1], states[i];
      assert StepAt(states, actions, i - 1) && actions[i - 1] == Act(k, false);
      ServeNext(s.db, s.requests[k], t.db, t.requests[k]);
    }
  }

  // Once the request has ended, the state is fixed: there is one way to be served.
  lemma AloneEnds(states: seq<System>, actions: seq<Action>, k: nat)
    requires Alone(states, actions, k) && InRange(states[0].requests[k])
    requires k < |states[|actions|].requests| && states[|actions|].requests[k].pc.Done?
    ensures var (after, end) := Serve(states[0].db, states[0].requests[k]);
      states[|actions|] == With(states[0], k, after, end)
  {
    AloneIsServed(states, actions, k, |actions|);
  }

  // And there is always a run of that request alone that ends it.
  lemma {:induction false} AloneRuns(s: System, k: nat) returns (states: seq<System>, actions: seq<Action>)
    requires k < |s.requests| && InRange(s.requests[k])
    ensures Alone(states, actions, k) && states[0] == s
    ensures k < |states[|actions|].requests| && states[|actions|].requests[k].pc.Done?
    decreases CallsLeft(s.requests[k])
  {
    if s.requests[k].pc.Done? {
      states, actions := [s], [];
    } else {
      var r := s.requests[k];
      CallIsCloser(s.db, r, false);
      var t := With(s, k, Advance(s.db, r, false).0, Advance(s.db, r, false).1);
      var states', actions' := AloneRuns(t, k);
      states, actions := [s] + states', [Act(k, false)] + actions';
      assert Next(s, Act(k, false), t);
      forall i | 0 <= i < |actions| ensures actions[i] == Act(k, false) && StepAt(states, actions, i) {
        assert i > 0 ==> StepAt(states', actions', i - 1);
      }
    }
  }

  // ---- Giving back ------------------------------------------------------------------------------

  lemma MarkOne(drafts: map<string, Draft>, id: string, rest: seq<string>, status: Status)
    requires id in drafts
    ensures MarkAll(drafts[id := Marked(drafts[id], status, None)], rest, status) == MarkAll(drafts, [id] + rest, status)
  {
  }

  lemma {:induction false} ReleasingServed(db: Db, r: Request, todo: seq<string>, kept: seq<string>)
    requires r.pc == Releasing(todo, kept) && todo != [] && forall id | id in todo :: id in db.drafts
    ensures Serve(db, r) == (db.(drafts := MarkAll(db.drafts, todo, Pending)), Protocol.Finish(r, false, kept))
    decreases |todo|
  {
    var next := SetStatus(db, todo[0], Pending, None).value;
    var rest := todo[1..];
    assert todo == [todo[0]] + rest;
    ServeNext(db, r, next, ReleasingOrDone(r, rest, kept));
    MarkOne(db.drafts, todo[0], rest, Pending);
    if rest != [] {
      ReleasingServed(next, r.(pc := Releasing(rest, kept)), rest, kept);
    } else {
      assert MarkAll(next.drafts, rest, Pending) == next.drafts;
    }
  }

  lemma MarkedBack(drafts: map<string, Draft>, ids: seq<string>, status: Status)
    requires forall d | d in ids && d in drafts :: drafts[d].status == Pending && drafts[d].failureReason == None
    ensures MarkAll(MarkAll(drafts, ids, status), ids, Pending) == drafts
  {
  }

  // ---- Looking and claiming ---------------------------------------------------------------------

  function Rows(drafts: map<string, Draft>, ids: seq<string>): (rows: seq<Draft>)
    requires forall id | id in ids :: id in drafts
    ensures |rows| == |ids| && forall i | 0 <= i < |ids| :: rows[i] == drafts[ids[i]]
  {
    seq(|ids|, i requires 0 <= i < |ids| => assert ids[i] in ids; drafts[ids[i]])
  }

  lemma RowsStep(drafts: map<string, Draft>, ids: seq<string>, k: nat)
    requires k < |ids| && forall id | id in ids[..k + 1] :: id in drafts
    ensures ids[..k + 1] == ids[..k] + [ids[k]] && forall id | id in ids[..k] :: id in drafts
    ensures ids[k] in drafts && Rows(drafts, ids[..k + 1]) == Rows(drafts, ids[..k]) + [drafts[ids[k]]]
  {
    assert ids[..k + 1] == ids[..k] + [ids[k]];
    assert ids[k] in ids[..k + 1];
  }

  lemma RepeatsIff(drafts: map<string, Draft>, ids: seq<string>)
    requires forall id | id in ids :: id in drafts
    ensures RepeatsPolicy(Rows(drafts, ids)) <==> !DistinctPolicies(drafts, ids)
  {
    var rows := Rows(drafts, ids);
    if i, j :| 0 <= i < j < |rows| && rows[i].policyId == rows[j].policyId {
      assert drafts[ids[i]].policyId == drafts[ids[j]].policyId;
    } else {
      forall i, j | 0 <= i < j < |ids| ensures drafts[ids[i]].policyId != drafts[ids[j]].policyId {
        assert rows[i].policyId != rows[j].policyId;
      }
    }
  }

  // The request has read its first k drafts.
  ghost predicate HasRead(db: Db, r: Request, k: nat) {
    && k < |r.ids| && (forall id | id in r.ids[..k] :: id in db.drafts) && r.drafts == Rows(db.drafts, r.ids[..k])
  }

  // Looking ends at the first draft that is missing or decided, or with every draft read.
  lemma {:induction false} CheckingServed(db: Db, r: Request, k: nat)
    requires r.pc == Checking(k) && HasRead(db, r, k) && AllPending(db, r.ids[..k])
    ensures !AllPending(db, r.ids) ==> Serve(db, r).0 == db && Serve(db, r).1.pc == Done(false, [])
    ensures AllPending(db, r.ids) ==>
      var read := AfterChecking(r.(drafts := Rows(db.drafts, r.ids)));
      InRange(read) && Serve(db, r) == Serve(db, read)
    decreases |r.ids| - k
  {
    var id := r.ids[k];
    assert r.ids[..k + 1] == r.ids[..k] + [id] && id in r.ids;
    if !PendingIn(db, id) {
      ServeNext(db, r, db, Protocol.Finish(r, false, []));
    } else {
      RowsStep(db.drafts, r.ids, k);
      var read := r.(drafts := r.drafts + [db.drafts[id]]);
      if k + 1 < |r.ids| {
        ServeNext(db, r, db, read.(pc := Checking(k + 1)));
        CheckingServed(db, read.(pc := Checking(k + 1)), k + 1);
      } else {
        assert r.ids[..k + 1] == r.ids;
        ServeNext(db, r, db, AfterChecking(read));
      }
    }
  }

  function AfterClaiming(r: Request): Request { r.(pc := if r.batch then CheckingId(0) else Reading(0)) }

  lemma MarkNext(drafts: map<string, Draft>, ids: seq<string>, k: nat, status: Status)
    requires k < |ids| && Distinct(ids) && ids[k] in drafts
    ensures var sofar := MarkAll(drafts, ids[..k], status);
      sofar[ids[k]] == drafts[ids[k]] && sofar[ids[k] := Marked(sofar[ids[k]], status, None)] == MarkAll(drafts, ids[..k + 1], status)
  {
    assert ids[..k + 1] == ids[..k] + [ids[k]];
  }

  // Pending drafts are claimed one after the other.
  lemma {:induction false} ClaimingServed(db: Db, before: Db, r: Request, k: nat)
    requires r.pc == Claiming(k) && InRange(r) && Distinct(r.ids) && AllPending(before, r.ids) && r.decision != Pending
    requires db == before.(drafts := MarkAll(before.drafts, r.ids[..k], r.decision))
    ensures InRange(AfterClaiming(r))
    ensures Serve(db, r) == Serve(before.(drafts := MarkAll(before.drafts, r.ids, r.decision)), AfterClaiming(r))
    decreases |r.ids| - k
  {
    var id := r.ids[k];
    assert id in r.ids;
    MarkNext(before.drafts, r.ids, k, r.decision);
    var next := before.(drafts := MarkAll(before.drafts, r.ids[..k + 1], r.decision));
    if k + 1 < |r.ids| {
      ServeNext(db, r, next, r.(pc := Claiming(k + 1)));
      ClaimingServed(next, before, r.(pc := Claiming(k + 1)), k + 1);
    } else {
      assert r.ids[..k + 1] == r.ids;
      ServeNext(db, r, next, AfterClaiming(r));
    }
  }

  // A claim lost to another request: what this one had claimed goes back, and nothing is kept.
  lemma LostClaimGivesBack(db: Db, r: Request, k: nat)
    requires r.pc == Claiming(k) && InRange(r) && !PendingIn(db, r.ids[k]) && forall id | id in r.ids[..k] :: id in db.drafts
    ensures Serve(db, r) == (db.(drafts := MarkAll(db.drafts, r.ids[..k], Pending)), Protocol.Finish(r, false, []))
  {
    var todo := r.ids[..k];
    ServeNext(db, r, db, ReleasingOrDone(r, todo, []));
    if todo != [] {
      ReleasingServed(db, r.(pc := Releasing(todo, [])), todo, []);
    } else {
      assert MarkAll(db.drafts, todo, Pending) == db.drafts;
    }
  }

  // ---- The preflight ------------------------------------------------------------------------------

  ghost predicate Passes(db: Db, id: string, draft: Draft, now: int) {
    !HasVersion(db.versions, VersionId(id)) && StartsInTime(db, draft, now)
  }

  ghost predicate PassesFrom(db: Db, ids: seq<string>, drafts: seq<Draft>, now: int, k: nat) {
    forall i | k <= i < |ids| && i < |drafts| :: Passes(db, ids[i], drafts[i], now)
  }

  lemma PassesOne(db: Db, r: Request, k: nat)
    requires r.pc == CheckingId(k) && InRange(r) && Passes(db, r.ids[k], r.drafts[k], r.now)
    ensures var next := r.(pc := if k + 1 < |r.ids| then CheckingId(k + 1) else Reading(0));
      InRange(next) && Serve(db, r) == Serve(db, next)
  {
    BatchPassesPreflight(db, r, k);
    ServeNext(db, r, db, r.(pc := CheckingWindow(k)));
    ServeNext(db, r.(pc := CheckingWindow(k)), db, r.(pc := if k + 1 < |r.ids| then CheckingId(k + 1) else Reading(0)));
  }

  lemma BlockedOne(db: Db, r: Request, k: nat)
    requires r.pc == CheckingId(k) && InRange(r) && !Passes(db, r.ids[k], r.drafts[k], r.now)
    ensures Serve(db, r) == Serve(db, r.(pc := Releasing(r.ids, [])))
  {
    if HasVersion(db.versions, VersionId(r.ids[k])) {
      ServeNext(db, r, db, r.(pc := Releasing(r.ids, [])));
    } else {
      ServeNext(db, r, db, r.(pc := CheckingWindow(k)));
      ServeNext(db, r.(pc := CheckingWindow(k)), db, r.(pc := Releasing(r.ids, [])));
    }
  }

  // One draft that fails its test gives back every claim before anything is written.
  lemma {:induction false} PreflightServed(db: Db, r: Request, k: nat)
    requires r.pc == CheckingId(k) && InRange(r) && forall id | id in r.ids :: id in db.drafts
    ensures PassesFrom(db, r.ids, r.drafts, r.now, k) ==> Serve(db, r) == Serve(db, r.(pc := Reading(0)))
    ensures !PassesFrom(db, r.ids, r.drafts, r.now, k) ==>
      Serve(db, r) == (db.(drafts := MarkAll(db.drafts, r.ids, Pending)), Protocol.Finish(r, false, []))
    decreases |r.ids| - k
  {
    if !Passes(db, r.ids[k], r.drafts[k], r.now) {
      BlockedOne(db, r, k);
      ReleasingServed(db, r.(pc := Releasing(r.ids, [])), r.ids, []);
    } else {
      PassesOne(db, r, k);
      if k + 1 < |r.ids| { PreflightServed(db, r.(pc := CheckingId(k + 1)), k + 1); }
    }
  }

  // ---- Reflecting ---------------------------------------------------------------------------------

  function AfterReflecting(r: Request, i: nat): Request {
    if i + 1 < |r.ids| then r.(pc := Reading(i + 1)) else Protocol.Finish(r, true, r.ids)
  }

  lemma WritingServed(db: Db, r: Request, i: nat)
    requires r.pc == Reading(i) && ReadyToReflect(db, r, i)
    ensures InRange(r.(pc := Auditing(i))) && Serve(db, r) == Serve(Written(db, r, i), r.(pc := Auditing(i)))
  {
    var previous := Current(db.versions, r.drafts[i].policyId, r.now);
    ReadingReads(db, r, i);
    ServeNext(db, r, db, r.(pc := Recording(i, previous)));
    RecordingRecords(db, r.(pc := Recording(i, previous)), i, previous);
    ServeNext(db, r.(pc := Recording(i, previous)), Recorded(db, r, i), r.(pc := Installing(i, previous)));
    InstallSucceeds(db, r, i);
    InstallingInstalls(Recorded(db, r, i), r.(pc := Installing(i, previous)), i, previous, Written(db, r, i));
    ServeNext(Recorded(db, r, i), r.(pc := Installing(i, previous)), Written(db, r, i), r.(pc := Auditing(i)));
  }

  // A draft that can be installed is reflected, and the next one is taken up.
  lemma ReflectOne(db: Db, r: Request, i: nat)
    requires r.pc == Reading(i) && ReadyToReflect(db, r, i)
    ensures InRange(AfterReflecting(r, i))
    ensures Serve(db, r) == Serve(Reflected(db, r.ids[i], r.drafts[i], r.reason, r.session, r.now), AfterReflecting(r, i))
  {
    WritingServed(db, r, i);
    AuditingAudits(Written(db, r, i), r.(pc := Auditing(i)), i);
    ServeNext(Written(db, r, i), r.(pc := Auditing(i)), Reflected(db, r.ids[i], r.drafts[i], r.reason, r.session, r.now), AfterReflecting(r, i));
  }

  lemma InstallFails(db: Db, r: Request, i: nat)
    requires i < |r.ids| && |r.drafts| == |r.ids| && UniqueIds(db.versions) && !CanInstall(db, r.ids[i], r.drafts[i], r.now)
    ensures Install(Recorded(db, r, i), r, i, Current(db.versions, r.drafts[i].policyId, r.now)).Err?
  {
    var previous := Current(db.versions, r.drafts[i].policyId, r.now);
    CurrentIsActive(db.versions, r.drafts[i].policyId, r.now);
    if previous.Some? { FoundById(db.versions, previous.value); }
  }

  // A draft that cannot be installed is given back with the ones after it. Its record and the
  // drafts before it stay.
  lemma RefuseOne(db: Db, r: Request, i: nat)
    requires r.pc == Reading(i) && InRange(r) && r.decision == Approved && UniqueIds(db.versions)
    requires !CanInstall(db, r.ids[i], r.drafts[i], r.now) && forall id | id in r.ids :: id in db.drafts
    ensures Serve(db, r) == (Recorded(db, r, i).(drafts := MarkAll(db.drafts, r.ids[i..], Pending)), Protocol.Finish(r, false, r.ids[..i]))
  {
    var previous := Current(db.versions, r.drafts[i].policyId, r.now);
    var recorded := Recorded(db, r, i);
    ReadingReads(db, r, i);
    ServeNext(db, r, db, r.(pc := Recording(i, previous)));
    RecordingRecords(db, r.(pc := Recording(i, previous)), i, previous);
    ServeNext(db, r.(pc := Recording(i, previous)), recorded, r.(pc := Installing(i, previous)));
    InstallFails(db, r, i);
    InstallingRefuses(recorded, r.(pc := Installing(i, previous)), i, previous);
    ServeNext(recorded, r.(pc := Installing(i, previous)), recorded, r.(pc := Releasing(r.ids[i..], r.ids[..i])));
    ReleasingServed(recorded, r.(pc := Releasing(r.ids[i..], r.ids[..i])), r.ids[i..], r.ids[..i]);
  }

  ghost predicate AllEndOpen(db: Db, drafts: map<string, Draft>, ids: seq<string>, now: int)
    requires forall id | id in ids :: id in drafts
  {
    forall i | 0 <= i < |ids| :: EndsOpen(db, drafts[ids[i]], now)
  }

  // A batch that has passed its preflight and stands with all its claims.
  ghost predicate Cleared(before: Db, drafts: map<string, Draft>, r: Request) {
    && r.decision == Approved && r.session.userId != "" && UniqueIds(before.versions)
    && Distinct(r.ids) && DistinctPolicies(drafts, r.ids) && PreflightPasses(before, drafts, r.ids, r.now)
    && (forall id | id in r.ids :: id in before.drafts) && r.drafts == Rows(drafts, r.ids)
  }

  ghost predicate StopsAt(before: Db, drafts: map<string, Draft>, r: Request, j: int, after: Db, end: Request)
    requires DistinctPolicies(drafts, r.ids)
  {
    StoppedAt(before, after, drafts, r.ids, j, r.reason, r.session, r.now) && end == Protocol.Finish(r, false, r.ids[..j])
  }

  lemma ReflectNext(before: Db, drafts: map<string, Draft>, db: Db, r: Request, k: nat)
    requires Cleared(before, drafts, r) && r.pc == Reading(k) && k < |r.ids|
    requires AppliedUpTo(before, db, drafts, r.ids, k, r.reason, r.session, r.now) && EndsOpen(before, drafts[r.ids[k]], r.now)
    ensures var next := Reflected(db, r.ids[k], drafts[r.ids[k]], r.reason, r.session, r.now);
      && InRange(AfterReflecting(r, k)) && Serve(db, r) == Serve(next, AfterReflecting(r, k))
      && AppliedUpTo(before, next, drafts, r.ids, k + 1, r.reason, r.session, r.now)
  {
    ApplyNext(before, drafts, r.ids, k, r.reason, r.session, r.now);
    ReflectOne(db, r, k);
  }

  lemma StopNext(before: Db, drafts: map<string, Draft>, db: Db, r: Request, k: nat)
    requires Cleared(before, drafts, r) && r.pc == Reading(k) && k < |r.ids|
    requires AppliedUpTo(before, db, drafts, r.ids, k, r.reason, r.session, r.now) && !EndsOpen(before, drafts[r.ids[k]], r.now)
    ensures StopsAt(before, drafts, r, k, Serve(db, r).0, Serve(db, r).1)
  {
    ApplyNext(before, drafts, r.ids, k, r.reason, r.session, r.now);
    RefuseOne(db, r, k);
  }

  lemma {:induction false} ReflectingServed(before: Db, drafts: map<string, Draft>, db: Db, r: Request, k: nat)
    requires Cleared(before, drafts, r) && r.pc == Reading(k) && k < |r.ids|
    requires AppliedUpTo(before, db, drafts, r.ids, k, r.reason, r.session, r.now)
    ensures AllEndOpen(before, drafts, r.ids, r.now) ==>
      Serve(db, r) == (Applied(before, drafts, r.ids, r.reason, r.session, r.now), Protocol.Finish(r, true, r.ids))
    ensures !AllEndOpen(before, drafts, r.ids, r.now) ==>
      exists j :: StopsAt(before, drafts, r, j, Serve(db, r).0, Serve(db, r).1)
    decreases |r.ids| - k, 0
  {
    if !EndsOpen(before, drafts[r.ids[k]], r.now) {
      StopNext(before, drafts, db, r, k);
    } else {
      ReflectNext(before, drafts, db, r, k);
      var next := Reflected(db, r.ids[k], drafts[r.ids[k]], r.reason, r.session, r.now);
      if k + 1 < |r.ids| {
        ReflectRest(before, drafts, db, r, k, next);
      } else {
        assert r.ids[..k + 1] == r.ids;
      }
    }
  }

  lemma {:induction false} ReflectRest(before: Db, drafts: map<string, Draft>, db: Db, r: Request, k: nat, next: Db)
    requires Cleared(before, drafts, r) && r.pc == Reading(k) && k + 1 < |r.ids|
    requires AppliedUpTo(before, next, drafts, r.ids, k + 1, r.reason, r.session, r.now)
    requires Serve(db, r) == Serve(next, r.(pc := Reading(k + 1)))
    ensures AllEndOpen(before, drafts, r.ids, r.now) ==>
      Serve(db, r) == (Applied(before, drafts, r.ids, r.reason, r.session, r.now), Protocol.Finish(r, true, r.ids))
    ensures !AllEndOpen(before, drafts, r.ids, r.now) ==>
      exists j :: StopsAt(before, drafts, r, j, Serve(db, r).0, Serve(db, r).1)
    decreases |r.ids| - k - 1, 1
  {
    var r' := r.(pc := Reading(k + 1));
    ReflectingServed(before, drafts, next, r', k + 1);
    if !AllEndOpen(before, drafts, r.ids, r.now) {
      var j :| StopsAt(before, drafts, r', j, Serve(next, r').0, Serve(next, r').1);
      assert StopsAt(before, drafts, r, j, Serve(db, r).0, Serve(db, r).1);
    }
  }

  // ---- A batch --------------------------------------------------------------------------------------

  function Claims(db: Db, ids: seq<string>): Db { db.(drafts := MarkAll(db.drafts, ids, Approved)) }

  // What a batch served on its own leaves behind, and what it answers.
  ghost predicate BatchOutcome(before: Db, r: Request, after: Db, end: Request) {
    && (!Acceptable(before, r.ids, r.now) ==> after == before && end.pc == Done(false, []))
    && (Finishes(before, r.ids, r.now) ==>
        && end.pc == Done(true, r.ids)
        && after == Claims(Applied(before, before.drafts, r.ids, r.reason, r.session, r.now), r.ids))
    && (Acceptable(before, r.ids, r.now) && !Finishes(before, r.ids, r.now) ==>
        && LeftHalfway(before, after, r.ids, r.reason, r.session, r.now)
        && exists j :: StoppedAt(Claims(before, r.ids), after, before.drafts, r.ids, j, r.reason, r.session, r.now) && end.pc == Done(false, r.ids[..j]))
  }

  // Claims are no business of the version table.
  lemma ClaimsKeepTable(db: Db, ids: seq<string>, now: int)
    requires DistinctPolicies(db.drafts, ids)
    ensures PreflightPasses(Claims(db, ids), db.drafts, ids, now) <==> PreflightPasses(db, db.drafts, ids, now)
    ensures AllEndOpen(Claims(db, ids), db.drafts, ids, now) <==> AllEndOpen(db, db.drafts, ids, now)
    ensures PassesFrom(Claims(db, ids), ids, Rows(db.drafts, ids), now, 0) <==> PreflightPasses(db, db.drafts, ids, now)
  {
    var rows := Rows(db.drafts, ids);
    forall i | 0 <= i < |ids| ensures
      Passes(Claims(db, ids), ids[i], rows[i], now) <==> !HasVersion(db.versions, VersionId(ids[i])) && StartsInTime(db, db.drafts[ids[i]], now) {
    }
  }

  // The batch has been looked at and claimed, and its policies are distinct.
  lemma BatchFromPreflight(before: Db, r: Request)
    requires r.batch && r.decision == Approved && r.pc == CheckingId(0) && r.ids != [] && r.session.userId != ""
    requires UniqueIds(before.versions) && PendingIsClean(before) && Distinct(r.ids) && AllPending(before, r.ids)
    requires DistinctPolicies(before.drafts, r.ids) && r.drafts == Rows(before.drafts, r.ids)
    ensures BatchOutcome(before, r, Serve(Claims(before, r.ids), r).0, Serve(Claims(before, r.ids), r).1)
  {
    var db := Claims(before, r.ids);
    ClaimsKeepTable(before, r.ids, r.now);
    PreflightServed(db, r, 0);
    if !Acceptable(before, r.ids, r.now) {
      MarkedBack(before.drafts, r.ids, Approved);
    } else {
      BatchFromReading(before, db, r.(pc := Reading(0)));
    }
  }

  lemma BatchFromReading(before: Db, db: Db, r: Request)
    requires r.batch && r.decision == Approved && r.pc == Reading(0) && r.session.userId != ""
    requires UniqueIds(before.versions) && Acceptable(before, r.ids, r.now) && r.drafts == Rows(before.drafts, r.ids)
    requires db == Claims(before, r.ids)
    ensures BatchOutcome(before, r, Serve(db, r).0, Serve(db, r).1)
  {
    ClaimsKeepTable(before, r.ids, r.now);
    assert Applied(db, before.drafts, r.ids[..0], r.reason, r.session, r.now) == db;
    ReflectingServed(db, before.drafts, db, r, 0);
    if AllEndOpen(db, before.drafts, r.ids, r.now) {
      assert Applied(db, before.drafts, r.ids, r.reason, r.session, r.now)
        == Claims(Applied(before, before.drafts, r.ids, r.reason, r.session, r.now), r.ids);
    } else {
      BatchHalts(before, r, Serve(db, r).0, Serve(db, r).1);
    }
  }

  lemma BatchHalts(before: Db, r: Request, after: Db, end: Request)
    requires Acceptable(before, r.ids, r.now)
    requires !AllEndOpen(Claims(before, r.ids), before.drafts, r.ids, r.now)
    requires exists j :: StopsAt(Claims(before, r.ids), before.drafts, r, j, after, end)
    ensures !Finishes(before, r.ids, r.now) && BatchOutcome(before, r, after, end)
  {
    ClaimsKeepTable(before, r.ids, r.now);
    var j :| StopsAt(Claims(before, r.ids), before.drafts, r, j, after, end);
    assert StoppedAt(Claims(before, r.ids), after, before.drafts, r.ids, j, r.reason, r.session, r.now);
  }

  // A batch of any length, on any store with unique version ids: not acceptable, and nothing
  // has changed; acceptable with every version open, and all of it is reflected and approved;
  // otherwise it stops at the first version with an end, the drafts before it decided.
  lemma BatchServed(db: Db, ids: seq<string>, reason: Option<string>, session: Session, now: int)
    requires UniqueIds(db.versions) && PendingIsClean(db) && ids != [] && Distinct(ids) && session.userId != ""
    ensures var r := Fresh(true, Approved, ids, reason, session, now);
      BatchOutcome(db, r, Serve(db, r).0, Serve(db, r).1)
  {
    var r := Fresh(true, Approved, ids, reason, session, now);
    CheckingServed(db, r, 0);
    if AllPending(db, ids) {
      RepeatsIff(db.drafts, ids);
      if DistinctPolicies(db.drafts, ids) {
        var read := r.(drafts := Rows(db.drafts, ids), pc := Claiming(0));
        assert db == db.(drafts := MarkAll(db.drafts, ids[..0], Approved));
        ClaimingServed(db, db, read, 0);
        BatchFromPreflight(db, read.(pc := CheckingId(0)));
      }
    }
  }

  // ---- A single decision ----------------------------------------------------------------------------

  predicate NeedsReason(decision: Status, reason: Option<string>) {
    decision == Rejected && (reason.None? || Blank(reason.value))
  }

  // What one decision served on its own leaves behind, and what it answers.
  ghost predicate DecisionOutcome(before: Db, id: string, decision: Status, reason: Option<string>, session: Session, now: int, after: Db, pc: Pc) {
    if !PendingIn(before, id) || NeedsReason(decision, reason) then after == before && pc == Done(false, [])
    else if decision == Rejected then
      after == TurnedDown(Claimed(before, id, Rejected), id, before.drafts[id], reason, session, now) && pc == Done(true, [id])
    else if CanInstall(before, id, before.drafts[id], now) then
      after == Reflected(Claimed(before, id, Approved), id, before.drafts[id], reason, session, now) && pc == Done(true, [id])
    else
      after == before.(approvals := before.approvals + [RecordOf(id, Approved, reason, session, now)]) && pc == Done(false, [])
  }

  // The draft has been read and claimed.
  lemma DecisionStarts(db: Db, id: string, decision: Status, reason: Option<string>, session: Session, now: int)
    requires PendingIn(db, id) && !NeedsReason(decision, reason) && (decision == Approved || decision == Rejected)
    ensures var r := Fresh(false, decision, [id], reason, session, now);
      Serve(db, r) == Serve(Claimed(db, id, decision), r.(drafts := [db.drafts[id]], pc := Reading(0)))
  {
    var r := Fresh(false, decision, [id], reason, session, now);
    var read := r.(drafts := [db.drafts[id]], pc := Claiming(0));
    SingleIsChecked(db, r);
    ServeNext(db, r, db, read);
    SingleIsClaimed(db, read);
    ServeNext(db, read, Claimed(db, id, decision), read.(pc := Reading(0)));
  }

  lemma DecisionDeclined(db: Db, id: string, decision: Status, reason: Option<string>, session: Session, now: int)
    requires !PendingIn(db, id) || NeedsReason(decision, reason)
    ensures var r := Fresh(false, decision, [id], reason, session, now);
      Serve(db, r).0 == db && Serve(db, r).1.pc == Done(false, [])
  {
    var r := Fresh(false, decision, [id], reason, session, now);
    if !PendingIn(db, id) {
      ServeNext(db, r, db, Protocol.Finish(r, false, []));
    } else {
      var read := r.(drafts := [] + [db.drafts[id]]);
      ServeNext(db, r, db, Protocol.Finish(read, false, []));
    }
  }

  lemma RejectionServed(db: Db, r: Request, id: string)
    requires r.pc == Reading(0) && r.ids == [id] && |r.drafts| == 1 && r.decision == Rejected && !NeedsReason(Rejected, r.reason)
    ensures Serve(db, r) == (TurnedDown(db, id, r.drafts[0], r.reason, r.session, r.now), Protocol.Finish(r, true, [id]))
  {
    var recorded := db.(approvals := db.approvals + [RecordOf(id, Rejected, r.reason, r.session, r.now)]);
    RejectionReads(db, r);
    ServeNext(db, r, db, r.(pc := Recording(0, None)));
    RejectionRecords(db, r.(pc := Recording(0, None)));
    ServeNext(db, r.(pc := Recording(0, None)), recorded, r.(pc := Auditing(0)));
    AuditingAudits(recorded, r.(pc := Auditing(0)), 0);
    ServeNext(recorded, r.(pc := Auditing(0)), TurnedDown(db, id, r.drafts[0], r.reason, r.session, r.now), Protocol.Finish(r, true, [id]));
  }

  lemma ApprovalServed(before: Db, r: Request, id: string)
    requires r.pc == Reading(0) && r.ids == [id] && r.decision == Approved && r.session.userId != ""
    requires UniqueIds(before.versions) && PendingIsClean(before) && PendingIn(before, id) && r.drafts == [before.drafts[id]]
    ensures var (after, end) := Serve(Claimed(before, id, Approved), r);
      DecisionOutcome(before, id, Approved, r.reason, r.session, r.now, after, end.pc)
  {
    var db := Claimed(before, id, Approved);
    assert CanInstall(db, id, r.drafts[0], r.now) == CanInstall(before, id, r.drafts[0], r.now);
    if CanInstall(db, id, r.drafts[0], r.now) {
      ReflectOne(db, r, 0);
    } else {
      RefuseOne(db, r, 0);
      assert MarkAll(db.drafts, r.ids[0..], Pending) == before.drafts;
    }
  }

  // A single decision, on any store with unique version ids and any draft: the interleaved
  // protocol, left alone, does what the serial decision does.
  lemma DecisionServed(db: Db, id: string, decision: Status, reason: Option<string>, session: Session, now: int)
    requires UniqueIds(db.versions) && PendingIsClean(db) && session.userId != "" && (decision == Approved || decision == Rejected)
    ensures var (after, end) := Serve(db, Fresh(false, decision, [id], reason, session, now));
      DecisionOutcome(db, id, decision, reason, session, now, after, end.pc)
  {
    if !PendingIn(db, id) || NeedsReason(decision, reason) {
      DecisionDeclined(db, id, decision, reason, session, now);
    } else {
      DecisionStarts(db, id, decision, reason, session, now);
      var reading := Fresh(false, decision, [id], reason, session, now).(drafts := [db.drafts[id]], pc := Reading(0));
      if decision == Rejected {
        RejectionServed(Claimed(db, id, Rejected), reading, id);
      } else {
        ApprovalServed(db, reading, id);
      }
    }
  }

  // ---- One call that throws --------------------------------------------------------------------------

  // The draft a request is reflecting, if it is.
  function ReflectingAt(r: Request): Option<nat> {
    match r.pc
    case Reading(k) => Some(k)
    case Recording(k, _) => Some(k)
    case Installing(k, _) => Some(k)
    case Auditing(k) => Some(k)
    case _ => None
  }

  // A call that throws writes nothing. While a draft is being reflected, that draft and the ones
  // after it are given back and the ones before it stay decided. At any other time the request
  // just ends, and whatever it had claimed stays claimed.
  lemma ThrowServed(db: Db, r: Request)
    requires InRange(r) && !r.pc.Done? && forall id | id in r.ids :: id in db.drafts
    ensures var (db', r') := Advance(db, r, true);
      && db' == db && InRange(r')
      && match ReflectingAt(r)
         case None => r'.pc == Done(false, Held(r))
         case Some(k) =>
           && Serve(db', r').0 == db.(drafts := MarkAll(db.drafts, r.ids[k..], Pending))
           && Serve(db', r').1.pc == Done(false, r.ids[..k])
  {
    var at := ReflectingAt(r);
    if at.Some? {
      var k := at.value;
      ReleasingServed(db, r.(pc := Releasing(r.ids[k..], r.ids[..k])), r.ids[k..], r.ids[..k]);
    }
  }

  // ---- In a run ---------------------------------------------------------------------------------------

  // From any state of any run whose clock never stepped back: a batch that has just read the
  // clock and is served on its own until it has ended reflects all of its drafts or none, and
  // it reflects them exactly when it is acceptable.
  lemma SerialBatchFinishes(states: seq<System>, actions: seq<Action>, i: nat, alone: seq<System>, calls: seq<Action>, k: nat)
    requires Run(states, actions) && i < |states| && NothingAhead(states[0])
    requires Alone(alone, calls, k) && alone[0] == states[i]
    requires UniqueIds(states[0].db.versions) && PendingIsClean(states[i].db)
    requires var r := alone[0].requests[k];
      Arriving(r, states[i].clock) && r.batch && r.decision == Approved && r.session.userId != ""
    requires k < |alone[|calls|].requests| && alone[|calls|].requests[k].pc.Done?
    ensures var r, before, after := alone[0].requests[k], alone[0].db, alone[|calls|].db;
      && alone[|calls|] == With(alone[0], k, after, alone[|calls|].requests[k])
      && alone[|calls|].requests[k].pc == (if Acceptable(before, r.ids, r.now) then Done(true, r.ids) else Done(false, []))
      && (Acceptable(before, r.ids, r.now) ==> after == Claims(Applied(before, before.drafts, r.ids, r.reason, r.session, r.now), r.ids))
      && (!Acceptable(before, r.ids, r.now) ==> after == before)
  {
    var r := alone[0].requests[k];
    RunKeepsPast(states, actions, i);
    RunKeepsIds(states, actions, i);
    PastHistoryFinishes(states[i].db, r.ids, r.now);
    AloneEnds(alone, calls, k);
    assert r == Fresh(true, Approved, r.ids, r.reason, r.session, r.now);
    BatchServed(states[i].db, r.ids, r.reason, r.session, r.now);
  }
}
