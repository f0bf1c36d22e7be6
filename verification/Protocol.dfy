// Any number of approve, reject and batch requests running at once against one store. A
// step of a request is a single store call; steps interleave freely, any call may throw
// without effect, and only the handlers of the code roll back
// (main.py, _decide, _apply_decision, _batch_approve, and the two decision endpoints).
module Protocol {
  import opened Basics
  import opened JsonValues
  import opened RuleStore
  import opened Timeline
  import opened Approval
  import opened Impact

  // Where a request stands. `next` counts the drafts the current pass has finished.
  datatype Pc =
    | Checking(next: nat)
    | Claiming(next: nat)
    | CheckingId(next: nat)
    | CheckingWindow(next: nat)
    | Reading(next: nat)
    | Recording(next: nat, previous: Option<Version>)
    | Installing(next: nat, previous: Option<Version>)
    | Auditing(next: nat)
    | Releasing(todo: seq<string>, kept: seq<string>)
    | Done(ok: bool, kept: seq<string>)

  // A single decision is a request for one draft. `now` was read when the request arrived.
  datatype Request = Request(batch: bool, decision: Status, ids: seq<string>, drafts: seq<Draft>,
                             reason: Option<string>, session: Session, now: int, pc: Pc)

  datatype System = System(db: Db, requests: seq<Request>, clock: int)

  function Finish(r: Request, ok: bool, kept: seq<string>): Request { r.(pc := Done(ok, kept)) }

  // The rollback of a failed reflection: this draft and the ones after it go back.
  function RollBack(r: Request, k: nat): Request
    requires k <= |r.ids|
  {
    r.(pc := Releasing(r.ids[k..], r.ids[..k]))
  }

  predicate RepeatsPolicy(drafts: seq<Draft>) {
    exists i, j :: 0 <= i < j < |drafts| && drafts[i].policyId == drafts[j].policyId
  }

  function AfterChecking(r: Request): Request {
    if r.batch && RepeatsPolicy(r.drafts) then Finish(r, false, [])
    else if r.decision == Rejected && (r.reason.None? || Blank(r.reason.value)) then Finish(r, false, [])
    else r.(pc := Claiming(0))
  }

  ghost predicate InRange(r: Request) {
    match r.pc
    case Checking(k) => k < |r.ids| && |r.drafts| == k
    case Claiming(k) => k < |r.ids| && |r.drafts| == |r.ids|
    case CheckingId(k) => k < |r.ids| && |r.drafts| == |r.ids|
    case CheckingWindow(k) => k < |r.ids| && |r.drafts| == |r.ids|
    case Reading(k) => k < |r.ids| && |r.drafts| == |r.ids|
    case Recording(k, _) => k < |r.ids| && |r.drafts| == |r.ids|
    case Installing(k, _) => k < |r.ids| && |r.drafts| == |r.ids| && r.decision == Approved
    case Auditing(k) => k < |r.ids| && |r.drafts| == |r.ids|
    case Releasing(todo, _) => todo != []
    case Done(_, _) => true
  }

  function ReleasingOrDone(r: Request, todo: seq<string>, kept: seq<string>): Request {
    if todo == [] then Finish(r, false, kept) else r.(pc := Releasing(todo, kept))
  }

  // The store call that puts a new version in force.
  function Install(db: Db, r: Request, k: nat, previous: Option<Version>): (result: Result<Db, StoreError>)
    requires k < |r.ids| && k < |r.drafts|
    ensures result.Ok? ==> result.value.drafts == db.drafts
  {
    var version := NewVersion(previous, r.ids[k], r.drafts[k], r.session, r.now);
    if previous.None? then AddVersion(db, version) else Supersede(db, previous.value.id, version, r.now)
  }

  // One store call of one request; `throws` makes that call raise instead of taking effect.
  ghost function Advance(db: Db, r: Request, throws: bool): (Db, Request)
    requires InRange(r) && !r.pc.Done?
  {
    var n := |r.ids|;
    match r.pc
    case Checking(k) =>
      if throws || r.ids[k] !in db.drafts || db.drafts[r.ids[k]].status != Pending then (db, Finish(r, false, []))
      else
        var read := r.(drafts := r.drafts + [db.drafts[r.ids[k]]]);
        (db, if k + 1 < n then read.(pc := Checking(k + 1)) else AfterChecking(read))
    case Claiming(k) =>
      // Only a lost claim is handled; any other exception leaves the earlier claims standing.
      if throws then (db, Finish(r, false, r.ids[..k]))
      else (match ClaimPending(db, r.ids[k], r.decision)
        case Ok(next) => (next, r.(pc := if k + 1 < n then Claiming(k + 1) else if r.batch then CheckingId(0) else Reading(0)))
        case Err(_) => (db, ReleasingOrDone(r, r.ids[..k], [])))
    case CheckingId(k) =>
      if throws then (db, Finish(r, false, r.ids))
      else if HasVersion(db.versions, VersionId(r.ids[k])) then (db, r.(pc := Releasing(r.ids, [])))
      else (db, r.(pc := CheckingWindow(k)))
    case CheckingWindow(k) =>
      if throws then (db, Finish(r, false, r.ids))
      else if !StartsInTime(db, r.drafts[k], r.now) then (db, r.(pc := Releasing(r.ids, [])))
      else (db, r.(pc := if k + 1 < n then CheckingId(k + 1) else Reading(0)))
    case Reading(k) =>
      if throws then (db, RollBack(r, k))
      else (db, r.(pc := Recording(k, if r.decision == Approved then Current(db.versions, r.drafts[k].policyId, r.now) else None)))
    case Recording(k, previous) =>
      if throws then (db, RollBack(r, k))
      else (match AddApproval(db, RecordOf(r.ids[k], r.decision, r.reason, r.session, r.now))
        case Ok(next) => (next, r.(pc := if r.decision == Approved then Installing(k, previous) else Auditing(k)))
        case Err(_) => (db, RollBack(r, k)))
    case Installing(k, previous) =>
      if throws then (db, RollBack(r, k))
      else (match Install(db, r, k, previous)
        case Ok(next) => (next, r.(pc := Auditing(k)))
        case Err(_) => (db, RollBack(r, k)))
    case Auditing(k) =>
      if throws then (db, RollBack(r, k))
      else (AppendAudit(db, EventOf(r.ids[k], r.drafts[k], r.decision, r.session, r.now)),
            if k + 1 < n then r.(pc := Reading(k + 1)) else Finish(r, true, r.ids))
    case Releasing(todo, kept) =>
      if throws then (db, Finish(r, false, kept + todo))
      else (match SetStatus(db, todo[0], Pending, None)
        case Ok(next) => (next, ReleasingOrDone(r, todo[1..], kept))
        case Err(_) => (db, Finish(r, false, kept + todo)))
  }

  // ---- Runs ------------------------------------------------------------------------------

  // A fresh request: one draft, or a batch that is non-empty and repeats no draft. (Requests
  // refused for their own contradiction never touch the store.)
  ghost predicate Arriving(r: Request, clock: int) {
    && r.pc == Checking(0) && r.drafts == [] && r.now == clock
    && r.ids != [] && Distinct(r.ids) && (!r.batch ==> |r.ids| == 1)
    && (r.decision == Approved || (r.decision == Rejected && !r.batch))
  }

  datatype Action =
    | Tick(to: int)
    | Arrive(request: Request)
    | Extracted(id: string, draft: Draft)
    | Act(who: nat, throws: bool)

  ghost predicate Next(s: System, a: Action, t: System) {
    match a
    case Tick(to) => s.clock <= to && t == s.(clock := to)
    case Arrive(r) => Arriving(r, s.clock) && t == s.(requests := s.requests + [r])
    case Extracted(id, draft) => AddDraft(s.db, id, draft).Ok? && t == s.(db := AddDraft(s.db, id, draft).value)
    case Act(k, throws) =>
      && k < |s.requests| && InRange(s.requests[k]) && !s.requests[k].pc.Done?
      && t == s.(db := Advance(s.db, s.requests[k], throws).0, requests := s.requests[k := Advance(s.db, s.requests[k], throws).1])
  }

  ghost predicate StepAt(states: seq<System>, actions: seq<Action>, i: int) {
    0 <= i < |actions| && i + 1 < |states| && Next(states[i], actions[i], states[i + 1])
  }

  ghost predicate Run(states: seq<System>, actions: seq<Action>) {
    && |states| == |actions| + 1 && states[0].requests == []
    && forall i | 0 <= i < |actions| :: StepAt(states, actions, i)
  }

  // ---- Claim safety ----------------------------------------------------------------------

  // The drafts a request has claimed and not given back.
  function Held(r: Request): seq<string> {
    match r.pc
    case Checking(_) => []
    case Claiming(k) => if k <= |r.ids| then r.ids[..k] else []
    case Releasing(todo, kept) => kept + todo
    case Done(_, kept) => kept
    case _ => r.ids
  }

  ghost predicate Sound(r: Request) {
    && InRange(r) && Distinct(r.ids) && Distinct(Held(r))
    && (r.decision == Approved || r.decision == Rejected)
    && (r.pc.Done? && r.pc.ok ==> r.pc.kept == r.ids)
  }

  // Nobody but the holder of a draft has claimed it, and it stands at the holder's decision.
  ghost predicate Safe(s: System) {
    && (forall k | 0 <= k < |s.requests| :: Sound(s.requests[k]))
    && (forall k | 0 <= k < |s.requests| :: Holds(s.db, s.requests[k]))
    && (forall k, l | 0 <= k < l < |s.requests| :: Apart(Held(s.requests[k]), Held(s.requests[l])))
  }

  ghost predicate Holds(db: Db, r: Request) {
    forall d | d in Held(r) :: d in db.drafts && db.drafts[d].status == r.decision
  }

  ghost predicate Apart(a: seq<string>, b: seq<string>) {
    forall d | d in a :: d !in b
  }

  // What one call does to the drafts and to the caller's own claims: it changes at most one
  // draft, and then either claims it while pending or gives back one it holds.
  ghost predicate Touches(db: Db, r: Request, db': Db, r': Request, d: string) {
    && d in db.drafts && d in db'.drafts
    && db'.drafts == db.drafts[d := db'.drafts[d]]
    && ((db.drafts[d].status == Pending && db'.drafts[d].status == r.decision && Held(r') == Held(r) + [d] && d !in Held(r))
        || (d in Held(r) && db'.drafts[d].status == Pending && d !in Held(r') && forall e :: e in Held(r') <==> e in Held(r) && e != d))
  }

  // A step that leaves the drafts and the claims alone.
  ghost predicate Idle(db: Db, r: Request, db': Db, r': Request) {
    db'.drafts == db.drafts && forall e :: e in Held(r') <==> e in Held(r)
  }

  ghost predicate Continues(r: Request, r': Request) {
    Sound(r') && r'.ids == r.ids && r'.decision == r.decision && r'.now == r.now
  }

  lemma LostClaimStep(db: Db, r: Request, throws: bool)
    requires Sound(r) && r.pc.Claiming? && (throws || ClaimPending(db, r.ids[r.pc.next], r.decision).Err?)
    ensures var (db', r') := Advance(db, r, throws);
      Continues(r, r') && Idle(db, r, db', r')
  {
  }

  lemma WonClaimStep(db: Db, r: Request)
    requires Sound(r) && r.pc.Claiming? && Holds(db, r) && ClaimPending(db, r.ids[r.pc.next], r.decision).Ok?
    ensures var (db', r') := Advance(db, r, false);
      Continues(r, r') && Touches(db, r, db', r', r.ids[r.pc.next])
  {
    var k := r.pc.next;
    assert r.ids[..k + 1] == r.ids[..k] + [r.ids[k]];
    assert r.ids[..|r.ids|] == r.ids;
  }

  lemma ClaimingStep(db: Db, r: Request, throws: bool)
    requires Sound(r) && r.pc.Claiming? && Holds(db, r)
    ensures var (db', r') := Advance(db, r, throws);
      Continues(r, r') && (Idle(db, r, db', r') || Touches(db, r, db', r', r.ids[r.pc.next]))
  {
    if throws || ClaimPending(db, r.ids[r.pc.next], r.decision).Err? { LostClaimStep(db, r, throws); } else { WonClaimStep(db, r); }
  }

  lemma ReleasingStep(db: Db, r: Request, throws: bool)
    requires Sound(r) && r.pc.Releasing? && Holds(db, r)
    ensures var (db', r') := Advance(db, r, throws);
      Continues(r, r') && (Idle(db, r, db', r') || Touches(db, r, db', r', r.pc.todo[0]))
  {
    DropFirstOfSecond(r.pc.kept, r.pc.todo);
    assert r.pc.todo[0] in Held(r);
    assert |r.pc.todo| == 1 ==> r.pc.kept + r.pc.todo[1..] == r.pc.kept;
  }

  lemma DropFirstOfSecond(a: seq<string>, b: seq<string>)
    requires b != [] && Distinct(a + b)
    ensures Distinct(a + b[1..]) && b[0] !in a + b[1..] && b[0] in a + b
    ensures forall e :: e in a + b[1..] <==> e in a + b && e != b[0]
  {
    var all, rest := a + b, a + b[1..];
    assert all[|a|] == b[0];
    forall i | 0 <= i < |rest| ensures rest[i] == all[if i < |a| then i else i + 1] {}
    forall e | e in all && e != b[0] ensures e in rest {
      var i :| 0 <= i < |all| && all[i] == e;
      assert rest[if i < |a| then i else i - 1] == e;
    }
  }

  lemma CheckingStep(db: Db, r: Request, throws: bool)
    requires Sound(r) && r.pc.Checking?
    ensures var (db', r') := Advance(db, r, throws);
      Continues(r, r') && Idle(db, r, db', r')
  {
  }

  lemma CheckingIdStep(db: Db, r: Request, throws: bool)
    requires Sound(r) && r.pc.CheckingId?
    ensures var (db', r') := Advance(db, r, throws);
      Continues(r, r') && Idle(db, r, db', r')
  {
  }

  lemma CheckingWindowStep(db: Db, r: Request, throws: bool)
    requires Sound(r) && r.pc.CheckingWindow?
    ensures var (db', r') := Advance(db, r, throws);
      Continues(r, r') && Idle(db, r, db', r')
  {
  }

  lemma LookingStep(db: Db, r: Request, throws: bool)
    requires Sound(r) && (r.pc.Checking? || r.pc.CheckingId? || r.pc.CheckingWindow?)
    ensures var (db', r') := Advance(db, r, throws);
      Continues(r, r') && Idle(db, r, db', r')
  {
    if r.pc.Checking? { CheckingStep(db, r, throws); }
    else if r.pc.CheckingId? { CheckingIdStep(db, r, throws); }
    else { CheckingWindowStep(db, r, throws); }
  }

  lemma RollingBackStep(db: Db, r: Request)
    requires Sound(r) && (r.pc.Reading? || r.pc.Recording? || r.pc.Installing? || r.pc.Auditing?)
    ensures Continues(r, RollBack(r, r.pc.next)) && Idle(db, r, db, RollBack(r, r.pc.next))
  {
    assert r.ids[..r.pc.next] + r.ids[r.pc.next..] == r.ids;
  }

  lemma ReadingStep(db: Db, r: Request, throws: bool)
    requires Sound(r) && (r.pc.Reading? || r.pc.Recording?)
    ensures var (db', r') := Advance(db, r, throws);
      Continues(r, r') && Idle(db, r, db', r')
  {
    RollingBackStep(db, r);
  }

  lemma InstallingStep(db: Db, r: Request, throws: bool)
    requires Sound(r) && (r.pc.Installing? || r.pc.Auditing?)
    ensures var (db', r') := Advance(db, r, throws);
      Continues(r, r') && Idle(db, r, db', r')
  {
    RollingBackStep(db, r);
  }

  lemma ReflectingStep(db: Db, r: Request, throws: bool)
    requires Sound(r) && (r.pc.Reading? || r.pc.Recording? || r.pc.Installing? || r.pc.Auditing?)
    ensures var (db', r') := Advance(db, r, throws);
      Continues(r, r') && Idle(db, r, db', r')
  {
    if r.pc.Reading? || r.pc.Recording? { ReadingStep(db, r, throws); } else { InstallingStep(db, r, throws); }
  }

  lemma AdvanceOnDrafts(db: Db, r: Request, throws: bool)
    requires Sound(r) && !r.pc.Done? && Holds(db, r)
    ensures var (db', r') := Advance(db, r, throws);
      Continues(r, r') && Effect(db, r, db', r')
  {
    if r.pc.Claiming? { ClaimingStep(db, r, throws); }
    else if r.pc.Releasing? { ReleasingStep(db, r, throws); }
    else if r.pc.Checking? || r.pc.CheckingId? || r.pc.CheckingWindow? { LookingStep(db, r, throws); }
    else { ReflectingStep(db, r, throws); }
  }

  // A request's step, seen from the whole system: the claims of the others are untouched.
  lemma ClaimsStayExclusive(s: System, k: nat, db': Db, r': Request)
    requires Safe(s) && k < |s.requests| && Continues(s.requests[k], r')
    requires Effect(s.db, s.requests[k], db', r')
    ensures Safe(s.(db := db', requests := s.requests[k := r']))
  {
    var r := s.requests[k];
    var t := s.(db := db', requests := s.requests[k := r']);
    forall l | 0 <= l < |s.requests| && l != k ensures Holds(db', s.requests[l]) && Apart(Held(s.requests[l]), Held(r')) && Apart(Held(r'), Held(s.requests[l])) {
      assert Apart(Held(s.requests[l]), Held(r)) && Apart(Held(r), Held(s.requests[l])) by {
        if l < k { assert Apart(Held(s.requests[l]), Held(r)); } else { assert Apart(Held(r), Held(s.requests[l])); }
      }
      OthersUntouched(s.db, r, db', r', s.requests[l]);
    }
    assert Holds(db', r') by { OwnClaimsStand(s.db, r, db', r'); }
  }

  ghost predicate Effect(db: Db, r: Request, db': Db, r': Request) {
    Idle(db, r, db', r') || exists d :: Touches(db, r, db', r', d)
  }

  lemma OthersUntouched(db: Db, r: Request, db': Db, r': Request, other: Request)
    requires Effect(db, r, db', r') && Holds(db, other) && other.decision != Pending
    requires Apart(Held(other), Held(r)) && Apart(Held(r), Held(other))
    ensures Holds(db', other) && Apart(Held(other), Held(r')) && Apart(Held(r'), Held(other))
  {
    if !Idle(db, r, db', r') {
      var d :| Touches(db, r, db', r', d);
      assert d !in Held(other);
    }
  }

  lemma OwnClaimsStand(db: Db, r: Request, db': Db, r': Request)
    requires Effect(db, r, db', r') && Holds(db, r) && r'.decision == r.decision
    ensures Holds(db', r')
  {
    if !Idle(db, r, db', r') {
      var d :| Touches(db, r, db', r', d);
    }
  }

  lemma StepKeepsSafe(s: System, a: Action, t: System)
    requires Safe(s) && Next(s, a, t)
    ensures Safe(t)
  {
    if a.Act? {
      AdvanceOnDrafts(s.db, s.requests[a.who], a.throws);
      var (db', r') := Advance(s.db, s.requests[a.who], a.throws);
      ClaimsStayExclusive(s, a.who, db', r');
    } else {
      OutsideKeepsSafe(s, a, t);
    }
  }

  lemma OutsideKeepsSafe(s: System, a: Action, t: System)
    requires Safe(s) && Next(s, a, t) && !a.Act?
    ensures Safe(t)
  {
    forall k | 0 <= k < |s.requests| ensures t.requests[k] == s.requests[k] {}
    forall d | d in s.db.drafts ensures d in t.db.drafts && t.db.drafts[d] == s.db.drafts[d] {}
  }

  lemma {:induction false} RunIsSafe(states: seq<System>, actions: seq<Action>, i: nat)
    requires Run(states, actions) && i < |states|
    ensures Safe(states[i])
    decreases i
  {
    if i > 0 {
      RunIsSafe(states, actions, i - 1);
      assert StepAt(states, actions, i - 1);
      StepKeepsSafe(states[i - 1], actions[i - 1], states[i]);
    }
  }

  // A decided draft goes back to pending only in a step of the request that holds it.
  lemma OnlyTheOwnerReleases(states: seq<System>, actions: seq<Action>, i: nat, d: string)
    requires Run(states, actions) && i < |actions|
    requires d in states[i].db.drafts && states[i].db.drafts[d].status != Pending
    requires d in states[i + 1].db.drafts && states[i + 1].db.drafts[d].status == Pending
    ensures actions[i].Act? && actions[i].who < |states[i].requests| == |states[i + 1].requests|
    ensures d in Held(states[i].requests[actions[i].who]) && d !in Held(states[i + 1].requests[actions[i].who])
  {
    RunIsSafe(states, actions, i);
    var s := states[i];
    assert StepAt(states, actions, i);
    if actions[i].Act? {
      AdvanceOnDrafts(s.db, s.requests[actions[i].who], actions[i].throws);
    }
  }

  ghost predicate Succeeded(s: System, k: nat, d: string) {
    k < |s.requests| && s.requests[k].pc.Done? && s.requests[k].pc.ok && d in s.requests[k].ids
  }

  // Requests never leave the list, keep what they asked for, and a finished one never moves.
  lemma {:induction false} FinishedStaysFinished(states: seq<System>, actions: seq<Action>, i: nat, j: nat, k: nat)
    requires Run(states, actions) && i <= j < |states| && k < |states[i].requests| && states[i].requests[k].pc.Done?
    ensures k < |states[j].requests| && states[j].requests[k] == states[i].requests[k]
    decreases j
  {
    if i < j {
      FinishedStaysFinished(states, actions, i, j - 1, k);
      assert StepAt(states, actions, j - 1);
    }
  }

  // A decision reported to a caller is final: from then on the draft stands at it.
  lemma SuccessIsForever(states: seq<System>, actions: seq<Action>, i: nat, j: nat, k: nat, d: string)
    requires Run(states, actions) && i <= j < |states| && Succeeded(states[i], k, d)
    ensures d in states[j].db.drafts && states[j].db.drafts[d].status == states[i].requests[k].decision
  {
    FinishedStaysFinished(states, actions, i, j, k);
    RunIsSafe(states, actions, j);
  }

  // At most one request ever reports success for a draft, whenever the two are looked at.
  lemma AtMostOneSuccess(states: seq<System>, actions: seq<Action>, i: nat, j: nat, k: nat, l: nat, d: string)
    requires Run(states, actions) && i < |states| && j < |states|
    requires Succeeded(states[i], k, d) && Succeeded(states[j], l, d)
    ensures k == l
  {
    var m := if i < j then j else i;
    FinishedStaysFinished(states, actions, i, m, k);
    FinishedStaysFinished(states, actions, j, m, l);
    RunIsSafe(states, actions, m);
  }

  // ---- Versions and the requests that added them ---------------------------------------

  // The drafts whose version this request has added. The list is exact while no call of the
  // request throws; after an exception it may name more.
  function Passed(r: Request): seq<string> {
    if r.decision != Approved then []
    else match r.pc
      case Reading(k) => if k <= |r.ids| then r.ids[..k] else []
      case Recording(k, _) => if k <= |r.ids| then r.ids[..k] else []
      case Installing(k, _) => if k <= |r.ids| then r.ids[..k] else []
      case Auditing(k) => if k + 1 <= |r.ids| then r.ids[..k + 1] else []
      case Releasing(_, kept) => kept
      case Done(_, kept) => kept
      case _ => []
  }

  ghost predicate SomeonePassed(s: System, d: string) {
    exists k :: 0 <= k < |s.requests| && d in Passed(s.requests[k])
  }

  ghost predicate Quiet(actions: seq<Action>) {
    forall i | 0 <= i < |actions| && actions[i].Act? :: !actions[i].throws
  }

  lemma InstallAddsVersion(db: Db, r: Request, k: nat, previous: Option<Version>, d: string)
    requires k < |r.ids| && k < |r.drafts| && Install(db, r, k, previous).Ok?
    ensures HasVersion(Install(db, r, k, previous).value.versions, VersionId(d)) <==> HasVersion(db.versions, VersionId(d)) || d == r.ids[k]
    ensures !HasVersion(db.versions, VersionId(r.ids[k]))
  {
    var version := NewVersion(previous, r.ids[k], r.drafts[k], r.session, r.now);
    var base := db.versions;
    if previous.Some? {
      var p := SupersedeFacts(db, previous.value.id, version, r.now);
      base := Close(db.versions, previous.value.id, r.now);
    }
    HasVersionAppend(base, version, VersionId(d));
    SameIdsSameVersions(db.versions, base, VersionId(d));
    if d != r.ids[k] { VersionIdsDiffer(d, r.ids[k]); }
  }

  lemma AdvanceOnVersions(db: Db, r: Request, d: string)
    requires Sound(r) && !r.pc.Done?
    requires forall e | e in Held(r) :: e in db.drafts
    ensures var (db', r') := Advance(db, r, false);
      && (HasVersion(db'.versions, VersionId(d)) <==> HasVersion(db.versions, VersionId(d)) || (d in Passed(r') && d !in Passed(r)))
      && (d in Passed(r) ==> d in Passed(r'))
  {
    var (db', r') := Advance(db, r, false);
    if r.pc.Installing? {
      var k := r.pc.next;
      assert r.ids[..k + 1] == r.ids[..k] + [r.ids[k]];
      if Install(db, r, k, r.pc.previous).Ok? {
        InstallAddsVersion(db, r, k, r.pc.previous, d);
        assert r.ids[k] !in r.ids[..k];
      }
    } else {
      OthersAddNoVersion(db, r);
    }
  }

  lemma LookingAddsNoVersion(db: Db, r: Request)
    requires Sound(r) && (r.pc.Checking? || r.pc.Claiming? || r.pc.CheckingId? || r.pc.CheckingWindow?)
    ensures var (db', r') := Advance(db, r, false);
      db'.versions == db.versions && Passed(r') == Passed(r)
  {
  }

  lemma ReadingAddsNoVersion(db: Db, r: Request)
    requires Sound(r) && (r.pc.Reading? || r.pc.Recording? || r.pc.Auditing?)
    ensures var (db', r') := Advance(db, r, false);
      db'.versions == db.versions && Passed(r') == Passed(r)
  {
    assert r.ids[..|r.ids|] == r.ids;
  }

  lemma ReleasingAddsNoVersion(db: Db, r: Request)
    requires Sound(r) && r.pc.Releasing? && forall e | e in Held(r) :: e in db.drafts
    ensures var (db', r') := Advance(db, r, false);
      db'.versions == db.versions && Passed(r') == Passed(r)
  {
    assert (r.pc.kept + r.pc.todo)[|r.pc.kept|] == r.pc.todo[0];
  }

  lemma OthersAddNoVersion(db: Db, r: Request)
    requires Sound(r) && !r.pc.Done? && !r.pc.Installing?
    requires forall e | e in Held(r) :: e in db.drafts
    ensures var (db', r') := Advance(db, r, false);
      db'.versions == db.versions && Passed(r') == Passed(r)
  {
    if r.pc.Releasing? { ReleasingAddsNoVersion(db, r); }
    else if r.pc.Reading? || r.pc.Recording? || r.pc.Auditing? { ReadingAddsNoVersion(db, r); }
    else { LookingAddsNoVersion(db, r); }
  }

  lemma HasVersionAppend(vs: seq<Version>, v: Version, id: string)
    ensures HasVersion(vs + [v], id) <==> HasVersion(vs, id) || v.id == id
  {
    if HasVersion(vs, id) {
      var i :| 0 <= i < |vs| && vs[i].id == id;
      assert (vs + [v])[i].id == id;
    }
    if v.id == id { assert (vs + [v])[|vs|].id == id; }
  }

  lemma SameIdsSameVersions(vs: seq<Version>, ws: seq<Version>, id: string)
    requires |vs| == |ws| && forall i | 0 <= i < |vs| :: vs[i].id == ws[i].id
    ensures HasVersion(vs, id) <==> HasVersion(ws, id)
  {
    if HasVersion(vs, id) { var i :| 0 <= i < |vs| && vs[i].id == id; assert ws[i].id == id; }
    if HasVersion(ws, id) { var i :| 0 <= i < |ws| && ws[i].id == id; assert vs[i].id == id; }
  }

  // While nothing throws, the version of a draft exists exactly when an approving request
  // has passed its add step for it.
  lemma {:induction false} VersionExistsIffPassed(states: seq<System>, actions: seq<Action>, i: nat, d: string)
    requires Run(states, actions) && Quiet(actions) && i < |states| && !HasVersion(states[0].db.versions, VersionId(d))
    ensures HasVersion(states[i].db.versions, VersionId(d)) <==> SomeonePassed(states[i], d)
    decreases i
  {
    if i > 0 {
      VersionExistsIffPassed(states, actions, i - 1, d);
      RunIsSafe(states, actions, i - 1);
      assert StepAt(states, actions, i - 1);
      StepKeepsPassed(states[i - 1], actions[i - 1], states[i], d);
    }
  }

  lemma StepKeepsPassed(s: System, a: Action, t: System, d: string)
    requires Safe(s) && Next(s, a, t) && (a.Act? ==> !a.throws)
    requires HasVersion(s.db.versions, VersionId(d)) <==> SomeonePassed(s, d)
    ensures HasVersion(t.db.versions, VersionId(d)) <==> SomeonePassed(t, d)
  {
    if a.Act? {
      var (db', r') := Advance(s.db, s.requests[a.who], false);
      AdvanceOnVersions(s.db, s.requests[a.who], d);
      PassedAfter(s, t, a.who, r', d);
    } else if a.Arrive? {
      PassedAfter(s.(requests := s.requests + [a.request]), t, |s.requests|, a.request, d);
      assert SomeonePassed(s.(requests := s.requests + [a.request]), d) ==> SomeonePassed(s, d) by {
        if SomeonePassed(s.(requests := s.requests + [a.request]), d) {
          var k :| 0 <= k < |s.requests| + 1 && d in Passed((s.requests + [a.request])[k]);
          assert d in Passed(s.requests[k]);
        }
      }
      assert SomeonePassed(s, d) ==> SomeonePassed(t, d) by {
        if SomeonePassed(s, d) { var k :| 0 <= k < |s.requests| && d in Passed(s.requests[k]); assert d in Passed(t.requests[k]); }
      }
    } else {
      assert t.requests == s.requests;
    }
  }

  lemma PassedAfter(s: System, t: System, k: nat, r: Request, d: string)
    requires k < |s.requests| && t.requests == s.requests[k := r]
    requires d in Passed(s.requests[k]) ==> d in Passed(r)
    ensures SomeonePassed(t, d) <==> SomeonePassed(s, d) || d in Passed(r)
  {
    if SomeonePassed(s, d) {
      var l :| 0 <= l < |s.requests| && d in Passed(s.requests[l]);
      assert d in Passed(t.requests[l]);
    }
    if d in Passed(r) { assert d in Passed(t.requests[k]); }
    if SomeonePassed(t, d) {
      var l :| 0 <= l < |t.requests| && d in Passed(t.requests[l]);
      assert l != k ==> d in Passed(s.requests[l]);
    }
  }

  lemma PassedIsHeld(r: Request, d: string)
    requires InRange(r) && d in Passed(r)
    ensures d in Held(r) && r.decision == Approved
  {
  }

  // ---- Versions whose draft is not approved --------------------------------------------------

  // The drafts whose version this request has certainly added, whatever has thrown.
  function Added(r: Request): seq<string> {
    if r.decision != Approved then []
    else match r.pc
      case Reading(k) => if k <= |r.ids| then r.ids[..k] else []
      case Recording(k, _) => if k <= |r.ids| then r.ids[..k] else []
      case Installing(k, _) => if k <= |r.ids| then r.ids[..k] else []
      case Auditing(k) => if k + 1 <= |r.ids| then r.ids[..k + 1] else []
      case Releasing(_, kept) => kept
      case Done(ok, kept) => if ok then kept else []
      case _ => []
  }

  // This call is the audit write of d's approval, and it throws.
  predicate AuditThrows(r: Request, throws: bool, d: string) {
    throws && r.pc.Auditing? && r.decision == Approved && r.pc.next < |r.ids| && r.ids[r.pc.next] == d
  }

  // What one call, thrown or not, means for the version of d and for the books kept on it.
  ghost predicate Tracks(db: Db, r: Request, throws: bool, db': Db, r': Request, d: string) {
    && (HasVersion(db.versions, VersionId(d)) ==> HasVersion(db'.versions, VersionId(d)))
    && (HasVersion(db'.versions, VersionId(d)) && !HasVersion(db.versions, VersionId(d)) ==> d in Passed(r'))
    && (d in Passed(r) && !AuditThrows(r, throws, d) ==> d in Passed(r'))
    && (d in Added(r') && d !in Added(r) ==> HasVersion(db'.versions, VersionId(d)) && !HasVersion(db.versions, VersionId(d)))
  }

  lemma LookingTracks(db: Db, r: Request, throws: bool, d: string)
    requires Sound(r) && (r.pc.Checking? || r.pc.Claiming? || r.pc.CheckingId? || r.pc.CheckingWindow?)
    ensures var (db', r') := Advance(db, r, throws);
      db'.versions == db.versions && Passed(r) == [] && Added(r') == []
  {
  }

  lemma RollBackTracks(r: Request, d: string)
    requires Sound(r) && (r.pc.Reading? || r.pc.Recording? || r.pc.Installing? || r.pc.Auditing?)
    ensures d in Passed(r) && !AuditThrows(r, true, d) ==> d in Passed(RollBack(r, r.pc.next))
    ensures d in Added(RollBack(r, r.pc.next)) ==> d in Added(r)
  {
    var k := r.pc.next;
    assert r.ids[..k + 1] == r.ids[..k] + [r.ids[k]];
  }

  lemma ReadingTracks(db: Db, r: Request, throws: bool, d: string)
    requires Sound(r) && (r.pc.Reading? || r.pc.Recording?)
    ensures var (db', r') := Advance(db, r, throws);
      Tracks(db, r, throws, db', r', d)
  {
    RollBackTracks(r, d);
  }

  lemma AuditingTracks(db: Db, r: Request, throws: bool, d: string)
    requires Sound(r) && r.pc.Auditing?
    ensures var (db', r') := Advance(db, r, throws);
      Tracks(db, r, throws, db', r', d)
  {
    RollBackTracks(r, d);
    assert r.ids[..|r.ids|] == r.ids;
  }

  lemma InstallingTracks(db: Db, r: Request, throws: bool, d: string)
    requires Sound(r) && r.pc.Installing?
    ensures var (db', r') := Advance(db, r, throws);
      Tracks(db, r, throws, db', r', d)
  {
    var k := r.pc.next;
    RollBackTracks(r, d);
    assert r.ids[..k + 1] == r.ids[..k] + [r.ids[k]];
    if !throws && Install(db, r, k, r.pc.previous).Ok? { InstallAddsVersion(db, r, k, r.pc.previous, d); }
  }

  lemma ReleasingTracks(db: Db, r: Request, throws: bool, d: string)
    requires Sound(r) && r.pc.Releasing?
    ensures var (db', r') := Advance(db, r, throws);
      Tracks(db, r, throws, db', r', d)
  {
  }

  lemma AdvanceTracks(db: Db, r: Request, throws: bool, d: string)
    requires Sound(r) && !r.pc.Done?
    ensures var (db', r') := Advance(db, r, throws);
      Tracks(db, r, throws, db', r', d)
  {
    if r.pc.Releasing? { ReleasingTracks(db, r, throws, d); }
    else if r.pc.Installing? { InstallingTracks(db, r, throws, d); }
    else if r.pc.Auditing? { AuditingTracks(db, r, throws, d); }
    else if r.pc.Reading? || r.pc.Recording? { ReadingTracks(db, r, throws, d); }
    else { LookingTracks(db, r, throws, d); }
  }

  // No version ever leaves the table.
  lemma StepKeepsVersions(s: System, a: Action, t: System, d: string)
    requires Safe(s) && Next(s, a, t) && HasVersion(s.db.versions, VersionId(d))
    ensures HasVersion(t.db.versions, VersionId(d))
  {
    if a.Act? { AdvanceTracks(s.db, s.requests[a.who], a.throws, d); }
  }

  lemma {:induction false} VersionsStay(states: seq<System>, actions: seq<Action>, i: nat, j: nat, d: string)
    requires Run(states, actions) && i <= j < |states| && HasVersion(states[i].db.versions, VersionId(d))
    ensures HasVersion(states[j].db.versions, VersionId(d))
    decreases j
  {
    if i < j {
      VersionsStay(states, actions, i, j - 1, d);
      RunIsSafe(states, actions, j - 1);
      assert StepAt(states, actions, j - 1);
      StepKeepsVersions(states[j - 1], actions[j - 1], states[j], d);
    }
  }

  ghost predicate SomeoneAdded(s: System, d: string) {
    exists k :: 0 <= k < |s.requests| && d in Added(s.requests[k])
  }

  // A request appears in the books only by adding the version itself.
  lemma StepAddsHonestly(s: System, a: Action, t: System, d: string)
    requires Safe(s) && Next(s, a, t) && SomeoneAdded(t, d)
    ensures SomeoneAdded(s, d) || (HasVersion(t.db.versions, VersionId(d)) && !HasVersion(s.db.versions, VersionId(d)))
  {
    var k :| 0 <= k < |t.requests| && d in Added(t.requests[k]);
    if a.Act? && a.who == k {
      AdvanceTracks(s.db, s.requests[k], a.throws, d);
      assert d in Added(s.requests[k]) ==> SomeoneAdded(s, d);
    } else if k < |s.requests| {
      assert t.requests[k] == s.requests[k];
      assert d in Added(s.requests[k]);
    }
  }

  lemma AddedStep(s: System, a: Action, t: System, d: string)
    requires Safe(s) && Next(s, a, t) && (SomeoneAdded(s, d) ==> HasVersion(s.db.versions, VersionId(d)))
    ensures SomeoneAdded(t, d) ==> HasVersion(t.db.versions, VersionId(d))
  {
    if SomeoneAdded(t, d) {
      StepAddsHonestly(s, a, t, d);
      if SomeoneAdded(s, d) { StepKeepsVersions(s, a, t, d); }
    }
  }

  // In every run, a request that counts a version as its own finds it in the table.
  lemma {:induction false} AddedIsThere(states: seq<System>, actions: seq<Action>, i: nat, d: string)
    requires Run(states, actions) && i < |states|
    ensures SomeoneAdded(states[i], d) ==> HasVersion(states[i].db.versions, VersionId(d))
    decreases i
  {
    if i > 0 {
      AddedIsThere(states, actions, i - 1, d);
      RunIsSafe(states, actions, i - 1);
      assert StepAt(states, actions, i - 1);
      AddedStep(states[i - 1], actions[i - 1], states[i], d);
    }
  }

  // So an approval about to be audited has its version in the table, in every run.
  lemma AuditedVersionIsThere(states: seq<System>, actions: seq<Action>, i: nat, k: nat)
    requires Run(states, actions) && i < |states| && k < |states[i].requests|
    requires states[i].requests[k].pc.Auditing? && states[i].requests[k].decision == Approved
    ensures var r := states[i].requests[k];
      r.pc.next < |r.ids| && HasVersion(states[i].db.versions, VersionId(r.ids[r.pc.next]))
  {
    RunIsSafe(states, actions, i);
    var r := states[i].requests[k];
    assert Sound(r);
    assert r.ids[..r.pc.next + 1][r.pc.next] == r.ids[r.pc.next];
    assert r.ids[r.pc.next] in Added(r);
    AddedIsThere(states, actions, i, r.ids[r.pc.next]);
  }

  // ---- What happened to the draft -------------------------------------------------------------

  // Step j of request k was the audit write of d's approval, and it threw.
  ghost predicate AuditThrew(states: seq<System>, actions: seq<Action>, j: int, k: nat, d: string) {
    && 0 <= j < |actions| && j < |states| && actions[j] == Act(k, true)
    && k < |states[j].requests| && AuditThrows(states[j].requests[k], true, d)
  }

  // Step j of request k handed d back as pending.
  ghost predicate GaveBack(states: seq<System>, actions: seq<Action>, j: int, k: nat, d: string) {
    && 0 <= j < |actions| && j + 1 < |states| && actions[j].Act? && actions[j].who == k
    && k < |states[j].requests| && d in Held(states[j].requests[k])
    && d in states[j + 1].db.drafts && states[j + 1].db.drafts[d].status == Pending
  }

  ghost predicate ThrewThenGaveBack(states: seq<System>, actions: seq<Action>, j: int, j': int, k: nat, d: string) {
    j < j' && AuditThrew(states, actions, j, k, d) && GaveBack(states, actions, j', k, d)
  }

  // Before state i, some request's audit write of d's approval threw, and that request then
  // handed d back.
  ghost predicate Stranded(states: seq<System>, actions: seq<Action>, i: int, d: string) {
    exists j, j', k: nat :: j' < i && ThrewThenGaveBack(states, actions, j, j', k, d)
  }

  // The audit write has thrown, and the draft is not handed back yet.
  ghost predicate Doomed(states: seq<System>, actions: seq<Action>, i: nat, k: nat, j: int, d: string) {
    && j < i < |states| && AuditThrew(states, actions, j, k, d)
    && k < |states[i].requests| && d in Held(states[i].requests[k]) && states[i].requests[k].decision == Approved
  }

  ghost predicate VersionWithoutApproval(s: System, d: string) {
    HasVersion(s.db.versions, VersionId(d)) && !(d in s.db.drafts && s.db.drafts[d].status == Approved)
  }

  // A version in the table is held by the request that added it, or is about to be stranded,
  // or has been.
  ghost predicate Accounted(states: seq<System>, actions: seq<Action>, i: nat, d: string)
    requires i < |states|
  {
    HasVersion(states[i].db.versions, VersionId(d)) ==>
      || SomeonePassed(states[i], d)
      || (exists k: nat, j :: Doomed(states, actions, i, k, j, d))
      || Stranded(states, actions, i, d)
  }

  lemma StrandedStays(states: seq<System>, actions: seq<Action>, i: int, i': int, d: string)
    requires i <= i' && Stranded(states, actions, i, d)
    ensures Stranded(states, actions, i', d)
  {
    var j, j', k: nat :| j' < i && ThrewThenGaveBack(states, actions, j, j', k, d);
    assert j' < i' && ThrewThenGaveBack(states, actions, j, j', k, d);
  }

  lemma PassedStep(states: seq<System>, actions: seq<Action>, i: nat, k: nat, d: string)
    requires Run(states, actions) && 0 < i < |states| && Safe(states[i - 1])
    requires k < |states[i - 1].requests| && d in Passed(states[i - 1].requests[k])
    ensures SomeonePassed(states[i], d) || exists j :: Doomed(states, actions, i, k, j, d)
  {
    var s, a, t := states[i - 1], actions[i - 1], states[i];
    assert StepAt(states, actions, i - 1);
    if a.Act? && a.who == k {
      var r, r' := s.requests[k], t.requests[k];
      AdvanceTracks(s.db, r, a.throws, d);
      if AuditThrows(r, a.throws, d) {
        PassedIsHeld(r, d);
        RollingBackStep(s.db, r);
        assert AuditThrew(states, actions, i - 1, k, d);
        assert Doomed(states, actions, i, k, i - 1, d);
      } else {
        assert d in Passed(t.requests[k]);
      }
    } else {
      assert t.requests[k] == s.requests[k];
      assert d in Passed(t.requests[k]);
    }
  }

  lemma DoomedStep(states: seq<System>, actions: seq<Action>, i: nat, k: nat, j: int, d: string)
    requires Run(states, actions) && 0 < i < |states| && Safe(states[i - 1]) && Doomed(states, actions, i - 1, k, j, d)
    ensures Doomed(states, actions, i, k, j, d) || Stranded(states, actions, i, d)
  {
    var s, a, t := states[i - 1], actions[i - 1], states[i];
    assert StepAt(states, actions, i - 1);
    if a.Act? && a.who == k {
      AdvanceOnDrafts(s.db, s.requests[k], a.throws);
      if d !in Held(t.requests[k]) {
        var e :| Touches(s.db, s.requests[k], t.db, t.requests[k], e);
        assert e == d;
        assert GaveBack(states, actions, i - 1, k, d);
        assert ThrewThenGaveBack(states, actions, j, i - 1, k, d);
      }
    } else {
      assert t.requests[k] == s.requests[k];
    }
  }

  lemma NewVersionIsPassed(s: System, a: Action, t: System, d: string)
    requires Safe(s) && Next(s, a, t) && !HasVersion(s.db.versions, VersionId(d)) && HasVersion(t.db.versions, VersionId(d))
    ensures SomeonePassed(t, d)
  {
    if a.Act? {
      AdvanceTracks(s.db, s.requests[a.who], a.throws, d);
      assert d in Passed(t.requests[a.who]);
    }
  }

  lemma {:induction false} EveryVersionIsAccounted(states: seq<System>, actions: seq<Action>, i: nat, d: string)
    requires Run(states, actions) && i < |states| && !HasVersion(states[0].db.versions, VersionId(d))
    ensures Accounted(states, actions, i, d)
    decreases i
  {
    if i > 0 && HasVersion(states[i].db.versions, VersionId(d)) {
      var s := states[i - 1];
      RunIsSafe(states, actions, i - 1);
      assert StepAt(states, actions, i - 1);
      EveryVersionIsAccounted(states, actions, i - 1, d);
      if !HasVersion(s.db.versions, VersionId(d)) {
        NewVersionIsPassed(s, actions[i - 1], states[i], d);
      } else if SomeonePassed(s, d) {
        var k :| 0 <= k < |s.requests| && d in Passed(s.requests[k]);
        PassedStep(states, actions, i, k, d);
      } else if Stranded(states, actions, i - 1, d) {
        StrandedStays(states, actions, i - 1, i, d);
      } else {
        var k: nat, j :| Doomed(states, actions, i - 1, k, j, d);
        DoomedStep(states, actions, i, k, j, d);
      }
    }
  }

  // A version in the table belongs to an approved draft, or its draft has been stranded.
  lemma ApprovedOrStranded(states: seq<System>, actions: seq<Action>, i: nat, d: string)
    requires Run(states, actions) && i < |states| && !HasVersion(states[0].db.versions, VersionId(d))
    ensures VersionWithoutApproval(states[i], d) ==> Stranded(states, actions, i, d)
  {
    var s := states[i];
    EveryVersionIsAccounted(states, actions, i, d);
    RunIsSafe(states, actions, i);
    if k :| 0 <= k < |s.requests| && d in Passed(s.requests[k]) {
      PassedIsHeld(s.requests[k], d);
      assert Holds(s.db, s.requests[k]);
    } else if k: nat, j :| Doomed(states, actions, i, k, j, d) {
      assert Holds(s.db, s.requests[k]);
    }
  }

  lemma StrandedShows(states: seq<System>, actions: seq<Action>, j: int, j': int, k: nat, d: string)
    requires Run(states, actions) && ThrewThenGaveBack(states, actions, j, j', k, d)
    ensures VersionWithoutApproval(states[j' + 1], d)
  {
    AuditedVersionIsThere(states, actions, j, k);
    VersionsStay(states, actions, j, j' + 1, d);
  }

  // Exactly when a version comes to stand in the table without its draft being approved: in
  // every run, whatever throws, an earlier step must have thrown at the audit write of that
  // draft's approval, and a later step of the same request must have handed the draft back.
  lemma UnapprovedVersionIff(states: seq<System>, actions: seq<Action>, i: nat, d: string)
    requires Run(states, actions) && i < |states| && !HasVersion(states[0].db.versions, VersionId(d))
    ensures (exists m :: 0 <= m <= i && VersionWithoutApproval(states[m], d)) <==> Stranded(states, actions, i, d)
  {
    if m :| 0 <= m <= i && VersionWithoutApproval(states[m], d) {
      ApprovedOrStranded(states, actions, m, d);
      StrandedStays(states, actions, m, i, d);
    }
    if Stranded(states, actions, i, d) {
      var j, j', k: nat :| j' < i && ThrewThenGaveBack(states, actions, j, j', k, d);
      StrandedShows(states, actions, j, j', k, d);
      assert 0 <= j' + 1 <= i && VersionWithoutApproval(states[j' + 1], d);
    }
  }

  // So as long as no audit write of d's approval has thrown, whatever else did, a version of d
  // means that d is approved, and is held by the request that added it and by no other.
  lemma VersionMeansApproved(states: seq<System>, actions: seq<Action>, i: nat, d: string)
    requires Run(states, actions) && i < |states| && !HasVersion(states[0].db.versions, VersionId(d))
    requires HasVersion(states[i].db.versions, VersionId(d))
    requires forall j, k: nat | 0 <= j < i :: !AuditThrew(states, actions, j, k, d)
    ensures d in states[i].db.drafts && states[i].db.drafts[d].status == Approved
    ensures exists k :: OnlyHolder(states[i], k, d)
  {
    EveryVersionIsAccounted(states, actions, i, d);
    RunIsSafe(states, actions, i);
    var s := states[i];
    assert SomeonePassed(s, d);
    var k :| 0 <= k < |s.requests| && d in Passed(s.requests[k]);
    PassedIsHeld(s.requests[k], d);
    assert Holds(s.db, s.requests[k]);
    forall l | 0 <= l < |s.requests| && d in Held(s.requests[l]) ensures l == k { HeldOnce(s, k, l, d); }
    assert OnlyHolder(s, k, d);
  }

  // The request that installed the draft's version, and no other request holds the draft.
  ghost predicate OnlyHolder(s: System, k: int, d: string) {
    && 0 <= k < |s.requests| && d in Passed(s.requests[k])
    && forall l | 0 <= l < |s.requests| && d in Held(s.requests[l]) :: l == k
  }

  lemma HeldOnce(s: System, k: nat, l: nat, d: string)
    requires Safe(s) && k < |s.requests| && l < |s.requests| && d in Held(s.requests[k]) && d in Held(s.requests[l])
    ensures l == k
  {
    assert l < k ==> Apart(Held(s.requests[l]), Held(s.requests[k]));
    assert k < l ==> Apart(Held(s.requests[k]), Held(s.requests[l]));
  }

  lemma AddedIsHeld(r: Request, d: string)
    requires InRange(r) && d in Added(r)
    ensures d in Held(r) && r.decision == Approved
  {
  }

  lemma {:induction false} StrandedIsNobodys(states: seq<System>, actions: seq<Action>, i: nat, m: nat, d: string)
    requires Run(states, actions) && i <= m < |states| && VersionWithoutApproval(states[i], d)
    ensures HasVersion(states[m].db.versions, VersionId(d)) && !SomeoneAdded(states[m], d)
    decreases m
  {
    if i < m {
      StrandedIsNobodys(states, actions, i, m - 1, d);
      RunIsSafe(states, actions, m - 1);
      assert StepAt(states, actions, m - 1);
      StepKeepsVersions(states[m - 1], actions[m - 1], states[m], d);
      if SomeoneAdded(states[m], d) { StepAddsHonestly(states[m - 1], actions[m - 1], states[m], d); }
    } else {
      RunIsSafe(states, actions, m);
      NobodyAdded(states[m], d);
    }
  }

  lemma NobodyAdded(s: System, d: string)
    requires Safe(s) && VersionWithoutApproval(s, d)
    ensures !SomeoneAdded(s, d)
  {
    forall k | 0 <= k < |s.requests| ensures d !in Added(s.requests[k]) {
      assert Holds(s.db, s.requests[k]) && Sound(s.requests[k]);
      if d in Added(s.requests[k]) { AddedIsHeld(s.requests[k], d); }
    }
  }

  lemma SuccessIsAdded(s: System, l: nat, d: string)
    requires Safe(s) && Succeeded(s, l, d)
    ensures s.requests[l].decision == Rejected || SomeoneAdded(s, d)
  {
    var r := s.requests[l];
    assert Sound(r);
    assert d in r.pc.kept;
    assert r.decision == Approved ==> d in Added(r);
  }

  // A stranded draft can never be approved again: its id is taken for good, and the only
  // decision anyone can still report for it is a rejection.
  lemma NeverApprovedAgain(states: seq<System>, actions: seq<Action>, i: nat, m: nat, l: nat, d: string)
    requires Run(states, actions) && i <= m < |states| && VersionWithoutApproval(states[i], d)
    ensures forall draft, now :: !CanInstall(states[m].db, d, draft, now)
    ensures Succeeded(states[m], l, d) ==> states[m].requests[l].decision == Rejected
  {
    StrandedIsNobodys(states, actions, i, m, d);
    RunIsSafe(states, actions, m);
    if Succeeded(states[m], l, d) { SuccessIsAdded(states[m], l, d); }
  }

  // ---- The timeline under interleaving ---------------------------------------------------

  // A request about to install has read a version of its draft's policy, possibly closed
  // since; for a policy with a history it never found none.
  ghost predicate ReadWell(db: Db, r: Request, p: string) {
    (r.pc.Recording? || r.pc.Installing?) && r.decision == Approved ==>
      && r.pc.next < |r.drafts|
      && match r.pc.previous
         case None => r.drafts[r.pc.next].policyId != p
         case Some(q) => exists v :: v in db.versions && v.id == q.id && v.policyId == r.drafts[r.pc.next].policyId
  }

  ghost predicate NotAhead(v: Version, clock: int) {
    (v.from.Some? ==> v.from.value <= clock) && (v.to.Some? ==> v.to.value <= clock)
  }

  // The history of policy p is a chain, and nothing in the table or in flight lies ahead of
  // the clock.
  ghost predicate Orderly(s: System, p: string) {
    && UniqueIds(s.db.versions) && Chain(Of(s.db.versions, p))
    && (forall v | v in s.db.versions :: NotAhead(v, s.clock))
    && (forall k | 0 <= k < |s.requests| :: s.requests[k].now <= s.clock && ReadWell(s.db, s.requests[k], p))
  }

  // The history after a step: the same, or its open end closed and one version more.
  ghost predicate Grows(vs: seq<Version>, ws: seq<Version>, at: int) {
    ws == vs || (|vs| > 0 && |ws| == |vs| + 1 && ws[..|vs|] == vs[..|vs| - 1] + [vs[|vs| - 1].(to := Some(at))])
  }

  // One call keeps the table in order. It touches the history of p only by extending it, at
  // the instant its request carries.
  lemma AdvanceOnTimeline(db: Db, r: Request, throws: bool, p: string, clock: int)
    requires Sound(r) && !r.pc.Done? && r.now <= clock && ReadWell(db, r, p)
    requires UniqueIds(db.versions) && Chain(Of(db.versions, p)) && forall v | v in db.versions :: NotAhead(v, clock)
    ensures var (db', r') := Advance(db, r, throws);
      && UniqueIds(db'.versions) && Chain(Of(db'.versions, p)) && (forall v | v in db'.versions :: NotAhead(v, clock))
      && Grows(Of(db.versions, p), Of(db'.versions, p), r.now)
      && r'.now == r.now && ReadWell(db', r', p)
      && (forall v | v in db.versions :: exists w :: w in db'.versions && w.id == v.id && w.policyId == v.policyId)
  {
    if r.pc.Installing? && !throws && Install(db, r, r.pc.next, r.pc.previous).Ok? {
      InstallOnTimeline(db, r, r.pc.next, r.pc.previous, p, clock);
    } else if r.pc.Reading? && !throws && r.decision == Approved {
      CurrentIsActive(db.versions, r.drafts[r.pc.next].policyId, r.now);
      if r.drafts[r.pc.next].policyId == p {
        var k := CurrentOfChain(db.versions, p, r.now);
      }
    } else {
      VersionsUntouched(db, r, throws, p);
    }
  }

  lemma LookingLeavesVersions(db: Db, r: Request, throws: bool, p: string)
    requires Sound(r) && (r.pc.Checking? || r.pc.Claiming? || r.pc.CheckingId? || r.pc.CheckingWindow? || r.pc.Releasing?)
    ensures var (db', r') := Advance(db, r, throws);
      db'.versions == db.versions && r'.now == r.now && ReadWell(db', r', p)
  {
  }

  lemma ReadingLeavesVersions(db: Db, r: Request, throws: bool, p: string)
    requires Sound(r) && (r.pc.Reading? || r.pc.Auditing?)
    requires !(r.pc.Reading? && !throws && r.decision == Approved)
    ensures var (db', r') := Advance(db, r, throws);
      db'.versions == db.versions && r'.now == r.now && ReadWell(db', r', p)
  {
  }

  lemma RecordingLeavesVersions(db: Db, r: Request, throws: bool, p: string)
    requires Sound(r) && (r.pc.Recording? || r.pc.Installing?) && ReadWell(db, r, p)
    requires r.pc.Installing? && !throws ==> Install(db, r, r.pc.next, r.pc.previous).Err?
    ensures var (db', r') := Advance(db, r, throws);
      db'.versions == db.versions && r'.now == r.now && ReadWell(db', r', p)
  {
  }

  lemma VersionsUntouched(db: Db, r: Request, throws: bool, p: string)
    requires Sound(r) && !r.pc.Done? && ReadWell(db, r, p)
    requires r.pc.Installing? && !throws ==> Install(db, r, r.pc.next, r.pc.previous).Err?
    requires !(r.pc.Reading? && !throws && r.decision == Approved)
    ensures var (db', r') := Advance(db, r, throws);
      db'.versions == db.versions && r'.now == r.now && ReadWell(db', r', p)
  {
    if r.pc.Recording? || r.pc.Installing? { RecordingLeavesVersions(db, r, throws, p); }
    else if r.pc.Reading? || r.pc.Auditing? { ReadingLeavesVersions(db, r, throws, p); }
    else { LookingLeavesVersions(db, r, throws, p); }
  }

  lemma FirstOnTimeline(db: Db, v: Version, p: string, clock: int)
    requires Insertable(db, v) && v.policyId != p && NotAhead(v, clock)
    requires UniqueIds(db.versions) && forall w | w in db.versions :: NotAhead(w, clock)
    ensures var next := db.versions + [v];
      && UniqueIds(next) && Of(next, p) == Of(db.versions, p) && (forall w | w in next :: NotAhead(w, clock))
      && (forall w | w in db.versions :: exists x :: x in next && x.id == w.id && x.policyId == w.policyId)
  {
    OfConcat(db.versions, [v], p);
    assert Of([v], p) == [];
    KeepsIds(db.versions, db.versions, v);
  }

  lemma InstallOnTimeline(db: Db, r: Request, k: nat, read: Option<Version>, p: string, clock: int)
    requires k < |r.ids| && k < |r.drafts| && Install(db, r, k, read).Ok? && r.now <= clock
    requires match read
             case None => r.drafts[k].policyId != p
             case Some(q) => exists v :: v in db.versions && v.id == q.id && v.policyId == r.drafts[k].policyId
    requires UniqueIds(db.versions) && Chain(Of(db.versions, p)) && forall v | v in db.versions :: NotAhead(v, clock)
    ensures var db' := Install(db, r, k, read).value;
      && UniqueIds(db'.versions) && Chain(Of(db'.versions, p)) && (forall v | v in db'.versions :: NotAhead(v, clock))
      && Grows(Of(db.versions, p), Of(db'.versions, p), r.now)
      && (forall v | v in db.versions :: exists w :: w in db'.versions && w.id == v.id && w.policyId == v.policyId)
  {
    var v := NewVersion(read, r.ids[k], r.drafts[k], r.session, r.now);
    if read.None? {
      FirstOnTimeline(db, v, p, clock);
    } else {
      var previous := SupersedeFacts(db, read.value.id, v, r.now);
      var seen :| seen in db.versions && seen.id == read.value.id && seen.policyId == r.drafts[k].policyId;
      SameIdSameVersion(db.versions, seen, previous);
      SupersedeOnTimeline(db, previous, v, r.now, p, clock);
    }
  }

  lemma SupersedeOnTimeline(db: Db, previous: Version, v: Version, at: int, p: string, clock: int)
    requires UniqueIds(db.versions) && Chain(Of(db.versions, p)) && forall w | w in db.versions :: NotAhead(w, clock)
    requires previous in db.versions && previous.to.None? && (previous.from.Some? ==> previous.from.value < at) && at <= clock
    requires v.policyId == previous.policyId && v.from == Some(at) && v.to.None? && v.supersedes == Some(previous.id)
    requires !HasVersion(db.versions, v.id)
    ensures var next := Close(db.versions, previous.id, at) + [v];
      && UniqueIds(next) && Chain(Of(next, p)) && (forall w | w in next :: NotAhead(w, clock))
      && Grows(Of(db.versions, p), Of(next, p), at)
      && (forall w | w in db.versions :: exists x :: x in next && x.id == w.id && x.policyId == w.policyId)
  {
    CloseUnique(db.versions, previous.id, at, v);
    HistoryGrows(db, previous, v, at, p);
    ClosedNotAhead(db.versions, previous.id, v, at, clock);
    KeepsIds(db.versions, Close(db.versions, previous.id, at), v);
  }

  lemma ClosedNotAhead(vs: seq<Version>, id: string, v: Version, at: int, clock: int)
    requires at <= clock && v.from == Some(at) && v.to.None? && forall w | w in vs :: NotAhead(w, clock)
    ensures forall w | w in Close(vs, id, at) + [v] :: NotAhead(w, clock)
  {
    var closed := Close(vs, id, at);
    forall w | w in closed + [v] ensures NotAhead(w, clock) {
      if w in closed {
        var i :| 0 <= i < |closed| && closed[i] == w;
        assert vs[i] in vs;
      }
    }
  }

  lemma HistoryGrows(db: Db, previous: Version, v: Version, at: int, p: string)
    requires UniqueIds(db.versions) && Chain(Of(db.versions, p))
    requires previous in db.versions && previous.to.None? && (previous.from.Some? ==> previous.from.value < at)
    requires v.policyId == previous.policyId && v.from == Some(at) && v.to.None? && v.supersedes == Some(previous.id)
    requires !HasVersion(db.versions, v.id)
    ensures Chain(Of(Close(db.versions, previous.id, at) + [v], p))
    ensures Grows(Of(db.versions, p), Of(Close(db.versions, previous.id, at) + [v], p), at)
  {
    if v.policyId == p {
      SupersedeExtendsChain(db.versions, previous, v, at, p);
    } else {
      OtherPoliciesUntouched(db.versions, previous, v, at, p);
    }
  }

  lemma KeepsIds(vs: seq<Version>, ws: seq<Version>, x: Version)
    requires |vs| == |ws| && forall i | 0 <= i < |vs| :: ws[i].id == vs[i].id && ws[i].policyId == vs[i].policyId
    ensures forall v | v in vs :: exists w :: w in ws + [x] && w.id == v.id && w.policyId == v.policyId
  {
    forall v | v in vs ensures exists w :: w in ws + [x] && w.id == v.id && w.policyId == v.policyId {
      var i :| 0 <= i < |vs| && vs[i] == v;
      assert ws[i] in ws + [x];
    }
  }

  lemma StepKeepsOrder(s: System, a: Action, t: System, p: string)
    requires Safe(s) && Orderly(s, p) && Next(s, a, t)
    ensures Orderly(t, p)
    ensures Of(t.db.versions, p) == Of(s.db.versions, p)
      || (a.Act? && a.who < |s.requests| && Grows(Of(s.db.versions, p), Of(t.db.versions, p), s.requests[a.who].now))
  {
    if a.Act? {
      var r := s.requests[a.who];
      AdvanceOnTimeline(s.db, r, a.throws, p, s.clock);
      forall k | 0 <= k < |t.requests| ensures t.requests[k].now <= t.clock && ReadWell(t.db, t.requests[k], p) {
        if k != a.who {
          assert t.requests[k] == s.requests[k];
          StillReadWell(s.db, t.db, s.requests[k], p);
        }
      }
    }
  }

  lemma StillReadWell(db: Db, db': Db, r: Request, p: string)
    requires ReadWell(db, r, p)
    requires forall v | v in db.versions :: exists w :: w in db'.versions && w.id == v.id && w.policyId == v.policyId
    ensures ReadWell(db', r, p)
  {
  }

  lemma {:induction false} RunKeepsOrder(states: seq<System>, actions: seq<Action>, i: nat, p: string)
    requires Run(states, actions) && i < |states| && Orderly(states[0], p)
    ensures Orderly(states[i], p)
    decreases i
  {
    if i > 0 {
      RunKeepsOrder(states, actions, i - 1, p);
      RunIsSafe(states, actions, i - 1);
      assert StepAt(states, actions, i - 1);
      StepKeepsOrder(states[i - 1], actions[i - 1], states[i], p);
    }
  }

  // The store as seeding leaves it.
  ghost predicate Seeded(s: System, p: string) {
    && s.requests == [] && UniqueIds(s.db.versions) && (forall v | v in s.db.versions :: NotAhead(v, s.clock))
    && exists seed :: Of(s.db.versions, p) == [seed] && seed.from.None? && seed.to.None?
  }

  lemma SeededIsOrderly(s: System, p: string)
    requires Seeded(s, p)
    ensures Safe(s) && Orderly(s, p)
  {
    var seed :| Of(s.db.versions, p) == [seed] && seed.from.None? && seed.to.None?;
  }

  // A policy that starts with one open seed version has, in every reachable state, exactly
  // one version in force at any instant, and the one in force now has no end yet.
  lemma OneVersionInForce(states: seq<System>, actions: seq<Action>, i: nat, p: string, at: int) returns (v: Version)
    requires Run(states, actions) && i < |states| && Seeded(states[0], p)
    ensures Chain(Of(states[i].db.versions, p))
    ensures Of(Active(states[i].db.versions, at), p) == [v]
    ensures at >= states[i].clock ==> v.to.None?
  {
    SeededIsOrderly(states[0], p);
    RunKeepsOrder(states, actions, i, p);
    var vs := states[i].db.versions;
    OfActive(vs, p, at);
    OfMembers(vs, p);
    var k := ExactlyOneActive(Of(vs, p), at);
    v := Of(vs, p)[k];
    assert NotAhead(v, states[i].clock);
  }

  // Which version was in force at an instant changes only when a request that carries that
  // instant or an earlier one installs a version.
  lemma InForceChangesOnlyForward(s: System, a: Action, t: System, p: string, at: int)
    requires Safe(s) && Orderly(s, p) && Next(s, a, t)
    ensures Chain(Of(t.db.versions, p))
    ensures Current(s.db.versions, p, at).Some? && Current(t.db.versions, p, at).Some?
    ensures Current(s.db.versions, p, at).value.id == Current(t.db.versions, p, at).value.id
      || (a.Act? && a.who < |s.requests| && s.requests[a.who].now <= at)
  {
    StepKeepsOrder(s, a, t, p);
    var vs, ws := Of(s.db.versions, p), Of(t.db.versions, p);
    var j := CurrentOfChain(s.db.versions, p, at);
    var k := CurrentOfChain(t.db.versions, p, at);
    if ws != vs && at < s.requests[a.who].now {
      assert ws[..|vs|][j] == ws[j];
      assert IsActive(ws[j], at);
    }
  }

  // ---- Batches under a clock that does not step back ---------------------------------------

  // Nothing in the table or in flight lies ahead of the clock.
  ghost predicate NothingAhead(s: System) {
    (forall v | v in s.db.versions :: NotAhead(v, s.clock)) && forall k | 0 <= k < |s.requests| :: s.requests[k].now <= s.clock
  }

  ghost predicate Installs(db: Db, r: Request, throws: bool) {
    InRange(r) && r.pc.Installing? && !throws && Install(db, r, r.pc.next, r.pc.previous).Ok?
  }

  lemma LookingWritesNoVersion(db: Db, r: Request, throws: bool)
    requires InRange(r) && (r.pc.Checking? || r.pc.Claiming? || r.pc.CheckingId? || r.pc.CheckingWindow? || r.pc.Releasing?)
    ensures Advance(db, r, throws).0.versions == db.versions && Advance(db, r, throws).1.now == r.now
  {
  }

  lemma ReflectingWritesNoVersion(db: Db, r: Request, throws: bool)
    requires InRange(r) && (r.pc.Reading? || r.pc.Recording? || r.pc.Installing? || r.pc.Auditing?) && !Installs(db, r, throws)
    ensures Advance(db, r, throws).0.versions == db.versions && Advance(db, r, throws).1.now == r.now
  {
  }

  lemma InstallNotAhead(db: Db, r: Request, k: nat, read: Option<Version>, clock: int)
    requires k < |r.ids| && k < |r.drafts| && Install(db, r, k, read).Ok? && r.now <= clock
    requires forall v | v in db.versions :: NotAhead(v, clock)
    ensures forall v | v in Install(db, r, k, read).value.versions :: NotAhead(v, clock)
  {
    var v := NewVersion(read, r.ids[k], r.drafts[k], r.session, r.now);
    if read.Some? {
      var previous := SupersedeFacts(db, read.value.id, v, r.now);
      ClosedNotAhead(db.versions, read.value.id, v, r.now, clock);
    }
  }

  lemma AdvanceNotAhead(db: Db, r: Request, throws: bool, clock: int)
    requires InRange(r) && !r.pc.Done? && r.now <= clock && forall v | v in db.versions :: NotAhead(v, clock)
    ensures var (db', r') := Advance(db, r, throws);
      r'.now == r.now && forall v | v in db'.versions :: NotAhead(v, clock)
  {
    if Installs(db, r, throws) { InstallNotAhead(db, r, r.pc.next, r.pc.previous, clock); }
    else if r.pc.Reading? || r.pc.Recording? || r.pc.Installing? || r.pc.Auditing? { ReflectingWritesNoVersion(db, r, throws); }
    else { LookingWritesNoVersion(db, r, throws); }
  }

  lemma StepKeepsPast(s: System, a: Action, t: System)
    requires NothingAhead(s) && Next(s, a, t)
    ensures NothingAhead(t)
  {
    if a.Act? { AdvanceNotAhead(s.db, s.requests[a.who], a.throws, s.clock); }
  }

  lemma {:induction false} RunKeepsPast(states: seq<System>, actions: seq<Action>, i: nat)
    requires Run(states, actions) && i < |states| && NothingAhead(states[0])
    ensures NothingAhead(states[i])
    decreases i
  {
    if i > 0 {
      RunKeepsPast(states, actions, i - 1);
      assert StepAt(states, actions, i - 1);
      StepKeepsPast(states[i - 1], actions[i - 1], states[i]);
    }
  }

  // ---- Version ids ---------------------------------------------------------------------------

  lemma InstallKeepsIds(db: Db, r: Request, k: nat, read: Option<Version>)
    requires k < |r.ids| && k < |r.drafts| && Install(db, r, k, read).Ok? && UniqueIds(db.versions)
    ensures UniqueIds(Install(db, r, k, read).value.versions)
  {
    var v := NewVersion(read, r.ids[k], r.drafts[k], r.session, r.now);
    if read.Some? { CloseUnique(db.versions, read.value.id, r.now, v); }
  }

  // No interleaving ever writes the same version id twice.
  lemma {:induction false} RunKeepsIds(states: seq<System>, actions: seq<Action>, i: nat)
    requires Run(states, actions) && i < |states| && UniqueIds(states[0].db.versions)
    ensures UniqueIds(states[i].db.versions)
    decreases i
  {
    if i > 0 {
      RunKeepsIds(states, actions, i - 1);
      assert StepAt(states, actions, i - 1);
      var s, a := states[i - 1], actions[i - 1];
      if a.Act? {
        var r := s.requests[a.who];
        if Installs(s.db, r, a.throws) { InstallKeepsIds(s.db, r, r.pc.next, r.pc.previous); }
        else if r.pc.Reading? || r.pc.Recording? || r.pc.Installing? || r.pc.Auditing? { ReflectingWritesNoVersion(s.db, r, a.throws); }
        else { LookingWritesNoVersion(s.db, r, a.throws); }
      }
    }
  }
}
