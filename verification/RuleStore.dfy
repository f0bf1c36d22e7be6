// The rule store as the approval and extraction paths use it: one value per database
// state, one function per store call, and the object whose methods perform those calls.
// Sources: store/interfaces.py, store/sqlite_store.py, store/sqlite_schema.py, store/validation.py.
module RuleStore {
  import opened Basics
  import opened JsonValues

  datatype Status = Pending | Approved | Rejected | ExtractionFailed

  datatype Draft = Draft(policyId: string, sourceId: string, status: Status, payload: Dict, failureReason: Option<string>)

  datatype Origin = Seed | HumanApproval

  // `from` absent: start unknown. `to` absent: open ended.
  datatype Version = Version(id: string, policyId: string, payload: Dict, origin: Origin,
                             from: Option<int>, to: Option<int>, supersedes: Option<string>, approvedBy: Option<string>)

  datatype Approval = Approval(actor: string, at: int, targetKind: string, targetId: string, decision: Status, reason: Option<string>)

  datatype AuditEvent = AuditEvent(actor: string, at: int, action: string, target: string, outcome: string, after: Dict)

  // Half-open code-point interval of a draft's source text.
  datatype Span = Span(draftId: string, fieldPath: string, start: int, end: int)

  // Tables. Rows of a `seq` are in insertion order; drafts are keyed by their id.
  datatype Db = Db(sources: map<string, string>, drafts: map<string, Draft>, spans: seq<Span>,
                   versions: seq<Version>, approvals: seq<Approval>, audit: seq<AuditEvent>)

  datatype StoreError = NotFoundError | AlreadyDecided | Refused

  // ---- Drafts --------------------------------------------------------------------------

  function Marked(d: Draft, status: Status, reason: Option<string>): Draft {
    d.(status := status, failureReason := reason)
  }

  function AddDraft(db: Db, id: string, draft: Draft): Result<Db, StoreError> {
    if draft.sourceId !in db.sources then Err(NotFoundError)
    else if id in db.drafts then Err(Refused)
    else Ok(db.(drafts := db.drafts[id := draft]))
  }

  function SetStatus(db: Db, id: string, status: Status, reason: Option<string>): Result<Db, StoreError> {
    if id !in db.drafts then Err(NotFoundError)
    else Ok(db.(drafts := db.drafts[id := Marked(db.drafts[id], status, reason)]))
  }

  // One conditional UPDATE: only a pending draft can be claimed.
  function ClaimPending(db: Db, id: string, status: Status): Result<Db, StoreError> {
    if status == Pending then Err(Refused)
    else if id !in db.drafts then Err(NotFoundError)
    else if db.drafts[id].status != Pending then Err(AlreadyDecided)
    else SetStatus(db, id, status, None)
  }

  // A claim is won exactly by a caller that finds the draft pending. It moves that draft alone,
  // and whoever claims after it, for whatever decision, is told that the draft is decided.
  lemma ClaimIsExclusive(db: Db, id: string, status: Status, other: Status)
    requires status != Pending && other != Pending
    ensures ClaimPending(db, id, status).Ok? <==> id in db.drafts && db.drafts[id].status == Pending
    ensures ClaimPending(db, id, status).Err? ==> ClaimPending(db, id, status).error == if id in db.drafts then AlreadyDecided else NotFoundError
    ensures ClaimPending(db, id, status).Ok? ==> MovedAlone(db, ClaimPending(db, id, status).value, id, status)
    ensures ClaimPending(db, id, status).Ok? ==> ClaimPending(ClaimPending(db, id, status).value, id, other) == Err(AlreadyDecided)
  {
  }

  // One draft stands at a new status, and nothing else in the database has changed.
  ghost predicate MovedAlone(before: Db, after: Db, id: string, status: Status) {
    && after == before.(drafts := after.drafts) && after.drafts.Keys == before.drafts.Keys
    && id in before.drafts && after.drafts[id] == Marked(before.drafts[id], status, None)
    && forall d | d in before.drafts && d != id :: after.drafts[d] == before.drafts[d]
  }

  // Giving a claim back restores the database, pending drafts carrying no failure reason.
  lemma ReleaseUndoesClaim(db: Db, id: string, status: Status)
    requires ClaimPending(db, id, status).Ok? && db.drafts[id].failureReason.None?
    ensures SetStatus(ClaimPending(db, id, status).value, id, Pending, None) == Ok(db)
  {
    var claimed := ClaimPending(db, id, status).value;
    assert Marked(claimed.drafts[id], Pending, None) == db.drafts[id];
    assert claimed.drafts[id := db.drafts[id]] == db.drafts;
  }

  // RFC 6901: "" or "/"-led, with "~" only in "~0" and "~1".
  predicate JsonPointer(path: string) {
    path == "" || (path[0] == '/' && forall i | 0 <= i < |path| && path[i] == '~' :: i + 1 < |path| && path[i + 1] in ['0', '1'])
  }

  function SourceText(db: Db, draftId: string): string {
    if draftId in db.drafts && db.drafts[draftId].sourceId in db.sources then db.sources[db.drafts[draftId].sourceId] else ""
  }

  function AddSpan(db: Db, span: Span): Result<Db, StoreError> {
    if span.draftId !in db.drafts then Err(NotFoundError)
    else if !JsonPointer(span.fieldPath) || !(0 <= span.start < span.end <= |SourceText(db, span.draftId)|) then Err(Refused)
    else Ok(db.(spans := db.spans + [span]))
  }

  // ---- Approvals and audit ---------------------------------------------------------------

  // The characters Python's `str.strip` removes.
  predicate IsSpace(c: char) {
    var n := c as int;
    0x09 <= n <= 0x0D || 0x1C <= n <= 0x20 || n == 0x85 || n == 0xA0 || n == 0x1680 || 0x2000 <= n <= 0x200A
    || n == 0x2028 || n == 0x2029 || n == 0x202F || n == 0x205F || n == 0x3000
  }

  predicate Blank(s: string) { forall c | c in s :: IsSpace(c) }

  function AddApproval(db: Db, record: Approval): Result<Db, StoreError> {
    if record.decision != Approved && record.decision != Rejected then Err(Refused)
    else if record.decision == Rejected && (record.reason.None? || Blank(record.reason.value)) then Err(Refused)
    else Ok(db.(approvals := db.approvals + [record]))
  }

  function AppendAudit(db: Db, event: AuditEvent): Db {
    db.(audit := db.audit + [event])
  }

  // ---- Versions --------------------------------------------------------------------------

  predicate HasVersion(versions: seq<Version>, id: string) {
    exists i :: 0 <= i < |versions| && versions[i].id == id
  }

  function FindVersion(versions: seq<Version>, id: string): (r: Option<Version>)
    ensures r.Some? <==> HasVersion(versions, id)
    ensures r.Some? ==> r.value in versions && r.value.id == id
  {
    if versions == [] then None
    else if versions[0].id == id then Some(versions[0])
    else
      var r := FindVersion(versions[1..], id);
      assert r.Some? ==> HasVersion(versions, id) by {
        if r.Some? { var i :| 0 <= i < |versions| - 1 && versions[1..][i].id == id; assert versions[i + 1].id == id; }
      }
      assert HasVersion(versions, id) ==> r.Some? by {
        if HasVersion(versions, id) { var i :| 0 <= i < |versions| && versions[i].id == id; assert versions[1..][i - 1].id == id; }
      }
      r
  }

  // A human approval needs its approving record first; a seed must not carry any record.
  predicate OriginHolds(db: Db, v: Version) {
    match v.origin
    case HumanApproval => v.approvedBy.Some? && v.approvedBy.value != "" && exists a :: a in db.approvals && a.targetId == v.id && a.decision == Approved
    case Seed => v.approvedBy.None? && forall a | a in db.approvals :: a.targetId != v.id
  }

  predicate Insertable(db: Db, v: Version) {
    OriginHolds(db, v) && !HasVersion(db.versions, v.id) && (v.from.Some? && v.to.Some? ==> v.from.value < v.to.value)
  }

  function AddVersion(db: Db, v: Version): Result<Db, StoreError> {
    if Insertable(db, v) then Ok(db.(versions := db.versions + [v])) else Err(Refused)
  }

  // UPDATE rule_version SET effective_to = at WHERE id = ...
  function Close(versions: seq<Version>, id: string, at: int): (r: seq<Version>)
    ensures |r| == |versions|
  {
    seq(|versions|, i requires 0 <= i < |versions| => if versions[i].id == id then versions[i].(to := Some(at)) else versions[i])
  }

  // Close the previous version and open the new one in one transaction. A version that has
  // already ended cannot be ended again.
  function Supersede(db: Db, previousId: string, v: Version, at: int): Result<Db, StoreError> {
    var previous := FindVersion(db.versions, previousId);
    if previous.None? then Err(NotFoundError)
    else if previous.value.to.Some? then Err(Refused)
    else if previous.value.from.Some? && at <= previous.value.from.value then Err(Refused)
    else if !Insertable(db, v) then Err(Refused)
    else Ok(db.(versions := Close(db.versions, previousId, at) + [v]))
  }

  predicate IsActive(v: Version, at: int) {
    (v.from.None? || v.from.value <= at) && (v.to.None? || at < v.to.value)
  }

  // The one query judgements use.
  function Active(versions: seq<Version>, at: int): seq<Version> {
    if versions == [] then []
    else (if IsActive(versions[0], at) then [versions[0]] else []) + Active(versions[1..], at)
  }

  function Of(versions: seq<Version>, policyId: string): seq<Version> {
    if versions == [] then []
    else (if versions[0].policyId == policyId then [versions[0]] else []) + Of(versions[1..], policyId)
  }

  // `next((v for v in active(now) if v.policy_id == policy_id), None)`.
  function Current(versions: seq<Version>, policyId: string, now: int): Option<Version> {
    var hits := Of(Active(versions, now), policyId);
    if hits == [] then None else Some(hits[0])
  }

  ghost predicate UniqueIds(versions: seq<Version>) {
    forall i, j | 0 <= i < j < |versions| :: versions[i].id != versions[j].id
  }

  // ---- The object ------------------------------------------------------------------------

  class Store {
    var db: Db

    constructor (initial: Db)
      ensures db == initial
    {
      db := initial;
    }

    method Perform(r: Result<Db, StoreError>) returns (ok: bool)
      modifies this
      ensures ok == r.Ok?
      ensures db == if r.Ok? then r.value else old(db)
    {
      ok := r.Ok?;
      if ok { db := r.value; }
    }

    method Claim(id: string, status: Status) returns (r: Option<StoreError>)
      modifies this
      ensures r.None? <==> ClaimPending(old(db), id, status).Ok?
      ensures r.None? ==> db == ClaimPending(old(db), id, status).value
      ensures r.Some? ==> db == old(db) && r.value == ClaimPending(old(db), id, status).error
    {
      var outcome := ClaimPending(db, id, status);
      var ok := Perform(outcome);
      r := if ok then None else Some(outcome.error);
    }

    method SetDraftStatus(id: string, status: Status, reason: Option<string>) returns (ok: bool)
      modifies this
      ensures ok == (id in old(db).drafts)
      ensures db == if ok then SetStatus(old(db), id, status, reason).value else old(db)
    {
      ok := Perform(SetStatus(db, id, status, reason));
    }

    method RecordApproval(record: Approval) returns (ok: bool)
      modifies this
      ensures ok == AddApproval(old(db), record).Ok?
      ensures db == if ok then AddApproval(old(db), record).value else old(db)
    {
      ok := Perform(AddApproval(db, record));
    }

    method InstallFirst(v: Version) returns (ok: bool)
      modifies this
      ensures ok == Insertable(old(db), v)
      ensures db == if ok then old(db).(versions := old(db).versions + [v]) else old(db)
    {
      ok := Perform(AddVersion(db, v));
    }

    method InstallOver(previousId: string, v: Version, at: int) returns (ok: bool)
      modifies this
      ensures ok == Supersede(old(db), previousId, v, at).Ok?
      ensures db == if ok then Supersede(old(db), previousId, v, at).value else old(db)
    {
      ok := Perform(Supersede(db, previousId, v, at));
    }

    method Audit(event: AuditEvent)
      modifies this
      ensures db == AppendAudit(old(db), event)
    {
      db := AppendAudit(db, event);
    }

    method InsertDraft(id: string, draft: Draft) returns (ok: bool)
      modifies this
      ensures ok == AddDraft(old(db), id, draft).Ok?
      ensures db == if ok then AddDraft(old(db), id, draft).value else old(db)
    {
      ok := Perform(AddDraft(db, id, draft));
    }

    method InsertSpan(span: Span) returns (ok: bool)
      modifies this
      ensures ok == AddSpan(old(db), span).Ok?
      ensures db == if ok then AddSpan(old(db), span).value else old(db)
    {
      ok := Perform(AddSpan(db, span));
    }
  }
}
