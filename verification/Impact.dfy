// The impact preview must predict the approval it previews, and the batch preflight is
// complete on histories without an end ahead of the request's instant (main.py,
// _approval_impact, _approval_preflight).
module Impact {
  import opened Basics
  import opened JsonValues
  import opened ReviewMerge
  import opened RuleStore
  import opened Timeline
  import opened Approval

  function Payloads(vs: seq<Version>): (r: seq<Dict>)
    ensures |r| == |vs| && forall i | 0 <= i < |vs| :: r[i] == vs[i].payload
  {
    if vs == [] then [] else [vs[0].payload] + Payloads(vs[1..])
  }

  // Every active payload, the ones of this policy replaced, or the merged one appended.
  function Predicted(active: seq<Version>, policyId: string, merged: Dict): seq<Dict> {
    if active == [] then []
    else [if active[0].policyId == policyId then merged else active[0].payload] + Predicted(active[1..], policyId, merged)
  }

  function AfterPayloads(db: Db, draft: Draft, now: int): seq<Dict> {
    var active := Active(db.versions, now);
    var merged := Merged(PayloadOf(Current(db.versions, draft.policyId, now)), draft.policyId, draft.payload);
    Predicted(active, draft.policyId, merged) + if Of(active, draft.policyId) == [] then [merged] else []
  }

  lemma {:induction false} PredictedAt(active: seq<Version>, policyId: string, merged: Dict)
    ensures |Predicted(active, policyId, merged)| == |active|
    ensures forall i | 0 <= i < |active| ::
      Predicted(active, policyId, merged)[i] == if active[i].policyId == policyId then merged else active[i].payload
    ensures Of(active, policyId) == [] <==> forall i | 0 <= i < |active| :: active[i].policyId != policyId
  {
    if active != [] { PredictedAt(active[1..], policyId, merged); }
  }

  // The first `index` places have been replaced where they belong to the policy.
  ghost predicate ReplacedUpTo(after: seq<Dict>, replaced: bool, active: seq<Version>, policyId: string, merged: Dict, index: nat) {
    && |after| == |active|
    && (forall i | 0 <= i < |active| :: after[i] == if i < index && active[i].policyId == policyId then merged else active[i].payload)
    && (replaced <==> exists i :: 0 <= i < |active| && i < index && active[i].policyId == policyId)
  }

  lemma AllReplaced(after: seq<Dict>, replaced: bool, active: seq<Version>, policyId: string, merged: Dict)
    requires ReplacedUpTo(after, replaced, active, policyId, merged, |active|)
    ensures after == Predicted(active, policyId, merged)
    ensures replaced <==> Of(active, policyId) != []
  {
    PredictedAt(active, policyId, merged);
  }

  lemma ReplaceOne(after: seq<Dict>, replaced: bool, active: seq<Version>, policyId: string, merged: Dict, index: nat)
    requires index < |active| && ReplacedUpTo(after, replaced, active, policyId, merged, index)
    ensures active[index].policyId == policyId ==> ReplacedUpTo(after[index := merged], true, active, policyId, merged, index + 1)
    ensures active[index].policyId != policyId ==> ReplacedUpTo(after, replaced, active, policyId, merged, index + 1)
  {
  }

  // The list the preview builds, copy by copy.
  method AfterPolicies(store: Store, draft: Draft, now: int) returns (after: seq<Dict>)
    ensures after == AfterPayloads(store.db, draft, now)
  {
    var active := Active(store.db.versions, now);
    var previous := Current(store.db.versions, draft.policyId, now);
    var merged := Merged(PayloadOf(previous), draft.policyId, draft.payload);
    after := Payloads(active);
    var replaced := false;
    for index := 0 to |active|
      invariant ReplacedUpTo(after, replaced, active, draft.policyId, merged, index)
    {
      ReplaceOne(after, replaced, active, draft.policyId, merged, index);
      if active[index].policyId == draft.policyId {
        after := after[index := merged];
        replaced := true;
      }
    }
    AllReplaced(after, replaced, active, draft.policyId, merged);
    if !replaced {
      after := after + [merged];
    }
  }

  lemma ActiveStep(v: Version, rest: seq<Version>, now: int)
    ensures Active([v] + rest, now) == (if IsActive(v, now) then [v] else []) + Active(rest, now)
  {
    assert ([v] + rest)[1..] == rest;
  }

  lemma CloseStep(v: Version, rest: seq<Version>, id: string, now: int)
    ensures Close([v] + rest, id, now) == [if v.id == id then v.(to := Some(now)) else v] + Close(rest, id, now)
  {
  }

  lemma CloseNothing(vs: seq<Version>, id: string, now: int)
    requires forall i | 0 <= i < |vs| :: vs[i].id != id
    ensures Close(vs, id, now) == vs
  {
  }

  lemma RemoveLater<T>(x: T, s: seq<T>, k: nat)
    requires k < |s|
    ensures ([x] + s)[..k + 1] + ([x] + s)[k + 2..] == [x] + (s[..k] + s[k + 1..]) && ([x] + s)[k + 1] == s[k]
  {
  }

  ghost predicate OneRemoved(vs: seq<Version>, previous: Version, now: int, k: nat) {
    && k < |Active(vs, now)| && Active(vs, now)[k] == previous
    && Active(Close(vs, previous.id, now), now) == Active(vs, now)[..k] + Active(vs, now)[k + 1..]
  }

  lemma FirstRemoved(first: Version, rest: seq<Version>, now: int)
    requires IsActive(first, now) && forall i | 0 <= i < |rest| :: rest[i].id != first.id
    ensures OneRemoved([first] + rest, first, now, 0)
  {
    CloseStep(first, rest, first.id, now);
    CloseNothing(rest, first.id, now);
    ActiveStep(first, rest, now);
    ActiveStep(first.(to := Some(now)), rest, now);
  }

  lemma LaterRemoved(first: Version, rest: seq<Version>, previous: Version, now: int, k: nat)
    requires first.id != previous.id && OneRemoved(rest, previous, now, k)
    ensures OneRemoved([first] + rest, previous, now, if IsActive(first, now) then k + 1 else k)
  {
    CloseStep(first, rest, previous.id, now);
    ActiveStep(first, rest, now);
    ActiveStep(first, Close(rest, previous.id, now), now);
    RemoveLater(first, Active(rest, now), k);
  }

  // Closing a version that is in force takes exactly that one out of force.
  lemma {:induction false} ClosingRemovesOne(vs: seq<Version>, previous: Version, now: int) returns (k: nat)
    requires UniqueIds(vs) && previous in vs && IsActive(previous, now)
    ensures OneRemoved(vs, previous, now, k)
  {
    var first, rest := vs[0], vs[1..];
    assert vs == [first] + rest;
    if first == previous {
      k := 0;
      FirstRemoved(first, rest, now);
    } else {
      var j :| 0 <= j < |vs| && vs[j] == previous;
      assert first.id != vs[j].id;
      k := ClosingRemovesOne(rest, previous, now);
      LaterRemoved(first, rest, previous, now, k);
      if IsActive(first, now) { k := k + 1; }
    }
  }

  lemma {:induction false} OnlyOneOf(active: seq<Version>, policyId: string, k: nat)
    requires |Of(active, policyId)| == 1 && k < |active| && active[k].policyId == policyId
    ensures forall i | 0 <= i < |active| && i != k :: active[i].policyId != policyId
  {
    var rest := active[1..];
    if k == 0 {
      PredictedAt(rest, policyId, map[]);
    } else {
      OfMembers(rest, policyId);
      assert active[k] in rest;
      OnlyOneOf(rest, policyId, k - 1);
    }
  }

  lemma SwapIsPermutation<T>(s: seq<T>, k: nat, x: T)
    requires k < |s|
    ensures multiset(s[..k] + s[k + 1..] + [x]) == multiset(s[k := x])
  {
    assert s[k := x] == s[..k] + [x] + s[k + 1..];
  }

  // Undisturbed, the approval puts in force exactly the payloads the preview judged with.
  lemma PreviewPredictsApproval(db: Db, id: string, draft: Draft, reason: Option<string>, session: Session, now: int)
    requires UniqueIds(db.versions) && CanInstall(db, id, draft, now)
    requires |Of(Active(db.versions, now), draft.policyId)| <= 1
    ensures multiset(Payloads(Active(Reflected(db, id, draft, reason, session, now).versions, now))) == multiset(AfterPayloads(db, draft, now))
  {
    var previous := Current(db.versions, draft.policyId, now);
    CurrentIsActive(db.versions, draft.policyId, now);
    if previous.None? {
      FirstOfItsPolicy(db.versions, draft.policyId, NewVersion(previous, id, draft, session, now), now);
    } else {
      SecondOfItsPolicy(db.versions, previous.value, NewVersion(previous, id, draft, session, now), now);
    }
  }

  lemma FirstOfItsPolicy(vs: seq<Version>, policyId: string, v: Version, now: int)
    requires Of(Active(vs, now), policyId) == [] && IsActive(v, now)
    ensures Payloads(Active(vs + [v], now)) == Predicted(Active(vs, now), policyId, v.payload) + [v.payload]
  {
    ActiveConcat(vs, [v], now);
    assert Active([v], now) == [v];
    PredictedAt(Active(vs, now), policyId, v.payload);
  }

  // Payloads of a list put together, and cut: they follow the versions place by place.
  lemma PayloadsConcat(a: seq<Version>, b: seq<Version>)
    ensures Payloads(a + b) == Payloads(a) + Payloads(b)
  {
    assert forall i | 0 <= i < |a + b| :: Payloads(a + b)[i] == (Payloads(a) + Payloads(b))[i];
  }

  lemma PayloadsSplit(s: seq<Version>, k: nat)
    requires k <= |s|
    ensures Payloads(s[..k]) == Payloads(s)[..k] && Payloads(s[k..]) == Payloads(s)[k..]
  {
    assert s == s[..k] + s[k..];
    PayloadsConcat(s[..k], s[k..]);
  }

  lemma PayloadsWithout(active: seq<Version>, k: nat, rest: seq<Version>, v: Version)
    requires k < |active| && rest == active[..k] + active[k + 1..]
    ensures Payloads(rest + [v]) == Payloads(active)[..k] + Payloads(active)[k + 1..] + [v.payload]
  {
    PayloadsSplit(active, k);
    PayloadsSplit(active, k + 1);
    PayloadsConcat(active[..k], active[k + 1..]);
    PayloadsConcat(rest, [v]);
    assert Payloads([v]) == [v.payload];
  }

  lemma PredictedSwaps(active: seq<Version>, policyId: string, merged: Dict, k: nat)
    requires |Of(active, policyId)| == 1 && k < |active| && active[k].policyId == policyId
    ensures Predicted(active, policyId, merged) == Payloads(active)[k := merged]
  {
    OnlyOneOf(active, policyId, k);
    PredictedAt(active, policyId, merged);
  }

  lemma SecondOfItsPolicy(vs: seq<Version>, previous: Version, v: Version, now: int)
    requires UniqueIds(vs) && previous in vs && IsActive(previous, now) && IsActive(v, now)
    requires |Of(Active(vs, now), previous.policyId)| == 1
    ensures multiset(Payloads(Active(Close(vs, previous.id, now) + [v], now)))
      == multiset(Predicted(Active(vs, now), previous.policyId, v.payload))
  {
    var active := Active(vs, now);
    ActiveConcat(Close(vs, previous.id, now), [v], now);
    assert Active([v], now) == [v];
    var k := ClosingRemovesOne(vs, previous, now);
    PayloadsWithout(active, k, Active(Close(vs, previous.id, now), now), v);
    PredictedSwaps(active, previous.policyId, v.payload, k);
    SwapIsPermutation(Payloads(active), k, v.payload);
  }

  // The one-active-version invariant supplies what the preview rests on.
  lemma ChainGivesPreview(db: Db, draft: Draft, now: int)
    requires Chain(Of(db.versions, draft.policyId))
    ensures |Of(Active(db.versions, now), draft.policyId)| == 1
  {
    OfActive(db.versions, draft.policyId, now);
    var k := ExactlyOneActive(Of(db.versions, draft.policyId), now);
  }

  // ---- When a batch that passed its preflight can still fail ---------------------------

  // No version of the policy ends after this moment.
  ghost predicate NoLaterEnd(vs: seq<Version>, now: int) {
    forall v | v in vs && v.to.Some? :: v.to.value <= now
  }

  lemma PastHistoryEndsOpen(db: Db, draft: Draft, now: int)
    requires NoLaterEnd(Of(db.versions, draft.policyId), now)
    ensures EndsOpen(db, draft, now)
  {
    CurrentIsActive(db.versions, draft.policyId, now);
    OfMembers(db.versions, draft.policyId);
  }

  // On such a table a batch is all or nothing: it succeeds exactly when it is acceptable.
  lemma PastHistoryFinishes(db: Db, ids: seq<string>, now: int)
    requires NoLaterEnd(db.versions, now)
    ensures Finishes(db, ids, now) <==> Acceptable(db, ids, now)
  {
    if Acceptable(db, ids, now) {
      forall i | 0 <= i < |ids| ensures EndsOpen(db, db.drafts[ids[i]], now) {
        OfMembers(db.versions, db.drafts[ids[i]].policyId);
        PastHistoryEndsOpen(db, db.drafts[ids[i]], now);
      }
    }
  }

  // ---- Overtaken by a later approval -----------------------------------------------------

  // An approval that carries a later instant leaves the version in force now with an end ahead
  // of now: still current, still started in time, but no longer open.
  lemma OvertakenEnds(db: Db, id: string, draft: Draft, reason: Option<string>, session: Session, at: int, now: int)
    requires UniqueIds(db.versions) && Chain(Of(db.versions, draft.policyId))
    requires CanInstall(db, id, draft, at) && now < at && EndsOpen(db, draft, now)
    ensures var after := Reflected(db, id, draft, reason, session, at).versions;
      && Current(db.versions, draft.policyId, now).Some?
      && Current(after, draft.policyId, now) == Some(Current(db.versions, draft.policyId, now).value.(to := Some(at)))
  {
    var p := draft.policyId;
    var j := CurrentOfChain(db.versions, p, now);
    var k := CurrentOfChain(db.versions, p, at);
    OpenIsLast(Of(db.versions, p), j);
    OpenIsLast(Of(db.versions, p), k);
    var previous := Current(db.versions, p, at).value;
    CurrentIsActive(db.versions, p, at);
    SupersedeExtendsChain(db.versions, previous, NewVersion(Some(previous), id, draft, session, at), at, p);
    var after := Reflected(db, id, draft, reason, session, at).versions;
    var l := CurrentOfChain(after, p, now);
    assert IsActive(Of(after, p)[k], now);
  }

  // Only the last version of a chain is open.
  lemma OpenIsLast(vs: seq<Version>, k: nat)
    requires Chain(vs) && k < |vs| && vs[k].to.None?
    ensures k == |vs| - 1
  {
  }

  // What the approval leaves as it was for a policy of its own.
  lemma OvertakenLeaves(db: Db, id: string, draft: Draft, reason: Option<string>, session: Session, at: int, p: string, now: int)
    requires UniqueIds(db.versions) && CanInstall(db, id, draft, at) && p != draft.policyId
    ensures Current(Reflected(db, id, draft, reason, session, at).versions, p, now) == Current(db.versions, p, now)
  {
    var previous := Current(db.versions, draft.policyId, at);
    var v := NewVersion(previous, id, draft, session, at);
    CurrentIsActive(db.versions, draft.policyId, at);
    var after := Reflected(db, id, draft, reason, session, at).versions;
    if previous.Some? {
      OtherPoliciesUntouched(db.versions, previous.value, v, at, p);
    } else {
      OfConcat(db.versions, [v], p);
      assert Of([v], p) == [] by { assert [v][1..] == []; }
    }
    assert Of(after, p) == Of(db.versions, p);
    OfActive(after, p, now);
    OfActive(db.versions, p, now);
  }

  lemma ReflectedAddsOneId(db: Db, id: string, draft: Draft, reason: Option<string>, session: Session, at: int, other: string)
    requires other != id && !HasVersion(db.versions, VersionId(other))
    ensures !HasVersion(Reflected(db, id, draft, reason, session, at).versions, VersionId(other))
  {
    var previous := Current(db.versions, draft.policyId, at);
    var kept := if previous.Some? then Close(db.versions, previous.value.id, at) else db.versions;
    var after := Reflected(db, id, draft, reason, session, at).versions;
    VersionIdsDiffer(id, other);
    forall i | 0 <= i < |after| ensures after[i].id != VersionId(other) {
      if i < |kept| { assert kept[i].id == db.versions[i].id; }
    }
  }

  // Every version has the record its origin demands, or must not have.
  ghost predicate Documented(db: Db) { forall v | v in db.versions :: OriginHolds(db, v) }

  lemma OriginStands(db: Db, after: Db, v: Version, w: Version, record: RuleStore.Approval)
    requires OriginHolds(db, v) && after.approvals == db.approvals + [record] && record.targetId != v.id
    requires w.id == v.id && w.origin == v.origin && w.approvedBy == v.approvedBy
    ensures OriginHolds(after, w)
  {
    if a :| a in db.approvals && a.targetId == v.id && a.decision == Approved { assert a in after.approvals; }
  }

  lemma ReflectedIsDocumented(db: Db, id: string, draft: Draft, reason: Option<string>, session: Session, at: int)
    requires Documented(db) && session.userId != "" && CanInstall(db, id, draft, at)
    ensures Documented(Reflected(db, id, draft, reason, session, at))
  {
    var after := Reflected(db, id, draft, reason, session, at);
    var n, record := |db.versions|, RecordOf(id, Approved, reason, session, at);
    assert record in after.approvals;
    forall i | 0 <= i < n ensures OriginHolds(after, after.versions[i]) {
      assert db.versions[i] in db.versions;
      OriginStands(db, after, db.versions[i], after.versions[i], record);
    }
    forall w | w in after.versions ensures OriginHolds(after, w) {
      var i :| 0 <= i < |after.versions| && after.versions[i] == w;
    }
  }

  // A batch of two drafts and an approval of a third, for the policy of the second.
  ghost predicate Overtakes(db: Db, c: string, d: string, e: string, at: int, now: int) {
    && c in db.drafts && d in db.drafts && e in db.drafts && c != d && c != e && d != e
    && db.drafts[c].status == Pending && db.drafts[d].status == Pending && db.drafts[e].status == Pending
    && db.drafts[c].policyId != db.drafts[d].policyId && db.drafts[e].policyId == db.drafts[d].policyId
    && UniqueIds(db.versions) && Chain(Of(db.versions, db.drafts[d].policyId))
    && Finishes(db, [c, d], now) && now < at && CanInstall(db, e, db.drafts[e], at)
  }

  // The database once the third draft has been approved.
  function Overtaken(db: Db, e: string, reason: Option<string>, session: Session, at: int): Db
    requires e in db.drafts && db.drafts[e].status == Pending
  {
    Reflected(ClaimPending(db, e, Approved).value, e, db.drafts[e], reason, session, at)
  }

  lemma OvertakenDrafts(db: Db, c: string, d: string, e: string, reason: Option<string>, session: Session, at: int, now: int)
    requires Overtakes(db, c, d, e, at, now)
    ensures var after := Overtaken(db, e, reason, session, at);
      && after.drafts.Keys == db.drafts.Keys && after.drafts[c] == db.drafts[c] && after.drafts[d] == db.drafts[d]
      && !HasVersion(after.versions, VersionId(c)) && !HasVersion(after.versions, VersionId(d))
      && StartsInTime(after, db.drafts[c], now) && EndsOpen(after, db.drafts[c], now)
      && StartsInTime(after, db.drafts[d], now) && !EndsOpen(after, db.drafts[d], now)
  {
    var claimed := ClaimPending(db, e, Approved).value;
    var ids := [c, d];
    assert ids[0] == c && ids[1] == d;
    assert !HasVersion(db.versions, VersionId(ids[0])) && StartsInTime(db, db.drafts[ids[0]], now) && EndsOpen(db, db.drafts[ids[0]], now);
    assert !HasVersion(db.versions, VersionId(ids[1])) && StartsInTime(db, db.drafts[ids[1]], now) && EndsOpen(db, db.drafts[ids[1]], now);
    ReflectedAddsOneId(claimed, e, db.drafts[e], reason, session, at, c);
    ReflectedAddsOneId(claimed, e, db.drafts[e], reason, session, at, d);
    OvertakenLeaves(claimed, e, db.drafts[e], reason, session, at, db.drafts[c].policyId, now);
    OvertakenEnds(claimed, e, db.drafts[e], reason, session, at, now);
  }

  lemma TwoAcceptable(db: Db, a: string, b: string, now: int)
    requires a != b && a in db.drafts && b in db.drafts && db.drafts[a].policyId != db.drafts[b].policyId
    requires db.drafts[a].status == Pending && db.drafts[b].status == Pending
    requires !HasVersion(db.versions, VersionId(a)) && !HasVersion(db.versions, VersionId(b))
    requires StartsInTime(db, db.drafts[a], now) && StartsInTime(db, db.drafts[b], now)
    ensures Acceptable(db, [a, b], now)
  {
  }

  // Of two drafts the second stops the batch, and the outcome is fixed.
  lemma SecondStops(db: Db, c: string, d: string, reason: Option<string>, session: Session, now: int, out: Db)
    requires Acceptable(db, [c, d], now) && EndsOpen(db, db.drafts[c], now) && !EndsOpen(db, db.drafts[d], now)
    ensures !Finishes(db, [c, d], now)
    ensures LeftHalfway(db, out, [c, d], reason, session, now)
      <==> out == Residue(db.(drafts := MarkAll(db.drafts, [c, d], Approved)), db.drafts, [c, d], 1, reason, session, now)
  {
    var ids := [c, d];
    var claimed := db.(drafts := MarkAll(db.drafts, ids, Approved));
    assert ids[0] == c && ids[1] == d;
    assert forall draft :: EndsOpen(claimed, draft, now) <==> EndsOpen(db, draft, now);
    if out == Residue(claimed, db.drafts, ids, 1, reason, session, now) {
      assert StoppedAt(claimed, out, db.drafts, ids, 1, reason, session, now);
    }
  }

  // Whatever the database, a batch that would have finished passes every check after a later
  // approval of one of its policies, and then stops at that policy's draft, the draft before
  // it reflected for good.
  lemma OvertakenBatchStops(db: Db, c: string, d: string, e: string, reason: Option<string>, session: Session, at: int, now: int, out: Db)
    requires Overtakes(db, c, d, e, at, now)
    ensures var after := Overtaken(db, e, reason, session, at);
      && Acceptable(after, [c, d], now) && !Finishes(after, [c, d], now)
      && (LeftHalfway(after, out, [c, d], reason, session, now)
          <==> out == Residue(after.(drafts := MarkAll(after.drafts, [c, d], Approved)), after.drafts, [c, d], 1, reason, session, now))
  {
    OvertakenDrafts(db, c, d, e, reason, session, at, now);
    TwoAcceptable(Overtaken(db, e, reason, session, at), c, d, now);
    SecondStops(Overtaken(db, e, reason, session, at), c, d, reason, session, now, out);
  }

  // ---- One such database ------------------------------------------------------------------

  function Plain(policyId: string): Draft { Draft(policyId, "source", Pending, map[], None) }

  const OPERATOR: Session := Session("u1", "operator")

  // One seeded policy "q", three pending drafts: "c" for a new policy, "d" and "e" for "q".
  function Seeding(): Db {
    Db(map["source" := ""], map["c" := Plain("p"), "d" := Plain("q"), "e" := Plain("q")], [],
       [Version("a", "q", map[], Seed, None, None, None, None)], [], [])
  }

  lemma SeedingReads(now: int)
    ensures Of(Seeding().versions, "q") == Seeding().versions && Chain(Of(Seeding().versions, "q"))
    ensures Current(Seeding().versions, "q", now) == Some(Seeding().versions[0])
    ensures Current(Seeding().versions, "p", now) == None
  {
    var vs := Seeding().versions;
    assert Active(vs[1..], now) == [] && Of(vs[1..], "q") == [] && Of(vs[1..], "p") == [];
    assert "p"[0] != "q"[0];
    assert Active(vs, now) == vs;
  }

  lemma SeedingDrafts()
    ensures Seeding().drafts.Keys == {"c", "d", "e"}
    ensures Seeding().drafts["c"] == Plain("p") && Seeding().drafts["d"] == Plain("q") && Seeding().drafts["e"] == Plain("q")
    ensures "c" != "d" && "c" != "e" && "d" != "e" && "p" != "q"
  {
    assert "c"[0] != "d"[0] && "c"[0] != "e"[0] && "d"[0] != "e"[0] && "p"[0] != "q"[0];
  }

  lemma ShortIdsAreOther(vs: seq<Version>, id: string)
    requires forall i | 0 <= i < |vs| :: |vs[i].id| == 1
    ensures !HasVersion(vs, VersionId(id))
  {
    assert |VersionId(id)| > 1;
  }

  lemma SeedingOvertakes(at: int, now: int)
    requires now < at
    ensures Overtakes(Seeding(), "c", "d", "e", at, now)
  {
    var db := Seeding();
    SeedingDrafts();
    SeedingReads(now);
    SeedingReads(at);
    ShortIdsAreOther(db.versions, "c");
    ShortIdsAreOther(db.versions, "d");
    ShortIdsAreOther(db.versions, "e");
    TwoAcceptable(db, "c", "d", now);
  }

  lemma SeedingIsDocumented(reason: Option<string>)
    ensures Documented(Seeding()) && Documented(Overtaken(Seeding(), "e", reason, OPERATOR, 10))
  {
    SeedingOvertakes(10, 5);
    ReflectedIsDocumented(ClaimPending(Seeding(), "e", Approved).value, "e", Seeding().drafts["e"], reason, OPERATOR, 10);
  }

  // The batch read its clock at 5, and "e" had been approved by a clock that showed 10: the
  // record and version of "e" are there as the store demands them, "c" is reflected, "d" refused.
  lemma AcceptedBatchCanFailHalfway(reason: Option<string>, out: Db)
    ensures Overtakes(Seeding(), "c", "d", "e", 10, 5) && Documented(Seeding()) && Documented(Overtaken(Seeding(), "e", reason, OPERATOR, 10))
    ensures var db := Overtaken(Seeding(), "e", reason, OPERATOR, 10);
      && Acceptable(db, ["c", "d"], 5) && !Finishes(db, ["c", "d"], 5)
      && (LeftHalfway(db, out, ["c", "d"], reason, OPERATOR, 5)
          <==> out == Residue(db.(drafts := MarkAll(db.drafts, ["c", "d"], Approved)), db.drafts, ["c", "d"], 1, reason, OPERATOR, 5))
  {
    SeedingOvertakes(10, 5);
    SeedingIsDocumented(reason);
    OvertakenBatchStops(Seeding(), "c", "d", "e", reason, OPERATOR, 10, 5, out);
  }
}
