// The life of one policy: its versions form a chain of contiguous half-open windows, and a
// supersede keeps it one (contract decision 6; sqlite_store.py, supersede and active).
module Timeline {
  import opened Basics
  import opened JsonValues
  import opened RuleStore

  // Each version names the one it replaces and starts the moment that one ends.
  ghost predicate Linked(vs: seq<Version>) {
    && (forall i | 0 <= i < |vs| - 1 ::
          vs[i].to.Some? && vs[i + 1].from == vs[i].to && vs[i + 1].supersedes == Some(vs[i].id))
    && (forall i | 0 <= i < |vs| && vs[i].from.Some? && vs[i].to.Some? :: vs[i].from.value < vs[i].to.value)
  }

  // Starts in the unknown past, ends in the open future.
  ghost predicate Chain(vs: seq<Version>) {
    |vs| > 0 && vs[0].from.None? && vs[|vs| - 1].to.None? && Linked(vs)
  }

  lemma {:induction false} WindowsAreOrdered(vs: seq<Version>, i: nat, j: nat)
    requires Linked(vs) && i < j < |vs|
    ensures vs[i].to.Some? && vs[j].from.Some? && vs[i].to.value <= vs[j].from.value
    decreases j
  {
    if i < j - 1 { WindowsAreOrdered(vs, i, j - 1); }
  }

  lemma {:induction false} SomeWindowContains(vs: seq<Version>, t: int) returns (k: nat)
    requires |vs| > 0 && vs[0].from.None? && Linked(vs)
    requires vs[|vs| - 1].to.None? || t < vs[|vs| - 1].to.value
    ensures k < |vs| && IsActive(vs[k], t)
    decreases |vs|
  {
    k := |vs| - 1;
    if !IsActive(vs[k], t) {
      k := SomeWindowContains(vs[..k], t);
    }
  }

  // Exactly one version of a chained policy is in force at any instant.
  lemma ExactlyOneActive(vs: seq<Version>, t: int) returns (k: nat)
    requires Chain(vs)
    ensures k < |vs| && IsActive(vs[k], t)
    ensures forall j | 0 <= j < |vs| && IsActive(vs[j], t) :: j == k
    ensures Active(vs, t) == [vs[k]]
  {
    k := SomeWindowContains(vs, t);
    forall j | 0 <= j < |vs| && IsActive(vs[j], t) ensures j == k {
      if j < k { WindowsAreOrdered(vs, j, k); }
      if k < j { WindowsAreOrdered(vs, k, j); }
    }
    ActiveAlone(vs, t, k);
  }

  lemma {:induction false} ActiveAlone(vs: seq<Version>, t: int, k: nat)
    requires k < |vs| && IsActive(vs[k], t)
    requires forall j | 0 <= j < |vs| && j != k :: !IsActive(vs[j], t)
    ensures Active(vs, t) == [vs[k]]
  {
    if k > 0 {
      ActiveAlone(vs[1..], t, k - 1);
    } else {
      NoneActive(vs[1..], t);
    }
  }

  lemma {:induction false} NoneActive(vs: seq<Version>, t: int)
    requires forall v | v in vs :: !IsActive(v, t)
    ensures Active(vs, t) == []
  {
    if vs != [] { assert vs[0] in vs; NoneActive(vs[1..], t); }
  }

  // ---- Reading the versions of one policy out of the table -----------------------------

  lemma OfStep(v: Version, rest: seq<Version>, p: string)
    ensures Of([v] + rest, p) == (if v.policyId == p then [v] else []) + Of(rest, p)
  {
    assert ([v] + rest)[1..] == rest;
  }

  lemma {:induction false} OfConcat(a: seq<Version>, b: seq<Version>, p: string)
    ensures Of(a + b, p) == Of(a, p) + Of(b, p)
  {
    if a == [] {
      assert a + b == b;
    } else {
      assert a + b == [a[0]] + (a[1..] + b);
      OfStep(a[0], a[1..] + b, p);
      OfConcat(a[1..], b, p);
    }
  }

  lemma {:induction false} ActiveConcat(a: seq<Version>, b: seq<Version>, t: int)
    ensures Active(a + b, t) == Active(a, t) + Active(b, t)
  {
    if a == [] { assert a + b == b; } else { assert (a + b)[1..] == a[1..] + b; ActiveConcat(a[1..], b, t); }
  }

  lemma {:induction false} OfClose(vs: seq<Version>, id: string, at: int, p: string)
    ensures Of(Close(vs, id, at), p) == Close(Of(vs, p), id, at)
  {
    if vs != [] {
      assert Close(vs, id, at)[1..] == Close(vs[1..], id, at);
      OfClose(vs[1..], id, at, p);
    }
  }

  lemma {:induction false} OfActive(vs: seq<Version>, p: string, t: int)
    ensures Of(Active(vs, t), p) == Active(Of(vs, p), t)
  {
    if vs != [] {
      OfActive(vs[1..], p, t);
      var head: seq<Version> := if IsActive(vs[0], t) then [vs[0]] else [];
      OfConcat(head, Active(vs[1..], t), p);
      var mine: seq<Version> := if vs[0].policyId == p then [vs[0]] else [];
      ActiveConcat(mine, Of(vs[1..], p), t);
    }
  }

  lemma {:induction false} OfMembers(vs: seq<Version>, p: string)
    ensures forall v :: v in Of(vs, p) <==> v in vs && v.policyId == p
  {
    if vs != [] { assert vs == [vs[0]] + vs[1..]; OfMembers(vs[1..], p); }
  }

  lemma {:induction false} ActiveMembers(vs: seq<Version>, t: int)
    ensures forall v :: v in Active(vs, t) <==> v in vs && IsActive(v, t)
  {
    if vs != [] { assert vs == [vs[0]] + vs[1..]; ActiveMembers(vs[1..], t); }
  }

  lemma {:induction false} OfUnique(vs: seq<Version>, p: string)
    requires UniqueIds(vs)
    ensures UniqueIds(Of(vs, p))
  {
    if vs != [] {
      OfUnique(vs[1..], p);
      OfMembers(vs[1..], p);
    }
  }

  lemma SameIdSameVersion(vs: seq<Version>, v: Version, w: Version)
    requires UniqueIds(vs) && v in vs && w in vs && v.id == w.id
    ensures v == w
  {
  }

  // What `Current` returns is a version in force of that policy.
  lemma CurrentIsActive(vs: seq<Version>, p: string, now: int)
    ensures Current(vs, p, now).Some? ==>
      Current(vs, p, now).value in vs && Current(vs, p, now).value.policyId == p && IsActive(Current(vs, p, now).value, now)
    ensures Current(vs, p, now).None? ==> forall v | v in vs && v.policyId == p :: !IsActive(v, now)
  {
    OfMembers(Active(vs, now), p);
    ActiveMembers(vs, now);
    if Current(vs, p, now).None? {
      forall v | v in vs && v.policyId == p ensures !IsActive(v, now) {
        assert v in Of(Active(vs, now), p) <==> v in Active(vs, now);
      }
    }
  }

  // For a chained policy it is the only one, so it does not depend on row order.
  lemma CurrentOfChain(vs: seq<Version>, p: string, now: int) returns (k: nat)
    requires Chain(Of(vs, p))
    ensures k < |Of(vs, p)| && Current(vs, p, now) == Some(Of(vs, p)[k])
    ensures IsActive(Of(vs, p)[k], now)
    ensures forall j | 0 <= j < |Of(vs, p)| && IsActive(Of(vs, p)[j], now) :: j == k
  {
    OfActive(vs, p, now);
    k := ExactlyOneActive(Of(vs, p), now);
  }

  // ---- A supersede extends the chain --------------------------------------------------

  // What a successful supersede knew about the version it closed.
  lemma SupersedeFacts(db: Db, previousId: string, v: Version, at: int) returns (previous: Version)
    requires Supersede(db, previousId, v, at).Ok?
    ensures previous in db.versions && previous.id == previousId && previous.to.None?
    ensures previous.from.Some? ==> previous.from.value < at
    ensures Insertable(db, v)
    ensures Supersede(db, previousId, v, at).value == db.(versions := Close(db.versions, previousId, at) + [v])
  {
    previous := FindVersion(db.versions, previousId).value;
  }

  // The end of a version goes from unknown to known once: after one supersede every other of
  // the same version is refused, whatever it carries.
  lemma SupersededOnce(db: Db, previousId: string, v: Version, at: int, w: Version, later: int)
    requires UniqueIds(db.versions) && Supersede(db, previousId, v, at).Ok?
    ensures Supersede(Supersede(db, previousId, v, at).value, previousId, w, later) == Err(Refused)
  {
    var previous := SupersedeFacts(db, previousId, v, at);
    var next := Close(db.versions, previousId, at) + [v];
    CloseUnique(db.versions, previousId, at, v);
    var i :| 0 <= i < |db.versions| && db.versions[i] == previous;
    assert next[i] == previous.(to := Some(at));
    assert HasVersion(next, previousId);
    SameIdSameVersion(next, FindVersion(next, previousId).value, next[i]);
  }

  // A supersede is refused exactly when there is no such version, it has ended, it does not
  // start before the new one, or the new one cannot stand in the table.
  lemma SupersedeIff(db: Db, previous: Version, v: Version, at: int)
    requires UniqueIds(db.versions) && previous in db.versions
    ensures Supersede(db, previous.id, v, at).Ok?
      <==> previous.to.None? && (previous.from.Some? ==> previous.from.value < at) && Insertable(db, v)
    ensures Supersede(db, previous.id, v, at).Ok? ==> OnlyEnded(db, Supersede(db, previous.id, v, at).value, previous, v, at)
  {
    assert HasVersion(db.versions, previous.id);
    SameIdSameVersion(db.versions, FindVersion(db.versions, previous.id).value, previous);
  }

  // The previous version gets its end, the new one comes last, and every other row and table
  // is as before.
  ghost predicate OnlyEnded(before: Db, after: Db, previous: Version, v: Version, at: int) {
    && after == before.(versions := after.versions) && |after.versions| == |before.versions| + 1
    && after.versions[|before.versions|] == v
    && forall i | 0 <= i < |before.versions| ::
         after.versions[i] == if before.versions[i] == previous then previous.(to := Some(at)) else before.versions[i]
  }

  lemma CloseUnique(vs: seq<Version>, id: string, at: int, v: Version)
    requires UniqueIds(vs) && !HasVersion(vs, v.id)
    ensures UniqueIds(Close(vs, id, at) + [v])
  {
    var next := Close(vs, id, at) + [v];
    forall i, j | 0 <= i < j < |next| ensures next[i].id != next[j].id {
      assert next[i].id == vs[i].id;
    }
  }

  // Closing a version of another policy, or opening one, leaves this policy alone.
  lemma OtherPoliciesUntouched(vs: seq<Version>, previous: Version, v: Version, at: int, p: string)
    requires UniqueIds(vs) && previous in vs && previous.policyId != p && v.policyId != p
    ensures Of(Close(vs, previous.id, at) + [v], p) == Of(vs, p)
  {
    OfConcat(Close(vs, previous.id, at), [v], p);
    OfClose(vs, previous.id, at, p);
    OfMembers(vs, p);
    var mine := Of(vs, p);
    forall i | 0 <= i < |mine| ensures mine[i].id != previous.id {
      if mine[i].id == previous.id {
        assert mine[i] in vs;
        SameIdSameVersion(vs, mine[i], previous);
      }
    }
    assert Close(mine, previous.id, at) == mine;
  }

  // The only open version of a chain is its last one.
  lemma SupersedeExtendsChain(vs: seq<Version>, previous: Version, v: Version, at: int, p: string)
    requires UniqueIds(vs) && Chain(Of(vs, p))
    requires previous in vs && previous.policyId == p && previous.to.None? && (previous.from.Some? ==> previous.from.value < at)
    requires v.policyId == p && v.from == Some(at) && v.to.None? && v.supersedes == Some(previous.id)
    ensures var old' := Of(vs, p); var new' := Of(Close(vs, previous.id, at) + [v], p);
      && Chain(new')
      && previous == old'[|old'| - 1]
      && new' == old'[..|old'| - 1] + [previous.(to := Some(at)), v]
  {
    OfConcat(Close(vs, previous.id, at), [v], p);
    OfClose(vs, previous.id, at, p);
    OfMembers(vs, p);
    OfUnique(vs, p);
    assert Of([v], p) == [v];
    ExtendChain(Of(vs, p), previous, v, at);
  }

  lemma ExtendChain(vs: seq<Version>, previous: Version, v: Version, at: int)
    requires UniqueIds(vs) && Chain(vs) && previous in vs && previous.to.None? && (previous.from.Some? ==> previous.from.value < at)
    requires v.from == Some(at) && v.to.None? && v.supersedes == Some(previous.id)
    ensures var next := Close(vs, previous.id, at) + [v];
      Chain(next) && previous == vs[|vs| - 1] && next == vs[..|vs| - 1] + [previous.(to := Some(at)), v]
  {
    var n := |vs|;
    var k :| 0 <= k < n && vs[k] == previous;
    assert k == n - 1;
    assert Close(vs, previous.id, at) == vs[..n - 1] + [previous.(to := Some(at))];
  }
}
