// What an approval would store and the table that explains it to the person who reviews it
// (main.py, _merged_payload and _field_changes).
module ReviewMerge {
  import opened Basics
  import opened JsonValues

  // The only fields a draft can speak about.
  const OVERRIDES: seq<string> := ["criteria", "maxAmountKRW", "rateRangePct", "conditionalChecks"]

  // `set(payload.get("not_found") or ())`.
  function NotFound(draft: Dict): set<string> {
    if "not_found" in draft && draft["not_found"].Arr?
    then set x | x in draft["not_found"].items && x.Str? :: x.s
    else {}
  }

  // `payload.get(name) or {}`.
  function DictOf(d: Dict, name: string): Dict {
    if name in d && d[name].Obj? then d[name].fields else map[]
  }

  function Get(d: Dict, name: string): Json {
    if name in d then d[name] else Null
  }

  // `dict(...)` accepts an object and `or {}` replaces null; anything else is not criteria.
  predicate CriteriaShape(d: Dict) {
    "criteria" in d ==> d["criteria"].Obj? || d["criteria"].Null?
  }

  function CriteriaPath(key: string): string { "/criteria/" + key }

  function TopPath(name: string): string { "/" + name }

  predicate Applies(draft: Dict, name: string) {
    name in draft && TopPath(name) !in NotFound(draft)
  }

  function MergedCriteria(previous: Dict, draft: Dict): Dict {
    DictOf(previous, "criteria")
    + map k | k in DictOf(draft, "criteria") && CriteriaPath(k) !in NotFound(draft) :: DictOf(draft, "criteria")[k]
  }

  function OverrideValue(previous: Dict, draft: Dict, name: string): Json
    requires name in draft
  {
    if name == "criteria" then Obj(MergedCriteria(previous, draft)) else draft[name]
  }

  function Overlay(previous: Dict, draft: Dict, names: seq<string>): Dict {
    map n | n in names && Applies(draft, n) :: OverrideValue(previous, draft, n)
  }

  // The merge as one map: everything previous, the policy's own id, and the overridden
  // fields the draft found.
  function Merged(previous: Dict, policyId: string, draft: Dict): Dict {
    previous["id" := Str(policyId)] + Overlay(previous, draft, OVERRIDES)
  }

  // One more name in the overlay is one more assignment to the payload.
  lemma OverlayStep(base: Dict, previous: Dict, draft: Dict, names: seq<string>, n: string)
    ensures base + Overlay(previous, draft, names + [n])
      == if Applies(draft, n)
         then (base + Overlay(previous, draft, names))[n := OverrideValue(previous, draft, n)]
         else base + Overlay(previous, draft, names)
  {
    assert Overlay(previous, draft, names + [n])
      == if Applies(draft, n) then Overlay(previous, draft, names)[n := OverrideValue(previous, draft, n)] else Overlay(previous, draft, names);
  }

  method MergeCriteria(before: Dict, said: Dict, notFound: set<string>) returns (merged: Dict)
    ensures merged == before + map k | k in said && CriteriaPath(k) !in notFound :: said[k]
  {
    merged := before;
    var todo := said.Keys;
    while todo != {}
      invariant todo <= said.Keys
      invariant merged == before + map k | k in said.Keys - todo && CriteriaPath(k) !in notFound :: said[k]
      decreases todo
    {
      var key :| key in todo;
      todo := todo - {key};
      if CriteriaPath(key) !in notFound {
        merged := merged[key := said[key]];
      }
    }
  }

  lemma OnlyFirstIsCriteria()
    ensures forall i | 0 < i < |OVERRIDES| :: OVERRIDES[i] != "criteria"
  {
    assert |OVERRIDES[1]| == 12 && |OVERRIDES[2]| == 12 && |OVERRIDES[3]| == 17 && |"criteria"| == 8;
  }

  method MergedPayload(previous: Option<Dict>, policyId: string, draft: Dict) returns (payload: Dict)
    requires previous.Some? ==> CriteriaShape(previous.value)
    requires CriteriaShape(draft)
    ensures payload == Merged(if previous.Some? then previous.value else map[], policyId, draft)
  {
    var before: Dict := if previous.Some? then previous.value else map[];
    payload := before["id" := Str(policyId)];
    payload := ApplyOverrides(payload, before, draft, OVERRIDES) by { OnlyFirstIsCriteria(); }
  }

  method ApplyOverrides(base: Dict, before: Dict, draft: Dict, names: seq<string>) returns (payload: Dict)
    requires DictOf(base, "criteria") == DictOf(before, "criteria")
    requires forall i | 0 < i < |names| :: names[i] != "criteria"
    ensures payload == base + Overlay(before, draft, names)
  {
    payload := base;
    var notFound := NotFound(draft);
    for i := 0 to |names|
      invariant payload == base + Overlay(before, draft, names[..i])
    {
      var name := names[i];
      OverlayStep(base, before, draft, names[..i], name);
      assert names[..i + 1] == names[..i] + [name];
      if name in draft && TopPath(name) !in notFound {
        if name != "criteria" {
          payload := payload[name := draft[name]];
        } else {
          assert payload == base;
          var merged := MergeCriteria(DictOf(payload, "criteria"), DictOf(draft, "criteria"), notFound);
          payload := payload["criteria" := Obj(merged)];
        }
      }
    }
    assert names[..|names|] == names;
  }

  // Presence and value at one key are carried over.
  predicate KeepsAt(before: Dict, after: Dict, key: string) {
    (key in after <==> key in before) && Get(after, key) == Get(before, key)
  }

  // A previous criteria key never disappears, and a value changes only to what the draft
  // said about a key it found.
  lemma CriteriaSurvive(previous: Dict, policyId: string, draft: Dict, key: string)
    ensures key in DictOf(previous, "criteria") ==> key in DictOf(Merged(previous, policyId, draft), "criteria")
    ensures Applies(draft, "criteria") && key in DictOf(draft, "criteria") && CriteriaPath(key) !in NotFound(draft) ==>
      Get(DictOf(Merged(previous, policyId, draft), "criteria"), key) == DictOf(draft, "criteria")[key]
    ensures !(Applies(draft, "criteria") && key in DictOf(draft, "criteria") && CriteriaPath(key) !in NotFound(draft)) ==>
      KeepsAt(DictOf(previous, "criteria"), DictOf(Merged(previous, policyId, draft), "criteria"), key)
  {
    assert "criteria" in OVERRIDES by { assert OVERRIDES[0] == "criteria"; }
  }

  // A field the draft reported as not found, or did not mention, keeps its previous value
  // and its previous absence; one it did report is taken over whole.
  lemma TopLevelMerge(previous: Dict, policyId: string, draft: Dict, name: string)
    requires name != "id" && name != "criteria"
    ensures name in OVERRIDES && Applies(draft, name) ==>
      name in Merged(previous, policyId, draft) && Merged(previous, policyId, draft)[name] == draft[name]
    ensures !(name in OVERRIDES && Applies(draft, name)) ==> KeepsAt(previous, Merged(previous, policyId, draft), name)
  {
  }

  // Approving the same draft over its own result changes nothing.
  lemma MergeIdempotent(previous: Dict, policyId: string, draft: Dict)
    ensures Merged(Merged(previous, policyId, draft), policyId, draft) == Merged(previous, policyId, draft)
  {
    var once := Merged(previous, policyId, draft);
    if Applies(draft, "criteria") {
      assert OVERRIDES[0] == "criteria";
      assert DictOf(once, "criteria") == MergedCriteria(previous, draft);
      assert MergedCriteria(once, draft) == MergedCriteria(previous, draft);
    }
    assert once["id" := Str(policyId)] == once by { assert "id" !in OVERRIDES; }
  }

  // ---- The table ---------------------------------------------------------------------

  datatype Said = SaidValue | ExplicitNull | SaidNotFound | Silent | NotApplicable

  datatype Mode = KeyMerge | ReplaceWhole | InheritOnly

  datatype Row = Row(mode: Mode, key: string, said: Said, changed: bool,
                     before: Json, beforePresent: bool, after: Json, afterPresent: bool, wipes: bool)
  {
    function Path(): string { if mode == KeyMerge then CriteriaPath(key) else TopPath(key) }
  }

  // Python's `!=` together with presence.
  predicate Differs(before: Dict, after: Dict, key: string) {
    (key in before) != (key in after) || !Same(Get(before, key), Get(after, key))
  }

  function MakeRow(mode: Mode, key: string, said: Said, before: Dict, after: Dict): Row {
    Row(mode, key, said, Differs(before, after, key),
        Get(before, key), key in before, Get(after, key), key in after,
        mode == ReplaceWhole && said == SaidValue
          && Get(before, key).Arr? && Get(after, key).Arr? && Get(before, key).items != [] && Get(after, key).items == [])
  }

  function CriteriaSaid(draft: Dict, key: string): Said {
    if key !in DictOf(draft, "criteria") then Silent
    else if CriteriaPath(key) in NotFound(draft) || TopPath("criteria") in NotFound(draft) then SaidNotFound
    else if DictOf(draft, "criteria")[key].Null? then ExplicitNull
    else SaidValue
  }

  function WholeSaid(draft: Dict, name: string): Said {
    if name !in draft then Silent
    else if TopPath(name) in NotFound(draft) then SaidNotFound
    else if draft[name].Null? then ExplicitNull
    else SaidValue
  }

  function CriteriaKeys(previous: Dict, draft: Dict, merged: Dict): seq<string> {
    SortedSeq(DictOf(previous, "criteria").Keys + DictOf(draft, "criteria").Keys + DictOf(merged, "criteria").Keys)
  }

  function DisplayKeys(previous: Dict, merged: Dict): seq<string> {
    SortedSeq(set n | n in merged.Keys + previous.Keys && n !in OVERRIDES && n != "id")
  }

  function RowFor(mode: Mode, previous: Dict, draft: Dict, merged: Dict, key: string): Row {
    match mode
    case KeyMerge => MakeRow(KeyMerge, key, CriteriaSaid(draft, key), DictOf(previous, "criteria"), DictOf(merged, "criteria"))
    case ReplaceWhole => MakeRow(ReplaceWhole, key, WholeSaid(draft, key), previous, merged)
    case InheritOnly => MakeRow(InheritOnly, key, NotApplicable, previous, merged)
  }

  function RowsFor(mode: Mode, previous: Dict, draft: Dict, merged: Dict, keys: seq<string>): (rows: seq<Row>)
    ensures |rows| == |keys|
    ensures forall i | 0 <= i < |keys| :: rows[i] == RowFor(mode, previous, draft, merged, keys[i])
  {
    if keys == [] then []
    else RowsFor(mode, previous, draft, merged, keys[..|keys| - 1]) + [RowFor(mode, previous, draft, merged, keys[|keys| - 1])]
  }

  const WHOLE: seq<string> := ["maxAmountKRW", "rateRangePct", "conditionalChecks"]

  function Table(previous: Dict, draft: Dict, merged: Dict, criteriaKeys: seq<string>, displayKeys: seq<string>): seq<Row> {
    RowsFor(KeyMerge, previous, draft, merged, criteriaKeys)
    + RowsFor(ReplaceWhole, previous, draft, merged, WHOLE)
    + RowsFor(InheritOnly, previous, draft, merged, displayKeys)
  }

  function FieldRows(previous: Dict, draft: Dict, merged: Dict): seq<Row> {
    Table(previous, draft, merged, CriteriaKeys(previous, draft, merged), DisplayKeys(previous, merged))
  }

  method AppendRows(fields: seq<Row>, mode: Mode, previous: Dict, draft: Dict, merged: Dict, keys: seq<string>) returns (r: seq<Row>)
    ensures r == fields + RowsFor(mode, previous, draft, merged, keys)
  {
    r := fields;
    for i := 0 to |keys|
      invariant r == fields + RowsFor(mode, previous, draft, merged, keys[..i])
    {
      assert keys[..i + 1][..i] == keys[..i];
      r := r + [RowFor(mode, previous, draft, merged, keys[i])];
    }
    assert keys[..|keys|] == keys;
  }

  method FieldChanges(previous: Dict, draft: Dict, merged: Dict) returns (fields: seq<Row>)
    requires CriteriaShape(previous) && CriteriaShape(draft) && CriteriaShape(merged)
    ensures fields == FieldRows(previous, draft, merged)
  {
    var ck, dk := CriteriaKeys(previous, draft, merged), DisplayKeys(previous, merged);
    fields := AppendRows([], KeyMerge, previous, draft, merged, ck);
    assert fields == RowsFor(KeyMerge, previous, draft, merged, ck);
    fields := AppendRows(fields, ReplaceWhole, previous, draft, merged, WHOLE);
    fields := AppendRows(fields, InheritOnly, previous, draft, merged, dk);
  }

  lemma RowsForMember(mode: Mode, previous: Dict, draft: Dict, merged: Dict, keys: seq<string>, row: Row)
    ensures row in RowsFor(mode, previous, draft, merged, keys) <==> row.key in keys && row == RowFor(mode, previous, draft, merged, row.key)
  {
    var rows := RowsFor(mode, previous, draft, merged, keys);
    if row.key in keys && row == RowFor(mode, previous, draft, merged, row.key) {
      var i :| 0 <= i < |keys| && keys[i] == row.key;
      assert rows[i] == row;
    }
  }

  ghost predicate HasKey(mode: Mode, previous: Dict, draft: Dict, merged: Dict, key: string) {
    match mode
    case KeyMerge => key in DictOf(previous, "criteria") || key in DictOf(draft, "criteria") || key in DictOf(merged, "criteria")
    case ReplaceWhole => key in WHOLE
    case InheritOnly => (key in merged || key in previous) && key !in OVERRIDES && key != "id"
  }

  // The rows by what they are about, independent of their position.
  lemma RowsByKey(previous: Dict, draft: Dict, merged: Dict, row: Row)
    ensures row in FieldRows(previous, draft, merged)
      <==> HasKey(row.mode, previous, draft, merged, row.key) && row == RowFor(row.mode, previous, draft, merged, row.key)
  {
    var ck, dk := CriteriaKeys(previous, draft, merged), DisplayKeys(previous, merged);
    RowsForMember(KeyMerge, previous, draft, merged, ck, row);
    RowsForMember(ReplaceWhole, previous, draft, merged, WHOLE, row);
    RowsForMember(InheritOnly, previous, draft, merged, dk, row);
  }

  lemma OverrideNames(key: string)
    ensures key in OVERRIDES <==> key == "criteria" || key in WHOLE
    ensures key in WHOLE ==> key != "criteria" && key != "id"
  {
    assert OVERRIDES == ["criteria"] + WHOLE;
    if key in WHOLE { assert |key| == 12 || |key| == 17; }
  }

  // Two positions never talk about the same thing.
  lemma RowsAreUnique(previous: Dict, draft: Dict, merged: Dict, i: nat, j: nat)
    requires i < j < |FieldRows(previous, draft, merged)|
    ensures var rows := FieldRows(previous, draft, merged);
      (rows[i].mode == KeyMerge) != (rows[j].mode == KeyMerge) || rows[i].key != rows[j].key
  {
    var ck, dk := CriteriaKeys(previous, draft, merged), DisplayKeys(previous, merged);
    UniqueIn(previous, draft, merged, ck, dk, i, j);
  }

  lemma UniqueIn(previous: Dict, draft: Dict, merged: Dict, ck: seq<string>, dk: seq<string>, i: nat, j: nat)
    requires forall a, b | 0 <= a < b < |ck| :: ck[a] != ck[b]
    requires forall a, b | 0 <= a < b < |dk| :: dk[a] != dk[b]
    requires forall k | k in dk :: k !in OVERRIDES
    requires i < j < |Table(previous, draft, merged, ck, dk)|
    ensures var rows := Table(previous, draft, merged, ck, dk);
      (rows[i].mode == KeyMerge) != (rows[j].mode == KeyMerge) || rows[i].key != rows[j].key
  {
    var rows := Table(previous, draft, merged, ck, dk);
    var m, n := |ck|, |ck| + |WHOLE|;
    if m <= i < n {
      OverrideNames(WHOLE[i - m]);
      assert rows[i].key == WHOLE[i - m];
      if j < n {
        assert rows[j].key == WHOLE[j - m];
        assert WHOLE[0][0] == 'm' && WHOLE[1][0] == 'r' && WHOLE[2][0] == 'c';
      } else {
        assert rows[j].key == dk[j - n];
        assert rows[j].key in dk;
      }
    }
  }

  // The kind of row that speaks of a key.
  function ModeOf(criteria: bool, key: string): Mode {
    if criteria then KeyMerge else if key in WHOLE then ReplaceWhole else InheritOnly
  }

  lemma DifferenceHasRow(previous: Dict, draft: Dict, merged: Dict, criteria: bool, key: string) returns (row: Row)
    requires !criteria ==> key != "id" && key != "criteria"
    requires if criteria then Differs(DictOf(previous, "criteria"), DictOf(merged, "criteria"), key) else Differs(previous, merged, key)
    ensures row in FieldRows(previous, draft, merged) && (row.mode == KeyMerge) == criteria && row.key == key && row.changed
  {
    OverrideNames(key);
    SameReflexive(Null);
    row := RowFor(ModeOf(criteria, key), previous, draft, merged, key);
    RowsByKey(previous, draft, merged, row);
  }

  // The row at this position is the only one that speaks of its key, and it is marked.
  ghost predicate OnlyMarkedRow(rows: seq<Row>, criteria: bool, key: string, i: int) {
    && 0 <= i < |rows| && (rows[i].mode == KeyMerge) == criteria && rows[i].key == key && rows[i].changed
    && forall j | 0 <= j < |rows| && (rows[j].mode == KeyMerge) == criteria && rows[j].key == key :: j == i
  }

  lemma PositionOf(rows: seq<Row>, row: Row) returns (i: nat)
    requires row in rows
    ensures i < |rows| && rows[i] == row
  {
    i :| i < |rows| && rows[i] == row;
  }

  // Wherever the stored rule would differ from the previous one, exactly one row says so: for
  // every single criterion, and for every field beside the id and the criteria as a whole.
  lemma EveryDifferenceHasOneRow(previous: Dict, policyId: string, draft: Dict, criteria: bool, key: string)
    requires !criteria ==> key != "id" && key != "criteria"
    requires var merged := Merged(previous, policyId, draft);
      if criteria then Differs(DictOf(previous, "criteria"), DictOf(merged, "criteria"), key) else Differs(previous, merged, key)
    ensures exists i :: OnlyMarkedRow(FieldRows(previous, draft, Merged(previous, policyId, draft)), criteria, key, i)
  {
    var merged := Merged(previous, policyId, draft);
    var rows := FieldRows(previous, draft, merged);
    var row := DifferenceHasRow(previous, draft, merged, criteria, key);
    var i := PositionOf(rows, row);
    OnlyRowOfKey(previous, draft, merged, i);
    assert OnlyMarkedRow(rows, criteria, key, i);
  }

  lemma OnlyRowOfKey(previous: Dict, draft: Dict, merged: Dict, i: nat)
    requires i < |FieldRows(previous, draft, merged)|
    ensures var rows := FieldRows(previous, draft, merged);
      forall j | 0 <= j < |rows| && (rows[j].mode == KeyMerge) == (rows[i].mode == KeyMerge) && rows[j].key == rows[i].key :: j == i
  {
    var rows := FieldRows(previous, draft, merged);
    forall j | 0 <= j < |rows| && (rows[j].mode == KeyMerge) == (rows[i].mode == KeyMerge) && rows[j].key == rows[i].key ensures j == i {
      if i < j { RowsAreUnique(previous, draft, merged, i, j); }
      if j < i { RowsAreUnique(previous, draft, merged, j, i); }
    }
  }

  // A row is marked changed only when the draft actually said something, and when it said
  // something the row shows precisely that.
  lemma ChangedMeansSaid(previous: Dict, policyId: string, draft: Dict, row: Row)
    requires row in FieldRows(previous, draft, Merged(previous, policyId, draft))
    ensures row.changed ==> row.said == SaidValue || row.said == ExplicitNull
    ensures row.said == SaidValue || row.said == ExplicitNull ==>
      row.afterPresent && row.after == Get(if row.mode == KeyMerge then DictOf(draft, "criteria") else draft, row.key)
    ensures row.said != SaidValue && row.said != ExplicitNull ==>
      row.after == row.before && row.afterPresent == row.beforePresent
  {
    var merged := Merged(previous, policyId, draft);
    RowsByKey(previous, draft, merged, row);
    SameReflexive(row.before);
    OverrideNames(row.key);
    if row.mode == KeyMerge {
      CriteriaSurvive(previous, policyId, draft, row.key);
    } else {
      TopLevelMerge(previous, policyId, draft, row.key);
    }
  }

  // Reading the stored rule back out of the table.
  function Rebuild(rows: seq<Row>, criteria: bool): Dict {
    if rows == [] then map[] else
      var rest := Rebuild(rows[1..], criteria);
      if (rows[0].mode == KeyMerge) == criteria && rows[0].afterPresent then rest[rows[0].key := rows[0].after] else rest
  }

  lemma {:induction false} RebuildAgrees(rows: seq<Row>, criteria: bool, d: Dict)
    requires forall r | r in rows && (r.mode == KeyMerge) == criteria :: r.afterPresent == (r.key in d) && r.after == Get(d, r.key)
    ensures forall k | k in Rebuild(rows, criteria) :: k in d && Rebuild(rows, criteria)[k] == d[k]
    ensures forall r | r in rows && (r.mode == KeyMerge) == criteria && r.key in d :: r.key in Rebuild(rows, criteria)
  {
    if rows != [] {
      assert rows[0] in rows;
      assert rows == [rows[0]] + rows[1..];
      RebuildAgrees(rows[1..], criteria, d);
    }
  }

  // Every row shows the stored value at its key, and no row speaks of the id.
  lemma RowsShowMerged(previous: Dict, draft: Dict, merged: Dict, r: Row)
    requires r in FieldRows(previous, draft, merged)
    ensures r.mode == KeyMerge ==> r.afterPresent == (r.key in DictOf(merged, "criteria")) && r.after == Get(DictOf(merged, "criteria"), r.key)
    ensures r.mode != KeyMerge ==> r.key != "id" && r.key != "criteria" && r.afterPresent == (r.key in merged) && r.after == Get(merged, r.key)
  {
    RowsByKey(previous, draft, merged, r);
    OverrideNames(r.key);
    OverrideNames("criteria");
  }

  lemma StoredHasRow(previous: Dict, draft: Dict, merged: Dict, criteria: bool, k: string)
    requires if criteria then k in DictOf(merged, "criteria") else k in merged && k != "id" && k != "criteria"
    ensures exists r :: r in FieldRows(previous, draft, merged) && (r.mode == KeyMerge) == criteria && r.key == k
  {
    OverrideNames(k);
    var mode := if criteria then KeyMerge else if k in WHOLE then ReplaceWhole else InheritOnly;
    RowsByKey(previous, draft, merged, RowFor(mode, previous, draft, merged, k));
  }

  // ---- The criteria as a whole -----------------------------------------------------------

  // Some criterion is shown as changed.
  ghost predicate CriterionMarked(rows: seq<Row>) {
    exists r :: r in rows && r.mode == KeyMerge && r.changed
  }

  ghost predicate CriterionDiffers(previous: Dict, merged: Dict) {
    exists key :: Differs(DictOf(previous, "criteria"), DictOf(merged, "criteria"), key)
  }

  lemma MarkedIffDiffers(previous: Dict, draft: Dict, merged: Dict)
    ensures CriterionMarked(FieldRows(previous, draft, merged)) <==> CriterionDiffers(previous, merged)
  {
    var rows := FieldRows(previous, draft, merged);
    if r :| r in rows && r.mode == KeyMerge && r.changed {
      RowsByKey(previous, draft, merged, r);
    }
    if key :| Differs(DictOf(previous, "criteria"), DictOf(merged, "criteria"), key) {
      var row := DifferenceHasRow(previous, draft, merged, true, key);
    }
  }

  // The draft speaks of criteria and found none of them.
  ghost predicate FoundNoCriterion(draft: Dict) {
    forall key | key in DictOf(draft, "criteria") :: CriteriaPath(key) in NotFound(draft)
  }

  lemma CriteriaOfMerged(previous: Dict, policyId: string, draft: Dict)
    ensures Applies(draft, "criteria") ==>
      "criteria" in Merged(previous, policyId, draft) && Merged(previous, policyId, draft)["criteria"] == Obj(MergedCriteria(previous, draft))
    ensures !Applies(draft, "criteria") ==> KeepsAt(previous, Merged(previous, policyId, draft), "criteria")
  {
    assert OVERRIDES[0] == "criteria";
    assert "criteria" in OVERRIDES;
  }

  lemma SameFields(a: Dict, b: Dict)
    requires forall key :: !Differs(a, b, key)
    ensures Same(Obj(a), Obj(b))
  {
    forall key ensures key in a <==> key in b { assert !Differs(a, b, key); }
    forall key | key in a ensures Same(a[key], b[key]) { assert !Differs(a, b, key); }
  }

  lemma NothingFoundNothingMerged(previous: Dict, draft: Dict)
    requires DictOf(previous, "criteria") == map[]
    ensures FoundNoCriterion(draft) <==> MergedCriteria(previous, draft) == map[]
    ensures (forall key :: !Differs(DictOf(previous, "criteria"), MergedCriteria(previous, draft), key)) <==> MergedCriteria(previous, draft) == map[]
  {
    var merged := MergedCriteria(previous, draft);
    if key :| key in DictOf(draft, "criteria") && CriteriaPath(key) !in NotFound(draft) { assert key in merged; }
    if key :| key in merged { assert Differs(DictOf(previous, "criteria"), merged, key); }
    SameReflexive(Null);
  }

  // The stored criteria differ as a whole while no criterion is marked.
  ghost predicate AppearsUnmarked(previous: Dict, merged: Dict) {
    Differs(previous, merged, "criteria") && !CriterionDiffers(previous, merged)
  }

  lemma KeptIsNoDifference(previous: Dict, merged: Dict)
    requires KeepsAt(previous, merged, "criteria")
    ensures !AppearsUnmarked(previous, merged)
  {
    SameReflexive(Get(previous, "criteria"));
  }

  lemma ObjectsDifferInside(previous: Dict, merged: Dict)
    requires Get(previous, "criteria").Obj? && Get(merged, "criteria").Obj?
    ensures !AppearsUnmarked(previous, merged)
  {
    if !CriterionDiffers(previous, merged) { SameFields(DictOf(previous, "criteria"), DictOf(merged, "criteria")); }
  }

  lemma NewObjectAppears(previous: Dict, draft: Dict, merged: Dict)
    requires !Get(previous, "criteria").Obj? && "criteria" in merged && merged["criteria"] == Obj(MergedCriteria(previous, draft))
    ensures AppearsUnmarked(previous, merged) <==> FoundNoCriterion(draft)
  {
    assert DictOf(previous, "criteria") == map[];
    assert DictOf(merged, "criteria") == MergedCriteria(previous, draft);
    assert !Same(Get(previous, "criteria"), merged["criteria"]);
    NothingFoundNothingMerged(previous, draft);
  }

  // The one difference the table does not show: the stored criteria differ as a whole while no
  // criterion is marked exactly when the draft's criteria apply, there were none to merge them
  // into, and the draft found none. An empty object then appears where nothing was.
  lemma CriteriaAppearUnmarked(previous: Dict, policyId: string, draft: Dict)
    ensures var merged := Merged(previous, policyId, draft);
      Differs(previous, merged, "criteria") && !CriterionMarked(FieldRows(previous, draft, merged))
      <==> Applies(draft, "criteria") && !Get(previous, "criteria").Obj? && FoundNoCriterion(draft)
  {
    var merged := Merged(previous, policyId, draft);
    MarkedIffDiffers(previous, draft, merged);
    CriteriaOfMerged(previous, policyId, draft);
    if !Applies(draft, "criteria") {
      KeptIsNoDifference(previous, merged);
    } else if Get(previous, "criteria").Obj? {
      ObjectsDifferInside(previous, merged);
    } else {
      NewObjectAppears(previous, draft, merged);
    }
  }

  const BLANK_DRAFT: Dict := map["criteria" := Obj(map["ageMin" := Null]), "not_found" := Arr([Str("/criteria/ageMin")])]

  lemma BlankDraftSays()
    ensures NotFound(BLANK_DRAFT) == {"/criteria/ageMin"} && DictOf(BLANK_DRAFT, "criteria").Keys == {"ageMin"}
    ensures Applies(BLANK_DRAFT, "criteria") && FoundNoCriterion(BLANK_DRAFT)
  {
    assert "not_found"[0] != "criteria"[0];
    var items := [Str("/criteria/ageMin")];
    assert BLANK_DRAFT["not_found"] == Arr(items) && BLANK_DRAFT["criteria"] == Obj(map["ageMin" := Null]);
    assert items[0] in items;
    assert NotFound(BLANK_DRAFT) == {"/criteria/ageMin"};
    assert CriteriaPath("ageMin") == "/criteria/ageMin";
    assert |TopPath("criteria")| == 9 && |"/criteria/ageMin"| == 16;
  }

  // It happens on the first version of a policy whose notice named none of the criteria.
  lemma CriteriaAppearUnmarkedExample(policyId: string)
    ensures var merged := Merged(map[], policyId, BLANK_DRAFT);
      Differs(map[], merged, "criteria") && !CriterionMarked(FieldRows(map[], BLANK_DRAFT, merged))
  {
    BlankDraftSays();
    CriteriaAppearUnmarked(map[], policyId, BLANK_DRAFT);
  }

  // The table carries every criterion and every field of the merged rule beside its id.
  lemma RowsRebuildMerged(previous: Dict, draft: Dict, merged: Dict)
    ensures Rebuild(FieldRows(previous, draft, merged), true) == DictOf(merged, "criteria")
    ensures Rebuild(FieldRows(previous, draft, merged), false) == merged - {"id", "criteria"}
  {
    RebuildPart(previous, draft, merged, true, DictOf(merged, "criteria"));
    RebuildPart(previous, draft, merged, false, merged - {"id", "criteria"});
  }

  lemma RebuildPart(previous: Dict, draft: Dict, merged: Dict, criteria: bool, d: Dict)
    requires d == if criteria then DictOf(merged, "criteria") else merged - {"id", "criteria"}
    ensures Rebuild(FieldRows(previous, draft, merged), criteria) == d
  {
    var rows := FieldRows(previous, draft, merged);
    forall r | r in rows && (r.mode == KeyMerge) == criteria ensures r.afterPresent == (r.key in d) && r.after == Get(d, r.key) {
      RowsShowMerged(previous, draft, merged, r);
    }
    forall k | k in d ensures exists r :: r in rows && (r.mode == KeyMerge) == criteria && r.key == k {
      StoredHasRow(previous, draft, merged, criteria, k);
    }
    RebuildExact(rows, criteria, d);
  }

  lemma RebuildExact(rows: seq<Row>, criteria: bool, d: Dict)
    requires forall r | r in rows && (r.mode == KeyMerge) == criteria :: r.afterPresent == (r.key in d) && r.after == Get(d, r.key)
    requires forall k | k in d :: exists r :: r in rows && (r.mode == KeyMerge) == criteria && r.key == k
    ensures Rebuild(rows, criteria) == d
  {
    RebuildAgrees(rows, criteria, d);
  }

  lemma {:induction false} SameRows(mode: Mode, previous: Dict, draft: Dict, a: Dict, b: Dict, keys: seq<string>)
    requires DictOf(a, "criteria") == DictOf(b, "criteria") && a - {"id", "criteria"} == b - {"id", "criteria"}
    requires mode != KeyMerge ==> forall k | k in keys :: k != "id" && k != "criteria"
    ensures RowsFor(mode, previous, draft, a, keys) == RowsFor(mode, previous, draft, b, keys)
  {
    forall i | 0 <= i < |keys| ensures RowFor(mode, previous, draft, a, keys[i]) == RowFor(mode, previous, draft, b, keys[i]) {
      assert keys[i] in keys;
      SameAway(a, b, keys[i]);
    }
  }

  lemma SameAway(a: Dict, b: Dict, key: string)
    requires a - {"id", "criteria"} == b - {"id", "criteria"}
    ensures key != "id" && key != "criteria" ==> KeepsAt(a, b, key)
  {
    var x, y := a - {"id", "criteria"}, b - {"id", "criteria"};
    if key != "id" && key != "criteria" {
      assert (key in x <==> key in a) && (key in y <==> key in b);
      assert key in a ==> x[key] == a[key] && y[key] == b[key];
    }
  }

  lemma SameDisplay(previous: Dict, a: Dict, b: Dict)
    requires a - {"id", "criteria"} == b - {"id", "criteria"}
    ensures DisplayKeys(previous, a) == DisplayKeys(previous, b)
    ensures forall k | k in DisplayKeys(previous, a) :: k != "id" && k != "criteria"
  {
    OverrideNames("criteria");
    forall k | k != "id" && k != "criteria" ensures k in a <==> k in b { SameAway(a, b, k); }
    assert (set n | n in a.Keys + previous.Keys && n !in OVERRIDES && n != "id") == (set n | n in b.Keys + previous.Keys && n !in OVERRIDES && n != "id");
  }

  // What the table determines of a stored rule, and all it determines: the single criteria and
  // the other fields. A rule without criteria, with null for them and with an empty object look
  // the same.
  lemma RowsDetermine(previous: Dict, draft: Dict, a: Dict, b: Dict)
    ensures FieldRows(previous, draft, a) == FieldRows(previous, draft, b)
      <==> DictOf(a, "criteria") == DictOf(b, "criteria") && a - {"id", "criteria"} == b - {"id", "criteria"}
  {
    RowsRebuildMerged(previous, draft, a);
    RowsRebuildMerged(previous, draft, b);
    if DictOf(a, "criteria") == DictOf(b, "criteria") && a - {"id", "criteria"} == b - {"id", "criteria"} {
      SameDisplay(previous, a, b);
      forall k | k in WHOLE ensures k != "id" && k != "criteria" { OverrideNames(k); }
      SameRows(KeyMerge, previous, draft, a, b, CriteriaKeys(previous, draft, a));
      SameRows(ReplaceWhole, previous, draft, a, b, WHOLE);
      SameRows(InheritOnly, previous, draft, a, b, DisplayKeys(previous, a));
    }
  }

  // What stands under "criteria" in the stored rule, given the criteria the table shows.
  function CriteriaEntry(previous: Dict, draft: Dict, shown: Dict): Dict {
    if Applies(draft, "criteria") then map["criteria" := Obj(shown)]
    else if "criteria" in previous then map["criteria" := previous["criteria"]]
    else map[]
  }

  // With the draft and the previous rule beside it, the table rebuilds the stored rule whole.
  lemma RowsRebuildStored(previous: Dict, policyId: string, draft: Dict)
    ensures var merged := Merged(previous, policyId, draft);
      var rows := FieldRows(previous, draft, merged);
      merged == Rebuild(rows, false) + CriteriaEntry(previous, draft, Rebuild(rows, true)) + map["id" := Str(policyId)]
  {
    var merged := Merged(previous, policyId, draft);
    RowsRebuildMerged(previous, draft, merged);
    CriteriaOfMerged(previous, policyId, draft);
    IdOfMerged(previous, policyId, draft);
    PutTogether(merged, CriteriaEntry(previous, draft, DictOf(merged, "criteria")), policyId);
  }

  lemma IdOfMerged(previous: Dict, policyId: string, draft: Dict)
    ensures "id" in Merged(previous, policyId, draft) && Merged(previous, policyId, draft)["id"] == Str(policyId)
  {
    assert forall i | 0 <= i < |OVERRIDES| :: |OVERRIDES[i]| != 2;
    assert "id" !in OVERRIDES;
  }

  lemma PutTogether(merged: Dict, entry: Dict, policyId: string)
    requires "id" in merged && merged["id"] == Str(policyId)
    requires entry == if "criteria" in merged then map["criteria" := merged["criteria"]] else map[]
    ensures merged == (merged - {"id", "criteria"}) + entry + map["id" := Str(policyId)]
  {
  }

  // ---- The merge, in terms of the documents themselves --------------------------------------

  function CriterionIn(d: Dict, key: string): Option<Json> { Lookup(Obj(d), [Key("criteria"), Key(key)]) }

  function FieldIn(d: Dict, name: string): Option<Json> { Lookup(Obj(d), [Key(name)]) }

  // The draft lists this pointer as not found.
  ghost predicate Listed(draft: Dict, pointer: string) {
    exists items :: FieldIn(draft, "not_found") == Some(Arr(items)) && Str(pointer) in items
  }

  lemma FieldIs(d: Dict, name: string)
    ensures FieldIn(d, name) == if name in d then Some(d[name]) else None
  {
    if name in d {
      assert [Key(name)][1..] == [];
      assert Lookup(d[name], []) == Some(d[name]);
      assert Child(Obj(d), Key(name)) == d[name];
    }
  }

  lemma CriterionIs(d: Dict, key: string)
    ensures CriterionIn(d, key) == if key in DictOf(d, "criteria") then Some(DictOf(d, "criteria")[key]) else None
  {
    var path := [Key("criteria"), Key(key)];
    assert path[1..] == [Key(key)];
    if "criteria" in d {
      assert Child(Obj(d), Key("criteria")) == d["criteria"];
      assert Lookup(Obj(d), path) == Lookup(d["criteria"], [Key(key)]);
      if d["criteria"].Obj? { FieldIs(d["criteria"].fields, key); }
    }
  }

  lemma ListedIs(draft: Dict, pointer: string)
    ensures pointer in NotFound(draft) <==> Listed(draft, pointer)
  {
    FieldIs(draft, "not_found");
    if "not_found" in draft && draft["not_found"].Arr? {
      var items := draft["not_found"].items;
      if Str(pointer) in items { assert Str(pointer).s == pointer; }
    }
  }

  lemma PointersAre(name: string)
    ensures CriteriaPath(name) == "/criteria/" + name && TopPath(name) == "/" + name && TopPath("criteria") == "/criteria"
  {
    assert "/" + "criteria" == "/criteria";
  }

  // A criterion the draft lists as not found, by its own pointer or with all the others, stays
  // in the stored rule what it was, or absent.
  lemma NotFoundCriterionStays(previous: Dict, policyId: string, draft: Dict, key: string)
    requires Listed(draft, "/criteria/" + key) || Listed(draft, "/criteria")
    ensures CriterionIn(Merged(previous, policyId, draft), key) == CriterionIn(previous, key)
  {
    ListedIs(draft, "/criteria/" + key);
    ListedIs(draft, "/criteria");
    PointersAre(key);
    CriteriaOfMerged(previous, policyId, draft);
    CriterionIs(previous, key);
    CriterionIs(Merged(previous, policyId, draft), key);
  }

  // A field it lists as not found stays what it was, or absent; so does one it cannot speak of.
  lemma NotFoundFieldStays(previous: Dict, policyId: string, draft: Dict, name: string)
    requires name != "id"
    requires Listed(draft, "/" + name) || name !in {"criteria", "maxAmountKRW", "rateRangePct", "conditionalChecks"}
    ensures FieldIn(Merged(previous, policyId, draft), name) == FieldIn(previous, name)
  {
    ListedIs(draft, "/" + name);
    PointersAre(name);
    OverrideNames(name);
    FieldIs(previous, name);
    FieldIs(Merged(previous, policyId, draft), name);
  }

  // What it says and does not list as not found is stored as said: no other pointer blocks it.
  lemma FoundCriterionIsStored(previous: Dict, policyId: string, draft: Dict, key: string)
    requires !Listed(draft, "/criteria/" + key) && !Listed(draft, "/criteria") && CriterionIn(draft, key).Some?
    ensures CriterionIn(Merged(previous, policyId, draft), key) == CriterionIn(draft, key)
  {
    ListedIs(draft, "/criteria/" + key);
    ListedIs(draft, "/criteria");
    PointersAre(key);
    CriteriaOfMerged(previous, policyId, draft);
    CriterionIs(draft, key);
    CriterionIs(Merged(previous, policyId, draft), key);
  }

  lemma FoundFieldIsStored(previous: Dict, policyId: string, draft: Dict, name: string)
    requires !Listed(draft, "/" + name) && name in {"maxAmountKRW", "rateRangePct", "conditionalChecks"} && FieldIn(draft, name).Some?
    ensures FieldIn(Merged(previous, policyId, draft), name) == FieldIn(draft, name)
  {
    ListedIs(draft, "/" + name);
    PointersAre(name);
    WholeNames(name);
    FieldIs(draft, name);
    FieldIs(Merged(previous, policyId, draft), name);
  }

  lemma WholeNames(name: string)
    requires name in {"maxAmountKRW", "rateRangePct", "conditionalChecks"}
    ensures name in OVERRIDES && name in WHOLE && name != "id" && name != "criteria"
  {
    assert OVERRIDES[1] == "maxAmountKRW" && OVERRIDES[2] == "rateRangePct" && OVERRIDES[3] == "conditionalChecks";
    assert WHOLE[0] == "maxAmountKRW" && WHOLE[1] == "rateRangePct" && WHOLE[2] == "conditionalChecks";
    assert |name| == 12 || |name| == 17;
  }

  // What the draft said about a key: nothing, that it was not found, null, or a value.
  ghost predicate SaidAbout(said: Said, value: Option<Json>, listed: bool) {
    match said
    case Silent => value.None?
    case SaidNotFound => value.Some? && listed
    case ExplicitNull => value == Some(Null) && !listed
    case SaidValue => value.Some? && value != Some(Null) && !listed
    case NotApplicable => false
  }

  function OrNull(value: Option<Json>): Json { if value.Some? then value.value else Null }

  // The row shows these two values, is marked exactly when they count, say or hold something
  // different, and warns exactly when a list that held something would be emptied.
  ghost predicate Shows(row: Row, before: Option<Json>, after: Option<Json>) {
    && row.beforePresent == before.Some? && row.before == OrNull(before)
    && row.afterPresent == after.Some? && row.after == OrNull(after)
    && (row.changed <==> before.Some? != after.Some? || Canonical(OrNull(before)) != Canonical(OrNull(after)))
    && (row.wipes <==> row.mode == ReplaceWhole && row.said == SaidValue && after == Some(Arr([])) && HoldsItems(before))
  }

  predicate HoldsItems(value: Option<Json>) { value.Some? && value.value.Arr? && value.value.items != [] }

  lemma CriterionRow(previous: Dict, draft: Dict, merged: Dict, row: Row)
    requires row.mode == KeyMerge && row == RowFor(KeyMerge, previous, draft, merged, row.key)
    ensures SaidAbout(row.said, CriterionIn(draft, row.key), Listed(draft, "/criteria/" + row.key) || Listed(draft, "/criteria"))
    ensures Shows(row, CriterionIn(previous, row.key), CriterionIn(merged, row.key))
  {
    CriterionIs(previous, row.key);
    CriterionIs(draft, row.key);
    CriterionIs(merged, row.key);
    ListedIs(draft, "/criteria/" + row.key);
    ListedIs(draft, "/criteria");
    PointersAre(row.key);
    SameIffCanonical(row.before, row.after);
  }

  lemma FieldRow(previous: Dict, draft: Dict, merged: Dict, row: Row)
    requires row.mode != KeyMerge && row == RowFor(row.mode, previous, draft, merged, row.key)
    ensures row.mode == ReplaceWhole ==> SaidAbout(row.said, FieldIn(draft, row.key), Listed(draft, "/" + row.key))
    ensures row.mode == InheritOnly ==> row.said == NotApplicable
    ensures Shows(row, FieldIn(previous, row.key), FieldIn(merged, row.key))
  {
    FieldIs(previous, row.key);
    FieldIs(draft, row.key);
    FieldIs(merged, row.key);
    ListedIs(draft, "/" + row.key);
    PointersAre(row.key);
    SameIffCanonical(row.before, row.after);
  }

  // Every row of the table quotes both rules and classifies what the draft said, in terms of the
  // three documents alone.
  lemma RowQuotes(previous: Dict, draft: Dict, merged: Dict, row: Row)
    requires row in FieldRows(previous, draft, merged)
    ensures row.mode == KeyMerge ==>
      && SaidAbout(row.said, CriterionIn(draft, row.key), Listed(draft, "/criteria/" + row.key) || Listed(draft, "/criteria"))
      && Shows(row, CriterionIn(previous, row.key), CriterionIn(merged, row.key))
    ensures row.mode == ReplaceWhole ==> SaidAbout(row.said, FieldIn(draft, row.key), Listed(draft, "/" + row.key))
    ensures row.mode == InheritOnly ==> row.said == NotApplicable
    ensures row.mode != KeyMerge ==> Shows(row, FieldIn(previous, row.key), FieldIn(merged, row.key))
  {
    RowsByKey(previous, draft, merged, row);
    if row.mode == KeyMerge { CriterionRow(previous, draft, merged, row); } else { FieldRow(previous, draft, merged, row); }
  }
}
