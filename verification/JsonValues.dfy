// JSON values as the Python side holds them, and the structural difference between two
// verdicts that the review screen shows (main.py, _json_changes).
module JsonValues {
  import opened Basics

  // Numbers are exact: an int and a float are different values to `isinstance`, but
  // Python's `==` compares them, and the booleans, by what they count.
  datatype Json =
    | Null
    | Bool(b: bool)
    | Int(i: int)
    | Float(r: real)
    | Str(s: string)
    | Arr(items: seq<Json>)
    | Obj(fields: map<string, Json>)

  type Dict = map<string, Json>

  function Amount(j: Json): Option<real> {
    match j
    case Bool(b) => Some(if b then 1.0 else 0.0)
    case Int(i) => Some(i as real)
    case Float(r) => Some(r)
    case _ => None
  }

  // Python's `==`.
  predicate Same(a: Json, b: Json)
    decreases a
  {
    match (a, b)
    case (Obj(f), Obj(g)) => f.Keys == g.Keys && forall k | k in f.Keys :: Same(f[k], g[k])
    case (Arr(x), Arr(y)) => |x| == |y| && forall i | 0 <= i < |x| :: Same(x[i], y[i])
    case _ => a == b || (Amount(a).Some? && Amount(a) == Amount(b))
  }

  lemma {:induction false} SameReflexive(a: Json)
    ensures Same(a, a)
    decreases a
  {
    match a {
      case Obj(f) => forall k | k in f.Keys ensures Same(f[k], f[k]) { SameReflexive(f[k]); }
      case Arr(x) => forall i | 0 <= i < |x| ensures Same(x[i], x[i]) { SameReflexive(x[i]); }
      case _ =>
    }
  }

  // One step into a document: a member name or an array position.
  datatype Token = Key(k: string) | At(i: nat)

  type Path = seq<Token>

  datatype Change = Change(path: Path, before: Json, after: Json)

  // Descend while the shape agrees, report the whole value where it stops agreeing.
  function JsonChanges(before: Json, after: Json): set<Change>
    decreases before
  {
    if before.Obj? && after.Obj? && before.fields.Keys == after.fields.Keys then
      set k, c | k in before.fields.Keys && c in JsonChanges(before.fields[k], after.fields[k]) :: c.(path := [Key(k)] + c.path)
    else if before.Arr? && after.Arr? && |before.items| == |after.items| then
      set i, c | 0 <= i < |before.items| && c in JsonChanges(before.items[i], after.items[i]) :: c.(path := [At(i)] + c.path)
    else if Same(before, after) then {}
    else {Change([], before, after)}
  }

  // The tokens under which both values are compared, and the child on one side.
  predicate Shared(a: Json, b: Json, t: Token) {
    match t
    case Key(k) => a.Obj? && b.Obj? && a.fields.Keys == b.fields.Keys && k in a.fields
    case At(i) => a.Arr? && b.Arr? && |a.items| == |b.items| && i < |a.items|
  }

  function Child(a: Json, t: Token): (c: Json)
    requires Shared(a, a, t)
    ensures c < a
  {
    match t
    case Key(k) => a.fields[k]
    case At(i) => a.items[i]
  }

  predicate Descends(a: Json, b: Json) {
    (a.Obj? && b.Obj? && a.fields.Keys == b.fields.Keys) || (a.Arr? && b.Arr? && |a.items| == |b.items|)
  }

  // A change below a shared token is exactly a change between the two children.
  lemma ChangesBeneath(a: Json, b: Json, t: Token, c: Change)
    requires Shared(a, b, t)
    ensures c in JsonChanges(Child(a, t), Child(b, t)) <==> c.(path := [t] + c.path) in JsonChanges(a, b)
  {
    var up := c.(path := [t] + c.path);
    if up in JsonChanges(a, b) {
      match t {
        case Key(_) =>
          var k, d :| k in a.fields.Keys && d in JsonChanges(a.fields[k], b.fields[k]) && up == d.(path := [Key(k)] + d.path);
          assert up.path[0] == Key(k) && up.path[1..] == d.path && up.path[1..] == c.path;
        case At(_) =>
          var i, d :| 0 <= i < |a.items| && d in JsonChanges(a.items[i], b.items[i]) && up == d.(path := [At(i)] + d.path);
          assert up.path[0] == At(i) && up.path[1..] == d.path && up.path[1..] == c.path;
      }
    }
  }

  // Where the two values are compared member by member, every change lies below one of
  // the shared tokens.
  lemma ChangesAreBeneath(a: Json, b: Json, c: Change)
    requires Descends(a, b) && c in JsonChanges(a, b)
    ensures c.path != [] && Shared(a, b, c.path[0])
    ensures c.(path := c.path[1..]) in JsonChanges(Child(a, c.path[0]), Child(b, c.path[0]))
  {
    if a.Obj? {
      var k, d :| k in a.fields.Keys && d in JsonChanges(a.fields[k], b.fields[k]) && c == d.(path := [Key(k)] + d.path);
      assert c.path[1..] == d.path;
    } else {
      var i, d :| 0 <= i < |a.items| && d in JsonChanges(a.items[i], b.items[i]) && c == d.(path := [At(i)] + d.path);
      assert c.path[1..] == d.path;
    }
  }

  // No change is reported exactly when Python calls the two values equal.
  lemma {:induction false} NoChangesIffSame(a: Json, b: Json)
    ensures JsonChanges(a, b) == {} <==> Same(a, b)
    decreases a
  {
    if Descends(a, b) {
      forall t | Shared(a, b, t) ensures JsonChanges(Child(a, t), Child(b, t)) == {} <==> Same(Child(a, t), Child(b, t)) {
        NoChangesIffSame(Child(a, t), Child(b, t));
      }
      if Same(a, b) {
        forall c | c in JsonChanges(a, b) ensures false {
          ChangesAreBeneath(a, b, c);
        }
      } else if a.Obj? {
        var k :| k in a.fields.Keys && !Same(a.fields[k], b.fields[k]);
        ChangeBeneathExists(a, b, Key(k));
      } else {
        var i :| 0 <= i < |a.items| && !Same(a.items[i], b.items[i]);
        ChangeBeneathExists(a, b, At(i));
      }
    }
  }

  lemma ChangeBeneathExists(a: Json, b: Json, t: Token)
    requires Shared(a, b, t)
    requires JsonChanges(Child(a, t), Child(b, t)) != {}
    ensures JsonChanges(a, b) != {}
  {
    var c :| c in JsonChanges(Child(a, t), Child(b, t));
    ChangesBeneath(a, b, t, c);
  }

  // No reported path lies on or below another one.
  lemma {:induction false} PathsArePrefixFree(a: Json, b: Json, c: Change, d: Change)
    requires c in JsonChanges(a, b) && d in JsonChanges(a, b) && c.path <= d.path
    ensures c == d
    decreases a
  {
    if Descends(a, b) {
      ChangesAreBeneath(a, b, c);
      ChangesAreBeneath(a, b, d);
      var t := c.path[0];
      assert d.path[0] == t;
      PathsArePrefixFree(Child(a, t), Child(b, t), c.(path := c.path[1..]), d.(path := d.path[1..]));
      assert c.path == [t] + c.path[1..] && d.path == [t] + d.path[1..];
    }
  }

  // Independent reading of a change list: put `after` where `path` points.
  function Replace(a: Json, path: Path, v: Json): Json
    decreases |path|
  {
    if path == [] then v
    else if !Shared(a, a, path[0]) then a
    else
      var child := Replace(Child(a, path[0]), path[1..], v);
      match path[0]
      case Key(k) => Obj(a.fields[k := child])
      case At(i) => Arr(a.items[i := child])
  }

  function Patch(a: Json, changes: seq<Change>): Json
    decreases |changes|
  {
    if changes == [] then a else Patch(Replace(a, changes[0].path, changes[0].after), changes[1..])
  }

  // The changes below one token, in order, with that token removed.
  function Under(changes: seq<Change>, t: Token): (r: seq<Change>)
    ensures forall c :: c in r <==> c.(path := [t] + c.path) in changes
  {
    if changes == [] then [] else
      var rest := Under(changes[1..], t);
      UnderStep(changes[0], changes[1..], rest, t);
      assert changes == [changes[0]] + changes[1..];
      if Heads(changes[0], t) then [Beheaded(changes[0])] + rest else rest
  }

  predicate Heads(c: Change, t: Token) { c.path != [] && c.path[0] == t }

  function Beheaded(c: Change): Change
    requires c.path != []
  {
    c.(path := c.path[1..])
  }

  lemma BeheadedIff(first: Change, c: Change, t: Token)
    ensures c.(path := [t] + c.path) == first <==> Heads(first, t) && c == Beheaded(first)
  {
    if Heads(first, t) { assert first.path == [t] + first.path[1..]; }
    assert ([t] + c.path)[1..] == c.path;
  }

  lemma UnderStep(first: Change, others: seq<Change>, rest: seq<Change>, t: Token)
    requires forall c :: c in rest <==> c.(path := [t] + c.path) in others
    ensures forall c ::
      c in (if Heads(first, t) then [Beheaded(first)] + rest else rest) <==> c.(path := [t] + c.path) in [first] + others
  {
    forall c ensures c in (if Heads(first, t) then [Beheaded(first)] + rest else rest) <==> c.(path := [t] + c.path) in [first] + others {
      BeheadedIff(first, c, t);
    }
  }

  ghost predicate AllBeneath(a: Json, changes: seq<Change>) {
    forall c | c in changes :: c.path != [] && Shared(a, a, c.path[0])
  }

  // Patching a document is patching each child with the changes below it.
  lemma {:induction false} PatchChildren(a: Json, changes: seq<Change>)
    requires (a.Obj? || a.Arr?) && AllBeneath(a, changes)
    ensures Descends(Patch(a, changes), a)
    ensures forall t | Shared(a, a, t) :: Child(Patch(a, changes), t) == Patch(Child(a, t), Under(changes, t))
    decreases |changes|
  {
    if changes != [] {
      var c := changes[0];
      assert c in changes;
      var next := Replace(a, c.path, c.after);
      assert Descends(next, a);
      PatchChildren(next, changes[1..]);
      forall t | Shared(a, a, t) ensures Child(Patch(a, changes), t) == Patch(Child(a, t), Under(changes, t)) {
        assert Child(Patch(a, changes), t) == Patch(Child(next, t), Under(changes[1..], t));
        if t == c.path[0] {
          assert Under(changes, t) == [c.(path := c.path[1..])] + Under(changes[1..], t);
        } else {
          assert Child(next, t) == Child(a, t);
        }
      }
    }
  }

  ghost predicate Lists(changes: seq<Change>, cs: set<Change>) {
    forall c :: c in changes <==> c in cs
  }

  // Replacing every reported path by its `after`, in any order, turns `before` into `after`.
  lemma {:induction false} PatchYieldsAfter(a: Json, b: Json, changes: seq<Change>)
    requires Lists(changes, JsonChanges(a, b))
    ensures Same(Patch(a, changes), b)
    decreases a
  {
    if Descends(a, b) {
      forall c | c in changes ensures c.path != [] && Shared(a, a, c.path[0]) { ChangesAreBeneath(a, b, c); }
      PatchChildren(a, changes);
      forall t | Shared(a, b, t) ensures Same(Child(Patch(a, changes), t), Child(b, t)) {
        forall c ensures c in Under(changes, t) <==> c in JsonChanges(Child(a, t), Child(b, t)) {
          ChangesBeneath(a, b, t, c);
        }
        PatchYieldsAfter(Child(a, t), Child(b, t), Under(changes, t));
      }
      SameByChildren(Patch(a, changes), b);
    } else if Same(a, b) {
      assert changes == [] || changes[0] in changes;
    } else {
      assert Change([], a, b) in changes;
      PatchWhole(a, b, changes);
      SameReflexive(b);
    }
  }

  lemma SameByChildren(a: Json, b: Json)
    requires Descends(a, b)
    requires forall t | Shared(a, b, t) :: Same(Child(a, t), Child(b, t))
    ensures Same(a, b)
  {
    if a.Obj? {
      forall k | k in a.fields.Keys ensures Same(a.fields[k], b.fields[k]) { assert Shared(a, b, Key(k)); }
    } else {
      forall i | 0 <= i < |a.items| ensures Same(a.items[i], b.items[i]) { assert Shared(a, b, At(i)); }
    }
  }

  lemma {:induction false} PatchWhole(a: Json, b: Json, changes: seq<Change>)
    requires forall c | c in changes :: c.path == [] && c.after == b
    ensures Patch(a, changes) == if changes == [] then a else b
    decreases |changes|
  {
    if changes != [] { assert changes[0] in changes; PatchWhole(b, b, changes[1..]); }
  }

  // The value a path leads to, where it leads anywhere.
  function Lookup(a: Json, path: Path): Option<Json>
    decreases |path|
  {
    if path == [] then Some(a) else if Shared(a, a, path[0]) then Lookup(Child(a, path[0]), path[1..]) else None
  }

  // Every reported change quotes both documents truthfully and is a real difference that
  // could not have been reported further down.
  lemma {:induction false} ChangesAreReal(a: Json, b: Json, c: Change)
    requires c in JsonChanges(a, b)
    ensures Lookup(a, c.path) == Some(c.before) && Lookup(b, c.path) == Some(c.after)
    ensures !Same(c.before, c.after) && !Descends(c.before, c.after)
    decreases a
  {
    if Descends(a, b) {
      ChangesAreBeneath(a, b, c);
      var t := c.path[0];
      ChangesAreReal(Child(a, t), Child(b, t), c.(path := c.path[1..]));
    }
  }

  // ---- What Python's == compares -------------------------------------------------------------

  // A document with its numbers told apart by nothing but what they count.
  datatype Form =
    | NullForm
    | NumberForm(count: real)
    | TextForm(text: string)
    | ListForm(forms: seq<Form>)
    | ObjectForm(members: map<string, Form>)

  function Canonical(j: Json): Form
    decreases j
  {
    match j
    case Null => NullForm
    case Bool(b) => NumberForm(if b then 1.0 else 0.0)
    case Int(i) => NumberForm(i as real)
    case Float(r) => NumberForm(r)
    case Str(s) => TextForm(s)
    case Arr(x) => ListForm(seq(|x|, i requires 0 <= i < |x| => Canonical(x[i])))
    case Obj(f) => ObjectForm(map k | k in f :: Canonical(f[k]))
  }

  lemma {:induction false} SameIffCanonical(a: Json, b: Json)
    ensures Same(a, b) <==> Canonical(a) == Canonical(b)
    decreases a
  {
    match (a, b) {
      case (Obj(f), Obj(g)) =>
        forall k | k in f && k in g ensures Same(f[k], g[k]) <==> Canonical(f[k]) == Canonical(g[k]) { SameIffCanonical(f[k], g[k]); }
        SameMembers(f, g);
      case (Arr(x), Arr(y)) =>
        forall i | 0 <= i < |x| && i < |y| ensures Same(x[i], y[i]) <==> Canonical(x[i]) == Canonical(y[i]) { SameIffCanonical(x[i], y[i]); }
        SameItems(x, y);
      case _ =>
    }
  }

  lemma SameMembers(f: Dict, g: Dict)
    requires forall k | k in f && k in g :: Same(f[k], g[k]) <==> Canonical(f[k]) == Canonical(g[k])
    ensures Same(Obj(f), Obj(g)) <==> Canonical(Obj(f)) == Canonical(Obj(g))
  {
    var p, q := Canonical(Obj(f)).members, Canonical(Obj(g)).members;
    assert p.Keys == f.Keys && q.Keys == g.Keys;
    if p == q {
      forall k | k in f.Keys ensures Same(f[k], g[k]) { assert k in q && p[k] == q[k]; }
    }
  }

  lemma SameItems(x: seq<Json>, y: seq<Json>)
    requires forall i | 0 <= i < |x| && i < |y| :: Same(x[i], y[i]) <==> Canonical(x[i]) == Canonical(y[i])
    ensures Same(Arr(x), Arr(y)) <==> Canonical(Arr(x)) == Canonical(Arr(y))
  {
    var p, q := Canonical(Arr(x)).forms, Canonical(Arr(y)).forms;
    assert |p| == |x| && |q| == |y|;
    if p == q {
      forall i | 0 <= i < |x| ensures Same(x[i], y[i]) { assert p[i] == q[i]; }
    }
  }

  // The diff is empty exactly when the two documents count, say and hold the same.
  lemma NoChangesIffCanonical(a: Json, b: Json)
    ensures JsonChanges(a, b) == {} <==> Canonical(a) == Canonical(b)
  {
    NoChangesIffSame(a, b);
    SameIffCanonical(a, b);
  }

  // Patching turns the first document into the second, but for how a number is written.
  lemma PatchYieldsCanonical(a: Json, b: Json, changes: seq<Change>)
    requires Lists(changes, JsonChanges(a, b))
    ensures Canonical(Patch(a, changes)) == Canonical(b)
  {
    PatchYieldsAfter(a, b, changes);
    SameIffCanonical(Patch(a, changes), b);
  }

  // Every reported change is a difference in what is counted, said or held.
  lemma ChangesDiffer(a: Json, b: Json, c: Change)
    requires c in JsonChanges(a, b)
    ensures Canonical(c.before) != Canonical(c.after)
  {
    ChangesAreReal(a, b, c);
    SameIffCanonical(c.before, c.after);
  }
}
