// JSON Pointers (RFC 6901): resolving one, and printing a path as one
// (extraction_verify.py, resolve_pointer).
module Pointers {
  import opened Basics
  import opened JsonValues
  import opened Digits

  // `s.replace("~" + digit, into)`, scanning from the left.
  function Unfold(s: string, digit: char, into: char): string {
    if s == "" then ""
    else if |s| > 1 && s[0] == '~' && s[1] == digit then [into] + Unfold(s[2..], digit, into)
    else [s[0]] + Unfold(s[1..], digit, into)
  }

  function Unescape(raw: string): string { Unfold(Unfold(raw, '1', '/'), '0', '~') }

  // The tokens between slashes: `s.split("/")`.
  function SplitSlash(s: string): (r: seq<string>)
    ensures r != []
  {
    if s == "" then [""]
    else
      var rest := SplitSlash(s[1..]);
      if s[0] == '/' then [""] + rest else [[s[0]] + rest[0]] + rest[1..]
  }

  // One token applied to one value; a list takes the index its digits spell.
  function StepInto(current: Json, raw: string): Option<Json> {
    var token := Unescape(raw);
    match current
    case Obj(fields) => if token in fields then Some(fields[token]) else None
    case Arr(items) => if token != "" && AllDigits(token) && Read(token) < |items| then Some(items[Read(token)]) else None
    case _ => None
  }

  function Follow(document: Json, raws: seq<string>): Option<Json> {
    if raws == [] then Some(document)
    else
      var next := StepInto(document, raws[0]);
      if next.None? then None else Follow(next.value, raws[1..])
  }

  function Resolve(document: Json, pointer: string): Option<Json> {
    if pointer == "" then Some(document)
    else if pointer[0] != '/' then None
    else Follow(document, SplitSlash(pointer)[1..])
  }

  method ResolvePointer(document: Json, pointer: string) returns (r: Option<Json>)
    ensures r == Resolve(document, pointer)
  {
    if pointer == "" {
      return Some(document);
    }
    if pointer[0] != '/' {
      return None;
    }
    var current := document;
    var raws := SplitSlash(pointer)[1..];
    for i := 0 to |raws|
      invariant Follow(document, raws) == Follow(current, raws[i..])
    {
      var next := StepInto(current, raws[i]);
      if next.None? {
        return None;
      }
      current := next.value;
    }
    r := Some(current);
  }

  // ---- Printing a path gives the pointer that resolves to its end ----------------------

  function Escape(s: string): string {
    if s == "" then "" else (if s[0] == '~' then "~0" else if s[0] == '/' then "~1" else [s[0]]) + Escape(s[1..])
  }

  // Only the tilde escaped: what is left after the first replacement.
  function HalfEscape(s: string): string {
    if s == "" then "" else (if s[0] == '~' then "~0" else [s[0]]) + HalfEscape(s[1..])
  }

  lemma UnfoldTildeFirst(rest: string)
    ensures Unfold("~0" + rest, '1', '/') == "~0" + Unfold(rest, '1', '/')
  {
    assert ("~0" + rest)[1..] == "0" + rest && ("0" + rest)[1..] == rest;
    assert Unfold("0" + rest, '1', '/') == "0" + Unfold(rest, '1', '/');
  }

  lemma UnfoldSlashFirst(rest: string)
    ensures Unfold("~1" + rest, '1', '/') == "/" + Unfold(rest, '1', '/')
  {
    assert ("~1" + rest)[2..] == rest;
  }

  lemma UnfoldPlainFirst(c: char, rest: string)
    requires c != '~'
    ensures Unfold([c] + rest, '1', '/') == [c] + Unfold(rest, '1', '/')
  {
    assert ([c] + rest)[1..] == rest;
  }

  lemma {:induction false} UnfoldSlash(s: string)
    ensures Unfold(Escape(s), '1', '/') == HalfEscape(s)
  {
    if s != "" {
      var rest := Escape(s[1..]);
      UnfoldSlash(s[1..]);
      if s[0] == '~' {
        UnfoldTildeFirst(rest);
      } else if s[0] == '/' {
        UnfoldSlashFirst(rest);
      } else {
        UnfoldPlainFirst(s[0], rest);
      }
    }
  }

  lemma {:induction false} UnfoldTilde(s: string)
    ensures Unfold(HalfEscape(s), '0', '~') == s
  {
    if s != "" {
      var rest := HalfEscape(s[1..]);
      UnfoldTilde(s[1..]);
      if s[0] == '~' { assert HalfEscape(s)[2..] == rest; } else { assert HalfEscape(s)[1..] == rest; }
    }
  }

  lemma UnescapeEscape(s: string)
    ensures Unescape(Escape(s)) == s
  {
    UnfoldSlash(s);
    UnfoldTilde(s);
  }

  predicate NoSlash(s: string) { forall i | 0 <= i < |s| :: s[i] != '/' }

  lemma {:induction false} EscapedHasNoSlash(s: string)
    ensures NoSlash(Escape(s))
  {
    if s != "" { EscapedHasNoSlash(s[1..]); }
  }

  lemma {:induction false} SplitPrefix(a: string, b: string)
    requires NoSlash(a)
    ensures SplitSlash(a + b) == [a + SplitSlash(b)[0]] + SplitSlash(b)[1..]
  {
    if a == "" {
      assert a + b == b && a + SplitSlash(b)[0] == SplitSlash(b)[0];
    } else {
      assert (a + b)[1..] == a[1..] + b;
      SplitPrefix(a[1..], b);
      assert [a[0]] + (a[1..] + SplitSlash(b)[0]) == a + SplitSlash(b)[0];
    }
  }

  function TokenText(t: Token): string {
    match t
    case Key(k) => Escape(k)
    case At(i) => Print(i)
  }

  function PointerTo(path: Path): string {
    if path == [] then "" else "/" + TokenText(path[0]) + PointerTo(path[1..])
  }

  lemma TokenHasNoSlash(t: Token)
    ensures NoSlash(TokenText(t))
  {
    match t {
      case Key(k) => EscapedHasNoSlash(k);
      case At(i) =>
    }
  }

  lemma {:induction false} DigitsUnescaped(s: string)
    requires AllDigits(s)
    ensures Unescape(s) == s
  {
    DigitsFolded(s, '1', '/');
    DigitsFolded(s, '0', '~');
  }

  lemma {:induction false} DigitsFolded(s: string, digit: char, into: char)
    requires AllDigits(s)
    ensures Unfold(s, digit, into) == s
  {
    if s != "" { DigitsFolded(s[1..], digit, into); }
  }

  lemma StepIntoChild(a: Json, t: Token)
    requires Shared(a, a, t)
    ensures StepInto(a, TokenText(t)) == Some(Child(a, t))
  {
    match t {
      case Key(k) => UnescapeEscape(k);
      case At(i) => DigitsUnescaped(Print(i)); ReadPrint(i);
    }
  }

  function TokenTexts(path: Path): seq<string> {
    if path == [] then [] else [TokenText(path[0])] + TokenTexts(path[1..])
  }

  lemma {:induction false} SplitPointer(path: Path)
    ensures SplitSlash(PointerTo(path)) == [""] + TokenTexts(path)
  {
    if path != [] {
      var token, rest := TokenText(path[0]), PointerTo(path[1..]);
      SplitPointer(path[1..]);
      TokenHasNoSlash(path[0]);
      SplitPrefix(token, rest);
      assert PointerTo(path) == "/" + (token + rest);
      SplitLed(token + rest);
      assert token + "" == token;
      assert SplitSlash(token + rest) == [token] + TokenTexts(path[1..]);
    }
  }

  lemma SplitLed(s: string)
    ensures SplitSlash("/" + s) == [""] + SplitSlash(s)
  {
    assert ("/" + s)[1..] == s;
  }

  lemma {:induction false} FollowTokens(document: Json, path: Path)
    requires Lookup(document, path).Some?
    ensures Follow(document, TokenTexts(path)) == Lookup(document, path)
    decreases |path|
  {
    if path != [] {
      StepIntoChild(document, path[0]);
      FollowTokens(Child(document, path[0]), path[1..]);
    }
  }

  // A pointer printed from a path that leads somewhere resolves to what the path leads to.
  lemma ResolvePrinted(document: Json, path: Path)
    requires Lookup(document, path).Some?
    ensures Resolve(document, PointerTo(path)) == Lookup(document, path)
  {
    if path != [] {
      SplitPointer(path);
      FollowTokens(document, path);
      assert SplitSlash(PointerTo(path))[1..] == TokenTexts(path);
    }
  }

  // ---- When a pointer resolves --------------------------------------------------------------

  predicate MarkAt(s: string, digit: char, i: int) { 0 <= i < |s| - 1 && s[i] == '~' && s[i + 1] == digit }

  // A replacement leaves a text without the mark alone, and otherwise replaces the first mark
  // and goes on behind it.
  lemma {:induction false} UnfoldIs(s: string, digit: char, into: char, i: int)
    requires forall j | 0 <= j < i :: !MarkAt(s, digit, j)
    ensures i == |s| ==> Unfold(s, digit, into) == s
    ensures MarkAt(s, digit, i) ==> Unfold(s, digit, into) == s[..i] + [into] + Unfold(s[i + 2..], digit, into)
  {
    if s != "" && i > 0 {
      assert !MarkAt(s, digit, 0);
      assert forall j | 0 <= j < |s| - 1 :: MarkAt(s[1..], digit, j) <==> MarkAt(s, digit, j + 1);
      UnfoldIs(s[1..], digit, into, i - 1);
      if MarkAt(s, digit, i) { assert s[1..][i + 1..] == s[i + 2..] && s[..i] == [s[0]] + s[1..][..i - 1]; }
    }
  }

  function JoinSlash(parts: seq<string>): string {
    if parts == [] then "" else if |parts| == 1 then parts[0] else parts[0] + "/" + JoinSlash(parts[1..])
  }

  lemma JoinAfterSlash(rest: seq<string>)
    requires rest != []
    ensures JoinSlash([""] + rest) == "/" + JoinSlash(rest)
  {
    assert ([""] + rest)[1..] == rest;
  }

  lemma JoinMore(c: char, rest: seq<string>)
    requires rest != []
    ensures JoinSlash([[c] + rest[0]] + rest[1..]) == [c] + JoinSlash(rest)
  {
    var parts := [[c] + rest[0]] + rest[1..];
    assert parts[1..] == rest[1..];
    if |rest| > 1 { assert [c] + rest[0] + "/" + JoinSlash(rest[1..]) == [c] + (rest[0] + "/" + JoinSlash(rest[1..])); }
  }

  ghost predicate NoneHasSlash(parts: seq<string>) { forall i | 0 <= i < |parts| :: NoSlash(parts[i]) }

  // The pieces hold no slash, and with slashes between them they are the text again.
  lemma {:induction false} SplitSlashIs(s: string)
    ensures JoinSlash(SplitSlash(s)) == s && NoneHasSlash(SplitSlash(s))
  {
    if s != "" {
      var rest := SplitSlash(s[1..]);
      SplitSlashIs(s[1..]);
      if s[0] == '/' { JoinAfterSlash(rest); } else { JoinMore(s[0], rest); }
    }
  }

  // One raw piece of a pointer names one step: a member by its unescaped text, a position by
  // its digits, behind any number of zeros.
  ghost predicate Names(raw: string, t: Token) {
    match t
    case Key(k) => Unescape(raw) == k
    case At(i) => Numeral(Unescape(raw), i)
  }

  ghost predicate NamesAll(raws: seq<string>, path: Path) {
    |raws| == |path| && forall i | 0 <= i < |raws| :: Names(raws[i], path[i])
  }

  lemma StepAtPosition(a: Json, raw: string, i: nat)
    requires a.Arr? && i < |a.items| && Names(raw, At(i))
    ensures StepInto(a, raw) == Some(a.items[i])
  {
    ReadIff(Unescape(raw), i);
  }

  // A step succeeds exactly when the piece names a child that is there.
  lemma StepIff(a: Json, raw: string, v: Json)
    ensures StepInto(a, raw) == Some(v) <==> exists t :: Names(raw, t) && Shared(a, a, t) && Child(a, t) == v
  {
    var token := Unescape(raw);
    if StepInto(a, raw) == Some(v) {
      var t := if a.Obj? then Key(token) else At(Read(token));
      if a.Arr? { ReadIff(token, Read(token)); }
      assert Names(raw, t) && Shared(a, a, t) && Child(a, t) == v;
    }
    if t :| Names(raw, t) && Shared(a, a, t) && Child(a, t) == v {
      match t {
        case Key(k) => assert a.Obj? && token == k;
        case At(i) => StepAtPosition(a, raw, i);
      }
    }
  }

  lemma {:induction false} FollowGivesPath(a: Json, raws: seq<string>, v: Json) returns (path: Path)
    requires Follow(a, raws) == Some(v)
    ensures NamesAll(raws, path) && Lookup(a, path) == Some(v)
    decreases |raws|
  {
    if raws == [] {
      path := [];
    } else {
      var b := StepInto(a, raws[0]).value;
      StepIff(a, raws[0], b);
      var t :| Names(raws[0], t) && Shared(a, a, t) && Child(a, t) == b;
      var rest := FollowGivesPath(b, raws[1..], v);
      path := [t] + rest;
      assert path[1..] == rest;
      forall i | 0 <= i < |raws| ensures Names(raws[i], path[i]) { assert i > 0 ==> Names(raws[1..][i - 1], rest[i - 1]); }
    }
  }

  lemma {:induction false} PathIsFollowed(a: Json, raws: seq<string>, path: Path, v: Json)
    requires NamesAll(raws, path) && Lookup(a, path) == Some(v)
    ensures Follow(a, raws) == Some(v)
    decreases |path|
  {
    if path != [] {
      StepIff(a, raws[0], Child(a, path[0]));
      assert Names(raws[0], path[0]);
      assert forall i | 0 <= i < |raws| - 1 :: Names(raws[i + 1], path[i + 1]) ==> Names(raws[1..][i], path[1..][i]);
      PathIsFollowed(Child(a, path[0]), raws[1..], path[1..], v);
    }
  }

  // Some path of the document, named by the pieces behind the first slash, leads to v.
  ghost predicate LeadsTo(document: Json, pointer: string, v: Json) {
    pointer != "" && pointer[0] == '/' && exists path :: NamesAll(SplitSlash(pointer)[1..], path) && Lookup(document, path) == Some(v)
  }

  // A pointer resolves exactly when it is empty, or starts with a slash and its pieces name, one
  // by one, the steps of a path that is there; then it resolves to what the path leads to.
  lemma ResolveIff(document: Json, pointer: string, v: Json)
    ensures Resolve(document, pointer) == Some(v) <==> (pointer == "" && v == document) || LeadsTo(document, pointer, v)
  {
    if pointer != "" && pointer[0] == '/' {
      var raws := SplitSlash(pointer)[1..];
      if Follow(document, raws) == Some(v) { var path := FollowGivesPath(document, raws, v); }
      if path :| NamesAll(raws, path) && Lookup(document, path) == Some(v) { PathIsFollowed(document, raws, path, v); }
    }
  }
}
