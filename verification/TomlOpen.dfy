/** Exactly when the toml scanner reads past the end of a text
    (internal/configfile/toml.go: keyPath, inlineTable, bracketed, multiline): what is open
    at the last byte of it, at one of the places the scanner reads from. */
module TomlOpen {
  import opened Text
  import opened TomlSpec
  import opened TomlCursor
  import TomlRanges

  // ---- strings that are open at the end ----

  /** The backslashes right before byte i, down to byte from. */
  function Slashes(s: string, from: nat, i: nat): nat
    requires from <= i <= |s|
  {
    if i > from && s[i - 1] == '\\' then 1 + Slashes(s, from, i - 1) else 0
  }

  predicate Odd(n: nat) {
    n % 2 == 1
  }

  /** Three quotes at byte i that end a multi-line string: the first of them is not
      escaped. */
  predicate ClosesAt(s: string, i: nat)
    requires |s| >= 3
  {
    && 3 <= i && i + 3 <= |s| && s[i] == s[0] && s[i + 1] == s[0] && s[i + 2] == s[0]
    && (s[0] == '\"' ==> !Odd(Slashes(s, 3, i)))
  }

  /** A multi-line string has its closing quotes. */
  predicate Closes(s: string) {
    |s| >= 3 && exists i :: 0 <= i < |s| && ClosesAt(s, i)
  }

  /** A basic multi-line string that is not closed, and whose last byte is a backslash that
      escapes what would come next. */
  predicate Unpaired(s: string) {
    Triple(s) && s[0] == '\"' && !Closes(s) && Odd(Slashes(s, 3, |s|))
  }

  lemma {:induction false} MultilineOverruns(s: string, i: nat)
    requires Triple(s) && 3 <= i <= |s| && (s[0] == '\"' ==> !Odd(Slashes(s, 3, i)))
    ensures MultilineFrom(s, s[0], i) > |s| <==>
            s[0] == '\"' && Odd(Slashes(s, 3, |s|)) && forall k :: i <= k < |s| ==> !ClosesAt(s, k)
    decreases |s| - i
  {
    if i == |s| {
    } else if s[0] == '\"' && s[i] == '\\' {
      assert Slashes(s, 3, i + 1) == 1 + Slashes(s, 3, i);
      assert !ClosesAt(s, i) && !ClosesAt(s, i + 1);
      if i + 2 <= |s| {
        assert Slashes(s, 3, i + 2) == if s[i + 1] == '\\' then 1 + Slashes(s, 3, i + 1) else 0;
        MultilineOverruns(s, i + 2);
      }
    } else if i + 3 <= |s| && s[i] == s[0] && s[i + 1] == s[0] && s[i + 2] == s[0] {
      assert ClosesAt(s, i);
    } else {
      assert !ClosesAt(s, i);
      assert s[0] == '\"' ==> Slashes(s, 3, i + 1) == 0;
      MultilineOverruns(s, i + 1);
    }
  }

  /** A multi-line string runs over the end of the text exactly when it is unpaired. */
  lemma OverrunsIsUnpaired(s: string)
    requires Triple(s)
    ensures Multiline(s) > |s| <==> Unpaired(s)
  {
    MultilineOverruns(s, 3);
    hide MultilineFrom;
    if Closes(s) {
      var i :| 0 <= i < |s| && ClosesAt(s, i);
      assert 3 <= i;
    }
  }

  /** A string on one line that nothing ends before the text does. */
  predicate OpenQuote(s: string) {
    && s != [] && IsQuote(s[0])
    && forall i :: 1 <= i < |s| && (s[i] == s[0] || s[i] == '\n') ==> s[0] == '\"' && Odd(Slashes(s, 1, i))
  }

  lemma {:induction false} QuotedOverruns(s: string, j: nat)
    requires s != [] && IsQuote(s[0]) && 1 <= j <= |s| && (s[0] == '\"' ==> !Odd(Slashes(s, 1, j)))
    ensures QuotedFrom(s, s[0], j) == (|s|, false) <==>
            forall i :: j <= i < |s| && (s[i] == s[0] || s[i] == '\n') ==> s[0] == '\"' && Odd(Slashes(s, 1, i))
    decreases |s| - j
  {
    if j == |s| {
    } else if s[j] == '\n' {
    } else if s[j] == '\\' && s[0] == '\"' {
      assert Slashes(s, 1, j + 1) == 1 + Slashes(s, 1, j);
      if j + 2 <= |s| {
        assert Slashes(s, 1, j + 2) == if s[j + 1] == '\\' then 1 + Slashes(s, 1, j + 1) else 0;
        QuotedOverruns(s, j + 2);
      }
    } else if s[j] != s[0] {
      assert s[0] == '\"' ==> Slashes(s, 1, j + 1) == 0;
      QuotedOverruns(s, j + 1);
    }
  }

  lemma OpenQuoteIs(s: string)
    requires s != [] && IsQuote(s[0])
    ensures Quoted(s) == (|s|, false) <==> OpenQuote(s)
  {
    QuotedOverruns(s, 1);
    hide QuotedFrom;
  }

  // ---- keys that run out ----

  /** A key that is not finished when the text is: nothing is left for its next part, or a
      quoted part of it is open. */
  predicate RunsOut(s: string)
    decreases |s|
  {
    var g := Gaps(s);
    || g == |s|
    || OpenQuote(s[g..])
    || (var (part, m) := KeyPart(s[g..]);
        && part.Some?
        && var c := g + m + Gaps(s[g + m..]);
           c < |s| && s[c] == '.' && RunsOut(s[c + 1..]))
  }

  lemma RunsOutIs(s: string)
    ensures
      var g := Gaps(s);
      && g <= |s|
      && var r := KeyPart(s[g..]);
         && g + r.1 <= |s|
         && var c := g + r.1 + Gaps(s[g + r.1..]);
            && c <= |s|
            && (RunsOut(s) <==> g == |s| || OpenQuote(s[g..]) || (r.0.Some? && c < |s| && s[c] == '.' && RunsOut(s[c + 1..])))
  {
    hide KeyPart, Lead, OpenQuote;
  }

  lemma PartOverruns(s: string)
    ensures KeyPart(s).1 <= |s|
    ensures KeyPart(s).0.None? ==> (KeyPart(s).1 == |s| <==> s == [] || OpenQuote(s))
    ensures KeyPart(s).0.Some? ==> s != [] && !OpenQuote(s)
  {
    if s != [] && IsQuote(s[0]) {
      OpenQuoteIs(s);
    }
    hide QuotedFrom, Lead;
  }

  lemma {:induction false} KeyOverruns(s: string)
    ensures RunsOut(s) <==> !KeyPath(s).ok && KeyPath(s).n == |s|
    decreases |s|
  {
    hide *;
    RunsOutIs(s);
    KeyPathIs(s);
    var g := Gaps(s);
    PartOverruns(s[g..]);
    var r := KeyPart(s[g..]);
    var c := g + r.1 + Gaps(s[g + r.1..]);
    if r.0.Some? && c < |s| && s[c] == '.' {
      KeyOverruns(s[c + 1..]);
      assert |s[c + 1..]| == |s| - c - 1;
    }
  }

  /** An inline table whose next key runs out. */
  predicate ItemRunsOut(s: string) {
    var a := Trivia(s);
    a < |s| && s[a] != '}' && s[a] != ',' && RunsOut(s[a..])
  }

  lemma BrokenIsRunsOut(s: string)
    ensures NextItem(s) == Broken <==> ItemRunsOut(s)
  {
    var a := Trivia(s);
    KeyOverruns(s[a..]);
    hide Trivia, KeyPath, RunsOut, ValueAt;
  }

  // ---- the places the scanner reads from ----

  /** Where a multi-line string begins, where the items of an inline table begin, and where
      its next item is looked for. */
  datatype Place = Str(at: int) | Opening(at: int, path: seq<string>, root: bool) | Item(at: int)

  function ArrayPlaces(s: string, at: int, depth: int): set<Place>
    decreases |s|
  {
    if s == [] then {}
    else if s[0] == '[' || s[0] == '{' then ArrayPlaces(s[1..], at + 1, depth + 1)
    else if s[0] == ']' || s[0] == '}' then
      if depth - 1 <= 0 then {} else ArrayPlaces(s[1..], at + 1, depth - 1)
    else if s[0] == '#' then
      LineMoves(s);
      ArrayPlaces(s[Line(s)..], at + Line(s), depth)
    else if Triple(s) then
      {Str(at)} + if Multiline(s) > |s| then {} else ArrayPlaces(s[Multiline(s)..], at + Multiline(s), depth)
    else if IsQuote(s[0]) then ArrayPlaces(s[Quoted(s).0..], at + Quoted(s).0, depth)
    else ArrayPlaces(s[1..], at + 1, depth)
  }

  function ValuePlaces(s: string, at: int, path: seq<string>, root: bool): set<Place>
    decreases |s|, 1
  {
    if s == [] then {}
    else if Triple(s) then {Str(at)}
    else if s[0] == '[' then ArrayPlaces(s, at, 0)
    else if s[0] == '{' then {Opening(at + 1, path, root)} + ItemsPlaces(s[1..], at + 1, path, root)
    else {}
  }

  function ItemsPlaces(s: string, at: int, path: seq<string>, root: bool): set<Place>
    decreases |s|, 3
  {
    {Item(at)} +
    match NextItem(s)
    case End(_) => {}
    case Broken => {}
    case Skip(n) => ItemsPlaces(s[n..], at + n, path, root)
    case Key(parts, keyEnd, valueAt) =>
      ValuePlaces(s[valueAt..], at + valueAt, path + parts, root) +
      match Assign(s[valueAt..], at + valueAt, path + parts, at + keyEnd, root)
      case None => {}
      case Some(a) => ItemsPlaces(s[valueAt + a.n..], at + valueAt + a.n, path, root)
  }

  function RunPlaces(s: string, at: int, table: seq<string>): set<Place>
    decreases |s|
  {
    match NextTop(s)
    case Done => {}
    case Over(n) => RunPlaces(s[n..], at + n, table)
    case Table(path, _, _, n) => RunPlaces(s[n..], at + n, path)
    case Assignment(parts, keyEnd, valueAt) =>
      ValuePlaces(s[valueAt..], at + valueAt, table + parts, table == []) +
      match Assign(s[valueAt..], at + valueAt, table + parts, at + keyEnd, table == [])
      case None => {}
      case Some(a) => RunPlaces(s[valueAt + a.n..], at + valueAt + a.n, table)
  }

  /** What is open at the last byte, read from a place. */
  predicate Overruns(text: string, p: Place) {
    && 0 <= p.at <= |text|
    && match p
       case Str(at) => Unpaired(text[at..])
       case Item(at) => ItemRunsOut(text[at..])
       case Opening(_, _, _) => false
  }

  ghost predicate Any(text: string, ps: set<Place>) {
    exists p :: p in ps && Overruns(text, p)
  }

  lemma AnyUnion(text: string, a: set<Place>, b: set<Place>)
    ensures Any(text, a + b) <==> Any(text, a) || Any(text, b)
  {
    hide Overruns;
    if Any(text, a) { var p :| p in a && Overruns(text, p); assert p in a + b; }
    if Any(text, b) { var p :| p in b && Overruns(text, p); assert p in a + b; }
  }

  lemma AnyOne(text: string, p: Place)
    ensures Any(text, {p}) <==> Overruns(text, p)
    ensures !Any(text, {})
  {
    hide Overruns;
    if Overruns(text, p) { assert p in {p}; }
  }

  lemma StrOverruns(text: string, at: nat)
    requires at <= |text|
    ensures Overruns(text, Str(at)) <==> Unpaired(text[at..])
    ensures Overruns(text, Item(at)) <==> ItemRunsOut(text[at..])
    ensures forall path, root :: !Overruns(text, Opening(at, path, root))
  {
    hide Unpaired, ItemRunsOut;
  }

  lemma Rest(text: string, s: string, at: nat, k: nat)
    requires at <= |text| && s == text[at..] && k <= |s|
    ensures at + k <= |text| && s[k..] == text[at + k..]
  {
  }

  lemma PlusNone(k: nat, n: Option<nat>)
    ensures Plus(k, n) == None <==> n == None
  {
  }

  lemma {:induction false} ArrayPanics(text: string, s: string, at: nat, depth: int)
    requires at <= |text| && s == text[at..]
    ensures Bracketed(s, depth) == None <==> Any(text, ArrayPlaces(s, at, depth))
    decreases |s|
  {
    hide Multiline, Quoted, Lead, Any, Unpaired;
    AnyOne(text, Str(at));
    if s == [] {
    } else if s[0] == '[' || s[0] == '{' {
      Rest(text, s, at, 1);
      ArrayPanics(text, s[1..], at + 1, depth + 1);
    } else if s[0] == ']' || s[0] == '}' {
      if depth - 1 > 0 {
        Rest(text, s, at, 1);
        ArrayPanics(text, s[1..], at + 1, depth - 1);
      }
    } else if s[0] == '#' {
      LineMoves(s);
      Rest(text, s, at, Line(s));
      ArrayPanics(text, s[Line(s)..], at + Line(s), depth);
    } else if Triple(s) {
      ArrayString(text, s, at, depth);
    } else if IsQuote(s[0]) {
      Rest(text, s, at, Quoted(s).0);
      ArrayPanics(text, s[Quoted(s).0..], at + Quoted(s).0, depth);
    } else {
      Rest(text, s, at, 1);
      ArrayPanics(text, s[1..], at + 1, depth);
    }
  }

  lemma {:induction false} ArrayString(text: string, s: string, at: nat, depth: int)
    requires at <= |text| && s == text[at..] && Triple(s)
    ensures Bracketed(s, depth) == None <==> Any(text, ArrayPlaces(s, at, depth))
    decreases |s|, 0
  {
    hide *;
    ArrayStringIs(s, at, depth);
    OverrunsIsUnpaired(s);
    StrOverruns(text, at);
    AnyOne(text, Str(at));
    var m := Multiline(s);
    if m <= |s| {
      Rest(text, s, at, m);
      ArrayPanics(text, s[m..], at + m, depth);
      AnyUnion(text, {Str(at)}, ArrayPlaces(s[m..], at + m, depth));
      PlusNone(m, Bracketed(s[m..], depth));
    } else {
      AnyUnion(text, {Str(at)}, {});
    }
  }

  lemma ArrayStringIs(s: string, at: int, depth: int)
    requires Triple(s)
    ensures 3 <= Multiline(s)
    ensures Multiline(s) > |s| ==> Bracketed(s, depth) == None && ArrayPlaces(s, at, depth) == {Str(at)} + {}
    ensures Multiline(s) <= |s| ==>
              var m := Multiline(s);
              && Bracketed(s, depth) == Plus(m, Bracketed(s[m..], depth))
              && ArrayPlaces(s, at, depth) == {Str(at)} + ArrayPlaces(s[m..], at + m, depth)
  {
    hide Multiline;
  }

  lemma {:induction false} ValuePanics(text: string, s: string, at: nat, path: seq<string>, root: bool)
    requires at <= |text| && s == text[at..]
    ensures Value(s, at, path, root) == None <==> Any(text, ValuePlaces(s, at, path, root))
    decreases |s|, 1
  {
    hide *;
    if s != [] && s[0] == '{' {
      ValueIsTable(s, at, path, root);
      TableNone(s, Items(s[1..], at + 1, path, root));
      TablePlaces(s, at, path, root);
      Rest(text, s, at, 1);
      ItemsPanic(text, s[1..], at + 1, path, root);
      AnyUnion(text, {Opening(at + 1, path, root)}, ItemsPlaces(s[1..], at + 1, path, root));
      AnyOne(text, Opening(at + 1, path, root));
      StrOverruns(text, at + 1);
    } else {
      LeafPanics(text, s, at, path, root);
    }
  }

  lemma TableNone(s: string, r: Option<Read>)
    requires r.Some? ==> 1 + r.value.n <= |s|
    ensures TableRead(s, r) == None <==> r == None
  {
    hide Spans, Marked;
  }

  lemma TablePlaces(s: string, at: int, path: seq<string>, root: bool)
    requires s != [] && s[0] == '{'
    ensures ValuePlaces(s, at, path, root) == {Opening(at + 1, path, root)} + ItemsPlaces(s[1..], at + 1, path, root)
  {
    hide ItemsPlaces;
  }

  lemma LeafPanics(text: string, s: string, at: nat, path: seq<string>, root: bool)
    requires at <= |text| && s == text[at..] && (s == [] || s[0] != '{')
    ensures Value(s, at, path, root) == None <==> Any(text, ValuePlaces(s, at, path, root))
  {
    hide Items, Multiline, Quoted, Bracketed, Lead, Spans, ItemsPlaces, ArrayPlaces, Any, Unpaired, Overruns;
    AnyOne(text, Str(at));
    if s != [] {
      if Triple(s) {
        OverrunsIsUnpaired(s);
        StrOverruns(text, at);
      } else if s[0] == '[' {
        ArrayPanics(text, s, at, 0);
      }
    }
  }

  lemma {:induction false} AssignPanics(text: string, s: string, at: nat, path: seq<string>, keyEnd: int, root: bool)
    requires at <= |text| && s == text[at..]
    ensures Assign(s, at, path, keyEnd, root) == None <==> Any(text, ValuePlaces(s, at, path, root))
    decreases |s|, 2
  {
    hide *;
    ValuePanics(text, s, at, path, root);
    AssignIs(s, at, path, keyEnd, root);
    TomlRanges.RecordedIs(s, at, path, keyEnd, root, Value(s, at, path, root));
  }

  lemma ItemsPlacesIs(s: string, at: int, path: seq<string>, root: bool)
    ensures
      match NextItem(s)
      case End(_) => ItemsPlaces(s, at, path, root) == {Item(at)} + {}
      case Broken => ItemsPlaces(s, at, path, root) == {Item(at)} + {}
      case Skip(n) => n <= |s| && ItemsPlaces(s, at, path, root) == {Item(at)} + ItemsPlaces(s[n..], at + n, path, root)
      case Key(parts, keyEnd, valueAt) =>
        && valueAt <= |s|
        && match Assign(s[valueAt..], at + valueAt, path + parts, at + keyEnd, root)
           case None => ItemsPlaces(s, at, path, root) == {Item(at)} + (ValuePlaces(s[valueAt..], at + valueAt, path + parts, root) + {})
           case Some(a) =>
             && valueAt + a.n <= |s|
             && ItemsPlaces(s, at, path, root) ==
                {Item(at)} + (ValuePlaces(s[valueAt..], at + valueAt, path + parts, root)
                              + ItemsPlaces(s[valueAt + a.n..], at + valueAt + a.n, path, root))
  {
    hide NextItem, Assign, ValuePlaces;
  }

  lemma {:induction false} ItemsPanic(text: string, s: string, at: nat, path: seq<string>, root: bool)
    requires at <= |text| && s == text[at..]
    ensures Items(s, at, path, root) == None <==> Any(text, ItemsPlaces(s, at, path, root))
    decreases |s|, 3
  {
    hide *;
    ItemsIs(s, at, path, root);
    ItemsPlacesIs(s, at, path, root);
    BrokenIsRunsOut(s);
    StrOverruns(text, at);
    AnyOne(text, Item(at));
    match NextItem(s)
    case End(n) => AnyUnion(text, {Item(at)}, {});
    case Broken => AnyUnion(text, {Item(at)}, {});
    case Skip(n) =>
      Rest(text, s, at, n);
      ItemsPanic(text, s[n..], at + n, path, root);
      AnyUnion(text, {Item(at)}, ItemsPlaces(s[n..], at + n, path, root));
      TomlRanges.LaterIs(n, [], Items(s[n..], at + n, path, root));
    case Key(parts, keyEnd, valueAt) =>
      Rest(text, s, at, valueAt);
      AssignPanics(text, s[valueAt..], at + valueAt, path + parts, at + keyEnd, root);
      var got := Assign(s[valueAt..], at + valueAt, path + parts, at + keyEnd, root);
      var inside := ValuePlaces(s[valueAt..], at + valueAt, path + parts, root);
      match got {
        case None =>
          AnyUnion(text, inside, {});
          AnyUnion(text, {Item(at)}, inside + {});
        case Some(a) =>
          var n := valueAt + a.n;
          Rest(text, s, at, n);
          assert at + valueAt + a.n == at + n;
          ItemsPanic(text, s[n..], at + n, path, root);
          TomlRanges.LaterIs(n, a.found, Items(s[n..], at + n, path, root));
          AnyUnion(text, inside, ItemsPlaces(s[n..], at + n, path, root));
          AnyUnion(text, {Item(at)}, inside + ItemsPlaces(s[n..], at + n, path, root));
      }
  }

  lemma RunPlacesIs(s: string, at: int, table: seq<string>)
    ensures
      match NextTop(s)
      case Done => RunPlaces(s, at, table) == {}
      case Over(n) => n <= |s| && RunPlaces(s, at, table) == RunPlaces(s[n..], at + n, table)
      case Table(path, _, _, n) => n <= |s| && RunPlaces(s, at, table) == RunPlaces(s[n..], at + n, path)
      case Assignment(parts, keyEnd, valueAt) =>
        && valueAt <= |s|
        && match Assign(s[valueAt..], at + valueAt, table + parts, at + keyEnd, table == [])
           case None => RunPlaces(s, at, table) == ValuePlaces(s[valueAt..], at + valueAt, table + parts, table == []) + {}
           case Some(a) =>
             && valueAt + a.n <= |s|
             && RunPlaces(s, at, table) ==
                ValuePlaces(s[valueAt..], at + valueAt, table + parts, table == [])
                + RunPlaces(s[valueAt + a.n..], at + valueAt + a.n, table)
  {
    hide NextTop, Assign, ValuePlaces;
  }

  lemma {:induction false} RunPanics(text: string, s: string, at: nat, table: seq<string>)
    requires at <= |text| && s == text[at..]
    ensures Run(s, at, table) == None <==> Any(text, RunPlaces(s, at, table))
    decreases |s|
  {
    hide *;
    RunIs(s, at, table);
    RunPlacesIs(s, at, table);
    match NextTop(s)
    case Done => AnyOne(text, Item(at));
    case Over(n) =>
      Rest(text, s, at, n);
      RunPanics(text, s[n..], at + n, table);
    case Table(path, many, h, n) =>
      Rest(text, s, at, n);
      RunPanics(text, s[n..], at + n, path);
      TomlRanges.ThenGives([], [Header(path, at + h, many)], Run(s[n..], at + n, path));
    case Assignment(parts, keyEnd, valueAt) =>
      Rest(text, s, at, valueAt);
      AssignPanics(text, s[valueAt..], at + valueAt, table + parts, at + keyEnd, table == []);
      var inside := ValuePlaces(s[valueAt..], at + valueAt, table + parts, table == []);
      match Assign(s[valueAt..], at + valueAt, table + parts, at + keyEnd, table == []) {
        case None => AnyUnion(text, inside, {});
        case Some(a) =>
          var n := valueAt + a.n;
          Rest(text, s, at, n);
          assert at + valueAt + a.n == at + n;
          RunPanics(text, s[n..], at + n, table);
          TomlRanges.ThenGives(a.found, [], Run(s[n..], at + n, table));
          AnyUnion(text, inside, RunPlaces(s[n..], at + n, table));
      }
  }

  /** The places the scanner of a text reads from. */
  function Places(text: string): set<Place> {
    RunPlaces(text, 0, [])
  }

  /** The scan of a text reads past its end exactly when, at one of the places it reads
      from, a basic multi-line string is open and its last byte escapes what would follow,
      or a key of an inline table runs out: behind its dot, or inside a quoted part. */
  lemma PanicsExactly(text: string)
    ensures ScanText(text) == None <==> exists p :: p in Places(text) && Overruns(text, p)
  {
    hide *;
    ScanIsRun(text);
    PlacesIs(text);
    assert text[0..] == text;
    RunPanics(text, text, 0, []);
    AnyIs(text, Places(text));
  }

  lemma PlacesIs(text: string)
    ensures Places(text) == RunPlaces(text, 0, [])
  {
    hide RunPlaces;
  }

  lemma AnyIs(text: string, ps: set<Place>)
    ensures Any(text, ps) <==> exists p :: p in ps && Overruns(text, p)
  {
    hide Overruns;
  }

  // ---- texts in which everything is closed ----

  /** The rest of an inline table has its brace. */
  predicate Braced(s: string, at: int, path: seq<string>, root: bool)
    decreases |s|
  {
    match NextItem(s)
    case End(n) => n > 0 && s[n - 1] == '}'
    case Broken => false
    case Skip(n) => Braced(s[n..], at + n, path, root)
    case Key(parts, keyEnd, valueAt) =>
      match Assign(s[valueAt..], at + valueAt, path + parts, at + keyEnd, root)
      case None => true
      case Some(a) => Braced(s[valueAt + a.n..], at + valueAt + a.n, path, root)
  }

  predicate ClosedAt(text: string, p: Place) {
    0 <= p.at <= |text| ==>
      match p
      case Str(at) => Closes(text[at..])
      case Opening(at, path, root) => Braced(text[at..], at, path, root)
      case Item(_) => true
  }

  /** Every multi-line string has its closing quotes and every inline table its brace. */
  ghost predicate Closed(text: string) {
    forall p :: p in Places(text) ==> ClosedAt(text, p)
  }

  ghost predicate AllClosed(text: string, ps: set<Place>) {
    forall p :: p in ps ==> ClosedAt(text, p)
  }

  lemma AllUnion(text: string, a: set<Place>, b: set<Place>)
    ensures AllClosed(text, a + b) <==> AllClosed(text, a) && AllClosed(text, b)
  {
    hide ClosedAt;
    if AllClosed(text, a + b) {
      forall p | p in a ensures ClosedAt(text, p) { assert p in a + b; }
      forall p | p in b ensures ClosedAt(text, p) { assert p in a + b; }
    }
  }

  lemma AllOne(text: string, p: Place)
    ensures AllClosed(text, {p}) <==> ClosedAt(text, p)
  {
    hide ClosedAt;
    if AllClosed(text, {p}) { assert p in {p}; }
  }

  lemma ClosedAtIs(text: string, at: nat, path: seq<string>, root: bool)
    requires at <= |text|
    ensures ClosedAt(text, Str(at)) <==> Closes(text[at..])
    ensures ClosedAt(text, Opening(at, path, root)) <==> Braced(text[at..], at, path, root)
  {
    hide Closes, Braced;
  }

  lemma ClosesIsNoOverrun(s: string)
    requires Closes(s)
    ensures !Unpaired(s)
  {
  }

  lemma {:induction false} ArrayCloses(text: string, s: string, at: nat, depth: int)
    requires at <= |text| && s == text[at..] && AllClosed(text, ArrayPlaces(s, at, depth))
    ensures Bracketed(s, depth) != None
    decreases |s|
  {
    hide *;
    ArrayPanics(text, s, at, depth);
    AnyIs(text, ArrayPlaces(s, at, depth));
    forall p | p in ArrayPlaces(s, at, depth) ensures !Overruns(text, p) {
      ArrayPlacesAreStrings(s, at, depth, p);
      StringCloses(text, ArrayPlaces(s, at, depth), p);
    }
  }

  lemma {:induction false} ArrayPlacesAreStrings(s: string, at: int, depth: int, p: Place)
    requires p in ArrayPlaces(s, at, depth)
    ensures p.Str?
    decreases |s|
  {
    hide Multiline, Quoted, Lead;
    if s[0] == '[' || s[0] == '{' {
      ArrayPlacesAreStrings(s[1..], at + 1, depth + 1, p);
    } else if s[0] == ']' || s[0] == '}' {
      if depth - 1 > 0 { ArrayPlacesAreStrings(s[1..], at + 1, depth - 1, p); }
    } else if s[0] == '#' {
      LineMoves(s);
      ArrayPlacesAreStrings(s[Line(s)..], at + Line(s), depth, p);
    } else if Triple(s) {
      if p != Str(at) && Multiline(s) <= |s| {
        ArrayPlacesAreStrings(s[Multiline(s)..], at + Multiline(s), depth, p);
      }
    } else if IsQuote(s[0]) {
      ArrayPlacesAreStrings(s[Quoted(s).0..], at + Quoted(s).0, depth, p);
    } else {
      ArrayPlacesAreStrings(s[1..], at + 1, depth, p);
    }
  }

  lemma StringCloses(text: string, ps: set<Place>, p: Place)
    requires p in ps && p.Str? && AllClosed(text, ps)
    ensures !Overruns(text, p)
  {
    hide Closes, Unpaired;
    assert ClosedAt(text, p);
    if 0 <= p.at <= |text| && Closes(text[p.at..]) { ClosesIsNoOverrun(text[p.at..]); }
  }

  lemma {:induction false} ValueCloses(text: string, s: string, at: nat, path: seq<string>, root: bool)
    requires at <= |text| && s == text[at..] && AllClosed(text, ValuePlaces(s, at, path, root))
    ensures Value(s, at, path, root) != None
    decreases |s|, 1
  {
    hide *;
    if s != [] && s[0] == '{' {
      ValueIsTable(s, at, path, root);
      TableNone(s, Items(s[1..], at + 1, path, root));
      TablePlaces(s, at, path, root);
      Rest(text, s, at, 1);
      AllUnion(text, {Opening(at + 1, path, root)}, ItemsPlaces(s[1..], at + 1, path, root));
      AllOne(text, Opening(at + 1, path, root));
      ClosedAtIs(text, at + 1, path, root);
      ItemsClose(text, s[1..], at + 1, path, root);
    } else {
      LeafCloses(text, s, at, path, root);
    }
  }

  lemma LeafCloses(text: string, s: string, at: nat, path: seq<string>, root: bool)
    requires at <= |text| && s == text[at..] && (s == [] || s[0] != '{') && AllClosed(text, ValuePlaces(s, at, path, root))
    ensures Value(s, at, path, root) != None
  {
    hide Items, Multiline, Quoted, Bracketed, Lead, Spans, ItemsPlaces, ArrayPlaces, AllClosed, Closes, Unpaired, ClosedAt;
    if s != [] {
      if Triple(s) {
        AllOne(text, Str(at));
        ClosedAtIs(text, at, path, root);
        ClosesIsNoOverrun(s);
        OverrunsIsUnpaired(s);
      } else if s[0] == '[' {
        ArrayCloses(text, s, at, 0);
      }
    }
  }

  lemma BracedIs(s: string, at: int, path: seq<string>, root: bool)
    requires Braced(s, at, path, root)
    ensures
      match NextItem(s)
      case End(n) => true
      case Broken => false
      case Skip(n) => n <= |s| && Braced(s[n..], at + n, path, root)
      case Key(parts, keyEnd, valueAt) =>
        && valueAt <= |s|
        && var got := Assign(s[valueAt..], at + valueAt, path + parts, at + keyEnd, root);
           got.Some? ==> valueAt + got.value.n <= |s| && Braced(s[valueAt + got.value.n..], at + valueAt + got.value.n, path, root)
  {
    hide NextItem, Assign;
  }

  lemma {:induction false} ItemsClose(text: string, s: string, at: nat, path: seq<string>, root: bool)
    requires at <= |text| && s == text[at..] && Braced(s, at, path, root) && AllClosed(text, ItemsPlaces(s, at, path, root))
    ensures Items(s, at, path, root) != None
    decreases |s|, 3
  {
    hide *;
    ItemsIs(s, at, path, root);
    ItemsPlacesIs(s, at, path, root);
    BracedIs(s, at, path, root);
    match NextItem(s)
    case End(n) =>
    case Broken =>
    case Skip(n) =>
      Rest(text, s, at, n);
      AllUnion(text, {Item(at)}, ItemsPlaces(s[n..], at + n, path, root));
      ItemsClose(text, s[n..], at + n, path, root);
      TomlRanges.LaterIs(n, [], Items(s[n..], at + n, path, root));
    case Key(parts, keyEnd, valueAt) =>
      Rest(text, s, at, valueAt);
      var u, to := s[valueAt..], path + parts;
      var inside := ValuePlaces(u, at + valueAt, to, root);
      var got := Assign(u, at + valueAt, to, at + keyEnd, root);
      AllUnion(text, {Item(at)}, inside + if got.None? then {} else ItemsPlaces(s[valueAt + got.value.n..], at + valueAt + got.value.n, path, root));
      AllUnion(text, inside, if got.None? then {} else ItemsPlaces(s[valueAt + got.value.n..], at + valueAt + got.value.n, path, root));
      ValueCloses(text, u, at + valueAt, to, root);
      AssignIs(u, at + valueAt, to, at + keyEnd, root);
      TomlRanges.RecordedIs(u, at + valueAt, to, at + keyEnd, root, Value(u, at + valueAt, to, root));
      var n := valueAt + got.value.n;
      Rest(text, s, at, n);
      assert at + valueAt + got.value.n == at + n;
      ItemsClose(text, s[n..], at + n, path, root);
      TomlRanges.LaterIs(n, got.value.found, Items(s[n..], at + n, path, root));
  }

  lemma {:induction false} RunCloses(text: string, s: string, at: nat, table: seq<string>)
    requires at <= |text| && s == text[at..] && AllClosed(text, RunPlaces(s, at, table))
    ensures Run(s, at, table) != None
    decreases |s|
  {
    hide *;
    RunIs(s, at, table);
    RunPlacesIs(s, at, table);
    match NextTop(s)
    case Done =>
    case Over(n) =>
      Rest(text, s, at, n);
      RunCloses(text, s[n..], at + n, table);
    case Table(path, many, h, n) =>
      Rest(text, s, at, n);
      RunCloses(text, s[n..], at + n, path);
      TomlRanges.ThenGives([], [Header(path, at + h, many)], Run(s[n..], at + n, path));
    case Assignment(parts, keyEnd, valueAt) =>
      Rest(text, s, at, valueAt);
      var u, to, root := s[valueAt..], table + parts, table == [];
      var inside := ValuePlaces(u, at + valueAt, to, root);
      var got := Assign(u, at + valueAt, to, at + keyEnd, root);
      AllUnion(text, inside, if got.None? then {} else RunPlaces(s[valueAt + got.value.n..], at + valueAt + got.value.n, table));
      ValueCloses(text, u, at + valueAt, to, root);
      AssignIs(u, at + valueAt, to, at + keyEnd, root);
      TomlRanges.RecordedIs(u, at + valueAt, to, at + keyEnd, root, Value(u, at + valueAt, to, root));
      var n := valueAt + got.value.n;
      Rest(text, s, at, n);
      assert at + valueAt + got.value.n == at + n;
      RunCloses(text, s[n..], at + n, table);
      TomlRanges.ThenGives(got.value.found, [], Run(s[n..], at + n, table));
  }

  /** A text in which every multi-line string and every inline table is closed, with or
      without a newline at its end, is scanned; every assignment recorded has its key before
      its value and its value inside the text; and any two values are apart, or the one
      recorded first is inside the other and the other is an inline table. */
  lemma ClosedIsSound(text: string)
    requires Closed(text)
    ensures ScanText(text).Some?
    ensures
      var fs := ScanText(text).value.assigns;
      && (forall i :: 0 <= i < |fs| ==> 0 <= fs[i].keyEnd <= fs[i].start <= fs[i].end <= |text|)
      && (forall i :: 0 <= i < |fs| ==> TomlRanges.OneLine(text, 0, fs[i]))
      && TomlRanges.Laminar(text, 0, fs)
  {
    hide *;
    ScanIsRun(text);
    ClosedIs(text);
    assert text[0..] == text;
    RunCloses(text, text, 0, []);
    TomlRanges.RangesAreSound(text);
  }

  lemma ClosedIs(text: string)
    requires Closed(text)
    ensures AllClosed(text, RunPlaces(text, 0, []))
  {
    hide RunPlaces, ClosedAt;
  }

  /** A file of one plain line is such a text, although no newline is at its end. */
  lemma OneLineIsClosed()
    ensures Closed("a = 1")
  {
    var text := "a = 1";
    hide *;
    OneAssignment(text);
    PlacesIs(text);
    RunPlacesIs(text, 0, []);
    var u := text[4..];
    assert u == "1" && [] + ["a"] == ["a"];
    OneValue(u);
    AssignIs(u, 4, ["a"], 1, true);
    TomlRanges.RecordedIs(u, 4, ["a"], 1, true, Value(u, 4, ["a"], true));
    assert text[5..] == [];
    NothingLeft();
    NoPlaces(text);
  }

  lemma NoPlaces(text: string)
    requires Places(text) == {}
    ensures Closed(text)
  {
    hide Places, ClosedAt;
  }

  lemma OneAssignment(text: string)
    requires text == "a = 1"
    ensures NextTop(text) == Assignment(["a"], 1, 4)
  {
    assert text[0..] == text && Trivia(text) == 0;
    assert Gaps(text) == 0 && text[1..][0] == ' ' && text[1..][1] == '=';
    assert Lead(IsBare, text[1..]) == 0;
    assert Lead(IsBare, text) == 1 && text[..1] == "a";
    assert KeyPart(text) == (Some("a"), 1);
    assert text[2..][0] == '=';
    assert text[1..][1..] == text[2..] && Gaps(text[2..]) == 0 && Gaps(text[1..]) == 1;
    KeyReads(text, "a", 1, 2);
    assert text[3..][0] == ' ' && text[3..][1..] == text[4..] && text[4..][0] == '1';
    assert Gaps(text[4..]) == 0 && Gaps(text[3..]) == 1;
    hide Trivia, KeyPath, Lead;
  }

  lemma OneValue(u: string)
    requires u == "1"
    ensures Value(u, 4, ["a"], true) == Some(Read(1, Editable, [])) && ValuePlaces(u, 4, ["a"], true) == {}
  {
    assert u[1..] == [];
    assert Lead(InValue, u) == 1;
  }

  lemma NothingLeft()
    ensures RunPlaces([], 5, []) == {}
  {
  }
}
