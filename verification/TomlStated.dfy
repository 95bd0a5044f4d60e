/** The toml scanner records exactly what a file states: every key with the range of its value
    and the reason it must not be replaced, every table header, in order, for every file that
    is written as TOML is (internal/configfile/toml.go: run, header, assign, value,
    inlineTable). */
module TomlStated {
  import opened Text
  import opened TomlSpec
  import opened TomlReads
  import TomlCursor
  import TomlSpell
  import G = TomlGrammar

  // ---- the space in front of things ----

  /** Space in front moves what is read behind it, and nothing else. */
  lemma ItemBehindMoved(g: string, s: string, a: nat)
    requires a <= |s|
    ensures
      ItemBehind(g + s, |g| + a) ==
      match ItemBehind(s, a)
      case End(n) => End(|g| + n)
      case Skip(n) => Skip(|g| + n)
      case Broken => Broken
      case Key(parts, keyEnd, valueAt) => Key(parts, |g| + keyEnd, |g| + valueAt)
  {
    hide Lead, KeyPath, KeyBehind;
    RestMoved(g, s, a);
    if a < |s| {
      KeyBehindMoved(g, s, a, KeyPath(s[a..]));
    }
  }

  lemma KeyBehindMoved(g: string, s: string, a: nat, k: KeyRead)
    requires a + k.n <= |s| && (k.ok ==> 1 <= k.end <= k.n)
    ensures
      KeyBehind(g + s, |g| + a, k) ==
      match KeyBehind(s, a, k)
      case End(n) => End(|g| + n)
      case Skip(n) => Skip(|g| + n)
      case Broken => Broken
      case Key(parts, keyEnd, valueAt) => Key(parts, |g| + keyEnd, |g| + valueAt)
  {
    hide ValueAt;
    ValueAtMoved(g, s, a + k.n);
  }

  lemma RestMoved(g: string, s: string, a: nat)
    requires a <= |s|
    ensures (g + s)[|g| + a..] == s[a..]
    ensures a < |s| ==> (g + s)[|g| + a] == s[a]
  {
  }

  lemma ValueAtMoved(g: string, s: string, n: nat)
    requires n <= |s|
    ensures ValueAt(g + s, |g| + n) == |g| + ValueAt(s, n)
  {
    hide Lead;
    RestMoved(g, s, n);
    var a := n + Gaps(s[n..]);
    RestMoved(g, s, a);
    var b := if a < |s| && s[a] == '=' then a + 1 else a;
    RestMoved(g, s, b);
  }

  lemma ItemsMoved(g: string, s: string, at: int, path: seq<string>, root: bool)
    requires Trivia(g + s) == |g| + Trivia(s)
    ensures Items(g + s, at, path, root) == Later(|g|, [], Items(s, at + |g|, path, root))
  {
    hide *;
    NextIs(s);
    NextIs(g + s);
    ItemBehindMoved(g, s, Trivia(s));
    RestMoved(g, s, 0);
    assert s[0..] == s;
    match NextItem(s)
    case End(n) => ItemEndMoved(g + s, s, |g|, at, path, root);
    case Skip(n) => ItemSkipMoved(g + s, s, |g|, at, path, root);
    case Broken => ItemBrokenMoved(g + s, s, |g|, at, path, root);
    case Key(parts, keyEnd, valueAt) => ItemKeyMoved(g + s, s, |g|, at, path, root);
  }

  lemma ItemEndMoved(t: string, s: string, g: nat, at: int, path: seq<string>, root: bool)
    requires NextItem(s).End? && NextItem(t) == End(g + NextItem(s).n)
    ensures Items(t, at, path, root) == Later(g, [], Items(s, at + g, path, root))
  {
    hide *;
    ItemsIs(s, at + g, path, root);
    ItemsIs(t, at, path, root);
    Ahead(g, Items(s, at + g, path, root));
  }

  lemma ItemBrokenMoved(t: string, s: string, g: nat, at: int, path: seq<string>, root: bool)
    requires NextItem(s).Broken? && NextItem(t).Broken?
    ensures Items(t, at, path, root) == Later(g, [], Items(s, at + g, path, root))
  {
    hide *;
    ItemsIs(s, at + g, path, root);
    ItemsIs(t, at, path, root);
    Ahead(g, Items(s, at + g, path, root));
  }

  lemma ItemSkipMoved(t: string, s: string, g: nat, at: int, path: seq<string>, root: bool)
    requires |t| == g + |s| && t[g..] == s && NextItem(s).Skip? && NextItem(t) == Skip(g + NextItem(s).n)
    ensures Items(t, at, path, root) == Later(g, [], Items(s, at + g, path, root))
  {
    hide *;
    var n := NextItem(s).n;
    ItemsIs(s, at + g, path, root);
    ItemsIs(t, at, path, root);
    Further(t, s, g, n);
    assert at + (g + n) == at + g + n;
    LaterTwice(g, [], n, [], Items(s[n..], at + g + n, path, root));
  }

  lemma ItemKeyMoved(t: string, s: string, g: nat, at: int, path: seq<string>, root: bool)
    requires |t| == g + |s| && t[g..] == s && NextItem(s).Key?
    requires NextItem(t) == Key(NextItem(s).parts, g + NextItem(s).keyEnd, g + NextItem(s).valueAt)
    ensures Items(t, at, path, root) == Later(g, [], Items(s, at + g, path, root))
  {
    hide *;
    var valueAt, keyEnd := NextItem(s).valueAt, NextItem(s).keyEnd;
    ItemsIs(s, at + g, path, root);
    ItemsIs(t, at, path, root);
    Further(t, s, g, valueAt);
    assert at + (g + valueAt) == at + g + valueAt && at + (g + keyEnd) == at + g + keyEnd;
    var a := Assign(s[valueAt..], at + g + valueAt, path + NextItem(s).parts, at + g + keyEnd, root);
    if a.Some? {
      Further(t, s, g, valueAt + a.value.n);
      KeyMoved(g, at, valueAt, a.value.n, a.value.found, Items(s[valueAt + a.value.n..], at + g + valueAt + a.value.n, path, root));
    } else {
      Ahead(g, Items(s, at + g, path, root));
    }
  }

  lemma Further(t: string, s: string, g: nat, k: nat)
    requires |t| == g + |s| && t[g..] == s && k <= |s|
    ensures t[g + k..] == s[k..]
  {
    assert t[g + k..] == t[g..][k..];
  }

  lemma KeyMoved(g: nat, at: int, valueAt: nat, n: nat, found: seq<Found>, rest: Option<Read>)
    ensures at + (g + valueAt + n) == at + g + valueAt + n && at + g + (valueAt + n) == at + g + valueAt + n
    ensures g + valueAt + n == g + (valueAt + n)
    ensures Later(g, [], Later(valueAt + n, found, rest)) == Later(g + valueAt + n, found, rest)
  {
    LaterTwice(g, [], valueAt + n, found, rest);
  }

  lemma NextIs(s: string)
    ensures Trivia(s) <= |s| && NextItem(s) == ItemBehind(s, Trivia(s))
  {
    hide ItemBehind;
  }

  lemma LaterIs(n: nat, found: seq<Found>, rest: Option<Read>)
    ensures Later(n, found, rest) == if rest.None? then None else Some(Read(n + rest.value.n, rest.value.why, found + rest.value.found))
  {
  }

  lemma Ahead(n: nat, rest: Option<Read>)
    ensures Later(n, [], rest) == if rest.None? then None else Some(Read(n + rest.value.n, rest.value.why, rest.value.found))
  {
    assert rest.Some? ==> [] + rest.value.found == rest.value.found;
  }

  lemma LaterTwice(n: nat, a: seq<Found>, m: nat, b: seq<Found>, rest: Option<Read>)
    ensures Later(n, a, Later(m, b, rest)) == Later(n + m, a + b, rest)
    ensures [] + b == b
  {
    if rest.Some? { Grouped(a, b, rest.value.found); }
  }

  lemma TopBehindMoved(g: string, s: string, a: nat)
    requires a <= |s| && (a < |s| ==> s[a] != '\n')
    ensures (|g| + a < |g + s| ==> (g + s)[|g| + a] != '\n')
    ensures
      TopBehind(g + s, |g| + a) ==
      match TopBehind(s, a)
      case Done => Done
      case Over(n) => Over(|g| + n)
      case Table(path, many, h, n) => Top.Table(path, many, |g| + h, |g| + n)
      case Assignment(parts, keyEnd, valueAt) => Assignment(parts, |g| + keyEnd, |g| + valueAt)
  {
    hide KeyPath, Lead, AssignBehind, HeaderLine;
    RestMoved(g, s, a);
    if a < |s| && s[a] != '[' {
      NoHeader(s, a);
      NoHeader(g + s, |g| + a);
      var k := KeyPath(s[a..]);
      RestMoved(g, s, a + k.n);
      if k.ok {
        AssignBehindMoved(g, s, a, k);
      }
      hide TopBehind;
    }
  }

  lemma NoHeader(s: string, a: nat)
    requires a < |s| && s[a] != '\n' && s[a] != '['
    ensures
      var k := KeyPath(s[a..]);
      && a + k.n <= |s| && (k.ok ==> 1 <= k.end <= k.n)
      && TopBehind(s, a) == if k.ok then AssignBehind(s, a, k) else Over(a + k.n + Line(s[a + k.n..]))
  {
    hide KeyPath, Lead, AssignBehind;
  }

  lemma AssignBehindMoved(g: string, s: string, a: nat, k: KeyRead)
    requires a < |s| && s[a] != '\n' && a + k.n <= |s| && 1 <= k.end <= k.n
    ensures (g + s)[|g| + a] != '\n'
    ensures
      AssignBehind(g + s, |g| + a, k) ==
      match AssignBehind(s, a, k)
      case Over(n) => Over(|g| + n)
      case Assignment(parts, keyEnd, valueAt) => Assignment(parts, |g| + keyEnd, |g| + valueAt)
      case t => t
  {
    hide Lead;
    RestMoved(g, s, a);
    var b := a + k.n;
    RestMoved(g, s, b);
    if b < |s| { RestMoved(g, s, b + 1); }
  }

  lemma RunMoved(g: string, s: string, at: int, table: seq<string>)
    requires Trivia(g + s) == |g| + Trivia(s)
    ensures Run(g + s, at, table) == Run(s, at + |g|, table)
  {
    hide *;
    TopIs(s);
    TopIs(g + s);
    TopBehindMoved(g, s, Trivia(s));
    RunIs(s, at + |g|, table);
    RunIs(g + s, at, table);
    match NextTop(s) {
      case Done =>
      case Over(n) =>
        RestMoved(g, s, n);
        assert at + (|g| + n) == at + |g| + n;
      case Table(path, many, h, n) =>
        RestMoved(g, s, n);
        assert at + (|g| + n) == at + |g| + n && at + (|g| + h) == at + |g| + h;
      case Assignment(parts, keyEnd, valueAt) =>
        RestMoved(g, s, valueAt);
        assert at + (|g| + valueAt) == at + |g| + valueAt && at + (|g| + keyEnd) == at + |g| + keyEnd;
        var a := Assign(s[valueAt..], at + |g| + valueAt, table + parts, at + |g| + keyEnd, table == []);
        if a.Some? {
          var n := valueAt + a.value.n;
          RestMoved(g, s, n);
          assert |g| + valueAt + a.value.n == |g| + n && at + (|g| + n) == at + |g| + n;
        }
    }
  }

  lemma TopIs(s: string)
    ensures Trivia(s) <= |s| && (Trivia(s) < |s| ==> s[Trivia(s)] != '\n') && NextTop(s) == TopBehind(s, Trivia(s))
  {
    hide TopBehind;
  }

  // ---- what stands behind a value ----

  /** Space and comments in front of what may stand behind a value may stand there too. */
  lemma {:induction false} FollowsBlanks(bs: seq<G.Blank>, y: string)
    requires G.BlanksFit(bs) && TomlSpell.Follows(y)
    ensures TomlSpell.Follows(G.SpellBlanks(bs) + y)
    decreases |bs|
  {
    var s := G.SpellBlanks(bs) + y;
    hide Lead;
    if bs == [] {
      assert s == y;
    } else {
      assert G.BlankFits(bs[0]);
      var z := G.SpellBlanks(bs[1..]) + y;
      FollowsBlanks(bs[1..], y);
      match bs[0]
      case White(c) =>
        assert s == [c] + z;
        FollowsWhite(c, z);
      case Remark(text) =>
        assert s[0] == '#';
        FollowsAt(s);
    }
  }

  lemma FollowsWhite(c: char, z: string)
    requires c in " \t\r\n" && TomlSpell.Follows(z)
    ensures TomlSpell.Follows([c] + z)
  {
    var s := [c] + z;
    if c == '\n' {
      FollowsAt(s);
    } else {
      GapsMore([c], z);
      hide Lead;
      assert Gaps(z) < |z| ==> s[1 + Gaps(z)] == z[Gaps(z)];
    }
  }

  lemma FollowsAt(s: string)
    requires s != [] && s[0] in "\n#,]}"
    ensures TomlSpell.Follows(s)
  {
    assert Gaps(s) == 0;
  }

  lemma {:induction false} FollowsSpaces(g: string, y: string)
    requires G.IsSpaces(g) && (y == [] || y[0] in "\n#,]}")
    ensures TomlSpell.Follows(g + y)
  {
    assert y != [] ==> !IsGap(y[0]);
    GapsRun(g, y);
    hide Lead;
    assert y != [] ==> (g + y)[|g|] == y[0];
  }

  // ---- values ----

  /** Why value itself refuses: assign adds the reason of a string on several lines. */
  function PlainReason(v: G.Value): Why {
    if v.Line? then Editable else G.Reason(v)
  }

  /** How far value goes: into the spaces behind a bare word. */
  function Reach(v: G.Value, y: string): nat {
    |G.SpellValue(v)| + if v.Word? then Gaps(y) else 0
  }

  lemma ValueEnds(v: G.Value)
    requires G.ValueFits(v)
    ensures
      var s := G.SpellValue(v);
      s != [] && !IsGap(s[0]) && !IsGap(s[|s| - 1]) && s[|s| - 1] != '\n'
  {
    hide G.SpellUnits, G.SpellLongUnits, G.SpellInside, G.SpellEntries, G.InsideFits, G.EntriesFit;
    if v.Word? {
      assert v.text[|v.text| - 1] in v.text;
    }
  }

  /** A text is on several lines when there is a newline in it that does not end it. */
  lemma SpansMeans(w: string, y: string)
    requires w != [] && w[|w| - 1] != '\n'
    ensures Spans(w + y, |w|) <==> '\n' in w
  {
    var s := w + y;
    if '\n' in w {
      var i :| 0 <= i < |w| && w[i] == '\n';
      assert s[i] == '\n';
    }
    if Spans(s, |w|) {
      var i :| 0 <= i < |w| - 1 && s[i] == '\n';
      assert w[i] == '\n';
    }
  }

  lemma {:induction false} ValueIsRead(v: G.Value, y: string, at: int, path: seq<string>, root: bool)
    requires G.ValueFits(v) && TomlSpell.Follows(y)
    ensures
      Reach(v, y) <= |G.SpellValue(v)| + |y| &&
      Value(G.SpellValue(v) + y, at, path, root) == Some(Read(Reach(v, y), PlainReason(v), G.InsideStates(v, at, path, root)))
    decreases v, 0
  {
    hide *;
    if v.Inline? {
      InlineParts(v);
      EntriesAreRead(v.entries, y, at + 1, path, root);
      InlineIsRead(v, y, at, path, root);
    } else {
      LeafIsRead(v, y, at, path, root);
    }
  }

  lemma InlineParts(v: G.Value)
    requires v.Inline? && G.ValueFits(v)
    ensures G.EntriesFit(v.entries)
  {
  }

  lemma InlineIsRead(v: G.Value, y: string, at: int, path: seq<string>, root: bool)
    requires v.Inline? && G.ValueFits(v)
    requires Items(G.SpellEntries(v.entries) + "}" + y, at + 1, path, root)
             == Some(Read(|G.SpellEntries(v.entries)| + 1, Editable, G.EntriesState(v.entries, at + 1, path, root)))
    ensures
      Reach(v, y) == |G.SpellValue(v)| &&
      Value(G.SpellValue(v) + y, at, path, root) == Some(Read(Reach(v, y), PlainReason(v), G.InsideStates(v, at, path, root)))
  {
    hide Items, G.EntriesState, G.SpellEntries, G.EntriesFit, Value, Spans, Lead;
    var w := G.SpellValue(v);
    var s := w + y;
    assert w == "{" + G.SpellEntries(v.entries) + "}";
    assert s[0] == '{' && s[1..] == G.SpellEntries(v.entries) + "}" + y;
    ValueIsTable(s, at, path, root);
    SpansMeans(w, y);
    var found := G.EntriesState(v.entries, at + 1, path, root);
    assert Marked(found) == G.Barred(found);
  }

  lemma LeafIsRead(v: G.Value, y: string, at: int, path: seq<string>, root: bool)
    requires G.ValueFits(v) && !v.Inline? && TomlSpell.Follows(y)
    ensures
      Reach(v, y) <= |G.SpellValue(v)| + |y| &&
      Value(G.SpellValue(v) + y, at, path, root) == Some(Read(Reach(v, y), PlainReason(v), G.InsideStates(v, at, path, root)))
  {
    TomlSpell.NoQuote(y);
    hide Items, Lead, Bracketed, Quoted, Multiline, Spans, G.SpellUnits, G.SpellLongUnits, G.SpellInside, G.SpellEntries, G.EntriesFit, G.InsideFits;
    var s := G.SpellValue(v) + y;
    match v
    case Word(text) =>
      assert text[0] in text;
      TomlSpell.BareRead(text, y);
      assert s[0] == text[0];
      assert !Triple(s);
    case Line(q) =>
      FollowsNoQuote(y);
      StrRead(q, y);
    case Lines(l) =>
      LongRead(l, y);
    case Array(items) =>
      ArrayIsRead(items, y);
      SpansMeans(G.SpellValue(v), y);
      assert !Triple(s);
  }

  lemma FollowsNoQuote(y: string)
    requires TomlSpell.Follows(y)
    ensures y != [] ==> !IsQuote(y[0])
  {
    hide Lead;
    assert y != [] && Gaps(y) > 0 ==> IsGap(y[0]);
  }

  lemma ArrayIsRead(items: G.Inside, y: string)
    requires G.InsideFits(items)
    ensures
      var w := "[" + G.SpellInside(items) + "]";
      w + y != [] && (w + y)[0] == '[' && Bracketed(w + y, 0) == Some(|w|)
  {
    hide *;
    var i := G.SpellInside(items);
    var z := "]" + y;
    Behind("]", y);
    InsideRead(items, z, 1);
    CloseOver(']', y, 1);
    OpenOver('[', i + z, 0);
    Grouped(i, "]", y);
    Grouped("[", i + "]", y);
    Grouped("[", i, "]");
    PlusSome(|i|);
  }

  lemma PlusSome(n: nat)
    ensures Plus(1, Plus(n, Some(1))) == Some(n + 2)
  {
  }

  lemma {:induction false} AssignIsRead(v: G.Value, y: string, at: int, path: seq<string>, keyEnd: int, root: bool)
    requires G.ValueFits(v) && TomlSpell.Follows(y)
    ensures
      Reach(v, y) <= |G.SpellValue(v)| + |y| &&
      Assign(G.SpellValue(v) + y, at, path, keyEnd, root) == Some(Read(Reach(v, y), G.Reason(v), G.ValueStates(v, at, path, keyEnd, root)))
    decreases v, 1
  {
    hide *;
    ValueIsRead(v, y, at, path, root);
    AssignIs(G.SpellValue(v) + y, at, path, keyEnd, root);
    RecordIsRead(v, y, at, path, keyEnd, root);
  }

  lemma RecordIsRead(v: G.Value, y: string, at: int, path: seq<string>, keyEnd: int, root: bool)
    requires G.ValueFits(v) && TomlSpell.Follows(y) && Reach(v, y) <= |G.SpellValue(v) + y|
    ensures
      var r := Some(Read(Reach(v, y), PlainReason(v), G.InsideStates(v, at, path, root)));
      Recorded(G.SpellValue(v) + y, at, path, keyEnd, root, r) == Some(Read(Reach(v, y), G.Reason(v), G.ValueStates(v, at, path, keyEnd, root)))
  {
    ValueEnds(v);
    hide *;
    var w := G.SpellValue(v);
    EndOfWord(w, y, Reach(v, y)) by { ReachIs(v, y); }
    SpansMeans(w, y);
    ReasonIs(v);
    RecordedWith(w + y, at, path, keyEnd, root, Read(Reach(v, y), PlainReason(v), G.InsideStates(v, at, path, root)));
    StatesIs(v, at, path, keyEnd, root);
  }

  lemma ReasonIs(v: G.Value)
    requires G.ValueFits(v)
    ensures G.Reason(v) == if PlainReason(v) == Editable && '\n' in G.SpellValue(v) then SpanningValue else PlainReason(v)
  {
    hide G.SpellStr, G.SpellLong, G.SpellInside, G.SpellEntries;
  }

  lemma StatesIs(v: G.Value, at: int, path: seq<string>, keyEnd: int, root: bool)
    ensures G.ValueStates(v, at, path, keyEnd, root)
            == G.InsideStates(v, at, path, root) + [Found(path, keyEnd, at, at + |G.SpellValue(v)|, G.Reason(v), root)]
  {
    hide G.InsideStates, G.SpellValue, G.Reason;
  }

  lemma RecordedWith(s: string, at: int, path: seq<string>, keyEnd: int, root: bool, r: Read)
    requires r.n <= |s|
    ensures
      var end := ValueEnd(s, r.n);
      var why := if r.why == Editable && Spans(s, end) then SpanningValue else r.why;
      Recorded(s, at, path, keyEnd, root, Some(r)) == Some(Read(r.n, why, r.found + [Found(path, keyEnd, at, at + end, why, root)]))
  {
    hide Spans, ValueEnd;
  }

  lemma EndOfWord(w: string, y: string, n: nat)
    requires w != [] && !IsGap(w[|w| - 1]) && (n == |w| || n == |w| + Gaps(y)) && n <= |w + y|
    ensures ValueEnd(w + y, n) == |w|
  {
    hide Lead, Trail;
    var t := (w + y)[..n];
    forall i | |w| <= i < n ensures IsGap(t[i]) { assert t[i] == y[i - |w|]; }
    assert t[|w| - 1] == w[|w| - 1];
    TomlCursor.TrailIs(IsGap, t, n - |w|);
  }

  // ---- keys ----

  /** A key without the spaces in front of it. */
  function Flush(k: seq<G.Piece>): seq<G.Piece>
    requires k != []
  {
    [k[0].(before := "")] + k[1..]
  }

  lemma FlushIs(k: seq<G.Piece>)
    requires G.KeyFits(k)
    ensures k != [] && G.IsSpaces(k[0].before) && G.KeyFits(Flush(k)) && G.Names(Flush(k)) == G.Names(k)
    ensures G.SpellKey(k) == k[0].before + G.SpellKey(Flush(k))
    ensures |G.SpellKey(G.Tight(k))| == |k[0].before| + |G.SpellKey(G.Tight(Flush(k)))|
    ensures G.SpellKey(Flush(k)) != [] && (IsBare(G.SpellKey(Flush(k))[0]) || IsQuote(G.SpellKey(Flush(k))[0]))
  {
    FlushFits(k);
    FlushNames(k);
    hide *;
    FlushSpelled(k);
  }

  lemma FlushFits(k: seq<G.Piece>)
    requires G.KeyFits(k)
    ensures k != [] && G.PieceFits(k[0]) && G.IsSpaces(k[0].before) && G.KeyFits(Flush(k))
  {
    assert G.PieceFits(k[0]);
    hide G.StrFits;
    assert G.PieceFits(k[0].(before := ""));
    hide G.PieceFits;
    var f := Flush(k);
    forall i | 0 <= i < |f| ensures G.PieceFits(f[i]) { assert i > 0 ==> f[i] == k[i] && G.PieceFits(k[i]); }
  }

  lemma FlushNames(k: seq<G.Piece>)
    requires k != []
    ensures G.Names(Flush(k)) == G.Names(k)
  {
    hide G.NameOf;
    var f := Flush(k);
    assert forall i :: 1 <= i < |k| ==> f[i] == k[i];
  }

  lemma FlushSpelled(k: seq<G.Piece>)
    requires k != [] && G.PieceFits(k[0])
    ensures G.SpellKey(k) == k[0].before + G.SpellKey(Flush(k))
    ensures |G.SpellKey(G.Tight(k))| == |k[0].before| + |G.SpellKey(G.Tight(Flush(k)))|
    ensures G.SpellKey(Flush(k)) != [] && (IsBare(G.SpellKey(Flush(k))[0]) || IsQuote(G.SpellKey(Flush(k))[0]))
  {
    var f := Flush(k);
    assert f[1..] == k[1..] && f[0] == k[0].(before := "") && |f| == |k|;
    assert G.Piece(k[0].before, k[0].part, k[0].after) == k[0];
    hide *;
    PartOpens(k[0].part, k[0].before, k[0].after);
    SpelledKey(k);
    SpelledKey(f);
    FirstFlush(k[0], if |k| == 1 then "" else "." + G.SpellKey(k[1..]));
    if |k| > 1 {
      Grouped(k[0].before, G.SpellPiece(f[0]), "." + G.SpellKey(k[1..]));
      Grouped(G.SpellPiece(k[0]), ".", G.SpellKey(k[1..]));
      Grouped(G.SpellPiece(f[0]), ".", G.SpellKey(k[1..]));
    }
  }

  lemma FirstFlush(p: G.Piece, rest: string)
    requires G.SpellPart(p.part) != []
    ensures
      var f := p.(before := "");
      && G.SpellPiece(p) == p.before + G.SpellPiece(f) && G.SpellPiece(f) != []
      && G.SpellPiece(f)[0] == (G.SpellPiece(f) + rest)[0] == G.SpellPart(p.part)[0]
      && |G.SpellPiece(p)| == |p.before| + |G.SpellPiece(f)|
  {
    hide G.SpellPart;
    var part := G.SpellPart(p.part);
    assert "" + part + p.after == part + p.after;
    assert p.before + part + p.after == p.before + (part + p.after);
  }

  lemma PartOpens(p: G.Part, before: string, after: string)
    requires G.PieceFits(G.Piece(before, p, after))
    ensures G.SpellPart(p) != [] && (IsBare(G.SpellPart(p)[0]) || IsQuote(G.SpellPart(p)[0]))
  {
    if p.Bare? { assert p.name[0] in p.name; }
  }

  /** A key, an "=" and spaces, and then a value: what NextItem and NextTop make of it. */
  lemma KeyAndValue(k: seq<G.Piece>, gap: string, z: string)
    requires G.KeyFits(k) && k[0].before == "" && G.IsSpaces(gap) && z != [] && !IsGap(z[0])
    ensures
      var s, n := G.SpellKey(k) + ("=" + (gap + z)), |G.SpellKey(k)|;
      && NextItem(s) == Key(G.Names(k), |G.SpellKey(G.Tight(k))|, n + 1 + |gap|)
      && NextTop(s) == Assignment(G.Names(k), |G.SpellKey(G.Tight(k))|, n + 1 + |gap|)
      && n + 1 + |gap| <= |s| && s[n + 1 + |gap|..] == z
  {
    hide *;
    var s := G.SpellKey(k) + ("=" + (gap + z));
    AfterEquals(G.SpellKey(k), gap, z);
    KeyInFront(k, gap, z);
    TopIs(s);
    NextIs(s);
    ItemOfKey(s, KeyPath(s), |gap|);
    TopOfKey(s, KeyPath(s), |gap|);
  }

  lemma KeyInFront(k: seq<G.Piece>, gap: string, z: string)
    requires G.KeyFits(k) && k[0].before == "" && G.IsSpaces(gap) && z != [] && !IsGap(z[0])
    ensures
      var s, n := G.SpellKey(k) + ("=" + (gap + z)), |G.SpellKey(k)|;
      && KeyPath(s) == KeyRead(true, G.Names(k), |G.SpellKey(G.Tight(k))|, n)
      && s != [] && s[0] != '}' && s[0] != ',' && s[0] != '[' && s[0] != '\n' && Trivia(s) == 0
      && Gaps(gap + z) == |gap|
  {
    var w, y := G.SpellKey(k), "=" + (gap + z);
    assert EndsKey(y);
    hide *;
    UnflushedIs(k);
    FlushIs(k);
    KeyIsRead(k, y);
    GapsRun(gap, z);
    KeyBytes(w, y);
  }

  lemma AfterEquals(w: string, gap: string, z: string)
    ensures
      var s, n := w + ("=" + (gap + z)), |w|;
      && n + 1 + |gap| + |z| == |s| && s[n] == '='
      && s[n + 1..] == gap + z && s[n + 1 + |gap|..] == z
  {
  }

  lemma UnflushedIs(k: seq<G.Piece>)
    requires G.KeyFits(k) && k[0].before == ""
    ensures k != [] && Flush(k) == k
  {
  }

  lemma KeyBytes(w: string, y: string)
    requires w != [] && (IsBare(w[0]) || IsQuote(w[0]))
    ensures var s := w + y; s != [] && s[0] == w[0] && s[0] != '}' && s[0] != ',' && s[0] != '[' && s[0] != '\n' && Trivia(s) == 0
  {
    TomlCursor.TriviaOne(w + y);
  }

  lemma ItemOfKey(s: string, k: KeyRead, gap: nat)
    requires s != [] && s[0] != '}' && s[0] != ',' && k == KeyPath(s) && k.ok
    requires k.n < |s| && s[k.n] == '=' && Gaps(s[k.n + 1..]) == gap
    ensures ItemBehind(s, 0) == Key(k.parts, k.end, k.n + 1 + gap)
  {
    hide KeyPath;
    assert s[0..] == s;
    assert Gaps(s[k.n..]) == 0;
  }

  lemma TopOfKey(s: string, k: KeyRead, gap: nat)
    requires s != [] && s[0] != '[' && s[0] != '\n' && k == KeyPath(s) && k.ok
    requires k.n < |s| && s[k.n] == '=' && Gaps(s[k.n + 1..]) == gap
    ensures TopBehind(s, 0) == Assignment(k.parts, k.end, k.n + 1 + gap)
  {
    hide KeyPath, Lead;
    assert s[0..] == s;
  }

  // ---- inline tables ----

  lemma {:induction false} EntriesAreRead(e: G.Entries, y: string, at: int, path: seq<string>, root: bool)
    requires G.EntriesFit(e)
    ensures Items(G.SpellEntries(e) + "}" + y, at, path, root) == Some(Read(|G.SpellEntries(e)| + 1, Editable, G.EntriesState(e, at, path, root)))
    decreases e, 0
  {
    hide *;
    EntriesAre(e, at, path, root);
    match e
    case Last(tail) =>
      BlanksRead(tail, "}" + y);
      ItemsMoved(G.SpellBlanks(tail), "}" + y, at, path, root);
      BraceEnds(y, at + |G.SpellBlanks(tail)|, path, root);
      Grouped(G.SpellBlanks(tail), "}", y);
      Ahead(|G.SpellBlanks(tail)|, Items("}" + y, at + |G.SpellBlanks(tail)|, path, root));
    case Entry(lead, key, gap, value, tail, rest) =>
      var comma := if rest.Entry? then "," else "";
      var z := G.SpellBlanks(tail) + (comma + (G.SpellEntries(rest) + "}" + y));
      var start := at + |G.SpellBlanks(lead)| + |G.SpellKey(key)| + 1 + |gap|;
      var end := start + |G.SpellValue(value)|;
      EntriesAreRead(rest, y, end + |G.SpellBlanks(tail)| + |comma|, path, root);
      RestIsRead(tail, rest, y, end, path, root);
      AssignIsRead(value, z, start, path + G.Names(key), at + |G.SpellBlanks(lead)| + |G.SpellKey(G.Tight(key))|, root);
      EntryIsRead(lead, key, gap, value, z, at, path, root);
      LaterIs(|G.SpellBlanks(lead)| + |G.SpellKey(key)| + 1 + |gap| + |G.SpellValue(value)|,
              G.ValueStates(value, start, path + G.Names(key), at + |G.SpellBlanks(lead)| + |G.SpellKey(G.Tight(key))|, root), Items(z, end, path, root));
      Regrouped(G.SpellBlanks(lead), G.SpellKey(key), gap, G.SpellValue(value), G.SpellBlanks(tail), comma, G.SpellEntries(rest), y);
  }

  lemma EntriesAre(e: G.Entries, at: int, path: seq<string>, root: bool)
    requires G.EntriesFit(e)
    ensures
      match e
      case Last(tail) => G.BlanksFit(tail) && G.SpellEntries(e) == G.SpellBlanks(tail) && G.EntriesState(e, at, path, root) == []
      case Entry(lead, key, gap, value, tail, rest) =>
        var comma := if rest.Entry? then "," else "";
        var start := at + |G.SpellBlanks(lead)| + |G.SpellKey(key)| + 1 + |gap|;
        && G.BlanksFit(lead) && G.KeyFits(key) && key != [] && G.IsSpaces(gap) && G.ValueFits(value) && G.BlanksFit(tail) && G.EntriesFit(rest)
        && G.SpellEntries(e) == G.SpellBlanks(lead) + G.SpellKey(key) + "=" + gap + G.SpellValue(value) + G.SpellBlanks(tail) + comma + G.SpellEntries(rest)
        && |G.SpellEntries(e)| == |G.SpellBlanks(lead)| + |G.SpellKey(key)| + 1 + |gap| + |G.SpellValue(value)| + |G.SpellBlanks(tail)| + |comma| + |G.SpellEntries(rest)|
        && G.EntriesState(e, at, path, root) ==
           G.ValueStates(value, start, path + G.Names(key), at + |G.SpellBlanks(lead)| + |G.SpellKey(G.Tight(key))|, root)
           + G.EntriesState(rest, start + |G.SpellValue(value)| + |G.SpellBlanks(tail)| + |comma|, path, root)
  {
    hide G.SpellBlanks, G.SpellKey, G.SpellValue, G.ValueFits, G.ValueStates;
  }

  lemma BraceEnds(y: string, at: int, path: seq<string>, root: bool)
    ensures Items("}" + y, at, path, root) == Some(Read(1, Editable, []))
  {
    var s := "}" + y;
    assert s[0] == '}';
    hide Items;
    TomlCursor.TriviaOne(s);
    ItemsIs(s, at, path, root);
  }

  /** Behind a value: the space, the comma when there is one, and the other keys. */
  lemma RestIsRead(tail: seq<G.Blank>, rest: G.Entries, y: string, at: int, path: seq<string>, root: bool)
    requires G.BlanksFit(tail) && G.EntriesFit(rest)
    requires
      var comma := if rest.Entry? then "," else "";
      var from := at + |G.SpellBlanks(tail)| + |comma|;
      Items(G.SpellEntries(rest) + "}" + y, from, path, root) == Some(Read(|G.SpellEntries(rest)| + 1, Editable, G.EntriesState(rest, from, path, root)))
    ensures
      var comma := if rest.Entry? then "," else "";
      var from := at + |G.SpellBlanks(tail)| + |comma|;
      var z := G.SpellBlanks(tail) + (comma + (G.SpellEntries(rest) + "}" + y));
      && TomlSpell.Follows(z)
      && Items(z, at, path, root)
         == Some(Read(|G.SpellBlanks(tail)| + |comma| + |G.SpellEntries(rest)| + 1, Editable, G.EntriesState(rest, from, path, root)))
  {
    hide *;
    var comma := if rest.Entry? then "," else "";
    var r := G.SpellEntries(rest) + "}" + y;
    CommaIsRead(rest, y, at + |G.SpellBlanks(tail)|, path, root);
    BlanksRead(tail, comma + r);
    ItemsMoved(G.SpellBlanks(tail), comma + r, at, path, root);
    Ahead(|G.SpellBlanks(tail)|, Items(comma + r, at + |G.SpellBlanks(tail)|, path, root));
    FollowsBlanks(tail, comma + r);
  }

  lemma CommaIsRead(rest: G.Entries, y: string, at: int, path: seq<string>, root: bool)
    requires G.EntriesFit(rest)
    requires
      var from := at + if rest.Entry? then 1 else 0;
      Items(G.SpellEntries(rest) + "}" + y, from, path, root) == Some(Read(|G.SpellEntries(rest)| + 1, Editable, G.EntriesState(rest, from, path, root)))
    ensures
      var comma := if rest.Entry? then "," else "";
      var z := comma + (G.SpellEntries(rest) + "}" + y);
      && TomlSpell.Follows(z)
      && Items(z, at, path, root) == Some(Read(|comma| + |G.SpellEntries(rest)| + 1, Editable, G.EntriesState(rest, at + |comma|, path, root)))
  {
    hide *;
    var r := G.SpellEntries(rest) + "}" + y;
    if rest.Entry? {
      Behind(",", r);
      FollowsAt("," + r);
      CommaOver(r, at, path, root);
      Ahead(1, Items(r, at + 1, path, root));
    } else {
      Behind("", r);
      EntriesAre(rest, at, path, root);
      Behind("}", y);
      FollowsAt("}" + y);
      FollowsBlanks(rest.tail, "}" + y);
      Grouped(G.SpellBlanks(rest.tail), "}", y);
    }
  }

  lemma CommaOver(r: string, at: int, path: seq<string>, root: bool)
    ensures Items("," + r, at, path, root) == Later(1, [], Items(r, at + 1, path, root))
  {
    var s := "," + r;
    Behind(",", r);
    hide Items;
    TomlCursor.TriviaOne(s);
    ItemsIs(s, at, path, root);
  }

  lemma Regrouped(lead: string, key: string, gap: string, value: string, tail: string, comma: string, rest: string, y: string)
    ensures (lead + key + "=" + gap + value + tail + comma + rest) + "}" + y
            == lead + (key + ("=" + (gap + (value + (tail + (comma + (rest + "}" + y)))))))
  {
    assert rest + "}" + y == rest + ("}" + y);
  }

  /** One key of an inline table, from what is read of its value and of the rest. */
  lemma EntryIsRead(lead: seq<G.Blank>, key: seq<G.Piece>, gap: string, v: G.Value, z: string, at: int, path: seq<string>, root: bool)
    requires G.BlanksFit(lead) && G.KeyFits(key) && key != [] && G.IsSpaces(gap) && G.ValueFits(v) && TomlSpell.Follows(z)
    requires
      var start := at + |G.SpellBlanks(lead)| + |G.SpellKey(key)| + 1 + |gap|;
      var keyEnd := at + |G.SpellBlanks(lead)| + |G.SpellKey(G.Tight(key))|;
      && Reach(v, z) <= |G.SpellValue(v)| + |z|
      && Assign(G.SpellValue(v) + z, start, path + G.Names(key), keyEnd, root)
         == Some(Read(Reach(v, z), G.Reason(v), G.ValueStates(v, start, path + G.Names(key), keyEnd, root)))
      && Items(z, start + |G.SpellValue(v)|, path, root).Some?
    ensures
      var start := at + |G.SpellBlanks(lead)| + |G.SpellKey(key)| + 1 + |gap|;
      var keyEnd := at + |G.SpellBlanks(lead)| + |G.SpellKey(G.Tight(key))|;
      Items(G.SpellBlanks(lead) + (G.SpellKey(key) + ("=" + (gap + (G.SpellValue(v) + z)))), at, path, root)
      == Later(|G.SpellBlanks(lead)| + |G.SpellKey(key)| + 1 + |gap| + |G.SpellValue(v)|,
               G.ValueStates(v, start, path + G.Names(key), keyEnd, root), Items(z, start + |G.SpellValue(v)|, path, root))
  {
    hide *;
    var before, f := key[0].before, Flush(key);
    FlushIs(key);
    FlushAgain(key);
    var l, w := |G.SpellBlanks(lead)|, G.SpellValue(v) + z;
    var s := G.SpellKey(f) + ("=" + (gap + w));
    var start := at + l + |G.SpellKey(key)| + 1 + |gap|;
    BlanksRead(lead, before + s);
    ItemsMoved(G.SpellBlanks(lead), before + s, at, path, root);
    SpacesRead(before, s);
    ItemsMoved(before, s, at + l, path, root);
    Grouped(before, G.SpellKey(f), "=" + (gap + w));
    Ahead(l, Items(before + s, at + l, path, root));
    Ahead(|before|, Items(s, at + l + |before|, path, root));
    FlushIsRead(f, gap, v, z, at + l + |before|, path, root);
    LaterIs(|G.SpellKey(f)| + 1 + |gap| + |G.SpellValue(v)|, G.ValueStates(v, start, path + G.Names(key), at + l + |G.SpellKey(G.Tight(key))|, root), Items(z, start + |G.SpellValue(v)|, path, root));
    LaterIs(l + |G.SpellKey(key)| + 1 + |gap| + |G.SpellValue(v)|, G.ValueStates(v, start, path + G.Names(key), at + l + |G.SpellKey(G.Tight(key))|, root), Items(z, start + |G.SpellValue(v)|, path, root));
  }

  /** The same for a key with no space in front of it. */
  lemma FlushIsRead(key: seq<G.Piece>, gap: string, v: G.Value, z: string, at: int, path: seq<string>, root: bool)
    requires G.KeyFits(key) && key != [] && key[0].before == "" && G.IsSpaces(gap) && G.ValueFits(v)
    requires
      var start := at + |G.SpellKey(key)| + 1 + |gap|;
      var keyEnd := at + |G.SpellKey(G.Tight(key))|;
      && Reach(v, z) <= |G.SpellValue(v)| + |z|
      && Assign(G.SpellValue(v) + z, start, path + G.Names(key), keyEnd, root)
         == Some(Read(Reach(v, z), G.Reason(v), G.ValueStates(v, start, path + G.Names(key), keyEnd, root)))
      && Items(z, start + |G.SpellValue(v)|, path, root).Some?
    ensures
      var start := at + |G.SpellKey(key)| + 1 + |gap|;
      var keyEnd := at + |G.SpellKey(G.Tight(key))|;
      Items(G.SpellKey(key) + ("=" + (gap + (G.SpellValue(v) + z))), at, path, root)
      == Later(|G.SpellKey(key)| + 1 + |gap| + |G.SpellValue(v)|,
               G.ValueStates(v, start, path + G.Names(key), keyEnd, root), Items(z, start + |G.SpellValue(v)|, path, root))
  {
    hide *;
    var w, m := G.SpellValue(v) + z, |G.SpellValue(v)|;
    var s := G.SpellKey(key) + ("=" + (gap + w));
    var valueAt := |G.SpellKey(key)| + 1 + |gap|;
    ValueEnds(v);
    Behind(G.SpellValue(v), z);
    KeyAndValue(key, gap, w);
    var a := Assign(w, at + valueAt, path + G.Names(key), at + |G.SpellKey(G.Tight(key))|, root).value;
    SkippedGaps(v, z, at + valueAt + m, path, root);
    ItemsOfKey(s, w, z, m, Reach(v, z) - m, at, path, root, G.Names(key), |G.SpellKey(G.Tight(key))|, valueAt, a);
  }

  /** One key of an inline table whose value is m bytes, and extra spaces behind it. */
  lemma ItemsOfKey(s: string, w: string, z: string, m: nat, extra: nat, at: int, path: seq<string>, root: bool, parts: seq<string>, keyEnd: nat, valueAt: nat, a: Read)
    requires NextItem(s) == Key(parts, keyEnd, valueAt) && valueAt <= |s| && s[valueAt..] == w && m <= |w| && w[m..] == z && extra <= |z|
    requires Assign(w, at + valueAt, path + parts, at + keyEnd, root) == Some(a) && a.n == m + extra
    requires Items(z, at + valueAt + m, path, root) == Later(extra, [], Items(z[extra..], at + valueAt + m + extra, path, root))
    ensures Items(s, at, path, root) == Later(valueAt + m, a.found, Items(z, at + valueAt + m, path, root))
  {
    hide *;
    ItemsIs(s, at, path, root);
    CutValue(s, w, valueAt, z, m, extra);
    WordSpaces(at, valueAt, m, extra, a.found, Items(z[extra..], at + valueAt + m + extra, path, root));
  }

  lemma WordSpaces(at: int, valueAt: nat, m: nat, extra: nat, found: seq<Found>, inner: Option<Read>)
    ensures valueAt + (m + extra) == valueAt + m + extra && at + (valueAt + m + extra) == at + valueAt + m + extra
    ensures Later(valueAt + (m + extra), found, inner) == Later(valueAt + m, found, Later(extra, [], inner))
  {
    LaterTwice(valueAt + m, found, extra, [], inner);
    assert found + [] == found;
  }

  lemma FlushAgain(k: seq<G.Piece>)
    requires k != []
    ensures Flush(k) != [] && Flush(k)[0].before == ""
  {
  }

  lemma ReachIs(v: G.Value, y: string)
    ensures Reach(v, y) == |G.SpellValue(v)| || Reach(v, y) == |G.SpellValue(v)| + Gaps(y)
  {
  }

  lemma CutValue(s: string, w: string, valueAt: nat, z: string, m: nat, k: nat)
    requires valueAt <= |s| && s[valueAt..] == w && m <= |w| && w[m..] == z && k <= |z|
    ensures |s| == valueAt + |w| && |w| == m + |z|
    ensures s[valueAt + (m + k)..] == z[k..]
  {
    assert s[valueAt + (m + k)..] == s[valueAt..][m + k..];
    assert w[m + k..] == w[m..][k..];
  }

  /** The spaces a bare word runs over are stepped over in any case. */
  lemma SkippedGaps(v: G.Value, z: string, at: int, path: seq<string>, root: bool)
    requires Reach(v, z) <= |G.SpellValue(v)| + |z|
    ensures
      var extra := Reach(v, z) - |G.SpellValue(v)|;
      && 0 <= extra <= |z|
      && Items(z, at, path, root) == Later(extra, [], Items(z[extra..], at + extra, path, root))
  {
    hide *;
    ReachIs(v, z);
    var extra := Reach(v, z) - |G.SpellValue(v)|;
    assert z == z[..extra] + z[extra..];
    GapsAre(z, extra);
    SpacesRead(z[..extra], z[extra..]);
    ItemsMoved(z[..extra], z[extra..], at, path, root);
  }

  lemma GapsAre(z: string, n: nat)
    requires n <= Gaps(z)
    ensures n <= |z| && G.IsSpaces(z[..n])
  {
    hide Lead;
    TomlCursor.GapsInside(z);
    forall c | c in z[..n] ensures c in " \t\r" {
      var i :| 0 <= i < n && z[..n][i] == c;
      assert IsGap(z[i]);
    }
  }

  // ---- files ----

  /** What ends a statement: the end of the file or of the line. */
  predicate EndsLine(y: string) {
    y == [] || y[0] == '\n'
  }

  lemma RemarkMoved(r: Option<string>, y: string, at: int, table: seq<string>)
    requires G.RemarkFits(r) && EndsLine(y)
    ensures Run(G.SpellRemark(r) + y, at, table) == Run(y, at + |G.SpellRemark(r)|, table)
  {
    hide Run;
    if r.Some? {
      RemarkRead(r.value, y);
      RunMoved("#" + r.value, y, at, table);
    } else {
      Behind("", y);
    }
  }

  lemma SpacesMoved(g: string, y: string, at: int, table: seq<string>)
    requires G.IsSpaces(g)
    ensures Run(g + y, at, table) == Run(y, at + |g|, table)
  {
    hide *;
    SpacesRead(g, y);
    RunMoved(g, y, at, table);
  }

  lemma HeaderIsRead(many: bool, key: seq<G.Piece>, behind: string, y: string, at: int, table: seq<string>)
    requires G.KeyFits(key) && '\n' !in behind && EndsLine(y)
    ensures
      var open := if many then "[[" else "[";
      var w := open + G.SpellKey(key) + "]" + behind;
      Run(w + y, at, table)
      == Then([], [Header(G.Names(key), at + |open| + |G.SpellKey(key)|, many)], Run(y, at + |w|, G.Names(key)))
  {
    var open := if many then "[[" else "[";
    hide *;
    var s := open + G.SpellKey(key) + "]" + behind + y;
    HeaderText(open, G.SpellKey(key), behind, y);
    HeaderCuts(open, G.SpellKey(key), behind, y);
    HeaderTop(many, key, behind, y);
    RunIs(s, at, table);
  }

  lemma HeaderTop(many: bool, key: seq<G.Piece>, behind: string, y: string)
    requires G.KeyFits(key) && '\n' !in behind && EndsLine(y)
    ensures
      var open := if many then "[[" else "[";
      NextTop(open + (G.SpellKey(key) + ("]" + behind + y)))
      == Top.Table(G.Names(key), many, |open| + |G.SpellKey(key)|, |open| + |G.SpellKey(key)| + |"]" + behind|)
  {
    hide *;
    HeaderKey(key, behind, y);
    LineIsOver(behind, y);
    KeyedTop(many, G.SpellKey(key), behind, y, KeyPath(G.SpellKey(key) + ("]" + behind + y)));
  }

  lemma HeaderKey(key: seq<G.Piece>, behind: string, y: string)
    requires G.KeyFits(key)
    ensures KeyPath(G.SpellKey(key) + ("]" + behind + y)) == KeyRead(true, G.Names(key), |G.SpellKey(G.Tight(key))|, |G.SpellKey(key)|)
    ensures G.SpellKey(key) != [] && G.SpellKey(key)[0] != '['
  {
    assert EndsKey("]" + behind + y);
    hide *;
    KeyIsRead(key, "]" + behind + y);
    KeyOpens(key);
  }

  lemma KeyedTop(many: bool, w: string, behind: string, y: string, k: KeyRead)
    requires w != [] && w[0] != '[' && k == KeyPath(w + ("]" + behind + y)) && k.ok && k.n == |w|
    requires Line("]" + behind + y) == |"]" + behind|
    ensures
      var open := if many then "[[" else "[";
      NextTop(open + (w + ("]" + behind + y))) == Top.Table(k.parts, many, |open| + |w|, |open| + |w| + |"]" + behind|)
  {
    var open := if many then "[[" else "[";
    var s := open + (w + ("]" + behind + y));
    hide *;
    HeaderCuts(open, w, behind, y);
    HeaderLineIs(s, many, k, |"]" + behind|);
    TableTop(s);
  }

  lemma HeaderText(open: string, key: string, behind: string, y: string)
    ensures open + key + "]" + behind + y == open + (key + ("]" + behind + y))
  {
  }

  lemma HeaderCuts(open: string, key: string, behind: string, y: string)
    requires open == "[[" || open == "["
    ensures
      var s := open + (key + ("]" + behind + y));
      && |s| == |open| + |key| + |"]" + behind| + |y| && |open + key + "]" + behind| == |open| + |key| + |"]" + behind| && s[0] == '['
      && s[|open|..] == key + ("]" + behind + y)
      && s[|open| + |key|..] == "]" + behind + y
      && s[|open| + |key| + |"]" + behind|..] == y
      && (key != [] ==> s[|open|] == key[0]) && (open == "[[" ==> s[1] == '[')
  {
    var s := open + (key + ("]" + behind + y));
    assert s == (open + key) + (("]" + behind) + y);
    assert s == (open + key + ("]" + behind)) + y;
  }

  lemma LineIsOver(behind: string, y: string)
    requires '\n' !in behind && EndsLine(y)
    ensures Line("]" + behind + y) == |"]" + behind|
  {
    LineRun("]" + behind, y);
  }

  lemma KeyOpens(key: seq<G.Piece>)
    requires G.KeyFits(key)
    ensures G.SpellKey(key) != [] && G.SpellKey(key)[0] != '['
  {
    hide *;
    FlushIs(key);
    FirstOf(key[0].before, G.SpellKey(Flush(key)));
  }

  lemma FirstOf(g: string, w: string)
    requires G.IsSpaces(g) && w != [] && (IsBare(w[0]) || IsQuote(w[0]))
    ensures g + w != [] && (g + w)[0] != '['
  {
    assert g != [] ==> g[0] in g;
  }

  lemma HeaderLineIs(s: string, many: bool, k: KeyRead, n: nat)
    requires s != [] && s[0] == '[' && (many ==> |s| >= 2 && s[1] == '[') && (!many ==> |s| >= 2 && s[1] != '[')
    requires var open := if many then 2 else 1; k == KeyPath(s[open..]) && k.ok && open + k.n <= |s| && Line(s[open + k.n..]) == n
    ensures
      var open := if many then 2 else 1;
      HeaderLine(s) == Top.Table(k.parts, many, open + k.n, open + k.n + n)
  {
    hide KeyPath, Lead;
  }

  lemma TableTop(s: string)
    requires s != [] && s[0] == '['
    ensures NextTop(s) == HeaderLine(s)
  {
    hide HeaderLine;
    TomlCursor.TriviaOne(s);
    TopIs(s);
    assert s[0..] == s;
    match HeaderLine(s)
    case Over(n) =>
    case Table(path, many, h, n) =>
  }

  lemma PairIsRead(key: seq<G.Piece>, gap: string, v: G.Value, z: string, at: int, table: seq<string>)
    requires G.KeyFits(key) && key != [] && G.IsSpaces(gap) && G.ValueFits(v) && TomlSpell.Follows(z)
    ensures
      var start := at + |G.SpellKey(key)| + 1 + |gap|;
      var states := G.ValueStates(v, start, table + G.Names(key), at + |G.SpellKey(G.Tight(key))|, table == []);
      Run(G.SpellKey(key) + ("=" + (gap + (G.SpellValue(v) + z))), at, table) == Then(states, [], Run(z, start + |G.SpellValue(v)|, table))
  {
    hide *;
    var before, f := key[0].before, Flush(key);
    FlushIs(key);
    FlushAgain(key);
    var s := G.SpellKey(f) + ("=" + (gap + (G.SpellValue(v) + z)));
    Grouped(before, G.SpellKey(f), "=" + (gap + (G.SpellValue(v) + z)));
    SpacesMoved(before, s, at, table);
    FlushPairIsRead(f, gap, v, z, at + |before|, table);
  }

  lemma FlushPairIsRead(key: seq<G.Piece>, gap: string, v: G.Value, z: string, at: int, table: seq<string>)
    requires G.KeyFits(key) && key != [] && key[0].before == "" && G.IsSpaces(gap) && G.ValueFits(v) && TomlSpell.Follows(z)
    ensures
      var start := at + |G.SpellKey(key)| + 1 + |gap|;
      var states := G.ValueStates(v, start, table + G.Names(key), at + |G.SpellKey(G.Tight(key))|, table == []);
      Run(G.SpellKey(key) + ("=" + (gap + (G.SpellValue(v) + z))), at, table) == Then(states, [], Run(z, start + |G.SpellValue(v)|, table))
  {
    hide *;
    var w, m := G.SpellValue(v) + z, |G.SpellValue(v)|;
    var s := G.SpellKey(key) + ("=" + (gap + w));
    var valueAt := |G.SpellKey(key)| + 1 + |gap|;
    ValueEnds(v);
    Behind(G.SpellValue(v), z);
    KeyAndValue(key, gap, w);
    RunIs(s, at, table);
    AssignIsRead(v, z, at + valueAt, table + G.Names(key), at + |G.SpellKey(G.Tight(key))|, table == []);
    var extra := Reach(v, z) - m;
    RunSkipped(v, z, at + valueAt + m, table);
    CutValue(s, w, valueAt, z, m, extra);
    assert valueAt + Reach(v, z) == valueAt + (m + extra) && at + valueAt + Reach(v, z) == at + valueAt + m + extra;
  }

  lemma RunSkipped(v: G.Value, z: string, at: int, table: seq<string>)
    requires Reach(v, z) <= |G.SpellValue(v)| + |z|
    ensures
      var extra := Reach(v, z) - |G.SpellValue(v)|;
      0 <= extra <= |z| && Run(z, at, table) == Run(z[extra..], at + extra, table)
  {
    hide *;
    ReachIs(v, z);
    var extra := Reach(v, z) - |G.SpellValue(v)|;
    GapsAre(z, extra);
    assert z == z[..extra] + z[extra..];
    SpacesMoved(z[..extra], z[extra..], at, table);
  }

  /** One statement, and then the rest of the file. */
  lemma StatementIsRead(st: G.Statement, y: string, at: int, table: seq<string>)
    requires G.StatementFits(st) && EndsLine(y)
    ensures
      var states := G.StatementStates(st, at, table);
      Run(G.SpellStatement(st) + y, at, table)
      == Then(states.assigns, states.headers, Run(y, at + |G.SpellStatement(st)|, if st.Table? then G.Names(st.key) else table))
  {
    hide *;
    match st
    case Empty(_, _) => EmptyIsRead(st, y, at, table);
    case Table(_, _, _, _) => TableIsRead(st, y, at, table);
    case Pair(lead, key, gap, value, tail, remark) =>
      PairParts(st, at, table);
      PairStatement(lead, key, gap, value, tail, remark, y, at, table);
  }

  lemma EmptyIsRead(st: G.Statement, y: string, at: int, table: seq<string>)
    requires st.Empty? && G.StatementFits(st) && EndsLine(y)
    ensures
      var states := G.StatementStates(st, at, table);
      Run(G.SpellStatement(st) + y, at, table) == Then(states.assigns, states.headers, Run(y, at + |G.SpellStatement(st)|, table))
  {
    hide *;
    var lead, note := st.lead, G.SpellRemark(st.remark);
    EmptyStates(st, at, table);
    Grouped(lead, note, y);
    SpacesMoved(lead, note + y, at, table);
    RemarkMoved(st.remark, y, at + |lead|, table);
    ThenNothing(Run(y, at + |lead| + |note|, table));
  }

  lemma TableIsRead(st: G.Statement, y: string, at: int, table: seq<string>)
    requires st.Table? && G.StatementFits(st) && EndsLine(y)
    ensures
      var states := G.StatementStates(st, at, table);
      Run(G.SpellStatement(st) + y, at, table) == Then(states.assigns, states.headers, Run(y, at + |G.SpellStatement(st)|, G.Names(st.key)))
  {
    hide *;
    var lead, open, key := st.lead, if st.many then "[[" else "[", G.SpellKey(st.key);
    TableStates(st, at, table);
    var w := open + key + "]" + st.behind;
    Grouped(lead, w, y);
    SpacesMoved(lead, w + y, at, table);
    HeaderIsRead(st.many, st.key, st.behind, y, at + |lead|, table);
  }

  lemma EmptyStates(st: G.Statement, at: int, table: seq<string>)
    requires st.Empty? && G.StatementFits(st)
    ensures G.IsSpaces(st.lead) && G.RemarkFits(st.remark)
    ensures G.SpellStatement(st) == st.lead + G.SpellRemark(st.remark) && G.StatementStates(st, at, table) == Scan([], [])
  {
    hide G.SpellRemark, G.IsSpaces, G.RemarkFits;
  }

  lemma TableStates(st: G.Statement, at: int, table: seq<string>)
    requires st.Table? && G.StatementFits(st)
    ensures G.IsSpaces(st.lead) && G.KeyFits(st.key) && '\n' !in st.behind
    ensures
      var open := if st.many then "[[" else "[";
      && G.SpellStatement(st) == st.lead + (open + G.SpellKey(st.key) + "]" + st.behind)
      && G.StatementStates(st, at, table) == Scan([], [Header(G.Names(st.key), at + |st.lead| + |open| + |G.SpellKey(st.key)|, st.many)])
  {
    hide G.SpellKey, G.Names, G.KeyFits, G.IsSpaces;
    var open := if st.many then "[[" else "[";
    assert |open| == if st.many then 2 else 1;
    assert st.lead + open + G.SpellKey(st.key) + "]" + st.behind == st.lead + (open + G.SpellKey(st.key) + "]" + st.behind);
  }

  lemma ThenNothing(rest: Option<Scan>)
    ensures Then([], [], rest) == rest
  {
    TomlCursor.ThenNone(rest);
  }

  lemma PairParts(st: G.Statement, at: int, table: seq<string>)
    requires st.Pair? && G.StatementFits(st)
    ensures G.IsSpaces(st.lead) && G.KeyFits(st.key) && st.key != [] && G.IsSpaces(st.gap) && G.ValueFits(st.value) && G.IsSpaces(st.tail) && G.RemarkFits(st.remark)
    ensures G.SpellStatement(st) == st.lead + G.SpellKey(st.key) + "=" + st.gap + G.SpellValue(st.value) + st.tail + G.SpellRemark(st.remark)
    ensures
      G.StatementStates(st, at, table)
      == Scan(G.ValueStates(st.value, at + |st.lead| + |G.SpellKey(st.key)| + 1 + |st.gap|, table + G.Names(st.key), at + |st.lead| + |G.SpellKey(G.Tight(st.key))|, table == []), [])
  {
    hide G.SpellKey, G.SpellValue, G.ValueStates, G.ValueFits, G.Names, G.Tight;
  }

  lemma PairStatement(lead: string, key: seq<G.Piece>, gap: string, v: G.Value, tail: string, remark: Option<string>, y: string, at: int, table: seq<string>)
    requires G.IsSpaces(lead) && G.KeyFits(key) && key != [] && G.IsSpaces(gap) && G.ValueFits(v) && G.IsSpaces(tail) && G.RemarkFits(remark) && EndsLine(y)
    ensures
      var start := at + |lead| + |G.SpellKey(key)| + 1 + |gap|;
      var states := G.ValueStates(v, start, table + G.Names(key), at + |lead| + |G.SpellKey(G.Tight(key))|, table == []);
      var w := lead + G.SpellKey(key) + "=" + gap + G.SpellValue(v) + tail + G.SpellRemark(remark);
      Run(w + y, at, table) == Then(states, [], Run(y, at + |w|, table))
  {
    hide *;
    var note := G.SpellRemark(remark);
    var z := tail + (note + y);
    TailIsRead(tail, remark, y, at + |lead| + |G.SpellKey(key)| + 1 + |gap| + |G.SpellValue(v)|, table);
    var body := G.SpellKey(key) + ("=" + (gap + (G.SpellValue(v) + z)));
    PairText(lead, G.SpellKey(key), gap, G.SpellValue(v), tail, note, y);
    SpacesMoved(lead, body, at, table);
    PairIsRead(key, gap, v, z, at + |lead|, table);
  }

  lemma TailIsRead(tail: string, remark: Option<string>, y: string, at: int, table: seq<string>)
    requires G.IsSpaces(tail) && G.RemarkFits(remark) && EndsLine(y)
    ensures
      var z := tail + (G.SpellRemark(remark) + y);
      TomlSpell.Follows(z) && Run(z, at, table) == Run(y, at + |tail| + |G.SpellRemark(remark)|, table)
  {
    hide *;
    RemarkOrEnd(remark, y);
    FollowsSpaces(tail, G.SpellRemark(remark) + y);
    SpacesMoved(tail, G.SpellRemark(remark) + y, at, table);
    RemarkMoved(remark, y, at + |tail|, table);
  }

  lemma RemarkOrEnd(remark: Option<string>, y: string)
    requires G.RemarkFits(remark) && EndsLine(y)
    ensures var z := G.SpellRemark(remark) + y; z == [] || z[0] in "\n#,]}"
  {
    if remark.None? { assert G.SpellRemark(remark) + y == y; }
  }

  lemma PairText(lead: string, key: string, gap: string, value: string, tail: string, note: string, y: string)
    ensures (lead + key + "=" + gap + value + tail + note) + y == lead + (key + ("=" + (gap + (value + (tail + (note + y))))))
    ensures |lead + key + "=" + gap + value + tail + note| == |lead| + |key| + 1 + |gap| + |value| + |tail| + |note|
  {
  }

  lemma {:induction false} FileIsRead(ss: seq<G.Statement>, at: int, table: seq<string>)
    requires G.FileFits(ss)
    ensures Run(G.SpellFile(ss), at, table) == Some(G.FileStates(ss, at, table))
    decreases |ss|
  {
    hide Run, G.SpellStatement, G.StatementStates, G.Names, G.StatementFits;
    if ss == [] {
      RunIs([], at, table);
      TomlCursor.TriviaOne([]);
      TopIs([]);
    } else {
      assert G.StatementFits(ss[0]);
      var behind := if |ss| == 1 then "" else "\n" + G.SpellFile(ss[1..]);
      var next := if ss[0].Table? then G.Names(ss[0].key) else table;
      var end := at + |G.SpellStatement(ss[0])|;
      FileIsRead(ss[1..], end + 1, next);
      StatementIsRead(ss[0], behind, at, table);
      NewlineOver(ss[1..], end, next);
      assert |ss| == 1 ==> G.SpellStatement(ss[0]) + behind == G.SpellFile(ss);
      assert |ss| > 1 ==> G.SpellStatement(ss[0]) + behind == G.SpellFile(ss);
    }
  }

  lemma NewlineOver(ss: seq<G.Statement>, at: int, table: seq<string>)
    requires Run(G.SpellFile(ss), at + 1, table) == Some(G.FileStates(ss, at + 1, table))
    ensures Run(if ss == [] then "" else "\n" + G.SpellFile(ss), at, table) == Some(G.FileStates(ss, at + 1, table))
  {
    hide Run, G.SpellStatement, G.StatementStates;
    if ss == [] {
      RunIs([], at, table);
      TomlCursor.TriviaOne([]);
      TopIs([]);
    } else {
      WhiteRead('\n', G.SpellFile(ss));
      hide *;
      RunMoved("\n", G.SpellFile(ss), at, table);
    }
  }

  /** Of every file that is written as TOML is, the scanner records exactly what it states: the
      keys in order, each with its full path, where it ends, the range of its value and the
      reason it must not be replaced, and the headers with where each ends. */
  lemma ScanIsStated(ss: seq<G.Statement>)
    requires G.FileFits(ss)
    ensures ScanText(G.SpellFile(ss)) == Some(G.FileStates(ss, 0, []))
  {
    hide *;
    FileIsRead(ss, 0, []);
    ScanIsRun(G.SpellFile(ss));
  }

  // ---- a quote in front of the closing ones ----

  const FOUR_QUOTES := "[\"\"\"x\"\"\"\"]\nb = 1"

  /** TOML lets one or two quotes stand right in front of the three that close a multi-line
      string, and the grammar above does not: the scanner stops at the first three, wherever more
      follow. In an array it then takes the quote that is left for a string of its own, misses
      the bracket, and swallows the rest of the file: the key on the next line is not recorded. */
  lemma QuoteBeforeTheEnd()
    ensures ScanText("a = " + FOUR_QUOTES) == Some(Scan([Found(["a"], 1, 4, 20, SpanningArray, true)], []))
  {
    FourQuotesValue();
    KeyA(FOUR_QUOTES);
    AssignIs(FOUR_QUOTES, 4, ["a"], 1, true);
    FourQuotesRecorded();
    hide *;
    var text, found := "a = " + FOUR_QUOTES, [Found(["a"], 1, 4, 20, SpanningArray, true)];
    RunIs(text, 0, []);
    RunIs("", 20, []);
    NothingMore();
    ScanIsRun(text);
    TomlCursor.ThenEnds(found, []);
    OnlyThis(text, found);
  }

  lemma OnlyThis(text: string, found: seq<Found>)
    requires |text| == 20
    ensures [] + ["a"] == ["a"] && text[20..] == ""
  {
  }

  lemma KeyA(z: string)
    requires z != [] && !IsGap(z[0])
    ensures var text := "a = " + z; |text| == 4 + |z| && NextTop(text) == Assignment(["a"], 1, 4) && text[4..] == z
  {
    var k := [G.Piece("", G.Bare("a"), " ")];
    assert G.SpellKey(k) == "a " && G.SpellKey(G.Tight(k)) == "a" && G.Names(k) == ["a"];
    assert G.KeyFits(k) by { assert G.PieceFits(k[0]); }
    assert "a = " + z == "a " + ("=" + (" " + z));
    assert G.IsSpaces(" ");
    hide *;
    KeyAndValue(k, " ", z);
  }

  lemma NothingMore()
    ensures NextTop("") == Done && Then([], [], Some(Scan([], []))) == Some(Scan([], []))
  {
    TomlCursor.TriviaOne("");
    TopIs("");
    hide Trivia, NextTop;
    var none: Scan := Scan([], []);
    assert none.assigns + none.assigns == none.assigns && none.headers + none.headers == none.headers;
  }

  lemma FourQuotesValue()
    ensures |FOUR_QUOTES| == 16 && FOUR_QUOTES[0] == '[' && !IsGap(FOUR_QUOTES[0])
    ensures Value(FOUR_QUOTES, 4, ["a"], true) == Some(Read(16, SpanningArray, []))
  {
    var z := FOUR_QUOTES;
    assert z[0] == '[' && z[10] == '\n';
    assert Spans(z, 16);
    FourQuotesArray();
    hide Bracketed, Items, Multiline, Quoted, Lead, Spans;
  }

  lemma FourQuotesArray()
    ensures Bracketed(FOUR_QUOTES, 0) == Some(16)
  {
    var l, y, rest := G.Long('\"', [G.One(G.Plain('x'))]), "\"]\nb = 1", "\nb = 1";
    assert G.LongFits(l);
    assert G.SpellLong(l) == "\"\"\"x\"\"\"" by { assert G.SpellLongUnits('\"', l.units) == "x"; }
    assert FOUR_QUOTES == "[" + (G.SpellLong(l) + y);
    BytesOver(rest);
    OpenQuoteOver();
    hide *;
    OpenOver('[', G.SpellLong(l) + y, 0);
    LongOver(l, y, 1);
    PlusEach();
  }

  lemma PlusEach()
    ensures Plus(1, Plus(7, Plus(2, Some(6)))) == Some(16)
  {
  }

  /** The quote that is left opens a string that ends with its line. */
  lemma OpenQuoteOver()
    ensures Bracketed("\"]\nb = 1", 1) == Plus(2, Bracketed("\nb = 1", 1))
  {
    var y := "\"]\nb = 1";
    OpenQuoteRead();
    assert !Triple(y) && IsQuote(y[0]) && y[2..] == "\nb = 1";
    hide Multiline, Quoted, Lead;
  }

  lemma OpenQuoteRead()
    ensures Quoted("\"]\nb = 1") == (2, false)
  {
    var y := "\"]\nb = 1";
    assert QuotedFrom(y, '\"', 1) == QuotedFrom(y, '\"', 2);
  }

  lemma {:induction false} BytesOver(s: string)
    requires forall c :: c in s ==> c !in "[]{}#\"\'"
    ensures Bracketed(s, 1) == Some(|s|)
  {
    hide Multiline, Quoted, Lead;
    if s != [] {
      assert s[0] in s && forall c :: c in s[1..] ==> c in s;
      BytesOver(s[1..]);
      ByteOver(s[0], s[1..], 1);
      assert [s[0]] + s[1..] == s;
    }
  }

  lemma FourQuotesRecorded()
    ensures
      Recorded(FOUR_QUOTES, 4, ["a"], 1, true, Some(Read(16, SpanningArray, []))) ==
      Some(Read(16, SpanningArray, [Found(["a"], 1, 4, 20, SpanningArray, true)]))
  {
    var z := FOUR_QUOTES;
    RecordedWith(z, 4, ["a"], 1, true, Read(16, SpanningArray, []));
    assert z[..16] == z && z[15] == '1';
    assert [] + [Found(["a"], 1, 4, 20, SpanningArray, true)] == [Found(["a"], 1, 4, 20, SpanningArray, true)];
    TomlCursor.TrailIs(IsGap, z[..16], 0);
  }
}
