/** The toml scanner on texts that are not closed (internal/configfile/toml.go): the scan
    runs before the decoder, and two of its steps can read one byte past the end. */
module TomlPanics {
  import opened Text
  import opened TomlSpec
  import opened TomlCursor
  import TomlRanges

  // ---- texts that are read past their end ----

  /** A multi-line string whose last byte is a backslash: the cursor steps over the byte
      behind it, and the value is cut at a byte the text does not have. */
  lemma BackslashAtTheEnd()
    ensures ScanText("a = \"\"\"\\") == None
  {
    var text := "a = \"\"\"\\";
    hide *;
    var s := text[4..];
    KeyThenValue(text);
    ScanIsRun(text);
    Unclosed(s);
    TooLong(s, 4, ["a"], true);
    AssignIs(s, 4, ["a"], 1, true);
    NoneRecorded(s, 4, ["a"], 1, true);
    RunIs(text, 0, []);
    assert [] + ["a"] == ["a"];
  }

  lemma NoneRecorded(s: string, at: int, path: seq<string>, keyEnd: int, root: bool)
    ensures Recorded(s, at, path, keyEnd, root, None) == None
  {
  }

  lemma TooLong(s: string, at: int, path: seq<string>, root: bool)
    requires s != [] && Triple(s) && Multiline(s) > |s|
    ensures Value(s, at, path, root) == None
  {
    hide Multiline;
  }

  lemma Unclosed(s: string)
    requires |s| == 4 && s[0] == s[1] == s[2] == '\"' && s[3] == '\\'
    ensures Triple(s) && Multiline(s) == 5
  {
    assert MultilineFrom(s, '\"', 5) == 5;
  }

  lemma KeyThenValue(text: string)
    requires |text| > 4 && text[..4] == "a = " && text[4] == '\"'
    ensures NextTop(text) == Assignment(["a"], 1, 4)
  {
    assert text[0] == 'a' && text[1] == ' ' && text[2] == '=' && text[3] == ' ';
    assert text[0..] == text;
    assert Trivia(text) == 0;
    AKey(text);
    var rest := text[3..];
    assert rest[0] == ' ' && rest[1] == text[4];
    assert Gaps(rest) == 1 by { LeadOne(rest); }
    hide Trivia, KeyPath, Gaps;
  }

  lemma LeadOne(s: string)
    requires |s| >= 2 && s[0] == ' ' && !IsGap(s[1])
    ensures Gaps(s) == 1
  {
    assert s[1..][0] == s[1];
  }

  lemma AKey(text: string)
    requires |text| > 4 && text[0] == 'a' && text[1] == ' ' && text[2] == '='
    ensures KeyPath(text) == KeyRead(true, ["a"], 1, 2)
  {
    assert Gaps(text) == 0 && text[0..] == text;
    assert text[1..][0] == ' ';
    assert Lead(IsBare, text[1..]) == 0;
    assert Lead(IsBare, text) == 1;
    assert text[..1] == "a";
    assert KeyPart(text) == (Some("a"), 1);
    LeadOne(text[1..]);
    KeyReads(text, "a", 1, 2);
  }

  /** A key of an inline table with nothing behind its dot: the cursor steps over the byte
      that is not there, and the next comparison indexes it. */
  lemma DotAtTheEnd()
    ensures ScanText("a={b.") == None
  {
    var text := "a={b.";
    hide *;
    var s := text[2..];
    KeyThenTable(text);
    ScanIsRun(text);
    NothingAfterDot(s[1..]);
    ItemsIs(s[1..], 3, ["a"], true);
    ValueIsTable(s, 2, ["a"], true);
    NoTable(s);
    AssignIs(s, 2, ["a"], 1, true);
    NoneRecorded(s, 2, ["a"], 1, true);
    RunIs(text, 0, []);
    assert [] + ["a"] == ["a"];
  }

  lemma NoTable(s: string)
    ensures TableRead(s, None) == None
  {
  }

  lemma NothingAfterDot(s: string)
    requires |s| == 2 && s[0] == 'b' && s[1] == '.'
    ensures NextItem(s) == Broken
  {
    assert Trivia(s) == 0 && s[0..] == s;
    assert Gaps(s) == 0;
    assert Lead(IsBare, s[1..]) == 0 by { assert s[1..][0] == '.'; }
    assert Lead(IsBare, s) == 1;
    assert s[..1] == "b";
    assert KeyPart(s) == (Some("b"), 1);
    assert Gaps(s[1..]) == 0 by { assert s[1..][0] == '.'; }
    KeyReads(s, "b", 1, 1);
    assert s[2..] == [];
    assert !KeyPath([]).ok && KeyPath([]).n == 0;
    hide Trivia, KeyPath, Lead;
  }

  lemma KeyThenTable(text: string)
    requires |text| > 2 && text[0] == 'a' && text[1] == '=' && text[2] == '{'
    ensures NextTop(text) == Assignment(["a"], 1, 2)
  {
    assert text[0..] == text && Trivia(text) == 0 && Gaps(text) == 0;
    assert Lead(IsBare, text[1..]) == 0 by { assert text[1..][0] == '='; }
    assert Lead(IsBare, text) == 1;
    assert text[..1] == "a";
    assert KeyPart(text) == (Some("a"), 1);
    assert Gaps(text[1..]) == 0 by { assert text[1..][0] == '='; }
    KeyReads(text, "a", 1, 1);
    assert Gaps(text[2..]) == 0 by { assert text[2..][0] == '{'; }
    hide Trivia, KeyPath, Gaps;
  }

  /** A quoted key of an inline table that nothing ends: the cursor is at the end of the
      text, and steps over the byte that is not there. */
  lemma QuoteAtTheEnd()
    ensures ScanText("a={\"b") == None
  {
    var text := "a={\"b";
    hide *;
    var s := text[2..];
    KeyThenTable(text);
    ScanIsRun(text);
    NothingAfterQuote(s[1..]);
    ItemsIs(s[1..], 3, ["a"], true);
    ValueIsTable(s, 2, ["a"], true);
    NoTable(s);
    AssignIs(s, 2, ["a"], 1, true);
    NoneRecorded(s, 2, ["a"], 1, true);
    RunIs(text, 0, []);
    assert [] + ["a"] == ["a"];
  }

  lemma NothingAfterQuote(s: string)
    requires |s| == 2 && s[0] == '\"' && s[1] == 'b'
    ensures NextItem(s) == Broken
  {
    assert Trivia(s) == 0 && s[0..] == s && Gaps(s) == 0;
    assert QuotedFrom(s, '\"', 2) == (2, false) && QuotedFrom(s, '\"', 1) == (2, false);
    assert KeyPart(s) == (None, 2);
    KeyFails(s);
    hide Trivia, KeyPath, Lead;
  }

  // ---- texts that never are ----

  /** A text that ends with a newline no backslash stands before. */
  predicate LineEnds(s: string) {
    s == [] || (s[|s| - 1] == '\n' && (|s| >= 2 ==> s[|s| - 2] != '\\'))
  }

  lemma RestEnds(s: string, k: nat)
    requires LineEnds(s) && k <= |s|
    ensures LineEnds(s[k..])
  {
  }

  lemma {:induction false} QuotedStops(s: string, quote: char, j: nat)
    requires LineEnds(s) && 1 <= j < |s| && IsQuote(quote)
    ensures QuotedFrom(s, quote, j).0 < |s|
    decreases |s| - j
  {
    if s[j] == '\n' {
    } else if s[j] == '\\' && quote == '\"' {
      assert j + 2 < |s|;
      QuotedStops(s, quote, j + 2);
    } else if s[j] != quote {
      QuotedStops(s, quote, j + 1);
    }
  }

  lemma {:induction false} MultilineStops(s: string, quote: char, i: nat)
    requires LineEnds(s) && i <= |s|
    ensures MultilineFrom(s, quote, i) <= |s|
    decreases |s| - i
  {
    if i < |s| {
      if quote == '\"' && s[i] == '\\' {
        MultilineStops(s, quote, i + 2);
      } else if i + 3 <= |s| && s[i] == quote && s[i + 1] == quote && s[i + 2] == quote {
      } else {
        MultilineStops(s, quote, i + 1);
      }
    }
  }

  lemma {:induction false} BracketedStops(s: string, depth: int)
    requires LineEnds(s)
    ensures Bracketed(s, depth).Some?
    decreases |s|
  {
    hide LineEnds, QuotedFrom, MultilineFrom, Lead;
    if s == [] {
    } else if s[0] == '[' || s[0] == '{' {
      RestEnds(s, 1);
      BracketedStops(s[1..], depth + 1);
    } else if s[0] == ']' || s[0] == '}' {
      if depth - 1 > 0 {
        RestEnds(s, 1);
        BracketedStops(s[1..], depth - 1);
      }
    } else if s[0] == '#' {
      LineMoves(s);
      RestEnds(s, Line(s));
      BracketedStops(s[Line(s)..], depth);
    } else if Triple(s) {
      MultilineStops(s, s[0], 3);
      RestEnds(s, Multiline(s));
      BracketedStops(s[Multiline(s)..], depth);
    } else if IsQuote(s[0]) {
      RestEnds(s, Quoted(s).0);
      BracketedStops(s[Quoted(s).0..], depth);
    } else {
      RestEnds(s, 1);
      BracketedStops(s[1..], depth);
    }
  }

  lemma GapsStop(s: string)
    requires LineEnds(s) && s != []
    ensures Gaps(s) < |s|
  {
    assert !IsGap(s[|s| - 1]);
  }

  lemma PartStops(s: string)
    requires LineEnds(s) && s != []
    ensures KeyPart(s).1 < |s|
  {
    if IsQuote(s[0]) {
      QuotedStops(s, s[0], 1);
    } else {
      assert !IsBare(s[|s| - 1]);
    }
    hide QuotedFrom;
  }

  lemma {:induction false} KeyStops(s: string)
    requires LineEnds(s) && s != []
    ensures KeyPath(s).n < |s|
    decreases |s|
  {
    hide *;
    GapsStop(s);
    var g := Gaps(s);
    RestEnds(s, g);
    PartStops(s[g..]);
    if KeyPart(s[g..]).0.None? {
      KeyFails(s);
    } else {
      var b := g + KeyPart(s[g..]).1;
      RestEnds(s, b);
      GapsStop(s[b..]);
      var c := b + Gaps(s[b..]);
      KeyReads(s, KeyPart(s[g..]).0.value, b, c);
      if s[c] == '.' {
        RestEnds(s, c + 1);
        KeyStops(s[c + 1..]);
      }
    }
  }

  lemma NextItemStops(s: string)
    requires LineEnds(s)
    ensures NextItem(s) != Broken
  {
    var a := Trivia(s);
    if a < |s| {
      RestEnds(s, a);
      KeyStops(s[a..]);
    }
    hide Trivia, KeyPath, ValueAt;
  }

  lemma {:induction false} ValueStops(s: string, at: int, path: seq<string>, root: bool)
    requires LineEnds(s)
    ensures Value(s, at, path, root).Some?
    decreases |s|, 1
  {
    hide *;
    if s != [] && s[0] == '{' {
      RestEnds(s, 1);
      ItemsStop(s[1..], at + 1, path, root);
      ValueIsTable(s, at, path, root);
      TomlRanges.TableFits(s, Items(s[1..], at + 1, path, root));
    } else {
      LeafStops(s, at, path, root);
    }
  }

  lemma LeafStops(s: string, at: int, path: seq<string>, root: bool)
    requires LineEnds(s) && (s == [] || s[0] != '{')
    ensures Value(s, at, path, root).Some?
  {
    hide Items, Bracketed, QuotedFrom, MultilineFrom, Lead, Spans, LineEnds;
    BracketedStops(s, 0);
    if Triple(s) { MultilineStops(s, s[0], 3); }
  }

  lemma {:induction false} AssignStops(s: string, at: int, path: seq<string>, keyEnd: int, root: bool)
    requires LineEnds(s)
    ensures Assign(s, at, path, keyEnd, root).Some?
    decreases |s|, 2
  {
    hide *;
    ValueStops(s, at, path, root);
    AssignIs(s, at, path, keyEnd, root);
    TomlRanges.RecordedIs(s, at, path, keyEnd, root, Value(s, at, path, root));
  }

  lemma {:induction false} ItemsStop(s: string, at: int, path: seq<string>, root: bool)
    requires LineEnds(s)
    ensures Items(s, at, path, root).Some?
    decreases |s|, 3
  {
    hide *;
    NextItemStops(s);
    ItemsIs(s, at, path, root);
    match NextItem(s)
    case End(n) =>
    case Skip(n) =>
      RestEnds(s, n);
      ItemsStop(s[n..], at + n, path, root);
      TomlRanges.LaterIs(n, [], Items(s[n..], at + n, path, root));
    case Key(parts, keyEnd, valueAt) =>
      RestEnds(s, valueAt);
      AssignStops(s[valueAt..], at + valueAt, path + parts, at + keyEnd, root);
      var a := Assign(s[valueAt..], at + valueAt, path + parts, at + keyEnd, root).value;
      var n := valueAt + a.n;
      RestEnds(s, n);
      ItemsStop(s[n..], at + valueAt + a.n, path, root);
      TomlRanges.LaterIs(n, a.found, Items(s[n..], at + valueAt + a.n, path, root));
  }

  lemma {:induction false} RunStops(s: string, at: int, table: seq<string>)
    requires LineEnds(s)
    ensures Run(s, at, table).Some?
    decreases |s|
  {
    hide *;
    RunIs(s, at, table);
    match NextTop(s)
    case Done =>
    case Over(n) =>
      RestEnds(s, n);
      RunStops(s[n..], at + n, table);
    case Table(path, many, h, n) =>
      RestEnds(s, n);
      RunStops(s[n..], at + n, path);
      TomlRanges.ThenGives([], [Header(path, at + h, many)], Run(s[n..], at + n, path));
    case Assignment(parts, keyEnd, valueAt) =>
      RestEnds(s, valueAt);
      AssignStops(s[valueAt..], at + valueAt, table + parts, at + keyEnd, table == []);
      var a := Assign(s[valueAt..], at + valueAt, table + parts, at + keyEnd, table == []).value;
      var n := valueAt + a.n;
      RestEnds(s, n);
      RunStops(s[n..], at + valueAt + a.n, table);
      TomlRanges.ThenGives(a.found, [], Run(s[n..], at + valueAt + a.n, table));
  }

  /** A text that ends with a newline no backslash stands before is scanned to its end,
      closed or not. */
  lemma ScanStops(text: string)
    requires LineEnds(text)
    ensures ScanText(text).Some?
  {
    hide *;
    ScanIsRun(text);
    RunStops(text, 0, []);
  }
}
