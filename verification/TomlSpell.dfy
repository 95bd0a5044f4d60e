/** What tomlSpell writes and what value reads of it (internal/configfile/toml.go). */
module TomlSpell {
  import opened Text
  import IniCodec
  import IniLaws
  import opened TomlSpec
  import opened TomlCursor
  import opened TomlLocal

  /** The items of a list, from the first on, and the closing bracket. */
  function ListTail(items: seq<string>): string {
    if items == [] then "]"
    else Quote(items[0]) + if |items| == 1 then "]" else ", " + ListTail(items[1..])
  }

  /** tomlSpell. */
  function Spelled(want: IniCodec.Literal): string {
    match want
    case LBool(on) => FormatBool(on)
    case LInt(text) => text
    case LString(text) => Quote(text)
    case LList(items) => "[" + ListTail(items)
  }

  /** What may stand behind a value: spaces, and then the end of the text, a newline, a
      comment, or the comma or bracket of what is around it. */
  predicate Follows(y: string) {
    Gaps(y) == |y| || (Gaps(y) < |y| && y[Gaps(y)] in "\n#,]}")
  }

  /** A value that is read to its last byte and, of what follows it, into the spaces at
      most. */
  ghost predicate Whole(v: string, y: string, at: int, path: seq<string>, root: bool) {
    var r := Value(v + y, at, path, root);
    && r.Some? && r.value.why == Editable && r.value.found == []
    && |v| <= r.value.n <= |v| + |y|
    && forall i :: |v| <= i < r.value.n ==> IsGap((v + y)[i])
  }

  /** A value that is one line and neither begins nor ends with a space. */
  predicate Compact(v: string) {
    v != [] && !IsGap(v[0]) && !IsGap(v[|v| - 1]) && v[0] != '{' && '\n' !in v
  }

  // ---- strings ----

  lemma EscapeRead(s: string, j: nat, e: string)
    requires 1 <= j && j + |e| <= |s| && s[j..j + |e|] == e
    requires |e| == 1 ==> IsPlain(e[0])
    requires |e| != 1 ==> |e| >= 2 && e[0] == '\\' && (|e| == 2 || forall i :: 1 <= i < |e| ==> e[i] != '\"' && e[i] != '\\')
    requires forall x :: x in e ==> ' ' <= x <= '~'
    ensures QuotedFrom(s, '\"', j) == QuotedFrom(s, '\"', j + |e|)
  {
    assert s[j] == e[0];
    if |e| > 2 {
      forall i | j + 2 <= i < j + |e| ensures s[i] != '\"' && s[i] != '\\' && s[i] != '\n' {
        assert s[i] == e[i - j] && e[i - j] in e;
      }
      PlainRun(s, j + 2, j + |e|);
    }
  }

  lemma {:induction false} PlainRun(s: string, i: nat, j: nat)
    requires 1 <= i <= j <= |s|
    requires forall k :: i <= k < j ==> s[k] != '\"' && s[k] != '\\' && s[k] != '\n'
    ensures QuotedFrom(s, '\"', i) == QuotedFrom(s, '\"', j)
    decreases j - i
  {
    if i < j {
      PlainRun(s, i + 1, j);
    }
  }

  lemma QuoteEnds(s: string, j: nat)
    requires 1 <= j < |s| && s[j] == '\"'
    ensures QuotedFrom(s, '\"', j) == (j + 1, true)
  {
  }

  lemma EscapedFirst(text: string)
    ensures text == [] ==> Escaped(text) == []
    ensures text != [] ==> Escaped(text) == Escape(text[0]) + Escaped(text[1..])
  {
  }

  /** An escaped text is read over to the quote behind it. */
  lemma {:induction false} EscapedRead(p: string, text: string, y: string)
    requires p != []
    ensures QuotedFrom(p + Escaped(text) + "\"" + y, '\"', |p|) == (|p| + |Escaped(text)| + 1, true)
    decreases |text|
  {
    hide *;
    EscapedFirst(text);
    var s := p + Escaped(text) + "\"" + y;
    if text == [] {
      assert s[|p|] == '\"';
      QuoteEnds(s, |p|);
    } else {
      var e, rest := Escape(text[0]), Escaped(text[1..]);
      OneByte(text[0]);
      assert s == (p + e) + rest + "\"" + y;
      Middle(p, e, rest + "\"" + y);
      assert s == p + e + (rest + "\"" + y);
      EscapeRead(s, |p|, e);
      EscapedRead(p + e, text[1..], y);
    }
  }

  lemma Middle(p: string, e: string, z: string)
    ensures (p + e + z)[|p|..|p| + |e|] == e
  {
  }

  lemma OneByte(c: char)
    ensures |Escape(c)| == 1 ==> IsPlain(Escape(c)[0])
    ensures |Escape(c)| != 1 ==> |Escape(c)| >= 2 && Escape(c)[0] == '\\'
    ensures Escape(c) != [] && forall x :: x in Escape(c) ==> ' ' <= x <= '~'
    ensures |Escape(c)| <= 2 || forall i :: 1 <= i < |Escape(c)| ==> Escape(c)[i] != '\"' && Escape(c)[i] != '\\'
  {
  }

  /** A quoted text is one string, whatever stands behind it but a quote. */
  lemma QuoteRead(text: string, y: string)
    requires y != [] ==> y[0] != '\"'
    ensures
      var s := Quote(text) + y;
      && s != [] && s[0] == '\"' && !Triple(s) && Quoted(s) == (|Quote(text)|, true)
  {
    var s := Quote(text) + y;
    assert s == "\"" + Escaped(text) + "\"" + y;
    EscapedRead("\"", text, y);
    if text == [] {
      assert Escaped([]) == [];
      assert s == "\"\"" + y;
    } else {
      OneByte(text[0]);
      var e := Escape(text[0]);
      assert Escaped(text)[0] == e[0];
      assert s[1] == e[0] != '\"';
    }
  }

  // ---- lists ----

  lemma {:induction false} ListRead(items: seq<string>, y: string)
    ensures Bracketed(ListTail(items) + y, 1) == Some(|ListTail(items)|)
    decreases |items|
  {
    hide *;
    ListTailIs(items);
    if items == [] {
      OnlyBracket(y);
    } else {
      var q := Quote(items[0]);
      var tail := if |items| == 1 then "]" else ", " + ListTail(items[1..]);
      assert ListTail(items) + y == q + (tail + y);
      TailOpens(tail, y, |items| == 1, ListTail(items[1..]));
      QuoteRead(items[0], tail + y);
      QuoteInList(q, tail + y);
      if |items| == 1 {
        OnlyBracket(y);
      } else {
        ListRead(items[1..], y);
        CommaRead(ListTail(items[1..]) + y);
        assert tail + y == ", " + (ListTail(items[1..]) + y);
      }
      PlusIs(|q|, Bracketed(tail + y, 1));
      PlusIs(2, Bracketed(ListTail(items[1..]) + y, 1));
    }
  }

  lemma PlusIs(k: nat, n: Option<nat>)
    ensures Plus(k, n) == if n.Some? then Some(k + n.value) else None
  {
  }

  lemma ListTailIs(items: seq<string>)
    ensures items == [] ==> ListTail(items) == "]"
    ensures items != [] ==> ListTail(items) == Quote(items[0]) + if |items| == 1 then "]" else ", " + ListTail(items[1..])
  {
    hide Quote;
  }

  lemma TailOpens(tail: string, y: string, one: bool, rest: string)
    requires tail == if one then "]" else ", " + rest
    ensures tail + y != [] && (tail + y)[0] != '\"'
  {
  }

  /** A string in an array is stepped over. */
  lemma QuoteInList(q: string, z: string)
    requires var s := q + z; s != [] && s[0] == '\"' && !Triple(s) && Quoted(s) == (|q|, true)
    ensures Bracketed(q + z, 1) == Plus(|q|, Bracketed(z, 1))
  {
    var s := q + z;
    hide Quoted, Multiline, Lead, Plus;
    assert s[|q|..] == z;
    assert IsQuote(s[0]);
  }

  lemma OnlyBracket(y: string)
    ensures Bracketed("]" + y, 1) == Some(1)
  {
    assert ("]" + y)[0] == ']';
  }

  lemma CommaRead(z: string)
    ensures Bracketed(", " + z, 1) == Plus(2, Bracketed(z, 1))
  {
    var s := ", " + z;
    hide MultilineFrom, QuotedFrom;
    assert s[0] == ',' && s[1..] == " " + z;
    assert (" " + z)[0] == ' ' && (" " + z)[1..] == z;
    assert Bracketed(s, 1) == Plus(1, Bracketed(s[1..], 1));
    assert Bracketed(" " + z, 1) == Plus(1, Bracketed(z, 1));
  }

  // ---- every spelled value ----

  lemma {:induction false} ListBytes(items: seq<string>)
    ensures forall c :: c in ListTail(items) ==> ' ' <= c <= '~'
    ensures ListTail(items) != [] && ListTail(items)[|ListTail(items)| - 1] == ']'
  {
    hide Escaped;
    if items != [] {
      QuoteBytes(items[0]);
      if |items| > 1 { ListBytes(items[1..]); }
    }
  }

  lemma QuoteBytes(s: string)
    ensures forall c :: c in Quote(s) ==> ' ' <= c <= '~'
    ensures |Quote(s)| >= 2 && Quote(s)[0] == '\"' && Quote(s)[|Quote(s)| - 1] == '\"'
  {
    hide Escaped;
  }

  lemma IntBytes(text: string)
    requires ParseInt(text).Some?
    ensures text != [] && forall c :: c in text ==> IsDigit(c) || c == '-' || c == '+'
  {
    var signed := text[0] == '-' || text[0] == '+';
    var digits := if signed then text[1..] else text;
    forall c | c in text ensures IsDigit(c) || c == '-' || c == '+' {
      var i :| 0 <= i < |text| && text[i] == c;
      assert i == 0 || text[i] == text[1..][i - 1];
    }
  }

  lemma SpellIsCompact(want: IniCodec.Literal)
    requires IniLaws.Sound(want)
    ensures Compact(Spelled(want))
  {
    hide Escaped, ParseInt, ListTail;
    match want
    case LBool(on) =>
    case LInt(text) =>
      IntBytes(text);
      assert text[0] in text && text[|text| - 1] in text;
    case LString(text) => QuoteBytes(text);
    case LList(items) => ListBytes(items);
  }

  lemma BareRead(v: string, y: string)
    requires v != [] && (forall c :: c in v ==> InValue(c)) && Follows(y)
    ensures Lead(InValue, v + y) == |v| + Gaps(y)
  {
    hide Lead;
    var s := v + y;
    var n := |v| + Gaps(y);
    GapsInside(y);
    forall i | 0 <= i < n ensures InValue(s[i]) {
      if i < |v| { assert s[i] == v[i] && v[i] in v; } else { assert s[i] == y[i - |v|]; }
    }
    assert n < |s| ==> s[n] == y[Gaps(y)];
    LeadIs(InValue, s, n);
  }

  /** Started on anything tomlSpell wrote, value stops at its end or in the spaces behind
      it, and finds nothing in it that may not be rewritten. */
  lemma SpellIsRead(want: IniCodec.Literal, y: string, at: int, path: seq<string>, root: bool)
    requires IniLaws.Sound(want) && Follows(y)
    ensures Whole(Spelled(want), y, at, path, root)
  {
    var v := Spelled(want);
    var s := v + y;
    hide Escaped, ParseInt, ListTail, Items, Lead, QuotedFrom, MultilineFrom, Bracketed;
    NoQuote(y);
    match want
    case LBool(on) =>
      assert forall c :: c in v ==> InValue(c);
      BareRead(v, y);
      BareWhole(v, y, at, path, root);
    case LInt(text) =>
      IntBytes(text);
      assert v[0] in v;
      BareRead(v, y);
      BareWhole(v, y, at, path, root);
    case LString(text) =>
      QuoteRead(text, y);
    case LList(items) =>
      ListRead(items, y);
      ListBytes(items);
      ListWhole(items, y, at, path, root);
  }

  lemma NoQuote(y: string)
    requires Follows(y)
    ensures y != [] ==> y[0] != '\"'
  {
    hide Lead;
    assert y != [] && Gaps(y) > 0 ==> IsGap(y[0]);
  }

  lemma BareWhole(v: string, y: string, at: int, path: seq<string>, root: bool)
    requires v != [] && Lead(InValue, v + y) == |v| + Gaps(y)
    requires !IsQuote(v[0]) && v[0] != '[' && v[0] != '{'
    ensures Whole(v, y, at, path, root)
  {
    hide Items, Lead, QuotedFrom, MultilineFrom, Bracketed;
    var s := v + y;
    assert s[0] == v[0];
    GapsInside(y);
    assert Value(s, at, path, root) == Some(Read(|v| + Gaps(y), Editable, []));
    forall i | |v| <= i < |v| + Gaps(y) ensures IsGap(s[i]) { assert s[i] == y[i - |v|]; }
  }

  lemma ListWhole(items: seq<string>, y: string, at: int, path: seq<string>, root: bool)
    requires Bracketed(ListTail(items) + y, 1) == Some(|ListTail(items)|)
    requires forall c :: c in ListTail(items) ==> ' ' <= c <= '~'
    ensures Whole("[" + ListTail(items), y, at, path, root)
  {
    hide Items, Lead, QuotedFrom, MultilineFrom, ListTail;
    var v := "[" + ListTail(items);
    var s := v + y;
    assert s[0] == '[' && s[1..] == ListTail(items) + y;
    assert Bracketed(s, 0) == Some(|v|);
    forall i | 0 <= i < |v| ensures s[i] != '\n' {
      assert i > 0 ==> s[i] == ListTail(items)[i - 1] && ListTail(items)[i - 1] in ListTail(items);
    }
    hide Bracketed;
    assert !Spans(s, |v|);
  }
}
