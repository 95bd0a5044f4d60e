/** The toml scanner looks a byte or two ahead and never back: what it reads of a text it
    reads of every text that begins the same, and what it records moves with the text. */
module TomlLocal {
  import opened Text
  import opened TomlSpec
  import opened TomlCursor

  /** Two texts begin with the same m bytes. */
  predicate Agree(s: string, t: string, m: nat) {
    m <= |s| && m <= |t| && forall i :: 0 <= i < m ==> s[i] == t[i]
  }

  lemma AgreeRest(s: string, t: string, m: nat, k: nat)
    requires Agree(s, t, m) && k <= m
    ensures Agree(s[k..], t[k..], m - k)
  {
  }

  lemma {:induction false} LeadLocal(p: char -> bool, s: string, t: string, m: nat)
    requires Agree(s, t, m) && Lead(p, s) < m
    ensures Lead(p, t) == Lead(p, s)
  {
    var n := Lead(p, s);
    LeadIs(p, t, n);
  }

  lemma LeadIs(p: char -> bool, s: string, n: nat)
    requires n <= |s|
    requires forall i :: 0 <= i < n ==> p(s[i])
    requires n < |s| ==> !p(s[n])
    ensures Lead(p, s) == n
  {
    hide Lead;
  }

  lemma {:induction false} TriviaLocal(s: string, t: string, m: nat)
    requires Agree(s, t, m) && Trivia(s) < m
    ensures Trivia(t) == Trivia(s)
    decreases |s|
  {
    if s != [] {
      if IsGap(s[0]) || s[0] == '\n' {
        AgreeRest(s, t, m, 1);
        TriviaLocal(s[1..], t[1..], m - 1);
      } else if s[0] == '#' {
        LineMoves(s);
        LeadLocal(InLine, s, t, m);
        AgreeRest(s, t, m, Line(s));
        TriviaLocal(s[Line(s)..], t[Line(s)..], m - Line(s));
      }
    }
  }

  lemma {:induction false} QuotedLocal(s: string, t: string, m: nat, quote: char, j: nat)
    requires Agree(s, t, m) && 1 <= |s| && 1 <= |t| && 1 <= j && QuotedFrom(s, quote, j).0 < m
    ensures QuotedFrom(t, quote, j) == QuotedFrom(s, quote, j)
    decreases |s| - j
  {
    QuotedReaches(s, quote, j);
    if j < |s| && s[j] != '\n' {
      if s[j] == '\\' && quote == '\"' {
        QuotedReaches(s, quote, j + 2);
        QuotedLocal(s, t, m, quote, j + 2);
      } else if s[j] != quote {
        QuotedLocal(s, t, m, quote, j + 1);
      }
    }
  }

  lemma {:induction false} QuotedReaches(s: string, quote: char, j: nat)
    requires 1 <= |s| && 1 <= j
    ensures j <= |s| ==> QuotedFrom(s, quote, j).0 >= j
    ensures j > |s| ==> QuotedFrom(s, quote, j).0 == |s|
    decreases |s| - j
  {
    if j < |s| && s[j] != '\n' {
      if s[j] == '\\' && quote == '\"' {
        QuotedReaches(s, quote, j + 2);
      } else if s[j] != quote {
        QuotedReaches(s, quote, j + 1);
      }
    }
  }

  lemma {:induction false} MultilineLocal(s: string, t: string, m: nat, quote: char, i: nat)
    requires Agree(s, t, m) && i <= |s| + 1 && i <= |t| + 1 && MultilineFrom(s, quote, i) < m
    ensures MultilineFrom(t, quote, i) == MultilineFrom(s, quote, i)
    decreases |s| + 1 - i
  {
    if i < |s| {
      if quote == '\"' && s[i] == '\\' {
        MultilineLocal(s, t, m, quote, i + 2);
      } else if i + 3 <= |s| && s[i] == quote && s[i + 1] == quote && s[i + 2] == quote {
      } else {
        MultilineCloses(s, quote, i + 1);
        MultilineLocal(s, t, m, quote, i + 1);
      }
    }
  }

  /** A multi-line string that ends before the text does ends three bytes on at least. */
  lemma {:induction false} MultilineCloses(s: string, quote: char, i: nat)
    requires i <= |s| + 1
    ensures MultilineFrom(s, quote, i) >= |s| || MultilineFrom(s, quote, i) >= i + 3
    decreases |s| + 1 - i
  {
    if i < |s| {
      if quote == '\"' && s[i] == '\\' {
        MultilineCloses(s, quote, i + 2);
      } else if i + 3 <= |s| && s[i] == quote && s[i + 1] == quote && s[i + 2] == quote {
      } else {
        MultilineCloses(s, quote, i + 1);
      }
    }
  }

  lemma KeyPartLocal(s: string, t: string, m: nat)
    requires Agree(s, t, m) && KeyPart(s).1 < m
    ensures KeyPart(t) == KeyPart(s)
  {
    if s != [] && t != [] {
      assert s[0] == t[0];
      if IsQuote(s[0]) {
        QuotedLocal(s, t, m, s[0], 1);
        var (q, ok) := Quoted(s);
        if ok {
          QuotedClosed(s);
          QuotedClosed(t);
          assert s[1..q - 1] == t[1..q - 1];
        }
        hide QuotedFrom;
      } else {
        LeadLocal(IsBare, s, t, m);
        var n := Lead(IsBare, s);
        assert s[..n] == t[..n];
        hide Lead;
      }
    }
  }

  lemma GapsLocal(s: string, t: string, m: nat, k: nat)
    requires Agree(s, t, m) && k <= m && k + Gaps(s[k..]) < m
    ensures Gaps(t[k..]) == Gaps(s[k..])
  {
    hide Lead;
    AgreeRest(s, t, m, k);
    LeadLocal(IsGap, s[k..], t[k..], m - k);
  }

  lemma NoKeyLocal(s: string, t: string, m: nat)
    requires Agree(s, t, m) && Gaps(s) <= |s| && KeyPart(s[Gaps(s)..]).0.None? && Gaps(s) + KeyPart(s[Gaps(s)..]).1 < m
    ensures KeyPath(t) == KeyPath(s)
  {
    hide KeyPart, Gaps, KeyPath;
    var g := Gaps(s);
    GapsLocal(s, t, m, 0);
    assert s[0..] == s && t[0..] == t;
    AgreeRest(s, t, m, g);
    KeyPartLocal(s[g..], t[g..], m - g);
    NoKey(s);
    NoKey(t);
  }

  lemma NoKey(s: string)
    requires Gaps(s) <= |s| && KeyPart(s[Gaps(s)..]).0.None?
    ensures KeyPath(s) == KeyRead(false, [], 0, Gaps(s) + KeyPart(s[Gaps(s)..]).1)
  {
    hide KeyPart, Gaps;
  }

  lemma {:induction false} KeyPathLocal(s: string, t: string, m: nat)
    requires Agree(s, t, m) && KeyPath(s).n < m
    ensures KeyPath(t) == KeyPath(s)
    decreases |s|
  {
    hide KeyPart, Gaps, KeyPath;
    GapsInside(s);
    var g := Gaps(s);
    if KeyPart(s[g..]).0.None? {
      KeyFails(s);
      NoKeyLocal(s, t, m);
    } else {
      var part := KeyPart(s[g..]).0.value;
      var b := g + KeyPart(s[g..]).1;
      GapsInside(s[b..]);
      var c := b + Gaps(s[b..]);
      KeyReads(s, part, b, c);
      GapsLocal(s, t, m, 0);
      assert s[0..] == s && t[0..] == t;
      AgreeRest(s, t, m, g);
      KeyPartLocal(s[g..], t[g..], m - g);
      GapsLocal(s, t, m, b);
      KeyReads(t, part, b, c);
      assert s[c] == t[c];
      if s[c] == '.' {
        AgreeRest(s, t, m, c + 1);
        KeyPathLocal(s[c + 1..], t[c + 1..], m - c - 1);
      }
    }
  }

  lemma {:induction false} BracketedLocal(s: string, t: string, m: nat, depth: int)
    requires Agree(s, t, m) && Bracketed(s, depth).Some? && Bracketed(s, depth).value < m
    ensures Bracketed(t, depth) == Bracketed(s, depth)
    decreases |s|
  {
    hide Line, Multiline, Quoted;
    assert s[0] == t[0];
    if s[0] == '[' || s[0] == '{' {
      AgreeRest(s, t, m, 1);
      BracketedLocal(s[1..], t[1..], m - 1, depth + 1);
    } else if s[0] == ']' || s[0] == '}' {
      if depth - 1 > 0 {
        AgreeRest(s, t, m, 1);
        BracketedLocal(s[1..], t[1..], m - 1, depth - 1);
      }
    } else if s[0] == '#' {
      LineMoves(s);
      LineLocal(s, t, m);
      AgreeRest(s, t, m, Line(s));
      BracketedLocal(s[Line(s)..], t[Line(s)..], m - Line(s), depth);
    } else {
      StringLocal(s, t, m, depth);
    }
  }

  lemma LineLocal(s: string, t: string, m: nat)
    requires Agree(s, t, m) && Line(s) < m
    ensures Line(t) == Line(s)
  {
    hide Lead;
    LeadLocal(InLine, s, t, m);
  }

  /** An array that ends before the text does has a bracket after each string in it. */
  lemma {:induction false} BracketedMoves(s: string, depth: int)
    requires s != [] && Bracketed(s, depth).Some?
    ensures Bracketed(s, depth).value >= 1
  {
    hide Line, Multiline, Quoted;
    if s[0] == '#' { LineMoves(s); }
  }

  lemma {:induction false} StringLocal(s: string, t: string, m: nat, depth: int)
    requires Agree(s, t, m) && Bracketed(s, depth).Some? && Bracketed(s, depth).value < m
    requires s != [] && s[0] != '[' && s[0] != '{' && s[0] != ']' && s[0] != '}' && s[0] != '#'
    ensures Bracketed(t, depth) == Bracketed(s, depth)
    decreases |s|, 0
  {
    hide Line;
    assert s[0] == t[0];
    if Triple(s) {
      var n := Multiline(s);
      MultilineLocal(s, t, m, s[0], 3);
      hide MultilineFrom;
      assert Triple(t);
      AgreeRest(s, t, m, n);
      BracketedLocal(s[n..], t[n..], m - n, depth);
    } else if IsQuote(s[0]) {
      var q := Quoted(s).0;
      var rest := Bracketed(s[q..], depth).value;
      if s[q..] != [] { BracketedMoves(s[q..], depth); }
      QuotedLocal(s, t, m, s[0], 1);
      NotTriple(s, t, m, q);
      hide QuotedFrom;
      AgreeRest(s, t, m, q);
      BracketedLocal(s[q..], t[q..], m - q, depth);
    } else {
      AgreeRest(s, t, m, 1);
      BracketedLocal(s[1..], t[1..], m - 1, depth);
    }
  }

  /** One string is not the beginning of a multi-line one in either text. */
  lemma NotTriple(s: string, t: string, m: nat, q: nat)
    requires Agree(s, t, m) && s != [] && IsQuote(s[0]) && !Triple(s) && q == Quoted(s).0 && q < m
    ensures !Triple(t)
  {
    QuotedReaches(s, s[0], 1);
  }

  // ---- texts that read as toml ----

  /** There is an "=" between a key and its value. */
  predicate Assigned(s: string, keyEnd: nat, valueAt: nat)
    requires valueAt <= |s|
  {
    exists i :: keyEnd <= i < valueAt && s[i] == '='
  }

  /** A line that is stepped over is stepped over whole: a key on it, if there is one, ends
      on it. */
  predicate SteppedOver(s: string, n: nat) {
    var a := Trivia(s);
    a < |s| && (s[a] == '[' || a + KeyPath(s[a..]).n <= n)
  }

  /** A file in which every line that is stepped over is stepped over whole, whatever stands
      on it: no quoted key goes on over the end of such a line, which takes a backslash as
      the last byte of the line. */
  predicate Tidy(s: string, at: int, table: seq<string>)
    decreases |s|
  {
    match NextTop(s)
    case Done => true
    case Over(n) => SteppedOver(s, n) && Tidy(s[n..], at + n, table)
    case Table(path, _, _, n) => Tidy(s[n..], at + n, path)
    case Assignment(parts, keyEnd, valueAt) =>
      match Assign(s[valueAt..], at + valueAt, table + parts, at + keyEnd, table == [])
      case None => false
      case Some(a) => Tidy(s[valueAt + a.n..], at + valueAt + a.n, table)
  }

  // ---- one step ----

  lemma ValueAtLocal(s: string, t: string, m: nat, n: nat)
    requires Agree(s, t, m) && n <= m && ValueAt(s, n) < m
    ensures ValueAt(t, n) == ValueAt(s, n)
  {
    hide Gaps;
    GapsInside(s[n..]);
    GapsLocal(s, t, m, n);
    var a := n + Gaps(s[n..]);
    assert s[a] == t[a];
    var b := if s[a] == '=' then a + 1 else a;
    GapsLocal(s, t, m, b);
  }

  lemma NextItemLocal(s: string, t: string, m: nat)
    requires Agree(s, t, m)
    requires match NextItem(s)
             case End(n) => n < m
             case Skip(n) => n <= m
             case Broken => false
             case Key(_, _, valueAt) => valueAt < m
    ensures NextItem(t) == NextItem(s)
  {
    hide Trivia, KeyPath, ValueAt;
    TriviaLocal(s, t, m);
    var a := Trivia(s);
    assert s[a] == t[a];
    if s[a] != '}' && s[a] != ',' {
      AgreeRest(s, t, m, a);
      KeyPathLocal(s[a..], t[a..], m - a);
      if KeyPath(s[a..]).ok { ValueAtLocal(s, t, m, a + KeyPath(s[a..]).n); }
    }
  }

  /** The value of a key may become anything that begins with no space. */
  lemma NextItemTarget(s: string, t: string, m: nat)
    requires Agree(s, t, m) && m < |t| && !IsGap(t[m])
    requires NextItem(s).Key? && NextItem(s).valueAt == m && Assigned(s, NextItem(s).keyEnd, m)
    ensures NextItem(t) == NextItem(s)
  {
    hide Trivia, KeyPath, Gaps;
    var a := Trivia(s);
    var k := KeyPath(s[a..]);
    var n := a + k.n;
    EqualsAfterKey(s, n, a + k.end, m, k);
    TriviaLocal(s, t, m);
    assert s[a] == t[a];
    AgreeRest(s, t, m, a);
    KeyPathLocal(s[a..], t[a..], m - a);
    ValueAtTarget(s, t, m, n);
  }

  lemma GapsFrom(s: string, n: nat)
    requires n <= |s|
    ensures n + Gaps(s[n..]) <= |s| && forall j :: n <= j < n + Gaps(s[n..]) ==> IsGap(s[j])
  {
    hide Lead;
    var t := s[n..];
    forall j | n <= j < n + Gaps(t) ensures IsGap(s[j]) { assert s[j] == t[j - n]; }
  }

  lemma KeySpacesFrom(s: string, a: nat)
    requires a <= |s| && KeyPath(s[a..]).ok
    ensures forall j :: a + KeyPath(s[a..]).end <= j < a + KeyPath(s[a..]).n ==> IsGap(s[j])
  {
    hide KeyPath;
    var t := s[a..];
    KeySpaces(t);
    forall j | a + KeyPath(t).end <= j < a + KeyPath(t).n ensures IsGap(s[j]) { assert s[j] == t[j - a]; }
  }

  lemma ValueAtIs(s: string, n: nat)
    requires n <= |s|
    ensures
      var a := n + Gaps(s[n..]);
      && a <= |s|
      && (a < |s| && s[a] == '=' ==> ValueAt(s, n) > a)
      && (!(a < |s| && s[a] == '=') ==> ValueAt(s, n) == a + Gaps(s[a..]))
  {
    hide Lead;
  }

  /** The "=" is the first byte behind a key that is no space. */
  lemma EqualsAfterKey(s: string, n: nat, end: nat, m: nat, k: KeyRead)
    requires m <= |s| && n <= |s| && ValueAt(s, n) == m && Assigned(s, end, m) && end <= n
    requires k.ok && Trivia(s) <= |s| && k == KeyPath(s[Trivia(s)..]) && n == Trivia(s) + k.n && end == Trivia(s) + k.end
    ensures n + Gaps(s[n..]) < m && s[n + Gaps(s[n..])] == '='
  {
    hide *;
    KeySpacesFrom(s, Trivia(s));
    GapsFrom(s, n);
    ValueAtIs(s, n);
    var a := n + Gaps(s[n..]);
    if !(a < |s| && s[a] == '=') {
      GapsFrom(s, a);
      NoneAssigned(s, end, m);
    }
  }

  lemma NoneAssigned(s: string, end: nat, m: nat)
    requires m <= |s| && forall j :: end <= j < m ==> IsGap(s[j])
    ensures !Assigned(s, end, m)
  {
  }

  /** Between the end of a key's last part and where the cursor stops are spaces. */
  lemma {:induction false} KeySpaces(s: string)
    requires KeyPath(s).ok
    ensures forall i :: KeyPath(s).end <= i < KeyPath(s).n ==> IsGap(s[i])
    decreases |s|
  {
    hide KeyPart, KeyPath;
    GapsInside(s);
    var g := Gaps(s);
    if KeyPart(s[g..]).0.None? {
      KeyFails(s);
    } else {
      var b := g + KeyPart(s[g..]).1;
      var c := b + Gaps(s[b..]);
      KeyReads(s, KeyPart(s[g..]).0.value, b, c);
      if c < |s| && s[c] == '.' {
        KeySpaces(s[c + 1..]);
        forall i | KeyPath(s).end <= i < KeyPath(s).n ensures IsGap(s[i]) {
          assert s[i] == s[c + 1..][i - c - 1];
        }
      } else {
        forall i | b <= i < c ensures IsGap(s[i]) { assert s[i] == s[b..][i - b]; }
      }
    }
  }

  lemma ValueAtTarget(s: string, t: string, m: nat, n: nat)
    requires Agree(s, t, m) && m < |t| && !IsGap(t[m]) && n <= |s| && ValueAt(s, n) == m
    requires n + Gaps(s[n..]) < m && s[n + Gaps(s[n..])] == '='
    ensures n <= |t| && ValueAt(t, n) == m
  {
    hide Lead;
    var a := n + Gaps(s[n..]);
    GapsLocal(s, t, m, n);
    assert s[a] == t[a];
    var u := t[a + 1..];
    forall i | 0 <= i < m - a - 1 ensures IsGap(u[i]) {
      assert u[i] == t[a + 1 + i] == s[a + 1 + i] == s[a + 1..][i];
    }
    LeadIs(IsGap, u, m - a - 1);
  }

  lemma HeaderLineLocal(s: string, t: string, m: nat)
    requires Agree(s, t, m) && s != [] && t != [] && s[0] == '[' && t[0] == '['
    requires HeaderLine(s).n < m && m >= 2
    ensures HeaderLine(t) == HeaderLine(s)
  {
    hide KeyPath, Line;
    var many := |s| >= 2 && s[1] == '[';
    var open := if many then 2 else 1;
    var k := KeyPath(s[open..]);
    assert |s| >= 2 && |t| >= 2 && s[1] == t[1];
    AgreeRest(s, t, m, open);
    KeyPathLocal(s[open..], t[open..], m - open);
    AgreeRest(s, t, m, open + k.n);
    LineLocal(s[open + k.n..], t[open + k.n..], m - open - k.n);
  }

  lemma NextTopLocal(s: string, t: string, m: nat)
    requires Agree(s, t, m)
    requires match NextTop(s)
             case Done => false
             case Over(n) => n < m && SteppedOver(s, n)
             case Table(_, _, _, n) => n < m
             case Assignment(_, _, valueAt) => valueAt <= m && (valueAt == m ==> m < |t| && !IsGap(t[m]))
    ensures NextTop(t) == NextTop(s)
  {
    hide Trivia, KeyPath, Gaps, HeaderLine, Line;
    TriviaLocal(s, t, m);
    var a := Trivia(s);
    assert s[a] == t[a];
    AgreeRest(s, t, m, a);
    if s[a] == '[' {
      HeaderLineLocal(s[a..], t[a..], m - a);
    } else {
      KeyPathLocal(s[a..], t[a..], m - a);
      var b := a + KeyPath(s[a..]).n;
      assert s[b] == t[b];
      if NextTop(s).Assignment? {
        AfterEquals(s, t, m, b);
      } else {
        AgreeRest(s, t, m, b);
        LineFrom(s, t, m, a);
        LineFrom(s, t, m, b);
      }
    }
  }

  lemma LineFrom(s: string, t: string, m: nat, k: nat)
    requires Agree(s, t, m) && k <= m
    ensures k + Line(s[k..]) < m ==> Line(t[k..]) == Line(s[k..])
  {
    hide Line;
    AgreeRest(s, t, m, k);
    if k + Line(s[k..]) < m { LineLocal(s[k..], t[k..], m - k); }
  }

  lemma AfterEquals(s: string, t: string, m: nat, b: nat)
    requires Agree(s, t, m) && b < m && b + 1 + Gaps(s[b + 1..]) <= m
    requires b + 1 + Gaps(s[b + 1..]) == m ==> m < |t| && !IsGap(t[m])
    ensures Gaps(t[b + 1..]) == Gaps(s[b + 1..])
  {
    hide Lead;
    var n := Gaps(s[b + 1..]);
    if b + 1 + n < m {
      GapsLocal(s, t, m, b + 1);
    } else {
      var u := t[b + 1..];
      forall i | 0 <= i < n ensures IsGap(u[i]) { assert u[i] == t[b + 1 + i] == s[b + 1 + i] == s[b + 1..][i]; }
      LeadIs(IsGap, u, n);
    }
  }
}
