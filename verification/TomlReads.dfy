/** The toml scanner reads a file as it was written: strings, keys, arrays and the space between
    things (internal/configfile/toml.go: quoted, multiline, keyPath, bracketed, trivia). */
module TomlReads {
  import opened Text
  import opened TomlSpec
  import opened TomlLocal
  import TomlCursor
  import TomlSpell
  import G = TomlGrammar

  // ---- runs of bytes ----

  /** A run of bytes with a property, up to one without it. */
  lemma LeadRun(p: char -> bool, g: string, y: string)
    requires (forall c :: c in g ==> p(c)) && (y != [] ==> !p(y[0]))
    ensures Lead(p, g + y) == |g|
  {
    hide Lead;
    var s := g + y;
    forall i | 0 <= i < |g| ensures p(s[i]) { assert s[i] == g[i] && g[i] in g; }
    assert y != [] ==> s[|g|] == y[0];
    LeadIs(p, s, |g|);
  }

  lemma Behind(x: string, y: string)
    ensures (x + y)[|x|..] == y && (x + y)[..|x|] == x
    ensures x != [] ==> (x + y)[0] == x[0]
    ensures x == [] ==> x + y == y
  {
  }

  /** Spaces in front of a text that begins with something else. */
  lemma GapsRun(g: string, y: string)
    requires G.IsSpaces(g) && (y != [] ==> !IsGap(y[0]))
    ensures Gaps(g + y) == |g|
  {
    LeadRun(IsGap, g, y);
  }

  lemma {:induction false} GapsMore(g: string, y: string)
    requires G.IsSpaces(g)
    ensures Gaps(g + y) == |g| + Gaps(y)
  {
    if g == [] {
      assert g + y == y;
    } else {
      var t := g[1..];
      assert g[0] in g;
      assert forall c :: c in t ==> c in g;
      GapsMore(t, y);
      assert (g + y)[1..] == t + y && (g + y)[0] == g[0];
    }
  }

  /** The rest of a line. */
  lemma LineRun(g: string, y: string)
    requires '\n' !in g && (y != [] ==> y[0] == '\n')
    ensures Line(g + y) == |g|
  {
    LeadRun(InLine, g, y);
  }

  // ---- strings ----

  lemma {:induction false} UnitsRead(p: string, s: G.Str, k: nat, y: string)
    requires p != [] && k <= |s.units| && G.StrFits(s)
    ensures
      var us := G.SpellUnits(s.units[k..]);
      QuotedFrom(p + us + [s.quote] + y, s.quote, |p|) == (|p| + |us| + 1, true)
    decreases |s.units| - k
  {
    var rest := s.units[k..];
    var text := p + G.SpellUnits(rest) + [s.quote] + y;
    if rest == [] {
      assert text[|p|] == s.quote;
    } else {
      var u := G.SpellUnit(rest[0]);
      assert G.UnitFits(s.quote, s.units[k]);
      assert rest[1..] == s.units[k + 1..];
      var vs := G.SpellUnits(rest[1..]);
      UnitsRead(p + u, s, k + 1, y);
      Regroup(p, u, vs, [s.quote], y);
      TomlSpell.Middle(p, u, vs + [s.quote] + y);
      assert text[|p|] == text[|p|..|p| + |u|][0] == u[0];
    }
  }

  /** A string is read to its closing quote. */
  lemma StrRead(s: G.Str, y: string)
    requires G.StrFits(s) && (y != [] ==> !IsQuote(y[0]))
    ensures
      var text := G.SpellStr(s) + y;
      && text != [] && text[0] == s.quote && IsQuote(s.quote) && !Triple(text)
      && Quoted(text) == (|G.SpellStr(s)|, true)
      && text[1..|G.SpellStr(s)| - 1] == G.SpellUnits(s.units)
  {
    var text := G.SpellStr(s) + y;
    UnitsRead([s.quote], s, 0, y);
    assert s.units[0..] == s.units;
    assert text == [s.quote] + G.SpellUnits(s.units) + [s.quote] + y;
    if s.units != [] {
      assert G.UnitFits(s.quote, s.units[0]);
      assert text[1] == G.SpellUnit(s.units[0])[0];
    } else {
      assert text == [s.quote, s.quote] + y;
    }
  }

  lemma {:induction false} LongUnitsRead(p: string, l: G.Long, k: nat, y: string)
    requires k <= |l.units| && G.LongFits(l)
    ensures
      var us, end := G.SpellLongUnits(l.quote, l.units[k..]), [l.quote, l.quote, l.quote];
      MultilineFrom(p + us + end + y, l.quote, |p|) == |p| + |us| + 3
    decreases |l.units| - k
  {
    hide MultilineFrom;
    var rest, end := l.units[k..], [l.quote, l.quote, l.quote];
    var us := G.SpellLongUnits(l.quote, rest);
    if rest == [] {
      assert p + us + end + y == p + (end + y);
      ThreeQuotes(p, l.quote, y);
    } else {
      var u, vs := G.SpellLongUnit(l.quote, rest[0]), G.SpellLongUnits(l.quote, rest[1..]);
      assert G.LongUnitFits(l.quote, l.units[k]);
      assert rest[1..] == l.units[k + 1..];
      assert us == u + vs;
      hide *;
      LongUnitsRead(p + u, l, k + 1, y);
      Regroup(p, u, vs, end, y);
      TomlSpell.Middle(p, u, vs + end + y);
      LongUnitOver(p + us + end + y, l.quote, rest[0], |p|);
    }
  }

  lemma Regroup(p: string, u: string, v: string, end: string, y: string)
    ensures p + (u + v) + end + y == (p + u) + v + end + y
    ensures p + (u + v) + end + y == p + u + (v + end + y)
  {
  }

  lemma ThreeQuotes(p: string, quote: char, y: string)
    requires quote in "\"\'"
    ensures MultilineFrom(p + ([quote, quote, quote] + y), quote, |p|) == |p| + 3
  {
    var s := p + ([quote, quote, quote] + y);
    assert s[|p|] == quote && s[|p| + 1] == quote && s[|p| + 2] == quote;
  }

  lemma LongUnitOver(text: string, quote: char, u: G.LongUnit, i: nat)
    requires G.LongUnitFits(quote, u) && quote in "\"\'"
    requires i + |G.SpellLongUnit(quote, u)| <= |text| && text[i..i + |G.SpellLongUnit(quote, u)|] == G.SpellLongUnit(quote, u)
    ensures MultilineFrom(text, quote, i) == MultilineFrom(text, quote, i + |G.SpellLongUnit(quote, u)|)
  {
    var w := G.SpellLongUnit(quote, u);
    assert text[i] == w[0] && text[i + |w| - 1] == w[|w| - 1];
    match u
    case One(v) =>
    case Lone(c) =>
      assert MultilineFrom(text, quote, i) == MultilineFrom(text, quote, i + 1);
    case Twin(c) =>
      assert text[i + 1] == w[1];
      assert MultilineFrom(text, quote, i) == MultilineFrom(text, quote, i + 1);
      assert MultilineFrom(text, quote, i + 1) == MultilineFrom(text, quote, i + 2);
  }

  /** A multi-line string is read to the three quotes that close it. */
  lemma LongRead(l: G.Long, y: string)
    requires G.LongFits(l)
    ensures
      var text := G.SpellLong(l) + y;
      Triple(text) && Multiline(text) == |G.SpellLong(l)|
  {
    var text, end := G.SpellLong(l) + y, [l.quote, l.quote, l.quote];
    LongUnitsRead(end, l, 0, y);
    assert l.units[0..] == l.units;
    assert text == end + G.SpellLongUnits(l.quote, l.units) + end + y;
    assert text[0] == end[0] && text[1] == end[1] && text[2] == end[2];
  }

  /** With quotes of its own right in front of the closing ones, as TOML allows one or two, a
      multi-line string is read to its end exactly when there are none. */
  lemma LongEndsExactly(l: G.Long, extra: string, y: string)
    requires G.LongFits(l) && forall c :: c in extra ==> c == l.quote
    ensures
      var whole := G.SpellLong(l) + extra;
      Triple(whole + y) && (Multiline(whole + y) == |whole| <==> extra == "")
  {
    hide *;
    LongRead(l, extra + y);
    Grouped(G.SpellLong(l), extra, y);
  }

  // ---- the space between things ----

  /** White space and comments are stepped over, whatever stands behind them. */
  lemma {:induction false} BlanksRead(bs: seq<G.Blank>, y: string)
    requires G.BlanksFit(bs)
    ensures Trivia(G.SpellBlanks(bs) + y) == |G.SpellBlanks(bs)| + Trivia(y)
    decreases |bs|
  {
    hide *;
    BlanksAre(bs);
    if bs == [] {
      Behind("", y);
    } else {
      BlanksRead(bs[1..], y);
      BlankRead(bs[0], G.SpellBlanks(bs[1..]) + y);
      Grouped(G.SpellBlank(bs[0]), G.SpellBlanks(bs[1..]), y);
    }
  }

  lemma BlanksAre(bs: seq<G.Blank>)
    requires G.BlanksFit(bs)
    ensures bs == [] ==> G.SpellBlanks(bs) == ""
    ensures bs != [] ==> G.BlankFits(bs[0]) && G.BlanksFit(bs[1..]) && G.SpellBlanks(bs) == G.SpellBlank(bs[0]) + G.SpellBlanks(bs[1..])
  {
    hide G.BlankFits, G.SpellBlank;
  }

  lemma BlankRead(b: G.Blank, z: string)
    requires G.BlankFits(b)
    ensures Trivia(G.SpellBlank(b) + z) == |G.SpellBlank(b)| + Trivia(z)
  {
    hide Trivia;
    match b
    case White(c) =>
      WhiteRead(c, z);
    case Remark(text) =>
      assert G.SpellBlank(b) + z == "#" + text + ("\n" + z);
      RemarkRead(text, "\n" + z);
      WhiteRead('\n', z);
  }

  lemma WhiteRead(c: char, z: string)
    requires c in " \t\r\n"
    ensures Trivia([c] + z) == 1 + Trivia(z)
  {
    var s := [c] + z;
    assert s[0] == c && s[1..] == z;
  }

  lemma {:induction false} SpacesRead(g: string, y: string)
    requires G.IsSpaces(g)
    ensures Trivia(g + y) == |g| + Trivia(y)
  {
    if g == [] {
      assert g + y == y;
    } else {
      assert g[0] in g;
      assert forall c :: c in g[1..] ==> c in g;
      hide Trivia;
      SpacesRead(g[1..], y);
      WhiteRead(g[0], g[1..] + y);
      Grouped([g[0]], g[1..], y);
      assert [g[0]] + g[1..] == g;
    }
  }

  lemma RemarkRead(text: string, y: string)
    requires '\n' !in text && (y != [] ==> y[0] == '\n')
    ensures Trivia("#" + text + y) == 1 + |text| + Trivia(y)
  {
    var s := "#" + text + y;
    assert s == ("#" + text) + y;
    LineRun("#" + text, y);
    Behind("#" + text, y);
    assert s[0] == '#';
    TomlCursor.TriviaOne(s);
    hide *;
  }

  // ---- keys ----

  /** What may stand behind a key: the "=", or the bracket of a header. */
  predicate EndsKey(y: string) {
    y != [] && (y[0] == '=' || y[0] == ']')
  }

  lemma PartRead(p: G.Piece, y: string)
    requires G.PieceFits(p) && y != [] && !IsBare(y[0]) && !IsQuote(y[0])
    ensures KeyPart(G.SpellPart(p.part) + y) == (Some(G.NameOf(p.part)), |G.SpellPart(p.part)|)
    ensures G.SpellPart(p.part) != [] && !IsGap(G.SpellPart(p.part)[0])
  {
    hide Lead, QuotedFrom;
    match p.part
    case Bare(name) =>
      assert forall c :: c in name ==> IsBare(c);
      LeadRun(IsBare, name, y);
      Behind(name, y);
      assert name[0] in name && IsBare(name[0]);
    case Quoted(s) =>
      StrRead(s, y);
      Behind(G.SpellStr(s), y);
  }

  /** A dotted key is read part by part, to the end of the spaces behind it. */
  lemma {:induction false} KeyIsRead(k: seq<G.Piece>, y: string)
    requires G.KeyFits(k) && EndsKey(y)
    ensures KeyPath(G.SpellKey(k) + y) == KeyRead(true, G.Names(k), |G.SpellKey(G.Tight(k))|, |G.SpellKey(k)|)
    decreases |k|
  {
    hide KeyPath, G.SpellKey, G.SpellPiece, G.PieceFits;
    assert G.PieceFits(k[0]);
    var p := k[0];
    var s := G.SpellKey(k) + y;
    SpelledKey(k);
    if |k| == 1 {
      PieceRead(p, y);
      assert G.Names(k) == [G.NameOf(p.part)];
    } else {
      var z := G.SpellKey(k[1..]) + y;
      assert s == G.SpellPiece(p) + ("." + z);
      PieceRead(p, "." + z);
      Behind(".", z);
      KeyIsRead(k[1..], y);
      assert G.Names(k) == [G.NameOf(p.part)] + G.Names(k[1..]);
      assert s[|G.SpellPiece(p)| + 1..] == z;
    }
  }

  lemma SpelledKey(k: seq<G.Piece>)
    requires k != []
    ensures |k| == 1 ==> G.SpellKey(k) == G.SpellPiece(k[0]) && |G.SpellKey(G.Tight(k))| == |G.SpellPiece(k[0])| - |k[0].after|
    ensures |k| > 1 ==>
      && G.SpellKey(k) == G.SpellPiece(k[0]) + "." + G.SpellKey(k[1..])
      && |G.SpellKey(G.Tight(k))| == |G.SpellPiece(k[0])| + 1 + |G.SpellKey(G.Tight(k[1..]))|
  {
    var t := G.Tight(k);
    assert |k| > 1 ==> t[1..] == G.Tight(k[1..]) && t[0] == k[0];
  }

  /** One part with the spaces around it, and what KeyPath makes of it. */
  lemma PieceRead(p: G.Piece, z: string)
    requires G.PieceFits(p) && z != [] && (z[0] == '.' || EndsKey(z))
    ensures
      var s, c := G.SpellPiece(p) + z, |G.SpellPiece(p)|;
      KeyPath(s) == if z[0] == '.' then Longer(G.NameOf(p.part), c + 1, KeyPath(s[c + 1..]))
                    else KeyRead(true, [G.NameOf(p.part)], c - |p.after|, c)
  {
    hide *;
    var s, part := G.SpellPiece(p) + z, G.SpellPart(p.part);
    PieceParts(p, z);
    PieceCuts(p.before, part, p.after, z);
    PieceRuns(p, z);
    KeyPathOf(s, |p.before|, G.NameOf(p.part), |p.before| + |part|, |G.SpellPiece(p)|);
  }

  lemma PieceRuns(p: G.Piece, z: string)
    requires G.PieceFits(p) && z != [] && (z[0] == '.' || EndsKey(z))
    ensures
      var part, y := G.SpellPart(p.part), p.after + z;
      && Gaps(p.before + (part + y)) == |p.before|
      && KeyPart(part + y) == (Some(G.NameOf(p.part)), |part|)
      && Gaps(y) == |p.after|
  {
    hide *;
    var part, y := G.SpellPart(p.part), p.after + z;
    PieceParts(p, z);
    PartRead(p, y);
    Behind(part, y);
    GapsRun(p.before, part + y);
    GapsRun(p.after, z);
  }

  lemma PieceCuts(before: string, part: string, after: string, z: string)
    requires z != []
    ensures
      var s, b := before + (part + (after + z)), |before| + |part|;
      && s[|before|..] == part + (after + z) && s[b..] == after + z
      && |before + part + after| == b + |after| < |s| && s[b + |after|] == z[0]
  {
  }

  lemma PieceParts(p: G.Piece, z: string)
    requires G.PieceFits(p) && z != [] && (z[0] == '.' || EndsKey(z))
    ensures G.IsSpaces(p.before) && G.IsSpaces(p.after)
    ensures G.SpellPiece(p) == p.before + G.SpellPart(p.part) + p.after
    ensures G.SpellPiece(p) + z == p.before + (G.SpellPart(p.part) + (p.after + z))
    ensures p.after + z != [] && !IsBare((p.after + z)[0]) && !IsQuote((p.after + z)[0]) && !IsGap(z[0])
    ensures EndsKey(z) ==> z[0] != '.'
  {
    hide G.SpellPart;
    assert p.after != [] ==> p.after[0] in p.after;
    assert p.after == [] ==> p.after + z == z;
  }

  lemma KeyPathOf(s: string, a: nat, name: string, b: nat, c: nat)
    requires Gaps(s) == a <= b <= c <= |s|
    requires KeyPart(s[a..]) == (Some(name), b - a) && Gaps(s[b..]) == c - b
    ensures KeyPath(s) == if c < |s| && s[c] == '.' then Longer(name, c + 1, KeyPath(s[c + 1..])) else KeyRead(true, [name], b, c)
  {
    hide *;
    KeyPathFirst(s);
  }

  lemma KeyPathFirst(s: string)
    ensures
      var a := Gaps(s);
      var (part, m) := KeyPart(s[a..]);
      && a + m <= |s|
      && var b := a + m;
         var c := b + Gaps(s[b..]);
         && c <= |s|
         && (part.Some? ==> KeyPath(s) == if c < |s| && s[c] == '.' then Longer(part.value, c + 1, KeyPath(s[c + 1..]))
                                          else KeyRead(true, [part.value], b, c))
  {
    hide KeyPart, Longer, Lead;
  }

  // ---- arrays ----

  /** What stands in an array is read over to the bracket that closes it. */
  lemma {:induction false} InsideRead(i: G.Inside, y: string, depth: int)
    requires G.InsideFits(i) && depth >= 1 && y != [] && y[0] in "]}"
    ensures Bracketed(G.SpellInside(i) + y, depth) == Plus(|G.SpellInside(i)|, Bracketed(y, depth))
    decreases i
  {
    hide *;
    InsideIs(i);
    match i
    case Nothing =>
      PlusNothing(y, depth);
    case Byte(c, rest) =>
      InsideRead(rest, y, depth);
      ByteOver(c, G.SpellInside(rest) + y, depth);
      Chain([c], G.SpellInside(rest), y, Bracketed([c] + (G.SpellInside(rest) + y), depth), Bracketed(G.SpellInside(rest) + y, depth), Bracketed(y, depth));
    case Comment(text, rest) =>
      InsideRead(rest, y, depth);
      RemarkOver(text, G.SpellInside(rest) + y, depth);
      Chain("#" + text + "\n", G.SpellInside(rest), y, Bracketed(("#" + text + "\n") + (G.SpellInside(rest) + y), depth), Bracketed(G.SpellInside(rest) + y, depth), Bracketed(y, depth));
    case Short(q, rest) =>
      InsideRead(rest, y, depth);
      NoQuoteBehind(rest, y);
      StrOver(q, G.SpellInside(rest) + y, depth);
      Chain(G.SpellStr(q), G.SpellInside(rest), y, Bracketed(G.SpellStr(q) + (G.SpellInside(rest) + y), depth), Bracketed(G.SpellInside(rest) + y, depth), Bracketed(y, depth));
    case Triple(l, rest) =>
      InsideRead(rest, y, depth);
      LongOver(l, G.SpellInside(rest) + y, depth);
      Chain(G.SpellLong(l), G.SpellInside(rest), y, Bracketed(G.SpellLong(l) + (G.SpellInside(rest) + y), depth), Bracketed(G.SpellInside(rest) + y, depth), Bracketed(y, depth));
    case Nested(open, inner, close, rest) =>
      var z := G.SpellInside(rest) + y;
      InsideRead(rest, y, depth);
      Behind([close], z);
      InsideRead(inner, [close] + z, depth + 1);
      NestOver(open, G.SpellInside(inner), close, z, depth);
      Chain([open] + G.SpellInside(inner) + [close], G.SpellInside(rest), y, Bracketed(([open] + G.SpellInside(inner) + [close]) + (G.SpellInside(rest) + y), depth), Bracketed(G.SpellInside(rest) + y, depth), Bracketed(y, depth));
  }

  lemma InsideIs(i: G.Inside)
    requires G.InsideFits(i)
    ensures
      match i
      case Nothing => G.SpellInside(i) == ""
      case Byte(c, rest) => c !in "[]{}#\"\'" && G.InsideFits(rest) && G.SpellInside(i) == [c] + G.SpellInside(rest)
      case Comment(text, rest) => '\n' !in text && G.InsideFits(rest) && G.SpellInside(i) == ("#" + text + "\n") + G.SpellInside(rest)
      case Short(q, rest) => G.StrFits(q) && !rest.Short? && !rest.Triple? && G.InsideFits(rest) && G.SpellInside(i) == G.SpellStr(q) + G.SpellInside(rest)
      case Triple(l, rest) => G.LongFits(l) && G.InsideFits(rest) && G.SpellInside(i) == G.SpellLong(l) + G.SpellInside(rest)
      case Nested(open, inner, close, rest) =>
        && open in "[{" && close in "]}" && G.InsideFits(inner) && G.InsideFits(rest)
        && G.SpellInside(i) == ([open] + G.SpellInside(inner) + [close]) + G.SpellInside(rest)
  {
    hide G.StrFits, G.LongFits, G.SpellStr, G.SpellLong;
  }

  /** What is stepped over, and then the rest. */
  lemma Chain(w: string, r: string, y: string, whole: Option<nat>, mid: Option<nat>, last: Option<nat>)
    requires whole == Plus(|w|, mid) && mid == Plus(|r|, last)
    ensures whole == Plus(|w + r|, last)
    ensures (w + r) + y == w + (r + y)
  {
  }

  lemma NestOver(open: char, inner: string, close: char, z: string, depth: int)
    requires open in "[{" && close in "]}" && depth >= 1
    requires Bracketed(inner + ([close] + z), depth + 1) == Plus(|inner|, Bracketed([close] + z, depth + 1))
    ensures
      var w := [open] + inner + [close];
      Bracketed(w + z, depth) == Plus(|w|, Bracketed(z, depth))
  {
    hide Bracketed;
    OpenOver(open, inner + ([close] + z), depth);
    CloseOver(close, z, depth + 1);
    assert [open] + inner + [close] + z == [open] + (inner + ([close] + z));
  }

  lemma PlusNothing(y: string, depth: int)
    ensures Bracketed("" + y, depth) == Plus(|""|, Bracketed(y, depth))
  {
    hide Bracketed;
    assert "" + y == y;
  }

  lemma ByteOver(c: char, z: string, depth: int)
    requires c !in "[]{}#\"\'"
    ensures Bracketed([c] + z, depth) == Plus(1, Bracketed(z, depth))
  {
    Behind([c], z);
    hide Multiline, Quoted, Lead;
  }

  lemma OpenOver(c: char, z: string, depth: int)
    requires c in "[{"
    ensures Bracketed([c] + z, depth) == Plus(1, Bracketed(z, depth + 1))
  {
    Behind([c], z);
    hide Multiline, Quoted, Lead;
  }

  lemma CloseOver(c: char, z: string, depth: int)
    requires c in "]}"
    ensures Bracketed([c] + z, depth) == if depth <= 1 then Some(1) else Plus(1, Bracketed(z, depth - 1))
  {
    Behind([c], z);
    hide Multiline, Quoted, Lead;
  }

  lemma RemarkOver(text: string, z: string, depth: int)
    requires '\n' !in text
    ensures Bracketed(("#" + text + "\n") + z, depth) == Plus(|"#" + text + "\n"|, Bracketed(z, depth))
  {
    var w, y := "#" + text, "\n" + z;
    var s := ("#" + text + "\n") + z;
    assert s == w + y;
    LineRun(w, y);
    Behind(w, y);
    Behind("\n", z);
    ByteOver('\n', z, depth);
    hide Lead, Multiline, Quoted;
    assert Bracketed(s, depth) == Plus(|w|, Bracketed(y, depth));
    hide Bracketed;
  }

  lemma StrOver(q: G.Str, z: string, depth: int)
    requires G.StrFits(q) && (z != [] ==> !IsQuote(z[0]))
    ensures Bracketed(G.SpellStr(q) + z, depth) == Plus(|G.SpellStr(q)|, Bracketed(z, depth))
  {
    StrRead(q, z);
    Behind(G.SpellStr(q), z);
    hide G.SpellStr, Multiline, Quoted, Lead;
  }

  lemma LongOver(l: G.Long, z: string, depth: int)
    requires G.LongFits(l)
    ensures Bracketed(G.SpellLong(l) + z, depth) == Plus(|G.SpellLong(l)|, Bracketed(z, depth))
  {
    LongRead(l, z);
    Behind(G.SpellLong(l), z);
    assert (G.SpellLong(l) + z)[0] == l.quote;
    hide G.SpellLong, Multiline, Quoted, Lead;
  }

  lemma NoQuoteBehind(i: G.Inside, y: string)
    requires G.InsideFits(i) && !i.Short? && !i.Triple? && y != [] && y[0] in "]}"
    ensures var z := G.SpellInside(i) + y; z != [] && !IsQuote(z[0])
  {
    if i.Nothing? { assert G.SpellInside(i) + y == y; }
  }
}
