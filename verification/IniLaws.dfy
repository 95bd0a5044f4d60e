/** The lens laws of the ini codec (internal/configfile/ini.go): after the edit Set plans,
    the key holds the value, a second Set plans nothing, and every other key reads as it
    did. Where the code falls short of a law, the condition says exactly when. */
module IniLaws {
  import opened Text
  import opened Document
  import opened IniScan
  import opened IniPlaces
  import opened IniCodec
  import opened IniLines
  import opened IniTold

  // ---- values read back ----

  /** A string spelled into an ini file reads back as itself without its quotes: the
      ones that have to be quoted hold nothing to escape, the others are not quoted
      already. */
  predicate UnquotesBack(s: string) {
    if NeedsQuotes(s) then forall c :: c in s ==> IsPlain(c) else !Quoted(s)
  }

  /** A literal reads back as its own kind and value. */
  predicate ReadsBack(want: Literal) {
    match want
    case LBool(_) => true
    case LInt(_) => true
    case LString(s) => UnquotesBack(s) && (NeedsQuotes(s) || (s != "true" && s != "false" && ParseInt(s).None?))
    case LList(items) => items != [] && forall s :: s in items ==> UnquotesBack(s)
  }

  /** A literal the rules can ask for: Int and Literal{KindInt} are only made of text
      that parses as one. */
  predicate Sound(want: Literal) {
    want.LInt? ==> ParseInt(want.text).Some?
  }

  lemma UnquoteSpelled(s: string)
    ensures Unquote(SpellString(s)) == s <==> UnquotesBack(s)
    ensures NeedsQuotes(s) ==> Quoted(SpellString(s)) && |Unquote(SpellString(s))| >= |s|
  {
    hide Escaped, TrimSpace, IsPlain;
    if NeedsQuotes(s) {
      var q := Quote(s);
      assert q[0] == '\"' && q[|q| - 1] == '\"';
      assert q[1..|q| - 1] == Escaped(s);
    } else if Quoted(s) {
      assert |s[1..|s| - 1]| < |s|;
    }
  }

  /** What a plain line spelled for a literal reads as. */
  lemma PlainHolds(e: Entry, want: Literal)
    requires Sound(want) && !want.LList?
    requires e.a.raw == Spell(want) && e.more == []
    ensures Holds(PlainValue(e), want) <==> ReadsBack(want)
  {
    hide ParseInt, TrimSpace, Escaped, Interpolates, Quoted, ParseBool, WithoutUnderscores;
    assert [Unquote(e.a.raw)] + [] == [Unquote(e.a.raw)];
    match want
    case LBool(on) =>
      BoolReads(on);
    case LInt(text) =>
      IntSolid(text);
      NoUnderscores(text);
    case LString(s) =>
      UnquoteSpelled(s);
    case LList(_) =>
  }

  lemma BoolReads(on: bool)
    ensures !Quoted(FormatBool(on)) && ParseBool(FormatBool(on)) == Some(on)
    ensures FormatBool(on) == "true" || FormatBool(on) == "false"
  {
  }

  lemma {:induction false} NoUnderscores(s: string)
    requires '_' !in s
    ensures WithoutUnderscores(s) == s
  {
    if s != [] {
      NoUnderscores(s[1..]);
    }
  }

  // ---- the lines an edit writes ----

  /** The context after an assignment of a section, indented by so much. */
  function Inside(section: string, indent: nat): Ctx {
    Ctx(section, if section == [] then None else Some(indent))
  }

  /** The context does not take a line of this indentation for a continuation. */
  predicate Admits(ctx: Ctx, indent: nat) {
    ctx.open.Some? ==> indent <= ctx.open.value
  }

  /** The entries a literal is written as. */
  function Intended(k: Name, indent: string, sep: string, want: Literal): seq<Entry> {
    if want.LList? then ItemEntries(k, indent, sep, want.items)
    else [Entry(k.section, Built(k.name, false, indent, sep, Spell(want)), 0, 0, [])]
  }

  function ItemEntries(k: Name, indent: string, sep: string, items: seq<string>): seq<Entry> {
    if items == [] then []
    else
      var e := Entry(k.section, Built(k.name, true, indent, sep, SpellString(items[0])), 0, 0, []);
      [e] + ItemEntries(k, indent, sep, items[1..])
  }

  lemma OneLine(ctx: Ctx, k: Name, list: bool, indent: string, sep: string, spell: string, q: Name)
    requires GoodKey(k) && Blanks(indent) && IsSep(sep) && Solid(spell)
    requires ctx.section == k.section && Admits(ctx, |indent|)
    ensures
      var line := indent + Core(k.name, list) + sep + spell;
      && Fresh(ctx, [line])
      && Told(ctx, [line], q) == (if q == k then [Entry(k.section, Built(k.name, list, indent, sep, spell), 0, 0, [])] else [])
      && After(ctx, [line]) == Inside(k.section, |indent|)
  {
    hide Read, Built, Core, Solid, IsSep, GoodName, Told, After;
    var line := indent + Core(k.name, list) + sep + spell;
    ReadBuilt(ctx, indent, k.name, list, sep, spell);
    ToldOne(ctx, line, q);
    ReadOne(ctx, line);
    BuiltName(k.name, list, indent, sep, spell);
  }

  lemma BuiltName(name: string, list: bool, indent: string, sep: string, spell: string)
    ensures Built(name, list, indent, sep, spell).name == name
    ensures Built(name, list, indent, sep, spell).raw == spell
    ensures Built(name, list, indent, sep, spell).list == list
  {
  }

  /** The lines a list is written as tell exactly its items. */
  lemma {:induction false} ListTold(ctx: Ctx, k: Name, indent: string, sep: string, items: seq<string>, q: Name)
    requires GoodKey(k) && Blanks(indent) && IsSep(sep)
    requires ctx.section == k.section && Admits(ctx, |indent|)
    ensures
      var lines := ListLines(indent, k.name, sep, items);
      && Fresh(ctx, lines)
      && Told(ctx, lines, q) == (if q == k then ItemEntries(k, indent, sep, items) else [])
      && After(ctx, lines) == (if items == [] then ctx else Inside(k.section, |indent|))
    decreases |items|
  {
    hide Told, Read, SpellString, Blanks, IsSep, GoodKey, After, Fresh;
    if items == [] {
      EmptyTold(ctx, q);
    } else {
      var spell := SpellString(items[0]);
      var line := indent + Core(k.name, true) + sep + spell;
      SpelledSolid(items[0]);
      OneLine(ctx, k, true, indent, sep, spell, q);
      var d := Inside(k.section, |indent|);
      ListTold(d, k, indent, sep, items[1..], q);
      var rest := ListLines(indent, k.name, sep, items[1..]);
      assert indent + k.name + "[]" + sep + spell == line;
      assert ListLines(indent, k.name, sep, items) == [line] + rest;
      Joined(ctx, [line], rest, q);
    }
  }

  lemma EmptyTold(ctx: Ctx, q: Name)
    ensures Fresh(ctx, []) && Told(ctx, [], q) == [] && After(ctx, []) == ctx
  {
    ToldNone(ctx, q);
  }

  lemma Joined(ctx: Ctx, a: seq<string>, b: seq<string>, q: Name)
    requires a != [] && Fresh(ctx, a) && Fresh(After(ctx, a), b)
    ensures Fresh(ctx, a + b)
    ensures Told(ctx, a + b, q) == Told(ctx, a, q) + Told(After(ctx, a), b, q)
    ensures After(ctx, a + b) == After(After(ctx, a), b)
  {
    hide Told, Read, After;
    assert (a + b)[0] == a[0];
    ToldConcat(ctx, a, b, q);
    ReadConcat(ctx, a, b);
  }

  /** The lines a literal is written as tell exactly that literal. */
  lemma WrittenTold(ctx: Ctx, k: Name, indent: string, sep: string, want: Literal, q: Name)
    requires GoodKey(k) && Blanks(indent) && IsSep(sep) && Sound(want)
    requires ctx.section == k.section && Admits(ctx, |indent|)
    ensures
      var lines := NewLines(indent, k.name, sep, want);
      && Fresh(ctx, lines)
      && Told(ctx, lines, q) == (if q == k then Intended(k, indent, sep, want) else [])
      && After(ctx, lines) == (if lines == [] then ctx else Inside(k.section, |indent|))
      && (lines == [] <==> want == LList([]))
  {
    hide Told, Read, Blanks, IsSep, GoodKey, After, Fresh, Spell, Solid, ParseInt, SpellString;
    if want.LList? {
      ListTold(ctx, k, indent, sep, want.items, q);
    } else {
      SpellSolid(want);
      OneLine(ctx, k, false, indent, sep, Spell(want), q);
    }
  }

  lemma SpellSolid(want: Literal)
    requires Sound(want) && !want.LList?
    ensures Solid(Spell(want))
  {
    hide SpellString, ParseInt;
    match want
    case LBool(on) =>
    case LInt(text) => IntSolid(text);
    case LString(s) => SpelledSolid(s);
    case LList(_) =>
  }

  // ---- replacing ----

  /** The list lines of a key. */
  function Listed(es: seq<Entry>, k: Name): seq<Entry> {
    Lists(Named(es, k))
  }

  lemma ListedConcat(a: seq<Entry>, b: seq<Entry>, k: Name)
    ensures Listed(a + b, k) == Listed(a, k) + Listed(b, k)
  {
    hide Named, Lists;
    NamedConcat(a, b, k);
    ListsConcat(Named(a, k), Named(b, k));
  }

  lemma OneOf(e: Entry, k: Name)
    ensures Named([e], k) == if Spells(e, k) then [e] else []
    ensures Listed([e], k) == if Spells(e, k) && e.a.list then [e] else []
  {
    hide Spells;
    assert [e][1..] == [];
    assert Named([], k) == [] && Lists([]) == [];
    assert Named([e], k) == (if Spells(e, k) then [e] else []) + Named([], k);
    assert Lists([e]) == (if e.a.list then [e] else []) + Lists([]);
  }

  lemma ListsOne(e: Entry)
    ensures Lists([e]) == if e.a.list then [e] else []
  {
    assert [e][1..] == [];
  }

  /** The last entry of a key, and that none is below it. */
  lemma {:induction false} LastNamed(all: seq<Entry>, k: Name) returns (j: nat)
    requires Named(all, k) != []
    ensures j < |all| && Spells(all[j], k) && Named(all[j + 1..], k) == []
    ensures Named(all, k)[|Named(all, k)| - 1] == all[j]
    decreases |all|
  {
    hide *;
    NamedFrom(all, k);
    var n := |all| - 1;
    var init, last := all[..n], all[n];
    assert all == init + [last];
    NamedConcat(init, [last], k);
    OneOf(last, k);
    if Spells(last, k) {
      j := n;
      NamedNone([], k);
      assert all[j + 1..] == [];
    } else {
      j := LastNamed(init, k);
      TailOf(init, [last], j + 1);
      assert Named(init, k) + [] == Named(init, k);
      NamedConcat(init[j + 1..], [last], k);
    }
  }

  lemma {:induction false} LastListed(all: seq<Entry>, k: Name) returns (j: nat)
    requires Listed(all, k) != []
    ensures j < |all| && Listed(all[j + 1..], k) == []
    ensures Listed(all, k)[|Listed(all, k)| - 1] == all[j]
    decreases |all|
  {
    hide *;
    ListedSome(all, k);
    var n := |all| - 1;
    var init, last := all[..n], all[n];
    assert all == init + [last];
    ListedConcat(init, [last], k);
    OneOf(last, k);
    if Spells(last, k) && last.a.list {
      j := n;
      ListedSome([], k);
      assert all[j + 1..] == [];
    } else {
      j := LastListed(init, k);
      TailOf(init, [last], j + 1);
      assert Listed(init, k) + [] == Listed(init, k);
      ListedConcat(init[j + 1..], [last], k);
    }
  }

  lemma {:induction false} FirstListed(all: seq<Entry>, k: Name) returns (i: nat)
    requires Listed(all, k) != []
    ensures i < |all| && Listed(all[..i], k) == []
    ensures Listed(all, k)[0] == all[i]
    decreases |all|
  {
    hide *;
    ListedSome(all, k);
    ListedSome([], k);
    var head, rest := all[0], all[1..];
    assert all == [head] + rest;
    ListedConcat([head], rest, k);
    OneOf(head, k);
    if Spells(head, k) && head.a.list {
      i := 0;
      assert all[..0] == [];
    } else {
      i := FirstListed(rest, k);
      assert all[..i + 1] == [head] + rest[..i];
      ListedConcat([head], rest[..i], k);
      i := i + 1;
    }
  }

  lemma ListedSome(all: seq<Entry>, k: Name)
    ensures |Listed(all, k)| <= |all|
    ensures forall e :: e in Listed(all, k) ==> e in all && e.a.list && Spells(e, k)
  {
    hide Named, Lists, Spells;
    ListsFrom(Named(all, k));
    NamedFrom(all, k);
  }

  /** The list lines of a key that stand on consecutive lines are a run of entries. */
  lemma ListedRun(lines: seq<string>, k: Name) returns (i: nat, j: nat)
    requires
      var es := Listed(Scan(lines), k);
      es != [] && es[|es| - 1].line - es[0].line == |es| - 1
    ensures
      var all := Scan(lines);
      && i <= j < |all| && all[i..j + 1] == Listed(all, k) && Named(all[i..j + 1], k) == all[i..j + 1]
      && Listed(all[..i], k) == [] && Listed(all[j + 1..], k) == []
      && all[j].line - all[i].line == j - i
  {
    hide *;
    var all := Scan(lines);
    i := FirstListed(all, k);
    j := LastListed(all, k);
    if i > j {
      NoneListed(all, i, j, k);
      assert false;
    }
    ListedMiddle(all, i, j, k);
    if i < j { ScanInOrder(lines, i, j); }
    ListedFull(all[i..j + 1], k);
  }

  lemma ScanInOrder(lines: seq<string>, i: nat, j: nat)
    requires i < j < |Scan(lines)|
    ensures Scan(lines)[j].line - Scan(lines)[i].line >= j - i
  {
    hide Entries, ReadAll;
    InOrder(ReadAll(Top, lines), 1, i, j);
  }

  lemma NoneListed(all: seq<Entry>, i: nat, j: nat, k: Name)
    requires j < i <= |all| && Listed(all[..i], k) == [] && Listed(all[j + 1..], k) == []
    ensures Listed(all, k) == []
  {
    hide *;
    assert all[j + 1..] == all[j + 1..i] + all[i..];
    CutTwice(all, i, i);
    ListedConcat(all[j + 1..i], all[i..], k);
    ListedConcat(all[..i], all[i..], k);
  }

  lemma ListedMiddle(all: seq<Entry>, i: nat, j: nat, k: Name)
    requires i <= j < |all| && Listed(all[..i], k) == [] && Listed(all[j + 1..], k) == []
    ensures Listed(all, k) == Listed(all[i..j + 1], k)
  {
    hide *;
    CutTwice(all, i, j + 1);
    ListedConcat(all[..i], all[i..j + 1], k);
    ListedConcat(all[..j + 1], all[j + 1..], k);
    var mid := Listed(all[i..j + 1], k);
    assert [] + mid == mid && mid + [] == mid;
  }

  lemma ListedFull(es: seq<Entry>, k: Name)
    ensures |Listed(es, k)| <= |es|
    ensures |Listed(es, k)| == |es| ==> Listed(es, k) == es && Named(es, k) == es
  {
    hide Named, Lists;
    FilterFull(es, k);
  }

  /** The entries Set may replace are consecutive entries of the file; no list line of
      the key is anywhere else, and below a plain one no line of the key at all. */
  lemma ChosenRange(lines: seq<string>, k: Name) returns (i: nat, j: nat)
    requires Get(lines, k).kind != KindMissing && Get(lines, k).editable
    ensures
      var all := Scan(lines);
      var es := Chosen(Named(all, k));
      && i <= j < |all| && all[i..j + 1] == es && Named(es, k) == es
      && all[j].line - all[i].line == j - i
      && Listed(all[..i], k) == [] && Listed(all[j + 1..], k) == []
      && (!es[0].a.list ==> i == j && Named(all[j + 1..], k) == [])
  {
    hide Entries, ReadAll, Named, Lists, Spells, Interpolates, AnyInterpolates, Items, Unquote, Join, IniKind;
    var all := Scan(lines);
    ListsFrom(Named(all, k));
    if Listed(all, k) == [] {
      j := LastNamed(all, k);
      i := j;
      assert all[i..j + 1] == [all[j]];
      OneOf(all[j], k);
      assert all == all[..j] + (all[j..j + 1] + all[j + 1..]);
      hide Listed;
      ListedConcat(all[..j], all[j..j + 1] + all[j + 1..], k);
      ListedConcat(all[j..j + 1], all[j + 1..], k);
    } else {
      i, j := ListedRun(lines, k);
    }
  }

  /** On consecutive lines of a section no entry is indented deeper than the one above
      it, or it would continue it. */
  lemma {:induction false} IndentsFall(lines: seq<string>, i: nat, j: nat)
    requires i <= j < |Scan(lines)|
    requires Scan(lines)[j].line - Scan(lines)[i].line == j - i
    requires Scan(lines)[i].section != []
    ensures
      var all := Scan(lines);
      && 1 <= all[i].line <= |lines| && 1 <= all[j].line <= |lines|
      && |Indent(lines[all[j].line - 1])| <= |Indent(lines[all[i].line - 1])|
      && all[j].section == all[i].section
    decreases j - i
  {
    hide Entries, ReadAll, After, Read, Indent, AssignmentOf, Introduces, SectionName, TrimSpace;
    var all, evs := Scan(lines), ReadAll(Top, lines);
    Placed(lines, i);
    Placed(lines, j);
    if i < j {
      InOrder(evs, 1, i, j);
      InOrder(evs, 1, j - 1, j);
      if i < j - 1 { InOrder(evs, 1, i, j - 1); }
      EntryCloses(lines, j - 1);
      IndentsFall(lines, i, j - 1);
    }
  }

  /** The entries a literal replaces entry e with. */
  function Replacing(lines: seq<string>, k: Name, e: Entry, want: Literal): seq<Entry> {
    if !want.LList? && !e.a.list then [Entry(k.section, e.a.(raw := Spell(want)), 0, 0, [])]
    else Intended(k, Indent(LineAt(lines, e.line)), e.a.sep, want)
  }

  lemma ReplacingSome(lines: seq<string>, k: Name, e: Entry, want: Literal)
    requires want != LList([])
    ensures Replacing(lines, k, e, want) != []
  {
    hide Built, Spell, SpellString, Indent;
  }

  lemma IndentBlanks(line: string)
    ensures Blanks(Indent(line))
  {
  }

  /** One line whose value was replaced. */
  lemma ValueTold(c: Ctx, line: string, want: Literal, k: Name, q: Name)
    requires Read(c, line).Assign? && Sound(want) && !want.LList? && GoodKey(k) && c.section == k.section
    requires var a := AssignmentOf(line).value; !a.list && a.name == k.name
    ensures
      var a := AssignmentOf(line).value;
      && a.valueAt <= |line|
      && var now := [line[..a.valueAt] + Spell(want)];
         && Fresh(c, now)
         && After(c, now) == Inside(k.section, |Indent(line)|)
         && Told(c, now, q) == if q == k then [Entry(k.section, a.(raw := Spell(want)), 0, 0, [])] else []
  {
    hide AssignmentOf, Told, After, ParseInt, GoodName, Indent, Solid, Spell;
    SpellSolid(want);
    ReadReplaced(c, line, Spell(want));
    var now := line[..AssignmentOf(line).value.valueAt] + Spell(want);
    ToldOne(c, now, q);
    ReadOne(c, now);
    hide Read;
  }

  /** The lines Set puts in place of the old ones tell the literal and nothing else, and
      leave the context of an entry of that indentation. */
  lemma ReplacementTold(lines: seq<string>, k: Name, i: nat, j: nat, want: Literal, q: Name)
    requires GoodKey(k) && Sound(want) && want != LList([])
    requires i <= j < |Scan(lines)| && Named(Scan(lines)[i..j + 1], k) == Scan(lines)[i..j + 1]
    requires Scan(lines)[i].a.list || i == j
    ensures
      var all := Scan(lines);
      && 1 <= all[i].line <= |lines| && all[i].a.valueAt <= |LineAt(lines, all[i].line)|
      && var c := After(Top, lines[..all[i].line - 1]);
         var changed := Replace(lines, all[i..j + 1], want).lines;
         && c.section == k.section
         && Fresh(c, changed)
         && After(c, changed) == Inside(k.section, |Indent(lines[all[i].line - 1])|)
         && Told(c, changed, q) == (if q == k then Replacing(lines, k, all[i], want) else [])
  {
    hide Entries, ReadAll, After, Told, Named, AssignmentOf, Introduces, SectionName, TrimSpace,
         GoodName, ParseInt, Fresh, IsSep, Spell, Solid, Indent, Built;
    var all := Scan(lines);
    var e := all[i];
    NamedFrom(all[i..j + 1], k);
    assert all[i..j + 1][0] == e;
    assert e in Named(all[i..j + 1], k);
    Placed(lines, i);
    var line := lines[e.line - 1];
    var c := After(Top, lines[..e.line - 1]);
    assert c.section == k.section && Admits(c, |Indent(line)|);
    hide Read, Continues;
    ValueAtIn(line);
    if !want.LList? && !e.a.list {
      ValueTold(c, line, want, k, q);
    } else {
      AssignmentSep(line);
      IndentBlanks(line);
      WrittenTold(c, k, Indent(line), e.a.sep, want, q);
    }
  }

  /** Three runs of lines, none continued into the next. */
  lemma Splice(p: seq<string>, m: seq<string>, s: seq<string>, q: Name)
    requires m != [] && Fresh(After(Top, p), m) && Fresh(After(After(Top, p), m), s)
    ensures Told(Top, p + m + s, q) ==
            Told(Top, p, q) + Told(After(Top, p), m, q) + Told(After(After(Top, p), m), s, q)
  {
    hide Told, After, Read;
    assert p + m + s == p + (m + s) && (m + s)[0] == m[0];
    ToldConcat(Top, p, m + s, q);
    ToldConcat(After(Top, p), m, s, q);
  }

  /** A line is not continued under a deeper indentation either. */
  lemma FreshDeeper(section: string, less: nat, more: nat, lines: seq<string>)
    requires Fresh(Inside(section, less), lines) && less <= more
    ensures Fresh(Inside(section, more), lines)
  {
    hide TrimSpace, SectionName, AssignmentOf, Introduces, Indent;
  }

  function ToldAbove(lines: seq<string>, i: nat, q: Name): seq<Entry>
    requires i <= |Scan(lines)|
  {
    At0(Named(Scan(lines)[..i], q))
  }

  function ToldBelow(lines: seq<string>, j: nat, q: Name): seq<Entry>
    requires j < |Scan(lines)|
  {
    At0(Named(Scan(lines)[j + 1..], q))
  }

  lemma CutFacts(lines: seq<string>, i: nat, j: nat)
    requires i <= j < |Scan(lines)|
    requires Scan(lines)[j].line - Scan(lines)[i].line == j - i && Scan(lines)[j].section == Scan(lines)[i].section
    ensures
      var all := Scan(lines);
      && 1 <= all[i].line <= all[j].endLine <= |lines|
      && var d := After(Top, lines[..all[j].endLine]);
         && d.section == all[i].section
         && Fresh(d, lines[all[j].endLine..])
         && Fresh(Inside(all[i].section, |Indent(lines[all[i].line - 1])|), lines[all[j].endLine..])
  {
    hide Entries, ReadAll, After, Read, Indent, Fresh;
    var all := Scan(lines);
    EntryCloses(lines, j);
    EntryCloses(lines, i);
    if i < j { InOrder(ReadAll(Top, lines), 1, i, j); }
    var s := lines[all[j].endLine..];
    if all[i].section != [] {
      IndentsFall(lines, i, j);
      FreshDeeper(all[i].section, |Indent(lines[all[j].line - 1])|, |Indent(lines[all[i].line - 1])|, s);
    }
  }

  /** What a file tells of any key before and after Set replaces entries i to j. */
  lemma ReplaceTells(lines: seq<string>, k: Name, i: nat, j: nat, want: Literal, q: Name)
    requires GoodKey(k) && Sound(want) && want != LList([])
    requires i <= j < |Scan(lines)| && Named(Scan(lines)[i..j + 1], k) == Scan(lines)[i..j + 1]
    requires Scan(lines)[j].line - Scan(lines)[i].line == j - i
    requires Scan(lines)[i].a.list || i == j
    ensures
      var all := Scan(lines);
      && 1 <= all[i].line <= |lines| && all[i].a.valueAt <= |LineAt(lines, all[i].line)|
      && var e := Replace(lines, all[i..j + 1], want);
         && InRange(|lines|, e)
         && Told(Top, lines, q) == ToldAbove(lines, i, q) + (if q == k then At0(all[i..j + 1]) else []) + ToldBelow(lines, j, q)
         && Told(Top, Replaced(lines, e), q) ==
            ToldAbove(lines, i, q) + (if q == k then Replacing(lines, k, all[i], want) else []) + ToldBelow(lines, j, q)
  {
    hide *;
    var all := Scan(lines);
    var es := all[i..j + 1];
    RangeSection(lines, i, j, k);
    LastSection(lines, i, j, k);
    ReplacementTold(lines, k, i, j, want, q);
    CutFacts(lines, i, j);
    CutTells(lines, i, j, q);
    var from, to := all[i].line - 1, all[j].endLine;
    var p, s := lines[..from], lines[to..];
    var c, d := After(Top, p), After(Top, lines[..to]);
    assert es[0] == all[i];
    ReplaceRange(lines, es, i, j, want);
    ChangedSome(lines, es, want);
    var changed := Replace(lines, es, want).lines;
    Splice(p, changed, s, q);
    InsideIs(k.section, |Indent(lines[all[i].line - 1])|);
    SameTail(After(c, changed), d, s, q);
    WholeTold(lines, i, j, k, q);
    CutIs(lines, i, j, q);
  }

  lemma InsideIs(section: string, indent: nat)
    ensures Inside(section, indent).section == section
  {
  }

  /** What is told above and below the entries replaced, in the terms of the cut. */
  lemma CutIs(lines: seq<string>, i: nat, j: nat, q: Name)
    requires i <= j < |Scan(lines)|
    ensures ToldAbove(lines, i, q) == At0(Named(Scan(lines)[..i], q))
    ensures ToldBelow(lines, j, q) == At0(Named(Scan(lines)[j + 1..], q))
  {
    hide Scan, Named, At0;
  }

  lemma ReplaceRange(lines: seq<string>, es: seq<Entry>, i: nat, j: nat, want: Literal)
    requires i <= j < |Scan(lines)| && es == Scan(lines)[i..j + 1]
    requires 1 <= es[0].line <= Scan(lines)[j].endLine <= |lines| && es[0].a.valueAt <= |LineAt(lines, es[0].line)|
    ensures
      var e := Replace(lines, es, want);
      && InRange(|lines|, e)
      && Replaced(lines, e) == lines[..es[0].line - 1] + e.lines + lines[Scan(lines)[j].endLine..]
  {
    hide Scan, ListLines, Spell, Indent;
    assert es[|es| - 1] == Scan(lines)[j];
  }

  lemma LastSection(lines: seq<string>, i: nat, j: nat, k: Name)
    requires i <= j < |Scan(lines)| && Named(Scan(lines)[i..j + 1], k) == Scan(lines)[i..j + 1]
    ensures Scan(lines)[j].section == k.section
  {
    hide Scan, Named;
    var es := Scan(lines)[i..j + 1];
    NamedFrom(es, k);
    assert es[j - i] in Named(es, k);
  }

  lemma ChangedSome(lines: seq<string>, es: seq<Entry>, want: Literal)
    requires es != [] && 1 <= es[0].line && es[0].a.valueAt <= |LineAt(lines, es[0].line)|
    requires want != LList([])
    ensures Replace(lines, es, want).lines != []
  {
    hide Spell, SpellString;
  }

  lemma WholeTold(lines: seq<string>, i: nat, j: nat, k: Name, q: Name)
    requires i <= j < |Scan(lines)| && Named(Scan(lines)[i..j + 1], k) == Scan(lines)[i..j + 1]
    ensures Told(Top, lines, q) ==
            ToldAbove(lines, i, q) + (if q == k then At0(Scan(lines)[i..j + 1]) else []) + ToldBelow(lines, j, q)
  {
    hide Entries, ReadAll, Named;
    var all := Scan(lines);
    var es := all[i..j + 1];
    assert all == all[..i] + (es + all[j + 1..]);
    NamedConcat(all[..i], es + all[j + 1..], q);
    NamedConcat(es, all[j + 1..], q);
    if q != k {
      NamedFrom(es, k);
      assert forall t :: 0 <= t < |es| ==> es[t] in Named(es, k);
      NamedNone(es, q);
    }
  }

  // ---- what the replaced key reads as ----

  lemma {:induction false} ItemsRead(k: Name, indent: string, sep: string, items: seq<string>)
    ensures
      var es := ItemEntries(k, indent, sep, items);
      && |es| == |items| && Lists(es) == es
      && (Items(es) == items <==> forall s :: s in items ==> UnquotesBack(s))
    decreases |items|
  {
    hide SpellString, Unquote, UnquotesBack;
    if items != [] {
      ItemsRead(k, indent, sep, items[1..]);
      UnquoteSpelled(items[0]);
      var es := ItemEntries(k, indent, sep, items);
      var rest := ItemEntries(k, indent, sep, items[1..]);
      assert es[1..] == rest;
      BuiltName(k.name, true, indent, sep, SpellString(items[0]));
      assert es[0].a.raw == SpellString(items[0]) && es[0].a.list;
      assert Items(es) == [Unquote(SpellString(items[0]))] + Items(rest);
      assert items == [items[0]] + items[1..];
      if Items(es) == items {
        assert Items(es)[1..] == Items(rest);
      }
    }
  }

  /** A list written between plain lines of the key is what the key reads as. */
  lemma ListReads(above: seq<Entry>, k: Name, indent: string, sep: string, items: seq<string>, below: seq<Entry>)
    requires Lists(above) == [] && Lists(below) == [] && items != []
    ensures Holds(ValueOf(above + ItemEntries(k, indent, sep, items) + below), LList(items)) <==> ReadsBack(LList(items))
  {
    hide Lists, Items, AnyInterpolates, UnquotesBack;
    var es := ItemEntries(k, indent, sep, items);
    ItemsRead(k, indent, sep, items);
    ListsConcat(above + es, below);
    ListsConcat(above, es);
    assert Lists(above + es + below) == es;
    ListsFrom(es);
    assert es[0] in Lists(es);
  }

  /** A plain line written between plain lines of the key is what it reads as exactly
      when it is the last. */
  lemma PlainReads(above: seq<Entry>, e: Entry, want: Literal, below: seq<Entry>)
    requires Lists(above) == [] && Lists(below) == []
    requires Sound(want) && !want.LList? && e.a.raw == Spell(want) && e.more == [] && !e.a.list
    ensures Holds(ValueOf(above + [e] + below), want) <==>
            if below == [] then ReadsBack(want) else Holds(PlainValue(below[|below| - 1]), want)
  {
    hide Lists, PlainValue, ReadsBack, Spell, Holds;
    var all := above + [e] + below;
    ListsConcat(above + [e], below);
    ListsConcat(above, [e]);
    ListsOne(e);
    assert Lists(all) == [];
    ListsFrom(all);
    PlainHolds(e, want);
    assert all[|all| - 1] == if below == [] then e else below[|below| - 1];
    assert all[|all| - 1] in all;
  }

  /** The lines Set replaces have the last word on the key. */
  predicate Decides(matched: seq<Entry>) {
    matched != [] && matched[|matched| - 1].a.list == (Lists(matched) != [])
  }

  lemma HoldsShown(v: Value, want: Literal)
    ensures Holds(v, want) <==> Holds(Shown(v), want)
  {
  }

  lemma PlainShown(e: Entry)
    ensures Shown(PlainValue(e)) == Shown(PlainValue(e.(line := 0, endLine := 0)))
  {
  }

  /** No file holds an empty list: a list is made of lines. */
  lemma EmptyListNeverHolds(lines: seq<string>, k: Name)
    ensures !Holds(Get(lines, k), LList([]))
  {
    hide Entries, ReadAll, Named, Lists, Interpolates, Join, ParseInt, Quoted;
    ListsFrom(Named(Scan(lines), k));
  }

  /** The key reads as what was written, when the lines written decide it. */
  lemma ReplacedReads(lines: seq<string>, k: Name, i: nat, j: nat, want: Literal, told: seq<Entry>)
    requires Sound(want) && want != LList([])
    requires i <= j < |Scan(lines)| && Scan(lines)[i].section == k.section
    requires Listed(Scan(lines)[..i], k) == [] && Listed(Scan(lines)[j + 1..], k) == []
    requires told == ToldAbove(lines, i, k) + Replacing(lines, k, Scan(lines)[i], want) + ToldBelow(lines, j, k)
    ensures
      var below := Named(Scan(lines)[j + 1..], k);
      Holds(ValueOf(told), want) <==>
      if want.LList? || below == [] then ReadsBack(want) else Holds(PlainValue(below[|below| - 1]), want)
  {
    hide Entries, ReadAll, Named, Lists, ParseInt, Holds, ValueOf, ReadsBack, Spell, PlainValue;
    var all := Scan(lines);
    ListsAt0(Named(all[..i], k));
    ListsAt0(Named(all[j + 1..], k));
    var above, below := ToldAbove(lines, i, k), ToldBelow(lines, j, k);
    var e := all[i];
    var indent := Indent(LineAt(lines, e.line));
    if want.LList? {
      ListReads(above, k, indent, e.a.sep, want.items, below);
    } else {
      BuiltName(k.name, false, indent, e.a.sep, Spell(want));
      PlainReads(above, Replacing(lines, k, e, want)[0], want, below);
      if below != [] {
        var last := Named(all[j + 1..], k)[|below| - 1];
        PlainShown(last);
        HoldsShown(PlainValue(last), want);
        HoldsShown(PlainValue(below[|below| - 1]), want);
      }
    }
  }

  lemma SetReplaces(lines: seq<string>, k: Name, want: Literal)
    requires Get(lines, k).kind != KindMissing && Set(lines, k, want).Change?
    ensures
      var es := Chosen(Named(Scan(lines), k));
      && Get(lines, k).editable && es != []
      && 1 <= es[0].line <= |lines| && es[0].a.valueAt <= |LineAt(lines, es[0].line)|
      && Set(lines, k, want).edit == Replace(lines, es, want)
  {
    hide Scan, Named, Chosen, Holds, Get, Replace, Insert;
    FoundChosen(lines, k);
    ChosenPlaced(lines, k);
  }

  lemma ReplaceFrame(lines: seq<string>, k: Name, want: Literal, q: Name)
    requires GoodKey(k) && Sound(want) && want != LList([]) && q != k
    requires Get(lines, k).kind != KindMissing && Set(lines, k, want).Change?
    ensures
      var e := Set(lines, k, want).edit;
      InRange(|lines|, e) && Shown(Get(Replaced(lines, e), q)) == Shown(Get(lines, q))
  {
    hide *;
    SetReplaces(lines, k, want);
    var e := Set(lines, k, want).edit;
    var i, j := ChosenRange(lines, k);
    ReplaceTells(lines, k, i, j, want, q);
    GetShown(Replaced(lines, e), q);
    GetShown(lines, q);
  }

  lemma ReplaceSetGet(lines: seq<string>, k: Name, want: Literal)
    requires GoodKey(k) && Sound(want) && want != LList([])
    requires Get(lines, k).kind != KindMissing && Set(lines, k, want).Change?
    ensures
      var e := Set(lines, k, want).edit;
      && InRange(|lines|, e)
      && var after, matched := Replaced(lines, e), Named(Scan(lines), k);
         && matched != []
         && (Holds(Get(after, k), want) <==>
             if want.LList? || Decides(matched) then ReadsBack(want)
             else Holds(PlainValue(matched[|matched| - 1]), want))
         && Told(Top, after, k) != []
  {
    hide *;
    SetReplaces(lines, k, want);
    var e := Set(lines, k, want).edit;
    var es := Chosen(Named(Scan(lines), k));
    var i, j := ChosenRange(lines, k);
    assert es[0] == Scan(lines)[i];
    ReplaceTells(lines, k, i, j, want, k);
    var after := Replaced(lines, e);
    RangeSection(lines, i, j, k);
    ReplacedReads(lines, k, i, j, want, Told(Top, after, k));
    ReplacingSome(lines, k, Scan(lines)[i], want);
    GetShown(after, k);
    HoldsShown(Get(after, k), want);
    HoldsShown(ValueOf(Told(Top, after, k)), want);
    DecidesBelow(lines, i, j, k);
  }

  /** Replacing a key the file states: it then holds the value exactly when the literal
      reads back and the lines replaced decide the key, and every other key reads as it
      did. */
  lemma ReplaceLaw(lines: seq<string>, k: Name, want: Literal)
    requires GoodKey(k) && Sound(want) && want != LList([])
    requires Get(lines, k).kind != KindMissing && Set(lines, k, want).Change?
    ensures
      var e := Set(lines, k, want).edit;
      && InRange(|lines|, e)
      && var after, matched := Replaced(lines, e), Named(Scan(lines), k);
         && matched != []
         && (Holds(Get(after, k), want) <==>
             if want.LList? || Decides(matched) then ReadsBack(want)
             else Holds(PlainValue(matched[|matched| - 1]), want))
         && Told(Top, after, k) != []
         && forall q :: q != k ==> Shown(Get(after, q)) == Shown(Get(lines, q))
  {
    hide *;
    ReplaceSetGet(lines, k, want);
    forall q | q != k
      ensures Shown(Get(Replaced(lines, Set(lines, k, want).edit), q)) == Shown(Get(lines, q))
    {
      ReplaceFrame(lines, k, want, q);
    }
  }

  lemma RangeSection(lines: seq<string>, i: nat, j: nat, k: Name)
    requires i <= j < |Scan(lines)| && Named(Scan(lines)[i..j + 1], k) == Scan(lines)[i..j + 1]
    ensures Scan(lines)[i].section == k.section
  {
    hide Scan, Named;
    var es := Scan(lines)[i..j + 1];
    NamedFrom(es, k);
    assert es[0] in Named(es, k);
  }

  lemma DecidesBelow(lines: seq<string>, i: nat, j: nat, k: Name)
    requires i <= j < |Scan(lines)| && Scan(lines)[i..j + 1] == Chosen(Named(Scan(lines), k))
    requires Named(Scan(lines)[i..j + 1], k) == Scan(lines)[i..j + 1]
    requires Listed(Scan(lines)[j + 1..], k) == []
    ensures
      var matched, below := Named(Scan(lines), k), Named(Scan(lines)[j + 1..], k);
      && matched != []
      && (Decides(matched) <==> below == [] || !Scan(lines)[i].a.list)
      && (below != [] ==> matched[|matched| - 1] == below[|below| - 1])
  {
    hide Entries, ReadAll, Named, Lists;
    var all := Scan(lines);
    var es := all[i..j + 1];
    assert all == all[..i] + (es + all[j + 1..]);
    NamedConcat(all[..i], es + all[j + 1..], k);
    NamedConcat(es, all[j + 1..], k);
    var matched, below := Named(all, k), Named(all[j + 1..], k);
    ListsFrom(below);
    ChosenFrom(matched);
    assert es[0] == all[i] && es[0] in es && es[j - i] in es;
    if below == [] {
      assert matched[|matched| - 1] == es[j - i];
    } else {
      assert matched[|matched| - 1] == below[|below| - 1] && below[|below| - 1] in below;
    }
  }
}
