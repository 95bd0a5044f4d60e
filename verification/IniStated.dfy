/** The ini scanner files exactly what a file states: every key with its section, its value,
    where the value is and the lines that continue it, and every section header, for every
    file written as ini files are (internal/configfile/ini.go: iniScan). */
module IniStated {
  import opened Text
  import opened IniScan
  import L = IniLines
  import opened IniGrammar

  // ---- one line ----

  lemma CharsAre(s: string)
    ensures IsBlanks(s) <==> L.Blanks(s)
    ensures IsSpaces(s) ==> L.Spaces(s)
    ensures IsBlanks(s) ==> IsSpaces(s)
    ensures Tight(s) ==> s != [] && Trimmed(s)
  {
    forall i | 0 <= i < |s| && (IsBlanks(s) || IsSpaces(s)) ensures s[i] in s {}
    if L.Blanks(s) {
      forall c | c in s ensures c in BLANKS { var i :| 0 <= i < |s| && s[i] == c; }
    }
  }

  /** Blanks, and then a byte that is no space: what a line is trimmed to and indented by. */
  lemma LineOpens(indent: string, core: string, tail: string)
    requires IsBlanks(indent) && Tight(core) && IsSpaces(tail)
    ensures var line := indent + core + tail; TrimSpace(line) == core && Indent(line) == indent && line != []
  {
    hide TrimSpace, Lead;
    CharsAre(indent);
    CharsAre(core);
    CharsAre(tail);
    L.TrimSpaceOf(indent, core, tail);
    var line := indent + core + tail;
    assert line[|indent|] == core[0];
    assert forall i :: 0 <= i < |indent| ==> line[i] == indent[i];
    LeadIs(IsBlank, line, |indent|);
    assert line[..|indent|] == indent;
  }

  lemma EmptyRead(ctx: Ctx, space: string)
    requires IsSpaces(space)
    ensures Read(ctx, space) == Gap
  {
    CharsAre(space);
    hide TrimSpace, Lead;
    L.TrimSpaceHead(space);
    LeadIs(IsSpace, space, |space|);
  }

  lemma RemarkRead(ctx: Ctx, indent: string, mark: char, text: string)
    requires IsBlanks(indent) && mark in ";#"
    ensures Read(ctx, indent + [mark] + text) == Gap
  {
    CharsAre(indent);
    hide TrimSpace, Lead;
    var line := indent + [mark] + text;
    assert forall i :: 0 <= i < |indent| ==> line[i] == indent[i];
    assert line[|indent|] == mark;
    L.TrimSpaceHead(line);
    LeadIs(IsSpace, line, |indent|);
  }

  /** A line that continues nothing. */
  predicate Shallow(ctx: Ctx, indent: string) {
    ctx.open.Some? ==> |indent| <= ctx.open.value
  }

  lemma SectionRead(ctx: Ctx, b: Block)
    requires b.Section? && BlockFits(b, ctx.section) && Shallow(ctx, b.indent)
    ensures Read(ctx, FirstLine(b)) == Header(b.name)
  {
    var inner := b.before + b.name + b.after;
    var core := "[" + inner + "]";
    assert b.Section? && IsBlanks(b.indent) && IsSpaces(b.before) && Tight(b.name) && IsSpaces(b.after) && IsSpaces(b.tail);
    assert FirstLine(b) == b.indent + core + b.tail;
    hide *;
    Bracketed(inner);
    LineOpens(b.indent, core, b.tail);
    CharsAre(b.before);
    CharsAre(b.name);
    CharsAre(b.after);
    L.TrimSpaceOf(b.before, b.name, b.after);
    HeaderReads(ctx, FirstLine(b), inner, b.indent);
  }

  lemma Bracketed(inner: string)
    ensures var core := "[" + inner + "]"; Tight(core) && core[0] == '[' && core[|core| - 1] == ']' && core[1..|core| - 1] == inner
  {
  }

  lemma HeaderReads(ctx: Ctx, line: string, inner: string, indent: string)
    requires TrimSpace(line) == "[" + inner + "]" && Indent(line) == indent && Shallow(ctx, indent)
    ensures Read(ctx, line) == Header(TrimSpace(inner))
  {
    hide TrimSpace, Lead, Indent;
    var core := "[" + inner + "]";
    assert core[0] == '[' && core[|core| - 1] == ']' && core[1..|core| - 1] == inner;
  }

  lemma WordRead(ctx: Ctx, b: Block)
    requires b.Word? && BlockFits(b, ctx.section) && Shallow(ctx, b.indent)
    ensures Read(ctx, FirstLine(b)) == Other
  {
    NoEquals(b);
    hide TrimSpace, Lead, AssignmentOf;
    LineOpens(b.indent, b.text, b.tail);
  }

  lemma NoEquals(b: Block)
    requires b.Word? && BlockFits(b, "")
    ensures AssignmentOf(FirstLine(b)) == None
  {
    hide AssignmentAt, Lead, IndexByte;
    assert '=' !in FirstLine(b);
    NoIndex(FirstLine(b), '=');
  }

  lemma NoIndex(s: string, c: char)
    requires c !in s
    ensures IndexByte(s, c) == None
  {
    hide IndexByte;
  }

  lemma MoreRead(ctx: Ctx, indent: string, m: MoreLine)
    requires MoreFits(indent, m) && ctx.open == Some(|indent|)
    ensures Read(ctx, SpellMore(m)) == More(m.text)
  {
    LineOpens(m.indent, m.text, m.tail);
    hide TrimSpace, Lead;
  }

  /** The value of a key, with the blanks that end the line left out. */
  lemma PairAssigns(b: Block)
    requires b.Pair? && BlockFits(b, "s")
    ensures AssignmentOf(FirstLine(b)) == Some(EntryStated(b, "", 0).a)
  {
    hide *;
    PairParts(b);
    var core, line := L.Core(b.name, b.list), FirstLine(b);
    var c := b.sep.after;
    L.BuiltHead(b.indent, core, b.sep.before);
    ValueCuts(b.indent + core, b.sep.before, c, b.raw, b.tail);
    L.CoreFacts(b.name, b.list);
    L.BuiltIs(b.name, b.list, b.indent, "=", b.raw);
    var eq := |b.indent + core| + |b.sep.before|;
    L.AssignmentIs(line, eq, eq + 1 + |c|, core);
  }

  lemma PairParts(b: Block)
    requires b.Pair? && BlockFits(b, "s")
    ensures
      var core := L.Core(b.name, b.list);
      && L.GoodName(b.name) && core != [] && Trimmed(core) && '=' !in b.indent + core
      && L.Blanks(b.indent) && L.Blanks(b.sep.before) && L.Blanks(b.sep.after) && L.Blanks(b.tail) && L.Solid(b.raw)
      && (b.raw == [] ==> b.tail == [])
      && FirstLine(b) == (b.indent + core) + b.sep.before + "=" + b.sep.after + (b.raw + b.tail)
      && EntryStated(b, "", 0).a == Assignment(b.name, b.list, b.sep.before + "=" + b.sep.after, |b.indent + core| + |b.sep.before| + 1 + |b.sep.after|, b.raw)
  {
    hide *;
    PairFits(b, "s");
    CharsAre(b.indent);
    CharsAre(b.sep.before);
    CharsAre(b.sep.after);
    CharsAre(b.tail);
    NameIsGood(b.name);
    L.CoreFacts(b.name, b.list);
    IndentIsPlain(b.indent);
    SpelledPair(b.indent, L.Core(b.name, b.list), b.sep.before, b.sep.after, b.raw, b.tail);
    PairIs(b, "", 0);
  }

  lemma PairFits(b: Block, section: string)
    requires b.Pair? && BlockFits(b, section)
    ensures IsBlanks(b.indent) && IsBlanks(b.sep.before) && IsBlanks(b.sep.after) && IsBlanks(b.tail) && NameFits(b.name)
    ensures L.Solid(b.raw) && (b.raw == [] ==> b.tail == [])
    ensures b.more != [] ==> section != ""
    ensures forall i :: 0 <= i < |b.more| ==> MoreFits(b.indent, b.more[i])
  {
    hide NameFits, MoreFits;
  }

  lemma PairIs(b: Block, section: string, at: nat)
    requires b.Pair?
    ensures FirstLine(b) == b.indent + L.Core(b.name, b.list) + (b.sep.before + "=" + b.sep.after) + b.raw + b.tail
    ensures EntryStated(b, section, at).a
            == Assignment(b.name, b.list, b.sep.before + "=" + b.sep.after, |b.indent + L.Core(b.name, b.list)| + |b.sep.before + "=" + b.sep.after|, b.raw)
  {
    assert b.name + "" == b.name;
  }

  lemma SpelledPair(indent: string, core: string, b: string, c: string, raw: string, tail: string)
    requires '=' !in indent && '=' !in core
    ensures indent + core + (b + "=" + c) + raw + tail == (indent + core) + b + "=" + c + (raw + tail)
    ensures '=' !in indent + core && |b + "=" + c| == |b| + 1 + |c| && |indent + core| == |indent| + |core|
  {
  }

  lemma IndentIsPlain(indent: string)
    requires IsBlanks(indent)
    ensures '=' !in indent
  {
  }

  lemma NameIsGood(name: string)
    requires NameFits(name)
    ensures L.GoodName(name)
  {
  }

  lemma ValueCuts(pre: string, b: string, c: string, raw: string, tail: string)
    requires '=' !in pre && L.Blanks(b) && L.Blanks(c) && L.Solid(raw) && L.Blanks(tail) && (raw == [] ==> tail == [])
    ensures
      var line := pre + b + "=" + c + (raw + tail);
      var eq := |pre| + |b|;
      && IndexByte(line, '=') == Some(eq) && eq + 1 + |c| <= |line|
      && line[..eq] == pre + b
      && Lead(IsBlank, line[eq + 1..]) == |c|
      && TrimRight(IsBlank, line[eq + 1 + |c|..]) == raw
      && line[|pre|..eq + 1 + |c|] == b + "=" + c
  {
    hide IndexByte, Lead, TrimRight;
    var line := pre + b + "=" + c + (raw + tail);
    var eq := |pre| + |b|;
    assert line == (pre + b) + ("=" + c + (raw + tail));
    forall j | 0 <= j < eq ensures line[j] != '=' {
      if j < |pre| { assert line[j] == pre[j] && pre[j] in pre; } else { assert line[j] == b[j - |pre|]; }
    }
    assert line[eq] == '=';
    L.IndexIs(line, '=', eq);
    var rest := line[eq + 1..];
    assert rest == c + (raw + tail);
    forall i | 0 <= i < |c| ensures IsBlank(rest[i]) { assert rest[i] == c[i]; }
    assert raw == [] ==> rest == c;
    assert raw != [] ==> rest[|c|] == raw[0];
    LeadIs(IsBlank, rest, |c|);
    assert line[eq + 1 + |c|..] == raw + tail;
    L.TrimRightOf(raw, tail);
  }

  // ---- the lines of a block ----

  /** What the lines that continue a value read as. */
  function MoreEvents(ms: seq<MoreLine>): seq<Event> {
    seq(|ms|, i requires 0 <= i < |ms| => More(ms[i].text))
  }

  function FirstEvent(b: Block, section: string): Event {
    match b
    case Empty(_) => Gap
    case Remark(_, _, _) => Gap
    case Section(_, _, name, _, _) => Header(name)
    case Pair(indent, _, _, _, _, _, _) => Assign(section, EntryStated(b, section, 0).a, |indent|)
    case Word(_, _, _) => Other
  }

  function Events(b: Block, section: string): seq<Event> {
    [FirstEvent(b, section)] + if b.Pair? then MoreEvents(b.more) else []
  }

  lemma {:induction false} MoresRead(ctx: Ctx, indent: string, ms: seq<MoreLine>)
    requires ctx.open == Some(|indent|) && forall i :: 0 <= i < |ms| ==> MoreFits(indent, ms[i])
    ensures ReadAll(ctx, MoreLines(ms)) == MoreEvents(ms) && After(ctx, MoreLines(ms)) == ctx
    decreases |ms|
  {
    hide MoreFits, Read, SpellMore;
    if ms != [] {
      MoreRead(ctx, indent, ms[0]);
      MoresRead(ctx, indent, ms[1..]);
      assert MoreLines(ms) == [SpellMore(ms[0])] + MoreLines(ms[1..]);
      assert MoreEvents(ms) == [More(ms[0].text)] + MoreEvents(ms[1..]);
    }
  }

  lemma FirstRead(ctx: Ctx, b: Block)
    requires BlockFits(b, ctx.section) && NotDeeper(b, ctx.open)
    ensures Read(ctx, FirstLine(b)) == FirstEvent(b, ctx.section)
  {
    match b
    case Empty(space) => hide Read; EmptyRead(ctx, space);
    case Remark(indent, mark, text) => hide Read; RemarkRead(ctx, indent, mark, text);
    case Section(_, _, _, _, _) => hide Read; SectionRead(ctx, b);
    case Word(_, _, _) => hide Read; WordRead(ctx, b);
    case Pair(_, _, _, _, _, _, _) => PairRead(ctx, b);
  }

  lemma PairRead(ctx: Ctx, b: Block)
    requires b.Pair? && BlockFits(b, ctx.section) && NotDeeper(b, ctx.open)
    ensures Read(ctx, FirstLine(b)) == FirstEvent(b, ctx.section)
  {
    AnySection(b, ctx.section);
    hide *;
    PairAssigns(b);
    PairParts(b);
    NotDeeperIs(b, ctx);
    var core := L.Core(b.name, b.list);
    CoreOpens(b.name, b.list);
    PairBytes(b.indent, core, b.sep.before, b.sep.after, b.raw + b.tail);
    PairOpens(FirstLine(b), b.indent, core[0]);
    PairReads(ctx, b);
  }

  lemma AnySection(b: Block, section: string)
    requires b.Pair? && BlockFits(b, section)
    ensures BlockFits(b, "s")
  {
  }

  lemma NotDeeperIs(b: Block, ctx: Ctx)
    requires b.Pair? && NotDeeper(b, ctx.open)
    ensures Shallow(ctx, b.indent)
  {
  }

  lemma CoreOpens(name: string, list: bool)
    requires L.GoodName(name)
    ensures
      var core := L.Core(name, list);
      core != [] && !IsSpace(core[0]) && core[0] != '[' && core[0] != ';' && core[0] != '#'
  {
  }

  lemma PairBytes(indent: string, core: string, b: string, c: string, v: string)
    requires core != []
    ensures var line := (indent + core) + b + "=" + c + v; |line| > |indent| && line[..|indent|] == indent && line[|indent|] == core[0]
  {
  }

  lemma PairOpens(line: string, indent: string, c: char)
    requires L.Blanks(indent) && !IsSpace(c) && c != '[' && c != ';' && c != '#'
    requires |line| > |indent| && line[..|indent|] == indent && line[|indent|] == c
    ensures Indent(line) == indent && !Introduces(line) && SectionName(TrimSpace(line)).None?
  {
    hide Introduces, SectionName, TrimSpace, Lead;
    forall j | 0 <= j < |indent| ensures IsBlank(line[j]) { assert line[j] == indent[j]; }
    L.OpensWith(line, |indent|);
    LeadIs(IsBlank, line, |indent|);
  }

  lemma PairReads(ctx: Ctx, b: Block)
    requires b.Pair? && AssignmentOf(FirstLine(b)) == Some(EntryStated(b, "", 0).a)
    requires
      var line := FirstLine(b);
      Indent(line) == b.indent && Shallow(ctx, b.indent) && !Introduces(line) && SectionName(TrimSpace(line)).None?
    ensures Read(ctx, FirstLine(b)) == FirstEvent(b, ctx.section)
  {
    hide AssignmentOf, Indent, Introduces, SectionName, FirstLine;
  }

  /** The lines of a block read as what it states, and leave the section and the indentation
      behind that it opens. */
  lemma BlockRead(ctx: Ctx, b: Block)
    requires BlockFits(b, ctx.section) && NotDeeper(b, ctx.open)
    ensures ReadAll(ctx, Lines(b)) == Events(b, ctx.section)
    ensures After(ctx, Lines(b)) == Ctx(SectionBehind(b, ctx.section), Open(b, ctx.section))
  {
    var ms := if b.Pair? then b.more else [];
    var next := Next(ctx, FirstEvent(b, ctx.section));
    assert next == Ctx(SectionBehind(b, ctx.section), Open(b, ctx.section));
    assert Lines(b) == [FirstLine(b)] + MoreLines(ms);
    assert Events(b, ctx.section) == [FirstEvent(b, ctx.section)] + MoreEvents(ms);
    if b.Pair? { PairFits(b, ctx.section); }
    hide Read, Next, FirstLine, FirstEvent, MoreFits, MoreLines, MoreEvents, BlockFits, NotDeeper;
    FirstRead(ctx, b);
    ReadOne(ctx, FirstLine(b));
    ReadConcat(ctx, [FirstLine(b)], MoreLines(ms));
    if ms != [] {
      MoresRead(next, b.indent, ms);
    } else {
      NoMores(next, ms);
    }
  }

  lemma NoMores(ctx: Ctx, ms: seq<MoreLine>)
    requires ms == []
    ensures ReadAll(ctx, MoreLines(ms)) == MoreEvents(ms) && After(ctx, MoreLines(ms)) == ctx
  {
  }

  lemma BlockStates(b: Block, section: string, at: nat)
    ensures Entries(Events(b, section), at) == if b.Pair? then [EntryStated(b, section, at)] else []
    ensures Headers(Events(b, section), at) == if b.Section? then [HeaderLine(b.name, at)] else []
    ensures |Events(b, section)| == |Lines(b)| && Events(b, section) != [] && !Events(b, section)[0].More?
  {
    var evs := Events(b, section);
    if b.Pair? {
      var ms := MoreEvents(b.more);
      assert evs[1..] == ms;
      MoresIs(ms, |ms|);
      assert ms[..|ms|] == ms && evs[1 + |ms|..] == [];
      assert Texts(ms) == EntryStated(b, section, at).more;
      HeadersOf(ms, at + 1);
    } else {
      assert evs == [FirstEvent(b, section)] && evs[1..] == [];
    }
  }

  lemma {:induction false} HeadersOf(evs: seq<Event>, at: nat)
    requires forall i :: 0 <= i < |evs| ==> evs[i].More?
    ensures Headers(evs, at) == []
  {
    if evs != [] { HeadersOf(evs[1..], at + 1); }
  }

  // ---- files ----

  lemma {:induction false} FileRead(bs: seq<Block>, ctx: Ctx, at: nat)
    requires FileFits(bs, ctx.section, ctx.open)
    ensures
      var evs := ReadAll(ctx, FileLines(bs));
      && (evs != [] ==> !evs[0].More?)
      && Entries(evs, at) == EntriesStated(bs, ctx.section, at)
      && Headers(evs, at) == HeadersStated(bs, at)
    decreases |bs|
  {
    hide *;
    if bs == [] {
      NoBlocks(ctx, at);
    } else {
      FileFirst(bs, ctx, at);
      var b := bs[0];
      FileRead(bs[1..], Ctx(SectionBehind(b, ctx.section), Open(b, ctx.section)), at + |Lines(b)|);
      BlockAndRest(b, FileLines(bs[1..]), ctx, at);
    }
  }

  lemma NoBlocks(ctx: Ctx, at: nat)
    ensures ReadAll(ctx, FileLines([])) == [] && Entries([], at) == EntriesStated([], ctx.section, at) && Headers([], at) == HeadersStated([], at)
  {
  }

  lemma BlockAndRest(b: Block, rest: seq<string>, ctx: Ctx, at: nat)
    requires BlockFits(b, ctx.section) && NotDeeper(b, ctx.open)
    requires
      var more := ReadAll(Ctx(SectionBehind(b, ctx.section), Open(b, ctx.section)), rest);
      more != [] ==> !more[0].More?
    ensures
      var more := ReadAll(Ctx(SectionBehind(b, ctx.section), Open(b, ctx.section)), rest);
      var evs := ReadAll(ctx, Lines(b) + rest);
      && (evs != [] ==> !evs[0].More?)
      && Entries(evs, at) == (if b.Pair? then [EntryStated(b, ctx.section, at)] else []) + Entries(more, at + |Lines(b)|)
      && Headers(evs, at) == (if b.Section? then [HeaderLine(b.name, at)] else []) + Headers(more, at + |Lines(b)|)
  {
    hide *;
    var next := Ctx(SectionBehind(b, ctx.section), Open(b, ctx.section));
    var evs, more := Events(b, ctx.section), ReadAll(next, rest);
    BlockRead(ctx, b);
    ReadConcat(ctx, Lines(b), rest);
    BlockStates(b, ctx.section, at);
    EntriesConcat(evs, more, at);
    HeadersConcat(evs, more, at);
    FirstOf(evs, more);
  }

  lemma FirstOf(a: seq<Event>, b: seq<Event>)
    requires a != []
    ensures (a + b)[0] == a[0]
  {
  }

  lemma FileFirst(bs: seq<Block>, ctx: Ctx, at: nat)
    requires bs != [] && FileFits(bs, ctx.section, ctx.open)
    ensures
      var b := bs[0];
      && BlockFits(b, ctx.section) && NotDeeper(b, ctx.open)
      && FileFits(bs[1..], SectionBehind(b, ctx.section), Open(b, ctx.section))
      && FileLines(bs) == Lines(b) + FileLines(bs[1..]) && |Lines(b)| > 0
      && EntriesStated(bs, ctx.section, at)
         == (if b.Pair? then [EntryStated(b, ctx.section, at)] else []) + EntriesStated(bs[1..], SectionBehind(b, ctx.section), at + |Lines(b)|)
      && HeadersStated(bs, at) == (if b.Section? then [HeaderLine(b.name, at)] else []) + HeadersStated(bs[1..], at + |Lines(b)|)
  {
    hide BlockFits, NotDeeper, EntryStated, FirstLine;
  }

  /** Of every file that is written as ini files are, the scan files exactly what it states: the
      keys in order with their sections, values and places, and the section headers. */
  lemma ScanIsStated(bs: seq<Block>)
    requires FileFits(bs, "", None)
    ensures Entries(ReadAll(Top, FileLines(bs)), 1) == EntriesStated(bs, "", 1)
    ensures Headers(ReadAll(Top, FileLines(bs)), 1) == HeadersStated(bs, 1)
  {
    assert Top == Ctx("", None);
    hide *;
    FileRead(bs, Top, 1);
  }
}
