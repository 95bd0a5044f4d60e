/** The ini scanner (internal/configfile/ini.go): which line of a file is an assignment,
    a continuation of one, a section header or none of these.

    The loop of iniScan keeps the entries read so far and asks of each line whether it
    continues the last of them. The specification reads a line in a context of two
    facts, the section and the indentation a continuation has to exceed, so that the
    reading of a file is the reading of its parts one after the other. */
module IniScan {
  import opened Text

  /** One "key = value" line, with what an edit needs to rewrite only its value. */
  datatype Assignment = Assignment(name: string, list: bool, sep: string, valueAt: nat, raw: string)

  /** An assignment the scanner placed: the 1-based lines it occupies and the trimmed
      continuation lines under it. */
  datatype Entry = Entry(section: string, a: Assignment, line: nat, endLine: nat, more: seq<string>)

  datatype HeaderLine = HeaderLine(name: string, line: nat)

  /** What one line is. */
  datatype Event =
    | Gap
    | More(text: string)
    | Header(name: string)
    | Assign(section: string, a: Assignment, indent: nat)
    | Other

  /** The section a line is read in, and the indentation of the assignment the line
      above belongs to when a deeper line would continue it. */
  datatype Ctx = Ctx(section: string, open: Option<nat>)

  const Top := Ctx("", None)

  /** A blank line or a comment. */
  predicate Introduces(line: string) {
    var trimmed := TrimSpace(line);
    trimmed == [] || trimmed[0] == ';' || trimmed[0] == '#'
  }

  function SectionName(trimmed: string): Option<string> {
    if trimmed != [] && trimmed[0] == '[' && trimmed[|trimmed| - 1] == ']' then
      Some(TrimSpace(trimmed[1..|trimmed| - 1]))
    else None
  }

  predicate EndsInList(name: string) {
    |name| >= 2 && name[|name| - 2] == '[' && name[|name| - 1] == ']'
  }

  function AssignmentAt(line: string, eq: nat, valueAt: nat): Option<Assignment>
    requires eq < valueAt <= |line|
  {
    var head := line[..eq];
    var name := TrimSpace(head);
    if name == [] then None
    else
      var list := EndsInList(name);
      Some(Assignment(
        if list then name[..|name| - 2] else name,
        list,
        line[|TrimRight(IsBlank, head)|..valueAt],
        valueAt,
        TrimRight(IsBlank, line[valueAt..])))
  }

  function AssignmentOf(line: string): Option<Assignment> {
    match IndexByte(line, '=')
    case None => None
    case Some(eq) => AssignmentAt(line, eq, eq + 1 + Lead(IsBlank, line[eq + 1..]))
  }

  /** iniAssignment. */
  method IniAssignment(line: string) returns (r: Option<Assignment>)
    ensures r == AssignmentOf(line)
  {
    var found := IndexByte(line, '=');
    if found.None? {
      return None;
    }
    var eq := found.value;
    hide *;
    var valueAt := eq + 1;
    while valueAt < |line| && IsBlank(line[valueAt])
      invariant eq + 1 <= valueAt <= |line|
      invariant forall i :: eq + 1 <= i < valueAt ==> IsBlank(line[i])
    {
      valueAt := valueAt + 1;
    }
    BlanksFrom(line, eq + 1, valueAt);
    AssignmentFrom(line, eq, valueAt);
    r := AssignmentAt(line, eq, valueAt);
  }

  lemma BlanksFrom(line: string, from: nat, to: nat)
    requires from <= to <= |line|
    requires forall i :: from <= i < to ==> IsBlank(line[i])
    requires to < |line| ==> !IsBlank(line[to])
    ensures Lead(IsBlank, line[from..]) == to - from
  {
    hide Lead;
    var s := line[from..];
    forall i | 0 <= i < to - from ensures IsBlank(s[i]) { assert s[i] == line[from + i]; }
    assert to < |line| ==> s[to - from] == line[to];
    LeadIs(IsBlank, s, to - from);
  }

  lemma AssignmentFrom(line: string, eq: nat, valueAt: nat)
    requires IndexByte(line, '=') == Some(eq) && eq < valueAt <= |line|
    requires Lead(IsBlank, line[eq + 1..]) == valueAt - eq - 1
    ensures AssignmentOf(line) == AssignmentAt(line, eq, valueAt)
  {
    hide IndexByte, Lead, AssignmentAt;
  }

  lemma LeadIs(p: char -> bool, s: string, n: nat)
    requires n <= |s|
    requires forall i :: 0 <= i < n ==> p(s[i])
    requires n < |s| ==> !p(s[n])
    ensures Lead(p, s) == n
  {
    hide Lead;
  }

  predicate Continues(ctx: Ctx, line: string) {
    ctx.open.Some? && |Indent(line)| > ctx.open.value
  }

  function Read(ctx: Ctx, line: string): Event {
    if Introduces(line) then Gap
    else if Continues(ctx, line) then More(TrimSpace(line))
    else
      match SectionName(TrimSpace(line))
      case Some(name) => Header(name)
      case None =>
        match AssignmentOf(line)
        case Some(a) => Assign(ctx.section, a, |Indent(line)|)
        case None => Other
  }

  function Next(ctx: Ctx, ev: Event): Ctx {
    match ev
    case More(_) => ctx
    case Header(name) => Ctx(name, None)
    case Assign(section, _, indent) => Ctx(ctx.section, if section == [] then None else Some(indent))
    case _ => Ctx(ctx.section, None)
  }

  function ReadAll(ctx: Ctx, lines: seq<string>): (evs: seq<Event>)
    ensures |evs| == |lines|
    decreases |lines|
  {
    if lines == [] then []
    else
      var ev := Read(ctx, lines[0]);
      [ev] + ReadAll(Next(ctx, ev), lines[1..])
  }

  /** The context after a run of lines. */
  function After(ctx: Ctx, lines: seq<string>): Ctx
    decreases |lines|
  {
    if lines == [] then ctx else After(Next(ctx, Read(ctx, lines[0])), lines[1..])
  }

  /** How many of the leading events continue an assignment. */
  function Mores(evs: seq<Event>): (k: nat)
    ensures k <= |evs|
    ensures forall i :: 0 <= i < k ==> evs[i].More?
    ensures k < |evs| ==> !evs[k].More?
  {
    if evs != [] && evs[0].More? then 1 + Mores(evs[1..]) else 0
  }

  function Texts(evs: seq<Event>): seq<string>
    requires forall i :: 0 <= i < |evs| ==> evs[i].More?
  {
    seq(|evs|, i requires 0 <= i < |evs| => evs[i].text)
  }

  function EntryOf(evs: seq<Event>, at: nat): Entry
    requires evs != [] && evs[0].Assign?
  {
    var k := Mores(evs[1..]);
    Entry(evs[0].section, evs[0].a, at, at + k, Texts(evs[1..][..k]))
  }

  /** The assignments of a run of events whose first line is line `at`. */
  function Entries(evs: seq<Event>, at: nat): seq<Entry> {
    if evs == [] then []
    else if evs[0].Assign? then
      var k := Mores(evs[1..]);
      [EntryOf(evs, at)] + Entries(evs[1 + k..], at + 1 + k)
    else Entries(evs[1..], at + 1)
  }

  function Headers(evs: seq<Event>, at: nat): seq<HeaderLine> {
    if evs == [] then []
    else (if evs[0].Header? then [HeaderLine(evs[0].name, at)] else []) + Headers(evs[1..], at + 1)
  }

  // ---- the reading of a file is the reading of its parts ----

  lemma {:induction false} ReadConcat(ctx: Ctx, a: seq<string>, b: seq<string>)
    ensures ReadAll(ctx, a + b) == ReadAll(ctx, a) + ReadAll(After(ctx, a), b)
    ensures After(ctx, a + b) == After(After(ctx, a), b)
    decreases |a|
  {
    hide Read, Next;
    if a == [] {
      assert a + b == b;
    } else {
      ReadConcat(Next(ctx, Read(ctx, a[0])), a[1..], b);
      assert (a + b)[1..] == a[1..] + b;
    }
  }

  lemma ReadOne(ctx: Ctx, line: string)
    ensures ReadAll(ctx, [line]) == [Read(ctx, line)]
    ensures After(ctx, [line]) == Next(ctx, Read(ctx, line))
  {
    hide Read, Next;
    assert [line][1..] == [];
  }

  lemma {:induction false} MoresConcat(a: seq<Event>, b: seq<Event>)
    requires b != [] ==> !b[0].More?
    ensures Mores(a + b) == Mores(a)
  {
    var k := Mores(a);
    assert forall i :: 0 <= i < k ==> (a + b)[i] == a[i];
    assert k < |a| ==> (a + b)[k] == a[k];
    assert k == |a| && b != [] ==> (a + b)[k] == b[0];
    MoresIs(a + b, k);
  }

  lemma MoresIs(evs: seq<Event>, n: nat)
    requires n <= |evs|
    requires forall i :: 0 <= i < n ==> evs[i].More?
    requires n < |evs| ==> !evs[n].More?
    ensures Mores(evs) == n
  {
    hide Mores;
  }

  lemma EntryConcat(a: seq<Event>, b: seq<Event>, at: nat)
    requires a != [] && a[0].Assign?
    requires b != [] ==> !b[0].More?
    ensures EntryOf(a + b, at) == EntryOf(a, at)
    ensures Mores((a + b)[1..]) == Mores(a[1..])
  {
    hide Mores;
    assert (a + b)[1..] == a[1..] + b;
    MoresConcat(a[1..], b);
    var k := Mores(a[1..]);
    assert (a[1..] + b)[..k] == a[1..][..k];
  }

  /** Splitting a run of events where no assignment is continued splits its entries. */
  lemma {:induction false} EntriesConcat(a: seq<Event>, b: seq<Event>, at: nat)
    requires b != [] ==> !b[0].More?
    ensures Entries(a + b, at) == Entries(a, at) + Entries(b, at + |a|)
    decreases |a|
  {
    hide *;
    EntriesFirst(a, at);
    EntriesFirst(a + b, at);
    if a == [] {
      assert a + b == b && [] + Entries(b, at) == Entries(b, at);
    } else if a[0].Assign? {
      var k := Mores(a[1..]);
      EntryConcat(a, b, at);
      EntriesConcat(a[1 + k..], b, at + 1 + k);
      TailOf(a, b, 1 + k);
      Grouped([EntryOf(a, at)], Entries(a[1 + k..], at + 1 + k), Entries(b, at + |a|));
    } else {
      EntriesConcat(a[1..], b, at + 1);
      TailOf(a, b, 1);
    }
  }

  lemma {:induction false} HeadersConcat(a: seq<Event>, b: seq<Event>, at: nat)
    ensures Headers(a + b, at) == Headers(a, at) + Headers(b, at + |a|)
  {
    hide *;
    HeadersFirst(a, at);
    HeadersFirst(a + b, at);
    if a == [] {
      assert a + b == b && [] + Headers(b, at) == Headers(b, at);
    } else {
      HeadersConcat(a[1..], b, at + 1);
      TailOf(a, b, 1);
      Grouped(if a[0].Header? then [HeaderLine(a[0].name, at)] else [], Headers(a[1..], at + 1), Headers(b, at + |a|));
    }
  }

  lemma HeadersFirst(evs: seq<Event>, at: nat)
    ensures evs == [] ==> Headers(evs, at) == []
    ensures evs != [] ==> Headers(evs, at) == (if evs[0].Header? then [HeaderLine(evs[0].name, at)] else []) + Headers(evs[1..], at + 1)
  {
  }

  function Extended(e: Entry, text: string): Entry {
    e.(more := e.more + [text], endLine := e.endLine + 1)
  }

  /** A continuation line extends the last entry, when that entry reaches up to it. */
  lemma {:induction false} EntriesMore(a: seq<Event>, text: string, at: nat)
    requires
      var es := Entries(a, at);
      es != [] && es[|es| - 1].endLine == at + |a| - 1
    ensures
      var es := Entries(a, at);
      Entries(a + [More(text)], at) == es[|es| - 1 := Extended(es[|es| - 1], text)]
    decreases |a|
  {
    hide *;
    var b := a + [More(text)];
    EntriesFirst(a, at);
    EntriesFirst(b, at);
    if a == [] {
    } else if a[0].Assign? {
      var k := Mores(a[1..]);
      var rest := a[1 + k..];
      if rest == [] {
        LoneEntry(a, text, at);
      } else {
        MoreInRest(a, text, at);
        var es := Entries(rest, at + 1 + k);
        assert es != [];
        UpdateLater(EntryOf(a, at), es, Extended(es[|es| - 1], text));
        EntriesMore(rest, text, at + 1 + k);
        TailOf(a, [More(text)], 1 + k);
      }
    } else {
      EntriesMore(a[1..], text, at + 1);
      TailOf(a, [More(text)], 1);
    }
  }

  lemma EntriesFirst(evs: seq<Event>, at: nat)
    ensures evs == [] ==> Entries(evs, at) == []
    ensures evs != [] && evs[0].Assign? ==>
              var k := Mores(evs[1..]);
              k < |evs| && EntryOf(evs, at).endLine == at + k && Entries(evs, at) == [EntryOf(evs, at)] + Entries(evs[1 + k..], at + 1 + k)
    ensures evs != [] && !evs[0].Assign? ==> Entries(evs, at) == Entries(evs[1..], at + 1)
  {
    hide Mores, Texts;
  }

  lemma UpdateLater(first: Entry, es: seq<Entry>, last: Entry)
    requires es != []
    ensures ([first] + es)[|es|] == es[|es| - 1]
    ensures ([first] + es)[|es| := last] == [first] + es[|es| - 1 := last]
  {
  }

  lemma MoreInRest(a: seq<Event>, text: string, at: nat)
    requires a != [] && a[0].Assign? && Mores(a[1..]) < |a| - 1
    ensures EntryOf(a + [More(text)], at) == EntryOf(a, at)
    ensures Mores((a + [More(text)])[1..]) == Mores(a[1..])
  {
    var k := Mores(a[1..]);
    var b := a + [More(text)];
    MoresIs(b[1..], k);
    assert b[1..][..k] == a[1..][..k];
  }

  lemma LoneEntry(a: seq<Event>, text: string, at: nat)
    requires a != [] && a[0].Assign? && Mores(a[1..]) == |a| - 1
    ensures Entries(a, at) == [EntryOf(a, at)]
    ensures Entries(a + [More(text)], at) == [Extended(EntryOf(a, at), text)]
  {
    var b := a + [More(text)];
    var k := |a| - 1;
    assert forall i :: 0 <= i < k ==> b[1..][i] == a[1..][i];
    MoresIs(b[1..], |a|);
    assert a[1 + k..] == [] && b[1 + |a|..] == [];
    assert a[1..][..k] == a[1..] && b[1..][..|a|] == b[1..];
    assert Texts(b[1..]) == Texts(a[1..]) + [text];
  }

  // ---- the scanning loop ----

  /** What the loop knows about the last entry is what the context says. */
  ghost predicate Tracks(ctx: Ctx, entries: seq<Entry>, lines: seq<string>, n: nat)
    requires n <= |lines|
  {
    && (forall i :: 0 <= i < |entries| ==> 1 <= entries[i].line <= entries[i].endLine <= n)
    && match ctx.open
       case Some(w) =>
         && entries != []
         && var e := entries[|entries| - 1];
            e.section != [] && e.endLine == n && w == |Indent(lines[e.line - 1])|
       case None =>
         entries != [] ==> var e := entries[|entries| - 1]; e.section == [] || e.endLine != n
  }

  /** iniContinues. */
  predicate IniContinues(lines: seq<string>, prev: Entry, line: string, n: nat)
    requires 1 <= prev.line <= |lines|
  {
    if prev.section == [] || prev.endLine != n - 1 then false
    else Indent(line) != [] && |Indent(line)| > |Indent(lines[prev.line - 1])|
  }

  /** What the entries read so far become with one more line. */
  function Grown(entries: seq<Entry>, ev: Event, n: nat): seq<Entry> {
    match ev
    case More(text) =>
      if entries == [] then [] else entries[|entries| - 1 := Extended(entries[|entries| - 1], text)]
    case Assign(section, a, _) => entries + [Entry(section, a, n, n, [])]
    case _ => entries
  }

  ghost function CtxAt(lines: seq<string>, n: nat): Ctx
    requires n <= |lines|
  {
    After(Top, lines[..n])
  }

  ghost function EntriesAt(lines: seq<string>, n: nat): seq<Entry>
    requires n <= |lines|
  {
    Entries(ReadAll(Top, lines[..n]), 1)
  }

  ghost function HeadersAt(lines: seq<string>, n: nat): seq<HeaderLine>
    requires n <= |lines|
  {
    Headers(ReadAll(Top, lines[..n]), 1)
  }

  lemma NothingScanned(lines: seq<string>)
    ensures CtxAt(lines, 0) == Top && EntriesAt(lines, 0) == [] && HeadersAt(lines, 0) == []
    ensures Tracks(Top, [], lines, 0) && Top.section == ""
  {
  }

  lemma AllScanned(lines: seq<string>)
    ensures EntriesAt(lines, |lines|) == Entries(ReadAll(Top, lines), 1)
    ensures HeadersAt(lines, |lines|) == Headers(ReadAll(Top, lines), 1)
  {
    assert lines[..|lines|] == lines;
    hide Entries, Headers, ReadAll;
  }

  /** iniScan: every assignment and every section header, in file order. */
  method IniScan(lines: seq<string>) returns (entries: seq<Entry>, headers: seq<HeaderLine>)
    ensures entries == Entries(ReadAll(Top, lines), 1)
    ensures headers == Headers(ReadAll(Top, lines), 1)
  {
    hide *;
    NothingScanned(lines);
    entries, headers := [], [];
    var section := "";
    var n := 1;
    ghost var ctx := Top;
    while n <= |lines|
      invariant 1 <= n <= |lines| + 1
      invariant ctx == CtxAt(lines, n - 1)
      invariant entries == EntriesAt(lines, n - 1)
      invariant headers == HeadersAt(lines, n - 1)
      invariant section == ctx.section
      invariant Tracks(ctx, entries, lines, n - 1)
    {
      var line := lines[n - 1];
      var trimmed := TrimSpace(line);
      LineCases(ctx, entries, lines, n);
      ScanStep(lines, n);
      ghost var ev := Read(ctx, line);
      ghost var grown := Grown(entries, ev, n);
      var last := |entries| - 1;
      if Introduces(line) {
      } else if last >= 0 && IniContinues(lines, entries[last], line, n) {
        entries := entries[last := entries[last].(more := entries[last].more + [trimmed], endLine := n)];
      } else {
        var name := SectionName(trimmed);
        if name.Some? {
          section := name.value;
          headers := headers + [HeaderLine(name.value, n)];
        } else {
          var a := IniAssignment(line);
          if a.Some? {
            entries := entries + [Entry(section, a.value, n, n, [])];
          }
        }
      }
      assert entries == grown;
      ctx := Next(ctx, ev);
      n := n + 1;
    }
    AllScanned(lines);
  }

  /** What one round of the loop does, case by case, and that it keeps track. */
  lemma LineCases(ctx: Ctx, entries: seq<Entry>, lines: seq<string>, n: nat)
    requires 1 <= n <= |lines| && Tracks(ctx, entries, lines, n - 1)
    ensures
      var line := lines[n - 1];
      var ev, last := Read(ctx, line), |entries| - 1;
      var next, grown := Next(ctx, ev), Grown(entries, ev, n);
      && Tracks(next, grown, lines, n)
      && (ev.More? ==> entries != [] && entries[last].endLine == n - 1)
      && (entries != [] ==> 1 <= entries[last].line <= |lines|)
      && if Introduces(line) then
           grown == entries && next.section == ctx.section && !ev.Header?
         else if entries != [] && IniContinues(lines, entries[last], line, n) then
           && grown == entries[last := entries[last].(more := entries[last].more + [TrimSpace(line)], endLine := n)]
           && next.section == ctx.section && !ev.Header?
         else
           match SectionName(TrimSpace(line))
           case Some(name) => grown == entries && ev == Header(name) && next.section == name
           case None =>
             && next.section == ctx.section && !ev.Header?
             && match AssignmentOf(line)
                case Some(a) => grown == entries + [Entry(ctx.section, a, n, n, [])]
                case None => grown == entries
  {
    ContinuesAgree(ctx, entries, lines, n);
    TracksStep(ctx, entries, lines, n);
    hide TrimSpace, SectionName, AssignmentOf, Introduces, Indent, IniContinues;
  }

  /** The code's test for a continuation is the context's. */
  lemma ContinuesAgree(ctx: Ctx, entries: seq<Entry>, lines: seq<string>, n: nat)
    requires 1 <= n <= |lines| && Tracks(ctx, entries, lines, n - 1)
    ensures Continues(ctx, lines[n - 1]) <==>
            entries != [] && IniContinues(lines, entries[|entries| - 1], lines[n - 1], n)
  {
  }

  lemma TracksStep(ctx: Ctx, entries: seq<Entry>, lines: seq<string>, n: nat)
    requires 1 <= n <= |lines| && Tracks(ctx, entries, lines, n - 1)
    ensures
      var ev := Read(ctx, lines[n - 1]);
      && Tracks(Next(ctx, ev), Grown(entries, ev, n), lines, n)
      && (ev.More? ==> entries != [] && entries[|entries| - 1].endLine == n - 1)
  {
    hide TrimSpace, SectionName, AssignmentOf, Introduces, Indent;
  }

  /** One line more, and what it adds. */
  lemma ScanStep(lines: seq<string>, n: nat)
    requires 1 <= n <= |lines|
    ensures
      var ctx, es := CtxAt(lines, n - 1), EntriesAt(lines, n - 1);
      var ev := Read(ctx, lines[n - 1]);
      && CtxAt(lines, n) == Next(ctx, ev)
      && (!ev.Header? ==> HeadersAt(lines, n) == HeadersAt(lines, n - 1))
      && (ev.Header? ==> HeadersAt(lines, n) == HeadersAt(lines, n - 1) + [HeaderLine(ev.name, n)])
      && ((ev.More? ==> es != [] && es[|es| - 1].endLine == n - 1) ==> EntriesAt(lines, n) == Grown(es, ev, n))
  {
    hide Read, Next, ReadAll, After, Entries, Headers;
    var before, line := lines[..n - 1], lines[n - 1];
    assert lines[..n] == before + [line];
    ReadConcat(Top, before, [line]);
    var ctx := After(Top, before);
    ReadOne(ctx, line);
    var evs, ev := ReadAll(Top, before), Read(ctx, line);
    HeadersConcat(evs, [ev], 1);
    HeadersOne(ev, n);
    var es := Entries(evs, 1);
    if !ev.More? {
      EntriesConcat(evs, [ev], 1);
      EntriesOne(ev, n);
    } else if es != [] && es[|es| - 1].endLine == n - 1 {
      EntriesMore(evs, ev.text, 1);
    }
  }

  lemma HeadersOne(ev: Event, at: nat)
    ensures Headers([ev], at) == if ev.Header? then [HeaderLine(ev.name, at)] else []
  {
    assert [ev][1..] == [];
  }

  lemma EntriesOne(ev: Event, at: nat)
    ensures Entries([ev], at) == if ev.Assign? then [Entry(ev.section, ev.a, at, at, [])] else []
  {
    assert [ev][1..] == [];
    assert Texts([]) == [];
  }
}
