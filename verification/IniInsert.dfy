/** The lens laws of the ini codec for a key the file does not state
    (internal/configfile/ini.go, iniInsert): where the lines go, what the lines around
    them read as, and the one thing that can go wrong, which is a line taken for a
    continuation of the line above it. */
module IniInsert {
  import opened Text
  import opened Document
  import opened IniScan
  import opened IniPlaces
  import opened IniCodec
  import opened IniLines
  import opened IniTold
  import opened IniLaws

  // ---- the style an inserted line takes over ----

  lemma EntryStyle(lines: seq<string>, e: Entry)
    requires e in Scan(lines)
    ensures Blanks(Indent(LineAt(lines, e.line))) && IsSep(e.a.sep)
  {
    hide Scan, AssignmentOf, IsSep, After, Read, Indent;
    var j :| 0 <= j < |Scan(lines)| && Scan(lines)[j] == e;
    Placed(lines, j);
    AssignmentSep(lines[e.line - 1]);
    IndentBlanks(LineAt(lines, e.line));
  }

  lemma {:induction false} StyleFits(lines: seq<string>, all: seq<Entry>, es: seq<Entry>, section: string)
    requires forall e :: e in all ==> e in Scan(lines)
    requires forall e :: e in es ==> e in Scan(lines)
    ensures Blanks(Style(lines, all, es, section).0) && IsSep(Style(lines, all, es, section).1)
  {
    hide Scan, IsSep, Blanks, Indent;
    if es != [] {
      if es[0].section == section {
        EntryStyle(lines, es[0]);
      } else {
        StyleFits(lines, all, es[1..], section);
      }
    } else if all != [] {
      EntryStyle(lines, all[0]);
    } else {
      DefaultStyle();
    }
  }

  lemma DefaultStyle()
    ensures Blanks("") && IsSep("=")
  {
    assert "=" == [] + ['='] + [];
    assert Blanks([]);
  }

  // ---- the section a line is in ----

  lemma {:induction false} HeadersRange(evs: seq<Event>, at: nat)
    ensures forall h :: h in Headers(evs, at) ==> at <= h.line < at + |evs| && evs[h.line - at] == Header(h.name)
  {
    if evs != [] {
      HeadersRange(evs[1..], at + 1);
    }
  }

  lemma HeadersSplit(evs: seq<Event>, n: nat)
    requires n <= |evs|
    ensures
      var a, all := Headers(evs[..n], 1), Headers(evs, 1);
      && |a| <= |all| && a == all[..|a|]
      && (forall i :: 0 <= i < |a| ==> all[i].line <= n)
      && (forall i :: |a| <= i < |all| ==> n < all[i].line)
  {
    assert evs == evs[..n] + evs[n..];
    HeadersConcat(evs[..n], evs[n..], 1);
    HeadersRange(evs[..n], 1);
    HeadersRange(evs[n..], 1 + n);
    hide Headers;
    var a, b, all := Headers(evs[..n], 1), Headers(evs[n..], 1 + n), Headers(evs, 1);
    assert all == a + b;
    forall i | 0 <= i < |a| ensures all[i].line <= n {
      assert a[i] in a;
    }
    forall i | |a| <= i < |all| ensures n < all[i].line {
      assert b[i - |a|] in b;
    }
  }

  /** The headers of the first n lines: those that stand on them. */
  lemma HeadersCut(evs: seq<Event>, n: nat, t: nat)
    requires n <= |evs| && t <= |Headers(evs, 1)|
    requires t > 0 ==> Headers(evs, 1)[t - 1].line <= n
    requires t < |Headers(evs, 1)| ==> n < Headers(evs, 1)[t].line
    ensures Headers(evs[..n], 1) == Headers(evs, 1)[..t]
  {
    hide Headers;
    HeadersSplit(evs, n);
  }

  /** The section a run of lines leaves is the one its last header names. */
  lemma {:induction false} SectionAfter(ctx: Ctx, lines: seq<string>, at: nat)
    ensures
      var hs := Headers(ReadAll(ctx, lines), at);
      After(ctx, lines).section == if hs == [] then ctx.section else hs[|hs| - 1].name
    decreases |lines|
  {
    hide Read;
    if lines != [] {
      var ev := Read(ctx, lines[0]);
      assert ReadAll(ctx, lines)[1..] == ReadAll(Next(ctx, ev), lines[1..]);
      SectionAfter(Next(ctx, ev), lines[1..], at + 1);
      AssignKeeps(ctx, lines[0]);
    }
  }

  lemma AssignKeeps(ctx: Ctx, line: string)
    ensures Read(ctx, line).Assign? ==> Read(ctx, line).section == ctx.section
    ensures ctx.section == [] ==> ctx.open.None? && !Read(ctx, line).Header? ==> Next(ctx, Read(ctx, line)) == Ctx([], None)
  {
    hide TrimSpace, SectionName, AssignmentOf, Introduces, Indent;
  }

  /** Nothing is continued at the top of a file. */
  lemma {:induction false} TopIsClosed(ctx: Ctx, lines: seq<string>)
    requires ctx.section == [] ==> ctx.open.None?
    ensures After(ctx, lines).section == [] ==> After(ctx, lines).open.None?
    decreases |lines|
  {
    if lines != [] {
      AssignKeeps(ctx, lines[0]);
      hide Read;
      TopIsClosed(Next(ctx, Read(ctx, lines[0])), lines[1..]);
    }
  }

  lemma SectionBefore(lines: seq<string>, n: nat, t: nat)
    requires n <= |lines| && t <= |ScanHeaders(lines)|
    requires t > 0 ==> ScanHeaders(lines)[t - 1].line <= n
    requires t < |ScanHeaders(lines)| ==> n < ScanHeaders(lines)[t].line
    ensures After(Top, lines[..n]).section == if t == 0 then [] else ScanHeaders(lines)[t - 1].name
    ensures After(Top, lines[..n]).section == [] ==> After(Top, lines[..n]).open.None?
  {
    hide Headers, ReadAll, After;
    HeadersCut(ReadAll(Top, lines), n, t);
    EventsOfCut(lines, n, n);
    SectionAfter(Top, lines[..n], 1);
    TopIsClosed(Top, lines[..n]);
  }

  // ---- where an insertion goes ----

  function Point(lines: seq<string>, k: Name): (nat, bool) {
    InsertAt(lines, Scan(lines), ScanHeaders(lines), k.section)
  }

  /** The context an inserted line is read in. */
  function PointCtx(lines: seq<string>, k: Name): Ctx {
    var at := Point(lines, k).0;
    if 1 <= at <= |lines| + 1 then After(Top, lines[..at - 1]) else Top
  }

  function PointStyle(lines: seq<string>, k: Name): (string, string) {
    Style(lines, Scan(lines), Scan(lines), k.section)
  }

  lemma {:induction false} LastTop(es: seq<Entry>) returns (j: nat)
    requires AfterLastTop(es).Some?
    ensures j < |es| && es[j].section == [] && AfterLastTop(es) == Some(es[j].line + 1)
  {
    if es[|es| - 1].section == [] {
      j := |es| - 1;
    } else {
      j := LastTop(es[..|es| - 1]);
    }
  }

  /** A key of the file itself goes where no section has begun. */
  lemma PointAtTop(lines: seq<string>, k: Name)
    requires k.section == []
    ensures
      var (at, header) := Point(lines, k);
      && 1 <= at <= |lines| + 1 && !header
      && PointCtx(lines, k) == Top
  {
    hide Entries, Headers, ReadAll, After, Read, AfterLastTop, Above, AssignmentOf, Introduces, SectionName, TrimSpace, Indent;
    var es, hs := Scan(lines), ScanHeaders(lines);
    var at := Point(lines, k).0;
    if AfterLastTop(es).Some? {
      var j := LastTop(es);
      Placed(lines, j);
      ReadAt(Top, lines, es[j].line - 1);
    } else if hs == [] {
      SectionBefore(lines, |lines|, 0);
      assert lines[..at - 1] == lines;
    } else {
      HeadersRange(ReadAll(Top, lines), 1);
      assert hs[0] in hs;
      SectionBefore(lines, at - 1, 0);
    }
  }

  lemma {:induction false} BackOverBlank(lines: seq<string>, last: nat, floor: nat)
    ensures forall n :: BackOver(lines, last, floor) < n <= last ==> TrimSpace(LineAt(lines, n)) == []
  {
    if last > floor && TrimSpace(LineAt(lines, last)) == [] {
      BackOverBlank(lines, last - 1, floor);
    }
  }

  /** Which header SectionEnd stops at. */
  lemma {:induction false} EndOf(lines: seq<string>, hs: seq<HeaderLine>, section: string) returns (t: nat)
    requires SectionEnd(lines, hs, section).Some?
    ensures t < |hs| && hs[t].name == section
    ensures
      var last := if t + 1 < |hs| && hs[t + 1].line >= 1 then hs[t + 1].line - 1 else |lines|;
      SectionEnd(lines, hs, section) == Some(BackOver(lines, last, hs[t].line))
  {
    hide BackOver;
    if hs[0].name == section {
      t := 0;
    } else {
      t := EndOf(lines, hs[1..], section);
      t := t + 1;
    }
  }

  /** Where the first section of a name ends: inside it, above blank lines or above the
      next header. */
  lemma SectionBounds(lines: seq<string>, section: string) returns (t: nat, last: nat)
    requires SectionEnd(lines, ScanHeaders(lines), section).Some?
    ensures
      var hs := ScanHeaders(lines);
      && t < |hs| && hs[t].name == section && SectionEnd(lines, hs, section) == Some(last)
      && hs[t].line <= last <= |lines|
      && (t + 1 < |hs| ==> last < hs[t + 1].line)
      && (last < |lines| ==>
          || TrimSpace(lines[last]) == []
          || (t + 1 < |hs| && hs[t + 1].line == last + 1 && ReadAll(Top, lines)[last].Header?))
  {
    hide Headers, ReadAll, BackOver, SectionEnd, TrimSpace;
    var hs, evs := ScanHeaders(lines), ReadAll(Top, lines);
    t := EndOf(lines, hs, section);
    HeadersRange(evs, 1);
    assert hs[t] in hs;
    var bound := |lines|;
    if t + 1 < |hs| {
      assert hs[t + 1] in hs;
      bound := hs[t + 1].line - 1;
      HeadersAscend(evs, 1, t);
    }
    last := BackOver(lines, bound, hs[t].line);
    BackOverBlank(lines, bound, hs[t].line);
    if last < bound {
      assert TrimSpace(LineAt(lines, last + 1)) == [];
    }
  }

  /** A key of a section the file has goes inside it, and what follows it continues
      nothing. */
  lemma PointInSection(lines: seq<string>, k: Name)
    requires k.section != [] && SectionEnd(lines, ScanHeaders(lines), k.section).Some?
    ensures
      var (at, header) := Point(lines, k);
      && 1 <= at <= |lines| + 1 && !header
      && PointCtx(lines, k).section == k.section
      && Fresh(PointCtx(lines, k), lines[at - 1..])
  {
    hide *;
    var t, last := SectionBounds(lines, k.section);
    PointIs(lines, k, last);
    SectionIs(lines, k.section, t, last);
    if last < |lines| {
      ReadAt(Top, lines, last);
      if TrimSpace(lines[last]) == [] {
        BlankIsGap(After(Top, lines[..last]), lines[last]);
      }
    }
    FreshFirst(After(Top, lines[..last]), lines, last);
  }

  lemma PointIs(lines: seq<string>, k: Name, last: nat)
    requires k.section != [] && SectionEnd(lines, ScanHeaders(lines), k.section) == Some(last) && last <= |lines|
    ensures Point(lines, k) == (last + 1, false) && PointCtx(lines, k) == After(Top, lines[..last])
  {
    hide ReadAll, After, SectionEnd, ScanHeaders;
  }

  lemma SectionIs(lines: seq<string>, section: string, t: nat, last: nat)
    requires
      var hs := ScanHeaders(lines);
      && t < |hs| && hs[t].name == section && hs[t].line <= last <= |lines| && (t + 1 < |hs| ==> last < hs[t + 1].line)
    ensures After(Top, lines[..last]).section == section
  {
    hide ReadAll, After, Headers;
    SectionBefore(lines, last, t + 1);
  }

  lemma FreshFirst(ctx: Ctx, lines: seq<string>, last: nat)
    requires last <= |lines| && (last < |lines| ==> !Read(ctx, lines[last]).More?)
    ensures Fresh(ctx, lines[last..])
  {
    hide Read;
    assert last < |lines| ==> lines[last..][0] == lines[last];
  }

  lemma BlankIsGap(ctx: Ctx, line: string)
    requires TrimSpace(line) == []
    ensures Read(ctx, line) == Gap
  {
    hide TrimSpace;
  }

  lemma {:induction false} HeadersAscend(evs: seq<Event>, at: nat, t: nat)
    requires t + 1 < |Headers(evs, at)|
    ensures Headers(evs, at)[t].line < Headers(evs, at)[t + 1].line
  {
    var rest := Headers(evs[1..], at + 1);
    HeadersRange(evs[1..], at + 1);
    assert forall i :: 0 <= i < |rest| ==> rest[i] in rest;
    if !evs[0].Header? {
      HeadersAscend(evs[1..], at + 1, t);
    } else if t > 0 {
      HeadersAscend(evs[1..], at + 1, t - 1);
    }
  }

  /** A new section goes at the end of the file. */
  lemma PointAtEnd(lines: seq<string>, k: Name)
    requires k.section != [] && SectionEnd(lines, ScanHeaders(lines), k.section).None?
    ensures Point(lines, k) == (|lines| + 1, true)
    ensures PointCtx(lines, k) == After(Top, lines)
  {
    hide Scan, ScanHeaders, After, SectionEnd, AfterLastTop;
    assert lines[..|lines|] == lines;
  }

  // ---- a new section ----

  lemma HeaderReads(ctx: Ctx, section: string)
    requires ctx.open.None? && Trimmed(section)
    ensures Read(ctx, "[" + section + "]") == Header(section)
  {
    var line := "[" + section + "]";
    hide TrimSpace, AssignmentOf;
    assert [] + line + [] == line;
    TrimSpaceOf([], line, []);
    assert line[1..|line| - 1] == section;
    if section == [] {
      TrimSpaceHead([]);
    } else {
      assert [] + section + [] == section;
      TrimSpaceOf([], section, []);
    }
  }

  /** The header of a new section tells of no key and opens the section. */
  lemma HeaderTold(lines: seq<string>, k: Name, q: Name)
    requires GoodKey(k)
    ensures
      var c := After(Top, lines);
      var head := HeaderLines(lines, k.section);
      && Fresh(c, head) && head != []
      && Told(c, head, q) == []
      && After(c, head) == Ctx(k.section, None)
  {
    hide Told, Read, After, GoodName, TrimSpace, Trimmed;
    var c := After(Top, lines);
    var line := "[" + k.section + "]";
    if |lines| > 0 && TrimSpace(LineAt(lines, |lines|)) != [] {
      var d := Ctx(c.section, None);
      EmptyLine(c);
      ReadOne(c, "");
      HeaderReads(d, k.section);
      ReadOne(d, line);
      ToldOne(c, "", q);
      ToldOne(d, line, q);
      Joined(c, [""], [line], q);
      assert [""] + [line] == HeaderLines(lines, k.section);
    } else {
      ClosedAtEnd(lines);
      HeaderReads(c, k.section);
      ReadOne(c, line);
      ToldOne(c, line, q);
    }
  }

  lemma EmptyLine(ctx: Ctx)
    ensures Read(ctx, "") == Gap
  {
  }

  lemma ClosedAtEnd(lines: seq<string>)
    requires |lines| > 0 ==> TrimSpace(LineAt(lines, |lines|)) == []
    ensures After(Top, lines).open.None?
  {
    hide Read, TrimSpace, After;
    if |lines| > 0 {
      var n := |lines| - 1;
      assert lines[..n + 1] == lines;
      BlankIsGap(After(Top, lines[..n]), lines[n]);
      ReadAt(Top, lines, n);
    } else {
      EmptyTold(Top, Name("", ""));
    }
  }

  // ---- the law ----

  /** No line an insertion touches is taken for a continuation: the inserted lines are
      not indented deeper than the entry they follow, and the line below is not indented
      deeper than they are. */
  predicate Clear(lines: seq<string>, k: Name) {
    var (at, header) := Point(lines, k);
    var indent := PointStyle(lines, k).0;
    || header
    || (1 <= at <= |lines| + 1
        && Admits(PointCtx(lines, k), |indent|)
        && Fresh(Inside(k.section, |indent|), lines[at - 1..]))
  }

  /** What the lines above the point of an insertion tell, and the lines below it. */
  function Before(lines: seq<string>, k: Name, q: Name): seq<Entry> {
    var at := Point(lines, k).0;
    if 1 <= at <= |lines| + 1 then Told(Top, lines[..at - 1], q) else []
  }

  function Behind(lines: seq<string>, k: Name, q: Name): seq<Entry> {
    var at := Point(lines, k).0;
    if 1 <= at <= |lines| + 1 then Told(PointCtx(lines, k), lines[at - 1..], q) else []
  }

  lemma StyleOk(lines: seq<string>, k: Name)
    ensures Blanks(PointStyle(lines, k).0) && IsSep(PointStyle(lines, k).1)
  {
    hide Scan, Style, Blanks, IsSep;
    StyleFits(lines, Scan(lines), Scan(lines), k.section);
  }

  lemma InsertionReplaces(lines: seq<string>, at: nat, added: seq<string>)
    requires 1 <= at <= |lines| + 1
    ensures InRange(|lines|, Edit(at, at - 1, added))
    ensures Replaced(lines, Edit(at, at - 1, added)) == lines[..at - 1] + (added + lines[at - 1..])
  {
  }

  lemma NewSectionTells(lines: seq<string>, k: Name, want: Literal, q: Name)
    requires GoodKey(k) && Sound(want) && Point(lines, k).1
    ensures
      var e := Insert(lines, k, want);
      var (indent, sep) := PointStyle(lines, k);
      && InRange(|lines|, e)
      && Told(Top, Replaced(lines, e), q) == Told(Top, lines, q) + if q == k then Intended(k, indent, sep, want) else []
  {
    hide *;
    var (indent, sep) := PointStyle(lines, k);
    var added := NewLines(indent, k.name, sep, want);
    var c, head := After(Top, lines), HeaderLines(lines, k.section);
    StyleOk(lines, k);
    PointTotal(lines, k);
    InsertIs(lines, k, want);
    InsertionReplaces(lines, |lines| + 1, head + added);
    assert lines[..|lines|] == lines && lines[|lines|..] == [] && head + added + [] == head + added;
    HeaderTold(lines, k, q);
    ClosedAdmits(k.section, |indent|);
    WrittenTold(Ctx(k.section, None), k, indent, sep, want, q);
    Joined(c, head, added, q);
    ToldConcat(Top, lines, head + added, q);
  }

  lemma ClosedAdmits(section: string, indent: nat)
    ensures Admits(Ctx(section, None), indent)
  {
  }

  lemma InSectionTells(lines: seq<string>, k: Name, want: Literal, q: Name)
    requires GoodKey(k) && Sound(want) && Clear(lines, k) && !Point(lines, k).1
    ensures
      var e := Insert(lines, k, want);
      var (indent, sep) := PointStyle(lines, k);
      && InRange(|lines|, e)
      && Told(Top, lines, q) == Before(lines, k, q) + Behind(lines, k, q)
      && Told(Top, Replaced(lines, e), q) ==
         Before(lines, k, q) + (if q == k then Intended(k, indent, sep, want) else []) + Behind(lines, k, q)
  {
    hide *;
    var (indent, sep) := PointStyle(lines, k);
    var at := Point(lines, k).0;
    var added := NewLines(indent, k.name, sep, want);
    StyleOk(lines, k);
    PointTotal(lines, k);
    InsertIs(lines, k, want);
    InsertionReplaces(lines, at, added);
    ClearMeans(lines, k);
    var p, s := lines[..at - 1], lines[at - 1..];
    WrittenTold(PointCtx(lines, k), k, indent, sep, want, q);
    assert lines == p + s;
    ToldConcat(Top, p, s, q);
    SpliceIn(p, added, s, k, indent, q);
    PartsAre(lines, k, q);
  }

  lemma ClearMeans(lines: seq<string>, k: Name)
    requires Clear(lines, k) && !Point(lines, k).1
    ensures
      var at, indent := Point(lines, k).0, PointStyle(lines, k).0;
      && 1 <= at <= |lines| + 1
      && Admits(PointCtx(lines, k), |indent|)
      && Fresh(Inside(k.section, |indent|), lines[at - 1..])
  {
    hide Point, PointStyle, PointCtx, Admits, Fresh;
  }

  lemma PartsAre(lines: seq<string>, k: Name, q: Name)
    requires 1 <= Point(lines, k).0 <= |lines| + 1
    ensures Before(lines, k, q) == Told(Top, lines[..Point(lines, k).0 - 1], q)
    ensures Behind(lines, k, q) == Told(PointCtx(lines, k), lines[Point(lines, k).0 - 1..], q)
  {
    hide Point, PointCtx, Told;
  }

  lemma InsertIs(lines: seq<string>, k: Name, want: Literal)
    ensures
      var (at, header) := Point(lines, k);
      var (indent, sep) := PointStyle(lines, k);
      var added := NewLines(indent, k.name, sep, want);
      Insert(lines, k, want) == Edit(at, at - 1, if header then HeaderLines(lines, k.section) + added else added)
  {
  }

  /** The point of an insertion, in every case. */
  lemma PointTotal(lines: seq<string>, k: Name)
    ensures
      var (at, header) := Point(lines, k);
      && 1 <= at <= |lines| + 1
      && (header ==> k.section != [] && at == |lines| + 1)
      && (!header ==> PointCtx(lines, k).section == k.section && Fresh(PointCtx(lines, k), lines[at - 1..]))
      && PointCtx(lines, k) == After(Top, lines[..at - 1])
  {
    if k.section == [] {
      PointAtTop(lines, k);
      var at := Point(lines, k).0;
      TopFresh(lines[at - 1..]);
    } else if SectionEnd(lines, ScanHeaders(lines), k.section).Some? {
      PointInSection(lines, k);
    } else {
      PointAtEnd(lines, k);
    }
  }

  lemma TopFresh(lines: seq<string>)
    ensures Fresh(Top, lines)
  {
    hide TrimSpace, SectionName, AssignmentOf, Introduces;
  }

  lemma SpliceIn(p: seq<string>, m: seq<string>, s: seq<string>, k: Name, indent: string, q: Name)
    requires Fresh(After(Top, p), m) && Fresh(After(Top, p), s) && After(Top, p).section == k.section
    requires After(After(Top, p), m) == if m == [] then After(Top, p) else Inside(k.section, |indent|)
    requires Fresh(Inside(k.section, |indent|), s)
    ensures Told(Top, p + (m + s), q) ==
            Told(Top, p, q) + Told(After(Top, p), m, q) + Told(After(Top, p), s, q)
  {
    hide Told, After, Read;
    var c := After(Top, p);
    if m == [] {
      assert m + s == s;
      EmptyTold(c, q);
      ToldConcat(Top, p, s, q);
    } else {
      assert (m + s)[0] == m[0] && p + (m + s) == p + m + s;
      Splice(p, m, s, q);
      SameTail(After(c, m), c, s, q);
    }
  }

  lemma IntendedReads(k: Name, indent: string, sep: string, want: Literal)
    requires Sound(want) && want != LList([])
    ensures Holds(ValueOf(Intended(k, indent, sep, want)), want) <==> ReadsBack(want)
  {
    var es := Intended(k, indent, sep, want);
    hide ParseInt, Holds, ValueOf, ReadsBack, Spell, ItemEntries, Lists;
    assert Lists([]) == [] by { ListsFrom([]); }
    assert [] + es + [] == es;
    if want.LList? {
      ListReads([], k, indent, sep, want.items, []);
    } else {
      BuiltName(k.name, false, indent, sep, Spell(want));
      PlainReads([], es[0], want, []);
    }
  }

  lemma MissingTold(lines: seq<string>, k: Name)
    ensures Get(lines, k).kind == KindMissing <==> Named(Scan(lines), k) == []
    ensures Get(lines, k).kind == KindMissing ==> Told(Top, lines, k) == []
  {
    hide Entries, ReadAll, Named, Lists, Get;
    FoundChosen(lines, k);
    ChosenFrom(Named(Scan(lines), k));
  }

  lemma SetInserts(lines: seq<string>, k: Name, want: Literal)
    requires Get(lines, k).kind == KindMissing
    ensures Set(lines, k, want) == Change(Insert(lines, k, want))
  {
    hide Get, Insert, Holds, Scan, Named, Chosen;
  }

  lemma InsertAnyTells(lines: seq<string>, k: Name, want: Literal, q: Name)
    requires GoodKey(k) && Sound(want) && Clear(lines, k)
    ensures
      var e := Insert(lines, k, want);
      var (indent, sep) := PointStyle(lines, k);
      && InRange(|lines|, e)
      && (q != k ==> Told(Top, Replaced(lines, e), q) == Told(Top, lines, q))
      && (Told(Top, lines, k) == [] ==> Told(Top, Replaced(lines, e), k) == Intended(k, indent, sep, want))
  {
    hide *;
    if Point(lines, k).1 {
      NewSectionTells(lines, k, want, q);
      NewSectionTells(lines, k, want, k);
    } else {
      InSectionTells(lines, k, want, q);
      InSectionTells(lines, k, want, k);
    }
  }

  /** Adding a key the file does not state, where no line is taken for a continuation:
      it then holds the value exactly when the literal reads back, and every other key
      reads as it did. */
  lemma InsertLaw(lines: seq<string>, k: Name, want: Literal)
    requires GoodKey(k) && Sound(want) && Get(lines, k).kind == KindMissing && Clear(lines, k)
    ensures
      var e := Insert(lines, k, want);
      && Set(lines, k, want) == Change(e) && InRange(|lines|, e)
      && var after := Replaced(lines, e);
         && (Holds(Get(after, k), want) <==> ReadsBack(want))
         && forall q :: q != k ==> Shown(Get(after, q)) == Shown(Get(lines, q))
  {
    hide *;
    SetInserts(lines, k, want);
    InsertAnyTells(lines, k, want, k);
    var after := Replaced(lines, Insert(lines, k, want));
    forall q | q != k ensures Shown(Get(after, q)) == Shown(Get(lines, q)) {
      InsertAnyTells(lines, k, want, q);
      GetShown(after, q);
      GetShown(lines, q);
    }
    MissingTold(lines, k);
    if want == LList([]) {
      EmptyListNeverHolds(after, k);
      EmptyNeverReadsBack();
    } else {
      var (indent, sep) := PointStyle(lines, k);
      IntendedReads(k, indent, sep, want);
      GetShown(after, k);
      HoldsShown(Get(after, k), want);
      HoldsShown(ValueOf(Told(Top, after, k)), want);
    }
  }

  lemma EmptyNeverReadsBack()
    ensures !ReadsBack(LList([]))
  {
  }

  // ---- what happens when a line is taken for a continuation ----

  predicate Tells(ev: Event, k: Name) {
    ev.Assign? && ev.section == k.section && ev.a.name == k.name
  }

  /** A key is missing exactly when no line reads as an assignment of it. */
  lemma {:induction false} NoneTells(evs: seq<Event>, at: nat, k: Name)
    ensures Named(Entries(evs, at), k) == [] <==> forall i :: 0 <= i < |evs| ==> !Tells(evs[i], k)
    decreases |evs|
  {
    hide Entries, Named, Mores, Texts;
    if evs == [] {
      NoEntries(at);
      NamedNone([], k);
    } else {
      EntriesFront(evs, at);
      var n := Step(evs);
      NoneTells(evs[n..], at + n, k);
      NamedConcat(First(evs, at), Entries(evs[n..], at + n), k);
      FirstTells(evs, at, k);
      assert forall i :: n <= i < |evs| ==> evs[i] == evs[n..][i - n];
    }
  }

  lemma FirstTells(evs: seq<Event>, at: nat, k: Name)
    requires evs != []
    ensures Named(First(evs, at), k) == [] <==> !Tells(evs[0], k)
    ensures forall i :: 1 <= i < Step(evs) ==> !Tells(evs[i], k)
  {
    hide Mores, Named;
    if evs[0].Assign? {
      OneOf(EntryOf(evs, at), k);
      assert forall i :: 1 <= i < Step(evs) ==> evs[i] == evs[1..][i - 1];
    } else {
      NamedNone([], k);
    }
  }

  /** Lines indented deeper than the context admits all continue it. */
  lemma {:induction false} AllContinue(ctx: Ctx, k: Name, indent: string, sep: string, items: seq<string>)
    requires GoodKey(k) && Blanks(indent) && IsSep(sep) && !Admits(ctx, |indent|)
    ensures
      var lines := ListLines(indent, k.name, sep, items);
      && (forall i :: 0 <= i < |lines| ==> ReadAll(ctx, lines)[i].More?)
      && After(ctx, lines) == ctx
    decreases |items|
  {
    hide Read, SpellString, Blanks, IsSep, GoodKey, Admits;
    if items != [] {
      ContinuesOne(ctx, k, true, indent, sep, items[0]);
      var line := indent + Core(k.name, true) + sep + SpellString(items[0]);
      assert indent + k.name + "[]" + sep + SpellString(items[0]) == line;
      var lines := ListLines(indent, k.name, sep, items);
      assert lines[0] == line && lines[1..] == ListLines(indent, k.name, sep, items[1..]);
      AllContinue(ctx, k, indent, sep, items[1..]);
      assert ReadAll(ctx, lines)[0] == Read(ctx, line) && ReadAll(ctx, lines)[1..] == ReadAll(ctx, lines[1..]);
    }
  }

  lemma ContinuesOne(ctx: Ctx, k: Name, list: bool, indent: string, sep: string, s: string)
    requires GoodKey(k) && Blanks(indent) && IsSep(sep) && !Admits(ctx, |indent|)
    ensures Read(ctx, indent + Core(k.name, list) + sep + SpellString(s)).More?
  {
    hide Core, SpellString, IsSep, Solid, GoodName, Built, TrimSpace;
    SpelledSolid(s);
    ReadBuilt(ctx, indent, k.name, list, sep, SpellString(s));
  }

  lemma AddedContinue(ctx: Ctx, k: Name, indent: string, sep: string, want: Literal)
    requires GoodKey(k) && Sound(want) && Blanks(indent) && IsSep(sep) && !Admits(ctx, |indent|)
    ensures
      var lines := NewLines(indent, k.name, sep, want);
      && (forall i :: 0 <= i < |lines| ==> ReadAll(ctx, lines)[i].More?)
      && After(ctx, lines) == ctx
  {
    hide Read, Blanks, IsSep, GoodKey, Admits, Spell, ReadAll, After, ListLines, Sound;
    if want.LList? {
      AllContinue(ctx, k, indent, sep, want.items);
    } else {
      AddedContinuesOne(ctx, k, indent, sep, want);
      ReadOne(ctx, indent + k.name + sep + Spell(want));
    }
  }

  lemma AddedContinuesOne(ctx: Ctx, k: Name, indent: string, sep: string, want: Literal)
    requires GoodKey(k) && Sound(want) && Blanks(indent) && IsSep(sep) && !Admits(ctx, |indent|) && !want.LList?
    ensures Read(ctx, indent + k.name + sep + Spell(want)).More?
  {
    hide Spell, IsSep, Solid, GoodName, Built, TrimSpace, ParseInt;
    SpellSolid(want);
    ReadBuilt(ctx, indent, k.name, false, sep, Spell(want));
  }

  /** An inserted line indented deeper than the entry it follows is read as more of that
      entry, and the key stays missing, whatever was to be written. */
  lemma JoinedToEntryAbove(lines: seq<string>, k: Name, want: Literal)
    requires GoodKey(k) && Sound(want) && Get(lines, k).kind == KindMissing
    requires !Point(lines, k).1 && !Admits(PointCtx(lines, k), |PointStyle(lines, k).0|)
    ensures
      var e := Insert(lines, k, want);
      && Set(lines, k, want) == Change(e) && InRange(|lines|, e)
      && Get(Replaced(lines, e), k).kind == KindMissing
  {
    hide *;
    SetInserts(lines, k, want);
    MissingTold(lines, k);
    var (indent, sep) := PointStyle(lines, k);
    var at := Point(lines, k).0;
    var added := NewLines(indent, k.name, sep, want);
    StyleOk(lines, k);
    PointTotal(lines, k);
    InsertIs(lines, k, want);
    InsertionReplaces(lines, at, added);
    var c := PointCtx(lines, k);
    AddedContinue(c, k, indent, sep, want);
    var p, s := lines[..at - 1], lines[at - 1..];
    assert lines == p + s;
    ReadConcat(Top, p, s);
    ReadConcat(Top, p, added + s);
    ReadConcat(c, added, s);
    var after := Replaced(lines, Insert(lines, k, want));
    ScanIs(lines);
    ScanIs(after);
    StillNone(ReadAll(Top, p), ReadAll(c, added), ReadAll(c, s), k);
    MissingTold(after, k);
  }

  lemma ScanIs(lines: seq<string>)
    ensures Scan(lines) == Entries(ReadAll(Top, lines), 1)
  {
  }

  lemma StillNone(a: seq<Event>, m: seq<Event>, b: seq<Event>, k: Name)
    requires forall i :: 0 <= i < |m| ==> m[i].More?
    requires Named(Entries(a + b, 1), k) == []
    ensures Named(Entries(a + (m + b), 1), k) == []
  {
    hide Named, Entries;
    NoneTells(a + b, 1, k);
    NoneTells(a + (m + b), 1, k);
    var evs := a + (m + b);
    forall i | 0 <= i < |evs| ensures !Tells(evs[i], k) {
      if i < |a| {
        assert evs[i] == (a + b)[i];
      } else if i >= |a| + |m| {
        assert evs[i] == (a + b)[i - |m|];
      } else {
        assert evs[i] == m[i - |a|];
      }
    }
  }

  /** Every line that was there reads as it did, and every new line reads as the key. */
  ghost predicate Undisturbed(lines: seq<string>, after: seq<string>, at: nat, k: Name)
    requires 1 <= at <= |lines| + 1 && |lines| <= |after|
  {
    var was, now, n := ReadAll(Top, lines), ReadAll(Top, after), |after| - |lines|;
    && now[..at - 1] == was[..at - 1]
    && now[at - 1 + n..] == was[at - 1..]
    && forall i :: at - 1 <= i < at - 1 + n ==> Tells(now[i], k)
  }

  /** Inside a section the file has, an insertion leaves every line reading as it did
      exactly when no line it touches is taken for a continuation. */
  lemma InsertExact(lines: seq<string>, k: Name, want: Literal)
    requires GoodKey(k) && Sound(want) && want != LList([]) && !Point(lines, k).1
    ensures
      var e := Insert(lines, k, want);
      && InRange(|lines|, e) && 1 <= e.start <= |lines| + 1
      && var after := Replaced(lines, e);
         |lines| <= |after| && (Undisturbed(lines, after, e.start, k) <==> Clear(lines, k))
  {
    hide *;
    var (indent, sep) := PointStyle(lines, k);
    var at := Point(lines, k).0;
    var added := NewLines(indent, k.name, sep, want);
    StyleOk(lines, k);
    PointTotal(lines, k);
    InsertIs(lines, k, want);
    InsertionReplaces(lines, at, added);
    var c := PointCtx(lines, k);
    var p, s := lines[..at - 1], lines[at - 1..];
    ClearCases(lines, k);
    SomeLines(indent, k.name, sep, want);
    if Admits(c, |indent|) {
      WrittenTold(c, k, indent, sep, want, k);
      AddedTell(c, k, indent, sep, want);
      InsideSection(k.section, |indent|);
      if Fresh(After(c, added), s) {
        SameEvents(c, After(c, added), s);
      }
    } else {
      AddedContinue(c, k, indent, sep, want);
      assert ReadAll(c, added)[0].More?;
    }
    UndisturbedParts(p, added, s, k);
    assert lines == p + s;
    assert Replaced(lines, Insert(lines, k, want)) == p + (added + s);
    assert Undisturbed(lines, Replaced(lines, Insert(lines, k, want)), at, k) <==> Clear(lines, k);
  }

  lemma InsideSection(section: string, indent: nat)
    ensures Inside(section, indent).section == section
  {
  }

  lemma ClearCases(lines: seq<string>, k: Name)
    requires !Point(lines, k).1 && 1 <= Point(lines, k).0 <= |lines| + 1
    ensures
      var at, indent := Point(lines, k).0, PointStyle(lines, k).0;
      Clear(lines, k) <==>
      Admits(PointCtx(lines, k), |indent|) && Fresh(Inside(k.section, |indent|), lines[at - 1..])
  {
    hide Point, PointStyle, PointCtx, Admits, Fresh;
  }

  lemma SomeLines(indent: string, name: string, sep: string, want: Literal)
    requires want != LList([])
    ensures NewLines(indent, name, sep, want) != []
  {
    hide Spell, SpellString;
  }

  lemma SameEvents(c: Ctx, d: Ctx, s: seq<string>)
    requires c.section == d.section && Fresh(c, s) && Fresh(d, s)
    ensures ReadAll(c, s) == ReadAll(d, s)
  {
    if s != [] {
      assert Read(c, s[0]) == Read(d, s[0]) by {
        hide TrimSpace, SectionName, AssignmentOf, Introduces;
      }
      hide Read;
    }
  }

  lemma {:induction false} ItemsTell(ctx: Ctx, k: Name, indent: string, sep: string, items: seq<string>)
    requires GoodKey(k) && Blanks(indent) && IsSep(sep) && ctx.section == k.section && Admits(ctx, |indent|)
    ensures
      var lines := ListLines(indent, k.name, sep, items);
      forall i :: 0 <= i < |lines| ==> Tells(ReadAll(ctx, lines)[i], k)
    decreases |items|
  {
    hide Read, SpellString, Blanks, IsSep, GoodKey;
    if items != [] {
      var spell := SpellString(items[0]);
      var line := indent + Core(k.name, true) + sep + spell;
      assert indent + k.name + "[]" + sep + spell == line;
      SpelledSolid(items[0]);
      LineTells(ctx, k, true, indent, sep, spell);
      var lines := ListLines(indent, k.name, sep, items);
      assert lines[0] == line && lines[1..] == ListLines(indent, k.name, sep, items[1..]);
      var d := Inside(k.section, |indent|);
      ItemsTell(d, k, indent, sep, items[1..]);
      assert ReadAll(ctx, lines)[0] == Read(ctx, line) && ReadAll(ctx, lines)[1..] == ReadAll(d, lines[1..]);
    }
  }

  lemma LineTells(ctx: Ctx, k: Name, list: bool, indent: string, sep: string, spell: string)
    requires GoodKey(k) && Blanks(indent) && IsSep(sep) && Solid(spell)
    requires ctx.section == k.section && Admits(ctx, |indent|)
    ensures
      var line := indent + Core(k.name, list) + sep + spell;
      Tells(Read(ctx, line), k) && Next(ctx, Read(ctx, line)) == Inside(k.section, |indent|)
  {
    hide Read, Core, IsSep, Solid, GoodName, Built;
    ReadBuilt(ctx, indent, k.name, list, sep, spell);
    BuiltName(k.name, list, indent, sep, spell);
  }

  lemma AddedTell(ctx: Ctx, k: Name, indent: string, sep: string, want: Literal)
    requires GoodKey(k) && Sound(want) && Blanks(indent) && IsSep(sep) && ctx.section == k.section && Admits(ctx, |indent|)
    ensures
      var lines := NewLines(indent, k.name, sep, want);
      forall i :: 0 <= i < |lines| ==> Tells(ReadAll(ctx, lines)[i], k)
  {
    hide Read, Blanks, IsSep, GoodKey, Spell, ListLines, Sound, Admits;
    if want.LList? {
      ItemsTell(ctx, k, indent, sep, want.items);
      assert NewLines(indent, k.name, sep, want) == ListLines(indent, k.name, sep, want.items);
    } else {
      SpellSolid(want);
      LineTells(ctx, k, false, indent, sep, Spell(want));
      var line := indent + Core(k.name, false) + sep + Spell(want);
      ReadOne(ctx, line);
      assert NewLines(indent, k.name, sep, want) == [line];
      assert Tells(ReadAll(ctx, [line])[0], k);
    }
  }

  /** Reading the three parts of an edited file. */
  lemma UndisturbedParts(p: seq<string>, m: seq<string>, s: seq<string>, k: Name)
    requires m != [] && Fresh(After(Top, p), s)
    ensures
      var c := After(Top, p);
      Undisturbed(p + s, p + (m + s), |p| + 1, k) <==>
      (forall i :: 0 <= i < |m| ==> Tells(ReadAll(c, m)[i], k)) && ReadAll(After(c, m), s) == ReadAll(c, s)
    ensures
      var c := After(Top, p);
      ReadAll(After(c, m), s) == ReadAll(c, s) ==> Fresh(After(c, m), s)
    ensures ReadAll(After(Top, p), m)[0].More? ==> !Tells(ReadAll(After(Top, p), m)[0], k)
  {
    hide *;
    var c := After(Top, p);
    ReadConcat(Top, p, s);
    ReadConcat(Top, p, m + s);
    ReadConcat(c, m, s);
    var head, mid := ReadAll(Top, p), ReadAll(c, m);
    ThreeParts(head, mid, ReadAll(c, s), ReadAll(After(c, m), s), k);
    UndisturbedIs(p + s, p + (m + s), |p| + 1, k);
    FreshIs(c, s);
    FreshIs(After(c, m), s);
    MoreTellsNot(mid[0], k);
  }

  lemma UndisturbedIs(lines: seq<string>, after: seq<string>, at: nat, k: Name)
    requires 1 <= at <= |lines| + 1 && |lines| <= |after|
    ensures Undisturbed(lines, after, at, k) <==> SameAround(ReadAll(Top, lines), ReadAll(Top, after), at - 1, |after| - |lines|, k)
  {
    hide ReadAll, Tells;
  }

  ghost predicate SameAround(was: seq<Event>, now: seq<Event>, i: nat, n: nat, k: Name)
    requires i <= |was| && |now| == |was| + n
  {
    now[..i] == was[..i] && now[i + n..] == was[i..] && forall j :: i <= j < i + n ==> Tells(now[j], k)
  }

  lemma ThreeParts(head: seq<Event>, mid: seq<Event>, was: seq<Event>, now: seq<Event>, k: Name)
    requires |was| == |now|
    ensures SameAround(head + was, head + (mid + now), |head|, |mid|, k) <==>
            (forall i :: 0 <= i < |mid| ==> Tells(mid[i], k)) && now == was
  {
    hide Tells;
    var a, b := head + was, head + (mid + now);
    Pieces(head, mid, now);
    assert b[|head| + |mid|..] == now && a[|head|..] == was && b[..|head|] == a[..|head|];
    assert forall i :: 0 <= i < |mid| ==> b[|head| + i] == mid[i];
    if SameAround(a, b, |head|, |mid|, k) {
      forall i | 0 <= i < |mid| ensures Tells(mid[i], k) { assert Tells(b[|head| + i], k); }
    }
    if forall i :: 0 <= i < |mid| ==> Tells(mid[i], k) {
      forall j | |head| <= j < |head| + |mid| ensures Tells(b[j], k) { assert b[j] == mid[j - |head|]; }
    }
  }

  lemma FreshIs(ctx: Ctx, s: seq<string>)
    ensures Fresh(ctx, s) <==> (s == [] || !ReadAll(ctx, s)[0].More?)
  {
    hide Read;
  }

  lemma MoreTellsNot(ev: Event, k: Name)
    ensures ev.More? ==> !Tells(ev, k)
  {
  }
}
