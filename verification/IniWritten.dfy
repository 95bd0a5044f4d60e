/** What Set writes into an ini file, where, and in whose style
    (internal/configfile/ini.go: iniReplace, iniInsert, iniInsertAt, iniStyle), told from the lines of the
    file. */
module IniWritten {
  import opened Text
  import opened Document
  import opened IniScan
  import opened IniPlaces
  import opened IniCodec
  import opened IniLines
  import opened IniInsert
  import opened IniKept
  import opened IniRefused

  /** Nothing stands on the line, or nothing but a comment. */
  ghost predicate IsEmptyLine(line: string) {
    forall c :: c in line ==> c in " \t\r\n\U{0B}\U{0C}"
  }

  ghost predicate IsRemark(line: string) {
    exists i :: 0 <= i < |line| && line[i] in ";#" && forall j :: 0 <= j < i ==> line[j] in " \t\r\n\U{0B}\U{0C}"
  }

  lemma EmptyMeans(line: string)
    ensures IsEmptyLine(line) <==> TrimSpace(line) == []
  {
    hide Lead, Trail;
    TrimSpaceHead(line);
    if IsEmptyLine(line) {
      forall i | 0 <= i < |line| ensures IsSpace(line[i]) { assert line[i] in line; }
      LeadIs(IsSpace, line, |line|);
    }
    if Lead(IsSpace, line) == |line| {
      forall c | c in line ensures c in " \t\r\n\U{0B}\U{0C}" { var i :| 0 <= i < |line| && line[i] == c; }
    }
  }

  lemma IntroducesMeans(line: string)
    ensures Introduces(line) <==> IsEmptyLine(line) || IsRemark(line)
  {
    EmptyMeans(line);
    hide TrimSpace, Lead, IsEmptyLine;
    TrimSpaceHead(line);
    var n := Lead(IsSpace, line);
    if i :| 0 <= i < |line| && line[i] in ";#" && forall j :: 0 <= j < i ==> line[j] in " \t\r\n\U{0B}\U{0C}" {
      LeadIs(IsSpace, line, i);
    }
    if n < |line| && (line[n] == ';' || line[n] == '#') {
      assert forall j :: 0 <= j < n ==> IsSpace(line[j]);
    }
  }

  // ---- the style ----

  ghost predicate FirstOf(es: seq<Entry>, section: string, e: Entry) {
    exists i :: 0 <= i < |es| && es[i] == e && e.section == section && forall j :: 0 <= j < i ==> es[j].section != section
  }

  /** The indentation and the separator are those of the first key of the section, of the first
      key of the file when the section has none, and none and a bare "=" in a file without
      keys. */
  lemma {:induction false} StyleIs(lines: seq<string>, all: seq<Entry>, es: seq<Entry>, section: string)
    ensures forall e :: FirstOf(es, section, e) ==> Style(lines, all, es, section) == (Indent(LineAt(lines, e.line)), e.a.sep)
    ensures (forall e :: e in es ==> e.section != section) ==>
              Style(lines, all, es, section) == if all == [] then ("", "=") else (Indent(LineAt(lines, all[0].line)), all[0].a.sep)
  {
    hide Indent;
    if es != [] {
      assert es[0] in es;
      if es[0].section != section {
        StyleIs(lines, all, es[1..], section);
        forall e | FirstOf(es, section, e) ensures FirstOf(es[1..], section, e) {
          var i :| 0 <= i < |es| && es[i] == e && e.section == section && forall j :: 0 <= j < i ==> es[j].section != section;
          assert es[1..][i - 1] == e;
          forall j | 0 <= j < i - 1 ensures es[1..][j].section != section { assert es[1..][j] == es[j + 1]; }
        }
      }
    }
  }

  // ---- the place ----

  /** A key of the file itself goes below the last one there is. */
  ghost predicate BelowLastTop(es: seq<Entry>, at: nat) {
    exists i :: 0 <= i < |es| && es[i].section == "" && at == es[i].line + 1 && forall j :: i < j < |es| ==> es[j].section != ""
  }

  lemma {:induction false} LastTopIs(es: seq<Entry>)
    ensures AfterLastTop(es) == None <==> forall e :: e in es ==> e.section != ""
    ensures AfterLastTop(es).Some? ==> BelowLastTop(es, AfterLastTop(es).value)
  {
    if es != [] {
      var n := |es| - 1;
      assert es[n] in es;
      if es[n].section != "" {
        var init := es[..n];
        LastTopIs(init);
        if AfterLastTop(init).Some? {
          var i :| 0 <= i < |init| && init[i].section == "" && AfterLastTop(init).value == init[i].line + 1 && forall j :: i < j < |init| ==> init[j].section != "";
          assert es[i] == init[i];
          forall j | i < j < |es| ensures es[j].section != "" { assert j < n ==> es[j] == init[j]; }
        }
      } else {
        assert AfterLastTop(es) == Some(es[n].line + 1);
      }
    }
  }

  /** With none it goes above the first header and the comments and blank lines that introduce
      it. */
  ghost predicate AboveIntroduction(lines: seq<string>, header: nat, at: nat) {
    && 1 <= at <= header <= |lines|
    && (forall n :: at - 1 <= n < header - 1 ==> IsEmptyLine(lines[n]) || IsRemark(lines[n]))
    && (at > 1 ==> !IsEmptyLine(lines[at - 2]) && !IsRemark(lines[at - 2]))
  }

  lemma {:induction false} AboveIs(lines: seq<string>, header: nat, at: nat)
    requires 1 <= at <= header <= |lines|
    requires forall n :: at - 1 <= n < header - 1 ==> IsEmptyLine(lines[n]) || IsRemark(lines[n])
    ensures AboveIntroduction(lines, header, Above(lines, at))
    decreases at
  {
    hide Introduces, IsEmptyLine, IsRemark;
    if at > 1 {
      IntroducesMeans(lines[at - 2]);
      if Introduces(lines[at - 2]) {
        AboveIs(lines, header, at - 1);
      }
    }
  }

  /** A key of a section the file has goes behind the last line of the first section of that
      name that is not blank. */
  ghost predicate EndOfSection(lines: seq<string>, hs: seq<HeaderLine>, t: nat, at: nat)
    requires t < |hs|
  {
    var next := if t + 1 < |hs| then hs[t + 1].line else |lines| + 1;
    && 1 <= hs[t].line < at <= next <= |lines| + 1
    && (forall n :: at - 1 <= n < next - 1 ==> IsEmptyLine(lines[n]))
    && (at > hs[t].line + 1 ==> !IsEmptyLine(lines[at - 2]))
  }

  lemma {:induction false} FirstSection(lines: seq<string>, hs: seq<HeaderLine>, section: string) returns (t: nat)
    requires forall i :: 0 <= i < |hs| ==> 1 <= hs[i].line <= |lines|
    requires exists h :: h in hs && h.name == section
    ensures t < |hs| && hs[t].name == section && forall i :: 0 <= i < t ==> hs[i].name != section
    ensures
      var last := if t + 1 < |hs| then hs[t + 1].line - 1 else |lines|;
      SectionEnd(lines, hs, section) == Some(BackOver(lines, last, hs[t].line))
  {
    hide BackOver;
    if hs[0].name == section {
      t := 0;
    } else {
      var rest := hs[1..];
      assert forall h :: h in hs ==> h == hs[0] || h in rest;
      var u := FirstSection(lines, rest, section);
      t := u + 1;
      forall i | 0 <= i < t ensures hs[i].name != section { assert i > 0 ==> hs[i] == rest[i - 1]; }
    }
  }

  lemma {:induction false} NoSection(lines: seq<string>, hs: seq<HeaderLine>, section: string)
    requires forall h :: h in hs ==> h.name != section
    ensures SectionEnd(lines, hs, section) == None
  {
    if hs != [] {
      assert hs[0] in hs;
      NoSection(lines, hs[1..], section);
    }
  }

  lemma {:induction false} BackIs(lines: seq<string>, last: nat, floor: nat)
    requires 1 <= floor <= last <= |lines|
    ensures floor <= BackOver(lines, last, floor) <= last
    ensures forall n :: BackOver(lines, last, floor) <= n < last ==> IsEmptyLine(lines[n])
    ensures BackOver(lines, last, floor) > floor ==> !IsEmptyLine(lines[BackOver(lines, last, floor) - 1])
  {
    hide IsEmptyLine, TrimSpace;
    EmptyMeans(lines[last - 1]);
    if last > floor && TrimSpace(LineAt(lines, last)) == [] {
      BackIs(lines, last - 1, floor);
    }
  }

  /** The headers of a scan stand on lines of the file, one below the other. */
  lemma HeaderPlaces(lines: seq<string>)
    ensures forall i :: 0 <= i < |ScanHeaders(lines)| ==> 1 <= ScanHeaders(lines)[i].line <= |lines|
    ensures forall i :: 0 <= i < |ScanHeaders(lines)| - 1 ==> ScanHeaders(lines)[i].line < ScanHeaders(lines)[i + 1].line
  {
    hide *;
    var hs, evs := ScanHeaders(lines), ReadAll(Top, lines);
    ScanHeadersAre(lines);
    HeadersRange(evs, 1);
    forall i | 0 <= i < |hs| ensures 1 <= hs[i].line <= |lines| { assert hs[i] in hs; }
    forall i | 0 <= i < |hs| - 1 ensures hs[i].line < hs[i + 1].line { HeadersAscend(evs, 1, i); }
  }

  lemma ScanHeadersAre(lines: seq<string>)
    ensures ScanHeaders(lines) == Headers(ReadAll(Top, lines), 1) && |ReadAll(Top, lines)| == |lines|
  {
    hide Headers, ReadAll;
  }

  // ---- Set ----

  ghost predicate InSection(lines: seq<string>, hs: seq<HeaderLine>, section: string, at: nat) {
    exists t :: 0 <= t < |hs| && hs[t].name == section && (forall i :: 0 <= i < t ==> hs[i].name != section) && EndOfSection(lines, hs, t, at)
  }

  /** The line a key goes in front of. */
  ghost predicate PlaceFor(lines: seq<string>, es: seq<Entry>, hs: seq<HeaderLine>, section: string, at: nat) {
    if section == "" then
      if exists a :: a in es && a.section == "" then BelowLastTop(es, at)
      else if hs == [] then at == |lines| + 1
      else AboveIntroduction(lines, hs[0].line, at)
    else if exists h :: h in hs && h.name == section then InSection(lines, hs, section, at)
    else at == |lines| + 1
  }

  /** A section the file does not have is opened, under a blank line unless the file ends with
      one. */
  ghost function HeaderFor(lines: seq<string>, hs: seq<HeaderLine>, section: string): seq<string> {
    if section == "" || exists h :: h in hs && h.name == section then []
    else (if lines == [] || IsEmptyLine(lines[|lines| - 1]) then [] else [""]) + ["[" + section + "]"]
  }

  /** What Set writes for a key the file does not state, and the line it goes in front of. */
  lemma InsertedExactly(lines: seq<string>, k: Name, want: Literal)
    requires Get(lines, k).kind == KindMissing
    ensures Set(lines, k, want).Change?
    ensures
      var e := Set(lines, k, want).edit;
      var es, hs := Scan(lines), ScanHeaders(lines);
      var style := Style(lines, es, es, k.section);
      && e.end == e.start - 1 && PlaceFor(lines, es, hs, k.section, e.start)
      && e.lines == HeaderFor(lines, hs, k.section) + NewLines(style.0, k.name, style.1, want)
  {
    hide *;
    SetInserts(lines, k, want);
    InsertEdit(lines, k, want);
    PlaceIs(lines, Scan(lines), ScanHeaders(lines), k.section) by { HeaderPlaces(lines); }
  }

  lemma PlaceIs(lines: seq<string>, es: seq<Entry>, hs: seq<HeaderLine>, section: string)
    requires forall i :: 0 <= i < |hs| ==> 1 <= hs[i].line <= |lines|
    requires forall i :: 0 <= i < |hs| - 1 ==> hs[i].line < hs[i + 1].line
    ensures
      var (at, header) := InsertAt(lines, es, hs, section);
      && PlaceFor(lines, es, hs, section, at)
      && forall added: seq<string> :: (if header then HeaderLines(lines, section) + added else added) == HeaderFor(lines, hs, section) + added
  {
    hide InsertAt, HeaderLines, AfterLastTop, Above, BelowLastTop, AboveIntroduction, IsEmptyLine, EndOfSection, SectionEnd, BackOver;
    assert forall added: seq<string> :: [] + added == added;
    LastTopIs(es);
    if section == "" {
      TopPlace(lines, es, hs);
      if AfterLastTop(es).None? && hs != [] {
        AboveIs(lines, hs[0].line, hs[0].line);
      }
    } else if exists h :: h in hs && h.name == section {
      var t := FirstSection(lines, hs, section);
      SectionPlace(lines, es, hs, section, t);
    } else {
      NoSection(lines, hs, section);
      NewSection(lines, es, hs, section);
    }
  }

  lemma InsertEdit(lines: seq<string>, k: Name, want: Literal)
    ensures
      var es := Scan(lines);
      var style := Style(lines, es, es, k.section);
      var (at, header) := InsertAt(lines, es, ScanHeaders(lines), k.section);
      var added := NewLines(style.0, k.name, style.1, want);
      Insert(lines, k, want) == Edit(at, at - 1, if header then HeaderLines(lines, k.section) + added else added)
  {
    hide Style, InsertAt, HeaderLines, NewLines, Scan, ScanHeaders;
  }

  lemma TopPlace(lines: seq<string>, es: seq<Entry>, hs: seq<HeaderLine>)
    ensures
      InsertAt(lines, es, hs, "") ==
      if AfterLastTop(es).Some? then (AfterLastTop(es).value, false)
      else if hs == [] then (|lines| + 1, false) else (Above(lines, hs[0].line), false)
  {
    hide AfterLastTop, Above;
  }

  lemma SectionPlace(lines: seq<string>, es: seq<Entry>, hs: seq<HeaderLine>, section: string, t: nat)
    requires section != "" && t < |hs| && 1 <= hs[t].line <= |lines|
    requires t + 1 < |hs| ==> hs[t].line < hs[t + 1].line <= |lines|
    requires
      var last := if t + 1 < |hs| then hs[t + 1].line - 1 else |lines|;
      SectionEnd(lines, hs, section) == Some(BackOver(lines, last, hs[t].line))
    ensures
      var (at, header) := InsertAt(lines, es, hs, section);
      !header && EndOfSection(lines, hs, t, at)
  {
    hide SectionEnd, BackOver, IsEmptyLine;
    BackIs(lines, if t + 1 < |hs| then hs[t + 1].line - 1 else |lines|, hs[t].line);
  }

  lemma NewSection(lines: seq<string>, es: seq<Entry>, hs: seq<HeaderLine>, section: string)
    requires section != "" && SectionEnd(lines, hs, section) == None
    ensures InsertAt(lines, es, hs, section) == (|lines| + 1, true)
    ensures HeaderLines(lines, section) == (if lines == [] || IsEmptyLine(lines[|lines| - 1]) then [] else [""]) + ["[" + section + "]"]
  {
    if lines != [] { EmptyMeans(lines[|lines| - 1]); }
    hide SectionEnd, TrimSpace, IsEmptyLine;
  }

  // ---- the lines ----

  /** A string is quoted exactly when a reader would not get it back as it is. */
  lemma SpelledExactly(want: Literal)
    requires !want.LList?
    ensures want.LBool? ==> Spell(want) == if want.on then "true" else "false"
    ensures want.LInt? ==> Spell(want) == want.text
    ensures want.LString? ==>
              var s := want.text;
              Spell(want) == if s == "" || IsSpace(s[0]) || IsSpace(s[|s| - 1]) || '\r' in s || '\n' in s then Quote(s) else s
  {
    if want.LString? && want.text != "" {
      SameWhenTrimmed(want.text);
    }
    hide Quote, TrimSpace;
  }

  lemma SameWhenTrimmed(s: string)
    requires s != ""
    ensures TrimSpace(s) == s <==> !IsSpace(s[0]) && !IsSpace(s[|s| - 1])
  {
    hide Lead, Trail;
    if !IsSpace(s[0]) {
      assert s[0..] == s;
    } else if Lead(IsSpace, s) < |s| {
      assert |TrimLeft(IsSpace, s)| < |s|;
    }
  }

  /** A list is one line for every item, in order, and anything else is one line. */
  lemma {:induction false} LinesExactly(indent: string, name: string, sep: string, items: seq<string>)
    ensures ListLines(indent, name, sep, items) == seq(|items|, i requires 0 <= i < |items| => indent + name + "[]" + sep + Spell(LString(items[i])))
    decreases |items|
  {
    hide Spell, SpellString;
    if items != [] {
      LinesExactly(indent, name, sep, items[1..]);
      SpellOf(items[0]);
    }
  }

  lemma SpellOf(s: string)
    ensures Spell(LString(s)) == SpellString(s)
  {
    hide SpellString;
  }

  /** The lines of an entry Set may replace. */
  ghost predicate Span(lines: seq<string>, k: Name, first: Entry, last: Entry) {
    && Touched(lines, k, first) && Touched(lines, k, last)
    && forall e :: Touched(lines, k, e) ==> first.line <= e.line <= last.line
  }

  /** What Set writes for a key the file states: from the first line it may replace to the last,
      continuation lines and all. A plain value is cut at its first byte, so what stands before
      it stays; anything else is written anew with the indentation and the separator of the
      first line. */
  lemma RewrittenExactly(lines: seq<string>, k: Name, want: Literal) returns (first: Entry, last: Entry)
    requires Get(lines, k).kind != KindMissing && Set(lines, k, want).Change?
    ensures Span(lines, k, first, last)
    ensures
      var e, line := Set(lines, k, want).edit, LineAt(lines, first.line);
      && e.start == first.line && e.end == last.endLine && first.a.valueAt <= |line|
      && e.lines ==
         if want.LList? then ListLines(Indent(line), k.name, first.a.sep, want.items)
         else if first.a.list then [Indent(line) + k.name + first.a.sep + Spell(want)]
         else [line[..first.a.valueAt] + Spell(want)]
  {
    hide *;
    SetReplaces(lines, k, want);
    var es := Chosen(Named(Scan(lines), k));
    first, last := es[0], es[|es| - 1];
    ChosenSpans(lines, k);
    ChosenOneOrLists(Named(Scan(lines), k));
    ReplaceIs(lines, es, want);
  }

  lemma SetReplaces(lines: seq<string>, k: Name, want: Literal)
    requires Get(lines, k).kind != KindMissing && Set(lines, k, want).Change?
    ensures
      var es := Chosen(Named(Scan(lines), k));
      && es != [] && 1 <= es[0].line && es[0].a.valueAt <= |LineAt(lines, es[0].line)|
      && Set(lines, k, want) == Change(Replace(lines, es, want))
  {
    hide Get, Scan, Named, Chosen, Replace, Insert, Holds;
    FoundChosen(lines, k);
    ChosenPlaced(lines, k);
  }

  lemma ChosenSpans(lines: seq<string>, k: Name)
    requires Chosen(Named(Scan(lines), k)) != []
    ensures
      var es := Chosen(Named(Scan(lines), k));
      Span(lines, k, es[0], es[|es| - 1]) && es[0].a.name == k.name
  {
    hide *;
    var evs := ReadAll(Top, lines);
    var es := Chosen(Named(Scan(lines), k));
    ScanEntries(lines);
    EntriesRise(evs, 1);
    NamedRise(Entries(evs, 1), k, 1, 1 + |evs|);
    ChosenRises(Named(Scan(lines), k), 1, 1 + |evs|);
    forall e ensures Touched(lines, k, e) <==> e in es { TouchedMeans(lines, k, e); }
    RisingSpans(es, 1, 1 + |evs|);
    SpanIs(lines, k, es);
    ChosenKinds(Named(Scan(lines), k));
    NamedMembers(Scan(lines), k);
  }

  lemma RisingSpans(es: seq<Entry>, lo: int, hi: int)
    requires Rising(es, lo, hi) && es != []
    ensures es[0] in es && es[|es| - 1] in es
    ensures forall e :: e in es ==> es[0].line <= e.line <= es[|es| - 1].line
  {
  }

  lemma SpanIs(lines: seq<string>, k: Name, es: seq<Entry>)
    requires es != [] && forall e :: Touched(lines, k, e) <==> e in es
    requires forall e :: e in es ==> es[0].line <= e.line <= es[|es| - 1].line
    ensures Span(lines, k, es[0], es[|es| - 1])
  {
    hide Touched;
    assert es[0] in es && es[|es| - 1] in es;
  }

  lemma ReplaceIs(lines: seq<string>, es: seq<Entry>, want: Literal)
    requires es != [] && 1 <= es[0].line && es[0].a.valueAt <= |LineAt(lines, es[0].line)| && (!es[0].a.list ==> |es| == 1)
    ensures
      var first, line := es[0], LineAt(lines, es[0].line);
      Replace(lines, es, want) == Edit(first.line, es[|es| - 1].endLine,
        if want.LList? then ListLines(Indent(line), first.a.name, first.a.sep, want.items)
        else if first.a.list then [Indent(line) + first.a.name + first.a.sep + Spell(want)]
        else [line[..first.a.valueAt] + Spell(want)])
  {
    hide ListLines, Spell, Indent;
  }
}
