/** A line that Set writes and the scanner takes for more of the entry above it is taken so
    again, however often it is written: the point of insertion moves down with the entry,
    and neither the style nor the entry changes. */
module IniSwallowed {
  import opened Text
  import opened Document
  import opened IniScan
  import opened IniPlaces
  import opened IniCodec
  import opened IniLines
  import opened IniTold
  import opened IniLaws
  import opened IniInsert
  import opened IniTaken
  import opened IniFile

  // ---- the style of a section is that of its assignments ----

  function Assigns(evs: seq<Event>): seq<Event> {
    if evs == [] then [] else (if evs[0].Assign? then [evs[0]] else []) + Assigns(evs[1..])
  }

  lemma {:induction false} AssignsConcat(a: seq<Event>, b: seq<Event>)
    ensures Assigns(a + b) == Assigns(a) + Assigns(b)
  {
    if a == [] {
      assert a + b == b;
    } else {
      AssignsConcat(a[1..], b);
      assert (a + b)[1..] == a[1..] + b;
    }
  }

  lemma {:induction false} NoAssigns(evs: seq<Event>)
    requires forall i :: 0 <= i < |evs| ==> evs[i].More?
    ensures Assigns(evs) == []
  {
    if evs != [] { NoAssigns(evs[1..]); }
  }

  /** An entry whose line is this event. */
  predicate Reads(evs: seq<Event>, at: nat, e: Entry, ev: Event) {
    at <= e.line < at + |evs| && evs[e.line - at] == ev && ev.Assign? && ev.section == e.section
  }

  predicate AllRead(evs: seq<Event>, at: nat, es: seq<Entry>, assigns: seq<Event>) {
    |es| == |assigns| && forall i :: 0 <= i < |es| ==> Reads(evs, at, es[i], assigns[i])
  }

  lemma ReadLater(evs: seq<Event>, at: nat, j: nat, es: seq<Entry>, assigns: seq<Event>)
    requires j <= |evs| && AllRead(evs[j..], at + j, es, assigns)
    ensures AllRead(evs, at, es, assigns)
  {
    forall i | 0 <= i < |es| ensures Reads(evs, at, es[i], assigns[i]) {
      assert Reads(evs[j..], at + j, es[i], assigns[i]);
    }
  }

  lemma ReadCons(evs: seq<Event>, at: nat, e: Entry, ev: Event, es: seq<Entry>, assigns: seq<Event>)
    requires AllRead(evs, at, es, assigns) && Reads(evs, at, e, ev)
    ensures AllRead(evs, at, [e] + es, [ev] + assigns)
  {
    hide Reads;
  }

  lemma AssignsFirst(evs: seq<Event>)
    ensures evs == [] ==> Assigns(evs) == []
    ensures evs != [] ==> Assigns(evs) == (if evs[0].Assign? then [evs[0]] else []) + Assigns(evs[1..])
  {
  }

  lemma EntryReads(evs: seq<Event>, at: nat)
    requires evs != [] && evs[0].Assign?
    ensures Reads(evs, at, EntryOf(evs, at), evs[0])
  {
    hide Mores, Texts;
  }

  /** Each entry stands on its own assignment. */
  lemma {:induction false} EntriesAssign(evs: seq<Event>, at: nat)
    ensures AllRead(evs, at, Entries(evs, at), Assigns(evs))
    decreases |evs|
  {
    hide *;
    EntriesFirst(evs, at);
    AssignsFirst(evs);
    if evs == [] {
      NoneRead(evs, at);
    } else if evs[0].Assign? {
      var k := Mores(evs[1..]);
      EntriesAssign(evs[1 + k..], at + 1 + k);
      ReadLater(evs, at, 1 + k, Entries(evs[1 + k..], at + 1 + k), Assigns(evs[1 + k..]));
      SkipAssigns(evs[1..]);
      assert evs[1..][k..] == evs[1 + k..];
      EntryReads(evs, at);
      ReadCons(evs, at, EntryOf(evs, at), evs[0], Entries(evs[1 + k..], at + 1 + k), Assigns(evs[1 + k..]));
    } else {
      EntriesAssign(evs[1..], at + 1);
      ReadLater(evs, at, 1, Entries(evs[1..], at + 1), Assigns(evs[1..]));
      assert [] + Assigns(evs[1..]) == Assigns(evs[1..]);
    }
  }

  lemma NoneRead(evs: seq<Event>, at: nat)
    ensures AllRead(evs, at, [], [])
  {
  }

  lemma SkipAssigns(evs: seq<Event>)
    ensures Mores(evs) <= |evs| && Assigns(evs) == Assigns(evs[Mores(evs)..])
  {
    var k := Mores(evs);
    hide Assigns, Mores;
    assert evs == evs[..k] + evs[k..];
    AssignsConcat(evs[..k], evs[k..]);
    NoAssigns(evs[..k]);
    assert [] + Assigns(evs[k..]) == Assigns(evs[k..]);
  }

  /** The indentation Style takes over, from the assignments. */
  function IndentFrom(all: seq<Event>, evs: seq<Event>, section: string): nat {
    if evs != [] then
      if evs[0].Assign? && evs[0].section == section then evs[0].indent else IndentFrom(all, evs[1..], section)
    else if all != [] && all[0].Assign? then all[0].indent
    else 0
  }

  /** An entry of the file and its assignment. */
  predicate Stated(lines: seq<string>, e: Entry, ev: Event) {
    ev.Assign? && ev.section == e.section && ev.indent == |Indent(LineAt(lines, e.line))|
  }

  predicate AllStated(lines: seq<string>, es: seq<Entry>, evs: seq<Event>) {
    |es| == |evs| && forall i :: 0 <= i < |es| ==> Stated(lines, es[i], evs[i])
  }

  lemma {:induction false} StyleIndent(lines: seq<string>, all: seq<Entry>, es: seq<Entry>, allEvs: seq<Event>, evs: seq<Event>, section: string)
    requires AllStated(lines, all, allEvs) && AllStated(lines, es, evs)
    ensures |Style(lines, all, es, section).0| == IndentFrom(allEvs, evs, section)
  {
    hide Indent;
    if es != [] {
      assert Stated(lines, es[0], evs[0]);
      StyleIndent(lines, all, es[1..], allEvs, evs[1..], section);
    } else if all != [] {
      assert Stated(lines, all[0], allEvs[0]);
    }
  }

  lemma ScanStated(lines: seq<string>)
    ensures AllStated(lines, Scan(lines), Assigns(ReadAll(Top, lines)))
  {
    hide ReadAll, Entries, Assigns, Indent, After, Read, AssignmentOf, Introduces, SectionName, TrimSpace, Continues;
    var evs := ReadAll(Top, lines);
    EntriesAssign(evs, 1);
    forall i | 0 <= i < |Scan(lines)| ensures Stated(lines, Scan(lines)[i], Assigns(evs)[i]) {
      assert Reads(evs, 1, Scan(lines)[i], Assigns(evs)[i]);
      Placed(lines, i);
      ReadAt(Top, lines, Scan(lines)[i].line - 1);
    }
  }

  lemma PointIndent(lines: seq<string>, k: Name)
    ensures |PointStyle(lines, k).0| == IndentFrom(Assigns(ReadAll(Top, lines)), Assigns(ReadAll(Top, lines)), k.section)
  {
    hide Scan, ReadAll, Assigns, Style, AllStated, IndentFrom;
    ScanStated(lines);
    StyleIndent(lines, Scan(lines), Scan(lines), Assigns(ReadAll(Top, lines)), Assigns(ReadAll(Top, lines)), k.section);
  }

  // ---- where a section ends, once it has more lines ----

  /** The header lines, further down. */
  predicate Lower(y: seq<HeaderLine>, z: seq<HeaderLine>, d: nat) {
    |y| == |z| && forall i :: 0 <= i < |y| ==> z[i].name == y[i].name && z[i].line == y[i].line + d
  }

  lemma {:induction false} HeadersLower(evs: seq<Event>, at: nat, d: nat)
    ensures Lower(Headers(evs, at), Headers(evs, at + d), d)
  {
    if evs != [] { HeadersLower(evs[1..], at + 1, d); }
  }

  lemma {:induction false} NoHeaders(evs: seq<Event>, at: nat)
    requires forall i :: 0 <= i < |evs| ==> evs[i].More?
    ensures Headers(evs, at) == []
  {
    if evs != [] { NoHeaders(evs[1..], at + 1); }
  }

  /** The file with lines put in below line n. */
  function Swollen(lines: seq<string>, n: nat, added: seq<string>): seq<string>
    requires n <= |lines|
  {
    lines[..n] + (added + lines[n..])
  }

  /** Lines put in where the section ends, the last of them not blank, are its last lines. */
  lemma {:induction false} BackOverMoved(lines: seq<string>, added: seq<string>, last: nat, floor: nat, n: nat)
    requires floor <= n <= last <= |lines| && BackOver(lines, last, floor) == n
    requires added != [] && TrimSpace(added[|added| - 1]) != []
    ensures BackOver(Swollen(lines, n, added), last + |added|, floor) == n + |added|
    decreases last
  {
    hide TrimSpace;
    var after := Swollen(lines, n, added);
    if last == n {
      assert LineAt(after, n + |added|) == added[|added| - 1];
    } else {
      assert LineAt(after, last + |added|) == LineAt(lines, last);
      BackOverMoved(lines, added, last - 1, floor, n);
    }
  }

  /** Headers one below the other, between two lines. */
  predicate Falling(hs: seq<HeaderLine>, lo: int, hi: int) {
    && (forall i :: 0 <= i < |hs| ==> lo < hs[i].line <= hi)
    && forall i, j :: 0 <= i < j < |hs| ==> hs[i].line < hs[j].line
  }

  lemma {:induction false} SectionEndMoved(lines: seq<string>, added: seq<string>, x: seq<HeaderLine>, y: seq<HeaderLine>, z: seq<HeaderLine>, section: string, n: nat)
    requires n <= |lines| && SectionEnd(lines, x + y, section) == Some(n)
    requires Falling(x, 0, n) && Falling(y, n, |lines|) && Lower(y, z, |added|)
    requires added != [] && TrimSpace(added[|added| - 1]) != []
    ensures SectionEnd(Swollen(lines, n, added), x + z, section) == Some(n + |added|)
    decreases |x|
  {
    hide TrimSpace, BackOver;
    var after := Swollen(lines, n, added);
    if x == [] {
      assert x + y == y && x + z == z;
      NotBelow(lines, y, section, n);
    } else if x[0].name != section {
      assert (x + y)[1..] == x[1..] + y && (x + z)[1..] == x[1..] + z;
      assert Falling(x[1..], 0, n);
      SectionEndMoved(lines, added, x[1..], y, z, section, n);
    } else {
      var hs := x + y;
      var last := if |hs| > 1 && hs[1].line >= 1 then hs[1].line - 1 else |lines|;
      assert n == BackOver(lines, last, x[0].line);
      if |x| > 1 {
        assert false;
      }
      assert |x| == 1 && y != [] ==> hs[1] == y[0] && (x + z)[1] == z[0];
      BackOverMoved(lines, added, last, x[0].line, n);
    }
  }

  /** A section that begins below a line does not end on it. */
  lemma {:induction false} NotBelow(lines: seq<string>, y: seq<HeaderLine>, section: string, n: nat)
    requires Falling(y, n, |lines|)
    ensures SectionEnd(lines, y, section) != Some(n)
  {
    hide BackOver;
    if y != [] && y[0].name != section {
      assert Falling(y[1..], n, |lines|);
      NotBelow(lines, y[1..], section, n);
    }
  }

  lemma {:induction false} HeadersFall(evs: seq<Event>, at: nat)
    requires at > 0
    ensures Falling(Headers(evs, at), at - 1, at - 1 + |evs|)
  {
    hide Headers;
    HeadersRange(evs, at);
    var hs := Headers(evs, at);
    assert forall i :: 0 <= i < |hs| ==> hs[i] in hs;
    forall i, j | 0 <= i < j < |hs| ensures hs[i].line < hs[j].line { Ascend(evs, at, i, j); }
  }

  lemma {:induction false} Ascend(evs: seq<Event>, at: nat, i: nat, j: nat)
    requires i < j < |Headers(evs, at)|
    ensures Headers(evs, at)[i].line < Headers(evs, at)[j].line
    decreases j
  {
    hide Headers;
    HeadersAscend(evs, at, j - 1);
    if i < j - 1 { Ascend(evs, at, i, j - 1); }
  }

  // ---- the same fate ----

  lemma SwollenIs(lines: seq<string>, n: nat, added: seq<string>)
    requires n <= |lines|
    ensures Swollen(lines, n, added) == lines[..n] + (added + lines[n..])
    ensures |Swollen(lines, n, added)| == |lines| + |added|
    ensures Swollen(lines, n, added)[..n + |added|] == lines[..n] + added
  {
  }

  /** The lines that are swallowed, in their place. */
  lemma Swallowing(lines: seq<string>, k: Name, want: Literal) returns (n: nat, added: seq<string>)
    requires GoodKey(k) && Sound(want) && want != LList([]) && !Lands(lines, k)
    ensures Get(lines, k).kind == KindMissing && Set(lines, k, want) == Change(Insert(lines, k, want))
    ensures n <= |lines| && added != [] && Point(lines, k) == (n + 1, false) && k.section != []
    ensures InRange(|lines|, Insert(lines, k, want))
    ensures Replaced(lines, Insert(lines, k, want)) == Swollen(lines, n, added)
    ensures |added| == if want.LList? then |want.items| else 1
    ensures
      var c := After(Top, lines[..n]);
      && PointCtx(lines, k) == c && !Admits(c, |PointStyle(lines, k).0|)
      && (forall i :: 0 <= i < |added| ==> ReadAll(c, added)[i].More?) && After(c, added) == c
      && TrimSpace(added[|added| - 1]) != []
  {
    hide *;
    LandsIs(lines, k);
    StandsAre(lines, k);
    SetInserts(lines, k, want);
    var (indent, sep) := PointStyle(lines, k);
    added := NewLines(indent, k.name, sep, want);
    StyleOk(lines, k);
    PointTotal(lines, k);
    n := Point(lines, k).0 - 1;
    InsertIs(lines, k, want);
    InsertionReplaces(lines, n + 1, added);
    SwollenIs(lines, n, added);
    SomeLines(indent, k.name, sep, want);
    HowMany(indent, k.name, sep, want);
    AddedContinue(PointCtx(lines, k), k, indent, sep, want);
    CtxAtPoint(lines, k, n);
    if k.section == [] { PointAtTop(lines, k); }
    var m := |added| - 1;
    ReadAt(PointCtx(lines, k), added, m);
    MoreSpeaks(After(PointCtx(lines, k), added[..m]), added[m]);
  }

  lemma StandsAre(lines: seq<string>, k: Name)
    ensures Stands(lines, k) <==> Point(lines, k).1 || Admits(PointCtx(lines, k), |PointStyle(lines, k).0|)
    ensures forall indent :: Admits(Top, indent)
  {
    hide Point, PointCtx, PointStyle;
  }

  lemma {:induction false} ItemLines(indent: string, name: string, sep: string, items: seq<string>)
    ensures |ListLines(indent, name, sep, items)| == |items|
  {
    hide SpellString;
    if items != [] { ItemLines(indent, name, sep, items[1..]); }
  }

  lemma HowMany(indent: string, name: string, sep: string, want: Literal)
    ensures |NewLines(indent, name, sep, want)| == if want.LList? then |want.items| else 1
  {
    hide Spell, ListLines;
    if want.LList? { ItemLines(indent, name, sep, want.items); }
  }

  lemma CtxAtPoint(lines: seq<string>, k: Name, n: nat)
    requires Point(lines, k).0 == n + 1 && n <= |lines|
    ensures PointCtx(lines, k) == After(Top, lines[..n])
  {
    hide Point, After;
  }

  lemma MoreSpeaks(ctx: Ctx, line: string)
    requires Read(ctx, line).More?
    ensures TrimSpace(line) != []
  {
    hide TrimSpace, SectionName, AssignmentOf, Indent;
  }

  lemma EndIs(lines: seq<string>, k: Name, n: nat)
    requires k.section != []
    ensures Point(lines, k) == (n + 1, false) <==> SectionEnd(lines, ScanHeaders(lines), k.section) == Some(n)
  {
    hide SectionEnd, ScanHeaders, Scan;
  }

  lemma HeadersApart(a: seq<Event>, m: seq<Event>, b: seq<Event>, n: nat)
    requires |a| == n && forall i :: 0 <= i < |m| ==> m[i].More?
    ensures
      var x, y, z := Headers(a, 1), Headers(b, 1 + n), Headers(b, 1 + n + |m|);
      && Headers(a + b, 1) == x + y && Headers(a + (m + b), 1) == x + z
      && Falling(x, 0, n) && Falling(y, n, n + |b|) && Lower(y, z, |m|)
  {
    hide *;
    HeadersConcat(a, b, 1);
    HeadersConcat(a, m + b, 1);
    HeadersConcat(m, b, 1 + n);
    NoHeaders(m, 1 + n);
    HeadersLower(b, 1 + n, |m|);
    HeadersFall(a, 1);
    HeadersFall(b, 1 + n);
    var z := Headers(b, 1 + n + |m|);
    assert [] + z == z;
  }

  /** The point of insertion moves down by the lines that were swallowed. */
  lemma PointMoves(lines: seq<string>, k: Name, n: nat, added: seq<string>)
    requires n <= |lines| && Point(lines, k) == (n + 1, false) && k.section != []
    requires added != [] && TrimSpace(added[|added| - 1]) != []
    requires
      var c := After(Top, lines[..n]);
      (forall i :: 0 <= i < |added| ==> ReadAll(c, added)[i].More?) && After(c, added) == c
    ensures Point(Swollen(lines, n, added), k).0 == n + |added| + 1 && !Point(Swollen(lines, n, added), k).1
  {
    hide *;
    var after := Swollen(lines, n, added);
    var x, y, z := HeadersMoved(lines, n, added);
    EndIs(lines, k, n);
    SectionEndMoved(lines, added, x, y, z, k.section, n);
    var end: nat := n + |added|;
    assert SectionEnd(after, ScanHeaders(after), k.section) == Some(end);
    EndIs(after, k, end);
    var point := Point(after, k);
    assert point == (end + 1, false);
    assert point.0 == end + 1 && end + 1 == n + |added| + 1;
  }

  lemma HeadersMoved(lines: seq<string>, n: nat, added: seq<string>) returns (x: seq<HeaderLine>, y: seq<HeaderLine>, z: seq<HeaderLine>)
    requires n <= |lines| && After(After(Top, lines[..n]), added) == After(Top, lines[..n])
    requires forall i :: 0 <= i < |added| ==> ReadAll(After(Top, lines[..n]), added)[i].More?
    ensures ScanHeaders(lines) == x + y && ScanHeaders(Swollen(lines, n, added)) == x + z
    ensures Falling(x, 0, n) && Falling(y, n, |lines|) && Lower(y, z, |added|)
  {
    hide *;
    var c := After(Top, lines[..n]);
    var a, m, b := ReadAll(Top, lines[..n]), ReadAll(c, added), ReadAll(c, lines[n..]);
    EventsMoved(lines, n, added);
    HeadersApart(a, m, b, n);
    HeadersAre(lines);
    HeadersAre(Swollen(lines, n, added));
    x, y, z := Headers(a, 1), Headers(b, 1 + n), Headers(b, 1 + n + |m|);
  }

  lemma EventsMoved(lines: seq<string>, n: nat, added: seq<string>)
    requires n <= |lines| && After(After(Top, lines[..n]), added) == After(Top, lines[..n])
    ensures
      var c := After(Top, lines[..n]);
      var a, m, b := ReadAll(Top, lines[..n]), ReadAll(c, added), ReadAll(c, lines[n..]);
      && ReadAll(Top, lines) == a + b
      && ReadAll(Top, Swollen(lines, n, added)) == a + (m + b)
  {
    hide *;
    var p, s := lines[..n], lines[n..];
    assert lines == p + s;
    SwollenIs(lines, n, added);
    ReadConcat(Top, p, s);
    ReadConcat(Top, p, added + s);
    ReadConcat(After(Top, p), added, s);
  }

  lemma HeadersAre(lines: seq<string>)
    ensures ScanHeaders(lines) == Headers(ReadAll(Top, lines), 1)
  {
  }

  /** Lines that continue the entry above change no style. */
  lemma StyleStays(lines: seq<string>, k: Name, n: nat, added: seq<string>)
    requires n <= |lines|
    requires
      var c := After(Top, lines[..n]);
      (forall i :: 0 <= i < |added| ==> ReadAll(c, added)[i].More?) && After(c, added) == c
    ensures |PointStyle(Swollen(lines, n, added), k).0| == |PointStyle(lines, k).0|
  {
    hide *;
    var p, s := lines[..n], lines[n..];
    var c, after := After(Top, p), Swollen(lines, n, added);
    PointIndent(lines, k);
    PointIndent(after, k);
    EventsMoved(lines, n, added);
    var a, m, b := ReadAll(Top, p), ReadAll(c, added), ReadAll(c, s);
    AssignsConcat(a, b);
    AssignsConcat(a, m + b);
    AssignsConcat(m, b);
    NoAssigns(m);
    assert [] + Assigns(b) == Assigns(b);
  }

  /** A line that is swallowed is swallowed again when it is written again: the file only
      grows. */
  lemma SwallowedAgain(lines: seq<string>, k: Name, want: Literal)
    requires GoodKey(k) && Sound(want) && want != LList([]) && !Lands(lines, k)
    ensures
      var e := Insert(lines, k, want);
      && Set(lines, k, want) == Change(e) && InRange(|lines|, e)
      && var after := Replaced(lines, e);
         && !Lands(after, k)
         && |after| == |lines| + if want.LList? then |want.items| else 1
  {
    hide *;
    var n, added := Swallowing(lines, k, want);
    var after := Swollen(lines, n, added);
    PointMoves(lines, k, n, added);
    StyleStays(lines, k, n, added);
    SwollenIs(lines, n, added);
    CtxAtPoint(after, k, n + |added|);
    ReadConcat(Top, lines[..n], added);
    StandsAre(after, k);
    LandsIs(after, k);
    LandsIs(lines, k);
    SetLaw(lines, k, want);
  }
}
