/** When Set refuses a key of an ini file (internal/configfile/ini.go: iniRefuseEnv,
    iniListValue, Set), told from the lines of the file. */
module IniRefused {
  import opened Text
  import opened Document
  import opened IniScan
  import opened IniPlaces
  import opened IniCodec
  import opened IniLines
  import opened IniTold
  import opened IniLaws
  import opened IniKept
  import IniExamples

  /** The opening of an interpolated environment variable stands in the text. */
  ghost predicate Opens(text: string) {
    exists i, j :: 0 <= i <= j <= |text| && text[i..j] == "${"
  }

  lemma OpensMeans(text: string)
    ensures Opens(text) <==> Interpolates(text)
  {
    if i, j :| 0 <= i <= j <= |text| && text[i..j] == "${" {
      assert text[i] == text[i..j][0] && text[i + 1] == text[i..j][1];
    }
    if i :| 0 <= i < |text| - 1 && text[i] == '$' && text[i + 1] == '{' {
      assert text[i..i + 2] == "${";
    }
  }

  lemma OpensAt(text: string, i: nat)
    requires i + 2 <= |text| && text[i] == '$' && text[i + 1] == '{'
    ensures Opens(text)
  {
    assert text[i..i + 2] == "${";
  }

  lemma OpensWhere(text: string) returns (i: nat)
    requires Opens(text)
    ensures i + 2 <= |text| && text[i] == '$' && text[i + 1] == '{'
  {
    OpensMeans(text);
    i :| 0 <= i < |text| - 1 && text[i] == '$' && text[i + 1] == '{';
  }

  /** Bytes around a text that are no part of such an opening hide none. */
  lemma OpensInside(pre: string, core: string, post: string)
    requires forall c :: c in pre || c in post ==> c != '$' && c != '{'
    ensures Opens(pre + core + post) <==> Opens(core)
  {
    hide Opens;
    OpensBehind(pre, core);
    OpensAhead(pre + core, post);
  }

  lemma InPart(a: string, b: string, i: nat)
    requires i < |a| + |b|
    ensures if i < |a| then (a + b)[i] in a else (a + b)[i] in b
  {
  }

  lemma OpensBehind(pre: string, core: string)
    requires forall c :: c in pre ==> c != '$'
    ensures Opens(pre + core) <==> Opens(core)
  {
    var text := pre + core;
    if Opens(core) {
      var i := OpensWhere(core);
      assert text[|pre| + i] == core[i] && text[|pre| + i + 1] == core[i + 1];
      OpensAt(text, |pre| + i);
    }
    if Opens(text) {
      var i := OpensWhere(text);
      assert i >= |pre| by { InPart(pre, core, i); }
      assert core[i - |pre|] == text[i] && core[i + 1 - |pre|] == text[i + 1];
      OpensAt(core, i - |pre|);
    }
  }

  lemma OpensAhead(core: string, post: string)
    requires forall c :: c in post ==> c != '{'
    ensures Opens(core + post) <==> Opens(core)
  {
    var text := core + post;
    if Opens(core) {
      var i := OpensWhere(core);
      OpensAt(text, i);
    }
    if Opens(text) {
      var i := OpensWhere(text);
      assert i + 1 < |core| by { InPart(core, post, i + 1); }
      OpensAt(core, i);
    }
  }

  /** An opening in joined texts is in one of them. */
  lemma {:induction false} OpensJoined(parts: seq<string>)
    requires parts != []
    ensures Opens(Join(parts, "\n")) <==> exists n :: 0 <= n < |parts| && Opens(parts[n])
    decreases |parts|
  {
    if |parts| == 1 {
      assert Join(parts, "\n") == parts[0];
    } else {
      var rest := Join(parts[1..], "\n");
      OpensJoined(parts[1..]);
      OpensBoth(parts[0], rest);
      assert Join(parts, "\n") == parts[0] + "\n" + rest;
      hide Opens, Join;
      if n :| 0 <= n < |parts| && Opens(parts[n]) { assert n > 0 ==> parts[1..][n - 1] == parts[n]; }
      if n :| 0 <= n < |parts[1..]| && Opens(parts[1..][n]) { assert parts[n + 1] == parts[1..][n]; }
    }
  }

  lemma OpensBoth(a: string, b: string)
    ensures Opens(a + "\n" + b) <==> Opens(a) || Opens(b)
  {
    var text := a + "\n" + b;
    if Opens(text) {
      var i := OpensWhere(text);
      if i + 1 < |a| {
        OpensAt(a, i);
      } else {
        assert i > |a|;
        OpensAt(b, i - |a| - 1);
      }
    }
    if Opens(a) {
      var i := OpensWhere(a);
      OpensAt(text, i);
    }
    if Opens(b) {
      var i := OpensWhere(b);
      assert text[|a| + 1 + i] == b[i] && text[|a| + 1 + i + 1] == b[i + 1];
      OpensAt(text, |a| + 1 + i);
    }
  }

  // ---- the lines of an entry ----

  lemma SpaceIsNoOpening(s: string)
    ensures Spaces(s) ==> forall c :: c in s ==> c != '$' && c != '{'
    ensures Blanks(s) ==> forall c :: c in s ==> c != '$' && c != '{'
  {
  }

  lemma TrimParts(s: string) returns (pre: string, post: string)
    ensures s == pre + TrimSpace(s) + post && Spaces(pre) && Spaces(post)
  {
    hide Lead, Trail;
    var n := Lead(IsSpace, s);
    var t := s[n..];
    var m := |t| - Trail(IsSpace, t);
    pre, post := s[..n], t[m..];
    assert TrimSpace(s) == t[..m];
    assert t == t[..m] + t[m..] && s == s[..n] + t;
    assert forall i :: 0 <= i < |post| ==> post[i] == t[m + i];
  }

  lemma OpensTrimmed(s: string)
    ensures Opens(TrimSpace(s)) <==> Opens(s)
  {
    var pre, post := TrimParts(s);
    SpaceIsNoOpening(pre);
    SpaceIsNoOpening(post);
    hide TrimSpace, Opens;
    OpensInside(pre, TrimSpace(s), post);
  }

  /** What stands behind the separator of an assignment, and its value. */
  lemma OpensRaw(line: string)
    requires AssignmentOf(line).Some?
    ensures AssignmentOf(line).value.valueAt <= |line|
    ensures Opens(AssignmentOf(line).value.raw) <==> Opens(line[AssignmentOf(line).value.valueAt..])
  {
    var a := AssignmentOf(line).value;
    var tail := line[a.valueAt..];
    assert a.raw == TrimRight(IsBlank, tail);
    var n := |tail| - Trail(IsBlank, tail);
    assert tail == [] + tail[..n] + tail[n..];
    SpaceIsNoOpening(tail[n..]);
    hide AssignmentOf, Opens, Trail;
    OpensInside([], tail[..n], tail[n..]);
  }

  /** The lines of an entry: its own, and those that continue it. */
  lemma EntryLines(lines: seq<string>, j: nat)
    requires j < |Scan(lines)|
    ensures
      var e := Scan(lines)[j];
      && 1 <= e.line <= e.endLine <= |lines|
      && AssignmentOf(lines[e.line - 1]) == Some(e.a)
      && |e.more| == e.endLine - e.line
      && forall i :: 0 <= i < |e.more| ==> e.more[i] == TrimSpace(lines[e.line + i])
  {
    hide Entries, ReadAll, After, Read, AssignmentOf, TrimSpace, Mores, Texts, Indent, Introduces, SectionName, Continues;
    var e, evs := Scan(lines)[j], ReadAll(Top, lines);
    Placed(lines, j);
    EntryEvents(evs, j);
    EntryTexts(evs, j);
    forall i | 0 <= i < |e.more| ensures e.more[i] == TrimSpace(lines[e.line + i]) {
      ReadAt(Top, lines, e.line + i);
      MoreText(After(Top, lines[..e.line + i]), lines[e.line + i]);
    }
  }

  lemma MoreText(ctx: Ctx, line: string)
    requires Read(ctx, line).More?
    ensures Read(ctx, line).text == TrimSpace(line)
  {
    hide TrimSpace, AssignmentOf, SectionName, Indent;
  }

  /** The texts of an entry are those of the events that continue it. */
  lemma EntryTexts(evs: seq<Event>, j: nat)
    requires j < |Entries(evs, 1)|
    ensures
      var e := Entries(evs, 1)[j];
      && 1 <= e.line <= e.endLine <= |evs| && |e.more| == e.endLine - e.line
      && (forall i :: e.line <= i < e.endLine ==> evs[i].More?)
      && forall i :: 0 <= i < |e.more| ==> e.more[i] == evs[e.line + i].text
  {
    hide Entries, Mores, Texts;
    EntryEvents(evs, j);
    Locate(evs, 1, j);
    var es, e := Entries(evs, 1), Entries(evs, 1)[j];
    var rest := evs[e.line - 1..];
    EntriesFirst(rest, e.line);
    var k := Mores(rest[1..]);
    TextsAre(rest[1..][..k]);
    MoresAre(rest);
    assert forall i :: 0 <= i < k ==> rest[1..][..k][i] == evs[e.line + i];
  }

  lemma MoresAre(evs: seq<Event>)
    requires evs != [] && evs[0].Assign?
    ensures
      var k := Mores(evs[1..]);
      && k <= |evs[1..]| && (forall i :: 0 <= i < k ==> evs[1..][..k][i].More?)
      && forall at: nat :: EntryOf(evs, at).more == Texts(evs[1..][..k]) && EntryOf(evs, at).endLine == at + k && EntryOf(evs, at).line == at
  {
    hide Texts;
  }

  lemma TextsAre(evs: seq<Event>)
    requires forall i :: 0 <= i < |evs| ==> evs[i].More?
    ensures |Texts(evs)| == |evs| && forall i :: 0 <= i < |evs| ==> Texts(evs)[i] == evs[i].text
  {
  }

  /** A reader of the file puts the value of a variable into what this entry says: it is
      named behind the separator or, in a value that is no list item, on a line that
      continues it. */
  ghost predicate Resolves(lines: seq<string>, e: Entry) {
    && 1 <= e.line <= e.endLine <= |lines| && e.a.valueAt <= |lines[e.line - 1]|
    && (Opens(lines[e.line - 1][e.a.valueAt..]) || (!e.a.list && exists n :: e.line <= n < e.endLine && Opens(lines[n])))
  }

  lemma ResolvesMeans(lines: seq<string>, j: nat)
    requires j < |Scan(lines)|
    ensures
      var e := Scan(lines)[j];
      Resolves(lines, e) <==> Interpolates(if e.a.list then e.a.raw else Join([e.a.raw] + e.more, "\n"))
  {
    hide *;
    EntryLines(lines, j);
    var e := Scan(lines)[j];
    OpensRaw(lines[e.line - 1]);
    OpensMeans(e.a.raw);
    var parts := [e.a.raw] + e.more;
    OpensJoined(parts);
    OpensMeans(Join(parts, "\n"));
    ResolvesIs(lines, e);
    forall n | e.line <= n < e.endLine ensures Opens(lines[n]) <==> Opens(parts[n - e.line + 1]) {
      OpensTrimmed(lines[n]);
      assert parts[n - e.line + 1] == e.more[n - e.line] == TrimSpace(lines[n]);
    }
    if n :| 0 <= n < |parts| && Opens(parts[n]) {
      if n > 0 { assert Opens(lines[e.line + n - 1]); }
    }
    assert parts[0] == e.a.raw;
    if n :| e.line <= n < e.endLine && Opens(lines[n]) { assert Opens(parts[n - e.line + 1]); }
  }

  lemma ResolvesIs(lines: seq<string>, e: Entry)
    requires 1 <= e.line <= e.endLine <= |lines| && e.a.valueAt <= |lines[e.line - 1]|
    ensures Resolves(lines, e) <==>
            Opens(lines[e.line - 1][e.a.valueAt..]) || (!e.a.list && exists n :: e.line <= n < e.endLine && Opens(lines[n]))
  {
    hide Opens;
  }

  // ---- which entries Set may replace ----

  /** One of the entries of a key Set may replace: a list line when there are any, and
      otherwise the last one. */
  ghost predicate Touched(lines: seq<string>, k: Name, e: Entry) {
    && e in Scan(lines) && e.section == k.section && e.a.name == k.name
    && if exists l :: l in Scan(lines) && l.section == k.section && l.a.name == k.name && l.a.list
       then e.a.list
       else forall l :: l in Scan(lines) && l.section == k.section && l.a.name == k.name ==> l.line <= e.line
  }

  lemma {:induction false} NamedMembers(es: seq<Entry>, k: Name)
    ensures forall e :: e in Named(es, k) <==> e in es && e.section == k.section && e.a.name == k.name
  {
    if es != [] {
      assert es == [es[0]] + es[1..];
      NamedMembers(es[1..], k);
    }
  }

  lemma {:induction false} ListsMembers(es: seq<Entry>)
    ensures forall e :: e in Lists(es) <==> e in es && e.a.list
  {
    if es != [] {
      assert es == [es[0]] + es[1..];
      ListsMembers(es[1..]);
    }
  }

  lemma TouchedMeans(lines: seq<string>, k: Name, e: Entry)
    ensures Touched(lines, k, e) <==> e in Chosen(Named(Scan(lines), k))
  {
    hide Scan, Named, Lists;
    var es := Named(Scan(lines), k);
    NamedMembers(Scan(lines), k);
    ListsMembers(es);
    if Lists(es) == [] {
      assert forall l :: l in es ==> !l.a.list;
      if es != [] { LastIsLowest(lines, k); }
    } else {
      assert Lists(es)[0] in Lists(es);
    }
  }

  /** The last entry of a key stands on the lowest of its lines, and no other there. */
  lemma LastIsLowest(lines: seq<string>, k: Name)
    requires Named(Scan(lines), k) != []
    ensures
      var es := Named(Scan(lines), k);
      && (forall l :: l in es ==> l.line <= es[|es| - 1].line)
      && forall l :: l in es && l.line >= es[|es| - 1].line ==> l == es[|es| - 1]
  {
    hide *;
    var evs := ReadAll(Top, lines);
    ScanEntries(lines);
    EntriesRise(evs, 1);
    NamedRise(Entries(evs, 1), k, 1, 1 + |evs|);
    RisingLast(Named(Scan(lines), k), 1, 1 + |evs|);
  }

  lemma ScanEntries(lines: seq<string>)
    ensures Scan(lines) == Entries(ReadAll(Top, lines), 1)
  {
  }

  lemma RisingLast(es: seq<Entry>, lo: int, hi: int)
    requires Rising(es, lo, hi) && es != []
    ensures forall l :: l in es ==> l.line <= es[|es| - 1].line
    ensures forall l :: l in es && l.line >= es[|es| - 1].line ==> l == es[|es| - 1]
  {
  }

  /** No entry of a key Set may replace stands on the line. */
  ghost predicate Vacant(lines: seq<string>, k: Name, n: int) {
    forall e :: Touched(lines, k, e) ==> e.line != n
  }

  /** Between two list lines of a key there is a line that is none of them. */
  ghost predicate Spread(lines: seq<string>, k: Name) {
    exists a, b, n :: Touched(lines, k, a) && Touched(lines, k, b) && a.a.list && a.line < n < b.line && Vacant(lines, k, n)
  }

  predicate VacantIn(es: seq<Entry>, n: int) {
    forall i :: 0 <= i < |es| ==> es[i].line != n
  }

  ghost predicate SpreadIn(es: seq<Entry>) {
    exists n :: es != [] && es[0].line < n < es[|es| - 1].line && VacantIn(es, n)
  }

  /** Lists on consecutive lines, as one number says it and as it looks in the file. */
  lemma {:induction false} CloseMeans(es: seq<Entry>, lo: int, hi: int)
    requires Rising(es, lo, hi) && es != []
    ensures es[|es| - 1].line - es[0].line == |es| - 1 <==> !SpreadIn(es)
    decreases |es|
  {
    var m := |es| - 1;
    if es[m].line - es[0].line == m {
      FullRun(es, lo, hi);
      forall n | es[0].line < n < es[m].line ensures !VacantIn(es, n) {
        assert es[n - es[0].line].line == n;
      }
    } else {
      var n := GapIn(es, lo, hi);
    }
  }

  lemma {:induction false} FullRun(es: seq<Entry>, lo: int, hi: int)
    requires Rising(es, lo, hi) && es != [] && es[|es| - 1].line - es[0].line == |es| - 1
    ensures forall i :: 0 <= i < |es| ==> es[i].line == es[0].line + i
    decreases |es|
  {
    forall i | 0 <= i < |es| ensures es[i].line == es[0].line + i {
      assert Rising(es[..i + 1], lo, hi) && Rising(es[i..], lo, hi);
      RisingBounds(es[..i + 1], lo, hi);
      RisingBounds(es[i..], lo, hi);
      assert es[..i + 1][i] == es[i] && es[i..][0] == es[i] && es[i..][|es| - 1 - i] == es[|es| - 1];
    }
  }

  lemma {:induction false} GapIn(es: seq<Entry>, lo: int, hi: int) returns (n: int)
    requires Rising(es, lo, hi) && es != [] && es[|es| - 1].line - es[0].line != |es| - 1
    ensures es[0].line < n < es[|es| - 1].line && VacantIn(es, n)
    decreases |es|
  {
    var m := |es| - 1;
    RisingBounds(es, lo, hi);
    if es[m].line == es[m - 1].line + 1 {
      var init := es[..m];
      assert Rising(init, lo, hi) && init[m - 1] == es[m - 1];
      n := GapIn(init, lo, hi);
      assert forall i :: 0 <= i < m ==> init[i] == es[i];
    } else {
      n := es[m - 1].line + 1;
    }
  }

  // ---- the refusal ----

  /** Set refuses a key that says something else than is wanted in exactly two cases: a
      variable is put into an entry Set would replace, or its list lines do not follow each
      other. */
  lemma RefusedExactly(lines: seq<string>, k: Name, want: Literal)
    requires Get(lines, k).kind != KindMissing && !Holds(Get(lines, k), want)
    ensures Set(lines, k, want) == Refused <==>
            (exists e :: Touched(lines, k, e) && Resolves(lines, e)) || Spread(lines, k)
  {
    hide *;
    SetEdits(lines, k, want);
    var es := Chosen(Named(Scan(lines), k));
    EditableMeans(lines, k);
    forall e ensures Touched(lines, k, e) <==> e in es { TouchedMeans(lines, k, e); }
    SpreadMeans(lines, k);
    ChosenKinds(Named(Scan(lines), k));
  }

  lemma SetEdits(lines: seq<string>, k: Name, want: Literal)
    requires Get(lines, k).kind != KindMissing && !Holds(Get(lines, k), want)
    ensures Set(lines, k, want) == Refused <==> !Get(lines, k).editable
    ensures Chosen(Named(Scan(lines), k)) != []
  {
    hide Get, Scan, Named, Chosen, Replace, Insert, Holds;
    FoundChosen(lines, k);
    ChosenPlaced(lines, k);
  }

  lemma ChosenKinds(matched: seq<Entry>)
    ensures forall e :: e in Chosen(matched) ==> e in matched
    ensures Chosen(matched) != [] ==> forall e :: e in Chosen(matched) ==> e.a.list == Chosen(matched)[0].a.list
  {
    hide Chosen, Lists;
    ChosenFrom(matched);
    assert Chosen(matched) != [] ==> Chosen(matched)[0] in Chosen(matched);
  }

  lemma SpreadMeans(lines: seq<string>, k: Name)
    requires forall e :: Touched(lines, k, e) <==> e in Chosen(Named(Scan(lines), k))
    requires Chosen(Named(Scan(lines), k)) != []
    ensures
      var es := Chosen(Named(Scan(lines), k));
      Spread(lines, k) <==> es[0].a.list && es[|es| - 1].line - es[0].line != |es| - 1
  {
    hide *;
    var evs := ReadAll(Top, lines);
    var es := Chosen(Named(Scan(lines), k));
    ScanEntries(lines);
    EntriesRise(evs, 1);
    NamedRise(Entries(evs, 1), k, 1, 1 + |evs|);
    ChosenRises(Named(Scan(lines), k), 1, 1 + |evs|);
    CloseMeans(es, 1, 1 + |evs|);
    ChosenKinds(Named(Scan(lines), k));
    SpreadIs(lines, k, es, 1, 1 + |evs|);
  }

  lemma SpreadIs(lines: seq<string>, k: Name, es: seq<Entry>, lo: int, hi: int)
    requires forall e :: Touched(lines, k, e) <==> e in es
    requires es != [] && Rising(es, lo, hi) && forall e :: e in es ==> e.a.list == es[0].a.list
    ensures Spread(lines, k) <==> es[0].a.list && SpreadIn(es)
  {
    hide Touched;
    assert es[0] in es && es[|es| - 1] in es;
    if a, b, n :| Touched(lines, k, a) && Touched(lines, k, b) && a.a.list && a.line < n < b.line && Vacant(lines, k, n) {
      assert a in es && b in es;
      forall i | 0 <= i < |es| ensures es[i].line != n { assert es[i] in es; }
      assert VacantIn(es, n);
    }
    if es[0].a.list {
      if n :| es[0].line < n < es[|es| - 1].line && VacantIn(es, n) {
        assert Touched(lines, k, es[0]) && Touched(lines, k, es[|es| - 1]);
        assert Vacant(lines, k, n);
      }
    }
  }

  lemma ChosenRises(matched: seq<Entry>, lo: int, hi: int)
    requires Rising(matched, lo, hi)
    ensures Rising(Chosen(matched), lo, hi)
  {
    NamedRise(matched, Name("", ""), lo, hi);
    hide Named, Lists;
  }

  /** When a value may be edited, entry by entry. */
  lemma EditableMeans(lines: seq<string>, k: Name)
    requires Chosen(Named(Scan(lines), k)) != []
    ensures
      var es := Chosen(Named(Scan(lines), k));
      !Get(lines, k).editable <==>
      (exists e :: e in es && Resolves(lines, e)) || (es[0].a.list && es[|es| - 1].line - es[0].line != |es| - 1)
  {
    hide *;
    var es := Chosen(Named(Scan(lines), k));
    ChosenKinds(Named(Scan(lines), k));
    NamedMembers(Scan(lines), k);
    forall e | e in es ensures Resolves(lines, e) <==> Interpolates(if e.a.list then e.a.raw else Join([e.a.raw] + e.more, "\n")) {
      assert e in Scan(lines);
      var j :| 0 <= j < |Scan(lines)| && Scan(lines)[j] == e;
      ResolvesMeans(lines, j);
    }
    AnyMeans(es);
    GetEditable(lines, k);
    ChosenOneOrLists(Named(Scan(lines), k));
    if !es[0].a.list { assert es == [es[0]]; }
  }

  lemma ChosenOneOrLists(matched: seq<Entry>)
    ensures Chosen(matched) != [] && !Chosen(matched)[0].a.list ==> |Chosen(matched)| == 1
  {
    hide Lists;
    ListsFrom(matched);
    assert Lists(matched) != [] ==> Lists(matched)[0] in Lists(matched);
  }

  lemma GetEditable(lines: seq<string>, k: Name)
    requires Chosen(Named(Scan(lines), k)) != []
    ensures
      var es := Chosen(Named(Scan(lines), k));
      Get(lines, k).editable <==>
      if es[0].a.list then es[|es| - 1].line - es[0].line == |es| - 1 && !AnyInterpolates(es)
      else !Interpolates(Join([es[0].a.raw] + es[0].more, "\n"))
  {
    hide Scan, Named, Chosen, Interpolates, AnyInterpolates, Join, IniKind, Unquote, Items;
  }

  lemma {:induction false} AnyMeans(es: seq<Entry>)
    ensures AnyInterpolates(es) <==> exists e :: e in es && Interpolates(e.a.raw)
  {
    hide Interpolates;
    if es != [] {
      AnyMeans(es[1..]);
      assert es == [es[0]] + es[1..];
    }
  }

  // ---- an .npmrc ----

  const NPMRC := ["min-release-age=${AGE}"]

  /** A line of an .npmrc npm fills in from the environment is not written over. */
  lemma EnvIsRefused()
    ensures Set(NPMRC, Name("", "min-release-age"), LInt("7")) == Refused
  {
    EnvScan();
    var k := Name("", "min-release-age");
    var e := Entry("", Built("min-release-age", false, "", "=", "${AGE}"), 1, 1, []);
    hide Scan;
    OneOf(e, k);
    EnvValue(e);
    hide *;
    GetOf(NPMRC, k, e);
    SetEdits(NPMRC, k, LInt("7"));
  }

  lemma GetOf(lines: seq<string>, k: Name, e: Entry)
    requires Named(Scan(lines), k) == [e] && !e.a.list
    ensures Get(lines, k) == PlainValue(e)
  {
    hide Scan, Named, PlainValue;
    ListsFrom([e]);
  }

  lemma EnvValue(e: Entry)
    requires e == Entry("", Built("min-release-age", false, "", "=", "${AGE}"), 1, 1, [])
    ensures PlainValue(e).kind == KindString && !PlainValue(e).editable && !Holds(PlainValue(e), LInt("7"))
  {
    assert e.a.raw == "${AGE}" && Unquote("${AGE}") == "${AGE}";
    assert ["${AGE}"] + [] == ["${AGE}"];
    assert Join(["${AGE}"], "\n") == "${AGE}";
    assert "${AGE}"[0] == '$' && "${AGE}"[1] == '{';
    assert IniKind("${AGE}", "${AGE}") == KindString;
  }

  lemma EnvScan()
    ensures Scan(NPMRC) == [Entry("", Built("min-release-age", false, "", "=", "${AGE}"), 1, 1, [])]
  {
    EnvParts();
    hide Read, GoodName, Solid, Core, Built, Indent, Entries;
    IniExamples.PipLine(Top, "min-release-age=${AGE}", "", "min-release-age", "${AGE}");
    var ev := Assign("", Built("min-release-age", false, "", "=", "${AGE}"), 0);
    ReadOne(Top, "min-release-age=${AGE}");
    assert ReadAll(Top, NPMRC) == [ev];
    EntriesOne(ev, 1);
  }

  lemma EnvParts()
    ensures GoodName("min-release-age") && Solid("${AGE}") && Blanks("")
    ensures "" + Core("min-release-age", false) + "=" + "${AGE}" == "min-release-age=${AGE}"
  {
  }
}
