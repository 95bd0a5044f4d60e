/** The lens laws of the ini codec for a whole file: the edit Set plans, applied to the
    document, written to disk and read again
    (internal/configfile/ini.go, internal/configfile/configfile.go). */
module IniFile {
  import opened Text
  import opened Document
  import opened IniScan
  import opened IniPlaces
  import opened IniCodec
  import opened IniLines
  import opened IniTold
  import opened IniLaws
  import opened IniInsert
  import opened IniTaken

  // ---- the law for the lines of a file ----

  /** No line is taken for a continuation: the file states the key, or the line added for
      it neither continues the entry above nor is continued by the line below. */
  predicate Placeable(lines: seq<string>, k: Name) {
    Get(lines, k).kind == KindMissing ==> Clear(lines, k)
  }

  /** The key is stated once Set has written it: it was, or the new line is not taken for
      more of the entry above it. */
  predicate Lands(lines: seq<string>, k: Name) {
    Get(lines, k).kind == KindMissing ==> Stands(lines, k)
  }

  /** What Set writes is what the key reads as. A new line has to stand, to take nothing
      below it but under a list, and to draw nothing in that speaks later. A rewritten one
      is the last word, unless a plain line below a list is. In either case the literal has
      to read back. */
  predicate Settles(lines: seq<string>, k: Name, want: Literal) {
    var matched := Named(Scan(lines), k);
    if Get(lines, k).kind == KindMissing then Takes(lines, k, want)
    else if matched == [] || want.LList? || Decides(matched) then ReadsBack(want)
    else Holds(PlainValue(matched[|matched| - 1]), want)
  }

  /** Set plans nothing exactly when the file already holds the value. */
  lemma NothingIsHeld(lines: seq<string>, k: Name, want: Literal)
    ensures Set(lines, k, want) == Nothing <==> Holds(Get(lines, k), want)
  {
    hide Get, Scan, Named, Chosen, Insert, Replace, ParseInt;
    if Get(lines, k).kind != KindMissing {
      FoundChosen(lines, k);
      ChosenPlaced(lines, k);
    }
  }

  /** Set then Get, Set twice and the frame, in one, on every file: after the edit the key
      is stated exactly when it lands; it holds the value, and a second Set plans nothing,
      exactly when Settles says so; and where no line is taken for a continuation every
      other key reads as it did. */
  lemma SetLaw(lines: seq<string>, k: Name, want: Literal)
    requires GoodKey(k) && Sound(want) && want != LList([])
    requires Set(lines, k, want).Change?
    ensures
      var e := Set(lines, k, want).edit;
      && InRange(|lines|, e)
      && var after := Replaced(lines, e);
         && (Get(after, k).kind != KindMissing <==> Lands(lines, k))
         && (Holds(Get(after, k), want) <==> Settles(lines, k, want))
         && (Set(after, k, want) == Nothing <==> Settles(lines, k, want))
         && (Placeable(lines, k) ==> forall q :: q != k ==> Shown(Get(after, q)) == Shown(Get(lines, q)))
  {
    hide *;
    MissingTold(lines, k);
    SettlesIs(lines, k, want);
    LandsIs(lines, k);
    if Get(lines, k).kind == KindMissing {
      InsertHolds(lines, k, want);
      if Placeable(lines, k) {
        PlaceableIs(lines, k);
        InsertLaw(lines, k, want);
      }
    } else {
      ReplaceLaw(lines, k, want);
      ToldMeansStated(Replaced(lines, Set(lines, k, want).edit), k);
    }
    NothingIsHeld(Replaced(lines, Set(lines, k, want).edit), k, want);
  }

  lemma PlaceableIs(lines: seq<string>, k: Name)
    requires Get(lines, k).kind == KindMissing && Placeable(lines, k)
    ensures Clear(lines, k)
  {
  }

  lemma LandsIs(lines: seq<string>, k: Name)
    ensures Lands(lines, k) <==> (Get(lines, k).kind == KindMissing ==> Stands(lines, k))
  {
    hide Stands, Get;
  }

  lemma SettlesIs(lines: seq<string>, k: Name, want: Literal)
    ensures
      var matched := Named(Scan(lines), k);
      Settles(lines, k, want) ==
      if Get(lines, k).kind == KindMissing then Takes(lines, k, want)
      else if matched == [] || want.LList? || Decides(matched) then ReadsBack(want)
      else Holds(PlainValue(matched[|matched| - 1]), want)
  {
    hide ReadsBack, Decides, Holds, PlainValue, Takes, Get, Scan;
  }

  // ---- documents whose lines read back ----

  /** A document whose lines come back as they are when it is written and read. */
  predicate Legible(d: Doc) {
    && (forall l :: l in d.lines ==> Ended(l))
    && (d.lines == [] || d.lines[|d.lines| - 1] == [] ==> d.finalNewline == (d.lines != []))
    && (!d.bom && d.lines != [] ==> !HasPrefix(d.lines[0], BYTE_ORDER_MARK))
  }

  lemma LegibleReadsBack(d: Doc)
    requires Legible(d)
    ensures NewDoc(Rendered(d)).lines == d.lines
  {
    hide Written, NewDoc;
    if |d.lines| < 2 && !d.finalNewline && d.crlf {
      var plain := d.(crlf := false);
      ReadBack(plain);
      OnlyLine(d.lines);
    } else {
      ReadBack(d);
    }
  }

  lemma OnlyLine(lines: seq<string>)
    requires |lines| < 2
    ensures Written(lines, "\r\n", false) == Written(lines, "\n", false)
  {
  }

  lemma {:induction false} SplitLast(s: string)
    ensures Split(s)[|Split(s)| - 1] == [] <==> (s == [] || s[|s| - 1] == '\n')
    ensures HasPrefix(s, Split(s)[0])
  {
    hide Split;
    SplitFirst(s);
    if IndexByte(s, '\n').Some? {
      hide IndexByte;
      var n := IndexByte(s, '\n').value;
      var rest := s[n + 1..];
      SplitLast(rest);
      assert rest != [] ==> rest[|rest| - 1] == s[|s| - 1];
    } else {
      hide IndexByte;
      assert s != [] ==> s[|s| - 1] in s;
    }
  }

  lemma SplitFirst(s: string)
    ensures
      match IndexByte(s, '\n')
      case None => Split(s) == [s]
      case Some(i) =>
        var rest := Split(s[i + 1..]);
        Split(s) == [s[..i]] + rest && rest != [] && Split(s)[|Split(s)| - 1] == rest[|rest| - 1]
  {
    hide IndexByte;
  }

  /** Collapsing line endings makes no byte order mark. */
  lemma MarkCollapsed(text: string)
    requires HasPrefix(Collapse(text), BYTE_ORDER_MARK)
    ensures HasPrefix(text, BYTE_ORDER_MARK)
  {
    var c := Collapse(text);
    assert c[..3][0] == '\U{EF}' && c[..3][1] == '\U{BB}' && c[..3][2] == '\U{BF}';
    assert c == [text[0]] + Collapse(text[1..]);
    var d := Collapse(text[1..]);
    assert d[0] == c[1] && d[1] == c[2];
    assert d == [text[1]] + Collapse(text[1..][1..]);
    var e := Collapse(text[1..][1..]);
    assert e[0] == d[1];
    assert text[2] == text[1..][1..][0] == e[0];
    assert text[..3] == BYTE_ORDER_MARK;
  }

  /** What a file reads as is legible, but for a stray carriage return that ends a line,
      and but for a second byte order mark after the first. */
  lemma DocLegible(data: string)
    requires forall l :: l in NewDoc(data).lines ==> Ended(l)
    ensures Legible(NewDoc(data))
  {
    hide Collapse, Split, FirstEndingIsCRLF;
    var d, text := NewDoc(data), WithoutMark(data);
    var joined := Collapse(text);
    var body := if d.finalNewline then joined[..|joined| - 1] else joined;
    if d.lines != [] {
      SplitLast(body);
      if !d.finalNewline && joined != [] {
        assert joined[|joined| - 1..] == [joined[|joined| - 1]];
      }
      if HasPrefix(d.lines[0], BYTE_ORDER_MARK) {
        assert body[..3] == d.lines[0][..3] by {
          assert body[..|d.lines[0]|] == d.lines[0];
        }
        assert joined[..3] == body[..3];
        MarkCollapsed(text);
        assert d.bom || text == data;
      }
    }
  }

  // ---- what an edit writes ----

  /** A line that reads back as itself wherever it stands, the first line included. */
  predicate Clean(line: string) {
    Ended(line) && line != [] && line[0] != BYTE_ORDER_MARK[0]
  }

  lemma EditLegible(d: Doc, e: Edit)
    requires Legible(d) && InRange(|d.lines|, e)
    requires e.lines != [] && e.lines[|e.lines| - 1] != []
    requires forall l :: l in e.lines ==> l == [] || Clean(l)
    ensures Apply(d, e).Some? && Legible(Apply(d, e).value)
  {
    var n := Apply(d, e).value;
    forall l | l in n.lines ensures Ended(l) {
      hide Ended;
      assert l in e.lines || l in d.lines;
      EmptyEnded();
    }
    FirstLine(d, e);
  }

  lemma FirstLine(d: Doc, e: Edit)
    requires InRange(|d.lines|, e) && e.lines != []
    ensures Apply(d, e).Some? && Apply(d, e).value.lines != []
    ensures
      var first := Apply(d, e).value.lines[0];
      first in e.lines || (d.lines != [] && first == d.lines[0])
  {
  }

  lemma EmptyEnded()
    ensures Ended([])
    ensures forall l :: Clean(l) ==> Ended(l)
  {
  }

  predicate Ascii(s: string) {
    forall i :: 0 <= i < |s| ==> s[i] < '\U{80}'
  }

  lemma {:induction false} EscapedBytes(s: string)
    ensures '\n' !in Escaped(s) && '\r' !in Escaped(s)
  {
  }

  lemma SpelledEnded(s: string)
    ensures '\n' !in SpellString(s) && SpellString(s) != [] && SpellString(s)[|SpellString(s)| - 1] != '\r'
  {
    hide Escaped;
    if NeedsQuotes(s) {
      EscapedBytes(s);
    } else {
      TrimmedSolid(s);
    }
  }

  lemma SpellEnded(want: Literal)
    requires Sound(want) && !want.LList?
    ensures '\n' !in Spell(want) && Spell(want) != [] && Spell(want)[|Spell(want)| - 1] != '\r'
  {
    hide SpellString, ParseInt;
    match want
    case LBool(on) =>
    case LInt(text) => IntSolid(text);
    case LString(s) => SpelledEnded(s);
    case LList(_) =>
  }

  lemma BuiltClean(indent: string, name: string, list: bool, sep: string, spell: string)
    requires Blanks(indent) && GoodName(name) && Ascii(name) && IsSep(sep)
    requires '\n' !in spell && spell != [] && spell[|spell| - 1] != '\r'
    ensures Clean(indent + Core(name, list) + sep + spell)
  {
    hide EndsInList, Trimmed;
    var line := indent + Core(name, list) + sep + spell;
    assert line[|line| - 1] == spell[|spell| - 1];
    SepNoNewline(sep);
    assert '\n' !in indent;
    assert '\n' !in Core(name, list);
    assert line[0] == if indent != [] then indent[0] else name[0];
  }

  lemma SepNoNewline(sep: string)
    requires IsSep(sep)
    ensures '\n' !in sep
  {
    var b, c :| Blanks(b) && Blanks(c) && sep == b + ['='] + c;
  }

  lemma {:induction false} ListClean(indent: string, name: string, sep: string, items: seq<string>)
    requires Blanks(indent) && GoodName(name) && Ascii(name) && IsSep(sep)
    ensures forall l :: l in ListLines(indent, name, sep, items) ==> Clean(l)
    ensures |ListLines(indent, name, sep, items)| == |items|
    decreases |items|
  {
    hide Clean, GoodName, IsSep, Blanks, SpellString, Ascii;
    if items != [] {
      SpelledEnded(items[0]);
      BuiltClean(indent, name, true, sep, SpellString(items[0]));
      assert indent + name + "[]" + sep + SpellString(items[0]) == indent + Core(name, true) + sep + SpellString(items[0]);
      ListClean(indent, name, sep, items[1..]);
    }
  }

  lemma NewClean(indent: string, name: string, sep: string, want: Literal)
    requires Blanks(indent) && GoodName(name) && Ascii(name) && IsSep(sep) && Sound(want)
    ensures forall l :: l in NewLines(indent, name, sep, want) ==> Clean(l)
  {
    hide Clean, GoodName, IsSep, Blanks, Spell, Ascii, ListLines, Sound;
    if want.LList? {
      ListClean(indent, name, sep, want.items);
    } else {
      SpellEnded(want);
      BuiltClean(indent, name, false, sep, Spell(want));
    }
  }

  /** The lines an edit writes: none empty but the one that sets a new section off. */
  ghost predicate Writes(lines: seq<string>) {
    && lines != [] && lines[|lines| - 1] != []
    && forall l :: l in lines ==> l == [] || Clean(l)
  }

  lemma InsertWrites(lines: seq<string>, k: Name, want: Literal)
    requires GoodKey(k) && Ascii(k.name) && Sound(want) && want != LList([])
    ensures Writes(Insert(lines, k, want).lines)
  {
    var (indent, sep) := PointStyle(lines, k);
    hide Clean, GoodName, Spell, Ascii, ListLines, Sound, Trimmed, Scan, ScanHeaders, Style, InsertAt, Point, PointStyle,
         NewLines, HeaderLines, Insert;
    StyleOk(lines, k);
    NewClean(indent, k.name, sep, want);
    SomeLines(indent, k.name, sep, want);
    HeadClean(lines, k.section);
    InsertIs(lines, k, want);
    var added := NewLines(indent, k.name, sep, want);
    assert Clean(added[|added| - 1]);
    CleanSome(added[|added| - 1]);
    var head := HeaderLines(lines, k.section);
    assert forall l :: l in head + added ==> l in head || l in added;
  }

  lemma CleanSome(l: string)
    requires Clean(l)
    ensures l != []
  {
  }

  lemma HeadClean(lines: seq<string>, section: string)
    requires '\n' !in section
    ensures forall l :: l in HeaderLines(lines, section) ==> l == [] || Clean(l)
  {
    hide TrimSpace;
    var line := "[" + section + "]";
    assert line[|line| - 1] == ']' && line[0] == '[';
  }

  lemma ValueClean(line: string, name: string, spell: string)
    requires AssignmentOf(line).Some? && AssignmentOf(line).value.name == name && !AssignmentOf(line).value.list
    requires Ended(line) && Ascii(name)
    requires '\n' !in spell && spell != [] && spell[|spell| - 1] != '\r'
    ensures AssignmentOf(line).value.valueAt <= |line|
    ensures Clean(line[..AssignmentOf(line).value.valueAt] + spell)
  {
    hide AssignmentOf, Lead;
    AssignmentOpens(line);
    var now := line[..AssignmentOf(line).value.valueAt] + spell;
    var i := Lead(IsSpace, line);
    assert now[|now| - 1] == spell[|spell| - 1];
    assert '\n' !in line[..AssignmentOf(line).value.valueAt];
    assert now[0] == line[0];
    if i == 0 {
      assert line[0] == name[0];
    }
  }

  /** What the first entry Set may replace stands on. */
  lemma ChosenLine(lines: seq<string>, k: Name)
    requires Chosen(Named(Scan(lines), k)) != []
    ensures
      var e := Chosen(Named(Scan(lines), k))[0];
      && 1 <= e.line <= |lines|
      && AssignmentOf(lines[e.line - 1]) == Some(e.a)
      && e.a.name == k.name
  {
    hide Named, Lists, Chosen, Scan, AssignmentOf;
    ChosenFrom(Named(Scan(lines), k));
    NamedFrom(Scan(lines), k);
    var e := Chosen(Named(Scan(lines), k))[0];
    assert e in Scan(lines);
    var j :| 0 <= j < |Scan(lines)| && Scan(lines)[j] == e;
    Placed(lines, j);
  }

  lemma ReplaceWrites(lines: seq<string>, k: Name, want: Literal)
    requires GoodKey(k) && Ascii(k.name) && Sound(want) && want != LList([])
    requires forall l :: l in lines ==> Ended(l)
    requires Get(lines, k).kind != KindMissing && Set(lines, k, want).Change?
    ensures Writes(Set(lines, k, want).edit.lines)
  {
    hide Get, Scan, Named, Chosen, Clean, GoodName, Ascii, Trimmed, Spell, ListLines, Sound, AssignmentOf, Indent, Ended, Set;
    SetReplaces(lines, k, want);
    ChosenLine(lines, k);
    var es := Chosen(Named(Scan(lines), k));
    var line := lines[es[0].line - 1];
    AssignmentSep(line);
    IndentBlanks(line);
    var changed := Replace(lines, es, want).lines;
    if want.LList? {
      ListClean(Indent(line), k.name, es[0].a.sep, want.items);
    } else {
      SpellEnded(want);
      if es[0].a.list {
        BuiltClean(Indent(line), k.name, false, es[0].a.sep, Spell(want));
      } else {
        ChosenOne(lines, k);
        ValueClean(line, k.name, Spell(want));
      }
    }
    assert forall l :: l in changed ==> Clean(l);
    assert changed[|changed| - 1] in changed;
    CleanSome(changed[|changed| - 1]);
  }

  lemma ChosenOne(lines: seq<string>, k: Name)
    requires Chosen(Named(Scan(lines), k)) != [] && !Chosen(Named(Scan(lines), k))[0].a.list
    ensures |Chosen(Named(Scan(lines), k))| == 1
  {
    hide Named, Scan, Lists;
    ListsFrom(Named(Scan(lines), k));
  }

  // ---- the law for a file ----

  /** Setting a key in a file, writing the file and reading it again: the lines that
      come back are the edited ones, so the key is stated exactly when it lands, it holds
      the value and a second Set plans nothing exactly when Settles says so, and where no
      line is taken for a continuation every other key reads as it did. */
  lemma FileLaw(data: string, k: Name, want: Literal)
    requires GoodKey(k) && Ascii(k.name) && Sound(want) && want != LList([])
    requires forall l :: l in NewDoc(data).lines ==> Ended(l)
    requires Set(NewDoc(data).lines, k, want).Change?
    ensures
      var d := NewDoc(data);
      var edited := Apply(d, Set(d.lines, k, want).edit);
      && edited.Some?
      && var again := NewDoc(Rendered(edited.value)).lines;
         && again == edited.value.lines
         && (Get(again, k).kind != KindMissing <==> Lands(d.lines, k))
         && (Holds(Get(again, k), want) <==> Settles(d.lines, k, want))
         && (Set(again, k, want) == Nothing <==> Settles(d.lines, k, want))
         && (Placeable(d.lines, k) ==> forall q :: q != k ==> Shown(Get(again, q)) == Shown(Get(d.lines, q)))
  {
    hide *;
    var d := NewDoc(data);
    var e := Set(d.lines, k, want).edit;
    SetLaw(d.lines, k, want);
    DocLegible(data);
    SetWrites(d.lines, k, want);
    WritesLegible(d, e);
    LegibleReadsBack(Apply(d, e).value);
    AppliedIs(d, e);
  }

  lemma SetWrites(lines: seq<string>, k: Name, want: Literal)
    requires GoodKey(k) && Ascii(k.name) && Sound(want) && want != LList([])
    requires forall l :: l in lines ==> Ended(l)
    requires Set(lines, k, want).Change?
    ensures Writes(Set(lines, k, want).edit.lines)
  {
    hide *;
    if Get(lines, k).kind == KindMissing {
      SetInserts(lines, k, want);
      InsertWrites(lines, k, want);
    } else {
      ReplaceWrites(lines, k, want);
    }
  }

  lemma WritesLegible(d: Doc, e: Edit)
    requires Legible(d) && InRange(|d.lines|, e) && Writes(e.lines)
    ensures Apply(d, e).Some? && Legible(Apply(d, e).value)
  {
    hide Legible, Clean, Apply;
    EditLegible(d, e);
  }

  lemma AppliedIs(d: Doc, e: Edit)
    requires InRange(|d.lines|, e)
    ensures Apply(d, e).Some? && Apply(d, e).value.lines == Replaced(d.lines, e)
  {
  }
}
