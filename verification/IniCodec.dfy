/** The ini codec (internal/configfile/ini.go): reading one key of a scanned file and
    planning the line edit that makes it hold a value. */
module IniCodec {
  import opened Text
  import opened Document
  import opened IniScan
  import opened IniPlaces

  datatype Kind = KindMissing | KindString | KindInt | KindBool | KindList

  /** A key the codec found. Raw and the reason of a refusal are prose and left out,
      Raw apart from what a refusal is decided on. */
  datatype Value = Value(kind: Kind, text: string, items: seq<string>, line: nat, endLine: nat, editable: bool)

  const Missing := Value(KindMissing, "", [], 0, 0, false)

  /** A value a rule wants written. */
  datatype Literal =
    | LString(text: string)
    | LInt(text: string)
    | LBool(on: bool)
    | LList(items: seq<string>)

  /** What Set answers. */
  datatype Plan =
    | BadKey
    | Nothing
    | Refused
    | Change(edit: Edit)

  // ---- values ----

  predicate Quoted(raw: string) {
    |raw| >= 2 && (raw[0] == '\"' || raw[0] == '\'') && raw[|raw| - 1] == raw[0]
  }

  function Unquote(raw: string): string {
    if Quoted(raw) then raw[1..|raw| - 1] else raw
  }

  function IniKind(text: string, raw: string): Kind {
    if Quoted(raw) then KindString
    else if text == "true" || text == "false" then KindBool
    else if ParseInt(text).Some? then KindInt
    else KindString
  }

  /** strings.ReplaceAll(s, "_", ""). */
  function WithoutUnderscores(s: string): string {
    if s == [] then []
    else if s[0] == '_' then WithoutUnderscores(s[1..])
    else [s[0]] + WithoutUnderscores(s[1..])
  }

  /** holds: the file already states what is wanted, by meaning. */
  predicate Holds(v: Value, want: Literal) {
    match want
    case LBool(on) => v.kind == KindBool && ParseBool(v.text) == Some(on)
    case LInt(text) =>
      && v.kind == KindInt
      && var got := ParseInt(WithoutUnderscores(v.text));
         got.Some? && ParseInt(text) == got
    case LString(text) => v.kind == KindString && v.text == text
    case LList(items) => v.kind == KindList && v.items == items
  }

  predicate Interpolates(raw: string) {
    exists i :: 0 <= i < |raw| - 1 && raw[i] == '$' && raw[i + 1] == '{'
  }

  /** A key as the scanner files it; list narrows it to its name[] lines. */
  datatype Name = Name(section: string, name: string)

  predicate Spells(e: Entry, k: Name) {
    e.section == k.section && e.a.name == k.name
  }

  function Named(es: seq<Entry>, k: Name): seq<Entry> {
    if es == [] then [] else (if Spells(es[0], k) then [es[0]] else []) + Named(es[1..], k)
  }

  function Lists(es: seq<Entry>): seq<Entry> {
    if es == [] then [] else (if es[0].a.list then [es[0]] else []) + Lists(es[1..])
  }

  /** iniMatched: the entries an edit may touch. */
  function Chosen(matched: seq<Entry>): seq<Entry> {
    if Lists(matched) != [] then Lists(matched)
    else if matched == [] then []
    else [matched[|matched| - 1]]
  }

  function Items(es: seq<Entry>): seq<string> {
    if es == [] then [] else [Unquote(es[0].a.raw)] + Items(es[1..])
  }

  predicate AnyInterpolates(es: seq<Entry>) {
    es != [] && (Interpolates(es[0].a.raw) || AnyInterpolates(es[1..]))
  }

  function ListValue(es: seq<Entry>): Value
    requires es != []
  {
    var first, last := es[0], es[|es| - 1];
    Value(KindList, "", Items(es), first.line, last.endLine,
          last.line - first.line == |es| - 1 && !AnyInterpolates(es))
  }

  function PlainValue(e: Entry): Value {
    var text := Join([Unquote(e.a.raw)] + e.more, "\n");
    Value(IniKind(text, e.a.raw), text, [], e.line, e.endLine, !Interpolates(Join([e.a.raw] + e.more, "\n")))
  }

  /** iniValue. */
  function ValueOf(matched: seq<Entry>): Value {
    var es := Chosen(matched);
    if es == [] then Missing
    else if es[0].a.list then ListValue(es)
    else PlainValue(es[0])
  }

  /** iniPlace. */
  function Place(key: seq<string>): Option<Name> {
    if |key| == 1 then Some(Name("", key[0]))
    else if |key| == 2 then Some(Name(key[0], key[1]))
    else None
  }

  /** Get, for a key of one or two levels. */
  function Get(lines: seq<string>, k: Name): Value {
    ValueOf(Named(Scan(lines), k))
  }

  // ---- spelling and planning ----

  predicate NeedsQuotes(s: string) {
    s == [] || TrimSpace(s) != s || '\r' in s || '\n' in s
  }

  function SpellString(s: string): string {
    if NeedsQuotes(s) then Quote(s) else s
  }

  function Spell(want: Literal): string
    requires !want.LList?
  {
    match want
    case LBool(on) => FormatBool(on)
    case LInt(text) => text
    case LString(text) => SpellString(text)
  }

  /** Doc.Line: the 1-based line, or nothing. */
  function LineAt(lines: seq<string>, n: int): string {
    if 1 <= n <= |lines| then lines[n - 1] else ""
  }

  function ListLines(indent: string, name: string, sep: string, items: seq<string>): seq<string> {
    if items == [] then []
    else [indent + name + "[]" + sep + SpellString(items[0])] + ListLines(indent, name, sep, items[1..])
  }

  function NewLines(indent: string, name: string, sep: string, want: Literal): seq<string> {
    if want.LList? then ListLines(indent, name, sep, want.items)
    else [indent + name + sep + Spell(want)]
  }

  /** iniReplace. */
  function Replace(lines: seq<string>, es: seq<Entry>, want: Literal): Edit
    requires es != [] && 1 <= es[0].line && es[0].a.valueAt <= |LineAt(lines, es[0].line)|
  {
    var first, last := es[0], es[|es| - 1];
    var line := LineAt(lines, first.line);
    var changed :=
      if want.LList? then ListLines(Indent(line), first.a.name, first.a.sep, want.items)
      else if |es| == 1 && !first.a.list then [line[..first.a.valueAt] + Spell(want)]
      else [Indent(line) + first.a.name + first.a.sep + Spell(want)];
    Edit(first.line, last.endLine, changed)
  }

  /** iniStyle: the indentation and the separator an inserted line takes over. */
  function Style(lines: seq<string>, all: seq<Entry>, es: seq<Entry>, section: string): (string, string) {
    if es != [] then
      if es[0].section == section then (Indent(LineAt(lines, es[0].line)), es[0].a.sep)
      else Style(lines, all, es[1..], section)
    else if all != [] then (Indent(LineAt(lines, all[0].line)), all[0].a.sep)
    else ("", "=")
  }

  /** The line after the last entry no section holds. */
  function AfterLastTop(es: seq<Entry>): Option<nat> {
    if es == [] then None
    else if es[|es| - 1].section == [] then Some(es[|es| - 1].line + 1)
    else AfterLastTop(es[..|es| - 1])
  }

  /** Up over the comments and blank lines that introduce line at. */
  function Above(lines: seq<string>, at: nat): (r: nat)
    ensures r <= at
    ensures at >= 1 ==> r >= 1
  {
    if at > 1 && Introduces(LineAt(lines, at - 1)) then Above(lines, at - 1) else at
  }

  /** Back over the blank lines that end a section. */
  function BackOver(lines: seq<string>, last: nat, floor: nat): (r: nat)
    ensures r <= last
    ensures last >= floor ==> r >= floor
  {
    if last > floor && TrimSpace(LineAt(lines, last)) == [] then BackOver(lines, last - 1, floor) else last
  }

  /** The last line of the first section of a name, less the blank lines that end it. */
  function SectionEnd(lines: seq<string>, headers: seq<HeaderLine>, section: string): Option<nat> {
    if headers == [] then None
    else if headers[0].name == section then
      var last := if |headers| > 1 && headers[1].line >= 1 then headers[1].line - 1 else |lines|;
      Some(BackOver(lines, last, headers[0].line))
    else SectionEnd(lines, headers[1..], section)
  }

  /** iniInsertAt: the line an inserted key goes before, and whether its section header
      has to be written first. */
  function InsertAt(lines: seq<string>, entries: seq<Entry>, headers: seq<HeaderLine>, section: string): (nat, bool) {
    if section == [] then
      match AfterLastTop(entries)
      case Some(at) => (at, false)
      case None =>
        if headers == [] then (|lines| + 1, false)
        else (Above(lines, headers[0].line), false)
    else
      match SectionEnd(lines, headers, section)
      case Some(last) => (last + 1, false)
      case None => (|lines| + 1, true)
  }

  /** The header of a new section, under a blank line unless the file ends with one. */
  function HeaderLines(lines: seq<string>, section: string): seq<string> {
    var head := ["[" + section + "]"];
    if |lines| > 0 && TrimSpace(LineAt(lines, |lines|)) != [] then [""] + head else head
  }

  /** iniInsert. */
  function Insert(lines: seq<string>, k: Name, want: Literal): Edit {
    var entries := Scan(lines);
    var (indent, sep) := Style(lines, entries, entries, k.section);
    var (at, header) := InsertAt(lines, entries, ScanHeaders(lines), k.section);
    var added := NewLines(indent, k.name, sep, want);
    Edit(at, at - 1, if header then HeaderLines(lines, k.section) + added else added)
  }

  lemma {:induction false} NamedFrom(es: seq<Entry>, k: Name)
    ensures forall e :: e in Named(es, k) ==> e in es && Spells(e, k)
    ensures |Named(es, k)| <= |es|
  {
    if es != [] {
      NamedFrom(es[1..], k);
    }
  }

  lemma {:induction false} ListsFrom(es: seq<Entry>)
    ensures forall e :: e in Lists(es) ==> e in es && e.a.list
    ensures Lists(es) == [] ==> forall e :: e in es ==> !e.a.list
    ensures |Lists(es)| <= |es|
  {
    if es != [] {
      ListsFrom(es[1..]);
    }
  }

  lemma ChosenFrom(matched: seq<Entry>)
    ensures forall e :: e in Chosen(matched) ==> e in matched
    ensures Chosen(matched) == [] <==> matched == []
    ensures forall e :: e in Chosen(matched) ==> e.a.list == (Lists(matched) != [])
  {
    hide Lists;
    ListsFrom(matched);
  }

  lemma FoundChosen(lines: seq<string>, k: Name)
    ensures Get(lines, k).kind == KindMissing <==> Chosen(Named(Scan(lines), k)) == []
  {
    hide Scan, Named, Lists, Interpolates, Quoted;
    ListsFrom(Named(Scan(lines), k));
  }

  /** The first entry Set may replace stands on a line that holds its separator. */
  lemma ChosenPlaced(lines: seq<string>, k: Name)
    requires Chosen(Named(Scan(lines), k)) != []
    ensures
      var e := Chosen(Named(Scan(lines), k))[0];
      1 <= e.line <= |lines| && e.a.valueAt <= |LineAt(lines, e.line)|
  {
    hide Named, Lists, Chosen, Scan, AssignmentOf;
    ChosenFrom(Named(Scan(lines), k));
    NamedFrom(Scan(lines), k);
    var e := Chosen(Named(Scan(lines), k))[0];
    assert e in Scan(lines);
    var j :| 0 <= j < |Scan(lines)| && Scan(lines)[j] == e;
    Placed(lines, j);
    ValueAtIn(LineAt(lines, e.line));
  }

  lemma ValueAtIn(line: string)
    requires AssignmentOf(line).Some?
    ensures AssignmentOf(line).value.valueAt <= |line|
  {
  }

  /** Set, for a key of one or two levels. */
  function Set(lines: seq<string>, k: Name, want: Literal): Plan {
    var es := Chosen(Named(Scan(lines), k));
    var v := Get(lines, k);
    if v.kind == KindMissing then Change(Insert(lines, k, want))
    else if Holds(v, want) then Nothing
    else if !v.editable then Refused
    else
      FoundChosen(lines, k);
      ChosenPlaced(lines, k);
      Change(Replace(lines, es, want))
  }
}
