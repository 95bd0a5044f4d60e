/** Ini files as their authors write them, apart from any scanner: blank lines and comments,
    section headers, keys with their values and the lines that continue them, and where each
    key has its value. */
module IniGrammar {
  import opened Text
  import opened IniScan

  /** What stands on a line, or on the lines of one value. A word is a line that is none of
      the rest. */
  datatype Block =
    | Empty(space: string)
    | Remark(indent: string, mark: char, text: string)
    | Section(indent: string, before: string, name: string, after: string, tail: string)
    | Pair(indent: string, name: string, list: bool, sep: Separator, raw: string, tail: string, more: seq<MoreLine>)
    | Word(indent: string, text: string, tail: string)

  /** The "=" and the blanks around it. */
  datatype Separator = Separator(before: string, after: string)

  /** A line that continues the value above it. */
  datatype MoreLine = MoreLine(indent: string, text: string, tail: string)

  const BLANKS := " \t"
  const SPACES := " \t\r\U{0B}\U{0C}"

  predicate IsBlanks(s: string) {
    forall c :: c in s ==> c in BLANKS
  }

  predicate IsSpaces(s: string) {
    forall c :: c in s ==> c in SPACES
  }

  /** A text with no space around it and no line end in front or behind. */
  predicate Tight(s: string) {
    s != [] && s[0] !in SPACES + "\n" && s[|s| - 1] !in SPACES + "\n"
  }

  // ---- how it is spelled ----

  function SpellSep(s: Separator): string {
    s.before + "=" + s.after
  }

  function SpellMore(m: MoreLine): string {
    m.indent + m.text + m.tail
  }

  function FirstLine(b: Block): string {
    match b
    case Empty(space) => space
    case Remark(indent, mark, text) => indent + [mark] + text
    case Section(indent, before, name, after, tail) => indent + ("[" + (before + name + after) + "]") + tail
    case Pair(indent, name, list, sep, raw, tail, _) => indent + (name + if list then "[]" else "") + SpellSep(sep) + raw + tail
    case Word(indent, text, tail) => indent + text + tail
  }

  function MoreLines(ms: seq<MoreLine>): seq<string> {
    seq(|ms|, i requires 0 <= i < |ms| => SpellMore(ms[i]))
  }

  function Lines(b: Block): seq<string> {
    [FirstLine(b)] + if b.Pair? then MoreLines(b.more) else []
  }

  function FileLines(bs: seq<Block>): seq<string> {
    if bs == [] then [] else Lines(bs[0]) + FileLines(bs[1..])
  }

  // ---- what may be written ----

  predicate NameFits(name: string) {
    && Tight(name) && '=' !in name && '\n' !in name && name[0] !in "[;#"
    && (|name| >= 2 ==> name[|name| - 2..] != "[]")
  }

  predicate SepFits(s: Separator) {
    IsBlanks(s.before) && IsBlanks(s.after)
  }

  /** A value as it stands on its line: no blank around it, and nothing behind it when there
      is none. */
  predicate RawFits(raw: string, tail: string) {
    if raw == [] then tail == [] else raw[0] !in BLANKS && raw[|raw| - 1] !in BLANKS && IsBlanks(tail)
  }

  predicate MoreFits(indent: string, m: MoreLine) {
    IsBlanks(m.indent) && |m.indent| > |indent| && Tight(m.text) && m.text[0] !in ";#" && IsSpaces(m.tail)
  }

  predicate BlockFits(b: Block, section: string) {
    match b
    case Empty(space) => IsSpaces(space)
    case Remark(indent, mark, text) => IsBlanks(indent) && mark in ";#"
    case Section(indent, before, name, after, tail) =>
      IsBlanks(indent) && IsSpaces(before) && Tight(name) && IsSpaces(after) && IsSpaces(tail)
    case Pair(indent, name, list, sep, raw, tail, more) =>
      && IsBlanks(indent) && NameFits(name) && SepFits(sep) && RawFits(raw, tail)
      && (more != [] ==> section != "") && forall i :: 0 <= i < |more| ==> MoreFits(indent, more[i])
    case Word(indent, text, tail) =>
      IsBlanks(indent) && Tight(text) && '=' !in text && text[0] !in "[;#" && IsSpaces(tail)
  }

  /** The indentation a line must not exceed, if it is not to continue the value above it. */
  function Open(b: Block, section: string): Option<nat> {
    if b.Pair? && section != "" then Some(|b.indent|) else None
  }

  predicate NotDeeper(b: Block, open: Option<nat>) {
    match open
    case None => true
    case Some(n) => b.Empty? || b.Remark? || |b.indent| <= n
  }

  function SectionBehind(b: Block, section: string): string {
    if b.Section? then b.name else section
  }

  /** No block is so deep below a value that it would continue it; in front of the first
      section there is nothing to continue. */
  predicate FileFits(bs: seq<Block>, section: string, open: Option<nat>) {
    bs != [] ==>
      && BlockFits(bs[0], section) && NotDeeper(bs[0], open)
      && FileFits(bs[1..], SectionBehind(bs[0], section), Open(bs[0], section))
  }

  // ---- what is stated where ----

  /** A key's value: the line it is on, the last of the lines that continue it, and the byte of
      the line the value begins at. */
  function EntryStated(b: Block, section: string, at: nat): Entry
    requires b.Pair?
  {
    Entry(section, Assignment(b.name, b.list, SpellSep(b.sep), |b.indent + b.name| + (if b.list then 2 else 0) + |SpellSep(b.sep)|, b.raw),
          at, at + |b.more|, seq(|b.more|, i requires 0 <= i < |b.more| => b.more[i].text))
  }

  function EntriesStated(bs: seq<Block>, section: string, at: nat): seq<Entry> {
    if bs == [] then []
    else (if bs[0].Pair? then [EntryStated(bs[0], section, at)] else [])
         + EntriesStated(bs[1..], SectionBehind(bs[0], section), at + |Lines(bs[0])|)
  }

  function HeadersStated(bs: seq<Block>, at: nat): seq<HeaderLine> {
    if bs == [] then []
    else (if bs[0].Section? then [HeaderLine(bs[0].name, at)] else []) + HeadersStated(bs[1..], at + |Lines(bs[0])|)
  }
}
