/** TOML files as their authors write them, apart from any scanner: the lines, keys and values
    of a file, how each is spelled, and which key has its value where. */
module TomlGrammar {
  import opened Text
  import opened TomlSpec

  // ---- strings ----

  /** A byte of a string: itself, or behind a backslash. */
  datatype Unit = Plain(c: char) | Escaped(c: char)

  datatype Str = Str(quote: char, units: seq<Unit>)

  function SpellUnit(u: Unit): string {
    match u
    case Plain(c) => [c]
    case Escaped(c) => ['\\', c]
  }

  function SpellUnits(us: seq<Unit>): string {
    if us == [] then "" else SpellUnit(us[0]) + SpellUnits(us[1..])
  }

  function SpellStr(s: Str): string {
    [s.quote] + SpellUnits(s.units) + [s.quote]
  }

  /** A basic string escapes its quotes and backslashes; a literal one escapes nothing. */
  predicate UnitFits(quote: char, u: Unit) {
    match u
    case Plain(c) => c != quote && c != '\n' && (quote == '\"' ==> c != '\\')
    case Escaped(_) => quote == '\"'
  }

  predicate StrFits(s: Str) {
    s.quote in "\"\'" && forall i :: 0 <= i < |s.units| ==> UnitFits(s.quote, s.units[i])
  }

  /** A byte of a multi-line string: one that is no quote, or one behind one or two of them. */
  datatype LongUnit = One(u: Unit) | Lone(c: char) | Twin(c: char)

  datatype Long = Long(quote: char, units: seq<LongUnit>)

  function SpellLongUnit(quote: char, u: LongUnit): string {
    match u
    case One(v) => SpellUnit(v)
    case Lone(c) => [quote, c]
    case Twin(c) => [quote, quote, c]
  }

  function SpellLongUnits(quote: char, us: seq<LongUnit>): string {
    if us == [] then "" else SpellLongUnit(quote, us[0]) + SpellLongUnits(quote, us[1..])
  }

  function SpellLong(s: Long): string {
    [s.quote, s.quote, s.quote] + SpellLongUnits(s.quote, s.units) + [s.quote, s.quote, s.quote]
  }

  predicate Ordinary(quote: char, c: char) {
    c != quote && (quote == '\"' ==> c != '\\')
  }

  predicate LongUnitFits(quote: char, u: LongUnit) {
    match u
    case One(Plain(c)) => Ordinary(quote, c)
    case One(Escaped(_)) => quote == '\"'
    case Lone(c) => Ordinary(quote, c)
    case Twin(c) => Ordinary(quote, c)
  }

  predicate LongFits(s: Long) {
    s.quote in "\"\'" && forall i :: 0 <= i < |s.units| ==> LongUnitFits(s.quote, s.units[i])
  }

  // ---- the space between things ----

  predicate IsSpaces(s: string) {
    forall c :: c in s ==> c in " \t\r"
  }

  /** White space, newlines and comments, each comment with the newline that ends it. */
  datatype Blank = White(c: char) | Remark(text: string)

  function SpellBlank(b: Blank): string {
    match b
    case White(c) => [c]
    case Remark(text) => "#" + text + "\n"
  }

  function SpellBlanks(bs: seq<Blank>): string {
    if bs == [] then "" else SpellBlank(bs[0]) + SpellBlanks(bs[1..])
  }

  predicate BlankFits(b: Blank) {
    match b
    case White(c) => c in " \t\r\n"
    case Remark(text) => '\n' !in text
  }

  predicate BlanksFit(bs: seq<Blank>) {
    forall i :: 0 <= i < |bs| ==> BlankFits(bs[i])
  }

  // ---- keys ----

  datatype Part = Bare(name: string) | Quoted(s: Str)

  /** One part of a dotted key, with the spaces around it. */
  datatype Piece = Piece(before: string, part: Part, after: string)

  predicate IsNameByte(c: char) {
    'A' <= c <= 'Z' || 'a' <= c <= 'z' || '0' <= c <= '9' || c in "_-"
  }

  function SpellPart(p: Part): string {
    match p
    case Bare(name) => name
    case Quoted(s) => SpellStr(s)
  }

  /** The name a part stands for: between its quotes, when it has any. */
  function NameOf(p: Part): string {
    match p
    case Bare(name) => name
    case Quoted(s) => SpellUnits(s.units)
  }

  function SpellPiece(p: Piece): string {
    p.before + SpellPart(p.part) + p.after
  }

  function SpellKey(k: seq<Piece>): string {
    if k == [] then ""
    else if |k| == 1 then SpellPiece(k[0])
    else SpellPiece(k[0]) + "." + SpellKey(k[1..])
  }

  function Names(k: seq<Piece>): seq<string> {
    seq(|k|, i requires 0 <= i < |k| => NameOf(k[i].part))
  }

  predicate PieceFits(p: Piece) {
    && IsSpaces(p.before) && IsSpaces(p.after)
    && match p.part
       case Bare(name) => name != [] && forall c :: c in name ==> IsNameByte(c)
       case Quoted(s) => StrFits(s)
  }

  predicate KeyFits(k: seq<Piece>) {
    k != [] && forall i :: 0 <= i < |k| ==> PieceFits(k[i])
  }

  /** A key without the spaces behind its last part. */
  function Tight(k: seq<Piece>): seq<Piece>
    requires k != []
  {
    k[..|k| - 1] + [k[|k| - 1].(after := "")]
  }

  // ---- values ----

  /** What stands in an array, from some byte of it on: bytes, comments, strings, and arrays
      and tables of its own. */
  datatype Inside =
    | Nothing
    | Byte(c: char, rest: Inside)
    | Comment(text: string, rest: Inside)
    | Short(s: Str, rest: Inside)
    | Triple(l: Long, rest: Inside)
    | Nested(open: char, inner: Inside, close: char, rest: Inside)

  /** The keys of an inline table, and the space before its closing brace. */
  datatype Entries =
    | Last(tail: seq<Blank>)
    | Entry(lead: seq<Blank>, key: seq<Piece>, gap: string, value: Value, tail: seq<Blank>, rest: Entries)

  /** A number, a date or a word; a string; a multi-line string; an array; an inline table. */
  datatype Value = Word(text: string) | Line(s: Str) | Lines(l: Long) | Array(items: Inside) | Inline(entries: Entries)

  function SpellInside(i: Inside): string {
    match i
    case Nothing => ""
    case Byte(c, rest) => [c] + SpellInside(rest)
    case Comment(text, rest) => "#" + text + "\n" + SpellInside(rest)
    case Short(s, rest) => SpellStr(s) + SpellInside(rest)
    case Triple(l, rest) => SpellLong(l) + SpellInside(rest)
    case Nested(open, inner, close, rest) => [open] + SpellInside(inner) + [close] + SpellInside(rest)
  }

  function SpellEntries(e: Entries): string {
    match e
    case Last(tail) => SpellBlanks(tail)
    case Entry(lead, key, gap, value, tail, rest) =>
      SpellBlanks(lead) + SpellKey(key) + "=" + gap + SpellValue(value) + SpellBlanks(tail)
      + (if rest.Entry? then "," else "") + SpellEntries(rest)
  }

  function SpellValue(v: Value): string {
    match v
    case Word(text) => text
    case Line(s) => SpellStr(s)
    case Lines(l) => SpellLong(l)
    case Array(items) => "[" + SpellInside(items) + "]"
    case Inline(entries) => "{" + SpellEntries(entries) + "}"
  }

  predicate InsideFits(i: Inside) {
    match i
    case Nothing => true
    case Byte(c, rest) => c !in "[]{}#\"\'" && InsideFits(rest)
    case Comment(text, rest) => '\n' !in text && InsideFits(rest)
    case Short(s, rest) => StrFits(s) && !rest.Short? && !rest.Triple? && InsideFits(rest)
    case Triple(l, rest) => LongFits(l) && !rest.Short? && !rest.Triple? && InsideFits(rest)
    case Nested(open, inner, close, rest) => open in "[{" && close in "]}" && InsideFits(inner) && InsideFits(rest)
  }

  predicate EntriesFit(e: Entries) {
    match e
    case Last(tail) => BlanksFit(tail)
    case Entry(lead, key, gap, value, tail, rest) =>
      && BlanksFit(lead) && KeyFits(key) && IsSpaces(gap) && ValueFits(value) && BlanksFit(tail)
      && EntriesFit(rest)
  }

  predicate WordFits(text: string) {
    && text != [] && text[0] !in "\"\'[{ \t\r" && text[|text| - 1] !in " \t\r"
    && forall c :: c in text ==> c !in "\n#,]}"
  }

  predicate ValueFits(v: Value) {
    match v
    case Word(text) => WordFits(text)
    case Line(s) => StrFits(s)
    case Lines(l) => LongFits(l)
    case Array(items) => InsideFits(items)
    case Inline(entries) => EntriesFit(entries)
  }

  // ---- where the keys have their values ----

  /** Why a value must not be replaced: it is a multi-line string, or is written over more
      than one line. */
  function Reason(v: Value): Why {
    var spans := '\n' in SpellValue(v);
    match v
    case Word(_) => Editable
    case Line(_) => if spans then SpanningValue else Editable
    case Lines(_) => MultilineString
    case Array(_) => if spans then SpanningArray else Editable
    case Inline(_) => if spans then SpanningTable else Editable
  }

  /** Every key of a table that spans lines is refused with it. */
  function Barred(fs: seq<Found>): seq<Found> {
    seq(|fs|, i requires 0 <= i < |fs| => if fs[i].why == Editable then fs[i].(why := SpanningTable) else fs[i])
  }

  /** The keys an inline table holds under a path, with their values, from offset at on. */
  function EntriesState(e: Entries, at: int, path: seq<string>, root: bool): seq<Found>
    decreases e, 0
  {
    match e
    case Last(_) => []
    case Entry(lead, key, gap, value, tail, rest) =>
      var keyAt := at + |SpellBlanks(lead)|;
      var start := keyAt + |SpellKey(key)| + 1 + |gap|;
      ValueStates(value, start, path + Names(key), if key == [] then keyAt else keyAt + |SpellKey(Tight(key))|, root)
      + EntriesState(rest, start + |SpellValue(value)| + |SpellBlanks(tail)| + (if rest.Entry? then 1 else 0), path, root)
  }

  /** The keys inside a value. */
  function InsideStates(v: Value, at: int, path: seq<string>, root: bool): seq<Found>
    decreases v, 0
  {
    if v.Inline? then
      var inner := EntriesState(v.entries, at + 1, path, root);
      if '\n' in SpellValue(v) then Barred(inner) else inner
    else []
  }

  /** A key whose value begins at an offset, behind the keys inside the value. */
  function ValueStates(v: Value, at: int, path: seq<string>, keyEnd: int, root: bool): seq<Found>
    decreases v, 1
  {
    InsideStates(v, at, path, root) + [Found(path, keyEnd, at, at + |SpellValue(v)|, Reason(v), root)]
  }

  // ---- files ----

  /** A line of a file, or the lines one value of it takes: blank or a comment, a table header,
      or a key with its value. What stands behind a header's key is left as it is. */
  datatype Statement =
    | Empty(lead: string, remark: Option<string>)
    | Table(lead: string, many: bool, key: seq<Piece>, behind: string)
    | Pair(lead: string, key: seq<Piece>, gap: string, value: Value, tail: string, remark: Option<string>)

  function SpellRemark(r: Option<string>): string {
    match r
    case None => ""
    case Some(text) => "#" + text
  }

  function SpellStatement(s: Statement): string {
    match s
    case Empty(lead, remark) => lead + SpellRemark(remark)
    case Table(lead, many, key, behind) => lead + (if many then "[[" else "[") + SpellKey(key) + "]" + behind
    case Pair(lead, key, gap, value, tail, remark) =>
      lead + SpellKey(key) + "=" + gap + SpellValue(value) + tail + SpellRemark(remark)
  }

  /** The whole file, its statements a line each. */
  function SpellFile(ss: seq<Statement>): string {
    if ss == [] then ""
    else if |ss| == 1 then SpellStatement(ss[0])
    else SpellStatement(ss[0]) + "\n" + SpellFile(ss[1..])
  }

  predicate RemarkFits(r: Option<string>) {
    r.Some? ==> '\n' !in r.value
  }

  predicate StatementFits(s: Statement) {
    match s
    case Empty(lead, remark) => IsSpaces(lead) && RemarkFits(remark)
    case Table(lead, many, key, behind) => IsSpaces(lead) && KeyFits(key) && '\n' !in behind
    case Pair(lead, key, gap, value, tail, remark) =>
      IsSpaces(lead) && KeyFits(key) && IsSpaces(gap) && ValueFits(value) && IsSpaces(tail) && RemarkFits(remark)
  }

  predicate FileFits(ss: seq<Statement>) {
    forall i :: 0 <= i < |ss| ==> StatementFits(ss[i])
  }

  /** What one statement at an offset states, in the table the headers above it opened: the keys
      with their values, and the header it is. */
  function StatementStates(s: Statement, at: int, table: seq<string>): Scan {
    match s
    case Empty(_, _) => Scan([], [])
    case Table(lead, many, key, _) =>
      Scan([], [Header(Names(key), at + |lead| + (if many then 2 else 1) + |SpellKey(key)|, many)])
    case Pair(lead, key, gap, value, _, _) =>
      var keyAt := at + |lead|;
      Scan(ValueStates(value, keyAt + |SpellKey(key)| + 1 + |gap|, table + Names(key),
                       if key == [] then keyAt else keyAt + |SpellKey(Tight(key))|, table == []), [])
  }

  /** What the file states, from an offset on. */
  function FileStates(ss: seq<Statement>, at: int, table: seq<string>): Scan {
    if ss == [] then Scan([], [])
    else
      var first := StatementStates(ss[0], at, table);
      var rest := FileStates(ss[1..], at + |SpellStatement(ss[0])| + 1, if ss[0].Table? then Names(ss[0].key) else table);
      Scan(first.assigns + rest.assigns, first.headers + rest.headers)
  }
}
