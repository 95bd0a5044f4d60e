/** The toml scanner (internal/configfile/toml.go: tomlScan) as functions of the text that
    is left to read: how far each construct goes, which assignments it records, and when
    it reads past the end of the text. Offsets in the results are offsets in the file. */
module TomlSpec {
  import opened Text

  /** Why an assignment must not be rewritten. */
  datatype Why = Editable | NoValue | MultilineString | SpanningArray | SpanningTable | SpanningValue

  /** An assignment: where its key ends, and the range of its value. */
  datatype Found = Found(path: seq<string>, keyEnd: int, start: int, end: int, why: Why, root: bool)

  datatype Header = Header(path: seq<string>, at: int, many: bool)

  // ---- runs of bytes ----

  /** What spaces steps over: it never ends a line. */
  predicate IsGap(c: char) {
    c == ' ' || c == '\t' || c == '\r'
  }

  predicate IsBare(c: char) {
    'a' <= c <= 'z' || 'A' <= c <= 'Z' || '0' <= c <= '9' || c == '_' || c == '-'
  }

  predicate InLine(c: char) {
    c != '\n'
  }

  /** What ends a bare value: the line, a comment, or the array or table around it. */
  predicate InValue(c: char) {
    c != '\n' && c != '#' && c != ',' && c != ']' && c != '}'
  }

  predicate IsQuote(c: char) {
    c == '\"' || c == '\''
  }

  function Gaps(s: string): nat {
    Lead(IsGap, s)
  }

  /** toEOL. */
  function Line(s: string): nat {
    Lead(InLine, s)
  }

  /** trivia: white space, newlines and comments. */
  function Trivia(s: string): (n: nat)
    ensures n <= |s|
    ensures n < |s| ==> !IsGap(s[n]) && s[n] != '\n' && s[n] != '#'
  {
    if s == [] then 0
    else if IsGap(s[0]) || s[0] == '\n' then 1 + Trivia(s[1..])
    else if s[0] == '#' then
      LineMoves(s);
      Line(s) + Trivia(s[Line(s)..])
    else 0
  }

  lemma LineMoves(s: string)
    requires s != [] && s[0] != '\n'
    ensures 1 <= Line(s) <= |s|
  {
  }

  // ---- strings ----

  /** quoted, from byte j of a string that opens with quote: how far it goes, and whether
      it is closed. */
  function QuotedFrom(s: string, quote: char, j: nat): (r: (nat, bool))
    requires 1 <= |s|
    ensures 1 <= r.0 <= |s|
    decreases |s| - j
  {
    if j >= |s| then (|s|, false)
    else if j == 0 then QuotedFrom(s, quote, 1)
    else if s[j] == '\n' then (j, false)
    else if s[j] == '\\' && quote == '\"' then QuotedFrom(s, quote, j + 2)
    else if s[j] == quote then (j + 1, true)
    else QuotedFrom(s, quote, j + 1)
  }

  function Quoted(s: string): (r: (nat, bool))
    requires s != [] && IsQuote(s[0])
    ensures 1 <= r.0 <= |s|
  {
    QuotedFrom(s, s[0], 1)
  }

  predicate Triple(s: string) {
    |s| >= 3 && IsQuote(s[0]) && s[1] == s[0] && s[2] == s[0]
  }

  /** multiline, from byte i on: one past the end of the text when a backslash is the last
      byte of it. */
  function MultilineFrom(s: string, quote: char, i: nat): (n: nat)
    requires i <= |s| + 1
    ensures i <= n <= |s| + 1
    decreases |s| + 1 - i
  {
    if i >= |s| then i
    else if quote == '\"' && s[i] == '\\' then MultilineFrom(s, quote, i + 2)
    else if i + 3 <= |s| && s[i] == quote && s[i + 1] == quote && s[i + 2] == quote then i + 3
    else MultilineFrom(s, quote, i + 1)
  }

  function Multiline(s: string): (n: nat)
    requires Triple(s)
    ensures 3 <= n <= |s| + 1
  {
    MultilineFrom(s, s[0], 3)
  }

  // ---- keys ----

  /** keyPath: whether a key was read, its parts, where its last part ends, and how far the
      cursor went. */
  datatype KeyRead = KeyRead(ok: bool, parts: seq<string>, end: nat, n: nat)

  /** One part of a key, after the spaces before it: None when there is none to read. */
  function KeyPart(s: string): (r: (Option<string>, nat))
    ensures r.1 <= |s|
    ensures r.0.Some? ==> r.1 >= 1
  {
    if s == [] then (None, 0)
    else if IsQuote(s[0]) then
      var (q, ok) := Quoted(s);
      if ok then
        QuotedClosed(s);
        (Some(s[1..q - 1]), q)
      else (None, q)
    else
      var n := Lead(IsBare, s);
      if n == 0 then (None, 0) else (Some(s[..n]), n)
  }

  lemma {:induction false} QuotedFromClosed(s: string, quote: char, j: nat)
    requires 1 <= j && 1 <= |s|
    ensures QuotedFrom(s, quote, j).1 ==> QuotedFrom(s, quote, j).0 > j && s[QuotedFrom(s, quote, j).0 - 1] == quote
    decreases |s| - j
  {
    if j < |s| && s[j] != '\n' {
      if s[j] == '\\' && quote == '\"' {
        QuotedFromClosed(s, quote, j + 2);
      } else if s[j] != quote {
        QuotedFromClosed(s, quote, j + 1);
      }
    }
  }

  lemma QuotedClosed(s: string)
    requires s != [] && IsQuote(s[0]) && Quoted(s).1
    ensures Quoted(s).0 >= 2 && s[Quoted(s).0 - 1] == s[0]
  {
    QuotedFromClosed(s, s[0], 1);
  }

  function KeyPath(s: string): (k: KeyRead)
    ensures k.n <= |s|
    ensures k.ok ==> 1 <= k.end <= k.n && k.parts != []
    decreases |s|
  {
    var a := Gaps(s);
    var (part, m) := KeyPart(s[a..]);
    if part.None? then KeyRead(false, [], 0, a + m)
    else
      var b := a + m;
      var c := b + Gaps(s[b..]);
      if c < |s| && s[c] == '.' then
        Longer(part.value, c + 1, KeyPath(s[c + 1..]))
      else KeyRead(true, [part.value], b, c)
  }

  /** A key with one part more in front, n bytes on. */
  function Longer(part: string, n: nat, rest: KeyRead): (k: KeyRead)
    ensures k.ok == rest.ok && k.end == n + rest.end && k.n == n + rest.n && k.parts != []
  {
    KeyRead(rest.ok, [part] + rest.parts, n + rest.end, n + rest.n)
  }

  // ---- arrays ----

  /** bracketed, inside depth brackets: None when it reads past the end. */
  function Bracketed(s: string, depth: int): (n: Option<nat>)
    ensures n.Some? ==> n.value <= |s|
    decreases |s|
  {
    if s == [] then Some(0)
    else if s[0] == '[' || s[0] == '{' then Plus(1, Bracketed(s[1..], depth + 1))
    else if s[0] == ']' || s[0] == '}' then
      if depth - 1 <= 0 then Some(1) else Plus(1, Bracketed(s[1..], depth - 1))
    else if s[0] == '#' then
      LineMoves(s);
      Plus(Line(s), Bracketed(s[Line(s)..], depth))
    else if Triple(s) then
      var m := Multiline(s);
      if m > |s| then None else Plus(m, Bracketed(s[m..], depth))
    else if IsQuote(s[0]) then Plus(Quoted(s).0, Bracketed(s[Quoted(s).0..], depth))
    else Plus(1, Bracketed(s[1..], depth))
  }

  function Plus(k: nat, n: Option<nat>): Option<nat> {
    if n.Some? then Some(k + n.value) else None
  }

  // ---- what comes next ----

  /** The next thing in an inline table: its end, something to step over, a key no byte is
      left for, or a key and where its value begins. */
  datatype Item = End(n: nat) | Skip(n: nat) | Broken | Key(parts: seq<string>, keyEnd: nat, valueAt: nat)

  /** From the end of a key: over the spaces, over an "=" if there is one, over the spaces
      after it. */
  function ValueAt(s: string, n: nat): (at: nat)
    requires n <= |s|
    ensures n <= at <= |s|
  {
    var a := n + Gaps(s[n..]);
    var b := if a < |s| && s[a] == '=' then a + 1 else a;
    b + Gaps(s[b..])
  }

  function NextItem(s: string): (i: Item)
    ensures i.End? ==> i.n <= |s|
    ensures i.Skip? ==> 1 <= i.n <= |s|
    ensures i.Key? ==> 1 <= i.keyEnd <= i.valueAt <= |s|
  {
    ItemBehind(s, Trivia(s))
  }

  /** What the byte behind the white space and the comments begins. */
  function ItemBehind(s: string, a: nat): (i: Item)
    requires a <= |s|
    ensures i.End? ==> i.n <= |s|
    ensures i.Skip? ==> 1 <= i.n <= |s|
    ensures i.Key? ==> 1 <= i.keyEnd <= i.valueAt <= |s|
  {
    if a == |s| then End(a)
    else if s[a] == '}' then End(a + 1)
    else if s[a] == ',' then Skip(a + 1)
    else KeyBehind(s, a, KeyPath(s[a..]))
  }

  function KeyBehind(s: string, a: nat, k: KeyRead): (i: Item)
    requires a + k.n <= |s| && (k.ok ==> 1 <= k.end <= k.n)
    ensures !i.End?
    ensures i.Skip? ==> 1 <= i.n <= |s|
    ensures i.Key? ==> 1 <= i.keyEnd <= i.valueAt <= |s|
  {
    if !k.ok then if a + k.n == |s| then Broken else Skip(a + k.n + 1)
    else Key(k.parts, a + k.end, ValueAt(s, a + k.n))
  }

  /** The next thing in the file. */
  datatype Top =
    | Done
    | Over(n: nat)
    | Table(path: seq<string>, many: bool, at: nat, n: nat)
    | Assignment(parts: seq<string>, keyEnd: nat, valueAt: nat)

  /** header, on a line that opens with a bracket. */
  function HeaderLine(s: string): (t: Top)
    requires s != [] && s[0] == '['
    ensures (t.Over? || t.Table?) && 1 <= t.n <= |s|
    ensures t.Table? ==> 1 <= t.at <= t.n
  {
    var many := |s| >= 2 && s[1] == '[';
    var open := if many then 2 else 1;
    var k := KeyPath(s[open..]);
    var end := open + k.n + Line(s[open + k.n..]);
    if k.ok then Table(k.parts, many, open + k.n, end) else Over(end)
  }

  function NextTop(s: string): (t: Top)
    ensures t.Over? || t.Table? ==> 1 <= t.n <= |s|
    ensures t.Table? ==> 1 <= t.at <= t.n
    ensures t.Assignment? ==> 1 <= t.keyEnd < t.valueAt <= |s|
  {
    TopBehind(s, Trivia(s))
  }

  function TopBehind(s: string, a: nat): (t: Top)
    requires a <= |s| && (a < |s| ==> s[a] != '\n')
    ensures t.Over? || t.Table? ==> 1 <= t.n <= |s|
    ensures t.Table? ==> 1 <= t.at <= t.n
    ensures t.Assignment? ==> 1 <= t.keyEnd < t.valueAt <= |s|
  {
    if a == |s| then Done
    else if s[a] == '[' then HeaderBehind(a, HeaderLine(s[a..]))
    else
      var k := KeyPath(s[a..]);
      if k.ok then AssignBehind(s, a, k)
      else
        LineMoves(s[a..]);
        assert k.n == 0 ==> s[a + k.n..] == s[a..];
        Over(a + k.n + Line(s[a + k.n..]))
  }

  function HeaderBehind(a: nat, t: Top): Top {
    match t
    case Over(n) => Over(a + n)
    case Table(path, many, at, n) => Table(path, many, a + at, a + n)
    case _ => t
  }

  function AssignBehind(s: string, a: nat, k: KeyRead): (t: Top)
    requires a < |s| && s[a] != '\n' && a + k.n <= |s| && 1 <= k.end <= k.n
    ensures t.Over? || t.Assignment?
    ensures t.Over? ==> 1 <= t.n <= |s|
    ensures t.Assignment? ==> 1 <= t.keyEnd < t.valueAt <= |s|
  {
    LineMoves(s[a..]);
    var b := a + k.n;
    if b == |s| || s[b] != '=' then Over(a + Line(s[a..]))
    else Assignment(k.parts, a + k.end, b + 1 + Gaps(s[b + 1..]))
  }

  // ---- values and assignments ----

  /** How far a value goes, why it may not be rewritten, and the assignments inside it. */
  datatype Read = Read(n: nat, why: Why, found: seq<Found>)

  /** The lines the first and the last byte of n are on differ. */
  predicate Spans(s: string, n: nat)
    requires n <= |s|
  {
    exists i :: 0 <= i < n - 1 && s[i] == '\n'
  }

  function Marked(found: seq<Found>): (r: seq<Found>)
    ensures |r| == |found|
    ensures forall i :: 0 <= i < |found| ==> r[i] == if found[i].why == Editable then found[i].(why := SpanningTable) else found[i]
  {
    seq(|found|, i requires 0 <= i < |found| => if found[i].why == Editable then found[i].(why := SpanningTable) else found[i])
  }

  /** An inline table, from what was read after its brace: refused whole, with every key
      inside it, when its braces are on two lines. */
  function TableRead(s: string, r: Option<Read>): (t: Option<Read>)
    requires r.Some? ==> 1 + r.value.n <= |s|
    ensures t.Some? == r.Some? && (t.Some? ==> t.value.n == 1 + r.value.n)
  {
    match r
    case None => None
    case Some(v) =>
      if Spans(s, 1 + v.n) then Some(Read(1 + v.n, SpanningTable, Marked(v.found)))
      else Some(Read(1 + v.n, Editable, v.found))
  }

  /** The end of a value of n bytes, without the spaces that end it. */
  function ValueEnd(s: string, n: nat): (end: nat)
    requires n <= |s|
    ensures end <= n
  {
    n - Trail(IsGap, s[..n])
  }

  /** The record of an assignment, behind those of the values inside it. */
  function Recorded(s: string, at: int, path: seq<string>, keyEnd: int, root: bool, r: Option<Read>): (a: Option<Read>)
    requires r.Some? ==> r.value.n <= |s|
    ensures a.Some? == r.Some? && (a.Some? ==> a.value.n == r.value.n)
  {
    match r
    case None => None
    case Some(v) =>
      var end := ValueEnd(s, v.n);
      var why := if v.why == Editable && Spans(s, end) then SpanningValue else v.why;
      Some(Read(v.n, why, v.found + [Found(path, keyEnd, at, at + end, why, root)]))
  }

  /** value: None when it reads past the end of the text. */
  function Value(s: string, at: int, path: seq<string>, root: bool): (r: Option<Read>)
    ensures r.Some? ==> r.value.n <= |s|
    decreases |s|, 1
  {
    if s == [] then Some(Read(0, NoValue, []))
    else if Triple(s) then
      if Multiline(s) > |s| then None else Some(Read(Multiline(s), MultilineString, []))
    else if IsQuote(s[0]) then Some(Read(Quoted(s).0, Editable, []))
    else if s[0] == '[' then
      match Bracketed(s, 0)
      case None => None
      case Some(n) => Some(Read(n, if Spans(s, n) then SpanningArray else Editable, []))
    else if s[0] == '{' then TableRead(s, Items(s[1..], at + 1, path, root))
    else Some(Read(Lead(InValue, s), Editable, []))
  }

  /** assign: the value, trimmed of the spaces that end it, after the ones inside it. None
      is the panic of a value that reads past the end. */
  function Assign(s: string, at: int, path: seq<string>, keyEnd: int, root: bool): (r: Option<Read>)
    ensures r.Some? ==> r.value.n <= |s|
    decreases |s|, 2
  {
    Recorded(s, at, path, keyEnd, root, Value(s, at, path, root))
  }

  /** The rest of an inline table. */
  function Items(s: string, at: int, path: seq<string>, root: bool): (r: Option<Read>)
    ensures r.Some? ==> r.value.n <= |s|
    decreases |s|, 3
  {
    match NextItem(s)
    case End(n) => Some(Read(n, Editable, []))
    case Skip(n) => Later(n, [], Items(s[n..], at + n, path, root))
    case Broken => None
    case Key(parts, keyEnd, valueAt) =>
      match Assign(s[valueAt..], at + valueAt, path + parts, at + keyEnd, root)
      case None => None
      case Some(a) =>
        var n := valueAt + a.n;
        Later(n, a.found, Items(s[n..], at + n, path, root))
  }

  /** What was read first, and then the rest. */
  function Later(n: nat, found: seq<Found>, rest: Option<Read>): Option<Read> {
    match rest
    case None => None
    case Some(r) => Some(Read(n + r.n, r.why, found + r.found))
  }

  /** What a scan records. */
  datatype Scan = Scan(assigns: seq<Found>, headers: seq<Header>)

  /** run: None is the panic. */
  function Run(s: string, at: int, table: seq<string>): Option<Scan>
    decreases |s|
  {
    match NextTop(s)
    case Done => Some(Scan([], []))
    case Over(n) => Run(s[n..], at + n, table)
    case Table(path, many, h, n) => Then([], [Header(path, at + h, many)], Run(s[n..], at + n, path))
    case Assignment(parts, keyEnd, valueAt) =>
      match Assign(s[valueAt..], at + valueAt, table + parts, at + keyEnd, table == [])
      case None => None
      case Some(a) =>
        var n := valueAt + a.n;
        Then(a.found, [], Run(s[n..], at + n, table))
  }

  function Then(assigns: seq<Found>, headers: seq<Header>, rest: Option<Scan>): Option<Scan> {
    match rest
    case None => None
    case Some(r) => Some(Scan(assigns + r.assigns, headers + r.headers))
  }

  function ScanText(text: string): Option<Scan> {
    Run(text, 0, [])
  }

  // ---- one step of each ----

  lemma ScanIsRun(text: string)
    ensures ScanText(text) == Run(text, 0, [])
  {
    hide Run;
  }

  lemma ValueIsTable(s: string, at: int, path: seq<string>, root: bool)
    requires s != [] && s[0] == '{'
    ensures
      && (Items(s[1..], at + 1, path, root).Some? ==> 1 + Items(s[1..], at + 1, path, root).value.n <= |s|)
      && Value(s, at, path, root) == TableRead(s, Items(s[1..], at + 1, path, root))
  {
    hide Items, TableRead;
  }

  lemma AssignIs(s: string, at: int, path: seq<string>, keyEnd: int, root: bool)
    ensures
      && (Value(s, at, path, root).Some? ==> Value(s, at, path, root).value.n <= |s|)
      && Assign(s, at, path, keyEnd, root) == Recorded(s, at, path, keyEnd, root, Value(s, at, path, root))
  {
    hide Value, Recorded;
  }

  lemma ItemsIs(s: string, at: int, path: seq<string>, root: bool)
    ensures
      match NextItem(s)
      case End(n) => n <= |s| && Items(s, at, path, root) == Some(Read(n, Editable, []))
      case Skip(n) => 1 <= n <= |s| && Items(s, at, path, root) == Later(n, [], Items(s[n..], at + n, path, root))
      case Broken => Items(s, at, path, root) == None
      case Key(parts, keyEnd, valueAt) =>
        && 1 <= keyEnd <= valueAt <= |s|
        && match Assign(s[valueAt..], at + valueAt, path + parts, at + keyEnd, root)
           case None => Items(s, at, path, root) == None
           case Some(a) =>
             && valueAt + a.n <= |s|
             && Items(s, at, path, root) == Later(valueAt + a.n, a.found, Items(s[valueAt + a.n..], at + valueAt + a.n, path, root))
  {
    hide NextItem, Assign, Later;
    match NextItem(s)
    case Key(parts, keyEnd, valueAt) =>
      match Assign(s[valueAt..], at + valueAt, path + parts, at + keyEnd, root) {
        case None =>
        case Some(a) => assert at + (valueAt + a.n) == at + valueAt + a.n;
      }
    case _ =>
  }

  lemma RunIs(s: string, at: int, table: seq<string>)
    ensures
      match NextTop(s)
      case Done => Run(s, at, table) == Some(Scan([], []))
      case Over(n) => 1 <= n <= |s| && Run(s, at, table) == Run(s[n..], at + n, table)
      case Table(path, many, h, n) =>
        1 <= h <= n <= |s| && Run(s, at, table) == Then([], [Header(path, at + h, many)], Run(s[n..], at + n, path))
      case Assignment(parts, keyEnd, valueAt) =>
        && 1 <= keyEnd < valueAt <= |s|
        && match Assign(s[valueAt..], at + valueAt, table + parts, at + keyEnd, table == [])
           case None => Run(s, at, table) == None
           case Some(a) =>
             && valueAt + a.n <= |s|
             && Run(s, at, table) == Then(a.found, [], Run(s[valueAt + a.n..], at + valueAt + a.n, table))
  {
    hide NextTop, Assign, Then;
    match NextTop(s)
    case Assignment(parts, keyEnd, valueAt) =>
      match Assign(s[valueAt..], at + valueAt, table + parts, at + keyEnd, table == []) {
        case None =>
        case Some(a) => assert at + (valueAt + a.n) == at + valueAt + a.n;
      }
    case _ =>
  }
}
