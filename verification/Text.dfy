/** Text as the configuration codecs see it: a sequence of ASCII bytes, one `char` each.

    The functions here stand for the Go standard library's own (strings.TrimSpace,
    strings.IndexByte, strconv.Quote and so on), described by contract, so nothing that
    uses them looks inside. */
module Text {

  datatype Option<+T> = None | Some(value: T)

  /** A space or a tab, the two bytes a value and an indentation are trimmed of. */
  predicate IsBlank(c: char) {
    c == ' ' || c == '\t'
  }

  /** ASCII white space, as strings.TrimSpace reads it. */
  predicate IsSpace(c: char) {
    c == ' ' || c == '\t' || c == '\n' || c == '\r' || c == '\U{0B}' || c == '\U{0C}'
  }

  predicate IsDigit(c: char) {
    '0' <= c <= '9'
  }

  /** A byte that strconv.Quote writes as itself. */
  predicate IsPlain(c: char) {
    ' ' <= c <= '~' && c != '\"' && c != '\\'
  }

  /** How many bytes at the front satisfy p. */
  function Lead(p: char -> bool, s: string): (n: nat)
    ensures n <= |s|
    ensures forall i :: 0 <= i < n ==> p(s[i])
    ensures n < |s| ==> !p(s[n])
  {
    if s != [] && p(s[0]) then 1 + Lead(p, s[1..]) else 0
  }

  /** How many bytes at the back satisfy p. */
  function Trail(p: char -> bool, s: string): (n: nat)
    ensures n <= |s|
    ensures forall i :: |s| - n <= i < |s| ==> p(s[i])
    ensures n < |s| ==> !p(s[|s| - n - 1])
  {
    if s != [] && p(s[|s| - 1]) then 1 + Trail(p, s[..|s| - 1]) else 0
  }

  function TrimLeft(p: char -> bool, s: string): string {
    s[Lead(p, s)..]
  }

  function TrimRight(p: char -> bool, s: string): string {
    s[..|s| - Trail(p, s)]
  }

  function TrimSpace(s: string): string {
    TrimRight(IsSpace, TrimLeft(IsSpace, s))
  }

  /** The leading blanks of a line. */
  function Indent(line: string): string {
    line[..Lead(IsBlank, line)]
  }

  /** A text no trimming changes. */
  predicate Trimmed(s: string) {
    s == [] || (!IsSpace(s[0]) && !IsSpace(s[|s| - 1]))
  }

  /** The offset of the first c, or None. */
  function IndexByte(s: string, c: char): (r: Option<nat>)
    ensures r.None? ==> c !in s
    ensures r.Some? ==> r.value < |s| && s[r.value] == c && c !in s[..r.value]
  {
    if s == [] then None
    else if s[0] == c then Some(0)
    else
      match IndexByte(s[1..], c)
      case None => None
      case Some(i) =>
        assert s[..i + 1] == [s[0]] + s[1..][..i];
        Some(i + 1)
  }

  predicate HasPrefix(s: string, p: string) {
    |p| <= |s| && s[..|p|] == p
  }

  predicate HasSuffix(s: string, p: string) {
    |p| <= |s| && s[|s| - |p|..] == p
  }

  /** strings.Join. */
  function Join(parts: seq<string>, sep: string): string {
    if parts == [] then ""
    else if |parts| == 1 then parts[0]
    else parts[0] + sep + Join(parts[1..], sep)
  }

  // ---- numbers and booleans ----

  const MIN_INT64: int := -0x8000_0000_0000_0000
  const MAX_INT64: int := 0x7fff_ffff_ffff_ffff

  function DigitValue(c: char): nat
    requires IsDigit(c)
  {
    c as int - '0' as int
  }

  predicate AllDigits(s: string) {
    forall i :: 0 <= i < |s| ==> IsDigit(s[i])
  }

  function Digits(s: string): nat
    requires AllDigits(s)
  {
    if s == [] then 0
    else Digits(s[..|s| - 1]) * 10 + DigitValue(s[|s| - 1])
  }

  /** strconv.ParseInt in base ten, 64 bits: an optional sign, digits, and in range. */
  function ParseInt(s: string): Option<int> {
    var signed := s != [] && (s[0] == '-' || s[0] == '+');
    var digits := if signed then s[1..] else s;
    if digits == [] || !AllDigits(digits) then None
    else
      var n: int := if signed && s[0] == '-' then -(Digits(digits) as int) else Digits(digits);
      if MIN_INT64 <= n <= MAX_INT64 then Some(n) else None
  }

  function FormatBool(b: bool): string {
    if b then "true" else "false"
  }

  /** strconv.ParseBool. */
  function ParseBool(s: string): Option<bool> {
    if s in ["1", "t", "T", "TRUE", "true", "True"] then Some(true)
    else if s in ["0", "f", "F", "FALSE", "false", "False"] then Some(false)
    else None
  }

  // ---- quoting ----

  function Hex(n: nat): char
    requires n < 16
  {
    "0123456789abcdef"[n]
  }

  /** One byte of strconv.Quote: itself when it is plain, an escape otherwise. */
  function Escape(c: char): (e: string)
    ensures IsPlain(c) ==> e == [c]
    ensures !IsPlain(c) ==> |e| >= 2 && e[0] == '\\'
    ensures forall x :: x in e ==> ' ' <= x <= '~'
    ensures |e| == 2 || forall i :: 1 <= i < |e| ==> e[i] != '\"' && e[i] != '\\'
  {
    if IsPlain(c) then [c]
    else if c == '\"' then "\\\""
    else if c == '\\' then "\\\\"
    else if c == '\n' then "\\n"
    else if c == '\r' then "\\r"
    else if c == '\t' then "\\t"
    else if c == '\U{07}' then "\\a"
    else if c == '\U{08}' then "\\b"
    else if c == '\U{0B}' then "\\v"
    else if c == '\U{0C}' then "\\f"
    else
      var n := c as int % 256;
      ['\\', 'x', Hex(n / 16), Hex(n % 16)]
  }

  function Escaped(s: string): (e: string)
    ensures |e| >= |s|
    ensures forall x :: x in e ==> ' ' <= x <= '~'
    ensures (forall c :: c in s ==> IsPlain(c)) ==> e == s
    ensures !(forall c :: c in s ==> IsPlain(c)) ==> |e| > |s|
  {
    if s == [] then [] else Escape(s[0]) + Escaped(s[1..])
  }

  /** strconv.Quote. */
  function Quote(s: string): string {
    "\"" + Escaped(s) + "\""
  }

  // ---- sequences cut and put together ----

  lemma Pieces<T>(x: seq<T>, y: seq<T>, z: seq<T>)
    ensures (x + y + z)[..|x|] == x && (x + y + z)[|x|..|x| + |y|] == y && (x + y + z)[|x| + |y|..] == z
    ensures (x + y + z)[..|x| + |y|] == x + y
    ensures x + y + z == x + (y + z)
  {
  }

  lemma CutTwice<T>(s: seq<T>, i: nat, j: nat)
    requires i <= j <= |s|
    ensures s == s[..i] + s[i..j] + s[j..] && s[..j] == s[..i] + s[i..j] && s == s[..j] + s[j..]
  {
  }

  lemma TailOf<T>(a: seq<T>, b: seq<T>, k: nat)
    requires k <= |a|
    ensures (a + b)[k..] == a[k..] + b
    ensures a != [] ==> (a + b)[0] == a[0]
  {
  }

  lemma Grouped<T>(x: seq<T>, y: seq<T>, z: seq<T>)
    ensures x + y + z == x + (y + z)
  {
  }
}
