/** The blanker of a .jsonc file (internal/configfile/json.go): the copy the decoder
    reads, in which every comment byte and every trailing comma is a space.

    The code finds strings and comments by searching ahead and jumping. The
    specification reads the file one byte at a time, in the state an automaton for
    strings (RFC 8259, section 7) and comments is in before that byte, so what a byte is
    depends on what is before it and on one byte after it. */
module Jsonc {
  import opened Text

  /** What the automaton takes the next byte for. SlashStar is the star that opens a
      block comment and BlockEnd the slash that closes it. */
  datatype Mode = Code | Str | Escaped | LineComment | SlashStar | Block | BlockEnd

  predicate At(text: string, i: nat, c: char) {
    i < |text| && text[i] == c
  }

  function After(mode: Mode, text: string, i: nat): Mode
    requires i < |text|
  {
    var c := text[i];
    match mode
    case Code =>
      if c == '\"' then Str
      else if c == '/' && At(text, i + 1, '/') then LineComment
      else if c == '/' && At(text, i + 1, '*') then SlashStar
      else Code
    case Str => if c == '\\' then Escaped else if c == '\"' then Code else Str
    case Escaped => Str
    case LineComment => if c == '\n' then Code else LineComment
    case SlashStar => Block
    case Block => if c == '*' && At(text, i + 1, '/') then BlockEnd else Block
    case BlockEnd => Code
  }

  /** The state before byte i. */
  function ModeAt(text: string, i: nat): Mode
    requires i <= |text|
  {
    if i == 0 then Code else After(ModeAt(text, i - 1), text, i - 1)
  }

  predicate IsComment(text: string, i: nat)
    requires i < |text|
  {
    match ModeAt(text, i)
    case Code => text[i] == '/' && (At(text, i + 1, '/') || At(text, i + 1, '*'))
    case Str => false
    case Escaped => false
    case LineComment => text[i] != '\n'
    case _ => true
  }

  /** White space between two JSON tokens. */
  predicate IsJsonSpace(c: char) {
    c == ' ' || c == '\t' || c == '\n' || c == '\r'
  }

  /** The first byte from i on that is neither white space nor part of a comment. */
  function ContentFrom(text: string, i: nat): (j: nat)
    requires i <= |text|
    ensures i <= j <= |text|
    decreases |text| - i
  {
    if i < |text| && (IsJsonSpace(text[i]) || IsComment(text, i)) then ContentFrom(text, i + 1) else i
  }

  /** A comma of the document itself that only a closing bracket follows. */
  predicate IsTrailing(text: string, i: nat)
    requires i < |text|
  {
    && ModeAt(text, i) == Code && text[i] == ','
    && var j := ContentFrom(text, i + 1);
       At(text, j, '}') || At(text, j, ']')
  }

  function Uncommented(text: string): (s: string)
    ensures |s| == |text|
    ensures forall i :: 0 <= i < |text| ==> s[i] == if IsComment(text, i) then ' ' else text[i]
  {
    seq(|text|, i requires 0 <= i < |text| => if IsComment(text, i) then ' ' else text[i])
  }

  /** The decoder's copy. */
  function Blanked(text: string): (s: string)
    ensures |s| == |text|
    ensures forall i :: 0 <= i < |text| ==> s[i] == if IsComment(text, i) || IsTrailing(text, i) then ' ' else text[i]
  {
    seq(|text|, i requires 0 <= i < |text| => if IsComment(text, i) || IsTrailing(text, i) then ' ' else text[i])
  }

  // ---- strings ----

  /** jsonStringLen, for the string that starts at byte i of a text or of its
      uncommented copy: up to and with its closing quote, or the rest of the text when it
      has none. */
  method JsonStringLen(s: string, ghost text: string, i: nat) returns (n: nat)
    requires s == text || s == Uncommented(text)
    requires i < |text| && ModeAt(text, i) == Code && text[i] == '\"'
    ensures 1 <= n <= |text| - i
    ensures forall k :: i < k < i + n ==> InString(text, k)
    ensures i + n == |text| || ModeAt(text, i + n) == Code
  {
    hide IsComment, After;
    Quoting(text, i);
    var k := i + 1;
    while k < |s|
      invariant i + 1 <= k <= |s| + 1
      invariant forall j :: i < j <= k && j <= |text| ==> InString(text, j)
      invariant k <= |text| ==> ModeAt(text, k) == Str
    {
      InStrings(text, k);
      if s[k] == '\\' {
        if k + 1 < |s| { InStrings(text, k + 1); }
        k := k + 1;
      } else if s[k] == '\"' {
        return k + 1 - i;
      }
      k := k + 1;
    }
    n := |s| - i;
  }

  predicate InString(text: string, i: nat)
    requires i <= |text|
  {
    ModeAt(text, i).Str? || ModeAt(text, i).Escaped?
  }

  lemma Quoting(text: string, i: nat)
    requires i < |text| && ModeAt(text, i) == Code && text[i] == '\"'
    ensures ModeAt(text, i + 1) == Str
  {
  }

  /** A byte of a string: no comment, and what follows it. */
  lemma InStrings(text: string, k: nat)
    requires k < |text| && InString(text, k)
    ensures !IsComment(text, k)
    ensures ModeAt(text, k + 1) ==
            if ModeAt(text, k) == Escaped then Str
            else if text[k] == '\\' then Escaped
            else if text[k] == '\"' then Code else Str
  {
  }

  /** jsonNextContent, on the uncommented copy. */
  method JsonNextContent(s: string, ghost text: string, from: nat) returns (i: nat)
    requires s == Uncommented(text) && from <= |s|
    ensures i == ContentFrom(text, from)
  {
    hide IsComment, ModeAt, Uncommented;
    i := from;
    while i < |s| && IsJsonSpace(s[i])
      invariant from <= i <= |s|
      invariant ContentFrom(text, i) == ContentFrom(text, from)
    {
      i := i + 1;
    }
  }

  // ---- comments ----

  lemma Opens(text: string, i: nat)
    requires i < |text| && ModeAt(text, i) == Code
    ensures !IsComment(text, i) ==>
              ModeAt(text, i + 1) == if text[i] == '\"' then Str else Code
    ensures IsComment(text, i) <==> HasPrefix(text[i..], "//") || HasPrefix(text[i..], "/*")
    ensures HasPrefix(text[i..], "//") ==> ModeAt(text, i + 1) == LineComment
    ensures HasPrefix(text[i..], "/*") ==> ModeAt(text, i + 1) == SlashStar
  {
    if HasPrefix(text[i..], "//") { assert text[i..][..2][0] == '/' && text[i..][..2][1] == '/'; }
    if HasPrefix(text[i..], "/*") { assert text[i..][..2][0] == '/' && text[i..][..2][1] == '*'; }
    if text[i] == '/' && At(text, i + 1, '/') { assert text[i..][..2] == "//"; }
    if text[i] == '/' && At(text, i + 1, '*') { assert text[i..][..2] == "/*"; }
  }

  /** Up to the newline a line comment takes every byte. */
  lemma {:induction false} LineRuns(text: string, i: nat, to: nat)
    requires i < to <= |text| && ModeAt(text, i) == Code && HasPrefix(text[i..], "//")
    requires forall k :: i <= k < to ==> text[k] != '\n'
    ensures forall k :: i <= k < to ==> IsComment(text, k)
    ensures ModeAt(text, to) == LineComment
  {
    Opens(text, i);
    if to > i + 1 {
      LineRuns(text, i, to - 1);
    }
  }

  /** A block comment takes every byte up to the first closing mark after its opening. */
  lemma {:induction false} BlockRuns(text: string, i: nat, to: nat)
    requires i + 2 <= to <= |text| && ModeAt(text, i) == Code && HasPrefix(text[i..], "/*")
    requires forall k :: i + 2 <= k < to ==> !(text[k] == '*' && At(text, k + 1, '/'))
    ensures forall k :: i <= k < to ==> IsComment(text, k)
    ensures ModeAt(text, to) == Block
  {
    Opens(text, i);
    if to > i + 2 {
      BlockRuns(text, i, to - 1);
    } else {
      assert ModeAt(text, i + 2) == Block;
    }
  }

  lemma BlockCloses(text: string, i: nat)
    requires i + 1 < |text| && ModeAt(text, i) == Block && text[i] == '*' && text[i + 1] == '/'
    ensures IsComment(text, i) && IsComment(text, i + 1) && ModeAt(text, i + 2) == Code
  {
    assert ModeAt(text, i + 1) == BlockEnd;
  }

  /** The offset of the first closing mark from i on. */
  function IndexClose(text: string, i: nat): (r: Option<nat>)
    requires i <= |text|
    ensures r.Some? ==> i <= r.value && r.value + 1 < |text| && text[r.value] == '*' && text[r.value + 1] == '/'
    ensures forall k :: i <= k && k + 1 < |text| && (r.Some? ==> k < r.value) ==> !(text[k] == '*' && text[k + 1] == '/')
    decreases |text| - i
  {
    if i + 1 >= |text| then None
    else if text[i] == '*' && text[i + 1] == '/' then Some(i)
    else IndexClose(text, i + 1)
  }

  /** blank, the closure of jsonStrip. */
  method Blank(out: array<char>, from: nat, to: nat)
    modifies out
    ensures forall k :: 0 <= k < out.Length ==> out[k] == if from <= k < to then ' ' else old(out[k])
  {
    var i := from;
    while i < to && i < out.Length
      invariant from <= i
      invariant forall k :: 0 <= k < out.Length ==> out[k] == if from <= k < i && k < to then ' ' else old(out[k])
    {
      out[i] := ' ';
      i := i + 1;
    }
  }

  predicate Strictly(offsets: seq<nat>) {
    forall i, j :: 0 <= i < j < |offsets| ==> offsets[i] < offsets[j]
  }

  /** Outside strings and comments, or on the newline that ends a line comment. */
  predicate Resting(text: string, i: nat)
    requires i < |text|
  {
    ModeAt(text, i) == Code || (ModeAt(text, i) == LineComment && text[i] == '\n')
  }

  lemma Rests(text: string, i: nat)
    requires i < |text| && Resting(text, i)
    ensures IsComment(text, i) <==> ModeAt(text, i) == Code && (HasPrefix(text[i..], "//") || HasPrefix(text[i..], "/*"))
    ensures text[i] == '\"' || HasPrefix(text[i..], "//") || HasPrefix(text[i..], "/*") ==> ModeAt(text, i) == Code
    ensures text[i] != '\"' && !IsComment(text, i) ==> ModeAt(text, i + 1) == Code
    ensures text[i] == '\"' ==> !IsComment(text, i)
  {
    if ModeAt(text, i) == Code {
      Opens(text, i);
    } else {
      SlashFirst(text[i..]);
    }
  }

  lemma SlashFirst(s: string)
    ensures HasPrefix(s, "//") || HasPrefix(s, "/*") ==> s != [] && s[0] == '/'
  {
    if HasPrefix(s, "//") { assert s[..2][0] == '/'; }
    if HasPrefix(s, "/*") { assert s[..2][0] == '/'; }
  }

  lemma StartsInCode(text: string)
    ensures ModeAt(text, 0) == Code
  {
  }

  /** Where a line comment ends. */
  lemma LineEnd(text: string, i: nat)
    requires i < |text| && HasPrefix(text[i..], "//")
    ensures
      var end := IndexByte(text[i..], '\n');
      var to := if end.None? then |text| else i + end.value;
      && i < to <= |text|
      && (forall k :: i <= k < to ==> text[k] != '\n')
      && (to < |text| ==> text[to] == '\n')
  {
    hide IndexByte;
    assert text[i..][..2][0] == '/';
    var rest := text[i..];
    match IndexByte(rest, '\n') {
      case None =>
        forall k | i <= k < |text| ensures text[k] != '\n' { assert rest[k - i] in rest; }
      case Some(n) =>
        forall k | i <= k < i + n ensures text[k] != '\n' { assert rest[..n][k - i] in rest[..n]; }
    }
  }

  /** The first loop of jsonStrip: every comment byte becomes a space. */
  method StripComments(text: string, out: array<char>)
    requires out[..] == text
    modifies out
    ensures out[..] == Uncommented(text)
  {
    hide IsComment, After, ModeAt, IndexByte, HasPrefix;
    var i := 0;
    StartsInCode(text);
    while i < out.Length
      invariant i <= out.Length == |text|
      invariant i < |text| ==> Resting(text, i)
      invariant forall k :: 0 <= k < i ==> out[k] == if IsComment(text, k) then ' ' else text[k]
      invariant forall k :: i <= k < |text| ==> out[k] == text[k]
    {
      Rests(text, i);
      if out[i] == '\"' {
        var n := JsonStringLen(text, text, i);
        forall k | i < k < i + n ensures !IsComment(text, k) { InStrings(text, k); }
        i := i + n;
      } else if HasPrefix(text[i..], "//") {
        var end := IndexByte(text[i..], '\n');
        LineEnd(text, i);
        if end.None? {
          LineRuns(text, i, |text|);
          Blank(out, i, |text|);
          i := |text|;
        } else {
          LineRuns(text, i, i + end.value);
          Blank(out, i, i + end.value);
          i := i + end.value;
        }
      } else if HasPrefix(text[i..], "/*") {
        OpensBlock(text, i);
        var end := IndexClose(text, i + 2);
        if end.None? {
          BlockRuns(text, i, |text|);
          Blank(out, i, |text|);
          i := |text|;
        } else {
          BlockRuns(text, i, end.value);
          BlockCloses(text, end.value);
          Blank(out, i, end.value + 2);
          i := end.value + 2;
        }
      } else {
        i := i + 1;
      }
    }
  }

  lemma OpensBlock(text: string, i: nat)
    requires i < |text| && HasPrefix(text[i..], "/*")
    ensures i + 2 <= |text|
  {
  }

  // ---- trailing commas ----

  lemma CodeByte(text: string, i: nat)
    requires i < |text|
    ensures !InString(text, i) && !IsComment(text, i) && text[i] == '\"' ==> ModeAt(text, i) == Code
    ensures !InString(text, i) && Uncommented(text)[i] == '\"' ==> text[i] == '\"' && ModeAt(text, i) == Code
    ensures !InString(text, i) && Uncommented(text)[i] != '\"' && i + 1 <= |text| ==> !InString(text, i + 1)
    ensures Uncommented(text)[i] == ',' && !InString(text, i) <==> text[i] == ',' && ModeAt(text, i) == Code
    ensures InString(text, i) ==> !IsComment(text, i) && !IsTrailing(text, i)
    ensures text[i] != ',' ==> !IsTrailing(text, i)
    ensures IsComment(text, i) ==> !IsTrailing(text, i)
  {
  }

  /** jsonStrip: the decoder's copy, and the offsets of the trailing commas, in order. */
  method JsonStrip(text: string) returns (scan: string, trailing: seq<nat>)
    ensures scan == Blanked(text)
    ensures Strictly(trailing)
    ensures forall i: nat :: i in trailing <==> i < |text| && IsTrailing(text, i)
  {
    hide IsComment, After, ModeAt, ContentFrom;
    var out := new char[|text|](i requires 0 <= i < |text| => text[i]);
    assert out[..] == text;
    StripComments(text, out);
    trailing := [];
    var stripped := out[..];
    var i := 0;
    StartsInCode(text);
    while i < out.Length
      invariant i <= out.Length == |text|
      invariant i < |text| ==> !InString(text, i)
      invariant Strictly(trailing)
      invariant forall x :: 0 <= x < |trailing| ==> trailing[x] < i
      invariant forall k: nat :: k in trailing <==> k < i && IsTrailing(text, k)
      invariant forall k :: 0 <= k < i ==> out[k] == if IsTrailing(text, k) then ' ' else stripped[k]
      invariant forall k :: i <= k < |text| ==> out[k] == stripped[k]
    {
      CodeByte(text, i);
      if out[i] == '\"' {
        var n := JsonStringLen(stripped, text, i);
        forall k | i < k < i + n ensures !IsTrailing(text, k) { CodeByte(text, k); }
        i := i + n;
      } else if out[i] == ',' {
        var j := JsonNextContent(stripped, text, i + 1);
        BracketStays(text, i + 1);
        if j < out.Length && (out[j] == '}' || out[j] == ']') {
          out[i] := ' ';
          trailing := trailing + [i];
        }
        i := i + 1;
      } else {
        i := i + 1;
      }
    }
    scan := out[..];
    forall k | 0 <= k < |text| ensures scan[k] == Blanked(text)[k] { CodeByte(text, k); }
  }

  /** The byte a search for content stops at is the document's own. */
  lemma BracketStays(text: string, i: nat)
    requires i <= |text|
    ensures var j := ContentFrom(text, i); j < |text| ==> Uncommented(text)[j] == text[j]
  {
    hide ModeAt, IsComment;
    ContentStops(text, i);
  }

  lemma {:induction false} ContentStops(text: string, i: nat)
    requires i <= |text|
    ensures var j := ContentFrom(text, i); j < |text| ==> !IsJsonSpace(text[j]) && !IsComment(text, j)
    decreases |text| - i
  {
    hide ModeAt, IsComment;
    if i < |text| && (IsJsonSpace(text[i]) || IsComment(text, i)) {
      ContentStops(text, i + 1);
    }
  }

  // ---- reading the copy ----

  /** blanked: the binary search of sort.SearchInts finds exactly the trailing commas. */
  method WasBlanked(trailing: seq<nat>, off: nat) returns (found: bool)
    requires Strictly(trailing)
    ensures found <==> off in trailing
  {
    var lo, hi := 0, |trailing|;
    while lo < hi
      invariant 0 <= lo <= hi <= |trailing|
      invariant forall k :: 0 <= k < lo ==> trailing[k] < off
      invariant forall k :: hi <= k < |trailing| ==> trailing[k] >= off
    {
      var mid := (lo + hi) / 2;
      if trailing[mid] < off {
        lo := mid + 1;
      } else {
        hi := mid;
      }
    }
    found := lo < |trailing| && trailing[lo] == off;
  }

  /** What JsonStrip answers. */
  ghost predicate StripOf(text: string, scan: string, trailing: seq<nat>) {
    && scan == Blanked(text) && Strictly(trailing)
    && forall i: nat :: i in trailing <==> i < |text| && IsTrailing(text, i)
  }

  predicate CommentByte(text: string, i: nat) {
    i < |text| && IsComment(text, i) && text[i] != ' '
  }

  lemma CopyByte(text: string, i: nat)
    requires i < |text|
    ensures Blanked(text)[i] != text[i] && !IsTrailing(text, i) <==> CommentByte(text, i)
    ensures IsTrailing(text, i) ==> text[i] == ','
  {
    CodeByte(text, i);
  }

  /** holdsComment. */
  method HoldsComment(text: string, scan: string, trailing: seq<nat>, from: nat, to: nat) returns (held: bool)
    requires StripOf(text, scan, trailing)
    ensures held <==> exists i :: from <= i < to && CommentByte(text, i)
  {
    hide IsComment, IsTrailing, CommentByte;
    var i := from;
    while i < to && i < |scan|
      invariant from <= i
      invariant forall k :: from <= k < i ==> !CommentByte(text, k)
    {
      CopyByte(text, i);
      var comma := WasBlanked(trailing, i);
      if scan[i] != text[i] && !comma {
        return true;
      }
      i := i + 1;
    }
    forall k | from <= k < to ensures !CommentByte(text, k) {
      if k >= i { PastEnd(text, k); }
    }
    held := false;
  }

  lemma PastEnd(text: string, k: nat)
    ensures k >= |text| ==> !CommentByte(text, k)
  {
  }

  /** From a place outside any comment the first byte of a comment is a slash, so a
      range that begins there holds a comment exactly when one of its bytes is one. */
  lemma {:induction false} CommentStartsVisible(text: string, from: nat, i: nat) returns (k: nat)
    requires from <= i < |text| && IsComment(text, i)
    requires ModeAt(text, from) == Code || InString(text, from)
    ensures from <= k <= i && CommentByte(text, k)
    decreases i
  {
    if text[i] != ' ' {
      k := i;
    } else {
      CommentBefore(text, i);
      k := CommentStartsVisible(text, from, i - 1);
    }
  }

  /** A comment byte that is no slash continues the comment. */
  lemma CommentBefore(text: string, i: nat)
    requires i < |text| && IsComment(text, i) && text[i] == ' '
    ensures i > 0 && IsComment(text, i - 1)
    ensures ModeAt(text, i) != Code && !InString(text, i)
  {
  }

  lemma HeldMeansComment(text: string, from: nat, to: nat)
    requires from <= to <= |text| && (ModeAt(text, from) == Code || InString(text, from))
    ensures (exists i :: from <= i < to && CommentByte(text, i)) <==> exists i :: from <= i < to && IsComment(text, i)
  {
    hide IsComment, ModeAt;
    forall i | from <= i < to && IsComment(text, i) ensures exists k :: from <= k < to && CommentByte(text, k) {
      var k := CommentStartsVisible(text, from, i);
    }
  }

  /** jsonHasComma: a comma is the next thing after a value, trailing or not. */
  method JsonHasComma(text: string, scan: string, trailing: seq<nat>, from: nat) returns (has: bool)
    requires StripOf(text, scan, trailing) && from <= |text|
    ensures has == At(text, ContentFrom(text, from), ',')
  {
    hide IsComment, IsTrailing, ModeAt;
    var i := from;
    while i < |scan|
      invariant from <= i <= |scan|
      invariant ContentFrom(text, i) == ContentFrom(text, from)
    {
      CopyByte(text, i);
      CopySpace(text, i);
      var comma := WasBlanked(trailing, i);
      if scan[i] == ',' || comma {
        return true;
      }
      if !IsJsonSpace(scan[i]) {
        return false;
      }
      i := i + 1;
    }
    has := false;
  }

  lemma CopySpace(text: string, i: nat)
    requires i < |text|
    ensures text[i] == ',' && !IsComment(text, i) <==> Blanked(text)[i] == ',' || IsTrailing(text, i)
    ensures !IsTrailing(text, i) ==> (IsJsonSpace(Blanked(text)[i]) <==> IsJsonSpace(text[i]) || IsComment(text, i))
  {
    CodeByte(text, i);
  }

  // ---- the copy is a document of its own ----

  /** Reading the copy is in a string where reading the file is, and nowhere in a
      comment: the decoder meets the same strings and no comment at all. */
  lemma {:induction false} CopyModes(text: string, i: nat)
    requires i <= |text|
    ensures ModeAt(Blanked(text), i) == if InString(text, i) then ModeAt(text, i) else Code
  {
    hide ModeAt, Blanked;
    if i > 0 {
      CopyModes(text, i - 1);
      CopyStep(text, i - 1);
    } else {
      StartsInCode(text);
      StartsInCode(Blanked(text));
    }
  }

  lemma CopyStep(text: string, i: nat)
    requires i < |text|
    requires ModeAt(Blanked(text), i) == if InString(text, i) then ModeAt(text, i) else Code
    ensures ModeAt(Blanked(text), i + 1) == if InString(text, i + 1) then ModeAt(text, i + 1) else Code
    ensures !IsComment(Blanked(text), i)
  {
    hide ContentFrom;
    CodeByte(text, i);
    var b := Blanked(text);
    assert i + 1 < |text| ==> b[i + 1] == text[i + 1] || b[i + 1] == ' ';
    assert b[i] == text[i] || b[i] == ' ';
  }

  lemma CopyHasNoComments(text: string, i: nat)
    requires i < |text|
    ensures !IsComment(Blanked(text), i)
  {
    hide IsComment, ModeAt, Blanked;
    CopyModes(text, i);
    CopyStep(text, i);
  }
}
