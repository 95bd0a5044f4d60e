/** What the decoder's copy of a .jsonc file is, told from the file as it is written: strings,
    comments and bytes one after the other (internal/configfile/json.go: jsonStrip). */
module JsoncStated {
  import opened Text
  import opened Jsonc

  /** A byte of a string: itself, or any byte behind a backslash. */
  datatype Unit = Plain(c: char) | Behind(c: char)

  /** A string; a comment up to and with the newline that ends it; a comment between its marks;
      a byte of the document itself. */
  datatype Token = Quoted(units: seq<Unit>) | Remark(text: string) | Note(text: string) | Byte(c: char)

  function SpellUnit(u: Unit): string {
    match u
    case Plain(c) => [c]
    case Behind(c) => ['\\', c]
  }

  function SpellUnits(us: seq<Unit>): string {
    if us == [] then "" else SpellUnit(us[0]) + SpellUnits(us[1..])
  }

  function SpellToken(t: Token): string {
    match t
    case Quoted(us) => "\"" + SpellUnits(us) + "\""
    case Remark(text) => "//" + text + "\n"
    case Note(text) => "/*" + text + "*/"
    case Byte(c) => [c]
  }

  function SpellAll(ts: seq<Token>): string {
    if ts == [] then "" else SpellToken(ts[0]) + SpellAll(ts[1..])
  }

  /** The text between the marks of a comment does not close it, nor does its last byte with
      the mark behind it. */
  predicate Inside(text: string) {
    forall k :: 0 <= k < |text| && text[k] == '*' ==> k + 1 < |text| ==> text[k + 1] != '/'
  }

  predicate TokenFits(t: Token) {
    match t
    case Quoted(us) => forall i :: 0 <= i < |us| ==> us[i].Plain? ==> us[i].c != '\"' && us[i].c != '\\'
    case Remark(text) => '\n' !in text
    case Note(text) => Inside(text)
    case Byte(c) => c != '\"' && c != '/'
  }

  predicate AllFit(ts: seq<Token>) {
    forall i :: 0 <= i < |ts| ==> TokenFits(ts[i])
  }

  // ---- the copy ----

  function Spaces(n: nat): string {
    seq(n, _ => ' ')
  }

  /** What comes next, over white space and comments, closes an object or an array. */
  predicate Closes(ts: seq<Token>) {
    ts != [] &&
    match ts[0]
    case Quoted(_) => false
    case Remark(_) => Closes(ts[1..])
    case Note(_) => Closes(ts[1..])
    case Byte(c) => if c in " \t\n\r" then Closes(ts[1..]) else c == '}' || c == ']'
  }

  /** A token as the copy has it: comments are spaces, up to the newline, and so is a comma with
      nothing but a closing bracket behind it. */
  function Copied(t: Token, rest: seq<Token>): string {
    match t
    case Quoted(_) => SpellToken(t)
    case Remark(text) => Spaces(2 + |text|) + "\n"
    case Note(text) => Spaces(4 + |text|)
    case Byte(c) => if c == ',' && Closes(rest) then " " else [c]
  }

  function CopyOf(ts: seq<Token>): string {
    if ts == [] then "" else Copied(ts[0], ts[1..]) + CopyOf(ts[1..])
  }

  // ---- where the tokens are ----

  /** From byte i on the text is the tokens, and no string or comment is open there. */
  predicate Stands(text: string, i: nat, ts: seq<Token>) {
    i <= |text| && text[i..] == SpellAll(ts) && ModeAt(text, i) == Code && AllFit(ts)
  }

  predicate Holds(text: string, i: nat, w: string) {
    i + |w| <= |text| && text[i..i + |w|] == w
  }

  lemma HoldsAt(text: string, i: nat, w: string, k: nat)
    requires Holds(text, i, w) && k < |w|
    ensures text[i + k] == w[k]
  {
    assert text[i..i + |w|][k] == w[k];
  }

  lemma HoldsBoth(text: string, i: nat, a: string, b: string)
    requires Holds(text, i, a + b)
    ensures Holds(text, i, a) && Holds(text, i + |a|, b)
  {
    assert text[i..i + |a|] == text[i..i + |a + b|][..|a|];
    assert text[i + |a|..i + |a| + |b|] == text[i..i + |a + b|][|a|..];
  }

  lemma UnitStands(text: string, i: nat, u: Unit)
    requires Holds(text, i, SpellUnit(u)) && ModeAt(text, i) == Str && (u.Plain? ==> u.c != '\"' && u.c != '\\')
    ensures ModeAt(text, i + |SpellUnit(u)|) == Str
    ensures forall k :: i <= k < i + |SpellUnit(u)| ==> InString(text, k)
  {
    hide ModeAt, IsComment, Holds;
    HoldsAt(text, i, SpellUnit(u), 0);
    HoldsIn(text, i, SpellUnit(u));
    InStrings(text, i);
    if u.Behind? {
      InStrings(text, i + 1);
    }
  }

  lemma HoldsIn(text: string, i: nat, w: string)
    requires Holds(text, i, w)
    ensures i + |w| <= |text|
  {
  }

  lemma {:induction false} UnitsStand(text: string, i: nat, us: seq<Unit>)
    requires Holds(text, i, SpellUnits(us)) && ModeAt(text, i) == Str && TokenFits(Quoted(us))
    ensures i + |SpellUnits(us)| <= |text| && ModeAt(text, i + |SpellUnits(us)|) == Str
    ensures forall k :: i <= k < i + |SpellUnits(us)| ==> InString(text, k)
    decreases |us|
  {
    hide ModeAt, IsComment, InString, Holds, SpellUnit;
    HoldsIn(text, i, SpellUnits(us));
    if us != [] {
      HoldsBoth(text, i, SpellUnit(us[0]), SpellUnits(us[1..]));
      UnitStands(text, i, us[0]);
      UnitsStand(text, i + |SpellUnit(us[0])|, us[1..]);
    }
  }

  /** A string is no comment, and the document goes on behind its closing quote. */
  lemma QuotedStands(text: string, i: nat, us: seq<Unit>)
    requires Holds(text, i, SpellToken(Quoted(us))) && ModeAt(text, i) == Code && TokenFits(Quoted(us))
    ensures i + |SpellToken(Quoted(us))| <= |text| && ModeAt(text, i + |SpellToken(Quoted(us))|) == Code
    ensures forall k :: i <= k < i + |SpellToken(Quoted(us))| ==> !IsComment(text, k) && !IsTrailing(text, k)
  {
    hide ModeAt, IsComment, Holds, InString, IsTrailing, SpellUnits, TokenFits;
    var inner := SpellUnits(us);
    HoldsBoth(text, i, "\"" + inner, "\"");
    HoldsBoth(text, i, "\"", inner);
    HoldsAt(text, i, "\"", 0);
    HoldsIn(text, i + 1 + |inner|, "\"");
    HoldsAt(text, i + 1 + |inner|, "\"", 0);
    Quoting(text, i);
    UnitsStand(text, i + 1, us);
    InsideIs(text, i + 1 + |inner|);
    InStrings(text, i + 1 + |inner|);
    assert |SpellToken(Quoted(us))| == |inner| + 2;
    forall k | i <= k < i + |inner| + 2 ensures !IsComment(text, k) && !IsTrailing(text, k) {
      if k == i { QuoteIsPlain(text, i); } else { StringIsPlain(text, k); }
    }
  }

  lemma InsideIs(text: string, k: nat)
    requires k <= |text| && ModeAt(text, k) == Str
    ensures InString(text, k)
  {
    hide ModeAt;
  }

  lemma QuoteIsPlain(text: string, i: nat)
    requires i < |text| && text[i] == '\"' && ModeAt(text, i) == Code
    ensures !IsComment(text, i) && !IsTrailing(text, i)
  {
    hide ModeAt, ContentFrom;
  }

  lemma StringIsPlain(text: string, k: nat)
    requires k < |text| && InString(text, k)
    ensures !IsComment(text, k) && !IsTrailing(text, k)
  {
    hide ModeAt, ContentFrom;
  }

  lemma RemarkStands(text: string, i: nat, note: string)
    requires Holds(text, i, SpellToken(Remark(note))) && ModeAt(text, i) == Code && '\n' !in note
    ensures forall k :: i <= k < i + 2 + |note| ==> IsComment(text, k) && !IsTrailing(text, k)
    ensures var n := i + 2 + |note|; text[n] == '\n' && !IsComment(text, n) && !IsTrailing(text, n) && ModeAt(text, n + 1) == Code
  {
    var w := SpellToken(Remark(note));
    var n := i + 2 + |note|;
    HoldsAt(text, i, w, 0);
    HoldsAt(text, i, w, 1);
    HoldsAt(text, i, w, 2 + |note|);
    assert text[i..][..2] == "//";
    forall k | i <= k < n ensures text[k] != '\n' {
      HoldsAt(text, i, w, k - i);
      assert k >= i + 2 ==> w[k - i] == note[k - i - 2] && note[k - i - 2] in note;
    }
    LineRuns(text, i, n);
    CommentIsNotTrailing(text, i, n);
  }

  lemma CommentIsNotTrailing(text: string, i: nat, to: nat)
    requires to <= |text| && forall k :: i <= k < to ==> IsComment(text, k)
    ensures forall k :: i <= k < to ==> !IsTrailing(text, k)
  {
    hide ContentFrom, ModeAt;
    forall k | i <= k < to ensures !IsTrailing(text, k) {
      assert IsComment(text, k);
    }
  }

  lemma NoteStands(text: string, i: nat, note: string)
    requires Holds(text, i, SpellToken(Note(note))) && ModeAt(text, i) == Code && Inside(note)
    ensures forall k :: i <= k < i + 4 + |note| ==> IsComment(text, k) && !IsTrailing(text, k)
    ensures ModeAt(text, i + 4 + |note|) == Code
  {
    var w := SpellToken(Note(note));
    var n := i + 2 + |note|;
    HoldsAt(text, i, w, 0);
    HoldsAt(text, i, w, 1);
    HoldsAt(text, i, w, 2 + |note|);
    HoldsAt(text, i, w, 3 + |note|);
    assert text[i..][..2] == "/*";
    forall k | i + 2 <= k < n ensures !(text[k] == '*' && At(text, k + 1, '/')) {
      HoldsAt(text, i, w, k - i);
      HoldsAt(text, i, w, k - i + 1);
      assert w[k - i] == note[k - i - 2];
      assert k + 1 < n ==> w[k - i + 1] == note[k - i - 1];
    }
    BlockRuns(text, i, n);
    BlockCloses(text, n);
    CommentIsNotTrailing(text, i, n + 2);
  }

  lemma ByteStands(text: string, i: nat, c: char)
    requires i < |text| && text[i] == c && ModeAt(text, i) == Code && c != '\"' && c != '/'
    ensures !IsComment(text, i) && ModeAt(text, i + 1) == Code
  {
  }

  /** The tokens behind the first one stand where it ends. */
  lemma NextStands(text: string, i: nat, ts: seq<Token>)
    requires Stands(text, i, ts) && ts != []
    ensures Holds(text, i, SpellToken(ts[0])) && TokenFits(ts[0])
    ensures Stands(text, i + |SpellToken(ts[0])|, ts[1..])
  {
    hide ModeAt, TokenFits, SpellToken;
    var w, rest := SpellToken(ts[0]), SpellAll(ts[1..]);
    assert text[i..] == w + rest;
    assert text[i..i + |w|] == text[i..][..|w|];
    assert text[i + |w|..] == text[i..][|w|..];
    assert TokenFits(ts[0]);
    CodeBehind(text, i, ts[0]);
  }

  lemma CodeBehind(text: string, i: nat, t: Token)
    requires Holds(text, i, SpellToken(t)) && ModeAt(text, i) == Code && TokenFits(t)
    ensures ModeAt(text, i + |SpellToken(t)|) == Code
  {
    hide ModeAt;
    match t
    case Quoted(us) => QuotedStands(text, i, us);
    case Remark(note) => RemarkStands(text, i, note);
    case Note(note) => NoteStands(text, i, note);
    case Byte(c) => HoldsAt(text, i, [c], 0); ByteStands(text, i, c);
  }

  lemma {:induction false} CommentsOver(text: string, i: nat, to: nat)
    requires i <= to <= |text| && forall k :: i <= k < to ==> IsComment(text, k)
    ensures ContentFrom(text, i) == ContentFrom(text, to)
    decreases |text| - i
  {
    hide IsComment;
    if i < to { CommentsOver(text, i + 1, to); }
  }

  /** White space and comments are stepped over, and nothing else is. */
  lemma ContentOver(text: string, i: nat, t: Token)
    requires Holds(text, i, SpellToken(t)) && ModeAt(text, i) == Code && TokenFits(t)
    ensures i < |text| && i + |SpellToken(t)| <= |text|
    ensures t.Remark? || t.Note? || (t.Byte? && t.c in " \t\n\r") ==> ContentFrom(text, i) == ContentFrom(text, i + |SpellToken(t)|)
    ensures t.Quoted? ==> ContentFrom(text, i) == i && text[i] == '\"'
    ensures t.Byte? && t.c !in " \t\n\r" ==> ContentFrom(text, i) == i && text[i] == t.c
  {
    hide ModeAt, IsComment, TokenFits, IsTrailing, SpellUnits, Holds;
    HoldsIn(text, i, SpellToken(t));
    HoldsAt(text, i, SpellToken(t), 0);
    QuoteFits(t);
    match t
    case Quoted(us) => QuotedStands(text, i, us);
    case Remark(note) =>
      RemarkStands(text, i, note);
      CommentsOver(text, i, i + 2 + |note|);
    case Note(note) =>
      NoteStands(text, i, note);
      CommentsOver(text, i, i + 4 + |note|);
    case Byte(c) => ByteStands(text, i, c);
  }

  /** Over white space and comments, the next byte of the document is a closing bracket exactly
      when the next token that is neither is one. */
  lemma {:induction false} ClosesMeans(text: string, i: nat, ts: seq<Token>)
    requires Stands(text, i, ts)
    ensures i <= |text|
    ensures Closes(ts) <==> (At(text, ContentFrom(text, i), '}') || At(text, ContentFrom(text, i), ']'))
    decreases |ts|
  {
    hide ModeAt, IsComment, SpellAll, TokenFits, ContentFrom, Holds, SpellToken, Stands;
    StandsIn(text, i, ts);
    if ts == [] {
      NothingStands(text, i);
    } else {
      NextStands(text, i, ts);
      ContentOver(text, i, ts[0]);
      ClosesMeans(text, i + |SpellToken(ts[0])|, ts[1..]);
    }
  }

  lemma NothingStands(text: string, i: nat)
    requires Stands(text, i, [])
    ensures i == |text|
  {
  }

  lemma QuoteFits(t: Token)
    requires TokenFits(t)
    ensures t.Remark? ==> '\n' !in t.text
    ensures t.Note? ==> Inside(t.text)
    ensures t.Byte? ==> t.c != '\"' && t.c != '/'
  {
  }

  /** One token of the copy. */
  lemma TokenCopied(text: string, i: nat, ts: seq<Token>)
    requires Stands(text, i, ts) && ts != []
    ensures |Copied(ts[0], ts[1..])| == |SpellToken(ts[0])| && i + |SpellToken(ts[0])| <= |text|
    ensures forall k :: 0 <= k < |SpellToken(ts[0])| ==> Blanked(text)[i + k] == Copied(ts[0], ts[1..])[k]
  {
    hide ModeAt, IsComment, IsTrailing, Stands, TokenFits, SpellToken, ContentFrom, Closes, Holds, Copied, Blanked;
    NextStands(text, i, ts);
    StandsIn(text, i, ts);
    if ts[0].Byte? {
      ByteIs(ts[0]);
      HoldsIn(text, i, [ts[0].c]);
      HoldsAt(text, i, [ts[0].c], 0);
      QuoteFits(ts[0]);
      ByteStands(text, i, ts[0].c);
      ClosesMeans(text, i + 1, ts[1..]);
      TrailingMeans(text, i);
      ByteCopied(text, i, ts[0], ts[1..]);
    } else {
      PieceCopied(text, i, ts[0], ts[1..]);
    }
  }

  lemma ByteIs(t: Token)
    requires t.Byte?
    ensures SpellToken(t) == [t.c]
  {
  }

  lemma ByteCopied(text: string, i: nat, t: Token, rest: seq<Token>)
    requires t.Byte? && i < |text| && text[i] == t.c && !IsComment(text, i)
    requires IsTrailing(text, i) <==> t.c == ',' && Closes(rest)
    ensures |Copied(t, rest)| == |SpellToken(t)| == 1 && Blanked(text)[i] == Copied(t, rest)[0]
  {
    hide IsComment, IsTrailing, Closes;
  }

  /** A string or a comment of the copy. */
  lemma PieceCopied(text: string, i: nat, t: Token, rest: seq<Token>)
    requires !t.Byte? && Holds(text, i, SpellToken(t)) && ModeAt(text, i) == Code && TokenFits(t)
    ensures |Copied(t, rest)| == |SpellToken(t)| && i + |SpellToken(t)| <= |text|
    ensures forall k :: 0 <= k < |SpellToken(t)| ==> Blanked(text)[i + k] == Copied(t, rest)[k]
  {
    hide ModeAt, IsComment, IsTrailing, TokenFits, SpellUnits, ContentFrom, Closes, Holds;
    HoldsIn(text, i, SpellToken(t));
    var w := SpellToken(t);
    QuoteFits(t);
    forall k | 0 <= k < |w| ensures text[i + k] == w[k] { HoldsAt(text, i, w, k); }
    match t
    case Quoted(us) => QuotedStands(text, i, us);
    case Remark(note) => RemarkStands(text, i, note);
    case Note(note) => NoteStands(text, i, note);
  }

  lemma StandsIn(text: string, i: nat, ts: seq<Token>)
    requires Stands(text, i, ts)
    ensures i <= |text| && ModeAt(text, i) == Code
  {
  }

  lemma TrailingMeans(text: string, i: nat)
    requires i < |text| && ModeAt(text, i) == Code
    ensures IsTrailing(text, i) <==> text[i] == ',' && (At(text, ContentFrom(text, i + 1), '}') || At(text, ContentFrom(text, i + 1), ']'))
  {
    hide ModeAt, ContentFrom;
  }

  lemma {:induction false} RestCopied(text: string, i: nat, ts: seq<Token>)
    requires Stands(text, i, ts)
    ensures Blanked(text)[i..] == CopyOf(ts)
    decreases |ts|
  {
    hide Blanked, Stands, SpellToken, Copied;
    StandsIn(text, i, ts);
    if ts == [] {
      NothingStands(text, i);
    } else {
      NextStands(text, i, ts);
      TokenCopied(text, i, ts);
      var n := |SpellToken(ts[0])|;
      RestCopied(text, i + n, ts[1..]);
      assert Blanked(text)[i..] == Blanked(text)[i..i + n] + Blanked(text)[i + n..];
      assert Blanked(text)[i..i + n] == Copied(ts[0], ts[1..]);
    }
  }

  /** The copy of every file made of strings, comments and other bytes is the same bytes, with
      the comments and the trailing commas blanked. */
  lemma CopyIsStated(ts: seq<Token>)
    requires AllFit(ts)
    ensures Blanked(SpellAll(ts)) == CopyOf(ts)
  {
    var text := SpellAll(ts);
    StartsInCode(text);
    assert text[0..] == text;
    hide SpellAll, AllFit, Blanked;
    RestCopied(text, 0, ts);
    assert Blanked(text)[0..] == Blanked(text);
  }
}
