/** A configuration file as a document of lines, and the line edit that changes it
    (internal/configfile/configfile.go). */
module Document {
  import opened Text

  /** A file split into lines, with everything needed to write it back. */
  datatype Doc = Doc(lines: seq<string>, crlf: bool, bom: bool, finalNewline: bool)

  const BYTE_ORDER_MARK := "\U{EF}\U{BB}\U{BF}"

  /** strings.ReplaceAll(s, "\r\n", "\n"). */
  function Collapse(s: string): string {
    if s == [] then []
    else if HasPrefix(s, "\r\n") then "\n" + Collapse(s[2..])
    else [s[0]] + Collapse(s[1..])
  }

  /** strings.Split(s, "\n"). */
  function Split(s: string): (lines: seq<string>)
    ensures lines != []
  {
    match IndexByte(s, '\n')
    case None => [s]
    case Some(i) => [s[..i]] + Split(s[i + 1..])
  }

  function WithoutMark(data: string): string {
    if HasPrefix(data, BYTE_ORDER_MARK) then data[|BYTE_ORDER_MARK|..] else data
  }

  /** The style of the first line ending is the style of the file. */
  predicate FirstEndingIsCRLF(text: string) {
    match IndexByte(text, '\n')
    case None => false
    case Some(i) => i > 0 && text[i - 1] == '\r'
  }

  function NewDoc(data: string): Doc {
    var text := WithoutMark(data);
    var joined := Collapse(text);
    var final := HasSuffix(joined, "\n");
    var body := if final then joined[..|joined| - 1] else joined;
    Doc(
      if body == [] && !final then [] else Split(body),
      FirstEndingIsCRLF(text),
      HasPrefix(data, BYTE_ORDER_MARK),
      final)
  }

  function Ending(d: Doc): string {
    if d.crlf then "\r\n" else "\n"
  }

  /** Lines written one after the other, every one but the last ended by eol, and the
      last one too when final is set. */
  function Written(lines: seq<string>, eol: string, final: bool): string {
    if lines == [] then []
    else lines[0] + (if |lines| > 1 || final then eol else []) + Written(lines[1..], eol, final)
  }

  function Rendered(d: Doc): string {
    (if d.bom then BYTE_ORDER_MARK else []) + Written(d.lines, Ending(d), d.finalNewline)
  }

  lemma {:induction false} WrittenSnoc(lines: seq<string>, last: string, eol: string, final: bool)
    ensures Written(lines + [last], eol, final) == Written(lines, eol, true) + last + if final then eol else []
  {
    if lines == [] {
      assert lines + [last] == [last];
    } else {
      WrittenSnoc(lines[1..], last, eol, final);
      assert (lines + [last])[1..] == lines[1..] + [last];
    }
  }

  /** The buffer loop of Bytes writes exactly the rendering. */
  method Bytes(d: Doc) returns (b: string)
    ensures b == Rendered(d)
  {
    b := if d.bom then BYTE_ORDER_MARK else [];
    var end := Ending(d);
    ghost var mark := b;
    var i := 0;
    hide *;
    WrittenNone(end, |d.lines| > 0 || d.finalNewline);
    assert d.lines[..0] == [] && mark + [] == mark;
    while i < |d.lines|
      invariant i <= |d.lines|
      invariant b == mark + Written(d.lines[..i], end, i < |d.lines| || d.finalNewline)
    {
      ghost var final := i + 1 < |d.lines| || d.finalNewline;
      WrittenSnoc(d.lines[..i], d.lines[i], end, final);
      assert d.lines[..i + 1] == d.lines[..i] + [d.lines[i]];
      Appended(mark, Written(d.lines[..i], end, true), d.lines[i], if final then end else []);
      b := b + d.lines[i];
      if i < |d.lines| - 1 || d.finalNewline {
        b := b + end;
      }
      i := i + 1;
    }
    assert d.lines[..i] == d.lines;
    RenderedIs(d);
  }

  lemma RenderedIs(d: Doc)
    ensures Rendered(d) == (if d.bom then BYTE_ORDER_MARK else []) + Written(d.lines, Ending(d), d.finalNewline)
  {
    hide Written;
  }

  lemma Appended(mark: string, before: string, line: string, end: string)
    ensures mark + before + line + end == mark + (before + line + end)
    ensures mark + before + line == mark + (before + line + [])
  {
  }

  // ---- the round trip of a file nobody edited ----

  predicate AfterCR(s: string, i: nat)
    requires i < |s|
  {
    i > 0 && s[i - 1] == '\r'
  }

  /** Every line ending of the file is of the same style. A carriage return that no
      newline follows is not a line ending. */
  predicate OneStyle(s: string) {
    forall i, j :: 0 <= i < |s| && 0 <= j < |s| && s[i] == '\n' && s[j] == '\n' ==> AfterCR(s, i) == AfterCR(s, j)
  }

  predicate Endings(s: string, crlf: bool) {
    forall i :: 0 <= i < |s| && s[i] == '\n' ==> AfterCR(s, i) == crlf
  }

  function Widened(c: char, eol: string): string {
    if c == '\n' then eol else [c]
  }

  /** A text with every newline replaced by eol. */
  function Expand(s: string, eol: string): string {
    if s == [] then [] else Widened(s[0], eol) + Expand(s[1..], eol)
  }

  lemma EndingsTail(s: string, k: nat, crlf: bool)
    requires k <= |s| && (k > 0 && k < |s| ==> s[k] == '\n' ==> s[k - 1] != '\r')
    requires k == 2 ==> s[..2] == "\r\n"
    requires k == 1 ==> (s[0] == '\n' ==> !crlf)
    requires 1 <= k <= 2
    ensures k == 2 && !crlf ==> !Endings(s, crlf)
    ensures k == 1 || crlf ==> (Endings(s, crlf) <==> Endings(s[k..], crlf))
  {
    var t := s[k..];
    if k == 2 && !crlf {
      assert s[1] == '\n' && AfterCR(s, 1);
    }
    if k == 1 || crlf {
      if Endings(s, crlf) {
        forall i | 0 <= i < |t| && t[i] == '\n' ensures AfterCR(t, i) == crlf {
          assert s[i + k] == '\n' && AfterCR(s, i + k) == crlf;
          if i == 0 {
            assert !AfterCR(s, k);
          }
        }
      }
      if Endings(t, crlf) {
        forall i | 0 <= i < |s| && s[i] == '\n' ensures AfterCR(s, i) == crlf {
          if i >= k {
            assert t[i - k] == '\n' && AfterCR(t, i - k) == crlf;
            if i == k {
              assert s[k] == '\n' && s[k - 1] != '\r';
            }
          }
        }
      }
    }
  }

  /** Writing back with newlines restores a text exactly when it holds no CRLF. */
  lemma {:induction false} CollapseUndone(s: string)
    ensures |Collapse(s)| <= |s|
    ensures Collapse(s) == s <==> Endings(s, false)
  {
    if s == [] {
    } else if HasPrefix(s, "\r\n") {
      CollapseUndone(s[2..]);
      assert s[1] == '\n' && AfterCR(s, 1);
      assert |Collapse(s)| < |s|;
    } else {
      CollapseUndone(s[1..]);
      EndingsTail(s, 1, false);
      assert s == [s[0]] + s[1..];
      if Collapse(s) == s {
        assert Collapse(s)[1..] == Collapse(s[1..]);
      }
    }
  }

  /** Writing back with CRLF restores a text exactly when every newline had one. */
  lemma {:induction false} ExpandUndone(s: string)
    ensures |Expand(Collapse(s), "\r\n")| >= |s|
    ensures Expand(Collapse(s), "\r\n") == s <==> Endings(s, true)
  {
    if s == [] {
    } else if HasPrefix(s, "\r\n") {
      var t := s[2..];
      ExpandUndone(t);
      assert Collapse(s) == ['\n'] + Collapse(t) && (['\n'] + Collapse(t))[1..] == Collapse(t);
      assert s == "\r\n" + t;
      EndingsTail(s, 2, true);
      assert Expand(Collapse(s), "\r\n") == "\r\n" + Expand(Collapse(t), "\r\n");
      if Expand(Collapse(s), "\r\n") == s {
        assert Expand(Collapse(s), "\r\n")[2..] == Expand(Collapse(t), "\r\n");
      }
    } else {
      ExpandUndoneStep(s);
    }
  }

  lemma {:induction false} ExpandUndoneStep(s: string)
    requires s != [] && !HasPrefix(s, "\r\n")
    ensures |Expand(Collapse(s), "\r\n")| >= |s|
    ensures Expand(Collapse(s), "\r\n") == s <==> Endings(s, true)
    decreases s, 0
  {
    var eol := "\r\n";
    var t := s[1..];
    ExpandUndone(t);
    var ct, cs := Collapse(t), Collapse(s);
    assert cs == [s[0]] + ct && cs[1..] == ct && cs[0] == s[0];
    assert s == [s[0]] + t;
    assert Expand(cs, eol) == Widened(s[0], eol) + Expand(ct, eol);
    hide Collapse, Expand;
    if s[0] == '\n' {
      assert !AfterCR(s, 0);
      assert |Expand(cs, eol)| > |s|;
    } else {
      EndingsTail(s, 1, true);
      assert Expand(cs, eol) == [s[0]] + Expand(ct, eol);
      if Expand(cs, eol) == s {
        assert Expand(cs, eol)[1..] == Expand(ct, eol);
      }
    }
  }

  lemma {:induction false} ExpandConcat(a: string, b: string, eol: string)
    ensures Expand(a + b, eol) == Expand(a, eol) + Expand(b, eol)
  {
    hide *;
    ExpandFirst(a, eol);
    ExpandFirst(a + b, eol);
    if a == [] {
      assert a + b == b && [] + Expand(b, eol) == Expand(b, eol);
    } else {
      ExpandConcat(a[1..], b, eol);
      TailOf(a, b, 1);
      Grouped(Widened(a[0], eol), Expand(a[1..], eol), Expand(b, eol));
    }
  }

  lemma ExpandFirst(s: string, eol: string)
    ensures s == [] ==> Expand(s, eol) == []
    ensures s != [] ==> Expand(s, eol) == Widened(s[0], eol) + Expand(s[1..], eol)
  {
    hide Widened;
  }

  /** Nothing to replace, or newlines replaced by themselves. */
  lemma {:induction false} ExpandSame(s: string, eol: string)
    requires '\n' !in s || eol == ['\n']
    ensures Expand(s, eol) == s
  {
    if s != [] {
      ExpandSame(s[1..], eol);
      assert s == [s[0]] + s[1..];
    }
  }

  lemma SplitStep(s: string)
    ensures
      match IndexByte(s, '\n')
      case None => Split(s) == [s]
      case Some(i) => Split(s) == [s[..i]] + Split(s[i + 1..])
  {
    hide IndexByte;
  }

  lemma WrittenStep(line: string, lines: seq<string>, eol: string, final: bool)
    ensures Written([line] + lines, eol, final) ==
            line + (if lines != [] || final then eol else []) + Written(lines, eol, final)
  {
    assert ([line] + lines)[1..] == lines;
  }

  /** Splitting a text and writing it back replaces its newlines by the ending. */
  lemma {:induction false} SplitWritten(s: string, eol: string, final: bool)
    ensures Written(Split(s), eol, final) == Expand(s, eol) + if final then eol else []
  {
    hide *;
    SplitStep(s);
    match IndexByte(s, '\n') {
      case None =>
        ExpandSame(s, eol);
        WrittenStep(s, [], eol, final);
        assert [s] + [] == [s];
        WrittenNone(eol, final);
      case Some(i) =>
        var a, b := s[..i], s[i + 1..];
        SplitWritten(b, eol, final);
        ExpandSame(a, eol);
        WrittenStep(a, Split(b), eol, final);
        assert s == a + (['\n'] + b);
        ExpandConcat(a, ['\n'] + b, eol);
        ExpandConcat(['\n'], b, eol);
        ExpandOne(eol);
    }
  }

  lemma ExpandOne(eol: string)
    ensures Expand(['\n'], eol) == eol
  {
    assert ['\n'][1..] == [];
  }

  lemma WrittenNone(eol: string, final: bool)
    ensures Written([], eol, final) == []
  {
  }

  /** Endings(text, FirstEndingIsCRLF(text)) is what one style means. */
  lemma StyleIsFirst(data: string)
    ensures OneStyle(data) <==> Endings(WithoutMark(data), FirstEndingIsCRLF(WithoutMark(data)))
  {
    var text := WithoutMark(data);
    var k := |data| - |text|;
    assert data[k..] == text;
    assert forall i :: 0 <= i < k ==> data[i] in BYTE_ORDER_MARK;
    assert forall i :: 0 <= i < |text| ==> AfterCR(text, i) == AfterCR(data, i + k);
    var crlf := FirstEndingIsCRLF(text);
    match IndexByte(text, '\n') {
      case None =>
        forall i | 0 <= i < |data| ensures data[i] != '\n' {
          if i >= k { assert data[i] == text[i - k]; }
        }
      case Some(f) =>
        assert AfterCR(text, f) == crlf;
        if OneStyle(data) {
          forall i | 0 <= i < |text| && text[i] == '\n' ensures AfterCR(text, i) == crlf {
            assert data[i + k] == '\n' && data[f + k] == '\n';
          }
        }
        if Endings(text, crlf) {
          forall i | 0 <= i < |data| && data[i] == '\n' ensures AfterCR(data, i) == crlf {
            assert text[i - k] == '\n';
          }
        }
    }
  }

  /** The document's lines, written with any ending, are the collapsed text with that
      ending. */
  lemma LinesWritten(data: string, eol: string)
    ensures
      var d := NewDoc(data);
      Written(d.lines, eol, d.finalNewline) == Expand(Collapse(WithoutMark(data)), eol)
  {
    var d, joined := NewDoc(data), Collapse(WithoutMark(data));
    var final := d.finalNewline;
    var body := if final then joined[..|joined| - 1] else joined;
    hide Expand, Written, Collapse, Split, WithoutMark, FirstEndingIsCRLF;
    assert joined == body + if final then ['\n'] else [] by {
      if final { assert joined[|joined| - 1] == '\n'; }
    }
    SplitWritten(body, eol, final);
    ExpandConcat(body, if final then ['\n'] else [], eol);
    ExpandOne(eol);
    ExpandSame([], eol);
    WrittenNone(eol, final);
  }

  /** A file read and written back unedited is the same file, byte for byte, exactly
      when its line endings are all of one style. */
  lemma RoundTrip(data: string)
    ensures Rendered(NewDoc(data)) == data <==> OneStyle(data)
  {
    var d, text := NewDoc(data), WithoutMark(data);
    var crlf := FirstEndingIsCRLF(text);
    var mark := if d.bom then BYTE_ORDER_MARK else [];
    assert data == mark + text;
    assert d.crlf == crlf && Rendered(d) == mark + Written(d.lines, Ending(d), d.finalNewline);
    assert Ending(d) == if crlf then "\r\n" else "\n";
    hide *;
    StyleIsFirst(data);
    LinesWritten(data, Ending(d));
    var joined := Collapse(text);
    CollapseUndone(text);
    ExpandUndone(text);
    ExpandSame(joined, ['\n']);
    if Rendered(d) == data {
      assert Rendered(d)[|mark|..] == text;
      assert Expand(joined, Ending(d)) == text;
    }
  }

  // ---- edits ----

  /** Lines start..end, 1-based and inclusive, become other lines; an end below start
      inserts before start. */
  datatype Edit = Edit(start: int, end: int, lines: seq<string>) {
    predicate Insertion() { end < start }
  }

  /** Whether a file of n lines has the range an edit names. */
  predicate InRange(n: nat, e: Edit) {
    && 1 <= e.start <= n + 1
    && (e.Insertion() || e.end <= n)
  }

  function Replaced(lines: seq<string>, e: Edit): seq<string>
    requires InRange(|lines|, e)
  {
    lines[..e.start - 1] + e.lines + if e.Insertion() then lines[e.start - 1..] else lines[e.end..]
  }

  function Apply(d: Doc, e: Edit): Option<Doc> {
    if e.start < 1 || e.start > |d.lines| + 1 then None
    else if !e.Insertion() && (e.end < e.start || e.end > |d.lines|) then None
    else
      var lines := Replaced(d.lines, e);
      Some(d.(lines := lines, finalNewline := d.finalNewline || |lines| > |d.lines|))
  }

  /** How many lines an edit takes away. */
  function Removed(e: Edit): nat {
    if e.Insertion() then 0 else e.end - e.start + 1
  }

  /** Apply succeeds exactly on a range the file has, and then every line before the
      range and every line after it is the line it was, in order; the new lines stand
      between them; and the file ends with a newline if it did or if it grew. */
  lemma ApplyFrame(d: Doc, e: Edit)
    ensures Apply(d, e).Some? <==> 1 <= e.start <= |d.lines| + 1 - Removed(e)
    ensures Apply(d, e).Some? ==>
              var n := Apply(d, e).value;
              && |n.lines| == |d.lines| - Removed(e) + |e.lines|
              && (forall i :: 0 <= i < e.start - 1 ==> n.lines[i] == d.lines[i])
              && (forall i :: 0 <= i < |e.lines| ==> n.lines[e.start - 1 + i] == e.lines[i])
              && (forall i :: e.start - 1 + Removed(e) <= i < |d.lines| ==>
                  n.lines[i - Removed(e) + |e.lines|] == d.lines[i])
              && n.crlf == d.crlf && n.bom == d.bom
              && (n.finalNewline <==> d.finalNewline || |e.lines| > Removed(e))
  {
  }

  // ---- what is written reads back ----

  /** A document that some file reads as: no line holds a newline or ends in a carriage
      return, and the flags describe endings that are there to be read. */
  predicate Readable(d: Doc) {
    && (forall l :: l in d.lines ==> Ended(l))
    && (d.lines == [] || d.lines[|d.lines| - 1] == [] ==> d.finalNewline == (d.lines != []))
    && (|d.lines| < 2 && !d.finalNewline ==> !d.crlf)
    && (!d.bom && d.lines != [] ==> !HasPrefix(d.lines[0], BYTE_ORDER_MARK))
  }

  /** A line no newline is in and no carriage return ends. */
  predicate Ended(line: string) {
    '\n' !in line && (line != [] ==> line[|line| - 1] != '\r')
  }

  lemma {:induction false} CollapseLine(line: string, rest: string)
    requires Ended(line)
    ensures Collapse(line + rest) == line + Collapse(rest)
  {
    hide Collapse;
    if line == [] {
      assert line + rest == rest && [] + Collapse(rest) == Collapse(rest);
    } else {
      TailOf(line, rest, 1);
      CollapseLine(line[1..], rest);
      NoBreak(line, rest);
      CollapseFirst(line + rest);
      Grouped([line[0]], line[1..], Collapse(rest));
    }
  }

  lemma NoBreak(line: string, rest: string)
    requires Ended(line) && line != []
    ensures line + rest != [] && !HasPrefix(line + rest, "\r\n") && (line + rest)[0] == line[0] && Ended(line[1..])
  {
    var s := line + rest;
    var tail := line[1..];
    assert forall x :: x in tail ==> x in line;
    assert |s| >= 2 ==> s[..2][0] == s[0] == line[0] && s[..2][1] == s[1];
    if |line| > 1 {
      assert s[1] == line[1] && line[1] in line;
      assert tail[|tail| - 1] == line[|line| - 1];
    }
  }

  lemma CollapseFirst(s: string)
    requires s != [] && !HasPrefix(s, "\r\n")
    ensures Collapse(s) == [s[0]] + Collapse(s[1..])
  {
  }

  lemma CollapseEnding(eol: string, rest: string)
    requires eol == "\n" || eol == "\r\n"
    ensures Collapse(eol + rest) == "\n" + Collapse(rest)
  {
    assert (eol + rest)[|eol|..] == rest;
  }

  /** The text of a readable document collapses to its lines joined by newlines. */
  lemma {:induction false} CollapseWritten(lines: seq<string>, eol: string, final: bool)
    requires eol == "\n" || eol == "\r\n"
    requires forall l :: l in lines ==> Ended(l)
    ensures Collapse(Written(lines, eol, final)) == Written(lines, "\n", final)
  {
    hide Collapse, Ended, Written;
    if lines == [] {
      WrittenNone(eol, final);
      WrittenNone("\n", final);
      CollapseNone();
    } else {
      var line, others := lines[0], lines[1..];
      assert lines == [line] + others && line in lines;
      WrittenStep(line, others, eol, final);
      WrittenStep(line, others, "\n", final);
      CollapseWritten(others, eol, final);
      var rest := Written(others, eol, final);
      if others != [] || final {
        assert line + eol + rest == line + (eol + rest);
        CollapseLine(line, eol + rest);
        CollapseEnding(eol, rest);
      } else {
        WrittenNone(eol, final);
        WrittenNone("\n", final);
        CollapseLine(line, []);
        CollapseNone();
        assert line + [] + [] == line + [] == line;
      }
    }
  }

  lemma CollapseNone()
    ensures Collapse([]) == []
  {
  }

  lemma FirstNewline(line: string, rest: string)
    requires '\n' !in line
    ensures IndexByte(line + ['\n'] + rest, '\n') == Some(|line|)
  {
    hide IndexByte;
    var s := line + ['\n'] + rest;
    assert s[|line|] == '\n';
    var i := IndexByte(s, '\n').value;
    forall k | 0 <= k < |line| ensures s[k] != '\n' {
      assert s[k] == line[k] && line[k] in line;
    }
    forall k | 0 <= k < i ensures s[k] != '\n' {
      assert s[k] == s[..i][k];
    }
  }

  lemma {:induction false} SplitJoined(lines: seq<string>)
    requires lines != []
    requires forall l :: l in lines ==> '\n' !in l
    ensures Split(Written(lines, ['\n'], false)) == lines
  {
    hide *;
    var line, others := lines[0], lines[1..];
    assert lines == [line] + others && line in lines;
    WrittenStep(line, others, ['\n'], false);
    var rest := Written(others, ['\n'], false);
    if others == [] {
      WrittenNone(['\n'], false);
      assert line + [] + rest == line;
      SplitStep(line);
    } else {
      SplitJoined(others);
      var s := line + ['\n'] + rest;
      FirstNewline(line, rest);
      SplitStep(s);
      assert s[..|line|] == line && s[|line| + 1..] == rest;
    }
  }

  lemma {:induction false} FinalEnding(lines: seq<string>, eol: string)
    ensures Written(lines, eol, true) == Written(lines, eol, false) + if lines != [] then eol else []
  {
    if lines != [] {
      FinalEnding(lines[1..], eol);
    }
  }

  /** A text with no final ending ends with a byte of its last line. */
  lemma LastByte(lines: seq<string>)
    requires lines != [] && lines != [[]]
    requires forall l :: l in lines ==> '\n' !in l
    ensures
      var s := Written(lines, ['\n'], false);
      s != [] && (s[|s| - 1] == '\n' <==> lines[|lines| - 1] == [])
  {
    hide Written;
    var init, last := lines[..|lines| - 1], lines[|lines| - 1];
    assert lines == init + [last] && last in lines;
    WrittenSnoc(init, last, ['\n'], false);
    var s := Written(lines, ['\n'], false);
    if last != [] {
      assert s[|s| - 1] == last[|last| - 1];
      assert s[|s| - 1] in last;
    } else {
      assert init != [];
      FinalEnding(init, ['\n']);
    }
  }

  lemma WrittenHead(lines: seq<string>, eol: string, final: bool)
    requires lines != []
    ensures
      var s := Written(lines, eol, final);
      var line := lines[0];
      HasPrefix(s, line) && (|lines| > 1 || final ==> HasPrefix(s, line + eol)) && (|lines| == 1 && !final ==> s == line)
  {
    assert lines == [lines[0]] + lines[1..];
    WrittenStep(lines[0], lines[1..], eol, final);
    hide Written;
    if |lines| == 1 {
      assert lines[1..] == [];
      WrittenNone(eol, final);
    }
  }

  /** The mark is three bytes no line ending is made of. */
  lemma MarkIsFirst(line: string, eol: string, s: string)
    requires eol == "\n" || eol == "\r\n"
    requires s == line || HasPrefix(s, line + eol)
    requires HasPrefix(s, BYTE_ORDER_MARK)
    ensures HasPrefix(line, BYTE_ORDER_MARK)
  {
    forall k | 0 <= k < 3 ensures s[k] == BYTE_ORDER_MARK[k] {
      assert s[k] == s[..3][k];
    }
    if s != line {
      assert s[|line|] == s[..|line + eol|][|line|] == eol[0];
    }
    assert s[..|line|] == line;
    assert line[..3] == s[..3];
  }

  /** The style of the first ending reads back. */
  lemma StyleReadsBack(d: Doc)
    requires Readable(d)
    ensures FirstEndingIsCRLF(Written(d.lines, Ending(d), d.finalNewline)) == d.crlf
  {
    var eol := Ending(d);
    var s := Written(d.lines, eol, d.finalNewline);
    hide Written, IndexByte, HasPrefix;
    if d.lines == [] {
      WrittenNone(eol, d.finalNewline);
    } else {
      WrittenHead(d.lines, eol, d.finalNewline);
      var line := d.lines[0];
      assert line in d.lines;
      if |d.lines| > 1 || d.finalNewline {
        var before := if d.crlf then line + ['\r'] else line;
        assert line + eol == before + ['\n'];
        Prefixed(s, line + eol);
        var rest := s[|before| + 1..];
        assert s == before + ['\n'] + rest;
        FirstNewline(before, rest);
        assert s[..|before|] == before;
        if before != [] { assert s[|before| - 1] == before[|before| - 1]; }
      }
    }
  }

  lemma Prefixed(s: string, p: string)
    requires HasPrefix(s, p)
    ensures |p| <= |s| && s == p + s[|p|..]
  {
  }

  /** Whether the mark is there reads back. */
  lemma MarkReadsBack(d: Doc)
    requires Readable(d)
    ensures HasPrefix(Rendered(d), BYTE_ORDER_MARK) == d.bom
    ensures WithoutMark(Rendered(d)) == Written(d.lines, Ending(d), d.finalNewline)
  {
    var eol := Ending(d);
    var s := Written(d.lines, eol, d.finalNewline);
    if d.bom {
      assert Rendered(d)[..3] == BYTE_ORDER_MARK && Rendered(d)[3..] == s;
    } else {
      assert Rendered(d) == s;
      if d.lines == [] {
        WrittenNone(eol, d.finalNewline);
      } else {
        WrittenHead(d.lines, eol, d.finalNewline);
        hide Written;
        if HasPrefix(s, BYTE_ORDER_MARK) {
          MarkIsFirst(d.lines[0], eol, s);
        }
      }
    }
  }

  /** The joined lines of a readable document split into its lines again. */
  lemma JoinedSplits(d: Doc)
    requires Readable(d)
    ensures
      var joined := Written(d.lines, ['\n'], d.finalNewline);
      && d.finalNewline == (joined != [] && joined[|joined| - 1] == '\n')
      && var body := if d.finalNewline then joined[..|joined| - 1] else joined;
         d.lines == if body == [] && !d.finalNewline then [] else Split(body)
  {
    hide Written, Split, HasPrefix, Ending;
    var joined := Written(d.lines, ['\n'], d.finalNewline);
    var plain := Written(d.lines, ['\n'], false);
    if d.lines == [] {
      WrittenNone(['\n'], false);
    } else {
      assert forall l :: l in d.lines ==> Ended(l);
      SplitJoined(d.lines);
      if d.finalNewline {
        FinalEnding(d.lines, ['\n']);
        assert joined[..|joined| - 1] == plain;
      } else {
        LastByte(d.lines);
      }
    }
  }

  /** What NewDoc makes of a text whose collapsed form is known. */
  lemma NewDocOf(data: string, d: Doc, joined: string)
    requires Collapse(WithoutMark(data)) == joined
    requires HasPrefix(data, BYTE_ORDER_MARK) == d.bom && FirstEndingIsCRLF(WithoutMark(data)) == d.crlf
    requires d.finalNewline == (joined != [] && joined[|joined| - 1] == '\n')
    requires
      var body := if d.finalNewline then joined[..|joined| - 1] else joined;
      d.lines == if body == [] && !d.finalNewline then [] else Split(body)
    ensures NewDoc(data) == d
  {
    hide Collapse, Split, FirstEndingIsCRLF, WithoutMark;
    if joined != [] {
      assert joined[|joined| - 1..] == [joined[|joined| - 1]];
    }
  }

  lemma CollapseRendered(d: Doc)
    requires Readable(d)
    ensures Collapse(Written(d.lines, Ending(d), d.finalNewline)) == Written(d.lines, ['\n'], d.finalNewline)
  {
    hide Collapse, Written;
    assert "\n" == ['\n'];
    CollapseWritten(d.lines, Ending(d), d.finalNewline);
  }

  /** A readable document written to disk and read again is the same document. */
  lemma ReadBack(d: Doc)
    requires Readable(d)
    ensures NewDoc(Rendered(d)) == d
  {
    hide *;
    MarkReadsBack(d);
    StyleReadsBack(d);
    JoinedSplits(d);
    CollapseRendered(d);
    NewDocOf(Rendered(d), d, Written(d.lines, ['\n'], d.finalNewline));
  }
}
