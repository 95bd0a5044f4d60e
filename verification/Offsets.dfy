/** The index that turns an offset into a line and a column, shared by the json and the
    toml reader (internal/configfile/json.go and toml.go: the line starts, line, column
    and the edit both make of them). */
module Offsets {
  import opened Document

  /** The text of a document: its lines joined by newlines. */
  function Joined(lines: seq<string>): string {
    Written(lines, "\n", false)
  }

  /** The 1-based line an offset falls on: one more than the newlines before it. */
  function LineOf(text: string, off: nat): (n: nat)
    requires off <= |text|
    ensures n >= 1
  {
    if off == 0 then 1
    else LineOf(text, off - 1) + if text[off - 1] == '\n' then 1 else 0
  }

  /** The bytes between an offset and the newline before it. */
  function ColumnOf(text: string, off: nat): (n: nat)
    requires off <= |text|
    ensures n <= off
    ensures forall i :: off - n <= i < off ==> text[i] != '\n'
    ensures n < off ==> text[off - n - 1] == '\n'
  {
    if off == 0 || text[off - 1] == '\n' then 0 else 1 + ColumnOf(text, off - 1)
  }

  // ---- the index ----

  /** The offset every line begins at. */
  function Starts(text: string): (s: seq<nat>)
    ensures s != []
    ensures forall k :: 0 <= k < |s| ==> s[k] <= |text|
  {
    if text == [] then [0]
    else
      var n := |text|;
      Starts(text[..n - 1]) + if text[n - 1] == '\n' then [n] else []
  }

  method LineStarts(text: string) returns (starts: seq<nat>)
    ensures starts == Starts(text)
  {
    starts := [0];
    for i := 0 to |text|
      invariant starts == Starts(text[..i])
    {
      assert text[..i + 1][..i] == text[..i];
      if text[i] == '\n' {
        starts := starts + [i + 1];
      }
    }
    assert text[..|text|] == text;
  }

  lemma {:induction false} StartsCount(text: string)
    ensures |Starts(text)| == LineOf(text, |text|)
    ensures Starts(text)[|Starts(text)| - 1] == |text| - ColumnOf(text, |text|)
  {
    var m := |text|;
    if m > 0 {
      var init := text[..m - 1];
      StartsCount(init);
      SamePrefix(text, init, m - 1);
    }
  }

  /** The starts up to an offset: as many as its line number, the last of them the start
      of its line, the next one past it. */
  lemma {:induction false} StartsUpTo(text: string, off: nat)
    requires off <= |text|
    ensures
      var s, n := Starts(text), LineOf(text, off);
      && n <= |s|
      && s[n - 1] == off - ColumnOf(text, off)
      && (forall k :: 0 <= k < n ==> s[k] <= off)
      && (forall k :: n <= k < |s| ==> s[k] > off)
    decreases |text|
  {
    hide LineOf, ColumnOf;
    var m := |text|;
    if off == m {
      StartsCount(text);
    } else {
      var init := text[..m - 1];
      StartsUpTo(init, off);
      assert text[..off] == init[..off];
      SamePrefix(text, init, off);
    }
  }

  lemma {:induction false} SamePrefix(a: string, b: string, off: nat)
    requires off <= |a| && off <= |b| && a[..off] == b[..off]
    ensures LineOf(a, off) == LineOf(b, off) && ColumnOf(a, off) == ColumnOf(b, off)
  {
    if off > 0 {
      assert a[..off][off - 1] == b[..off][off - 1];
      assert a[..off - 1] == a[..off][..off - 1] && b[..off - 1] == b[..off][..off - 1];
      SamePrefix(a, b, off - 1);
    }
  }

  /** line: the binary search of sort.Search. */
  method Line(starts: seq<nat>, ghost text: string, off: nat) returns (n: nat)
    requires starts == Starts(text) && off <= |text|
    ensures n == LineOf(text, off)
  {
    StartsUpTo(text, off);
    hide Starts;
    var lo, hi := 0, |starts|;
    while lo < hi
      invariant 0 <= lo <= LineOf(text, off) <= hi <= |starts|
    {
      var mid := (lo + hi) / 2;
      if starts[mid] > off {
        hi := mid;
      } else {
        lo := mid + 1;
      }
    }
    n := lo;
  }

  /** column. */
  method Column(starts: seq<nat>, ghost text: string, off: nat) returns (c: nat)
    requires starts == Starts(text) && off <= |text|
    ensures c == ColumnOf(text, off)
  {
    StartsUpTo(text, off);
    var n := Line(starts, text, off);
    c := off - starts[n - 1];
  }

  // ---- offsets and lines of a document ----

  /** Cutting the text at an offset cuts its line at its column. */
  predicate CutsAt(lines: seq<string>, off: nat)
    requires off <= |Joined(lines)|
  {
    var text := Joined(lines);
    var n, c := LineOf(text, off), ColumnOf(text, off);
    && n <= |lines| && c <= |lines[n - 1]|
    && text[..off] == Joined(lines[..n - 1] + [lines[n - 1][..c]])
    && text[off..] == Joined([lines[n - 1][c..]] + lines[n..])
  }

  lemma CutsFirst(l: string, rest: seq<string>, off: nat)
    requires '\n' !in l && off <= |l|
    ensures off <= |Joined([l] + rest)| && CutsAt([l] + rest, off)
  {
    hide Written, LineOf, ColumnOf;
    var lines := [l] + rest;
    var text := Joined(lines);
    WrittenStep(l, rest, "\n", false);
    WrittenNone("\n", false);
    WrittenStep(l[off..], rest, "\n", false);
    assert forall i :: 0 <= i < off ==> text[i] == l[i] && l[i] in l;
    InFirstLine(text, off);
    Alone(l[..off]);
    assert lines[..0] + [l[..off]] == [l[..off]] && lines[1..] == rest;
    assert text[..off] == l[..off];
    assert text[off..] == l[off..] + text[|l|..];
  }

  lemma CutsLater(l: string, rest: seq<string>, k: nat)
    requires '\n' !in l && rest != [] && k <= |Joined(rest)| && CutsAt(rest, k)
    ensures |l| + 1 + k <= |Joined([l] + rest)| && CutsAt([l] + rest, |l| + 1 + k)
  {
    hide Written, LineOf, ColumnOf;
    var lines, tail := [l] + rest, Joined(rest);
    var text, off := Joined(lines), |l| + 1 + k;
    WrittenStep(l, rest, "\n", false);
    assert text == l + "\n" + tail;
    PastFirstLine(l, tail, k);
    var n, c := LineOf(tail, k), ColumnOf(tail, k);
    var head := rest[..n - 1] + [rest[n - 1][..c]];
    assert lines[n] == rest[n - 1] && lines[..n] == [l] + rest[..n - 1];
    assert lines[..n] + [lines[n][..c]] == [l] + head;
    WrittenStep(l, head, "\n", false);
    assert text[..off] == l + "\n" + tail[..k];
    assert text[off..] == tail[k..];
    assert lines[n + 1..] == rest[n..];
  }

  /** An offset in the text is a column in a line of the document: cutting the text there
      cuts that line there. */
  lemma {:induction false} OffsetIsColumn(lines: seq<string>, off: nat)
    requires lines != [] && off <= |Joined(lines)|
    requires forall l :: l in lines ==> '\n' !in l
    ensures CutsAt(lines, off)
    decreases |lines|
  {
    hide Written, CutsAt;
    var l, rest := lines[0], lines[1..];
    assert lines == [l] + rest && l in lines;
    WrittenStep(l, rest, "\n", false);
    WrittenNone("\n", false);
    if off <= |l| {
      CutsFirst(l, rest, off);
    } else {
      assert forall x :: x in rest ==> x in lines;
      OffsetIsColumn(rest, off - |l| - 1);
      CutsLater(l, rest, off - |l| - 1);
    }
  }

  lemma Alone(l: string)
    ensures Joined([l]) == l
  {
    assert [l] == [l] + [];
    WrittenStep(l, [], "\n", false);
    WrittenNone("\n", false);
    hide Written;
  }

  lemma {:induction false} InFirstLine(text: string, off: nat)
    requires off <= |text| && forall i :: 0 <= i < off ==> text[i] != '\n'
    ensures LineOf(text, off) == 1 && ColumnOf(text, off) == off
  {
    if off > 0 {
      InFirstLine(text, off - 1);
    }
  }

  lemma {:induction false} PastFirstLine(l: string, tail: string, k: nat)
    requires k <= |tail| && '\n' !in l
    ensures
      var text := l + "\n" + tail;
      LineOf(text, |l| + 1 + k) == 1 + LineOf(tail, k) && ColumnOf(text, |l| + 1 + k) == ColumnOf(tail, k)
  {
    var text := l + "\n" + tail;
    if k == 0 {
      assert forall i :: 0 <= i < |l| ==> text[i] == l[i] && l[i] in l;
      InFirstLine(text, |l|);
    } else {
      PastFirstLine(l, tail, k - 1);
      assert text[|l| + k] == tail[k - 1];
    }
  }

  /** Joining two runs of lines end to end. */
  lemma {:induction false} JoinedConcat(a: seq<string>, b: seq<string>)
    ensures Joined(a + b) == Joined(a) + (if a != [] && b != [] then "\n" else "") + Joined(b)
  {
    if a == [] {
      assert a + b == b;
    } else {
      assert a == [a[0]] + a[1..];
      assert a + b == [a[0]] + (a[1..] + b);
      WrittenStep(a[0], a[1..], "\n", false);
      WrittenStep(a[0], a[1..] + b, "\n", false);
      hide Written;
      JoinedConcat(a[1..], b);
    }
  }

  /** The last line of one run and the first of another, made one line. */
  lemma Glued(a: seq<string>, x: string, y: string, b: seq<string>)
    ensures Joined(a + [x + y] + b) == Joined(a + [x]) + Joined([y] + b)
  {
    hide Written;
    JoinedConcat(a + [x + y], b);
    JoinedConcat(a, [x + y]);
    JoinedConcat(a, [x]);
    JoinedConcat([y], b);
    Alone(x + y);
    Alone(x);
    Alone(y);
  }

  /** The edit Set makes of a byte range: everything on its first line before the range
      and everything on its last line after it stays. */
  function RangeEdit(lines: seq<string>, from: nat, to: nat, spelled: string): Edit
    requires lines != [] && (forall l :: l in lines ==> '\n' !in l) && from <= to <= |Joined(lines)|
  {
    OffsetIsColumn(lines, from);
    OffsetIsColumn(lines, to);
    var text := Joined(lines);
    var a, b := LineOf(text, from), LineOf(text, to);
    Edit(a, b, [lines[a - 1][..ColumnOf(text, from)] + spelled + lines[b - 1][ColumnOf(text, to)..]])
  }

  lemma {:induction false} LinesGrow(text: string, from: nat, to: nat)
    requires from <= to <= |text|
    ensures LineOf(text, from) <= LineOf(text, to)
  {
    if from < to {
      LinesGrow(text, from, to - 1);
    }
  }

  /** The edit of lines is the replacement of bytes: the text before the range, the new
      value, the text after it. */
  lemma EditIsSplice(lines: seq<string>, from: nat, to: nat, spelled: string)
    requires lines != [] && (forall l :: l in lines ==> '\n' !in l) && from <= to <= |Joined(lines)|
    ensures
      var text, e := Joined(lines), RangeEdit(lines, from, to, spelled);
      && InRange(|lines|, e)
      && Joined(Replaced(lines, e)) == text[..from] + spelled + text[to..]
  {
    hide Written, LineOf, ColumnOf;
    var text := Joined(lines);
    OffsetIsColumn(lines, from);
    OffsetIsColumn(lines, to);
    LinesGrow(text, from, to);
    var a, b, c, d := LineOf(text, from), LineOf(text, to), ColumnOf(text, from), ColumnOf(text, to);
    var x, y := lines[a - 1][..c], lines[b - 1][d..];
    Glued(lines[..a - 1], x, spelled + y, lines[b..]);
    Glued([], spelled, y, lines[b..]);
    Alone(spelled);
    assert [] + [spelled + y] + lines[b..] == [spelled + y] + lines[b..] && [] + [spelled] == [spelled];
    assert x + (spelled + y) == x + spelled + y;
    var e := RangeEdit(lines, from, to, spelled);
    assert Replaced(lines, e) == lines[..a - 1] + [x + spelled + y] + lines[b..];
  }
}
