/** Where a bare value stops (internal/configfile/toml.go: value): at the end of its line, at
    a comment, or at the comma or bracket of what is around it; and what of the line an edit
    leaves alone. */
module TomlBare {
  import opened Text
  import opened Document
  import opened Offsets
  import opened TomlSpec
  import opened TomlSet
  import TomlCursor
  import TomlRanges
  import TomlSpell
  import IniCodec

  const STOPS := "\n#,]}"

  /** A value that is a number, a date or a word: it opens with no quote, bracket or brace. */
  predicate IsBareValue(text: string, f: Found) {
    0 <= f.start < |text| && text[f.start] !in "\"'[{"
  }

  /** From an offset there are spaces up to the end of the text, or to something that ends a
      bare value. */
  predicate Reaches(text: string, end: int, n: int) {
    0 <= end <= n <= |text| && (forall i :: end <= i < n ==> text[i] in " \t\r") && (n == |text| || text[n] in STOPS)
  }

  ghost predicate StopsBehind(text: string, end: int) {
    exists n :: Reaches(text, end, n)
  }

  /** A bare value holds nothing that ends one, and ends only where something does. */
  ghost predicate Stopped(text: string, f: Found) {
    && 0 <= f.start <= f.end <= |text|
    && (IsBareValue(text, f) ==> (forall i :: f.start <= i < f.end ==> text[i] !in STOPS) && StopsBehind(text, f.end))
  }

  ghost predicate AllStopped(text: string, fs: seq<Found>) {
    forall i :: 0 <= i < |fs| ==> Stopped(text, fs[i])
  }

  lemma StoppedConcat(text: string, a: seq<Found>, b: seq<Found>)
    ensures AllStopped(text, a + b) <==> AllStopped(text, a) && AllStopped(text, b)
  {
    hide Stopped;
    var c := a + b;
    assert forall i :: 0 <= i < |a| ==> c[i] == a[i];
    assert forall i :: 0 <= i < |b| ==> c[|a| + i] == b[i];
  }

  lemma NoneStopped(text: string)
    ensures AllStopped(text, [])
  {
  }

  lemma StoppedAlike(text: string, a: seq<Found>, b: seq<Found>)
    requires |a| == |b| && forall i :: 0 <= i < |a| ==> a[i].start == b[i].start && a[i].end == b[i].end
    requires AllStopped(text, a)
    ensures AllStopped(text, b)
  {
    forall i | 0 <= i < |b| ensures Stopped(text, b[i]) { assert Stopped(text, a[i]); }
  }

  /** The value itself, read from the bytes at its start. */
  lemma SelfStopped(text: string, at: nat, path: seq<string>, keyEnd: int, root: bool)
    requires at <= |text| && Assign(text[at..], at, path, keyEnd, root).Some?
    ensures
      var a := Assign(text[at..], at, path, keyEnd, root).value;
      a.found != [] && Stopped(text, a.found[|a.found| - 1])
  {
    var s := text[at..];
    AssignIs(s, at, path, keyEnd, root);
    TomlRanges.RecordedIs(s, at, path, keyEnd, root, Value(s, at, path, root));
    var n := Value(s, at, path, root).value.n;
    TomlRanges.EndTrims(s, n);
    if s != [] && s[0] !in "\"'[{" {
      BareRuns(s, at, path, root);
      BareStops(text, at, n, ValueEnd(s, n));
    }
    hide Assign, Recorded, Value, ValueEnd, StopsBehind;
  }

  lemma BareRuns(s: string, at: int, path: seq<string>, root: bool)
    requires s != [] && s[0] !in "\"'[{"
    ensures
      var v := Value(s, at, path, root);
      && v.Some? && v.value.n <= |s| && (forall i :: 0 <= i < v.value.n ==> s[i] !in STOPS)
      && (v.value.n < |s| ==> s[v.value.n] in STOPS)
  {
    hide Items, Bracketed, Spans;
    assert !IsQuote(s[0]) && !Triple(s);
  }

  lemma BareStops(text: string, at: nat, n: nat, end: nat)
    requires at <= |text| && end <= n <= |text[at..]|
    requires forall i :: 0 <= i < n ==> text[at..][i] !in STOPS
    requires n < |text[at..]| ==> text[at..][n] in STOPS
    requires forall i :: end <= i < n ==> IsGap(text[at..][i])
    ensures forall i :: at <= i < at + end ==> text[i] !in STOPS
    ensures StopsBehind(text, at + end)
  {
    forall i | at <= i < at + end ensures text[i] !in STOPS { assert text[at..][i - at] == text[i]; }
    forall i | at + end <= i < at + n ensures text[i] in " \t\r" { assert text[at..][i - at] == text[i]; }
    var stop := at + n;
    assert stop < |text| ==> text[stop] == text[at..][n];
    assert Reaches(text, at + end, stop);
  }

  lemma {:induction false} ValueStopped(text: string, at: nat, path: seq<string>, root: bool)
    requires at <= |text| && Value(text[at..], at, path, root).Some?
    ensures AllStopped(text, Value(text[at..], at, path, root).value.found)
    decreases |text| - at, 1
  {
    hide *;
    var s := text[at..];
    NoneStopped(text);
    if s != [] && s[0] == '{' {
      ValueIsTable(s, at, path, root);
      var r := Items(s[1..], at + 1, path, root);
      TomlRanges.TableFits(s, r);
      assert s[1..] == text[at + 1..];
      ItemsStopped(text, at + 1, path, root);
      MarkedAlike(r.value.found);
      StoppedAlike(text, r.value.found, Marked(r.value.found));
    } else {
      TomlRanges.NoneInside(s, at, path, root);
    }
  }

  lemma MarkedAlike(fs: seq<Found>)
    ensures |Marked(fs)| == |fs| && forall i :: 0 <= i < |fs| ==> Marked(fs)[i].start == fs[i].start && Marked(fs)[i].end == fs[i].end
  {
  }

  lemma {:induction false} AssignStopped(text: string, at: nat, path: seq<string>, keyEnd: int, root: bool)
    requires at <= |text| && Assign(text[at..], at, path, keyEnd, root).Some?
    ensures
      var a := Assign(text[at..], at, path, keyEnd, root).value;
      AllStopped(text, a.found) && at + a.n <= |text|
    decreases |text| - at, 2
  {
    hide *;
    var s := text[at..];
    AssignIs(s, at, path, keyEnd, root);
    TomlRanges.RecordedIs(s, at, path, keyEnd, root, Value(s, at, path, root));
    ValueStopped(text, at, path, root);
    SelfStopped(text, at, path, keyEnd, root);
    var found, inner := Assign(s, at, path, keyEnd, root).value.found, Value(s, at, path, root).value.found;
    assert found == inner + [found[|inner|]];
    OneStopped(text, found[|inner|]);
    StoppedConcat(text, inner, [found[|inner|]]);
  }

  lemma OneStopped(text: string, f: Found)
    requires Stopped(text, f)
    ensures AllStopped(text, [f])
  {
    hide Stopped;
  }

  lemma {:induction false} ItemsStopped(text: string, at: nat, path: seq<string>, root: bool)
    requires at <= |text| && Items(text[at..], at, path, root).Some?
    ensures AllStopped(text, Items(text[at..], at, path, root).value.found)
    decreases |text| - at, 3
  {
    hide *;
    var s := text[at..];
    NoneStopped(text);
    ItemsIs(s, at, path, root);
    match NextItem(s)
    case End(n) =>
    case Broken =>
    case Skip(n) =>
      var rest := Items(s[n..], at + n, path, root);
      TomlRanges.LaterIs(n, [], rest);
      assert s[n..] == text[at + n..];
      ItemsStopped(text, at + n, path, root);
    case Key(parts, keyEnd, valueAt) =>
      assert s[valueAt..] == text[at + valueAt..];
      var got := Assign(s[valueAt..], at + valueAt, path + parts, at + keyEnd, root);
      if got.Some? {
        var a := got.value;
        var n := valueAt + a.n;
        var rest := Items(s[n..], at + valueAt + a.n, path, root);
        TomlRanges.LaterIs(n, a.found, rest);
        AssignStopped(text, at + valueAt, path + parts, at + keyEnd, root);
        assert s[n..] == text[at + n..];
        ItemsStopped(text, at + n, path, root);
        StoppedConcat(text, a.found, rest.value.found);
      }
  }

  lemma {:induction false} RunStopped(text: string, at: nat, table: seq<string>)
    requires at <= |text| && Run(text[at..], at, table).Some?
    ensures AllStopped(text, Run(text[at..], at, table).value.assigns)
    decreases |text| - at
  {
    hide *;
    var s := text[at..];
    NoneStopped(text);
    RunIs(s, at, table);
    match NextTop(s)
    case Done =>
    case Over(n) =>
      assert s[n..] == text[at + n..];
      RunStopped(text, at + n, table);
    case Table(path, many, h, n) =>
      assert s[n..] == text[at + n..];
      TomlRanges.ThenGives([], [Header(path, at + h, many)], Run(s[n..], at + n, path));
      RunStopped(text, at + n, path);
    case Assignment(parts, keyEnd, valueAt) =>
      assert s[valueAt..] == text[at + valueAt..];
      var got := Assign(s[valueAt..], at + valueAt, table + parts, at + keyEnd, table == []);
      if got.Some? {
        var a := got.value;
        var n := valueAt + a.n;
        var rest := Run(s[n..], at + valueAt + a.n, table);
        TomlRanges.ThenGives(a.found, [], rest);
        AssignStopped(text, at + valueAt, table + parts, at + keyEnd, table == []);
        assert s[n..] == text[at + n..];
        RunStopped(text, at + n, table);
        StoppedConcat(text, a.found, rest.value.assigns);
      }
  }

  /** On every text that is scanned, a bare value holds no newline, no comment, no comma and
      no closing bracket, and behind the spaces that follow it stands one of them or the end
      of the text: it is neither run over nor cut short. */
  lemma BareValuesStop(text: string)
    requires ScanText(text).Some?
    ensures AllStopped(text, ScanText(text).value.assigns)
  {
    hide *;
    ScanIsRun(text);
    assert text[0..] == text;
    RunStopped(text, 0, []);
  }

  // ---- the rest of the line ----

  /** The bytes of the line an offset is on, around it. */
  ghost predicate OnLine(text: string, from: int, to: int, start: int, end: int) {
    && 0 <= from <= start <= end <= to <= |text|
    && (from == 0 || text[from - 1] == '\n') && (to == |text| || text[to] == '\n')
    && forall i :: from <= i < to ==> text[i] != '\n'
  }

  /** The line of the document an offset is on, in the text. */
  lemma LineAround(lines: seq<string>, off: nat)
    requires lines != [] && off <= |Joined(lines)| && forall l :: l in lines ==> '\n' !in l
    ensures
      var text, n, c := Joined(lines), LineOf(Joined(lines), off), ColumnOf(Joined(lines), off);
      && n <= |lines| && c <= |lines[n - 1]| && c <= off
      && text[off - c..off] == lines[n - 1][..c]
      && off + |lines[n - 1]| - c <= |text|
      && text[off..off + |lines[n - 1]| - c] == lines[n - 1][c..]
      && (off - c == 0 || text[off - c - 1] == '\n')
      && (off + |lines[n - 1]| - c == |text| || text[off + |lines[n - 1]| - c] == '\n')
  {
    hide Written, LineOf, ColumnOf;
    OffsetIsColumn(lines, off);
    var text, n, c := Joined(lines), LineOf(Joined(lines), off), ColumnOf(Joined(lines), off);
    var l := lines[n - 1];
    JoinedConcat(lines[..n - 1], [l[..c]]);
    Alone(l[..c]);
    JoinedConcat([l[c..]], lines[n..]);
    Alone(l[c..]);
    WrittenNone("\n", false);
    var head, tail := text[..off], text[off..];
    assert text == head + tail;
    Ends(head, Joined(lines[..n - 1] + [l[..c]]), l[..c]);
    assert head[off - c..] == text[off - c..off];
    assert tail == l[c..] + ((if lines[n..] != [] then "\n" else "") + Joined(lines[n..]));
    Begins(tail, l[c..]);
    assert text[off..off + |l| - c] == tail[..|l| - c];
    if lines[n..] == [] {
      assert |tail| == |l| - c;
    } else {
      assert tail[|l| - c] == '\n';
    }
  }

  lemma Ends(a: string, b: string, tail: string)
    requires a == b && |tail| <= |b| && b[|b| - |tail|..] == tail
    ensures |tail| <= |a| && a[|a| - |tail|..] == tail
  {
  }

  lemma Begins(a: string, head: string)
    requires head <= a
    ensures |head| <= |a| && a[..|head|] == head
  {
  }

  /** The line Set writes is the old one with the value replaced: whatever stood before it,
      and whatever stood behind it, a comment say, is still there. */
  lemma LineKept(lines: seq<string>, f: Found, want: IniCodec.Literal) returns (from: nat, to: nat)
    requires lines != [] && forall l :: l in lines ==> '\n' !in l
    requires ScanText(Joined(lines)).Some? && f in ScanText(Joined(lines)).value.assigns && Rewritable(Joined(lines), f)
    ensures LineOf(Joined(lines), f.start) == LineOf(Joined(lines), f.end)
    ensures OnLine(Joined(lines), from, to, f.start, f.end)
    ensures Rewrite(lines, f, want).lines ==
            [Joined(lines)[from..f.start] + TomlSpell.Spelled(want) + Joined(lines)[f.end..to]]
  {
    hide *;
    RewritableOnOneLine(lines, f);
    RewritableIs(Joined(lines), f);
    from, to := SpanOf(lines, f.start, f.end);
    RewriteIs(lines, f, want);
  }

  lemma RewritableIs(text: string, f: Found)
    requires Rewritable(text, f)
    ensures 0 <= f.start < f.end <= |text|
  {
    hide TomlSpell.Follows;
  }

  lemma RewriteIs(lines: seq<string>, f: Found, want: IniCodec.Literal)
    requires lines != [] && (forall l :: l in lines ==> '\n' !in l) && 0 <= f.start <= f.end <= |Joined(lines)|
    requires LineOf(Joined(lines), f.start) == LineOf(Joined(lines), f.end)
    ensures
      var text, n := Joined(lines), LineOf(Joined(lines), f.start);
      && n <= |lines| && ColumnOf(text, f.start) <= |lines[n - 1]| && ColumnOf(text, f.end) <= |lines[n - 1]|
      && Rewrite(lines, f, want).lines ==
         [lines[n - 1][..ColumnOf(text, f.start)] + TomlSpell.Spelled(want) + lines[n - 1][ColumnOf(text, f.end)..]]
  {
    hide Joined, LineOf, ColumnOf, TomlSpell.Spelled;
    OffsetIsColumn(lines, f.start);
    OffsetIsColumn(lines, f.end);
  }

  lemma SpanOf(lines: seq<string>, start: nat, end: nat) returns (from: nat, to: nat)
    requires lines != [] && (forall l :: l in lines ==> '\n' !in l) && start <= end <= |Joined(lines)|
    requires LineOf(Joined(lines), start) == LineOf(Joined(lines), end)
    ensures
      var text, n := Joined(lines), LineOf(Joined(lines), start);
      && OnLine(text, from, to, start, end)
      && n <= |lines| && ColumnOf(text, start) <= |lines[n - 1]| && ColumnOf(text, end) <= |lines[n - 1]|
      && text[from..start] == lines[n - 1][..ColumnOf(text, start)] && text[end..to] == lines[n - 1][ColumnOf(text, end)..]
  {
    hide Joined, LineOf, ColumnOf;
    var text, n := Joined(lines), LineOf(Joined(lines), start);
    LineAround(lines, start);
    LineAround(lines, end);
    TomlCursor.SameLine(text, start, end);
    var l, c, d := lines[n - 1], ColumnOf(text, start), ColumnOf(text, end);
    ColumnsAre(text, start);
    ColumnsAre(text, end);
    from, to := start - c, end + |l| - d;
    assert l in lines;
    forall i | from <= i < start ensures text[i] != '\n' { assert text[i] == text[start - c..start][i - from]; }
    forall i | end <= i < to ensures text[i] != '\n' { assert text[i] == text[end..end + |l| - d][i - end] == l[d..][i - end]; }
  }

  lemma ColumnsAre(text: string, off: nat)
    requires off <= |text|
    ensures ColumnOf(text, off) <= off
  {
  }
}
