/** The ranges the toml scanner records (internal/configfile/toml.go), on every text it
    scans without reading past its end, and texts on which it does. */
module TomlRanges {
  import opened Text
  import opened TomlSpec

  /** A value that may be rewritten has no newline before its last byte. */
  predicate OneLine(s: string, at: int, f: Found)
    requires at <= f.start && f.end <= at + |s|
  {
    f.why == Editable ==> forall i :: f.start - at <= i < f.end - at - 1 ==> s[i] != '\n'
  }

  /** An assignment inside the first n bytes of a text at an offset: its key before its
      value, no space at the end of the value, and one that may be rewritten on one line. */
  predicate Fits(s: string, at: int, n: nat, f: Found)
    requires n <= |s|
  {
    && at <= f.keyEnd <= f.start <= f.end <= at + n
    && (f.start < f.end ==> !IsGap(s[f.end - at - 1]))
    && OneLine(s, at, f)
  }

  /** A value that is an inline table. */
  predicate Opens(s: string, at: int, f: Found) {
    0 <= f.start - at < |s| && s[f.start - at] == '{'
  }

  /** Two values in the order they are recorded in: they do not overlap, or the first is
      inside the second, an inline table. */
  predicate Apart(s: string, at: int, f: Found, g: Found) {
    || f.end <= g.start || g.end <= f.start
    || (g.start <= f.start && f.end <= g.end && Opens(s, at, g))
  }

  predicate Laminar(s: string, at: int, fs: seq<Found>) {
    forall i, j :: 0 <= i < j < |fs| ==> Apart(s, at, fs[i], fs[j])
  }

  predicate AllFit(s: string, at: int, n: nat, fs: seq<Found>)
    requires n <= |s|
  {
    Laminar(s, at, fs) && forall i :: 0 <= i < |fs| ==> Fits(s, at, n, fs[i])
  }

  lemma FitsLater(s: string, at: int, k: nat, n: nat, f: Found)
    requires k + n <= |s| && Fits(s[k..], at + k, n, f)
    ensures Fits(s, at, k + n, f) && at + k <= f.keyEnd
  {
    if f.why == Editable {
      forall i | f.start - at <= i < f.end - at - 1 ensures s[i] != '\n' { assert s[i] == s[k..][i - k]; }
    }
  }

  lemma ApartLater(s: string, at: int, k: nat, f: Found, g: Found)
    requires k <= |s| && Apart(s[k..], at + k, f, g)
    ensures Apart(s, at, f, g)
  {
  }

  /** What was read first comes before what was read later. */
  lemma FitTogether(s: string, at: int, k: nat, n: nat, a: seq<Found>, b: seq<Found>)
    requires k + n <= |s| && AllFit(s, at, k, a) && AllFit(s[k..], at + k, n, b)
    ensures AllFit(s, at, k + n, a + b)
  {
    var c := a + b;
    forall i | 0 <= i < |c| ensures Fits(s, at, k + n, c[i]) {
      if i >= |a| { FitsLater(s, at, k, n, b[i - |a|]); }
    }
    forall i, j | 0 <= i < j < |c| ensures Apart(s, at, c[i], c[j]) {
      if i < |a| && j >= |a| {
        assert Fits(s, at, k, a[i]);
        FitsLater(s, at, k, n, b[j - |a|]);
      } else if i >= |a| {
        ApartLater(s, at, k, b[i - |a|], b[j - |a|]);
      } else {
        assert Apart(s, at, a[i], a[j]);
      }
    }
  }

  lemma FitShifted(s: string, at: int, k: nat, n: nat, a: seq<Found>)
    requires k + n <= |s| && AllFit(s[k..], at + k, n, a)
    ensures AllFit(s, at, k + n, a)
  {
    assert AllFit(s, at, k, []);
    FitTogether(s, at, k, n, [], a);
    assert [] + a == a;
  }

  lemma MarkedFit(s: string, at: int, n: nat, a: seq<Found>)
    requires n <= |s| && AllFit(s, at, n, a)
    ensures AllFit(s, at, n, Marked(a))
  {
  }

  /** The enclosing value ends after every value inside it, but for one that is empty and
      stands behind its last byte. */
  lemma OuterFits(s: string, at: int, n: nat, end: nat, inner: seq<Found>, self: Found)
    requires end <= n <= |s| && AllFit(s, at, n, inner)
    requires forall i :: end <= i < n ==> IsGap(s[i])
    requires self.start == at && self.end == at + end && at <= self.keyEnd <= at
    requires end > 0 ==> !IsGap(s[end - 1])
    requires inner != [] ==> s != [] && s[0] == '{'
    requires self.why == Editable ==> !Spans(s, end)
    ensures AllFit(s, at, n, inner + [self])
  {
    var c := inner + [self];
    assert Fits(s, at, n, self);
    forall i | 0 <= i < |inner| ensures Apart(s, at, inner[i], self) {
      var f := inner[i];
      assert Fits(s, at, n, f);
      assert f.start < f.end ==> !(end <= f.end - at - 1 < n);
    }
  }

  lemma {:induction false} ValueFits(s: string, at: int, path: seq<string>, root: bool)
    requires Value(s, at, path, root).Some?
    ensures var v := Value(s, at, path, root).value; v.n <= |s| && AllFit(s, at, v.n, v.found)
    decreases |s|, 1
  {
    hide *;
    if s != [] && s[0] == '{' {
      ValueIsTable(s, at, path, root);
      var r := Items(s[1..], at + 1, path, root);
      TableFits(s, r);
      ItemsFit(s[1..], at + 1, path, root);
      FitShifted(s, at, 1, r.value.n, r.value.found);
      MarkedFit(s, at, 1 + r.value.n, r.value.found);
    } else {
      NoneInside(s, at, path, root);
      NoneFit(s, at, Value(s, at, path, root).value.n);
    }
  }

  lemma TableFits(s: string, r: Option<Read>)
    requires r.Some? ==> 1 + r.value.n <= |s|
    ensures TableRead(s, r).Some? == r.Some?
    ensures r.Some? ==>
              var t := TableRead(s, r).value;
              t.n == 1 + r.value.n && (t.found == r.value.found || t.found == Marked(r.value.found))
  {
    hide Spans, Marked;
  }

  lemma NoneInside(s: string, at: int, path: seq<string>, root: bool)
    requires Value(s, at, path, root).Some? && (s == [] || s[0] != '{')
    ensures Value(s, at, path, root).value.n <= |s| && Value(s, at, path, root).value.found == []
  {
    hide Items, Triple, Multiline, Quoted, Bracketed, Spans, Lead;
  }

  lemma {:induction false} AssignFits(s: string, at: int, path: seq<string>, keyEnd: int, root: bool)
    requires Assign(s, at, path, keyEnd, root).Some? && keyEnd <= at
    ensures
      var a := Assign(s, at, path, keyEnd, root).value;
      && a.n <= |s| && a.found != []
      && AllFit(s, at, a.n, a.found[..|a.found| - 1])
      && a.found[|a.found| - 1].keyEnd == keyEnd
      && AllFit(s, at, a.n, a.found[..|a.found| - 1] + [a.found[|a.found| - 1].(keyEnd := at)])
    decreases |s|, 2
  {
    hide *;
    AssignIs(s, at, path, keyEnd, root);
    RecordedIs(s, at, path, keyEnd, root, Value(s, at, path, root));
    ValueFits(s, at, path, root);
    var v := Value(s, at, path, root).value;
    var a := Assign(s, at, path, keyEnd, root).value;
    var self := a.found[|v.found|];
    assert a.found[..|v.found|] == v.found;
    EndTrims(s, v.n);
    if s == [] || s[0] != '{' { NoneInside(s, at, path, root); }
    OuterFits(s, at, v.n, ValueEnd(s, v.n), v.found, self.(keyEnd := at));
  }

  lemma RecordedIs(s: string, at: int, path: seq<string>, keyEnd: int, root: bool, r: Option<Read>)
    requires r.Some? ==> r.value.n <= |s|
    ensures Recorded(s, at, path, keyEnd, root, r).Some? == r.Some?
    ensures r.Some? ==>
              var v, a := r.value, Recorded(s, at, path, keyEnd, root, r).value;
              && a.n == v.n && |a.found| == |v.found| + 1 && a.found[..|v.found|] == v.found
              && var f := a.found[|v.found|];
                 f == Found(path, keyEnd, at, at + ValueEnd(s, v.n), f.why, root) && a.why == f.why
                 && f.why == if v.why == Editable && Spans(s, ValueEnd(s, v.n)) then SpanningValue else v.why
  {
    hide Spans, ValueEnd;
  }

  lemma EndTrims(s: string, n: nat)
    requires n <= |s|
    ensures
      var end := ValueEnd(s, n);
      && end <= n
      && (forall i :: end <= i < n ==> IsGap(s[i]))
      && (end > 0 ==> !IsGap(s[end - 1]))
  {
    var end := ValueEnd(s, n);
    forall i | end <= i < n ensures IsGap(s[i]) { assert s[i] == s[..n][i]; }
    assert end > 0 ==> s[end - 1] == s[..n][end - 1];
  }

  /** An assignment read after its key. */
  lemma KeyFits(s: string, at: int, keyEnd: nat, valueAt: nat, n: nat, fs: seq<Found>)
    requires keyEnd <= valueAt && valueAt + n <= |s| && fs != []
    requires fs[|fs| - 1].keyEnd == at + keyEnd
    requires AllFit(s[valueAt..], at + valueAt, n, fs[..|fs| - 1] + [fs[|fs| - 1].(keyEnd := at + valueAt)])
    ensures AllFit(s, at, valueAt + n, fs)
  {
    var gs := fs[..|fs| - 1] + [fs[|fs| - 1].(keyEnd := at + valueAt)];
    FitShifted(s, at, valueAt, n, gs);
    forall i | 0 <= i < |fs| ensures Fits(s, at, valueAt + n, fs[i]) {
      assert Fits(s, at, valueAt + n, gs[i]);
    }
    forall i, j | 0 <= i < j < |fs| ensures Apart(s, at, fs[i], fs[j]) {
      assert Apart(s, at, gs[i], gs[j]);
    }
  }

  lemma {:induction false} ItemsFit(s: string, at: int, path: seq<string>, root: bool)
    requires Items(s, at, path, root).Some?
    ensures var r := Items(s, at, path, root).value; r.n <= |s| && AllFit(s, at, r.n, r.found)
    decreases |s|, 3
  {
    hide *;
    ItemsIs(s, at, path, root);
    match NextItem(s)
    case End(n) => NoneFit(s, at, n);
    case Broken =>
    case Skip(n) =>
      var rest := Items(s[n..], at + n, path, root);
      LaterIs(n, [], rest);
      ItemsFit(s[n..], at + n, path, root);
      FitShifted(s, at, n, rest.value.n, rest.value.found);
    case Key(parts, keyEnd, valueAt) =>
      var got := Assign(s[valueAt..], at + valueAt, path + parts, at + keyEnd, root);
      if got.Some? {
        var a := got.value;
        var n := valueAt + a.n;
        var rest := Items(s[n..], at + valueAt + a.n, path, root);
        LaterIs(n, a.found, rest);
        AssignFits(s[valueAt..], at + valueAt, path + parts, at + keyEnd, root);
        KeyFits(s, at, keyEnd, valueAt, a.n, a.found);
        ItemsFit(s[n..], at + valueAt + a.n, path, root);
        FitTogether(s, at, n, rest.value.n, a.found, rest.value.found);
      }
  }

  lemma LaterIs(n: nat, found: seq<Found>, rest: Option<Read>)
    ensures Later(n, found, rest).Some? == rest.Some?
    ensures rest.Some? ==> Later(n, found, rest).value.n == n + rest.value.n && Later(n, found, rest).value.found == found + rest.value.found
    ensures rest.Some? ==> [] + rest.value.found == rest.value.found
  {
  }

  lemma NoneFit(s: string, at: int, n: nat)
    requires n <= |s|
    ensures AllFit(s, at, n, [])
  {
  }

  lemma {:induction false} RunFits(s: string, at: int, table: seq<string>)
    requires Run(s, at, table).Some?
    ensures AllFit(s, at, |s|, Run(s, at, table).value.assigns)
    decreases |s|
  {
    hide *;
    RunIs(s, at, table);
    match NextTop(s)
    case Done => NoneFit(s, at, |s|);
    case Over(n) =>
      RunFits(s[n..], at + n, table);
      FitShifted(s, at, n, |s| - n, Run(s[n..], at + n, table).value.assigns);
    case Table(path, many, h, n) =>
      var rest := Run(s[n..], at + n, path);
      ThenGives([], [Header(path, at + h, many)], rest);
      RunFits(s[n..], at + n, path);
      FitShifted(s, at, n, |s| - n, rest.value.assigns);
    case Assignment(parts, keyEnd, valueAt) =>
      var got := Assign(s[valueAt..], at + valueAt, table + parts, at + keyEnd, table == []);
      if got.Some? {
        var a := got.value;
        var n := valueAt + a.n;
        var rest := Run(s[n..], at + valueAt + a.n, table);
        ThenGives(a.found, [], rest);
        AssignFits(s[valueAt..], at + valueAt, table + parts, at + keyEnd, table == []);
        KeyFits(s, at, keyEnd, valueAt, a.n, a.found);
        RunFits(s[n..], at + valueAt + a.n, table);
        FitTogether(s, at, n, |s| - n, a.found, rest.value.assigns);
      }
  }

  lemma ThenGives(assigns: seq<Found>, headers: seq<Header>, rest: Option<Scan>)
    ensures Then(assigns, headers, rest).Some? == rest.Some?
    ensures rest.Some? ==>
              && Then(assigns, headers, rest).value.assigns == assigns + rest.value.assigns
              && Then(assigns, headers, rest).value.headers == headers + rest.value.headers
    ensures rest.Some? ==> [] + rest.value.assigns == rest.value.assigns && [] + rest.value.headers == rest.value.headers
  {
  }

  /** On every text the scanner gets through, every assignment recorded has its key before
      its value and its value inside the text; one that may be rewritten is on one line;
      and any two values are apart, or the one recorded first is inside the other and the
      other is an inline table. */
  lemma RangesAreSound(text: string)
    requires ScanText(text).Some?
    ensures
      var fs := ScanText(text).value.assigns;
      && (forall i :: 0 <= i < |fs| ==> 0 <= fs[i].keyEnd <= fs[i].start <= fs[i].end <= |text|)
      && (forall i :: 0 <= i < |fs| ==> OneLine(text, 0, fs[i]) && (fs[i].start < fs[i].end ==> !IsGap(text[fs[i].end - 1])))
      && Laminar(text, 0, fs)
  {
    hide Run;
    RunFits(text, 0, []);
    var fs := ScanText(text).value.assigns;
    forall i | 0 <= i < |fs|
      ensures 0 <= fs[i].keyEnd <= fs[i].start <= fs[i].end <= |text|
      ensures OneLine(text, 0, fs[i]) && (fs[i].start < fs[i].end ==> !IsGap(text[fs[i].end - 1]))
    {
      assert Fits(text, 0, |text|, fs[i]);
    }
  }
}
