/** A value rewritten in place (internal/configfile/toml.go: Set): the scan of the new text
    is the scan of the old one, with every offset behind the value moved. */
module TomlReplace {
  import opened Text
  import opened TomlSpec
  import opened TomlCursor
  import opened TomlLocal
  import opened TomlMove
  import opened TomlSpell
  import IniCodec
  import IniLaws
  import TomlRanges

  /** The bytes from m on, l of them, replaced. */
  function Put(s: string, m: nat, l: nat, v: string): string
    requires m + l <= |s|
  {
    s[..m] + v + s[m + l..]
  }

  /** Where an offset is once d bytes were added behind c. */
  function Off(x: int, c: int, d: int): int {
    if x <= c then x else x + d
  }

  function Moved(f: Found, c: int, d: int): Found {
    f.(keyEnd := Off(f.keyEnd, c, d), start := Off(f.start, c, d), end := Off(f.end, c, d))
  }

  function AllMoved(fs: seq<Found>, c: int, d: int): (r: seq<Found>)
    ensures |r| == |fs|
    ensures forall i :: 0 <= i < |fs| ==> r[i] == Moved(fs[i], c, d)
  {
    seq(|fs|, i requires 0 <= i < |fs| => Moved(fs[i], c, d))
  }

  function HeadersMoved(hs: seq<Header>, c: int, d: int): (r: seq<Header>)
    ensures |r| == |hs|
    ensures forall i :: 0 <= i < |hs| ==> r[i] == hs[i].(at := Off(hs[i].at, c, d))
  {
    seq(|hs|, i requires 0 <= i < |hs| => hs[i].(at := Off(hs[i].at, c, d)))
  }

  /** The assignment whose value is the l bytes from m on: one that may be rewritten, is no
      inline table, and is followed by what may follow a value. */
  predicate Target(s: string, at: int, m: nat, l: nat, f: Found) {
    && m + l <= |s| && l > 0 && f.start == at + m && f.end == at + m + l && f.why == Editable
    && s[m] != '{' && !IsGap(s[m + l - 1]) && Follows(s[m + l..])
  }

  /** There is an "=" between the key of an assignment and its value. */
  predicate Equals(s: string, at: int, f: Found) {
    exists i :: f.keyEnd - at <= i < f.start - at && 0 <= i < |s| && s[i] == '='
  }

  // ---- slices ----

  lemma EqualsRest(s: string, at: int, f: Found, k: nat)
    requires Equals(s, at, f) && k <= |s| && at + k <= f.keyEnd
    ensures Equals(s[k..], at + k, f)
  {
    var i :| f.keyEnd - at <= i < f.start - at && 0 <= i < |s| && s[i] == '=';
    assert s[k..][i - k] == '=';
  }

  lemma PutRest(s: string, m: nat, l: nat, v: string, k: nat)
    requires k <= m && m + l <= |s|
    ensures Put(s, m, l, v)[k..] == Put(s[k..], m - k, l, v)
    ensures s[k..][m - k + l..] == s[m + l..]
  {
  }

  lemma PutAfter(s: string, m: nat, l: nat, v: string, k: nat)
    requires m + l <= k <= |s|
    ensures Put(s, m, l, v)[k + |v| - l..] == s[k..]
  {
  }

  lemma PutAgrees(s: string, m: nat, l: nat, v: string)
    requires m + l <= |s|
    ensures Agree(s, Put(s, m, l, v), m)
    ensures v != [] ==> m < |Put(s, m, l, v)| && Put(s, m, l, v)[m] == v[0]
    ensures |Put(s, m, l, v)| == |s| + |v| - l
  {
  }

  lemma TargetRest(s: string, at: int, m: nat, l: nat, f: Found, k: nat)
    requires Target(s, at, m, l, f) && k <= m
    ensures Target(s[k..], at + k, m - k, l, f)
  {
    PutRest(s, m, l, [], k);
    hide Follows;
  }

  // ---- records before and behind the target ----

  lemma MovedConcat(a: seq<Found>, b: seq<Found>, c: int, d: int)
    ensures AllMoved(a + b, c, d) == AllMoved(a, c, d) + AllMoved(b, c, d)
  {
  }

  lemma MovedBefore(s: string, at: int, n: nat, fs: seq<Found>, c: int, d: int)
    requires n <= |s| && TomlRanges.AllFit(s, at, n, fs) && at + n <= c
    ensures AllMoved(fs, c, d) == fs
  {
    forall i | 0 <= i < |fs| ensures Moved(fs[i], c, d) == fs[i] {
      assert TomlRanges.Fits(s, at, n, fs[i]);
    }
  }

  lemma MovedAfter(s: string, at: int, n: nat, fs: seq<Found>, c: int, d: int)
    requires n <= |s| && TomlRanges.AllFit(s, at, n, fs) && c < at
    ensures AllMoved(fs, c, d) == Shifted(fs, d)
  {
    forall i | 0 <= i < |fs| ensures Moved(fs[i], c, d) == Shift(fs[i], d) {
      assert TomlRanges.Fits(s, at, n, fs[i]);
    }
  }

  // ---- spaces between a value and what follows it ----

  lemma GapFirst(s: string)
    requires s != [] && IsGap(s[0])
    ensures Trivia(s) == 1 + Trivia(s[1..])
    ensures s[Trivia(s)..] == s[1..][Trivia(s[1..])..]
  {
  }

  function OneOn(i: Item): Item {
    match i
    case End(n) => End(n + 1)
    case Skip(n) => Skip(n + 1)
    case Broken => Broken
    case Key(parts, keyEnd, valueAt) => Key(parts, keyEnd + 1, valueAt + 1)
  }

  lemma BehindMoves(s: string, a: nat)
    requires 1 <= a <= |s|
    ensures ItemBehind(s, a) == OneOn(ItemBehind(s[1..], a - 1))
  {
    hide KeyPath, ValueAt;
    var t := s[1..];
    assert s[a..] == t[a - 1..];
    if a < |s| {
      assert s[a] == t[a - 1];
      if s[a] != '}' && s[a] != ',' {
        KeyMoves(s, a, KeyPath(s[a..]));
      }
    }
  }

  lemma KeyMoves(s: string, a: nat, k: KeyRead)
    requires 1 <= a <= |s| && a + k.n <= |s| && (k.ok ==> 1 <= k.end <= k.n)
    ensures KeyBehind(s, a, k) == OneOn(KeyBehind(s[1..], a - 1, k))
  {
    hide ValueAt;
    ValueAtGap(s, a + k.n);
  }

  lemma ItemIsBehind(s: string)
    ensures Trivia(s) <= |s| && NextItem(s) == ItemBehind(s, Trivia(s))
  {
    hide Trivia, ItemBehind;
  }

  lemma NextItemGap(s: string)
    requires s != [] && IsGap(s[0])
    ensures NextItem(s) == OneOn(NextItem(s[1..]))
  {
    hide *;
    GapFirst(s);
    ItemIsBehind(s);
    ItemIsBehind(s[1..]);
    BehindMoves(s, Trivia(s));
  }

  lemma ValueAtGap(s: string, n: nat)
    requires 1 <= n <= |s|
    ensures ValueAt(s, n) == 1 + ValueAt(s[1..], n - 1)
  {
    hide Gaps;
    assert s[n..] == s[1..][n - 1..];
    var a := n + Gaps(s[n..]);
    GapsInside(s[n..]);
    var b := if a < |s| && s[a] == '=' then a + 1 else a;
    assert s[b..] == s[1..][b - 1..];
  }

  lemma ItemsGap(s: string, at: int, path: seq<string>, root: bool)
    requires s != [] && IsGap(s[0])
    ensures Items(s, at, path, root) == Later(1, [], Items(s[1..], at + 1, path, root))
  {
    hide *;
    NextItemGap(s);
    ItemsIs(s, at, path, root);
    ItemsIs(s[1..], at + 1, path, root);
    OneOnIs(NextItem(s[1..]));
    match NextItem(s[1..])
    case End(n) => LaterEnd(n);
    case Broken => LaterLate(1, 0, [], None);
    case Skip(n) =>
      assert at + (n + 1) == at + 1 + n && s[n + 1..] == s[1..][n..];
      LaterLate(1, n, [], Items(s[n + 1..], at + (n + 1), path, root));
    case Key(parts, keyEnd, valueAt) =>
      assert at + (valueAt + 1) == at + 1 + valueAt && s[valueAt + 1..] == s[1..][valueAt..];
      assert at + (keyEnd + 1) == at + 1 + keyEnd;
      var got := Assign(s[valueAt + 1..], at + 1 + valueAt, path + parts, at + 1 + keyEnd, root);
      if got.Some? {
        var n := valueAt + got.value.n;
        assert s[valueAt + 1 + got.value.n..] == s[1..][n..];
        LaterLate(1, n, got.value.found, Items(s[1..][n..], at + 1 + valueAt + got.value.n, path, root));
      } else {
        LaterLate(1, 0, [], None);
      }
  }

  lemma OneOnIs(i: Item)
    ensures match i
            case End(n) => OneOn(i) == End(n + 1)
            case Skip(n) => OneOn(i) == Skip(n + 1)
            case Broken => OneOn(i) == Broken
            case Key(parts, keyEnd, valueAt) => OneOn(i) == Key(parts, keyEnd + 1, valueAt + 1)
  {
  }

  lemma LaterEnd(n: nat)
    ensures Later(1, [], Some(Read(n, Editable, []))) == Some(Read(n + 1, Editable, []))
  {
    var none: seq<Found> := [];
    assert none + none == none;
  }

  lemma LaterLate(k: nat, n: nat, found: seq<Found>, rest: Option<Read>)
    ensures Later(k, [], Later(n, found, rest)) == Later(k + n, found, rest)
    ensures Later(k, [], None) == None
  {
    if rest.Some? { assert [] + (found + rest.value.found) == found + rest.value.found; }
  }

  lemma {:induction false} ItemsGaps(s: string, k: nat, at: int, path: seq<string>, root: bool)
    requires k <= |s| && forall i :: 0 <= i < k ==> IsGap(s[i])
    ensures Items(s, at, path, root) == Later(k, [], Items(s[k..], at + k, path, root))
    decreases k
  {
    hide Items;
    if k == 0 {
      assert s[0..] == s;
      LaterNothing(Items(s, at, path, root));
    } else {
      ItemsGap(s, at, path, root);
      ItemsGaps(s[1..], k - 1, at + 1, path, root);
      assert s[1..][k - 1..] == s[k..] && at + 1 + (k - 1) == at + k;
      LaterLate(1, k - 1, [], Items(s[k..], at + k, path, root));
    }
  }

  lemma LaterNothing(r: Option<Read>)
    ensures Later(0, [], r) == r
  {
    if r.Some? { assert [] + r.value.found == r.value.found; }
  }

  function TopOneOn(t: Top): Top {
    match t
    case Done => Done
    case Over(n) => Over(n + 1)
    case Table(path, many, h, n) => Table(path, many, h + 1, n + 1)
    case Assignment(parts, keyEnd, valueAt) => Assignment(parts, keyEnd + 1, valueAt + 1)
  }

  lemma TopOneOnIs(t: Top)
    ensures match t
            case Done => TopOneOn(t) == Done
            case Over(n) => TopOneOn(t) == Over(n + 1)
            case Table(path, many, h, n) => TopOneOn(t) == Table(path, many, h + 1, n + 1)
            case Assignment(parts, keyEnd, valueAt) => TopOneOn(t) == Assignment(parts, keyEnd + 1, valueAt + 1)
  {
  }

  lemma TopMoves(s: string, a: nat)
    requires 1 <= a <= |s| && (a < |s| ==> s[a] != '\n')
    ensures TopBehind(s, a) == TopOneOn(TopBehind(s[1..], a - 1))
  {
    hide KeyPath, HeaderLine, Line, AssignBehind;
    var t := s[1..];
    assert s[a..] == t[a - 1..];
    if a < |s| {
      assert s[a] == t[a - 1];
      if s[a] != '[' {
        var k := KeyPath(s[a..]);
        assert s[a + k.n..] == t[a - 1 + k.n..];
        if k.ok { AssignMoves(s, a, k); }
      }
    }
  }

  lemma AssignMoves(s: string, a: nat, k: KeyRead)
    requires 1 <= a < |s| && s[a] != '\n' && a + k.n <= |s| && 1 <= k.end <= k.n
    ensures AssignBehind(s, a, k) == TopOneOn(AssignBehind(s[1..], a - 1, k))
  {
    hide Line, Gaps;
    var b := a + k.n;
    assert s[a..] == s[1..][a - 1..];
    if b < |s| {
      assert s[b] == s[1..][b - 1] && s[b + 1..] == s[1..][b..];
    }
  }

  lemma TopIsBehind(s: string)
    ensures
      var a := Trivia(s);
      && a <= |s| && (a < |s| ==> s[a] != '\n')
      && NextTop(s) == TopBehind(s, a)
  {
    hide Trivia, TopBehind;
  }

  lemma NextTopGap(s: string)
    requires s != [] && IsGap(s[0])
    ensures NextTop(s) == TopOneOn(NextTop(s[1..]))
  {
    hide *;
    GapFirst(s);
    TopIsBehind(s);
    TopIsBehind(s[1..]);
    TopMoves(s, Trivia(s));
  }

  lemma RunGap(s: string, at: int, table: seq<string>)
    requires s != [] && IsGap(s[0])
    ensures Run(s, at, table) == Run(s[1..], at + 1, table)
  {
    hide *;
    NextTopGap(s);
    RunIs(s, at, table);
    RunIs(s[1..], at + 1, table);
    TopOneOnIs(NextTop(s[1..]));
    match NextTop(s[1..])
    case Done =>
    case Over(n) =>
      assert at + (n + 1) == at + 1 + n && s[n + 1..] == s[1..][n..];
    case Table(path, many, h, n) =>
      assert at + (n + 1) == at + 1 + n && at + (h + 1) == at + 1 + h && s[n + 1..] == s[1..][n..];
    case Assignment(parts, keyEnd, valueAt) =>
      assert at + (valueAt + 1) == at + 1 + valueAt && s[valueAt + 1..] == s[1..][valueAt..];
      assert at + (keyEnd + 1) == at + 1 + keyEnd;
      var got := Assign(s[valueAt + 1..], at + 1 + valueAt, table + parts, at + 1 + keyEnd, table == []);
      if got.Some? {
        assert s[valueAt + 1 + got.value.n..] == s[1..][valueAt + got.value.n..];
      }
  }

  lemma {:induction false} RunGaps(s: string, k: nat, at: int, table: seq<string>)
    requires k <= |s| && forall i :: 0 <= i < k ==> IsGap(s[i])
    ensures Run(s, at, table) == Run(s[k..], at + k, table)
    decreases k
  {
    hide Run;
    if k == 0 {
      assert s[0..] == s;
    } else {
      RunGap(s, at, table);
      RunGaps(s[1..], k - 1, at + 1, table);
      assert s[1..][k - 1..] == s[k..] && at + 1 + (k - 1) == at + k;
    }
  }

  // ---- the target itself ----

  /** How far both values are read: into the spaces behind them at most. */
  predicate IntoGaps(s: string, l: nat, n: nat) {
    l <= n <= |s| && forall i :: l <= i < n ==> IsGap(s[i])
  }

  lemma SelfReplaced(s: string, at: int, path: seq<string>, keyEnd: int, root: bool, l: nat, want: IniCodec.Literal, f: Found)
    requires IniLaws.Sound(want) && Target(s, at, 0, l, f) && keyEnd <= at
    requires Assign(s, at, path, keyEnd, root).Some?
    requires var fs := Assign(s, at, path, keyEnd, root).value.found; fs != [] && f == fs[|fs| - 1]
    ensures
      var v := Spelled(want);
      var t := Put(s, 0, l, v);
      var a, b := Assign(s, at, path, keyEnd, root).value, Assign(t, at, path, keyEnd, root);
      && IntoGaps(s, l, a.n) && b.Some? && IntoGaps(t, |v|, b.value.n)
      && a.found == [f] && b.value.found == [Moved(f, at, |v| - l)] && f.keyEnd == keyEnd
  {
    hide *;
    TargetIs(s, at, l, f);
    var v := Spelled(want);
    var t := Put(s, 0, l, v);
    AssignIs(s, at, path, keyEnd, root);
    AssignIs(t, at, path, keyEnd, root);
    TomlRanges.RecordedIs(s, at, path, keyEnd, root, Value(s, at, path, root));
    TomlRanges.RecordedIs(t, at, path, keyEnd, root, Value(t, at, path, root));
    TomlRanges.NoneInside(s, at, path, root);
    TomlRanges.EndTrims(s, Value(s, at, path, root).value.n);
    SpellIsRead(want, s[l..], at, path, root);
    SpellIsCompact(want);
    PutFirst(s, l, v);
    WholeIs(v, s[l..], at, path, root);
    var n := Value(t, at, path, root).value.n;
    CompactEnds(v, s[l..], n);
    ReadIntoGaps(s, l, Value(s, at, path, root).value.n);
    MovedSelf(path, keyEnd, at, l, |v|, root, f);
  }

  lemma TargetIs(s: string, at: int, l: nat, f: Found)
    requires Target(s, at, 0, l, f)
    ensures l <= |s| && 0 < l && f.start == at && f.end == at + l && f.why == Editable
    ensures s[0] != '{' && !IsGap(s[l - 1]) && Follows(s[l..])
  {
    hide Follows;
  }

  lemma PutFirst(s: string, l: nat, v: string)
    requires l <= |s|
    ensures Put(s, 0, l, v) == v + s[l..]
  {
  }

  lemma WholeIs(v: string, y: string, at: int, path: seq<string>, root: bool)
    requires Whole(v, y, at, path, root)
    ensures
      var r := Value(v + y, at, path, root);
      r.Some? && r.value.why == Editable && r.value.found == [] && IntoGaps(v + y, |v|, r.value.n)
  {
    hide Value;
  }

  lemma ReadIntoGaps(s: string, l: nat, n: nat)
    requires l <= n <= |s| && forall i :: l <= i < n ==> IsGap(s[i])
    ensures IntoGaps(s, l, n)
  {
  }

  /** A value of one line ends where it was written to end, and spans no lines. */
  lemma CompactEnds(v: string, y: string, n: nat)
    requires Compact(v) && IntoGaps(v + y, |v|, n)
    ensures ValueEnd(v + y, n) == |v| && !Spans(v + y, |v|)
  {
    var s := v + y;
    TomlRanges.EndTrims(s, n);
    hide ValueEnd;
    assert s[|v| - 1] == v[|v| - 1];
    forall i | 0 <= i < |v| ensures s[i] != '\n' { assert s[i] == v[i]; }
  }

  lemma MovedSelf(path: seq<string>, keyEnd: int, at: int, l: nat, n: nat, root: bool, f: Found)
    requires f == Found(path, keyEnd, at, at + l, Editable, root) && l > 0 && keyEnd <= at
    ensures Moved(f, at, n - l) == Found(path, keyEnd, at, at + n, Editable, root)
  {
  }

  // ---- a target inside a value ----

  function ReadMoved(r: Read, c: int, d: int): Read
    requires r.n + d >= 0
  {
    Read(r.n + d, r.why, AllMoved(r.found, c, d))
  }

  lemma FitIn(s: string, at: int, n: nat, fs: seq<Found>, f: Found)
    requires n <= |s| && TomlRanges.AllFit(s, at, n, fs) && f in fs
    ensures at <= f.keyEnd <= f.start <= f.end <= at + n
  {
    var i :| 0 <= i < |fs| && fs[i] == f;
    assert TomlRanges.Fits(s, at, n, fs[i]);
  }

  lemma SpansPut(s: string, m: nat, l: nat, v: string, n: nat)
    requires m + l <= n <= |s| && l > 0 && !Spans(s, n) && Compact(v)
    ensures n + |v| - l <= |Put(s, m, l, v)| && !Spans(Put(s, m, l, v), n + |v| - l)
  {
    var t := Put(s, m, l, v);
    forall i | 0 <= i < n + |v| - l - 1 ensures t[i] != '\n' {
      if i < m { assert t[i] == s[i]; }
      else if i < m + |v| { assert t[i] == v[i - m] && v[i - m] in v; }
      else { assert t[i] == s[i - |v| + l]; }
    }
  }

  lemma SpansLess(s: string, k: nat, n: nat)
    requires k <= n <= |s| && !Spans(s, n)
    ensures !Spans(s, k)
  {
  }

  /** An inline table with an assignment in it that may be rewritten is on one line. */
  lemma TableEditable(s: string, r: Option<Read>, f: Found)
    requires r.Some? && 1 + r.value.n <= |s| && f.why == Editable
    requires TableRead(s, r).Some? && f in TableRead(s, r).value.found
    ensures !Spans(s, 1 + r.value.n) && TableRead(s, r) == Some(Read(1 + r.value.n, Editable, r.value.found))
  {
    hide Spans;
  }

  lemma TableOneLine(s: string, r: Option<Read>)
    requires r.Some? && 1 + r.value.n <= |s| && !Spans(s, 1 + r.value.n)
    ensures TableRead(s, r) == Some(Read(1 + r.value.n, Editable, r.value.found))
  {
    hide Spans;
  }

  lemma EndPut(s: string, m: nat, l: nat, v: string, n: nat)
    requires m + l <= n <= |s| && l > 0 && !IsGap(s[m + l - 1]) && Compact(v)
    ensures n + |v| - l <= |Put(s, m, l, v)|
    ensures m + l <= ValueEnd(s, n) && ValueEnd(Put(s, m, l, v), n + |v| - l) == ValueEnd(s, n) + |v| - l
  {
    var t := Put(s, m, l, v);
    var d := |v| - l;
    var e := ValueEnd(s, n);
    TomlRanges.EndTrims(s, n);
    hide ValueEnd, Trail;
    assert m + l - 1 < e;
    var u := t[..n + d];
    forall i | e + d <= i < n + d ensures IsGap(u[i]) { assert u[i] == t[i] == s[i - d]; }
    if e == m + l {
      assert u[e + d - 1] == t[m + |v| - 1] == v[|v| - 1];
    } else {
      assert u[e + d - 1] == t[e + d - 1] == s[e - 1];
    }
    TrailIs(IsGap, u, n - e);
    EndIs(t, n + d, n - e);
  }

  lemma EndIs(t: string, n: nat, k: nat)
    requires n <= |t| && Trail(IsGap, t[..n]) == k
    ensures ValueEnd(t, n) == n - k
  {
  }

  /** What the lemmas below say of a construct read as r from s and as b from the new
      text: it goes d bytes further, and the offsets in it are moved. */
  predicate Follow(r: Option<Read>, b: Option<Read>, c: int, d: int) {
    r.Some? && r.value.n + d >= 0 && b == Some(ReadMoved(r.value, c, d))
  }

  lemma {:induction false} ReplaceValue(s: string, at: int, path: seq<string>, root: bool, m: nat, l: nat, want: IniCodec.Literal, f: Found)
    requires IniLaws.Sound(want) && Target(s, at, m, l, f) && Equals(s, at, f)
    requires Value(s, at, path, root).Some? && f in Value(s, at, path, root).value.found
    ensures
      var v := Spelled(want);
      var a := Value(s, at, path, root).value;
      && a.n <= |s| && a.why == Editable && !Spans(s, a.n) && m > 0 && m + l <= a.n
      && Follow(Some(a), Value(Put(s, m, l, v), at, path, root), at + m, |v| - l)
    decreases |s|, 1
  {
    hide *;
    SomeText(s, at, m, l, f);
    TomlRanges.ValueFits(s, at, path, root);
    FitIn(s, at, Value(s, at, path, root).value.n, Value(s, at, path, root).value.found, f);
    if s[0] != '{' {
      TomlRanges.NoneInside(s, at, path, root);
      assert false;
    }
    var v := Spelled(want);
    var t := Put(s, m, l, v);
    var r := Items(s[1..], at + 1, path, root);
    ValueIsTable(s, at, path, root);
    TomlRanges.TableFits(s, r);
    TableEditable(s, r, f);
    TomlRanges.ItemsFit(s[1..], at + 1, path, root);
    FitIn(s[1..], at + 1, r.value.n, r.value.found, f);
    TargetRest(s, at, m, l, f, 1);
    EqualsRest(s, at, f, 1);
    PutRest(s, m, l, v, 1);
    assert at + 1 + (m - 1) == at + m;
    ReplaceItems(s[1..], at + 1, path, root, m - 1, l, want, f);
    SpellIsCompact(want);
    SpansPut(s, m, l, v, 1 + r.value.n);
    PutFirstByte(s, m, l, v);
    ValueIsTable(t, at, path, root);
    FollowIs(r, Items(t[1..], at + 1, path, root), at + m, |v| - l);
    TableOneLine(t, Items(t[1..], at + 1, path, root));
    MovedTable(r, Items(t[1..], at + 1, path, root), at + m, |v| - l);
  }

  lemma SomeText(s: string, at: int, m: nat, l: nat, f: Found)
    requires Target(s, at, m, l, f)
    ensures s != [] && m + l <= |s| && l > 0 && f.start == at + m && f.end == at + m + l && f.why == Editable
    ensures !IsGap(s[m + l - 1])
  {
    hide Follows;
  }

  lemma PutFirstByte(s: string, m: nat, l: nat, v: string)
    requires m + l <= |s| && m > 0
    ensures Put(s, m, l, v) != [] && s != [] && Put(s, m, l, v)[0] == s[0]
  {
  }

  lemma FollowIs(r: Option<Read>, b: Option<Read>, c: int, d: int)
    requires Follow(r, b, c, d)
    ensures r.Some? && b.Some? && b.value.n == r.value.n + d && b.value.why == r.value.why
    ensures b.value.found == AllMoved(r.value.found, c, d)
  {
  }

  lemma MovedTable(r: Option<Read>, b: Option<Read>, c: int, d: int)
    requires Follow(r, b, c, d)
    ensures Follow(Some(Read(1 + r.value.n, Editable, r.value.found)), Some(Read(1 + b.value.n, Editable, b.value.found)), c, d)
  {
  }

  /** The target is inside the value assigned. */
  lemma {:induction false} ReplaceAssign(s: string, at: int, path: seq<string>, keyEnd: int, root: bool, m: nat, l: nat, want: IniCodec.Literal, f: Found)
    requires IniLaws.Sound(want) && Target(s, at, m, l, f) && Equals(s, at, f) && keyEnd <= at
    requires Value(s, at, path, root).Some? && f in Value(s, at, path, root).value.found
    ensures
      var v := Spelled(want);
      var a := Assign(s, at, path, keyEnd, root);
      && a.Some? && a.value.n <= |s| && m > 0 && m + l <= a.value.n
      && Follow(a, Assign(Put(s, m, l, v), at, path, keyEnd, root), at + m, |v| - l)
    decreases |s|, 2
  {
    hide *;
    var v := Spelled(want);
    SomeText(s, at, m, l, f);
    var t := Put(s, m, l, v);
    var r := Value(s, at, path, root);
    var b := Value(t, at, path, root);
    var d := |v| - l;
    ReplaceValue(s, at, path, root, m, l, want, f);
    FollowIs(r, b, at + m, d);
    AssignIs(s, at, path, keyEnd, root);
    AssignIs(t, at, path, keyEnd, root);
    TomlRanges.RecordedIs(s, at, path, keyEnd, root, r);
    TomlRanges.RecordedIs(t, at, path, keyEnd, root, b);
    SpellIsCompact(want);
    EndPut(s, m, l, v, r.value.n);
    SpansPut(s, m, l, v, r.value.n);
    TomlRanges.EndTrims(s, r.value.n);
    TomlRanges.EndTrims(t, b.value.n);
    SpansLess(s, ValueEnd(s, r.value.n), r.value.n);
    SpansLess(t, ValueEnd(t, b.value.n), b.value.n);
    MovedRecord(path, keyEnd, at, ValueEnd(s, r.value.n), root, r.value, b.value, m, d,
                Assign(s, at, path, keyEnd, root).value, Assign(t, at, path, keyEnd, root).value);
  }

  lemma MovedRecord(path: seq<string>, keyEnd: int, at: int, end: nat, root: bool, r: Read, b: Read, m: nat, d: int, a: Read, e: Read)
    requires keyEnd <= at && m < end && r.n + d >= 0
    requires b.n == r.n + d && b.found == AllMoved(r.found, at + m, d)
    requires a.n == r.n && |a.found| == |r.found| + 1 && a.found[..|r.found|] == r.found && a.why == Editable
    requires a.found[|r.found|] == Found(path, keyEnd, at, at + end, Editable, root)
    requires e.n == b.n && |e.found| == |b.found| + 1 && e.found[..|b.found|] == b.found && e.why == Editable
    requires e.found[|b.found|] == Found(path, keyEnd, at, at + (end + d), Editable, root)
    ensures Follow(Some(a), Some(e), at + m, d)
  {
    var moved := AllMoved(a.found, at + m, d);
    forall i | 0 <= i < |moved| ensures moved[i] == e.found[i] {
      if i < |r.found| {
        assert a.found[i] == r.found[i] && e.found[i] == b.found[i];
      }
    }
    assert moved == e.found;
  }

  // ---- the rest of an inline table ----

  lemma LaterFollows(n: nat, found: seq<Found>, rest: Option<Read>, moved: seq<Found>, next: Option<Read>, k: nat, c: int, d: int)
    requires rest.Some? && next.Some? && k + next.value.n == n + rest.value.n + d && next.value.why == rest.value.why
    requires moved == AllMoved(found, c, d) && next.value.found == AllMoved(rest.value.found, c, d)
    ensures Follow(Later(n, found, rest), Later(k, moved, next), c, d)
  {
    MovedConcat(found, rest.value.found, c, d);
    hide AllMoved;
  }

  /** What is behind the target is what it was, moved. */
  lemma ItemsBehind(y: string, at: int, path: seq<string>, root: bool, c: int, d: int)
    requires Items(y, at, path, root).Some? && c < at
    ensures
      var a, b := Items(y, at, path, root).value, Items(y, at + d, path, root);
      b.Some? && b.value.n == a.n && b.value.why == a.why && b.value.found == AllMoved(a.found, c, d)
  {
    hide *;
    var r := Items(y, at, path, root);
    ItemsShift(y, at, path, root, d);
    ShiftedRead(r, d);
    TomlRanges.ItemsFit(y, at, path, root);
    MovedAfter(y, at, r.value.n, r.value.found, c, d);
  }

  lemma ShiftedRead(r: Option<Read>, d: int)
    requires r.Some?
    ensures ShiftRead(r, d) == Some(Read(r.value.n, r.value.why, Shifted(r.value.found, d)))
  {
    hide Shifted;
  }

  lemma {:induction false} ReplaceItems(s: string, at: int, path: seq<string>, root: bool, m: nat, l: nat, want: IniCodec.Literal, f: Found)
    requires IniLaws.Sound(want) && Target(s, at, m, l, f) && Equals(s, at, f)
    requires Items(s, at, path, root).Some? && f in Items(s, at, path, root).value.found
    ensures Follow(Items(s, at, path, root), Items(Put(s, m, l, Spelled(want)), at, path, root), at + m, |Spelled(want)| - l)
    decreases |s|, 4
  {
    hide *;
    ItemsIs(s, at, path, root);
    SomeText(s, at, m, l, f);
    match NextItem(s)
    case End(n) =>
    case Broken =>
    case Skip(n) =>
      TomlRanges.LaterIs(n, [], Items(s[n..], at + n, path, root));
      ReplaceAfterSkip(s, at, path, root, m, l, want, f, n, Items(s[n..], at + n, path, root).value);
    case Key(parts, keyEnd, valueAt) =>
      ReplaceAtKey(s, at, path, root, m, l, want, f, parts, keyEnd, valueAt);
  }

  lemma {:induction false} ReplaceAtKey(s: string, at: int, path: seq<string>, root: bool, m: nat, l: nat, want: IniCodec.Literal, f: Found, parts: seq<string>, keyEnd: nat, valueAt: nat)
    requires IniLaws.Sound(want) && Target(s, at, m, l, f) && Equals(s, at, f)
    requires Items(s, at, path, root).Some? && f in Items(s, at, path, root).value.found
    requires NextItem(s) == Key(parts, keyEnd, valueAt)
    ensures Follow(Items(s, at, path, root), Items(Put(s, m, l, Spelled(want)), at, path, root), at + m, |Spelled(want)| - l)
    decreases |s|, 3
  {
    hide *;
    ItemsIs(s, at, path, root);
    SomeText(s, at, m, l, f);
    var u := s[valueAt..];
    var got := Assign(u, at + valueAt, path + parts, at + keyEnd, root);
    var n := valueAt + got.value.n;
    assert at + valueAt + got.value.n == at + n;
    var rest := Items(s[n..], at + n, path, root);
    TomlRanges.LaterIs(n, got.value.found, rest);
    AssignIs(u, at + valueAt, path + parts, at + keyEnd, root);
    var r := Value(u, at + valueAt, path + parts, root);
    TomlRanges.RecordedIs(u, at + valueAt, path + parts, at + keyEnd, root, r);
    if f == got.value.found[|r.value.found|] {
      ReplaceSelf(s, at, path, root, m, l, want, f, NextItem(s), got.value);
    } else if f in got.value.found {
      assert f in r.value.found;
      ReplaceInside(s, at, path, root, m, l, want, f, NextItem(s), r.value);
    } else {
      ReplaceAfterKey(s, at, path, root, m, l, want, f, NextItem(s), got.value, n, rest.value);
    }
  }

  lemma {:induction false} ReplaceAfterSkip(s: string, at: int, path: seq<string>, root: bool, m: nat, l: nat, want: IniCodec.Literal, f: Found, n: nat, rest: Read)
    requires 1 <= n <= |s| && Items(s[n..], at + n, path, root) == Some(rest) && f in rest.found
    requires NextItem(s) == Skip(n)
    requires IniLaws.Sound(want) && Target(s, at, m, l, f) && Equals(s, at, f)
    ensures Follow(Items(s, at, path, root), Items(Put(s, m, l, Spelled(want)), at, path, root), at + m, |Spelled(want)| - l)
    decreases |s|, 2
  {
    hide *;
    SomeText(s, at, m, l, f);
    var v := Spelled(want);
    var t, d := Put(s, m, l, v), |v| - l;
    TomlRanges.ItemsFit(s[n..], at + n, path, root);
    FitIn(s[n..], at + n, rest.n, rest.found, f);
    TargetRest(s, at, m, l, f, n);
    EqualsRest(s, at, f, n);
    PutRest(s, m, l, v, n);
    assert at + n + (m - n) == at + m;
    ReplaceItems(s[n..], at + n, path, root, m - n, l, want, f);
    PutAgrees(s, m, l, v);
    NextItemLocal(s, t, m);
    ItemsIs(s, at, path, root);
    ItemsIs(t, at, path, root);
    FollowIs(Some(rest), Items(t[n..], at + n, path, root), at + m, d);
    NoneMoved(at + m, d);
    LaterFollows(n, [], Some(rest), [], Items(t[n..], at + n, path, root), n, at + m, d);
  }

  lemma NoneMoved(c: int, d: int)
    ensures AllMoved([], c, d) == []
  {
  }

  /** One key of an inline table and the rest of it, at one offset. */
  lemma ItemsKey(s: string, at: int, path: seq<string>, root: bool, k: Item, a: Read)
    requires NextItem(s) == k && k.Key? && k.valueAt <= |s|
    requires Assign(s[k.valueAt..], at + k.valueAt, path + k.parts, at + k.keyEnd, root) == Some(a)
    ensures
      var n := k.valueAt + a.n;
      n <= |s| && Items(s, at, path, root) == Later(n, a.found, Items(s[n..], at + n, path, root))
  {
    hide *;
    ItemsIs(s, at, path, root);
    assert at + (k.valueAt + a.n) == at + k.valueAt + a.n;
  }

  /** Whether the spaces behind a value are read with it makes no difference. */
  lemma SpacesEither(s: string, at: int, path: seq<string>, root: bool, m: nat, l: nat, n: nat, found: seq<Found>)
    requires m <= |s| && IntoGaps(s[m..], l, n)
    ensures m + l <= m + n <= |s|
    ensures Later(m + n, found, Items(s[m + n..], at + (m + n), path, root))
         == Later(m + l, found, Items(s[m + l..], at + (m + l), path, root))
  {
    hide *;
    RestOf(s, m, l, n);
    ItemsGaps(s[m + l..], n - l, at + (m + l), path, root);
    assert at + (m + l) + (n - l) == at + (m + n);
    SkipLater(m + l, n - l, found, Items(s[m + n..], at + (m + n), path, root));
  }

  /** Reading goes on behind the old value as behind the new one. */
  lemma SelfFollows(y: string, at: int, path: seq<string>, root: bool, m: nat, l: nat, n: nat, f: Found)
    requires Items(y, at + (m + l), path, root).Some? && l > 0
    ensures Follow(Later(m + l, [f], Items(y, at + (m + l), path, root)),
                   Later(m + n, [Moved(f, at + m, n - l)], Items(y, at + (m + n), path, root)), at + m, n - l)
  {
    hide *;
    ItemsBehind(y, at + (m + l), path, root, at + m, n - l);
    assert at + (m + l) + (n - l) == at + (m + n);
    OneMoved(f, at + m, n - l);
    LaterFollows(m + l, [f], Items(y, at + (m + l), path, root), [Moved(f, at + m, n - l)],
                 Items(y, at + (m + n), path, root), m + n, at + m, n - l);
  }

  lemma ReplaceSelf(s: string, at: int, path: seq<string>, root: bool, m: nat, l: nat, want: IniCodec.Literal, f: Found, k: Item, a: Read)
    requires k.Key? && k.valueAt == m && m <= |s| && a.found != [] && f == a.found[|a.found| - 1]
    requires Assign(s[m..], at + m, path + k.parts, at + k.keyEnd, root) == Some(a)
    requires NextItem(s) == k && Items(s, at, path, root).Some?
    requires IniLaws.Sound(want) && Target(s, at, m, l, f) && Equals(s, at, f)
    ensures Follow(Items(s, at, path, root), Items(Put(s, m, l, Spelled(want)), at, path, root), at + m, |Spelled(want)| - l)
  {
    hide *;
    SomeText(s, at, m, l, f);
    var v := Spelled(want);
    var t := Put(s, m, l, v);
    ItemsIs(s, at, path, root);
    TargetRest(s, at, m, l, f, m);
    PutRest(s, m, l, v, m);
    SelfReplaced(s[m..], at + m, path + k.parts, at + k.keyEnd, root, l, want, f);
    SelfTarget(s, at, m, l, v, want, f);
    var b := Assign(t[m..], at + m, path + k.parts, at + k.keyEnd, root).value;
    ItemsKey(s, at, path, root, k, a);
    ItemsKey(t, at, path, root, k, b);
    SpacesEither(s, at, path, root, m, l, a.n, [f]);
    SpacesEither(t, at, path, root, m, |v|, b.n, b.found);
    PutAfter(s, m, l, v, m + l);
    TomlRanges.LaterIs(m + l, [f], Items(s[m + l..], at + (m + l), path, root));
    SelfFollows(s[m + l..], at, path, root, m, l, |v|, f);
  }

  lemma SelfTarget(s: string, at: int, m: nat, l: nat, v: string, want: IniCodec.Literal, f: Found)
    requires IniLaws.Sound(want) && v == Spelled(want) && m + l <= |s|
    requires NextItem(s).Key? && NextItem(s).valueAt == m
    requires f.keyEnd == at + NextItem(s).keyEnd && f.start == at + m && Equals(s, at, f)
    ensures m <= |Put(s, m, l, v)| && NextItem(Put(s, m, l, v)) == NextItem(s)
  {
    hide *;
    PutAgrees(s, m, l, v);
    SpellIsCompact(want);
    CompactIs(v);
    EqualsIs(s, at, f, NextItem(s).keyEnd, m);
    NextItemTarget(s, Put(s, m, l, v), m);
  }

  lemma EqualsIs(s: string, at: int, f: Found, keyEnd: nat, m: nat)
    requires m <= |s| && f.keyEnd == at + keyEnd && f.start == at + m && Equals(s, at, f)
    ensures Assigned(s, keyEnd, m)
  {
    var i :| f.keyEnd - at <= i < f.start - at && 0 <= i < |s| && s[i] == '=';
    assert keyEnd <= i < m && s[i] == '=';
  }

  lemma CompactIs(v: string)
    requires Compact(v)
    ensures v != [] && !IsGap(v[0]) && !IsGap(v[|v| - 1])
  {
  }

  lemma OneMoved(f: Found, c: int, d: int)
    ensures AllMoved([f], c, d) == [Moved(f, c, d)]
  {
  }

  lemma SkipLater(n: nat, k: nat, found: seq<Found>, rest: Option<Read>)
    ensures Later(n, found, Later(k, [], rest)) == Later(n + k, found, rest)
  {
    if rest.Some? { assert [] + rest.value.found == rest.value.found; }
  }

  /** The spaces behind a value of l bytes that starts at byte m. */
  lemma RestOf(s: string, m: nat, l: nat, n: nat)
    requires m <= |s| && IntoGaps(s[m..], l, n)
    ensures l <= n && m + n <= |s| && s[m + l..][n - l..] == s[m + n..]
    ensures var y := s[m + l..]; forall i :: 0 <= i < n - l ==> IsGap(y[i])
  {
    var y := s[m + l..];
    forall i | 0 <= i < n - l ensures IsGap(y[i]) {
      assert y[i] == s[m..][l + i];
    }
  }

  lemma {:induction false} ReplaceInside(s: string, at: int, path: seq<string>, root: bool, m: nat, l: nat, want: IniCodec.Literal, f: Found, k: Item, r: Read)
    requires k.Key? && k.valueAt <= |s|
    requires Value(s[k.valueAt..], at + k.valueAt, path + k.parts, root) == Some(r) && f in r.found
    requires NextItem(s) == k && Items(s, at, path, root).Some?
    requires IniLaws.Sound(want) && Target(s, at, m, l, f) && Equals(s, at, f)
    ensures Follow(Items(s, at, path, root), Items(Put(s, m, l, Spelled(want)), at, path, root), at + m, |Spelled(want)| - l)
    decreases |s|, 2
  {
    hide *;
    SomeText(s, at, m, l, f);
    var v := Spelled(want);
    var t, d := Put(s, m, l, v), |v| - l;
    ItemsIs(s, at, path, root);
    var u := s[k.valueAt..];
    InsideStarts(u, at + k.valueAt, path + k.parts, root, f);
    TargetRest(s, at, m, l, f, k.valueAt);
    EqualsRest(s, at, f, k.valueAt);
    PutRest(s, m, l, v, k.valueAt);
    PutAgrees(s, m, l, v);
    ReplaceAssign(u, at + k.valueAt, path + k.parts, at + k.keyEnd, root, m - k.valueAt, l, want, f);
    assert at + k.valueAt + (m - k.valueAt) == at + m;
    var a := Assign(u, at + k.valueAt, path + k.parts, at + k.keyEnd, root);
    var b := Assign(t[k.valueAt..], at + k.valueAt, path + k.parts, at + k.keyEnd, root);
    FollowIs(a, b, at + m, d);
    NextItemLocal(s, t, m);
    ItemsKey(s, at, path, root, k, a.value);
    ItemsKey(t, at, path, root, k, b.value);
    var n := k.valueAt + a.value.n;
    PutAfter(s, m, l, v, n);
    TomlRanges.LaterIs(n, a.value.found, Items(s[n..], at + n, path, root));
    InsideFollows(s[n..], at, path, root, n, a.value.found, b.value.found, at + m, d);
  }

  lemma InsideStarts(u: string, at: int, path: seq<string>, root: bool, f: Found)
    requires Value(u, at, path, root).Some? && f in Value(u, at, path, root).value.found
    ensures at <= f.keyEnd <= f.start
  {
    hide *;
    TomlRanges.ValueFits(u, at, path, root);
    FitIn(u, at, Value(u, at, path, root).value.n, Value(u, at, path, root).value.found, f);
  }

  lemma InsideFollows(y: string, at: int, path: seq<string>, root: bool, n: nat, a: seq<Found>, b: seq<Found>, c: int, d: int)
    requires Items(y, at + n, path, root).Some? && b == AllMoved(a, c, d) && c < at + n && n + d >= 0
    ensures Follow(Later(n, a, Items(y, at + n, path, root)), Later(n + d, b, Items(y, at + (n + d), path, root)), c, d)
  {
    hide *;
    ItemsBehind(y, at + n, path, root, c, d);
    assert at + n + d == at + (n + d);
    LaterFollows(n, a, Items(y, at + n, path, root), b, Items(y, at + (n + d), path, root), n + d, c, d);
  }

  /** Assignments start behind what came before them. */
  lemma ItemsAhead(s: string, at: int, path: seq<string>, root: bool, f: Found)
    requires Items(s, at, path, root).Some? && f in Items(s, at, path, root).value.found
    ensures at <= f.keyEnd && at < f.start
  {
    hide *;
    ItemsIs(s, at, path, root);
    match NextItem(s)
    case End(n) =>
    case Broken =>
    case Skip(n) =>
      SkipAhead(s, at, path, root, f, n);
    case Key(parts, keyEnd, valueAt) =>
      KeyAhead(s, at, path, root, f, parts, keyEnd, valueAt);
  }

  lemma SkipAhead(s: string, at: int, path: seq<string>, root: bool, f: Found, n: nat)
    requires Items(s, at, path, root).Some? && f in Items(s, at, path, root).value.found
    requires NextItem(s) == Skip(n)
    ensures at <= f.keyEnd && at < f.start
  {
    hide *;
    ItemsIs(s, at, path, root);
    var rest := Items(s[n..], at + n, path, root);
    TomlRanges.LaterIs(n, [], rest);
    TomlRanges.ItemsFit(s[n..], at + n, path, root);
    FitIn(s[n..], at + n, rest.value.n, rest.value.found, f);
  }

  lemma KeyAhead(s: string, at: int, path: seq<string>, root: bool, f: Found, parts: seq<string>, keyEnd: nat, valueAt: nat)
    requires Items(s, at, path, root).Some? && f in Items(s, at, path, root).value.found
    requires NextItem(s) == Key(parts, keyEnd, valueAt)
    ensures at <= f.keyEnd && at < f.start
  {
    hide *;
    TomlRanges.ItemsFit(s, at, path, root);
    FitIn(s, at, Items(s, at, path, root).value.n, Items(s, at, path, root).value.found, f);
    ItemsIs(s, at, path, root);
    var got := Assign(s[valueAt..], at + valueAt, path + parts, at + keyEnd, root);
    if got.Some? {
      var n := valueAt + got.value.n;
      assert at + valueAt + got.value.n == at + n;
      var rest := Items(s[n..], at + n, path, root);
      TomlRanges.LaterIs(n, got.value.found, rest);
      if f in got.value.found {
        AssignAhead(s[valueAt..], at + valueAt, path + parts, at + keyEnd, root, f);
      } else {
        TomlRanges.ItemsFit(s[n..], at + n, path, root);
        FitIn(s[n..], at + n, rest.value.n, rest.value.found, f);
      }
    }
  }

  lemma AssignAhead(s: string, at: int, path: seq<string>, keyEnd: int, root: bool, f: Found)
    requires Assign(s, at, path, keyEnd, root).Some? && f in Assign(s, at, path, keyEnd, root).value.found
    ensures f.start >= at && f.end <= at + Assign(s, at, path, keyEnd, root).value.n
  {
    hide *;
    AssignIs(s, at, path, keyEnd, root);
    var r := Value(s, at, path, root);
    TomlRanges.RecordedIs(s, at, path, keyEnd, root, r);
    TomlRanges.EndTrims(s, r.value.n);
    if f in r.value.found {
      TomlRanges.ValueFits(s, at, path, root);
      FitIn(s, at, r.value.n, r.value.found, f);
    } else {
      assert f == Assign(s, at, path, keyEnd, root).value.found[|r.value.found|];
    }
  }

  lemma KeyAgain(s: string, t: string, m: nat, at: int, path: seq<string>, root: bool, k: Item, a: Read)
    requires Agree(s, t, m) && NextItem(s) == k && k.Key? && k.valueAt <= |s|
    requires Assign(s[k.valueAt..], at + k.valueAt, path + k.parts, at + k.keyEnd, root) == Some(a) && k.valueAt + a.n < m
    ensures NextItem(t) == k && k.valueAt <= |t|
    ensures Assign(t[k.valueAt..], at + k.valueAt, path + k.parts, at + k.keyEnd, root) == Some(a)
  {
    hide *;
    NextItemLocal(s, t, m);
    AgreeRest(s, t, m, k.valueAt);
    AgreeLong(s, t, m);
    AssignLocal(s[k.valueAt..], t[k.valueAt..], m - k.valueAt, at + k.valueAt, path + k.parts, at + k.keyEnd, root);
  }

  lemma AgreeLong(s: string, t: string, m: nat)
    requires Agree(s, t, m)
    ensures m <= |s| && m <= |t|
  {
  }

  lemma {:induction false} ReplaceAfterKey(s: string, at: int, path: seq<string>, root: bool, m: nat, l: nat, want: IniCodec.Literal, f: Found, k: Item, a: Read, n: nat, rest: Read)
    requires k.Key? && k.valueAt <= n <= |s| && n == k.valueAt + a.n
    requires Items(s[n..], at + n, path, root) == Some(rest) && f in rest.found
    requires Assign(s[k.valueAt..], at + k.valueAt, path + k.parts, at + k.keyEnd, root) == Some(a) && NextItem(s) == k
    requires IniLaws.Sound(want) && Target(s, at, m, l, f) && Equals(s, at, f)
    ensures Follow(Items(s, at, path, root), Items(Put(s, m, l, Spelled(want)), at, path, root), at + m, |Spelled(want)| - l)
    decreases |s|, 2
  {
    hide *;
    SomeText(s, at, m, l, f);
    var v := Spelled(want);
    var t, d := Put(s, m, l, v), |v| - l;
    assert at + k.valueAt + a.n == at + n;
    ItemsAhead(s[n..], at + n, path, root, f);
    TargetRest(s, at, m, l, f, n);
    EqualsRest(s, at, f, n);
    PutRest(s, m, l, v, n);
    assert at + n + (m - n) == at + m;
    ReplaceItems(s[n..], at + n, path, root, m - n, l, want, f);
    PutAgrees(s, m, l, v);
    KeyAgain(s, t, m, at, path, root, k, a);
    ItemsKey(s, at, path, root, k, a);
    ItemsKey(t, at, path, root, k, a);
    FollowIs(Items(s[n..], at + n, path, root), Items(t[n..], at + n, path, root), at + m, d);
    KeyBefore(s, at, k.keyEnd, k.valueAt, path + k.parts, root, at + m, d);
    LaterFollows(n, a.found, Items(s[n..], at + n, path, root), a.found, Items(t[n..], at + n, path, root), n, at + m, d);
  }

  /** What was read before the target does not move. */
  lemma KeyBefore(s: string, at: int, keyEnd: nat, valueAt: nat, path: seq<string>, root: bool, c: int, d: int)
    requires keyEnd <= valueAt <= |s|
    requires var a := Assign(s[valueAt..], at + valueAt, path, at + keyEnd, root); a.Some? && at + valueAt + a.value.n <= c
    ensures
      var a := Assign(s[valueAt..], at + valueAt, path, at + keyEnd, root).value;
      AllMoved(a.found, c, d) == a.found
  {
    hide *;
    var a := Assign(s[valueAt..], at + valueAt, path, at + keyEnd, root).value;
    TomlRanges.AssignFits(s[valueAt..], at + valueAt, path, at + keyEnd, root);
    TomlRanges.KeyFits(s, at, keyEnd, valueAt, a.n, a.found);
    MovedBefore(s, at, valueAt + a.n, a.found, c, d);
  }

  // ---- the file ----

  function ScanMoved(r: Scan, c: int, d: int): Scan {
    Scan(AllMoved(r.assigns, c, d), HeadersMoved(r.headers, c, d))
  }

  lemma ThenMoves(a: seq<Found>, h: seq<Header>, rest: Option<Scan>, b: seq<Found>, g: seq<Header>, next: Option<Scan>, c: int, d: int)
    requires rest.Some? && next == Some(ScanMoved(rest.value, c, d))
    requires b == AllMoved(a, c, d) && g == HeadersMoved(h, c, d)
    ensures Then(a, h, rest).Some? && Then(b, g, next) == Some(ScanMoved(Then(a, h, rest).value, c, d))
  {
    MovedConcat(a, rest.value.assigns, c, d);
    assert HeadersMoved(h + rest.value.headers, c, d) == HeadersMoved(h, c, d) + HeadersMoved(rest.value.headers, c, d);
    hide AllMoved, HeadersMoved;
  }

  lemma {:induction false} HeadersAhead(s: string, at: int, table: seq<string>)
    requires Run(s, at, table).Some?
    ensures forall h :: h in Run(s, at, table).value.headers ==> h.at > at
    decreases |s|
  {
    hide *;
    RunIs(s, at, table);
    match NextTop(s)
    case Done =>
    case Over(n) => HeadersAhead(s[n..], at + n, table);
    case Table(path, many, h, n) =>
      TomlRanges.ThenGives([], [Header(path, at + h, many)], Run(s[n..], at + n, path));
      HeadersAhead(s[n..], at + n, path);
    case Assignment(parts, keyEnd, valueAt) =>
      var got := Assign(s[valueAt..], at + valueAt, table + parts, at + keyEnd, table == []);
      if got.Some? {
        var n := valueAt + got.value.n;
        TomlRanges.ThenGives(got.value.found, [], Run(s[n..], at + valueAt + got.value.n, table));
        HeadersAhead(s[n..], at + valueAt + got.value.n, table);
      }
  }

  lemma RunBehind(y: string, at: int, table: seq<string>, c: int, d: int)
    requires Run(y, at, table).Some? && c < at
    ensures Run(y, at + d, table) == Some(ScanMoved(Run(y, at, table).value, c, d))
  {
    hide *;
    var r := Run(y, at, table);
    RunShift(y, at, table, d);
    TomlRanges.RunFits(y, at, table);
    MovedAfter(y, at, |y|, r.value.assigns, c, d);
    HeadersAhead(y, at, table);
    ShiftedIs(r.value, at, c, d);
  }

  lemma ShiftedIs(r: Scan, at: int, c: int, d: int)
    requires AllMoved(r.assigns, c, d) == Shifted(r.assigns, d) && c < at
    requires forall h :: h in r.headers ==> h.at > at
    ensures ShiftScan(Some(r), d) == Some(ScanMoved(r, c, d))
  {
    hide AllMoved, Shifted;
    forall i | 0 <= i < |r.headers| ensures HeadersMoved(r.headers, c, d)[i] == ShiftedHeaders(r.headers, d)[i] {
      assert r.headers[i] in r.headers;
    }
    assert HeadersMoved(r.headers, c, d) == ShiftedHeaders(r.headers, d);
  }

  lemma RunAhead(s: string, at: int, table: seq<string>, f: Found)
    requires Run(s, at, table).Some? && f in Run(s, at, table).value.assigns
    ensures f.start >= at
  {
    hide *;
    TomlRanges.RunFits(s, at, table);
    FitIn(s, at, |s|, Run(s, at, table).value.assigns, f);
  }

  lemma TidyTop(s: string, at: int, table: seq<string>)
    requires Tidy(s, at, table)
    ensures
      match NextTop(s)
      case Done => true
      case Over(n) => n <= |s| && SteppedOver(s, n) && Tidy(s[n..], at + n, table)
      case Table(path, _, _, n) => n <= |s| && Tidy(s[n..], at + n, path)
      case Assignment(parts, keyEnd, valueAt) =>
        && valueAt <= |s|
        && var a := Assign(s[valueAt..], at + valueAt, table + parts, at + keyEnd, table == []);
           && a.Some? && valueAt + a.value.n <= |s|
           && Tidy(s[valueAt + a.value.n..], at + valueAt + a.value.n, table)
  {
    hide NextTop, Assign, SteppedOver;
  }

  lemma {:induction false} ReplaceRun(s: string, at: int, table: seq<string>, m: nat, l: nat, want: IniCodec.Literal, f: Found)
    requires Run(s, at, table).Some? && f in Run(s, at, table).value.assigns
    requires IniLaws.Sound(want) && Target(s, at, m, l, f) && Equals(s, at, f) && Tidy(s, at, table)
    ensures Run(Put(s, m, l, Spelled(want)), at, table) == Some(ScanMoved(Run(s, at, table).value, at + m, |Spelled(want)| - l))
    decreases |s|, 2
  {
    hide *;
    RunIs(s, at, table);
    SomeText(s, at, m, l, f);
    match NextTop(s)
    case Done =>
    case Over(n) =>
      RunAfterOver(s, at, table, m, l, want, f, n);
    case Table(path, many, h, n) =>
      TomlRanges.ThenGives([], [Header(path, at + h, many)], Run(s[n..], at + n, path));
      RunAfterTable(s, at, table, m, l, want, f, NextTop(s), Run(s[n..], at + n, path).value);
    case Assignment(parts, keyEnd, valueAt) =>
      RunAtKey(s, at, table, m, l, want, f, parts, keyEnd, valueAt);
  }

  lemma {:induction false} RunAtKey(s: string, at: int, table: seq<string>, m: nat, l: nat, want: IniCodec.Literal, f: Found, parts: seq<string>, keyEnd: nat, valueAt: nat)
    requires NextTop(s) == Assignment(parts, keyEnd, valueAt) && Run(s, at, table).Some? && f in Run(s, at, table).value.assigns
    requires IniLaws.Sound(want) && Target(s, at, m, l, f) && Equals(s, at, f) && Tidy(s, at, table)
    ensures Run(Put(s, m, l, Spelled(want)), at, table) == Some(ScanMoved(Run(s, at, table).value, at + m, |Spelled(want)| - l))
    decreases |s|, 1
  {
    hide *;
    RunIs(s, at, table);
    TidyTop(s, at, table);
    SomeText(s, at, m, l, f);
    var u := s[valueAt..];
    var got := Assign(u, at + valueAt, table + parts, at + keyEnd, table == []);
    var n := valueAt + got.value.n;
    assert at + valueAt + got.value.n == at + n;
    var rest := Run(s[n..], at + n, table);
    TomlRanges.ThenGives(got.value.found, [], rest);
    AssignIs(u, at + valueAt, table + parts, at + keyEnd, table == []);
    var r := Value(u, at + valueAt, table + parts, table == []);
    TomlRanges.RecordedIs(u, at + valueAt, table + parts, at + keyEnd, table == [], r);
    if f == got.value.found[|r.value.found|] {
      RunSelf(s, at, table, m, l, want, f, NextTop(s), got.value);
    } else if f in got.value.found {
      assert f in r.value.found;
      RunInside(s, at, table, m, l, want, f, NextTop(s), r.value);
    } else {
      RunAfterKey(s, at, table, m, l, want, f, NextTop(s), got.value, n, rest.value);
    }
  }

  lemma {:induction false} RunAfterOver(s: string, at: int, table: seq<string>, m: nat, l: nat, want: IniCodec.Literal, f: Found, n: nat)
    requires n <= |s| && NextTop(s) == Over(n) && Run(s, at, table).Some? && f in Run(s, at, table).value.assigns
    requires IniLaws.Sound(want) && Target(s, at, m, l, f) && Equals(s, at, f) && Tidy(s, at, table)
    ensures Run(Put(s, m, l, Spelled(want)), at, table) == Some(ScanMoved(Run(s, at, table).value, at + m, |Spelled(want)| - l))
    decreases |s|, 0
  {
    hide *;
    SomeText(s, at, m, l, f);
    var v := Spelled(want);
    var t := Put(s, m, l, v);
    RunIs(s, at, table);
    TidyTop(s, at, table);
    RunStartsAhead(s[n..], at + n, table, f);
    TargetRest(s, at, m, l, f, n);
    EqualsRest(s, at, f, n);
    PutRest(s, m, l, v, n);
    assert at + n + (m - n) == at + m;
    ReplaceRun(s[n..], at + n, table, m - n, l, want, f);
    PutAgrees(s, m, l, v);
    NextTopLocal(s, t, m);
    RunIs(t, at, table);
  }

  lemma {:induction false} RunAfterTable(s: string, at: int, table: seq<string>, m: nat, l: nat, want: IniCodec.Literal, f: Found, k: Top, rest: Scan)
    requires k.Table? && k.n <= |s| && Run(s[k.n..], at + k.n, k.path) == Some(rest) && f in rest.assigns
    requires NextTop(s) == k && Run(s, at, table).Some?
    requires IniLaws.Sound(want) && Target(s, at, m, l, f) && Equals(s, at, f) && Tidy(s, at, table)
    ensures Run(Put(s, m, l, Spelled(want)), at, table) == Some(ScanMoved(Run(s, at, table).value, at + m, |Spelled(want)| - l))
    decreases |s|, 0
  {
    hide *;
    SomeText(s, at, m, l, f);
    var v, n := Spelled(want), k.n;
    var t, d := Put(s, m, l, v), |v| - l;
    RunIs(s, at, table);
    TidyTop(s, at, table);
    RunStartsAhead(s[n..], at + n, k.path, f);
    TargetRest(s, at, m, l, f, n);
    EqualsRest(s, at, f, n);
    PutRest(s, m, l, v, n);
    assert at + n + (m - n) == at + m;
    ReplaceRun(s[n..], at + n, k.path, m - n, l, want, f);
    PutAgrees(s, m, l, v);
    NextTopLocal(s, t, m);
    RunIs(t, at, table);
    var h := Header(k.path, at + k.at, k.many);
    HeaderStays(h, at + m, d);
    ThenMoves([], [h], Run(s[n..], at + n, k.path), [], [h], Run(t[n..], at + n, k.path), at + m, d);
  }

  lemma HeaderStays(h: Header, c: int, d: int)
    requires h.at <= c
    ensures HeadersMoved([h], c, d) == [h] && AllMoved([], c, d) == []
    ensures HeadersMoved([], c, d) == []
  {
  }

  lemma NoneMovedAtAll(c: int, d: int)
    ensures HeadersMoved([], c, d) == [] && AllMoved([], c, d) == []
  {
  }

  lemma RunKey(s: string, at: int, table: seq<string>, k: Top, a: Read)
    requires k.Assignment? && k.valueAt <= |s|
    requires Assign(s[k.valueAt..], at + k.valueAt, table + k.parts, at + k.keyEnd, table == []) == Some(a)
    requires NextTop(s) == k
    ensures
      var n := k.valueAt + a.n;
      n <= |s| && Run(s, at, table) == Then(a.found, [], Run(s[n..], at + n, table))
  {
    hide *;
    RunIs(s, at, table);
    assert at + (k.valueAt + a.n) == at + k.valueAt + a.n;
  }

  lemma RunEither(s: string, at: int, table: seq<string>, m: nat, l: nat, n: nat)
    requires m <= |s| && IntoGaps(s[m..], l, n)
    ensures m + l <= m + n <= |s|
    ensures Run(s[m + n..], at + (m + n), table) == Run(s[m + l..], at + (m + l), table)
  {
    hide *;
    RestOf(s, m, l, n);
    RunGaps(s[m + l..], n - l, at + (m + l), table);
    assert at + (m + l) + (n - l) == at + (m + n);
  }

  lemma RunFollows(y: string, at: int, table: seq<string>, n: nat, a: seq<Found>, b: seq<Found>, c: int, d: int)
    requires Run(y, at + n, table).Some? && b == AllMoved(a, c, d) && c < at + n && n + d >= 0
    ensures
      && Then(a, [], Run(y, at + n, table)).Some?
      && Then(b, [], Run(y, at + (n + d), table)) == Some(ScanMoved(Then(a, [], Run(y, at + n, table)).value, c, d))
  {
    hide *;
    RunBehind(y, at + n, table, c, d);
    assert at + n + d == at + (n + d);
    NoneMovedAtAll(c, d);
    ThenMoves(a, [], Run(y, at + n, table), b, [], Run(y, at + (n + d), table), c, d);
  }

  lemma RunSelf(s: string, at: int, table: seq<string>, m: nat, l: nat, want: IniCodec.Literal, f: Found, k: Top, a: Read)
    requires k.Assignment? && k.valueAt <= |s| && a.found != [] && f == a.found[|a.found| - 1] && k.valueAt == m
    requires Assign(s[m..], at + m, table + k.parts, at + k.keyEnd, table == []) == Some(a)
    requires NextTop(s) == k && Run(s, at, table).Some?
    requires IniLaws.Sound(want) && Target(s, at, m, l, f)
    ensures Run(Put(s, m, l, Spelled(want)), at, table) == Some(ScanMoved(Run(s, at, table).value, at + m, |Spelled(want)| - l))
  {
    hide *;
    SomeText(s, at, m, l, f);
    var v := Spelled(want);
    var t := Put(s, m, l, v);
    RunIs(s, at, table);
    TargetRest(s, at, m, l, f, m);
    PutRest(s, m, l, v, m);
    SelfReplaced(s[m..], at + m, table + k.parts, at + k.keyEnd, table == [], l, want, f);
    SpellIsCompact(want);
    CompactIs(v);
    PutAgrees(s, m, l, v);
    NextTopLocal(s, t, m);
    var b := Assign(t[m..], at + m, table + k.parts, at + k.keyEnd, table == []).value;
    RunKey(s, at, table, k, a);
    RunKey(t, at, table, k, b);
    RunEither(s, at, table, m, l, a.n);
    RunEither(t, at, table, m, |v|, b.n);
    PutAfter(s, m, l, v, m + l);
    TomlRanges.ThenGives(a.found, [], Run(s[m + l..], at + (m + l), table));
    OneMoved(f, at + m, |v| - l);
    RunFollows(s[m + l..], at, table, m + l, a.found, b.found, at + m, |v| - l);
  }

  lemma {:induction false} RunInside(s: string, at: int, table: seq<string>, m: nat, l: nat, want: IniCodec.Literal, f: Found, k: Top, r: Read)
    requires k.Assignment? && k.keyEnd < k.valueAt <= |s|
    requires Value(s[k.valueAt..], at + k.valueAt, table + k.parts, table == []) == Some(r) && f in r.found
    requires NextTop(s) == k && Run(s, at, table).Some?
    requires IniLaws.Sound(want) && Target(s, at, m, l, f) && Equals(s, at, f) && Tidy(s, at, table)
    ensures Run(Put(s, m, l, Spelled(want)), at, table) == Some(ScanMoved(Run(s, at, table).value, at + m, |Spelled(want)| - l))
  {
    hide *;
    SomeText(s, at, m, l, f);
    var v := Spelled(want);
    var t, d := Put(s, m, l, v), |v| - l;
    RunIs(s, at, table);
    TidyTop(s, at, table);
    var u := s[k.valueAt..];
    InsideStarts(u, at + k.valueAt, table + k.parts, table == [], f);
    TargetRest(s, at, m, l, f, k.valueAt);
    EqualsRest(s, at, f, k.valueAt);
    PutRest(s, m, l, v, k.valueAt);
    PutAgrees(s, m, l, v);
    ReplaceAssign(u, at + k.valueAt, table + k.parts, at + k.keyEnd, table == [], m - k.valueAt, l, want, f);
    assert at + k.valueAt + (m - k.valueAt) == at + m;
    var a := Assign(u, at + k.valueAt, table + k.parts, at + k.keyEnd, table == []);
    var b := Assign(t[k.valueAt..], at + k.valueAt, table + k.parts, at + k.keyEnd, table == []);
    FollowIs(a, b, at + m, d);
    NextTopLocal(s, t, m);
    RunKey(s, at, table, k, a.value);
    RunKey(t, at, table, k, b.value);
    var n := k.valueAt + a.value.n;
    PutAfter(s, m, l, v, n);
    TomlRanges.ThenGives(a.value.found, [], Run(s[n..], at + n, table));
    RunFollows(s[n..], at, table, n, a.value.found, b.value.found, at + m, d);
  }

  lemma {:induction false} RunAfterKey(s: string, at: int, table: seq<string>, m: nat, l: nat, want: IniCodec.Literal, f: Found, k: Top, a: Read, n: nat, rest: Scan)
    requires k.Assignment? && k.keyEnd < k.valueAt <= n <= |s| && n == k.valueAt + a.n
    requires Run(s[n..], at + n, table) == Some(rest) && f in rest.assigns
    requires Assign(s[k.valueAt..], at + k.valueAt, table + k.parts, at + k.keyEnd, table == []) == Some(a) && NextTop(s) == k
    requires IniLaws.Sound(want) && Target(s, at, m, l, f) && Equals(s, at, f) && Tidy(s, at, table)
    requires Run(s, at, table).Some?
    ensures Run(Put(s, m, l, Spelled(want)), at, table) == Some(ScanMoved(Run(s, at, table).value, at + m, |Spelled(want)| - l))
    decreases |s|, 0
  {
    hide *;
    SomeText(s, at, m, l, f);
    var v := Spelled(want);
    var t, d := Put(s, m, l, v), |v| - l;
    TidyTop(s, at, table);
    assert at + k.valueAt + a.n == at + n;
    RunStartsAhead(s[n..], at + n, table, f);
    TargetRest(s, at, m, l, f, n);
    EqualsRest(s, at, f, n);
    PutRest(s, m, l, v, n);
    assert at + n + (m - n) == at + m;
    ReplaceRun(s[n..], at + n, table, m - n, l, want, f);
    PutAgrees(s, m, l, v);
    TopAgain(s, t, m, at, table, k, a);
    RunKey(s, at, table, k, a);
    RunKey(t, at, table, k, a);
    KeyBefore(s, at, k.keyEnd, k.valueAt, table + k.parts, table == [], at + m, d);
    NoneMovedAtAll(at + m, d);
    ThenMoves(a.found, [], Run(s[n..], at + n, table), a.found, [], Run(t[n..], at + n, table), at + m, d);
  }

  /** The first assignment starts behind a key, every one after a table header behind it. */
  lemma RunStartsAhead(s: string, at: int, table: seq<string>, f: Found)
    requires Run(s, at, table).Some? && f in Run(s, at, table).value.assigns
    ensures at <= f.keyEnd && at < f.start
  {
    hide *;
    TomlRanges.RunFits(s, at, table);
    FitIn(s, at, |s|, Run(s, at, table).value.assigns, f);
    RunIs(s, at, table);
    match NextTop(s)
    case Done =>
    case Over(n) => RunAhead(s[n..], at + n, table, f);
    case Table(path, many, h, n) =>
      TomlRanges.ThenGives([], [Header(path, at + h, many)], Run(s[n..], at + n, path));
      RunAhead(s[n..], at + n, path, f);
    case Assignment(parts, keyEnd, valueAt) =>
      var got := Assign(s[valueAt..], at + valueAt, table + parts, at + keyEnd, table == []);
      if got.Some? {
        var n := valueAt + got.value.n;
        assert at + valueAt + got.value.n == at + n;
        TomlRanges.ThenGives(got.value.found, [], Run(s[n..], at + n, table));
        if f in got.value.found {
          AssignAhead(s[valueAt..], at + valueAt, table + parts, at + keyEnd, table == [], f);
        } else {
          RunAhead(s[n..], at + n, table, f);
        }
      }
  }

  lemma TopAgain(s: string, t: string, m: nat, at: int, table: seq<string>, k: Top, a: Read)
    requires k.Assignment? && k.valueAt <= |s| && k.valueAt + a.n < m
    requires Assign(s[k.valueAt..], at + k.valueAt, table + k.parts, at + k.keyEnd, table == []) == Some(a) && NextTop(s) == k
    requires Agree(s, t, m) && Tidy(s, at, table)
    ensures NextTop(t) == k && k.valueAt <= |t|
    ensures Assign(t[k.valueAt..], at + k.valueAt, table + k.parts, at + k.keyEnd, table == []) == Some(a)
  {
    hide *;
    AgreeLong(s, t, m);
    NextTopLocal(s, t, m);
    TidyTop(s, at, table);
    AgreeRest(s, t, m, k.valueAt);
    AssignLocal(s[k.valueAt..], t[k.valueAt..], m - k.valueAt, at + k.valueAt, table + k.parts, at + k.keyEnd, table == []);
  }
}
