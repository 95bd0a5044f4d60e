/** Values of the toml scanner under an edit elsewhere in the text: what lies before the
    edit reads the same, and what lies after it is recorded at the moved offsets. */
module TomlMove {
  import opened Text
  import opened TomlSpec
  import opened TomlLocal
  import TomlRanges

  lemma SpansLocal(s: string, t: string, m: nat, n: nat)
    requires Agree(s, t, m) && n <= m
    ensures Spans(t, n) == Spans(s, n)
  {
    if Spans(s, n) { var i :| 0 <= i < n - 1 && s[i] == '\n'; assert t[i] == '\n'; }
    if Spans(t, n) { var i :| 0 <= i < n - 1 && t[i] == '\n'; assert s[i] == '\n'; }
  }

  lemma TableLocal(s: string, t: string, m: nat, r: Option<Read>)
    requires Agree(s, t, m) && (r.Some? ==> 1 + r.value.n <= m)
    ensures TableRead(t, r) == TableRead(s, r)
  {
    hide Spans, Marked;
    if r.Some? { SpansLocal(s, t, m, 1 + r.value.n); }
  }

  lemma RecordLocal(s: string, t: string, m: nat, at: int, path: seq<string>, keyEnd: int, root: bool, r: Option<Read>)
    requires Agree(s, t, m) && (r.Some? ==> r.value.n <= m)
    ensures Recorded(t, at, path, keyEnd, root, r) == Recorded(s, at, path, keyEnd, root, r)
  {
    hide Spans;
    if r.Some? {
      assert s[..r.value.n] == t[..r.value.n];
      SpansLocal(s, t, m, ValueEnd(s, r.value.n));
    }
  }

  /** A value read before byte m is read in every text that agrees up to there. */
  lemma {:induction false} ValueLocal(s: string, t: string, m: nat, at: int, path: seq<string>, root: bool)
    requires Agree(s, t, m) && Value(s, at, path, root).Some? && Value(s, at, path, root).value.n < m
    ensures Value(t, at, path, root) == Value(s, at, path, root)
    decreases |s|, 1
  {
    hide *;
    AgreeFirst(s, t, m);
    if s[0] == '{' {
      ValueIsTable(s, at, path, root);
      ValueIsTable(t, at, path, root);
      AgreeRest(s, t, m, 1);
      var r := Items(s[1..], at + 1, path, root);
      TomlRanges.TableFits(s, r);
      ItemsLocal(s[1..], t[1..], m - 1, at + 1, path, root);
      TableLocal(s, t, m, r);
    } else {
      LeafLocal(s, t, m, at, path, root);
    }
  }

  lemma AgreeFirst(s: string, t: string, m: nat)
    requires Agree(s, t, m) && m > 0
    ensures s != [] && t != [] && s[0] == t[0]
  {
  }

  lemma LeafLocal(s: string, t: string, m: nat, at: int, path: seq<string>, root: bool)
    requires Agree(s, t, m) && Value(s, at, path, root).Some? && Value(s, at, path, root).value.n < m
    requires s != [] && s[0] != '{'
    ensures Value(t, at, path, root) == Value(s, at, path, root)
  {
    hide Items, Spans, MultilineFrom, QuotedFrom, Bracketed, Lead;
    assert s[0] == t[0];
    if Triple(s) {
      MultilineLocal(s, t, m, s[0], 3);
    } else if IsQuote(s[0]) {
      NotTriple(s, t, m, Quoted(s).0);
      QuotedLocal(s, t, m, s[0], 1);
    } else if s[0] == '[' {
      BracketedLocal(s, t, m, 0);
      SpansLocal(s, t, m, Bracketed(s, 0).value);
    } else {
      LeadLocal(InValue, s, t, m);
    }
  }

  lemma {:induction false} AssignLocal(s: string, t: string, m: nat, at: int, path: seq<string>, keyEnd: int, root: bool)
    requires Agree(s, t, m) && Assign(s, at, path, keyEnd, root).Some? && Assign(s, at, path, keyEnd, root).value.n < m
    ensures Assign(t, at, path, keyEnd, root) == Assign(s, at, path, keyEnd, root)
    decreases |s|, 2
  {
    hide *;
    AssignIs(s, at, path, keyEnd, root);
    AssignIs(t, at, path, keyEnd, root);
    TomlRanges.RecordedIs(s, at, path, keyEnd, root, Value(s, at, path, root));
    ValueLocal(s, t, m, at, path, root);
    RecordLocal(s, t, m, at, path, keyEnd, root, Value(s, at, path, root));
  }

  lemma {:induction false} ItemsLocal(s: string, t: string, m: nat, at: int, path: seq<string>, root: bool)
    requires Agree(s, t, m) && Items(s, at, path, root).Some? && Items(s, at, path, root).value.n < m
    ensures Items(t, at, path, root) == Items(s, at, path, root)
    decreases |s|, 3
  {
    hide *;
    ItemsIs(s, at, path, root);
    ItemsIs(t, at, path, root);
    match NextItem(s)
    case End(n) => NextItemLocal(s, t, m);
    case Broken =>
    case Skip(n) =>
      TomlRanges.LaterIs(n, [], Items(s[n..], at + n, path, root));
      NextItemLocal(s, t, m);
      AgreeRest(s, t, m, n);
      ItemsLocal(s[n..], t[n..], m - n, at + n, path, root);
    case Key(parts, keyEnd, valueAt) =>
      var a := Assign(s[valueAt..], at + valueAt, path + parts, at + keyEnd, root).value;
      var n := valueAt + a.n;
      TomlRanges.LaterIs(n, a.found, Items(s[n..], at + valueAt + a.n, path, root));
      NextItemLocal(s, t, m);
      AgreeRest(s, t, m, valueAt);
      AssignLocal(s[valueAt..], t[valueAt..], m - valueAt, at + valueAt, path + parts, at + keyEnd, root);
      AgreeRest(s, t, m, n);
      ItemsLocal(s[n..], t[n..], m - n, at + valueAt + a.n, path, root);
  }

  // ---- moved offsets ----

  function Shift(f: Found, d: int): Found {
    f.(keyEnd := f.keyEnd + d, start := f.start + d, end := f.end + d)
  }

  function Shifted(fs: seq<Found>, d: int): (r: seq<Found>)
    ensures |r| == |fs|
    ensures forall i :: 0 <= i < |fs| ==> r[i] == Shift(fs[i], d)
  {
    seq(|fs|, i requires 0 <= i < |fs| => Shift(fs[i], d))
  }

  function ShiftRead(r: Option<Read>, d: int): Option<Read> {
    match r
    case None => None
    case Some(v) => Some(Read(v.n, v.why, Shifted(v.found, d)))
  }

  lemma ShiftedConcat(a: seq<Found>, b: seq<Found>, d: int)
    ensures Shifted(a + b, d) == Shifted(a, d) + Shifted(b, d)
    ensures Shifted(Marked(a), d) == Marked(Shifted(a, d))
    ensures Shifted([], d) == []
  {
  }

  lemma ShiftLater(n: nat, a: seq<Found>, rest: Option<Read>, d: int)
    ensures ShiftRead(Later(n, a, rest), d) == Later(n, Shifted(a, d), ShiftRead(rest, d))
  {
    if rest.Some? { ShiftedConcat(a, rest.value.found, d); }
    hide Shifted;
  }

  lemma TableShift(s: string, r: Option<Read>, d: int)
    requires r.Some? ==> 1 + r.value.n <= |s|
    ensures ShiftRead(r, d).Some? == r.Some? && (r.Some? ==> ShiftRead(r, d).value.n == r.value.n)
    ensures TableRead(s, ShiftRead(r, d)) == ShiftRead(TableRead(s, r), d)
  {
    hide Spans, Shifted, Marked;
    if r.Some? { ShiftedConcat(r.value.found, [], d); }
  }

  lemma RecordShift(s: string, at: int, path: seq<string>, keyEnd: int, root: bool, r: Option<Read>, d: int)
    requires r.Some? ==> r.value.n <= |s|
    ensures ShiftRead(r, d).Some? == r.Some? && (r.Some? ==> ShiftRead(r, d).value.n == r.value.n)
    ensures Recorded(s, at + d, path, keyEnd + d, root, ShiftRead(r, d)) == ShiftRead(Recorded(s, at, path, keyEnd, root, r), d)
  {
    hide Spans, Shifted, ValueEnd;
    if r.Some? {
      var a := Recorded(s, at, path, keyEnd, root, r).value;
      var self := a.found[|r.value.found|];
      assert a.found == r.value.found + [self];
      ShiftedConcat(r.value.found, [self], d);
      OneShifted(self, d);
    }
  }

  lemma OneShifted(f: Found, d: int)
    ensures Shifted([f], d) == [Shift(f, d)]
  {
  }

  lemma {:induction false} ValueShift(s: string, at: int, path: seq<string>, root: bool, d: int)
    ensures Value(s, at + d, path, root) == ShiftRead(Value(s, at, path, root), d)
    decreases |s|, 1
  {
    hide *;
    if s != [] && s[0] == '{' {
      ValueIsTable(s, at, path, root);
      ValueIsTable(s, at + d, path, root);
      assert at + d + 1 == at + 1 + d;
      ItemsShift(s[1..], at + 1, path, root, d);
      TableShift(s, Items(s[1..], at + 1, path, root), d);
    } else {
      LeafShift(s, at, path, root, d);
    }
  }

  lemma LeafShift(s: string, at: int, path: seq<string>, root: bool, d: int)
    requires s == [] || s[0] != '{'
    ensures Value(s, at + d, path, root) == ShiftRead(Value(s, at, path, root), d)
  {
    NoneShifts(d);
    hide Items, Spans, Multiline, Quoted, Bracketed, Lead, ShiftRead;
  }

  lemma {:induction false} AssignShift(s: string, at: int, path: seq<string>, keyEnd: int, root: bool, d: int)
    ensures Assign(s, at + d, path, keyEnd + d, root) == ShiftRead(Assign(s, at, path, keyEnd, root), d)
    decreases |s|, 2
  {
    hide *;
    AssignIs(s, at, path, keyEnd, root);
    AssignIs(s, at + d, path, keyEnd + d, root);
    ValueShift(s, at, path, root, d);
    RecordShift(s, at, path, keyEnd, root, Value(s, at, path, root), d);
  }

  lemma {:induction false} ItemsShift(s: string, at: int, path: seq<string>, root: bool, d: int)
    ensures Items(s, at + d, path, root) == ShiftRead(Items(s, at, path, root), d)
    decreases |s|, 3
  {
    hide *;
    ItemsIs(s, at, path, root);
    ItemsIs(s, at + d, path, root);
    NoneShifts(d);
    match NextItem(s)
    case End(n) =>
    case Broken =>
    case Skip(n) =>
      assert at + d + n == at + n + d;
      ItemsShift(s[n..], at + n, path, root, d);
      ShiftLater(n, [], Items(s[n..], at + n, path, root), d);
    case Key(parts, keyEnd, valueAt) =>
      assert at + d + valueAt == at + valueAt + d && at + d + keyEnd == at + keyEnd + d;
      AssignShift(s[valueAt..], at + valueAt, path + parts, at + keyEnd, root, d);
      var a := Assign(s[valueAt..], at + valueAt, path + parts, at + keyEnd, root);
      SomeShifts(a, d);
      if a.Some? {
        var n := valueAt + a.value.n;
        assert at + d + valueAt + a.value.n == at + valueAt + a.value.n + d;
        ItemsShift(s[n..], at + valueAt + a.value.n, path, root, d);
        ShiftLater(n, a.value.found, Items(s[n..], at + valueAt + a.value.n, path, root), d);
      }
  }

  lemma NoneShifts(d: int)
    ensures ShiftRead(None, d) == None
    ensures forall n: nat, why :: ShiftRead(Some(Read(n, why, [])), d) == Some(Read(n, why, []))
  {
    ShiftedConcat([], [], d);
    hide Shifted;
  }

  lemma SomeShifts(r: Option<Read>, d: int)
    ensures r.Some? <==> ShiftRead(r, d).Some?
    ensures r.Some? ==> ShiftRead(r, d).value.n == r.value.n && ShiftRead(r, d).value.found == Shifted(r.value.found, d)
  {
    hide Shifted;
  }

  function ShiftScan(r: Option<Scan>, d: int): Option<Scan> {
    match r
    case None => None
    case Some(v) => Some(Scan(Shifted(v.assigns, d), ShiftedHeaders(v.headers, d)))
  }

  function ShiftedHeaders(hs: seq<Header>, d: int): (r: seq<Header>)
    ensures |r| == |hs|
    ensures forall i :: 0 <= i < |hs| ==> r[i] == hs[i].(at := hs[i].at + d)
  {
    seq(|hs|, i requires 0 <= i < |hs| => hs[i].(at := hs[i].at + d))
  }

  lemma ShiftThen(a: seq<Found>, h: seq<Header>, rest: Option<Scan>, d: int)
    ensures ShiftScan(Then(a, h, rest), d) == Then(Shifted(a, d), ShiftedHeaders(h, d), ShiftScan(rest, d))
  {
    if rest.Some? {
      ShiftedConcat(a, rest.value.assigns, d);
      assert ShiftedHeaders(h + rest.value.headers, d) == ShiftedHeaders(h, d) + ShiftedHeaders(rest.value.headers, d);
    }
    hide Shifted, ShiftedHeaders;
  }

  lemma {:induction false} RunShift(s: string, at: int, table: seq<string>, d: int)
    ensures Run(s, at + d, table) == ShiftScan(Run(s, at, table), d)
    decreases |s|
  {
    hide *;
    RunIs(s, at, table);
    RunIs(s, at + d, table);
    ScanNone(d);
    match NextTop(s)
    case Done =>
    case Over(n) =>
      assert at + d + n == at + n + d;
      RunShift(s[n..], at + n, table, d);
    case Table(path, many, h, n) =>
      assert at + d + n == at + n + d && at + d + h == at + h + d;
      RunShift(s[n..], at + n, path, d);
      ShiftThen([], [Header(path, at + h, many)], Run(s[n..], at + n, path), d);
      OneHeader(Header(path, at + h, many), d);
    case Assignment(parts, keyEnd, valueAt) =>
      assert at + d + valueAt == at + valueAt + d && at + d + keyEnd == at + keyEnd + d;
      AssignShift(s[valueAt..], at + valueAt, table + parts, at + keyEnd, table == [], d);
      var a := Assign(s[valueAt..], at + valueAt, table + parts, at + keyEnd, table == []);
      SomeShifts(a, d);
      if a.Some? {
        var n := valueAt + a.value.n;
        assert at + d + valueAt + a.value.n == at + valueAt + a.value.n + d;
        RunShift(s[n..], at + valueAt + a.value.n, table, d);
        ShiftThen(a.value.found, [], Run(s[n..], at + valueAt + a.value.n, table), d);
      }
  }

  lemma ScanNone(d: int)
    ensures ShiftScan(None, d) == None && ShiftScan(Some(Scan([], [])), d) == Some(Scan([], []))
    ensures Shifted([], d) == [] && ShiftedHeaders([], d) == []
  {
  }

  lemma OneHeader(h: Header, d: int)
    ensures ShiftedHeaders([h], d) == [h.(at := h.at + d)]
  {
  }
}
