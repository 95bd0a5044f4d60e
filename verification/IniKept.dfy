/** What an edit leaves of the keys it is not about, beyond what they read as: a key Set had
    nothing to write for it still has nothing to write for, and a line that is joined to the
    entry above it states no key and takes none away. */
module IniKept {
  import opened Text
  import opened Document
  import opened IniScan
  import opened IniPlaces
  import opened IniCodec
  import opened IniLines
  import opened IniTold
  import opened IniLaws
  import opened IniInsert
  import opened IniTaken
  import opened IniFile

  // ---- where entries stand ----

  /** Entries one below the other, between two lines. */
  predicate Rising(es: seq<Entry>, lo: int, hi: int) {
    && (forall i :: 0 <= i < |es| ==> lo <= es[i].line < hi)
    && (forall i, j :: 0 <= i < j < |es| ==> es[i].line < es[j].line)
  }

  lemma {:induction false} RisingBounds(es: seq<Entry>, lo: int, hi: int)
    requires Rising(es, lo, hi) && es != []
    ensures es[0].line <= hi - |es| && es[|es| - 1].line >= lo + |es| - 1
    ensures es[|es| - 1].line - es[0].line >= |es| - 1
  {
    if |es| > 1 {
      var n := |es| - 1;
      assert Rising(es[..n], lo, es[n].line);
      RisingBounds(es[..n], lo, es[n].line);
      assert es[..n][0] == es[0] && es[..n][n - 1] == es[n - 1];
    }
  }

  lemma RisingCons(e: Entry, es: seq<Entry>, lo: int, mid: int, hi: int)
    requires Rising(es, mid, hi) && lo <= e.line < mid <= hi
    ensures Rising([e] + es, lo, hi)
  {
  }

  lemma RisingWider(es: seq<Entry>, lo: int, mid: int, hi: int)
    requires Rising(es, mid, hi) && lo <= mid
    ensures Rising(es, lo, hi)
  {
  }

  lemma {:induction false} EntriesRise(evs: seq<Event>, at: nat)
    ensures Rising(Entries(evs, at), at, at + |evs|)
    decreases |evs|
  {
    hide *;
    EntriesFirst(evs, at);
    if evs == [] {
      NoneRise(at);
    } else if evs[0].Assign? {
      var k := Mores(evs[1..]);
      EntriesRise(evs[1 + k..], at + 1 + k);
      EntryLine(evs, at);
      RisingCons(EntryOf(evs, at), Entries(evs[1 + k..], at + 1 + k), at, at + 1 + k, at + |evs|);
    } else {
      EntriesRise(evs[1..], at + 1);
      RisingWider(Entries(evs[1..], at + 1), at, at + 1, at + |evs|);
    }
  }

  lemma NoneRise(at: int)
    ensures Rising([], at, at)
  {
  }

  lemma EntryLine(evs: seq<Event>, at: nat)
    requires evs != [] && evs[0].Assign?
    ensures EntryOf(evs, at).line == at
  {
    hide Mores, Texts;
  }

  lemma RisingTail(es: seq<Entry>, lo: int, hi: int)
    requires Rising(es, lo, hi) && es != []
    ensures lo <= es[0].line < hi && Rising(es[1..], es[0].line + 1, hi)
  {
  }

  lemma RisingKept(e: Entry, keep: bool, rest: seq<Entry>, lo: int, hi: int)
    requires Rising(rest, e.line + 1, hi) && lo <= e.line < hi
    ensures Rising((if keep then [e] else []) + rest, lo, hi)
  {
    if keep {
      RisingCons(e, rest, lo, e.line + 1, hi);
    } else {
      RisingWider(rest, lo, e.line + 1, hi);
      assert [] + rest == rest;
    }
  }

  lemma {:induction false} NamedRise(es: seq<Entry>, k: Name, lo: int, hi: int)
    requires Rising(es, lo, hi)
    ensures Rising(Named(es, k), lo, hi)
    ensures Rising(Lists(es), lo, hi)
  {
    hide *;
    NamedFirst(es, k);
    ListsFirst(es);
    if es != [] {
      RisingTail(es, lo, hi);
      NamedRise(es[1..], k, es[0].line + 1, hi);
      RisingKept(es[0], Spells(es[0], k), Named(es[1..], k), lo, hi);
      RisingKept(es[0], es[0].a.list, Lists(es[1..]), lo, hi);
    }
  }

  // ---- the same entries, further down ----

  /** Two runs of entries that differ in where they stand alone, by the same distance. */
  predicate Shifted(a: seq<Entry>, b: seq<Entry>, d: int) {
    |a| == |b| && forall i :: 0 <= i < |a| ==> b[i].a == a[i].a && b[i].section == a[i].section && b[i].more == a[i].more && b[i].line == a[i].line + d
  }

  lemma ShiftedCons(e: Entry, f: Entry, a: seq<Entry>, b: seq<Entry>, d: int)
    requires Shifted(a, b, d) && Shifted([e], [f], d)
    ensures Shifted([e] + a, [f] + b, d)
  {
    assert [e][0] == e && [f][0] == f;
  }

  lemma {:induction false} EntriesShifted(evs: seq<Event>, at: nat, to: nat)
    ensures Shifted(Entries(evs, at), Entries(evs, to), to - at)
    decreases |evs|
  {
    hide *;
    EntriesFirst(evs, at);
    EntriesFirst(evs, to);
    if evs == [] {
      NoneShifted(to - at);
    } else if evs[0].Assign? {
      var k := Mores(evs[1..]);
      EntriesShifted(evs[1 + k..], at + 1 + k, to + 1 + k);
      EntryShifted(evs, at, to);
      ShiftedCons(EntryOf(evs, at), EntryOf(evs, to), Entries(evs[1 + k..], at + 1 + k), Entries(evs[1 + k..], to + 1 + k), to - at);
    } else {
      EntriesShifted(evs[1..], at + 1, to + 1);
    }
  }

  lemma NoneShifted(d: int)
    ensures Shifted([], [], d)
  {
  }

  lemma EntryShifted(evs: seq<Event>, at: nat, to: nat)
    requires evs != [] && evs[0].Assign?
    ensures Shifted([EntryOf(evs, at)], [EntryOf(evs, to)], to - at)
  {
    hide Mores, Texts;
  }

  lemma {:induction false} FiltersShifted(a: seq<Entry>, b: seq<Entry>, k: Name, d: int)
    requires Shifted(a, b, d)
    ensures Shifted(Named(a, k), Named(b, k), d)
    ensures Shifted(Lists(a), Lists(b), d)
  {
    if a != [] {
      assert Shifted(a[1..], b[1..], d);
      FiltersShifted(a[1..], b[1..], k, d);
      assert Shifted([a[0]], [b[0]], d);
      hide Shifted;
      ShiftedCons(a[0], b[0], Named(a[1..], k), Named(b[1..], k), d);
      ShiftedCons(a[0], b[0], Lists(a[1..]), Lists(b[1..]), d);
      assert [] + Named(a[1..], k) == Named(a[1..], k) && [] + Named(b[1..], k) == Named(b[1..], k);
      assert [] + Lists(a[1..]) == Lists(a[1..]) && [] + Lists(b[1..]) == Lists(b[1..]);
      SpellsAlike(a, b, k, d);
    }
  }

  lemma SpellsAlike(a: seq<Entry>, b: seq<Entry>, k: Name, d: int)
    requires Shifted(a, b, d) && a != []
    ensures Spells(a[0], k) == Spells(b[0], k) && a[0].a.list == b[0].a.list
  {
  }

  // ---- which values may be edited ----

  /** A list that stands on consecutive lines. */
  predicate Close(es: seq<Entry>) {
    es != [] && es[|es| - 1].line - es[0].line == |es| - 1
  }

  predicate Editable(matched: seq<Entry>) {
    if Lists(matched) != [] then Close(Lists(matched)) && !AnyInterpolates(Lists(matched))
    else matched != [] && !Interpolates(Join([matched[|matched| - 1].a.raw] + matched[|matched| - 1].more, "\n"))
  }

  lemma EditableIs(matched: seq<Entry>)
    requires matched != []
    ensures ValueOf(matched).editable <==> Editable(matched)
  {
    hide Lists, Items, AnyInterpolates, Interpolates, Join, IniKind, Unquote;
    ListsFrom(matched);
    if Lists(matched) != [] {
      assert Lists(matched)[0] in Lists(matched);
    } else {
      assert matched[|matched| - 1] in matched;
    }
  }

  lemma {:induction false} AnyShifted(a: seq<Entry>, b: seq<Entry>)
    requires |a| == |b| && forall i :: 0 <= i < |a| ==> a[i].a == b[i].a
    ensures AnyInterpolates(a) == AnyInterpolates(b)
  {
    hide Interpolates;
    if a != [] {
      AnyShifted(a[1..], b[1..]);
    }
  }

  /** The entries of a key above an edit and below it, before and after: a list spread over
      lines is still spread, because the lines put between are no part of it. */
  lemma SpreadStays(x: seq<Entry>, y: seq<Entry>, z: seq<Entry>, d: int, cut: int, first: int, top: int)
    requires Rising(x, 1, cut) && Rising(z, first, top) && cut < first && Shifted(y, z, d)
    requires x + y != [] && !Close(x + y)
    ensures x + z != [] && !Close(x + z)
  {
    hide *;
    ShiftedSize(y, z, d);
    if x == [] {
      CloseShifted(y, z, d);
      assert x + y == y && x + z == z;
    } else if y == [] {
      assert x + y == x && x + z == x;
    } else {
      RisingBounds(x, 1, cut);
      RisingBounds(z, first, top);
      FarApart(x, z, cut, first);
    }
  }

  lemma CloseShifted(y: seq<Entry>, z: seq<Entry>, d: int)
    requires Shifted(y, z, d)
    ensures Close(y) <==> Close(z)
  {
  }

  lemma ShiftedSize(y: seq<Entry>, z: seq<Entry>, d: int)
    requires Shifted(y, z, d)
    ensures |y| == |z|
  {
  }

  lemma FarApart(x: seq<Entry>, z: seq<Entry>, cut: int, first: int)
    requires x != [] && z != [] && cut < first
    requires x[0].line <= cut - |x| && z[|z| - 1].line >= first + |z| - 1
    ensures x + z != [] && !Close(x + z)
  {
    var all := x + z;
    assert all[0] == x[0] && all[|all| - 1] == z[|z| - 1];
  }

  lemma RefusedStays(x: seq<Entry>, y: seq<Entry>, z: seq<Entry>, d: int, cut: int, first: int, top: int)
    requires Rising(x, 1, cut) && Rising(z, first, top) && cut < first && Shifted(y, z, d)
    requires x + y != [] && !Editable(x + y)
    ensures x + z != [] && !Editable(x + z)
  {
    hide Interpolates, Join, AnyInterpolates;
    ListsConcat(x, y);
    ListsConcat(x, z);
    FiltersShifted(y, z, Name("", ""), d);
    NamedRise(x, Name("", ""), 1, cut);
    NamedRise(z, Name("", ""), first, top);
    hide Lists, Named, Rising, Close;
    var lx, ly, lz := Lists(x), Lists(y), Lists(z);
    if lx + ly != [] {
      SpreadEither(lx, ly, lz, d);
      AnyShifted(lx + ly, lx + lz);
      if !Close(lx + ly) { SpreadStays(lx, ly, lz, d, cut, first, top); }
    } else {
      assert lx + lz == [];
      assert z != [] ==> (x + z)[|x + z| - 1] == z[|z| - 1] && (x + y)[|x + y| - 1] == y[|y| - 1];
      assert z == [] ==> x + z == x && x + y == x;
    }
  }

  lemma SpreadEither(x: seq<Entry>, y: seq<Entry>, z: seq<Entry>, d: int)
    requires Shifted(y, z, d)
    ensures |x + y| == |x + z| && forall i :: 0 <= i < |x + y| ==> (x + y)[i].a == (x + z)[i].a
  {
  }

  // ---- the file before and after an edit ----

  /** Lines m0 become lines m, none of either stating key q, and nothing that stays is
      continued or continues differently. */
  ghost predicate Around(p: seq<string>, m0: seq<string>, m: seq<string>, s: seq<string>, q: Name) {
    var c := After(Top, p);
    && m != [] && Told(c, m0, q) == [] && Told(c, m, q) == []
    && Fresh(c, m0 + s) && Fresh(c, m) && Fresh(After(c, m0), s) && Fresh(After(c, m), s)
    && (s != [] ==> After(c, m0).section == After(c, m).section)
  }

  lemma ThreeNamed(p: seq<string>, m: seq<string>, s: seq<string>, q: Name)
    requires Told(After(Top, p), m, q) == [] && Fresh(After(Top, p), m + s) && Fresh(After(After(Top, p), m), s)
    ensures Named(Scan(p + (m + s)), q) ==
            Named(Entries(ReadAll(Top, p), 1), q) + Named(Entries(ReadAll(After(After(Top, p), m), s), 1 + |p| + |m|), q)
  {
    hide *;
    var c := After(Top, p);
    ReadConcat(Top, p, m + s);
    ReadConcat(c, m, s);
    ScanIs(p + (m + s));
    var a, x, z := ReadAll(Top, p), ReadAll(c, m), ReadAll(After(c, m), s);
    FreshEvents(c, m + s);
    FreshEvents(After(c, m), s);
    assert x + z == ReadAll(c, m + s);
    EntriesConcat(a, x + z, 1);
    EntriesConcat(x, z, 1 + |a|);
    NamedConcat(Entries(a, 1), Entries(x, 1 + |a|) + Entries(z, 1 + |a| + |x|), q);
    NamedConcat(Entries(x, 1 + |a|), Entries(z, 1 + |a| + |x|), q);
    NoneTold(c, m, q, 1 + |a|);
    assert [] + Named(Entries(z, 1 + |a| + |x|), q) == Named(Entries(z, 1 + |a| + |x|), q);
  }

  lemma NoneTold(c: Ctx, m: seq<string>, q: Name, at: nat)
    requires Told(c, m, q) == []
    ensures Named(Entries(ReadAll(c, m), at), q) == []
  {
    hide *;
    ToldIs(c, m, q);
    ToldShift(ReadAll(c, m), at, q);
    At0None(Named(Entries(ReadAll(c, m), at), q));
  }

  lemma At0None(es: seq<Entry>)
    ensures At0(es) == [] <==> es == []
  {
    assert |At0(es)| == |es|;
  }

  /** A value that may not be edited may not be edited after an edit elsewhere. */
  lemma StaysRefused(p: seq<string>, m0: seq<string>, m: seq<string>, s: seq<string>, q: Name)
    requires Around(p, m0, m, s, q)
    requires Get(p + (m0 + s), q).kind != KindMissing && !Get(p + (m0 + s), q).editable
    ensures Get(p + (m + s), q).kind != KindMissing && !Get(p + (m + s), q).editable
  {
    hide *;
    AroundIs(p, m0, m, s, q);
    var c := After(Top, p);
    ThreeNamed(p, m0, s, q);
    FreshJoined(c, m, s);
    ThreeNamed(p, m, s, q);
    if s != [] { SameEvents(After(c, m0), After(c, m), s); } else { NoLines(After(c, m0), After(c, m)); }
    var evs := ReadAll(After(c, m), s);
    var x := Named(Entries(ReadAll(Top, p), 1), q);
    var y, z := Named(Entries(evs, 1 + |p| + |m0|), q), Named(Entries(evs, 1 + |p| + |m|), q);
    EntriesRise(ReadAll(Top, p), 1);
    NamedRise(Entries(ReadAll(Top, p), 1), q, 1, 1 + |p|);
    EntriesRise(evs, 1 + |p| + |m|);
    NamedRise(Entries(evs, 1 + |p| + |m|), q, 1 + |p| + |m|, 1 + |p| + |m| + |evs|);
    EntriesShifted(evs, 1 + |p| + |m0|, 1 + |p| + |m|);
    FiltersShifted(Entries(evs, 1 + |p| + |m0|), Entries(evs, 1 + |p| + |m|), q, |m| - |m0|);
    GetIs(p + (m0 + s), q);
    GetIs(p + (m + s), q);
    EditableIs(x + y);
    RefusedStays(x, y, z, |m| - |m0|, 1 + |p|, 1 + |p| + |m|, 1 + |p| + |m| + |evs|);
    EditableIs(x + z);
  }

  lemma NoLines(c: Ctx, d: Ctx)
    ensures ReadAll(c, []) == ReadAll(d, []) == []
  {
  }

  lemma GetIs(lines: seq<string>, q: Name)
    ensures Get(lines, q) == ValueOf(Named(Scan(lines), q))
    ensures Get(lines, q).kind != KindMissing <==> Named(Scan(lines), q) != []
  {
    hide Scan, Named, ValueOf;
    MissingTold(lines, q);
  }

  lemma AroundIs(p: seq<string>, m0: seq<string>, m: seq<string>, s: seq<string>, q: Name)
    requires Around(p, m0, m, s, q)
    ensures
      var c := After(Top, p);
      && m != [] && Told(c, m0, q) == [] && Told(c, m, q) == []
      && Fresh(c, m0 + s) && Fresh(c, m) && Fresh(After(c, m0), s) && Fresh(After(c, m), s)
      && (s != [] ==> After(c, m0).section == After(c, m).section)
  {
    hide Told, After, Fresh;
  }

  lemma FreshJoined(c: Ctx, m: seq<string>, s: seq<string>)
    requires m != [] && Fresh(c, m)
    ensures Fresh(c, m + s)
  {
    hide Read;
    assert (m + s)[0] == m[0];
  }

  // ---- every edit Set plans ----

  /** The three parts of a file around the edit Set plans where no line is taken for a
      continuation. */
  lemma SetIsAround(lines: seq<string>, k: Name, want: Literal, q: Name)
    returns (p: seq<string>, m0: seq<string>, m: seq<string>, s: seq<string>)
    requires GoodKey(k) && Sound(want) && want != LList([]) && q != k
    requires Set(lines, k, want).Change? && Placeable(lines, k)
    ensures lines == p + (m0 + s) && Around(p, m0, m, s, q)
    ensures InRange(|lines|, Set(lines, k, want).edit) && Replaced(lines, Set(lines, k, want).edit) == p + (m + s)
  {
    hide *;
    if Get(lines, k).kind == KindMissing {
      PlaceableIs(lines, k);
      SetInserts(lines, k, want);
      if Point(lines, k).1 {
        p, m0, m, s := HeaderAround(lines, k, want, q);
      } else {
        p, m0, m, s := InsertAround(lines, k, want, q);
      }
    } else {
      p, m0, m, s := ReplaceAround(lines, k, want, q);
    }
  }

  lemma HeaderAround(lines: seq<string>, k: Name, want: Literal, q: Name)
    returns (p: seq<string>, m0: seq<string>, m: seq<string>, s: seq<string>)
    requires GoodKey(k) && Sound(want) && want != LList([]) && q != k && Point(lines, k).1
    ensures lines == p + (m0 + s) && Around(p, m0, m, s, q)
    ensures InRange(|lines|, Insert(lines, k, want)) && Replaced(lines, Insert(lines, k, want)) == p + (m + s)
  {
    hide *;
    var (indent, sep) := PointStyle(lines, k);
    var added := NewLines(indent, k.name, sep, want);
    var c, head := After(Top, lines), HeaderLines(lines, k.section);
    StyleOk(lines, k);
    PointTotal(lines, k);
    InsertIs(lines, k, want);
    InsertionReplaces(lines, |lines| + 1, head + added);
    assert lines[..|lines|] == lines && lines[|lines|..] == [];
    HeaderTold(lines, k, q);
    ClosedAdmits(k.section, |indent|);
    WrittenTold(Ctx(k.section, None), k, indent, sep, want, q);
    Joined(c, head, added, q);
    p, m0, m, s := lines, [], head + added, [];
    assert [] + s == s && p + (m0 + s) == lines;
    EmptyTold(c, q);
    EmptyTold(After(c, m), q);
    MakeAround(p, m0, m, s, q);
  }

  lemma InsertAround(lines: seq<string>, k: Name, want: Literal, q: Name)
    returns (p: seq<string>, m0: seq<string>, m: seq<string>, s: seq<string>)
    requires GoodKey(k) && Sound(want) && want != LList([]) && q != k && !Point(lines, k).1 && Clear(lines, k)
    ensures lines == p + (m0 + s) && Around(p, m0, m, s, q)
    ensures InRange(|lines|, Insert(lines, k, want)) && Replaced(lines, Insert(lines, k, want)) == p + (m + s)
  {
    hide *;
    var (indent, sep) := PointStyle(lines, k);
    var at := Point(lines, k).0;
    var added := NewLines(indent, k.name, sep, want);
    StyleOk(lines, k);
    PointTotal(lines, k);
    InsertIs(lines, k, want);
    InsertionReplaces(lines, at, added);
    ClearMeans(lines, k);
    p, m0, m, s := lines[..at - 1], [], added, lines[at - 1..];
    WrittenTold(PointCtx(lines, k), k, indent, sep, want, q);
    assert m0 + s == s && lines == p + s;
    EmptyTold(After(Top, p), q);
    InsideSection(k.section, |indent|);
    MakeAround(p, m0, m, s, q);
  }

  lemma MakeAround(p: seq<string>, m0: seq<string>, m: seq<string>, s: seq<string>, q: Name)
    requires
      var c := After(Top, p);
      && m != [] && Told(c, m0, q) == [] && Told(c, m, q) == []
      && Fresh(c, m0 + s) && Fresh(c, m) && Fresh(After(c, m0), s) && Fresh(After(c, m), s)
      && (s != [] ==> After(c, m0).section == After(c, m).section)
    ensures Around(p, m0, m, s, q)
  {
    hide Told, After, Fresh;
  }

  lemma ReplaceAround(lines: seq<string>, k: Name, want: Literal, q: Name)
    returns (p: seq<string>, m0: seq<string>, m: seq<string>, s: seq<string>)
    requires GoodKey(k) && Sound(want) && want != LList([]) && q != k
    requires Get(lines, k).kind != KindMissing && Set(lines, k, want).Change?
    ensures lines == p + (m0 + s) && Around(p, m0, m, s, q)
    ensures InRange(|lines|, Set(lines, k, want).edit) && Replaced(lines, Set(lines, k, want).edit) == p + (m + s)
  {
    hide *;
    SetReplaces(lines, k, want);
    var i, j := ChosenRange(lines, k);
    var all := Scan(lines);
    var es := Chosen(Named(all, k));
    assert es == all[i..j + 1] && es[0] == all[i];
    RangeSection(lines, i, j, k);
    LastSection(lines, i, j, k);
    ReplacementTold(lines, k, i, j, want, q);
    CutFacts(lines, i, j);
    CutTells(lines, i, j, q);
    NamedOther(es, k, q);
    var from, to := all[i].line - 1, all[j].endLine;
    ChangedSome(lines, es, want);
    ReplaceRange(lines, es, i, j, want);
    p, m0, m, s := lines[..from], lines[from..to], Replace(lines, es, want).lines, lines[to..];
    CutTwice(lines, from, to);
    Grouped(p, m0, s);
    assert p + m + s == p + (m + s);
    OldIsFresh(lines, i, j);
    InsideSection(k.section, |Indent(lines[all[i].line - 1])|);
    MakeAround(p, m0, m, s, q);
  }

  lemma NamedOther(es: seq<Entry>, k: Name, q: Name)
    requires Named(es, k) == es && q != k
    ensures Named(es, q) == [] && At0(Named(es, q)) == []
  {
    hide Named;
    NamedFrom(es, k);
    forall i | 0 <= i < |es| ensures !Spells(es[i], q) { assert es[i] in es; }
    NamedNone(es, q);
  }

  lemma OldIsFresh(lines: seq<string>, i: nat, j: nat)
    requires i <= j < |Scan(lines)|
    requires 1 <= Scan(lines)[i].line <= Scan(lines)[j].endLine <= |lines|
    ensures
      var from, to := Scan(lines)[i].line - 1, Scan(lines)[j].endLine;
      Fresh(After(Top, lines[..from]), lines[from..to] + lines[to..])
  {
    hide Scan, After, AssignmentOf, Introduces, SectionName, TrimSpace, Continues, Indent, Read;
    Placed(lines, i);
    var from, to := Scan(lines)[i].line - 1, Scan(lines)[j].endLine;
    assert (lines[from..to] + lines[to..])[0] == lines[from];
  }

  /** A key Set had nothing to write for, it has nothing to write for after an edit of
      another key where no line is taken for a continuation. */
  lemma IdleStays(lines: seq<string>, k: Name, want: Literal, q: Name, wanted: Literal)
    requires GoodKey(k) && Sound(want) && want != LList([]) && q != k
    requires Set(lines, k, want).Change? && Placeable(lines, k) && !Set(lines, q, wanted).Change?
    ensures InRange(|lines|, Set(lines, k, want).edit)
    ensures !Set(Replaced(lines, Set(lines, k, want).edit), q, wanted).Change?
  {
    hide *;
    SetLaw(lines, k, want);
    var after := Replaced(lines, Set(lines, k, want).edit);
    SetIdle(lines, q, wanted);
    SetIdle(after, q, wanted);
    ShownKind(Get(lines, q), Get(after, q), wanted);
    if !Holds(Get(lines, q), wanted) {
      var p, m0, m, s := SetIsAround(lines, k, want, q);
      StaysRefused(p, m0, m, s, q);
    }
  }

  lemma SetIdle(lines: seq<string>, q: Name, wanted: Literal)
    ensures !Set(lines, q, wanted).Change? <==>
            Get(lines, q).kind != KindMissing && (Holds(Get(lines, q), wanted) || !Get(lines, q).editable)
  {
    hide Get, Scan, Named, Chosen, Insert, Replace, Holds;
    if Get(lines, q).kind != KindMissing {
      FoundChosen(lines, q);
      ChosenPlaced(lines, q);
    }
  }

  lemma ShownKind(a: Value, b: Value, want: Literal)
    requires Shown(a) == Shown(b)
    ensures a.kind == b.kind && (Holds(a, want) <==> Holds(b, want))
  {
    hide Holds;
    HoldsShown(a, want);
    HoldsShown(b, want);
  }

  // ---- a line joined to the entry above it ----

  lemma StillSome(a: seq<Event>, m: seq<Event>, b: seq<Event>, q: Name)
    requires forall i :: 0 <= i < |m| ==> m[i].More?
    ensures Named(Entries(a + (m + b), 1), q) == [] <==> Named(Entries(a + b, 1), q) == []
  {
    hide Named, Entries;
    if Named(Entries(a + b, 1), q) == [] {
      StillNone(a, m, b, q);
    }
    if Named(Entries(a + (m + b), 1), q) == [] {
      NoneTells(a + b, 1, q);
      NoneTells(a + (m + b), 1, q);
      var evs := a + (m + b);
      forall i | 0 <= i < |a + b| ensures !Tells((a + b)[i], q) {
        if i < |a| { assert evs[i] == (a + b)[i]; } else { assert evs[i + |m|] == (a + b)[i]; }
      }
    }
  }

  /** A line that does not land states no key and takes none away. */
  lemma LostIsHarmless(lines: seq<string>, k: Name, want: Literal, q: Name)
    requires GoodKey(k) && Sound(want) && !Lands(lines, k)
    ensures
      var e := Insert(lines, k, want);
      && Set(lines, k, want) == Change(e) && InRange(|lines|, e)
      && (Get(Replaced(lines, e), q).kind == KindMissing <==> Get(lines, q).kind == KindMissing)
  {
    hide *;
    LandsIs(lines, k);
    TakesIs(lines, k, want);
    SetInserts(lines, k, want);
    var (indent, sep) := PointStyle(lines, k);
    var at := Point(lines, k).0;
    var added := NewLines(indent, k.name, sep, want);
    StyleOk(lines, k);
    PointTotal(lines, k);
    InsertIs(lines, k, want);
    InsertionReplaces(lines, at, added);
    StandsIs(lines, k);
    var c := PointCtx(lines, k);
    AddedContinue(c, k, indent, sep, want);
    var p, s := lines[..at - 1], lines[at - 1..];
    assert lines == p + s;
    ReadConcat(Top, p, s);
    ReadConcat(Top, p, added + s);
    ReadConcat(c, added, s);
    var after := Replaced(lines, Insert(lines, k, want));
    ScanIs(lines);
    ScanIs(after);
    StillSome(ReadAll(Top, p), ReadAll(c, added), ReadAll(c, s), q);
    GetIs(lines, q);
    GetIs(after, q);
  }

  lemma StandsIs(lines: seq<string>, k: Name)
    ensures Stands(lines, k) <==> Point(lines, k).1 || Admits(PointCtx(lines, k), |PointStyle(lines, k).0|)
  {
    hide Point, PointCtx, PointStyle, Admits;
  }
}
