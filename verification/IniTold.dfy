/** What a run of lines tells about one key, and how that is put together from what its
    parts tell. Line numbers are left out: they move when lines are added above. */
module IniTold {
  import opened Text
  import opened IniScan
  import opened IniPlaces
  import opened IniCodec

  function At0(es: seq<Entry>): (r: seq<Entry>)
    ensures |r| == |es|
    ensures forall i :: 0 <= i < |es| ==> r[i] == es[i].(line := 0, endLine := 0)
  {
    seq(|es|, i requires 0 <= i < |es| => es[i].(line := 0, endLine := 0))
  }

  /** The entries of a key in a run of lines read in a context. */
  function Told(ctx: Ctx, lines: seq<string>, k: Name): seq<Entry> {
    At0(Named(Entries(ReadAll(ctx, lines), 1), k))
  }

  /** What a reader of the file is shown of a value. */
  function Shown(v: Value): Value {
    v.(line := 0, endLine := 0, editable := false)
  }

  /** The first line of the run continues nothing. */
  predicate Fresh(ctx: Ctx, lines: seq<string>) {
    lines == [] || !Read(ctx, lines[0]).More?
  }

  // ---- filters ----

  lemma {:induction false} NamedConcat(a: seq<Entry>, b: seq<Entry>, k: Name)
    ensures Named(a + b, k) == Named(a, k) + Named(b, k)
  {
    hide *;
    NamedFirst(a, k);
    NamedFirst(a + b, k);
    if a == [] {
      assert a + b == b && [] + Named(b, k) == Named(b, k);
    } else {
      NamedConcat(a[1..], b, k);
      TailOf(a, b, 1);
      Grouped(if Spells(a[0], k) then [a[0]] else [], Named(a[1..], k), Named(b, k));
    }
  }

  lemma NamedFirst(es: seq<Entry>, k: Name)
    ensures es == [] ==> Named(es, k) == []
    ensures es != [] ==> Named(es, k) == (if Spells(es[0], k) then [es[0]] else []) + Named(es[1..], k)
  {
    hide Spells;
  }

  lemma {:induction false} ListsConcat(a: seq<Entry>, b: seq<Entry>)
    ensures Lists(a + b) == Lists(a) + Lists(b)
  {
    hide *;
    ListsFirst(a);
    ListsFirst(a + b);
    if a == [] {
      assert a + b == b && [] + Lists(b) == Lists(b);
    } else {
      ListsConcat(a[1..], b);
      TailOf(a, b, 1);
      Grouped(if a[0].a.list then [a[0]] else [], Lists(a[1..]), Lists(b));
    }
  }

  lemma ListsFirst(es: seq<Entry>)
    ensures es == [] ==> Lists(es) == []
    ensures es != [] ==> Lists(es) == (if es[0].a.list then [es[0]] else []) + Lists(es[1..])
  {
  }

  lemma {:induction false} NamedAll(es: seq<Entry>, k: Name)
    requires forall i :: 0 <= i < |es| ==> Spells(es[i], k)
    ensures Named(es, k) == es
  {
    if es != [] {
      NamedAll(es[1..], k);
    }
  }

  lemma {:induction false} NamedNone(es: seq<Entry>, k: Name)
    requires forall i :: 0 <= i < |es| ==> !Spells(es[i], k)
    ensures Named(es, k) == []
  {
    if es != [] {
      NamedNone(es[1..], k);
    }
  }

  lemma {:induction false} ListsAll(es: seq<Entry>)
    requires forall i :: 0 <= i < |es| ==> es[i].a.list
    ensures Lists(es) == es
  {
    if es != [] {
      ListsAll(es[1..]);
    }
  }

  lemma {:induction false} FilterFull(es: seq<Entry>, k: Name)
    ensures |Lists(Named(es, k))| <= |es|
    ensures |Lists(Named(es, k))| == |es| ==> Lists(Named(es, k)) == es && Named(es, k) == es
  {
    if es != [] {
      hide Spells;
      FilterFull(es[1..], k);
      var rest := Named(es[1..], k);
      if Spells(es[0], k) {
        assert Named(es, k)[0] == es[0] && Named(es, k)[1..] == rest;
        assert Lists(Named(es, k)) == (if es[0].a.list then [es[0]] else []) + Lists(rest);
      } else {
        assert Named(es, k) == rest;
      }
    }
  }

  lemma {:induction false} NamedAt0(es: seq<Entry>, k: Name)
    ensures Named(At0(es), k) == At0(Named(es, k))
  {
    if es != [] {
      NamedAt0(es[1..], k);
      assert At0(es)[1..] == At0(es[1..]);
    }
  }

  lemma {:induction false} ListsAt0(es: seq<Entry>)
    ensures Lists(At0(es)) == At0(Lists(es))
  {
    if es != [] {
      ListsAt0(es[1..]);
      assert At0(es)[1..] == At0(es[1..]);
    }
  }

  lemma {:induction false} ItemsAt0(es: seq<Entry>)
    ensures Items(At0(es)) == Items(es)
  {
    if es != [] {
      hide Unquote;
      ItemsAt0(es[1..]);
      assert At0(es)[1..] == At0(es[1..]);
    }
  }

  /** A value shows the same whatever lines its entries are on. */
  lemma ShownAt0(matched: seq<Entry>)
    ensures Shown(ValueOf(At0(matched))) == Shown(ValueOf(matched))
  {
    hide Lists, Named, Items, Interpolates, AnyInterpolates, IniKind, Unquote, Join;
    ListsAt0(matched);
    ItemsAt0(Lists(matched));
    ListsFrom(matched);
    ListsFrom(At0(matched));
  }

  lemma GetShown(lines: seq<string>, k: Name)
    ensures Shown(Get(lines, k)) == Shown(ValueOf(Told(Top, lines, k)))
  {
    hide ValueOf, Named, Entries, ReadAll, Shown;
    ShownAt0(Named(Scan(lines), k));
  }

  // ---- parts ----

  lemma {:induction false} EntriesShift(evs: seq<Event>, at: nat, to: nat)
    ensures At0(Entries(evs, at)) == At0(Entries(evs, to))
    decreases |evs|
  {
    hide Entries, Mores, EntryOf;
    if evs == [] {
      NoEntries(at);
      NoEntries(to);
    } else {
      EntriesFront(evs, at);
      EntriesFront(evs, to);
      var k := Step(evs);
      EntriesShift(evs[k..], at + k, to + k);
      FirstShift(evs, at, to);
    }
  }

  lemma FirstShift(evs: seq<Event>, at: nat, to: nat)
    requires evs != []
    ensures At0(First(evs, at)) == At0(First(evs, to))
  {
  }

  lemma ToldShift(evs: seq<Event>, at: nat, k: Name)
    ensures At0(Named(Entries(evs, at), k)) == At0(Named(Entries(evs, 1), k))
  {
    hide Named, Entries;
    EntriesShift(evs, at, 1);
    NamedAt0(Entries(evs, at), k);
    NamedAt0(Entries(evs, 1), k);
  }

  lemma ToldConcat(ctx: Ctx, a: seq<string>, b: seq<string>, k: Name)
    requires Fresh(After(ctx, a), b)
    ensures Told(ctx, a + b, k) == Told(ctx, a, k) + Told(After(ctx, a), b, k)
  {
    hide Named, Entries, ReadAll, After, Read;
    ReadConcat(ctx, a, b);
    var evs, more := ReadAll(ctx, a), ReadAll(After(ctx, a), b);
    FreshEvents(After(ctx, a), b);
    EntriesConcat(evs, more, 1);
    NamedConcat(Entries(evs, 1), Entries(more, 1 + |evs|), k);
    ToldShift(more, 1 + |evs|, k);
  }

  lemma FreshEvents(ctx: Ctx, lines: seq<string>)
    requires Fresh(ctx, lines)
    ensures ReadAll(ctx, lines) != [] ==> !ReadAll(ctx, lines)[0].More?
  {
    hide Read;
  }

  /** What follows an edit reads the same when the section is the same and nothing is
      continued into it. */
  lemma SameTail(c: Ctx, d: Ctx, lines: seq<string>, k: Name)
    requires c.section == d.section && Fresh(c, lines) && Fresh(d, lines)
    ensures Told(c, lines, k) == Told(d, lines, k)
  {
    if lines != [] {
      assert Read(c, lines[0]) == Read(d, lines[0]) by {
        hide TrimSpace, SectionName, AssignmentOf, Introduces;
      }
      hide Named, Entries, Read;
    }
  }

  lemma ToldNone(ctx: Ctx, k: Name)
    ensures Told(ctx, [], k) == []
  {
  }

  lemma ToldOne(ctx: Ctx, line: string, k: Name)
    ensures
      var ev := Read(ctx, line);
      Told(ctx, [line], k) ==
      if ev.Assign? && ev.section == k.section && ev.a.name == k.name then [Entry(ev.section, ev.a, 0, 0, [])] else []
  {
    hide Read, Entries, Mores, Texts, ReadAll;
    ReadOne(ctx, line);
    var ev := Read(ctx, line);
    EntriesOne(ev, 1);
    if ev.Assign? {
      var e := Entry(ev.section, ev.a, 1, 1, []);
      assert [e][1..] == [];
      assert Named([e], k) == (if Spells(e, k) then [e] else []) + Named([], k);
    }
  }

  // ---- a run of entries, cut out of the file ----

  lemma EventsOfCut(lines: seq<string>, from: nat, to: nat)
    requires from <= to <= |lines|
    ensures
      var evs := ReadAll(Top, lines);
      var c := After(Top, lines[..from]);
      && ReadAll(Top, lines[..from]) == evs[..from]
      && ReadAll(c, lines[from..to]) == evs[from..to]
      && After(c, lines[from..to]) == After(Top, lines[..to])
      && ReadAll(After(Top, lines[..to]), lines[to..]) == evs[to..]
  {
    hide *;
    var a, m, s := lines[..from], lines[from..to], lines[to..];
    CutTwice(lines, from, to);
    ReadConcat(Top, a, m);
    ReadConcat(Top, a + m, s);
    Pieces(ReadAll(Top, a), ReadAll(After(Top, a), m), ReadAll(After(Top, a + m), s));
  }

  /** Continuation lines leave the context as it is. */
  lemma {:induction false} AfterMores(ctx: Ctx, lines: seq<string>)
    requires forall i :: 0 <= i < |lines| ==> ReadAll(ctx, lines)[i].More?
    ensures After(ctx, lines) == ctx
  {
    if lines != [] {
      hide Read;
      var ev := Read(ctx, lines[0]);
      assert ReadAll(ctx, lines)[0] == ev;
      assert ReadAll(ctx, lines)[1..] == ReadAll(ctx, lines[1..]);
      AfterMores(ctx, lines[1..]);
    }
  }

  /** The events an entry takes, and that the event after them is no part of it. */
  lemma EntryEvents(evs: seq<Event>, j: nat)
    requires j < |Entries(evs, 1)|
    ensures
      var e := Entries(evs, 1)[j];
      && 1 <= e.line <= e.endLine <= |evs|
      && evs[e.line - 1].Assign? && evs[e.line - 1].section == e.section && evs[e.line - 1].a == e.a
      && (forall i :: e.line <= i < e.endLine ==> evs[i].More?)
      && (e.endLine < |evs| ==> !evs[e.endLine].More?)
      && Entries(evs[e.endLine..], e.endLine + 1) == Entries(evs, 1)[j + 1..]
  {
    hide Entries, Mores, Texts;
    Locate(evs, 1, j);
    var es, e := Entries(evs, 1), Entries(evs, 1)[j];
    var rest := evs[e.line - 1..];
    EntriesFront(rest, e.line);
    assert Step(rest) == e.endLine - e.line + 1;
    var k := Mores(rest[1..]);
    assert rest[0] == evs[e.line - 1];
    assert forall i :: e.line <= i < e.endLine ==> evs[i] == rest[1..][i - e.line];
    assert e.endLine < |evs| ==> evs[e.endLine] == rest[1..][k];
    assert rest[Step(rest)..] == evs[e.endLine..];
    assert es[j..][1..] == es[j + 1..];
  }

  /** After the last line of an entry: its section, its indentation, and nothing more of
      it. */
  lemma EntryCloses(lines: seq<string>, j: nat)
    requires j < |Scan(lines)|
    ensures
      var e := Scan(lines)[j];
      && 1 <= e.line <= e.endLine <= |lines|
      && var d := After(Top, lines[..e.endLine]);
         && d == Ctx(e.section, if e.section == [] then None else Some(|Indent(lines[e.line - 1])|))
         && Fresh(d, lines[e.endLine..])
  {
    hide Entries, ReadAll, After, Read, Indent, AssignmentOf, Introduces, SectionName, TrimSpace, Continues;
    var e, evs := Scan(lines)[j], ReadAll(Top, lines);
    EntryEvents(evs, j);
    assert AfterLine(lines, j) by {
      Placed(lines, j);
      ReadAt(Top, lines, e.line - 1);
    }
    EventsOfCut(lines, e.line, e.endLine);
    var c, m := After(Top, lines[..e.line]), lines[e.line..e.endLine];
    assert forall i :: 0 <= i < |m| ==> evs[e.line..e.endLine][i] == evs[e.line + i];
    AfterMores(c, m);
    if e.endLine < |lines| {
      ReadAt(Top, lines, e.endLine);
    }
  }

  predicate AfterLine(lines: seq<string>, j: nat)
    requires j < |Scan(lines)|
  {
    var e := Scan(lines)[j];
    && 1 <= e.line <= |lines|
    && After(Top, lines[..e.line]) ==
       Ctx(e.section, if e.section == [] then None else Some(|Indent(lines[e.line - 1])|))
  }

  lemma LocateBefore(evs: seq<Event>, i: nat)
    requires i < |Entries(evs, 1)|
    ensures
      var es := Entries(evs, 1);
      1 <= es[i].line <= es[i].endLine <= |evs| && Entries(evs[..es[i].line - 1], 1) == es[..i]
  {
    hide Entries, Mores, Texts, EntryOf;
    Locate(evs, 1, i);
  }

  lemma EntriesThree(evs: seq<Event>, from: nat, to: nat)
    requires from < to <= |evs| && !evs[from].More? && (to < |evs| ==> !evs[to].More?)
    ensures Entries(evs, 1) == Entries(evs[..from], 1) + Entries(evs[from..to], from + 1) + Entries(evs[to..], to + 1)
  {
    hide *;
    CutTwice(evs, from, to);
    assert evs[from..to][0] == evs[from];
    assert to < |evs| ==> evs[to..][0] == evs[to];
    EntriesConcat(evs[..to], evs[to..], 1);
    EntriesConcat(evs[..from], evs[from..to], 1);
  }

  lemma MiddleIs(es: seq<Entry>, x: seq<Entry>, y: seq<Entry>, z: seq<Entry>, i: nat, j: nat)
    requires i <= j < |es| && es == x + y + z && x == es[..i] && z == es[j + 1..]
    ensures y == es[i..j + 1]
  {
    Pieces(x, y, z);
    assert |x| == i && |z| == |es| - j - 1 && |y| == j + 1 - i;
  }

  lemma EntriesOfCut(evs: seq<Event>, i: nat, j: nat)
    requires i <= j < |Entries(evs, 1)|
    ensures
      var es := Entries(evs, 1);
      var from, to := es[i].line - 1, es[j].endLine;
      && 0 <= from < to <= |evs|
      && Entries(evs[..from], 1) == es[..i]
      && Entries(evs[from..to], from + 1) == es[i..j + 1]
      && Entries(evs[to..], to + 1) == es[j + 1..]
  {
    hide *;
    LocateBefore(evs, i);
    EntryEvents(evs, j);
    EntryEvents(evs, i);
    if i < j { InOrder(evs, 1, i, j); }
    var es := Entries(evs, 1);
    var from, to := es[i].line - 1, es[j].endLine;
    EntriesThree(evs, from, to);
    MiddleIs(es, Entries(evs[..from], 1), Entries(evs[from..to], from + 1), Entries(evs[to..], to + 1), i, j);
  }

  /** What the lines above, of and below entries i to j tell. */
  lemma CutTells(lines: seq<string>, i: nat, j: nat, k: Name)
    requires i <= j < |Scan(lines)|
    ensures
      var es := Scan(lines);
      var from, to := es[i].line - 1, es[j].endLine;
      && 0 <= from < to <= |lines|
      && var c, d := After(Top, lines[..from]), After(Top, lines[..to]);
         && d == After(c, lines[from..to])
         && Told(Top, lines[..from], k) == At0(Named(es[..i], k))
         && Told(c, lines[from..to], k) == At0(Named(es[i..j + 1], k))
         && Told(d, lines[to..], k) == At0(Named(es[j + 1..], k))
  {
    hide Entries, ReadAll, After, Named, At0;
    var es, evs := Scan(lines), ReadAll(Top, lines);
    EntriesOfCut(evs, i, j);
    var from, to := es[i].line - 1, es[j].endLine;
    EventsOfCut(lines, from, to);
    ToldShift(evs[from..to], from + 1, k);
    ToldShift(evs[to..], to + 1, k);
  }
}
