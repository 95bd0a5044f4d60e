/** Where the entries of a scan are: every entry stands on a line that reads as it, and
    cuts the scan into what is above it and what is from it on. */
module IniPlaces {
  import opened Text
  import opened IniScan

  function Scan(lines: seq<string>): seq<Entry> {
    Entries(ReadAll(Top, lines), 1)
  }

  function ScanHeaders(lines: seq<string>): seq<HeaderLine> {
    Headers(ReadAll(Top, lines), 1)
  }

  lemma ReadAt(ctx: Ctx, lines: seq<string>, i: nat)
    requires i < |lines|
    ensures ReadAll(ctx, lines)[i] == Read(After(ctx, lines[..i]), lines[i])
    ensures ReadAll(ctx, lines)[..i] == ReadAll(ctx, lines[..i])
    ensures ReadAll(ctx, lines)[i..] == ReadAll(After(ctx, lines[..i]), lines[i..])
    ensures After(ctx, lines[..i + 1]) == Next(After(ctx, lines[..i]), Read(After(ctx, lines[..i]), lines[i]))
  {
    hide *;
    var a, b := lines[..i], lines[i..];
    assert lines == a + b;
    ReadConcat(ctx, a, b);
    var c := After(ctx, a);
    assert b == [lines[i]] + lines[i + 1..];
    ReadConcat(c, [lines[i]], lines[i + 1..]);
    ReadOne(c, lines[i]);
    assert lines[..i + 1] == a + [lines[i]];
    ReadConcat(ctx, a, [lines[i]]);
  }

  /** How many events the first entry of a run, or the event before it, takes. */
  function Step(evs: seq<Event>): (k: nat)
    requires evs != []
    ensures 1 <= k <= |evs|
  {
    if evs[0].Assign? then 1 + Mores(evs[1..]) else 1
  }

  function First(evs: seq<Event>, at: nat): seq<Entry>
    requires evs != []
  {
    if evs[0].Assign? then [EntryOf(evs, at)] else []
  }

  lemma EntriesFront(evs: seq<Event>, at: nat)
    requires evs != []
    ensures Entries(evs, at) == First(evs, at) + Entries(evs[Step(evs)..], at + Step(evs))
  {
    hide Mores, EntryOf;
  }

  /** The first entry of a run is the first entry of every prefix that holds it. */
  lemma FrontOf(evs: seq<Event>, at: nat, i: nat)
    requires evs != [] && Step(evs) <= i <= |evs|
    ensures Entries(evs[..i], at) == First(evs, at) + Entries(evs[Step(evs)..i], at + Step(evs))
  {
    hide Texts, Entries;
    var a := evs[..i];
    if evs[0].Assign? {
      var k := Mores(evs[1..]);
      assert a[1..][..k] == evs[1..][..k];
      if i > 1 + k {
        assert a[1..][k] == evs[1..][k];
      }
      MoresIs(a[1..], k);
    }
    assert a[Step(evs)..] == evs[Step(evs)..i];
    EntriesFront(a, at);
  }

  /** Entry j of a run, and the cut of the events at its line. */
  ghost predicate Cut(evs: seq<Event>, at: nat, j: nat)
    requires j < |Entries(evs, at)|
  {
    var es := Entries(evs, at);
    var e := es[j];
    && at <= e.line <= e.endLine < at + |evs|
    && var i := e.line - at;
       && evs[i].Assign?
       && EntryOf(evs[i..], e.line) == e
       && Entries(evs[..i], at) == es[..j]
       && Entries(evs[i..], e.line) == es[j..]
  }

  lemma {:induction false} Locate(evs: seq<Event>, at: nat, j: nat)
    requires j < |Entries(evs, at)|
    ensures Cut(evs, at, j)
    decreases |evs|
  {
    hide Mores, Texts, EntryOf, Entries;
    NoEntries(at);
    EntriesFront(evs, at);
    var k, f := Step(evs), First(evs, at);
    if j < |f| {
      assert evs[..0] == [] && evs[0..] == evs;
      EntryEnds(evs, at);
    } else {
      Locate(evs[k..], at + k, j - |f|);
      CutNext(evs, at, j);
    }
  }

  lemma NoEntries(at: nat)
    ensures Entries([], at) == []
  {
  }

  lemma EntryEnds(evs: seq<Event>, at: nat)
    requires evs != [] && evs[0].Assign?
    ensures EntryOf(evs, at).line == at && at <= EntryOf(evs, at).endLine < at + |evs|
  {
  }

  lemma CutNext(evs: seq<Event>, at: nat, j: nat)
    requires evs != [] && |First(evs, at)| <= j < |Entries(evs, at)|
    requires
      var k, f := Step(evs), First(evs, at);
      && Entries(evs, at) == f + Entries(evs[k..], at + k)
      && Cut(evs[k..], at + k, j - |f|)
    ensures Cut(evs, at, j)
  {
    hide Entries, EntryOf, First, Step;
    var k, f := Step(evs), First(evs, at);
    var rest := evs[k..];
    var es, e := Entries(evs, at), Entries(evs, at)[j];
    var i := e.line - at;
    assert e == Entries(rest, at + k)[j - |f|];
    assert evs[i..] == rest[i - k..];
    FrontOf(evs, at, i);
    assert evs[k..i] == rest[..i - k];
    assert es[..j] == f + Entries(rest, at + k)[..j - |f|];
    assert es[j..] == Entries(rest, at + k)[j - |f|..];
  }

  /** An entry stands on a line that reads as it, in the section the lines above leave. */
  lemma Placed(lines: seq<string>, j: nat)
    requires j < |Scan(lines)|
    ensures
      var e := Scan(lines)[j];
      && 1 <= e.line <= e.endLine <= |lines|
      && var ctx := After(Top, lines[..e.line - 1]);
         && Read(ctx, lines[e.line - 1]) == Assign(e.section, e.a, |Indent(lines[e.line - 1])|)
         && e.section == ctx.section
         && AssignmentOf(lines[e.line - 1]) == Some(e.a)
         && !Introduces(lines[e.line - 1]) && SectionName(TrimSpace(lines[e.line - 1])).None?
         && !Continues(ctx, lines[e.line - 1])
  {
    hide Entries, ReadAll, After, AssignmentOf, Introduces, SectionName, TrimSpace, Indent, Continues, Mores, Texts;
    Locate(ReadAll(Top, lines), 1, j);
    var e := Scan(lines)[j];
    ReadAt(Top, lines, e.line - 1);
    assert ReadAll(Top, lines)[e.line - 1..][0] == ReadAll(Top, lines)[e.line - 1];
  }

  lemma {:induction false} InOrder(evs: seq<Event>, at: nat, i: nat, j: nat)
    requires i < j < |Entries(evs, at)|
    ensures Entries(evs, at)[i].endLine < Entries(evs, at)[j].line
    ensures j - i <= Entries(evs, at)[j].line - Entries(evs, at)[i].line
    decreases j
  {
    hide Entries, EntryOf, Mores;
    Locate(evs, at, j);
    var e := Entries(evs, at)[j];
    var head := evs[..e.line - at];
    assert Entries(head, at)[i] == Entries(evs, at)[i];
    Locate(head, at, i);
    if i < j - 1 {
      InOrder(evs, at, i, j - 1);
      assert Entries(head, at)[j - 1] == Entries(evs, at)[j - 1];
      Locate(head, at, j - 1);
    }
  }
}
