/** Files on which the ini codec falls short of a lens law, one for each condition of
    IniFile.SetLaw. */
module IniExamples {
  import opened Text
  import opened Document
  import opened IniScan
  import opened IniPlaces
  import opened IniCodec
  import opened IniLines
  import opened IniTold
  import opened IniLaws
  import opened IniInsert
  import opened IniTaken
  import opened IniFile

  /** The word "true" written as a string reads back as a boolean. */
  lemma WordBecomesBool()
    ensures !ReadsBack(LString("true"))
  {
    hide Escaped, ParseInt;
    assert TrimSpace("true") == "true";
  }

  lemma QuotedLosesQuotes()
    ensures !ReadsBack(LString("'x'"))
  {
    hide Escaped, ParseInt;
    assert TrimSpace("'x'") == "'x'";
    assert !NeedsQuotes("'x'");
    assert Quoted("'x'");
  }

  function Line(name: string, list: bool, raw: string): Assignment {
    Built(name, list, "", "=", raw)
  }

  lemma Plain(ctx: Ctx, name: string, list: bool, raw: string)
    requires GoodName(name) && Solid(raw)
    ensures Read(ctx, Core(name, list) + "=" + raw) == Assign(ctx.section, Line(name, list, raw), 0)
  {
    hide Read, GoodName, Solid, Core;
    DefaultStyle();
    assert "" + Core(name, list) + "=" + raw == Core(name, list) + "=" + raw;
    ReadBuilt(ctx, "", name, list, "=", raw);
  }

  lemma TwoPlain(first: string, second: string, a: Assignment, b: Assignment)
    requires Read(Top, first) == Assign("", a, 0) && Read(Top, second) == Assign("", b, 0)
    ensures Scan([first, second]) == [Entry("", a, 1, 1, []), Entry("", b, 2, 2, [])]
  {
    hide Read;
    assert [first, second][1..] == [second];
    assert ReadAll(Top, [first, second]) == [Assign("", a, 0), Assign("", b, 0)];
    hide ReadAll;
    var x, y := Assign("", a, 0), Assign("", b, 0);
    assert [x, y] == [x] + [y];
    EntriesConcat([x], [y], 1);
    EntriesOne(x, 1);
    EntriesOne(y, 2);
  }

  /** A plain line below a list keeps the last word after the list is rewritten. */
  lemma PlainBelowList()
    ensures
      var file, k, want := ["k[]=x", "k=y"], Name("", "k"), LString("z");
      var plan := Set(file, k, want);
      plan.Change? && InRange(|file|, plan.edit) && !Holds(Get(Replaced(file, plan.edit), k), want)
  {
    hide *;
    var file, k, want := ["k[]=x", "k=y"], Name("", "k"), LString("z");
    var a, b := Line("k", true, "x"), Line("k", false, "y");
    Letters();
    Plain(Top, "k", true, "x");
    Plain(Top, "k", false, "y");
    assert Top.section == "" by { TopSection(); }
    TwoPlain("k[]=x", "k=y", a, b);
    ListThenPlain(file, Entry("", a, 1, 1, []), Entry("", b, 2, 2, []));
    SetLaw(file, k, want);
  }

  lemma TopSection()
    ensures Top.section == ""
  {
  }

  lemma ListThenPlain(file: seq<string>, a: Entry, b: Entry)
    requires a == Entry("", Line("k", true, "x"), 1, 1, []) && b == Entry("", Line("k", false, "y"), 2, 2, [])
    requires Scan(file) == [a, b]
    ensures
      var k, want := Name("", "k"), LString("z");
      Set(file, k, want).Change? && Placeable(file, k) && !Settles(file, k, want) && GoodKey(k) && Sound(want)
  {
    hide Scan, Interpolates, ParseInt, Clear, Replace, Insert;
    var k := Name("", "k");
    assert [a, b][1..] == [b] && [b][1..] == [];
    assert Named([b], k) == [b] && Named([a, b], k) == [a, b];
    assert Lists([b]) == [] && Lists([a, b]) == [a];
    assert !Interpolates("x") by { NoDollar(); }
    assert [a][1..] == [] && !AnyInterpolates([]);
    assert !AnyInterpolates([a]);
    assert Chosen([a, b]) == [a] && ValueOf([a, b]) == ListValue([a]);
    assert Get(file, k).editable && Get(file, k).kind == KindList;
    FoundChosen(file, k);
    ChosenPlaced(file, k);
    assert Join(["y"], "\n") == "y";
    assert [Unquote("y")] + [] == ["y"];
  }

  lemma NoDollar()
    ensures !Interpolates("x")
  {
  }

  lemma Letters()
    ensures GoodName("k") && Solid("x") && Solid("y") && Solid("z")
    ensures Core("k", true) + "=" + "x" == "k[]=x" && Core("k", false) + "=" + "y" == "k=y" && Core("k", false) + "=" + "z" == "k=z"
  {
  }

  // ---- a header captured by the line written above it ----

  const CAPTURED := ["[a]", "x=1", "; c", "  [b]", "y=2"]

  lemma HeaderTrims()
    ensures TrimSpace("[a]") == "[a]" && TrimSpace("  [b]") == "[b]" && TrimSpace("a") == "a" && TrimSpace("b") == "b"
  {
    hide TrimSpace;
    assert "" + "[a]" + "" == "[a]" && "" + "a" + "" == "a" && "" + "b" + "" == "b";
    assert "  " + "[b]" + "" == "  [b]";
    TrimSpaceOf("", "[a]", "");
    TrimSpaceOf("", "a", "");
    TrimSpaceOf("  ", "[b]", "");
    TrimSpaceOf("", "b", "");
  }

  lemma HeaderRead(ctx: Ctx, line: string, name: string)
    requires (line == "[a]" && name == "a") || (line == "  [b]" && name == "b")
    requires ctx.open.None?
    ensures Read(ctx, line) == Header(name)
  {
    hide AssignmentOf, TrimSpace;
    HeaderTrims();
    assert "[a]"[1..2] == "a" && "[b]"[1..2] == "b";
  }

  lemma HeaderContinues(ctx: Ctx)
    requires ctx.open == Some(0)
    ensures Read(ctx, "  [b]") == More("[b]")
  {
    hide AssignmentOf, TrimSpace;
    HeaderTrims();
  }

  lemma CommentRead(ctx: Ctx)
    ensures Read(ctx, "; c") == Gap
  {
    assert TrimSpace("; c") == "; c";
  }

  lemma MoreLetters()
    ensures GoodName("x") && GoodName("y") && Solid("1") && Solid("2") && Solid("v")
    ensures Core("x", false) + "=" + "1" == "x=1" && Core("y", false) + "=" + "2" == "y=2"
    ensures Core("k", false) + "=" + "v" == "k=v"
  {
  }

  function Plainly(section: string, name: string, raw: string): Event {
    Assign(section, Line(name, false, raw), 0)
  }

  lemma CapturedReads()
    ensures ReadAll(Top, CAPTURED) ==
            [Header("a"), Plainly("a", "x", "1"), Gap, Header("b"), Plainly("b", "y", "2")]
  {
    hide Read, GoodName, Solid, Core, Built;
    var a, b := Ctx("a", None), Ctx("b", None);
    HeaderRead(Top, "[a]", "a");
    Letters();
    MoreLetters();
    Plain(a, "x", false, "1");
    CommentRead(Ctx("a", Some(0)));
    HeaderRead(a, "  [b]", "b");
    Plain(b, "y", false, "2");
    assert CAPTURED[1..] == ["x=1", "; c", "  [b]", "y=2"];
    assert CAPTURED[1..][1..] == ["; c", "  [b]", "y=2"];
    assert CAPTURED[1..][1..][1..] == ["  [b]", "y=2"];
    assert CAPTURED[1..][1..][1..][1..] == ["y=2"];
    assert CAPTURED[1..][1..][1..][1..][1..] == [];
    assert ReadAll(b, ["y=2"]) == [Plainly("b", "y", "2")] by { ReadOne(b, "y=2"); }
    assert ReadAll(a, ["  [b]", "y=2"]) == [Header("b"), Plainly("b", "y", "2")];
    assert ReadAll(Ctx("a", Some(0)), ["; c", "  [b]", "y=2"]) == [Gap, Header("b"), Plainly("b", "y", "2")];
    assert ReadAll(a, ["x=1", "; c", "  [b]", "y=2"]) == [Plainly("a", "x", "1"), Gap, Header("b"), Plainly("b", "y", "2")];
  }

  /** One event that nothing continues, and the ones behind it. */
  lemma EventAhead(ev: Event, rest: seq<Event>, at: nat)
    requires rest != [] ==> !rest[0].More?
    ensures Entries([ev] + rest, at) == (if ev.Assign? then [Entry(ev.section, ev.a, at, at, [])] else []) + Entries(rest, at + 1)
    ensures Headers([ev] + rest, at) == (if ev.Header? then [HeaderLine(ev.name, at)] else []) + Headers(rest, at + 1)
  {
    hide Mores;
    assert ([ev] + rest)[1..] == rest && rest[0..] == rest;
    assert Texts([]) == [];
    assert rest[..0] == [];
  }

  lemma CapturedScan()
    ensures Scan(CAPTURED) == [Entry("a", Line("x", false, "1"), 2, 2, []), Entry("b", Line("y", false, "2"), 5, 5, [])]
    ensures ScanHeaders(CAPTURED) == [HeaderLine("a", 1), HeaderLine("b", 4)]
  {
    CapturedReads();
    hide ReadAll, Built, Entries, Headers, Line;
    var x, y := Plainly("a", "x", "1"), Plainly("b", "y", "2");
    EventAhead(y, [], 5);
    EventAhead(Header("b"), [y], 4);
    EventAhead(Gap, [Header("b"), y], 3);
    EventAhead(x, [Gap, Header("b"), y], 2);
    EventAhead(Header("a"), [x, Gap, Header("b"), y], 1);
    NoEvents(6);
    assert [y] + [] == [y] && [Header("b")] + [y] == [Header("b"), y];
    assert [Gap] + [Header("b"), y] == [Gap, Header("b"), y];
    assert [x] + [Gap, Header("b"), y] == [x, Gap, Header("b"), y];
    assert [Header("a")] + [x, Gap, Header("b"), y] == [Header("a"), x, Gap, Header("b"), y];
  }

  lemma NoEvents(at: nat)
    ensures Entries([], at) == [] && Headers([], at) == []
  {
  }

  lemma CapturedInsert()
    ensures Insert(CAPTURED, Name("a", "k"), LString("v")) == Edit(4, 3, ["k=v"])
  {
    CapturedScan();
    hide Scan, ScanHeaders, TrimSpace, Lead, Escaped;
    assert TrimSpace("; c") != [] by { CommentTrims(); }
    assert Indent("x=1") == "" by { NoIndent(); }
    assert BackOver(CAPTURED, 3, 1) == 3;
    assert SpellString("v") == "v" by { SpellV(); }
    assert "" + "k" + "=" + "v" == "k=v";
  }

  lemma CommentTrims()
    ensures TrimSpace("; c") == "; c"
  {
  }

  lemma NoIndent()
    ensures Indent("x=1") == ""
  {
  }

  lemma SpellV()
    ensures SpellString("v") == "v"
  {
    hide TrimSpace;
    assert "" + "v" + "" == "v";
    TrimSpaceOf("", "v", "");
  }

  /** An indented header below a comment is a header until a line is written above it,
      and then it is more of that line: section b is gone, and its keys with it. */
  lemma HeaderCaptured()
    ensures
      var k, want, other := Name("a", "k"), LString("v"), Name("b", "y");
      var plan := Set(CAPTURED, k, want);
      && plan.Change? && InRange(|CAPTURED|, plan.edit)
      && Get(CAPTURED, other).kind == KindInt
      && Get(Replaced(CAPTURED, plan.edit), other).kind == KindMissing
  {
    hide *;
    var k, want, other := Name("a", "k"), LString("v"), Name("b", "y");
    CapturedScan();
    CapturedGets();
    SetInserts(CAPTURED, k, want);
    CapturedInsert();
    var after := ["[a]", "x=1", "; c", "k=v", "  [b]", "y=2"];
    AfterReads();
    MissingTold(after, other);
    ScanIs(after);
    NoneTells(ReadAll(Top, after), 1, other);
    NoB();
    CapturedSplice();
  }

  lemma CapturedSplice()
    ensures InRange(|CAPTURED|, Edit(4, 3, ["k=v"]))
    ensures Replaced(CAPTURED, Edit(4, 3, ["k=v"])) == ["[a]", "x=1", "; c", "k=v", "  [b]", "y=2"]
  {
  }

  lemma CapturedGets()
    ensures Get(CAPTURED, Name("a", "k")).kind == KindMissing
    ensures Get(CAPTURED, Name("b", "y")).kind == KindInt
  {
    hide *;
    var y := Entry("b", Line("y", false, "2"), 5, 5, []);
    CapturedScan();
    CapturedNamed();
    MissingTold(CAPTURED, Name("a", "k"));
    BuiltName("y", false, "", "=", "2");
    assert y.a == Built("y", false, "", "=", "2") by { LineIs("y", false, "2"); }
    LonePlain(CAPTURED, Name("b", "y"), y);
    TwoIsInt();
  }

  lemma LineIs(name: string, list: bool, raw: string)
    ensures Line(name, list, raw) == Built(name, list, "", "=", raw)
  {
  }

  lemma CapturedNamed()
    ensures
      var x, y := Entry("a", Line("x", false, "1"), 2, 2, []), Entry("b", Line("y", false, "2"), 5, 5, []);
      Named([x, y], Name("a", "k")) == [] && Named([x, y], Name("b", "y")) == [y]
  {
    var x, y := Entry("a", Line("x", false, "1"), 2, 2, []), Entry("b", Line("y", false, "2"), 5, 5, []);
    BuiltName("x", false, "", "=", "1");
    BuiltName("y", false, "", "=", "2");
    hide Built;
    assert [x, y] == [x] + [y];
    forall k: Name ensures Named([x, y], k) == Named([x], k) + Named([y], k) {
      NamedConcat([x], [y], k);
    }
    OneOf(x, Name("a", "k"));
    OneOf(y, Name("a", "k"));
    OneOf(x, Name("b", "y"));
    OneOf(y, Name("b", "y"));
  }

  lemma LonePlain(lines: seq<string>, k: Name, e: Entry)
    requires Named(Scan(lines), k) == [e] && !e.a.list && e.more == []
    ensures Get(lines, k).kind == IniKind(Join([Unquote(e.a.raw)] + [], "\n"), e.a.raw)
  {
    hide Scan, Named, IniKind, Join, Unquote, Interpolates;
    ListsOne(e);
  }

  lemma TwoIsInt()
    ensures Unquote("2") == "2" && Join(["2"] + [], "\n") == "2" && IniKind("2", "2") == KindInt
  {
    assert "2"[..0] == "";
    assert ["2"] + [] == ["2"];
  }

  const AFTER_EVENTS := [Header("a"), Plainly("a", "x", "1"), Gap, Plainly("a", "k", "v"), More("[b]"), Plainly("a", "y", "2")]

  lemma AfterReads()
    ensures ReadAll(Top, ["[a]", "x=1", "; c", "k=v", "  [b]", "y=2"]) == AFTER_EVENTS
  {
    hide Read, GoodName, Solid, Core, Built;
    var a, o := Ctx("a", None), Ctx("a", Some(0));
    HeaderRead(Top, "[a]", "a");
    Letters();
    MoreLetters();
    Plain(a, "x", false, "1");
    CommentRead(o);
    Plain(a, "k", false, "v");
    HeaderContinues(o);
    Plain(o, "y", false, "2");
    var file := ["[a]", "x=1", "; c", "k=v", "  [b]", "y=2"];
    var f1, f2, f3, f4, f5 := file[1..], file[2..], file[3..], file[4..], file[5..];
    assert f5[1..] == [] && f4[1..] == f5 && f3[1..] == f4 && f2[1..] == f3 && f1[1..] == f2;
    assert ReadAll(o, f5) == [Plainly("a", "y", "2")];
    assert ReadAll(o, f4) == [More("[b]"), Plainly("a", "y", "2")];
    assert ReadAll(a, f3) == [Plainly("a", "k", "v"), More("[b]"), Plainly("a", "y", "2")];
    assert ReadAll(o, f2) == [Gap, Plainly("a", "k", "v"), More("[b]"), Plainly("a", "y", "2")];
    assert ReadAll(a, f1) == [Plainly("a", "x", "1"), Gap, Plainly("a", "k", "v"), More("[b]"), Plainly("a", "y", "2")];
  }

  lemma NoB()
    ensures forall i :: 0 <= i < |AFTER_EVENTS| ==> !Tells(AFTER_EVENTS[i], Name("b", "y"))
  {
  }

  // ---- a line joined to the entry above it ----

  const PIP := ["[install]", "  a=1", "b=2"]

  const HASHES := Name("install", "require-hashes")

  lemma InstallTrims()
    ensures TrimSpace("[install]") == "[install]" && TrimSpace("install") == "install" && TrimSpace("b=2") != []
    ensures Trimmed("install") && '\n' !in "install"
  {
    hide TrimSpace;
    assert "" + "[install]" + "" == "[install]" && "" + "install" + "" == "install" && "" + "b=2" + "" == "b=2";
    TrimSpaceOf("", "[install]", "");
    TrimSpaceOf("", "install", "");
    TrimSpaceOf("", "b=2", "");
  }

  lemma InstallRead()
    ensures Read(Top, "[install]") == Header("install")
  {
    hide AssignmentOf, TrimSpace;
    InstallTrims();
    assert "[install]"[1..8] == "install";
  }

  lemma PipLetters()
    ensures GoodName("a") && GoodName("b") && GoodName("require-hashes") && Solid("1") && Solid("2") && Blanks("  ") && Blanks("")
    ensures "  " + Core("a", false) + "=" + "1" == "  a=1" && "" + Core("b", false) + "=" + "2" == "b=2"
  {
  }

  lemma PipLine(ctx: Ctx, line: string, indent: string, name: string, raw: string)
    requires Blanks(indent) && GoodName(name) && Solid(raw) && line == indent + Core(name, false) + "=" + raw
    requires ctx.open.Some? ==> |indent| <= ctx.open.value
    ensures Read(ctx, line) == Assign(ctx.section, Built(name, false, indent, "=", raw), |indent|)
    ensures Indent(line) == indent
  {
    hide Read, GoodName, Solid, Core, Built, Indent;
    DefaultStyle();
    ReadBuilt(ctx, indent, name, false, "=", raw);
    ContinuesIs(ctx, line);
  }

  lemma ContinuesIs(ctx: Ctx, line: string)
    ensures Continues(ctx, line) == (ctx.open.Some? && |Indent(line)| > ctx.open.value)
  {
    hide Indent;
  }

  lemma PipReads()
    ensures ReadAll(Top, PIP) ==
            [Header("install"), Assign("install", Built("a", false, "  ", "=", "1"), 2), Assign("install", Built("b", false, "", "=", "2"), 0)]
    ensures After(Top, PIP) == Ctx("install", Some(0))
    ensures Indent("  a=1") == "  "
  {
    hide Read, GoodName, Solid, Core, Built, Indent;
    PipLetters();
    InstallRead();
    var c, d := Ctx("install", None), Ctx("install", Some(2));
    PipLine(c, "  a=1", "  ", "a", "1");
    PipLine(d, "b=2", "", "b", "2");
    assert PIP[1..] == ["  a=1", "b=2"] && ["  a=1", "b=2"][1..] == ["b=2"];
    ReadOne(d, "b=2");
    assert ReadAll(c, ["  a=1", "b=2"]) == [Read(c, "  a=1")] + ReadAll(d, ["b=2"]);
    assert After(c, ["  a=1", "b=2"]) == After(d, ["b=2"]);
  }

  lemma PipScan()
    ensures Scan(PIP) == [Entry("install", Built("a", false, "  ", "=", "1"), 2, 2, []), Entry("install", Built("b", false, "", "=", "2"), 3, 3, [])]
    ensures ScanHeaders(PIP) == [HeaderLine("install", 1)]
  {
    PipReads();
    hide ReadAll, After, Built, Entries, Headers, Indent;
    var x, y := Assign("install", Built("a", false, "  ", "=", "1"), 2), Assign("install", Built("b", false, "", "=", "2"), 0);
    EventAhead(y, [], 3);
    EventAhead(x, [y], 2);
    EventAhead(Header("install"), [x, y], 1);
    NoEvents(4);
    assert [y] + [] == [y] && [x] + [y] == [x, y] && [Header("install")] + [x, y] == [Header("install"), x, y];
  }

  lemma PipPoint()
    ensures Point(PIP, HASHES) == (4, false) && PointStyle(PIP, HASHES) == ("  ", "=")
    ensures PointCtx(PIP, HASHES) == Ctx("install", Some(0))
    ensures Get(PIP, HASHES).kind == KindMissing
  {
    PipScan();
    PipReads();
    InstallTrims();
    hide Scan, ScanHeaders, TrimSpace, Lead, ReadAll, After, Entries, Indent;
    assert BackOver(PIP, 3, 1) == 3;
    assert PIP[..3] == PIP;
    BuiltName("a", false, "  ", "=", "1");
    BuiltName("b", false, "", "=", "2");
    var x, y := Entry("install", Built("a", false, "  ", "=", "1"), 2, 2, []), Entry("install", Built("b", false, "", "=", "2"), 3, 3, []);
    hide Built, Named, Point, Get;
    assert [x, y] == [x] + [y];
    NamedConcat([x], [y], HASHES);
    OneOf(x, HASHES);
    OneOf(y, HASHES);
    MissingTold(PIP, HASHES);
  }

  /** A setting written into a section whose first entry is indented and whose last is not
      becomes more of the last: the key is as missing as it was. */
  lemma PipStaysMissing()
    ensures
      var want := LBool(true);
      var plan := Set(PIP, HASHES, want);
      && plan.Change? && InRange(|PIP|, plan.edit)
      && GoodKey(HASHES) && !Lands(PIP, HASHES)
      && Get(PIP, HASHES).kind == KindMissing
      && Get(Replaced(PIP, plan.edit), HASHES).kind == KindMissing
  {
    hide *;
    PipPoint();
    PipKey();
    TakesIs(PIP, HASHES, LBool(true));
    PipRefuses();
    SoundTrue();
    LandsIs(PIP, HASHES);
    JoinedToEntryAbove(PIP, HASHES, LBool(true));
  }

  lemma PipRefuses()
    ensures !Admits(Ctx("install", Some(0)), |"  "|)
  {
  }

  lemma PipKey()
    ensures GoodKey(HASHES)
  {
    InstallTrims();
    PipLetters();
    hide GoodName;
  }

  lemma SoundTrue()
    ensures Sound(LBool(true))
  {
  }
}
