/** The ini codec as the fixer uses it (internal/doctor/fix.go, internal/configfile/ini.go):
    which of its writes land, settle or are swallowed, that it keeps every law of Codecs for
    those, and a pip.conf on which a setting is fixable again after every run. */
module FixerIni {
  import opened Text
  import opened Document
  import opened IniCodec
  import opened IniPlaces
  import IniTold
  import opened IniLaws
  import opened IniLines
  import opened IniInsert
  import opened IniTaken
  import opened IniFile
  import opened IniKept
  import IniSwallowed
  import IniExamples
  import opened Codecs
  import Desired
  import opened Fixer
  import opened FixerLaws
  import opened FixerAgain

  /** Get over the bytes of a file; a key of more than two levels is an error. */
  function GetIn(text: string, key: Key): Reading {
    match Place(key)
    case None => Unreadable
    case Some(k) =>
      var v := Get(NewDoc(text).lines, k);
      if v.kind == KindMissing then Absent else Present(IniTold.Shown(v))
  }

  /** Set over the bytes of a file: the edit, applied and written. */
  function SetIn(text: string, key: Key, want: Literal): Writing {
    match Place(key)
    case None => Fails
    case Some(k) =>
      var d := NewDoc(text);
      match Set(d.lines, k, want)
      case BadKey => Fails
      case Nothing => Unchanged
      case Refused => Refuses
      case Change(e) =>
        match Apply(d, e)
        case None => Fails
        case Some(next) => Writes(Rendered(next))
  }

  function IniFiles(): Codec {
    Codec((p: Path, text: string, k: Key) => GetIn(text, k), (p: Path, text: string, k: Key, want: Literal) => SetIn(text, k, want))
  }

  /** A key of one or two levels; one of the file itself is spelled without a section. */
  predicate Proper(key: Key) {
    Place(key).Some? && (|key| == 2 ==> key[0] != [])
  }

  /** A file, a key and a value the laws of the ini codec speak of. */
  predicate Known(text: string, key: Key, want: Literal) {
    && Proper(key) && Place(key).Some? && GoodKey(Place(key).value) && Ascii(Place(key).value.name)
    && Sound(want) && want != LList([])
    && forall l :: l in NewDoc(text).lines ==> Ended(l)
  }

  /** No line is taken for a continuation. */
  predicate LandsIn(text: string, key: Key, want: Literal) {
    Known(text, key, want) && Placeable(NewDoc(text).lines, Place(key).value)
  }

  /** The new line is taken for more of the entry above it. */
  predicate SwallowedIn(text: string, key: Key, want: Literal) {
    Known(text, key, want) && !Lands(NewDoc(text).lines, Place(key).value)
  }

  predicate SettlesIn(text: string, key: Key, want: Literal) {
    Place(key).Some? && Settles(NewDoc(text).lines, Place(key).value, want)
  }

  function IniWrites(): Promise {
    Promise(
      (k: Key) => Proper(k),
      (p: Path, text: string, k: Key, want: Literal) => Known(text, k, want),
      (p: Path, text: string, k: Key, want: Literal) => LandsIn(text, k, want),
      (p: Path, text: string, k: Key, want: Literal) => SwallowedIn(text, k, want),
      (p: Path, text: string, k: Key, want: Literal) => SettlesIn(text, k, want))
  }

  // ---- one write ----

  /** A write, in the lines of the file. */
  lemma WriteIs(text: string, key: Key, want: Literal)
    requires SetIn(text, key, want).Writes? && Known(text, key, want)
    ensures Place(key).Some?
    ensures
      var k, lines := Place(key).value, NewDoc(text).lines;
      && Set(lines, k, want).Change?
      && var again := NewDoc(SetIn(text, key, want).content).lines;
         && InRange(|lines|, Set(lines, k, want).edit) && again == Replaced(lines, Set(lines, k, want).edit)
         && (Get(again, k).kind != KindMissing <==> Lands(lines, k))
         && (Holds(Get(again, k), want) <==> Settles(lines, k, want))
         && (Placeable(lines, k) ==> forall q :: q != k ==> IniTold.Shown(Get(again, q)) == IniTold.Shown(Get(lines, q)))
  {
    KnownIs(text, key, want);
    SetInIs(text, key, want);
    hide *;
    var k := Place(key).value;
    FileLaw(text, k, want);
    SetLaw(NewDoc(text).lines, k, want);
    AppliedIs(NewDoc(text), Set(NewDoc(text).lines, k, want).edit);
  }

  lemma KnownIs(text: string, key: Key, want: Literal)
    requires Known(text, key, want)
    ensures Proper(key) && Place(key).Some? && GoodKey(Place(key).value) && Ascii(Place(key).value.name)
    ensures Sound(want) && want != LList([]) && forall l :: l in NewDoc(text).lines ==> Ended(l)
  {
    hide NewDoc, GoodKey, Ascii, Sound, Ended;
  }

  lemma SetInIs(text: string, key: Key, want: Literal)
    requires Place(key).Some?
    ensures
      var d, k := NewDoc(text), Place(key).value;
      && (SetIn(text, key, want).Writes? ==>
          && Set(d.lines, k, want).Change? && Apply(d, Set(d.lines, k, want).edit).Some?
          && SetIn(text, key, want).content == Rendered(Apply(d, Set(d.lines, k, want).edit).value))
      && (Set(d.lines, k, want).Change? && Apply(d, Set(d.lines, k, want).edit).Some? ==> SetIn(text, key, want).Writes?)
  {
    hide NewDoc, Set, Apply, Rendered;
  }

  lemma GetInIs(text: string, key: Key)
    ensures Place(key).None? ==> GetIn(text, key) == Unreadable
    ensures Place(key).Some? ==>
              var v := Get(NewDoc(text).lines, Place(key).value);
              GetIn(text, key) == if v.kind == KindMissing then Absent else Present(IniTold.Shown(v))
  {
    hide NewDoc, Get, IniTold.Shown;
  }

  /** Keys that are apart are different places. */
  lemma ApartPlaces(a: Key, b: Key)
    requires Proper(a) && Proper(b) && !Related(a, b) && Place(a).Some? && Place(b).Some?
    ensures Place(a).value != Place(b).value
  {
    SamePlace(a, b);
  }

  lemma SamePlace(a: Key, b: Key)
    requires Proper(a) && Proper(b) && Place(a).Some?
    ensures Place(a) == Place(b) ==> a == b && Related(a, b)
  {
    assert |a| == 1 ==> a == [a[0]];
    assert |b| == 1 ==> b == [b[0]];
    assert |a| == 2 ==> a == [a[0], a[1]];
    assert |b| == 2 ==> b == [b[0], b[1]];
  }

  lemma GuardsAre(text: string, key: Key, want: Literal)
    ensures LandsIn(text, key, want) <==> Known(text, key, want) && Placeable(NewDoc(text).lines, Place(key).value)
    ensures SwallowedIn(text, key, want) <==> Known(text, key, want) && !Lands(NewDoc(text).lines, Place(key).value)
    ensures Place(key).Some? ==> (SettlesIn(text, key, want) <==> Settles(NewDoc(text).lines, Place(key).value, want))
  {
    hide NewDoc, GoodKey, Ascii, Sound, Ended, Placeable, Lands, Settles, Proper;
  }

  lemma PlaceableLands(lines: seq<string>, k: Name)
    requires Placeable(lines, k)
    ensures Lands(lines, k)
  {
    hide *;
    LandsIs(lines, k);
    if Get(lines, k).kind == KindMissing {
      PlaceableIs(lines, k);
      ClearStands(lines, k);
    }
  }

  // ---- the laws ----

  lemma ToldAt(text: string, key: Key, want: Literal)
    ensures LandsIn(text, key, want) ==> Known(text, key, want) && !SwallowedIn(text, key, want)
    ensures SwallowedIn(text, key, want) ==> Known(text, key, want)
  {
    hide *;
    GuardsAre(text, key, want);
    if LandsIn(text, key, want) {
      KnownIs(text, key, want);
      PlaceableLands(NewDoc(text).lines, Place(key).value);
    }
  }

  lemma StatesIn(text: string, key: Key, want: Literal)
    requires SetIn(text, key, want).Writes? && Known(text, key, want)
    ensures GetIn(SetIn(text, key, want).content, key) == Absent <==> SwallowedIn(text, key, want)
  {
    hide *;
    WriteIs(text, key, want);
    GuardsAre(text, key, want);
    GetInIs(SetIn(text, key, want).content, key);
  }

  lemma SetGetIn(text: string, key: Key, want: Literal)
    requires SetIn(text, key, want).Writes? && LandsIn(text, key, want)
    ensures
      var now := GetIn(SetIn(text, key, want).content, key);
      now.Present? && Holds(now.value, want) <==> SettlesIn(text, key, want)
  {
    hide *;
    GuardsAre(text, key, want);
    WriteIs(text, key, want);
    GetInIs(SetIn(text, key, want).content, key);
    var v := Get(NewDoc(SetIn(text, key, want).content).lines, Place(key).value);
    HoldsShown(v, want);
    if v.kind == KindMissing { MissingHoldsNothing(v, want); }
  }

  lemma FrameIn(text: string, key: Key, want: Literal, other: Key)
    requires SetIn(text, key, want).Writes? && LandsIn(text, key, want)
    ensures
      var now := GetIn(SetIn(text, key, want).content, other);
      && (!Related(key, other) && Proper(other) ==> now == GetIn(text, other))
      && (GetIn(text, other) != Absent ==> now != Absent)
  {
    hide *;
    GuardsAre(text, key, want);
    KnownIs(text, key, want);
    WriteIs(text, key, want);
    var after := SetIn(text, key, want).content;
    GetInIs(text, other);
    GetInIs(after, other);
    if Place(other).Some? {
      var k, q := Place(key).value, Place(other).value;
      if q != k {
        ShownAlike(Get(NewDoc(text).lines, q), Get(NewDoc(after).lines, q));
      } else {
        PlaceableLands(NewDoc(text).lines, k);
        if !Related(key, other) && Proper(other) { ApartPlaces(key, other); }
      }
    }
  }

  lemma ShownAlike(a: Value, b: Value)
    requires IniTold.Shown(a) == IniTold.Shown(b)
    ensures a.kind == b.kind
  {
  }

  lemma HarmlessIn(text: string, key: Key, want: Literal, other: Key)
    requires SetIn(text, key, want).Writes? && SwallowedIn(text, key, want)
    ensures GetIn(SetIn(text, key, want).content, other) == Absent <==> GetIn(text, other) == Absent
  {
    hide *;
    GuardsAre(text, key, want);
    KnownIs(text, key, want);
    WriteIs(text, key, want);
    var after := SetIn(text, key, want).content;
    GetInIs(text, other);
    GetInIs(after, other);
    if Place(other).Some? {
      LostIsHarmless(NewDoc(text).lines, Place(key).value, want, Place(other).value);
    }
  }

  lemma IdleIn(text: string, key: Key, want: Literal, other: Key, wanted: Literal)
    requires SetIn(text, key, want).Writes? && LandsIn(text, key, want)
    requires !Related(key, other) && Proper(other) && !SetIn(text, other, wanted).Writes?
    ensures !SetIn(SetIn(text, key, want).content, other, wanted).Writes?
  {
    hide *;
    GuardsAre(text, key, want);
    KnownIs(text, key, want);
    WriteIs(text, key, want);
    ProperPlace(other);
    var after := SetIn(text, key, want).content;
    ApartPlaces(key, other);
    var lines, q := NewDoc(text).lines, Place(other).value;
    SetInIs(text, other, wanted);
    SetInIs(after, other, wanted);
    if Set(lines, q, wanted).Change? { ChangesApply(text, q, wanted); }
    IniKept.IdleStays(lines, Place(key).value, want, q, wanted);
  }

  lemma ProperPlace(key: Key)
    requires Proper(key)
    ensures Place(key).Some?
  {
  }

  /** A key that is absent is always written. */
  lemma AbsentWrites(text: string, key: Key, want: Literal)
    requires GetIn(text, key) == Absent
    ensures SetIn(text, key, want).Writes?
  {
    hide *;
    GetInIs(text, key);
    var k := Place(key).value;
    SetInserts(NewDoc(text).lines, k, want);
    SetInIs(text, key, want);
    ChangesApply(text, k, want);
  }

  /** The edit Set plans always applies. */
  lemma ChangesApply(text: string, q: Name, wanted: Literal)
    requires Set(NewDoc(text).lines, q, wanted).Change?
    ensures Apply(NewDoc(text), Set(NewDoc(text).lines, q, wanted).edit).Some?
  {
    hide *;
    var d := NewDoc(text);
    if Get(d.lines, q).kind == KindMissing {
      SetInserts(d.lines, q, wanted);
      InsertFits(d.lines, q, wanted);
    } else {
      SetReplaces(d.lines, q, wanted);
      var i, j := ChosenRange(d.lines, q);
      IniPlaces.Placed(d.lines, i);
      IniPlaces.Placed(d.lines, j);
      if i < j { ScanInOrder(d.lines, i, j); }
      var es := Chosen(Named(Scan(d.lines), q));
      assert es[0] == Scan(d.lines)[i];
      ReplaceRange(d.lines, es, i, j, wanted);
    }
    AppliedIs(d, Set(d.lines, q, wanted).edit);
  }

  /** The ini codec keeps every law, for the writes it promises something about: those of
      good keys and sound values into files whose lines end where they seem to. */
  lemma IniIsLawful()
    ensures Lawful(IniFiles(), IniWrites())
  {
    IniTells();
    IniStates();
    IniSetGet();
    IniFrame();
    IniHarmless();
    IniIdle();
    IniStartsEmpty();
    hide *;
    LawfulIs(IniFiles(), IniWrites());
  }

  lemma LawfulIs(c: Codec, g: Promise)
    requires Codecs.Told(g) && StatesUnlessSwallowed(c, g) && SetGet(c, g) && Frame(c, g) && Harmless(c, g) && Idle(c, g) && StartsEmpty(c, g)
    ensures Lawful(c, g)
  {
    hide Codecs.Told, StatesUnlessSwallowed, SetGet, Frame, Harmless, Idle, StartsEmpty;
  }

  lemma IniTells()
    ensures Codecs.Told(IniWrites())
  {
    hide Known, LandsIn, SwallowedIn, SettlesIn;
    forall text, k, want
      ensures LandsIn(text, k, want) ==> Known(text, k, want) && !SwallowedIn(text, k, want)
      ensures SwallowedIn(text, k, want) ==> Known(text, k, want)
    {
      ToldAt(text, k, want);
    }
  }

  lemma IniStates()
    ensures StatesUnlessSwallowed(IniFiles(), IniWrites())
  {
    hide Known, LandsIn, SwallowedIn, SettlesIn, GetIn, SetIn;
    forall text, k, want | SetIn(text, k, want).Writes? && Known(text, k, want)
      ensures GetIn(SetIn(text, k, want).content, k) == Absent <==> SwallowedIn(text, k, want)
    {
      StatesIn(text, k, want);
    }
  }

  lemma IniSetGet()
    ensures SetGet(IniFiles(), IniWrites())
  {
    hide Known, LandsIn, SwallowedIn, SettlesIn, GetIn, SetIn, Holds;
    forall text, k, want | SetIn(text, k, want).Writes? && LandsIn(text, k, want)
      ensures
        var now := GetIn(SetIn(text, k, want).content, k);
        now.Present? && Holds(now.value, want) <==> SettlesIn(text, k, want)
    {
      SetGetIn(text, k, want);
    }
  }

  lemma IniFrame()
    ensures Frame(IniFiles(), IniWrites())
  {
    hide Known, LandsIn, SwallowedIn, SettlesIn, GetIn, SetIn, Related, Proper;
    forall text, k, want, other | SetIn(text, k, want).Writes? && LandsIn(text, k, want)
      ensures
        var now := GetIn(SetIn(text, k, want).content, other);
        && (!Related(k, other) && Proper(other) ==> now == GetIn(text, other))
        && (GetIn(text, other) != Absent ==> now != Absent)
    {
      FrameIn(text, k, want, other);
    }
  }

  lemma IniHarmless()
    ensures Harmless(IniFiles(), IniWrites())
  {
    hide Known, LandsIn, SwallowedIn, SettlesIn, GetIn, SetIn;
    forall text, k, want, other | SetIn(text, k, want).Writes? && SwallowedIn(text, k, want)
      ensures GetIn(SetIn(text, k, want).content, other) == Absent <==> GetIn(text, other) == Absent
    {
      HarmlessIn(text, k, want, other);
    }
  }

  lemma IniIdle()
    ensures Idle(IniFiles(), IniWrites())
  {
    hide Known, LandsIn, SwallowedIn, SettlesIn, GetIn, SetIn, Related, Proper;
    forall text, k, want, other, wanted |
      SetIn(text, k, want).Writes? && (LandsIn(text, k, want) || (SwallowedIn(text, k, want) && GetIn(text, other) == Absent))
      && !Related(k, other) && Proper(other) && !SetIn(text, other, wanted).Writes?
      ensures !SetIn(SetIn(text, k, want).content, other, wanted).Writes?
    {
      if GetIn(text, other) == Absent {
        AbsentWrites(text, other, wanted);
      } else {
        IdleIn(text, k, want, other, wanted);
      }
    }
  }

  lemma IniStartsEmpty()
    ensures StartsEmpty(IniFiles(), IniWrites())
  {
    hide Known, LandsIn, SwallowedIn, SettlesIn, GetIn, SetIn, Proper;
    forall k | Proper(k) ensures GetIn("", k) == Absent {
      ProperPlace(k);
      GetInIs("", k);
      EmptyFile(Place(k).value);
    }
  }

  /** A key the file does not state holds what is written for it, where no line is taken
      for a continuation, exactly when the literal reads back. */
  lemma SettlesMeans(text: string, key: Key, want: Literal)
    requires LandsIn(text, key, want) && GetIn(text, key) == Absent
    ensures SettlesIn(text, key, want) <==> ReadsBack(want)
  {
    hide *;
    GuardsAre(text, key, want);
    KnownIs(text, key, want);
    GetInIs(text, key);
    var lines, k := NewDoc(text).lines, Place(key).value;
    PlaceableIs(lines, k);
    ClearTakes(lines, k, want);
    SettlesIs(lines, k, want);
  }

  // ---- a second run over ini files ----

  /** Rule j was missing and not written for, while another result created a file it may
      not create, which is now the first place it has. */
  predicate PassedOver(env: Env, w: World, rules: seq<Rule>, results: seq<Result>, j: nat, t: Target)
    requires j < |rules| && |results| == |rules|
  {
    var end := Fixed(env, w, results, |results|).files;
    && Fixable(results[j]) && OutcomeOf(env, w, results, j) != Wrote
    && SpotOf(end, rules[j]) == Some(t) && !t.create && t.path !in w.files && t.path in end && t.path !in env.readOnly
  }

  predicate Lost(env: Env, w: World, results: seq<Result>, j: nat)
    requires j < |results|
  {
    Fixable(results[j]) && OutcomeOf(env, w, results, j) == Wrote && SwallowedStep(env, IniWrites(), w, results, j)
  }

  /** At the end the codec would write the key of a rule that was not settled. */
  lemma WouldWrite(env: Env, w: World, rules: seq<Rule>, results: seq<Result>, j: nat)
    requires env.codec == IniFiles() && FirstRun(env, IniWrites(), w, rules, results) && j < |rules| && |results| == |rules|
    requires Fixable(results[j]) && (OutcomeOf(env, w, results, j) == Wrote ==> SwallowedStep(env, IniWrites(), w, results, j))
    ensures
      var end := Fixed(env, w, results, |results|).files;
      && SpotOf(end, rules[j]).Some?
      && var t := SpotOf(end, rules[j]).value;
         env.codec.set_(t.path, TextOf(end, t.path), t.key, rules[j].want).Writes?
  {
    CodecIs();
    hide *;
    var end := Fixed(env, w, results, |results|).files;
    StillAbsent(env, IniWrites(), w, rules, results, j);
    var t := SpotOf(end, rules[j]).value;
    AbsentThrough(env, IniWrites(), w, rules, results, j, t, |results|);
    ReadsAsIs(env, end, t.path, t.key);
    ProperPlace(t.key);
    GetInIs("", t.key);
    EmptyFile(Place(t.key).value);
    AbsentWrites(TextOf(end, t.path), t.key, rules[j].want);
  }

  lemma LostIs(env: Env, w: World, rules: seq<Rule>, results: seq<Result>, j: nat)
    requires env.codec == IniFiles() && FirstRun(env, IniWrites(), w, rules, results) && j < |rules| && |results| == |rules|
    ensures Unmet(env, IniWrites(), w, rules, results, j) <==> Lost(env, w, results, j)
    ensures forall t :: Overtaken(env, w, rules, results, j, t) <==> PassedOver(env, w, rules, results, j, t)
  {
    hide Fixed, OutcomeOf, SpotOf, Fixable, SwallowedStep, IniWrites, IniFiles, FirstRun;
    if Fixable(results[j]) && (OutcomeOf(env, w, results, j) == Wrote ==> SwallowedStep(env, IniWrites(), w, results, j)) {
      WouldWrite(env, w, rules, results, j);
    }
  }

  /** Over ini files a second run writes exactly when the first lost a line to the entry
      above it, or passed over a rule in a file that another created. */
  lemma IniSecondRun(env: Env, w: World, rules: seq<Rule>, results: seq<Result>, again: seq<Result>, copies: map<Path, string>)
    requires env.codec == IniFiles() && FirstRun(env, IniWrites(), w, rules, results) && |results| == |rules| && |again| == |rules|
    requires Judged(env, Fixed(env, w, results, |results|).files, rules, again)
    ensures
      var second := World(Fixed(env, w, results, |results|).files, copies);
      (exists n :: 0 <= n < |again| && OutcomeOf(env, second, again, n) == Wrote)
      <==>
      || (exists j, t :: 0 <= j < |rules| && PassedOver(env, w, rules, results, j, t))
      || (exists j :: 0 <= j < |rules| && Lost(env, w, results, j))
  {
    hide *;
    SecondRunWritesExactly(env, IniWrites(), w, rules, results, again, copies);
    forall j | 0 <= j < |rules|
      ensures Unmet(env, IniWrites(), w, rules, results, j) <==> Lost(env, w, results, j)
    {
      LostIs(env, w, rules, results, j);
    }
    forall j, t | 0 <= j < |rules|
      ensures Overtaken(env, w, rules, results, j, t) <==> PassedOver(env, w, rules, results, j, t)
    {
      LostIs(env, w, rules, results, j);
    }
    WorkLeftMeans(env, IniWrites(), w, rules, results);
  }

  const SHARED: Key := ["k"]

  lemma SharedLands(on: bool)
    ensures LandsIn("", SHARED, LBool(on)) && Proper(SHARED)
    ensures GetIn("", SHARED) == Absent && SetIn("", SHARED, LBool(on)).Writes?
    ensures GetIn(SetIn("", SHARED, LBool(on)).content, SHARED) != Absent
  {
    SharedPlace();
    hide *;
    var k := Place(SHARED).value;
    EmptyFile(k);
    SharedKnown(on);
    KnownIs("", SHARED, LBool(on));
    EmptyIsClear(k);
    GuardsAre("", SHARED, LBool(on));
    GetInIs("", SHARED);
    AbsentWrites("", SHARED, LBool(on));
    ToldAt("", SHARED, LBool(on));
    StatesIn("", SHARED, LBool(on));
  }

  lemma SharedPlace()
    ensures Place(SHARED) == Some(Name("", "k")) && Proper(SHARED)
  {
  }

  lemma SharedKnown(on: bool)
    ensures Known("", SHARED, LBool(on))
  {
    SharedPlace();
    assert NewDoc("").lines == [];
    assert Ascii("k");
    assert GoodKey(Name("", "k"));
  }

  lemma EmptyIsClear(k: Name)
    requires k.section == []
    ensures NewDoc("").lines == [] && Placeable([], k)
  {
    assert Point([], k) == (1, false);
    assert PointStyle([], k).0 == "";
  }

  /** That the keys of a run are apart is needed: of two rules for one key the first is
      passed over, the second creates the file and states the key for both, and a second
      run has nothing to write for the first. */
  lemma SharedKeyIsStated(env: Env, a: Rule, b: Rule)
    requires env.codec == IniFiles() && env.unreadable == {} && env.readOnly == {}
    requires Writable(a) && a.targets == [Target("pip.conf", SHARED, false)] && a.want.LBool?
    requires Writable(b) && b.targets == [Target("pip.conf", SHARED, true)] && b.want.LBool?
    requires Desired.Judge(a.setting, None, env.params) == Desired.Judge(b.setting, None, env.params) == Desired.StatusMissing
    ensures
      var none: map<Path, string> := map[];
      var w, rules := World(none, none), [a, b];
      var first := [EvaluateRule(env, none, a), EvaluateRule(env, none, b)];
      var end := Fixed(env, w, first, 2).files;
      && PassedOver(env, w, rules, first, 0, a.targets[0])
      && (forall i :: 0 <= i < 2 ==> QuietStep(env, IniWrites(), w, first, i))
      && !Fixable(EvaluateRule(env, end, a))
  {
    hide Desired.Judge;
    SharedLands(b.want.on);
    CodecIs();
    hide GetIn, SetIn, IniFiles, LandsIn, Known, Proper, SwallowedIn;
    var none: map<Path, string> := map[];
    var w, rules := World(none, none), [a, b];
    var first := [EvaluateRule(env, none, a), EvaluateRule(env, none, b)];
    MissingFromNone(env, a);
    MissingFromNone(env, b);
    var text := SetIn("", SHARED, b.want).content;
    assert Fixed(env, w, first, 0) == w;
    assert FixStep(env, w, first[0]) == (w, Outcome.Nothing);
    assert Fixed(env, w, first, 1) == FixStep(env, Fixed(env, w, first, 0), first[0]).0 == w;
    assert FixStep(env, w, first[1]) == (World(map["pip.conf" := text], none), Wrote);
    assert Fixed(env, w, first, 2) == FixStep(env, w, first[1]).0;
    var end := Fixed(env, w, first, 2).files;
    assert SpotOf(end, a) == Some(a.targets[0]);
    StatedIsNotMissing(env, end, a, 0, None, 0);
  }

  // ---- every later run ----

  /** A write that is swallowed is swallowed again when it is written again, and the file
      grows. */
  lemma SwallowedStays(text: string, key: Key, want: Literal)
    requires SwallowedIn(text, key, want)
    ensures GetIn(text, key) == Absent && SetIn(text, key, want).Writes?
    ensures
      var next := SetIn(text, key, want).content;
      && SwallowedIn(next, key, want)
      && |NewDoc(next).lines| == |NewDoc(text).lines| + if want.LList? then |want.items| else 1
  {
    hide *;
    GuardsAre(text, key, want);
    KnownIs(text, key, want);
    var d, k := NewDoc(text), Place(key).value;
    LandsIs(d.lines, k);
    GetInIs(text, key);
    AbsentWrites(text, key, want);
    WriteIs(text, key, want);
    IniSwallowed.SwallowedAgain(d.lines, k, want);
    var next := SetIn(text, key, want).content;
    var e := Set(d.lines, k, want).edit;
    DocLegible(text);
    SetWrites(d.lines, k, want);
    WritesLegible(d, e);
    AppliedIs(d, e);
    LegibleEnds(Apply(d, e).value);
    KnownStays(text, next, key, want);
    GuardsAre(next, key, want);
  }

  lemma LegibleEnds(d: Doc)
    requires Legible(d)
    ensures forall l :: l in d.lines ==> Ended(l)
  {
    hide Ended;
  }

  lemma KnownStays(text: string, next: string, key: Key, want: Literal)
    requires Known(text, key, want) && forall l :: l in NewDoc(next).lines ==> Ended(l)
    ensures Known(next, key, want)
  {
    hide NewDoc, GoodKey, Ascii, Sound, Ended, Proper;
  }

  /** The file after the setting was written n times. */
  function Rewritten(text: string, key: Key, want: Literal, n: nat): string {
    if n == 0 then text
    else
      var was := Rewritten(text, key, want, n - 1);
      if SetIn(was, key, want).Writes? then SetIn(was, key, want).content else was
  }

  /** A setting that is swallowed once never settles: however often it was written, it is
      absent, it would be written once more, and every time the file has grown. */
  lemma {:induction false} NeverSettles(text: string, key: Key, want: Literal, n: nat)
    requires SwallowedIn(text, key, want)
    ensures
      var now := Rewritten(text, key, want, n);
      && SwallowedIn(now, key, want) && GetIn(now, key) == Absent
      && SetIn(now, key, want).Writes? && SetIn(now, key, want).content == Rewritten(text, key, want, n + 1)
      && |NewDoc(now).lines| == |NewDoc(text).lines| + n * if want.LList? then |want.items| else 1
    decreases n
  {
    hide *;
    RewrittenNext(text, key, want, n);
    if n == 0 {
      SwallowedStays(text, key, want);
    } else {
      NeverSettles(text, key, want, n - 1);
      SwallowedStays(Rewritten(text, key, want, n - 1), key, want);
      SwallowedStays(Rewritten(text, key, want, n), key, want);
    }
  }

  lemma RewrittenNext(text: string, key: Key, want: Literal, n: nat)
    ensures Rewritten(text, key, want, 0) == text
    ensures
      var now := Rewritten(text, key, want, n);
      SetIn(now, key, want).Writes? ==> Rewritten(text, key, want, n + 1) == SetIn(now, key, want).content
  {
    hide SetIn;
  }

  // ---- a pip.conf ----

  const PIP_CONF := "[install]\n  a=1\nb=2\n"
  const REQUIRE_HASHES: Key := ["install", "require-hashes"]

  /** The lines of the file. */
  lemma PipLines()
    ensures NewDoc(PIP_CONF).lines == IniExamples.PIP
    ensures forall l :: l in IniExamples.PIP ==> Ended(l)
  {
    var d := Doc(IniExamples.PIP, false, false, true);
    PipReadable(d);
    PipRendered(d);
    hide *;
    ReadBack(d);
  }

  lemma PipReadable(d: Doc)
    requires d == Doc(IniExamples.PIP, false, false, true)
    ensures Readable(d) && forall l :: l in IniExamples.PIP ==> Ended(l)
  {
    assert forall l :: l in IniExamples.PIP ==> l == "[install]" || l == "  a=1" || l == "b=2";
    NoMark("[install]");
  }

  lemma NoMark(s: string)
    requires |s| >= 3 && s[0] != BYTE_ORDER_MARK[0]
    ensures !HasPrefix(s, BYTE_ORDER_MARK)
  {
    assert s[..3][0] == s[0];
  }

  lemma PipRendered(d: Doc)
    requires d == Doc(IniExamples.PIP, false, false, true)
    ensures Rendered(d) == PIP_CONF
  {
    WrittenNone("\n", true);
    WrittenStep("b=2", [], "\n", true);
    WrittenStep("  a=1", ["b=2"], "\n", true);
    WrittenStep("[install]", ["  a=1", "b=2"], "\n", true);
    hide Written;
    assert ["b=2"] + [] == ["b=2"] && ["  a=1"] + ["b=2"] == ["  a=1", "b=2"] && ["[install]"] + ["  a=1", "b=2"] == IniExamples.PIP;
    assert [] + PIP_CONF == PIP_CONF;
  }

  /** The setting is written and swallowed: the write is one the laws speak of. */
  lemma PipIsSwallowed()
    ensures SetIn(PIP_CONF, REQUIRE_HASHES, LBool(true)).Writes? && SwallowedIn(PIP_CONF, REQUIRE_HASHES, LBool(true))
    ensures GetIn(PIP_CONF, REQUIRE_HASHES) == Absent && GetIn("", REQUIRE_HASHES) == Absent
    ensures Proper(REQUIRE_HASHES)
  {
    PipKnown();
    PipPlace();
    hide *;
    PipLines();
    IniExamples.PipStaysMissing();
    GuardsAre(PIP_CONF, REQUIRE_HASHES, LBool(true));
    SetInIs(PIP_CONF, REQUIRE_HASHES, LBool(true));
    ChangesApply(PIP_CONF, IniExamples.HASHES, LBool(true));
    GetInIs(PIP_CONF, REQUIRE_HASHES);
    GetInIs("", REQUIRE_HASHES);
    EmptyFile(IniExamples.HASHES);
  }

  lemma PipPlace()
    ensures Place(REQUIRE_HASHES) == Some(IniExamples.HASHES) && Proper(REQUIRE_HASHES)
  {
  }

  lemma PipKnown()
    ensures Known(PIP_CONF, REQUIRE_HASHES, LBool(true))
  {
    PipLines();
    IniExamples.PipKey();
    PipPlace();
    hide NewDoc, GoodKey, Ended;
    assert Ascii("require-hashes");
  }

  lemma EmptyFile(k: Name)
    ensures Get(NewDoc("").lines, k).kind == KindMissing
  {
    assert NewDoc("").lines == [];
    assert Scan([]) == [];
  }

  /** The rule that asks for hashes. pip installs without them by default, and reads no
      file of a repository it is not told to, so the rule creates none. */
  const REQUIRE_HASHES_RULE :=
    Rule(true, false, false, [Target("pip.conf", REQUIRE_HASHES, false), Target("pip.ini", REQUIRE_HASHES, false)],
         Desired.BoolSetting(true, Some(false), ""), LBool(true))

  /** The files after n runs of the rules, each judged over what the last one left. */
  function AfterRuns(env: Env, files: map<Path, string>, rules: seq<Rule>, n: nat): map<Path, string> {
    if n == 0 then files
    else
      var was := AfterRuns(env, files, rules, n - 1);
      Fixed(env, World(was, map[]), JudgeAll(env, was, rules), |rules|).files
  }

  function JudgeAll(env: Env, files: map<Path, string>, rules: seq<Rule>): (results: seq<Result>)
    ensures |results| == |rules|
  {
    seq(|rules|, i requires 0 <= i < |rules| => EvaluateRule(env, files, rules[i]))
  }

  /** A pip.conf whose install section has an indented entry first and one that is not
      last: the rule that asks for hashes writes its line, the line becomes more of the
      entry above it, and the rule is missing and fixable again. So it goes in every run:
      after n of them the file is n lines longer, the rule is fixable and is written for
      once more. */
  lemma {:induction false} PipIsFixableAgain(env: Env, n: nat)
    requires env.codec == IniFiles() && env.unreadable == {} && env.readOnly == {}
    ensures
      var files := AfterRuns(env, map["pip.conf" := PIP_CONF], [REQUIRE_HASHES_RULE], n);
      && files == map["pip.conf" := Rewritten(PIP_CONF, REQUIRE_HASHES, LBool(true), n)]
      && |NewDoc(files["pip.conf"]).lines| == 3 + n
      && Fixable(EvaluateRule(env, files, REQUIRE_HASHES_RULE))
      && OutcomeOf(env, World(files, map[]), JudgeAll(env, files, [REQUIRE_HASHES_RULE]), 0) == Wrote
    decreases n
  {
    hide *;
    var start, rules := map["pip.conf" := PIP_CONF], [REQUIRE_HASHES_RULE];
    PipIsSwallowed();
    PipLength();
    NeverSettles(PIP_CONF, REQUIRE_HASHES, LBool(true), n);
    ScalarTrue();
    RunsAre(env, start, rules, n);
    RewrittenNext(PIP_CONF, REQUIRE_HASHES, LBool(true), n);
    if n > 0 {
      PipIsFixableAgain(env, n - 1);
      NeverSettles(PIP_CONF, REQUIRE_HASHES, LBool(true), n - 1);
      PipStep(env, AfterRuns(env, start, rules, n - 1), Rewritten(PIP_CONF, REQUIRE_HASHES, LBool(true), n - 1));
    }
    PipStep(env, AfterRuns(env, start, rules, n), Rewritten(PIP_CONF, REQUIRE_HASHES, LBool(true), n));
  }

  lemma PipLength()
    ensures |NewDoc(PIP_CONF).lines| == 3
  {
    hide NewDoc;
    PipLines();
  }

  lemma ScalarTrue()
    ensures !LBool(true).LList?
  {
  }

  lemma RunsAre(env: Env, files: map<Path, string>, rules: seq<Rule>, n: nat)
    ensures AfterRuns(env, files, rules, 0) == files
    ensures n > 0 ==>
              var was := AfterRuns(env, files, rules, n - 1);
              AfterRuns(env, files, rules, n) == Fixed(env, World(was, map[]), JudgeAll(env, was, rules), |rules|).files
  {
    hide Fixed, JudgeAll;
  }

  /** One run over a pip.conf that does not state the key. */
  lemma PipStep(env: Env, files: map<Path, string>, text: string)
    requires env.codec == IniFiles() && env.unreadable == {} && env.readOnly == {}
    requires files == map["pip.conf" := text]
    requires GetIn(text, REQUIRE_HASHES) == Absent && SetIn(text, REQUIRE_HASHES, LBool(true)).Writes?
    ensures
      var rules := [REQUIRE_HASHES_RULE];
      var w, results := World(files, map[]), JudgeAll(env, files, rules);
      && Fixable(EvaluateRule(env, files, REQUIRE_HASHES_RULE))
      && OutcomeOf(env, w, results, 0) == Wrote
      && Fixed(env, w, results, |rules|).files == map["pip.conf" := SetIn(text, REQUIRE_HASHES, LBool(true)).content]
  {
    CodecIs();
    hide GetIn, SetIn, IniFiles, IniWrites, Known, Proper, SwallowedIn;
    var rule := REQUIRE_HASHES_RULE;
    var rules := [rule];
    var w, results := World(files, map[]), JudgeAll(env, files, rules);
    var t := rule.targets[0];
    assert files[t.path] == text;
    assert EvaluateRule(env, files, rule) == EvaluateFrom(env, files, rule, 1, Some(t));
    assert EvaluateFrom(env, files, rule, 1, Some(t)) == EvaluateFrom(env, files, rule, 2, Some(t));
    assert EvaluateRule(env, files, rule) == Result(rule, Desired.StatusMissing, Some(t), false);
    assert results[0] == EvaluateRule(env, files, rule);
    assert Fixed(env, w, results, 0) == w;
    assert Fixed(env, w, results, 1) == FixStep(env, w, results[0]).0;
  }

  lemma CodecIs()
    ensures forall p, text, k :: IniFiles().get(p, text, k) == GetIn(text, k)
    ensures forall p, text, k, want :: IniFiles().set_(p, text, k, want) == SetIn(text, k, want)
    ensures forall k :: IniWrites().proper(k) == Proper(k)
    ensures forall p, text, k, want :: IniWrites().known(p, text, k, want) == Known(text, k, want)
    ensures forall p, text, k, want :: IniWrites().swallowed(p, text, k, want) == SwallowedIn(text, k, want)
  {
    hide GetIn, SetIn, Proper, Known, SwallowedIn;
  }
}
