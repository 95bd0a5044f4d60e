/** What a run of the fixer leaves (internal/doctor/fix.go: applyFixes, fixOne;
    internal/doctor/run.go: evaluateTargets): which results are fixable again, which
    settings survive, and exactly when a second run has anything to write. */
module FixerLaws {
  import opened Text
  import opened Desired
  import opened Codecs
  import opened Fixer
  import IniCodec

  // ---- one step of a run ----

  /** The write of result i, when it wrote, is one the guard admits. */
  predicate Meets(env: Env, w: World, results: seq<Result>, i: nat, guard: (Path, string, Key, IniCodec.Literal) -> bool)
    requires i < |results|
  {
    OutcomeOf(env, w, results, i) == Wrote && Fixable(results[i]) ==>
      var t := results[i].target.value;
      guard(t.path, TextOf(Fixed(env, w, results, i).files, t.path), t.key, results[i].rule.want)
  }

  predicate QuietStep(env: Env, g: Promise, w: World, results: seq<Result>, i: nat)
    requires i < |results|
  {
    OutcomeOf(env, w, results, i) == Wrote && Fixable(results[i]) ==>
      var t := results[i].target.value;
      Quiet(g, t.path, TextOf(Fixed(env, w, results, i).files, t.path), t.key, results[i].rule.want)
  }

  /** What a file says of a key; one that is not there states none. */
  function ReadsAs(env: Env, files: map<Path, string>, p: Path, k: Key): Reading {
    if p in files then env.codec.get(p, files[p], k) else Absent
  }

  /** What step n does to the text of a path. */
  lemma StepText(env: Env, w: World, results: seq<Result>, n: nat, p: Path)
    requires n < |results|
    ensures
      var v, u := Fixed(env, w, results, n), Fixed(env, w, results, n + 1);
      && (p in v.files ==> p in u.files)
      && (!WroteInto(env, w, results, n, p) ==> TextOf(u.files, p) == TextOf(v.files, p) && (p in u.files <==> p in v.files))
      && (WroteInto(env, w, results, n, p) ==>
          && p in u.files && p !in env.unreadable && p !in env.readOnly
          && OutcomeOf(env, w, results, n) == Wrote && Fixable(results[n])
          && results[n].target.Some? && results[n].target.value.path == p
          && (p in v.files || results[n].target.value.create)
          && var s := env.codec.set_(p, TextOf(v.files, p), results[n].target.value.key, results[n].rule.want);
             s.Writes? && TextOf(u.files, p) == s.content)
  {
    hide FixStep;
    StepWrites(env, Fixed(env, w, results, n), results[n]);
  }

  lemma MeetsAt(env: Env, g: Promise, w: World, results: seq<Result>, n: nat, p: Path)
    requires n < |results| && WroteInto(env, w, results, n, p)
    ensures
      var text, t := TextOf(Fixed(env, w, results, n).files, p), results[n].target.value;
      && (QuietStep(env, g, w, results, n) ==> Quiet(g, p, text, t.key, results[n].rule.want))
      && (Meets(env, w, results, n, g.lands) ==> g.lands(p, text, t.key, results[n].rule.want))
  {
    hide Fixed, OutcomeOf, Quiet;
  }

  /** A key that is stated stays stated through every quiet step. */
  lemma {:induction false} StatedStays(env: Env, g: Promise, w: World, results: seq<Result>, m: nat, n: nat, p: Path, k: Key)
    requires Lawful(env.codec, g) && m <= n <= |results|
    requires forall i :: m <= i < n ==> QuietStep(env, g, w, results, i)
    requires ReadsAs(env, Fixed(env, w, results, m).files, p, k) != Absent
    ensures ReadsAs(env, Fixed(env, w, results, n).files, p, k) != Absent
    decreases n
  {
    hide *;
    if m < n {
      StatedStays(env, g, w, results, m, n - 1, p, k);
      StepText(env, w, results, n - 1, p);
      ReadsAsIs(env, Fixed(env, w, results, n - 1).files, p, k);
      ReadsAsIs(env, Fixed(env, w, results, n).files, p, k);
      if WroteInto(env, w, results, n - 1, p) {
        MeetsAt(env, g, w, results, n - 1, p);
        QuietAt(env.codec, g, p, TextOf(Fixed(env, w, results, n - 1).files, p), results[n - 1].target.value.key, results[n - 1].rule.want, k);
      }
    }
  }

  lemma ReadsAsIs(env: Env, files: map<Path, string>, p: Path, k: Key)
    ensures ReadsAs(env, files, p, k) == if p in files then env.codec.get(p, TextOf(files, p), k) else Absent
    ensures p in files ==> TextOf(files, p) == files[p]
    ensures p !in files ==> TextOf(files, p) == ""
  {
  }

  /** What result i writes is apart from the key. */
  predicate Clears(env: Env, w: World, results: seq<Result>, i: nat, p: Path, k: Key)
    requires i < |results|
  {
    WroteInto(env, w, results, i, p) ==> !Related(results[i].target.value.key, k)
  }

  /** Result i leaves an absent key absent: it writes nothing in that file, or apart from
      the key, or what it writes is swallowed. */
  predicate Spares(env: Env, g: Promise, w: World, results: seq<Result>, i: nat, p: Path, k: Key)
    requires i < |results|
  {
    WroteInto(env, w, results, i, p) ==>
      var t := results[i].target.value;
      !Related(t.key, k) || g.swallowed(p, TextOf(Fixed(env, w, results, i).files, p), t.key, results[i].rule.want)
  }

  /** Where a quiet step writes, a key that is absent is absent from the text it writes
      into, be it that of a file or the empty one of a file it creates. */
  lemma AbsentInText(env: Env, g: Promise, w: World, results: seq<Result>, i: nat, p: Path, k: Key)
    requires Lawful(env.codec, g) && i < |results| && g.proper(k)
    requires WroteInto(env, w, results, i, p) && QuietStep(env, g, w, results, i)
    requires ReadsAs(env, Fixed(env, w, results, i).files, p, k) == Absent
    ensures env.codec.get(p, TextOf(Fixed(env, w, results, i).files, p), k) == Absent
  {
    hide *;
    var files := Fixed(env, w, results, i).files;
    ReadsAsIs(env, files, p, k);
    StepText(env, w, results, i, p);
    MeetsAt(env, g, w, results, i, p);
    if p !in files {
      EmptyAt(env.codec, g, p, results[i].target.value.key, results[i].rule.want, k);
    }
  }

  /** A key that is absent stays absent through quiet steps that spare it. */
  lemma {:induction false} AbsentStays(env: Env, g: Promise, w: World, results: seq<Result>, m: nat, n: nat, p: Path, k: Key)
    requires Lawful(env.codec, g) && m <= n <= |results| && g.proper(k)
    requires forall i :: m <= i < n ==> QuietStep(env, g, w, results, i) && Spares(env, g, w, results, i, p, k)
    requires ReadsAs(env, Fixed(env, w, results, m).files, p, k) == Absent
    ensures ReadsAs(env, Fixed(env, w, results, n).files, p, k) == Absent
    decreases n
  {
    hide *;
    if m < n {
      AbsentStays(env, g, w, results, m, n - 1, p, k);
      StepText(env, w, results, n - 1, p);
      ReadsAsIs(env, Fixed(env, w, results, n - 1).files, p, k);
      ReadsAsIs(env, Fixed(env, w, results, n).files, p, k);
      if WroteInto(env, w, results, n - 1, p) {
        MeetsAt(env, g, w, results, n - 1, p);
        SparesIs(env, g, w, results, n - 1, p, k);
        AbsentInText(env, g, w, results, n - 1, p, k);
        QuietAt(env.codec, g, p, TextOf(Fixed(env, w, results, n - 1).files, p), results[n - 1].target.value.key, results[n - 1].rule.want, k);
      }
    }
  }

  lemma SparesIs(env: Env, g: Promise, w: World, results: seq<Result>, i: nat, p: Path, k: Key)
    requires i < |results| && WroteInto(env, w, results, i, p)
    ensures Fixable(results[i]) && results[i].target.Some?
    ensures Spares(env, g, w, results, i, p, k) <==>
            !Related(results[i].target.value.key, k)
            || g.swallowed(p, TextOf(Fixed(env, w, results, i).files, p), results[i].target.value.key, results[i].rule.want)
  {
    hide Fixed, OutcomeOf, Related;
  }

  lemma ClearsSpares(env: Env, g: Promise, w: World, results: seq<Result>, i: nat, p: Path, k: Key)
    requires i < |results| && Clears(env, w, results, i, p, k)
    ensures Spares(env, g, w, results, i, p, k)
  {
    hide Fixed, OutcomeOf, Related;
  }

  // ---- a rule whose keys are all absent ----

  /** No target of the rule is stated, or cannot be read. */
  ghost predicate AllAbsent(env: Env, files: map<Path, string>, rule: Rule, i: nat) {
    forall m :: i <= m < |rule.targets| ==>
      var t := rule.targets[m];
      t.path !in env.unreadable && (t.path in files ==> env.codec.get(t.path, files[t.path], t.key) == Absent)
  }

  /** The first target that is there, or may be created. */
  function Spot(files: map<Path, string>, rule: Rule, i: nat): Option<Target>
    requires i <= |rule.targets|
    decreases |rule.targets| - i
  {
    if i == |rule.targets| then None
    else if rule.targets[i].path in files || rule.targets[i].create then Some(rule.targets[i])
    else Spot(files, rule, i + 1)
  }

  /** The target a rule no file states the key of is given. */
  function SpotOf(files: map<Path, string>, rule: Rule): Option<Target> {
    var t := Spot(files, rule, 0);
    if t.Some? then t else if rule.targets != [] then Some(rule.targets[0]) else None
  }

  /** Evaluating a rule ends in a missing setting exactly when none of its keys is stated
      and the manager's default is not what it asks for; the target is then the first that
      is there or may be created. */
  lemma {:induction false} MissingIs(env: Env, files: map<Path, string>, rule: Rule, i: nat, fallback: Option<Target>)
    requires i <= |rule.targets|
    ensures
      var r := EvaluateFrom(env, files, rule, i, fallback);
      && (r.status == StatusMissing <==> AllAbsent(env, files, rule, i) && Judge(rule.setting, None, env.params) == StatusMissing)
      && (r.status == StatusMissing ==>
          r == Result(rule, StatusMissing,
                      if fallback.Some? then fallback
                      else if Spot(files, rule, i).Some? then Spot(files, rule, i)
                      else if rule.targets != [] then Some(rule.targets[0]) else None, false))
    decreases |rule.targets| - i
  {
    hide Judge;
    if i == |rule.targets| {
    } else {
      var t := rule.targets[i];
      if t.path in env.unreadable {
        assert !AllAbsent(env, files, rule, i);
      } else if t.path !in files {
        MissingIs(env, files, rule, i + 1, if fallback.None? && t.create then Some(t) else fallback);
        AbsentNext(env, files, rule, i);
      } else {
        match env.codec.get(t.path, files[t.path], t.key)
        case Unreadable => assert !AllAbsent(env, files, rule, i);
        case Absent =>
          MissingIs(env, files, rule, i + 1, if fallback.None? then Some(t) else fallback);
          AbsentNext(env, files, rule, i);
        case Present(value) =>
          FoundIsNeverMissing(rule.setting, value.text, env.params);
      }
    }
  }

  lemma AbsentNext(env: Env, files: map<Path, string>, rule: Rule, i: nat)
    requires i < |rule.targets|
    requires rule.targets[i].path !in env.unreadable
    requires rule.targets[i].path in files ==> env.codec.get(rule.targets[i].path, files[rule.targets[i].path], rule.targets[i].key) == Absent
    ensures AllAbsent(env, files, rule, i) <==> AllAbsent(env, files, rule, i + 1)
  {
  }

  lemma EvaluatesMissing(env: Env, files: map<Path, string>, rule: Rule)
    ensures
      var r := EvaluateRule(env, files, rule);
      && r.rule == rule
      && (r.status == StatusMissing <==> AllAbsent(env, files, rule, 0) && Judge(rule.setting, None, env.params) == StatusMissing)
      && (r.status == StatusMissing ==> r == Result(rule, StatusMissing, SpotOf(files, rule), false))
  {
    hide Judge, EvaluateFrom, Spot, AllAbsent;
    MissingIs(env, files, rule, 0, None);
    TargetIsListed(env, files, rule, 0, None);
  }

  /** A rule the fixer may write for. */
  predicate Writable(rule: Rule) {
    rule.fixable && !rule.scans && !rule.userScope
  }

  lemma FixableMeans(env: Env, files: map<Path, string>, rule: Rule)
    ensures
      Fixable(EvaluateRule(env, files, rule)) <==>
      && Writable(rule) && AllAbsent(env, files, rule, 0) && Judge(rule.setting, None, env.params) == StatusMissing
      && rule.targets != []
    ensures Fixable(EvaluateRule(env, files, rule)) ==>
              EvaluateRule(env, files, rule) == Result(rule, StatusMissing, SpotOf(files, rule), false) && SpotOf(files, rule).Some?
  {
    hide Judge, EvaluateRule, AllAbsent;
    EvaluatesMissing(env, files, rule);
    SpotSome(files, rule, 0);
  }

  lemma {:induction false} SpotSome(files: map<Path, string>, rule: Rule, i: nat)
    requires i <= |rule.targets|
    ensures Spot(files, rule, i).Some? ==>
              && Spot(files, rule, i).value in rule.targets
              && (Spot(files, rule, i).value.path in files || Spot(files, rule, i).value.create)
    ensures Spot(files, rule, i).None? ==> forall m :: i <= m < |rule.targets| ==> rule.targets[m].path !in files && !rule.targets[m].create
    decreases |rule.targets| - i
  {
    if i < |rule.targets| { SpotSome(files, rule, i + 1); }
  }

  lemma {:induction false} Lengths(env: Env, files: map<Path, string>, rules: seq<Rule>, results: seq<Result>)
    requires Judged(env, files, rules, results)
    ensures |results| == |rules|
    ensures forall j :: 0 <= j < |rules| ==> results[j] == EvaluateRule(env, files, rules[j])
  {
    hide EvaluateRule;
  }

  /** The keys of a rule are ones the promise speaks of. */
  ghost predicate Placed(g: Promise, rule: Rule) {
    forall t :: t in rule.targets ==> g.proper(t.key)
  }

  lemma AbsentAt(env: Env, g: Promise, files: map<Path, string>, rule: Rule, t: Target)
    requires t in rule.targets && Placed(g, rule) && AllAbsent(env, files, rule, 0)
    ensures g.proper(t.key) && t.path !in env.unreadable && ReadsAs(env, files, t.path, t.key) == Absent
  {
    var m :| 0 <= m < |rule.targets| && rule.targets[m] == t;
    assert rule.targets[m].path !in env.unreadable;
  }

  lemma AbsentAll(env: Env, files: map<Path, string>, rule: Rule)
    requires forall t :: t in rule.targets ==> t.path !in env.unreadable && ReadsAs(env, files, t.path, t.key) == Absent
    ensures AllAbsent(env, files, rule, 0)
  {
    forall m | 0 <= m < |rule.targets|
      ensures
        var t := rule.targets[m];
        t.path !in env.unreadable && (t.path in files ==> env.codec.get(t.path, files[t.path], t.key) == Absent)
    {
      assert rule.targets[m] in rule.targets;
      ReadsAsIs(env, files, rule.targets[m].path, rule.targets[m].key);
    }
  }

  lemma Start(env: Env, w: World, results: seq<Result>)
    ensures Fixed(env, w, results, 0) == w
  {
  }

  // ---- a fixed result, again ----

  lemma WroteHow(env: Env, w: World, results: seq<Result>, i: nat)
    requires i < |results| && OutcomeOf(env, w, results, i) == Wrote
    ensures Fixable(results[i]) && results[i].target.Some? && WroteInto(env, w, results, i, results[i].target.value.path)
  {
    hide Fixed, FixOne;
  }

  /** The write of result i is one the codec promises something about. */
  predicate KnownStep(env: Env, g: Promise, w: World, results: seq<Result>, i: nat)
    requires i < |results| && OutcomeOf(env, w, results, i) == Wrote && Fixable(results[i])
  {
    var t := results[i].target.value;
    g.known(t.path, TextOf(Fixed(env, w, results, i).files, t.path), t.key, results[i].rule.want)
  }

  predicate SwallowedStep(env: Env, g: Promise, w: World, results: seq<Result>, i: nat)
    requires i < |results| && Fixable(results[i])
  {
    var t := results[i].target.value;
    g.swallowed(t.path, TextOf(Fixed(env, w, results, i).files, t.path), t.key, results[i].rule.want)
  }

  /** The other writes of a run land or are swallowed, and what they write is apart from the
      keys of rule i. */
  ghost predicate OthersApart(env: Env, g: Promise, w: World, rules: seq<Rule>, results: seq<Result>, i: nat)
    requires i < |rules|
  {
    forall m :: 0 <= m < |results| && m != i ==>
      QuietStep(env, g, w, results, m) && forall t :: t in rules[i].targets ==> Clears(env, w, results, m, t.path, t.key)
  }

  /** A setting one run wrote is fixable again in a second run exactly when its write was
      swallowed, whatever else the run wrote before and after it: otherwise the key is
      stated, and a value that is stated is never written over. */
  lemma FixableAgainExactly(env: Env, g: Promise, w: World, rules: seq<Rule>, results: seq<Result>, i: nat)
    requires Judged(env, w.files, rules, results) && i < |rules| && |results| == |rules|
    requires OutcomeOf(env, w, results, i) == Wrote && Fixable(results[i])
    requires Lawful(env.codec, g) && KnownStep(env, g, w, results, i) && Placed(g, rules[i])
    requires OthersApart(env, g, w, rules, results, i)
    ensures Fixable(EvaluateRule(env, Fixed(env, w, results, |results|).files, rules[i])) <==> SwallowedStep(env, g, w, results, i)
  {
    hide *;
    WroteHow(env, w, results, i);
    Lengths(env, w.files, rules, results);
    FixableMeans(env, w.files, rules[i]);
    var end := Fixed(env, w, results, |results|).files;
    FixableMeans(env, end, rules[i]);
    EvaluatesMissing(env, end, rules[i]);
    StepIs(env, g, w, results, i);
    if SwallowedStep(env, g, w, results, i) {
      forall t | t in rules[i].targets ensures t.path !in env.unreadable && ReadsAs(env, end, t.path, t.key) == Absent {
        SwallowedLeavesAbsent(env, g, w, rules, results, i, t);
      }
      AbsentAll(env, end, rules[i]);
    } else {
      OthersQuiet(env, g, w, rules, results, i);
      StatedAfter(env, g, w, rules, results, i);
    }
  }

  lemma OthersQuiet(env: Env, g: Promise, w: World, rules: seq<Rule>, results: seq<Result>, i: nat)
    requires i < |rules| && OthersApart(env, g, w, rules, results, i)
    ensures forall m :: 0 <= m < |results| && m != i ==> QuietStep(env, g, w, results, m)
  {
    hide QuietStep, Clears;
  }

  lemma StepIs(env: Env, g: Promise, w: World, results: seq<Result>, i: nat)
    requires i < |results| && Fixable(results[i])
    ensures
      var t, text := results[i].target.value, TextOf(Fixed(env, w, results, i).files, results[i].target.value.path);
      && (SwallowedStep(env, g, w, results, i) <==> g.swallowed(t.path, text, t.key, results[i].rule.want))
      && (OutcomeOf(env, w, results, i) == Wrote ==> (KnownStep(env, g, w, results, i) <==> g.known(t.path, text, t.key, results[i].rule.want)))
      && (g.swallowed(t.path, text, t.key, results[i].rule.want) ==> QuietStep(env, g, w, results, i))
      && (Meets(env, w, results, i, g.lands) ==> QuietStep(env, g, w, results, i))
      && (OutcomeOf(env, w, results, i) == Wrote && Meets(env, w, results, i, g.lands) ==> g.lands(t.path, text, t.key, results[i].rule.want))
  {
    hide Fixed, OutcomeOf;
  }

  lemma OthersAre(env: Env, g: Promise, w: World, rules: seq<Rule>, results: seq<Result>, i: nat, m: nat, t: Target)
    requires i < |rules| && m < |results| && m != i && OthersApart(env, g, w, rules, results, i) && t in rules[i].targets
    ensures QuietStep(env, g, w, results, m) && Clears(env, w, results, m, t.path, t.key)
  {
    hide QuietStep, Clears;
  }

  lemma SwallowedLeavesAbsent(env: Env, g: Promise, w: World, rules: seq<Rule>, results: seq<Result>, i: nat, t: Target)
    requires Judged(env, w.files, rules, results) && i < |rules| && |results| == |rules| && t in rules[i].targets
    requires Fixable(results[i]) && SwallowedStep(env, g, w, results, i)
    requires Lawful(env.codec, g) && Placed(g, rules[i]) && OthersApart(env, g, w, rules, results, i)
    ensures t.path !in env.unreadable && ReadsAs(env, Fixed(env, w, results, |results|).files, t.path, t.key) == Absent
  {
    hide *;
    Lengths(env, w.files, rules, results);
    FixableMeans(env, w.files, rules[i]);
    AbsentAt(env, g, w.files, rules[i], t);
    Start(env, w, results);
    forall m | 0 <= m < |results| ensures QuietStep(env, g, w, results, m) && Spares(env, g, w, results, m, t.path, t.key) {
      if m == i {
        StepIs(env, g, w, results, i);
        SwallowedSpares(env, g, w, results, i, t.path, t.key);
      } else {
        OthersAre(env, g, w, rules, results, i, m, t);
        ClearsSpares(env, g, w, results, m, t.path, t.key);
      }
    }
    AbsentStays(env, g, w, results, 0, |results|, t.path, t.key);
  }

  lemma SwallowedSpares(env: Env, g: Promise, w: World, results: seq<Result>, i: nat, p: Path, k: Key)
    requires i < |results| && Fixable(results[i]) && SwallowedStep(env, g, w, results, i)
    ensures Spares(env, g, w, results, i, p, k)
  {
    hide Fixed, OutcomeOf, Related;
  }

  lemma StatedAfter(env: Env, g: Promise, w: World, rules: seq<Rule>, results: seq<Result>, i: nat)
    requires Judged(env, w.files, rules, results) && i < |rules| && |results| == |rules|
    requires OutcomeOf(env, w, results, i) == Wrote && Fixable(results[i])
    requires Lawful(env.codec, g) && KnownStep(env, g, w, results, i) && !SwallowedStep(env, g, w, results, i)
    requires forall m :: i < m < |results| ==> QuietStep(env, g, w, results, m)
    ensures EvaluateRule(env, Fixed(env, w, results, |results|).files, rules[i]).status != StatusMissing
  {
    hide *;
    WroteHow(env, w, results, i);
    Lengths(env, w.files, rules, results);
    FixableMeans(env, w.files, rules[i]);
    var t := results[i].target.value;
    var text := TextOf(Fixed(env, w, results, i).files, t.path);
    StepIs(env, g, w, results, i);
    StepText(env, w, results, i, t.path);
    StatesAt(env.codec, g, t.path, text, t.key, results[i].rule.want);
    ReadsAsIs(env, Fixed(env, w, results, i + 1).files, t.path, t.key);
    StatedStays(env, g, w, results, i + 1, |results|, t.path, t.key);
    var end := Fixed(env, w, results, |results|).files;
    FilesStay(env, w, results, i + 1, |results|, t.path);
    ReadsAsIs(env, end, t.path, t.key);
    SpotIsListed(w.files, rules[i]);
    NotAllAbsent(env, end, rules[i], t);
    EvaluatesMissing(env, end, rules[i]);
  }

  lemma SpotIsListed(files: map<Path, string>, rule: Rule)
    ensures SpotOf(files, rule).Some? ==> SpotOf(files, rule).value in rule.targets
  {
    SpotSome(files, rule, 0);
    hide Spot;
  }

  lemma NotAllAbsent(env: Env, files: map<Path, string>, rule: Rule, t: Target)
    requires t in rule.targets && t.path in files && env.codec.get(t.path, files[t.path], t.key) != Absent
    ensures !AllAbsent(env, files, rule, 0)
  {
    var m :| 0 <= m < |rule.targets| && rule.targets[m] == t;
  }

  // ---- what was written survives ----

  lemma {:induction false} ReadingStays(env: Env, g: Promise, w: World, results: seq<Result>, m: nat, n: nat, p: Path, k: Key)
    requires Lawful(env.codec, g) && m <= n <= |results| && g.proper(k)
    requires forall i :: m <= i < n ==> Meets(env, w, results, i, g.lands) && Clears(env, w, results, i, p, k)
    ensures ReadsAs(env, Fixed(env, w, results, n).files, p, k) == ReadsAs(env, Fixed(env, w, results, m).files, p, k)
    decreases n
  {
    hide *;
    if m < n {
      ReadingStays(env, g, w, results, m, n - 1, p, k);
      StepText(env, w, results, n - 1, p);
      ReadsAsIs(env, Fixed(env, w, results, n - 1).files, p, k);
      ReadsAsIs(env, Fixed(env, w, results, n).files, p, k);
      if WroteInto(env, w, results, n - 1, p) {
        MeetsAt(env, g, w, results, n - 1, p);
        ClearsIs(env, w, results, n - 1, p, k);
        MeetsQuiet(env, g, w, results, n - 1);
        if p !in Fixed(env, w, results, n - 1).files {
          AbsentInText(env, g, w, results, n - 1, p, k);
        }
        LandedAt(env.codec, g, p, TextOf(Fixed(env, w, results, n - 1).files, p), results[n - 1].target.value.key, results[n - 1].rule.want, k);
      }
    }
  }

  lemma MeetsQuiet(env: Env, g: Promise, w: World, results: seq<Result>, i: nat)
    requires i < |results| && Meets(env, w, results, i, g.lands)
    ensures QuietStep(env, g, w, results, i)
  {
    hide Fixed, OutcomeOf;
  }

  lemma ClearsIs(env: Env, w: World, results: seq<Result>, i: nat, p: Path, k: Key)
    requires i < |results| && WroteInto(env, w, results, i, p) && Clears(env, w, results, i, p, k)
    ensures results[i].target.Some? && !Related(results[i].target.value.key, k)
  {
    hide Related, OutcomeOf;
  }

  predicate SettledStep(env: Env, g: Promise, w: World, results: seq<Result>, i: nat)
    requires i < |results| && Fixable(results[i])
  {
    var t := results[i].target.value;
    g.settles(t.path, TextOf(Fixed(env, w, results, i).files, t.path), t.key, results[i].rule.want)
  }

  lemma SettledIs(env: Env, g: Promise, w: World, results: seq<Result>, i: nat)
    requires i < |results| && Fixable(results[i])
    ensures results[i].target.Some?
    ensures
      var t := results[i].target.value;
      SettledStep(env, g, w, results, i) <==> g.settles(t.path, TextOf(Fixed(env, w, results, i).files, t.path), t.key, results[i].rule.want)
  {
    hide Fixed;
  }

  /** At the end of a run every setting it wrote holds its value exactly when its write
      settled, however many rules wrote into that file after it, as long as what they wrote
      landed and their keys are apart. */
  lemma WrittenSurvives(env: Env, g: Promise, w: World, results: seq<Result>, i: nat)
    requires i < |results| && OutcomeOf(env, w, results, i) == Wrote && Fixable(results[i])
    requires Lawful(env.codec, g) && Meets(env, w, results, i, g.lands) && g.proper(results[i].target.value.key)
    requires forall j :: i < j < |results| ==>
               Meets(env, w, results, j, g.lands) && Clears(env, w, results, j, results[i].target.value.path, results[i].target.value.key)
    ensures
      var t := results[i].target.value;
      var now := ReadsAs(env, Fixed(env, w, results, |results|).files, t.path, t.key);
      now.Present? && IniCodec.Holds(now.value, results[i].rule.want) <==> SettledStep(env, g, w, results, i)
  {
    hide *;
    WroteHow(env, w, results, i);
    var t := results[i].target.value;
    var text := TextOf(Fixed(env, w, results, i).files, t.path);
    StepText(env, w, results, i, t.path);
    StepIs(env, g, w, results, i);
    SettledIs(env, g, w, results, i);
    LandsAt(env.codec, g, t.path, text, t.key, results[i].rule.want);
    ReadsAsIs(env, Fixed(env, w, results, i + 1).files, t.path, t.key);
    ReadingStays(env, g, w, results, i + 1, |results|, t.path, t.key);
  }
}
