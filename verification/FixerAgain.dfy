/** Exactly when a second run of the fixer has something to write
    (internal/doctor/fix.go: applyFixes, fixOne; README.md: a second run changes nothing). */
module FixerAgain {
  import opened Text
  import opened Desired
  import opened Codecs
  import opened Fixer
  import opened FixerLaws
  import IniCodec

  /** No two rules the fixer may write for have the same key of a file, or keys one inside
      the other. */
  ghost predicate KeysApart(rules: seq<Rule>) {
    forall i, j, a, b ::
      (0 <= i < |rules| && 0 <= j < |rules| && i != j && Writable(rules[i]) && Writable(rules[j])
       && a in rules[i].targets && b in rules[j].targets && a.path == b.path) ==>
        !Related(a.key, b.key)
  }

  /** What a run starts from: every rule judged over the files, every key one the promise
      speaks of, keys apart, and a codec whose writes in this run land or are swallowed. */
  ghost predicate FirstRun(env: Env, g: Promise, w: World, rules: seq<Rule>, results: seq<Result>) {
    && Judged(env, w.files, rules, results) && KeysApart(rules) && Lawful(env.codec, g)
    && (forall j :: 0 <= j < |rules| ==> Placed(g, rules[j]))
    && (forall i :: 0 <= i < |results| ==> QuietStep(env, g, w, results, i))
  }

  lemma RunFacts(env: Env, g: Promise, w: World, rules: seq<Rule>, results: seq<Result>, j: nat)
    requires FirstRun(env, g, w, rules, results) && j < |rules|
    ensures |results| == |rules| && results[j] == EvaluateRule(env, w.files, rules[j])
    ensures Lawful(env.codec, g) && Placed(g, rules[j]) && Judged(env, w.files, rules, results)
    ensures forall i :: 0 <= i < |results| ==> QuietStep(env, g, w, results, i)
  {
    hide EvaluateRule, KeysApart, Placed, Lawful, QuietStep;
  }

  lemma ApartAt(rules: seq<Rule>, i: nat, j: nat, a: Target, b: Target)
    requires KeysApart(rules) && i < |rules| && j < |rules| && i != j && Writable(rules[i]) && Writable(rules[j])
    requires a in rules[i].targets && b in rules[j].targets && a.path == b.path
    ensures !Related(a.key, b.key)
  {
    hide Writable, Related;
  }

  lemma FirstRunApart(env: Env, g: Promise, w: World, rules: seq<Rule>, results: seq<Result>)
    requires FirstRun(env, g, w, rules, results)
    ensures KeysApart(rules)
  {
    hide KeysApart, Judged, Lawful, Placed, QuietStep;
  }

  /** What another result writes is apart from the keys of rule j. */
  lemma OtherClears(env: Env, g: Promise, w: World, rules: seq<Rule>, results: seq<Result>, i: nat, j: nat, t: Target)
    requires FirstRun(env, g, w, rules, results) && i < |rules| && j < |rules| && i != j && Writable(rules[j]) && t in rules[j].targets
    requires |results| == |rules| && WroteInto(env, w, results, i, t.path)
    ensures results[i].target.Some? && !Related(results[i].target.value.key, t.key)
  {
    hide *;
    RunFacts(env, g, w, rules, results, i);
    WroteIntoIs(env, w, results, i, t.path);
    FixableMeans(env, w.files, rules[i]);
    SpotIsListed(w.files, rules[i]);
    FirstRunApart(env, g, w, rules, results);
    ApartAt(rules, i, j, results[i].target.value, t);
  }

  lemma WroteIntoIs(env: Env, w: World, results: seq<Result>, i: nat, p: Path)
    requires i < |results|
    ensures WroteInto(env, w, results, i, p) ==>
              OutcomeOf(env, w, results, i) == Wrote && Fixable(results[i]) && results[i].target.Some? && results[i].target.value.path == p
    ensures OutcomeOf(env, w, results, i) == Wrote && Fixable(results[i]) && results[i].target.value.path == p ==> WroteInto(env, w, results, i, p)
  {
    hide OutcomeOf;
  }

  // ---- the rule a second run writes for ----

  /** Rule j was missing and not written for. Another result of the run created a file in
      which the rule has its key and which it may not create itself; it is now the first
      place the rule has, and the codec would write the key into what the file holds at the
      end. */
  predicate Overtaken(env: Env, w: World, rules: seq<Rule>, results: seq<Result>, j: nat, t: Target)
    requires j < |rules| && |results| == |rules|
  {
    var end := Fixed(env, w, results, |results|).files;
    && Fixable(results[j]) && OutcomeOf(env, w, results, j) != Wrote
    && SpotOf(end, rules[j]) == Some(t) && !t.create && t.path !in w.files && t.path in end && t.path !in env.readOnly
    && env.codec.set_(t.path, end[t.path], t.key, rules[j].want).Writes?
  }

  lemma OvertakenIs(env: Env, w: World, rules: seq<Rule>, results: seq<Result>, j: nat, t: Target)
    requires j < |rules| && |results| == |rules|
    ensures
      var end := Fixed(env, w, results, |results|).files;
      Overtaken(env, w, rules, results, j, t) <==>
      && Fixable(results[j]) && OutcomeOf(env, w, results, j) != Wrote
      && SpotOf(end, rules[j]) == Some(t) && !t.create && t.path !in w.files && t.path in end && t.path !in env.readOnly
      && env.codec.set_(t.path, TextOf(end, t.path), t.key, rules[j].want).Writes?
  {
    hide Fixed, OutcomeOf, SpotOf, Fixable;
  }

  /** Rule j was written for and its write was swallowed; the codec would write the key
      into what the first place the rule has holds at the end. */
  predicate Unmet(env: Env, g: Promise, w: World, rules: seq<Rule>, results: seq<Result>, j: nat)
    requires j < |rules| && |results| == |rules|
  {
    var end := Fixed(env, w, results, |results|).files;
    && Fixable(results[j]) && OutcomeOf(env, w, results, j) == Wrote && SwallowedStep(env, g, w, results, j)
    && SpotOf(end, rules[j]).Some?
    && var t := SpotOf(end, rules[j]).value;
       env.codec.set_(t.path, TextOf(end, t.path), t.key, rules[j].want).Writes?
  }

  lemma UnmetIs(env: Env, g: Promise, w: World, rules: seq<Rule>, results: seq<Result>, j: nat, t: Target)
    requires j < |rules| && |results| == |rules|
    requires SpotOf(Fixed(env, w, results, |results|).files, rules[j]) == Some(t)
    ensures
      Unmet(env, g, w, rules, results, j) <==>
      && Fixable(results[j]) && OutcomeOf(env, w, results, j) == Wrote && SwallowedStep(env, g, w, results, j)
      && env.codec.set_(t.path, TextOf(Fixed(env, w, results, |results|).files, t.path), t.key, rules[j].want).Writes?
  {
    hide Fixed, OutcomeOf, SpotOf, Fixable, SwallowedStep;
  }

  /** What FixStep comes to for a rule that is missing. */
  lemma StepFor(env: Env, files: map<Path, string>, copies: map<Path, string>, rule: Rule, t: Target)
    requires Fixable(EvaluateRule(env, files, rule)) && EvaluateRule(env, files, rule).target == Some(t)
    requires EvaluateRule(env, files, rule).rule == rule
    ensures
      FixStep(env, World(files, copies), EvaluateRule(env, files, rule)).1 == Wrote <==>
      && t.path !in env.unreadable && (t.path in files || t.create) && t.path !in env.readOnly
      && env.codec.set_(t.path, TextOf(files, t.path), t.key, rule.want).Writes?
  {
    hide EvaluateRule;
  }

  lemma NotFixableNotWrote(env: Env, w: World, r: Result)
    requires FixStep(env, w, r).1 == Wrote
    ensures Fixable(r)
  {
    hide FixOne;
  }

  /** A key that was missing, and that the rule's own write did not state, is absent at
      every point of the run. */
  lemma AbsentThrough(env: Env, g: Promise, w: World, rules: seq<Rule>, results: seq<Result>, j: nat, t: Target, n: nat)
    requires FirstRun(env, g, w, rules, results) && j < |rules| && |results| == |rules| && n <= |results|
    requires Fixable(results[j]) && (OutcomeOf(env, w, results, j) == Wrote ==> SwallowedStep(env, g, w, results, j))
    requires t in rules[j].targets
    ensures g.proper(t.key) && t.path !in env.unreadable && ReadsAs(env, Fixed(env, w, results, n).files, t.path, t.key) == Absent
  {
    hide *;
    RunFacts(env, g, w, rules, results, j);
    FixableMeans(env, w.files, rules[j]);
    Start(env, w, results);
    AbsentAt(env, g, w.files, rules[j], t);
    forall i | 0 <= i < |results| ensures QuietStep(env, g, w, results, i) && Spares(env, g, w, results, i, t.path, t.key) {
      RunFacts(env, g, w, rules, results, i);
      if !WroteInto(env, w, results, i, t.path) {
        NoWriteSpares(env, g, w, results, i, t.path, t.key);
      } else if i == j {
        WroteIntoIs(env, w, results, j, t.path);
        SwallowedSpares(env, g, w, results, j, t.path, t.key);
      } else {
        WroteIntoIs(env, w, results, i, t.path);
        OtherClears(env, g, w, rules, results, i, j, t);
        SparesIs(env, g, w, results, i, t.path, t.key);
      }
    }
    AbsentStays(env, g, w, results, 0, n, t.path, t.key);
  }

  /** Such a rule is fixable again. */
  lemma StillAbsent(env: Env, g: Promise, w: World, rules: seq<Rule>, results: seq<Result>, j: nat)
    requires FirstRun(env, g, w, rules, results) && j < |rules| && |results| == |rules|
    requires Fixable(results[j]) && (OutcomeOf(env, w, results, j) == Wrote ==> SwallowedStep(env, g, w, results, j))
    ensures
      var again := EvaluateRule(env, Fixed(env, w, results, |results|).files, rules[j]);
      && Fixable(again) && again.rule == rules[j] && again.target == SpotOf(Fixed(env, w, results, |results|).files, rules[j])
      && again.target.Some? && again.target.value in rules[j].targets && again.target.value.path !in env.unreadable
  {
    hide *;
    RunFacts(env, g, w, rules, results, j);
    var end := Fixed(env, w, results, |results|).files;
    FixableMeans(env, w.files, rules[j]);
    FixableMeans(env, end, rules[j]);
    SpotIsListed(end, rules[j]);
    forall t | t in rules[j].targets ensures t.path !in env.unreadable && ReadsAs(env, end, t.path, t.key) == Absent {
      AbsentThrough(env, g, w, rules, results, j, t, |results|);
    }
    AbsentAll(env, end, rules[j]);
  }

  lemma NoWriteSpares(env: Env, g: Promise, w: World, results: seq<Result>, i: nat, p: Path, k: Key)
    requires i < |results| && !WroteInto(env, w, results, i, p)
    ensures Spares(env, g, w, results, i, p, k)
  {
    hide WroteInto, Fixed, Related;
  }

  /** A key that is missing at the end was missing at the start, and not written for
      unless the write was swallowed. */
  lemma WasAbsent(env: Env, g: Promise, w: World, rules: seq<Rule>, results: seq<Result>, j: nat)
    requires FirstRun(env, g, w, rules, results) && j < |rules| && |results| == |rules|
    requires Fixable(EvaluateRule(env, Fixed(env, w, results, |results|).files, rules[j]))
    ensures Fixable(results[j]) && (OutcomeOf(env, w, results, j) == Wrote ==> SwallowedStep(env, g, w, results, j))
  {
    hide *;
    RunFacts(env, g, w, rules, results, j);
    var end := Fixed(env, w, results, |results|).files;
    FixableMeans(env, w.files, rules[j]);
    FixableMeans(env, end, rules[j]);
    EvaluatesMissing(env, end, rules[j]);
    Start(env, w, results);
    forall t | t in rules[j].targets ensures t.path !in env.unreadable && ReadsAs(env, w.files, t.path, t.key) == Absent {
      AbsentAt(env, g, end, rules[j], t);
      if ReadsAs(env, w.files, t.path, t.key) != Absent {
        StatedStays(env, g, w, results, 0, |results|, t.path, t.key);
      }
    }
    AbsentAll(env, w.files, rules[j]);
    FixableMissing(EvaluateRule(env, end, rules[j]));
    if OutcomeOf(env, w, results, j) == Wrote && !SwallowedStep(env, g, w, results, j) {
      KnownIs(env, g, w, results, j);
      StatedAfter(env, g, w, rules, results, j);
    }
  }

  lemma KnownIs(env: Env, g: Promise, w: World, results: seq<Result>, i: nat)
    requires i < |results| && OutcomeOf(env, w, results, i) == Wrote && Fixable(results[i])
    requires QuietStep(env, g, w, results, i) && Lawful(env.codec, g)
    ensures KnownStep(env, g, w, results, i)
  {
    hide *;
    WroteHow(env, w, results, i);
    StepIs(env, g, w, results, i);
    var t := results[i].target.value;
    var text := TextOf(Fixed(env, w, results, i).files, t.path);
    StepText(env, w, results, i, t.path);
    MeetsAt(env, g, w, results, i, t.path);
    QuietAt(env.codec, g, t.path, text, t.key, results[i].rule.want, t.key);
  }

  lemma FixableMissing(r: Result)
    ensures Fixable(r) ==> r.status == StatusMissing
  {
  }

  /** A target a rule may create, or whose file was there, is its first place at the end
      only if it was at the start. */
  lemma {:induction false} SpotStays(files: map<Path, string>, end: map<Path, string>, rule: Rule, i: nat, t: Target)
    requires i <= |rule.targets| && Spot(end, rule, i) == Some(t) && (t.path in files || t.create)
    requires forall p :: p in files ==> p in end
    ensures Spot(files, rule, i) == Some(t)
    decreases |rule.targets| - i
  {
    if i < |rule.targets| && !(rule.targets[i].path in end || rule.targets[i].create) {
      SpotStays(files, end, rule, i + 1, t);
    }
  }

  lemma SpotOfStays(files: map<Path, string>, end: map<Path, string>, rule: Rule, t: Target)
    requires SpotOf(end, rule) == Some(t) && (t.path in files || t.create)
    requires forall p :: p in files ==> p in end
    ensures SpotOf(files, rule) == Some(t)
  {
    SpotSome(end, rule, 0);
    if Spot(end, rule, 0).Some? {
      SpotStays(files, end, rule, 0, t);
    }
    hide Spot;
  }

  /** What the codec would not write it will not later in the run either. */
  lemma {:induction false} IdleStays(env: Env, g: Promise, w: World, rules: seq<Rule>, results: seq<Result>, j: nat, t: Target, n: nat)
    requires FirstRun(env, g, w, rules, results) && j <= n <= |results| && j < |rules| && |results| == |rules|
    requires Fixable(results[j]) && t in rules[j].targets && OutcomeOf(env, w, results, j) != Wrote
    requires !env.codec.set_(t.path, TextOf(Fixed(env, w, results, j).files, t.path), t.key, rules[j].want).Writes?
    ensures !env.codec.set_(t.path, TextOf(Fixed(env, w, results, n).files, t.path), t.key, rules[j].want).Writes?
    decreases n
  {
    hide *;
    if j < n {
      IdleStays(env, g, w, rules, results, j, t, n - 1);
      StepText(env, w, results, n - 1, t.path);
      if WroteInto(env, w, results, n - 1, t.path) {
        RunFacts(env, g, w, rules, results, j);
        FixableMeans(env, w.files, rules[j]);
        WroteIntoIs(env, w, results, n - 1, t.path);
        MeetsAt(env, g, w, results, n - 1, t.path);
        OtherClears(env, g, w, rules, results, n - 1, j, t);
        AbsentThrough(env, g, w, rules, results, j, t, n - 1);
        AbsentInText(env, g, w, results, n - 1, t.path, t.key);
        IdleAt(env.codec, g, t.path, TextOf(Fixed(env, w, results, n - 1).files, t.path), results[n - 1].target.value.key,
               results[n - 1].rule.want, t.key, rules[j].want);
      }
    }
  }

  /** Why a result that was tried wrote nothing. */
  lemma NotWroteWhy(env: Env, w: World, results: seq<Result>, j: nat)
    requires j < |results| && Fixable(results[j]) && OutcomeOf(env, w, results, j) != Wrote
    ensures
      var t, before := results[j].target.value, Fixed(env, w, results, j).files;
      || t.path in env.unreadable || t.path in env.readOnly || (t.path !in before && !t.create)
      || !env.codec.set_(t.path, TextOf(before, t.path), t.key, results[j].rule.want).Writes?
  {
    hide Fixed;
  }

  lemma FilesOnlyGrow(env: Env, w: World, results: seq<Result>, m: nat)
    requires m <= |results|
    ensures forall p :: p in w.files ==> p in Fixed(env, w, results, m).files
    ensures forall p :: p in Fixed(env, w, results, m).files ==> p in Fixed(env, w, results, |results|).files
  {
    hide Fixed;
    Start(env, w, results);
    forall p | p in w.files ensures p in Fixed(env, w, results, m).files { FilesStay(env, w, results, 0, m, p); }
    forall p | p in Fixed(env, w, results, m).files ensures p in Fixed(env, w, results, |results|).files {
      FilesStay(env, w, results, m, |results|, p);
    }
  }

  /** A second run writes for a rule exactly when it was overtaken or left unmet. */
  lemma WritesAgainExactly(env: Env, g: Promise, w: World, rules: seq<Rule>, results: seq<Result>, j: nat, copies: map<Path, string>)
    requires FirstRun(env, g, w, rules, results) && j < |rules| && |results| == |rules|
    ensures
      var end := Fixed(env, w, results, |results|).files;
      FixStep(env, World(end, copies), EvaluateRule(env, end, rules[j])).1 == Wrote
      <==> (exists t :: Overtaken(env, w, rules, results, j, t)) || Unmet(env, g, w, rules, results, j)
  {
    hide *;
    var end := Fixed(env, w, results, |results|).files;
    var again := EvaluateRule(env, end, rules[j]);
    var writes := FixStep(env, World(end, copies), again).1 == Wrote;
    if writes {
      NotFixableNotWrote(env, World(end, copies), again);
      WasAbsent(env, g, w, rules, results, j);
    }
    if t :| Overtaken(env, w, rules, results, j, t) { OvertakenIs(env, w, rules, results, j, t); }
    UnmetMeans(env, g, w, rules, results, j);
    if Fixable(results[j]) && (OutcomeOf(env, w, results, j) == Wrote ==> SwallowedStep(env, g, w, results, j)) {
      StillAbsent(env, g, w, rules, results, j);
      var t := SpotOf(end, rules[j]).value;
      StepFor(env, end, copies, rules[j], t);
      UnmetIs(env, g, w, rules, results, j, t);
      OvertakenIs(env, w, rules, results, j, t);
      if OutcomeOf(env, w, results, j) == Wrote {
        WrittenSpot(env, g, w, rules, results, j, t);
      } else if writes && (t.path in w.files || t.create) {
        SameSpot(env, g, w, rules, results, j, t);
      }
      forall u | Overtaken(env, w, rules, results, j, u) ensures u == t { OvertakenIs(env, w, rules, results, j, u); }
    }
  }

  lemma UnmetMeans(env: Env, g: Promise, w: World, rules: seq<Rule>, results: seq<Result>, j: nat)
    requires j < |rules| && |results| == |rules|
    ensures Unmet(env, g, w, rules, results, j) ==>
              Fixable(results[j]) && OutcomeOf(env, w, results, j) == Wrote && SwallowedStep(env, g, w, results, j)
  {
    hide Fixed, OutcomeOf, SpotOf, Fixable, SwallowedStep;
  }

  /** A rule that was written for has a place that can be written at the end. */
  lemma WrittenSpot(env: Env, g: Promise, w: World, rules: seq<Rule>, results: seq<Result>, j: nat, t: Target)
    requires FirstRun(env, g, w, rules, results) && j < |rules| && |results| == |rules|
    requires Fixable(results[j]) && OutcomeOf(env, w, results, j) == Wrote
    requires SpotOf(Fixed(env, w, results, |results|).files, rules[j]) == Some(t)
    ensures (t.path in Fixed(env, w, results, |results|).files || t.create) && t.path !in env.readOnly
  {
    hide *;
    var end := Fixed(env, w, results, |results|).files;
    RunFacts(env, g, w, rules, results, j);
    FixableMeans(env, w.files, rules[j]);
    WroteHow(env, w, results, j);
    var first := results[j].target.value;
    StepText(env, w, results, j, first.path);
    FilesStay(env, w, results, j + 1, |results|, first.path);
    SpotIsListed(w.files, rules[j]);
    SpotIsThere(end, rules[j], first, t);
    FilesOnlyGrow(env, w, results, |results|);
    if t.path in w.files || t.create {
      SpotOfStays(w.files, end, rules[j], t);
    } else {
      Start(env, w, results);
      var i := CreatedBy(env, w, results, 0, |results|, t.path);
      StepText(env, w, results, i, t.path);
    }
  }

  lemma SpotIsThere(files: map<Path, string>, rule: Rule, first: Target, t: Target)
    requires first in rule.targets && first.path in files && SpotOf(files, rule) == Some(t)
    ensures t.path in files || t.create
  {
    SpotSome(files, rule, 0);
    var m :| 0 <= m < |rule.targets| && rule.targets[m] == first;
    hide Spot;
  }

  /** A rule that was not written for at a place it had from the start will not be written
      for at that place. */
  lemma SameSpot(env: Env, g: Promise, w: World, rules: seq<Rule>, results: seq<Result>, j: nat, t: Target)
    requires FirstRun(env, g, w, rules, results) && j < |rules| && |results| == |rules|
    requires Fixable(results[j]) && OutcomeOf(env, w, results, j) != Wrote
    requires SpotOf(Fixed(env, w, results, |results|).files, rules[j]) == Some(t) && (t.path in w.files || t.create)
    requires t.path !in env.unreadable && t.path !in env.readOnly
    ensures !env.codec.set_(t.path, TextOf(Fixed(env, w, results, |results|).files, t.path), t.key, rules[j].want).Writes?
  {
    hide *;
    var end := Fixed(env, w, results, |results|).files;
    RunFacts(env, g, w, rules, results, j);
    FilesOnlyGrow(env, w, results, |results|);
    FilesOnlyGrow(env, w, results, j);
    SpotOfStays(w.files, end, rules[j], t);
    FixableMeans(env, w.files, rules[j]);
    NotWroteWhy(env, w, results, j);
    SpotIsListed(w.files, rules[j]);
    AbsentAt(env, g, w.files, rules[j], t);
    IdleStays(env, g, w, rules, results, j, t, |results|);
  }

  // ---- the second run ----

  lemma {:induction false} UntouchedSoFar(env: Env, w: World, results: seq<Result>, n: nat)
    requires n <= |results| && forall m :: 0 <= m < n ==> OutcomeOf(env, w, results, m) != Wrote
    ensures Fixed(env, w, results, n).files == w.files
  {
    hide *;
    if n == 0 {
      Start(env, w, results);
    } else {
      UntouchedSoFar(env, w, results, n - 1);
      FixedIs(env, w, results, n);
      OutcomeIs(env, w, results, n - 1);
      StepWrites(env, Fixed(env, w, results, n - 1), results[n - 1]);
    }
  }

  lemma FixedIs(env: Env, w: World, results: seq<Result>, n: nat)
    requires 0 < n <= |results|
    ensures Fixed(env, w, results, n) == FixStep(env, Fixed(env, w, results, n - 1), results[n - 1]).0
  {
    hide FixStep;
  }

  lemma OutcomeIs(env: Env, w: World, results: seq<Result>, n: nat)
    requires n < |results|
    ensures OutcomeOf(env, w, results, n) == FixStep(env, Fixed(env, w, results, n), results[n]).1
  {
    hide FixStep, Fixed;
  }

  /** Some rule was overtaken or left unmet. */
  ghost predicate WorkLeft(env: Env, g: Promise, w: World, rules: seq<Rule>, results: seq<Result>)
    requires |results| == |rules|
  {
    || (exists j, t :: 0 <= j < |rules| && Overtaken(env, w, rules, results, j, t))
    || (exists j :: 0 <= j < |rules| && Unmet(env, g, w, rules, results, j))
  }

  lemma WorkLeftIs(env: Env, g: Promise, w: World, rules: seq<Rule>, results: seq<Result>)
    requires |results| == |rules|
    ensures WorkLeft(env, g, w, rules, results) <==>
            exists j :: 0 <= j < |rules| && LeftFor(env, g, w, rules, results, j)
  {
    hide Overtaken, Unmet;
    forall j, t | 0 <= j < |rules| && Overtaken(env, w, rules, results, j, t) ensures LeftFor(env, g, w, rules, results, j) {}
    forall j | 0 <= j < |rules| && Unmet(env, g, w, rules, results, j) ensures LeftFor(env, g, w, rules, results, j) {}
  }

  lemma WorkLeftMeans(env: Env, g: Promise, w: World, rules: seq<Rule>, results: seq<Result>)
    requires |results| == |rules|
    ensures WorkLeft(env, g, w, rules, results) <==>
            || (exists j, t :: 0 <= j < |rules| && Overtaken(env, w, rules, results, j, t))
            || (exists j :: 0 <= j < |rules| && Unmet(env, g, w, rules, results, j))
  {
    hide Overtaken, Unmet;
  }

  ghost predicate LeftFor(env: Env, g: Promise, w: World, rules: seq<Rule>, results: seq<Result>, j: nat)
    requires j < |rules| && |results| == |rules|
  {
    (exists t :: Overtaken(env, w, rules, results, j, t)) || Unmet(env, g, w, rules, results, j)
  }

  lemma LeftForIs(env: Env, g: Promise, w: World, rules: seq<Rule>, results: seq<Result>, j: nat)
    requires j < |rules| && |results| == |rules|
    ensures LeftFor(env, g, w, rules, results, j) <==>
            (exists t :: Overtaken(env, w, rules, results, j, t)) || Unmet(env, g, w, rules, results, j)
  {
    hide Overtaken, Unmet;
  }

  /** A second run writes a file exactly when the first left work: some rule was overtaken,
      its key missing and not written, while another result created a file it may not
      create and the codec would write the key into what that file then holds; or some
      write was swallowed, and the codec would write its key again. */
  lemma SecondRunWritesExactly(env: Env, g: Promise, w: World, rules: seq<Rule>, results: seq<Result>, again: seq<Result>, copies: map<Path, string>)
    requires FirstRun(env, g, w, rules, results) && |results| == |rules| && |again| == |rules|
    requires Judged(env, Fixed(env, w, results, |results|).files, rules, again)
    ensures
      var second := World(Fixed(env, w, results, |results|).files, copies);
      (exists n :: 0 <= n < |again| && OutcomeOf(env, second, again, n) == Wrote)
      <==> WorkLeft(env, g, w, rules, results)
  {
    hide *;
    var end := Fixed(env, w, results, |results|).files;
    var second := World(end, copies);
    Lengths(env, end, rules, again);
    WorkLeftIs(env, g, w, rules, results);
    if exists n :: 0 <= n < |again| && OutcomeOf(env, second, again, n) == Wrote {
      var n := FirstWrite(env, second, again, |again|);
      UntouchedSoFar(env, second, again, n);
      OutcomeIs(env, second, again, n);
      var now := Fixed(env, second, again, n);
      assert now == World(end, now.copies);
      WritesAgainExactly(env, g, w, rules, results, n, now.copies);
      LeftForIs(env, g, w, rules, results, n);
    }
    if j :| 0 <= j < |rules| && LeftFor(env, g, w, rules, results, j) {
      if forall n :: 0 <= n < |again| ==> OutcomeOf(env, second, again, n) != Wrote {
        UntouchedSoFar(env, second, again, j);
        OutcomeIs(env, second, again, j);
        var now := Fixed(env, second, again, j);
        assert now == World(end, now.copies);
        WritesAgainExactly(env, g, w, rules, results, j, now.copies);
        LeftForIs(env, g, w, rules, results, j);
      }
    }
  }

  lemma {:induction false} FirstWrite(env: Env, w: World, results: seq<Result>, n: nat) returns (m: nat)
    requires n <= |results| && exists k :: 0 <= k < n && OutcomeOf(env, w, results, k) == Wrote
    ensures m < n && OutcomeOf(env, w, results, m) == Wrote && forall k :: 0 <= k < m ==> OutcomeOf(env, w, results, k) != Wrote
    decreases n
  {
    hide OutcomeOf;
    if exists k :: 0 <= k < n - 1 && OutcomeOf(env, w, results, k) == Wrote {
      m := FirstWrite(env, w, results, n - 1);
    } else {
      m := n - 1;
    }
  }

  /** Where no work is left the second run leaves every file as it is. */
  lemma SecondRunChangesNothing(env: Env, g: Promise, w: World, rules: seq<Rule>, results: seq<Result>, again: seq<Result>, copies: map<Path, string>)
    requires FirstRun(env, g, w, rules, results) && |results| == |rules| && |again| == |rules|
    requires Judged(env, Fixed(env, w, results, |results|).files, rules, again)
    requires !WorkLeft(env, g, w, rules, results)
    ensures
      var end := Fixed(env, w, results, |results|).files;
      Fixed(env, World(end, copies), again, |again|).files == end
  {
    hide *;
    SecondRunWritesExactly(env, g, w, rules, results, again, copies);
    UntouchedSoFar(env, World(Fixed(env, w, results, |results|).files, copies), again, |again|);
  }

  // ---- how a rule is overtaken ----

  /** The result that made a file of the run. */
  lemma {:induction false} CreatedBy(env: Env, w: World, results: seq<Result>, m: nat, n: nat, p: Path) returns (i: nat)
    requires m <= n <= |results| && p !in Fixed(env, w, results, m).files && p in Fixed(env, w, results, n).files
    ensures m <= i < n && WroteInto(env, w, results, i, p) && p !in Fixed(env, w, results, i).files
    ensures Fixable(results[i]) && results[i].target.Some? && results[i].target.value.path == p && results[i].target.value.create
    decreases n
  {
    hide *;
    if p in Fixed(env, w, results, n - 1).files {
      i := CreatedBy(env, w, results, m, n - 1, p);
    } else {
      i := n - 1;
      StepText(env, w, results, n - 1, p);
    }
  }

  /** The file was created by another result, one that may create it. When it is the place
      the overtaken result had, that result met the file before it was there, and the one
      that created it came later. */
  lemma OvertakenMeans(env: Env, g: Promise, w: World, rules: seq<Rule>, results: seq<Result>, j: nat, t: Target) returns (i: nat)
    requires FirstRun(env, g, w, rules, results) && j < |rules| && |results| == |rules| && Overtaken(env, w, rules, results, j, t)
    ensures i < |results| && i != j && WroteInto(env, w, results, i, t.path) && t.path !in Fixed(env, w, results, i).files
    ensures results[i].target.Some? && results[i].target.value.path == t.path && results[i].target.value.create
    ensures results[j].target == Some(t) ==> t.path !in Fixed(env, w, results, j).files && j < i
  {
    hide *;
    OvertakenIs(env, w, rules, results, j, t);
    Start(env, w, results);
    RunFacts(env, g, w, rules, results, j);
    FixableMeans(env, w.files, rules[j]);
    i := CreatedBy(env, w, results, 0, |results|, t.path);
    WroteIntoIs(env, w, results, i, t.path);
    if results[j].target == Some(t) {
      if t.path in Fixed(env, w, results, j).files {
        SpotIsListed(w.files, rules[j]);
        AbsentAt(env, g, w.files, rules[j], t);
        NotWroteWhy(env, w, results, j);
        IdleStays(env, g, w, rules, results, j, t, |results|);
        assert false;
      }
      i := CreatedBy(env, w, results, j, |results|, t.path);
      WroteIntoIs(env, w, results, i, t.path);
    }
  }

  /** Rules that agree which files may be created, or find them all there, leave nothing. */
  lemma AgreementLeavesNothing(env: Env, g: Promise, w: World, rules: seq<Rule>, results: seq<Result>, j: nat, t: Target)
    requires FirstRun(env, g, w, rules, results) && j < |rules| && |results| == |rules|
    requires forall i, a :: 0 <= i < |rules| && i != j && Writable(rules[i]) && a in rules[i].targets && a.path == t.path && t.path !in w.files ==> a.create == t.create
    ensures !Overtaken(env, w, rules, results, j, t)
  {
    hide *;
    if Overtaken(env, w, rules, results, j, t) {
      var i := OvertakenMeans(env, g, w, rules, results, j, t);
      OvertakenIs(env, w, rules, results, j, t);
      RunFacts(env, g, w, rules, results, i);
      WroteIntoIs(env, w, results, i, t.path);
      FixableMeans(env, w.files, rules[i]);
      SpotIsListed(w.files, rules[i]);
    }
  }

  // ---- rules a second run writes for ----

  /** Where the rules do not agree which file may be created a second run does write: a
      rule that may not create the file comes first, and another one creates it. */
  lemma DisagreementLeavesWork(env: Env, a: Rule, b: Rule)
    requires Writable(a) && Writable(b) && |a.targets| == 1 && |b.targets| == 1
    requires a.targets[0].path == b.targets[0].path && !a.targets[0].create && b.targets[0].create
    requires a.targets[0].path !in env.unreadable && a.targets[0].path !in env.readOnly
    requires Judge(a.setting, None, env.params) == StatusMissing && Judge(b.setting, None, env.params) == StatusMissing
    requires env.codec.set_(b.targets[0].path, "", b.targets[0].key, b.want).Writes?
    requires
      var text := env.codec.set_(b.targets[0].path, "", b.targets[0].key, b.want).content;
      && env.codec.get(a.targets[0].path, text, a.targets[0].key) == Absent
      && env.codec.set_(a.targets[0].path, text, a.targets[0].key, a.want).Writes?
    ensures
      var w, none := World(map[], map[]), map[];
      var first := [EvaluateRule(env, none, a), EvaluateRule(env, none, b)];
      var end := Fixed(env, w, first, 2).files;
      FixStep(env, World(end, none), EvaluateRule(env, end, a)).1 == Wrote
  {
    hide Judge;
    var w, none: map<Path, string> := World(map[], map[]), map[];
    var s, t := a.targets[0], b.targets[0];
    var first := [EvaluateRule(env, none, a), EvaluateRule(env, none, b)];
    MissingFromNone(env, a);
    MissingFromNone(env, b);
    var text := env.codec.set_(t.path, "", t.key, b.want).content;
    assert FixStep(env, w, first[0]) == (w, Nothing);
    assert Fixed(env, w, first, 1) == FixStep(env, Fixed(env, w, first, 0), first[0]).0 == w;
    assert FixStep(env, w, first[1]) == (World(map[t.path := text], map[]), Wrote);
    assert Fixed(env, w, first, 2) == FixStep(env, w, first[1]).0;
    var end := Fixed(env, w, first, 2).files;
    assert end == map[t.path := text];
    assert EvaluateRule(env, end, a) == EvaluateFrom(env, end, a, 1, Some(s));
  }

  lemma MissingFromNone(env: Env, rule: Rule)
    requires |rule.targets| == 1 && rule.targets[0].path !in env.unreadable
    ensures EvaluateRule(env, map[], rule) == Result(rule, Judge(rule.setting, None, env.params), Some(rule.targets[0]), false)
  {
    hide Judge;
    var t := rule.targets[0];
    var none: map<Path, string> := map[];
    assert EvaluateRule(env, none, rule) == EvaluateFrom(env, none, rule, 1, if t.create then Some(t) else None);
  }

  /** A codec of two keys one inside the other, which writes the outer one only where the
      inner one is stated. */
  function Nested(): Codec {
    Codec((p: Path, text: string, k: Key) => NestedGet(text, k), (p: Path, text: string, k: Key, want: IniCodec.Literal) => NestedSet(text, k))
  }

  const OUTER: Key := ["x"]
  const INNER: Key := ["x", "y"]
  const STATED := IniCodec.Value(IniCodec.KindString, "v", [], 0, 0, true)

  function NestedGet(text: string, k: Key): Reading {
    if (k == INNER && (text == "1" || text == "2")) || (k == OUTER && text == "2") then Present(STATED) else Absent
  }

  function NestedSet(text: string, k: Key): Writing {
    if k == INNER && text == "" then Writes("1")
    else if k == OUTER && text == "1" then Writes("2")
    else Refuses
  }

  /** Every write of it lands. */
  function AllLand(): Promise {
    Promise((k: Key) => true, (p, text, k, want) => true, (p, text, k, want) => true, (p, text, k, want) => false,
            (p, text, k, want) => IniCodec.Holds(STATED, want))
  }

  lemma NestedIsLawful()
    ensures Lawful(Nested(), AllLand())
  {
    hide IniCodec.Holds;
    var c, g := Nested(), AllLand();
    assert OUTER <= INNER && Related(OUTER, INNER) && Related(INNER, OUTER) && Related(OUTER, OUTER) && Related(INNER, INNER);
    assert Told(g) && StatesUnlessSwallowed(c, g) && SetGet(c, g) && Harmless(c, g);
    assert Frame(c, g) && Idle(c, g) && StartsEmpty(c, g);
  }

  /** Where two rules have keys one inside the other a second run does write, although the
      codec is lawful and the rules agree which files may be created. */
  lemma KeysTogetherLeaveWork(env: Env, outer: Rule, inner: Rule)
    requires env.codec == Nested() && env.unreadable == {} && env.readOnly == {}
    requires Writable(outer) && outer.targets == [Target("p", OUTER, true)]
    requires Writable(inner) && inner.targets == [Target("p", INNER, true)]
    requires Judge(outer.setting, None, env.params) == StatusMissing && Judge(inner.setting, None, env.params) == StatusMissing
    ensures
      var w, none := World(map[], map[]), map[];
      var first := [EvaluateRule(env, none, outer), EvaluateRule(env, none, inner)];
      var end := Fixed(env, w, first, 2).files;
      Lawful(env.codec, AllLand()) && FixStep(env, World(end, none), EvaluateRule(env, end, outer)).1 == Wrote
  {
    hide Judge;
    NestedIsLawful();
    hide Lawful;
    var w, none: map<Path, string> := World(map[], map[]), map[];
    var s := Target("p", OUTER, true);
    var first := [EvaluateRule(env, none, outer), EvaluateRule(env, none, inner)];
    MissingFromNone(env, outer);
    MissingFromNone(env, inner);
    assert OUTER != INNER by { assert |OUTER| != |INNER|; }
    assert FixStep(env, w, first[0]) == (w, Nothing);
    assert Fixed(env, w, first, 1) == FixStep(env, Fixed(env, w, first, 0), first[0]).0 == w;
    assert FixStep(env, w, first[1]) == (World(map["p" := "1"], map[]), Wrote);
    assert Fixed(env, w, first, 2) == FixStep(env, w, first[1]).0;
    var end := Fixed(env, w, first, 2).files;
    assert end == map["p" := "1"];
    assert EvaluateRule(env, end, outer) == EvaluateFrom(env, end, outer, 1, Some(s));
  }
}
