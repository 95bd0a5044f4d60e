/** The doctor's evaluation of a rule and its fixer (internal/doctor/run.go:
    evaluateTargets; internal/doctor/fix.go: applyFixes, fixable, fixOne), over any codec.
    Files are a map from path to contents; paths that cannot be read or written are sets
    that do not change during a run. */
module Fixer {
  import opened Text
  import opened Desired
  import opened Codecs
  import IniCodec

  // ---- rules and results ----

  datatype Target = Target(path: Path, key: Key, create: bool)

  datatype Rule = Rule(fixable: bool, scans: bool, userScope: bool, targets: seq<Target>, setting: Setting, want: IniCodec.Literal)

  datatype Result = Result(rule: Rule, status: Status, target: Option<Target>, fixed: bool)

  /** What a run works with: the codec, the parameters, and the paths it cannot read or
      write. */
  datatype Env = Env(codec: Codec, params: Params, backup: bool, unreadable: set<Path>, readOnly: set<Path>)

  /** evaluateTargets from target i on, with the place a fix would write found so far. */
  function EvaluateFrom(env: Env, files: map<Path, string>, rule: Rule, i: nat, fallback: Option<Target>): Result
    requires i <= |rule.targets|
    decreases |rule.targets| - i
  {
    if i == |rule.targets| then
      var target := if fallback.Some? then fallback else if rule.targets != [] then Some(rule.targets[0]) else None;
      Result(rule, Judge(rule.setting, None, env.params), target, false)
    else
      var t := rule.targets[i];
      if t.path in env.unreadable then Result(rule, StatusUnreadable, Some(t), false)
      else if t.path !in files then
        EvaluateFrom(env, files, rule, i + 1, if fallback.None? && t.create then Some(t) else fallback)
      else
        match env.codec.get(t.path, files[t.path], t.key)
        case Unreadable => Result(rule, StatusUnreadable, Some(t), false)
        case Absent => EvaluateFrom(env, files, rule, i + 1, if fallback.None? then Some(t) else fallback)
        case Present(value) => Result(rule, Judge(rule.setting, Some(value.text), env.params), Some(t), false)
  }

  function EvaluateRule(env: Env, files: map<Path, string>, rule: Rule): Result {
    EvaluateFrom(env, files, rule, 0, None)
  }

  /** The loop of evaluateTargets. */
  method EvaluateTargets(env: Env, files: map<Path, string>, rule: Rule) returns (r: Result)
    ensures r == EvaluateRule(env, files, rule)
  {
    hide Judge;
    var fallback: Option<Target> := None;
    var i := 0;
    while i < |rule.targets|
      invariant i <= |rule.targets|
      invariant EvaluateFrom(env, files, rule, i, fallback) == EvaluateRule(env, files, rule)
    {
      var t := rule.targets[i];
      if t.path in env.unreadable {
        return Result(rule, StatusUnreadable, Some(t), false);
      }
      if t.path !in files {
        if fallback.None? && t.create {
          fallback := Some(t);
        }
        i := i + 1;
        continue;
      }
      var value := env.codec.get(t.path, files[t.path], t.key);
      if value.Unreadable? {
        return Result(rule, StatusUnreadable, Some(t), false);
      }
      if value.Absent? {
        if fallback.None? {
          fallback := Some(t);
        }
        i := i + 1;
        continue;
      }
      return Result(rule, Judge(rule.setting, Some(value.value.text), env.params), Some(t), false);
    }
    var target := if fallback.Some? then fallback else if |rule.targets| > 0 then Some(rule.targets[0]) else None;
    r := Result(rule, Judge(rule.setting, None, env.params), target, false);
  }

  /** fixable. */
  predicate Fixable(r: Result) {
    !r.rule.userScope && r.rule.fixable && !r.rule.scans && r.status == StatusMissing && r.target.Some?
  }

  // ---- one fix ----

  /** The files, and the copies made of them. */
  datatype World = World(files: map<Path, string>, copies: map<Path, string>)

  datatype Outcome = Nothing | Wrote | Failed

  /** fixOne. */
  function FixOne(env: Env, w: World, r: Result): (World, Outcome)
    requires Fixable(r)
  {
    var t := r.target.value;
    if t.path in env.unreadable then (w, Failed)
    else if t.path !in w.files && !t.create then (w, Nothing)
    else
      var created := t.path !in w.files;
      var text := if created then "" else w.files[t.path];
      match env.codec.set_(t.path, text, t.key, r.rule.want)
      case Refuses => (w, Nothing)
      case Fails => (w, Failed)
      case Unchanged => (w, Nothing)
      case Writes(next) =>
        var copies := if created || t.path in w.copies || !env.backup then w.copies else w.copies[t.path := text];
        if t.path in env.readOnly then (World(w.files, copies), Failed)
        else (World(w.files[t.path := next], copies), Wrote)
  }

  function FixStep(env: Env, w: World, r: Result): (World, Outcome) {
    if Fixable(r) then FixOne(env, w, r) else (w, Nothing)
  }

  /** The world before result n is tried. */
  function Fixed(env: Env, w: World, results: seq<Result>, n: nat): World
    requires n <= |results|
  {
    if n == 0 then w else FixStep(env, Fixed(env, w, results, n - 1), results[n - 1]).0
  }

  /** What came of result i. */
  function OutcomeOf(env: Env, w: World, results: seq<Result>, i: nat): Outcome
    requires i < |results|
  {
    FixStep(env, Fixed(env, w, results, i), results[i]).1
  }

  /** Some of the first n results came to this outcome in file p. */
  ghost predicate Came(env: Env, w: World, results: seq<Result>, n: nat, outcome: Outcome, p: Path)
    requires n <= |results|
  {
    exists i :: 0 <= i < n && OutcomeOf(env, w, results, i) == outcome && results[i].target.Some? && results[i].target.value.path == p
  }

  /** The scorecard and the repository a run changes. */
  class Card {
    var results: seq<Result>
    var files: map<Path, string>
    var copies: map<Path, string>
    var changed: set<Path>
    var failed: set<Path>

    constructor (results: seq<Result>, files: map<Path, string>)
      ensures this.results == results && this.files == files && copies == map[] && changed == {} && failed == {}
    {
      this.results, this.files, copies, changed, failed := results, files, map[], {}, {};
    }

    /** applyFixes: every result in order, one file that cannot be written stopping none
        of the others; the files changed and the files that failed are the ones an outcome
        says so of. */
    method ApplyFixes(env: Env)
      modifies this
      ensures
        var w, was := World(old(files), old(copies)), old(results);
        && World(files, copies) == Fixed(env, w, was, |was|)
        && |results| == |was|
        && (forall i :: 0 <= i < |was| ==>
            results[i] == if OutcomeOf(env, w, was, i) == Wrote then was[i].(status := StatusSet, fixed := true) else was[i])
        && (forall p :: p in changed <==> p in old(changed) || Came(env, w, was, |was|, Wrote, p))
        && (forall p :: p in failed <==> p in old(failed) || Came(env, w, was, |was|, Failed, p))
    {
      hide *;
      ghost var w := World(files, copies);
      ghost var was := results;
      NoneCame(env, w, was);
      for n := 0 to |results|
        invariant World(files, copies) == Fixed(env, w, was, n)
        invariant |results| == |was| && forall i :: n <= i < |was| ==> results[i] == was[i]
        invariant forall i :: 0 <= i < n ==>
                    results[i] == if OutcomeOf(env, w, was, i) == Wrote then was[i].(status := StatusSet, fixed := true) else was[i]
        invariant forall p :: p in changed <==> p in old(changed) || Came(env, w, was, n, Wrote, p)
        invariant forall p :: p in failed <==> p in old(failed) || Came(env, w, was, n, Failed, p)
      {
        CameNext(env, w, was, n);
        FixedNext(env, w, was, n);
        var r := results[n];
        if !Fixable(r) {
          continue;
        }
        var (next, outcome) := FixOne(env, World(files, copies), r);
        files, copies := next.files, next.copies;
        if outcome.Failed? {
          failed := failed + {r.target.value.path};
          continue;
        }
        if outcome.Nothing? {
          continue;
        }
        changed := changed + {r.target.value.path};
        results := results[n := r.(status := StatusSet, fixed := true)];
      }
    }
  }

  lemma NoneCame(env: Env, w: World, results: seq<Result>)
    ensures Fixed(env, w, results, 0) == w
    ensures forall outcome, p :: !Came(env, w, results, 0, outcome, p)
  {
  }

  lemma FixedNext(env: Env, w: World, results: seq<Result>, n: nat)
    requires n < |results|
    ensures
      var v, r := Fixed(env, w, results, n), results[n];
      if Fixable(r) then
        r.target.Some? && Fixed(env, w, results, n + 1) == FixOne(env, v, r).0 && OutcomeOf(env, w, results, n) == FixOne(env, v, r).1
      else Fixed(env, w, results, n + 1) == v && OutcomeOf(env, w, results, n) == Nothing
  {
    hide FixOne;
  }

  lemma CameNext(env: Env, w: World, results: seq<Result>, n: nat)
    requires n < |results|
    ensures forall outcome, p ::
              Came(env, w, results, n + 1, outcome, p) <==>
              Came(env, w, results, n, outcome, p)
              || (OutcomeOf(env, w, results, n) == outcome && results[n].target.Some? && results[n].target.value.path == p)
    ensures !Fixable(results[n]) ==> OutcomeOf(env, w, results, n) == Nothing
  {
    hide FixStep;
    if !Fixable(results[n]) { NotTried(env, Fixed(env, w, results, n), results[n]); }
    forall outcome, p
      ensures Came(env, w, results, n + 1, outcome, p) <==>
              Came(env, w, results, n, outcome, p)
              || (OutcomeOf(env, w, results, n) == outcome && results[n].target.Some? && results[n].target.value.path == p)
    {
      if Came(env, w, results, n, outcome, p) {
        var i :| 0 <= i < n && OutcomeOf(env, w, results, i) == outcome && results[i].target.Some? && results[i].target.value.path == p;
        assert 0 <= i < n + 1;
      }
    }
  }

  lemma NotTried(env: Env, w: World, r: Result)
    requires !Fixable(r)
    ensures FixStep(env, w, r) == (w, Nothing)
  {
  }

  // ---- what one step does to a file ----

  function TextOf(files: map<Path, string>, p: Path): string {
    if p in files then files[p] else ""
  }

  /** A step writes to its own target or to nothing, and no file goes away. */
  lemma StepWrites(env: Env, w: World, r: Result)
    ensures
      var (next, outcome) := FixStep(env, w, r);
      && (outcome != Wrote ==> next.files == w.files)
      && (outcome == Wrote ==>
          && Fixable(r)
          && var t := r.target.value;
             && env.codec.set_(t.path, TextOf(w.files, t.path), t.key, r.rule.want).Writes?
             && next.files == w.files[t.path := env.codec.set_(t.path, TextOf(w.files, t.path), t.key, r.rule.want).content]
             && (t.path in w.files || t.create) && t.path !in env.unreadable && t.path !in env.readOnly)
  {
  }

  // ---- what evaluating a rule comes to ----

  /** Evaluating a rule whose target already states the key, or reads badly, never ends
      in a missing setting. */
  lemma {:induction false} StatedIsNotMissing(env: Env, files: map<Path, string>, rule: Rule, i: nat, fallback: Option<Target>, m: nat)
    requires i <= m < |rule.targets|
    requires
      var t := rule.targets[m];
      t.path in env.unreadable || (t.path in files && env.codec.get(t.path, files[t.path], t.key) != Absent)
    ensures EvaluateFrom(env, files, rule, i, fallback).status != StatusMissing
    decreases m - i
  {
    hide Judge;
    var t := rule.targets[i];
    if t.path !in env.unreadable {
      if t.path !in files {
        StatedIsNotMissing(env, files, rule, i + 1, if fallback.None? && t.create then Some(t) else fallback, m);
      } else {
        match env.codec.get(t.path, files[t.path], t.key)
        case Unreadable =>
        case Absent => StatedIsNotMissing(env, files, rule, i + 1, if fallback.None? then Some(t) else fallback, m);
        case Present(value) => FoundIsNeverMissing(rule.setting, value.text, env.params);
      }
    }
  }

  /** The target of a result is one of its rule's. */
  lemma {:induction false} TargetIsListed(env: Env, files: map<Path, string>, rule: Rule, i: nat, fallback: Option<Target>)
    requires i <= |rule.targets|
    requires fallback.Some? ==> fallback.value in rule.targets
    ensures
      var r := EvaluateFrom(env, files, rule, i, fallback);
      r.rule == rule && (r.target.Some? ==> r.target.value in rule.targets)
    decreases |rule.targets| - i
  {
    hide Judge;
    if i < |rule.targets| {
      var t := rule.targets[i];
      assert t in rule.targets;
      if t.path !in env.unreadable {
        if t.path !in files {
          TargetIsListed(env, files, rule, i + 1, if fallback.None? && t.create then Some(t) else fallback);
        } else if env.codec.get(t.path, files[t.path], t.key).Absent? {
          TargetIsListed(env, files, rule, i + 1, if fallback.None? then Some(t) else fallback);
        }
      }
    }
  }

  /** The results of a run are what evaluating the rules over the files gave. */
  ghost predicate Judged(env: Env, files: map<Path, string>, rules: seq<Rule>, results: seq<Result>) {
    |results| == |rules| && forall i :: 0 <= i < |rules| ==> results[i] == EvaluateRule(env, files, rules[i])
  }

  // ---- backups ----

  lemma {:induction false} FilesStay(env: Env, w: World, results: seq<Result>, m: nat, n: nat, p: Path)
    requires m <= n <= |results| && p in Fixed(env, w, results, m).files
    ensures p in Fixed(env, w, results, n).files
  {
    if m < n {
      hide FixStep;
      FilesStay(env, w, results, m, n - 1, p);
      StepWrites(env, Fixed(env, w, results, n - 1), results[n - 1]);
    }
  }

  /** A file a run has not written yet is as it was, and one that is not copied yet and
      was there before the run has not been written. */
  ghost predicate Kept(w: World, now: World, backup: bool) {
    && (forall p :: p in w.copies ==> p in now.copies && now.copies[p] == w.copies[p])
    && (forall p :: p in w.files ==> p in now.files)
    && (forall p :: p in w.files && p !in w.copies && p in now.copies ==> now.copies[p] == w.files[p])
    && (backup ==> forall p :: p in w.files && p !in now.copies ==> now.files[p] == w.files[p])
  }

  lemma KeptStep(env: Env, w: World, now: World, r: Result)
    requires Kept(w, now, env.backup) && (!env.backup ==> now.copies == w.copies)
    ensures Kept(w, FixStep(env, now, r).0, env.backup)
    ensures !env.backup ==> FixStep(env, now, r).0.copies == w.copies
  {
  }

  /** A file that was there when the run began is copied at most once, and what is copied
      is what it held then; with backups on, a file that changed was copied. */
  lemma {:induction false} BackupsArePreRun(env: Env, w: World, results: seq<Result>, n: nat)
    requires n <= |results|
    ensures Kept(w, Fixed(env, w, results, n), env.backup)
    ensures !env.backup ==> Fixed(env, w, results, n).copies == w.copies
  {
    if n > 0 {
      hide FixStep, Kept;
      BackupsArePreRun(env, w, results, n - 1);
      KeptStep(env, w, Fixed(env, w, results, n - 1), results[n - 1]);
    } else {
      assert Kept(w, w, env.backup);
    }
  }

  /** A file the run itself created is copied too, when a second setting goes into it: the
      copy is the file as the run's first setting left it, which nobody ever had. */
  lemma CreatedFileIsCopied(env: Env, a: Result, b: Result)
    requires Fixable(a) && Fixable(b) && a.target.value.path == b.target.value.path && a.target.value.create && env.backup
    requires a.target.value.path !in env.unreadable && a.target.value.path !in env.readOnly
    requires env.codec.set_(a.target.value.path, "", a.target.value.key, a.rule.want).Writes?
    requires
      var first := env.codec.set_(a.target.value.path, "", a.target.value.key, a.rule.want).content;
      env.codec.set_(b.target.value.path, first, b.target.value.key, b.rule.want).Writes?
    ensures
      var p := a.target.value.path;
      var end := Fixed(env, World(map[], map[]), [a, b], 2);
      p in end.copies && end.copies[p] == env.codec.set_(p, "", a.target.value.key, a.rule.want).content
  {
    var w := World(map[], map[]);
    assert Fixed(env, w, [a, b], 1) == FixStep(env, Fixed(env, w, [a, b], 0), a).0;
    assert Fixed(env, w, [a, b], 2) == FixStep(env, Fixed(env, w, [a, b], 1), b).0;
  }

  /** Result j tries to write file p: nothing stands in the way of the edit but the file
      being read only. */
  predicate Tries(env: Env, w: World, results: seq<Result>, j: nat, p: Path)
    requires j < |results|
  {
    && Fixable(results[j]) && results[j].target.value.path == p && p !in env.unreadable
    && (p in Fixed(env, w, results, j).files || results[j].target.value.create)
    && env.codec.set_(p, TextOf(Fixed(env, w, results, j).files, p), results[j].target.value.key, results[j].rule.want).Writes?
  }

  predicate WroteInto(env: Env, w: World, results: seq<Result>, i: nat, p: Path)
    requires i < |results|
  {
    OutcomeOf(env, w, results, i) == Wrote && Fixable(results[i]) && results[i].target.value.path == p
  }

  /** A write into p that succeeded, and one after it that was tried. */
  ghost predicate TriedTwice(env: Env, w: World, results: seq<Result>, n: nat, p: Path)
    requires n <= |results|
  {
    exists i, j :: 0 <= i < j < n && WroteInto(env, w, results, i, p) && Tries(env, w, results, j, p)
  }

  ghost predicate WroteOnce(env: Env, w: World, results: seq<Result>, n: nat, p: Path)
    requires n <= |results|
  {
    exists i :: 0 <= i < n && WroteInto(env, w, results, i, p)
  }

  /** What a step does to the files and the copies of one path. */
  lemma StepAt(env: Env, w: World, results: seq<Result>, n: nat, p: Path)
    requires n < |results| && env.backup
    ensures
      var v, u := Fixed(env, w, results, n), Fixed(env, w, results, n + 1);
      && (p in u.files <==> p in v.files || WroteInto(env, w, results, n, p))
      && (p in u.copies <==> p in v.copies || (p in v.files && Tries(env, w, results, n, p)))
      && (p in v.copies ==> u.copies[p] == v.copies[p])
      && (p in v.files && p !in v.copies && p in u.copies ==> u.copies[p] == v.files[p])
      && (p in v.files && !Tries(env, w, results, n, p) ==> u.files[p] == v.files[p])
      && (WroteInto(env, w, results, n, p) ==> Tries(env, w, results, n, p) && p !in env.readOnly)
      && (Tries(env, w, results, n, p) && p !in env.readOnly ==> WroteInto(env, w, results, n, p))
  {
    hide Fixed;
    FixedNext(env, w, results, n);
  }

  lemma OnceMore(env: Env, w: World, results: seq<Result>, n: nat, p: Path)
    requires n < |results|
    ensures WroteOnce(env, w, results, n + 1, p) <==> WroteOnce(env, w, results, n, p) || WroteInto(env, w, results, n, p)
    ensures TriedTwice(env, w, results, n + 1, p) <==>
            TriedTwice(env, w, results, n, p) || (WroteOnce(env, w, results, n, p) && Tries(env, w, results, n, p))
  {
    hide WroteInto, Tries;
    if WroteOnce(env, w, results, n + 1, p) {
      var i :| 0 <= i < n + 1 && WroteInto(env, w, results, i, p);
      assert i < n || i == n;
    }
    if TriedTwice(env, w, results, n + 1, p) {
      var i, j :| 0 <= i < j < n + 1 && WroteInto(env, w, results, i, p) && Tries(env, w, results, j, p);
      assert j < n || j == n;
    }
    if WroteOnce(env, w, results, n, p) && Tries(env, w, results, n, p) {
      var i :| 0 <= i < n && WroteInto(env, w, results, i, p);
      assert 0 <= i < n < n + 1;
    }
    if TriedTwice(env, w, results, n, p) {
      var i, j :| 0 <= i < j < n && WroteInto(env, w, results, i, p) && Tries(env, w, results, j, p);
      assert 0 <= i < j < n + 1;
    }
  }

  /** The contents the first write into p left. */
  function FirstText(env: Env, w: World, results: seq<Result>, n: nat, p: Path): Option<string>
    requires n <= |results|
  {
    if n == 0 then None
    else
      match FirstText(env, w, results, n - 1, p)
      case Some(text) => Some(text)
      case None =>
        if WroteInto(env, w, results, n - 1, p) then Some(TextOf(Fixed(env, w, results, n).files, p)) else None
  }

  lemma FirstIs(env: Env, w: World, results: seq<Result>, n: nat, p: Path)
    requires n < |results|
    ensures FirstText(env, w, results, 0, p) == None
    ensures FirstText(env, w, results, n + 1, p) ==
            if FirstText(env, w, results, n, p).Some? then FirstText(env, w, results, n, p)
            else if WroteInto(env, w, results, n, p) then Some(TextOf(Fixed(env, w, results, n + 1).files, p)) else None
  {
    hide WroteInto, Fixed;
  }

  /** With backups on, a file that was not there when the run began is copied exactly when a
      write into it is tried after one that succeeded; and the copy is what that first write
      left, which nobody ever had. */
  lemma {:induction false} CreatedIsCopiedExactly(env: Env, w: World, results: seq<Result>, n: nat, p: Path)
    requires n <= |results| && env.backup && p !in w.files && p !in w.copies
    ensures
      var now := Fixed(env, w, results, n);
      && (p in now.files <==> WroteOnce(env, w, results, n, p))
      && (p in now.copies <==> TriedTwice(env, w, results, n, p))
      && (FirstText(env, w, results, n, p).Some? <==> p in now.files)
      && (p in now.copies ==> p in now.files && now.copies[p] == FirstText(env, w, results, n, p).value)
      && (p in now.files && p !in now.copies ==> now.files[p] == FirstText(env, w, results, n, p).value)
    decreases n
  {
    hide *;
    if n == 0 {
      NoneYet(env, w, results, p);
    } else {
      CreatedIsCopiedExactly(env, w, results, n - 1, p);
      StepAt(env, w, results, n - 1, p);
      OnceMore(env, w, results, n - 1, p);
      FirstIs(env, w, results, n - 1, p);
      TextIs(Fixed(env, w, results, n).files, p);
    }
  }

  lemma NoneYet(env: Env, w: World, results: seq<Result>, p: Path)
    ensures Fixed(env, w, results, 0) == w && !WroteOnce(env, w, results, 0, p) && !TriedTwice(env, w, results, 0, p)
    ensures FirstText(env, w, results, 0, p) == None
  {
  }

  lemma TextIs(files: map<Path, string>, p: Path)
    ensures p in files ==> TextOf(files, p) == files[p]
  {
  }
}
