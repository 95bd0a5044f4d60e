/** What evaluating one rule comes to and what trying to fix one result does, case by case, told
    from the files (internal/doctor/run.go: evaluateTargets; internal/doctor/fix.go: fixable,
    fixOne). */
module FixerSteps {
  import opened Text
  import opened Desired
  import opened Codecs
  import opened Fixer

  // ---- evaluating a rule ----

  /** The file of target i cannot be read, or says something of the key. */
  ghost predicate Decides(env: Env, files: map<Path, string>, rule: Rule, i: nat)
    requires i < |rule.targets|
  {
    var t := rule.targets[i];
    t.path in env.unreadable || (t.path in files && env.codec.get(t.path, files[t.path], t.key) != Absent)
  }

  /** A missing key could be written there. */
  ghost predicate HasRoom(files: map<Path, string>, rule: Rule, i: nat)
    requires i < |rule.targets|
  {
    rule.targets[i].path in files || rule.targets[i].create
  }

  ghost predicate FirstDeciding(env: Env, files: map<Path, string>, rule: Rule, from: nat, i: nat) {
    from <= i < |rule.targets| && Decides(env, files, rule, i) && forall j :: from <= j < i ==> !Decides(env, files, rule, j)
  }

  ghost predicate FirstRoom(files: map<Path, string>, rule: Rule, from: nat, i: nat) {
    from <= i < |rule.targets| && HasRoom(files, rule, i) && forall j :: from <= j < i ==> !HasRoom(files, rule, j)
  }

  ghost predicate NoneDecides(env: Env, files: map<Path, string>, rule: Rule, from: nat) {
    forall i :: from <= i < |rule.targets| ==> !Decides(env, files, rule, i)
  }

  /** What the deciding target says. */
  ghost predicate SaysSo(env: Env, files: map<Path, string>, rule: Rule, i: nat, r: Result)
    requires i < |rule.targets|
  {
    var t := rule.targets[i];
    && r.rule == rule && r.target == Some(t) && !r.fixed
    && if t.path in env.unreadable || (t.path in files && env.codec.get(t.path, files[t.path], t.key) == Unreadable) then r.status == StatusUnreadable
       else
         && t.path in files && env.codec.get(t.path, files[t.path], t.key).Present?
         && r.status == Judge(rule.setting, Some(env.codec.get(t.path, files[t.path], t.key).value.text), env.params)
  }

  lemma {:induction false} EvaluatesFrom(env: Env, files: map<Path, string>, rule: Rule, i: nat, fallback: Option<Target>)
    requires i <= |rule.targets|
    ensures
      var r := EvaluateFrom(env, files, rule, i, fallback);
      && (forall d: nat :: FirstDeciding(env, files, rule, i, d) ==> SaysSo(env, files, rule, d, r))
      && (NoneDecides(env, files, rule, i) ==>
          && r == Result(rule, Judge(rule.setting, None, env.params), r.target, false)
          && (fallback.Some? ==> r.target == fallback)
          && (fallback.None? ==>
              && (forall d: nat :: FirstRoom(files, rule, i, d) ==> r.target == Some(rule.targets[d]))
              && ((forall d: nat :: i <= d < |rule.targets| ==> !HasRoom(files, rule, d)) ==>
                  r.target == if rule.targets == [] then None else Some(rule.targets[0]))))
    decreases |rule.targets| - i
  {
    hide Judge;
    if i < |rule.targets| {
      var t := rule.targets[i];
      var next := if fallback.None? && (t.path in files || t.create) then Some(t) else fallback;
      if !Decides(env, files, rule, i) {
        EvaluatesFrom(env, files, rule, i + 1, next);
        EvaluateNext(env, files, rule, i, fallback);
        Later(env, files, rule, i);
      } else {
        DecidesNow(env, files, rule, i, fallback);
      }
    }
  }

  lemma EvaluateNext(env: Env, files: map<Path, string>, rule: Rule, i: nat, fallback: Option<Target>)
    requires i < |rule.targets| && !Decides(env, files, rule, i)
    ensures
      var t := rule.targets[i];
      var next := if fallback.None? && (t.path in files || t.create) then Some(t) else fallback;
      EvaluateFrom(env, files, rule, i, fallback) == EvaluateFrom(env, files, rule, i + 1, next)
  {
    hide Judge;
  }

  lemma DecidesNow(env: Env, files: map<Path, string>, rule: Rule, i: nat, fallback: Option<Target>)
    requires i < |rule.targets| && Decides(env, files, rule, i)
    ensures SaysSo(env, files, rule, i, EvaluateFrom(env, files, rule, i, fallback))
    ensures forall d :: FirstDeciding(env, files, rule, i, d) ==> d == i
  {
    hide Judge;
  }

  lemma Later(env: Env, files: map<Path, string>, rule: Rule, i: nat)
    requires i < |rule.targets| && !Decides(env, files, rule, i)
    ensures forall d :: FirstDeciding(env, files, rule, i, d) ==> FirstDeciding(env, files, rule, i + 1, d)
    ensures NoneDecides(env, files, rule, i) ==> NoneDecides(env, files, rule, i + 1)
    ensures HasRoom(files, rule, i) ==> forall d :: FirstRoom(files, rule, i, d) ==> d == i
    ensures !HasRoom(files, rule, i) ==> forall d :: FirstRoom(files, rule, i, d) ==> FirstRoom(files, rule, i + 1, d)
  {
    hide Decides, HasRoom;
  }

  /** The first target whose file cannot be read or says something of the key decides; when none
      does, the rule is judged on the manager's default, and its target is the first whose file
      is there or may be created, or else the first. */
  lemma EvaluatesExactly(env: Env, files: map<Path, string>, rule: Rule)
    ensures
      var r := EvaluateRule(env, files, rule);
      && (forall d: nat :: FirstDeciding(env, files, rule, 0, d) ==> SaysSo(env, files, rule, d, r))
      && (NoneDecides(env, files, rule, 0) ==>
          && r == Result(rule, Judge(rule.setting, None, env.params), r.target, false)
          && (forall d: nat :: FirstRoom(files, rule, 0, d) ==> r.target == Some(rule.targets[d]))
          && ((forall d: nat :: d < |rule.targets| ==> !HasRoom(files, rule, d)) ==>
              r.target == if rule.targets == [] then None else Some(rule.targets[0])))
  {
    hide *;
    EvaluatesFrom(env, files, rule, 0, None);
    StartsAtFirst(env, files, rule);
  }

  lemma StartsAtFirst(env: Env, files: map<Path, string>, rule: Rule)
    ensures EvaluateRule(env, files, rule) == EvaluateFrom(env, files, rule, 0, None)
  {
    hide EvaluateFrom;
  }

  // ---- fixing a result ----

  /** A result is fixed when its rule is one that may be, one key of a file of the repository,
      and that key is missing. */
  ghost predicate MayFix(r: Result) {
    && r.rule.fixable && !r.rule.userScope && !r.rule.scans
    && r.status == StatusMissing && r.target.Some?
  }

  /** The file can be opened: it is there, or the rule may create it. */
  ghost predicate Opens(env: Env, w: World, t: Target) {
    t.path !in env.unreadable && (t.path in w.files || t.create)
  }

  /** What the codec makes of the file. */
  ghost function Planned(env: Env, w: World, r: Result): Writing
    requires r.target.Some?
  {
    var t := r.target.value;
    env.codec.set_(t.path, if t.path in w.files then w.files[t.path] else "", t.key, r.rule.want)
  }

  /** Trying one result: it fails when its file cannot be read, when the codec fails and when the
      edit cannot be written; it writes when the codec plans an edit and the file takes it; and
      otherwise nothing is done. A copy is made before the write of a file that was there and
      has none, whether the write then succeeds or not. Nothing else changes. */
  lemma TriesExactly(env: Env, w: World, r: Result)
    ensures
      var (next, outcome) := FixStep(env, w, r);
      && (outcome == Failed <==>
          && MayFix(r)
          && (|| r.target.value.path in env.unreadable
              || (Opens(env, w, r.target.value) && (Planned(env, w, r) == Fails || (Planned(env, w, r).Writes? && r.target.value.path in env.readOnly)))))
      && (outcome == Wrote <==>
          MayFix(r) && Opens(env, w, r.target.value) && Planned(env, w, r).Writes? && r.target.value.path !in env.readOnly)
      && (forall p :: p in next.files <==> p in w.files || (outcome == Wrote && p == r.target.value.path))
      && (forall p :: p in next.files ==>
          next.files[p] == if outcome == Wrote && p == r.target.value.path then Planned(env, w, r).content else w.files[p])
      && (forall p :: p in next.copies <==> p in w.copies || Copies(env, w, r, p))
      && (forall p :: p in next.copies ==> next.copies[p] == if p in w.copies then w.copies[p] else w.files[p])
  {
  }

  ghost predicate Copies(env: Env, w: World, r: Result, p: Path) {
    && env.backup && MayFix(r) && p == r.target.value.path && p in w.files && p !in w.copies
    && p !in env.unreadable && Planned(env, w, r).Writes?
  }
}
