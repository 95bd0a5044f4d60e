/** The runner that files what the checks return (internal/checks/runner.go: evaluate,
    runOne, skipAll, applicable, markFirstInFile, finish). */
module Runner {
  import opened Text
  import opened Names

  datatype Check = Check(id: string, name: string, ecosystems: seq<string>, lockOnly: bool)

  datatype Finding = Finding(id: string, title: string)

  datatype Skipped = Skipped(check: string, reason: string)

  /** What running a check came to: its findings, or why it has none to give; unavailable
      says data was missing, unfinished that the check did not return in time. */
  datatype Result =
    | Ran(findings: seq<Finding>)
    | Skip(reason: string, unavailable: bool, unfinished: bool)

  /** One subject: its ecosystem, the checks whose level is off, the checks an active allow
      entry covers, the titles its expired entries are reported under, and what each check
      would return. */
  datatype Subject = Subject(
    eco: string, off: set<string>, allowed: set<string>, cooldownExcluded: bool,
    expiredAllows: seq<string>, returns_: map<string, Result>)

  const COOLDOWN_EXCLUDED_CHECK := "young-version"

  const EXPIRED_ALLOW_ID := "TD000"

  function ResultOf(s: Subject, c: Check): Result {
    if c.id in s.returns_ then s.returns_[c.id] else Ran([])
  }

  /** expiredAllows: a finding for every expired entry, under an id of its own. */
  function Expired(s: Subject): (fs: seq<Finding>)
    ensures |fs| == |s.expiredAllows|
    ensures forall f :: f in fs ==> f.id == EXPIRED_ALLOW_ID
  {
    seq(|s.expiredAllows|, i requires 0 <= i < |s.expiredAllows| => Finding(EXPIRED_ALLOW_ID, s.expiredAllows[i]))
  }

  // ---- which checks apply ----

  /** AppliesTo. */
  predicate AppliesTo(c: Check, eco: string) {
    c.ecosystems == [] || eco in c.ecosystems
  }

  predicate Wanted(c: Check, s: Subject) {
    AppliesTo(c, s.eco) && c.name !in s.off
  }

  function WantedOf(checks: seq<Check>, s: Subject): seq<Check> {
    if checks == [] then []
    else WantedOf(checks[..|checks| - 1], s) + if Wanted(checks[|checks| - 1], s) then [checks[|checks| - 1]] else []
  }

  function InsertCheck(c: Check, cs: seq<Check>): seq<Check> {
    if cs == [] || !Less(cs[0].id, c.id) then [c] + cs else [cs[0]] + InsertCheck(c, cs[1..])
  }

  /** slices.SortStableFunc by id. */
  function SortChecks(cs: seq<Check>): seq<Check> {
    if cs == [] then [] else InsertCheck(cs[0], SortChecks(cs[1..]))
  }

  lemma {:induction false} InsertCheckKeeps(c: Check, cs: seq<Check>)
    ensures multiset(InsertCheck(c, cs)) == multiset(cs) + multiset{c}
  {
    if cs != [] && Less(cs[0].id, c.id) {
      InsertCheckKeeps(c, cs[1..]);
      assert cs == [cs[0]] + cs[1..];
    }
  }

  lemma {:induction false} SortChecksKeeps(cs: seq<Check>)
    ensures multiset(SortChecks(cs)) == multiset(cs)
  {
    if cs != [] {
      SortChecksKeeps(cs[1..]);
      InsertCheckKeeps(cs[0], SortChecks(cs[1..]));
      assert cs == [cs[0]] + cs[1..];
    }
  }

  /** applicable. */
  method Applicable(checks: seq<Check>, s: Subject) returns (out: seq<Check>)
    ensures out == SortChecks(WantedOf(checks, s))
  {
    hide Wanted, SortChecks;
    out := [];
    for i := 0 to |checks|
      invariant out == WantedOf(checks[..i], s)
    {
      assert checks[..i + 1][..i] == checks[..i];
      var c := checks[i];
      WantedMeans(c, s);
      if !AppliesTo(c, s.eco) {
        continue;
      }
      if c.name in s.off {
        continue;
      }
      out := out + [c];
    }
    assert checks[..|checks|] == checks;
    out := SortChecks(out);
  }

  lemma WantedMeans(c: Check, s: Subject)
    ensures Wanted(c, s) <==> AppliesTo(c, s.eco) && c.name !in s.off
  {
  }

  // ---- what is filed ----

  function Ids(cs: seq<Check>): seq<string> {
    if cs == [] then [] else Ids(cs[..|cs| - 1]) + [cs[|cs| - 1].id]
  }

  function SkippedIds(ss: seq<Skipped>): seq<string> {
    if ss == [] then [] else SkippedIds(ss[..|ss| - 1]) + [ss[|ss| - 1].check]
  }

  lemma SkippedSnoc(ss: seq<Skipped>, s: Skipped)
    ensures SkippedIds(ss + [s]) == SkippedIds(ss) + [s.check]
  {
    assert (ss + [s])[..|ss|] == ss;
  }

  lemma IdsSnoc(cs: seq<Check>, c: Check)
    ensures Ids(cs + [c]) == Ids(cs) + [c.id]
  {
    assert (cs + [c])[..|cs|] == cs;
  }

  predicate PartAt(text: string, part: string, i: nat) {
    i + |part| <= |text| && text[i..i + |part|] == part
  }

  /** strings.Contains. */
  predicate Contains(text: string, part: string) {
    exists i :: 0 <= i <= |text| && PartAt(text, part, i)
  }

  predicate Named(reason: string, outages: seq<string>) {
    exists o :: o in outages && Contains(reason, o)
  }

  /** namesOutage. */
  method NamesOutage(reason: string, outages: seq<string>) returns (named: bool)
    ensures named <==> Named(reason, outages)
  {
    hide Contains;
    for i := 0 to |outages|
      invariant forall k :: 0 <= k < i ==> !Contains(reason, outages[k])
    {
      if Contains(reason, outages[i]) {
        return true;
      }
    }
    named := false;
  }

  /** What an outcome holds of a subject's checks. */
  datatype Filing = Filing(evaluated: seq<string>, skipped: seq<Skipped>, findings: seq<Finding>, unavailable: bool)

  function Both(a: Filing, b: Filing): Filing {
    Filing(a.evaluated + b.evaluated, a.skipped + b.skipped, a.findings + b.findings, a.unavailable || b.unavailable)
  }

  const NOTHING := Filing([], [], [], false)

  /** A check that reads counts while it runs, and is not run under an allow entry. */
  predicate SettledByAllow(s: Subject, c: Check) {
    (c.id == "TD008" || c.id == "TD012") && c.name in s.allowed
  }

  /** How one check is filed. */
  function FileOne(s: Subject, c: Check, outages: seq<string>): Filing {
    if SettledByAllow(s, c) then Filing([], [Skipped(c.id, "excluded by allow entry")], [], false)
    else match ResultOf(s, c)
      case Skip(reason, unavailable, unfinished) =>
        Filing([], [Skipped(c.id, reason)], [], unfinished || unavailable || Named(reason, outages))
      case Ran(findings) => Filing([c.id], [], if c.name in s.allowed then [] else findings, false)
  }

  predicate InCooldown(s: Subject, c: Check) {
    c.name == COOLDOWN_EXCLUDED_CHECK && s.cooldownExcluded
  }

  /** How the checks of a subject that was loaded are filed. */
  function FileLoaded(s: Subject, cs: seq<Check>, outages: seq<string>): Filing {
    if cs == [] then NOTHING
    else
      var c := cs[|cs| - 1];
      Both(FileLoaded(s, cs[..|cs| - 1], outages),
           if InCooldown(s, c) then Filing([], [Skipped(c.id, "excluded by cooldown_exclude")], [], false)
           else FileOne(s, c, outages))
  }

  /** How the checks of a subject nothing could be loaded for are filed. */
  function FileUnloaded(s: Subject, cs: seq<Check>, reason: string): Filing {
    if cs == [] then NOTHING
    else
      var c := cs[|cs| - 1];
      Both(FileUnloaded(s, cs[..|cs| - 1], reason),
           if c.lockOnly then FileOne(s, c, []) else Filing([], [Skipped(c.id, reason)], [], false))
  }

  predicate SomeNeedData(cs: seq<Check>) {
    exists c :: c in cs && !c.lockOnly
  }

  /** What evaluate files, before it is put in order, with what loading came to: a reason
      to skip every check that needs data, or the data. */
  function FileSubject(s: Subject, cs: seq<Check>, skip: string, missing: bool, outages: seq<string>): Filing {
    if skip != [] then FileUnloaded(s, cs, skip).(unavailable := missing && SomeNeedData(cs))
    else
      var f := FileLoaded(s, cs, outages);
      f.(findings := Expired(s) + f.findings)
  }

  function InOrder(f: Filing): Filing {
    Filing(Sorted(f.evaluated), SortSkipped(f.skipped), SortFindings(f.findings), f.unavailable)
  }

  class Outcome {
    var evaluated: seq<string>
    var skipped: seq<Skipped>
    var findings: seq<Finding>
    var unavailable: bool

    constructor ()
      ensures Filed() == NOTHING
    {
      evaluated, skipped, findings, unavailable := [], [], [], false;
    }

    ghost function Filed(): Filing
      reads this
    {
      Filing(evaluated, skipped, findings, unavailable)
    }

    /** runOne. */
    method RunOne(s: Subject, c: Check, outages: seq<string>)
      modifies this
      ensures Filed() == Both(old(Filed()), FileOne(s, c, outages))
    {
      hide Named, ResultOf;
      if (c.id == "TD008" || c.id == "TD012") && c.name in s.allowed {
        skipped := skipped + [Skipped(c.id, "excluded by allow entry")];
        return;
      }
      var result := ResultOf(s, c);
      if result.Skip? {
        skipped := skipped + [Skipped(c.id, result.reason)];
        var named := NamesOutage(result.reason, outages);
        if result.unfinished || result.unavailable || named {
          unavailable := true;
        }
        return;
      }
      evaluated := evaluated + [c.id];
      if |result.findings| == 0 {
        return;
      }
      if c.name in s.allowed {
        return;
      }
      findings := findings + result.findings;
    }

    /** skipAll: the checks that read the lockfile entry alone run, every other one is
        skipped with the one reason. */
    method SkipAll(s: Subject, applicable: seq<Check>, reason: string, missing: bool)
      requires Filed() == NOTHING
      modifies this
      ensures Filed() == InOrder(FileUnloaded(s, applicable, reason).(unavailable := missing && SomeNeedData(applicable)))
    {
      hide FileOne, InOrder;
      var count := 0;
      for i := 0 to |applicable|
        invariant Filed() == FileUnloaded(s, applicable[..i], reason)
        invariant count > 0 <==> SomeNeedData(applicable[..i])
        invariant count >= 0
      {
        var c := applicable[i];
        assert applicable[..i + 1] == applicable[..i] + [c];
        assert applicable[..i + 1][..i] == applicable[..i];
        if c.lockOnly {
          RunOne(s, c, []);
          continue;
        }
        skipped := skipped + [Skipped(c.id, reason)];
        count := count + 1;
      }
      assert applicable[..|applicable|] == applicable;
      unavailable := missing && count > 0;
      Finish();
    }

    /** finish. */
    method Finish()
      modifies this
      ensures Filed() == InOrder(old(Filed()))
    {
      evaluated := Sorted(evaluated);
      skipped := SortSkipped(skipped);
      findings := SortFindings(findings);
    }

    /** evaluate, with what loading the subject came to. */
    method Evaluate(s: Subject, checks: seq<Check>, skip: string, missing: bool, outages: seq<string>)
      requires Filed() == NOTHING
      modifies this
      ensures Filed() == InOrder(FileSubject(s, SortChecks(WantedOf(checks, s)), skip, missing, outages))
    {
      hide *;
      var applicable := Applicable(checks, s);
      SubjectParts(s, applicable, skip, missing, outages);
      if skip != [] {
        SkipAll(s, applicable, skip, missing);
        return;
      }
      RunLoaded(s, applicable, outages);
      Finish();
    }

    /** The part of evaluate behind a successful load. */
    method RunLoaded(s: Subject, applicable: seq<Check>, outages: seq<string>)
      requires Filed() == NOTHING
      modifies this
      ensures
        var f := FileLoaded(s, applicable, outages);
        Filed() == f.(findings := Expired(s) + f.findings)
    {
      hide FileOne;
      findings := findings + Expired(s);
      for i := 0 to |applicable|
        invariant Filed() == Both(NOTHING.(findings := Expired(s)), FileLoaded(s, applicable[..i], outages))
      {
        var c := applicable[i];
        assert applicable[..i + 1] == applicable[..i] + [c];
        assert applicable[..i + 1][..i] == applicable[..i];
        if c.name == COOLDOWN_EXCLUDED_CHECK && s.cooldownExcluded {
          skipped := skipped + [Skipped(c.id, "excluded by cooldown_exclude")];
          continue;
        }
        RunOne(s, c, outages);
      }
      assert applicable[..|applicable|] == applicable;
      ExpiredFirst(s, FileLoaded(s, applicable, outages));
    }
  }

  lemma SubjectParts(s: Subject, cs: seq<Check>, skip: string, missing: bool, outages: seq<string>)
    ensures skip != [] ==>
              FileSubject(s, cs, skip, missing, outages) == FileUnloaded(s, cs, skip).(unavailable := missing && SomeNeedData(cs))
    ensures skip == [] ==>
              var f := FileLoaded(s, cs, outages);
              FileSubject(s, cs, skip, missing, outages) == f.(findings := Expired(s) + f.findings)
  {
    hide FileLoaded, FileUnloaded, SomeNeedData;
  }

  lemma ExpiredFirst(s: Subject, f: Filing)
    ensures Both(NOTHING.(findings := Expired(s)), f) == f.(findings := Expired(s) + f.findings)
  {
    assert [] + f.evaluated == f.evaluated && [] + f.skipped == f.skipped;
  }

  // ---- what that comes to ----

  /** A check's own result is asked for: it is not excluded by the cooldown, not settled by
      an allow entry, and on the path where nothing was loaded it needs nothing loaded. */
  predicate Asked(s: Subject, c: Check, skip: string) {
    !SettledByAllow(s, c) && (if skip != [] then c.lockOnly else !InCooldown(s, c))
  }

  predicate Evaluated(s: Subject, c: Check, skip: string) {
    Asked(s, c, skip) && ResultOf(s, c).Ran?
  }

  /** A finding of a check that ran and that no active allow entry covers. */
  ghost predicate Earned(f: Finding, cs: seq<Check>, s: Subject, skip: string) {
    exists c :: c in cs && Evaluated(s, c, skip) && c.name !in s.allowed && f in ResultOf(s, c).findings
  }

  /** The part of the filing that comes of the checks. */
  function FileEach(s: Subject, cs: seq<Check>, skip: string, outages: seq<string>): Filing {
    if skip != [] then FileUnloaded(s, cs, skip) else FileLoaded(s, cs, outages)
  }

  /** How one check of them is filed. */
  function FileThis(s: Subject, c: Check, skip: string, outages: seq<string>): Filing {
    if skip != [] then
      if c.lockOnly then FileOne(s, c, []) else Filing([], [Skipped(c.id, skip)], [], false)
    else if InCooldown(s, c) then Filing([], [Skipped(c.id, "excluded by cooldown_exclude")], [], false)
    else FileOne(s, c, outages)
  }

  lemma EachStep(s: Subject, cs: seq<Check>, skip: string, outages: seq<string>)
    requires cs != []
    ensures
      var n := |cs| - 1;
      FileEach(s, cs, skip, outages) == Both(FileEach(s, cs[..n], skip, outages), FileThis(s, cs[n], skip, outages))
  {
    hide FileOne, Both;
  }

  /** One check is filed as evaluated when it ran, and as skipped otherwise; its findings
      are filed when it ran and no active allow entry covers it. */
  lemma ThisMeans(s: Subject, c: Check, skip: string, outages: seq<string>)
    ensures
      var f := FileThis(s, c, skip, outages);
      && (Evaluated(s, c, skip) ==> f.evaluated == [c.id] && f.skipped == [])
      && (!Evaluated(s, c, skip) ==> f.evaluated == [] && |f.skipped| == 1 && f.skipped[0].check == c.id)
      && f.findings == if Evaluated(s, c, skip) && c.name !in s.allowed then ResultOf(s, c).findings else []
  {
    hide Named, ResultOf;
  }

  function EvaluatedOf(s: Subject, cs: seq<Check>, skip: string): seq<Check> {
    if cs == [] then []
    else EvaluatedOf(s, cs[..|cs| - 1], skip) + if Evaluated(s, cs[|cs| - 1], skip) then [cs[|cs| - 1]] else []
  }

  /** The ids filed as evaluated are those of the checks that ran, and with the ones filed
      as skipped they are those of all checks, in order. */
  lemma {:induction false} EachIsFiled(s: Subject, cs: seq<Check>, skip: string, outages: seq<string>)
    ensures
      var f := FileEach(s, cs, skip, outages);
      && f.evaluated == Ids(EvaluatedOf(s, cs, skip))
      && multiset(f.evaluated) + multiset(SkippedIds(f.skipped)) == multiset(Ids(cs))
  {
    hide Evaluated, FileThis, FileEach, SkippedIds, Ids;
    NoneFiled();
    if cs == [] {
      NoneEach(s, skip, outages);
    } else {
      var n := |cs| - 1;
      EachIsFiled(s, cs[..n], skip, outages);
      EachStep(s, cs, skip, outages);
      ThisMeans(s, cs[n], skip, outages);
      assert cs == cs[..n] + [cs[n]];
      IdsSnoc(cs[..n], cs[n]);
      var f, g := FileEach(s, cs[..n], skip, outages), FileThis(s, cs[n], skip, outages);
      if Evaluated(s, cs[n], skip) {
        IdsSnoc(EvaluatedOf(s, cs[..n], skip), cs[n]);
        assert f.skipped + g.skipped == f.skipped;
      } else {
        assert g.skipped == [g.skipped[0]];
        SkippedSnoc(f.skipped, g.skipped[0]);
        assert f.evaluated + g.evaluated == f.evaluated;
        assert EvaluatedOf(s, cs[..n], skip) + [] == EvaluatedOf(s, cs[..n], skip);
        assert EvaluatedOf(s, cs, skip) == EvaluatedOf(s, cs[..n], skip);
      }
    }
  }

  lemma NoneEach(s: Subject, skip: string, outages: seq<string>)
    ensures FileEach(s, [], skip, outages) == NOTHING
  {
  }

  lemma NoneFiled()
    ensures Ids([]) == [] && SkippedIds([]) == []
  {
  }

  /** The findings are those of the checks that ran under no active allow entry, all of
      them and no other. */
  lemma {:induction false} FindingsAreEarned(s: Subject, cs: seq<Check>, skip: string, outages: seq<string>)
    ensures forall f :: f in FileEach(s, cs, skip, outages).findings <==> Earned(f, cs, s, skip)
  {
    hide Evaluated, FileThis, FileEach, ResultOf;
    if cs == [] {
      NoneEach(s, skip, outages);
    } else {
      var n := |cs| - 1;
      FindingsAreEarned(s, cs[..n], skip, outages);
      EachStep(s, cs, skip, outages);
      ThisMeans(s, cs[n], skip, outages);
      forall f ensures Earned(f, cs, s, skip) <==>
                       Earned(f, cs[..n], s, skip) || f in FileThis(s, cs[n], skip, outages).findings
      {
        EarnedStep(f, s, cs, skip);
      }
    }
  }

  lemma EarnedStep(f: Finding, s: Subject, cs: seq<Check>, skip: string)
    requires cs != []
    ensures
      var n := |cs| - 1;
      Earned(f, cs, s, skip) <==>
      Earned(f, cs[..n], s, skip) || (Evaluated(s, cs[n], skip) && cs[n].name !in s.allowed && f in ResultOf(s, cs[n]).findings)
  {
    hide Asked, ResultOf;
    var n := |cs| - 1;
    if Earned(f, cs, s, skip) {
      var c :| c in cs && Evaluated(s, c, skip) && c.name !in s.allowed && f in ResultOf(s, c).findings;
      assert c == cs[n] || c in cs[..n];
    }
    assert cs[n] in cs && forall c :: c in cs[..n] ==> c in cs;
  }

  /** What evaluate leaves: every applicable check filed exactly once, as evaluated when it
      ran and as skipped when it did not; the findings of the expired allow entries and of
      the checks that ran under no active one, all of them and no other. */
  lemma EvaluateMeans(s: Subject, checks: seq<Check>, skip: string, missing: bool, outages: seq<string>)
    ensures
      var out := InOrder(FileSubject(s, SortChecks(WantedOf(checks, s)), skip, missing, outages));
      && multiset(out.evaluated) + multiset(SkippedIds(out.skipped)) == multiset(Ids(WantedOf(checks, s)))
      && (forall id :: id in out.evaluated <==> exists c :: c in WantedOf(checks, s) && c.id == id && Evaluated(s, c, skip))
      && Ascending(out.evaluated)
      && (forall f :: f in out.findings <==> Earned(f, WantedOf(checks, s), s, skip) || (skip == [] && f in Expired(s)))
      && (out.unavailable <==> Lacking(s, WantedOf(checks, s), skip, missing, outages))
  {
    hide *;
    var w := WantedOf(checks, s);
    var cs := SortChecks(w);
    SortChecksKeeps(w);
    IdsPermute(cs, w);
    SameChecks(cs, w);
    EachIsFiled(s, cs, skip, outages);
    FindingsAreEarned(s, cs, skip, outages);
    SubjectIs(s, cs, skip, missing, outages);
    var f := FileSubject(s, cs, skip, missing, outages);
    InOrderKeeps(f);
    forall id ensures id in f.evaluated <==> exists c :: c in w && c.id == id && Evaluated(s, c, skip) {
      IdsIn(EvaluatedOf(s, cs, skip), id);
      forall c ensures c in EvaluatedOf(s, cs, skip) <==> c in cs && Evaluated(s, c, skip) {
        EvaluatedIn(s, cs, skip, c);
      }
    }
    forall g ensures Earned(g, cs, s, skip) <==> Earned(g, w, s, skip) { EarnedSame(g, cs, w, s, skip); }
    UnavailableMeans(s, cs, skip, missing, outages);
    LackingSame(cs, w, s, skip, missing, outages);
  }

  /** A check says that data it needed was not there. */
  predicate Marks(s: Subject, c: Check, skip: string, outages: seq<string>) {
    FileThis(s, c, skip, outages).unavailable
  }

  /** When the outcome counts as unavailable: where the data was there to load, when a check
      that was asked says so; where it was not, when it is missing and a check needed it. */
  ghost predicate Lacking(s: Subject, cs: seq<Check>, skip: string, missing: bool, outages: seq<string>) {
    if skip != [] then missing && SomeNeedData(cs)
    else exists c :: c in cs && !InCooldown(s, c) && FileOne(s, c, outages).unavailable
  }

  lemma LackingSame(a: seq<Check>, b: seq<Check>, s: Subject, skip: string, missing: bool, outages: seq<string>)
    requires forall c :: c in a <==> c in b
    ensures Lacking(s, a, skip, missing, outages) <==> Lacking(s, b, skip, missing, outages)
  {
    hide InCooldown, FileOne;
  }

  lemma {:induction false} LoadedMarks(s: Subject, cs: seq<Check>, outages: seq<string>)
    ensures FileLoaded(s, cs, outages).unavailable <==>
            exists c :: c in cs && !InCooldown(s, c) && FileOne(s, c, outages).unavailable
  {
    hide InCooldown, FileOne;
    if cs != [] {
      var n := |cs| - 1;
      LoadedMarks(s, cs[..n], outages);
      assert cs == cs[..n] + [cs[n]];
      if c :| c in cs && !InCooldown(s, c) && FileOne(s, c, outages).unavailable {
        assert c in cs[..n] || c == cs[n];
      }
      if !InCooldown(s, cs[n]) && FileOne(s, cs[n], outages).unavailable { assert cs[n] in cs; }
      if c :| c in cs[..n] && !InCooldown(s, c) && FileOne(s, c, outages).unavailable { assert c in cs; }
    }
  }

  /** When a subject's outcome counts as unavailable, exactly. */
  lemma UnavailableMeans(s: Subject, cs: seq<Check>, skip: string, missing: bool, outages: seq<string>)
    ensures FileSubject(s, cs, skip, missing, outages).unavailable <==> Lacking(s, cs, skip, missing, outages)
  {
    hide FileLoaded, FileUnloaded, SomeNeedData, FileOne, InCooldown;
    LoadedMarks(s, cs, outages);
  }

  /** Some check of the lockfile alone did not finish, or could not read what it asked. */
  ghost predicate LockMarks(s: Subject, cs: seq<Check>) {
    exists c :: c in cs && c.lockOnly && FileOne(s, c, []).unavailable
  }

  /** The mark of every check that ran reaches the outcome exactly when the data could be
      loaded, or was missing for a check that needed it, or no check of the lockfile alone
      set one: what skipAll concludes stands in the place of what those checks said. */
  lemma MarksSurvive(s: Subject, cs: seq<Check>, skip: string, missing: bool, outages: seq<string>)
    ensures (forall c :: c in cs && Marks(s, c, skip, outages) ==> FileSubject(s, cs, skip, missing, outages).unavailable)
            <==> skip == [] || (missing && SomeNeedData(cs)) || !LockMarks(s, cs)
  {
    hide FileSubject, SomeNeedData, FileOne, InCooldown;
    UnavailableMeans(s, cs, skip, missing, outages);
    if LockMarks(s, cs) && skip != [] {
      var c :| c in cs && c.lockOnly && FileOne(s, c, []).unavailable;
      assert Marks(s, c, skip, outages);
    }
  }

  lemma SameChecks(a: seq<Check>, b: seq<Check>)
    requires multiset(a) == multiset(b)
    ensures forall c :: c in a <==> c in b
  {
    assert forall c :: c in a <==> c in multiset(a);
    assert forall c :: c in b <==> c in multiset(b);
  }

  lemma EarnedSame(f: Finding, a: seq<Check>, b: seq<Check>, s: Subject, skip: string)
    requires forall c :: c in a <==> c in b
    ensures Earned(f, a, s, skip) <==> Earned(f, b, s, skip)
  {
    hide Evaluated, ResultOf;
  }

  lemma SubjectIs(s: Subject, cs: seq<Check>, skip: string, missing: bool, outages: seq<string>)
    ensures
      var f, e := FileSubject(s, cs, skip, missing, outages), FileEach(s, cs, skip, outages);
      && f.evaluated == e.evaluated && f.skipped == e.skipped
      && forall g :: g in f.findings <==> g in e.findings || (skip == [] && g in Expired(s))
  {
    hide FileLoaded, FileUnloaded, SomeNeedData;
  }

  lemma InOrderKeeps(f: Filing)
    ensures
      var g := InOrder(f);
      && multiset(g.evaluated) == multiset(f.evaluated) && Ascending(g.evaluated)
      && multiset(SkippedIds(g.skipped)) == multiset(SkippedIds(f.skipped))
      && (forall id :: id in g.evaluated <==> id in f.evaluated)
      && (forall x :: x in g.findings <==> x in f.findings)
      && g.unavailable == f.unavailable
  {
    SortedSorts(f.evaluated);
    SortSkippedKeeps(f.skipped);
    SortFindingsKeeps(f.findings);
    hide Sorted, SortSkipped, SortFindings, Ascending, SkippedIds;
    var g := InOrder(f);
    assert forall id :: id in g.evaluated <==> id in multiset(g.evaluated);
    assert forall id :: id in f.evaluated <==> id in multiset(f.evaluated);
    assert forall x :: x in g.findings <==> x in multiset(g.findings);
    assert forall x :: x in f.findings <==> x in multiset(f.findings);
  }

  lemma {:induction false} IdsIn(cs: seq<Check>, id: string)
    ensures id in Ids(cs) <==> exists c :: c in cs && c.id == id
  {
    if cs != [] {
      var n := |cs| - 1;
      IdsIn(cs[..n], id);
      hide Ids;
      IdsSnoc(cs[..n], cs[n]);
      assert cs == cs[..n] + [cs[n]];
      if c :| c in cs[..n] && c.id == id { assert c in cs; }
      if c :| c in cs && c.id == id { assert c in cs[..n] || c == cs[n]; }
    }
  }

  lemma {:induction false} EvaluatedIn(s: Subject, cs: seq<Check>, skip: string, c: Check)
    ensures c in EvaluatedOf(s, cs, skip) <==> c in cs && Evaluated(s, c, skip)
  {
    hide Evaluated;
    if cs != [] {
      var n := |cs| - 1;
      EvaluatedIn(s, cs[..n], skip, c);
      assert cs == cs[..n] + [cs[n]];
    }
  }

  // ---- the fate of one check ----

  /** A check of the registry that applies to the subject's ecosystem and is not off. */
  predicate Registered(s: Subject, checks: seq<Check>, c: Check) {
    c in checks && (|c.ecosystems| == 0 || s.eco in c.ecosystems) && !(c.name in s.off)
  }

  /** The check is started: where the data was loaded, every check but young-version for a
      package cooldown_exclude names; where it was not, those of the lockfile entry alone;
      and never one of the two that count requests, under an active allow entry. */
  predicate Started(s: Subject, c: Check, skip: string) {
    && (|skip| > 0 ==> c.lockOnly)
    && (|skip| == 0 ==> c.name != "young-version" || !s.cooldownExcluded)
    && (c.id in {"TD008", "TD012"} ==> c.name !in s.allowed)
  }

  lemma StartedMeans(s: Subject, c: Check, skip: string)
    ensures Started(s, c, skip) <==> Asked(s, c, skip)
    ensures Evaluated(s, c, skip) <==> Started(s, c, skip) && ResultOf(s, c).Ran?
  {
  }

  lemma RegisteredMeans(s: Subject, checks: seq<Check>, c: Check)
    ensures Registered(s, checks, c) <==> c in WantedOf(checks, s)
  {
    WantedIn(checks, s, c);
  }

  /** What a check comes to in the outcome of its subject. One that is started and ran is
      evaluated, and all its findings are reported unless an active allow entry covers it;
      one that had nothing to say is skipped with its own reason. Of those not started,
      young-version is skipped for cooldown_exclude, one under an allow entry for that, and
      one that needs data where none was loaded with the reason there is none. */
  lemma EachFate(s: Subject, checks: seq<Check>, skip: string, missing: bool, outages: seq<string>, c: Check)
    requires Registered(s, checks, c)
    ensures
      var out := InOrder(FileSubject(s, SortChecks(WantedOf(checks, s)), skip, missing, outages));
      && (Started(s, c, skip) && ResultOf(s, c).Ran? ==> c.id in out.evaluated)
      && (Started(s, c, skip) && ResultOf(s, c).Ran? && c.name !in s.allowed ==> forall f :: f in ResultOf(s, c).findings ==> f in out.findings)
      && (Started(s, c, skip) && ResultOf(s, c).Skip? ==> Skipped(c.id, ResultOf(s, c).reason) in out.skipped)
      && (|skip| == 0 && c.name == "young-version" && s.cooldownExcluded ==> Skipped(c.id, "excluded by cooldown_exclude") in out.skipped)
      && (|skip| > 0 && !c.lockOnly ==> Skipped(c.id, skip) in out.skipped)
      && (c.id in {"TD008", "TD012"} && c.name in s.allowed && Started(s, c.(id := ""), skip) ==>
          Skipped(c.id, "excluded by allow entry") in out.skipped)
  {
    hide *;
    EvaluateMeans(s, checks, skip, missing, outages);
    RegisteredMeans(s, checks, c);
    StartedMeans(s, c, skip);
    var w := WantedOf(checks, s);
    var cs := SortChecks(w);
    SortChecksKeeps(w);
    SameChecks(cs, w);
    SkippedAll(s, cs, skip, missing, outages, c);
    if Evaluated(s, c, skip) && c.name !in s.allowed { EarnedOf(s, w, skip, c); }
    ThisSkips(s, c, skip, outages);
  }

  lemma EarnedOf(s: Subject, cs: seq<Check>, skip: string, c: Check)
    requires c in cs && Evaluated(s, c, skip) && c.name !in s.allowed
    ensures ResultOf(s, c).Ran? && forall f :: f in ResultOf(s, c).findings ==> Earned(f, cs, s, skip)
  {
    hide Asked, ResultOf;
  }

  lemma ThisSkips(s: Subject, c: Check, skip: string, outages: seq<string>)
    ensures
      var f := FileThis(s, c, skip, outages);
      && (Started(s, c, skip) && ResultOf(s, c).Skip? ==> f.skipped == [Skipped(c.id, ResultOf(s, c).reason)])
      && (|skip| == 0 && c.name == "young-version" && s.cooldownExcluded ==> f.skipped == [Skipped(c.id, "excluded by cooldown_exclude")])
      && (|skip| > 0 && !c.lockOnly ==> f.skipped == [Skipped(c.id, skip)])
      && (c.id in {"TD008", "TD012"} && c.name in s.allowed && Started(s, c.(id := ""), skip) ==>
          f.skipped == [Skipped(c.id, "excluded by allow entry")])
  {
    hide ResultOf, Named;
  }

  /** What one check is skipped with reaches the outcome. */
  lemma SkippedAll(s: Subject, cs: seq<Check>, skip: string, missing: bool, outages: seq<string>, c: Check)
    requires c in cs
    ensures forall x :: x in FileThis(s, c, skip, outages).skipped ==> x in InOrder(FileSubject(s, cs, skip, missing, outages)).skipped
  {
    hide *;
    SkippedEach(s, cs, skip, outages, c);
    SubjectIs(s, cs, skip, missing, outages);
    SkippedInOrder(FileSubject(s, cs, skip, missing, outages));
  }

  lemma {:induction false} SkippedEach(s: Subject, cs: seq<Check>, skip: string, outages: seq<string>, c: Check)
    requires c in cs
    ensures forall x :: x in FileThis(s, c, skip, outages).skipped ==> x in FileEach(s, cs, skip, outages).skipped
  {
    hide FileThis, FileEach;
    var n := |cs| - 1;
    EachStep(s, cs, skip, outages);
    if c != cs[n] {
      assert c in cs[..n];
      SkippedEach(s, cs[..n], skip, outages, c);
    }
  }

  lemma SkippedInOrder(f: Filing)
    ensures forall x :: x in InOrder(f).skipped <==> x in f.skipped
    ensures Ascending(InOrder(f).evaluated) && SkippedAscend(InOrder(f).skipped) && FindingsAscend(InOrder(f).findings)
    ensures forall id, title :: Alike(InOrder(f).findings, id, title) == Alike(f.findings, id, title)
  {
    SortSkippedSorts(f.skipped);
    SortFindingsSorts(f.findings);
    SortedSorts(f.evaluated);
    forall id, title ensures Alike(SortFindings(f.findings), id, title) == Alike(f.findings, id, title) {
      SortFindingsStable(f.findings, id, title);
    }
    hide SortSkipped, SortFindings, Sorted, Less, Alike;
    assert forall x :: x in SortSkipped(f.skipped) <==> x in multiset(SortSkipped(f.skipped));
    assert forall x :: x in f.skipped <==> x in multiset(f.skipped);
  }

  /** Nothing else is reported: a finding is one of an expired allow entry, where the data
      was loaded, or of a registered check that was started, ran, and is under no active
      entry. */
  lemma FindingsExactly(s: Subject, checks: seq<Check>, skip: string, missing: bool, outages: seq<string>, f: Finding)
    ensures
      f in InOrder(FileSubject(s, SortChecks(WantedOf(checks, s)), skip, missing, outages)).findings <==>
      || (|skip| == 0 && f.id == "TD000" && f.title in s.expiredAllows)
      || exists c :: Registered(s, checks, c) && Started(s, c, skip) && c.name !in s.allowed
              && c.id in s.returns_ && s.returns_[c.id].Ran? && f in s.returns_[c.id].findings
  {
    hide *;
    EvaluateMeans(s, checks, skip, missing, outages);
    ExpiredMeans(s, f);
    EarnedMeans(f, s, checks, skip);
  }

  lemma ExpiredMeans(s: Subject, f: Finding)
    ensures f in Expired(s) <==> f.id == "TD000" && f.title in s.expiredAllows
  {
    if f.id == "TD000" && f.title in s.expiredAllows {
      var i :| 0 <= i < |s.expiredAllows| && s.expiredAllows[i] == f.title;
      assert Expired(s)[i] == f;
    }
  }

  lemma EarnedMeans(f: Finding, s: Subject, checks: seq<Check>, skip: string)
    ensures
      Earned(f, WantedOf(checks, s), s, skip) <==>
      exists c :: Registered(s, checks, c) && Started(s, c, skip) && c.name !in s.allowed
           && c.id in s.returns_ && s.returns_[c.id].Ran? && f in s.returns_[c.id].findings
  {
    forall c
      ensures Registered(s, checks, c) <==> c in WantedOf(checks, s)
      ensures Evaluated(s, c, skip) && f in ResultOf(s, c).findings <==>
              Started(s, c, skip) && c.id in s.returns_ && s.returns_[c.id].Ran? && f in s.returns_[c.id].findings
    {
      RegisteredMeans(s, checks, c);
      StartedMeans(s, c, skip);
    }
    hide Registered, Started, Evaluated, ResultOf, WantedOf;
  }

  /** The reason carries the wording of an outage somewhere. */
  ghost predicate Words(reason: string, outages: seq<string>) {
    exists i, j, o :: 0 <= i <= j <= |reason| && 0 <= o < |outages| && reason[i..j] == outages[o]
  }

  lemma WordsMeans(reason: string, outages: seq<string>)
    ensures Words(reason, outages) <==> Named(reason, outages)
  {
    if i, j, o :| 0 <= i <= j <= |reason| && 0 <= o < |outages| && reason[i..j] == outages[o] {
      assert PartAt(reason, outages[o], i);
      assert outages[o] in outages;
    }
    if o :| o in outages && Contains(reason, o) {
      var i :| 0 <= i <= |reason| && PartAt(reason, o, i);
      var n :| 0 <= n < |outages| && outages[n] == o;
      assert reason[i..i + |o|] == outages[n];
    }
  }

  /** The outcome of a subject whose data was loaded counts as unavailable exactly when a
      registered check that was started gave no result for want of data: it says so itself,
      it did not finish in time, or its reason carries the wording of an outage. Where no
      data was loaded it does exactly when the data is missing rather than not there, and a
      registered check needed it. */
  lemma UnavailableExactly(s: Subject, checks: seq<Check>, skip: string, missing: bool, outages: seq<string>)
    ensures
      skip == "" ==>
        (InOrder(FileSubject(s, SortChecks(WantedOf(checks, s)), skip, missing, outages)).unavailable <==>
         exists c :: Registered(s, checks, c) && Started(s, c, "") && c.id in s.returns_ && s.returns_[c.id].Skip?
              && (s.returns_[c.id].unavailable || s.returns_[c.id].unfinished || Words(s.returns_[c.id].reason, outages)))
    ensures
      skip != "" ==>
        (InOrder(FileSubject(s, SortChecks(WantedOf(checks, s)), skip, missing, outages)).unavailable <==>
         missing && exists c :: Registered(s, checks, c) && !c.lockOnly)
  {
    hide *;
    EvaluateMeans(s, checks, skip, missing, outages);
    LackingMeans(s, checks, missing, outages);
    if skip != "" { LackingUnloaded(s, checks, skip, missing, outages); }
  }

  lemma LackingUnloaded(s: Subject, checks: seq<Check>, skip: string, missing: bool, outages: seq<string>)
    requires skip != ""
    ensures Lacking(s, WantedOf(checks, s), skip, missing, outages) <==> missing && exists c :: Registered(s, checks, c) && !c.lockOnly
  {
    forall c ensures Registered(s, checks, c) <==> c in WantedOf(checks, s) { RegisteredMeans(s, checks, c); }
    hide Registered, WantedOf;
  }

  predicate SaysUnavailable(s: Subject, c: Check, outages: seq<string>) {
    c.id in s.returns_ && s.returns_[c.id].Skip?
    && (s.returns_[c.id].unavailable || s.returns_[c.id].unfinished || Named(s.returns_[c.id].reason, outages))
  }

  lemma LackingMeans(s: Subject, checks: seq<Check>, missing: bool, outages: seq<string>)
    ensures
      Lacking(s, WantedOf(checks, s), "", missing, outages) <==>
      exists c :: Registered(s, checks, c) && Started(s, c, "") && c.id in s.returns_ && s.returns_[c.id].Skip?
           && (s.returns_[c.id].unavailable || s.returns_[c.id].unfinished || Words(s.returns_[c.id].reason, outages))
  {
    forall c
      ensures Registered(s, checks, c) <==> c in WantedOf(checks, s)
      ensures !InCooldown(s, c) && FileOne(s, c, outages).unavailable <==> Started(s, c, "") && SaysUnavailable(s, c, outages)
    {
      RegisteredMeans(s, checks, c);
      StartedMeans(s, c, "");
      hide Named;
    }
    forall reason ensures Words(reason, outages) <==> Named(reason, outages) { WordsMeans(reason, outages); }
    hide Registered, Started, InCooldown, FileOne, Named, Words, WantedOf;
  }

  /** No finding of a check an active allow entry covers is in the outcome, when checks give
      their own id to their findings and ids and names are registered once; but for the
      findings expired entries are reported with. */
  lemma AllowedIsSilent(s: Subject, checks: seq<Check>, skip: string, missing: bool, outages: seq<string>, c: Check)
    requires DistinctIds(checks) && c in checks && c.name in s.allowed
    requires forall d, f :: d in checks && ResultOf(s, d).Ran? && f in ResultOf(s, d).findings ==> f.id == d.id
    requires c.id != EXPIRED_ALLOW_ID
    ensures
      var out := InOrder(FileSubject(s, SortChecks(WantedOf(checks, s)), skip, missing, outages));
      forall f :: f in out.findings ==> f.id != c.id
  {
    hide *;
    EvaluateMeans(s, checks, skip, missing, outages);
    forall f | Earned(f, WantedOf(checks, s), s, skip) ensures f.id != c.id {
      EarnedElsewhere(f, s, checks, skip, c);
    }
  }

  lemma EarnedElsewhere(f: Finding, s: Subject, checks: seq<Check>, skip: string, c: Check)
    requires DistinctIds(checks) && c in checks && c.name in s.allowed
    requires forall d, f :: d in checks && ResultOf(s, d).Ran? && f in ResultOf(s, d).findings ==> f.id == d.id
    requires Earned(f, WantedOf(checks, s), s, skip)
    ensures f.id != c.id
  {
    hide ResultOf, WantedOf;
    var d :| d in WantedOf(checks, s) && Evaluated(s, d, skip) && d.name !in s.allowed && f in ResultOf(s, d).findings;
    WantedIn(checks, s, d);
    var i :| 0 <= i < |checks| && checks[i] == c;
    var j :| 0 <= j < |checks| && checks[j] == d;
  }

  lemma {:induction false} WantedIn(checks: seq<Check>, s: Subject, c: Check)
    ensures c in WantedOf(checks, s) <==> c in checks && Wanted(c, s)
  {
    hide Wanted;
    if checks != [] {
      var n := |checks| - 1;
      WantedIn(checks[..n], s, c);
      assert checks == checks[..n] + [checks[n]];
    }
  }

  /** A check of the lockfile alone that did not return in time leaves no mark on an
      outcome whose other checks were skipped for a definite reason: what runOne set is
      overwritten. */
  lemma UnfinishedIsForgotten(c: Check, reason: string)
    requires reason != [] && c.lockOnly && c.ecosystems == [] && c.id != "TD008" && c.id != "TD012"
    ensures
      var s := Subject("npm", {}, {}, false, [], map[c.id := Skip("not finished", false, true)]);
      && FileOne(s, c, []).unavailable
      && !FileSubject(s, [c], reason, false, []).unavailable
  {
  }

  // ---- reordering ----

  lemma {:induction false} IdsConcat(a: seq<Check>, b: seq<Check>)
    ensures Ids(a + b) == Ids(a) + Ids(b)
  {
    hide *;
    NoneFiled();
    if b == [] {
      assert a + b == a && Ids(a) + [] == Ids(a);
    } else {
      var n := |b| - 1;
      IdsConcat(a, b[..n]);
      IdsSnoc(a + b[..n], b[n]);
      IdsSnoc(b[..n], b[n]);
      assert b == b[..n] + [b[n]];
      Grouped(a, b[..n], [b[n]]);
      Grouped(Ids(a), Ids(b[..n]), [b[n].id]);
    }
  }

  /** A list of checks with one of them taken out. */
  lemma TakenOut(b: seq<Check>, x: Check) returns (rest: seq<Check>)
    requires x in b
    ensures multiset(rest) == multiset(b) - multiset{x} && |rest| == |b| - 1
    ensures multiset(Ids(b)) == multiset(Ids(rest)) + multiset{x.id}
  {
    hide *;
    var j :| 0 <= j < |b| && b[j] == x;
    var p, q := b[..j], b[j + 1..];
    rest := p + q;
    Around(p, x, q);
    assert b == p + ([x] + q);
    IdsConcat(p, [x] + q);
    IdsConcat([x], q);
    IdsConcat(p, q);
    IdsSnoc([], x);
    NoneFiled();
    IdsAround(Ids(p), x.id, Ids(q));
  }

  lemma Around(p: seq<Check>, x: Check, q: seq<Check>)
    ensures multiset(p + ([x] + q)) == multiset(p + q) + multiset{x} && [] + [x] == [x]
  {
  }

  lemma IdsAround(p: seq<string>, x: string, q: seq<string>)
    ensures multiset(p + (([] + [x]) + q)) == multiset(p + q) + multiset{x}
  {
    assert [] + [x] == [x];
  }

  /** The ids filed do not depend on the order of the checks. */
  lemma {:induction false} IdsPermute(a: seq<Check>, b: seq<Check>)
    requires multiset(a) == multiset(b)
    ensures multiset(Ids(a)) == multiset(Ids(b))
    decreases |a|
  {
    hide Ids;
    if a == [] {
      assert |multiset(b)| == 0;
    } else {
      assert a[0] in multiset(a);
      var c := TakenOut(a, a[0]);
      var d := TakenOut(b, a[0]);
      IdsPermute(c, d);
    }
  }

  predicate SkippedBefore(a: Skipped, b: Skipped) {
    Less(a.check, b.check) || (a.check == b.check && Less(a.reason, b.reason))
  }

  function InsertSkipped(x: Skipped, xs: seq<Skipped>): seq<Skipped> {
    if xs == [] || !SkippedBefore(xs[0], x) then [x] + xs else [xs[0]] + InsertSkipped(x, xs[1..])
  }

  function SortSkipped(xs: seq<Skipped>): seq<Skipped> {
    if xs == [] then [] else InsertSkipped(xs[0], SortSkipped(xs[1..]))
  }

  lemma {:induction false} SkippedIdsCons(x: Skipped, xs: seq<Skipped>)
    ensures SkippedIds([x] + xs) == [x.check] + SkippedIds(xs)
  {
    if xs == [] {
      assert [x] + xs == [] + [x];
      SkippedSnoc([], x);
    } else {
      var n := |xs| - 1;
      SkippedIdsCons(x, xs[..n]);
      assert [x] + xs == [x] + xs[..n] + [xs[n]] && xs == xs[..n] + [xs[n]];
      SkippedSnoc([x] + xs[..n], xs[n]);
      SkippedSnoc(xs[..n], xs[n]);
    }
  }

  lemma {:induction false} InsertSkippedKeeps(x: Skipped, xs: seq<Skipped>)
    ensures multiset(SkippedIds(InsertSkipped(x, xs))) == multiset(SkippedIds(xs)) + multiset{x.check}
  {
    hide SkippedIds, SkippedBefore;
    SkippedIdsCons(x, xs);
    if xs != [] && SkippedBefore(xs[0], x) {
      InsertSkippedKeeps(x, xs[1..]);
      SkippedIdsCons(xs[0], xs[1..]);
      SkippedIdsCons(xs[0], InsertSkipped(x, xs[1..]));
      assert xs == [xs[0]] + xs[1..];
    }
  }

  lemma SortSkippedFirst(xs: seq<Skipped>)
    ensures xs == [] ==> SortSkipped(xs) == []
    ensures xs != [] ==> SortSkipped(xs) == InsertSkipped(xs[0], SortSkipped(xs[1..]))
  {
    hide InsertSkipped;
  }

  lemma {:induction false} SortSkippedKeeps(xs: seq<Skipped>)
    ensures multiset(SkippedIds(SortSkipped(xs))) == multiset(SkippedIds(xs))
  {
    hide *;
    SortSkippedFirst(xs);
    if xs != [] {
      SortSkippedKeeps(xs[1..]);
      InsertSkippedKeeps(xs[0], SortSkipped(xs[1..]));
      SkippedIdsCons(xs[0], xs[1..]);
      assert xs == [xs[0]] + xs[1..];
    }
  }

  /** By check, and by reason within one. */
  predicate SkippedAscend(xs: seq<Skipped>) {
    forall i, j :: 0 <= i < j < |xs| ==>
      !Less(xs[j].check, xs[i].check) && (xs[j].check == xs[i].check ==> !Less(xs[j].reason, xs[i].reason))
  }

  predicate SkippedSorted(xs: seq<Skipped>) {
    forall i, j :: 0 <= i < j < |xs| ==> !SkippedBefore(xs[j], xs[i])
  }

  lemma SkippedOrder(a: Skipped, b: Skipped, c: Skipped)
    ensures !(SkippedBefore(a, b) && SkippedBefore(b, a))
    ensures SkippedBefore(a, b) && !SkippedBefore(c, b) ==> SkippedBefore(a, c)
  {
    LessTotal(a.check, b.check);
    LessTotal(a.reason, b.reason);
    LessTotal(b.check, c.check);
    LessTotal(b.reason, c.reason);
    if Less(a.check, b.check) && Less(b.check, c.check) { LessTrans(a.check, b.check, c.check); }
    if Less(a.reason, b.reason) && Less(b.reason, c.reason) { LessTrans(a.reason, b.reason, c.reason); }
  }

  lemma {:induction false} InsertSkippedSorts(x: Skipped, xs: seq<Skipped>)
    requires SkippedSorted(xs)
    ensures SkippedSorted(InsertSkipped(x, xs)) && multiset(InsertSkipped(x, xs)) == multiset(xs) + multiset{x}
  {
    hide SkippedBefore;
    if xs == [] {
    } else if !SkippedBefore(xs[0], x) {
      forall j | 0 <= j < |xs| ensures !SkippedBefore(xs[j], x) {
        SkippedOrder(xs[j], x, xs[0]);
      }
    } else {
      assert xs == [xs[0]] + xs[1..];
      InsertSkippedSorts(x, xs[1..]);
      var rest := InsertSkipped(x, xs[1..]);
      SkippedOrder(xs[0], x, x);
      forall j | 0 <= j < |rest| ensures !SkippedBefore(rest[j], xs[0]) {
        assert rest[j] in multiset(rest);
        assert rest[j] == x || rest[j] in xs[1..];
      }
    }
  }

  lemma {:induction false} SortSkippedSorts(xs: seq<Skipped>)
    ensures SkippedSorted(SortSkipped(xs)) && multiset(SortSkipped(xs)) == multiset(xs)
  {
    if xs != [] {
      SortSkippedSorts(xs[1..]);
      InsertSkippedSorts(xs[0], SortSkipped(xs[1..]));
      assert xs == [xs[0]] + xs[1..];
    }
  }

  /** By id, and by title within one. */
  predicate FindingsAscend(xs: seq<Finding>) {
    forall i, j :: 0 <= i < j < |xs| ==>
      !Less(xs[j].id, xs[i].id) && (xs[j].id == xs[i].id ==> !Less(xs[j].title, xs[i].title))
  }

  predicate FindingsSorted(xs: seq<Finding>) {
    forall i, j :: 0 <= i < j < |xs| ==> !FindingBefore(xs[j], xs[i])
  }

  lemma FindingOrder(a: Finding, b: Finding, c: Finding)
    ensures !(FindingBefore(a, b) && FindingBefore(b, a))
    ensures FindingBefore(a, b) && !FindingBefore(c, b) ==> FindingBefore(a, c)
  {
    LessTotal(a.id, b.id);
    LessTotal(a.title, b.title);
    LessTotal(b.id, c.id);
    LessTotal(b.title, c.title);
    if Less(a.id, b.id) && Less(b.id, c.id) { LessTrans(a.id, b.id, c.id); }
    if Less(a.title, b.title) && Less(b.title, c.title) { LessTrans(a.title, b.title, c.title); }
  }

  lemma {:induction false} InsertFindingSorts(x: Finding, xs: seq<Finding>)
    requires FindingsSorted(xs)
    ensures FindingsSorted(InsertFinding(x, xs)) && multiset(InsertFinding(x, xs)) == multiset(xs) + multiset{x}
  {
    hide FindingBefore;
    if xs == [] {
    } else if !FindingBefore(xs[0], x) {
      forall j | 0 <= j < |xs| ensures !FindingBefore(xs[j], x) {
        FindingOrder(xs[j], x, xs[0]);
      }
    } else {
      assert xs == [xs[0]] + xs[1..];
      InsertFindingSorts(x, xs[1..]);
      var rest := InsertFinding(x, xs[1..]);
      FindingOrder(xs[0], x, x);
      forall j | 0 <= j < |rest| ensures !FindingBefore(rest[j], xs[0]) {
        assert rest[j] in multiset(rest);
        assert rest[j] == x || rest[j] in xs[1..];
      }
    }
  }

  lemma {:induction false} SortFindingsSorts(xs: seq<Finding>)
    ensures FindingsSorted(SortFindings(xs)) && multiset(SortFindings(xs)) == multiset(xs)
  {
    if xs != [] {
      SortFindingsSorts(xs[1..]);
      InsertFindingSorts(xs[0], SortFindings(xs[1..]));
      assert xs == [xs[0]] + xs[1..];
    }
  }

  /** The findings of one id and title, in their order. */
  function Alike(xs: seq<Finding>, id: string, title: string): seq<Finding> {
    if xs == [] then [] else (if xs[0].id == id && xs[0].title == title then [xs[0]] else []) + Alike(xs[1..], id, title)
  }

  lemma {:induction false} InsertFindingStable(x: Finding, xs: seq<Finding>, id: string, title: string)
    ensures Alike(InsertFinding(x, xs), id, title) == Alike([x] + xs, id, title)
  {
    assert ([x] + xs)[1..] == xs;
    if xs != [] && FindingBefore(xs[0], x) {
      InsertFindingStable(x, xs[1..], id, title);
      assert ([x] + xs[1..])[1..] == xs[1..];
      var rest := InsertFinding(x, xs[1..]);
      assert ([xs[0]] + rest)[1..] == rest;
      LessTotal(xs[0].id, x.id);
      LessTotal(xs[0].title, x.title);
    }
  }

  lemma {:induction false} SortFindingsStable(xs: seq<Finding>, id: string, title: string)
    ensures Alike(SortFindings(xs), id, title) == Alike(xs, id, title)
  {
    if xs != [] {
      SortFindingsStable(xs[1..], id, title);
      InsertFindingStable(xs[0], SortFindings(xs[1..]), id, title);
      assert ([xs[0]] + SortFindings(xs[1..]))[1..] == SortFindings(xs[1..]);
    }
  }

  predicate FindingBefore(a: Finding, b: Finding) {
    Less(a.id, b.id) || (a.id == b.id && Less(a.title, b.title))
  }

  function InsertFinding(x: Finding, xs: seq<Finding>): seq<Finding> {
    if xs == [] || !FindingBefore(xs[0], x) then [x] + xs else [xs[0]] + InsertFinding(x, xs[1..])
  }

  function SortFindings(xs: seq<Finding>): seq<Finding> {
    if xs == [] then [] else InsertFinding(xs[0], SortFindings(xs[1..]))
  }

  lemma {:induction false} InsertFindingKeeps(x: Finding, xs: seq<Finding>)
    ensures multiset(InsertFinding(x, xs)) == multiset(xs) + multiset{x}
  {
    if xs != [] && FindingBefore(xs[0], x) {
      InsertFindingKeeps(x, xs[1..]);
      assert xs == [xs[0]] + xs[1..];
    }
  }

  lemma {:induction false} SortFindingsKeeps(xs: seq<Finding>)
    ensures multiset(SortFindings(xs)) == multiset(xs)
  {
    if xs != [] {
      SortFindingsKeeps(xs[1..]);
      InsertFindingKeeps(xs[0], SortFindings(xs[1..]));
      assert xs == [xs[0]] + xs[1..];
    }
  }

  // ---- exactly once ----

  predicate DistinctIds(cs: seq<Check>) {
    forall i, j :: 0 <= i < j < |cs| ==> cs[i].id != cs[j].id
  }

  lemma {:induction false} NoId(cs: seq<Check>, id: string)
    requires forall i :: 0 <= i < |cs| ==> cs[i].id != id
    ensures multiset(Ids(cs))[id] == 0
  {
    if cs != [] {
      NoId(cs[..|cs| - 1], id);
    }
  }

  lemma WantedStep(checks: seq<Check>, s: Subject, id: string)
    requires checks != []
    ensures
      var init, last := checks[..|checks| - 1], checks[|checks| - 1];
      multiset(Ids(WantedOf(checks, s)))[id] ==
      multiset(Ids(WantedOf(init, s)))[id] + if Wanted(last, s) && last.id == id then 1 else 0
  {
    hide Wanted, Ids;
    var init, last := checks[..|checks| - 1], checks[|checks| - 1];
    var w := WantedOf(init, s);
    IdsSnoc(w, last);
    if Wanted(last, s) {
      assert WantedOf(checks, s) == w + [last];
    } else {
      assert WantedOf(checks, s) == w + [] == w;
    }
  }

  /** With ids registered once, what is filed for a subject holds the id of each check
      that applies exactly once, and no other. */
  lemma {:induction false} FiledOnce(checks: seq<Check>, s: Subject, c: Check)
    requires DistinctIds(checks) && c in checks
    ensures multiset(Ids(WantedOf(checks, s)))[c.id] == if Wanted(c, s) then 1 else 0
  {
    hide Wanted, Ids, WantedOf;
    var n := |checks| - 1;
    var init, last := checks[..n], checks[n];
    WantedStep(checks, s, c.id);
    var i :| 0 <= i < |checks| && checks[i] == c;
    if i == n {
      WantedNone(init, s, c.id);
    } else {
      assert init[i] == c;
      FiledOnce(init, s, c);
    }
  }

  lemma {:induction false} WantedNone(checks: seq<Check>, s: Subject, id: string)
    requires forall i :: 0 <= i < |checks| ==> checks[i].id != id
    ensures multiset(Ids(WantedOf(checks, s)))[id] == 0
  {
    hide Wanted, Ids;
    NoneFiled();
    if checks != [] {
      WantedStep(checks, s, id);
      hide WantedOf;
      WantedNone(checks[..|checks| - 1], s, id);
    }
  }

  // ---- the first entry of each file ----

  datatype Input = Input(path: Option<string>, line: int, first: bool)

  /** The entry nearest the top of its file, the earliest of them when lines tie. */
  predicate IsFirst(inputs: seq<Input>, i: nat)
    requires i < |inputs|
  {
    && inputs[i].path.Some? && inputs[i].path.value != []
    && forall j :: 0 <= j < |inputs| && inputs[j].path == inputs[i].path ==>
         inputs[i].line < inputs[j].line || (inputs[i].line == inputs[j].line && i <= j)
  }

  /** The entry found so far for a file. */
  predicate Best(inputs: seq<Input>, n: nat, path: string, i: nat)
    requires n <= |inputs|
  {
    && i < n && inputs[i].path == Some(path)
    && forall j :: 0 <= j < n && inputs[j].path == Some(path) ==>
         inputs[i].line < inputs[j].line || (inputs[i].line == inputs[j].line && i <= j)
  }

  /** markFirstInFile: the flags are set for the first entry of each file and cleared for
      every other, and nothing else is touched. */
  method MarkFirstInFile(inputs: array<Input>)
    modifies inputs
    ensures forall i :: 0 <= i < inputs.Length ==>
              inputs[i] == old(inputs[i]).(first := IsFirst(old(inputs[..]), i))
  {
    ghost var was := inputs[..];
    var first: map<string, nat> := map[];
    for n := 0 to inputs.Length
      invariant forall i :: 0 <= i < n ==> inputs[i] == was[i].(first := false)
      invariant forall i :: n <= i < inputs.Length ==> inputs[i] == was[i]
      invariant forall p :: p in first ==> p != [] && Best(was, n, p, first[p])
      invariant forall i :: 0 <= i < n && was[i].path.Some? && was[i].path.value != [] ==> was[i].path.value in first
    {
      inputs[n] := inputs[n].(first := false);
      var loc := inputs[n].path;
      if loc.None? || loc.value == [] {
        continue;
      }
      if loc.value !in first || inputs[n].line < inputs[first[loc.value]].line {
        first := first[loc.value := n];
      }
    }
    var left := first.Keys;
    while left != {}
      invariant left <= first.Keys
      invariant forall i :: 0 <= i < inputs.Length ==>
                  inputs[i] == was[i].(first := exists p :: p in first.Keys - left && first[p] == i)
    {
      var p :| p in left;
      inputs[first[p]] := inputs[first[p]].(first := true);
      left := left - {p};
    }
    assert first.Keys - left == first.Keys;
    forall i | 0 <= i < inputs.Length ensures (exists p :: p in first.Keys && first[p] == i) <==> IsFirst(was, i) {
      if IsFirst(was, i) {
        var p := was[i].path.value;
        assert Best(was, |was|, p, first[p]);
        assert first[p] == i;
      }
    }
  }

  /** An entry is first when no entry of its file is on a line above it, and none that is
      given before it is on its own line. */
  lemma FirstMeans(inputs: seq<Input>, i: nat)
    requires i < |inputs|
    ensures
      IsFirst(inputs, i) <==>
      && inputs[i].path !in {None, Some("")}
      && (forall e :: e in inputs && e.path == inputs[i].path ==> inputs[i].line <= e.line)
      && (forall e :: e in inputs[..i] && e.path == inputs[i].path ==> e.line != inputs[i].line)
  {
    if IsFirst(inputs, i) {
      forall e | e in inputs[..i] && e.path == inputs[i].path ensures e.line != inputs[i].line {
        var j :| 0 <= j < i && inputs[..i][j] == e;
        assert inputs[j] == e;
      }
    } else if inputs[i].path !in {None, Some("")} {
      var j :| 0 <= j < |inputs| && inputs[j].path == inputs[i].path && !(inputs[i].line < inputs[j].line || (inputs[i].line == inputs[j].line && i <= j));
      assert inputs[j] in inputs;
      if inputs[j].line == inputs[i].line { assert inputs[..i][j] == inputs[j]; }
    }
  }

  /** Every file that has an entry has exactly one that is first. */
  lemma {:induction false} OneFirst(inputs: seq<Input>, path: string, n: nat) returns (i: nat)
    requires n <= |inputs| && exists j :: 0 <= j < n && inputs[j].path == Some(path)
    ensures Best(inputs, n, path, i)
    ensures forall k :: 0 <= k < n && Best(inputs, n, path, k) ==> k == i
    decreases n
  {
    if exists j :: 0 <= j < n - 1 && inputs[j].path == Some(path) {
      i := OneFirst(inputs, path, n - 1);
      if inputs[n - 1].path == Some(path) && inputs[n - 1].line < inputs[i].line {
        i := n - 1;
      }
    } else {
      i := n - 1;
    }
  }
}
