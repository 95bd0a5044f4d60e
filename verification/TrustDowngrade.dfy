/** The trust verdict (internal/checks/td004.go, comparableBase in
    internal/checks/td005.go, cleanOrSkip in internal/checks/check.go): whether a release
    carries weaker publishing evidence than the releases before it, and when that can be
    said although a source did not answer. */
module TrustDowngrade {
  import opened Text

  datatype Kind = NoEvidence | Signature | Attestation | TrustedPublisher

  datatype Provenance = Provenance(kind: Kind, verified: bool, verifiedBy: string)

  /** A release as the registry client reports it; unknown says its provenance could not
      be gathered. */
  datatype Info = Info(version: string, provenance: Provenance, unknown: bool)

  /** What deps.dev knows of a release. */
  datatype Facts = Facts(found: bool, attestationVerified: bool, slsaVerified: bool, attestationsListed: bool)

  /** Why a source gave no data: it answered that there is none, or it did not answer. */
  datatype Failure = Definite | Outage

  datatype Reply = Answer(facts: Facts) | Failed(why: Failure)

  /** What the check is given: the evaluated release, the one published before it, the one
      the base lockfile had, deps.dev's facts about the first, and the loader's replies
      about the other two. The errors are the entries of Subject.Unavailable;
      previousIsLater is the version order's word on the release published before. */
  datatype Subject = Subject(
    ref: string,
    version: Option<Info>,
    previous: Option<Info>, previousError: Option<Failure>, previousIsLater: bool,
    base: Option<Info>, baseError: Option<Failure>,
    depsDev: Option<Facts>, depsDevError: Option<Failure>,
    lookups: map<string, Reply>)

  /** capped says the finding is held at warn, whatever level is configured. */
  datatype Verdict = Skips(outage: bool) | Passes | Downgrade(compared: string, capped: bool)

  // ---- strength ----

  function Rank(k: Kind): nat {
    match k
    case NoEvidence => 0
    case Signature => 1
    case Attestation => 2
    case TrustedPublisher => 3
  }

  /** Provenance.Strength. */
  function Strength(p: Provenance): nat {
    if p.kind == NoEvidence then 0 else Rank(p.kind) * 2 + if p.verified then 1 else 0
  }

  /** Kind decides first and verification second; a record that is not there has nothing
      to verify. */
  lemma StrengthOrders(p: Provenance, q: Provenance)
    ensures Rank(p.kind) < Rank(q.kind) ==> Strength(p) < Strength(q)
    ensures p.kind == q.kind && p.kind != NoEvidence ==> (Strength(p) < Strength(q) <==> !p.verified && q.verified)
    ensures p.kind == q.kind == NoEvidence ==> Strength(p) == Strength(q)
    ensures Strength(p) <= 7 && (Strength(p) == 7 <==> p.kind == TrustedPublisher && p.verified)
  {
  }

  // ---- who vouches ----

  predicate DepsDevVerified(facts: Option<Facts>) {
    facts.Some? && facts.value.found && (facts.value.attestationVerified || facts.value.slsaVerified)
  }

  /** verification, of the evaluated release. */
  function Verification(p: Provenance, facts: Option<Facts>): (bool, string) {
    if p.verified && p.verifiedBy != [] then (true, p.verifiedBy)
    else if p.kind == Attestation && DepsDevVerified(facts) then (true, "deps.dev")
    else if p.verified then (true, "registry")
    else (false, "")
  }

  /** Who is named for a verification: the one the registry names, then deps.dev for an
      attestation it verified itself, then the registry; nobody when there is none. */
  lemma VouchedBy(p: Provenance, facts: Option<Facts>)
    ensures
      var (verified, whom) := Verification(p, facts);
      && (verified <==> whom != "") && whom in [p.verifiedBy, "deps.dev", "registry", ""]
      && (p.verified ==> verified && (p.verifiedBy != "" ==> whom == p.verifiedBy))
      && (whom == "deps.dev" != p.verifiedBy ==>
          p.kind == Attestation && facts.Some? && facts.value.found && (facts.value.attestationVerified || facts.value.slsaVerified))
      && (whom == "registry" != p.verifiedBy ==> p.verified && p.verifiedBy == "")
      && (!verified && p.kind == Attestation && facts.Some? && facts.value.found ==>
          !facts.value.attestationVerified && !facts.value.slsaVerified)
  {
  }

  /** depsDevMaySpeakForAPredecessor. */
  predicate MaySpeak(s: Subject) {
    && s.depsDev.Some? && s.depsDev.value.found
    && (s.version.Some? && s.version.value.provenance.kind == Attestation ==> s.depsDev.value.attestationsListed)
  }

  function Looked(s: Subject, version: string): Reply {
    if version in s.lookups then s.lookups[version] else Failed(Definite)
  }

  /** predecessorProvenance. */
  function PredecessorProvenance(s: Subject, v: Info): Provenance {
    var p := v.provenance;
    if p.verified then p
    else if p.kind == Attestation && MaySpeak(s) then
      match Looked(s, v.version)
      case Answer(facts) => if DepsDevVerified(Some(facts)) then p.(verified := true) else p
      case Failed(_) => p
    else p
  }

  /** comparableBase, for the provenance. */
  function ComparableBase(s: Subject): Option<Info> {
    if s.base.None? || (s.previous.Some? && s.base.value.version == s.previous.value.version) then None
    else if s.base.value.unknown then None
    else s.base
  }

  // ---- what an outage may hide ----

  const Strongest := Provenance(TrustedPublisher, true, "")

  /** unknownBaseProvenance. */
  predicate BaseUnread(s: Subject, current: Provenance) {
    && s.base.Some? && s.base.value.version != s.ref
    && !(s.previous.Some? && s.base.value.version == s.previous.value.version)
    && Strength(current) < Strength(Strongest)
    && s.base.value.unknown
  }

  /** cleanOrSkip: the sources of the list that did not answer, in order. */
  method CleanOrSkip(unavailable: map<string, Failure>, sources: seq<string>) returns (reasons: seq<string>)
    ensures reasons == Outages(unavailable, sources)
  {
    reasons := [];
    for i := 0 to |sources|
      invariant reasons == Outages(unavailable, sources[..i])
    {
      assert sources[..i + 1][..i] == sources[..i];
      if sources[i] in unavailable && unavailable[sources[i]] == Outage {
        reasons := reasons + [sources[i]];
      }
    }
    assert sources[..|sources|] == sources;
  }

  function Outages(unavailable: map<string, Failure>, sources: seq<string>): seq<string> {
    if sources == [] then []
    else
      var last := sources[|sources| - 1];
      Outages(unavailable, sources[..|sources| - 1]) + if last in unavailable && unavailable[last] == Outage then [last] else []
  }

  /** A check passes cleanOrSkip exactly when none of its sources was out. */
  lemma {:induction false} CleanMeansAnswered(unavailable: map<string, Failure>, sources: seq<string>)
    ensures Outages(unavailable, sources) == [] <==>
            forall s :: s in sources ==> !(s in unavailable && unavailable[s] == Outage)
  {
    if sources != [] {
      var init, last := sources[..|sources| - 1], sources[|sources| - 1];
      assert sources == init + [last];
      CleanMeansAnswered(unavailable, init);
    }
  }

  /** An attestation only deps.dev could have verified, and that would have been stronger
      had it done so. */
  predicate Liftable(p: Provenance, current: Provenance) {
    p.kind == Attestation && !p.verified && Strength(p.(verified := true)) > Strength(current)
  }

  /** unverifiedByOutage. */
  predicate UnverifiedByOutage(s: Subject, current: Provenance, predecessors: seq<Provenance>) {
    s.depsDevError == Some(Outage) && exists i :: 0 <= i < |predecessors| && Liftable(predecessors[i], current)
  }

  /** The loop of unverifiedByOutage. */
  method FindLiftable(predecessors: seq<Provenance>, current: Provenance) returns (found: bool)
    ensures found <==> exists i :: 0 <= i < |predecessors| && Liftable(predecessors[i], current)
  {
    for i := 0 to |predecessors|
      invariant forall k :: 0 <= k < i ==> !Liftable(predecessors[k], current)
    {
      var p := predecessors[i];
      if p.kind != Attestation || p.verified {
        continue;
      }
      var verified := p.(verified := true);
      if Strength(verified) > Strength(current) {
        return true;
      }
    }
    found := false;
  }

  // ---- the verdict ----

  /** The provenance the evaluated release is judged by. */
  function Current(s: Subject): Provenance
    requires s.version.Some?
  {
    s.version.value.provenance.(verified := Verification(s.version.value.provenance, s.depsDev).0)
  }

  /** What the check could read: both releases and the provenance of both. */
  predicate Readable(s: Subject) {
    && s.version.Some? && !s.version.value.unknown
    && s.previousError.None? && s.previous.Some? && !s.previous.value.unknown
  }

  /** The provenance of the releases before this one that were read. */
  function Predecessors(s: Subject): seq<Provenance>
    requires s.previous.Some?
  {
    [PredecessorProvenance(s, s.previous.value)] +
    match ComparableBase(s)
    case Some(base) => [PredecessorProvenance(s, base)]
    case None => []
  }

  /** Run. */
  function Run(s: Subject): Verdict {
    if !Readable(s) then Skips(false)
    else
      var current := Current(s);
      var previous := PredecessorProvenance(s, s.previous.value);
      var base := ComparableBase(s);
      var useBase := base.Some? && Strength(PredecessorProvenance(s, base.value)) > Strength(previous);
      var compared := if useBase then PredecessorProvenance(s, base.value) else previous;
      if Strength(compared) > Strength(current) then
        if useBase then Downgrade(base.value.version, false) else Downgrade(s.previous.value.version, s.previousIsLater)
      else if BaseUnread(s, current) then Skips(true)
      else if s.baseError == Some(Outage) then Skips(true)
      else if UnverifiedByOutage(s, current, Predecessors(s)) then Skips(true)
      else Passes
  }

  // ---- the verdict, from what was gathered ----

  /** The check has nothing to judge: one of the two releases is not there, the previous one
      could not be loaded, or the provenance of either could not be gathered. */
  predicate NothingToJudge(s: Subject) {
    || s.version.None? || s.previous.None? || s.previousError.Some?
    || s.version.value.unknown || s.previous.value.unknown
  }

  /** Those are the skips that are no outage, and nothing else is: a release that lost all
      its evidence is judged. */
  lemma SkipsExactly(s: Subject)
    ensures Run(s) == Skips(false) <==> NothingToJudge(s)
    ensures NothingToJudge(s) <==> !Readable(s)
  {
    hide PredecessorProvenance, Current, BaseUnread, UnverifiedByOutage, Strength, ComparableBase;
  }

  /** deps.dev has the release and read verified evidence of one of the two kinds. */
  predicate Confirms(facts: Facts) {
    facts.found && !(!facts.attestationVerified && !facts.slsaVerified)
  }

  /** The evidence of the evaluated release counts as verified: the registry says so, or it
      is an attestation deps.dev confirms. */
  predicate VouchedNow(s: Subject)
    requires s.version.Some?
  {
    var p := s.version.value.provenance;
    p.verified || (p.kind.Attestation? && s.depsDev.Some? && Confirms(s.depsDev.value))
  }

  /** The evidence of an earlier release counts as verified: the registry says so, or it is
      an attestation deps.dev confirms, asked only when it has the evaluated release and
      lists the attestation that one carries, if it carries one. */
  predicate VouchedBefore(s: Subject, v: Info) {
    || v.provenance.verified
    || (&& v.provenance.kind.Attestation?
        && s.depsDev.Some? && s.depsDev.value.found
        && (s.depsDev.value.attestationsListed || s.version.None? || !s.version.value.provenance.kind.Attestation?)
        && v.version in s.lookups && s.lookups[v.version].Answer? && Confirms(s.lookups[v.version].facts))
  }

  /** One kind of evidence says more than another. */
  predicate MoreKind(a: Kind, b: Kind) {
    match a
    case NoEvidence => false
    case Signature => b.NoEvidence?
    case Attestation => b.NoEvidence? || b.Signature?
    case TrustedPublisher => !b.TrustedPublisher?
  }

  /** More evidence: a kind that says more, or the same kind, verified and not. */
  predicate Carries(a: Kind, vouched: bool, b: Kind, vouchedToo: bool) {
    MoreKind(a, b) || (a == b && !a.NoEvidence? && vouched && !vouchedToo)
  }

  lemma StrengthCompares(p: Provenance, q: Provenance)
    ensures Strength(p) > Strength(q) <==> Carries(p.kind, p.verified, q.kind, q.verified)
  {
  }

  lemma VouchedMeans(s: Subject, v: Info)
    requires s.version.Some?
    ensures Current(s).kind == s.version.value.provenance.kind && (Current(s).verified <==> VouchedNow(s))
    ensures PredecessorProvenance(s, v).kind == v.provenance.kind && (PredecessorProvenance(s, v).verified <==> VouchedBefore(s, v))
  {
  }

  /** An earlier release carries more than the evaluated one. */
  predicate CarriedMore(s: Subject, v: Info)
    requires s.version.Some?
  {
    Carries(v.provenance.kind, VouchedBefore(s, v), s.version.value.provenance.kind, VouchedNow(s))
  }

  /** One earlier release carries more than another. */
  predicate CarriesOver(s: Subject, v: Info, u: Info) {
    Carries(v.provenance.kind, VouchedBefore(s, v), u.provenance.kind, VouchedBefore(s, u))
  }

  /** The base lockfile's release takes part: it is there, it is another than the previous
      one, and its provenance could be gathered. */
  predicate BaseCounts(s: Subject) {
    s.base.Some? && !s.base.value.unknown && !(s.previous.Some? && s.previous.value.version == s.base.value.version)
  }

  lemma BaseCountsMeans(s: Subject)
    ensures ComparableBase(s) == if BaseCounts(s) then s.base else None
  {
  }

  /** What a finding is, from what was gathered alone: there is one exactly when the previous
      release or a base release that takes part carried more; it names the base release
      exactly when that carried more than the previous one, and the previous one otherwise;
      and it is held at warn exactly when it names the previous one and that is a later
      version on another line. */
  lemma DowngradeExactly(s: Subject)
    requires !NothingToJudge(s)
    ensures Run(s).Downgrade? <==> CarriedMore(s, s.previous.value) || (BaseCounts(s) && CarriedMore(s, s.base.value))
    ensures
      var byBase := BaseCounts(s) && CarriesOver(s, s.base.value, s.previous.value);
      Run(s).Downgrade? ==>
        && Run(s).compared == (if byBase then s.base else s.previous).value.version
        && (Run(s).capped <==> s.previousIsLater && !byBase)
  {
    BaseCountsMeans(s);
    VouchedMeans(s, s.previous.value);
    var previous, current := PredecessorProvenance(s, s.previous.value), Current(s);
    StrengthCompares(previous, current);
    if BaseCounts(s) {
      VouchedMeans(s, s.base.value);
      StrengthCompares(PredecessorProvenance(s, s.base.value), previous);
      StrengthCompares(PredecessorProvenance(s, s.base.value), current);
    }
    hide PredecessorProvenance, Current, BaseUnread, UnverifiedByOutage, Strength, ComparableBase, VouchedBefore, VouchedNow;
  }

  /** The base release is another one, and its provenance could not be gathered. */
  predicate BaseBlank(s: Subject) {
    && s.base.Some? && s.base.value.unknown && s.base.value.version != s.ref
    && !(s.previous.Some? && s.previous.value.version == s.base.value.version)
  }

  /** A release whose attestation nobody vouched for, and that would have carried more had
      somebody. */
  predicate WouldCarry(s: Subject, v: Info)
    requires s.version.Some?
  {
    && v.provenance.kind.Attestation? && !VouchedBefore(s, v)
    && Carries(Attestation, true, s.version.value.provenance.kind, VouchedNow(s))
  }

  /** When a check that found nothing passes, and when it skips over an outage instead: the
      provenance of another base release could not be gathered while the evaluated one does
      not carry the most there is, the base release could not be asked for, or deps.dev was
      out and an attestation only it could have vouched for would have made a finding. */
  lemma PassesExactly(s: Subject)
    requires !NothingToJudge(s) && !Run(s).Downgrade?
    ensures Run(s) == Passes || Run(s) == Skips(true)
    ensures Run(s) == Skips(true) <==>
            || (BaseBlank(s) && !(s.version.value.provenance.kind.TrustedPublisher? && VouchedNow(s)))
            || s.baseError == Some(Outage)
            || (s.depsDevError == Some(Outage)
                && (WouldCarry(s, s.previous.value) || (BaseCounts(s) && WouldCarry(s, s.base.value))))
  {
    BaseCountsMeans(s);
    VouchedMeans(s, s.previous.value);
    LiftMeans(s, s.previous.value);
    StrengthCompares(Strongest, Current(s));
    var ps := Predecessors(s);
    assert ps[0] == PredecessorProvenance(s, s.previous.value);
    if BaseCounts(s) {
      LiftMeans(s, s.base.value);
      assert ps[1] == PredecessorProvenance(s, s.base.value);
    }
    hide PredecessorProvenance, Current, Liftable, Strength, ComparableBase, VouchedBefore, VouchedNow;
  }

  lemma LiftMeans(s: Subject, v: Info)
    requires s.version.Some?
    ensures Liftable(PredecessorProvenance(s, v), Current(s)) <==> WouldCarry(s, v)
  {
    VouchedMeans(s, v);
    var p := PredecessorProvenance(s, v);
    StrengthCompares(p.(verified := true), Current(s));
    hide PredecessorProvenance, Current, Strength, VouchedBefore, VouchedNow, Carries;
  }

  /** A finding names a release that was read and carried more, and the one that carried
      the most; without one, no release that was read carried more. */
  lemma DowngradeIsReal(s: Subject)
    requires !NothingToJudge(s)
    ensures Run(s).Downgrade? <==> exists p :: p in Predecessors(s) && Strength(p) > Strength(Current(s))
    ensures Run(s).Downgrade? ==>
              exists v: Info :: (v == s.previous.value || Some(v) == ComparableBase(s)) && v.version == Run(s).compared
                          && Strength(PredecessorProvenance(s, v)) > Strength(Current(s))
                          && forall p :: p in Predecessors(s) ==> Strength(p) <= Strength(PredecessorProvenance(s, v))
  {
    hide PredecessorProvenance, Current, BaseUnread, UnverifiedByOutage, Strength;
    var ps := Predecessors(s);
    assert ps[0] in ps;
    if ComparableBase(s).Some? { assert ps[1] in ps; }
    if Run(s).Downgrade? {
      var base := ComparableBase(s);
      var v := if base.Some? && Strength(ps[1]) > Strength(ps[0]) then base.value else s.previous.value;
      assert v.version == Run(s).compared;
    }
  }

  // ---- every way an absent source could have answered ----

  /** What an answered question stays as, and what one that was not may become. */
  predicate FactsComplete(was: Subject, now: Subject) {
    if was.depsDev.None? && was.depsDevError == Some(Outage) then now.depsDevError != Some(Outage)
    else now.depsDev == was.depsDev && (now.depsDevError == was.depsDevError || was.depsDevError == Some(Outage))
  }

  predicate BaseCompletes(was: Subject, now: Subject) {
    if was.baseError == Some(Outage) then
      && now.baseError != Some(Outage)
      && (now.base.Some? ==> !now.base.value.unknown)
    else if was.base.Some? && was.base.value.unknown then
      && now.baseError == was.baseError && now.base.Some?
      && now.base.value.version == was.base.value.version && !now.base.value.unknown
    else now.base == was.base && now.baseError == was.baseError
  }

  /** deps.dev is asked about an earlier release only when it may speak for one. */
  ghost predicate LookupsComplete(was: Subject, now: Subject) {
    MaySpeak(was) ==> forall v: string :: Looked(was, v) != Failed(Outage) ==> Looked(now, v) == Looked(was, v)
  }

  /** What loadBase makes of the base lockfile's version (internal/checks/runner.go): one
      that is neither the evaluated release nor the previous one, or the error. */
  predicate Loaded(s: Subject) {
    s.base.Some? ==>
      && s.baseError.None? && s.base.value.version != s.ref
      && (s.previous.Some? ==> s.base.value.version != s.previous.value.version)
  }

  /** The same subject in a run in which every source answered. */
  ghost predicate Completes(was: Subject, now: Subject) {
    && Loaded(now)
    && now.ref == was.ref && now.version == was.version
    && now.previous == was.previous && now.previousError == was.previousError && now.previousIsLater == was.previousIsLater
    && FactsComplete(was, now) && BaseCompletes(was, now) && LookupsComplete(was, now)
  }

  /** Some answer to the questions left open would have made a finding. */
  ghost predicate Hides(s: Subject) {
    exists now :: Completes(s, now) && Run(now).Downgrade?
  }

  /** deps.dev was asked about an earlier release and did not answer, and its word would
      have decided. */
  predicate Lost(s: Subject, v: Info)
    requires s.version.Some?
  {
    MaySpeak(s) && Looked(s, v.version) == Failed(Outage) && Liftable(v.provenance, Current(s))
  }

  predicate LookupLost(s: Subject)
    requires s.version.Some? && s.previous.Some?
  {
    Lost(s, s.previous.value) || (ComparableBase(s).Some? && Lost(s, ComparableBase(s).value))
  }

  /** What a run that passed leaves open: nothing but the loader's own lookups. */
  lemma PassNarrows(s: Subject, now: Subject)
    requires Loaded(s) && Run(s) == Passes && Completes(s, now)
    ensures Readable(s) && Readable(now)
    ensures Strength(Current(now)) >= Strength(Current(s))
    ensures ComparableBase(now) == ComparableBase(s) || Strength(Current(s)) == Strength(Strongest)
  {
  }

  /** The strength a predecessor could reach in a completed run, and what that takes. */
  lemma PredecessorReaches(s: Subject, now: Subject, v: Info)
    requires Loaded(s) && Run(s) == Passes && Completes(s, now)
    requires Strength(PredecessorProvenance(s, v)) <= Strength(Current(s))
    requires !UnverifiedByOutage(s, Current(s), [PredecessorProvenance(s, v)])
    requires Strength(PredecessorProvenance(now, v)) > Strength(Current(now))
    ensures Lost(s, v)
  {
    PassNarrows(s, now);
    var p := v.provenance;
    assert p.kind == Attestation && !p.verified && MaySpeak(now);
    NotLifted(s, p);
    assert now.depsDev == s.depsDev && MaySpeak(s);
    assert Current(now) == Current(s);
  }

  lemma NotLifted(s: Subject, p: Provenance)
    requires s.version.Some? && !UnverifiedByOutage(s, Current(s), [p])
    ensures s.depsDevError == Some(Outage) ==> !Liftable(p, Current(s))
  {
    assert [p][0] == p;
  }

  lemma PassFacts(s: Subject)
    requires Run(s) == Passes
    ensures Readable(s)
    ensures Strength(PredecessorProvenance(s, s.previous.value)) <= Strength(Current(s))
    ensures !UnverifiedByOutage(s, Current(s), [PredecessorProvenance(s, s.previous.value)])
    ensures ComparableBase(s).Some? ==>
              && Strength(PredecessorProvenance(s, ComparableBase(s).value)) <= Strength(Current(s))
              && !UnverifiedByOutage(s, Current(s), [PredecessorProvenance(s, ComparableBase(s).value)])
  {
    hide PredecessorProvenance, Current, BaseUnread, Strength, ComparableBase, Liftable;
    var ps := Predecessors(s);
    assert ps[0] == PredecessorProvenance(s, s.previous.value);
    if ComparableBase(s).Some? {
      assert ps[1] == PredecessorProvenance(s, ComparableBase(s).value);
    }
  }

  /** A pass is sound: whatever the sources that did not answer would have said, no
      release before this one would have carried more, unless deps.dev was asked about
      one of them, did not answer, and would have decided. */
  lemma PassIsSound(s: Subject)
    requires Loaded(s) && Run(s) == Passes
    ensures Readable(s) && (Hides(s) <==> LookupLost(s))
  {
    PassFacts(s);
    forall now | Completes(s, now) && Run(now).Downgrade? ensures LookupLost(s) {
      FindingNeedsLookup(s, now);
    }
    if LookupLost(s) {
      LostLookupHides(s);
    }
  }

  lemma FindingNeedsLookup(s: Subject, now: Subject)
    requires Loaded(s) && Run(s) == Passes && Completes(s, now) && Run(now).Downgrade?
    ensures Readable(s) && LookupLost(s)
  {
    PassNarrows(s, now);
    PassFacts(s);
    hide Lost, PredecessorProvenance, UnverifiedByOutage, Completes;
    if Strength(PredecessorProvenance(now, s.previous.value)) > Strength(Current(now)) {
      PredecessorReaches(s, now, s.previous.value);
    } else {
      StrengthOrders(PredecessorProvenance(now, ComparableBase(now).value), Strongest);
      PredecessorReaches(s, now, ComparableBase(s).value);
    }
  }

  /** The run in which deps.dev verifies whatever it did not answer about. */
  function Verifying(s: Subject): Subject {
    var yes := Answer(Facts(true, true, false, true));
    s.(lookups := map v | v in s.lookups :: if s.lookups[v] == Failed(Outage) then yes else s.lookups[v],
       depsDevError := if s.depsDevError == Some(Outage) then None else s.depsDevError,
       base := if s.base.Some? then Some(s.base.value.(unknown := false)) else None)
  }

  lemma LostLookupHides(s: Subject)
    requires Loaded(s) && Run(s) == Passes && Readable(s) && LookupLost(s)
    ensures Hides(s)
  {
    var now := Verifying(s);
    assert Completes(s, now);
    var v := if Lost(s, s.previous.value) then s.previous.value else ComparableBase(s).value;
    assert PredecessorProvenance(now, v) == v.provenance.(verified := true);
    assert Run(now).Downgrade?;
  }

  /** A release with an attestation deps.dev has read and not verified, after one whose
      attestation deps.dev would have verified had it answered, passes. */
  lemma PassOverLostLookup()
    ensures
      var p := Provenance(Attestation, false, "");
      var s := Subject("2", Some(Info("2", p, false)), Some(Info("1", p, false)), None, false, None, None,
                       Some(Facts(true, false, false, true)), None, map["1" := Failed(Outage)]);
      Loaded(s) && Run(s) == Passes && Hides(s)
  {
    var p := Provenance(Attestation, false, "");
    var s := Subject("2", Some(Info("2", p, false)), Some(Info("1", p, false)), None, false, None, None,
                     Some(Facts(true, false, false, true)), None, map["1" := Failed(Outage)]);
    assert Predecessors(s) == [p];
    assert Run(s) == Passes;
    assert Lost(s, s.previous.value);
    PassIsSound(s);
  }

  // ---- the skips ----

  lemma CurrentCannotFall(s: Subject, now: Subject)
    requires Readable(s) && Completes(s, now)
    ensures Readable(now) && Strength(Current(now)) >= Strength(Current(s))
    ensures s.depsDev.Some? ==> Current(now) == Current(s) && now.depsDev == s.depsDev
  {
  }

  /** Longer than either, so neither. */
  function OtherVersion(a: string, b: string): (v: string)
    ensures v != a && v != b
  {
    assert |a + b + "x"| > |a| && |a + b + "x"| > |b|;
    a + b + "x"
  }

  /** The run in which the base release turns out to carry the strongest evidence. */
  function StrongBase(s: Subject): Subject
    requires s.previous.Some?
  {
    var v := if s.base.Some? then s.base.value.version else OtherVersion(s.ref, s.previous.value.version);
    s.(base := Some(Info(v, Strongest, false)), baseError := None,
       depsDevError := if s.depsDevError == Some(Outage) then None else s.depsDevError)
  }

  lemma BaseGapHides(s: Subject)
    requires Loaded(s) && Readable(s) && Strength(Current(s)) < Strength(Strongest)
    requires BaseUnread(s, Current(s)) || s.baseError == Some(Outage)
    ensures Hides(s)
  {
    var now := StrongBase(s);
    assert Completes(s, now);
    assert ComparableBase(now) == now.base;
    assert Current(now) == Current(s);
    assert PredecessorProvenance(now, now.base.value) == Strongest;
    StrengthOrders(PredecessorProvenance(now, now.previous.value), Strongest);
    assert Run(now).Downgrade?;
  }

  /** The run in which deps.dev has read the evaluated release, verified nothing of it,
      and verified every release before it. */
  function Lagging(s: Subject): Subject
    requires s.previous.Some?
  {
    var yes := Answer(Facts(true, true, false, true));
    var lookups := map[s.previous.value.version := yes];
    s.(depsDev := Some(Facts(true, false, false, true)), depsDevError := None,
       lookups := if s.base.Some? then lookups[s.base.value.version := yes] else lookups)
  }

  lemma OwnOutageHides(s: Subject)
    requires Loaded(s) && Readable(s) && s.depsDev.None? && Run(s) == Skips(true)
    requires !BaseUnread(s, Current(s)) && s.baseError != Some(Outage)
    ensures Hides(s)
  {
    var ps := Predecessors(s);
    var i :| 0 <= i < |ps| && Liftable(ps[i], Current(s));
    var v := if i == 0 then s.previous.value else ComparableBase(s).value;
    assert ps[i] == PredecessorProvenance(s, v) == v.provenance;
    StrengthOrders(v.provenance.(verified := true), Strongest);
    var now := Lagging(s);
    assert !(s.base.Some? && s.base.value.unknown);
    assert Completes(s, now);
    assert Current(now) == Current(s);
    assert PredecessorProvenance(now, v) == v.provenance.(verified := true);
    assert Run(now).Downgrade?;
  }

  /** With deps.dev's facts in hand, only a lookup it did not answer can hide a finding. */
  lemma KnownFactsHide(s: Subject)
    requires Loaded(s) && Readable(s) && s.depsDev.Some? && Run(s) == Skips(true)
    requires !BaseUnread(s, Current(s)) && s.baseError != Some(Outage)
    ensures Hides(s) <==> LookupLost(s)
  {
    assert !(s.base.Some? && s.base.value.unknown) by { SkipLeaves(s); }
    forall now | Completes(s, now) && Run(now).Downgrade? ensures LookupLost(s) {
      CurrentCannotFall(s, now);
      assert now.base == s.base;
      SkipLeaves(s);
      KnownFactsReach(s, now, s.previous.value);
      if s.base.Some? { KnownFactsReach(s, now, s.base.value); }
    }
    if LookupLost(s) {
      var now := Verifying(s);
      assert Completes(s, now);
      var v := if Lost(s, s.previous.value) then s.previous.value else ComparableBase(s).value;
      assert PredecessorProvenance(now, v) == v.provenance.(verified := true);
      assert Run(now).Downgrade?;
    }
  }

  lemma SkipLeaves(s: Subject)
    requires Loaded(s) && Readable(s) && Run(s) == Skips(true)
    requires !BaseUnread(s, Current(s)) && s.baseError != Some(Outage)
    ensures s.base.Some? ==> !s.base.value.unknown && ComparableBase(s) == s.base
    ensures Strength(PredecessorProvenance(s, s.previous.value)) <= Strength(Current(s))
    ensures s.base.Some? ==> Strength(PredecessorProvenance(s, s.base.value)) <= Strength(Current(s))
  {
    var ps := Predecessors(s);
    var i :| 0 <= i < |ps| && Liftable(ps[i], Current(s));
    StrengthOrders(ps[i].(verified := true), Strongest);
  }

  lemma KnownFactsReach(s: Subject, now: Subject, v: Info)
    requires s.version.Some? && now.version == s.version && now.depsDev == s.depsDev && LookupsComplete(s, now)
    requires Strength(PredecessorProvenance(s, v)) <= Strength(Current(s))
    ensures Strength(PredecessorProvenance(now, v)) > Strength(Current(s)) ==> Lost(s, v)
  {
  }

  /** A skip over an outage: some answer would have made a finding exactly when the base
      release or deps.dev's own facts were what was missing and the evidence was not the
      strongest there is already, or when deps.dev lost a lookup that would have
      decided. */
  lemma SkipIsNeeded(s: Subject)
    requires Loaded(s) && Readable(s) && Run(s) == Skips(true)
    ensures
      Hides(s) <==>
      || (Strength(Current(s)) < Strength(Strongest)
          && (BaseUnread(s, Current(s)) || s.baseError == Some(Outage) || s.depsDev.None?))
      || LookupLost(s)
  {
    StrengthOrders(Current(s), Strongest);
    if BaseUnread(s, Current(s)) || s.baseError == Some(Outage) {
      if Strength(Current(s)) < Strength(Strongest) {
        BaseGapHides(s);
      } else {
        forall now | Completes(s, now) ensures !Run(now).Downgrade? {
          CurrentCannotFall(s, now);
          NoneAbove(now);
        }
        NothingLost(s);
      }
    } else {
      SkipLeaves(s);
      if s.depsDev.None? {
        OwnOutageHides(s);
        OutageSkipLifts(s);
      } else {
        KnownFactsHide(s);
      }
    }
  }

  lemma OutageSkipLifts(s: Subject)
    requires Readable(s) && Run(s) == Skips(true)
    requires !BaseUnread(s, Current(s)) && s.baseError != Some(Outage)
    ensures Strength(Current(s)) < Strength(Strongest)
  {
    var ps := Predecessors(s);
    var i :| 0 <= i < |ps| && Liftable(ps[i], Current(s));
    StrengthOrders(ps[i].(verified := true), Strongest);
  }

  lemma NoneAbove(s: Subject)
    requires Readable(s) && Strength(Current(s)) >= Strength(Strongest)
    ensures !Run(s).Downgrade?
  {
    StrengthOrders(PredecessorProvenance(s, s.previous.value), Strongest);
    if ComparableBase(s).Some? { StrengthOrders(PredecessorProvenance(s, ComparableBase(s).value), Strongest); }
  }

  lemma NothingLost(s: Subject)
    requires Readable(s) && Strength(Current(s)) >= Strength(Strongest)
    ensures !LookupLost(s)
  {
    StrengthOrders(s.previous.value.provenance.(verified := true), Strongest);
    if ComparableBase(s).Some? { StrengthOrders(ComparableBase(s).value.provenance.(verified := true), Strongest); }
  }

  /** deps.dev's advisory findings were out and nothing else was: the check skips as if its
      facts were, although no answer could have made a finding. */
  lemma SkipOverOtherOutage()
    ensures
      var p := Provenance(Attestation, false, "");
      var s := Subject("2", Some(Info("2", p, false)), Some(Info("1", p, false)), None, false, None, None,
                       Some(Facts(true, false, false, true)), Some(Outage), map["1" := Answer(Facts(true, false, false, true))]);
      Loaded(s) && Readable(s) && Run(s) == Skips(true) && !Hides(s)
  {
    var p := Provenance(Attestation, false, "");
    var s := Subject("2", Some(Info("2", p, false)), Some(Info("1", p, false)), None, false, None, None,
                     Some(Facts(true, false, false, true)), Some(Outage), map["1" := Answer(Facts(true, false, false, true))]);
    assert Predecessors(s)[0] == p;
    assert Liftable(p, Current(s));
    assert Run(s) == Skips(true);
    SkipIsNeeded(s);
  }

  // ---- indexing lag ----

  /** Where deps.dev has not indexed the evaluated release, or lists no attestation where
      the registry has one, what it says about the releases before it has no say. */
  lemma LagHasNoSay(s: Subject, other: map<string, Reply>)
    requires !MaySpeak(s)
    ensures Run(s.(lookups := other)) == Run(s)
  {
    var t := s.(lookups := other);
    if Readable(s) {
      assert Predecessors(t) == Predecessors(s);
    }
  }
}
