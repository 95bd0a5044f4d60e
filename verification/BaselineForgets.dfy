/** When a record forgets who published the release it is of (merge in
    internal/baseline/baseline.go, observe and PublisherOf in internal/baseline/observe.go),
    and what TD002 makes of that (internal/checks/td002.go). */
module BaselineForgets {
  import opened Text
  import opened Names
  import opened Baseline
  import opened BaselineFile
  import opened BaselineHistory
  import BaselineChecks

  /** The registry names no account, and no identity was read from the provenance. */
  predicate NamesNobody(r: Release) {
    !(r.publisher.Some? && r.publisher.value != []) && (r.provenanceUnknown || r.provenance.identity == [])
  }

  lemma ShapedRelease(eco: string, name: string, version: string, now: int, info: Answer<Release>, owners: Answer<seq<string>>)
    ensures
      var e := Shaped(Observation(eco, name, version, now, info, owners));
      && e.version == version && (e.missing.release <==> info.Failed?)
      && (info.Got? ==>
          && e.publisher == PublisherOf(info.value).0
          && (e.publisher != [] ==> e.source == PublisherOf(info.value).1)
          && (e.missing.provenance <==> info.value.provenanceUnknown)
          && e.provenance == if !info.value.provenanceUnknown && info.value.provenance.kind != [] then Some(info.value.provenance) else None)
  {
    hide MaintainerSet, NormalizeName, CanonicalEcosystem;
  }

  /** A recorded publisher is forgotten, while the version stays, exactly when the release
      was read again and named nobody. A provenance that could not be read names nobody, so
      a registry that names no account keeps the provenance and loses whom it named. */
  lemma PublisherLostExactly(h: seq<Entry>, eco: string, name: string, version: string, now: int, info: Answer<Release>, owners: Answer<seq<string>>)
    requires Record(h).Some? && Record(h).value.publisher != []
    ensures
      var was, after := Record(h).value, Record(h + [Shaped(Observation(eco, name, version, now, info, owners))]);
      && after.Some?
      && (after.value.version == was.version && after.value.publisher == []
          <==> info.Got? && version == was.version && NamesNobody(info.value))
      && (info.Got? && version == was.version && info.value.provenanceUnknown ==> after.value.provenance == was.provenance)
  {
    ShapedRelease(eco, name, version, now, info, owners);
    hide Shaped, Observation, SameSignals, Record;
    RecordSnoc(h, Shaped(Observation(eco, name, version, now, info, owners)));
  }

  /** What an index that names no account says of a release and its evidence. */
  function Attested(p: Provenance): Answer<Release> {
    Got(Release(None, false, p))
  }

  function Unanswered(p: Provenance): Answer<Release> {
    Got(Release(None, true, p))
  }

  /** Two observations of one release on an index that names no account: the first reads the
      identity in its attestation, the lookup of the second fails. The record keeps the
      attestation and forgets the publisher, and a later release that somebody else attested
      is no longer compared with anything. */
  lemma FailedLookupForgets(eco: string, name: string, version: string, first: int, second: int, p: Provenance, q: Provenance, owners: Answer<seq<string>>, later: Provenance)
    requires p.kind != [] && p.identity != [] && later.identity != [] && !EqualFold(later.identity, p.identity)
    ensures
      var a := Shaped(Observation(eco, name, version, first, Attested(p), owners));
      var b := Shaped(Observation(eco, name, version, second, Unanswered(q), owners));
      var before, after := Record([a]), Record([a] + [b]);
      && before.Some? && before.value.publisher == p.identity && before.value.provenance == Some(p)
      && after.Some? && after.value.version == before.value.version
      && after.value.publisher == [] && after.value.provenance == Some(p)
      && var told := Release(None, false, later);
         && BaselineChecks.PublisherVerdict(Some(BaselineChecks.Record(before.value, false, false, None)), told)
            == BaselineChecks.Compared([p.identity], [later.identity], [p.identity])
         && BaselineChecks.PublisherVerdict(Some(BaselineChecks.Record(after.value, false, false, None)), told).Skips?
  {
    ShapedRelease(eco, name, version, first, Attested(p), owners);
    var a := Shaped(Observation(eco, name, version, first, Attested(p), owners));
    hide Shaped, Observation, SameSignals, Record, EqualFold;
    RecordSnoc([], a);
    assert [] + [a] == [a];
    NoRecord();
    PublisherLostExactly([a], eco, name, version, second, Unanswered(q), owners);
  }

  lemma NoRecord()
    ensures Record([]) == None
  {
  }
}
