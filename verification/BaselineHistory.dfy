/** What a record says after any sequence of observations of its package
    (merge and Put in internal/baseline/baseline.go). */
module BaselineHistory {
  import opened Text
  import opened Baseline
  import opened BaselineFile

  /** One observation more, for one package. */
  function Then(was: Option<Entry>, e: Entry): Option<Entry> {
    match was
    case Some(w) => Some(Merge(w, e))
    case None => if NothingRead(e) then None else Some(e.(missing := NoGaps))
  }

  /** The record after a sequence of observations. */
  function Record(h: seq<Entry>): Option<Entry> {
    if h == [] then None else Then(Record(h[..|h| - 1]), h[|h| - 1])
  }

  /** A sequence of observations of one package, each stating only what it read. */
  predicate History(h: seq<Entry>) {
    forall i :: 0 <= i < |h| ==> WellRead(h[i]) && KeyOf(h[i]) == KeyOf(h[0])
  }

  /** The observations of one package among those of many. */
  function Of(h: seq<Entry>, k: Key): seq<Entry> {
    if h == [] then []
    else Of(h[..|h| - 1], k) + if KeyOf(Shaped(h[|h| - 1])) == k then [Shaped(h[|h| - 1])] else []
  }

  /** A record the file had, as an observation that read everything it states. */
  function Had(m: map<Key, Entry>, k: Key): seq<Entry> {
    if k in m then [m[k]] else []
  }

  lemma RecordHad(m: map<Key, Entry>, k: Key)
    requires k in m ==> m[k].missing == NoGaps
    ensures Record(Had(m, k)) == if k in m then Some(m[k]) else None
    ensures k in m ==> WellRead(m[k])
  {
    if k in m {
      var h := [m[k]];
      assert h[..0] == [];
      assert Record(h[..0]) == None;
    }
  }

  lemma RecordSnoc(h: seq<Entry>, e: Entry)
    ensures Record(h + [e]) == Then(Record(h), e)
  {
    assert (h + [e])[..|h|] == h;
    hide Then;
  }

  function At(m: map<Key, Entry>, k: Key): Option<Entry> {
    if k in m then Some(m[k]) else None
  }

  lemma RecordedAt(m: map<Key, Entry>, e: Entry, k: Key)
    ensures At(Recorded(m, e), k) == if KeyOf(e) == k then Then(At(m, k), e) else At(m, k)
  {
    hide Merge, NothingRead;
  }

  lemma OneMore(m: map<Key, Entry>, h: seq<Entry>, k: Key)
    requires h != []
    ensures
      var n := |h| - 1;
      && RecordedAll(m, h) == Recorded(RecordedAll(m, h[..n]), Shaped(h[n]))
      && Of(h, k) == Of(h[..n], k) + if KeyOf(Shaped(h[n])) == k then [Shaped(h[n])] else []
  {
    hide Recorded, Shaped;
  }

  /** A file, empty or not, records of each package what its record of it and then the
      package's own observations make of it, whatever else was put in between: what follows
      for histories holds of those that continue a record as well. */
  lemma {:induction false} RecordOfEach(m: map<Key, Entry>, h: seq<Entry>, k: Key)
    requires k in m ==> m[k].missing == NoGaps
    ensures Record(Had(m, k) + Of(h, k)) == At(RecordedAll(m, h), k)
  {
    hide *;
    if h == [] {
      RecordHad(m, k);
      NoneMore(m, k);
    } else {
      var n := |h| - 1;
      RecordOfEach(m, h[..n], k);
      OneMore(m, h, k);
      var e := Shaped(h[n]);
      RecordedAt(RecordedAll(m, h[..n]), e, k);
      if KeyOf(e) == k {
        RecordSnoc(Had(m, k) + Of(h[..n], k), e);
        Grouped(Had(m, k), Of(h[..n], k), [e]);
      } else {
        assert Of(h[..n], k) + [] == Of(h[..n], k);
      }
    }
  }

  lemma NoneMore(m: map<Key, Entry>, k: Key)
    ensures RecordedAll(m, []) == m && Had(m, k) + Of([], k) == Had(m, k)
    ensures At(m, k) == if k in m then Some(m[k]) else None
  {
  }

  // ---- the closed form ----

  /** The maintainers of the latest observation that read them. */
  function LatestMaintainers(h: seq<Entry>): seq<string> {
    if h == [] then []
    else if !h[|h| - 1].missing.maintainers then h[|h| - 1].maintainers
    else LatestMaintainers(h[..|h| - 1])
  }

  /** The latest observation that read the release. */
  function LatestRelease(h: seq<Entry>): Option<nat> {
    if h == [] then None
    else if !h[|h| - 1].missing.release then Some(|h| - 1)
    else LatestRelease(h[..|h| - 1])
  }

  /** The first observation that read anything. */
  function FirstRead(h: seq<Entry>): Option<nat> {
    if h == [] then None
    else
      match FirstRead(h[..|h| - 1])
      case Some(i) => Some(i)
      case None => if NothingRead(h[|h| - 1]) then None else Some(|h| - 1)
  }

  lemma {:induction false} LatestReleaseIs(h: seq<Entry>)
    ensures
      match LatestRelease(h)
      case Some(i) => i < |h| && !h[i].missing.release && forall j :: i < j < |h| ==> h[j].missing.release
      case None => forall j :: 0 <= j < |h| ==> h[j].missing.release
  {
    if h != [] {
      var init := h[..|h| - 1];
      LatestReleaseIs(init);
      assert forall j :: 0 <= j < |init| ==> init[j] == h[j];
    }
  }

  lemma {:induction false} FirstReadIs(h: seq<Entry>)
    ensures
      match FirstRead(h)
      case Some(i) => i < |h| && !NothingRead(h[i]) && forall j :: 0 <= j < i ==> NothingRead(h[j])
      case None => forall j :: 0 <= j < |h| ==> NothingRead(h[j])
  {
    if h != [] {
      var init := h[..|h| - 1];
      FirstReadIs(init);
      assert forall j :: 0 <= j < |init| ==> init[j] == h[j];
    }
  }

  /** There is a record from the first observation that read anything on. */
  lemma {:induction false} RecordedSince(h: seq<Entry>)
    ensures Record(h).Some? <==> FirstRead(h).Some?
  {
    if h != [] {
      RecordedSince(h[..|h| - 1]);
    }
  }

  /** The maintainers recorded are those of the latest observation that read them. */
  lemma {:induction false} MaintainersAreLatest(h: seq<Entry>)
    requires History(h) && Record(h).Some?
    ensures Record(h).value.maintainers == LatestMaintainers(h)
  {
    var n := |h| - 1;
    var init := h[..n];
    if Record(init).Some? {
      MaintainersAreLatest(init);
    } else {
      RecordedSince(init);
      FirstReadIs(init);
      NoneLatest(init);
    }
  }

  lemma {:induction false} NoneLatest(h: seq<Entry>)
    requires forall i :: 0 <= i < |h| ==> NothingRead(h[i])
    ensures LatestMaintainers(h) == [] && LatestRelease(h) == None
  {
    if h != [] {
      NoneLatest(h[..|h| - 1]);
    }
  }

  /** Version and publisher move together: both are those of the latest observation that
      read the release. A record whose release nobody read names the version it was first
      recorded at, and no publisher. */
  lemma {:induction false} ReleaseIsLatest(h: seq<Entry>)
    requires History(h) && Record(h).Some?
    ensures
      var r := Record(h).value;
      match LatestRelease(h)
      case Some(i) => i < |h| && r.version == h[i].version && r.publisher == h[i].publisher && r.source == h[i].source
      case None =>
        && FirstRead(h).Some? && FirstRead(h).value < |h| && r.version == h[FirstRead(h).value].version
        && r.publisher == [] && r.source == NoSource && r.provenance == None
  {
    LatestReleaseIs(h);
    RecordedSince(h);
    FirstReadIs(h);
    var n := |h| - 1;
    var init := h[..n];
    RecordedSince(init);
    if Record(init).Some? {
      ReleaseIsLatest(init);
      LatestReleaseIs(init);
    } else {
      FirstReadIs(init);
      NoneLatest(init);
    }
  }

  /** The provenance recorded was read from the release recorded: by an observation of
      that very version, and no later observation read another answer for it. */
  lemma {:induction false} ProvenanceStays(h: seq<Entry>) returns (i: nat)
    requires History(h) && Record(h).Some? && Record(h).value.provenance.Some?
    ensures i < |h|
    ensures h[i].version == Record(h).value.version && h[i].provenance == Record(h).value.provenance
    ensures !h[i].missing.release && !h[i].missing.provenance
    ensures forall j :: i < j < |h| && !h[j].missing.release ==>
              h[j].version == Record(h).value.version && h[j].missing.provenance
  {
    hide SameSignals;
    var n := |h| - 1;
    var init, e := h[..n], h[n];
    if Record(init).None? {
      i := n;
    } else if e.missing.release {
      i := ProvenanceStays(init);
    } else if e.missing.provenance {
      i := ProvenanceStays(init);
    } else {
      i := n;
    }
  }

  /** When the latest observation of the release read its provenance, that is the one
      recorded; one that read there is none clears it. */
  lemma {:induction false} ProvenanceIsLatest(h: seq<Entry>)
    requires History(h) && Record(h).Some?
    requires LatestRelease(h).Some? && LatestRelease(h).value < |h| && !h[LatestRelease(h).value].missing.provenance
    ensures Record(h).value.provenance == h[LatestRelease(h).value].provenance
  {
    var n := |h| - 1;
    var init, e := h[..n], h[n];
    if Record(init).Some? && e.missing.release {
      LatestReleaseIs(init);
      ProvenanceIsLatest(init);
    } else if Record(init).None? {
      RecordedSince(init);
      FirstReadIs(init);
      NoneLatest(init);
    }
  }

  /** observed_at is the time of the observation the current signals came from: at every
      observation since, the record showed the same signals, and just before it there was
      no record or one that showed others. */
  lemma {:induction false} ObservedAtIsLastChange(h: seq<Entry>) returns (i: nat)
    requires Record(h).Some?
    ensures i < |h| && Record(h).value.observedAt == h[i].observedAt
    ensures forall j :: i < j <= |h| ==> Record(h[..j]).Some? && SameSignals(Record(h[..j]).value, Record(h).value)
    ensures Record(h[..i]).Some? ==> !SameSignals(Record(h[..i]).value, Record(h).value)
  {
    var n := |h| - 1;
    var init := h[..n];
    assert h[..|h|] == h;
    if Record(init).None? || !SameSignals(Record(init).value, Record(h).value) {
      i := n;
      assert Record(init).Some? ==> Record(h).value.observedAt == h[n].observedAt by {
        if Record(init).Some? { ChangedNow(Record(init).value, h[n]); }
      }
    } else {
      hide Merge, SameSignals;
      i := ObservedAtIsLastChange(init);
      UnchangedKeeps(Record(init).value, h[n]);
      forall j | i < j <= |h| ensures Record(h[..j]).Some? && SameSignals(Record(h[..j]).value, Record(h).value) {
        if j < |h| {
          assert init[..j] == h[..j];
          SignalsTrans(Record(h[..j]).value, Record(init).value, Record(h).value);
        } else {
          SignalsTrans(Record(h).value, Record(h).value, Record(h).value);
        }
      }
      assert init[..i] == h[..i];
      if Record(h[..i]).Some? {
        SignalsTrans(Record(h[..i]).value, Record(h).value, Record(init).value);
        SignalsTrans(Record(init).value, Record(h).value, Record(init).value);
      }
    }
  }

  lemma ChangedNow(was: Entry, now: Entry)
    requires !SameSignals(was, Merge(was, now))
    ensures Merge(was, now).observedAt == now.observedAt
  {
  }

  lemma UnchangedKeeps(was: Entry, now: Entry)
    requires SameSignals(was, Merge(was, now))
    ensures Merge(was, now).observedAt == was.observedAt
  {
  }

  lemma SignalsTrans(a: Entry, b: Entry, c: Entry)
    ensures SameSignals(a, b) && SameSignals(b, c) ==> SameSignals(a, c)
    ensures SameSignals(a, b) <==> SameSignals(b, a)
    ensures SameSignals(a, a) && SameSignals(b, b)
    ensures SameSignals(b, c) <==> SameSignals(c, b)
  {
  }

  /** Putting the same observation twice is putting it once. */
  lemma SameObservationTwice(h: seq<Entry>, e: Entry)
    ensures Record(h + [e] + [e]) == Record(h + [e])
  {
    assert (h + [e])[..|h|] == h;
    assert (h + [e] + [e])[..|h| + 1] == h + [e];
    if Record(h).Some? { MergeTwice(Record(h).value, e); }
    MergeFirst(e);
    hide Merge;
  }
}
