/** Which record a run compares with, and what TD002 and TD003 find when they do, told from
    the two files and what the registry says (internal/baseline/baseline.go: Set.Lookup;
    internal/checks/td002.go, td003.go: fromBaseline; internal/baseline/observe.go:
    PublisherOf). */
module BaselineVerdicts {
  import opened Text
  import opened Names
  import opened Baseline
  import opened BaselineFile
  import opened BaselineChecks

  /** A file, if there is one, records the package as this entry. */
  predicate RecordedAs(side: Side, k: Key, e: Entry) {
    side.Some? && exists i :: 0 <= i < |side.value| && side.value[i] == e && KeyOf(e) == k
                        && forall j :: 0 <= j < i ==> KeyOf(side.value[j]) != k
  }

  predicate Lacks(side: Side, k: Key) {
    side.Some? ==> forall i :: 0 <= i < |side.value| ==> KeyOf(side.value[i]) != k
  }

  lemma {:induction false} FindFirst(es: seq<Entry>, k: Key)
    ensures Find(es, k).Some? ==> RecordedAs(Some(es), k, Find(es, k).value)
    ensures Find(es, k).None? <==> Lacks(Some(es), k)
    ensures forall e :: RecordedAs(Some(es), k, e) ==> Find(es, k) == Some(e)
    decreases |es|
  {
    hide KeyOf;
    if es != [] {
      var rest := es[1..];
      FindFirst(rest, k);
      if KeyOf(es[0]) == k {
        assert RecordedAs(Some(es), k, es[0]);
      } else {
        assert forall i :: 0 <= i < |rest| ==> rest[i] == es[i + 1];
        if Find(rest, k).Some? {
          var i :| 0 <= i < |rest| && rest[i] == Find(rest, k).value && KeyOf(rest[i]) == k && forall j :: 0 <= j < i ==> KeyOf(rest[j]) != k;
          assert es[i + 1] == rest[i];
          forall j | 0 <= j < i + 1 ensures KeyOf(es[j]) != k { assert j > 0 ==> es[j] == rest[j - 1]; }
          assert RecordedAs(Some(es), k, es[i + 1]);
        }
        forall e | RecordedAs(Some(es), k, e) ensures Find(es, k) == Some(e) {
          var i :| 0 <= i < |es| && es[i] == e && KeyOf(e) == k && forall j :: 0 <= j < i ==> KeyOf(es[j]) != k;
          assert rest[i - 1] == e;
          forall j | 0 <= j < i - 1 ensures KeyOf(rest[j]) != k { assert rest[j] == es[j + 1]; }
          assert RecordedAs(Some(rest), k, e);
        }
      }
    }
  }

  lemma SideFindIs(side: Side, k: Key)
    ensures SideFind(side, k).Some? ==> RecordedAs(side, k, SideFind(side, k).value)
    ensures SideFind(side, k).None? <==> Lacks(side, k)
    ensures forall e :: RecordedAs(side, k, e) ==> SideFind(side, k) == Some(e)
  {
    if side.Some? { FindFirst(side.value, k); }
    hide Find;
  }

  /** What a check may compare with. With a base revision that is what the base file records,
      which the working tree may have touched only in when it was observed, and a package the
      base file lacks is compared with nothing. Without one it is what the working tree's own
      file records, as it stands, and nobody is said to have rewritten it. */
  lemma ComparedWith(head: Side, base: Side, k: Key)
    ensures base.Some? && Lacks(base, k) ==> Comparable(head, base, k).None?
    ensures base.None? && Lacks(head, k) ==> Comparable(head, base, k).None?
    ensures forall b :: RecordedAs(base, k, b) ==>
              && Comparable(head, base, k).Some?
              && SameSignals(Comparable(head, base, k).value.observed, b)
              && (Comparable(head, base, k).value.rewritten <==>
                  !exists h :: RecordedAs(head, k, h) && SameSignals(h, b))
    ensures forall h :: base.None? && RecordedAs(head, k, h) ==>
              Comparable(head, base, k) == Some(BaselineChecks.Record(h, false, false, None))
  {
    SideFindIs(head, k);
    SideFindIs(base, k);
    hide RecordedAs, Lacks, Find;
    forall b | RecordedAs(base, k, b)
      ensures
        && Comparable(head, base, k).Some?
        && SameSignals(Comparable(head, base, k).value.observed, b)
        && (Comparable(head, base, k).value.rewritten <==> !exists h :: RecordedAs(head, k, h) && SameSignals(h, b))
    {
      if SideFind(head, k).Some? { assert RecordedAs(head, k, SideFind(head, k).value); }
    }
  }

  /** What is kept of the working tree's record beside the one compared with: the record
      itself, when it says something else than the base. */
  lemma CurrentIs(head: Side, base: Side, k: Key, b: Entry)
    requires RecordedAs(base, k, b)
    ensures Comparable(head, base, k).Some?
    ensures forall h :: RecordedAs(head, k, h) && !SameSignals(h, b) ==> Comparable(head, base, k).value.current == Some(h)
    ensures Lacks(head, k) || (exists h :: RecordedAs(head, k, h) && SameSignals(h, b)) ==> Comparable(head, base, k).value.current == None
  {
    SideFindIs(head, k);
    SideFindIs(base, k);
    hide RecordedAs, Lacks, Find, SameSignals;
  }

  // ---- what is observed ----

  /** The second a moment is in. */
  predicate SecondOf(moment: int, second: int) {
    second <= moment < second + 1_000_000_000 && second % 1_000_000_000 == 0
  }

  lemma SecondIs(moment: int)
    ensures SecondOf(moment, moment - moment % SECOND)
  {
  }

  /** What an observation states, field by field: of the owners their names, and a gap when they
      could not be read or none has a name; of the release who published it and its provenance,
      and a gap for what could not be read. */
  lemma ObservedExactly(eco: string, name: string, version: string, now: int, info: Answer<Release>, owners: Answer<seq<string>>)
    ensures
      var e := Shaped(Observation(eco, name, version, now, info, owners));
      && e.eco == CanonicalEcosystem(eco) && e.name == NormalizeName(e.eco, name) && e.version == version && SecondOf(now, e.observedAt)
      && e.maintainers == (if owners.Got? then MaintainerSet(owners.value) else [])
      && (e.missing.maintainers <==> owners.Failed? || forall n :: n in owners.value ==> TrimSpace(n) == "")
      && (e.missing.release <==> info.Failed?)
      && (e.missing.provenance <==> info.Got? && info.value.provenanceUnknown)
      && (forall p :: e.provenance == Some(p) <==> info.Got? && !info.value.provenanceUnknown && info.value.provenance == p && p.kind != "")
      && (e.publisher != "" ==> info.Got? && NamedBy(info.value, e.publisher, e.source))
      && (forall i, s :: info.Got? && NamedBy(info.value, i, s) ==> e.publisher == i && e.source == s)
      && (e.publisher == "" ==> e.source == NoSource)
  {
    SecondIs(now);
    ShapedSets(eco, name, version, now, info, owners);
    if info.Got? { NamedByMeans(info.value); }
    NoMaintainers();
    if owners.Got? { NamesOrNone(owners.value); }
    hide MaintainerSet, NormalizeName, CanonicalEcosystem, NamedBy, PublisherOf, TrimSpace, SecondOf;
  }

  lemma NoMaintainers()
    ensures MaintainerSet([]) == []
  {
    assert Distinct([]) == [];
  }

  lemma NamesOrNone(names: seq<string>)
    ensures MaintainerSet(names) == [] <==> forall n :: n in names ==> TrimSpace(n) == ""
  {
    hide MaintainerSet, TrimSpace;
    MaintainerSetIs(names);
    var out := MaintainerSet(names);
    if out != [] {
      assert out[0] in out;
      assert Proper(out[0]);
    }
    forall n | n in names && TrimSpace(n) != "" ensures out != [] {
      assert HasFold(out, TrimSpace(n));
    }
  }

  // ---- TD002 ----

  /** The release names this identity: the account the registry gives, or where it gives none
      the one in the provenance, if that was read. */
  predicate NamedBy(r: Release, identity: string, source: Source) {
    var account := if r.publisher.Some? then r.publisher.value else "";
    || (account != "" && identity == account && source == FromRegistry)
    || (account == "" && !r.provenanceUnknown && r.provenance.identity != "" && identity == r.provenance.identity && source == FromProvenance)
  }

  lemma NamedByMeans(r: Release)
    ensures PublisherOf(r).0 != "" ==> NamedBy(r, PublisherOf(r).0, PublisherOf(r).1)
    ensures forall i, s :: NamedBy(r, i, s) ==> PublisherOf(r) == (i, s) && i != ""
  {
  }

  /** TD002 on the baseline: it compares exactly when the record has a publisher and the
      release names one from the same source; it passes when the two are one in any case of
      letters, and otherwise finds the new one in place of the recorded one. */
  lemma PublisherExactly(r: BaselineChecks.Record, release: Release)
    ensures
      var v := PublisherVerdict(Some(r), release);
      && (v.Compared? <==> r.observed.publisher != "" && exists i :: NamedBy(release, i, r.observed.source))
      && (v.Compared? ==> v.recorded == [r.observed.publisher])
      && forall i :: r.observed.publisher != "" && NamedBy(release, i, r.observed.source) ==>
           && (Passes(v) <==> EqualFold(i, r.observed.publisher))
           && (!Passes(v) ==> v.added == [i] && v.removed == [r.observed.publisher])
    ensures PublisherVerdict(None, release).Skips?
  {
    NamedByMeans(release);
    hide EqualFold, PublisherOf, NamedBy;
    if PublisherOf(release).0 != "" && PublisherOf(release).1 == r.observed.source {
      assert NamedBy(release, PublisherOf(release).0, r.observed.source);
    }
  }

  // ---- TD003 ----

  /** TD003 on the baseline: it compares exactly when the record names maintainers and the
      registry does; who was added is on the registry's list and in no case of letters in the
      record, who was removed the other way round, and nobody of either kind goes unsaid. */
  lemma MaintainersExactly(r: BaselineChecks.Record, owners: seq<string>)
    ensures
      var v := MaintainersVerdict(Some(r), owners);
      && (v.Compared? <==> r.observed.maintainers != [] && exists n :: n in owners && n != "")
      && (v.Compared? ==>
          && v.recorded == r.observed.maintainers
          && (forall x :: x in v.added ==> x in owners && x != "" && !HasFold(r.observed.maintainers, x))
          && (forall n :: n in owners && n != "" && !HasFold(r.observed.maintainers, n) ==> HasFold(v.added, n))
          && (forall x :: x in v.removed <==> x in r.observed.maintainers && (x == "" || !HasFold(owners, x))))
    ensures MaintainersVerdict(None, owners).Skips?
  {
    hide HasFold, EqualFold, Sorted;
    var recorded := r.observed.maintainers;
    var current := Sorted(Spelled(owners));
    SortedMembers(Spelled(owners));
    SpelledIs(owners);
    MissingNone(current, recorded);
    MissingNone(recorded, current);
    CurrentFolds(owners, recorded);
    if current != [] {
      assert current[0] in current && current[0] in owners && current[0] != "";
    } else {
      forall n | n in owners ensures n == "" { if n != "" { NoFold(Spelled(owners), n); } }
    }
    forall n | n in owners && n != "" && !HasFold(recorded, n) ensures HasFold(MissingFrom(current, recorded), n) {
      FoldOf(Spelled(owners), current, recorded, n);
    }
  }

  lemma FoldOf(spelled: seq<string>, current: seq<string>, recorded: seq<string>, n: string)
    requires HasFold(spelled, n) && !HasFold(recorded, n) && forall x :: x in spelled <==> x in current
    ensures HasFold(MissingFrom(current, recorded), n)
  {
    hide EqualFold;
    MissingNone(current, recorded);
    var k :| 0 <= k < |spelled| && EqualFold(spelled[k], n);
    assert spelled[k] in spelled && spelled[k] in current;
    if HasFold(recorded, spelled[k]) { HasFoldTrans(recorded, recorded, spelled[k], n); }
    var out := MissingFrom(current, recorded);
    assert spelled[k] in out;
    var j :| 0 <= j < |out| && out[j] == spelled[k];
  }
}
