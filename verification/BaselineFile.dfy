/** The baseline as the object a run updates (internal/baseline/baseline.go and
    internal/baseline/observe.go): Put, Keep and Lookup on a file, and the observations
    that are put into it. */
module BaselineFile {
  import opened Text
  import opened Names
  import opened Baseline

  class File {
    var updatedAt: int
    var packages: seq<Entry>

    /** In order, and no entry of the file says a signal is missing. */
    ghost predicate Valid()
      reads this
    {
      InOrder(packages) && forall e :: e in packages ==> e.missing == NoGaps
    }

    constructor (now: int)
      ensures Valid() && packages == [] && updatedAt == now - now % SECOND
    {
      updatedAt := now - now % SECOND;
      packages := [];
    }

    /** Lookup, by the canonical name. */
    method Lookup(eco: string, name: string) returns (found: Option<Entry>)
      requires Valid()
      ensures
        var k := Key(eco, NormalizeName(eco, name));
        found == if k in Records(packages) then Some(Records(packages)[k]) else None
    {
      var k := Key(eco, NormalizeName(eco, name));
      RecordsAre(packages);
      hide Records, InOrder;
      var i := 0;
      while i < |packages|
        invariant i <= |packages|
        invariant Find(packages[i..], k) == Find(packages, k)
      {
        assert packages[i..][1..] == packages[i + 1..];
        if packages[i].eco == eco && packages[i].name == k.name {
          return Some(packages[i]);
        }
        i := i + 1;
      }
      assert packages[i..] == [];
      found := None;
    }

    /** sort. */
    method Sort()
      modifies this`packages
      ensures packages == SortEntries(old(packages))
    {
      packages := SortEntries(packages);
    }

    /** Put: the observation in the shape the file gives it, recorded. */
    method Put(e: Entry) returns (shaped: Entry)
      requires Valid()
      modifies this`packages
      ensures Valid()
      ensures shaped == Shaped(e)
      ensures Records(packages) == Recorded(old(Records(packages)), shaped)
    {
      shaped := Shaped(e);
      var i := 0;
      ghost var k := KeyOf(shaped);
      while i < |packages|
        invariant i <= |packages|
        invariant packages == old(packages)
        invariant forall j :: 0 <= j < i ==> KeyOf(packages[j]) != k
      {
        if packages[i].eco == shaped.eco && packages[i].name == shaped.name {
          MergedIn(packages, i, shaped);
          packages := packages[i := Merge(packages[i], shaped)];
          return;
        }
        i := i + 1;
      }
      NoneRecorded(packages, k);
      if NothingRead(shaped) {
        return;
      }
      AppendedTo(packages, shaped.(missing := NoGaps));
      packages := packages + [shaped.(missing := NoGaps)];
      Sort();
    }

    /** Keep: the entries of locked packages stay, the others are returned. */
    method Keep(refs: seq<(string, string)>) returns (dropped: seq<Entry>)
      requires Valid()
      modifies this`packages
      ensures Valid()
      ensures packages == Kept(old(packages), Locked(refs))
      ensures dropped == Dropped(old(packages), Locked(refs))
    {
      var locked: set<Key> := {};
      for i := 0 to |refs|
        invariant locked == Locked(refs[..i])
      {
        assert refs[..i + 1] == refs[..i] + [refs[i]];
        locked := locked + {Key(refs[i].0, NormalizeName(refs[i].0, refs[i].1))};
      }
      assert refs[..|refs|] == refs;
      var kept: seq<Entry> := [];
      dropped := [];
      for i := 0 to |packages|
        invariant packages == old(packages)
        invariant kept == Kept(packages[..i], locked) && dropped == Dropped(packages[..i], locked)
      {
        hide InOrder;
        assert packages[..i + 1] == packages[..i] + [packages[i]];
        KeptSnoc(packages[..i], packages[i], locked);
        if KeyOf(packages[i]) in locked {
          kept := kept + [packages[i]];
          continue;
        }
        dropped := dropped + [packages[i]];
      }
      assert packages[..|packages|] == packages;
      KeepSplits(packages, locked);
      packages := kept;
    }
  }

  function Locked(refs: seq<(string, string)>): set<Key> {
    set r | r in refs :: Key(r.0, NormalizeName(r.0, r.1))
  }

  lemma NoneRecorded(es: seq<Entry>, k: Key)
    requires InOrder(es) && forall j :: 0 <= j < |es| ==> KeyOf(es[j]) != k
    ensures k !in Records(es)
  {
    RecordsAre(es);
    hide Records, InOrder, KeyOf;
  }

  /** A file in order records a map when its entries are the map's values. */
  lemma RecordsFrom(es: seq<Entry>, m: map<Key, Entry>)
    requires InOrder(es)
    requires forall i :: 0 <= i < |es| ==> KeyOf(es[i]) in m && m[KeyOf(es[i])] == es[i]
    requires forall k :: k in m ==> m[k] in es && KeyOf(m[k]) == k
    ensures Records(es) == m
  {
    hide Records, InOrder, KeyOf;
    RecordsAre(es);
    forall k ensures k in Records(es) <==> k in m
             ensures k in Records(es) ==> Records(es)[k] == m[k]
    {
      if k in Records(es) {
        var i :| 0 <= i < |es| && es[i] == Records(es)[k];
      }
    }
  }

  /** Replacing an entry by its merge. */
  lemma MergedIn(es: seq<Entry>, i: nat, e: Entry)
    requires InOrder(es) && i < |es| && KeyOf(es[i]) == KeyOf(e)
    requires forall x :: x in es ==> x.missing == NoGaps
    ensures
      var now := es[i := Merge(es[i], e)];
      InOrder(now) && Records(now) == Recorded(Records(es), e) && forall x :: x in now ==> x.missing == NoGaps
  {
    MergeKeepsKey(es[i], e);
    assert es[i] in es;
    assert Merge(es[i], e).missing == NoGaps;
    hide Merge, Records, Before, KeyOf;
    RecordsAre(es);
    ReplacedIn(es, i, Merge(es[i], e));
  }

  lemma ReplacedIn(es: seq<Entry>, i: nat, e: Entry)
    requires InOrder(es) && i < |es| && KeyOf(es[i]) == KeyOf(e)
    ensures InOrder(es[i := e]) && Records(es[i := e]) == Records(es)[KeyOf(e) := e]
  {
    hide Records, Before, KeyOf;
    var now, m := es[i := e], Records(es)[KeyOf(e) := e];
    SameKeysInOrder(es, now);
    RecordsAre(es);
    forall j | 0 <= j < |now| ensures KeyOf(now[j]) in m && m[KeyOf(now[j])] == now[j] {
      assert es[j] in es;
      if j != i && KeyOf(es[j]) == KeyOf(e) { KeysDiffer(es, i, j); }
    }
    forall k | k in m ensures m[k] in now && KeyOf(m[k]) == k {
      if k != KeyOf(e) {
        var j :| 0 <= j < |es| && es[j] == m[k];
        assert now[j] == m[k];
      } else {
        assert now[i] == e;
      }
    }
    RecordsFrom(now, m);
  }

  lemma SameKeysInOrder(a: seq<Entry>, b: seq<Entry>)
    requires InOrder(a) && |a| == |b| && forall i :: 0 <= i < |a| ==> KeyOf(a[i]) == KeyOf(b[i])
    ensures InOrder(b)
  {
    hide Before, KeyOf;
  }

  /** Appending a new entry and sorting. */
  lemma AppendedTo(es: seq<Entry>, e: Entry)
    requires InOrder(es) && forall j :: 0 <= j < |es| ==> KeyOf(es[j]) != KeyOf(e)
    requires e.missing == NoGaps && forall x :: x in es ==> x.missing == NoGaps
    ensures
      var now := SortEntries(es + [e]);
      InOrder(now) && Records(now) == Records(es)[KeyOf(e) := e] && forall x :: x in now ==> x.missing == NoGaps
  {
    hide Records, Before, KeyOf, SortEntries;
    SortAppended(es, e);
    var now := SortEntries(es + [e]);
    RecordsAre(es);
    RecordsFrom(now, Records(es)[KeyOf(e) := e]);
  }

  // ---- observations ----

  /** What a source answers, or that it did not. */
  datatype Answer<T> = Failed | Got(value: T)

  /** A release as the registry client reports it. Provenance is unknown when the registry
      could not answer for it. */
  datatype Release = Release(publisher: Option<string>, provenanceUnknown: bool, provenance: Provenance)

  /** PublisherOf. */
  function PublisherOf(r: Release): (string, Source) {
    if r.publisher.Some? && r.publisher.value != [] then (r.publisher.value, FromRegistry)
    else if r.provenanceUnknown then ("", NoSource)
    else if r.provenance.identity != [] then (r.provenance.identity, FromProvenance)
    else ("", NoSource)
  }

  /** observe. */
  method Observe(eco: string, name: string, version: string, now: int, info: Answer<Release>, owners: Answer<seq<string>>)
    returns (e: Entry)
    ensures e == Shaped(Observation(eco, name, version, now, info, owners))
  {
    e := Entry(eco, name, version, now, [], "", NoSource, None, NoGaps);
    if info.Failed? {
      e := e.(missing := e.missing.(release := true));
    } else {
      if info.value.provenanceUnknown {
        e := e.(missing := e.missing.(provenance := true));
      } else if info.value.provenance.kind != [] {
        e := e.(provenance := Some(info.value.provenance));
      }
      var p := PublisherOf(info.value);
      e := e.(publisher := p.0, source := p.1);
    }
    if owners.Failed? {
      e := e.(missing := e.missing.(maintainers := true));
    } else {
      var names := NormalizeNames(owners.value);
      e := e.(maintainers := names);
      if |names| == 0 {
        e := e.(missing := e.missing.(maintainers := true));
      }
    }
    ShapedSets(eco, name, version, now, info, owners);
    hide MaintainerSet, NormalizeName, CanonicalEcosystem;
    e := Shaped(e);
  }

  function Observation(eco: string, name: string, version: string, now: int, info: Answer<Release>, owners: Answer<seq<string>>): Entry {
    var names := if owners.Got? then MaintainerSet(owners.value) else [];
    var p := if info.Got? then PublisherOf(info.value) else ("", NoSource);
    var evidence := info.Got? && !info.value.provenanceUnknown && info.value.provenance.kind != [];
    Entry(eco, name, version, now, names, p.0, p.1,
          if evidence then Some(info.value.provenance) else None,
          Gaps(names == [], info.Failed?, info.Got? && info.value.provenanceUnknown))
  }

  lemma ShapedSets(eco: string, name: string, version: string, now: int, info: Answer<Release>, owners: Answer<seq<string>>)
    ensures owners.Got? ==> MaintainerSet(MaintainerSet(owners.value)) == MaintainerSet(owners.value)
  {
    if owners.Got? { MaintainerSetTwice(owners.value); }
  }

  /** What an observation did not read it does not state. */
  predicate WellRead(e: Entry) {
    && (e.missing.maintainers ==> e.maintainers == [])
    && (e.missing.release ==> e.publisher == [] && e.source == NoSource && e.provenance == None)
    && (e.missing.provenance ==> e.provenance == None)
  }

  lemma ObservationsAreWellRead(eco: string, name: string, version: string, now: int, info: Answer<Release>, owners: Answer<seq<string>>)
    ensures WellRead(Shaped(Observation(eco, name, version, now, info, owners)))
  {
    assert MaintainerSet([]) == [] by { assert Distinct([]) == []; }
    hide MaintainerSet, NormalizeName, CanonicalEcosystem;
  }

  // ---- updating the file ----

  /** The records after a sequence of observations. */
  function RecordedAll(m: map<Key, Entry>, observed: seq<Entry>): map<Key, Entry> {
    if observed == [] then m
    else Recorded(RecordedAll(m, observed[..|observed| - 1]), Shaped(observed[|observed| - 1]))
  }

  /** Update, between reading the file and writing it back: every observation is put, and
      a full snapshot then drops what the project no longer locks, and returns just that. */
  method Update(f: File, observed: seq<Entry>, keep: Option<seq<(string, string)>>, now: int) returns (dropped: seq<Entry>)
    requires f.Valid()
    modifies f
    ensures f.Valid() && f.updatedAt == now - now % SECOND
    ensures
      var m := RecordedAll(old(Records(f.packages)), observed);
      match keep
      case None => Records(f.packages) == m && dropped == []
      case Some(refs) =>
        && Records(f.packages) == Restricted(m, Locked(refs))
        && InOrder(dropped) && Records(dropped) == Without(m, Locked(refs))
  {
    f.updatedAt := now - now % SECOND;
    dropped := [];
    for i := 0 to |observed|
      invariant f.Valid() && f.updatedAt == now - now % SECOND
      invariant Records(f.packages) == RecordedAll(old(Records(f.packages)), observed[..i])
    {
      hide Records, Recorded, Shaped, InOrder;
      assert observed[..i + 1][..i] == observed[..i];
      var _ := f.Put(observed[i]);
    }
    assert observed[..|observed|] == observed;
    if keep.Some? {
      ghost var before := f.packages;
      dropped := f.Keep(keep.value);
      KeptRecords(before, Locked(keep.value));
    }
  }

  function Restricted(m: map<Key, Entry>, keys: set<Key>): map<Key, Entry> {
    map k | k in m && k in keys :: m[k]
  }

  function Without(m: map<Key, Entry>, keys: set<Key>): map<Key, Entry> {
    map k | k in m && k !in keys :: m[k]
  }

  lemma KeptRecords(es: seq<Entry>, locked: set<Key>)
    requires InOrder(es)
    ensures Records(Kept(es, locked)) == Restricted(Records(es), locked)
    ensures InOrder(Dropped(es, locked)) && Records(Dropped(es, locked)) == Without(Records(es), locked)
  {
    hide Records, InOrder, KeyOf, Kept, Dropped;
    KeepSplits(es, locked);
    RecordsAre(es);
    RecordsFrom(Kept(es, locked), Restricted(Records(es), locked));
    RecordsFrom(Dropped(es, locked), Without(Records(es), locked));
  }
}
