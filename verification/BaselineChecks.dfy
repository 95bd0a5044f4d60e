/** The readers of the record: Set.Lookup (internal/baseline/baseline.go), the comparisons
    TD003 and TD002 make with it (internal/checks/td003.go, internal/checks/td002.go), and
    targets and Compare (internal/baseline/observe.go). */
module BaselineChecks {
  import opened Text
  import opened Names
  import opened Baseline
  import opened BaselineFile

  // ---- which record a run compares with ----

  datatype Record = Record(observed: Entry, rewritten: bool, added: bool, current: Option<Entry>)

  /** One side of a run: its file's entries, or no file at all. */
  type Side = Option<seq<Entry>>

  function SideFind(side: Side, k: Key): Option<Entry> {
    match side
    case None => None
    case Some(es) => Find(es, k)
  }

  /** Set.Lookup. */
  function SetLookup(head: Side, base: Side, k: Key): Option<Record> {
    var inHead, inBase := SideFind(head, k), SideFind(base, k);
    if inBase.None? && inHead.None? then None
    else if inBase.None? then Some(Record(inHead.value, false, base.Some?, None))
    else if inHead.Some? && SameSignals(inHead.value, inBase.value) then Some(Record(inHead.value, false, false, None))
    else if inHead.Some? then Some(Record(inBase.value, true, false, inHead))
    else Some(Record(inBase.value, true, false, None))
  }

  /** baselineRecord: the record a check may compare with. */
  function Comparable(head: Side, base: Side, k: Key): Option<Record> {
    var r := SetLookup(head, base, k);
    if r.None? || r.value.added then None else r
  }

  // ---- TD003 ----

  /** publisherNames before the sort: the names that are not empty, one spelling each. */
  function Spelled(names: seq<string>): seq<string> {
    if names == [] then []
    else
      var out, name := Spelled(names[..|names| - 1]), names[|names| - 1];
      if name == [] || HasFold(out, name) then out else out + [name]
  }

  method PublisherNames(publishers: seq<string>) returns (names: seq<string>)
    ensures names == Sorted(Spelled(publishers))
  {
    hide HasFold, Sorted;
    names := [];
    for i := 0 to |publishers|
      invariant names == Spelled(publishers[..i])
    {
      assert publishers[..i + 1][..i] == publishers[..i];
      var seen := ContainsFold(names, publishers[i]);
      if publishers[i] != "" && !seen {
        names := names + [publishers[i]];
      }
    }
    assert publishers[..|publishers|] == publishers;
    names := Sorted(names);
  }

  function MissingFrom(a: seq<string>, b: seq<string>): seq<string> {
    if a == [] then []
    else MissingFrom(a[..|a| - 1], b) + if HasFold(b, a[|a| - 1]) then [] else [a[|a| - 1]]
  }

  /** namesMissingFrom, and missing of the baseline package. */
  method NamesMissingFrom(a: seq<string>, b: seq<string>) returns (out: seq<string>)
    ensures out == MissingFrom(a, b)
  {
    hide HasFold;
    out := [];
    for i := 0 to |a|
      invariant out == MissingFrom(a[..i], b)
    {
      assert a[..i + 1][..i] == a[..i];
      var has := ContainsFold(b, a[i]);
      if !has {
        out := out + [a[i]];
      }
    }
    assert a[..|a|] == a;
  }

  /** What a check makes of the record: it skips, or it compared what it found now with
      what was recorded. */
  datatype Comparison<T> = Skips | Compared(recorded: T, added: T, removed: T)

  /** td003.fromBaseline, with the package's current owners. */
  function MaintainersVerdict(record: Option<Record>, owners: seq<string>): Comparison<seq<string>> {
    if record.None? || record.value.observed.maintainers == [] then Skips
    else
      var recorded, current := record.value.observed.maintainers, Sorted(Spelled(owners));
      if current == [] then Skips
      else Compared(recorded, MissingFrom(current, recorded), MissingFrom(recorded, current))
  }

  predicate Passes<T(==)>(c: Comparison<seq<T>>) {
    c.Compared? && c.added == [] && c.removed == []
  }

  lemma {:induction false} MissingNone(a: seq<string>, b: seq<string>)
    ensures MissingFrom(a, b) == [] <==> forall x :: x in a ==> HasFold(b, x)
    ensures forall x :: x in MissingFrom(a, b) <==> x in a && !HasFold(b, x)
  {
    hide HasFold;
    if a != [] {
      var init, last := a[..|a| - 1], a[|a| - 1];
      assert a == init + [last];
      MissingNone(init, b);
    }
  }

  lemma {:induction false} SpelledIs(names: seq<string>)
    ensures forall x :: x in Spelled(names) ==> x in names && x != []
    ensures forall n :: n in names && n != [] ==> HasFold(Spelled(names), n)
  {
    hide EqualFold;
    if names != [] {
      var init, last := names[..|names| - 1], names[|names| - 1];
      assert names == init + [last];
      SpelledIs(init);
      var out := Spelled(init);
      FoldSame(last);
      assert last != [] ==> HasFold(Spelled(names), last) by {
        if last != [] && !HasFold(out, last) { assert Spelled(names)[|out|] == last; }
      }
      forall n | n in init && n != [] ensures HasFold(Spelled(names), n) {
        var k :| 0 <= k < |out| && EqualFold(out[k], n);
        assert Spelled(names)[k] == out[k];
      }
    }
  }

  lemma FoldTrans(a: string, b: string, c: string)
    ensures EqualFold(a, b) && EqualFold(b, c) ==> EqualFold(a, c)
  {
  }

  lemma HasFoldTrans(names: seq<string>, more: seq<string>, a: string, b: string)
    requires HasFold(names, a) && EqualFold(a, b) && forall x :: x in names ==> x in more
    ensures HasFold(more, b)
  {
    hide EqualFold;
    var i :| 0 <= i < |names| && EqualFold(names[i], a);
    FoldTrans(names[i], a, b);
    assert names[i] in names;
    var j :| 0 <= j < |more| && more[j] == names[i];
  }

  /** TD003 passes on the baseline exactly when the registry lists the recorded
      maintainers and nobody else, whatever the case they are written in and however
      often they are listed. */
  lemma PassMeansSameSet(record: Option<Record>, owners: seq<string>)
    ensures
      Passes(MaintainersVerdict(record, owners)) <==>
      && record.Some? && record.value.observed.maintainers != []
      && (exists n :: n in owners && n != [])
      && (forall n :: n in owners && n != [] ==> HasFold(record.value.observed.maintainers, n))
      && (forall m :: m in record.value.observed.maintainers ==> m != [] && HasFold(owners, m))
  {
    hide HasFold, EqualFold, Sorted;
    if record.Some? && record.value.observed.maintainers != [] {
      var recorded, current := record.value.observed.maintainers, Sorted(Spelled(owners));
      SortedMembers(Spelled(owners));
      SpelledIs(owners);
      MissingNone(current, recorded);
      MissingNone(recorded, current);
      CurrentFolds(owners, recorded);
      if current == [] {
        forall n | n in owners ensures n == [] { if n != [] { NoFold(Spelled(owners), n); } }
      } else {
        assert current[0] in current && current[0] in owners && current[0] != [];
        assert (forall m :: m in recorded ==> HasFold(current, m)) <==> forall m :: m in recorded ==> m != [] && HasFold(owners, m);
      }
    }
  }

  lemma NoFold(names: seq<string>, n: string)
    requires HasFold(names, n)
    ensures names != []
  {
  }

  lemma CurrentFolds(owners: seq<string>, recorded: seq<string>)
    ensures
      var current := Sorted(Spelled(owners));
      && ((forall x :: x in current ==> HasFold(recorded, x)) <==> forall n :: n in owners && n != [] ==> HasFold(recorded, n))
      && (forall m :: HasFold(current, m) <==> m != [] && HasFold(owners, m))
  {
    hide Sorted, EqualFold;
    var spelled := Spelled(owners);
    var current := Sorted(spelled);
    SortedMembers(spelled);
    SpelledIs(owners);
    if forall x :: x in current ==> HasFold(recorded, x) {
      forall n | n in owners && n != [] ensures HasFold(recorded, n) {
        var k :| 0 <= k < |spelled| && EqualFold(spelled[k], n);
        assert spelled[k] in current;
        HasFoldTrans(recorded, recorded, spelled[k], n);
      }
    }
    forall m ensures HasFold(current, m) <==> m != [] && HasFold(owners, m) {
      if HasFold(current, m) {
        var k :| 0 <= k < |current| && EqualFold(current[k], m);
        assert current[k] in current && current[k] in spelled && current[k] in owners;
        FoldEmpty(current[k], m);
        var j :| 0 <= j < |owners| && owners[j] == current[k];
      }
      if m != [] && HasFold(owners, m) {
        var j :| 0 <= j < |owners| && EqualFold(owners[j], m);
        FoldEmpty(owners[j], m);
        assert owners[j] in owners;
        HasFoldTrans(spelled, current, owners[j], m);
      }
    }
  }

  lemma FoldEmpty(a: string, b: string)
    requires EqualFold(a, b)
    ensures a == [] <==> b == []
  {
    assert |Fold(a)| == |a| && |Fold(b)| == |b|;
  }

  // ---- TD002 ----

  /** td002.fromBaseline: the publishing identity of the release, which is compared only
      with a recorded one from the same source. */
  function PublisherVerdict(record: Option<Record>, release: Release): Comparison<seq<string>> {
    if record.None? || record.value.observed.publisher == [] then Skips
    else
      var recorded, (publisher, source) := record.value.observed, PublisherOf(release);
      if publisher == [] || source != recorded.source then Skips
      else if EqualFold(publisher, recorded.publisher) then Compared([recorded.publisher], [], [])
      else Compared([recorded.publisher], [publisher], [recorded.publisher])
  }

  // ---- the change under review has no say ----

  /** What the checks read of a record does not depend on the working tree. */
  lemma BaseDecides(head: Side, other: Side, base: Side, k: Key)
    requires base.Some?
    ensures
      var a, b := Comparable(head, base, k), Comparable(other, base, k);
      && a.Some? == b.Some?
      && (a.Some? ==> SameSignals(a.value.observed, b.value.observed))
      && (a.Some? <==> Find(base.value, k).Some?)
      && (a.Some? ==> SameSignals(a.value.observed, Find(base.value, k).value))
  {
    hide Find;
  }

  /** With a base revision, whether TD003 and TD002 skip, pass or find on the baseline,
      and the set or identity they compare with, is the same for every working tree the
      change under review could have written. */
  lemma WorkingTreeHasNoSay(head: Side, other: Side, base: Side, k: Key, owners: seq<string>, release: Release)
    requires base.Some?
    ensures MaintainersVerdict(Comparable(head, base, k), owners) == MaintainersVerdict(Comparable(other, base, k), owners)
    ensures PublisherVerdict(Comparable(head, base, k), release) == PublisherVerdict(Comparable(other, base, k), release)
  {
    hide Comparable, Find, MissingFrom, Spelled, Sorted;
    BaseDecides(head, other, base, k);
  }

  /** A record the change under review edited or deleted is said to be rewritten, and no
      other is. */
  lemma RewrittenMeansEdited(head: Side, base: Side, k: Key)
    requires SetLookup(head, base, k).Some?
    ensures
      SetLookup(head, base, k).value.rewritten <==>
      && SideFind(base, k).Some?
      && (SideFind(head, k).None? || !SameSignals(SideFind(head, k).value, SideFind(base, k).value))
  {
    hide Find;
  }

  // ---- targets and Compare ----

  datatype Ref = Ref(eco: string, name: string, version: string)

  function Package(r: Ref): Key {
    Key(r.eco, NormalizeName(r.eco, r.name))
  }

  predicate HasPackage(refs: seq<Ref>, k: Key) {
    exists i :: 0 <= i < |refs| && Package(refs[i]) == k
  }

  /** The versioned refs, less those of a package an earlier one names. */
  function TargetsOf(refs: seq<Ref>): seq<Ref> {
    if refs == [] then []
    else
      var out, ref := TargetsOf(refs[..|refs| - 1]), refs[|refs| - 1];
      if ref.version == [] || HasPackage(out, Package(ref)) then out
      else out + [ref.(name := NormalizeName(ref.eco, ref.name))]
  }

  /** targets. */
  method Targets(refs: seq<Ref>) returns (out: seq<Ref>)
    ensures out == TargetsOf(refs)
  {
    hide NormalizeName, Package;
    out := [];
    var at: map<Key, nat> := map[];
    for n := 0 to |refs|
      invariant out == TargetsOf(refs[..n])
      invariant forall k :: k in at <==> HasPackage(out, k)
    {
      assert refs[..n + 1][..n] == refs[..n];
      var ref := refs[n].(name := NormalizeName(refs[n].eco, refs[n].name));
      PackageOfNormal(refs[n]);
      if ref.version == [] {
        continue;
      }
      var pkg := Package(ref);
      if pkg in at {
        continue;
      }
      HasOneMore(out, ref);
      at := at[pkg := |out|];
      out := out + [ref];
    }
    assert refs[..|refs|] == refs;
  }

  lemma PackageOfNormal(ref: Ref)
    ensures Package(ref.(name := NormalizeName(ref.eco, ref.name))) == Package(ref)
  {
    NormalizedTwice(ref.eco, ref.name);
    hide NormalizeName;
  }

  lemma HasOneMore(out: seq<Ref>, ref: Ref)
    ensures forall k :: HasPackage(out + [ref], k) <==> HasPackage(out, k) || k == Package(ref)
  {
    hide Package;
    var more := out + [ref];
    forall k ensures HasPackage(more, k) <==> HasPackage(out, k) || k == Package(ref) {
      if HasPackage(out, k) {
        var i :| 0 <= i < |out| && Package(out[i]) == k;
        assert more[i] == out[i];
      }
      assert more[|out|] == ref;
    }
  }

  /** The first ref of its package that has a version. */
  predicate FirstOf(refs: seq<Ref>, i: nat)
    requires i < |refs|
  {
    refs[i].version != [] && forall k :: 0 <= k < i && refs[k].version != [] ==> Package(refs[k]) != Package(refs[i])
  }

  lemma TargetsStep(refs: seq<Ref>)
    requires refs != []
    ensures
      var out, ref := TargetsOf(refs[..|refs| - 1]), refs[|refs| - 1];
      var normal := ref.(name := NormalizeName(ref.eco, ref.name));
      && Package(normal) == Package(ref)
      && TargetsOf(refs) == (if ref.version == [] || HasPackage(out, Package(ref)) then out else out + [normal])
  {
    hide Package, NormalizeName, HasPackage;
    PackageOfNormal(refs[|refs| - 1]);
  }

  lemma {:induction false} TargetsCover(refs: seq<Ref>, i: nat)
    requires i < |refs| && refs[i].version != []
    ensures HasPackage(TargetsOf(refs), Package(refs[i]))
  {
    hide Package, NormalizeName, TargetsOf;
    var n := |refs| - 1;
    TargetsStep(refs);
    HasOneMore(TargetsOf(refs[..n]), refs[n].(name := NormalizeName(refs[n].eco, refs[n].name)));
    if i < n {
      TargetsCover(refs[..n], i);
    }
  }

  lemma {:induction false} TargetsFirst(refs: seq<Ref>)
    ensures forall j :: 0 <= j < |TargetsOf(refs)| ==> ComesFirst(refs, TargetsOf(refs)[j])
  {
    hide Package, NormalizeName, ComesFirst, HasPackage;
    if refs != [] {
      var n := |refs| - 1;
      var init, ref := refs[..n], refs[n];
      TargetsFirst(init);
      var out, made := TargetsOf(init), TargetsOf(refs);
      assert refs == init + [ref];
      forall j | 0 <= j < |made| ensures ComesFirst(refs, made[j]) {
        if j < |out| {
          ComesFirstStill(init, ref, out[j]);
        } else {
          ComesFirstNew(refs);
        }
      }
    }
  }

  lemma ComesFirstNew(refs: seq<Ref>)
    requires refs != []
    requires
      var ref := refs[|refs| - 1];
      ref.version != [] && !HasPackage(TargetsOf(refs[..|refs| - 1]), Package(ref))
    ensures
      var ref := refs[|refs| - 1];
      ComesFirst(refs, ref.(name := NormalizeName(ref.eco, ref.name)))
  {
    hide Package, NormalizeName, TargetsOf, HasPackage;
    var n := |refs| - 1;
    forall k | 0 <= k < n && refs[k].version != [] ensures Package(refs[k]) != Package(refs[n]) {
      assert refs[..n][k] == refs[k];
      TargetsCover(refs[..n], k);
    }
    assert FirstOf(refs, n);
  }

  lemma {:induction false} TargetsApart(refs: seq<Ref>)
    ensures
      var out := TargetsOf(refs);
      forall i, j :: 0 <= i < j < |out| ==> Package(out[i]) != Package(out[j])
  {
    hide Package, NormalizeName;
    if refs != [] {
      TargetsApart(refs[..|refs| - 1]);
      TargetsStep(refs);
      hide TargetsOf;
    }
  }

  /** One target for every package a versioned ref names, no package twice, and each one
      the first such ref of its package. */
  lemma TargetsAre(refs: seq<Ref>)
    ensures
      var out := TargetsOf(refs);
      && (forall i, j :: 0 <= i < j < |out| ==> Package(out[i]) != Package(out[j]))
      && (forall i :: 0 <= i < |refs| && refs[i].version != [] ==> HasPackage(out, Package(refs[i])))
      && (forall j :: 0 <= j < |out| ==> ComesFirst(refs, out[j]))
  {
    hide *;
    TargetsApart(refs);
    TargetsFirst(refs);
    forall i | 0 <= i < |refs| && refs[i].version != [] ensures HasPackage(TargetsOf(refs), Package(refs[i])) {
      TargetsCover(refs, i);
    }
  }

  ghost predicate ComesFirst(refs: seq<Ref>, target: Ref) {
    exists i :: 0 <= i < |refs| && FirstOf(refs, i) && target == refs[i].(name := NormalizeName(refs[i].eco, refs[i].name))
  }

  lemma ComesFirstStill(refs: seq<Ref>, ref: Ref, target: Ref)
    requires ComesFirst(refs, target)
    ensures ComesFirst(refs + [ref], target)
  {
    hide Package;
    var i :| 0 <= i < |refs| && FirstOf(refs, i) && target == refs[i].(name := NormalizeName(refs[i].eco, refs[i].name));
    var more := refs + [ref];
    assert more[i] == refs[i] && forall k :: 0 <= k < i ==> more[k] == refs[k];
    assert FirstOf(more, i);
  }

  datatype Change = Change(was: Entry, now: Entry, added: seq<string>, removed: seq<string>)

  /** A package whose maintainers a fresh observation found changed. */
  function ChangeOf(was: Option<Entry>, seen: Entry): Option<Change> {
    if was.None? || was.value.maintainers == [] || seen.maintainers == [] then None
    else
      var added, removed := MissingFrom(seen.maintainers, was.value.maintainers), MissingFrom(was.value.maintainers, seen.maintainers);
      if added == [] && removed == [] then None else Some(Change(was.value, seen, added, removed))
  }

  function RecordOf(m: map<Key, Entry>, seen: Entry): Option<Entry> {
    var k := Key(seen.eco, NormalizeName(seen.eco, seen.name));
    if k in m then Some(m[k]) else None
  }

  function Changes(m: map<Key, Entry>, observed: seq<Entry>): seq<Change> {
    if observed == [] then []
    else
      var c := ChangeOf(RecordOf(m, observed[|observed| - 1]), observed[|observed| - 1]);
      Changes(m, observed[..|observed| - 1]) + if c.Some? then [c.value] else []
  }

  /** Compare. */
  method Compare(recorded: File, observed: seq<Entry>) returns (out: seq<Change>)
    requires recorded.Valid()
    ensures out == Changes(Records(recorded.packages), observed)
  {
    hide MissingFrom, Records, InOrder, NormalizeName;
    out := [];
    for n := 0 to |observed|
      invariant out == Changes(Records(recorded.packages), observed[..n])
    {
      assert observed[..n + 1][..n] == observed[..n];
      var seen := observed[n];
      var was := recorded.Lookup(seen.eco, seen.name);
      if was.None? || |was.value.maintainers| == 0 || |seen.maintainers| == 0 {
        continue;
      }
      var added := NamesMissingFrom(seen.maintainers, was.value.maintainers);
      var removed := NamesMissingFrom(was.value.maintainers, seen.maintainers);
      if |added| == 0 && |removed| == 0 {
        continue;
      }
      out := out + [Change(was.value, seen, added, removed)];
    }
    assert observed[..|observed|] == observed;
  }

  /** A change is reported for a package exactly when both sets were read and one of them
      names somebody the other does not, in any spelling. */
  lemma ChangeMeansDifferent(was: Option<Entry>, seen: Entry)
    ensures
      ChangeOf(was, seen).Some? <==>
      && was.Some? && was.value.maintainers != [] && seen.maintainers != []
      && !((forall x :: x in seen.maintainers ==> HasFold(was.value.maintainers, x))
           && (forall x :: x in was.value.maintainers ==> HasFold(seen.maintainers, x)))
  {
    hide HasFold, MissingFrom;
    if was.Some? {
      MissingNone(seen.maintainers, was.value.maintainers);
      MissingNone(was.value.maintainers, seen.maintainers);
    }
  }
}
