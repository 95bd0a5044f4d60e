/** The baseline file (internal/baseline/baseline.go): one record per package, kept sorted,
    and the merge that keeps what an observation could not read. */
module Baseline {
  import opened Text
  import opened Names

  datatype Source = NoSource | FromRegistry | FromProvenance

  datatype Provenance = Provenance(kind: string, verified: bool, verifiedBy: string, identity: string)

  /** The signals an observation could not read. */
  datatype Gaps = Gaps(maintainers: bool, release: bool, provenance: bool)

  const NoGaps := Gaps(false, false, false)

  datatype Entry = Entry(
    eco: string, name: string, version: string, observedAt: int,
    maintainers: seq<string>, publisher: string, source: Source, provenance: Option<Provenance>,
    missing: Gaps)

  datatype Key = Key(eco: string, name: string)

  function KeyOf(e: Entry): Key {
    Key(e.eco, e.name)
  }

  /** Both halves of the observation are missing. */
  predicate NothingRead(e: Entry) {
    e.missing.maintainers && e.missing.release
  }

  /** SameSignals: the same observation, whenever it was made. */
  predicate SameSignals(a: Entry, b: Entry) {
    && a.eco == b.eco && a.name == b.name && a.version == b.version
    && a.publisher == b.publisher && a.source == b.source
    && a.maintainers == b.maintainers && a.provenance == b.provenance
  }

  /** Two observations are the same when they differ in nothing but their time and their gaps. */
  lemma SameSignalsMeans(a: Entry, b: Entry)
    ensures SameSignals(a, b) <==> b == a.(observedAt := b.observedAt, missing := b.missing)
  {
  }

  const SECOND := 1_000_000_000

  /** normalize. */
  function Shaped(e: Entry): Entry {
    var eco := CanonicalEcosystem(e.eco);
    e.(eco := eco,
       name := NormalizeName(eco, e.name),
       observedAt := e.observedAt - e.observedAt % SECOND,
       maintainers := MaintainerSet(e.maintainers),
       source := if e.publisher == [] then NoSource else e.source)
  }

  lemma ShapedTwice(e: Entry)
    ensures Shaped(Shaped(e)) == Shaped(e)
  {
    NormalizedTwice(CanonicalEcosystem(e.eco), e.name);
    NormalizedTwice(e.eco, e.name);
    MaintainerSetTwice(e.maintainers);
    hide MaintainerSet, NormalizeName, CanonicalEcosystem;
  }

  /** merge: what a package that has a record is recorded as after an observation. */
  function Merge(was: Entry, now: Entry): Entry {
    if NothingRead(now) then was
    else
      var m := now.(missing := NoGaps);
      var m := if now.missing.maintainers then m.(maintainers := was.maintainers) else m;
      var m :=
        if now.missing.release then
          m.(version := was.version, publisher := was.publisher, source := was.source, provenance := was.provenance)
        else if now.missing.provenance && was.version == m.version then m.(provenance := was.provenance)
        else m;
      if SameSignals(was, m) then m.(observedAt := was.observedAt) else m
  }

  // ---- the order of the file ----

  predicate Before(a: Key, b: Key) {
    Less(a.eco, b.eco) || (a.eco == b.eco && Less(a.name, b.name))
  }

  lemma BeforeOrder(a: Key, b: Key, c: Key)
    ensures a == b || Before(a, b) || Before(b, a)
    ensures !(Before(a, b) && Before(b, a)) && !Before(a, a)
    ensures Before(a, b) && Before(b, c) ==> Before(a, c)
  {
    hide Less;
    LessTotal(a.eco, b.eco);
    LessTotal(a.name, b.name);
    if Before(a, b) && Before(b, c) {
      LessTotal(b.eco, c.eco);
      if Less(a.eco, b.eco) && Less(b.eco, c.eco) { LessTrans(a.eco, b.eco, c.eco); }
      if Less(a.name, b.name) && Less(b.name, c.name) { LessTrans(a.name, b.name, c.name); }
    }
  }

  /** Sorted by ecosystem and name, and no package twice. */
  predicate InOrder(es: seq<Entry>) {
    forall i, j :: 0 <= i < j < |es| ==> Before(KeyOf(es[i]), KeyOf(es[j]))
  }

  lemma InOrderMeans(es: seq<Entry>)
    ensures
      InOrder(es) <==>
      forall i, j :: 0 <= i < j < |es| ==>
        Less(es[i].eco, es[j].eco) || (es[i].eco == es[j].eco && Less(es[i].name, es[j].name))
  {
    hide Less;
    if forall i, j :: 0 <= i < j < |es| ==> Less(es[i].eco, es[j].eco) || (es[i].eco == es[j].eco && Less(es[i].name, es[j].name)) {
      forall i, j | 0 <= i < j < |es| ensures Before(KeyOf(es[i]), KeyOf(es[j])) {
        assert Less(es[i].eco, es[j].eco) || (es[i].eco == es[j].eco && Less(es[i].name, es[j].name));
      }
    }
    if InOrder(es) {
      forall i, j | 0 <= i < j < |es| ensures Less(es[i].eco, es[j].eco) || (es[i].eco == es[j].eco && Less(es[i].name, es[j].name)) {
        assert Before(KeyOf(es[i]), KeyOf(es[j]));
      }
    }
  }

  function InsertEntry(e: Entry, es: seq<Entry>): seq<Entry> {
    if es == [] || !Before(KeyOf(es[0]), KeyOf(e)) then [e] + es
    else [es[0]] + InsertEntry(e, es[1..])
  }

  /** slices.SortFunc by ecosystem and name. */
  function SortEntries(es: seq<Entry>): seq<Entry> {
    if es == [] then [] else InsertEntry(es[|es| - 1], SortEntries(es[..|es| - 1]))
  }

  lemma {:induction false} InsertEntryKeeps(e: Entry, es: seq<Entry>)
    requires InOrder(es) && forall x :: x in es ==> KeyOf(x) != KeyOf(e)
    ensures InOrder(InsertEntry(e, es))
    ensures forall x :: x in InsertEntry(e, es) <==> x == e || x in es
  {
    hide Before;
    if es == [] {
    } else if !Before(KeyOf(es[0]), KeyOf(e)) {
      assert es[0] in es;
      BeforeOrder(KeyOf(es[0]), KeyOf(e), KeyOf(e));
      forall j | 0 <= j < |es| ensures Before(KeyOf(e), KeyOf(es[j])) {
        BeforeOrder(KeyOf(e), KeyOf(es[0]), KeyOf(es[j]));
      }
    } else {
      var rest := es[1..];
      assert es == [es[0]] + rest;
      InsertEntryKeeps(e, rest);
      var out := InsertEntry(e, rest);
      forall j | 0 <= j < |out| ensures Before(KeyOf(es[0]), KeyOf(out[j])) {
        assert out[j] in out;
        if out[j] != e {
          var k :| 0 <= k < |rest| && rest[k] == out[j];
          assert es[k + 1] == rest[k];
        }
      }
    }
  }

  lemma {:induction false} InsertLast(e: Entry, es: seq<Entry>)
    requires forall i :: 0 <= i < |es| ==> Before(KeyOf(es[i]), KeyOf(e))
    ensures InsertEntry(e, es) == es + [e]
  {
    if es != [] {
      InsertLast(e, es[1..]);
    }
  }

  lemma {:induction false} SortStays(es: seq<Entry>)
    requires InOrder(es)
    ensures SortEntries(es) == es
  {
    if es != [] {
      var init, last := es[..|es| - 1], es[|es| - 1];
      SortStays(init);
      InsertLast(last, init);
      assert es == init + [last];
    }
  }

  /** Sorting a file in order with one new package more: the file stays in order and
      holds one entry more. */
  lemma SortAppended(es: seq<Entry>, e: Entry)
    requires InOrder(es) && forall x :: x in es ==> KeyOf(x) != KeyOf(e)
    ensures InOrder(SortEntries(es + [e]))
    ensures forall x :: x in SortEntries(es + [e]) <==> x == e || x in es
  {
    assert (es + [e])[..|es|] == es;
    SortStays(es);
    InsertEntryKeeps(e, es);
  }

  // ---- the file as a map ----

  function Keys(es: seq<Entry>): set<Key> {
    set e | e in es :: KeyOf(e)
  }

  /** The first entry of a package. */
  function Find(es: seq<Entry>, k: Key): Option<Entry> {
    if es == [] then None else if KeyOf(es[0]) == k then Some(es[0]) else Find(es[1..], k)
  }

  /** What the file records, by package. */
  function Records(es: seq<Entry>): map<Key, Entry> {
    map k | k in Keys(es) && Find(es, k).Some? :: Find(es, k).value
  }

  lemma {:induction false} FindIn(es: seq<Entry>, k: Key)
    ensures Find(es, k).Some? ==> Find(es, k).value in es && KeyOf(Find(es, k).value) == k
    ensures Find(es, k).None? ==> forall e :: e in es ==> KeyOf(e) != k
  {
    if es != [] {
      FindIn(es[1..], k);
      assert es == [es[0]] + es[1..];
    }
  }

  lemma KeysDiffer(es: seq<Entry>, i: nat, j: nat)
    requires InOrder(es) && i < |es| && j < |es| && KeyOf(es[i]) == KeyOf(es[j])
    ensures i == j
  {
    hide Before;
    if i < j { BeforeOrder(KeyOf(es[i]), KeyOf(es[j]), KeyOf(es[j])); }
    if j < i { BeforeOrder(KeyOf(es[j]), KeyOf(es[i]), KeyOf(es[i])); }
  }

  /** In a file in order, the records are its entries. */
  lemma RecordsAre(es: seq<Entry>)
    requires InOrder(es)
    ensures forall e :: e in es <==> KeyOf(e) in Records(es) && Records(es)[KeyOf(e)] == e
    ensures forall k :: k in Records(es) ==> KeyOf(Records(es)[k]) == k && Records(es)[k] in es
    ensures forall k :: k in Records(es) <==> Find(es, k).Some?
    ensures forall k :: k in Records(es) ==> Find(es, k) == Some(Records(es)[k])
  {
    hide Before, InOrder, KeyOf;
    forall k ensures Find(es, k).Some? ==> Find(es, k).value in es && KeyOf(Find(es, k).value) == k
             ensures Find(es, k).None? ==> forall e :: e in es ==> KeyOf(e) != k
    {
      FindIn(es, k);
    }
    forall e | e in es ensures Find(es, KeyOf(e)) == Some(e) {
      var k := KeyOf(e);
      var f := Find(es, k).value;
      var i :| 0 <= i < |es| && es[i] == e;
      var j :| 0 <= j < |es| && es[j] == f;
      KeysDiffer(es, i, j);
    }
  }

  /** What recording an observation does to the records. */
  function Recorded(m: map<Key, Entry>, e: Entry): map<Key, Entry> {
    if KeyOf(e) in m then m[KeyOf(e) := Merge(m[KeyOf(e)], e)]
    else if NothingRead(e) then m
    else m[KeyOf(e) := e.(missing := NoGaps)]
  }

  lemma MergeKeepsKey(was: Entry, now: Entry)
    requires KeyOf(was) == KeyOf(now)
    ensures KeyOf(Merge(was, now)) == KeyOf(was)
  {
  }

  /** Two files in order that record the same are the same file. */
  lemma {:induction false} SameRecords(a: seq<Entry>, b: seq<Entry>)
    requires InOrder(a) && InOrder(b) && Records(a) == Records(b)
    ensures a == b
    decreases |a|
  {
    hide Before, Records, KeyOf;
    RecordsAre(a);
    RecordsAre(b);
    HeadIn(b);
    assert forall e :: e in a <==> e in b;
    if a != [] {
      assert a[0] in a && a[0] in b;
      assert b[0] in b && b[0] in a;
      SameHead(a, b);
      var x, y := a[1..], b[1..];
      assert a == [a[0]] + x && b == [b[0]] + y;
      forall e ensures e in x <==> e in y {
        HeadOnce(a, e);
        HeadOnce(b, e);
      }
      TailRecords(x, y);
      SameRecords(x, y);
    }
  }

  lemma HeadIn(es: seq<Entry>)
    ensures es != [] ==> es[0] in es
  {
  }

  lemma SameHead(a: seq<Entry>, b: seq<Entry>)
    requires InOrder(a) && InOrder(b) && a != [] && b != [] && a[0] in b && b[0] in a
    ensures a[0] == b[0]
  {
    hide Before, KeyOf;
    var i :| 0 <= i < |b| && b[i] == a[0];
    var j :| 0 <= j < |a| && a[j] == b[0];
    BeforeOrder(KeyOf(a[0]), KeyOf(b[0]), KeyOf(a[0]));
  }

  lemma HeadOnce(a: seq<Entry>, e: Entry)
    requires InOrder(a) && a != []
    ensures e in a[1..] <==> e in a && e != a[0]
  {
    hide Before, KeyOf;
    assert a == [a[0]] + a[1..];
    if e in a[1..] {
      var i :| 0 <= i < |a[1..]| && a[1..][i] == e;
      if e == a[0] { KeysDiffer(a, 0, i + 1); }
    }
  }

  lemma TailRecords(x: seq<Entry>, y: seq<Entry>)
    requires InOrder(x) && InOrder(y) && forall e :: e in x <==> e in y
    ensures Records(x) == Records(y)
  {
    hide Before, KeyOf, Records;
    RecordsAre(x);
    RecordsAre(y);
    forall k ensures k in Records(x) <==> k in Records(y)
             ensures k in Records(x) && k in Records(y) ==> Records(x)[k] == Records(y)[k]
    {
      if k in Records(x) { assert Records(x)[k] in y; }
      if k in Records(y) { assert Records(y)[k] in x; }
    }
  }

  lemma RecordedCommutes(m: map<Key, Entry>, a: Entry, b: Entry)
    requires KeyOf(a) != KeyOf(b)
    ensures Recorded(Recorded(m, a), b) == Recorded(Recorded(m, b), a)
  {
    hide Merge, KeyOf;
  }

  /** Observations of two packages may be recorded in either order: the file comes out
      the same, line for line. */
  lemma PutsCommute(es: seq<Entry>, ab: seq<Entry>, ba: seq<Entry>, a: Entry, b: Entry)
    requires InOrder(ab) && InOrder(ba) && KeyOf(a) != KeyOf(b)
    requires Records(ab) == Recorded(Recorded(Records(es), a), b)
    requires Records(ba) == Recorded(Recorded(Records(es), b), a)
    ensures ab == ba
  {
    hide Recorded, Records, InOrder, KeyOf;
    RecordedCommutes(Records(es), a, b);
    SameRecords(ab, ba);
  }

  /** Recording an observation twice is recording it once. */
  lemma RecordedTwice(m: map<Key, Entry>, e: Entry)
    requires forall k :: k in m ==> m[k].missing == NoGaps && KeyOf(m[k]) == k
    ensures Recorded(Recorded(m, e), e) == Recorded(m, e)
  {
    MergeTwice(e, e);
    if KeyOf(e) in m { MergeTwice(m[KeyOf(e)], e); }
    MergeFirst(e);
    hide Merge, KeyOf;
  }

  lemma MergeTwice(was: Entry, now: Entry)
    ensures Merge(Merge(was, now), now) == Merge(was, now)
  {
  }

  lemma MergeFirst(e: Entry)
    ensures Merge(e.(missing := NoGaps), e) == e.(missing := NoGaps)
  {
  }

  // ---- what a run keeps of the file ----

  function Kept(es: seq<Entry>, locked: set<Key>): seq<Entry> {
    if es == [] then []
    else (if KeyOf(es[0]) in locked then [es[0]] else []) + Kept(es[1..], locked)
  }

  function Dropped(es: seq<Entry>, locked: set<Key>): seq<Entry> {
    if es == [] then []
    else (if KeyOf(es[0]) in locked then [] else [es[0]]) + Dropped(es[1..], locked)
  }

  lemma KeptStep(e: Entry, es: seq<Entry>, locked: set<Key>)
    ensures Kept([e] + es, locked) == (if KeyOf(e) in locked then [e] else []) + Kept(es, locked)
    ensures Dropped([e] + es, locked) == (if KeyOf(e) in locked then [] else [e]) + Dropped(es, locked)
    ensures Kept([], locked) == [] && Dropped([], locked) == []
  {
    hide KeyOf;
    assert ([e] + es)[1..] == es;
  }

  lemma {:induction false} KeptSnoc(es: seq<Entry>, e: Entry, locked: set<Key>)
    ensures Kept(es + [e], locked) == Kept(es, locked) + if KeyOf(e) in locked then [e] else []
    ensures Dropped(es + [e], locked) == Dropped(es, locked) + if KeyOf(e) in locked then [] else [e]
  {
    hide KeyOf, Kept, Dropped;
    if es == [] {
      assert es + [e] == [e] + [];
      KeptStep(e, [], locked);
    } else {
      assert es == [es[0]] + es[1..];
      assert es + [e] == [es[0]] + (es[1..] + [e]);
      KeptStep(es[0], es[1..], locked);
      KeptStep(es[0], es[1..] + [e], locked);
      KeptSnoc(es[1..], e, locked);
    }
  }

  /** Keep loses nothing, keeps exactly the locked packages, and leaves both halves in the
      order of the file. */
  lemma KeepSplits(es: seq<Entry>, locked: set<Key>)
    requires InOrder(es)
    ensures multiset(Kept(es, locked)) + multiset(Dropped(es, locked)) == multiset(es)
    ensures forall e :: e in Kept(es, locked) <==> e in es && KeyOf(e) in locked
    ensures forall e :: e in Dropped(es, locked) <==> e in es && KeyOf(e) !in locked
    ensures InOrder(Kept(es, locked)) && InOrder(Dropped(es, locked))
  {
    KeepLosesNothing(es, locked);
    KeepSorts(es, locked);
    KeepOrders(es, locked);
  }

  lemma {:induction false} KeepLosesNothing(es: seq<Entry>, locked: set<Key>)
    ensures multiset(Kept(es, locked)) + multiset(Dropped(es, locked)) == multiset(es)
  {
    hide KeyOf;
    if es != [] {
      assert es == [es[0]] + es[1..];
      KeepLosesNothing(es[1..], locked);
    }
  }

  lemma {:induction false} KeepSorts(es: seq<Entry>, locked: set<Key>)
    ensures forall e :: e in Kept(es, locked) <==> e in es && KeyOf(e) in locked
    ensures forall e :: e in Dropped(es, locked) <==> e in es && KeyOf(e) !in locked
  {
    hide KeyOf;
    if es != [] {
      assert es == [es[0]] + es[1..];
      KeepSorts(es[1..], locked);
    }
  }

  lemma {:induction false} KeepOrders(es: seq<Entry>, locked: set<Key>)
    requires InOrder(es)
    ensures InOrder(Kept(es, locked)) && InOrder(Dropped(es, locked))
  {
    hide Before, KeyOf;
    if es != [] {
      var rest := es[1..];
      KeepOrders(rest, locked);
      KeepSorts(rest, locked);
      forall e | e in rest ensures Before(KeyOf(es[0]), KeyOf(e)) {
        var i :| 0 <= i < |rest| && rest[i] == e;
        assert es[i + 1] == e;
      }
      HeadFirst(es[0], Kept(rest, locked));
      HeadFirst(es[0], Dropped(rest, locked));
      NoneBefore(es[0], Kept(rest, locked));
      NoneBefore(es[0], Dropped(rest, locked));
    }
  }

  lemma NoneBefore(e: Entry, es: seq<Entry>)
    ensures [] + es == es
  {
  }

  lemma HeadFirst(e: Entry, es: seq<Entry>)
    requires InOrder(es) && forall x :: x in es ==> Before(KeyOf(e), KeyOf(x))
    ensures InOrder([e] + es)
  {
    hide Before, KeyOf;
  }
}
