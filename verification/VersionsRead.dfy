/** Versions as people write them (internal/doctor/doctor.go: versionParts, CompareVersions):
    numbers between dots, with a v or not, with a suffix or not, spaces around them; what is
    read of one, which of two is later, and in which of them a rule applies. */
module VersionsRead {
  import opened Text
  import opened Versions
  import IniLines

  /** Numbers between dots. */
  function Dotted(ns: seq<nat>): string
    requires ns != []
  {
    if |ns| == 1 then Decimal(ns[0]) else Decimal(ns[0]) + "." + Dotted(ns[1..])
  }

  /** A version as it is written: space and v in front or not, and behind the numbers a
      suffix that a hyphen or a plus begins, or none. */
  datatype Version = Version(before: string, v: bool, ns: seq<nat>, suffix: string, after: string)

  predicate WellWritten(w: Version) {
    && w.ns != [] && IniLines.Spaces(w.before) && IniLines.Spaces(w.after)
    && (w.suffix != [] ==> (w.suffix[0] == '-' || w.suffix[0] == '+') && !IsSpace(w.suffix[|w.suffix| - 1]))
  }

  function Spelling(w: Version): string
    requires w.ns != []
  {
    w.before + ((if w.v then "v" else "") + Dotted(w.ns) + w.suffix) + w.after
  }

  predicate IsNumeral(c: char) {
    '0' <= c <= '9'
  }

  lemma {:induction false} DecimalBytes(n: nat)
    ensures Decimal(n) != [] && forall c :: c in Decimal(n) ==> IsNumeral(c)
  {
    if n >= 10 { DecimalBytes(n / 10); }
  }

  lemma {:induction false} DottedBytes(ns: seq<nat>)
    requires ns != []
    ensures Dotted(ns) != [] && forall c :: c in Dotted(ns) ==> IsNumeral(c) || c == '.'
    ensures IsNumeral(Dotted(ns)[0]) && IsNumeral(Dotted(ns)[|Dotted(ns)| - 1])
    decreases |ns|
  {
    hide Decimal;
    DecimalBytes(ns[0]);
    var d := Decimal(ns[0]);
    assert d[0] in d && d[|d| - 1] in d;
    if |ns| > 1 { DottedBytes(ns[1..]); }
  }

  lemma DecimalSegment(n: nat)
    ensures Segment(Decimal(n)) == Wrap(n)
  {
    hide Decimal, Wrap;
    DecimalReads(n);
  }

  function Wrapped(ns: seq<nat>): (r: seq<int>)
    ensures |r| == |ns| && forall i :: 0 <= i < |ns| ==> r[i] == Wrap(ns[i])
  {
    if ns == [] then [] else [Wrap(ns[0])] + Wrapped(ns[1..])
  }

  lemma {:induction false} SegmentsCons(f: string, fs: seq<string>)
    ensures Segments([f] + fs) == [Segment(f)] + Segments(fs)
    decreases |fs|
  {
    hide Segment;
    if fs == [] {
      assert [f] + fs == [] + [f];
      SegmentsSnoc([], f);
      assert Segments([]) == [];
    } else {
      var n := |fs| - 1;
      assert fs == fs[..n] + [fs[n]];
      assert [f] + fs == ([f] + fs[..n]) + [fs[n]];
      SegmentsCons(f, fs[..n]);
      hide Segments;
      SegmentsSnoc([f] + fs[..n], fs[n]);
      SegmentsSnoc(fs[..n], fs[n]);
    }
  }

  lemma {:induction false} DottedSegments(ns: seq<nat>)
    requires ns != []
    ensures Segments(Fields(Dotted(ns))) == Wrapped(ns)
    decreases |ns|
  {
    hide Decimal, Segment, Wrap, Fields, Segments;
    var d := Decimal(ns[0]);
    DecimalBytes(ns[0]);
    DecimalSegment(ns[0]);
    if |ns| == 1 {
      NoDot(d);
      SegmentsCons(d, []);
      NoSegments();
      assert [d] + [] == [d] && ns[1..] == [];
    } else {
      var rest := Dotted(ns[1..]);
      FirstField(d, rest);
      assert d + ['.'] + rest == Dotted(ns);
      SegmentsCons(d, Fields(rest));
      DottedSegments(ns[1..]);
    }
  }

  lemma NoSegments()
    ensures Segments([]) == []
  {
  }

  lemma FirstField(a: string, b: string)
    requires '.' !in a
    ensures Fields(a + ['.'] + b) == [a] + Fields(b)
  {
    FirstDot(a, b);
    var s := a + ['.'] + b;
    assert s[..|a|] == a && s[|a| + 1..] == b;
    hide IndexByte;
  }

  lemma {:induction false} CoreStops(a: string, suffix: string)
    requires forall c :: c in a ==> c != '-' && c != '+'
    requires suffix != [] ==> suffix[0] == '-' || suffix[0] == '+'
    ensures Core(a + suffix) == a
    decreases |a|
  {
    if a == [] {
      assert a + suffix == suffix;
    } else {
      assert a[0] in a && forall c :: c in a[1..] ==> c in a;
      assert (a + suffix)[1..] == a[1..] + suffix && (a + suffix)[0] == a[0];
      CoreStops(a[1..], suffix);
    }
  }

  lemma TrunkOf(w: Version)
    requires WellWritten(w)
    ensures Trunk(Spelling(w)) == Dotted(w.ns)
  {
    DottedBytes(w.ns);
    var d := Dotted(w.ns);
    hide Dotted, TrimSpace, Core;
    var body := (if w.v then "v" else "") + d + w.suffix;
    BodyTrimmed(d, w.v, w.suffix);
    IniLines.TrimSpaceOf(w.before, body, w.after);
    BodyCut(d, w.v, w.suffix);
    CoreStops(d, w.suffix);
  }

  lemma BodyTrimmed(d: string, v: bool, suffix: string)
    requires d != [] && IsNumeral(d[0]) && IsNumeral(d[|d| - 1])
    requires suffix != [] ==> !IsSpace(suffix[|suffix| - 1])
    ensures var body := (if v then "v" else "") + d + suffix; body != [] && Trimmed(body)
  {
    var body := (if v then "v" else "") + d + suffix;
    assert body[0] == if v then 'v' else d[0];
    assert body[|body| - 1] == if suffix == [] then d[|d| - 1] else suffix[|suffix| - 1];
  }

  lemma BodyCut(d: string, v: bool, suffix: string)
    requires d != [] && IsNumeral(d[0])
    ensures
      var body := (if v then "v" else "") + d + suffix;
      (if HasPrefix(body, "v") then body[1..] else body) == d + suffix
  {
    var body := (if v then "v" else "") + d + suffix;
    assert body[0] == if v then 'v' else d[0];
    if v {
      assert body == ['v'] + (d + suffix);
      assert body[..1] == "v";
    } else {
      assert body == d + suffix;
      assert body[..1][0] == d[0];
    }
  }

  /** The numbers of a version are read as they are written, each as a 64-bit integer. */
  lemma ReadsWritten(w: Version)
    requires WellWritten(w)
    ensures Parts(Spelling(w)) == Wrapped(w.ns)
  {
    WellMeans(w);
    hide *;
    TrunkOf(w);
    DottedSegments(w.ns);
    PartsAre(Spelling(w));
  }

  lemma WellMeans(w: Version)
    requires WellWritten(w)
    ensures w.ns != []
  {
  }

  lemma PartsAre(v: string)
    ensures Parts(v) == Segments(Fields(Trunk(v)))
  {
  }

  /** The number at place k, zero behind the last. */
  function NumberOf(ns: seq<nat>, k: nat): nat {
    if k < |ns| then ns[k] else 0
  }

  ghost predicate Earlier(ns: seq<nat>, ms: seq<nat>) {
    exists k: nat :: NumberOf(ns, k) < NumberOf(ms, k) && forall j: nat :: j < k ==> NumberOf(ns, j) == NumberOf(ms, j)
  }

  /** Of two written versions whose numbers fit 63 bits, one is earlier exactly when its
      number is smaller at the first place they differ, and they count as equal exactly when
      they differ nowhere; suffixes, a v and spaces have no say. */
  lemma ComparesWritten(a: Version, b: Version)
    requires WellWritten(a) && WellWritten(b)
    requires (forall n :: n in a.ns ==> n < TWO_TO_THE_63) && (forall n :: n in b.ns ==> n < TWO_TO_THE_63)
    ensures
      var r := Compare(Spelling(a), Spelling(b));
      && (r == -1 <==> Earlier(a.ns, b.ns)) && (r == 1 <==> Earlier(b.ns, a.ns))
      && (r == 0 <==> forall k: nat :: NumberOf(a.ns, k) == NumberOf(b.ns, k))
      && -1 <= r <= 1
  {
    WellMeans(a);
    WellMeans(b);
    hide *;
    ReadsWritten(a);
    ReadsWritten(b);
    var xs, ys := Wrapped(a.ns), Wrapped(b.ns);
    OrderIs(xs, ys, 0);
    SmallAt(a.ns);
    SmallAt(b.ns);
    BelowIs(a.ns, b.ns);
    BelowIs(b.ns, a.ns);
    CompareIs(Spelling(a), Spelling(b));
    if forall k: nat :: NumberOf(a.ns, k) == NumberOf(b.ns, k) {
      forall k | 0 <= k ensures At(xs, k) == At(ys, k) { assert NumberOf(a.ns, k) == NumberOf(b.ns, k); }
    }
    if forall k :: 0 <= k ==> At(xs, k) == At(ys, k) {
      forall k: nat ensures NumberOf(a.ns, k) == NumberOf(b.ns, k) { assert At(xs, k) == At(ys, k); }
    }
  }

  lemma CompareIs(a: string, b: string)
    ensures Compare(a, b) == Order(Parts(a), Parts(b), 0)
  {
  }

  lemma SmallAt(ns: seq<nat>)
    requires forall n :: n in ns ==> n < TWO_TO_THE_63
    ensures forall k: nat :: At(Wrapped(ns), k) == NumberOf(ns, k)
  {
    hide Wrap;
    forall k: nat ensures At(Wrapped(ns), k) == NumberOf(ns, k) {
      if k < |ns| {
        assert ns[k] in ns;
        WrapSmall(ns[k]);
      }
    }
  }

  lemma BelowIs(ns: seq<nat>, ms: seq<nat>)
    requires forall k: nat :: At(Wrapped(ns), k) == NumberOf(ns, k)
    requires forall k: nat :: At(Wrapped(ms), k) == NumberOf(ms, k)
    ensures Below(Wrapped(ns), Wrapped(ms), 0) <==> Earlier(ns, ms)
  {
    hide Wrapped, At, NumberOf;
    var xs, ys := Wrapped(ns), Wrapped(ms);
    if Below(xs, ys, 0) {
      var k :| 0 <= k && At(xs, k) < At(ys, k) && forall j :: 0 <= j < k ==> At(xs, j) == At(ys, j);
      forall j: nat | j < k ensures NumberOf(ns, j) == NumberOf(ms, j) { assert At(xs, j) == At(ys, j); }
      assert NumberOf(ns, k) < NumberOf(ms, k);
    }
    if Earlier(ns, ms) {
      var k: nat :| NumberOf(ns, k) < NumberOf(ms, k) && forall j: nat :: j < k ==> NumberOf(ns, j) == NumberOf(ms, j);
      forall j | 0 <= j < k ensures At(xs, j) == At(ys, j) { assert NumberOf(ns, j) == NumberOf(ms, j); }
      assert At(xs, k) < At(ys, k);
    }
  }

  // ---- where a rule applies ----

  /** The version is one the setting exists in: not before it came, and before what replaced
      it. */
  predicate Within(version: string, since: string, until: string) {
    !(since != "" && Compare(version, since) < 0) && !(until != "" && Compare(version, until) >= 0)
  }

  /** At a version in use a rule applies exactly when the setting exists in it, and what is
      said besides says why it does not. */
  lemma AppliesAtVersion(since: string, until: string, version: string)
    requires version != ""
    ensures Applies(since, until, Manager(version, true)).applies <==> Within(version, since, until)
    ensures Applies(since, until, Manager(version, true)).caveat <==> !Within(version, since, until)
  {
    hide Compare;
  }

  /** Where no version in use is known a rule applies exactly when nothing replaced its
      setting, or the floor the lockfile gives is one the setting exists in; and that rests on
      an assumption unless the floor settles it or the setting was always there. */
  lemma AppliesAtFloor(since: string, until: string, m: Manager)
    requires !m.exact || m.version == ""
    ensures
      var settled := m.version != "" && Compare(m.version, since) >= 0 && (until == "" || Compare(m.version, until) < 0);
      && (Applies(since, until, m).applies <==> until == "" || settled)
      && (Applies(since, until, m).caveat <==> !settled && (until != "" || since != ""))
  {
    hide Compare;
  }

  // ---- a rule since 1.10, until 2 ----

  function Plain(ns: seq<nat>): string
    requires ns != []
  {
    Spelling(Version("", false, ns, "", ""))
  }

  /** Two written versions whose numbers differ first at place k. */
  lemma DiffersAt(ns: seq<nat>, ms: seq<nat>, k: nat)
    requires ns != [] && ms != []
    requires (forall n :: n in ns ==> n < TWO_TO_THE_63) && (forall n :: n in ms ==> n < TWO_TO_THE_63)
    requires NumberOf(ns, k) < NumberOf(ms, k) && forall j: nat :: j < k ==> NumberOf(ns, j) == NumberOf(ms, j)
    ensures Compare(Plain(ns), Plain(ms)) == -1 && Compare(Plain(ms), Plain(ns)) == 1
    ensures Plain(ns) != "" && Plain(ms) != ""
  {
    assert Earlier(ns, ms);
    Written(ns);
    Written(ms);
    hide Compare, Earlier, Spelling, NumberOf;
    ComparesWritten(Version("", false, ns, "", ""), Version("", false, ms, "", ""));
    ComparesWritten(Version("", false, ms, "", ""), Version("", false, ns, "", ""));
  }

  lemma Written(ns: seq<nat>)
    requires ns != []
    ensures WellWritten(Version("", false, ns, "", "")) && Plain(ns) != ""
  {
    DottedBytes(ns);
    hide Dotted;
  }

  /** 1.9 is before 1.10 and 1.10 before 2: a rule for the versions from 1.10 to 2 applies at
      1.10 and 1.11, and neither at 1.9 nor at 2. */
  lemma AppliesByNumber()
    ensures
      var since, until := Plain([1, 10]), Plain([2]);
      && Applies(since, until, Manager(Plain([1, 10]), true)).applies
      && Applies(since, until, Manager(Plain([1, 11]), true)).applies
      && !Applies(since, until, Manager(Plain([1, 9]), true)).applies
      && !Applies(since, until, Manager(Plain([2]), true)).applies
  {
    var nine, ten, eleven, two := Plain([1, 9]), Plain([1, 10]), Plain([1, 11]), Plain([2]);
    TensDiffer();
    hide *;
    TotalPreorder(ten, ten, ten);
    TotalPreorder(two, two, two);
    RangeMeans(ten, two, nine);
    RangeMeans(ten, two, ten);
    RangeMeans(ten, two, eleven);
    RangeMeans(ten, two, two);
  }

  lemma RangeMeans(since: string, until: string, v: string)
    requires since != "" && until != "" && v != ""
    ensures Applies(since, until, Manager(v, true)).applies <==> Compare(v, since) >= 0 && Compare(v, until) < 0
  {
    hide Compare;
  }

  lemma TensDiffer()
    ensures Plain([1, 9]) != "" && Plain([1, 10]) != "" && Plain([1, 11]) != "" && Plain([2]) != ""
    ensures Compare(Plain([1, 9]), Plain([1, 10])) == -1 && Compare(Plain([1, 11]), Plain([1, 10])) == 1
    ensures Compare(Plain([1, 10]), Plain([2])) == -1 && Compare(Plain([1, 11]), Plain([2])) == -1
  {
    hide Compare, Plain;
    DiffersAt([1, 9], [1, 10], 1);
    DiffersAt([1, 10], [1, 11], 1);
    DiffersAt([1, 10], [2], 0);
    DiffersAt([1, 11], [2], 0);
  }
}
