/** The version order of the doctor and the range a rule applies in
    (internal/doctor/doctor.go: CompareVersions, versionParts, Rule.Applies). */
module Versions {
  import opened Text

  // ---- segments ----

  const TWO_TO_THE_63: int := 0x8000_0000_0000_0000
  const TWO_TO_THE_64: int := 0x1_0000_0000_0000_0000

  /** A 64-bit integer as it is after arithmetic overflowed. */
  function Wrap(n: int): (r: int)
    ensures -TWO_TO_THE_63 <= r < TWO_TO_THE_63
  {
    (n + TWO_TO_THE_63) % TWO_TO_THE_64 - TWO_TO_THE_63
  }

  /** One segment: its digits as a 64-bit number, or -1 when it is not all digits. */
  function Segment(f: string): int {
    if f != [] && AllDigits(f) then Wrap(Digits(f)) else -1
  }

  /** strings.Split(v, "."). */
  function Fields(v: string): (fs: seq<string>)
    ensures fs != []
  {
    match IndexByte(v, '.')
    case None => [v]
    case Some(i) => [v[..i]] + Fields(v[i + 1..])
  }

  predicate CutsSuffix(c: char) {
    c == '-' || c == '+'
  }

  /** The bytes before the first hyphen or plus. */
  function Core(v: string): string {
    if v == [] || CutsSuffix(v[0]) then [] else [v[0]] + Core(v[1..])
  }

  function Trunk(v: string): string {
    var t := TrimSpace(v);
    Core(if HasPrefix(t, "v") then t[1..] else t)
  }

  function Segments(fs: seq<string>): seq<int> {
    if fs == [] then [] else Segments(fs[..|fs| - 1]) + [Segment(fs[|fs| - 1])]
  }

  function Parts(v: string): seq<int> {
    Segments(Fields(Trunk(v)))
  }

  lemma WrapStep(n: int, d: int)
    ensures Wrap(Wrap(n) * 10 + d) == Wrap(n * 10 + d)
  {
    var q := (n + TWO_TO_THE_63) / TWO_TO_THE_64;
    assert Wrap(n) == n - q * TWO_TO_THE_64;
    WrapShift(Wrap(n) * 10 + d, 10 * q);
    assert Wrap(n) * 10 + d + 10 * q * TWO_TO_THE_64 == n * 10 + d;
  }

  lemma WrapShift(n: int, k: int)
    ensures Wrap(n + k * TWO_TO_THE_64) == Wrap(n)
  {
    var a := n + TWO_TO_THE_63;
    var q, r := a / TWO_TO_THE_64, a % TWO_TO_THE_64;
    var b := a + k * TWO_TO_THE_64;
    assert b == (q + k) * TWO_TO_THE_64 + r;
    ModIs(b, q + k, r);
  }

  lemma ModIs(b: int, q: int, r: int)
    requires b == q * TWO_TO_THE_64 + r && 0 <= r < TWO_TO_THE_64
    ensures b % TWO_TO_THE_64 == r
  {
    var p := b / TWO_TO_THE_64;
    assert b == p * TWO_TO_THE_64 + b % TWO_TO_THE_64;
    assert (p - q) * TWO_TO_THE_64 == r - b % TWO_TO_THE_64;
  }

  lemma WrapSmall(n: int)
    ensures -TWO_TO_THE_63 <= n < TWO_TO_THE_63 ==> Wrap(n) == n
  {
  }

  /** The inner loop of versionParts. */
  method ParseSegment(f: string) returns (part: int)
    ensures part == Segment(f)
  {
    hide Wrap;
    var n, ok := 0, f != "";
    WrapSmall(0);
    var i := 0;
    while i < |f|
      invariant i <= |f|
      invariant AllDigits(f[..i])
      invariant n == Wrap(Digits(f[..i]))
      invariant ok == (f != [])
    {
      if f[i] < '0' || f[i] > '9' {
        return -1;
      }
      assert f[..i + 1][..i] == f[..i];
      WrapStep(Digits(f[..i]), f[i] as int - '0' as int);
      n := Wrap(n * 10 + (f[i] as int - '0' as int));
      i := i + 1;
    }
    assert f[..|f|] == f;
    part := if ok then n else -1;
  }

  /** versionParts. */
  method VersionParts(v: string) returns (out: seq<int>)
    ensures out == Parts(v)
  {
    var fields := Fields(Trunk(v));
    hide Fields, Segment;
    out := [];
    for i := 0 to |fields|
      invariant out == Segments(fields[..i])
    {
      assert fields[..i + 1][..i] == fields[..i];
      var part := ParseSegment(fields[i]);
      out := out + [part];
    }
    assert fields[..|fields|] == fields;
  }

  // ---- the order ----

  /** A segment the version does not have is a zero. */
  function At(ps: seq<int>, i: int): int {
    if 0 <= i < |ps| then ps[i] else 0
  }

  /** The first segment two versions differ in decides. */
  function Order(as_: seq<int>, bs: seq<int>, i: nat): int
    decreases |as_| + |bs| - i
  {
    if i >= |as_| && i >= |bs| then 0
    else if At(as_, i) < At(bs, i) then -1
    else if At(as_, i) > At(bs, i) then 1
    else Order(as_, bs, i + 1)
  }

  function Compare(a: string, b: string): int {
    Order(Parts(a), Parts(b), 0)
  }

  /** CompareVersions. */
  method CompareVersions(a: string, b: string) returns (r: int)
    ensures r == Compare(a, b)
  {
    var xs := VersionParts(a);
    var ys := VersionParts(b);
    var i := 0;
    while i < |xs| || i < |ys|
      invariant Order(xs, ys, i) == Order(xs, ys, 0)
      decreases |xs| + |ys| - i
    {
      var x, y := 0, 0;
      if i < |xs| {
        x := xs[i];
      }
      if i < |ys| {
        y := ys[i];
      }
      if x != y {
        if x < y {
          return -1;
        }
        return 1;
      }
      i := i + 1;
    }
    r := 0;
  }

  /** Where two versions first differ from a segment on, if they do. */
  lemma {:induction false} OrderIs(xs: seq<int>, ys: seq<int>, i: nat)
    ensures Order(xs, ys, i) == 0 <==> forall k :: i <= k ==> At(xs, k) == At(ys, k)
    ensures Order(xs, ys, i) == -1 <==> Below(xs, ys, i)
    ensures Order(xs, ys, i) == 1 <==> Below(ys, xs, i)
    ensures -1 <= Order(xs, ys, i) <= 1
    decreases |xs| + |ys| - i
  {
    if i >= |xs| && i >= |ys| {
      assert forall k :: i <= k ==> At(xs, k) == At(ys, k);
    } else if At(xs, i) == At(ys, i) {
      OrderIs(xs, ys, i + 1);
      BelowStep(xs, ys, i);
      BelowStep(ys, xs, i);
    } else {
      BelowAt(xs, ys, i);
    }
  }

  ghost predicate Below(xs: seq<int>, ys: seq<int>, i: nat) {
    exists k :: i <= k && At(xs, k) < At(ys, k) && forall j :: i <= j < k ==> At(xs, j) == At(ys, j)
  }

  lemma BelowStep(xs: seq<int>, ys: seq<int>, i: nat)
    requires At(xs, i) == At(ys, i)
    ensures Below(xs, ys, i) <==> Below(xs, ys, i + 1)
  {
    hide At;
    if Below(xs, ys, i) {
      var k :| i <= k && At(xs, k) < At(ys, k) && forall j :: i <= j < k ==> At(xs, j) == At(ys, j);
      assert k != i;
    }
    if Below(xs, ys, i + 1) {
      var k :| i + 1 <= k && At(xs, k) < At(ys, k) && forall j :: i + 1 <= j < k ==> At(xs, j) == At(ys, j);
    }
  }

  lemma BelowAt(xs: seq<int>, ys: seq<int>, i: nat)
    requires At(xs, i) != At(ys, i)
    ensures Below(xs, ys, i) <==> At(xs, i) < At(ys, i)
    ensures Below(ys, xs, i) <==> At(ys, i) < At(xs, i)
  {
    hide At;
    if At(xs, i) < At(ys, i) { assert i <= i && forall j :: i <= j < i ==> At(xs, j) == At(ys, j); }
    if Below(xs, ys, i) {
      var k :| i <= k && At(xs, k) < At(ys, k) && forall j :: i <= j < k ==> At(xs, j) == At(ys, j);
      assert k == i;
    }
    if Below(ys, xs, i) {
      var k :| i <= k && At(ys, k) < At(xs, k) && forall j :: i <= j < k ==> At(ys, j) == At(xs, j);
      assert k == i;
    }
  }

  lemma BelowTrans(xs: seq<int>, ys: seq<int>, zs: seq<int>)
    ensures Below(xs, ys, 0) && Below(ys, zs, 0) ==> Below(xs, zs, 0)
    ensures Below(xs, ys, 0) && (forall k :: 0 <= k ==> At(ys, k) == At(zs, k)) ==> Below(xs, zs, 0)
    ensures (forall k :: 0 <= k ==> At(xs, k) == At(ys, k)) && Below(ys, zs, 0) ==> Below(xs, zs, 0)
  {
    hide At;
    if Below(xs, ys, 0) && Below(ys, zs, 0) {
      var k :| 0 <= k && At(xs, k) < At(ys, k) && forall j :: 0 <= j < k ==> At(xs, j) == At(ys, j);
      var m :| 0 <= m && At(ys, m) < At(zs, m) && forall j :: 0 <= j < m ==> At(ys, j) == At(zs, j);
      var n := if k < m then k else m;
      assert At(xs, n) < At(zs, n);
    }
    if Below(xs, ys, 0) && (forall k :: 0 <= k ==> At(ys, k) == At(zs, k)) {
      var k :| 0 <= k && At(xs, k) < At(ys, k) && forall j :: 0 <= j < k ==> At(xs, j) == At(ys, j);
      assert At(xs, k) < At(zs, k);
    }
    if (forall k :: 0 <= k ==> At(xs, k) == At(ys, k)) && Below(ys, zs, 0) {
      var m :| 0 <= m && At(ys, m) < At(zs, m) && forall j :: 0 <= j < m ==> At(ys, j) == At(zs, j);
      assert At(xs, m) < At(zs, m);
    }
  }

  /** CompareVersions orders every two strings, one way or the other, consistently. */
  lemma TotalPreorder(a: string, b: string, c: string)
    ensures Compare(a, a) == 0
    ensures Compare(a, b) == -Compare(b, a)
    ensures Compare(a, b) <= 0 && Compare(b, c) <= 0 ==> Compare(a, c) <= 0
    ensures Compare(a, b) <= 0 && Compare(b, c) <= 0 && Compare(a, c) == 0 ==> Compare(a, b) == 0 && Compare(b, c) == 0
  {
    hide Parts, Order, Below, At;
    var x, y, z := Parts(a), Parts(b), Parts(c);
    OrderIs(x, x, 0);
    OrderIs(x, y, 0);
    OrderIs(y, x, 0);
    OrderIs(y, z, 0);
    OrderIs(x, z, 0);
    BelowTrans(x, y, z);
    if Compare(a, b) == 0 && Compare(b, c) == 0 {
      forall k | 0 <= k ensures At(x, k) == At(z, k) { assert At(x, k) == At(y, k) == At(z, k); }
    }
  }

  // ---- segments in order ----

  /** Segments past the end that are zeros change nothing. */
  lemma TrailingZeros(ps: seq<int>, n: nat)
    ensures Order(ps, ps + seq(n, i => 0), 0) == 0
  {
    var qs := ps + seq(n, i => 0);
    OrderIs(ps, qs, 0);
    assert forall k :: 0 <= k ==> At(ps, k) == At(qs, k);
  }

  /** A version compares equal to itself with ".0" appended, behind a suffix as well. */
  lemma DotZero(v: string)
    requires Trimmed(v)
    ensures Compare(v, v + ".0") == 0
  {
    hide TrimSpace, Segment, Order, IndexByte, Fields;
    TrimmedIs(v);
    TrimmedIs(v + ".0");
    var t := if HasPrefix(v, "v") then v[1..] else v;
    PrefixStays(v);
    if exists i :: 0 <= i < |t| && CutsSuffix(t[i]) {
      CoreCut(t, ".0");
      assert Parts(v + ".0") == Parts(v);
      TotalPreorder(v, v, v);
    } else {
      CoreWhole(t);
      CoreWhole(t + ".0");
      FieldsDotZero(t);
      SegmentsSnoc(Fields(t), "0");
      SegmentZero();
      assert Parts(v + ".0") == Parts(v) + [0];
      assert [0] == seq(1, i => 0);
      TrailingZeros(Parts(v), 1);
    }
  }

  lemma {:induction false} CoreCut(v: string, more: string)
    requires exists i :: 0 <= i < |v| && CutsSuffix(v[i])
    ensures Core(v + more) == Core(v)
  {
    assert (v + more)[0] == v[0];
    if !CutsSuffix(v[0]) {
      var i :| 0 <= i < |v| && CutsSuffix(v[i]);
      assert v[1..][i - 1] == v[i];
      CoreCut(v[1..], more);
      TailOf(v, more, 1);
    }
  }

  lemma PrefixStays(v: string)
    ensures HasPrefix(v + ".0", "v") == HasPrefix(v, "v")
    ensures HasPrefix(v, "v") ==> (v + ".0")[1..] == v[1..] + ".0"
  {
    if v == [] {
      assert (v + ".0")[0] == '.';
      assert (v + ".0")[..1] == ".";
    } else {
      assert (v + ".0")[..1] == v[..1];
    }
  }

  lemma SegmentZero()
    ensures Segment("0") == 0
  {
    assert "0"[..0] == "";
    assert Digits("0") == Digits("0"[..0]) * 10 + 0;
  }

  lemma SegmentsSnoc(fs: seq<string>, f: string)
    ensures Segments(fs + [f]) == Segments(fs) + [Segment(f)]
  {
    assert (fs + [f])[..|fs|] == fs;
  }

  lemma TrimmedIs(s: string)
    requires Trimmed(s)
    ensures TrimSpace(s) == s
  {
    hide Lead, Trail;
    assert s != [] ==> Lead(IsSpace, s) == 0;
    assert s != [] ==> Trail(IsSpace, s) == 0;
  }

  lemma {:induction false} CoreWhole(v: string)
    requires forall i :: 0 <= i < |v| ==> !CutsSuffix(v[i])
    ensures Core(v) == v
  {
    if v != [] {
      CoreWhole(v[1..]);
    }
  }

  lemma {:induction false} FieldsDotZero(v: string)
    ensures Fields(v + ".0") == Fields(v) + ["0"]
  {
    hide IndexByte;
    var w := v + ".0";
    match IndexByte(v, '.') {
      case None =>
        FirstDot(v, "0");
        assert v + ['.'] + "0" == w;
        assert w[..|v|] == v && w[|v| + 1..] == "0";
        NoDot("0");
      case Some(i) =>
        var rest := v[i + 1..];
        assert v == v[..i] + ['.'] + rest;
        FirstDot(v[..i], rest + ".0");
        assert v[..i] + ['.'] + (rest + ".0") == w;
        assert w[..i] == v[..i] && w[i + 1..] == rest + ".0";
        FieldsDotZero(rest);
    }
  }

  lemma FirstDot(a: string, b: string)
    requires '.' !in a
    ensures IndexByte(a + ['.'] + b, '.') == Some(|a|)
  {
    hide IndexByte;
    var s := a + ['.'] + b;
    assert s[|a|] == '.';
    var i := IndexByte(s, '.').value;
    forall k | 0 <= k < |a| ensures s[k] != '.' { assert s[k] == a[k] && a[k] in a; }
    forall k | 0 <= k < i ensures s[k] != '.' { assert s[k] == s[..i][k]; }
  }

  lemma NoDot(s: string)
    requires '.' !in s
    ensures Fields(s) == [s]
  {
    hide IndexByte;
  }

  /** A number of 64 bits that wrapped: above -1 when the low 64 bits make a number under
      2^63, and -1 itself when they are all set. */
  lemma WrapIs(n: nat)
    ensures Wrap(n) > -1 <==> n % TWO_TO_THE_64 < TWO_TO_THE_63
    ensures Wrap(n) == -1 <==> n % TWO_TO_THE_64 == TWO_TO_THE_64 - 1
  {
    var q, m := n / TWO_TO_THE_64, n % TWO_TO_THE_64;
    assert n == m + q * TWO_TO_THE_64;
    WrapShift(m, q);
    if m < TWO_TO_THE_63 {
      WrapSmall(m);
    } else {
      WrapShift(m - TWO_TO_THE_64, 1);
      WrapSmall(m - TWO_TO_THE_64);
    }
  }

  predicate Readable(f: string) {
    f != [] && AllDigits(f)
  }

  /** An unreadable segment is below a number exactly when the low 64 bits of the number
      are under 2^63, every number of 63 bits among them; it counts as equal when they are
      all set, and as above in every other case. */
  lemma UnreadableIsLowest(f: string, g: string)
    requires Readable(f) && !Readable(g)
    ensures Segment(g) < Segment(f) <==> Digits(f) % TWO_TO_THE_64 < TWO_TO_THE_63
    ensures Segment(g) == Segment(f) <==> Digits(f) % TWO_TO_THE_64 == TWO_TO_THE_64 - 1
    ensures Digits(f) < TWO_TO_THE_63 ==> Segment(g) < Segment(f)
  {
    hide Wrap;
    WrapIs(Digits(f));
  }

  lemma {:induction false} SegmentsAt(fs: seq<string>, k: nat)
    ensures |Segments(fs)| == |fs|
    ensures k < |fs| ==> Segments(fs)[k] == Segment(fs[k])
    decreases |fs|
  {
    hide Segment;
    if fs != [] {
      var n := |fs| - 1;
      SegmentsAt(fs[..n], k);
    }
  }

  lemma {:induction false} OrderFrom(xs: seq<int>, ys: seq<int>, k: nat)
    requires forall j :: 0 <= j < k ==> At(xs, j) == At(ys, j)
    ensures Order(xs, ys, 0) == Order(xs, ys, k)
    decreases k
  {
    if k > 0 {
      OrderFrom(xs, ys, k - 1);
      if k - 1 >= |xs| && k - 1 >= |ys| { OrderPast(xs, ys, k); }
    }
  }

  lemma OrderPast(xs: seq<int>, ys: seq<int>, k: nat)
    requires k >= |xs| && k >= |ys|
    ensures Order(xs, ys, k) == 0
  {
  }

  /** The number at segment k of a version; a segment it does not have is a zero. */
  function NumberAt(v: string, k: nat): nat
    requires k < |Fields(Trunk(v))| ==> Readable(Fields(Trunk(v))[k])
  {
    if k < |Fields(Trunk(v))| then Digits(Fields(Trunk(v))[k]) else 0
  }

  /** Two versions that agree up to a segment that is unreadable in the first and a number,
      or missing, in the second: the first is below exactly when the number's low 64 bits
      are under 2^63; when they are all set the segments behind decide; and in every other
      case the unreadable version is above. */
  lemma UnreadableVersion(a: string, b: string, k: nat)
    requires k < |Fields(Trunk(a))| && !Readable(Fields(Trunk(a))[k])
    requires k < |Fields(Trunk(b))| ==> Readable(Fields(Trunk(b))[k])
    requires forall j :: 0 <= j < k ==> At(Parts(a), j) == At(Parts(b), j)
    ensures
      var m := NumberAt(b, k) % TWO_TO_THE_64;
      Compare(a, b) == if m < TWO_TO_THE_63 then -1
                       else if m == TWO_TO_THE_64 - 1 then Order(Parts(a), Parts(b), k + 1)
                       else 1
  {
    hide Fields, Trunk, Wrap, Digits;
    var x, y := Fields(Trunk(a)), Fields(Trunk(b));
    SegmentsAt(x, k);
    SegmentsAt(y, k);
    if k < |y| { UnreadableIsLowest(y[k], x[k]); }
    OrderFrom(Parts(a), Parts(b), k);
    hide Segment;
    assert At(Parts(a), k) == Segment(x[k]) == -1 by { NotReadable(x[k]); }
    assert At(Parts(b), k) == if k < |y| then Segment(y[k]) else 0;
  }

  lemma NotReadable(f: string)
    requires !Readable(f)
    ensures Segment(f) == -1
  {
  }

  function Decimal(n: nat): string {
    if n < 10 then [('0' as int + n) as char] else Decimal(n / 10) + [('0' as int + n % 10) as char]
  }

  lemma {:induction false} DecimalReads(n: nat)
    ensures Decimal(n) != [] && AllDigits(Decimal(n)) && Digits(Decimal(n)) == n
  {
    if n < 10 {
      assert Decimal(n)[..0] == [];
    } else {
      DecimalReads(n / 10);
      assert Decimal(n)[..|Decimal(n)| - 1] == Decimal(n / 10);
    }
  }

  /** The code takes the smallest number of 64 bits for one below "not a number". */
  lemma HugeIsBelowUnreadable()
    ensures Segment(Decimal(TWO_TO_THE_63)) < Segment("x")
  {
    DecimalReads(TWO_TO_THE_63);
    assert Wrap(TWO_TO_THE_63) == -TWO_TO_THE_63;
    assert !AllDigits("x") by { assert !IsDigit("x"[0]); }
    hide Decimal, Digits;
  }

  // ---- the range of a rule ----

  /** What the doctor knows of a manager: its version, and whether it is the one in use or
      the lowest the lockfile allows. */
  datatype Manager = Manager(version: string, exact: bool)

  /** caveat says the answer rests on an assumption. */
  datatype Answer = Answer(applies: bool, caveat: bool)

  /** Rule.Applies; a caveat stands for the sentence the code returns. */
  function Applies(since: string, until: string, m: Manager): Answer {
    if !m.exact || m.version == [] then
      var known := m.version;
      if known != [] && Compare(known, since) >= 0 && (until == [] || Compare(known, until) < 0) then Answer(true, false)
      else if until != [] then Answer(false, true)
      else if since == [] then Answer(true, false)
      else Answer(true, true)
    else if since != [] && Compare(m.version, since) < 0 then Answer(false, true)
    else if until != [] && Compare(m.version, until) >= 0 then Answer(false, true)
    else Answer(true, false)
  }

  /** A floor accepted without a caveat holds for what may be above it: at every exact
      version from the floor on, the rule applies as long as nothing has replaced the
      setting, which for a rule with no Until is always. */
  lemma FloorIsSound(since: string, until: string, floor: string, version: string)
    requires Applies(since, until, Manager(floor, false)) == Answer(true, false)
    requires version != [] && floor != [] && Compare(version, floor) >= 0
    ensures Applies(since, until, Manager(version, true)).applies <==> until == [] || Compare(version, until) < 0
  {
    hide Compare;
    TotalPreorder(since, floor, version);
    TotalPreorder(floor, since, version);
    TotalPreorder(version, floor, since);
    TotalPreorder(version, since, floor);
  }

  /** A rule that was replaced may not apply to the version in use although its floor was
      accepted without a caveat. */
  lemma FloorBelowUntil()
    ensures Applies("1", "2", Manager("1", false)) == Answer(true, false)
    ensures Compare("2", "1") >= 0 && !Applies("1", "2", Manager("2", true)).applies
  {
    OneDigit("1", 1);
    OneDigit("2", 2);
    hide Parts;
  }

  lemma OneDigit(v: string, n: nat)
    requires (v == "1" && n == 1) || (v == "2" && n == 2)
    ensures Parts(v) == [n]
  {
    hide TrimSpace, Core, Fields, Segment;
    TrimmedIs(v);
    CoreWhole(v);
    NoDot(v);
    DigitSegment(v, n);
    assert v[..1] == v && v != "v";
    assert Trunk(v) == v;
    assert [] + [v] == [v];
    SegmentsSnoc([], v);
    assert Segments([]) == [];
  }

  lemma DigitSegment(v: string, n: nat)
    requires (v == "1" && n == 1) || (v == "2" && n == 2)
    ensures Segment(v) == n
  {
    assert v[..0] == [] && |v| == 1;
    assert v[0] as int == '0' as int + n;
    assert AllDigits(v);
    assert Digits(v) == Digits(v[..0]) * 10 + n;
    WrapSmall(n);
    hide Wrap;
  }
}
