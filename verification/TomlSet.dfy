/** Set on a key the file states (internal/configfile/toml.go): the edit of one line, and
    what a scan of the edited file finds. */
module TomlSet {
  import opened Text
  import opened Document
  import opened Offsets
  import opened TomlSpec
  import opened TomlLocal
  import opened TomlSpell
  import opened TomlReplace
  import TomlCursor
  import IniCodec
  import IniLaws
  import TomlRanges

  /** find: which assignment states a key. */
  function Find(assigns: seq<Found>, key: seq<string>): (k: Option<nat>)
    ensures k.Some? ==> k.value < |assigns| && assigns[k.value].path == key
    ensures k.Some? ==> forall i :: 0 <= i < k.value ==> assigns[i].path != key
    ensures k.None? ==> forall i :: 0 <= i < |assigns| ==> assigns[i].path != key
  {
    if assigns == [] then None
    else if assigns[0].path == key then Some(0)
    else
      match Find(assigns[1..], key)
      case None => None
      case Some(i) => Some(i + 1)
  }

  /** An assignment Set rewrites in a file the decoder accepts: editable, not empty, no
      inline table, with an "=" before it and nothing but spaces up to what ends it. */
  predicate Rewritable(text: string, f: Found) {
    && f.why == Editable && 0 <= f.start < f.end <= |text|
    && text[f.start] != '{' && text[f.end - 1] != '\n' && Follows(text[f.end..])
    && Equals(text, 0, f)
  }

  /** The edit Set plans: the line the value starts on, with the bytes of the value on it
      replaced. */
  function Rewrite(lines: seq<string>, f: Found, want: IniCodec.Literal): (e: Edit)
    requires lines != [] && (forall l :: l in lines ==> '\n' !in l) && 0 <= f.start <= f.end <= |Joined(lines)|
    requires LineOf(Joined(lines), f.start) == LineOf(Joined(lines), f.end)
    ensures e.start == e.end == LineOf(Joined(lines), f.start) && |e.lines| == 1
  {
    hide Joined, LineOf, ColumnOf;
    OffsetIsColumn(lines, f.start);
    OffsetIsColumn(lines, f.end);
    var text := Joined(lines);
    var n := LineOf(text, f.start);
    var line := lines[n - 1];
    Edit(n, n, [line[..ColumnOf(text, f.start)] + Spelled(want) + line[ColumnOf(text, f.end)..]])
  }

  /** A value Set rewrites starts and ends on one line. */
  lemma RewritableOnOneLine(lines: seq<string>, f: Found)
    requires ScanText(Joined(lines)).Some? && f in ScanText(Joined(lines)).value.assigns && Rewritable(Joined(lines), f)
    ensures LineOf(Joined(lines), f.start) == LineOf(Joined(lines), f.end)
  {
    hide ScanText, Follows, Joined;
    var text := Joined(lines);
    TomlRanges.RangesAreSound(text);
    assert TomlRanges.OneLine(text, 0, f);
    TomlCursor.SameLine(text, f.start, f.end);
  }

  /** The bytes of a value. */
  function Raw(text: string, f: Found): string {
    if 0 <= f.start <= f.end <= |text| then text[f.start..f.end] else []
  }

  predicate Encloses(g: Found, f: Found) {
    g.start <= f.start && f.end <= g.end
  }

  lemma RewriteIsSplice(lines: seq<string>, f: Found, want: IniCodec.Literal)
    requires lines != [] && (forall l :: l in lines ==> '\n' !in l) && 0 <= f.start <= f.end <= |Joined(lines)|
    requires LineOf(Joined(lines), f.start) == LineOf(Joined(lines), f.end)
    ensures
      var e := Rewrite(lines, f, want);
      && InRange(|lines|, e)
      && Joined(Replaced(lines, e)) == Joined(lines)[..f.start] + Spelled(want) + Joined(lines)[f.end..]
  {
    hide Joined, LineOf, ColumnOf, Spelled;
    EditIsSplice(lines, f.start, f.end, Spelled(want));
    assert Rewrite(lines, f, want) == RangeEdit(lines, f.start, f.end, Spelled(want));
  }

  /** The text Set leaves. */
  function Edited(lines: seq<string>, f: Found, want: IniCodec.Literal): (t: string)
    requires lines != [] && (forall l :: l in lines ==> '\n' !in l) && 0 <= f.start <= f.end <= |Joined(lines)|
    requires LineOf(Joined(lines), f.start) == LineOf(Joined(lines), f.end)
    ensures t == Put(Joined(lines), f.start, f.end - f.start, Spelled(want))
  {
    hide Joined, LineOf, ColumnOf, Spelled, Rewrite;
    RewriteIsSplice(lines, f, want);
    Joined(Replaced(lines, Rewrite(lines, f, want)))
  }

  /** Set, applied and scanned again: the same assignments in the same order, with the same
      paths and the same reasons not to be rewritten; the key is still found where it was
      and holds the literal; every value that is not around it has the bytes it had; and
      the headers are the same. */
  lemma SetLaw(lines: seq<string>, key: seq<string>, want: IniCodec.Literal, was: Scan, k: nat)
    requires lines != [] && forall l :: l in lines ==> '\n' !in l
    requires Find(was.assigns, key) == Some(k) && Rewritable(Joined(lines), was.assigns[k])
    requires IniLaws.Sound(want) && ScanText(Joined(lines)) == Some(was) && Tidy(Joined(lines), 0, [])
    ensures LineOf(Joined(lines), was.assigns[k].start) == LineOf(Joined(lines), was.assigns[k].end)
    ensures SameButFor(Joined(lines), was, k, Spelled(want), Edited(lines, was.assigns[k], want))
    ensures Find(ScanText(Edited(lines, was.assigns[k], want)).value.assigns, key) == Some(k)
  {
    RewritableOnOneLine(lines, was.assigns[k]);
    hide Joined, ScanText, Tidy, Follows, Spelled, LineOf, ColumnOf, Written;
    ReplaceLaw(Joined(lines), was, k, want);
    SamePathFound(was.assigns, ScanText(Edited(lines, was.assigns[k], want)).value.assigns, key);
  }

  lemma SamePathFound(a: seq<Found>, b: seq<Found>, key: seq<string>)
    requires |a| == |b| && forall i :: 0 <= i < |a| ==> a[i].path == b[i].path
    ensures Find(a, key) == Find(b, key)
  {
    var i, j := Find(a, key), Find(b, key);
    if i.Some? && j.Some? {
      assert a[i.value].path == b[i.value].path && a[j.value].path == b[j.value].path;
    }
  }

  /** What a scan of an edited text has in common with the one of the text before. */
  predicate SameButFor(text: string, was: Scan, k: nat, v: string, t: string)
    requires k < |was.assigns|
  {
    && ScanText(t).Some?
    && var now := ScanText(t).value;
       && SameHeaders(was.headers, now.headers) && SameKeys(was.assigns, now.assigns)
       && OthersKept(text, was.assigns, k, t, now.assigns)
       && now.assigns[k].start == was.assigns[k].start && Raw(t, now.assigns[k]) == v
  }

  predicate SameHeaders(a: seq<Header>, b: seq<Header>) {
    |a| == |b| && forall i :: 0 <= i < |a| ==> a[i].path == b[i].path && a[i].many == b[i].many
  }

  predicate SameKeys(a: seq<Found>, b: seq<Found>) {
    |a| == |b| && forall i :: 0 <= i < |a| ==> a[i].path == b[i].path && a[i].why == b[i].why && a[i].root == b[i].root
  }

  /** Every value but the k-th, and but the inline tables around it, has the bytes it had. */
  predicate OthersKept(text: string, a: seq<Found>, k: nat, t: string, b: seq<Found>)
    requires k < |a| == |b|
  {
    forall i :: 0 <= i < |a| && i != k && !Encloses(a[i], a[k]) ==> Kept(text, a[i], t, b[i])
  }

  predicate Kept(text: string, f: Found, t: string, g: Found) {
    0 <= g.start <= g.end <= |t| && Raw(t, g) == Raw(text, f)
  }

  lemma ReplaceLaw(text: string, was: Scan, k: nat, want: IniCodec.Literal)
    requires k < |was.assigns| && Rewritable(text, was.assigns[k]) && IniLaws.Sound(want)
    requires ScanText(text) == Some(was) && Tidy(text, 0, [])
    ensures
      var f := was.assigns[k];
      SameButFor(text, was, k, Spelled(want), Put(text, f.start, f.end - f.start, Spelled(want)))
  {
    hide *;
    var f, v := was.assigns[k], Spelled(want);
    RewritableIs(text, f);
    var m, l := f.start, f.end - f.start;
    var t, d := Put(text, m, l, v), |v| - l;
    TomlRanges.RangesAreSound(text);
    TargetOf(text, f);
    ScanIsRun(text);
    ScanIsRun(t);
    assert f in was.assigns;
    ReplaceRun(text, 0, [], m, l, want, f);
    MovedLooksTheSame(was, m, d);
    forall i | 0 <= i < |was.assigns| && i != k && !Encloses(was.assigns[i], f)
      ensures Kept(text, was.assigns[i], t, AllMoved(was.assigns, m, d)[i])
    {
      ApartFromTarget(text, was.assigns, i, k);
      SameBytes(text, m, l, v, was.assigns[i]);
    }
    TargetBytes(text, m, l, v, f);
    Together(text, was, k, v, t, ScanMoved(was, m, d));
  }

  lemma RewritableIs(text: string, f: Found)
    requires Rewritable(text, f)
    ensures f.why == Editable && 0 <= f.start < f.end <= |text| && text[f.start] != '{' && Equals(text, 0, f)
  {
    hide Follows;
  }

  lemma MovedLooksTheSame(was: Scan, c: int, d: int)
    ensures
      var now := ScanMoved(was, c, d);
      && now.assigns == AllMoved(was.assigns, c, d) && |now.assigns| == |was.assigns|
      && SameHeaders(was.headers, now.headers) && SameKeys(was.assigns, now.assigns)
      && forall i :: 0 <= i < |was.assigns| ==> now.assigns[i] == Moved(was.assigns[i], c, d)
  {
  }

  lemma TargetBytes(text: string, m: nat, l: nat, v: string, f: Found)
    requires f.start == m && f.end == m + l && l > 0 && m + l <= |text|
    ensures
      var t, h := Put(text, m, l, v), Moved(f, m, |v| - l);
      h.start == m && Raw(t, h) == v
  {
    assert Put(text, m, l, v)[m..m + |v|] == v;
  }

  lemma Together(text: string, was: Scan, k: nat, v: string, t: string, now: Scan)
    requires ScanText(t) == Some(now) && k < |was.assigns| == |now.assigns|
    requires SameHeaders(was.headers, now.headers) && SameKeys(was.assigns, now.assigns)
    requires forall i :: 0 <= i < |was.assigns| && i != k && !Encloses(was.assigns[i], was.assigns[k]) ==>
               Kept(text, was.assigns[i], t, now.assigns[i])
    requires now.assigns[k].start == was.assigns[k].start && Raw(t, now.assigns[k]) == v
    ensures SameButFor(text, was, k, v, t)
  {
    hide ScanText, Kept, Raw, SameHeaders;
  }

  lemma TargetOf(text: string, f: Found)
    requires Rewritable(text, f) && !IsGap(text[f.end - 1])
    ensures Target(text, 0, f.start, f.end - f.start, f)
  {
    hide Follows;
  }

  /** Nothing recorded is inside a value that is no inline table. */
  lemma ApartFromTarget(text: string, fs: seq<Found>, i: nat, k: nat)
    requires i < |fs| && k < |fs| && i != k && TomlRanges.Laminar(text, 0, fs)
    requires 0 <= fs[k].start < fs[k].end <= |text| && text[fs[k].start] != '{' && fs[i].start <= fs[i].end
    ensures fs[i].end <= fs[k].start || fs[k].end <= fs[i].start || Encloses(fs[i], fs[k])
  {
    if i < k {
      assert TomlRanges.Apart(text, 0, fs[i], fs[k]);
    } else {
      assert TomlRanges.Apart(text, 0, fs[k], fs[i]);
    }
  }

  lemma SameBytes(text: string, m: nat, l: nat, v: string, g: Found)
    requires l > 0 && m + l <= |text| && 0 <= g.start <= g.end <= |text| && (g.end <= m || m + l <= g.start)
    ensures Kept(text, g, Put(text, m, l, v), Moved(g, m, |v| - l))
  {
    var t, h := Put(text, m, l, v), Moved(g, m, |v| - l);
    if g.end > m {
      forall i | g.start <= i < g.end ensures t[i + |v| - l] == text[i] {}
    }
    assert Raw(t, h) == Raw(text, g);
  }
}
