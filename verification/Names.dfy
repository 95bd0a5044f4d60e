/** Names as the record keeps them: the byte order of strings.Compare, names that differ
    only in case, the canonical spelling of a package (internal/model/ref.go,
    internal/model/ecosystem.go) and a maintainer set (normalizeNames in
    internal/baseline/baseline.go). */
module Names {
  import opened Text

  // ---- order ----

  /** strings.Compare(a, b) < 0. */
  predicate Less(a: string, b: string) {
    if b == [] then false
    else if a == [] then true
    else a[0] < b[0] || (a[0] == b[0] && Less(a[1..], b[1..]))
  }

  /** Byte by byte: below means the first byte that differs is smaller, or the text ends first. */
  lemma {:induction false} LessMeans(a: string, b: string)
    ensures Less(a, b) <==> exists k :: 0 <= k <= |a| && k < |b| && a[..k] == b[..k] && (k == |a| || a[k] < b[k])
  {
    if a != [] && b != [] && a[0] == b[0] {
      LessMeans(a[1..], b[1..]);
      if Less(a, b) {
        var k :| 0 <= k <= |a| - 1 && k < |b| - 1 && a[1..][..k] == b[1..][..k] && (k == |a| - 1 || a[1..][k] < b[1..][k]);
        assert a[..k + 1] == [a[0]] + a[1..][..k] && b[..k + 1] == [b[0]] + b[1..][..k];
        assert k + 1 == |a| || a[k + 1] < b[k + 1];
      }
      if k :| 0 <= k <= |a| && k < |b| && a[..k] == b[..k] && (k == |a| || a[k] < b[k]) {
        assert k > 0;
        assert a[1..][..k - 1] == a[..k][1..] && b[1..][..k - 1] == b[..k][1..];
        assert k == |a| || a[1..][k - 1] < b[1..][k - 1];
      }
    } else {
      assert b != [] && (a == [] || a[0] < b[0]) ==> a[..0] == b[..0];
      forall k | 0 < k <= |a| && k < |b| ensures a[..k] != b[..k] { NotAlike(a, b, k); }
    }
  }

  lemma NotAlike(a: string, b: string, k: nat)
    requires 0 < k <= |a| && k <= |b| && a[0] != b[0]
    ensures a[..k] != b[..k]
  {
    assert a[..k][0] != b[..k][0];
  }

  lemma {:induction false} LessTotal(a: string, b: string)
    ensures a == b || Less(a, b) || Less(b, a)
    ensures !(Less(a, b) && Less(b, a))
    ensures !Less(a, a)
    decreases a
  {
    if a != [] {
      LessTotal(a[1..], a[1..]);
      if b != [] {
        LessTotal(a[1..], b[1..]);
        assert a == [a[0]] + a[1..] && b == [b[0]] + b[1..];
      }
    }
  }

  lemma {:induction false} LessTrans(a: string, b: string, c: string)
    requires Less(a, b) && Less(b, c)
    ensures Less(a, c)
    decreases a
  {
    if a != [] && a[0] == b[0] && b[0] == c[0] {
      LessTrans(a[1..], b[1..], c[1..]);
    }
  }

  predicate Ascending(names: seq<string>) {
    forall i, j :: 0 <= i < j < |names| ==> !Less(names[j], names[i])
  }

  function Insert(name: string, names: seq<string>): seq<string> {
    if names == [] || !Less(names[0], name) then [name] + names
    else [names[0]] + Insert(name, names[1..])
  }

  /** slices.Sort. */
  function Sorted(names: seq<string>): seq<string> {
    if names == [] then [] else Insert(names[0], Sorted(names[1..]))
  }

  lemma {:induction false} InsertKeeps(name: string, names: seq<string>)
    ensures multiset(Insert(name, names)) == multiset(names) + multiset{name}
    ensures Ascending(names) ==> Ascending(Insert(name, names))
    ensures Insert(name, names) != []
    ensures Insert(name, names)[0] == name || (names != [] && Insert(name, names)[0] == names[0])
  {
    hide Less, Insert;
    InsertIs(name, names);
    if names == [] {
    } else if !Less(names[0], name) {
      if Ascending(names) {
        forall j | 0 <= j < |names| ensures !Less(names[j], name) { NotBelow(name, names, j); }
      }
    } else {
      var rest := names[1..];
      InsertKeeps(name, rest);
      assert names == [names[0]] + rest;
      if Ascending(names) {
        assert Ascending(rest);
        InsertHead(name, names);
      }
    }
  }

  lemma InsertIs(name: string, names: seq<string>)
    ensures Insert(name, names) == if names == [] || !Less(names[0], name) then [name] + names else [names[0]] + Insert(name, names[1..])
  {
    hide Less;
  }

  lemma NotBelow(name: string, names: seq<string>, j: nat)
    requires j < |names| && Ascending(names) && !Less(names[0], name)
    ensures !Less(names[j], name)
  {
    hide Less;
    LessTotal(names[0], name);
    LessTotal(names[j], names[0]);
    if Less(names[j], name) && names[0] != name {
      LessTrans(names[j], name, names[0]);
    }
  }

  lemma InsertHead(name: string, names: seq<string>)
    requires names != [] && Less(names[0], name) && Ascending(names)
    requires Ascending(Insert(name, names[1..]))
    requires multiset(Insert(name, names[1..])) == multiset(names[1..]) + multiset{name}
    ensures Ascending([names[0]] + Insert(name, names[1..]))
  {
    hide Insert, Less;
    var rest := Insert(name, names[1..]);
    LessTotal(names[0], name);
    forall j | 0 <= j < |rest| ensures !Less(rest[j], names[0]) {
      assert rest[j] in multiset(rest);
      if rest[j] != name {
        assert rest[j] in names[1..];
      }
    }
  }

  lemma {:induction false} SortedSorts(names: seq<string>)
    ensures multiset(Sorted(names)) == multiset(names)
    ensures Ascending(Sorted(names))
  {
    if names != [] {
      SortedSorts(names[1..]);
      InsertKeeps(names[0], Sorted(names[1..]));
      assert names == [names[0]] + names[1..];
    }
  }

  lemma {:induction false} SortedStays(names: seq<string>)
    requires Ascending(names)
    ensures Sorted(names) == names
  {
    if names != [] {
      SortedStays(names[1..]);
    }
  }

  lemma SortedMembers(names: seq<string>)
    ensures forall x :: x in Sorted(names) <==> x in names
    ensures |Sorted(names)| == |names|
  {
    hide Sorted;
    SortedSorts(names);
    assert forall x :: x in Sorted(names) <==> x in multiset(Sorted(names));
    assert |multiset(Sorted(names))| == |multiset(names)|;
  }

  // ---- case ----

  function Lower(c: char): char {
    if 'A' <= c <= 'Z' then (c as int + 32) as char else c
  }

  /** strings.ToLower on ASCII. */
  function Fold(s: string): (r: string)
    ensures |r| == |s|
    ensures forall i :: 0 <= i < |s| ==> r[i] == Lower(s[i])
  {
    seq(|s|, i requires 0 <= i < |s| => Lower(s[i]))
  }

  predicate EqualFold(a: string, b: string) {
    Fold(a) == Fold(b)
  }

  /** A small letter and the capital of the same letter. */
  predicate IsCapitalOf(capital: char, small: char) {
    'a' <= small <= 'z' && capital as int - 'A' as int == small as int - 'a' as int
  }

  predicate OneLetter(c: char, d: char) {
    IsCapitalOf(c, d) || IsCapitalOf(d, c)
  }

  lemma LetterMeans(c: char, d: char)
    ensures Lower(c) == Lower(d) <==> c == d || OneLetter(c, d)
  {
  }

  /** Two spellings of a name are one name when they differ in the case of letters alone. */
  lemma FoldMeans(a: string, b: string)
    ensures EqualFold(a, b) <==> |a| == |b| && forall i :: 0 <= i < |a| ==> a[i] == b[i] || OneLetter(a[i], b[i])
  {
    hide Lower, OneLetter;
    forall i | 0 <= i < |a| && i < |b| ensures Lower(a[i]) == Lower(b[i]) <==> a[i] == b[i] || OneLetter(a[i], b[i]) {
      LetterMeans(a[i], b[i]);
    }
    var f, g := Fold(a), Fold(b);
    if EqualFold(a, b) {
      forall i | 0 <= i < |a| ensures Lower(a[i]) == Lower(b[i]) { assert f[i] == g[i]; }
    } else if |a| == |b| {
      var i :| 0 <= i < |f| && f[i] != g[i];
      assert Lower(a[i]) != Lower(b[i]);
    }
  }

  predicate HasFold(names: seq<string>, name: string) {
    exists i :: 0 <= i < |names| && EqualFold(names[i], name)
  }

  /** containsFold. */
  method ContainsFold(names: seq<string>, name: string) returns (found: bool)
    ensures found == HasFold(names, name)
  {
    hide EqualFold;
    for i := 0 to |names|
      invariant forall k :: 0 <= k < i ==> !EqualFold(names[k], name)
    {
      if EqualFold(names[i], name) {
        return true;
      }
    }
    found := false;
  }

  // ---- package names ----

  predicate IsSeparator(c: char) {
    c == '-' || c == '_' || c == '.'
  }

  /** PEP 503: lower case, and a run of separators is one dash. */
  function PyPIName(s: string): string
    decreases |s|
  {
    if s == [] then []
    else if IsSeparator(s[0]) then ['-'] + PyPIName(s[Lead(IsSeparator, s)..])
    else [Lower(s[0])] + PyPIName(s[1..])
  }

  function NormalizeName(eco: string, name: string): string {
    if eco == "pypi" then PyPIName(name) else name
  }

  const ECOSYSTEMS := ["npm", "pypi", "cargo", "deno", "jsr"]

  /** ParseEcosystem where it succeeds, and the spelling as it is where it does not. */
  function CanonicalEcosystem(eco: string): string {
    if Fold(TrimSpace(eco)) in ECOSYSTEMS then Fold(TrimSpace(eco)) else eco
  }

  lemma {:induction false} PyPITwice(s: string)
    ensures PyPIName(PyPIName(s)) == PyPIName(s)
    ensures PyPIName(s) == [] <==> s == []
    ensures s != [] ==> (IsSeparator(PyPIName(s)[0]) <==> IsSeparator(s[0]))
    decreases |s|
  {
    if s != [] {
      var rest := if IsSeparator(s[0]) then s[Lead(IsSeparator, s)..] else s[1..];
      hide Lead;
      var head := if IsSeparator(s[0]) then '-' else Lower(s[0]);
      PyPITwice(rest);
      var name := PyPIName(s);
      assert name == [head] + PyPIName(rest);
      assert name[1..] == PyPIName(rest);
      if IsSeparator(s[0]) {
        LeadOne(name);
      }
    }
  }

  /** Words with separators between them, as a package of PyPI is spelled. */
  function Separated(words: seq<string>, separators: seq<string>): string
    requires |words| == |separators| + 1
  {
    if separators == [] then words[0] else words[0] + separators[0] + Separated(words[1..], separators[1..])
  }

  /** The canonical name is the words in small letters with one hyphen between any two,
      whatever stood there. */
  lemma {:induction false} PyPINameIs(words: seq<string>, separators: seq<string>)
    requires |words| == |separators| + 1
    requires forall w, c :: w in words && c in w ==> c !in "-_."
    requires forall i :: 0 < i < |separators| ==> words[i] != []
    requires forall s :: s in separators ==> s != [] && forall c :: c in s ==> c in "-_."
    ensures PyPIName(Separated(words, separators)) == Join(seq(|words|, i requires 0 <= i < |words| => Fold(words[i])), "-")
    decreases |separators|
  {
    hide PyPIName, Fold, Lead;
    var folded := seq(|words|, i requires 0 <= i < |words| => Fold(words[i]));
    assert words[0] in words;
    if separators == [] {
      PyPIWord(words[0], "");
      assert words[0] + "" == words[0];
      PyPINone();
    } else {
      var more, seps := words[1..], separators[1..];
      assert separators[0] in separators && forall w :: w in more ==> w in words;
      forall i | 0 <= i < |seps| ensures more[i] != [] { assert more[i] == words[i + 1]; }
      assert forall t :: t in seps ==> t in separators;
      PyPINameIs(more, seps);
      var rest := Separated(more, seps);
      assert seps != [] ==> more[0] != [];
      RestOpens(more, seps);
      PyPIWord(words[0], separators[0] + rest);
      PyPIRun(separators[0], rest);
      assert words[0] + separators[0] + rest == words[0] + (separators[0] + rest);
      assert folded[1..] == seq(|more|, i requires 0 <= i < |more| => Fold(more[i]));
    }
  }

  lemma RestOpens(words: seq<string>, separators: seq<string>)
    requires |words| == |separators| + 1
    requires forall w, c :: w in words && c in w ==> c !in "-_."
    requires separators != [] ==> words[0] != []
    ensures Separated(words, separators) != [] ==> Separated(words, separators)[0] !in "-_."
  {
    assert words[0] in words;
    if words[0] != [] { assert words[0][0] in words[0]; }
  }

  lemma PyPINone()
    ensures PyPIName("") == ""
  {
  }

  lemma {:induction false} PyPIWord(w: string, rest: string)
    requires forall c :: c in w ==> c !in "-_."
    ensures PyPIName(w + rest) == Fold(w) + PyPIName(rest)
  {
    hide Lead, Fold, Lower;
    if w == [] {
      assert w + rest == rest && Fold(w) == [];
    } else {
      assert w[0] in w;
      PyPIWord(w[1..], rest);
      assert (w + rest)[0] == w[0] && (w + rest)[1..] == w[1..] + rest;
      assert PyPIName(w + rest) == [Lower(w[0])] + PyPIName(w[1..] + rest);
      hide PyPIName;
      assert Fold(w) == [Lower(w[0])] + Fold(w[1..]);
      Grouped([Lower(w[0])], Fold(w[1..]), PyPIName(rest));
    }
  }

  lemma PyPIRun(s: string, rest: string)
    requires s != [] && (forall c :: c in s ==> c in "-_.") && (rest != [] ==> rest[0] !in "-_.")
    ensures PyPIName(s + rest) == "-" + PyPIName(rest)
  {
    hide Lead;
    var t := s + rest;
    forall i | 0 <= i < |s| ensures IsSeparator(t[i]) { assert t[i] == s[i] && s[i] in s; }
    assert rest != [] ==> t[|s|] == rest[0];
    LeadCount(t, |s|);
    assert t[|s|..] == rest;
  }

  lemma LeadCount(s: string, n: nat)
    requires n <= |s| && (forall i :: 0 <= i < n ==> IsSeparator(s[i])) && (n < |s| ==> !IsSeparator(s[n]))
    ensures Lead(IsSeparator, s) == n
  {
    hide Lead;
  }

  lemma LeadOne(s: string)
    requires s != [] && IsSeparator(s[0]) && (|s| > 1 ==> !IsSeparator(s[1]))
    ensures Lead(IsSeparator, s) == 1
  {
    assert Lead(IsSeparator, s[1..]) == 0;
  }

  /** A name normalized twice is normalized once. */
  lemma NormalizedTwice(eco: string, name: string)
    ensures NormalizeName(eco, NormalizeName(eco, name)) == NormalizeName(eco, name)
    ensures CanonicalEcosystem(CanonicalEcosystem(eco)) == CanonicalEcosystem(eco)
  {
    PyPITwice(name);
    KnownTrimmed(CanonicalEcosystem(eco));
  }

  lemma KnownTrimmed(e: string)
    ensures e in ECOSYSTEMS ==> TrimSpace(e) == e && Fold(e) == e
  {
    hide TrimSpace, Fold;
    if e in ECOSYSTEMS {
      assert e == "npm" || e == "pypi" || e == "cargo" || e == "deno" || e == "jsr";
      LowerWord(e);
    }
  }

  lemma LowerWord(e: string)
    requires e != [] && forall i :: 0 <= i < |e| ==> 'a' <= e[i] <= 'z'
    ensures TrimSpace(e) == e && Fold(e) == e
  {
    hide TrimSpace;
    TrimTrimmed(e);
  }

  lemma TrimTrimmed(s: string)
    ensures Trimmed(TrimSpace(s))
    ensures Trimmed(s) ==> TrimSpace(s) == s
  {
    var t := TrimLeft(IsSpace, s);
    hide Lead, Trail;
    if Trimmed(s) {
      assert s != [] ==> Lead(IsSpace, s) == 0;
      assert t == s;
      assert s != [] ==> Trail(IsSpace, s) == 0;
    }
  }

  // ---- maintainer sets ----

  /** The names left after trimming, dropping the empty ones and the repeats that differ
      only in case: the first spelling of each. */
  function Distinct(names: seq<string>): seq<string> {
    if names == [] then []
    else
      var out := Distinct(names[..|names| - 1]);
      var name := TrimSpace(names[|names| - 1]);
      if name == [] || HasFold(out, name) then out else out + [name]
  }

  function MaintainerSet(names: seq<string>): seq<string> {
    Sorted(Distinct(names))
  }

  /** normalizeNames. */
  method NormalizeNames(names: seq<string>) returns (out: seq<string>)
    ensures out == MaintainerSet(names)
  {
    hide TrimSpace, HasFold, Sorted;
    out := [];
    for i := 0 to |names|
      invariant out == Distinct(names[..i])
    {
      assert names[..i + 1][..i] == names[..i];
      var name := TrimSpace(names[i]);
      if name == [] {
        continue;
      }
      var seen := ContainsFold(out, name);
      if !seen {
        out := out + [name];
      }
    }
    assert names[..|names|] == names;
    out := Sorted(out);
  }

  /** No two of the names are one name in two spellings. */
  predicate Apart(names: seq<string>) {
    forall i, j :: 0 <= i < j < |names| ==> !EqualFold(names[i], names[j])
  }

  predicate Proper(name: string) {
    name != [] && Trimmed(name)
  }

  lemma {:induction false} DistinctIs(names: seq<string>)
    ensures Apart(Distinct(names))
    ensures forall x :: x in Distinct(names) ==> Proper(x)
    ensures forall n :: n in names && TrimSpace(n) != [] ==> HasFold(Distinct(names), TrimSpace(n))
    ensures forall x :: x in Distinct(names) ==> exists n :: n in names && TrimSpace(n) == x
  {
    hide TrimSpace, EqualFold;
    if names != [] {
      var init, last := names[..|names| - 1], names[|names| - 1];
      assert names == init + [last];
      DistinctIs(init);
      var out, name := Distinct(init), TrimSpace(last);
      TrimTrimmed(last);
      FoldSame(name);
      assert HasFold(Distinct(names), name) || name == [] by {
        if name != [] && !HasFold(out, name) { assert Distinct(names)[|out|] == name; }
      }
      forall n | n in init && TrimSpace(n) != [] ensures HasFold(Distinct(names), TrimSpace(n)) {
        var k :| 0 <= k < |out| && EqualFold(out[k], TrimSpace(n));
        assert Distinct(names)[k] == out[k];
      }
    }
  }

  lemma FoldSame(name: string)
    ensures EqualFold(name, name)
  {
  }

  /** Names that are proper and apart are left as they are. */
  lemma {:induction false} DistinctStays(names: seq<string>)
    requires Apart(names) && forall x :: x in names ==> Proper(x)
    ensures Distinct(names) == names
  {
    hide TrimSpace, EqualFold, Trimmed;
    if names != [] {
      var init, last := names[..|names| - 1], names[|names| - 1];
      assert names == init + [last] && last in names;
      DistinctStays(init);
      TrimTrimmed(last);
      forall i | 0 <= i < |init| ensures !EqualFold(init[i], last) {
        assert !EqualFold(names[i], names[|names| - 1]);
      }
    }
  }

  lemma FoldSym(a: string, b: string)
    ensures EqualFold(a, b) <==> EqualFold(b, a)
  {
  }

  /** Being apart does not depend on the order. */
  lemma ApartSorted(names: seq<string>)
    requires Apart(names)
    ensures Apart(Sorted(names))
  {
    hide Sorted, EqualFold;
    SortedSorts(names);
    SortedMembers(names);
    var s := Sorted(names);
    forall i, j | 0 <= i < j < |s| ensures !EqualFold(s[i], s[j]) {
      assert s[i] in names && s[j] in names;
      if EqualFold(s[i], s[j]) {
        var a :| 0 <= a < |names| && names[a] == s[i];
        var b :| 0 <= b < |names| && names[b] == s[j];
        FoldSym(names[a], names[b]);
        assert a == b;
        TwiceInside(s, i, j);
        OnceInside(names, s[i]);
        assert false;
      }
    }
  }

  lemma TwiceInside(s: seq<string>, i: nat, j: nat)
    requires i < j < |s| && s[i] == s[j]
    ensures multiset(s)[s[i]] >= 2
  {
    assert s == s[..i] + [s[i]] + s[i + 1..j] + [s[j]] + s[j + 1..];
  }

  lemma {:induction false} OnceInside(names: seq<string>, x: string)
    requires Apart(names)
    ensures multiset(names)[x] <= 1
  {
    if names != [] {
      hide EqualFold;
      var init, last := names[..|names| - 1], names[|names| - 1];
      assert names == init + [last];
      OnceInside(init, x);
      if last == x {
        FoldSame(x);
        assert x !in init;
      }
    }
  }

  /** What a maintainer set is: ascending, no name twice in any spelling, every name the
      trimmed spelling of one that was given, and every name given among them. */
  lemma MaintainerSetIs(names: seq<string>)
    ensures
      var out := MaintainerSet(names);
      && Ascending(out) && Apart(out) && (forall x :: x in out ==> Proper(x))
      && (forall x :: x in out ==> exists n :: n in names && TrimSpace(n) == x)
      && (forall n :: n in names && TrimSpace(n) != [] ==> HasFold(out, TrimSpace(n)))
  {
    hide Sorted, Distinct, TrimSpace, EqualFold, Less;
    DistinctIs(names);
    var d := Distinct(names);
    SortedSorts(d);
    SortedMembers(d);
    ApartSorted(d);
    var out := MaintainerSet(names);
    forall n | n in names && TrimSpace(n) != [] ensures HasFold(out, TrimSpace(n)) {
      var k :| 0 <= k < |d| && EqualFold(d[k], TrimSpace(n));
      assert d[k] in out;
      var m :| 0 <= m < |out| && out[m] == d[k];
    }
  }

  /** A maintainer set made again is the same set. */
  lemma MaintainerSetTwice(names: seq<string>)
    ensures MaintainerSet(MaintainerSet(names)) == MaintainerSet(names)
  {
    MaintainerSetIs(names);
    hide Sorted, Distinct;
    DistinctStays(MaintainerSet(names));
    SortedStays(MaintainerSet(names));
  }
}
