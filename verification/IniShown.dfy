/** What Get answers for a key of an ini file (internal/configfile/ini.go: iniValue,
    iniListValue, iniKind, iniUnquote), told from the entries of the file. */
module IniShown {
  import opened Text
  import opened IniScan
  import opened IniPlaces
  import opened IniCodec
  import opened IniKept
  import opened IniRefused

  /** The text between a quote at the front and the same quote at the back. */
  ghost predicate Between(raw: string, text: string) {
    exists q :: q in "\"\'" && raw == [q] + text + [q]
  }

  ghost predicate InQuotes(raw: string) {
    exists text :: Between(raw, text)
  }

  /** What a value stands for: what is between its quotes, or all of it. */
  ghost predicate Means(raw: string, text: string) {
    Between(raw, text) || (!InQuotes(raw) && text == raw)
  }

  lemma QuotedMeans(raw: string)
    ensures Quoted(raw) <==> InQuotes(raw)
    ensures Means(raw, Unquote(raw))
  {
    if Quoted(raw) {
      var text := raw[1..|raw| - 1];
      assert raw == [raw[0]] + text + [raw[0]];
      assert Between(raw, text);
    }
    if text :| Between(raw, text) {
      var q :| q in "\"\'" && raw == [q] + text + [q];
    }
  }

  // ---- every kind of value ----

  /** A list is the values of the lines Set may replace, in the order of the file. */
  ghost predicate ListsInOrder(lines: seq<string>, k: Name, es: seq<Entry>, v: Value) {
    && es != [] && (forall e :: e in es <==> Touched(lines, k, e))
    && (forall i, j :: 0 <= i < j < |es| ==> es[i].line < es[j].line)
    && |v.items| == |es| && (forall i :: 0 <= i < |es| ==> Means(es[i].a.raw, v.items[i]))
    && v.line == es[0].line && v.endLine == es[|es| - 1].endLine
  }

  /** Anything else is the value of one entry with the lines that continue it. */
  ghost predicate OneEntry(lines: seq<string>, k: Name, e: Entry, v: Value) {
    && Touched(lines, k, e) && v.line == e.line && v.endLine == e.endLine && v.items == []
    && (exists text :: Means(e.a.raw, text) && v.text == Join([text] + e.more, "\n"))
    && v.kind == (if InQuotes(e.a.raw) then KindString
                  else if v.text in ["true", "false"] then KindBool
                  else if ParseInt(v.text).Some? then KindInt else KindString)
  }

  ghost predicate Stated(lines: seq<string>, k: Name, e: Entry) {
    e in Scan(lines) && e.section == k.section && e.a.name == k.name
  }

  /** What Get answers: nothing when no entry is of the key, the list when one of them is a list
      line, and the last of them otherwise. */
  lemma GetExactly(lines: seq<string>, k: Name)
    ensures Get(lines, k).kind == KindMissing <==> !exists e :: Stated(lines, k, e)
    ensures Get(lines, k).kind == KindList <==> exists e :: Stated(lines, k, e) && e.a.list
    ensures Get(lines, k).kind == KindList ==> exists es :: ListsInOrder(lines, k, es, Get(lines, k))
    ensures Get(lines, k).kind !in {KindMissing, KindList} ==> exists e :: OneEntry(lines, k, e, Get(lines, k))
  {
    hide *;
    var es := Chosen(Named(Scan(lines), k));
    ChosenAre(lines, k);
    GetIs(lines, k);
    if es != [] {
      if es[0].a.list {
        ListIs(lines, k, es);
      } else {
        PlainIs(lines, k, es[0]);
      }
    }
  }

  lemma ChosenAre(lines: seq<string>, k: Name)
    ensures
      var es := Chosen(Named(Scan(lines), k));
      && (es == [] <==> !exists e :: Stated(lines, k, e))
      && (forall e :: e in es <==> Touched(lines, k, e))
      && (forall i, j :: 0 <= i < j < |es| ==> es[i].line < es[j].line)
      && (es != [] && es[0].a.list <==> exists e :: Stated(lines, k, e) && e.a.list)
      && (es != [] ==> es[0] in es)
  {
    hide *;
    var evs, matched := ReadAll(Top, lines), Named(Scan(lines), k);
    ScanEntries(lines);
    EntriesRise(evs, 1);
    NamedRise(Entries(evs, 1), k, 1, 1 + |evs|);
    ChosenRises(matched, 1, 1 + |evs|);
    RisingMeans(Chosen(matched), 1, 1 + |evs|);
    forall e ensures Touched(lines, k, e) <==> e in Chosen(matched) { TouchedMeans(lines, k, e); }
    NamedMembers(Scan(lines), k);
    ListsMembers(matched);
    ChosenFrom(matched);
    forall e ensures e in matched <==> Stated(lines, k, e) { StatedIs(lines, k, e); }
    if Chosen(matched) != [] { FirstIn(Chosen(matched)); }
    if matched != [] { FirstIn(matched); }
    if Lists(matched) != [] { FirstIn(Lists(matched)); }
  }

  lemma FirstIn(es: seq<Entry>)
    requires es != []
    ensures es[0] in es
  {
  }

  lemma RisingMeans(es: seq<Entry>, lo: int, hi: int)
    requires Rising(es, lo, hi)
    ensures forall i, j :: 0 <= i < j < |es| ==> es[i].line < es[j].line
  {
  }

  lemma StatedIs(lines: seq<string>, k: Name, e: Entry)
    ensures Stated(lines, k, e) <==> e in Scan(lines) && e.section == k.section && e.a.name == k.name
  {
  }

  lemma GetIs(lines: seq<string>, k: Name)
    ensures
      var es := Chosen(Named(Scan(lines), k));
      && (Get(lines, k).kind == KindMissing <==> es == [])
      && (Get(lines, k).kind == KindList <==> es != [] && es[0].a.list)
      && (es != [] ==> Get(lines, k) == if es[0].a.list then ListValue(es) else PlainValue(es[0]))
  {
    hide Scan, Named, Chosen, Quoted, Interpolates, AnyInterpolates, Join, Unquote, Items;
  }

  lemma ListIs(lines: seq<string>, k: Name, es: seq<Entry>)
    requires es != [] && es[0].a.list && Get(lines, k) == ListValue(es)
    requires forall e :: e in es <==> Touched(lines, k, e)
    requires forall i, j :: 0 <= i < j < |es| ==> es[i].line < es[j].line
    ensures ListsInOrder(lines, k, es, Get(lines, k))
  {
    hide Get, Touched, AnyInterpolates, Items, Unquote, Means;
    ItemsMean(es);
  }

  lemma {:induction false} ItemsMean(es: seq<Entry>)
    ensures |Items(es)| == |es| && forall i :: 0 <= i < |es| ==> Means(es[i].a.raw, Items(es)[i])
  {
    hide Unquote, Means;
    if es != [] {
      ItemsMean(es[1..]);
      QuotedMeans(es[0].a.raw);
    }
  }

  lemma PlainIs(lines: seq<string>, k: Name, e: Entry)
    requires Get(lines, k) == PlainValue(e) && Touched(lines, k, e)
    ensures OneEntry(lines, k, e, Get(lines, k))
  {
    hide Get, Touched, Interpolates, Join, Unquote, Means, InQuotes, Quoted, ParseInt;
    QuotedMeans(e.a.raw);
  }

  /** A value holds one literal, however a number is spelled. */
  lemma HoldsOne(v: Value, a: Literal, b: Literal)
    requires Holds(v, a) && Holds(v, b)
    ensures a == b || (a.LInt? && b.LInt? && ParseInt(a.text).Some? && ParseInt(a.text) == ParseInt(b.text))
  {
    hide ParseInt, WithoutUnderscores;
  }
}
