/** The ini codec as it runs (internal/configfile/ini.go): its loops, each proved to
    compute what IniCodec specifies. */
module IniCode {
  import opened Text
  import opened Document
  import opened IniScan
  import opened IniPlaces
  import opened IniCodec
  import opened IniTold

  /** iniMatched. */
  method IniMatched(matched: seq<Entry>) returns (r: seq<Entry>)
    ensures r == Chosen(matched)
  {
    var list: seq<Entry> := [];
    for i := 0 to |matched|
      invariant list == Lists(matched[..i])
    {
      ListsSnoc(matched[..i], matched[i]);
      assert matched[..i + 1] == matched[..i] + [matched[i]];
      if matched[i].a.list {
        list := list + [matched[i]];
      }
    }
    assert matched[..|matched|] == matched;
    if |list| > 0 {
      return list;
    }
    if |matched| == 0 {
      return [];
    }
    r := matched[|matched| - 1..];
  }

  lemma ListsSnoc(es: seq<Entry>, e: Entry)
    ensures Lists(es + [e]) == Lists(es) + if e.a.list then [e] else []
  {
    ListsConcat(es, [e]);
    assert [e][1..] == [];
  }

  lemma NamedSnoc(es: seq<Entry>, e: Entry, k: Name)
    ensures Named(es + [e], k) == Named(es, k) + if Spells(e, k) then [e] else []
  {
    hide Spells;
    NamedConcat(es, [e], k);
    assert [e][1..] == [];
  }

  lemma {:induction false} ItemsSnoc(es: seq<Entry>, e: Entry)
    ensures Items(es + [e]) == Items(es) + [Unquote(e.a.raw)]
    ensures AnyInterpolates(es + [e]) == (AnyInterpolates(es) || Interpolates(e.a.raw))
  {
    hide Unquote, Interpolates;
    if es == [] {
      assert es + [e] == [e] && [e][1..] == [];
    } else {
      ItemsSnoc(es[1..], e);
      assert (es + [e])[1..] == es[1..] + [e];
    }
  }

  /** iniListValue. */
  method IniListValue(es: seq<Entry>) returns (v: Value)
    requires es != []
    ensures v == ListValue(es)
  {
    hide Unquote, Interpolates;
    var items: seq<string> := [];
    ghost var refused := false;
    for i := 0 to |es|
      invariant items == Items(es[..i])
    {
      ItemsSnoc(es[..i], es[i]);
      assert es[..i + 1] == es[..i] + [es[i]];
      items := items + [Unquote(es[i].a.raw)];
    }
    assert es[..|es|] == es;
    var first, last := es[0], es[|es| - 1];
    v := Value(KindList, "", items, first.line, last.endLine, true);
    if last.line - first.line != |es| - 1 {
      v := v.(editable := false);
      return;
    }
    for i := 0 to |es|
      invariant v == Value(KindList, "", items, first.line, last.endLine, !AnyInterpolates(es[..i]))
    {
      ItemsSnoc(es[..i], es[i]);
      assert es[..i + 1] == es[..i] + [es[i]];
      if Interpolates(es[i].a.raw) {
        v := v.(editable := false);
      }
    }
  }

  /** iniValue. */
  method IniValue(matched: seq<Entry>) returns (v: Value)
    ensures v == ValueOf(matched)
  {
    hide Lists, Named, ListValue, PlainValue, Chosen;
    var entries := IniMatched(matched);
    if |entries| == 0 {
      return Missing;
    }
    if entries[0].a.list {
      v := IniListValue(entries);
    } else {
      v := PlainValue(entries[0]);
    }
  }

  /** iniFind: the value of one key, and the entries an edit may touch. */
  method IniFind(lines: seq<string>, key: seq<string>) returns (found: Option<(Value, seq<Entry>)>)
    ensures
      match Place(key)
      case None => found == None
      case Some(k) => found == Some((Get(lines, k), Chosen(Named(Scan(lines), k))))
  {
    var place := Place(key);
    if place.None? {
      return None;
    }
    var k := place.value;
    hide Entries, ReadAll, Named, Chosen, ValueOf;
    var entries, headers := IniScan.IniScan(lines);
    var matched: seq<Entry> := [];
    NamedNone([], k);
    for i := 0 to |entries|
      invariant matched == Named(entries[..i], k)
    {
      NamedSnoc(entries[..i], entries[i], k);
      assert entries[..i + 1] == entries[..i] + [entries[i]];
      if entries[i].section == k.section && entries[i].a.name == k.name {
        matched := matched + [entries[i]];
      }
    }
    assert entries[..|entries|] == entries;
    var v := IniValue(matched);
    var chosen := IniMatched(matched);
    found := Some((v, chosen));
  }

  /** iniListLines. */
  method IniListLines(indent: string, name: string, sep: string, items: seq<string>) returns (r: seq<string>)
    ensures r == ListLines(indent, name, sep, items)
  {
    hide *;
    r := [];
    var i := 0;
    assert items[0..] == items;
    while i < |items|
      invariant i <= |items|
      invariant r + ListLines(indent, name, sep, items[i..]) == ListLines(indent, name, sep, items)
    {
      var line := indent + name + "[]" + sep + SpellString(items[i]);
      ListLinesFirst(indent, name, sep, items, i);
      Grouped(r, [line], ListLines(indent, name, sep, items[i + 1..]));
      r := r + [line];
      i := i + 1;
    }
    ListLinesNone(indent, name, sep);
    assert items[i..] == [] && r + [] == r;
  }

  lemma ListLinesFirst(indent: string, name: string, sep: string, items: seq<string>, i: nat)
    requires i < |items|
    ensures ListLines(indent, name, sep, items[i..]) ==
            [indent + name + "[]" + sep + SpellString(items[i])] + ListLines(indent, name, sep, items[i + 1..])
  {
    hide SpellString;
    assert items[i..][1..] == items[i + 1..] && items[i..][0] == items[i];
  }

  lemma ListLinesNone(indent: string, name: string, sep: string)
    ensures ListLines(indent, name, sep, []) == []
  {
  }

  /** iniStyle. */
  method IniStyle(lines: seq<string>, entries: seq<Entry>, section: string) returns (indent: string, sep: string)
    ensures (indent, sep) == Style(lines, entries, entries, section)
  {
    hide Indent;
    var i := 0;
    while i < |entries|
      invariant i <= |entries|
      invariant Style(lines, entries, entries[i..], section) == Style(lines, entries, entries, section)
    {
      var e := entries[i];
      if e.section == section {
        return Indent(LineAt(lines, e.line)), e.a.sep;
      }
      assert entries[i..][1..] == entries[i + 1..];
      i := i + 1;
    }
    assert entries[i..] == [];
    if |entries| > 0 {
      return Indent(LineAt(lines, entries[0].line)), entries[0].a.sep;
    }
    indent, sep := "", "=";
  }

  /** iniInsertAt. */
  method IniInsertAt(lines: seq<string>, entries: seq<Entry>, headers: seq<HeaderLine>, section: string)
    returns (at: nat, header: bool)
    ensures (at, header) == InsertAt(lines, entries, headers, section)
  {
    hide TrimSpace, Introduces;
    if section == [] {
      var i := |entries| - 1;
      assert entries[..i + 1] == entries;
      while i >= 0
        invariant -1 <= i < |entries|
        invariant AfterLastTop(entries[..i + 1]) == AfterLastTop(entries)
      {
        if entries[i].section == [] {
          return entries[i].line + 1, false;
        }
        assert entries[..i + 1][..i] == entries[..i];
        i := i - 1;
      }
      if |headers| == 0 {
        return |lines| + 1, false;
      }
      at := headers[0].line;
      while at > 1 && Introduces(LineAt(lines, at - 1))
        invariant Above(lines, at) == Above(lines, headers[0].line)
      {
        at := at - 1;
      }
      return at, false;
    }
    var i := 0;
    while i < |headers|
      invariant i <= |headers|
      invariant SectionEnd(lines, headers[i..], section) == SectionEnd(lines, headers, section)
    {
      hide BackOver;
      var h := headers[i];
      assert headers[i..][1..] == headers[i + 1..];
      if h.name != section {
        i := i + 1;
        continue;
      }
      var last := |lines|;
      if i + 1 < |headers| && headers[i + 1].line >= 1 {
        last := headers[i + 1].line - 1;
      }
      last := SkipBack(lines, last, h.line);
      return last + 1, false;
    }
    at, header := |lines| + 1, true;
  }

  /** The loop of iniInsertAt that steps over the blank lines ending a section. */
  method SkipBack(lines: seq<string>, from: nat, floor: nat) returns (last: nat)
    ensures last == BackOver(lines, from, floor)
  {
    hide TrimSpace;
    last := from;
    while last > floor && TrimSpace(LineAt(lines, last)) == []
      invariant BackOver(lines, last, floor) == BackOver(lines, from, floor)
    {
      last := last - 1;
    }
  }

  /** iniReplace. */
  method IniReplace(lines: seq<string>, es: seq<Entry>, want: Literal) returns (e: Edit)
    requires es != [] && 1 <= es[0].line && es[0].a.valueAt <= |LineAt(lines, es[0].line)|
    ensures e == Replace(lines, es, want)
  {
    hide Spell, Indent;
    var first, last := es[0], es[|es| - 1];
    var line := LineAt(lines, first.line);
    var changed: seq<string>;
    if want.LList? {
      changed := IniListLines(Indent(line), first.a.name, first.a.sep, want.items);
    } else if |es| == 1 && !first.a.list {
      changed := [line[..first.a.valueAt] + Spell(want)];
    } else {
      changed := [Indent(line) + first.a.name + first.a.sep + Spell(want)];
    }
    e := Edit(first.line, last.endLine, changed);
  }

  /** iniInsert. */
  method IniInsert(lines: seq<string>, k: Name, want: Literal) returns (e: Edit)
    ensures e == Insert(lines, k, want)
  {
    hide Entries, Headers, ReadAll, Style, InsertAt, HeaderLines, ListLines, Spell;
    var entries, headers := IniScan.IniScan(lines);
    var indent, sep := IniStyle(lines, entries, k.section);
    var added: seq<string>;
    if want.LList? {
      added := IniListLines(indent, k.name, sep, want.items);
    } else {
      added := [indent + k.name + sep + Spell(want)];
    }
    var at, header := IniInsertAt(lines, entries, headers, k.section);
    if header {
      added := HeaderLines(lines, k.section) + added;
    }
    var start: int := at;
    e := Edit(start, start - 1, added);
  }

  /** Get: a key of more than two levels is an error, not a miss. */
  method IniGet(lines: seq<string>, key: seq<string>) returns (v: Option<Value>)
    ensures v == match Place(key) case None => None case Some(k) => Some(Get(lines, k))
  {
    hide Get, Chosen, Named, Scan;
    var found := IniFind(lines, key);
    if found.None? {
      return None;
    }
    v := Some(found.value.0);
  }

  /** Set. */
  method IniSet(lines: seq<string>, key: seq<string>, want: Literal) returns (plan: Plan)
    ensures plan == match Place(key) case None => BadKey case Some(k) => Set(lines, k, want)
  {
    var found := IniFind(lines, key);
    if found.None? {
      return BadKey;
    }
    var k := Place(key).value;
    hide Get, Chosen, Named, Scan, Holds, Replace, Insert, Place;
    var v, entries := found.value.0, found.value.1;
    if v.kind != KindMissing {
      if Holds(v, want) {
        return Nothing;
      }
      if !v.editable {
        return Refused;
      }
      FoundChosen(lines, k);
      ChosenPlaced(lines, k);
      var e := IniReplace(lines, entries, want);
      return Change(e);
    }
    var e := IniInsert(lines, k, want);
    plan := Change(e);
  }
}
