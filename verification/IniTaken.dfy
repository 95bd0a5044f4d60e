/** What an inserted key reads as when the lines around it are taken into account: the
    lines below that the new line takes for more of itself, and the lines further down that
    change their section with a header that was taken. */
module IniTaken {
  import opened Text
  import opened Document
  import opened IniScan
  import opened IniCodec
  import opened IniLines
  import opened IniTold
  import opened IniLaws
  import opened IniInsert

  /** The lines below the point of an insertion. */
  function Under(lines: seq<string>, k: Name): seq<string> {
    var at := Point(lines, k).0;
    if 1 <= at <= |lines| + 1 then lines[at - 1..] else []
  }

  /** The context the new lines leave. */
  function NewCtx(lines: seq<string>, k: Name): Ctx {
    Inside(k.section, |PointStyle(lines, k).0|)
  }

  function MoreTexts(evs: seq<Event>): seq<string> {
    Texts(evs[..Mores(evs)])
  }

  /** The lines below that the last new line takes for more of itself. */
  function Taken(lines: seq<string>, k: Name): seq<string> {
    MoreTexts(ReadAll(NewCtx(lines, k), Under(lines, k)))
  }

  /** What the lines below tell of the key once they follow the new lines: nothing, unless
      a header was taken and lines of its section are now lines of the key's. */
  function Drawn(lines: seq<string>, k: Name): seq<Entry> {
    Told(NewCtx(lines, k), Under(lines, k), k)
  }

  /** The entries with more lines behind the last. */
  function Extend(es: seq<Entry>, texts: seq<string>): seq<Entry> {
    if es == [] then []
    else es[..|es| - 1] + [es[|es| - 1].(more := es[|es| - 1].more + texts)]
  }

  /** The new line is read as an assignment of its key. */
  predicate Stands(lines: seq<string>, k: Name) {
    Point(lines, k).1 || Admits(PointCtx(lines, k), |PointStyle(lines, k).0|)
  }

  /** The condition an insertion holds its value under. */
  predicate Takes(lines: seq<string>, k: Name, want: Literal) {
    if Point(lines, k).1 then ReadsBack(want)
    else
      && Admits(PointCtx(lines, k), |PointStyle(lines, k).0|)
      && Lists(Drawn(lines, k)) == []
      && if want.LList? then ReadsBack(want)
         else if Drawn(lines, k) != [] then Holds(PlainValue(Drawn(lines, k)[|Drawn(lines, k)| - 1]), want)
         else Taken(lines, k) == [] && ReadsBack(want)
  }

  // ---- what the edited file tells of the key ----

  lemma LoneMores(ev: Event, mores: seq<Event>, at: nat)
    requires ev.Assign? && forall i :: 0 <= i < |mores| ==> mores[i].More?
    ensures Entries([ev] + mores, at) == [Entry(ev.section, ev.a, at, at + |mores|, Texts(mores))]
  {
    var evs := [ev] + mores;
    assert evs[1..] == mores && mores[..|mores|] == mores;
    MoresIs(mores, |mores|);
    assert evs[1 + |mores|..] == [];
    hide Mores, Texts;
  }

  /** Leading lines that continue something are no entries. */
  lemma {:induction false} SkipMores(evs: seq<Event>, at: nat, j: nat)
    requires j <= |evs| && forall i :: 0 <= i < j ==> evs[i].More?
    ensures Entries(evs, at) == Entries(evs[j..], at + j)
    decreases j
  {
    hide *;
    if j == 0 {
      assert evs[0..] == evs;
    } else {
      EntriesFirst(evs, at);
      SkipMores(evs[1..], at + 1, j - 1);
      assert evs[1..][j - 1..] == evs[j..];
    }
  }

  lemma TwoMore(a: seq<Event>, m: seq<Event>, tail: seq<Event>)
    requires (m != [] ==> !m[0].More?) && tail != [] && !tail[0].More?
    ensures Entries(a + (m + tail), 1) == Entries(a, 1) + (Entries(m, 1 + |a|) + Entries(tail, 1 + |a| + |m|))
  {
    hide *;
    assert (m + tail)[0] == if m == [] then tail[0] else m[0];
    EntriesConcat(a, m + tail, 1);
    EntriesConcat(m, tail, 1 + |a|);
  }

  lemma OneRun(ev: Event, mores: seq<Event>, rest: seq<Event>, at: nat)
    requires ev.Assign? && (rest != [] ==> !rest[0].More?) && forall i :: 0 <= i < |mores| ==> mores[i].More?
    ensures Entries(([ev] + mores) + rest, at) ==
            [Entry(ev.section, ev.a, at, at + |mores|, Texts(mores))] + Entries(rest, at + 1 + |mores|)
  {
    hide *;
    EntriesConcat([ev] + mores, rest, at);
    LoneMores(ev, mores, at);
  }

  lemma FiveRuns(m: seq<Event>, ev: Event, mores: seq<Event>, rest: seq<Event>)
    ensures (m + [ev]) + (mores + rest) == m + (([ev] + mores) + rest)
    ensures (([ev] + mores) + rest)[0] == ev
    ensures m != [] ==> (m + (([ev] + mores) + rest))[0] == m[0]
    ensures m == [] ==> (m + (([ev] + mores) + rest))[0] == ev
  {
  }

  lemma MoreTextsIs(s: seq<Event>)
    ensures Mores(s) <= |s| && (forall i :: 0 <= i < |s[..Mores(s)]| ==> s[..Mores(s)][i].More?)
    ensures MoreTexts(s) == Texts(s[..Mores(s)])
    ensures s == s[..Mores(s)] + s[Mores(s)..]
  {
    hide Texts;
  }

  lemma At0Concat(a: seq<Entry>, b: seq<Entry>)
    ensures At0(a + b) == At0(a) + At0(b)
  {
  }

  /** New events ending in an assignment of the key, between events above and below. */
  lemma ThreeTold(a: seq<Event>, m: seq<Event>, ev: Event, s: seq<Event>, k: Name)
    requires Tells(ev, k) && (m != [] ==> !m[0].More?)
    ensures At0(Named(Entries(a + ((m + [ev]) + s), 1), k)) ==
            At0(Named(Entries(a, 1), k))
            + (At0(Named(Entries(m, 1), k))
               + ([Entry(ev.section, ev.a, 0, 0, MoreTexts(s))] + At0(Named(Entries(s, 1), k))))
  {
    hide *;
    TellsAssign(ev, k);
    MoreTextsIs(s);
    LeadMores(s);
    var j, at := Mores(s), 1 + |a| + |m|;
    var mores, rest := s[..j], s[j..];
    var tail := ([ev] + mores) + rest;
    FiveRuns(m, ev, mores, rest);
    TwoMore(a, m, tail);
    NamedConcat(Entries(a, 1), Entries(m, 1 + |a|) + Entries(tail, at), k);
    NamedConcat(Entries(m, 1 + |a|), Entries(tail, at), k);
    At0Concat(Named(Entries(a, 1), k), Named(Entries(m, 1 + |a|), k) + Named(Entries(tail, at), k));
    At0Concat(Named(Entries(m, 1 + |a|), k), Named(Entries(tail, at), k));
    ToldShift(m, 1 + |a|, k);
    TailTold(ev, mores, rest, at, k);
    SkipMores(s, 1, j);
    ToldShift(rest, 1 + j, k);
  }

  lemma TailTold(ev: Event, mores: seq<Event>, rest: seq<Event>, at: nat, k: Name)
    requires Tells(ev, k) && ev.Assign? && (rest != [] ==> !rest[0].More?) && forall i :: 0 <= i < |mores| ==> mores[i].More?
    ensures At0(Named(Entries(([ev] + mores) + rest, at), k)) ==
            [Entry(ev.section, ev.a, 0, 0, Texts(mores))] + At0(Named(Entries(rest, 1), k))
  {
    hide *;
    OneRun(ev, mores, rest, at);
    var e := Entry(ev.section, ev.a, at, at + |mores|, Texts(mores));
    var below := Entries(rest, at + 1 + |mores|);
    NamedConcat([e], below, k);
    OneSpells(e, ev, k);
    At0Concat([e], Named(below, k));
    ToldShift(rest, at + 1 + |mores|, k);
  }

  lemma LeadMores(s: seq<Event>)
    ensures Mores(s) <= |s| && forall i :: 0 <= i < Mores(s) ==> s[i].More?
    ensures Mores(s) < |s| ==> !s[Mores(s)].More? && s[Mores(s)..][0] == s[Mores(s)]
  {
  }

  lemma OneSpells(e: Entry, ev: Event, k: Name)
    requires Tells(ev, k) && e.section == ev.section && e.a == ev.a
    ensures Named([e], k) == [e] && At0([e]) == [e.(line := 0, endLine := 0)]
  {
    hide Named;
    OneOf(e, k);
  }

  lemma {:induction false} ToldLast(m: seq<Event>, ev: Event, k: Name)
    requires Tells(ev, k)
    ensures At0(Named(Entries(m + [ev], 1), k)) == At0(Named(Entries(m, 1), k)) + [Entry(ev.section, ev.a, 0, 0, [])]
  {
    hide *;
    TellsAssign(ev, k);
    EntriesConcat(m, [ev], 1);
    EntriesOne(ev, 1 + |m|);
    var e := Entry(ev.section, ev.a, 1 + |m|, 1 + |m|, []);
    NamedConcat(Entries(m, 1), [e], k);
    OneSpells(e, ev, k);
    At0Concat(Named(Entries(m, 1), k), [e]);
  }

  lemma TellsAssign(ev: Event, k: Name)
    requires Tells(ev, k)
    ensures ev.Assign? && !ev.More?
  {
  }

  /** The file an insertion leaves tells of the key what was written, the last line of it
      with what it takes, and what is drawn in below. */
  lemma TakenTold(lines: seq<string>, k: Name, want: Literal)
    requires GoodKey(k) && Sound(want) && want != LList([]) && Get(lines, k).kind == KindMissing
    requires !Point(lines, k).1 && Admits(PointCtx(lines, k), |PointStyle(lines, k).0|)
    ensures
      var e := Insert(lines, k, want);
      var (indent, sep) := PointStyle(lines, k);
      && InRange(|lines|, e)
      && Told(Top, Replaced(lines, e), k) == Extend(Intended(k, indent, sep, want), Taken(lines, k)) + Drawn(lines, k)
  {
    hide *;
    var (indent, sep) := PointStyle(lines, k);
    var at := Point(lines, k).0;
    var added := NewLines(indent, k.name, sep, want);
    StyleOk(lines, k);
    PointTotal(lines, k);
    InsertIs(lines, k, want);
    InsertionReplaces(lines, at, added);
    SomeLines(indent, k.name, sep, want);
    var c := PointCtx(lines, k);
    var p, s := lines[..at - 1], lines[at - 1..];
    WrittenTold(c, k, indent, sep, want, k);
    AddedTell(c, k, indent, sep, want);
    UnderIs(lines, k);
    ReadConcat(Top, p, added + s);
    ReadConcat(c, added, s);
    var evs := ReadAll(c, added);
    var n := |evs| - 1;
    assert evs == evs[..n] + [evs[n]];
    TellsAssign(evs[0], k);
    TellsAssign(evs[n], k);
    assert n > 0 ==> evs[..n][0] == evs[0];
    var below := ReadAll(NewCtx(lines, k), s);
    ThreeTold(ReadAll(Top, p), evs[..n], evs[n], below, k);
    ToldLast(evs[..n], evs[n], k);
    NoneAbove(lines, k, p, s);
    ToldIs(Top, p + (added + s), k);
    ToldIs(Top, p, k);
    ToldIs(c, added, k);
    ToldIs(NewCtx(lines, k), s, k);
    ExtendLast(At0(Named(Entries(evs[..n], 1), k)), Entry(evs[n].section, evs[n].a, 0, 0, []), MoreTexts(below));
    var x, e, z := At0(Named(Entries(evs[..n], 1), k)), Entry(evs[n].section, evs[n].a, 0, 0, MoreTexts(below)), Drawn(lines, k);
    Grouped(x, [e], z);
    assert [] + (x + ([e] + z)) == x + [e] + z;
  }

  lemma ExtendLast(x: seq<Entry>, e: Entry, texts: seq<string>)
    requires e.more == []
    ensures Extend(x + [e], texts) == x + [e.(more := texts)]
  {
    assert (x + [e])[..|x|] == x && [] + texts == texts;
  }

  lemma ToldIs(ctx: Ctx, lines: seq<string>, k: Name)
    ensures Told(ctx, lines, k) == At0(Named(Entries(ReadAll(ctx, lines), 1), k))
  {
    hide Named, Entries, ReadAll;
  }

  lemma UnderIs(lines: seq<string>, k: Name)
    requires 1 <= Point(lines, k).0 <= |lines| + 1
    ensures
      var s := lines[Point(lines, k).0 - 1..];
      && Under(lines, k) == s
      && NewCtx(lines, k) == Inside(k.section, |PointStyle(lines, k).0|)
      && Taken(lines, k) == MoreTexts(ReadAll(NewCtx(lines, k), s))
      && Drawn(lines, k) == Told(NewCtx(lines, k), s, k)
  {
    hide Point, PointStyle, ReadAll, Told, MoreTexts;
  }

  lemma NoneAbove(lines: seq<string>, k: Name, p: seq<string>, s: seq<string>)
    requires Get(lines, k).kind == KindMissing && lines == p + s && Fresh(After(Top, p), s)
    ensures Told(Top, p, k) == []
  {
    hide *;
    MissingTold(lines, k);
    ToldConcat(Top, p, s, k);
  }

  // ---- what the key reads as ----

  /** A value continued on the lines under it is none a single line was written for. */
  lemma ContinuedNeverHolds(e: Entry, want: Literal)
    requires Sound(want) && !want.LList? && e.a.raw == Spell(want) && e.more != []
    ensures !Holds(PlainValue(e), want)
  {
    hide Interpolates, TrimSpace, Escaped, WithoutUnderscores, ParseBool, Join;
    var text := Join([Unquote(e.a.raw)] + e.more, "\n");
    JoinedText(Unquote(e.a.raw), e.more);
    match want
    case LBool(on) =>
      BoolReads(on);
      NoNumber(text);
    case LInt(n) =>
      IntSolid(n);
      NoNumber(text);
    case LString(s) =>
      hide ParseInt, Quoted;
      UnquoteSpelled(s);
    case LList(_) =>
  }

  lemma JoinedText(first: string, more: seq<string>)
    requires more != []
    ensures var text := Join([first] + more, "\n"); '\n' in text && |text| > |first| && text != "true" && text != "false"
  {
    var parts := [first] + more;
    assert parts[1..] == more && |parts| > 1;
    var text := Join(parts, "\n");
    assert text == first + "\n" + Join(more, "\n");
    assert text[|first|] == '\n';
    hide Join;
    assert '\n' in text && '\n' !in "true" && '\n' !in "false";
  }

  lemma NoNumber(text: string)
    requires '\n' in text
    ensures ParseInt(text).None?
  {
    var i :| 0 <= i < |text| && text[i] == '\n';
    var signed := text[0] == '-' || text[0] == '+';
    var digits := if signed then text[1..] else text;
    if signed {
      assert digits[i - 1] == '\n';
    }
    assert !AllDigits(digits);
    hide Digits;
  }

  lemma {:induction false} ListsOfPlain(e: Entry, drawn: seq<Entry>)
    requires !e.a.list
    ensures Lists([e] + drawn) == Lists(drawn)
  {
    hide *;
    ListsConcat([e], drawn);
    ListsOne(e);
    assert [] + Lists(drawn) == Lists(drawn);
  }

  lemma PlainTakes(e: Entry, want: Literal, drawn: seq<Entry>)
    requires Sound(want) && !want.LList? && e.a.raw == Spell(want) && !e.a.list
    ensures Holds(ValueOf([e] + drawn), want) <==>
            && Lists(drawn) == []
            && if drawn != [] then Holds(PlainValue(drawn[|drawn| - 1]), want) else e.more == [] && ReadsBack(want)
  {
    hide Lists, PlainValue, ReadsBack, Spell, ListValue;
    ListsOfPlain(e, drawn);
    var all := [e] + drawn;
    if Lists(drawn) != [] {
      ListsFrom(all);
      assert Lists(all)[0] in Lists(all);
      ListNoPlain(Lists(all), want);
    } else {
      ListsFrom(all);
      assert all[|all| - 1] in all;
      assert drawn == [] ==> all == [e];
      if e.more == [] { PlainHolds(e, want); } else { ContinuedNeverHolds(e, want); }
    }
  }

  lemma ListNoPlain(es: seq<Entry>, want: Literal)
    requires es != [] && !want.LList?
    ensures !Holds(ListValue(es), want)
  {
    hide Items, AnyInterpolates, ParseInt;
  }

  /** Continuation lines are no part of a list's items. */
  lemma {:induction false} ItemsExtend(es: seq<Entry>, texts: seq<string>)
    ensures Items(Extend(es, texts)) == Items(es) && |Extend(es, texts)| == |es|
    ensures forall i :: 0 <= i < |es| ==> Extend(es, texts)[i].a == es[i].a
  {
    hide Unquote;
    if es != [] {
      var x := Extend(es, texts);
      if |es| == 1 {
        assert x == [es[0].(more := es[0].more + texts)];
        assert x[1..] == [] && es[1..] == [];
      } else {
        ItemsExtend(es[1..], texts);
        assert x[0] == es[0] && x[1..] == Extend(es[1..], texts);
      }
    }
  }

  lemma ListTakes(k: Name, indent: string, sep: string, items: seq<string>, texts: seq<string>, drawn: seq<Entry>)
    requires items != []
    ensures Holds(ValueOf(Extend(ItemEntries(k, indent, sep, items), texts) + drawn), LList(items)) <==>
            Lists(drawn) == [] && ReadsBack(LList(items))
  {
    hide *;
    var es := ItemEntries(k, indent, sep, items);
    var x := Extend(es, texts);
    ItemsRead(k, indent, sep, items);
    ItemsExtend(es, texts);
    ListsFrom(es);
    forall i | 0 <= i < |x| ensures x[i].a.list {
      assert es[i] in es;
    }
    ListsAll(x);
    ListsConcat(x, drawn);
    ItemsConcat(x, Lists(drawn));
    ListIs(x + drawn, items);
    BackIs(items);
    var more := Items(Lists(drawn));
    ItemsLength(x);
    ItemsLength(Lists(drawn));
    if Lists(drawn) == [] {
      assert Items(x) + more == Items(x);
    } else {
      assert |Items(x) + more| > |items|;
    }
  }

  lemma {:induction false} ItemsConcat(a: seq<Entry>, b: seq<Entry>)
    ensures Items(a + b) == Items(a) + Items(b)
  {
    hide Unquote;
    if a == [] {
      assert a + b == b;
    } else {
      ItemsConcat(a[1..], b);
      TailOf(a, b, 1);
      Grouped([Unquote(a[0].a.raw)], Items(a[1..]), Items(b));
    }
  }

  lemma {:induction false} ItemsLength(es: seq<Entry>)
    ensures |Items(es)| == |es|
  {
    if es != [] {
      ItemsLength(es[1..]);
    }
  }

  lemma BackIs(items: seq<string>)
    requires items != []
    ensures ReadsBack(LList(items)) <==> forall s :: s in items ==> UnquotesBack(s)
  {
    hide UnquotesBack;
  }

  lemma ListIs(es: seq<Entry>, items: seq<string>)
    requires Lists(es) != []
    ensures Holds(ValueOf(es), LList(items)) <==> Items(Lists(es)) == items
  {
    hide Lists, Items, AnyInterpolates;
    ListsFrom(es);
    assert Lists(es)[0] in Lists(es);
  }

  // ---- the law of an insertion ----

  lemma TakesIs(lines: seq<string>, k: Name, want: Literal)
    ensures Point(lines, k).1 ==> (Takes(lines, k, want) <==> ReadsBack(want))
    ensures !Point(lines, k).1 && !Admits(PointCtx(lines, k), |PointStyle(lines, k).0|) ==> !Takes(lines, k, want) && !Stands(lines, k)
    ensures !Point(lines, k).1 && Admits(PointCtx(lines, k), |PointStyle(lines, k).0|) ==>
              && Stands(lines, k)
              && (Takes(lines, k, want) <==>
                  && Lists(Drawn(lines, k)) == []
                  && if want.LList? then ReadsBack(want)
                     else if Drawn(lines, k) != [] then Holds(PlainValue(Drawn(lines, k)[|Drawn(lines, k)| - 1]), want)
                     else Taken(lines, k) == [] && ReadsBack(want))
    ensures Point(lines, k).1 ==> Stands(lines, k)
  {
    hide Point, PointCtx, PointStyle, Admits, Lists, Drawn, Taken, ReadsBack, Holds, PlainValue;
  }

  lemma MissingHoldsNothing(v: Value, want: Literal)
    requires v.kind == KindMissing
    ensures !Holds(v, want)
  {
    hide ParseInt, ParseBool, WithoutUnderscores;
  }

  /** The value of what was written, with what the last line takes and what is drawn in. */
  lemma WrittenTakes(lines: seq<string>, k: Name, indent: string, sep: string, want: Literal)
    requires Sound(want) && want != LList([])
    ensures
      var told := Extend(Intended(k, indent, sep, want), Taken(lines, k)) + Drawn(lines, k);
      && told != []
      && (Holds(ValueOf(told), want) <==>
          && Lists(Drawn(lines, k)) == []
          && if want.LList? then ReadsBack(want)
             else if Drawn(lines, k) != [] then Holds(PlainValue(Drawn(lines, k)[|Drawn(lines, k)| - 1]), want)
             else Taken(lines, k) == [] && ReadsBack(want))
  {
    hide *;
    IntendedIs(k, indent, sep, want);
    var texts, drawn := Taken(lines, k), Drawn(lines, k);
    if want.LList? {
      ListTakes(k, indent, sep, want.items, texts, drawn);
      ItemsRead(k, indent, sep, want.items);
      ItemsExtend(ItemEntries(k, indent, sep, want.items), texts);
      assert LList(want.items) == want;
    } else {
      BuiltName(k.name, false, indent, sep, Spell(want));
      var e := Intended(k, indent, sep, want)[0];
      ExtendLast([], e, texts);
      assert [] + [e] == [e] && [] + [e.(more := texts)] == [e.(more := texts)];
      PlainTakes(e.(more := texts), want, drawn);
    }
  }

  lemma IntendedIs(k: Name, indent: string, sep: string, want: Literal)
    ensures want.LList? ==> Intended(k, indent, sep, want) == ItemEntries(k, indent, sep, want.items)
    ensures !want.LList? ==> Intended(k, indent, sep, want) == [Entry(k.section, Built(k.name, false, indent, sep, Spell(want)), 0, 0, [])]
  {
    hide ItemEntries, Built, Spell;
  }

  /** Adding a key the file does not state, in every file: the key is stated afterwards
      exactly when the new line is not taken for more of the entry above it, and it holds
      the value exactly when Takes says so. */
  lemma InsertHolds(lines: seq<string>, k: Name, want: Literal)
    requires GoodKey(k) && Sound(want) && want != LList([]) && Get(lines, k).kind == KindMissing
    ensures
      var e := Insert(lines, k, want);
      && Set(lines, k, want) == Change(e) && InRange(|lines|, e)
      && var after := Replaced(lines, e);
         && (Get(after, k).kind != KindMissing <==> Stands(lines, k))
         && (Holds(Get(after, k), want) <==> Takes(lines, k, want))
  {
    hide *;
    SetInserts(lines, k, want);
    TakesIs(lines, k, want);
    InsertFits(lines, k, want);
    var after := Replaced(lines, Insert(lines, k, want));
    var (indent, sep) := PointStyle(lines, k);
    if Point(lines, k).1 {
      HeaderClears(lines, k);
      InsertLaw(lines, k, want);
      NewSectionTells(lines, k, want, k);
      MissingTold(lines, k);
      MissingTold(after, k);
      IntendedSome(k, indent, sep, want);
      ToldMeansStated(after, k);
    } else if Admits(PointCtx(lines, k), |indent|) {
      TakenTold(lines, k, want);
      WrittenTakes(lines, k, indent, sep, want);
      GetShown(after, k);
      HoldsShown(Get(after, k), want);
      HoldsShown(ValueOf(Told(Top, after, k)), want);
      ToldMeansStated(after, k);
    } else {
      JoinedToEntryAbove(lines, k, want);
      MissingHoldsNothing(Get(after, k), want);
    }
  }

  lemma InsertFits(lines: seq<string>, k: Name, want: Literal)
    ensures InRange(|lines|, Insert(lines, k, want))
  {
    hide *;
    var (at, header) := Point(lines, k);
    var (indent, sep) := PointStyle(lines, k);
    var added := NewLines(indent, k.name, sep, want);
    PointTotal(lines, k);
    InsertIs(lines, k, want);
    InsertionReplaces(lines, at, if header then HeaderLines(lines, k.section) + added else added);
  }

  lemma HeaderClears(lines: seq<string>, k: Name)
    requires Point(lines, k).1
    ensures Clear(lines, k)
  {
    hide Point, PointStyle, PointCtx, Admits, Fresh;
  }

  lemma IntendedSome(k: Name, indent: string, sep: string, want: Literal)
    requires want != LList([])
    ensures Intended(k, indent, sep, want) != []
  {
    hide Built, Spell, SpellString;
  }

  lemma ToldMeansStated(lines: seq<string>, k: Name)
    ensures Told(Top, lines, k) != [] ==> Get(lines, k).kind != KindMissing
  {
    hide *;
    MissingTold(lines, k);
  }

  /** Where no line is taken for a continuation the condition is that of the literal. */
  lemma ClearTakes(lines: seq<string>, k: Name, want: Literal)
    requires GoodKey(k) && Sound(want) && want != LList([]) && Get(lines, k).kind == KindMissing && Clear(lines, k)
    ensures Stands(lines, k) && (Takes(lines, k, want) <==> ReadsBack(want))
  {
    hide *;
    InsertHolds(lines, k, want);
    InsertLaw(lines, k, want);
    ClearStands(lines, k);
  }

  lemma ClearStands(lines: seq<string>, k: Name)
    requires Clear(lines, k)
    ensures Stands(lines, k)
  {
    hide Point, PointStyle, PointCtx, Admits, Fresh;
  }
}
