/** TomlSpec at a cursor: what it says of the text from an offset on, one step of a loop at
    a time. */
module TomlCursor {
  import opened Text
  import opened TomlSpec
  import Offsets

  // ---- the specification at a cursor ----

  function From(text: string, i: nat): string {
    if i <= |text| then text[i..] else []
  }

  function GapsAt(text: string, i: nat): nat { Gaps(From(text, i)) }

  function LineAt(text: string, i: nat): nat { Line(From(text, i)) }

  function BareAt(text: string, i: nat): nat { Lead(IsBare, From(text, i)) }

  function ValueRunAt(text: string, i: nat): nat { Lead(InValue, From(text, i)) }

  function TriviaAt(text: string, i: nat): nat { Trivia(From(text, i)) }

  function PartAt(text: string, i: nat): (Option<string>, nat) { KeyPart(From(text, i)) }

  function KeyAt(text: string, i: nat): KeyRead { KeyPath(From(text, i)) }

  function BracketedAt(text: string, i: nat, depth: int): Option<nat> { Bracketed(From(text, i), depth) }

  lemma FromStep(text: string, i: nat, k: nat)
    requires i + k <= |text|
    ensures From(text, i)[k..] == From(text, i + k)
    ensures |From(text, i)| == |text| - i
    ensures i + k < |text| ==> From(text, i)[k] == text[i + k]
  {
  }

  lemma LeadStep(p: char -> bool, text: string, i: nat)
    requires i <= |text|
    ensures Lead(p, From(text, i)) == if i < |text| && p(text[i]) then 1 + Lead(p, From(text, i + 1)) else 0
    ensures i + Lead(p, From(text, i)) <= |text|
  {
    FromStep(text, i, 0);
    if i < |text| { FromStep(text, i, 1); }
    hide From;
  }

  lemma TriviaOne(s: string)
    ensures s == [] ==> Trivia(s) == 0
    ensures s != [] && (IsGap(s[0]) || s[0] == '\n') ==> Trivia(s) == 1 + Trivia(s[1..])
    ensures s != [] && s[0] == '#' ==> 1 <= Line(s) <= |s| && Trivia(s) == Line(s) + Trivia(s[Line(s)..])
    ensures s != [] && !IsGap(s[0]) && s[0] != '\n' && s[0] != '#' ==> Trivia(s) == 0
    ensures Trivia(s) <= |s|
  {
    if s != [] && s[0] == '#' { LineMoves(s); }
    hide Lead;
  }

  lemma TriviaStep(text: string, i: nat)
    requires i <= |text|
    ensures
      TriviaAt(text, i) ==
      if i == |text| then 0
      else if IsGap(text[i]) || text[i] == '\n' then 1 + TriviaAt(text, i + 1)
      else if text[i] == '#' then LineAt(text, i) + TriviaAt(text, i + LineAt(text, i))
      else 0
    ensures i < |text| && text[i] == '#' ==> 1 <= LineAt(text, i) && i + LineAt(text, i) <= |text|
    ensures i + TriviaAt(text, i) <= |text|
  {
    hide From, Line, Trivia;
    FromStep(text, i, 0);
    TriviaOne(From(text, i));
    if i < |text| {
      FromStep(text, i, 1);
      if text[i] == '#' {
        FromStep(text, i, LineAt(text, i));
      }
    }
  }

  lemma PartStep(text: string, i: nat)
    requires i <= |text|
    ensures i + PartAt(text, i).1 <= |text|
    ensures i == |text| ==> PartAt(text, i) == (None, 0)
    ensures i < |text| && IsQuote(text[i]) ==>
              var (q, ok) := Quoted(From(text, i));
              PartAt(text, i) == (if ok && q >= 2 then Some(text[i + 1..i + q - 1]) else None, q)
    ensures i < |text| && !IsQuote(text[i]) ==>
              var n := BareAt(text, i);
              i + n <= |text| && PartAt(text, i) == (if n == 0 then None else Some(text[i..i + n]), n)
  {
    FromStep(text, i, 0);
    if i < |text| {
      var s := From(text, i);
      if IsQuote(text[i]) {
        if Quoted(s).1 {
          QuotedClosed(s);
          assert s[1..Quoted(s).0 - 1] == text[i + 1..i + Quoted(s).0 - 1];
        }
        hide Quoted, QuotedFrom;
      } else {
        LeadStep(IsBare, text, i);
        assert s[..BareAt(text, i)] == text[i..i + BareAt(text, i)];
        hide Lead;
      }
    }
  }

  lemma KeyFails(s: string)
    requires Gaps(s) <= |s| && KeyPart(s[Gaps(s)..]).0.None?
    ensures !KeyPath(s).ok && KeyPath(s).n == Gaps(s) + KeyPart(s[Gaps(s)..]).1
  {
    hide KeyPart, Gaps;
  }

  lemma KeyReads(s: string, part: string, b: nat, c: nat)
    requires Gaps(s) <= |s| && KeyPart(s[Gaps(s)..]).0 == Some(part)
    requires b == Gaps(s) + KeyPart(s[Gaps(s)..]).1 && b <= |s| && c == b + Gaps(s[b..]) && c <= |s|
    ensures c < |s| && s[c] == '.' ==> KeyPath(s) == Longer(part, c + 1, KeyPath(s[c + 1..]))
    ensures !(c < |s| && s[c] == '.') ==> KeyPath(s) == KeyRead(true, [part], b, c)
  {
    hide *;
    KeyPathIs(s);
  }

  lemma KeyPathIs(s: string)
    ensures
      var a := Gaps(s);
      && a <= |s|
      && var r := KeyPart(s[a..]);
         var b := a + r.1;
         && b <= |s|
         && var c := b + Gaps(s[b..]);
            && c <= |s|
            && KeyPath(s) ==
               if r.0.None? then KeyRead(false, [], 0, b)
               else if c < |s| && s[c] == '.' then Longer(r.0.value, c + 1, KeyPath(s[c + 1..]))
               else KeyRead(true, [r.0.value], b, c)
  {
    hide KeyPart, Longer, Lead;
  }

  lemma GapsInside(s: string)
    ensures Gaps(s) <= |s|
  {
  }

  /** One round of keyPath: where its part begins and ends, and what follows it. */
  lemma KeyAtStep(text: string, i: nat)
    requires i <= |text|
    ensures
      var a := i + GapsAt(text, i);
      && a <= |text|
      && var b := a + PartAt(text, a).1;
         && b <= |text|
         && if PartAt(text, a).0.None? then !KeyAt(text, i).ok && KeyAt(text, i).n == b - i
            else
              var c := b + GapsAt(text, b);
              && c <= |text|
              && if c < |text| && text[c] == '.' then KeyAt(text, i) == Longer(PartAt(text, a).0.value, c + 1 - i, KeyAt(text, c + 1))
                 else KeyAt(text, i) == KeyRead(true, [PartAt(text, a).0.value], b - i, c - i)
  {
    hide KeyPath, KeyPart, Gaps, From;
    var s := From(text, i);
    FromStep(text, i, 0);
    GapsInside(s);
    var g := Gaps(s);
    FromStep(text, i, g);
    var b := g + KeyPart(s[g..]).1;
    FromStep(text, i, b);
    if KeyPart(s[g..]).0.None? {
      KeyFails(s);
    } else {
      GapsInside(s[b..]);
      var c := b + Gaps(s[b..]);
      KeyReads(s, KeyPart(s[g..]).0.value, b, c);
      if i + c < |text| {
        FromStep(text, i, c);
        FromStep(text, i, c + 1);
      }
    }
  }

  lemma BracketedStep(text: string, i: nat, depth: int)
    requires i <= |text|
    ensures
      BracketedAt(text, i, depth) ==
      if i == |text| then Some(0)
      else if text[i] == '[' || text[i] == '{' then Plus(1, BracketedAt(text, i + 1, depth + 1))
      else if text[i] == ']' || text[i] == '}' then
        if depth - 1 <= 0 then Some(1) else Plus(1, BracketedAt(text, i + 1, depth - 1))
      else if text[i] == '#' then Plus(LineAt(text, i), BracketedAt(text, i + LineAt(text, i), depth))
      else if Triple(From(text, i)) then
        if i + Multiline(From(text, i)) > |text| then None
        else Plus(Multiline(From(text, i)), BracketedAt(text, i + Multiline(From(text, i)), depth))
      else if From(text, i) != [] && IsQuote(From(text, i)[0]) then
        Plus(Quoted(From(text, i)).0, BracketedAt(text, i + Quoted(From(text, i)).0, depth))
      else Plus(1, BracketedAt(text, i + 1, depth))
    ensures i < |text| ==> From(text, i) != [] && From(text, i)[0] == text[i]
    ensures i < |text| && text[i] == '#' ==> 1 <= LineAt(text, i) && i + LineAt(text, i) <= |text|
  {
    FromStep(text, i, 0);
    if i < |text| {
      FromStep(text, i, 1);
      var s := From(text, i);
      hide Line, Multiline, Quoted;
      if text[i] == '#' {
        LineMoves(s);
        FromStep(text, i, LineAt(text, i));
      } else if Triple(s) {
        if Multiline(s) <= |s| { FromStep(text, i, Multiline(s)); }
      } else if IsQuote(text[i]) {
        FromStep(text, i, Quoted(s).0);
      }
    }
    hide From;
  }

  function NextAt(text: string, i: nat): Item { NextItem(From(text, i)) }

  function TopAt(text: string, i: nat): Top { NextTop(From(text, i)) }

  function ReadAt(text: string, i: nat, path: seq<string>, root: bool): Option<Read> { Value(From(text, i), i, path, root) }

  function AssignAt(text: string, i: nat, path: seq<string>, keyEnd: int, root: bool): Option<Read> {
    Assign(From(text, i), i, path, keyEnd, root)
  }

  function ItemsAt(text: string, i: nat, path: seq<string>, root: bool): Option<Read> { Items(From(text, i), i, path, root) }

  function RunAt(text: string, i: nat, table: seq<string>): Option<Scan> { Run(From(text, i), i, table) }

  /** From the end of a key to its value. */
  function AfterKey(text: string, b: nat): nat {
    var a := b + GapsAt(text, b);
    var c := if a < |text| && text[a] == '=' then a + 1 else a;
    c + GapsAt(text, c)
  }

  lemma AfterKeyIs(text: string, i: nat, n: nat)
    requires i + n <= |text|
    ensures n <= |From(text, i)| && i + ValueAt(From(text, i), n) == AfterKey(text, i + n)
    ensures i + n + GapsAt(text, i + n) <= |text|
  {
    hide Gaps, From;
    var s := From(text, i);
    FromStep(text, i, n);
    GapsInside(s[n..]);
    var a := n + Gaps(s[n..]);
    FromStep(text, i, a);
    if a < |s| { FromStep(text, i, a + 1); }
  }

  lemma KeyInside(text: string, a: nat)
    requires a <= |text|
    ensures a + KeyAt(text, a).n <= |text|
    ensures KeyAt(text, a).ok ==> 1 <= KeyAt(text, a).end <= KeyAt(text, a).n
  {
    hide KeyPath;
    FromStep(text, a, 0);
  }

  /** What the loop of an inline table does next. */
  lemma NextStep(text: string, i: nat)
    requires i <= |text|
    ensures
      var a := i + TriviaAt(text, i);
      && a <= |text|
      && var k := KeyAt(text, a);
         && a + k.n <= |text|
         && if a == |text| then NextAt(text, i) == End(a - i)
            else if text[a] == '}' then NextAt(text, i) == End(a + 1 - i)
            else if text[a] == ',' then NextAt(text, i) == Skip(a + 1 - i)
            else if !k.ok then NextAt(text, i) == if a + k.n == |text| then Broken else Skip(a + k.n + 1 - i)
            else
              && i <= AfterKey(text, a + k.n)
              && NextAt(text, i) == Key(k.parts, a + k.end - i, AfterKey(text, a + k.n) - i)
  {
    hide Trivia, KeyPath, From, Gaps, ValueAt, AfterKey;
    var s := From(text, i);
    TriviaStep(text, i);
    var a := Trivia(s);
    FromStep(text, i, 0);
    FromStep(text, i, a);
    KeyInside(text, i + a);
    var k := KeyAt(text, i + a);
    if k.ok { AfterKeyIs(text, i, a + k.n); }
  }

  lemma ItemsStep(text: string, i: nat, path: seq<string>, root: bool)
    requires i <= |text|
    ensures
      match NextAt(text, i)
      case End(n) => i + n <= |text| && ItemsAt(text, i, path, root) == Some(Read(n, Editable, []))
      case Skip(n) => 1 <= n && i + n <= |text| && ItemsAt(text, i, path, root) == Later(n, [], ItemsAt(text, i + n, path, root))
      case Broken => ItemsAt(text, i, path, root) == None
      case Key(parts, keyEnd, valueAt) =>
        && 1 <= valueAt && i + valueAt <= |text|
        && match AssignAt(text, i + valueAt, path + parts, i + keyEnd, root)
           case None => ItemsAt(text, i, path, root) == None
           case Some(a) =>
             && i + valueAt + a.n <= |text|
             && ItemsAt(text, i, path, root) == Later(valueAt + a.n, a.found, ItemsAt(text, i + valueAt + a.n, path, root))
  {
    hide NextItem, Assign, From;
    FromStep(text, i, 0);
    match NextAt(text, i)
    case End(n) =>
    case Skip(n) => FromStep(text, i, n);
    case Broken =>
    case Key(parts, keyEnd, valueAt) =>
      FromStep(text, i, valueAt);
      FromStep(text, i + valueAt, 0);
      match AssignAt(text, i + valueAt, path + parts, i + keyEnd, root) {
        case None =>
        case Some(a) => FromStep(text, i, valueAt + a.n);
      }
  }

  lemma LaterLater(n: nat, a: seq<Found>, m: nat, b: seq<Found>, rest: Option<Read>)
    ensures Later(n, a, Later(m, b, rest)) == Later(n + m, a + b, rest)
  {
    if rest.Some? { assert a + (b + rest.value.found) == a + b + rest.value.found; }
  }

  lemma LaterEnds(n: nat, found: seq<Found>)
    ensures forall k: nat :: Later(n, found, Some(Read(k, Editable, []))) == Some(Read(n + k, Editable, found))
    ensures forall k: nat, more :: Later(k, more, None) == None
  {
    assert found + [] == found;
  }

  lemma AfterKeyMeans(text: string, b: nat)
    ensures
      var a := b + GapsAt(text, b);
      AfterKey(text, b) ==
      if a < |text| && text[a] == '=' then a + 1 + GapsAt(text, a + 1) else a + GapsAt(text, a)
  {
    hide GapsAt;
  }

  lemma LaterNone(rest: Option<Read>)
    ensures Later(0, [], rest) == rest
  {
    if rest.Some? { assert [] + rest.value.found == rest.value.found; }
  }

  /** What the loop of run does next. */
  lemma TopStep(text: string, i: nat)
    requires i <= |text|
    ensures
      var a := i + TriviaAt(text, i);
      && a <= |text|
      && (a == |text| ==> TopAt(text, i) == Done)
      && (a < |text| && text[a] != '[' ==>
          var k := KeyAt(text, a);
          var b := a + k.n;
          && b <= |text|
          && (!k.ok ==> TopAt(text, i) == Over(b + LineAt(text, b) - i))
          && (k.ok ==>
              var c := b + GapsAt(text, b);
              && c == b
              && if b == |text| || text[b] != '=' then TopAt(text, i) == Over(a + LineAt(text, a) - i)
                 else TopAt(text, i) == Assignment(k.parts, a + k.end - i, b + 1 + GapsAt(text, b + 1) - i)))
  {
    hide Trivia, KeyPath, From, Gaps, Line, HeaderLine;
    var s := From(text, i);
    TriviaStep(text, i);
    var a := Trivia(s);
    FromStep(text, i, 0);
    FromStep(text, i, a);
    if i + a < |text| && text[i + a] != '[' {
      KeyInside(text, i + a);
      var k := KeyAt(text, i + a);
      FromStep(text, i, a + k.n);
      if k.ok {
        KeyEndsTight(From(text, i + a));
        if i + a + k.n < |text| { FromStep(text, i, a + k.n + 1); }
      }
    }
  }

  /** After the spaces there are none. */
  lemma GapsOver(s: string)
    ensures Gaps(s) <= |s| && Gaps(s[Gaps(s)..]) == 0
  {
  }

  /** A key is read up to something that is no space. */
  lemma {:induction false} KeyEndsTight(s: string)
    requires KeyPath(s).ok
    ensures KeyPath(s).n <= |s| && Gaps(s[KeyPath(s).n..]) == 0
    decreases |s|
  {
    hide KeyPart, Gaps, KeyPath;
    GapsInside(s);
    var g := Gaps(s);
    var b := g + KeyPart(s[g..]).1;
    if KeyPart(s[g..]).0.None? {
      KeyFails(s);
    } else {
      GapsOver(s[b..]);
      var c := b + Gaps(s[b..]);
      KeyReads(s, KeyPart(s[g..]).0.value, b, c);
      assert s[b..][Gaps(s[b..])..] == s[c..];
      if c < |s| && s[c] == '.' {
        KeyEndsTight(s[c + 1..]);
        assert s[c + 1..][KeyPath(s[c + 1..]).n..] == s[c + 1 + KeyPath(s[c + 1..]).n..];
      }
    }
  }

  /** The line of a table header. */
  lemma HeaderLineStep(text: string, a: nat)
    requires a < |text| && text[a] == '['
    ensures
      var many := a + 1 < |text| && text[a + 1] == '[';
      var open := a + if many then 2 else 1;
      && open <= |text|
      && var k := KeyAt(text, open);
         var h := open + k.n;
         && h <= |text| && h + LineAt(text, h) <= |text|
         && From(text, a) != [] && From(text, a)[0] == '['
         && HeaderLine(From(text, a)) ==
            if k.ok then Table(k.parts, many, h - a, h + LineAt(text, h) - a) else Over(h + LineAt(text, h) - a)
  {
    hide KeyPath, Line, From;
    FromStep(text, a, 0);
    if a + 1 < |text| { FromStep(text, a, 1); }
    var open := if a + 1 < |text| && text[a + 1] == '[' then 2 else 1;
    FromStep(text, a, open);
    KeyInside(text, a + open);
    var k := KeyAt(text, a + open);
    FromStep(text, a, open + k.n);
    LeadStep(InLine, text, a + open + k.n);
    LineIs(text, a + open + k.n);
  }

  lemma HeaderStep(text: string, i: nat)
    requires i <= |text|
    ensures
      var a := i + TriviaAt(text, i);
      a < |text| && text[a] == '[' ==>
        var many := a + 1 < |text| && text[a + 1] == '[';
        var open := a + if many then 2 else 1;
        && open <= |text|
        && var k := KeyAt(text, open);
           var h := open + k.n;
           && h <= |text| && h + LineAt(text, h) <= |text|
           && TopAt(text, i) ==
              if k.ok then Table(k.parts, many, h - i, h + LineAt(text, h) - i) else Over(h + LineAt(text, h) - i)
  {
    hide Trivia, KeyPath, From, Line, KeyAt, LineAt;
    TriviaStep(text, i);
    var t := TriviaAt(text, i);
    FromStep(text, i, 0);
    FromStep(text, i, t);
    if i + t < |text| && text[i + t] == '[' {
      HeaderLineStep(text, i + t);
      hide HeaderLine;
    }
  }

  lemma LineIs(text: string, i: nat)
    ensures LineAt(text, i) == Lead(InLine, From(text, i))
  {
  }

  lemma RunStep(text: string, i: nat, table: seq<string>)
    requires i <= |text|
    ensures
      match TopAt(text, i)
      case Done => RunAt(text, i, table) == Some(Scan([], []))
      case Over(n) => 1 <= n && i + n <= |text| && RunAt(text, i, table) == RunAt(text, i + n, table)
      case Table(path, many, h, n) =>
        && 1 <= n && i + n <= |text|
        && RunAt(text, i, table) == Then([], [Header(path, i + h, many)], RunAt(text, i + n, path))
      case Assignment(parts, keyEnd, valueAt) =>
        && 1 <= valueAt && i + valueAt <= |text|
        && match AssignAt(text, i + valueAt, table + parts, i + keyEnd, table == [])
           case None => RunAt(text, i, table) == None
           case Some(a) =>
             && i + valueAt + a.n <= |text|
             && RunAt(text, i, table) == Then(a.found, [], RunAt(text, i + valueAt + a.n, table))
  {
    hide NextTop, Assign, From;
    FromStep(text, i, 0);
    match TopAt(text, i)
    case Done =>
    case Over(n) => FromStep(text, i, n);
    case Table(path, many, h, n) => FromStep(text, i, n);
    case Assignment(parts, keyEnd, valueAt) =>
      FromStep(text, i, valueAt);
      FromStep(text, i + valueAt, 0);
      match AssignAt(text, i + valueAt, table + parts, i + keyEnd, table == []) {
        case None =>
        case Some(a) => FromStep(text, i, valueAt + a.n);
      }
  }

  lemma ThenThen(a: seq<Found>, h: seq<Header>, b: seq<Found>, g: seq<Header>, rest: Option<Scan>)
    ensures Then(a, h, Then(b, g, rest)) == Then(a + b, h + g, rest)
  {
    if rest.Some? {
      assert a + (b + rest.value.assigns) == a + b + rest.value.assigns;
      assert h + (g + rest.value.headers) == h + g + rest.value.headers;
    }
  }

  lemma ThenEnds(assigns: seq<Found>, headers: seq<Header>)
    ensures Then(assigns, headers, Some(Scan([], []))) == Some(Scan(assigns, headers))
    ensures Then(assigns, headers, None) == None
  {
    assert assigns + [] == assigns && headers + [] == headers;
  }

  lemma WholeIs(text: string)
    ensures ScanText(text) == RunAt(text, 0, [])
  {
    assert From(text, 0) == text;
  }

  lemma ThenNone(rest: Option<Scan>)
    ensures Then([], [], rest) == rest
  {
    if rest.Some? {
      assert [] + rest.value.assigns == rest.value.assigns && [] + rest.value.headers == rest.value.headers;
    }
  }

  /** Two offsets are on one line when no newline is between them. */
  lemma {:induction false} SameLine(text: string, a: nat, b: nat)
    requires a <= b <= |text|
    ensures Offsets.LineOf(text, a) <= Offsets.LineOf(text, b)
    ensures Offsets.LineOf(text, a) == Offsets.LineOf(text, b) <==> forall k :: a <= k < b ==> text[k] != '\n'
  {
    if a < b {
      SameLine(text, a, b - 1);
    }
  }

  /** The code's comparison of lines is the one of TomlSpec. */
  lemma SpansIs(text: string, start: nat, n: nat)
    requires start + n <= |text|
    ensures n <= |From(text, start)|
    ensures
      var last := if n == 0 then start else start + n - 1;
      Spans(From(text, start), n) <==> Offsets.LineOf(text, start) != Offsets.LineOf(text, last)
  {
    var last := if n == 0 then start else start + n - 1;
    SameLine(text, start, last);
    var s := From(text, start);
    if Spans(s, n) {
      var k :| 0 <= k < n - 1 && s[k] == '\n';
      assert text[start + k] == '\n';
    } else {
      forall k | start <= k < last ensures text[k] != '\n' { assert s[k - start] == text[k]; }
    }
  }

  /** What value does, case by case. */
  lemma ValueStep(text: string, i: nat, path: seq<string>, root: bool)
    requires i <= |text|
    ensures
      var s, r := From(text, i), ReadAt(text, i, path, root);
      if i == |text| then r == Some(Read(0, NoValue, []))
      else if Triple(s) then
        r == if i + Multiline(s) > |text| then None else Some(Read(Multiline(s), MultilineString, []))
      else if text[i] == '\"' || text[i] == '\'' then s != [] && IsQuote(s[0]) && r == Some(Read(Quoted(s).0, Editable, []))
      else if text[i] == '[' then
        match BracketedAt(text, i, 0)
        case None => r == None
        case Some(n) => i + n <= |text| && n <= |s| && r == Some(Read(n, if Spans(s, n) then SpanningArray else Editable, []))
      else if text[i] == '{' then
        match ItemsAt(text, i + 1, path, root)
        case None => r == None
        case Some(t) =>
          && i + 1 + t.n <= |text| && 1 + t.n <= |s|
          && r == if Spans(s, 1 + t.n) then Some(Read(1 + t.n, SpanningTable, Marked(t.found)))
                  else Some(Read(1 + t.n, Editable, t.found))
      else r == Some(Read(ValueRunAt(text, i), Editable, []))
    ensures i < |text| ==> From(text, i) != [] && From(text, i)[0] == text[i]
  {
    hide Multiline, Quoted, Bracketed, Items, Spans, Lead, Marked;
    FromStep(text, i, 0);
    if i < |text| { FromStep(text, i, 1); }
    hide From;
  }

  lemma AssignStep(text: string, i: nat, path: seq<string>, keyEnd: int, root: bool)
    requires i <= |text|
    ensures
      match ReadAt(text, i, path, root)
      case None => AssignAt(text, i, path, keyEnd, root) == None
      case Some(v) =>
        && i + v.n <= |text| && v.n <= |From(text, i)|
        && var end := v.n - Trail(IsGap, text[i..i + v.n]);
           && 0 <= end <= v.n
           && var why := if v.why == Editable && Spans(From(text, i), end) then SpanningValue else v.why;
              AssignAt(text, i, path, keyEnd, root) ==
              Some(Read(v.n, why, v.found + [Found(path, keyEnd, i, i + end, why, root)]))
  {
    hide Value, Spans;
    FromStep(text, i, 0);
    match ReadAt(text, i, path, root)
    case None =>
    case Some(v) =>
      assert From(text, i)[..v.n] == text[i..i + v.n];
  }

  lemma TrailStep(text: string, start: nat, end: nat, n: nat)
    requires start <= end <= n <= |text|
    requires forall k :: end <= k < n ==> IsGap(text[k])
    requires end > start ==> !IsGap(text[end - 1])
    ensures Trail(IsGap, text[start..n]) == n - end
  {
    var s := text[start..n];
    assert forall k :: end - start <= k < |s| ==> s[k] == text[start + k];
    assert end > start ==> s[end - start - 1] == text[end - 1];
    TrailIs(IsGap, s, n - end);
  }

  lemma TrailIs(p: char -> bool, s: string, n: nat)
    requires n <= |s|
    requires forall i :: |s| - n <= i < |s| ==> p(s[i])
    requires n < |s| ==> !p(s[|s| - n - 1])
    ensures Trail(p, s) == n
  {
    hide Trail;
  }
}
