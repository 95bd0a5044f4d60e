/** The toml scanner as it runs (internal/configfile/toml.go: tomlScan): a cursor over the
    text and the lists it appends to, each method proved to move the cursor and to record
    what TomlSpec says. A panic, which is the index one past the end of the text in
    assign, is the flag panicked, and every method returns as soon as it is set. */
module TomlCode {
  import opened Text
  import opened TomlSpec
  import opened TomlCursor
  import Offsets

  class TomlScan {
    const text: string
    const starts: seq<nat>
    var i: nat
    var table: seq<string>
    var keyEnd: nat
    var assigns: seq<Found>
    var headers: seq<Header>
    var panicked: bool

    constructor (text: string, starts: seq<nat>)
      requires starts == Offsets.Starts(text)
      ensures this.text == text && this.starts == starts
      ensures i == 0 && table == [] && assigns == [] && headers == [] && !panicked
    {
      this.text, this.starts := text, starts;
      i, table, keyEnd, assigns, headers, panicked := 0, [], 0, [], [], false;
    }

    method Spaces()
      requires i <= |text|
      modifies this`i
      ensures i == old(i) + GapsAt(text, old(i)) && i <= |text|
    {
      hide From, Lead;
      while i < |text| && IsGap(text[i])
        invariant old(i) <= i <= |text|
        invariant i + GapsAt(text, i) == old(i) + GapsAt(text, old(i))
      {
        LeadStep(IsGap, text, i);
        i := i + 1;
      }
      LeadStep(IsGap, text, i);
    }

    method ToEOL()
      requires i <= |text|
      modifies this`i
      ensures i == old(i) + LineAt(text, old(i)) && i <= |text|
    {
      hide From, Lead;
      while i < |text| && text[i] != '\n'
        invariant old(i) <= i <= |text|
        invariant i + LineAt(text, i) == old(i) + LineAt(text, old(i))
      {
        LeadStep(InLine, text, i);
        i := i + 1;
      }
      LeadStep(InLine, text, i);
    }

    method SkipTrivia()
      requires i <= |text|
      modifies this`i
      ensures i == old(i) + TriviaAt(text, old(i)) && i <= |text|
    {
      hide TriviaAt, LineAt;
      while i < |text|
        invariant old(i) <= i <= |text|
        invariant i + TriviaAt(text, i) == old(i) + TriviaAt(text, old(i))
        decreases |text| - i
      {
        TriviaStep(text, i);
        if IsGap(text[i]) || text[i] == '\n' {
          i := i + 1;
        } else if text[i] == '#' {
          ToEOL();
        } else {
          return;
        }
      }
      TriviaStep(text, i);
    }

    /** quoted: the text between the quotes, or None when the string is not closed on its
        line; the cursor is then on the newline or at the end. */
    method ReadQuoted() returns (part: Option<string>)
      requires i < |text| && IsQuote(text[i])
      modifies this`i
      ensures From(text, old(i)) != [] && IsQuote(From(text, old(i))[0])
      ensures i == old(i) + Quoted(From(text, old(i))).0 && i <= |text|
      ensures part.Some? == Quoted(From(text, old(i))).1
      ensures part.Some? ==> i >= old(i) + 2 && part.value == text[old(i) + 1..i - 1]
    {
      ghost var s := From(text, i);
      FromStep(text, i, 0);
      var quote := text[i];
      QuotedFromClosed(s, quote, 1);
      var j := i + 1;
      while j < |text|
        invariant i == old(i) && i + 1 <= j
        invariant QuotedFrom(s, quote, j - i) == Quoted(s)
        decreases |text| - j
      {
        if text[j] == '\n' {
          i := j;
          return None;
        } else if text[j] == '\\' && quote == '\"' {
          j := j + 2;
        } else if text[j] == quote {
          part := Some(text[i + 1..j]);
          i := j + 1;
          return;
        } else {
          j := j + 1;
        }
      }
      i := |text|;
      part := None;
    }

    /** multiline: one of the two methods that can leave the cursor past the end. */
    method SkipMultiline()
      requires i < |text| && Triple(From(text, i))
      modifies this`i
      ensures i == old(i) + Multiline(From(text, old(i)))
    {
      ghost var s := From(text, i);
      var quote := text[i];
      ghost var start := i;
      i := i + 3;
      while i < |text|
        invariant start + 3 <= i <= |text| + 1
        invariant MultilineFrom(s, quote, i - start) == Multiline(s)
        decreases |text| + 1 - i
      {
        if quote == '\"' && text[i] == '\\' {
          i := i + 2;
        } else if i + 3 <= |text| && text[i] == quote && text[i + 1] == quote && text[i + 2] == quote {
          i := i + 3;
          return;
        } else {
          i := i + 1;
        }
      }
    }

    /** One part of a key, quoted or bare. */
    method ReadPart() returns (part: Option<string>)
      requires i <= |text|
      modifies this`i
      ensures i == old(i) + PartAt(text, old(i)).1 && i <= |text|
      ensures part == PartAt(text, old(i)).0
    {
      hide PartAt, Quoted, From, Lead;
      PartStep(text, i);
      if i >= |text| {
        return None;
      }
      if text[i] == '\"' || text[i] == '\'' {
        part := ReadQuoted();
        return;
      }
      var from := i;
      while i < |text| && IsBare(text[i])
        invariant from <= i <= |text|
        invariant i + BareAt(text, i) == from + BareAt(text, from)
      {
        LeadStep(IsBare, text, i);
        i := i + 1;
      }
      LeadStep(IsBare, text, i);
      part := if i == from then None else Some(text[from..i]);
    }

    /** keyPath: the parts of a key, or None; keyEnd is then left wherever the last part
        read ended. */
    method ReadKeyPath() returns (parts: Option<seq<string>>)
      requires i <= |text|
      modifies this`i, this`keyEnd
      ensures
        var k := KeyAt(text, old(i));
        && i == old(i) + k.n && i <= |text|
        && parts == (if k.ok then Some(k.parts) else None)
        && (k.ok ==> keyEnd == old(i) + k.end)
    {
      hide KeyAt, PartAt, GapsAt;
      var out: seq<string> := [];
      ghost var start := i;
      ghost var whole := KeyAt(text, start);
      assert [] + whole.parts == whole.parts;
      while true
        invariant start <= i <= |text|
        invariant
          var k := KeyAt(text, i);
          && whole.ok == k.ok && whole.n == i - start + k.n
          && (k.ok ==> whole.parts == out + k.parts && whole.end == i - start + k.end)
        decreases |text| - i
      {
        KeyAtStep(text, i);
        Spaces();
        var part := ReadPart();
        if part.None? {
          return None;
        }
        ghost var before := out;
        out := out + [part.value];
        keyEnd := i;
        Spaces();
        if i < |text| && text[i] == '.' {
          i := i + 1;
          assert before + ([part.value] + KeyAt(text, i).parts) == out + KeyAt(text, i).parts;
          continue;
        }
        return Some(out);
      }
    }

    /** bracketed, with the overrun of a multi-line string left for assign to trip over. */
    method SkipBracketed()
      requires i <= |text|
      modifies this`i
      ensures
        match BracketedAt(text, old(i), 0)
        case Some(n) => i == old(i) + n && i <= |text|
        case None => i == |text| + 1
    {
      hide BracketedAt, LineAt, Multiline, Quoted, Triple, From;
      var depth := 0;
      ghost var start := i;
      while i < |text|
        invariant start <= i <= |text| + 1
        invariant i == |text| + 1 ==> BracketedAt(text, start, 0) == None
        invariant i <= |text| ==> BracketedAt(text, start, 0) == Plus(i - start, BracketedAt(text, i, depth))
        decreases |text| + 1 - i
      {
        BracketedStep(text, i, depth);
        FromStep(text, i, 0);
        var c := text[i];
        if c == '[' || c == '{' {
          depth := depth + 1;
          i := i + 1;
        } else if c == ']' || c == '}' {
          depth := depth - 1;
          i := i + 1;
          if depth <= 0 {
            return;
          }
        } else if c == '#' {
          ToEOL();
        } else if Triple(From(text, i)) {
          SkipMultiline();
        } else if c == '\"' || c == '\'' {
          var _ := ReadQuoted();
        } else {
          i := i + 1;
        }
      }
      if i <= |text| { BracketedStep(text, i, depth); }
    }

    /** Whether two offsets are on different lines. */
    method OnOtherLine(a: nat, b: nat) returns (other: bool)
      requires starts == Offsets.Starts(text) && a <= |text| && b <= |text|
      ensures other <==> Offsets.LineOf(text, a) != Offsets.LineOf(text, b)
    {
      var x := Offsets.Line(starts, text, a);
      var y := Offsets.Line(starts, text, b);
      other := x != y;
    }

    /** assign: the value, and its record behind the ones inside it. */
    method ReadAssign(path: seq<string>, keyEnd_: nat)
      requires starts == Offsets.Starts(text) && i <= |text| && !panicked
      modifies this`i, this`keyEnd, this`assigns, this`panicked
      ensures
        match AssignAt(text, old(i), path, keyEnd_, table == [])
        case None => panicked
        case Some(a) => !panicked && i == old(i) + a.n && i <= |text| && assigns == old(assigns) + a.found
      decreases |text| - i, 2
    {
      hide *;
      AssignStep(text, i, path, keyEnd_, table == []);
      var start := i;
      ghost var was := assigns;
      var why := ReadValue(path);
      if panicked {
        return;
      }
      if i > |text| {
        // The byte before the end of the value is not there to be looked at.
        panicked := true;
        return;
      }
      ghost var inside := assigns[|was|..];
      Record(path, keyEnd_, start, why);
      assert assigns == was + (inside + [assigns[|assigns| - 1]]);
    }

    /** The end of assign: the value without the spaces that end it, and its record. */
    method Record(path: seq<string>, keyEnd_: nat, start: nat, found: Why)
      requires starts == Offsets.Starts(text) && start <= i <= |text|
      modifies this`assigns
      ensures
        var n := i - start;
        var end := n - Trail(IsGap, text[start..i]);
        && 0 <= end <= n && n <= |From(text, start)|
        && var why := if found == Editable && Spans(From(text, start), end) then SpanningValue else found;
           assigns == old(assigns) + [Found(path, keyEnd_, start, start + end, why, table == [])]
    {
      hide *;
      FromStep(text, start, 0);
      var why := found;
      var end: nat := i;
      while end > start && IsGap(text[end - 1])
        invariant start <= end <= i
        invariant forall k :: end <= k < i ==> IsGap(text[k])
      {
        end := end - 1;
      }
      TrailStep(text, start, end, i);
      SpansIs(text, start, end - start);
      if why == Editable {
        var other := OnOtherLine(start, if end > start then end - 1 else start);
        if other {
          why := SpanningValue;
        }
      }
      assigns := assigns + [Found(path, keyEnd_, start, end, why, table == [])];
    }

    /** value: over one value, and why it may not be rewritten. Reading past the end leaves
        the cursor there. */
    method ReadValue(path: seq<string>) returns (why: Why)
      requires starts == Offsets.Starts(text) && i <= |text| && !panicked
      modifies this`i, this`keyEnd, this`assigns, this`panicked
      ensures
        match ReadAt(text, old(i), path, table == [])
        case None => panicked || i == |text| + 1
        case Some(v) => !panicked && i == old(i) + v.n && i <= |text| && assigns == old(assigns) + v.found && why == v.why
      decreases |text| - i, 1
    {
      hide *;
      ValueStep(text, i, path, table == []);
      FromStep(text, i, 0);
      assert assigns + [] == assigns;
      var start := i;
      if i >= |text| {
        return NoValue;
      }
      if Triple(From(text, i)) {
        SkipMultiline();
        return MultilineString;
      }
      if text[i] == '\"' || text[i] == '\'' {
        var _ := ReadQuoted();
        return Editable;
      }
      if text[i] == '[' {
        SkipBracketed();
        if i > |text| {
          return Editable;
        }
        SpansIs(text, start, i - start);
        var other := OnOtherLine(start, if i > start then i - 1 else start);
        return if other then SpanningArray else Editable;
      }
      if text[i] == '{' {
        why := ReadInlineTable(path);
        return;
      }
      SkipValueRun();
      why := Editable;
    }

    /** The loop of value over a bare value. */
    method SkipValueRun()
      requires i <= |text|
      modifies this`i
      ensures i == old(i) + ValueRunAt(text, old(i)) <= |text|
    {
      hide From, Lead;
      ghost var start := i;
      LeadStep(InValue, text, i);
      while i < |text| && InValue(text[i])
        invariant start <= i <= |text|
        invariant i + ValueRunAt(text, i) == start + ValueRunAt(text, start)
      {
        LeadStep(InValue, text, i);
        i := i + 1;
      }
      LeadStep(InValue, text, i);
    }

    /** inlineTable: every key inside it, and the reason of the table for all of them when
        its braces are on two lines. */
    method ReadInlineTable(path: seq<string>) returns (why: Why)
      requires starts == Offsets.Starts(text) && i < |text| && text[i] == '{' && !panicked
      modifies this`i, this`keyEnd, this`assigns, this`panicked
      ensures
        match ItemsAt(text, old(i) + 1, path, table == [])
        case None => panicked || i == |text| + 1
        case Some(r) =>
          && !panicked && i == old(i) + 1 + r.n && i <= |text|
          && var spans := 1 + r.n <= |From(text, old(i))| && Spans(From(text, old(i)), 1 + r.n);
             && why == (if spans then SpanningTable else Editable)
             && assigns == old(assigns) + if spans then Marked(r.found) else r.found
      decreases |text| - i, 0
    {
      hide *;
      var start := i;
      var mark := |assigns|;
      i := i + 1;
      ReadItems(path);
      if panicked || i > |text| {
        // Every later look at the text is guarded; the value that holds this table is
        // what trips over the end.
        return Editable;
      }
      ghost var found := assigns[mark..];
      SpansIs(text, start, i - start);
      var other := OnOtherLine(start, i - 1);
      if !other {
        return Editable;
      }
      Mark(mark);
      why := SpanningTable;
    }

    /** The loop of inlineTable. */
    method ReadItems(path: seq<string>)
      requires starts == Offsets.Starts(text) && i <= |text| && !panicked
      modifies this`i, this`keyEnd, this`assigns, this`panicked
      ensures
        match ItemsAt(text, old(i), path, table == [])
        case None => panicked || i == |text| + 1
        case Some(r) => !panicked && i == old(i) + r.n && i <= |text| && assigns == old(assigns) + r.found
      decreases |text| - i, 5
    {
      hide *;
      var mark := |assigns|;
      ghost var root := table == [];
      ghost var was := assigns;
      ghost var first := i;
      LaterNone(ItemsAt(text, i, path, root));
      assert assigns[mark..] == [];
      while true
        invariant first <= i <= |text| && !panicked
        invariant mark <= |assigns| && assigns[..mark] == was
        invariant ItemsAt(text, first, path, root) == Later(i - first, assigns[mark..], ItemsAt(text, i, path, root))
        decreases |text| - i
      {
        ghost var at := i;
        ghost var before := assigns;
        LaterEnds(at - first, assigns[mark..]);
        var more := ReadItem(path);
        if panicked || i > |text| {
          return;
        }
        if !more {
          break;
        }
        ghost var found := assigns[|before|..];
        LaterLater(at - first, before[mark..], i - at, found, ItemsAt(text, i, path, root));
        assert assigns[mark..] == before[mark..] + found;
      }
    }

    /** One round of it, and whether there is another. */
    method ReadItem(path: seq<string>) returns (more: bool)
      requires starts == Offsets.Starts(text) && i <= |text| && !panicked
      modifies this`i, this`keyEnd, this`assigns, this`panicked
      ensures !panicked ==> i >= old(i) && |assigns| >= |old(assigns)| && assigns[..|old(assigns)|] == old(assigns)
      ensures panicked || i > |text| ==> ItemsAt(text, old(i), path, table == []) == None && (panicked || i == |text| + 1)
      ensures !panicked && i <= |text| && !more ==>
                assigns == old(assigns) && ItemsAt(text, old(i), path, table == []) == Some(Read(i - old(i), Editable, []))
      ensures !panicked && i <= |text| && more ==>
                && i > old(i)
                && ItemsAt(text, old(i), path, table == []) ==
                   Later(i - old(i), assigns[|old(assigns)|..], ItemsAt(text, i, path, table == []))
      decreases |text| - i, 4
    {
      hide *;
      NextStep(text, i);
      ItemsStep(text, i, path, table == []);
      assert assigns[|assigns|..] == [];
      SkipTrivia();
      if i >= |text| {
        return false;
      }
      if text[i] == '}' {
        i := i + 1;
        return false;
      }
      if text[i] == ',' {
        i := i + 1;
        return true;
      }
      var parts := ReadKeyPath();
      if parts.None? {
        i := i + 1;
        return true;
      }
      ghost var before := assigns;
      ReadKeyed(path + parts.value);
      assert !panicked ==> assigns[|before|..] + [] == assigns[|before|..];
      more := true;
    }

    /** The part of inlineTable that follows a key. */
    method ReadKeyed(path: seq<string>)
      requires starts == Offsets.Starts(text) && i <= |text| && !panicked && AfterKey(text, i) <= |text|
      modifies this`i, this`keyEnd, this`assigns, this`panicked
      ensures
        match AssignAt(text, AfterKey(text, old(i)), path, old(keyEnd), table == [])
        case None => panicked
        case Some(a) => !panicked && i == AfterKey(text, old(i)) + a.n && i <= |text| && assigns == old(assigns) + a.found
      decreases |text| - i, 3
    {
      hide *;
      AfterKeyMeans(text, i);
      var keyEnd_ := keyEnd;
      ghost var b := i;
      Spaces();
      if i < |text| && text[i] == '=' {
        i := i + 1;
      }
      Spaces();
      assert i >= b;
      ReadAssign(path, keyEnd_);
    }

    /** The loop at the end of inlineTable. */
    method Mark(mark: nat)
      requires mark <= |assigns|
      modifies this`assigns
      ensures assigns == old(assigns)[..mark] + Marked(old(assigns)[mark..])
    {
      for j := mark to |assigns|
        invariant |assigns| == |old(assigns)|
        invariant forall k :: 0 <= k < mark ==> assigns[k] == old(assigns)[k]
        invariant forall k :: mark <= k < j ==> assigns[k] == Marked(old(assigns)[mark..])[k - mark]
        invariant forall k :: j <= k < |assigns| ==> assigns[k] == old(assigns)[k]
      {
        if assigns[j].why == Editable {
          assigns := assigns[j := assigns[j].(why := SpanningTable)];
        }
      }
    }

    /** header: the table the line names becomes the current one. */
    method ReadHeader()
      requires i < |text| && text[i] == '['
      modifies this`i, this`keyEnd, this`table, this`headers
      ensures
        var a := old(i);
        var many := a + 1 < |text| && text[a + 1] == '[';
        var open := a + if many then 2 else 1;
        && open <= |text|
        && var k := KeyAt(text, open);
           var h := open + k.n;
           && h <= |text| && i == h + LineAt(text, h) && i <= |text|
           && table == (if k.ok then k.parts else old(table))
           && headers == old(headers) + if k.ok then [Header(k.parts, h, many)] else []
    {
      hide *;
      var many := i + 1 < |text| && text[i + 1] == '[';
      i := i + 1;
      if many {
        i := i + 1;
      }
      var parts := ReadKeyPath();
      if parts.None? {
        ToEOL();
        return;
      }
      table := parts.value;
      headers := headers + [Header(parts.value, i, many)];
      ToEOL();
    }

    /** run, from the top of the file. */
    method Run()
      requires starts == Offsets.Starts(text) && i == 0 && table == [] && assigns == [] && headers == [] && !panicked
      modifies this
      ensures
        match ScanText(text)
        case None => panicked
        case Some(r) => !panicked && assigns == r.assigns && headers == r.headers
    {
      hide *;
      WholeIs(text);
      ThenNone(RunAt(text, 0, []));
      while true
        invariant i <= |text| && !panicked && starts == Offsets.Starts(text)
        invariant ScanText(text) == Then(assigns, headers, RunAt(text, i, table))
        decreases |text| - i
      {
        ghost var found, heads := assigns, headers;
        ThenEnds(found, heads);
        var more := ReadTop();
        if panicked || !more {
          return;
        }
        ghost var a, h := assigns[|found|..], headers[|heads|..];
        ThenThen(found, heads, a, h, RunAt(text, i, table));
        assert assigns == found + a && headers == heads + h;
      }
    }

    /** One round of run, and whether there is another. */
    method ReadTop() returns (more: bool)
      requires starts == Offsets.Starts(text) && i <= |text| && !panicked
      modifies this`i, this`keyEnd, this`table, this`assigns, this`headers, this`panicked
      ensures panicked ==> RunAt(text, old(i), old(table)) == None
      ensures !panicked ==> old(i) <= i <= |text| && |assigns| >= |old(assigns)| && assigns[..|old(assigns)|] == old(assigns)
      ensures !panicked ==> |headers| >= |old(headers)| && headers[..|old(headers)|] == old(headers)
      ensures !panicked && !more ==>
                assigns == old(assigns) && headers == old(headers) && RunAt(text, old(i), old(table)) == Some(Scan([], []))
      ensures !panicked && more ==>
                && i > old(i)
                && RunAt(text, old(i), old(table)) ==
                   Then(assigns[|old(assigns)|..], headers[|old(headers)|..], RunAt(text, i, table))
    {
      hide *;
      ghost var at := i;
      RunStep(text, i, table);
      TopStep(text, i);
      ghost var found, heads := assigns, headers;
      assert found[|found|..] == [] && heads[|heads|..] == [];
      SkipTrivia();
      if i >= |text| {
        return false;
      }
      if text[i] == '[' {
        HeaderStep(text, at);
        ReadHeader();
        ThenNone(RunAt(text, i, table));
        assert headers != heads ==> headers[|heads|..] == [headers[|heads|]];
        return true;
      }
      var keyAt := i;
      var parts := ReadKeyPath();
      if parts.None? {
        ToEOL();
        ThenNone(RunAt(text, i, table));
        return true;
      }
      if i >= |text| || text[i] != '=' {
        i := keyAt;
        ToEOL();
        ThenNone(RunAt(text, i, table));
        return true;
      }
      var keyEnd_ := keyEnd;
      i := i + 1;
      Spaces();
      ReadAssign(table + parts.value, keyEnd_);
      more := true;
    }
  }
}
