/** How the lines an edit writes read back, one line at a time. */
module IniLines {
  import opened Text
  import opened IniScan
  import opened IniCodec

  predicate Blanks(s: string) {
    forall i :: 0 <= i < |s| ==> IsBlank(s[i])
  }

  predicate Spaces(s: string) {
    forall i :: 0 <= i < |s| ==> IsSpace(s[i])
  }

  /** An "=" with blanks around it. */
  ghost predicate IsSep(sep: string) {
    exists b, c :: Blanks(b) && Blanks(c) && sep == b + ['='] + c
  }

  /** A spelled value no trimming changes. */
  predicate Solid(v: string) {
    v == [] || (!IsBlank(v[0]) && !IsBlank(v[|v| - 1]))
  }

  /** A key an ini line can spell: it reads back as itself and as an assignment. */
  predicate GoodName(name: string) {
    && name != [] && Trimmed(name) && '=' !in name && '\n' !in name
    && name[0] != '[' && name[0] != ';' && name[0] != '#'
    && !EndsInList(name)
  }

  predicate GoodKey(k: Name) {
    GoodName(k.name) && Trimmed(k.section) && '\n' !in k.section
  }

  // ---- trimming what was put together ----

  lemma TrimSpaceOf(pre: string, core: string, post: string)
    requires Spaces(pre) && Spaces(post) && core != [] && Trimmed(core)
    ensures TrimSpace(pre + core + post) == core
  {
    hide Lead, Trail;
    var s := pre + core + post;
    assert s[|pre|] == core[0];
    assert forall i :: 0 <= i < |pre| ==> s[i] == pre[i];
    LeadIs(IsSpace, s, |pre|);
    var t := s[|pre|..];
    assert t == core + post;
    assert forall i :: |core| <= i < |t| ==> t[i] == post[i - |core|];
    assert t[|core| - 1] == core[|core| - 1];
    TrailIs(IsSpace, t, |post|);
    assert t[..|core|] == core;
  }

  lemma TrailIs(p: char -> bool, s: string, n: nat)
    requires n <= |s|
    requires forall i :: |s| - n <= i < |s| ==> p(s[i])
    requires n < |s| ==> !p(s[|s| - n - 1])
    ensures Trail(p, s) == n
  {
    hide Trail;
  }

  lemma TrimRightOf(s: string, post: string)
    requires Blanks(post) && (s != [] ==> !IsBlank(s[|s| - 1]))
    ensures TrimRight(IsBlank, s + post) == s
  {
    hide Trail;
    var t := s + post;
    assert forall i :: |s| <= i < |t| ==> t[i] == post[i - |s|];
    assert s != [] ==> t[|s| - 1] == s[|s| - 1];
    TrailIs(IsBlank, t, |post|);
    assert t[..|s|] == s;
  }

  lemma TrimSpaceHead(s: string)
    ensures TrimSpace(s) == [] <==> Lead(IsSpace, s) == |s|
    ensures Lead(IsSpace, s) < |s| ==> TrimSpace(s)[0] == s[Lead(IsSpace, s)]
  {
    hide Lead, Trail;
  }

  lemma IndexIs(s: string, c: char, i: nat)
    requires i < |s| && s[i] == c
    requires forall j :: 0 <= j < i ==> s[j] != c
    ensures IndexByte(s, c) == Some(i)
  {
    hide IndexByte;
    var f := IndexByte(s, c).value;
    forall j | 0 <= j < f ensures s[j] != c {
      assert s[j] == s[..f][j];
    }
  }

  // ---- a line put together from its parts ----

  /** The assignment a line is written to be. */
  function Built(name: string, list: bool, indent: string, sep: string, spell: string): Assignment {
    Assignment(name, list, sep, |indent| + |Core(name, list)| + |sep|, spell)
  }

  function Core(name: string, list: bool): string {
    if list then name + "[]" else name
  }

  lemma CoreFacts(name: string, list: bool)
    requires GoodName(name)
    ensures
      var core := Core(name, list);
      && core != [] && Trimmed(core) && '=' !in core
      && core[0] == name[0] && EndsInList(core) == list
      && (list ==> core[..|core| - 2] == name)
  {
  }

  lemma BuiltHead(indent: string, core: string, b: string)
    requires Blanks(indent) && Blanks(b) && core != [] && Trimmed(core)
    ensures TrimSpace(indent + core + b) == core
    ensures TrimRight(IsBlank, indent + core + b) == indent + core
  {
    hide TrimSpace, TrimRight;
    assert Spaces(indent) && Spaces(b);
    TrimSpaceOf(indent, core, b);
    TrimRightOf(indent + core, b);
  }

  /** The offsets of the separator and of the value in such a line. */
  lemma BuiltOffsets(pre: string, b: string, c: string, spell: string)
    requires '=' !in pre && Blanks(b) && Blanks(c) && Solid(spell)
    ensures
      var line := pre + b + ['='] + c + spell;
      && IndexByte(line, '=') == Some(|pre| + |b|)
      && line[..|pre| + |b|] == pre + b
      && Lead(IsBlank, line[|pre| + |b| + 1..]) == |c|
      && line[|pre| + |b| + 1 + |c|..] == spell
      && line[|pre|..|pre| + |b| + 1 + |c|] == b + ['='] + c
  {
    hide IndexByte, Lead;
    var line := pre + b + ['='] + c + spell;
    var eq := |pre| + |b|;
    forall j | 0 <= j < eq ensures line[j] != '=' {
      if j < |pre| {
        assert line[j] == pre[j] && pre[j] in pre;
      } else {
        assert line[j] == b[j - |pre|];
      }
    }
    IndexIs(line, '=', eq);
    var tail := line[eq + 1..];
    assert tail == c + spell;
    LeadIs(IsBlank, tail, |c|);
  }

  lemma BuiltFromParts(indent: string, core: string, b: string, c: string, spell: string)
    requires Blanks(indent) && Blanks(b) && Blanks(c) && Solid(spell)
    requires core != [] && Trimmed(core) && '=' !in core
    ensures
      var sep := b + ['='] + c;
      AssignmentOf(indent + core + sep + spell) == Some(Assignment(
                                                          if EndsInList(core) then core[..|core| - 2] else core,
                                                          EndsInList(core), sep, |indent| + |core| + |sep|, spell))
  {
    hide *;
    var pre := indent + core;
    var line := pre + b + ['='] + c + spell;
    assert indent + core + (b + ['='] + c) + spell == line;
    NoEquals(indent, core);
    BuiltOffsets(pre, b, c, spell);
    BuiltHead(indent, core, b);
    SolidWhole(spell);
    AssignmentIs(line, |pre| + |b|, |pre| + |b| + 1 + |c|, core);
  }

  lemma SolidWhole(v: string)
    requires Solid(v)
    ensures TrimRight(IsBlank, v) == v
  {
    hide TrimRight;
    assert v + [] == v;
    TrimRightOf(v, []);
  }

  lemma BuiltAssignment(indent: string, name: string, list: bool, sep: string, spell: string)
    requires Blanks(indent) && GoodName(name) && IsSep(sep) && Solid(spell)
    ensures AssignmentOf(indent + Core(name, list) + sep + spell) == Some(Built(name, list, indent, sep, spell))
  {
    hide *;
    CoreFacts(name, list);
    var b, c := SepParts(sep);
    BuiltFromParts(indent, Core(name, list), b, c, spell);
    BuiltIs(name, list, indent, sep, spell);
  }

  lemma SepParts(sep: string) returns (b: string, c: string)
    requires IsSep(sep)
    ensures Blanks(b) && Blanks(c) && sep == b + ['='] + c
  {
    hide Blanks;
    b, c :| Blanks(b) && Blanks(c) && sep == b + ['='] + c;
  }

  lemma BuiltIs(name: string, list: bool, indent: string, sep: string, spell: string)
    ensures
      var core := Core(name, list);
      Built(name, list, indent, sep, spell) == Assignment(name, list, sep, |indent| + |core| + |sep|, spell)
    ensures !list ==> Core(name, list) == name
  {
  }

  lemma NoEquals(indent: string, core: string)
    requires Blanks(indent) && '=' !in core
    ensures '=' !in indent + core
  {
  }

  lemma AssignmentIs(line: string, eq: nat, valueAt: nat, core: string)
    requires IndexByte(line, '=') == Some(eq)
    requires eq < valueAt <= |line| && Lead(IsBlank, line[eq + 1..]) == valueAt - eq - 1
    requires core != [] && TrimSpace(line[..eq]) == core
    ensures AssignmentOf(line) == Some(Assignment(
                                         if EndsInList(core) then core[..|core| - 2] else core,
                                         EndsInList(core),
                                         line[|TrimRight(IsBlank, line[..eq])|..valueAt],
                                         valueAt,
                                         TrimRight(IsBlank, line[valueAt..])))
  {
    hide IndexByte, Lead, TrimSpace, TrimRight, EndsInList;
  }

  /** The first byte that is not white space decides whether a line is a comment or a
      header. */
  lemma OpensWith(line: string, i: nat)
    requires i < |line| && !IsSpace(line[i]) && forall j :: 0 <= j < i ==> IsSpace(line[j])
    requires line[i] != '[' && line[i] != ';' && line[i] != '#'
    ensures !Introduces(line) && SectionName(TrimSpace(line)).None?
  {
    hide TrimSpace, Lead;
    TrimSpaceHead(line);
    LeadIs(IsSpace, line, i);
  }

  /** A line built from a key, in a context it does not continue, reads as that key. */
  lemma ReadBuilt(ctx: Ctx, indent: string, name: string, list: bool, sep: string, spell: string)
    requires Blanks(indent) && GoodName(name) && IsSep(sep) && Solid(spell)
    ensures
      var line := indent + Core(name, list) + sep + spell;
      && Indent(line) == indent
      && Continues(ctx, line) == (ctx.open.Some? && |indent| > ctx.open.value)
      && Read(ctx, line) == if Continues(ctx, line) then More(TrimSpace(line))
                            else Assign(ctx.section, Built(name, list, indent, sep, spell), |indent|)
  {
    hide AssignmentOf, SectionName, Introduces, TrimSpace, Lead, GoodName, IsSep, Solid, Built, Core;
    BuiltAssignment(indent, name, list, sep, spell);
    var line := indent + Core(name, list) + sep + spell;
    NameOpens(name);
    CoreFacts(name, list);
    var core := Core(name, list);
    assert line[|indent|] == core[0] == name[0];
    assert forall j :: 0 <= j < |indent| ==> line[j] == indent[j];
    OpensWith(line, |indent|);
    LeadIs(IsBlank, line, |indent|);
    assert line[..|indent|] == indent;
  }

  lemma NameOpens(name: string)
    requires GoodName(name)
    ensures name != [] && !IsSpace(name[0]) && !IsBlank(name[0])
    ensures name[0] != '[' && name[0] != ';' && name[0] != '#'
  {
  }

  // ---- a line with only its value replaced ----

  /** Where an assignment has its "=", where its name ends before it, and what is between. */
  lemma AssignmentParts(line: string) returns (eq: nat, t: nat)
    requires AssignmentOf(line).Some?
    ensures
      var a := AssignmentOf(line).value;
      && t <= eq < a.valueAt <= |line|
      && IndexByte(line, '=') == Some(eq)
      && Lead(IsBlank, line[eq + 1..]) == a.valueAt - eq - 1
      && t == |TrimRight(IsBlank, line[..eq])|
      && TrimSpace(line[..eq]) != []
      && a == Assignment(
                if EndsInList(TrimSpace(line[..eq])) then TrimSpace(line[..eq])[..|TrimSpace(line[..eq])| - 2] else TrimSpace(line[..eq]),
                EndsInList(TrimSpace(line[..eq])), line[t..a.valueAt], a.valueAt, TrimRight(IsBlank, line[a.valueAt..]))
  {
    hide IndexByte, Lead, TrimSpace, EndsInList, Trail;
    eq := IndexByte(line, '=').value;
    t := |TrimRight(IsBlank, line[..eq])|;
  }

  /** The bytes around the "=" are blanks, and the first one after them is none. */
  lemma AssignmentBlanks(line: string, eq: nat, t: nat, valueAt: nat)
    requires t <= eq < valueAt <= |line| && IndexByte(line, '=') == Some(eq)
    requires Lead(IsBlank, line[eq + 1..]) == valueAt - eq - 1 && t == |TrimRight(IsBlank, line[..eq])|
    ensures line[eq] == '=' && forall j :: 0 <= j < eq ==> line[j] != '='
    ensures forall j :: t <= j < eq ==> IsBlank(line[j])
    ensures forall j :: eq < j < valueAt ==> IsBlank(line[j])
  {
    hide IndexByte, Lead, Trail;
    var head, tail := line[..eq], line[eq + 1..];
    forall j | 0 <= j < eq ensures line[j] != '=' { assert line[j] == head[j]; }
    forall j | t <= j < eq ensures IsBlank(line[j]) { assert line[j] == head[j]; }
    forall j | eq < j < valueAt ensures IsBlank(line[j]) { assert line[j] == tail[j - eq - 1]; }
  }

  /** Only the bytes after the separator change, and only the raw value reads
      differently. */
  lemma ReplacedAssignment(line: string, spell: string)
    requires AssignmentOf(line).Some? && Solid(spell)
    ensures
      var a := AssignmentOf(line).value;
      && a.valueAt <= |line|
      && AssignmentOf(line[..a.valueAt] + spell) == Some(a.(raw := spell))
  {
    hide *;
    var a := AssignmentOf(line).value;
    var eq, t := AssignmentParts(line);
    AssignmentBlanks(line, eq, t, a.valueAt);
    var now := line[..a.valueAt] + spell;
    SolidWhole(spell);
    assert now[..eq] == line[..eq];
    forall j | 0 <= j < eq ensures now[j] != '=' { assert now[j] == line[j]; }
    assert now[eq] == line[eq];
    IndexIs(now, '=', eq);
    SameBlanks(line, spell, eq, a.valueAt);
    assert now[a.valueAt..] == spell && now[t..a.valueAt] == line[t..a.valueAt];
    AssignmentIs(now, eq, a.valueAt, TrimSpace(line[..eq]));
  }

  lemma SameBlanks(line: string, spell: string, eq: nat, valueAt: nat)
    requires eq < valueAt <= |line| && Solid(spell) && forall j :: eq < j < valueAt ==> IsBlank(line[j])
    ensures Lead(IsBlank, (line[..valueAt] + spell)[eq + 1..]) == valueAt - eq - 1
  {
    hide Lead;
    var now := line[..valueAt] + spell;
    var tail, n := now[eq + 1..], valueAt - eq - 1;
    forall i | 0 <= i < n ensures IsBlank(tail[i]) { assert tail[i] == line[eq + 1 + i]; }
    assert n < |tail| ==> tail[n] == spell[0];
    LeadIs(IsBlank, tail, n);
  }

  /** The name an assignment reads starts at the first byte of its line that is not
      white space. */
  lemma AssignmentOpens(line: string)
    requires AssignmentOf(line).Some?
    ensures
      var a := AssignmentOf(line).value;
      var i := Lead(IsSpace, line);
      && i < a.valueAt <= |line|
      && |Indent(line)| <= i
      && (!a.list ==> a.name != [] && line[i] == a.name[0])
  {
    hide *;
    var eq, t := AssignmentParts(line);
    var head := line[..eq];
    var i := Lead(IsSpace, head);
    TrimSpaceHead(head);
    LeadInside(line, eq);
    BlanksFirst(line);
  }

  lemma LeadInside(line: string, eq: nat)
    requires eq <= |line| && Lead(IsSpace, line[..eq]) < eq
    ensures Lead(IsSpace, line) == Lead(IsSpace, line[..eq])
    ensures line[Lead(IsSpace, line)] == line[..eq][Lead(IsSpace, line)]
  {
    hide Lead;
    var head := line[..eq];
    var i := Lead(IsSpace, head);
    assert line[i] == head[i];
    forall j | 0 <= j < i ensures IsSpace(line[j]) { assert line[j] == head[j]; }
    LeadIs(IsSpace, line, i);
  }

  lemma BlanksFirst(line: string)
    ensures |Indent(line)| == Lead(IsBlank, line) <= Lead(IsSpace, line) <= |line|
  {
    hide Lead;
    var i, n := Lead(IsSpace, line), Lead(IsBlank, line);
    if n > i { assert false; }
  }

  /** The separator is an "=" between blanks. */
  lemma AssignmentSep(line: string)
    requires AssignmentOf(line).Some?
    ensures IsSep(AssignmentOf(line).value.sep)
  {
    hide *;
    var a := AssignmentOf(line).value;
    var eq, t := AssignmentParts(line);
    AssignmentBlanks(line, eq, t, a.valueAt);
    SepIs(line, eq, t, a.valueAt);
  }

  lemma SepIs(line: string, eq: nat, t: nat, valueAt: nat)
    requires t <= eq < valueAt <= |line| && line[eq] == '='
    requires forall j :: t <= j < eq ==> IsBlank(line[j])
    requires forall j :: eq < j < valueAt ==> IsBlank(line[j])
    ensures IsSep(line[t..valueAt])
  {
    var b, c := line[t..eq], line[eq + 1..valueAt];
    assert Blanks(b) && Blanks(c);
    assert line[t..valueAt] == b + ['='] + c;
  }

  /** A replaced line reads as the same assignment with the new value, wherever the
      line it replaces read as an assignment of a key that is not a header. */
  lemma ReadReplaced(ctx: Ctx, line: string, spell: string)
    requires Read(ctx, line).Assign? && Solid(spell)
    requires var a := AssignmentOf(line).value; !a.list && GoodName(a.name)
    ensures
      var a := AssignmentOf(line).value;
      && a.valueAt <= |line|
      && Indent(line[..a.valueAt] + spell) == Indent(line)
      && Read(ctx, line[..a.valueAt] + spell) == Assign(ctx.section, a.(raw := spell), |Indent(line)|)
  {
    hide *;
    ReadAssigns(ctx, line);
    ReplacedAssignment(line, spell);
    var a := AssignmentOf(line).value;
    var now := line[..a.valueAt] + spell;
    ReplacedOpens(line, spell);
    ContinuesByIndent(ctx, line, now);
    AssignReads(ctx, now);
  }

  lemma ReadAssigns(ctx: Ctx, line: string)
    requires Read(ctx, line).Assign?
    ensures AssignmentOf(line).Some? && !Continues(ctx, line)
  {
    hide Introduces, Continues, SectionName, TrimSpace, AssignmentOf, Indent;
  }

  lemma ContinuesByIndent(ctx: Ctx, a: string, b: string)
    requires Indent(a) == Indent(b)
    ensures Continues(ctx, a) == Continues(ctx, b)
  {
    hide Indent;
  }

  lemma AssignReads(ctx: Ctx, line: string)
    requires !Introduces(line) && SectionName(TrimSpace(line)).None? && AssignmentOf(line).Some? && !Continues(ctx, line)
    ensures Read(ctx, line) == Assign(ctx.section, AssignmentOf(line).value, |Indent(line)|)
  {
    hide Introduces, Continues, SectionName, TrimSpace, AssignmentOf, Indent;
  }

  lemma ReplacedOpens(line: string, spell: string)
    requires AssignmentOf(line).Some?
    requires var a := AssignmentOf(line).value; !a.list && GoodName(a.name) && a.valueAt <= |line|
    ensures
      var now := line[..AssignmentOf(line).value.valueAt] + spell;
      && Indent(now) == Indent(line)
      && !Introduces(now) && SectionName(TrimSpace(now)).None?
  {
    hide *;
    var a := AssignmentOf(line).value;
    var now := line[..a.valueAt] + spell;
    AssignmentOpens(line);
    NameOpens(a.name);
    BlanksFirst(line);
    OpensAgain(line, now, Lead(IsSpace, line));
  }

  lemma OpensAgain(line: string, now: string, i: nat)
    requires i < |line| && i < |now| && i == Lead(IsSpace, line) && forall j :: 0 <= j <= i ==> now[j] == line[j]
    requires line[i] != '[' && line[i] != ';' && line[i] != '#'
    ensures Indent(now) == Indent(line) && !Introduces(now) && SectionName(TrimSpace(now)).None?
  {
    hide Lead, TrimSpace, Introduces, SectionName;
    OpensWith(now, i);
    var n := Lead(IsBlank, line);
    BlanksFirst(line);
    LeadIs(IsBlank, now, n);
    assert now[..n] == line[..n];
  }

  // ---- spelled values ----

  lemma SpelledSolid(s: string)
    ensures Solid(SpellString(s))
  {
    hide Escaped, ParseInt;
    if !NeedsQuotes(s) {
      TrimmedSolid(s);
    }
  }

  lemma TrimmedSolid(s: string)
    requires TrimSpace(s) == s
    ensures Trimmed(s)
  {
    hide Lead, Trail;
    TrimSpaceHead(s);
    var l := Lead(IsSpace, s);
    var t := TrimLeft(IsSpace, s);
    assert |TrimSpace(s)| <= |t| <= |s|;
  }

  lemma IntSolid(text: string)
    requires ParseInt(text).Some?
    ensures text != [] && Solid(text) && '\n' !in text && '_' !in text && !Quoted(text)
    ensures text != "true" && text != "false"
    ensures !IsSpace(text[|text| - 1])
  {
    var signed := text[0] == '-' || text[0] == '+';
    var digits := if signed then text[1..] else text;
    assert forall i :: 0 <= i < |digits| ==> IsDigit(digits[i]);
    forall i | 0 <= i < |text| ensures IsDigit(text[i]) || (i == 0 && (text[i] == '-' || text[i] == '+')) {
      if signed && i > 0 { assert text[i] == digits[i - 1]; }
      if !signed { assert text[i] == digits[i]; }
    }
    hide ParseInt;
    assert IsDigit(text[|text| - 1]);
  }
}
