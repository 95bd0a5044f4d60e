/** The scan of a workflow for its uses: lines (scanUses in
    internal/doctor/scan_actions.go). The regular expressions and the judgment of one
    reference are parameters: header says a line opens a block scalar, uses gives the
    value after "uses:", pinned says a reference needs no report. */
module Blocks {
  import opened Text

  /** One line of the scorecard: a reference to fix, or one line for all that are pinned. */
  datatype Result = Problem(line: nat, ref: string) | AllPinned(count: nat)

  predicate Blank(line: string) {
    TrimSpace(line) == []
  }

  /** Text of a block scalar whose header is indented by so much. */
  predicate Inside(line: string, indent: nat) {
    Blank(line) || |Indent(line)| > indent
  }

  /** A header that is itself no text of a block, with nothing but that block's text from
      it down to line i. */
  predicate Open(header: string -> bool, lines: seq<string>, h: nat, i: nat)
    requires h < i <= |lines|
    decreases h, 1
  {
    && header(lines[h]) && !Ignored(header, lines, h)
    && forall k :: h < k < i ==> Inside(lines[k], |Indent(lines[h])|)
  }

  /** A line of a block scalar. */
  predicate Ignored(header: string -> bool, lines: seq<string>, i: nat)
    requires i < |lines|
    decreases i, 0
  {
    exists h :: 0 <= h < i && Open(header, lines, h, i) && Inside(lines[i], |Indent(lines[h])|)
  }

  lemma OpenIgnores(header: string -> bool, lines: seq<string>, g: nat, h: nat, i: nat)
    requires g < h < i <= |lines| && Open(header, lines, g, i)
    ensures Ignored(header, lines, h)
  {
    assert Open(header, lines, g, h);
  }

  /** At most one block is open at a line. */
  lemma OneOpen(header: string -> bool, lines: seq<string>, g: nat, h: nat, i: nat)
    requires g < i <= |lines| && h < i && Open(header, lines, g, i) && Open(header, lines, h, i)
    ensures g == h
  {
    if g < h { OpenIgnores(header, lines, g, h, i); }
    if h < g { OpenIgnores(header, lines, h, g, i); }
  }

  /** What the loop remembers: the indentation of the open block's header, or -1. */
  ghost predicate Tracks(header: string -> bool, lines: seq<string>, i: nat, block: int)
    requires i <= |lines|
  {
    && -1 <= block
    && (block == -1 ==> forall h :: 0 <= h < i ==> !Open(header, lines, h, i))
    && (block >= 0 ==> exists h :: 0 <= h < i && Open(header, lines, h, i) && |Indent(lines[h])| == block)
  }

  /** The reference a line uses, when it uses one. */
  function RefOf(uses: string -> Option<string>, line: string): Option<string> {
    match uses(line)
    case None => None
    case Some(value) =>
      var ref := TrimQuotes(value);
      if ref == [] || ref[0] == '#' then None else Some(ref)
  }

  predicate IsQuote(c: char) {
    c == '\"' || c == '\''
  }

  /** strings.Trim(s, both quotes). */
  function TrimQuotes(s: string): string {
    TrimRight(IsQuote, TrimLeft(IsQuote, s))
  }

  /** A step: a line outside every block that opens none and uses something. */
  predicate Step(header: string -> bool, uses: string -> Option<string>, lines: seq<string>, i: nat)
    requires i < |lines|
  {
    !Ignored(header, lines, i) && !header(lines[i]) && RefOf(uses, lines[i]).Some?
  }

  /** The steps of the first n lines that are not pinned, in order. */
  function Problems(header: string -> bool, uses: string -> Option<string>, pinned: string -> bool, lines: seq<string>, n: nat): seq<Result>
    requires n <= |lines|
  {
    if n == 0 then []
    else
      var rest := Problems(header, uses, pinned, lines, n - 1);
      if Step(header, uses, lines, n - 1) && !pinned(RefOf(uses, lines[n - 1]).value)
      then rest + [Problem(n, RefOf(uses, lines[n - 1]).value)]
      else rest
  }

  function Pinned(header: string -> bool, uses: string -> Option<string>, pinned: string -> bool, lines: seq<string>, n: nat): nat
    requires n <= |lines|
  {
    if n == 0 then 0
    else
      Pinned(header, uses, pinned, lines, n - 1) +
      if Step(header, uses, lines, n - 1) && pinned(RefOf(uses, lines[n - 1]).value) then 1 else 0
  }

  /** One round of the loop keeps track of the block, and skips exactly the lines of one. */
  lemma RoundTracks(header: string -> bool, lines: seq<string>, i: nat, block: int)
    requires i < |lines| && Tracks(header, lines, i, block)
    ensures
      var skips := block >= 0 && (Blank(lines[i]) || |Indent(lines[i])| > block);
      && skips == Ignored(header, lines, i)
      && (skips ==> Tracks(header, lines, i + 1, block))
      && (!skips && header(lines[i]) ==> Tracks(header, lines, i + 1, |Indent(lines[i])|))
      && (!skips && !header(lines[i]) ==> Tracks(header, lines, i + 1, -1))
  {
    hide Blank, Indent;
    if block >= 0 {
      var h :| 0 <= h < i && Open(header, lines, h, i) && |Indent(lines[h])| == block;
      forall g | 0 <= g < i && Open(header, lines, g, i) ensures g == h { OneOpen(header, lines, g, h, i); }
      RoundOpen(header, lines, h, i);
    }
    RoundNew(header, lines, i);
  }

  lemma RoundOpen(header: string -> bool, lines: seq<string>, h: nat, i: nat)
    requires h < i < |lines| && Open(header, lines, h, i)
    ensures Open(header, lines, h, i + 1) <==> Inside(lines[i], |Indent(lines[h])|)
    ensures Inside(lines[i], |Indent(lines[h])|) ==> Ignored(header, lines, i)
  {
  }

  lemma RoundNew(header: string -> bool, lines: seq<string>, i: nat)
    requires i < |lines|
    ensures Open(header, lines, i, i + 1) <==> header(lines[i]) && !Ignored(header, lines, i)
    ensures forall h :: 0 <= h < i && Open(header, lines, h, i + 1) ==> Open(header, lines, h, i)
  {
  }

  /** scanUses. */
  method ScanUses(header: string -> bool, uses: string -> Option<string>, pinned: string -> bool, lines: seq<string>)
    returns (results: seq<Result>)
    ensures
      var problems, count := Problems(header, uses, pinned, lines, |lines|), Pinned(header, uses, pinned, lines, |lines|);
      results == if problems != [] then problems else if count > 0 then [AllPinned(count)] else []
  {
    hide Ignored, Open, RefOf, Blank, Indent;
    var problems: seq<Result> := [];
    var count := 0;
    var block := -1;
    StartTracks(header, lines);
    for i := 0 to |lines|
      invariant Tracks(header, lines, i, block)
      invariant problems == Problems(header, uses, pinned, lines, i)
      invariant count == Pinned(header, uses, pinned, lines, i)
    {
      var line := lines[i];
      RoundTracks(header, lines, i, block);
      if block >= 0 && Blank(line) {
        continue;
      } else if block >= 0 && |Indent(line)| > block {
        continue;
      } else if block >= 0 {
        block := -1;
      }
      if header(line) {
        block := |Indent(line)|;
        continue;
      }
      var ref := RefOf(uses, line);
      if ref.None? {
        continue;
      }
      if pinned(ref.value) {
        count := count + 1;
        continue;
      }
      problems := problems + [Problem(i + 1, ref.value)];
    }
    results := if |problems| > 0 then problems else if count > 0 then [AllPinned(count)] else [];
  }

  lemma StartTracks(header: string -> bool, lines: seq<string>)
    ensures Tracks(header, lines, 0, -1)
  {
  }

  /** The step on a line has to be reported. */
  predicate Reported(header: string -> bool, uses: string -> Option<string>, pinned: string -> bool, lines: seq<string>, i: nat)
    requires i < |lines|
  {
    Step(header, uses, lines, i) && !pinned(RefOf(uses, lines[i]).value)
  }

  lemma ProblemsStep(header: string -> bool, uses: string -> Option<string>, pinned: string -> bool, lines: seq<string>, n: nat)
    requires n < |lines|
    ensures
      var rest, ps := Problems(header, uses, pinned, lines, n), Problems(header, uses, pinned, lines, n + 1);
      if Reported(header, uses, pinned, lines, n) then
        RefOf(uses, lines[n]).Some? && ps == rest + [Problem(n + 1, RefOf(uses, lines[n]).value)]
      else ps == rest
  {
    hide Ignored, RefOf;
  }

  /** Problems in the order of their lines, each with the reference of its line. */
  predicate Listed(uses: string -> Option<string>, lines: seq<string>, ps: seq<Result>, n: nat)
    requires n <= |lines|
  {
    && (forall j :: 0 <= j < |ps| ==> ps[j].Problem? && 1 <= ps[j].line <= n && Some(ps[j].ref) == RefOf(uses, lines[ps[j].line - 1]))
    && (forall j, k :: 0 <= j < k < |ps| ==> ps[j].line < ps[k].line)
  }

  lemma ListedMore(uses: string -> Option<string>, lines: seq<string>, ps: seq<Result>, n: nat)
    requires n < |lines| && Listed(uses, lines, ps, n)
    ensures Listed(uses, lines, ps, n + 1)
    ensures RefOf(uses, lines[n]).Some? ==> Listed(uses, lines, ps + [Problem(n + 1, RefOf(uses, lines[n]).value)], n + 1)
  {
    hide RefOf;
  }

  lemma {:induction false} ProblemsInOrder(header: string -> bool, uses: string -> Option<string>, pinned: string -> bool, lines: seq<string>, n: nat)
    requires n <= |lines|
    ensures Listed(uses, lines, Problems(header, uses, pinned, lines, n), n)
  {
    hide Reported, RefOf, Step;
    if n > 0 {
      ProblemsStep(header, uses, pinned, lines, n - 1);
      ProblemsInOrder(header, uses, pinned, lines, n - 1);
      ListedMore(uses, lines, Problems(header, uses, pinned, lines, n - 1), n - 1);
      hide Listed, Problems;
    }
  }

  predicate Has(ps: seq<Result>, line: nat) {
    exists j :: 0 <= j < |ps| && ps[j].Problem? && ps[j].line == line
  }

  lemma HasMore(ps: seq<Result>, p: Result, line: nat)
    ensures Has(ps + [p], line) <==> Has(ps, line) || (p.Problem? && p.line == line)
  {
    var more := ps + [p];
    assert more[|ps|] == p;
    if Has(ps, line) {
      var j :| 0 <= j < |ps| && ps[j].Problem? && ps[j].line == line;
      assert more[j] == ps[j];
    }
  }

  /** A line has a problem reported exactly when it is a step that is not pinned. */
  lemma {:induction false} ProblemsAre(header: string -> bool, uses: string -> Option<string>, pinned: string -> bool, lines: seq<string>, n: nat, i: nat)
    requires i < |lines| && n <= |lines|
    ensures Has(Problems(header, uses, pinned, lines, n), i + 1) <==> i < n && Reported(header, uses, pinned, lines, i)
  {
    hide Reported, RefOf, Problems, Has;
    if n == 0 {
      NoProblems(header, uses, pinned, lines, i + 1);
    } else {
      ProblemsAre(header, uses, pinned, lines, n - 1, i);
      ProblemsStep(header, uses, pinned, lines, n - 1);
      if Reported(header, uses, pinned, lines, n - 1) {
        HasMore(Problems(header, uses, pinned, lines, n - 1), Problem(n, RefOf(uses, lines[n - 1]).value), i + 1);
      }
    }
  }

  lemma NoProblems(header: string -> bool, uses: string -> Option<string>, pinned: string -> bool, lines: seq<string>, line: nat)
    ensures !Has(Problems(header, uses, pinned, lines, 0), line)
  {
  }
}
