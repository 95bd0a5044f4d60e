/** The scan of a workflow reports exactly the steps the workflow is written with: the lines of
    a block scalar are text, whatever they say (internal/doctor/scan_actions.go: scanUses). */
module BlocksStated {
  import opened Text
  import opened Blocks

  /** A line that uses nothing, a step that uses something, or a block scalar: its header and
      the lines of text under it. */
  datatype Item =
    | Other(text: string)
    | Uses(text: string, before: string, ref: string, after: string)
    | Scalar(head: string, body: seq<string>)

  function HeadOf(item: Item): string {
    match item
    case Other(text) => text
    case Uses(text, _, _, _) => text
    case Scalar(head, _) => head
  }

  function Under(item: Item): seq<string> {
    if item.Scalar? then item.body else []
  }

  function Lines(items: seq<Item>): seq<string> {
    if items == [] then [] else [HeadOf(items[0])] + Under(items[0]) + Lines(items[1..])
  }

  predicate Quotes(s: string) {
    forall i :: 0 <= i < |s| ==> s[i] == '\"' || s[i] == '\''
  }

  /** The line is blank, or indented further. */
  predicate Deeper(line: string, head: string) {
    TrimSpace(line) == "" || |Indent(line)| > |Indent(head)|
  }

  predicate ItemFits(header: string -> bool, uses: string -> Option<string>, item: Item) {
    match item
    case Other(text) =>
      && !header(text)
      && (uses(text).Some? ==> Quotes(uses(text).value) || exists i :: 0 <= i < |uses(text).value| && Quotes(uses(text).value[..i]) && uses(text).value[i] == '#')
    case Uses(text, before, ref, after) =>
      && !header(text) && uses(text) == Some(before + ref + after) && Quotes(before) && Quotes(after)
      && ref != "" && ref[0] !in "\"\'#" && ref[|ref| - 1] !in "\"\'"
    case Scalar(head, body) => header(head) && forall i :: 0 <= i < |body| ==> Deeper(body[i], head)
  }

  /** What stands behind a block scalar is not deeper than its header. */
  predicate AllFit(header: string -> bool, uses: string -> Option<string>, items: seq<Item>) {
    items != [] ==>
      && ItemFits(header, uses, items[0])
      && (items[0].Scalar? && |items| > 1 ==> !Deeper(HeadOf(items[1]), items[0].head))
      && AllFit(header, uses, items[1..])
  }

  /** The steps that are not pinned, each with its line. */
  function Reports(pinned: string -> bool, items: seq<Item>, line: nat): seq<Result> {
    if items == [] then []
    else (if items[0].Uses? && !pinned(items[0].ref) then [Problem(line, items[0].ref)] else [])
         + Reports(pinned, items[1..], line + 1 + |Under(items[0])|)
  }

  function PinnedSteps(pinned: string -> bool, items: seq<Item>): nat {
    if items == [] then 0
    else (if items[0].Uses? && pinned(items[0].ref) then 1 else 0) + PinnedSteps(pinned, items[1..])
  }

  // ---- one reference ----

  lemma RefIs(uses: string -> Option<string>, before: string, ref: string, after: string, text: string)
    requires uses(text) == Some(before + ref + after) && Quotes(before) && Quotes(after)
    requires ref != "" && ref[0] !in "\"\'#" && ref[|ref| - 1] !in "\"\'"
    ensures RefOf(uses, text) == Some(ref)
  {
    hide Lead, Trail;
    var s := before + ref + after;
    assert s[|before|] == ref[0];
    LeadCount(s, |before|);
    var t := s[|before|..];
    assert t == ref + after && t[|ref| - 1] == ref[|ref| - 1];
    forall i | |ref| <= i < |t| ensures IsQuote(t[i]) { assert t[i] == after[i - |ref|]; }
    TrailCount(t, |after|);
    assert t[..|ref|] == ref;
  }

  lemma LeadCount(s: string, n: nat)
    requires n <= |s| && (forall i :: 0 <= i < n ==> IsQuote(s[i])) && (n < |s| ==> !IsQuote(s[n]))
    ensures Lead(IsQuote, s) == n
  {
    hide Lead;
  }

  lemma TrailCount(s: string, n: nat)
    requires n <= |s| && (forall i :: |s| - n <= i < |s| ==> IsQuote(s[i])) && (n < |s| ==> !IsQuote(s[|s| - n - 1]))
    ensures Trail(IsQuote, s) == n
  {
    hide Trail;
  }

  lemma NoRef(header: string -> bool, uses: string -> Option<string>, text: string)
    requires ItemFits(header, uses, Other(text))
    ensures RefOf(uses, text) == None
  {
    hide Lead, Trail;
    if uses(text).Some? {
      var s := uses(text).value;
      if Quotes(s) {
        LeadCount(s, |s|);
        assert s[|s|..] == [];
      } else {
        var i :| 0 <= i < |s| && Quotes(s[..i]) && s[i] == '#';
        forall j | 0 <= j < i ensures IsQuote(s[j]) { assert s[..i][j] == s[j]; }
        LeadCount(s, i);
      }
    }
  }

  // ---- the lines ----

  /** The scan stands at line i of the text, with the items behind it left to read. */
  ghost predicate Before(header: string -> bool, uses: string -> Option<string>, lines: seq<string>, i: nat, items: seq<Item>, block: int) {
    && i <= |lines| && lines[i..] == Lines(items) && AllFit(header, uses, items) && Tracks(header, lines, i, block)
    && (block >= 0 && items != [] ==> TrimSpace(HeadOf(items[0])) != "" && |Indent(HeadOf(items[0]))| <= block)
  }

  lemma {:induction false} BodyIsText(header: string -> bool, lines: seq<string>, i: nat, body: seq<string>, head: string)
    requires i + |body| <= |lines| && lines[i..i + |body|] == body
    requires Tracks(header, lines, i, |Indent(head)|) && forall k :: 0 <= k < |body| ==> Deeper(body[k], head)
    ensures Tracks(header, lines, i + |body|, |Indent(head)|)
    ensures forall k :: i <= k < i + |body| ==> Ignored(header, lines, k)
    decreases |body|
  {
    hide Tracks, Ignored, TrimSpace, Indent;
    if body != [] {
      assert lines[i] == lines[i..i + |body|][0] == body[0];
      RoundTracks(header, lines, i, |Indent(head)|);
      assert lines[i + 1..i + 1 + |body[1..]|] == lines[i..i + |body|][1..];
      BodyIsText(header, lines, i + 1, body[1..], head);
    }
  }

  /** One item: its first line is no text of a block, every line under it is. */
  lemma ItemIsRead(header: string -> bool, uses: string -> Option<string>, lines: seq<string>, i: nat, items: seq<Item>, block: int) returns (next: int)
    requires Before(header, uses, lines, i, items, block) && items != []
    ensures i < |lines| && lines[i] == HeadOf(items[0]) && !Ignored(header, lines, i)
    ensures ItemFits(header, uses, items[0]) && i + 1 + |Under(items[0])| <= |lines|
    ensures forall k :: i < k < i + 1 + |Under(items[0])| ==> Ignored(header, lines, k)
    ensures Before(header, uses, lines, i + 1 + |Under(items[0])|, items[1..], next)
  {
    hide Tracks, Ignored, TrimSpace, Indent;
    var item, body := items[0], Under(items[0]);
    ItemLines(lines, i, items);
    RoundTracks(header, lines, i, block);
    if item.Scalar? {
      next := |Indent(item.head)|;
      assert header(lines[i]);
      BodyIsText(header, lines, i + 1, body, item.head);
    } else {
      next := -1;
    }
  }

  lemma ItemLines(lines: seq<string>, i: nat, items: seq<Item>)
    requires i <= |lines| && items != [] && lines[i..] == Lines(items)
    ensures
      var body := Under(items[0]);
      && i + 1 + |body| <= |lines| && lines[i] == HeadOf(items[0])
      && lines[i + 1..i + 1 + |body|] == body && lines[i + 1 + |body|..] == Lines(items[1..])
  {
    assert Lines(items) == [HeadOf(items[0])] + Under(items[0]) + Lines(items[1..]);
    hide *;
    CutAt(lines, i, HeadOf(items[0]), Under(items[0]), Lines(items[1..]));
  }

  lemma CutAt(lines: seq<string>, i: nat, head: string, body: seq<string>, rest: seq<string>)
    requires i <= |lines| && lines[i..] == [head] + body + rest
    ensures i + 1 + |body| <= |lines| && lines[i] == head
    ensures lines[i + 1..i + 1 + |body|] == body && lines[i + 1 + |body|..] == rest
  {
    var tail := [head] + body + rest;
    assert |tail| == 1 + |body| + |rest| == |lines| - i;
    assert lines[i] == lines[i..][0] == tail[0];
    assert lines[i + 1..i + 1 + |body|] == lines[i..][1..1 + |body|];
    assert lines[i + 1 + |body|..] == lines[i..][1 + |body|..];
    Pieces([head], body, rest);
  }

  lemma StepIs(header: string -> bool, uses: string -> Option<string>, lines: seq<string>, i: nat, item: Item)
    requires i < |lines| && lines[i] == HeadOf(item) && !Ignored(header, lines, i) && ItemFits(header, uses, item)
    ensures Step(header, uses, lines, i) <==> item.Uses?
    ensures item.Uses? ==> RefOf(uses, lines[i]) == Some(item.ref)
  {
    hide Ignored, RefOf, Quotes;
    match item
    case Other(text) => NoRef(header, uses, text);
    case Uses(text, before, ref, after) => RefIs(uses, before, ref, after, text);
    case Scalar(_, _) =>
  }

  lemma {:induction false} IgnoredAddNothing(header: string -> bool, uses: string -> Option<string>, pinned: string -> bool, lines: seq<string>, i: nat, j: nat)
    requires i <= j <= |lines| && forall k :: i <= k < j ==> Ignored(header, lines, k)
    ensures Problems(header, uses, pinned, lines, j) == Problems(header, uses, pinned, lines, i)
    ensures Pinned(header, uses, pinned, lines, j) == Pinned(header, uses, pinned, lines, i)
    decreases j
  {
    hide Ignored, RefOf;
    if i < j {
      IgnoredAddNothing(header, uses, pinned, lines, i, j - 1);
    }
  }

  lemma OneLineMore(header: string -> bool, uses: string -> Option<string>, pinned: string -> bool, lines: seq<string>, i: nat, item: Item)
    requires i < |lines| && (Step(header, uses, lines, i) <==> item.Uses?) && (item.Uses? ==> RefOf(uses, lines[i]) == Some(item.ref))
    ensures Problems(header, uses, pinned, lines, i + 1) ==
            Problems(header, uses, pinned, lines, i) + if item.Uses? && !pinned(item.ref) then [Problem(i + 1, item.ref)] else []
    ensures Pinned(header, uses, pinned, lines, i + 1) == Pinned(header, uses, pinned, lines, i) + if item.Uses? && pinned(item.ref) then 1 else 0
  {
    hide Step, RefOf;
  }

  lemma {:induction false} RestIsReported(header: string -> bool, uses: string -> Option<string>, pinned: string -> bool, lines: seq<string>, i: nat, items: seq<Item>, block: int)
    requires Before(header, uses, lines, i, items, block)
    ensures Problems(header, uses, pinned, lines, |lines|) == Problems(header, uses, pinned, lines, i) + Reports(pinned, items, i + 1)
    ensures Pinned(header, uses, pinned, lines, |lines|) == Pinned(header, uses, pinned, lines, i) + PinnedSteps(pinned, items)
    decreases |items|
  {
    hide *;
    if items == [] {
      AtTheEnd(header, uses, lines, i, block);
      NoReports(pinned, i + 1);
    } else {
      var next := ItemIsRead(header, uses, lines, i, items, block);
      var item, j := items[0], i + 1 + |Under(items[0])|;
      StepIs(header, uses, lines, i, item);
      OneLineMore(header, uses, pinned, lines, i, item);
      IgnoredAddNothing(header, uses, pinned, lines, i + 1, j);
      RestIsReported(header, uses, pinned, lines, j, items[1..], next);
      ReportsFirst(pinned, items, i + 1);
      Grouped(Problems(header, uses, pinned, lines, i), if item.Uses? && !pinned(item.ref) then [Problem(i + 1, item.ref)] else [], Reports(pinned, items[1..], j + 1));
    }
  }

  lemma NoReports(pinned: string -> bool, line: nat)
    ensures Reports(pinned, [], line) == [] && PinnedSteps(pinned, []) == 0
  {
  }

  lemma ReportsFirst(pinned: string -> bool, items: seq<Item>, line: nat)
    requires items != []
    ensures Reports(pinned, items, line) ==
            (if items[0].Uses? && !pinned(items[0].ref) then [Problem(line, items[0].ref)] else [])
            + Reports(pinned, items[1..], line + 1 + |Under(items[0])|)
    ensures PinnedSteps(pinned, items) == (if items[0].Uses? && pinned(items[0].ref) then 1 else 0) + PinnedSteps(pinned, items[1..])
  {
  }

  lemma AtTheEnd(header: string -> bool, uses: string -> Option<string>, lines: seq<string>, i: nat, block: int)
    requires Before(header, uses, lines, i, [], block)
    ensures i == |lines|
  {
  }

  /** Of every workflow the scan reports the steps that are not pinned, each on its line and in
      order, and counts the pinned ones; nothing a block scalar says is among them. */
  lemma StepsAreReported(header: string -> bool, uses: string -> Option<string>, pinned: string -> bool, items: seq<Item>)
    requires AllFit(header, uses, items)
    ensures
      var lines := Lines(items);
      && Problems(header, uses, pinned, lines, |lines|) == Reports(pinned, items, 1)
      && Pinned(header, uses, pinned, lines, |lines|) == PinnedSteps(pinned, items)
  {
    var lines := Lines(items);
    StartTracks(header, lines);
    assert lines[0..] == lines;
    hide Tracks, AllFit, Lines;
    RestIsReported(header, uses, pinned, lines, 0, items, -1);
    NothingYet(header, uses, pinned, lines);
  }

  lemma NothingYet(header: string -> bool, uses: string -> Option<string>, pinned: string -> bool, lines: seq<string>)
    ensures Problems(header, uses, pinned, lines, 0) == [] && Pinned(header, uses, pinned, lines, 0) == 0
  {
  }
}
