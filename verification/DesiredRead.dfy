/** How a setting is judged, value by value (internal/doctor/desired.go: the Judge of
    MinimumAge, BoolSetting and EnumSetting). */
module DesiredRead {
  import opened Text
  import opened Names
  import opened Versions
  import opened Desired
  import IniLines

  /** The text reads as one of the words, whatever case it is in and whatever space is
      around it. */
  ghost predicate Reads(text: string, words: set<string>) {
    exists pre, core, post, w :: text == pre + core + post && IniLines.Spaces(pre) && IniLines.Spaces(post) && w in words && EqualFold(core, w)
  }

  lemma TrimmedCore(text: string) returns (pre: string, post: string)
    ensures text == pre + TrimSpace(text) + post && IniLines.Spaces(pre) && IniLines.Spaces(post)
  {
    hide Lead, Trail;
    var n := Lead(IsSpace, text);
    var t := text[n..];
    var m := |t| - Trail(IsSpace, t);
    pre, post := text[..n], t[m..];
    assert TrimSpace(text) == t[..m];
    assert t == t[..m] + t[m..] && text == text[..n] + t;
    assert forall i :: 0 <= i < |post| ==> post[i] == t[m + i];
  }

  predicate Solid(w: string) {
    w != [] && forall c :: c in w ==> !IsSpace(c) && Lower(c) == c
  }

  lemma FoldSolid(core: string, w: string)
    requires Solid(w) && EqualFold(core, w)
    ensures core != [] && Trimmed(core) && Fold(core) == w
  {
    assert |Fold(core)| == |core| && |Fold(w)| == |w|;
    assert forall i :: 0 <= i < |w| ==> Fold(w)[i] == Lower(w[i]) && w[i] in w;
    assert Fold(w) == w;
    assert forall i :: 0 <= i < |core| ==> Fold(core)[i] == Lower(core[i]);
    assert w[0] in w && w[|w| - 1] in w;
    SpaceStays(core[0]);
    SpaceStays(core[|core| - 1]);
  }

  lemma SpaceStays(c: char)
    ensures IsSpace(c) ==> Lower(c) == c
  {
  }

  lemma ReadsMeans(text: string, words: set<string>)
    requires forall w :: w in words ==> Solid(w)
    ensures Reads(text, words) <==> Fold(TrimSpace(text)) in words
  {
    hide Fold;
    if Reads(text, words) {
      var pre, core, post, w :| text == pre + core + post && IniLines.Spaces(pre) && IniLines.Spaces(post) && w in words && EqualFold(core, w);
      FoldSolid(core, w);
      hide TrimSpace, Trimmed;
      IniLines.TrimSpaceOf(pre, core, post);
    }
    if Fold(TrimSpace(text)) in words {
      var pre, post := TrimmedCore(text);
      var core := TrimSpace(text);
      FoldTwice(core);
      assert EqualFold(core, Fold(core));
    }
  }

  lemma FoldTwice(s: string)
    ensures Fold(Fold(s)) == Fold(s)
  {
    assert |Fold(Fold(s))| == |Fold(s)|;
    forall i | 0 <= i < |s| ensures Fold(Fold(s))[i] == Fold(s)[i] {
      assert Fold(s)[i] == Lower(s[i]) && Fold(Fold(s))[i] == Lower(Lower(s[i]));
    }
  }

  const YES: set<string> := {"true", "yes", "1"}
  const NO: set<string> := {"false", "no", "0"}

  lemma WordsAreSolid()
    ensures forall w :: w in YES || w in NO ==> Solid(w)
  {
    forall w | w in YES || w in NO ensures Solid(w) {
      assert w == "true" || w == "yes" || w == "1" || w == "false" || w == "no" || w == "0";
    }
  }

  /** A boolean somebody wrote: right when it says what the rule asks for, weak when it says
      the opposite, and wrong when it says neither. */
  lemma JudgesBool(on: bool, usual: Option<bool>, since: string, text: string, p: Params)
    ensures
      var s := Judge(BoolSetting(on, usual, since), Some(text), p);
      && (s == StatusSet <==> Reads(text, if on then YES else NO))
      && (s == StatusWeak <==> Reads(text, if on then NO else YES))
      && (s == StatusWrong <==> !Reads(text, YES) && !Reads(text, NO))
  {
    WordsAreSolid();
    hide Solid, Fold, TrimSpace;
    ReadsMeans(text, YES);
    ReadsMeans(text, NO);
    hide Reads;
  }

  /** A value of a fixed set: right when it is the one asked for, whatever space is around
      it, and wrong in every other case. */
  lemma JudgesEnum(value: string, accepted: seq<string>, usual: string, since: string, text: string, p: Params)
    requires Trimmed(value) && value != ""
    ensures
      var s := Judge(EnumSetting(value, accepted, usual, since), Some(text), p);
      && (s == StatusSet <==> exists pre, post :: text == pre + value + post && IniLines.Spaces(pre) && IniLines.Spaces(post))
      && (s == StatusSet || s == StatusWrong)
  {
    hide TrimSpace, Trimmed;
    var pre, post := TrimmedCore(text);
    if pre, post :| text == pre + value + post && IniLines.Spaces(pre) && IniLines.Spaces(post) {
      IniLines.TrimSpaceOf(pre, value, post);
    }
  }

  /** A wait: wrong when it is no duration in the manager's unit, weak when it turns the wait
      off or is shorter than the policy asks for, and right from there on. */
  lemma JudgesWait(parse: string -> Option<int>, usual: int, since: string, pre: string, text: string, post: string, p: Params)
    requires Trimmed(text) && IniLines.Spaces(pre) && IniLines.Spaces(post)
    ensures
      var s := Judge(MinimumAge(parse, usual, since), Some(pre + text + post), p);
      && (s == StatusWrong <==> parse(text).None?)
      && (s == StatusSet <==> parse(text).Some? && parse(text).value != 0 && parse(text).value >= p.cooldown)
      && (s == StatusWeak <==> parse(text).Some? && (parse(text).value == 0 || parse(text).value < p.cooldown))
  {
    if text == "" {
      OnlySpace(pre + text + post);
    } else {
      hide TrimSpace, Trimmed;
      IniLines.TrimSpaceOf(pre, text, post);
    }
  }

  lemma OnlySpace(s: string)
    requires IniLines.Spaces(s)
    ensures TrimSpace(s) == ""
  {
    SpaceWithin(s);
    TrimTrimmed(s);
    hide TrimSpace;
  }

  lemma SpaceWithin(s: string)
    requires IniLines.Spaces(s)
    ensures IniLines.Spaces(TrimSpace(s))
  {
    var pre, post := TrimmedCore(s);
    hide TrimSpace;
    var core := TrimSpace(s);
    assert forall i :: 0 <= i < |core| ==> s[|pre| + i] == core[i];
  }

  /** The manager's own default may be counted on: it always had it, or the version in use is
      known and not older than the default. */
  predicate Known(since: string, p: Params) {
    since != "" ==> p.exact && p.version != "" && Compare(p.version, since) >= 0
  }

  /** A setting nobody wrote is missing exactly when no default that may be counted on is
      what the rule asks for; advice is never missing. */
  lemma MissingExactly(s: Setting, p: Params)
    ensures
      Judge(s, None, p) == StatusMissing <==>
      match s
      case MinimumAge(_, usual, since) => !(usual > 0 && usual >= p.cooldown && Known(since, p))
      case BoolSetting(on, usual, since) => !(usual == Some(on) && Known(since, p))
      case EnumSetting(value, _, usual, since) => !(usual != "" && usual == value && Known(since, p))
      case Advice => false
    ensures Judge(s, None, p) == if s.Advice? then StatusAdvice else if Judge(s, None, p) == StatusMissing then StatusMissing else StatusSet
  {
    hide Compare;
  }
}
