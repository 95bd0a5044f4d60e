/** What a correct setting looks like and how a value is judged (internal/doctor/desired.go:
    MinimumAge, BoolSetting, EnumSetting, Advice). Durations are numbers; how a manager
    spells one is the unit's business and a parameter. */
module Desired {
  import opened Text
  import opened Names
  import opened Versions

  datatype Status = StatusSet | StatusWeak | StatusWrong | StatusMissing | StatusUnreadable | StatusNotApplicable | StatusAdvice

  /** The version judged against: exact, or a floor a lockfile implies. */
  datatype Params = Params(cooldown: int, version: string, exact: bool)

  /** A setting. Judge reads a value as text; parse is the unit's. */
  datatype Setting =
    | MinimumAge(parse: string -> Option<int>, wait: int, since: string)
    | BoolSetting(on: bool, usualOn: Option<bool>, since: string)
    | EnumSetting(value: string, accepted: seq<string>, usualText: string, since: string)
    | Advice

  /** The manager's own default may be credited: it has one, and the version in use is
      known to be recent enough. */
  predicate Credited(since: string, p: Params) {
    since == [] || (p.exact && p.version != [] && Compare(p.version, since) >= 0)
  }

  predicate Defaulted(s: Setting, p: Params) {
    match s
    case MinimumAge(_, wait, since) => wait > 0 && Credited(since, p)
    case BoolSetting(_, usual, since) => usual.Some? && Credited(since, p)
    case EnumSetting(_, _, usual, since) => usual != [] && Credited(since, p)
    case Advice => false
  }

  /** Judge. */
  function Judge(s: Setting, found: Option<string>, p: Params): Status {
    match s
    case Advice => StatusAdvice
    case MinimumAge(parse, wait, _) =>
      if found.None? then if Defaulted(s, p) && wait >= p.cooldown then StatusSet else StatusMissing
      else
        (match parse(TrimSpace(found.value))
         case None => StatusWrong
         case Some(have) => if have == 0 || have < p.cooldown then StatusWeak else StatusSet)
    case BoolSetting(on, usual, _) =>
      if found.None? then if Defaulted(s, p) && usual == Some(on) then StatusSet else StatusMissing
      else
        var text := Fold(TrimSpace(found.value));
        if text in ["true", "yes", "1"] then if on then StatusSet else StatusWeak
        else if text in ["false", "no", "0"] then if !on then StatusSet else StatusWeak
        else StatusWrong
    case EnumSetting(value, _, usual, _) =>
      if found.None? then if Defaulted(s, p) && usual == value then StatusSet else StatusMissing
      else if TrimSpace(found.value) == value then StatusSet
      else StatusWrong
  }

  /** A value somebody wrote is never missing, so it is never written over. */
  lemma FoundIsNeverMissing(s: Setting, value: string, p: Params)
    ensures Judge(s, Some(value), p) != StatusMissing
  {
    hide TrimSpace, Fold, Compare;
  }

  /** A default credited to an exact version is credited to every later one: a project is
      not told to write a setting because it upgraded. */
  lemma DefaultsStay(s: Setting, p: Params, later: string)
    requires Judge(s, None, p) == StatusSet && p.exact && p.version != [] && later != []
    requires Compare(later, p.version) >= 0
    ensures Judge(s, None, p.(version := later)) == StatusSet
  {
    hide Compare;
    if !s.Advice? {
      TotalPreorder(later, p.version, s.since);
      TotalPreorder(s.since, p.version, later);
      TotalPreorder(p.version, s.since, later);
      TotalPreorder(later, s.since, later);
    }
  }

  /** A floor credits no default that has a version of its own. */
  lemma FloorCreditsNothing(s: Setting, p: Params)
    requires !p.exact && !s.Advice? && s.since != []
    ensures Judge(s, None, p) == StatusMissing
  {
  }
}
