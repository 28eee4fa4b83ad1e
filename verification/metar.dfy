/** The rule-combinator engine that maps a decoded present-weather
    observation to one icon.

    A rule of metar-icon is a closure built by one of six combinators; here
    it is a node of a closed tree. `Gate` is one of the five axis
    combinators (`withIntensity`, `withDescriptor`, `withPrecipitation`,
    `withObscuration`, `withOther`), told apart by its `Condition`;
    `WithIcon` is the defaulting combinator `withIcon`. Icons are not
    interpreted, so `Icon` is a type parameter.
 */
module Metar {
  import opened Wrappers
  import opened Codes

  /** A decoded present-weather observation: five independent axes, each
      either absent or a member of its code table. */
  datatype Weather = Weather(
    intensity: Option<Intensity>,
    descriptor: Option<Descriptor>,
    precipitation: Option<Precipitation>,
    obscuration: Option<Obscuration>,
    other: Option<Other>)

  /** The target of an axis combinator: one code, or an array of codes. */
  datatype Target<T> = One(code: T) | AnyOf(codes: seq<T>)

  /** The codes a target accepts. */
  function Accepted<T>(t: Target<T>): seq<T> {
    match t
    case One(c) => [c]
    case AnyOf(cs) => cs
  }

  /** `Array.prototype.indexOf` applied to an axis value that may be
      absent: the first position of `s` strictly equal to `x`, or -1.
      The array holds only codes, so an absent value is never found. */
  function IndexOf<T(==)>(s: seq<T>, x: Option<T>): (r: int)
    ensures -1 <= r < |s|
    ensures r >= 0 ==> x == Some(s[r]) && forall j :: 0 <= j < r ==> x != Some(s[j])
    ensures r == -1 <==> forall j :: 0 <= j < |s| ==> x != Some(s[j])
  {
    if |s| == 0 then -1
    else if x == Some(s[0]) then 0
    else
      var k := IndexOf(s[1..], x);
      if k < 0 then -1 else k + 1
  }

  /** Whether the axis value `current` satisfies `target`: membership
      through `indexOf` for an array, strict equality for a single code.
      Either way, the axis must be present and its code accepted. */
  function Matches<T(==)>(current: Option<T>, target: Target<T>): (b: bool)
    ensures b <==> current.Some? && current.value in Accepted(target)
  {
    match target
    case AnyOf(cs) => IndexOf(cs, current) >= 0
    case One(c) => current == Some(c)
  }

  /** The axis a combinator gates on, with its target. */
  datatype Condition =
    | OnIntensity(intensities: Target<Intensity>)
    | OnDescriptor(descriptors: Target<Descriptor>)
    | OnPrecipitation(precipitations: Target<Precipitation>)
    | OnObscuration(obscurations: Target<Obscuration>)
    | OnOther(others: Target<Other>)

  /** Each combinator reads its own axis of the observation and nothing
      else. */
  predicate IsMatch(c: Condition, w: Weather) {
    match c
    case OnIntensity(t) => Matches(w.intensity, t)
    case OnDescriptor(t) => Matches(w.descriptor, t)
    case OnPrecipitation(t) => Matches(w.precipitation, t)
    case OnObscuration(t) => Matches(w.obscuration, t)
    case OnOther(t) => Matches(w.other, t)
  }

  /** A rule: an axis gate over sub-rules, or a default icon over
      sub-rules. */
  datatype Rule<Icon> =
    | Gate(condition: Condition, parsers: seq<Rule<Icon>>)
    | WithIcon(icon: Icon, parsers: seq<Rule<Icon>>)

  /** The result of applying a rule to an observation; `None` is the
      TypeScript `null`. */
  function Eval<Icon>(r: Rule<Icon>, w: Weather): (result: Option<Icon>)
    ensures r.WithIcon? ==> result.Some?
    decreases r
  {
    match r
    case Gate(c, ps) => if IsMatch(c, w) then FirstMatch(w, ps) else None
    case WithIcon(icon, ps) => Some(FirstMatch(w, ps).GetOr(icon))
  }

  /** The first non-null result of `ps` on `w`, trying them in order. */
  function FirstMatch<Icon>(w: Weather, ps: seq<Rule<Icon>>): (result: Option<Icon>)
    ensures result.Some? ==> exists i :: 0 <= i < |ps| && Eval(ps[i], w) == result
    decreases ps
  {
    if |ps| == 0 then None
    else
      match Eval(ps[0], w)
      case Some(icon) => Some(icon)
      case None => FirstMatch(w, ps[1..])
  }

  /** A first non-null result at position `i`: the rule there resolves and
      every rule before it is null. */
  ghost predicate IsFirstResolving<Icon>(w: Weather, ps: seq<Rule<Icon>>, i: int) {
    && 0 <= i < |ps|
    && Eval(ps[i], w).Some?
    && forall j :: 0 <= j < i ==> Eval(ps[j], w).None?
  }

  /** The loop of `findFirstMatchingParser`: apply the parsers in order and
      return the first result that is not null. */
  method FindFirstMatchingParser<Icon>(w: Weather, ps: seq<Rule<Icon>>) returns (result: Option<Icon>)
    ensures result == FirstMatch(w, ps)
    ensures result.Some? ==> exists i :: IsFirstResolving(w, ps, i) && result == Eval(ps[i], w)
    ensures result.None? ==> forall i :: 0 <= i < |ps| ==> Eval(ps[i], w).None?
  {
    for k := 0 to |ps|
      invariant FirstMatch(w, ps[k..]) == FirstMatch(w, ps)
      invariant forall j :: 0 <= j < k ==> Eval(ps[j], w).None?
    {
      var r := Eval(ps[k], w);
      if r.Some? {
        assert IsFirstResolving(w, ps, k);
        return r;
      }
      assert ps[k..][1..] == ps[k + 1..];
    }
    return None;
  }
}
