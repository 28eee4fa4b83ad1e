/** Properties of the rule engine: first-match-wins resolution, what an
    axis gate lets through, and the default of `withIcon`. */
module MetarLaws {
  import opened Wrappers
  import opened Codes
  import opened Metar

  /** The five axes of an observation. `Condition` already tells the axes
      apart; this enumeration exists only to state which field a gate reads
      (`GateReadsOnlyItsAxis`) and whether the observation sets it. */
  datatype Axis = IntensityAxis | DescriptorAxis | PrecipitationAxis | ObscurationAxis | OtherAxis

  function AxisOf(c: Condition): Axis {
    match c
    case OnIntensity(_) => IntensityAxis
    case OnDescriptor(_) => DescriptorAxis
    case OnPrecipitation(_) => PrecipitationAxis
    case OnObscuration(_) => ObscurationAxis
    case OnOther(_) => OtherAxis
  }

  /** Whether the observation sets axis `a`. */
  predicate IsPresent(w: Weather, a: Axis) {
    match a
    case IntensityAxis => w.intensity.Some?
    case DescriptorAxis => w.descriptor.Some?
    case PrecipitationAxis => w.precipitation.Some?
    case ObscurationAxis => w.obscuration.Some?
    case OtherAxis => w.other.Some?
  }

  /** Whether two observations hold the same value (or both nothing) on
      axis `a`; they may differ anywhere else. */
  predicate AgreeOn(w: Weather, w': Weather, a: Axis) {
    match a
    case IntensityAxis => w.intensity == w'.intensity
    case DescriptorAxis => w.descriptor == w'.descriptor
    case PrecipitationAxis => w.precipitation == w'.precipitation
    case ObscurationAxis => w.obscuration == w'.obscuration
    case OtherAxis => w.other == w'.other
  }

  /** Whether the condition's target accepts no code at all. */
  predicate AcceptsNothing(c: Condition) {
    match c
    case OnIntensity(t) => |Accepted(t)| == 0
    case OnDescriptor(t) => |Accepted(t)| == 0
    case OnPrecipitation(t) => |Accepted(t)| == 0
    case OnObscuration(t) => |Accepted(t)| == 0
    case OnOther(t) => |Accepted(t)| == 0
  }

  /** The same condition with a single target `t` written as the array `[t]`. */
  function AsArray(c: Condition): Condition {
    match c
    case OnIntensity(t) => OnIntensity(AnyOf(Accepted(t)))
    case OnDescriptor(t) => OnDescriptor(AnyOf(Accepted(t)))
    case OnPrecipitation(t) => OnPrecipitation(AnyOf(Accepted(t)))
    case OnObscuration(t) => OnObscuration(AnyOf(Accepted(t)))
    case OnOther(t) => OnOther(AnyOf(Accepted(t)))
  }

  /** First match wins: the result is null exactly when every parser is
      null (so always on an empty list), and otherwise it is the result of
      the first parser that is not null. */
  lemma {:induction false} FirstMatchIsFirstResolving<Icon>(w: Weather, ps: seq<Rule<Icon>>)
    ensures FirstMatch(w, ps).None? <==> forall i :: 0 <= i < |ps| ==> Eval(ps[i], w).None?
    ensures FirstMatch(w, ps).Some? ==> exists i :: IsFirstResolving(w, ps, i)
    ensures forall i :: IsFirstResolving(w, ps, i) ==> FirstMatch(w, ps) == Eval(ps[i], w)
    decreases |ps|
  {
    if |ps| > 0 {
      if Eval(ps[0], w).Some? {
        assert IsFirstResolving(w, ps, 0);
        forall i | IsFirstResolving(w, ps, i)
          ensures i == 0
        {
        }
      } else {
        var rest := ps[1..];
        FirstMatchIsFirstResolving(w, rest);
        assert forall i :: 0 <= i < |rest| ==> rest[i] == ps[i + 1];
        if FirstMatch(w, ps).Some? {
          var i :| IsFirstResolving(w, rest, i);
          assert IsFirstResolving(w, ps, i + 1);
        }
        forall i | IsFirstResolving(w, ps, i)
          ensures FirstMatch(w, ps) == Eval(ps[i], w)
        {
          assert i > 0;
          assert IsFirstResolving(w, rest, i - 1);
        }
      }
    }
  }

  /** Evaluating a concatenation: the first list decides whenever it
      resolves, and the second is consulted only when it does not. */
  lemma {:induction false} FirstMatchAppend<Icon>(w: Weather, ps: seq<Rule<Icon>>, qs: seq<Rule<Icon>>)
    ensures FirstMatch(w, ps + qs) == if FirstMatch(w, ps).Some? then FirstMatch(w, ps) else FirstMatch(w, qs)
    decreases |ps|
  {
    if |ps| == 0 {
      assert ps + qs == qs;
    } else {
      assert (ps + qs)[0] == ps[0];
      assert (ps + qs)[1..] == ps[1..] + qs;
      FirstMatchAppend(w, ps[1..], qs);
    }
  }

  /** Short-circuit: once a parser within the first `k` resolves, the
      parsers after position `k` can be anything. */
  lemma LaterParsersIrrelevant<Icon>(w: Weather, ps: seq<Rule<Icon>>, qs: seq<Rule<Icon>>, k: nat)
    requires k <= |ps| && k <= |qs| && ps[..k] == qs[..k]
    requires exists i :: 0 <= i < k && Eval(ps[i], w).Some?
    ensures FirstMatch(w, ps) == FirstMatch(w, qs) == FirstMatch(w, ps[..k])
  {
    var i :| 0 <= i < k && Eval(ps[i], w).Some?;
    assert ps[..k][i] == ps[i];
    FirstMatchIsFirstResolving(w, ps[..k]);
    FirstMatchAppend(w, ps[..k], ps[k..]);
    FirstMatchAppend(w, qs[..k], qs[k..]);
    assert ps[..k] + ps[k..] == ps;
    assert qs[..k] + qs[k..] == qs;
  }

  /** Of two siblings that both resolve, the earlier one wins, so swapping
      two siblings that resolve differently changes the result. */
  lemma SiblingOrderMatters<Icon>(w: Weather, a: Rule<Icon>, b: Rule<Icon>)
    requires Eval(a, w).Some? && Eval(b, w).Some?
    ensures FirstMatch(w, [a, b]) == Eval(a, w)
    ensures FirstMatch(w, [b, a]) == Eval(b, w)
    ensures Eval(a, w) != Eval(b, w) ==> FirstMatch(w, [a, b]) != FirstMatch(w, [b, a])
  {
  }

  /** A gate whose axis does not match yields null, whatever its parsers. */
  lemma GateClosed<Icon>(c: Condition, ps: seq<Rule<Icon>>, w: Weather)
    requires !IsMatch(c, w)
    ensures Eval(Gate(c, ps), w).None?
  {
  }

  /** A gate whose axis matches is exactly the first match of its parsers:
      null when all of them are null, with no fallback of its own. */
  lemma GateOpen<Icon>(c: Condition, ps: seq<Rule<Icon>>, w: Weather)
    requires IsMatch(c, w)
    ensures Eval(Gate(c, ps), w) == FirstMatch(w, ps)
    ensures Eval(Gate(c, ps), w).None? <==> forall i :: 0 <= i < |ps| ==> Eval(ps[i], w).None?
  {
    FirstMatchIsFirstResolving(w, ps);
  }

  /** An empty target array never matches. */
  lemma EmptyTargetNeverMatches<Icon>(c: Condition, ps: seq<Rule<Icon>>, w: Weather)
    requires AcceptsNothing(c)
    ensures !IsMatch(c, w)
    ensures Eval(Gate(c, ps), w).None?
  {
  }

  /** An absent axis matches no target, not even moderate intensity. */
  lemma AbsentAxisNeverMatches<Icon>(c: Condition, ps: seq<Rule<Icon>>, w: Weather)
    requires !IsPresent(w, AxisOf(c))
    ensures !IsMatch(c, w)
    ensures Eval(Gate(c, ps), w).None?
  {
  }

  /** A gate opens exactly when its axis is present and holds one of the
      codes of its target. */
  lemma GateOpensOnAcceptedCode(c: Condition, w: Weather)
    ensures IsMatch(c, w) <==>
      match c
      case OnIntensity(t) => w.intensity.Some? && w.intensity.value in Accepted(t)
      case OnDescriptor(t) => w.descriptor.Some? && w.descriptor.value in Accepted(t)
      case OnPrecipitation(t) => w.precipitation.Some? && w.precipitation.value in Accepted(t)
      case OnObscuration(t) => w.obscuration.Some? && w.obscuration.value in Accepted(t)
      case OnOther(t) => w.other.Some? && w.other.value in Accepted(t)
  {
  }

  /** Moderate intensity is a code like any other: a gate on `Blank`
      opens on an observation whose intensity is `Blank` and stays closed
      on one with no intensity. */
  lemma BlankIsNotAbsent<Icon>(icon: Icon, w: Weather)
    requires w.intensity.None?
    ensures Eval(Gate(OnIntensity(One(Blank)), [WithIcon(icon, [])]), w) == None
    ensures Eval(Gate(OnIntensity(One(Blank)), [WithIcon(icon, [])]), w.(intensity := Some(Blank))) == Some(icon)
  {
  }

  /** Axis locality: a gate reads only its own axis, so changing any other
      axis does not change whether it opens. */
  lemma GateReadsOnlyItsAxis(c: Condition, w: Weather, w': Weather)
    requires AgreeOn(w, w', AxisOf(c))
    ensures IsMatch(c, w) == IsMatch(c, w')
  {
  }

  /** A single target `t` behaves as the array `[t]`: strict equality and
      `indexOf` agree. */
  lemma SingleTargetIsSingletonArray<Icon>(c: Condition, ps: seq<Rule<Icon>>, w: Weather)
    ensures IsMatch(c, w) == IsMatch(AsArray(c), w)
    ensures Eval(Gate(c, ps), w) == Eval(Gate(AsArray(c), ps), w)
  {
  }

  /** `withIcon` never yields null: it yields its own icon when every
      parser is null (in particular when it has none), and otherwise the
      first non-null result. */
  lemma WithIconFallsBack<Icon>(icon: Icon, ps: seq<Rule<Icon>>, w: Weather)
    ensures Eval(WithIcon(icon, ps), w).Some?
    ensures (forall i :: 0 <= i < |ps| ==> Eval(ps[i], w).None?) ==> Eval(WithIcon(icon, ps), w) == Some(icon)
    ensures forall i :: IsFirstResolving(w, ps, i) ==> Eval(WithIcon(icon, ps), w) == Eval(ps[i], w)
  {
    FirstMatchIsFirstResolving(w, ps);
  }

  /** A list of rules holding a `withIcon` somewhere always resolves, and
      no rule after that default is ever consulted: replacing everything
      after it by `qs` changes nothing. */
  lemma DefaultEndsTheList<Icon>(w: Weather, ps: seq<Rule<Icon>>, k: nat, qs: seq<Rule<Icon>>)
    requires k < |ps| && ps[k].WithIcon?
    ensures FirstMatch(w, ps).Some?
    ensures FirstMatch(w, ps[..k + 1] + qs) == FirstMatch(w, ps)
  {
    FirstMatchIsFirstResolving(w, ps);
    assert ps[..k + 1][k] == ps[k];
    assert (ps[..k + 1] + qs)[..k + 1] == ps[..k + 1];
    LaterParsersIrrelevant(w, ps, ps[..k + 1] + qs, k + 1);
  }

  /** The icons written anywhere in a rule tree. */
  ghost function IconsOf<Icon>(r: Rule<Icon>): set<Icon>
    decreases r
  {
    match r
    case Gate(_, ps) => IconsOfAll(ps)
    case WithIcon(icon, ps) => {icon} + IconsOfAll(ps)
  }

  ghost function IconsOfAll<Icon>(ps: seq<Rule<Icon>>): set<Icon>
    decreases ps
  {
    if |ps| == 0 then {} else IconsOf(ps[0]) + IconsOfAll(ps[1..])
  }

  /** The engine does not invent icons: every result is an icon written
      in the rule tree. */
  lemma {:induction false} EvalYieldsTreeIcon<Icon>(r: Rule<Icon>, w: Weather)
    ensures Eval(r, w).Some? ==> Eval(r, w).value in IconsOf(r)
    decreases r
  {
    match r
    case Gate(_, ps) => FirstMatchYieldsTreeIcon(w, ps);
    case WithIcon(_, ps) => FirstMatchYieldsTreeIcon(w, ps);
  }

  lemma {:induction false} FirstMatchYieldsTreeIcon<Icon>(w: Weather, ps: seq<Rule<Icon>>)
    ensures FirstMatch(w, ps).Some? ==> FirstMatch(w, ps).value in IconsOfAll(ps)
    decreases ps
  {
    if |ps| > 0 {
      EvalYieldsTreeIcon(ps[0], w);
      FirstMatchYieldsTreeIcon(w, ps[1..]);
    }
  }
}
