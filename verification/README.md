# metar-icon rule engine in Dafny

This project models the core of `metar-icon`: the rule combinators that turn a
decoded METAR present-weather observation into a single icon, and the five
present-weather code tables (WMO-No. 306, Manual on Codes, FM 15 METAR, code
table 4678) whose members act as the equality keys.

- `wrappers.dfy` (`Wrappers`): `Option`, standing for both `undefined` (an
  absent axis) and `null` (an unresolved rule), with `GetOr` for `??`.
- `codes.dfy` (`Codes`): the enumerations `Intensity`, `Descriptor`,
  `Precipitation`, `Obscuration` and `Other`, their tokens, and the reverse
  lookup from token to member.
- `metar.dfy` (`Metar`): the observation `Weather`, the rule tree `Rule`, its
  evaluator `Eval`/`FirstMatch`, and the loop of `findFirstMatchingParser`.
- `metar_laws.dfy` (`MetarLaws`): first-match-wins, short-circuiting, the axis
  gates and the `withIcon` default.

A parser of metar-icon is a closure; here it is a node of a closed tree.
`Gate(condition, parsers)` is one of `withIntensity`, `withDescriptor`,
`withPrecipitation`, `withObscuration` and `withOther`. The `Condition`
names the axis and holds the target; `IsMatch` reads that axis, and only
that one, from the observation, as each `withX` combinator does. `WithIcon(icon, parsers)` is `withIcon`.
A target is `One(code)` or `AnyOf(codes)`, which is the TypeScript `T | T[]`
dispatched by `Array.isArray`. Icons are a type parameter and are never
interpreted.

An absent axis is `None` and moderate intensity is `Some(Blank)`. The two
are different values. That is why no gate, not even one on `Blank`, opens on
an observation that does not set its axis.

An axis target array may be empty; such a gate never opens
(`MetarLaws.EmptyTargetNeverMatches`). Every descriptor, precipitation,
obscuration and other token is exactly two upper-case letters; the intensity
tokens are `-`, `+`, the empty string and `VC`.

metar-icon has no function from a token to a member: a `const enum` is erased
at compile time, and a string enumeration has no reverse mapping. The
`*FromToken` functions of `Codes` stand for each enumeration's value set,
that is, which strings are members, and show that the token determines the
member.

## Model

| member | source | states |
|---|---|---|
| Codes.IntensityToken | src/codes.ts:1-6 | an intensity token has at most two characters, and it is empty exactly for moderate intensity (`Blank`) |
| Codes.DescriptorToken | src/codes.ts:8-17 | every descriptor token is exactly two upper-case ASCII letters |
| Codes.PrecipitationToken | src/codes.ts:19-29 | every precipitation token is exactly two upper-case ASCII letters |
| Codes.ObscurationToken | src/codes.ts:31-40 | every obscuration token is exactly two upper-case ASCII letters |
| Codes.OtherToken | src/codes.ts:42-48 | every other-phenomenon token is exactly two upper-case ASCII letters |
| Codes.IntensityFromToken | src/codes.ts:1-6 | a string names the intensity `i` exactly when it is `i`'s token; any other string names no intensity |
| Codes.DescriptorFromToken | src/codes.ts:8-17 | a string names the descriptor `d` exactly when it is `d`'s token; any other string names none |
| Codes.PrecipitationFromToken | src/codes.ts:19-29 | a string names the precipitation `p` exactly when it is `p`'s token; any other string names none |
| Codes.ObscurationFromToken | src/codes.ts:31-40 | a string names the obscuration `o` exactly when it is `o`'s token; any other string names none |
| Codes.OtherFromToken | src/codes.ts:42-48 | a string names the phenomenon `o` exactly when it is `o`'s token; any other string names none |
| Codes.IntensityTable | src/codes.ts:1-6 | Intensity has exactly four members, with tokens `-`, `+`, the empty string and `VC` in that order, and no two members share a token |
| Codes.DescriptorTable | src/codes.ts:8-17 | Descriptor has exactly eight members, and the token function is injective |
| Codes.PrecipitationTable | src/codes.ts:19-29 | Precipitation has exactly nine members, and the token function is injective |
| Codes.ObscurationTable | src/codes.ts:31-40 | Obscuration has exactly eight members, and the token function is injective |
| Codes.OtherTable | src/codes.ts:42-48 | Other has exactly five members, and the token function is injective |
| Codes.OnlyBlankIsEmpty | src/codes.ts:1-48 | `Blank` is the only member of the five enumerations whose token is the empty string |
| Metar.IndexOf | src/metar.ts:48-49 | `indexOf` returns the first position holding the axis value, or -1 exactly when no position holds it; an absent value is never found |
| Metar.Matches | src/metar.ts:48-50 | an axis condition holds exactly when the axis is present and its code is the single target or is in the target array |
| Metar.Eval | src/metar.ts:52-71 | a `withIcon` rule never yields null |
| Metar.FirstMatch | src/metar.ts:30-40 | a non-null result is the result of one of the parsers on the same observation |
| Metar.FindFirstMatchingParser | src/metar.ts:30-40 | the loop returns the first non-null parser result, all parsers before it being null, or null when every parser is null |
| MetarLaws.FirstMatchIsFirstResolving | src/metar.ts:30-40 | the result is null exactly when every parser is null, so always on an empty list; otherwise it is the result of the first parser that is not null |
| MetarLaws.FirstMatchAppend | src/metar.ts:34-37 | on a concatenation the first list decides whenever it resolves, and only otherwise is the second list consulted |
| MetarLaws.LaterParsersIrrelevant | src/metar.ts:34-36 | once a parser among the first `k` resolves, replacing the parsers after position `k` does not change the result |
| MetarLaws.SiblingOrderMatters | src/metar.ts:34-36 | of two siblings that both resolve, the earlier wins, so swapping two that resolve differently changes the result |
| MetarLaws.GateClosed | src/metar.ts:52 | when the axis condition fails, the gate yields null whatever its parsers are |
| MetarLaws.GateOpen | src/metar.ts:52 | when the axis condition holds, the gate yields exactly the first match of its parsers, and null when all of them are null, with no fallback |
| MetarLaws.EmptyTargetNeverMatches | src/metar.ts:48-52 | a gate whose target array is empty never opens and always yields null |
| MetarLaws.AbsentAxisNeverMatches | src/metar.ts:10-16 | a gate on an axis the observation does not set never opens, whatever its target |
| MetarLaws.GateOpensOnAcceptedCode | src/metar.ts:55-68 | each axis combinator opens exactly when its own axis is set to one of its target codes |
| MetarLaws.BlankIsNotAbsent | src/metar.ts:55-56 | a gate on `Blank` stays closed when intensity is absent and opens when intensity is `Blank` |
| MetarLaws.GateReadsOnlyItsAxis | src/metar.ts:55-68 | two observations that agree on a gate's axis open or close that gate alike, however they differ on the other axes |
| MetarLaws.SingleTargetIsSingletonArray | src/metar.ts:48-50 | a single target `t` (strict equality) behaves exactly as the array `[t]` (`indexOf`) |
| MetarLaws.WithIconFallsBack | src/metar.ts:70-71 | `withIcon` never yields null; it yields its icon when every parser is null, including when it has none, and otherwise the first non-null result |
| MetarLaws.DefaultEndsTheList | src/metar.ts:30-40 | a parser list that holds a `withIcon` always resolves, and nothing after that default can change the result |
| MetarLaws.EvalYieldsTreeIcon | src/metar.ts:52-71 | every icon a rule yields is an icon written somewhere in that rule's tree |

## Left out

- `./icons` is not part of this model. An icon is an opaque type parameter, and no icon is enumerated.
- Closure mechanics are not modelled. Variadic `...parsers`, `const enum` inlining and the `Array.isArray` dispatch become the `Rule` tree, `seq` parser lists and the `Target` datatype.
- The `Operator` and `IconOperator` type aliases are not modelled. They only give the combinators their types.
- Parsing raw METAR text into `Weather` is not modelled, because it is not part of the repository. Observations are already-decoded records whose fields are codes or absent.
- Hand-written `Parser` functions are not representable; every parser is built from the six combinators, so the first-match laws and `MetarLaws.EvalYieldsTreeIcon` are proved for such parsers only.
- Determinism gets no lemma. `Eval` is a Dafny function, so equal inputs give equal results by construction.
- The comments on the code tables give meanings and etymologies only. They carry no behaviour.
- MetarLaws.WithIconFallsBack: states "every parser is null, so the result is the icon" in one direction only. A parser may itself resolve to the same icon, so the converse does not hold.
