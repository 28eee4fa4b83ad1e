/** The five present-weather code tables of a METAR report (WMO-No. 306,
    Manual on Codes, FM 15 METAR, code table 4678): one closed enumeration
    per axis of an observation, each member carrying the textual token that
    the report uses for it.

    In metar-icon every member IS its token (a string-valued enumeration),
    so equality of members is equality of tokens; the lemmas here show that
    comparing members, as the rest of the model does, is the same thing.
 */
module Codes {
  import opened Wrappers

  /** Intensity or proximity qualifier. `Blank` is moderate intensity,
      written as no token at all. */
  datatype Intensity = Minus | Plus | Blank | VC

  /** Descriptor of the phenomenon. */
  datatype Descriptor = MI | PR | BC | DR | BL | SH | TS | FZ

  /** Precipitation type. */
  datatype Precipitation = RA | DZ | SN | SG | IC | PL | GR | GS | UP

  /** Obscuration type. */
  datatype Obscuration = FG | VA | BR | HZ | DU | FU | SA | PY

  /** Other phenomena. */
  datatype Other = SQ | PO | DS | SS | FC

  /** Every member of each enumeration, in declaration order. */
  const Intensities: seq<Intensity> := [Minus, Plus, Blank, VC]
  const Descriptors: seq<Descriptor> := [MI, PR, BC, DR, BL, SH, TS, FZ]
  const Precipitations: seq<Precipitation> := [RA, DZ, SN, SG, IC, PL, GR, GS, UP]
  const Obscurations: seq<Obscuration> := [FG, VA, BR, HZ, DU, FU, SA, PY]
  const Others: seq<Other> := [SQ, PO, DS, SS, FC]

  predicate IsUpper(c: char) {
    'A' <= c <= 'Z'
  }

  /** A token of exactly two upper-case ASCII letters. */
  predicate IsLetterPair(s: string) {
    |s| == 2 && IsUpper(s[0]) && IsUpper(s[1])
  }

  /** No two positions of `s` hold the same element. */
  predicate Distinct<T(==)>(s: seq<T>) {
    forall i, j :: 0 <= i < j < |s| ==> s[i] != s[j]
  }

  function IntensityToken(i: Intensity): (s: string)
    ensures |s| <= 2
    ensures s == "" <==> i == Blank
  {
    match i
    case Minus => "-"
    case Plus => "+"
    case Blank => ""
    case VC => "VC"
  }

  function DescriptorToken(d: Descriptor): (s: string)
    ensures IsLetterPair(s)
  {
    match d
    case MI => "MI"
    case PR => "PR"
    case BC => "BC"
    case DR => "DR"
    case BL => "BL"
    case SH => "SH"
    case TS => "TS"
    case FZ => "FZ"
  }

  function PrecipitationToken(p: Precipitation): (s: string)
    ensures IsLetterPair(s)
  {
    match p
    case RA => "RA"
    case DZ => "DZ"
    case SN => "SN"
    case SG => "SG"
    case IC => "IC"
    case PL => "PL"
    case GR => "GR"
    case GS => "GS"
    case UP => "UP"
  }

  function ObscurationToken(o: Obscuration): (s: string)
    ensures IsLetterPair(s)
  {
    match o
    case FG => "FG"
    case VA => "VA"
    case BR => "BR"
    case HZ => "HZ"
    case DU => "DU"
    case FU => "FU"
    case SA => "SA"
    case PY => "PY"
  }

  function OtherToken(o: Other): (s: string)
    ensures IsLetterPair(s)
  {
    match o
    case SQ => "SQ"
    case PO => "PO"
    case DS => "DS"
    case SS => "SS"
    case FC => "FC"
  }

  /** A member of `members` whose token is `s`, if any. */
  function Lookup<T>(members: seq<T>, token: T -> string, s: string): (r: Option<T>)
    ensures r.Some? ==> r.value in members && token(r.value) == s
    ensures r.None? ==> forall k :: 0 <= k < |members| ==> token(members[k]) != s
  {
    if |members| == 0 then None
    else if token(members[0]) == s then Some(members[0])
    else Lookup(members[1..], token, s)
  }

  /** Over a list naming every member of an enumeration whose tokens are
      pairwise different, `Lookup` inverts the token function. */
  lemma LookupInverts<T>(members: seq<T>, token: T -> string, s: string)
    requires forall x :: x in members
    requires forall a, b :: token(a) == token(b) ==> a == b
    ensures forall x :: Lookup(members, token, s) == Some(x) <==> token(x) == s
  {
    var r := Lookup(members, token, s);
    forall x
      ensures r == Some(x) <==> token(x) == s
    {
      if r.None? {
        assert x in members;
        var k :| 0 <= k < |members| && members[k] == x;
        assert token(x) != s;
      }
    }
  }

  /** The member whose token is `s`; `None` for a string that is no
      intensity token. */
  function IntensityFromToken(s: string): (r: Option<Intensity>)
    ensures forall i :: r == Some(i) <==> IntensityToken(i) == s
  {
    IntensityTable();
    LookupInverts(Intensities, IntensityToken, s);
    Lookup(Intensities, IntensityToken, s)
  }

  function DescriptorFromToken(s: string): (r: Option<Descriptor>)
    ensures forall d :: r == Some(d) <==> DescriptorToken(d) == s
  {
    DescriptorTable();
    LookupInverts(Descriptors, DescriptorToken, s);
    Lookup(Descriptors, DescriptorToken, s)
  }

  function PrecipitationFromToken(s: string): (r: Option<Precipitation>)
    ensures forall p :: r == Some(p) <==> PrecipitationToken(p) == s
  {
    PrecipitationTable();
    LookupInverts(Precipitations, PrecipitationToken, s);
    Lookup(Precipitations, PrecipitationToken, s)
  }

  function ObscurationFromToken(s: string): (r: Option<Obscuration>)
    ensures forall o :: r == Some(o) <==> ObscurationToken(o) == s
  {
    ObscurationTable();
    LookupInverts(Obscurations, ObscurationToken, s);
    Lookup(Obscurations, ObscurationToken, s)
  }

  function OtherFromToken(s: string): (r: Option<Other>)
    ensures forall o :: r == Some(o) <==> OtherToken(o) == s
  {
    OtherTable();
    LookupInverts(Others, OtherToken, s);
    Lookup(Others, OtherToken, s)
  }

  /** Intensity has exactly the four members `-`, `+`, the empty string and `VC`, and no
      token is shared by two of them. */
  lemma IntensityTable()
    ensures forall i :: i in Intensities
    ensures |Intensities| == 4 && Distinct(Intensities)
    ensures forall k :: 0 <= k < 4 ==> IntensityToken(Intensities[k]) == ["-", "+", "", "VC"][k]
    ensures forall a, b :: IntensityToken(a) == IntensityToken(b) ==> a == b
  {
    forall i ensures i in Intensities {
      match i { case Minus => case Plus => case Blank => case VC => }
    }
  }

  lemma DescriptorTable()
    ensures forall d :: d in Descriptors
    ensures |Descriptors| == 8 && Distinct(Descriptors)
    ensures forall a, b :: DescriptorToken(a) == DescriptorToken(b) ==> a == b
  {
    forall d ensures d in Descriptors {
      match d { case MI => case PR => case BC => case DR => case BL => case SH => case TS => case FZ => }
    }
  }

  lemma PrecipitationTable()
    ensures forall p :: p in Precipitations
    ensures |Precipitations| == 9 && Distinct(Precipitations)
    ensures forall a, b :: PrecipitationToken(a) == PrecipitationToken(b) ==> a == b
  {
    forall p ensures p in Precipitations {
      match p { case RA => case DZ => case SN => case SG => case IC => case PL => case GR => case GS => case UP => }
    }
  }

  lemma ObscurationTable()
    ensures forall o :: o in Obscurations
    ensures |Obscurations| == 8 && Distinct(Obscurations)
    ensures forall a, b :: ObscurationToken(a) == ObscurationToken(b) ==> a == b
  {
    forall o ensures o in Obscurations {
      match o { case FG => case VA => case BR => case HZ => case DU => case FU => case SA => case PY => }
    }
  }

  lemma OtherTable()
    ensures forall o :: o in Others
    ensures |Others| == 5 && Distinct(Others)
    ensures forall a, b :: OtherToken(a) == OtherToken(b) ==> a == b
  {
    forall o ensures o in Others {
      match o { case SQ => case PO => case DS => case SS => case FC => }
    }
  }

  /** Moderate intensity is the only member of the five enumerations whose
      token is empty; every other token has one or two characters. */
  lemma OnlyBlankIsEmpty()
    ensures forall i :: IntensityToken(i) == "" <==> i == Blank
    ensures forall d :: DescriptorToken(d) != ""
    ensures forall p :: PrecipitationToken(p) != ""
    ensures forall o :: ObscurationToken(o) != ""
    ensures forall o :: OtherToken(o) != ""
  {
  }
}
