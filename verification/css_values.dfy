/**
 * The value tables both CSS regulators share: absolute lengths expressed in
 * rem against a 16px base font, the font-size keywords, and the forms a
 * line-height value is rewritten to. Numbers are reals; single-precision
 * rounding is not modelled and `{:.2}` formatting stays a `Fixed` piece.
 */
module CssValues {
  import opened Wrappers
  import opened Ascii
  import opened CssTokens

  const BaseFontSize: real := 16.0

  /** The absolute length units of section 5.2 of CSS Values and Units Level 3. */
  const AbsoluteUnits: set<string> := {"px", "cm", "mm", "Q", "in", "pc", "pt"}

  /**
   * `abs_length_in_rem` with the quarter-millimetre factor the code's own
   * comment states (1Q = 1cm / 40). Units match exactly, case included.
   */
  function AbsLengthInRem(value: real, unit: string): (r: Option<real>)
    ensures r.Some? <==> unit in AbsoluteUnits
    ensures unit == "px" ==> r == Some(value / 16.0)
    ensures unit == "in" ==> r == Some(6.0 * value)
    ensures unit == "pc" ==> r == Some(value)
    ensures unit == "pt" ==> r == Some(value / 12.0)
  {
    match unit
    case "px" => Some(value / BaseFontSize)
    case "cm" => Some(value * 96.0 / 2.54 / BaseFontSize)
    case "mm" => Some(value * 96.0 / 2.54 / 10.0 / BaseFontSize)
    case "Q" => Some(value * 96.0 / 2.54 / 40.0 / BaseFontSize)
    case "in" => Some(value * 96.0 / BaseFontSize)
    case "pc" => Some(value * 96.0 / 6.0 / BaseFontSize)
    case "pt" => Some(value * 96.0 / 72.0 / BaseFontSize)
    case _ => None
  }

  /** `abs_length_in_rem` as written: the `Q` arm divides by 25.4 where 2.54 is meant. */
  function AbsLengthInRemAsWritten(value: real, unit: string): (r: Option<real>)
    ensures unit != "Q" ==> r == AbsLengthInRem(value, unit)
    ensures unit == "Q" ==> r == Some(AbsLengthInRem(value, "Q").value / 10.0)
  {
    match unit
    case "px" => Some(value / BaseFontSize)
    case "cm" => Some(value * 96.0 / 2.54 / BaseFontSize)
    case "mm" => Some(value * 96.0 / 2.54 / 10.0 / BaseFontSize)
    case "Q" => Some(value * 96.0 / 25.4 / 40.0 / BaseFontSize)
    case "in" => Some(value * 96.0 / BaseFontSize)
    case "pc" => Some(value * 96.0 / 6.0 / BaseFontSize)
    case "pt" => Some(value * 96.0 / 72.0 / BaseFontSize)
    case _ => None
  }

  /**
   * The unit definitions of CSS: 1in = 96px = 2.54cm = 6pc = 72pt,
   * 1cm = 10mm = 40Q. Equal lengths convert to equal rem values.
   */
  lemma AbsoluteUnitsAgree(v: real)
    ensures AbsLengthInRem(96.0 * v, "px") == AbsLengthInRem(v, "in")
    ensures AbsLengthInRem(2.54 * v, "cm") == AbsLengthInRem(v, "in")
    ensures AbsLengthInRem(6.0 * v, "pc") == AbsLengthInRem(v, "in")
    ensures AbsLengthInRem(72.0 * v, "pt") == AbsLengthInRem(v, "in")
    ensures AbsLengthInRem(10.0 * v, "mm") == AbsLengthInRem(v, "cm")
    ensures AbsLengthInRem(40.0 * v, "Q") == AbsLengthInRem(v, "cm")
  {
  }

  /** Counterexample: as written, 40Q (one centimetre) converts like one millimetre. */
  lemma FortyQuartersAsWritten()
    ensures AbsLengthInRemAsWritten(40.0, "Q") == AbsLengthInRemAsWritten(1.0, "mm")
    ensures AbsLengthInRemAsWritten(40.0, "Q") != AbsLengthInRemAsWritten(1.0, "cm")
    ensures AbsLengthInRem(40.0, "Q") == AbsLengthInRem(1.0, "cm")
  {
  }

  /** The font-size keywords, smallest first. */
  const SizeKeywords: seq<string> := ["xx-small", "x-small", "small", "medium", "large", "x-large", "xx-large", "xxx-large"]

  /** `sml_in_rem`: the rem value of a font-size keyword, matched exactly. */
  function SizeInRem(ident: string): (r: Option<real>)
    ensures r.Some? <==> ident in SizeKeywords
    ensures ident == "medium" ==> r == Some(1.0)
    ensures r.Some? ==> 0.6 <= r.value <= 3.0
  {
    match ident
    case "xx-small" => Some(0.60)
    case "x-small" => Some(0.75)
    case "small" => Some(0.89)
    case "medium" => Some(1.00)
    case "large" => Some(1.20)
    case "x-large" => Some(1.50)
    case "xx-large" => Some(2.00)
    case "xxx-large" => Some(3.00)
    case _ => None
  }

  /** Each keyword in the scale is strictly larger than the ones before it. */
  lemma SizeKeywordsIncrease(i: nat, j: nat)
    requires i < j < |SizeKeywords|
    ensures SizeInRem(SizeKeywords[i]).Some? && SizeInRem(SizeKeywords[j]).Some?
    ensures SizeInRem(SizeKeywords[i]).value < SizeInRem(SizeKeywords[j]).value
  {
    var values := [0.60, 0.75, 0.89, 1.00, 1.20, 1.50, 2.00, 3.00];
    assert forall k :: 0 <= k < |SizeKeywords| ==> SizeInRem(SizeKeywords[k]) == Some(values[k]);
    assert forall a, b :: 0 <= a < b < |values| ==> values[a] < values[b];
  }

  /**
   * The unit of a length as the regulators store it: in an eight-byte
   * inline string, which is left empty when the unit does not fit.
   * Characters count as bytes here.
   */
  function UnitBuffer(unit: string): (r: string)
    ensures |r| <= 8
    ensures |unit| <= 8 ==> r == unit
  {
    if |unit| <= 8 then unit else ""
  }

  /** `LineHeightValue`. */
  datatype LineHeightValue = LhNormal | LhNumber(value: real) | LhLength(value: real, unit: string) | LhPercentage(value: real)

  const ScaleVar := "var(--og-line-height-scale)"
  const ScaledPrefix := "calc(" + ScaleVar + " * "
  const ScaledNormal := ScaledPrefix + "1.25)"

  /** The multiplier of the scale variable meant by a line-height value; `None` for a length kept as is. */
  function ScaleFactor(v: LineHeightValue): Option<real>
  {
    match v
    case LhNormal => Some(1.25)
    case LhNumber(x) => Some(x)
    case LhPercentage(x) => Some(x)
    case LhLength(x, u) => if EqIgnoreCase(u, "em") then Some(x) else None
  }

  /** Reads back the multiplier of a `calc(var(--og-line-height-scale) * x)` form. */
  function ScaleOf(out: seq<Piece>): Option<real>
  {
    if |out| == 3 && out[0] == Lit(ScaledPrefix) && out[1].Fixed? && out[2] == Lit(")") then Some(out[1].value)
    else if out == [Lit(ScaledNormal)] then Some(1.25)
    else None
  }

  /**
   * `regulated_line_height`: normal, numbers, percentages and `em` lengths
   * become the scale variable times the value; any other length is kept
   * as value and unit.
   */
  function RegulatedLineHeight(v: LineHeightValue): (r: seq<Piece>)
    ensures ScaleOf(r) == ScaleFactor(v)
    ensures ScaleFactor(v).None? ==> v.LhLength? && r == [Fixed(v.value), Lit(v.unit)]
  {
    match v
    case LhNormal => [Lit(ScaledNormal)]
    case LhNumber(x) => [Lit(ScaledPrefix), Fixed(x), Lit(")")]
    case LhPercentage(x) => [Lit(ScaledPrefix), Fixed(x), Lit(")")]
    case LhLength(x, u) =>
      if EqIgnoreCase(u, "em") then [Lit(ScaledPrefix), Fixed(x), Lit(")")] else [Fixed(x), Lit(u)]
  }

  /** `{rem:.2}rem`. */
  function Rem(x: real): seq<Piece>
  {
    [Fixed(x), Lit("rem")]
  }
}
