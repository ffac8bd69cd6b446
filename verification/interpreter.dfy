/**
 The register interpreter: the text shown in the "interpretation" column of
 the report for one register, given the register number, the raw value text
 read from the controller, and the row's description text (the hint).

 A catalogued register is read from its descriptor (`InterpretWith`, the
 source's `interpret_bitwise_register`); any other register is read by the
 unit heuristics (`InterpretByHint`), which look for unit markers in the hint.
 */
module Interpreter {
  import opened Text
  import opened Bits
  import opened Catalog

  const LineBreak := "<br/>"
  const UnknownState := "Unknown state"
  const NoAlarm := "No Alarm"
  const AlarmPrefix := "Alarm number: "

  /** Hint markers, in the order the heuristics test them. */
  const FlowMarker := ",0 m3/h"
  const TenthDegreeMarker := ",0 °C"
  const DegreeMarker := "°C"
  const PercentMarker := "%"
  const EnergyMarker := "kWh"
  const FrequencyMarker := "Hz"

  /** Unit suffixes appended to the rendered value. */
  const FlowUnit := " m3/h"
  const DegreeUnit := " °C"
  const PercentUnit := " %"
  const EnergyUnit := " kWh"
  const FrequencyUnit := " Hz"

  /** One line of a bitfield rendering: the bit's name and whether it is set, a set bit emphasised. */
  function BitLine(name: string, isSet: bool): string {
    name + ": " + (if isSet then "<strong>True</strong>" else "False")
  }

  /**
   The lines of a bitfield rendering, one per declared bit and in declaration
   order. As in the source, the flag of the `i`-th declared bit is read from
   character `i` of the reversed, zero-padded binary expansion of the value;
   the contract states the result in terms of bit `i` of the value instead.
   */
  function BitLines(bits: seq<BitSpec>, v: nat): (lines: seq<string>)
    ensures |lines| == |bits|
    ensures forall i | 0 <= i < |bits| :: lines[i] == BitLine(bits[i].name, BitSet(v, i))
  {
    var binary := LsbDigits(v, |bits|);
    seq(|bits|, i requires 0 <= i < |bits| => BitLine(bits[i].name, binary[i] == '1'))
  }

  /** The label of an enumerated state; a code the register does not list reads "Unknown state". */
  function EnumLabel(labels: map<int, string>, code: nat): string {
    if code in labels then labels[code] else UnknownState
  }

  /**
   The reading of a catalogued register (the source's `interpret_bitwise_register`).
   Text that is not an integer is returned as it is; otherwise a bitfield
   lists its flags, an enumerated register echoes the raw text followed by
   the state label, and the alarm register names the alarm number.
   */
  function InterpretWith(raw: string, d: Descriptor): (r: string)
    ensures ParseInt(raw).None? ==> r == raw
    ensures ParseInt(raw).Some? && d.kind.Enumerated? ==> raw + ": " <= r
    ensures ParseInt(raw).Some? && d.kind.Alarm? ==> (r == NoAlarm <==> ParseInt(raw).value == 0)
  {
    match ParseInt(raw)
    case None => raw
    case Some(v) =>
      match d.kind
      case Bitfield(bits) => Join(BitLines(bits, v), LineBreak)
      case Enumerated(labels) => raw + ": " + EnumLabel(labels, v)
      case Alarm => if v == 0 then NoAlarm else AlarmPrefix + Decimal(v)
  }

  /**
   `f"{float(v) / 10:.1f}"` for a register value `v`: the value in tenths,
   written with exactly one digit after the point.
   */
  function Tenths(v: nat): string {
    Decimal(v / 10) + "." + [DigitChar(v % 10)]
  }

  /** A reading scaled by 1/10 with a unit; text that is not a number is returned as it is. */
  function Scaled(raw: string, unit: string): (r: string)
    ensures ParseInt(raw).None? ==> r == raw
  {
    match ParseInt(raw)
    case None => raw
    case Some(v) => Tenths(v) + unit
  }

  /**
   The unit heuristics for a register the catalog does not list: the first
   marker found in the hint decides. The two tenth markers scale the value;
   the plain markers append their unit to the raw text, whatever that text is.
   */
  function InterpretByHint(raw: string, hint: string): (r: string)
  {
    if Contains(hint, FlowMarker) then Scaled(raw, FlowUnit)
    else if Contains(hint, TenthDegreeMarker) then Scaled(raw, DegreeUnit)
    else if Contains(hint, DegreeMarker) then raw + DegreeUnit
    else if Contains(hint, PercentMarker) then raw + PercentUnit
    else if Contains(hint, EnergyMarker) then raw + EnergyUnit
    else if Contains(hint, FrequencyMarker) then raw + FrequencyUnit
    else raw
  }

  /**
   The source's `interpret_register`: the text of the interpretation column
   for `register` with raw value text `raw` and description text `hint`.
   Text that is not a number is never altered, at most followed by a unit,
   and never even that for a catalogued register.
   */
  function Interpret(register: string, raw: string, hint: string): (r: string)
    ensures ParseInt(raw).None? ==> raw <= r
    ensures ParseInt(raw).None? && Lookup(register).Some? ==> r == raw
  {
    match Lookup(register)
    case Some(d) => InterpretWith(raw, d)
    case None => InterpretByHint(raw, hint)
  }

  /**
   The scaled rendering is exact: the text before the point is the canonical
   decimal of `v / 10`, and dropping the point gives back the digits of `v`.
   */
  lemma TenthsDenotesValue(v: nat)
    ensures var t := Tenths(v);
      && |t| >= 3 && t[|t| - 2] == '.'
      && Canonical(t[..|t| - 2]) && ParseInt(t[..|t| - 2]) == Some(v / 10)
      && ParseInt(t[..|t| - 2] + t[|t| - 1..]) == Some(v)
  {
    var t := Tenths(v);
    var whole := Decimal(v / 10);
    var digit := DigitChar(v % 10);
    assert t == whole + ['.', digit];
    assert t[..|t| - 2] == whole;
    assert t[|t| - 1..] == [digit];
    ParseDecimal(v / 10);
    ValueOfAppend(whole, digit);
  }
}
