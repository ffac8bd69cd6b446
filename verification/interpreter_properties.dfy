/**
 What the interpretation column promises, stated over all register numbers,
 raw value texts and hints.
 */
module InterpreterProperties {
  import opened Text
  import opened Bits
  import opened Catalog
  import opened Interpreter

  /** A catalogued register is read from its catalog entry, whatever units its hint mentions. */
  lemma CatalogPrecedence(register: string, raw: string, hint: string, otherHint: string)
    requires Lookup(register).Some?
    ensures Interpret(register, raw, hint) == InterpretWith(raw, Lookup(register).value)
    ensures Interpret(register, raw, hint) == Interpret(register, raw, otherHint)
  {
  }

  /** Raw text that is not an integer, such as the "Error" token, is shown unchanged for a catalogued register. */
  lemma CataloguedPassThrough(register: string, raw: string, hint: string)
    requires Lookup(register).Some? && ParseInt(raw).None?
    ensures Interpret(register, raw, hint) == raw
  {
  }

  /**
   An enumerated register shows the raw text as read, ": ", and the label of
   the code, or "Unknown state" for a code the register does not list.
   */
  lemma EnumeratedReading(register: string, raw: string, hint: string)
    requires Lookup(register).Some? && Lookup(register).value.kind.Enumerated?
    requires ParseInt(raw).Some?
    ensures var labels := Lookup(register).value.kind.labels;
      var code := ParseInt(raw).value;
      Interpret(register, raw, hint) == raw + ": " + (if code in labels then labels[code] else "Unknown state")
  {
  }

  /** For the canonical text of a code, the reading is that text followed by its label. */
  lemma EnumeratedCode(register: string, code: nat, hint: string)
    requires Lookup(register).Some? && Lookup(register).value.kind.Enumerated?
    ensures var labels := Lookup(register).value.kind.labels;
      Interpret(register, Decimal(code), hint)
        == Decimal(code) + ": " + (if code in labels then labels[code] else "Unknown state")
  {
    ParseDecimal(code);
  }

  /** The lines of a bitfield do not depend on the bits of the value from index k up. */
  lemma BitLinesIgnoreHighBits(bits: seq<BitSpec>, v: nat)
    ensures BitLines(bits, v) == BitLines(bits, v % Pow2(|bits|))
  {
    var k := |bits|;
    var lines := BitLines(bits, v);
    var lowLines := BitLines(bits, v % Pow2(k));
    forall i | 0 <= i < k
      ensures lines[i] == lowLines[i]
    {
      LowBitsOfRemainder(v, k, i);
    }
    assert lines == lowLines;
  }

  /**
   A bitfield register with k declared bits shows exactly k lines joined by
   "<br/>", in declaration order; line i names the i-th declared bit and says
   "<strong>True</strong>" when bit i of the value is set and "False"
   otherwise. Registers are named by number: a register text is catalogued
   only as the decimal text of its number.
   */
  lemma BitfieldReading(number: nat, raw: string, hint: string)
    requires Entry(number).Some? && Entry(number).value.kind.Bitfield?
    requires ParseInt(raw).Some?
    ensures var bits := Entry(number).value.kind.bits;
      var v := ParseInt(raw).value;
      var lines := BitLines(bits, v);
      && Interpret(Decimal(number), raw, hint) == Join(lines, "<br/>")
      && |lines| == |bits|
      && forall i | 0 <= i < |bits| ::
           lines[i] == bits[i].name + ": " + (if BitSet(v, i) then "<strong>True</strong>" else "False")
  {
    LookupDecimal(number);
  }

  /**
   The flags a bitfield shows are the flag vector of the value, whose
   encoding is the value's k low bits, so a value below 2^k is recovered
   from its flags.
   */
  lemma BitLinesShowFlags(bits: seq<BitSpec>, v: nat)
    ensures var k := |bits|;
      && (forall i | 0 <= i < k :: BitLines(bits, v)[i] == BitLine(bits[i].name, Flags(v, k)[i]))
      && Encode(Flags(v, k)) == v % Pow2(k)
      && (v < Pow2(k) ==> Encode(Flags(v, k)) == v)
  {
    var k := |bits|;
    EncodeFlags(v, k);
    if v < Pow2(k) {
      ModUnique(v, Pow2(k), 0, v);
    }
    forall i | 0 <= i < k
      ensures BitLines(bits, v)[i] == BitLine(bits[i].name, Flags(v, k)[i])
    {
    }
  }

  /** Set bits of a bitfield register's value from index k up are never shown. */
  lemma BitfieldIgnoresHighBits(number: nat, raw: string, hint: string)
    requires Entry(number).Some? && Entry(number).value.kind.Bitfield?
    requires ParseInt(raw).Some?
    ensures var k := |Entry(number).value.kind.bits|;
      Interpret(Decimal(number), raw, hint) == Interpret(Decimal(number), Decimal(ParseInt(raw).value % Pow2(k)), hint)
  {
    var bits := Entry(number).value.kind.bits;
    var v := ParseInt(raw).value;
    LookupDecimal(number);
    ParseDecimal(v % Pow2(|bits|));
    BitLinesIgnoreHighBits(bits, v);
  }

  /**
   In both bitfield registers the line for the i-th declared bit reports the
   bit the register documentation tags "Bit i".
   */
  lemma BitfieldLinesFollowTags(number: nat, v: nat, i: nat)
    requires Entry(number).Some? && Entry(number).value.kind.Bitfield?
    requires i < |Entry(number).value.kind.bits|
    ensures var bits := Entry(number).value.kind.bits;
      && bits[i].tag == "Bit " + Decimal(i)
      && BitLines(bits, v)[i] == BitLine(bits[i].name, BitSet(v, i))
  {
    BitfieldDeclarations();
  }

  /**
   The alarm register reads "No Alarm" exactly when the value is 0; any other
   value reads "Alarm number: " and the value's canonical decimal, from which
   the value can be read back.
   */
  lemma AlarmReading(register: string, raw: string, hint: string)
    requires Lookup(register).Some? && Lookup(register).value.kind.Alarm?
    requires ParseInt(raw).Some?
    ensures var v := ParseInt(raw).value;
      var r := Interpret(register, raw, hint);
      && (r == "No Alarm" <==> v == 0)
      && (v != 0 ==> r == "Alarm number: " + Decimal(v) && ParseInt(r[|"Alarm number: "|..]) == Some(v))
  {
    var v := ParseInt(raw).value;
    if v != 0 {
      var r := Interpret(register, raw, hint);
      assert r[|"Alarm number: "|..] == Decimal(v);
      ParseDecimal(v);
    }
  }

  /**
   An uncatalogued register whose hint carries a tenth marker (",0 m3/h"
   tested before ",0 °C") shows an integer value divided by ten with one
   decimal and the unit; other text is shown unchanged.
   */
  lemma ScaledReading(register: string, raw: string, hint: string)
    requires Lookup(register).None?
    requires Contains(hint, ",0 m3/h") || Contains(hint, ",0 °C")
    ensures var unit := if Contains(hint, ",0 m3/h") then " m3/h" else " °C";
      Interpret(register, raw, hint)
        == match ParseInt(raw)
           case None => raw
           case Some(v) => Decimal(v / 10) + "." + [DigitChar(v % 10)] + unit
  {
  }

  /**
   An uncatalogued register whose hint carries no tenth marker has the unit
   of the first of "°C", "%", "kWh", "Hz" found in the hint appended to its
   raw text, even when that text is not a number; with none of them the raw
   text is shown unchanged.
   */
  lemma AppendedUnitReading(register: string, raw: string, hint: string)
    requires Lookup(register).None?
    requires !Contains(hint, ",0 m3/h") && !Contains(hint, ",0 °C")
    ensures var r := Interpret(register, raw, hint);
      && (Contains(hint, "°C") ==> r == raw + " °C")
      && (!Contains(hint, "°C") && Contains(hint, "%") ==> r == raw + " %")
      && (!Contains(hint, "°C") && !Contains(hint, "%") && Contains(hint, "kWh") ==> r == raw + " kWh")
      && (!Contains(hint, "°C") && !Contains(hint, "%") && !Contains(hint, "kWh") && Contains(hint, "Hz")
          ==> r == raw + " Hz")
      && (!Contains(hint, "°C") && !Contains(hint, "%") && !Contains(hint, "kWh") && !Contains(hint, "Hz")
          ==> r == raw)
  {
  }

  /**
   A hint with the tenth-degree marker also contains the plain degree marker,
   so the scaled reading is only reachable because it is tested first.
   */
  lemma TenthDegreeShadowsDegree(hint: string)
    requires Contains(hint, TenthDegreeMarker)
    ensures Contains(hint, DegreeMarker)
  {
    assert DegreeMarker <= TenthDegreeMarker[3..];
    assert Contains(TenthDegreeMarker[1..][1..][1..], DegreeMarker);
    ContainsTransitive(hint, TenthDegreeMarker, DegreeMarker);
  }

  /** A register reads "Error" as "Error", except that an uncatalogued register may have a unit appended. */
  lemma ErrorTokenReading(register: string, hint: string)
    ensures var r := Interpret(register, "Error", hint);
      || r == "Error"
      || (Lookup(register).None? && (r == "Error °C" || r == "Error %" || r == "Error kWh" || r == "Error Hz"))
    ensures Lookup(register).Some? ==> Interpret(register, "Error", hint) == "Error"
  {
    assert !IsDigit("Error"[0]);
    assert ParseInt("Error").None?;
  }

  /**
   For a failed read of an uncatalogued register whose hint contains "°C" but
   neither tenth marker, the report shows "Error °C".
   */
  lemma ErrorGetsDegreeUnit(register: string, hint: string)
    requires Lookup(register).None?
    requires Contains(hint, "°C") && !Contains(hint, ",0 m3/h") && !Contains(hint, ",0 °C")
    ensures Interpret(register, "Error", hint) == "Error °C"
  {
    assert !IsDigit("Error"[0]);
  }

  /**
   A failed read of an uncatalogued register is shown as "Error" when the
   hint carries a tenth marker or none of the six markers.
   */
  lemma ErrorUnchangedWithoutPlainUnit(register: string, hint: string)
    requires Lookup(register).None?
    requires || Contains(hint, ",0 m3/h") || Contains(hint, ",0 °C")
             || (!Contains(hint, "°C") && !Contains(hint, "%") && !Contains(hint, "kWh") && !Contains(hint, "Hz"))
    ensures Interpret(register, "Error", hint) == "Error"
  {
    assert !IsDigit("Error"[0]);
  }

  /** How a unit rule shows the value once its marker is found. */
  datatype UnitReading = ScaleTenths(unit: string) | AppendUnit(unit: string)

  /** A unit rule: a hint marker and the reading it selects. */
  datatype UnitRule = UnitRule(marker: string, reading: UnitReading)

  /** The unit heuristics written as an ordered rule table. */
  const UnitRules: seq<UnitRule> := [
    UnitRule(",0 m3/h", ScaleTenths(" m3/h")),
    UnitRule(",0 °C", ScaleTenths(" °C")),
    UnitRule("°C", AppendUnit(" °C")),
    UnitRule("%", AppendUnit(" %")),
    UnitRule("kWh", AppendUnit(" kWh")),
    UnitRule("Hz", AppendUnit(" Hz"))
  ]

  /** The position of the first rule whose marker the hint contains. */
  function FirstMatch(rules: seq<UnitRule>, hint: string): (r: Option<nat>)
    ensures r.Some? ==> r.value < |rules| && Contains(hint, rules[r.value].marker)
    ensures r.Some? ==> forall j | 0 <= j < r.value :: !Contains(hint, rules[j].marker)
    ensures r.None? ==> forall j | 0 <= j < |rules| :: !Contains(hint, rules[j].marker)
    decreases |rules|
  {
    if |rules| == 0 then None
    else if Contains(hint, rules[0].marker) then Some(0)
    else
      match FirstMatch(rules[1..], hint)
      case None => None
      case Some(i) => Some(i + 1)
  }

  function ApplyReading(reading: UnitReading, raw: string): string {
    match reading
    case ScaleTenths(unit) => Scaled(raw, unit)
    case AppendUnit(unit) => raw + unit
  }

  /**
   The unit heuristics are "first match wins" over the rule table: the
   first rule whose marker the hint contains decides the reading, and with
   no such rule the raw text is shown unchanged.
   */
  lemma HeuristicsAreFirstMatch(raw: string, hint: string)
    ensures InterpretByHint(raw, hint)
      == match FirstMatch(UnitRules, hint)
         case None => raw
         case Some(i) => ApplyReading(UnitRules[i].reading, raw)
  {
    var rules := UnitRules;
    assert rules[1..][1..][1..][1..][1..][1..] == [];
    if !Contains(hint, FlowMarker) {
      assert FirstMatch(rules, hint) == (match FirstMatch(rules[1..], hint) case None => None case Some(i) => Some(i + 1));
    }
  }
}
