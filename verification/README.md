# Yutaki register interpretation, modelled in Dafny

`get_all_values.py` reads the holding registers of a Hitachi Yutaki
heat-pump controller over Modbus and writes a report. Each report row shows
a human-readable "interpretation" of the register's raw value text. This
project models the pure engine behind that column:

- the register catalog `registers_info`: register number → descriptor.
  There are three kinds of descriptor:
  - an enumerated state (code → label);
  - a bitfield of named flags;
  - the alarm number.
- `interpret_bitwise_register`: the reading of a catalogued register.
- `interpret_register`: the catalog first, then the unit heuristics. The
  heuristics search the row's description text for the markers `,0 m3/h`,
  `,0 °C`, `°C`, `%`, `kWh` and `Hz`, and the first marker found wins.
- The description cell of a report row, which is the text the heuristics
  search: the description in bold, a line break, then the notice with every
  `;` turned into `<br/>`.

Modules:

| file | module | content |
|---|---|---|
| `text.dfy` | `Text` | ASCII digits, `Decimal` (Python's `str` of a natural number), `ParseInt` (Python's `int` on digit text), substring search `Contains` (Python's `in`), `Join` and `Split` |
| `bits.dfy` | `Bits` | the reference meaning of "bit i is set"; Python's `format(v, '0<k>b')[::-1]`; flag vectors and their encoding |
| `catalog.dfy` | `Catalog` | the descriptor datatypes, the catalog `Entry` and its text-keyed view `Lookup`, and data invariants of the catalog |
| `interpreter.dfy` | `Interpreter` | `InterpretWith` (`interpret_bitwise_register`), `InterpretByHint`, and `Interpret` (`interpret_register`) |
| `report.dfy` | `Report` | the description cell of a report row, used as the hint |
| `interpreter_properties.dfy` | `InterpreterProperties` | the promises of the interpretation column as lemmas; the heuristics restated as an ordered rule table |

How Python's behaviour is represented:

- **Register number.** The catalog is keyed by the decimal text of the
  register number. `Lookup` succeeds exactly when the register text is the
  canonical decimal of a catalogued number: `"01001"` and `" 1001"` find
  nothing, as with the source's string-keyed dictionary.
- **`int(value)`.** This is `ParseInt`: it accepts the non-empty texts of
  ASCII digits.
- **Enumerated registers** echo the raw text exactly as read, so leading
  zeros are kept.
- **The alarm register** prints the parsed number in canonical decimal.
- **Scaled values.** For digit text, `f"{float(v)/10:.1f}"` is written as
  `Tenths(v)`: the decimal of `v / 10`, a point, and the digit `v % 10`.

### The "Error" token

The `except ValueError` guards around `f"{value} °C"` and the other
plain-unit branches (lines 317-336) can never fire. Formatting a string
never raises. So for a register the catalog does not list, a failed read
("Error") whose hint has a plain marker is shown with the unit appended,
for example "Error °C". Catalogued registers, the two scaled branches, and
a hint with none of the markers pass "Error" through unchanged.
`InterpreterProperties.ErrorTokenReading`,
`InterpreterProperties.ErrorGetsDegreeUnit` and
`InterpreterProperties.ErrorUnchangedWithoutPlainUnit` state this behaviour.

## Model

| member | source | states |
|---|---|---|
| Text.Decimal | get_all_values.py:300 | the text printed for a number is non-empty, only digits, and without a leading zero unless it is "0" |
| Text.ParseInt | get_all_values.py:291 | the integer parse succeeds exactly on non-empty all-digit text |
| Text.ParseDecimal | get_all_values.py:291 | parsing the decimal text of a register value gives that value back |
| Text.DecimalOfParse | get_all_values.py:305 | a digit text without a leading zero is the decimal text of the number it parses to, so text keys and numbers correspond one to one |
| Text.ContainsAt | get_all_values.py:307 | the substring test used by the heuristics holds exactly when the marker occurs at some position of the hint |
| Text.Split | get_all_values.py:365 | splitting on ';' yields one more part than there are separators, and no part holds a separator |
| Text.JoinSplit | get_all_values.py:365 | joining the parts with the separator gives back the original text |
| Bits.Binary | get_all_values.py:293 | the binary expansion has only '0' and '1' characters and no leading zero except for the value 0 |
| Bits.BinaryDigitIsBit | get_all_values.py:293 | the binary digit i places from the right is '1' exactly when bit i of the value is set |
| Bits.NoBitBeyondBinary | get_all_values.py:293 | no bit at or beyond the length of the binary expansion is set |
| Bits.PadLeftAt | get_all_values.py:293 | zero padding to width k puts fill '0's before the unchanged binary text |
| Bits.ReverseAt | get_all_values.py:293 | character i of the reversed text is character i counted from the end |
| Bits.LsbDigits | get_all_values.py:293 | the padded, reversed expansion has at least k characters, and its character i is '1' exactly when bit i is set |
| Bits.Flags | get_all_values.py:294-295 | the flag vector of the k low bits has k entries, and entry i says whether bit i is set |
| Bits.EncodeFlags | get_all_values.py:292-296 | encoding the shown flags gives back the value modulo 2^k |
| Bits.FlagsEncode | get_all_values.py:292-296 | every flag vector is the flag vector of its encoding, which is a value below 2^k, so each flag vector is shown by some register value |
| Bits.LowBitsOfRemainder | get_all_values.py:293-295 | bits at index k or above do not affect bits below k |
| Catalog.EnumeratedEntry | get_all_values.py:73-287 | every catalogued register other than 1090, 1223 and 1224 is enumerated |
| Catalog.Lookup | get_all_values.py:305-306 | a register text finds a descriptor exactly when it is the decimal text of a catalogued number, and then it finds that number's descriptor |
| Catalog.LookupDecimal | get_all_values.py:305-306 | the decimal text of a register number finds exactly that number's catalog entry, or nothing when the number is not catalogued |
| Catalog.ConfigurationTags | get_all_values.py:224-237 | the i-th declared flag of "System Configuration" is tagged "Bit i" |
| Catalog.StatusTags | get_all_values.py:270-281 | the i-th declared flag of "System status" is tagged "Bit i" |
| Catalog.BitfieldRegisters | get_all_values.py:222-282 | 1090 and 1223 are exactly the bitfield registers |
| Catalog.BitfieldDeclarations | get_all_values.py:222-282 | every bitfield register declares its flags in bit order and has at most 16 of them |
| Catalog.SingleAlarmRegister | get_all_values.py:283-286 | 1224 is exactly the alarm-number register |
| Interpreter.BitLines | get_all_values.py:293-295 | one line per declared bit; line i names bit i and reports whether bit i of the value is set |
| Interpreter.InterpretWith | get_all_values.py:289-302 | non-integer text is returned unchanged; an enumerated reading starts with the raw text and ": "; the alarm reading is "No Alarm" exactly for 0 |
| Interpreter.Scaled | get_all_values.py:307-316 | non-numeric text is returned unchanged by the scaled branches |
| Interpreter.Interpret | get_all_values.py:304-338 | non-numeric text is kept as a prefix of the result, and is the whole result for a catalogued register |
| Interpreter.TenthsDenotesValue | get_all_values.py:309 | the scaled rendering has one digit after the point, the whole part is the canonical decimal of v div 10, and dropping the point gives back v |
| Report.HintText | get_all_values.py:365 | the description cell starts with the bold description and a line break |
| Report.PlainNotice | get_all_values.py:365 | a notice without ';' is copied into the cell unchanged |
| Report.SplitJoinKeeps | get_all_values.py:365 | turning ';' into line breaks keeps every substring that has no ';' |
| Report.MarkerSurvives | get_all_values.py:365 | a unit marker without ';' in the description or the notice is found in the description cell |
| Report.InterpretRow | get_all_values.py:365-366 | the interpretation shown for a row keeps non-numeric raw text as a prefix |
| InterpreterProperties.CatalogPrecedence | get_all_values.py:305-306 | a catalogued register is read from its entry, and the hint makes no difference |
| InterpreterProperties.CataloguedPassThrough | get_all_values.py:301-302 | a catalogued register shows non-integer text, such as "Error", unchanged |
| InterpreterProperties.EnumeratedReading | get_all_values.py:297-298 | an enumerated reading is the raw text, ": ", then the label of the code, or "Unknown state" |
| InterpreterProperties.EnumeratedCode | get_all_values.py:297-298 | for the canonical text of a code, the reading is that text, ": " and the code's label or "Unknown state" |
| InterpreterProperties.BitLinesIgnoreHighBits | get_all_values.py:293-295 | the lines of a k-bit register depend only on the value modulo 2^k |
| InterpreterProperties.BitfieldReading | get_all_values.py:292-296 | for the text of a bitfield register number, the reading is exactly k lines joined by "<br/>"; line i is the i-th name with ": <strong>True</strong>" when bit i is set, else ": False" |
| InterpreterProperties.BitLinesShowFlags | get_all_values.py:292-296 | the lines show the flag vector of the value; its encoding is the value modulo 2^k, and a value below 2^k is recovered exactly |
| InterpreterProperties.BitfieldIgnoresHighBits | get_all_values.py:293-295 | set bits at index k or above never change the bitfield reading |
| InterpreterProperties.BitfieldLinesFollowTags | get_all_values.py:222-296 | in every bitfield register, line i reports the bit the documentation tags "Bit i" |
| InterpreterProperties.AlarmReading | get_all_values.py:299-300 | "No Alarm" exactly when the value is 0; otherwise "Alarm number: " and the decimal of the value, from which the value can be read back |
| InterpreterProperties.ScaledReading | get_all_values.py:307-316 | an uncatalogued register with ",0 m3/h" (checked first) or ",0 °C" shows digit text v as decimal(v div 10) "." digit(v mod 10) and the unit, and other text unchanged |
| InterpreterProperties.AppendedUnitReading | get_all_values.py:317-338 | without a tenth marker, the first of "°C", "%", "kWh", "Hz" in the hint appends its unit to the raw text verbatim; with none, the raw text is returned |
| InterpreterProperties.TenthDegreeShadowsDegree | get_all_values.py:312-321 | a hint with ",0 °C" also contains "°C", so the scaled reading is reachable only because it is tested first |
| InterpreterProperties.ErrorTokenReading | get_all_values.py:304-338 | "Error" is shown as "Error" for a catalogued register, and otherwise as "Error" or "Error" followed by one of the four plain units |
| InterpreterProperties.ErrorGetsDegreeUnit | get_all_values.py:317-321 | for an uncatalogued register whose hint contains "°C" but neither ",0 m3/h" nor ",0 °C", "Error" is shown as "Error °C" |
| InterpreterProperties.ErrorUnchangedWithoutPlainUnit | get_all_values.py:307-338 | for an uncatalogued register whose hint has a tenth marker, or none of the six markers, "Error" is shown unchanged |
| InterpreterProperties.FirstMatch | get_all_values.py:307-338 | the rule picked is the first whose marker occurs in the hint; no earlier rule's marker occurs; with no pick, no marker occurs |
| InterpreterProperties.HeuristicsAreFirstMatch | get_all_values.py:307-338 | the heuristics give the same result as the ordered rule table read as "first match wins" |

## Left out

- Modbus polling (get_all_values.py:25-40) is network I/O through pymodbus. Raw value texts are parameters, and the model accepts any natural number where the source sees register values from 0 to 65535.
- Reading `.env`, the timestamp, and the CSV files (get_all_values.py:13-23, 43-70) are file and OS I/O.
- The PDF layout with reportlab (get_all_values.py:340-364, 366-401) is a third-party library. Only the description-cell string at line 365 is modelled.
- Text.ParseInt: Python's `int()` also accepts surrounding whitespace, a sign, `_` separators and non-ASCII digits. The model treats such text as non-numeric. Python's `int()` also rejects digit text longer than 4300 digits, which the source then passes through unchanged; the model parses it.
- Negative values are not modelled. For them `format(v, 'b')` writes a '-' sign, and they cannot come from a register read.
- Interpreter.Scaled: Python's `float()` also accepts text such as "1.5", "1e3" or " 12", which the source renders as a rounded number, and "nan" or "inf", which it renders as "nan m3/h" or "inf m3/h"; the model renders only digit text and returns all such text unchanged. For digit text the model's exact rendering agrees with `f"{float(v)/10:.1f}"` only for v below 10·2^49 = 5629499534213120, far above the 16-bit register range: above that bound the float division can round to the wrong tenth (5629499534213123 renders as "562949953421312.2" in Python, "562949953421312.3" here), and digit text above about 1.8·10^308 becomes "inf" in Python.
- In the source, a descriptor with none of `bits`, `values` or `special` yields `None`. No catalog entry is like that, and the `Kind` datatype has no such case.
- Distinct names are not modelled: bit names are dictionary keys in the source, so they are distinct there. The model keeps them as an ordered sequence and does not state their distinctness.
