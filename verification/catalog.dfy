/**
 The register catalog of the Yutaki heat-pump controller: register number →
 descriptor. A descriptor names the register and says how its raw value is
 read: as an enumerated state, as a bitfield of named flags, or as the alarm
 number.
 */
module Catalog {
  import opened Text

  /** One declared bit of a bitfield register: its name and its documentation tag ("Bit 3"). */
  datatype BitSpec = BitSpec(name: string, tag: string)

  datatype Kind =
    | Enumerated(labels: map<int, string>)
    | Bitfield(bits: seq<BitSpec>)
    | Alarm

  datatype Descriptor = Descriptor(name: string, kind: Kind)

  const StopRun: map<int, string> := map[0 := "Stop", 1 := "Run"]
  const HeatingOtc: map<int, string> := map[0 := "No", 1 := "Points", 2 := "Gradient", 3 := "Fix"]
  const CoolingOtc: map<int, string> := map[0 := "No", 1 := "Points", 2 := "Fix"]
  const EcoComfort: map<int, string> := map[0 := "ECO", 1 := "Comfort"]
  const ThermostatAvailability: map<int, string> := map[0 := "Not Available", 1 := "Available"]
  const DemandMode: map<int, string> := map[0 := "Standard", 1 := "High demand"]
  const MenuBlock: map<int, string> := map[0 := "No", 1 := "Block"]

  const ControlUnitModes: map<int, string> := map[0 := "Cool", 1 := "Heat", 2 := "Auto"]
  const BoostRequest: map<int, string> := map[0 := "No request", 1 := "Request"]
  const BmsAlarmControl: map<int, string> := map[0 := "No Alarm", 1 := "Alarm"]
  const StatusUnitModes: map<int, string> := map[0 := "Cool", 1 := "Heat"]
  const BoostAvailability: map<int, string> := map[0 := "Disable", 1 := "Enable"]
  const BmsAlarmStatus: map<int, string> := map[0 := "No", 1 := "Alarm"]
  const CentralModes: map<int, string> := map[0 := "Local", 1 := "Air", 2 := "Water", 3 := "Full"]
  const UnitModels: map<int, string> := map[0 := "YUTAKI S", 1 := "YUTAKI S COMBI", 2 := "S80", 3 := "M"]
  const OperationStates: map<int, string> := map[
    0 := "OFF",
    1 := "Cool Demand-OFF",
    2 := "Cool Thermo-OFF",
    3 := "Cool Thermo-ON",
    4 := "Heat Demand-OFF",
    5 := "Heat Thermo-OFF",
    6 := "Heat Thermo-ON",
    7 := "DHW-OFF",
    8 := "DHW-ON",
    9 := "SWP-OFF",
    10 := "SWP-ON",
    11 := "Alarm"
  ]
  const HLinkStates: map<int, string> := map[
    0 := "No alarm",
    1 := "There is no communication with RCS or YUTAKI unit during more than 180 seconds",
    2 := "Data initialization"
  ]

  /** Flags of register 1090, "System Configuration", in declaration order. */
  const SystemConfigurationBits: seq<BitSpec> := [
    BitSpec("Circuit 1 Heating", "Bit 0"),
    BitSpec("Circuit 2 Heating", "Bit 1"),
    BitSpec("Circuit 1 Cooling", "Bit 2"),
    BitSpec("Circuit 2 Cooling", "Bit 3"),
    BitSpec("DHWT", "Bit 4"),
    BitSpec("SWP", "Bit 5"),
    BitSpec("Room thermostat Circuit 1", "Bit 6"),
    BitSpec("Room thermostat Circuit 2", "Bit 7"),
    BitSpec("Wireless setting Circuit 1", "Bit 8"),
    BitSpec("Wireless setting Circuit 2", "Bit 9"),
    BitSpec("Wireless room temperature Circuit 1", "Bit 10"),
    BitSpec("Wireless room temperature Circuit 2", "Bit 11")
  ]

  /** Flags of register 1223, "System status", in declaration order. */
  const SystemStatusBits: seq<BitSpec> := [
    BitSpec("Defrost", "Bit 0"),
    BitSpec("Solar", "Bit 1"),
    BitSpec("Water Pump 1", "Bit 2"),
    BitSpec("Water Pump 2", "Bit 3"),
    BitSpec("Water Pump 3", "Bit 4"),
    BitSpec("Compressor ON", "Bit 5"),
    BitSpec("Boiler ON", "Bit 6"),
    BitSpec("DHW Heater", "Bit 7"),
    BitSpec("Space Heater", "Bit 8"),
    BitSpec("Smart function input enable", "Bit 9")
  ]

  /**
   The catalog as a table from register number to descriptor; `None` for a
   number the catalog does not list. The source keys its dictionary by the
   decimal text of each number; `Lookup` below is that text-keyed view.
   Registers 1090 and 1223 are bitfields and 1224 is the alarm number; every
   other catalogued register is enumerated.
   */
  function Entry(number: nat): Option<Descriptor> {
    match number
    case 1090 => Some(Descriptor("System Configuration", Bitfield(SystemConfigurationBits)))
    case 1223 => Some(Descriptor("System status", Bitfield(SystemStatusBits)))
    case 1224 => Some(Descriptor("Alarm number", Alarm))
    case _ => EnumeratedEntry(number)
  }

  /** The enumerated registers of the catalog. */
  function EnumeratedEntry(number: nat): (d: Option<Descriptor>)
    ensures d.Some? ==> d.value.kind.Enumerated?
  {
    match number
    case 1001 => Some(Descriptor("Control Unit Run/Stop", Enumerated(StopRun)))
    case 1002 => Some(Descriptor("Control Unit Mode", Enumerated(ControlUnitModes)))
    case 1003 => Some(Descriptor("Control Circuit 1 Run/Stop", Enumerated(StopRun)))
    case 1004 => Some(Descriptor("Control Heat. OTC Circuit 1", Enumerated(HeatingOtc)))
    case 1005 => Some(Descriptor("Control Cool. OTC Circuit 1", Enumerated(CoolingOtc)))
    case 1008 => Some(Descriptor("Control Circuit 1: Eco mode", Enumerated(EcoComfort)))
    case 1011 => Some(Descriptor("Control Circuit 1: Thermostat Available", Enumerated(ThermostatAvailability)))
    case 1014 => Some(Descriptor("Control Circuit 2 Run/Stop", Enumerated(StopRun)))
    case 1015 => Some(Descriptor("Control Heat. OTC Circuit 2", Enumerated(HeatingOtc)))
    case 1016 => Some(Descriptor("Control Cool. OTC Circuit 2", Enumerated(CoolingOtc)))
    case 1019 => Some(Descriptor("Control Circuit 2: Eco mode", Enumerated(EcoComfort)))
    case 1022 => Some(Descriptor("Control Circuit 2: Thermostat Available", Enumerated(ThermostatAvailability)))
    case 1025 => Some(Descriptor("Control DHWT Run/Stop", Enumerated(StopRun)))
    case 1027 => Some(Descriptor("Control DHW Boost", Enumerated(BoostRequest)))
    case 1028 => Some(Descriptor("Control DHW Demand Mode", Enumerated(DemandMode)))
    case 1029 => Some(Descriptor("Control Swimming Pool Run/Stop", Enumerated(StopRun)))
    case 1031 => Some(Descriptor("Control Anti Legionella Run", Enumerated(StopRun)))
    case 1033 => Some(Descriptor("Control Block menu 6", Enumerated(MenuBlock)))
    case 1034 => Some(Descriptor("Control BMS Alarm", Enumerated(BmsAlarmControl)))
    case 1051 => Some(Descriptor("Status Unit Run/Stop", Enumerated(StopRun)))
    case 1052 => Some(Descriptor("Status Unit Mode", Enumerated(StatusUnitModes)))
    case 1053 => Some(Descriptor("Status Circuit 1 Run/Stop", Enumerated(StopRun)))
    case 1054 => Some(Descriptor("Status Heat. OTC Circuit 1", Enumerated(HeatingOtc)))
    case 1055 => Some(Descriptor("Status Cool. OTC Circuit 1", Enumerated(CoolingOtc)))
    case 1058 => Some(Descriptor("Status Circuit 1: Eco mode", Enumerated(EcoComfort)))
    case 1065 => Some(Descriptor("Status Circuit 2 Run/Stop", Enumerated(StopRun)))
    case 1066 => Some(Descriptor("Status Heat. OTC Circuit 2", Enumerated(HeatingOtc)))
    case 1067 => Some(Descriptor("Status Cool. OTC Circuit 2", Enumerated(CoolingOtc)))
    case 1070 => Some(Descriptor("Status Circuit 2: Eco mode", Enumerated(EcoComfort)))
    case 1077 => Some(Descriptor("Status DHWT Run/Stop", Enumerated(StopRun)))
    case 1079 => Some(Descriptor("Control DHW Boost", Enumerated(BoostAvailability)))
    case 1080 => Some(Descriptor("Status DHW Demand Mode", Enumerated(DemandMode)))
    case 1082 => Some(Descriptor("Status Swimming Pool Run/Stop", Enumerated(StopRun)))
    case 1085 => Some(Descriptor("Status Anti Legionella Run", Enumerated(StopRun)))
    case 1087 => Some(Descriptor("Status Block menu 6", Enumerated(MenuBlock)))
    case 1088 => Some(Descriptor("Status BMS Alarm", Enumerated(BmsAlarmStatus)))
    case 1089 => Some(Descriptor("Central Mode", Enumerated(CentralModes)))
    case 1091 => Some(Descriptor("Operation State", Enumerated(OperationStates)))
    case 1095 => Some(Descriptor("H-LINK communication state", Enumerated(HLinkStates)))
    case 1219 => Some(Descriptor("Unit model", Enumerated(UnitModels)))
    case _ => None
  }

  /**
   The source's `register in registers_info` and `registers_info[register]`:
   a register text finds a descriptor exactly when it is the decimal text of
   a catalogued number, so "01001" or " 1001" find nothing.
   */
  function Lookup(register: string): (d: Option<Descriptor>)
    ensures d.Some? <==> exists n :: Entry(n).Some? && Decimal(n) == register
    ensures d.Some? ==> ParseInt(register).Some? && d == Entry(ParseInt(register).value)
  {
    match ParseInt(register)
    case Some(n) =>
      if Entry(n).Some? && Canonical(register) then
        DecimalOfParse(register);
        Entry(n)
      else
        LookupMisses(register);
        None
    case None =>
      LookupMisses(register);
      None
  }

  /** The decimal text of a number looks up that number's entry. */
  lemma LookupDecimal(number: nat)
    ensures Lookup(Decimal(number)) == Entry(number)
  {
    ParseDecimal(number);
    if Entry(number).None? {
      LookupMisses(Decimal(number));
    }
  }

  lemma LookupMisses(register: string)
    requires ParseInt(register).None? || !Canonical(register) || Entry(ParseInt(register).value).None?
    ensures !exists n :: Entry(n).Some? && Decimal(n) == register
  {
    forall n | Entry(n).Some? && Decimal(n) == register
      ensures false
    {
      ParseDecimal(n);
    }
  }

  /** The bits are declared in bit order: the `i`-th declared bit carries the tag "Bit i". */
  predicate PositionalTags(bits: seq<BitSpec>) {
    forall i | 0 <= i < |bits| :: bits[i].tag == "Bit " + Decimal(i)
  }

  lemma ConfigurationTags()
    ensures PositionalTags(SystemConfigurationBits)
  {
    var bits := SystemConfigurationBits;
    forall i | 0 <= i < |bits|
      ensures bits[i].tag == "Bit " + Decimal(i)
    {
      if i >= 10 {
        assert Decimal(i) == Decimal(1) + [DigitChar(i - 10)];
      }
    }
  }

  lemma StatusTags()
    ensures PositionalTags(SystemStatusBits)
  {
  }

  /** Registers 1090 and 1223 are the only bitfield registers. */
  lemma BitfieldRegisters()
    ensures forall number :: Entry(number).Some? && Entry(number).value.kind.Bitfield? <==> number == 1090 || number == 1223
  {
  }

  /**
   Catalog data invariant of both bitfield registers: the declared bits are
   tagged in declaration order, so the position of a bit in the declaration
   is its bit index, and they fit in a 16-bit register.
   */
  lemma BitfieldDeclarations()
    ensures forall number | Entry(number).Some? && Entry(number).value.kind.Bitfield? ::
      var bits := Entry(number).value.kind.bits;
      PositionalTags(bits) && |bits| <= 16
  {
    ConfigurationTags();
    StatusTags();
    BitfieldRegisters();
  }

  /** Register 1224 is the only alarm-number register. */
  lemma SingleAlarmRegister()
    ensures forall number :: Entry(number).Some? && Entry(number).value.kind.Alarm? <==> number == 1224
  {
  }
}
