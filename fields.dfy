/** The field table of `bytesbits2keyvalue` for the three H-link sources:
    which key, category, Home-Assistant unit and decoder each (source, type,
    payload index) has, and the CAT_* / HA* macros that set them. */
module Fields {
  import opened Bytes
  import opened Wrappers
  import opened Text
  import opened Decoders

  // ---------------------------------------------------------------------
  // Categories: the letter written into the key prefix, and maxOutputFilter

  /** The CAT_* macros. */
  datatype Category =
    | Setting | Temp | Measurement | Counter | Pseudo2 | Pseudo
    | Target | DailyStats | Schedule | UnknownCategory

  /** The letter each CAT_* macro writes. */
  function Letter(c: Category): char
  {
    match c
    case Setting => 'S'
    case Temp => 'T'
    case Measurement => 'M'
    case Counter => 'C'
    case Pseudo2 => 'B'
    case Pseudo => 'A'
    case Target => 'D'
    case DailyStats => 'R'
    case Schedule => 'E'
    case UnknownCategory => 'U'
  }

  /** The category letter in the key prefix and the engine's maxOutputFilter. */
  datatype Tag = Tag(letter: char, maxOutputFilter: nat)

  /** What the dispatch starts every call with: category 'U' and maxOutputFilter 9. */
  const InitialTag: Tag := Tag('U', 9)

  /** Applying one CAT_* macro. */
  function ApplyCategory(t: Tag, c: Category): (r: Tag)
  {
    var letter := if c == Pseudo && t.letter == 'B' then 'B' else Letter(c);
    Tag(letter, if c == Temp || c == Measurement then 1 else t.maxOutputFilter)
  }

  /** CAT_TEMP and CAT_MEASUREMENT lower maxOutputFilter to 1 and no other
      macro touches it; CAT_PSEUDO writes 'A' unless the letter is already
      'B'; every other macro writes its own letter. */
  lemma CategoryRules(t: Tag, c: Category)
    ensures ApplyCategory(t, c).maxOutputFilter == if c in {Temp, Measurement} then 1 else t.maxOutputFilter
    ensures c == Pseudo ==> ApplyCategory(t, c).letter == if t.letter == 'B' then 'B' else 'A'
    ensures c != Pseudo ==> ApplyCategory(t, c).letter == Letter(c)
    ensures t.letter == 'B' ==> ApplyCategory(ApplyCategory(t, Pseudo), Pseudo).letter == 'B'
  {
  }

  /** The ten letters are distinct, so the prefix letter names its category. */
  lemma LettersDistinct(c1: Category, c2: Category)
    ensures Letter(c1) == Letter(c2) <==> c1 == c2
  {
  }

  // ---------------------------------------------------------------------
  // Home-Assistant units: the HA* macros set uom and stateclass

  datatype Unit =
    | NoUnit | HaTemp | HaPower | HaFlow | HaKwh | HaHours | HaSeconds
    | HaMilliseconds | HaBytes | HaEvents | HaCurrent | HaFreq | HaPercent

  /** The uom code each macro sets (HACONFIG sets 0). */
  function Uom(u: Unit): (n: nat)
    ensures n <= 12
  {
    match u
    case NoUnit => 0 case HaTemp => 1 case HaPower => 2 case HaFlow => 3
    case HaKwh => 4 case HaHours => 5 case HaSeconds => 6 case HaMilliseconds => 7
    case HaBytes => 8 case HaEvents => 9 case HaCurrent => 10 case HaFreq => 11
    case HaPercent => 12
  }

  /** The stateclass each macro sets: 0 default, 1 measurement, 2 total_increasing. */
  function StateClass(u: Unit): (n: nat)
    ensures n <= 2
  {
    match u
    case HaTemp | HaPower | HaBytes | HaCurrent | HaFreq | HaPercent => 1
    case HaKwh | HaEvents => 2
    case _ => 0
  }

  /** The uom code identifies the unit, and only the counters (kWh, events)
      are totals while the gauges are measurements. */
  lemma UnitCodes(u: Unit, v: Unit)
    ensures Uom(u) == Uom(v) <==> u == v
    ensures StateClass(u) == 2 <==> u in {HaKwh, HaEvents}
    ensures u == NoUnit ==> Uom(u) == 0 && StateClass(u) == 0
  {
  }

  // ---------------------------------------------------------------------
  // Field definitions

  /** One case of the innermost switch on the payload index. */
  datatype Field =
    /** KEY(name); CAT_*; HA*; VALUE_u8 / VALUE_s8. */
    | Number(name: string, category: Option<Category>, unit: Unit, format: Format)
    /** A switch on bitNr: 8 is BITBASIS, a named bit is VALUE_flag8, any
        other bit number is UNKNOWN_BIT. */
    | Bits(names: seq<Option<string>>)
    /** `return 0`: the checksum byte is not reported. */
    | Checksum
    /** UNKNOWN_BYTE, the default of every index switch. */
    | UnknownField

  /** The bit switches have a name (or None) for each of the bits 0..7. */
  predicate WellFormedField(f: Field)
  {
    f.Bits? ==> |f.names| == 8
  }

  /** The source digit SRC() writes into the key prefix. */
  function SourceDigit(src: byte): (d: char)
    ensures '0' <= d <= '9'
  {
    if src == 0x21 then '2'
    else if src == 0x89 then '8'
    else if src == 0x41 then '4'
    else if src == 0x00 then '0'
    else if src == 0x40 then '1'
    else '9'
  }

  /** The category the packet-level switch sets for the known (source, type)
      pairs; None for a source or type the H-link switch returns 0 for. */
  function PacketCategory(src: byte, ptype: byte): Option<Category>
  {
    if src == 0x89 && (ptype == 0x2D || ptype == 0x27) then Some(Measurement)
    else if (src == 0x21 && ptype == 0x12) || (src == 0x41 && ptype == 0x18) then Some(Setting)
    else None
  }

  function Temperature(name: string, format: Format): Field
  {
    Number(name, Some(Temp), HaTemp, format)
  }

  function Measured(name: string, unit: Unit): Field
  {
    Number(name, Some(Measurement), unit, U8)
  }

  function Plain(name: string): Field
  {
    Number(name, None, NoUnit, U8)
  }

  function AllBits(names: seq<string>): (f: Field)
    requires |names| == 8
    ensures WellFormedField(f)
  {
    Bits(seq(8, j requires 0 <= j < 8 => Some(names[j])))
  }

  /** Bits 1..3 named, the rest unknown (the ventilation bytes). */
  function VentilBits(high: string, med: string, low: string): (f: Field)
    ensures WellFormedField(f)
  {
    Bits([None, Some(high), Some(med), Some(low), None, None, None, None])
  }

  /** Source 0x89, type 0x2D. */
  function Field892D(index: nat): Field
  {
    if index == 0x07 then Temperature("IUAirInletTemperature", S8Format)
    else if index == 0x08 then Temperature("IUAirOutletTemperature", S8Format)
    else if index == 0x09 then Temperature("IULiquidPipeTemperature", S8Format)
    else if index == 0x0A then Temperature("IURemoteSensorAirTemperature", S8Format)
    else if index == 0x0B then Temperature("OutdoorAirTemperature", S8Format)
    else if index == 0x0C then Temperature("IUGasPipeTemperature", S8Format)
    else if index == 0x0D then Temperature("OUHeatExchangerTemperature1", S8Format)
    else if index == 0x0E then Temperature("OUHeatExchangerTemperature2", S8Format)
    else if index == 0x0F then Temperature("CompressorTemperature", S8Format)
    else if index == 0x10 then Measured("HighPressure", NoUnit)
    else if index == 0x11 then Measured("LowPressure_x10", NoUnit)
    else if index == 0x12 then Measured("TargetCompressorFrequency", HaFreq)
    else if index == 0x13 then Measured("CompressorFrequency", HaFreq)
    else if index == 0x14 then Measured("IUExpansionValve", HaPercent)
    else if index == 0x15 then Measured("OUExpansionValve", HaPercent)
    else if index == 0x18 then Measured("CompressorCurrent", HaCurrent)
    else if index == 0x21 then
      AllBits(["892D-21-0", "892D-21-1-OUnitOn", "892D-21-2", "892D-21-3-CompressorOn",
               "892D-21-4", "892D-21-5", "892D-21-6", "892D-21-7-OUStarting"])
    else if index == 0x22 then
      AllBits(["892D-22-0", "892D-22-1", "892D-22-2", "892D-22-3",
               "892D-22-4", "892D-22-5", "892D-22-6", "892D-22-7"])
    else if index == 0x29 then Checksum
    else UnknownField
  }

  /** Source 0x89, type 0x27. */
  function Field8927(index: nat): Field
  {
    if index == 0x07 then
      AllBits(["8927-07-0-OUnitOn", "8927-07-1-DEFROST", "8927-07-2", "8927-07-3",
               "8927-07-4", "8927-07-5-VentilMode", "8927-07-6-HeatMode", "8927-07-7"])
    else if index == 0x08 then
      AllBits(["8927-08-0", "8927-08-1", "8927-08-2", "8927-08-3",
               "8927-08-4", "8927-08-5", "8927-08-6", "8927-08-7"])
    else if index == 0x09 then Temperature("TemperatureSetpoint", U8)
    else if index == 0x16 then Plain("8927--16-unsure")
    else if index == 0x1C then
      AllBits(["8927-1C-0", "8927-1C-1-PREHEAT", "8927-1C-2", "8927-1C-3",
               "8927-1C-4", "8927-1C-5", "8927-1C-6", "8927-1C-7"])
    else if index == 0x23 then Checksum
    else UnknownField
  }

  /** Source 0x21, type 0x12. At index 0x09 the HATEMP macro follows the
      returning VALUE_u8 and is never reached, so the unit stays none. */
  function Field2112(index: nat): Field
  {
    if index == 0x07 then
      AllBits(["ACMode0UnitOn", "ACMode1UnitOn", "ACMode2", "ACMode3",
               "ACMode4", "ACMode5Ventil", "ACMode6Heat", "ACMode7"])
    else if index == 0x08 then VentilBits("VentilHighOn", "VentilMedOn", "VentilLowOn")
    else if index == 0x09 then Number("TemperatureSetpoint", Some(Temp), NoUnit, U8)
    else if index == 0x0B then Plain("Unknown-2112--0B")
    else if index == 0x0E then Checksum
    else UnknownField
  }

  /** The generated keys Unknown-AZ00 .. Unknown-AZ13 of source 0x41. */
  function AirzoneName(index: nat): string
    requires index < 256
  {
    "Unknown-AZ" + Hex2(index as byte)
  }

  /** Source 0x41, type 0x18. */
  function Field4118(index: nat): Field
  {
    if index <= 0x06 then Plain(AirzoneName(index))
    else if index == 0x07 then
      AllBits(["SetACMode0UnitOn", "SetACMode1UnitOn", "SetACMode2", "SetACMode3",
               "SetACMode4", "SetACMode5Ventil", "SetACMode6Heat", "SetACMode7"])
    else if index == 0x08 then VentilBits("SetVentilHighOn", "SetVentilMedOn", "SetVentilLowOn")
    else if index == 0x09 then Temperature("SetTemperatureSetpoint", U8)
    else if 0x0A <= index <= 0x13 then Plain(AirzoneName(index))
    else if index == 0x14 then Checksum
    else UnknownField
  }

  /** The field of a known (source, type) pair at a payload index. */
  function FieldAt(src: byte, ptype: byte, index: nat): (f: Field)
    requires PacketCategory(src, ptype).Some?
    ensures WellFormedField(f)
  {
    if src == 0x89 && ptype == 0x2D then Field892D(index)
    else if src == 0x89 then Field8927(index)
    else if src == 0x21 then Field2112(index)
    else Field4118(index)
  }

  /** Only one-byte decoders appear in the H-link table: every number reads
      payload[index] alone. */
  lemma NumbersAreOneByte(src: byte, ptype: byte, index: nat)
    requires PacketCategory(src, ptype).Some?
    ensures FieldAt(src, ptype, index).Number? ==>
      FieldAt(src, ptype, index).format in {U8, S8Format} && Width(FieldAt(src, ptype, index).format) == 1
  {
    var f := FieldAt(src, ptype, index);
    if src == 0x89 && ptype == 0x2D {
      assert f == Field892D(index);
    } else if src == 0x89 {
      assert f == Field8927(index);
    } else if src == 0x21 {
      assert f == Field2112(index);
    } else {
      assert f == Field4118(index);
    }
  }

  /** The checksum positions: the last byte of each H-link packet
      (0x892D at 0x29, 0x8927 at 0x23, 0x2112 at 0x0E, 0x4118 at 0x14), and no other index. */
  lemma ChecksumPositions(src: byte, ptype: byte, index: nat)
    requires PacketCategory(src, ptype).Some?
    ensures FieldAt(src, ptype, index) == Checksum <==>
      ((src, ptype, index) in {(0x89, 0x2D, 0x29), (0x89, 0x27, 0x23), (0x21, 0x12, 0x0E), (0x41, 0x18, 0x14)})
  {
  }

  /** The temperatures of packet 0x892D are the signed bytes 0x07..0x0F, in
      degrees Celsius, under category T. */
  lemma TemperaturesOf892D(index: nat)
    requires 0x07 <= index <= 0x0F
    ensures Field892D(index).Number?
    ensures Field892D(index).category == Some(Temp) && Field892D(index).unit == HaTemp
    ensures Field892D(index).format == S8Format
  {
  }

  /** Every field whose category is T has a numeric unit of degrees, except the
      2112 setpoint whose HATEMP is dead code. */
  lemma TemperatureUnits(src: byte, ptype: byte, index: nat)
    requires PacketCategory(src, ptype).Some?
    requires FieldAt(src, ptype, index).Number? && FieldAt(src, ptype, index).category == Some(Temp)
    ensures FieldAt(src, ptype, index).unit == (if src == 0x21 then NoUnit else HaTemp)
  {
  }

  /** The payload index of the checksum byte, the last of each H-link packet. */
  function ChecksumIndex(src: byte, ptype: byte): (i: nat)
    requires PacketCategory(src, ptype).Some?
    ensures FieldAt(src, ptype, i) == Checksum
  {
    if src == 0x89 && ptype == 0x2D then 0x29
    else if src == 0x89 then 0x23
    else if src == 0x21 then 0x0E
    else 0x14
  }

  /** The end of each packet table: every index beyond the checksum is unknown. */
  lemma BeyondChecksumUnknown(src: byte, ptype: byte, index: nat)
    requires PacketCategory(src, ptype).Some?
    requires index > ChecksumIndex(src, ptype)
    ensures FieldAt(src, ptype, index) == UnknownField
  {
  }
}
