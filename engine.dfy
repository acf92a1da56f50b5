/** The conversion engine as values: each value_* function as "gate on the
    cache, then produce a value", and `bytesbits2keyvalue` as a walk over the
    field table. The class in module Converter runs the same steps in place. */
module Engine {
  import opened Bytes
  import opened Wrappers
  import opened Text
  import opened Layout
  import opened Cache
  import opened Decoders
  import opened Fields

  /** The globals the engine reads and writes: the observation cache, the
      bridge settings outputFilter / outputMode / outputUnknown, and its own
      maxOutputFilter, RSSIcnt, uom and stateclass. */
  datatype Globals = Globals(
    cache: CacheState,
    outputFilter: nat,
    maxOutputFilter: nat,
    outputMode: bv32,
    outputUnknown: bool,
    rssiCnt: nat,
    uom: nat,
    stateClass: nat)

  predicate GlobalsOk(g: Globals)
  {
    WellFormed(g.cache) && g.rssiCnt < 256
  }

  function DialOf(g: Globals): Dial
  {
    Dial(g.outputFilter, g.maxOutputFilter, g.outputMode)
  }

  /** One call: the globals after it, the return code, what it wrote to
      mqtt_key and mqtt_value (None: left as it was), and whether it
      published a discovery message. */
  datatype Reply = Reply(globals: Globals, code: nat, key: Option<string>, value: Option<Value>, announce: bool)

  /** The globals after an observation that wrote the given cache. */
  function WithCache(g: Globals, c: CacheState): Globals
  {
    g.(cache := c)
  }

  // ---------------------------------------------------------------------
  // The value_* functions

  /** What a value_* wrapper needs of its field: either all Width(f) bytes
      lie inside the payload, or newPayloadBytesVal refuses the field
      (mapped type, admitted index, too few bytes before it) before any
      byte is read. */
  predicate WidthFits(f: Format, src: byte, ptype: byte, index: nat)
  {
    Width(f) <= index + 1 || (ByteAddress(src, ptype).Some? && Admits(ByteAddress(src, ptype).value, index))
  }

  /** value_u8hex .. value_f8s8: gate on the last Width(f) bytes (saving
      them), then print the decoded value. A field that would start before
      the payload is refused with code 0 when its type is mapped and its
      index admitted; otherwise the bytes must be there to decode. */
  function ValueFormat(g: Globals, f: Format, src: byte, ptype: byte, index: nat, p: seq<byte>, haConfig: bool): (r: Reply)
    requires GlobalsOk(g) && index < |p| && WidthFits(f, src, ptype, index)
    ensures GlobalsOk(r.globals) && r.globals.(cache := g.cache) == g
    ensures r.code in {0, 1}
  {
    var o := ObserveBytes(g.cache, src, ptype, index, p, haConfig, Width(f), true, DialOf(g));
    if o.reported then Reply(WithCache(g, o.cache), 1, None, Some(DecodeValue(f, p, index)), o.announce)
    else Reply(WithCache(g, o.cache), 0, None, None, o.announce)
  }

  /** The returned code is 1 exactly when the cache reports the bytes, and
      then the value is the decoded one; only the cache changes. */
  lemma ValueFormatGate(g: Globals, f: Format, src: byte, ptype: byte, index: nat, p: seq<byte>, haConfig: bool)
    requires GlobalsOk(g) && index < |p| && WidthFits(f, src, ptype, index)
    ensures var r := ValueFormat(g, f, src, ptype, index, p, haConfig);
      var o := ObserveBytes(g.cache, src, ptype, index, p, haConfig, Width(f), true, DialOf(g));
      && r.code in {0, 1}
      && (r.code == 1 <==> o.reported)
      && (r.code == 1 ==> r.value == Some(DecodeValue(f, p, index)))
      && (r.code == 0 ==> r.value.None?)
      && r.globals.(cache := g.cache) == g
      && r.key.None?
      && (index + 1 < Width(f) ==> r == Reply(g, 0, None, None, false))
  {
  }

  /** The uptime mask as the loop leaves it. */
  function UptimePayload(p: seq<byte>, index: nat): (q: seq<byte>)
    requires 3 <= index < |p|
    ensures |q| == |p| && q[index] == UptimeLowByte(p, index)
    ensures forall k :: 0 <= k < |p| && k != index ==> q[k] == p[k]
  {
    p[index := UptimeLowByte(p, index)]
  }

  /** value_u32_LE_uptime: clear the low bits of payload[index] below the
      magnitude of payload[index - 1] (in the caller's payload, which then
      reads UptimePayload(p, index)), then gate and print as u32. */
  function ValueUptime(g: Globals, src: byte, ptype: byte, index: nat, p: seq<byte>, haConfig: bool): (r: Reply)
    requires GlobalsOk(g) && 3 <= index < |p|
    ensures GlobalsOk(r.globals)
  {
    ValueFormat(g, U32, src, ptype, index, UptimePayload(p, index), haConfig)
  }

  /** The uptime reading is gated on the masked payload and, when reported,
      is the little-endian u32 of its last four bytes; the three higher bytes
      are read as they were. */
  lemma ValueUptimeReads(g: Globals, src: byte, ptype: byte, index: nat, p: seq<byte>, haConfig: bool)
    requires GlobalsOk(g) && 3 <= index < |p|
    ensures var r := ValueUptime(g, src, ptype, index, p, haConfig);
      var q := UptimePayload(p, index);
      && (r.code == 1 <==> ObserveBytes(g.cache, src, ptype, index, q, haConfig, 4, true, DialOf(g)).reported)
      && (r.code == 1 ==> r.value == Some(Unsigned(p[index - 3] as nat * 16777216 + p[index - 2] as nat * 65536
                                                   + p[index - 1] as nat * 256 + UptimeLowByte(p, index) as nat)))
  {
    var q := UptimePayload(p, index);
    ValueFormatGate(g, U32, src, ptype, index, q, haConfig);
  }

  /** RSSIcnt after one more call: the byte counter wraps from 255 to 0. */
  function NextRssi(n: nat): (m: nat)
    requires n < 256
    ensures m < 256 && (m == 0 <==> n == 255)
  {
    (n + 1) % 256
  }

  /** value_s8_ratelimited: count the call; consult the cache only when the
      counter has wrapped to 0. */
  function ValueS8RateLimited(g: Globals, src: byte, ptype: byte, index: nat, p: seq<byte>, haConfig: bool): (r: Reply)
    requires GlobalsOk(g) && index < |p|
    ensures GlobalsOk(r.globals)
  {
    var g1 := g.(rssiCnt := NextRssi(g.rssiCnt));
    if g1.rssiCnt != 0 then Reply(g1, 0, None, None, false)
    else ValueFormat(g1, S8Format, src, ptype, index, p, haConfig)
  }

  /** RSSIcnt after k calls of value_s8_ratelimited. */
  function RssiAfter(n: nat, k: nat): (m: nat)
    requires n < 256
    ensures m < 256
  {
    if k == 0 then n else NextRssi(RssiAfter(n, k - 1))
  }

  /** k calls advance the counter by k modulo 256. */
  lemma {:induction false} RssiAfterClosed(n: nat, k: nat)
    requires n < 256
    ensures RssiAfter(n, k) == (n + k) % 256
  {
    if k > 0 {
      RssiAfterClosed(n, k - 1);
      WrapSucc(n + k - 1);
    }
  }

  lemma WrapSucc(x: nat)
    ensures (x % 256 + 1) % 256 == (x + 1) % 256
  {
    var q, r := x / 256, x % 256;
    assert x == 256 * q + r;
    if r < 255 {
      assert x + 1 == 256 * q + (r + 1);
    } else {
      assert x + 1 == 256 * (q + 1);
    }
  }

  /** From power-up (RSSIcnt 0xFF) the k-th call consults the cache exactly
      when k % 256 == 1: the first call and then every 256th. */
  lemma RateLimitPeriod(k: nat)
    requires k >= 1
    ensures RssiAfter(0xFF, k) == 0 <==> k % 256 == 1
  {
    RssiAfterClosed(0xFF, k);
  }

  /** A rate-limited call advances the counter; unless it wrapped to 0 it
      returns 0 and leaves every other global alone; when it wrapped it is
      value_s8 on the advanced globals. */
  lemma RateLimitedGate(g: Globals, src: byte, ptype: byte, index: nat, p: seq<byte>, haConfig: bool)
    requires GlobalsOk(g) && index < |p|
    ensures var r := ValueS8RateLimited(g, src, ptype, index, p, haConfig);
      var g1 := g.(rssiCnt := NextRssi(g.rssiCnt));
      && r.globals.rssiCnt == NextRssi(g.rssiCnt)
      && (NextRssi(g.rssiCnt) != 0 ==> r.code == 0 && r.globals == g1 && !r.announce && r.value.None?)
      && (r.code == 1 <==> NextRssi(g.rssiCnt) == 0 && ObserveBytes(g.cache, src, ptype, index, p, haConfig, 1, true, DialOf(g)).reported)
      && (r.code == 1 ==> r.value == Some(Signed(S8(p[index]))))
  {
    var g1 := g.(rssiCnt := NextRssi(g.rssiCnt));
    if NextRssi(g.rssiCnt) == 0 {
      ValueFormatGate(g1, S8Format, src, ptype, index, p, haConfig);
    }
  }

  /** value_flag8: gate on the bit, then print it. */
  function ValueFlag8(g: Globals, src: byte, ptype: byte, index: nat, p: seq<byte>, haConfig: bool, bitNr: byte): (r: Reply)
    requires GlobalsOk(g) && index < |p|
    ensures GlobalsOk(r.globals) && r.globals.(cache := g.cache) == g
    ensures r.code in {0, 1}
  {
    var o := ObserveBit(g.cache, src, ptype, index, p, haConfig, bitNr, DialOf(g));
    if o.reported then Reply(WithCache(g, o.cache), 1, None, Some(Signed(Flag8(p[index], bitNr))), o.announce)
    else Reply(WithCache(g, o.cache), 0, None, None, o.announce)
  }

  /** unknownBit: nothing at all unless outputUnknown; then gate on the bit
      and write the generated key and the bit. */
  function UnknownBit(g: Globals, src: byte, ptype: byte, index: nat, p: seq<byte>, haConfig: bool, bitNr: byte): (r: Reply)
    requires GlobalsOk(g) && index < |p|
    ensures GlobalsOk(r.globals) && r.globals.(cache := g.cache) == g
    ensures r.code in {0, 1}
  {
    if !g.outputUnknown then Reply(g, 0, None, None, false)
    else
      var o := ObserveBit(g.cache, src, ptype, index, p, haConfig, bitNr, DialOf(g));
      if o.reported then
        Reply(WithCache(g, o.cache), 1, Some(UnknownBitKey(src, ptype, index, bitNr as nat)), Some(Signed(Flag8(p[index], bitNr))), o.announce)
      else Reply(WithCache(g, o.cache), 0, None, None, o.announce)
  }

  /** unknownByte: nothing at all unless outputUnknown; then gate on the
      byte and write the generated key and the byte in hex. */
  function UnknownByte(g: Globals, src: byte, ptype: byte, index: nat, p: seq<byte>, haConfig: bool): (r: Reply)
    requires GlobalsOk(g) && index < |p|
    ensures GlobalsOk(r.globals) && r.globals.(cache := g.cache) == g
    ensures r.code in {0, 1}
  {
    if !g.outputUnknown then Reply(g, 0, None, None, false)
    else
      var o := ObserveBytes(g.cache, src, ptype, index, p, haConfig, 1, true, DialOf(g));
      if o.reported then
        Reply(WithCache(g, o.cache), 1, Some(UnknownByteKey(src, ptype, index)), Some(Hex([p[index]])), o.announce)
      else Reply(WithCache(g, o.cache), 0, None, None, o.announce)
  }

  /** With outputUnknown off, unknownByte and unknownBit return 0, write
      nothing and leave every global as it was. */
  lemma UnknownSilent(g: Globals, src: byte, ptype: byte, index: nat, p: seq<byte>, haConfig: bool, bitNr: byte)
    requires GlobalsOk(g) && index < |p| && !g.outputUnknown
    ensures UnknownByte(g, src, ptype, index, p, haConfig) == Reply(g, 0, None, None, false)
    ensures UnknownBit(g, src, ptype, index, p, haConfig, bitNr) == Reply(g, 0, None, None, false)
  {
  }

  /** With outputUnknown on, an unknown byte behaves like value_u8hex except
      that it also writes its generated key. */
  lemma UnknownByteIsHex(g: Globals, src: byte, ptype: byte, index: nat, p: seq<byte>, haConfig: bool)
    requires GlobalsOk(g) && index < |p| && g.outputUnknown
    ensures var r := UnknownByte(g, src, ptype, index, p, haConfig);
      var h := ValueFormat(g, U8Hex, src, ptype, index, p, haConfig);
      && r.globals == h.globals && r.code == h.code && r.value == h.value && r.announce == h.announce
      && (r.code == 1 <==> r.key == Some(UnknownByteKey(src, ptype, index)))
  {
    assert p[index + 1 - 1 .. index + 1] == [p[index]];
  }

  /** value_trg: the label for an empty payload, always returned. */
  function ValueTrg(g: Globals, src: byte, ptype: byte): (r: Reply)
    ensures r.code == 1 && r.globals == g && r.value.Some? && r.value.value.Label?
    ensures |r.value.value.text| == 20
    ensures r.value.value.text[..14] == "Empty_Payload_" && r.value.value.text[16..18] == "00"
    ensures r.value.value.text[14..16] == Hex2(src) && r.value.value.text[18..20] == Hex2(ptype)
  {
    Reply(g, 1, None, Some(HeaderLabel(src, ptype)), false)
  }

  /** 0 when changes are hidden, 1 otherwise: what value_f, value_s and
      value_timeString return once they have written their value. */
  function FilterCode(g: Globals): (n: nat)
    ensures n in {0, 1} && (n == 1 <==> g.outputFilter <= g.maxOutputFilter)
  {
    if g.outputFilter > g.maxOutputFilter then 0 else 1
  }

  /** value_f and value_s: with a length, gate on that many bytes and stop
      when the cache reports nothing; without one, observe one byte and
      ignore the verdict. Then write v and return FilterCode. */
  function ValueComputed(g: Globals, src: byte, ptype: byte, index: nat, p: seq<byte>, haConfig: bool, v: Value, length: nat): (r: Reply)
    requires GlobalsOk(g) && index < |p|
    ensures GlobalsOk(r.globals)
  {
    var o := ObserveBytes(g.cache, src, ptype, index, p, haConfig, if length == 0 then 1 else length, true, DialOf(g));
    if length != 0 && !o.reported then Reply(WithCache(g, o.cache), 0, None, None, o.announce)
    else Reply(WithCache(g, o.cache), FilterCode(g), None, Some(v), o.announce)
  }

  /** value_f(v, length): v is the caller's computed real. */
  function ValueF(g: Globals, src: byte, ptype: byte, index: nat, p: seq<byte>, haConfig: bool, v: real, length: nat): (r: Reply)
    requires GlobalsOk(g) && index < |p|
    ensures GlobalsOk(r.globals)
  {
    ValueComputed(g, src, ptype, index, p, haConfig, Fixed(v), length)
  }

  /** value_s(v, length): v is the caller's computed integer. */
  function ValueS(g: Globals, src: byte, ptype: byte, index: nat, p: seq<byte>, haConfig: bool, v: int, length: nat): (r: Reply)
    requires GlobalsOk(g) && index < |p|
    ensures GlobalsOk(r.globals)
  {
    ValueComputed(g, src, ptype, index, p, haConfig, Signed(v), length)
  }

  /** Without a length the cache verdict is ignored: the value is always
      written and the code depends only on the filter. With a length the
      value is written exactly when the cache reports the bytes. */
  lemma ValueComputedCodes(g: Globals, src: byte, ptype: byte, index: nat, p: seq<byte>, haConfig: bool, v: Value, length: nat)
    requires GlobalsOk(g) && index < |p|
    ensures var r := ValueComputed(g, src, ptype, index, p, haConfig, v, length);
      && (length == 0 ==> r.value == Some(v) && r.code == FilterCode(g))
      && (length != 0 ==> (r.value == Some(v) <==> ObserveBytes(g.cache, src, ptype, index, p, haConfig, length, true, DialOf(g)).reported))
      && (r.code == 1 ==> g.outputFilter <= g.maxOutputFilter && r.value == Some(v))
  {
  }

  /** value_timeString: quote the caller's string; no cache. */
  function ValueTimeString(g: Globals, s: string): (r: Reply)
    ensures r.globals == g && r.value == Some(Label(s)) && r.code == FilterCode(g)
  {
    Reply(g, FilterCode(g), None, Some(Label(s)), false)
  }

  /** BITBASIS: observe the byte without saving it; 8 when it is new. */
  function BitBasis(g: Globals, src: byte, ptype: byte, index: nat, p: seq<byte>, haConfig: bool): (r: Reply)
    requires GlobalsOk(g) && index < |p|
    ensures GlobalsOk(r.globals) && r.globals.(cache := g.cache) == g
    ensures r.code in {0, 8}
  {
    var o := ObserveBytes(g.cache, src, ptype, index, p, haConfig, 1, false, DialOf(g));
    Reply(WithCache(g, o.cache), if o.reported then 8 else 0, None, None, o.announce)
  }

  /** BITBASIS returns 0 or 8, changes no global and publishes nothing. */
  lemma BitBasisReadOnly(g: Globals, src: byte, ptype: byte, index: nat, p: seq<byte>, haConfig: bool)
    requires GlobalsOk(g) && index < |p|
    ensures var r := BitBasis(g, src, ptype, index, p, haConfig);
      r.code in {0, 8} && r.globals == g && !r.announce
  {
    ObserveWithoutSave(g.cache, src, ptype, index, p, haConfig, 1, DialOf(g));
  }

  // ---------------------------------------------------------------------
  // bytesbits2keyvalue

  /** The result of one dispatch: the reply of the value function it
      ended in, the category letter and source digit it wrote into the key
      prefix. */
  datatype Conversion = Conversion(reply: Reply, letter: char, digit: char)

  /** The field's category letter and maxOutputFilter after the packet-level
      and field-level CAT_* macros. */
  function FieldTag(packet: Category, f: Field): (t: Tag)
  {
    var t := ApplyCategory(InitialTag, packet);
    if f.Number? && f.category.Some? then ApplyCategory(t, f.category.value) else t
  }

  /** The conversion of one field of a known packet: g1 already carries the
      field's maxOutputFilter and the reset uom and stateclass. */
  function ConvertField(g1: Globals, src: byte, ptype: byte, index: nat, p: seq<byte>, bitNr: byte, f: Field, t: Tag): (r: Conversion)
    requires GlobalsOk(g1) && index < |p| && WellFormedField(f)
    requires f.Number? ==> Width(f.format) == 1
    ensures GlobalsOk(r.reply.globals)
  {
    var digit := SourceDigit(src);
    match f
    case Checksum => Conversion(Reply(g1, 0, None, None, false), t.letter, digit)
    case UnknownField => Conversion(UnknownByte(g1, src, ptype, index, p, true), 'U', digit)
    case Number(name, _, unit, format) =>
      var g2 := g1.(uom := Uom(unit), stateClass := StateClass(unit));
      Conversion(ValueFormat(g2, format, src, ptype, index, p, true).(key := Some(name)), t.letter, digit)
    case Bits(names) =>
      if bitNr == 8 then Conversion(BitBasis(g1, src, ptype, index, p, true), t.letter, digit)
      else if bitNr < 8 && names[bitNr].Some? then
        Conversion(ValueFlag8(g1, src, ptype, index, p, true, bitNr).(key := Some(names[bitNr].value)), t.letter, digit)
      else Conversion(UnknownBit(g1, src, ptype, index, p, true, bitNr), 'U', digit)
  }

  /** bytesbits2keyvalue(src, type, index, payload, bitNr). haConfig is
      always 1 (HACONFIG), so every first sighting announces. */
  function Dispatch(g: Globals, src: byte, ptype: byte, index: nat, p: seq<byte>, bitNr: byte): (r: Conversion)
    requires GlobalsOk(g) && index < |p|
    ensures GlobalsOk(r.reply.globals)
  {
    var g0 := g.(maxOutputFilter := 9, uom := 0, stateClass := 0);
    match PacketCategory(src, ptype)
    case None => Conversion(Reply(g0, 0, None, None, false), 'U', SourceDigit(src))
    case Some(packet) =>
      var f := FieldAt(src, ptype, index);
      var t := FieldTag(packet, f);
      NumbersAreOneByte(src, ptype, index);
      ConvertField(g0.(maxOutputFilter := t.maxOutputFilter), src, ptype, index, p, bitNr, f, t)
  }

  /** bytes2keyvalue: the dispatch for the whole byte (bitNr 8). */
  function BytesToKeyValue(g: Globals, src: byte, ptype: byte, index: nat, p: seq<byte>): (r: Conversion)
    requires GlobalsOk(g) && index < |p|
    ensures GlobalsOk(r.reply.globals)
  {
    Dispatch(g, src, ptype, index, p, 8)
  }

  /** The return codes of the H-link dispatch are 0, 1 and 8: 9
      (TERMINATEJSON) never occurs, and 8 only for bitNr 8 on a bit field. */
  lemma DispatchCodes(g: Globals, src: byte, ptype: byte, index: nat, p: seq<byte>, bitNr: byte)
    requires GlobalsOk(g) && index < |p|
    ensures var r := Dispatch(g, src, ptype, index, p, bitNr);
      && r.reply.code in {0, 1, 8}
      && (r.reply.code == 8 ==> bitNr == 8 && FieldAt(src, ptype, index).Bits?)
  {
    var g0 := g.(maxOutputFilter := 9, uom := 0, stateClass := 0);
    match PacketCategory(src, ptype)
    case None =>
    case Some(packet) =>
      var f := FieldAt(src, ptype, index);
      NumbersAreOneByte(src, ptype, index);
      ConvertFieldCodes(g0.(maxOutputFilter := FieldTag(packet, f).maxOutputFilter), src, ptype, index, p, bitNr, f, FieldTag(packet, f));
  }

  /** A field conversion returns 0, 1 or 8, and 8 only for BITBASIS. */
  lemma ConvertFieldCodes(g1: Globals, src: byte, ptype: byte, index: nat, p: seq<byte>, bitNr: byte, f: Field, t: Tag)
    requires GlobalsOk(g1) && index < |p| && WellFormedField(f)
    requires f.Number? ==> Width(f.format) == 1
    ensures var r := ConvertField(g1, src, ptype, index, p, bitNr, f, t).reply;
      r.code in {0, 1, 8} && (r.code == 8 ==> bitNr == 8 && f.Bits?)
  {
  }

  /** A field conversion keeps maxOutputFilter, and sets uom and stateclass
      from the unit of a number field while leaving them alone otherwise. */
  lemma ConvertFieldGlobals(g1: Globals, src: byte, ptype: byte, index: nat, p: seq<byte>, bitNr: byte, f: Field, t: Tag)
    requires GlobalsOk(g1) && index < |p| && WellFormedField(f)
    requires f.Number? ==> Width(f.format) == 1
    ensures var r := ConvertField(g1, src, ptype, index, p, bitNr, f, t).reply.globals;
      && r.maxOutputFilter == g1.maxOutputFilter
      && (f.Number? ==> r.uom == Uom(f.unit) && r.stateClass == StateClass(f.unit))
      && (!f.Number? ==> r.uom == g1.uom && r.stateClass == g1.stateClass)
  {
  }

  /** After the packet's and the field's CAT_* macros, maxOutputFilter is 1
      exactly when one of them is CAT_TEMP or CAT_MEASUREMENT. */
  lemma FieldTagFilter(packet: Category, f: Field)
    ensures var t := FieldTag(packet, f);
      && t.maxOutputFilter in {1, 9}
      && (t.maxOutputFilter == 1 <==>
           (packet in {Temp, Measurement} || (f.Number? && f.category.Some? && f.category.value in {Temp, Measurement})))
  {
    CategoryRules(InitialTag, packet);
    if f.Number? && f.category.Some? {
      CategoryRules(ApplyCategory(InitialTag, packet), f.category.value);
    }
  }

  /** Every call resets maxOutputFilter to 9, and it is 1 after the call
      exactly for the measurement packets of source 0x89 and for
      temperature and measurement fields; it always resets uom and
      stateclass before the field's HA* macro. */
  lemma DispatchFilterRule(g: Globals, src: byte, ptype: byte, index: nat, p: seq<byte>, bitNr: byte)
    requires GlobalsOk(g) && index < |p|
    ensures var r := Dispatch(g, src, ptype, index, p, bitNr).reply.globals;
      var known := PacketCategory(src, ptype).Some?;
      var f := if known then FieldAt(src, ptype, index) else UnknownField;
      && r.maxOutputFilter in {1, 9}
      && (r.maxOutputFilter == 1 <==>
           (known && (src == 0x89 || (f.Number? && f.category.Some? && f.category.value in {Temp, Measurement}))))
      && (f.Number? ==> r.uom == Uom(f.unit) && r.stateClass == StateClass(f.unit))
      && (!f.Number? ==> r.uom == 0 && r.stateClass == 0)
  {
    if PacketCategory(src, ptype).Some? {
      var f := FieldAt(src, ptype, index);
      var t := FieldTag(PacketCategory(src, ptype).value, f);
      FieldTagFilter(PacketCategory(src, ptype).value, f);
      NumbersAreOneByte(src, ptype, index);
      ConvertFieldGlobals(g.(maxOutputFilter := t.maxOutputFilter, uom := 0, stateClass := 0), src, ptype, index, p, bitNr, f, t);
    }
  }

  /** Unknown sources, unknown types of known sources and the checksum bytes
      return 0 and write no key, value or cache byte. */
  lemma DispatchIgnores(g: Globals, src: byte, ptype: byte, index: nat, p: seq<byte>, bitNr: byte)
    requires GlobalsOk(g) && index < |p|
    requires PacketCategory(src, ptype).None? || FieldAt(src, ptype, index) == Checksum
    ensures var r := Dispatch(g, src, ptype, index, p, bitNr).reply;
      r.code == 0 && r.key.None? && r.value.None? && r.globals.cache == g.cache && !r.announce
  {
  }

  /** The cache region of each H-link packet holds exactly its payload up to
      and including the checksum, so every field the table knows has a slot. */
  lemma PacketRegions(src: byte, ptype: byte, index: nat)
    requires PacketCategory(src, ptype).Some?
    ensures ByteAddress(src, ptype).Some? && Nr(ByteAddress(src, ptype).value) == ChecksumIndex(src, ptype) + 1
    ensures FieldAt(src, ptype, index) != UnknownField ==> Admits(ByteAddress(src, ptype).value, index)
  {
    if index > ChecksumIndex(src, ptype) {
      BeyondChecksumUnknown(src, ptype, index);
    }
  }

  /** A field conversion of an H-link packet writes at most the cache slot
      of its own byte. */
  lemma ConvertFieldFrame(g1: Globals, src: byte, ptype: byte, index: nat, p: seq<byte>, bitNr: byte, f: Field, t: Tag)
    requires GlobalsOk(g1) && index < |p| && WellFormedField(f)
    requires f.Number? ==> Width(f.format) == 1
    requires ptype in {0x12, 0x18, 0x27, 0x2D}
    ensures ByteAddress(src, ptype).Some?
    ensures var r := ConvertField(g1, src, ptype, index, p, bitNr, f, t).reply.globals.cache;
      var a := ByteAddress(src, ptype).value;
      AgreeOutside(g1.cache, r, Start(a) + index, Start(a) + index + 1)
  {
    var d := DialOf(g1);
    var r := ConvertField(g1, src, ptype, index, p, bitNr, f, t).reply.globals.cache;
    var a := ByteAddress(src, ptype).value;
    match f
    case Checksum =>
      AgreeOutsideSame(g1.cache, Start(a) + index, Start(a) + index + 1);
    case UnknownField =>
      if g1.outputUnknown {
        assert r == ObserveBytes(g1.cache, src, ptype, index, p, true, 1, true, d).cache;
        ObserveBytesFrame(g1.cache, src, ptype, index, p, true, 1, true, d);
      } else {
        AgreeOutsideSame(g1.cache, Start(a) + index, Start(a) + index + 1);
      }
    case Number(name, _, unit, format) =>
      var g2 := g1.(uom := Uom(unit), stateClass := StateClass(unit));
      assert r == ObserveBytes(g1.cache, src, ptype, index, p, true, 1, true, DialOf(g2)).cache;
      ObserveBytesFrame(g1.cache, src, ptype, index, p, true, 1, true, DialOf(g2));
    case Bits(names) =>
      ConvertBitsKeepsGlobals(g1, src, ptype, index, p, bitNr, names, t);
      AgreeOutsideSame(g1.cache, Start(a) + index, Start(a) + index + 1);
  }

  /** A bit field of an H-link packet leaves every global as it was and
      announces nothing, whatever bitNr: BITBASIS does not save and the
      bit path has no column for these packet types. */
  lemma ConvertBitsKeepsGlobals(g1: Globals, src: byte, ptype: byte, index: nat, p: seq<byte>, bitNr: byte, names: seq<Option<string>>, t: Tag)
    requires GlobalsOk(g1) && index < |p| && WellFormedField(Bits(names))
    requires ptype in {0x12, 0x18, 0x27, 0x2D}
    ensures var r := ConvertField(g1, src, ptype, index, p, bitNr, Bits(names), t).reply;
      r.globals == g1 && !r.announce
  {
    var d := DialOf(g1);
    var r := ConvertField(g1, src, ptype, index, p, bitNr, Bits(names), t).reply;
    if bitNr == 8 {
      assert r == BitBasis(g1, src, ptype, index, p, true);
      ObserveWithoutSave(g1.cache, src, ptype, index, p, true, 1, d);
    } else if bitNr < 8 && names[bitNr].Some? {
      assert r == ValueFlag8(g1, src, ptype, index, p, true, bitNr).(key := Some(names[bitNr].value));
      HLinkBitsNeverCached(g1.cache, src, ptype, index, p, true, bitNr, d);
    } else {
      assert r == UnknownBit(g1, src, ptype, index, p, true, bitNr);
      HLinkBitsNeverCached(g1.cache, src, ptype, index, p, true, bitNr, d);
    }
  }

  /** One call of bytesbits2keyvalue writes at most the cache slot of
      payload[index]: an unknown packet none at all, so no other parameter's
      change detection is disturbed. */
  lemma DispatchFrame(g: Globals, src: byte, ptype: byte, index: nat, p: seq<byte>, bitNr: byte)
    requires GlobalsOk(g) && index < |p|
    ensures var r := Dispatch(g, src, ptype, index, p, bitNr).reply.globals.cache;
      && (PacketCategory(src, ptype).None? ==> r == g.cache)
      && (PacketCategory(src, ptype).Some? ==>
            ByteAddress(src, ptype).Some? &&
            AgreeOutside(g.cache, r, Start(ByteAddress(src, ptype).value) + index, Start(ByteAddress(src, ptype).value) + index + 1))
  {
    if PacketCategory(src, ptype).Some? {
      var f := FieldAt(src, ptype, index);
      var t := FieldTag(PacketCategory(src, ptype).value, f);
      NumbersAreOneByte(src, ptype, index);
      ConvertFieldFrame(g.(maxOutputFilter := t.maxOutputFilter, uom := 0, stateClass := 0), src, ptype, index, p, bitNr, f, t);
    }
  }

  /** A bit field of an H-link packet: bitNr 8 (BITBASIS) never saves the
      byte and returns 8 while its slot is unseen; a named bit is reported on
      every call with its key and value; nothing is written to the cache. */
  lemma ConvertBits(g1: Globals, src: byte, ptype: byte, index: nat, p: seq<byte>, bitNr: byte, names: seq<Option<string>>, t: Tag)
    requires GlobalsOk(g1) && index < |p| && WellFormedField(Bits(names))
    requires ptype in {0x12, 0x18, 0x27, 0x2D}
    requires ByteAddress(src, ptype).Some? && Admits(ByteAddress(src, ptype).value, index)
    ensures var r := ConvertField(g1, src, ptype, index, p, bitNr, Bits(names), t).reply;
      && r.globals == g1 && !r.announce
      && (bitNr == 8 && g1.cache.seen[Slot(ByteAddress(src, ptype).value, index)] == 0 ==> r.code == 8)
      && (bitNr < 8 && names[bitNr].Some? ==>
            r.code == 1 && r.key == Some(names[bitNr].value) && r.value == Some(Signed(Flag8(p[index], bitNr))))
  {
    var d := DialOf(g1);
    var r := ConvertField(g1, src, ptype, index, p, bitNr, Bits(names), t).reply;
    ConvertBitsKeepsGlobals(g1, src, ptype, index, p, bitNr, names, t);
    if bitNr == 8 {
      assert r == BitBasis(g1, src, ptype, index, p, true);
      SlotInBounds(ByteAddress(src, ptype).value, index);
      if g1.cache.seen[Slot(ByteAddress(src, ptype).value, index)] == 0 {
        FirstSighting(g1.cache, src, ptype, index, p, true, false, d);
      }
    } else if bitNr < 8 && names[bitNr].Some? {
      assert r == ValueFlag8(g1, src, ptype, index, p, true, bitNr).(key := Some(names[bitNr].value));
      HLinkBitsNeverCached(g1.cache, src, ptype, index, p, true, bitNr, d);
    }
  }

  /** bits2keyvalue on a bit field: the globals other than maxOutputFilter,
      uom and stateclass stay as they were, BITBASIS returns 8 while the
      byte's slot is unseen (and, since it never saves the slot, on every
      later packet too), and every named bit is reported on every call. */
  lemma DispatchBits(g: Globals, src: byte, ptype: byte, index: nat, p: seq<byte>, bitNr: byte)
    requires GlobalsOk(g) && index < |p|
    requires PacketCategory(src, ptype).Some? && FieldAt(src, ptype, index).Bits?
    ensures ByteAddress(src, ptype).Some? && Admits(ByteAddress(src, ptype).value, index)
    ensures var r := Dispatch(g, src, ptype, index, p, bitNr).reply;
      var names := FieldAt(src, ptype, index).names;
      && r.globals.cache == g.cache && !r.announce
      && (bitNr == 8 && g.cache.seen[Slot(ByteAddress(src, ptype).value, index)] == 0 ==> r.code == 8)
      && (bitNr < 8 && names[bitNr].Some? ==>
            r.code == 1 && r.key == Some(names[bitNr].value) && r.value == Some(Signed(Flag8(p[index], bitNr))))
  {
    var f := FieldAt(src, ptype, index);
    var t := FieldTag(PacketCategory(src, ptype).value, f);
    PacketRegions(src, ptype, index);
    ConvertBits(g.(maxOutputFilter := t.maxOutputFilter, uom := 0, stateClass := 0), src, ptype, index, p, bitNr, f.names, t);
  }

  /** bits2keyvalue on a number field: the key is the field's name, the
      prefix letter its category's, and the value its decoding, reported
      exactly when the cache reports payload[index] under the field's
      maxOutputFilter. */
  lemma DispatchNumber(g: Globals, src: byte, ptype: byte, index: nat, p: seq<byte>, bitNr: byte)
    requires GlobalsOk(g) && index < |p|
    requires PacketCategory(src, ptype).Some? && FieldAt(src, ptype, index).Number?
    ensures var f := FieldAt(src, ptype, index);
      var t := FieldTag(PacketCategory(src, ptype).value, f);
      var r := Dispatch(g, src, ptype, index, p, bitNr);
      var d := Dial(g.outputFilter, t.maxOutputFilter, g.outputMode);
      && Width(f.format) == 1
      && r.letter == t.letter && r.digit == SourceDigit(src) && r.reply.key == Some(f.name)
      && (r.reply.code == 1 <==> ObserveBytes(g.cache, src, ptype, index, p, true, 1, true, d).reported)
      && (r.reply.code == 1 ==> r.reply.value == Some(DecodeValue(f.format, p, index)))
  {
    var f := FieldAt(src, ptype, index);
    var t := FieldTag(PacketCategory(src, ptype).value, f);
    NumbersAreOneByte(src, ptype, index);
    var g2 := g.(maxOutputFilter := t.maxOutputFilter, uom := Uom(f.unit), stateClass := StateClass(f.unit));
    ValueFormatGate(g2, f.format, src, ptype, index, p, true);
  }

  /** The letter a field conversion writes: 'U' for unknown bytes and
      unknown bits, the tag's letter otherwise. */
  lemma ConvertFieldLetter(g1: Globals, src: byte, ptype: byte, index: nat, p: seq<byte>, bitNr: byte, f: Field, t: Tag)
    requires GlobalsOk(g1) && index < |p| && WellFormedField(f)
    requires f.Number? ==> Width(f.format) == 1
    ensures var r := ConvertField(g1, src, ptype, index, p, bitNr, f, t);
      && r.digit == SourceDigit(src)
      && r.letter == if f.UnknownField? || (f.Bits? && bitNr != 8 && !(bitNr < 8 && f.names[bitNr].Some?)) then 'U' else t.letter
  {
  }

  /** The key prefix of every call: the source digit, and the category
      letter 'U' for unknown packets, unknown bytes and unknown bits, the
      field's own category where it has one, and the packet's otherwise
      ('M' for the 0x89 packets, 'S' for 0x2112 and 0x4118). */
  lemma DispatchLetter(g: Globals, src: byte, ptype: byte, index: nat, p: seq<byte>, bitNr: byte)
    requires GlobalsOk(g) && index < |p|
    ensures var r := Dispatch(g, src, ptype, index, p, bitNr);
      var known := PacketCategory(src, ptype).Some?;
      var f := if known then FieldAt(src, ptype, index) else UnknownField;
      && r.digit == SourceDigit(src)
      && (f.UnknownField? || (f.Bits? && bitNr != 8 && !(bitNr < 8 && f.names[bitNr].Some?)) ==> r.letter == 'U')
      && (f.Number? && f.category.Some? ==> r.letter == Letter(f.category.value))
      && (known && (f.Checksum? || (f.Number? && f.category.None?) || (f.Bits? && (bitNr == 8 || (bitNr < 8 && f.names[bitNr].Some?)))) ==>
            r.letter == (if src == 0x89 then 'M' else 'S'))
  {
    if PacketCategory(src, ptype).Some? {
      var packet := PacketCategory(src, ptype).value;
      var f := FieldAt(src, ptype, index);
      var t := FieldTag(packet, f);
      NumbersAreOneByte(src, ptype, index);
      CategoryRules(InitialTag, packet);
      if f.Number? && f.category.Some? {
        CategoryRules(ApplyCategory(InitialTag, packet), f.category.value);
      }
      ConvertFieldLetter(g.(maxOutputFilter := t.maxOutputFilter, uom := 0, stateClass := 0), src, ptype, index, p, bitNr, f, t);
    }
  }

  /** The end-to-end reading of the air-inlet temperature: from a cache
      where its slot is unseen, 0x892D byte 7 = 0x14 is reported as key
      IUAirInletTemperature, category T, value 20 °C with a discovery message;
      the same byte again is suppressed under outputFilter 1, and a change to
      0x15 is reported again. */
  lemma InletTemperatureEndToEnd(g: Globals, p: seq<byte>)
    requires GlobalsOk(g) && |p| == 0x2D && p[7] == 0x14
    requires g.outputFilter == 1
    requires g.cache.seen[Slot(Address(0, 12), 7)] == 0
    ensures var r1 := Dispatch(g, 0x89, 0x2D, 7, p, 8);
      && r1.reply.code == 1 && r1.letter == 'T' && r1.digit == '8'
      && r1.reply.key == Some("IUAirInletTemperature")
      && r1.reply.value == Some(Signed(20)) && Render(Signed(20)) == Some("20")
      && r1.reply.announce
      && r1.reply.globals.uom == 1 && r1.reply.globals.stateClass == 1
      && var r2 := Dispatch(r1.reply.globals, 0x89, 0x2D, 7, p, 8);
      && r2.reply.code == 0 && !r2.reply.announce
      && var r3 := Dispatch(r2.reply.globals, 0x89, 0x2D, 7, p[7 := 0x15], 8);
      && r3.reply.code == 1 && r3.reply.value == Some(Signed(21))
  {
    DecoderExamples();
    var a := Address(0, 12);
    SlotInBounds(a, 7);
    var g2 := g.(maxOutputFilter := 1, uom := 1, stateClass := 1);
    var d := DialOf(g2);
    FirstSighting(g.cache, 0x89, 0x2D, 7, p, true, true, d);
    var c1 := ObserveBytes(g.cache, 0x89, 0x2D, 7, p, true, 1, true, d).cache;
    SeenByte(c1, 0x89, 0x2D, 7, p, true, true, d);
    ObserveBytesIdempotent(g.cache, 0x89, 0x2D, 7, p, true, 1, d);
    var q := p[7 := 0x15];
    SeenByte(c1, 0x89, 0x2D, 7, q, true, true, d);
  }
}
