# H-link parameter conversion, modelled in Dafny

This project models the conversion engine of the P1P2 bridge for the Hitachi
H-link bus (`P1P2_Daikin_ParameterConversion_HLINK.h`, built with
`SAVEPACKETS`). The engine has four parts:

- **Change detection.** For every payload byte, and every bit of a byte
  handled bit by bit, the engine decides whether the value is new or has
  changed. For that it keeps two 302-byte arrays, `payloadByteVal` and
  `payloadByteSeen`, indexed through the `nr_bytes`/`bytestart` slot
  tables.
- **Decoding.** The `FN_*`/`value_*` decoders turn payload bytes into
  values.
- **The field table.** `bytesbits2keyvalue` maps a (source, type, index,
  bit) to a key, a category letter, a filter level, a Home-Assistant unit
  and a decoder, for the H-link sources 0x89, 0x21 and 0x41.
- **Return codes.** Each call returns 0 (nothing to report), 1 (a new
  key/value pair) or 8 (handle this byte bit by bit).

The model has two layers.

- **Values.** Modules `Layout`, `Cache`, `Decoders`, `Fields` and
  `Engine` describe every operation as a function of the previous state.
  They hold the lemmas about these functions:
  - the slot regions tile the cache;
  - the fallback branches write nothing;
  - first sighting, and change against the saved copy;
  - only one bit of one slot changes;
  - the rate-limit period is 256 calls;
  - which globals the dispatch resets;
  - a whole-call frame: one call writes at most one cache slot;
  - an end-to-end reading of the air-inlet temperature.
- **In place.** Module `Converter` has a class `Converter`. It owns the two
  cache arrays and the globals: `outputFilter`, `maxOutputFilter`,
  `outputMode`, `outputUnknown`, `RSSIcnt`, `uom` and `stateclass`. Every
  function of the header that reads or changes that state is a method that
  updates it in place: newPayloadBytesVal with its comparison loop,
  newPayloadBitVal with its bit update, the value_* wrappers that consult
  the cache, value_u32_LE_uptime with its mask loop, and bytesbits2keyvalue
  with its resets. Each method is proved to return exactly what the value
  layer computes and to leave exactly the state it describes. value_trg and
  value_timeString touch no state and exist only in the value layer
  (`Engine.ValueTrg`, `Engine.ValueTimeString`), as do the FN_* decoders
  (module `Decoders`).

Bytes are `bv8`, so masks and shifts are exact. Integers are unbounded
where the source's widths cannot overflow. The fixed-point decoders are exact
`real`s.

Where the code does something other than a reader might expect, the model
follows the code, with two exceptions (the last two items):
- `newByte` is assigned, not or-ed, per byte of a multi-byte field. One might
  read the loop as or-ing the verdict over the bytes, but the last byte
  decides (`Cache.LastByteWins`).
- The bit path never caches the H-link packet types
  (`Cache.HLinkBitsNeverCached`). The bit translator only maps types
  0x08..0x0F and 0x31; H-link "types" are packet lengths 0x12..0x2D. So
  BITBASIS keeps returning 8 and every named bit is reported on every packet
  (`Engine.DispatchBits`).
- At 0x2112 index 0x09 the `HATEMP` macro follows a returning `VALUE_u8` and
  never runs, so that field has no unit.
- The first exception: the range guard `payloadIndex > nr_bytes[pts][pti]` of
  newPayloadBytesVal and newPayloadBitVal admits `payloadIndex == nr_bytes`,
  whose slot belongs to the next region (or is 302). The model uses the
  corrected guard `index < nr_bytes` instead (`Layout.Admits`). Both guards
  are modelled and compared under "## Findings"; the "## Left out" lines for
  `Cache.ObserveBytes` and `Cache.ObserveBit` say what differs.
- The second exception: for a source whose `src >> 6` is 2 or 3 (0x89
  among them) newPayloadBitVal indexes its two-row tables out of bounds.
  The model rejects such an address in the bit path instead
  (`Layout.BitRow`); the "## Left out" line for `Cache.ObserveBit` on
  `src >> 6` says so.

## Model

| member | source | states |
|---|---|---|
| Layout.ByteAddress | examples/P1P2-bridge-esp8266/P1P2_Daikin_ParameterConversion_HLINK.h:105-126 | the byte-path translator yields only addresses inside the 2×13 tables |
| Layout.ByteAddressTable | examples/P1P2-bridge-esp8266/P1P2_Daikin_ParameterConversion_HLINK.h:105-126 | 0x0C..0x0F keep their offset; 0x0B, 0x12, 0x18, 0x27 and 0x2D take columns 8..12; every other type is unmapped; the row is 1 exactly for source 0x40 |
| Layout.BitRow | examples/P1P2-bridge-esp8266/P1P2_Daikin_ParameterConversion_HLINK.h:183 | the bit-path row `src >> 6` can be 0..3, although the tables have 2 rows |
| Layout.TranslatorsDiffer | examples/P1P2-bridge-esp8266/P1P2_Daikin_ParameterConversion_HLINK.h:105-126 | the translators disagree: type 0x0B is byte column 8 but bit column 3; 0x31 and the H-link types are mapped by one path only; source 0x89 is byte row 0 but bit row 2 |
| Layout.AddressAt | examples/P1P2-bridge-esp8266/P1P2_Daikin_ParameterConversion_HLINK.h:84-85 | the 26 table entries in row-major order are all inside the table |
| Layout.RegionsContiguous | examples/P1P2-bridge-esp8266/P1P2_Daikin_ParameterConversion_HLINK.h:84-86 | in table order each region starts where the previous one ends, the first at 0 and the last ending at 302 |
| Layout.RegionsOrdered | examples/P1P2-bridge-esp8266/P1P2_Daikin_ParameterConversion_HLINK.h:84-86 | every earlier region ends before every later one starts |
| Layout.AddressAtOf | examples/P1P2-bridge-esp8266/P1P2_Daikin_ParameterConversion_HLINK.h:84-85 | row-major numbering and table addresses are inverse |
| Layout.RegionInCache | examples/P1P2-bridge-esp8266/P1P2_Daikin_ParameterConversion_HLINK.h:84-86 | every region lies inside the 302 slots |
| Layout.RegionsDisjoint | examples/P1P2-bridge-esp8266/P1P2_Daikin_ParameterConversion_HLINK.h:84-86 | the regions of two different addresses do not overlap |
| Layout.RegionsCover | examples/P1P2-bridge-esp8266/P1P2_Daikin_ParameterConversion_HLINK.h:84-86 | every slot 0..301 belongs to some region |
| Layout.SlotInBounds | examples/P1P2-bridge-esp8266/P1P2_Daikin_ParameterConversion_HLINK.h:141-146 | under the corrected guard `index < nr_bytes` every slot is below 302, so the `pi2 >= sizeValSeen` branch is never reached |
| Layout.SlotInjective | examples/P1P2-bridge-esp8266/P1P2_Daikin_ParameterConversion_HLINK.h:141 | under the corrected guard, two admitted (address, index) pairs share a slot only when they are equal |
| Layout.AsWrittenGuardAliases | examples/P1P2-bridge-esp8266/P1P2_Daikin_ParameterConversion_HLINK.h:130 | the guard as written admits `index == nr_bytes`: 0x0B index 8 then shares the slot of 0x12 index 0, 0x40/0x0F index 20 reaches slot 302, and 0x892D index 42, past its checksum, shares the first slot of the 0x4009 region |
| Bytes.BitMaskBits | examples/P1P2-bridge-esp8266/P1P2_Daikin_ParameterConversion_HLINK.h:202 | `1 << k` has bit k alone, and testing it equals `(b >> k) & 1` |
| Text.Hex2 | examples/P1P2-bridge-esp8266/P1P2_Daikin_ParameterConversion_HLINK.h:239 | `%02X` has two digits: the high nibble, then the low one |
| Text.HexValue | examples/P1P2-bridge-esp8266/P1P2_Daikin_ParameterConversion_HLINK.h:239 | a hex digit's value names that digit |
| Text.HexValueOfDigit | examples/P1P2-bridge-esp8266/P1P2_Daikin_ParameterConversion_HLINK.h:239 | every hex digit reads back as its value |
| Text.Hex2RoundTrip | examples/P1P2-bridge-esp8266/P1P2_Daikin_ParameterConversion_HLINK.h:239 | two hex digits parse back to their byte |
| Text.HexBytes | examples/P1P2-bridge-esp8266/P1P2_Daikin_ParameterConversion_HLINK.h:245 | `%02X%02X…` has two characters per byte |
| Text.HexBytesAt | examples/P1P2-bridge-esp8266/P1P2_Daikin_ParameterConversion_HLINK.h:245 | the digits at position 2k spell byte k, keeping the byte order |
| Text.ParseHexBytes | examples/P1P2-bridge-esp8266/P1P2_Daikin_ParameterConversion_HLINK.h:245 | parsing hex text gives half as many bytes as digits |
| Text.HexBytesRoundTrip | examples/P1P2-bridge-esp8266/P1P2_Daikin_ParameterConversion_HLINK.h:245 | the hex text of a byte sequence parses back to the sequence |
| Text.Digit | examples/P1P2-bridge-esp8266/P1P2_Daikin_ParameterConversion_HLINK.h:269 | each decimal digit is a digit character |
| Text.Decimal | examples/P1P2-bridge-esp8266/P1P2_Daikin_ParameterConversion_HLINK.h:269 | `%u` is all digits, with no leading zero |
| Text.DecimalRoundTrip | examples/P1P2-bridge-esp8266/P1P2_Daikin_ParameterConversion_HLINK.h:269 | `%u` text parses back to its number |
| Text.SignedDecimal | examples/P1P2-bridge-esp8266/P1P2_Daikin_ParameterConversion_HLINK.h:308 | `%i` starts with a minus sign or a digit |
| Text.SignedDecimalRoundTrip | examples/P1P2-bridge-esp8266/P1P2_Daikin_ParameterConversion_HLINK.h:308 | `%i` text parses back to its integer |
| Decoders.UnsignedAtBound | examples/P1P2-bridge-esp8266/P1P2_Daikin_ParameterConversion_HLINK.h:263-265 | the reference sum of w bytes, `Σ payload[i-k]·256^k`, lies below 256^w |
| Decoders.UnsignedReadings | examples/P1P2-bridge-esp8266/P1P2_Daikin_ParameterConversion_HLINK.h:263-265 | FN_u16_LE, FN_u24_LE and FN_u32_LE equal the reference sum, which weights `payload[i-k]` by 256^k, and fit 16, 24 and 32 bits |
| Decoders.FromSigned | examples/P1P2-bridge-esp8266/P1P2_Daikin_ParameterConversion_HLINK.h:308 | the two's-complement encoding of a w-bit value fits w bits |
| Decoders.SignedRoundTrip | examples/P1P2-bridge-esp8266/P1P2_Daikin_ParameterConversion_HLINK.h:308 | reinterpreting as signed and encoding back are inverse; the result is negative exactly when the top bit is set |
| Decoders.S8 | examples/P1P2-bridge-esp8266/P1P2_Daikin_ParameterConversion_HLINK.h:308 | `(int8_t)b` is the two's-complement reading of b, in [-128, 128) |
| Decoders.S16Le | examples/P1P2-bridge-esp8266/P1P2_Daikin_ParameterConversion_HLINK.h:322 | `(int16_t)FN_u16_LE` lies in [-32768, 32768) |
| Decoders.S16Split | examples/P1P2-bridge-esp8266/P1P2_Daikin_ParameterConversion_HLINK.h:322 | the s16 reading is the signed high byte times 256, plus the low byte |
| Decoders.Flag8 | examples/P1P2-bridge-esp8266/P1P2_Daikin_ParameterConversion_HLINK.h:328 | FN_flag8 is 0 or 1, and 1 exactly when bit n of b is set |
| Decoders.S4Abs1c | examples/P1P2-bridge-esp8266/P1P2_Daikin_ParameterConversion_HLINK.h:358 | FN_s4abs1c lies in [-15, 15]; its magnitude is the low nibble; it is negative exactly when bit 4 is set and the nibble is not 0 |
| Decoders.S4Abs1cIgnoresHighBits | examples/P1P2-bridge-esp8266/P1P2_Daikin_ParameterConversion_HLINK.h:358 | only the low five bits matter |
| Decoders.Add2k | examples/P1P2-bridge-esp8266/P1P2_Daikin_ParameterConversion_HLINK.h:354 | value_u8_add2k lies in 2000..2255 |
| Decoders.Add2kInverse | examples/P1P2-bridge-esp8266/P1P2_Daikin_ParameterConversion_HLINK.h:354 | add2k is injective, and subtracting 2000 recovers the byte |
| Decoders.F8p8 | examples/P1P2-bridge-esp8266/P1P2_Daikin_ParameterConversion_HLINK.h:385 | FN_f8_8 lies in [-128, 128) |
| Decoders.F8p8IsScaledS16 | examples/P1P2-bridge-esp8266/P1P2_Daikin_ParameterConversion_HLINK.h:385 | FN_f8_8 is the s16 reading divided by 256 |
| Decoders.F8s8 | examples/P1P2-bridge-esp8266/P1P2_Daikin_ParameterConversion_HLINK.h:397 | FN_f8s8 is the signed high byte plus a tenth of the low byte |
| Decoders.U16Div10 | examples/P1P2-bridge-esp8266/P1P2_Daikin_ParameterConversion_HLINK.h:366 | FN_u16div10_LE lies in [0, 6527.9]: at most 254·25.6 + 255·0.1, since a high byte of 0xFF reads as 0 |
| Decoders.U16Div10IsTenths | examples/P1P2-bridge-esp8266/P1P2_Daikin_ParameterConversion_HLINK.h:366 | FN_u16div10_LE is the u16 reading divided by 10, and 0 when the high byte is 0xFF |
| Decoders.LeastMask | examples/P1P2-bridge-esp8266/P1P2_Daikin_ParameterConversion_HLINK.h:294 | the mask loop ends at the least `2^k - 1` with k ≥ 1 that is at least `payload[i-1]` |
| Decoders.MasksArePowersMinusOne | examples/P1P2-bridge-esp8266/P1P2_Daikin_ParameterConversion_HLINK.h:294 | the masks the loop passes through are 2^k - 1 |
| Decoders.UptimeMask | examples/P1P2-bridge-esp8266/P1P2_Daikin_ParameterConversion_HLINK.h:292-297 | the uptime mask is the least covering mask when `payload[i-3]` and `payload[i-2]` are both 0, and 0xFF otherwise |
| Decoders.UptimeLowByte | examples/P1P2-bridge-esp8266/P1P2_Daikin_ParameterConversion_HLINK.h:298 | the masked byte has exactly the bits of `mask >> 1` cleared, and every other bit as before |
| Decoders.UptimeExamples | examples/P1P2-bridge-esp8266/P1P2_Daikin_ParameterConversion_HLINK.h:291-298 | three concrete payloads: small uptime kept, low byte cleared under 0x0F, top bit kept under 0xFF |
| Decoders.Width | examples/P1P2-bridge-esp8266/P1P2_Daikin_ParameterConversion_HLINK.h:237-324 | each value_* wrapper reads 1 to 4 bytes |
| Decoders.UnsignedFormatsReadWidth | examples/P1P2-bridge-esp8266/P1P2_Daikin_ParameterConversion_HLINK.h:267-289 | value_u8/u16/u24/u32 decode to the reference sum of their width, bounded by 256^w |
| Decoders.RenderQuotesExactlyText | examples/P1P2-bridge-esp8266/P1P2_Daikin_ParameterConversion_HLINK.h:239 | every value but a fixed-point one prints; hex and labels print quoted, numbers unquoted (also lines 269, 379) |
| Decoders.HexValueOrder | examples/P1P2-bridge-esp8266/P1P2_Daikin_ParameterConversion_HLINK.h:237-259 | hex output is `"0x"` followed by `payload[i-w+1] … payload[i]` in that order, two digits each |
| Decoders.HeaderLabel | examples/P1P2-bridge-esp8266/P1P2_Daikin_ParameterConversion_HLINK.h:378-381 | value_trg's label is the 20 characters `Empty_Payload_SS00TT`: the fixed prefix, the source in hex, `00`, the type in hex |
| Decoders.UnknownByteKeyRoundTrip | examples/P1P2-bridge-esp8266/P1P2_Daikin_ParameterConversion_HLINK.h:347 | unknownByte's key spells the source, the type and the index, all recoverable from the text |
| Decoders.UnknownByteKeyInjective | examples/P1P2-bridge-esp8266/P1P2_Daikin_ParameterConversion_HLINK.h:347 | different unknown bytes get different keys |
| Decoders.DecoderExamples | examples/P1P2-bridge-esp8266/P1P2_Daikin_ParameterConversion_HLINK.h:308-385 | concrete decodings: s8 of 0x14 is 20 and prints "20", s8 of 0xEC is -20; f8_8 of 05 80 is 5.5; u16div10 with high byte 0xFF is 0; s4abs1c of 0x94 is -4 |
| Cache.EmptyCache | examples/P1P2-bridge-esp8266/P1P2_Daikin_ParameterConversion_HLINK.h:86-87 | at power-up both arrays are zero |
| Cache.ByteStep | examples/P1P2-bridge-esp8266/P1P2_Daikin_ParameterConversion_HLINK.h:147-160 | one pass of the byte loop keeps the cache well-formed |
| Cache.Scan | examples/P1P2-bridge-esp8266/P1P2_Daikin_ParameterConversion_HLINK.h:140-161 | the loop keeps the cache well-formed |
| Cache.ObserveBytes | examples/P1P2-bridge-esp8266/P1P2_Daikin_ParameterConversion_HLINK.h:96-177 | newPayloadBytesVal keeps the cache well-formed |
| Cache.ScanFrame | examples/P1P2-bridge-esp8266/P1P2_Daikin_ParameterConversion_HLINK.h:140-161 | the loop writes only slots `bytestart + (index+1-length) .. bytestart + index` |
| Cache.ScanReadsOld | examples/P1P2-bridge-esp8266/P1P2_Daikin_ParameterConversion_HLINK.h:147-160 | each byte is compared with the cache as it was before the call |
| Cache.ScanWithoutSave | examples/P1P2-bridge-esp8266/P1P2_Daikin_ParameterConversion_HLINK.h:151-160 | without saveSeen the loop writes nothing and announces nothing |
| Cache.ScanStores | examples/P1P2-bridge-esp8266/P1P2_Daikin_ParameterConversion_HLINK.h:151-159 | with saveSeen every slot of the range ends holding its payload byte and marked seen |
| Cache.ScanQuiet | examples/P1P2-bridge-esp8266/P1P2_Daikin_ParameterConversion_HLINK.h:103-152 | when no byte is new or changed, the verdict stays `outputFilter == 0` and nothing is written |
| Cache.ScanLastFreshDecides | examples/P1P2-bridge-esp8266/P1P2_Daikin_ParameterConversion_HLINK.h:150-155 | the verdict is set by the last new or changed byte: true for a first sighting, `outputFilter <= maxOutputFilter` for a change |
| Cache.ScanAnnounces | examples/P1P2-bridge-esp8266/P1P2_Daikin_ParameterConversion_HLINK.h:156-163 | discovery is published exactly when saveSeen, haConfig and some first sighting all hold |
| Cache.ScanVerdictShowingChanges | examples/P1P2-bridge-esp8266/P1P2_Daikin_ParameterConversion_HLINK.h:150-155 | when changes are shown, the verdict is true exactly when some byte is new or changed |
| Cache.LastFresh | examples/P1P2-bridge-esp8266/P1P2_Daikin_ParameterConversion_HLINK.h:140-161 | the last new or changed byte of the range exists when any does |
| Cache.ObserveBytesFallbacks | examples/P1P2-bridge-esp8266/P1P2_Daikin_ParameterConversion_HLINK.h:128-137 | an unmapped type and an index past the table give "new" (when publishing); `index + 1 < length` gives false; none of them writes |
| Cache.ObserveBytesFrame | examples/P1P2-bridge-esp8266/P1P2_Daikin_ParameterConversion_HLINK.h:140-159 | an observation changes no slot outside its own field |
| Cache.ObserveWithoutSave | examples/P1P2-bridge-esp8266/P1P2_Daikin_ParameterConversion_HLINK.h:100 | the BITBASIS call, with saveSeen false, leaves the cache as it was (also line 495) |
| Cache.FirstSighting | examples/P1P2-bridge-esp8266/P1P2_Daikin_ParameterConversion_HLINK.h:153-173 | a byte never seen is reported and, with saveSeen, stored and marked 0xFF; discovery is announced iff haConfig and saveSeen |
| Cache.SeenByte | examples/P1P2-bridge-esp8266/P1P2_Daikin_ParameterConversion_HLINK.h:147-173 | for a seen byte: unchanged keeps `outputFilter == 0` and writes nothing; changed gives `outputFilter <= maxOutputFilter` and stores only with saveSeen |
| Cache.ObserveBytesIdempotent | examples/P1P2-bridge-esp8266/P1P2_Daikin_ParameterConversion_HLINK.h:96-177 | observing the same payload again writes nothing, announces nothing and reports only while `outputFilter == 0` |
| Cache.LastByteWins | examples/P1P2-bridge-esp8266/P1P2_Daikin_ParameterConversion_HLINK.h:150-155 | a first-seen byte followed by a changed byte is not reported while changes are hidden, because the verdict is assigned and not or-ed |
| Cache.BitStep | examples/P1P2-bridge-esp8266/P1P2_Daikin_ParameterConversion_HLINK.h:202-224 | the bit update keeps the cache well-formed |
| Cache.CopyBitBits | examples/P1P2-bridge-esp8266/P1P2_Daikin_ParameterConversion_HLINK.h:206-222 | the two-step mask update copies bit k of the payload and keeps the other seven |
| Cache.SetBitBits | examples/P1P2-bridge-esp8266/P1P2_Daikin_ParameterConversion_HLINK.h:223 | `seen \|= mask` sets bit k and keeps the others |
| Cache.XorBit | examples/P1P2-bridge-esp8266/P1P2_Daikin_ParameterConversion_HLINK.h:204 | `(val ^ payload) & mask` tests whether bit k differs |
| Cache.ObserveBit | examples/P1P2-bridge-esp8266/P1P2_Daikin_ParameterConversion_HLINK.h:179-231 | newPayloadBitVal keeps the cache well-formed |
| Cache.BitSlot | examples/P1P2-bridge-esp8266/P1P2_Daikin_ParameterConversion_HLINK.h:197 | the bit path's slot of an admitted address is below 302 |
| Cache.ObserveBitFallbacks | examples/P1P2-bridge-esp8266/P1P2_Daikin_ParameterConversion_HLINK.h:186-192 | `bitNr > 7`, and a type outside 0x08..0x0F other than 0x31, give "new" and write nothing |
| Cache.BitStepFrame | examples/P1P2-bridge-esp8266/P1P2_Daikin_ParameterConversion_HLINK.h:202-224 | the bit update writes no other slot |
| Cache.SlotUpdate | examples/P1P2-bridge-esp8266/P1P2_Daikin_ParameterConversion_HLINK.h:203-207 | in each branch of the bit update the seen mask ends as `seen | mask` and the value as bit k copied from the payload: re-marking a seen bit, or copying an unchanged bit, changes nothing |
| Cache.BitStepSlot | examples/P1P2-bridge-esp8266/P1P2_Daikin_ParameterConversion_HLINK.h:202-224 | the slot ends with bit k copied into its value and marked seen |
| Cache.BitStepBit | examples/P1P2-bridge-esp8266/P1P2_Daikin_ParameterConversion_HLINK.h:202-224 | bit j of the value and of the seen mask change only when j is bitNr |
| Cache.ObserveBitTouchesOneBit | examples/P1P2-bridge-esp8266/P1P2_Daikin_ParameterConversion_HLINK.h:202-224 | newPayloadBitVal changes one bit of one slot's value and seen mask, and nothing else in the cache |
| Cache.ObserveBitFilterForces | examples/P1P2-bridge-esp8266/P1P2_Daikin_ParameterConversion_HLINK.h:225 | the result is false whenever `outputFilter > maxOutputFilter`, even on a first sighting |
| Cache.ObserveBitFirstSighting | examples/P1P2-bridge-esp8266/P1P2_Daikin_ParameterConversion_HLINK.h:209-224 | a bit never seen is stored, marked seen and (with haConfig) announced |
| Cache.ObserveBitIdempotent | examples/P1P2-bridge-esp8266/P1P2_Daikin_ParameterConversion_HLINK.h:203-208 | observing the same bit again writes nothing and reports only while `outputFilter == 0` |
| Cache.HLinkBitsNeverCached | examples/P1P2-bridge-esp8266/P1P2_Daikin_ParameterConversion_HLINK.h:188-191 | the H-link types 0x12, 0x18, 0x27 and 0x2D are above 0x0F, so their bits are reported on every packet and never stored |
| Cache.ObserveBits | examples/P1P2-bridge-esp8266/P1P2_Daikin_ParameterConversion_HLINK.h:495-497 | replaying bits 0..k-1 keeps the cache well-formed |
| Cache.ObserveBitIsStep | examples/P1P2-bridge-esp8266/P1P2_Daikin_ParameterConversion_HLINK.h:183-197 | a cached bit is the bit update on a slot that does not depend on the bit number |
| Cache.ObserveBitsFrame | examples/P1P2-bridge-esp8266/P1P2_Daikin_ParameterConversion_HLINK.h:495-497 | replaying bits writes no slot but the byte's own |
| Cache.LowMaskStep | examples/P1P2-bridge-esp8266/P1P2_Daikin_ParameterConversion_HLINK.h:206-223 | copying bit k-1 after bits 0..k-2 gives bits 0..k-1 |
| Cache.LowMaskEnds | examples/P1P2-bridge-esp8266/P1P2_Daikin_ParameterConversion_HLINK.h:206-207 | copying no bits changes nothing; copying all 8 gives the payload byte |
| Cache.ObserveBitsSlot | examples/P1P2-bridge-esp8266/P1P2_Daikin_ParameterConversion_HLINK.h:495-497 | after bits 0..k-1 the slot has the payload's low k bits copied and marked seen |
| Cache.ObserveAllBits | examples/P1P2-bridge-esp8266/P1P2_Daikin_ParameterConversion_HLINK.h:495-497 | after bits 0..7 on a cached type, the slot holds the payload byte and is fully seen; the rest of the cache is untouched |
| Fields.CategoryRules | examples/P1P2-bridge-esp8266/P1P2_Daikin_ParameterConversion_HLINK.h:37-46 | CAT_TEMP and CAT_MEASUREMENT set maxOutputFilter to 1 and no other macro changes it; CAT_PSEUDO never overwrites 'B'; every other macro writes its own letter |
| Fields.LettersDistinct | examples/P1P2-bridge-esp8266/P1P2_Daikin_ParameterConversion_HLINK.h:37-46 | the ten category letters are distinct |
| Fields.Uom | examples/P1P2-bridge-esp8266/P1P2_Daikin_ParameterConversion_HLINK.h:499-511 | the HA* unit codes lie in 0..12 |
| Fields.StateClass | examples/P1P2-bridge-esp8266/P1P2_Daikin_ParameterConversion_HLINK.h:499-511 | the HA* stateclass codes lie in 0..2 |
| Fields.UnitCodes | examples/P1P2-bridge-esp8266/P1P2_Daikin_ParameterConversion_HLINK.h:499-511 | different units have different codes; stateclass 2 (total_increasing) is exactly kWh and events; "no unit" is 0/0 |
| Fields.SourceDigit | examples/P1P2-bridge-esp8266/P1P2_Daikin_ParameterConversion_HLINK.h:527-534 | the source digit in the key prefix is always one of 0..9 |
| Fields.AllBits | examples/P1P2-bridge-esp8266/P1P2_Daikin_ParameterConversion_HLINK.h:649-681 | a bit field with all eight bits named |
| Fields.VentilBits | examples/P1P2-bridge-esp8266/P1P2_Daikin_ParameterConversion_HLINK.h:917-933 | a ventilation field with bits 1..3 named |
| Fields.FieldAt | examples/P1P2-bridge-esp8266/P1P2_Daikin_ParameterConversion_HLINK.h:552-1094 | the field table: every bit field has eight entries |
| Fields.NumbersAreOneByte | examples/P1P2-bridge-esp8266/P1P2_Daikin_ParameterConversion_HLINK.h:555-1094 | every H-link number is value_u8 or value_s8 and reads `payload[index]` alone |
| Fields.ChecksumPositions | examples/P1P2-bridge-esp8266/P1P2_Daikin_ParameterConversion_HLINK.h:722-1089 | the checksum positions are 0x892D@0x29, 0x8927@0x23, 0x2112@0x0E and 0x4118@0x14, and no other |
| Fields.TemperaturesOf892D | examples/P1P2-bridge-esp8266/P1P2_Daikin_ParameterConversion_HLINK.h:560-604 | 0x892D indices 0x07..0x0F are signed temperatures, category T, unit °C |
| Fields.TemperatureUnits | examples/P1P2-bridge-esp8266/P1P2_Daikin_ParameterConversion_HLINK.h:560-1057 | category-T fields have unit °C, except the 0x2112 setpoint, whose HATEMP is never reached |
| Fields.ChecksumIndex | examples/P1P2-bridge-esp8266/P1P2_Daikin_ParameterConversion_HLINK.h:722-1088 | the checksum index of each packet holds a checksum field |
| Fields.BeyondChecksumUnknown | examples/P1P2-bridge-esp8266/P1P2_Daikin_ParameterConversion_HLINK.h:724-1091 | every index past the checksum falls to UNKNOWN_BYTE |
| Engine.ValueFormatGate | examples/P1P2-bridge-esp8266/P1P2_Daikin_ParameterConversion_HLINK.h:237-324 | each value_* wrapper returns 1 exactly when newPayloadBytesVal reports its bytes; then it writes the decoded value; only the cache changes; a field with too few bytes before its index (mapped type, admitted index) returns 0 and changes nothing (lines 134-137) |
| Engine.UptimePayload | examples/P1P2-bridge-esp8266/P1P2_Daikin_ParameterConversion_HLINK.h:298 | the uptime code changes only `payload[index]` |
| Engine.ValueUptimeReads | examples/P1P2-bridge-esp8266/P1P2_Daikin_ParameterConversion_HLINK.h:291-302 | value_u32_LE_uptime is gated on the masked payload and reads `payload[i-3..i-1]` unchanged and the masked low byte |
| Engine.NextRssi | examples/P1P2-bridge-esp8266/P1P2_Daikin_ParameterConversion_HLINK.h:314 | `++RSSIcnt` wraps from 255 to 0, and only from 255 |
| Engine.RssiAfterClosed | examples/P1P2-bridge-esp8266/P1P2_Daikin_ParameterConversion_HLINK.h:312-314 | k calls advance RSSIcnt by k modulo 256 |
| Engine.RateLimitPeriod | examples/P1P2-bridge-esp8266/P1P2_Daikin_ParameterConversion_HLINK.h:312-314 | from 0xFF at power-up, call k consults the cache exactly when k % 256 == 1: the first call, then every 256th |
| Engine.RateLimitedGate | examples/P1P2-bridge-esp8266/P1P2_Daikin_ParameterConversion_HLINK.h:313-318 | a call advances the counter; unless it wrapped it returns 0 and changes nothing else; it returns 1 exactly when it wrapped and the cache reports the byte, with the s8 value |
| Engine.UnknownSilent | examples/P1P2-bridge-esp8266/P1P2_Daikin_ParameterConversion_HLINK.h:337-346 | with outputUnknown off, unknownByte and unknownBit return 0 and leave every global as it was |
| Engine.UnknownByteIsHex | examples/P1P2-bridge-esp8266/P1P2_Daikin_ParameterConversion_HLINK.h:345-350 | with outputUnknown on, unknownByte behaves as value_u8hex and also writes its generated key exactly when it reports |
| Engine.ValueTrg | examples/P1P2-bridge-esp8266/P1P2_Daikin_ParameterConversion_HLINK.h:378-381 | value_trg always returns 1 with the label `Empty_Payload_SS00TT` built from source and type, and changes nothing |
| Engine.FilterCode | examples/P1P2-bridge-esp8266/P1P2_Daikin_ParameterConversion_HLINK.h:418-430 | value_f/value_s/value_timeString return 1 exactly when `outputFilter <= maxOutputFilter` |
| Engine.ValueComputedCodes | examples/P1P2-bridge-esp8266/P1P2_Daikin_ParameterConversion_HLINK.h:410-426 | without a length the value is always written and the cache verdict ignored; with one, it is written exactly when the cache reports the bytes |
| Engine.ValueTimeString | examples/P1P2-bridge-esp8266/P1P2_Daikin_ParameterConversion_HLINK.h:428-431 | the time string is written unchanged, with the filter code |
| Engine.BitBasisReadOnly | examples/P1P2-bridge-esp8266/P1P2_Daikin_ParameterConversion_HLINK.h:495 | BITBASIS returns 0 or 8, changes no global and publishes nothing |
| Engine.DispatchCodes | examples/P1P2-bridge-esp8266/P1P2_Daikin_ParameterConversion_HLINK.h:519-1107 | the H-link dispatch returns only 0, 1 or 8, and 8 only for bitNr 8 on a bit field (also lines 22-26) |
| Engine.ConvertFieldCodes | examples/P1P2-bridge-esp8266/P1P2_Daikin_ParameterConversion_HLINK.h:472-511 | a field conversion returns 0, 1 or 8, and 8 only for BITBASIS on a bit field |
| Engine.ConvertFieldGlobals | examples/P1P2-bridge-esp8266/P1P2_Daikin_ParameterConversion_HLINK.h:499-511 | a field keeps its maxOutputFilter; a number field sets uom/stateclass from its unit and no other field changes them |
| Engine.FieldTagFilter | examples/P1P2-bridge-esp8266/P1P2_Daikin_ParameterConversion_HLINK.h:37-46 | after the packet's and the field's macros, maxOutputFilter is 1 exactly when one of them is TEMP or MEASUREMENT, and 9 otherwise (also lines 556, 562) |
| Engine.DispatchFilterRule | examples/P1P2-bridge-esp8266/P1P2_Daikin_ParameterConversion_HLINK.h:524-556 | each call resets maxOutputFilter to 9 and uom/stateclass to 0; afterwards maxOutputFilter is 1 exactly for 0x89 packets and TEMP/MEASUREMENT fields; uom/stateclass are the field's unit for numbers and 0 otherwise |
| Engine.DispatchIgnores | examples/P1P2-bridge-esp8266/P1P2_Daikin_ParameterConversion_HLINK.h:722-1106 | unknown sources, unknown types and checksum bytes return 0 and write no key, value or cache byte |
| Engine.PacketRegions | examples/P1P2-bridge-esp8266/P1P2_Daikin_ParameterConversion_HLINK.h:84-85 | each H-link packet's cache region spans exactly its payload up to and including the checksum, so every known field has a slot (also lines 722, 865, 949, 1088) |
| Engine.ConvertFieldFrame | examples/P1P2-bridge-esp8266/P1P2_Daikin_ParameterConversion_HLINK.h:519-1107 | a field conversion of an H-link packet writes at most its own byte's slot |
| Engine.DispatchFrame | examples/P1P2-bridge-esp8266/P1P2_Daikin_ParameterConversion_HLINK.h:519-1107 | one call writes at most the slot of `payload[index]`, and nothing for unknown packets |
| Engine.ConvertBitsKeepsGlobals | examples/P1P2-bridge-esp8266/P1P2_Daikin_ParameterConversion_HLINK.h:486-495 | whatever bitNr, a bit field of an H-link packet leaves every global and the cache as they were and announces nothing (also lines 649-681) |
| Engine.ConvertBits | examples/P1P2-bridge-esp8266/P1P2_Daikin_ParameterConversion_HLINK.h:649-681 | on a bit field nothing is written, BITBASIS returns 8 while the slot is unseen, and a named bit is reported every time (also line 495) |
| Engine.DispatchBits | examples/P1P2-bridge-esp8266/P1P2_Daikin_ParameterConversion_HLINK.h:495-1052 | H-link bit fields: the cache is untouched; BITBASIS stays 8 while the slot is unseen, hence forever from power-up; every named bit returns 1 with its key and FN_flag8 value |
| Engine.DispatchNumber | examples/P1P2-bridge-esp8266/P1P2_Daikin_ParameterConversion_HLINK.h:555-1094 | a number field writes its own key and category letter, and returns 1 exactly when the cache reports `payload[index]` under its filter level, with the decoded value |
| Engine.ConvertFieldLetter | examples/P1P2-bridge-esp8266/P1P2_Daikin_ParameterConversion_HLINK.h:472-489 | UNKNOWN_BYTE and UNKNOWN_BIT write 'U'; every other field keeps the tag's letter |
| Engine.DispatchLetter | examples/P1P2-bridge-esp8266/P1P2_Daikin_ParameterConversion_HLINK.h:525-536 | the prefix carries the source digit, and the letter is 'U' for unknowns, the field's own category where it has one, and 'M' (0x89) or 'S' (0x21, 0x41) otherwise (also lines 48, 556, 880, 974) |
| Engine.InletTemperatureEndToEnd | examples/P1P2-bridge-esp8266/P1P2_Daikin_ParameterConversion_HLINK.h:560-564 | 0x892D byte 7 = 0x14 from an unseen slot gives IUAirInletTemperature, category T, value 20, °C and a discovery message; the same byte again gives 0; 0x15 then gives 21 |
| Converter.Converter.constructor | examples/P1P2-bridge-esp8266/P1P2_Daikin_ParameterConversion_HLINK.h:72 | power-up: both arrays zero, maxOutputFilter 0, RSSIcnt 0xFF, uom and stateclass 0 (also lines 86-88, 93-94, 312) |
| Converter.Converter.NewPayloadBytesVal | examples/P1P2-bridge-esp8266/P1P2_Daikin_ParameterConversion_HLINK.h:96-177 | the in-place loop returns the verdict and announcement of `Cache.ObserveBytes` and leaves its cache |
| Converter.Converter.ScanBytes | examples/P1P2-bridge-esp8266/P1P2_Daikin_ParameterConversion_HLINK.h:139-162 | the comparison loop over bytes `index+1-length .. index` is `Cache.Scan` over the same range |
| Converter.Converter.CompareByte | examples/P1P2-bridge-esp8266/P1P2_Daikin_ParameterConversion_HLINK.h:141-160 | one loop pass on the arrays is `Cache.ByteStep` |
| Converter.Converter.NewPayloadBitVal | examples/P1P2-bridge-esp8266/P1P2_Daikin_ParameterConversion_HLINK.h:179-231 | the in-place bit update returns the verdict of `Cache.ObserveBit` and leaves its cache |
| Converter.Converter.CompareBit | examples/P1P2-bridge-esp8266/P1P2_Daikin_ParameterConversion_HLINK.h:202-224 | the masked update of one slot is `Cache.BitStep` |
| Converter.Converter.ValueFormat | examples/P1P2-bridge-esp8266/P1P2_Daikin_ParameterConversion_HLINK.h:237-324 | each value_* wrapper's output and new state are those of `Engine.ValueFormat` |
| Converter.Converter.ValueU32Uptime | examples/P1P2-bridge-esp8266/P1P2_Daikin_ParameterConversion_HLINK.h:291-302 | masks the caller's payload in place, as `Engine.UptimePayload`, then behaves as `Engine.ValueUptime` |
| Converter.Converter.ValueS8RateLimited | examples/P1P2-bridge-esp8266/P1P2_Daikin_ParameterConversion_HLINK.h:312-318 | counts the call in RSSIcnt and matches `Engine.ValueS8RateLimited` |
| Converter.Converter.ValueFlag8 | examples/P1P2-bridge-esp8266/P1P2_Daikin_ParameterConversion_HLINK.h:330-334 | matches `Engine.ValueFlag8` |
| Converter.Converter.UnknownBit | examples/P1P2-bridge-esp8266/P1P2_Daikin_ParameterConversion_HLINK.h:336-341 | matches `Engine.UnknownBit` |
| Converter.Converter.UnknownByte | examples/P1P2-bridge-esp8266/P1P2_Daikin_ParameterConversion_HLINK.h:345-350 | matches `Engine.UnknownByte` |
| Converter.Converter.ValueComputed | examples/P1P2-bridge-esp8266/P1P2_Daikin_ParameterConversion_HLINK.h:410-426 | value_f/value_s's gating matches `Engine.ValueComputed` |
| Converter.Converter.ValueF | examples/P1P2-bridge-esp8266/P1P2_Daikin_ParameterConversion_HLINK.h:410-419 | matches `Engine.ValueF` |
| Converter.Converter.ValueS | examples/P1P2-bridge-esp8266/P1P2_Daikin_ParameterConversion_HLINK.h:421-426 | matches `Engine.ValueS` |
| Converter.Converter.BitBasis | examples/P1P2-bridge-esp8266/P1P2_Daikin_ParameterConversion_HLINK.h:495 | matches `Engine.BitBasis` |
| Converter.Converter.BytesBitsToKeyValue | examples/P1P2-bridge-esp8266/P1P2_Daikin_ParameterConversion_HLINK.h:519-1107 | updates maxOutputFilter, uom, stateclass and the cache, and returns the code, key, value, letter and digit of `Engine.Dispatch` |
| Converter.Converter.ConvertField | examples/P1P2-bridge-esp8266/P1P2_Daikin_ParameterConversion_HLINK.h:519-1107 | runs one field's value function in place and ends in the state, code, key, value, letter and digit of `Engine.ConvertField` |
| Converter.Converter.BitsToKeyValue | examples/P1P2-bridge-esp8266/P1P2_Daikin_ParameterConversion_HLINK.h:1109-1113 | matches `Engine.Dispatch` |
| Converter.Converter.BytesToKeyValue | examples/P1P2-bridge-esp8266/P1P2_Daikin_ParameterConversion_HLINK.h:1115-1117 | matches `Engine.BytesToKeyValue` (bitNr 8) |
| Converter.MaskUptime | examples/P1P2-bridge-esp8266/P1P2_Daikin_ParameterConversion_HLINK.h:292-298 | masks `payload[index]` in place and leaves the rest of the payload alone |
| Converter.UptimeLoop | examples/P1P2-bridge-esp8266/P1P2_Daikin_ParameterConversion_HLINK.h:293-294 | the mask loop ends, at the least covering mask |
| Converter.UptimeMaskOf | examples/P1P2-bridge-esp8266/P1P2_Daikin_ParameterConversion_HLINK.h:292-297 | the mask is the least covering mask of `payload[i-1]` when the two bytes above are zero, and 0xFF otherwise |
| Converter.HalfMask | examples/P1P2-bridge-esp8266/P1P2_Daikin_ParameterConversion_HLINK.h:298 | `mask >> 1` is half the mask |
| Converter.NextMask | examples/P1P2-bridge-esp8266/P1P2_Daikin_ParameterConversion_HLINK.h:294 | `(mask << 1) \| 1` steps to the next mask |
| Converter.LeastMaskIs | examples/P1P2-bridge-esp8266/P1P2_Daikin_ParameterConversion_HLINK.h:294 | where the loop stops is the least covering mask |
| Converter.UptimeByte | examples/P1P2-bridge-esp8266/P1P2_Daikin_ParameterConversion_HLINK.h:298 | the byte written is the one `Engine.UptimePayload` describes |

## Left out

- MQTT and Home-Assistant discovery publishing (`HA_KEY`, `HA_VALUE`, `client_publish_mqtt`) is network I/O. It is modelled as an `announce` flag on first sightings.
- `Sprint_P` warnings are logging only.
- Text rendering of floats (`%1.3f`, `%1.1f`, `dtostrf`) is floating-point formatting. The fixed-point decoders give exact reals, and `Decoders.Render` leaves them unprinted.
- The `KEY` macro variants (PROGMEM copies, the REVERSE_ENGINEER prefix, truncation to MQTT_KEY_LEN) are not modelled. Keys are whole strings.
- The `mqttKeyPrefix` copy in bits2keyvalue is not modelled. The prefix is the returned category letter and source digit.
- The pseudo-packet cases from `P1P2_pseudo.h` are not part of this model. Packets other than the four H-link ones return 0.
- The non-SAVEPACKETS build is not modelled: it has no cache and returns a constant.
- `P1P2Config.h` holds compile-time constants only.
- Engine.ValueFormat: a field with too few bytes before its index is modelled only where newPayloadBytesVal refuses it (mapped type, admitted index): code 0, nothing written. With an unmapped type or an index past nr_bytes the source reports the bytes and then decodes `payload[payloadIndex - 1]` and earlier, before the start of the buffer; that read is outside the model, which requires the bytes to be there. No H-link field reaches either case (`Fields.NumbersAreOneByte`).
- Cache.ObserveBit: a source whose `src >> 6` is 2 or 3 reads outside the two-row tables in the source. The model rejects it: false, nothing written.
- Cache.ObserveBit: the bit path's alias of an out-of-range slot to slot 0 is not modelled. Under the corrected guard the slot is always in range (`Layout.SlotInBounds`).
- Cache.ObserveBytes: the early `return 0` for a slot ≥ 302 is not modelled. Under the corrected guard it cannot happen.
- Cache.ObserveBytes: at `index == nr_bytes` the model reports the byte as new and writes nothing, as for any index outside the region. The source's guard lets that index through: it compares with, and with saveSeen writes, the first slot of the next region, and for the last region (slot 302) it returns 0.
- Cache.ObserveBit: at `index == nr_bytes` the model reports the bit as new and writes nothing. The source compares with, and writes, bit bitNr of the next region's first slot, and for slot 302 it aliases the slot to 0.
- Fields.FieldAt: the five "useless" commented-out entries and the commented-out 210B table are not modelled, because they are not compiled.
- Converter.Converter.NewPayloadBytesVal: index, length and slot numbers are `nat`, not `byte`/`uint16_t`. Under the corrected guard the byte loop counter cannot wrap, because every index is below 42.
- Engine.ValueComputed: the `int length` of value_f/value_s is a `nat`. A negative length is not modelled.
- Converter.Converter.NewPayloadBytesVal: the payload is a read-only sequence. Only value_u32_LE_uptime writes to it, and it takes an array.

## Findings

| source | as written | input that shows it | evidently intended | confidence | as-written member | corrected member |
|---|---|---|---|---|---|---|
| examples/P1P2-bridge-esp8266/P1P2_Daikin_ParameterConversion_HLINK.h:130 | `payloadIndex > nr_bytes[pts][pti]` (at lines 130 and 193) admits `payloadIndex == nr_bytes`, one past the region | newPayloadBytesVal(0x00, 0x0B, 8, …): slot 68, also the slot of 0x2112 index 0; newPayloadBytesVal(0x40, 0x0F, 20, …): slot 302, outside the cache. Through bytesbits2keyvalue, unknown packets never reach the cache (`Engine.DispatchIgnores`), so for the four H-link packets the bug is latent: it needs an index past the checksum, e.g. 0x892D index 42 with outputUnknown on (slot 182, the first slot of the 0x4009 region), which only a caller passing an index beyond the payload produces | `payloadIndex >= nr_bytes`, so each admitted index stays in its own region | medium, not executed | Layout.AsWrittenGuardAliases | Layout.SlotInjective |
