/** The value decoders: pure functions from the payload bytes that end at
    `payload[i]` to a decoded value, and the text the firmware prints for it.
    Multi-byte readings take `payload[i]` as the least significant byte and
    `payload[i - k]` with weight 256^k, whatever the `_LE` in their names says. */
module Decoders {
  import opened Bytes
  import opened Text
  import opened Wrappers

  /** A decoded value, before formatting. */
  datatype Value =
    | Unsigned(n: nat)         // printed with %u
    | Signed(i: int)           // printed with %i
    | Hex(bytes: seq<byte>)    // printed as a quoted "0x..." string
    | Fixed(r: real)           // printed with %1.3f / %1.1f (rounding not modelled)
    | Label(text: string)      // printed as a quoted string

  function Pow2(k: nat): (r: nat)
    ensures r >= 1
  {
    if k == 0 then 1 else 2 * Pow2(k - 1)
  }

  function Pow256(k: nat): (r: nat)
    ensures r >= 1
  {
    if k == 0 then 1 else 256 * Pow256(k - 1)
  }

  // ---------------------------------------------------------------------
  // Unsigned integers

  /** The reference reading of w bytes ending at i: the sum of payload[i-k]·256^k. */
  function UnsignedAt(p: seq<byte>, i: nat, w: nat): nat
    requires w <= i + 1 && i < |p|
  {
    if w == 0 then 0 else p[i - (w - 1)] as nat * Pow256(w - 1) + UnsignedAt(p, i, w - 1)
  }

  /** A w-byte reading fits in w bytes. */
  lemma {:induction false} UnsignedAtBound(p: seq<byte>, i: nat, w: nat)
    requires w <= i + 1 && i < |p|
    ensures UnsignedAt(p, i, w) < Pow256(w)
  {
    if w > 0 {
      UnsignedAtBound(p, i, w - 1);
      var hi := p[i - (w - 1)] as nat;
      assert hi <= 255;
      assert hi * Pow256(w - 1) <= 255 * Pow256(w - 1) by {
        MulMonotone(hi, 255, Pow256(w - 1));
      }
    }
  }

  lemma MulMonotone(a: nat, b: nat, c: nat)
    requires a <= b
    ensures a * c <= b * c
  {
  }

  /** FN_u16_LE: (b[-1] << 8) | b[0]. */
  function U16Le(p: seq<byte>, i: nat): nat
    requires 1 <= i < |p|
  {
    p[i - 1] as nat * 256 + p[i] as nat
  }

  /** FN_u24_LE: (b[-2] << 16) | (b[-1] << 8) | b[0]. */
  function U24Le(p: seq<byte>, i: nat): nat
    requires 2 <= i < |p|
  {
    p[i - 2] as nat * 65536 + p[i - 1] as nat * 256 + p[i] as nat
  }

  /** FN_u32_LE: (b[-3] << 24) | (b[-2] << 16) | (b[-1] << 8) | b[0]. */
  function U32Le(p: seq<byte>, i: nat): nat
    requires 3 <= i < |p|
  {
    p[i - 3] as nat * 16777216 + p[i - 2] as nat * 65536 + p[i - 1] as nat * 256 + p[i] as nat
  }

  /** The three fixed-width readings agree with the reference sum and lie in [0, 256^w). */
  lemma UnsignedReadings(p: seq<byte>, i: nat)
    requires i < |p|
    ensures 1 <= i ==> U16Le(p, i) == UnsignedAt(p, i, 2) && U16Le(p, i) < 0x1_0000
    ensures 2 <= i ==> U24Le(p, i) == UnsignedAt(p, i, 3) && U24Le(p, i) < 0x100_0000
    ensures 3 <= i ==> U32Le(p, i) == UnsignedAt(p, i, 4) && U32Le(p, i) < 0x1_0000_0000
  {
    assert Pow256(2) == 0x1_0000 && Pow256(3) == 0x100_0000 && Pow256(4) == 0x1_0000_0000 by {
      assert Pow256(1) == 256;
      assert Pow256(2) == 256 * Pow256(1);
      assert Pow256(3) == 256 * Pow256(2);
      assert Pow256(4) == 256 * Pow256(3);
    }
    if 1 <= i {
      UnsignedAtBound(p, i, 2);
      assert UnsignedAt(p, i, 1) == p[i] as nat;
    }
    if 2 <= i { UnsignedAtBound(p, i, 3); }
    if 3 <= i {
      UnsignedAtBound(p, i, 4);
      assert UnsignedAt(p, i, 3) == p[i - 2] as nat * 65536 + UnsignedAt(p, i, 2);
      assert UnsignedAt(p, i, 4) == p[i - 3] as nat * 16777216 + UnsignedAt(p, i, 3);
    }
  }

  // ---------------------------------------------------------------------
  // Signed integers: the (int8_t) and (int16_t) casts

  /** The two's-complement reading of an unsigned value below 2·half
      (half = 128 for int8_t, 32768 for int16_t). */
  function ToSigned(n: nat, half: int): (r: int)
    requires 1 <= half && n < 2 * half
  {
    if n >= half then n - 2 * half else n
  }

  /** The bit pattern of a signed value in [-half, half). */
  function FromSigned(x: int, half: int): (n: nat)
    requires 1 <= half && -half <= x < half
    ensures n < 2 * half
  {
    if x < 0 then x + 2 * half else x
  }

  /** The signed reading lies in [-half, half) and is the inverse of taking
      the bit pattern, in both directions. */
  lemma SignedRoundTrip(n: nat, x: int, half: int)
    requires 1 <= half && n < 2 * half
    requires -half <= x < half
    ensures -half <= ToSigned(n, half) < half
    ensures FromSigned(ToSigned(n, half), half) == n
    ensures ToSigned(FromSigned(x, half), half) == x
    ensures ToSigned(n, half) < 0 <==> n >= half
  {
  }

  /** (int8_t) b */
  function S8(b: byte): (r: int)
    ensures -128 <= r < 128
    ensures r == ToSigned(b as nat, 128)
  {
    if b as nat >= 128 then b as nat - 256 else b as nat
  }

  /** (int16_t) FN_u16_LE(b) */
  function S16Le(p: seq<byte>, i: nat): (r: int)
    requires 1 <= i < |p|
    ensures -32768 <= r < 32768
  {
    UnsignedReadings(p, i);
    ToSigned(U16Le(p, i), 32768)
  }

  /** The signed 16-bit reading is the signed high byte times 256 plus the low byte. */
  lemma S16Split(p: seq<byte>, i: nat)
    requires 1 <= i < |p|
    ensures S16Le(p, i) == S8(p[i - 1]) * 256 + p[i] as int
  {
  }

  // ---------------------------------------------------------------------
  // Small one-byte formats

  /** FN_flag8(b, n) = (b >> n) & 1; a shift by 8..31 of the promoted byte gives 0. */
  function Flag8(b: byte, n: byte): (r: nat)
    ensures r <= 1
    ensures r == 1 <==> n < 8 && Bit(b, n)
  {
    if n < 8 then ((b >> n) & 1) as nat else 0
  }

  /** FN_s4abs1c: the low nibble is the magnitude and bit 4 the sign. */
  function S4Abs1c(b: byte): (r: int)
    ensures -15 <= r <= 15
    ensures (if r < 0 then -r else r) == (b & 0x0F) as int
    ensures r < 0 <==> (b & 0x10 != 0 && b & 0x0F != 0)
  {
    var c := (b & 0x0F) as int;
    if b & 0x10 != 0 then -c else c
  }

  /** Bits 5..7 play no part in the sign-magnitude reading. */
  lemma S4Abs1cIgnoresHighBits(b: byte)
    ensures S4Abs1c(b) == S4Abs1c(b & 0x1F)
  {
    assert (b & 0x1F) & 0x0F == b & 0x0F;
    assert ((b & 0x1F) & 0x10 != 0) == (b & 0x10 != 0);
  }

  /** value_u8_add2k: the byte is a year counted from 2000. */
  function Add2k(b: byte): (r: nat)
    ensures 2000 <= r <= 2255
  {
    b as nat + 2000
  }

  lemma Add2kInverse(b: byte, c: byte)
    ensures Add2k(b) == Add2k(c) <==> b == c
    ensures (Add2k(b) - 2000) as byte == b
  {
  }

  // ---------------------------------------------------------------------
  // Fixed-point formats, as exact rationals

  /** FN_f8_8: the signed high byte plus the low byte in 1/256ths. */
  function F8p8(p: seq<byte>, i: nat): (r: real)
    requires 1 <= i < |p|
    ensures -128.0 <= r < 128.0
  {
    S8(p[i - 1]) as real + (p[i] as real) / 256.0
  }

  /** f8.8 is the signed 16-bit reading scaled by 1/256. */
  lemma F8p8IsScaledS16(p: seq<byte>, i: nat)
    requires 1 <= i < |p|
    ensures F8p8(p, i) * 256.0 == S16Le(p, i) as real
  {
    S16Split(p, i);
  }

  /** FN_f8s8: the signed high byte plus the low byte in tenths. */
  function F8s8(p: seq<byte>, i: nat): (r: real)
    requires 1 <= i < |p|
    ensures -128.0 <= r <= 127.0 + 25.5
    ensures (r - S8(p[i - 1]) as real) * 10.0 == p[i] as real
  {
    S8(p[i - 1]) as real + (p[i] as real) / 10.0
  }

  /** FN_u16div10_LE: a high byte of 0xFF means "absent" and reads as 0. */
  function U16Div10(p: seq<byte>, i: nat): (r: real)
    requires 1 <= i < |p|
    ensures 0.0 <= r <= 6527.9
  {
    if p[i - 1] == 0xFF then 0.0 else (p[i] as real) * 0.1 + (p[i - 1] as real) * 25.6
  }

  /** Apart from the sentinel, the value is the unsigned 16-bit reading in tenths. */
  lemma U16Div10IsTenths(p: seq<byte>, i: nat)
    requires 1 <= i < |p|
    ensures p[i - 1] != 0xFF ==> U16Div10(p, i) == U16Le(p, i) as real / 10.0
    ensures p[i - 1] == 0xFF ==> U16Div10(p, i) == 0.0
  {
  }

  // ---------------------------------------------------------------------
  // value_u32_LE_uptime: the mask loop

  /** The byte masks 2^k - 1 for k = 1..8. */
  const Masks: seq<nat> := [1, 3, 7, 15, 31, 63, 127, 255]

  /** The least mask 2^k - 1 (k >= 1) that is at least b. */
  function LeastMask(b: byte): (m: nat)
    ensures m in Masks && m >= b as nat
    ensures forall j :: 0 <= j < |Masks| && Masks[j] >= b as nat ==> m <= Masks[j]
  {
    var v := b as nat;
    if v <= 1 then 1 else if v <= 3 then 3 else if v <= 7 then 7
    else if v <= 15 then 15 else if v <= 31 then 31 else if v <= 63 then 63
    else if v <= 127 then 127 else 255
  }

  /** Every entry of Masks is 2^(j+1) - 1. */
  lemma MasksArePowersMinusOne(j: nat)
    requires j < |Masks|
    ensures Masks[j] == Pow2(j + 1) - 1
  {
    assert Pow2(1) == 2;
    assert Pow2(2) == 2 * Pow2(1);
    assert Pow2(3) == 2 * Pow2(2);
    assert Pow2(4) == 2 * Pow2(3);
    assert Pow2(5) == 2 * Pow2(4);
    assert Pow2(6) == 2 * Pow2(5);
    assert Pow2(7) == 2 * Pow2(6);
    assert Pow2(8) == 2 * Pow2(7);
  }

  /** The mask the uptime decoder clears with: derived from payload[i-1] when
      the two bytes above it are zero, the full byte otherwise. */
  function UptimeMask(p: seq<byte>, i: nat): (m: nat)
    requires 3 <= i < |p|
    ensures m in Masks
  {
    if p[i - 3] == 0 && p[i - 2] == 0 then LeastMask(p[i - 1]) else 255
  }

  /** payload[i] with the bits of mask >> 1 cleared. */
  function UptimeLowByte(p: seq<byte>, i: nat): (b: byte)
    requires 3 <= i < |p|
    ensures b & (UptimeMask(p, i) / 2) as byte == 0
    ensures b | (p[i] & (UptimeMask(p, i) / 2) as byte) == p[i]
  {
    p[i] & !((UptimeMask(p, i) / 2) as byte)
  }

  /** The two uptime cases the decoder distinguishes, on concrete payloads. */
  lemma UptimeExamples()
    ensures var p: seq<byte> := [0x00, 0x00, 0x00, 0x05];
      UptimeMask(p, 3) == 1 && UptimeLowByte(p, 3) == 0x05 && U32Le(p[3 := UptimeLowByte(p, 3)], 3) == 5
    ensures var p: seq<byte> := [0x00, 0x00, 0x0F, 0x07];
      UptimeMask(p, 3) == 0x0F && UptimeLowByte(p, 3) == 0x00 && U32Le(p[3 := UptimeLowByte(p, 3)], 3) == 0x0F00
    ensures var p: seq<byte> := [0x00, 0x01, 0x0F, 0xFF];
      UptimeMask(p, 3) == 0xFF && UptimeLowByte(p, 3) == 0x80
  {
  }

  // ---------------------------------------------------------------------
  // The plain value_* decoders, as a table of formats

  datatype Format =
    | U8Hex | U16Hex | U24Hex | U32Hex
    | U8 | U16 | U24 | U32
    | S8Format | S16
    | U8Add2k | S4Abs1cFormat
    | U16Div10Format | F8p8Format | F8s8Format

  /** How many bytes, ending at payload[i], each format reads. */
  function Width(f: Format): (w: nat)
    ensures 1 <= w <= 4
  {
    match f
    case U8Hex => 1 case U16Hex => 2 case U24Hex => 3 case U32Hex => 4
    case U8 => 1 case U16 => 2 case U24 => 3 case U32 => 4
    case S8Format => 1 case S16 => 2
    case U8Add2k => 1 case S4Abs1cFormat => 1
    case U16Div10Format => 2 case F8p8Format => 2 case F8s8Format => 2
  }

  /** The value each plain value_* function formats once the cache lets it through. */
  function DecodeValue(f: Format, p: seq<byte>, i: nat): Value
    requires Width(f) <= i + 1 && i < |p|
  {
    match f
    case U8Hex | U16Hex | U24Hex | U32Hex => Hex(p[i + 1 - Width(f) .. i + 1])
    case U8 => Unsigned(p[i] as nat)
    case U16 => Unsigned(U16Le(p, i))
    case U24 => Unsigned(U24Le(p, i))
    case U32 => Unsigned(U32Le(p, i))
    case S8Format => Signed(S8(p[i]))
    case S16 => Signed(S16Le(p, i))
    case U8Add2k => Unsigned(Add2k(p[i]))
    case S4Abs1cFormat => Signed(S4Abs1c(p[i]))
    case U16Div10Format => Fixed(U16Div10(p, i))
    case F8p8Format => Fixed(F8p8(p, i))
    case F8s8Format => Fixed(F8s8(p, i))
  }

  /** Every unsigned format reads exactly its width: the reference sum of
      that many bytes, below 256^width. */
  lemma UnsignedFormatsReadWidth(f: Format, p: seq<byte>, i: nat)
    requires f in {U8, U16, U24, U32}
    requires Width(f) <= i + 1 && i < |p|
    ensures DecodeValue(f, p, i) == Unsigned(UnsignedAt(p, i, Width(f)))
    ensures UnsignedAt(p, i, Width(f)) < Pow256(Width(f))
  {
    UnsignedReadings(p, i);
    UnsignedAtBound(p, i, Width(f));
  }

  // ---------------------------------------------------------------------
  // Text of values and of generated keys

  function Quote(s: string): string { "\"" + s + "\"" }

  predicate IsQuoted(s: string) { |s| >= 2 && s[0] == '"' && s[|s| - 1] == '"' }

  /** What mqtt_value holds; floating-point text is not modelled. */
  function Render(v: Value): Option<string>
  {
    match v
    case Unsigned(n) => Some(Decimal(n))
    case Signed(x) => Some(SignedDecimal(x))
    case Hex(bs) => Some(Quote("0x" + HexBytes(bs)))
    case Label(s) => Some(Quote(s))
    case Fixed(_) => None
  }

  /** Hex and string values are quoted and numbers are not: downstream
      consumers tell the two kinds apart by the quotes. */
  lemma RenderQuotesExactlyText(v: Value)
    requires !v.Fixed?
    ensures Render(v).Some?
    ensures IsQuoted(Render(v).value) <==> (v.Hex? || v.Label?)
  {
    match v
    case Unsigned(n) =>
      assert IsDigit(Decimal(n)[0]);
    case Signed(x) =>
      var s := SignedDecimal(x);
      if x >= 0 { assert IsDigit(s[0]); }
    case Hex(_) =>
    case Label(_) =>
  }

  /** The hex text of bytes payload[i-w+1..i] lists them in that order:
      byte k of the field is at characters 3+2k and 4+2k. */
  lemma HexValueOrder(f: Format, p: seq<byte>, i: nat, k: nat)
    requires f in {U8Hex, U16Hex, U24Hex, U32Hex}
    requires Width(f) <= i + 1 && i < |p| && k < Width(f)
    ensures Render(DecodeValue(f, p, i)).Some?
    ensures |Render(DecodeValue(f, p, i)).value| == 4 + 2 * Width(f)
    ensures Render(DecodeValue(f, p, i)).value[3 + 2 * k .. 5 + 2 * k] == Hex2(p[i + 1 - Width(f) + k])
  {
    var bs := p[i + 1 - Width(f) .. i + 1];
    HexBytesAt(bs, k);
    var s := Quote("0x" + HexBytes(bs));
    assert s[3 + 2 * k .. 5 + 2 * k] == HexBytes(bs)[2 * k .. 2 * k + 2];
  }

  /** value_trg: the label "Empty_Payload_SS00TT" built from source and type. */
  function HeaderLabel(src: byte, ptype: byte): (v: Value)
    ensures v.Label? && |v.text| == 20
    ensures v.text[..14] == "Empty_Payload_" && v.text[16..18] == "00"
    ensures v.text[14..16] == Hex2(src) && v.text[18..20] == Hex2(ptype)
  {
    Label("Empty_Payload_" + Hex2(src) + "00" + Hex2(ptype))
  }

  /** The key unknownByte writes: PacketSrc_0xSS_Type_0xTT_Byte_<index>. */
  function UnknownByteKey(src: byte, ptype: byte, index: nat): string
  {
    "PacketSrc_0x" + Hex2(src) + "_Type_0x" + Hex2(ptype) + "_Byte_" + Decimal(index)
  }

  /** The key unknownBit writes: the byte key followed by _Bit_<bitNr>. */
  function UnknownBitKey(src: byte, ptype: byte, index: nat, bitNr: nat): string
  {
    UnknownByteKey(src, ptype, index) + "_Bit_" + Decimal(bitNr)
  }

  /** An unknown-byte key names its source, type and index unambiguously. */
  lemma UnknownByteKeyRoundTrip(src: byte, ptype: byte, index: nat)
    ensures var k := UnknownByteKey(src, ptype, index);
      && |k| > 30
      && HexValue(k[12]) >= 0 && HexValue(k[13]) >= 0 && ParseHex2(k[12..14]) == src
      && HexValue(k[22]) >= 0 && HexValue(k[23]) >= 0 && ParseHex2(k[22..24]) == ptype
      && (forall j :: 30 <= j < |k| ==> IsDigit(k[j]))
      && ParseDecimal(k[30..]) == index
  {
    var k := UnknownByteKey(src, ptype, index);
    assert k[12..14] == Hex2(src);
    assert k[22..24] == Hex2(ptype);
    assert k[30..] == Decimal(index);
    Hex2RoundTrip(src);
    Hex2RoundTrip(ptype);
    DecimalRoundTrip(index);
  }

  lemma UnknownByteKeyInjective(s1: byte, t1: byte, i1: nat, s2: byte, t2: byte, i2: nat)
    requires UnknownByteKey(s1, t1, i1) == UnknownByteKey(s2, t2, i2)
    ensures s1 == s2 && t1 == t2 && i1 == i2
  {
    UnknownByteKeyRoundTrip(s1, t1, i1);
    UnknownByteKeyRoundTrip(s2, t2, i2);
  }

  /** Decoder examples: f8.8 of [0x05, 0x80] is 5.5, div10 of [0xFF, 0x2A]
      is the sentinel 0, s8 of 0x14 is 20, and s4abs1c of 0x94 is -4. */
  lemma DecoderExamples()
    ensures F8p8([0x05, 0x80], 1) == 5.5
    ensures U16Div10([0xFF, 0x2A], 1) == 0.0
    ensures S8(0x14) == 20 && Render(Signed(S8(0x14))) == Some("20")
    ensures S4Abs1c(0x94) == -4
    ensures S8(0xEC) == -20
  {
    assert Decimal(2) == [Digit(2)] == "2";
    assert Decimal(20) == Decimal(2) + [Digit(0)] == "20";
    assert SignedDecimal(20) == "20";
  }
}
