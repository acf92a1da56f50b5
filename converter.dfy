/** The converter as the firmware runs it: the two cache arrays and the
    globals as fields of one object, and each function of the header as a
    method that updates them in place. Every method is proved to leave
    exactly the state, and to produce exactly the output, that module Engine
    (and, below it, module Cache) describes. */
module Converter {
  import opened Bytes
  import opened Wrappers
  import opened Layout
  import opened Cache
  import opened Decoders
  import opened Fields
  import opened Engine

  /** What one call hands back to its caller: the return code, what it wrote
      into mqtt_key and mqtt_value (None: left alone), and whether it sent a
      discovery message. */
  datatype Output = Output(code: nat, key: Option<string>, value: Option<Value>, announce: bool)

  function OutputOf(r: Reply): Output
  {
    Output(r.code, r.key, r.value, r.announce)
  }

  class Converter {
    /** payloadByteVal and payloadByteSeen. */
    const byteVal: array<byte>
    const byteSeen: array<byte>
    var outputFilter: nat
    var maxOutputFilter: nat
    var outputMode: bv32
    var outputUnknown: bool
    /** RSSIcnt, the counter of value_s8_ratelimited. */
    var rssiCnt: nat
    var uom: nat
    var stateClass: nat

    predicate Valid()
      reads this
    {
      byteVal.Length == SizeValSeen && byteSeen.Length == SizeValSeen && byteVal != byteSeen && rssiCnt < 256
    }

    function Contents(): CacheState
      reads byteVal, byteSeen
    {
      CacheState(byteVal[..], byteSeen[..])
    }

    function Dials(): Dial
      reads this
    {
      Dial(outputFilter, maxOutputFilter, outputMode)
    }

    /** The object as the value module Engine works on. */
    function State(): Globals
      reads this, byteVal, byteSeen
    {
      Globals(Contents(), outputFilter, maxOutputFilter, outputMode, outputUnknown, rssiCnt, uom, stateClass)
    }

    /** Power-up: both arrays zero, maxOutputFilter 0, RSSIcnt 0xFF, uom and
        stateclass 0; the bridge settings are given. */
    constructor(outputFilter: nat, outputMode: bv32, outputUnknown: bool)
      ensures Valid() && fresh(byteVal) && fresh(byteSeen)
      ensures State() == Globals(EmptyCache(), outputFilter, 0, outputMode, outputUnknown, 0xFF, 0, 0)
      ensures GlobalsOk(State())
    {
      byteVal := new byte[SizeValSeen](_ => 0);
      byteSeen := new byte[SizeValSeen](_ => 0);
      this.outputFilter := outputFilter;
      this.maxOutputFilter := 0;
      this.outputMode := outputMode;
      this.outputUnknown := outputUnknown;
      rssiCnt := 0xFF;
      uom := 0;
      stateClass := 0;
    }

    /** newPayloadBytesVal: walk payload bytes index+1-length .. index,
        comparing each with its slot and (with saveSeen) storing it. */
    method NewPayloadBytesVal(src: byte, ptype: byte, index: nat, p: seq<byte>, haConfig: bool, length: nat, saveSeen: bool)
      returns (isNew: bool, announce: bool)
      requires Valid() && index < |p|
      modifies byteVal, byteSeen
      ensures var o := ObserveBytes(old(Contents()), src, ptype, index, p, haConfig, length, saveSeen, Dials());
        isNew == o.reported && announce == o.announce && Contents() == o.cache
    {
      var pub := haConfig || outputMode & 0x10000 != 0;
      var newByte := outputFilter == 0;
      var addr := ByteAddress(src, ptype);
      if addr.None? {
        return pub, false;
      }
      var a := addr.value;
      if !Admits(a, index) {
        return pub, false;
      }
      if index + 1 < length {
        return false, false;
      }
      var lo := index + 1 - length;
      newByte, announce := ScanBytes(a, p, lo, index, saveSeen, haConfig, newByte);
      return pub && newByte, announce;
    }

    /** The loop of newPayloadBytesVal over payload bytes lo .. index. */
    method ScanBytes(a: Address, p: seq<byte>, lo: nat, index: nat, saveSeen: bool, haConfig: bool, newByte0: bool)
      returns (newByte: bool, pubHA: bool)
      requires Valid() && InTable(a) && lo <= index + 1 <= Nr(a) && index < |p|
      requires newByte0 == (outputFilter == 0)
      modifies byteVal, byteSeen
      ensures StepState(Contents(), newByte, pubHA) == Scan(old(Contents()), a, p, lo, index + 1, saveSeen, haConfig, Dials())
    {
      ghost var c0 := Contents();
      ghost var d := Dials();
      newByte, pubHA := newByte0, false;
      var i := lo;
      while i <= index
        invariant lo <= i <= index + 1
        invariant Dials() == d
        invariant StepState(Contents(), newByte, pubHA) == Scan(c0, a, p, lo, i, saveSeen, haConfig, d)
      {
        newByte, pubHA := CompareByte(a, p, i, saveSeen, haConfig, newByte, pubHA);
        i := i + 1;
      }
    }

    /** One pass of the loop of newPayloadBytesVal, over payload byte i. */
    method CompareByte(a: Address, p: seq<byte>, i: nat, saveSeen: bool, haConfig: bool, newByte: bool, pubHA: bool)
      returns (newByte': bool, pubHA': bool)
      requires Valid() && InTable(a) && Admits(a, i) && i < |p|
      modifies byteVal, byteSeen
      ensures StepState(Contents(), newByte', pubHA') == Cache.ByteStep(StepState(old(Contents()), newByte, pubHA), a, p, i, saveSeen, haConfig, Dials())
    {
      SlotInBounds(a, i);
      var s := Start(a) + i;
      newByte', pubHA' := newByte, pubHA;
      if byteSeen[s] != 0 {
        if byteVal[s] != p[i] {
          newByte' := outputFilter <= maxOutputFilter;
          if saveSeen {
            byteVal[s] := p[i];
          }
        }
      } else {
        newByte' := true;
        if saveSeen {
          pubHA' := haConfig;
          byteSeen[s] := 0xFF;
          byteVal[s] := p[i];
        }
      }
    }

    /** newPayloadBitVal: compare and store bit bitNr of payload[index]. */
    method NewPayloadBitVal(src: byte, ptype: byte, index: nat, p: seq<byte>, haConfig: bool, bitNr: byte)
      returns (isNew: bool, announce: bool)
      requires Valid() && index < |p|
      modifies byteVal, byteSeen
      ensures var o := ObserveBit(old(Contents()), src, ptype, index, p, haConfig, bitNr, Dials());
        isNew == o.reported && announce == o.announce && Contents() == o.cache
    {
      var pub := haConfig || outputMode & 0x10000 != 0;
      if bitNr > 7 {
        return pub, false;
      }
      var col := BitColumn(ptype);
      if col.None? {
        return pub, false;
      }
      if BitRow(src) >= Rows {
        return false, false;
      }
      var a := Address(BitRow(src), col.value);
      if !Admits(a, index) {
        return pub, false;
      }
      SlotInBounds(a, index);
      var newBit', ann := CompareBit(Start(a) + index, p[index], bitNr, haConfig);
      return pub && newBit' && outputFilter <= maxOutputFilter, ann;
    }

    /** The final branch of newPayloadBitVal, on slot s. */
    method CompareBit(s: nat, b: byte, bitNr: byte, haConfig: bool) returns (newBit: bool, announce: bool)
      requires Valid() && s < SizeValSeen && bitNr < 8
      modifies byteVal, byteSeen
      ensures StepState(Contents(), newBit, announce) == BitStep(old(Contents()), s, b, bitNr, haConfig, Dials())
    {
      var mask := BitMask(bitNr);
      newBit := outputFilter == 0;
      announce := false;
      if byteSeen[s] & mask != 0 {
        if (byteVal[s] ^ b) & mask != 0 {
          newBit := outputFilter <= maxOutputFilter;
          byteVal[s] := (byteVal[s] & (0xFF ^ mask)) | (b & mask);
        }
      } else {
        announce := haConfig;
        newBit := true;
        byteVal[s] := (byteVal[s] & (0xFF ^ mask)) | (b & mask);
        byteSeen[s] := byteSeen[s] | mask;
      }
    }

    /** value_u8hex .. value_f8s8: gate on the last Width(f) bytes, then
        print the decoded value. */
    method ValueFormat(f: Format, src: byte, ptype: byte, index: nat, p: seq<byte>, haConfig: bool)
      returns (out: Output)
      requires Valid() && index < |p| && WidthFits(f, src, ptype, index)
      modifies byteVal, byteSeen
      ensures var r := Engine.ValueFormat(old(State()), f, src, ptype, index, p, haConfig);
        out == OutputOf(r) && State() == r.globals
    {
      var isNew, ann := NewPayloadBytesVal(src, ptype, index, p, haConfig, Width(f), true);
      if !isNew {
        return Output(0, None, None, ann);
      }
      return Output(1, None, Some(DecodeValue(f, p, index)), ann);
    }

    /** value_u32_LE_uptime: mask payload[index] in the caller's payload,
        then read it as u32. */
    method ValueU32Uptime(src: byte, ptype: byte, index: nat, p: array<byte>, haConfig: bool)
      returns (out: Output)
      requires Valid() && 3 <= index < p.Length && p != byteVal && p != byteSeen
      modifies byteVal, byteSeen, p
      ensures p[..] == UptimePayload(old(p[..]), index)
      ensures var r := ValueUptime(old(State()), src, ptype, index, old(p[..]), haConfig);
        out == OutputOf(r) && State() == r.globals
    {
      MaskUptime(p, index);
      out := ValueFormat(U32, src, ptype, index, p[..], haConfig);
    }

    /** value_s8_ratelimited: count the call, and consult the cache only when
        the counter wraps to 0. */
    method ValueS8RateLimited(src: byte, ptype: byte, index: nat, p: seq<byte>, haConfig: bool)
      returns (out: Output)
      requires Valid() && index < |p|
      modifies this, byteVal, byteSeen
      ensures Valid()
      ensures var r := Engine.ValueS8RateLimited(old(State()), src, ptype, index, p, haConfig);
        out == OutputOf(r) && State() == r.globals
    {
      rssiCnt := (rssiCnt + 1) % 256;
      if rssiCnt != 0 {
        return Output(0, None, None, false);
      }
      out := ValueFormat(S8Format, src, ptype, index, p, haConfig);
    }

    /** value_flag8. */
    method ValueFlag8(src: byte, ptype: byte, index: nat, p: seq<byte>, haConfig: bool, bitNr: byte)
      returns (out: Output)
      requires Valid() && index < |p|
      modifies byteVal, byteSeen
      ensures var r := Engine.ValueFlag8(old(State()), src, ptype, index, p, haConfig, bitNr);
        out == OutputOf(r) && State() == r.globals
    {
      var isNew, ann := NewPayloadBitVal(src, ptype, index, p, haConfig, bitNr);
      if !isNew {
        return Output(0, None, None, ann);
      }
      return Output(1, None, Some(Signed(Flag8(p[index], bitNr))), ann);
    }

    /** unknownBit: only with outputUnknown; writes its own key. */
    method UnknownBit(src: byte, ptype: byte, index: nat, p: seq<byte>, haConfig: bool, bitNr: byte)
      returns (out: Output)
      requires Valid() && index < |p|
      modifies byteVal, byteSeen
      ensures var r := Engine.UnknownBit(old(State()), src, ptype, index, p, haConfig, bitNr);
        out == OutputOf(r) && State() == r.globals
    {
      if !outputUnknown {
        return Output(0, None, None, false);
      }
      var isNew, ann := NewPayloadBitVal(src, ptype, index, p, haConfig, bitNr);
      if !isNew {
        return Output(0, None, None, ann);
      }
      return Output(1, Some(UnknownBitKey(src, ptype, index, bitNr as nat)), Some(Signed(Flag8(p[index], bitNr))), ann);
    }

    /** unknownByte: only with outputUnknown; writes its own key and the
        byte in hex. */
    method UnknownByte(src: byte, ptype: byte, index: nat, p: seq<byte>, haConfig: bool)
      returns (out: Output)
      requires Valid() && index < |p|
      modifies byteVal, byteSeen
      ensures var r := Engine.UnknownByte(old(State()), src, ptype, index, p, haConfig);
        out == OutputOf(r) && State() == r.globals
    {
      if !outputUnknown {
        return Output(0, None, None, false);
      }
      var isNew, ann := NewPayloadBytesVal(src, ptype, index, p, haConfig, 1, true);
      if !isNew {
        return Output(0, None, None, ann);
      }
      return Output(1, Some(UnknownByteKey(src, ptype, index)), Some(Hex([p[index]])), ann);
    }

    /** value_f / value_s: the caller's computed value, gated on length
        bytes when a length is given. */
    method ValueComputed(src: byte, ptype: byte, index: nat, p: seq<byte>, haConfig: bool, v: Value, length: nat)
      returns (out: Output)
      requires Valid() && index < |p|
      modifies byteVal, byteSeen
      ensures var r := Engine.ValueComputed(old(State()), src, ptype, index, p, haConfig, v, length);
        out == OutputOf(r) && State() == r.globals
    {
      var isNew, ann;
      if length != 0 {
        isNew, ann := NewPayloadBytesVal(src, ptype, index, p, haConfig, length, true);
        if !isNew {
          return Output(0, None, None, ann);
        }
      } else {
        isNew, ann := NewPayloadBytesVal(src, ptype, index, p, haConfig, 1, true);
      }
      return Output(if outputFilter > maxOutputFilter then 0 else 1, None, Some(v), ann);
    }

    /** value_f: v is the caller's computed real. */
    method ValueF(src: byte, ptype: byte, index: nat, p: seq<byte>, haConfig: bool, v: real, length: nat)
      returns (out: Output)
      requires Valid() && index < |p|
      modifies byteVal, byteSeen
      ensures var r := Engine.ValueF(old(State()), src, ptype, index, p, haConfig, v, length);
        out == OutputOf(r) && State() == r.globals
    {
      out := ValueComputed(src, ptype, index, p, haConfig, Fixed(v), length);
    }

    /** value_s: v is the caller's computed integer. */
    method ValueS(src: byte, ptype: byte, index: nat, p: seq<byte>, haConfig: bool, v: int, length: nat)
      returns (out: Output)
      requires Valid() && index < |p|
      modifies byteVal, byteSeen
      ensures var r := Engine.ValueS(old(State()), src, ptype, index, p, haConfig, v, length);
        out == OutputOf(r) && State() == r.globals
    {
      out := ValueComputed(src, ptype, index, p, haConfig, Signed(v), length);
    }

    /** BITBASIS: observe the byte without saving it; 8 when it is new. */
    method BitBasis(src: byte, ptype: byte, index: nat, p: seq<byte>, haConfig: bool)
      returns (out: Output)
      requires Valid() && index < |p|
      modifies byteVal, byteSeen
      ensures var r := Engine.BitBasis(old(State()), src, ptype, index, p, haConfig);
        out == OutputOf(r) && State() == r.globals
    {
      var isNew, ann := NewPayloadBytesVal(src, ptype, index, p, haConfig, 1, false);
      return Output(if isNew then 8 else 0, None, None, ann);
    }

    /** bytesbits2keyvalue: reset the per-call globals, look the field up in
        the table and run its value function. Also returns the category
        letter and source digit written into the key prefix. */
    method BytesBitsToKeyValue(src: byte, ptype: byte, index: nat, p: seq<byte>, bitNr: byte)
      returns (out: Output, letter: char, digit: char)
      requires Valid() && index < |p|
      modifies this, byteVal, byteSeen
      ensures Valid()
      ensures var r := Dispatch(old(State()), src, ptype, index, p, bitNr);
        out == OutputOf(r.reply) && letter == r.letter && digit == r.digit && State() == r.reply.globals
    {
      maxOutputFilter := 9;
      uom := 0;
      stateClass := 0;
      var packet := PacketCategory(src, ptype);
      if packet.None? {
        return Output(0, None, None, false), 'U', SourceDigit(src);
      }
      var f := FieldAt(src, ptype, index);
      var t := FieldTag(packet.value, f);
      NumbersAreOneByte(src, ptype, index);
      maxOutputFilter := t.maxOutputFilter;
      out, letter, digit := ConvertField(src, ptype, index, p, bitNr, f, t);
    }

    /** The switch on the field of a known packet: its value function, with
        the field's maxOutputFilter already set and uom and stateclass reset. */
    method ConvertField(src: byte, ptype: byte, index: nat, p: seq<byte>, bitNr: byte, f: Field, t: Tag)
      returns (out: Output, letter: char, digit: char)
      requires Valid() && index < |p| && WellFormedField(f)
      requires f.Number? ==> Width(f.format) == 1
      modifies this, byteVal, byteSeen
      ensures Valid()
      ensures var r := Engine.ConvertField(old(State()), src, ptype, index, p, bitNr, f, t);
        out == OutputOf(r.reply) && letter == r.letter && digit == r.digit && State() == r.reply.globals
    {
      digit := SourceDigit(src);
      letter := t.letter;
      match f
      case Checksum =>
        out := Output(0, None, None, false);
      case UnknownField =>
        out := UnknownByte(src, ptype, index, p, true);
        letter := 'U';
      case Number(name, _, unit, format) =>
        uom := Uom(unit);
        stateClass := StateClass(unit);
        out := ValueFormat(format, src, ptype, index, p, true);
        out := out.(key := Some(name));
      case Bits(names) =>
        if bitNr == 8 {
          out := BitBasis(src, ptype, index, p, true);
        } else if bitNr < 8 && names[bitNr].Some? {
          out := ValueFlag8(src, ptype, index, p, true, bitNr);
          out := out.(key := Some(names[bitNr].value));
        } else {
          out := UnknownBit(src, ptype, index, p, true, bitNr);
          letter := 'U';
        }
    }

    /** bits2keyvalue: the same call; the prefix copy into mqtt_key is the
        letter and digit returned. */
    method BitsToKeyValue(src: byte, ptype: byte, index: nat, p: seq<byte>, bitNr: byte)
      returns (out: Output, letter: char, digit: char)
      requires Valid() && index < |p|
      modifies this, byteVal, byteSeen
      ensures Valid()
      ensures var r := Dispatch(old(State()), src, ptype, index, p, bitNr);
        out == OutputOf(r.reply) && letter == r.letter && digit == r.digit && State() == r.reply.globals
    {
      out, letter, digit := BytesBitsToKeyValue(src, ptype, index, p, bitNr);
    }

    /** bytes2keyvalue: the whole byte, bitNr 8. */
    method BytesToKeyValue(src: byte, ptype: byte, index: nat, p: seq<byte>)
      returns (out: Output, letter: char, digit: char)
      requires Valid() && index < |p|
      modifies this, byteVal, byteSeen
      ensures Valid()
      ensures var r := Engine.BytesToKeyValue(old(State()), src, ptype, index, p);
        out == OutputOf(r.reply) && letter == r.letter && digit == r.digit && State() == r.reply.globals
    {
      out, letter, digit := BitsToKeyValue(src, ptype, index, p, 8);
    }
  }

  /** The masking of value_u32_LE_uptime, in the caller's payload: when the
      two high bytes are zero, widen the mask to cover payload[index - 1],
      else take 0xFF; then clear the bits of mask >> 1 in payload[index]. */
  method MaskUptime(p: array<byte>, index: nat)
    requires 3 <= index < p.Length
    modifies p
    ensures p[..] == UptimePayload(old(p[..]), index)
  {
    var b := UptimeLowOf(p[..], index);
    p[index] := b;
  }

  /** The byte the uptime mask leaves at payload[index]. */
  method UptimeLowOf(q: seq<byte>, index: nat) returns (b: byte)
    requires 3 <= index < |q|
    ensures b == UptimeLowByte(q, index)
  {
    var mask := UptimeMaskOf(q[index - 3], q[index - 2], q[index - 1]);
    b := q[index] & !(mask >> 1);
    UptimeByte(q, index, mask);
  }

  /** bitMaskUptime: widened by the loop when the two high bytes are zero, else 0xFF. */
  method UptimeMaskOf(b3: byte, b2: byte, b1: byte) returns (mask: byte)
    ensures mask as nat == if b3 == 0 && b2 == 0 then LeastMask(b1) else 255
  {
    if b3 == 0 && b2 == 0 {
      mask := UptimeLoop(b1);
    } else {
      mask := 0xFF;
    }
  }

  /** Clearing the bits of mask >> 1 gives the byte the decoder reads. */
  lemma UptimeByte(p: seq<byte>, index: nat, mask: byte)
    requires 3 <= index < |p| && mask as nat == UptimeMask(p, index)
    ensures p[index] & !(mask >> 1) == UptimeLowByte(p, index)
  {
    HalfMask(mask);
  }

  /** The uptime mask loop: widen 1, 3, 7, .. until it covers b. */
  method UptimeLoop(b: byte) returns (mask: byte)
    ensures mask as nat == LeastMask(b)
  {
    mask := 0x01;
    ghost var j := 0;
    while b > mask
      invariant 0 <= j < |Masks| && mask as nat == Masks[j]
      invariant forall k :: 0 <= k < j ==> Masks[k] < b as nat
      decreases 0xFF - mask as nat
    {
      NextMask(j);
      mask := mask << 1;
      mask := mask | 1;
      j := j + 1;
    }
    LeastMaskIs(b, j);
  }

  /** Halving a mask is shifting it right. */
  lemma HalfMask(m: byte)
    requires m as nat in Masks
    ensures m >> 1 == (m as nat / 2) as byte
  {
  }

  /** Shifting a mask left and setting bit 0 gives the next mask. */
  lemma NextMask(j: nat)
    requires j < |Masks| - 1
    ensures ((Masks[j] as byte) << 1) | 1 == Masks[j + 1] as byte
  {
    if j == 0 {
      assert ((1 as byte) << 1) | 1 == 3;
    } else if j == 1 {
      assert ((3 as byte) << 1) | 1 == 7;
    } else if j == 2 {
      assert ((7 as byte) << 1) | 1 == 15;
    } else if j == 3 {
      assert ((15 as byte) << 1) | 1 == 31;
    } else if j == 4 {
      assert ((31 as byte) << 1) | 1 == 63;
    } else if j == 5 {
      assert ((63 as byte) << 1) | 1 == 127;
    } else {
      assert ((127 as byte) << 1) | 1 == 255;
    }
  }

  /** The first mask at least b, with every earlier one below b, is LeastMask(b). */
  lemma LeastMaskIs(b: byte, j: nat)
    requires j < |Masks| && Masks[j] >= b as nat
    requires forall k :: 0 <= k < j ==> Masks[k] < b as nat
    ensures Masks[j] == LeastMask(b)
  {
  }
}
