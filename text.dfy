/** Bytes as the firmware sees them, and the two ways it turns numbers into
    text: `%02X` (two upper-case hex digits) and `%u` / `%i` (decimal). */
module Bytes {

  /** One payload or cache byte; bit-vector so that masks and shifts are exact. */
  type byte = bv8

  /** The single-bit mask `1 << k`. */
  function BitMask(k: byte): byte
    requires k < 8
  {
    1 << k
  }

  /** Bit `k` of `b` (bit 0 is the least significant). */
  predicate Bit(b: byte, k: byte)
    requires k < 8
  {
    b & BitMask(k) != 0
  }

  /** Each mask has exactly its own bit, and testing it is `(b >> k) & 1`. */
  lemma BitMaskBits(k: byte)
    requires k < 8
    ensures Bit(BitMask(k), k) && forall j: byte :: j < 8 && j != k ==> !Bit(BitMask(k), j)
    ensures forall b: byte :: Bit(b, k) <==> (b >> k) & 1 == 1
  {
  }
}

module Text {
  import opened Bytes

  const HexDigits: string := "0123456789ABCDEF"

  predicate IsDigit(c: char) { '0' as int <= c as int <= '9' as int }

  /** `%02X` of one byte: the high nibble first. */
  function Hex2(b: byte): (s: string)
    ensures |s| == 2
    ensures s[0] == HexDigits[b as int / 16] && s[1] == HexDigits[b as int % 16]
  {
    [HexDigits[b as int / 16], HexDigits[b as int % 16]]
  }

  /** The value of one upper-case hex digit, or -1. */
  function HexValue(c: char): (v: int)
    ensures -1 <= v < 16
    ensures 0 <= v ==> HexDigits[v] == c
  {
    if '0' <= c <= '9' then c as int - '0' as int
    else if 'A' <= c <= 'F' then c as int - 'A' as int + 10
    else -1
  }

  lemma HexValueOfDigit(n: nat)
    requires n < 16
    ensures HexValue(HexDigits[n]) == n
  {
  }

  function ParseHex2(s: string): (b: byte)
    requires |s| == 2 && HexValue(s[0]) >= 0 && HexValue(s[1]) >= 0
  {
    (HexValue(s[0]) * 16 + HexValue(s[1])) as byte
  }

  /** Two hex digits determine their byte. */
  lemma Hex2RoundTrip(b: byte)
    ensures HexValue(Hex2(b)[0]) >= 0 && HexValue(Hex2(b)[1]) >= 0
    ensures ParseHex2(Hex2(b)) == b
  {
    HexValueOfDigit(b as int / 16);
    HexValueOfDigit(b as int % 16);
  }

  /** `%02X%02X...` of several bytes, in the order given. */
  function HexBytes(bs: seq<byte>): (s: string)
    ensures |s| == 2 * |bs|
  {
    if bs == [] then [] else Hex2(bs[0]) + HexBytes(bs[1..])
  }

  /** The pair of digits at position 2k spells byte k: the text keeps the byte order. */
  lemma {:induction false} HexBytesAt(bs: seq<byte>, k: nat)
    requires k < |bs|
    ensures HexBytes(bs)[2 * k .. 2 * k + 2] == Hex2(bs[k])
  {
    var h, t := Hex2(bs[0]), HexBytes(bs[1..]);
    assert HexBytes(bs) == h + t;
    if k > 0 {
      HexBytesAt(bs[1..], k - 1);
      assert (h + t)[2 * k .. 2 * k + 2] == t[2 * (k - 1) .. 2 * (k - 1) + 2];
    } else {
      assert (h + t)[..2] == h;
    }
  }

  predicate AllHex(s: string) { forall i :: 0 <= i < |s| ==> HexValue(s[i]) >= 0 }

  function ParseHexBytes(s: string): (bs: seq<byte>)
    requires |s| % 2 == 0 && AllHex(s)
    ensures |bs| == |s| / 2
  {
    if s == [] then [] else [ParseHex2(s[..2])] + ParseHexBytes(s[2..])
  }

  /** The hex text of a byte sequence parses back to that sequence. */
  lemma {:induction false} HexBytesRoundTrip(bs: seq<byte>)
    ensures AllHex(HexBytes(bs))
    ensures ParseHexBytes(HexBytes(bs)) == bs
  {
    if bs != [] {
      HexBytesRoundTrip(bs[1..]);
      Hex2RoundTrip(bs[0]);
      var s := HexBytes(bs);
      assert s == Hex2(bs[0]) + HexBytes(bs[1..]);
      assert s[..2] == Hex2(bs[0]);
      assert s[2..] == HexBytes(bs[1..]);
    }
  }

  function Digit(d: nat): (c: char)
    requires d < 10
    ensures IsDigit(c)
  {
    ['0', '1', '2', '3', '4', '5', '6', '7', '8', '9'][d]
  }

  /** `%u` of a natural number: no sign, no leading zeros. */
  function Decimal(n: nat): (s: string)
    ensures |s| >= 1 && forall i :: 0 <= i < |s| ==> IsDigit(s[i])
    ensures |s| > 1 ==> s[0] != '0'
  {
    if n < 10 then [Digit(n)] else Decimal(n / 10) + [Digit(n % 10)]
  }

  function ParseDecimal(s: string): (n: nat)
    requires forall i :: 0 <= i < |s| ==> IsDigit(s[i])
  {
    if s == [] then 0
    else
      assert IsDigit(s[|s| - 1]);
      ParseDecimal(s[..|s| - 1]) * 10 + (s[|s| - 1] as int - '0' as int)
  }

  /** Decimal text parses back to its number. */
  lemma {:induction false} DecimalRoundTrip(n: nat)
    ensures ParseDecimal(Decimal(n)) == n
  {
    if n >= 10 {
      DecimalRoundTrip(n / 10);
      var s := Decimal(n);
      assert s[..|s| - 1] == Decimal(n / 10);
    }
  }

  /** `%i` of an integer: a minus sign before the magnitude when negative. */
  function SignedDecimal(i: int): (s: string)
    ensures |s| >= 1 && (s[0] == '-' || IsDigit(s[0]))
  {
    if i < 0 then "-" + Decimal(-i) else Decimal(i)
  }

  function ParseSignedDecimal(s: string): int
    requires |s| >= 1
    requires s[0] == '-' ==> forall i :: 1 <= i < |s| ==> IsDigit(s[i])
    requires s[0] != '-' ==> forall i :: 0 <= i < |s| ==> IsDigit(s[i])
  {
    if s[0] == '-' then -(ParseDecimal(s[1..]) as int) else ParseDecimal(s)
  }

  lemma SignedDecimalRoundTrip(i: int)
    ensures var s := SignedDecimal(i);
      && (s[0] == '-' ==> forall k :: 1 <= k < |s| ==> IsDigit(s[k]))
      && (s[0] != '-' ==> forall k :: 0 <= k < |s| ==> IsDigit(s[k]))
      && ParseSignedDecimal(s) == i
  {
    var s := SignedDecimal(i);
    if i < 0 {
      var m := Decimal(-i);
      DecimalRoundTrip(-i);
      assert s == "-" + m && s[1..] == m;
      assert forall k :: 1 <= k < |s| ==> s[k] == m[k - 1];
    } else {
      DecimalRoundTrip(i);
      assert s == Decimal(i) && IsDigit(s[0]);
    }
  }
}
