/**
 * `Buffer.prototype.toString('hex')`: two lower-case hexadecimal digits per byte, high
 * nibble first; and a strict decoder for the strings it produces, as its inverse.
 */
module Hex {
  import opened Binary
  import opened Results

  const HexDigits: string := "0123456789abcdef"

  function HexByte(b: Byte): (r: string)
    ensures |r| == 2
  {
    [HexDigits[b / 16], HexDigits[b % 16]]
  }

  /** The hex rendering of a byte sequence: twice as many characters as bytes. */
  function ToHex(bytes: seq<Byte>): (r: string)
    ensures |r| == 2 * |bytes|
  {
    if |bytes| == 0 then "" else HexByte(bytes[0]) + ToHex(bytes[1..])
  }

  /** The value of one lower-case hex digit, if it is one. */
  function DigitValue(ch: char): (r: Option<nat>)
    ensures r.Some? ==> r.value < 16 && HexDigits[r.value] == ch
  {
    if '0' <= ch <= '9' then Some(ch as int - '0' as int)
    else if 'a' <= ch <= 'f' then Some(ch as int - 'a' as int + 10)
    else None
  }

  /** Decode pairs of lower-case hex digits; anything else, or an odd length, has no decoding. */
  function HexDecode(s: string): (r: Option<seq<Byte>>)
    ensures r.Some? ==> 2 * |r.value| == |s|
  {
    if |s| == 0 then Some([])
    else if |s| == 1 then None
    else
      match (DigitValue(s[0]), DigitValue(s[1]), HexDecode(s[2..]))
      case (Some(hi), Some(lo), Some(rest)) => Some([hi * 16 + lo] + rest)
      case _ => None
  }

  lemma DigitValueOfDigit(d: nat)
    requires d < 16
    ensures DigitValue(HexDigits[d]) == Some(d)
  {
    if d < 10 {
      assert HexDigits[d] as int == '0' as int + d;
    } else {
      assert HexDigits[d] as int == 'a' as int + d - 10;
    }
  }

  /** Both digits of a byte decode, and recombine to the byte. */
  lemma HexByteDigits(b: Byte)
    ensures DigitValue(HexByte(b)[0]) == Some(b / 16)
    ensures DigitValue(HexByte(b)[1]) == Some(b % 16)
    ensures (b / 16) * 16 + b % 16 == b
  {
    DigitValueOfDigit(b / 16);
    DigitValueOfDigit(b % 16);
  }

  lemma HexDecodeStep(s: string, hi: nat, lo: nat, rest: seq<Byte>)
    requires |s| >= 2 && DigitValue(s[0]) == Some(hi) && DigitValue(s[1]) == Some(lo)
    requires HexDecode(s[2..]) == Some(rest)
    ensures hi * 16 + lo < 256 && HexDecode(s) == Some([hi * 16 + lo] + rest)
  {
  }

  /** The rendering of a non-empty sequence: the first byte's two digits, then the rest. */
  lemma ToHexFirst(bytes: seq<Byte>)
    requires |bytes| > 0
    ensures ToHex(bytes)[0] == HexByte(bytes[0])[0] && ToHex(bytes)[1] == HexByte(bytes[0])[1]
    ensures ToHex(bytes)[2..] == ToHex(bytes[1..])
  {
    assert ToHex(bytes) == HexByte(bytes[0]) + ToHex(bytes[1..]);
  }

  /** Decoding a hex rendering gives back the bytes. */
  lemma {:induction false} HexRoundTrip(bytes: seq<Byte>)
    ensures HexDecode(ToHex(bytes)) == Some(bytes)
  {
    if |bytes| > 0 {
      var b := bytes[0];
      ToHexFirst(bytes);
      HexByteDigits(b);
      HexRoundTrip(bytes[1..]);
      HexDecodeStep(ToHex(bytes), b / 16, b % 16, bytes[1..]);
      assert bytes == [b] + bytes[1..];
    }
  }
}
