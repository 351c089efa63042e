/** Hexadecimal text of bytes, as `Buffer.toString('hex')` writes it (lower
    case, two digits per byte), and the decoder that inverts it. */
module Hex {
  import opened Records

  const LowerDigits := "0123456789abcdef"
  const UpperDigits := "0123456789ABCDEF"

  /** The value of one hexadecimal digit, in either case. */
  function DigitValue(c: char): (r: Option<int>)
    ensures r.Some? ==> 0 <= r.value < 16
  {
    if '0' <= c <= '9' then Some(c as int - '0' as int)
    else if 'a' <= c <= 'f' then Some(c as int - 'a' as int + 10)
    else if 'A' <= c <= 'F' then Some(c as int - 'A' as int + 10)
    else None
  }

  lemma DigitValueOfDigit(n: int)
    requires 0 <= n < 16
    ensures DigitValue(LowerDigits[n]) == Some(n)
    ensures DigitValue(UpperDigits[n]) == Some(n)
  {
  }

  /** Two lower-case digits per byte, high nibble first. */
  function Encode(bs: seq<byte>): (s: string)
    ensures |s| == 2 * |bs|
    ensures forall i :: 0 <= i < |s| ==> s[i] in LowerDigits
  {
    if |bs| == 0 then ""
    else [LowerDigits[bs[0] as int / 16], LowerDigits[bs[0] as int % 16]] + Encode(bs[1..])
  }

  /** Reads pairs of digits back into bytes; `None` on an odd length or a
      character that is not a digit. */
  function Decode(s: string): Option<seq<byte>>
  {
    if |s| == 0 then Some([])
    else if |s| == 1 then None
    else
      match (DigitValue(s[0]), DigitValue(s[1]), Decode(s[2..]))
      case (Some(hi), Some(lo), Some(rest)) => Some([(hi * 16 + lo) as byte] + rest)
      case _ => None
  }

  /** Decoding two digits written for `b` in front of `rest`. */
  lemma DecodeByteThen(b: byte, rest: string)
    ensures Decode([LowerDigits[b as int / 16], LowerDigits[b as int % 16]] + rest)
         == if Decode(rest).Some? then Some([b] + Decode(rest).value) else None
  {
    var s := [LowerDigits[b as int / 16], LowerDigits[b as int % 16]] + rest;
    var hi, lo := b as int / 16, b as int % 16;
    DigitValueOfDigit(hi);
    DigitValueOfDigit(lo);
    assert s[2..] == rest;
    assert (hi * 16 + lo) as byte == b;
  }

  /** Decoding the hex text of any bytes gives those bytes back. */
  lemma {:induction false} DecodeEncode(bs: seq<byte>)
    ensures Decode(Encode(bs)) == Some(bs)
  {
    if |bs| > 0 {
      DecodeEncode(bs[1..]);
      DecodeByteThen(bs[0], Encode(bs[1..]));
      assert [bs[0]] + bs[1..] == bs;
    }
  }
}
