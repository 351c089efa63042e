/** The application/x-www-form-urlencoded serializer that `URLSearchParams`
    applies to a parameter value (section 5.2 of the WHATWG URL Standard):
    ASCII letters, digits and `*-._` stay, a space becomes `+`, and every
    other character becomes its UTF-8 bytes as `%XX` with upper-case digits.
    The byte decoder beside it is the partner that shows nothing is lost. */
module FormUrlEncoding {
  import opened Records
  import Hex

  predicate Unreserved(c: char) {
    ('a' <= c <= 'z') || ('A' <= c <= 'Z') || ('0' <= c <= '9') || c == '*' || c == '-' || c == '.' || c == '_'
  }

  /** The UTF-8 encoding of one Unicode scalar value. */
  function Utf8(c: char): (bs: seq<byte>)
    ensures 1 <= |bs| <= 4
    ensures |bs| == 1 <==> c as int < 0x80
    ensures |bs| == 1 ==> bs[0] as int == c as int
  {
    var n := c as int;
    if n < 0x80 then [n as byte]
    else if n < 0x800 then [(0xC0 + n / 0x40) as byte, (0x80 + n % 0x40) as byte]
    else if n < 0x1_0000 then
      [(0xE0 + n / 0x1000) as byte, (0x80 + n / 0x40 % 0x40) as byte, (0x80 + n % 0x40) as byte]
    else
      [(0xF0 + n / 0x4_0000) as byte, (0x80 + n / 0x1000 % 0x40) as byte,
       (0x80 + n / 0x40 % 0x40) as byte, (0x80 + n % 0x40) as byte]
  }

  /** The UTF-8 encoding of a string. */
  function Utf8String(s: string): (bs: seq<byte>)
    ensures |bs| >= |s|
  {
    if |s| == 0 then [] else Utf8(s[0]) + Utf8String(s[1..])
  }

  /** `%XX` for each byte. */
  function PercentEncode(bs: seq<byte>): (s: string)
    ensures |s| == 3 * |bs|
    ensures forall i :: 0 <= i < |s| ==> s[i] == '%' || s[i] in Hex.UpperDigits
  {
    if |bs| == 0 then ""
    else ['%', Hex.UpperDigits[bs[0] as int / 16], Hex.UpperDigits[bs[0] as int % 16]] + PercentEncode(bs[1..])
  }

  function EncodeChar(c: char): (s: string)
    ensures |s| >= 1
  {
    if Unreserved(c) then [c]
    else if c == ' ' then "+"
    else PercentEncode(Utf8(c))
  }

  /** Serializes a parameter value. The result holds only unreserved
      characters, `+` and `%`, so it cannot end the value early (`&`), start
      a fragment (`#`) or open another parameter (`=`). */
  function Encode(s: string): (e: string)
    ensures forall i :: 0 <= i < |e| ==> Unreserved(e[i]) || e[i] == '+' || e[i] == '%'
  {
    if |s| == 0 then "" else EncodeChar(s[0]) + Encode(s[1..])
  }

  /** Reads an encoded value back into bytes: `+` is a space, `%XX` one
      byte, an unreserved character itself; anything else is refused. */
  function DecodeBytes(e: string): Option<seq<byte>>
  {
    if |e| == 0 then Some([])
    else if e[0] == '+' then Prepend([0x20], DecodeBytes(e[1..]))
    else if e[0] == '%' then
      if |e| < 3 then None
      else match (Hex.DigitValue(e[1]), Hex.DigitValue(e[2]))
        case (Some(hi), Some(lo)) => Prepend([(hi * 16 + lo) as byte], DecodeBytes(e[3..]))
        case _ => None
    else if Unreserved(e[0]) then Prepend([(e[0] as int) as byte], DecodeBytes(e[1..]))
    else None
  }

  function Prepend(bs: seq<byte>, rest: Option<seq<byte>>): Option<seq<byte>> {
    if rest.Some? then Some(bs + rest.value) else None
  }

  lemma DecodeByteThen(b: byte, rest: string)
    ensures DecodeBytes(['%', Hex.UpperDigits[b as int / 16], Hex.UpperDigits[b as int % 16]] + rest)
         == Prepend([b], DecodeBytes(rest))
  {
    var e := ['%', Hex.UpperDigits[b as int / 16], Hex.UpperDigits[b as int % 16]] + rest;
    var hi, lo := b as int / 16, b as int % 16;
    Hex.DigitValueOfDigit(hi);
    Hex.DigitValueOfDigit(lo);
    assert e[3..] == rest;
    assert (hi * 16 + lo) as byte == b;
  }

  lemma PrependTwice(a: seq<byte>, b: seq<byte>, d: Option<seq<byte>>)
    ensures Prepend(a, Prepend(b, d)) == Prepend(a + b, d)
  {
    if d.Some? {
      assert a + (b + d.value) == (a + b) + d.value;
    }
  }

  lemma {:induction false} DecodePercentThen(bs: seq<byte>, rest: string)
    ensures DecodeBytes(PercentEncode(bs) + rest) == Prepend(bs, DecodeBytes(rest))
  {
    if |bs| == 0 {
      assert PercentEncode(bs) + rest == rest;
      var d := DecodeBytes(rest);
      assert d.Some? ==> bs + d.value == d.value;
    } else {
      var tail := PercentEncode(bs[1..]) + rest;
      assert PercentEncode(bs) + rest
          == ['%', Hex.UpperDigits[bs[0] as int / 16], Hex.UpperDigits[bs[0] as int % 16]] + tail;
      DecodeByteThen(bs[0], tail);
      DecodePercentThen(bs[1..], rest);
      PrependTwice([bs[0]], bs[1..], DecodeBytes(rest));
      assert [bs[0]] + bs[1..] == bs;
    }
  }

  lemma DecodeCharThen(c: char, rest: string)
    ensures DecodeBytes(EncodeChar(c) + rest) == Prepend(Utf8(c), DecodeBytes(rest))
  {
    var e := EncodeChar(c) + rest;
    if Unreserved(c) {
      assert e[0] == c && e[1..] == rest;
    } else if c == ' ' {
      assert e[0] == '+' && e[1..] == rest;
    } else {
      DecodePercentThen(Utf8(c), rest);
    }
  }

  /** Decoding a serialized value gives the UTF-8 bytes of the original. */
  lemma {:induction false} DecodeEncode(s: string)
    ensures DecodeBytes(Encode(s)) == Some(Utf8String(s))
  {
    if |s| > 0 {
      DecodeEncode(s[1..]);
      DecodeCharThen(s[0], Encode(s[1..]));
    }
  }

  /** A continuation byte of UTF-8: `10xxxxxx`. */
  predicate Continuation(b: byte) {
    0x80 <= b as int < 0xC0
  }

  /** The character a code point names, when it is a Unicode scalar value. */
  function ScalarOf(n: int): (r: Option<char>)
    ensures r.Some? ==> r.value as int == n
  {
    if 0 <= n < 0xD800 || 0xE000 <= n < 0x11_0000 then Some(n as char) else None
  }

  function WithLength(c: Option<char>, k: nat): Option<(char, nat)> {
    if c.Some? then Some((c.value, k)) else None
  }

  /** Reads the UTF-8 sequence at the front of `bs`: the character and the
      number of bytes it takes. A bad lead byte, a missing or malformed
      continuation byte, or a code point that is not a scalar value is
      refused. */
  function DecodeUtf8Char(bs: seq<byte>): (r: Option<(char, nat)>)
    ensures r.Some? ==> 1 <= r.value.1 <= |bs|
  {
    if |bs| == 0 then None
    else
      var b0 := bs[0] as int;
      if b0 < 0x80 then Some((b0 as char, 1))
      else if b0 < 0xC0 then None
      else if b0 < 0xE0 then
        if |bs| < 2 || !Continuation(bs[1]) then None
        else WithLength(ScalarOf((b0 - 0xC0) * 0x40 + (bs[1] as int - 0x80)), 2)
      else if b0 < 0xF0 then
        if |bs| < 3 || !Continuation(bs[1]) || !Continuation(bs[2]) then None
        else WithLength(ScalarOf((b0 - 0xE0) * 0x1000 + (bs[1] as int - 0x80) * 0x40 + (bs[2] as int - 0x80)), 3)
      else if b0 < 0xF8 then
        if |bs| < 4 || !Continuation(bs[1]) || !Continuation(bs[2]) || !Continuation(bs[3]) then None
        else WithLength(ScalarOf((b0 - 0xF0) * 0x4_0000 + (bs[1] as int - 0x80) * 0x1000 +
                                 (bs[2] as int - 0x80) * 0x40 + (bs[3] as int - 0x80)), 4)
      else None
  }

  /** Reads UTF-8 bytes back into a string. */
  function DecodeUtf8(bs: seq<byte>): Option<string>
    decreases |bs|
  {
    if |bs| == 0 then Some("")
    else
      match DecodeUtf8Char(bs)
      case None => None
      case Some((c, k)) =>
        match DecodeUtf8(bs[k..])
        case None => None
        case Some(t) => Some([c] + t)
  }

  /** The cases of `Utf8CharThen` by sequence length. */
  lemma Utf8TwoThen(c: char, rest: seq<byte>)
    requires 0x80 <= c as int < 0x800
    ensures DecodeUtf8Char(Utf8(c) + rest) == Some((c, 2))
  {
  }

  lemma Utf8ThreeThen(c: char, rest: seq<byte>)
    requires 0x800 <= c as int < 0x1_0000
    ensures DecodeUtf8Char(Utf8(c) + rest) == Some((c, 3))
  {
  }

  lemma Utf8FourThen(c: char, rest: seq<byte>)
    requires 0x1_0000 <= c as int
    ensures DecodeUtf8Char(Utf8(c) + rest) == Some((c, 4))
  {
  }

  /** The UTF-8 sequence of `c` reads back as `c`, whatever follows it. */
  lemma Utf8CharThen(c: char, rest: seq<byte>)
    ensures DecodeUtf8Char(Utf8(c) + rest) == Some((c, |Utf8(c)|))
  {
    var n := c as int;
    if n < 0x80 {
      assert (Utf8(c) + rest)[0] as int == n;
    } else if n < 0x800 {
      Utf8TwoThen(c, rest);
    } else if n < 0x1_0000 {
      Utf8ThreeThen(c, rest);
    } else {
      Utf8FourThen(c, rest);
    }
  }

  /** UTF-8 loses nothing: the bytes of a string read back as that string. */
  lemma {:induction false} DecodeUtf8Encode(s: string)
    ensures DecodeUtf8(Utf8String(s)) == Some(s)
  {
    if |s| > 0 {
      var bs := Utf8String(s);
      Utf8CharThen(s[0], Utf8String(s[1..]));
      assert bs[|Utf8(s[0])|..] == Utf8String(s[1..]);
      DecodeUtf8Encode(s[1..]);
      assert [s[0]] + s[1..] == s;
    }
  }

  /** Two strings with the same UTF-8 bytes are the same string. */
  lemma Utf8StringInjective(s: string, t: string)
    requires Utf8String(s) == Utf8String(t)
    ensures s == t
  {
    DecodeUtf8Encode(s);
    DecodeUtf8Encode(t);
  }

  /** Reads a serialized parameter value back into the string it holds. */
  function DecodeValue(e: string): Option<string> {
    match DecodeBytes(e)
    case None => None
    case Some(bs) => DecodeUtf8(bs)
  }

  /** Any string survives serialization as a parameter value. */
  lemma ValueRoundTrip(s: string)
    ensures DecodeValue(Encode(s)) == Some(s)
  {
    DecodeEncode(s);
    DecodeUtf8Encode(s);
  }
}
