/**
  Base64 as section 4 of RFC 4648 defines it: the 64-character alphabet of Table 1
  and '=' padding, which is what `Buffer.prototype.toString('base64')` produces.
*/
module Base64 {
  import opened Wrappers
  import Utf8

  type byte = Utf8.byte

  /** A 6-bit group: an index into the alphabet. */
  type sextet = x: int | 0 <= x < 64

  const Pad: char := '='

  /** Table 1 of RFC 4648: 'A'-'Z', 'a'-'z', '0'-'9', '+', '/'. */
  function Digit(v: sextet): (c: char)
    ensures c != Pad
  {
    if v < 26 then ('A' as int + v) as char
    else if v < 52 then ('a' as int + (v - 26)) as char
    else if v < 62 then ('0' as int + (v - 52)) as char
    else if v == 62 then '+'
    else '/'
  }

  /** The inverse of Table 1; None for a character outside the alphabet. */
  function DigitValue(c: char): (r: Option<sextet>)
  {
    if 'A' <= c <= 'Z' then Some(c as int - 'A' as int)
    else if 'a' <= c <= 'z' then Some(c as int - 'a' as int + 26)
    else if '0' <= c <= '9' then Some(c as int - '0' as int + 52)
    else if c == '+' then Some(62)
    else if c == '/' then Some(63)
    else None
  }

  lemma DigitValueOfDigit(v: sextet)
    ensures DigitValue(Digit(v)) == Some(v)
  {
  }

  predicate IsDigit(c: char) {
    DigitValue(c).Some?
  }

  /** Three bytes, 24 bits, become four characters. */
  function EncodeTriple(b0: byte, b1: byte, b2: byte): (s: string)
    ensures |s| == 4
  {
    [Digit(b0 / 4), Digit(b0 % 4 * 16 + b1 / 16), Digit(b1 % 16 * 4 + b2 / 64), Digit(b2 % 64)]
  }

  /** The final quantum: one or two bytes, padded with '=' to four characters. */
  function EncodeTail(b: seq<byte>): (s: string)
    requires 1 <= |b| <= 2
    ensures |s| == 4
  {
    if |b| == 1 then [Digit(b[0] / 4), Digit(b[0] % 4 * 16), Pad, Pad]
    else [Digit(b[0] / 4), Digit(b[0] % 4 * 16 + b[1] / 16), Digit(b[1] % 16 * 4), Pad]
  }

  function Encode(b: seq<byte>): (s: string)
    decreases |b|
  {
    if |b| >= 3 then EncodeTriple(b[0], b[1], b[2]) + Encode(b[3..])
    else if |b| == 0 then []
    else EncodeTail(b)
  }

  /** Decodes one group of four characters, which may end in one or two '='. */
  function DecodeQuad(q: string): (r: Option<seq<byte>>)
    requires |q| == 4
    ensures r.Some? ==> 1 <= |r.value| <= 3
  {
    var v0, v1, v2, v3 := DigitValue(q[0]), DigitValue(q[1]), DigitValue(q[2]), DigitValue(q[3]);
    if v0.None? || v1.None? then None
    else
      var a, b := v0.value, v1.value;
      if q[2] == Pad && q[3] == Pad then Some([a * 4 + b / 16])
      else if v2.None? then None
      else
        var c := v2.value;
        if q[3] == Pad then Some([a * 4 + b / 16, b % 16 * 16 + c / 4])
        else if v3.None? then None
        else Some([a * 4 + b / 16, b % 16 * 16 + c / 4, c % 4 * 64 + v3.value])
  }

  /** Decodes padded base64 text; padding is accepted only in the last group. */
  function Decode(s: string): (r: Option<seq<byte>>)
    decreases |s|
  {
    if s == [] then Some([])
    else if |s| < 4 then None
    else match DecodeQuad(s[..4])
      case None => None
      case Some(group) =>
        if |s| == 4 then Some(group)
        else if |group| < 3 then None
        else match Decode(s[4..])
          case None => None
          case Some(rest) => Some(group + rest)
  }

  /** The four sextets of three bytes put back together give the bytes. */
  lemma TripleArithmetic(b0: byte, b1: byte, b2: byte)
    ensures var x, y := b0 % 4 * 16 + b1 / 16, b1 % 16 * 4 + b2 / 64;
      b0 / 4 * 4 + x / 16 == b0 && x % 16 * 16 + y / 4 == b1 && y % 4 * 64 + b2 % 64 == b2
  {
    var x, y := b0 % 4 * 16 + b1 / 16, b1 % 16 * 4 + b2 / 64;
    assert x / 16 == b0 % 4 && x % 16 == b1 / 16;
    assert y / 4 == b1 % 16 && y % 4 == b2 / 64;
  }

  lemma DecodeTriple(b0: byte, b1: byte, b2: byte)
    ensures DecodeQuad(EncodeTriple(b0, b1, b2)) == Some([b0, b1, b2])
  {
    TripleArithmetic(b0, b1, b2);
    DigitValueOfDigit(b0 / 4);
    DigitValueOfDigit(b0 % 4 * 16 + b1 / 16);
    DigitValueOfDigit(b1 % 16 * 4 + b2 / 64);
    DigitValueOfDigit(b2 % 64);
  }

  lemma DecodeTail(b: seq<byte>)
    requires 1 <= |b| <= 2
    ensures DecodeQuad(EncodeTail(b)) == Some(b)
  {
    DigitValueOfDigit(b[0] / 4);
    if |b| == 1 {
      DigitValueOfDigit(b[0] % 4 * 16);
      assert b == [b[0]];
    } else {
      DigitValueOfDigit(b[0] % 4 * 16 + b[1] / 16);
      DigitValueOfDigit(b[1] % 16 * 4);
      assert b == [b[0], b[1]];
    }
  }

  /** Decoding undoes encoding. */
  lemma {:induction false} DecodeEncode(b: seq<byte>)
    ensures Decode(Encode(b)) == Some(b)
  {
    var s := Encode(b);
    if |b| >= 3 {
      DecodeTriple(b[0], b[1], b[2]);
      assert s[..4] == EncodeTriple(b[0], b[1], b[2]);
      assert s[4..] == Encode(b[3..]);
      DecodeEncode(b[3..]);
      assert b == [b[0], b[1], b[2]] + b[3..];
      if |b| == 3 {
        assert s == EncodeTriple(b[0], b[1], b[2]);
        assert b == [b[0], b[1], b[2]];
      } else {
        EncodeLength(b[3..]);
        assert s[4..] != [];
        assert Decode(s) == Some([b[0], b[1], b[2]] + b[3..]);
      }
    } else if 1 <= |b| {
      DecodeTail(b);
      assert s[..4] == s;
    }
  }

  /** Four characters for every started group of three bytes. */
  lemma {:induction false} EncodeLength(b: seq<byte>)
    ensures |Encode(b)| == (|b| + 2) / 3 * 4
  {
    if |b| >= 3 {
      EncodeLength(b[3..]);
      assert (|b| + 2) / 3 == (|b[3..]| + 2) / 3 + 1;
    } else {
      assert (|b| + 2) / 3 == if |b| == 0 then 0 else 1;
    }
  }

  lemma EncodeInjective(b: seq<byte>, c: seq<byte>)
    requires Encode(b) == Encode(c)
    ensures b == c
  {
    DecodeEncode(b);
    DecodeEncode(c);
  }
}
