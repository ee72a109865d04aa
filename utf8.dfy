/**
  The UTF-8 encoding (RFC 3629) of a string, as `Buffer.from(string)` produces it
  before a cursor is base64-encoded.  Dafny's `char` is a Unicode scalar value, so
  every string has an encoding; the lone UTF-16 surrogates a JavaScript string may
  hold cannot occur here.
*/
module Utf8 {
  import opened Wrappers

  type byte = x: int | 0 <= x < 256

  /** The bytes of one scalar value, shortest form. */
  function EncodeChar(c: char): (b: seq<byte>)
    ensures 1 <= |b| <= 4
  {
    var n := c as int;
    var m1 := n / 64;
    var m2 := m1 / 64;
    var m3 := m2 / 64;
    if n < 0x80 then [n]
    else if n < 0x800 then [0xC0 + m1, 0x80 + n % 64]
    else if n < 0x10000 then [0xE0 + m2, 0x80 + m1 % 64, 0x80 + n % 64]
    else [0xF0 + m3, 0x80 + m2 % 64, 0x80 + m1 % 64, 0x80 + n % 64]
  }

  function Encode(s: string): (b: seq<byte>)
    ensures |s| <= |b| <= 4 * |s|
  {
    if s == [] then [] else EncodeChar(s[0]) + Encode(s[1..])
  }

  /** The length of the sequence a leading byte announces, or 0 if it cannot lead one. */
  function SequenceLength(lead: byte): (k: nat)
    ensures k <= 4
  {
    if lead < 0x80 then 1
    else if 0xC0 <= lead < 0xE0 then 2
    else if 0xE0 <= lead < 0xF0 then 3
    else if 0xF0 <= lead < 0xF8 then 4
    else 0
  }

  predicate IsContinuation(b: byte) {
    0x80 <= b < 0xC0
  }

  predicate IsScalarValue(n: int) {
    (0 <= n < 0xD800) || (0xE000 <= n < 0x11_0000)
  }

  /** Decodes one complete sequence; rejects bad continuations, overlong forms and non-scalars. */
  function DecodeChar(b: seq<byte>): (r: Option<char>)
    requires 1 <= |b| <= 4 && |b| == SequenceLength(b[0])
  {
    var b0: int := b[0];
    var b1: int := if |b| > 1 then b[1] else 0;
    var b2: int := if |b| > 2 then b[2] else 0;
    var b3: int := if |b| > 3 then b[3] else 0;
    var n :=
      if |b| == 1 then b0
      else if |b| == 2 then (b0 - 0xC0) * 64 + (b1 - 0x80)
      else if |b| == 3 then ((b0 - 0xE0) * 64 + (b1 - 0x80)) * 64 + (b2 - 0x80)
      else (((b0 - 0xF0) * 64 + (b1 - 0x80)) * 64 + (b2 - 0x80)) * 64 + (b3 - 0x80);
    var shortest :=
      if |b| == 1 then true
      else if |b| == 2 then 0x80 <= n
      else if |b| == 3 then 0x800 <= n
      else 0x1_0000 <= n;
    if (forall i | 1 <= i < |b| :: IsContinuation(b[i])) && shortest && IsScalarValue(n)
    then Some(n as char)
    else None
  }

  function Decode(b: seq<byte>): (r: Option<string>)
    decreases |b|
  {
    if b == [] then Some([])
    else
      var k := SequenceLength(b[0]);
      if k == 0 || |b| < k then None
      else match DecodeChar(b[..k])
        case None => None
        case Some(c) =>
          match Decode(b[k..])
          case None => None
          case Some(rest) => Some([c] + rest)
  }

  lemma DecodeEncodeChar(c: char)
    ensures var b := EncodeChar(c);
      SequenceLength(b[0]) == |b| && DecodeChar(b) == Some(c)
  {
    var n := c as int;
    var m1 := n / 64;
    var m2 := m1 / 64;
    var m3 := m2 / 64;
    assert n == m1 * 64 + n % 64;
    assert m1 == m2 * 64 + m1 % 64;
    assert m2 == m3 * 64 + m2 % 64;
  }

  /** Decoding undoes encoding, so the encoding is injective. */
  lemma {:induction false} DecodeEncode(s: string)
    ensures Decode(Encode(s)) == Some(s)
  {
    if s != [] {
      var head := EncodeChar(s[0]);
      var b := Encode(s);
      DecodeEncodeChar(s[0]);
      assert b == head + Encode(s[1..]);
      assert b[..|head|] == head;
      assert b[|head|..] == Encode(s[1..]);
      DecodeEncode(s[1..]);
      assert [s[0]] + s[1..] == s;
    }
  }

  lemma EncodeInjective(s: string, t: string)
    requires Encode(s) == Encode(t)
    ensures s == t
  {
    DecodeEncode(s);
    DecodeEncode(t);
  }
}
