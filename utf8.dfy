// UTF-8 encoding of a char (RFC 3629, section 3), the bytes `String::push`
// and `String::from(char)` append.

module Utf8 {

  type Byte = b: int | 0 <= b < 256

  /** The UTF-8 encoding of a Unicode scalar value. */
  function Encode(c: char): (r: seq<Byte>)
    ensures 1 <= |r| <= 4
    ensures |r| == 1 <==> c as int < 0x80
  {
    var n := c as int;
    var n1, n2, n3 := n / 64, n / 64 / 64, n / 64 / 64 / 64;
    if n < 0x80 then [n]
    else if n < 0x800 then [0xC0 + n1, 0x80 + n % 64]
    else if n < 0x1_0000 then [0xE0 + n2, 0x80 + n1 % 64, 0x80 + n % 64]
    else [0xF0 + n3, 0x80 + n2 % 64, 0x80 + n1 % 64, 0x80 + n % 64]
  }

  /** The code point a well-formed one-to-four byte sequence encodes. */
  function Decode(b: seq<Byte>): int
  {
    if |b| == 0 then 0
    else if |b| == 1 then b[0] as int
    else if |b| == 2 then Payload(b[0], 0xC0) * 64 + Payload(b[1], 0x80)
    else if |b| == 3 then (Payload(b[0], 0xE0) * 64 + Payload(b[1], 0x80)) * 64 + Payload(b[2], 0x80)
    else ((Payload(b[0], 0xF0) * 64 + Payload(b[1], 0x80)) * 64 + Payload(b[2], 0x80)) * 64 + Payload(b[3], 0x80)
  }

  /** The bits of a byte below its marker bits. */
  function Payload(x: Byte, marker: int): int
  {
    x as int - marker
  }

  lemma Digit(n: int)
    requires n >= 0
    ensures (n / 64) * 64 + n % 64 == n
  {
  }

  /** Decoding an encoding gives back the char. */
  lemma DecodeEncode(c: char)
    ensures Decode(Encode(c)) == c as int
  {
    var n := c as int;
    var n1, n2 := n / 64, n / 64 / 64;
    Digit(n);
    Digit(n1);
    Digit(n2);
    if n < 0x80 {
    } else if n < 0x800 {
      assert Decode(Encode(c)) == n1 * 64 + n % 64;
    } else if n < 0x1_0000 {
      assert Decode(Encode(c)) == (n2 * 64 + n1 % 64) * 64 + n % 64;
    } else {
      assert Decode(Encode(c)) == ((n2 / 64 * 64 + n2 % 64) * 64 + n1 % 64) * 64 + n % 64;
    }
  }

  /** The bytes of a sequence of chars, one encoding after another. */
  function EncodeAll(cs: seq<char>): seq<Byte>
  {
    if cs == [] then [] else EncodeAll(cs[..|cs| - 1]) + Encode(cs[|cs| - 1])
  }

  lemma EncodeAllPrefix(cs: seq<char>, i: nat)
    requires i < |cs|
    ensures EncodeAll(cs[..i + 1]) == EncodeAll(cs[..i]) + Encode(cs[i])
  {
    assert cs[..i + 1][..i] == cs[..i];
  }
}
