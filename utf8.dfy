/**
 * UTF-8 encoding of a name, standing for Java's `String.getBytes(UTF_8)`.
 * A Dafny `char` is a Unicode scalar value, so every character has an encoding.
 */
module Utf8 {
  import opened Bytes

  /** The one to four octets that encode the scalar value `c`. */
  function EncodeScalar(c: char): (r: seq<byte>)
    ensures 1 <= |r| <= 4
    ensures |r| == 1 <==> c as int < 0x80
    ensures |r| == 1 ==> r[0] as int == c as int
    ensures |r| > 1 ==> forall i :: 0 <= i < |r| ==> r[i] >= 0x80
  {
    var v := c as int;
    if v < 0x80 then
      [v as byte]
    else if v < 0x800 then
      [(0xC0 + v / 0x40) as byte, (0x80 + v % 0x40) as byte]
    else if v < 0x1_0000 then
      [(0xE0 + v / 0x1000) as byte, (0x80 + v / 0x40 % 0x40) as byte, (0x80 + v % 0x40) as byte]
    else
      [(0xF0 + v / 0x4_0000) as byte, (0x80 + v / 0x1000 % 0x40) as byte,
       (0x80 + v / 0x40 % 0x40) as byte, (0x80 + v % 0x40) as byte]
  }

  /** The scalar value that a well-formed one- to four-octet sequence encodes. */
  function DecodeScalar(r: seq<byte>): int {
    if |r| == 1 then r[0] as int
    else if |r| == 2 then (r[0] as int - 0xC0) * 0x40 + (r[1] as int - 0x80)
    else if |r| == 3 then
      (r[0] as int - 0xE0) * 0x1000 + (r[1] as int - 0x80) * 0x40 + (r[2] as int - 0x80)
    else if |r| == 4 then
      (r[0] as int - 0xF0) * 0x4_0000 + (r[1] as int - 0x80) * 0x1000
        + (r[2] as int - 0x80) * 0x40 + (r[3] as int - 0x80)
    else -1
  }

  /** Splitting off the low six bits twice. */
  lemma SixBitGroups(v: nat)
    ensures v / 0x40 / 0x40 == v / 0x1000 && v / 0x1000 / 0x40 == v / 0x4_0000
    ensures v == v / 0x40 * 0x40 + v % 0x40
  {
  }

  /** Decoding an encoded scalar value gives it back. */
  lemma DecodeEncodeScalar(c: char)
    ensures DecodeScalar(EncodeScalar(c)) == c as int
  {
    var v := c as int;
    SixBitGroups(v);
    SixBitGroups(v / 0x40);
    SixBitGroups(v / 0x1000);
  }

  /** The UTF-8 octets of a whole name, character after character. */
  function Encode(s: string): (r: seq<byte>)
    ensures |s| <= |r| <= 4 * |s|
  {
    if s == [] then [] else EncodeScalar(s[0]) + Encode(s[1..])
  }

  /** Encoding distributes over concatenation of names. */
  lemma {:induction false} EncodeAppend(s: string, t: string)
    ensures Encode(s + t) == Encode(s) + Encode(t)
  {
    if s != [] {
      assert (s + t)[0] == s[0] && (s + t)[1..] == s[1..] + t;
      EncodeAppend(s[1..], t);
    } else {
      assert s + t == t;
    }
  }

  /** An ASCII name encodes to one octet per character, each equal to its code. */
  lemma {:induction false} EncodeAscii(s: string)
    requires forall i :: 0 <= i < |s| ==> s[i] as int < 0x80
    ensures |Encode(s)| == |s|
    ensures forall i :: 0 <= i < |s| ==> Encode(s)[i] as int == s[i] as int
  {
    if s != [] {
      EncodeAscii(s[1..]);
    }
  }
}
