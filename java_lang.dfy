/**
 * The pieces of the Java platform that the download handler relies on, with
 * their fixed-width integer behaviour written out: the signed `byte`, the
 * `(char)` cast, `String.format("%02X", Byte)` and `Long.parseLong`.
 */
module JavaLang {
  import opened Bytes
  import opened Wrappers

  const MinLong: int := -0x8000_0000_0000_0000
  const MaxLong: int := 0x7FFF_FFFF_FFFF_FFFF

  /** The value a Java `byte` holds for the octet `b` (two's complement). */
  function Signed(b: byte): (v: int)
    ensures -128 <= v < 128
    ensures v % 0x100 == b as int
  {
    if b < 0x80 then b as int else b as int - 0x100
  }

  /**
   * `(char) b` for a Java `byte`: the value is sign-extended to `int` and then
   * narrowed to a 16-bit UTF-16 code unit. Octets from 0x80 up land in
   * 0xFF80..0xFFFF, far above every ASCII character.
   */
  function CharCast(b: byte): (c: int)
    ensures 0 <= c < 0x1_0000
    ensures b < 0x80 ==> c == b as int
    ensures b >= 0x80 ==> c == b as int + 0xFF00
  {
    Signed(b) % 0x1_0000
  }

  /**
   * The number that `%X` prints for a `Byte` holding `v`: `java.util.Formatter`
   * adds 2^8 to a negative value, so the octet's unsigned value comes out.
   */
  function FormatterUnsigned(v: int): (u: int)
    requires -128 <= v < 128
    ensures 0 <= u < 0x100 && (u - v) % 0x100 == 0
  {
    if v < 0 then v + 0x100 else v
  }

  /** Upper-case hexadecimal digits of `n` without leading zeros ("0" for zero). */
  function HexString(n: nat): (s: string)
    ensures |s| >= 1
    decreases n
  {
    if n < 16 then [HexDigit(n)] else HexString(n / 16) + [HexDigit(n % 16)]
  }

  /** Left-pads `s` with '0' up to `width` characters, as the flags `0` and a width do. */
  function ZeroPad(s: string, width: nat): (r: string)
    ensures |r| == if |s| >= width then |s| else width
    ensures r[|r| - |s|..] == s
    ensures forall i :: 0 <= i < |r| - |s| ==> r[i] == '0'
  {
    if |s| >= width then s else seq(width - |s|, _ => '0') + s
  }

  /**
   * `String.format("%%%02X", b)` for a Java `Byte` holding `v`: a percent sign
   * and exactly two upper-case hexadecimal digits of the unsigned value.
   */
  function FormatPercentHex02(v: int): (r: string)
    requires -128 <= v < 128
    ensures r == ['%', HexDigit(FormatterUnsigned(v) / 16), HexDigit(FormatterUnsigned(v) % 16)]
  {
    var u := FormatterUnsigned(v);
    TwoHexDigits(u);
    "%" + ZeroPad(HexString(u), 2)
  }

  /** An octet's hexadecimal text, padded to width two, is its two digits. */
  lemma TwoHexDigits(u: int)
    requires 0 <= u < 0x100
    ensures ZeroPad(HexString(u), 2) == [HexDigit(u / 16), HexDigit(u % 16)]
  {
  }

  predicate IsDigit(c: char) {
    '0' <= c <= '9'
  }

  predicate AllDigits(s: string) {
    forall i :: 0 <= i < |s| ==> IsDigit(s[i])
  }

  /** The value of a run of decimal digits, read from the left. */
  function DigitsValue(s: string): nat
    requires AllDigits(s)
    decreases |s|
  {
    if s == [] then 0 else DigitsValue(s[..|s| - 1]) * 10 + (s[|s| - 1] as int - '0' as int)
  }

  /**
   * `Long.parseLong(s)`: an optional '+' or '-', then one or more decimal
   * digits, and a value within the 64-bit range. `None` stands for the
   * `NumberFormatException` Java throws otherwise.
   */
  function ParseLong(s: string): (r: Option<int>)
    ensures r.Some? ==> MinLong <= r.value <= MaxLong
  {
    var signed := |s| > 0 && (s[0] == '-' || s[0] == '+');
    var digits := if signed then s[1..] else s;
    if digits == [] || !AllDigits(digits) then None
    else
      var m := DigitsValue(digits);
      var v: int := if signed && s[0] == '-' then -(m as int) else m;
      if MinLong <= v <= MaxLong then Some(v) else None
  }

  /** The canonical decimal text of a natural number, as `Long.toString` writes it. */
  function DecimalString(n: nat): (s: string)
    ensures |s| >= 1 && AllDigits(s)
    ensures |s| > 1 ==> s[0] != '0'
    decreases n
  {
    if n < 10 then [('0' as int + n) as char] else DecimalString(n / 10) + [('0' as int + n % 10) as char]
  }

  lemma {:induction false} DigitsValueOfDecimal(n: nat)
    ensures DigitsValue(DecimalString(n)) == n
    decreases n
  {
    var s := DecimalString(n);
    if n >= 10 {
      DigitsValueOfDecimal(n / 10);
      assert s[..|s| - 1] == DecimalString(n / 10);
    }
  }

  /** `Long.parseLong` reads back the canonical decimal text of every non-negative `long`. */
  lemma ParseLongDecimal(n: nat)
    requires n <= MaxLong
    ensures ParseLong(DecimalString(n)) == Some(n)
  {
    DigitsValueOfDecimal(n);
  }

  /** ... and of every negative one, written with a leading '-'. */
  lemma ParseLongNegativeDecimal(n: nat)
    requires 0 < n <= -MinLong
    ensures ParseLong("-" + DecimalString(n)) == Some(-(n as int))
  {
    var s := "-" + DecimalString(n);
    assert s[1..] == DecimalString(n);
    DigitsValueOfDecimal(n);
  }
}
