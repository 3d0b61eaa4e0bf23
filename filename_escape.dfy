/**
 * `DownloadHandler.escapeUtf8FileName`: the octet-by-octet escaping of a file
 * name for the `Content-Disposition` header.
 *
 * Each octet of the name's UTF-8 encoding contributes, in input order:
 *  - itself, as one character, when it is a digit, an ASCII letter, '-', '_' or '.';
 *  - one '_' when it is a C0 control octet (0x00..0x1F) or DEL (0x7F);
 *  - '%' and two upper-case hexadecimal digits of its unsigned value otherwise.
 * The first two tests are made on Java's signed `byte`, which is why octets from
 * 0x80 up fall through to the third case.
 */
module FileNameEscape {
  import opened Bytes
  import opened Wrappers
  import opened JavaLang
  import Utf8

  /** The characters copied through unchanged: digits, ASCII letters, '-', '_' and '.'. */
  predicate IsAttrChar(c: int) {
    ('0' as int <= c <= '9' as int) || ('a' as int <= c <= 'z' as int) || ('A' as int <= c <= 'Z' as int)
    || c == '-' as int || c == '_' as int || c == '.' as int
  }

  /** The C0 control octets and DEL, which become '_'. */
  predicate IsControl(b: byte) {
    b <= 0x1F || b == 0x7F
  }

  /** The alphabet of the escaped name: the characters above and '%'. */
  predicate IsSafeChar(c: char) {
    IsAttrChar(c as int) || c == '%'
  }

  /** The three characters that percent-encode an octet. */
  function PercentTriplet(b: byte): string {
    ['%', HexDigit(b as int / 16), HexDigit(b as int % 16)]
  }

  /** The piece that the octet `b` contributes to the escaped name: one character, or a '%' triplet. */
  function EscapeByte(b: byte): (r: string)
    ensures |r| == 1 || |r| == 3
    ensures |r| == 1 <==> IsAttrChar(b as int) || IsControl(b)
    ensures |r| == 3 ==> r[0] == '%'
  {
    if IsAttrChar(b as int) then [b as int as char]
    else if IsControl(b) then "_"
    else PercentTriplet(b)
  }

  /**
   * The tests of the loop body, made on Java's signed `byte` and on its
   * `(char)` cast, classify the octet as EscapeByte does on its unsigned value,
   * and `String.format("%%%02X", b)` prints the octet's unsigned value.
   */
  lemma SignedTestsAgree(b: byte)
    ensures IsAttrChar(CharCast(b)) <==> IsAttrChar(b as int)
    ensures IsAttrChar(CharCast(b)) ==> CharCast(b) as char == b as int as char
    ensures ((0x00 <= Signed(b) <= 0x1F) || Signed(b) == 0x7F) <==> IsControl(b)
    ensures FormatPercentHex02(Signed(b)) == PercentTriplet(b)
  {
  }

  /** The escaped text of an octet sequence: the octets' pieces, concatenated in order. */
  function Escape(bs: seq<byte>): (r: string)
    ensures |bs| <= |r| <= 3 * |bs|
  {
    if bs == [] then [] else EscapeByte(bs[0]) + Escape(bs[1..])
  }

  /**
   * The escape uses only digits, ASCII letters, '-', '_', '.' and '%'; in
   * particular no '"', ';', space, CR or LF that could end a header parameter.
   */
  lemma {:induction false} EscapeAlphabet(bs: seq<byte>)
    ensures forall i :: 0 <= i < |Escape(bs)| ==> IsSafeChar(Escape(bs)[i])
  {
    if bs != [] {
      EscapeAlphabet(bs[1..]);
      var head, tail := EscapeByte(bs[0]), Escape(bs[1..]);
      assert forall i :: 0 <= i < |head| ==> IsSafeChar(head[i]);
      assert Escape(bs) == head + tail;
    }
  }

  /** `escapeUtf8FileName(name)`: the escape of the name's UTF-8 octets. */
  function EscapeFileName(name: string): (r: string)
    ensures |name| <= |r| <= 12 * |name|
  {
    Escape(Utf8.Encode(name))
  }

  /** The loop of `escapeUtf8FileName`, appending to a string builder octet by octet. */
  method EscapeUtf8FileName(originalFileName: string) returns (escaped: string)
    ensures escaped == EscapeFileName(originalFileName)
  {
    var utf8 := Utf8.Encode(originalFileName);
    var builder: string := "";
    for i := 0 to |utf8|
      invariant builder == Escape(utf8[..i])
    {
      var b := utf8[i];
      EscapeAppend(utf8[..i], [b]);
      EscapeSingle(b);
      assert utf8[..i + 1] == utf8[..i] + [b];
      SignedTestsAgree(b);
      var ch := CharCast(b);
      if IsAttrChar(ch) {
        builder := builder + [ch as char];
        continue;
      } else if (0x00 <= Signed(b) <= 0x1F) || Signed(b) == 0x7F {
        builder := builder + "_";
        continue;
      }
      builder := builder + FormatPercentHex02(Signed(b));
    }
    assert utf8[..|utf8|] == utf8;
    escaped := builder;
  }

  /** Escaping distributes over concatenation. */
  lemma {:induction false} EscapeAppend(a: seq<byte>, b: seq<byte>)
    ensures Escape(a + b) == Escape(a) + Escape(b)
  {
    if a == [] {
      assert a + b == b;
    } else {
      assert (a + b)[0] == a[0] && (a + b)[1..] == a[1..] + b;
      EscapeAppend(a[1..], b);
    }
  }

  lemma EscapeAppend3(a: seq<byte>, b: seq<byte>, c: seq<byte>)
    ensures Escape(a + b + c) == Escape(a) + Escape(b) + Escape(c)
  {
    EscapeAppend(a + b, c);
    EscapeAppend(a, b);
  }

  lemma SplitAt(bs: seq<byte>, i: nat)
    requires i < |bs|
    ensures bs == bs[..i] + [bs[i]] + bs[i + 1..]
  {
  }

  lemma EscapeSingle(b: byte)
    ensures Escape([b]) == EscapeByte(b)
  {
  }

  /** The octet at position `i` contributes its own piece, between those of the octets before and after it. */
  lemma EscapeAt(bs: seq<byte>, i: nat)
    requires i < |bs|
    ensures Escape(bs) == Escape(bs[..i]) + EscapeByte(bs[i]) + Escape(bs[i + 1..])
  {
    SplitAt(bs, i);
    EscapeAppend3(bs[..i], [bs[i]], bs[i + 1..]);
    EscapeSingle(bs[i]);
  }

  /** Octets from 0x80 up, as in every multi-octet UTF-8 character, become one percent triplet each. */
  lemma {:induction false} EscapeHighOctets(bs: seq<byte>)
    requires forall i :: 0 <= i < |bs| ==> bs[i] >= 0x80
    ensures |Escape(bs)| == 3 * |bs|
    ensures forall k :: 0 <= k < |bs| ==> Escape(bs)[3 * k..3 * k + 3] == PercentTriplet(bs[k])
  {
    if bs != [] {
      EscapeHighOctets(bs[1..]);
      var head, tail := EscapeByte(bs[0]), Escape(bs[1..]);
      assert head == PercentTriplet(bs[0]);
      forall k | 0 <= k < |bs|
        ensures Escape(bs)[3 * k..3 * k + 3] == PercentTriplet(bs[k])
      {
        if k > 0 {
          assert Escape(bs)[3 * k..3 * k + 3] == tail[3 * (k - 1)..3 * (k - 1) + 3];
        }
      }
    }
  }

  /** A name escapes to itself exactly when it consists of digits, ASCII letters, '-', '_' and '.'. */
  lemma {:induction false} EscapeFileNameFixedPoint(name: string)
    ensures EscapeFileName(name) == name <==> forall i :: 0 <= i < |name| ==> IsAttrChar(name[i] as int)
  {
    if name != [] {
      var c, rest := name[0], name[1..];
      assert name == [c] + rest;
      Utf8.EncodeAppend([c], rest);
      assert Utf8.Encode([c]) == Utf8.EncodeScalar(c);
      EscapeAppend(Utf8.EncodeScalar(c), Utf8.Encode(rest));
      var head, tail := Escape(Utf8.EncodeScalar(c)), EscapeFileName(rest);
      assert EscapeFileName(name) == head + tail;
      EscapeFileNameFixedPoint(rest);
      if IsAttrChar(c as int) {
        assert head == [c];
        assert head + tail == name <==> tail == rest;
        assert (forall i :: 0 <= i < |name| ==> IsAttrChar(name[i] as int))
          <==> (forall i :: 0 <= i < |rest| ==> IsAttrChar(rest[i] as int));
      } else if c as int < 0x80 && IsControl(c as int as byte) {
        assert head == "_";
        assert (head + tail)[0] != name[0];
      } else {
        assert |head| >= 2;
        assert |head + tail| > |name|;
      }
    } else {
      assert Utf8.Encode(name) == [];
    }
  }

  /** Whether `s` is the escape of some octet sequence and, if so, of which: '%' and two hexadecimal digits give one octet, any other character below 0x100 gives its own code. */
  function PercentDecode(s: string): Option<seq<byte>> {
    if s == [] then Some([])
    else if s[0] == '%' then
      if |s| >= 3 && IsHexDigit(s[1]) && IsHexDigit(s[2]) then
        match PercentDecode(s[3..])
        case None => None
        case Some(rest) => Some([(HexValue(s[1]) * 16 + HexValue(s[2])) as byte] + rest)
      else None
    else if s[0] as int < 0x100 then
      match PercentDecode(s[1..])
      case None => None
      case Some(rest) => Some([s[0] as int as byte] + rest)
    else None
  }

  /** The octets with every control octet replaced by '_' (0x5F). */
  function ReplaceControls(bs: seq<byte>): seq<byte> {
    if bs == [] then [] else [if IsControl(bs[0]) then 0x5F else bs[0]] + ReplaceControls(bs[1..])
  }

  /** Decoding an escape gives back the octets, each control octet read back as '_'. */
  lemma {:induction false} DecodeEscape(bs: seq<byte>)
    ensures PercentDecode(Escape(bs)) == Some(ReplaceControls(bs))
  {
    if bs == [] {
    } else {
      var b, tail := bs[0], Escape(bs[1..]);
      DecodeEscape(bs[1..]);
      var s := EscapeByte(b) + tail;
      if IsAttrChar(b as int) || IsControl(b) {
        assert s[0] != '%' && s[1..] == tail;
      } else {
        assert s[0] == '%' && s[1] == HexDigit(b as int / 16) && s[2] == HexDigit(b as int % 16);
        assert s[3..] == tail;
      }
    }
  }

  /** Without control octets, decoding the escape gives back exactly the input. */
  lemma {:induction false} DecodeEscapeExact(bs: seq<byte>)
    requires forall i :: 0 <= i < |bs| ==> !IsControl(bs[i])
    ensures PercentDecode(Escape(bs)) == Some(bs)
  {
    DecodeEscape(bs);
    ReplaceControlsIdentity(bs);
  }

  lemma {:induction false} ReplaceControlsIdentity(bs: seq<byte>)
    requires forall i :: 0 <= i < |bs| ==> !IsControl(bs[i])
    ensures ReplaceControls(bs) == bs
  {
    if bs != [] {
      ReplaceControlsIdentity(bs[1..]);
    }
  }

  /** A name without C0 control characters and DEL has no control octet in its UTF-8 encoding. */
  lemma {:induction false} EncodeHasNoControls(name: string)
    requires forall i :: 0 <= i < |name| ==> !(name[i] as int <= 0x1F || name[i] as int == 0x7F)
    ensures forall i :: 0 <= i < |Utf8.Encode(name)| ==> !IsControl(Utf8.Encode(name)[i])
  {
    if name != [] {
      EncodeHasNoControls(name[1..]);
      var head, tail := Utf8.EncodeScalar(name[0]), Utf8.Encode(name[1..]);
      assert Utf8.Encode(name) == head + tail;
      assert forall i :: 0 <= i < |head| ==> !IsControl(head[i]);
    }
  }

  /** For a name without control characters, percent-decoding its escape gives back its UTF-8 octets. */
  lemma DecodeEscapeFileName(name: string)
    requires forall i :: 0 <= i < |name| ==> !(name[i] as int <= 0x1F || name[i] as int == 0x7F)
    ensures PercentDecode(EscapeFileName(name)) == Some(Utf8.Encode(name))
  {
    EncodeHasNoControls(name);
    DecodeEscapeExact(Utf8.Encode(name));
  }

  /** A character outside ASCII becomes one percent triplet per octet of its UTF-8 encoding. */
  lemma EscapeNonAsciiChar(c: char)
    requires c as int >= 0x80
    ensures |EscapeFileName([c])| == 3 * |Utf8.Encode([c])| >= 6
    ensures forall k :: 0 <= k < |Utf8.Encode([c])| ==>
      EscapeFileName([c])[3 * k..3 * k + 3] == PercentTriplet(Utf8.Encode([c])[k])
  {
    assert [c][1..] == [];
    assert Utf8.Encode([c]) == Utf8.EncodeScalar(c);
    EscapeHighOctets(Utf8.Encode([c]));
  }

  /** Distinct names can share an escape: a line feed and an underscore both become "_". */
  lemma ControlsCollide()
    ensures Escape([0x0A]) == Escape([0x5F]) == "_"
  {
  }

  /** Escaping a name distributes over concatenation of names. */
  lemma EscapeFileNameAppend(s: string, t: string)
    ensures EscapeFileName(s + t) == EscapeFileName(s) + EscapeFileName(t)
  {
    Utf8.EncodeAppend(s, t);
    EscapeAppend(Utf8.Encode(s), Utf8.Encode(t));
  }

  /** 'é' (U+00E9) is the two octets C3 A9, each percent-encoded. */
  lemma EscapeAcuteE()
    ensures EscapeFileName("é") == "%C3%A9"
  {
  }

  /** The example name "résumé.pdf": the ASCII parts are copied and each 'é' becomes "%C3%A9". */
  lemma EscapeResume()
    ensures EscapeFileName("résumé.pdf") == "r%C3%A9sum%C3%A9.pdf"
  {
    EscapeResumeParts("r", "é", "sum", ".pdf");
    assert "r" + "é" + "sum" + "é" + ".pdf" == "résumé.pdf";
    assert "r" + "%C3%A9" + "sum" + "%C3%A9" + ".pdf" == "r%C3%A9sum%C3%A9.pdf";
  }

  lemma EscapeResumeParts(r: string, e: string, sum: string, pdf: string)
    requires r == "r" && e == "é" && sum == "sum" && pdf == ".pdf"
    ensures EscapeFileName(r + e + sum + e + pdf) == r + "%C3%A9" + sum + "%C3%A9" + pdf
  {
    EscapeAcuteE();
    EscapeFileNameFixedPoint(r);
    EscapeFileNameFixedPoint(sum);
    EscapeFileNameFixedPoint(pdf);
    EscapeFileNameAppend(r, e);
    EscapeFileNameAppend(r + e, sum);
    EscapeFileNameAppend(r + e + sum, e);
    EscapeFileNameAppend(r + e + sum + e, pdf);
  }
}
