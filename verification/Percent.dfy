/** Percent-encoding (section 2.1 of RFC 3986): the writer and the reader. */
module Percent {
  import opened Wrappers
  import opened Utf8

  predicate IsUnreserved(b: byte) {
    || 'A' as int <= b <= 'Z' as int
    || 'a' as int <= b <= 'z' as int
    || '0' as int <= b <= '9' as int
    || b == '-' as int || b == '_' as int || b == '.' as int || b == '~' as int
  }

  /** An upper-case hexadecimal digit, as the `{:02X}` format prints it. */
  function HexChar(d: nat): char
    requires d < 16
  {
    if d < 10 then '0' + d as char else 'A' + (d - 10) as char
  }

  /** `char::to_digit(16)`, which takes either case. */
  function HexValue(b: byte): (d: Option<nat>)
    ensures d.Some? ==> d.value < 16
  {
    if '0' as int <= b <= '9' as int then Some(b - '0' as int)
    else if 'a' as int <= b <= 'f' as int then Some(b - 'a' as int + 10)
    else if 'A' as int <= b <= 'F' as int then Some(b - 'A' as int + 10)
    else None
  }

  function EncodeByte(b: byte): string {
    if IsUnreserved(b) then [b as char] else ['%', HexChar(b / 16), HexChar(b % 16)]
  }

  function EncodeBytes(b: seq<byte>): string {
    if |b| == 0 then "" else EncodeByte(b[0]) + EncodeBytes(b[1..])
  }

  /** The text `urlencoding` writes for `s`. */
  function UrlEncode(s: string): string {
    EncodeBytes(Utf8.Encode(s))
  }

  /** `percent_decode_str`: a '%' without two hex digits stands for itself. */
  function DecodeBytes(b: seq<byte>): seq<byte> {
    if |b| == 0 then []
    else if b[0] == '%' as int && |b| >= 3 && HexValue(b[1]).Some? && HexValue(b[2]).Some? then
      [HexValue(b[1]).value * 16 + HexValue(b[2]).value] + DecodeBytes(b[3..])
    else [b[0]] + DecodeBytes(b[1..])
  }

  /** `percent_decode_str(raw).decode_utf8()`. */
  function UrlDecode(raw: string): Option<string> {
    Utf8.Decode(DecodeBytes(Utf8.Encode(raw)))
  }

  /** The characters `urlencoding` can emit: unreserved ones, '%' and hex digits. */
  predicate IsSafe(c: char) {
    c == '%' || (c as int < 128 && IsUnreserved(c as int))
  }

  ghost predicate AllSafe(s: string) {
    forall i :: 0 <= i < |s| ==> IsSafe(s[i])
  }

  lemma {:induction false} EncodeBytesAppend(a: seq<byte>, b: seq<byte>)
    ensures EncodeBytes(a + b) == EncodeBytes(a) + EncodeBytes(b)
  {
    if |a| == 0 {
      assert a + b == b;
    } else {
      assert (a + b)[1..] == a[1..] + b;
      EncodeBytesAppend(a[1..], b);
    }
  }

  lemma EncodeBytesSnoc(b: seq<byte>, i: nat)
    requires i < |b|
    ensures EncodeBytes(b[..i + 1]) == EncodeBytes(b[..i]) + EncodeByte(b[i])
  {
    assert b[..i + 1] == b[..i] + [b[i]];
    EncodeBytesAppend(b[..i], [b[i]]);
    assert EncodeBytes([b[i]]) == EncodeByte(b[i]) + EncodeBytes([]);
  }

  /** The loop of `urlencoding`, which appends one byte's text at a time. */
  method UrlEncoding(s: string) returns (out: string)
    ensures out == UrlEncode(s)
  {
    out := "";
    var bytes := Utf8.Encode(s);
    for i := 0 to |bytes|
      invariant out == EncodeBytes(bytes[..i])
    {
      var b := bytes[i];
      EncodeBytesSnoc(bytes, i);
      if IsUnreserved(b) {
        out := out + [b as char];
      } else {
        out := out + ['%', HexChar(b / 16), HexChar(b % 16)];
      }
    }
    assert bytes[..|bytes|] == bytes;
  }

  /** Nothing the encoder emits is a delimiter, so no field can disturb another. */
  lemma {:induction false} EncodeBytesSafe(b: seq<byte>)
    ensures AllSafe(EncodeBytes(b))
  {
    if |b| > 0 {
      EncodeBytesSafe(b[1..]);
      assert AllSafe(EncodeByte(b[0]));
    }
  }

  lemma {:induction false} DecodeEncodeByte(b: byte, rest: seq<byte>)
    ensures DecodeBytes(Utf8.Encode(EncodeByte(b)) + rest) == [b] + DecodeBytes(rest)
  {
    var e := EncodeByte(b);
    var bytes := Utf8.Encode(e) + rest;
    if IsUnreserved(b) {
      Utf8.EncodeAscii(b as char, "");
      assert e == [b as char] + "" && bytes == [b] + rest;
    } else {
      var high, low := HexChar(b / 16), HexChar(b % 16);
      Utf8.EncodeAscii(low, "");
      Utf8.EncodeAscii(high, [low] + "");
      Utf8.EncodeAscii('%', [high] + ([low] + ""));
      assert e == ['%'] + ([high] + ([low] + ""));
      assert bytes == ['%' as int, high as int, low as int] + rest;
      assert bytes[3..] == rest;
    }
  }

  lemma {:induction false} DecodeEncodeBytes(b: seq<byte>)
    ensures DecodeBytes(Utf8.Encode(EncodeBytes(b))) == b
  {
    if |b| > 0 {
      Utf8.EncodeAppend(EncodeByte(b[0]), EncodeBytes(b[1..]));
      DecodeEncodeByte(b[0], Utf8.Encode(EncodeBytes(b[1..])));
      DecodeEncodeBytes(b[1..]);
      assert b == [b[0]] + b[1..];
    }
  }

  /** Percent-decoding restores any string, and the encoder is injective. */
  lemma UrlDecodeEncode(s: string)
    ensures UrlDecode(UrlEncode(s)) == Some(s)
    ensures AllSafe(UrlEncode(s))
  {
    DecodeEncodeBytes(Utf8.Encode(s));
    EncodeBytesSafe(Utf8.Encode(s));
    Utf8.DecodeEncode(s);
  }

  // ---------------------------------------------------------------------
  // What is escaped, and how escapes are read
  // ---------------------------------------------------------------------

  /** Byte `c` is a hexadecimal digit, of either case, with the value `d`. */
  predicate IsHexFor(c: byte, d: nat) {
    || (d < 10 && c == '0' as int + d)
    || (10 <= d < 16 && (c == 'A' as int + d - 10 || c == 'a' as int + d - 10))
  }

  /** A letter, a digit or one of "-_.~". */
  predicate IsPlain(c: char) {
    'A' <= c <= 'Z' || 'a' <= c <= 'z' || '0' <= c <= '9' || c in "-_.~"
  }

  /** Text of letters, digits and "-_.~" is written as it is. */
  lemma {:induction false} PlainTextIsKept(s: string)
    requires forall c :: c in s ==> IsPlain(c)
    ensures UrlEncode(s) == s
  {
    if |s| > 0 {
      assert s == [s[0]] + s[1..];
      assert IsPlain(s[0]);
      Utf8.EncodeAscii(s[0], s[1..]);
      assert ([s[0] as int] + Utf8.Encode(s[1..]))[1..] == Utf8.Encode(s[1..]);
      PlainTextIsKept(s[1..]);
    }
  }

  /** Every other byte is written as '%' and two upper-case hexadecimal digits. */
  lemma OtherBytesAreEscaped(b: byte, rest: seq<byte>)
    requires b >= 128 || !IsPlain(b as char)
    ensures var text := EncodeBytes([b] + rest);
            && |text| >= 3 && text[0] == '%' && text[3..] == EncodeBytes(rest)
            && IsHexFor(text[1] as int, b / 16) && text[1] !in "abcdef"
            && IsHexFor(text[2] as int, b % 16) && text[2] !in "abcdef"
  {
    assert ([b] + rest)[1..] == rest;
    assert EncodeBytes([b] + rest) == ['%', HexChar(b / 16), HexChar(b % 16)] + EncodeBytes(rest);
  }

  lemma HexValueExactly(c: byte, d: nat)
    ensures HexValue(c) == Some(d) <==> IsHexFor(c, d)
  {
  }

  /** Everything but '%' stands for itself, '+' among it. */
  lemma {:induction false} PlainBytesAreKept(front: seq<byte>, rest: seq<byte>)
    requires '%' as int !in front
    ensures DecodeBytes(front + rest) == front + DecodeBytes(rest)
  {
    if |front| == 0 {
      assert front + rest == rest;
    } else {
      assert (front + rest)[1..] == front[1..] + rest;
      PlainBytesAreKept(front[1..], rest);
    }
  }

  /** A '%' with two hexadecimal digits, of either case, stands for the byte they spell. */
  lemma EscapeIsRead(high: byte, low: byte, h: nat, l: nat, rest: seq<byte>)
    requires IsHexFor(high, h) && IsHexFor(low, l)
    ensures DecodeBytes(['%' as int, high, low] + rest) == [16 * h + l] + DecodeBytes(rest)
  {
    hide HexValue;
    hide IsHexFor;
    HexValueExactly(high, h);
    HexValueExactly(low, l);
    assert (['%' as int, high, low] + rest)[3..] == rest;
  }

  /** A '%' without two hexadecimal digits stands for itself, and what follows it is read on its own. */
  lemma StrayPercentIsKept(rest: seq<byte>)
    requires |rest| < 2 || (forall h :: !IsHexFor(rest[0], h)) || (forall l :: !IsHexFor(rest[1], l))
    ensures DecodeBytes(['%' as int] + rest) == ['%' as int] + DecodeBytes(rest)
  {
    var b := ['%' as int] + rest;
    assert b[1..] == rest;
    if |rest| >= 2 {
      assert b[1] == rest[0] && b[2] == rest[1];
      if HexValue(rest[0]).Some? && HexValue(rest[1]).Some? {
        HexValueExactly(rest[0], HexValue(rest[0]).value);
        HexValueExactly(rest[1], HexValue(rest[1]).value);
      }
    }
  }
}
