/**
  UTF-8 (section 3 of RFC 3629), the encoding that ties a Rust `str` to its
  bytes. A Dafny `string` is a sequence of Unicode scalar values, as a `str` is.
 */
module Utf8 {
  import opened Wrappers

  type byte = b: int | 0 <= b < 256

  predicate IsScalar(n: int) {
    0 <= n < 0xD800 || 0xE000 <= n < 0x11_0000
  }

  function EncodeChar(c: char): (b: seq<byte>)
    ensures 1 <= |b| <= 4
  {
    var n := c as int;
    if n < 0x80 then [n]
    else if n < 0x800 then [0xC0 + n / 64, 0x80 + n % 64]
    else if n < 0x1_0000 then [0xE0 + n / 64 / 64, 0x80 + n / 64 % 64, 0x80 + n % 64]
    else [0xF0 + n / 64 / 64 / 64, 0x80 + n / 64 / 64 % 64, 0x80 + n / 64 % 64, 0x80 + n % 64]
  }

  /** `str::as_bytes`. */
  function Encode(s: string): (b: seq<byte>) {
    if |s| == 0 then [] else EncodeChar(s[0]) + Encode(s[1..])
  }

  /** The length a lead byte announces; 0 for a byte that cannot lead. */
  function Width(lead: byte): nat {
    if lead < 0x80 then 1
    else if 0xC0 <= lead < 0xE0 then 2
    else if 0xE0 <= lead < 0xF0 then 3
    else if 0xF0 <= lead < 0xF8 then 4
    else 0
  }

  function Low(b: byte): int {
    b - 0x80
  }

  /** The payload of a sequence: the lead's low bits, then six bits per byte. */
  function Payload(b: seq<byte>): int
    requires 1 <= |b| <= 4
  {
    var lead: int := b[0];
    if |b| == 1 then lead
    else if |b| == 2 then (lead - 0xC0) * 64 + Low(b[1])
    else if |b| == 3 then ((lead - 0xE0) * 64 + Low(b[1])) * 64 + Low(b[2])
    else (((lead - 0xF0) * 64 + Low(b[1])) * 64 + Low(b[2])) * 64 + Low(b[3])
  }

  /**
    The first scalar value of `b` and its length in bytes. A sequence is well
    formed when it is what its own scalar value encodes to, which refuses
    overlong forms, surrogates, stray and missing continuation bytes.
   */
  function DecodeChar(b: seq<byte>): (r: Option<(char, nat)>)
    requires |b| > 0
    ensures r.Some? ==> 1 <= r.value.1 <= |b| && EncodeChar(r.value.0) == b[..r.value.1]
  {
    var k := Width(b[0]);
    if k == 0 || |b| < k then None else
    var n := Payload(b[..k]);
    if IsScalar(n) && EncodeChar(n as char) == b[..k] then Some((n as char, k)) else None
  }

  lemma EncodeCons(c: char, rest: string, b: seq<byte>, k: nat)
    requires k <= |b| && EncodeChar(c) == b[..k] && Encode(rest) == b[k..]
    ensures Encode([c] + rest) == b
  {
    assert ([c] + rest)[1..] == rest && b == b[..k] + b[k..];
  }

  /**
    `str::from_utf8`: strict decoding, `None` on any malformed sequence. Only
    the encoding of a string decodes to it.
   */
  function Decode(b: seq<byte>): (r: Option<string>)
    ensures r.Some? ==> Encode(r.value) == b
    decreases |b|
  {
    if |b| == 0 then Some("") else
    match DecodeChar(b)
    case None => None
    case Some((c, k)) =>
      match Decode(b[k..])
      case None => None
      case Some(rest) =>
        EncodeCons(c, rest, b, k);
        Some([c] + rest)
  }

  lemma PayloadOfEncodeChar(c: char)
    ensures Width(EncodeChar(c)[0]) == |EncodeChar(c)|
    ensures Payload(EncodeChar(c)) == c as int
  {
  }

  lemma DecodeCharOfEncodeChar(c: char, rest: seq<byte>)
    ensures DecodeChar(EncodeChar(c) + rest) == Some((c, |EncodeChar(c)|))
  {
    var front := EncodeChar(c);
    assert (front + rest)[..|front|] == front;
    PayloadOfEncodeChar(c);
  }

  /** Decoding undoes encoding, so encoding is injective. */
  lemma {:induction false} DecodeEncode(s: string)
    ensures Decode(Encode(s)) == Some(s)
  {
    if |s| > 0 {
      var front, rest := EncodeChar(s[0]), Encode(s[1..]);
      DecodeCharOfEncodeChar(s[0], rest);
      assert (front + rest)[|front|..] == rest;
      DecodeEncode(s[1..]);
      assert s == [s[0]] + s[1..];
    }
  }

  lemma EncodeInjective(s: string, t: string)
    ensures Encode(s) == Encode(t) <==> s == t
  {
    DecodeEncode(s);
    DecodeEncode(t);
  }

  lemma {:induction false} EncodeAppend(s: string, t: string)
    ensures Encode(s + t) == Encode(s) + Encode(t)
  {
    if |s| == 0 {
      assert s + t == t;
    } else {
      assert (s + t)[1..] == s[1..] + t;
      EncodeAppend(s[1..], t);
    }
  }

  lemma EncodeAscii(c: char, rest: string)
    requires c as int < 128
    ensures Encode([c] + rest) == [c as int] + Encode(rest)
  {
    assert ([c] + rest)[1..] == rest;
  }

  /** The first example of section 7 of RFC 3629: "A", not identical to, Alpha, full stop. */
  lemma EncodeExample()
    ensures Encode("A\U{2262}\U{0391}.") == [0x41, 0xE2, 0x89, 0xA2, 0xCE, 0x91, 0x2E]
  {
    var s := "A\U{2262}\U{0391}.";
    assert s[1..] == "\U{2262}\U{0391}." && s[1..][1..] == "\U{0391}." && s[1..][1..][1..] == ".";
    assert Encode(".") == [0x2E];
    assert Encode("\U{0391}.") == [0xCE, 0x91] + [0x2E];
    assert Encode("\U{2262}\U{0391}.") == [0xE2, 0x89, 0xA2] + [0xCE, 0x91, 0x2E];
  }
}
