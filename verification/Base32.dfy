/**
  TOTP secrets as text: base32 without padding (section 6 of RFC 4648), and the
  tolerant import that undoes it.

  The base32 crate is not part of the repository. Its encoder is modelled on
  whole five-byte groups, the only input `to_base32` has; its two decoders and
  Rust's upper-casing are parameters, pinned down only where the standards leave
  no choice.
 */
module Base32 {
  import opened Numerals
  import opened Text
  import opened Utf8
  import opened Wrappers

  const SECRET_LEN: nat := 20

  datatype SecretError = EmptySecret | InvalidEncoding | WrongLength

  // ---------------------------------------------------------------------
  // Whole groups
  // ---------------------------------------------------------------------

  function QuintetChar(q: nat): char
    requires q < 32
  {
    if q < 26 then 'A' + q as char else '2' + (q - 26) as char
  }

  predicate IsBase32Char(c: char) {
    'A' <= c <= 'Z' || '2' <= c <= '7'
  }

  function CharQuintet(c: char): (q: nat)
    ensures q < 32
  {
    if 'A' <= c <= 'Z' then c as nat - 'A' as nat
    else if '2' <= c <= '7' then c as nat - '2' as nat + 26
    else 0
  }

  function QuintetChars(qs: seq<nat>): string
    requires AreDigits(qs, 32)
  {
    seq(|qs|, i requires 0 <= i < |qs| => QuintetChar(qs[i]))
  }

  function CharQuintets(s: string): (qs: seq<nat>)
    ensures |qs| == |s| && AreDigits(qs, 32)
  {
    seq(|s|, i requires 0 <= i < |s| => CharQuintet(s[i]))
  }

  /** Forty bits, read as eight five-bit groups instead of five bytes. */
  function EncodeGroup(b: seq<byte>): (s: string)
    requires |b| == 5
    ensures |s| == 8
  {
    QuintetChars(Digits(Value(b, 256), 32, 8))
  }

  function DecodeGroup(s: string): (b: seq<byte>)
    requires |s| == 8
    ensures |b| == 5
  {
    Digits(Value(CharQuintets(s), 32), 256, 5)
  }

  function Encode(b: seq<byte>): (s: string)
    requires |b| % 5 == 0
    ensures |s| == |b| / 5 * 8
  {
    if |b| == 0 then "" else EncodeGroup(b[..5]) + Encode(b[5..])
  }

  function DecodeGroups(s: string): (b: seq<byte>)
    requires |s| % 8 == 0
    ensures |b| == |s| / 8 * 5
  {
    if |s| == 0 then [] else DecodeGroup(s[..8]) + DecodeGroups(s[8..])
  }

  predicate IsBase32(s: string) {
    forall i :: 0 <= i < |s| ==> IsBase32Char(s[i])
  }

  lemma FortyBits()
    ensures Pow(32, 8) == Pow(256, 5) == 0x100_0000_0000
  {
    assert Pow(32, 1) == 32 && Pow(32, 2) == 1024 && Pow(32, 3) == 32768 && Pow(32, 4) == 1048576;
    assert Pow(32, 5) == 33554432 && Pow(32, 6) == 1073741824 && Pow(32, 7) == 34359738368;
    assert Pow(256, 1) == 256 && Pow(256, 2) == 65536 && Pow(256, 3) == 16777216 && Pow(256, 4) == 4294967296;
  }

  lemma CharQuintetsOfQuintetChars(qs: seq<nat>)
    requires AreDigits(qs, 32)
    ensures CharQuintets(QuintetChars(qs)) == qs && IsBase32(QuintetChars(qs))
  {
  }

  lemma DecodeEncodeGroup(b: seq<byte>)
    requires |b| == 5
    ensures DecodeGroup(EncodeGroup(b)) == b && IsBase32(EncodeGroup(b))
  {
    FortyBits();
    CharQuintetsOfQuintetChars(Digits(Value(b, 256), 32, 8));
    RebaseRoundTrip(b, 256, 32, 8);
  }

  lemma ValueSnoc(init: seq<nat>, d: nat, b: nat)
    ensures Value(init + [d], b) == Value(init, b) * b + d
  {
    assert (init + [d])[..|init|] == init;
  }

  lemma ExampleBytes()
    ensures Value([0x66, 0x6f, 0x6f, 0x62, 0x61], 256) == 0x666f6f6261
  {
    ValueSnoc([], 0x66, 256);
    assert [] + [0x66] == [0x66];
    ValueSnoc([0x66], 0x6f, 256);
    assert [0x66] + [0x6f] == [0x66, 0x6f];
    ValueSnoc([0x66, 0x6f], 0x6f, 256);
    assert [0x66, 0x6f] + [0x6f] == [0x66, 0x6f, 0x6f];
    ValueSnoc([0x66, 0x6f, 0x6f], 0x62, 256);
    assert [0x66, 0x6f, 0x6f] + [0x62] == [0x66, 0x6f, 0x6f, 0x62];
    ValueSnoc([0x66, 0x6f, 0x6f, 0x62], 0x61, 256);
    assert [0x66, 0x6f, 0x6f, 0x62] + [0x61] == [0x66, 0x6f, 0x6f, 0x62, 0x61];
  }

  lemma ExampleQuintets()
    ensures Value([12, 25, 23, 22, 30, 24, 19, 1], 32) == 0x666f6f6261
  {
    ValueSnoc([], 12, 32);
    assert [] + [12] == [12];
    ValueSnoc([12], 25, 32);
    assert [12] + [25] == [12, 25];
    ValueSnoc([12, 25], 23, 32);
    assert [12, 25] + [23] == [12, 25, 23];
    ValueSnoc([12, 25, 23], 22, 32);
    assert [12, 25, 23] + [22] == [12, 25, 23, 22];
    ValueSnoc([12, 25, 23, 22], 30, 32);
    assert [12, 25, 23, 22] + [30] == [12, 25, 23, 22, 30];
    ValueSnoc([12, 25, 23, 22, 30], 24, 32);
    assert [12, 25, 23, 22, 30] + [24] == [12, 25, 23, 22, 30, 24];
    ValueSnoc([12, 25, 23, 22, 30, 24], 19, 32);
    assert [12, 25, 23, 22, 30, 24] + [19] == [12, 25, 23, 22, 30, 24, 19];
    ValueSnoc([12, 25, 23, 22, 30, 24, 19], 1, 32);
    assert [12, 25, 23, 22, 30, 24, 19] + [1] == [12, 25, 23, 22, 30, 24, 19, 1];
  }

  /** The first whole group among the test vectors of section 10 of RFC 4648: "fooba". */
  lemma GroupExample()
    ensures EncodeGroup([0x66, 0x6f, 0x6f, 0x62, 0x61]) == "MZXW6YTB"
  {
    hide Value;
    hide Digits;
    var qs: seq<nat> := [12, 25, 23, 22, 30, 24, 19, 1];
    ExampleBytes();
    ExampleQuintets();
    DigitsOfValue(qs, 32);
  }

  lemma QuintetCharExactly(q: nat)
    requires q < 32
    ensures QuintetChar(q) == "ABCDEFGHIJKLMNOPQRSTUVWXYZ234567"[q]
  {
  }

  /**
    Section 6 of RFC 4648: character `i` of a group is the alphabet's letter for its
    `i`-th five bits, counted from the top of the group's forty.
   */
  lemma GroupCharsExactly(b: seq<byte>, i: nat)
    requires |b| == 5 && i < 8
    ensures Pow(32, 7 - i) > 0
    ensures EncodeGroup(b)[i] == "ABCDEFGHIJKLMNOPQRSTUVWXYZ234567"[Value(b, 256) / Pow(32, 7 - i) % 32]
  {
    PowPositive(32, 7 - i);
    DigitAt(Value(b, 256), 32, 8, i);
    QuintetCharExactly(Digits(Value(b, 256), 32, 8)[i]);
  }

  /** Group by group, the whole text. */
  lemma {:induction false} EncodeIsGroupwise(front: seq<byte>, b: seq<byte>, back: seq<byte>)
    requires |front| % 5 == 0 && |b| == 5 && |back| % 5 == 0
    ensures Encode(front + b + back) == Encode(front) + EncodeGroup(b) + Encode(back)
  {
    hide EncodeGroup;
    var all := front + b + back;
    if |front| == 0 {
      assert all[..5] == b && all[5..] == back;
    } else {
      assert all[..5] == front[..5] && all[5..] == front[5..] + b + back;
      EncodeIsGroupwise(front[5..], b, back);
    }
  }

  lemma {:induction false} DecodeEncode(b: seq<byte>)
    requires |b| % 5 == 0
    ensures DecodeGroups(Encode(b)) == b && IsBase32(Encode(b))
  {
    if |b| > 0 {
      DecodeEncodeGroup(b[..5]);
      DecodeEncode(b[5..]);
      var s := Encode(b);
      assert s[..8] == EncodeGroup(b[..5]) && s[8..] == Encode(b[5..]);
      assert b == b[..5] + b[5..];
    }
  }

  // ---------------------------------------------------------------------
  // Import
  // ---------------------------------------------------------------------

  function AsciiUpper(c: char): char {
    if 'a' <= c <= 'z' then c - 'a' + 'A' else c
  }

  /** `char::to_uppercase`, which may give several characters outside ASCII. */
  type UpperCase = f: char -> string | forall c: char :: c as int < 128 ==> f(c) == [AsciiUpper(c)]
    witness (c: char) => [AsciiUpper(c)]

  /** A base32 decoder: whole groups of the alphabet decode as the standard says. */
  type Decoder = f: string -> Option<seq<byte>> |
    forall s: string :: |s| % 8 == 0 && IsBase32(s) ==> f(s) == Some(DecodeGroups(s))
    witness (s: string) => if |s| % 8 == 0 && IsBase32(s) then Some(DecodeGroups(s)) else None

  function ToUpper(s: string, upper: UpperCase): string {
    if |s| == 0 then "" else upper(s[0]) + ToUpper(s[1..], upper)
  }

  function RemoveSpaces(s: string): string {
    if |s| == 0 then ""
    else if s[0] == ' ' then RemoveSpaces(s[1..])
    else [s[0]] + RemoveSpaces(s[1..])
  }

  function Normalize(s: string, upper: UpperCase): string {
    RemoveSpaces(ToUpper(Trim(s), upper))
  }

  function ToBase32(secret: seq<byte>): string
    requires |secret| == SECRET_LEN
  {
    Encode(secret)
  }

  function FromBase32(
    s: string, upper: UpperCase, unpadded: Decoder, padded: Decoder): (r: Result<seq<byte>, SecretError>)
    ensures r.Ok? ==> |r.value| == SECRET_LEN
  {
    var normalized := Normalize(s, upper);
    if normalized == "" then Err(EmptySecret) else
    var bytes := if unpadded(normalized).Some? then unpadded(normalized) else padded(normalized);
    if bytes.None? then Err(InvalidEncoding)
    else if |bytes.value| != SECRET_LEN then Err(WrongLength)
    else Ok(bytes.value)
  }

  /** Visible ASCII without lower-case letters: what normalizing leaves of a text in ASCII. */
  predicate IsPlainText(s: string) {
    forall i :: 0 <= i < |s| ==> 0x21 <= s[i] as int <= 0x7E && !('a' <= s[i] <= 'z')
  }

  lemma Base32IsPlain(s: string)
    requires IsBase32(s)
    ensures IsPlainText(s)
  {
  }

  /** `text` is `canon` with letters lower-cased at will and spaces anywhere. */
  ghost predicate Spells(text: string, canon: string) {
    if |text| == 0 then |canon| == 0
    else if text[0] == ' ' then Spells(text[1..], canon)
    else
      && |canon| > 0
      && (text[0] == canon[0] || ('A' <= canon[0] <= 'Z' && text[0] == canon[0] - 'A' + 'a'))
      && Spells(text[1..], canon[1..])
  }

  lemma {:induction false} SpellsDropFront(pad: string, text: string, canon: string)
    requires IsPlainText(canon) && IsBlank(pad) && Spells(pad + text, canon)
    ensures Spells(text, canon)
  {
    if |pad| == 0 {
      assert pad + text == text;
    } else {
      assert (pad + text)[1..] == pad[1..] + text;
      SpellsDropFront(pad[1..], text, canon);
    }
  }

  lemma {:induction false} SpellsDropBack(text: string, pad: string, canon: string)
    requires IsPlainText(canon) && IsBlank(pad) && Spells(text + pad, canon)
    ensures Spells(text, canon)
  {
    if |text| == 0 {
      assert text + pad == pad + "";
      SpellsDropFront(pad, "", canon);
    } else {
      assert (text + pad)[1..] == text[1..] + pad;
      if text[0] == ' ' {
        SpellsDropBack(text[1..], pad, canon);
      } else {
        SpellsDropBack(text[1..], pad, canon[1..]);
      }
    }
  }

  lemma UpperSpells(c: char, d: char, upper: UpperCase)
    requires 0x21 <= d as int <= 0x7E && !('a' <= d <= 'z')
    requires c == d || ('A' <= d <= 'Z' && c == d - 'A' + 'a')
    ensures upper(c) == [d]
  {
    assert AsciiUpper(c) == d;
  }

  lemma {:induction false} SpelledNormalizes(text: string, canon: string, upper: UpperCase)
    requires IsPlainText(canon) && Spells(text, canon)
    ensures RemoveSpaces(ToUpper(text, upper)) == canon
  {
    hide AsciiUpper;
    if |text| > 0 {
      var rest := ToUpper(text[1..], upper);
      if text[0] == ' ' {
        SpaceIsKept(upper);
        assert ([' '] + rest)[1..] == rest;
        SpelledNormalizes(text[1..], canon, upper);
      } else {
        UpperSpells(text[0], canon[0], upper);
        assert ([canon[0]] + rest)[1..] == rest;
        SpelledNormalizes(text[1..], canon[1..], upper);
        assert canon == [canon[0]] + canon[1..];
      }
    }
  }

  lemma SpaceIsKept(upper: UpperCase)
    ensures upper(' ') == [' ']
  {
    assert AsciiUpper(' ') == ' ';
  }

  lemma SpelledTrims(text: string, canon: string) returns (front: string, back: string)
    requires IsPlainText(canon) && Spells(text, canon)
    ensures IsBlank(front) && IsBlank(back) && text == front + Trim(text) + back
    ensures IsTrimmed(Trim(text)) && Spells(Trim(text), canon)
  {
    front, back := TrimDecomposes(text);
    var core := Trim(text);
    assert text == front + (core + back);
    SpellsDropFront(front, core + back, canon);
    SpellsDropBack(core, back, canon);
  }

  lemma BlankAppend(a: string, b: string)
    requires IsBlank(a) && IsBlank(b)
    ensures IsBlank(a + b)
  {
  }

  /** However a spelled text is padded, trimming finds a text that spells the same. */
  lemma PaddedTrims(pre: string, text: string, post: string, canon: string)
    requires IsBlank(pre) && IsBlank(post) && IsPlainText(canon) && Spells(text, canon)
    ensures Spells(Trim(pre + text + post), canon)
  {
    var front, back := SpelledTrims(text, canon);
    var core := Trim(text);
    assert pre + (front + core + back) + post == (pre + front) + core + (back + post);
    BlankAppend(pre, front);
    BlankAppend(back, post);
    TrimPadded(pre + front, core, back + post);
  }

  lemma PaddedNormalizes(pre: string, text: string, post: string, canon: string, upper: UpperCase)
    requires IsBlank(pre) && IsBlank(post) && IsPlainText(canon) && Spells(text, canon)
    ensures Normalize(pre + text + post, upper) == canon
  {
    PaddedTrims(pre, text, post, canon);
    SpelledNormalizes(Trim(pre + text + post), canon, upper);
  }

  /**
    What import answers, for every text and whatever the decoders make of it: the
    unpadded decoder is asked first, the padded one if it refuses.
   */
  lemma ImportExactly(s: string, upper: UpperCase, unpadded: Decoder, padded: Decoder)
    ensures var n := Normalize(s, upper);
            var r := FromBase32(s, upper, unpadded, padded);
            && (r == Err(EmptySecret) <==> n == "")
            && (r == Err(InvalidEncoding) <==> n != "" && unpadded(n) == None && padded(n) == None)
            && (forall v :: r == Ok(v) <==>
                  n != "" && |v| == 20 && (unpadded(n) == Some(v) || (unpadded(n) == None && padded(n) == Some(v))))
            && (r == Err(WrongLength) <==>
                  n != "" && ((unpadded(n).Some? && |unpadded(n).value| != 20)
                              || (unpadded(n) == None && padded(n).Some? && |padded(n).value| != 20)))
  {
  }

  /**
    What normalizing does to visible ASCII: however a text spells `canon`, with letters
    in either case, spaces anywhere and blanks around, `canon` is what the decoders see.
   */
  lemma NormalizeExactly(pre: string, text: string, post: string, canon: string, upper: UpperCase)
    requires forall c :: c in pre || c in post ==> c in [' ', '\t', '\n', '\r']
    requires IsPlainText(canon) && Spells(text, canon)
    ensures Normalize(pre + text + post, upper) == canon
  {
    forall i | 0 <= i < |pre|
      ensures IsWhitespace(pre[i])
    {
      assert pre[i] in pre;
    }
    forall i | 0 <= i < |post|
      ensures IsWhitespace(post[i])
    {
      assert post[i] in post;
    }
    PaddedNormalizes(pre, text, post, canon, upper);
  }

  /** What import answers for any whole groups of base32, however they are written. */
  lemma ImportOfSpelled(
    b: seq<byte>, pre: string, text: string, post: string,
    upper: UpperCase, unpadded: Decoder, padded: Decoder)
    requires |b| % 5 == 0
    requires IsBlank(pre) && IsBlank(post) && Spells(text, Encode(b))
    ensures FromBase32(pre + text + post, upper, unpadded, padded) ==
            if |b| == 0 then Err(EmptySecret)
            else if |b| != 20 then Err(WrongLength)
            else Ok(b)
  {
    DecodeEncode(b);
    Base32IsPlain(Encode(b));
    PaddedNormalizes(pre, text, post, Encode(b), upper);
    assert unpadded(Encode(b)) == Some(b);
  }

  /**
    Import undoes export: a secret's base32 text, with any letters lower-cased,
    spaces inserted anywhere and whitespace around it, imports as the secret.
   */
  lemma ImportUndoesExport(
    secret: seq<byte>, pre: string, text: string, post: string,
    upper: UpperCase, unpadded: Decoder, padded: Decoder)
    requires |secret| == 20
    requires IsBlank(pre) && IsBlank(post) && Spells(text, ToBase32(secret))
    ensures FromBase32(pre + text + post, upper, unpadded, padded) == Ok(secret)
  {
    ImportOfSpelled(secret, pre, text, post, upper, unpadded, padded);
  }

  /** Export is injective. */
  lemma ToBase32Injective(a: seq<byte>, b: seq<byte>)
    requires |a| == 20 && |b| == 20 && ToBase32(a) == ToBase32(b)
    ensures a == b
  {
    DecodeEncode(a);
    DecodeEncode(b);
  }
}
