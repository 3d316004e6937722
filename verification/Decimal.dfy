/** Rust's decimal formatting of unsigned integers, plain and zero padded. */
module Decimal {
  import opened Numerals

  function DigitChar(d: nat): char
    requires d < 10
  {
    '0' + d as char
  }

  function CharDigit(c: char): (d: nat)
    ensures d < 10
  {
    if '0' <= c <= '9' then c as nat - '0' as nat else 0
  }

  predicate IsDecimal(s: string) {
    |s| > 0 && forall i :: 0 <= i < |s| ==> '0' <= s[i] <= '9'
  }

  /** `Display` for an unsigned integer: no leading zeros, "0" for zero. */
  function ToDecimal(n: nat): (s: string)
    ensures IsDecimal(s)
  {
    if n < 10 then [DigitChar(n)] else ToDecimal(n / 10) + [DigitChar(n % 10)]
  }

  /** The `{:0>width$}` format: fill with '0' on the left up to `width`. */
  function PadLeft(s: string, width: nat): string {
    if |s| >= width then s else seq(width - |s|, _ => '0') + s
  }

  function CharDigits(s: string): (ds: seq<nat>)
    ensures |ds| == |s| && AreDigits(ds, 10)
  {
    seq(|s|, i requires 0 <= i < |s| => CharDigit(s[i]))
  }

  function DigitChars(ds: seq<nat>): (s: string)
    requires AreDigits(ds, 10)
    ensures |s| == |ds|
    ensures forall i :: 0 <= i < |s| ==> '0' <= s[i] <= '9'
  {
    seq(|ds|, i requires 0 <= i < |ds| => DigitChar(ds[i]))
  }

  /** The number a decimal string denotes. */
  function Parse(s: string): nat {
    Value(CharDigits(s), 10)
  }

  lemma CharDigitsOfDigitChars(ds: seq<nat>)
    requires AreDigits(ds, 10)
    ensures CharDigits(DigitChars(ds)) == ds
  {
  }

  lemma {:induction false} ParseToDecimal(n: nat)
    ensures Parse(ToDecimal(n)) == n
  {
    var s := ToDecimal(n);
    var ds := CharDigits(s);
    if n < 10 {
      assert ds == [n] && ds[..0] == [];
      assert Value(ds[..0], 10) == 0;
    } else {
      ParseToDecimal(n / 10);
      assert ds[..|ds| - 1] == CharDigits(ToDecimal(n / 10));
      assert ds[|ds| - 1] == n % 10;
    }
  }

  lemma DigitCharsSnoc(ds: seq<nat>, d: nat)
    requires AreDigits(ds, 10) && d < 10
    ensures AreDigits(ds + [d], 10) && DigitChars(ds + [d]) == DigitChars(ds) + [DigitChar(d)]
  {
    assert DigitChars(ds + [d])[..|ds|] == DigitChars(ds);
  }

  lemma PadLeftSnoc(s: string, c: char, width: nat)
    requires width > 0
    ensures PadLeft(s + [c], width) == PadLeft(s, width - 1) + [c]
  {
    if |s| + 1 < width {
      assert seq(width - |s| - 1, _ => '0') + (s + [c]) == seq(width - 1 - |s|, _ => '0') + s + [c];
    }
  }

  lemma {:induction false} ZeroDigits(k: nat)
    ensures DigitChars(Digits(0, 10, k)) == seq(k, _ => '0')
  {
    if k > 0 {
      ZeroDigits(k - 1);
      DigitCharsSnoc(Digits(0, 10, k - 1), 0);
    }
  }

  /** Padding a number that fits prints exactly its `width` decimal digits. */
  lemma {:induction false} PaddedIsDigits(n: nat, width: nat)
    requires width > 0 && n < Pow(10, width)
    ensures PadLeft(ToDecimal(n), width) == DigitChars(Digits(n, 10, width))
  {
    hide DigitChars;
    hide PadLeft;
    DigitCharsSnoc(Digits(n / 10, 10, width - 1), n % 10);
    if n < 10 {
      ZeroDigits(width - 1);
      PadLeftSnoc("", DigitChar(n), width);
      assert "" + [DigitChar(n)] == [DigitChar(n)];
      PadLeftEmpty(width - 1);
    } else {
      assert Pow(10, 1) == 10;
      PaddedIsDigits(n / 10, width - 1);
      PadLeftSnoc(ToDecimal(n / 10), DigitChar(n % 10), width);
    }
  }

  lemma PadLeftEmpty(width: nat)
    ensures PadLeft("", width) == seq(width, _ => '0')
  {
    assert seq(width, _ => '0') + "" == seq(width, _ => '0');
  }
}
