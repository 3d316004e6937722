/**
  One-time passwords: HOTP (RFC 4226) and TOTP (RFC 6238).

  The keyed hash is any function with the right output length.
 */
module Totp {
  import Bits
  import opened Decimal
  import opened Numerals
  import opened Utf8

  type u32 = x: int | 0 <= x < 0x1_0000_0000
  type u64 = x: int | 0 <= x < U64_LIMIT

  const U64_LIMIT: int := 0x1_0000_0000_0000_0000
  const DEFAULT_DIGITS: nat := 6
  const DEFAULT_WINDOW: u32 := 1

  datatype Algorithm = Sha1 | Sha256 | Sha512 {
    function OutputLen(): nat {
      match this
      case Sha1 => 20
      case Sha256 => 32
      case Sha512 => 64
    }
  }

  /** A keyed hash: algorithm, key and message to a digest of `OutputLen` bytes. */
  type Mac = f: (Algorithm, seq<byte>, seq<byte>) -> seq<byte> |
    forall a, key, message :: |f(a, key, message)| == a.OutputLen()
    witness (a: Algorithm, key: seq<byte>, message: seq<byte>) => seq(a.OutputLen(), _ => 0)

  // ---------------------------------------------------------------------
  // Codes
  // ---------------------------------------------------------------------

  /** `u64::to_be_bytes`. */
  function CounterBytes(counter: u64): (b: seq<byte>)
    ensures |b| == 8
  {
    Digits(counter, 256, 8)
  }

  function And(b: byte, mask: bv8): byte {
    ((b as bv8) & mask) as byte
  }

  lemma AndMasks(b: byte)
    ensures And(b, 0x0F) == b % 16
    ensures And(b, 0x7F) == b % 128
  {
    Bits.RoundTrip(b);
    Bits.MaskIsRemainder(b as bv8);
  }

  function Offset(digest: seq<byte>): (offset: nat)
    requires |digest| >= 20
    ensures offset + 4 <= |digest|
  {
    AndMasks(digest[|digest| - 1]);
    And(digest[|digest| - 1], 0x0F)
  }

  /** Dynamic truncation (section 5.3 of RFC 4226). */
  function Truncate(digest: seq<byte>): nat
    requires |digest| >= 20
  {
    var o := Offset(digest);
    Value([And(digest[o], 0x7F), digest[o + 1], digest[o + 2], digest[o + 3]], 256)
  }

  function Digest(mac: Mac, secret: seq<byte>, counter: u64, algorithm: Algorithm): (digest: seq<byte>)
    ensures |digest| == algorithm.OutputLen()
  {
    mac(algorithm, secret, CounterBytes(counter))
  }

  function BinCode(mac: Mac, secret: seq<byte>, counter: u64, algorithm: Algorithm): nat {
    Truncate(Digest(mac, secret, counter, algorithm))
  }

  /**
    The code for a counter. Ten or more digits are outside the function: the
    modulus 10^10 does not fit its 32 bits (see `ModulusFits`).
   */
  function Hotp(mac: Mac, secret: seq<byte>, counter: u64, digits: nat, algorithm: Algorithm): string
    requires digits <= 9
  {
    PowPositive(10, digits);
    var code := BinCode(mac, secret, counter, algorithm) % Pow(10, digits);
    PadLeft(ToDecimal(code), digits)
  }

  /** The step a Unix time falls in (section 4.2 of RFC 6238). */
  function CounterOf(unixSecs: u64, period: u64): u64
    requires period > 0
  {
    QuotientIsSmaller(unixSecs, period);
    unixSecs / period
  }

  /** Step `c` of `period` seconds holds the second `t`. */
  predicate IsInStep(t: nat, period: nat, c: nat) {
    c * period <= t < (c + 1) * period
  }

  /** The counter of a time is the one step that holds it. */
  lemma CounterExactly(t: u64, period: u64, c: u64)
    requires period > 0
    ensures CounterOf(t, period) == c <==> IsInStep(t, period, c)
  {
    var q, r := t / period, t % period;
    assert t == q * period + r;
    assert (q + 1) * period == q * period + period && (c + 1) * period == c * period + period;
    if IsInStep(t, period, c) {
      DivModUnique(t, period, c, t - c * period);
    }
  }

  lemma QuotientIsSmaller(n: nat, d: nat)
    requires d > 0
    ensures 0 <= n / d <= n
  {
    MulMonotone(1, d, n / d);
    assert n / d * d <= n;
  }

  function At(mac: Mac, secret: seq<byte>, unixSecs: u64, period: u64, digits: nat): string
    requires period > 0 && digits <= 9
  {
    Hotp(mac, secret, CounterOf(unixSecs, period), digits, Sha1)
  }

  /** A TOTP code is the HOTP code, with SHA-1, of the step that holds the time. */
  lemma AtExactly(mac: Mac, secret: seq<byte>, t: u64, period: u64, digits: nat, c: u64)
    requires period > 0 && digits <= 9 && IsInStep(t, period, c)
    ensures At(mac, secret, t, period, digits) == Hotp(mac, secret, c, digits, Sha1)
  {
    hide Hotp;
    CounterExactly(t, period, c);
  }

  /** The eight counter bytes determine the counter, so distinct steps hash distinct messages. */
  lemma CounterBytesDetermineCounter(counter: u64)
    ensures Value(CounterBytes(counter), 256) == counter
  {
    assert Pow(256, 1) == 256 && Pow(256, 2) == 0x1_0000 && Pow(256, 3) == 0x100_0000;
    assert Pow(256, 4) == 0x1_0000_0000 && Pow(256, 5) == 0x100_0000_0000;
    assert Pow(256, 6) == 0x1_0000_0000_0000 && Pow(256, 7) == 0x100_0000_0000_0000;
    assert Pow(256, 8) == U64_LIMIT;
    ValueOfDigits(counter, 256, 8);
  }

  /** 10^min(digits, 10) fits 32 bits exactly up to nine digits. */
  lemma ModulusFits(digits: nat)
    ensures Pow(10, if digits < 10 then digits else 10) < 0x1_0000_0000 <==> digits <= 9
  {
    assert Pow(10, 1) == 10 && Pow(10, 2) == 100 && Pow(10, 3) == 1_000;
    assert Pow(10, 4) == 10_000 && Pow(10, 5) == 100_000 && Pow(10, 6) == 1_000_000;
    assert Pow(10, 7) == 10_000_000 && Pow(10, 8) == 100_000_000 && Pow(10, 9) == 1_000_000_000;
    assert Pow(10, 10) == 10_000_000_000;
  }

  lemma FourBytes(a: nat, b: nat, c: nat, d: nat)
    ensures Value([a, b, c, d], 256) == ((a * 256 + b) * 256 + c) * 256 + d
  {
    assert [a, b, c, d][..3] == [a, b, c] && [a, b, c][..2] == [a, b];
    assert [a, b][..1] == [a] && [a][..0] == [];
    assert Value([a], 256) == a;
    assert Value([a, b], 256) == a * 256 + b;
    assert Value([a, b, c], 256) == (a * 256 + b) * 256 + c;
  }

  lemma MaskedTopByte(a: byte, b: byte, c: byte, d: byte)
    ensures Value([a % 128, b, c, d], 256) == Value([a, b, c, d], 256) % 0x8000_0000 < 0x8000_0000
  {
    FourBytes(a, b, c, d);
    FourBytes(a % 128, b, c, d);
    var low := (b * 256 + c) * 256 + d;
    assert a == a / 128 * 128 + a % 128;
    DivModUnique(a * 0x100_0000 + low, 0x8000_0000, a / 128, a % 128 * 0x100_0000 + low);
  }

  /**
    Truncation keeps the last 31 bits of the four bytes that the digest's last
    nibble points at, all of which lie inside every digest.
   */
  lemma TruncationIsLast31Bits(digest: seq<byte>)
    requires |digest| in {20, 32, 64}
    ensures var o := digest[|digest| - 1] % 16;
            && o + 4 <= |digest|
            && Truncate(digest) == Value(digest[o..o + 4], 256) % 0x8000_0000
            && Truncate(digest) < 0x8000_0000
  {
    var o := digest[|digest| - 1] % 16;
    AndMasks(digest[|digest| - 1]);
    AndMasks(digest[o]);
    assert digest[o..o + 4] == [digest[o], digest[o + 1], digest[o + 2], digest[o + 3]];
    MaskedTopByte(digest[o], digest[o + 1], digest[o + 2], digest[o + 3]);
  }

  /** The worked example of section 5.4 of RFC 4226. */
  lemma TruncationExample(digest: seq<byte>)
    requires digest == [0x1f, 0x86, 0x98, 0x69, 0x0e, 0x02, 0xca, 0x16, 0x61, 0x85,
                        0x50, 0xef, 0x7f, 0x19, 0xda, 0x8e, 0x94, 0x5b, 0x55, 0x5a]
    ensures Truncate(digest) == 0x50ef7f19 && Truncate(digest) % 1_000_000 == 872921
  {
    hide Truncate;
    TruncationIsLast31Bits(digest);
    assert digest[10..14] == [0x50, 0xef, 0x7f, 0x19];
    FourBytes(0x50, 0xef, 0x7f, 0x19);
  }

  /** The text of a code, as fixed-length decimal digits of the untruncated number. */
  lemma HotpDigits(mac: Mac, secret: seq<byte>, counter: u64, digits: nat, algorithm: Algorithm)
    requires 1 <= digits <= 9
    ensures Hotp(mac, secret, counter, digits, algorithm) ==
            DigitChars(Digits(BinCode(mac, secret, counter, algorithm), 10, digits))
  {
    var n := BinCode(mac, secret, counter, algorithm);
    PowPositive(10, digits);
    PaddedIsDigits(n % Pow(10, digits), digits);
    DigitsMod(n, 10, digits, digits);
  }

  lemma HotpParses(mac: Mac, secret: seq<byte>, counter: u64, digits: nat, algorithm: Algorithm)
    requires 1 <= digits <= 9
    ensures Pow(10, digits) > 0
    ensures var code := Hotp(mac, secret, counter, digits, algorithm);
            && |code| == digits && IsDecimal(code)
            && Parse(code) == BinCode(mac, secret, counter, algorithm) % Pow(10, digits)
  {
    hide Hotp;
    hide BinCode;
    var n := BinCode(mac, secret, counter, algorithm);
    HotpDigits(mac, secret, counter, digits, algorithm);
    CharDigitsOfDigitChars(Digits(n, 10, digits));
    ValueOfDigits(n, 10, digits);
  }

  /**
    A code is exactly `digits` decimal characters, and they read back the last 31
    bits of the four bytes that the hash of the counter points at, reduced modulo
    10^digits.
   */
  lemma HotpPrintsExactly(mac: Mac, secret: seq<byte>, counter: u64, digits: nat, algorithm: Algorithm)
    requires 1 <= digits <= 9
    ensures var code := Hotp(mac, secret, counter, digits, algorithm);
            |code| == digits && IsDecimal(code)
    ensures var digest := mac(algorithm, secret, CounterBytes(counter));
            && |digest| == (match algorithm case Sha1 => 20 case Sha256 => 32 case Sha512 => 64)
            && Pow(10, digits) > 0
            && var o := digest[|digest| - 1] % 16;
               Parse(Hotp(mac, secret, counter, digits, algorithm)) ==
               Value(digest[o..o + 4], 256) % 0x8000_0000 % Pow(10, digits)
  {
    hide Hotp;
    hide Truncate;
    hide Digits;
    hide Value;
    hide Parse;
    hide IsDecimal;
    HotpParses(mac, secret, counter, digits, algorithm);
    TruncationIsLast31Bits(Digest(mac, secret, counter, algorithm));
  }

  /** With no digits asked for, one character is printed all the same. */
  lemma ZeroDigitsPrintsZero(mac: Mac, secret: seq<byte>, counter: u64, algorithm: Algorithm)
    ensures Hotp(mac, secret, counter, 0, algorithm) == "0"
  {
    assert Pow(10, 0) == 1;
  }

  /** Shorter codes are suffixes of longer ones. */
  lemma ShorterCodeIsSuffix(
    mac: Mac, secret: seq<byte>, counter: u64, short: nat, long: nat, algorithm: Algorithm)
    requires 1 <= short <= long <= 9
    ensures |Hotp(mac, secret, counter, long, algorithm)| == long
    ensures Hotp(mac, secret, counter, long, algorithm)[long - short..] ==
            Hotp(mac, secret, counter, short, algorithm)
  {
    var n := BinCode(mac, secret, counter, algorithm);
    HotpDigits(mac, secret, counter, short, algorithm);
    HotpDigits(mac, secret, counter, long, algorithm);
    DigitsSuffix(n, 10, short, long);
  }

  // ---------------------------------------------------------------------
  // The drift window
  // ---------------------------------------------------------------------

  lemma XorZero(x: byte, y: byte)
    ensures (x as bv8) ^ (y as bv8) == 0 <==> x == y
  {
    Bits.RoundTrip(x);
    Bits.RoundTrip(y);
    Bits.XorZero(x as bv8, y as bv8);
  }

  /** Comparison that looks at every byte before it answers. */
  method ConstantTimeEq(a: seq<byte>, b: seq<byte>) returns (equal: bool)
    ensures equal <==> a == b
  {
    if |a| != |b| {
      return false;
    }
    var acc: bv8 := 0;
    for i := 0 to |a|
      invariant acc == 0 <==> a[..i] == b[..i]
    {
      XorZero(a[i], b[i]);
      Bits.OrZero(acc, (a[i] as bv8) ^ (b[i] as bv8));
      acc := acc | ((a[i] as bv8) ^ (b[i] as bv8));
      assert a[..i + 1] == a[..i] + [a[i]] && b[..i + 1] == b[..i] + [b[i]];
    }
    assert a[..|a|] == a && b[..|b|] == b;
    equal := acc == 0;
  }

  /** Counter `c` has the six-digit code `candidate`. */
  predicate Yields(mac: Mac, secret: seq<byte>, c: u64, candidate: string) {
    Hotp(mac, secret, c, DEFAULT_DIGITS, Sha1) == candidate
  }

  /** Some counter within `window` steps of `counterNow`, and in range, has this code. */
  ghost predicate Accepts(mac: Mac, secret: seq<byte>, candidate: string, counterNow: u64, window: u32) {
    exists c: u64 :: counterNow - window <= c <= counterNow + window
                     && Yields(mac, secret, c, candidate)
  }

  /** One round of the loop: compute the code and compare its bytes. */
  method HasCode(mac: Mac, secret: seq<byte>, c: u64, candidate: string) returns (equal: bool)
    ensures equal <==> Yields(mac, secret, c, candidate)
  {
    var expected := Hotp(mac, secret, c, DEFAULT_DIGITS, Sha1);
    Utf8.EncodeInjective(expected, candidate);
    equal := ConstantTimeEq(Utf8.Encode(expected), Utf8.Encode(candidate));
  }

  /** The loop over the window decides exactly the bounded existential. */
  method SearchWindow(mac: Mac, secret: seq<byte>, candidate: string, counterNow: u64, window: u32)
    returns (found: bool)
    ensures found <==> Accepts(mac, secret, candidate, counterNow, window)
  {
    hide Yields;
    var width: int := window;
    var delta := -width;
    while delta <= width
      invariant -width <= delta <= width + 1
      invariant forall c: u64 :: counterNow - width <= c < counterNow + delta ==>
                                   !Yields(mac, secret, c, candidate)
    {
      // Counters below zero or above 64 bits are skipped.
      if 0 <= counterNow + delta < U64_LIMIT {
        var c: u64 := counterNow + delta;
        var equal := HasCode(mac, secret, c, candidate);
        if equal {
          return true;
        }
      }
      delta := delta + 1;
    }
    return false;
  }

  lemma AcceptsExactly(mac: Mac, secret: seq<byte>, candidate: string, c: u64, window: u32)
    ensures Accepts(mac, secret, candidate, c, window) <==>
            exists k: u64 :: c - window <= k <= c + window && Hotp(mac, secret, k, 6, Sha1) == candidate
  {
    hide Hotp;
    if Accepts(mac, secret, candidate, c, window) {
      var k: u64 :| c - window <= k <= c + window && Yields(mac, secret, k, candidate);
      assert Hotp(mac, secret, k, 6, Sha1) == candidate;
    }
    if k: u64 :| c - window <= k <= c + window && Hotp(mac, secret, k, 6, Sha1) == candidate {
      assert Yields(mac, secret, k, candidate);
    }
  }

  method VerifyWithWindow(
    mac: Mac, secret: seq<byte>, candidate: string, unixSecs: u64, period: u64, window: u32)
    returns (accepted: bool)
    requires period > 0
    ensures accepted <==> Accepts(mac, secret, candidate, CounterOf(unixSecs, period), window)
    ensures forall c: u64 :: IsInStep(unixSecs, period, c) ==>
              (accepted <==>
                exists k: u64 :: c - window <= k <= c + window && Hotp(mac, secret, k, 6, Sha1) == candidate)
  {
    hide Hotp;
    hide Accepts;
    hide IsInStep;
    hide CounterOf;
    accepted := SearchWindow(mac, secret, candidate, CounterOf(unixSecs, period), window);
    CounterIsOnly(unixSecs, period);
    AcceptsExactly(mac, secret, candidate, CounterOf(unixSecs, period), window);
  }

  method Verify(mac: Mac, secret: seq<byte>, candidate: string, unixSecs: u64, period: u64)
    returns (accepted: bool)
    requires period > 0
    ensures accepted <==> Accepts(mac, secret, candidate, CounterOf(unixSecs, period), 1)
    ensures forall c: u64 :: IsInStep(unixSecs, period, c) ==>
              (accepted <==> exists k: u64 :: c - 1 <= k <= c + 1 && Hotp(mac, secret, k, 6, Sha1) == candidate)
  {
    hide Hotp;
    hide Accepts;
    hide IsInStep;
    hide CounterOf;
    accepted := VerifyWithWindow(mac, secret, candidate, unixSecs, period, DEFAULT_WINDOW);
    CounterIsOnly(unixSecs, period);
    AcceptsExactly(mac, secret, candidate, CounterOf(unixSecs, period), 1);
  }

  lemma CounterIsOnly(t: u64, period: u64)
    requires period > 0
    ensures IsInStep(t, period, CounterOf(t, period))
    ensures forall c: u64 :: IsInStep(t, period, c) ==> c == CounterOf(t, period)
  {
    hide IsInStep;
    hide CounterOf;
    forall c: u64 | IsInStep(t, period, c)
      ensures c == CounterOf(t, period)
    {
      CounterExactly(t, period, c);
    }
    CounterExactly(t, period, CounterOf(t, period));
  }

  lemma WiderWindowAcceptsMore(
    mac: Mac, secret: seq<byte>, candidate: string, counterNow: u64, narrow: u32, wide: u32)
    requires narrow <= wide && Accepts(mac, secret, candidate, counterNow, narrow)
    ensures Accepts(mac, secret, candidate, counterNow, wide)
  {
  }

  /** Verification fixes six digits, so a code of any other length is refused. */
  lemma OnlySixDigitsAccepted(mac: Mac, secret: seq<byte>, candidate: string, counterNow: u64, window: u32)
    requires Accepts(mac, secret, candidate, counterNow, window)
    ensures |candidate| == 6 && IsDecimal(candidate)
  {
    var c: u64 :| counterNow - window <= c <= counterNow + window
                  && Yields(mac, secret, c, candidate);
    HotpParses(mac, secret, c, DEFAULT_DIGITS, Sha1);
  }

  lemma FactorsCompare(a: nat, b: nat, p: nat)
    requires a * p < b * p
    ensures a < b
  {
    if b <= a {
      MulMonotone(b, a, p);
    }
  }

  /** At most `w` periods apart in time is at most `w` steps apart in counters. */
  lemma NearInTime(t: nat, u: nat, p: nat, w: nat)
    requires p > 0 && t <= u <= t + w * p
    ensures t / p <= u / p <= t / p + w
  {
    var q, r := t / p, u / p;
    assert q * p <= t < q * p + p && r * p <= u < r * p + p;
    assert (r + 1) * p == r * p + p;
    FactorsCompare(q, r + 1, p);
    assert (q + w + 1) * p == q * p + w * p + p;
    FactorsCompare(r, q + w + 1, p);
  }

  /** At least `w + 1` periods apart in time is more than `w` steps apart in counters. */
  lemma FarInTime(t: nat, u: nat, p: nat, w: nat)
    requires p > 0 && t + (w + 1) * p <= u
    ensures t / p + w < u / p
  {
    var q, r := t / p, u / p;
    assert q * p <= t < q * p + p && r * p <= u < r * p + p;
    assert (w + 1) * p == w * p + p;
    assert (q + w + 1) * p == q * p + w * p + p;
    assert (r + 1) * p == r * p + p;
    FactorsCompare(q + w + 1, r + 1, p);
  }

  function Distance(t: int, u: int): nat {
    if t <= u then u - t else t - u
  }

  lemma OwnCodeIsAccepted(mac: Mac, secret: seq<byte>, c: u64, counterNow: u64, window: u32)
    requires counterNow - window <= c <= counterNow + window
    ensures Accepts(mac, secret, Hotp(mac, secret, c, DEFAULT_DIGITS, Sha1), counterNow, window)
  {
    assert Yields(mac, secret, c, Hotp(mac, secret, c, DEFAULT_DIGITS, Sha1));
  }

  /** Drift tolerance: a code stays acceptable for `w` whole periods either side. */
  lemma DriftWithinWindowAccepted(
    mac: Mac, secret: seq<byte>, issued: u64, checked: u64, period: u64, window: u32)
    requires period > 0 && Distance(issued, checked) <= window * period
    ensures Accepts(mac, secret, At(mac, secret, issued, period, 6), CounterOf(checked, period), window)
  {
    if issued <= checked {
      NearInTime(issued, checked, period, window);
    } else {
      NearInTime(checked, issued, period, window);
    }
    OwnCodeIsAccepted(mac, secret, CounterOf(issued, period), CounterOf(checked, period), window);
  }

  /**
    Exactly which lengths verify: of the codes of 0 to 9 digits that `at` prints at
    one time, and at any later or earlier time within the window, only the six-digit
    one is accepted.
   */
  lemma CodeAcceptedExactly(
    mac: Mac, secret: seq<byte>, issued: u64, checked: u64, period: u64, digits: nat, window: u32)
    requires period > 0 && digits <= 9 && Distance(issued, checked) <= window * period
    ensures Accepts(mac, secret, At(mac, secret, issued, period, digits), CounterOf(checked, period), window) <==>
            digits == 6
  {
    hide Hotp;
    hide Accepts;
    var code := At(mac, secret, issued, period, digits);
    if digits == DEFAULT_DIGITS {
      DriftWithinWindowAccepted(mac, secret, issued, checked, period, window);
    } else {
      if digits == 0 {
        ZeroDigitsPrintsZero(mac, secret, CounterOf(issued, period), Sha1);
      } else {
        HotpParses(mac, secret, CounterOf(issued, period), digits, Sha1);
      }
      assert |code| != 6;
      if Accepts(mac, secret, code, CounterOf(checked, period), window) {
        OnlySixDigitsAccepted(mac, secret, code, CounterOf(checked, period), window);
      }
    }
  }

  /** From `w + 1` periods away on, the counter of the code is never tried. */
  lemma DriftBeyondWindowNotTried(issued: u64, checked: u64, period: u64, window: u32)
    requires period > 0 && Distance(issued, checked) >= (window + 1) * period
    ensures Distance(CounterOf(issued, period), CounterOf(checked, period)) > window
  {
    if issued <= checked {
      FarInTime(issued, checked, period, window);
    } else {
      FarInTime(checked, issued, period, window);
    }
  }

  /** So a code that old is accepted only where another counter tried has the same code. */
  lemma DriftBeyondWindowNeedsCollision(
    mac: Mac, secret: seq<byte>, issued: u64, checked: u64, period: u64, window: u32, c: u64, now: u64)
    requires period > 0 && Distance(issued, checked) >= (window + 1) * period
    requires IsInStep(issued, period, c) && IsInStep(checked, period, now)
    ensures Accepts(mac, secret, At(mac, secret, issued, period, 6), CounterOf(checked, period), window) <==>
            exists k: u64 :: now - window <= k <= now + window && k != c
                             && Hotp(mac, secret, k, 6, Sha1) == Hotp(mac, secret, c, 6, Sha1)
  {
    hide Hotp;
    hide CounterOf;
    hide IsInStep;
    DriftBeyondWindowNotTried(issued, checked, period, window);
    AtExactly(mac, secret, issued, period, 6, c);
    CounterExactly(issued, period, c);
    CounterExactly(checked, period, now);
    AcceptsExactly(mac, secret, Hotp(mac, secret, c, 6, Sha1), now, window);
    assert Distance(c, now) > window;
  }

  function SecondsRemaining(unixSecs: u64, period: u64): u64
    requires period > 0
  {
    period - unixSecs % period
  }

  /** The countdown ends at the first second of the next step: no earlier one has a new code. */
  lemma CountdownReachesNextCounter(unixSecs: u64, period: u64, c: nat, k: nat)
    requires period > 0 && IsInStep(unixSecs, period, c)
    ensures 1 <= SecondsRemaining(unixSecs, period) <= period
    ensures k < SecondsRemaining(unixSecs, period) ==> IsInStep(unixSecs + k, period, c)
    ensures k == SecondsRemaining(unixSecs, period) ==>
              unixSecs + k == (c + 1) * period && IsInStep(unixSecs + k, period, c + 1)
  {
    var r := unixSecs - c * period;
    assert (c + 1) * period == c * period + period && (c + 2) * period == (c + 1) * period + period;
    DivModUnique(unixSecs, period, c, r);
  }
}
