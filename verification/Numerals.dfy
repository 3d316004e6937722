/**
  Positional numerals of a fixed length in any base.

  Every number format of the sources is an instance: big-endian counters and
  code words are base 256, base32 text is base 32, printed codes are base 10.
 */
module Numerals {
  function Pow(b: nat, k: nat): nat
    decreases k
  {
    if k == 0 then 1 else b * Pow(b, k - 1)
  }

  /** The low `k` base-`b` digits of `n`, most significant first. */
  function Digits(n: nat, b: nat, k: nat): (ds: seq<nat>)
    requires b > 1
    ensures |ds| == k
    ensures forall i :: 0 <= i < k ==> ds[i] < b
    decreases k
  {
    if k == 0 then [] else Digits(n / b, b, k - 1) + [n % b]
  }

  /** The number a digit sequence denotes, most significant digit first. */
  function Value(ds: seq<nat>, b: nat): nat
    decreases |ds|
  {
    if |ds| == 0 then 0 else Value(ds[..|ds| - 1], b) * b + ds[|ds| - 1]
  }

  ghost predicate AreDigits(ds: seq<nat>, b: nat) {
    forall i :: 0 <= i < |ds| ==> ds[i] < b
  }

  lemma PowPositive(b: nat, k: nat)
    requires b > 0
    ensures Pow(b, k) > 0
    decreases k
  {
    if k != 0 {
      PowPositive(b, k - 1);
      MulMonotone(1, Pow(b, k - 1), b);
    }
  }

  lemma MulMonotone(x: nat, y: nat, z: nat)
    requires x <= y
    ensures x * z <= y * z && z * x <= z * y
  {
  }

  /** Division with remainder is unique. */
  lemma DivModUnique(n: nat, d: nat, q: nat, r: nat)
    requires d > 0 && r < d && n == q * d + r
    ensures n / d == q && n % d == r
  {
    var q', r' := n / d, n % d;
    assert n == q' * d + r';
    if q' < q {
      MulMonotone(q' + 1, q, d);
    } else if q < q' {
      MulMonotone(q + 1, q', d);
    }
  }

  lemma AppendDigit(v: nat, d: nat, b: nat, p: nat)
    requires v < p && d < b
    ensures v * b + d < b * p
    ensures (v * b + d) / b == v && (v * b + d) % b == d
  {
    MulMonotone(v + 1, p, b);
    assert (v + 1) * b == v * b + b;
    DivModUnique(v * b + d, b, v, d);
  }

  lemma Regroup(q: nat, p: nat, r: nat, b: nat, d: nat)
    ensures (q * p + r) * b + d == q * (b * p) + (r * b + d)
  {
    assert (q * p + r) * b == q * p * b + r * b;
    assert q * p * b == q * (b * p);
  }

  lemma DivMod(n: nat, d: nat)
    requires d > 0
    ensures n == n / d * d + n % d && 0 <= n / d && 0 <= n % d < d
  {
  }

  lemma ModProduct(n: nat, b: nat, p: nat)
    requires b > 1 && p > 0
    ensures b * p > 0
    ensures n % (b * p) == (n / b % p) * b + n % b
  {
    DivMod(n, b);
    DivMod(n / b, p);
    ModProductOf(n, n / b, b, p, n / b / p, n / b % p, n % b);
  }

  lemma ModProductOf(n: nat, m: nat, b: nat, p: nat, q: nat, r: nat, d: nat)
    requires n == m * b + d && m == q * p + r && r < p && d < b
    ensures b * p > 0
    ensures n % (b * p) == r * b + d
  {
    Regroup(q, p, r, b, d);
    AppendDigit(r, d, b, p);
    DivModUnique(n, b * p, q, r * b + d);
  }

  /** Remainder by a power peels off the lowest digit. */
  lemma ModPow(n: nat, b: nat, k: nat)
    requires b > 1 && k > 0
    ensures Pow(b, k) > 0 && Pow(b, k - 1) > 0
    ensures n % Pow(b, k) == (n / b % Pow(b, k - 1)) * b + n % b
  {
    PowPositive(b, k - 1);
    ModProduct(n, b, Pow(b, k - 1));
  }

  /** Dividing twice is dividing by the product. */
  lemma DivTwice(n: nat, b: nat, p: nat)
    requires b > 0 && p > 0
    ensures b * p > 0 && n / b / p == n / (b * p)
  {
    MulMonotone(1, b, p);
    var m, d := n / b, n % b;
    var q, r := m / p, m % p;
    DivMod(n, b);
    DivMod(m, p);
    Regroup(q, p, r, b, d);
    MulMonotone(r + 1, p, b);
    assert (r + 1) * b == r * b + b;
    DivModUnique(n, b * p, q, r * b + d);
  }

  /** Digit `i` of `k` is what remains after the lower ones are divided away. */
  lemma {:induction false} DigitAt(n: nat, b: nat, k: nat, i: nat)
    requires b > 1 && i < k
    ensures Pow(b, k - 1 - i) > 0
    ensures Digits(n, b, k)[i] == n / Pow(b, k - 1 - i) % b
    decreases k
  {
    PowPositive(b, k - 1 - i);
    if i < k - 1 {
      DigitAt(n / b, b, k - 1, i);
      DivTwice(n, b, Pow(b, k - 2 - i));
    }
  }

  lemma {:induction false} ValueOfDigits(n: nat, b: nat, k: nat)
    requires b > 1
    ensures Pow(b, k) > 0
    ensures Value(Digits(n, b, k), b) == n % Pow(b, k)
    decreases k
  {
    PowPositive(b, k);
    if k > 0 {
      var ds := Digits(n, b, k);
      assert ds[..|ds| - 1] == Digits(n / b, b, k - 1);
      ValueOfDigits(n / b, b, k - 1);
      ModPow(n, b, k);
    }
  }

  lemma {:induction false} DigitsOfValue(ds: seq<nat>, b: nat)
    requires b > 1 && AreDigits(ds, b)
    ensures Value(ds, b) < Pow(b, |ds|)
    ensures Digits(Value(ds, b), b, |ds|) == ds
    decreases |ds|
  {
    if |ds| > 0 {
      var init, d := ds[..|ds| - 1], ds[|ds| - 1];
      DigitsOfValue(init, b);
      AppendDigit(Value(init, b), d, b, Pow(b, |init|));
      assert ds == init + [d];
    }
  }

  /** The last `j` of `k` digits are the numeral of length `j`. */
  lemma {:induction false} DigitsSuffix(n: nat, b: nat, j: nat, k: nat)
    requires b > 1 && j <= k
    ensures Digits(n, b, k)[k - j..] == Digits(n, b, j)
    decreases k
  {
    if j > 0 {
      DigitsSuffix(n / b, b, j - 1, k - 1);
      assert Digits(n, b, k)[k - j..] == Digits(n / b, b, k - 1)[k - j..] + [n % b];
    }
  }

  /** Short numerals cannot see what lies above the power they are reduced by. */
  lemma {:induction false} DigitsMod(n: nat, b: nat, j: nat, k: nat)
    requires b > 1 && j <= k
    ensures Pow(b, k) > 0
    ensures Digits(n % Pow(b, k), b, j) == Digits(n, b, j)
    decreases k
  {
    PowPositive(b, k);
    if j > 0 {
      ModPow(n, b, k);
      DivModUnique(n % Pow(b, k), b, n / b % Pow(b, k - 1), n % b);
      DigitsMod(n / b, b, j - 1, k - 1);
    }
  }

  /** Re-basing loses nothing when the two capacities agree. */
  lemma RebaseRoundTrip(ds: seq<nat>, b: nat, c: nat, k: nat)
    requires b > 1 && c > 1 && AreDigits(ds, b)
    requires Pow(b, |ds|) <= Pow(c, k)
    ensures Digits(Value(Digits(Value(ds, b), c, k), c), b, |ds|) == ds
  {
    DigitsOfValue(ds, b);
    ValueOfDigits(Value(ds, b), c, k);
    DivModUnique(Value(ds, b), Pow(c, k), 0, Value(ds, b));
  }
}
