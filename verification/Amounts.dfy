/** CompressAmount and DecompressAmount of src/compressor.cpp, on the naturals and in 64 bits. */
module Amounts {
  import opened Bits

  const WRAP := 0x1_0000_0000_0000_0000
  /** src/amount.h */
  const MAX_MONEY := 2_100_000_000_000_000_000

  type Uint64 = x: nat | x < WRAP

  function Pow10(e: nat): (p: nat)
    ensures p >= 1
  {
    if e == 0 then 1 else 10 * Pow10(e - 1)
  }

  /** Trailing zeros moved into the exponent, up to nine. */
  function Strip(n: nat, e: nat): (nat, nat)
    requires n > 0 && e <= 9
    decreases 9 - e
  {
    if n % 10 == 0 && e < 9 then Strip(n / 10, e + 1) else (n, e)
  }

  /** The code without a bound on its size. */
  function Compress(n: nat): nat {
    if n == 0 then 0
    else
      StripMeans(n, 0);
      var (m, e) := Strip(n, 0);
      Code(m, e)
  }

  function Code(m: nat, e: nat): nat
    requires m > 0
  {
    if e < 9 then
      assert m / 10 * 9 + m % 10 >= 1;
      1 + (m / 10 * 9 + m % 10 - 1) * 10 + e
    else 1 + (m - 1) * 10 + 9
  }

  /** The significant digits of a code. */
  function Significant(x: nat): nat
    requires x > 0
  {
    var (e, y) := ((x - 1) % 10, (x - 1) / 10);
    if e < 9 then y / 9 * 10 + y % 9 + 1 else y + 1
  }

  function Decompress(x: nat): nat {
    if x == 0 then 0 else Significant(x) * Pow10((x - 1) % 10)
  }

  // ---------------------------------------------------------------- inverse bijections

  lemma {:induction false} StripMeans(n: nat, e: nat)
    requires n > 0 && e <= 9
    ensures var (m, f) := Strip(n, e); e <= f <= 9 && m > 0 && n == m * Pow10(f - e) && (f < 9 ==> m % 10 != 0)
    decreases 9 - e
  {
    hide Pow10;
    PowTen(0);
    if n % 10 == 0 && e < 9 {
      StripMeans(n / 10, e + 1);
      var (m, f) := Strip(n / 10, e + 1);
      PowTen(f - e - 1);
      Scaled(m, Pow10(f - e - 1));
    }
  }

  lemma {:induction false} StripScaled(m: nat, e: nat, f: nat)
    requires m > 0 && e <= f <= 9 && (f < 9 ==> m % 10 != 0)
    ensures m * Pow10(f - e) > 0 && Strip(m * Pow10(f - e), e) == (m, f)
    decreases f - e
  {
    hide Pow10;
    PowTen(0);
    if e < f {
      StripScaled(m, e + 1, f);
      PowTen(f - e - 1);
      Scaled(m, Pow10(f - e - 1));
    }
  }

  lemma Scaled(m: nat, p: nat)
    ensures m * (10 * p) == 10 * (m * p) && m * (10 * p) % 10 == 0 && m * (10 * p) / 10 == m * p
  {
  }

  /** A code and its parts. */
  lemma CodeParts(m: nat, e: nat)
    requires m > 0 && e <= 9 && (e < 9 ==> m % 10 != 0)
    ensures Code(m, e) > 0 && (Code(m, e) - 1) % 10 == e && Significant(Code(m, e)) == m
  {
    if e < 9 {
      var y := m / 10 * 9 + m % 10 - 1;
      DivModUnique(y, 9, m / 10, m % 10 - 1);
    }
  }

  lemma SignificantCode(x: nat)
    requires x > 0
    ensures var (m, e) := (Significant(x), (x - 1) % 10); m > 0 && (e < 9 ==> m % 10 != 0) && Code(m, e) == x
  {
  }

  lemma DecompressCompress(n: nat)
    ensures Decompress(Compress(n)) == n
  {
    hide Code, Significant;
    if n > 0 {
      StripMeans(n, 0);
      var (m, e) := Strip(n, 0);
      CodeParts(m, e);
    }
  }

  lemma CompressDecompress(x: nat)
    ensures Compress(Decompress(x)) == x
  {
    hide Code, Significant;
    if x > 0 {
      SignificantCode(x);
      StripScaled(Significant(x), 0, (x - 1) % 10);
    }
  }

  // ---------------------------------------------------------------- the loops in 64 bits

  method CompressAmount(amount: Uint64) returns (x: Uint64)
    ensures x == Compress(amount) % WRAP
  {
    hide Pow10;
    if amount == 0 {
      return 0;
    }
    StripMeans(amount, 0);
    var n, e := amount, 0;
    while n % 10 == 0 && e < 9
      invariant 0 <= e <= 9 && 0 < n <= amount && Strip(amount, 0) == Strip(n, e)
      decreases 9 - e
    {
      n := n / 10;
      e := e + 1;
    }
    if e < 9 {
      var d := n % 10;
      assert 1 <= d <= 9;
      n := n / 10;
      return (1 + (n * 9 + d - 1) * 10 + e) % WRAP;
    } else {
      return (1 + (n - 1) * 10 + 9) % WRAP;
    }
  }

  method DecompressAmount(code: Uint64) returns (n: Uint64)
    ensures n == Decompress(code) % WRAP
  {
    hide Pow10;
    if code == 0 {
      return 0;
    }
    var x := code - 1;
    var e := x % 10;
    x := x / 10;
    if e < 9 {
      var d := x % 9 + 1;
      x := x / 9;
      n := x * 10 + d;
    } else {
      n := x + 1;
    }
    ghost var m := Significant(code);
    assert n == m;
    ghost var k := 0;
    PowTen(0);
    while e != 0
      invariant 0 <= e == (code - 1) % 10 - k && k >= 0
      invariant n == m * Pow10(k) % WRAP
      decreases e
    {
      TenTimes(m, k);
      n := n * 10 % WRAP;
      e := e - 1;
      k := k + 1;
    }
  }

  lemma PowTen(e: nat)
    ensures Pow10(0) == 1 && Pow10(e + 1) == 10 * Pow10(e)
  {
  }

  lemma TenTimes(m: nat, k: nat)
    ensures m * Pow10(k) % WRAP * 10 % WRAP == m * Pow10(k + 1) % WRAP
  {
    hide Pow10;
    PowTen(k);
    var p := m * Pow10(k);
    assert m * (10 * Pow10(k)) == 10 * p;
    assert p == p / WRAP * WRAP + p % WRAP;
    ModAdd(p % WRAP * 10, WRAP, p / WRAP * 10);
  }

  // ---------------------------------------------------------------- when 64 bits are enough

  /** The code fits unless the last digit is not zero and the amount is in the upper eight ninths of the range. */
  lemma FitsWhen(n: Uint64)
    ensures Compress(n) < WRAP <==> n % 10 == 0 || 9 * n + n % 10 - 9 < WRAP
    ensures n % 10 != 0 ==> Compress(n) == 9 * n + n % 10 - 9
  {
    hide Pow10;
    if n % 10 == 0 && n > 0 {
      StripMeans(n / 10, 1);
      var (m, e) := Strip(n / 10, 1);
      Enlarged(m, Pow10(e - 1));
    }
  }

  lemma Enlarged(m: nat, p: nat)
    requires p >= 1
    ensures m <= m * p
  {
  }

  /** A code that fits comes back unchanged. */
  lemma FittingRoundTrip(n: Uint64)
    requires Compress(n) < WRAP
    ensures Decompress(Compress(n) % WRAP) % WRAP == n
  {
    hide Compress, Decompress;
    DecompressCompress(n);
    Small(Compress(n));
    Small(n);
  }

  lemma Small(x: nat)
    requires x < WRAP
    ensures x % WRAP == x
  {
  }

  /** A code in terms of the digits it stands for. */
  lemma CodeSum(x: nat)
    requires x > 0 && (x - 1) % 10 < 9
    ensures var (v, e) := (Significant(x), (x - 1) % 10); 1 <= v % 10 <= 9 && x == 9 * v + v % 10 + e - 9
  {
  }

  /** Amounts of money come back from their 64-bit code exactly when the code fits. */
  lemma MoneyRoundTrip(n: nat)
    requires n <= MAX_MONEY
    ensures Decompress(Compress(n) % WRAP) % WRAP == n <==> n % 10 == 0 || 9 * n + n % 10 - 9 < WRAP
  {
    hide Compress, Pow10, Significant;
    FitsWhen(n);
    if Compress(n) < WRAP {
      FittingRoundTrip(n);
    } else {
      WrappedDiffers(n);
    }
  }

  /** One unit below the maximum, within the money range, is such an amount. */
  lemma TopOfMoneyFails()
    ensures Decompress(Compress(MAX_MONEY - 1) % WRAP) % WRAP != MAX_MONEY - 1
  {
    hide Compress, Decompress;
    MoneyRoundTrip(MAX_MONEY - 1);
  }

  /** Above that bound another amount comes back. */
  lemma WrappedDiffers(n: nat)
    requires n <= MAX_MONEY && n % 10 != 0 && 9 * n + n % 10 - 9 >= WRAP
    ensures var c := 9 * n + n % 10 - 9; Decompress(c % WRAP) % WRAP != n
  {
    hide Pow10, Significant;
    var c := 9 * n + n % 10 - 9 - WRAP;
    assert (9 * n + n % 10 - 9) % WRAP == c;
    OddCode(n);
    assert c > 0 && (c - 1) % 10 % 2 == 0;
    CodeSum(c);
    var (v, e) := (Significant(c), (c - 1) % 10);
    var p := v * Pow10(e);
    if p % WRAP == n {
      var (j, delta) := (p / WRAP, n % 10 - v % 10 - e);
      assert p == n + j * WRAP && 9 * v == 9 * n + delta - WRAP;
      PowersOfTen();
      if e == 0 {
        assert false;
      } else if e == 2 {
        NoSolution2(n, delta, 9 * j + 100);
      } else if e == 4 {
        NoSolution4(n, delta, 9 * j + 10000);
      } else if e == 6 {
        NoSolution6(n, delta, 9 * j + 1000000);
      } else {
        NoSolution8(n, delta, 9 * j + 100000000);
      }
    }
  }

  lemma OddCode(n: nat)
    ensures (9 * n + n % 10 - 9) % 2 == 1
  {
  }

  lemma PowersOfTen()
    ensures Pow10(0) == 1 && Pow10(2) == 100 && Pow10(4) == 10000 && Pow10(6) == 1000000 && Pow10(8) == 100000000
  {
  }

  lemma NoSolution2(n: nat, delta: int, j: int)
    requires -10 <= delta <= 6 && 891 * n + 100 * delta == j * WRAP
    ensures n > MAX_MONEY || 9 * n < WRAP
  {
    Window2(n, delta, 13705661702352102323 * j - 662 * n - 75 * delta);
  }

  lemma Window2(n: nat, delta: int, q: int)
    requires -10 <= delta <= 6 && n == 12939635293006138900 * delta + q * WRAP
    ensures n > MAX_MONEY || 9 * n < WRAP
  {
  }

  lemma NoSolution4(n: nat, delta: int, j: int)
    requires -12 <= delta <= 4 && 89991 * n + 10000 * delta == j * WRAP
    ensures n > MAX_MONEY || 9 * n < WRAP
  {
    Window4(n, delta, 15842828238033401399 * j - 77288 * n - 8589 * delta);
  }

  lemma Window4(n: nat, delta: int, q: int)
    requires -12 <= delta <= 4 && n == 10802468757324839824 * delta + q * WRAP
    ensures n > MAX_MONEY || 9 * n < WRAP
  {
  }

  lemma NoSolution6(n: nat, delta: int, j: int)
    requires -14 <= delta <= 2 && 8999991 * n + 1000000 * delta == j * WRAP
    ensures n > MAX_MONEY || 9 * n < WRAP
  {
    Window6(n, delta, 12483635422780629383 * j - 6090647 * n - 676740 * delta);
  }

  lemma Window6(n: nat, delta: int, q: int)
    requires -14 <= delta <= 2 && n == 14161661572577611840 * delta + q * WRAP
    ensures n > MAX_MONEY || 9 * n < WRAP
  {
  }

  lemma NoSolution8(n: nat, delta: int, j: int)
    requires -16 <= delta <= 0 && 899999991 * n + 100000000 * delta == j * WRAP
    ensures n > MAX_MONEY || 9 * n < WRAP
  {
    Window8(n, delta, 16430456183658535111 * j - 801627125 * n - 89069682 * delta);
  }

  lemma Window8(n: nat, delta: int, q: int)
    requires -16 <= delta <= 0 && n == 10214840811699706112 * delta + q * WRAP
    ensures n > MAX_MONEY || 9 * n < WRAP
  {
  }
}
