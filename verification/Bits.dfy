/** Powers of two and the bitwise operations of the source on natural numbers. */
module Bits {

  function Pow2(n: nat): (p: nat)
    ensures p >= 1
  {
    if n == 0 then 1 else 2 * Pow2(n - 1)
  }

  lemma {:induction false} Pow2Add(m: nat, n: nat)
    ensures Pow2(m + n) == Pow2(m) * Pow2(n)
  {
    if n > 0 {
      Pow2Add(m, n - 1);
      assert Pow2(m) * Pow2(n) == 2 * (Pow2(m) * Pow2(n - 1));
    }
  }

  lemma Pow2Monotone(m: nat, n: nat)
    requires m <= n
    ensures Pow2(m) <= Pow2(n)
  {
  }

  lemma Pow2Known()
    ensures Pow2(8) == 0x100 && Pow2(15) == 0x8000 && Pow2(16) == 0x1_0000 && Pow2(23) == 0x80_0000
    ensures Pow2(24) == 0x100_0000 && Pow2(32) == 0x1_0000_0000
  {
  }

  /** Bitwise or, digit by digit. */
  function Or(x: nat, y: nat): nat
    decreases x + y
  {
    if x == 0 && y == 0 then 0
    else (if x % 2 == 1 || y % 2 == 1 then 1 else 0) + 2 * Or(x / 2, y / 2)
  }

  /** Bitwise and, digit by digit. */
  function And(x: nat, y: nat): nat
    decreases x + y
  {
    if x == 0 && y == 0 then 0
    else (if x % 2 == 1 && y % 2 == 1 then 1 else 0) + 2 * And(x / 2, y / 2)
  }

  // ---------------------------------------------------------------- division facts

  /** Quotient and remainder are determined by the division equation. */
  lemma DivModUnique(x: int, d: int, q: int, r: int)
    requires d > 0 && 0 <= r < d && x == q * d + r
    ensures x / d == q && x % d == r
  {
    var k := x / d - q;
    assert k * d == r - x % d by {
      assert x == x / d * d + x % d;
      assert (x / d - q) * d == x / d * d - q * d;
    }
    SmallMultiple(k, d);
  }

  lemma SmallMultiple(k: int, d: int)
    requires d > 0 && -d < k * d < d
    ensures k == 0
  {
  }

  lemma MulMonotone(a: int, b: int, d: int)
    requires a <= b && d >= 0
    ensures a * d <= b * d
  {
  }

  lemma MulAssoc(a: int, b: int, c: int)
    ensures a * (b * c) == a * b * c
  {
  }

  lemma MulDiv(x: nat, d: nat)
    requires d > 0
    ensures x * d / d == x && x * d % d == 0
  {
    DivModUnique(x * d, d, x, 0);
  }

  /** Adding a multiple does not change the remainder. */
  lemma ModAdd(x: int, d: int, k: int)
    requires d > 0
    ensures (x + k * d) % d == x % d
    ensures (x + k * d) / d == x / d + k
  {
    assert x + k * d == (x / d + k) * d + x % d by {
      assert (x / d + k) * d == x / d * d + k * d;
      assert x == x / d * d + x % d;
    }
    DivModUnique(x + k * d, d, x / d + k, x % d);
  }

  /** Dividing twice is dividing by the product. */
  lemma DivDiv(x: nat, a: nat, b: nat)
    requires a > 0 && b > 0
    ensures a * b > 0 && x / a / b == x / (a * b)
  {
    var q := x / a / b;
    var r := x / a % b * a + x % a;
    assert x == x / a * a + x % a;
    assert x / a == q * b + x / a % b;
    assert x == q * (a * b) + r by {
      assert (q * b + x / a % b) * a == q * b * a + x / a % b * a;
      assert q * b * a == q * (a * b);
    }
    assert r < a * b by {
      MulMonotone(x / a % b, b - 1, a);
      assert (b - 1) * a == a * b - a;
    }
    DivModUnique(x, a * b, q, r);
  }

  // ---------------------------------------------------------------- shifts and or

  /** Or-ing into a number whose low s bits are clear is adding. */
  lemma {:induction false} OrDisjoint(x: nat, y: nat, s: nat)
    requires x % Pow2(s) == 0 && y < Pow2(s)
    ensures Or(x, y) == x + y && Or(y, x) == x + y
    decreases s
  {
    if s == 0 {
      OrZero(x);
    } else if x == 0 && y == 0 {
    } else {
      var p := Pow2(s - 1);
      assert Pow2(s) == 2 * p;
      var q := x / (2 * p);
      assert x == q * (2 * p);
      assert x == 2 * (q * p);
      assert x % 2 == 0 && x / 2 == q * p;
      MulDiv(q, p);
      OrDisjoint(x / 2, y / 2, s - 1);
    }
  }

  lemma {:induction false} OrZero(x: nat)
    ensures Or(x, 0) == x && Or(0, x) == x
  {
    if x > 0 {
      OrZero(x / 2);
    }
  }

  /** Or-ing in a bit that is clear is adding it. */
  lemma {:induction false} OrBit(x: nat, b: nat)
    requires x / Pow2(b) % 2 == 0
    ensures Or(x, Pow2(b)) == x + Pow2(b)
  {
    if b == 0 {
      OrZero(x / 2);
    } else {
      var p := Pow2(b - 1);
      assert Pow2(b) == 2 * p;
      DivDiv(x, 2, p);
      OrBit(x / 2, b - 1);
    }
  }
}
