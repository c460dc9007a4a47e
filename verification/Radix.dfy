/** Numbers in positional notation, most significant digit first, and conversion between bases. */
module Radix {
  import opened Bits

  ghost function Pow(b: nat, n: nat): nat {
    if n == 0 then 1 else b * Pow(b, n - 1)
  }

  ghost predicate InBase(s: seq<nat>, b: nat) {
    forall i | 0 <= i < |s| :: s[i] < b
  }

  ghost function Val(s: seq<nat>, b: nat): nat {
    if s == [] then 0 else Val(s[..|s| - 1], b) * b + s[|s| - 1]
  }

  /** The digits of v without leading zeros; none for zero. */
  ghost function Digits(v: nat, b: nat): seq<nat>
    requires b >= 2
  {
    if v == 0 then [] else
      assert v / b < v by { Shrinks(v, b); }
      Digits(v / b, b) + [v % b]
  }

  function Zeros(n: nat): seq<nat> {
    seq(n, i => 0)
  }

  ghost function LeadingZeros(s: seq<nat>): nat {
    if s != [] && s[0] == 0 then 1 + LeadingZeros(s[1..]) else 0
  }

  /** Leading zeros one for one, then the number. */
  ghost function Convert(s: seq<nat>, from: nat, to: nat): seq<nat>
    requires to >= 2
  {
    Zeros(LeadingZeros(s)) + Digits(Val(s, from), to)
  }

  lemma Shrinks(v: nat, b: nat)
    requires v > 0 && b >= 2
    ensures v / b < v
  {
  }

  // ---------------------------------------------------------------- powers

  lemma {:induction false} PowAdd(b: nat, m: nat, n: nat)
    ensures Pow(b, m + n) == Pow(b, m) * Pow(b, n)
  {
    if m > 0 {
      PowAdd(b, m - 1, n);
      MulAssoc(b, Pow(b, m - 1), Pow(b, n));
    }
  }

  lemma {:induction false} PowPow(b: nat, m: nat, n: nat)
    ensures Pow(b, m * n) == Pow(Pow(b, m), n)
    decreases n
  {
    if n > 0 {
      PowPow(b, m, n - 1);
      PowAdd(b, m, m * (n - 1));
      assert m * n == m + m * (n - 1);
    } else {
      assert m * n == 0;
    }
  }

  lemma {:induction false} PowBase(a: nat, c: nat, n: nat)
    requires a <= c
    ensures Pow(a, n) <= Pow(c, n)
    ensures a < c && n > 0 ==> Pow(a, n) < Pow(c, n)
  {
    if n > 0 {
      PowBase(a, c, n - 1);
      MulMonotone(Pow(a, n - 1), Pow(c, n - 1), a);
      if a < c {
        PowPositive(c, n - 1);
        MulMonotone(a + 1, c, Pow(c, n - 1));
        assert (a + 1) * Pow(c, n - 1) == a * Pow(c, n - 1) + Pow(c, n - 1);
      }
    }
  }

  lemma {:induction false} PowPositive(b: nat, n: nat)
    requires b > 0
    ensures Pow(b, n) > 0
  {
    if n > 0 {
      PowPositive(b, n - 1);
      MulMonotone(1, b, Pow(b, n - 1));
    }
  }

  lemma PowExp(b: nat, m: nat, n: nat)
    requires b > 0 && m <= n
    ensures Pow(b, m) <= Pow(b, n)
  {
  }

  lemma PowSwap(a: nat, n: nat, r: nat)
    ensures Pow(Pow(a, n), r) == Pow(Pow(a, r), n)
  {
    hide Pow;
    PowPow(a, n, r);
    PowPow(a, r, n);
    assert n * r == r * n;
  }

  lemma PowPowPow(q: nat, m: nat, r: nat)
    ensures Pow(Pow(Pow(2, q), m), r) == Pow(2, q * r * m)
  {
    hide Pow;
    PowSwap(Pow(2, q), m, r);
    PowPow(2, q, r);
    PowPow(2, q * r, m);
  }

  lemma Root(x: nat, y: nat, r: nat)
    requires r > 0 && Pow(x, r) <= Pow(y, r)
    ensures x <= y
  {
    if x > y {
      PowBase(y, x, r);
    }
  }

  /** If a^r <= 2^p then n digits in base a fit in m digits in base c, given the powers of two on both sides. */
  lemma CapacityBelow(a: nat, r: nat, p: nat, c: nat, n: nat, m: nat, e: nat, f: nat)
    requires r > 0 && Pow(a, r) <= Pow(2, p) && e <= f
    requires Pow(Pow(2, p), n) == Pow(2, e) && Pow(Pow(c, m), r) == Pow(2, f)
    ensures Pow(a, n) <= Pow(c, m)
  {
    hide Pow;
    PowSwap(a, n, r);
    PowBase(Pow(a, r), Pow(2, p), n);
    PowExp(2, e, f);
    Root(Pow(a, n), Pow(c, m), r);
  }

  /** The same with the roles of the bases exchanged. */
  lemma CapacityAbove(a: nat, r: nat, p: nat, c: nat, n: nat, m: nat, e: nat, f: nat)
    requires r > 0 && Pow(a, r) >= Pow(2, p) && e <= f
    requires Pow(Pow(2, p), m) == Pow(2, f) && Pow(Pow(c, n), r) == Pow(2, e)
    ensures Pow(c, n) <= Pow(a, m)
  {
    hide Pow;
    PowSwap(a, m, r);
    PowBase(Pow(2, p), Pow(a, r), m);
    PowExp(2, e, f);
    Root(Pow(c, n), Pow(a, m), r);
  }

  // ---------------------------------------------------------------- values

  lemma {:induction false} ValBound(s: seq<nat>, b: nat)
    requires InBase(s, b)
    ensures Val(s, b) < Pow(b, |s|)
  {
    if s != [] {
      var init := s[..|s| - 1];
      ValBound(init, b);
      MulMonotone(Val(init, b) + 1, Pow(b, |init|), b);
      assert (Val(init, b) + 1) * b == Val(init, b) * b + b;
      assert b * Pow(b, |init|) == Pow(b, |init|) * b;
    }
  }

  lemma {:induction false} ValConcat(s: seq<nat>, t: seq<nat>, b: nat)
    ensures Val(s + t, b) == Val(s, b) * Pow(b, |t|) + Val(t, b)
    decreases |t|
  {
    if t == [] {
      assert s + t == s;
      assert Pow(b, 0) == 1;
    } else {
      var init, x := t[..|t| - 1], t[|t| - 1];
      ValConcat(s, init, b);
      assert (s + t)[..|s + t| - 1] == s + init;
      Shifted(Val(s, b), Pow(b, |init|), Val(init, b), b, x);
    }
  }

  lemma Shifted(v: nat, p: nat, w: nat, b: nat, x: nat)
    ensures (v * p + w) * b + x == v * (b * p) + (w * b + x)
  {
  }

  lemma {:induction false} ValZeros(n: nat, b: nat)
    ensures Val(Zeros(n), b) == 0
  {
    if n > 0 {
      ValZeros(n - 1, b);
      assert Zeros(n)[..n - 1] == Zeros(n - 1);
      assert 0 * b == 0;
    }
  }

  lemma ValPadded(n: nat, s: seq<nat>, b: nat)
    ensures Val(Zeros(n) + s, b) == Val(s, b)
  {
    ValConcat(Zeros(n), s, b);
    ValZeros(n, b);
    assert 0 * Pow(b, |s|) == 0;
  }

  // ---------------------------------------------------------------- digits

  lemma {:induction false} DigitsValue(v: nat, b: nat)
    requires b >= 2
    ensures Val(Digits(v, b), b) == v && InBase(Digits(v, b), b)
    ensures v > 0 ==> Digits(v, b) != [] && Digits(v, b)[0] != 0
    ensures v == 0 ==> Digits(v, b) == []
  {
    hide Val;
    if v == 0 {
      assert Val([], b) == 0 by { NoDigits(b); }
    } else {
      var q, x := v / b, v % b;
      Shrinks(v, b);
      Division(v, b);
      DigitsValue(q, b);
      OneMoreDigit(Digits(q, b), x, b);
    }
  }

  lemma NoDigits(b: nat)
    ensures Val([], b) == 0
  {
  }

  lemma Division(v: nat, b: nat)
    requires b > 0
    ensures v == v / b * b + v % b && 0 <= v % b < b
    ensures v / b == 0 ==> v == v % b
  {
  }

  lemma OneMoreDigit(d: seq<nat>, x: nat, b: nat)
    ensures Val(d + [x], b) == Val(d, b) * b + x
  {
  }

  /** Only one list without leading zeros has a given value. */
  lemma {:induction false} DigitsOfValue(s: seq<nat>, b: nat)
    requires b >= 2 && InBase(s, b) && (s == [] || s[0] != 0)
    ensures Digits(Val(s, b), b) == s
  {
    if s != [] {
      var init, x := s[..|s| - 1], s[|s| - 1];
      DigitsOfValue(init, b);
      DivModUnique(Val(s, b), b, Val(init, b), x);
      if init == [] {
        assert 0 * b == 0;
      } else {
        assert Val(init, b) > 0 by { DigitsValue(Val(init, b), b); }
        MulMonotone(1, Val(init, b), b);
      }
      assert s == init + [x];
    }
  }

  // ---------------------------------------------------------------- conversion

  lemma {:induction false} SplitZeros(s: seq<nat>)
    ensures LeadingZeros(s) <= |s| && s == Zeros(LeadingZeros(s)) + s[LeadingZeros(s)..]
    ensures LeadingZeros(s) < |s| ==> s[LeadingZeros(s)] != 0
  {
    if s != [] && s[0] == 0 {
      var t := s[1..];
      SplitZeros(t);
      var n := LeadingZeros(t);
      assert t[n..] == s[n + 1..];
      assert Zeros(n + 1) == [0] + Zeros(n);
      assert s == [0] + (Zeros(n) + t[n..]);
    } else {
      assert Zeros(0) + s == s;
    }
  }

  lemma {:induction false} LeadingZerosOf(n: nat, s: seq<nat>)
    requires s == [] || s[0] != 0
    ensures LeadingZeros(Zeros(n) + s) == n
  {
    if n > 0 {
      LeadingZerosOf(n - 1, s);
      assert (Zeros(n) + s)[1..] == Zeros(n - 1) + s;
    } else {
      assert Zeros(0) + s == s;
    }
  }

  /** The digits from the first nonzero one on are those of the value. */
  lemma Stripped(s: seq<nat>, b: nat, n: nat)
    requires b >= 2 && InBase(s, b) && n <= |s| && s[..n] == Zeros(n) && (n < |s| ==> s[n] != 0)
    ensures Digits(Val(s, b), b) == s[n..] && Val(s[n..], b) == Val(s, b) && LeadingZeros(s) == n
  {
    assert s == Zeros(n) + s[n..];
    ValPadded(n, s[n..], b);
    DigitsOfValue(s[n..], b);
    LeadingZerosOf(n, s[n..]);
  }

  lemma ConvertDigits(s: seq<nat>, from: nat, to: nat)
    requires to >= 2
    ensures InBase(Convert(s, from, to), to)
    ensures LeadingZeros(Convert(s, from, to)) == LeadingZeros(s) && Val(Convert(s, from, to), to) == Val(s, from)
  {
    var d := Digits(Val(s, from), to);
    DigitsValue(Val(s, from), to);
    LeadingZerosOf(LeadingZeros(s), d);
    ValPadded(LeadingZeros(s), d, to);
  }

  /** Converting to another base and back gives the same digits, leading zeros included. */
  lemma ConvertBack(s: seq<nat>, from: nat, to: nat)
    requires from >= 2 && to >= 2 && InBase(s, from)
    ensures Convert(Convert(s, from, to), to, from) == s
  {
    ConvertDigits(s, from, to);
    SplitZeros(s);
    Stripped(s, from, LeadingZeros(s));
  }
}
