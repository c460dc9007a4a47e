/**
 The multi-precision integers of src/arith_uint256.h and src/arith_uint256.cpp: little-endian arrays
 of 32-bit limbs, changed in place. Results are stated for any number of limbs n, modulo 2^(32 n).
*/
module ArithUint256 {
  import opened Bits

  const BASE := 0x1_0000_0000

  type Limb = x: nat | x < BASE

  /** The weight of limb i, 2^(32 i). */
  ghost function Place(i: nat): (p: nat)
    ensures p >= 1
  {
    if i == 0 then 1 else BASE * Place(i - 1)
  }

  ghost function Mul(x: nat, p: nat): nat {
    x * p
  }

  function Quotient(x: nat, d: nat): nat
    requires d > 0
  {
    x / d
  }

  /** The value of the low n limbs. */
  ghost function ValTo(s: seq<Limb>, n: nat): nat
    requires n <= |s|
  {
    if n == 0 then 0 else ValTo(s, n - 1) + Mul(s[n - 1], Place(n - 1))
  }

  ghost function Val(s: seq<Limb>): nat {
    ValTo(s, |s|)
  }

  // ---------------------------------------------------------------- values of limb sequences

  lemma {:induction false} PlaceIsPow2(i: nat)
    ensures Place(i) == Pow2(32 * i)
  {
    if i > 0 {
      PlaceIsPow2(i - 1);
      Pow2Add(32 * (i - 1), 32);
      Pow2Known();
    }
  }

  lemma PlaceAdd(i: nat, j: nat)
    ensures Place(i + j) == Place(i) * Place(j)
  {
    PlaceIsPow2(i + j);
    PlaceIsPow2(i);
    PlaceIsPow2(j);
    Pow2Add(32 * i, 32 * j);
    assert 32 * i + 32 * j == 32 * (i + j);
  }

  lemma {:induction false} ValBound(s: seq<Limb>, n: nat)
    requires n <= |s|
    ensures ValTo(s, n) < Place(n)
  {
    if n > 0 {
      ValBound(s, n - 1);
      var p := Place(n - 1);
      MulMonotone(s[n - 1], BASE - 1, p);
      assert (BASE - 1) * p == BASE * p - p;
    }
  }

  lemma {:induction false} ValPrefix(s: seq<Limb>, t: seq<Limb>, n: nat)
    requires n <= |s| && n <= |t| && forall i | 0 <= i < n :: s[i] == t[i]
    ensures ValTo(s, n) == ValTo(t, n)
  {
    if n > 0 {
      ValPrefix(s, t, n - 1);
    }
  }

  lemma {:induction false} ValZero(s: seq<Limb>, n: nat)
    requires n <= |s| && forall i | 0 <= i < n :: s[i] == 0
    ensures ValTo(s, n) == 0
  {
    if n > 0 {
      ValZero(s, n - 1);
    }
  }

  /** The part above limb k, scaled down. */
  lemma {:induction false} ValSplit(s: seq<Limb>, k: nat, n: nat)
    requires k <= n <= |s|
    ensures ValTo(s, n) == ValTo(s, k) + Place(k) * ValTo(s[k..], n - k)
    decreases n
  {
    if k < n {
      ValSplit(s, k, n - 1);
      var p, q, x, v := Place(k), Place(n - 1 - k), s[n - 1], ValTo(s[k..], n - 1 - k);
      PlaceAdd(k, n - 1 - k);
      assert s[k..][n - 1 - k] == x;
      Regroup(p, q, x, v);
    }
  }

  lemma Regroup(p: nat, q: nat, x: nat, v: nat)
    ensures p * v + x * (p * q) == p * (v + x * q)
  {
  }

  /** One limb changed. */
  lemma {:induction false} ValUpdate(s: seq<Limb>, i: nat, x: Limb, n: nat)
    requires i < |s| && n <= |s|
    ensures ValTo(s[i := x], n) == ValTo(s, n) + if i < n then x * Place(i) - s[i] * Place(i) else 0
  {
    if n > 0 {
      ValUpdate(s, i, x, n - 1);
    }
  }

  /** A value below the modulus that differs by a multiple of it is the remainder. */
  lemma ReducedIs(v: nat, x: int, k: int, m: nat)
    requires m > 0 && v < m && x == v + k * m
    ensures v == x % m
  {
    DivModUnique(x, m, k, v);
  }

  // ---------------------------------------------------------------- addition

  lemma AddStep(carry: nat, x: Limb, y: Limb, p: nat, v: int, w: int)
    requires v + carry * p == w
    ensures var n := carry + x + y;
      v + n % BASE * p + n / BASE * (BASE * p) == w + x * p + y * p
  {
  }

  /** operator+=; a and b may be the same array. */
  method AddAssign(a: array<Limb>, b: array<Limb>)
    requires a.Length == b.Length
    modifies a
    ensures Val(a[..]) == (old(Val(a[..])) + old(Val(b[..]))) % Place(a.Length)
  {
    ghost var a0, b0 := a[..], b[..];
    var carry := 0;
    for i := 0 to a.Length
      invariant 0 <= carry <= 1
      invariant forall j | i <= j < a.Length :: a[j] == a0[j] && b[j] == b0[j]
      invariant ValTo(a[..], i) + carry * Place(i) == ValTo(a0, i) + ValTo(b0, i)
    {
      var n := carry + a[i] + b[i];
      AddStep(carry, a[i], b[i], Place(i), ValTo(a[..], i), ValTo(a0, i) + ValTo(b0, i));
      ghost var before := a[..];
      a[i] := n % BASE;
      ValPrefix(before, a[..], i);
      carry := n / BASE;
    }
    ValBound(a[..], a.Length);
    ReducedIs(Val(a[..]), Val(a0) + Val(b0), carry, Place(a.Length));
  }

  // ---------------------------------------------------------------- negation and subtraction

  /** Limbs that agree from k on contribute the same. */
  lemma {:induction false} ValAbove(s: seq<Limb>, t: seq<Limb>, k: nat, n: nat)
    requires k <= n <= |s| && n <= |t| && forall i | k <= i < n :: s[i] == t[i]
    ensures ValTo(s, n) - ValTo(t, n) == ValTo(s, k) - ValTo(t, k)
  {
    if k < n {
      ValAbove(s, t, k, n - 1);
    }
  }

  lemma MulSub(x: Limb, p: nat)
    ensures (BASE - 1 - x) * p + x * p == BASE * p - p
  {
  }

  /** operator~ */
  method Complement(a: array<Limb>) returns (ret: array<Limb>)
    ensures fresh(ret) && ret.Length == a.Length
    ensures Val(ret[..]) == Place(a.Length) - 1 - Val(a[..])
  {
    ret := new Limb[a.Length];
    for i := 0 to a.Length
      invariant ValTo(ret[..], i) + ValTo(a[..], i) == Place(i) - 1
    {
      ghost var before := ret[..];
      ret[i] := BASE - 1 - a[i];
      ValPrefix(before, ret[..], i);
      MulSub(a[i], Place(i));
    }
  }

  /** operator++: the loop moves on while the incremented limb has wrapped to zero. */
  method Increment(a: array<Limb>)
    requires a.Length > 0
    modifies a
    ensures Val(a[..]) == (old(Val(a[..])) + 1) % Place(a.Length)
  {
    ghost var a0 := a[..];
    var i := 0;
    a[0] := if a[0] == BASE - 1 then 0 else a[0] + 1;
    while a[i] == 0 && i < a.Length - 1
      invariant 0 <= i < a.Length
      invariant forall j | i < j < a.Length :: a[j] == a0[j]
      invariant ValTo(a[..], i + 1) + (if a[i] == 0 then Place(i + 1) else 0) == ValTo(a0, i + 1) + 1
      decreases a.Length - i
    {
      ghost var before := a[..];
      i := i + 1;
      a[i] := if a[i] == BASE - 1 then 0 else a[i] + 1;
      ValPrefix(before, a[..], i);
      IncrementLimb(a0[i], Place(i));
    }
    ValAbove(a[..], a0, i + 1, a.Length);
    ValBound(a[..], a.Length);
    ReducedIs(Val(a[..]), Val(a0) + 1, if a[i] == 0 then 1 else 0, Place(a.Length));
  }

  lemma IncrementLimb(x: Limb, p: nat)
    ensures if x == BASE - 1 then x * p + p == BASE * p else (x + 1) * p == x * p + p
  {
  }

  /** operator-: complement and increment. */
  method Negate(b: array<Limb>) returns (ret: array<Limb>)
    requires b.Length > 0
    ensures fresh(ret) && ret.Length == b.Length
    ensures Val(ret[..]) == (0 - Val(b[..]) as int) % Place(b.Length)
  {
    ret := Complement(b);
    Increment(ret);
    ModAdd(0 - Val(b[..]) as int, Place(b.Length), 1);
  }

  lemma AddNegation(x: int, y: int, m: int)
    requires m > 0
    ensures (x + (0 - y) % m) % m == (x - y) % m
  {
    var z := 0 - y;
    assert z == z / m * m + z % m;
    ModAdd(x + z % m, m, z / m);
  }

  /** operator-=: adding the negation subtracts modulo 2^(32 n). */
  method SubAssign(a: array<Limb>, b: array<Limb>)
    requires a.Length == b.Length > 0
    modifies a
    ensures Val(a[..]) == (old(Val(a[..])) as int - old(Val(b[..])) as int) % Place(a.Length)
  {
    ghost var x: int, y: int, m := Val(a[..]), Val(b[..]), Place(a.Length);
    var neg := Negate(b);
    AddAssign(a, neg);
    AddNegation(x, y, m);
  }

  // ---------------------------------------------------------------- comparison

  /** CompareTo: the highest limb that differs decides. */
  method CompareTo(a: array<Limb>, b: array<Limb>) returns (r: int)
    requires a.Length == b.Length
    ensures r == if Val(a[..]) < Val(b[..]) then -1 else if Val(a[..]) > Val(b[..]) then 1 else 0
  {
    var i := a.Length;
    while i > 0
      invariant 0 <= i <= a.Length
      invariant forall j | i <= j < a.Length :: a[j] == b[j]
    {
      i := i - 1;
      if a[i] < b[i] {
        HigherLimb(a[..], b[..], i);
        return -1;
      }
      if a[i] > b[i] {
        HigherLimb(b[..], a[..], i);
        return 1;
      }
    }
    ValAbove(a[..], b[..], 0, a.Length);
    return 0;
  }

  lemma HigherLimb(s: seq<Limb>, t: seq<Limb>, i: nat)
    requires i < |s| == |t| && s[i] < t[i] && forall j | i < j < |s| :: s[j] == t[j]
    ensures Val(s) < Val(t)
  {
    ValAbove(s, t, i + 1, |s|);
    ValBound(s, i);
    var p := Place(i);
    MulMonotone(s[i] + 1, t[i], p);
    assert (s[i] + 1) * p == s[i] * p + p;
  }

  // ---------------------------------------------------------------- shifts

  /** Shifting x < p q left by p: the part above p q and the part below. */
  lemma SplitShift(x: nat, p: nat, q: nat)
    requires p > 0 && q > 0 && x < p * q
    ensures x / q < p
    ensures x * p == x / q * (p * q) + x % q * p
    ensures x % q * p + p <= p * q
    ensures x * p % (p * q) == x % q * p && x * p / (p * q) == x / q
  {
    var (h, r) := (x / q, x % q);
    assert x == h * q + r;
    assert x * p == h * (p * q) + r * p by {
      assert (h * q + r) * p == h * q * p + r * p;
      assert h * q * p == h * (p * q);
    }
    MulMonotone(r, q - 1, p);
    assert (q - 1) * p == p * q - p;
    DivModUnique(x * p, p * q, h, r * p);
    if h >= p {
      MulMonotone(p, h, q);
    }
  }

  /** The two parts of a limb shifted left by sh: what stays and what moves to the next limb. */
  function Low(x: Limb, sh: nat): nat
    requires sh <= 32
  {
    x * Pow2(sh) % BASE
  }

  function High(x: Limb, sh: nat): nat
    requires sh <= 32
  {
    Quotient(x, Pow2(32 - sh))
  }

  lemma ShiftParts(x: Limb, sh: nat)
    requires sh <= 32
    ensures High(x, sh) < Pow2(sh)
    ensures Low(x, sh) % Pow2(sh) == 0 && Low(x, sh) + Pow2(sh) <= BASE
    ensures x * Pow2(sh) == High(x, sh) * BASE + Low(x, sh)
  {
    hide Pow2;
    var p, q := Pow2(sh), Pow2(32 - sh);
    Pow2Add(sh, 32 - sh);
    Pow2Known();
    SplitShift(x, p, q);
    MulDiv(x % q, p);
  }

  /** What limb m - 1 shifts into limb m. */
  function Carried(c: seq<Limb>, sh: nat, m: nat): nat
    requires m <= |c| && sh <= 32
  {
    if m == 0 then 0 else High(c[m - 1], sh)
  }

  /** Limb k + m of the shifted number. */
  function ShlLimb(c: seq<Limb>, sh: nat, m: nat): nat
    requires m < |c| && sh <= 32
  {
    Low(c[m], sh) + Carried(c, sh, m)
  }

  lemma LimbSum(c: seq<Limb>, sh: nat, m: nat)
    requires m < |c| && sh <= 32
    ensures ShlLimb(c, sh, m) < BASE && Carried(c, sh, m) < BASE
    ensures Or(Carried(c, sh, m), Low(c[m], sh)) == ShlLimb(c, sh, m)
  {
    hide Pow2, Low, High, Or;
    ShiftParts(c[m], sh);
    if m > 0 { ShiftParts(c[m - 1], sh); }
    OrDisjoint(Low(c[m], sh), Carried(c, sh, m), sh);
  }

  /** The limbs of a left shift by k limbs and sh bits, and the value they have. */
  lemma {:induction false} ShlValue(c: seq<Limb>, res: seq<Limb>, k: nat, sh: nat, m: nat)
    requires sh <= 32 && m <= |c| && k + m <= |res|
    requires forall j | 0 <= j < k :: res[j] == 0
    requires forall j | k <= j < k + m :: res[j] == ShlLimb(c, sh, j - k)
    ensures ValTo(res, k + m) + Mul(Carried(c, sh, m), Place(k + m)) == Mul(ValTo(c, m), Mul(Place(k), Pow2(sh)))
  {
    hide Pow2, Low, High;
    if m == 0 {
      ValZero(res, k);
    } else {
      ShlValue(c, res, k, sh, m - 1);
      var x, s, p, u := c[m - 1], Pow2(sh), Place(k), Place(m - 1);
      PlaceAdd(k, m - 1);
      ShiftParts(x, sh);
      ShlStep(x, s, p, u, Low(x, sh), High(x, sh), Carried(c, sh, m - 1), ValTo(res, k + m - 1), ValTo(c, m - 1));
    }
  }

  lemma ShlStep(x: nat, s: nat, p: nat, u: nat, low: nat, high: nat, carried: nat, v: nat, w: nat)
    requires x * s == high * BASE + low && v + Mul(carried, p * u) == Mul(w, Mul(p, s))
    ensures v + Mul(low + carried, p * u) + Mul(high, BASE * (p * u)) == Mul(w + Mul(x, u), Mul(p, s))
  {
  }

  /** How far the loop of operator<<= has got: limb i + k holds only what limb i - 1 shifted into it. */
  ghost predicate ShlDone(c: seq<Limb>, res: seq<Limb>, k: nat, sh: nat, i: nat)
    requires sh < 32 && i <= |c|
  {
    && |res| == |c|
    && (forall j | 0 <= j < |res| && j < k :: res[j] == 0)
    && (forall j | k <= j < |res| && j < i + k :: res[j] == ShlLimb(c, sh, j - k))
    && (i + k < |res| ==> res[i + k] == Carried(c, sh, i))
    && (forall j | i + k < j < |res| :: res[j] == 0)
  }

  lemma ShlStart(c: seq<Limb>, res: seq<Limb>, k: nat, sh: nat)
    requires sh < 32 && |res| == |c| && forall j | 0 <= j < |res| :: res[j] == 0
    ensures ShlDone(c, res, k, sh, 0)
  {
  }

  /** operator<<= */
  method ShiftLeftAssign(a: array<Limb>, shift: nat)
    modifies a
    ensures Val(a[..]) == old(Val(a[..])) * Pow2(shift) % Place(a.Length)
  {
    hide Pow2, Or, Low, High, ShlDone;
    var c := a[..];
    for i := 0 to a.Length
      invariant forall j | 0 <= j < i :: a[j] == 0
    {
      a[i] := 0;
    }
    var (k, sh) := (shift / 32, shift % 32);
    ShlStart(c, a[..], k, sh);
    for i := 0 to a.Length
      invariant ShlDone(c, a[..], k, sh, i)
    {
      ShlNext(c, a[..], k, sh, i);
      if i + k + 1 < a.Length && sh != 0 {
        a[i + k + 1] := Or(a[i + k + 1], High(c[i], sh));
      }
      if i + k < a.Length {
        a[i + k] := Or(a[i + k], Low(c[i], sh));
      }
    }
    ShlResult(c, a[..], k, sh);
    assert shift == 32 * k + sh;
  }

  /** One round of the loop. */
  lemma ShlNext(c: seq<Limb>, res: seq<Limb>, k: nat, sh: nat, i: nat)
    requires sh < 32 && i < |c| && ShlDone(c, res, k, sh, i)
    ensures i + k < |res| ==> Or(res[i + k], Low(c[i], sh)) == ShlLimb(c, sh, i) < BASE
    ensures i + k + 1 < |res| ==> res[i + k + 1] == 0 && Or(res[i + k + 1], High(c[i], sh)) == High(c[i], sh) < BASE
    ensures i + k >= |res| ==> ShlDone(c, res, k, sh, i + 1)
    ensures i + k == |res| - 1 ==> ShlDone(c, res[i + k := ShlLimb(c, sh, i)], k, sh, i + 1)
    ensures i + k + 1 < |res| ==> ShlDone(c, res[i + k + 1 := High(c[i], sh)][i + k := ShlLimb(c, sh, i)], k, sh, i + 1)
    ensures sh == 0 && i + k + 1 < |res| ==> ShlDone(c, res[i + k := ShlLimb(c, sh, i)], k, sh, i + 1)
  {
    hide Or, Low, Pow2;
    LimbSum(c, sh, i);
    ShiftParts(c[i], sh);
    OrZero(High(c[i], sh));
    if sh == 0 {
      Pow2Known();
      assert High(c[i], sh) == 0;
      if i + k + 1 < |res| {
        assert res[i + k + 1 := 0] == res;
      }
    }
  }

  lemma ShlResult(c: seq<Limb>, res: seq<Limb>, k: nat, sh: nat)
    requires sh < 32 && ShlDone(c, res, k, sh, |c|)
    ensures Val(res) == Val(c) * Pow2(32 * k + sh) % Place(|c|)
  {
    hide Pow2, Low, High, Place, Mul, ShlLimb;
    var n, s := |c|, Pow2(sh);
    Pow2Add(32 * k, sh);
    PlaceIsPow2(k);
    ValBound(res, n);
    if k < n {
      var m := n - k;
      ShlValue(c, res, k, sh, m);
      ValSplit(c, m, n);
      PlaceAdd(m, k);
      ShlReduced(Val(res), ValTo(c, m), ValTo(c[m..], k), Carried(c, sh, m), Place(m), Place(k), s);
    } else {
      ValZero(res, n);
      PlaceAdd(n, k - n);
      ShlGone(Val(c), Place(k - n), Place(n), s);
    }
  }

  lemma ShlReduced(v: nat, low: nat, rest: nat, carried: nat, pm: nat, pk: nat, s: nat)
    requires v < pm * pk && v + Mul(carried, pm * pk) == Mul(low, Mul(pk, s))
    ensures v == (low + pm * rest) * (pk * s) % (pm * pk)
  {
    var (p, t) := (pm * pk, pk * s);
    assert pm * rest * t == rest * s * p;
    assert (low + pm * rest) * t == low * t + pm * rest * t;
    assert (carried + rest * s) * p == carried * p + rest * s * p;
    assert v + carried * p == low * t;
    ModAdd(v, p, carried + rest * s);
    ReducedIs(v, v, 0, p);
  }

  lemma ShlGone(v: nat, extra: nat, p: nat, s: nat)
    requires p > 0
    ensures v * (p * extra * s) % p == 0
  {
    assert v * (p * extra * s) == v * extra * s * p;
    MulDiv(v * extra * s, p);
  }

  /**
   How far the loop of operator>>= has got. Shifting right by 32 - t bits is shifting left by t and dropping a
   limb.
  */
  ghost predicate ShrDone(c: seq<Limb>, res: seq<Limb>, k: nat, t: nat, i: nat)
    requires t <= 32 && i <= |c|
  {
    && |res| == |c|
    && (forall j | 0 <= j < |res| && j + k + 1 < i :: res[j] == ShlLimb(c, t, j + k + 1))
    && (0 <= i - k - 1 < |res| ==> res[i - k - 1] == Carried(c, t, i))
    && (forall j | 0 <= j < |res| && j + k + 1 > i :: res[j] == 0)
  }

  lemma ShrStart(c: seq<Limb>, res: seq<Limb>, k: nat, t: nat)
    requires t <= 32 && |res| == |c| && forall j | 0 <= j < |res| :: res[j] == 0
    ensures ShrDone(c, res, k, t, 0)
  {
  }

  /** operator>>= */
  method ShiftRightAssign(a: array<Limb>, shift: nat)
    modifies a
    ensures Val(a[..]) == old(Val(a[..])) / Pow2(shift)
  {
    hide Pow2, Or, Low, High, ShrDone;
    var c := a[..];
    for i := 0 to a.Length
      invariant forall j | 0 <= j < i :: a[j] == 0
    {
      a[i] := 0;
    }
    var (k, sh) := (shift / 32, shift % 32);
    ShrStart(c, a[..], k, 32 - sh);
    for i := 0 to a.Length
      invariant ShrDone(c, a[..], k, 32 - sh, i)
    {
      ShrNext(c, a[..], k, 32 - sh, i);
      if i - k - 1 >= 0 && sh != 0 {
        a[i - k - 1] := Or(a[i - k - 1], Low(c[i], 32 - sh));
      }
      if i - k >= 0 {
        a[i - k] := Or(a[i - k], High(c[i], 32 - sh));
      }
    }
    ShrResult(c, a[..], k, sh);
    assert shift == 32 * k + sh;
  }

  /** One round of the loop. */
  lemma ShrNext(c: seq<Limb>, res: seq<Limb>, k: nat, t: nat, i: nat)
    requires t <= 32 && i < |c| && ShrDone(c, res, k, t, i)
    ensures i - k - 1 >= 0 ==> i - k - 1 < |res| && Or(res[i - k - 1], Low(c[i], t)) == ShlLimb(c, t, i) < BASE
    ensures i - k >= 0 ==> i - k < |res| && Or(res[i - k], High(c[i], t)) == High(c[i], t) < BASE
    ensures i - k < 0 ==> ShrDone(c, res, k, t, i + 1)
    ensures i - k == 0 ==> ShrDone(c, res[0 := High(c[i], t)], k, t, i + 1)
    ensures i - k > 0 ==> ShrDone(c, res[i - k - 1 := ShlLimb(c, t, i)][i - k := High(c[i], t)], k, t, i + 1)
    ensures i - k > 0 && t == 32 ==> ShrDone(c, res[i - k := High(c[i], t)], k, t, i + 1)
  {
    hide Or, High, Low, Pow2;
    LimbSum(c, t, i);
    ShiftParts(c[i], t);
    OrZero(High(c[i], t));
    Pow2Known();
    if t == 32 {
      Multiple(Low(c[i], t), BASE);
      if i - k > 0 {
        assert res[i - k - 1 := Carried(c, t, i)] == res;
      }
    }
    if t < 32 {
      Pow2Monotone(t, 32);
    }
  }

  lemma Multiple(x: nat, d: nat)
    requires d > 0 && x % d == 0 && x < d
    ensures x == 0
  {
  }

  lemma ShrResult(c: seq<Limb>, res: seq<Limb>, k: nat, sh: nat)
    requires sh < 32 && ShrDone(c, res, k, 32 - sh, |c|)
    ensures Val(res) == Val(c) / Pow2(32 * k + sh)
  {
    hide Pow2, Low, High, Place, Mul;
    var n, t := |c|, 32 - sh;
    if n == 0 {
    } else if k >= n {
      ValZero(res, n);
      ValBound(c, n);
      PlaceIsPow2(n);
      Pow2Monotone(32 * n, 32 * k + sh);
    } else {
      forall m | 0 <= m < n ensures ShlLimb(c, t, m) < BASE { LimbSum(c, t, m); }
      LimbSum(c, t, n - 1);
      ShiftParts(c[n - 1], t);
      Pow2Known();
      Pow2Monotone(t, 32);
      var all: seq<Limb> := seq(n, m requires 0 <= m < n => ShlLimb(c, t, m) as Limb) + [Carried(c, t, n)];
      ShrShape(c, res, all, k, t);
      ShlAll(c, all, t);
      ValSplit(all, k + 1, n + 1);
      ValBound(all, k + 1);
      PlaceIsPow2(k + 1);
      Pow2Add(32 * k + sh, t);
      ShrReduced(Val(c), Pow2(t), Pow2(32 * k + sh), Val(res), ValTo(all, k + 1));
    }
  }

  /** The shifted limbs with the lowest k + 1 dropped. */
  lemma ShrShape(c: seq<Limb>, res: seq<Limb>, all: seq<Limb>, k: nat, t: nat)
    requires t <= 32 && ShrDone(c, res, k, t, |c|) && k < |c| && |all| == |c| + 1
    requires all[|c|] == Carried(c, t, |c|) && forall m | 0 <= m < |c| :: all[m] == ShlLimb(c, t, m)
    ensures Val(res) == ValTo(all[k + 1..], |c| - k)
  {
    hide Pow2, Low, High, Place, Mul, ShlLimb, Carried;
    var n := |c|;
    forall j | 0 <= j < n - k ensures res[j] == all[k + 1..][j] {
      assert all[k + 1..][j] == all[j + k + 1];
    }
    ValPrefix(res, all[k + 1..], n - k);
    ValZero(res[n - k..], k);
    ValSplit(res, n - k, n);
    assert Place(n - k) * 0 == 0;
  }

  lemma ShlAll(c: seq<Limb>, all: seq<Limb>, t: nat)
    requires t <= 32 && |all| == |c| + 1
    requires all[|c|] == Carried(c, t, |c|) && forall m | 0 <= m < |c| :: all[m] == ShlLimb(c, t, m)
    ensures Val(all) == Val(c) * Pow2(t)
  {
    hide Pow2, Low, High;
    ShlValue(c, all, 0, t, |c|);
    assert Mul(Place(0), Pow2(t)) == Pow2(t);
  }

  lemma ShrReduced(v: nat, t: nat, s: nat, q: nat, r: nat)
    requires t > 0 && s > 0 && v * t == r + s * t * q && r < s * t
    ensures q == v / s
  {
    assert s * t * q == q * (s * t);
    DivModUnique(v * t, s * t, q, r);
    DivDiv(v * t, t, s);
    assert t * s == s * t;
    MulDiv(v, t);
  }

  // ---------------------------------------------------------------- multiplication

  method Copy(a: array<Limb>) returns (c: array<Limb>)
    ensures fresh(c) && c[..] == a[..]
  {
    c := new Limb[a.Length](i requires 0 <= i < a.Length reads a => a[i]);
  }

  /** Assigning zero. */
  method Clear(a: array<Limb>)
    modifies a
    ensures forall j | 0 <= j < a.Length :: a[j] == 0
    ensures Val(a[..]) == 0
  {
    for i := 0 to a.Length
      invariant forall j | 0 <= j < i :: a[j] == 0
    {
      a[i] := 0;
    }
    ValZero(a[..], a.Length);
  }

  /**
   operator*=(base_uint): long multiplication. The target is cleared before the factor is read, so a
   number multiplied by itself in place becomes zero.
  */
  method MulAssign(a: array<Limb>, b: array<Limb>)
    requires a.Length == b.Length
    modifies a
    ensures Val(a[..]) == old(Val(a[..])) * (if a == b then 0 else old(Val(b[..]))) % Place(a.Length)
  {
    hide Val, ValTo, Place;
    var c := Copy(a);
    ghost var c0 := c[..];
    Clear(a);
    Empty(c0);
    ghost var b0, k: int := b[..], 0;
    for j := 0 to a.Length
      invariant b[..] == b0 && c[..] == c0
      invariant a == b ==> forall i | 0 <= i < a.Length :: a[i] == 0
      invariant Val(a[..]) + k * Place(a.Length) == ValTo(c0, j) * Val(b0)
    {
      ghost var v := Val(a[..]);
      var carry := AddRow(a, b, c[j], j);
      RowDone(c0, b0, j, v, k, carry, Val(a[..]));
      k := k + carry + c[j] * ValTo(b0[a.Length - j..], j);
    }
    ValLess(a[..]);
    ReducedIs(Val(a[..]), Val(c0) * Val(b0), k, Place(a.Length));
  }

  /** The inner loop: adds x times the factor at limb j; the carry out of the top limb is dropped by the caller. */
  method AddRow(a: array<Limb>, b: array<Limb>, x: Limb, j: nat) returns (carry: nat)
    requires j < a.Length == b.Length && (a == b ==> forall i | 0 <= i < a.Length :: a[i] == 0)
    modifies a
    ensures b[..] == old(b[..])
    ensures a == b ==> forall i | 0 <= i < a.Length :: a[i] == 0
    ensures Val(a[..]) + carry * Place(a.Length) == old(Val(a[..])) + x * Place(j) * ValTo(b[..], a.Length - j)
  {
    hide Place, Mul;
    ghost var a0, b0 := a[..], b[..];
    carry := 0;
    RowStart(a0, b0, x, j);
    for i := 0 to a.Length - j
      invariant carry < BASE && b[..] == b0
      invariant a == b ==> carry == 0 && forall i | 0 <= i < a.Length :: a[i] == 0
      invariant forall m | i + j <= m < a.Length :: a[m] == a0[m]
      invariant ValTo(a[..], i + j) + Mul(carry, Place(i + j)) == ValTo(a0, i + j) + Mul(Mul(x, Place(j)), ValTo(b0, i))
    {
      RowLimb(carry, a[i + j], x, b[i]);
      var n := carry + a[i + j] + x * b[i];
      RowStep(a[..], a0, b0, x, j, i, carry);
      a[i + j] := n % BASE;
      carry := Quotient(n, BASE);
    }
    RowEnd(carry, a.Length, x, j, ValTo(b0, a.Length - j));
  }

  lemma Empty(c: seq<Limb>)
    ensures ValTo(c, 0) == 0 && ValTo(c, |c|) == Val(c)
  {
  }

  lemma RowStart(a: seq<Limb>, b: seq<Limb>, x: Limb, j: nat)
    requires j < |a| == |b|
    ensures ValTo(a, j) + Mul(0, Place(j)) == ValTo(a, j) + Mul(Mul(x, Place(j)), ValTo(b, 0))
  {
  }

  lemma RowEnd(carry: nat, n: nat, x: nat, j: nat, v: nat)
    ensures Mul(carry, Place(n)) == carry * Place(n) && Mul(Mul(x, Place(j)), v) == x * Place(j) * v
  {
  }

  /** The 64-bit sum of the inner loop does not overflow. */
  lemma RowLimb(carry: Limb, y: Limb, x: Limb, z: Limb)
    ensures carry + y + x * z < BASE * BASE
    ensures (carry + y + x * z) / BASE < BASE
    ensures z == 0 ==> x * z == 0
  {
    MulMonotone(x, BASE - 1, z);
    MulMonotone(z, BASE - 1, BASE - 1);
  }

  lemma RowStep(a: seq<Limb>, a0: seq<Limb>, b: seq<Limb>, x: Limb, j: nat, i: nat, carry: nat)
    requires i + j < |a| == |a0| == |b| && a[i + j] == a0[i + j]
    requires ValTo(a, i + j) + Mul(carry, Place(i + j)) == ValTo(a0, i + j) + Mul(Mul(x, Place(j)), ValTo(b, i))
    ensures var n := carry + a[i + j] + x * b[i];
      ValTo(a[i + j := n % BASE], i + j + 1) + Mul(Quotient(n, BASE), Place(i + j + 1))
      == ValTo(a0, i + j + 1) + Mul(Mul(x, Place(j)), ValTo(b, i + 1))
  {
    var n := carry + a[i + j] + x * b[i];
    ValPrefix(a, a[i + j := n % BASE], i + j);
    PlaceAdd(j, i);
    RowSum(ValTo(a, i + j), ValTo(a0, i + j), ValTo(b, i), carry, a[i + j], x, b[i], Place(j), Place(i));
  }

  lemma RowSum(v: nat, w: nat, u: nat, carry: nat, y: nat, x: nat, z: nat, pj: nat, pi: nat)
    requires v + carry * (pj * pi) == w + x * pj * u
    ensures var n := carry + y + x * z;
      v + n % BASE * (pj * pi) + n / BASE * (BASE * (pj * pi)) == w + y * (pj * pi) + x * pj * (u + z * pi)
  {
  }

  lemma RowDone(c: seq<Limb>, b: seq<Limb>, j: nat, v: nat, k: int, carry: nat, w: nat)
    requires j < |c| == |b| && v + k * Place(|b|) == ValTo(c, j) * Val(b)
    requires w + carry * Place(|b|) == v + c[j] * Place(j) * ValTo(b, |b| - j)
    ensures w + (k + carry + c[j] * ValTo(b[|b| - j..], j)) * Place(|b|) == ValTo(c, j + 1) * Val(b)
  {
    var n := |b|;
    ValSplit(b, n - j, n);
    PlaceAdd(n - j, j);
    RowRegroup(w, v, k, carry, c[j], Place(j), ValTo(b, n - j), ValTo(b[n - j..], j), Place(n - j), ValTo(c, j));
  }

  lemma RowRegroup(w: nat, v: nat, k: int, carry: nat, x: nat, pj: nat, low: nat, high: nat, pm: nat, t: nat)
    requires v + k * (pm * pj) == t * (low + pm * high) && w + carry * (pm * pj) == v + x * pj * low
    ensures w + (k + carry + x * high) * (pm * pj) == (t + x * pj) * (low + pm * high)
  {
  }

  // ---------------------------------------------------------------- bit length

  /** bits(): the position of the highest set bit, plus one; 0 for zero. */
  method BitLength(a: array<Limb>) returns (r: nat)
    ensures r <= 32 * a.Length && Val(a[..]) < Pow2(r)
    ensures r == 0 || Pow2(r - 1) <= Val(a[..])
  {
    hide Pow2, Place;
    var pos := a.Length;
    while pos > 0
      invariant 0 <= pos <= a.Length
      invariant forall j | pos <= j < a.Length :: a[j] == 0
    {
      pos := pos - 1;
      if a[pos] != 0 {
        var nbits := 31;
        Pow2Known();
        while nbits > 0
          invariant 0 <= nbits <= 31
          invariant a[pos] < Pow2(nbits + 1)
        {
          TopBit(a[pos], nbits);
          if Quotient(a[pos], Pow2(nbits)) % 2 == 1 {
            TopLimb(a[..], pos, nbits);
            return 32 * pos + nbits + 1;
          }
          nbits := nbits - 1;
        }
        TopLimb(a[..], pos, 0);
        return 32 * pos + 1;
      }
    }
    ValZero(a[..], a.Length);
    return 0;
  }

  lemma TopBit(x: nat, b: nat)
    requires x < Pow2(b + 1)
    ensures Quotient(x, Pow2(b)) % 2 == 1 <==> x >= Pow2(b)
  {
  }

  lemma TopLimb(s: seq<Limb>, pos: nat, b: nat)
    requires pos < |s| && b < 32 && s[pos] < Pow2(b + 1) && (s[pos] >= Pow2(b) || b == 0 < s[pos])
    requires forall j | pos < j < |s| :: s[j] == 0
    ensures Pow2(32 * pos + b) <= Val(s) < Pow2(32 * pos + b + 1)
  {
    hide Pow2, Place;
    var p, x := Place(pos), s[pos];
    var zero: seq<Limb> := seq(|s|, i => 0);
    ValZero(zero, |s|);
    ValZero(zero, pos + 1);
    ValAbove(s, zero, pos + 1, |s|);
    ValBound(s, pos);
    PlaceIsPow2(pos);
    Pow2Add(32 * pos, b);
    Pow2Add(32 * pos, b + 1);
    assert Pow2(0) == 1 by { Pow2Zero(); }
    MulMonotone(Pow2(b), x, p);
    MulMonotone(x + 1, Pow2(b + 1), p);
    assert (x + 1) * p == x * p + p;
    assert p * Pow2(b) == Pow2(b) * p && p * Pow2(b + 1) == Pow2(b + 1) * p;
  }

  lemma Pow2Zero()
    ensures Pow2(0) == 1
  {
  }

  // ---------------------------------------------------------------- division

  /** The low b bits are clear, limb by limb. */
  ghost predicate LowClear(s: seq<Limb>, b: nat) {
    forall j | 0 <= j < |s| && 32 * j < b :: s[j] % Pow2(if b >= 32 * j + 32 then 32 else b - 32 * j) == 0
  }

  lemma ZeroClear(s: seq<Limb>, b: nat)
    requires forall j | 0 <= j < |s| :: s[j] == 0
    ensures LowClear(s, b)
  {
    hide Pow2;
    forall e: nat ensures 0 % Pow2(e) == 0 { MulDiv(0, Pow2(e)); }
  }

  /** Setting bit b of a number whose low b + 1 bits are clear adds 2^b. */
  lemma SetBit(s: seq<Limb>, b: nat)
    requires LowClear(s, b + 1) && b < 32 * |s|
    ensures var (k, sh) := (b / 32, b % 32);
      && Or(s[k], Pow2(sh)) < BASE
      && LowClear(s[k := Or(s[k], Pow2(sh))], b)
      && Val(s[k := Or(s[k], Pow2(sh))]) == Val(s) + Pow2(b)
  {
    hide Pow2, Place, Or, LowClear, Val, Mul;
    var k, sh := b / 32, b % 32;
    assert b == 32 * k + sh;
    SetLimb(s, b);
    OrDisjoint(s[k], Pow2(sh), sh + 1);
    AddToLimb(s, k, Pow2(sh));
    PlaceIsPow2(k);
    Pow2Add(sh, 32 * k);
    MulIs(Pow2(sh), Place(k));
  }

  lemma MulIs(x: nat, p: nat)
    ensures Mul(x, p) == x * p
  {
  }

  lemma AddToLimb(s: seq<Limb>, k: nat, y: nat)
    requires k < |s| && s[k] + y < BASE
    ensures Val(s[k := s[k] + y]) == Val(s) + Mul(y, Place(k))
  {
    ValUpdate(s, k, s[k] + y, |s|);
    AddedBit(s[k], y, Place(k));
  }

  lemma AddedBit(x: nat, s: nat, p: nat)
    ensures (x + s) * p - x * p == s * p
  {
  }

  lemma SetLimb(s: seq<Limb>, b: nat)
    requires LowClear(s, b + 1) && b < 32 * |s|
    ensures var (k, sh) := (b / 32, b % 32);
      s[k] % Pow2(sh + 1) == 0 && Pow2(sh) < Pow2(sh + 1) && s[k] + Pow2(sh) < BASE
        && LowClear(s[k := s[k] + Pow2(sh)], b)
  {
    var (k, sh) := (b / 32, b % 32);
    var (x, p) := (s[k], Pow2(sh));
    assert Pow2(sh + 1) == 2 * p;
    hide Pow2;
    assert x % Pow2(sh + 1) == 0;
    Room(x, sh);
    var t := s[k := x + p];
    forall j | 0 <= j < |t| && 32 * j < b ensures t[j] % Pow2(if b >= 32 * j + 32 then 32 else b - 32 * j) == 0 {
      if j == k {
        Halves(x, p);
      }
    }
  }

  /** Twice a power below 2^32 divides 2^32, so a multiple of it leaves room for half of it. */
  lemma Room(x: Limb, sh: nat)
    requires sh < 32 && x % Pow2(sh + 1) == 0
    ensures x + Pow2(sh) < BASE
  {
    hide Pow2;
    assert Pow2(sh + 1) == 2 * Pow2(sh) by { Pow2Step(sh); }
    Pow2Add(sh + 1, 31 - sh);
    Pow2Known();
    var p, q := Pow2(sh + 1), Pow2(31 - sh);
    assert p * q == BASE;
    var h := x / p;
    assert x == h * p;
    if h >= q {
      MulMonotone(q, h, p);
    }
    MulMonotone(h + 1, q, p);
    assert (h + 1) * p == h * p + p;
    assert q * p == p * q;
  }

  lemma Pow2Step(n: nat)
    ensures Pow2(n + 1) == 2 * Pow2(n)
  {
  }

  lemma Halves(x: nat, p: nat)
    requires p > 0 && x % (2 * p) == 0
    ensures (x + p) % p == 0 && x % p == 0
  {
    var h := x / (2 * p);
    assert x == h * (2 * p);
    assert h * (2 * p) == 2 * h * p;
    MulDiv(2 * h, p);
    MulDiv(2 * h + 1, p);
    assert (2 * h + 1) * p == 2 * h * p + p;
  }

  lemma LowClearLess(s: seq<Limb>, b: nat)
    requires LowClear(s, b + 1)
    ensures LowClear(s, b)
  {
    hide Pow2;
    forall j | 0 <= j < |s| && 32 * j < b ensures s[j] % Pow2(if b >= 32 * j + 32 then 32 else b - 32 * j) == 0 {
      if b < 32 * j + 32 {
        assert s[j] % Pow2(b + 1 - 32 * j) == 0;
        Pow2Step(b - 32 * j);
        Halves(s[j], Pow2(b - 32 * j));
      }
    }
  }

  /**
   operator/=: align, then subtract and shift back. When it throws for a zero divisor the target has
   already been cleared. a and b may be the same array.
  */
  method DivAssign(a: array<Limb>, b: array<Limb>) returns (ok: bool)
    requires a.Length == b.Length > 0
    modifies a
    ensures ok <==> old(Val(b[..])) != 0
    ensures Val(a[..]) == if ok then old(Val(a[..])) / old(Val(b[..])) else 0
  {
    hide Pow2, Or, Place, Val, DivInv;
    ghost var (n, d) := (Val(a[..]), Val(b[..]));
    var div := Copy(b);
    var num := Copy(a);
    Clear(a);
    var numBits := BitLength(num);
    var divBits := BitLength(div);
    Pow2Zero();
    if divBits == 0 {
      return false;
    }
    ok := true;
    Pow2Positive(divBits - 1);
    if divBits > numBits {
      Pow2Monotone(numBits, divBits - 1);
      DivModUnique(n, d, 0, n);
      return;
    }
    var shift := numBits - divBits;
    Aligned(n, d, numBits, divBits, a.Length);
    ShiftLeftAssign(div, shift);
    DivStart(a[..], num[..], div[..], shift, d);
    while shift >= 0
      invariant -1 <= shift < 32 * a.Length
      invariant DivInv(a[..], num[..], div[..], shift, n, d)
    {
      var c := CompareTo(num, div);
      ghost var s := (a[..], num[..], div[..]);
      if c >= 0 {
        SubAssign(num, div);
        BitFits(s.0, s.1, s.2, shift, n, d);
        a[shift / 32] := Or(a[shift / 32], Pow2(shift % 32));
      }
      ShiftRightAssign(div, 1);
      if c >= 0 {
        Subtracted(s.0, s.1, s.2, shift, n, d, num[..], div[..]);
      } else {
        Skipped(s.0, s.1, s.2, shift, n, d, div[..]);
      }
      shift := shift - 1;
    }
    DivEnd(a[..], num[..], div[..], n, d);
  }

  /** The loop of the division: what is subtracted so far, what remains, and how far div is shifted. */
  ghost predicate DivInv(q: seq<Limb>, num: seq<Limb>, div: seq<Limb>, shift: int, n: nat, d: nat) {
    && -1 <= shift < 32 * |q| && |num| == |div| == |q|
    && LowClear(q, shift + 1)
    && (shift >= 0 ==> Val(div) == d * Pow2(shift))
    && Val(q) * d + Val(num) == n && Val(num) < d * Pow2(shift + 1)
  }

  lemma DivStart(q: seq<Limb>, num: seq<Limb>, div: seq<Limb>, shift: nat, d: nat)
    requires |num| == |div| == |q| && shift < 32 * |q| && forall j | 0 <= j < |q| :: q[j] == 0
    requires Val(div) == d * Pow2(shift) && Val(num) < d * Pow2(shift + 1)
    ensures DivInv(q, num, div, shift, Val(num), d)
  {
    ZeroClear(q, shift + 1);
    ValZero(q, |q|);
    assert 0 * d == 0;
  }

  lemma BitFits(q: seq<Limb>, num: seq<Limb>, div: seq<Limb>, shift: nat, n: nat, d: nat)
    requires DivInv(q, num, div, shift, n, d)
    ensures shift / 32 < |q| && Or(q[shift / 32], Pow2(shift % 32)) < BASE
  {
    hide Pow2, Or, LowClear, Place, Val;
    SetBit(q, shift);
  }

  lemma Subtracted(q: seq<Limb>, num: seq<Limb>, div: seq<Limb>, shift: nat, n: nat, d: nat, num1: seq<Limb>,
          div1: seq<Limb>)
    requires DivInv(q, num, div, shift, n, d) && Val(num) >= Val(div) && |num1| == |num| && |div1| == |div|
    requires Val(num1) == (Val(num) - Val(div)) % Place(|num|) && Val(div1) == Val(div) / Pow2(1)
    ensures var k := shift / 32;
      && k < |q| && Or(q[k], Pow2(shift % 32)) < BASE
      && DivInv(q[k := Or(q[k], Pow2(shift % 32))], num1, div1, shift - 1, n, d)
  {
    hide Pow2, Or, LowClear, Place, Val;
    ValLess(num);
    SmallMod(Val(num) - d * Pow2(shift), Place(|num|));
    SetBit(q, shift);
    Pow2Step(shift);
    QuotientStep(Val(q), d, Pow2(shift), Val(num), n);
    if shift > 0 {
      Halved(d, shift);
    }
  }

  lemma Skipped(q: seq<Limb>, num: seq<Limb>, div: seq<Limb>, shift: nat, n: nat, d: nat, div1: seq<Limb>)
    requires DivInv(q, num, div, shift, n, d) && Val(num) < Val(div) && |div1| == |div|
    requires Val(div1) == Val(div) / Pow2(1)
    ensures DivInv(q, num, div1, shift - 1, n, d)
  {
    hide Pow2, LowClear, Val;
    LowClearLess(q, shift);
    if shift > 0 {
      Halved(d, shift);
    }
  }

  lemma DivEnd(q: seq<Limb>, num: seq<Limb>, div: seq<Limb>, n: nat, d: nat)
    requires DivInv(q, num, div, -1, n, d)
    ensures d > 0 && Val(q) == n / d
  {
    hide LowClear, Val;
    assert Val(num) < d;
    DivModUnique(n, d, Val(q), Val(num));
  }

  lemma ValLess(s: seq<Limb>)
    ensures Val(s) < Place(|s|)
  {
    ValBound(s, |s|);
  }

  lemma Pow2Positive(n: nat)
    ensures Pow2(n) > 0
  {
  }

  lemma SmallMod(x: int, m: int)
    requires 0 <= x < m
    ensures x % m == x
  {
  }

  lemma QuotientStep(q: nat, d: nat, s: nat, v: nat, n: nat)
    requires q * d + v == n && d * s <= v < d * (2 * s)
    ensures (q + s) * d + (v - d * s) == n && v - d * s < d * s
  {
  }

  lemma Halved(d: nat, shift: nat)
    requires shift > 0
    ensures d * Pow2(shift) / Pow2(1) == d * Pow2(shift - 1)
  {
  }

  /** After aligning, the divisor does not overflow and is more than half the numerator. */
  lemma Aligned(n: nat, d: nat, numBits: nat, divBits: nat, width: nat)
    requires 0 < divBits <= numBits <= 32 * width
    requires n < Pow2(numBits) && Pow2(divBits - 1) <= d < Pow2(divBits)
    ensures var shift := numBits - divBits;
      d * Pow2(shift) % Place(width) == d * Pow2(shift) && n < d * Pow2(shift + 1)
  {
    hide Pow2, Place;
    var shift := numBits - divBits;
    Pow2Add(divBits, shift);
    Pow2Add(divBits - 1, shift + 1);
    Pow2Positive(shift);
    var (s, t) := (Pow2(shift), Pow2(shift + 1));
    MulMonotone(d + 1, Pow2(divBits), s);
    assert (d + 1) * s == d * s + s;
    MulMonotone(Pow2(divBits - 1), d, t);
    PlaceIsPow2(width);
    Pow2Monotone(numBits, 32 * width);
    SmallMod(d * s, Place(width));
  }
}
