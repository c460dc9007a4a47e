/** The compact target encoding of src/arith_uint256.cpp and its use for block trust in src/chain.cpp. */
module Compact {
  import opened Bits
  import opened ArithUint256

  const WIDTH := 8

  type Word = x: nat | x < 0x1_0000_0000

  // ---------------------------------------------------------------- the encoding

  function Size(c: Word): nat {
    c / 0x100_0000
  }

  function Mantissa(c: Word): nat {
    c % 0x80_0000
  }

  predicate SignBit(c: Word) {
    c / 0x80_0000 % 2 == 1
  }

  /** mantissa * 256^(size - 3), rounded down. */
  ghost function Meaning(c: Word): nat {
    if Size(c) <= 3 then Quotient(Mantissa(c), Pow2(8 * (3 - Size(c))))
    else Mantissa(c) * Pow2(8 * (Size(c) - 3))
  }

  /** The number of bytes of x. */
  ghost function Bytes(x: nat): nat {
    if x == 0 then 0 else 1 + Bytes(x / 256)
  }

  /** x without what does not fit in the leading bytes kept when the encoding has the given size. */
  ghost function Leading(x: nat, size: nat): nat {
    if size <= 3 then x else Quotient(x, Pow2(8 * (size - 3))) * Pow2(8 * (size - 3))
  }

  /** The mantissa of x: its leading bytes, with the sign bit free. */
  ghost function LeadingBytes(x: nat, size: nat): nat {
    if size <= 3 then x * Pow2(8 * (3 - size)) else Quotient(x, Pow2(8 * (size - 3)))
  }

  /** The size leaves room for a sign bit. */
  ghost function SizeOf(x: nat): nat {
    Bytes(2 * x)
  }

  // ---------------------------------------------------------------- sizes

  lemma {:induction false} BytesBound(x: nat)
    ensures x < Pow2(8 * Bytes(x))
    ensures x > 0 ==> Bytes(x) > 0 && Pow2(8 * (Bytes(x) - 1)) <= x
  {
    hide Pow2;
    if x > 0 {
      BytesBound(x / 256);
      Pow2Known();
      var b := Bytes(x / 256);
      Pow2Add(8 * b, 8);
      if b > 0 {
        Pow2Add(8 * (b - 1), 8);
      } else {
        Pow2Zero();
      }
    } else {
      Pow2Zero();
    }
  }

  lemma BytesUnique(x: nat, b: nat)
    requires x < Pow2(8 * b) && (b == 0 || Pow2(8 * (b - 1)) <= x)
    ensures Bytes(x) == b
  {
    hide Pow2, Bytes;
    BytesBound(x);
    if Bytes(x) < b {
      Pow2Monotone(8 * Bytes(x), 8 * (b - 1));
    } else if Bytes(x) > b {
      Pow2Monotone(8 * b, 8 * (Bytes(x) - 1));
      Pow2Zero();
      if x == 0 { assert Bytes(0) == 0 by { NoBytes(); } }
    }
  }

  lemma NoBytes()
    ensures Bytes(0) == 0
  {
  }

  /** The size is the least one whose sign bit the number does not reach. */
  lemma SizeBound(x: nat)
    ensures SizeOf(x) == 0 <==> x == 0
    ensures x > 0 ==> x < Pow2(8 * SizeOf(x) - 1)
    ensures SizeOf(x) > 1 ==> Pow2(8 * (SizeOf(x) - 1) - 1) <= x
  {
    hide Pow2, Bytes;
    BytesBound(2 * x);
    NoBytes();
    var s := SizeOf(x);
    if s > 0 {
      Pow2Step(8 * s - 1);
    }
    if s > 1 {
      Pow2Step(8 * (s - 1) - 1);
    }
  }

  lemma SizeUnique(x: nat, s: nat)
    requires s == 0 <==> x == 0
    requires x > 0 ==> x < Pow2(8 * s - 1)
    requires s > 1 ==> Pow2(8 * (s - 1) - 1) <= x
    ensures SizeOf(x) == s
  {
    hide Pow2, Bytes;
    Pow2Zero();
    if s > 0 {
      Pow2Step(8 * s - 1);
    }
    if s > 1 {
      Pow2Step(8 * (s - 1) - 1);
    }
    BytesUnique(2 * x, s);
  }

  // ---------------------------------------------------------------- leading bytes

  /** The mantissa stays below the sign bit. */
  lemma MantissaFits(x: nat)
    ensures LeadingBytes(x, SizeOf(x)) < 0x80_0000
    ensures LeadingBytes(x, SizeOf(x)) == 0 <==> x == 0
  {
    hide Pow2, SizeOf;
    SizeBound(x);
    Pow2Known();
    var s := SizeOf(x);
    if x == 0 {
    } else if s <= 3 {
      Pow2Add(8 * s - 1, 8 * (3 - s));
      var p := Pow2(8 * (3 - s));
      MulMonotone(x + 1, Pow2(8 * s - 1), p);
      assert (x + 1) * p == x * p + p;
      MulMonotone(1, x, p);
    } else {
      var p := Pow2(8 * (s - 3));
      Pow2Add(23, 8 * (s - 3));
      QuotientBelow(x, p, 0x80_0000);
      Pow2Add(15, 8 * (s - 3));
      QuotientFrom(x, p, 0x8000);
    }
  }

  lemma QuotientBelow(x: nat, p: nat, m: nat)
    requires p > 0 && x < m * p
    ensures Quotient(x, p) < m
  {
  }

  lemma QuotientFrom(x: nat, p: nat, m: nat)
    requires p > 0 && m * p <= x
    ensures Quotient(x, p) >= m
  {
    var q := x / p;
    if q < m {
      MulMonotone(q + 1, m, p);
    }
  }

  /** Keeping the leading bytes keeps the size and the mantissa, and loses less than the last byte kept. */
  lemma LeadingKeeps(x: nat)
    ensures var s := SizeOf(x);
      && Leading(x, s) <= x < Leading(x, s) + Pow2(if s <= 3 then 0 else 8 * (s - 3))
      && SizeOf(Leading(x, s)) == s
      && LeadingBytes(Leading(x, s), s) == LeadingBytes(x, s)
  {
    hide Pow2, SizeOf;
    var s := SizeOf(x);
    SizeBound(x);
    Pow2Zero();
    if s > 3 {
      var p := Pow2(8 * (s - 3));
      var q := x / p;
      MulDiv(q, p);
      assert x == q * p + x % p;
      Pow2Add(15, 8 * (s - 3));
      QuotientFrom(x, p, Pow2(15));
      MulMonotone(Pow2(15), q, p);
      SizeUnique(q * p, s);
    }
  }

  // ---------------------------------------------------------------- SetCompact

  /** operator=(uint64_t) */
  method AssignWord(a: array<Limb>, b: nat)
    requires a.Length >= 2 && b < BASE * BASE
    modifies a
    ensures Val(a[..]) == b
  {
    a[0] := b % BASE;
    a[1] := b / BASE;
    for i := 2 to a.Length
      invariant a[0] == b % BASE && a[1] == b / BASE
      invariant forall j | 2 <= j < i :: a[j] == 0
    {
      a[i] := 0;
    }
    TwoLimbs(a[..], b);
  }

  lemma TwoLimbs(s: seq<Limb>, b: nat)
    requires |s| >= 2 && b < BASE * BASE && s[0] == b % BASE && s[1] == b / BASE
    requires forall j | 2 <= j < |s| :: s[j] == 0
    ensures Val(s) == b
  {
    var zero: seq<Limb> := seq(|s|, i => 0);
    ValZero(zero, |s|);
    ValZero(zero, 2);
    ValAbove(s, zero, 2, |s|);
    assert Place(1) == BASE && Place(0) == 1;
    assert ValTo(s, 2) == s[0] + s[1] * BASE by { assert ValTo(s, 1) == s[0]; }
  }

  /** The flag test: exactly the words whose meaning does not fit in 256 bits. */
  lemma OverflowTest(c: Word)
    ensures Meaning(c) >= Pow2(256) <==>
      && Mantissa(c) != 0
      && (Size(c) > 34 || (Mantissa(c) > 0xff && Size(c) > 33) || (Mantissa(c) > 0xffff && Size(c) > 32))
  {
    hide Pow2;
    Pow2Known();
    var (m, z) := (Mantissa(c), Size(c));
    if z <= 3 {
      Pow2Monotone(24, 256);
      Shrinks(m, Pow2(8 * (3 - z)));
    } else if m != 0 {
      var p := Pow2(8 * (z - 3));
      if z > 34 {
        Pow2Monotone(256, 8 * (z - 3));
        MulMonotone(1, m, p);
      } else if z == 34 {
        Pow2Add(8, 248);
        Compare(m, 0x100, p);
      } else if z == 33 {
        Pow2Add(16, 240);
        Compare(m, 0x1_0000, p);
      } else {
        Pow2Add(24, 8 * (z - 3));
        Compare(m, 0x100_0000, p);
        Pow2Monotone(8 * z, 256);
      }
    }
  }

  lemma Shrinks(m: nat, p: nat)
    requires p > 0
    ensures Quotient(m, p) <= m
  {
    MulMonotone(1, p, m / p);
    assert m == m / p * p + m % p;
    assert m / p * p == p * (m / p);
  }

  lemma Compare(m: nat, bound: nat, p: nat)
    requires p > 0
    ensures m >= bound <==> m * p >= bound * p
  {
  }

  method SetCompact(a: array<Limb>, c: Word) returns (negative: bool, overflow: bool)
    requires a.Length == WIDTH
    modifies a
    ensures Val(a[..]) == Meaning(c) % Pow2(256)
    ensures overflow <==> Meaning(c) >= Pow2(256)
    ensures negative <==> Meaning(c) != 0 && SignBit(c)
  {
    hide Pow2, Val, Meaning;
    OverflowTest(c);
    MeaningNonzero(c);
    PlaceIsPow2(WIDTH);
    var nSize := Size(c);
    var nWord := Mantissa(c);
    if nSize <= 3 {
      Shrinks(nWord, Pow2(8 * (3 - nSize)));
      nWord := Quotient(nWord, Pow2(8 * (3 - nSize)));
      AssignWord(a, nWord);
      ValLess(a[..]);
      SmallMod(nWord, Pow2(256));
    } else {
      AssignWord(a, nWord);
      ShiftLeftAssign(a, 8 * (nSize - 3));
    }
    negative := nWord != 0 && SignBit(c);
    overflow := nWord != 0 && (nSize > 34 || (nWord > 0xff && nSize > 33) || (nWord > 0xffff && nSize > 32));
  }

  lemma MeaningNonzero(c: Word)
    ensures Size(c) <= 3 ==> Meaning(c) == Quotient(Mantissa(c), Pow2(8 * (3 - Size(c))))
    ensures Size(c) > 3 ==>
      Meaning(c) == Mantissa(c) * Pow2(8 * (Size(c) - 3)) && (Meaning(c) == 0 <==> Mantissa(c) == 0)
  {
  }

  // ---------------------------------------------------------------- GetCompact

  /** The compact form of x: size byte, sign, leading bytes. */
  ghost function Encoded(x: nat, negative: bool): nat {
    SizeOf(x) * 0x100_0000 + LeadingBytes(x, SizeOf(x)) + (if negative && x != 0 then 0x80_0000 else 0)
  }

  /** The first attempt at a size, by whole bytes, and the correction when the sign bit is taken. */
  lemma FirstSize(v: nat)
    ensures var (z, m) := (Bytes(v), LeadingBytes(v, Bytes(v)));
      && m < 0x100_0000
      && (m < 0x80_0000 ==> SizeOf(v) == z)
      && (m >= 0x80_0000 ==> SizeOf(v) == z + 1 && LeadingBytes(v, z + 1) == m / 256)
  {
    hide Pow2, Bytes, SizeOf;
    BytesBound(v);
    NoBytes();
    Pow2Known();
    var z := Bytes(v);
    if v > 0 {
      var t := Pow2(8 * z - 1);
      Pow2Step(8 * z - 1);
      SizeFrom(v, z);
      if z <= 3 {
        var p := Pow2(8 * (3 - z));
        Pow2Add(8 * z, 8 * (3 - z));
        Pow2Add(8 * z - 1, 8 * (3 - z));
        Compare(v, 2 * t, p);
        Compare(v, t, p);
        NextBytesSmall(v, z);
      } else {
        var p := Pow2(8 * (z - 3));
        Pow2Add(23, 8 * (z - 3));
        Pow2Add(24, 8 * (z - 3));
        QuotientBelow(v, p, 0x100_0000);
        if v < t {
          QuotientBelow(v, p, 0x80_0000);
        } else {
          QuotientFrom(v, p, 0x80_0000);
        }
        Pow2Add(8 * (z - 3), 8);
        DivDiv(v, p, 256);
      }
    } else {
      assert SizeOf(0) == 0 by { SizeBound(0); }
    }
  }

  lemma SizeFrom(v: nat, z: nat)
    requires v > 0 && z > 0 && v < Pow2(8 * z) && Pow2(8 * (z - 1)) <= v
    ensures SizeOf(v) == if v < Pow2(8 * z - 1) then z else z + 1
  {
    hide Pow2, SizeOf;
    if v < Pow2(8 * z - 1) {
      if z > 1 {
        Pow2Monotone(8 * (z - 1) - 1, 8 * (z - 1));
      }
      SizeUnique(v, z);
    } else {
      Pow2Monotone(8 * z, 8 * (z + 1) - 1);
      SizeUnique(v, z + 1);
    }
  }

  lemma NextBytesSmall(v: nat, z: nat)
    requires z <= 3
    ensures LeadingBytes(v, z + 1) == LeadingBytes(v, z) / 256
  {
    hide Pow2;
    Pow2Known();
    Pow2Zero();
    if z < 3 {
      var p := Pow2(8 * (2 - z));
      Pow2Add(8 * (2 - z), 8);
      assert v * (p * 256) == v * p * 256;
      MulDiv(v * p, 256);
    }
  }

  /** GetLow64() */
  method LowWord(a: array<Limb>) returns (r: nat)
    requires a.Length >= 2
    ensures r == Val(a[..]) % (BASE * BASE)
  {
    r := a[0] + a[1] * BASE;
    LowLimbs(a[..]);
  }

  lemma LowLimbs(s: seq<Limb>)
    requires |s| >= 2
    ensures s[0] + s[1] * BASE == Val(s) % (BASE * BASE)
  {
    ValSplit(s, 2, |s|);
    ValBound(s, 2);
    var rest := ValTo(s[2..], |s| - 2);
    assert Place(1) == BASE && Place(0) == 1;
    assert Place(2) == BASE * BASE;
    assert ValTo(s, 1) == s[0];
    ReducedIs(ValTo(s, 2), Val(s), rest, BASE * BASE);
  }

  /** The leading bytes, read off by shifting. */
  method LeadingWord(a: array<Limb>, nSize: nat) returns (nCompact: nat)
    requires a.Length == WIDTH && nSize == Bytes(Val(a[..]))
    ensures nCompact == LeadingBytes(Val(a[..]), nSize)
  {
    hide Pow2, Val, SizeOf, LeadingBytes, Bytes;
    ghost var v := Val(a[..]);
    FirstSize(v);
    LeadingIs(v, nSize);
    if nSize <= 3 {
      var low := LowWord(a);
      SmallBytes(v);
      SmallMod(v, BASE * BASE);
      nCompact := low * Pow2(8 * (3 - nSize)) % BASE;
      SmallMod(v * Pow2(8 * (3 - nSize)), BASE);
    } else {
      var bn := Copy(a);
      ShiftRightAssign(bn, 8 * (nSize - 3));
      var low := LowWord(bn);
      SmallMod(v / Pow2(8 * (nSize - 3)), BASE * BASE);
      nCompact := low % BASE;
      SmallMod(v / Pow2(8 * (nSize - 3)), BASE);
    }
  }

  lemma SmallBytes(v: nat)
    requires Bytes(v) <= 3
    ensures v < BASE * BASE
  {
    hide Pow2, Bytes;
    BytesBound(v);
    Pow2Monotone(8 * Bytes(v), 24);
    Pow2Known();
  }

  /** The asserts of the source hold on the way: the mantissa is below the sign bit and the size fits a byte. */
  method GetCompact(a: array<Limb>, fNegative: bool) returns (c: Word)
    requires a.Length == WIDTH
    ensures c == Encoded(Val(a[..]), fNegative)
  {
    hide Pow2, Val, Or, SizeOf, LeadingBytes, Bytes;
    ghost var v := Val(a[..]);
    var r := BitLength(a);
    var nSize := (r + 7) / 8;
    ByteLength(v, r);
    FirstSize(v);
    MantissaFits(v);
    var nCompact := LeadingWord(a, nSize);
    if nCompact / 0x80_0000 % 2 == 1 {
      nCompact := nCompact / 256;
      nSize := nSize + 1;
    }
    assert nCompact < 0x80_0000 && nSize < 256;
    Packed(nCompact, nSize);
    nCompact := Or(nCompact, nSize * 0x100_0000);
    c := Or(nCompact, if fNegative && nCompact % 0x80_0000 != 0 then 0x80_0000 else 0);
  }

  lemma ByteLength(v: nat, r: nat)
    requires r <= 256 && v < Pow2(r) && (r == 0 || Pow2(r - 1) <= v)
    ensures Bytes(v) == (r + 7) / 8 <= 32
  {
    hide Pow2, Bytes;
    var z := (r + 7) / 8;
    Pow2Monotone(r, 8 * z);
    if r > 0 {
      Pow2Monotone(8 * (z - 1), r - 1);
    }
    BytesUnique(v, z);
  }

  lemma LeadingIs(v: nat, z: nat)
    ensures z <= 3 ==> LeadingBytes(v, z) == v * Pow2(8 * (3 - z))
    ensures z > 3 ==> LeadingBytes(v, z) == v / Pow2(8 * (z - 3))
  {
  }

  lemma Packed(m: nat, z: nat)
    requires m < 0x80_0000 && z < 256
    ensures Or(m, z * 0x100_0000) == m + z * 0x100_0000
    ensures Or(m + z * 0x100_0000, 0x80_0000) == m + z * 0x100_0000 + 0x80_0000
    ensures Or(m + z * 0x100_0000, 0) == m + z * 0x100_0000
  {
    hide Or, Pow2;
    Pow2Known();
    OrDisjoint(z * 0x100_0000, m, 24);
    OrBit(m + z * 0x100_0000, 23);
    OrZero(m + z * 0x100_0000);
  }

  // ---------------------------------------------------------------- the round trip

  /** Every number of 256 bits has a compact form. */
  lemma EncodedParts(x: nat, negative: bool)
    requires x < Pow2(256)
    ensures var c := Encoded(x, negative);
      c < 0x1_0000_0000 && Size(c) == SizeOf(x) <= 33 && Mantissa(c) == LeadingBytes(x, SizeOf(x)) &&
      (SignBit(c) <==> negative && x != 0)
  {
    hide Pow2, SizeOf, LeadingBytes;
    MantissaFits(x);
    SizeBound(x);
    if SizeOf(x) > 33 {
      Pow2Monotone(256, 8 * (SizeOf(x) - 1) - 1);
    }
  }

  /**
   Decoding the compact form of x gives x cut to its leading bytes, keeps the sign, does not overflow, and
   encodes to the same word again.
  */
  lemma RoundTrip(x: nat, negative: bool)
    requires x < Pow2(256)
    ensures var c := Encoded(x, negative);
      && c < 0x1_0000_0000
      && Meaning(c) == Leading(x, SizeOf(x)) <= x
      && Meaning(c) < Pow2(256)
      && x - Meaning(c) < Pow2(if SizeOf(x) <= 3 then 0 else 8 * (SizeOf(x) - 3))
      && (Meaning(c) != 0 && SignBit(c) <==> negative && x != 0)
      && Encoded(Meaning(c), negative) == c
  {
    hide Pow2, SizeOf, LeadingBytes, Leading;
    EncodedParts(x, negative);
    LeadingKeeps(x);
    MantissaMeans(x, SizeOf(x));
    SizeBound(x);
    SizeBound(Leading(x, SizeOf(x)));
  }

  lemma MantissaMeans(x: nat, z: nat)
    ensures z <= 3 ==> Quotient(LeadingBytes(x, z), Pow2(8 * (3 - z))) == Leading(x, z)
    ensures z > 3 ==> LeadingBytes(x, z) * Pow2(8 * (z - 3)) == Leading(x, z)
  {
    hide Pow2;
    if z <= 3 {
      MulDiv(x, Pow2(8 * (3 - z)));
    }
  }

  // ---------------------------------------------------------------- block trust

  /** GetBlockTrust: the number of hashes a target stands for, in closed form. */
  ghost function Trust(nBits: Word, proofOfStake: bool): nat {
    var target := Meaning(nBits);
    if target == 0 || SignBit(nBits) || target >= Pow2(256) then 0
    else if proofOfStake then Pow2(256) / (target + 1)
    else 1
  }

  method GetBlockTrust(nBits: Word, proofOfStake: bool) returns (trust: array<Limb>)
    ensures trust.Length == WIDTH && Val(trust[..]) == Trust(nBits, proofOfStake)
  {
    hide Pow2, Val, Meaning, Place;
    var bnTarget := new Limb[WIDTH];
    var fNegative, fOverflow := SetCompact(bnTarget, nBits);
    trust := new Limb[WIDTH];
    var zero := new Limb[WIDTH];
    AssignWord(zero, 0);
    var c := CompareTo(bnTarget, zero);
    ghost var t := Meaning(nBits);
    if !fOverflow {
      SmallMod(t, Pow2(256));
    }
    if fNegative || fOverflow || c == 0 {
      AssignWord(trust, 0);
      return;
    }
    AssignWord(trust, 1);
    if !proofOfStake {
      return;
    }
    PlaceIsPow2(WIDTH);
    TargetNotFull(nBits);
    SmallMod(t + 1, Pow2(256));
    var not := Complement(bnTarget);
    var next := Copy(bnTarget);
    AddAssign(next, trust);
    var ok := DivAssign(not, next);
    AddAssign(trust, not);
    ClosedForm(t, Pow2(256));
  }

  /** A compact target plus one never wraps around. */
  lemma TargetNotFull(c: Word)
    ensures Meaning(c) + 1 != Pow2(256)
  {
    hide Pow2;
    Pow2Known();
    Pow2Add(8, 248);
    assert Pow2(256) % 256 == 0 by {
      assert 256 * Pow2(248) == Pow2(248) * 256;
      MulDiv(Pow2(248), 256);
    }
    var (m, z) := (Mantissa(c), Size(c));
    if z <= 3 {
      Shrinks(m, Pow2(8 * (3 - z)));
      Pow2Monotone(24, 256);
    } else {
      var p := Pow2(8 * (z - 4));
      Pow2Add(8 * (z - 4), 8);
      assert m * (p * 256) == m * p * 256;
      MulDiv(m * p, 256);
    }
  }

  lemma ClosedForm(t: nat, m: nat)
    requires 0 < t < t + 1 < m
    ensures (m - 1 - t) / (t + 1) + 1 == m / (t + 1)
    ensures (1 + (m - 1 - t) / (t + 1)) % m == m / (t + 1)
  {
    ModAdd(m - 1 - t, t + 1, 1);
    var q := m / (t + 1);
    assert q * (t + 1) <= m;
    if q >= m {
      MulMonotone(m, q, t + 1);
      MulMonotone(2, t + 1, m);
      assert false;
    }
    SmallMod(q, m);
  }
}
