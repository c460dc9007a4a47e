/**
 The heights CBlockIndex::BuildSkip points back to, and the walk CBlockIndex::GetAncestor makes over them
 (src/chain.cpp), seen as a walk on heights alone. The walk is short: below 2^18 it takes at most 110 steps,
 the figure the source gives, and for L bits it takes about L * L / 4.
*/
module SkipHeights {
  import opened Bits

  // ---------------------------------------------------------------- skip heights

  /** n & (n - 1); 0 & -1 is 0. */
  function InvertLowestOne(n: nat): nat {
    if n == 0 then 0 else And(n, n - 1)
  }

  lemma {:induction false} AndBound(x: nat, y: nat)
    ensures And(x, y) <= x && And(x, y) <= y
    decreases x + y
  {
    if x != 0 || y != 0 {
      AndBound(x / 2, y / 2);
    }
  }

  lemma {:induction false} AndSelf(x: nat)
    ensures And(x, x) == x
  {
    if x > 0 {
      AndSelf(x / 2);
    }
  }

  /** It clears the lowest set bit and nothing else. */
  lemma {:induction false} InvertsLowest(k: nat, m: nat)
    ensures InvertLowestOne(Pow2(k) * (2 * m + 1)) == Pow2(k) * (2 * m)
  {
    hide And, InvertLowestOne;
    if k == 0 {
      InvertOdd(m);
    } else {
      InvertsLowest(k - 1, m);
      var p := Pow2(k - 1);
      MulMonotone(1, 2 * m + 1, p);
      InvertEven(p * (2 * m + 1));
      MulAssoc(2, p, 2 * m + 1);
      MulAssoc(2, p, 2 * m);
    }
  }

  lemma InvertOdd(m: nat)
    ensures InvertLowestOne(2 * m + 1) == 2 * m
  {
    assert And(2 * m + 1, 2 * m) == 2 * And(m, m);
    AndSelf(m);
  }

  lemma InvertEven(a: nat)
    requires a >= 1
    ensures InvertLowestOne(2 * a) == 2 * InvertLowestOne(a)
  {
  }

  lemma InvertBound(n: nat)
    ensures InvertLowestOne(n) <= n && (n >= 1 ==> InvertLowestOne(n) < n)
  {
    if n >= 1 {
      AndBound(n, n - 1);
    }
  }

  function GetSkipHeight(height: nat): (r: nat)
    ensures height >= 1 ==> r < height
    ensures height == 0 ==> r == 0
  {
    if height < 2 then 0
    else
      InvertBound(height);
      InvertBound(height - 1);
      InvertBound(InvertLowestOne(height - 1));
      if height % 2 == 1 then InvertLowestOne(InvertLowestOne(height - 1)) + 1 else InvertLowestOne(height)
  }

  // ---------------------------------------------------------------- the walk

  /** Where the loop of GetAncestor goes from height h on its way to height t. */
  function NextHeight(h: nat, t: nat): (r: nat)
    requires t < h
    ensures t <= r < h
  {
    var s, sp := GetSkipHeight(h), GetSkipHeight(h - 1);
    if s == t || (s > t && !(sp < s - 2 && sp >= t)) then s else h - 1
  }

  function Steps(h: nat, t: nat): nat
    requires t <= h
    decreases h
  {
    if h == t then 0 else 1 + Steps(NextHeight(h, t), t)
  }

  /** How often the lowest set bit can be cleared: the number of ones. */
  function Clears(x: nat): nat {
    InvertBound(x);
    if x == 0 then 0 else 1 + Clears(InvertLowestOne(x))
  }

  lemma OddStep(h: nat, t: nat)
    requires h % 2 == 1 && h >= 3 && t < h
    ensures GetSkipHeight(h) == InvertLowestOne(InvertLowestOne(h - 1)) + 1
    ensures NextHeight(h, t) == if GetSkipHeight(h) >= t then GetSkipHeight(h) else h - 1
  {
    hide InvertLowestOne;
    InvertBound(InvertLowestOne(h - 1));
  }

  lemma {:induction false} ClearsEven(x: nat)
    ensures Clears(2 * x) == Clears(x)
  {
    hide InvertLowestOne;
    if x > 0 {
      InvertBound(x);
      InvertEven(x);
      ClearsEven(InvertLowestOne(x));
    }
  }

  lemma ClearsOdd(x: nat)
    ensures Clears(2 * x + 1) == Clears(x) + 1
  {
    hide InvertLowestOne;
    InvertOdd(x);
    ClearsEven(x);
  }

  lemma {:induction false} ClearsBound(x: nat, i: nat)
    requires x < Pow2(i)
    ensures Clears(x) <= i
  {
    hide InvertLowestOne;
    if i > 0 && x > 0 {
      ClearsBound(x / 2, i - 1);
      if x % 2 == 0 {
        ClearsEven(x / 2);
      } else {
        ClearsOdd(x / 2);
      }
    }
  }

  // ---------------------------------------------------------------- the two halves of a block of heights

  /** Heights from b on, 2^i of them, are the upper half of an aligned block whose lower half starts at a. */
  ghost predicate Halves(i: nat, a: nat, b: nat) {
    && b == a + Pow2(i)
    && InvertLowestOne(b) == a
    && (forall x | 0 < x < Pow2(i) :: InvertLowestOne(b + x) == b + InvertLowestOne(x))
    && (i >= 1 ==> b % 2 == 0)
    && (i >= 3 ==> b % 8 == 0)
  }

  lemma {:induction false} InvertWithin(i: nat, m: nat, x: nat)
    requires 0 < x < Pow2(i)
    ensures InvertLowestOne(Pow2(i) * m + x) == Pow2(i) * m + InvertLowestOne(x)
  {
    hide InvertLowestOne;
    var p := Pow2(i - 1);
    MulAssoc(2, p, m);
    assert Pow2(i) * m + x == 2 * (p * m) + x;
    if x % 2 == 0 {
      InvertWithin(i - 1, m, x / 2);
      InvertEven(p * m + x / 2);
      InvertEven(x / 2);
    } else {
      InvertOdd(p * m + x / 2);
      InvertOdd(x / 2);
    }
  }

  lemma HalvesAre(i: nat, q: nat)
    ensures Halves(i, Pow2(i) * (2 * q), Pow2(i) * (2 * q + 1))
  {
    hide InvertLowestOne, Pow2;
    var b := Pow2(i) * (2 * q + 1);
    InvertsLowest(i, q);
    MulDistribute(Pow2(i), 2 * q, 1);
    forall x | 0 < x < Pow2(i) ensures InvertLowestOne(b + x) == b + InvertLowestOne(x) {
      InvertWithin(i, 2 * q + 1, x);
    }
    if i >= 1 {
      Multiple(i, 1, 2 * q + 1);
    }
    if i >= 3 {
      Multiple(i, 3, 2 * q + 1);
    }
  }

  lemma Multiple(i: nat, k: nat, m: nat)
    requires k <= i
    ensures Pow2(1) == 2 && Pow2(3) == 8 && Pow2(i) * m % Pow2(k) == 0
  {
    Pow2Add(k, i - k);
    MultipleOf(Pow2(k), Pow2(i - k), m);
  }

  lemma MultipleOf(d: nat, p: nat, m: nat)
    requires d > 0
    ensures (d * p) * m % d == 0
  {
    MulAssoc(d, p, m);
    DivModUnique(d * p * m, d, p * m, 0);
  }

  lemma MulDistribute(p: int, x: int, y: int)
    ensures p * (x + y) == p * x + p * y
  {
  }

  /** Two bits cleared from a height in the upper half: it stays there or is at or below the lower half's start. */
  lemma TwiceCleared(i: nat, a: nat, b: nat, z: nat)
    requires Halves(i, a, b) && z < Pow2(i)
    ensures var r := InvertLowestOne(InvertLowestOne(b + z));
      if Clears(z) >= 2 then r == b + InvertLowestOne(InvertLowestOne(z)) else r <= a
  {
    hide InvertLowestOne;
    InvertBound(a);
    if z > 0 {
      InvertBound(z);
      var y := InvertLowestOne(z);
      assert InvertLowestOne(b + z) == b + y;
      assert Clears(z) == 1 + Clears(y);
      if y > 0 {
        assert InvertLowestOne(b + y) == b + InvertLowestOne(y);
        assert Clears(y) >= 1;
      }
    }
  }

  /** From the upper half's first height the walk reaches the last height of the lower half, or its goal. */
  lemma FirstOfHalf(i: nat, a: nat, b: nat, t: nat)
    requires Halves(i, a, b) && i >= 1 && a <= t < b
    ensures Steps(b, t) == if t == a then 1 else 1 + Steps(b - 1, t)
  {
    hide InvertLowestOne;
    assert GetSkipHeight(b) == a;
  }

  ghost function Rest(b: nat, t: nat): nat
    requires t < b
  {
    if Steps(b - 1, t) == 0 then 1 else Steps(b - 1, t)
  }

  lemma NextDoor(h: nat, t: nat)
    requires t <= h <= t + 1
    ensures Steps(h, t) <= 1
  {
  }

  lemma SkipIs(u: nat)
    requires u >= 1
    ensures GetSkipHeight(2 * u) == InvertLowestOne(2 * u)
    ensures GetSkipHeight(2 * u + 1) == InvertLowestOne(InvertLowestOne(2 * u)) + 1
  {
    hide InvertLowestOne;
    DivModUnique(2 * u, 2, u, 0);
    DivModUnique(2 * u + 1, 2, u, 1);
  }

  lemma NoClears()
    ensures Clears(0) == 0
  {
  }

  lemma ClearsDown(y: nat)
    requires y > 0
    ensures Clears(y) == 1 + Clears(InvertLowestOne(y))
    ensures Clears(y) <= 1 ==> InvertLowestOne(y) == 0 && Clears(y) == 1
  {
    hide InvertLowestOne;
  }

  lemma HalvesGive(i: nat, a: nat, b: nat, x: nat)
    requires Halves(i, a, b) && i >= 1 && x < Pow2(i)
    ensures b >= 2 && b % 2 == 0 && (x > 0 ==> InvertLowestOne(b + x) == b + InvertLowestOne(x))
  {
    hide InvertLowestOne;
  }

  lemma EvenSkip(i: nat, a: nat, b: nat, y: nat)
    requires Halves(i, a, b) && i >= 1 && 0 < y < Pow2(i) && y % 2 == 0
    ensures InvertLowestOne(y) < y && GetSkipHeight(b + y) == b + InvertLowestOne(y)
    ensures b + y >= 4 && (b + y) % 2 == 0
    ensures GetSkipHeight(b + y - 1) == InvertLowestOne(InvertLowestOne(b + y - 2)) + 1
  {
    hide InvertLowestOne, GetSkipHeight, Halves, Pow2;
    HalvesGive(i, a, b, y);
    InvertBound(y);
    var u := b / 2 + y / 2;
    DivModUnique(b + y, 2, u, 0);
    SkipIs(u);
    SkipIs(u - 1);
  }

  /** The two things the walk can do at an even height above the goal's reach. */
  lemma EvenWalk(h: nat, t: nat)
    requires h % 2 == 0 && h >= 4 && GetSkipHeight(h) > t
    ensures var (s, sp) := (GetSkipHeight(h), GetSkipHeight(h - 1));
      Steps(h, t) == if sp < s - 2 && sp >= t then 2 + Steps(sp, t) else 1 + Steps(s, t)
  {
    hide InvertLowestOne, GetSkipHeight;
    OddStep(h - 1, t);
    assert Steps(h, t) == 1 + Steps(NextHeight(h, t), t);
    assert Steps(h - 1, t) == 1 + Steps(NextHeight(h - 1, t), t);
  }

  /** An even height of the upper half with at most one bit to clear. */
  lemma EvenSmall(i: nat, a: nat, b: nat, y: nat, t: nat)
    requires Halves(i, a, b) && i >= 1 && a <= t < b && y < Pow2(i) && y % 2 == 0 && Clears(y) <= 1
    ensures Steps(b + y, t) <= Clears(y) + 1 + Rest(b, t)
    ensures t >= a + 2 ==> Steps(b + y, t) == Clears(y) + 1 + Steps(b - 1, t)
  {
    hide InvertLowestOne, Steps, GetSkipHeight, Halves, Pow2, Clears;
    FirstOfHalf(i, a, b, t);
    if y == 0 {
      NoClears();
    } else {
      EvenSkip(i, a, b, y);
      ClearsDown(y);
      EvenWalk(b + y, t);
      TwiceCleared(i, a, b, y - 2);
      var sp := GetSkipHeight(b + y - 1);
      if t <= sp <= a + 1 {
        NextDoor(sp, t);
      }
    }
  }

  lemma InvertMultiple(k: nat, y: nat)
    requires 0 < y && y % Pow2(k) == 0
    ensures InvertLowestOne(y) % Pow2(k) == 0 && InvertLowestOne(y) + Pow2(k) <= y
  {
    hide InvertLowestOne;
    if k == 0 {
      InvertBound(y);
    } else {
      var p := Pow2(k - 1);
      Halved(y, p);
      InvertMultiple(k - 1, y / 2);
      InvertEven(y / 2);
      Doubled(InvertLowestOne(y / 2), p);
    }
  }

  lemma Halved(y: nat, p: nat)
    requires p > 0 && y % (2 * p) == 0
    ensures y % 2 == 0 && y / 2 % p == 0
  {
    var q := y / (2 * p);
    MulAssoc(2, p, q);
    assert y == 2 * (p * q);
    DivModUnique(y / 2, p, q, 0);
  }

  lemma Doubled(y: nat, p: nat)
    requires p > 0 && y % p == 0
    ensures 2 * y % (2 * p) == 0
  {
    var q := y / p;
    MulAssoc(2, p, q);
    DivModUnique(2 * y, 2 * p, q, 0);
  }

  lemma OddSkip(i: nat, a: nat, b: nat, x: nat)
    requires Halves(i, a, b) && i >= 1 && x < Pow2(i) && x % 2 == 1
    ensures b + x >= 3 && (b + x) % 2 == 1
  {
    hide InvertLowestOne, Halves, Pow2;
    HalvesGive(i, a, b, x);
    DivModUnique(b + x, 2, b / 2 + x / 2, 1);
  }

  lemma OddLanding(x: nat)
    requires x % 2 == 1 && Clears(x - 1) >= 2
    ensures var z := InvertLowestOne(InvertLowestOne(x - 1));
      z + 1 < x && z % 2 == 0 && Clears(z) == Clears(x - 1) - 2
  {
    hide InvertLowestOne;
    EvenStays(x - 1);
    ClearsDown(x - 1);
    ClearsDown(InvertLowestOne(x - 1));
    EvenStays(InvertLowestOne(x - 1));
  }

  lemma StepsUnfold(h: nat, t: nat)
    requires t < h
    ensures Steps(h, t) == 1 + Steps(NextHeight(h, t), t)
  {
  }

  /** From an odd height of the upper half: two bits a step, then a last few steps. */
  lemma {:induction false} OddWalk(i: nat, a: nat, b: nat, x: nat, t: nat)
    requires Halves(i, a, b) && i >= 1 && a <= t < b && x < Pow2(i) && x % 2 == 1
    ensures Steps(b + x, t) <= (Clears(x - 1) + 1) / 2 + 2 + Rest(b, t)
    ensures t >= a + 2 ==> Steps(b + x, t) == (Clears(x - 1) + 1) / 2 + 2 + Steps(b - 1, t)
  {
    hide InvertLowestOne, Steps, GetSkipHeight, NextHeight, Halves, Pow2, Clears;
    OddSkip(i, a, b, x);
    OddStep(b + x, t);
    StepsUnfold(b + x, t);
    TwiceCleared(i, a, b, x - 1);
    if Clears(x - 1) >= 2 {
      OddLanding(x);
      OddWalk(i, a, b, InvertLowestOne(InvertLowestOne(x - 1)) + 1, t);
    } else if GetSkipHeight(b + x) >= t {
      NextDoor(GetSkipHeight(b + x), t);
    } else {
      EvenSmall(i, a, b, x - 1, t);
    }
  }

  lemma SixCleared(w: nat)
    ensures InvertLowestOne(InvertLowestOne(8 * w + 6)) == 8 * w
  {
    hide InvertLowestOne;
    InvertEven(4 * w + 3);
    InvertOdd(2 * w + 1);
    InvertEven(4 * w + 2);
    InvertEven(2 * w + 1);
    InvertOdd(w);
  }

  lemma EightSkip(h: nat)
    requires h > 0 && h % 8 == 0
    ensures GetSkipHeight(h - 1) >= GetSkipHeight(h) == InvertLowestOne(h)
  {
    hide InvertLowestOne, GetSkipHeight;
    var w := h / 8 - 1;
    EightsStay(h);
    SixCleared(w);
    SkipIs(4 * w + 3);
    SkipIs(4 * w + 4);
  }

  /** From a multiple of eight in the upper half: one bit a step. */
  lemma {:induction false} EightsWalk(i: nat, a: nat, b: nat, y: nat, t: nat)
    requires Halves(i, a, b) && i >= 3 && a <= t < b && y < Pow2(i) && y % 8 == 0
    ensures Steps(b + y, t) == Clears(y) + Steps(b, t)
  {
    hide InvertLowestOne, Steps, GetSkipHeight, Pow2, Clears;
    if y == 0 {
      NoClears();
    } else {
      EvenSkip(i, a, b, y);
      ClearsDown(y);
      EightSkip(b + y);
      EvenWalk(b + y, t);
      EightsStay(y);
      EightsWalk(i, a, b, InvertLowestOne(y), t);
    }
  }

  lemma EightsStay(y: nat)
    requires 0 < y && y % 8 == 0
    ensures InvertLowestOne(y) % 8 == 0 && InvertLowestOne(y) + 8 <= y
  {
    hide InvertLowestOne;
    assert Pow2(3) == 8;
    InvertMultiple(3, y);
  }

  /** The other even heights: the walk goes by way of the odd height below, unless it is almost there. */
  lemma OtherEven(i: nat, y: nat)
    requires 0 < y < Pow2(i) && y % 2 == 0 && y % 8 != 0
    ensures i >= 2 && Clears(y - 2) <= i - 2 && Clears(y) <= Clears(y - 2) + 1
    ensures Clears(y - 2) >= 2 ==>
      InvertLowestOne(InvertLowestOne(y - 2)) + 1 < InvertLowestOne(y) - 2
  {
    hide InvertLowestOne, Clears;
    assert i >= 2;
    hide Pow2;
    if y % 4 == 2 {
      assert y == 4 * (y / 4) + 2;
      OtherTwo(i, y / 4);
    } else {
      assert y == 8 * (y / 8) + 4;
      OtherFour(i, y / 8);
    }
  }

  lemma OtherTwo(i: nat, u: nat)
    requires i >= 2 && 4 * u + 2 < Pow2(i)
    ensures Clears(4 * u) <= i - 2 && Clears(4 * u + 2) == Clears(4 * u) + 1
    ensures Clears(4 * u) >= 2 ==>
      InvertLowestOne(InvertLowestOne(4 * u)) + 1 < InvertLowestOne(4 * u + 2) - 2
  {
    hide InvertLowestOne;
    assert u < Pow2(i - 2);
    ClearsEven(2 * u);
    ClearsEven(u);
    ClearsBound(u, i - 2);
    ClearsEven(2 * u + 1);
    ClearsOdd(u);
    InvertEven(2 * u + 1);
    InvertOdd(u);
    if u > 0 {
      assert Pow2(2) == 4;
      InvertMultiple(2, 4 * u);
      InvertBound(InvertLowestOne(4 * u));
    }
  }

  lemma OtherFour(i: nat, u: nat)
    requires i >= 2 && 8 * u + 4 < Pow2(i)
    ensures Clears(8 * u + 2) <= i - 2 && Clears(8 * u + 4) == Clears(8 * u + 2)
    ensures Clears(8 * u + 2) >= 2 ==>
      InvertLowestOne(InvertLowestOne(8 * u + 2)) + 1 < InvertLowestOne(8 * u + 4) - 2
  {
    hide InvertLowestOne;
    assert i >= 3 && Pow2(3) == 8;
    Pow2Add(3, i - 3);
    ClearsBound(u, i - 3);
    ClearsEven(4 * u + 1);
    ClearsOdd(2 * u);
    ClearsEven(u);
    ClearsEven(4 * u + 2);
    ClearsEven(2 * u + 1);
    ClearsOdd(u);
    InvertEven(4 * u + 1);
    InvertOdd(2 * u);
    InvertEven(4 * u + 2);
    InvertEven(2 * u + 1);
    InvertOdd(u);
    if u > 0 {
      assert Pow2(3) == 8;
      InvertMultiple(3, 8 * u);
    }
  }

  lemma OtherEvenWalk(i: nat, a: nat, b: nat, y: nat, t: nat)
    requires Halves(i, a, b) && i >= 1 && a <= t < b && 0 < y < Pow2(i) && y % 2 == 0 && y % 8 != 0
    ensures Steps(b + y, t) <= (i + 1) / 2 + 2 + Rest(b, t)
  {
    hide InvertLowestOne, Steps, GetSkipHeight, Halves, Pow2, Clears;
    OtherEven(i, y);
    EvenSkip(i, a, b, y);
    ClearsDown(y);
    EvenWalk(b + y, t);
    TwiceCleared(i, a, b, y - 2);
    var sp := GetSkipHeight(b + y - 1);
    if Clears(y - 2) >= 2 {
      OddLanding(y - 1);
      OddWalk(i, a, b, InvertLowestOne(InvertLowestOne(y - 2)) + 1, t);
    } else if t <= sp {
      NextDoor(sp, t);
      EvenStays(y);
      EvenSmall(i, a, b, InvertLowestOne(y), t);
    } else {
      EvenStays(y);
      EvenSmall(i, a, b, InvertLowestOne(y), t);
    }
  }

  lemma EvenStays(y: nat)
    requires 0 < y && y % 2 == 0
    ensures InvertLowestOne(y) % 2 == 0 && InvertLowestOne(y) + 2 <= y
  {
    hide InvertLowestOne;
    assert Pow2(1) == 2;
    InvertMultiple(1, y);
  }

  // ---------------------------------------------------------------- how long the walk is

  /** The steps it takes to leave the upper half of a block of 2^(i + 1) heights. */
  function Hurdle(i: nat): int {
    if i - 2 >= (i + 1) / 2 + 2 then i - 2 else (i + 1) / 2 + 2
  }

  lemma UpperHalf(i: nat, a: nat, b: nat, x: nat, t: nat)
    requires Halves(i, a, b) && a <= t < b && x < Pow2(i)
    ensures Steps(b + x, t) <= Hurdle(i) + Rest(b, t)
  {
    hide InvertLowestOne, Steps, Clears, Halves;
    if i == 0 {
      assert b == a + 1 by { HalvesLength(i, a, b); }
      NextDoor(b, t);
    } else if x % 2 == 1 {
      OddWalk(i, a, b, x, t);
      ClearsEven(x / 2);
      ClearsBound(x / 2, i - 1);
    } else if x % 8 != 0 {
      OtherEvenWalk(i, a, b, x, t);
    } else {
      FirstOfHalf(i, a, b, t);
      if x > 0 {
        if i < 3 {
          Pow2Monotone(i, 3);
        }
        EightsBound(i, x);
        EightsWalk(i, a, b, x, t);
      }
    }
  }

  lemma HalvesLength(i: nat, a: nat, b: nat)
    requires Halves(i, a, b)
    ensures b == a + Pow2(i)
  {
    hide InvertLowestOne;
  }

  lemma EightsBound(i: nat, x: nat)
    requires i >= 3 && 0 < x < Pow2(i) && x % 8 == 0
    ensures Clears(x) <= i - 3
  {
    hide InvertLowestOne, Clears;
    var u := x / 8;
    assert u < Pow2(i - 3) by {
      assert Pow2(3) == 8;
      Pow2Add(3, i - 3);
    }
    hide Pow2;
    ClearsEven(4 * u);
    ClearsEven(2 * u);
    ClearsEven(u);
    ClearsBound(u, i - 3);
  }

  /** The steps from the last height of a block of 2^n heights, all of whose low bits are set. */
  function AllOnes(n: nat): nat {
    if n <= 2 then n else if n == 3 then 4 else AllOnes(n - 1) + (n + 1) / 2 + 1
  }

  lemma LastOfFour(m: nat, t: nat)
    requires 4 * m <= t <= 4 * m + 3
    ensures Steps(4 * m + 3, t) <= 2
  {
    hide InvertLowestOne, Steps, GetSkipHeight, NextHeight;
    if t >= 4 * m + 2 {
      NextDoor(4 * m + 3, t);
    } else {
      TwoAbove(m, t);
      DivModUnique(4 * m + 3, 2, 2 * m + 1, 1);
      FromLastOfFour(4 * m + 3, m, t);
    }
  }

  lemma FromLastOfFour(h: nat, m: nat, t: nat)
    requires h == 4 * m + 3 && h % 2 == 1 && 4 * m <= t <= 4 * m + 1 && Steps(h - 1, t) == 1
    ensures Steps(h, t) <= 2
  {
    hide InvertLowestOne, GetSkipHeight, Steps, NextHeight;
    OddStep(h, t);
    FourCleared(m);
    StepsUnfold(h, t);
    if NextHeight(h, t) != h - 1 {
      NextDoor(NextHeight(h, t), t);
    }
  }

  lemma FourCleared(m: nat)
    ensures InvertLowestOne(InvertLowestOne(4 * m + 2)) <= 4 * m
    ensures InvertLowestOne(4 * m + 2) == 4 * m
  {
    hide InvertLowestOne;
    InvertEven(2 * m + 1);
    InvertOdd(m);
    InvertBound(4 * m);
  }

  /** One step from 4m + 2 to 4m or 4m + 1. */
  lemma TwoAbove(m: nat, t: nat)
    requires 4 * m <= t <= 4 * m + 1
    ensures Steps(4 * m + 2, t) == 1
  {
    hide InvertLowestOne;
    FourCleared(m);
    assert GetSkipHeight(4 * m + 2) == 4 * m;
  }

  /** The walk down to the third or fourth height of a block of eight, from the last one. */
  lemma LastOfEight(m: nat, t: nat)
    requires 8 * m + 2 <= t <= 8 * m + 3
    ensures Steps(8 * m + 7, t) == if t == 8 * m + 2 then 4 else 3
  {
    hide InvertLowestOne, Steps, GetSkipHeight, NextHeight;
    DivModUnique(8 * m + 7, 2, 4 * m + 3, 1);
    OddStep(8 * m + 7, t);
    SixCleared(m);
    StepsUnfold(8 * m + 7, t);
    SixDown(m, t);
  }

  lemma SixDown(m: nat, t: nat)
    requires 8 * m + 2 <= t <= 8 * m + 3
    ensures Steps(8 * m + 6, t) == if t == 8 * m + 2 then 3 else 2
  {
    hide InvertLowestOne, Steps, GetSkipHeight;
    SixSkips(m);
    StepsUnfold(8 * m + 6, t);
    StepsUnfold(8 * m + 4, t);
    if t == 8 * m + 2 {
      StepsUnfold(8 * m + 3, t);
    }
    StepsDone(t);
  }

  lemma StepsDone(t: nat)
    ensures Steps(t, t) == 0
  {
  }

  lemma SixSkips(m: nat)
    ensures GetSkipHeight(8 * m + 6) == 8 * m + 4 && GetSkipHeight(8 * m + 4) == 8 * m
    ensures GetSkipHeight(8 * m + 5) <= 8 * m + 1
  {
    hide InvertLowestOne, GetSkipHeight;
    SkipIs(4 * m + 3);
    SkipIs(4 * m + 2);
    InvertEven(4 * m + 3);
    InvertOdd(2 * m + 1);
    InvertEven(4 * m + 2);
    InvertEven(2 * m + 1);
    InvertOdd(m);
    InvertBound(8 * m);
  }

  lemma {:induction false} ClearsOfOnes(i: nat)
    ensures Clears(Pow2(i) - 1) == i
  {
    hide InvertLowestOne, Clears;
    if i == 0 {
      NoClears();
    } else {
      ClearsOfOnes(i - 1);
      ClearsOdd(Pow2(i - 1) - 1);
    }
  }

  lemma ClearsOfTwos(i: nat)
    requires i >= 1
    ensures Pow2(i) >= 2 && (Pow2(i) - 1) % 2 == 1 && Clears(Pow2(i) - 2) == i - 1
  {
    hide InvertLowestOne, Clears;
    ClearsOfOnes(i - 1);
    ClearsEven(Pow2(i - 1) - 1);
  }

  lemma ClearsOfEights(i: nat)
    requires i >= 3
    ensures Pow2(i) >= 8 && (Pow2(i) - 8) % 8 == 0 && Clears(Pow2(i) - 8) == i - 3
  {
    hide InvertLowestOne, Clears;
    var x := Pow2(i - 3) - 1;
    assert Pow2(i) == 8 * x + 8 by {
      Pow2Add(3, i - 3);
      assert Pow2(3) == 8;
    }
    hide Pow2;
    ClearsOfOnes(i - 3);
    ClearsEven(4 * x);
    ClearsEven(2 * x);
    ClearsEven(x);
  }

  lemma OnesOfEight(m: nat, t: nat)
    requires 8 * m <= t <= 8 * m + 7
    ensures Steps(8 * m + 7, t) <= 4
  {
    hide InvertLowestOne, Steps, GetSkipHeight, NextHeight;
    if t >= 8 * m + 4 {
      LastOfFour(2 * m + 1, t);
    } else if t >= 8 * m + 2 {
      LastOfEight(m, t);
    } else {
      DivModUnique(8 * m + 7, 2, 4 * m + 3, 1);
      OddStep(8 * m + 7, t);
      SixCleared(m);
      StepsUnfold(8 * m + 7, t);
      NextDoor(8 * m + 1, t);
    }
  }

  lemma OnesOfFew(n: nat, m: nat, t: nat)
    requires n <= 3 && Pow2(n) * m <= t < Pow2(n) * m + Pow2(n)
    ensures Steps(Pow2(n) * m + Pow2(n) - 1, t) <= AllOnes(n)
  {
    hide Steps;
    assert Pow2(0) == 1 && Pow2(1) == 2 && Pow2(2) == 4 && Pow2(3) == 8;
    if n == 0 {
      StepsDone(t);
    } else if n == 1 {
      NextDoor(2 * m + 1, t);
    } else if n == 2 {
      LastOfFour(m, t);
    } else {
      OnesOfEight(m, t);
    }
  }

  lemma BlockHalves(i: nat, m: nat)
    ensures Pow2(i + 1) * m == Pow2(i) * (2 * m) && Pow2(i + 1) == 2 * Pow2(i)
    ensures Pow2(i) * (2 * m + 1) == Pow2(i) * (2 * m) + Pow2(i)
  {
    MulAssoc(Pow2(i), 2, m);
    MulDistribute(Pow2(i), 2 * m, 1);
  }

  /** From the last height of an aligned block of 2^n heights to any height of it. */
  lemma {:induction false} OnesWalk(n: nat, m: nat, t: nat)
    requires Pow2(n) * m <= t < Pow2(n) * m + Pow2(n)
    ensures Steps(Pow2(n) * m + Pow2(n) - 1, t) <= AllOnes(n)
  {
    hide Steps, Pow2, Halves, Clears;
    if n <= 3 {
      OnesOfFew(n, m, t);
    } else {
      var i := n - 1;
      BlockHalves(i, m);
      var b := Pow2(i) * (2 * m + 1);
      if t >= b {
        OnesWalk(i, 2 * m + 1, t);
      } else {
        OnesWalk(i, 2 * m, t);
        HalvesAre(i, m);
        ClearsOfTwos(i);
        OddWalk(i, Pow2(i) * (2 * m), b, Pow2(i) - 1, t);
      }
    }
  }

  function MaxSteps(bits: nat): int {
    if bits == 0 then 0 else (if bits == 1 then 1 else AllOnes(bits - 1)) + Hurdle(bits - 1)
  }

  lemma {:induction false} BlockWalk(bits: nat, m: nat, h: nat, t: nat)
    requires Pow2(bits) * m <= t <= h < Pow2(bits) * m + Pow2(bits)
    ensures Steps(h, t) <= MaxSteps(bits)
  {
    hide Steps, Pow2, Halves;
    if bits == 0 {
      assert Pow2(0) == 1 by { PowZero(); }
      StepsDone(t);
    } else {
      var i := bits - 1;
      BlockHalves(i, m);
      var b := Pow2(i) * (2 * m + 1);
      if t >= b {
        BlockWalk(i, 2 * m + 1, h, t);
      } else if h < b {
        BlockWalk(i, 2 * m, h, t);
      } else {
        OnesWalk(i, 2 * m, t);
        HalvesAre(i, m);
        UpperHalf(i, Pow2(i) * (2 * m), b, h - b, t);
      }
    }
  }

  lemma PowZero()
    ensures Pow2(0) == 1
  {
  }

  lemma QuarterSquare(n: nat, k: nat, r: nat)
    requires n == 2 * k + r && r < 2
    ensures n * n / 4 == k * k + k * r
  {
    assert n * n == 4 * (k * k + k * r) + r * r;
    assert r * r == r;
    DivModUnique(n * n, 4, k * k + k * r, r);
  }

  lemma Quarter(n: nat)
    ensures (n + 1) * (n + 1) / 4 == n * n / 4 + (n + 1) / 2
  {
    var k := n / 2;
    if n == 2 * k {
      QuarterSquare(n, k, 0);
      QuarterSquare(n + 1, k, 1);
    } else {
      QuarterSquare(n, k, 1);
      QuarterSquare(n + 1, k + 1, 0);
      assert (k + 1) * (k + 1) == k * k + 2 * k + 1;
    }
  }

  lemma {:induction false} AllOnesClosed(n: nat)
    requires n >= 3
    ensures AllOnes(n) == (n + 1) * (n + 1) / 4 + n - 3
  {
    if n > 3 {
      AllOnesClosed(n - 1);
      Quarter(n);
    }
  }

  function Longest(bits: nat): int {
    bits * bits / 4 + 2 * bits - 7
  }

  /** At most the longest walk for the number of bits of the height. */
  ghost predicate Short(steps: nat, h: nat) {
    forall bits | bits >= 9 && h < Pow2(bits) :: steps <= Longest(bits)
  }

  lemma NoStepsShort(h: nat)
    ensures Short(0, h)
  {
    forall bits | bits >= 9 && h < Pow2(bits) ensures 0 <= Longest(bits) {
      MulMonotone(0, bits, bits);
    }
  }

  lemma WalkShort(h: nat, t: nat)
    requires t <= h
    ensures Short(Steps(h, t), h)
  {
    hide Steps, Longest;
    forall bits | bits >= 9 && h < Pow2(bits) ensures Steps(h, t) <= Longest(bits) {
      WalkBound(bits, h, t);
    }
  }

  /** No walk between heights of `bits` bits is longer. */
  lemma WalkBound(bits: nat, h: nat, t: nat)
    requires bits >= 9 && t <= h < Pow2(bits)
    ensures Steps(h, t) <= Longest(bits)
  {
    hide Steps, Pow2;
    BlockWalk(bits, 0, h, t);
    AllOnesClosed(bits - 1);
  }

  lemma {:induction false} OnesToTwo(n: nat)
    requires n >= 3
    ensures Pow2(n) >= 8 && Steps(Pow2(n) - 1, 2) == AllOnes(n)
  {
    hide Steps, Halves, Clears;
    if n == 3 {
      LastOfEight(0, 2);
    } else {
      var i := n - 1;
      OnesToTwo(i);
      HalvesAre(i, 0);
      ClearsOfTwos(i);
      OddWalk(i, 0, Pow2(i), Pow2(i) - 1, 2);
    }
  }

  /** The bound is reached, from eight below a power of two down to height 2. */
  lemma WalkReached(bits: nat)
    requires bits >= 4
    ensures Pow2(bits) >= 10 && Steps(Pow2(bits) - 8, 2) == Longest(bits)
  {
    hide Steps, Halves, Clears, InvertLowestOne;
    var i := bits - 1;
    OnesToTwo(i);
    HalvesAre(i, 0);
    ClearsOfEights(i);
    EightsWalk(i, 0, Pow2(i), Pow2(i) - 8, 2);
    FirstOfHalf(i, 0, Pow2(i), 2);
    AllOnesClosed(i);
  }

  /** The figure of the source: 110 steps is the most it takes below 2^18, and some walk takes as many. */
  lemma SimulatedFigure()
    ensures forall h: nat, t: nat | t <= h < Pow2(18) :: Steps(h, t) <= 110
    ensures Pow2(18) - 8 >= 2 && Steps(Pow2(18) - 8, 2) == 110
  {
    hide Steps;
    forall h: nat, t: nat | t <= h < Pow2(18) ensures Steps(h, t) <= 110 {
      WalkBound(18, h, t);
    }
    WalkReached(18);
  }

  /** But it is not logarithmic: no multiple of the number of bits bounds it. */
  lemma NotLogarithmic(k: nat)
    ensures exists bits: nat, h: nat, t: nat :: t <= h < Pow2(bits) && Steps(h, t) > k * bits
  {
    hide Steps, Pow2;
    var bits := 4 * k + 4;
    WalkReached(bits);
    QuarterSquare(bits, 2 * k + 2, 0);
    assert (2 * k + 2) * (2 * k + 2) == k * bits + 4 * k + 4;
  }
}
