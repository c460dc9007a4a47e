/**
 CRollingBloomFilter of src/bloom.cpp: cells of two bits, packed across pairs of 64-bit words, that remember
 which of three generations last touched them. Hash functions and sizes are parameters.
*/
module RollingBloom {

  const WORD := 0x1_0000_0000

  // ---------------------------------------------------------------- single bits of a word

  predicate Bit(x: bv64, b: bv6) {
    (x >> b) & 1 == 1
  }

  function Flag(v: bool): bv64 {
    if v then 1 else 0
  }

  /** A word with bit b replaced, as insert does it. */
  function Replaced(x: bv64, b: bv6, v: bool): bv64 {
    (x & !(1 << b)) | (Flag(v) << b)
  }

  /** The mask of the wipe: zero where both words carry the generation's bits. */
  function WipeMask(p1: bv64, p2: bv64, g1: bool, g2: bool): bv64 {
    OrWord(XorWord(p1, Filled(g1)), XorWord(p2, Filled(g2)))
  }

  function Masked(x: bv64, mask: bv64): bv64 {
    x & mask
  }

  function OrWord(x: bv64, y: bv64): bv64 {
    x | y
  }

  function XorWord(x: bv64, y: bv64): bv64 {
    x ^ y
  }

  function NotWord(x: bv64): bv64 {
    !x
  }

  function Filled(v: bool): bv64 {
    0 - Flag(v)
  }

  lemma ReplaceBit(x: bv64, b: bv6, v: bool, c: bv6)
    ensures Bit(Replaced(x, b, v), c) == if c == b then v else Bit(x, c)
  {
  }

  lemma WipeBit(p1: bv64, p2: bv64, g1: bool, g2: bool, c: bv6)
    ensures var mask := WipeMask(p1, p2, g1, g2);
      && (Bit(Masked(p1, mask), c) <==> Bit(p1, c) && !(Bit(p1, c) == g1 && Bit(p2, c) == g2))
      && (Bit(Masked(p2, mask), c) <==> Bit(p2, c) && !(Bit(p1, c) == g1 && Bit(p2, c) == g2))
  {
    hide Bit, Masked, OrWord, XorWord, Filled;
    var (x1, x2) := (XorWord(p1, Filled(g1)), XorWord(p2, Filled(g2)));
    FillBit(g1, c);
    FillBit(g2, c);
    XorBit(p1, Filled(g1), c);
    XorBit(p2, Filled(g2), c);
    OrBits(x1, x2, c);
    AndBit(p1, OrWord(x1, x2), c);
    AndBit(p2, OrWord(x1, x2), c);
  }

  lemma AndBit(x: bv64, y: bv64, c: bv6)
    ensures Bit(Masked(x, y), c) <==> Bit(x, c) && Bit(y, c)
  {
  }

  lemma OrBits(x: bv64, y: bv64, c: bv6)
    ensures Bit(OrWord(x, y), c) <==> Bit(x, c) || Bit(y, c)
  {
  }

  lemma XorBit(x: bv64, y: bv64, c: bv6)
    ensures Bit(XorWord(x, y), c) <==> Bit(x, c) != Bit(y, c)
  {
    hide Bit, Masked, OrWord, XorWord, NotWord;
    XorMeans(x, y);
    OrBits(x, y, c);
    AndBit(x, y, c);
    NotBit(Masked(x, y), c);
    AndBit(OrWord(x, y), NotWord(Masked(x, y)), c);
  }

  lemma XorMeans(x: bv64, y: bv64)
    ensures XorWord(x, y) == Masked(OrWord(x, y), NotWord(Masked(x, y)))
  {
  }

  lemma NotBit(x: bv64, c: bv6)
    ensures Bit(NotWord(x), c) <==> !Bit(x, c)
  {
  }

  lemma FillBit(v: bool, c: bv6)
    ensures Bit(Filled(v), c) == v
  {
  }

  predicate EitherSet(p1: bv64, p2: bv64, c: bv6) {
    ((p1 | p2) >> c) & 1 != 0
  }

  // ---------------------------------------------------------------- cells

  /** hash is the seeded hash of hash number, tweak and key, read as 32 bits; size is the number of words. */
  datatype Params<!Key> = Params(hash: (nat, nat, Key) -> nat, hashFuncs: nat, tweak: nat, size: nat)

  ghost predicate ParamsOk<Key>(p: Params<Key>) {
    p.size > 0 && p.size % 2 == 0
  }

  function Hash<Key>(p: Params<Key>, n: nat, key: Key): nat {
    p.hash(n, p.tweak, key) % WORD
  }

  lemma FastModBound(x: nat, n: nat)
    requires x < WORD && n > 0
    ensures 0 <= x * n / WORD < n
    ensures x * n / WORD * WORD <= x * n < (x * n / WORD + 1) * WORD
  {
  }

  function FastMod(x: nat, n: nat): (r: nat)
    requires x < WORD && n > 0
    ensures r < n && r * WORD <= x * n < (r + 1) * WORD
  {
    FastModBound(x, n);
    x * n / WORD
  }

  /** The pair of words and the bit in it that hash number n of a key selects. */
  function CellOf<Key>(p: Params<Key>, key: Key, n: nat): (c: (nat, bv6))
    requires ParamsOk(p)
    ensures 2 * c.0 + 1 < p.size
  {
    (FastMod(Hash(p, n, key), p.size) / 2, (Hash(p, n, key) % 64) as bv6)
  }

  /** The two bits of a cell: 0 unset, otherwise a generation number. */
  ghost function Label(d: seq<bv64>, w: nat, b: bv6): nat
    requires 2 * w + 1 < |d|
  {
    (if Bit(d[2 * w], b) then 1 else 0) + (if Bit(d[2 * w + 1], b) then 2 else 0)
  }

  /** One of the first n hashes of the key selects the cell. */
  ghost predicate HitsTo<Key>(p: Params<Key>, key: Key, n: nat, w: nat, b: bv6)
    requires ParamsOk(p)
  {
    exists m | 0 <= m < n :: CellOf(p, key, m) == (w, b)
  }

  ghost predicate Touched<Key>(p: Params<Key>, keys: seq<Key>, w: nat, b: bv6)
    requires ParamsOk(p)
  {
    exists i | 0 <= i < |keys| :: HitsTo(p, keys[i], p.hashFuncs, w, b)
  }

  function Next(g: nat): nat {
    if g + 1 == 4 then 1 else g + 1
  }

  function Prev(g: nat): int {
    if g == 1 then 3 else g - 1
  }

  /** The youngest of the three kept generations with a key that selects the cell. */
  ghost function Youngest<Key>(p: Params<Key>, g: nat, cur: seq<Key>, prev1: seq<Key>, prev2: seq<Key>, w: nat,
          b: bv6): int
    requires ParamsOk(p) && 1 <= g <= 3
  {
    if Touched(p, cur, w, b) then g
    else if Touched(p, prev1, w, b) then Prev(g)
    else if Touched(p, prev2, w, b) then Prev(Prev(g))
    else 0
  }

  ghost predicate Marks<Key>(p: Params<Key>, d: seq<bv64>, g: nat, cur: seq<Key>, prev1: seq<Key>, prev2: seq<Key>) {
    && ParamsOk(p) && |d| == p.size && 1 <= g <= 3
    && forall w, b | 0 <= w && 2 * w + 1 < |d| :: Label(d, w, b) == Youngest(p, g, cur, prev1, prev2, w, b)
  }

  // ---------------------------------------------------------------- what a rotation and a mark do

  ghost predicate WipedTo(d: seq<bv64>, e: seq<bv64>, g: nat, words: nat) {
    && |e| == |d| && 2 * words <= |d|
    && (forall w, b: bv6 | 0 <= w < words :: Label(e, w, b) == if Label(d, w, b) == g then 0 else Label(d, w, b))
    && (forall i | 2 * words <= i < |d| :: e[i] == d[i])
  }

  lemma WipeWords(d: seq<bv64>, e: seq<bv64>, g: nat, words: nat)
    requires 1 <= g <= 3 && WipedTo(d, e, g, words) && 2 * words + 1 < |d|
    ensures var (p1, p2) := (e[2 * words], e[2 * words + 1]);
      var mask := WipeMask(p1, p2, g % 2 == 1, g / 2 == 1);
      WipedTo(d, e[2 * words := Masked(p1, mask)][2 * words + 1 := Masked(p2, mask)], g, words + 1)
  {
    hide Bit, WipeMask, Masked, Flag;
    var (p1, p2) := (e[2 * words], e[2 * words + 1]);
    var mask := WipeMask(p1, p2, g % 2 == 1, g / 2 == 1);
    var e' := e[2 * words := Masked(p1, mask)][2 * words + 1 := Masked(p2, mask)];
    forall w, b: bv6 | 0 <= w < words + 1
      ensures Label(e', w, b) == if Label(d, w, b) == g then 0 else Label(d, w, b)
    {
      if w < words {
        assert e'[2 * w] == e[2 * w] && e'[2 * w + 1] == e[2 * w + 1];
        assert Label(e', w, b) == Label(e, w, b);
      } else {
        WipeBit(p1, p2, g % 2 == 1, g / 2 == 1, b);
      }
    }
  }

  lemma NoneTouched<Key>(p: Params<Key>, w: nat, b: bv6)
    requires ParamsOk(p)
    ensures !Touched(p, [], w, b)
  {
  }

  /** Rotation: the recycled number is the oldest generation's, so only that generation is forgotten. */
  lemma Rotated<Key>(p: Params<Key>, d: seq<bv64>, e: seq<bv64>, g: nat, cur: seq<Key>, prev1: seq<Key>,
          prev2: seq<Key>)
    requires Marks(p, d, g, cur, prev1, prev2) && WipedTo(d, e, Next(g), p.size / 2)
    ensures Marks(p, e, Next(g), [], cur, prev1)
  {
  }

  ghost predicate MarkedTo<Key>(p: Params<Key>, d: seq<bv64>, e: seq<bv64>, g: nat, key: Key, n: nat) {
    && ParamsOk(p) && |e| == |d| == p.size
    && forall w, b | 0 <= w && 2 * w + 1 < |d| ::
         Label(e, w, b) == if HitsTo(p, key, n, w, b) then g else Label(d, w, b)
  }

  /** One hash: the selected cell is relabelled, whatever it held. */
  lemma MarkCell<Key>(p: Params<Key>, d: seq<bv64>, e: seq<bv64>, g: nat, key: Key, n: nat)
    requires 1 <= g <= 3 && MarkedTo(p, d, e, g, key, n)
    ensures var (w, b) := CellOf(p, key, n);
      var x := Replaced(e[2 * w], b, g % 2 == 1);
      var y := Replaced(e[2 * w + 1], b, g / 2 == 1);
      MarkedTo(p, d, e[2 * w := x][2 * w + 1 := y], g, key, n + 1)
  {
    hide Bit, Replaced, CellOf, HitsTo, Label;
    var (w0, b0) := CellOf(p, key, n);
    var x := Replaced(e[2 * w0], b0, g % 2 == 1);
    var y := Replaced(e[2 * w0 + 1], b0, g / 2 == 1);
    var e' := e[2 * w0 := x][2 * w0 + 1 := y];
    forall w, b | 0 <= w && 2 * w + 1 < |d|
      ensures Label(e', w, b) == if HitsTo(p, key, n + 1, w, b) then g else Label(d, w, b)
    {
      HitsMore(p, key, n, w, b);
      Relabel(e, w0, b0, g, w, b);
    }
  }

  lemma Relabel(e: seq<bv64>, w0: nat, b0: bv6, g: nat, w: nat, b: bv6)
    requires 2 * w0 + 1 < |e| && 2 * w + 1 < |e| && 1 <= g <= 3
    ensures var x := Replaced(e[2 * w0], b0, g % 2 == 1);
      var y := Replaced(e[2 * w0 + 1], b0, g / 2 == 1);
      Label(e[2 * w0 := x][2 * w0 + 1 := y], w, b) == if (w, b) == (w0, b0) then g else Label(e, w, b)
  {
    hide Bit, Replaced;
    ReplaceBit(e[2 * w0], b0, g % 2 == 1, b);
    ReplaceBit(e[2 * w0 + 1], b0, g / 2 == 1, b);
  }

  lemma HitsMore<Key>(p: Params<Key>, key: Key, n: nat, w: nat, b: bv6)
    requires ParamsOk(p)
    ensures HitsTo(p, key, n + 1, w, b) <==> HitsTo(p, key, n, w, b) || CellOf(p, key, n) == (w, b)
  {
  }

  lemma Marked<Key>(p: Params<Key>, d: seq<bv64>, e: seq<bv64>, g: nat, key: Key, cur: seq<Key>, prev1: seq<Key>,
          prev2: seq<Key>)
    requires Marks(p, d, g, cur, prev1, prev2) && MarkedTo(p, d, e, g, key, p.hashFuncs)
    ensures Marks(p, e, g, cur + [key], prev1, prev2)
  {
    hide HitsTo, Label;
    forall w: nat, b ensures Touched(p, cur + [key], w, b) <==>
      Touched(p, cur, w, b) || HitsTo(p, key, p.hashFuncs, w, b) {
      TouchedMore(p, cur, key, w, b);
    }
  }

  lemma TouchedMore<Key>(p: Params<Key>, cur: seq<Key>, key: Key, w: nat, b: bv6)
    requires ParamsOk(p)
    ensures Touched(p, cur + [key], w, b) <==> Touched(p, cur, w, b) || HitsTo(p, key, p.hashFuncs, w, b)
  {
    hide HitsTo;
    var more := cur + [key];
    if Touched(p, cur, w, b) {
      var i :| 0 <= i < |cur| && HitsTo(p, cur[i], p.hashFuncs, w, b);
      assert more[i] == cur[i];
    }
    assert more[|cur|] == key;
  }

  /** A cell is set exactly when a key of the kept generations selects it. */
  lemma SetMeansTouched<Key>(p: Params<Key>, d: seq<bv64>, g: nat, cur: seq<Key>, prev1: seq<Key>, prev2: seq<Key>,
          w: nat, b: bv6)
    requires Marks(p, d, g, cur, prev1, prev2) && 2 * w + 1 < |d|
    ensures Label(d, w, b) != 0 <==> Touched(p, prev2 + prev1 + cur, w, b)
  {
    hide HitsTo, Label;
    var all := prev2 + prev1 + cur;
    if Touched(p, all, w, b) {
      var i :| 0 <= i < |all| && HitsTo(p, all[i], p.hashFuncs, w, b);
    }
    if Touched(p, cur, w, b) {
      var i :| 0 <= i < |cur| && HitsTo(p, cur[i], p.hashFuncs, w, b);
      assert all[|prev2| + |prev1| + i] == cur[i];
    }
    if Touched(p, prev1, w, b) {
      var i :| 0 <= i < |prev1| && HitsTo(p, prev1[i], p.hashFuncs, w, b);
      assert all[|prev2| + i] == prev1[i];
    }
    if Touched(p, prev2, w, b) {
      var i :| 0 <= i < |prev2| && HitsTo(p, prev2[i], p.hashFuncs, w, b);
      assert all[i] == prev2[i];
    }
  }

  /** Every cell of the key is selected by some key in the list, possibly different ones. */
  ghost predicate Covered<Key>(p: Params<Key>, keys: seq<Key>, key: Key)
    requires ParamsOk(p)
  {
    forall n | 0 <= n < p.hashFuncs :: Touched(p, keys, CellOf(p, key, n).0, CellOf(p, key, n).1)
  }

  /** No false negatives: a listed key is covered by the list. */
  lemma ListedIsCovered<Key>(p: Params<Key>, keys: seq<Key>, i: nat)
    requires ParamsOk(p) && i < |keys|
    ensures Covered(p, keys, keys[i])
  {
  }

  class Filter<Key> {
    const hash: (nat, nat, Key) -> nat
    const nHashFuncs: nat
    const nEntriesPerGeneration: nat
    const data: array<bv64>
    var nEntriesThisGeneration: nat
    var nGeneration: nat
    var nTweak: nat

    /** Every key inserted since the last reset, and how many of the first ones are forgotten. */
    ghost var log: seq<Key>
    ghost var forgotten: nat
    ghost var cur: seq<Key>
    ghost var prev1: seq<Key>
    ghost var prev2: seq<Key>

    ghost function Layout(): Params<Key>
      reads this
    {
      Params(hash, nHashFuncs, nTweak, data.Length)
    }

    ghost predicate Generations()
      reads this
    {
      && |cur| == nEntriesThisGeneration
      && forgotten <= |log| && log[forgotten..] == prev2 + prev1 + cur
      && (forgotten > 0 ==> |prev2| == nEntriesPerGeneration)
      && (forgotten > 0 || |prev2| > 0 ==> |prev1| == nEntriesPerGeneration)
    }

    ghost predicate Valid()
      reads this, data
    {
      && data.Length % 2 == 0 && Generations()
      && (data.Length > 0 ==> Marks(Layout(), data[..], nGeneration, cur, prev1, prev2))
    }

    /** A filter may be built with no words at all; only inserting and looking up index the array. */
    constructor (hash: (nat, nat, Key) -> nat, nElements: nat, nHashFuncs: nat, pairs: nat, tweak: nat)
      ensures Valid() && log == [] && nTweak == tweak && fresh(data) && data.Length == 2 * pairs
      ensures nElements <= 2 * nEntriesPerGeneration <= nElements + 1
    {
      this.hash := hash;
      this.nHashFuncs := nHashFuncs;
      nEntriesPerGeneration := (nElements + 1) / 2;
      data := new bv64[2 * pairs];
      nEntriesThisGeneration, nGeneration, nTweak := 0, 1, 0;
      log, forgotten, cur, prev1, prev2 := [], 0, [], [], [];
      new;
      Reset(tweak);
    }

    /** reset(); the new tweak is the random number drawn. */
    method Reset(tweak: nat)
      requires data.Length % 2 == 0
      modifies this, data
      ensures Valid() && log == [] && nTweak == tweak
    {
      hide Bit, Touched;
      nTweak := tweak;
      nEntriesThisGeneration := 0;
      nGeneration := 1;
      for i := 0 to data.Length
        invariant nTweak == tweak && nEntriesThisGeneration == 0 && nGeneration == 1
        invariant forall j | 0 <= j < i :: data[j] == 0
      {
        data[i] := 0;
      }
      log, forgotten, cur, prev1, prev2 := [], 0, [], [], [];
      if data.Length > 0 {
        forall w: nat, b ensures !Touched(Layout(), [], w, b) && !Bit(0, b) {
          NoneTouched(Layout(), w, b);
          assert !Bit(0, b) by { ZeroBit(b); }
        }
      }
    }

    /** The wipe of the cells that carry the recycled generation number. */
    method Wipe()
      requires data.Length % 2 == 0 && 1 <= nGeneration <= 3
      modifies data
      ensures WipedTo(old(data[..]), data[..], nGeneration, data.Length / 2)
    {
      hide Masked, WipeMask, Label;
      var p := 0;
      while p < data.Length / 2
        invariant 0 <= p <= data.Length / 2
        invariant WipedTo(old(data[..]), data[..], nGeneration, p)
      {
        var p1, p2 := data[2 * p], data[2 * p + 1];
        WipeWords(old(data[..]), data[..], nGeneration, p);
        var mask := WipeMask(p1, p2, nGeneration % 2 == 1, nGeneration / 2 == 1);
        ghost var e := data[..];
        data[2 * p] := Masked(p1, mask);
        data[2 * p + 1] := Masked(p2, mask);
        assert data[..] == e[2 * p := Masked(p1, mask)][2 * p + 1 := Masked(p2, mask)];
        p := p + 1;
      }
    }

    /** insert, first half: start a new generation when the current one is full. */
    method Rotate()
      requires Valid() && data.Length > 0
      modifies this, data
      ensures Valid() && log == old(log) && nTweak == old(nTweak)
    {
      hide Marks, WipedTo;
      if nEntriesThisGeneration == nEntriesPerGeneration {
        nEntriesThisGeneration := 0;
        nGeneration := Next(nGeneration);
        ghost var d := data[..];
        MarksSize(Layout(), d, old(nGeneration), cur, prev1, prev2);
        Wipe();
        Rotated(Layout(), d, data[..], old(nGeneration), cur, prev1, prev2);
        DropOldest(log, forgotten, prev2, prev1, cur);
        forgotten := forgotten + |prev2|;
        cur, prev1, prev2 := [], cur, prev1;
      }
    }

    method Insert(key: Key)
      requires Valid() && data.Length > 0
      modifies this, data
      ensures Valid() && log == old(log) + [key] && nTweak == old(nTweak)
    {
      hide Marks, MarkedTo, Replaced, CellOf;
      Rotate();
      nEntriesThisGeneration := nEntriesThisGeneration + 1;
      label Rotated:
      ghost var d, p := data[..], Layout();
      NoneMarked(p, d, nGeneration, key, cur, prev1, prev2);
      for n := 0 to nHashFuncs
        invariant MarkedTo(p, d, data[..], nGeneration, key, n)
        invariant unchanged@Rotated(this)
      {
        var h := hash(n, nTweak, key) % WORD;
        var bit := (h % 64) as bv6;
        var pos := FastMod(h, data.Length);
        var w := pos / 2;
        CellIs(p, key, n);
        MarkCell(p, d, data[..], nGeneration, key, n);
        data[2 * w] := Replaced(data[2 * w], bit, nGeneration % 2 == 1);
        data[2 * w + 1] := Replaced(data[2 * w + 1], bit, nGeneration / 2 == 1);
      }
      Marked(p, d, data[..], nGeneration, key, cur, prev1, prev2);
      log := log + [key];
      cur := cur + [key];
      assert log[forgotten..] == old@Rotated(log[forgotten..]) + [key];
    }

    /** contains: exactly the keys covered by the unforgotten ones; the last two generations' worth always are. */
    method Contains(key: Key) returns (found: bool)
      requires Valid() && data.Length > 0
      ensures found <==> forgotten <= |log| && Covered(Layout(), log[forgotten..], key)
      ensures forall i | 0 <= i < |log| && |log| <= i + 2 * nEntriesPerGeneration && log[i] == key :: found
    {
      hide Label, CellOf, EitherSet, Touched, Bit;
      found := true;
      ghost var p, recent := Layout(), log[forgotten..];
      for n := 0 to nHashFuncs
        invariant forall m | 0 <= m < n :: Touched(p, recent, CellOf(p, key, m).0, CellOf(p, key, m).1)
      {
        var h := hash(n, nTweak, key) % WORD;
        var bit := (h % 64) as bv6;
        var pos := FastMod(h, data.Length);
        var w := pos / 2;
        CellIs(p, key, n);
        SetMeansTouched(p, data[..], nGeneration, cur, prev1, prev2, w, bit);
        LabelSet(data[..], w, bit);
        if !EitherSet(data[2 * w], data[2 * w + 1], bit) {
          found := false;
          break;
        }
      }
      forall i | 0 <= i < |log| && |log| <= i + 2 * nEntriesPerGeneration && log[i] == key ensures found {
        assert recent[i - forgotten] == key;
        ListedIsCovered(p, recent, i - forgotten);
      }
    }
  }

  lemma DropOldest<Key>(log: seq<Key>, k: nat, prev2: seq<Key>, prev1: seq<Key>, cur: seq<Key>)
    requires k <= |log| && log[k..] == prev2 + prev1 + cur
    ensures k + |prev2| <= |log| && log[k + |prev2|..] == prev1 + cur + []
  {
  }

  lemma ZeroBit(b: bv6)
    ensures !Bit(0, b)
  {
  }

  lemma LabelSet(d: seq<bv64>, w: nat, b: bv6)
    requires 2 * w + 1 < |d|
    ensures EitherSet(d[2 * w], d[2 * w + 1], b) <==> Label(d, w, b) != 0
  {
  }

  lemma CellIs<Key>(p: Params<Key>, key: Key, n: nat)
    requires ParamsOk(p)
    ensures var h := Hash(p, n, key); CellOf(p, key, n) == (FastMod(h, p.size) / 2, (h % 64) as bv6)
    ensures 2 * (FastMod(Hash(p, n, key), p.size) / 2) + 1 < p.size
  {
  }

  lemma MarksSize<Key>(p: Params<Key>, d: seq<bv64>, g: nat, cur: seq<Key>, prev1: seq<Key>, prev2: seq<Key>)
    requires Marks(p, d, g, cur, prev1, prev2)
    ensures |d| == p.size && p.size % 2 == 0 && 1 <= g <= 3
  {
  }

  lemma NoneMarked<Key>(p: Params<Key>, d: seq<bv64>, g: nat, key: Key, cur: seq<Key>, prev1: seq<Key>, prev2: seq<Key>)
    requires Marks(p, d, g, cur, prev1, prev2)
    ensures ParamsOk(p) && 1 <= g <= 3 && MarkedTo(p, d, d, g, key, 0)
  {
  }
}
