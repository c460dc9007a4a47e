/**
 CBlockIndex and CChain, src/chain.h and src/chain.cpp: a tree of blocks with skip pointers, and the active
 chain as a vector by height. Links and heights are set once, when a block is added below its parent.
*/
module Chain {
  import opened Bits
  import opened SkipHeights

  // ---------------------------------------------------------------- blocks

  class BlockIndex {
    const pprev: BlockIndex?
    const nHeight: nat
    const pskip: BlockIndex?

    ghost predicate Valid()
      decreases nHeight, 0
    {
      if pprev == null then nHeight == 0 && pskip == null
      else pprev.nHeight + 1 == nHeight && pprev.Valid() && pskip == pprev.AncestorAt(GetSkipHeight(nHeight))
    }

    /** The block reached by nHeight - h steps to the previous block. */
    ghost function AncestorAt(h: nat): (b: BlockIndex)
      requires Valid() && h <= nHeight
      ensures b.nHeight == h && b.Valid()
      decreases nHeight, 1
    {
      if h == nHeight then this else pprev.AncestorAt(h)
    }

    /** A new block: the height follows the parent's, then BuildSkip. */
    constructor (parent: BlockIndex?)
      requires parent != null ==> parent.Valid()
      ensures Valid() && pprev == parent
    {
      pprev := parent;
      if parent == null {
        nHeight := 0;
        pskip := null;
      } else {
        nHeight := parent.nHeight + 1;
        var skip, _ := parent.GetAncestor(GetSkipHeight(parent.nHeight + 1));
        pskip := skip;
      }
    }

    /** The skip walk reaches exactly the ancestor the plain walk reaches, and soon. */
    method GetAncestor(height: int) returns (r: BlockIndex?, ghost steps: nat)
      requires Valid()
      ensures r == if 0 <= height <= nHeight then AncestorAt(height) else null
      ensures Short(steps, nHeight)
    {
      hide GetSkipHeight, Steps, Short, Valid, AncestorAt;
      steps := 0;
      if height > nHeight || height < 0 {
        NoStepsShort(nHeight);
        return null, 0;
      }
      var pindexWalk: BlockIndex := this;
      var heightWalk := nHeight;
      while heightWalk > height
        invariant pindexWalk.Valid() && pindexWalk.nHeight == heightWalk >= height
        invariant pindexWalk.AncestorAt(height) == AncestorAt(height)
        invariant steps + Steps(heightWalk, height) == Steps(nHeight, height)
        decreases heightWalk
      {
        var heightSkip := GetSkipHeight(heightWalk);
        var heightSkipPrev := GetSkipHeight(heightWalk - 1);
        StepsUnfold(heightWalk, height);
        LinksOf(pindexWalk, height);
        steps := steps + 1;
        if pindexWalk.pskip != null &&
           (heightSkip == height ||
            (heightSkip > height && !(heightSkipPrev < heightSkip - 2 && heightSkipPrev >= height))) {
          pindexWalk := pindexWalk.pskip;
          heightWalk := heightSkip;
        } else {
          assert pindexWalk.pprev != null;
          pindexWalk := pindexWalk.pprev;
          heightWalk := heightWalk - 1;
        }
      }
      OwnAncestor(pindexWalk);
      StepsDone(height);
      WalkShort(nHeight, height);
      return pindexWalk, steps;
    }
  }

  lemma OwnAncestor(b: BlockIndex)
    requires b.Valid()
    ensures b.AncestorAt(b.nHeight) == b
  {
  }

  /** Both links of a block above the goal keep the goal an ancestor, where they do not pass it. */
  lemma LinksOf(b: BlockIndex, h: nat)
    requires b.Valid() && h < b.nHeight
    ensures b.pprev != null && b.pprev.Valid() && b.pprev.nHeight == b.nHeight - 1
    ensures b.pprev.AncestorAt(h) == b.AncestorAt(h)
    ensures b.pskip != null && b.pskip.Valid() && b.pskip.nHeight == GetSkipHeight(b.nHeight)
    ensures h <= b.pskip.nHeight ==> b.pskip.AncestorAt(h) == b.AncestorAt(h)
  {
    hide GetSkipHeight;
    if h <= GetSkipHeight(b.nHeight) {
      Compose(b.pprev, GetSkipHeight(b.nHeight), h);
    }
  }

  /** An ancestor of an ancestor. */
  lemma {:induction false} Compose(b: BlockIndex, a: nat, h: nat)
    requires b.Valid() && h <= a <= b.nHeight
    ensures b.AncestorAt(a).AncestorAt(h) == b.AncestorAt(h)
    decreases b.nHeight
  {
    if a < b.nHeight {
      Compose(b.pprev, a, h);
    }
  }

  /** The previous block is the ancestor one below. */
  lemma Previous(b: BlockIndex, h: nat)
    requires b.Valid() && h <= b.nHeight
    ensures b.AncestorAt(h).pprev == if h == 0 then null else b.AncestorAt(h - 1)
  {
    if h > 0 {
      Compose(b, h, h - 1);
    }
  }

  lemma Self(b: BlockIndex)
    requires b.Valid()
    ensures b.AncestorAt(b.nHeight) == b
  {
  }

  // ---------------------------------------------------------------- two branches

  /** r is the highest block that both have as ancestor, or null if they share none. */
  ghost predicate HighestCommon(a: BlockIndex, b: BlockIndex, r: BlockIndex?)
    requires a.Valid() && b.Valid()
  {
    && (r != null ==>
          r.nHeight <= a.nHeight && r.nHeight <= b.nHeight && a.AncestorAt(r.nHeight) == r == b.AncestorAt(r.nHeight))
    && forall h | 0 <= h <= a.nHeight && h <= b.nHeight && (r != null ==> h > r.nHeight) ::
         a.AncestorAt(h) != b.AncestorAt(h)
  }

  method LastCommonAncestor(a: BlockIndex, b: BlockIndex) returns (r: BlockIndex?)
    requires a.Valid() && b.Valid()
    ensures HighestCommon(a, b, r)
  {
    hide BlockIndex.AncestorAt, BlockIndex.Valid;
    Self(a);
    Self(b);
    var pa: BlockIndex?, pb: BlockIndex? := a, b;
    if a.nHeight > b.nHeight {
      ghost var steps;
      pa, steps := a.GetAncestor(b.nHeight);
    } else if b.nHeight > a.nHeight {
      ghost var steps;
      pb, steps := b.GetAncestor(a.nHeight);
    }
    ghost var h: int := pa.nHeight;
    while pa != pb && pa != null && pb != null
      invariant -1 <= h <= a.nHeight && h <= b.nHeight
      invariant h >= 0 ==> pa == a.AncestorAt(h) && pb == b.AncestorAt(h)
      invariant h < 0 ==> pa == null && pb == null
      invariant forall j | h < j <= a.nHeight && j <= b.nHeight :: a.AncestorAt(j) != b.AncestorAt(j)
      decreases h
    {
      Previous(a, h);
      Previous(b, h);
      pa := pa.pprev;
      pb := pb.pprev;
      h := h - 1;
    }
    assert pa == pb;
    return pa;
  }

  // ---------------------------------------------------------------- the active chain

  /** Every block sits at its height, on top of the one before. */
  ghost predicate Linked(v: seq<BlockIndex?>) {
    && (forall h | 0 <= h < |v| :: v[h] != null && v[h].Valid() && v[h].nHeight == h)
    && (forall h | 0 < h < |v| :: v[h].pprev == v[h - 1])
  }

  /** Below any of its blocks the chain is that block's ancestry. */
  lemma {:induction false} LinkedAncestors(v: seq<BlockIndex?>, k: nat, h: nat)
    requires Linked(v) && h <= k < |v|
    ensures v[h] == v[k].AncestorAt(h)
    decreases k
  {
    if h < k {
      LinkedAncestors(v, k - 1, h);
    }
  }

  /** The ancestry of a block, laid out by height, is linked. */
  lemma AncestryLinked(v: seq<BlockIndex?>, tip: BlockIndex)
    requires tip.Valid() && |v| == tip.nHeight + 1 && forall h | 0 <= h < |v| :: v[h] == tip.AncestorAt(h)
    ensures Linked(v)
  {
    hide BlockIndex.AncestorAt, BlockIndex.Valid;
    forall h | 0 < h < |v| ensures v[h].pprev == v[h - 1] {
      Previous(tip, h);
    }
  }

  class ActiveChain {
    var vChain: seq<BlockIndex?>

    ghost predicate Valid()
      reads this
    {
      Linked(vChain)
    }

    constructor ()
      ensures Valid() && vChain == []
    {
      vChain := [];
    }

    function Height(): int
      reads this
    {
      |vChain| - 1
    }

    /** operator[] */
    function At(nHeight: int): BlockIndex?
      reads this
    {
      if nHeight < 0 || nHeight >= |vChain| then null else vChain[nHeight]
    }

    function Tip(): BlockIndex?
      reads this
    {
      if |vChain| > 0 then vChain[|vChain| - 1] else null
    }

    predicate Contains(b: BlockIndex)
      reads this
    {
      At(b.nHeight) == b
    }

    function Next(b: BlockIndex): BlockIndex?
      reads this
    {
      if Contains(b) then At(b.nHeight + 1) else null
    }

    /** On a valid chain, to be contained is to be the tip's ancestor. */
    lemma ContainsIsAncestor(b: BlockIndex)
      requires Valid()
      ensures Contains(b) <==> Tip() != null && b.nHeight <= Tip().nHeight && b == Tip().AncestorAt(b.nHeight)
      ensures Contains(b) && Next(b) != null ==> Next(b).pprev == b
    {
      hide BlockIndex.AncestorAt, BlockIndex.Valid;
      if b.nHeight < |vChain| {
        LinkedAncestors(vChain, |vChain| - 1, b.nHeight);
      }
    }

    /** SetTip: the walk may stop at the first block already in place. */
    method SetTip(tip: BlockIndex?)
      requires Valid() && (tip != null ==> tip.Valid())
      modifies this
      ensures Valid() && Tip() == tip
      ensures tip == null ==> vChain == []
      ensures tip != null ==>
        |vChain| == tip.nHeight + 1 && forall h | 0 <= h < |vChain| :: vChain[h] == tip.AncestorAt(h)
    {
      hide BlockIndex.AncestorAt, BlockIndex.Valid, Linked;
      if tip == null {
        vChain := [];
        NoLinks();
        return;
      }
      Self(tip);
      var n := tip.nHeight + 1;
      ghost var was := vChain;
      vChain := if n <= |vChain| then vChain[..n] else vChain + seq(n - |vChain|, i => null);
      var pindex: BlockIndex? := tip;
      ghost var k := n;
      while pindex != null && vChain[pindex.nHeight] != pindex
        invariant 0 <= k <= n == |vChain|
        invariant pindex == if k == 0 then null else tip.AncestorAt(k - 1)
        invariant forall h | k <= h < n :: vChain[h] == tip.AncestorAt(h)
        invariant forall h | 0 <= h < k && h < |was| :: vChain[h] == was[h]
        invariant forall h | |was| <= h < k :: vChain[h] == null
        decreases k
      {
        Previous(tip, k - 1);
        vChain := vChain[pindex.nHeight := pindex];
        pindex := pindex.pprev;
        k := k - 1;
      }
      if pindex != null {
        forall h | 0 <= h < k ensures vChain[h] == tip.AncestorAt(h) {
          LinkedAncestors(was, k - 1, h);
          Compose(tip, k - 1, h);
        }
      }
      AncestryLinked(vChain, tip);
    }

    /** FindFork: the highest block of the chain among the argument's ancestors, or null. */
    method FindFork(pindex: BlockIndex?) returns (r: BlockIndex?)
      requires Valid() && (pindex != null ==> pindex.Valid())
      ensures pindex == null ==> r == null
      ensures pindex != null ==> Fork(vChain, pindex, r)
      ensures pindex != null && Tip() != null ==> HighestCommon(Tip(), pindex, r)
    {
      hide BlockIndex.AncestorAt, BlockIndex.Valid;
      if pindex == null {
        return null;
      }
      Self(pindex);
      r := pindex;
      if pindex.nHeight > Height() {
        ghost var steps;
        r, steps := pindex.GetAncestor(Height());
      }
      ghost var k: int := if r == null then -1 else r.nHeight;
      while r != null && !Contains(r)
        invariant -1 <= k <= pindex.nHeight && k < |vChain|
        invariant r == if k < 0 then null else pindex.AncestorAt(k)
        invariant forall h | k < h <= pindex.nHeight && h < |vChain| :: vChain[h] != pindex.AncestorAt(h)
        decreases k
      {
        Previous(pindex, k);
        r := r.pprev;
        k := k - 1;
      }
      if |vChain| > 0 {
        ForkIsCommon(vChain, pindex, r);
      }
    }

    /** GetLocator: the start's ancestors at exponentially sparser heights, down to the genesis block. */
    method GetLocator(pindex: BlockIndex?) returns (have: seq<BlockIndex>)
      requires Valid() && (pindex != null ==> pindex.Valid())
      ensures pindex == null && Tip() == null ==> have == []
      ensures pindex != null ==> Locates(pindex, have)
      ensures pindex == null && Tip() != null ==> Locates(Tip(), have)
    {
      hide BlockIndex.AncestorAt, BlockIndex.Valid, Heights, HeightsOf;
      var nStep := 1;
      have := [];
      var walk := pindex;
      if walk == null {
        walk := Tip();
      }
      if walk == null {
        return;
      }
      ghost var start: BlockIndex := walk;
      Self(start);
      NoHeights();
      while walk != null
        invariant nStep >= 1
        invariant walk != null ==> walk.nHeight <= start.nHeight && walk == start.AncestorAt(walk.nHeight)
        invariant walk != null ==>
          HeightsOf(have) + Heights(walk.nHeight, nStep, |have|) == Heights(start.nHeight, 1, 0)
        invariant walk == null ==> HeightsOf(have) == Heights(start.nHeight, 1, 0)
        invariant forall i | 0 <= i < |have| ::
          have[i].nHeight <= start.nHeight && have[i] == start.AncestorAt(have[i].nHeight)
        decreases if walk == null then 0 else walk.nHeight + 1
      {
        OneMore(have, walk, nStep);
        have := have + [walk];
        if walk.nHeight == 0 {
          break;
        }
        var nHeight := if walk.nHeight > nStep then walk.nHeight - nStep else 0;
        if Contains(walk) {
          LinkedAncestors(vChain, walk.nHeight, nHeight);
          Compose(start, walk.nHeight, nHeight);
          walk := At(nHeight);
        } else {
          Compose(start, walk.nHeight, nHeight);
          ghost var steps;
          walk, steps := walk.GetAncestor(nHeight);
        }
        if |have| > 10 {
          nStep := nStep * 2;
        }
      }
    }
  }

  // ---------------------------------------------------------------- locators

  /** The height stepped back to, and the step after that. */
  function StepBack(h: nat, step: nat): nat {
    if h > step then h - step else 0
  }

  function StepAfter(step: nat, count: nat): nat {
    if count + 1 > 10 then step * 2 else step
  }

  /** The heights of a locator: single steps first, then doubling ones, and always zero at the end. */
  ghost function Heights(h: nat, step: nat, count: nat): seq<nat>
    requires step >= 1
    decreases h
  {
    [h] + if h == 0 then [] else
      Heights(StepBack(h, step), StepAfter(step, count), count + 1)
  }

  ghost function HeightsOf(have: seq<BlockIndex>): seq<nat> {
    seq(|have|, i requires 0 <= i < |have| => have[i].nHeight)
  }

  ghost predicate Locates(start: BlockIndex, have: seq<BlockIndex>)
    requires start.Valid()
  {
    && HeightsOf(have) == Heights(start.nHeight, 1, 0)
    && forall i | 0 <= i < |have| :: have[i].nHeight <= start.nHeight && have[i] == start.AncestorAt(have[i].nHeight)
  }

  lemma NoHeights()
    ensures HeightsOf([]) == []
  {
  }

  lemma OneMore(have: seq<BlockIndex>, b: BlockIndex, step: nat)
    requires step >= 1
    ensures HeightsOf(have) + Heights(b.nHeight, step, |have|) ==
      HeightsOf(have + [b]) +
        if b.nHeight == 0 then [] else Heights(StepBack(b.nHeight, step), StepAfter(step, |have|), |have| + 1)
  {
  }

  /** From the start downwards without repetition to the genesis block. */
  lemma {:induction false} HeightsDescend(h: nat, step: nat, count: nat)
    requires step >= 1
    ensures var s := Heights(h, step, count);
      s[0] == h && s[|s| - 1] == 0 && forall i | 0 < i < |s| :: s[i] < s[i - 1]
  {
    if h > 0 {
      HeightsDescend(StepBack(h, step), StepAfter(step, count), count + 1);
    }
  }

  /** The first twelve blocks are consecutive. */
  lemma {:induction false} HeightsStart(h: nat, count: nat, i: nat)
    requires count + i <= 11 && i <= h
    ensures |Heights(h, 1, count)| > i && Heights(h, 1, count)[i] == h - i
    decreases h
  {
    if i > 0 {
      if count + 1 > 10 {
        assert i == 1;
      } else {
        HeightsStart(h - 1, count + 1, i - 1);
      }
    }
  }

  lemma HeightsParts(h: nat, step: nat, count: nat)
    requires step >= 1
    ensures |Heights(h, step, count)| >= 1 && Heights(h, step, count)[0] == h
    ensures if h == 0 then |Heights(h, step, count)| == 1
            else Heights(h, step, count) == [h] + Heights(StepBack(h, step), StepAfter(step, count), count + 1)
  {
  }

  /** From the twelfth block on the gaps double, until a gap would reach below the genesis block. */
  lemma {:induction false} HeightsGaps(h: nat, step: nat, count: nat, i: nat)
    requires step == GapAt(count) && i + 1 < |Heights(h, step, count)|
    ensures var s := Heights(h, step, count);
      s[i + 1] == if s[i] > GapAt(count + i) then s[i] - GapAt(count + i) else 0
    decreases h
  {
    hide Heights, GapAt;
    GapStep(count);
    HeightsParts(h, step, count);
    if i == 0 {
      HeightsParts(StepBack(h, step), StepAfter(step, count), count + 1);
    } else {
      HeightsGaps(StepBack(h, step), StepAfter(step, count), count + 1, i - 1);
    }
  }

  lemma GapStep(k: nat)
    ensures GapAt(k + 1) == if k + 1 > 10 then GapAt(k) * 2 else GapAt(k)
  {
  }

  function GapAt(k: nat): (g: nat)
    ensures g >= 1
  {
    if k <= 10 then 1 else Pow2(k - 10)
  }

  /** After that the number of blocks grows with the logarithm of the height. */
  lemma {:induction false} HeightsFew(h: nat, step: nat, count: nat, k: nat)
    requires step >= 1 && count >= 10 && h <= step * (Pow2(k) - 1)
    ensures |Heights(h, step, count)| <= k + 1
    decreases h
  {
    if h > 0 {
      if k == 0 {
        assert false;
      }
      Doubling(h, step, k);
      HeightsFew(StepBack(h, step), step * 2, count + 1, k - 1);
    }
  }

  lemma Doubling(h: nat, step: nat, k: nat)
    requires step >= 1 && k >= 1 && h <= step * (Pow2(k) - 1)
    ensures StepBack(h, step) <= step * 2 * (Pow2(k - 1) - 1)
  {
  }

  /** A block less than 10 + 2^k high has a locator of at most 11 + k blocks. */
  lemma {:induction false} LocatorSize(h: nat, count: nat, k: nat)
    requires count <= 10 && h < 10 - count + Pow2(k)
    ensures |Heights(h, 1, count)| <= 11 - count + k
    decreases h
  {
    if count == 10 {
      HeightsFew(h, 1, 10, k);
    } else if h > 0 {
      LocatorSize(h - 1, count + 1, k);
    }
  }

  lemma NoLinks()
    ensures Linked([])
  {
  }

  ghost predicate Fork(v: seq<BlockIndex?>, b: BlockIndex, r: BlockIndex?)
    requires b.Valid()
  {
    && (r != null ==> r.nHeight < |v| && v[r.nHeight] == r && r.nHeight <= b.nHeight && b.AncestorAt(r.nHeight) == r)
    && forall h | 0 <= h < |v| && h <= b.nHeight && (r != null ==> h > r.nHeight) :: v[h] != b.AncestorAt(h)
  }

  lemma ForkIsCommon(v: seq<BlockIndex?>, b: BlockIndex, r: BlockIndex?)
    requires b.Valid() && Linked(v) && |v| > 0 && Fork(v, b, r)
    ensures HighestCommon(v[|v| - 1], b, r)
  {
    hide BlockIndex.AncestorAt, BlockIndex.Valid;
    forall h | 0 <= h < |v| ensures v[|v| - 1].AncestorAt(h) == v[h] {
      LinkedAncestors(v, |v| - 1, h);
    }
  }
}
