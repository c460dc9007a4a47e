/**
 Compact blocks, src/blockencodings.cpp: a block announced as prefilled transactions and short ids, and rebuilt
 from the memory pool, other recent transactions and the transactions asked for.
*/
module CompactBlocks {
  import opened Wrappers

  /** A transaction reference; isNull is CTransaction::IsNull. */
  datatype Tx = Tx(hash: nat, isNull: bool)

  /** The index is an offset from the previous prefilled transaction, in 16 bits. */
  datatype Prefilled = Prefilled(index: nat, tx: Tx)

  datatype CompactBlock = CompactBlock(headerNull: bool, shortIds: seq<nat>, prefilled: seq<Prefilled>) {
    function BlockTxCount(): nat {
      |shortIds| + |prefilled|
    }
  }

  datatype ReadStatus = Ok | Invalid | Failed | CheckBlockFailed

  const MAX_UINT16 := 65535
  const UINT16 := 65536

  type Slots = seq<Option<Tx>>

  // ---------------------------------------------------------------- free slots

  /** How many of the first m slots are unfilled. */
  ghost function Free(a: Slots, m: nat): nat
    requires m <= |a|
  {
    if m == 0 then 0 else Free(a, m - 1) + if a[m - 1] == None then 1 else 0
  }

  /** Slot s is the unfilled slot number i, counting from zero. */
  ghost predicate IsFree(a: Slots, i: nat, s: nat) {
    s < |a| && a[s] == None && Free(a, s) == i
  }

  lemma {:induction false} FreeMonotone(a: Slots, m: nat, n: nat)
    requires m <= n <= |a|
    ensures Free(a, m) <= Free(a, n) <= Free(a, m) + n - m
    decreases n
  {
    if m < n {
      FreeMonotone(a, m, n - 1);
    }
  }

  /** Different numbers, different slots, in the same order. */
  lemma FreeDistinct(a: Slots, i: nat, s: nat, j: nat, t: nat)
    requires IsFree(a, i, s) && IsFree(a, j, t) && i < j
    ensures s < t
  {
    if t <= s {
      FreeMonotone(a, t, s);
    }
  }

  lemma {:induction false} FreeSame(a: Slots, b: Slots, m: nat)
    requires m <= |a| && m <= |b| && forall p | 0 <= p < m :: a[p] == b[p]
    ensures Free(a, m) == Free(b, m)
  {
    if m > 0 {
      FreeSame(a, b, m - 1);
    }
  }

  lemma {:induction false} FreeFill(a: Slots, p: nat, tx: Tx, m: nat)
    requires p < |a| && a[p] == None && m <= |a|
    ensures Free(a[p := Some(tx)], m) == Free(a, m) - if p < m then 1 else 0
  {
    if m > 0 {
      FreeFill(a, p, tx, m - 1);
    }
  }

  lemma {:induction false} FreeEmpty(n: nat, m: nat)
    requires m <= n
    ensures Free(seq(n, i => None), m) == m
  {
    if m > 0 {
      FreeEmpty(n, m - 1);
    }
  }

  // ---------------------------------------------------------------- prefilled transactions

  /** The block position of prefilled transaction number i; -1 before the first. */
  ghost function Position(pre: seq<Prefilled>, i: int): int
    requires -1 <= i < |pre|
    decreases i + 1
  {
    if i == -1 then -1 else Position(pre, i - 1) + pre[i].index + 1
  }

  lemma {:induction false} PositionsAscend(pre: seq<Prefilled>, i: int, j: int)
    requires -1 <= i < j < |pre|
    ensures Position(pre, i) < Position(pre, j)
    decreases j
  {
    if i < j - 1 {
      PositionsAscend(pre, i, j - 1);
    }
  }

  /** The checks on the first k prefilled transactions. */
  ghost predicate PrefilledOk(c: CompactBlock, k: nat)
    requires k <= |c.prefilled|
  {
    forall i | 0 <= i < k ::
      !c.prefilled[i].tx.isNull && Position(c.prefilled, i) <= MAX_UINT16
        && Position(c.prefilled, i) <= |c.shortIds| + i
  }

  /** The first k prefilled transactions are placed, nothing else is. */
  ghost predicate Placed(c: CompactBlock, a: Slots, k: nat)
    requires k <= |c.prefilled|
  {
    && |a| == c.BlockTxCount()
    && (forall i | 0 <= i < k ::
          0 <= Position(c.prefilled, i) < |a| && a[Position(c.prefilled, i)] == Some(c.prefilled[i].tx))
    && (forall p | 0 <= p < |a| && p > Position(c.prefilled, k - 1) :: a[p] == None)
    && Free(a, |a|) == |a| - k
  }

  /** The slots with the first k prefilled transactions in place. */
  ghost function PlacedSlots(c: CompactBlock, k: nat): (a: Slots)
    requires k <= |c.prefilled| && PrefilledOk(c, k)
    ensures Placed(c, a, k)
  {
    if k == 0 then
      FreeEmpty(c.BlockTxCount(), c.BlockTxCount());
      seq(c.BlockTxCount(), i => None)
    else
      PlaceNext(c, PlacedSlots(c, k - 1), k - 1);
      PlacedSlots(c, k - 1)[Position(c.prefilled, k - 1) := Some(c.prefilled[k - 1].tx)]
  }

  lemma PlaceNext(c: CompactBlock, a: Slots, k: nat)
    requires k < |c.prefilled| && Placed(c, a, k) && PrefilledOk(c, k + 1)
    ensures 0 <= Position(c.prefilled, k) < |a|
    ensures Placed(c, a[Position(c.prefilled, k) := Some(c.prefilled[k].tx)], k + 1)
  {
    hide Free, Position;
    var p := Position(c.prefilled, k);
    BelowPosition(c.prefilled, k);
    FreeFill(a, p, c.prefilled[k].tx, |a|);
  }

  lemma BelowPosition(pre: seq<Prefilled>, k: nat)
    requires k < |pre|
    ensures 0 <= Position(pre, k) && Position(pre, k - 1) < Position(pre, k)
    ensures forall i | 0 <= i < k :: Position(pre, i) < Position(pre, k)
  {
    PositionsAscend(pre, -1, k);
    PositionsAscend(pre, k - 1, k);
    forall i | 0 <= i < k ensures Position(pre, i) < Position(pre, k) {
      PositionsAscend(pre, i, k);
    }
  }

  method PlacePrefilled(c: CompactBlock) returns (ok: bool, a: Slots)
    ensures ok <==> PrefilledOk(c, |c.prefilled|)
    ensures ok ==> a == PlacedSlots(c, |c.prefilled|)
  {
    hide Free;
    a := seq(c.BlockTxCount(), i => None);
    FreeEmpty(|a|, |a|);
    var lastprefilledindex := -1;
    for i := 0 to |c.prefilled|
      invariant lastprefilledindex == Position(c.prefilled, i - 1)
      invariant PrefilledOk(c, i) && a == PlacedSlots(c, i)
    {
      if c.prefilled[i].tx.isNull {
        return false, a;
      }
      lastprefilledindex := lastprefilledindex + c.prefilled[i].index + 1;
      if lastprefilledindex > MAX_UINT16 {
        return false, a;
      }
      if lastprefilledindex > |c.shortIds| + i {
        return false, a;
      }
      PlaceNext(c, a, i);
      a := a[lastprefilledindex := Some(c.prefilled[i].tx)];
    }
    return true, a;
  }

  // ---------------------------------------------------------------- the slot walk

  /** Where the walk stands: the short id it looks for a slot for, and index_offset, a 16-bit number. */
  datatype Walk = Walk(i: nat, offset: nat)

  /** One turn of the inner loop, or the end of one and the next short id. */
  ghost function WalkStep(a: Slots, k: nat, w: Walk): Walk {
    if w.i >= k || w.i + w.offset >= |a| then w
    else if a[w.i + w.offset] != None then Walk(w.i, (w.offset + 1) % UINT16)
    else Walk(w.i + 1, w.offset)
  }

  ghost function WalkAfter(a: Slots, k: nat, n: nat): Walk {
    if n == 0 then Walk(0, 0) else WalkStep(a, k, WalkAfter(a, k, n - 1))
  }

  /** The loops are left after finitely many turns. */
  ghost predicate WalkEnds(a: Slots, k: nat) {
    exists n: nat :: WalkAfter(a, k, n).i >= k
  }

  /** As long as fewer than 65536 slots are filled the walk visits the slots one after the other. */
  lemma {:induction false} WalkForm(a: Slots, k: nat, n: nat)
    requires Free(a, |a|) == k && |a| - k < UINT16 && n <= |a| && (n > 0 ==> Free(a, n - 1) < k)
    ensures Free(a, n) <= n && WalkAfter(a, k, n) == Walk(Free(a, n), n - Free(a, n))
  {
    FreeMonotone(a, 0, n);
    if n > 0 {
      FreeMonotone(a, n, |a|);
      if n > 1 {
        FreeMonotone(a, n - 2, n - 1);
      }
      WalkForm(a, k, n - 1);
    }
  }

  /** The least m with k unfilled slots among the first m. */
  lemma {:induction false} EnoughFree(a: Slots, k: nat, n: nat) returns (m: nat)
    requires n <= |a| && Free(a, n) >= k
    ensures m <= n && Free(a, m) == k && (m > 0 ==> Free(a, m - 1) < k)
  {
    if n == 0 || Free(a, n - 1) < k {
      m := n;
    } else {
      m := EnoughFree(a, k, n - 1);
    }
  }

  lemma WalkSucceeds(a: Slots, k: nat)
    requires Free(a, |a|) == k && |a| - k < UINT16
    ensures WalkEnds(a, k)
  {
    var m := EnoughFree(a, k, |a|);
    WalkForm(a, k, m);
    assert WalkAfter(a, k, m).i >= k;
  }

  /** If the first 65536 slots are filled the offset wraps around for ever. */
  lemma {:induction false} WalkCircles(a: Slots, k: nat, n: nat)
    requires k > 0 && |a| > UINT16 && forall p | 0 <= p < UINT16 :: a[p] != None
    ensures WalkAfter(a, k, n) == Walk(0, n % UINT16)
  {
    if n > 0 {
      WalkCircles(a, k, n - 1);
    }
  }

  lemma {:induction false} PositionsSpread(pre: seq<Prefilled>, i: nat, j: nat)
    requires i <= j < |pre|
    ensures i <= Position(pre, i) && Position(pre, i) + j - i <= Position(pre, j)
    decreases i + j
  {
    if i < j {
      PositionsSpread(pre, i, j - 1);
    } else if i > 0 {
      PositionsSpread(pre, i - 1, i - 1);
    }
  }

  /** As many prefilled transactions as 16-bit positions occupy all of them. */
  lemma AllPrefilled(c: CompactBlock)
    requires PrefilledOk(c, |c.prefilled|) && |c.prefilled| >= UINT16
    ensures |c.prefilled| == UINT16 && forall p | 0 <= p < UINT16 :: Position(c.prefilled, p) == p
  {
    hide Position;
    if |c.prefilled| > UINT16 {
      PositionsSpread(c.prefilled, UINT16, UINT16);
    }
    forall p | 0 <= p < UINT16 ensures Position(c.prefilled, p) == p {
      PositionsSpread(c.prefilled, p, UINT16 - 1);
      assert Position(c.prefilled, UINT16 - 1) <= MAX_UINT16;
    }
  }

  /** For an accepted message the walk ends exactly if a 16-bit position is not prefilled or there are no short ids. */
  lemma WalkRule(c: CompactBlock)
    requires PrefilledOk(c, |c.prefilled|)
    ensures WalkEnds(PlacedSlots(c, |c.prefilled|), |c.shortIds|) <==> |c.prefilled| < UINT16 || c.shortIds == []
  {
    hide Free, Position, WalkStep;
    var (a, k) := (PlacedSlots(c, |c.prefilled|), |c.shortIds|);
    if k == 0 {
      assert WalkAfter(a, k, 0).i >= k;
    } else if |c.prefilled| < UINT16 {
      WalkSucceeds(a, k);
    } else {
      AllPrefilled(c);
      forall p | 0 <= p < UINT16 ensures a[p] != None {
        assert a[Position(c.prefilled, p)] == Some(c.prefilled[p].tx);
      }
      forall n: nat ensures WalkAfter(a, k, n).i < k {
        WalkCircles(a, k, n);
      }
    }
  }

  /** Such a message passes all tests before the walk: one short id after 65536 consecutive prefilled transactions. */
  lemma EndlessWalk(tx: Tx, id: nat)
    requires !tx.isNull
    ensures var c := CompactBlock(false, [id], seq(UINT16, i => Prefilled(0, tx)));
      PrefilledOk(c, |c.prefilled|) && !WalkEnds(PlacedSlots(c, |c.prefilled|), 1)
  {
    var c := CompactBlock(false, [id], seq(UINT16, i => Prefilled(0, tx)));
    forall i | 0 <= i < UINT16 ensures Position(c.prefilled, i) == i {
      Consecutive(c.prefilled, i);
    }
    hide Position;
    assert PrefilledOk(c, UINT16);
    WalkRule(c);
  }

  lemma {:induction false} Consecutive(pre: seq<Prefilled>, i: int)
    requires -1 <= i < |pre| && forall j | 0 <= j < |pre| :: pre[j].index == 0
    ensures Position(pre, i) == i
    decreases i + 1
  {
    if i >= 0 {
      Consecutive(pre, i - 1);
    }
  }

  /** Short id number i belongs to the unfilled slot number i. */
  ghost predicate Assigned(a: Slots, shortIds: seq<nat>, slots: seq<nat>, k: nat)
    requires k <= |shortIds|
  {
    |slots| == k && forall i | 0 <= i < k :: IsFree(a, i, slots[i])
  }

  /** The walk, where it ends: it finds every short id its slot and records that number modulo 65536. */
  method WalkSlots(c: CompactBlock, a: Slots, crowded: nat -> bool)
    returns (ok: bool, ids: map<nat, nat>, ghost slots: seq<nat>)
    requires |a| == c.BlockTxCount() && Free(a, |a|) == |c.shortIds| && (|c.prefilled| < UINT16 || c.shortIds == [])
    ensures ok ==>
      Assigned(a, c.shortIds, slots, |c.shortIds|) && ids.Keys == set i | 0 <= i < |c.shortIds| :: c.shortIds[i]
    ensures ok && Distinct(c.shortIds) ==> forall i | 0 <= i < |c.shortIds| :: ids[c.shortIds[i]] == slots[i] % UINT16
    ensures ok ==> forall k | k in ids :: ids[k] < |a|
    ensures !ok <==> exists i | 0 <= i < |c.shortIds| :: crowded(i)
  {
    hide Distinct;
    ids, slots := map[], [];
    var indexOffset := 0;
    assert Free(a, 0) == 0;
    for i := 0 to |c.shortIds|
      invariant Assigned(a, c.shortIds, slots, i)
      invariant 0 <= indexOffset <= |a| - i && Free(a, i + indexOffset) == i
      invariant ids.Keys == set j | 0 <= j < i :: c.shortIds[j]
      invariant forall j | 0 <= j < i :: !crowded(j)
      invariant forall k | k in ids :: ids[k] < |a|
      invariant Distinct(c.shortIds) ==> forall j | 0 <= j < i :: ids[c.shortIds[j]] == slots[j] % UINT16
    {
      while a[i + indexOffset] != None
        invariant 0 <= indexOffset < |a| - i && Free(a, i + indexOffset) == i
        decreases |a| - indexOffset
      {
        FreeMonotone(a, i + indexOffset + 1, |a|);
        indexOffset := (indexOffset + 1) % UINT16;
      }
      assert IsFree(a, i, i + indexOffset);
      if Distinct(c.shortIds) {
        DistinctBefore(c.shortIds, i);
      }
      ids := ids[c.shortIds[i] := (i + indexOffset) % UINT16];
      slots := slots + [i + indexOffset];
      if crowded(i) {
        return false, ids, slots;
      }
    }
    return true, ids, slots;
  }

  ghost predicate Distinct(s: seq<nat>) {
    forall i, j | 0 <= i < j < |s| :: s[i] != s[j]
  }

  lemma DistinctBefore(s: seq<nat>, i: nat)
    requires Distinct(s) && i < |s|
    ensures forall j | 0 <= j < i :: s[j] != s[i]
  {
  }

  lemma FreeUnique(a: Slots, i: nat, s: nat, t: nat)
    requires IsFree(a, i, s) && IsFree(a, i, t)
    ensures s == t
  {
    if s < t {
      FreeMonotone(a, s + 1, t);
    } else if t < s {
      FreeMonotone(a, t + 1, s);
    }
  }

  /** The numbers recorded are the slots exactly in blocks of up to 65536 transactions. */
  lemma SlotNumbersFit(c: CompactBlock, slots: seq<nat>)
    requires PrefilledOk(c, |c.prefilled|) && Assigned(PlacedSlots(c, |c.prefilled|), c.shortIds, slots, |c.shortIds|)
    ensures (forall i | 0 <= i < |slots| :: slots[i] % UINT16 == slots[i]) <==> c.BlockTxCount() <= UINT16
  {
    hide Position;
    var (a, k, n) := (PlacedSlots(c, |c.prefilled|), |c.shortIds|, c.BlockTxCount());
    if n > UINT16 {
      assert a[n - 1] == None by {
        if c.prefilled != [] {
          assert Position(c.prefilled, |c.prefilled| - 1) <= MAX_UINT16;
        } else {
          assert Position(c.prefilled, -1) == -1 by { NoPosition(c.prefilled); }
        }
      }
      assert Free(a, n) == Free(a, n - 1) + 1;
      FreeUnique(a, k - 1, n - 1, slots[k - 1]);
      assert slots[k - 1] % UINT16 != slots[k - 1];
    }
  }

  lemma NoPosition(pre: seq<Prefilled>)
    ensures Position(pre, -1) == -1
  {
  }

  // ---------------------------------------------------------------- filling from the pool

  /** What an offered transaction does to a slot: the first one fills it, a second one may empty it for good. */
  function Offer(cur: (Option<Tx>, bool), t: Tx, fromPool: bool): (Option<Tx>, bool) {
    if !cur.1 then (Some(t), true)
    else if fromPool || (cur.0.Some? && cur.0.value.hash != t.hash) then (None, true)
    else cur
  }

  /** The transaction's short id is recorded for the slot. */
  predicate Aims(ids: map<nat, nat>, sid: nat -> nat, hash: nat, p: nat) {
    sid(hash) in ids && ids[sid(hash)] == p
  }

  /** A slot after the listed transactions, those aimed at it offered one after the other. */
  ghost function Settled(list: seq<(nat, Tx)>, sid: nat -> nat, ids: map<nat, nat>, p: nat, start: (Option<Tx>, bool),
          fromPool: bool): (Option<Tx>, bool) {
    if list == [] then start
    else
      var (init, last) := (list[..|list| - 1], list[|list| - 1]);
      var cur := Settled(init, sid, ids, p, start, fromPool);
      if Aims(ids, sid, last.0, p) then Offer(cur, last.1, fromPool) else cur
  }

  /** Without collisions a slot holds nothing or the transaction meant. */
  lemma {:induction false} SettledMeant(list: seq<(nat, Tx)>, sid: nat -> nat, ids: map<nat, nat>, p: nat,
          start: (Option<Tx>, bool), fromPool: bool, x: Tx)
    requires start.0 == None || start.0 == Some(x)
    requires forall i | 0 <= i < |list| && Aims(ids, sid, list[i].0, p) :: list[i].1 == x
    ensures var v := Settled(list, sid, ids, p, start, fromPool).0; v == None || v == Some(x)
  {
    if list != [] {
      SettledMeant(list[..|list| - 1], sid, ids, p, start, fromPool, x);
    }
  }

  /** A slot nothing is aimed at stays as it is. */
  lemma {:induction false} Untouched(list: seq<(nat, Tx)>, sid: nat -> nat, ids: map<nat, nat>, p: nat,
          start: (Option<Tx>, bool), fromPool: bool)
    requires forall k | k in ids :: ids[k] != p
    ensures Settled(list, sid, ids, p, start, fromPool) == start
  {
    if list != [] {
      Untouched(list[..|list| - 1], sid, ids, p, start, fromPool);
    }
  }

  /** A short id that two transactions of the pool have is left to be asked for. */
  lemma {:induction false} AmbiguousIsEmpty(list: seq<(nat, Tx)>, sid: nat -> nat, ids: map<nat, nat>, p: nat,
          i: nat, j: nat)
    requires i < j < |list| && Aims(ids, sid, list[i].0, p) && Aims(ids, sid, list[j].0, p)
    ensures Settled(list, sid, ids, p, (None, false), true).0 == None
  {
    var init := list[..|list| - 1];
    OnceOffered(init, sid, ids, p, i);
    if j < |list| - 1 {
      AmbiguousIsEmpty(init, sid, ids, p, i, j);
    }
  }

  lemma {:induction false} OnceOffered(list: seq<(nat, Tx)>, sid: nat -> nat, ids: map<nat, nat>, p: nat, i: nat)
    requires i < |list| && Aims(ids, sid, list[i].0, p)
    ensures Settled(list, sid, ids, p, (None, false), true).1
  {
    if i < |list| - 1 {
      OnceOffered(list[..|list| - 1], sid, ids, p, i);
    }
  }

  ghost predicate ScanDone(ids: map<nat, nat>, a0: Slots, have0: seq<bool>, a: Slots, have: seq<bool>,
          list: seq<(nat, Tx)>, sid: nat -> nat, fromPool: bool) {
    && |a| == |a0| == |have| == |have0|
    && (forall p | 0 <= p < |a| :: (a[p], have[p]) == Settled(list, sid, ids, p, (a0[p], have0[p]), fromPool))
  }

  /** The slots that a transaction was found for and not taken back. */
  ghost function FoundSlots(a: Slots, have: seq<bool>): set<nat>
    requires |have| == |a|
  {
    set p | 0 <= p < |a| && have[p] && a[p].Some?
  }

  /** mempool_count counts those slots. */
  ghost predicate Counted(a: Slots, have: seq<bool>, count: int) {
    |have| == |a| && count == |FoundSlots(a, have)|
  }

  /** One transaction of the pool or of the extra ones. */
  lemma ScanStep(ids: map<nat, nat>, a0: Slots, have0: seq<bool>, a: Slots, have: seq<bool>, list: seq<(nat, Tx)>,
          i: nat, sid: nat -> nat, fromPool: bool)
    requires i < |list| && ScanDone(ids, a0, have0, a, have, list[..i], sid, fromPool)
    requires forall k | k in ids :: ids[k] < |a|
    ensures var k := sid(list[i].0);
      if k !in ids then ScanDone(ids, a0, have0, a, have, list[..i + 1], sid, fromPool) else
      var r := Offer((a[ids[k]], have[ids[k]]), list[i].1, fromPool);
      ScanDone(ids, a0, have0, a[ids[k] := r.0], have[ids[k] := r.1], list[..i + 1], sid, fromPool)
  {
    assert list[..i + 1][..i] == list[..i];
  }

  lemma CountStep(a: Slots, have: seq<bool>, count: int, s: nat, v: Option<Tx>)
    requires Counted(a, have, count) && s < |a|
    ensures var change := (if v.Some? then 1 else 0) - (if have[s] && a[s].Some? then 1 else 0);
      Counted(a[s := v], have[s := true], count + change)
  {
    hide FoundSlots;
    FoundStep(a, have, s, v);
    SetCount(FoundSlots(a, have), s);
  }

  lemma SetCount(s: set<nat>, k: nat)
    ensures |s + {k}| == if k in s then |s| else |s| + 1
    ensures |s - {k}| == if k in s then |s| - 1 else |s|
  {
    assert k in s ==> s + {k} == s;
    assert k !in s ==> s - {k} == s;
  }

  lemma FoundStep(a: Slots, have: seq<bool>, s: nat, v: Option<Tx>)
    requires |have| == |a| && s < |a|
    ensures s in FoundSlots(a, have) <==> have[s] && a[s].Some?
    ensures FoundSlots(a[s := v], have[s := true]) ==
      if v.Some? then FoundSlots(a, have) + {s} else FoundSlots(a, have) - {s}
  {
    var (a', have') := (a[s := v], have[s := true]);
    forall p ensures p in FoundSlots(a', have') <==> if p == s then v.Some? else p in FoundSlots(a, have) {
    }
  }

  /**
   The scan of the pool, and of the extra transactions; it stops early once the count reaches the number of
   short ids.
  */
  method Scan(ids: map<nat, nat>, a0: Slots, have0: seq<bool>, count0: int, list: seq<(nat, Tx)>,
          sid: nat -> nat, fromPool: bool)
    returns (a: Slots, have: seq<bool>, count: int, extra: int, ghost used: nat)
    requires Counted(a0, have0, count0) && forall k | k in ids :: ids[k] < |a0|
    ensures |a| == |a0| && used <= |list|
    ensures ScanDone(ids, a0, have0, a, have, list[..used], sid, fromPool) && Counted(a, have, count)
    ensures used < |list| ==> count == |ids|
    ensures extra == count - count0
  {
    hide ScanDone, Settled, FoundSlots;
    a, have, count, extra, used := a0, have0, count0, 0, 0;
    ScanStart(ids, a0, have0, list, sid, fromPool);
    for i := 0 to |list|
      invariant used == i && |a| == |a0|
      invariant ScanDone(ids, a0, have0, a, have, list[..i], sid, fromPool) && Counted(a, have, count)
      invariant extra == count - count0
    {
      var (h, t) := list[i];
      var k := sid(h);
      ScanStep(ids, a0, have0, a, have, list, i, sid, fromPool);
      if k in ids {
        var s := ids[k];
        if !have[s] {
          CountStep(a, have, count, s, Some(t));
          a, have := a[s := Some(t)], have[s := true];
          count, extra := count + 1, extra + 1;
        } else if a[s] != None && (fromPool || a[s].value.hash != t.hash) {
          CountStep(a, have, count, s, None);
          assert have[s := true] == have;
          a := a[s := None];
          count, extra := count - 1, extra - 1;
        } else {
          assert a[s := a[s]] == a && have[s := true] == have;
        }
      }
      used := i + 1;
      if count == |ids| {
        break;
      }
    }
  }

  lemma ScanStart(ids: map<nat, nat>, a: Slots, have: seq<bool>, list: seq<(nat, Tx)>, sid: nat -> nat, fromPool: bool)
    requires |have| == |a|
    ensures ScanDone(ids, a, have, a, have, list[..0], sid, fromPool)
  {
  }

  // ---------------------------------------------------------------- what a message stands for

  /** The message announces these transactions: prefilled ones in place, the others by short id in order. */
  ghost predicate Represents(c: CompactBlock, vtx: seq<Tx>, sid: nat -> nat) {
    && |vtx| == c.BlockTxCount() && PrefilledOk(c, |c.prefilled|)
    && (forall i | 0 <= i < |c.prefilled| ::
          0 <= Position(c.prefilled, i) < |vtx| && vtx[Position(c.prefilled, i)] == c.prefilled[i].tx)
    && (forall i, s | 0 <= i < |c.shortIds| && 0 <= s && IsFree(PlacedSlots(c, |c.prefilled|), i, s) ::
          c.shortIds[i] == sid(vtx[s].hash))
  }

  /** A known transaction with the short id of one in the block is that one. */
  ghost predicate NoCollision(vtx: seq<Tx>, sid: nat -> nat, list: seq<(nat, Tx)>) {
    forall i, p | 0 <= i < |list| && 0 <= p < |vtx| && sid(list[i].0) == sid(vtx[p].hash) :: list[i].1 == vtx[p]
  }

  /** Every filled slot holds the block's transaction. */
  ghost predicate PartOf(a: Slots, vtx: seq<Tx>) {
    |a| == |vtx| && forall p | 0 <= p < |a| :: a[p] == None || a[p] == Some(vtx[p])
  }

  /** A slot filled by placing is a prefilled position. */
  lemma {:induction false} PlacedPartOf(c: CompactBlock, vtx: seq<Tx>, sid: nat -> nat, k: nat)
    requires Represents(c, vtx, sid) && k <= |c.prefilled|
    ensures PrefilledOk(c, k) && PartOf(PlacedSlots(c, k), vtx)
  {
    hide Free, Position, IsFree;
    if k > 0 {
      PlacedPartOf(c, vtx, sid, k - 1);
    }
  }

  /** A scan keeps to the block's transactions when nothing collides. */
  lemma ScanPartOf(ids: map<nat, nat>, a0: Slots, have0: seq<bool>, a: Slots, have: seq<bool>, list: seq<(nat, Tx)>,
          sid: nat -> nat, fromPool: bool, vtx: seq<Tx>)
    requires ScanDone(ids, a0, have0, a, have, list, sid, fromPool) && PartOf(a0, vtx) && NoCollision(vtx, sid, list)
    requires forall k | k in ids :: ids[k] < |vtx| && sid(vtx[ids[k]].hash) == k
    ensures PartOf(a, vtx)
  {
    hide Settled;
    forall p | 0 <= p < |a| ensures a[p] == None || a[p] == Some(vtx[p]) {
      SettledMeant(list, sid, ids, p, (a0[p], have0[p]), fromPool, vtx[p]);
    }
  }

  /** Short ids repeated in a message make the map of short ids smaller than the list. */
  lemma {:induction false} DistinctCount(s: seq<nat>, n: nat)
    requires n <= |s|
    ensures |set i | 0 <= i < n :: s[i]| <= n
    ensures |set i | 0 <= i < n :: s[i]| == n <==> Distinct(s[..n])
  {
    if n > 0 {
      DistinctCount(s, n - 1);
      var (part, all) := (set i | 0 <= i < n - 1 :: s[i], set i | 0 <= i < n :: s[i]);
      assert all == part + {s[n - 1]};
      if s[n - 1] in part {
        var i :| 0 <= i < n - 1 && s[i] == s[n - 1];
        assert s[..n][i] == s[..n][n - 1];
        assert all == part;
      } else {
        assert |all| == |part| + 1;
        if Distinct(s[..n - 1]) {
          forall i, j | 0 <= i < j < n ensures s[..n][i] != s[..n][j] {
            assert s[i] in part;
            if j < n - 1 {
              assert s[..n - 1][i] != s[..n - 1][j];
            }
          }
        } else {
          var i, j :| 0 <= i < j < n - 1 && s[..n - 1][i] == s[..n - 1][j];
          assert s[..n][i] == s[..n][j];
        }
      }
    }
  }

  // ---------------------------------------------------------------- filling the block

  /** The transactions of the unfilled slots among the first m, in order. */
  ghost function Unavailable(a: Slots, vtx: seq<Tx>, m: nat): seq<Tx>
    requires m <= |a| && |a| == |vtx|
  {
    if m == 0 then [] else Unavailable(a, vtx, m - 1) + if a[m - 1] == None then [vtx[m - 1]] else []
  }

  /** Slot by slot: what is available, and the missing ones in order for the rest. */
  ghost predicate FilledWith(a: Slots, missing: seq<Tx>, block: seq<Tx>, m: nat) {
    && m <= |a| && |block| == m && Free(a, m) <= |missing|
    && forall i | 0 <= i < m ::
         (a[i] != None ==> block[i] == a[i].value) &&
         (a[i] == None ==> Free(a, i) < |missing| && block[i] == missing[Free(a, i)])
  }

  lemma {:induction false} UnavailableAt(a: Slots, vtx: seq<Tx>, m: nat)
    requires m <= |a| && |a| == |vtx|
    ensures |Unavailable(a, vtx, m)| == Free(a, m)
    ensures forall i | 0 <= i < m && a[i] == None ::
      Free(a, i) < Free(a, m) && Unavailable(a, vtx, m)[Free(a, i)] == vtx[i]
  {
    if m > 0 {
      UnavailableAt(a, vtx, m - 1);
    }
  }

  lemma {:induction false} UnavailableFrom(a: Slots, vtx: seq<Tx>, m: nat, t: Tx)
    requires m <= |a| && |a| == |vtx| && t in Unavailable(a, vtx, m)
    ensures exists p | 0 <= p < m :: a[p] == None && vtx[p] == t
  {
    if !(a[m - 1] == None && vtx[m - 1] == t) {
      UnavailableFrom(a, vtx, m - 1, t);
    }
  }

  /** With the unavailable transactions supplied in order, the block comes out. */
  lemma FillRebuilds(a: Slots, vtx: seq<Tx>, block: seq<Tx>)
    requires PartOf(a, vtx) && FilledWith(a, Unavailable(a, vtx, |a|), block, |a|)
    ensures block == vtx
  {
    hide Free, Unavailable;
    UnavailableAt(a, vtx, |a|);
  }

  class PartiallyDownloadedBlock {
    var headerNull: bool
    var txnAvailable: Slots
    var prefilledCount: nat
    var mempoolCount: int
    var extraCount: int

    constructor ()
      ensures headerNull && txnAvailable == [] && mempoolCount == 0
    {
      headerNull, txnAvailable := true, [];
      prefilledCount, mempoolCount, extraCount := 0, 0, 0;
    }

    /**
     InitData. limit is the number of transactions that fit in a block, crowded the test on the size of hash
     buckets, sid the short id of a hash; pool and extra hold transactions with the hashes they are known by.
     On other accepted messages the walk does not end.
    */
    method InitData(c: CompactBlock, limit: nat, crowded: nat -> bool, sid: nat -> nat, pool: seq<(nat, Tx)>,
            extra: seq<(nat, Tx)>, ghost vtx: seq<Tx>)
      returns (status: ReadStatus)
      requires headerNull && txnAvailable == [] && mempoolCount == 0
      requires Rejected(c, limit) || |c.prefilled| < UINT16 || c.shortIds == []
      modifies this
      ensures status == Invalid <==> Rejected(c, limit)
      ensures status == Failed <==>
        !Rejected(c, limit) && (!Distinct(c.shortIds) || exists i | 0 <= i < |c.shortIds| :: crowded(i))
      ensures status == Ok ==> Distinct(c.shortIds) && !headerNull && |txnAvailable| == c.BlockTxCount()
      ensures status == Ok && c.BlockTxCount() <= UINT16 ==> PrefilledHeld(c, txnAvailable)
      ensures status == Ok && c.BlockTxCount() <= UINT16 && Announced(c, vtx, sid, pool, extra) ==>
        PartOf(txnAvailable, vtx)
      ensures status == Ok && c.BlockTxCount() <= UINT16 && Announced(c, vtx, sid, pool, extra) && Once(pool) ==>
        Stocked(c, txnAvailable, vtx, sid, pool, extra)
      ensures status == Ok && c.BlockTxCount() <= UINT16 ==> Supplies(c, txnAvailable, mempoolCount)
      ensures status != CheckBlockFailed
    {
      hide Placed, PrefilledOk, Represents, NoCollision, Distinct, ScanDone, PartOf, Free, Once, Stocked;
      if c.headerNull || (c.shortIds == [] && c.prefilled == []) {
        return Invalid;
      }
      if |c.shortIds| + |c.prefilled| > limit {
        return Invalid;
      }
      headerNull := c.headerNull;
      var ok, a := PlacePrefilled(c);
      txnAvailable := a;
      if !ok {
        return Invalid;
      }
      PlacedFree(c, a);
      prefilledCount := |c.prefilled|;
      ghost var slots;
      var ids;
      ok, ids, slots := WalkSlots(c, a, crowded);
      if !ok {
        return Failed;
      }
      DistinctCount(c.shortIds, |c.shortIds|);
      assert c.shortIds[..|c.shortIds|] == c.shortIds;
      if |ids.Keys| != |c.shortIds| {
        return Failed;
      }
      var have := seq(|a|, i => false);
      assert Counted(a, have, 0) by { NoneFound(a); }
      ghost var used;
      var a1, have1, count1, e1 := a, have, 0, 0;
      a1, have1, count1, e1, used := Scan(ids, a, have, mempoolCount, pool, sid, true);
      ghost var used2;
      var a2, have2, count2, e2 := a, have, 0, 0;
      a2, have2, count2, e2, used2 := Scan(ids, a1, have1, count1, extra, sid, false);
      txnAvailable, mempoolCount, extraCount := a2, count2, extraCount + e2;
      Concluded(c, slots, ids, a, a1, have1, pool, used, sid, a2, have2, extra, used2, vtx);
      if c.BlockTxCount() <= UINT16 {
        FoundIsSupplied(c, slots, ids, a, a1, have1, pool[..used], sid, a2, have2, extra[..used2]);
        if Announced(c, vtx, sid, pool, extra) && Once(pool) {
          Filled(c, slots, ids, a, a1, have1, count1, pool, used, sid, a2, have2, count2, extra, used2, vtx);
        }
      }
      return Ok;
    }

    predicate IsTxAvailable(index: nat)
      requires index < |txnAvailable|
      reads this
    {
      txnAvailable[index].Some?
    }

    /** FillBlock; check is CheckBlock on the transactions, with whether its failure may be a corruption. */
    method FillBlock(missing: seq<Tx>, check: seq<Tx> -> (bool, bool)) returns (status: ReadStatus, block: seq<Tx>)
      requires !headerNull
      modifies this
      ensures status == Invalid <==> |missing| != old(Free(txnAvailable, |txnAvailable|))
      ensures status != Invalid ==> FilledWith(old(txnAvailable), missing, block, |old(txnAvailable)|)
      ensures status != Invalid ==> headerNull && txnAvailable == []
      ensures status != Invalid ==>
        status == if check(block).0 then Ok else if check(block).1 then Failed else CheckBlockFailed
    {
      hide Free, FilledWith;
      ghost var a := txnAvailable;
      block := [];
      var txMissingOffset := 0;
      NothingFilled(a, missing);
      for i := 0 to |txnAvailable|
        invariant |txnAvailable| == |a| && forall p | i <= p < |a| :: txnAvailable[p] == a[p]
        invariant txMissingOffset == Free(a, i) <= |missing| && FilledWith(a, missing, block, i)
      {
        FillOne(a, missing, block, i);
        if txnAvailable[i] == None {
          if |missing| <= txMissingOffset {
            return Invalid, block;
          }
          block := block + [missing[txMissingOffset]];
          txMissingOffset := txMissingOffset + 1;
        } else {
          block := block + [txnAvailable[i].value];
          txnAvailable := txnAvailable[i := None];
        }
      }
      headerNull := true;
      txnAvailable := [];
      if |missing| != txMissingOffset {
        return Invalid, block;
      }
      if !check(block).0 {
        return if check(block).1 then Failed else CheckBlockFailed, block;
      }
      return Ok, block;
    }
  }

  lemma PlacedFree(c: CompactBlock, a: Slots)
    requires PrefilledOk(c, |c.prefilled|) && a == PlacedSlots(c, |c.prefilled|)
    ensures |a| == c.BlockTxCount() && Free(a, |a|) == |c.shortIds|
  {
  }

  /** The message is malformed or too large. */
  ghost predicate Rejected(c: CompactBlock, limit: nat) {
    c.headerNull || c.BlockTxCount() == 0 || c.BlockTxCount() > limit || !PrefilledOk(c, |c.prefilled|)
  }

  ghost predicate PrefilledHeld(c: CompactBlock, a: Slots) {
    forall i | 0 <= i < |c.prefilled| ::
      0 <= Position(c.prefilled, i) < |a| && a[Position(c.prefilled, i)] == Some(c.prefilled[i].tx)
  }

  /** The message stands for these transactions and nothing known collides with them. */
  ghost predicate Announced(c: CompactBlock, vtx: seq<Tx>, sid: nat -> nat, pool: seq<(nat, Tx)>,
          extra: seq<(nat, Tx)>)
  {
    Represents(c, vtx, sid) && NoCollision(vtx, sid, pool) && NoCollision(vtx, sid, extra)
  }

  /** What the walk and the two scans amount to. */
  lemma Concluded(c: CompactBlock, slots: seq<nat>, ids: map<nat, nat>, a: Slots, a1: Slots, have1: seq<bool>,
          pool: seq<(nat, Tx)>, used: nat, sid: nat -> nat, a2: Slots, have2: seq<bool>, extra: seq<(nat, Tx)>,
          used2: nat,
          vtx: seq<Tx>)
    requires PrefilledOk(c, |c.prefilled|) && a == PlacedSlots(c, |c.prefilled|) && used <= |pool| && used2 <= |extra|
    requires Assigned(a, c.shortIds, slots, |c.shortIds|) && ids.Keys == set i | 0 <= i < |c.shortIds| :: c.shortIds[i]
    requires forall i | 0 <= i < |c.shortIds| :: ids[c.shortIds[i]] == slots[i] % UINT16
    requires ScanDone(ids, a, seq(|a|, i => false), a1, have1, pool[..used], sid, true)
    requires ScanDone(ids, a1, have1, a2, have2, extra[..used2], sid, false)
    ensures |a2| == c.BlockTxCount()
    ensures c.BlockTxCount() <= UINT16 ==> PrefilledHeld(c, a2)
    ensures c.BlockTxCount() <= UINT16 && Announced(c, vtx, sid, pool, extra) ==> PartOf(a2, vtx)
  {
    hide Placed, PrefilledOk, Represents, NoCollision, ScanDone, PartOf, Free;
    PlacedFree(c, a);
    SameLength(ids, a, seq(|a|, i => false), a1, have1, pool[..used], sid, true);
    SameLength(ids, a1, have1, a2, have2, extra[..used2], sid, false);
    if c.BlockTxCount() <= UINT16 {
      ExactSlots(c, slots, ids);
      PrefilledStay(c, a, slots, ids, a1, have1, pool[..used], sid, a2, have2, extra[..used2]);
      if Announced(c, vtx, sid, pool, extra) {
        SlotsMeant(c, vtx, sid, a, slots, ids);
        FewerCollisions(vtx, sid, pool, used);
        FewerCollisions(vtx, sid, extra, used2);
        ScanPartOf(ids, a, seq(|a|, i => false), a1, have1, pool[..used], sid, true, vtx);
        ScanPartOf(ids, a1, have1, a2, have2, extra[..used2], sid, false, vtx);
      }
    }
  }

  // ---------------------------------------------------------------- which slots are filled

  /** The transaction is in the list, under a hash with its short id. */
  ghost predicate InList(list: seq<(nat, Tx)>, sid: nat -> nat, x: Tx) {
    exists i | 0 <= i < |list| :: list[i].1 == x && sid(list[i].0) == sid(x.hash)
  }

  /** No transaction is listed twice. */
  ghost predicate Once(list: seq<(nat, Tx)>) {
    forall i, j | 0 <= i < j < |list| :: list[i].1 != list[j].1
  }

  ghost predicate Aimed(list: seq<(nat, Tx)>, sid: nat -> nat, ids: map<nat, nat>, p: nat) {
    exists i | 0 <= i < |list| :: Aims(ids, sid, list[i].0, p)
  }

  lemma AimedLast(list: seq<(nat, Tx)>, sid: nat -> nat, ids: map<nat, nat>, p: nat)
    requires list != []
    ensures var n := |list| - 1;
      Aimed(list, sid, ids, p) <==> Aimed(list[..n], sid, ids, p) || Aims(ids, sid, list[n].0, p)
  {
    var n := |list| - 1;
    if Aimed(list[..n], sid, ids, p) {
      var i :| 0 <= i < n && Aims(ids, sid, list[..n][i].0, p);
      assert Aims(ids, sid, list[i].0, p);
    }
    if Aimed(list, sid, ids, p) && !Aims(ids, sid, list[n].0, p) {
      var i :| 0 <= i < |list| && Aims(ids, sid, list[i].0, p);
      assert Aims(ids, sid, list[..n][i].0, p);
    }
  }

  /** The pool offers the slot one transaction or none. */
  lemma {:induction false} SettledOnce(list: seq<(nat, Tx)>, sid: nat -> nat, ids: map<nat, nat>, p: nat, x: Tx)
    requires Once(list) && forall i | 0 <= i < |list| && Aims(ids, sid, list[i].0, p) :: list[i].1 == x
    ensures Settled(list, sid, ids, p, (None, false), true)
      == if Aimed(list, sid, ids, p) then (Some(x), true) else (None, false)
  {
    if list != [] {
      var n := |list| - 1;
      SettledOnce(list[..n], sid, ids, p, x);
      AimedLast(list, sid, ids, p);
    }
  }

  /** The extra transactions fill a slot that is still open and leave a filled one. */
  lemma {:induction false} SettledExtra(list: seq<(nat, Tx)>, sid: nat -> nat, ids: map<nat, nat>, p: nat, x: Tx,
          found: bool)
    requires forall i | 0 <= i < |list| && Aims(ids, sid, list[i].0, p) :: list[i].1 == x
    ensures Settled(list, sid, ids, p, if found then (Some(x), true) else (None, false), false)
      == if found || Aimed(list, sid, ids, p) then (Some(x), true) else (None, false)
  {
    if list != [] {
      SettledExtra(list[..|list| - 1], sid, ids, p, x, found);
      AimedLast(list, sid, ids, p);
    }
  }

  /** A slot nothing has been aimed at has not been touched, so a scan finds only recorded slots. */
  lemma ScanFinds(ids: map<nat, nat>, a0: Slots, have0: seq<bool>, a: Slots, have: seq<bool>, list: seq<(nat, Tx)>,
          sid: nat -> nat, fromPool: bool)
    requires ScanDone(ids, a0, have0, a, have, list, sid, fromPool) && FoundSlots(a0, have0) <= ids.Values
    ensures FoundSlots(a, have) <= ids.Values
    ensures forall p | 0 <= p < |a| && p !in ids.Values :: (a[p], have[p]) == (a0[p], have0[p])
  {
    hide Settled;
    forall p | 0 <= p < |a| && p !in ids.Values ensures (a[p], have[p]) == (a0[p], have0[p]) {
      Untouched(list, sid, ids, p, (a0[p], have0[p]), fromPool);
    }
  }

  lemma {:induction false} FewValues(m: map<nat, nat>)
    ensures |m.Values| <= |m|
  {
    if m != map[] {
      var k :| k in m;
      var rest := m - {k};
      FewValues(rest);
      assert m.Values <= rest.Values + {m[k]} by {
        forall v | v in m.Values ensures v in rest.Values + {m[k]} {
          var j :| j in m && m[j] == v;
          assert j == k || j in rest;
        }
      }
      SubsetSize(m.Values, rest.Values + {m[k]});
      assert |rest.Values + {m[k]}| <= |rest.Values| + 1;
      assert |rest| == |m| - 1;
    }
  }

  lemma SubsetSize(s: set<nat>, t: set<nat>)
    requires s <= t
    ensures |s| <= |t| && (|s| == |t| ==> s == t)
  {
    assert t == s + (t - s);
    assert |t| == |s| + |t - s|;
  }

  /** The early stop: as many slots found as short ids is all slots found. */
  lemma AllFound(ids: map<nat, nat>, a: Slots, have: seq<bool>, count: int)
    requires Counted(a, have, count) && count == |ids| && FoundSlots(a, have) <= ids.Values
    ensures FoundSlots(a, have) == ids.Values
  {
    FewValues(ids);
    SubsetSize(FoundSlots(a, have), ids.Values);
  }

  /** Exactly the slots that are prefilled or have their transaction in the pool or among the extra ones are filled. */
  ghost predicate Stocked(c: CompactBlock, a: Slots, vtx: seq<Tx>, sid: nat -> nat, pool: seq<(nat, Tx)>,
          extra: seq<(nat, Tx)>)
  {
    && PrefilledOk(c, |c.prefilled|) && |a| == |vtx| == c.BlockTxCount()
    && forall p | 0 <= p < |a| ::
         a[p] == if || PlacedSlots(c, |c.prefilled|)[p].Some?
                    || InList(pool, sid, vtx[p]) || InList(extra, sid, vtx[p])
                 then Some(vtx[p]) else None
  }

  /** The slots that are filled and were not prefilled. */
  ghost function Supplied(placed: Slots, a: Slots): set<nat> {
    set p | 0 <= p < |placed| && p < |a| && placed[p] == None && a[p].Some?
  }

  /** mempool_count is the number of transactions supplied. */
  ghost predicate Supplies(c: CompactBlock, a: Slots, count: int) {
    PrefilledOk(c, |c.prefilled|) && count == |Supplied(PlacedSlots(c, |c.prefilled|), a)|
  }

  /** Every recorded number belongs to the transaction with that short id. */
  ghost predicate Meant(ids: map<nat, nat>, vtx: seq<Tx>, sid: nat -> nat) {
    forall k | k in ids :: ids[k] < |vtx| && sid(vtx[ids[k]].hash) == k
  }

  lemma AimedIsListed(list: seq<(nat, Tx)>, sid: nat -> nat, ids: map<nat, nat>, p: nat, vtx: seq<Tx>)
    requires Meant(ids, vtx, sid) && NoCollision(vtx, sid, list) && p in ids.Values
    ensures Aimed(list, sid, ids, p) <==> InList(list, sid, vtx[p])
    ensures forall i | 0 <= i < |list| && Aims(ids, sid, list[i].0, p) :: list[i].1 == vtx[p]
  {
    var k :| k in ids && ids[k] == p;
    if InList(list, sid, vtx[p]) {
      var i :| 0 <= i < |list| && list[i].1 == vtx[p] && sid(list[i].0) == sid(vtx[p].hash);
      assert Aims(ids, sid, list[i].0, p);
    }
    if Aimed(list, sid, ids, p) {
      var i :| 0 <= i < |list| && Aims(ids, sid, list[i].0, p);
      assert list[i].1 == vtx[p];
    }
  }

  lemma ListedBefore(list: seq<(nat, Tx)>, n: nat, sid: nat -> nat, x: Tx)
    requires n <= |list|
    ensures InList(list[..n], sid, x) ==> InList(list, sid, x)
    ensures n == |list| ==> list[..n] == list
    ensures Once(list) ==> Once(list[..n])
  {
    if InList(list[..n], sid, x) {
      var i :| 0 <= i < n && list[..n][i].1 == x && sid(list[..n][i].0) == sid(x.hash);
      assert list[i].1 == x;
    }
  }

  /** After the pool: the slot is filled exactly if its transaction is there. */
  lemma PoolFills(ids: map<nat, nat>, a: Slots, a1: Slots, have1: seq<bool>, count1: int, pool: seq<(nat, Tx)>,
          used: nat, sid: nat -> nat, vtx: seq<Tx>, p: nat)
    requires Meant(ids, vtx, sid) && NoCollision(vtx, sid, pool) && Once(pool) && used <= |pool|
    requires ScanDone(ids, a, seq(|a|, i => false), a1, have1, pool[..used], sid, true) && Counted(a1, have1, count1)
    requires used < |pool| ==> count1 == |ids|
    requires p in ids.Values && p < |a| && a[p] == None
    ensures |a1| == |have1| == |a|
    ensures (a1[p], have1[p]) == if InList(pool, sid, vtx[p]) then (Some(vtx[p]), true) else (None, false)
  {
    hide Settled, NoCollision, Counted;
    ListedBefore(pool, used, sid, vtx[p]);
    FewerCollisions(vtx, sid, pool, used);
    AimedIsListed(pool[..used], sid, ids, p, vtx);
    SettledOnce(pool[..used], sid, ids, p, vtx[p]);
    if used < |pool| {
      ScanFinds(ids, a, seq(|a|, i => false), a1, have1, pool[..used], sid, true);
      AllFound(ids, a1, have1, count1);
    }
  }

  /** After the extra transactions. */
  lemma ExtraFills(ids: map<nat, nat>, a1: Slots, have1: seq<bool>, a2: Slots, have2: seq<bool>, count2: int,
          extra: seq<(nat, Tx)>, used2: nat, sid: nat -> nat, vtx: seq<Tx>, p: nat, found: bool)
    requires Meant(ids, vtx, sid) && NoCollision(vtx, sid, extra) && used2 <= |extra|
    requires ScanDone(ids, a1, have1, a2, have2, extra[..used2], sid, false) && Counted(a2, have2, count2)
    requires FoundSlots(a1, have1) <= ids.Values && (used2 < |extra| ==> count2 == |ids|)
    requires p in ids.Values && p < |a1|
    requires (a1[p], have1[p]) == if found then (Some(vtx[p]), true) else (None, false)
    ensures |a2| == |a1| && a2[p] == if found || InList(extra, sid, vtx[p]) then Some(vtx[p]) else None
  {
    hide Settled, NoCollision, Counted;
    ListedBefore(extra, used2, sid, vtx[p]);
    FewerCollisions(vtx, sid, extra, used2);
    AimedIsListed(extra[..used2], sid, ids, p, vtx);
    SettledExtra(extra[..used2], sid, ids, p, vtx[p], found);
    if used2 < |extra| {
      ScanFinds(ids, a1, have1, a2, have2, extra[..used2], sid, false);
      AllFound(ids, a2, have2, count2);
    }
  }

  /** Every unfilled slot has its number recorded, and only unfilled ones have. */
  lemma RecordedSlots(c: CompactBlock, slots: seq<nat>, ids: map<nat, nat>, p: nat)
    requires PrefilledOk(c, |c.prefilled|) && Assigned(PlacedSlots(c, |c.prefilled|), c.shortIds, slots, |c.shortIds|)
    requires ids.Keys == set i | 0 <= i < |c.shortIds| :: c.shortIds[i]
    requires forall i | 0 <= i < |c.shortIds| :: ids[c.shortIds[i]] == slots[i]
    requires p < c.BlockTxCount()
    ensures |PlacedSlots(c, |c.prefilled|)| == c.BlockTxCount()
    ensures p in ids.Values <==> PlacedSlots(c, |c.prefilled|)[p] == None
  {
    hide Position, PrefilledOk, Free, Placed;
    var a := PlacedSlots(c, |c.prefilled|);
    PlacedFree(c, a);
    if a[p] == None {
      var i := Free(a, p);
      FreeBefore(a, p);
      FreeUnique(a, i, p, slots[i]);
      assert c.shortIds[i] in ids;
    }
    if p in ids.Values {
      var k :| k in ids && ids[k] == p;
      var i :| 0 <= i < |c.shortIds| && c.shortIds[i] == k;
      assert IsFree(a, i, slots[i]);
    }
  }

  lemma FreeBefore(a: Slots, p: nat)
    requires p < |a| && a[p] == None
    ensures IsFree(a, Free(a, p), p) && Free(a, p) < Free(a, |a|)
  {
    FreeMonotone(a, p + 1, |a|);
  }

  /** The walk and the two scans, slot by slot. */
  lemma Filled(c: CompactBlock, slots: seq<nat>, ids: map<nat, nat>, a: Slots, a1: Slots, have1: seq<bool>, count1: int,
          pool: seq<(nat, Tx)>, used: nat, sid: nat -> nat, a2: Slots, have2: seq<bool>, count2: int,
          extra: seq<(nat, Tx)>, used2: nat, vtx: seq<Tx>)
    requires PrefilledOk(c, |c.prefilled|) && a == PlacedSlots(c, |c.prefilled|) && used <= |pool| && used2 <= |extra|
    requires Assigned(a, c.shortIds, slots, |c.shortIds|) && ids.Keys == set i | 0 <= i < |c.shortIds| :: c.shortIds[i]
    requires forall i | 0 <= i < |c.shortIds| :: ids[c.shortIds[i]] == slots[i] % UINT16
    requires ScanDone(ids, a, seq(|a|, i => false), a1, have1, pool[..used], sid, true) && Counted(a1, have1, count1)
    requires ScanDone(ids, a1, have1, a2, have2, extra[..used2], sid, false) && Counted(a2, have2, count2)
    requires (used < |pool| ==> count1 == |ids|) && (used2 < |extra| ==> count2 == |ids|)
    requires c.BlockTxCount() <= UINT16 && Announced(c, vtx, sid, pool, extra) && Once(pool)
    ensures Stocked(c, a2, vtx, sid, pool, extra)
  {
    hide Placed, PrefilledOk, Represents, NoCollision, ScanDone, Free, Counted, Settled, Assigned, PlacedSlots;
    PlacedFree(c, a);
    ExactSlots(c, slots, ids);
    SlotsMeant(c, vtx, sid, a, slots, ids);
    assert Meant(ids, vtx, sid);
    SameLength(ids, a, seq(|a|, i => false), a1, have1, pool[..used], sid, true);
    SameLength(ids, a1, have1, a2, have2, extra[..used2], sid, false);
    assert FoundSlots(a, seq(|a|, i => false)) == {};
    ScanFinds(ids, a, seq(|a|, i => false), a1, have1, pool[..used], sid, true);
    ScanFinds(ids, a1, have1, a2, have2, extra[..used2], sid, false);
    forall p | 0 <= p < |a2|
      ensures a2[p] == if a[p].Some? || InList(pool, sid, vtx[p]) || InList(extra, sid, vtx[p])
                       then Some(vtx[p]) else None
    {
      RecordedSlots(c, slots, ids, p);
      if a[p] == None {
        PoolFills(ids, a, a1, have1, count1, pool, used, sid, vtx, p);
        ExtraFills(ids, a1, have1, a2, have2, count2, extra, used2, sid, vtx, p, InList(pool, sid, vtx[p]));
      } else {
        assert a2[p] == a1[p] == a[p];
      }
    }
  }

  /** A slot that has not been filled by a scan is as it was. */
  lemma {:induction false} SettledHave(list: seq<(nat, Tx)>, sid: nat -> nat, ids: map<nat, nat>, p: nat,
          start: (Option<Tx>, bool), fromPool: bool)
    ensures var r := Settled(list, sid, ids, p, start, fromPool); !r.1 ==> r == start
  {
    if list != [] {
      SettledHave(list[..|list| - 1], sid, ids, p, start, fromPool);
    }
  }

  /** What has been found and not taken back is what has been supplied. */
  lemma FoundIsSupplied(c: CompactBlock, slots: seq<nat>, ids: map<nat, nat>, a: Slots, a1: Slots, have1: seq<bool>,
          pool: seq<(nat, Tx)>, sid: nat -> nat, a2: Slots, have2: seq<bool>, extra: seq<(nat, Tx)>)
    requires PrefilledOk(c, |c.prefilled|) && a == PlacedSlots(c, |c.prefilled|) && c.BlockTxCount() <= UINT16
    requires Assigned(a, c.shortIds, slots, |c.shortIds|) && ids.Keys == set i | 0 <= i < |c.shortIds| :: c.shortIds[i]
    requires forall i | 0 <= i < |c.shortIds| :: ids[c.shortIds[i]] == slots[i] % UINT16
    requires ScanDone(ids, a, seq(|a|, i => false), a1, have1, pool, sid, true)
    requires ScanDone(ids, a1, have1, a2, have2, extra, sid, false)
    ensures FoundSlots(a2, have2) == Supplied(a, a2)
  {
    hide Placed, PrefilledOk, Free, Settled, Assigned, PlacedSlots;
    PlacedFree(c, a);
    ExactSlots(c, slots, ids);
    assert FoundSlots(a, seq(|a|, i => false)) == {};
    ScanFinds(ids, a, seq(|a|, i => false), a1, have1, pool, sid, true);
    ScanFinds(ids, a1, have1, a2, have2, extra, sid, false);
    forall p | 0 <= p < |a2| ensures p in FoundSlots(a2, have2) <==> a[p] == None && a2[p].Some? {
      RecordedSlots(c, slots, ids, p);
      SettledHave(pool, sid, ids, p, (a[p], false), true);
      SettledHave(extra, sid, ids, p, (a1[p], have1[p]), false);
    }
  }

  /** The scans leave the prefilled transactions alone. */
  lemma PrefilledStay(c: CompactBlock, a: Slots, slots: seq<nat>, ids: map<nat, nat>, a1: Slots, have1: seq<bool>,
          pool: seq<(nat, Tx)>, sid: nat -> nat, a2: Slots, have2: seq<bool>, extra: seq<(nat, Tx)>)
    requires PrefilledOk(c, |c.prefilled|) && a == PlacedSlots(c, |c.prefilled|)
    requires Assigned(a, c.shortIds, slots, |c.shortIds|) && ids.Keys == set i | 0 <= i < |c.shortIds| :: c.shortIds[i]
    requires forall i | 0 <= i < |c.shortIds| :: ids[c.shortIds[i]] == slots[i]
    requires ScanDone(ids, a, seq(|a|, i => false), a1, have1, pool, sid, true)
    requires ScanDone(ids, a1, have1, a2, have2, extra, sid, false)
    ensures forall i | 0 <= i < |c.prefilled| ::
      0 <= Position(c.prefilled, i) < |a2| && a2[Position(c.prefilled, i)] == Some(c.prefilled[i].tx)
  {
    hide Free, Settled, Position, PrefilledOk;
    forall i | 0 <= i < |c.prefilled|
      ensures 0 <= Position(c.prefilled, i) < |a2| && a2[Position(c.prefilled, i)] == Some(c.prefilled[i].tx)
    {
      var p := Position(c.prefilled, i);
      forall k | k in ids ensures ids[k] != p {
        var j :| 0 <= j < |c.shortIds| && c.shortIds[j] == k;
        assert IsFree(a, j, slots[j]);
      }
      Untouched(pool, sid, ids, p, (a[p], false), true);
      Untouched(extra, sid, ids, p, (a1[p], have1[p]), false);
    }
  }

  lemma NoneFound(a: Slots)
    ensures Counted(a, seq(|a|, i => false), 0)
  {
    assert FoundSlots(a, seq(|a|, i => false)) == {};
  }

  /** In a block of up to 65536 transactions the recorded numbers are the slots. */
  lemma ExactSlots(c: CompactBlock, slots: seq<nat>, ids: map<nat, nat>)
    requires PrefilledOk(c, |c.prefilled|) && Assigned(PlacedSlots(c, |c.prefilled|), c.shortIds, slots, |c.shortIds|)
    requires c.BlockTxCount() <= UINT16 && ids.Keys == set i | 0 <= i < |c.shortIds| :: c.shortIds[i]
    requires forall i | 0 <= i < |c.shortIds| :: ids[c.shortIds[i]] == slots[i] % UINT16
    ensures forall i | 0 <= i < |c.shortIds| :: ids[c.shortIds[i]] == slots[i]
  {
    SlotNumbersFit(c, slots);
  }

  lemma SameLength(ids: map<nat, nat>, a0: Slots, have0: seq<bool>, a: Slots, have: seq<bool>, list: seq<(nat, Tx)>,
          sid: nat -> nat, fromPool: bool)
    requires ScanDone(ids, a0, have0, a, have, list, sid, fromPool)
    ensures |a| == |a0|
  {
  }

  lemma FewerCollisions(vtx: seq<Tx>, sid: nat -> nat, list: seq<(nat, Tx)>, n: nat)
    requires NoCollision(vtx, sid, list) && n <= |list|
    ensures NoCollision(vtx, sid, list[..n])
  {
  }

  /** The slots a message assigns are those of the transactions it means. */
  lemma SlotsMeant(c: CompactBlock, vtx: seq<Tx>, sid: nat -> nat, a: Slots, slots: seq<nat>, ids: map<nat, nat>)
    requires Represents(c, vtx, sid) && a == PlacedSlots(c, |c.prefilled|)
    requires Assigned(a, c.shortIds, slots, |c.shortIds|) && ids.Keys == set i | 0 <= i < |c.shortIds| :: c.shortIds[i]
    requires forall i | 0 <= i < |c.shortIds| :: ids[c.shortIds[i]] == slots[i]
    ensures PartOf(a, vtx) && forall k | k in ids :: ids[k] < |vtx| && sid(vtx[ids[k]].hash) == k
  {
    hide Free, Position, Placed, PrefilledOk;
    PlacedPartOf(c, vtx, sid, |c.prefilled|);
    forall k | k in ids ensures ids[k] < |vtx| && sid(vtx[ids[k]].hash) == k {
      var i :| 0 <= i < |c.shortIds| && c.shortIds[i] == k;
      assert IsFree(a, i, slots[i]);
    }
  }

  lemma NothingFilled(a: Slots, missing: seq<Tx>)
    ensures FilledWith(a, missing, [], 0) && Free(a, 0) == 0
  {
  }

  lemma FillOne(a: Slots, missing: seq<Tx>, block: seq<Tx>, i: nat)
    requires i < |a| && FilledWith(a, missing, block, i)
    ensures a[i] == None ==> Free(a, i + 1) == Free(a, i) + 1
    ensures a[i] == None && Free(a, i) < |missing| ==> FilledWith(a, missing, block + [missing[Free(a, i)]], i + 1)
    ensures a[i] != None ==> Free(a, i + 1) == Free(a, i) && FilledWith(a, missing, block + [a[i].value], i + 1)
    ensures a[i] == None && Free(a, i) >= |missing| ==> Free(a, |a|) > |missing|
  {
    FreeMonotone(a, i + 1, |a|);
  }

  // ---------------------------------------------------------------- announcing a block

  /** CBlockHeaderAndShortTxIDs(block): the first transaction prefilled, the others by short id. */
  function Announce(vtx: seq<Tx>, sid: nat -> nat): CompactBlock
    requires |vtx| >= 1
  {
    CompactBlock(false, seq<nat>(|vtx| - 1, i requires 0 <= i < |vtx| - 1 => sid(vtx[i + 1].hash)),
                 [Prefilled(0, vtx[0])])
  }

  lemma AnnounceRepresents(vtx: seq<Tx>, sid: nat -> nat)
    requires |vtx| >= 1 && !vtx[0].isNull
    ensures Represents(Announce(vtx, sid), vtx, sid)
  {
    var c := Announce(vtx, sid);
    assert Position(c.prefilled, 0) == 0 by { assert Position(c.prefilled, -1) == -1; }
    assert PrefilledOk(c, 1);
    var a := PlacedSlots(c, 1);
    assert Placed(c, a, 1);
    forall i, s | 0 <= i < |c.shortIds| && 0 <= s && IsFree(a, i, s) ensures c.shortIds[i] == sid(vtx[s].hash) {
      AllButFirst(a, s);
    }
  }

  lemma {:induction false} AllButFirst(a: Slots, m: nat)
    requires m <= |a| && |a| >= 1 && a[0] != None && forall p | 0 < p < |a| :: a[p] == None
    ensures Free(a, m) == if m == 0 then 0 else m - 1
  {
    if m > 0 {
      AllButFirst(a, m - 1);
    }
  }

  /**
   A block of 65537 transactions: the last short id is recorded for slot 0, so that the last transaction, once it
   is found in the pool, replaces the prefilled first one.
  */
  lemma FirstTooLarge(vtx: seq<Tx>, sid: nat -> nat, slots: seq<nat>, ids: map<nat, nat>)
    requires |vtx| == UINT16 + 1 && !vtx[0].isNull
    requires var c := Announce(vtx, sid);
      && PrefilledOk(c, 1) && Assigned(PlacedSlots(c, 1), c.shortIds, slots, |c.shortIds|)
      && ids.Keys == (set i | 0 <= i < |c.shortIds| :: c.shortIds[i])
      && forall i | 0 <= i < |c.shortIds| :: ids[c.shortIds[i]] == slots[i] % UINT16
    ensures var (c, last) := (Announce(vtx, sid), vtx[UINT16]);
      && slots[UINT16 - 1] == UINT16 && sid(last.hash) in ids && ids[sid(last.hash)] == 0
      && PlacedSlots(c, 1)[0] == Some(vtx[0])
      && Settled([(last.hash, last)], sid, ids, 0, (Some(vtx[0]), false), true).0 == Some(last)
  {
    var (c, last) := (Announce(vtx, sid), vtx[UINT16]);
    var a := PlacedSlots(c, 1);
    assert Position(c.prefilled, 0) == 0 by { NoPosition(c.prefilled); }
    assert Placed(c, a, 1);
    AllButFirst(a, UINT16);
    FreeUnique(a, UINT16 - 1, UINT16, slots[UINT16 - 1]);
    assert c.shortIds[UINT16 - 1] == sid(last.hash);
    assert [(last.hash, last)][..0] == [];
    assert Aims(ids, sid, last.hash, 0);
  }

  /**
   A block announced, received, and filled with what the receiver asked for is the block, and nothing is asked
   for that the receiver had once in its pool, or among the extra transactions.
  */
  method Relay(vtx: seq<Tx>, sid: nat -> nat, limit: nat, crowded: nat -> bool, pool: seq<(nat, Tx)>,
          extra: seq<(nat, Tx)>, check: seq<Tx> -> (bool, bool))
    returns (status: ReadStatus, block: seq<Tx>, asked: seq<Tx>)
    requires 1 <= |vtx| <= limit && |vtx| <= UINT16 && !vtx[0].isNull
    requires Distinct(Announce(vtx, sid).shortIds) && NoCollision(vtx, sid, pool) && NoCollision(vtx, sid, extra)
    requires forall i | 0 <= i < |vtx| :: !crowded(i)
    ensures block == vtx
    ensures status == if check(vtx).0 then Ok else if check(vtx).1 then Failed else CheckBlockFailed
    ensures Once(pool) ==> forall t | t in asked :: !InList(pool, sid, t) && !InList(extra, sid, t)
  {
    hide Represents, NoCollision, Free, PrefilledOk, Distinct, FilledWith, Unavailable, InList, Once;
    AnnounceRepresents(vtx, sid);
    RepresentsOk(Announce(vtx, sid), vtx, sid);
    var received := new PartiallyDownloadedBlock();
    status := received.InitData(Announce(vtx, sid), limit, crowded, sid, pool, extra, vtx);
    var a := received.txnAvailable;
    UnavailableAt(a, vtx, |a|);
    asked := Missing(a, vtx);
    forall t | t in asked ensures exists p | 0 <= p < |a| :: a[p] == None && vtx[p] == t {
      UnavailableFrom(a, vtx, |a|, t);
    }
    status, block := received.FillBlock(asked, check);
    FillRebuilds(a, vtx, block);
  }

  lemma RepresentsOk(c: CompactBlock, vtx: seq<Tx>, sid: nat -> nat)
    requires Represents(c, vtx, sid)
    ensures PrefilledOk(c, |c.prefilled|)
  {
  }

  /** The answer to the request for the transactions that are not available. */
  method Missing(a: Slots, vtx: seq<Tx>) returns (missing: seq<Tx>)
    requires |a| == |vtx|
    ensures missing == Unavailable(a, vtx, |a|)
  {
    missing := [];
    for i := 0 to |a|
      invariant missing == Unavailable(a, vtx, i)
    {
      if a[i] == None {
        missing := missing + [vtx[i]];
      }
    }
  }
}
