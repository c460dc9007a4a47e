/**
 The cuckoo cache of src/cuckoocache.h: eight candidate slots per element, erasure by marking slots
 as discardable, and two epochs that age entries out.

 The hash functions, the number of slots, the epoch size and the depth limit are parameters. The
 collection flags are a sequence of booleans here; BitPackedFlags below shows that the packed bytes
 of the source behave like one.
*/
module Cuckoo {
  import opened Wrappers

  const WAYS := 8

  /** The table with its flags: discard[i] marks slot i as free to overwrite, recent[i] its epoch. */
  datatype State<Element> = State(table: seq<Element>, discard: seq<bool>, recent: seq<bool>, counter: int)

  /** The fixed parameters; `blank` is the default-constructed element that fills a new table. */
  datatype Config<!Element> = Config(
    size: nat,
    epochSize: nat,
    depthLimit: nat,
    hash: (nat, Element) -> nat,
    blank: Element
  )

  /** compute_hashes: masking with size - 1 is taking the remainder, as size is a power of two. */
  function Locs<Element>(c: Config<Element>, e: Element): (locs: seq<nat>)
    requires c.size > 0
    ensures |locs| == WAYS && forall k | 0 <= k < WAYS :: locs[k] < c.size
  {
    seq(WAYS, k requires 0 <= k < WAYS => c.hash(k, e) % c.size)
  }

  ghost predicate Shaped<Element>(c: Config<Element>, s: State<Element>) {
    c.size > 0 && c.depthLimit > 0 && |s.table| == |s.discard| == |s.recent| == c.size
  }

  /** Every element that is not blank sits in one of its own slots. */
  ghost predicate Homed<Element>(c: Config<Element>, s: State<Element>)
    requires Shaped(c, s)
  {
    forall i | 0 <= i < c.size :: s.table[i] == c.blank || i in Locs(c, s.table[i])
  }

  /** No element other than blank occurs twice. */
  ghost predicate Unique<Element>(c: Config<Element>, s: State<Element>)
    requires Shaped(c, s)
  {
    forall i, j | 0 <= i < j < c.size :: s.table[i] == s.table[j] ==> s.table[i] == c.blank
  }

  // ---------------------------------------------------------------- what the kept slots hold

  /** Any quantity carried by an element and its epoch. */
  type Weight<!Element> = (Element, bool) -> int

  /** The total weight of the first n slots that are not discardable. */
  ghost function LoadTo<Element>(s: State<Element>, w: Weight<Element>, n: nat): int
    requires |s.table| == |s.discard| == |s.recent| && n <= |s.table|
  {
    if n == 0 then 0
    else LoadTo(s, w, n - 1) + if s.discard[n - 1] then 0 else w(s.table[n - 1], s.recent[n - 1])
  }

  ghost function Load<Element>(s: State<Element>, w: Weight<Element>): int
    requires |s.table| == |s.discard| == |s.recent|
  {
    LoadTo(s, w, |s.table|)
  }

  /** How often e is kept. */
  ghost function Copies<Element>(s: State<Element>, e: Element): int
    requires |s.table| == |s.discard| == |s.recent|
  {
    Load(s, (x, _) => if x == e then 1 else 0)
  }

  /** The number of kept entries of the current epoch. */
  ghost function Current<Element>(s: State<Element>): int
    requires |s.table| == |s.discard| == |s.recent|
  {
    Load(s, (_, r) => if r then 1 else 0)
  }

  ghost function SlotWeight<Element>(s: State<Element>, w: Weight<Element>, i: nat): int
    requires |s.table| == |s.discard| == |s.recent| && i < |s.table|
  {
    if s.discard[i] then 0 else w(s.table[i], s.recent[i])
  }

  /** The state with one slot replaced. */
  function Replaced<Element>(s: State<Element>, i: nat, e: Element, discard: bool, recent: bool): State<Element>
    requires |s.table| == |s.discard| == |s.recent| && i < |s.table|
  {
    s.(table := s.table[i := e], discard := s.discard[i := discard], recent := s.recent[i := recent])
  }

  lemma {:induction false} LoadToReplaced<Element>(s: State<Element>, i: nat, e: Element, d: bool, r: bool,
          w: Weight<Element>, n: nat)
    requires |s.table| == |s.discard| == |s.recent| && i < |s.table| && n <= |s.table|
    ensures LoadTo(Replaced(s, i, e, d, r), w, n)
         == LoadTo(s, w, n) + if i < n then (if d then 0 else w(e, r)) - SlotWeight(s, w, i) else 0
  {
    if n > 0 {
      LoadToReplaced(s, i, e, d, r, w, n - 1);
    }
  }

  lemma LoadReplaced<Element>(s: State<Element>, i: nat, e: Element, d: bool, r: bool, w: Weight<Element>)
    requires |s.table| == |s.discard| == |s.recent| && i < |s.table|
    ensures Load(Replaced(s, i, e, d, r), w) == Load(s, w) - SlotWeight(s, w, i) + if d then 0 else w(e, r)
  {
    LoadToReplaced(s, i, e, d, r, w, |s.table|);
  }

  // ---------------------------------------------------------------- epochs

  function Max(a: int, b: int): int { if a > b then a else b }

  /** epoch_check: count down, or scan; a full epoch is demoted and the previous one discarded. */
  ghost function EpochChecked<Element>(c: Config<Element>, s: State<Element>): State<Element>
    requires |s.table| == |s.discard| == |s.recent|
  {
    if s.counter != 0 then s.(counter := s.counter - 1)
    else if Current(s) >= c.epochSize then Aged(s).(counter := c.epochSize)
    else s.(counter := Max(1, Max(c.epochSize / 16, c.epochSize - Current(s))))
  }

  function Aged<Element>(s: State<Element>): (a: State<Element>)
    requires |s.table| == |s.discard| == |s.recent|
    ensures |a.table| == |a.discard| == |a.recent|
  {
    s.(discard := seq(|s.table|, i requires 0 <= i < |s.table| => s.discard[i] || !s.recent[i]),
       recent := seq(|s.table|, _ => false))
  }

  /** The most current-epoch entries a cache ever keeps. */
  function Bound<Element>(c: Config<Element>): int {
    c.epochSize + Max(1, c.epochSize / 16)
  }

  ghost predicate Inv<Element>(c: Config<Element>, s: State<Element>) {
    && Shaped(c, s) && Homed(c, s) && Unique(c, s)
    && s.counter >= 0 && Current(s) + s.counter <= Bound(c)
  }

  lemma {:induction false} LoadNonNegative<Element>(s: State<Element>, w: Weight<Element>, n: nat)
    requires |s.table| == |s.discard| == |s.recent| && n <= |s.table| && forall x, r :: w(x, r) >= 0
    ensures LoadTo(s, w, n) >= 0
  {
    if n > 0 {
      LoadNonNegative(s, w, n - 1);
    }
  }

  lemma {:induction false} NoneRecent<Element>(s: State<Element>, w: Weight<Element>, n: nat)
    requires |s.table| == |s.discard| == |s.recent| && n <= |s.table|
    requires forall i | 0 <= i < n :: !s.recent[i]
    requires forall x :: w(x, false) == 0
    ensures LoadTo(s, w, n) == 0
  {
    if n > 0 {
      NoneRecent(s, w, n - 1);
    }
  }

  lemma {:induction false} LoadIgnoresCounter<Element>(s: State<Element>, counter: int, w: Weight<Element>, n: nat)
    requires |s.table| == |s.discard| == |s.recent| && n <= |s.table|
    ensures LoadTo(s.(counter := counter), w, n) == LoadTo(s, w, n)
  {
    if n > 0 {
      LoadIgnoresCounter(s, counter, w, n - 1);
    }
  }

  /** The epoch changes: the counter has run out and the current epoch is full. */
  ghost predicate Ages<Element>(c: Config<Element>, s: State<Element>)
    requires |s.table| == |s.discard| == |s.recent|
  {
    s.counter == 0 && Current(s) >= c.epochSize
  }

  /** What an entry weighs after a change of epochs: one of the old epoch is gone, one of the current is now old. */
  ghost function Demoted<Element>(w: Weight<Element>): Weight<Element> {
    (x, r) => if r then w(x, false) else 0
  }

  ghost function Surviving<Element>(c: Config<Element>, s: State<Element>, w: Weight<Element>): Weight<Element>
    requires |s.table| == |s.discard| == |s.recent|
  {
    if Ages(c, s) then Demoted(w) else w
  }

  lemma {:induction false} AgedLoad<Element>(s: State<Element>, counter: int, w: Weight<Element>, n: nat)
    requires |s.table| == |s.discard| == |s.recent| && n <= |s.table|
    ensures LoadTo(Aged(s).(counter := counter), w, n) == LoadTo(s, Demoted(w), n)
  {
    if n > 0 {
      AgedLoad(s, counter, w, n - 1);
    }
  }

  /**
   epoch_check moves nothing in the table. Unless the epoch changes, what is kept stays as it is; when it does,
   the kept entries of the current epoch stay, as entries of the old one, and exactly those of the old epoch go.
  */
  lemma EpochEffect<Element>(c: Config<Element>, s: State<Element>, w: Weight<Element>)
    requires |s.table| == |s.discard| == |s.recent|
    ensures var s1 := EpochChecked(c, s);
      && |s1.table| == |s1.discard| == |s1.recent| && s1.table == s.table
      && Load(s1, w) == Load(s, Surviving(c, s, w))
      && (forall i | 0 <= i < |s.table| :: s1.discard[i] <==> s.discard[i] || (Ages(c, s) && !s.recent[i]))
      && (forall i | 0 <= i < |s.table| :: s1.recent[i] <==> s.recent[i] && !Ages(c, s))
  {
    hide Current;
    var s1 := EpochChecked(c, s);
    if Ages(c, s) {
      AgedLoad(s, s1.counter, w, |s.table|);
    } else {
      LoadIgnoresCounter(s, s1.counter, w, |s.table|);
    }
  }

  /**
   epoch_check leaves room for one more entry of the current epoch, and after a scan the next one waits until
   the epoch can be full.
  */
  lemma EpochKeeps<Element>(c: Config<Element>, s: State<Element>)
    requires Inv(c, s)
    ensures var s1 := EpochChecked(c, s);
      && Shaped(c, s1) && Homed(c, s1) && Unique(c, s1) && s1.table == s.table
      && s1.counter >= 0 && Current(s1) + 1 + s1.counter <= Bound(c)
      && (s.counter == 0 ==> Current(s1) + s1.counter >= c.epochSize)
  {
    var w: Weight<Element> := (_, r) => if r then 1 else 0;
    var s1 := EpochChecked(c, s);
    LoadNonNegative(s, w, |s.table|);
    if s.counter == 0 && Current(s) >= c.epochSize {
      NoneRecent(s1, w, |s.table|);
    } else {
      LoadIgnoresCounter(s, s1.counter, w, |s.table|);
    }
  }

  // ---------------------------------------------------------------- insertion

  /** The first of e's slots, from the k-th on, that holds e; -1 if none does. */
  ghost function HitFrom<Element>(c: Config<Element>, s: State<Element>, e: Element, k: nat): (loc: int)
    requires Shaped(c, s) && k <= WAYS
    ensures loc != -1 ==> 0 <= loc < c.size && loc in Locs(c, e) && s.table[loc] == e
    ensures loc == -1 ==> forall j | k <= j < WAYS :: s.table[Locs(c, e)[j]] != e
    decreases WAYS - k
  {
    if k == WAYS then -1
    else if s.table[Locs(c, e)[k]] == e then Locs(c, e)[k]
    else HitFrom(c, s, e, k + 1)
  }

  ghost function Hit<Element>(c: Config<Element>, s: State<Element>, e: Element): int
    requires Shaped(c, s)
  {
    HitFrom(c, s, e, 0)
  }

  /** For every element but the blank one, looking at its eight slots is looking everywhere. */
  lemma HitIsMembership<Element>(c: Config<Element>, s: State<Element>, e: Element)
    requires Shaped(c, s) && Homed(c, s)
    ensures Hit(c, s, e) != -1 ==> e in s.table
    ensures e in s.table && e != c.blank ==> Hit(c, s, e) != -1
  {
  }

  /** A kept element is found. */
  lemma {:induction false} KeptIsPresent<Element>(s: State<Element>, e: Element, n: nat)
    requires |s.table| == |s.discard| == |s.recent| && n <= |s.table|
    ensures LoadTo(s, (x, _) => if x == e then 1 else 0, n) > 0 ==> e in s.table[..n]
  {
    if n > 0 {
      KeptIsPresent(s, e, n - 1);
      assert s.table[..n] == s.table[..n - 1] + [s.table[n - 1]];
    }
  }

  ghost predicate Held<Element>(c: Config<Element>, s: State<Element>, e: Element)
    requires Shaped(c, s)
  {
    Homed(c, s) && Unique(c, s) && (e != c.blank ==> e !in s.table)
  }

  /** Putting the element in hand into one of its slots, in exchange for what was there. */
  lemma ExchangeKeeps<Element>(c: Config<Element>, s: State<Element>, e: Element, loc: nat, r: bool)
    requires Shaped(c, s) && Held(c, s, e) && loc < c.size && loc in Locs(c, e)
    ensures var s' := Replaced(s, loc, e, false, r);
      Shaped(c, s') && Held(c, s', s.table[loc])
  {
  }

  /** The position of the first occurrence of x, or the length if there is none (std::find). */
  function Find(locs: seq<nat>, x: int): (k: nat)
    ensures k <= |locs| && (k < |locs| ==> locs[k] == x)
    ensures k == |locs| ==> forall i | 0 <= i < |locs| :: locs[i] != x
  {
    if locs == [] || locs[0] == x then 0 else 1 + Find(locs[1..], x)
  }

  /** The slot insert swaps with next: the one after the last one used, in the order of the element's slots. */
  function NextLoc(locs: seq<nat>, lastLoc: int): (r: nat)
    requires |locs| == WAYS
    ensures r in locs
    ensures (forall i, j | 0 <= i < j < WAYS :: locs[i] != locs[j]) ==> r != lastLoc
  {
    locs[(1 + Find(locs, lastLoc)) % WAYS]
  }

  /** The weight of an entry that may be there. */
  ghost function Weighed<Element>(w: Weight<Element>, x: Option<(Element, bool)>): int {
    if x.Some? then w(x.value.0, x.value.1) else 0
  }

  /**
   What storing e does to what is kept: e is added to the current epoch, in place of an entry for e itself if
   one was kept, and at most one other entry is lost; none if e or a discardable slot is among e's slots.
  */
  ghost predicate StoreEffect<Element(!new)>(c: Config<Element>, s: State<Element>, s': State<Element>, e: Element,
          lost: Option<(Element, bool)>)
    requires Shaped(c, s) && Shaped(c, s')
  {
    var hit := Hit(c, s, e);
    && (forall w: Weight<Element> ::
          Load(s', w) == Load(s, w) + w(e, true) - (if hit == -1 then 0 else SlotWeight(s, w, hit)) - Weighed(w, lost))
    && (hit != -1 || (exists loc | loc in Locs(c, e) :: s.discard[loc]) ==> lost == None)
  }

  /** The same for insert, compared with the state before epoch_check. */
  ghost predicate InsertEffect<Element(!new)>(c: Config<Element>, s: State<Element>, s': State<Element>, e: Element,
          lost: Option<(Element, bool)>)
    requires Shaped(c, s) && Shaped(c, s')
  {
    var hit := Hit(c, s, e);
    && (forall w: Weight<Element> ::
          Load(s', w) == Load(s, Surviving(c, s, w)) + w(e, true)
            - (if hit == -1 then 0 else SlotWeight(s, Surviving(c, s, w), hit)) - Weighed(w, lost))
    && (hit != -1 || (exists loc | loc in Locs(c, e) :: s.discard[loc] || (Ages(c, s) && !s.recent[loc])) ==>
          lost == None)
  }

  lemma {:induction false} HitSame<Element>(c: Config<Element>, s: State<Element>, s1: State<Element>, e: Element,
          k: nat)
    requires Shaped(c, s) && Shaped(c, s1) && s.table == s1.table && k <= WAYS
    ensures HitFrom(c, s, e, k) == HitFrom(c, s1, e, k)
    decreases WAYS - k
  {
    if k < WAYS {
      HitSame(c, s, s1, e, k + 1);
    }
  }

  lemma EpochThenStore<Element(!new)>(c: Config<Element>, s: State<Element>, s': State<Element>, e: Element,
          lost: Option<(Element, bool)>)
    requires Shaped(c, s) && Shaped(c, EpochChecked(c, s)) && Shaped(c, s')
    requires StoreEffect(c, EpochChecked(c, s), s', e, lost)
    ensures InsertEffect(c, s, s', e, lost)
  {
    hide LoadTo, Load, EpochChecked, Ages, HitFrom;
    var s1 := EpochChecked(c, s);
    var hit := Hit(c, s1, e);
    EpochEffect(c, s, (_, _) => 0);
    HitSame(c, s, s1, e, 0);
    forall w: Weight<Element>
      ensures Load(s', w) == Load(s, Surviving(c, s, w)) + w(e, true)
        - (if hit == -1 then 0 else SlotWeight(s, Surviving(c, s, w), hit)) - Weighed(w, lost)
    {
      EpochEffect(c, s, w);
    }
  }

  /** In numbers of copies: at most one element is lost, and e is there afterwards unless it is that one. */
  lemma InsertCopies<Element(!new)>(c: Config<Element>, s: State<Element>, s': State<Element>, e: Element,
          lost: Option<(Element, bool)>, x: Element)
    requires Shaped(c, s) && Shaped(c, s') && InsertEffect(c, s, s', e, lost) && !Ages(c, s)
    ensures var hit := Hit(c, s, e);
      Copies(s', x) == Copies(s, x) + (if x == e && (hit == -1 || s.discard[hit]) then 1 else 0)
        - (if lost.Some? && lost.value.0 == x then 1 else 0)
  {
    hide LoadTo, Load, Ages, HitFrom;
    var w: Weight<Element> := (y, _) => if y == x then 1 else 0;
    assert Load(s', w) == Load(s, w) + w(e, true)
      - (if Hit(c, s, e) == -1 then 0 else SlotWeight(s, w, Hit(c, s, e))) - Weighed(w, lost);
  }

  /** Swapping along the way conserves every weight: the table and the element in hand together. */
  ghost predicate Conserved<Element(!new)>(s1: State<Element>, s: State<Element>, e: Element, held: Element, r: bool) {
    && |s1.table| == |s1.discard| == |s1.recent| && |s.table| == |s.discard| == |s.recent|
    && forall w: Weight<Element> :: Load(s, w) + w(held, r) == Load(s1, w) + w(e, true)
  }

  lemma ConservedAtFirst<Element(!new)>(s: State<Element>, e: Element)
    requires |s.table| == |s.discard| == |s.recent|
    ensures Conserved(s, s, e, e, true)
  {
  }

  /** A hit keeps its slot and joins the current epoch. */
  lemma KeepHit<Element(!new)>(c: Config<Element>, s: State<Element>, e: Element, loc: nat)
    requires Shaped(c, s) && Homed(c, s) && Unique(c, s) && s.counter >= 0 && Current(s) + 1 + s.counter <= Bound(c)
    requires Hit(c, s, e) == loc
    ensures var s' := s.(discard := s.discard[loc := false], recent := s.recent[loc := true]);
      Inv(c, s') && StoreEffect(c, s, s', e, None)
  {
    var s' := s.(discard := s.discard[loc := false], recent := s.recent[loc := true]);
    assert s' == Replaced(s, loc, e, false, true);
    forall w: Weight<Element> ensures Load(s', w) == Load(s, w) - SlotWeight(s, w, loc) + w(e, true) {
      LoadReplaced(s, loc, e, false, true, w);
    }
  }

  /** The element in hand takes a discardable slot. */
  lemma PlaceFree<Element(!new)>(c: Config<Element>, s1: State<Element>, s: State<Element>, e: Element,
          held: Element, r: bool, loc: nat)
    requires Shaped(c, s1) && Shaped(c, s) && Held(c, s, held) && Conserved(s1, s, e, held, r)
    requires s.counter == s1.counter >= 0 && Current(s1) + 1 + s1.counter <= Bound(c)
    requires Hit(c, s1, e) == -1
    requires loc < c.size && loc in Locs(c, held) && s.discard[loc]
    ensures var s' := Replaced(s, loc, held, false, r);
      Inv(c, s') && StoreEffect(c, s1, s', e, None)
  {
    var s' := Replaced(s, loc, held, false, r);
    ExchangeKeeps(c, s, held, loc, r);
    forall w: Weight<Element> ensures Load(s', w) == Load(s1, w) + w(e, true) {
      LoadReplaced(s, loc, held, false, r, w);
    }
    hide LoadTo;
  }

  /** The element in hand changes places with a kept one. */
  lemma ExchangeConserves<Element(!new)>(c: Config<Element>, s1: State<Element>, s: State<Element>, e: Element,
          held: Element, r: bool, loc: nat)
    requires Shaped(c, s1) && Shaped(c, s) && Held(c, s, held) && Conserved(s1, s, e, held, r)
    requires loc < c.size && loc in Locs(c, held) && !s.discard[loc]
    ensures var s' := s.(table := s.table[loc := held], recent := s.recent[loc := r]);
      Shaped(c, s') && Held(c, s', s.table[loc]) && Conserved(s1, s', e, s.table[loc], s.recent[loc])
  {
    var s' := s.(table := s.table[loc := held], recent := s.recent[loc := r]);
    assert s' == Replaced(s, loc, held, false, r);
    ExchangeKeeps(c, s, held, loc, r);
    forall w: Weight<Element>
      ensures Load(s', w) + w(s.table[loc], s.recent[loc]) == Load(s1, w) + w(e, true)
    {
      LoadReplaced(s, loc, held, false, r, w);
    }
  }

  /** Out of depth: the element in hand is the one that is lost. */
  lemma DropHeld<Element(!new)>(c: Config<Element>, s1: State<Element>, s: State<Element>, e: Element, held: Element,
          r: bool)
    requires Shaped(c, s1) && Shaped(c, s) && Held(c, s, held) && Conserved(s1, s, e, held, r)
    requires s.counter == s1.counter >= 0 && Current(s1) + 1 + s1.counter <= Bound(c)
    requires Hit(c, s1, e) == -1 && forall loc | loc in Locs(c, e) :: !s1.discard[loc]
    ensures Inv(c, s) && StoreEffect(c, s1, s, e, Some((held, r)))
  {
  }

  class Cache<Element(==, !new)> {
    const c: Config<Element>
    var table: seq<Element>
    var collectionFlags: seq<bool>
    var epochFlags: seq<bool>
    var epochHeuristicCounter: int

    ghost function Now(): State<Element>
      reads this
    {
      State(table, collectionFlags, epochFlags, epochHeuristicCounter)
    }

    ghost predicate Valid()
      reads this
    {
      Inv(c, Now())
    }

    /** setup: every slot blank and discardable, and a whole epoch before the first scan. */
    constructor (c: Config<Element>)
      requires c.size > 0 && c.depthLimit > 0
      ensures Valid() && this.c == c
      ensures forall x :: Copies(Now(), x) == 0
    {
      this.c := c;
      table := seq(c.size, _ => c.blank);
      collectionFlags := seq(c.size, _ => true);
      epochFlags := seq(c.size, _ => false);
      epochHeuristicCounter := c.epochSize;
      new;
      forall w: Weight<Element> ensures Load(Now(), w) == 0 {
        NothingKept(Now(), w, c.size);
      }
    }

    /** epoch_check: two loops over the table when the counter has run out. */
    method EpochCheck()
      requires Valid()
      modifies this`collectionFlags, this`epochFlags, this`epochHeuristicCounter
      ensures Now() == EpochChecked(c, old(Now()))
    {
      if epochHeuristicCounter != 0 {
        epochHeuristicCounter := epochHeuristicCounter - 1;
        return;
      }
      ghost var s := Now();
      ghost var w: Weight<Element> := (_, r) => if r then 1 else 0;
      var epochUnusedCount := 0;
      for i := 0 to c.size
        invariant epochUnusedCount == LoadTo(s, w, i)
      {
        epochUnusedCount := epochUnusedCount + if epochFlags[i] && !collectionFlags[i] then 1 else 0;
      }
      if epochUnusedCount >= c.epochSize {
        for i := 0 to c.size
          invariant |collectionFlags| == |epochFlags| == c.size
          invariant forall j | 0 <= j < i :: collectionFlags[j] == Aged(s).discard[j] && !epochFlags[j]
          invariant forall j | i <= j < c.size :: collectionFlags[j] == s.discard[j] && epochFlags[j] == s.recent[j]
        {
          if epochFlags[i] {
            epochFlags := epochFlags[i := false];
          } else {
            collectionFlags := collectionFlags[i := true];
          }
        }
        assert collectionFlags == Aged(s).discard && epochFlags == Aged(s).recent;
        epochHeuristicCounter := c.epochSize;
      } else {
        epochHeuristicCounter := Max(1, Max(c.epochSize / 16, c.epochSize - epochUnusedCount));
      }
    }

    /** contains: a kept element is always found; erasing only marks the slot. */
    method Contains(e: Element, erase: bool) returns (found: bool)
      requires Valid()
      modifies this`collectionFlags
      ensures Valid()
      ensures found <==> Hit(c, old(Now()), e) != -1
      ensures found && e != c.blank ==> e in table
      ensures e in table && e != c.blank ==> found
      ensures collectionFlags ==
        if found && erase then old(collectionFlags)[Hit(c, old(Now()), e) := true] else old(collectionFlags)
    {
      HitIsMembership(c, Now(), e);
      var loc := Lookup(e);
      if loc != -1 && erase {
        EraseKeeps(c, Now(), loc);
        collectionFlags := collectionFlags[loc := true];
      }
      found := loc != -1;
    }

    /**
     insert: every kept element stays in one of its slots, at most one element is lost, and the
     current epoch never holds more than Bound(c) entries.
    */
    method Insert(e: Element) returns (ghost lost: Option<(Element, bool)>)
      requires Valid()
      modifies this`table, this`collectionFlags, this`epochFlags, this`epochHeuristicCounter
      ensures Valid() && InsertEffect(c, old(Now()), Now(), e, lost)
    {
      hide LoadTo, Homed, Unique, HitFrom, InsertEffect, StoreEffect;
      ghost var s := Now();
      EpochKeeps(c, s);
      EpochCheck();
      ghost var s1 := Now();
      var hit := Lookup(e);
      if hit != -1 {
        KeepHit(c, s1, e, hit);
        collectionFlags := collectionFlags[hit := false];
        epochFlags := epochFlags[hit := true];
        lost := None;
      } else {
        HitIsMembership(c, s1, e);
        lost := Displace(e);
      }
      EpochThenStore(c, s, Now(), e, lost);
    }

    /** The search over the eight slots that insert and contains share. */
    method Lookup(e: Element) returns (loc: int)
      requires Shaped(c, Now())
      ensures loc == Hit(c, Now(), e)
    {
      var locs := Locs(c, e);
      for k := 0 to WAYS
        invariant Hit(c, Now(), e) == HitFrom(c, Now(), e, k)
      {
        if table[locs[k]] == e {
          return locs[k];
        }
      }
      return -1;
    }

    /** The depth loop of insert, for an element that is not in the table. */
    method Displace(e: Element) returns (ghost lost: Option<(Element, bool)>)
      requires Shaped(c, Now()) && Held(c, Now(), e) && Hit(c, Now(), e) == -1
      requires epochHeuristicCounter >= 0 && Current(Now()) + 1 + epochHeuristicCounter <= Bound(c)
      modifies this`table, this`collectionFlags, this`epochFlags
      ensures Valid() && Shaped(c, old(Now())) && StoreEffect(c, old(Now()), Now(), e, lost)
    {
      hide LoadTo, Homed, Unique, HitFrom, Hit, StoreEffect, Held, Conserved, Inv, Current, NextLoc;
      ghost var s1 := Now();
      ConservedAtFirst(s1, e);
      var locs := Locs(c, e);
      var held, lastEpoch, lastLoc := e, true, -1;
      for depth := 0 to c.depthLimit
        invariant locs == Locs(c, held) && Shaped(c, Now()) && Held(c, Now(), held)
        invariant collectionFlags == s1.discard && epochHeuristicCounter == s1.counter
        invariant depth == 0 ==> held == e
        invariant depth > 0 ==> forall loc | loc in Locs(c, e) :: !s1.discard[loc]
        invariant Conserved(s1, Now(), e, held, lastEpoch)
      {
        var free := FirstFree(locs);
        if free < WAYS {
          PlaceFree(c, s1, Now(), e, held, lastEpoch, locs[free]);
          table := table[locs[free] := held];
          collectionFlags := collectionFlags[locs[free] := false];
          epochFlags := epochFlags[locs[free] := lastEpoch];
          return None;
        }
        lastLoc := NextLoc(locs, lastLoc);
        ExchangeConserves(c, s1, Now(), e, held, lastEpoch, lastLoc);
        table, held := table[lastLoc := held], table[lastLoc];
        epochFlags, lastEpoch := epochFlags[lastLoc := lastEpoch], epochFlags[lastLoc];
        locs := Locs(c, held);
      }
      lost := Some((held, lastEpoch));
      DropHeld(c, s1, Now(), e, held, lastEpoch);
    }

    /** The first of the slots that may be overwritten, or WAYS. */
    method FirstFree(locs: seq<nat>) returns (k: nat)
      requires |locs| == WAYS && forall j | 0 <= j < WAYS :: locs[j] < |collectionFlags|
      ensures k <= WAYS
      ensures k < WAYS ==> collectionFlags[locs[k]]
      ensures forall j | 0 <= j < k :: !collectionFlags[locs[j]]
    {
      k := 0;
      while k < WAYS && !collectionFlags[locs[k]]
        invariant k <= WAYS
        invariant forall j | 0 <= j < k :: !collectionFlags[locs[j]]
      {
        k := k + 1;
      }
    }

    /** The idiom documented for re-organisations: an element erased right after insertion is still there. */
    method InsertThenErase(e: Element) returns (r: bool)
      requires Valid()
      modifies this`table, this`collectionFlags, this`epochFlags, this`epochHeuristicCounter
      ensures Valid() && r
    {
      hide Inv, LoadTo, Current, InsertEffect, EpochChecked;
      var _ := Insert(e);
      var found := Contains(e, true);
      if found {
        r := Contains(e, false);
      } else {
        r := true;
      }
    }
  }

  lemma {:induction false} NothingKept<Element>(s: State<Element>, w: Weight<Element>, n: nat)
    requires |s.table| == |s.discard| == |s.recent| && n <= |s.table|
    requires forall i | 0 <= i < n :: s.discard[i]
    ensures LoadTo(s, w, n) == 0
  {
    if n > 0 {
      NothingKept(s, w, n - 1);
    }
  }

  lemma EraseKeeps<Element>(c: Config<Element>, s: State<Element>, loc: nat)
    requires Inv(c, s) && loc < c.size
    ensures Inv(c, s.(discard := s.discard[loc := true]))
  {
    var s' := Replaced(s, loc, s.table[loc], true, s.recent[loc]);
    assert s' == s.(discard := s.discard[loc := true]);
    LoadReplaced(s, loc, s.table[loc], true, s.recent[loc], (_, r) => if r then 1 else 0);
  }

  /** In a valid cache a kept element is found, is kept once, and the current epoch is bounded. */
  lemma ValidMeans<Element>(c: Config<Element>, s: State<Element>, e: Element)
    requires Inv(c, s)
    ensures Current(s) <= Bound(c)
    ensures e != c.blank && Copies(s, e) > 0 ==> Hit(c, s, e) != -1
    ensures e != c.blank ==> Copies(s, e) <= 1
  {
    KeptIsPresent(s, e, |s.table|);
    assert s.table[..|s.table|] == s.table;
    HitIsMembership(c, s, e);
    if e != c.blank {
      KeptOnce(c, s, e, |s.table|);
    }
  }

  lemma {:induction false} KeptOnce<Element>(c: Config<Element>, s: State<Element>, e: Element, n: nat)
    requires Shaped(c, s) && Unique(c, s) && e != c.blank && n <= |s.table|
    ensures 0 <= LoadTo(s, (x, _) => if x == e then 1 else 0, n) <= 1
  {
    if n > 0 {
      KeptOnce(c, s, e, n - 1);
      KeptIsPresent(s, e, n - 1);
    }
  }

  datatype Op<Element> = DoInsert(e: Element) | DoContains(e: Element, erase: bool)

  /** Over every run of inserts, look-ups and erasures. */
  method Run<Element(==, !new)>(c: Config<Element>, ops: seq<Op<Element>>) returns (cache: Cache<Element>)
    requires c.size > 0 && c.depthLimit > 0
    ensures cache.Valid() && cache.c == c
    ensures Current(cache.Now()) <= Bound(c)
    ensures forall e | e != c.blank && Copies(cache.Now(), e) > 0 :: Hit(c, cache.Now(), e) != -1
  {
    cache := new Cache(c);
    for n := 0 to |ops|
      invariant fresh(cache) && cache.c == c && cache.Valid()
    {
      if ops[n].DoInsert? {
        var _ := cache.Insert(ops[n].e);
      } else {
        var _ := cache.Contains(ops[n].e, ops[n].erase);
      }
    }
    forall e ensures e != c.blank && Copies(cache.Now(), e) > 0 ==> Hit(c, cache.Now(), e) != -1 {
      ValidMeans(c, cache.Now(), e);
    }
  }

  // ---------------------------------------------------------------- the packed flags

  /** 1 << k in a byte. */
  function Mask(k: nat): bv8
    requires k < 8
  {
    if k == 0 then 0x01 else if k == 1 then 0x02 else if k == 2 then 0x04 else if k == 3 then 0x08
    else if k == 4 then 0x10 else if k == 5 then 0x20 else if k == 6 then 0x40 else 0x80
  }

  predicate IsOn(b: bv8, k: nat)
    requires k < 8
  {
    b & Mask(k) != 0
  }

  lemma SetBit(b: bv8, k: nat, j: nat)
    requires k < 8 && j < 8
    ensures IsOn(b | Mask(k), j) <==> j == k || IsOn(b, j)
  {
  }

  lemma UnsetBit(b: bv8, k: nat, j: nat)
    requires k < 8 && j < 8
    ensures IsOn(b & !Mask(k), j) <==> j != k && IsOn(b, j)
  {
  }

  /** bit_packed_atomic_flags: eight flags to a byte. */
  class BitPackedFlags {
    const mem: array<bv8>
    ghost const size: nat

    ghost predicate Valid() {
      mem.Length == (size + 7) / 8
    }

    /** The flags the bytes stand for. */
    ghost function Flags(): (flags: seq<bool>)
      requires Valid()
      reads mem
      ensures |flags| == size
    {
      seq(size, i requires 0 <= i < size reads mem => IsOn(mem[i / 8], i % 8))
    }

    constructor (size: nat)
      ensures Valid() && fresh(mem) && this.size == size
      ensures Flags() == seq(size, _ => true)
    {
      this.size := size;
      mem := new bv8[(size + 7) / 8](_ => 0xFF);
    }

    method BitSet(s: nat)
      requires Valid() && s < size
      modifies mem
      ensures Flags() == old(Flags())[s := true]
    {
      hide Mask, IsOn;
      forall i | 0 <= i < size && i / 8 == s / 8 {
        SetBit(mem[s / 8], s % 8, i % 8);
      }
      mem[s / 8] := mem[s / 8] | Mask(s % 8);
    }

    method BitUnset(s: nat)
      requires Valid() && s < size
      modifies mem
      ensures Flags() == old(Flags())[s := false]
    {
      hide Mask, IsOn;
      forall i | 0 <= i < size && i / 8 == s / 8 {
        UnsetBit(mem[s / 8], s % 8, i % 8);
      }
      mem[s / 8] := mem[s / 8] & !Mask(s % 8);
    }

    method BitIsSet(s: nat) returns (r: bool)
      requires Valid() && s < size
      ensures r == Flags()[s]
    {
      r := IsOn(mem[s / 8], s % 8);
    }
  }
}
