/**
 CAddrMan::Check_ of src/addrman.cpp, the audit a debug build makes after every operation: a walk over
 mapInfo and both bucket tables that answers zero or the code of the first thing it finds wrong.
*/
module AddrManCheck {
  import opened AddrMan

  // ---------------------------------------------------------------- what each code complains about

  /** mapAddr[info]: an absent key reads as id 0. The key is the service as it stands, port included. */
  function Lookup(addr: map<Service, int>, s: Service): int {
    if s in addr then addr[s] else 0
  }

  /** The filled slots that hold an id; -1 marks an empty slot. */
  ghost function Filled(t: Table, id: int): set<Slot> {
    if id == -1 then {} else Slots(t, id)
  }

  ghost predicate EntryFault(v: View, id: int, code: int)
    requires id in v.info
  {
    var i := v.info[id];
    || (code == -1 && i.fInTried && i.nLastSuccess == 0)
    || (code == -2 && i.fInTried && i.nRefCount != 0)
    || (code == -3 && !i.fInTried && !(0 <= i.nRefCount <= NEW_BUCKETS_PER_ADDRESS))
    || (code == -4 && !i.fInTried && i.nRefCount == 0)
    || (code == -5 && Lookup(v.addr, i.service) != id)
    || (code == -14 && !AtItsPosition(v, id))
    || (code == -6 && i.nLastTry < 0)
    || (code == -8 && i.nLastSuccess < 0)
  }

  ghost predicate TriedFault(h: Hashes, v: View, s: Slot, code: int)
    requires s in v.triedT
  {
    var id := v.triedT[s];
    && id != -1
    && (|| (code == -11 && (id !in TriedIds(v.info) || |Filled(v.triedT, id)| > 1))
        || (code == -17 && id in v.info && TriedBucket(h, v.info[id].service) != s.0)
        || (code == -18 && id in v.info && Position(h, v.info[id].service, false, s.0) != s.1))
  }

  ghost predicate NewFault(h: Hashes, v: View, s: Slot, code: int)
    requires s in v.newT
  {
    var id := v.newT[s];
    && id != -1
    && (|| (code == -12 && (id !in NewIds(v.info) || |Filled(v.newT, id)| > v.info[id].nRefCount))
        || (code == -19 && id in v.info && Position(h, v.info[id].service, true, s.0) != s.1))
  }

  ghost predicate SlotFault(h: Hashes, v: View, code: int) {
    || (exists s | s in v.triedT :: TriedFault(h, v, s, code))
    || (exists s | s in v.newT :: NewFault(h, v, s, code))
  }

  ghost predicate Fault(h: Hashes, v: View, fKeyNull: bool, code: int) {
    || (code == -7 && |v.rnd| != v.nTried + v.nNew)
    || (exists id | id in v.info :: EntryFault(v, id, code))
    || (code == -9 && |TriedIds(v.info)| != v.nTried)
    || (code == -10 && |NewIds(v.info)| != v.nNew)
    || SlotFault(h, v, code)
    || (code == -13 && exists id | id in TriedIds(v.info) :: |Filled(v.triedT, id)| < 1)
    || (code == -15 && exists id | id in NewIds(v.info) :: |Filled(v.newT, id)| < v.info[id].nRefCount)
    || (code == -16 && fKeyNull)
  }

  /** None of the complaints applies. */
  ghost predicate Passes(h: Hashes, v: View, fKeyNull: bool) {
    forall code :: !Fault(h, v, fKeyNull, code)
  }

  // ---------------------------------------------------------------- counting slots down

  ghost predicate Before(s: Slot, n: int, i: int) {
    s.0 < n || (s.0 == n && s.1 < i)
  }

  ghost function FilledBefore(t: Table, id: int, n: int, i: int): set<Slot> {
    set s | s in Filled(t, id) && Before(s, n, i)
  }

  /** What is left of a quota of slots per id once the slots before (n, i) have been counted down. */
  ghost predicate Down(quota: map<int, int>, left: map<int, int>, t: Table, n: int, i: int) {
    && (forall id | id in left :: id in quota)
    && (forall id | id in quota ::
          quota[id] == |FilledBefore(t, id, n, i)| + (if id in left then left[id] else 0))
    && (forall id | id in left :: left[id] >= 1)
    && (forall s | s in t && t[s] != -1 && Before(s, n, i) :: t[s] in quota)
  }

  /** --left[id], the id erased when nothing remains. */
  function Spent(left: map<int, int>, id: int): map<int, int>
    requires id in left
  {
    if left[id] == 1 then left - {id} else left[id := left[id] - 1]
  }

  lemma BeforeNext(t: Table, id: int, n: int, i: int)
    requires (n, i) in t
    ensures var s := (n, i);
      && s !in FilledBefore(t, id, n, i)
      && FilledBefore(t, id, n, i + 1)
         == FilledBefore(t, id, n, i) + (if t[s] == id && id != -1 then {s} else {})
  {
  }

  lemma CountNext(t: Table, id: int, n: int, i: int)
    requires (n, i) in t
    ensures |FilledBefore(t, id, n, i + 1)|
      == |FilledBefore(t, id, n, i)| + (if t[(n, i)] == id && id != -1 then 1 else 0)
  {
    BeforeNext(t, id, n, i);
  }

  lemma DownStep(quota: map<int, int>, left: map<int, int>, t: Table, n: int, i: int)
    requires Down(quota, left, t, n, i) && (n, i) in t
    ensures t[(n, i)] == -1 ==> Down(quota, left, t, n, i + 1)
    ensures t[(n, i)] != -1 && t[(n, i)] in left ==> Down(quota, Spent(left, t[(n, i)]), t, n, i + 1)
    ensures t[(n, i)] != -1 && t[(n, i)] !in left ==>
      t[(n, i)] !in quota || |Filled(t, t[(n, i)])| > quota[t[(n, i)]]
  {
    hide FilledBefore, Filled;
    var id := t[(n, i)];
    forall x
      ensures |FilledBefore(t, x, n, i + 1)| == |FilledBefore(t, x, n, i)| + (if id == x && x != -1 then 1 else 0)
    {
      CountNext(t, x, n, i);
    }
    forall s | s in t && Before(s, n, i + 1) && !Before(s, n, i) ensures s == (n, i) {
    }
    if id != -1 && id !in left && id in quota {
      TooMany(t, id, n, i);
    }
  }

  lemma TooMany(t: Table, id: int, n: int, i: int)
    requires (n, i) in t && t[(n, i)] == id != -1
    ensures |Filled(t, id)| > |FilledBefore(t, id, n, i)|
  {
    BeforeNext(t, id, n, i);
    Within(FilledBefore(t, id, n, i + 1), Filled(t, id));
  }

  lemma DownStart(quota: map<int, int>, t: Table, buckets: int)
    requires forall s | s in t :: InTable(s, buckets)
    requires forall id | id in quota :: quota[id] >= 1
    ensures Down(quota, quota, t, 0, 0)
  {
    forall id ensures FilledBefore(t, id, 0, 0) == {} {
    }
  }

  lemma DownRow(quota: map<int, int>, left: map<int, int>, t: Table, buckets: int, n: int)
    requires Down(quota, left, t, n, BUCKET_SIZE) && forall s | s in t :: InTable(s, buckets)
    ensures Down(quota, left, t, n + 1, 0)
  {
    forall id ensures FilledBefore(t, id, n, BUCKET_SIZE) == FilledBefore(t, id, n + 1, 0) {
    }
  }

  lemma DownEnd(quota: map<int, int>, left: map<int, int>, t: Table, buckets: int)
    requires Down(quota, left, t, buckets, 0) && forall s | s in t :: InTable(s, buckets)
    ensures forall id | id in quota :: |Filled(t, id)| <= quota[id]
    ensures forall id | id in quota :: |Filled(t, id)| == quota[id] <==> id !in left
    ensures forall s | s in t && t[s] != -1 :: t[s] in quota
  {
    forall id ensures FilledBefore(t, id, buckets, 0) == Filled(t, id) {
    }
  }

  // ---------------------------------------------------------------- the same, put positively

  ghost predicate EntryPasses(v: View, id: int)
    requires id in v.info
  {
    var i := v.info[id];
    && (if i.fInTried then i.nLastSuccess != 0 && i.nRefCount == 0 else 1 <= i.nRefCount <= NEW_BUCKETS_PER_ADDRESS)
    && Lookup(v.addr, i.service) == id
    && AtItsPosition(v, id)
    && i.nLastTry >= 0 && i.nLastSuccess >= 0
  }

  ghost predicate TriedPasses(h: Hashes, v: View) {
    && (forall s | s in v.triedT && v.triedT[s] != -1 :: TriedSlotPasses(h, v, s))
    && (forall id | id in TriedIds(v.info) :: |Filled(v.triedT, id)| == 1)
  }

  ghost predicate TriedSlotPasses(h: Hashes, v: View, s: Slot)
    requires s in v.triedT
  {
    v.triedT[s] in TriedIds(v.info) && s == TriedSlot(h, v.info[v.triedT[s]].service)
  }

  ghost predicate NewPasses(h: Hashes, v: View) {
    && (forall s | s in v.newT && v.newT[s] != -1 :: NewSlotPasses(h, v, s))
    && (forall id | id in NewIds(v.info) :: |Filled(v.newT, id)| == v.info[id].nRefCount)
  }

  ghost predicate NewSlotPasses(h: Hashes, v: View, s: Slot)
    requires s in v.newT
  {
    v.newT[s] in NewIds(v.info) && s.1 == Position(h, v.info[v.newT[s]].service, true, s.0)
  }

  ghost predicate Sound(h: Hashes, v: View, fKeyNull: bool) {
    && |v.rnd| == v.nTried + v.nNew
    && (forall id | id in v.info :: EntryPasses(v, id))
    && |TriedIds(v.info)| == v.nTried && |NewIds(v.info)| == v.nNew
    && TriedPasses(h, v) && NewPasses(h, v)
    && !fKeyNull
  }

  lemma EntryFaults(v: View, id: int)
    requires id in v.info
    ensures EntryPasses(v, id) <==> forall code :: !EntryFault(v, id, code)
  {
    hide AtItsPosition, Lookup;
    if forall code :: !EntryFault(v, id, code) {
      forall code: int | -14 <= code <= -1 ensures !EntryFault(v, id, code) {
      }
      assert !EntryFault(v, id, -1) && !EntryFault(v, id, -2) && !EntryFault(v, id, -3) && !EntryFault(v, id, -4);
      assert !EntryFault(v, id, -5) && !EntryFault(v, id, -14) && !EntryFault(v, id, -6) && !EntryFault(v, id, -8);
    }
  }

  lemma SoundPasses(h: Hashes, v: View, fKeyNull: bool)
    requires Sound(h, v, fKeyNull)
    ensures Passes(h, v, fKeyNull)
  {
    hide Filled, EntryFault, EntryPasses, Position, TriedBucket;
    forall id | id in v.info ensures forall code :: !EntryFault(v, id, code) {
      EntryFaults(v, id);
    }
    forall s, code | s in v.triedT ensures !TriedFault(h, v, s, code) {
      if v.triedT[s] != -1 {
        assert TriedSlotPasses(h, v, s);
      }
    }
    forall s, code | s in v.newT ensures !NewFault(h, v, s, code) {
      if v.newT[s] != -1 {
        assert NewSlotPasses(h, v, s);
      }
    }
  }

  lemma PassesSound(h: Hashes, v: View, fKeyNull: bool)
    requires Passes(h, v, fKeyNull)
    ensures Sound(h, v, fKeyNull)
  {
    hide EntryFault, EntryPasses, Position, TriedBucket;
    assert !Fault(h, v, fKeyNull, -7) && !Fault(h, v, fKeyNull, -9) && !Fault(h, v, fKeyNull, -10);
    assert !Fault(h, v, fKeyNull, -13) && !Fault(h, v, fKeyNull, -15) && !Fault(h, v, fKeyNull, -16);
    forall id | id in v.info ensures EntryPasses(v, id) {
      forall code ensures !EntryFault(v, id, code) {
        assert !Fault(h, v, fKeyNull, code);
      }
      EntryFaults(v, id);
    }
    forall s | s in v.triedT && v.triedT[s] != -1 ensures TriedSlotPasses(h, v, s) {
      TriedFaults(h, v, fKeyNull, s);
    }
    forall s | s in v.newT && v.newT[s] != -1 ensures NewSlotPasses(h, v, s) {
      NewFaults(h, v, fKeyNull, s);
    }
    forall id | id in TriedIds(v.info) ensures |Filled(v.triedT, id)| == 1 {
      AtMost(h, v, fKeyNull, id);
    }
    forall id | id in NewIds(v.info) ensures |Filled(v.newT, id)| == v.info[id].nRefCount {
      AtMost(h, v, fKeyNull, id);
    }
  }

  lemma TriedFaults(h: Hashes, v: View, fKeyNull: bool, s: Slot)
    requires Passes(h, v, fKeyNull) && s in v.triedT && v.triedT[s] != -1
    ensures TriedSlotPasses(h, v, s)
  {
    hide EntryFault, Filled;
    forall code ensures !TriedFault(h, v, s, code) {
      assert !Fault(h, v, fKeyNull, code);
    }
    assert !TriedFault(h, v, s, -11) && !TriedFault(h, v, s, -17) && !TriedFault(h, v, s, -18);
  }

  lemma NewFaults(h: Hashes, v: View, fKeyNull: bool, s: Slot)
    requires Passes(h, v, fKeyNull) && s in v.newT && v.newT[s] != -1
    ensures NewSlotPasses(h, v, s)
  {
    hide EntryFault, Filled;
    forall code ensures !NewFault(h, v, s, code) {
      assert !Fault(h, v, fKeyNull, code);
    }
    assert !NewFault(h, v, s, -12) && !NewFault(h, v, s, -19);
  }

  lemma TooManySlots(h: Hashes, v: View, fKeyNull: bool, id: int)
    requires id in v.info
    ensures |Filled(v.triedT, id)| > 1 ==> Fault(h, v, fKeyNull, -11)
    ensures |Filled(v.newT, id)| > 0 && |Filled(v.newT, id)| > v.info[id].nRefCount ==> Fault(h, v, fKeyNull, -12)
    ensures EntryFault(v, id, -3) ==> Fault(h, v, fKeyNull, -3)
  {
    hide EntryFault;
    if |Filled(v.triedT, id)| > 1 {
      var s :| s in Filled(v.triedT, id);
      assert TriedFault(h, v, s, -11);
    }
    if |Filled(v.newT, id)| > 0 && |Filled(v.newT, id)| > v.info[id].nRefCount {
      var s :| s in Filled(v.newT, id);
      assert NewFault(h, v, s, -12);
    }
  }

  lemma AtMost(h: Hashes, v: View, fKeyNull: bool, id: int)
    requires Passes(h, v, fKeyNull) && id in v.info
    ensures |Filled(v.triedT, id)| <= 1
    ensures id in NewIds(v.info) ==> |Filled(v.newT, id)| <= v.info[id].nRefCount
  {
    hide Fault;
    TooManySlots(h, v, fKeyNull, id);
    assert !Fault(h, v, fKeyNull, -3) && !Fault(h, v, fKeyNull, -11) && !Fault(h, v, fKeyNull, -12);
  }

  // ---------------------------------------------------------------- what passing means

  /** What Check_ does not look at: the ids handed out, mapAddr beyond one look-up per entry, entry 0's key. */
  ghost predicate Tidy(d: bool, v: View) {
    && 0 <= v.nIdCount && (forall id | id in v.info :: 0 <= id < v.nIdCount)
    && (forall k | k in v.addr :: At(v.addr, k) in v.info && Key(d, v.info[At(v.addr, k)].service) == k)
    && (0 in v.info ==> Key(d, v.info[0].service) in v.addr && v.addr[Key(d, v.info[0].service)] == 0)
    && (forall s: Slot :: s in v.newT <==> InTable(s, NEW_BUCKET_COUNT))
    && (forall s: Slot :: s in v.triedT <==> InTable(s, TRIED_BUCKET_COUNT))
  }

  /** The look-up of Check_ and the look-up of Find agree on every entry. */
  ghost predicate OwnKeys(d: bool, info: Infos) {
    forall id | id in info :: id == 0 || Key(d, info[id].service) == info[id].service
  }

  lemma LookupAgrees(d: bool, v: View)
    requires Tidy(d, v)
    ensures (forall id | id in v.info :: Lookup(v.addr, v.info[id].service) == id)
      <==> Filed(d, v) && OwnKeys(d, v.info)
  {
    if forall id | id in v.info :: Lookup(v.addr, v.info[id].service) == id {
      forall id | id in v.info
        ensures Key(d, v.info[id].service) in v.addr && v.addr[Key(d, v.info[id].service)] == id
        ensures id == 0 || Key(d, v.info[id].service) == v.info[id].service
      {
        if id != 0 {
          assert At(v.addr, v.info[id].service) == id;
        }
      }
    }
    if Filed(d, v) && OwnKeys(d, v.info) {
      forall id | id in v.info ensures Lookup(v.addr, v.info[id].service) == id {
        if id == 0 && v.info[0].service in v.addr {
          assert At(v.addr, v.info[0].service) in v.info;
        }
      }
    }
  }

  lemma SoundSlots(h: Hashes, v: View, id: int)
    requires TriedPasses(h, v) && NewPasses(h, v) && id in v.info && id != -1
    ensures |Slots(v.triedT, id)| == (if v.info[id].fInTried then 1 else 0)
    ensures |Slots(v.newT, id)| == (if v.info[id].fInTried then 0 else v.info[id].nRefCount)
  {
    hide Position, TriedSlot;
    assert Filled(v.triedT, id) == Slots(v.triedT, id) && Filled(v.newT, id) == Slots(v.newT, id);
    if v.info[id].fInTried {
      forall s | s in v.newT ensures v.newT[s] != id {
        if v.newT[s] != -1 {
          assert NewSlotPasses(h, v, s);
        }
      }
      SlotsEmpty(v.newT, id);
      assert id in TriedIds(v.info);
    } else {
      forall s | s in v.triedT ensures v.triedT[s] != id {
        if v.triedT[s] != -1 {
          assert TriedSlotPasses(h, v, s);
        }
      }
      SlotsEmpty(v.triedT, id);
      assert id in NewIds(v.info);
    }
  }

  lemma SoundPlaced(h: Hashes, v: View)
    requires TriedPasses(h, v) && NewPasses(h, v) && -1 !in v.info
    requires forall s: Slot :: s in v.newT <==> InTable(s, NEW_BUCKET_COUNT)
    requires forall s: Slot :: s in v.triedT <==> InTable(s, TRIED_BUCKET_COUNT)
    ensures Placed(h, v)
  {
    hide Filled;
    forall s | s in v.newT && v.newT[s] != -1 ensures NewSlotPasses(h, v, s) {
    }
    forall s | s in v.triedT && v.triedT[s] != -1 ensures TriedSlotPasses(h, v, s) {
    }
  }

  lemma SoundMeans(h: Hashes, d: bool, v: View, fKeyNull: bool)
    requires Tidy(d, v) && Sound(h, v, fKeyNull)
    ensures Consistent(h, d, v, {}, 0) && TimesOk(v.info) && OwnKeys(d, v.info)
  {
    hide Filed, Listed, Placed, OwnKeys, TriedPasses, NewPasses, Slots, AtItsPosition, Lookup, TriedIds, NewIds;
    forall id | id in v.info
      ensures AtItsPosition(v, id) && Lookup(v.addr, v.info[id].service) == id
    {
      assert EntryPasses(v, id);
    }
    LookupAgrees(d, v);
    IdsSplit(v.info);
    RandomIsFull(v);
    SoundPlaced(h, v);
    forall id | id in v.info
      ensures |Slots(v.triedT, id)| == (if v.info[id].fInTried then 1 else 0)
      ensures |Slots(v.newT, id)| == v.info[id].nRefCount
    {
      assert EntryPasses(v, id);
      SoundSlots(h, v, id);
    }
    assert NewIds(v.info) - {} == NewIds(v.info);
    forall id | id in v.info
      ensures if v.info[id].fInTried then v.info[id].nRefCount == 0 && v.info[id].nLastSuccess != 0
              else 1 <= v.info[id].nRefCount <= NEW_BUCKETS_PER_ADDRESS
      ensures v.info[id].nLastTry >= 0 && v.info[id].nLastSuccess >= 0
    {
      assert EntryPasses(v, id);
    }
  }

  lemma ConsistentPasses(h: Hashes, d: bool, v: View)
    requires Placed(h, v) && RefCounted(v, {})
    ensures TriedPasses(h, v) && NewPasses(h, v)
  {
    hide Slots, Position, TriedSlot;
  }

  lemma ConsistentSound(h: Hashes, d: bool, v: View)
    requires Tidy(d, v) && Consistent(h, d, v, {}, 0) && TimesOk(v.info) && OwnKeys(d, v.info)
    ensures Sound(h, v, false)
  {
    hide Filed, Listed, Placed, OwnKeys, TriedPasses, NewPasses, Slots, Lookup, TriedIds, NewIds;
    LookupAgrees(d, v);
    CountsAddUp(h, d, v);
    ConsistentPasses(h, d, v);
    assert NewIds(v.info) - {} == NewIds(v.info);
    forall id | id in v.info ensures EntryPasses(v, id) {
      ListedAt(v, id);
    }
  }

  lemma ListedAt(v: View, id: int)
    requires Listed(v) && id in v.info
    ensures AtItsPosition(v, id)
  {
  }

  /**
   What Check_ decides: on a state whose unchecked parts are in order it finds nothing wrong exactly when
   the six structures agree, the times are in order, the key is set, and no entry other than the first is
   filed under a key that differs from its service.
  */
  lemma CheckMeans(h: Hashes, d: bool, v: View, fKeyNull: bool)
    requires Tidy(d, v)
    ensures Passes(h, v, fKeyNull)
      <==> Consistent(h, d, v, {}, 0) && TimesOk(v.info) && OwnKeys(d, v.info) && !fKeyNull
  {
    hide Passes, Sound, Consistent, TimesOk, OwnKeys, Tidy;
    if Passes(h, v, fKeyNull) {
      PassesSound(h, v, fKeyNull);
      SoundMeans(h, d, v, fKeyNull);
      assert !fKeyNull by {
        KeySet(h, v, fKeyNull);
      }
    } else if Consistent(h, d, v, {}, 0) && TimesOk(v.info) && OwnKeys(d, v.info) && !fKeyNull {
      ConsistentSound(h, d, v);
      SoundPasses(h, v, fKeyNull);
    }
  }

  lemma KeySet(h: Hashes, v: View, fKeyNull: bool)
    requires Sound(h, v, fKeyNull)
    ensures !fKeyNull
  {
    hide TriedPasses, NewPasses, EntryPasses;
  }

  lemma ConsistentTidy(h: Hashes, d: bool, v: View)
    requires Consistent(h, d, v, {}, 0)
    ensures Tidy(d, v)
  {
    hide Listed, RefCounted, Counted;
  }

  // ---------------------------------------------------------------- the walk itself

  /** mapAddr after some look-ups by operator[]: the keys that were missing are filed under 0. */
  ghost predicate Probed(was: map<Service, int>, now: map<Service, int>, info: Infos) {
    && (forall k | k in was :: k in now && now[k] == was[k])
    && (forall k | k in now && k !in was :: now[k] == 0 && exists id | id in info :: info[id].service == k)
  }

  lemma Member<T>(s: set<T>) returns (x: T)
    requires s != {}
    ensures x in s
  {
    x :| x in s;
  }

  predicate IsLeast(s: set<int>, x: int) {
    x in s && forall y | y in s :: x <= y
  }

  lemma {:induction false} HasLeast(s: set<int>)
    requires s != {}
    ensures exists x :: IsLeast(s, x)
  {
    var x := Member(s);
    if s == {x} {
      assert IsLeast(s, x);
    } else {
      HasLeast(s - {x});
      var y :| IsLeast(s - {x}, y);
      forall z | z in s ensures x <= z || y <= z {
        assert z == x || z in s - {x};
      }
      assert IsLeast(s, if x <= y then x else y);
    }
  }

  ghost function NewCounts(info: Infos, todo: set<int>): map<int, int> {
    map id | id in info && !info[id].fInTried && id !in todo :: info[id].nRefCount
  }

  /** The first loop, over mapInfo in the order of the ids. */
  method CheckEntries(m: Manager) returns (r: int, setTried: set<int>, mapNew: map<int, int>)
    modifies m`mapAddr
    ensures Probed(old(m.mapAddr), m.mapAddr, m.mapInfo)
    ensures r == 0 ==> forall id | id in m.mapInfo :: EntryPasses(old(m.Now()), id)
    ensures r == 0 ==> setTried == TriedIds(m.mapInfo) && mapNew == NewCounts(m.mapInfo, {})
    ensures r != 0 ==> exists id | id in m.mapInfo :: EntryFault(old(m.Now()), id, r)
  {
    hide Contents;
    ghost var v := m.Now();
    var todo := m.mapInfo.Keys;
    setTried, mapNew := {}, map[];
    while todo != {}
      invariant todo <= m.mapInfo.Keys
      invariant Probed(v.addr, m.mapAddr, m.mapInfo)
      invariant forall id | id in m.mapInfo && id !in todo :: EntryPasses(v, id)
      invariant setTried == TriedIds(m.mapInfo) - todo && mapNew == NewCounts(m.mapInfo, todo)
    {
      HasLeast(todo);
      var n :| n in todo && IsLeast(todo, n);
      var info := m.mapInfo[n];
      if info.fInTried {
        if info.nLastSuccess == 0 {
          return -1, setTried, mapNew;
        }
        if info.nRefCount != 0 {
          return -2, setTried, mapNew;
        }
        setTried := setTried + {n};
      } else {
        if info.nRefCount < 0 || info.nRefCount > NEW_BUCKETS_PER_ADDRESS {
          return -3, setTried, mapNew;
        }
        if info.nRefCount == 0 {
          return -4, setTried, mapNew;
        }
        mapNew := mapNew[n := info.nRefCount];
      }
      if info.service !in m.mapAddr {
        m.mapAddr := m.mapAddr[info.service := 0];
      }
      if m.mapAddr[info.service] != n {
        return -5, setTried, mapNew;
      }
      if info.nRandomPos < 0 || info.nRandomPos >= |m.vRandom| || m.vRandom[info.nRandomPos] != n {
        return -14, setTried, mapNew;
      }
      if info.nLastTry < 0 {
        return -6, setTried, mapNew;
      }
      if info.nLastSuccess < 0 {
        return -8, setTried, mapNew;
      }
      todo := todo - {n};
    }
    return 0, setTried, mapNew;
  }

  function Ones(ids: set<int>): map<int, int> {
    map id | id in ids :: 1
  }

  /** The loops over vvTried: the ids still without a slot remain. */
  method CheckTried(m: Manager, setTried: set<int>) returns (r: int, left: set<int>)
    requires m.Shape() && setTried == TriedIds(m.mapInfo)
    ensures r != 0 ==> SlotFault(m.hashes, m.Now(), r)
    ensures r == 0 ==> Down(Ones(setTried), Ones(left), m.Now().triedT, TRIED_BUCKET_COUNT, 0)
    ensures r == 0 ==>
      forall s | s in m.Now().triedT && m.Now().triedT[s] != -1 :: TriedSlotPasses(m.hashes, m.Now(), s)
  {
    hide Contents, Down, Filled;
    ghost var v := m.Now();
    TableShape(m.vvTried);
    DownStart(Ones(setTried), v.triedT, TRIED_BUCKET_COUNT);
    left := setTried;
    for n := 0 to TRIED_BUCKET_COUNT
      invariant Down(Ones(setTried), Ones(left), v.triedT, n, 0)
      invariant forall s | s in v.triedT && v.triedT[s] != -1 && Before(s, n, 0) :: TriedSlotPasses(m.hashes, v, s)
    {
      for i := 0 to BUCKET_SIZE
        invariant Down(Ones(setTried), Ones(left), v.triedT, n, i)
        invariant forall s | s in v.triedT && v.triedT[s] != -1 && Before(s, n, i) :: TriedSlotPasses(m.hashes, v, s)
      {
        ContentsAt(m.vvTried, n, i);
        DownStep(Ones(setTried), Ones(left), v.triedT, n, i);
        var id := m.vvTried[n, i];
        ghost var s := (n, i);
        if id != -1 {
          if id !in left {
            assert TriedFault(m.hashes, v, s, -11);
            return -11, left;
          }
          assert id in setTried by {
            DownKeys(Ones(setTried), Ones(left), v.triedT, n, i, id);
          }
          if TriedBucket(m.hashes, m.mapInfo[id].service) != n {
            assert TriedFault(m.hashes, v, s, -17);
            return -17, left;
          }
          if Position(m.hashes, m.mapInfo[id].service, false, n) != i {
            assert TriedFault(m.hashes, v, s, -18);
            return -18, left;
          }
          assert Spent(Ones(left), id) == Ones(left - {id});
          left := left - {id};
          assert TriedSlotPasses(m.hashes, v, s);
        }
      }
      DownRow(Ones(setTried), Ones(left), v.triedT, TRIED_BUCKET_COUNT, n);
    }
    return 0, left;
  }

  lemma DownKeys(quota: map<int, int>, left: map<int, int>, t: Table, n: int, i: int, id: int)
    requires Down(quota, left, t, n, i) && id in left
    ensures id in quota
  {
  }

  lemma TableShape(a: array2<int>)
    requires a.Length1 == BUCKET_SIZE
    ensures forall s: Slot :: s in Contents(a) <==> InTable(s, a.Length0)
  {
  }

  /** The loops over vvNew: the references not found remain. */
  method CheckNew(m: Manager, mapNew: map<int, int>) returns (r: int, left: map<int, int>)
    requires m.Shape() && mapNew == NewCounts(m.mapInfo, {})
    requires forall id | id in mapNew :: mapNew[id] >= 1
    ensures r != 0 ==> SlotFault(m.hashes, m.Now(), r)
    ensures r == 0 ==> Down(mapNew, left, m.Now().newT, NEW_BUCKET_COUNT, 0)
    ensures r == 0 ==>
      forall s | s in m.Now().newT && m.Now().newT[s] != -1 :: NewSlotPasses(m.hashes, m.Now(), s)
  {
    hide Contents, Down, Filled;
    ghost var v := m.Now();
    TableShape(m.vvNew);
    DownStart(mapNew, v.newT, NEW_BUCKET_COUNT);
    left := mapNew;
    for n := 0 to NEW_BUCKET_COUNT
      invariant Down(mapNew, left, v.newT, n, 0)
      invariant forall s | s in v.newT && v.newT[s] != -1 && Before(s, n, 0) :: NewSlotPasses(m.hashes, v, s)
    {
      for i := 0 to BUCKET_SIZE
        invariant Down(mapNew, left, v.newT, n, i)
        invariant forall s | s in v.newT && v.newT[s] != -1 && Before(s, n, i) :: NewSlotPasses(m.hashes, v, s)
      {
        ContentsAt(m.vvNew, n, i);
        DownStep(mapNew, left, v.newT, n, i);
        var id := m.vvNew[n, i];
        ghost var s := (n, i);
        if id != -1 {
          if id !in left {
            assert NewFault(m.hashes, v, s, -12);
            return -12, left;
          }
          assert id in mapNew by {
            DownKeys(mapNew, left, v.newT, n, i, id);
          }
          if Position(m.hashes, m.mapInfo[id].service, true, n) != i {
            assert NewFault(m.hashes, v, s, -19);
            return -19, left;
          }
          left := Spent(left, id);
          assert NewSlotPasses(m.hashes, v, s);
        }
      }
      DownRow(mapNew, left, v.newT, NEW_BUCKET_COUNT, n);
    }
    return 0, left;
  }

  /** CAddrMan::Check_; whether the secret key is null is a parameter. */
  method Check(m: Manager, fKeyNull: bool) returns (r: int)
    requires m.Shape()
    modifies m`mapAddr
    ensures r == 0 <==> Passes(m.hashes, old(m.Now()), fKeyNull)
    ensures r != 0 ==> Fault(m.hashes, old(m.Now()), fKeyNull, r)
    ensures Probed(old(m.mapAddr), m.mapAddr, m.mapInfo)
  {
    hide Contents, EntryFault, EntryPasses, Down, Filled, SlotFault, TriedSlot, Position;
    ghost var v := m.Now();
    if |m.vRandom| != m.nTried + m.nNew {
      assert Fault(m.hashes, v, fKeyNull, -7);
      return -7;
    }
    var setTried, mapNew;
    r, setTried, mapNew := CheckEntries(m);
    if r != 0 {
      assert Fault(m.hashes, v, fKeyNull, r);
      return;
    }
    IdsCounted(v, setTried, mapNew);
    TableShape(m.vvTried);
    TableShape(m.vvNew);
    if |setTried| != m.nTried {
      assert Fault(m.hashes, v, fKeyNull, -9);
      return -9;
    }
    if |mapNew| != m.nNew {
      assert Fault(m.hashes, v, fKeyNull, -10);
      return -10;
    }
    var triedLeft, newLeft;
    r, triedLeft := CheckTried(m, setTried);
    if r != 0 {
      SlotFaultSame(m.hashes, v, m.Now(), fKeyNull, r);
      return;
    }
    r, newLeft := CheckNew(m, mapNew);
    if r != 0 {
      SlotFaultSame(m.hashes, v, m.Now(), fKeyNull, r);
      return;
    }
    TriedEnd(m.hashes, v, triedLeft, fKeyNull);
    if triedLeft != {} {
      return -13;
    }
    NewEnd(m.hashes, v, mapNew, newLeft, fKeyNull);
    if newLeft != map[] {
      return -15;
    }
    if fKeyNull {
      assert Fault(m.hashes, v, fKeyNull, -16);
      return -16;
    }
    assert Sound(m.hashes, v, fKeyNull);
    SoundPasses(m.hashes, v, fKeyNull);
    return 0;
  }

  lemma TriedEnd(h: Hashes, v: View, left: set<int>, fKeyNull: bool)
    requires Down(Ones(TriedIds(v.info)), Ones(left), v.triedT, TRIED_BUCKET_COUNT, 0)
    requires forall s | s in v.triedT :: InTable(s, TRIED_BUCKET_COUNT)
    requires forall s | s in v.triedT && v.triedT[s] != -1 :: TriedSlotPasses(h, v, s)
    ensures if left == {} then TriedPasses(h, v) else Fault(h, v, fKeyNull, -13)
  {
    hide Filled, TriedSlotPasses;
    DownEnd(Ones(TriedIds(v.info)), Ones(left), v.triedT, TRIED_BUCKET_COUNT);
    if left != {} {
      var id := Member(left);
      assert id in Ones(left);
      assert |Filled(v.triedT, id)| < 1;
    }
  }

  lemma NewEnd(h: Hashes, v: View, mapNew: map<int, int>, left: map<int, int>, fKeyNull: bool)
    requires mapNew == NewCounts(v.info, {}) && Down(mapNew, left, v.newT, NEW_BUCKET_COUNT, 0)
    requires forall s | s in v.newT :: InTable(s, NEW_BUCKET_COUNT)
    requires forall s | s in v.newT && v.newT[s] != -1 :: NewSlotPasses(h, v, s)
    ensures if left == map[] then NewPasses(h, v) else Fault(h, v, fKeyNull, -15)
  {
    hide Filled, NewSlotPasses;
    DownEnd(mapNew, left, v.newT, NEW_BUCKET_COUNT);
    if left != map[] {
      var id := Member(left.Keys);
      assert |Filled(v.newT, id)| < v.info[id].nRefCount;
    }
  }

  lemma IdsCounted(v: View, setTried: set<int>, mapNew: map<int, int>)
    requires setTried == TriedIds(v.info) && mapNew == NewCounts(v.info, {})
    requires forall id | id in v.info :: EntryPasses(v, id)
    ensures |mapNew| == |NewIds(v.info)| && forall id | id in mapNew :: mapNew[id] >= 1
  {
    assert mapNew.Keys == NewIds(v.info);
    forall id | id in mapNew ensures mapNew[id] >= 1 {
      assert EntryPasses(v, id);
    }
  }

  /** Faults of slots do not depend on mapAddr. */
  lemma SlotFaultSame(h: Hashes, v: View, w: View, fKeyNull: bool, code: int)
    requires SlotFault(h, w, code) && w == v.(addr := w.addr)
    ensures Fault(h, v, fKeyNull, code)
  {
    if s :| s in w.triedT && TriedFault(h, w, s, code) {
      assert TriedFault(h, v, s, code);
    } else {
      var s :| s in w.newT && NewFault(h, w, s, code);
      assert NewFault(h, v, s, code);
    }
  }

  // ---------------------------------------------------------------- on the states the manager reaches

  lemma CheckOnConsistent(h: Hashes, d: bool, v: View, fKeyNull: bool)
    requires Consistent(h, d, v, {}, 0)
    ensures Passes(h, v, fKeyNull) <==> TimesOk(v.info) && OwnKeys(d, v.info) && !fKeyNull
    ensures d ==> OwnKeys(d, v.info)
  {
    hide Consistent, Passes, TimesOk;
    ConsistentTidy(h, d, v);
    CheckMeans(h, d, v, fKeyNull);
  }

  ghost function BlankTable(buckets: int): Table {
    map b, p | 0 <= b < buckets && 0 <= p < BUCKET_SIZE :: (b, p) := -1
  }

  lemma BlankTableIsBlank(buckets: int)
    ensures Blank(BlankTable(buckets), buckets)
  {
  }

  /** One address at port 9999, filed under id 1 where ports are not discriminated: consistent, yet refused. */
  ghost function Ported(): View {
    View(map[1 := AddrInfo(Service(7, 9999), 1, {}, 7, 0, 0, 0, 0, 1, false, 0)], map[Service(7, 0) := 1], [1], 2,
         BlankTable(NEW_BUCKET_COUNT)[(0, 0) := 1], BlankTable(TRIED_BUCKET_COUNT), 1, 0)
  }

  function ZeroHashes(): Hashes {
    Hashes(s => 0, (s, source) => 0, (s, fNew, b) => 0)
  }

  lemma PortedIndexed()
    ensures Filed(false, Ported()) && Listed(Ported()) && TimesOk(Ported().info)
    ensures Fault(ZeroHashes(), Ported(), false, -5)
  {
    hide SlotFault, BlankTable;
    assert EntryFault(Ported(), 1, -5);
  }

  lemma PortedTables()
    ensures forall s: Slot :: s in Ported().newT <==> InTable(s, NEW_BUCKET_COUNT)
    ensures forall s: Slot :: s in Ported().triedT <==> InTable(s, TRIED_BUCKET_COUNT)
    ensures forall s | s in Ported().newT :: Ported().newT[s] == if s == (0, 0) then 1 else -1
    ensures forall s | s in Ported().triedT :: Ported().triedT[s] == -1
    ensures Ported().info.Keys == {1} && !Ported().info[1].fInTried && Ported().info[1].nRefCount == 1
    ensures Ported().nNew == 1 && Ported().nTried == 0
  {
    hide BlankTable;
    BlankTableIsBlank(NEW_BUCKET_COUNT);
    BlankTableIsBlank(TRIED_BUCKET_COUNT);
  }

  lemma PortedPlaced()
    ensures Placed(ZeroHashes(), Ported())
  {
    hide Ported;
    PortedTables();
  }

  lemma PortedCounted()
    ensures RefCounted(Ported(), {}) && Counted(Ported(), {}, 0)
  {
    hide Ported;
    PortedTables();
    var v := Ported();
    assert (0, 0) in v.newT;
    assert Slots(v.newT, 1) == {(0, 0)} && Slots(v.triedT, 1) == {};
    assert NewIds(v.info) - {} == {1} && TriedIds(v.info) == {};
  }

  lemma ConsistentButRefused()
    ensures Consistent(ZeroHashes(), false, Ported(), {}, 0) && TimesOk(Ported().info)
    ensures Fault(ZeroHashes(), Ported(), false, -5)
  {
    hide Ported, Filed, Listed, Placed, RefCounted, Counted, TimesOk, Fault, ZeroHashes;
    PortedIndexed();
    PortedPlaced();
    PortedCounted();
  }

  /** A run of the manager from empty, then the audit of its last state. */
  method RunAndCheck(discriminatePorts: bool, hashes: Hashes, ops: seq<Op>) returns (m: Manager, r: int)
    ensures fresh(m) && (r == 0 <==> TimesOk(m.mapInfo) && OwnKeys(discriminatePorts, m.mapInfo))
    ensures discriminatePorts && (forall k | 0 <= k < |ops| :: PositiveTimes(ops[k])) ==> r == 0
  {
    hide Consistent, Contents, TimesOk, Passes, Fault;
    m := Run(discriminatePorts, hashes, ops);
    CheckOnConsistent(hashes, discriminatePorts, m.Now(), false);
    r := Check(m, false);
  }
}
