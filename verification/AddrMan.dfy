/**
 The stochastic address manager of src/addrman.h and src/addrman.cpp.

 Six structures index the same entries: mapInfo, mapAddr, vRandom, the "new" and "tried" bucket
 tables and the two counters. The consistency conditions are those of CAddrMan::Check_, with mapAddr
 read at the key Find uses (the port is dropped unless ports are discriminated).
*/
module AddrMan {

  const TRIED_BUCKET_COUNT := 256
  const NEW_BUCKET_COUNT := 1024
  const BUCKET_SIZE := 64
  const NEW_BUCKETS_PER_ADDRESS := 8
  const HORIZON_DAYS := 30
  const RETRIES := 3
  const MAX_FAILURES := 10
  const MIN_FAIL_DAYS := 7
  const GETADDR_MAX_PCT := 23
  const GETADDR_MAX := 2500
  const DAY := 24 * 60 * 60

  type NetAddr = nat
  type ServiceFlags = set<nat>

  datatype Service = Service(ip: NetAddr, port: nat)

  /** CAddress: a service with its last-seen time and service bits. */
  datatype Address = Address(service: Service, nTime: int, nServices: ServiceFlags)

  datatype AddrInfo = AddrInfo(
    service: Service,
    nTime: int,
    nServices: ServiceFlags,
    source: NetAddr,
    nLastTry: int,
    nLastCountAttempt: int,
    nLastSuccess: int,
    nAttempts: int,
    nRefCount: int,
    fInTried: bool,
    nRandomPos: int
  ) {
    predicate IsTerrible(nNow: int) {
      if nLastTry != 0 && nLastTry >= nNow - 60 then false
      else if nTime > nNow + 10 * 60 then true
      else if nTime == 0 || nNow - nTime > HORIZON_DAYS * DAY then true
      else if nLastSuccess == 0 && nAttempts >= RETRIES then true
      else nNow - nLastSuccess > MIN_FAIL_DAYS * DAY && nAttempts >= MAX_FAILURES
    }
  }

  /**
   An entry is terrible if it has not been tried within a minute and its time lies in the future or more than thirty
   days back, or three attempts have failed without a success, or ten in the week since the last one.
  */
  lemma TerribleMeans(i: AddrInfo, nNow: int)
    ensures i.IsTerrible(nNow) <==>
      && (i.nLastTry == 0 || i.nLastTry < nNow - 60)
      && (|| i.nTime > nNow + 600 || i.nTime == 0 || i.nTime < nNow - 2592000
          || (i.nLastSuccess == 0 && i.nAttempts >= 3)
          || (i.nLastSuccess < nNow - 604800 && i.nAttempts >= 10))
  {
  }

  /** The keyed hashes, with the secret key already applied: arbitrary functions here. */
  datatype Hashes = Hashes(
    triedHash: Service -> nat,
    newHash: (Service, NetAddr) -> nat,
    posHash: (Service, bool, int) -> nat
  )

  type Slot = (int, int)
  type Table = map<Slot, int>

  function TriedBucket(h: Hashes, s: Service): (b: int)
    ensures 0 <= b < TRIED_BUCKET_COUNT
  {
    h.triedHash(s) % TRIED_BUCKET_COUNT
  }

  function NewBucket(h: Hashes, s: Service, source: NetAddr): (b: int)
    ensures 0 <= b < NEW_BUCKET_COUNT
  {
    h.newHash(s, source) % NEW_BUCKET_COUNT
  }

  function Position(h: Hashes, s: Service, fNew: bool, b: int): (p: int)
    ensures 0 <= p < BUCKET_SIZE
  {
    h.posHash(s, fNew, b) % BUCKET_SIZE
  }

  function TriedSlot(h: Hashes, s: Service): Slot {
    (TriedBucket(h, s), Position(h, s, false, TriedBucket(h, s)))
  }

  function NewSlot(h: Hashes, s: Service, source: NetAddr): Slot {
    (NewBucket(h, s, source), Position(h, s, true, NewBucket(h, s, source)))
  }

  /** The key under which Find and Create file a service. */
  function Key(discriminatePorts: bool, s: Service): Service {
    if discriminatePorts then s else s.(port := 0)
  }

  predicate InTable(s: Slot, buckets: int) {
    0 <= s.0 < buckets && 0 <= s.1 < BUCKET_SIZE
  }

  // ---------------------------------------------------------------- the conditions of Check_

  type Infos = map<int, AddrInfo>

  /** The contents of the six structures at one moment. */
  datatype View = View(
    info: Infos,
    addr: map<Service, int>,
    rnd: seq<int>,
    nIdCount: int,
    newT: Table,
    triedT: Table,
    nNew: int,
    nTried: int
  )

  // Named selections, so that the two directions of an index do not trigger each other for ever.
  function Nth(s: seq<int>, i: int): int
    requires 0 <= i < |s|
  {
    s[i]
  }

  function At(m: map<Service, int>, k: Service): int
    requires k in m
  {
    m[k]
  }

  /** mapAddr files exactly the entries of mapInfo, under their keys. */
  ghost predicate Filed(d: bool, v: View) {
    && 0 <= v.nIdCount
    && (forall id | id in v.info :: 0 <= id < v.nIdCount)
    && (forall id | id in v.info :: Key(d, v.info[id].service) in v.addr && v.addr[Key(d, v.info[id].service)] == id)
    && (forall k | k in v.addr :: At(v.addr, k) in v.info && Key(d, v.info[At(v.addr, k)].service) == k)
  }

  /** vRandom lists exactly the entries of mapInfo, at their positions. */
  ghost predicate Listed(v: View) {
    && (forall id | id in v.info :: 0 <= v.info[id].nRandomPos < |v.rnd| && v.rnd[v.info[id].nRandomPos] == id)
    && (forall i | 0 <= i < |v.rnd| :: Nth(v.rnd, i) in v.info && v.info[Nth(v.rnd, i)].nRandomPos == i)
  }

  /** A filled slot holds an entry of the right kind at the position its hash prescribes. */
  ghost predicate Placed(h: Hashes, v: View) {
    && -1 !in v.info
    && (forall s: Slot :: s in v.newT <==> InTable(s, NEW_BUCKET_COUNT))
    && (forall s: Slot :: s in v.triedT <==> InTable(s, TRIED_BUCKET_COUNT))
    && (forall s | s in v.newT && v.newT[s] != -1 ::
          && v.newT[s] in v.info
          && !v.info[v.newT[s]].fInTried
          && s.1 == Position(h, v.info[v.newT[s]].service, true, s.0))
    && (forall s | s in v.triedT && v.triedT[s] != -1 ::
          && v.triedT[s] in v.info
          && v.info[v.triedT[s]].fInTried
          && s == TriedSlot(h, v.info[v.triedT[s]].service))
  }

  /** The slots of a table that hold an id. */
  ghost function Slots(t: Table, id: int): set<Slot> {
    set s | s in t && t[s] == id
  }

  /**
   Reference counts are numbers of "new" slots, and a tried entry has exactly one "tried" slot.
   Entries in limbo (just created, or on their way from one table to the other) have no slot.
  */
  ghost predicate RefCounted(v: View, limbo: set<int>) {
    && (forall id | id in limbo :: id in v.info && !v.info[id].fInTried)
    && forall id | id in v.info ::
        && v.info[id].nRefCount == |Slots(v.newT, id)|
        && (if v.info[id].fInTried || id in limbo then v.info[id].nRefCount == 0
            else 1 <= v.info[id].nRefCount <= NEW_BUCKETS_PER_ADDRESS)
        && |Slots(v.triedT, id)| == (if v.info[id].fInTried then 1 else 0)
  }

  ghost function TriedIds(info: Infos): set<int> {
    set id | id in info && info[id].fInTried
  }

  ghost function NewIds(info: Infos): set<int> {
    set id | id in info && !info[id].fInTried
  }

  ghost predicate Counted(v: View, limbo: set<int>, extra: int) {
    && v.nTried == |TriedIds(v.info)|
    && v.nNew == |NewIds(v.info) - limbo| + extra
  }

  /** Check_'s structural conditions while some entries are in limbo and nNew is off by `extra`. */
  ghost predicate Consistent(h: Hashes, d: bool, v: View, limbo: set<int>, extra: int) {
    Filed(d, v) && Listed(v) && Placed(h, v) && RefCounted(v, limbo) && Counted(v, limbo, extra)
  }

  /** Check_'s conditions on recorded times, which depend on the times callers pass. */
  ghost predicate TimesOk(info: Infos) {
    forall id | id in info ::
      && info[id].nLastTry >= 0
      && info[id].nLastSuccess >= 0
      && (info[id].fInTried ==> info[id].nLastSuccess != 0)
  }

  // ---------------------------------------------------------------- the primitive changes

  ghost function WithInfo(v: View, id: int, i: AddrInfo): View {
    v.(info := v.info[id := i])
  }

  ghost function Created(d: bool, v: View, addr: Address, source: NetAddr): View {
    var id := v.nIdCount;
    v.(info := v.info[id := AddrInfo(addr.service, addr.nTime, addr.nServices, source, 0, 0, 0, 0, 0, false, |v.rnd|)],
       addr := v.addr[Key(d, addr.service) := id],
       rnd := v.rnd + [id],
       nIdCount := id + 1)
  }

  ghost function Swapped(v: View, i: int, j: int): View
    requires 0 <= i < |v.rnd| && 0 <= j < |v.rnd|
    requires v.rnd[i] in v.info && v.rnd[j] in v.info
  {
    if i == j then v
    else
      var (a, b) := (v.rnd[i], v.rnd[j]);
      var info1 := v.info[a := v.info[a].(nRandomPos := j)];
      v.(info := info1[b := info1[b].(nRandomPos := i)], rnd := v.rnd[i := b][j := a])
  }

  predicate CanDelete(v: View, id: int) {
    id in v.info && 0 <= v.info[id].nRandomPos < |v.rnd| && Nth(v.rnd, |v.rnd| - 1) in v.info
  }

  /**
   The entry leaves all indexes; the last id of vRandom takes its place there.
   In a consistent view every entry can be deleted.
  */
  ghost function Deleted(d: bool, v: View, id: int): View {
    if !CanDelete(v, id) then v
    else
      var pos := v.info[id].nRandomPos;
      var last := Nth(v.rnd, |v.rnd| - 1);
      v.(info := v.info[last := v.info[last].(nRandomPos := pos)] - {id},
         addr := v.addr - {Key(d, v.info[id].service)},
         rnd := v.rnd[pos := last][..|v.rnd| - 1],
         nNew := v.nNew - 1)
  }

  // ---------------------------------------------------------------- they keep the conditions

  lemma SlotsUpdate(t: Table, s: Slot, v: int, id: int)
    requires s in t
    ensures v == id != t[s] ==> |Slots(t[s := v], id)| == |Slots(t, id)| + 1
    ensures v != id == t[s] ==> |Slots(t[s := v], id)| == |Slots(t, id)| - 1
    ensures (v == id <==> t[s] == id) ==> Slots(t[s := v], id) == Slots(t, id)
  {
    var a, b := Slots(t, id), Slots(t[s := v], id);
    if v == id != t[s] {
      assert b == a + {s};
    } else if v != id == t[s] {
      assert a == b + {s};
    } else {
      assert a == b;
    }
  }

  lemma SlotsEmpty(t: Table, id: int)
    ensures |Slots(t, id)| == 0 <==> forall s | s in t :: t[s] != id
  {
    if |Slots(t, id)| == 0 {
      forall s | s in t ensures t[s] != id {
        assert s !in Slots(t, id);
      }
    } else {
      var s :| s in Slots(t, id);
    }
  }

  /** The views agree on everything but times, services and positions in vRandom. */
  ghost predicate SamePlaces(v: View, w: View) {
    && v.newT == w.newT && v.triedT == w.triedT && v.nNew == w.nNew && v.nTried == w.nTried
    && v.addr == w.addr && v.nIdCount == w.nIdCount
    && (forall id :: id in v.info <==> id in w.info)
    && forall id | id in v.info ::
        && v.info[id].service == w.info[id].service
        && v.info[id].fInTried == w.info[id].fInTried
        && v.info[id].nRefCount == w.info[id].nRefCount
  }

  lemma SamePlacesKeep(h: Hashes, d: bool, v: View, w: View, limbo: set<int>, extra: int)
    requires Filed(d, v) && Placed(h, v) && RefCounted(v, limbo) && Counted(v, limbo, extra)
    requires SamePlaces(v, w)
    ensures Filed(d, w) && Placed(h, w) && RefCounted(w, limbo) && Counted(w, limbo, extra)
  {
    forall id
      ensures id in TriedIds(v.info) <==> id in TriedIds(w.info)
      ensures id in NewIds(v.info) <==> id in NewIds(w.info)
    {
      assert id in v.info <==> id in w.info;
    }
    forall k | k in w.addr ensures At(w.addr, k) in w.info && Key(d, w.info[At(w.addr, k)].service) == k {
      assert At(v.addr, k) in v.info;
    }
    assert TriedIds(v.info) == TriedIds(w.info) && NewIds(v.info) == NewIds(w.info);
  }

  lemma SwapKeepsListed(v: View, i: int, j: int)
    requires Listed(v) && 0 <= i < |v.rnd| && 0 <= j < |v.rnd|
    ensures v.rnd[i] in v.info && v.rnd[j] in v.info
    ensures Listed(Swapped(v, i, j)) && SamePlaces(v, Swapped(v, i, j))
  {
    assert Nth(v.rnd, i) in v.info && Nth(v.rnd, j) in v.info;
    var w := Swapped(v, i, j);
    forall k | 0 <= k < |w.rnd| ensures Nth(w.rnd, k) in w.info && w.info[Nth(w.rnd, k)].nRandomPos == k {
      assert Nth(v.rnd, k) in v.info;
    }
  }

  lemma SwapKeeps(h: Hashes, d: bool, v: View, i: int, j: int, limbo: set<int>, extra: int)
    requires Consistent(h, d, v, limbo, extra)
    requires 0 <= i < |v.rnd| && 0 <= j < |v.rnd|
    ensures v.rnd[i] in v.info && v.rnd[j] in v.info
    ensures Consistent(h, d, Swapped(v, i, j), limbo, extra)
  {
    hide Filed, Listed, Placed, RefCounted, Counted, Swapped;
    SwapKeepsListed(v, i, j);
    SamePlacesKeep(h, d, v, Swapped(v, i, j), limbo, extra);
  }

  lemma CreateKeepsFiled(d: bool, v: View, addr: Address, source: NetAddr)
    requires Filed(d, v) && Key(d, addr.service) !in v.addr && v.nIdCount >= 0
    ensures v.nIdCount !in v.info && Filed(d, Created(d, v, addr, source))
  {
  }

  lemma CreateKeepsListed(d: bool, v: View, addr: Address, source: NetAddr)
    requires Listed(v) && v.nIdCount !in v.info
    ensures Listed(Created(d, v, addr, source))
  {
    var w := Created(d, v, addr, source);
    forall k | 0 <= k < |w.rnd| ensures Nth(w.rnd, k) in w.info && w.info[Nth(w.rnd, k)].nRandomPos == k {
      assert k < |v.rnd| ==> Nth(v.rnd, k) in v.info;
    }
  }

  lemma CreateKeepsPlaces(h: Hashes, d: bool, v: View, addr: Address, source: NetAddr)
    requires Placed(h, v) && RefCounted(v, {}) && Counted(v, {}, 0) && v.nIdCount !in v.info && v.nIdCount >= 0
    ensures var w := Created(d, v, addr, source);
      Placed(h, w) && RefCounted(w, {v.nIdCount}) && Counted(w, {v.nIdCount}, 0)
  {
    var id := v.nIdCount;
    var w := Created(d, v, addr, source);
    SlotsEmpty(v.newT, id);
    SlotsEmpty(v.triedT, id);
    assert TriedIds(w.info) == TriedIds(v.info);
    assert NewIds(w.info) - {id} == NewIds(v.info) - {};
  }

  lemma CreateKeeps(h: Hashes, d: bool, v: View, addr: Address, source: NetAddr)
    requires Consistent(h, d, v, {}, 0) && Key(d, addr.service) !in v.addr
    ensures Consistent(h, d, Created(d, v, addr, source), {v.nIdCount}, 0)
  {
    assert v.nIdCount >= 0;
    hide Filed, Listed, Placed, RefCounted, Counted;
    CreateKeepsFiled(d, v, addr, source);
    CreateKeepsListed(d, v, addr, source);
    CreateKeepsPlaces(h, d, v, addr, source);
  }

  /** The entry is gone and every other entry is what it was, up to its position in vRandom. */
  ghost predicate Without(v: View, w: View, id: int) {
    && v.newT == w.newT && v.triedT == w.triedT && w.nTried == v.nTried && w.nNew == v.nNew - 1
    && (forall i :: i in w.info <==> i in v.info && i != id)
    && forall i | i in w.info :: w.info[i] == v.info[i].(nRandomPos := w.info[i].nRandomPos)
  }

  lemma DeleteKeepsListed(d: bool, v: View, id: int)
    requires Listed(v) && id in v.info
    ensures Listed(Deleted(d, v, id)) && Without(v, Deleted(d, v, id), id)
  {
    var w := Deleted(d, v, id);
    forall k | 0 <= k < |w.rnd| ensures Nth(w.rnd, k) in w.info && w.info[Nth(w.rnd, k)].nRandomPos == k {
      assert Nth(v.rnd, k) in v.info;
    }
    assert Nth(v.rnd, |v.rnd| - 1) in v.info;
  }

  lemma DeleteKeepsFiled(d: bool, v: View, id: int)
    requires Filed(d, v) && Listed(v) && id in v.info
    ensures Filed(d, Deleted(d, v, id))
  {
    DeleteKeepsListed(d, v, id);
    hide Listed;
    var w := Deleted(d, v, id);
    forall k | k in w.addr ensures At(w.addr, k) in w.info && Key(d, w.info[At(w.addr, k)].service) == k {
      assert At(v.addr, k) in v.info;
    }
  }

  lemma WithoutKeepsPlaced(h: Hashes, v: View, w: View, id: int, limbo: set<int>)
    requires Placed(h, v) && RefCounted(v, limbo) && id in limbo && Without(v, w, id)
    ensures Placed(h, w)
  {
    assert |Slots(v.newT, id)| == 0 && |Slots(v.triedT, id)| == 0;
    hide RefCounted;
    SlotsEmpty(v.newT, id);
    SlotsEmpty(v.triedT, id);
  }

  lemma WithoutKeepsCounts(v: View, w: View, id: int, limbo: set<int>, extra: int)
    requires RefCounted(v, limbo) && Counted(v, limbo, extra) && id in limbo && Without(v, w, id)
    ensures RefCounted(w, limbo - {id}) && Counted(w, limbo - {id}, extra - 1)
  {
    forall i
      ensures i in TriedIds(w.info) <==> i in TriedIds(v.info)
      ensures i in NewIds(w.info) - (limbo - {id}) <==> i in NewIds(v.info) - limbo
    {
      assert i in w.info <==> i in v.info && i != id;
    }
    assert TriedIds(w.info) == TriedIds(v.info);
    assert NewIds(w.info) - (limbo - {id}) == NewIds(v.info) - limbo;
  }

  lemma DeleteKeeps(h: Hashes, d: bool, v: View, id: int, limbo: set<int>, extra: int)
    requires Consistent(h, d, v, limbo, extra) && id in limbo
    ensures id in v.info && Consistent(h, d, Deleted(d, v, id), limbo - {id}, extra - 1)
  {
    assert id in v.info;
    hide Filed, Listed, Placed, RefCounted, Counted, Deleted, Without;
    DeleteKeepsListed(d, v, id);
    DeleteKeepsFiled(d, v, id);
    WithoutKeepsPlaced(h, v, Deleted(d, v, id), id, limbo);
    WithoutKeepsCounts(v, Deleted(d, v, id), id, limbo, extra);
  }

  // ---------------------------------------------------------------- moving one entry between tables

  /** One entry's table bookkeeping changes; no index is touched. */
  ghost predicate OnlyEntry(v: View, w: View, id: int) {
    && v.addr == w.addr && v.rnd == w.rnd && v.nIdCount == w.nIdCount
    && id in v.info && id in w.info
    && w.info == v.info[id := v.info[id].(nRefCount := w.info[id].nRefCount, fInTried := w.info[id].fInTried)]
  }

  lemma OnlyEntryKeepsIndexes(d: bool, v: View, w: View, id: int)
    requires Filed(d, v) && Listed(v) && OnlyEntry(v, w, id)
    ensures Filed(d, w) && Listed(w)
  {
    assert Filed(d, w) by {
      hide Listed;
      forall k | k in w.addr ensures At(w.addr, k) in w.info && Key(d, w.info[At(w.addr, k)].service) == k {
        assert At(v.addr, k) in v.info;
      }
    }
    assert Listed(w) by {
      hide Filed;
      forall k | 0 <= k < |w.rnd| ensures Nth(w.rnd, k) in w.info && w.info[Nth(w.rnd, k)].nRandomPos == k {
        assert Nth(v.rnd, k) in v.info;
      }
    }
  }

  ghost predicate InNew(v: View, limbo: set<int>, id: int) {
    id in v.info && !v.info[id].fInTried && id !in limbo
  }

  /** The counters move with the one entry that changes sides. */
  lemma EntryCounts(v: View, w: View, id: int, limbo: set<int>, limbo': set<int>, extra: int, extra': int)
    requires Counted(v, limbo, extra) && OnlyEntry(v, w, id)
    requires forall i | i != id :: i in limbo <==> i in limbo'
    requires w.nTried - v.nTried == (if w.info[id].fInTried then 1 else 0) - (if v.info[id].fInTried then 1 else 0)
    requires w.nNew - extra' - (v.nNew - extra) ==
      (if InNew(w, limbo', id) then 1 else 0) - (if InNew(v, limbo, id) then 1 else 0)
    ensures Counted(w, limbo', extra')
  {
    Toggle(TriedIds(v.info), TriedIds(w.info), id);
    Toggle(NewIds(v.info) - limbo, NewIds(w.info) - limbo', id);
  }

  lemma Toggle(a: set<int>, b: set<int>, id: int)
    requires forall i | i != id :: i in a <==> i in b
    ensures |b| - |a| == (if id in b then 1 else 0) - (if id in a then 1 else 0)
  {
    forall i ensures i in a - {id} <==> i in b - {id} {
    }
    assert |a - {id}| == |a| - if id in a then 1 else 0;
    assert |b - {id}| == |b| - if id in b then 1 else 0;
    assert a - {id} == b - {id};
  }

  ghost predicate EntryRefsOk(v: View, limbo: set<int>, id: int) {
    && id in v.info
    && v.info[id].nRefCount == |Slots(v.newT, id)|
    && (if v.info[id].fInTried || id in limbo then v.info[id].nRefCount == 0
        else 1 <= v.info[id].nRefCount <= NEW_BUCKETS_PER_ADDRESS)
    && |Slots(v.triedT, id)| == (if v.info[id].fInTried then 1 else 0)
  }

  /** Reference counts survive when only one entry's slots move and that entry is right again. */
  lemma EntryRefs(v: View, w: View, id: int, limbo: set<int>, limbo': set<int>)
    requires RefCounted(v, limbo) && OnlyEntry(v, w, id)
    requires forall i | i != id :: i in limbo <==> i in limbo'
    requires forall i | i in v.info && i != id ::
      Slots(w.newT, i) == Slots(v.newT, i) && Slots(w.triedT, i) == Slots(v.triedT, i)
    requires EntryRefsOk(w, limbo', id) && (id in limbo' ==> !w.info[id].fInTried)
    ensures RefCounted(w, limbo')
  {
  }

  lemma RefsOf(v: View, limbo: set<int>, id: int)
    requires RefCounted(v, limbo) && id in v.info
    ensures EntryRefsOk(v, limbo, id)
  {
  }

  /** The occupant of a "new" slot loses that slot. */
  ghost function Unreferenced(v: View, s: Slot): View
    requires s in v.newT && v.newT[s] in v.info
  {
    var id := v.newT[s];
    WithInfo(v, id, v.info[id].(nRefCount := v.info[id].nRefCount - 1)).(newT := v.newT[s := -1])
  }

  lemma UnreferenceKeeps(h: Hashes, v: View, s: Slot, limbo: set<int>, extra: int)
    requires Placed(h, v) && RefCounted(v, limbo) && Counted(v, limbo, extra)
    requires s in v.newT && v.newT[s] != -1
    ensures v.newT[s] in v.info && v.newT[s] !in limbo && v.info[v.newT[s]].nRefCount >= 1
    ensures var (w, id) := (Unreferenced(v, s), v.newT[s]);
      && OnlyEntry(v, w, id) && Placed(h, w)
      && if w.info[id].nRefCount == 0 then RefCounted(w, limbo + {id}) && Counted(w, limbo + {id}, extra + 1)
         else RefCounted(w, limbo) && Counted(w, limbo, extra)
  {
    hide RefCounted, Counted;
    var (w, id) := (Unreferenced(v, s), v.newT[s]);
    RefsOf(v, limbo, id);
    assert s in Slots(v.newT, id);
    forall i | i in v.info ensures |Slots(w.newT, i)| == |Slots(v.newT, i)| - if i == id then 1 else 0
                           ensures i != id ==> Slots(w.newT, i) == Slots(v.newT, i)
    {
      SlotsUpdate(v.newT, s, -1, i);
    }
    var last := w.info[id].nRefCount == 0;
    var limbo' := if last then limbo + {id} else limbo;
    EntryRefs(v, w, id, limbo, limbo');
    EntryCounts(v, w, id, limbo, limbo', extra, if last then extra + 1 else extra);
  }

  /** An entry takes an empty "new" slot. */
  ghost function Referenced(v: View, id: int, s: Slot): View
    requires id in v.info
  {
    WithInfo(v, id, v.info[id].(nRefCount := v.info[id].nRefCount + 1)).(newT := v.newT[s := id])
  }

  lemma ReferencePlaced(h: Hashes, v: View, id: int, s: Slot)
    requires Placed(h, v) && id in v.info && !v.info[id].fInTried
    requires s in v.newT && v.newT[s] == -1 && s.1 == Position(h, v.info[id].service, true, s.0)
    ensures OnlyEntry(v, Referenced(v, id, s), id) && Placed(h, Referenced(v, id, s)) && -1 !in v.info
  {
    hide Position, TriedSlot;
  }

  lemma ReferenceKeeps(h: Hashes, v: View, id: int, s: Slot, limbo: set<int>, extra: int)
    requires Placed(h, v) && RefCounted(v, limbo) && Counted(v, limbo, extra)
    requires id in v.info && !v.info[id].fInTried && v.info[id].nRefCount < NEW_BUCKETS_PER_ADDRESS
    requires s in v.newT && v.newT[s] == -1 && s.1 == Position(h, v.info[id].service, true, s.0)
    ensures var w := Referenced(v, id, s);
      && OnlyEntry(v, w, id) && Placed(h, w)
      && RefCounted(w, limbo - {id})
      && Counted(w, limbo - {id}, if id in limbo then extra - 1 else extra)
  {
    hide RefCounted, Counted, Placed, OnlyEntry, Slots, Position;
    var w := Referenced(v, id, s);
    ReferencePlaced(h, v, id, s);
    RefsOf(v, limbo, id);
    forall i | i in v.info ensures |Slots(w.newT, i)| == |Slots(v.newT, i)| + if i == id then 1 else 0
                           ensures i != id ==> Slots(w.newT, i) == Slots(v.newT, i)
    {
      SlotsUpdate(v.newT, s, id, i);
    }
    EntryRefs(v, w, id, limbo, limbo - {id});
    EntryCounts(v, w, id, limbo, limbo - {id}, extra, if id in limbo then extra - 1 else extra);
  }

  ghost function Erased(t: Table, id: int): Table {
    map s | s in t :: if t[s] == id then -1 else t[s]
  }

  /** An entry leaves all its "new" slots. */
  ghost function Stripped(v: View, id: int): View
    requires id in v.info
  {
    WithInfo(v, id, v.info[id].(nRefCount := 0)).(newT := Erased(v.newT, id))
  }

  lemma StripKeeps(h: Hashes, v: View, id: int, limbo: set<int>, extra: int)
    requires Placed(h, v) && RefCounted(v, limbo) && Counted(v, limbo, extra)
    requires id in v.info && !v.info[id].fInTried && id !in limbo
    ensures var w := Stripped(v, id);
      OnlyEntry(v, w, id) && Placed(h, w) && RefCounted(w, limbo + {id}) && Counted(w, limbo + {id}, extra + 1)
  {
    hide RefCounted, Counted;
    var w := Stripped(v, id);
    RefsOf(v, limbo, id);
    SlotsEmpty(w.newT, id);
    forall i | i in v.info && i != id ensures Slots(w.newT, i) == Slots(v.newT, i) {
    }
    EntryRefs(v, w, id, limbo, limbo + {id});
    EntryCounts(v, w, id, limbo, limbo + {id}, extra, extra + 1);
  }

  /** The occupant of a "tried" slot leaves it. */
  ghost function Demoted(v: View, s: Slot): View
    requires s in v.triedT && v.triedT[s] in v.info
  {
    var id := v.triedT[s];
    WithInfo(v, id, v.info[id].(fInTried := false)).(triedT := v.triedT[s := -1], nTried := v.nTried - 1)
  }

  lemma DemoteKeepsPlaced(h: Hashes, v: View, s: Slot, limbo: set<int>)
    requires Placed(h, v) && RefCounted(v, limbo) && s in v.triedT && v.triedT[s] != -1
    ensures v.triedT[s] in v.info && v.triedT[s] !in limbo && v.info[v.triedT[s]].fInTried && -1 !in v.info
    ensures Placed(h, Demoted(v, s))
  {
  }

  lemma DemoteKeeps(h: Hashes, v: View, s: Slot, limbo: set<int>, extra: int)
    requires Placed(h, v) && RefCounted(v, limbo) && Counted(v, limbo, extra)
    requires s in v.triedT && v.triedT[s] != -1
    ensures v.triedT[s] in v.info && v.triedT[s] !in limbo && v.info[v.triedT[s]].fInTried
    ensures var (w, id) := (Demoted(v, s), v.triedT[s]);
      OnlyEntry(v, w, id) && Placed(h, w) && RefCounted(w, limbo + {id}) && Counted(w, limbo + {id}, extra)
  {
    hide RefCounted, Counted, Placed;
    DemoteKeepsPlaced(h, v, s, limbo);
    var (w, id) := (Demoted(v, s), v.triedT[s]);
    RefsOf(v, limbo, id);
    forall i | i in v.info ensures |Slots(w.triedT, i)| == |Slots(v.triedT, i)| - if i == id then 1 else 0
                           ensures i != id ==> Slots(w.triedT, i) == Slots(v.triedT, i)
    {
      SlotsUpdate(v.triedT, s, -1, i);
    }
    EntryRefs(v, w, id, limbo, limbo + {id});
    EntryCounts(v, w, id, limbo, limbo + {id}, extra, extra);
  }

  /** An entry in limbo takes its empty "tried" slot. */
  ghost function Promoted(v: View, id: int, s: Slot): View
    requires id in v.info
  {
    WithInfo(v, id, v.info[id].(fInTried := true)).(triedT := v.triedT[s := id], nTried := v.nTried + 1)
  }

  lemma PromoteKeeps(h: Hashes, v: View, id: int, limbo: set<int>, extra: int)
    requires Placed(h, v) && RefCounted(v, limbo) && Counted(v, limbo, extra)
    requires id in limbo && id in v.info && v.triedT[TriedSlot(h, v.info[id].service)] == -1
    ensures var w := Promoted(v, id, TriedSlot(h, v.info[id].service));
      OnlyEntry(v, w, id) && Placed(h, w) && RefCounted(w, limbo - {id}) && Counted(w, limbo - {id}, extra)
  {
    var s := TriedSlot(h, v.info[id].service);
    var w := Promoted(v, id, s);
    assert !v.info[id].fInTried;
    hide RefCounted, Counted;
    RefsOf(v, limbo, id);
    forall i | i in v.info ensures |Slots(w.triedT, i)| == |Slots(v.triedT, i)| + if i == id then 1 else 0
                           ensures i != id ==> Slots(w.triedT, i) == Slots(v.triedT, i)
    {
      SlotsUpdate(v.triedT, s, id, i);
    }
    SlotsEmpty(v.newT, id);
    EntryRefs(v, w, id, limbo, limbo - {id});
    EntryCounts(v, w, id, limbo, limbo - {id}, extra, extra);
  }

  // ---------------------------------------------------------------- the operations

  /** CAddrMan::ClearNew */
  ghost function Cleared(d: bool, v: View, s: Slot): View {
    if s !in v.newT || v.newT[s] !in v.info then v
    else
      var w := Unreferenced(v, s);
      if w.info[v.newT[s]].nRefCount == 0 then Deleted(d, w, v.newT[s]) else w
  }

  /** What MakeTried does with the occupant of the tried slot it needs: back to its "new" slot. */
  ghost function Evicted(h: Hashes, d: bool, v: View, k: Slot): View {
    if k !in v.triedT || v.triedT[k] !in v.info then v
    else
      var e := v.triedT[k];
      var u := NewSlot(h, v.info[e].service, v.info[e].source);
      var w := Cleared(d, Demoted(v, k), u);
      if e in w.info then Referenced(w, e, u).(nNew := w.nNew + 1) else w
  }

  /** CAddrMan::MakeTried */
  ghost function MadeTried(h: Hashes, d: bool, v: View, id: int): View {
    if id !in v.info then v
    else
      var k := TriedSlot(h, v.info[id].service);
      var v1 := Evicted(h, d, Stripped(v, id).(nNew := v.nNew - 1), k);
      if id in v1.info then Promoted(v1, id, k) else v1
  }

  predicate SameEntry(a: AddrInfo, b: AddrInfo) {
    a == b.(nRandomPos := a.nRandomPos)
  }

  /** No entry appears, and those outside `but` stay, unchanged up to their position in vRandom. */
  ghost predicate KeepsEntries(v: View, w: View, but: set<int>) {
    && (forall id | id in w.info :: id in v.info)
    && forall id | id in v.info && id !in but :: id in w.info && SameEntry(v.info[id], w.info[id])
  }

  lemma OnlyEntryConsistent(h: Hashes, d: bool, v: View, w: View, id: int, limbo: set<int>, extra: int)
    requires Filed(d, v) && Listed(v) && OnlyEntry(v, w, id)
    requires Placed(h, w) && RefCounted(w, limbo) && Counted(w, limbo, extra)
    ensures Consistent(h, d, w, limbo, extra)
    ensures KeepsEntries(v, w, {id})
  {
    OnlyEntryKeepsIndexes(d, v, w, id);
    hide Filed, Listed, Placed, RefCounted, Counted;
  }

  /** The occupant x of a cleared slot has one reference less, and is gone if that was its last. */
  ghost predicate LosesReference(v: View, w: View, x: int) {
    x != -1 ==>
      && x in v.info
      && (x in w.info <==> v.info[x].nRefCount > 1)
      && (x in w.info ==> SameEntry(v.info[x].(nRefCount := v.info[x].nRefCount - 1), w.info[x]))
  }

  lemma DeleteEffect(h: Hashes, d: bool, v: View, id: int, limbo: set<int>, extra: int)
    requires Consistent(h, d, v, limbo, extra) && id in limbo
    ensures var w := Deleted(d, v, id);
      id !in w.info && KeepsEntries(v, w, {id}) && w.newT == v.newT && w.triedT == v.triedT && w.nTried == v.nTried
  {
    assert id in v.info;
    DeleteKeepsListed(d, v, id);
    hide Consistent, Deleted;
  }

  lemma ClearOccupied(h: Hashes, d: bool, v: View, s: Slot, limbo: set<int>, extra: int)
    requires Consistent(h, d, v, limbo, extra) && s in v.newT && v.newT[s] != -1
    ensures var (w, x) := (Cleared(d, v, s), v.newT[s]);
      && Consistent(h, d, w, limbo, extra) && x !in limbo
      && w.newT == v.newT[s := -1] && w.triedT == v.triedT && w.nTried == v.nTried
      && KeepsEntries(v, w, {x}) && LosesReference(v, w, x)
  {
    hide Filed, Listed, Placed, RefCounted, Counted;
    var x := v.newT[s];
    UnreferenceKeeps(h, v, s, limbo, extra);
    var w := Unreferenced(v, s);
    if w.info[x].nRefCount == 0 {
      OnlyEntryConsistent(h, d, v, w, x, limbo + {x}, extra + 1);
      hide Consistent, Deleted;
      DeleteKeeps(h, d, w, x, limbo + {x}, extra + 1);
      DeleteEffect(h, d, w, x, limbo + {x}, extra + 1);
      assert limbo + {x} - {x} == limbo;
    } else {
      OnlyEntryConsistent(h, d, v, w, x, limbo, extra);
    }
  }

  lemma ClearKeeps(h: Hashes, d: bool, v: View, s: Slot, limbo: set<int>, extra: int)
    requires Consistent(h, d, v, limbo, extra) && s in v.newT
    ensures var (w, x) := (Cleared(d, v, s), v.newT[s]);
      && Consistent(h, d, w, limbo, extra) && x !in limbo
      && w.newT == v.newT[s := -1] && w.triedT == v.triedT && w.nTried == v.nTried
      && KeepsEntries(v, w, {x}) && LosesReference(v, w, x)
  {
    if v.newT[s] == -1 {
      assert -1 !in v.info && -1 !in limbo;
      hide Filed, Listed, Placed, RefCounted, Counted;
      assert v.newT == v.newT[s := -1];
    } else {
      ClearOccupied(h, d, v, s, limbo, extra);
    }
  }

  lemma ShiftIndexes(d: bool, v: View, n: int)
    requires Filed(d, v) && Listed(v)
    ensures Filed(d, v.(nNew := n)) && Listed(v.(nNew := n))
  {
  }

  lemma ShiftPlaces(h: Hashes, v: View, limbo: set<int>, n: int)
    requires Placed(h, v) && RefCounted(v, limbo)
    ensures Placed(h, v.(nNew := n)) && RefCounted(v.(nNew := n), limbo)
  {
  }

  lemma ShiftNew(h: Hashes, d: bool, v: View, limbo: set<int>, extra: int, n: int)
    requires Consistent(h, d, v, limbo, extra)
    ensures Consistent(h, d, v.(nNew := v.nNew + n), limbo, extra + n)
  {
    hide Filed, Listed, Placed, RefCounted;
    ShiftIndexes(d, v, v.nNew + n);
    ShiftPlaces(h, v, limbo, v.nNew + n);
  }

  // The moves of one entry, stated for the whole set of conditions.

  lemma StripConsistent(h: Hashes, d: bool, v: View, id: int)
    requires Consistent(h, d, v, {}, 0) && id in v.info && !v.info[id].fInTried
    ensures Consistent(h, d, Stripped(v, id), {id}, 1) && KeepsEntries(v, Stripped(v, id), {id})
  {
    hide Filed, Listed, Placed, RefCounted, Counted;
    StripKeeps(h, v, id, {}, 0);
    assert {} + {id} == {id};
    OnlyEntryConsistent(h, d, v, Stripped(v, id), id, {id}, 1);
  }

  lemma DemoteConsistent(h: Hashes, d: bool, v: View, k: Slot, limbo: set<int>, extra: int)
    requires Consistent(h, d, v, limbo, extra) && k in v.triedT && v.triedT[k] != -1
    ensures v.triedT[k] in v.info && v.triedT[k] !in limbo
    ensures v.info[v.triedT[k]].fInTried && v.info[v.triedT[k]].nRefCount == 0
    ensures var w := Demoted(v, k);
      Consistent(h, d, w, limbo + {v.triedT[k]}, extra) && KeepsEntries(v, w, {v.triedT[k]})
  {
    hide Filed, Listed, Placed, RefCounted, Counted;
    DemoteKeeps(h, v, k, limbo, extra);
    RefsOf(v, limbo, v.triedT[k]);
    OnlyEntryConsistent(h, d, v, Demoted(v, k), v.triedT[k], limbo + {v.triedT[k]}, extra);
  }

  lemma ReferenceConsistent(h: Hashes, d: bool, v: View, id: int, s: Slot, limbo: set<int>, extra: int)
    requires Consistent(h, d, v, limbo, extra)
    requires id in v.info && !v.info[id].fInTried && v.info[id].nRefCount < NEW_BUCKETS_PER_ADDRESS
    requires s in v.newT && v.newT[s] == -1 && s.1 == Position(h, v.info[id].service, true, s.0)
    ensures var w := Referenced(v, id, s);
      && Consistent(h, d, w, limbo - {id}, if id in limbo then extra - 1 else extra)
      && KeepsEntries(v, w, {id})
  {
    hide Filed, Listed, Placed, RefCounted, Counted;
    ReferenceKeeps(h, v, id, s, limbo, extra);
    OnlyEntryConsistent(h, d, v, Referenced(v, id, s), id, limbo - {id}, if id in limbo then extra - 1 else extra);
  }

  lemma PromoteConsistent(h: Hashes, d: bool, v: View, id: int)
    requires Consistent(h, d, v, {id}, 0) && id in v.info && v.triedT[TriedSlot(h, v.info[id].service)] == -1
    ensures var w := Promoted(v, id, TriedSlot(h, v.info[id].service));
      Consistent(h, d, w, {}, 0) && KeepsEntries(v, w, {id})
  {
    hide Filed, Listed, Placed, RefCounted, Counted;
    PromoteKeeps(h, v, id, {id}, 0);
    assert {id} - {id} == {};
    OnlyEntryConsistent(h, d, v, Promoted(v, id, TriedSlot(h, v.info[id].service)), id, {}, 0);
  }

  lemma InTables(h: Hashes, d: bool, v: View, limbo: set<int>, extra: int, s: Slot)
    requires Consistent(h, d, v, limbo, extra)
    ensures s in v.newT <==> InTable(s, NEW_BUCKET_COUNT)
    ensures s in v.triedT <==> InTable(s, TRIED_BUCKET_COUNT)
  {
  }

  /** Eviction: e is a "new" entry again with one slot, which its previous occupant has lost. */
  lemma EvictKeeps(h: Hashes, d: bool, v: View, k: Slot, id: int)
    requires Consistent(h, d, v, {id}, 0) && k in v.triedT && v.triedT[k] != -1
    ensures v.triedT[k] in v.info && v.triedT[k] != id
    ensures var (w, e) := (Evicted(h, d, v, k), v.triedT[k]);
      var u := NewSlot(h, v.info[e].service, v.info[e].source);
      && Consistent(h, d, w, {id}, 0)
      && u in v.newT && v.newT[u] != id && v.newT[u] != e
      && w.newT == v.newT[u := e] && w.triedT == v.triedT[k := -1]
      && KeepsEntries(v, w, {e, v.newT[u]})
      && e in w.info && SameEntry(v.info[e].(fInTried := false, nRefCount := 1), w.info[e])
      && LosesReference(v, w, v.newT[u])
  {
    hide Consistent, Deleted;
    DemoteConsistent(h, d, v, k, {id}, 0);
    var e := v.triedT[k];
    var v1 := Demoted(v, k);
    var limbo := {id} + {e};
    var u := NewSlot(h, v.info[e].service, v.info[e].source);
    InTables(h, d, v1, limbo, 0, u);
    ClearKeeps(h, d, v1, u, limbo, 0);
    var v2 := Cleared(d, v1, u);
    hide Cleared;
    assert e in v2.info && SameEntry(v1.info[e], v2.info[e]);
    ReferenceConsistent(h, d, v2, e, u, limbo, 0);
    var v3 := Referenced(v2, e, u);
    assert limbo - {e} == {id};
    ShiftNew(h, d, v3, {id}, -1, 1);
    assert Evicted(h, d, v, k) == v3.(nNew := v3.nNew + 1);
  }

  lemma EvictNothing(h: Hashes, d: bool, v: View, k: Slot)
    requires k in v.triedT && v.triedT[k] == -1 && -1 !in v.info
    ensures Evicted(h, d, v, k) == v
  {
  }

  /** Everything MakeTried changes. */
  ghost predicate PromotionEffect(h: Hashes, v: View, w: View, id: int)
    requires id in v.info
  {
    var k := TriedSlot(h, v.info[id].service);
    var stripped := Erased(v.newT, id);
    && k in v.triedT && w.triedT == v.triedT[k := id]
    && id in w.info && SameEntry(v.info[id].(fInTried := true, nRefCount := 0), w.info[id])
    && if v.triedT[k] == -1 then
         w.newT == stripped && KeepsEntries(v, w, {id})
       else
         // the previous occupant e goes back to its "new" slot u, whose occupant x makes room
         var e := v.triedT[k];
         && e in v.info
         && var u := NewSlot(h, v.info[e].service, v.info[e].source);
         && u in stripped
         && var x := stripped[u];
         && x != id && x != e
         && w.newT == stripped[u := e]
         && e in w.info && SameEntry(v.info[e].(fInTried := false, nRefCount := 1), w.info[e])
         && LosesReference(v, w, x)
         && KeepsEntries(v, w, {id, e, x})
  }

  /** MakeTried keeps Check_'s conditions and changes exactly what it is meant to change. */
  lemma MakeTriedKeeps(h: Hashes, d: bool, v: View, id: int)
    requires Consistent(h, d, v, {}, 0) && id in v.info && !v.info[id].fInTried
    ensures Consistent(h, d, MadeTried(h, d, v, id), {}, 0)
    ensures PromotionEffect(h, v, MadeTried(h, d, v, id), id)
  {
    hide Consistent, Evicted, Deleted;
    var k := TriedSlot(h, v.info[id].service);
    InTables(h, d, v, {}, 0, k);
    StripConsistent(h, d, v, id);
    ShiftNew(h, d, Stripped(v, id), {id}, 1, -1);
    var v1 := Stripped(v, id).(nNew := v.nNew - 1);
    NoSuchId(h, d, v1, {id}, 0);
    if v.triedT[k] == -1 {
      EvictNothing(h, d, v1, k);
      PromoteConsistent(h, d, v1, id);
    } else {
      EvictKeeps(h, d, v1, k, id);
      var v2 := Evicted(h, d, v1, k);
      assert id in v2.info && SameEntry(v1.info[id], v2.info[id]);
      PromoteConsistent(h, d, v2, id);
      assert MadeTried(h, d, v, id) == Promoted(v2, id, k);
    }
  }

  lemma NoSuchId(h: Hashes, d: bool, v: View, limbo: set<int>, extra: int)
    requires Consistent(h, d, v, limbo, extra)
    ensures -1 !in v.info
  {
  }

  /** Replacing an entry's times and services keeps the structural conditions. */
  ghost predicate Restamped(a: AddrInfo, b: AddrInfo) {
    && a.service == b.service && a.source == b.source
    && a.nRefCount == b.nRefCount && a.fInTried == b.fInTried && a.nRandomPos == b.nRandomPos
  }

  lemma RestampListed(v: View, id: int, i: AddrInfo)
    requires Listed(v) && id in v.info && Restamped(v.info[id], i)
    ensures Listed(WithInfo(v, id, i)) && SamePlaces(v, WithInfo(v, id, i))
  {
  }

  lemma RestampKeeps(h: Hashes, d: bool, v: View, id: int, i: AddrInfo, limbo: set<int>, extra: int)
    requires Consistent(h, d, v, limbo, extra) && id in v.info && Restamped(v.info[id], i)
    ensures Consistent(h, d, WithInfo(v, id, i), limbo, extra)
  {
    hide Filed, Listed, Placed, RefCounted, Counted;
    RestampListed(v, id, i);
    SamePlacesKeep(h, d, v, WithInfo(v, id, i), limbo, extra);
  }

  /** The id Find reports for a service, or -1. */
  function FindId(d: bool, addr: map<Service, int>, s: Service): int {
    if Key(d, s) in addr then addr[Key(d, s)] else -1
  }

  /** CAddrMan::Good_ */
  ghost function Good(h: Hashes, d: bool, v: View, s: Service, nTime: int): View {
    var id := FindId(d, v.addr, s);
    if id !in v.info || v.info[id].service != s then v
    else
      var v1 := WithInfo(v, id, v.info[id].(nLastSuccess := nTime, nLastTry := nTime, nAttempts := 0));
      if v.info[id].fInTried then v1 else MadeTried(h, d, v1, id)
  }

  lemma GoodKeeps(h: Hashes, d: bool, v: View, s: Service, nTime: int)
    requires Consistent(h, d, v, {}, 0)
    ensures Consistent(h, d, Good(h, d, v, s, nTime), {}, 0)
  {
    hide Consistent, MadeTried;
    var id := FindId(d, v.addr, s);
    if id in v.info && v.info[id].service == s {
      var i := v.info[id].(nLastSuccess := nTime, nLastTry := nTime, nAttempts := 0);
      RestampKeeps(h, d, v, id, i, {}, 0);
      if !i.fInTried {
        MakeTriedKeeps(h, d, WithInfo(v, id, i), id);
      }
    }
  }

  function Max(a: int, b: int): int { if a > b then a else b }

  /** The update of an entry that Add_ has found. */
  function Refreshed(i: AddrInfo, addr: Address, nTimePenalty: int, nNow: int): AddrInfo {
    var nUpdateInterval := if nNow - addr.nTime < DAY then 60 * 60 else DAY;
    var nTime := if addr.nTime != 0 && (i.nTime == 0 || i.nTime < addr.nTime - nUpdateInterval - nTimePenalty)
                 then Max(0, addr.nTime - nTimePenalty) else i.nTime;
    i.(nTime := nTime, nServices := i.nServices + addr.nServices)
  }

  /** Whether Add_ may reference the (refreshed) entry once more, the random test aside. */
  predicate MayReference(i: AddrInfo, addr: Address) {
    && !(addr.nTime == 0 || (i.nTime != 0 && addr.nTime <= i.nTime))
    && !i.fInTried
    && i.nRefCount != NEW_BUCKETS_PER_ADDRESS
  }

  /** Whether an entry takes a "new" slot from its occupant. */
  predicate Displaces(i: AddrInfo, occupant: AddrInfo, nNow: int) {
    occupant.IsTerrible(nNow) || (occupant.nRefCount > 1 && i.nRefCount == 0)
  }

  /** The last part of Add_: the entry takes its slot, or is dropped if it has no other. */
  ghost function Offered(h: Hashes, d: bool, v: View, id: int, source: NetAddr, nNow: int): View
    requires id in v.info
  {
    var s := NewSlot(h, v.info[id].service, source);
    if s !in v.newT || v.newT[s] == id then v
    else
      var x := v.newT[s];
      if x !in v.info || Displaces(v.info[id], v.info[x], nNow) then
        var w := Cleared(d, v, s);
        if id in w.info then Referenced(w, id, s) else w
      else if v.info[id].nRefCount == 0 then Deleted(d, v, id)
      else v
  }

  /** CAddrMan::Add_, given whether the stochastic test lets another reference through. */
  ghost function Added(h: Hashes, d: bool, v: View, addr: Address, source: NetAddr, nTimePenalty: int,
                       nNow: int, routable: bool, lucky: bool): View {
    var penalty := if addr.service.ip == source then 0 else nTimePenalty;
    var id := FindId(d, v.addr, addr.service);
    if !routable then v
    else if id in v.info then
      var i := Refreshed(v.info[id], addr, penalty, nNow);
      var v1 := WithInfo(v, id, i);
      if MayReference(i, addr) && lucky then Offered(h, d, v1, id, source, nNow) else v1
    else
      var v1 := Created(d, v, addr, source);
      var i := v1.info[v.nIdCount];
      var v2 := WithInfo(v1, v.nIdCount, i.(nTime := Max(0, i.nTime - penalty))).(nNew := v1.nNew + 1);
      Offered(h, d, v2, v.nIdCount, source, nNow)
  }

  /**
   An offered entry ends up without limbo: it holds the slot exactly if the slot was free, its own,
   or worth taking from its occupant; otherwise nothing changes, except that an entry without any
   other slot is dropped.
  */
  lemma OfferKeeps(h: Hashes, d: bool, v: View, id: int, source: NetAddr, nNow: int, created: bool)
    requires Consistent(h, d, v, if created then {id} else {}, if created then 1 else 0)
    requires id in v.info && !v.info[id].fInTried && v.info[id].nRefCount < NEW_BUCKETS_PER_ADDRESS
    ensures var (w, s) := (Offered(h, d, v, id, source, nNow), NewSlot(h, v.info[id].service, source));
      && Consistent(h, d, w, {}, 0)
      && s in v.newT && w.triedT == v.triedT
      && var x := v.newT[s];
      && if x == id then w == v && !created
         else if x == -1 || (x in v.info && Displaces(v.info[id], v.info[x], nNow)) then
           && w.newT == v.newT[s := id] && KeepsEntries(v, w, {id, x}) && LosesReference(v, w, x)
           && id in w.info && SameEntry(v.info[id].(nRefCount := v.info[id].nRefCount + 1), w.info[id])
         else
           && w.newT == v.newT && KeepsEntries(v, w, {id})
           && (id in w.info <==> !created) && (!created ==> w == v)
  {
    hide Filed, Listed, Placed, Counted, Deleted, Slots;
    var limbo: set<int> := if created then {id} else {};
    var extra := if created then 1 else 0;
    var s := NewSlot(h, v.info[id].service, source);
    InTables(h, d, v, limbo, extra, s);
    OccupantIsEntry(h, d, v, limbo, extra, s);
    var x := v.newT[s];
    RefsOf(v, limbo, id);
    hide RefCounted, Consistent;
    if x != id {
      if x == -1 || Displaces(v.info[id], v.info[x], nNow) {
        ClearKeeps(h, d, v, s, limbo, extra);
        var w := Cleared(d, v, s);
        hide Cleared;
        assert id in w.info && SameEntry(v.info[id], w.info[id]);
        ReferenceConsistent(h, d, w, id, s, limbo, extra);
        assert limbo - {id} == {};
        assert v.newT[s := -1][s := id] == v.newT[s := id];
      } else if created {
        DeleteKeeps(h, d, v, id, limbo, extra);
        DeleteEffect(h, d, v, id, limbo, extra);
        assert limbo - {id} == {};
      }
    }
  }

  /** A filled "new" slot holds an entry that is not in limbo. */
  lemma OccupantIsEntry(h: Hashes, d: bool, v: View, limbo: set<int>, extra: int, s: Slot)
    requires Consistent(h, d, v, limbo, extra) && s in v.newT
    ensures v.newT[s] == -1 <==> v.newT[s] !in v.info
    ensures v.newT[s] !in limbo
  {
    hide Filed, Listed, Counted;
    if v.newT[s] in limbo {
      SlotsEmpty(v.newT, v.newT[s]);
    }
  }

  lemma FindKnows(h: Hashes, d: bool, v: View, s: Service)
    requires Consistent(h, d, v, {}, 0)
    ensures FindId(d, v.addr, s) in v.info <==> Key(d, s) in v.addr
    ensures FindId(d, v.addr, s) == -1 <==> Key(d, s) !in v.addr
    ensures Key(d, s) in v.addr ==> Key(d, v.info[FindId(d, v.addr, s)].service) == Key(d, s)
  {
  }

  lemma AddFoundKeeps(h: Hashes, d: bool, v: View, id: int, i: AddrInfo, addr: Address, source: NetAddr, nNow: int)
    requires Consistent(h, d, v, {}, 0) && id in v.info && Restamped(v.info[id], i)
    ensures Consistent(h, d, WithInfo(v, id, i), {}, 0)
    ensures MayReference(i, addr) ==> Consistent(h, d, Offered(h, d, WithInfo(v, id, i), id, source, nNow), {}, 0)
  {
    RestampKeeps(h, d, v, id, i, {}, 0);
    if MayReference(i, addr) {
      hide Filed, Listed, Placed, Counted, RefCounted, Offered;
      RefsOf(v, {}, id);
      OfferKeeps(h, d, WithInfo(v, id, i), id, source, nNow, false);
    }
  }

  lemma AddCreatedKeeps(h: Hashes, d: bool, v: View, addr: Address, source: NetAddr, penalty: int, nNow: int)
    requires Consistent(h, d, v, {}, 0) && Key(d, addr.service) !in v.addr
    ensures var v1 := Created(d, v, addr, source);
      var i := v1.info[v.nIdCount];
      var v2 := WithInfo(v1, v.nIdCount, i.(nTime := Max(0, i.nTime - penalty))).(nNew := v1.nNew + 1);
      && Consistent(h, d, v2, {v.nIdCount}, 1)
      && Consistent(h, d, Offered(h, d, v2, v.nIdCount, source, nNow), {}, 0)
  {
    hide Consistent, Offered;
    var id := v.nIdCount;
    CreateKeeps(h, d, v, addr, source);
    var v1 := Created(d, v, addr, source);
    var i := v1.info[id].(nTime := Max(0, v1.info[id].nTime - penalty));
    RestampKeeps(h, d, v1, id, i, {id}, 0);
    var v2 := WithInfo(v1, id, i);
    ShiftNew(h, d, v2, {id}, 0, 1);
    OfferKeeps(h, d, v2.(nNew := v2.nNew + 1), id, source, nNow, true);
  }

  lemma AddKeeps(h: Hashes, d: bool, v: View, addr: Address, source: NetAddr, nTimePenalty: int,
                 nNow: int, routable: bool, lucky: bool)
    requires Consistent(h, d, v, {}, 0)
    ensures Consistent(h, d, Added(h, d, v, addr, source, nTimePenalty, nNow, routable, lucky), {}, 0)
    ensures !routable ==> Added(h, d, v, addr, source, nTimePenalty, nNow, routable, lucky) == v
  {
    hide Consistent, Offered;
    var penalty := if addr.service.ip == source then 0 else nTimePenalty;
    var id := FindId(d, v.addr, addr.service);
    FindKnows(h, d, v, addr.service);
    if routable && id in v.info {
      AddFoundKeeps(h, d, v, id, Refreshed(v.info[id], addr, penalty, nNow), addr, source, nNow);
    } else if routable {
      AddCreatedKeeps(h, d, v, addr, source, penalty, nNow);
    }
  }

  // ---------------------------------------------------------------- what the operations are for

  lemma FindsEntry(h: Hashes, d: bool, v: View, id: int)
    requires Consistent(h, d, v, {}, 0) && id in v.info
    ensures FindId(d, v.addr, v.info[id].service) == id
  {
    hide Listed, Placed, RefCounted, Counted;
  }

  lemma FindOrNot(d: bool, v: View, s: Service)
    requires Filed(d, v)
    ensures Key(d, s) in v.addr <==> exists id | id in v.info :: Key(d, v.info[id].service) == Key(d, s)
  {
    if Key(d, s) in v.addr {
      assert At(v.addr, Key(d, s)) in v.info;
    }
  }

  lemma StillUnknown(h: Hashes, d: bool, v: View, w: View, s: Service)
    requires Consistent(h, d, v, {}, 0) && Consistent(h, d, w, {}, 0) && KeepsEntries(v, w, {}) && Key(d, s) !in v.addr
    ensures Key(d, s) !in w.addr
  {
    hide Listed, Placed, RefCounted, Counted;
    FindOrNot(d, w, s);
  }

  /** One entry has taken a slot whose occupant x, if any, has lost that reference; no other entry is concerned. */
  ghost predicate TakesSlot(v: View, w: View, s: Slot, id: int) {
    && s in v.newT && w.newT == v.newT[s := id] && w.triedT == v.triedT
    && v.newT[s] != id && LosesReference(v, w, v.newT[s])
    && (forall i | i in v.info && i != id && i != v.newT[s] :: i in w.info && SameEntry(v.info[i], w.info[i]))
    && (forall i | i in w.info :: i in v.info || i == id)
  }

  /** The entry Add_ makes of an unknown address that finds room. */
  function Newcomer(addr: Address, source: NetAddr, penalty: int): AddrInfo {
    AddrInfo(addr.service, Max(0, addr.nTime - penalty), addr.nServices, source, 0, 0, 0, 0, 1, false, 0)
  }

  function Penalty(addr: Address, source: NetAddr, nTimePenalty: int): int {
    if addr.service.ip == source then 0 else nTimePenalty
  }

  /**
   A routable address that is not known is stored if its "new" slot is free, or held by a terrible entry, or by
   one with other references: afterwards Find knows it, with one reference, in that slot. Otherwise the entries
   and tables stay as they were.
  */
  lemma AddStores(h: Hashes, d: bool, v: View, addr: Address, source: NetAddr, nTimePenalty: int,
          nNow: int, lucky: bool)
    requires Consistent(h, d, v, {}, 0) && Key(d, addr.service) !in v.addr
    ensures var w := Added(h, d, v, addr, source, nTimePenalty, nNow, true, lucky);
      var s := NewSlot(h, addr.service, source);
      var id := FindId(d, w.addr, addr.service);
      && s in v.newT && (v.newT[s] != -1 ==> v.newT[s] in v.info)
      && var x := v.newT[s];
      && if x == -1 || v.info[x].IsTerrible(nNow) || v.info[x].nRefCount > 1 then
           && id !in v.info && TakesSlot(v, w, s, id)
           && id in w.info && SameEntry(w.info[id], Newcomer(addr, source, Penalty(addr, source, nTimePenalty)))
         else
           && id == -1 && w.newT == v.newT && w.triedT == v.triedT && KeepsEntries(v, w, {})
           && (forall i | i in v.info :: i in w.info)
  {
    hide Consistent, Offered, Displaces;
    var (id, penalty) := (v.nIdCount, Penalty(addr, source, nTimePenalty));
    FindKnows(h, d, v, addr.service);
    AddCreatedKeeps(h, d, v, addr, source, penalty, nNow);
    NewId(h, d, v);
    var v1 := Created(d, v, addr, source);
    var v2 := WithInfo(v1, id, v1.info[id].(nTime := Max(0, v1.info[id].nTime - penalty))).(nNew := v1.nNew + 1);
    OfferKeeps(h, d, v2, id, source, nNow, true);
    var w := Offered(h, d, v2, id, source, nNow);
    var s := NewSlot(h, addr.service, source);
    OccupantIsEntry(h, d, v2, {id}, 1, s);
    OccupantIsEntry(h, d, v, {}, 0, s);
    if v.newT[s] != -1 {
      NewcomerDisplaces(v2.info[id], v2.info[v.newT[s]], nNow);
    }
    if id in w.info {
      FindsEntry(h, d, w, id);
    } else {
      StillUnknown(h, d, v, w, addr.service);
    }
  }

  lemma NewId(h: Hashes, d: bool, v: View)
    requires Consistent(h, d, v, {}, 0)
    ensures v.nIdCount >= 0 && v.nIdCount !in v.info
  {
  }

  lemma NewcomerDisplaces(i: AddrInfo, occupant: AddrInfo, nNow: int)
    ensures i.nRefCount == 0 ==>
      (Displaces(i, occupant, nNow) <==> occupant.IsTerrible(nNow) || occupant.nRefCount > 1)
    ensures i.nRefCount > 0 ==> (Displaces(i, occupant, nNow) <==> occupant.IsTerrible(nNow))
  {
  }

  /** What a known entry's time becomes: news older than the update interval and the penalty is ignored. */
  ghost predicate TimeUpdated(was: int, now: int, addr: Address, penalty: int, nNow: int) {
    var interval := if addr.nTime > nNow - DAY then 60 * 60 else DAY;
    if addr.nTime == 0 || (was != 0 && was + interval + penalty >= addr.nTime) then now == was
    else now >= 0 && (now == addr.nTime - penalty || (now == 0 && addr.nTime < penalty))
  }

  /**
   A routable address that is known has its time and services refreshed. With news, below eight references,
   while "new", and with luck it also takes the slot of this source, if that is free or held by a terrible entry.
  */
  lemma AddRefreshes(h: Hashes, d: bool, v: View, addr: Address, source: NetAddr, nTimePenalty: int,
          nNow: int, lucky: bool)
    requires Consistent(h, d, v, {}, 0) && Key(d, addr.service) in v.addr
    ensures var w := Added(h, d, v, addr, source, nTimePenalty, nNow, true, lucky);
      var id := FindId(d, v.addr, addr.service);
      && id in v.info && id in w.info && FindId(d, w.addr, addr.service) == id
      && var (i, j) := (v.info[id], w.info[id]);
      && TimeUpdated(i.nTime, j.nTime, addr, Penalty(addr, source, nTimePenalty), nNow)
      && j.nServices == i.nServices + addr.nServices
      && SameEntry(j, i.(nTime := j.nTime, nServices := j.nServices, nRefCount := j.nRefCount))
      && var s := NewSlot(h, i.service, source);
      && s in v.newT && (v.newT[s] != -1 ==> v.newT[s] in v.info)
      && if && lucky && addr.nTime != 0 && (j.nTime == 0 || addr.nTime > j.nTime)
            && !i.fInTried && i.nRefCount < NEW_BUCKETS_PER_ADDRESS
            && v.newT[s] != id && (v.newT[s] == -1 || v.info[v.newT[s]].IsTerrible(nNow))
         then j.nRefCount == i.nRefCount + 1 && TakesSlot(v, w, s, id)
         else j.nRefCount == i.nRefCount && w.newT == v.newT && w.triedT == v.triedT && KeepsEntries(v, w, {id})
  {
    hide Consistent, Offered, Displaces;
    var penalty := Penalty(addr, source, nTimePenalty);
    FindKnows(h, d, v, addr.service);
    var id := FindId(d, v.addr, addr.service);
    var i := Refreshed(v.info[id], addr, penalty, nNow);
    var v1 := WithInfo(v, id, i);
    var s := NewSlot(h, i.service, source);
    InTables(h, d, v, {}, 0, s);
    OccupantIsEntry(h, d, v, {}, 0, s);
    RefCountBounds(h, d, v, id);
    AddFoundKeeps(h, d, v, id, i, addr, source, nNow);
    AddKeeps(h, d, v, addr, source, nTimePenalty, nNow, true, lucky);
    var w := Added(h, d, v, addr, source, nTimePenalty, nNow, true, lucky);
    if MayReference(i, addr) && lucky {
      OfferKeeps(h, d, v1, id, source, nNow, false);
      HasReference(h, d, v, id);
      if v.newT[s] != -1 {
        NewcomerDisplaces(i, v1.info[v.newT[s]], nNow);
      }
    }
    assert id in w.info && Key(d, w.info[id].service) == Key(d, addr.service);
    FindsEntry(h, d, w, id);
  }

  lemma HasReference(h: Hashes, d: bool, v: View, id: int)
    requires Consistent(h, d, v, {}, 0) && id in v.info && !v.info[id].fInTried
    ensures v.info[id].nRefCount >= 1
  {
    hide Filed, Listed, Placed, Counted;
  }

  /**
   Good_ on an entry of exactly this service: it has the success on record and is in its tried slot, and unless
   it was there before, what else changes is the promotion.
  */
  lemma GoodPromotes(h: Hashes, d: bool, v: View, s: Service, nTime: int)
    requires Consistent(h, d, v, {}, 0)
    ensures var (w, id) := (Good(h, d, v, s, nTime), FindId(d, v.addr, s));
      if id !in v.info || v.info[id].service != s then w == v
      else
        var stamped := v.info[id].(nLastSuccess := nTime, nLastTry := nTime, nAttempts := 0);
        && id in w.info && SameEntry(w.info[id], stamped.(fInTried := true, nRefCount := 0))
        && TriedSlot(h, s) in w.triedT && w.triedT[TriedSlot(h, s)] == id
        && if v.info[id].fInTried then w.newT == v.newT && w.triedT == v.triedT && KeepsEntries(v, w, {id})
           else PromotionEffect(h, v.(info := v.info[id := stamped]), w, id)
  {
    hide Consistent, MadeTried, PromotionEffect;
    var id := FindId(d, v.addr, s);
    if id in v.info && v.info[id].service == s {
      var i := v.info[id].(nLastSuccess := nTime, nLastTry := nTime, nAttempts := 0);
      RestampKeeps(h, d, v, id, i, {}, 0);
      if i.fInTried {
        TriedEntry(h, d, v, id);
      } else {
        MakeTriedKeeps(h, d, WithInfo(v, id, i), id);
        PromotedEntry(h, WithInfo(v, id, i), MadeTried(h, d, WithInfo(v, id, i), id), id);
      }
    }
  }

  lemma PromotedEntry(h: Hashes, v: View, w: View, id: int)
    requires id in v.info && PromotionEffect(h, v, w, id)
    ensures id in w.info && SameEntry(w.info[id], v.info[id].(fInTried := true, nRefCount := 0))
    ensures TriedSlot(h, v.info[id].service) in w.triedT && w.triedT[TriedSlot(h, v.info[id].service)] == id
  {
  }

  lemma TriedEntry(h: Hashes, d: bool, v: View, id: int)
    requires Consistent(h, d, v, {}, 0) && id in v.info && v.info[id].fInTried
    ensures v.info[id].nRefCount == 0
    ensures TriedSlot(h, v.info[id].service) in v.triedT && v.triedT[TriedSlot(h, v.info[id].service)] == id
  {
    hide Filed, Listed, Counted;
    assert |Slots(v.triedT, id)| == 1;
    var s :| s in Slots(v.triedT, id);
    assert v.triedT[s] != -1;
  }

  // ---------------------------------------------------------------- the class

  ghost function Contents(a: array2<int>): Table
    reads a
  {
    map b, p | 0 <= b < a.Length0 && 0 <= p < a.Length1 :: (b, p) := a[b, p]
  }

  /** Reading a slot of the array is reading its contents. */
  lemma ContentsAt(a: array2<int>, b: int, p: int)
    requires 0 <= b < a.Length0 && 0 <= p < a.Length1
    ensures (b, p) in Contents(a) && Contents(a)[(b, p)] == a[b, p]
  {
  }

  ghost predicate Blank(t: Table, buckets: int) {
    && (forall s: Slot :: s in t <==> InTable(s, buckets))
    && (forall s | s in t :: t[s] == -1)
  }

  method EmptyTable(buckets: nat) returns (a: array2<int>)
    ensures fresh(a) && a.Length0 == buckets && a.Length1 == BUCKET_SIZE
    ensures Blank(Contents(a), buckets)
  {
    a := new int[buckets, BUCKET_SIZE]((_, _) => -1);
  }

  method Put(a: array2<int>, s: Slot, v: int)
    requires 0 <= s.0 < a.Length0 && 0 <= s.1 < a.Length1
    modifies a
    ensures Contents(a) == old(Contents(a))[s := v]
  {
    a[s.0, s.1] := v;
  }

  method RandomInt(nMax: int) returns (n: int)
    requires nMax > 0
    ensures 0 <= n < nMax
  {
    n :| 0 <= n < nMax;
  }

  function Doubled(n: int): (k: nat)
    ensures k >= 1
  {
    if n <= 0 then 1 else 2 * Doubled(n - 1)
  }

  /** 2^N times harder to pass with N references; `draw` is the random number before it is reduced to the range. */
  method StochasticTest(nRefCount: int, draw: nat) returns (go: bool)
    requires nRefCount >= 0
    ensures go <==> draw % Doubled(nRefCount) == 0
  {
    var nFactor := 1;
    for n := 0 to nRefCount
      invariant nFactor == Doubled(n)
    {
      nFactor := nFactor * 2;
    }
    go := !(nFactor > 1 && draw % nFactor != 0);
  }

  /** The test passes for the entry Find gives. */
  ghost predicate Luck(d: bool, v: View, s: Service, draw: nat) {
    var id := FindId(d, v.addr, s);
    id in v.info && draw % Doubled(v.info[id].nRefCount) == 0
  }

  /** The n-th bucket the search of Good_ looks at. */
  function Probe(n: int, nRnd: int): (b: int)
    ensures 0 <= b < NEW_BUCKET_COUNT
  {
    (n + nRnd) % NEW_BUCKET_COUNT
  }

  /** An update of the one entry filed for exactly this service, port included. */
  ghost function Touched(d: bool, v: View, s: Service, f: AddrInfo -> AddrInfo): View {
    var id := FindId(d, v.addr, s);
    if id !in v.info || v.info[id].service != s then v else WithInfo(v, id, f(v.info[id]))
  }

  function Attempted(i: AddrInfo, fCountFailure: bool, nTime: int, nLastGood: int): AddrInfo {
    if fCountFailure && i.nLastCountAttempt < nLastGood
    then i.(nLastTry := nTime, nLastCountAttempt := nTime, nAttempts := i.nAttempts + 1)
    else i.(nLastTry := nTime)
  }

  /** Between two successes at most one failure of an entry counts, and only a counted one. */
  lemma FailureCountsOnce(i: AddrInfo, nTime: int, again: int, nLastGood: int)
    requires nTime >= nLastGood
    ensures var j := Attempted(i, true, nTime, nLastGood);
      && (j.nAttempts == i.nAttempts + 1 <==> i.nLastCountAttempt < nLastGood)
      && Attempted(j, true, again, nLastGood) == j.(nLastTry := again)
    ensures Attempted(i, false, nTime, nLastGood) == i.(nLastTry := nTime)
  {
  }

  function Seen(i: AddrInfo, nTime: int): AddrInfo {
    if nTime - i.nTime > 20 * 60 then i.(nTime := nTime) else i
  }

  /** A connection moves the time forward, by more than twenty minutes or not at all. */
  lemma SeenMeans(i: AddrInfo, nTime: int)
    ensures var j := Seen(i, nTime);
      j == i.(nTime := j.nTime) && j.nTime == if nTime > i.nTime + 1200 then nTime else i.nTime
  {
  }

  function AddressOf(i: AddrInfo): Address {
    Address(i.service, i.nTime, i.nServices)
  }

  function NodesToReturn(n: nat): (k: nat)
    ensures k <= GETADDR_MAX && k <= n && 100 * k <= GETADDR_MAX_PCT * n
    ensures k < GETADDR_MAX ==> GETADDR_MAX_PCT * n < 100 * (k + 1)
  {
    var share := GETADDR_MAX_PCT * n / 100;
    if share > GETADDR_MAX then GETADDR_MAX else share
  }

  ghost predicate Distinct(s: seq<int>) {
    forall i, j | 0 <= i < j < |s| :: s[i] != s[j]
  }

  class Manager {
    var nIdCount: int
    var mapInfo: Infos
    var mapAddr: map<Service, int>
    var vRandom: seq<int>
    var nTried: int
    var nNew: int
    var nLastGood: int
    const vvTried: array2<int>
    const vvNew: array2<int>
    const discriminatePorts: bool
    const hashes: Hashes

    ghost predicate Shape() {
      && vvTried.Length0 == TRIED_BUCKET_COUNT && vvTried.Length1 == BUCKET_SIZE
      && vvNew.Length0 == NEW_BUCKET_COUNT && vvNew.Length1 == BUCKET_SIZE
      && vvTried != vvNew
    }

    ghost function Now(): View
      reads this, vvTried, vvNew
    {
      View(mapInfo, mapAddr, vRandom, nIdCount, Contents(vvNew), Contents(vvTried), nNew, nTried)
    }

    ghost predicate Core(limbo: set<int>, extra: int)
      reads this, vvTried, vvNew
    {
      Shape() && Consistent(hashes, discriminatePorts, Now(), limbo, extra)
    }

    /** The six structures agree, and no entry is in limbo. */
    ghost predicate Valid()
      reads this, vvTried, vvNew
    {
      Core({}, 0)
    }

    constructor (discriminatePorts: bool, hashes: Hashes)
      ensures Valid() && TimesOk(mapInfo)
      ensures this.discriminatePorts == discriminatePorts && this.hashes == hashes
      ensures mapInfo == map[] && nLastGood == 1 && fresh(vvTried) && fresh(vvNew)
    {
      hide Consistent, Blank, Contents;
      var newTable := EmptyTable(NEW_BUCKET_COUNT);
      var triedTable := EmptyTable(TRIED_BUCKET_COUNT);
      this.discriminatePorts := discriminatePorts;
      this.hashes := hashes;
      nIdCount, mapInfo, mapAddr, vRandom := 0, map[], map[], [];
      nTried, nNew, nLastGood := 0, 0, 1;
      vvNew, vvTried := newTable, triedTable;
      new;
      EmptyConsistent(hashes, discriminatePorts, Now());
    }

    /** CAddrMan::SwapRandom; its three asserts hold. */
    method SwapRandom(nRndPos1: nat, nRndPos2: nat, ghost limbo: set<int>, ghost extra: int)
      requires Core(limbo, extra)
      requires nRndPos1 < |vRandom| && nRndPos2 < |vRandom|
      modifies this`mapInfo, this`vRandom
      ensures Core(limbo, extra)
      ensures old(vRandom)[nRndPos1] in old(mapInfo) && old(vRandom)[nRndPos2] in old(mapInfo)
      ensures Now() == Swapped(old(Now()), nRndPos1, nRndPos2)
    {
      hide Consistent, Contents;
      ghost var v := Now();
      SwapKeeps(hashes, discriminatePorts, v, nRndPos1, nRndPos2, limbo, extra);
      if nRndPos1 == nRndPos2 {
        return;
      }
      var nId1 := vRandom[nRndPos1];
      var nId2 := vRandom[nRndPos2];
      assert nId1 in mapInfo;
      assert nId2 in mapInfo;
      mapInfo := mapInfo[nId1 := mapInfo[nId1].(nRandomPos := nRndPos2)];
      mapInfo := mapInfo[nId2 := mapInfo[nId2].(nRandomPos := nRndPos1)];
      vRandom := vRandom[nRndPos1 := nId2];
      vRandom := vRandom[nRndPos2 := nId1];
      assert Now() == Swapped(v, nRndPos1, nRndPos2);
    }

    /** CAddrMan::Delete; its asserts are consequences of the entry being in limbo. */
    method Delete(nId: int, ghost limbo: set<int>, ghost extra: int)
      requires Core(limbo, extra) && nId in limbo
      modifies this
      ensures Core(limbo - {nId}, extra - 1)
      ensures Now() == Deleted(discriminatePorts, old(Now()), nId)
      ensures nLastGood == old(nLastGood)
    {
      ghost var v := Now();
      hide Consistent, Contents, Deleted, Swapped;
      LimboEntry(hashes, discriminatePorts, v, limbo, extra, nId);
      DeleteKeeps(hashes, discriminatePorts, v, nId, limbo, extra);
      SwapThenDrop(discriminatePorts, v, nId);
      assert nId in mapInfo;
      var info := mapInfo[nId];
      assert !info.fInTried;
      assert info.nRefCount == 0;
      SwapRandom(info.nRandomPos, |vRandom| - 1, limbo, extra);
      vRandom := vRandom[..|vRandom| - 1];
      mapAddr := mapAddr - {Key(discriminatePorts, info.service)};
      mapInfo := mapInfo - {nId};
      nNew := nNew - 1;
    }

    /** CAddrMan::ClearNew */
    method ClearNew(nUBucket: int, nUBucketPos: int, ghost limbo: set<int>, ghost extra: int)
      requires Core(limbo, extra)
      requires 0 <= nUBucket < NEW_BUCKET_COUNT && 0 <= nUBucketPos < BUCKET_SIZE
      modifies this, vvNew
      ensures Core(limbo, extra)
      ensures Now() == Cleared(discriminatePorts, old(Now()), (nUBucket, nUBucketPos))
      ensures vvNew[nUBucket, nUBucketPos] == -1
      ensures nLastGood == old(nLastGood)
    {
      hide Consistent, Deleted, Contents;
      ghost var v := Now();
      ghost var s := (nUBucket, nUBucketPos);
      ContentsAt(vvNew, nUBucket, nUBucketPos);
      ClearKeeps(hashes, discriminatePorts, v, s, limbo, extra);
      NoSuchId(hashes, discriminatePorts, v, limbo, extra);
      if vvNew[nUBucket, nUBucketPos] != -1 {
        var nIdDelete := vvNew[nUBucket, nUBucketPos];
        ClearStep(hashes, discriminatePorts, v, s, limbo, extra);
        assert mapInfo[nIdDelete].nRefCount > 0;
        mapInfo := mapInfo[nIdDelete := mapInfo[nIdDelete].(nRefCount := mapInfo[nIdDelete].nRefCount - 1)];
        Put(vvNew, (nUBucket, nUBucketPos), -1);
        if mapInfo[nIdDelete].nRefCount == 0 {
          Delete(nIdDelete, limbo + {nIdDelete}, extra + 1);
        }
      }
      ContentsAt(vvNew, nUBucket, nUBucketPos);
    }

    /** CAddrMan::MakeTried; all its asserts hold. */
    method MakeTried(nId: int)
      requires Valid() && nId in mapInfo && !mapInfo[nId].fInTried
      modifies this, vvNew, vvTried
      ensures Valid()
      ensures Now() == MadeTried(hashes, discriminatePorts, old(Now()), nId)
      ensures nLastGood == old(nLastGood)
    {
      hide Consistent, Contents, Evicted, MadeTried;
      ghost var v := Now();
      MakeTriedKeeps(hashes, discriminatePorts, v, nId);
      MadeTriedSteps(hashes, discriminatePorts, v, nId);
      StripInNewBuckets(nId);
      nNew := nNew - 1;
      assert mapInfo[nId].nRefCount == 0;

      var nKBucket := TriedBucket(hashes, mapInfo[nId].service);
      var nKBucketPos := Position(hashes, mapInfo[nId].service, false, nKBucket);
      ContentsAt(vvTried, nKBucket, nKBucketPos);
      EvictFrom(nKBucket, nKBucketPos, nId);
      ContentsAt(vvTried, nKBucket, nKBucketPos);
      assert vvTried[nKBucket, nKBucketPos] == -1;
      Put(vvTried, (nKBucket, nKBucketPos), nId);
      nTried := nTried + 1;
      mapInfo := mapInfo[nId := mapInfo[nId].(fInTried := true)];
    }

    /** The first loop of MakeTried: the entry leaves every "new" bucket. */
    method StripInNewBuckets(nId: int)
      requires Valid() && nId in mapInfo && !mapInfo[nId].fInTried
      modifies this`mapInfo, vvNew
      ensures Core({nId}, 1)
      ensures Now() == Stripped(old(Now()), nId)
    {
      hide Consistent, Contents, Slots, ErasedBelow, Erased;
      ghost var v := Now();
      StripConsistent(hashes, discriminatePorts, v, nId);
      NewSlotsArePlaced(hashes, discriminatePorts, v, nId);
      ErasedEnds(hashes, discriminatePorts, v, nId);
      for bucket := 0 to NEW_BUCKET_COUNT
        invariant Shape() && Contents(vvNew) == ErasedBelow(v.newT, nId, bucket)
        invariant nId in mapInfo && mapInfo == v.info[nId := v.info[nId].(nRefCount := mapInfo[nId].nRefCount)]
        invariant mapInfo[nId].nRefCount == |Slots(Contents(vvNew), nId)|
      {
        var pos := Position(hashes, mapInfo[nId].service, true, bucket);
        ContentsAt(vvNew, bucket, pos);
        EraseStep(hashes, discriminatePorts, v, nId, bucket);
        SlotsUpdate(Contents(vvNew), (bucket, pos), -1, nId);
        if vvNew[bucket, pos] == nId {
          Put(vvNew, (bucket, pos), -1);
          mapInfo := mapInfo[nId := mapInfo[nId].(nRefCount := mapInfo[nId].nRefCount - 1)];
        }
      }
    }

    /** The middle part of MakeTried: the occupant of a tried slot goes back to the "new" table. */
    method EvictFrom(nKBucket: int, nKBucketPos: int, ghost nId: int)
      requires Core({nId}, 0)
      requires 0 <= nKBucket < TRIED_BUCKET_COUNT && 0 <= nKBucketPos < BUCKET_SIZE
      modifies this, vvNew, vvTried
      ensures Core({nId}, 0)
      ensures Now() == Evicted(hashes, discriminatePorts, old(Now()), (nKBucket, nKBucketPos))
      ensures nLastGood == old(nLastGood)
    {
      hide Consistent, Contents, Cleared, KeepsEntries, LosesReference;
      ghost var v := Now();
      ghost var k := (nKBucket, nKBucketPos);
      NoSuchId(hashes, discriminatePorts, v, {nId}, 0);
      ContentsAt(vvTried, nKBucket, nKBucketPos);
      if vvTried[nKBucket, nKBucketPos] != -1 {
        EvictKeeps(hashes, discriminatePorts, v, k, nId);
        EvictedSteps(hashes, discriminatePorts, v, k, nId);
        var nIdEvict := vvTried[nKBucket, nKBucketPos];
        assert nIdEvict in mapInfo;
        mapInfo := mapInfo[nIdEvict := mapInfo[nIdEvict].(fInTried := false)];
        Put(vvTried, (nKBucket, nKBucketPos), -1);
        nTried := nTried - 1;

        var nUBucket := NewBucket(hashes, mapInfo[nIdEvict].service, mapInfo[nIdEvict].source);
        var nUBucketPos := Position(hashes, mapInfo[nIdEvict].service, true, nUBucket);
        assert Now() == Demoted(v, k);
        ClearNew(nUBucket, nUBucketPos, {nId} + {nIdEvict}, 0);
        assert vvNew[nUBucket, nUBucketPos] == -1;
        mapInfo := mapInfo[nIdEvict := mapInfo[nIdEvict].(nRefCount := 1)];
        Put(vvNew, (nUBucket, nUBucketPos), nIdEvict);
        nNew := nNew + 1;
      }
    }

    /** CAddrMan::Find */
    method Find(s: Service) returns (nId: int)
      requires Valid()
      ensures nId == FindId(discriminatePorts, mapAddr, s)
      ensures nId != -1 <==> nId in mapInfo
      ensures nId != -1 <==> exists id | id in mapInfo ::
        Key(discriminatePorts, mapInfo[id].service) == Key(discriminatePorts, s)
      ensures nId != -1 ==> Key(discriminatePorts, mapInfo[nId].service) == Key(discriminatePorts, s)
    {
      FindKnows(hashes, discriminatePorts, Now(), s);
      FindComplete(hashes, discriminatePorts, Now(), s);
      hide Consistent;
      nId := FindId(discriminatePorts, mapAddr, s);
    }

    /** CAddrMan::Good_; the search for a "new" bucket always succeeds. */
    method MarkGood(s: Service, nTime: int)
      requires Valid()
      modifies this, vvNew, vvTried
      ensures Valid() && nLastGood == nTime
      ensures Now() == Good(hashes, discriminatePorts, old(Now()), s, nTime)
    {
      hide Consistent, Contents, MadeTried;
      ghost var v := Now();
      GoodKeeps(hashes, discriminatePorts, v, s, nTime);
      nLastGood := nTime;
      var nId := Find(s);
      if nId == -1 {
        return;
      }
      if mapInfo[nId].service != s {
        return;
      }
      var info := mapInfo[nId].(nLastSuccess := nTime, nLastTry := nTime, nAttempts := 0);
      RestampKeeps(hashes, discriminatePorts, v, nId, info, {}, 0);
      mapInfo := mapInfo[nId := info];
      if info.fInTried {
        return;
      }
      var nRnd := RandomInt(NEW_BUCKET_COUNT);
      var nUBucket := FindNewBucket(nId, nRnd);
      if nUBucket == -1 {
        assert false;
      }
      MakeTried(nId);
    }

    /** The search loop of Good_, from a random bucket on. */
    method FindNewBucket(nId: int, nRnd: int) returns (nUBucket: int)
      requires Valid() && nId in mapInfo && !mapInfo[nId].fInTried && 0 <= nRnd < NEW_BUCKET_COUNT
      ensures 0 <= nUBucket < NEW_BUCKET_COUNT
      ensures vvNew[nUBucket, Position(hashes, mapInfo[nId].service, true, nUBucket)] == nId
    {
      hide Consistent, Contents;
      var service := mapInfo[nId].service;
      ghost var where := SomeNewSlot(hashes, discriminatePorts, Now(), nId);
      ContentsAt(vvNew, where.0, where.1);
      assert Probe((where.0 - nRnd) % NEW_BUCKET_COUNT, nRnd) == where.0;
      for n := 0 to NEW_BUCKET_COUNT
        invariant forall m | 0 <= m < n :: vvNew[Probe(m, nRnd), Position(hashes, service, true, Probe(m, nRnd))] != nId
      {
        var nB := Probe(n, nRnd);
        var nBpos := Position(hashes, service, true, nB);
        if vvNew[nB, nBpos] == nId {
          return nB;
        }
      }
      assert false;
    }

    /** CAddrMan::Create */
    method Create(addr: Address, source: NetAddr) returns (nId: int)
      requires Valid() && Key(discriminatePorts, addr.service) !in mapAddr
      modifies this
      ensures Core({nId}, 0) && nId == old(nIdCount)
      ensures Now() == Created(discriminatePorts, old(Now()), addr, source)
      ensures nLastGood == old(nLastGood)
    {
      hide Consistent, Contents;
      CreateKeeps(hashes, discriminatePorts, Now(), addr, source);
      nId := nIdCount;
      nIdCount := nIdCount + 1;
      mapInfo := mapInfo[nId := AddrInfo(addr.service, addr.nTime, addr.nServices, source, 0, 0, 0, 0, 0, false, -1)];
      mapAddr := mapAddr[Key(discriminatePorts, addr.service) := nId];
      mapInfo := mapInfo[nId := mapInfo[nId].(nRandomPos := |vRandom|)];
      vRandom := vRandom + [nId];
      assert mapInfo == Created(discriminatePorts, old(Now()), addr, source).info;
    }

    /** CAddrMan::Add_; `draw` is the random number for the stochastic test. */
    method Add(addr: Address, source: NetAddr, nTimePenalty: int, nNow: int, routable: bool, draw: nat)
      returns (fNew: bool)
      requires Valid()
      modifies this, vvNew
      ensures Valid() && nLastGood == old(nLastGood)
      ensures Now() == Added(hashes, discriminatePorts, old(Now()), addr, source, nTimePenalty, nNow, routable,
                             Luck(discriminatePorts, old(Now()), addr.service, draw))
      ensures fNew <==> routable && Key(discriminatePorts, addr.service) !in old(mapAddr)
    {
      hide Consistent, Contents, Offered, Created;
      ghost var v := Now();
      if !routable {
        return false;
      }
      fNew := false;
      var nId := Find(addr.service);
      FindKnows(hashes, discriminatePorts, v, addr.service);
      var penalty := if addr.service.ip == source then 0 else nTimePenalty;
      if nId != -1 {
        var info := Refreshed(mapInfo[nId], addr, penalty, nNow);
        AddFoundKeeps(hashes, discriminatePorts, v, nId, info, addr, source, nNow);
        RefCountBounds(hashes, discriminatePorts, v, nId);
        mapInfo := mapInfo[nId := info];
        assert Now() == WithInfo(v, nId, info);
        if addr.nTime == 0 || (info.nTime != 0 && addr.nTime <= info.nTime) {
          return;
        }
        if info.fInTried {
          return;
        }
        if info.nRefCount == NEW_BUCKETS_PER_ADDRESS {
          return;
        }
        var go := StochasticTest(info.nRefCount, draw);
        if !go {
          return;
        }
        Offer(nId, source, nNow, false);
      } else {
        AddCreatedKeeps(hashes, discriminatePorts, v, addr, source, penalty, nNow);
        CreatedEntry(discriminatePorts, v, addr, source);
        nId := Create(addr, source);
        var info := mapInfo[nId];
        mapInfo := mapInfo[nId := info.(nTime := Max(0, info.nTime - penalty))];
        nNew := nNew + 1;
        fNew := true;
        Offer(nId, source, nNow, true);
      }
    }

    /** The last part of Add_, from the choice of the bucket on. */
    method Offer(nId: int, source: NetAddr, nNow: int, ghost created: bool)
      requires Core(if created then {nId} else {}, if created then 1 else 0)
      requires nId in mapInfo && !mapInfo[nId].fInTried && mapInfo[nId].nRefCount < NEW_BUCKETS_PER_ADDRESS
      modifies this, vvNew
      ensures Valid() && nLastGood == old(nLastGood)
      ensures Now() == Offered(hashes, discriminatePorts, old(Now()), nId, source, nNow)
    {
      hide Consistent, Contents, Deleted, Cleared, KeepsEntries, LosesReference;
      ghost var v := Now();
      ghost var limbo: set<int> := if created then {nId} else {};
      ghost var extra := if created then 1 else 0;
      var nUBucket := NewBucket(hashes, mapInfo[nId].service, source);
      var nUBucketPos := Position(hashes, mapInfo[nId].service, true, nUBucket);
      ghost var s := (nUBucket, nUBucketPos);
      OfferKeeps(hashes, discriminatePorts, v, nId, source, nNow, created);
      OfferSteps(hashes, discriminatePorts, v, nId, s, limbo, extra);
      ContentsAt(vvNew, nUBucket, nUBucketPos);
      if vvNew[nUBucket, nUBucketPos] != nId {
        var fInsert := vvNew[nUBucket, nUBucketPos] == -1;
        if !fInsert {
          var infoExisting := mapInfo[vvNew[nUBucket, nUBucketPos]];
          if infoExisting.IsTerrible(nNow) || (infoExisting.nRefCount > 1 && mapInfo[nId].nRefCount == 0) {
            fInsert := true;
          }
        }
        if fInsert {
          ClearNew(nUBucket, nUBucketPos, limbo, extra);
          mapInfo := mapInfo[nId := mapInfo[nId].(nRefCount := mapInfo[nId].nRefCount + 1)];
          Put(vvNew, (nUBucket, nUBucketPos), nId);
        } else {
          if mapInfo[nId].nRefCount == 0 {
            Delete(nId, limbo, extra);
          }
        }
      }
    }

    /** CAddrMan::Attempt_ */
    method Attempt(s: Service, fCountFailure: bool, nTime: int)
      requires Valid()
      modifies this`mapInfo
      ensures Valid()
      ensures var last := nLastGood;
        Now() == Touched(discriminatePorts, old(Now()), s, i => Attempted(i, fCountFailure, nTime, last))
    {
      hide Consistent, Contents;
      var last := nLastGood;
      Touch(s, i => Attempted(i, fCountFailure, nTime, last));
    }

    /** CAddrMan::Connected_ */
    method Connected(s: Service, nTime: int)
      requires Valid()
      modifies this`mapInfo
      ensures Valid()
      ensures Now() == Touched(discriminatePorts, old(Now()), s, i => Seen(i, nTime))
    {
      hide Consistent, Contents;
      Touch(s, i => Seen(i, nTime));
    }

    /** CAddrMan::SetServices_ */
    method SetServices(s: Service, nServices: ServiceFlags)
      requires Valid()
      modifies this`mapInfo
      ensures Valid()
      ensures Now() == Touched(discriminatePorts, old(Now()), s, (i: AddrInfo) => i.(nServices := nServices))
    {
      hide Consistent, Contents;
      Touch(s, (i: AddrInfo) => i.(nServices := nServices));
    }

    /** The common shape of the three: find the entry for exactly this service and update it. */
    method Touch(s: Service, f: AddrInfo -> AddrInfo)
      requires Valid() && forall i :: Restamped(i, f(i))
      modifies this`mapInfo
      ensures Valid()
      ensures Now() == Touched(discriminatePorts, old(Now()), s, f)
    {
      hide Consistent, Contents;
      ghost var v := Now();
      var nId := Find(s);
      if nId == -1 {
        return;
      }
      if mapInfo[nId].service != s {
        return;
      }
      RestampKeeps(hashes, discriminatePorts, v, nId, f(v.info[nId]), {}, 0);
      mapInfo := mapInfo[nId := f(mapInfo[nId])];
    }

    /**
     CAddrMan::GetAddr_: distinct entries that are not terrible, and as many as there are or as the
     cap allows. The entries themselves do not change; vRandom is only reordered.
    */
    method GetAddr(nNow: int) returns (vAddr: seq<Address>, ghost ids: seq<int>)
      requires Valid()
      modifies this`mapInfo, this`vRandom
      ensures Valid() && SamePlaces(old(Now()), Now()) && KeepsEntries(old(Now()), Now(), {})
      ensures |vAddr| == |ids| && Distinct(ids)
      ensures forall i | 0 <= i < |ids| :: ids[i] in mapInfo && !mapInfo[ids[i]].IsTerrible(nNow)
      ensures forall i | 0 <= i < |ids| :: vAddr[i] == AddressOf(mapInfo[ids[i]])
      ensures |vAddr| <= NodesToReturn(|vRandom|)
      ensures |vAddr| < NodesToReturn(|vRandom|) ==>
        forall id | id in mapInfo && !mapInfo[id].IsTerrible(nNow) :: id in ids
    {
      hide Consistent, Contents, Swapped, SamePlaces, KeepsEntries, Gathered;
      var nNodes := NodesToReturn(|vRandom|);
      vAddr, ids := [], [];
      ghost var v := Now();
      GatherNothing(v, nNow);
      var n := 0;
      while n < |vRandom| && |vAddr| < nNodes
        invariant n <= |vRandom| == |v.rnd| && |vAddr| <= nNodes
        invariant Valid() && SamePlaces(v, Now()) && KeepsEntries(v, Now(), {})
        invariant Gathered(Now(), nNow, n, ids, vAddr)
      {
        var r := RandomInt(|vRandom| - n);
        ghost var w := Now();
        SwapRandom(n, r + n, {}, 0);
        SwapEffect(v, w, n, r + n);
        GatherStep(hashes, discriminatePorts, w, n, r + n, nNow, ids, vAddr);
        assert vRandom[n] in mapInfo;
        var ai := mapInfo[vRandom[n]];
        if !ai.IsTerrible(nNow) {
          vAddr := vAddr + [AddressOf(ai)];
          ids := ids + [vRandom[n]];
        }
        n := n + 1;
      }
      GatherEnds(hashes, discriminatePorts, Now(), nNow, n, ids, vAddr);
    }
  }

  /** The first n ids of vRandom have been examined and the good ones collected. */
  ghost predicate Gathered(v: View, nNow: int, n: int, ids: seq<int>, vAddr: seq<Address>) {
    && 0 <= n <= |v.rnd| && |vAddr| == |ids| && Distinct(ids)
    && (forall i | 0 <= i < |ids| :: ids[i] in v.rnd[..n])
    && (forall i | 0 <= i < |ids| ::
          ids[i] in v.info && !v.info[ids[i]].IsTerrible(nNow) && vAddr[i] == AddressOf(v.info[ids[i]]))
    && (forall i | 0 <= i < n :: v.rnd[i] in v.info && (!v.info[v.rnd[i]].IsTerrible(nNow) ==> v.rnd[i] in ids))
  }

  lemma GatherNothing(v: View, nNow: int)
    ensures SamePlaces(v, v) && KeepsEntries(v, v, {}) && Gathered(v, nNow, 0, [], [])
  {
  }

  lemma GatherSwap(v: View, w: View, n: int, nNow: int, ids: seq<int>, vAddr: seq<Address>)
    requires Gathered(v, nNow, n, ids, vAddr) && |w.rnd| == |v.rnd| && w.rnd[..n] == v.rnd[..n]
    requires forall id | id in v.info :: id in w.info && SameEntry(v.info[id], w.info[id])
    ensures Gathered(w, nNow, n, ids, vAddr)
  {
    forall i | 0 <= i < n
      ensures w.rnd[i] in w.info && (!w.info[w.rnd[i]].IsTerrible(nNow) ==> w.rnd[i] in ids)
    {
      assert w.rnd[..n][i] == v.rnd[..n][i];
      assert v.rnd[i] in v.info;
    }
  }

  lemma GatherNext(v: View, n: int, nNow: int, ids: seq<int>, vAddr: seq<Address>)
    requires Gathered(v, nNow, n, ids, vAddr) && n < |v.rnd| && Distinct(v.rnd) && v.rnd[n] in v.info
    ensures var ai := v.info[v.rnd[n]];
      if ai.IsTerrible(nNow) then Gathered(v, nNow, n + 1, ids, vAddr)
      else Gathered(v, nNow, n + 1, ids + [v.rnd[n]], vAddr + [AddressOf(ai)])
  {
  }

  lemma GatherStep(h: Hashes, d: bool, v: View, n: int, j: int, nNow: int, ids: seq<int>, vAddr: seq<Address>)
    requires Consistent(h, d, v, {}, 0) && Gathered(v, nNow, n, ids, vAddr) && n <= j < |v.rnd|
    ensures v.rnd[n] in v.info && v.rnd[j] in v.info
    ensures var w := Swapped(v, n, j);
      && |w.rnd| == |v.rnd| && w.rnd[n] in w.info
      && var ai := w.info[w.rnd[n]];
      && if ai.IsTerrible(nNow) then Gathered(w, nNow, n + 1, ids, vAddr)
         else Gathered(w, nNow, n + 1, ids + [w.rnd[n]], vAddr + [AddressOf(ai)])
  {
    assert 0 <= n;
    hide Consistent, Gathered, Distinct;
    SwapKeeps(h, d, v, n, j, {}, 0);
    RandomIsDistinct(h, d, Swapped(v, n, j));
    SwapLeaves(v, n, j);
    GatherSwap(v, Swapped(v, n, j), n, nNow, ids, vAddr);
    GatherNext(Swapped(v, n, j), n, nNow, ids, vAddr);
  }

  lemma SwapLeaves(v: View, n: int, j: int)
    requires 0 <= n <= j < |v.rnd| && v.rnd[n] in v.info && v.rnd[j] in v.info
    ensures var w := Swapped(v, n, j);
      && |w.rnd| == |v.rnd| && w.rnd[..n] == v.rnd[..n]
      && forall id | id in v.info :: id in w.info && SameEntry(v.info[id], w.info[id])
  {
  }

  lemma GatherEnds(h: Hashes, d: bool, v: View, nNow: int, n: int, ids: seq<int>, vAddr: seq<Address>)
    requires Consistent(h, d, v, {}, 0) && Gathered(v, nNow, n, ids, vAddr)
    ensures |vAddr| == |ids| && Distinct(ids)
    ensures forall i | 0 <= i < |ids| ::
      ids[i] in v.info && !v.info[ids[i]].IsTerrible(nNow) && vAddr[i] == AddressOf(v.info[ids[i]])
    ensures n == |v.rnd| ==> forall id | id in v.info && !v.info[id].IsTerrible(nNow) :: id in ids
  {
  }

  lemma SwapSame(w: View, i: int, j: int)
    requires 0 <= i < |w.rnd| && 0 <= j < |w.rnd| && w.rnd[i] in w.info && w.rnd[j] in w.info
    ensures SamePlaces(w, Swapped(w, i, j)) && KeepsEntries(w, Swapped(w, i, j), {})
  {
  }

  lemma SwapEffect(v: View, w: View, i: int, j: int)
    requires 0 <= i < |w.rnd| && 0 <= j < |w.rnd| && w.rnd[i] in w.info && w.rnd[j] in w.info
    requires SamePlaces(v, w) && KeepsEntries(v, w, {})
    ensures SamePlaces(v, Swapped(w, i, j)) && KeepsEntries(v, Swapped(w, i, j), {})
  {
    hide Swapped;
    SwapSame(w, i, j);
  }

  lemma RandomIsDistinct(h: Hashes, d: bool, v: View)
    requires Consistent(h, d, v, {}, 0)
    ensures Distinct(v.rnd) && forall i | 0 <= i < |v.rnd| :: v.rnd[i] in v.info
  {
    hide Filed, Placed, RefCounted, Counted;
    forall i | 0 <= i < |v.rnd| ensures v.rnd[i] in v.info {
      assert Nth(v.rnd, i) in v.info;
    }
    forall i, j | 0 <= i < j < |v.rnd| ensures v.rnd[i] != v.rnd[j] {
      assert v.info[Nth(v.rnd, i)].nRandomPos == i && v.info[Nth(v.rnd, j)].nRandomPos == j;
    }
  }

  lemma FindComplete(h: Hashes, d: bool, v: View, s: Service)
    requires Consistent(h, d, v, {}, 0)
    ensures forall id | id in v.info && Key(d, v.info[id].service) == Key(d, s) :: FindId(d, v.addr, s) == id
  {
  }

  /** An entry that is not tried has a "new" slot, at a position the search of Good_ visits. */
  ghost function SomeNewSlot(h: Hashes, d: bool, v: View, id: int): (s: Slot)
    requires Consistent(h, d, v, {}, 0) && id in v.info && !v.info[id].fInTried
    ensures s in v.newT && v.newT[s] == id && InTable(s, NEW_BUCKET_COUNT)
    ensures s.1 == Position(h, v.info[id].service, true, s.0)
  {
    RefsOf(v, {}, id);
    NewSlotsArePlaced(h, d, v, id);
    assert Slots(v.newT, id) != {};
    var s :| s in Slots(v.newT, id);
    InTables(h, d, v, {}, 0, s);
    s
  }

  lemma CreatedEntry(d: bool, v: View, addr: Address, source: NetAddr)
    ensures v.nIdCount in Created(d, v, addr, source).info
    ensures var i := Created(d, v, addr, source).info[v.nIdCount];
      !i.fInTried && i.nRefCount == 0
  {
  }

  lemma RefCountBounds(h: Hashes, d: bool, v: View, id: int)
    requires Consistent(h, d, v, {}, 0) && id in v.info
    ensures 0 <= v.info[id].nRefCount <= NEW_BUCKETS_PER_ADDRESS
  {
  }

  lemma OfferSteps(h: Hashes, d: bool, v: View, id: int, s: Slot, limbo: set<int>, extra: int)
    requires Consistent(h, d, v, limbo, extra) && id in v.info && InTable(s, NEW_BUCKET_COUNT)
    ensures s in v.newT && -1 !in v.info && (v.newT[s] == -1 <==> v.newT[s] !in v.info)
    ensures v.newT[s] != id ==>
      id in Cleared(d, v, s).info && Cleared(d, v, s).info[id].nRefCount == v.info[id].nRefCount
    ensures v.info[id].nRefCount == 0 && !v.info[id].fInTried ==> id in limbo
  {
    hide Filed, Listed, Placed, Counted, RefCounted, Slots, Cleared;
    InTables(h, d, v, limbo, extra, s);
    NoSuchId(h, d, v, limbo, extra);
    OccupantIsEntry(h, d, v, limbo, extra, s);
    RefsOf(v, limbo, id);
    hide Consistent;
    ClearKeeps(h, d, v, s, limbo, extra);
  }

  ghost function ErasedBelow(t: Table, id: int, bucket: int): Table {
    map s | s in t :: if t[s] == id && s.0 < bucket then -1 else t[s]
  }

  /** An entry's "new" slots are at the positions MakeTried and Good_ look at. */
  lemma NewSlotsArePlaced(h: Hashes, d: bool, v: View, id: int)
    requires Consistent(h, d, v, {}, 0) && id in v.info
    ensures id != -1 && v.info[id].nRefCount == |Slots(v.newT, id)|
    ensures forall s | s in v.newT && v.newT[s] == id :: s.1 == Position(h, v.info[id].service, true, s.0)
  {
  }

  lemma ErasedEnds(h: Hashes, d: bool, v: View, id: int)
    requires Consistent(h, d, v, {}, 0) && id in v.info
    ensures ErasedBelow(v.newT, id, 0) == v.newT
    ensures ErasedBelow(v.newT, id, NEW_BUCKET_COUNT) == Erased(v.newT, id)
    ensures |Slots(Erased(v.newT, id), id)| == 0
  {
    hide Filed, Listed, RefCounted, Counted;
    SlotsEmpty(Erased(v.newT, id), id);
  }

  lemma EraseStep(h: Hashes, d: bool, v: View, id: int, bucket: int)
    requires Consistent(h, d, v, {}, 0) && id in v.info && 0 <= bucket < NEW_BUCKET_COUNT
    ensures var s := (bucket, Position(h, v.info[id].service, true, bucket));
      var (a, b) := (ErasedBelow(v.newT, id, bucket), ErasedBelow(v.newT, id, bucket + 1));
      s in a && b == if a[s] == id then a[s := -1] else a
  {
    NewSlotsArePlaced(h, d, v, id);
    var s := (bucket, Position(h, v.info[id].service, true, bucket));
    InTables(h, d, v, {}, 0, s);
    hide Consistent, Position;
  }

  lemma EvictedSteps(h: Hashes, d: bool, v: View, k: Slot, id: int)
    requires Consistent(h, d, v, {id}, 0) && k in v.triedT && v.triedT[k] != -1
    ensures v.triedT[k] in v.info
    ensures var e := v.triedT[k];
      var u := NewSlot(h, v.info[e].service, v.info[e].source);
      var w := Cleared(d, Demoted(v, k), u);
      && Consistent(h, d, Demoted(v, k), {id} + {e}, 0)
      && e in w.info && w.info[e].nRefCount == 0
      && Evicted(h, d, v, k) == Referenced(w, e, u).(nNew := w.nNew + 1)
  {
    hide Consistent, Cleared;
    DemoteConsistent(h, d, v, k, {id}, 0);
    var e := v.triedT[k];
    var u := NewSlot(h, v.info[e].service, v.info[e].source);
    InTables(h, d, Demoted(v, k), {id} + {e}, 0, u);
    ClearKeeps(h, d, Demoted(v, k), u, {id} + {e}, 0);
  }

  lemma MadeTriedSteps(h: Hashes, d: bool, v: View, id: int)
    requires Consistent(h, d, v, {}, 0) && id in v.info && !v.info[id].fInTried
    ensures var k := TriedSlot(h, v.info[id].service);
      var v1 := Stripped(v, id).(nNew := v.nNew - 1);
      var v2 := Evicted(h, d, v1, k);
      && Consistent(h, d, v1, {id}, 0)
      && id in v2.info && k in v2.triedT && v2.triedT[k] == -1 && v2.info[id].service == v.info[id].service
      && MadeTried(h, d, v, id) == Promoted(v2, id, k)
  {
    hide Consistent, Evicted;
    var k := TriedSlot(h, v.info[id].service);
    InTables(h, d, v, {}, 0, k);
    StripConsistent(h, d, v, id);
    ShiftNew(h, d, Stripped(v, id), {id}, 1, -1);
    var v1 := Stripped(v, id).(nNew := v.nNew - 1);
    NoSuchId(h, d, v1, {id}, 0);
    if v1.triedT[k] == -1 {
      EvictNothing(h, d, v1, k);
    } else {
      EvictKeeps(h, d, v1, k, id);
    }
  }

  lemma ClearStep(h: Hashes, d: bool, v: View, s: Slot, limbo: set<int>, extra: int)
    requires Consistent(h, d, v, limbo, extra) && s in v.newT && v.newT[s] != -1
    ensures v.newT[s] in v.info && v.newT[s] !in limbo && v.info[v.newT[s]].nRefCount > 0
    ensures var w := Unreferenced(v, s);
      w.info[v.newT[s]].nRefCount == 0 ==> Consistent(h, d, w, limbo + {v.newT[s]}, extra + 1)
  {
    hide Filed, Listed, Placed, RefCounted, Counted;
    UnreferenceKeeps(h, v, s, limbo, extra);
    var w := Unreferenced(v, s);
    if w.info[v.newT[s]].nRefCount == 0 {
      OnlyEntryConsistent(h, d, v, w, v.newT[s], limbo + {v.newT[s]}, extra + 1);
    }
  }

  lemma EmptyConsistent(h: Hashes, d: bool, v: View)
    requires v.info == map[] && v.addr == map[] && v.rnd == [] && v.nIdCount == v.nNew == v.nTried == 0
    requires Blank(v.newT, NEW_BUCKET_COUNT) && Blank(v.triedT, TRIED_BUCKET_COUNT)
    ensures Consistent(h, d, v, {}, 0)
  {
  }

  lemma LimboEntry(h: Hashes, d: bool, v: View, limbo: set<int>, extra: int, id: int)
    requires Consistent(h, d, v, limbo, extra) && id in limbo
    ensures CanDelete(v, id) && !v.info[id].fInTried && v.info[id].nRefCount == 0
    ensures v.rnd[v.info[id].nRandomPos] == id
  {
  }

  /** Swapping an entry to the end of vRandom and popping it is deleting it. */
  lemma SwapThenDrop(d: bool, v: View, id: int)
    requires CanDelete(v, id) && v.rnd[v.info[id].nRandomPos] == id
    ensures var w := Swapped(v, v.info[id].nRandomPos, |v.rnd| - 1);
      && |w.rnd| == |v.rnd|
      && Deleted(d, v, id) == w.(info := w.info - {id}, addr := w.addr - {Key(d, v.info[id].service)},
                                 rnd := w.rnd[..|w.rnd| - 1], nNew := w.nNew - 1)
  {
    var (pos, n) := (v.info[id].nRandomPos, |v.rnd| - 1);
    var w := Swapped(v, pos, n);
    var last := v.rnd[n];
    assert v.rnd[pos := last][..n] == w.rnd[..n];
    assert v.info[last := v.info[last].(nRandomPos := pos)] - {id} == w.info - {id};
  }

  // ---------------------------------------------------------------- recorded times

  /**
   Good_ keeps Check_'s conditions on times exactly when it is given a positive time or finds no
   entry for this service and port: with time 0 it leaves a tried entry that never succeeded.
  */
  lemma GoodTimes(h: Hashes, d: bool, v: View, s: Service, nTime: int)
    requires Consistent(h, d, v, {}, 0) && TimesOk(v.info)
    ensures var id := FindId(d, v.addr, s);
      TimesOk(Good(h, d, v, s, nTime).info) <==> nTime > 0 || id !in v.info || v.info[id].service != s
  {
    hide Consistent, MadeTried;
    var id := FindId(d, v.addr, s);
    if id in v.info && v.info[id].service == s {
      var i := v.info[id].(nLastSuccess := nTime, nLastTry := nTime, nAttempts := 0);
      var v1 := WithInfo(v, id, i);
      RestampKeeps(h, d, v, id, i, {}, 0);
      var w := Good(h, d, v, s, nTime);
      if !i.fInTried {
        MakeTriedKeeps(h, d, v1, id);
        NoSuchId(h, d, v1, {}, 0);
        PromotionTimes(h, v1, w, id);
      }
      assert id in w.info && w.info[id].nLastSuccess == nTime && w.info[id].fInTried;
    }
  }

  lemma PromotionTimes(h: Hashes, v: View, w: View, id: int)
    requires id in v.info && -1 !in v.info && PromotionEffect(h, v, w, id)
    ensures forall i | i in w.info ::
      && i in v.info
      && w.info[i].nLastTry == v.info[i].nLastTry && w.info[i].nLastSuccess == v.info[i].nLastSuccess
      && (w.info[i].fInTried ==> i == id || v.info[i].fInTried)
    ensures id in w.info && w.info[id].fInTried
  {
  }

  lemma AddTimes(h: Hashes, d: bool, v: View, addr: Address, source: NetAddr, nTimePenalty: int,
                 nNow: int, routable: bool, lucky: bool)
    requires Consistent(h, d, v, {}, 0) && TimesOk(v.info)
    ensures TimesOk(Added(h, d, v, addr, source, nTimePenalty, nNow, routable, lucky).info)
  {
    hide Consistent, Offered;
    var penalty := if addr.service.ip == source then 0 else nTimePenalty;
    var id := FindId(d, v.addr, addr.service);
    FindKnows(h, d, v, addr.service);
    if routable && id in v.info {
      var i := Refreshed(v.info[id], addr, penalty, nNow);
      RestampKeeps(h, d, v, id, i, {}, 0);
      if MayReference(i, addr) && lucky {
        RefCountBounds(h, d, v, id);
        OfferTimes(h, d, WithInfo(v, id, i), id, source, nNow, false);
      }
    } else if routable {
      AddCreatedKeeps(h, d, v, addr, source, penalty, nNow);
      var v1 := Created(d, v, addr, source);
      var i := v1.info[v.nIdCount];
      var v2 := WithInfo(v1, v.nIdCount, i.(nTime := Max(0, i.nTime - penalty))).(nNew := v1.nNew + 1);
      OfferTimes(h, d, v2, v.nIdCount, source, nNow, true);
    }
  }

  lemma OfferTimes(h: Hashes, d: bool, v: View, id: int, source: NetAddr, nNow: int, created: bool)
    requires Consistent(h, d, v, if created then {id} else {}, if created then 1 else 0) && TimesOk(v.info)
    requires id in v.info && !v.info[id].fInTried && v.info[id].nRefCount < NEW_BUCKETS_PER_ADDRESS
    ensures TimesOk(Offered(h, d, v, id, source, nNow).info)
  {
    hide Consistent, Offered;
    OfferKeeps(h, d, v, id, source, nNow, created);
    NoSuchId(h, d, v, if created then {id} else {}, if created then 1 else 0);
  }

  // ---------------------------------------------------------------- every run

  datatype Op =
    | OpAdd(addr: Address, source: NetAddr, nTimePenalty: int, nNow: int, routable: bool, draw: nat)
    | OpGood(s: Service, nTime: int)
    | OpAttempt(s: Service, fCountFailure: bool, nTime: int)
    | OpConnected(s: Service, nTime: int)
    | OpSetServices(s: Service, nServices: ServiceFlags)
    | OpGetAddr(nNow: int)

  predicate PositiveTimes(op: Op) {
    (op.OpGood? ==> op.nTime > 0) && (op.OpAttempt? ==> op.nTime >= 0)
  }

  ghost predicate AtItsPosition(v: View, id: int)
    requires id in v.info
  {
    0 <= v.info[id].nRandomPos < |v.rnd| && v.rnd[v.info[id].nRandomPos] == id
  }

  lemma {:induction false} Within<T>(a: set<T>, b: set<T>)
    requires a <= b
    ensures |a| <= |b| && (|a| == |b| ==> a == b)
  {
    assert b == a + (b - a);
    assert |b| == |a| + |b - a|;
  }

  function Elements(s: seq<int>): set<int> {
    set x | x in s
  }

  lemma {:induction false} ElementsBound(s: seq<int>)
    ensures |Elements(s)| <= |s|
    ensures |Elements(s)| == |s| <==> Distinct(s)
  {
    if s != [] {
      var (init, last) := (s[..|s| - 1], s[|s| - 1]);
      ElementsBound(init);
      assert s == init + [last];
      assert Elements(s) == Elements(init) + {last};
      if last !in init && Distinct(init) {
        assert Distinct(s);
      }
    }
  }

  lemma IdsSplit(info: Infos)
    ensures |TriedIds(info)| + |NewIds(info)| == |info.Keys|
  {
    assert TriedIds(info) + NewIds(info) == info.Keys;
    assert TriedIds(info) !! NewIds(info);
  }

  /** As many places in vRandom as entries, and every entry at its place, leaves no place over. */
  lemma RandomIsFull(v: View)
    requires forall id | id in v.info :: AtItsPosition(v, id)
    ensures Listed(v) <==> |v.rnd| == |v.info.Keys|
  {
    ElementsBound(v.rnd);
    forall id | id in v.info ensures id in Elements(v.rnd) {
      assert AtItsPosition(v, id);
    }
    Within(v.info.Keys, Elements(v.rnd));
    if |v.rnd| == |v.info.Keys| {
      forall i | 0 <= i < |v.rnd| ensures Nth(v.rnd, i) in v.info && v.info[Nth(v.rnd, i)].nRandomPos == i {
        assert Nth(v.rnd, i) in Elements(v.rnd);
        assert AtItsPosition(v, v.rnd[i]);
      }
    }
    if Listed(v) {
      forall i, j | 0 <= i < j < |v.rnd| ensures v.rnd[i] != v.rnd[j] {
        assert Nth(v.rnd, i) == v.rnd[i] && Nth(v.rnd, j) == v.rnd[j];
      }
      forall x | x in Elements(v.rnd) ensures x in v.info {
        var i :| 0 <= i < |v.rnd| && v.rnd[i] == x;
        assert Nth(v.rnd, i) in v.info;
      }
      assert Elements(v.rnd) == v.info.Keys;
    }
  }

  /** The count Check_ starts with (code -7) follows from the rest. */
  lemma CountsAddUp(h: Hashes, d: bool, v: View)
    requires Consistent(h, d, v, {}, 0)
    ensures |v.rnd| == v.nTried + v.nNew == |v.info|
  {
    hide Filed, Placed, RefCounted, TriedIds, NewIds;
    IdsSplit(v.info);
    RandomIsFull(v);
    assert NewIds(v.info) - {} == NewIds(v.info);
  }

  /**
   From the constructor on, every sequence of operations keeps Check_'s structural conditions; with
   positive times it keeps all of them.
  */
  method Run(discriminatePorts: bool, hashes: Hashes, ops: seq<Op>) returns (m: Manager)
    ensures fresh(m) && m.Valid() && m.discriminatePorts == discriminatePorts && m.hashes == hashes
    ensures |m.vRandom| == m.nTried + m.nNew == |m.mapInfo|
    ensures (forall k | 0 <= k < |ops| :: PositiveTimes(ops[k])) ==> TimesOk(m.mapInfo)
  {
    hide Consistent, Contents, Good, Added, TimesOk;
    m := new Manager(discriminatePorts, hashes);
    for n := 0 to |ops|
      invariant fresh(m) && fresh(m.vvNew) && fresh(m.vvTried) && m.Valid()
      invariant m.discriminatePorts == discriminatePorts && m.hashes == hashes
      invariant (forall k | 0 <= k < n :: PositiveTimes(ops[k])) ==> TimesOk(m.mapInfo)
    {
      Perform(m, ops[n]);
    }
    CountsAddUp(hashes, discriminatePorts, m.Now());
  }

  method Perform(m: Manager, op: Op)
    requires m.Valid()
    modifies m, m.vvNew, m.vvTried
    ensures m.Valid()
    ensures old(TimesOk(m.mapInfo)) && PositiveTimes(op) ==> TimesOk(m.mapInfo)
  {
    hide Consistent, Contents, Good, Added;
    ghost var v := m.Now();
    match op
    case OpAdd(addr, source, penalty, nNow, routable, draw) =>
      var _ := m.Add(addr, source, penalty, nNow, routable, draw);
      if TimesOk(v.info) {
        AddTimes(m.hashes, m.discriminatePorts, v, addr, source, penalty, nNow, routable,
                 Luck(m.discriminatePorts, v, addr.service, draw));
      }
    case OpGood(s, nTime) =>
      m.MarkGood(s, nTime);
      if TimesOk(v.info) {
        GoodTimes(m.hashes, m.discriminatePorts, v, s, nTime);
      }
    case OpAttempt(s, fCountFailure, nTime) => m.Attempt(s, fCountFailure, nTime);
    case OpConnected(s, nTime) => m.Connected(s, nTime);
    case OpSetServices(s, nServices) => m.SetServices(s, nServices);
    case OpGetAddr(nNow) => var _, _ := m.GetAddr(nNow);
  }
}
