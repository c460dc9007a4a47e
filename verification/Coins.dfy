/**
 The stack of coin caches of src/coins.h and src/coins.cpp.

 A view is the coin database or a cache on top of another view. A cache entry may be DIRTY (it may
 differ from the view below) and FRESH (the view below has no unspent coin there); a FRESH coin that
 is spent is simply forgotten. The caches refine a stack of plain maps of unspent coins.
*/
module Coins {
  import opened Wrappers

  const OP_RETURN := 0x6a
  const MAX_SCRIPT_SIZE := 10000

  type Script = seq<nat>

  datatype OutPoint = OutPoint(hash: nat, n: nat)

  datatype Coin = Coin(nValue: int, script: Script, fCoinBase: bool, fCoinStake: bool, nHeight: nat) {
    /** CTxOut::IsNull */
    predicate IsSpent() { nValue == -1 }

    predicate IsUnspendable() {
      (|script| > 0 && script[0] == OP_RETURN) || |script| > MAX_SCRIPT_SIZE
    }

    /** Memory a script holds outside the coin: nothing when it is empty. */
    function DynamicMemoryUsage(): nat { |script| }
  }

  /** A coin after Clear(). */
  const SPENT_COIN := Coin(-1, [], false, false, 0)

  datatype Entry = Entry(coin: Coin, isDirty: bool, isFresh: bool)

  type CoinMap = map<OutPoint, Coin>
  type Cache = map<OutPoint, Entry>

  // ---------------------------------------------------------------- what a cache means

  /** The unspent coins seen through a cache over a view that shows `below`. */
  function Overlay(cache: Cache, below: CoinMap): CoinMap {
    map o | o in cache.Keys + below.Keys && (o in cache ==> !cache[o].coin.IsSpent()) ::
      if o in cache then cache[o].coin else below[o]
  }

  lemma OverlayAt(cache: Cache, below: CoinMap, o: OutPoint)
    ensures o in cache ==>
      && (o in Overlay(cache, below) <==> !cache[o].coin.IsSpent())
      && (o in Overlay(cache, below) ==> Overlay(cache, below)[o] == cache[o].coin)
    ensures o !in cache ==>
      (o in Overlay(cache, below) <==> o in below) && (o in below ==> Overlay(cache, below)[o] == below[o])
  {
  }

  /** A coin set is unspent throughout. */
  ghost predicate Unspent(coins: CoinMap) {
    forall o | o in coins :: !coins[o].IsSpent()
  }

  /** A cached coin is what the view below shows. */
  ghost predicate Agrees(coin: Coin, below: CoinMap, o: OutPoint) {
    if coin.IsSpent() then o !in below else o in below && below[o] == coin
  }

  ghost predicate EntryOk(e: Entry, below: CoinMap, o: OutPoint) {
    && (e.isFresh ==> o !in below)
    && (!e.isDirty ==> Agrees(e.coin, below, o))
  }

  /** What the flags promise about the view below. */
  ghost predicate FlagsOk(cache: Cache, below: CoinMap) {
    forall o | o in cache :: EntryOk(cache[o], below, o)
  }

  /** Assigning a (possibly spent) coin to an outpoint of a coin set. */
  function Assign(coins: CoinMap, o: OutPoint, coin: Coin): CoinMap {
    if coin.IsSpent() then coins - {o} else coins[o := coin]
  }

  lemma OverlayUpdate(cache: Cache, below: CoinMap, o: OutPoint, e: Entry)
    ensures Overlay(cache[o := e], below) == Assign(Overlay(cache, below), o, e.coin)
  {
  }

  /** Forgetting an entry uncovers the view below. */
  lemma OverlayRemove(cache: Cache, below: CoinMap, o: OutPoint)
    requires Unspent(below)
    ensures Overlay(cache - {o}, below)
         == if o in below then Assign(Overlay(cache, below), o, below[o]) else Overlay(cache, below) - {o}
  {
  }

  lemma OverlayUnspent(cache: Cache, below: CoinMap)
    requires Unspent(below)
    ensures Unspent(Overlay(cache, below))
  {
  }

  // ---------------------------------------------------------------- memory accounting

  ghost function Usage(cache: Cache): nat {
    if cache == map[] then 0
    else
      var o :| o in cache;
      cache[o].coin.DynamicMemoryUsage() + Usage(cache - {o})
  }

  lemma {:induction false} UsageRemove(cache: Cache, o: OutPoint)
    requires o in cache
    ensures Usage(cache) == cache[o].coin.DynamicMemoryUsage() + Usage(cache - {o})
    decreases |cache|
  {
    var p :| p in cache && Usage(cache) == cache[p].coin.DynamicMemoryUsage() + Usage(cache - {p});
    if p != o {
      UsageRemove(cache - {p}, o);
      UsageRemove(cache - {o}, p);
      assert cache - {p} - {o} == cache - {o} - {p};
    }
  }

  lemma UsageUpdate(cache: Cache, o: OutPoint, e: Entry)
    ensures Usage(cache[o := e])
         == Usage(cache) - (if o in cache then cache[o].coin.DynamicMemoryUsage() else 0) + e.coin.DynamicMemoryUsage()
  {
    UsageRemove(cache[o := e], o);
    assert cache[o := e] - {o} == cache - {o};
    if o in cache {
      UsageRemove(cache, o);
    } else {
      assert cache - {o} == cache;
    }
  }

  // ---------------------------------------------------------------- what the operations do to a cache

  function Existing(cache: Cache, o: OutPoint): Entry {
    if o in cache then cache[o] else Entry(SPENT_COIN, false, false)
  }

  /** The entry AddCoin leaves: FRESH if it may not overwrite and the entry was not DIRTY. */
  function AddedEntry(cache: Cache, o: OutPoint, coin: Coin, possibleOverwrite: bool): Entry {
    var e := Existing(cache, o);
    Entry(coin, true, e.isFresh || (!possibleOverwrite && !e.isDirty))
  }

  /** AddCoin throws on an entry that holds an unspent coin, unless it may overwrite. */
  predicate AddThrows(cache: Cache, o: OutPoint, possibleOverwrite: bool) {
    !possibleOverwrite && !Existing(cache, o).coin.IsSpent()
  }

  /**
   AddCoin keeps the meaning of the flags exactly when the caller's promise holds where the cache
   cannot see: without an entry of its own, the view below must not have the coin either.
  */
  lemma AddKeepsFlags(cache: Cache, below: CoinMap, o: OutPoint, coin: Coin, possibleOverwrite: bool)
    requires FlagsOk(cache, below) && !AddThrows(cache, o, possibleOverwrite)
    ensures FlagsOk(cache[o := AddedEntry(cache, o, coin, possibleOverwrite)], below)
       <==> possibleOverwrite || o in cache || o !in below
  {
    var cache' := cache[o := AddedEntry(cache, o, coin, possibleOverwrite)];
    assert EntryOk(cache'[o], below, o) <==> possibleOverwrite || o in cache || o !in below by {
      if o in cache {
        assert EntryOk(cache[o], below, o);
      }
    }
    forall p | p in cache' && p != o ensures EntryOk(cache'[p], below, p) {
      assert EntryOk(cache[p], below, p);
    }
  }

  /** A broken promise is paid for later: added, spent and flushed, the coin is back. */
  lemma BrokenPromiseResurrects(o: OutPoint, prior: Coin, coin: Coin)
    requires !prior.IsSpent() && !coin.IsSpent()
    ensures var below := map[o := prior];
      var cache: Cache := map[o := AddedEntry(map[], o, coin, false)];
      && !FlagsOk(cache, below)
      && Overlay(cache, below) == map[o := coin]
      // SpendCoin erases the entry because it is FRESH, which uncovers the old coin
      && cache[o].isFresh && o in Overlay(cache - {o}, below)
  {
    var cache: Cache := map[o := AddedEntry(map[], o, coin, false)];
    assert !EntryOk(cache[o], map[o := prior], o);
  }

  /** One step of BatchWrite: the child's entry e arrives in the parent's cache. */
  function WriteEntry(cache: Cache, o: OutPoint, e: Entry): Cache {
    if !e.isDirty then cache
    else if o !in cache then
      if e.isFresh && e.coin.IsSpent() then cache else cache[o := Entry(e.coin, true, e.isFresh)]
    else if cache[o].isFresh && e.coin.IsSpent() then cache - {o}
    else cache[o := Entry(e.coin, true, cache[o].isFresh)]
  }

  /** The condition under which BatchWrite throws "FRESH flag misapplied". */
  predicate FreshMisapplied(cache: Cache, o: OutPoint, e: Entry) {
    e.isDirty && o in cache && e.isFresh && !cache[o].coin.IsSpent()
  }

  /**
   With the child's flags right about this view and this cache's flags right about the view below,
   the step assigns the child's coin, keeps the flags right, and never finds a misapplied flag.
  */
  lemma WriteEntryKeeps(cache: Cache, below: CoinMap, o: OutPoint, e: Entry)
    requires FlagsOk(cache, below) && Unspent(below) && EntryOk(e, Overlay(cache, below), o)
    ensures !FreshMisapplied(cache, o, e)
    ensures FlagsOk(WriteEntry(cache, o, e), below)
    ensures Overlay(WriteEntry(cache, o, e), below) == Assign(Overlay(cache, below), o, e.coin)
  {
    OverlayUpdate(cache, below, o, Entry(e.coin, true, if o in cache then cache[o].isFresh else e.isFresh));
    OverlayRemove(cache, below, o);
    if o in cache {
      assert EntryOk(cache[o], below, o);
    }
    forall p | p in WriteEntry(cache, o, e) && p != o ensures EntryOk(WriteEntry(cache, o, e)[p], below, p) {
      assert EntryOk(cache[p], below, p);
    }
  }

  /** Writing all entries of a cache into a coin set, in any order, is overlaying it. */
  lemma OverlayPeel(child: Cache, coins: CoinMap, o: OutPoint)
    requires o in child
    ensures Overlay(child - {o}, Assign(coins, o, child[o].coin)) == Overlay(child, coins)
  {
  }

  lemma OverlayNothing(coins: CoinMap)
    ensures Overlay(map[], coins) == coins
  {
  }

  /** Assigning one outpoint does not disturb what the other entries say. */
  lemma FlagsPeel(child: Cache, coins: CoinMap, o: OutPoint)
    requires FlagsOk(child, coins) && o in child
    ensures EntryOk(child[o], coins, o)
    ensures FlagsOk(child - {o}, Assign(coins, o, child[o].coin))
  {
  }

  /** Caching what the view below shows changes nothing to see. */
  lemma FetchKeeps(cache: Cache, below: CoinMap, o: OutPoint, e: Entry)
    requires FlagsOk(cache, below) && Unspent(below) && o !in cache && o in below && e == Entry(below[o], false, false)
    ensures FlagsOk(cache[o := e], below)
    ensures Overlay(cache[o := e], below) == Overlay(cache, below)
  {
  }

  // ---------------------------------------------------------------- the views

  datatype AddResult = Added | Unspendable | Threw

  class View {
    /** The view below, or null for the coin database. */
    const base: View?
    /** The database's own coins; empty in a cache. */
    var db: CoinMap
    var cacheCoins: Cache
    var cachedCoinsUsage: int
    ghost const Repr: set<View>

    ghost predicate Valid()
      reads this, Repr
      decreases Repr, 0
    {
      && this in Repr
      && (base == null ==> cacheCoins == map[] && Unspent(db))
      && (base != null ==>
            && base in Repr && base.Repr < Repr && this !in base.Repr
            && base.Valid()
            && FlagsOk(cacheCoins, base.Coins())
            && cachedCoinsUsage == Usage(cacheCoins))
    }

    /** The unspent coins seen through this view. */
    ghost function Coins(): (coins: CoinMap)
      requires Valid()
      reads this, Repr
      ensures Unspent(coins)
      decreases Repr, 1
    {
      if base == null then db
      else
        OverlayUnspent(cacheCoins, base.Coins());
        Overlay(cacheCoins, base.Coins())
    }

    /** The coin sets of the whole stack, the database first and this view last. */
    ghost function Layers(): (layers: seq<CoinMap>)
      requires Valid()
      reads this, Repr
      ensures |layers| >= 1 && layers[|layers| - 1] == Coins()
      decreases Repr
    {
      if base == null then [db] else base.Layers() + [Coins()]
    }

    constructor Database(coins: CoinMap)
      requires Unspent(coins)
      ensures Valid() && fresh(Repr) && base == null && Coins() == coins && Layers() == [coins]
    {
      base := null;
      db, cacheCoins, cachedCoinsUsage := coins, map[], 0;
      Repr := {this};
    }

    /** CCoinsViewCache::CCoinsViewCache */
    constructor OnTop(baseIn: View)
      requires baseIn.Valid()
      ensures Valid() && Repr == baseIn.Repr + {this} && base == baseIn
      ensures Layers() == baseIn.Layers() + [baseIn.Coins()]
    {
      base := baseIn;
      db, cacheCoins, cachedCoinsUsage := map[], map[], 0;
      Repr := baseIn.Repr + {this};
      new;
      OverlayNothing(baseIn.Coins());
    }

    /** CCoinsViewCache::FetchCoin: afterwards the entry is cached if the coin exists anywhere. */
    method FetchCoin(o: OutPoint) returns (found: bool)
      requires Valid() && base != null
      modifies Repr
      ensures Valid() && Layers() == old(Layers())
      ensures found <==> o in cacheCoins
      ensures found <==> o in old(cacheCoins) || o in old(base.Coins())
      ensures o in old(cacheCoins) ==> cacheCoins == old(cacheCoins)
      ensures o !in cacheCoins ==> cacheCoins == old(cacheCoins) && o !in Coins()
      ensures o in cacheCoins ==>
        (o in Coins() <==> !cacheCoins[o].coin.IsSpent()) && (o in Coins() ==> Coins()[o] == cacheCoins[o].coin)
      decreases Repr, 0
    {
      hide FlagsOk, Overlay, Usage, Agrees, EntryOk, Assign;
      OverlayAt(cacheCoins, base.Coins(), o);
      if o in cacheCoins {
        return true;
      }
      var ok, tmp := base.GetCoin(o);
      if !ok {
        return false;
      }
      ghost var below := base.Coins();
      var entry := Entry(tmp, false, false);
      if tmp.IsSpent() {
        entry := entry.(isFresh := true);
      }
      FetchKeeps(cacheCoins, below, o, entry);
      UsageUpdate(cacheCoins, o, entry);
      cacheCoins := cacheCoins[o := entry];
      cachedCoinsUsage := cachedCoinsUsage + tmp.DynamicMemoryUsage();
      OverlayAt(cacheCoins, below, o);
      return true;
    }

    /** GetCoin of the database and of a cache: true exactly for an unspent coin, which it returns. */
    method GetCoin(o: OutPoint) returns (ok: bool, coin: Coin)
      requires Valid()
      modifies Repr
      ensures Valid() && Layers() == old(Layers())
      ensures ok <==> o in old(Coins())
      ensures ok ==> coin == old(Coins())[o]
      decreases Repr, 1
    {
      coin := SPENT_COIN;
      if base == null {
        ok := o in db;
        if ok {
          coin := db[o];
        }
      } else {
        ok := FetchCoin(o);
        if ok {
          coin := cacheCoins[o].coin;
          ok := !coin.IsSpent();
        }
      }
    }

    /** CCoinsViewCache::HaveCoin */
    method HaveCoin(o: OutPoint) returns (r: bool)
      requires Valid() && base != null
      modifies Repr
      ensures Valid() && Layers() == old(Layers())
      ensures r <==> o in old(Coins())
    {
      hide FlagsOk, Overlay, Usage, Agrees, EntryOk;
      var found := FetchCoin(o);
      r := found && !cacheCoins[o].coin.IsSpent();
    }

    /** CCoinsViewCache::AccessCoin: the coin, or a spent one if there is none. */
    method AccessCoin(o: OutPoint) returns (coin: Coin)
      requires Valid() && base != null
      modifies Repr
      ensures Valid() && Layers() == old(Layers())
      ensures Agrees(coin, old(Coins()), o)
    {
      hide FlagsOk, Overlay, Usage, EntryOk;
      var found := FetchCoin(o);
      coin := if found then cacheCoins[o].coin else SPENT_COIN;
    }

    /** CCoinsViewCache::HaveCoinInCache: never a wrong yes, and no change anywhere. */
    method HaveCoinInCache(o: OutPoint) returns (r: bool)
      requires Valid() && base != null
      ensures r ==> o in Coins()
      ensures r <==> o in cacheCoins && o in Coins()
    {
      OverlayAt(cacheCoins, base.Coins(), o);
      hide FlagsOk, Overlay, Usage, Agrees, EntryOk;
      r := o in cacheCoins && !cacheCoins[o].coin.IsSpent();
    }

    /**
     CCoinsViewCache::AddCoin. The view stays valid exactly when the caller's promise holds where the code relies on
     it unseen: a caller that rules out overwriting must not do so for a coin that only a view below has.
     On the throwing path the entry stays but its memory is no longer counted.
    */
    method AddCoin(o: OutPoint, coin: Coin, possibleOverwrite: bool) returns (r: AddResult)
      requires Valid() && base != null && !coin.IsSpent()
      modifies this`cacheCoins, this`cachedCoinsUsage
      ensures r == if coin.IsUnspendable() then Unspendable
                   else if AddThrows(old(cacheCoins), o, possibleOverwrite) then Threw else Added
      ensures r == Added ==> cacheCoins == old(cacheCoins)[o := AddedEntry(old(cacheCoins), o, coin, possibleOverwrite)]
      ensures r == Added ==> (Valid() <==> possibleOverwrite || o in old(cacheCoins) || o !in old(Coins()))
      ensures r == Added && Valid() ==> Layers() == old(Layers())[|old(Layers())| - 1 := old(Coins())[o := coin]]
      ensures r == Unspendable ==> Valid() && Layers() == old(Layers())
      ensures r == Threw ==> o in cacheCoins && o in old(Coins()) && cacheCoins == old(cacheCoins)
      ensures r == Threw ==> cachedCoinsUsage == old(cachedCoinsUsage) - cacheCoins[o].coin.DynamicMemoryUsage()
    {
      hide FlagsOk, Overlay, Usage, Agrees, EntryOk, AddedEntry;
      ghost var below := base.Coins();
      OverlayAt(cacheCoins, below, o);
      if coin.IsUnspendable() {
        return Unspendable;
      }
      var inserted := o !in cacheCoins;
      var entry := Existing(cacheCoins, o);
      var isFresh := false;
      if !inserted {
        cachedCoinsUsage := cachedCoinsUsage - entry.coin.DynamicMemoryUsage();
      }
      if !possibleOverwrite {
        if !entry.coin.IsSpent() {
          return Threw;
        }
        isFresh := !entry.isDirty;
      }
      var entry' := Entry(coin, true, entry.isFresh || isFresh);
      AddKeepsFlags(cacheCoins, below, o, coin, possibleOverwrite);
      AddedIs(cacheCoins, o, coin, possibleOverwrite);
      OverlayUpdate(cacheCoins, below, o, entry');
      UsageUpdate(cacheCoins, o, entry');
      cacheCoins := cacheCoins[o := entry'];
      cachedCoinsUsage := cachedCoinsUsage + coin.DynamicMemoryUsage();
      return Added;
    }

    /** CCoinsViewCache::SpendCoin; it also returns true for a coin this cache knows to be spent. */
    method SpendCoin(o: OutPoint) returns (found: bool, moveout: Coin)
      requires Valid() && base != null
      modifies Repr
      ensures Valid()
      ensures Layers() == old(Layers())[|old(Layers())| - 1 := old(Coins()) - {o}]
      ensures found <==> o in old(cacheCoins) || o in old(base.Coins())
      ensures o in old(Coins()) ==> found && moveout == old(Coins())[o]
      ensures o !in old(Coins()) ==> moveout.IsSpent()
    {
      hide FlagsOk, Overlay, Usage, Agrees, EntryOk;
      moveout := SPENT_COIN;
      found := FetchCoin(o);
      if !found {
        assert Coins() - {o} == Coins();
        return;
      }
      moveout := cacheCoins[o].coin;
      MarkSpent(o);
    }

    /** The second half of SpendCoin, once the entry is cached. */
    method MarkSpent(o: OutPoint)
      requires Valid() && base != null && o in cacheCoins
      modifies this`cacheCoins, this`cachedCoinsUsage
      ensures Valid()
      ensures Layers() == old(Layers())[|old(Layers())| - 1 := old(Coins()) - {o}]
    {
      hide FlagsOk, Overlay, Usage, Agrees, EntryOk;
      SpendKeeps(cacheCoins, base.Coins(), o);
      var entry := cacheCoins[o];
      cachedCoinsUsage := cachedCoinsUsage - entry.coin.DynamicMemoryUsage();
      if entry.isFresh {
        UsageRemove(cacheCoins, o);
        cacheCoins := cacheCoins - {o};
      } else {
        UsageUpdate(cacheCoins, o, Entry(SPENT_COIN, true, false));
        cacheCoins := cacheCoins[o := entry.(isDirty := true, coin := SPENT_COIN)];
      }
    }

    /** CCoinsViewCache::Uncache: only an unmodified entry goes, and nothing changes to see. */
    method Uncache(o: OutPoint)
      requires Valid() && base != null
      modifies this`cacheCoins, this`cachedCoinsUsage
      ensures Valid() && Layers() == old(Layers())
      ensures cacheCoins == if o in old(cacheCoins) && !old(cacheCoins)[o].isDirty && !old(cacheCoins)[o].isFresh
                            then old(cacheCoins) - {o} else old(cacheCoins)
    {
      hide FlagsOk, Overlay, Usage, Agrees, EntryOk;
      if o in cacheCoins && !cacheCoins[o].isDirty && !cacheCoins[o].isFresh {
        UncacheKeeps(cacheCoins, base.Coins(), o);
        UsageRemove(cacheCoins, o);
        cachedCoinsUsage := cachedCoinsUsage - cacheCoins[o].coin.DynamicMemoryUsage();
        cacheCoins := cacheCoins - {o};
      }
    }

    /** One step of BatchWrite; the "FRESH flag misapplied" exception is never thrown. */
    method WriteOne(o: OutPoint, e: Entry)
      requires Valid() && base != null && EntryOk(e, Coins(), o)
      modifies this`cacheCoins, this`cachedCoinsUsage
      ensures Valid()
      ensures cacheCoins == WriteEntry(old(cacheCoins), o, e)
      ensures Layers() == old(Layers())[|old(Layers())| - 1 := Assign(old(Coins()), o, e.coin)]
    {
      hide FlagsOk, Overlay, Usage, Agrees, EntryOk, Assign;
      WriteEntryKeeps(cacheCoins, base.Coins(), o, e);
      if e.isDirty {
        if o !in cacheCoins {
          if !(e.isFresh && e.coin.IsSpent()) {
            var entry := Entry(e.coin, true, false);
            if e.isFresh {
              entry := entry.(isFresh := true);
            }
            UsageUpdate(cacheCoins, o, entry);
            cacheCoins := cacheCoins[o := entry];
            cachedCoinsUsage := cachedCoinsUsage + e.coin.DynamicMemoryUsage();
          }
        } else {
          if e.isFresh && !cacheCoins[o].coin.IsSpent() {
            assert false;
          }
          if cacheCoins[o].isFresh && e.coin.IsSpent() {
            UsageRemove(cacheCoins, o);
            cachedCoinsUsage := cachedCoinsUsage - cacheCoins[o].coin.DynamicMemoryUsage();
            cacheCoins := cacheCoins - {o};
          } else {
            var entry := cacheCoins[o].(coin := e.coin, isDirty := true);
            UsageUpdate(cacheCoins, o, entry);
            cachedCoinsUsage := cachedCoinsUsage - cacheCoins[o].coin.DynamicMemoryUsage();
            cacheCoins := cacheCoins[o := entry];
            cachedCoinsUsage := cachedCoinsUsage + e.coin.DynamicMemoryUsage();
          }
        }
      }
    }

    /** One step of the database's BatchWrite. */
    method WriteOneToDatabase(o: OutPoint, e: Entry)
      requires Valid() && base == null && EntryOk(e, Coins(), o)
      modifies this`db
      ensures Valid()
      ensures Layers() == [Assign(old(db), o, e.coin)]
    {
      assert !e.isDirty ==> Assign(db, o, e.coin) == db;
      if e.isDirty {
        db := if e.coin.IsSpent() then db - {o} else db[o := e.coin];
      }
    }

    /** BatchWrite of a cache and of the database: this view takes over what the child shows. */
    method BatchWrite(mapCoins: Cache)
      requires Valid() && FlagsOk(mapCoins, Coins())
      modifies this`db, this`cacheCoins, this`cachedCoinsUsage
      ensures Valid()
      ensures Layers() == old(Layers())[|old(Layers())| - 1 := Overlay(mapCoins, old(Coins()))]
    {
      hide FlagsOk, Overlay, Usage, Agrees, EntryOk, Assign, WriteEntry;
      var rest := mapCoins;
      while rest != map[]
        invariant Valid() && FlagsOk(rest, Coins())
        invariant Overlay(rest, Coins()) == Overlay(mapCoins, old(Coins()))
        invariant Layers() == old(Layers())[|old(Layers())| - 1 := Coins()]
        decreases |rest|
      {
        var o :| o in rest;
        FlagsPeel(rest, Coins(), o);
        OverlayPeel(rest, Coins(), o);
        if base == null {
          WriteOneToDatabase(o, rest[o]);
        } else {
          WriteOne(o, rest[o]);
        }
        rest := rest - {o};
      }
      OverlayNothing(Coins());
    }

    /** CCoinsViewCache::Flush: the view below now shows what this one shows, and nothing else moved. */
    method Flush()
      requires Valid() && base != null
      modifies Repr
      ensures Valid() && cacheCoins == map[] && cachedCoinsUsage == 0
      ensures Coins() == old(Coins())
      ensures base.Layers() == old(base.Layers())[|old(base.Layers())| - 1 := old(Coins())]
    {
      hide FlagsOk, Overlay, Usage, Agrees, EntryOk;
      ghost var coins := Coins();
      base.BatchWrite(cacheCoins);
      cacheCoins := map[];
      cachedCoinsUsage := 0;
      EmptyCache(base.Coins());
    }
  }

  lemma EmptyCache(below: CoinMap)
    ensures FlagsOk(map[], below) && Overlay(map[], below) == below && Usage(map[]) == 0
  {
  }

  lemma AddedIs(cache: Cache, o: OutPoint, coin: Coin, possibleOverwrite: bool)
    ensures var e := Existing(cache, o);
      AddedEntry(cache, o, coin, possibleOverwrite) ==
      Entry(coin, true, e.isFresh || (!possibleOverwrite && !e.isDirty))
  {
  }

  /** Spending: a FRESH entry is forgotten, any other is kept as spent and DIRTY. */
  lemma SpendKeeps(cache: Cache, below: CoinMap, o: OutPoint)
    requires FlagsOk(cache, below) && Unspent(below) && o in cache
    ensures var cache' := if cache[o].isFresh then cache - {o} else cache[o := Entry(SPENT_COIN, true, false)];
      FlagsOk(cache', below) && Overlay(cache', below) == Overlay(cache, below) - {o}
  {
  }

  lemma UncacheKeeps(cache: Cache, below: CoinMap, o: OutPoint)
    requires FlagsOk(cache, below) && Unspent(below) && o in cache && !cache[o].isDirty
    ensures FlagsOk(cache - {o}, below) && Overlay(cache - {o}, below) == Overlay(cache, below)
  {
  }

  // ---------------------------------------------------------------- whole runs refine a stack of maps

  /** What a client does with the top of the stack. Pop discards a cache without flushing it. */
  datatype Op =
    | Push
    | Pop
    | Read(o: OutPoint)
    | Put(o: OutPoint, coin: Coin, possibleOverwrite: bool)
    | Spend(o: OutPoint)
    | FlushTop
    | UncacheTop(o: OutPoint)

  type Stack = st: seq<CoinMap> | |st| >= 1 witness [map[]]

  function Top(st: Stack): CoinMap { st[|st| - 1] }

  function Lookup(coins: CoinMap, o: OutPoint): Option<Coin> {
    if o in coins then Some(coins[o]) else None
  }

  /** The promise of AddCoin's callers, and nothing but reads on the bare database. */
  predicate Legal(st: Stack, op: Op) {
    && (op.Push? || op.Read? || |st| >= 2)
    && (op.Put? ==> !op.coin.IsSpent() && (op.possibleOverwrite || op.o !in Top(st)))
  }

  function Step(st: Stack, op: Op): Stack
    requires Legal(st, op)
  {
    match op
    case Push => st + [Top(st)]
    case Pop => st[..|st| - 1]
    case Read(_) => st
    case Put(o, coin, _) => if coin.IsUnspendable() then st else st[|st| - 1 := Top(st)[o := coin]]
    case Spend(o) => st[|st| - 1 := Top(st) - {o}]
    case FlushTop => st[|st| - 2 := Top(st)]
    case UncacheTop(_) => st
  }

  predicate LegalRun(st: Stack, ops: seq<Op>)
    decreases |ops|
  {
    ops == [] || (Legal(st, ops[0]) && LegalRun(Step(st, ops[0]), ops[1..]))
  }

  function After(st: Stack, ops: seq<Op>): Stack
    requires LegalRun(st, ops)
    decreases |ops|
  {
    if ops == [] then st else After(Step(st, ops[0]), ops[1..])
  }

  /** What the reads of a run return. */
  function Reads(st: Stack, ops: seq<Op>): seq<Option<Coin>>
    requires LegalRun(st, ops)
    decreases |ops|
  {
    if ops == [] then []
    else (if ops[0].Read? then [Lookup(Top(st), ops[0].o)] else []) + Reads(Step(st, ops[0]), ops[1..])
  }

  method Perform(top: View, op: Op) returns (top': View, read: Option<Coin>)
    requires top.Valid() && Legal(top.Layers(), op)
    modifies top.Repr
    ensures top'.Valid() && top'.Layers() == Step(old(top.Layers()), op)
    ensures top'.Repr <= top.Repr || fresh(top'.Repr - top.Repr)
    ensures op.Read? ==> read == Lookup(old(top.Coins()), op.o)
  {
    hide FlagsOk, Overlay, Usage, Agrees, EntryOk;
    top', read := top, None;
    if op.Push? {
      top' := new View.OnTop(top);
    } else if op.Pop? {
      top' := top.base;
    } else if op.Read? {
      var ok, coin := top.GetCoin(op.o);
      read := if ok then Some(coin) else None;
    } else if op.Put? {
      var _ := top.AddCoin(op.o, op.coin, op.possibleOverwrite);
    } else if op.Spend? {
      var _, _ := top.SpendCoin(op.o);
    } else if op.FlushTop? {
      top.Flush();
    } else {
      top.Uncache(op.o);
    }
  }

  /**
   Every legal run of pushes, pops, reads, additions, spends, flushes and uncachings shows, at every
   layer and in every read, exactly what the same run on a stack of plain maps shows.
  */
  method RunStack(coins: CoinMap, ops: seq<Op>) returns (top: View, shown: seq<Option<Coin>>)
    requires Unspent(coins) && LegalRun([coins], ops)
    ensures fresh(top.Repr) && top.Valid()
    ensures top.Layers() == After([coins], ops)
    ensures shown == Reads([coins], ops)
  {
    hide FlagsOk, Overlay, Usage, Agrees, EntryOk, Legal, Step;
    top := new View.Database(coins);
    shown := [];
    for n := 0 to |ops|
      invariant fresh(top.Repr) && top.Valid()
      invariant LegalRun(top.Layers(), ops[n..])
      invariant After(top.Layers(), ops[n..]) == After([coins], ops)
      invariant shown + Reads(top.Layers(), ops[n..]) == Reads([coins], ops)
    {
      assert ops[n..][0] == ops[n] && ops[n..][1..] == ops[n + 1..];
      var read;
      top, read := Perform(top, ops[n]);
      if ops[n].Read? {
        shown := shown + [read];
      }
    }
  }
}
