/**
 CDBTransaction and CDBTransactionIterator of src/dbwrapper.h: uncommitted writes and deletes laid over a
 parent, which is the database or another transaction, and a merging iterator over the result.
*/
module DBTransaction {
  import opened ByteOrder

  /** A value with the C++ type it was written as and its serialization. */
  datatype Value = Value(kind: nat, bytes: seq<Byte>)

  type Content = map<Key, Value>

  /** What Read reports; it throws when the value was written under another type. */
  datatype ReadResult = Missing | Found(value: Value) | WrongType

  /** The uncommitted part of a transaction. */
  datatype State = State(writes: Content, deletes: set<Key>, memoryUsage: int)

  /** The content seen through a transaction. */
  function Over(s: State, below: Content): Content {
    (below - s.deletes) + s.writes
  }

  // ---------------------------------------------------------------- accounting

  ghost function Total(charges: map<Key, nat>): nat {
    if charges == map[] then 0
    else
      var k :| k in charges;
      charges[k] + Total(charges - {k})
  }

  lemma {:induction false} TotalRemove(charges: map<Key, nat>, k: Key)
    requires k in charges
    ensures Total(charges) == charges[k] + Total(charges - {k})
    decreases |charges|
  {
    var j :| j in charges && Total(charges) == charges[j] + Total(charges - {j});
    if j != k {
      TotalRemove(charges - {j}, k);
      TotalRemove(charges - {k}, j);
      assert charges - {j} - {k} == charges - {k} - {j};
    }
  }

  lemma TotalUpdate(charges: map<Key, nat>, k: Key, n: nat)
    ensures Total(charges[k := n]) == Total(charges) - (if k in charges then charges[k] else 0) + n
  {
    TotalRemove(charges[k := n], k);
    assert charges[k := n] - {k} == charges - {k};
    if k in charges {
      TotalRemove(charges, k);
    } else {
      assert charges - {k} == charges;
    }
  }

  /** What each uncommitted key weighs: its own size, and the value's when it is written. */
  ghost function Charges(s: State): map<Key, nat> {
    map k | k in s.writes.Keys + s.deletes :: |k| + if k in s.writes then |s.writes[k].bytes| else 0
  }

  ghost predicate Balanced(s: State) {
    s.writes.Keys !! s.deletes && s.memoryUsage == Total(Charges(s))
  }

  // ---------------------------------------------------------------- what the operations do to the state

  /** Write. */
  function Written(s: State, k: Key, v: Value): State {
    State(s.writes[k := v], s.deletes - {k},
          s.memoryUsage
          - (if k in s.deletes then |k| else 0)
          - (if k in s.writes then |k| + |s.writes[k].bytes| else 0)
          + |k| + |v.bytes|)
  }

  /** Erase. */
  function Erased(s: State, k: Key): State {
    State(s.writes - {k}, s.deletes + {k},
          s.memoryUsage
          - (if k in s.writes then |k| + |s.writes[k].bytes| else 0)
          + (if k in s.deletes then 0 else |k|))
  }

  lemma WriteBalanced(s: State, k: Key, v: Value)
    requires Balanced(s)
    ensures Balanced(Written(s, k, v))
  {
    hide Total;
    assert Charges(Written(s, k, v)) == Charges(s)[k := |k| + |v.bytes|];
    TotalUpdate(Charges(s), k, |k| + |v.bytes|);
  }

  lemma EraseBalanced(s: State, k: Key)
    requires Balanced(s)
    ensures Balanced(Erased(s, k))
  {
    hide Total;
    assert Charges(Erased(s, k)) == Charges(s)[k := |k|];
    TotalUpdate(Charges(s), k, |k|);
  }

  lemma WriteOver(s: State, below: Content, k: Key, v: Value)
    ensures Over(Written(s, k, v), below) == Over(s, below)[k := v]
  {
  }

  lemma EraseOver(s: State, below: Content, k: Key)
    ensures Over(Erased(s, k), below) == Over(s, below) - {k}
  {
  }

  lemma NothingOver(below: Content)
    ensures Over(State(map[], {}, 0), below) == below && Balanced(State(map[], {}, 0))
  {
  }

  // ---------------------------------------------------------------- the layers

  class Layer {
    /** The parent and commit target, or null for the database itself. */
    const parent: Layer?
    /** The database's own content; unused in a transaction. */
    var stored: Content
    var writes: Content
    var deletes: set<Key>
    var memoryUsage: int
    ghost const Repr: set<Layer>

    ghost function Now(): State
      reads this
    {
      State(writes, deletes, memoryUsage)
    }

    ghost predicate Valid()
      reads this, Repr
      decreases Repr, 0
    {
      && this in Repr
      && (parent != null ==>
            && parent in Repr && parent.Repr < Repr && this !in parent.Repr
            && parent.Valid() && Balanced(Now()))
    }

    ghost function Contents(): Content
      requires Valid()
      reads this, Repr
      decreases Repr, 1
    {
      if parent == null then stored else Over(Now(), parent.Contents())
    }

    /** The value seen for the key is an uncommitted write of this transaction or one below. */
    ghost predicate Uncommitted(k: Key)
      requires Valid()
      reads this, Repr
      ensures Uncommitted(k) ==> k in Contents()
      decreases Repr
    {
      parent != null && (k in writes || (k !in deletes && parent.Uncommitted(k)))
    }

    constructor Database(content: Content)
      ensures Valid() && fresh(Repr) && parent == null && Contents() == content
    {
      parent := null;
      stored, writes, deletes, memoryUsage := content, map[], {}, 0;
      Repr := {this};
    }

    constructor Begin(target: Layer)
      requires target.Valid()
      ensures Valid() && parent == target && Repr == target.Repr + {this} && Contents() == target.Contents()
    {
      parent := target;
      stored, writes, deletes, memoryUsage := map[], map[], {}, 0;
      Repr := target.Repr + {this};
      new;
      NothingOver(target.Contents());
    }

    method Write(k: Key, v: Value)
      requires Valid()
      modifies this
      ensures Valid() && Contents() == old(Contents())[k := v]
      ensures parent != null ==> Now() == Written(old(Now()), k, v)
    {
      hide Balanced, Over;
      if parent == null {
        stored := stored[k := v];
      } else {
        WriteBalanced(Now(), k, v);
        WriteOver(Now(), parent.Contents(), k, v);
        if k in deletes {
          memoryUsage := memoryUsage - |k|;
        }
        deletes := deletes - {k};
        if k in writes {
          memoryUsage := memoryUsage - (|k| + |writes[k].bytes|);
        }
        writes := writes[k := v];
        memoryUsage := memoryUsage + (|k| + |v.bytes|);
      }
    }

    method Erase(k: Key)
      requires Valid()
      modifies this
      ensures Valid() && Contents() == old(Contents()) - {k}
      ensures parent != null ==> Now() == Erased(old(Now()), k)
    {
      hide Balanced, Over;
      if parent == null {
        stored := stored - {k};
      } else {
        EraseBalanced(Now(), k);
        EraseOver(Now(), parent.Contents(), k);
        assert k in deletes ==> deletes + {k} == deletes;
        if k in writes {
          memoryUsage := memoryUsage - (|k| + |writes[k].bytes|);
        }
        writes := writes - {k};
        if k !in deletes {
          deletes := deletes + {k};
          memoryUsage := memoryUsage + |k|;
        }
      }
    }

    method Read(k: Key, kind: nat) returns (r: ReadResult)
      requires Valid()
      ensures r == Missing <==> k !in Contents()
      ensures k in Contents() ==> Reads(r, Contents()[k], kind)
      ensures r == WrongType <==> Uncommitted(k) && Contents()[k].kind != kind
      decreases Repr
    {
      if parent == null {
        return if k in stored then Found(stored[k]) else Missing;
      }
      if k in deletes {
        return Missing;
      }
      if k in writes {
        return if writes[k].kind == kind then Found(writes[k]) else WrongType;
      }
      r := parent.Read(k, kind);
    }

    method Exists(k: Key) returns (r: bool)
      requires Valid()
      ensures r <==> k in Contents()
      decreases Repr
    {
      if parent == null {
        return k in stored;
      }
      if k in deletes {
        return false;
      }
      if k in writes {
        return true;
      }
      r := parent.Exists(k);
    }

    /** Clear, which is also the rollback of a scoped transaction. */
    method Clear()
      requires Valid() && parent != null
      modifies this`writes, this`deletes, this`memoryUsage
      ensures Valid() && Now() == State(map[], {}, 0) && Contents() == old(parent.Contents())
    {
      NothingOver(parent.Contents());
      writes, deletes, memoryUsage := map[], {}, 0;
    }

    /** Commit: the parent takes over what was seen through this transaction, and nothing is left to commit. */
    method Commit()
      requires Valid() && parent != null
      modifies this, parent
      ensures Valid() && Now() == State(map[], {}, 0)
      ensures parent.Contents() == Contents() == old(Contents())
    {
      CommitDeletes();
      CommitWrites();
      Clear();
    }

    method CommitDeletes()
      requires Valid() && parent != null
      modifies parent
      ensures Valid() && parent.Contents() == old(parent.Contents()) - deletes
    {
      hide Balanced, Over;
      var rest := deletes;
      ghost var below := parent.Contents();
      assert below - {} == below;
      while rest != {}
        invariant Valid() && rest <= deletes && parent.Contents() == below - (deletes - rest)
        decreases rest
      {
        var k :| k in rest;
        parent.Erase(k);
        rest := rest - {k};
        Fewer(below, deletes, rest, k);
      }
      assert deletes - {} == deletes;
    }

    method CommitWrites()
      requires Valid() && parent != null
      modifies parent
      ensures Valid() && parent.Contents() == old(parent.Contents()) + writes
    {
      hide Balanced, Over;
      var rest := writes.Keys;
      ghost var below := parent.Contents();
      assert below + (writes - rest) == below;
      while rest != {}
        invariant Valid() && rest <= writes.Keys && parent.Contents() == below + (writes - rest)
        decreases rest
      {
        var k :| k in rest;
        parent.Write(k, writes[k]);
        rest := rest - {k};
      }
      assert writes - {} == writes;
    }
  }

  // ---------------------------------------------------------------- the batch of a root transaction

  datatype BatchOp = Put(key: Key, value: Value) | Del(key: Key)

  function ApplyOne(content: Content, op: BatchOp): Content {
    match op
    case Put(k, v) => content[k := v]
    case Del(k) => content - {k}
  }

  /** What the database makes of a batch: its operations one after the other. */
  function Apply(content: Content, ops: seq<BatchOp>): Content {
    if ops == [] then content else ApplyOne(Apply(content, ops[..|ops| - 1]), ops[|ops| - 1])
  }

  lemma ApplyMore(content: Content, ops: seq<BatchOp>, op: BatchOp)
    ensures Apply(content, ops + [op]) == ApplyOne(Apply(content, ops), op)
  {
    assert (ops + [op])[..|ops|] == ops;
  }

  /** CDBBatch */
  class Batch {
    var ops: seq<BatchOp>

    constructor ()
      ensures ops == []
    {
      ops := [];
    }

    method Write(k: Key, v: Value)
      modifies this
      ensures ops == old(ops) + [Put(k, v)]
    {
      ops := ops + [Put(k, v)];
    }

    method Erase(k: Key)
      modifies this
      ensures ops == old(ops) + [Del(k)]
    {
      ops := ops + [Del(k)];
    }
  }

  /**
   Commit of a transaction whose commit target is a batch: on any content the batch then has the transaction's
   effect.
  */
  method CommitToBatch(tx: Layer, batch: Batch, ghost below: Content)
    requires tx.Valid() && tx.parent != null
    modifies tx, batch
    ensures tx.Valid() && tx.Now() == State(map[], {}, 0) && tx.Contents() == old(tx.parent.Contents())
    ensures Apply(below, batch.ops) == Over(old(tx.Now()), Apply(below, old(batch.ops)))
  {
    hide Balanced, Apply;
    ghost var before := Apply(below, batch.ops);
    var rest := tx.deletes;
    assert before - {} == before;
    while rest != {}
      invariant rest <= tx.deletes && Apply(below, batch.ops) == before - (tx.deletes - rest)
      modifies batch
      decreases rest
    {
      var k :| k in rest;
      ApplyMore(below, batch.ops, Del(k));
      batch.Erase(k);
      rest := rest - {k};
      Fewer(before, tx.deletes, rest, k);
    }
    assert tx.deletes - {} == tx.deletes;
    ghost var erased := before - tx.deletes;
    rest := tx.writes.Keys;
    assert erased + (tx.writes - rest) == erased;
    while rest != {}
      invariant rest <= tx.writes.Keys && Apply(below, batch.ops) == erased + (tx.writes - rest)
      modifies batch
      decreases rest
    {
      var k :| k in rest;
      ApplyMore(below, batch.ops, Put(k, tx.writes[k]));
      batch.Write(k, tx.writes[k]);
      rest := rest - {k};
    }
    assert tx.writes - {} == tx.writes;
    tx.Clear();
  }

  /** CEvoDB::CommitRootTransaction: the batch is written to the database below and emptied. */
  method CommitRoot(tx: Layer, batch: Batch)
    requires tx.Valid() && tx.parent != null && tx.parent.parent == null && batch.ops == []
    modifies tx, tx.parent, batch
    ensures tx.Valid() && tx.Now() == State(map[], {}, 0) && batch.ops == []
    ensures tx.parent.Contents() == tx.Contents() == old(tx.Contents())
  {
    hide Balanced;
    var db := tx.parent;
    ghost var below := db.stored;
    CommitToBatch(tx, batch, below);
    NothingOver(below);
    var written := batch.ops;
    for i := 0 to |written|
      invariant db.stored == Apply(below, written[..i]) && db.Valid() && tx.Valid()
      invariant tx.Now() == State(map[], {}, 0) && batch.ops == written
    {
      assert written[..i + 1][..i] == written[..i];
      db.stored := ApplyOne(db.stored, written[i]);
    }
    assert written[..|written|] == written;
    batch.ops := [];
    NothingOver(db.stored);
  }

  lemma Fewer(below: Content, deletes: set<Key>, rest: set<Key>, k: Key)
    requires k in deletes && k !in rest
    ensures below - (deletes - (rest + {k})) - {k} == below - (deletes - rest)
  {
  }

  // ---------------------------------------------------------------- the iterator

  /** The parent's keys that the transaction neither deletes nor overwrites. */
  ghost function Live(keys: seq<Key>, hidden: set<Key>): seq<Key> {
    if keys == [] then []
    else if keys[0] in hidden then Live(keys[1..], hidden)
    else [keys[0]] + Live(keys[1..], hidden)
  }

  lemma {:induction false} LiveElements(keys: seq<Key>, hidden: set<Key>)
    ensures Elements(Live(keys, hidden)) == Elements(keys) - hidden
  {
    if keys != [] {
      LiveElements(keys[1..], hidden);
      ElementsParts(keys);
      ElementsCons(keys[0], Live(keys[1..], hidden));
    }
  }

  lemma {:induction false} LiveSorted(keys: seq<Key>, hidden: set<Key>)
    requires Sorted(keys)
    ensures Sorted(Live(keys, hidden))
  {
    hide Sorted, Elements, Less;
    if keys == [] {
      assert Sorted(keys);
    } else {
      SortedTail(keys);
      LiveSorted(keys[1..], hidden);
      LiveElements(keys[1..], hidden);
      SortedCons(keys[0], Live(keys[1..], hidden));
    }
  }

  /** What a seek leaves to visit: the transaction's keys and the live keys of the parent, each from its lower bound. */
  lemma MergedKeys(tkeys: seq<Key>, pkeys: seq<Key>, s: State, below: Content, from: Key)
    requires Sorted(tkeys) && Sorted(pkeys) && Elements(tkeys) == s.writes.Keys && Elements(pkeys) == below.Keys
    ensures var m := Merge(tkeys[LowerBound(tkeys, from)..],
                           Live(pkeys[LowerBound(pkeys, from)..], s.deletes + s.writes.Keys));
      Sorted(m) && Elements(m) == set k | k in Over(s, below) && !Less(k, from)
  {
    hide Less, Sorted, LowerBound, Live;
    var (t, p) := (tkeys[LowerBound(tkeys, from)..], pkeys[LowerBound(pkeys, from)..]);
    var hidden := s.deletes + s.writes.Keys;
    LowerBoundRest(tkeys, from);
    LowerBoundRest(pkeys, from);
    LiveElements(p, hidden);
    LiveSorted(p, hidden);
    forall k ensures k in Elements(t) <==> k in s.writes && !Less(k, from) {
      assert k in Elements(tkeys) <==> k in s.writes.Keys;
    }
    forall k ensures k in Elements(p) <==> k in below && !Less(k, from) {
      assert k in Elements(pkeys) <==> k in below.Keys;
    }
    MergeElements(t, Live(p, hidden));
    MergeSorted(t, Live(p, hidden));
  }

  /** No key is before the empty one, so seeking it is seeking the first. */
  lemma FirstIsLowest(s: seq<Key>)
    ensures LowerBound(s, []) == 0
  {
  }

  class TransactionIterator {
    const tx: Layer
    /** The keys of writes and of the parent, in the order std::map and the parent's own iterator visit them. */
    const transactionKeys: seq<Key>
    const parentKeys: seq<Key>
    var transactionIt: nat
    var parentIt: nat
    var parentKey: Key
    var curIsParent: bool

    ghost function Hidden(): set<Key>
      reads tx
    {
      tx.deletes + tx.writes.Keys
    }

    ghost predicate Snapshot()
      reads this, tx, tx.Repr
    {
      && tx.Valid() && tx.parent != null
      && Sorted(transactionKeys) && Elements(transactionKeys) == tx.writes.Keys
      && Sorted(parentKeys) && Elements(parentKeys) == tx.parent.Contents().Keys
      && transactionIt <= |transactionKeys| && parentIt <= |parentKeys|
    }

    /** The parent's iterator stands on a live key. */
    ghost predicate Settled()
      reads this, tx
    {
      parentIt < |parentKeys| ==> parentKey == parentKeys[parentIt] && parentKey !in Hidden()
    }

    ghost predicate Decided()
      reads this
    {
      && (transactionIt < |transactionKeys| && parentIt >= |parentKeys| ==> !curIsParent)
      && (transactionIt >= |transactionKeys| && parentIt < |parentKeys| ==> curIsParent)
      && (transactionIt < |transactionKeys| && parentIt < |parentKeys| ==>
            (curIsParent <==> !Less(transactionKeys[transactionIt], parentKey)))
    }

    ghost predicate Valid()
      reads this, tx, tx.Repr
    {
      Snapshot() && Settled() && Decided()
    }

    /** The keys still to visit, the current one first. */
    ghost function Remaining(): seq<Key>
      requires transactionIt <= |transactionKeys| && parentIt <= |parentKeys|
      reads this, tx
    {
      Merge(transactionKeys[transactionIt..], Live(parentKeys[parentIt..], Hidden()))
    }

    constructor (transaction: Layer, transactionKeys: seq<Key>, parentKeys: seq<Key>)
      requires transaction.Valid() && transaction.parent != null
      requires Sorted(transactionKeys) && Elements(transactionKeys) == transaction.writes.Keys
      requires Sorted(parentKeys) && Elements(parentKeys) == transaction.parent.Contents().Keys
      ensures Valid() && tx == transaction && Remaining() == []
    {
      tx := transaction;
      this.transactionKeys := transactionKeys;
      this.parentKeys := parentKeys;
      transactionIt, parentIt := |transactionKeys|, |parentKeys|;
      parentKey, curIsParent := [], false;
    }

    method SkipDeletedAndOverwritten()
      requires Snapshot()
      modifies this`parentIt, this`parentKey
      ensures Snapshot() && Settled() && Remaining() == old(Remaining())
    {
      hide Merge, Sorted, Elements;
      while parentIt < |parentKeys|
        invariant Snapshot()
        invariant Live(parentKeys[parentIt..], Hidden()) == old(Live(parentKeys[parentIt..], Hidden()))
      {
        parentKey := parentKeys[parentIt];
        if parentKey !in tx.deletes && parentKey !in tx.writes {
          break;
        }
        assert parentKeys[parentIt..][1..] == parentKeys[parentIt + 1..];
        parentIt := parentIt + 1;
      }
    }

    method DecideCur()
      modifies this`curIsParent
      ensures Decided()
    {
      if transactionIt < |transactionKeys| && !(parentIt < |parentKeys|) {
        curIsParent := false;
      } else if transactionIt >= |transactionKeys| && parentIt < |parentKeys| {
        curIsParent := true;
      } else if transactionIt < |transactionKeys| && parentIt < |parentKeys| {
        curIsParent := !Less(transactionKeys[transactionIt], parentKey);
      }
    }

    /** Every key of the overlaid content from the given one on, once each, in byte order. */
    method Seek(key: Key)
      requires Valid()
      modifies this
      ensures Valid() && Sorted(Remaining())
      ensures Elements(Remaining()) == set k | k in tx.Contents() && !Less(k, key)
    {
      hide Merge, Sorted, Elements, Live;
      MergedKeys(transactionKeys, parentKeys, tx.Now(), tx.parent.Contents(), key);
      transactionIt := LowerBound(transactionKeys, key);
      parentIt := LowerBound(parentKeys, key);
      SkipDeletedAndOverwritten();
      DecideCur();
    }

    method SeekToFirst()
      requires Valid()
      modifies this
      ensures Valid() && Sorted(Remaining()) && Elements(Remaining()) == tx.Contents().Keys
    {
      hide Merge, Sorted, Elements, Live;
      MergedKeys(transactionKeys, parentKeys, tx.Now(), tx.parent.Contents(), []);
      FirstIsLowest(transactionKeys);
      FirstIsLowest(parentKeys);
      transactionIt, parentIt := 0, 0;
      SkipDeletedAndOverwritten();
      DecideCur();
    }

    /** Valid() of the source. */
    predicate HasKey()
      reads this
    {
      transactionIt < |transactionKeys| || parentIt < |parentKeys|
    }

    /** The current key is the first of those remaining. */
    lemma Heads()
      requires Valid()
      ensures HasKey() <==> Remaining() != []
      ensures HasKey() && curIsParent ==> parentIt < |parentKeys| && Remaining()[0] == parentKey
      ensures HasKey() && !curIsParent ==>
        transactionIt < |transactionKeys| && Remaining()[0] == transactionKeys[transactionIt]
    {
    }

    method Next()
      requires Valid()
      modifies this
      ensures Valid() && Remaining() == if old(Remaining()) == [] then [] else old(Remaining())[1..]
    {
      hide Sorted, Elements, Less;
      if !HasKey() {
        return;
      }
      if curIsParent {
        assert parentIt < |parentKeys|;
        assert parentKeys[parentIt..][1..] == parentKeys[parentIt + 1..];
        parentIt := parentIt + 1;
        SkipDeletedAndOverwritten();
      } else {
        assert transactionIt < |transactionKeys|;
        assert transactionKeys[transactionIt..][1..] == transactionKeys[transactionIt + 1..];
        transactionIt := transactionIt + 1;
      }
      DecideCur();
    }

    method GetKey() returns (key: Key)
      requires Valid()
      ensures key == if HasKey() then Remaining()[0] else []
    {
      Heads();
      if !HasKey() {
        return [];
      }
      return if curIsParent then parentKey else transactionKeys[transactionIt];
    }

    method GetValue(kind: nat) returns (r: ReadResult)
      requires Valid()
      ensures !HasKey() ==> r == Missing
      ensures HasKey() && Remaining()[0] in tx.Contents() ==> Reads(r, tx.Contents()[Remaining()[0]], kind)
    {
      Heads();
      if !HasKey() {
        return Missing;
      }
      if curIsParent {
        r := tx.Read(parentKey, kind);
      } else {
        r := tx.Read(transactionKeys[transactionIt], kind);
      }
    }
  }

  /**
   What a transaction's iterator has left after a seek is what the model takes the parent's iterator to have
   left, so a transaction can be the parent of another.
  */
  lemma Stacks(parentKeys: seq<Key>, content: Content, from: Key, remaining: seq<Key>)
    requires Sorted(parentKeys) && Elements(parentKeys) == content.Keys
    requires Sorted(remaining) && Elements(remaining) == set k | k in content && !Less(k, from)
    ensures remaining == parentKeys[LowerBound(parentKeys, from)..]
  {
    hide Sorted, Less, LowerBound;
    LowerBoundRest(parentKeys, from);
    forall k ensures k in parentKeys <==> k in content {
      assert k in Elements(parentKeys) <==> k in content.Keys;
    }
    SortedUnique(remaining, parentKeys[LowerBound(parentKeys, from)..]);
  }

  /** A whole iteration from a key on, reading every value as the given type. */
  method Collect(it: TransactionIterator, from: Key, kind: nat) returns (keys: seq<Key>, values: seq<ReadResult>)
    requires it.Valid()
    modifies it
    ensures Sorted(keys) && it.tx.Valid()
    ensures Elements(keys) == set k | k in it.tx.Contents() && !Less(k, from)
    ensures AllRead(keys, values, it.tx.Contents(), kind)
  {
    hide Sorted, Elements, Less, Merge, Live, Over, Balanced, Reads, AllRead;
    hide TransactionIterator.Settled, TransactionIterator.Decided;
    it.Seek(from);
    ghost var all, content := it.Remaining(), it.tx.Contents();
    forall k | k in all ensures k in content {
      assert k in Elements(all) by { ElementOf(all, k); }
    }
    keys, values := [], [];
    NoneRead(content, kind);
    it.Heads();
    while it.HasKey()
      invariant it.Valid() && it.tx.Contents() == content && keys + it.Remaining() == all
      invariant it.HasKey() <==> it.Remaining() != []
      invariant AllRead(keys, values, content, kind)
      decreases |it.Remaining()|
    {
      var key := it.GetKey();
      MoveOn(keys, it.Remaining(), all);
      var value := it.GetValue(kind);
      OneMoreRead(keys, values, content, kind, key, value);
      keys, values := keys + [key], values + [value];
      it.Next();
      it.Heads();
    }
    assert keys == all;
  }

  lemma MoveOn(done: seq<Key>, rest: seq<Key>, all: seq<Key>)
    requires done + rest == all && rest != []
    ensures done + [rest[0]] + rest[1..] == all && rest[0] in all
  {
  }

  /** Read finds the stored value if it has the type asked for, and never another value. */
  ghost predicate Reads(r: ReadResult, v: Value, kind: nat) {
    (r.Found? ==> r.value == v) && (v.kind == kind ==> r.Found?) && r != Missing
  }

  ghost predicate AllRead(keys: seq<Key>, values: seq<ReadResult>, content: Content, kind: nat) {
    |values| == |keys| && forall i | 0 <= i < |keys| :: keys[i] in content && Reads(values[i], content[keys[i]], kind)
  }

  lemma NoneRead(content: Content, kind: nat)
    ensures AllRead([], [], content, kind)
  {
  }

  lemma OneMoreRead(keys: seq<Key>, values: seq<ReadResult>, content: Content, kind: nat, key: Key, value: ReadResult)
    requires AllRead(keys, values, content, kind) && key in content && Reads(value, content[key], kind)
    ensures AllRead(keys + [key], values + [value], content, kind)
  {
  }

  lemma ElementOf(s: seq<Key>, k: Key)
    ensures k in s <==> k in Elements(s)
  {
  }
}
