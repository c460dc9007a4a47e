/** Byte strings in the order of std::lexicographical_compare, and lists sorted in it. */
module ByteOrder {

  type Byte = x: nat | x < 256
  type Key = seq<Byte>

  predicate Less(a: Key, b: Key) {
    if b == [] then false
    else if a == [] then true
    else if a[0] != b[0] then a[0] < b[0]
    else Less(a[1..], b[1..])
  }

  /** The keys agree up to i, where a ends first or has the smaller byte. */
  ghost predicate DecidedAt(a: Key, b: Key, i: nat) {
    i <= |a| && i < |b| && a[..i] == b[..i] && (i == |a| || a[i] < b[i])
  }

  lemma {:induction false} LessDecides(a: Key, b: Key) returns (i: nat)
    requires Less(a, b)
    ensures DecidedAt(a, b, i)
  {
    i := 0;
    if a != [] && a[0] == b[0] {
      var j := LessDecides(a[1..], b[1..]);
      assert a[..j + 1] == [a[0]] + a[1..][..j] && b[..j + 1] == [b[0]] + b[1..][..j];
      i := j + 1;
    }
  }

  lemma {:induction false} DecidedLess(a: Key, b: Key, i: nat)
    requires DecidedAt(a, b, i)
    ensures Less(a, b)
  {
    if i > 0 {
      assert a[0] == a[..i][0] == b[..i][0] == b[0];
      assert a[1..][..i - 1] == a[..i][1..] && b[1..][..i - 1] == b[..i][1..];
      DecidedLess(a[1..], b[1..], i - 1);
    }
  }

  /** The first byte in which they differ decides, and a proper prefix comes first. */
  lemma LessMeans(a: Key, b: Key)
    ensures Less(a, b) <==> exists i: nat :: DecidedAt(a, b, i)
  {
    if Less(a, b) {
      var i := LessDecides(a, b);
    }
    forall i: nat | DecidedAt(a, b, i) ensures Less(a, b) {
      DecidedLess(a, b, i);
    }
  }

  // ---------------------------------------------------------------- a strict total order

  lemma {:induction false} LessIrreflexive(a: Key)
    ensures !Less(a, a)
  {
    if a != [] {
      LessIrreflexive(a[1..]);
    }
  }

  lemma {:induction false} LessTransitive(a: Key, b: Key, c: Key)
    requires Less(a, b) && Less(b, c)
    ensures Less(a, c)
  {
    if a != [] && a[0] == b[0] == c[0] {
      LessTransitive(a[1..], b[1..], c[1..]);
    }
  }

  lemma {:induction false} LessTotal(a: Key, b: Key)
    ensures a == b || Less(a, b) || Less(b, a)
  {
    if a != [] && b != [] && a[0] == b[0] {
      LessTotal(a[1..], b[1..]);
      if a[1..] == b[1..] {
        assert a == [a[0]] + a[1..] == [b[0]] + b[1..] == b;
      }
    }
  }

  /** At most one of the two directions. */
  lemma LessOneWay(a: Key, b: Key)
    requires Less(a, b)
    ensures !Less(b, a)
  {
  }

  // ---------------------------------------------------------------- sorted lists

  /** Strictly ascending, so without repetition. */
  ghost predicate Sorted(s: seq<Key>) {
    forall i, j | 0 <= i < j < |s| :: Less(s[i], s[j])
  }

  ghost function Elements(s: seq<Key>): set<Key> {
    set k | k in s
  }

  lemma ElementsCons(x: Key, s: seq<Key>)
    ensures Elements([x] + s) == {x} + Elements(s)
  {
  }

  lemma ElementsParts(s: seq<Key>)
    requires s != []
    ensures Elements(s) == {s[0]} + Elements(s[1..])
  {
  }

  lemma SortedTail(s: seq<Key>)
    requires Sorted(s) && s != []
    ensures Sorted(s[1..]) && s[0] !in Elements(s[1..])
    ensures forall k | k in Elements(s[1..]) :: Less(s[0], k)
  {
    hide Less;
    forall i, j | 0 <= i < j < |s[1..]| ensures Less(s[1..][i], s[1..][j]) {
      assert Less(s[i + 1], s[j + 1]);
    }
    forall k | k in Elements(s[1..]) ensures Less(s[0], k) {
      var i :| 0 <= i < |s[1..]| && s[1..][i] == k;
      assert Less(s[0], s[i + 1]);
    }
    LessIrreflexive(s[0]);
  }

  lemma SortedCons(x: Key, s: seq<Key>)
    requires Sorted(s) && forall k | k in Elements(s) :: Less(x, k)
    ensures Sorted([x] + s)
  {
  }

  /** A set of keys has one sorted list. */
  lemma {:induction false} SortedUnique(s: seq<Key>, t: seq<Key>)
    requires Sorted(s) && Sorted(t) && Elements(s) == Elements(t)
    ensures s == t
  {
    hide Less, Sorted, Elements;
    if s == [] || t == [] {
      NoElements(s);
      NoElements(t);
    } else {
      SortedTail(s);
      SortedTail(t);
      ElementsParts(s);
      ElementsParts(t);
      if s[0] != t[0] {
        assert s[0] in Elements(t) && t[0] in Elements(s);
        LessOneWay(s[0], t[0]);
      }
      SameTail(s[0], Elements(s[1..]), Elements(t[1..]));
      SortedUnique(s[1..], t[1..]);
      assert s == [s[0]] + s[1..] && t == [t[0]] + t[1..];
    }
  }

  lemma SameTail(x: Key, a: set<Key>, b: set<Key>)
    requires {x} + a == {x} + b && x !in a && x !in b
    ensures a == b
  {
  }

  lemma NoElements(s: seq<Key>)
    ensures s == [] <==> Elements(s) == {}
  {
    if s != [] {
      assert s[0] in Elements(s);
    }
  }

  /** std::map::lower_bound: the first position not before the key. */
  function LowerBound(s: seq<Key>, k: Key): (p: nat)
    ensures p <= |s|
    ensures forall i | 0 <= i < p :: Less(s[i], k)
    ensures p < |s| ==> !Less(s[p], k)
  {
    if s == [] || !Less(s[0], k) then 0
    else
      var p := LowerBound(s[1..], k);
      assert forall i | 1 <= i < p + 1 :: s[i] == s[1..][i - 1];
      1 + p
  }

  /** In a sorted list, everything from the lower bound on is not before the key. */
  lemma LowerBoundRest(s: seq<Key>, k: Key)
    requires Sorted(s)
    ensures Elements(s[LowerBound(s, k)..]) == set j | j in s && !Less(j, k)
    ensures Sorted(s[LowerBound(s, k)..])
  {
    hide Less, LowerBound;
    var p := LowerBound(s, k);
    var rest := s[p..];
    forall j | j in s && !Less(j, k) ensures j in rest {
      var i :| 0 <= i < |s| && s[i] == j;
      assert rest[i - p] == j;
    }
    forall j | j in rest ensures j in s && !Less(j, k) {
      var i :| 0 <= i < |rest| && rest[i] == j;
      assert j == s[p + i];
      if Less(j, k) && i > 0 {
        assert Less(s[p], s[p + i]);
        LessTransitive(s[p], j, k);
      }
    }
    forall i, j | 0 <= i < j < |rest| ensures Less(rest[i], rest[j]) {
      assert Less(s[p + i], s[p + j]);
    }
  }

  // ---------------------------------------------------------------- merging

  /** Two-way merge: the smaller head first. */
  ghost function Merge(a: seq<Key>, b: seq<Key>): seq<Key> {
    if a == [] then b
    else if b == [] then a
    else if Less(a[0], b[0]) then [a[0]] + Merge(a[1..], b)
    else [b[0]] + Merge(a, b[1..])
  }

  lemma {:induction false} MergeElements(a: seq<Key>, b: seq<Key>)
    ensures Elements(Merge(a, b)) == Elements(a) + Elements(b)
    decreases |a| + |b|
  {
    hide Less, Elements;
    NoElements([]);
    if a != [] && b != [] {
      ElementsParts(a);
      ElementsParts(b);
      if Less(a[0], b[0]) {
        MergeElements(a[1..], b);
        ElementsCons(a[0], Merge(a[1..], b));
      } else {
        MergeElements(a, b[1..]);
        ElementsCons(b[0], Merge(a, b[1..]));
      }
    }
  }

  lemma {:induction false} MergeSorted(a: seq<Key>, b: seq<Key>)
    requires Sorted(a) && Sorted(b) && Elements(a) !! Elements(b)
    ensures Sorted(Merge(a, b))
    decreases |a| + |b|
  {
    hide Less, Elements, Sorted;
    if a != [] && b != [] {
      SortedTail(a);
      SortedTail(b);
      ElementsParts(a);
      ElementsParts(b);
      LessTotal(a[0], b[0]);
      if Less(a[0], b[0]) {
        MergeSorted(a[1..], b);
        MergeElements(a[1..], b);
        forall k | k in Elements(b[1..]) ensures Less(a[0], k) { LessTransitive(a[0], b[0], k); }
        SortedCons(a[0], Merge(a[1..], b));
      } else {
        MergeSorted(a, b[1..]);
        MergeElements(a, b[1..]);
        forall k | k in Elements(a[1..]) ensures Less(b[0], k) { LessTransitive(b[0], a[0], k); }
        SortedCons(b[0], Merge(a, b[1..]));
      }
    }
  }
}
