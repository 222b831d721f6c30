/**
 * Split-ordered list (homework/src/hash_table/split_ordered_list.rs): a map from keys
 * below 2^63 to values, kept as one sorted list of nodes. Each bucket's sentinel node
 * (key `sentinel_key(i)`, no value) is threaded into the list. A data node carries
 * `ord_key(k)` and `Some(v)`. A growable array caches, for each initialised bucket index,
 * the address of that bucket's sentinel.
 *
 * Run single-threaded, every compare-and-swap and every list insertion succeeds, and
 * `find_harris` never reports a conflict. A node's address is modelled by its key (keys
 * are unique in the list), so a bucket slot holds the sentinel's key.
 */
module SplitOrderedLists {
  import opened Bits
  import opened SplitOrder
  import opened RustTypes
  import opened LockfreeList
  import opened GrowableArrays

  /** The node type of the list: sentinels hold `None`, data nodes `Some(value)`. */
  type Item<V> = Node<Option<V>>

  /** The value of the node with key `x`; there is just one when the list is sorted. */
  ghost function ValueOf<V>(list: seq<Item<V>>, x: nat): Option<V>
    requires x in Keys(list)
  {
    var n :| n in list && n.key == x; n.value
  }

  lemma ValueOfNode<V>(list: seq<Item<V>>, n: Item<V>)
    requires Sorted(list) && n in list
    ensures ValueOf(list, n.key) == n.value
  {
    var m :| m in list && m.key == n.key && ValueOf(list, n.key) == m.value;
    var i :| 0 <= i < |list| && list[i] == n;
    var j :| 0 <= j < |list| && list[j] == m;
    assert i < j ==> KeyAt(list, i) < KeyAt(list, j);
    assert j < i ==> KeyAt(list, j) < KeyAt(list, i);
  }

  /** The map the list stands for: each key whose data node is in the list, to its value. */
  ghost function MapOf<V>(list: seq<Item<V>>): map<nat, V>
  {
    map k: nat | k < TOP_BIT && OrdKey(k) in Keys(list) && ValueOf(list, OrdKey(k)).Some? ::
      ValueOf(list, OrdKey(k)).value
  }

  /** Sentinels have even keys and no value, data nodes odd keys and a value. */
  ghost predicate Tagged<V>(list: seq<Item<V>>)
  {
    forall n :: n in list ==> (n.key % 2 == 1 <==> n.value.Some?)
  }

  /** A valid key is in the map exactly when its ordering key is in the list. */
  lemma MapOfHas<V>(list: seq<Item<V>>, k: nat)
    requires Sorted(list) && Tagged(list) && ValidKey(k)
    ensures k in MapOf(list) <==> OrdKey(k) in Keys(list)
  {
    OrdKeyShape(k);
    if OrdKey(k) in Keys(list) {
      var n :| n in list && n.key == OrdKey(k);
      ValueOfNode(list, n);
    }
  }

  lemma MapsEqual<V>(a: map<nat, V>, b: map<nat, V>)
    requires forall k :: k in a <==> k in b
    requires forall k :: k in a ==> a[k] == b[k]
    ensures a == b
  {
  }

  /** Linking in a data node for an absent key adds that key to the map. */
  lemma MapOfInsertData<V>(list: seq<Item<V>>, p: nat, k: nat, v: V)
    requires Sorted(list) && ValidKey(k) && InsertionPoint(list, p, OrdKey(k)) && OrdKey(k) !in Keys(list)
    ensures MapOf(InsertAt(list, p, Node(OrdKey(k), Some(v)))) == MapOf(list)[k := v]
  {
    var n := Node(OrdKey(k), Some(v));
    var r := InsertAt(list, p, n);
    InsertAtSorted(list, p, n);
    InsertAtElements(list, p, n);
    ValueOfNode(r, n);
    var a, b := MapOf(r), MapOf(list)[k := v];
    forall k': nat
      ensures k' in a <==> k' in b
      ensures k' in a ==> a[k'] == b[k']
    {
      if ValidKey(k') && k' != k {
        OrdKeyInjective(k, k');
        if OrdKey(k') in Keys(list) {
          var m :| m in list && m.key == OrdKey(k');
          ValueOfNode(list, m);
          ValueOfNode(r, m);
        }
      }
    }
    MapsEqual(a, b);
  }

  /** Linking in a sentinel leaves the map as it was. */
  lemma MapOfInsertSentinel<V>(list: seq<Item<V>>, p: nat, i: nat)
    requires Sorted(list) && ValidKey(i) && InsertionPoint(list, p, SentinelKey(i)) && SentinelKey(i) !in Keys(list)
    ensures MapOf(InsertAt(list, p, Node(SentinelKey(i), None))) == MapOf(list)
  {
    var n: Item<V> := Node(SentinelKey(i), None);
    var r := InsertAt(list, p, n);
    InsertAtSorted(list, p, n);
    InsertAtElements(list, p, n);
    forall k: nat | ValidKey(k)
      ensures OrdKey(k) in Keys(r) <==> OrdKey(k) in Keys(list)
      ensures OrdKey(k) in Keys(list) ==> ValueOf(r, OrdKey(k)) == ValueOf(list, OrdKey(k))
    {
      SentinelAndOrdKeysDiffer(i, k);
      if OrdKey(k) in Keys(list) {
        var m :| m in list && m.key == OrdKey(k);
        ValueOfNode(list, m);
        ValueOfNode(r, m);
      }
    }
  }

  /** Unlinking the data node of `k` removes `k` from the map. */
  lemma MapOfRemoveData<V>(list: seq<Item<V>>, p: nat, k: nat)
    requires Sorted(list) && ValidKey(k) && p < |list| && list[p].key == OrdKey(k)
    ensures MapOf(RemoveAt(list, p)) == MapOf(list) - {k}
  {
    var r := RemoveAt(list, p);
    RemoveAtSorted(list, p);
    RemoveAtElements(list, p);
    assert OrdKey(k) !in Keys(r);
    forall k': nat | ValidKey(k') && k' != k && OrdKey(k') in Keys(list)
      ensures OrdKey(k') in Keys(r) && ValueOf(r, OrdKey(k')) == ValueOf(list, OrdKey(k'))
    {
      OrdKeyInjective(k, k');
      var m :| m in list && m.key == OrdKey(k');
      ValueOfNode(list, m);
      ValueOfNode(r, m);
    }
    var a, b := MapOf(r), MapOf(list) - {k};
    forall k': nat
      ensures k' in a <==> k' in b
    {
      if ValidKey(k') && k' != k && OrdKey(k') in Keys(r) {
        OrdKeyInjective(k, k');
      }
    }
    MapsEqual(a, b);
  }

  /**
   * The bucket `find` picks for a key has its sentinel before the key's data node: with
   * 2^m buckets the key lands in bucket `key % 2^m`.
   */
  lemma BucketSentinelPrecedes(k: nat, m: nat)
    requires ValidKey(k)
    ensures SentinelKey(k % Pow2(m)) < OrdKey(k)
  {
    if m <= KEY_BITS {
      SplitOrderSeparates(k, m, 0);
    } else {
      WordLimits();
      Pow2StrictlyMonotone(KEY_BITS, m);
      DivUnique(k, Pow2(m), 0, k);
      OrdKeyShape(k);
    }
  }

  /** The highest set bit of a number between 2^e and 2^(e+1) is 2^e. */
  lemma HighBitBetween(x: nat, e: nat)
    requires Pow2(e) <= x < Pow2(e + 1)
    ensures HighBit(x) == Pow2(e)
  {
    BitLengthBetween(x, e);
  }

  /**
   * Every initialised bucket maps to its sentinel's address (its key), and that sentinel is
   * in the list; every sentinel in the list belongs to an initialised bucket.
   */
  ghost predicate BucketsLinked<V>(elements: map<nat, nat>, list: seq<Item<V>>)
  {
    && (forall i :: i in elements ==> ValidKey(i) && elements[i] == SentinelKey(i) && SentinelKey(i) in Keys(list))
    && (forall i {:trigger SentinelKey(i)} :: ValidKey(i) && SentinelKey(i) in Keys(list) ==> i in elements)
  }

  /** The list starts with bucket 0's sentinel, whose key is 0. */
  ghost predicate HeadSentinel<V>(list: seq<Item<V>>)
  {
    |list| > 0 && list[0] == Node(0, None)
  }

  /** Bucket 0 is always initialised: its sentinel heads the list. */
  lemma BucketZero<V>(elements: map<nat, nat>, list: seq<Item<V>>, j: nat)
    requires BucketsLinked(elements, list) && HeadSentinel(list) && j !in elements
    ensures j != 0
  {
    ReverseBitsZero(WORD_BITS);
    assert list[0] in list;
    assert SentinelKey(0) in Keys(list);
  }

  /**
   * Searching a sorted, tagged list from the front for the key of an initialised bucket
   * stops at that bucket's sentinel: what `Cursor::from_raw` on the bucket's address yields.
   */
  lemma SentinelFound<V>(elements: map<nat, nat>, list: seq<Item<V>>, index: nat)
    requires Sorted(list) && Tagged(list) && BucketsLinked(elements, list) && index in elements
    ensures Seek(list, 0, elements[index]) < |list|
    ensures list[Seek(list, 0, elements[index])] == Node(SentinelKey(index), None)
  {
    var cursor := Seek(list, 0, elements[index]);
    InsertionPointFinds(list, cursor, elements[index]);
    assert list[cursor] in list;
    SentinelKeyEven(index);
  }

  /** The list `Default::default` builds: only the key-0 sentinel, for bucket 0 alone. */
  lemma InitialList<V>()
    ensures Sorted<Option<V>>([Node(0, None)]) && Tagged<V>([Node(0, None)]) && HeadSentinel<V>([Node(0, None)])
    ensures MapOf<V>([Node(0, None)]) == map[]
    ensures BucketsLinked<V>(map[0 := 0], [Node(0, None)])
  {
    var list: seq<Item<V>> := [Node(0, None)];
    ReverseBitsZero(WORD_BITS);
    assert Keys(list) == {0};
    forall k: nat | ValidKey(k)
      ensures OrdKey(k) !in Keys(list)
    {
      OrdKeyShape(k);
    }
    forall i | ValidKey(i) && SentinelKey(i) in Keys(list)
      ensures i == 0
    {
      if i != 0 {
        SentinelKeyInjective(i, 0);
      }
    }
  }

  /**
   * `b.Valid()` behind `layers` definitional layers. The split-ordered list relies on the
   * bucket index only through `LoadBucket` and `StoreBucket`, which look through the layers
   * with `ValidBehindMeans`; elsewhere the solver keeps the fact whole instead of expanding
   * the growable array's invariant at every step.
   */
  ghost predicate ValidBehind(b: GrowableArray, layers: nat)
    reads b, b.Repr
    decreases layers
  {
    if layers == 0 then b.Valid() else ValidBehind(b, layers - 1)
  }

  lemma ValidBehindMeans(b: GrowableArray)
    ensures ValidBehind(b, 2) <==> b.Valid()
  {
    assert ValidBehind(b, 2) == ValidBehind(b, 1);
    assert ValidBehind(b, 1) == ValidBehind(b, 0);
  }

  /** The bucket index of `Default::default`: a new growable array whose slot 0 holds the key-0 sentinel. */
  method InitialBuckets() returns (b: GrowableArray)
    ensures fresh(b) && fresh(b.Repr) && ValidBehind(b, 2)
    ensures b.Elements() == map[0 := 0]
  {
    b := new GrowableArray();
    ValidBehindMeans(b);
    StoreBucket(b, 0, 0);
  }

  /** `buckets.get(index).load()`: the address cached for bucket `index`, or null. */
  method LoadBucket(b: GrowableArray, index: nat) returns (v: Slot)
    requires ValidBehind(b, 2) && index < WORD_LIMIT
    modifies b, b.Repr
    ensures ValidBehind(b, 2) && fresh(b.Repr - old(b.Repr)) && b.Elements() == old(b.Elements())
    ensures v == Null <==> index !in b.Elements()
    ensures v != Null ==> v == Elem(b.Elements()[index])
  {
    ValidBehindMeans(b);
    var slot := b.Get(index);
    v := b.Load(slot);
    ValidBehindMeans(b);
  }

  /** `buckets.get(index).store(p)`: cache address `p` for bucket `index`. */
  method StoreBucket(b: GrowableArray, index: nat, p: nat)
    requires ValidBehind(b, 2) && index < WORD_LIMIT
    modifies b, b.Repr
    ensures ValidBehind(b, 2) && fresh(b.Repr - old(b.Repr)) && b.Elements() == old(b.Elements())[index := p]
  {
    ValidBehindMeans(b);
    var slot := b.Get(index);
    b.Store(slot, p);
    ValidBehindMeans(b);
  }

  /**
   * Linking bucket `index`'s new sentinel in at its insertion point keeps the list sorted
   * and tagged, adds just the sentinel's key, and leaves the map unchanged.
   */
  lemma SentinelLinked<V>(list: seq<Item<V>>, p: nat, index: nat)
    requires Sorted(list) && Tagged(list) && HeadSentinel(list) && ValidKey(index)
    requires InsertionPoint(list, p, SentinelKey(index)) && SentinelKey(index) !in Keys(list)
    ensures Sorted(InsertAt(list, p, Node(SentinelKey(index), None)))
    ensures Tagged(InsertAt(list, p, Node(SentinelKey(index), None)))
    ensures HeadSentinel(InsertAt(list, p, Node(SentinelKey(index), None)))
    ensures MapOf(InsertAt(list, p, Node(SentinelKey(index), None))) == MapOf(list)
    ensures Keys(InsertAt(list, p, Node(SentinelKey(index), None))) == Keys(list) + {SentinelKey(index)}
  {
    var n: Item<V> := Node(SentinelKey(index), None);
    InsertAtSorted(list, p, n);
    InsertAtElements(list, p, n);
    MapOfInsertSentinel<V>(list, p, index);
    SentinelKeyEven(index);
    assert list[0] in list;
  }

  /**
   * Linking a data node for an absent key in at its insertion point keeps the list sorted,
   * tagged and headed by bucket 0's sentinel, keeps the buckets linked, and adds the key to
   * the map.
   */
  lemma DataLinked<V>(elements: map<nat, nat>, list: seq<Item<V>>, p: nat, k: nat, v: V)
    requires Sorted(list) && Tagged(list) && HeadSentinel(list) && BucketsLinked(elements, list)
    requires ValidKey(k) && InsertionPoint(list, p, OrdKey(k)) && OrdKey(k) !in Keys(list)
    ensures Sorted(InsertAt(list, p, Node(OrdKey(k), Some(v))))
    ensures Tagged(InsertAt(list, p, Node(OrdKey(k), Some(v))))
    ensures HeadSentinel(InsertAt(list, p, Node(OrdKey(k), Some(v))))
    ensures BucketsLinked(elements, InsertAt(list, p, Node(OrdKey(k), Some(v))))
    ensures MapOf(InsertAt(list, p, Node(OrdKey(k), Some(v)))) == MapOf(list)[k := v]
  {
    var n := Node(OrdKey(k), Some(v));
    InsertAtSorted(list, p, n);
    InsertAtElements(list, p, n);
    MapOfInsertData(list, p, k, v);
    OrdKeyShape(k);
    assert list[0] in list;
    forall i | ValidKey(i)
      ensures SentinelKey(i) != OrdKey(k)
    {
      SentinelAndOrdKeysDiffer(i, k);
    }
  }

  /**
   * Unlinking the data node of a key keeps the list sorted, tagged and headed by bucket 0's
   * sentinel, keeps the buckets linked, and removes the key from the map.
   */
  lemma DataUnlinked<V>(elements: map<nat, nat>, list: seq<Item<V>>, p: nat, k: nat)
    requires Sorted(list) && Tagged(list) && HeadSentinel(list) && BucketsLinked(elements, list)
    requires ValidKey(k) && p < |list| && list[p].key == OrdKey(k)
    ensures Sorted(RemoveAt(list, p)) && Tagged(RemoveAt(list, p))
    ensures HeadSentinel(RemoveAt(list, p))
    ensures BucketsLinked(elements, RemoveAt(list, p))
    ensures MapOf(RemoveAt(list, p)) == MapOf(list) - {k}
  {
    RemoveAtSorted(list, p);
    RemoveAtElements(list, p);
    MapOfRemoveData(list, p, k);
    OrdKeyShape(k);
    forall i | ValidKey(i)
      ensures SentinelKey(i) != OrdKey(k)
    {
      SentinelAndOrdKeysDiffer(i, k);
    }
  }

  /** Caching the address of bucket `index`'s newly linked sentinel keeps the buckets linked. */
  lemma BucketAdded<V>(elements: map<nat, nat>, list: seq<Item<V>>, list': seq<Item<V>>, index: nat)
    requires BucketsLinked(elements, list) && ValidKey(index)
    requires Keys(list') == Keys(list) + {SentinelKey(index)}
    ensures BucketsLinked(elements[index := SentinelKey(index)], list')
  {
    forall i | ValidKey(i) && i != index
      ensures SentinelKey(i) != SentinelKey(index)
    {
      SentinelKeyInjective(i, index);
    }
  }

  /** A set of numbers below `n` has at most `n` elements. */
  lemma {:induction false} BoundedSetSize(s: set<nat>, n: nat)
    requires forall k :: k in s ==> k < n
    ensures |s| <= n
  {
    if n == 0 {
      assert s == {};
    } else {
      BoundedSetSize(s - {n - 1}, n - 1);
    }
  }

  /** The map holds at most 2^63 keys, one per valid key. */
  lemma MapOfSize<V>(list: seq<Item<V>>)
    ensures |MapOf(list)| <= TOP_BIT
  {
    BoundedSetSize(MapOf(list).Keys, TOP_BIT);
  }

  /**
   * `insert` doubles the bucket count only when more than `size * LOAD_FACTOR` items were
   * there, and there are at most 2^63 of them: the doubled count is still below 2^63, so
   * neither `size * LOAD_FACTOR` nor `size << 1` overflows a word.
   */
  lemma DoublingFits(logSize: nat, count: nat)
    requires count <= TOP_BIT && count > Pow2(logSize) * LOAD_FACTOR
    ensures Pow2(logSize + 1) == Pow2(logSize) * LOAD_FACTOR && logSize + 1 < KEY_BITS
  {
    WordLimits();
    if logSize + 1 >= KEY_BITS {
      Pow2Monotone(KEY_BITS, logSize + 1);
    }
  }

  /**
   * The list is sorted and split-ordered, starts at the key-0 sentinel and every bucket in
   * the index points at its sentinel; `size` is `2^logSize` and `count` the number of items.
   */
  ghost predicate MapInvariant<V>(elements: map<nat, nat>, list: seq<Item<V>>, size: nat, count: nat, logSize: nat)
  {
    && Sorted(list) && Tagged(list) && HeadSentinel(list)
    && BucketsLinked(elements, list)
    && 1 <= logSize < KEY_BITS && size == Pow2(logSize)
    && count == |MapOf(list)|
  }

  class SplitOrderedList<V> {
    /** The sorted list shared by all buckets. */
    var list: seq<Item<V>>
    /** The bucket index: slot `i` holds the address of bucket `i`'s sentinel. */
    const buckets: GrowableArray
    /** The number of buckets, a power of two. */
    var size: nat
    /** The number of data items. */
    var count: nat
    /** `size == 2^logSize`. */
    ghost var logSize: nat

    /** The map this list stands for. */
    ghost function Contents(): map<nat, V>
      reads this
    {
      MapOf(list)
    }

    ghost predicate Valid()
      reads this, buckets, buckets.Repr
    {
      && this !in buckets.Repr
      && ValidBehind(buckets, 2)
      && MapInvariant(buckets.Elements(), list, size, count, logSize)
    }

    /** The bucket count is always a power of two, as `get_parent` and `find` expect. */
    lemma SizeIsPow2()
      requires Valid()
      ensures IsPow2(size) && 2 <= size
    {
      Pow2IsPow2(logSize);
    }

    /** `Default::default`: a list holding the key-0 sentinel, bucket 0 pointing at it, two buckets. */
    constructor ()
      ensures Valid() && fresh(buckets) && fresh(buckets.Repr)
      ensures Contents() == map[] && size == 2 && count == 0
    {
      var newList: seq<Item<V>> := [Node(0, None)];
      var newBuckets := InitialBuckets();
      list := newList;
      buckets := newBuckets;
      size := 2;
      count := 0;
      logSize := 1;
      new;
      InitialList<V>();
    }

    /**
     * `get_parent`: halve the bucket count until it is at most `index`; the parent is
     * `index` minus that power of two, i.e. `index` with its highest set bit cleared.
     */
    method GetParent(index: nat) returns (r: nat)
      requires size == Pow2(logSize) && index < size
      ensures index == 0 ==> r == 0
      ensures index > 0 ==> r == index - HighBit(index) && r < index
    {
      var parent := size;
      ghost var e := logSize;
      while true
        invariant parent == Pow2(e) && index < parent
        decreases parent
      {
        parent := parent / 2;
        if e > 0 {
          e := e - 1;
        }
        if parent <= index {
          if index > 0 {
            HighBitBetween(index, e);
          }
          break;
        }
      }
      r := index - parent;
    }

    /**
     * `lookup_bucket`: a cursor at bucket `index`'s sentinel, read from the bucket index or,
     * if the bucket is not initialised yet, created by `initialize_bucket`.
     */
    method LookupBucket(index: nat) returns (cursor: nat)
      requires Valid() && ValidKey(index) && index < size
      modifies this, buckets, buckets.Repr
      ensures Valid() && fresh(buckets.Repr - old(buckets.Repr))
      ensures Contents() == old(Contents()) && old(Keys(list)) <= Keys(list)
      ensures size == old(size) && count == old(count) && logSize == old(logSize)
      ensures cursor < |list| && list[cursor] == Node(SentinelKey(index), None)
      decreases index, 3
    {
      var node := LoadBucket(buckets, index);
      if node == Null {
        cursor := InitializeBucket(index);
      } else {
        cursor := Seek(list, 0, node.ptr);
        SentinelFound(buckets.Elements(), list, index);
      }
    }

    /**
     * `initialize_bucket`: make sure the parent bucket exists and search from its sentinel
     * for this bucket's sentinel key; if it is missing, link a new sentinel in at the search
     * position, cache its address in the bucket index and search again.
     */
    method InitializeBucket(index: nat) returns (cursor: nat)
      requires Valid() && ValidKey(index) && index < size
      modifies this, buckets, buckets.Repr
      ensures Valid() && fresh(buckets.Repr - old(buckets.Repr))
      ensures Contents() == old(Contents()) && old(Keys(list)) <= Keys(list)
      ensures size == old(size) && count == old(count) && logSize == old(logSize)
      ensures cursor < |list| && list[cursor] == Node(SentinelKey(index), None)
      decreases index, 2
    {
      var parentIdx := GetParent(index);
      while true
        invariant Valid() && fresh(buckets.Repr - old(buckets.Repr))
        invariant Contents() == old(Contents()) && old(Keys(list)) <= Keys(list)
        invariant size == old(size) && count == old(count) && logSize == old(logSize)
        decreases if SentinelKey(index) in Keys(list) then 0 else 1
      {
        var found;
        found, cursor := InitializeRound(index, parentIdx);
        if found {
          return;
        }
      }
    }

    /**
     * One round of the loop of `initialize_bucket`: find the parent bucket's sentinel, search
     * from it for this bucket's sentinel key and report it if found; otherwise link a new
     * sentinel in and cache its address, and let the next round find it.
     */
    method InitializeRound(index: nat, parentIdx: nat) returns (found: bool, cursor: nat)
      requires Valid() && ValidKey(index) && index < size
      requires index == 0 ==> parentIdx == 0
      requires index > 0 ==> parentIdx == index - HighBit(index) && parentIdx < index
      modifies this, buckets, buckets.Repr
      ensures Valid() && fresh(buckets.Repr - old(buckets.Repr))
      ensures Contents() == old(Contents()) && old(Keys(list)) <= Keys(list)
      ensures size == old(size) && count == old(count) && logSize == old(logSize)
      ensures SentinelKey(index) in Keys(list)
      ensures !found ==> SentinelKey(index) !in old(Keys(list))
      ensures found ==> cursor < |list| && list[cursor] == Node(SentinelKey(index), None)
      decreases index, 1
    {
      var key := SentinelKey(index);
      if index > 0 {
        ParentSentinelPrecedes(index);
      }
      var parentCursor := ParentCursor(index, parentIdx);
      cursor := Seek(list, parentCursor, key);
      SeekFrom(list, parentCursor, key);
      InsertionPointFinds(list, cursor, key);
      if cursor < |list| && list[cursor].key == key {
        SentinelKeyEven(index);
        assert list[cursor] in list;
        found := true;
      } else {
        // `cursor.insert(bucket)` succeeds when no other thread is running.
        LinkSentinel(cursor, index);
        found := false;
      }
    }

    /**
     * The first step of each round of `initialize_bucket`: a cursor at the parent bucket's
     * sentinel, read from the bucket index or created by initialising the parent bucket.
     * Bucket 0 is its own parent and is always initialised.
     */
    method ParentCursor(index: nat, parentIdx: nat) returns (cursor: nat)
      requires Valid() && ValidKey(index) && index < size
      requires parentIdx < index || parentIdx == 0
      modifies this, buckets, buckets.Repr
      ensures Valid() && fresh(buckets.Repr - old(buckets.Repr))
      ensures Contents() == old(Contents()) && old(Keys(list)) <= Keys(list)
      ensures size == old(size) && count == old(count) && logSize == old(logSize)
      ensures cursor < |list| && list[cursor] == Node(SentinelKey(parentIdx), None)
      decreases index, 0
    {
      var parentNode := LoadBucket(buckets, parentIdx);
      if parentNode == Null {
        BucketZero(buckets.Elements(), list, parentIdx);
        cursor := InitializeBucket(parentIdx);
      } else {
        cursor := Seek(list, 0, parentNode.ptr);
        SentinelFound(buckets.Elements(), list, parentIdx);
      }
    }

    /** `cursor.insert(bucket)` followed by `buckets.get(index).store(cursor.curr())`. */
    method LinkSentinel(p: nat, index: nat)
      requires Valid() && ValidKey(index)
      requires InsertionPoint(list, p, SentinelKey(index)) && SentinelKey(index) !in Keys(list)
      modifies this, buckets, buckets.Repr
      ensures Valid() && fresh(buckets.Repr - old(buckets.Repr))
      ensures list == InsertAt(old(list), p, Node(SentinelKey(index), None))
      ensures Contents() == old(Contents()) && Keys(list) == old(Keys(list)) + {SentinelKey(index)}
      ensures size == old(size) && count == old(count) && logSize == old(logSize)
    {
      var key := SentinelKey(index);
      SentinelLinked(list, p, index);
      BucketAdded(buckets.Elements(), list, InsertAt(list, p, Node(key, None)), index);
      list := InsertAt(list, p, Node(key, None));
      StoreBucket(buckets, index, key);
    }

    /**
     * `find`: search from the sentinel of bucket `key % size` for the key's ordering key.
     * Returns the bucket count it used, whether the key is present, and the cursor.
     */
    method Find(key: nat) returns (sz: nat, found: bool, cursor: nat)
      requires Valid() && ValidKey(key)
      modifies this, buckets, buckets.Repr
      ensures Valid() && fresh(buckets.Repr - old(buckets.Repr))
      ensures Contents() == old(Contents()) && size == old(size) && count == old(count) && logSize == old(logSize)
      ensures sz == size
      ensures InsertionPoint(list, cursor, OrdKey(key))
      ensures found <==> key in Contents()
      ensures found <==> cursor < |list| && list[cursor].key == OrdKey(key)
      ensures !found ==> OrdKey(key) !in Keys(list)
    {
      sz := size;
      var index := key % sz;
      assert index < sz && index <= key;
      var start := LookupBucket(index);
      BucketSentinelPrecedes(key, logSize);
      cursor := Seek(list, start, OrdKey(key));
      SeekFrom(list, start, OrdKey(key));
      InsertionPointFinds(list, cursor, OrdKey(key));
      MapOfHas(list, key);
      found := cursor < |list| && list[cursor].key == OrdKey(key);
    }

    /** `lookup`: the value stored under `key`, if any. Panics unless the key's top bit is clear. */
    method Lookup(key: nat) returns (r: Option<V>)
      requires Valid() && key < WORD_LIMIT && AssertValidKey(key)
      modifies this, buckets, buckets.Repr
      ensures Valid() && fresh(buckets.Repr - old(buckets.Repr))
      ensures Contents() == old(Contents()) && size == old(size) && count == old(count)
      ensures r == if key in Contents() then Some(Contents()[key]) else None
    {
      var _, found, cursor := Find(key);
      if found {
        ValueOfNode(list, list[cursor]);
        r := list[cursor].value;
      } else {
        r := None;
      }
    }

    /**
     * `insert`: add `key -> value` unless the key is present, in which case the value is
     * handed back. A successful insert bumps `count` and doubles `size` when the count
     * before the insert exceeded `size * LOAD_FACTOR`.
     */
    method Insert(key: nat, value: V) returns (r: Result<(), V>)
      requires Valid() && key < WORD_LIMIT && AssertValidKey(key)
      modifies this, buckets, buckets.Repr
      ensures Valid() && fresh(buckets.Repr - old(buckets.Repr))
      ensures old(key in Contents()) ==> r == Err(value) && Contents() == old(Contents()) && count == old(count)
      ensures old(key !in Contents()) ==> r == Ok(()) && Contents() == old(Contents())[key := value] && count == old(count) + 1
      ensures size == if old(key !in Contents()) && old(count) > old(size) * LOAD_FACTOR then old(size) * 2 else old(size)
    {
      var sz, found, cursor := Find(key);
      if found {
        r := Err(value);
      } else {
        // `cursor.insert(node)` succeeds when no other thread is running.
        var before := LinkData(cursor, key, value);
        if before > sz * LOAD_FACTOR {
          DoubleSize(sz, before);
        }
        r := Ok(());
      }
    }

    /** `delete`: remove `key` and return its value, or `Err(())` if it is absent. */
    method Delete(key: nat) returns (r: Result<V, ()>)
      requires Valid() && key < WORD_LIMIT && AssertValidKey(key)
      modifies this, buckets, buckets.Repr
      ensures Valid() && fresh(buckets.Repr - old(buckets.Repr))
      ensures size == old(size)
      ensures old(key in Contents()) ==> r == Ok(old(Contents())[key]) && Contents() == old(Contents()) - {key} && count == old(count) - 1
      ensures old(key !in Contents()) ==> r == Err(()) && Contents() == old(Contents()) && count == old(count)
    {
      var _, found, cursor := Find(key);
      if found {
        var v := UnlinkData(cursor, key);
        r := Ok(v);
      } else {
        r := Err(());
      }
    }

    /**
     * `cursor.delete()` of `delete`, which succeeds when no other thread is running and
     * yields the unlinked node's value, and the `count.fetch_sub(1)` after it.
     */
    method UnlinkData(p: nat, key: nat) returns (v: V)
      requires Valid() && ValidKey(key) && key in Contents()
      requires p < |list| && list[p].key == OrdKey(key)
      modifies this
      ensures Valid() && list == RemoveAt(old(list), p)
      ensures v == old(Contents())[key] && Contents() == old(Contents()) - {key}
      ensures count == old(count) - 1 && size == old(size) && logSize == old(logSize)
    {
      var n := list[p];
      assert n in list;
      OrdKeyShape(key);
      ValueOfNode(list, n);
      DataUnlinked(buckets.Elements(), list, p, key);
      list := RemoveAt(list, p);
      count := count - 1;
      v := n.value.value;
    }

    /**
     * `cursor.insert(node)` of `insert`, linking a data node for `key` in at the cursor,
     * and the `count.fetch_add(1)` after it; returns the count from before.
     */
    method LinkData(p: nat, key: nat, value: V) returns (before: nat)
      requires Valid() && ValidKey(key) && InsertionPoint(list, p, OrdKey(key)) && OrdKey(key) !in Keys(list)
      requires key !in Contents()
      modifies this
      ensures Valid() && list == InsertAt(old(list), p, Node(OrdKey(key), Some(value)))
      ensures Contents() == old(Contents())[key := value]
      ensures before == old(count) && count == before + 1 && before < TOP_BIT
      ensures size == old(size) && logSize == old(logSize)
    {
      ghost var list' := InsertAt(list, p, Node(OrdKey(key), Some(value)));
      assert MapInvariant(buckets.Elements(), list', size, count + 1, logSize)
        && MapOf(list') == Contents()[key := value] && count + 1 <= TOP_BIT by {
        DataLinked(buckets.Elements(), list, p, key, value);
        MapOfSize(list');
      }
      list := InsertAt(list, p, Node(OrdKey(key), Some(value)));
      before := count;
      count := count + 1;
    }

    /**
     * `size.compare_and_swap(sz, sz << 1)` of `insert`, reached once the count before the
     * insert exceeded `sz * LOAD_FACTOR`; it succeeds when `size` is still `sz`.
     */
    method DoubleSize(sz: nat, before: nat)
      requires Valid() && before < TOP_BIT && before > sz * LOAD_FACTOR
      modifies this
      ensures Valid() && list == old(list) && count == old(count)
      ensures size == if old(size) == sz then sz * 2 else old(size)
    {
      if size == sz {
        DoublingFits(logSize, before);
        size := sz * 2;
        logSize := logSize + 1;
      }
    }
  }
}
