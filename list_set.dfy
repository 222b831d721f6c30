/**
 * `OrderedListSet`, a sorted singly linked list used as a set, run by one thread: the
 * lock on each `next` field (lock coupling) is left out, and a `Cursor`, which holds the
 * lock of the `next` field that points at the current node, becomes the slot it names.
 * Elements are integers, standing for any `T: Ord`.
 */
module ListSet {
  import opened RustTypes

  /** A heap node: its data never changes after `Node::new`; its `next` pointer does. */
  class Node {
    const data: int
    var next: Node?

    constructor (data: int, next: Node?)
      ensures this.data == data && this.next == next
    {
      this.data := data;
      this.next := next;
    }
  }

  /** The data held by a run of nodes, in order. */
  function DataOf(ns: seq<Node>): (r: seq<int>)
    ensures |r| == |ns| && forall i :: 0 <= i < |ns| ==> r[i] == ns[i].data
  {
    seq(|ns|, i requires 0 <= i < |ns| => ns[i].data)
  }

  lemma DataOfInsert(ns: seq<Node>, p: nat, n: Node)
    requires p <= |ns|
    ensures DataOf(ns[..p] + [n] + ns[p..]) == DataOf(ns)[..p] + [n.data] + DataOf(ns)[p..]
  {
    var r := ns[..p] + [n] + ns[p..];
    assert forall i :: 0 <= i < |r| ==> r[i] == if i < p then ns[i] else if i == p then n else ns[i - 1];
  }

  lemma DataOfRemove(ns: seq<Node>, p: nat)
    requires p < |ns|
    ensures DataOf(ns[..p] + ns[p + 1..]) == DataOf(ns)[..p] + DataOf(ns)[p + 1..]
  {
    var r := ns[..p] + ns[p + 1..];
    assert forall i :: 0 <= i < |r| ==> r[i] == if i < p then ns[i] else ns[i + 1];
  }

  ghost predicate StrictlySorted(s: seq<int>)
  {
    forall i, j :: 0 <= i < j < |s| ==> s[i] < s[j]
  }

  /** What the node at position `i` must point to: the next node, or null at the end. */
  function Successor(ns: seq<Node>, i: nat): Node?
    requires i < |ns|
  {
    if i + 1 < |ns| then ns[i + 1] else null
  }

  /** The nodes form a null-terminated chain starting at `first`. */
  ghost predicate Chain(ns: seq<Node>, first: Node?)
    reads ns
  {
    && first == (if |ns| == 0 then null else ns[0])
    && forall i {:trigger Successor(ns, i)} :: 0 <= i < |ns| ==> ns[i].next == Successor(ns, i)
  }

  /**
   * Linking `n` in front of position `p`: the node before `p` (or `head`) now points to `n`,
   * `n` to the node at `p`, and every other node is as before.
   */
  lemma ChainInsert(ns: seq<Node>, p: nat, n: Node, head: Node?)
    requires p <= |ns|
    requires forall i :: 0 <= i < |ns| && i != p - 1 ==> ns[i].next == Successor(ns, i)
    requires p > 0 ==> ns[p - 1].next == n
    requires n.next == (if p < |ns| then ns[p] else null)
    requires head == if p == 0 then n else ns[0]
    ensures Chain(ns[..p] + [n] + ns[p..], head)
  {
    var r := ns[..p] + [n] + ns[p..];
    forall i | 0 <= i < |r|
      ensures r[i].next == Successor(r, i)
    {
      if i < p - 1 {
        assert r[i] == ns[i] && r[i + 1] == ns[i + 1];
        assert ns[i].next == Successor(ns, i);
      } else if i > p {
        assert r[i] == ns[i - 1];
        assert ns[i - 1].next == Successor(ns, i - 1);
        assert i + 1 < |r| ==> r[i + 1] == ns[i];
      } else if i == p {
        assert i + 1 < |r| ==> r[i + 1] == ns[p];
      }
    }
  }

  /**
   * Unlinking the node at `p`: the node before it (or `head`) now points to its successor,
   * and every other node is as before.
   */
  lemma ChainRemove(ns: seq<Node>, p: nat, head: Node?)
    requires p < |ns|
    requires forall i :: 0 <= i < |ns| && i != p - 1 ==> ns[i].next == Successor(ns, i)
    requires p > 0 ==> ns[p - 1].next == Successor(ns, p)
    requires head == if p == 0 then Successor(ns, 0) else ns[0]
    ensures Chain(ns[..p] + ns[p + 1..], head)
  {
    var r := ns[..p] + ns[p + 1..];
    forall i | 0 <= i < |r|
      ensures r[i].next == Successor(r, i)
    {
      if i < p - 1 {
        assert r[i] == ns[i] && r[i + 1] == ns[i + 1];
        assert ns[i].next == Successor(ns, i);
      } else if i == p - 1 {
        assert r[i] == ns[p - 1];
        assert i + 1 < |r| ==> r[i + 1] == ns[p + 1];
      } else {
        assert r[i] == ns[i + 1];
        assert ns[i + 1].next == Successor(ns, i + 1);
        assert i + 1 < |r| ==> r[i + 1] == ns[i + 2];
      }
    }
  }

  // ---------------------------------------------------------------------------------------
  // The sequence-level meaning of insertion and removal.

  /** `s` with `k` put in front of the first element not below it. */
  function InsertSorted(s: seq<int>, k: int): seq<int>
  {
    if |s| == 0 || k <= s[0] then [k] + s else [s[0]] + InsertSorted(s[1..], k)
  }

  /** `s` without the first occurrence of `k`. */
  function RemoveSorted(s: seq<int>, k: int): seq<int>
  {
    if |s| == 0 then [] else if s[0] == k then s[1..] else [s[0]] + RemoveSorted(s[1..], k)
  }

  /** `p` is where a search for `k` stops: every earlier element is smaller, the one at `p` is not. */
  ghost predicate InsertionPoint(s: seq<int>, p: nat, k: int)
  {
    && p <= |s|
    && (forall q :: 0 <= q < p ==> s[q] < k)
    && (p < |s| ==> s[p] >= k)
  }

  /** In a sorted sequence the search finds `k` exactly when `k` is an element. */
  lemma InsertionPointFinds(s: seq<int>, p: nat, k: int)
    requires StrictlySorted(s) && InsertionPoint(s, p, k)
    ensures k in s <==> p < |s| && s[p] == k
  {
    if k in s {
      var i :| 0 <= i < |s| && s[i] == k;
      assert !(i < p) && !(p < i);
    }
  }

  /** Inserting at the insertion point is what `InsertSorted` describes. */
  lemma {:induction false} InsertSortedAt(s: seq<int>, p: nat, k: int)
    requires InsertionPoint(s, p, k)
    ensures InsertSorted(s, k) == s[..p] + [k] + s[p..]
  {
    if p > 0 {
      InsertSortedAt(s[1..], p - 1, k);
      assert s[1..][..p - 1] == s[1..p] && s[1..][p - 1..] == s[p..];
      assert s[..p] == [s[0]] + s[1..p];
    }
  }

  /** Unlinking the found element is what `RemoveSorted` describes. */
  lemma {:induction false} RemoveSortedAt(s: seq<int>, p: nat, k: int)
    requires p < |s| && s[p] == k && forall q :: 0 <= q < p ==> s[q] != k
    ensures RemoveSorted(s, k) == s[..p] + s[p + 1..]
  {
    var t := s[1..];
    if p > 0 {
      assert s[0] != k;
      assert RemoveSorted(s, k) == [s[0]] + RemoveSorted(t, k);
      forall q | 0 <= q < p - 1
        ensures t[q] != k
      {
        assert t[q] == s[q + 1];
      }
      RemoveSortedAt(t, p - 1, k);
      assert t[..p - 1] == s[1..p] && t[p..] == s[p + 1..];
      assert s[..p] == [s[0]] + s[1..p];
    } else {
      assert RemoveSorted(s, k) == t;
    }
  }

  /** A strictly ascending sequence is its head followed by a strictly ascending tail of larger elements. */
  lemma SortedTail(s: seq<int>)
    requires StrictlySorted(s) && |s| > 0
    ensures StrictlySorted(s[1..]) && forall x :: x in s[1..] ==> s[0] < x
  {
    forall x | x in s[1..]
      ensures s[0] < x
    {
      var i :| 0 <= i < |s[1..]| && s[1..][i] == x;
      assert s[i + 1] == x;
    }
  }

  lemma SortedCons(a: int, t: seq<int>)
    requires StrictlySorted(t) && forall x :: x in t ==> a < x
    ensures StrictlySorted([a] + t)
  {
    var s := [a] + t;
    forall i, j | 0 <= i < j < |s|
      ensures s[i] < s[j]
    {
      assert s[j] == t[j - 1];
      if i > 0 {
        assert s[i] == t[i - 1];
      } else {
        assert t[j - 1] in t;
      }
    }
  }

  /** Inserting adds exactly `k`. */
  lemma {:induction false} InsertSortedElements(s: seq<int>, k: int)
    ensures multiset(InsertSorted(s, k)) == multiset(s) + multiset{k}
  {
    if |s| > 0 && k > s[0] {
      assert s == [s[0]] + s[1..];
      InsertSortedElements(s[1..], k);
    }
  }

  /** Removing takes away exactly one `k`, if there is one. */
  lemma {:induction false} RemoveSortedElements(s: seq<int>, k: int)
    ensures multiset(RemoveSorted(s, k)) == multiset(s) - multiset{k}
  {
    if |s| > 0 {
      var t := s[1..];
      assert s == [s[0]] + t;
      assert multiset(s) == multiset{s[0]} + multiset(t);
      if s[0] != k {
        RemoveSortedElements(t, k);
        assert RemoveSorted(s, k) == [s[0]] + RemoveSorted(t, k);
        assert multiset(RemoveSorted(s, k)) == multiset{s[0]} + (multiset(t) - multiset{k});
      } else {
        assert RemoveSorted(s, k) == t;
      }
    }
  }

  /** Inserting an absent key into a strictly ascending sequence keeps it strictly ascending. */
  lemma {:induction false} InsertSortedKeepsOrder(s: seq<int>, k: int)
    requires StrictlySorted(s) && k !in s
    ensures StrictlySorted(InsertSorted(s, k))
  {
    if |s| == 0 || k <= s[0] {
      if |s| > 0 {
        SortedTail(s);
        assert s == [s[0]] + s[1..];
      }
      SortedCons(k, s);
    } else {
      var t := s[1..];
      assert s == [s[0]] + t;
      SortedTail(s);
      InsertSortedKeepsOrder(t, k);
      InsertSortedElements(t, k);
      var r := InsertSorted(t, k);
      forall x | x in r
        ensures s[0] < x
      {
        assert x in multiset(r);
      }
      SortedCons(s[0], r);
    }
  }

  /** Removing a key from a strictly ascending sequence keeps it strictly ascending and removes every copy. */
  lemma {:induction false} RemoveSortedKeepsOrder(s: seq<int>, k: int)
    requires StrictlySorted(s)
    ensures StrictlySorted(RemoveSorted(s, k)) && k !in RemoveSorted(s, k)
  {
    if |s| > 0 {
      var t := s[1..];
      assert s == [s[0]] + t;
      SortedTail(s);
      if s[0] != k {
        RemoveSortedKeepsOrder(t, k);
        RemoveSortedElements(t, k);
        var r := RemoveSorted(t, k);
        forall x | x in r
          ensures s[0] < x
        {
          assert x in multiset(r);
        }
        SortedCons(s[0], r);
      }
    }
  }

  lemma MoveFirst<T>(a: seq<T>, b: seq<T>)
    requires |b| > 0
    ensures a + b == (a + [b[0]]) + b[1..]
  {
    assert b == [b[0]] + b[1..];
  }

  /** Dropping the first node of a chain leaves a chain from its successor. */
  lemma ChainTail(ns: seq<Node>, first: Node?)
    requires Chain(ns, first) && |ns| > 0
    ensures Chain(ns[1..], ns[0].next)
  {
    assert ns[0].next == Successor(ns, 0);
    forall i | 0 <= i < |ns| - 1
      ensures ns[1..][i].next == Successor(ns[1..], i)
    {
      assert ns[1..][i] == ns[i + 1];
      assert ns[i + 1].next == Successor(ns, i + 1);
    }
  }

  // ---------------------------------------------------------------------------------------
  // The list itself.

  /** Where a cursor points: the list's `head` field, or the `next` field of a node. */
  datatype Slot = Head | After(node: Node)

  class OrderedListSet {
    var head: Node?
    /** The nodes reachable from `head`, in list order. */
    ghost var nodes: seq<Node>

    ghost predicate Valid()
      reads this, nodes
    {
      Chain(nodes, head) && StrictlySorted(DataOf(nodes))
    }

    /** The elements of the set, in list order. */
    ghost function Elements(): seq<int>
      reads this
    {
      DataOf(nodes)
    }

    /** The slot in front of position `p`: `head` for the first node, else the previous node's `next`. */
    ghost function SlotAt(p: nat): Slot
      reads this
      requires p <= |nodes|
    {
      if p == 0 then Head else After(nodes[p - 1])
    }

    /** `**cursor.0`: the pointer held by a slot. */
    function Deref(s: Slot): Node?
      reads this, if s.After? then {s.node} else {}
    {
      if s.Head? then head else s.node.next
    }

    /** The slot in front of position `p` holds the node at `p`, or null at the end. */
    lemma DerefAt(p: nat)
      requires Chain(nodes, head) && p <= |nodes|
      ensures Deref(SlotAt(p)) == if p < |nodes| then nodes[p] else null
    {
      if p > 0 {
        assert nodes[p - 1].next == Successor(nodes, p - 1);
      }
    }

    /** Distinct positions hold distinct nodes, since their data differ. */
    lemma NodesDistinct()
      requires Valid()
      ensures forall i, j :: 0 <= i < j < |nodes| ==> nodes[i] != nodes[j]
    {
      forall i, j | 0 <= i < j < |nodes|
        ensures nodes[i] != nodes[j]
      {
        assert DataOf(nodes)[i] < DataOf(nodes)[j];
      }
    }

    /** `OrderedListSet::new`: an empty list. */
    constructor ()
      ensures Valid() && Elements() == [] && head == null && nodes == []
    {
      head := null;
      nodes := [];
    }

    /**
     * `Cursor::find` from the cursor at position `start`: follow `next` pointers until
     * the node is null, equal to `key` (found) or greater than `key` (not found).
     */
    method CursorFind(key: int, start: Slot, ghost p0: nat) returns (found: bool, cursor: Slot, ghost p: nat)
      requires Valid() && p0 <= |nodes| && start == SlotAt(p0)
      ensures p0 <= p <= |nodes| && cursor == SlotAt(p)
      ensures forall q :: p0 <= q < p ==> Elements()[q] < key
      ensures p < |nodes| ==> Elements()[p] >= key
      ensures found <==> p < |nodes| && Elements()[p] == key
    {
      cursor, p := start, p0;
      while true
        invariant p0 <= p <= |nodes| && cursor == SlotAt(p)
        invariant forall q :: p0 <= q < p ==> Elements()[q] < key
        decreases |nodes| - p
      {
        DerefAt(p);
        var ptr := Deref(cursor);
        if ptr == null {
          return false, cursor, p;
        }
        if ptr.data == key {
          return true, cursor, p;
        } else if ptr.data > key {
          return false, cursor, p;
        }
        cursor, p := After(ptr), p + 1;
      }
    }

    /** `OrderedListSet::find`: a cursor at `head`, moved to `key`'s position. */
    method Find(key: int) returns (found: bool, cursor: Slot, ghost p: nat)
      requires Valid()
      ensures InsertionPoint(Elements(), p, key) && cursor == SlotAt(p)
      ensures found <==> key in Elements()
      ensures found ==> Elements()[p] == key
    {
      found, cursor, p := CursorFind(key, Head, 0);
      InsertionPointFinds(Elements(), p, key);
    }

    /** `contains`: whether `key` is an element of the set. */
    method Contains(key: int) returns (b: bool)
      requires Valid()
      ensures b <==> key in Elements()
    {
      var found, _, _ := Find(key);
      b := found;
    }

    /**
     * `insert`: an absent key is linked in a new node in front of the first larger
     * element; a present key is handed back in `Err`.
     */
    method Insert(key: int) returns (r: Result<(), int>)
      requires Valid()
      modifies this, nodes
      ensures Valid()
      ensures old(key in Elements()) ==> r == Err(key) && Elements() == old(Elements()) && head == old(head)
      ensures old(key !in Elements()) ==> r == Ok(()) && Elements() == InsertSorted(old(Elements()), key)
      ensures forall n :: n in nodes ==> n in old(nodes) || fresh(n)
    {
      var found, cursor, p := Find(key);
      if found {
        return Err(key);
      }
      ghost var s := Elements();
      InsertSortedAt(s, p, key);
      InsertSortedKeepsOrder(s, key);
      InsertSortedElements(s, key);
      LinkNode(key, cursor, p);
      r := Ok(());
    }

    /** `*cursor.0 = Node::new(key, *cursor.0)`: link a new node into the slot in front of position `p`. */
    method LinkNode(key: int, cursor: Slot, ghost p: nat)
      requires Valid() && p <= |nodes| && cursor == SlotAt(p)
      requires StrictlySorted(Elements()[..p] + [key] + Elements()[p..])
      modifies this, nodes
      ensures Valid() && Elements() == old(Elements()[..p] + [key] + Elements()[p..])
      ensures forall n :: n in nodes ==> n in old(nodes) || fresh(n)
    {
      ghost var ns := nodes;
      NodesDistinct();
      DerefAt(p);
      var n := new Node(key, Deref(cursor));
      if cursor.Head? {
        head := n;
      } else {
        cursor.node.next := n;
      }
      assert forall i :: 0 <= i < |ns| && i != p - 1 ==> ns[i].next == Successor(ns, i) by {
        forall i | 0 <= i < |ns| && i != p - 1
          ensures ns[i].next == Successor(ns, i)
        {
          assert old(ns[i].next) == Successor(ns, i);
          assert p == 0 || ns[i] != ns[p - 1];
        }
      }
      ChainInsert(ns, p, n, head);
      DataOfInsert(ns, p, n);
      nodes := ns[..p] + [n] + ns[p..];
    }

    /** `remove`: unlink the node holding `key` and hand its data back, or `Err(())` when absent. */
    method Remove(key: int) returns (r: Result<int, ()>)
      requires Valid()
      modifies this, nodes
      ensures Valid()
      ensures old(key in Elements()) ==> r == Ok(key) && Elements() == RemoveSorted(old(Elements()), key)
      ensures old(key !in Elements()) ==> r == Err(()) && Elements() == old(Elements()) && head == old(head)
      ensures forall n :: n in nodes ==> n in old(nodes)
    {
      var found, cursor, p := Find(key);
      if !found {
        return Err(());
      }
      ghost var s := Elements();
      RemoveSortedAt(s, p, key);
      RemoveSortedKeepsOrder(s, key);
      RemoveSortedElements(s, key);
      var data := UnlinkNode(cursor, p);
      r := Ok(data);
    }

    /**
     * The unlinking step of `remove`: the slot in front of position `p` takes over the
     * node's `next`, and the node's data is returned.
     */
    method UnlinkNode(cursor: Slot, ghost p: nat) returns (data: int)
      requires Valid() && p < |nodes| && cursor == SlotAt(p)
      requires StrictlySorted(Elements()[..p] + Elements()[p + 1..])
      modifies this, nodes
      ensures data == old(Elements()[p])
      ensures Valid() && Elements() == old(Elements()[..p] + Elements()[p + 1..])
      ensures forall n :: n in nodes ==> n in old(nodes)
    {
      ghost var ns := nodes;
      NodesDistinct();
      DerefAt(p);
      var node := Deref(cursor);
      var succ := node.next;
      assert succ == Successor(ns, p);
      if cursor.Head? {
        head := succ;
      } else {
        cursor.node.next := succ;
      }
      assert forall i :: 0 <= i < |ns| && i != p - 1 ==> ns[i].next == Successor(ns, i) by {
        forall i | 0 <= i < |ns| && i != p - 1
          ensures ns[i].next == Successor(ns, i)
        {
          assert old(ns[i].next) == Successor(ns, i);
          assert p == 0 || ns[i] != ns[p - 1];
        }
      }
      ChainRemove(ns, p, head);
      DataOfRemove(ns, p);
      nodes := ns[..p] + ns[p + 1..];
      data := node.data;
    }

    /** `iter`: an iterator holding the cursor at `head`. */
    method Iter() returns (it: ListIter)
      requires Valid()
      ensures fresh(it) && it.Valid() && it.list == this && it.yielded == [] && !it.Done()
    {
      it := new ListIter(this);
    }

    /**
     * `Drop::drop`: free the node at `head` and move `head` to its successor until it is
     * null. Returns, as a ghost log, the nodes in the order they were freed.
     */
    method Drop() returns (ghost freed: seq<Node>)
      requires Valid()
      modifies this
      ensures head == null && Elements() == []
      ensures freed == old(nodes)
    {
      freed := [];
      while head != null
        invariant Chain(nodes, head) && old(nodes) == freed + nodes
        decreases |nodes|
      {
        MoveFirst(freed, nodes);
        var node := FreeHead();
        freed := freed + [node];
      }
    }

    /** One round of `drop`'s loop: `Box::from_raw(*np)`, then `*np = *next`. */
    method FreeHead() returns (node: Node)
      requires Chain(nodes, head) && head != null
      modifies this
      ensures Chain(nodes, head) && old(nodes) == [node] + nodes
    {
      node := head;
      ChainTail(nodes, head);
      head := node.next;
      nodes := nodes[1..];
    }
  }

  /** `Iter`: `Some(guard)` on a slot of the list until the end is reached, then `None`. */
  class ListIter {
    const list: OrderedListSet
    var guard: Option<Slot>
    /** How many elements have been yielded, and which. */
    ghost var pos: nat
    ghost var yielded: seq<int>

    ghost predicate Valid()
      reads this, list, list.nodes
    {
      && list.Valid()
      && pos <= |list.nodes|
      && yielded == list.Elements()[..pos]
      && (guard.Some? ==> guard.value == list.SlotAt(pos))
      && (guard.None? ==> pos == |list.nodes|)
    }

    /** What has been yielded so far is ascending and drawn from the set. */
    lemma YieldedAscending()
      requires Valid()
      ensures StrictlySorted(yielded)
      ensures forall x :: x in yielded ==> x in list.Elements()
    {
    }

    /** The iterator has returned `None` and will only return `None` from now on. */
    ghost predicate Done()
      reads this
    {
      guard.None?
    }

    constructor (list: OrderedListSet)
      requires list.Valid()
      ensures this.list == list && Valid() && yielded == [] && !Done()
    {
      this.list := list;
      guard := Some(Head);
      pos := 0;
      yielded := [];
    }

    /**
     * `Iter::next`: the data of the node the guard points at, moving the guard to that
     * node's `next`; at the end, drop the guard and return `None`.
     */
    method Next() returns (r: Option<int>)
      requires Valid()
      modifies this
      ensures Valid()
      ensures r.Some? <==> old(pos) < |list.nodes|
      ensures r.Some? ==> r.value == list.Elements()[old(pos)] && yielded == old(yielded) + [r.value] && !Done()
      ensures r.None? ==> Done() && yielded == list.Elements()
    {
      match guard {
        case Some(slot) =>
          list.DerefAt(pos);
          var ptr := list.Deref(slot);
          if ptr == null {
            guard := None;
            r := None;
          } else {
            guard := Some(After(ptr));
            pos := pos + 1;
            yielded := yielded + [ptr.data];
            assert list.Elements()[..pos] == list.Elements()[..pos - 1] + [ptr.data];
            r := Some(ptr.data);
          }
        case None =>
          r := None;
      }
    }
  }
}
