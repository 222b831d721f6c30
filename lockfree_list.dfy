/**
 * The sorted list of `lockfree::list` that the split-ordered list is built on, seen
 * sequentially: a sequence of nodes in strictly ascending key order. Its implementation
 * (Harris's marking, `find_harris`, `Cursor::insert`/`delete`) is not part of this model;
 * a cursor is the position of its current node, and the operations below are the abstract
 * effect each of those calls has when no other thread interferes.
 */
module LockfreeList {
  import opened RustTypes

  datatype Node<V> = Node(key: nat, value: V)

  /** The key of the node at position `i`. */
  function KeyAt<V>(list: seq<Node<V>>, i: nat): nat
    requires i < |list|
  {
    list[i].key
  }

  /**
   * Keys strictly ascend, so each key occurs at most once. (The trigger keeps the solver
   * from comparing every pair of positions it sees; a proof that needs the order names
   * the positions with `KeyAt`.)
   */
  ghost predicate Sorted<V>(list: seq<Node<V>>)
  {
    forall i, j {:trigger KeyAt(list, i), KeyAt(list, j)} :: 0 <= i < j < |list| ==> KeyAt(list, i) < KeyAt(list, j)
  }

  ghost function Keys<V>(list: seq<Node<V>>): set<nat>
  {
    set n | n in list :: n.key
  }

  /**
   * `p` is where a search for `x` leaves the cursor: every node before it has a smaller
   * key, and its node (if any) has a key at least `x`.
   */
  ghost predicate InsertionPoint<V>(list: seq<Node<V>>, p: nat, x: nat)
  {
    && p <= |list|
    && (forall q :: 0 <= q < p ==> list[q].key < x)
    && (p < |list| ==> list[p].key >= x)
  }

  /**
   * `cursor.find_harris(x)` from the cursor at `start`: advance to the first node whose
   * key is at least `x`, or to the end of the list.
   */
  function Seek<V>(list: seq<Node<V>>, start: nat, x: nat): (p: nat)
    requires start <= |list|
    ensures start <= p <= |list|
    ensures forall q :: start <= q < p ==> list[q].key < x
    ensures p < |list| ==> list[p].key >= x
    decreases |list| - start
  {
    if start == |list| || list[start].key >= x then start else Seek(list, start + 1, x)
  }

  /** A search that starts at a node not after `x` stops where a search of the whole list would. */
  lemma SeekFrom<V>(list: seq<Node<V>>, start: nat, x: nat)
    requires Sorted(list) && start < |list| && list[start].key <= x
    ensures InsertionPoint(list, Seek(list, start, x), x)
  {
    var p := Seek(list, start, x);
    forall q | 0 <= q < start
      ensures list[q].key < x
    {
      assert KeyAt(list, q) < KeyAt(list, start);
    }
  }

  /** In a sorted list the search finds `x` exactly when `x` is one of its keys. */
  lemma InsertionPointFinds<V>(list: seq<Node<V>>, p: nat, x: nat)
    requires Sorted(list) && InsertionPoint(list, p, x)
    ensures x in Keys(list) <==> p < |list| && list[p].key == x
  {
    if x in Keys(list) {
      var n :| n in list && n.key == x;
      var i :| 0 <= i < |list| && list[i] == n;
      assert p < i ==> KeyAt(list, p) < KeyAt(list, i);
    }
    if p < |list| && list[p].key == x {
      assert list[p] in list;
    }
  }

  /** `Cursor::insert` at `p`: link `n` in front of the cursor's node. */
  function InsertAt<V>(list: seq<Node<V>>, p: nat, n: Node<V>): (r: seq<Node<V>>)
    requires p <= |list|
    ensures |r| == |list| + 1 && r[p] == n
    ensures forall i :: 0 <= i < p ==> r[i] == list[i]
    ensures forall i :: p < i < |r| ==> r[i] == list[i - 1]
  {
    list[..p] + [n] + list[p..]
  }

  /** `Cursor::delete` at `p`: unlink the cursor's node. */
  function RemoveAt<V>(list: seq<Node<V>>, p: nat): (r: seq<Node<V>>)
    requires p < |list|
    ensures |r| == |list| - 1
    ensures forall i :: 0 <= i < p ==> r[i] == list[i]
    ensures forall i :: p <= i < |r| ==> r[i] == list[i + 1]
  {
    list[..p] + list[p + 1..]
  }

  /** Inserting a new key at its insertion point keeps the list sorted. */
  lemma InsertAtSorted<V>(list: seq<Node<V>>, p: nat, n: Node<V>)
    requires Sorted(list) && InsertionPoint(list, p, n.key) && n.key !in Keys(list)
    ensures Sorted(InsertAt(list, p, n))
  {
    InsertionPointFinds(list, p, n.key);
    var r := InsertAt(list, p, n);
    forall i, j | 0 <= i < j < |r|
      ensures KeyAt(r, i) < KeyAt(r, j)
    {
      if j < p {
        assert KeyAt(list, i) < KeyAt(list, j);
      } else if i > p {
        assert KeyAt(list, i - 1) < KeyAt(list, j - 1);
      } else if i < p && j > p {
        assert KeyAt(list, i) < KeyAt(list, j - 1);
      } else if i < p {
        assert KeyAt(list, i) < n.key;
      } else {
        assert n.key != list[p].key;
        assert p < j - 1 ==> KeyAt(list, p) < KeyAt(list, j - 1);
      }
    }
  }

  /** The inserted list holds the old nodes and the new one, and nothing else. */
  lemma InsertAtElements<V>(list: seq<Node<V>>, p: nat, n: Node<V>)
    requires p <= |list|
    ensures forall m :: m in InsertAt(list, p, n) <==> m in list || m == n
    ensures Keys(InsertAt(list, p, n)) == Keys(list) + {n.key}
  {
    var r := InsertAt(list, p, n);
    forall m
      ensures m in r <==> m in list || m == n
    {
      if m in list {
        var i :| 0 <= i < |list| && list[i] == m;
        if i < p { assert r[i] == m; } else { assert r[i + 1] == m; }
      }
      if m in r {
        var i :| 0 <= i < |r| && r[i] == m;
        if i < p { assert list[i] == m; } else if i > p { assert list[i - 1] == m; }
      }
    }
  }

  /** Unlinking a node keeps the list sorted. */
  lemma RemoveAtSorted<V>(list: seq<Node<V>>, p: nat)
    requires Sorted(list) && p < |list|
    ensures Sorted(RemoveAt(list, p))
  {
    var r := RemoveAt(list, p);
    forall i, j | 0 <= i < j < |r|
      ensures KeyAt(r, i) < KeyAt(r, j)
    {
      var i', j' := if i < p then i else i + 1, if j < p then j else j + 1;
      assert KeyAt(list, i') < KeyAt(list, j');
    }
  }

  /** Unlinking the node at `p` of a sorted list removes exactly its key and keeps every other node. */
  lemma RemoveAtElements<V>(list: seq<Node<V>>, p: nat)
    requires Sorted(list) && p < |list|
    ensures Keys(RemoveAt(list, p)) == Keys(list) - {list[p].key}
    ensures forall m :: m in list && m != list[p] ==> m in RemoveAt(list, p)
    ensures forall m :: m in RemoveAt(list, p) ==> m in list
  {
    var r := RemoveAt(list, p);
    forall m | m in list && m != list[p]
      ensures m in r
    {
      var i :| 0 <= i < |list| && list[i] == m;
      if i < p { assert r[i] == m; } else { assert r[i - 1] == m; }
    }
    forall m | m in r
      ensures m in list
    {
      var i :| 0 <= i < |r| && r[i] == m;
      if i < p { assert list[i] == m; } else { assert list[i + 1] == m; }
    }
    forall x | x in Keys(r)
      ensures x != list[p].key
    {
      var i :| 0 <= i < |r| && r[i].key == x;
      if i < p {
        assert KeyAt(list, i) < KeyAt(list, p);
      } else {
        assert KeyAt(list, p) < KeyAt(list, i + 1);
      }
    }
  }
}
