/**
 * Growable array (homework/src/hash_table/growable_array.rs): a radix tree of
 * 1024-slot segments. The root pointer is tagged with the tree height; a segment of
 * height 1 holds element addresses, a higher one holds child segments of height one
 * less. `get` raises the height until the index fits, then descends one 10-bit digit
 * per level, creating missing segments, and returns the leaf slot.
 *
 * The pointer tag is modelled as the segment's `height` field (every pointer to a
 * segment carries the same tag). A segment also carries a ghost `prefix`: the index
 * bits above its own level, so that a segment of height h with prefix p covers the
 * indices p * 2^(10h) .. (p + 1) * 2^(10h) - 1.
 */
module GrowableArrays {
  import opened Bits

  const SEGMENT_LOGSIZE: nat := 10
  /** `1 << SEGMENT_LOGSIZE`; index arithmetic below writes the two constants out as 1024 and 10. */
  const SEGMENT_SIZE: nat := 1024

  /** The machine word in a slot: null, a child segment, or an element's address. */
  datatype Slot = Null | Child(seg: Segment) | Elem(ptr: nat)

  /** The `&Atomic<T>` that `get` hands out: slot `idx` of a height-1 segment. */
  datatype SlotRef = SlotRef(seg: Segment, idx: nat)

  /** Where the descent currently reads the next segment from: `self.root` or a slot. */
  datatype Link = RootLink | SlotLink(seg: Segment, idx: nat)

  /** Number of indices below one segment of height `h`: 2^(10h). */
  function Span(h: nat): nat
  {
    Pow2(10 * h)
  }

  /** `x >> (10 * k)`: the bits of `x` above its lowest `k` digits. */
  function Shift(x: nat, k: nat): nat
  {
    if k == 0 then x else Shift(x, k - 1) / 1024
  }

  /** `(index >> ((height - 1) * 10)) & mask`: the slot to take at `height`. */
  function Digit(index: nat, height: nat): (r: nat)
    requires height >= 1
    ensures r < SEGMENT_SIZE
  {
    Shift(index, height - 1) % 1024
  }

  lemma SpanStep(h: nat)
    requires h >= 1
    ensures Span(h) == Span(h - 1) * 1024
  {
    Pow2Add(10 * (h - 1), SEGMENT_LOGSIZE);
    assert Pow2(SEGMENT_LOGSIZE) == SEGMENT_SIZE;
  }

  lemma Regroup(b: nat, c: nat, q2: nat, r2: nat)
    ensures b * (c * q2 + r2) == (b * c) * q2 + b * r2
  {
  }

  lemma RemainderFits(b: nat, c: nat, r2: nat, r: nat)
    requires r < b && r2 < c
    ensures b * r2 + r < b * c
  {
    MulGap(b, r2, c);
  }

  /** Dividing by b and then by c is dividing by b * c. */
  lemma DivDiv(a: nat, b: nat, c: nat)
    requires b >= 1 && c >= 1
    ensures a / (b * c) == (a / b) / c
  {
    var q, r := QuotientRemainder(a, b);
    var q2, r2 := QuotientRemainder(q, c);
    Regroup(b, c, q2, r2);
    RemainderFits(b, c, r2, r);
    DivUnique(a, b * c, q2, b * r2 + r);
  }

  /** Shifting right by `k` digits divides by 2^(10k). */
  lemma {:induction false} ShiftIsDivision(x: nat, k: nat)
    ensures Shift(x, k) == x / Span(k)
  {
    if k > 0 {
      ShiftIsDivision(x, k - 1);
      SpanStep(k);
      DivDiv(x, Span(k - 1), SEGMENT_SIZE);
    }
  }

  /** Slot `j` of `s` is on the path from the root to `index`. */
  ghost predicate OnPath(s: Segment, j: nat, index: nat)
    requires s.height >= 1
  {
    s.prefix * 1024 + j == Shift(index, s.height - 1)
  }

  /**
   * One level of the descent: in a segment whose prefix is `index`'s bits above its level,
   * the slot `get` takes is on the path to `index`; in a leaf segment that slot is `index`'s.
   */
  lemma DescentStep(index: nat, s: Segment)
    requires s.height >= 1 && s.prefix == Shift(index, s.height)
    ensures OnPath(s, Digit(index, s.height), index)
    ensures s.height == 1 ==> s.prefix * 1024 + Digit(index, s.height) == index
  {
  }

  /**
   * What slot `j` of `s` may hold: a child one level down covering the `j`-th part of
   * `s`'s range, in a segment of height at least 2; in a leaf segment, the element stored
   * at that index, or null when none is.
   */
  ghost predicate SlotFits(v: Slot, s: Segment, j: nat, segs: set<Segment>, leaves: map<nat, nat>)
  {
    match v
    case Null => s.height >= 2 || s.prefix * 1024 + j !in leaves
    case Elem(p) => s.height == 1 && s.prefix * 1024 + j in leaves && leaves[s.prefix * 1024 + j] == p
    case Child(c) => s.height >= 2 && c in segs && c.height + 1 == s.height && c.prefix == s.prefix * 1024 + j
  }

  /** `p` sits one level above `s` and its range contains `s`'s. */
  ghost predicate ParentFits(s: Segment, p: Segment)
  {
    p.height == s.height + 1 && p.prefix == s.prefix / 1024
  }

  /** No two segments cover the same index range. */
  ghost predicate UniquePositions(ss: set<Segment>)
  {
    forall s, t {:trigger s in ss, t in ss} :: s in ss && t in ss && s.height == t.height && s.prefix == t.prefix ==> s == t
  }

  /** No two segments share a slot array. */
  ghost predicate DistinctSlots(ss: set<Segment>)
  {
    forall s, t {:trigger s in ss, t in ss} :: s in ss && t in ss && s != t ==> s.slots != t.slots
  }

  /** Every installed segment's slot array lies in `repr`, and no two segments share one. */
  ghost predicate Framed(ss: set<Segment>, repr: set<object>)
  {
    && DistinctSlots(ss)
    && forall s {:trigger s in ss} :: s in ss ==> s.slots in repr && s.slots.Length == SEGMENT_SIZE
  }

  lemma FramedAdd(ss: set<Segment>, repr: set<object>, c: Segment)
    requires Framed(ss, repr) && c.slots !in repr && c.slots.Length == SEGMENT_SIZE
    ensures Framed(ss + {c}, repr + {c.slots})
  {
  }

  /** The 1024 zeroed words of `Segment::new`. */
  ghost function NullSlots(): (r: seq<Slot>)
    ensures |r| == SEGMENT_SIZE && forall j :: 0 <= j < SEGMENT_SIZE ==> r[j] == Null
  {
    seq(SEGMENT_SIZE, _ => Null)
  }

  /**
   * The abstract state of the tree: the segments installed so far, what their slots hold,
   * which segment holds each one, and the abstract array (index to stored element address)
   * together with the leaf segment that stores each index.
   */
  datatype Tree = Tree(segs: set<Segment>, contents: map<Segment, seq<Slot>>, parentOf: map<Segment, Segment>,
                       leaves: map<nat, nat>, leafOf: map<nat, Segment>)

  function HeightOf(root: Segment?): nat
  {
    if root == null then 0 else root.height
  }

  /** Every installed segment has a height between 1 and the root's, and 1024 slots. */
  ghost predicate SegsSized(root: Segment?, t: Tree)
  {
    forall s {:trigger s in t.segs} :: s in t.segs ==>
      1 <= s.height <= HeightOf(root) && s in t.contents && |t.contents[s]| == SEGMENT_SIZE
  }

  /** Every slot of every installed segment fits its position. */
  ghost predicate SlotsFit(t: Tree)
    requires forall s {:trigger s in t.segs} :: s in t.segs ==> s in t.contents && |t.contents[s]| == SEGMENT_SIZE
  {
    forall s, j {:trigger t.contents[s][j]} :: s in t.segs && 0 <= j < SEGMENT_SIZE ==>
      SlotFits(t.contents[s][j], s, j, t.segs, t.leaves)
  }

  /** The root covers the whole range; without a root there is nothing. */
  ghost predicate RootAnchored(root: Segment?, t: Tree)
  {
    && (root == null ==> t.segs == {} && t.leaves == map[])
    && (root != null ==> root in t.segs && root.prefix == 0)
  }

  /** Every segment but the root hangs from the right slot of a parent one level up. */
  ghost predicate ParentsLinked(root: Segment?, t: Tree)
    requires forall s {:trigger s in t.segs} :: s in t.segs ==> s in t.contents && |t.contents[s]| == SEGMENT_SIZE
  {
    && (forall s {:trigger s in t.segs} :: s in t.segs && s != root ==> s in t.parentOf)
    && (forall s {:trigger t.parentOf[s]} :: s in t.segs && s != root && s in t.parentOf ==>
          t.parentOf[s] in t.segs && ParentFits(s, t.parentOf[s]) &&
          t.contents[t.parentOf[s]][s.prefix % 1024] == Child(s))
  }

  /** Every stored index has its leaf segment. */
  ghost predicate LeavesLocated(t: Tree)
  {
    forall i {:trigger i in t.leaves} :: i in t.leaves ==>
      i in t.leafOf && t.leafOf[i] in t.segs && t.leafOf[i].height == 1 && t.leafOf[i].prefix == i / 1024
  }

  /**
   * The tree below `root` is well formed: every slot fits its position, positions are
   * unique, every segment but the root hangs from a parent one level up, and every stored
   * index has its leaf segment.
   */
  ghost predicate Shaped(root: Segment?, t: Tree)
  {
    && SegsSized(root, t)
    && SlotsFit(t)
    && UniquePositions(t.segs)
    && RootAnchored(root, t)
    && ParentsLinked(root, t)
    && LeavesLocated(t)
  }

  /** What a root one level taller holds: the previous root (a null word if none) in slot 0. */
  ghost function RootSlots(current: Segment?): seq<Slot>
  {
    NullSlots()[0 := if current == null then Null else Child(current)]
  }

  /** The tree once `newRoot` has been installed above `current`. */
  ghost function WithRoot(t: Tree, current: Segment?, newRoot: Segment): Tree
  {
    Tree(t.segs + {newRoot}, t.contents[newRoot := RootSlots(current)],
         if current == null then t.parentOf else t.parentOf[current := newRoot], t.leaves, t.leafOf)
  }

  /** The tree once the fresh `child` has been installed in slot `j` of `s`. */
  ghost function WithChild(t: Tree, s: Segment, j: nat, child: Segment): Tree
    requires s in t.contents && j < |t.contents[s]|
  {
    Tree(t.segs + {child}, t.contents[s := t.contents[s][j := Child(child)]][child := NullSlots()],
         t.parentOf[child := s], t.leaves, t.leafOf)
  }

  /** Installing a taller root over the current one keeps the tree well formed. */
  lemma WithRootShaped(t: Tree, current: Segment?, newRoot: Segment)
    requires Shaped(current, t) && newRoot !in t.segs
    requires newRoot.height == HeightOf(current) + 1 && newRoot.prefix == 0
    ensures Shaped(newRoot, WithRoot(t, current, newRoot))
  {
    var t' := WithRoot(t, current, newRoot);
    forall s, j | s in t'.segs && 0 <= j < SEGMENT_SIZE
      ensures SlotFits(t'.contents[s][j], s, j, t'.segs, t'.leaves)
    {
      if s != newRoot {
        assert t'.contents[s][j] == t.contents[s][j];
      }
    }
  }

  /**
   * No segment sits below a null slot: the position a fresh child would take there is
   * free, and if that child is a leaf segment, no element index falls into it yet.
   */
  lemma NullSlotHasNoSegment(root: Segment?, t: Tree, s: Segment, j: nat)
    requires Shaped(root, t) && s in t.segs && s.height >= 2 && j < SEGMENT_SIZE && t.contents[s][j] == Null
    ensures forall c :: c in t.segs && c.height + 1 == s.height ==> c.prefix != s.prefix * 1024 + j
    ensures s.height == 2 ==> forall i :: i in t.leaves ==> i / 1024 != s.prefix * 1024 + j
  {
    var cp := s.prefix * 1024 + j;
    DivUnique(cp, SEGMENT_SIZE, s.prefix, j);
    forall c | c in t.segs && c.height + 1 == s.height
      ensures c.prefix != cp
    {
      assert c != root;
      var p := t.parentOf[c];
      assert ParentFits(c, p);
    }
  }

  lemma WithChildSlotsFit(root: Segment?, t: Tree, s: Segment, j: nat, child: Segment)
    requires SegsSized(root, t) && SlotsFit(t) && s in t.segs && s.height >= 2 && j < SEGMENT_SIZE
    requires child.height + 1 == s.height && child.prefix == s.prefix * 1024 + j
    requires s.height == 2 ==> forall i :: i in t.leaves ==> i / 1024 != child.prefix
    ensures SegsSized(root, WithChild(t, s, j, child)) && SlotsFit(WithChild(t, s, j, child))
  {
    var t' := WithChild(t, s, j, child);
    forall c, k | c in t'.segs && 0 <= k < SEGMENT_SIZE
      ensures SlotFits(t'.contents[c][k], c, k, t'.segs, t'.leaves)
    {
      if c == child {
        DivUnique(child.prefix * 1024 + k, SEGMENT_SIZE, child.prefix, k);
      } else if c != s || k != j {
        assert t'.contents[c][k] == t.contents[c][k];
      }
    }
  }

  lemma WithChildParentsLinked(root: Segment?, t: Tree, s: Segment, j: nat, child: Segment)
    requires SegsSized(root, t) && ParentsLinked(root, t) && s in t.segs && s.height >= 2 && j < SEGMENT_SIZE
    requires t.contents[s][j] == Null && child !in t.segs && child != root
    requires child.height + 1 == s.height && child.prefix == s.prefix * 1024 + j
    ensures ParentsLinked(root, WithChild(t, s, j, child))
  {
    var t' := WithChild(t, s, j, child);
    forall c | c in t'.segs && c != root && c in t'.parentOf
      ensures t'.parentOf[c] in t'.segs && ParentFits(c, t'.parentOf[c]) &&
              t'.contents[t'.parentOf[c]][c.prefix % 1024] == Child(c)
    {
      if c == child {
        DivUnique(child.prefix, SEGMENT_SIZE, s.prefix, j);
      } else {
        var p := t.parentOf[c];
        assert p != s || c.prefix % 1024 != j;
      }
    }
  }

  /** Installing a fresh child below a null slot keeps the tree well formed. */
  lemma WithChildShaped(root: Segment?, t: Tree, s: Segment, j: nat, child: Segment)
    requires Shaped(root, t) && s in t.segs && s.height >= 2 && j < SEGMENT_SIZE && t.contents[s][j] == Null
    requires child !in t.segs && child.height + 1 == s.height && child.prefix == s.prefix * 1024 + j
    ensures Shaped(root, WithChild(t, s, j, child))
  {
    NullSlotHasNoSegment(root, t, s, j);
    WithChildSlotsFit(root, t, s, j, child);
    WithChildParentsLinked(root, t, s, j, child);
  }

  function Max(a: nat, b: nat): nat
  {
    if a < b then b else a
  }

  /** The height `get` raises the tree to for `numbits` significant bits: the fewest 10-bit digits, at least one. */
  function NeededHeightOf(numbits: nat): (h: nat)
    ensures h >= 1
    ensures forall k: nat {:trigger 10 * k} :: (k >= 1 && numbits <= 10 * k) <==> h <= k
  {
    var c := (numbits + 10 - 1) / 10;
    if c == 0 then 1 else c
  }

  /** A word never needs more than 7 levels, so the height always fits a 3-bit pointer tag. */
  lemma NeededHeightBound(index: nat)
    requires index < WORD_LIMIT
    ensures NeededHeightOf(BitLength(index)) <= 7
  {
    WordLimits();
    BitLengthFits(index, WORD_BITS);
  }

  /**
   * `t1` grew out of `t0` without overwriting anything: every segment is still installed,
   * every non-null slot still holds the same word, and the stored elements are the same.
   */
  ghost predicate Extends(t0: Tree, t1: Tree)
  {
    && t0.segs <= t1.segs
    && t0.leaves == t1.leaves
    && (forall s {:trigger s in t0.segs} :: s in t0.segs ==>
          s in t0.contents && s in t1.contents && |t0.contents[s]| == |t1.contents[s]|)
    && (forall s, j {:trigger t0.contents[s][j]} ::
          s in t0.segs && s in t0.contents && 0 <= j < |t0.contents[s]| && t0.contents[s][j] != Null ==>
            s in t1.contents && j < |t1.contents[s]| && t1.contents[s][j] == t0.contents[s][j])
  }

  lemma ExtendsTransitive(t0: Tree, t1: Tree, t2: Tree)
    requires Extends(t0, t1) && Extends(t1, t2)
    ensures Extends(t0, t2)
  {
    forall s, j | s in t0.segs && s in t0.contents && 0 <= j < |t0.contents[s]| && t0.contents[s][j] != Null
      ensures s in t2.contents && j < |t2.contents[s]| && t2.contents[s][j] == t0.contents[s][j]
    {
      assert t1.contents[s][j] == t0.contents[s][j];
    }
  }

  lemma WithRootExtends(root: Segment?, t: Tree, newRoot: Segment)
    requires SegsSized(root, t) && newRoot !in t.segs
    ensures Extends(t, WithRoot(t, root, newRoot))
  {
  }

  lemma WithChildExtends(root: Segment?, t: Tree, s: Segment, j: nat, child: Segment)
    requires SegsSized(root, t) && s in t.segs && j < SEGMENT_SIZE && t.contents[s][j] == Null && child !in t.segs
    ensures Extends(t, WithChild(t, s, j, child))
  {
    var t' := WithChild(t, s, j, child);
    forall c, k | c in t.segs && c in t.contents && 0 <= k < |t.contents[c]| && t.contents[c][k] != Null
      ensures c in t'.contents && k < |t'.contents[c]| && t'.contents[c][k] == t.contents[c][k]
    {
      if c == s {
        assert k != j;
      }
    }
  }

  /** The index a leaf slot stands for. */
  ghost function IndexOf(r: SlotRef): nat
  {
    r.seg.prefix * 1024 + r.idx
  }

  /** `r` is a slot of an installed leaf segment: what `get` hands out. */
  ghost predicate IsLeafSlot(t: Tree, r: SlotRef)
  {
    r.seg in t.segs && r.seg.height == 1 && r.idx < SEGMENT_SIZE
  }

  /**
   * Leaf slots and indices correspond one to one: the same index always reaches the same
   * slot, and distinct indices reach distinct slots.
   */
  lemma SameIndexSameSlot(root: Segment?, t: Tree, r1: SlotRef, r2: SlotRef)
    requires Shaped(root, t) && IsLeafSlot(t, r1) && IsLeafSlot(t, r2)
    ensures r1 == r2 <==> IndexOf(r1) == IndexOf(r2)
  {
    if IndexOf(r1) == IndexOf(r2) {
      DivUnique(IndexOf(r1), SEGMENT_SIZE, r1.seg.prefix, r1.idx);
      DivUnique(IndexOf(r2), SEGMENT_SIZE, r2.seg.prefix, r2.idx);
    }
  }

  /** The tree once address `p` has been stored in slot `j` of the leaf segment `s`. */
  ghost function WithLeaf(t: Tree, s: Segment, j: nat, p: nat): Tree
    requires s in t.contents && j < |t.contents[s]|
  {
    Tree(t.segs, t.contents[s := t.contents[s][j := Elem(p)]], t.parentOf,
         t.leaves[s.prefix * 1024 + j := p], t.leafOf[s.prefix * 1024 + j := s])
  }

  /** Storing into a leaf slot keeps the tree well formed. */
  lemma WithLeafShaped(root: Segment?, t: Tree, s: Segment, j: nat, p: nat)
    requires Shaped(root, t) && s in t.segs && s.height == 1 && j < SEGMENT_SIZE
    ensures Shaped(root, WithLeaf(t, s, j, p))
  {
    var t' := WithLeaf(t, s, j, p);
    var i := s.prefix * 1024 + j;
    DivUnique(i, SEGMENT_SIZE, s.prefix, j);
    forall c, k | c in t'.segs && 0 <= k < SEGMENT_SIZE
      ensures SlotFits(t'.contents[c][k], c, k, t'.segs, t'.leaves)
    {
      if c != s || k != j {
        assert t'.contents[c][k] == t.contents[c][k];
      }
    }
  }

  /** No segment occurs twice. */
  ghost predicate Distinct(xs: seq<Segment>)
  {
    forall i, k :: 0 <= i < k < |xs| ==> xs[i] != xs[k]
  }

  lemma DistinctConcat(a: seq<Segment>, b: seq<Segment>)
    requires Distinct(a) && Distinct(b) && forall x :: x in a ==> x !in b
    ensures Distinct(a + b)
  {
    forall i, k | 0 <= i < k < |a + b|
      ensures (a + b)[i] != (a + b)[k]
    {
      if k >= |a| && i < |a| {
        assert (a + b)[k] in b;
      }
    }
  }

  /**
   * The segments `recursive_drop(s)` frees, in the order it frees them: for each slot in
   * turn, the child's own segments and then the child. A leaf segment frees nothing.
   */
  ghost function Subtree(t: Tree, s: Segment): seq<Segment>
    decreases s.height, 1
  {
    if s.height >= 2 then DropUpTo(t, s, SEGMENT_SIZE) else []
  }

  /** What the loop of `recursive_drop(s)` has freed after its first `n` slots. */
  ghost function DropUpTo(t: Tree, s: Segment, n: nat): seq<Segment>
    decreases s.height, 0, n
  {
    if n == 0 then [] else DropUpTo(t, s, n - 1) + DropSlot(t, s, n - 1)
  }

  /** What the loop of `recursive_drop(s)` frees for slot `j`: the child's segments, then the child. */
  ghost function DropSlot(t: Tree, s: Segment, j: nat): seq<Segment>
    decreases s.height, 0, j
  {
    if s in t.contents && j < |t.contents[s]| && t.contents[s][j].Child? && t.contents[s][j].seg.height < s.height
    then Subtree(t, t.contents[s][j].seg) + [t.contents[s][j].seg]
    else []
  }

  /** One slot of the loop of `recursive_drop(s)`: a null slot frees nothing, a child frees its subtree and itself. */
  lemma DropSlotStep(t: Tree, s: Segment, j: nat, v: Slot)
    requires s in t.contents && j < |t.contents[s]| && v == t.contents[s][j]
    requires s.height >= 2 && SlotFits(v, s, j, t.segs, t.leaves)
    ensures v == Null || (v.Child? && v.seg in t.segs && v.seg.height < s.height)
    ensures DropUpTo(t, s, j + 1) == DropUpTo(t, s, j) + (if v == Null then [] else Subtree(t, v.seg) + [v.seg])
  {
  }

  /** What `drop` frees: everything below the root, then the root. */
  ghost function DropOrder(t: Tree, root: Segment?): seq<Segment>
  {
    if root == null then [] else Subtree(t, root) + [root]
  }

  /** `x` lies in the range of `s`, at a lower level. */
  ghost predicate Below(x: Segment, s: Segment)
  {
    x.height < s.height && Shift(x.prefix, s.height - x.height) == s.prefix
  }

  lemma {:induction false} ShiftShift(x: nat, k: nat)
    ensures Shift(x / 1024, k) == Shift(x, k + 1)
  {
    if k > 0 {
      ShiftShift(x, k - 1);
    }
  }

  /**
   * The loop of `recursive_drop(s)` frees each segment at most once, and after `n` slots
   * only installed segments lower than `s` that hang below its first `n` slots.
   */
  lemma {:induction false} DropUpToSound(root: Segment?, t: Tree, s: Segment, n: nat)
    requires Shaped(root, t) && s in t.segs && s.height >= 2 && n <= SEGMENT_SIZE
    ensures Distinct(DropUpTo(t, s, n))
    ensures forall x :: x in DropUpTo(t, s, n) ==>
      x in t.segs && x.height < s.height &&
      s.prefix * 1024 <= Shift(x.prefix, s.height - 1 - x.height) < s.prefix * 1024 + n
    decreases s.height, n
  {
    if n > 0 {
      var j := n - 1;
      DropUpToSound(root, t, s, j);
      var v := t.contents[s][j];
      assert SlotFits(v, s, j, t.segs, t.leaves);
      if v.Child? {
        var c := v.seg;
        var below := Subtree(t, c);
        if c.height >= 2 {
          DropUpToSound(root, t, c, SEGMENT_SIZE);
          forall x | x in below
            ensures Shift(x.prefix, s.height - 1 - x.height) == c.prefix
          {
            var y := Shift(x.prefix, c.height - 1 - x.height);
            DivUnique(y, SEGMENT_SIZE, c.prefix, y - c.prefix * 1024);
            assert c.height - x.height == (c.height - 1 - x.height) + 1;
          }
        }
        DistinctConcat(below, [c]);
        DistinctConcat(DropUpTo(t, s, j), below + [c]);
      }
    }
  }

  /** Some installed segment at every level between `x` and the root contains `x`. */
  lemma {:induction false} AncestorAt(root: Segment?, t: Tree, x: Segment, h: nat) returns (a: Segment)
    requires Shaped(root, t) && x in t.segs && x.height <= h <= HeightOf(root)
    ensures a in t.segs && a.height == h && a.prefix == Shift(x.prefix, h - x.height)
    decreases h - x.height
  {
    if h == x.height {
      a := x;
    } else {
      var p := t.parentOf[x];
      a := AncestorAt(root, t, p, h);
      ShiftShift(x.prefix, h - p.height);
    }
  }

  lemma {:induction false} DropSlotInDropUpTo(t: Tree, s: Segment, j: nat, n: nat, x: Segment)
    requires j < n && x in DropSlot(t, s, j)
    ensures x in DropUpTo(t, s, n)
    decreases n
  {
    if j < n - 1 {
      DropSlotInDropUpTo(t, s, j, n - 1, x);
    }
  }

  /** Every installed segment lower than `s` in its range is freed by `recursive_drop(s)`. */
  lemma {:induction false} SubtreeComplete(root: Segment?, t: Tree, s: Segment, x: Segment)
    requires Shaped(root, t) && s in t.segs && x in t.segs && Below(x, s)
    ensures x in Subtree(t, s)
    decreases s.height
  {
    var a := AncestorAt(root, t, x, s.height - 1);
    var p := t.parentOf[a];
    ShiftShift(a.prefix, 0);
    assert p == s by {
      ShiftShift(x.prefix, s.height - 1 - x.height);
    }
    var j := a.prefix % 1024;
    if x != a {
      SubtreeComplete(root, t, a, x);
    }
    DropSlotInDropUpTo(t, s, j, SEGMENT_SIZE, x);
  }

  /** Every installed segment but the root lies below the root. */
  lemma BelowRoot(root: Segment?, t: Tree, x: Segment)
    requires Shaped(root, t) && x in t.segs && x != root
    ensures root != null && Below(x, root)
  {
    var a := AncestorAt(root, t, x, root.height);
  }

  /** `drop` frees every installed segment exactly once, and nothing else. */
  lemma DropFreesAll(root: Segment?, t: Tree)
    requires Shaped(root, t)
    ensures Distinct(DropOrder(t, root))
    ensures forall x :: x in DropOrder(t, root) <==> x in t.segs
  {
    if root != null {
      var below := Subtree(t, root);
      if root.height >= 2 {
        DropUpToSound(root, t, root, SEGMENT_SIZE);
      }
      DistinctConcat(below, [root]);
      forall x | x in t.segs && x != root
        ensures x in below
      {
        BelowRoot(root, t, x);
        SubtreeComplete(root, t, root, x);
      }
    }
  }

  class Segment {
    /** The tag carried by every pointer to this segment. */
    const height: nat
    ghost const prefix: nat
    const slots: array<Slot>

    /** `Segment::new` (all slots zeroed), tagged with `height`. */
    constructor (height: nat, ghost prefix: nat)
      ensures this.height == height && this.prefix == prefix
      ensures fresh(slots) && slots.Length == SEGMENT_SIZE
      ensures forall j :: 0 <= j < SEGMENT_SIZE ==> slots[j] == Null
    {
      this.height := height;
      this.prefix := prefix;
      slots := new Slot[SEGMENT_SIZE](_ => Null);
    }

    /**
     * The new root of the first loop of `get`: a zeroed segment tagged one above `current`,
     * whose slot 0 holds `current` (a null word when there is no root yet).
     */
    constructor Above(current: Segment?)
      ensures height == HeightOf(current) + 1 && prefix == 0
      ensures fresh(slots) && slots[..] == RootSlots(current)
    {
      height := HeightOf(current) + 1;
      prefix := 0;
      var a := new Slot[SEGMENT_SIZE](_ => Null);
      a[0] := if current == null then Null else Child(current);
      slots := a;
    }
  }

  class GrowableArray {
    var root: Segment?
    /** The segments installed so far and what they hold. */
    ghost var tree: Tree
    /** Segments deallocated so far, in order. */
    ghost var freed: seq<Segment>
    ghost var Repr: set<object>

    ghost function RootHeight(): nat
      reads this`root
    {
      HeightOf(root)
    }

    /** The abstract array: index to the address stored at that index. */
    ghost function Elements(): map<nat, nat>
      reads this`tree
    {
      tree.leaves
    }

    /** The slot arrays in the heap hold what the abstract tree says they hold. */
    ghost predicate Mirrored()
      reads this`tree, this`Repr, Repr
    {
      && Framed(tree.segs, Repr)
      && (forall s {:trigger s in tree.segs} :: s in tree.segs ==> s in tree.contents && s.slots[..] == tree.contents[s])
    }

    ghost predicate Valid()
      reads this, Repr
    {
      Shaped(root, tree) && Mirrored()
    }

    /** `GrowableArray::new`: a null root of height 0. */
    constructor ()
      ensures Valid() && fresh(Repr)
      ensures root == null && RootHeight() == 0 && tree.segs == {} && Elements() == map[] && freed == []
    {
      root := null;
      tree := Tree({}, map[], map[], map[], map[]);
      freed := [];
      Repr := {};
    }

    /**
     * `self.root.compare_and_set(current, new_root)`: installs a root one level taller
     * whose slot 0 holds the previous root; on failure the new segment is discarded.
     */
    method CompareAndSetRoot(current: Segment?, newRoot: Segment) returns (ok: bool)
      requires Valid()
      requires newRoot !in tree.segs && newRoot.slots !in Repr && newRoot.slots.Length == SEGMENT_SIZE
      requires newRoot.height == HeightOf(current) + 1 && newRoot.prefix == 0
      requires newRoot.slots[..] == RootSlots(current)
      modifies this
      ensures Valid()
      ensures ok <==> old(root) == current
      ensures ok ==> root == newRoot && tree == WithRoot(old(tree), current, newRoot) && Repr == old(Repr) + {newRoot.slots}
      ensures !ok ==> root == old(root) && tree == old(tree) && Repr == old(Repr)
      ensures freed == old(freed)
    {
      ok := root == current;
      if ok {
        WithRootShaped(tree, current, newRoot);
        FramedAdd(tree.segs, Repr, newRoot);
        root, tree, Repr := newRoot, WithRoot(tree, current, newRoot), Repr + {newRoot.slots};
      }
    }

    /**
     * `parent.compare_and_set(null, child)` on slot `j` of `s`: installs the fresh child if
     * the slot is still null; either way returns the segment the slot now holds.
     */
    method CompareAndSetSlot(s: Segment, j: nat, child: Segment) returns (ok: bool, cur: Segment)
      requires Valid() && s in tree.segs && s.height >= 2 && j < SEGMENT_SIZE
      requires child !in tree.segs && child.slots !in Repr && child.slots.Length == SEGMENT_SIZE
      requires child.height + 1 == s.height && child.prefix == s.prefix * 1024 + j
      requires child.slots[..] == NullSlots()
      modifies this, s.slots
      ensures Valid()
      ensures ok <==> old(tree.contents[s][j]) == Null
      ensures ok ==> cur == child && tree == WithChild(old(tree), s, j, child) && Repr == old(Repr) + {child.slots}
      ensures !ok ==> tree == old(tree) && Repr == old(Repr) && Child(cur) == tree.contents[s][j]
      ensures root == old(root) && freed == old(freed)
    {
      ok := s.slots[j] == Null;
      if ok {
        InstallChild(s, j, child);
        cur := child;
      } else {
        assert s.slots[j] == tree.contents[s][j] by {
          assert s.slots[..] == tree.contents[s];
        }
        assert SlotFits(tree.contents[s][j], s, j, tree.segs, tree.leaves);
        cur := s.slots[j].seg;
      }
    }

    /** The successful case of `CompareAndSetSlot`: the fresh child goes into the null slot. */
    method InstallChild(s: Segment, j: nat, child: Segment)
      requires Valid() && s in tree.segs && s.height >= 2 && j < SEGMENT_SIZE && tree.contents[s][j] == Null
      requires child !in tree.segs && child.slots !in Repr && child.slots.Length == SEGMENT_SIZE
      requires child.height + 1 == s.height && child.prefix == s.prefix * 1024 + j
      requires child.slots[..] == NullSlots()
      modifies this, s.slots
      ensures Valid() && tree == WithChild(old(tree), s, j, child) && Repr == old(Repr) + {child.slots}
      ensures root == old(root) && freed == old(freed)
    {
      WithChildShaped(root, tree, s, j, child);
      FramedAdd(tree.segs, Repr, child);
      s.slots[j], tree, Repr := Child(child), WithChild(tree, s, j, child), Repr + {child.slots};
      forall t | t in tree.segs
        ensures t.slots[..] == tree.contents[t]
      {
        if t != child && t != s {
          assert t.slots != s.slots;
        }
      }
    }

    /** The tree is tall enough for every index whose bits fit in its digits. */
    lemma CoversIndex(index: nat)
      requires root != null && BitLength(index) <= 10 * root.height
      ensures index < Span(root.height) && Shift(index, root.height) == 0
    {
      BitLengthFits(index, 10 * root.height);
      DivUnique(index, Span(root.height), 0, index);
      ShiftIsDivision(index, root.height);
    }

    /**
     * The first loop of `get`: while the root is null or too short for `numbits` bits, try
     * to install a root one level taller above it.
     */
    method GrowToFit(numbits: nat)
      requires Valid()
      modifies this
      ensures Valid() && fresh(Repr - old(Repr)) && Extends(old(tree), tree) && freed == old(freed)
      ensures root != null && root.height == Max(old(RootHeight()), NeededHeightOf(numbits))
    {
      while root == null || numbits > 10 * root.height
        invariant Valid() && fresh(Repr - old(Repr)) && Extends(old(tree), tree) && freed == old(freed)
        invariant old(RootHeight()) <= RootHeight() <= Max(old(RootHeight()), NeededHeightOf(numbits))
        decreases NeededHeightOf(numbits) - RootHeight()
      {
        var current := root;
        var newRoot := new Segment.Above(current);
        ghost var t0 := tree;
        var ok := CompareAndSetRoot(current, newRoot);
        WithRootExtends(current, t0, newRoot);
        ExtendsTransitive(old(tree), t0, tree);
      }
    }

    /**
     * One step of the second loop of `get` below a segment: load slot `j` of `s` and, if it
     * is null, try to install a fresh zeroed segment tagged one level lower; either way
     * continue with the segment the slot holds.
     */
    method LoadOrInstall(s: Segment, j: nat, ghost index: nat) returns (c: Segment)
      requires Valid() && s in tree.segs && s.height >= 2 && j < SEGMENT_SIZE
      requires OnPath(s, j, index)
      modifies this, s.slots
      ensures Valid() && fresh(Repr - old(Repr)) && Extends(old(tree), tree)
      ensures root == old(root) && freed == old(freed)
      ensures c in tree.segs && c.height + 1 == s.height && c.prefix == s.prefix * 1024 + j
      ensures c.prefix == Shift(index, c.height)
    {
      var w := s.slots[j];
      if w == Null {
        var newSeg := new Segment(s.height - 1, s.prefix * 1024 + j);
        ghost var t0 := tree;
        var ok;
        ok, c := CompareAndSetSlot(s, j, newSeg);
        if ok {
          WithChildExtends(root, t0, s, j, newSeg);
        }
      } else {
        assert SlotFits(tree.contents[s][j], s, j, tree.segs, tree.leaves);
        c := w.seg;
      }
      assert SlotFits(tree.contents[s][j], s, j, tree.segs, tree.leaves);
    }

    /**
     * The second loop of `get`: from the root, which already covers `index`, descend one
     * digit per level, creating missing segments, to the leaf slot of `index`.
     */
    method Descend(index: nat) returns (r: SlotRef)
      requires Valid() && root != null && Shift(index, root.height) == 0
      modifies this, Repr
      ensures Valid() && fresh(Repr - old(Repr)) && Extends(old(tree), tree)
      ensures root == old(root) && freed == old(freed)
      ensures IsLeafSlot(tree, r) && IndexOf(r) == index
    {
      var parent: Link := RootLink;
      var height := root.height;
      while true
        invariant Valid() && fresh(Repr - old(Repr)) && Extends(old(tree), tree)
        invariant root == old(root) && freed == old(freed)
        invariant parent.RootLink? ==> height == root.height
        invariant parent.SlotLink? ==>
          && parent.seg in tree.segs && parent.seg.height >= 2 && parent.idx < SEGMENT_SIZE
          && OnPath(parent.seg, parent.idx, index)
        decreases if parent.RootLink? then root.height + 1 else parent.seg.height
      {
        var segment: Segment;
        match parent {
          case RootLink =>
            segment := root;
          case SlotLink(ps, pj) =>
            ghost var t0 := tree;
            segment := LoadOrInstall(ps, pj, index);
            ExtendsTransitive(old(tree), t0, tree);
        }
        height := segment.height;
        var segIdx := Digit(index, height);
        DescentStep(index, segment);
        if height != 1 {
          parent := SlotLink(segment, segIdx);
        } else {
          return SlotRef(segment, segIdx);
        }
      }
    }

    /**
     * `get`: raises the tree until `index` fits, then descends to the leaf slot of `index`.
     */
    method Get(index: nat) returns (r: SlotRef)
      requires Valid() && index < WORD_LIMIT
      modifies this, Repr
      ensures Valid() && fresh(Repr - old(Repr)) && Extends(old(tree), tree) && freed == old(freed)
      ensures RootHeight() == Max(old(RootHeight()), NeededHeightOf(BitLength(index))) && index < Span(RootHeight())
      ensures IsLeafSlot(tree, r) && IndexOf(r) == index
    {
      var numbits := WORD_BITS - LeadingZeros(index);
      GrowToFit(numbits);
      CoversIndex(index);
      ghost var t0 := tree;
      r := Descend(index);
      ExtendsTransitive(old(tree), t0, tree);
    }

    /** `load` on a slot `get` returned: the address stored at its index, or null. */
    method Load(r: SlotRef) returns (v: Slot)
      requires Valid() && IsLeafSlot(tree, r)
      ensures v == Null <==> IndexOf(r) !in Elements()
      ensures v != Null ==> v == Elem(Elements()[IndexOf(r)])
    {
      v := r.seg.slots[r.idx];
      assert v == tree.contents[r.seg][r.idx];
      assert SlotFits(tree.contents[r.seg][r.idx], r.seg, r.idx, tree.segs, tree.leaves);
    }

    /** `store` of address `p` into a slot `get` returned: the array maps its index to `p`. */
    method Store(r: SlotRef, p: nat)
      requires Valid() && IsLeafSlot(tree, r)
      modifies this, r.seg.slots
      ensures Valid() && Repr == old(Repr) && root == old(root) && freed == old(freed)
      ensures tree == WithLeaf(old(tree), r.seg, r.idx, p)
      ensures Elements() == old(Elements())[IndexOf(r) := p]
    {
      WithLeafShaped(root, tree, r.seg, r.idx, p);
      r.seg.slots[r.idx], tree := Elem(p), WithLeaf(tree, r.seg, r.idx, p);
      forall t | t in tree.segs
        ensures t.slots[..] == tree.contents[t]
      {
        if t != r.seg {
          assert t.slots != r.seg.slots;
        }
      }
    }

    /**
     * `recursive_drop`: in a segment of height at least 2, free each child's segments and
     * then the child, slot by slot. The elements in leaf slots are never freed.
     */
    method RecursiveDrop(s: Segment, ghost top: Segment?)
      requires Shaped(top, tree) && Mirrored() && s in tree.segs
      modifies this`freed
      ensures freed == old(freed) + Subtree(tree, s)
      decreases s.height
    {
      var height := s.height;
      if height >= 2 {
        for j := 0 to SEGMENT_SIZE
          invariant freed == old(freed) + DropUpTo(tree, s, j)
        {
          var u := s.slots[j];
          assert u == tree.contents[s][j] && SlotFits(u, s, j, tree.segs, tree.leaves) by {
            assert s.slots[..] == tree.contents[s];
          }
          DropSlotStep(tree, s, j, u);
          if u != Null {
            RecursiveDrop(u.seg, top);
            freed := freed + [u.seg];
          }
        }
      }
    }

    /** `Drop::drop`: swap the root out for null and, if there was one, free the whole tree. */
    method Drop()
      requires Valid()
      modifies this
      ensures root == null && tree == old(tree) && Repr == old(Repr)
      ensures freed == old(freed) + DropOrder(tree, old(root))
    {
      var segment := root;
      root := null;
      if HeightOf(segment) > 0 {
        RecursiveDrop(segment, segment);
        freed := freed + [segment];
      }
    }
  }
}
