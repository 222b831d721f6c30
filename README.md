# Sequential model of the `homework` data structures

This project models four pieces of the `homework` crate's concurrent data structures, run
single-threaded, and proves what each promises.

- **Segmented growable array** (`hash_table/growable_array.rs`). This is a radix tree of
  1024-slot segments. The root's height says how many 10-bit digits of an index the tree
  resolves. `get(index)` first raises the height until the index fits. Each raise puts a
  new root above the old one, holding the old root in slot 0. `get` then descends one digit
  per level, creating missing segments on the way, and returns the leaf slot for the index.
  Dropping the array frees every segment but never the elements stored in leaf slots.
- **Split-ordered hash map** (`hash_table/split_ordered_list.rs`). This is the Shalev–Shavit
  map. All items live in one sorted list, ordered by bit-reversed keys. Bucket `i` starts at
  a sentinel node whose key is `reverse_bits(i)`. A data key `k` is stored under
  `reverse_bits(k) | 1`. A key's bucket is `k % size`. Buckets are created lazily from their
  parent bucket, which is the index with its highest set bit cleared. `size` doubles when
  the item count passes `size * LOAD_FACTOR`.
- **Sorted linked set** (`list_set.rs`). A singly linked list in strictly ascending order
  with a cursor search, insert, remove, an in-order iterator and teardown.
- **Retired-pointer buffer** (`hazard_pointer/retire.rs`). `retire` pushes an untagged
  pointer. Once the buffer is longer than 64, `collect` frees every entry that no hazard
  pointer protects and keeps the rest.

Layout:

| file | module | contents |
|---|---|---|
| `rust_types.dfy` | `RustTypes` | `Option`, `Result` |
| `bits.dfy` | `Bits` | powers of two, bit length, leading zeros, highest set bit, 64-bit `reverse_bits` |
| `growable_array.dfy` | `GrowableArrays` | classes `Segment` and `GrowableArray` over `array<Slot>` segments |
| `lockfree_list.dfy` | `LockfreeList` | the external `lockfree::list`, as a sorted sequence of `(key, value)` nodes |
| `split_order.dfy` | `SplitOrder` | sentinel and ordering keys, and the facts about bit reversal the map relies on |
| `split_ordered_list.dfy` | `SplitOrderedLists` | class `SplitOrderedList` |
| `list_set.dfy` | `ListSet` | classes `Node`, `OrderedListSet` and `ListIter` over a heap chain of nodes |
| `retire.dfy` | `Retire` | class `Retirees` |

Modelling choices:

- Every compare-and-swap is an atomic step, and each contract states both of its outcomes.
  In a single-threaded run the CAS steps that `get`, `insert`, `delete` and
  `initialize_bucket` rely on always succeed.
- A segment's height is an explicit `const` field. In the source it is the tag of the
  pointer to the segment.
- The growable array's ghost `tree` records the segments, their slot contents, which slot
  points at which segment, and the leaf elements. A ghost log records freed segments.
- The map's list is a `seq` of `(ordering key, Option<V>)` nodes. A node is identified by
  its ordering key, which is unique in the list. So the bucket index stores the sentinel's
  key where the source stores its address.
- The hazard set `collect` reads from `Hazards::all_hazards` is a parameter. Every
  `free::<T>` call is appended to a ghost log.

## Model

| member | source | states |
|---|---|---|
| `Bits.LeadingZeros` | homework/src/hash_table/split_ordered_list.rs:128 | `leading_zeros` of a 64-bit word is 0 exactly when its top bit is set |
| `Bits.BitLengthFits` | homework/src/hash_table/growable_array.rs:205 | `64 - leading_zeros(x)` is at most `n` exactly when `x < 2^n` |
| `Bits.HighBit` | homework/src/hash_table/split_ordered_list.rs:92-101 | the highest set bit of a positive word is a power of two `r` with `r <= x < 2r` |
| `Bits.ReverseBitsBound` | homework/src/hash_table/split_ordered_list.rs:102-104 | `reverse_bits` on `n` bits stays below `2^n` |
| `Bits.ReverseBitsInvolutive` | homework/src/hash_table/split_ordered_list.rs:102-104 | reversing twice gives back the word |
| `Bits.ReverseBitsInjective` | homework/src/hash_table/split_ordered_list.rs:102-104 | distinct words have distinct reversals |
| `Bits.ReverseBitsParity` | homework/src/hash_table/split_ordered_list.rs:102-104 | a reversal is even exactly when the word's top bit is clear |
| `Bits.ReverseBitsSplit` | homework/src/hash_table/split_ordered_list.rs:102-104 | reversing `lo + hi * 2^m` puts the reversed low `m` bits on top of the reversed high part |
| `SplitOrder.SetLowBit` | homework/src/hash_table/split_ordered_list.rs:106 | `x \| 1` is odd and is `x` or `x + 1`, namely `x + 1` for even `x` |
| `SplitOrder.AssertValidKey` | homework/src/hash_table/split_ordered_list.rs:127-129 | the assertion `leading_zeros != 0` holds exactly for keys below `2^63` |
| `SplitOrder.SentinelKey` | homework/src/hash_table/split_ordered_list.rs:102-104 | a sentinel key is a 64-bit word; `SentinelKeyInjective` and `SentinelKeyEven` state that distinct buckets get distinct, even keys |
| `SplitOrder.OrdKey` | homework/src/hash_table/split_ordered_list.rs:105-107 | an ordering key is an odd 64-bit word, so it never collides with a sentinel key; `OrdKeyShape` states it is the reversal plus one |
| `SplitOrder.SentinelKeyEven` | homework/src/hash_table/split_ordered_list.rs:102-104 | sentinel keys of valid indices are even |
| `SplitOrder.OrdKeyShape` | homework/src/hash_table/split_ordered_list.rs:105-107 | a data key's ordering key is its reversal plus one, odd and within 64 bits |
| `SplitOrder.SentinelAndOrdKeysDiffer` | homework/src/hash_table/split_ordered_list.rs:102-107 | no sentinel key equals an ordering key |
| `SplitOrder.SentinelKeyInjective` | homework/src/hash_table/split_ordered_list.rs:102-104 | distinct bucket indices get distinct sentinel keys |
| `SplitOrder.OrdKeyInjective` | homework/src/hash_table/split_ordered_list.rs:105-107 | distinct valid keys get distinct ordering keys |
| `SplitOrder.OrdKeyOnto` | homework/src/hash_table/split_ordered_list.rs:105-107 | every odd 64-bit word is the ordering key of some valid key |
| `SplitOrder.KeyInBucket` | homework/src/hash_table/split_ordered_list.rs:116-120 | with `size = 2^m`, key `k`'s ordering key is its bucket's sentinel key followed by low bits that no sentinel uses |
| `SplitOrder.SplitOrderSeparates` | homework/src/hash_table/split_ordered_list.rs:116-120 | with `size = 2^m`: the sentinel of bucket `k % size` precedes `k`'s ordering key, and no other bucket's sentinel lies between them |
| `SplitOrder.ParentSentinelPrecedes` | homework/src/hash_table/split_ordered_list.rs:92-101 | the parent bucket's sentinel precedes the bucket's own sentinel |
| `LockfreeList.Seek` | homework/src/hash_table/split_ordered_list.rs:120 | the search from a cursor stops at the first node whose key is not below the target |
| `LockfreeList.SeekFrom` | homework/src/hash_table/split_ordered_list.rs:120 | in a sorted list, a search started at or before the target finds the insertion point of the whole list |
| `LockfreeList.InsertionPointFinds` | homework/src/hash_table/split_ordered_list.rs:120-121 | the search reports `found` exactly when the key is in the list |
| `LockfreeList.InsertAt` | homework/src/hash_table/split_ordered_list.rs:152 | `cursor.insert` puts the node at the cursor and shifts the rest |
| `LockfreeList.RemoveAt` | homework/src/hash_table/split_ordered_list.rs:170 | `cursor.delete` removes the node at the cursor and shifts the rest |
| `LockfreeList.InsertAtSorted` | homework/src/hash_table/split_ordered_list.rs:152 | inserting an absent key at its insertion point keeps the list sorted |
| `LockfreeList.InsertAtElements` | homework/src/hash_table/split_ordered_list.rs:152 | the inserted list holds the old nodes plus the new one |
| `LockfreeList.RemoveAtSorted` | homework/src/hash_table/split_ordered_list.rs:170 | removing a node keeps the list sorted |
| `LockfreeList.RemoveAtElements` | homework/src/hash_table/split_ordered_list.rs:170 | removing a node takes away its key and keeps every other node |
| `GrowableArrays.Digit` | homework/src/hash_table/growable_array.rs:238 | `(index >> ((h - 1) * 10)) & 1023` lies within a segment |
| `GrowableArrays.ShiftIsDivision` | homework/src/hash_table/growable_array.rs:238 | shifting right by `10k` bits is division by `1024^k` |
| `GrowableArrays.DescentStep` | homework/src/hash_table/growable_array.rs:237-245 | the digit taken at height `h` selects the child on the index's path, and at height 1 the leaf slot is the index itself |
| `GrowableArrays.NeededHeightOf` | homework/src/hash_table/growable_array.rs:205-210 | the height the grow loop stops at is the least `h >= 1` with `numbits <= 10h` |
| `GrowableArrays.NeededHeightBound` | homework/src/hash_table/growable_array.rs:205-210 | a 64-bit index never needs more than 7 levels |
| `GrowableArrays.Segment.constructor` | homework/src/hash_table/growable_array.rs:146-150 | `Segment::new` has 1024 null slots |
| `GrowableArrays.Segment.Above` | homework/src/hash_table/growable_array.rs:211-212 | a new root has height `old height + 1` and holds the old root in slot 0 and null elsewhere |
| `GrowableArrays.GrowableArray.constructor` | homework/src/hash_table/growable_array.rs:195-200 | a new array has a null root, height 0, no elements and nothing freed |
| `GrowableArrays.GrowableArray.CompareAndSetRoot` | homework/src/hash_table/growable_array.rs:214-217 | the root CAS installs the new root exactly when the root is still the one read; otherwise nothing changes |
| `GrowableArrays.GrowableArray.CompareAndSetSlot` | homework/src/hash_table/growable_array.rs:226-235 | a child is installed only into a null slot; otherwise the current child is returned and nothing changes |
| `GrowableArrays.GrowableArray.InstallChild` | homework/src/hash_table/growable_array.rs:229-234 | the successful slot CAS stores the fresh child into the null slot and records it in the tree |
| `GrowableArrays.WithRootExtends` | homework/src/hash_table/growable_array.rs:211-212 | raising the root keeps every existing segment, slot and element |
| `GrowableArrays.WithChildExtends` | homework/src/hash_table/growable_array.rs:229 | installing a child into a null slot keeps every existing segment, slot and element |
| `GrowableArrays.ExtendsTransitive` | homework/src/hash_table/growable_array.rs:207-246 | growth steps compose: what was addressable stays addressable, to the same slot |
| `GrowableArrays.WithRootShaped` | homework/src/hash_table/growable_array.rs:211-212 | raising the root keeps heights dropping by one per level and every segment on its index's path |
| `GrowableArrays.WithChildShaped` | homework/src/hash_table/growable_array.rs:228-234 | a child of height `h - 1` under a height-`h` segment keeps the tree well shaped |
| `GrowableArrays.WithLeafShaped` | homework/src/hash_table/growable_array.rs:244 | storing an element into a leaf slot keeps the tree well shaped |
| `GrowableArrays.SameIndexSameSlot` | homework/src/hash_table/growable_array.rs:237-244 | two leaf slots are the same exactly when they stand for the same index |
| `GrowableArrays.GrowableArray.GrowToFit` | homework/src/hash_table/growable_array.rs:205-221 | after the grow loop the root is non-null, its height is the old height or the needed height, whichever is larger, and the tree only grew |
| `GrowableArrays.GrowableArray.CoversIndex` | homework/src/hash_table/growable_array.rs:210 | once `numbits <= height * 10`, the index is below the capacity `1024^height` |
| `GrowableArrays.GrowableArray.LoadOrInstall` | homework/src/hash_table/growable_array.rs:226-237 | one descent step yields the child on the index's path, one level lower, creating it only if the slot was null |
| `GrowableArrays.GrowableArray.Descend` | homework/src/hash_table/growable_array.rs:223-246 | the descent ends at the leaf slot whose index is `index` |
| `GrowableArrays.GrowableArray.Get` | homework/src/hash_table/growable_array.rs:204-247 | `get(index)` returns the leaf slot for `index`, the height covers `index`, and existing slots and elements are untouched |
| `GrowableArrays.GrowableArray.Load` | homework/src/hash_table/growable_array.rs:244 | reading a leaf slot gives null or the element stored at that index |
| `GrowableArrays.GrowableArray.Store` | homework/src/hash_table/growable_array.rs:244 | writing a leaf slot updates exactly that index's element |
| `GrowableArrays.GrowableArray.RecursiveDrop` | homework/src/hash_table/growable_array.rs:249-264 | freeing below a segment frees exactly the segments of its subtree, in slot order |
| `GrowableArrays.GrowableArray.Drop` | homework/src/hash_table/growable_array.rs:173-185 | dropping nulls the root and frees the segments in drop order and nothing else |
| `GrowableArrays.DropFreesAll` | homework/src/hash_table/growable_array.rs:120-121 | the drop order lists every segment exactly once and no element |
| `SplitOrderedLists.MapOfHas` | homework/src/hash_table/split_ordered_list.rs:16-17 | a key is in the map exactly when its ordering key is in the list |
| `SplitOrderedLists.ValueOfNode` | homework/src/hash_table/split_ordered_list.rs:138 | the value found at a node is the value the map holds for its key |
| `SplitOrderedLists.MapOfInsertData` | homework/src/hash_table/split_ordered_list.rs:151-152 | linking a data node adds exactly that key and value to the map |
| `SplitOrderedLists.MapOfInsertSentinel` | homework/src/hash_table/split_ordered_list.rs:79-80 | linking a sentinel leaves the map unchanged |
| `SplitOrderedLists.MapOfRemoveData` | homework/src/hash_table/split_ordered_list.rs:170 | unlinking a data node removes exactly its key from the map |
| `SplitOrderedLists.InitialList` | homework/src/hash_table/split_ordered_list.rs:28-32 | the initial list of one key-0 sentinel is a valid, empty map with bucket 0 linked |
| `SplitOrderedLists.SentinelFound` | homework/src/hash_table/split_ordered_list.rs:55-60 | an initialised bucket's stored key locates its sentinel node in the list |
| `SplitOrderedLists.BucketZero` | homework/src/hash_table/split_ordered_list.rs:66-70 | bucket 0 is always initialised, so the recursion of `initialize_bucket` stops there |
| `SplitOrderedLists.SentinelLinked` | homework/src/hash_table/split_ordered_list.rs:79-83 | linking a new sentinel keeps the list sorted and split-ordered and adds just its key |
| `SplitOrderedLists.DataLinked` | homework/src/hash_table/split_ordered_list.rs:151-152 | linking a data node keeps every invariant and adds the key to the map |
| `SplitOrderedLists.DataUnlinked` | homework/src/hash_table/split_ordered_list.rs:170 | unlinking a data node keeps every invariant and removes the key from the map |
| `SplitOrderedLists.MapOfSize` | homework/src/hash_table/split_ordered_list.rs:11 | the map never holds more than `2^63` keys |
| `SplitOrderedLists.DoublingFits` | homework/src/hash_table/split_ordered_list.rs:155-156 | when the doubling test passes, `size << 1` is a power of two that cannot overflow |
| `SplitOrderedLists.SplitOrderedList.constructor` | homework/src/hash_table/split_ordered_list.rs:26-40 | a new map is empty with `size == 2`, `count == 0` and bucket 0 at the key-0 sentinel |
| `SplitOrderedLists.InitialBuckets` | homework/src/hash_table/split_ordered_list.rs:29-32 | the new bucket index caches exactly bucket 0, at the key-0 sentinel |
| `SplitOrderedLists.LoadBucket` | homework/src/hash_table/split_ordered_list.rs:55-56 | the load is null exactly when the bucket is not cached, and otherwise gives its cached address; the cached buckets do not change |
| `SplitOrderedLists.StoreBucket` | homework/src/hash_table/split_ordered_list.rs:82 | the store caches the address for that bucket and leaves every other bucket as it was |
| `SplitOrderedLists.SplitOrderedList.SizeIsPow2` | homework/src/hash_table/split_ordered_list.rs:21 | the bucket count is a power of two, at least 2 |
| `SplitOrderedLists.SplitOrderedList.GetParent` | homework/src/hash_table/split_ordered_list.rs:92-101 | the parent of bucket 0 is 0, and any other bucket's parent is the index with its highest set bit cleared, which is smaller |
| `SplitOrderedLists.SplitOrderedList.LookupBucket` | homework/src/hash_table/split_ordered_list.rs:54-62 | yields a cursor at bucket `index`'s sentinel, leaving the map unchanged |
| `SplitOrderedLists.SplitOrderedList.InitializeBucket` | homework/src/hash_table/split_ordered_list.rs:63-91 | yields a cursor at bucket `index`'s sentinel, creating it if missing, leaving the map unchanged |
| `SplitOrderedLists.SplitOrderedList.InitializeRound` | homework/src/hash_table/split_ordered_list.rs:65-90 | after one round the sentinel is in the list, and the round reports it found only if it was there already |
| `SplitOrderedLists.SplitOrderedList.ParentCursor` | homework/src/hash_table/split_ordered_list.rs:66-73 | yields a cursor at the parent bucket's sentinel |
| `SplitOrderedLists.SplitOrderedList.LinkSentinel` | homework/src/hash_table/split_ordered_list.rs:79-83 | links the sentinel at the search position and records it in the bucket index |
| `SplitOrderedLists.SplitOrderedList.Find` | homework/src/hash_table/split_ordered_list.rs:111-125 | returns the `size` it read, and reports found exactly when the key is in the map, with the cursor at its node or insertion point |
| `SplitOrderedLists.SplitOrderedList.Lookup` | homework/src/hash_table/split_ordered_list.rs:133-142 | the value stored under the key, or `None` |
| `SplitOrderedLists.SplitOrderedList.Insert` | homework/src/hash_table/split_ordered_list.rs:144-163 | a present key gives `Err(value)` with nothing changed. An absent key gives `Ok(())`, the map gains the key and `count` grows by 1. `size` doubles exactly when the old count exceeded `size * 2` |
| `SplitOrderedLists.SplitOrderedList.Delete` | homework/src/hash_table/split_ordered_list.rs:165-178 | a present key gives `Ok(value)`, the key leaves the map and `count` drops by 1. An absent key gives `Err(())` with nothing changed |
| `SplitOrderedLists.SplitOrderedList.LinkData` | homework/src/hash_table/split_ordered_list.rs:151-154 | links the data node at the cursor and returns the count from before the increment |
| `SplitOrderedLists.SplitOrderedList.UnlinkData` | homework/src/hash_table/split_ordered_list.rs:170-173 | unlinks the data node at the cursor, returns its value and decrements `count` |
| `SplitOrderedLists.SplitOrderedList.DoubleSize` | homework/src/hash_table/split_ordered_list.rs:155-157 | `size` doubles exactly when it still equals the size `find` read |
| `ListSet.Node.constructor` | homework/src/list_set.rs:28-33 | a new node holds the data and the given successor |
| `ListSet.ChainInsert` | homework/src/list_set.rs:85 | pointing a link at a new node whose successor is the old target inserts that node into the chain |
| `ListSet.ChainRemove` | homework/src/list_set.rs:95-97 | pointing a link at its target's successor removes the target from the chain |
| `ListSet.InsertionPointFinds` | homework/src/list_set.rs:39-56 | in a strictly ascending list, the stop position holds the key exactly when the key is an element |
| `ListSet.InsertSortedAt` | homework/src/list_set.rs:85 | linking at the stop position puts the key before the first larger element |
| `ListSet.RemoveSortedAt` | homework/src/list_set.rs:95-97 | unlinking at the stop position removes the first occurrence of the key |
| `ListSet.InsertSortedElements` | homework/src/list_set.rs:80-88 | inserting adds exactly one copy of the key |
| `ListSet.RemoveSortedElements` | homework/src/list_set.rs:91-103 | removing takes away exactly one copy of the key, if present |
| `ListSet.InsertSortedKeepsOrder` | homework/src/list_set.rs:80-88 | inserting an absent key keeps the list strictly ascending |
| `ListSet.RemoveSortedKeepsOrder` | homework/src/list_set.rs:91-103 | removing keeps the list strictly ascending and leaves the key absent |
| `ListSet.OrderedListSet.constructor` | homework/src/list_set.rs:59-66 | a new set is empty, with a null head and no nodes |
| `ListSet.OrderedListSet.CursorFind` | homework/src/list_set.rs:39-56 | the cursor stops before the first node whose data is not below the key, and reports true exactly when that node's data is the key |
| `ListSet.OrderedListSet.Find` | homework/src/list_set.rs:69-72 | the search from the head stops at the key's insertion point and reports whether the key is in the set |
| `ListSet.OrderedListSet.Contains` | homework/src/list_set.rs:74-77 | true exactly when the key is in the set |
| `ListSet.OrderedListSet.Insert` | homework/src/list_set.rs:80-88 | a present key gives `Err(key)` with nothing changed; an absent key gives `Ok(())` and is linked before the first larger element; the only node that can appear is a newly allocated one |
| `ListSet.OrderedListSet.LinkNode` | homework/src/list_set.rs:85 | the new node appears at the cursor position and the list stays strictly ascending; every other node was already in the list |
| `ListSet.OrderedListSet.Remove` | homework/src/list_set.rs:91-103 | a present key is unlinked and returned in `Ok`; an absent key gives `Err(())` with nothing changed; no node is added |
| `ListSet.OrderedListSet.UnlinkNode` | homework/src/list_set.rs:95-98 | the node after the cursor leaves the list and its data is returned; no node is added |
| `ListSet.OrderedListSet.Iter` | homework/src/list_set.rs:111-113 | a new iterator stands at the head and has yielded nothing |
| `ListSet.ListIter.constructor` | homework/src/list_set.rs:111-113 | a new iterator starts at the head of the set, has yielded nothing and is not finished |
| `ListSet.ListIter.Next` | homework/src/list_set.rs:119-137 | yields the next element in list order while any is left; then `None` for good, once everything has been yielded |
| `ListSet.ListIter.YieldedAscending` | homework/src/list_set.rs:119-137 | what has been yielded is ascending and drawn from the set |
| `ListSet.OrderedListSet.Drop` | homework/src/list_set.rs:140-151 | teardown frees every node once, in list order, and leaves a null head |
| `ListSet.OrderedListSet.FreeHead` | homework/src/list_set.rs:145-147 | one teardown step frees the first node and makes its successor the head |
| `Retire.WithTagZero` | homework/src/hazard_pointer/retire.rs:36 | clearing the tag gives the multiple of the alignment at or just below the word |
| `Retire.UntaggedHasNoTag` | homework/src/hazard_pointer/retire.rs:32-36 | a stored address has tag zero, which `free` asserts, and what was cleared is the word's tag |
| `Retire.Retirees.constructor` | homework/src/hazard_pointer/retire.rs:23-28 | a new buffer is empty and nothing has been freed |
| `Retire.Retirees.Retire` | homework/src/hazard_pointer/retire.rs:31-41 | pushes the untagged pointer and runs `collect` exactly when the length after the push exceeds 64. After the call the buffer holds at most 64 entries, or only protected ones |
| `Retire.Retirees.Collect` | homework/src/hazard_pointer/retire.rs:45-61 | the buffer becomes the protected entries in popping order, and the unprotected ones are freed in popping order |
| `Retire.CollectConserves` | homework/src/hazard_pointer/retire.rs:51-60 | kept plus freed is the old buffer as a multiset |
| `Retire.CollectSeparates` | homework/src/hazard_pointer/retire.rs:52-57 | kept entries are exactly the old ones whose address is protected, and freed entries exactly the others |
| `Retire.KeptIsReversed` | homework/src/hazard_pointer/retire.rs:52-60 | the new buffer holds the protected entries in reverse order |
| `Retire.CollectUnprotected` | homework/src/hazard_pointer/retire.rs:52-60 | with no hazards everything is freed, last entry first, and the buffer ends empty |
| `Retire.AllProtectedNoneFreed` | homework/src/hazard_pointer/retire.rs:52-57 | when every entry is protected nothing is freed |
| `Retire.CollectTwice` | homework/src/hazard_pointer/retire.rs:45-61 | a second `collect` against the same hazards frees nothing |
| `Retire.CollectRound` | homework/src/hazard_pointer/retire.rs:72-74 | one round of the drop loop conserves entries and empties the buffer when nothing is protected |
| `Retire.Retirees.Drop` | homework/src/hazard_pointer/retire.rs:66-75 | the loop ends with an empty buffer, having freed every entry that was retired |

## Left out

- Concurrency. Memory orderings, fences, `crossbeam_epoch` guards, the lock coupling of
  `list_set.rs` and the interleavings of other threads are not modelled. Each atomic
  operation is one sequential step.
- `SplitOrderedLists.SplitOrderedList.Lookup`, `SplitOrderedLists.SplitOrderedList.Insert`,
  `SplitOrderedLists.SplitOrderedList.Delete`: a key with its top bit set makes
  `assert_valid_key` (lines 127-129) panic. The model does not include that panic; these
  operations require a valid key, which is exactly the condition under which the assertion
  passes (`SplitOrder.AssertValidKey`).
- `SplitOrderedLists.SplitOrderedList.Insert`: the `Err` outcome of `cursor.insert`
  (line 160) is not modelled. It arises only when another thread changes the list between
  the search and the insert.
- `SplitOrderedLists.SplitOrderedList.Delete`: a failing `cursor.delete` (lines 170-174) is
  not modelled, for the same reason.
- `SplitOrderedLists.SplitOrderedList.Find`: the `Err(_) => continue` retry of
  `find_harris` (line 122) is not modelled. The search never fails without other threads.
- `SplitOrderedLists.SplitOrderedList.InitializeBucket`: the `Err(e) => continue` branch of
  the sentinel insert (lines 84-87) is not modelled. A round that links the sentinel is
  followed by a round that finds it.
- `SplitOrderedLists.SplitOrderedList.DoubleSize`: the relaxed CAS is modelled as succeeding
  exactly when `size` still holds the value `find` read.
- `GrowableArrays.GrowableArray.Descend`: the first descent step starts at the non-null
  root left by the grow loop. The source's null-root branch for that step (lines 227-235
  with `parent` the root) cannot be taken without other threads.
- The internals of `lockfree::list` (`find_harris`, `Cursor::insert`, `Cursor::delete`,
  `harris_insert`, Harris marking) are not part of this model. The list is a sorted
  sequence of nodes with the search, insert and delete contracts in `LockfreeList`.
- `Shared::with_tag`, `Shared::into_usize` and `align::decompose_tag` are not part of this
  model. The tag of a pointer is taken to be the word's remainder modulo the alignment of
  `T`, which is what masking the low bits computes when the alignment is a power of two.
- `Hazards::all_hazards` is not part of this model. The hazard set is a parameter of
  `Retire.Retirees.Collect` and `Retire.Retirees.Retire`.
- `Retire.Retirees.Drop`: in the source the drop loop runs until no other thread protects
  any remaining pointer, and need not terminate. The model takes the hazard sets of the
  successive rounds as a finite sequence whose last set is empty, standing for the moment
  every pointer is released.
- `free::<T>` and `Box::from_raw` are not executed. Freeing an entry or a node appends it
  to a ghost log, and the type-erased function pointer is an identifier.
- `ListSet`: set elements are `int`, standing for a `T: Ord` whose order is total. `Iter`
  yields element values where the source yields references.
- `SplitOrderedLists`: a bucket's stored "address" is its sentinel's ordering key, which
  identifies the node uniquely in the list.
- Integers are unbounded in the model. Keys and indices are bounded by `2^64` where the
  source's arithmetic depends on the width: `reverse_bits`, `leading_zeros`, the valid-key
  assertion and `size << 1`. `count` cannot reach `usize::MAX`, because every key is
  below `2^63`.
- The `println!` in `Drop for GrowableArray` (line 178) is output only and is not modelled.
