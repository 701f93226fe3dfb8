# icb-lib containers in Dafny

This project models the five containers of the `icb` header library and proves
what each of them promises:

- `icb::Vector<T>`, a growable array over a heap buffer.
- `icb::LinkedList<T>`, a doubly linked ring closed by a sentinel node.
- `icb::HashTable<K, V>`, separate chaining over a vector of chains.
- `icb::AVLSet<T>`, a self-balancing search tree with cached heights.
- `icb::BSTSet<T>`, its unbalanced predecessor.

Files:

- `wrappers.dfy` (module `Wrappers`): `Option`, and `Checked` for accesses that
  can be out of range.
- `vector.dfy` (module `DynamicArray`): class `Vector` over an `array<T>` with
  `size` and `capacity`. Its invariant is `size <= capacity == data.Length`, and
  every operation states its new live prefix `Elements()`.
- `linkedlist.dfy` (module `List`): class `LinkedList` over heap-allocated
  `Link` nodes. A ghost sequence `nodes` walks the ring from the sentinel `end`,
  and the ghost `Contents` holds the values in order. Every operation relinks
  pointers and is proved against `Contents`, `nodes` and the footprint `Repr`.
- `hashtable.dfy` (module `Hashing`): class `HashTable` whose `table` is a
  sequence of chains of `(key, value)` pairs. Its abstraction `Map()` is a
  `map<K, V>`. `Rehash` redistributes the chains in a loop.
- `avlset.dfy` (module `AvlSet`) and `bstset.dfy` (module `BstSet`): the node
  structure is a `Tree` datatype. Insertion, lookup, rotation and copying are
  recursive functions over it. A small class holds the root and exposes the
  public operations.

The hash function is a parameter `hash: K -> nat`. The bucket of key `k` in a
table of `n` chains is `hash(k) % n`, as in `HashTable::hash`.

## Model

| member | source | states |
|---|---|---|
| DynamicArray.GrownCapacity | icb_lib/icb/vector.h:330-346 | the growth target `c + (c + 2) / 2` is strictly larger than `c` and at least one and a half times `c` |
| DynamicArray.Vector.constructor | icb_lib/icb/vector.h:149 | a new vector is valid, empty, with capacity 0 |
| DynamicArray.Vector.FromSeq | icb_lib/icb/vector.h:151-163 | range and initializer-list construction hold the inputs in order, with size and capacity both equal to their count |
| DynamicArray.Vector.Move | icb_lib/icb/vector.h:171-177 | the new vector takes the source's buffer, elements and capacity; the source is left empty with capacity 0 |
| DynamicArray.Vector.MoveAssign | icb_lib/icb/vector.h:179-190 | move assignment swaps the two vectors' elements and capacities; self-assignment changes nothing |
| DynamicArray.Vector.Reallocate | icb_lib/icb/vector.h:429-472 | the new buffer has exactly the requested capacity, the size is clamped to it, and the kept elements are the old prefix |
| DynamicArray.Vector.Reserve | icb_lib/icb/vector.h:238-244 | elements never change; a request at or below the capacity keeps buffer and capacity, a larger one makes the capacity exactly the request |
| DynamicArray.Vector.ResizeFill | icb_lib/icb/vector.h:275-302 | shrinking keeps the first `newSize` elements, growing appends copies of `value`, and the buffer is replaced by one of capacity `GrownCapacity(newSize)` only when `newSize` exceeds the capacity |
| DynamicArray.Vector.Resize | icb_lib/icb/vector.h:246-273 | the size becomes `newSize`, shrinking keeps the prefix, growing keeps the old elements and fills every new slot with the same default value, with the same capacity rule as `ResizeFill` |
| DynamicArray.Vector.Erase | icb_lib/icb/vector.h:308-318 | exactly the element at `position` is removed, the rest keep their order, buffer and capacity stay, and the returned position is the erased one |
| DynamicArray.Vector.Clear | icb_lib/icb/vector.h:320-328 | the vector is empty and keeps its buffer and capacity |
| DynamicArray.Vector.PushBack | icb_lib/icb/vector.h:330-346 | the value is appended; a full vector grows to `GrownCapacity(capacity)`, otherwise buffer and capacity stay |
| DynamicArray.Vector.EmplaceBackAsWritten | icb_lib/icb/vector.h:348-363 | the value is appended, but the returned slot is the new size, one past the new element |
| DynamicArray.Vector.EmplaceBack | icb_lib/icb/vector.h:348-363 | the value is appended and the returned position names that new element |
| DynamicArray.Vector.PopBack | icb_lib/icb/vector.h:365-372 | the last element is removed; on an empty vector nothing changes |
| DynamicArray.Vector.At | icb_lib/icb/vector.h:374-390 | the access is out of range exactly when the index is at least the size, and otherwise yields that element |
| DynamicArray.Vector.Get | icb_lib/icb/vector.h:224-233 | `operator[]` with an index below the size reads that element |
| DynamicArray.Vector.Set | icb_lib/icb/vector.h:224-233 | writing through `operator[]` replaces exactly that element |
| DynamicArray.ShrinkLoopSlots | icb_lib/icb/vector.h:264-270 | the slots the shrink loop destroys, with its unsigned counter wrapping at 2^64, number at most the iterations allowed |
| DynamicArray.ShrinkLoopSlotsPositive | icb_lib/icb/vector.h:293-299 | for a positive target the shrink loop destroys exactly slots `size - 1` down to `newSize` and stops |
| DynamicArray.ShrinkToZeroWraps | icb_lib/icb/vector.h:264-270 | shrinking a one-element vector to 0 destroys slot 0 and then slot 2^64 - 1 |
| List.LinkedList.constructor | icb_lib/icb/linkedlist.h:137 | a new list is empty and its sentinel is linked to itself |
| List.LinkedList.FromSeq | icb_lib/icb/linkedlist.h:149-159 | range and initializer-list construction hold the inputs in order, in fresh nodes |
| List.LinkedList.Copy | icb_lib/icb/linkedlist.h:161-165 | the copy has the source's contents in fresh nodes, disjoint from the source's |
| List.LinkedList.MoveAsWritten | icb_lib/icb/linkedlist.h:167-183 | from a non-empty source the nodes and contents move and the source is left empty; from an empty source the new sentinel points at the source's sentinel and the list is not a valid ring |
| List.LinkedList.Move | icb_lib/icb/linkedlist.h:167-183 | the new list takes the source's nodes and contents in order, and the source is left empty with a self-linked sentinel |
| List.LinkedList.PushBack | icb_lib/icb/linkedlist.h:218-276 | `PushBack` and `EmplaceBack` append the value in one fresh node, keeping every existing node in place |
| List.LinkedList.PushFront | icb_lib/icb/linkedlist.h:278-333 | `PushFront` and `EmplaceFront` prepend the value in one fresh node, keeping every existing node in place |
| List.LinkedList.PopFront | icb_lib/icb/linkedlist.h:335-344 | on a non-empty list, exactly the first node and its value are removed |
| List.LinkedList.PopBack | icb_lib/icb/linkedlist.h:346-355 | on a non-empty list, exactly the last node and its value are removed |
| List.LinkedList.Front | icb_lib/icb/linkedlist.h:374-378 | on a non-empty list, yields the first value |
| List.LinkedList.Back | icb_lib/icb/linkedlist.h:380-384 | on a non-empty list, yields the last value |
| List.LinkedList.Size | icb_lib/icb/linkedlist.h:386-389 | yields the number of values in the ring |
| List.LinkedList.Empty | icb_lib/icb/linkedlist.h:391-394 | holds exactly when the list has no values |
| List.LinkedList.UnlinkAll | icb_lib/icb/linkedlist.h:138-147 | the unlinking loop visits and frees exactly the data nodes in order, leaving the sentinel's `next` pointing at itself |
| List.LinkedList.Clear | icb_lib/icb/linkedlist.h:357-372 | the list is empty, its footprint is the list and its sentinel, and the sentinel is linked to itself |
| List.LinkedList.Destroy | icb_lib/icb/linkedlist.h:138-147 | the destructor frees exactly the list's nodes and leaves `prev` and the size untouched |
| List.LinkedList.CopyAssign | icb_lib/icb/linkedlist.h:185-197 | the list ends with the source's contents in fresh nodes, disjoint from the source, which stays valid |
| List.LinkedList.TakeOver | icb_lib/icb/linkedlist.h:172-181 | an empty list takes over another list's nodes and contents, leaving that list empty |
| List.LinkedList.TakeOverAsWritten | icb_lib/icb/linkedlist.h:172-181 | the same transfer as written: correct from a non-empty list, a sentinel pointing into the source from an empty one |
| List.LinkedList.MoveAssignAsWritten | icb_lib/icb/linkedlist.h:199-216 | as written, move assignment from a non-empty list transfers its contents, but from an empty list leaves this list's sentinel pointing at the source's |
| List.LinkedList.MoveAssign | icb_lib/icb/linkedlist.h:199-216 | move assignment releases the old contents and takes the source's nodes and contents, leaving the source empty; self-assignment changes nothing |
| List.LinkedList.Walk | icb_lib/icb/linkedlist.h:84-88 | advancing an iterator `pos` times from `begin()` reaches the node at index `pos`, or the sentinel at the end |
| List.LinkedList.Unlink | icb_lib/icb/hash_table.h:143 | exactly the node at the index leaves the ring, the other nodes keep their order, and the node keeps its value |
| List.LinkedList.LinkBefore | icb_lib/icb/hash_table.h:143 | a node from outside the list is linked in front of the index and keeps its value |
| List.LinkedList.Erase | icb_lib/icb/hash_table.h:107 | exactly the element at the index is removed, the others keep their order |
| List.LinkedList.Splice | icb_lib/icb/hash_table.h:141-143 | the node at index `it` of the other list moves, without copying, in front of index `pos`; both lists stay valid and disjoint |
| List.PopFrontKeepsSecond | tests/test_linkedlist.cc:76-84 | after pushing 10 and 5 to the front and popping once, one element remains and the front is 5 |
| List.PopBackKeepsFirst | tests/test_linkedlist.cc:86-94 | after pushing two characters and popping the back, one remains and the back is the first |
| List.CopyIsIndependent | tests/test_linkedlist.cc:96-116 | a copy keeps all three values after the original loses its front |
| List.CopyAssignIsIndependent | tests/test_linkedlist.cc:118-142 | a copy-assigned list keeps both values after the original loses its back |
| List.MoveEmptiesSource | tests/test_linkedlist.cc:144-166 | a move-constructed list holds the three values and the source is empty |
| List.MoveAssignReplaces | tests/test_linkedlist.cc:168-192 | a move-assigned list holds the source's two strings and the source is empty |
| Hashing.Bucket | icb_lib/icb/hash_table.h:162-172 | the bucket of a key is a valid chain index |
| Hashing.EmptyTable | icb_lib/icb/hash_table.h:36-40 | a fresh table has `n` chains, all empty |
| Hashing.Distribute | icb_lib/icb/hash_table.h:124-149 | redistributing pairs over `n` chains yields exactly `n` chains |
| Hashing.SeqMapKeys | icb_lib/icb/hash_table.h:82-94 | a key is found in a chain exactly when some pair of the chain has that key |
| Hashing.SeqMapAt | icb_lib/icb/hash_table.h:82-94 | in a chain with unique keys, each pair's key finds that pair's value |
| Hashing.SeqMapAppend | icb_lib/icb/hash_table.h:59-80 | the map of two joined chains is the first chain's map overridden by the second's |
| Hashing.TableMapAt | icb_lib/icb/hash_table.h:82-94 | when every pair sits in its bucket, a key is in the table exactly when it is in its own bucket's chain, with that chain's value |
| Hashing.FlattenBuckets | icb_lib/icb/hash_table.h:162-172 | every pair of a placed table hashes to an existing chain |
| Hashing.SeqMapSize | icb_lib/icb/hash_table.h:156-159 | a chain with unique keys has as many keys as pairs |
| Hashing.SeqMapRemove | icb_lib/icb/hash_table.h:96-112 | removing a pair from a chain with unique keys removes exactly its key from the map |
| Hashing.ReplaceChain | icb_lib/icb/hash_table.h:59-112 | replacing one chain by another whose pairs hash to it keeps every pair placed, changes only that bucket's keys, and leaves other keys' lookups alone |
| Hashing.InsertMap | icb_lib/icb/hash_table.h:59-80 | appending a pair to its bucket's chain keeps the table placed and adds exactly that binding, unless the key is present |
| Hashing.EraseMap | icb_lib/icb/hash_table.h:96-112 | removing a pair from its chain keeps the table placed and removes exactly its key from the map |
| Hashing.FlattenUpdateLength | icb_lib/icb/hash_table.h:59-112 | replacing one chain changes the total pair count by the difference in that chain's length, which is what keeps `m_elements` in step |
| Hashing.FlattenUnique | icb_lib/icb/hash_table.h:59-80 | keys unique within each chain of a placed table are unique across the whole table |
| Hashing.TableMapSize | icb_lib/icb/hash_table.h:151-159 | the number of keys in a valid table equals the total number of pairs |
| Hashing.DistributeMap | icb_lib/icb/hash_table.h:124-149 | redistributing pairs places every pair in bucket `hash(key) % n`, keeps the pair count, and keeps the key-to-value map |
| Hashing.FlattenAppend | icb_lib/icb/hash_table.h:139-143 | appending a pair to one chain adds exactly that pair to the table's multiset of pairs |
| Hashing.DistributeMoves | icb_lib/icb/hash_table.h:132-145 | redistribution relocates every pair exactly once: the multiset of pairs is unchanged |
| Hashing.EmptyFlatten | icb_lib/icb/hash_table.h:128-130 | a fresh table holds no pairs |
| Hashing.DistributeUnique | icb_lib/icb/hash_table.h:124-149 | redistributing pairs with unique keys gives chains with unique keys |
| Hashing.DistributeInBucket | icb_lib/icb/hash_table.h:132-145 | each new chain lists exactly the pairs hashing to it, in their old order |
| Hashing.FirstWinsFirst | icb_lib/icb/hash_table.h:47-56 | in initializer-list construction, the first pair with a given key supplies the value |
| Hashing.FirstWinsKeys | icb_lib/icb/hash_table.h:47-56 | initializer-list construction holds exactly the keys of the listed pairs |
| Hashing.RemoveUnique | icb_lib/icb/hash_table.h:96-112 | removing a pair from a chain with unique keys keeps its keys unique |
| Hashing.WithoutAt | icb_lib/icb/hash_table.h:96-112 | in a chain with unique keys, removing a key removes exactly the pair holding it |
| Hashing.WithoutAbsent | icb_lib/icb/hash_table.h:96-112 | removing a key no pair holds leaves the chain unchanged |
| Hashing.SpliceChain | icb_lib/icb/hash_table.h:134-144 | moving one old chain's pairs into the new table, front to back, extends the redistribution by that chain |
| Hashing.RehashValid | icb_lib/icb/hash_table.h:124-149 | redistributing a valid table gives a valid table of `n` chains with the same pair count and the same map |
| Hashing.HashTable.constructor | icb_lib/icb/hash_table.h:36-40 | a new table has `HT_INIT_CAPACITY` (11) empty chains, no elements, and an empty map |
| Hashing.HashTable.WithCapacity | icb_lib/icb/hash_table.h:36-40 | a new table of a given positive capacity has that many empty chains and an empty map |
| Hashing.HashTable.FromPairs | icb_lib/icb/hash_table.h:47-56 | initializer-list construction inserts each pair, so each key maps to its first listed value |
| Hashing.HashTable.Index | icb_lib/icb/hash_table.h:162-166 | a key's bucket is below the capacity |
| Hashing.HashTable.Find | icb_lib/icb/hash_table.h:82-94 | returns the stored value when the key is present, and nothing otherwise |
| Hashing.HashTable.Insert | icb_lib/icb/hash_table.h:59-80 | a present key leaves table and count unchanged, so the first writer wins; an absent key's pair is appended to its chain and the count grows by one |
| Hashing.HashTable.Erase | icb_lib/icb/hash_table.h:96-112 | exactly the key's pair leaves its chain and the count drops by one; an absent key changes nothing |
| Hashing.HashTable.ClearAsWritten | icb_lib/icb/hash_table.h:114-122 | as written, `Clear` empties the chain vector but keeps `m_elements` and `m_capacity`, so the table is no longer valid: the count disagrees with the map and no key has a chain |
| Hashing.HashTable.Clear | icb_lib/icb/hash_table.h:114-122 | the table keeps its capacity of empty chains, with count 0 and an empty map |
| Hashing.HashTable.Rehash | icb_lib/icb/hash_table.h:124-149 | for `n > 0` the chains become the redistribution of the old pairs over `n` buckets, and the capacity becomes `n`; count and map are unchanged |
| Hashing.HashTable.Size | icb_lib/icb/hash_table.h:156-159 | yields the number of keys stored |
| Hashing.HashTable.Empty | icb_lib/icb/hash_table.h:151-154 | holds exactly when no key is stored |
| Hashing.DuplicateKeys | tests/test_hashtable.cc:68-74 | inserting "apple" with 5 and then with 10 keeps one pair, and it holds 5 |
| Hashing.EraseKeys | tests/test_hashtable.cc:36-45 | an erased key is no longer found, and erasing an absent key leaves the table empty |
| Hashing.RehashKeepsValues | tests/test_hashtable.cc:47-57 | after rehashing to 20 chains, all three keys still find their values |
| Hashing.ThreePairs | tests/test_hashtable.cc:113-121 | a table built from three pairs with distinct keys has size 3 and finds "banana" |
| AvlSet.CachedHeightIsDepth | icb_lib/icb/AVLSet.h:327-330 | when every cached height is one more than its taller child's, `height` is the tree's depth |
| AvlSet.RotateRight | icb_lib/icb/AVLSet.h:305-314 | a right rotation keeps the in-order sequence and the value set |
| AvlSet.RotateLeft | icb_lib/icb/AVLSet.h:316-325 | a left rotation keeps the in-order sequence and the value set |
| AvlSet.RotateRightOrdered | icb_lib/icb/AVLSet.h:305-314 | a right rotation keeps the search-tree ordering |
| AvlSet.RotateLeftOrdered | icb_lib/icb/AVLSet.h:316-325 | a left rotation keeps the search-tree ordering |
| AvlSet.RotateRightFixesLeftLeft | icb_lib/icb/AVLSet.h:235-238 | in the left-left case, a right rotation restores an AVL tree as tall as the old left child |
| AvlSet.RotateLeftFixesRightRight | icb_lib/icb/AVLSet.h:247-250 | in the right-right case, a left rotation restores an AVL tree as tall as the old right child |
| AvlSet.DoubleRotationFixesLeftRight | icb_lib/icb/AVLSet.h:239-243 | in the left-right case, rotating the left child left and then the node right restores an AVL tree |
| AvlSet.DoubleRotationFixesRightLeft | icb_lib/icb/AVLSet.h:251-255 | in the right-left case, rotating the right child right and then the node left restores an AVL tree |
| AvlSet.Rebalance | icb_lib/icb/AVLSet.h:230-257 | after a one-sided insertion the height is recomputed and the case chosen by comparing the value with the child's gives an AVL tree with the same values and in-order sequence |
| AvlSet.InsertLeftStep | icb_lib/icb/AVLSet.h:223-224 | inserting into the left subtree and rebalancing yields an insertion result for the whole tree |
| AvlSet.InsertRightStep | icb_lib/icb/AVLSet.h:225-226 | inserting into the right subtree and rebalancing yields an insertion result for the whole tree |
| AvlSet.InsertAt | icb_lib/icb/AVLSet.h:211-258 | insertion into an AVL tree gives an AVL tree (ordered, balanced, correct cached heights) whose values are the old ones plus `x`; a present value returns the tree unchanged |
| AvlSet.ContainsAt | icb_lib/icb/AVLSet.h:260-281 | lookup in an ordered tree holds exactly when the value is in the tree |
| AvlSet.InOrderValues | icb_lib/icb/AVLSet.h:169-181 | the in-order traversal visits exactly the tree's values |
| AvlSet.InOrderAscending | icb_lib/icb/AVLSet.h:169-181 | the in-order traversal of an ordered tree is strictly ascending |
| AvlSet.CopySubtreeAsWritten | icb_lib/icb/AVLSet.h:295-303 | as written, a copy keeps the values and all three traversals |
| AvlSet.CopyLosesHeights | icb_lib/icb/AVLSet.h:54-56 | copying a two-level tree gives a root whose cached height is 1, so the copy breaks the cached-height invariant |
| AvlSet.CopySubtree | icb_lib/icb/AVLSet.h:295-303 | a copy that keeps the heights keeps the values and the in-order sequence, and reproduces a tree with correct heights exactly |
| AvlSet.AVLSet.constructor | icb_lib/icb/AVLSet.h:68 | a new set is empty |
| AvlSet.AVLSet.Copy | icb_lib/icb/AVLSet.h:74-83 | a copy holds the source's tree |
| AvlSet.AVLSet.Move | icb_lib/icb/AVLSet.h:85-89 | the new set takes the source's tree and the source's root becomes null |
| AvlSet.AVLSet.CopyAssign | icb_lib/icb/AVLSet.h:91-110 | the set ends with the source's tree |
| AvlSet.AVLSet.MoveAssign | icb_lib/icb/AVLSet.h:112-124 | the set takes the source's tree and the source's root becomes null; self-assignment changes nothing |
| AvlSet.AVLSet.Insert | icb_lib/icb/AVLSet.h:127-136 | the root becomes the AVL insertion result: the values are the old set plus `x`, and a present value changes nothing |
| AvlSet.AVLSet.Contains | icb_lib/icb/AVLSet.h:142-145 | holds exactly when the value is in the set |
| AvlSet.AVLSet.ForEachNode | icb_lib/icb/AVLSet.h:147-161 | visits the values in the chosen order; in order they are strictly ascending |
| AvlSet.LeafAvl | icb_lib/icb/AVLSet.h:50-52 | a fresh node is an AVL tree holding just its value |
| AvlSet.InsertSecond | tests/test_avlset.cc:14-21 | inserting a smaller value into a leaf hangs it on the left, height 2 |
| AvlSet.InsertThird | tests/test_avlset.cc:14-21 | inserting a larger value then fills the right, height 2 |
| AvlSet.InsertFourth | tests/test_avlset.cc:14-21 | inserting the smallest value deepens the left side to height 3 without rotation |
| AvlSet.InsertFifth | tests/test_avlset.cc:14-21 | inserting a value between the two left ones hangs it right of the left child, with no rotation needed |
| AvlSet.InsertFiveOrdered | tests/test_avlset.cc:73-103 | inserting `s, q, u, p, r` with `p < q < r < s < u` gives in-order `[p,q,r,s,u]`, pre-order `[s,q,p,r,u]` and post-order `[p,r,q,u,s]` |
| AvlSet.InsertFiveValues | tests/test_avlset.cc:73-103 | inserting 5, 3, 8, 1, 4 gives in-order `[1,3,4,5,8]`, pre-order `[5,3,1,4,8]` and post-order `[1,4,3,8,5]` |
| BstSet.AddsLeafGrows | icb_lib/icb/BSTSet.h:173-211 | adding one leaf grows the tree by one node and its value set by that value |
| BstSet.InsertAt | icb_lib/icb/BSTSet.h:173-211 | insertion adds `x` to the values and keeps the ordering; a present value leaves the tree unchanged, an absent one is added as exactly one new leaf |
| BstSet.ContainsAt | icb_lib/icb/BSTSet.h:213-234 | lookup in an ordered tree holds exactly when the value is in the tree |
| BstSet.InOrderValues | icb_lib/icb/BSTSet.h:130-143 | the in-order traversal visits exactly the tree's values, once per node |
| BstSet.InOrderAscending | icb_lib/icb/BSTSet.h:130-143 | the in-order traversal of an ordered tree is strictly ascending |
| BstSet.BSTSet.constructor | icb_lib/icb/BSTSet.h:37 | a new set is empty |
| BstSet.BSTSet.Move | icb_lib/icb/BSTSet.h:54-59 | the new set takes the source's tree and the source's root becomes null |
| BstSet.BSTSet.MoveAssign | icb_lib/icb/BSTSet.h:82-94 | the set takes the source's tree and the source's root becomes null; self-assignment changes nothing |
| BstSet.BSTSet.Insert | icb_lib/icb/BSTSet.h:97-106 | the root becomes the insertion result: values are the old set plus `x`, and a present value changes nothing |
| BstSet.BSTSet.Contains | icb_lib/icb/BSTSet.h:108-111 | holds exactly when the value is in the set |
| BstSet.BSTSet.ForEachNode | icb_lib/icb/BSTSet.h:113-127 | visits the values in the chosen order; in order they are strictly ascending |

## Left out

- The hash function `std::hash` is foreign code. It is a parameter `hash: K -> nat`, fixed per table.
- Hash table chains are sequences of pairs, not `LinkedList` objects. Node identity and aliasing between chains are not modelled. That `Rehash` splices nodes rather than copying them appears only as "every pair is relocated exactly once" (`Hashing.DistributeMoves`). The list-level `Splice` is modelled separately on nodes.
- `Hashing.HashTable.WithCapacity`, `Hashing.HashTable.FromPairs`: capacity 0 would make the bucket computation divide by zero, so these constructors require a positive capacity.
- The implicit copy constructor and copy assignment of `HashTable` are not modelled.
- The hash table destructor calls `Clear` and then releases memory. Memory release is not modelled.
- Raw memory is not modelled: placement new, explicit destructor calls, `operator new`/`delete` and leaks. For example, AVL copy and move assignment do not free the old tree. Slots beyond the size of a `Vector` are don't-care storage.
- `Vector` copy constructor and copy assignment (vector.h:165-219) are not modelled: the copy constructor calls `other.cbegin` without parentheses, and copy assignment copies only this vector's old elements.
- `Vector::Insert` and `AVLSet::Delete` are empty stubs. They are not modelled.
- The `BSTSet` copy constructor and copy assignment call a three-argument `Node` constructor that `BSTSet::Node` does not have. They are not modelled.
- `AVLSet::PrintTree` and `printSubtree` only print to the console.
- Iterators are not modelled as objects. Positions are indices, and iterator increment appears only as `List.LinkedList.Walk`. Iterator concept checks and `iterator + iterator` are not modelled.
- `AvlSet.InsertAt`, `BstSet.InsertAt`: the trees are values. The in-place rewriting of `left`, `right` and `height` fields through node pointers is modelled as building a new tree; sharing between old and new nodes is not observable.
- Tree elements are `int`. The library is generic over any type with `<` and `>`.
- `List.LinkedList.PushBack`: the branch for a null `prev` link (linkedlist.h:224-233) cannot be taken in a valid ring, so the model has no counterpart for it.
- `List.LinkedList.PushBack`, `List.LinkedList.PushFront`: `EmplaceBack`/`EmplaceFront` construct the value in place, which for values is the same as pushing it. They share these members.
- `DynamicArray.Vector.Resize`: new slots are stated equal to one and the same default value, not to a particular `T()`.
- `DynamicArray.ShrinkLoopSlots`: follows the loop for at most `fuel` iterations. The wrapped loop never stops within the buffer, so only a bounded prefix of its behaviour is stated.
- Dereferencing `begin()` of a cleared list (reading the sentinel as a node) is undefined behaviour and is not modelled.

## Findings

| source | as written | input that shows it | evidently intended | confidence | as-written member | corrected member |
|---|---|---|---|---|---|---|
| icb_lib/icb/vector.h:361-362 | `EmplaceBack` returns `m_Data[m_Size]` after incrementing `m_Size` | `EmplaceBack(7)` on an empty vector returns slot 1, not the new element in slot 0 | return the element just constructed, `m_Data[m_Size - 1]` | high, not executed | DynamicArray.Vector.EmplaceBackAsWritten | DynamicArray.Vector.EmplaceBack |
| icb_lib/icb/vector.h:266 | the shrink loop counts an unsigned index down while `i >= newSize` | `Resize(0)` on a one-element vector: after slot 0 the index wraps to 2^64 - 1 and the loop goes on | stop after destroying slot `newSize` | high, not executed | DynamicArray.ShrinkToZeroWraps | DynamicArray.Vector.Resize |
| icb_lib/icb/vector.h:295 | the same unsigned shrink loop in `Resize(newSize, value)` | `Resize(0, v)` on a one-element vector | stop after destroying slot `newSize` | high, not executed | DynamicArray.ShrinkToZeroWraps | DynamicArray.Vector.ResizeFill |
| icb_lib/icb/linkedlist.h:172-176 | the move constructor copies the source's sentinel links before relinking | moving from an empty list: the new sentinel's `next` and `prev` point at the source's sentinel | an empty destination whose sentinel is linked to itself | high, not executed | List.LinkedList.MoveAsWritten | List.LinkedList.Move |
| icb_lib/icb/linkedlist.h:205-209 | move assignment copies the source's sentinel links after `Clear()` | move-assigning an empty list: this list's sentinel points at the source's sentinel | this list ends empty with a self-linked sentinel | high, not executed | List.LinkedList.MoveAssignAsWritten | List.LinkedList.MoveAssign |
| icb_lib/icb/AVLSet.h:302 | `copySubtree` builds nodes with the three-argument `Node` constructor, which sets height 1 | copying the tree 2 with left child 1 gives a root with height 1 instead of 2 | copied nodes keep their heights | high, not executed | AvlSet.CopyLosesHeights | AvlSet.CopySubtree |
| icb_lib/icb/hash_table.h:114-122 | `Clear` empties the chain vector but keeps `m_elements` and `m_capacity` | insert one key, then `Clear()`: `Size()` is still 1 and the next `Insert` indexes a chain vector of length 0 | `capacity` empty chains and `m_elements == 0` | high, not executed | Hashing.HashTable.ClearAsWritten | Hashing.HashTable.Clear |
