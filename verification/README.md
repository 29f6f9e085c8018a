# Containers, hashes and the allocator of the BASE/DWI template library

This project models five pieces of a small C++ template library and proves properties of
the model in Dafny.

- `CBinaryTree` (container/associative/btree.h) is an unbalanced binary search tree with
  in-order iterators. Module `BTreeModel` defines the abstractions: the in-order entry
  sequence, the key set and the abstract key→value map. Module `BTree` models the tree
  operations as functions on an algebraic tree. An iterator is the path from the root to
  its node, or `End`. Module `BTreeLinks` models the two-children removal on the tree as
  the source stores it: a table of nodes with parent, left and right links.
- `CDoubleLinkedList` (container/sequential/dlist.h) is a circular doubly linked list
  closed by a sentinel anchor. Module `DList` models it as a sequence. Links are the
  positions `0 .. |elems|`, and position `|elems|` is the anchor.
- `SKeyHash` (utility/hash/keyhash.h) pairs a key with its hash. Module `KeyHash` models
  its six comparison operators and the key-only `void` specialisation.
- `SJavaStringHash` (utility/hash/javastringhash.h) is the hash `h = h * 31 + byte`.
  Module `JavaStringHash` models it as a fold over bytes in `bv32`, so it wraps like the
  source's 32-bit `unsigned int`. It also models which of the hash's definitions a
  template argument selects.
- `CAllocator` (allocator.h) is modelled in module `Allocator`: the size arithmetic on a
  64-bit `size_t`, the `Allocate` guard, and an abstract heap of blocks whose slots are
  raw or hold a live object.

Some things are parameters rather than modelled code:

- The tree's ordering key is the key itself, as the default `SDummyHash` makes it. Keys
  are `int`.
- The hash type's `<`, the key type's `<` and the object representation of a hashed value
  are parameters.
- The address `::operator new` returns is a parameter.

Two spots of the tree do not compile. The model implements the intent that their comments
and the symmetric branch state:

- btree.h:501 tests a field `m_pRightNode` that does not exist. That branch also never
  steps into the right child. `BTree.Increment` steps right and then left as far as
  possible, as btree.h:497-498 describes.
- btree.h:412 assigns the left child to the local `ppParentLink` instead of through it.
  `BTree.Spliced` writes the left child into the parent's link, as the right-only branch
  at btree.h:406-407 does.

Two promises the header makes are broken by `Remove(iterator)`:

- `GetElementCount` is declared at btree.h:119 to return the number of elements, and
  `Insert` counts every node it creates (btree.h:353). `Remove` never decrements the count.
- `Increment` climbs through the parent links (btree.h:510-521), so every parent link must
  mirror a child link. The two-children branch moves the successor into the removed
  node's place but leaves the parent links of its new children on the freed node.

`BTree.RemoveAsWritten` follows the code in the count, which it leaves unchanged; its tree
keeps parent links that match the child links. `BTreeLinks.RemoveTwoAsWritten` follows the
code in the links, and shows the parent links it leaves on the freed node.
It proves the intended behaviour of the corrected `BTree.Remove` and `BTreeLinks.RemoveTwo`
(see Findings).

## Model

| member | source | states |
|---|---|---|
| BTree.New | container/associative/btree.h:324-331 | A new tree has a null root, an empty abstract map and a count of 0, so it is valid and `IsEmpty` holds. |
| BTree.IsEmpty | container/associative/btree.h:469-474 | `IsEmpty()` tests the count. On a valid tree it holds exactly when the root is null. |
| BTree.GetElementCount | container/associative/btree.h:476-481 | On a valid tree the count is the number of entries of the abstract map, as btree.h:119 documents. |
| BTree.CountMatchesNodes | container/associative/btree.h:469-481 | On a valid tree, `IsEmpty` holds exactly when the root is null. `GetElementCount` equals the number of in-order entries and the size of the abstract map. |
| BTree.InsertOnChild | container/associative/btree.h:345-367 | The returned path is a path of the old tree and leads to the node with the key. A node is created only at a null slot, and only there does the tree change; an equal key leaves the tree unchanged. On a search tree, a node is created exactly when the key is absent, and the result stays a search tree whose key set gains the key. |
| BTree.InsertAddsEntry | container/associative/btree.h:350-355 | Creating a node for an absent key adds exactly that key→value entry to the abstract map. |
| BTree.FillSlotMap | container/associative/btree.h:352 | Putting a new node into a null slot of a search tree adds its entry to the abstract map and changes no other entry. |
| BTree.Insert | container/associative/btree.h:338-343 | The iterator designates the node with the key. Validity is preserved. On any search tree, whatever its count: the result is a search tree whose key set gains the key; an existing key leaves the tree and count unchanged; a new key adds one to the count and its entry to the map. |
| BTree.FindOnChild | container/associative/btree.h:448-457 | A found path leads to a node with the key. On a search tree the result is end exactly when the key is absent. |
| BTree.Find | container/associative/btree.h:441-446 | On any search tree, whatever its count, the result is end exactly when the key is absent from the map. Otherwise it designates the node holding the map's value for the key. |
| BTree.FoundValue | container/associative/btree.h:456 | In a search tree, the value stored at the node with key k is the abstract map's value for k. |
| BTree.FindLowestOnChild | container/associative/btree.h:459-466 | A null child gives the parent iterator. Otherwise the result is the end of the left spine: a node with no left child whose key is in the subtree and, in a search tree, is its minimum. |
| BTree.Climb | container/associative/btree.h:509-522 | The climb yields end or a proper ancestor: a strict prefix of the path. |
| BTree.Increment | container/associative/btree.h:493-526 | The successor step yields end or a node of the tree. |
| BTree.IncrementShape | container/associative/btree.h:501-523 | With a right child, the step goes right and then down the left spine; without one, it is the climb. |
| BTree.IncrementIsSuccessor | container/associative/btree.h:497-523 | In a search tree the step yields end exactly when the node's key is the greatest. Otherwise it yields a node whose key is the least key greater than the current one. |
| BTree.Spliced | container/associative/btree.h:400-434 | The subtree that takes the removed node's place has the in-order entries of the node's left subtree followed by those of its right subtree. |
| BTree.RemoveNode | container/associative/btree.h:378-439 | The returned iterator is end exactly when the successor before the removal was end, and otherwise designates a node with the old successor's key and value. On a search tree, whatever the count: the removed key was present and leaves the key set, the in-order sequence and the map; the result is a search tree; the iterator is end exactly when the key was the greatest and otherwise holds the least greater key. |
| BTree.SplicedInOrder | container/associative/btree.h:400-434 | After the splice, the whole tree's in-order sequence is the old one without the removed node's entry. |
| BTree.RemoveNodeInOrder | container/associative/btree.h:400-438 | In a search tree, splicing the node out deletes exactly its key's entry from the in-order sequence. |
| BTree.RemovedNextIsSuccessor | container/associative/btree.h:385 | The iterator chosen after the splice is end exactly when the successor computed before the removal was end. Otherwise it designates a node holding the old successor's key and value. |
| BTree.Remove | container/associative/btree.h:376-439 | For an iterator designating a node of a valid tree, the result stays valid and the count drops by one. The entry leaves the in-order sequence and the map. The returned iterator is end exactly when the removed key was the greatest, and otherwise designates the least greater key. |
| BTree.RemoveKey | container/associative/btree.h:369-374 | For a present key, the result is valid with one element fewer and without the key's entry, and `Find` of the key then yields end. |
| BTree.RemoveAsWritten | container/associative/btree.h:378-439 | As written in the count, on any search tree whatever its count: the count is unchanged, while the key leaves the key set and the map, the result is a search tree, and the iterator is end exactly when the key was the greatest and otherwise holds the least greater key. |
| BTree.SizeNotDecremented | container/associative/btree.h:376-439 | As written, removing the only node of a one-node tree leaves a null root that still counts one element: the tree is not empty and not valid. |
| BTree.RemoveLastLeavesEmpty | container/associative/btree.h:471-474 | With the count decremented, removing the only key leaves an empty tree with a null root. Inserting into it then gives what inserting into a new tree gives. |
| BTreeLinks.LeftSpine | container/associative/btree.h:461-466 | The walk down the left links starts at the given node and follows a left link at each step, each matched by the parent link back. It ends at a node with no left child. |
| BTreeLinks.Successor | container/associative/btree.h:385 | The successor of a node with two children is the leftmost node of its right subtree: a chain of left links leads to it from the right child, and it has no left child. |
| BTreeLinks.Relink | container/associative/btree.h:387-398 | The root link is written when the parent is null. Otherwise the parent's child link that designates the node is written. No other node changes. |
| BTreeLinks.ReparentRight | container/associative/btree.h:418-421 | The successor's right child, if any, takes the successor's parent as its parent. No other node changes. |
| BTreeLinks.UnlinkFromParent | container/associative/btree.h:423-430 | The successor's parent's link to the successor receives the successor's right child. No other node changes. |
| BTreeLinks.TakeOver | container/associative/btree.h:431-433 | The successor takes the removed node's parent, left and right links. No other node changes. |
| BTreeLinks.SurgeryFacts | container/associative/btree.h:414-434 | In a well-linked acyclic tree, a node with two children has children that point back to it. Its successor is not the node or its left child. The successor's parent is the node exactly when the successor is the right child. The grandparent and the successor's right child are distinct from all of these. |
| BTreeLinks.SurgeryShape | container/associative/btree.h:414-434 | The link assignments, read in order, leave these values: the successor linked to the removed node's parent and children; the successor's right child in its old slot; the grandparent's link on the successor; every other node unchanged. |
| BTreeLinks.SurgeryAt | container/associative/btree.h:416-433 | The surgery frees nothing: the node table keeps every node. `SurgeryShape` states its links. |
| BTreeLinks.Free | container/associative/btree.h:436 | Deleting the node removes it from the table and changes no other node. |
| BTreeLinks.RemoveTwoAsWritten | container/associative/btree.h:414-436 | As written, the node is freed, every other node is kept and every key stays with its node. |
| BTreeLinks.AsWrittenLeftChildDangles | container/associative/btree.h:431-436 | As written, the removed node's left child keeps a parent link to the freed node, so the result is not well linked. |
| BTreeLinks.ThreeNodesRemoval | container/associative/btree.h:414-438 | Removing root 5 (children 3 and 8) as written leaves node 3's parent link on the freed node 5. The repaired removal makes 8 the root with left child 3, and 3's parent is 8. |
| BTreeLinks.RepairedAt | container/associative/btree.h:414-436 | The repaired removal leaves every node but the removed one. `RepairedShape` states its links. |
| BTreeLinks.RemoveTwo | container/associative/btree.h:414-438 | The repaired removal frees the node, keeps every other node and its key, and leaves every parent and child link matched by its link back. |
| BTreeLinks.RepairedShape | container/associative/btree.h:414-434 | The repaired removal leaves these links: the successor takes the node's place; the node's children and the successor's right child point back to their new parents; every other node is unchanged. |
| BTreeLinks.RemoveTwoConsistent | container/associative/btree.h:414-438 | The repaired removal maps a well-linked tree to a well-linked tree. |
| DList.Next | container/sequential/dlist.h:420-425 | A forward step from a link yields a link. |
| DList.Prev | container/sequential/dlist.h:427-432 | A backward step from a link yields a link. |
| DList.NextPrevInverse | container/sequential/dlist.h:420-432 | Each link is the prev of its next and the next of its prev. |
| DList.StepsAround | container/sequential/dlist.h:420-425 | The links form a single ring through the anchor: from any link, length + 1 forward steps return to it. |
| DList.New | container/sequential/dlist.h:664-671 | A new list is empty, `Begin() == End()`, and both anchor links point to the anchor. |
| DList.Begin | container/sequential/dlist.h:688-693 | `Begin()` is the anchor exactly when the list is empty, and otherwise position 0, the first element. |
| DList.RBegin | container/sequential/dlist.h:702-707 | `RBegin()` is the anchor exactly when the list is empty, and otherwise position `|elems| - 1`, the last element. |
| DList.IsEmpty | container/sequential/dlist.h:857-862 | The anchor's next link is the anchor exactly when the list has no elements. |
| DList.Insert | container/sequential/dlist.h:774-786 | The element is placed just before `pos`, with the elements before and after it unchanged. The result designates the new element, and its next link is the element that was at `pos`. |
| DList.Remove | container/sequential/dlist.h:788-801 | Exactly the element at `pos` is deleted, and the others keep their order. The result is `pos` in the new list, the link that followed the removed node: the anchor exactly when the last element was removed, and otherwise the node holding the element that followed. |
| DList.InsertThenRemove | container/sequential/dlist.h:774-801 | Removing at the iterator `Insert` returned restores the list and yields the original position. |
| DList.RemoveThenInsert | container/sequential/dlist.h:774-801 | Inserting the removed element before the iterator `Remove` returned restores the list. |
| DList.PushBack | container/sequential/dlist.h:746-751 | `PushBack` appends the element. |
| DList.PushFront | container/sequential/dlist.h:753-758 | `PushFront` prepends the element. |
| DList.PopBack | container/sequential/dlist.h:760-765 | On a non-empty list, `PopBack` removes the last element. |
| DList.PopFront | container/sequential/dlist.h:767-772 | On a non-empty list, `PopFront` removes the first element. |
| DList.PushThenPop | container/sequential/dlist.h:746-772 | A pop undoes a push at the same end. |
| DList.Clear | container/sequential/dlist.h:827-841 | `Clear` destroys exactly as many nodes as the list holds and leaves it empty with `Begin() == End()`. |
| DList.GetElementCount | container/sequential/dlist.h:864-871 | Counting the forward steps from `Begin()` to `End()` gives the length. |
| DList.Traverse | container/sequential/dlist.h:420-425 | Forward traversal from `Begin()` to `End()` reads the elements in order. |
| DList.RIncrement | container/sequential/dlist.h:580-585 | A reverse step yields a link. |
| DList.RDecrement | container/sequential/dlist.h:587-592 | A reverse step back yields a link. |
| DList.ReverseStepsInverse | container/sequential/dlist.h:580-592 | The reverse iterator's increment and decrement undo each other. |
| DList.ReverseTraverse | container/sequential/dlist.h:580-585 | Traversal from `RBegin()` to `REnd()` reads the reversed sequence. |
| DList.Walk | container/sequential/dlist.h:877-881 | While the count is positive, the walk never reaches the anchor before a step, and it ends `n` positions on. |
| DList.GetIteratorByIndex | container/sequential/dlist.h:873-883 | For 0 ≤ i ≤ length the result is position i, which is `End()` for i equal to the length. A negative index gives `Begin()`. |
| DList.InsertAt | container/sequential/dlist.h:813-818 | Inserting at index i (0 for a negative index) places the element at that index. |
| DList.RemoveAt | container/sequential/dlist.h:820-825 | Removing at index i (0 for a negative index) deletes exactly that element. |
| DList.GetElementAt | container/sequential/dlist.h:843-848 | The element at index i (0 for a negative index). |
| DList.InsertRange | container/sequential/dlist.h:803-811 | Inserting each element of the range before the fixed position lands the range there in its original order. |
| DList.Copy | container/sequential/dlist.h:673-680 | The copy holds the same elements in the same order. |
| KeyHash.Eq | utility/hash/keyhash.h:58-68 | `==` holds exactly when both the keys and the hashes are equal. |
| KeyHash.Ne | utility/hash/keyhash.h:70-75 | `!=` holds exactly when the hashes or the keys differ. |
| KeyHash.Lt | utility/hash/keyhash.h:77-82 | `<` compares the hashes alone: values whose hashes collide are never ordered when the hash `<` is irreflexive. When it is a strict order, `<` is asymmetric. When it is a strict total order, two values with different hashes are ordered one way or the other. |
| KeyHash.LtIgnoresKeys | utility/hash/keyhash.h:77-82 | `<` depends on the hashes alone: changing either key does not change it. |
| KeyHash.Le | utility/hash/keyhash.h:84-89 | `<=` holds when the first hash is less, or when the two values are equal. |
| KeyHash.Gt | utility/hash/keyhash.h:91-96 | `>` holds when the first hash is not less and the two values differ. |
| KeyHash.Ge | utility/hash/keyhash.h:98-103 | `>=` holds exactly when the first hash is not less. |
| KeyHash.CollidingKeysBothGreater | utility/hash/keyhash.h:77-96 | Two different keys with equal hashes are each `>` the other, and neither is `<` the other. `>=` does not mirror `<=` for them. |
| KeyHash.GeIsGtOrEq | utility/hash/keyhash.h:91-103 | When the hash order is irreflexive, `>=` is `>` or `==`. |
| KeyHash.HashTrichotomy | utility/hash/keyhash.h:77-103 | For a strict total hash order and values that do not collide, exactly one of `<`, `==`, `>` holds, `>` mirrors `<`, and `>=` mirrors `<=`. |
| KeyHash.KeyEq | utility/hash/keyhash.h:111-116 | In the key-only specialisation, `==` holds exactly when the keys are equal. |
| KeyHash.KeyNe | utility/hash/keyhash.h:118-123 | `!=` holds exactly when the keys differ. |
| KeyHash.KeyLt | utility/hash/keyhash.h:125-130 | `<` compares the keys: equal keys are never ordered when the key `<` is irreflexive. When it is a strict order, `<` is asymmetric. When it is a strict total order, two different keys are ordered one way or the other. |
| KeyHash.KeyLe | utility/hash/keyhash.h:132-137 | `<=` holds when the keys are less or equal. |
| KeyHash.KeyGt | utility/hash/keyhash.h:139-144 | `>` holds when the first key is neither less nor equal. |
| KeyHash.KeyGe | utility/hash/keyhash.h:146-151 | `>=` holds when the first key is not less. |
| KeyHash.KeyTrichotomy | utility/hash/keyhash.h:111-151 | Under a strict total key order, exactly one of `<`, `==`, `>` holds. `>` and `>=` mirror `<` and `<=`, and `>=` is `>` or `==`. |
| KeyHash.UnrelatedKeysBothGreater | utility/hash/keyhash.h:125-144 | Without totality, two distinct unrelated keys are each `>` the other. |
| JavaStringHash.Fold | utility/hash/javastringhash.h:19-23 | The loop from a start value: no bytes leave the start value, and one byte is one `*31 +` step. |
| JavaStringHash.Hash | utility/hash/javastringhash.h:14-26 | The hash starts from 0: no bytes hash to 0, and a single byte hashes to its own value. |
| JavaStringHash.HashSnoc | utility/hash/javastringhash.h:19-23 | The hash of s followed by byte b is hash(s) * 31 + b, modulo 2^32. |
| JavaStringHash.FoldAppend | utility/hash/javastringhash.h:19-23 | The fold over a concatenation continues from the fold over its first part. |
| JavaStringHash.Collision | utility/hash/javastringhash.h:14-26 | The hash is not injective: the bytes of "Aa" and "BB" hash alike. |
| JavaStringHash.ObjectHash | utility/hash/javastringhash.h:14-26 | The loop over the value's bytes computes the fold from 0 over exactly those bytes. |
| JavaStringHash.PointeeHash | utility/hash/javastringhash.h:28-31 | The pointer overload returns the hash of the pointee's bytes. |
| JavaStringHash.StrLen | utility/hash/javastringhash.h:61 | The C string length is the position of the first zero byte. |
| JavaStringHash.CStringHash | utility/hash/javastringhash.h:56-68 | The `char*` loop computes the fold over the bytes before the first zero byte. |
| JavaStringHash.EmptyCStringHash | utility/hash/javastringhash.h:56-67 | The empty C string hashes to 0. |
| JavaStringHash.AfterTerminatorIgnored | utility/hash/javastringhash.h:61 | Bytes after the terminator do not affect the C string hash. |
| JavaStringHash.CStringIsByteHash | utility/hash/javastringhash.h:50-69 | For a string without zero bytes, the C string hash of the terminated string equals the byte fold of the string. |
| JavaStringHash.Select | utility/hash/javastringhash.h:50-69 | `char*` selects the C string loop, and `char` folds over one byte. |
| JavaStringHash.SpecialisationsShareBase | utility/hash/javastringhash.h:34-48 | `const T` and `T*` hash like `T`, except that a pointer to (const) `char` selects the C string loop. |
| Allocator.GetMaxSize | allocator.h:141-147 | The result is at least 1. For an element size up to SIZE_MAX, it is the largest count whose byte size fits in `size_t`. |
| Allocator.AllocateAdmits | allocator.h:111-112 | The guard admits only positive counts. For any element size `size_t` can hold, it admits exactly the positive counts whose byte size does not overflow `size_t`. |
| Allocator.Allocate | allocator.h:106-115 | The result is null exactly when the guard fails, and then the heap is unchanged. Otherwise the result is a new block of `count` raw slots, other blocks are unchanged, and the byte size fits in `size_t`. |
| Allocator.AllocateZeroIsNull | allocator.h:110-114 | `Allocate(0)` returns null and allocates nothing. |
| Allocator.Deallocate | allocator.h:117-122 | Null is ignored; otherwise exactly the block is freed. |
| Allocator.DeallocateIgnoresCount | allocator.h:117-122 | The count argument makes no difference. |
| Allocator.AllocateThenDeallocate | allocator.h:106-122 | Deallocating what `Allocate` returned restores the heap. |
| Allocator.Construct | allocator.h:124-130 | The designated slot holds the value, and every other slot and block is unchanged. |
| Allocator.Destroy | allocator.h:133-138 | The designated live slot becomes raw, and every other slot and block is unchanged. |
| Allocator.ConstructThenDestroy | allocator.h:124-138 | Destroying what was constructed in a raw slot restores the heap. |
| Allocator.AllocatorsEqual | allocator.h:149-154 | The global `operator==` holds for any two operands. |
| Allocator.AllocatorsDiffer | allocator.h:156-161 | The global `operator!=` holds for no two operands. |

## Left out

- The tree's iterator `Decrement` (btree.h:528-533) has an empty body, and it is not modelled.
- These tree members are declared but never defined, and are not modelled: `Begin`/`End`/`RBegin`/`REnd`, `Clear`, `GetElement`, the copy constructor and assignment, and the reverse iterators. The empty destructor (btree.h:334-336) leaks every node and is not modelled.
- The tree's hash functor is not modelled: keys are `int` and the ordering key is the key itself. `new`/`delete` of tree nodes are not modelled either: a removed node simply leaves the algebraic tree.
- `BTreeLinks` models only the two-children branch of `Remove(iterator)` on explicit links. The leaf, one-child, insertion and lookup cases are modelled on the algebraic tree, whose parent links are implicit in the paths.
- BTree.RemoveAsWritten: the algebraic tree's parent links follow from the paths, so they are always consistent. The parent links that the source's two-children branch leaves on the freed node (exhibited by `BTreeLinks.AsWrittenLeftChildDangles`) are not carried over, and operations after such a removal, which climb through the freed node, are not modelled.
- `Remove(iterator)` uses the iterator's `operator++` (btree.h:385) and compares against `End()` with `operator!=` (btree.h:380). The header declares these but does not define them. The model takes `++` to be `Increment`, and `End()` to be the null iterator `End`.
- BTree.GetElementCount and the counts of `DList` are unbounded `nat`. The 64-bit wrap-around of `size_t` counts, which needs 2^64 nodes, is not modelled.
- In `DList`, node memory and the node allocator's `Allocate`/`Construct`/`Destroy`/`Deallocate` calls inside `Insert`, `Remove` and `Clear` are not modelled. The list is its sequence of values, and `Clear` reports how many nodes it destroys.
- DList.InsertRange: the range is read from a separate list value. Inserting a range of a list into that same list is not modelled.
- `DList` indices are unbounded `int`. The width of `index_type` is not modelled.
- The list's copy constructor does not copy the allocator. Allocators carry no state, so this is not modelled.
- The const and non-const duplicates of iterators and accessors, `operator->`, and the postfix `++`/`--` wrappers are mechanical and are not modelled separately.
- The object representation that `reinterpret_cast` yields (javastringhash.h:17) is a parameter: `sizeof(T)` is the length of the byte sequence given. Pointee bytes come from a function parameter.
- The signed `int` loop counters are not modelled: the comparison with `sizeof` (javastringhash.h:19) and the index of the `char*` loop (javastringhash.h:61), which overflows on a string longer than `INT_MAX` bytes. `ObjectHash`, `StrLen` and `CStringHash` count with an unbounded counter.
- `SKeyHash`'s `==` and `!=` on keys and hashes are Dafny equality, and `!=` is its negation. A key or hash type whose own `!=` is not the negation of its `==` is not modelled.
- `size_t` is fixed at 64 bits (`SIZE_MAX` = 2^64 - 1) in `Allocator`. Other widths are not modelled.
- JavaStringHash.Step has no contract of its own. Its 32-bit wrap-around is that of `bv32` arithmetic. An integer statement of it (`(h * 31 + b) mod 2^32`) is beyond what the solver proves here.
- `SKeyHash`'s constructors only copy their arguments and are not modelled. The hash type's and key type's own `<` are parameters.
- `CAllocator`'s empty constructors and assignment, `SRebind` and `AddressOf` are not modelled. `AddressOf` returns the address of its argument, and the abstract heap has no address-of.
- A failure of `::operator new` (`std::bad_alloc`) is not modelled. Allocation succeeds at a fresh address the caller supplies.
- container/associative/hashtable.h, container/iterator/iterator.h, vector.h, container/sequential/vector.h, typetraits/is_cstring.h, utility/hash/dummyhash.h and utility/hash/nohash.h are not part of this model. They are stubs, compile-time markers or identity functions.

## Findings

| source | as written | input that shows it | evidently intended | confidence | as-written member | corrected member |
|---|---|---|---|---|---|---|
| container/associative/btree.h:378-439 | `Remove(iterator)` never decrements `m_Size` | insert key 7 into a new tree, then remove it: the root is null but `GetElementCount()` is 1 and `IsEmpty()` is false | the count drops by one on every removal, so `GetElementCount` returns the number of elements as btree.h:119 documents | not executed | BTree.SizeNotDecremented | BTree.Remove |
| container/associative/btree.h:414-436 | the two-children branch moves the successor into the removed node's place, but never sets the parent links of its new children to the successor | root 5 with children 3 and 8: after removing 5, node 3's parent link still designates the freed node 5 | the left child, and the old right child when it is not the successor, get the successor as their parent; and, when the successor is the right child, the successor's right child gets the successor as its parent too, where btree.h:420 gives it the freed node | not executed | BTreeLinks.AsWrittenLeftChildDangles | BTreeLinks.RemoveTwo |
