# Verified model of a C++ list library: doubly linked list, growable array, sorted list

The library provides three containers of element handles. They share a
positional list interface: Insert, Remove and Get by index; IndexOf by an
element's Equals; ToString as `{a, b, c}`; and Clear.

- `DoubleLinkedList` keeps its elements in a chain of nodes linked both ways,
  with a `head`, a `tail` and a `size_t` count.
- `VSArray` keeps them in the first slots of a heap array. When an insertion
  finds the array full, it grows the array by a growth factor `delta`.
- `SortedDoubleLinkedList` is a `DoubleLinkedList` whose Insert takes no
  position. It places the element before the first element that does not
  compare less than it.

The model has five modules:

- `ListContract` (`list_contract.dfy`) gives the sequence-level meaning both
  lists are specified against:
  - `Inserted` and `Removed` for positional insertion and removal;
  - `FirstMatch` for IndexOf;
  - `Render` for ToString, with `Join` as an independent reference for it;
  - the `Option` datatype, whose `None` stands for a null result;
  - the `size_t` maximum and the `SizeT` range of a count.
- `DLinkedList` (`dlinkedlist.dfy`) holds the classes `Node` and
  `DoubleLinkedList`, which work on real heap nodes. A ghost spine `Nodes`
  and a ghost value `Contents` tie the chain to a sequence. `Valid()` states
  only that the chain is well formed. Two separate predicates track the rest:
  `Counted()` (the count agrees with the chain) and `TailIsLast()`. They are
  separate because the code does not keep them up to date, as listed below.
- `GrowableArray` (`vsarray.dfy`) holds the class `VSArray` over a Dafny
  `array`. `Grown` is the capacity a resize produces.
- `SortedDLinkedList` (`sorted_double_linked_list.dfy`) holds the class
  `SortedDoubleLinkedList`. It owns a `DoubleLinkedList` and splices into its
  chain. It also defines the sequence notions `Sorted` and `InsertionPoint`.
- `Scenarios` (`scenarios.dfy`) holds small fixed runs of the containers,
  each proved to end in the state it should.

Each element capability is passed in as a function:

- `equals(stored, probe)` for Equals;
- `show` for an element's ToString;
- `key` for the sort order, where `CompareTo(a, b)` is `key(a) - key(b)`;
- `clone` for Clone.

Behaviour of the code worth knowing, which the model reproduces:

- **Ties in the sorted list.** The sorted Insert puts a new element before
  every element that compares equal to it: it stops at the first element
  that is not less than the new one.
- **Array growth.** A resize truncates `capacity * (1 + delta)` toward zero,
  as the cast to `size_t` does. It does not round up. With a small `delta`
  or a small capacity, the store therefore does not grow. Insert's
  precondition excludes that case, because the code would then write past
  the end of the store.
- **DoubleLinkedList Insert and `tail`.** Insert never updates `tail`.
- **DoubleLinkedList Insert on a zero count.** When the count is zero, the
  new node becomes the whole chain, whatever chain there was.
- **DoubleLinkedList copy constructor.** It copies the chain but not the
  count, which stays zero. Copy assignment keeps its own count.
- **Sorted Insert and the count.** The sorted Insert never increments the
  count.
- **The count wraps.** The linked list's count is a `size_t`. Remove on a
  non-empty chain whose count is zero wraps the count to its maximum, and
  Insert on a count at the maximum wraps it to zero. The next Insert then
  restarts the chain.
- **VSArray copy assignment.** It exchanges the store, count and capacity,
  but not the growth factor.

## Model

| member | source | states |
|---|---|---|
| `ListContract.Inserted` | vsarray.cpp:116-123 | the contents after an insertion at `p`: one longer, `x` at `p`, earlier elements in place, later ones one slot up |
| `ListContract.Removed` | vsarray.cpp:156-161 | the contents after removing position `p`: one shorter, earlier elements in place, later ones one slot down |
| `ListContract.RemoveThenInsert` | vsarray.cpp:147-163 | removing position `p` and inserting the removed element at `p` again gives back the original list |
| `ListContract.InsertThenRemove` | vsarray.cpp:105-126 | inserting at `p` and then removing position `p` gives back the original list |
| `ListContract.InsertedMultiset` | dlinkedlist.cpp:110-145 | an insertion adds exactly the inserted element to the multiset of elements and loses none |
| `ListContract.FirstMatch` | dlinkedlist.cpp:152-168 | IndexOf's answer: -1 exactly when no element Equals the probe; otherwise an index whose element Equals it, with no earlier one that does |
| `ListContract.Render` | dlinkedlist.cpp:245-264 | ToString's text starts with `{` and ends with `}`, and is `{}` for the empty list |
| `ListContract.ItemsIsJoin` | vsarray.cpp:184-197 | the text streamed between the braces equals the ", "-join of the element texts |
| `ListContract.RenderIsJoin` | dlinkedlist.cpp:245-264 | ToString's text is `{`, then the element texts joined by ", ", then `}` |
| `DLinkedList.DoubleLinkedList.constructor` | dlinkedlist.cpp:87-89 | the default list is empty: null head and tail, zero count, a valid chain |
| `DLinkedList.DoubleLinkedList.Copy` | dlinkedlist.cpp:19-38 | the copy has a fresh chain with the same elements as `other`, its tail on the last node, and a count of zero |
| `DLinkedList.DoubleLinkedList.AppendCopiesOf` | dlinkedlist.cpp:24-37 | the copying loop builds a fresh valid chain with `other`'s elements in order and `tail` on its last node |
| `DLinkedList.DoubleLinkedList.LinkLast` | dlinkedlist.cpp:66-77 | a node linked after the tail becomes the new last node and the new tail; the chain stays valid |
| `DLinkedList.DoubleLinkedList.Assign` | dlinkedlist.cpp:45-82 | copy assignment: self-assignment changes nothing; otherwise a fresh chain holds `rhs`'s elements and `tail` is its last node; the count is kept in both cases |
| `DLinkedList.DoubleLinkedList.Insert` | dlinkedlist.cpp:110-145 | succeeds exactly when `position` does not exceed the count, and changes nothing otherwise; on success the `size_t` count increments, wrapping from its maximum to 0, and `tail` is unchanged; a zero count makes the new element the whole list, otherwise the contents are `Inserted(old, position, element)` and a fresh node sits at `position`; a correct count below the maximum stays correct |
| `DLinkedList.DoubleLinkedList.LinkAt` | dlinkedlist.cpp:124-142 | prepending at 0, or walking to `position - 1` and splicing after it, puts the new node at `position` of a valid chain |
| `DLinkedList.DoubleLinkedList.StartChain` | dlinkedlist.cpp:122-123 | the new node becomes the whole chain |
| `DLinkedList.DoubleLinkedList.LinkFirst` | dlinkedlist.cpp:124-128 | the new node is put in front of the old head and becomes the head; the chain stays valid |
| `DLinkedList.DoubleLinkedList.InsertAfter` | dlinkedlist.cpp:135-141 | the new node is spliced right after the node at `position - 1`, giving chain and contents `Inserted(old, position, ·)` |
| `DLinkedList.DoubleLinkedList.Splice` | dlinkedlist.cpp:135-141 | the four link writes put the new node between `temp` and its old successor, both ways |
| `DLinkedList.DoubleLinkedList.IndexOf` | dlinkedlist.cpp:152-168 | the walk returns `FirstMatch` of the contents |
| `DLinkedList.DoubleLinkedList.Remove` | dlinkedlist.cpp:175-215 | returns the element at `position`, or absent (changing nothing) when `position` is past the chain; on success the chain and contents are `Removed(old, position)`, `tail` moves to the previous node when the last one goes, and the `size_t` count decrements, wrapping below zero; a correct count stays correct |
| `DLinkedList.DoubleLinkedList.Unlink` | dlinkedlist.cpp:189-201 | relinking the neighbours takes the node at `position` out of the chain, moving `head` or `tail` when an end node goes |
| `DLinkedList.DoubleLinkedList.Get` | dlinkedlist.cpp:222-238 | the element at `position`, or absent exactly when `position` is past the chain |
| `DLinkedList.DoubleLinkedList.ToString` | dlinkedlist.cpp:245-264 | the streamed text equals `Render` of the contents |
| `DLinkedList.DoubleLinkedList.Clear` | dlinkedlist.cpp:270-283 | the list is empty again: null head and tail, zero count |
| `GrowableArray.Grown` | vsarray.cpp:64 | the resized capacity is `capacity * (1 + delta)` truncated toward zero |
| `GrowableArray.GrownNeverShrinks` | vsarray.cpp:63-77 | a resize never makes the store smaller, so the copy loop has room for every live element |
| `GrowableArray.GrowsIff` | vsarray.cpp:64 | a resize adds a slot exactly when `capacity * delta` reaches at least one whole slot |
| `GrowableArray.GrowthByHalf` | vsarray.cpp:64 | capacity 2 with delta 0.5 grows to 3 |
| `GrowableArray.TruncatedGrowthStalls` | vsarray.cpp:64 | capacity 2 with delta 0.4 stays at 2, because 2.8 truncates to 2 |
| `GrowableArray.VSArray.constructor` | vsarray.cpp:84-87 | an empty array with a fresh store of the given capacity and the given growth factor |
| `GrowableArray.VSArray.Copy` | vsarray.cpp:18-27 | a fresh store of `other`'s capacity whose live slots hold clones of `other`'s elements, with `other`'s count and growth factor |
| `GrowableArray.VSArray.Assign` | vsarray.cpp:34-58 | self-assignment changes nothing; otherwise the array takes a fresh store with clones of `rhs`'s elements, and `rhs`'s count and capacity |
| `GrowableArray.VSArray.Resize` | vsarray.cpp:63-77 | a fresh store of `Grown(capacity)` slots holding the same live elements |
| `GrowableArray.VSArray.Insert` | vsarray.cpp:105-126 | succeeds exactly when `position` does not exceed the count, and changes nothing otherwise; on success the contents are `Inserted(old, position, element)`, and the capacity is `Grown(old capacity)` when the store was full and unchanged otherwise |
| `GrowableArray.VSArray.IndexOf` | vsarray.cpp:133-140 | the scan returns `FirstMatch` of the contents |
| `GrowableArray.VSArray.Remove` | vsarray.cpp:147-163 | returns the element at `position` and leaves `Removed(old, position)`, or returns absent and changes nothing when `position` is not a live slot |
| `GrowableArray.VSArray.Get` | vsarray.cpp:170-177 | present exactly when `position` is a live slot, and then it is that element |
| `GrowableArray.VSArray.ToString` | vsarray.cpp:184-197 | the streamed text equals `Render` of the contents |
| `GrowableArray.VSArray.Clear` | vsarray.cpp:202-207 | no live elements remain; the store and its capacity stay |
| `GrowableArray.VSArray.GetCapacity` | vsarray.cpp:213-215 | the store's length, which always covers the count |
| `SortedDLinkedList.InsertionPoint` | sorted_double_linked_list.cpp:30-40 | where Insert puts `x`: every earlier element compares less than `x`, and the element there, if any, does not |
| `SortedDLinkedList.SortedPairwise` | sorted_double_linked_list.cpp:17-22 | ordered neighbours mean that every pair of elements is ordered |
| `SortedDLinkedList.InsertionKeepsOrder` | sorted_double_linked_list.cpp:17-22 | inserting at the insertion point keeps a sorted list sorted |
| `SortedDLinkedList.RemovalKeepsOrder` | dlinkedlist.cpp:175-215 | removing any position from a sorted list leaves it sorted, so the inherited Remove keeps the sorted list sorted |
| `SortedDLinkedList.InsertionPointSplits` | sorted_double_linked_list.cpp:30-40 | in a sorted list, the elements before the insertion point are exactly those with a smaller key |
| `SortedDLinkedList.InsertionPointAt` | sorted_double_linked_list.cpp:37-40 | the position where the scan stops is the insertion point |
| `SortedDLinkedList.SortedDoubleLinkedList.constructor` | sorted_double_linked_list.cpp:15 | an empty chain |
| `SortedDLinkedList.SortedDoubleLinkedList.Insert` | sorted_double_linked_list.cpp:23-55 | always succeeds; the contents become `Inserted(old, InsertionPoint(old, element), element)` with a fresh node there, and the count is unchanged; `tail` moves to the new node exactly when it is placed at the end; a tail on the last node stays so; a sorted list stays sorted |
| `SortedDLinkedList.SortedDoubleLinkedList.StartSorted` | sorted_double_linked_list.cpp:26-29 | on an empty chain the new node becomes head, tail and the whole chain |
| `SortedDLinkedList.SortedDoubleLinkedList.PrependSorted` | sorted_double_linked_list.cpp:30-34 | when the head does not compare less than the new element, the insertion point is 0 and the new node becomes the head |
| `SortedDLinkedList.SortedDoubleLinkedList.SpliceAfterSmaller` | sorted_double_linked_list.cpp:35-51 | the scan stops after the leading run of smaller elements, at the insertion point; the splice puts the new node there and moves `tail` when it lands at the end |
| `Scenarios.SortedInsertOrder` | sorted_double_linked_list.cpp:23-55 | inserting 5, 1 and 3 into a sorted list reads back 1, 3, 5 |
| `Scenarios.GrowByHalf` | vsarray.cpp:105-126 | a third insertion into a full array of capacity 2 with delta 0.5 resizes it to 3 and stores the element |
| `Scenarios.RemovePastEndOfList` | dlinkedlist.cpp:175-215 | removing position 10 from a three-element linked list yields absent and keeps the count at 3 |
| `Scenarios.RemovePastEndOfArray` | vsarray.cpp:147-163 | removing position 10 from a three-element array yields absent and keeps the count at 3 |
| `Scenarios.ClearEmpties` | dlinkedlist.cpp:270-283 | after Clear the count is 0, ToString is `{}` and Get(0) is absent |
| `Scenarios.UncountedCopy` | dlinkedlist.cpp:19-38 | a copy of [1, 2, 3] holds the same elements with a count of 0 |
| `Scenarios.CountWrapsAround` | dlinkedlist.cpp:110-145 | in that copy, Remove(0) wraps the count to the maximum and Insert wraps it back to 0; the next Insert at 0 restarts the chain, which then reads back just [8] with a count of 1 |

## Left out

- Memory release (destructors, `delete` in Clear and Remove, the old store in Resize and in copy assignment) is not modelled. Dafny has no explicit deallocation. Dropped nodes and stores simply become unreachable.
- Allocation failure is not modelled.
- The element classes (`Object`, `Comparable`, their `Equals`, `ToString`, `Clone`, `CompareTo`) are not part of this model. They are passed in as the functions `equals`, `show`, `clone` and `key`. The `dynamic_cast` in the sorted scan is taken to succeed.
- `std::stringstream` is modelled as string concatenation.
- `list.h` and the class headers are not part of this model. The base constructor is assumed to start the count at zero and, in VSArray's copy constructor, to copy `other`'s count. `Size()` is the count field. `IsEmpty` is not modelled.
- VSArray's `delta` is a `double` in the source. Here it is the non-negative rational `deltaNum / deltaDen`. Floating-point rounding of `capacity * (1 + delta)` and negative growth factors are not modelled.
- `size_t` is taken to be 64 bits wide (`SizeMax` is 2^64 - 1). Wrap-around is modelled only for DoubleLinkedList's count, which Insert and Remove wrap at both ends (`SizeT`). VSArray's count and capacity and the capacity product in Resize are unbounded naturals. VSArray's count never exceeds its capacity, and the store's length bounds that capacity, so its increment cannot wrap in a real run.
- IndexOf returns an `int`. The overflow of that value for positions beyond `INT_MAX` is not modelled.
- DLinkedList.DoubleLinkedList.Insert: requires that, when the count is non-zero and admits `position`, the chain is non-empty and at least `position` nodes long. The source walks `position - 1` links and dereferences the node it reaches, which is undefined behaviour when the count runs ahead of the chain. That can happen after copy assignment from a shorter list (the count is kept), or after a Remove that wraps a zero count to its maximum. It cannot happen after sorted inserts alone: they leave the count at 0, so Insert takes the branch that restarts the chain.
- GrowableArray.VSArray.Insert: requires that a resize of a full store adds at least one slot. The source otherwise writes past the end of the store. This happens, for example, with capacity 0 or a `delta` that truncates to no growth.
- SortedDLinkedList.SortedDoubleLinkedList.Insert: in the splice branch, `tail` is written after the neighbours' links rather than between them as in the source. No reader observes the difference.
- DLinkedList.DoubleLinkedList.Assign: the old chain's nodes are not freed. Their links are left as they were.
