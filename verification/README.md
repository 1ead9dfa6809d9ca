# DSJava containers in Dafny

This project models the container library DSJava in Dafny 4.11 and proves that each
container implements a simple abstract collection. The modelled containers are:

- the four ordered maps: the AVL tree, the red-black tree, the top-down splay tree and the skip list;
- the two hash maps, one with linear probing and one with separate chaining;
- the array-backed list, deque, queue and stack;
- the linked lists and the deque, stack and queue adapters built on them;
- the positional linked binary tree.

Every structure is an immutable datatype, and every operation is a function or method that
returns the new state together with the Java return value. Each structure has one abstraction
function: a `map<int, V>` for the maps and a `seq<E>` for the sequential containers. The
contracts relate each operation to that abstraction. The representation invariants each
operation keeps are stated and proved as well: BST order, AVL balance, red-black colouring,
skip-list level chains, probe runs, circular indices and link symmetry.

Modelling conventions:

- **Exceptions and null.** A Java exception is `Outcome.Throws(error)` in module `Common`; its
  kinds are null pointer, index out of bounds, illegal state, illegal argument and no such
  element. A Java `null` result is `Option.None`.
- **Keys.** Keys are `int` and compared by value.
- **Pointer structures.** Linked lists, the skip list and the positional tree are arenas: a
  `map` from node references (`nat`) to node records, with `Option` links in place of null.
  Each arena also carries a plain (non-ghost) witness field: the node order of a list, the
  ascending key order of a skip list, or the shape of a positional tree. The validity
  predicate ties the links to that witness.
- **Search trees.** The three search trees share `SearchTree.Tree<M, V>`, where `M` is the
  per-node metadata: the height in AVL, the colour in red-black, nothing in the splay tree.
  Parent links are not stored. A walk up the parent links, such as the AVL rebalance or the
  red-black fix-ups, is modelled as the return path of the recursion that went down. The
  red-black sentinel is the `Nil` tree, which is black.
- **Randomness.** The skip list's coin flips are the input `heads`, the number of heads
  before the first tail. The hash maps' random `scale` and `shift` are inputs too, with the
  ranges the constructor draws them from. A key's hash code is the key itself. The
  compression `|hash * scale + shift| mod prime mod capacity` is computed exactly, because
  the Java arithmetic is on `long` and cannot overflow for `int` keys in those ranges.
- **Defects.** Where the Java code is defective, the model has a member that follows the
  code as written, a concrete input that shows the defect, and a corrected definition that
  carries the intended property. Most operations keep the name of the Java method for the
  code as written. The hash maps are the exception: `LinearProbeHashMap.EntrySet` and the
  `AbstractHashMap` members `TableEntrySet`, `Resize`, `PutWithin` and `Put` scan every
  slot, and the `AsWritten` members follow the written scan. See "Findings" below.

Files: `common.dfy` (Outcome, Option, ring indices), `entries.dfy`, `hash_common.dfy`,
`unsorted_table_map.dfy`, `chain_hash_map.dfy`, `linear_probe_hash_map.dfy`,
`abstract_hash_map.dfy`, `array_list.dfy`, `array_deque.dfy`, `array_queue.dfy`,
`array_stack.dfy`, `doubly_links.dfy`, `doubly_linked_list.dfy`, `singly_linked_list.dfy`,
`circular_linked_list.dfy`, `linked_deque.dfy`, `linked_stack.dfy`, `linked_queue.dfy`,
`linked_list.dfy`, `search_tree.dfy`, `avl_tree.dfy`, `red_black_tree.dfy`,
`splay_tree.dfy`, `skip_list.dfy`, `binary_tree_shape.dfy`, `linked_binary_tree.dfy`.

## Model

| member | source | states |
|---|---|---|
| Common.DistinctCons | linkedlist/DoublyLinkedList.java:71-76 | a fresh node reference added at either end of a list of distinct references keeps them distinct, which every node-allocating operation relies on |
| Ring.ModOnce | deque/ArrayDeque.java:53-60 | Java's `%` on an index below twice the length is one conditional subtraction, which is how circular indices wrap |
| ArrayList.New | list/ArrayList.java:15-21 | the constructor throws NegativeArraySizeException exactly for a negative capacity; otherwise the new list is empty, valid, and has exactly the requested number of slots |
| ArrayList.Size | list/ArrayList.java:24-26 | `size()` is the number of elements held |
| ArrayList.IsEmpty | list/ArrayList.java:29-31 | `isEmpty()` holds exactly when no element is held |
| ArrayList.Get | list/ArrayList.java:33-51 | succeeds exactly for an index below the size and then yields that element; otherwise IndexOutOfBoundsException |
| ArrayList.Set | list/ArrayList.java:54-60 | same index check as get; on success only element `i` is replaced, the old one is returned and the capacity stays |
| ArrayList.Resize | list/ArrayList.java:62-66 | a negative capacity throws NegativeArraySizeException when the array is allocated; a shorter non-negative target throws as `System.arraycopy` does; copying into a longer array keeps every element and the old slots |
| ArrayList.ShiftRight | list/ArrayList.java:74-76 | the shifting loop of add moves the run `[i, n)` up one slot and keeps everything else |
| ArrayList.ShiftLeft | list/ArrayList.java:98-100 | the shifting loop of remove moves the run `(i, n)` down one slot and keeps everything else |
| ArrayList.Add | list/ArrayList.java:39-79 | succeeds exactly for a position index `0..size` on a non-zero capacity; the element lands at position `i` with the rest in order; a full array doubles, otherwise the capacity stays |
| ArrayList.AddLast | list/ArrayList.java:81-91 | appends `e` at the back, on a non-zero capacity |
| ArrayList.AddFirst | list/ArrayList.java:85-87 | puts `e` in front of all elements, on a non-zero capacity |
| ArrayList.Remove | list/ArrayList.java:94-104 | succeeds exactly for an element index; returns that element and closes the gap, keeping the order of the rest and the capacity |
| ArrayList.RemoveFirst | list/ArrayList.java:106-108 | throws exactly on an empty list; otherwise returns the front element and leaves the rest |
| ArrayList.RemoveLast | list/ArrayList.java:110-119 | null and no change on an empty list; otherwise the last element is returned and dropped |
| ArrayDeque.New | deque/ArrayDeque.java:13-19 | the constructor throws NegativeArraySizeException exactly for a negative capacity; otherwise the new deque is valid and empty with the requested capacity |
| ArrayDeque.Size | deque/ArrayDeque.java:22-24 | `size()` is the number of elements held |
| ArrayDeque.IsEmpty | deque/ArrayDeque.java:27-29 | `isEmpty()` holds exactly when no element is held |
| ArrayDeque.First | deque/ArrayDeque.java:32-39 | null when empty, otherwise the front element |
| ArrayDeque.Last | deque/ArrayDeque.java:42-50 | null when empty, otherwise the back element, read across the wrap-around |
| ArrayDeque.AddFirst | deque/ArrayDeque.java:53-60 | IllegalStateException exactly when full; otherwise `e` becomes the new front and the capacity stays |
| ArrayDeque.AddLast | deque/ArrayDeque.java:63-70 | IllegalStateException exactly when full; otherwise `e` becomes the new back |
| ArrayDeque.RemoveFirst | deque/ArrayDeque.java:73-83 | null and no change when empty; otherwise the front element is returned and removed |
| ArrayDeque.RemoveLast | deque/ArrayDeque.java:86-96 | null and no change when empty; otherwise the back element is returned and removed |
| ArrayQueue.New | queue/ArrayQueue.java:15-22 | the constructor throws NegativeArraySizeException exactly below -1; otherwise the array has one slot more than the capacity asked for, and the queue is valid and empty exactly when the capacity is not negative |
| ArrayQueue.Size | queue/ArrayQueue.java:25-27 | the modular distance from front to rear is the number of elements held |
| ArrayQueue.IsEmpty | queue/ArrayQueue.java:30-32 | front equal to rear means no element is held |
| ArrayQueue.First | queue/ArrayQueue.java:35-42 | null when empty, otherwise the front element |
| ArrayQueue.Enqueue | queue/ArrayQueue.java:45-51 | IllegalStateException exactly when all but one slot are used; otherwise `e` joins at the back |
| ArrayQueue.Dequeue | queue/ArrayQueue.java:54-63 | null and no change when empty; otherwise the front element is returned and removed |
| ArrayQueue.EnqueueThenDequeue | queue/ArrayQueue.java:45-63 | first in, first out: after enqueueing `e`, a dequeue returns the old front (or `e` on an empty queue) and `e` stays at the back |
| ArrayStack.New | stack/ArrayStack.java:9-16 | the constructor throws NegativeArraySizeException exactly for a negative capacity; otherwise the new stack is valid and empty with the requested capacity |
| ArrayStack.Size | stack/ArrayStack.java:19-21 | `size()` is the number of elements held |
| ArrayStack.IsEmpty | stack/ArrayStack.java:24-26 | `isEmpty()` holds exactly when no element is held |
| ArrayStack.Pop | stack/ArrayStack.java:29-38 | null and no change when empty; otherwise the top element is returned and removed |
| ArrayStack.Push | stack/ArrayStack.java:41-47 | IllegalStateException exactly when full; otherwise `e` goes on top |
| ArrayStack.Top | stack/ArrayStack.java:50-57 | null when empty, otherwise the top element |
| ArrayStack.PushThenPop | stack/ArrayStack.java:29-47 | last in, first out: a pop right after a successful push returns `e` and gives back the very same stack |
| SinglyLinkedList.New | linkedlist/SinglyLinkedList.java:9-10 | a new list is valid and empty |
| SinglyLinkedList.Size | linkedlist/SinglyLinkedList.java:38-40 | `size()` is the number of elements on the chain |
| SinglyLinkedList.IsEmpty | linkedlist/SinglyLinkedList.java:42-44 | empty exactly when no element is held, which is exactly when head and tail are null |
| SinglyLinkedList.First | linkedlist/SinglyLinkedList.java:46-51 | null when empty, otherwise the head element |
| SinglyLinkedList.Last | linkedlist/SinglyLinkedList.java:53-58 | null when empty, otherwise the tail element |
| SinglyLinkedList.AddFirst | linkedlist/SinglyLinkedList.java:60-70 | the chain stays valid and `e` is now in front of the old contents |
| SinglyLinkedList.AddLast | linkedlist/SinglyLinkedList.java:72-81 | the chain stays valid and `e` now follows the old contents |
| SinglyLinkedList.AddLastSound | linkedlist/SinglyLinkedList.java:76-79 | on a non-empty list, linking the old tail to the new node spells the contents plus `e` |
| SinglyLinkedList.RemoveFirst | linkedlist/SinglyLinkedList.java:83-94 | null and no change when empty; otherwise the head element is returned and the rest stays, tail cleared when the list empties |
| CircularLinkedList.New | linkedlist/CircularLinkedList.java:7-8 | a new list is valid and empty |
| CircularLinkedList.Size | linkedlist/CircularLinkedList.java:36-38 | `size()` is the number of elements on the ring |
| CircularLinkedList.IsEmpty | linkedlist/CircularLinkedList.java:40-42 | empty exactly when no element is held, which is exactly when tail is null |
| CircularLinkedList.First | linkedlist/CircularLinkedList.java:44-49 | null when empty, otherwise the element after the tail |
| CircularLinkedList.Last | linkedlist/CircularLinkedList.java:51-56 | null when empty, otherwise the tail's element |
| CircularLinkedList.Rotate | linkedlist/CircularLinkedList.java:58-62 | no change when empty; otherwise the first element moves to the end |
| CircularLinkedList.AddFirst | linkedlist/CircularLinkedList.java:64-75 | the ring stays valid and `e` is now first |
| CircularLinkedList.AddFirstSound | linkedlist/CircularLinkedList.java:69-73 | on a non-empty ring, the new node linked between tail and old first node spells `e` followed by the contents |
| CircularLinkedList.AddLast | linkedlist/CircularLinkedList.java:77-80 | addFirst then advancing the tail leaves `e` last |
| CircularLinkedList.RemoveFirst | linkedlist/CircularLinkedList.java:82-94 | null and no change when empty; otherwise the first element is returned and removed |
| DoubleLinks.SpliceInLinked | linkedlist/DoublyLinkedList.java:71-76 | splicing a fresh node between two neighbours of a doubly linked chain inserts it there, both link directions intact, other elements unchanged |
| DoubleLinks.SpliceOutLinked | linkedlist/DoublyLinkedList.java:86-93 | linking a node's neighbours to each other removes it from the chain, both link directions intact, other elements unchanged |
| DoublyLinkedList.New | linkedlist/DoublyLinkedList.java:9-14 | header and trailer linked to each other form a valid empty list |
| DoublyLinkedList.Size | linkedlist/DoublyLinkedList.java:49-51 | `size()` is the number of elements between the sentinels |
| DoublyLinkedList.IsEmpty | linkedlist/DoublyLinkedList.java:67-69 | empty exactly when no element is held |
| DoublyLinkedList.First | linkedlist/DoublyLinkedList.java:53-58 | null when empty, otherwise the element after the header |
| DoublyLinkedList.Last | linkedlist/DoublyLinkedList.java:60-65 | null when empty, otherwise the element before the trailer |
| DoublyLinkedList.AddBetween | linkedlist/DoublyLinkedList.java:71-76 | a new element between positions `p` and `p + 1` lands at index `p`, the rest in order |
| DoublyLinkedList.AddBetweenElements | linkedlist/DoublyLinkedList.java:71-76 | the arena after the splice is a valid list whose contents have `e` at index `p` |
| DoublyLinkedList.AddFirst | linkedlist/DoublyLinkedList.java:78-80 | `e` becomes the front |
| DoublyLinkedList.AddLast | linkedlist/DoublyLinkedList.java:82-84 | `e` becomes the back |
| DoublyLinkedList.Remove | linkedlist/DoublyLinkedList.java:86-93 | removing the node at position `p` returns its element and keeps the others in order |
| DoublyLinkedList.RemoveFirst | linkedlist/DoublyLinkedList.java:95-100 | null and no change when empty; otherwise the front element is returned and removed |
| DoublyLinkedList.RemoveLast | linkedlist/DoublyLinkedList.java:102-107 | null and no change when empty; otherwise the back element is returned and removed |
| LinkedDeque.New | deque/LinkedDeque.java:8-10 | a new deque is valid and empty |
| LinkedDeque.Size | deque/LinkedDeque.java:13-15 | `size()` is the number of elements held |
| LinkedDeque.IsEmpty | deque/LinkedDeque.java:18-20 | empty exactly when no element is held |
| LinkedDeque.First | deque/LinkedDeque.java:23-25 | null when empty, otherwise the front element |
| LinkedDeque.Last | deque/LinkedDeque.java:28-30 | null when empty, otherwise the back element |
| LinkedDeque.AddFirst | deque/LinkedDeque.java:33-35 | `e` becomes the front |
| LinkedDeque.AddLast | deque/LinkedDeque.java:38-40 | `e` becomes the back |
| LinkedDeque.RemoveFirst | deque/LinkedDeque.java:43-45 | null and no change when empty; otherwise the front element is returned and removed |
| LinkedDeque.RemoveLast | deque/LinkedDeque.java:48-50 | null and no change when empty; otherwise the back element is returned and removed |
| LinkedDeque.AddThenRemove | deque/LinkedDeque.java:33-50 | removing at the end just added to returns the added element and restores the contents, at both ends |
| LinkedQueue.New | queue/LinkedQueue.java:8-10 | a new queue is valid and empty |
| LinkedQueue.Size | queue/LinkedQueue.java:13-15 | `size()` is the number of elements held |
| LinkedQueue.IsEmpty | queue/LinkedQueue.java:32-34 | empty exactly when the size is 0 |
| LinkedQueue.Enqueue | queue/LinkedQueue.java:18-20 | `e` joins at the back |
| LinkedQueue.Dequeue | queue/LinkedQueue.java:23-29 | null and no change when empty; otherwise the front element is returned and removed |
| LinkedQueue.First | queue/LinkedQueue.java:37-42 | null when empty, otherwise the front element |
| LinkedQueue.EnqueueThenDequeue | queue/LinkedQueue.java:18-29 | first in, first out: after enqueueing `e`, a dequeue returns the old front (or `e` on an empty queue) and `e` stays at the back |
| LinkedStack.New | stack/LinkedStack.java:13-15 | a new stack is valid and empty |
| LinkedStack.Size | stack/LinkedStack.java:18-20 | `size()` is the number of elements held |
| LinkedStack.IsEmpty | stack/LinkedStack.java:38-40 | empty exactly when the size is 0 |
| LinkedStack.Push | stack/LinkedStack.java:28-30 | `e` goes on top |
| LinkedStack.Pop | stack/LinkedStack.java:23-25 | null and no change when empty; otherwise the top element is returned and removed |
| LinkedStack.Top | stack/LinkedStack.java:33-35 | null when empty, otherwise the top element |
| LinkedStack.PushThenPop | stack/LinkedStack.java:23-30 | last in, first out: a pop right after a push returns the pushed element and restores the contents |
| LinkedList.New | list/LinkedList.java:11-16 | header and trailer linked to each other form a sound empty list |
| LinkedList.Size | list/LinkedList.java:68-70 | on a list whose counter is right, `size()` is the number of elements |
| LinkedList.IsEmpty | list/LinkedList.java:73-75 | on a list whose counter is right, empty exactly when no element is held |
| LinkedList.First | list/LinkedList.java:53-58 | null when empty, otherwise the element after the header |
| LinkedList.Last | list/LinkedList.java:60-65 | null when empty, otherwise the element before the trailer |
| LinkedList.NodeAt | list/LinkedList.java:78-117 | IndexOutOfBoundsException exactly outside `[0, size)`; a walk that meets a broken `next` fails with NullPointerException; on a counted list it succeeds exactly when the walk reaches index `i`, and then yields the node holding element `i` |
| LinkedList.Get | list/LinkedList.java:120-127 | null on an empty list, IndexOutOfBoundsException for a bad index, element `i` when the walk reaches it and NullPointerException when it does not |
| LinkedList.Set | list/LinkedList.java:130-139 | as get, and on success only element `i` changes, the old one is returned and a sound list stays sound |
| LinkedList.SetElement | list/LinkedList.java:40-42 | writing a node's element keeps every link, so only that element changes |
| LinkedList.SpliceAsWrittenThreaded | list/LinkedList.java:23-26 | the splice as written threads the new node in by `prev` but leaves its own `next` null; every other link stays |
| LinkedList.ReplaceThreaded | list/LinkedList.java:157-163 | the splice add(i, e) performs around node `i` puts the new node in node `i`'s place in the chain |
| LinkedList.UnlinkThreaded | list/LinkedList.java:165-185 | unlinking and clearing an element node leaves a threaded chain without it, other links unchanged |
| LinkedList.AddBetween | list/LinkedList.java:141-146 | as written: the element lands at index `p`, `size` grows, but the new node's `next` is null |
| LinkedList.AddBetweenElements | list/LinkedList.java:141-146 | the arena after the written splice holds the contents with `e` at index `p` and a null `next` on the new node |
| LinkedList.AddFirst | list/LinkedList.java:148-150 | `e` becomes the front, with a null `next` |
| LinkedList.AddLast | list/LinkedList.java:152-154 | `e` becomes the back, with a null `next` |
| LinkedList.Add | list/LinkedList.java:157-163 | as written: IndexOutOfBoundsException outside `[0, size)` (an index equal to the size fails in nodeAt); on success element `i` is replaced by `e` while `size` grows, so the counter is wrong afterwards |
| LinkedList.Remove | list/LinkedList.java:174-185 | IndexOutOfBoundsException outside `[0, size)`; NullPointerException exactly when the walk or the node's `next` is broken; otherwise element `i` is returned and removed, and a sound list stays sound |
| LinkedList.RemoveElements | list/LinkedList.java:178-184 | unlinking the node at `q` drops exactly element `q - 1` and keeps a sound list sound |
| LinkedList.ReplaceElements | list/LinkedList.java:159-162 | the written add splice replaces element `q - 1` by `e` |
| LinkedList.SoundReaches | list/LinkedList.java:99-117 | on a sound list every index is reached and every element node's `next` is intact, so no operation meets null |
| LinkedList.AddBetweenLinked | list/LinkedList.java:141-146 | the corrected splice, with the new node linked to `succ`, keeps the list sound and inserts `e` at index `p` |
| LinkedList.AddBetweenLinkedSound | list/LinkedList.java:141-146 | the corrected splice's arena is sound and holds `e` at index `p` |
| LinkedList.AddFirstLinked | list/LinkedList.java:148-150 | the corrected addFirst keeps the list sound and puts `e` in front |
| LinkedList.AddLastLinked | list/LinkedList.java:152-154 | the corrected addLast keeps the list sound and puts `e` at the back |
| LinkedList.Insert | list/LinkedList.java:157-163 | the corrected add(i, e): succeeds exactly for a position index `0..size`, keeps the list sound and inserts `e` before element `i` |
| LinkedList.AddFirstBreaksGet | list/LinkedList.java:23-26 | after addFirst on three or more elements, index 1 can no longer be reached by the forward walk |
| LinkedList.AddLastBreaksRemove | list/LinkedList.java:23-26 | after addLast, the last element node has a null `next`, which remove dereferences |
| LinkedList.GetAfterAddFirsts | list/LinkedList.java:120-127 | four addFirst calls and then get(1) throw NullPointerException |
| LinkedList.RemoveAfterAddLast | list/LinkedList.java:174-185 | addLast(7) on a new list and then remove(0) throw NullPointerException |
| LinkedList.AddReplacesNode | list/LinkedList.java:157-163 | on [1, 2], add(0, 9) as written gives [9, 2] with size 3, where the corrected insert gives [9, 1, 2] |
| Entries.AsMapKeys | map/ChainHashMap.java:126-132 | the map an entry list stands for has exactly the listed keys |
| Entries.AsMapAt | map/ChainHashMap.java:91-97 | without repeated keys, every listed entry is what the map holds for its key |
| Entries.AsMapSize | map/ChainHashMap.java:77-79 | without repeated keys, the map has one key per entry |
| Entries.AsMapUpdate | map/ChainHashMap.java:100-107 | overwriting one entry's value updates just that key of the map |
| Entries.AsMapDelete | map/ChainHashMap.java:110-118 | deleting one entry, later entries moving down, removes just its key |
| Entries.AsMapAppend | map/ChainHashMap.java:100-107 | appending an entry with a new key keeps keys distinct and adds it to the map |
| Entries.AsMapConcat | map/ChainHashMap.java:57-67 | concatenating two lists with disjoint keys joins their maps |
| HashCommon.HashValue | map/AbstractHashMap.java:59-61 | the MAD hash always lands inside the table |
| UnsortedTableMap.Size | map/ChainHashMap.java:77-79 | `size()` is the number of keys stored |
| UnsortedTableMap.FindIdx | map/ChainHashMap.java:81-88 | -1 exactly when the key is absent; otherwise the first index holding it |
| UnsortedTableMap.Get | map/ChainHashMap.java:91-97 | the value stored for the key, or null when absent |
| UnsortedTableMap.Put | map/ChainHashMap.java:100-107 | the map gains `key -> value`; a new key is appended and null returned, an existing one is overwritten in place and its old value returned |
| UnsortedTableMap.Remove | map/ChainHashMap.java:110-118 | the key leaves the map; its value is returned and the table shrinks by one, or null and nothing changes |
| UnsortedTableMap.ContainsKey | map/ChainHashMap.java:121-123 | true exactly when the key is stored |
| ChainHashMap.FlatLookup | map/ChainHashMap.java:23-29 | looking a key up in the whole table is looking it up in its home bucket, and no key is listed twice |
| ChainHashMap.CreateTable | map/ChainHashMap.java:18-20 | `capacity` unallocated buckets make a valid, empty table |
| ChainHashMap.BucketGet | map/ChainHashMap.java:23-29 | the value the table holds for `k`, or null |
| ChainHashMap.Install | map/ChainHashMap.java:32-42 | installing a bucket whose keys all hash to `h` keeps the table valid and changes lookups only for keys hashing to `h` |
| ChainHashMap.BucketPut | map/ChainHashMap.java:32-42 | the table gains `k -> v`, returns the old value or null, and `n` grows exactly for a new key |
| ChainHashMap.BucketRemove | map/ChainHashMap.java:45-54 | `k` leaves the table, its value or null is returned, and `n` shrinks exactly when it was present |
| ChainHashMap.EntrySet | map/ChainHashMap.java:57-67 | lists every entry of the table exactly once, bucket by bucket |
| LinearProbeHashMap.StepInjective | map/LinearProbeHashMap.java:27-55 | a probe run from one start visits every slot at most once per turn |
| LinearProbeHashMap.LiveFacts | map/LinearProbeHashMap.java:90-98 | the live entries hold exactly the live slots' keys and values, without repeats, and are as many as the slots only when every slot is live |
| LinearProbeHashMap.StoreSlot | map/LinearProbeHashMap.java:67-75 | storing an entry in an available slot, or over its own key, updates that key of the map |
| LinearProbeHashMap.ClearSlot | map/LinearProbeHashMap.java:78-87 | marking a live slot DEFUNCT removes exactly its key |
| LinearProbeHashMap.CreateTable | map/LinearProbeHashMap.java:19-21 | `capacity` null slots make a valid, empty table: every slot is empty |
| LinearProbeHashMap.FindSlot | map/LinearProbeHashMap.java:23-55 | a stored key is found at its slot; an absent key yields `-(j + 1)` for the first available slot `j` of its probe run, every slot before it live; on a full table without the key the result is 0 |
| LinearProbeHashMap.NotFound | map/LinearProbeHashMap.java:35-50 | a probe that met no match and stopped at a null slot or after a full turn proves the key absent |
| LinearProbeHashMap.FullTurn | map/LinearProbeHashMap.java:49-54 | a full turn over live slots means the table is full |
| LinearProbeHashMap.StoreValid | map/LinearProbeHashMap.java:67-75 | a new key stored in the first available slot of its run keeps every probe run unbroken and adds the key |
| LinearProbeHashMap.ClearValid | map/LinearProbeHashMap.java:78-87 | marking a live slot DEFUNCT keeps every probe run unbroken and removes the key |
| LinearProbeHashMap.BucketGet | map/LinearProbeHashMap.java:58-64 | the value of `k`, or null; on a full table without `k`, slot 0's value comes back |
| LinearProbeHashMap.BucketPut | map/LinearProbeHashMap.java:67-75 | the table gains `k -> v`, the old value or null is returned and `n` grows exactly for a new key; on a full table without `k`, slot 0's value is overwritten instead; a new key whose home slot is available is stored in that slot |
| LinearProbeHashMap.BucketRemove | map/LinearProbeHashMap.java:78-87 | `k` leaves the table, its value or null is returned and `n` shrinks exactly when it was present; on a full table without `k`, slot 0 is removed instead |
| LinearProbeHashMap.EntrySet | map/LinearProbeHashMap.java:90-98 | the corrected scan over every slot lists every entry exactly once, in slot order |
| LinearProbeHashMap.EntrySetAsWritten | map/LinearProbeHashMap.java:90-98 | the scan as written stops after `n` slots, so it lists only the live entries of the first `n` slots |
| LinearProbeHashMap.EntrySetMissesEntry | map/LinearProbeHashMap.java:90-98 | a valid two-slot table with its one entry in slot 1: the written scan of one slot lists nothing |
| AbstractHashMap.NotFull | map/AbstractHashMap.java:45-51 | a probing table kept at most half full always has an available slot |
| AbstractHashMap.CreateTable | map/AbstractHashMap.java:76 | a new table of the same kind, valid, empty and of the requested length; a probing table has only empty slots |
| AbstractHashMap.New | map/AbstractHashMap.java:12-19 | a new map is valid and empty, with the given capacity and hash factors; a probing table starts with every slot empty |
| AbstractHashMap.NewDefault | map/AbstractHashMap.java:21-27 | the default constructor's map is valid and empty, with capacity 17 and prime 109345121 |
| AbstractHashMap.Size | map/AbstractHashMap.java:30-32 | `size()` is the number of keys stored |
| AbstractHashMap.Get | map/AbstractHashMap.java:40-42 | the value stored for the key, or null |
| AbstractHashMap.ContainsKey | map/AbstractHashMap.java:35-37 | true exactly when the key is stored |
| AbstractHashMap.TableEntrySet | map/AbstractHashMap.java:64-67 | with the corrected probing scan, the entries resize copies out are the map's, once each |
| AbstractHashMap.TableEntrySetAsWritten | map/AbstractHashMap.java:64-67 | as written, resize copies out distinct entries that the map holds: for a probing table exactly the live entries of the first `n` slots, for a chaining table all of them |
| AbstractHashMap.TablePut | map/AbstractHashMap.java:46 | the bucket put of either table kind adds `k -> v`, keeps `n` the key count and returns the old value or null; a new key whose home slot in a probing table is available lands in that slot |
| AbstractHashMap.PutWithin | map/AbstractHashMap.java:45-51 | the corrected put (resize scans every slot), with a ghost bound on the keys that orders its mutual recursion with resize: the map gains `key -> value`, the old value is returned, and the load stays at most one half |
| AbstractHashMap.Resize | map/AbstractHashMap.java:63-74 | the corrected resize: re-inserting every entry into a table of the new capacity keeps the map and leaves a valid table at least that large |
| AbstractHashMap.Put | map/AbstractHashMap.java:45-51 | the corrected put: the map gains `key -> value` and returns the old value or null; the table stays valid at load at most one half and never shrinks |
| AbstractHashMap.PutWithinAsWritten | map/AbstractHashMap.java:45-51 | put as written, with the ghost bound: the old value or null is returned and the table stays valid at load at most one half, but the result only lies within the updated map; it equals it for a chaining table and whenever no resize happens, and a new key landing in its home slot that triggers a resize leaves only entries of the first `n` slots of the filled table |
| AbstractHashMap.ResizeAsWritten | map/AbstractHashMap.java:63-74 | resize as written keeps only entries the map holds: for a probing table those of its first `n` slots, all of them when they fit at the new capacity; for a chaining table the whole map |
| AbstractHashMap.PutAllAsWritten | map/AbstractHashMap.java:71-73 | the re-put loop of resize as written yields a valid table within the map of the listed entries, equal to it for a chaining table or when the entries fit without a further resize |
| AbstractHashMap.PutAsWritten | map/AbstractHashMap.java:45-51 | put as written without the bound: the same promises as `PutWithinAsWritten` |
| AbstractHashMap.PutLosesEntry | map/AbstractHashMap.java:45-51 | a probing map of capacity 3 with scale 1 and shift 0: after put(2, "a") and put(0, "b") as written, key 2 is gone, while the corrected put keeps both keys |
| AbstractHashMap.Remove | map/AbstractHashMap.java:54-56 | the key leaves the map and its value or null is returned; the capacity stays |
| SearchTree.AsMapKeys | bst/AvlTree.java:35-44 | the map a search tree stands for has exactly the tree's keys |
| SearchTree.CountKeys | bst/AvlTree.java:245-247 | an ordered tree holds one key per node, so a node count is a key count |
| SearchTree.AsMapNode | bst/AvlTree.java:35-44 | in an ordered tree a lookup below a node's key is answered by the left subtree, above it by the right one, and at the key by the node |
| SearchTree.Search | bst/AvlTree.java:35-44 | the walk ends on a node exactly when the key is stored, and that node holds the key and its value |
| SearchTree.Get | bst/AvlTree.java:46-52 | get returns the value the map holds for the key, or null |
| SearchTree.RotateRightKeeps | bst/AvlTree.java:79-102 | a right rotation keeps the in-order keys, the key set, the node count, the order and the map |
| SearchTree.RotateLeftKeeps | bst/AvlTree.java:54-77 | a left rotation keeps the in-order keys, the key set, the node count, the order and the map |
| SearchTree.OrderedInOrder | bst/AvlTree.java:35-44 | an ordered tree lists its keys in strictly increasing in-order |
| SearchTree.PutBackLeft | bst/AvlTree.java:146-170 | a left subtree that gained `k -> v`, put back under its node, gives the node's map with `k -> v` |
| SearchTree.PutBackRight | bst/AvlTree.java:146-170 | the mirror image for the right subtree |
| SearchTree.TakeBackLeft | bst/AvlTree.java:201-234 | a left subtree that lost `k`, put back, gives the node's map without `k` |
| SearchTree.TakeBackRight | bst/AvlTree.java:201-234 | the mirror image for the right subtree |
| SearchTree.Splice | bst/AvlTree.java:214-229 | the right subtree's minimum, taken out and put in the node's place, leaves the node's map without the node's key |
| SearchTree.RemoveMinBase | bst/AvlTree.java:176-181 | the minimum of a node whose left child has no left child is that child, and splicing it out removes exactly its key |
| SearchTree.HeightFrom | bst/RedBlackTree.java:318-325 | the depth walk from a node at depth `d` reaches `d` plus the node's height |
| AvlTree.Fix | bst/AvlTree.java:130 | recomputing a node's height changes nothing but the height, and makes it right when the children's heights are right |
| AvlTree.RotR | bst/AvlTree.java:79-102 | a right rotation recomputes the lowered node's height correctly but gives the lifted node the lowered node's height, which is below its true height |
| AvlTree.RotL | bst/AvlTree.java:54-77 | the mirror image of the right rotation, with the same stale height on the lifted node |
| AvlTree.Rotated | bst/AvlTree.java:110-128 | at a node leaning by two, the single or double rotation leaves children whose stored heights are right |
| AvlTree.RebalanceAt | bst/AvlTree.java:104-137 | one position of the rebalancing walk, rotating until the node lifted into place leans by at most one, leaves every stored height right |
| AvlTree.FixKeeps | bst/AvlTree.java:130 | recomputing a height keeps the in-order sequence, the keys, the node count, the search-tree order and the map |
| AvlTree.RotatedKeeps | bst/AvlTree.java:54-128 | the rotations of one round keep the map and the search-tree order |
| AvlTree.RebalanceAtKeeps | bst/AvlTree.java:104-137 | a step of the rebalancing walk keeps the map and the search-tree order |
| AvlTree.FirstRound | bst/AvlTree.java:110-128 | after the first round at a node leaning left by two the lifted node no longer leans left by two, and if it leans right by two its heavy child leans outward (and the mirror image) |
| AvlTree.OutwardRound | bst/AvlTree.java:110-128 | a round at a node whose heavy child does not lean inward leaves a balance factor between -1 and 1 |
| AvlTree.SecondRoundSettles | bst/AvlTree.java:131 | the walk rotates at most twice at one position: after a second round the lifted node leans by at most one |
| AvlTree.BalancedRound | bst/AvlTree.java:110-128 | with AVL subtrees, one round leaves an AVL subtree unless the heavy child is balanced and the code picks the double rotation; the height drops by one except on such a tie |
| AvlTree.RebalanceAtBalances | bst/AvlTree.java:104-137 | a step of the walk over AVL subtrees whose heights differ by at most two yields an AVL subtree whose height is the taller child's plus one, or the taller child's after a rotation without a tie |
| AvlTree.Insert | bst/AvlTree.java:139-174 | the descent of put and the walk from the new leaf leave a non-empty tree with right stored heights; an existing key keeps the tree's shape |
| AvlTree.InsertKeeps | bst/AvlTree.java:139-174 | insertion maps the key to the new value, adds the key to the key set, keeps the order, reports the old value, and adds a node exactly when the key was new |
| AvlTree.InsertBalances | bst/AvlTree.java:139-174 | insertion keeps an AVL tree balanced and makes it at most one level taller, and a tree that grows leans to one side at its root |
| AvlTree.RemoveMin | bst/AvlTree.java:176-181 | taking out the minimum of a subtree with a left child leaves a non-empty tree with right stored heights |
| AvlTree.RemoveMinKeeps | bst/AvlTree.java:215-224 | the removed key is the subtree's least key and is mapped to the returned value; the rest of the map, the order and all but one node are kept |
| AvlTree.Delete | bst/AvlTree.java:201-234 | a removal that does not throw leaves right stored heights |
| AvlTree.DeleteHere | bst/AvlTree.java:206-232 | removal at the node holding the key throws NullPointerException exactly when that node is a leaf and the code is as written; otherwise exactly that key leaves the map and one node goes |
| AvlTree.DeleteKeeps | bst/AvlTree.java:201-234 | removal of a stored key throws NullPointerException exactly when its node is a leaf and the code is as written; otherwise exactly that key leaves the map, the order is kept and one node goes |
| AvlTree.ShrinkStep | bst/AvlTree.java:104-137 | a step of the corrected walk at a node one of whose AVL subtrees lost at most a level leaves an AVL subtree at most a level lower |
| AvlTree.RemoveMinBalances | bst/AvlTree.java:176-224 | with a single rotation on a tie, taking out the minimum keeps an AVL tree balanced and lowers it by at most one level |
| AvlTree.DeleteBalances | bst/AvlTree.java:201-234 | the corrected removal never throws, keeps an AVL tree balanced and lowers it by at most one level |
| AvlTree.New | bst/AvlTree.java:7-8 | a new tree is empty, counted and satisfies the AVL invariant |
| AvlTree.Size | bst/AvlTree.java:245-247 | when the size field is kept right it is the number of keys |
| AvlTree.Get | bst/AvlTree.java:46-52 | get returns the key's value, or null when absent |
| AvlTree.ContainsKey | bst/AvlTree.java:250-252 | containsKey holds exactly when the key is stored |
| AvlTree.Put | bst/AvlTree.java:139-174 | put as written maps the key to the value, keeps the AVL invariant, returns the old value or else the new one, and increments size for a new key except when the tree was empty |
| AvlTree.PutCounted | bst/AvlTree.java:139-174 | the corrected put maps the key to the value, keeps the AVL invariant and keeps size equal to the node count |
| AvlTree.Remove | bst/AvlTree.java:201-234 | remove as written returns null for an absent key, throws NullPointerException exactly when the key's node is a leaf, and otherwise removes exactly that key, returns its value and decrements size |
| AvlTree.RemoveFixed | bst/AvlTree.java:201-234 | the corrected remove never throws, removes exactly the key, returns its old value or null, and keeps the AVL invariant and the count |
| AvlTree.PutIntoEmptyMiscounts | bst/AvlTree.java:141-143 | after the first put the size field is 0 while one key is stored; the corrected put counts it |
| AvlTree.RemoveLeafThrows | bst/AvlTree.java:208-232 | removing the only key of a tree throws NullPointerException as written; the corrected remove leaves the empty tree |
| AvlTree.RemoveUnbalances | bst/AvlTree.java:110-128 | on a concrete AVL tree, the double rotation chosen on a tie by the strict comparison leaves a tree that is not balanced |
| RedBlackTree.Paint | bst/RedBlackTree.java:237-238 | repainting a node sets its colour and never turns the sentinel into a node or a node into the sentinel |
| RedBlackTree.InsFixLeft | bst/RedBlackTree.java:105-127 | a pass of the insertion fix-up at a grandparent whose left child is on the path leaves a node |
| RedBlackTree.InsFixRight | bst/RedBlackTree.java:128-151 | the mirror image of InsFixLeft leaves a node |
| RedBlackTree.Ins | bst/RedBlackTree.java:156-181 | the descent of put and the fix-up walk leave a non-empty tree, and a key already present keeps the tree's shape and colours |
| RedBlackTree.InsFixLeftKeeps | bst/RedBlackTree.java:105-127 | a fix-up pass only rotates and repaints: the map and the search-tree order are kept |
| RedBlackTree.InsFixRightKeeps | bst/RedBlackTree.java:128-151 | the mirror-image pass keeps the map and the search-tree order |
| RedBlackTree.InsKeeps | bst/RedBlackTree.java:156-186 | insertion maps the key to the new value, keeps every other entry and the order, reports the replaced value, and adds a node exactly for a new key |
| RedBlackTree.SameShapeColors | bst/RedBlackTree.java:166-170 | replacing a value keeps the colour rules and the black height |
| RedBlackTree.InsColors | bst/RedBlackTree.java:102-186 | insertion keeps the black height and black balance; a BLACK subtree comes back obeying the red rule, and a RED one comes back RED with the same key so a red-red pair can only sit just below the level that repairs it |
| RedBlackTree.InsFixLeftColors | bst/RedBlackTree.java:105-127 | the fix-up pass above a left subtree that came back from insertion restores the same colour invariant one level up |
| RedBlackTree.InsFixRightColors | bst/RedBlackTree.java:128-151 | the mirror image of InsFixLeftColors |
| RedBlackTree.Settle | bst/RedBlackTree.java:259-283 | the node that replaces a spliced-out node keeps the colour rules and the map; after a BLACK splice it is BLACK, and it is one BLACK node short exactly when the flag says so |
| RedBlackTree.DelCase4Left | bst/RedBlackTree.java:207-211 | case 4 of the delete fix-up for a left child removes the shortage: the result obeys both colour rules with the parent's full black height |
| RedBlackTree.DelCase4Right | bst/RedBlackTree.java:230-234 | the mirror image of DelCase4Left |
| RedBlackTree.Case3Left | bst/RedBlackTree.java:201-205 | case 3 turns a sibling with a RED inner child into one with a RED outer child, keeping the shortage, which is what case 4 needs |
| RedBlackTree.Case3Right | bst/RedBlackTree.java:224-228 | the mirror image of Case3Left |
| RedBlackTree.DelFixLeftBlack | bst/RedBlackTree.java:198-211 | cases 2 to 4 with a BLACK sibling either remove the shortage or pass it up to a BLACK parent, keeping both colour rules |
| RedBlackTree.DelFixRightBlack | bst/RedBlackTree.java:221-234 | the mirror image of DelFixLeftBlack |
| RedBlackTree.DelFixLeft | bst/RedBlackTree.java:190-212 | one visit of the delete fix-up at the parent of a short left child restores both colour rules and either removes the shortage or passes it up to a BLACK parent |
| RedBlackTree.DelFixRight | bst/RedBlackTree.java:213-236 | the mirror image of DelFixLeft |
| RedBlackTree.DelMin | bst/RedBlackTree.java:306-312 | taking the minimum out of a subtree keeps both colour rules, lowers the black height by one exactly when it reports a shortage, and keeps a BLACK root BLACK |
| RedBlackTree.Del | bst/RedBlackTree.java:241-288 | removal below the node holding the key keeps both colour rules, lowers the black height by one exactly when it reports a shortage, and keeps a BLACK root BLACK |
| RedBlackTree.DelCase4LeftKeeps | bst/RedBlackTree.java:207-211 | case 4 keeps the map and the search-tree order |
| RedBlackTree.DelCase4RightKeeps | bst/RedBlackTree.java:230-234 | the mirror-image case 4 keeps the map and the search-tree order |
| RedBlackTree.DelFixLeftBlackKeeps | bst/RedBlackTree.java:198-211 | cases 2 to 4 keep the map and the search-tree order |
| RedBlackTree.DelFixRightBlackKeeps | bst/RedBlackTree.java:221-234 | the mirror-image cases 2 to 4 keep the map and the search-tree order |
| RedBlackTree.DelFixLeftKeeps | bst/RedBlackTree.java:190-212 | a fix-up visit keeps the map and the search-tree order |
| RedBlackTree.DelFixRightKeeps | bst/RedBlackTree.java:213-236 | the mirror-image visit keeps the map and the search-tree order |
| RedBlackTree.DelMinBase | bst/RedBlackTree.java:306-312 | when the left child is the leftmost node, taking it out removes the least key, returns its value and keeps the rest of the map and the order |
| RedBlackTree.DelMinKeeps | bst/RedBlackTree.java:267-275 | taking the minimum out removes exactly the least key, returns its value, keeps the rest of the map and the order, and removes one node |
| RedBlackTree.DelHereNext | bst/RedBlackTree.java:267-283 | when the right child is the successor, removal at the node takes out exactly its key and one node |
| RedBlackTree.DelHereMin | bst/RedBlackTree.java:267-283 | when the successor lies deeper in the right subtree, removal at the node takes out exactly its key and one node |
| RedBlackTree.DelHere | bst/RedBlackTree.java:258-283 | removal at the node holding the key takes out exactly that key and one node and keeps the order |
| RedBlackTree.DelKeeps | bst/RedBlackTree.java:241-288 | removal of a stored key takes out exactly that key and one node and keeps the order |
| RedBlackTree.HeightBound | bst/RedBlackTree.java:318-329 | a path has at most twice as many nodes as the black height, plus one for a RED top |
| RedBlackTree.SizeBound | bst/RedBlackTree.java:314-316 | a tree of black height h holds at least 2^h - 1 nodes |
| RedBlackTree.LogHeight | bst/RedBlackTree.java:318-329 | a red-black tree of n nodes has 2^height at most (n + 1)^2, that is height at most 2 log2(n + 1) |
| RedBlackTree.New | bst/RedBlackTree.java:15-19 | a new tree is empty and satisfies the red-black invariant |
| RedBlackTree.Size | bst/RedBlackTree.java:314-316 | size is the number of keys |
| RedBlackTree.Get | bst/RedBlackTree.java:38-54 | get returns the key's value, or null when absent |
| RedBlackTree.Put | bst/RedBlackTree.java:156-186 | put keeps the red-black invariant and the count, maps the key to the value, returns the old value or else the new one, and leaves the shape alone for an existing key |
| RedBlackTree.Remove | bst/RedBlackTree.java:241-288 | remove keeps the red-black invariant and the count, removes exactly the key, returns its old value or null, and changes nothing for an absent key |
| RedBlackTree.GetHeight | bst/RedBlackTree.java:318-329 | getHeight is the longest path in links, -1 when empty, and in a valid tree of n keys 2^(h+1) is at most (n + 1)^2 |
| SplayTree.Splay | bst/SplayTree.java:42-101 | splaying a non-empty tree leaves a non-empty tree |
| SplayTree.SplayKeeps | bst/SplayTree.java:42-101 | the zig, zig-zig and zig-zag rotations of a splay keep the in-order keys, the map and the search-tree order |
| SplayTree.SplayRoot | bst/SplayTree.java:42-101 | the splayed root holds the key when it is stored, and otherwise a stored key with no stored key between it and the sought key |
| SplayTree.SplayMax | bst/SplayTree.java:162-165 | splaying for a key above every key brings the maximum to the root, with no right child |
| SplayTree.SplayFacts | bst/SplayTree.java:103-112 | after a splay the root holds the key exactly when it is stored, and the lookup is answered at the root |
| SplayTree.SplitBelow | bst/SplayTree.java:133-136 | a new root below the splayed root, taking its left subtree, adds exactly the new entry and keeps the order |
| SplayTree.SplitAbove | bst/SplayTree.java:137-141 | a new root above the splayed root, taking its right subtree, adds exactly the new entry and keeps the order |
| SplayTree.Join | bst/SplayTree.java:162-165 | splaying the left subtree for the removed key and hanging the right subtree off its new root removes exactly that key and keeps the order |
| SplayTree.New | bst/SplayTree.java:17-19 | a new tree is empty and valid |
| SplayTree.Size | bst/SplayTree.java:172-174 | size is the number of keys |
| SplayTree.Get | bst/SplayTree.java:103-112 | get returns the key's value or null, keeps the map, and leaves a stored key at the root |
| SplayTree.Put | bst/SplayTree.java:114-145 | put maps the key to the value, returns the old value or else the new one, keeps the count, and leaves the key at the root |
| SplayTree.Remove | bst/SplayTree.java:147-170 | remove takes out exactly the key, returns its old value or null, and keeps the order and the count |
| SplayTree.GetHeight | bst/SplayTree.java:176-190 | getHeight is the number of links on the longest path from the root, -1 when empty |
| SkipList.PrefixSplit | map/SkipList.java:65-67 | in an ascending key order a walk's bound admits exactly the keys before one mark and none after it |
| SkipList.LevelMem | map/SkipList.java:86-98 | a key is on a level's chain exactly when it is listed and its tower reaches that level |
| SkipList.LevelNest | map/SkipList.java:84-98 | each level is the one below it thinned to the taller towers |
| SkipList.LinkedSplice | map/SkipList.java:94-97 | pointing the walk's stop at the new key, and the key at the stop's old successor, spells the level's chain with the key spliced in |
| SkipList.LinkedCut | map/SkipList.java:119-122 | pointing the walk's stop past the removed key spells the level's chain without it |
| SkipList.ChainFacts | map/SkipList.java:59-70 | under the invariant every level's links spell an ascending chain holding exactly the nodes that stand on it |
| SkipList.ChainMembers | map/SkipList.java:80-101 | each level lists exactly the stored keys whose towers reach it |
| SkipList.ChainsNest | map/SkipList.java:59-70 | each level is an express lane over the level below it |
| SkipList.Level0 | map/SkipList.java:183-194 | the level-0 chain is the whole key order |
| SkipList.Walk | map/SkipList.java:65-67 | the inner loop along one level, from a node the bound admits, stops at the last node of that level the bound admits |
| SkipList.Descend | map/SkipList.java:105-113 | the descent from the top level in use records, for each level, the last node there the bound admits |
| SkipList.SplitFloor | map/SkipList.java:61-69 | where a level's walk stops is the last node of that level before the point where the key order stops being admitted |
| SkipList.Successor | map/SkipList.java:216-257 | the level-0 link out of a walk's stop is the entry with the least key the bound rejects, or the trailer |
| SkipList.FloorPlace | map/SkipList.java:59-70 | the level-0 stop of the descent is the entry with the greatest admitted key, or the header |
| SkipList.New | map/SkipList.java:23-32 | a new skip list is empty and valid, with the given maximum level and one level in use |
| SkipList.Default | map/SkipList.java:19-21 | the default skip list is empty and valid with maximum level 16 |
| SkipList.SizeCounts | map/SkipList.java:143-146 | the size counter is the number of stored keys |
| SkipList.Size | map/SkipList.java:143-146 | size is the number of stored keys |
| SkipList.HeadLink | map/SkipList.java:196-203 | the header's level-0 link is the least key, or the trailer exactly when the map is empty |
| SkipList.FirstEntry | map/SkipList.java:196-203 | firstEntry is null exactly when the map is empty, and otherwise a stored entry with the least key |
| SkipList.Search | map/SkipList.java:59-70 | search stops at the entry with the greatest key not above the sought key, or the header |
| SkipList.Get | map/SkipList.java:148-155 | get returns the key's value, or null when absent |
| SkipList.ContainsKey | map/SkipList.java:174-181 | containsKey holds exactly when the key is stored |
| SkipList.FloorEntry | map/SkipList.java:228-234 | floorEntry is the entry with the greatest key not above the key, or the header |
| SkipList.LowerEntry | map/SkipList.java:236-248 | lowerEntry is the entry with the greatest key below the key, or the header |
| SkipList.LastEntry | map/SkipList.java:205-214 | lastEntry is the entry with the greatest key, and the header exactly when the map is empty |
| SkipList.HigherEntry | map/SkipList.java:250-257 | higherEntry is the entry with the least key above the key, or the trailer |
| SkipList.CeilingEntry | map/SkipList.java:216-226 | ceilingEntry as written throws NullPointerException exactly when every key is above the sought key, and otherwise returns the entry with the least key not below it, or the trailer |
| SkipList.CeilingFixed | map/SkipList.java:216-226 | the corrected ceilingEntry always returns the entry with the least key not below the sought key, or the trailer |
| SkipList.CeilingOfEmpty | map/SkipList.java:221-222 | a ceiling query on an empty skip list throws NullPointerException |
| SkipList.Coins | map/SkipList.java:72-78 | the coin loop raises the level once per leading head until the maximum level |
| SkipList.RandomLevel | map/SkipList.java:72-78 | the random level is between 1 and the maximum level, and below one plus the leading heads only when capped |
| SkipList.LinkInValid | map/SkipList.java:88-100 | linking a new tower in after the walk's stops keeps the invariant and adds exactly the new entry |
| SkipList.RaiseValid | map/SkipList.java:83-86 | raising the number of levels in use, within the maximum, keeps the invariant and the map |
| SkipList.Insert | map/SkipList.java:80-101 | insert of an absent key keeps the invariant, adds exactly the new entry and one to the size, grows the levels in use by at most one, and gives the new tower the random level, capped at the new levels in use |
| SkipList.ReplaceValid | map/SkipList.java:160-163 | overwriting a stored key's value keeps every link, the invariant and the rest of the map |
| SkipList.Put | map/SkipList.java:157-167 | put maps the key to the value; on a hit it returns the old value and keeps the size, on a miss it returns the new value and adds one to the size |
| SkipList.UnlinkValid | map/SkipList.java:115-124 | unlinking a stored key from every level its tower reaches keeps the invariant and takes exactly that key out of the map |
| SkipList.Remove | map/SkipList.java:103-125 | remove as written throws NullPointerException exactly when every stored key is below the key; otherwise it removes exactly the key, returns its old value or null and adjusts the size |
| SkipList.RemoveFixed | map/SkipList.java:103-125 | the corrected remove never throws, removes exactly the key, returns its old value or null, and adjusts the size |
| SkipList.RemoveFromEmpty | map/SkipList.java:113-116 | removing from an empty skip list throws NullPointerException |
| SkipList.Within | map/SkipList.java:259-283 | the window of a map holds exactly its keys in the half-open range |
| SkipList.Run | map/SkipList.java:187-192 | the level-0 walk collects, in order, the entries from a position while the bound admits them, and stops at the first key it rejects |
| SkipList.EntrySet | map/SkipList.java:183-194 | entrySet lists every stored entry exactly once, in ascending key order, and has size many entries |
| SkipList.WindowKeys | map/SkipList.java:259-283 | the keys of an ascending order in a half-open range are the run from the first key not below the lower end to the first key not below the upper end |
| SkipList.Scan | map/SkipList.java:270-281 | the subMap walk gathers exactly the entries of the range, in order, and stops at the least key not below the upper end, or the trailer exactly when there is none |
| SkipList.SubMap | map/SkipList.java:259-283 | subMap as written is null for an empty range, throws NullPointerException exactly when every key is below the upper end, and otherwise lists the entries of the range in order |
| SkipList.SubMapFixed | map/SkipList.java:259-283 | the corrected subMap is null exactly for an empty range and otherwise lists the entries of the range in order |
| SkipList.SubMapOfEmpty | map/SkipList.java:276-278 | a range query on an empty skip list throws NullPointerException |
| BinaryTreeShape.UniqueCount | tree/LinkedBinaryTree.java:165-167 | with distinct addresses a tree's node count is the number of its addresses |
| BinaryTreeShape.InOrder | tree/LinkedBinaryTree.java:206-214 | the in-order listing has one entry per node |
| BinaryTreeShape.InOrderIds | tree/LinkedBinaryTree.java:206-214 | the in-order listing holds every node exactly once |
| BinaryTreeShape.SubTop | tree/LinkedBinaryTree.java:66-76 | the subtree at a node is topped by that node and lies within the tree |
| BinaryTreeShape.SubUnique | tree/LinkedBinaryTree.java:66-76 | a subtree of a tree with distinct addresses has distinct addresses |
| BinaryTreeShape.SubChild | tree/LinkedBinaryTree.java:181-190 | the subtree at a child is the child's side of its parent's subtree |
| BinaryTreeShape.PutSub | tree/LinkedBinaryTree.java:87-107 | after a subtree is replaced, the subtree at its top is the replacement |
| BinaryTreeShape.GrowInOrder | tree/LinkedBinaryTree.java:87-107 | a new leaf in a node's empty left (right) slot comes just before (after) the node's subtree in in-order and adds just its own address |
| BinaryTreeShape.PutIds | tree/LinkedBinaryTree.java:116-162 | replacing a subtree swaps its nodes for the replacement's and adjusts the count by the difference |
| BinaryTreeShape.PutUnique | tree/LinkedBinaryTree.java:116-134 | replacing a subtree by one whose addresses are new to the rest keeps the addresses distinct |
| BinaryTreeShape.InOrderAround | tree/LinkedBinaryTree.java:206-214 | a subtree is a contiguous run of the in-order listing |
| BinaryTreeShape.PutInOrder | tree/LinkedBinaryTree.java:116-162 | a replacement puts the new subtree's in-order nodes where the old ones were and keeps the rest |
| BinaryTreeShape.Without | tree/LinkedBinaryTree.java:136-162 | dropping a node from a listing keeps exactly the other entries |
| BinaryTreeShape.WithoutOnce | tree/LinkedBinaryTree.java:136-162 | dropping a node that occurs once closes the gap it leaves |
| BinaryTreeShape.SpliceInOrder | tree/LinkedBinaryTree.java:136-162 | splicing out a node with at most one child by promoting that child drops exactly that node from the in-order listing |
| BinaryTreeShape.SpliceIds | tree/LinkedBinaryTree.java:136-162 | splicing out a node with at most one child removes just that node |
| BinaryTreeShape.PromotedInOrder | tree/LinkedBinaryTree.java:141-146 | a node with at most one child sits next to that child's subtree in in-order |
| BinaryTreeShape.Graft | tree/LinkedBinaryTree.java:116-134 | replacing a leaf by the same node with two subtrees below it adds their nodes around it and keeps the rest |
| BinaryTreeShape.GraftIds | tree/LinkedBinaryTree.java:116-134 | grafting below a leaf adds exactly the grafted subtrees' nodes |
| BinaryTreeShape.GraftInOrder | tree/LinkedBinaryTree.java:116-134 | grafting below a leaf puts the left subtree's nodes before it and the right's after it in in-order |
| LinkedBinaryTree.RepresentsFrame | tree/LinkedBinaryTree.java:15-27 | links of nodes that are left alone still spell the same subtree |
| LinkedBinaryTree.RepresentsAt | tree/LinkedBinaryTree.java:29-43 | the arena slot of a node of the tree holds its element and the links to its parent and children |
| LinkedBinaryTree.Reparent | tree/LinkedBinaryTree.java:49-51 | giving a subtree's top a new parent link hangs the subtree below that parent |
| LinkedBinaryTree.ParentInside | tree/LinkedBinaryTree.java:175-178 | inside a tree every node but the top has a parent within the tree |
| LinkedBinaryTree.RepresentsPut | tree/LinkedBinaryTree.java:53-59 | redirecting the parent's link to a replacement subtree, leaving every other outside node alone, makes the arena spell the tree with that subtree replaced |
| LinkedBinaryTree.ParentSlot | tree/LinkedBinaryTree.java:175-190 | the parent of a non-top node links to it on the side where its subtree hangs |
| LinkedBinaryTree.InArena | tree/LinkedBinaryTree.java:66-76 | every node of a valid tree is live in the arena |
| LinkedBinaryTree.Replaced | tree/LinkedBinaryTree.java:87-162 | an update that replaces one subtree and redirects its parent's link leaves a valid tree whose nodes and in-order listing change only at that subtree |
| LinkedBinaryTree.Validate | tree/LinkedBinaryTree.java:66-76 | validate accepts exactly the live nodes of this tree, returning the same node, and throws IllegalArgumentException for a removed node or a reference outside the tree |
| LinkedBinaryTree.New | tree/LinkedBinaryTree.java:9-13 | a new tree is valid and empty, with no root |
| LinkedBinaryTree.Size | tree/LinkedBinaryTree.java:165-167 | size is the number of nodes |
| LinkedBinaryTree.Root | tree/LinkedBinaryTree.java:170-172 | root is null exactly for the empty tree, and otherwise the node of depth 0 |
| LinkedBinaryTree.IsEmpty | tree/Tree.java:35-37 | isEmpty holds exactly when there are no nodes, that is when size is 0 |
| LinkedBinaryTree.ParentOf | tree/LinkedBinaryTree.java:175-178 | parent throws IllegalArgumentException exactly for a foreign or removed node, is null exactly at the root, and otherwise is the node the given one hangs below |
| LinkedBinaryTree.LeftOf | tree/LinkedBinaryTree.java:181-184 | left throws IllegalArgumentException exactly for a foreign or removed node, and otherwise is the top of the node's left subtree, or null |
| LinkedBinaryTree.RightOf | tree/LinkedBinaryTree.java:187-190 | right throws IllegalArgumentException exactly for a foreign or removed node, and otherwise is the top of the node's right subtree, or null |
| LinkedBinaryTree.ChildLinks | tree/LinkedBinaryTree.java:181-190 | a child of a node is a node of the tree whose parent is that node |
| LinkedBinaryTree.AddRoot | tree/LinkedBinaryTree.java:78-85 | addRoot throws IllegalStateException exactly when the tree is not empty, and otherwise makes a new one-node tree holding the element |
| LinkedBinaryTree.GrownValid | tree/LinkedBinaryTree.java:87-107 | writing a new leaf into an empty child slot leaves a valid tree with exactly one more node |
| LinkedBinaryTree.AddLeft | tree/LinkedBinaryTree.java:87-96 | addLeft succeeds exactly for a node of the tree without a left child; the new tree's shape is the old one with a leaf holding `e` grafted as that node's left child, which lands just before the node's subtree in in-order; the root, the node's parent and element, and every other node's element, children and parent stay as they were |
| LinkedBinaryTree.AddRight | tree/LinkedBinaryTree.java:98-107 | addRight succeeds exactly for a node of the tree without a right child; the new tree's shape is the old one with a leaf holding `e` grafted as that node's right child, which lands just after the node's subtree in in-order; the root, the node's parent and element, and every other node's element, children and parent stay as they were |
| LinkedBinaryTree.GrownKeeps | tree/LinkedBinaryTree.java:87-107 | writing a new leaf below a node keeps the root, that node's parent, and every other node's element, children and parent |
| LinkedBinaryTree.Set | tree/LinkedBinaryTree.java:109-114 | set throws IllegalArgumentException exactly for a foreign or removed node, and otherwise returns the old element, stores the new one, and changes no link and no other node's element |
| LinkedBinaryTree.SetValid | tree/LinkedBinaryTree.java:109-114 | replacing an element keeps the tree valid, its nodes and its in-order listing, and changes only that node's element |
| LinkedBinaryTree.NumChildren | tree/BinaryTree.java:29-38 | numChildren is between 0 and 2, 0 exactly for a leaf and 2 exactly when both sides are occupied |
| LinkedBinaryTree.Children | tree/BinaryTree.java:41-50 | children lists exactly the nodes whose parent is the node, left one first, as many as numChildren |
| LinkedBinaryTree.ChildrenExact | tree/BinaryTree.java:41-50 | the nodes whose parent is a node are its left and right children |
| LinkedBinaryTree.Sibling | tree/BinaryTree.java:16-26 | sibling is null for the root, and otherwise the other node with the same parent, or null when there is none |
| LinkedBinaryTree.IsInternal | tree/Tree.java:23-25 | isInternal holds exactly when the node has a node below it |
| LinkedBinaryTree.IsExternal | tree/Tree.java:27-29 | isExternal holds exactly for a leaf, and is the negation of isInternal |
| LinkedBinaryTree.IsRoot | tree/Tree.java:31-33 | isRoot holds exactly for the node of the tree at depth 0 |
| LinkedBinaryTree.Attach | tree/LinkedBinaryTree.java:116-134 | attach succeeds exactly at a leaf of the tree; the new shape is the old one with the leaf replaced by a node keeping its element and carrying the donor trees as children; it adds their nodes and sizes, places them around the leaf in in-order and empties the donors; the root and the leaf's parent stay, every other node of the tree keeps its element, children and parent, and every donor node keeps its element and children, and its parent unless it is a donor root |
| LinkedBinaryTree.AttachLinks | tree/LinkedBinaryTree.java:116-134 | the links attach writes spell the leaf with the donor trees below it |
| LinkedBinaryTree.AttachKeeps | tree/LinkedBinaryTree.java:116-134 | attach keeps the root and the leaf's parent; every other node of the tree keeps its element, children and parent; every donor node keeps its element and children, and its parent unless it is the donor's root |
| LinkedBinaryTree.AttachReplaced | tree/LinkedBinaryTree.java:116-134 | attach leaves a valid tree |
| LinkedBinaryTree.Remove | tree/LinkedBinaryTree.java:136-162 | remove succeeds exactly for a node with at most one child; the new shape is the old one with that node's subtree replaced by its child's, so the child takes its place below its parent or as the root; the node is invalidated, its element returned, and exactly it leaves the in-order listing; the child's parent becomes the node's parent, the parent's link to the node now names the child, and every other node keeps its element, children and parent |
| LinkedBinaryTree.RemoveValid | tree/LinkedBinaryTree.java:136-162 | remove leaves a valid tree |
| LinkedBinaryTree.RemoveKeeps | tree/LinkedBinaryTree.java:136-162 | remove rewrites only the child's parent link and the parent's link to the removed node; every other node keeps its element, children and parent |
| LinkedBinaryTree.DepthOf | tree/Tree.java:39-46 | depth throws IllegalArgumentException exactly for a foreign or removed node, and otherwise counts the parent steps to the root |
| LinkedBinaryTree.HeightOf | tree/Tree.java:48-54 | height throws IllegalArgumentException exactly for a foreign or removed node, and otherwise is the height of the node's subtree |
| LinkedBinaryTree.TallestChildren | tree/Tree.java:50-53 | folding one plus the children's heights with max gives the height of the node's subtree |
| LinkedBinaryTree.ElementAt | tree/LinkedBinaryTree.java:29-31 | a node's arena slot holds the element the tree has at that node |
| LinkedBinaryTree.NewIter | tree/LinkedBinaryTree.java:241-256 | a new node iterator has visited nothing and owes every node |
| LinkedBinaryTree.HasNext | tree/LinkedBinaryTree.java:259-261 | hasNext holds exactly while fewer nodes than the tree has were handed out |
| LinkedBinaryTree.PushLeft | tree/LinkedBinaryTree.java:270-279 | pushing a node and its left spine makes the stack owe that node's whole subtree in in-order ahead of what it owed before |
| LinkedBinaryTree.Next | tree/LinkedBinaryTree.java:264-283 | next throws NoSuchElementException exactly once every node was handed out, and otherwise hands out the next node of the in-order listing |
| LinkedBinaryTree.PendingPop | tree/LinkedBinaryTree.java:274-279 | the top of a stack owing the in-order nodes from some position on is the node at that position, and popping it leaves the rest owed |
| LinkedBinaryTree.PushStep | tree/LinkedBinaryTree.java:270-273 | pushing a node trades its subtree for its left subtree plus the node and its right subtree |
| LinkedBinaryTree.Nodes | tree/LinkedBinaryTree.java:241-284 | the node iterator run to the end hands out every node once, in in-order, as many as size |
| LinkedBinaryTree.Elements | tree/LinkedBinaryTree.java:217-238 | the element iterator hands out the nodes' elements in in-order, as many as size |
| AbstractHashMap.TableGet | map/AbstractHashMap.java:40-41 | the bucket lookup of either table kind returns the key's value, or null when absent |
| LinkedBinaryTree.AttachCorrect | tree/LinkedBinaryTree.java:116-134 | attaching at a leaf leaves valid trees, empties the donors, adds their sizes, and turns the shape into the old one with the leaf carrying the donors as left and right subtrees; every node of the tree but the leaf, and every donor node, keeps its element and children, and its parent unless it is a donor root |
| LinkedBinaryTree.RemoveCorrect | tree/LinkedBinaryTree.java:136-162 | removing a node with at most one child leaves a valid tree one node smaller whose shape is the old one with the node's subtree replaced by its child's; only the child's parent link and the parent's link to the node change, every other node keeping its element, children and parent |
| SkipList.InsertChain | map/SkipList.java:88-98 | after linking in a new tower, each level it reaches is the old chain with the key spliced in at its sorted place, and every other level is unchanged |
| SkipList.UnlinkChain | map/SkipList.java:120-122 | after unlinking a key, each level is the old chain without that key |

## Left out

- Reference equality of keys. `bst/AvlTree.java:36` and `map/SkipList.java:151,160,177` compare boxed keys with `!=` or `==`. A key equal in value to a stored key but boxed as another object therefore misses the stored node. In the AVL tree, `get`, `containsKey` and `remove` then report it absent. In the skip list, `get` and `containsKey` report it absent, and `put` inserts a second node for the same key value. The model compares `int` keys by value, so it always finds a stored key and never holds two nodes for one key.
- Generic keys, `compareTo`, `equals` and `hashCode`: keys are `int` with their natural order, and a key's hash code is the key.
- Null values stored in a map: values are never null here. So the case where `containsKey` of the hash maps reads a stored null value as absent is not modelled.
- The state after an exception: `Outcome.Throws` carries no state. The Java objects are sometimes left half-updated, for example an AVL `remove` of a leaf has already decremented `size` when it throws.
- Java `int` overflow of the size counters and indices: the model's integers are unbounded. No reachable state of a container held in memory comes near 2^31 elements.
- The TODO stubs of the three search trees: `containsKey` of the red-black and splay trees returns false, and `keySet`, `entrySet` and the ordered queries return null. They have no behaviour to model.
- The instrumentation counters `cmpCount` and `rotateCount`, because they have no effect on any result.
- The `toString` methods, because they only format text.
- The iterators of `list/ArrayList.java` and `list/LinkedList.java` and the iterator adapters of `map/AbstractMap.java`: these are plumbing over the modelled sequences. A map entry is modelled inline as a key and value pair.
- The signature-only interfaces (`bst/TreeMap.java`, `bst/SortedMap.java`, `map/Map.java`, `map/SortedMap.java`): they declare operations and contain no behaviour.
- `java.util.Random`: the skip list's coin flips and the hash maps' scale and shift are inputs.
- ArrayQueue.Size and the other queue operations require a valid queue. `ArrayQueue(-1)` builds a queue with an array of length 0, which ArrayQueue.New returns but which is not valid. On that queue, `size()` divides by zero and throws ArithmeticException, which is not modelled.
- AbstractHashMap.New requires a capacity of at least 2. With capacity 1, the first `put` resizes to capacity 1 again, and the re-put inside that resize triggers another resize without end. With capacity 0, the first `put` throws ArithmeticException, because `hashValue` takes a remainder by zero. A negative capacity throws NegativeArraySizeException when `createTable` allocates the array.
- SkipList.New requires a maximum level of at least 1. With 0, `search` reads index 1 of HEADER's one-slot array, and a negative level makes the array allocation throw.
- Skip-list `insert` and `delete` interleave the walk down the levels with the link writes. The model walks down first and then links or unlinks level by level. The result is the same because each level's walk reads only that level's links, and the writes at a level happen below the level being walked.
- The red-black root repaint after removal (`bst/RedBlackTree.java:238`) is not a separate step: RedBlackTree.Remove proves that the root is already black. Colour writes to the sentinel are no-ops, and only black ever reaches it in a valid tree. The sentinel's `parent` field is scratch state that the recursion's return path replaces.
- The key rewrite on overwrite (`bst/AvlTree.java:157`, `bst/RedBlackTree.java:168`) is a no-op when keys are values.
- The unlinking of removed nodes so the garbage collector can reclaim them: removed nodes simply leave the arena. The positional tree keeps its defunct-node convention, and `validate` rejects a removed position.
- LinkedBinaryTree.Validate: a position is a reference into this tree's arena, so neither a position of a foreign kind (not a `Node`) nor a node of another tree can be passed. Java's `validate` checks only the type and the self-parent convention, so it accepts a live node of another tree. Here every reference that is not a live node of this tree throws IllegalArgumentException.
- LinkedBinaryTree.Attach: attaching a tree to itself, or to a tree that shares nodes, is excluded by requiring the arenas to be disjoint.
- LinkedBinaryTree: the unused private traversals (`tree/LinkedBinaryTree.java:192-214`) are left out. So is the swapped argument names of `createNode` (line 62), since every call site passes null children.
- AvlTree rebalancing: at each position on the way up, the model performs at most two rebalancing rounds. AvlTree.SecondRoundSettles proves that the Java loop, which re-examines the node lifted by a rotation, never rotates a third time.

## Findings

| source | as written | input that shows it | evidently intended | confidence | as-written member | corrected member |
|---|---|---|---|---|---|---|
| list/LinkedList.java:23-26 | the `Node` constructor stores `prev` but never its `next` argument, so a node spliced in by `addBetween` has no forward link | on an empty list, `addFirst` four times and then `get(1)`: the walk from the header meets a null link and throws | store `next` as well, so `addFirst`/`addLast` splice the node into both directions | not executed | LinkedList.GetAfterAddFirsts | LinkedList.AddBetweenLinked |
| list/LinkedList.java:156-163 | `add(i, e)` links the new node between the neighbours of node `i`, which drops node `i` while `size` still grows; `nodeAt(i)` also rejects `i == size` | on the list [1, 2], `add(0, 9)` gives the chain [9, 2] with size 3 | insert `e` before node `i`, accepting `i == size` as an append | not executed | LinkedList.AddReplacesNode | LinkedList.Insert |
| map/LinearProbeHashMap.java:89-98 | `entrySet` scans slots `0 .. size()-1` instead of every slot, so live entries in higher slots are missing, and `resize` then loses them | a two-slot table whose only entry sits in slot 1: `entrySet` is empty; `LinearProbeHashMap(3)` with scale 1 and shift 0, then `put(2, "a")` and `put(0, "b")`: the resize lists only slots 0 and 1 and key 2 is lost | scan all `capacity` slots | not executed | LinearProbeHashMap.EntrySetMissesEntry, AbstractHashMap.PutLosesEntry | LinearProbeHashMap.EntrySet, AbstractHashMap.Put |
| bst/AvlTree.java:141-143 | `put` into an empty tree creates the root but does not increment `size` | `put(5, 50)` on a new tree: size 0 with one key stored | increment `size` on every new key | not executed | AvlTree.PutIntoEmptyMiscounts | AvlTree.PutCounted |
| bst/AvlTree.java:208-232 | removing a leaf sets the rebalance start point to the leaf's null child, and `rebalance` dereferences it | `put(5, 50)` on a new tree, then `remove(5)`: null pointer exception | start the rebalance walk at the removed node's parent | not executed | AvlTree.RemoveLeafThrows | AvlTree.RemoveFixed |
| bst/AvlTree.java:110-128 | the strict `>` chooses a double rotation when the heavy child is balanced, which can leave a balance factor of 2 after a removal | AvlTree.SampleTree with key 9 removed: a node is left with balance factor 2 | a single rotation when the heavy child's balance is 0 | not executed | AvlTree.RemoveUnbalances | AvlTree.RemoveFixed |
| map/SkipList.java:103-125 | `delete` compares the target with the key after the floor node, and that key is TRAILER's null key when no stored key is at least the target | `remove(0)` on an empty skip list: null pointer exception | treat TRAILER as greater than every key (absent key, return null) | not executed | SkipList.RemoveFromEmpty | SkipList.RemoveFixed |
| map/SkipList.java:221-222 | `ceilingEntry` reads the key of the floor node, which is HEADER's null key when no stored key is at most the target | `ceilingEntry(0)` on an empty skip list: null pointer exception | treat HEADER as smaller than every key | not executed | SkipList.CeilingOfEmpty | SkipList.CeilingFixed |
| map/SkipList.java:276-278 | `subMap` stops only at a key at least `toKey` and reads TRAILER's null key when no such key exists | `subMap(0, 1)` on an empty skip list: null pointer exception | stop the scan at TRAILER as well | not executed | SkipList.SubMapOfEmpty | SkipList.SubMapFixed |
