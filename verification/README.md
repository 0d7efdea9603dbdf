# FIFO queues and deques of the Algorithm Analysis queue project

The project implements one abstract data type many times over: a FIFO queue
(some variants are double-ended) whose meaning is a sequence of items, front
first. The variants keep it in a singly linked list, a doubly linked list, a
Python list, a `deque`, or a list with a moving front index. The linked
variants also concatenate queues in two ways. The copying `__add__` builds
fresh nodes. The splicing `__iadd__` / `iconcat` / `concatenate` relinks one
pair of nodes and empties the donor.

This Dafny project models those variants and proves that each operation does
to the sequence what the variant promises.

## How the linked variants are modelled

Python objects are modelled with an explicit node arena (module `Arena`).
- A `Heap` maps addresses to `Node(data, prev, next)` cells and has a bump
  allocator `free`, so a newly created node is always a new address.
- Two pointers that name the same address are the same Python object, which
  keeps aliasing visible.
- A list header is `Ends(head, tail)`, or `Header(head, tail, size)` for the
  variants that keep `_size` / `_length`.
- Every operation is a function or method from `(heap, header)` to a new
  heap and header.

A ghost sequence of addresses `ns` names the list's nodes in order.
- `Chain` states the singly linked invariant: distinct allocated nodes, `head`
  and `tail` at the ends, `next` links along `ns`, and `None` after the tail.
- `DChain` adds the mirrored `prev` links, with `None` before the head.
- `Values(h, ns)` is the list's contents.
- `Frame(h, h', ns)` says that no node outside `ns` changed and that no
  allocated node disappeared.

The contracts relate the new contents to the old, like this:
`Values(r.heap, ns + [h.free]) == Values(h, ns) + [x]`.

Modules follow the source files:

| module | source classes |
|---|---|
| `Singly` | `SLLQueue` of sll_queue.py and of data_structures.py (no count; `None` on empty) |
| `Doubly` | `DLLQueue` of dll_queue.py and `DLLDeque` of data_structures.py |
| `Relink` | the node writes of `_addbetween` / `_remove` and the auto-linking `ListNode` of main/DLL.py |
| `CountedSingly` | `LinkedListPrime` of main/SLL.py, `SinglyLinkedList` of analyze/SLL.py, `BasicSLLQueue` of analyze/sll_queque.py |
| `CountedDoubly` | `BasicDLLQueue` of analyze/dll_queue.py, `Queue` of dll_queque.py, `DLLQueue` of analyze/dll_queque.py |
| `PositionalList` | `DoublyLinkedList` of analyze/DLL.py |
| `LinkingList` | `DoublyLinkedList` and `Queue` of main/DLL.py |
| `PrimeList` | the sharing `__add__` and `LinkedQueue` of main/SLL.py |
| `CopyingList` | the operations of analyze/SLL.py that differ from `CountedSingly` |
| `ListQueues` | `ArrayQueue` of analyze/ArrayQueue.py, `ListQueueDisplay` of analyze/ListQueue.py, `ArrayQueue` of queue_performance/array_queue.py and of data_structures.py |
| `HeadIndexQueue` | `ListQueueDisplay` of main/ListQueue.py |

Errors are values (module `Outcome`).
- An operation that raises returns `Err(IndexError)`, or `Err(AttributeError)`
  where the source reads a field of `None`.
- An operation that returns Python `None` on an empty queue returns an `Option`.

Near-identical variants sometimes test different things before the same
writes.
- One variant tests `if self._tail:` where another tests `if not self._head:`.
- One tests the count where another tests the head pointer.
- One tests `node is self._head` where another tests `before is None`.

Under the list invariant these tests agree, and one member models all of
them. Where the tests differ, the member's comment says which test it uses.
`LinkingList.RemoveWrites` proves one such agreement explicitly.

## Model

| member | source | states |
|---|---|---|
| Singly.IsEmpty | data_structures.py:12-13 | true exactly when the queue holds no values |
| Singly.AddFirst | sll_queue.py:10-16 | the new node is first; the contents become `[x] + old`; only nodes of the queue change (also data_structures.py:33-38) |
| Singly.AddLast | sll_queue.py:18-24 | the new node is last, and is also first in an empty queue; the contents become `old + [x]` (also data_structures.py:15-22) |
| Singly.RemoveFirst | sll_queue.py:26-33 | `None` and no change on an empty queue; otherwise the first value, and the rest stays a valid chain with contents `old[1..]`; the tail is cleared when the queue empties (also data_structures.py:24-31) |
| Singly.RemoveLast | sll_queue.py:35-48 | `None` on empty; a single node empties the queue; otherwise the loop reaches the node before the tail, which becomes the tail with `next` cleared, and the last value is returned with contents `old[..n-1]` |
| Singly.AppendCopies | sll_queue.py:66-69 | copies every value of the source onto the target through `addLast`, in order; the target's contents become `old + source`; only fresh nodes are added; the count of appended nodes is the source's length |
| Singly.Add | sll_queue.py:50-61 | a queue of fresh nodes with contents `a + b`; both operands keep their chains and contents |
| Singly.IAdd | sll_queue.py:64-70 | `self` becomes `old(self) + other` by copying; `other` keeps its chain and contents |
| Singly.SelfAddRounds | sll_queue.py:64-70 | `q += q` as written on a non-empty queue: after `k` rounds of the loop the queue is a valid chain of `|ns| + k` nodes whose values repeat the old ones in order, and the cursor is at node `k`, so the loop condition still holds |
| Singly.SelfAddNeverEnds | sll_queue.py:66-69 | after any number of rounds of `q += q` the cursor is not `None` and the queue has grown by one node per round |
| Singly.IAddCopyFirst | sll_queue.py:64-70 | the corrected `+=`: `other`'s values are copied into fresh nodes first, so the loop ends also for `q += q`; `self` holds `old(self) + old(other)`, only `self`'s nodes change, and a different `other` keeps its chain and contents |
| Singly.Splice | analyze/SLL.py:124-133 | the splice of every sized singly linked `__iadd__`: an empty `other` changes nothing, an empty `self` adopts `other`'s chain, otherwise the tail is linked to `other`'s head; the result is one chain over both node lists, with contents `self + other`, and nothing is allocated |
| Doubly.IsEmpty | data_structures.py:45-46 | true exactly when the deque holds no values |
| Doubly.AddFirst | dll_queue.py:10-17 | the new node is first with the old head's `prev` pointing to it; the `prev`/`next` mirror is kept; contents `[x] + old` (also data_structures.py:48-56) |
| Doubly.AddLast | dll_queue.py:19-26 | the new node is last with `prev` the old tail; contents `old + [x]` (also data_structures.py:58-66) |
| Doubly.RemoveFirst | dll_queue.py:28-37 | `None` and no change on empty; otherwise the first value, with the new head's `prev` cleared or both ends cleared; contents `old[1..]` (also data_structures.py:68-77) |
| Doubly.RemoveLast | dll_queue.py:39-48 | `None` and no change on empty; otherwise the last value, with the new tail's `next` cleared or both ends cleared; contents `old[..n-1]` (also data_structures.py:79-88) |
| Doubly.AppendCopies | dll_queue.py:66-69 | the copy loop over a doubly linked source: the target's contents become `old + source` through `addLast`, and only fresh nodes are added |
| Doubly.Add | dll_queue.py:50-61 | a queue of fresh nodes with contents `a + b`; both operands keep their chains and contents |
| Doubly.IAdd | dll_queue.py:64-70 | `self` becomes `old(self) + other` by copying; `other` is unchanged |
| Doubly.SelfAddRounds | dll_queue.py:64-70 | `q += q` as written on a non-empty deque: after `k` rounds the deque is a valid doubly linked chain of `|ns| + k` nodes whose values repeat the old ones, and the cursor is at node `k`, never `None` |
| Doubly.SelfAddNeverEnds | dll_queue.py:66-69 | after any number of rounds of `q += q` the cursor is not `None` and the deque has grown by one node per round |
| Doubly.IAddCopyFirst | dll_queue.py:64-70 | the corrected `+=`: copying `other` first makes the loop end also for `q += q`; `self` holds `old(self) + old(other)`, only `self`'s nodes change, and a different `other` is unchanged |
| Doubly.Splice | dll_queque.py:71-80 | the two-way splice of every sized doubly linked `__iadd__` / `iconcat` / `concatenate`: contents `self + other`, `other.head.prev` is the old tail, and only the two joined nodes change |
| Relink.LinkIn | main/DLL.py:9-23 | the auto-linking `ListNode` constructor: a fresh node with the given `prev` and `next`; every node that already existed is unchanged except the two neighbours, each only in its link facing the new node, which now points to it |
| Relink.LinkInChain | analyze/DLL.py:28-39 | inserting between the neighbours at position `i` gives a doubly linked chain with the new node at `i`, and contents `old[..i] + [x] + old[i..]` |
| Relink.Unlink | analyze/DLL.py:57-71 | the writes of `_remove`: `before.next = after` and `after.prev = before` where those exist, and every other link of every node is unchanged; no node is allocated or freed |
| Relink.UnlinkChain | analyze/DLL.py:57-73 | removing the node at position `i` leaves a doubly linked chain without it, with contents `old[..i] + old[i+1..]` |
| CountedSingly.AddFirst | main/SLL.py:18-24 | contents `[x] + old`, count + 1; the head is set and the count positive afterwards (the assertions of analyze/SLL.py:33-34) |
| CountedSingly.AddLast | main/SLL.py:26-35 | contents `old + [x]`, count + 1; an empty list gets the node as head too |
| CountedSingly.RemoveFirst | main/SLL.py:37-48 | `IndexError` and no change on empty; otherwise the first value, contents `old[1..]`, count - 1, tail cleared when the list empties |
| CountedSingly.Peek | analyze/sll_queque.py:37-40 | `IndexError` exactly on an empty queue, otherwise the first value; the queue is not changed |
| CountedSingly.IsEmpty | analyze/sll_queque.py:42-43 | the count test holds exactly when the contents are empty |
| CountedSingly.HeadIsNone | analyze/SLL.py:20-22 | the head test holds exactly when the contents are empty |
| CountedSingly.Len | main/SLL.py:70-72 | the count field equals the number of values |
| CountedSingly.RemoveLast | main/SLL.py:50-68 | `IndexError` and no change on empty; otherwise the last value, contents `old[..n-1]`, count - 1 (also analyze/sll_queque.py:62-79) |
| CountedSingly.IConcat | analyze/sll_queque.py:48-60 | for two different queues: `self` holds `old(self) + old(other)` with the counts added and `other` is reset to empty; an empty `other` changes nothing (also main/SLL.py:95-109) |
| CountedSingly.IConcatOntoItself | analyze/sll_queque.py:48-60 | the same statements with `other is self`: the tail is linked to the head and the list ends empty; no node outside the list changes and nothing is allocated |
| CountedSingly.OntoItselfLosesValues | main/SLL.py:95-109 | `l += l` on a non-empty list leaves it empty, and its former nodes form a cycle: walking `len` steps from the old head returns to it |
| CountedSingly.Concat | analyze/SLL.py:124-138 | the corrected `+=` for any two valid lists: lists with separate nodes are spliced and `other` is reset; lists that share nodes (the same list, or two lists that meet at a common tail) get a chain of fresh nodes, and `other` is `self` only when it is the same list; `self` holds `old(self) + old(other)` in every case, and no node outside the two lists changes |
| CountedDoubly.Enqueue | analyze/dll_queue.py:19-27 | contents `old + [x]`, size + 1, the new tail's `prev` is the old tail (also analyze/dll_queque.py:19-27, dll_queque.py:19-29) |
| CountedDoubly.Dequeue | analyze/dll_queue.py:29-39 | `IndexError` and no change on empty; otherwise the first value, contents `old[1..]`, size - 1, with the new head's `prev` cleared or both ends cleared |
| CountedDoubly.Peek | dll_queque.py:44-48 | `IndexError` exactly on an empty queue, otherwise the first value; no change |
| CountedDoubly.IsEmpty | analyze/dll_queue.py:46-47 | the size test holds exactly when the contents are empty |
| CountedDoubly.Len | dll_queque.py:50-52 | the size field equals the number of values |
| CountedDoubly.RemoveLast | analyze/dll_queque.py:68-79 | `IndexError` and no change on empty; otherwise the last value, contents `old[..n-1]`, size - 1, both ends cleared for a single node |
| CountedDoubly.Add | analyze/dll_queue.py:52-63 | a queue of fresh nodes with contents `a + b` whose size is the number of enqueues; both operands unchanged (also dll_queque.py:58-69) |
| CountedDoubly.IConcat | analyze/dll_queque.py:52-66 | for two different queues: `self` holds `old(self) + old(other)`, the sizes are added, `other` is reset; an empty `other` changes nothing and an empty `self` adopts `other`'s chain (also analyze/dll_queue.py:65-80) |
| CountedDoubly.IConcatOntoItself | analyze/dll_queue.py:65-80 | the same statements with `other is self`: the tail and head are linked both ways and the queue ends empty; no node outside the queue changes and nothing is allocated |
| CountedDoubly.OntoItselfLosesValues | dll_queque.py:71-86 | `q += q` on a non-empty queue leaves it empty, and its former nodes form a cycle |
| CountedDoubly.Concat | analyze/dll_queue.py:65-80 | the corrected `+=`: two valid queues either share no node or are the same queue; the same queue is doubled by copying, and separate queues are spliced; `self` holds `old(self) + old(other)`, and no node outside the two queues changes |
| PositionalList.Len | analyze/DLL.py:24-26 | the length field equals the number of values |
| PositionalList.AddBetween | analyze/DLL.py:28-47 | the item lands between the given neighbours (contents `old[..i] + [x] + old[i..]`); head and tail are updated by the `None` tests; length + 1; and the asserted length > 0 and non-`None` ends hold |
| PositionalList.AddFirst | analyze/DLL.py:49-51 | contents `[x] + old` |
| PositionalList.AddLast | analyze/DLL.py:53-55 | contents `old + [x]` |
| PositionalList.Remove | analyze/DLL.py:57-73 | the node's value is returned; contents `old[..i] + old[i+1..]`, length - 1; the ends follow the `None` tests and are both cleared when the list empties |
| PositionalList.RemoveFirst | analyze/DLL.py:75-79 | `IndexError` and no change on empty; otherwise the first value and contents `old[1..]` |
| PositionalList.RemoveLast | analyze/DLL.py:81-85 | `IndexError` and no change on empty; otherwise the last value and contents `old[..n-1]` |
| PositionalList.Concatenate | analyze/DLL.py:87-120 | `concatenate`, `__add__` and `__iadd__` on two different lists: `self` holds `old(self) + old(other)` and `other` is reset; an empty `other` changes nothing |
| PositionalList.Clear | analyze/DLL.py:122-126 | afterwards the list is empty with length 0 |
| LinkingList.Len | main/DLL.py:36-38 | the length field equals the number of values |
| LinkingList.AddBetween | main/DLL.py:40-55 | with the head updated when `after is head` and the tail when `before is tail`, the item lands between its neighbours; contents `old[..i] + [x] + old[i..]`; length + 1 |
| LinkingList.AddFirst | main/DLL.py:57-59 | contents `[x] + old` |
| LinkingList.AddLast | main/DLL.py:61-63 | contents `old + [x]` |
| LinkingList.RemoveWrites | main/DLL.py:65-78 | testing `node is head` / `node is tail` performs exactly the writes of the `None`-testing `_remove` of analyze/DLL.py |
| LinkingList.Remove | main/DLL.py:65-80 | the node's value is returned; contents `old[..i] + old[i+1..]`, length - 1, ends kept consistent |
| LinkingList.RemoveFirst | main/DLL.py:82-86 | `IndexError` and no change on empty; otherwise the first value and contents `old[1..]` |
| LinkingList.RemoveLast | main/DLL.py:88-92 | `IndexError` and no change on empty; otherwise the last value and contents `old[..n-1]` |
| LinkingList.Enqueue | main/DLL.py:103-105 | contents `old + [x]` |
| LinkingList.Dequeue | main/DLL.py:107-109 | `IndexError` on empty, otherwise the first value and contents `old[1..]`, so values leave in the order they were enqueued |
| LinkingList.IsEmpty | main/DLL.py:120-122 | true exactly when the contents are empty |
| LinkingList.Peek | main/DLL.py:111-118 | `IndexError` on empty; otherwise the first value, and after the remove and re-add the contents and size are unchanged, though the first node is a fresh one; no node outside the queue changes |
| LinkingList.RunAgrees | main/DLL.py:103-118 | on every run of enqueue, dequeue and peek operations, the linked queue answers as the plain list queue holding its values does |
| PrimeList.AddSharing | main/SLL.py:74-93 | an empty operand yields the other; otherwise the result holds `self + other` with the lengths added, built from the operands' own nodes; only `self`'s nodes change and nothing is allocated |
| PrimeList.AddSharingBreaksSelf | main/SLL.py:83-91 | with both operands non-empty, `self` is no longer a valid list afterwards: `len(self)` steps from its head reach `other`'s head |
| PrimeList.Enqueue | main/SLL.py:118-121 | contents `old + [x]` |
| PrimeList.Dequeue | main/SLL.py:123-129 | `IndexError` when the head is `None`, otherwise the first value and contents `old[1..]` |
| PrimeList.Peek | main/SLL.py:131-135 | `IndexError` exactly on an empty queue, otherwise the first value |
| PrimeList.IsEmpty | main/SLL.py:150-152 | true exactly when the contents are empty |
| CopyingList.RemoveFirst | analyze/SLL.py:47-53 | without a guard, an empty list fails with `AttributeError`; otherwise the first value and contents `old[1..]` |
| CopyingList.RemoveLast | analyze/SLL.py:55-72 | `None` and no change on empty; otherwise the last value and contents `old[..n-1]` |
| CopyingList.Copy | analyze/SLL.py:108-122 | a list of fresh nodes, sharing none with the source, with equal contents and length; the source is unchanged |
| CopyingList.Add | analyze/SLL.py:78-106 | a list of fresh nodes, sharing none with either operand, with contents `self + other` and the lengths added; both operands unchanged, and no node that existed before changes |
| ListQueues.Empty | analyze/ArrayQueue.py:7-8 | a new queue is empty |
| ListQueues.AddLast | analyze/ArrayQueue.py:10-11 | the value becomes the last item and the old items precede it (also analyze/ListQueue.py:14-16, queue_performance/array_queue.py:8-9, data_structures.py:97-98) |
| ListQueues.AddFirst | queue_performance/array_queue.py:5-6 | the value becomes the first item and the old items follow it (also data_structures.py:105-106) |
| ListQueues.IsEmpty | analyze/ArrayQueue.py:23-24 | true exactly when the queue has no items (also analyze/ListQueue.py:30-32, data_structures.py:94-95) |
| ListQueues.Len | analyze/ArrayQueue.py:26-27 | the length is the number of items, zero exactly when the queue is empty |
| ListQueues.LenAddAll | analyze/ArrayQueue.py:10-11 | enqueueing `xs` one by one adds `|xs|` to the length |
| ListQueues.Dequeue | analyze/ArrayQueue.py:13-16 | `IndexError` exactly on empty, with no change; otherwise the first item followed by the remaining queue is the old queue (also analyze/ListQueue.py:18-22) |
| ListQueues.Peek | analyze/ListQueue.py:24-28 | `IndexError` exactly on empty; otherwise the item `dequeue` would return (also analyze/ArrayQueue.py:18-21) |
| ListQueues.RemoveLast | analyze/ArrayQueue.py:33-37 | `IndexError` exactly on empty, with no change; otherwise the remaining queue followed by the returned item is the old queue |
| ListQueues.RemoveFirstOrNone | data_structures.py:100-103 | `None` exactly on empty; otherwise the first item and the rest (also queue_performance/array_queue.py:11-12) |
| ListQueues.RemoveLastOrNone | queue_performance/array_queue.py:14-15 | `None` exactly on empty; otherwise the last item and the prefix |
| ListQueues.Concat | analyze/ListQueue.py:38-48 | `__add__` / `__iadd__`: the result starts with `a`'s items and continues with `b`'s, and `b` is not changed (also queue_performance/array_queue.py:17-27) |
| ListQueues.IConcatIn | analyze/ArrayQueue.py:29-31 | `iconcat` as written on the lists of all queues, named by identity: on two different queues the receiver holds both lists and the donor is empty; when receiver and donor are the same queue it ends empty; no other queue changes |
| ListQueues.IConcat | analyze/ArrayQueue.py:29-31 | for two different queues, the receiver holds `self + other` and the donor is empty |
| ListQueues.IConcatOntoItself | analyze/ArrayQueue.py:29-31 | `q.iconcat(q)`, the aliased case of `IConcatIn`: the queue ends empty whatever it held |
| ListQueues.OntoItselfLosesItems | analyze/ArrayQueue.py:29-31 | `iconcat` as written does what the corrected one does exactly when the two names are different queues or the queue is empty |
| ListQueues.ConcatInto | analyze/ArrayQueue.py:29-31 | the corrected `iconcat` on the lists of all queues: the receiver holds `self + other` also when `other` is `self`; a different donor is emptied; no other queue changes |
| ListQueues.AddAllAppends | analyze/ArrayQueue.py:10-11 | enqueueing values one by one appends them in order |
| ListQueues.DrainFrontFirst | analyze/ArrayQueue.py:13-16 | dequeueing until empty returns the items front first |
| ListQueues.Fifo | analyze/ListQueue.py:14-22 | first in, first out: the values enqueued come out, after the earlier items, in the order they went in |
| HeadIndexQueue.Empty | main/ListQueue.py:5-8 | a new queue has index 0 and no items |
| HeadIndexQueue.Enqueue | main/ListQueue.py:10-13 | the index stays within the list, and the items become `old + [x]` |
| HeadIndexQueue.Peek | main/ListQueue.py:15-18 | `IndexError` exactly when the index has reached the end of the list, that is on an empty queue; otherwise the first item |
| HeadIndexQueue.Dequeue | main/ListQueue.py:20-25 | the peeked item; the index advances by one only when there was one, and the list is unchanged; the plain list queue with the same items answers and ends the same way |
| HeadIndexQueue.Len | main/ListQueue.py:27-30 | `len(_L) - _head` is the number of items and never negative |
| HeadIndexQueue.IsEmpty | main/ListQueue.py:32-35 | true exactly when there are no items |
| HeadIndexQueue.RunAgrees | main/ListQueue.py:10-25 | on every run of enqueue, dequeue and peek operations, the head-index queue answers as the plain list queue holding its items does |

## Left out

- Benchmark, timing, plotting and command-line drivers (analyze/main.py, experiment.py, utils.py, analyze/timer.py, queue_performance/benchmark.py, queue_performance/main.py, queue_performance/results_analysis.py) and analyze/queue_approach.py: they do I/O and measure wall-clock time.
- `__str__`, `__repr__` and `display`: these only render and print the contents.
- The `isinstance` checks that raise `TypeError`: Dafny's types exclude a wrong operand.
- The texts of exception messages: an error is modelled by its type only.
- Garbage collection: unreachable nodes stay in the arena.
- The asymptotic costs in the docstrings. The splices contain no loop, which can be read off their bodies.
- Object identity of headers. Headers are values here, so the model does not show:
  - `return other` / `return self` in main/SLL.py `__add__` returning an operand object itself;
  - `__add__` of analyze/DLL.py and queue_performance/array_queue.py returning `self` rather than a new object.
- Tests that exercise classes not present in the source files (the circular-buffer `ArrayQueue(capacity=...)` and the test modules importing other names) are not modelled.
- Singly.IAdd: requires the two queues to have separate nodes. With `other is self` on a non-empty queue the source loop never ends, because it walks a list that it keeps extending; `Singly.SelfAddRounds` models that loop round by round (see Findings), and `Singly.IAddCopyFirst` is the terminating `+=` for any two queues.
- Doubly.IAdd: requires separate nodes, for the same reason; `Doubly.SelfAddRounds` and `Doubly.IAddCopyFirst` are the aliased loop and the terminating `+=`.
- Singly.AppendCopies: requires separate nodes, for the same reason.
- Doubly.AppendCopies: requires separate nodes, for the same reason.
- Singly.Splice: requires separate nodes. The aliased call is modelled by `CountedSingly.IConcatOntoItself`.
- Doubly.Splice: requires separate nodes. The aliased call is modelled by `CountedDoubly.IConcatOntoItself`.
- CountedSingly.IConcat: requires separate nodes. The aliased case is `CountedSingly.IConcatOntoItself`; two lists that meet at a shared tail (as `r = a + b` of main/SLL.py leaves `r` and `b`) are handled by `CountedSingly.Concat`, which copies them.
- CountedDoubly.IConcat: requires separate nodes. The aliased case is `CountedDoubly.IConcatOntoItself`.
- PositionalList.Concatenate: requires separate nodes. With `other is self` the statements are those of `CountedDoubly.IConcatOntoItself`, and the list ends empty.
- PrimeList.AddSharing: requires separate nodes. `a + a` would link the tail to the head, making a cycle.
- PositionalList.AddBetween: `before` and `after` must be neighbours in the list, as every caller in the source passes. Inserting between two nodes that are not adjacent is not modelled.
- LinkingList.AddBetween: the same restriction to neighbouring nodes.
- Stored `None` items: every member that returns Python `None` on an empty queue (Singly.RemoveFirst, Singly.RemoveLast, Doubly.RemoveFirst, Doubly.RemoveLast, ListQueues.RemoveFirstOrNone, ListQueues.RemoveLastOrNone, CopyingList.RemoveLast) returns `Some` of a stored item even when that item is itself `None`, where Python's answer cannot be told apart from the empty case.
- Sizes are unbounded integers, as Python's are.

## Findings

| source | as written | input that shows it | evidently intended | confidence | as-written member | corrected member |
|---|---|---|---|---|---|---|
| analyze/dll_queue.py:65-80 | `q += q` links the tail to the head (both ways), doubles `_size`, then resets "other", which is `q` itself; the same statements appear in dll_queque.py:71-86, analyze/dll_queque.py:52-66 and analyze/DLL.py:87-112 | any non-empty queue `q`, then `q += q`: `CountedDoubly.OntoItselfLosesValues` shows the queue ends empty and its nodes form a cycle | `q` holds its items twice | high, not executed | CountedDoubly.IConcatOntoItself | CountedDoubly.Concat |
| analyze/sll_queque.py:48-60 | `q.iconcat(q)` links the tail to the head and then resets `q`; the same statements appear in main/SLL.py:95-109 and analyze/SLL.py:124-138 | any non-empty queue `q`, then `q.iconcat(q)`: `CountedSingly.OntoItselfLosesValues` shows the queue ends empty and its nodes form a cycle | `q` holds its items twice; lists sharing a tail are joined by copying | high, not executed | CountedSingly.IConcatOntoItself | CountedSingly.Concat |
| main/SLL.py:74-93 | `a + b` writes `other._head` into the `link` of `self`'s last node, so the left operand is changed and shares its nodes with the result | `a` and `b` each holding one item: after `a + b`, `len(a)` is 1, but one step from `a`'s head reaches `b`'s node (`PrimeList.AddSharingBreaksSelf`) | a new list, both operands unchanged, as the docstring says and analyze/SLL.py does | medium, not executed | PrimeList.AddSharing | CopyingList.Add |
| analyze/ArrayQueue.py:29-31 | `q.iconcat(q)` extends the list by itself and then clears "other", which is the same list | any non-empty queue `q`, then `q.iconcat(q)`: `ListQueues.OntoItselfLosesItems` shows the queue ends empty | `q` holds its items twice | medium, not executed | ListQueues.IConcatIn | ListQueues.ConcatInto |
| sll_queue.py:64-70 | `q += q` walks `other`'s nodes with `addLast` onto `self`; when `other` is `self` each round appends a node after the cursor, so `current` never reaches `None`; dll_queue.py:64-70 has the same loop | any queue `q` holding one item, then `q += q`: `Singly.SelfAddNeverEnds` shows that after `k` rounds the queue has `1 + k` nodes and the cursor is still a node | `q` holds its items twice and the call returns | high, not executed | Singly.SelfAddRounds | Singly.IAddCopyFirst |
