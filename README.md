# Verified model of the lists and sorting crate

This project models three small Rust containers and one algorithm, written in
Dafny:

- the positional singly-linked list `LinkedList<T>`
  (`src/lists/simple_linked_list.rs`): `new`, `push`, `add_at`, `remove_at`,
  `pop`, `get_at`, the `LinkedListError` values and the `Display` rendering
  that joins elements with `" -> "`;
- the queue `Fifo<T>` (`src/lists/fifo.rs`): shared head and tail cells, `push`
  at the tail, `pop` at the head and a `len` counter;
- the fixed-capacity `RingBuffer<T>` (`src/lists/ring_buffer.rs`): a
  preallocated buffer, monotone `read` and `write` counters used modulo the
  capacity, and the `Full` and `Empty` errors;
- the in-place `quicksort` (`src/sorting/quicksort.rs`): a last-element pivot,
  a two-pointer partition with swaps, and recursion on both sides of the pivot.

Each file is one module. `prelude.dfy` holds Rust's `Option` and `Result`.

- **The linked list** is a class over heap nodes. Its `Valid()` invariant ties
  the real `head`/`next` chain and the `len` counter to two ghost sequences:
  `nodes` names the chain link by link, and `elems` is the list's abstract
  value. Every operation is stated on `elems`, through the reference functions
  `Inserted` and `Removed`. The invariant shows that the walks in `add_at`,
  `remove_at` and `get_at` always stay inside the chain, so the source's
  `Unknown` and `Empty` fallbacks are unreachable; the model has no branch for
  them.
- **The queue** keeps cells that are shared objects. `head` and `tail` are
  references to the same cell when one element is queued. Emptying that cell
  through `head` therefore empties what `tail` sees as well.
- **The ring buffer** keeps an `array` and unbounded counters. Its queued
  values are the window of slots `read .. write` modulo the capacity.
- **Quicksort** works on the index range `[lo, hi)` of one array, which stands
  in for the Rust sub-slice.

## Model

| member | source | states |
|---|---|---|
| LinkedLists.Inserted | src/lists/simple_linked_list.rs:79-84 | the list after splicing `v` in at position `i`: one longer, `v` at `i`, the elements before `i` in place and those from `i` on shifted up by one |
| LinkedLists.Removed | src/lists/simple_linked_list.rs:112-115 | the list after unlinking position `i`: one shorter, the elements before `i` in place and those after `i` shifted down by one |
| LinkedLists.RemoveThenInsert | src/lists/simple_linked_list.rs:61-119 | on the abstract sequence, removing the element at `i` and inserting it again at `i` restores it, for every `i`; at `i = 0` on a list of two or more this is not an `add_at` the source can perform (see Left out) |
| LinkedLists.InsertThenRemove | src/lists/simple_linked_list.rs:61-119 | on the abstract sequence, inserting at `i` and then removing at `i` returns the inserted value and restores it, for every `i`; at `i = 0` on a non-empty list this is not an `add_at` the source can perform (see Left out) |
| LinkedLists.RemoveThenAddAt | src/lists/simple_linked_list.rs:61-119 | on the list itself, for every `i < len` at which `add_at` accepts the re-insertion (`i > 0`, or `i = 0` on a one-element list, which `remove_at(0)` empties): `remove_at(i)` returns `Ok` of the element at `i`, `add_at(i, it)` returns `Ok(())`, and the list and `len` are as before |
| LinkedLists.AddAtThenRemove | src/lists/simple_linked_list.rs:61-119 | on the list itself, for every call `add_at` accepts (`0 < i <= len`, or `i = 0` on the empty list): `add_at(i, v)` returns `Ok(())`, `remove_at(i)` returns `Ok(v)`, and the list and `len` are as before |
| LinkedLists.InsertAtEnd | src/lists/simple_linked_list.rs:57-59 | inserting at position `len` is appending |
| LinkedLists.RemoveLast | src/lists/simple_linked_list.rs:121-126 | removing at position `len - 1` drops the last element |
| LinkedLists.DecimalNonEmpty | src/lists/simple_linked_list.rs:28-49 | the Debug rendering of every integer, which the display loop writes for each element of the integer lists in the tests, is a non-empty string |
| LinkedLists.IntRenderingIsJoin | src/lists/simple_linked_list.rs:28-49 | for every list of integers, the rendering loop's output equals the elements joined by `" -> "`, and it is `""` exactly for the empty list |
| LinkedLists.RenderingIsJoin | src/lists/simple_linked_list.rs:28-49 | when no element renders as the empty string, the rendering loop's output equals the elements joined by `" -> "`, and it is `""` exactly for the empty list |
| LinkedLists.Node.constructor | src/lists/simple_linked_list.rs:9-13 | a new node holds the value and has no successor |
| LinkedLists.LinkedList.constructor | src/lists/simple_linked_list.rs:53-55 | a new list is empty, with `len == 0` and no head |
| LinkedLists.LinkedList.Push | src/lists/simple_linked_list.rs:57-59 | `push(v)` appends `v` and keeps the chain invariant |
| LinkedLists.LinkedList.AddAt | src/lists/simple_linked_list.rs:61-87 | an index above `len` gives `IndexError(index)` and changes nothing; otherwise the result is `Ok(())`, the list becomes `Inserted(old, index, v)` and `len` grows by one |
| LinkedLists.LinkedList.LinkAfter | src/lists/simple_linked_list.rs:79-84 | the splice of `add_at`: the new node takes over the predecessor's successor and becomes its successor, which inserts its value at `index` and keeps the chain invariant |
| LinkedLists.LinkedList.RemoveAt | src/lists/simple_linked_list.rs:89-119 | an empty list gives `Empty`, checked before the index, and an index at or above `len` gives `IndexError(index)`; both leave the list unchanged; otherwise the result is the element at `index`, and the list becomes `Removed(old, index)` |
| LinkedLists.LinkedList.UnlinkAfter | src/lists/simple_linked_list.rs:112-115 | the splice of `remove_at` past the head: the predecessor's successor is unlinked, its value returned, and the chain invariant kept |
| LinkedLists.LinkedList.Pop | src/lists/simple_linked_list.rs:121-126 | an empty list gives `Empty` and is unchanged; otherwise the last element is returned and dropped |
| LinkedLists.LinkedList.GetAt | src/lists/simple_linked_list.rs:128-143 | returns `IndexError(index)` if and only if `index >= len`, otherwise `Ok` of the element at `index`; the list is never modified |
| LinkedLists.LinkedList.Render | src/lists/simple_linked_list.rs:32-49 | the loop calling `get_at(0)`, `get_at(1)`, ... until it fails builds exactly `Rendering(elems, show)` |
| LinkedLists.AddAtTest | src/lists/simple_linked_list.rs:176-210 | inserting 31 at 0, 66 at 1 and 420 at 1 succeeds three times and leaves `[31, 420, 66]` with `len == 3` |
| LinkedLists.RemoveAtHeadAndTailTest | src/lists/simple_linked_list.rs:264-285 | from `[1, 2, 3]`, removing at 0 gives 1 and then removing at 1 gives 3, leaving `[2]` |
| LinkedLists.RenderOneTwoThree | src/lists/simple_linked_list.rs:355-362 | `[1, 2, 3]` renders as `"1 -> 2 -> 3"` |
| LinkedLists.DisplayTest | src/lists/simple_linked_list.rs:354-368 | a list of 1, 2, 3 displays as `"1 -> 2 -> 3"` and the empty list as `""` |
| Fifos.Cell.constructor | src/lists/fifo.rs:12 | a new cell holds the given slot |
| Fifos.Fifo.Front | src/lists/fifo.rs:113-123 | the head cell holds the oldest queued value, and is empty exactly when the queue is |
| Fifos.Fifo.Back | src/lists/fifo.rs:113-123 | the tail cell holds the newest queued value, and is empty exactly when the queue is |
| Fifos.Fifo.constructor | src/lists/fifo.rs:25-31 | a new queue is empty, with `len == 0` |
| Fifos.Fifo.Push | src/lists/fifo.rs:33-43 | appends `v` at the tail and increments `len`; afterwards the tail holds `v`, and on an empty queue head and tail become the same new cell |
| Fifos.Fifo.LinkFirst | src/lists/fifo.rs:38-41 | on an empty queue the new cell becomes both head and tail and holds the only element |
| Fifos.Fifo.LinkAfterTail | src/lists/fifo.rs:35-37 | on a non-empty queue the tail node links to the new cell, which becomes the tail; the element joins the back and the head is unchanged |
| Fifos.Fifo.Pop | src/lists/fifo.rs:45-61 | an empty queue gives `None` and is unchanged; otherwise the oldest value is returned, the queue loses its first element and `len` drops by one; once the queue is empty, both head and tail are empty |
| Fifos.PushThreePopOne | src/lists/fifo.rs:108-115 | pushing 1, 2, 3 and popping once gives 1 and leaves `[2, 3]` with `len == 2` |
| Fifos.Scenario | src/lists/fifo.rs:88-130 | pushing 1, 2, 3 and popping three times gives 1, 2, 3 in FIFO order, with the head holding 2 and the tail 3 after the first pop (:106-130); a fourth pop on the emptied queue gives `None`, the behaviour of the empty-queue test (:88-94) |
| RingBuffers.Window | src/lists/ring_buffer.rs:37-51 | the window of `count` queued values starting at counter `from` has length `count` |
| RingBuffers.WindowAt | src/lists/ring_buffer.rs:49-51 | the `k`-th queued value sits in slot `(from + k) % capacity` |
| RingBuffers.WindowAfterWrite | src/lists/ring_buffer.rs:37-39 | in a buffer that is not full, writing slot `write % capacity` appends to the queued values and leaves the earlier ones in place, across the wrap-around |
| RingBuffers.WindowAfterRead | src/lists/ring_buffer.rs:49-51 | reading slot `read % capacity` yields the oldest queued value, and the remaining values are the window one counter further on |
| RingBuffers.RingBuffer.New | src/lists/ring_buffer.rs:16-22 | a new buffer has capacity 10, every slot holds the default value, both counters are 0 and nothing is queued |
| RingBuffers.RingBuffer.NewWithCap | src/lists/ring_buffer.rs:24-30 | a new buffer has capacity `cap`, every slot holds the default value, both counters are 0 and nothing is queued |
| RingBuffers.RingBuffer.IsFull | src/lists/ring_buffer.rs:55-57 | `write - read == capacity` holds if and only if capacity values are queued |
| RingBuffers.RingBuffer.IsEmpty | src/lists/ring_buffer.rs:59-61 | `write - read == 0` holds if and only if nothing is queued |
| RingBuffers.RingBuffer.Push | src/lists/ring_buffer.rs:32-42 | a full buffer gives `Full` and is unchanged; otherwise only slot `write % capacity` is overwritten, `write` grows by one, `read` is unchanged and the value joins the back of the queue; capacity 0 always gives `Full`; `read <= write <= read + capacity` is kept |
| RingBuffers.RingBuffer.Get | src/lists/ring_buffer.rs:44-53 | an empty buffer gives `Empty` and is unchanged; otherwise the result is slot `read % capacity`, which is the oldest queued value, `read` grows by one and the value leaves the queue; capacity 0 always gives `Empty` |
| RingBuffers.FillThenGetTwo | src/lib.rs:11-19 | a capacity-3 buffer reports `Empty`, accepts 1, 2 and 3, and gives back 1 and 2 |
| RingBuffers.WrapAround | src/lib.rs:21-30 | continuing from that state, 4 and 5 go into the freed slots, 6 is refused as `Full`, and 3, 4, 5 come out in order before `Empty` |
| RingBuffers.Scenario | src/lib.rs:10-30 | the whole ring-buffer scenario gives exactly the results the test expects |
| Sorting.PermutationKeepsBelow | src/sorting/quicksort.rs:24 | rearranging the part below the pivot keeps it below the pivot |
| Sorting.PermutationKeepsAtLeast | src/sorting/quicksort.rs:25 | rearranging the part above the pivot keeps it at or above the pivot |
| Sorting.SortedAroundPivot | src/sorting/quicksort.rs:23-25 | two sorted runs, one below the pivot and one at or above it, with the pivot between them, form one sorted run |
| Sorting.RearrangedWiden | src/sorting/quicksort.rs:24-25 | rearranging a sub-slice rearranges every slice that contains it, and leaves everything outside that slice in place |
| Sorting.SwapRearranges | src/sorting/quicksort.rs:21-23 | exchanging two positions of a slice permutes it and touches nothing outside it |
| Sorting.Swap | src/sorting/quicksort.rs:21-23 | `arr.swap(i, j)` exchanges exactly the two positions and keeps the slice's multiset |
| Sorting.Partition | src/sorting/quicksort.rs:6-23 | the partition loop terminates, even on all-equal input, and keeps `left` inside the slice without `right` underflowing; afterwards the pivot sits at `left`, everything before it is smaller, everything after it is at least as large, and the slice is a permutation of the input |
| Sorting.SortedAroundPartition | src/sorting/quicksort.rs:24-25 | after the partition, sorting the left part and then the right part sorts the whole slice, which stays a permutation of the partitioned one |
| Sorting.Quicksort | src/sorting/quicksort.rs:1-26 | the slice ends sorted and is a permutation of its input; nothing outside the slice changes; slices of length 0 or 1 are untouched |
| Sorting.SortedUnique | src/sorting/quicksort.rs:46-79 | two sorted sequences with the same multiset are equal, so the sorted output is determined by the input |
| Sorting.SortedCopy | src/sorting/quicksort.rs:53-58 | sorting an array holding `s` yields a sorted permutation of `s` |
| Sorting.SortsTo | src/sorting/quicksort.rs:53-58 | sorting an input yields the expected array whenever that array is a sorted permutation of the input |
| Sorting.SortEmpty | src/sorting/quicksort.rs:33-37 | the empty array stays empty |
| Sorting.SortSingle | src/sorting/quicksort.rs:40-44 | `[1]` stays `[1]` |
| Sorting.SortTwo | src/sorting/quicksort.rs:47-51 | `[2, 1]` sorts to `[1, 2]` |
| Sorting.SortReversed | src/sorting/quicksort.rs:54-58 | `[5, 4, 3, 2, 1]` sorts to `[1, 2, 3, 4, 5]` |
| Sorting.SortAllSame | src/sorting/quicksort.rs:61-65 | `[1, 1, 1, 1, 1]` stays the same |
| Sorting.SortSorted | src/sorting/quicksort.rs:68-72 | `[1, 2, 3, 4, 5]` stays the same |
| Sorting.SortOneDifferent | src/sorting/quicksort.rs:75-79 | `[1, 1, 1, 4, 1, 1]` sorts to `[1, 1, 1, 1, 1, 4]` |

## Left out

- LinkedLists.LinkedList.AddAt: `add_at(0, v)` on a non-empty list is excluded by its precondition. The source computes `index - 1` on a `usize` (simple_linked_list.rs:75) and that underflows, after `len` has already been bumped at :67. No prepend behaviour is invented for it. `Push` never makes this call, because it inserts at `len`.
- LinkedLists.RemoveThenInsert and LinkedLists.InsertThenRemove are stated on the abstract sequence for every position. At position 0 on a list that is non-empty when the insertion happens, that insertion is an `add_at(0, ·)` the source cannot perform, for the underflow reason above. The round trips the source can perform are `RemoveThenAddAt` and `AddAtThenRemove`, which are stated on the list itself.
- Integer widths: `len`, `read`, `write` and all indices are unbounded `nat`s, so `usize` overflow after 2^64 operations is not modelled. The `i32` elements of `quicksort` are mathematical integers; the algorithm only compares them.
- The unreachable fallbacks of the linked list (`Err(Unknown)` at simple_linked_list.rs:85 and :118, `Err(Empty)` at :141) and of the queue (`None` at fifo.rs:57-59) have no branch in the model. The invariants prove that they cannot be taken.
- Ownership and memory: `Box`, `Drop`, `Rc` reference counts and `RefCell` borrow checks are not modelled. Nodes and cells are garbage-collected objects, and the `Repr` footprint stands for the absence of sharing.
- Element formatting: Rust's Debug formatting is a parameter `show: T -> string` of `Render`. The tests use `Decimal`, the rendering of integers. The `Formatter` and `write!` are out; `Render` returns the string. As in the source, an element that renders as `""` in first place means no `" -> "` is written before the next element; `RenderingIsJoin` covers the case where every element renders non-empty.
- Fifos.Fifo.Push counts the new element in `len` before linking it, where the source counts it afterwards (fifo.rs:42). Nothing reads `len` in between, so the final state is the same.
- `T::default()` of the ring buffer is a `default` parameter of its constructors.
- The Rust slices of `quicksort` are index ranges `[lo, hi)` of one array. The recursive calls therefore use absolute indices.
- Tests that inspect private fields (`head`, `tail`, `len`) are expressed through the ghost state and through `Front` and `Back`. `src/lib.rs` and `src/lists/mod.rs` contribute only module wiring, apart from the ring-buffer scenario test.
