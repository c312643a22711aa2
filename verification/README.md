# lab0-c string queue in Dafny

This project models `queue.c` of lab0-c. It is a queue of C strings built on a singly linked list of elements. The queue record holds `head`, `tail` and a `queue_size` counter. Each element (`list_ele_t`) owns a copy of one string and points to the next element.

The operations modelled are `q_new`, `q_free`, `q_insert_head`, `q_insert_tail`, `q_remove_head` (which copies the removed string into a caller's buffer of `bufsize` cells), `q_size`, `q_reverse` (which relinks the nodes in place) and `q_sort` (whose body is empty).

Files:

- `queue.dfy`, module `LinkedQueue`. The list element is a `Node` class and the queue record a `Queue` class. Both are updated in place, as in C.
  - The queue carries two ghost sequences: `nodes`, the chain reached from `head`, and `contents`, the strings that chain holds.
  - `Queue.Valid()` is the queue invariant:
    - the chain from `head` follows `next` to null;
    - `tail` is its last node;
    - `size` is its length;
    - `head` and `tail` are null exactly when the queue is empty;
    - no stored string contains NUL.
  - From that invariant, `LinkedDistinct` proves the chain has no cycle and no shared node.
  - Each C function is a method taking `q: Queue?`, because C accepts a NULL queue.
  - A failed `malloc`/`calloc` is a boolean input to the method.
  - `q_free` and `q_reverse` keep their `while` loops, with invariants over the ghost chain.
- `cstrings.dfy`, module `CStrings`. The output buffer of `q_remove_head` is a `char` array, and `CString` is what a C reader finds in it.
  - `CopyOut` and `WriteOut` give the copy the comment at queue.c:138-139 documents.
  - `CopyAsWritten` gives the copy the body at queue.c:151-158 performs.
- `sequences.dfy`, module `Sequences`. `Rev` is the abstract meaning of `q_reverse`, with its index, involution and same-elements lemmas.
- `scenarios.dfy`, module `Scenarios`. These are callers that chain several operations: an insert/remove round trip, reversing twice, and the z, a, b order.

Where the body of `queue.c` and its own doc comments disagree, the main model follows the doc comment, and the source comments in the model mark each spot. There are six such spots:

- the copy in `q_remove_head`;
- the missing `tail` reset in `q_remove_head`;
- the missing release of the removed node in `q_remove_head`;
- the missing NULL checks in `q_remove_head` and `q_insert_head`;
- the unchecked node allocation in `q_insert_tail`.

The two divergences whose as-written behaviour can be stated on values are modelled twice, as written and as corrected (see Findings).

`q_sort` follows the code: its body does nothing. Only the cases its comment calls no-ops (a null, empty or one-element queue) are claimed to be in ascending order.

## Model

| member | source | states |
|---|---|---|
| LinkedQueue.Queue.constructor | queue.c:19-22 | a new record has null `head` and `tail`, size 0, no elements, and satisfies the queue invariant |
| LinkedQueue.New | queue.c:8-24 | returns null exactly when the record cannot be allocated; otherwise a fresh, valid, empty queue |
| LinkedQueue.Free | queue.c:26-50 | the loop walks the whole chain: afterwards `head` is null and every node that was in the queue is detached (its `next` is null) |
| LinkedQueue.InsertHead | queue.c:52-90 | returns true exactly when the queue exists and both allocations succeed. On success `s` is the new first element, the size grows by one, the new node is fresh, and it is also the tail when the queue was empty, otherwise the tail is kept. On failure nothing changes. The invariant is kept |
| LinkedQueue.InsertTail | queue.c:92-132 | returns true exactly when the queue exists and both allocations succeed. On success `s` is the new last element, linked after the old tail, and it is also the head when the queue was empty, otherwise the head is kept; the size grows by one. On failure neither the record nor the old tail's link changes. The invariant is kept |
| LinkedQueue.RemoveHead | queue.c:134-169 | returns false and changes nothing for a null or empty queue. Otherwise the first element is dropped, the size shrinks by one, and `head` and `tail` are both null once the queue is empty. The buffer holds the documented copy, and a reader of a buffer with at least one cell sees the removed string truncated to `bufsize - 1` characters. The invariant is kept |
| LinkedQueue.RemoveHeadAsWritten | queue.c:160-168 | the relinking as written: removing the only element clears `head` but leaves `tail` on the removed node, which breaks the queue invariant |
| LinkedQueue.Size | queue.c:171-181 | 0 for a null queue; otherwise the number of stored elements, which is 0 exactly when `head` is null |
| LinkedQueue.Reverse | queue.c:183-207 | a null or empty queue is unchanged. Otherwise the elements and the very same nodes end in the opposite order, the old head is the new tail and the old tail the new head, and the size is kept. The invariant is kept |
| LinkedQueue.RelinkBackwards | queue.c:195-206 | the relinking loop leaves every node pointing to its former predecessor, with the first node ending the chain. `head` ends on the last node and `tail` on the first |
| LinkedQueue.ReversedQueue | queue.c:195-206 | a record whose `head` is the last node of a backwards-linked chain and whose `tail` is its first node satisfies the queue invariant over the reversed chain |
| LinkedQueue.ReversedChain | queue.c:201-206 | a chain linked backwards is, read from its last node, a forward chain holding the same strings in reverse order |
| LinkedQueue.LinkedDistinct | queue.c:38-45 | a chain that ends in null holds no node twice: no cycle and no sharing, so walking it from `head` reaches null |
| LinkedQueue.PrependChain | queue.c:79-80 | linking a new node in front of the chain gives a chain one element longer at the front |
| LinkedQueue.ChainPrefix | queue.c:117-122 | before the old tail is relinked, the chain without its tail leads to the tail, and the tail occurs nowhere else |
| LinkedQueue.AppendChain | queue.c:117-124 | relinking the old tail to a new, unlinked node gives a chain one element longer at the back |
| LinkedQueue.DropFirstChain | queue.c:161-164 | the chain after its first node is still a chain, holding the remaining strings |
| LinkedQueue.Sort | queue.c:209-214 | changes nothing and keeps the invariant; a null, empty or one-element queue is in ascending order |
| Sequences.RevIndex | queue.c:183-207 | position `k` of the reversed sequence holds the element `k` places from the end |
| Sequences.RevInvolution | queue.c:183-207 | reversing twice gives back the original sequence |
| Sequences.RevSameElements | queue.c:186-188 | reversal keeps exactly the same elements, the same number of times each: nothing is allocated or released |
| CStrings.CString | queue.c:138-139 | what a C reader sees in a buffer: the longest prefix with no terminator, followed by a terminator unless it fills the buffer |
| CStrings.CStringOfTerminated | queue.c:138-139 | a string with no NUL, followed by a terminator, reads back as itself whatever follows |
| CStrings.CopyOut | queue.c:138-139 | the documented copy changes only the first `bufsize` cells, and a 0-cell capacity changes nothing |
| CStrings.WriteOut | queue.c:147-158 | writes exactly the documented copy into the array |
| CStrings.CopyOutReadBack | queue.c:138-139 | after the documented copy, the reader sees the first `min(length, bufsize - 1)` characters, which is the whole string when it fits |
| CStrings.CopyAsWritten | queue.c:151-158 | the copy as written: it fails for a 0-cell buffer and for strings shorter than `sizeof(int) - 1` |
| CStrings.CopyAsWrittenCounterexamples | queue.c:151-158 | inputs on which the copy as written differs from the documented one ("hello" into 6 cells reads "hell.", "hello" into 3 cells overruns, "hi" into 8 cells over-reads), while the documented copy gives "hello", "he" and "hi" |
| Scenarios.InsertHeadThenRemove | queue.c:52-169 | inserting at the head and then removing the head restores the contents and size, for every C string including "" |
| Scenarios.ReverseTwice | queue.c:183-207 | reversing twice restores the strings, the nodes and the size |
| Scenarios.TailTailHeadQueue | queue.c:92-132 | a new queue given "a" and "b" at the tail and then "z" at the head holds z, a, b |
| Scenarios.TailTailHead | queue.c:171-181 | that queue has size 3, and removing from its head yields z, a, b |
| Scenarios.RemoveString | queue.c:142-158 | removing from a non-empty queue into a fresh buffer yields the first string truncated to the capacity minus one |
| Scenarios.RemoveIntoSmallBuffer | queue.c:134-169 | removing "hello" from a one-element queue into 3 cells reads back "he" and leaves the queue empty |
| Scenarios.EmptyQueueRequests | queue.c:142-145 | on a new queue, removing fails and reversing does nothing: the size stays 0 |
| Scenarios.FailedInserts | queue.c:62-71 | failed allocations, and an insert into a null queue, add nothing: only the one successful insert is counted and removed |

## Left out

- Memory management. `malloc`, `calloc` and `free` are not modelled, and neither is the leak tracking of `harness.h`. A failed allocation is a boolean input. Releasing a node is modelled by detaching it, or by leaving it unreachable.
- Free: releasing the queue record itself (queue.c:49) and the string buffers (queue.c:41-42) is not modelled. `tail` and `size` keep their stale values, because C frees the record. The early return that leaks the record of an empty queue (queue.c:35-36) has no counterpart.
- Node: the stored string is a constant of the node, so the `value = NULL` store of queue.c:42 is not modelled.
- InsertHead: the body never tests `q` and would dereference a NULL queue (queue.c:59-80). The model returns false, as the comment at queue.c:55 promises.
- InsertTail: the body writes through an unchecked node allocation (queue.c:106-110). The model returns false on that failure, as the comment at queue.c:95 promises.
- RemoveHead: the model performs the documented copy and clears `tail`. The body's copy is modelled on values by CStrings.CopyAsWritten, and the missing tail reset by LinkedQueue.RemoveHeadAsWritten. Writing through a NULL `sp` (queue.c:154-158) and not releasing the removed node are not modelled.
- RemoveHeadAsWritten: models only the relinking, not the copy into `sp`.
- C string mechanics. `strlen` and `memcpy` are not modelled byte by byte. A string is a `seq<char>` with no NUL in it, and inserts require that.
- Integer widths. The `int` counter `queue_size`, and the `int` length `s_size` in both inserts, are unbounded here. Overflow past 2^31 - 1 elements or characters is not modelled.
- CStrings.CopyAsWritten assumes an LP64 target: `sizeof(int)` is 4 and `sizeof(size_t)` is 8.
- Sort: sorting a queue of two or more elements is not modelled, because the body at queue.c:214 is empty.
- `harness.h` and `queue.h` are not part of this model. The layout of the queue record and of an element is inferred from their uses in queue.c.

## Findings

| source | as written | input that shows it | evidently intended | confidence | as-written member | corrected member |
|---|---|---|---|---|---|---|
| queue.c:151-158 | copies `sizeof(string_size)` or `sizeof(bufsize)` bytes instead of the string, and puts the terminator at `sp[bufsize - 1]` | "hello" into a 6-cell buffer reads back "hell."; "hello" into 3 cells copies 8 bytes | copy at most `bufsize - 1` characters, then a terminator right after them (queue.c:138-139) | not executed | CStrings.CopyAsWrittenCounterexamples | CStrings.CopyOutReadBack |
| queue.c:161-166 | removing the last element clears `head` but not `tail` | a queue holding exactly one element | `head` and `tail` both null once the queue is empty | not executed | LinkedQueue.RemoveHeadAsWritten | LinkedQueue.RemoveHead |
