# A verified model of the lab0-c string queue (`queue.c`)

`queue.c` implements a queue of strings as a circular doubly-linked list in
the style of the Linux kernel's `list.h`. A sentinel `struct list_head`
identifies the queue. Every element (`element_t`) embeds a `list` link pair
and owns a heap copy of its string. The operations are `q_new`, `q_free`,
`q_insert_head`, `q_insert_tail`, `q_remove_head`, `q_remove_tail`,
`q_size`, `q_reverse` and `q_delete_mid`.

The model is imperative Dafny over an arena:

- `Queue.Arena` is a class whose fields stand for memory. Slot `HEAD` (0)
  is the sentinel and every other slot is one `element_t`. `next` and `prev`
  hold the links, and `value` holds each element's character buffer (an
  `array<char>`, NUL-terminated as in C). `pool` lists the slots `malloc`
  can still return.
- Ghost state carries the abstract view: `order` is the element slots in
  list order, `contents` their strings, and `live` the allocated slots.
  `text` is the string each element holds, and `Bufs` the string buffers.
- `Valid()` is the queue invariant. It says that `next`/`prev` form one
  cycle, `HEAD, order[0], …, HEAD`, linked both ways and holding exactly one
  sentinel (`ListLinks.Linked`). It also says that every listed element is
  allocated and holds the string `contents` lists, and that every allocated
  element owns a buffer with its text and a NUL.
- A NULL `struct list_head *` is a `null` `Arena?`. Whether a `malloc`
  succeeds is a boolean parameter of the operation that calls it.
- The kernel list primitives (`INIT_LIST_HEAD`, `list_add`,
  `list_add_tail`, `list_del`, `list_move`, `list_empty`) are small methods
  of `Arena`. Each rewrites only the links of the node and of its
  neighbours. `strlen`/`strncpy` are in module `CString`.

Every mutating `q_*` operation except `q_free` keeps `Valid()`. Each of them
states its new `order` and `contents` in terms of the old ones, and states that
the links of every element it does not touch are kept (`LinksKept`). `q_free`
ends with the sentinel released too, so afterwards only the allocator's
bookkeeping (`HeapOk()`) and the strings of elements still held by callers
remain.

Files: `cstring.dfy` (C string functions), `list_links.dfy` (the pure
doubly-linked-cycle invariant and its lemmas), `queue_state.dfy` (the queue
invariant over plain values and a lemma per list operation), `queue.dfy`
(the `Arena` class and the `q_*` operations), `queue_properties.dfy`
(properties that span several calls).

## Model

| member | source | states |
|---|---|---|
| CString.StrLen | queue.c:51 | `strlen` is the index of the buffer's first NUL; no NUL comes before it |
| CString.Strncpy | queue.c:57 | `strncpy(dst, src, n)` writes the text of `src`, NUL-padded to `n` characters, into `dst[0..n)` and leaves everything past `n` untouched |
| CString.CopyString | queue.c:57 | copying `strlen(s) + 1` characters into a buffer of that size makes it exactly `s` followed by NUL |
| CString.NewString | queue.c:51-57 | the string `malloc` returns null exactly when it fails; otherwise it returns a fresh buffer holding a copy of `s` and its NUL |
| CString.CopyOut | queue.c:96-97 | only `sp[0..bufsize)` is written; it holds the text cut to `bufsize - 1` characters, NUL-padded as `strncpy` pads, and `sp[bufsize - 1]` is NUL |
| CString.PaddedText | queue.c:96-97 | the string read back from the removal buffer is the element's text cut to `bufsize - 1` characters |
| CString.TextOfTerminated | queue.c:57-58 | a buffer holding `s` and one NUL reads back as `s` |
| ListLinks.LinkedNeighbours | queue.c:22 | in a linked cycle, every node `n` (sentinel or element) has `n.next.prev == n` and `n.prev.next == n` |
| ListLinks.LinkedAt | queue.c:126-127 | the element at index `i` of the cycle links forward to index `i + 1` (or the sentinel) and back to index `i - 1` (or the sentinel) |
| ListLinks.LinkedPushFront | queue.c:60 | `list_add` of an unlisted node after the sentinel gives a linked cycle with that node first |
| ListLinks.LinkedPushBack | queue.c:83 | `list_add_tail` of an unlisted node before the sentinel gives a linked cycle with that node last |
| ListLinks.LinkedDelete | queue.c:94 | `list_del` of the element at index `j` joins its neighbours and gives a linked cycle without it |
| ListLinks.DeleteKeepsSlots | queue.c:94 | removing an element keeps the other element slots distinct and inside the arena |
| QueueState.InvAlloc | queue.c:47-49 | `malloc` of an element returns an unallocated element slot outside the list, and the queue invariant still holds |
| QueueState.InvRelease | queue.c:54 | freeing an allocated, unlisted element returns its slot to the pool and keeps the invariant |
| QueueState.InvPushFront | queue.c:60 | linking a new element first keeps the invariant; contents become `[s] + old`; no other element's links change |
| QueueState.InvPushBack | queue.c:83 | linking a new element last keeps the invariant; contents become `old + [s]`; no other element's links change |
| QueueState.InvDelete | queue.c:94 | unlinking the element at index `j` keeps the invariant and drops exactly that element and its string |
| QueueState.OwnsAdd | queue.c:57-58 | a new element that gets a buffer holding `s` and NUL owns its string, and the other elements keep theirs |
| QueueState.OwnsRelease | queue.c:147 | releasing one element leaves every other allocated element owning its string |
| QueueState.LinksKeptTrans | queue.c:186 | two relinkings that each keep the links of all other slots keep them together (`list_move` is `list_del` then `list_add`) |
| Queue.ReverseReverse | queue.c:179-188 | reversing twice restores the original sequence |
| Queue.ReverseMultiset | queue.c:179-188 | reversal keeps every element, as often as it occurs |
| Queue.ReverseStep | queue.c:185-187 | moving the next element to visit onto the front keeps `Reverse(rest) + done` equal to the reversal of the whole queue (the loop invariant of `q_reverse`) |
| Queue.ListedReverse | queue.c:179-188 | listing the elements in reverse lists their strings in reverse |
| Queue.Arena.constructor | queue.c:17-18 | a fresh heap of `size` slots in which only the sentinel is allocated: every element slot is free, no string buffer exists, and no element holds a string |
| Queue.Arena.InitListHead | queue.c:22 | `INIT_LIST_HEAD` links the node to itself both ways |
| Queue.Arena.ListEmpty | queue.c:90 | `list_empty` is true exactly when the queue has no elements |
| Queue.Arena.ListAdd | queue.c:60 | `list_add` makes the node first and rewrites only the links of the node, the sentinel and the old first element |
| Queue.Arena.ListAddTail | queue.c:83 | `list_add_tail` makes the node last and rewrites only the links of the node, the sentinel and the old last element |
| Queue.Arena.ListDel | queue.c:94 | `list_del` joins the element's neighbours, drops it from `order` and `contents`, and leaves it allocated with its string |
| Queue.Arena.ListMove | queue.c:186 | `list_move` to the sentinel makes the element at index `j` first and keeps the others in order |
| Queue.Arena.MoveVisited | queue.c:185-187 | one round of the `q_reverse` loop moves the next element to visit to the front; the saved `next` pointer is the element after it |
| Queue.Arena.Malloc | queue.c:47-49 | `malloc` succeeds exactly when allowed and a slot is free, and then it hands out the first free slot |
| Queue.Arena.Free | queue.c:54 | `free` returns the slot to the pool |
| Queue.Arena.ReleaseElement | queue.c:147 | `q_release_element` frees an unlisted element and its string and keeps the invariant |
| Queue.Arena.DeleteFirst | queue.c:34-37 | one round of the `q_free` loop unlinks and releases the first element |
| Queue.Arena.NewElement | queue.c:47-58 | succeeds exactly when both `malloc`s succeed; if the string `malloc` fails, the element is freed again and nothing changes; on success the element holds a fresh copy of `s` |
| Queue.QNew | queue.c:15-25 | NULL when `malloc` fails; otherwise an empty queue whose sentinel's `next` and `prev` are itself, with all `size - 1` element slots free and no string buffers |
| Queue.QSize | queue.c:118-129 | 0 for NULL; otherwise the number of elements reached before coming back to the sentinel |
| Queue.QInsertHead | queue.c:42-62 | true exactly when the handle is non-NULL and both `malloc`s succeed; then contents are `[s] + old` and the value is a fresh copy of `s`, and no other slot's string or buffer changes (elements held by callers included); otherwise nothing changes |
| Queue.QInsertTail | queue.c:65-85 | true exactly when the handle is non-NULL and both `malloc`s succeed; then contents are `old + [s]` and the value is a fresh copy of `s`, and no other slot's string or buffer changes (elements held by callers included); otherwise nothing changes |
| Queue.QRemoveHead | queue.c:88-100 | NULL on a NULL or empty queue, and then nothing is written; otherwise it returns the first element, still allocated, and contents become `old[1..]`; `sp[0..bufsize)` gets the text as `strncpy` copies it, NUL-terminated |
| Queue.QRemoveTail | queue.c:103-115 | NULL on a NULL or empty queue; otherwise it returns the last element and contents become `old[..n-1]`; the buffer is written as in `q_remove_head` |
| Queue.MidNode | queue.c:139-143 | for `n >= 3` the slow/fast walk stops at the element at index `(n - 1) / 2` |
| Queue.QDeleteMid | queue.c:132-150 | false on a NULL or empty queue; otherwise it unlinks and releases exactly the element at index `(n - 1) / 2` and returns true |
| Queue.QReverse | queue.c:179-188 | the queue holds the same elements, in reverse order; nothing is allocated or released; a NULL or empty queue is unchanged |
| Queue.QFree | queue.c:28-39 | nothing on NULL; otherwise every listed element is unlinked and released exactly once, in list order, and then the sentinel is released |
| QueueProperties.ReadBack | queue.c:96-97 | a string shorter than `bufsize` reads back whole from the removal buffer |
| QueueProperties.DrainHead | queue.c:88-100 | `q_remove_head`, as many times as `q_size` counts, returns the strings first to last and empties the queue |
| QueueProperties.FillTail | queue.c:65-85 | `q_insert_tail` of every string of `xs` (all `malloc`s succeeding) appends `xs` |
| QueueProperties.FillHead | queue.c:42-62 | `q_insert_head` of every string of `xs` (all `malloc`s succeeding) puts `xs` reversed in front |
| QueueProperties.ReverseSnoc | queue.c:42-62 | appending an element puts it at the front of the reversal |
| QueueProperties.TailThenHead | queue.c:65-100 | FIFO: inserting with `q_insert_tail` and draining with `q_remove_head` returns the strings in insertion order |
| QueueProperties.NewTailThenHead | queue.c:15-100 | FIFO from `q_new` on: a queue made with room for `xs`, filled with `q_insert_tail` and drained with `q_remove_head` into any caller buffer, returns `xs` |
| QueueProperties.HeadThenHead | queue.c:42-100 | LIFO: inserting with `q_insert_head` and draining with `q_remove_head` returns the strings in reverse insertion order |
| QueueProperties.ReverseTwice | queue.c:179-188 | `q_reverse` twice restores the original order of elements and strings |

## Left out

- `q_swap`, `q_reverseK`, `q_sort`, `q_descend` and `q_merge` (queue.c:173-212) have empty bodies or only return 0, so they have no behaviour to model.
- `q_delete_dup` (queue.c:153-170) is not modelled. Its body writes through the string literal `""`. It reads `entry->value` after releasing `entry`, and it calls `list_empty` on a possibly NULL head. It also deletes the elements that differ from the previous one, the opposite of what its comment describes. There is no defined behaviour to verify.
- Queue.QDeleteMid: requires a queue of 0 or at least 3 elements. On one or two elements the do-while of queue.c:139-143 stops at the sentinel, and queue.c:146-147 would unlink and free it.
- Queue.MidNode: for even `n` the walk stops at index `n/2 - 1`, the lower of the two middle elements. The LeetCode problem cited at queue.c:134 asks for index `n/2`. The model proves the index the code reaches.
- Queue.QRemoveHead: requires a buffer `sp` of at least `bufsize >= 1` characters. The code checks neither `sp != NULL` nor `bufsize > 0`, and `bufsize - 1` would wrap around. It also requires `sp` not to be one of the queue's own string buffers.
- Queue.QRemoveTail: the same buffer requirements as `q_remove_head`, for the same reason.
- Queue.QInsertHead: requires `s` to contain no NUL, because a C string's text ends at its first NUL. A NULL `s` is not modelled.
- Queue.QInsertTail: the same requirement on `s` as `q_insert_head`.
- Queue.Arena.ListDel: leaves the removed node's own `next`/`prev` as they were. Any poisoning or self-linking done by `list_del` belongs to `list.h`, which is not part of this model.
- Real `malloc`/`free`, addresses and `container_of`/`list_entry` arithmetic are not modelled. An arena of a fixed number of slots stands in for the heap, and slot indices stand in for pointers. `malloc` also fails once the arena has no free slot. `free` of a string buffer is modelled by dropping the element's buffer reference.
- The `int` counter of `q_size` is unbounded in the model; 32-bit overflow is not modelled.
- CString.NewString: `int s_len = strlen(s) + 1` (queue.c:51, queue.c:74) would truncate for strings of `INT_MAX` or more characters; the model sizes the copy as the unbounded `|s| + 1`.
- CString.CopyOut: a Dafny `char` stands for one C byte. The cut at `bufsize - 1` bytes (queue.c:96, queue.c:111) can split a multi-byte character in C; the model has no character encoding.
