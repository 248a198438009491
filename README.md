# xlink ring buffer and intrusive stack in Dafny

This project models the two allocation-free data structures of the xlink
communications library and proves properties of them.

**The masked ring buffer** (`xcomm_ringbuf_*`, module `RingBuffer`) is a
fixed-capacity FIFO of fixed-width elements.
- The capacity is a power of two, and it is addressed through a mask.
- Two free-running 32-bit cursors, `wpos` and `rpos`, track it. Each may
  wrap past 2^32; the length is their wrapping difference.
- A transfer copies in at most two pieces, split at the end of storage.

The model is the class `RingBuffer.Ring` with the C struct's fields. The
cursors are `u32` (bits.dfy) with explicit wrapping arithmetic, and C's `|`,
`&` and `>>` are defined bit by bit.

The ghost state is:
- `Contents`: the queued elements, oldest first;
- `Log`: with `mask + 1 == 2^Log` as an unbounded number;
- `Head`: the read cursor's storage index;
- `Released`: the storage handed back by destroy.

The invariant `Valid()` ties the queued elements to the storage cells the
masked cursors address. `Write` and `Read` are proved to append to and
remove from the front of `Contents`, including when a transfer wraps at the
end of storage or a cursor wraps past 2^32.

**Zero capacity.** When `bufsize < esize`, the rounding gives 0 and the mask
becomes `0xFFFFFFFF`. `xcomm_ringbuf_cap` is then 0: the buffer is never
full, yet it accepts nothing. The model keeps this case rather than
excluding it.

**The intrusive stack** (`xcomm_stack_*`, module `Stack`) is built on an
intrusive circular doubly-linked list (module `IntrusiveList`).
- A stack is a list head: push inserts at the tail and pop unlinks the tail.
- Nodes are `IntrusiveList.Node` objects whose `prev`/`next` fields are
  relinked in place; nothing is allocated.
- A list's contents are given by the ghost predicate
  `Linked(head, nodes)`.
- `LinkedUnique` shows the heap determines that sequence, so the ghost
  sequence each operation takes is the one the list actually holds.

xcomm-list.h is not part of this model. Its primitives (`init`,
`insert_tail`, `empty`, `tail`, `remove`, `swap`) are written from their
documented behaviour, and the stack is proved against them.

## Model

| member | source | states |
|---|---|---|
| Bits.AndLowMask | src/xcomm-ringbuffer.c:42 | `x & (2^k - 1)` is `x mod 2^k` |
| Bits.Add32IsMod | src/xcomm-ringbuffer.c:127 | The wrapping `uint32_t` addition used on the cursors is addition modulo 2^32 |
| RingBuffer.SmearStep | src/xcomm-ringbuffer.c:28-32 | One step, or-ing x with `x >> w`, doubles the run of set bits below the top bit and keeps x below 2^L |
| RingBuffer.SmearFills | src/xcomm-ringbuffer.c:28-32 | The five or-shift steps turn a nonzero n into 2^(Log2(n)+1) - 1 and keep 0 at 0 |
| RingBuffer.IncrementAndHalve | src/xcomm-ringbuffer.c:33 | `(s + 1) >> 1` for s = 2^k - 1 is 2^(k-1), but 0 when k = 32 because s + 1 wraps |
| RingBuffer.RoundDownPowOfTwoSpec | src/xcomm-ringbuffer.c:27-34 | As written: for 1 <= n < 2^31 the result r is the largest power of two not above n (r <= n < 2r); for n = 0 and for every n >= 2^31 it is 0 |
| RingBuffer.RoundDownPowOfTwoCorrectedSpec | src/xcomm-ringbuffer.c:27-34 | Corrected rounding: the largest power of two not above n for every nonzero n, 2^31 included; 0 for n = 0 |
| RingBuffer.SlotIsMaskedCursor | src/xcomm-ringbuffer.c:42 | `(cursor + i) & mask` is the cursor's storage index advanced by i and wrapped once at the end of storage, even when `cursor + i` wraps past 2^32 |
| RingBuffer.CursorAdvance | src/xcomm-ringbuffer.c:134 | Advancing a cursor by k <= capacity modulo 2^32 advances its storage index by k, wrapped once, since the capacity divides 2^32 |
| RingBuffer.TwoPieceSplit | src/xcomm-ringbuffer.c:48-51 | With `l = min(len, size - off)`, position j of a transfer lies at `off + j` (j < l) or at `j - l`. Both pieces fit in storage and miss the positions before the transfer |
| RingBuffer.CopyPlan | src/xcomm-ringbuffer.c:38-51 | The `off`, `size` and `l` computed from the cursor and mask place logical position start + j at `off + j` or `j - l`. Earlier positions lie outside both pieces |
| RingBuffer.CopyElements | src/xcomm-ringbuffer.c:50 | A memcpy of count elements: those cells of dst take src's values and every other cell keeps its value |
| RingBuffer.CopyIn | src/xcomm-ringbuffer.c:50-51 | The two memcpys of a write put src element j at `off + j` or `j - l`. Storage outside both pieces is unchanged |
| RingBuffer.CopyOut | src/xcomm-ringbuffer.c:68-69 | The two memcpys of a read fill dst[j] from `off + j` or `j - l`. dst past len is unchanged |
| RingBuffer.Ring.Len | src/xcomm-ringbuffer.c:107-109 | The length is the distance from rpos to wpos: rpos + len == wpos modulo 2^32 |
| RingBuffer.Ring.Avail | src/xcomm-ringbuffer.c:115-117 | len + avail == cap whenever len <= cap; under the invariant, avail is the number of storage slots not holding a queued element |
| RingBuffer.Ring.Full | src/xcomm-ringbuffer.c:99-101 | Under the invariant, full exactly when the capacity is nonzero and every slot holds a queued element, i.e. cap > 0 and avail == 0; a zero-capacity buffer is never full |
| RingBuffer.Ring.Empty | src/xcomm-ringbuffer.c:103-105 | Empty exactly when len is 0; under the invariant, exactly when nothing is queued |
| RingBuffer.Ring.CapIsPow2 | src/xcomm-ringbuffer.c:111-113 | For mask = 2^Log - 1, `mask + 1` is 2^Log when Log < 32 and wraps to 0 exactly when Log = 32 |
| RingBuffer.Ring.MaskOfRounding | src/xcomm-ringbuffer.c:87 | The stored mask `r - 1` is 2^log - 1 for some log <= 32 (all ones for r = 0), and `mask + 1` gives r back |
| RingBuffer.Ring.ScaledFits | src/xcomm-ringbuffer.c:85-87 | Capacity times element width fits in the bufsize bytes allocated |
| RingBuffer.Ring.Init | src/xcomm-ringbuffer.c:83-90 | An empty, valid buffer with both cursors 0. Its capacity is the rounding of bufsize / esize: the largest power of two not above it, or 0 with mask 0xFFFFFFFF when bufsize < esize |
| RingBuffer.Ring.Destroy | src/xcomm-ringbuffer.c:92-97 | Storage that is present is released once and forgotten; a second destroy releases nothing; no other field changes |
| RingBuffer.Ring.InternalWrite | src/xcomm-ringbuffer.c:36-52 | The len elements land in the free slots after the write cursor, in order; the queued elements' slots are untouched |
| RingBuffer.Ring.Write | src/xcomm-ringbuffer.c:119-129 | Writes min(entry_count, avail) elements. They are appended to the contents in order and wpos advances by that count modulo 2^32. rpos and storage configuration are unchanged; the invariant is kept |
| RingBuffer.Ring.InternalRead | src/xcomm-ringbuffer.c:54-70 | dst[j] receives the j-th oldest element for j < len; the rest of dst is unchanged |
| RingBuffer.Ring.ReadPeek | src/xcomm-ringbuffer.c:72-81 | Returns min(len, length) and copies that many oldest elements, in order, to the front of dst without consuming them |
| RingBuffer.Ring.AdvanceRead | src/xcomm-ringbuffer.c:134 | Moving rpos past n <= len elements drops exactly the n oldest from the contents and keeps the invariant |
| RingBuffer.Ring.Read | src/xcomm-ringbuffer.c:131-137 | Reads min(entry_count, len) oldest elements into dst in FIFO order and removes them from the contents. rpos advances by that count; the storage itself is not modified |
| RingBuffer.Ring.WriteThenRead | src/xcomm-ringbuffer.c:119-137 | On an empty buffer, writing then reading count elements returns the same min(count, cap) elements in order and leaves the buffer empty |
| IntrusiveList.LinkedUnique | src/xcomm-stack.h:28-29 | A list head's links determine the sequence of nodes it holds |
| IntrusiveList.Init | src/xcomm-stack.c:25-27 | A head linked to itself holds the empty list |
| IntrusiveList.EmptyIff | src/xcomm-stack.c:33-35 | `head->next == head` exactly when the list holds no node |
| IntrusiveList.InsertTail | src/xcomm-stack.c:29-31 | The node is linked in after the tail; the list becomes s + [node]; only the head, the node and the old tail change |
| IntrusiveList.Remove | src/xcomm-stack.c:41-42 | Unlinking node s[k] leaves the list s without s[k], other nodes in order; only its two neighbours change |
| IntrusiveList.Adopt | src/xcomm-stack.c:46-48 | A head relinked to both ends of a chain holds that chain |
| IntrusiveList.Swap | src/xcomm-stack.c:46-48 | Two disjoint lists exchange heads: each head holds the other's former nodes in the same order, empty lists included |
| Stack.Init | src/xcomm-stack.c:25-27 | A freshly initialised stack is empty |
| Stack.Push | src/xcomm-stack.c:29-31 | The node becomes the top; the nodes below keep their order |
| Stack.Empty | src/xcomm-stack.c:33-35 | True exactly when the stack holds no node |
| Stack.Pop | src/xcomm-stack.c:37-44 | On an empty stack returns null and changes nothing. Otherwise returns the top (last pushed) node, and the stack holds the remaining nodes in order |
| Stack.PushThenPop | src/xcomm-stack.c:29-44 | Push then pop returns the pushed node and restores the stack's former contents |
| Stack.Swap | src/xcomm-stack.c:46-48 | Each stack afterwards holds the other's former nodes, in the same order |
| Stack.SwapTwice | src/xcomm-stack.c:46-48 | Swapping twice gives each stack back its own nodes |

## Left out

- Byte-level scaling: the model counts elements, not bytes, so `off *= esize; size *= esize; len *= esize` is not modelled. Ring.ScaledFits shows capacity times element width fits in the allocation, so these products do not overflow.
- Allocation failure: `malloc` is taken to succeed. The C code does not check it either.
- Freeing: `free` is recorded in the ghost `Released` sequence, and storage is a fresh array of default-initialised elements.
- RingBuffer.Ring.Init: uses the corrected rounding (see Findings). With the rounding as written, bufsize / esize >= 2^31 gives capacity 0; RoundDownPowOfTwoSpec states that behaviour.
- RingBuffer.Ring.Write, RingBuffer.Ring.Read, RingBuffer.Ring.ReadPeek: require the caller's array to be distinct from the ring's storage. Overlapping `memcpy` is undefined in C.
- Concurrency: the structures have no internal locking and the model is single-threaded.
- The `xcomm_stack_data` container-of macro (src/xcomm-stack.h:26): byte-offset pointer arithmetic is not modelled. Nodes are objects in their own right.
- xcomm-list.h is not part of this model. `IntrusiveList.Remove` leaves the removed node's own links stale: whether the original resets them cannot be seen.
- IntrusiveList.Swap and Stack.Swap require two distinct heads with disjoint lists. Swapping a stack with itself is not modelled.
- IntrusiveList.Swap handles empty lists by reinitialising the receiving head. Whether the original's four-pointer relink does the same cannot be seen.
- The C bit operators are defined on unbounded naturals and proved to stay below 2^32. The `Head` ghost field tracks the read cursor's storage index for the proofs only.

## Findings

| source | as written | input that shows it | evidently intended | confidence | as-written member | corrected member |
|---|---|---|---|---|---|---|
| src/xcomm-ringbuffer.c:27-34 | After smearing, `(n + 1) >> 1` wraps `n + 1` to 0 whenever bit 31 of n is set, so the result is 0 | n = 0x8000_0000, e.g. `xcomm_ringbuf_init(ring, 1, 0x80000000)`: the rounding gives 0, the mask becomes 0xFFFFFFFF and the 2 GiB buffer has capacity 0 | 0x8000_0000, the largest power of two not above n | high by the arithmetic, not executed | RingBuffer.RoundDownPowOfTwoSpec | RingBuffer.RoundDownPowOfTwoCorrectedSpec |
