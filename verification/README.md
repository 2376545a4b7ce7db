# Bar coordinator and address-space regions, modelled in Dafny

This project models two pieces of an OS/161 teaching kernel.

The first is the sequential heart of the bar coordinator (`bar.c`). Customer threads submit drink orders into a bounded ring buffer. Bartender threads take the orders, lock the bottles each order needs, mix, and unlock. Deadlock avoidance rests on one discipline:

- the order's bottle ids are bubble-sorted;
- the distinct non-zero ids are locked in strictly ascending order;
- the locks are released in exactly the reverse order.

The model proves that discipline on the request array. It also proves the FIFO behaviour of the ring buffer and the output of the name generator `get_name`.

The second piece is the region arithmetic of the address-space code (`addrspace.c`):

- aligning a region's base down to a page boundary;
- rounding its size up to whole pages;
- the temporary write permission granted by `as_prepare_load` and withdrawn by `as_complete_load`.

## Modelling choices

- **Modules.** `Bottles`, `OrderQueue` and `Names` model `bar.c`. `AddrSpace` models `addrspace.c`. `Bits` defines 32-bit words and bitwise AND/NOT on naturals. `Wrappers` holds `Option` (a pointer that may be `NULL`) and `Result` (an error return). `BarConfig` holds the constants.
- **Constants.** `NBOTTLES` and `NCUSTOMERS` are defined in the bar driver's header, which is not part of this model. `BarConfig` gives them stand-in values. `DRINK_COMPLEXITY` is the length of the request sequence, and every bottle operation works for any length.
- **Arrays as values.** The order's fixed-length arrays become sequences. Each operation returns the new contents instead of mutating in place. A lock handle is the index of the lock in `bottle_lock`, and `NULL` is `None`.
- **Recording the lock calls.** `TakeBottles` returns the sequence of lock indices it acquires. `ReturnBottles` returns the sequence it releases. The lock operations themselves are not modelled.
- **Semaphores.** In the ring buffer, `waiting` is the count of `empty_sem`, and `NCUSTOMERS - waiting` is the count of `full_sem`. Blocking on either semaphore becomes a precondition: `CanSubmit` for `Submit` and `CanTake` for `Take`.
- **`get_name` on bytes.** The name generator works on bytes with C semantics: `/` and `%` on `int` truncate toward zero, and the sum stored into a `char` keeps its low eight bits. The method returns the initialised prefix of the buffer and the size passed to the allocator.
- **32-bit words.** `vaddr_t` and `size_t` are 32-bit words, and additions wrap modulo 2^32 as in C. `PAGE_SIZE` is `2^shift` for any `shift < 32`, and `PAGE_FRAME` is `~(PAGE_SIZE - 1)` computed with the modelled complement.
- **Allocation failure.** The outcome of `kmalloc` is a parameter (`memAvailable`), so the `NULL`/`ENOMEM` paths are modelled.
- **Field names.** The address-space source spells one field two ways (`writable`/`writeable`, `orig_writable`/`orig_writeable`). The model has one field for each: `writeable` and `origWriteable`. Permission flags are C `int`s, so the value `writeable` had is restored exactly, not just its truth.

## Model

| member | source | states |
|---|---|---|
| Bottles.SortRequestedBottles | asst1-src/kern/asst1/bar.c:277-302 | the result is sorted non-decreasing and is a permutation (same multiset) of the request; the loop ends only after a pass with no swap, and terminates because every swap lowers the inversion count |
| Bottles.InversionsSwap | asst1-src/kern/asst1/bar.c:288-299 | swapping an adjacent out-of-order pair removes exactly one inversion, the bubble sort's termination variant |
| Bottles.TakeBottles | asst1-src/kern/asst1/bar.c:305-336 | id 0 is never locked, id `b` becomes lock `b-1 < NBOTTLES`, the locks taken are exactly the distinct non-zero ids, strictly ascending on a sorted request; hold slots `0..j-1` hold them in order and every slot from `j` on is `NULL` |
| Bottles.ReturnBottles | asst1-src/kern/asst1/bar.c:337-349 | exactly the non-`NULL` handles are released, highest slot first: the release sequence is the reverse of the held sequence |
| Bottles.HeldAfterTake | asst1-src/kern/asst1/bar.c:310-334 | after `take_bottles` the non-`NULL` hold slots list exactly the acquired locks in acquisition order, because no acquisition is overwritten by a later clear |
| Bottles.WantedPermutation | asst1-src/kern/asst1/bar.c:143-148 | sorting a request does not change the set of locks it needs |
| Bottles.FillOrder | asst1-src/kern/asst1/bar.c:137-156 | sort, take and return together: locks taken in strictly ascending order, each needed lock once, released in exactly the reverse order; the go-home flag is untouched |
| Bottles.FillExample | asst1-src/kern/asst1/bar.c:305-347 | an order for bottles 3, 1, 3, 2 locks 1, 2, 3 (indices 0, 1, 2) and releases 3, 2, 1 |
| OrderQueue.Open | asst1-src/kern/asst1/bar.c:213-223 | resetting both cursors gives an empty queue with every slot free, whatever the array still holds |
| OrderQueue.Submit | asst1-src/kern/asst1/bar.c:57-79 | with a free slot, storing at `order_hi` and advancing it modulo `NCUSTOMERS` appends the order at the back of the queue and keeps the ring invariant |
| OrderQueue.Take | asst1-src/kern/asst1/bar.c:101-123 | with an order waiting, reading at `order_lo` and advancing it returns the oldest order and leaves the rest in order |
| OrderQueue.FifoOrder | asst1-src/kern/asst1/bar.c:64-114 | orders submitted to a freshly opened queue are taken in submission order |
| OrderQueue.FullBlocksUntilTake | asst1-src/kern/asst1/bar.c:222-223 | with `full_sem` starting at `NCUSTOMERS` and `empty_sem` at 0, `NCUSTOMERS` submits fill the queue, a further submit must wait, and one take frees a slot |
| OrderQueue.SubmitAllContents | asst1-src/kern/asst1/bar.c:64-73 | successive submits append their orders at the back, in order |
| OrderQueue.DrainContents | asst1-src/kern/asst1/bar.c:113-114 | successive takes return the queued orders oldest first |
| Names.DigitsRoundTrip | asst1-src/kern/asst1/bar.c:365-366 | for a counter in 0..99, `'0' + count / 10` and `'0' + count % 10` are decimal digits that read back as the counter |
| Names.GetName | asst1-src/kern/asst1/bar.c:352-369 | the result is the base name up to its NUL, two digits and a NUL; for a counter in 0..99 the digits read back as the counter; the `4*len+12` allocation covers the `len+3` bytes written |
| AddrSpace.Create | asst3-src/kern/vm/addrspace.c:51-67 | a new address space has an empty region list; allocation failure yields `NULL` |
| AddrSpace.OffsetMask | asst3-src/kern/vm/addrspace.c:243 | `vaddr & ~PAGE_FRAME` is the offset of `vaddr` within its page |
| AddrSpace.FrameMask | asst3-src/kern/vm/addrspace.c:244 | `x & PAGE_FRAME` rounds `x` down to a multiple of `PAGE_SIZE` |
| AddrSpace.PageExtent | asst3-src/kern/vm/addrspace.c:239-250 | the base is page-aligned, at most `vaddr`, and within one page of it; the size is a multiple of `PAGE_SIZE` and `npages * PAGE_SIZE` equals it |
| AddrSpace.ExtentCovers | asst3-src/kern/vm/addrspace.c:243-247 | when the 32-bit sums do not wrap, `[vbase, vbase+size)` covers `[vaddr, vaddr+memsize)` and the size is the smallest page multiple that does |
| AddrSpace.ExtentWrapsToZero | asst3-src/kern/vm/addrspace.c:243-247 | with 4 KiB pages, `memsize = 2^32 - 1` at address 0 wraps to size 0, which is the case the no-wrap hypothesis excludes |
| AddrSpace.NewRegion | asst3-src/kern/vm/addrspace.c:239-266 | the new region is aligned, records the given flags, and saves `origWriteable = writeable` |
| AddrSpace.DefineRegion | asst3-src/kern/vm/addrspace.c:252-271 | allocation failure gives `ENOMEM`; into an empty list the new region becomes the single head; every region it yields has its write flag equal to the recorded original |
| AddrSpace.PrepareRegions | asst3-src/kern/vm/addrspace.c:297-302 | every region becomes writable and all other fields and the list order are unchanged |
| AddrSpace.PrepareLoad | asst3-src/kern/vm/addrspace.c:291-305 | the same property for a whole address space |
| AddrSpace.CompleteRegions | asst3-src/kern/vm/addrspace.c:316-320 | every region's write flag equals its recorded original and nothing else changes |
| AddrSpace.CompleteLoad | asst3-src/kern/vm/addrspace.c:309-329 | the same property for a whole address space |
| AddrSpace.CompleteAfterPrepare | asst3-src/kern/vm/addrspace.c:297-320 | completing a load ignores whatever prepare did: `complete(prepare(a)) == complete(a)` |
| AddrSpace.LoadRoundTrip | asst3-src/kern/vm/addrspace.c:289-320 | for regions whose write flag equals its original, prepare then complete gives back the address space unchanged |
| AddrSpace.DefineThenLoad | asst3-src/kern/vm/addrspace.c:258-320 | a freshly defined region is writable during the load and regains exactly its defined write flag afterwards |
| Bits.AndNotOnes | asst3-src/kern/vm/addrspace.c:244-247 | on 32-bit words, AND with the complement of the low `k` bits is rounding down to a multiple of `2^k` |
| Bits.BitAndOnes | asst3-src/kern/vm/addrspace.c:243 | AND with the low `k` bits is the remainder modulo `2^k` |

## Left out

- Semaphores, locks, thread blocking and wake-up are not modelled. Mutual exclusion and deadlock freedom as concurrent properties are not modelled either. Only their sequential precondition is proved: the strictly ascending acquisition order and the reverse release.
- The per-order completion semaphores are left out. This covers `drink_sem`, the `drink_lo`/`drink_hi` cursors in `order_drink` and `serve_order`, and the customer's final wait. The two cursors index one array independently, and the source gives no evident guarantee that a slot is never handed to two outstanding orders, so no property is claimed for them.
- `mix()` is left out because it is an opaque collaborator. `fill_order` is modelled as sort, take and return.
- `bar_open`'s creation loops and `bar_close` are left out, apart from the cursor and semaphore resets. They only create and destroy synchronisation primitives.
- `get_name` does not model failure of `kmalloc`. The source writes into the buffer without checking for `NULL`.
- The go-home flag is carried in `BarOrder` but not interpreted. The bartender loop that reads it is in the driver, which is not part of this model.
- `as_copy`, `as_destroy`, `as_activate` and `as_deactivate` are left out. They depend on the hashed page table, the frame allocator and the TLB.
- The TLB flush in `as_complete_load` is left out for the same reason.
- `as_define_stack` is left out. It tests an undeclared variable `result` and does not compile as written.
- AddrSpace.DefineRegion: on a non-empty region list it returns `InsertionNotModelled`. That branch of the source (lines 273-284) refers to undeclared `cur` and `prev` and does not compile, so the sorted insertion it intends is not modelled.
- AddrSpace.ExtentCovers: the covering and minimality properties are stated only for requests where the offset, the size and the page slack together stay below 2^32. The model computes the wrapped value C computes, and `ExtentWrapsToZero` shows what happens otherwise.
- Names.GetName: for a counter outside 0..99 the contract states the base name and terminator but not the two bytes, which are then not decimal digits.
- `file.h` and the bar header are left out. They hold only declarations.
- Bottle ids above `NBOTTLES` are excluded by the precondition of `TakeBottles` and `FillOrder`: the source would index `bottle_lock` out of bounds for them (`bar.c` line 326), so its behaviour there is undefined.
