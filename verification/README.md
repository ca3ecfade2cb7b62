# Buddy allocator, modelled in Dafny

This project models the binary buddy allocator in `buddy.c` and proves
properties of the model.

The allocator manages one region of 2^MAX_ORDER = 1 MiB. It hands the region out in
blocks of 2^k bytes, for MIN_ORDER = 12 <= k <= MAX_ORDER = 20. Its state has two parts:

- one free list per order;
- one page descriptor per 4 KiB page, recording the order of the block that page heads.

The operations are these:

- `buddy_init` makes the whole region one free block.
- `buddy_alloc` takes the head of the lowest non-empty free list at or above
  the requested order. It then splits that block down, pushing each upper
  half onto the list one order below.
- `buddy_free` merges the freed block with its buddy, for as long as the buddy
  is on the free list of the current order. It then pushes the result.
- `buddy_dump` reports the length of every list.

The model is functional. The allocator state is an immutable value
`Allocator(freeArea, pageOrder)`:

- `freeArea[o]` is the free list of order `o`, a sequence of head page indices.
  `list_add` is a prepend, `free_area[o].next` is element 0 and `list_del` is removal by value.
- `pageOrder[p]` is `g_pages[p].blockOrder`.

Addresses are byte offsets from the start of the region. `BUDDY_ADDR`'s XOR
with `1 << o` is `FlipBit`, a bit-by-bit definition of flipping one bit. It is
proved equal to adding or subtracting 2^o.

Modules, in dependency order:

- `PowerOfTwo` (pow2.dfy): powers of two, bits, alignment and ceil(log2).
- `Region` (region.dfy): the constants, `PAGE_TO_ADDR`, `ADDR_TO_PAGE` and `BUDDY_ADDR`.
- `Blocks` (blocks.dfy): blocks and tilings of the region, and splitting and merging on sets of blocks.
- `Options` (option.dfy): an optional value.
- `FreeList` (freelist.dfy): the list operations.
- `RequestOrder` (order.dfy): the order a request is served at.
- `BuddyAllocator` (allocator.dfy): the state and the four operations.
- `AllocShape` (properties.dfy): the exact effect of one `buddy_alloc`.
- `BuddyInvariant` (invariant.dfy): the tiling invariant and its preservation.
- `Coalescing` (coalesce.dfy): no free block has its buddy free. With the tiling invariant, this gives back the free lists of buddy_init once nothing is allocated.
- `FreeShape` (freeshape.dfy): the two ways one `buddy_free` can go.
- `Scenarios` (scenarios.dfy): runs of calls from `buddy_init`, general and concrete.

The invariant `Valid(s, live)` takes `live`, the set of head pages handed out
and not yet freed. The C code does not store that set; it is the caller's
knowledge. `Valid` says four things:

- the free blocks and the live blocks together tile the region;
- every block is aligned to its own size;
- no list holds a page twice;
- no live head is on a free list.

## Model

| member | source | states |
|---|---|---|
| PowerOfTwo.FlipBitValue | buddy.c:37 | XOR with `1 << k` subtracts 2^k when bit k is set and adds 2^k when it is clear |
| PowerOfTwo.FlipBitInvolution | buddy.c:37 | XOR with `1 << k` twice gives back the value |
| PowerOfTwo.CeilLog2 | buddy.c:122 | for a size n >= 1, n fits in 2^r and, for r > 0, not in 2^(r-1): r is ceil(log2(n)) computed exactly |
| Region.ConfigurationConsistent | buddy.c:26-29 | PAGE_SIZE is 2^MIN_ORDER; there are 2^(MAX_ORDER-MIN_ORDER) pages; the pages fill 2^MAX_ORDER bytes |
| Region.PageToAddr | buddy.c:30-31 | PAGE_TO_ADDR as a byte offset, page * PAGE_SIZE; it has no contract of its own, and PageAddrRoundTrip states what it promises |
| Region.AddrToPage | buddy.c:33-34 | ADDR_TO_PAGE as a byte offset divided by PAGE_SIZE; it has no contract of its own, and PageAddrRoundTrip states what it promises |
| Region.PageAddrRoundTrip | buddy.c:30-34 | ADDR_TO_PAGE undoes PAGE_TO_ADDR, and PAGE_TO_ADDR undoes ADDR_TO_PAGE on page-aligned offsets |
| Region.BuddyAddr | buddy.c:36-38 | BUDDY_ADDR on byte offsets, bit o flipped; it has no contract of its own, and FlipBitValue, BuddyAddrInvolution and BuddyAddrInRegion state what it promises |
| Region.BuddyPage | buddy.c:141 | the page descriptor alloc and free reach through ADDR_TO_PAGE(BUDDY_ADDR(...)); it has no contract of its own, and BuddyPageFlips states what it promises |
| Region.BuddyAddrInvolution | buddy.c:36-38 | the buddy of the buddy is the original offset |
| Region.BuddyAddrInRegion | buddy.c:36-38 | for a 2^o-aligned offset in the region with o < MAX_ORDER, the buddy is 2^o-aligned, exactly 2^o away, its block ends inside the region, and it is on another page |
| Region.BuddyPageFlips | buddy.c:36-38 | on page offsets, BUDDY_ADDR at order o flips bit o - MIN_ORDER of the page index |
| Region.FirstPageBuddy | buddy.c:36-38 | the buddy of offset 0 at MIN_ORDER is offset PAGE_SIZE |
| RequestOrder.SourceOrder | buddy.c:122 | the order buddy_alloc computes is the least r with size <= 2^r, with no lower bound |
| RequestOrder.SourceOrderBelowMin | buddy.c:122-133 | that order is below MIN_ORDER, an index of a list buddy_init never set up, exactly when size <= 2^(MIN_ORDER-1) |
| RequestOrder.SmallRequestOrder | buddy.c:122 | a 100-byte request gets order 7 |
| RequestOrder.BlockOrder | buddy.c:119-125 | the order used here is at least MIN_ORDER, holds size bytes, and is minimal |
| RequestOrder.BlockOrderMatchesSource | buddy.c:122 | for every size above half a page, BlockOrder equals the order buddy_alloc computes |
| RequestOrder.BlockOrderLeast | buddy.c:119-122 | no order from MIN_ORDER up to but not including BlockOrder holds size bytes |
| BuddyAllocator.Init | buddy.c:84-100 | after buddy_init the MAX_ORDER list is exactly [page 0], every other list is empty, and every recorded order is -1 |
| BuddyAllocator.FirstNonEmpty | buddy.c:128-133 | the scan finds the lowest non-empty list at or above the start order; when it finds none, every list from there up to MAX_ORDER is empty |
| BuddyAllocator.TakeHead | buddy.c:133-136 | the head of a non-empty list is placed at that order; the list loses its first element and the head records the requested order; nothing else changes |
| BuddyAllocator.Split | buddy.c:140-144 | keeps the array sizes; its effect on the lists and recorded orders is stated by SplitLists and SplitOrders |
| BuddyAllocator.SplitLists | buddy.c:140-144 | the split pushes exactly the upper half at left + Pages(o) onto each list o in [r, i) and leaves every other list unchanged |
| BuddyAllocator.SplitOrders | buddy.c:140-144 | the split records order o for the upper half split off at o, and no other page's order changes |
| BuddyAllocator.UpperHalfIsBuddy | buddy.c:141 | the descriptor the split finds through BUDDY_ADDR at order j-1 is the upper half of the order-j block, and both halves are placed |
| BuddyAllocator.Alloc | buddy.c:116-151 | fails with TooLarge exactly when the order exceeds MAX_ORDER, and with Exhausted exactly when every list from the order up is empty; a failure leaves the state unchanged; a success returns a page offset that is 2^r-aligned, whose block lies in the region, and whose page records r |
| BuddyAllocator.AllocReturnsAligned | buddy.c:145 | the returned address of a placed head is 2^r-aligned, its block fits in the region, and it maps back to the same page |
| BuddyAllocator.MergedHeadPlaced | buddy.c:173-184 | a placed block's buddy is placed and adjacent, and the lower of the two heads an aligned block of the next order that contains both |
| BuddyAllocator.Unlink | buddy.c:181 | `list_del` of the buddy: list o becomes the list without the buddy, and nothing else changes |
| BuddyAllocator.MergedHead | buddy.c:182-184 | the merged block is headed by the page or its buddy, whichever is lower |
| BuddyAllocator.Push | buddy.c:188-189 | after the push the page is on list o and records o; the state stays well formed |
| BuddyAllocator.ChainHead | buddy.c:180-184 | after merging from order i up to order j, the block the loop holds is a placed order-j block that contains the freed block |
| BuddyAllocator.Merge | buddy.c:169-189 | the loop ends with the freed block inside a listed block of order at least its own, whose head records that order; lists below the start order are unchanged |
| BuddyAllocator.Free | buddy.c:162-190 | after buddy_free the freed bytes lie inside a listed free block of order at least the recorded one, whose head records its order |
| BuddyAllocator.Dump | buddy.c:197-209 | one line per order from MIN_ORDER to MAX_ORDER, giving the length of that order's list and the block size in KiB |
| AllocShape.AllocSplits | buddy.c:128-145 | a successful alloc returns the head p of the lowest non-empty list i; list i loses p; each list in [r, i) holds just p + Pages(o), recorded with o; p records r; no other list or recorded order changes |
| BuddyInvariant.ListsDisjoint | buddy.c:65 | in a valid state no page is on two free lists |
| BuddyInvariant.InitValid | buddy.c:84-100 | the state after buddy_init, with nothing allocated, is valid, and its only free block is the whole region |
| BuddyInvariant.AllocPreservesValid | buddy.c:116-151 | alloc keeps the state valid; a returned block was not live before and is live after |
| BuddyInvariant.MergeValid | buddy.c:169-189 | the coalescing loop turns a state where the freed block is pending and unlisted into a valid state |
| BuddyInvariant.FreePreservesValid | buddy.c:162-190 | freeing the address of a live block keeps the state valid, with that block no longer live |
| Coalescing.AllocKeepsCoalesced | buddy.c:140-144 | after alloc, no free block has its buddy on the same list |
| Coalescing.MergeKeepsCoalesced | buddy.c:171-189 | the coalescing loop keeps that property |
| Coalescing.FreeKeepsCoalesced | buddy.c:162-190 | free keeps that property |
| Coalescing.NothingAllocatedIsInit | buddy.c:94-99 | in a valid, coalesced state with nothing allocated, every free list equals the one buddy_init builds; recorded orders are not compared |
| FreeShape.FreeWithoutBuddy | buddy.c:171-189 | when the freed block is of order MAX_ORDER or its buddy is not on its list, only that block is pushed at its own order and no recorded order changes |
| FreeShape.FreeMergesWithBuddy | buddy.c:171-189 | when the buddy is on its list, it is unlinked from it; the freed block and its buddy end up in one listed block of a higher order o; the head of that block is the new first element of list o and the only page whose recorded order changes; each list between the freed block's order and o loses only the buddy met there; lower and higher lists are unchanged |
| FreeShape.MergeFrame | buddy.c:169-189 | the loop merges exactly up to the first order o that is MAX_ORDER or whose buddy is not on its list; each list in [i, o) loses just the buddy met at that order, list o gains just the head of the order-o block containing the freed one, that head records o, and no other list or recorded order changes |
| Scenarios.LiveBlockFreeable | buddy.c:162-169 | in a valid state, the address of every live block meets everything buddy_free relies on |
| Scenarios.RunKeepsInvariant | buddy.c:116-190 | every sequence of allocs and frees of live blocks keeps the state valid and coalesced |
| Scenarios.DrainedRunIsInit | buddy.c:84-100 | after any run from buddy_init that frees everything it allocated, the lists are those of buddy_init |
| Scenarios.FirstPageAlloc | buddy.c:128-145 | alloc(PAGE_SIZE) after init returns offset 0 and leaves one free block at every order below MAX_ORDER and none at MAX_ORDER |
| Scenarios.SecondPageAllocIsBuddy | buddy.c:128-145 | a second alloc(PAGE_SIZE) returns offset PAGE_SIZE, the buddy of the first, and both pages record MIN_ORDER |
| Scenarios.FirstSiblingFreeIsListed | buddy.c:171-189 | freeing either of the two pages first only lists that page at MIN_ORDER |
| Scenarios.SiblingsMergeEitherOrder | buddy.c:171-189 | freeing the two pages in either order merges them all the way back to the lists of buddy_init |
| Scenarios.PageRoundTrip | buddy.c:200-207 | read through the dump counts: after init and alloc(PAGE_SIZE) each order below MAX_ORDER holds one block and MAX_ORDER none; freeing that page restores the lists of buddy_init |
| Blocks.SplitDown | buddy.c:140-144 | splitting one tile from order top down to bottom, keeping the lowest block and every upper half, still tiles the region |
| Blocks.MergeStep | buddy.c:180-185 | replacing a tile and its buddy with the merged block still tiles the region, and the merged block contains the tile |
| Blocks.BuddyCoverIsBuddy | buddy.c:173-176 | in a tiling, a tile of order at least b's that covers the first page of b's buddy is that buddy itself |

## Left out

- Output of `buddy_dump` (buddy.c:206-208): `printf` formatting is I/O. `Dump` returns the count and the size in KiB for each order.
- The `PDEBUG`/`IFDEBUG` macros (buddy.c:40-48): debug output only.
- `list.h`: the intrusive doubly-linked list is not part of this model. Each list is a sequence of page indices, and the membership scan of buddy.c:175-179 is `in`.
- The floating-point `ceil(log2(size))` (buddy.c:122) is the exact integer `CeilLog2`. Rounding of `double` for sizes near a power of two is not modelled.
- The bytes of `g_memory` and the `blockAddress` pointers (buddy.c:31, 68, 89): addresses are byte offsets from the start of the region.
- Comparing descriptor addresses, `freePage > buddy` (buddy.c:182), becomes comparing page indices, which orders the descriptors the same way.
- Alloc: requires size >= 1. For size <= 0 the C code converts `ceil(log2(size))`, minus infinity or NaN, to `int`, which is undefined behaviour.
- Free: requires the address to head a block whose page records a valid order. Freeing an address alloc did not return, freeing twice, or freeing from the middle of a block has no defined behaviour in the C code. `Scenarios.Run` answers None for these calls instead of modelling them.
- Global state and concurrency: the state is an explicit value passed in and returned. The C code is single-threaded.
- Alloc: distinguishes the two failures, TooLarge and Exhausted. The C code returns NULL for both.
- Lists below MIN_ORDER: `freeArea` has MAX_ORDER + 1 slots so that orders index it directly. Slots below MIN_ORDER are never used, because BlockOrder clamps the order (see Findings).
- Recorded orders after a drained run: NothingAllocatedIsInit and DrainedRunIsInit state that the free lists equal those of buddy_init, not the whole state. Pages that headed blocks keep the orders they last recorded, where buddy_init records -1. The C code likewise never resets `blockOrder`. This is harmless: buddy_alloc overwrites the order of the head it takes (buddy.c:135), and buddy_free reads only the order of the page it frees (buddy.c:169).
- Scenarios.Run: its own contract states only that the state stays well formed. The invariant along a run is stated in RunKeepsInvariant.

## Findings

The model departs from `buddy.c` here. The C code computes the order of a
request as `ceil(log2(size))` with no lower bound (buddy.c:119-122). A request
of at most 2048 bytes therefore gets an order below MIN_ORDER. The scan at
buddy.c:128-133 then reads `free_area` lists that `buddy_init` never set up,
because it initialises only orders MIN_ORDER to MAX_ORDER (buddy.c:94-95). The
order as written is `SourceOrder`. The model serves every request of at most
2048 bytes with one page, at order MIN_ORDER: `Alloc` uses the clamped order
`BlockOrder`, and so does the rest of the model.

| source | as written | input that shows it | evidently intended | confidence | as-written member | corrected member |
|---|---|---|---|---|---|---|
| buddy.c:122 | `block_order = ceil(log2(size))` with no lower clamp, so a request of at most 2048 bytes gets an order below MIN_ORDER; the scan then reads `free_area` slots that buddy_init never initialised (buddy.c:94-95, 128-133) | size 100 gives order 7 (`SmallRequestOrder`) | `max(MIN_ORDER, ceil(log2(size)))`: a sub-page request is served by one page | not executed | RequestOrder.SourceOrder | RequestOrder.BlockOrder |
