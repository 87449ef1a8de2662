# Kernel heap allocator, modelled and verified in Dafny

The kernel's heap runs a two-tier allocator.

- **Linked-list allocator** (`src/allocator/linked_list.rs`). Free memory is kept as a singly linked list of regions. Each node is written at the start of the region it describes and records that region's size. `alloc` adjusts the layout so that every block can later hold a node (`size_align`). It then unlinks the first region that can hold the block at an aligned address without leaving a sliver too small for a node (`take_free_region`, `is_usable_free_region`), and links the bytes behind the block back in. `dealloc` pushes the freed block in front of the list. There is no search on free and no coalescing.
- **Fixed-size-block allocator** (`src/allocator/fixed_size_block.rs`). There are nine size classes, from 8 to 2048 bytes. Each class has a LIFO stack of free blocks. A request goes to the smallest class that covers both its size and its alignment (`get_list_index`). `alloc` pops that class's stack, or, when the stack is empty, asks the fallback linked-list allocator for a block of the class's size and alignment. `dealloc` pushes the block on its class's stack and never gives it back to the fallback. Requests larger than 2048 bytes go to the fallback directly.

The project has these modules:

- `Layouts` (`layouts.dfy`): the 64-bit address space, powers of two, `align_up`, Rust's `Layout`, and the outcomes of the entry points. A panic is an outcome (`Panicked`, `Failed`) carrying its message, not a precondition.
- `FreeList` (`free_list.dfy`): the linked-list allocator as pure functions of its free list. The list is a sequence of `Region(start, size)` in list order. The module has `SizeAlign`, `IsUsableFreeRegion`, `FirstFit` (where `take_free_region` stops), and `ReturnStep`, `AllocStep` and `DeallocStep`. Lemmas state what each operation does, case by case, and what it preserves.
- `LinkedList` (`linked_list.dfy`): `class LinkedListAllocator`, whose field `regions` the methods update in place. `TakeFreeRegion` walks the list with a cursor loop. Every method is proved to produce exactly the result and the list that the `FreeList` function computes from the old list.
- `SizeClasses` (`size_classes.dfy`): `BLOCK_SIZES`, `GetListIndex`, and the fixed-size-block allocator as functions of its state (`FixedState`: nine stacks plus the fallback's list). Lemmas cover the classes, the LIFO stacks and the delegation to the fallback.
- `FixedSizeBlock` (`fixed_size_block.dfy`): `class FixedSizeBlockAllocator`. It holds an `array` of nine stacks and a `LinkedListAllocator` object as its fallback. Every method is proved against the `SizeClasses` function.
- `HeapSafety` (`heap_safety.dfy`): the heap-safety theorem for both tiers together.
  - The allocator accounts for memory as fallback nodes, free blocks on the class stacks, and blocks handed out and not yet freed. The accounting is a multiset of regions.
  - The regions are pairwise disjoint and lie in the address space, so no byte is accounted for twice.
  - The invariant does not say that every byte is accounted for. Two kinds of bytes leave the accounting for good: the alignment gap in front of a block the fallback carves, and the upper 8 of the 16 bytes the fallback reserves for an 8-byte-class block.
  - `init` establishes this invariant, and `alloc` and `dealloc` keep it. So a block `alloc` returns is aligned as asked, is at least as large as asked, and overlaps no other outstanding block and no free memory.
- `Scenario` (`scenario.dfy`): a run on a 4 KiB heap.
  - A 24-byte request lands in the 32-byte class.
  - A 5000-byte request returns null.
  - Freeing the first block and asking again returns the same address.

### Where the model follows the code rather than the usual description

- A block of a class is usually described as exactly the class's size. For the 8-byte class the code asks the fallback for `Layout(8, 8)`, and `size_align` raises that to one 16-byte list node. So an 8-byte-class block takes 16 bytes of the heap (`SizeClasses.BlockLayoutAdjusted`). `HeapSafety` accounts for a class block by its class size, which lies inside what the fallback reserved.
- The alignment gap in front of a block that `alloc` carves out of a region is not returned to the free list. Those bytes are neither free nor handed out. `FreeList.AllocPreservesList` states this exactly: the free bytes shrink by the block plus the gap.

## Model

| member | source | states |
|---|---|---|
| FreeList.Region.End | src/allocator/linked_list.rs:23-25 | `end_addr`: one past the region's last byte, its start plus its size. |
| FreeList.WellFormed | src/allocator/linked_list.rs:66-69 | The two assertions `return_free_region` makes of every node it links: the start is node-aligned and the size holds a node. It also requires that `end_addr` does not pass `usize::MAX`. |
| FreeList.ReturnStep | src/allocator/linked_list.rs:64-84 | `return_free_region` on the old list. A start that is not node-aligned fails the first assertion, and a size below a node fails the second; either leaves the list as it was. Otherwise the new node is linked in front of the old list. Its properties are `ReturnStepSpec`. |
| FreeList.AllocStep | src/allocator/linked_list.rs:145-169 | `alloc` on the old list. A failed `size_align` is the panic "Adjusting alignment failed."; otherwise the list is searched and split with the adjusted size and alignment (`AllocAdjusted`). Its properties are `AllocStepSpec`, `AllocPreservesList` and the lemmas beside them. |
| FreeList.AllocAdjusted | src/allocator/linked_list.rs:152-168 | The part of `alloc` after `size_align`. With no usable region it gives null and the unchanged list. Otherwise it unlinks the first usable region (`take_free_region`) and checks `alloc_start + size` for overflow (`expect("Overflow")`). It links the excess behind the block back in with `return_free_region` when the excess is positive, and returns the aligned start. Its properties are `AllocAdjustedFound`. |
| FreeList.DeallocStep | src/allocator/linked_list.rs:171-177 | `dealloc` on the old list: recompute `size_align`, whose failure is the same panic as in `alloc`, and `return_free_region(ptr, size)`. Its properties are `DeallocStepSpec` and `DeallocPreservesList`. |
| FreeList.SizeAlign | src/allocator/linked_list.rs:43-62 | `size_align` raises the alignment to at least a node's (8) and pads the size to a multiple of it, with a minimum of one node (16). It panics exactly when the raised layout exceeds `isize::MAX`. The result is at least the requested size, node-aligned, a multiple of the alignment when the size is non-zero, and less than one alignment step over the request unless it is the minimum. A zero-size request gets exactly the minimum. |
| FreeList.PaddedSize | src/allocator/linked_list.rs:53-59 | The padded, node-minimum size is at least the request, is node-aligned, is a multiple of the alignment for non-empty requests, and is either one node or less than the size plus the alignment. |
| FreeList.IsUsableFreeRegion | src/allocator/linked_list.rs:115-141 | An accepted start is the region's first `align`-aligned address, lies within `align` bytes of the region's start, and the block placed there ends inside the region. |
| FreeList.UsableExactly | src/allocator/linked_list.rs:115-141 | A region is accepted exactly when the block at its first aligned address neither overflows `usize` nor passes the region's end, and it ends either at the region's end or at least one node before it. This is both directions of the test. |
| FreeList.FirstFit | src/allocator/linked_list.rs:86-113 | The search stops at a usable region, and every region before it is unusable. It finds nothing exactly when no region of the list is usable. |
| FreeList.Unlink | src/allocator/linked_list.rs:100-104 | Unlinking node k keeps every other node, in the old order. |
| FreeList.Leftover | src/allocator/linked_list.rs:154-161 | The tail linked back after a split is at most one region. It is empty exactly when the block ends at the region's end. |
| FreeList.ReturnStepSpec | src/allocator/linked_list.rs:64-84 | `return_free_region` succeeds exactly when the address is node-aligned and the size holds a node. Then the new region becomes the list's head, in front of the old list. Otherwise it panics and leaves the list unchanged. |
| FreeList.FoundBlock | src/allocator/linked_list.rs:115-141 | The block placed in the first usable region is aligned as asked and node-aligned, lies inside the region, ends node-aligned inside the address space, and leaves either nothing or at least a node behind it. |
| FreeList.AllocAdjustedFound | src/allocator/linked_list.rs:152-164 | When region i is the first usable one, `alloc` returns its first aligned address. The new list is the tail behind the block followed by the other nodes in order. The `expect("Overflow")` and the assertions of `return_free_region` never fire on this path. |
| FreeList.AllocStepFound | src/allocator/linked_list.rs:145-164 | The same, for `alloc` as a whole, once `size_align` has succeeded. |
| FreeList.AllocStepNothingFits | src/allocator/linked_list.rs:165-168 | When no region is usable, `alloc` returns null and leaves the list as it was. |
| FreeList.AllocStepCases | src/allocator/linked_list.rs:145-169 | `alloc`'s outcome and new list in each of its three cases: the adjustment panics, nothing fits, or region i is split. |
| FreeList.AllocBlock | src/allocator/linked_list.rs:145-169 | The address `alloc` returns is aligned to the caller's alignment and to a node's. The adjusted block lies inside the region it is carved from and inside the address space. It leaves no sliver behind it. |
| FreeList.AllocStepSpec | src/allocator/linked_list.rs:145-169 | `AllocStepCases` and `AllocBlock` together: the full case-by-case account of `alloc`. |
| FreeList.AllocPanicsOnlyOnAdjust | src/allocator/linked_list.rs:145-169 | `alloc` panics if and only if `size_align` fails. |
| FreeList.AllocNullIffNothingFits | src/allocator/linked_list.rs:145-169 | `alloc` returns null if and only if the layout adjusts and no region is usable. Null leaves the list unchanged. |
| FreeList.UnlinkDisjoint | src/allocator/linked_list.rs:100-104 | Unlinking a node keeps the rest pairwise disjoint, and the unlinked region overlaps none of them. |
| FreeList.UnlinkFreeBytes | src/allocator/linked_list.rs:100-104 | Unlinking a node removes exactly its bytes from the list's total. |
| FreeList.SplitFreeBytes | src/allocator/linked_list.rs:152-161 | Splitting a region around a block removes from the free total exactly the block and the gap in front of it. |
| FreeList.SplitPreserves | src/allocator/linked_list.rs:152-161 | Splitting a region around a node-aligned block that leaves no sliver keeps every node well formed and the nodes pairwise disjoint. The block overlaps no node, and memory that was not free does not become free. |
| FreeList.SplitElements | src/allocator/linked_list.rs:152-161 | Each node of the split list on its own: it is well formed, disjoint from the block, and disjoint from any region the old list was disjoint from. |
| FreeList.SplitPairs | src/allocator/linked_list.rs:152-161 | The nodes of the split list are pairwise disjoint. |
| FreeList.TakeBlock | src/allocator/linked_list.rs:152-161 | `SplitPreserves` and `SplitFreeBytes` for a given block and resulting list. |
| FreeList.AllocStepOutcome | src/allocator/linked_list.rs:145-169 | `alloc`'s result satisfies the search-and-split relation `SearchOutcome` whenever the layout adjusts. |
| FreeList.OutcomePreserves | src/allocator/linked_list.rs:152-168 | Any outcome in the search-and-split relation keeps the list well formed and disjoint, overlaps no node, and accounts for the free bytes. |
| FreeList.AllocPreservesList | src/allocator/linked_list.rs:145-169 | `alloc` keeps every node well formed and the nodes pairwise disjoint. The block it returns overlaps no node of the new list. Memory that was not free does not become free. The free bytes shrink by exactly the block and the alignment gap in front of it. |
| FreeList.DeallocStepSpec | src/allocator/linked_list.rs:171-177 | `dealloc` succeeds if and only if the layout adjusts and the pointer is node-aligned. Then it links `[ptr, ptr + adjusted size)` in front of the list, with no search and no coalescing. Otherwise the list is unchanged. |
| FreeList.DeallocPreservesList | src/allocator/linked_list.rs:171-177 | Freeing a block in the address space keeps every node well formed. Freeing one that overlaps no free region keeps the nodes pairwise disjoint. |
| FreeList.DeallocThenAlloc | src/allocator/linked_list.rs:145-177 | Freeing an aligned block and then allocating with the same layout returns that block and restores the old list. |
| LinkedList.LinkedListAllocator.constructor | src/allocator/linked_list.rs:33-37 | `new` starts with an empty list. |
| LinkedList.LinkedListAllocator.Init | src/allocator/linked_list.rs:39-41 | `init` is `return_free_region` on the heap range. |
| LinkedList.LinkedListAllocator.ReturnFreeRegion | src/allocator/linked_list.rs:64-84 | The new list and status are exactly `ReturnStep` of the old list, and the list stays well formed. |
| LinkedList.LinkedListAllocator.TakeFreeRegion | src/allocator/linked_list.rs:86-113 | The cursor walk returns the region at `FirstFit`, with its aligned start, and unlinks it. With nothing usable it returns none and leaves the list unchanged. |
| LinkedList.LinkedListAllocator.Alloc | src/allocator/linked_list.rs:145-169 | The result and new list are exactly `AllocStep` of the old list, and the list stays well formed. |
| LinkedList.LinkedListAllocator.Carve | src/allocator/linked_list.rs:152-168 | The part of `alloc` after `size_align`: exactly `AllocAdjusted` of the old list. |
| LinkedList.LinkedListAllocator.Dealloc | src/allocator/linked_list.rs:171-177 | The status and new list are exactly `DeallocStep` of the old list, and the list stays well formed. |
| SizeClasses.BlockSizesShape | src/allocator/fixed_size_block.rs:17 | There are nine classes, from 8 to 2048. Each is a power of two, each is twice the one before, and they strictly increase. |
| SizeClasses.Position | src/allocator/fixed_size_block.rs:50-52 | `position` finds the first block size that is at least the requirement, and every earlier one is smaller. It finds none exactly when every size is smaller. |
| SizeClasses.RequiredBlockSize | src/allocator/fixed_size_block.rs:47 | The required block size covers both the size and the alignment. |
| SizeClasses.GetListIndex | src/allocator/fixed_size_block.rs:45-53 | The chosen class is the smallest whose block size covers both the size and the alignment. There is no class exactly when the requirement exceeds 2048. |
| SizeClasses.ClassServesLayout | src/allocator/fixed_size_block.rs:45-53 | A block of the chosen class is large enough, and an address aligned to the block size is aligned as the layout asks. The block size is less than twice the requirement, except for the 8-byte class. |
| SizeClasses.InitStep | src/allocator/fixed_size_block.rs:35-39 | `init` on the old state: the stacks stay as they are, and the fallback's list becomes what the fallback's `init` (`return_free_region` of the heap) makes of it. Its properties are `InitSpec` and `HeapSafety.InitSafe`. |
| SizeClasses.FallbackAlloc | src/allocator/fixed_size_block.rs:41-43 | `fallback_alloc` on the old state: the fallback's `alloc` on its list with the given layout, the stacks unchanged. |
| SizeClasses.AllocStep | src/allocator/fixed_size_block.rs:57-87 | `alloc` on the old state. For a class with a non-empty stack it returns the head and pops it. For an empty stack it builds `Layout::from_size_align(bs, bs)`, whose failure is the `unwrap` panic, and calls `fallback_alloc`. With no class it calls `fallback_alloc` with the caller's layout. Its properties are `AllocFromStack`, `AllocFromFallback`, `OversizedDelegated` and `HeapSafety.AllocSafe`. |
| SizeClasses.DeallocStep | src/allocator/fixed_size_block.rs:89-118 | `dealloc` on the old state. For a class it takes the stack. It fails one of the two assertions when a block cannot hold a node, leaving the stack taken. Otherwise it pushes `ptr` in front of the taken stack. With no class it calls the fallback's `dealloc`. Its properties are `DeallocToStack`, `OversizedDelegated` and `HeapSafety.DeallocSafe`. |
| SizeClasses.Empty | src/allocator/fixed_size_block.rs:26-33 | `new` starts with every stack empty and an empty fallback. |
| SizeClasses.InitSpec | src/allocator/fixed_size_block.rs:35-39 | `init` leaves the stacks empty. The fallback holds the heap as one region exactly when the heap start is node-aligned and the size holds a node; otherwise `init` panics. |
| SizeClasses.AllocFromStack | src/allocator/fixed_size_block.rs:65-72 | With a non-empty stack, `alloc` returns the stack's head and pops it. No other stack and not the fallback changes. |
| SizeClasses.BlockLayout | src/allocator/fixed_size_block.rs:76-79 | The layout of a block of class i is valid, with size and alignment both the block size. |
| SizeClasses.BlockLayoutAdjusted | src/allocator/fixed_size_block.rs:76-81 | `from_size_align(bs, bs)` always succeeds, so the `unwrap` never panics. The fallback adjusts that layout to alignment bs and to size bs, or 16 for the 8-byte class. |
| SizeClasses.SingleMultiple | src/allocator/fixed_size_block.rs:76-81 | A multiple of m in [m, 2m) is m. This is why the fallback keeps a class's block size unpadded. |
| SizeClasses.AllocFromFallback | src/allocator/fixed_size_block.rs:73-82 | With an empty stack, `alloc` is the fallback's `alloc` on the class's block layout, not on the caller's layout, and the stacks stay as they were. |
| SizeClasses.OversizedDelegated | src/allocator/fixed_size_block.rs:85-116 | With no class, `alloc` and `dealloc` pass the caller's layout to the fallback unchanged and leave the stacks alone. |
| SizeClasses.DeallocToStack | src/allocator/fixed_size_block.rs:89-111 | For a class, both assertions in `dealloc` hold. It pushes `ptr` on that class's stack and changes nothing else; the fallback gets nothing back. |
| SizeClasses.DeallocThenAlloc | src/allocator/fixed_size_block.rs:57-111 | Freeing a block and then allocating with a layout of the same class returns that very block and restores the state (LIFO). |
| SizeClasses.AllocThenDealloc | src/allocator/fixed_size_block.rs:57-111 | Allocating from a non-empty stack and freeing the block with the same layout restores the state. |
| FixedSizeBlock.FixedSizeBlockAllocator.State | src/allocator/fixed_size_block.rs:19-23 | The object's state has one stack per class. |
| FixedSizeBlock.FixedSizeBlockAllocator.constructor | src/allocator/fixed_size_block.rs:26-33 | `new` starts in `Empty()`. |
| FixedSizeBlock.FixedSizeBlockAllocator.Init | src/allocator/fixed_size_block.rs:35-39 | The status and new state are exactly `InitStep` of the old state. |
| FixedSizeBlock.FixedSizeBlockAllocator.FallbackAlloc | src/allocator/fixed_size_block.rs:41-43 | The result and new state are exactly the fallback's `alloc` on the old state. |
| FixedSizeBlock.FixedSizeBlockAllocator.Alloc | src/allocator/fixed_size_block.rs:57-87 | The result and new state are exactly `AllocStep` of the old state. |
| FixedSizeBlock.FixedSizeBlockAllocator.Dealloc | src/allocator/fixed_size_block.rs:89-118 | The status and new state are exactly `DeallocStep` of the old state. |
| HeapSafety.Reserved | src/allocator/fixed_size_block.rs:57-87 | What the allocator reserves for a layout is non-empty, at least the layout's size, and aligned to a multiple of the layout's alignment. |
| HeapSafety.InitSafe | src/allocator/fixed_size_block.rs:35-39 | After `new` and `init` of a heap inside the address space, with no block outstanding, the invariant holds. |
| HeapSafety.FreshSafe | src/allocator/fixed_size_block.rs:26-39 | Empty stacks and at most one well-formed free region make a safe state. |
| HeapSafety.FallbackGrant | src/allocator/linked_list.rs:145-169 | A block the fallback hands out joins the fallback's new list and the other accounted regions in a disjoint, bounded bag. On null or panic the list is unchanged. |
| HeapSafety.GrantOutcome | src/allocator/linked_list.rs:152-168 | The same, for any outcome in the search-and-split relation. |
| HeapSafety.FallbackSafe | src/allocator/fixed_size_block.rs:41-43 | A fallback allocation that reserves at least what the layout needs keeps the invariant, with the new block outstanding. |
| HeapSafety.AllocFromStackSafe | src/allocator/fixed_size_block.rs:65-72 | Popping a class stack returns an address aligned as asked and keeps the invariant, with the block outstanding. |
| HeapSafety.AllocFromFallbackSafe | src/allocator/fixed_size_block.rs:73-82 | Serving an empty class from the fallback keeps the invariant. Null or a panic changes nothing. |
| HeapSafety.AllocOversizedSafe | src/allocator/fixed_size_block.rs:85 | Serving an oversized layout from the fallback keeps the invariant. Null or a panic changes nothing. |
| HeapSafety.AllocSafe | src/allocator/fixed_size_block.rs:57-87 | `alloc` keeps the heap safe. A returned block is aligned as asked, is at least the requested size, and joins the outstanding blocks with the invariant intact. Null or a panic changes nothing. |
| HeapSafety.AllocDisjoint | src/allocator/fixed_size_block.rs:57-87 | A block `alloc` returns overlaps no free region, no free class block and no other outstanding block. |
| HeapSafety.PopSafe | src/allocator/fixed_size_block.rs:65-72 | Moving the head of a class stack to the outstanding blocks keeps the invariant. |
| HeapSafety.PushSafe | src/allocator/fixed_size_block.rs:96-110 | Moving an outstanding block of a class onto its stack keeps the invariant. |
| HeapSafety.DeallocToStackSafe | src/allocator/fixed_size_block.rs:92-111 | Freeing a class block succeeds and keeps the invariant once the block is no longer outstanding. |
| HeapSafety.ReturnSafe | src/allocator/linked_list.rs:171-177 | Returning an outstanding oversized block to the fallback's list keeps the invariant. |
| HeapSafety.DeallocOversizedSafe | src/allocator/fixed_size_block.rs:112-116 | Freeing an oversized block through the fallback succeeds and keeps the invariant. |
| HeapSafety.DeallocSafe | src/allocator/fixed_size_block.rs:89-118 | `dealloc` of any outstanding block with the layout it was allocated with succeeds and keeps the invariant. |
| Scenario.SmallClass | src/allocator/fixed_size_block.rs:45-53 | A 24-byte, 8-aligned request maps to the 32-byte class. |
| Scenario.LargeHasNoClass | src/allocator/fixed_size_block.rs:45-53 | A 5000-byte request has no class. |
| Scenario.CarveFirstBlock | src/allocator/linked_list.rs:145-169 | With the whole heap as one region, a 32-byte class block comes from the heap's first 32-aligned address, and the rest of the heap stays one region. |
| Scenario.LargeDoesNotFit | src/allocator/linked_list.rs:145-169 | A 5000-byte request finds no usable region in a list whose only region is smaller; it returns null and changes nothing. |
| Scenario.FourKiBHeap | src/allocator/fixed_size_block.rs:57-118 | On a 4 KiB heap: `init` succeeds. 24 bytes get a block inside the heap. 5000 bytes get null and change nothing. Freeing the first block succeeds, and asking for 24 bytes again returns the same address. |

## Left out

- Locking: `Locked`, the spin mutex around each allocator, is not modelled. The `GlobalAlloc` entry points are modelled as single-threaded calls on the allocator state, so re-entrancy and deadlock are outside the model.
- Raw memory: nodes written with `ptr::write` are modelled by what they describe. A free-list node is a `Region`; a class stack is the sequence of its blocks' addresses. Heap contents other than the allocator's own bookkeeping, and aliasing between a node and other data, are not modelled.
- `align_up` is defined in the root file of the `allocator` module, which is not part of this model. It is modelled as rounding up to the next multiple of a power-of-two alignment. The top of the address space is not modelled as the source computes it. Where rounding up would pass `usize::MAX`, the model's address lies past `usize::MAX` and `is_usable_free_region` reports an overflow. The source's computation itself would overflow there.
- `Layout::align_to` and `pad_to_align` come from Rust's core library. They are modelled arithmetically, with `Layout`'s rule that the padded size must not exceed `isize::MAX`.
- Addresses are natural numbers bounded by `usize::MAX`. The `checked_add` overflow checks are modelled.
- LinkedList.LinkedListAllocator.Init, LinkedList.LinkedListAllocator.Dealloc, FixedSizeBlock.FixedSizeBlockAllocator.Init and FixedSizeBlock.FixedSizeBlockAllocator.Dealloc require the range they hand over to lie inside the address space. Their callers promise this (they are `unsafe` functions); the source does not check it.
- HeapSafety.DeallocSafe covers only `dealloc` of a block that `alloc` returned, called with the layout that block was allocated with. This is `GlobalAlloc`'s safety contract. Freeing any other pointer is outside the theorem.
- No coalescing: freed regions are never merged. The model therefore proves exact accounting of free bytes, but not that a request succeeds whenever enough bytes are free in total. That claim is false for this allocator because of fragmentation.
- `src/memory.rs` (page mapping of the heap), interrupts, the task executors, `lib.rs`, `main.rs` and the tests are not part of this model.
