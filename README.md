# Allocator, reference table and JVM helpers

This project models three sequential C components of one course repository
and proves properties of the models with Dafny.

- **The explicit-free-list allocator** (`Malloc/mm.c`, module `Malloc` over the
  pure definitions of `MallocLayout`). Every block has a header word and a footer
  word holding `size | allocated`, with sizes multiples of 16. Free blocks carry
  prev/next links in their payload and form a doubly linked free list.
  `malloc` takes the first fit from the front of the list, splitting off a
  leftover that can hold a minimum block, and otherwise grows the heap.
  `free` pushes the block on the front of the list and coalesces it with its
  free neighbours. malloc, free, malloc of one size gives the same payload
  back when no free block ends where its block begins; a free block just
  before it is absorbed by the coalescing and moves the payload (an example
  is proved). The class `Allocator` holds the four global pointers, the
  break, the blocks (in address order) and the link words. Its invariant
  `Valid()` is `mm_checkheap`: header equals footer, a block is free exactly
  when it is listed, the list holds only heap blocks, no two free blocks are
  neighbours, the links are consistent, and the forward and backward walks
  visit the same blocks. Every operation is proved to keep it and to perform
  the step described by `MallocStep`/`FreeStep` on a value view of the heap.
- **The reference table and the two-space copying collector**
  (`GarbageCollector/refs.c`, class `Refs.RefTable`, specified by the
  functions of module `RefSpec`). Integer handles index a growable table of
  value addresses, and slots are reused first-fit. `incref` and `decref`
  maintain reference counts. When a count drops to zero, `decref` clears the
  slot, releases the value's children and frees the value. `collect_garbage`
  restarts the allocator on the to-space and copies everything reachable from
  the roots, where "already in the new pool" is the visited mark. It then
  swaps the spaces and sweeps every entry still pointing into the old space.
  `decref` is `RefSpec.Release`, `copy_contents` is `RefSpec.Copy` and the
  sweep is `RefSpec.Sweep`. Each method of the class is proved to compute
  exactly these functions on its state.
- **The toy JVM's operand stack and instruction helpers**
  (`JavaVirtualMachine/jvm.c`, module `Jvm`). The bounded stack is a class
  over an array. `bin_op` and `check_jump` are functions proved equal to the
  int arithmetic (iadd, isub, imul, idiv, irem) and the int branch conditions
  (if<cond>, if_icmp<cond>, goto) of section 6.5 of the Java Virtual Machine
  Specification (Java SE 12, JVMS), with division truncating toward zero. For the
  other opcodes they reach, the source's own fallbacks are stated separately:
  `bin_op` gives 0, and if_acmpeq/if_acmpne pop one word and never branch. The
  decodings inside `execute` (the `iconst_<i>` value, the signed 8- and 16-bit
  operands, and the order branch operands are popped) are functions and two
  step methods.

Addresses in the allocator count bytes from the start of the heap. Addresses
in the reference table are naturals, and `Memory.Ptr` gives both a NULL.

## Model

| member | source | states |
|---|---|---|
| MallocLayout.RoundUp | Malloc/mm.c:86-88 | the result is the least multiple of n that is not below size |
| MallocLayout.GetPayloadSize | Malloc/mm.c:171-181 | the payload is the requested size, raised to the 16 bytes the free-list links need when smaller |
| MallocLayout.GetBlockSize | Malloc/mm.c:185-187 | the block size is a multiple of 16, at least size + 16 (header and footer) and at least 32, and less than one alignment above header, payload and footer |
| MallocLayout.BlockSizeIsLeast | Malloc/mm.c:185-187 | no smaller multiple of 16 holds header, payload and footer: get_block_size is the least such size |
| MallocLayout.MinBlockSize | Malloc/mm.c:279 | get_block_size(1), the split threshold, is 32 bytes |
| MallocLayout.SizeOf | Malloc/mm.c:92-94 | get_size clears the low four bits: the result is a multiple of 16 within 16 below the word |
| MallocLayout.PackRoundTrip | Malloc/mm.c:92-99 | after set_header_and_footer(b, s, a), get_size gives s back and get_allocated gives a |
| MallocLayout.LayoutBounds | Malloc/mm.c:111-129 | blocks that tile the heap lie inside it, in increasing address order, without overlapping |
| MallocLayout.PayloadsAligned | Malloc/mm.c:315-327 | with the 8-byte padding of mm_init, every payload is 16-byte aligned and the break stays at 8 mod 16 |
| MallocLayout.Without | Malloc/mm.c:202-221 | unlinking o leaves exactly the other members of the list, and nothing changes when o is not listed |
| MallocLayout.WithoutAt | Malloc/mm.c:202-221 | in a list without duplicates, unlinking the k-th member closes the gap and keeps the order of the rest |
| MallocLayout.FirstFit | Malloc/mm.c:301-312 | None exactly when no listed block is large enough; otherwise the index of a large enough block with every earlier listed block too small |
| MallocLayout.FirstFitAt | Malloc/mm.c:301-312 | conversely, the first listed block that is large enough is the one FirstFit returns |
| MallocLayout.SplitBlocks | Malloc/mm.c:275-296 | a split adds exactly one block when the leftover can hold a minimum block, and keeps the split block's offset |
| MallocLayout.LayoutSplit | Malloc/mm.c:279-285 | the shrunk block and the leftover block after it still tile the heap |
| MallocLayout.SplitEnds | Malloc/mm.c:292-294 | after a split the first block is unchanged, and the leftover becomes the last block exactly when the split block was last |
| MallocLayout.LeftoverNotListed | Malloc/mm.c:283-291 | the leftover's offset was not on the free list, so pushing it keeps the list free of duplicates |
| MallocLayout.MergeEnds | Malloc/mm.c:242-252 | coalescing keeps the first block, and the merged block becomes last exactly when its absorbed neighbour was last |
| MallocLayout.CoalesceKeepsLayout | Malloc/mm.c:255-268 | coalescing a block with its free neighbours keeps the heap tiled |
| MallocLayout.CoalesceKeepsNoAdjacentFree | Malloc/mm.c:255-268 | freeing a block and coalescing it leaves no two free neighbours |
| MallocLayout.CoalescedCovers | Malloc/mm.c:242-268 | the block coalescing produces starts at the lowest merged block and its size is the sum of the merged blocks; without a free neighbour nothing changes |
| MallocLayout.AllocateKeepsChecks | Malloc/mm.c:330-349 | split and mark-allocated on a fitting free block keep the tiling, the listed-iff-free check, a duplicate-free list and no adjacent free blocks |
| MallocLayout.AppendKeepsChecks | Malloc/mm.c:334-340 | a new allocated block at the break keeps every mm_checkheap check |
| MallocLayout.FreeKeepsChecks | Malloc/mm.c:352-365 | marking an allocated block free, pushing it and coalescing keeps every mm_checkheap check |
| MallocLayout.FreedChecks | Malloc/mm.c:352-365 | the list and the blocks free leaves satisfy the listed-iff-free and no-adjacent-free checks |
| MallocLayout.FreeCountsAgree | Malloc/mm.c:484-516 | when a block is free exactly when listed and the list has no duplicates, the heap and the list hold equally many free blocks |
| MallocLayout.FreeablePayload | Malloc/mm.c:352-356 | a payload that malloc handed out belongs to an allocated, unlisted block of the heap |
| MallocLayout.AllocateKeepsReserved | Malloc/mm.c:330-349 | allocating from the free list keeps every earlier reservation, and reserves the chosen payload when the block has room |
| MallocLayout.FreeKeepsReserved | Malloc/mm.c:352-365 | freeing one payload keeps every other reservation |
| MallocLayout.FreeReleases | Malloc/mm.c:352-365 | after free, the freed payload is no longer reserved |
| MallocLayout.ReservedInHeap | Malloc/mm.c:81-83 | a reserved payload lies inside the heap and its block is allocated with room for the requested bytes |
| MallocLayout.FreeBlockNotReserved | Malloc/mm.c:330-349 | the payload of a free block is not reserved |
| MallocLayout.AbsorbedNotReserved | Malloc/mm.c:242-252 | the payload of a block absorbed by coalescing is not reserved |
| Malloc.SplitKeepsShaped | Malloc/mm.c:275-296 | a split keeps the heap tiled with heap_first unchanged, and heap_last moves to the leftover when the split block was last |
| Malloc.MergeKeepsShaped | Malloc/mm.c:242-252 | coalescing keeps the heap tiled, and heap_last follows the absorbed tail |
| Malloc.MarkKeepsShaped | Malloc/mm.c:141-146 | rewriting header and footer with the same size keeps the tiling and both ends |
| Malloc.AppendKeepsShaped | Malloc/mm.c:334-346 | the new block at the break becomes heap_last, and heap_first too if the heap was empty |
| Malloc.ListedIsFree | Malloc/mm.c:487-498 | every listed offset names a free block of the heap |
| Malloc.MallocStep | Malloc/mm.c:330-349 | malloc as a transition on the blocks, the free list and the break: the first listed fit is split and marked allocated; with none, a new allocated block of get_block_size(size) bytes at the break; NULL with nothing changed when the break would pass the limit |
| Malloc.FreeStep | Malloc/mm.c:352-365 | free as a transition: a pointer in range has its block marked free, pushed on the front of the list and coalesced; any other pointer changes nothing |
| Malloc.MallocReserves | Malloc/mm.c:330-349 | malloc returns NULL exactly when no listed block fits and the break cannot grow; otherwise a 16-aligned payload with room for size bytes that was not reserved before |
| Malloc.MallocKeepsReservation | Malloc/mm.c:330-349 | malloc leaves every earlier reservation in place |
| Malloc.StillReserved | Malloc/mm.c:330-349 | a payload reserved before malloc is still reserved and inside the heap afterwards |
| Malloc.FreeReleasesPayload | Malloc/mm.c:352-365 | free of an in-heap payload unreserves it; any other pointer, NULL included, changes nothing |
| Malloc.FreeKeepsReservation | Malloc/mm.c:352-365 | free leaves the reservation of every other payload in place |
| Malloc.MallocKeepsChecked | Malloc/mm.c:330-349 | malloc, from the free list or at the break, keeps every check of mm_checkheap |
| Malloc.FreeKeepsChecked | Malloc/mm.c:352-365 | free of a reserved payload, of NULL or of an address past the break keeps every check of mm_checkheap |
| Malloc.MoveReserves | Malloc/mm.c:385-397 | when realloc moves a block and its malloc succeeds, the new payload differs from the old, is reserved with room for size bytes, the old payload is no longer reserved, every other reservation is kept, and min(size, old block size) bytes are copied; when that malloc fails, nothing changes and nothing is copied |
| Malloc.FreedFront | Malloc/mm.c:352-365 | freeing a block whose predecessor is allocated keeps its offset, never shrinks it, and leaves it at the head of the free list |
| Malloc.FreedFits | Malloc/mm.c:301-312 | after such a free, find_fit for any size the block held answers with the freed block, first on the list |
| Malloc.FreeThenMallocReuses | Malloc/mm.c:330-365 | malloc(size), free of its result, then malloc(size) again returns the same payload when the block before the first result is allocated |
| Malloc.ListFitReused | Malloc/mm.c:301-349 | when the first malloc is served from the free list, malloc, free, malloc of the same size returns the same payload |
| Malloc.AppendReused | Malloc/mm.c:334-349 | when the first malloc grows the heap after an allocated last block (or an empty heap), malloc, free, malloc of the same size returns the same payload |
| Malloc.MergeDefeatsReuse | Malloc/mm.c:255-268 | without that condition reuse fails: after an allocated and a free 32-byte block, malloc(100) returns 80, free merges its block into the free one at 40, and the next malloc(100) returns 48 |
| Malloc.CallocBytes | Malloc/mm.c:406 | the byte count is below 2^64 and equals nmemb * size whenever that product fits |
| Malloc.CallocWraps | Malloc/mm.c:406 | the product is not checked: calloc(2^32, 2^32) asks malloc for 0 bytes |
| Malloc.Allocator.constructor | Malloc/mm.c:315-327 | the heap starts empty after the padding, with all four pointers NULL, and satisfies mm_checkheap |
| Malloc.Allocator.Init | Malloc/mm.c:315-327 | mm_init fails exactly when mem_sbrk cannot provide the padding; otherwise an empty, checked heap |
| Malloc.Allocator.InHeapAccepts | Malloc/mm.c:81-83 | in a checked heap, ptr_in_range accepts every payload malloc handed out and that is still reserved, and rejects NULL |
| Malloc.Allocator.NextBlock | Malloc/mm.c:111-118 | next_block gives the block that follows in address order, or NULL after heap_last |
| Malloc.Allocator.PrevBlock | Malloc/mm.c:122-129 | prev_block, which reads the footer below the header, gives the block before, or NULL at heap_first |
| Malloc.Allocator.RemoveFromFreeList | Malloc/mm.c:202-221 | the block leaves the list, the other members keep their order, and links and list ends stay consistent |
| Malloc.Allocator.AddToStartFreeList | Malloc/mm.c:226-238 | the block is pushed on the front of the list with consistent links and ends |
| Malloc.Allocator.CoalesceAdjacentBlocks | Malloc/mm.c:242-252 | the free block absorbs its free successor, which leaves the list; heap_last follows |
| Malloc.Allocator.CoalesceFreeBlock | Malloc/mm.c:255-268 | the block absorbs a free successor, then a free predecessor absorbs it; blocks and list become Coalesced/CoalescedList |
| Malloc.Allocator.Split | Malloc/mm.c:275-296 | the block always leaves the list; a leftover of at least get_block_size(1) becomes a free block after it, at the front of the list |
| Malloc.Allocator.CarveLeftover | Malloc/mm.c:281-294 | the block keeps n bytes and the rest becomes a new listed free block, which is heap_last if the block was |
| Malloc.Allocator.FindFit | Malloc/mm.c:301-312 | the walk returns the first listed block of at least need bytes, split; NULL with nothing changed when none is large enough |
| Malloc.Allocator.TakeFit | Malloc/mm.c:333-343 | the hit path of malloc: the first fit, split, marked allocated, with mm_checkheap kept |
| Malloc.Allocator.MarkBlock | Malloc/mm.c:141-146 | set_header_and_footer writes the block's size and allocated bit |
| Malloc.Allocator.Malloc | Malloc/mm.c:330-349 | malloc performs MallocStep and keeps mm_checkheap; on NULL nothing changes |
| Malloc.Allocator.Free | Malloc/mm.c:352-365 | free performs FreeStep and keeps mm_checkheap; a pointer outside the heap changes nothing |
| Malloc.Allocator.FreeBlock | Malloc/mm.c:353-363 | the block is marked free, pushed on the list and coalesced, and mm_checkheap holds again |
| Malloc.Allocator.Release | Malloc/mm.c:356-362 | the block is marked free with cleared links and pushed on the front of the list |
| Malloc.Allocator.Realloc | Malloc/mm.c:368-400 | size 0 frees and gives NULL; NULL mallocs; a block already large enough is kept; otherwise the move described by Moved, whose promise to the caller is MoveReserves |
| Malloc.Allocator.Move | Malloc/mm.c:385-399 | malloc, a copy of min(size, old block size) bytes, then free of the old block; NULL and nothing changed when malloc fails |
| Malloc.Allocator.Calloc | Malloc/mm.c:404-415 | calloc is malloc of the wrapped product nmemb * size |
| Malloc.Allocator.ExtendHeap | Malloc/mm.c:334-340 | the break grows by exactly the block size and the new allocated block becomes heap_last; NULL exactly when that passes the limit |
| RefSpec.HeldMembers | GarbageCollector/refs.c:193-197 | a ref-array slot is visited exactly when it is not NULL_REF or TOMBSTONE_REF |
| RefSpec.HeldStep | GarbageCollector/refs.c:193-197 | scanning one more slot adds it to the visited references unless it is a sentinel |
| RefSpec.Footprint | GarbageCollector/refs.c:118 | the allocator stand-in takes at least the requested bytes and at least one alignment unit |
| RefSpec.IncRef | GarbageCollector/refs.c:178-181 | incref raises the count of the slot's value by exactly one; the table and every other value are unchanged |
| RefSpec.CountInClearOne | GarbageCollector/refs.c:207-213 | clearing a slot in the pool lowers the number of live slots by one, so the recursion of decref ends |
| RefSpec.Release | GarbageCollector/refs.c:206-217 | decref keeps the table tracked, only clears slots in the pool, changes values only in their counts, and on a count of one clears the slot and frees the value |
| RefSpec.ReleaseCases | GarbageCollector/refs.c:206-212 | an entry outside the pool changes nothing; a count above one is only lowered, with the table and all other values unchanged |
| RefSpec.ReleaseAll | GarbageCollector/refs.c:185-200 | traverse_decref keeps the table tracked and only clears slots and lowers counts |
| RefSpec.ReleaseUndoesIncRef | GarbageCollector/refs.c:178-217 | decref right after incref on a live value restores the state |
| RefSpec.MoveOut | GarbageCollector/refs.c:229-233 | copying an entry takes it, and its bytes, off what is still outside the pool, so copy_contents terminates on cycles |
| RefSpec.CopyOne | GarbageCollector/refs.c:229-233 | one copy step puts an identical value at the allocator's next block, redirects the entry and keeps room for the rest |
| RefSpec.Copy | GarbageCollector/refs.c:227-251 | copy_contents moves only entries outside the pool, each to an identical value in the pool under the same handle, and leaves the copied entry in the pool |
| RefSpec.CopyAll | GarbageCollector/refs.c:234-249 | copying each reference in turn leaves every one of them in the pool, with only moves of identical values |
| RefSpec.MovedKeepsUsed | GarbageCollector/refs.c:233 | copying never clears a used slot |
| RefSpec.CopyCloses | GarbageCollector/refs.c:227-251 | copying an entry keeps the pool closed under references: every value in the pool that was complete stays so, and the copied value ends complete |
| RefSpec.CopyRootsCloses | GarbageCollector/refs.c:261-262 | after copying the roots into an empty pool, everything the pool's values reference is in the pool |
| RefSpec.ReachableStep | GarbageCollector/refs.c:234-249 | a used slot owned by the value of a reachable slot is reachable: reachability follows the references copy_contents follows |
| RefSpec.CopyWithin | GarbageCollector/refs.c:227-251 | copy_contents of a reachable slot moves only slots reachable from the roots |
| RefSpec.CopyAllWithin | GarbageCollector/refs.c:234-249 | copying a list of reachable slots moves only slots reachable from the roots |
| RefSpec.PathInPool | GarbageCollector/refs.c:227-262 | once the roots are in a closed pool, the end of every chain of references from a root is in it |
| RefSpec.CopyRootsReachable | GarbageCollector/refs.c:261-262 | copying the used roots into an empty pool moves exactly the slots reachable from them |
| RefSpec.CollectCopiesReachable | GarbageCollector/refs.c:260-265 | before the sweep, every root is in the new pool, every copy equals its original, the pool is closed, and an entry is in the new pool exactly when it is reachable from the roots |
| RefSpec.CollectClearsUnreached | GarbageCollector/refs.c:254-273 | after collect_garbage, every entry that no root reaches is NULL |
| RefSpec.CollectWithoutRoots | GarbageCollector/refs.c:254-273 | collect_garbage with no roots clears the whole table |
| RefSpec.CollectKeepsReachable | GarbageCollector/refs.c:254-273 | when no garbage refers to a slot the copy reached, after collect_garbage an entry is in the new pool exactly when it is reachable from the roots |
| RefSpec.CollectReclaimsCycle | GarbageCollector/refs.c:254-273 | two lists that hold each other but no root reaches are both cleared, though their counts never reached zero |
| RefSpec.Reset | GarbageCollector/refs.c:261 | mm_init serves the other space from its start; values outside it are kept, and none remains inside it |
| RefSpec.ResetReady | GarbageCollector/refs.c:261 | when nothing is in the other space and copies fit there, the reset state is ready for copy_contents |
| RefSpec.Sweep | GarbageCollector/refs.c:268-273 | the sweep from slot i keeps the table tracked and its length, changes an entry only by clearing a used slot, and leaves no entry from i on outside the pool |
| RefSpec.Discard | GarbageCollector/refs.c:269-272 | one sweep step releases the garbage value's references and clears its slot |
| RefSpec.SweepStep | GarbageCollector/refs.c:268-273 | the sweep from slot i discards slot i when it is outside the pool and then sweeps from i + 1 |
| RefSpec.Collect | GarbageCollector/refs.c:254-273 | after collect_garbage the pool is the former to-space, the table keeps its length, and every entry is NULL or in the new pool; RefSpec.CollectClearsUnreached and RefSpec.CollectKeepsReachable say which |
| RefSpec.ReleaseAllSkips | GarbageCollector/refs.c:185-198 | traverse_decref over slots none of which is in the pool changes nothing |
| RefSpec.DiscardIsolated | GarbageCollector/refs.c:268-272 | clearing one garbage entry whose references all lie outside the pool only sets that slot to NULL, and keeps the garbage isolated |
| RefSpec.SweepKeepsLive | GarbageCollector/refs.c:268-273 | while no garbage refers into the pool, the sweep keeps the values and every entry that is in the pool or NULL |
| RefSpec.SweepKeepsClosed | GarbageCollector/refs.c:268-273 | under the same condition, a closed pool stays closed after the sweep and every in-pool entry is kept |
| RefSpec.CollectKeepsRoots | GarbageCollector/refs.c:254-273 | when no garbage refers to a slot the copy reached, after collect_garbage every root is in the new pool with a copy equal to its old value, and the pool is closed |
| RefSpec.ReadyToCollect | GarbageCollector/refs.c:254-273 | a table whose entries all lie in the pool, with the other space beside it, is ready to collect, and collection is reset, copy of the roots, then sweep |
| RefSpec.FirstNull | GarbageCollector/refs.c:86-91 | the slot handed out is unused or one past the end, and every slot before it is used |
| RefSpec.Assigned | GarbageCollector/refs.c:83-109 | the value goes in the first unused slot, or a new slot at the end; every other slot is as it was |
| RefSpec.MakeTracked | GarbageCollector/refs.c:113-135 | a new value at the allocator's next block, under the slot assign_reference picks, keeps the table tracked |
| RefSpec.UsedBelowStep | GarbageCollector/refs.c:166-170 | scanning one more slot counts it exactly when it is not NULL |
| Refs.RoundUp | GarbageCollector/refs.c:115 | make_ref's size is the least multiple of 8 not below the request |
| Refs.RefTable.constructor | GarbageCollector/refs.c:64-79 | pool_size is half the memory rounded down to a multiple of 8, from-space starts the pool, to-space starts pool_size bytes later, and the table is empty with capacity 0 |
| Refs.RefTable.PoolMalloc | GarbageCollector/refs.c:118-122 | the allocator stand-in gives the next address when the space has room, and NULL otherwise |
| Refs.RefTable.AssignReference | GarbageCollector/refs.c:83-109 | the result is the first unused slot and the table is Assigned; a full table grows to INITIAL_SIZE or doubles, and the length never passes the capacity |
| Refs.RefTable.MakeRef | GarbageCollector/refs.c:83-135 | NULL_REF with nothing changed exactly when the pool has no room; otherwise a value of the requested type, with count 1 and the rounded size, under the slot assign_reference picks; the capacity doubles, or becomes INITIAL_SIZE from 0, exactly when that slot is the end of a full table, and is otherwise kept |
| Refs.RefTable.Deref | GarbageCollector/refs.c:139-150 | deref returns the used slot's address, which names a stored value |
| Refs.RefTable.GetRef | GarbageCollector/refs.c:153-160 | get_ref returns the lowest slot naming the value |
| Refs.RefTable.RefsUsed | GarbageCollector/refs.c:164-172 | refs_used is the number of non-NULL slots |
| Refs.RefTable.Incref | GarbageCollector/refs.c:178-181 | incref computes IncRef and keeps the table valid |
| Refs.RefTable.Decref | GarbageCollector/refs.c:206-217 | decref computes Release |
| Refs.RefTable.TraverseDecref | GarbageCollector/refs.c:185-200 | traverse_decref computes ReleaseAll over a list's values, a dictionary's keys then values, or a ref-array's non-sentinel slots |
| Refs.RefTable.DecrefSlots | GarbageCollector/refs.c:191-198 | the ref-array loop decrefs each non-sentinel slot in index order |
| Refs.RefTable.CopyContents | GarbageCollector/refs.c:227-251 | copy_contents computes Copy |
| Refs.RefTable.MoveValue | GarbageCollector/refs.c:229-233 | the value is copied to a new block, the entry is redirected, and what remains to copy shrinks |
| Refs.RefTable.CopyChildren | GarbageCollector/refs.c:234-249 | copy_contents of a list's values, a dictionary's keys then values, or a ref-array's slots computes CopyAll |
| Refs.RefTable.CopySlots | GarbageCollector/refs.c:242-248 | the ref-array loop copies each non-sentinel slot in index order |
| Refs.RefTable.ResetPool | GarbageCollector/refs.c:261 | mm_init(pool_size, to_space) computes Reset |
| Refs.RefTable.CopyRoots | GarbageCollector/refs.c:262 | copy_contents of each root in turn computes CopyAll |
| Refs.RefTable.SweepTable | GarbageCollector/refs.c:268-273 | the sweep loop computes Sweep and keeps the table's length |
| Refs.RefTable.DiscardSlot | GarbageCollector/refs.c:269-272 | traverse_decref of the garbage value, then the slot is cleared |
| Refs.RefTable.CopyAndSweep | GarbageCollector/refs.c:260-273 | reset, copy of the roots, swap and sweep compute Collect and exchange the spaces |
| Refs.RefTable.CollectGarbage | GarbageCollector/refs.c:254-280 | collect_garbage computes Collect, swaps from-space and to-space, keeps the capacity and leaves the table valid; RefSpec.CollectKeepsRoots gives what it keeps |
| Refs.RefTable.CollectedValid | GarbageCollector/refs.c:263-273 | the state after the swap and the sweep satisfies the table invariant |
| Jvm.OperandStack.constructor | JavaVirtualMachine/jvm.c:24-30 | stack_create gives an empty stack of the given capacity |
| Jvm.OperandStack.Push | JavaVirtualMachine/jvm.c:32-36 | with room left, val is written at index size, size grows by one, other slots are unchanged, and the contents gain val on top |
| Jvm.OperandStack.Pop | JavaVirtualMachine/jvm.c:38-43 | on a non-empty stack, returns stack[size-1], size drops by one and the array is unchanged |
| Jvm.PushThenPop | JavaVirtualMachine/jvm.c:32-43 | a push then a pop returns the pushed word and restores the size and contents |
| Jvm.Wrap32 | JavaVirtualMachine/jvm.c:63-71 | the result is the 32-bit word congruent to x modulo 2^32, and x itself when it fits |
| Jvm.TruncDivRemainder | JavaVirtualMachine/jvm.c:72-77 | a == b * (a / b) + a % b, with the remainder smaller than the divisor and of the dividend's sign |
| Jvm.TruncDivFits | JavaVirtualMachine/jvm.c:72-77 | quotient and remainder of two words are words unless the quotient is INT_MIN / -1 |
| Jvm.TruncDivUnique | JavaVirtualMachine/jvm.c:72-77 | any quotient whose remainder has the magnitude and sign rules is the truncated quotient |
| Jvm.TruncDivDiffersFromEuclid | JavaVirtualMachine/jvm.c:72-77 | C's -7 / 2 is -3 with remainder -1, where the Euclidean answer is -4 with remainder 1 |
| Jvm.BinOp | JavaVirtualMachine/jvm.c:60-82 | bin_op(op, val1, val2), called with val1 the word popped first and val2 the deeper one, equals JVMS §6.5's value1 OP value2 where value1 = val2 is the deeper operand and value2 = val1 the top one, for the five int operations (idiv truncates and irem takes the dividend's sign), and 0 for any other opcode |
| Jvm.ArithStep | JavaVirtualMachine/jvm.c:135-139 | the two top words are replaced by JVMS §6.5's result of the int operation on them, or by 0 for any other opcode |
| Jvm.CheckJump | JavaVirtualMachine/jvm.c:84-102 | goto always jumps, the twelve conditional forms compare a with b by their condition, and any other instruction does not jump |
| Jvm.AcmpNeverBranches | JavaVirtualMachine/jvm.c:84-102 | if_acmpeq and if_acmpne pop one word and check_jump never takes them, unlike JVMS §6.5 |
| Jvm.CheckJumpComplements | JavaVirtualMachine/jvm.c:84-102 | the conditions pair up as complements: eq/ne, lt/ge, gt/le |
| Jvm.Signed16 | JavaVirtualMachine/jvm.c:130-132 | the operand b1 b2, high byte first, read as an s2, lies in -32768..32767 and is congruent to 256 * b1 + b2 modulo 2^16 |
| Jvm.Signed8 | JavaVirtualMachine/jvm.c:126-127 | the bipush operand as an s1 lies in -128..127 and is congruent to the byte modulo 256 |
| Jvm.Signed16OfBytes | JavaVirtualMachine/jvm.c:192-194 | every signed 16-bit value is the decoding of its high and low bytes |
| Jvm.BytesOfSigned16 | JavaVirtualMachine/jvm.c:192-194 | every byte pair is the encoding of its decoding: the decoding is a bijection |
| Jvm.BranchTarget | JavaVirtualMachine/jvm.c:191-198 | a taken branch adds the signed offset to pc, otherwise pc moves past three bytes, both modulo 2^16 |
| Jvm.BranchStep | JavaVirtualMachine/jvm.c:181-198 | goto pops nothing, if<cond> pops one word compared with 0, if_icmp<cond> pops two compared deeper-against-top, and pc moves as JVMS §6.5 states; if_acmpeq/if_acmpne pop one word and fall through |
| Jvm.IconstValue | JavaVirtualMachine/jvm.c:144-146 | iconst_m1..iconst_5 push instruct - 3, a value in -1..5 |
| Jvm.IconstTable | JavaVirtualMachine/jvm.c:144-146 | with the opcodes 0x02..0x08 of JVMS §6.5, the values pushed are -1, 0, 1, 2, 3, 4, 5 |

## Left out

- Payload bytes are not modelled: the memcpy of realloc and copy_contents, the memset of calloc and the 0xCC fill of make_ref. The number of bytes realloc copies is returned.
- memlib is a break and a fixed limit. mem_sbrk fails exactly when the break would pass the limit, and mem_heap_lo is address 0.
- size_t is unbounded except in calloc's product, which wraps modulo 2^64.
- dbg_printf, the interactive messages and mem_used of collect_garbage, and the printf of invokevirtual are output only.
- Malloc.Allocator.Free: a pointer inside the heap must be a payload malloc handed out and not yet freed. The source detects neither double free nor interior pointers, and what it does then is undefined.
- Malloc.Allocator.Realloc: the old pointer must be a live payload when the call is to use it, for the same reason.
- The allocator that refs.c calls (GarbageCollector/mm.h) is not part of this model. It is replaced by a bump allocator over the current space: mm_free forgets the value but the space is not reused before the next collection. is_pool_address is membership in the current space.
- NULL_REF (-1), TOMBSTONE_REF (-2) and INITIAL_SIZE come from headers that are not part of this model. The sentinels are fixed constants, and INITIAL_SIZE is a constructor parameter.
- The libc realloc of ref_table, its exit(1) failure path and close_refs are not modelled. The table is a sequence and its capacity is a number.
- foreach_global (from eval.h) is not part of this model. The roots are a sequence of handles given to CollectGarbage.
- The name parameter of copy_contents is unused by the source and left out.
- Values store their references as a field sequence: a list's values, a dictionary's keys then values, a ref-array's slots, with capacity as the sequence's length. A list or dictionary whose fields are not stored yet owns no references.
- RefSpec.Copy treats an entry that is NULL or out of range as one to skip, where copy_contents would dereference it. Every call the model makes has a used slot. (RefSpec.Release's skip of an entry outside the pool is decref's own early return.)
- Refs.RefTable.CollectGarbage: requires every reference a value owns to be a used slot and the to-space to have room for a copy of every value in the table. The source does not check mm_malloc in copy_contents, so without room its behaviour is undefined.
- Refs.RefTable.Decref and Refs.RefTable.TraverseDecref: require the slot to be one of the table's, since decref indexes ref_table without a bounds check.
- Jvm.BinOp and Jvm.ArithStep: for any opcode other than the five int operations (the long, float and double forms execute also sends here) the result is 0, as bin_op's fallback returns; JVMS §6.5's value for those is not modelled.
- Jvm.BranchStep: if_acmpeq and if_acmpne pop one word and never branch, as execute and check_jump do; JVMS §6.5 pops two references and compares them. Jvm.AcmpNeverBranches states the difference.
- Malloc.Allocator.InHeap: ptr_in_range subtracts the address of the function mem_heap_lo rather than the heap's start. Addresses here count from the heap's start, so a pointer below the heap cannot be expressed and that lower test is not modelled.
- RefSpec.CollectKeepsRoots: requires GarbageIsolated, that no value left outside the new pool refers to a slot the copy reached. The hypothesis stands in for the consistency of the reference counts: in the source a count covers every holder, so the sweep's decref of garbage lowers a reachable value's count without taking it to zero. That invariant depends on the callers of incref and decref, which are not modelled, so the model does not keep it.
- RefSpec.CollectKeepsReachable: requires GarbageIsolated for the same reason. Without it only the other direction is proved (RefSpec.CollectClearsUnreached: an unreached entry is NULL); that a reachable entry stays in the new pool is not.
- Jvm.BinOp: signed overflow in C is undefined; add, sub and mul are modelled with the JVM's two's-complement wrap. Division and remainder by zero, and INT_MIN / -1, trap in C and are excluded by the precondition.
- The execute loop, main, the class-file reader, locals, ldc, invokestatic and return values depend on parsing and I/O and are not modelled. Only the operand decodings and the arithmetic and branch steps are.
- ASMGen/src/compile.c only prints assembly text and is not part of this model.
