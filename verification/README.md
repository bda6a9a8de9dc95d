# Memory manager, scheduler and formatter

This project models three parts of the kernel and proves what they are there for.

**The memory manager** (`kernel/modules/memory`) has four layers, each a fast structure that has to agree with a
simple view of it.

- `Bits`, `Pmm`: the frame allocator. A bitmap with 8-bit `+=` and `-=`, a cached position, a run search that skips
  full bytes, and the 64 KiB windows of DMA. The view is the set of free frames, and the searches are plain first fit.
- `Space`, `Vmm`: the two-level page tables, reached as words of RAM through the directory's own slot, and the use
  count of every table. The view is a finite map from pages to frames.
- `Regions`, `HeaderList`, `VHeap`, `Vmalloc`, `IoSpace`, `TagPages`, `RegionRuns`: the virtual heap. Boundary tags, a
  list of free regions ordered by size, coalescing, and the backing of regions with frames or devices. The view is a
  tiling of the heap by blocks; `RegionRuns` follows callers who hold many regions at once.
- `Grid`, `SlabState`, `SlabSteps`, `SlabLists`, `SlabGrowth`, `SlabMoves`, `KHeap`, `SlabRuns`: the slab allocator.
  Slab and cache headers by address, free lists threaded through the free objects, three lists of slabs a cache, the
  page-to-slab index, and the mutual recursion of `kmalloc`, `cache_create` and `cache_grow`. The view is the set of
  blocks in use with their sizes.

- `Boot` puts them together: init_mm on the page tables of `kernel/modules/kstartup.asm`.

**The scheduler** (`kernel/modules/multitasking`, `kernel/modules/misc/linked_list.c`): `LinkedList` proves the ring
operations against sequences, `Scheduling` is a transition system with an invariant over all its runs, `Waking`
says how long its tasks sleep and wait, and `Scheduler` is the code on linked lists, proved to make exactly the steps
of that system.

**The formatter** (`kernel/modules/video/kprintf.c`): `Kprintf` has the conversions of numbers and strings and the
decimal reader, and `Vprintf` the walk over a format. `IsoNumber` and `IsoFormat` write section 7.19.6.1 of ISO/IEC
9899:1999 apart from the code, integers and whole formats, with the exact condition under which the code prints the
same.

`Seqs` and `Sets` hold what the other modules share.

State that the source changes in place is kept in classes (`Pmm.FrameAllocator`, `Vmm.Mmu`, `HeaderList.FreeList`,
`VHeap.VirtualHeap`, `Vmalloc.Memory`, `KHeap.Kernel`, `LinkedList.List`, `Scheduler.Kernel`); their ghost fields hold
the view and `Valid` or `Inv` ties the two together. `RegionRuns.Caller` adds the account of a caller. Headers that
kmalloc places are map entries keyed by address, with address 0 for NULL. 32-bit words are `word`; every wrap-around,
truncation and shift is written out.

Lines of the source that do not do what they are meant to are kept as they are in members of their own, with the exact
condition under which they are right: `Bits.ByteAddExact`, `Pmm.FrameAllocator.GuardExact`,
`HeaderList.FreeList.InsertAsWritten` and `RemoveAsWritten`, `TagPages.WrittenLosesExactly`, `KHeapAsWritten`,
`Regions.ZeroPagesTags` with `VHeap.VirtualHeap.VregionAlloc`, `Vmm.UnmapUnmapped`, `Scheduling.BlockExact`,
`Scheduling.UnblockExact`, `Scheduling.UnblockByTaskExact`, `Scheduling.TerminateExact`, `Scheduling.BootTaskIsLost`,
`Grid.TableExact`, `IsoNumber.IsoExact`, `IsoFormat.ItemExact`, `Kprintf.FormatString`, `Vprintf.CountIs`,
`Vprintf.ShortExact`. `Witnesses` has inputs that these conditions shut out, reached by calls where the state matters.
Where whole runs are proved, some of those lines are repaired and marked: `headers` follows an insertion before the
head and a removal of the head (vheap.c:51-58, 63-67), `kfree` moves a slab that was full back to the partial list and
compares with the real capacity (kheap.c:393-447, 410), `init_kheap` counts 126 objects (kheap.c:458). The runs of the
scheduler need no repair: they start with init_multitasking's block_task(READY), which loses the boot task.

## Model

| member | source | states |
|---|---|---|
| Bits.ByteAddExact | kernel/modules/memory/pmm.c:17-21 | 8-bit `+= mask` sets exactly that bit if and only if the bit was clear |
| Bits.ByteSubtractExact | kernel/modules/memory/pmm.c:23-27 | 8-bit `-= mask` clears exactly that bit if and only if the bit was set |
| Bits.FullByte | kernel/modules/memory/pmm.c:66 | 0xFF is the one byte without a clear bit, so skipping it skips no free frame |
| Pmm.FrameAllocator.ReservePage | kernel/modules/memory/pmm.c:17-21 | exactly one frame leaves the set of free frames, and no full byte stops being full |
| Pmm.FrameAllocator.UnreservePage | kernel/modules/memory/pmm.c:23-27 | exactly one frame joins the set of free frames, and no other byte changes |
| Pmm.FrameAllocator.PageReserved | kernel/modules/memory/pmm.c:29-33 | the bit test decides membership in the set of free frames |
| Pmm.FrameAllocator.SetBitmapHole | kernel/modules/memory/pmm.c:35-42 | exactly the frames of the range leave the free set |
| Pmm.FrameAllocator.FindRun | kernel/modules/memory/pmm.c:58-117 | the search ends, in bounds, at the first fit, although DMA may set its index back |
| Pmm.FrameAllocator.SkipReserved | kernel/modules/memory/pmm.c:65-78 | skipping full bytes and reserved frames never passes the first fit |
| Pmm.FrameAllocator.ExtendRun | kernel/modules/memory/pmm.c:80-116 | a run is accepted only if it fits, also with a stale `dma_pos`; a rejected one moves the head of the outer loop on without passing the first fit |
| Pmm.FrameAllocator.ReserveRun | kernel/modules/memory/pmm.c:120-123 | the countdown marks exactly the run and stops above frame 0, which is never free |
| Pmm.FrameAllocator.AllocPages | kernel/modules/memory/pmm.c:44-127 | refines first fit over the set of free frames, with DMA inside one aligned 64 KiB window; exactly the returned run is taken; `available_mem` less 4 KiB a free frame is unchanged; both early refusals |
| Pmm.DivUpRounds | kernel/modules/memory/pmm.c:12 | the number of pages alloc_pages looks for is the least that holds the size; for size 0 the wrapped subtraction makes it all pages of 4 GiB |
| Pmm.FrameAllocator.AllocPage | kernel/modules/memory/pmm.c:129-155 | takes the lowest free frame, by way of the cached position below which every byte is full; if the roundings of init_pmm stay below one page it needs no more than the invariant and returns NULL exactly when no frame is free |
| Pmm.FrameAllocator.GuardExact | kernel/modules/memory/pmm.c:131-134 | the test of alloc_page lets no call search a bitmap without a free frame if and only if a frame is free or the roundings stay below one page |
| Pmm.FrameAllocator.FreePage | kernel/modules/memory/pmm.c:157-167 | gives back one frame and keeps every byte below the cached position full |
| Pmm.FrameAllocator.FreePages | kernel/modules/memory/pmm.c:169-176 | gives back exactly the range |
| Pmm.FrameAllocator.InitPmm | kernel/modules/memory/pmm.c:178-194 | for a well-formed memory map the free frames are exactly the promised low and high ranges, `available_mem` is the sum of the map less its reserves, and the invariant holds |
| Pmm.HolesLeavePromised | kernel/modules/memory/pmm.c:189-193 | the four holes are disjoint, lie inside the bitmap, and leave exactly the promised frames |
| Pmm.PromisedExact | kernel/modules/memory/pmm.c:178-194 | the promised frames are exactly those all of whose bytes the map has, in low memory or from 1 MiB on, above its reserves |
| Pmm.PromisedSize | kernel/modules/memory/pmm.c:182-187 | `available_mem` starts above what the promised frames hold by exactly the four roundings to whole frames, 0 to 12 KiB |
| Pmm.DmaStaysInWindow | kernel/modules/memory/pmm.c:98-110 | a free run is acceptable to DMA if and only if all its addresses lie in the same 64 KiB block of physical memory |
| Pmm.FirstFitOfOne | kernel/modules/memory/pmm.c:129-155 | first fit of one frame is the lowest free frame, with or without DMA: `alloc_pages` of a page and `alloc_page` agree |
| Vmm.AddressSplit | kernel/modules/memory/vmm.c:40-55 | directory index, table index and offset recombine to the address |
| Vmm.DirThroughSelfMap | kernel/modules/memory/vmm.c:18-36 | through the directory's own slot, `page_dir[i]` is word i of the directory's frame |
| Vmm.TableThroughSelfMap | kernel/modules/memory/vmm.c:24-47 | through that slot, word j of slot i's table window is word j of the frame that directory entry i names |
| Vmm.WalkIs | kernel/modules/memory/vmm.c:38-56 | the processor, walking RAM, finds exactly the pages that the view maps into RAM, and the frames it names |
| Vmm.EntryBits | kernel/modules/memory/vmm.c:76 | the word written has the frame of the physical address, and each of its low 12 bits is set if and only if it is set in the address or in the flags |
| Vmm.Mmu.GetPhysAdr | kernel/modules/memory/vmm.c:38-56 | the walk over RAM is lookup in the page map, frame plus offset or NULL; for a table's own window it gives the table's frame |
| Vmm.Mmu.EnsureTable | kernel/modules/memory/vmm.c:60-73 | a slot without a table gets a cleared one in the lowest free frame, entered as present and writable; others keep theirs |
| Vmm.Mmu.MapPage | kernel/modules/memory/vmm.c:58-78 | the entry in RAM is that word and, if the slot had a table, the only word of RAM that changes; a new table is entered as present and writable; the map changes at one page; the use counts stay right if and only if the entry is present and the page was not mapped |
| Vmm.Mmu.MappedMayWrite | kernel/modules/memory/vmm.c:58-97 | while every entry allows writing, the processor may write to every byte of every page that is mapped |
| Vmm.Mmu.UnmapPage | kernel/modules/memory/vmm.c:80-97 | unmapping a mapped page removes one page, keeps the counts right, and with the last page frees the frame the directory entry held; unmapping an unmapped page always breaks one of the two |
| Vmm.Mmu.FreeTable | kernel/modules/memory/vmm.c:92-93 | the frame freed is the very frame the directory entry held |
| Vmm.Mmu.UnmapDir | kernel/modules/memory/vmm.c:99-110 | one table and all its pages go, its frame is free again, its count is 0 |
| Vmm.Mmu.CountMounts | kernel/modules/memory/vmm.c:117-130 | the loops establish the count of present entries of every table, and the counted state if and only if no table is empty |
| Vmm.Mmu.CountTable | kernel/modules/memory/vmm.c:119-129 | one table's count is the number of its present entries; no other count changes |
| Vmm.MapCounts | kernel/modules/memory/vmm.c:76-77 | a count goes on matching if and only if an unmapped page becomes mapped |
| Vmm.UnmapCounts | kernel/modules/memory/vmm.c:86-94 | for a mapped page a right count stays right, and is 0 exactly when the table held no other page |
| Vmm.UnmapUnmapped | kernel/modules/memory/vmm.c:86-94 | for a page that is not mapped the count goes wrong or the table's last page is lost with it |
| Space.MapPageExact | kernel/modules/memory/vmm.c:58-78 | mapping changes the lookup of exactly one page |
| Space.UnmapPageExact | kernel/modules/memory/vmm.c:80-97 | unmapping changes the lookup of exactly one page, also when the table goes |
| Space.MapConsistent | kernel/modules/memory/vmm.c:63-77 | a table stays present exactly when one of its pages is mapped; tables keep distinct frames in use |
| Space.UnmapConsistent | kernel/modules/memory/vmm.c:86-94 | unmapping keeps a table present exactly while one of its pages is mapped |
| Space.BackBetween | kernel/modules/memory/vheap.c:205-213 | with the frames that are needed free, vmalloc's loop backs every page with a frame of its own that was free, and takes exactly one frame a page and one a missing table |
| Space.NextFrames | kernel/modules/memory/vheap.c:205-213 | in every turn there is a frame for the page and one for the table it may need |
| Space.UnbackBetween | kernel/modules/memory/vheap.c:227-231 | after any part of vfree's loop the rest of the region is still backed and nothing else has changed |
| Space.BackUnback | kernel/modules/memory/vheap.c:192-236 | backing pages and unbacking them restores free frames, tables and map |
| Regions.CarveTiled | kernel/modules/memory/vheap.c:113-142 | carving a region keeps the heap tiled by non-empty blocks |
| Regions.CarveCoalesced | kernel/modules/memory/vheap.c:113-142 | carving a region leaves no two free blocks adjacent and headers distinct |
| Regions.ReleaseTiled | kernel/modules/memory/vheap.c:145-190 | freeing keeps the heap tiled |
| Regions.ReleaseCoalesced | kernel/modules/memory/vheap.c:145-190 | merging with both neighbours leaves no two free blocks adjacent |
| Regions.FreePlusUsed | kernel/modules/memory/vheap.c:98-190 | free and used pages of a tiling add up to the whole heap |
| Regions.RunsKeep | kernel/modules/memory/vheap.c:98-190 | after any sequence of allocations and frees: tiled, coalesced, distinct headers, no page gained or lost |
| Regions.CarveRelease | kernel/modules/memory/vheap.c:98-190 | freeing a region straight after allocating it restores the tiling |
| Regions.CarveReleaseExtents | kernel/modules/memory/vheap.c:98-190 | freeing a region straight after allocating it restores the set of free blocks |
| Regions.NeighbourTags | kernel/modules/memory/vheap.c:163-177 | on the pages next to a block, tag > KERNEL_REGION holds if and only if that neighbour is free, and the tag is then its header, whatever stale tags lie inside blocks |
| Regions.CarveTagged | kernel/modules/memory/vheap.c:115-140 | the tag writes of an allocation, in their order, keep the tags right, one-page blocks included |
| Regions.ReleaseTagged | kernel/modules/memory/vheap.c:188-189 | two tag writes are enough for a merged block |
| Regions.ZeroPagesTags | kernel/modules/memory/vheap.c:100-122 | a request that rounds to no page keeps the tags right if and only if no one-page block precedes the block; before the first block the write lands on the entry outside the heap, the index of the last page kheap may use, which it clears |
| HeaderList.ReadsUnique | kernel/modules/memory/vheap.c:24-59 | what a list reads as from its head is determined by the head |
| HeaderList.FreeList.InsertOrderedList | kernel/modules/memory/vheap.c:26-59 | with the head repaired: the item goes to its place by size, the list stays doubly linked and sorted, no region or size changes |
| HeaderList.FreeList.InsertAsWritten | kernel/modules/memory/vheap.c:26-59 | as written the list then holds the item if and only if it was empty or starts with a smaller size; else it reads as before |
| HeaderList.FreeList.RemoveOrderedList | kernel/modules/memory/vheap.c:61-78 | with the head repaired: exactly the item leaves |
| HeaderList.FreeList.RemoveAsWritten | kernel/modules/memory/vheap.c:61-78 | as written the others stay if and only if the item was not the first or was the only one; else the list is empty |
| VHeap.FirstThatFits | kernel/modules/memory/vheap.c:102-111 | the first header large enough in the sorted list belongs to a smallest free block that fits |
| VHeap.NoneFits | kernel/modules/memory/vheap.c:105-108 | at the end of the list no free block fits |
| VHeap.VirtualHeap.constructor | kernel/modules/memory/vheap.c:274-284 | one free block from VHEAP_START to VHEAP_MAX, tagged, described by its header, listed |
| VHeap.VirtualHeap.VregionAlloc | kernel/modules/memory/vheap.c:98-143 | best fit: carves from a smallest block that fits, NULL only when none does, and tags, headers and list stay right. The region is used afterwards if and only if the size does not round to 0; for one that does (0 and above 0xFFFFF000) the address of the first listed block is handed out, the block stays free, and the tags stay right exactly as ZeroPagesTags says |
| VHeap.HeaderStays | kernel/modules/memory/vheap.c:113-140 | the header of the block a region was taken from stays in memory, and is in no list afterwards if and only if the region used the block up; nothing gives it back then |
| VHeap.VirtualHeap.TakeFrom | kernel/modules/memory/vheap.c:113-142 | the list, tag and header writes amount to carving the region from that block |
| VHeap.VirtualHeap.VregionFree | kernel/modules/memory/vheap.c:145-190 | the block and its free neighbours become one free block under the new header; exactly the merged headers are freed |
| VHeap.VirtualHeap.MergeNeighbours | kernel/modules/memory/vheap.c:163-184 | exactly the free neighbours leave list and header map, and start and size become those of the merged block |
| TagPages.MeantLosesNone | kernel/modules/memory/vheap.c:84-92 | backing a page of tags with the frame line 86 takes loses no frame |
| TagPages.WrittenLosesExactly | kernel/modules/memory/vheap.c:84-92 | as written a frame ends in neither map, table nor free set if and only if the page was not mapped |
| Vmalloc.Memory.Vmalloc | kernel/modules/memory/vheap.c:192-216 | a best-fit region whose every page is backed by a distinct frame that was free, and whose every byte can be written to; NULL changes nothing and comes only for flags or when nothing fits; a size that rounds to 0 gets an address that is backed by nothing and stays free |
| Vmalloc.Memory.BackRegion | kernel/modules/memory/vheap.c:205-213 | the loop, whose bound is the unrounded size and wraps at 32 bits, covers the same pages as the rounded size for every size |
| Vmalloc.Memory.Vfree | kernel/modules/memory/vheap.c:218-236 | every page of the region is unmapped and its frame freed, the block is released; NULL and unaligned addresses change nothing |
| Vmalloc.AllocateThenFree | kernel/modules/memory/vheap.c:192-236 | for every size vmalloc, and vfree if there is a region, restore free frames, `available_mem`, page tables, address map and the free blocks; frames that kmalloc takes in vregion_free when its 16-byte cache has to grow are not counted |
| IoSpace.MapRunAround | kernel/modules/memory/vheap.c:246-250 | map_io's loop maps every page of the region, takes one frame a missing table and changes nothing else |
| IoSpace.MapRunFrames | kernel/modules/memory/vheap.c:246-250 | page k of the region leads to frame k of the caller's range, wrapping at 32 bits |
| IoSpace.UnmapRunAround | kernel/modules/memory/vheap.c:264-267 | after any part of unmap_io's loop the rest of the region is still mapped and nothing else has changed |
| IoSpace.MapUnmap | kernel/modules/memory/vheap.c:238-272 | mapping and unmapping restores free frames, tables and map |
| Vmalloc.Memory.MapIo | kernel/modules/memory/vheap.c:238-253 | a best-fit region mapped to the caller's frames, whose every byte can be written to; NULL only when nothing fits, and then nothing changes; a size that rounds to 0 maps nothing and leaves the block free |
| Vmalloc.Memory.UnmapIo | kernel/modules/memory/vheap.c:255-272 | exactly the region's pages are unmapped, no frame of theirs is freed, the block is released; an unaligned address changes nothing |
| Vmalloc.MapThenUnmapIo | kernel/modules/memory/vheap.c:238-272 | for every size map_io, and unmap_io if there is a region, restore free frames, `available_mem`, page tables, address map and the free blocks; frames that kmalloc takes in vregion_free when its 16-byte cache has to grow are not counted |
| RegionRuns.RunsHold | kernel/modules/memory/vheap.c:98-272 | after any sequence of vmalloc, vfree, map_io and unmap_io the regions held do not overlap, each backed one has frames in use of its own that no other region shares, each device one leads to its device, and all other pages are as before; when all has been given back, in any order, free frames, tables, map and free blocks are those of the start; frames that kmalloc takes in vregion_free when its 16-byte cache has to grow are not counted |
| RegionRuns.RunsKeep | kernel/modules/memory/vheap.c:98-272 | what relates a state to the one where nothing was held is kept by every run |
| RegionRuns.AllocateKeeps | kernel/modules/memory/vheap.c:192-216 | a vmalloc among other regions takes nothing from them |
| RegionRuns.MapKeeps | kernel/modules/memory/vheap.c:238-253 | a map_io among other regions takes nothing from them |
| RegionRuns.GiveBackKeeps | kernel/modules/memory/vheap.c:218-272 | vfree or unmap_io of any region held takes nothing from the others, whatever was allocated since |
| RegionRuns.BackedGone | kernel/modules/memory/vheap.c:227-231 | vfree's loop on one of many regions gives exactly that region's frames and the tables nobody else uses |
| RegionRuns.SameBlocks | kernel/modules/memory/vheap.c:145-190 | in coalesced heaps the blocks in use determine the free ones |
| RegionRuns.Caller.constructor | kernel/modules/memory/vheap.c:98-272 | any valid memory is a start |
| RegionRuns.Caller.HeldMayBeWritten | kernel/modules/memory/vheap.c:98-272 | after any calls every byte of every region still held can be written to |
| RegionRuns.Caller.Allocate | kernel/modules/memory/vheap.c:192-216 | the code of vmalloc takes the step of the runs |
| RegionRuns.Caller.Map | kernel/modules/memory/vheap.c:238-253 | the code of map_io takes the step of the runs |
| RegionRuns.Caller.GiveBack | kernel/modules/memory/vheap.c:218-272 | what vfree and unmap_io ask of a region holds for every region in the account, and their code takes the step of the runs |
| Boot.InitMm | kernel/modules/memory/vmm.c:112-134 | on the page tables of kstartup and any well-formed memory map with enough frames init_mm leaves a memory whose invariant holds, so that vmalloc, map_io and the runs above may start; mapped are the kernel, the stack and four pages more; of the eight frames it takes two are lost to the first and the last tag, if the kernel's own frames are reserved |
| Boot.BootDescribes | kernel/modules/kstartup.asm:54-92 | the tables kstartup writes are what the directory describes: kernel, stack, the first 4 MiB and the self-map |
| Boot.BootWritable | kernel/modules/kstartup.asm:60-92 | what stays of the boot tables can be written to |
| Boot.KernelFramesKept | kernel/modules/kstartup.asm:29-31 | the 64 KiB reserved above 1 MiB keep the kernel's frames out of the allocator if and only if it has at most 16 pages, or there is no more memory |
| Boot.StartMmu | kernel/modules/memory/vmm.c:114-130 | init_pmm, unmap_dir(0) and the counting loops establish the invariants of frames, page tables and use counts; the table of the first 4 MiB is a free frame afterwards |
| Boot.InitKheapPages | kernel/modules/memory/kheap.c:449-466 | init_kheap maps two pages and takes four frames for them |
| Boot.BackTag | kernel/modules/memory/vheap.c:80-96 | the code of set_heapinfo takes two frames for a page of tags and maps the second |
| Boot.InitTagPages | kernel/modules/memory/vheap.c:282-283 | the pages of the first and the last tag cost four frames |
| Boot.FirstHeader | kernel/modules/memory/vheap.c:276 | after init_kheap kmalloc has a block for the first header, unless frames are refused |
| Boot.InitVheap | kernel/modules/memory/vheap.c:274-284 | one free block over the whole virtual heap, none of whose pages is mapped |
| Grid.SlabSizesTable | kernel/modules/memory/kheap.c:102-107 | for every size class the halving loop's index into `slab_sizes` is in bounds and finds the class's slab size |
| Grid.TableExact | kernel/modules/memory/kheap.c:56-69 | of the size classes kmalloc comes to exactly those up to 16384 bytes have an entry in `slab_sizes` |
| Grid.SizesExact | kernel/modules/memory/kheap.c:56-69 | the object sizes are the powers of two from 8 to 16384 |
| Grid.GridSpacing | kernel/modules/memory/kheap.c:85-94 | chained objects are at least one size apart |
| Grid.SlabGridCount | kernel/modules/memory/kheap.c:85-94 | the count cache_grow computes is the length of the chain slab_init builds; the objects lie inside the slab and behind its header |
| SlabState.IndexFindsSlab | kernel/modules/memory/kheap.c:234-238 | the index entry of any object's page is the slab that contains it, for one-page and larger slabs |
| SlabState.BlocksDisjoint | kernel/modules/memory/kheap.c:322-374 | blocks in use never overlap, within a slab or across slabs |
| SlabState.OneSlab | kernel/modules/memory/kheap.c:234-238 | no object belongs to two slabs |
| SlabSteps.PopCore | kernel/modules/memory/kheap.c:247-256 | taking the first free object keeps every free list acyclic, duplicate-free, as long as its count, and a partition of the grid with the objects in use |
| SlabSteps.PushCore | kernel/modules/memory/kheap.c:386-390 | giving an object back keeps every free list acyclic, duplicate-free, as long as its count, and a partition of the grid |
| SlabLists.UnhookFloating | kernel/modules/memory/kheap.c:419-431 | the unlinking writes take the slab off its list from any position, and break no other list |
| SlabLists.HookCore | kernel/modules/memory/kheap.c:433-445 | the linking writes put it in front of another list of its cache; all lists stay doubly linked and hold every slab once |
| SlabGrowth.AddSlabInv | kernel/modules/memory/kheap.c:158-245 | a new slab keeps the whole heap well-formed: its pages, objects and index entries clash with no other slab's |
| SlabGrowth.AddCacheInv | kernel/modules/memory/kheap.c:96-156 | a new cache keeps the whole heap well-formed: sizes, lists and header addresses clash with no other cache |
| SlabGrowth.PutOrder | kernel/modules/memory/kheap.c:119-144 | the cache list stays linked both ways and sorted by size, with one cache per size and type |
| SlabGrowth.BlockIsFresh | kernel/modules/memory/kheap.c:209-215 | a block just allocated for a header is no other header's address |
| SlabMoves.MoveCore | kernel/modules/memory/kheap.c:277-317 | a slab moved between lists leaves every slab on exactly one list of its cache |
| SlabMoves.TakeInv | kernel/modules/memory/kheap.c:300-319 | the block handed out was in nobody's use; a slab that runs out moves to the full list, so lists and free counts agree again |
| SlabMoves.GiveInv | kernel/modules/memory/kheap.c:393-447 | kfree repaired: only that block's use ends, and the slab ends on the list its count asks for |
| SlabMoves.SizeKept | kernel/modules/memory/kheap.c:322-374 | blocks held before a kmalloc keep their size |
| KHeap.Kernel.constructor | kernel/modules/memory/kheap.c:449-467 | with the count repaired, init_kheap makes a well-formed heap whose 32-byte cache holds its own header and no caller's block |
| KHeap.Kernel.IncreaseHeap | kernel/modules/memory/kheap.c:71-83 | NULL if and only if KHEAP_MAX would be passed; else fresh pages that no slab claims |
| KHeap.Kernel.SlabInit | kernel/modules/memory/kheap.c:85-94 | threads the objects in address order with NULL at the end, and writes no other link word |
| KHeap.Kernel.CacheCreate | kernel/modules/memory/kheap.c:96-156 | a cache of that size and type is in the list afterwards, with no slab yet; NULL only when frames are refused or the 32-byte cache has no room and no page of address space is left for it; nobody's blocks change; ends because the 32-byte cache is always there |
| KHeap.Kernel.InsertCache | kernel/modules/memory/kheap.c:119-155 | the walk finds the place by size, the writes put the header there, `caches` is the front again |
| KHeap.Kernel.FindFront | kernel/modules/memory/kheap.c:146-149 | the walk back along `prev` ends at the first header |
| KHeap.Kernel.HeaderBlock | kernel/modules/memory/kheap.c:110 | a header gets an unused block of the 32-byte cache and no other cache changes; NULL only when that cache has no room left and frames are refused or the address space does not hold another page |
| KHeap.Kernel.CacheGrow | kernel/modules/memory/kheap.c:158-245 | the cache's only free slab is new and lies at the old end of the heap, with its header in itself or in a block of the 32-byte cache; NULL only when frames are refused or the address space does not hold the slab and the page its header may need, and then the cache has none; nobody's blocks change |
| KHeap.Kernel.ReservePages | kernel/modules/memory/kheap.c:166-207 | the pages claimed are the ones at the old end, with frames asked for with MM_DMA if and only if the cache is of that type; refused frames leave them unclaimed behind the end and everything else as it was |
| KHeap.Kernel.PlaceHeader | kernel/modules/memory/kheap.c:187-213 | the header lies at the start of a slab of one page, else in a block of its own; NULL only for want of such a block |
| KHeap.DmaAdded | kernel/modules/memory/kheap.c:172-183 | a new slab keeps every slab on frames of the kind its cache asks for |
| KHeap.Kernel.PrepareSlab | kernel/modules/memory/kheap.c:166-215 | address space, frames and header for a slab, or NULL for one of the two reasons; the cache is as before; the heap grows by the slab and at most the page its header needs |
| KHeap.Kernel.HeaderFor | kernel/modules/memory/kheap.c:209-213 | the header lies in a block of its own, and getting it does not touch the pages the slab is to have; it costs a page at most, and none if the 32-byte cache has room |
| KHeap.Kernel.PlaceSlab | kernel/modules/memory/kheap.c:187-220 | header and free list of the new slab, which becomes the cache's free one |
| KHeap.Kernel.NewSlab | kernel/modules/memory/kheap.c:187-238 | the header, chain and index writes make exactly the new slab |
| KHeap.Kernel.SlabAlloc | kernel/modules/memory/kheap.c:247-256 | takes the first object of the free list |
| KHeap.Kernel.CacheAlloc | kernel/modules/memory/kheap.c:258-320 | a block of the cache's size and type that nobody held: the first of the first partial slab if there is one, else of a free slab, else of a new one at the old end of the heap; never NULL if the cache has room, else only when frames are refused or the address space does not hold the new slab and the page its header may need; no other block is touched |
| KHeap.Kernel.Kmalloc | kernel/modules/memory/kheap.c:322-374 | for requests up to 16384 bytes: the least size class that holds the request, a power of two from 8 on; the block's cache is of type DMA if and only if bit 0 of the flags is set; a new block, from the first partial slab of its cache if there is one; never NULL if the cache has room, else only when frames are refused or the address space does not hold the slab and a page for each header that is needed; heap stays well-formed; the recursion ends |
| KHeap.Kernel.SizeClass | kernel/modules/memory/kheap.c:329-333 | the doubling loop finds the least size class that holds the request |
| KHeap.Kernel.FindCache | kernel/modules/memory/kheap.c:340-357 | the walk finds the cache of that size and type, and ends without one only if there is none |
| KHeap.Kernel.CacheFor | kernel/modules/memory/kheap.c:340-362 | afterwards there is one cache of that size and type and it is the one returned; an old one changes nothing |
| KHeap.Kernel.SlabFree | kernel/modules/memory/kheap.c:376-391 | an unaligned address changes nothing; else the object is the first free one |
| KHeap.Kernel.Unlink | kernel/modules/memory/kheap.c:419-431 | the pointer writes are the removal of the slab from the list it is on, at whatever position |
| KHeap.Kernel.LinkFront | kernel/modules/memory/kheap.c:433-445 | the pointer writes put the slab before the first of the other list, which may be empty |
| KHeap.Kernel.Kfree | kernel/modules/memory/kheap.c:393-447 | repaired: finds the slab through the index; exactly that block is no longer in use if its address is a multiple of the size, else nothing changes; heap stays well-formed |
| SlabRuns.Run | kernel/modules/memory/kheap.c:322-447 | after any sequence of kmalloc and kfree the blocks held are pairwise disjoint, at least as large as asked for, between 0xE1000000 and 0xF0000000, and share no byte with a header; those asked for with MM_DMA, and no others, lie in DMA caches and on frames asked for with MM_DMA |
| SlabRuns.HeldApart | kernel/modules/memory/kheap.c:322-447 | held blocks do not overlap and lie in the heap's pages |
| SlabRuns.KindsApart | kernel/modules/memory/kheap.c:335-353 | a block held with MM_DMA and one held without never share a slab or a page |
| SlabRuns.HeldFrames | kernel/modules/memory/kheap.c:172-207 | the frames under a held block were asked for with MM_DMA if and only if the block was |
| SlabRuns.HeldOffHeaders | kernel/modules/memory/kheap.c:158-374 | a held block shares no byte with the header of any slab or cache |
| SlabRuns.AllocationHolds | kernel/modules/memory/kheap.c:322-374 | an allocation takes nothing from what is held |
| SlabRuns.ReleaseHolds | kernel/modules/memory/kheap.c:393-447 | a release takes nothing but its block from what is held |
| KHeapAsWritten.AcceptedExactly | kernel/modules/memory/kheap.c:378-384 | slab_free accepts a block in use if and only if its slab's region is aligned to the object size, which up to PAGE_SIZE always holds |
| KHeapAsWritten.TotalIs | kernel/modules/memory/kheap.c:407-415 | the number compared with is too small by the object's position in a one-page slab |
| KHeapAsWritten.FreeAsWrittenExact | kernel/modules/memory/kheap.c:376-447 | kfree as written keeps the heap well-formed if and only if slab_free turns the block down, or the slab was not full and, in a one-page slab, the block is its first object or the new count is neither the capacity nor the number compared with |
| KHeapAsWritten.RefusedUnchanged | kernel/modules/memory/kheap.c:378-384 | for a block that slab_free turns down the rest of kfree changes nothing |
| KHeapAsWritten.UnindexedSlab | kernel/modules/memory/kheap.c:220-232 | when there is no frame for the page of the index, cache_grow returns NULL with the slab already listed, and the heap is not well-formed |
| KHeapAsWritten.InitialCountExact | kernel/modules/memory/kheap.c:455-460 | of all first counts only 126 agrees with the chain; line 458 computes 127 |
| LinkedList.RotatedRing | kernel/modules/misc/linked_list.c:31-35 | a ring is a ring from any of its nodes |
| LinkedList.List.PushBack | kernel/modules/misc/linked_list.c:10-29 | appends to the sequence the ring stands for, on a ring of any length; the ring stays closed and doubly linked |
| LinkedList.List.PushFront | kernel/modules/misc/linked_list.c:31-35 | prepends to it |
| LinkedList.List.PopBack | kernel/modules/misc/linked_list.c:37-62 | takes the last of a list that is not empty |
| LinkedList.List.PopFront | kernel/modules/misc/linked_list.c:64-90 | takes the first, or nothing from an empty list |
| LinkedList.List.Remove | kernel/modules/misc/linked_list.c:92-120 | drops the first occurrence, or nothing if there is none |
| LinkedList.List.InsertWithCompare | kernel/modules/misc/linked_list.c:122-153 | puts the object before the first one at which the comparator agrees, else at the end |
| Scheduling.SleepInsert | kernel/modules/multitasking/sleep.c:21-52 | in every state of the runs: the sleep queue stays sorted by wake time, later sleepers before earlier ones of the same time |
| Scheduling.TickWakesDue | kernel/modules/multitasking/timer.c:21-43 | in every halted state of the runs a tick moves exactly the tasks whose time has come: ready' = reverse(due) ++ ready |
| Scheduling.TickFirstComeFirstServed | kernel/modules/multitasking/timer.c:29-35 | tasks with equal wake times become ready in the order they went to sleep |
| Scheduling.RunsInv | kernel/modules/multitasking/sheduler.c:16-67 | in every state reached from init_multitasking's block_task(READY) each task but the boot task is in exactly one place and its state field names it; the boot task is READY, in no queue and never current again while tasks run |
| Scheduling.HandlersNeverSwitch | kernel/modules/multitasking/sheduler.c:45-60 | in every state reached from there an interrupt finds the switch postponed, and its own schedule() changes nothing |
| Scheduling.ReadyInTurn | kernel/modules/multitasking/sheduler.c:45-67 | from any state of the runs a task at position k of the ready queue becomes current with the (k+1)-th switch, whatever tasks do in between |
| Waking.SleepExact | kernel/modules/multitasking/sleep.c:36-52 | the caller of nanosleep_until goes on with nothing changed if and only if the time has passed; otherwise it is asleep with that wake time and has given up control, and no other task is touched |
| Waking.SleepsUntil | kernel/modules/multitasking/sleep.c:36-68 | in every run: until it runs again, a task that called nanosleep_until is asleep with its wake time while the clock is below it and ready from the first tick on that reaches it; the clock moves by 10000 a tick and by nothing else |
| Waking.RunsTimely | kernel/modules/multitasking/timer.c:21-35 | in every run nobody is asleep whose time has come |
| Waking.PlaceInQueue | kernel/modules/multitasking/sheduler.c:16-67 | interrupts and the idle loop included, only sleepers that the timer wakes get in front of a ready task: its place is known after any events, and it runs with the switch that finds it in front |
| Waking.IdleWakes | kernel/modules/multitasking/sheduler.c:51-66 | with no task ready the idle loop lets interrupts in and ends with the tick that reaches the first wake time; a task whose time has come runs then |
| Scheduling.BlockExact | kernel/modules/multitasking/sheduler.c:23-31 | block_task keeps every task that is not lost in its place if and only if the reason is WAITING |
| Scheduling.BootTaskIsLost | kernel/modules/multitasking/tasks.c:135-139 | block_task(READY) at the end of init_multitasking loses the boot task and no other |
| Scheduling.BlockReadyLoses | kernel/modules/multitasking/sheduler.c:23-31 | for the reason READY block_task loses the caller, and no other task |
| Scheduling.UnblockExact | kernel/modules/multitasking/sheduler.c:33-43 | an interrupt may unblock a task if and only if it waits outside the queues or is lost; a lost one is back in its place then |
| Scheduling.UnblockByTaskExact | kernel/modules/multitasking/sheduler.c:33-43 | called by a running task, unblock_task keeps the invariant if and only if it names the caller, since its schedule() gives up control without queueing it |
| Scheduling.TerminateExact | kernel/modules/multitasking/tasks.c:80-91 | terminate_task keeps the invariant if and only if it is given the current task |
| Scheduler.Kernel.Schedule | kernel/modules/multitasking/sheduler.c:45-50 | returns at once if a switch is postponed, else postpones one: the step of the transition system |
| Scheduler.Kernel.Yield | kernel/modules/multitasking/sheduler.c:16-21 | on the linked lists: the current task joins the end of the ready queue and its state field says so, as in the transition system; no other list changes |
| Scheduler.Kernel.BlockTask | kernel/modules/multitasking/sheduler.c:23-31 | only the current task's state field changes before schedule(), as in the transition system |
| Scheduler.Kernel.UnblockTask | kernel/modules/multitasking/sheduler.c:33-43 | the task joins the end of the ready queue, and inside the idle window schedule() does nothing more, as in the transition system |
| Scheduler.Kernel.Decide | kernel/modules/multitasking/sheduler.c:51-66 | interrupts go on exactly when no task is ready; else the first ready task leaves the queue and is current and WORKING |
| Scheduler.Kernel.NanosleepUntil | kernel/modules/multitasking/sleep.c:36-52 | a time that has passed changes nothing; else the sleep queue gets the task at its place by wake time and the task blocks, as in the transition system |
| Scheduler.Kernel.GetAwakedTask | kernel/modules/multitasking/sleep.c:54-68 | takes the first sleeper if its time has come, else nothing |
| Scheduler.Kernel.DrainSleepers | kernel/modules/multitasking/timer.c:29-35 | the loop over get_awaked_task makes the same queues as the recursive drain whose effect TickWakesDue states |
| Scheduler.Kernel.InterruptHandler | kernel/modules/multitasking/timer.c:21-43 | clock, drain and schedule() amount to the tick of the transition system |
| Scheduler.Kernel.CreateTask | kernel/modules/multitasking/tasks.c:70-71 | the new task is READY and last in the ready queue |
| Scheduler.Kernel.TerminateTask | kernel/modules/multitasking/tasks.c:80-91 | any task joins the terminated ones and the caller gives up control, as in the transition system |
| Scheduler.InitMultitasking | kernel/modules/multitasking/tasks.c:110-140 | the code of init_multitasking on the lists ends in the state the runs start from |
| Kprintf.DigitsValue | kernel/modules/video/kprintf.c:85-92 | the digits of a number evaluate to it, in base 8, 10 and 16 |
| Kprintf.WordDigits | kernel/modules/video/kprintf.c:64-92 | a 32-bit number has at most 11 digits, so the 32-character buffer is never overrun |
| Kprintf.BodyValue | kernel/modules/video/kprintf.c:164-178 | with precision zeros in front they still evaluate to the magnitude |
| Kprintf.FillBuffer | kernel/modules/video/kprintf.c:85-92 | the buffer holds the digits, lowest first |
| Kprintf.FormatNumber | kernel/modules/video/kprintf.c:60-189 | for every 32-bit number, base, width, precision and flags emits padding, sign, prefix, zeros and digits in the layout `Number` writes down without buffers and counters, max(width, content) characters in all, and returns that number |
| IsoNumber.IsoExact | kernel/modules/video/kprintf.c:60-189 | for every integer conversion, 32-bit number, width, precision and flags the text is the one of section 7.19.6.1 of ISO/IEC 9899:1999, with the base, letters and signedness which that section gives the conversion character, if and only if an explicit condition holds |
| IsoNumber.SameNumeral | kernel/modules/video/kprintf.c:67-92 | the digits of any number are its numeral in the digits given for the base, highest first |
| IsoFormat.ItemExact | kernel/modules/video/kprintf.c:367-559 | every item of a format, of any conversion vprintf knows, with any flags, sizes, length and argument, is printed as that section describes it if and only if an explicit condition holds |
| IsoFormat.OutputAgrees | kernel/modules/video/kprintf.c:343-571 | a format all of whose items meet that condition is printed as the standard says, each item with the arguments the ones before it leave |
| IsoFormat.ItemReadsBack | kernel/modules/video/kprintf.c:472-483 | whatever the flags and sizes, %d and %i print the signed and %u the unsigned decimal of the argument, unless it is 0 and no digit is asked for |
| IsoFormat.ItemEvaluates | kernel/modules/video/kprintf.c:485-503 | whatever the flags and sizes, %o prints the argument in octal and %x, %X and %p in hexadecimal, in capital letters for %X only, between spaces and behind no more than a prefix |
| IsoFormat.StringExact | kernel/modules/video/kprintf.c:191-228 | %s prints the standard's text if and only if an explicit condition on width, precision and length holds |
| IsoFormat.Known | kernel/modules/video/kprintf.c:373-559 | the flags and conversions are those of the standard but for floating point and %n |
| Kprintf.NumberReadsBack | kernel/modules/video/kprintf.c:60-189 | for any width, precision and flags a decimal conversion with a digit reads back as the signed or unsigned number |
| Kprintf.Atoi | kernel/modules/video/kprintf.c:45-58 | the position behind the digits, and their value if an int32_t can hold it |
| Kprintf.PrintThenAtoi | kernel/modules/video/kprintf.c:45-189 | atoi reads every number below 2^31 back from its plain decimal form |
| Kprintf.FormatString | kernel/modules/video/kprintf.c:191-228 | prints what is meant if and only if no negative precision enlarges a padding; the count returned is what was printed |
| Vprintf.ReadFlags | kernel/modules/video/kprintf.c:369-403 | in any format: stops at the first character that is no flag, with exactly the flags met |
| Vprintf.ReadSize | kernel/modules/video/kprintf.c:405-414 | in any format: a size is the next argument for `*`, else the value of all the digits there are |
| Vprintf.ReadPrecision | kernel/modules/video/kprintf.c:416-429 | in any format: a precision, also an empty one, switches zero padding off; without one it is 1 |
| Vprintf.ReadLength | kernel/modules/video/kprintf.c:432-466 | in any format: h, hh, l and ll are stepped over, j, z and t are not |
| Vprintf.ReadHeader | kernel/modules/video/kprintf.c:367-466 | in any format: the parts of a conversion in their order, each as long as can be |
| Vprintf.HeaderMeans | kernel/modules/video/kprintf.c:367-466 | on the text of a well-formed item the parts read are the item's, with the arguments it takes |
| Vprintf.Directive | kernel/modules/video/kprintf.c:367-566 | from any character behind `%` one conversion is stepped over, with the early ends at the NUL; on the text of a well-formed item with arguments to match the item is printed, and no other arguments are taken |
| Vprintf.Vprintf | kernel/modules/video/kprintf.c:343-571 | for every format, well-formed or not, and any arguments: the walk reads nothing behind the NUL, ends exactly there, and cuts the format into single characters and conversions; on the text of a list of literals and conversions, with arguments to match, the output and the count are those of the items in order |
| Vprintf.CutUnique | kernel/modules/video/kprintf.c:367-566 | the format alone decides where a conversion ends, so the cut is the only one |
| Vprintf.CutOfItem | kernel/modules/video/kprintf.c:343-571 | on the text of a well-formed item that cut is the item |
| Vprintf.CountIs | kernel/modules/video/kprintf.c:505-509 | the count returned differs from the characters printed by 2 - max(width, 1) for every %c, and by nothing else |
| Vprintf.ShortExact | kernel/modules/video/kprintf.c:262-273 | %hhd and %hd print their argument's value if and only if it is not negative |
| Witnesses.GuardLetsThrough | kernel/modules/memory/pmm.c:129-142 | with 639 KiB of low and 4097 KiB of high memory the last frame can be taken so that alloc_page's test still lets calls through |
| Witnesses.SmallerItemIsLost | kernel/modules/memory/vheap.c:26-59 | after init_vheap and two one-page allocations the first region given back is not in the list |
| Witnesses.FirstTakesAll | kernel/modules/memory/vheap.c:61-78 | a large region given back behind a small free block: taking the small one's header out empties the list |
| Witnesses.SizeTagIsCleared | kernel/modules/memory/vheap.c:98-143 | one page allocated, then vregion_alloc(0xFFFFF001): it succeeds, and the size tag of the page is 0 |
| Witnesses.SameAddressTwice | kernel/modules/memory/vheap.c:98-143 | vregion_alloc(0) first: the next request gets the same address, and kheap's last index entry is cleared |
| Witnesses.OtherPageIsLost | kernel/modules/memory/vmm.c:86-94 | after init_mm unmapping page 0xE1001000, which is not mapped, takes the table with the kernel heap's only page |
| Witnesses.FirstBigBlockIsRefused | kernel/modules/memory/kheap.c:376-384 | the first kmalloc(8192) gives a block that slab_free turns down |
| Witnesses.FirstFreeBreaksHeap | kernel/modules/memory/kheap.c:393-447 | init, kmalloc(32), kfree of that block: the heap is not well-formed |
| Witnesses.NegativePrecisionPads | kernel/modules/video/kprintf.c:191-228 | a negative precision makes the field of a string too wide |
| Witnesses.ShortMinusOne | kernel/modules/video/kprintf.c:262-273 | %hd of -1 prints 65535 |
| Witnesses.CharCountsTwice | kernel/modules/video/kprintf.c:505-509 | %c prints one character and counts two |
| Witnesses.PlusUnsigned | kernel/modules/video/kprintf.c:60-189 | %+u of 5 prints +5 |
| Witnesses.SpaceOverPlus | kernel/modules/video/kprintf.c:60-189 | %+ d of 5 prints a space for the sign |
| Witnesses.OctalPrefix | kernel/modules/video/kprintf.c:60-189 | %#.3o of 7 prints 0007 |
| Witnesses.OctalNothing | kernel/modules/video/kprintf.c:60-189 | %#.0o of 0 prints nothing |
| Witnesses.NegativePrecisionOfZero | kernel/modules/video/kprintf.c:60-189 | %.*d with a negative precision prints nothing for 0 |
| Witnesses.ZeroFlagIsLost | kernel/modules/video/kprintf.c:60-189 | a negative precision switches zero padding off |
| Witnesses.NegativeWidth | kernel/modules/video/kprintf.c:60-189 | a negative `*` width is not the left flag |
| Witnesses.SizeLengthIsLost | kernel/modules/video/kprintf.c:455-466 | %zd takes z for the conversion and prints the d |
| Witnesses.FormatSample | kernel/modules/video/kprintf.c:343-571 | one format with flags, a size given and a size from an argument, a precision, a length, a literal and a percent sign: every character printed, and the count |

## Left out

- KHeap.Kernel.CacheGrow: whether frames are granted is left to chance; the frames themselves are those of Pmm and Vmm and are not followed here, beyond whether they were asked for with MM_DMA. Refused frames for the page of the index (kheap.c:224-232) are excluded, because the heap is not well-formed then, as KHeapAsWritten.UnindexedSlab states.
- KHeap.Kernel.Kmalloc: requests above 16384 bytes are excluded, because cache_create then indexes `slab_sizes` out of its bounds, as Grid.TableExact states; above 2^31 the doubling loop does not end.
- KHeap.Kernel.Kfree: takes an address of a block in use; other addresses make the source read an index entry or a slab header that is none.
- VHeap.VirtualHeap.VregionAlloc: needs a free region, because line 103 reads the first header without a test; failures of set_heapinfo are excluded, the pages of tags being backed already. TagPages states what backing them does.
- VHeap.VirtualHeap.VregionFree: the address that kmalloc returns for the new header is a parameter; kfree of merged headers takes them out of the header map.
- Vmalloc.AllocateThenFree: frames that kmalloc in vregion_free takes for a growing kernel heap (vheap.c:154) are not followed, here and in Vmalloc.MapThenUnmapIo.
- RegionRuns.RunsHold: the same frames are not followed.
- Vmalloc.Memory.Vmalloc: the frames it needs have to be free; the source returns midway with part of the region backed when they run out.
- Vmm.Mmu.MapPage: addresses in the directory's own slot are excluded, and so is the out-of-memory case that lines 66-69 leave open.
- Pmm.FrameAllocator.AllocPages: a fitting run has to exist once the two early refusals are passed; without one the source's search leaves the bitmap.
- Pmm.FrameAllocator.AllocPage: the states without a free frame in which its test lets the call through are excluded, because the search then leaves the bitmap; GuardExact says which they are.
- LinkedList.List.PopBack: needs a list that is not empty, as does Remove; the source tests the wrong pointer (linked_list.c:39, 94).
- LinkedList.List.PushBack: kmalloc of a node is an object allocation, kfree of one is not modelled.
- Scheduling.InterruptHandler: the clock is an integer; its 32-bit wrap is excluded.
- Scheduler.Kernel.CreateTask: only the state field and the queue; stack layout and page directory are left out.
- Kprintf.FormatNumber: widths and precisions near the ends of int32_t are excluded, where the source's arithmetic overflows.
- Kprintf.FormatString: the same widths and precisions are excluded, and texts near the length of an int32_t.
- Kprintf.Atoi: a value that an int32_t does not hold is taken to wrap; the source's arithmetic overflows.
- Vmalloc.Memory.UnmapIo: NULL is no address a caller may pass; the source has no test for it there.
- RegionRuns.Caller.GiveBack: the address kmalloc returns for the header is a parameter, not that of a header in use.
- Boot.InitMm: pages that kmalloc maps for the first header are not followed, and without a block for it the source writes to address 0. At least seven frames have to be there; .bss is taken to be zero.
- RegionRuns.Caller.Allocate: like Map it asks for the frames it needs and a free region, as vmalloc and map_io do; after a size that rounds to 0 the tags may be damaged, so the account is not promised to go on then.
- Vprintf.Vprintf: what is printed is left open for a conversion without an argument of its kind, for widths and precisions beyond 2^28 and for a count that an int32_t does not hold; what %n writes to memory is left out. An argument of type long long is one entry, its low word.
- TLB flushes, port I/O, interrupt controllers, the timer chip, switch_task's registers, boot code but for its page tables, terminal output and debug output.
