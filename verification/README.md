# The FrostixOS memory stack, modelled and proved in Dafny

FrostixOS is a 32-bit x86 kernel written in C. This project models its memory management from the
physical page bitmap up to the virtual memory areas, the intrusive list these layers share, and two
arithmetic cores beside it: the line rasteriser and number printing with its inverse, `strtoul`.
`dafny verify dfyconfig.toml` checks the whole project.

| file | what it models |
|---|---|
| `Kernel.dfy` | status codes, page size, alignment macros, finite ranges of page numbers, sealed invariants |
| `Pmm.dfy` | the physical page bitmap and its set-up from the Multiboot memory map |
| `Vmm.dfy` | two-level paging: hardware walk, recursive window, map, unmap, look-up, rollback |
| `Owners.dfy` | who holds which frame: pages with a frame of their own, growth by such pages, pages taken away |
| `HeapLayout.dfy`, `Heap.dfy` | the kernel heap: block layouts as values; headers, bytes and frames as state |
| `VmaList.dfy`, `Vma.dfy`, `VmaMap.dfy` | virtual memory areas: the page map they stand for; the linked list; immediate mapping |
| `Lists.dfy` | the circular doubly linked lists of `include/misc/list.h` |
| `SlabLayout.dfy`, `SlabCache.dfy`, `SlabPages.dfy`, `Slab.dfy` | slab geometry; a cache as a value and its runs; the frames behind its slabs; headers, freelists and lists as state |
| `Together.dfy` | the heap and a slab cache in one address space |
| `Line.dfy` | `vbe_draw_line` |
| `Format.dfy` | `_ntoa_long`, `_ntoa_format`, `_out_rev` and `strtoul` |

## How the model is built

Every layer whose C code changes state in place is a class, with one method for each C function, and
its loops are loops. Ghost fields (`taken`, `layout`, `areas`, `c`) hold the abstract state, and
`Valid()` ties them to the concrete fields. The method contracts give the new abstract state as a
function of the old one, and the lemmas beside them prove what that function means: that it tiles the
heap, subtracts an interval, hands out nothing twice. The layers are stacked as in the kernel: the
heap, the areas and the slabs call the methods of `Vmm.dfy`, which call those of `Pmm.dfy`, and running
out of memory is stated as an equivalence with a condition on the free frames before the call. What the
heap and the slabs own is stated once, in `Owners.dfy`: every page of theirs has a frame that no other of
these pages, no page table and no free page has, and `Together.dfy` shows that each of the two keeps the
other's pages.

Large invariants are carried closed: `XSeal(...).Intact?` says that the invariant holds, and only the
lemmas that need its content open it, with `assert Open(TheX, 0)` (`Kernel.Open`). This keeps the loops
and the methods small for the verifier.

Conventions:

- Addresses and counters are integers. Where the C code can wrap at 32 bits and the wrap matters, it
  is written out with `Wrap32` (gap search, slab geometry, `strtoul`).
- A pointer is an address that is a key of a store (`hdrs`, `store`, `links`, `slabs`, `words`); 0 is NULL.
- A mask with a power of two is the arithmetic it performs: `AlignDown`, `AlignUp`, remainders.
- Physical memory is 2^20 frames of 1024 words; the hardware walk follows the section on 32-bit
  paging of the Intel 64 and IA-32 Architectures Software Developer's Manual, volume 3A. Translation
  always reads current memory.
- Logging has no effect in the model.
- What `kmalloc` answers to `vm_area_alloc` is a parameter (`node`); both outcomes are covered exactly.

## Where the code does something else than it seems meant to do

The model follows the code. Each entry names what is proved about it.

- `munmap_range` has no predecessor at hand unless it has just split the first area, so unlinking an
  unsplit area behind the head makes the rest of the list the whole list. `VmaList.MunmapExact`: the
  result is interval subtraction if and only if the first area to go is not such an area;
  `VmaList.MunmapLosesPages` is an instance.
- `insert_vm_struct` links an area in front of the head, then compares it with itself and fails;
  `mmap_anonymous` frees the area, and the list head is left pointing at freed memory.
  `Vma.Mm.InsertVm` and `Vma.Mm.MmapAnonymous` state the answer as a function of the arguments and the old
  list, and this state exactly; `VmaList.AutomaticBeforeHead` is an instance that automatic placement runs
  into.
- Together these two are all that can break the list: `VmaList.EveryRun` says that over every run of map
  and unmap calls the list is in order at every point if and only if neither of them occurs.
- A `munmap_range` that finds no memory for its second split stops half-way: it has unmapped the range up to
  the area its end lies in, and has done so for good. `Vma.Mm.MunmapRange` states list, count and pages for
  every outcome, and `VmaList.EveryRun` covers the runs in which this happens.
- `pmm_init` fills the bitmap before it reads the memory map a second time. When the bitmap covers the
  map, the second walk reads bytes of the bitmap and frees no page at all (`Pmm.PageAllocator.WalkBitmap`,
  `Pmm.PageAllocator.Init`); `Pmm.MemsetLosesMemory` is a memory map right behind the kernel for which pages
  should have been free.
- `unmapped_area` adds without looking at the carry. `Vma.Mm.UnmappedArea`: the answer is the lowest
  place, or 0 for none, if and only if a place exists or some candidate reaches the end of the window
  before the addition wraps; below 256 MiB that always holds (`VmaList.SmallRequestsNoticed`),
  above it need not (`VmaList.LargeRequestUnnoticed`).
- `vmm_map_pages` undoes a failed call by unmapping the pages it got to, those included that were mapped
  to the same frame before (`Vmm.AddressSpace.MapPages`).
- A failed immediate mapping unmaps its pages but keeps their frames. `VmaMap.MapImmediate`: it succeeds if and
  only if there are frames for all pages and missing tables and no page is mapped to another frame than the
  one it is due; otherwise it loses exactly the frames of the pages that could be served.
  `VmaMap.TwoFramesTwoPages` is a state in which a frame is lost.
- `kmem_cache_alloc` leaves a slab on `slabs_free` while it still has free objects, and
  `kmem_cache_shrink` gives that slab up. `SlabCache.ShrinkExact`: shrinking keeps every live object if
  and only if no slab on that list has one; `SlabCache.ShrinkDropsLive` is a three-call run that loses one, and
  `SlabCache.EveryRun` says the same of whole runs.
- `new_slab` uses up its address even when `vmm_map_page` refuses it. Where something is mapped from
  0xE0000000 up, as the framebuffer usually is, `kmem_cache_alloc` answers NULL with frames to spare
  (`Slab.KmemCache.KmemCacheAlloc`, an equivalence).
- `kmem_cache_create` accepts alignments above a page, because the space left behind the header
  wraps. `SlabLayout.LayoutExact`: the objects lie in their page if and only if the alignment is at
  most a page; `SlabLayout.OversizedAlignAccepted` is an instance. For sizes so close to 2^32 that rounding
  them up wraps, it divides by zero (`SlabLayout.CreateFaults`, an equivalence; `SlabLayout.LargestSizeFaults` is an
  instance).
- The coalescing pass of `kmalloc` never finds anything to do: `kfree` merges on both sides, splitting and
  growing leave no two free blocks side by side, and so there are none in any run (`HeapLayout.EveryRunMerged`).
- A zero-padded field of more than 32 characters is not filled: the text stays as short as the digit buffer
  (`Format.ReachesWidth`, an equivalence).
- `vmm_map_page` refuses to move a mapped page to another frame only when paging is on
  (`Vmm.AddressSpace.MapPage`).
- `vmm_get_physical_addr` answers 0 both for an unmapped page and for the first byte of frame 0
  (`Vmm.AddressSpace.GetPhysicalAddr`).
- The '#' flag strips leading characters of the number when its length happens to equal the width or
  the precision, and its prefixes are not all readable. `Format.RoundTrip` says for every combination
  of value, sign, base, width, precision and flags whether the 32-bit `strtoul` gives the value back;
  `Format.HashLosesDigits` is an instance that does not.

## Model

| member | source | states |
|---|---|---|
| `Pmm.PageAllocator.FindFreeBit` | src/mm/bitmap.c:35-47 | the byte-skipping search returns the lowest clear bit, and "not found" exactly when no page is free |
| `Pmm.PageAllocator.FindFreeBits` | src/mm/bitmap.c:49-74 | the byte-skipping search returns the lowest start of a run of `count` clear bits, and "not found" exactly when there is none |
| `Pmm.PageAllocator.ScanByte` | src/mm/bitmap.c:58-70 | scanning one byte carries a run across the byte boundary and stops at the lowest complete run |
| `Pmm.PageAllocator.MarkRegionAllocated` | src/mm/bitmap.c:77-96 | exactly the pages a byte range touches leave the free set; counters keep agreeing with the bits |
| `Pmm.PageAllocator.FreeEntry` | src/mm/bitmap.c:165-182 | exactly the pages wholly inside a map entry, the bitmap's excepted, join the free set |
| `Pmm.PageAllocator.FreeAvailable` | src/mm/bitmap.c:163-185 | over the whole map: free are the pages of available entries from 1 MiB up, minus the bitmap |
| `Pmm.PageAllocator.WalkBitmap` | src/mm/bitmap.c:149-185 | where the bitmap covers the map, the walk reads sizes and types from bitmap bytes, which are all ones as no page is free, and so frees nothing |
| `Pmm.PageAllocator.FindMaxAddr` | src/mm/bitmap.c:125-136 | the end of the highest available entry |
| `Pmm.PageAllocator.ReserveBootData` | src/mm/bitmap.c:187-201 | boot information, map, modules and kernel leave the free set, whatever overlaps among them |
| `Pmm.PageAllocator.Init` | src/mm/bitmap.c:119-206 | the bitmap starts at the first page boundary behind the kernel and has the fewest whole pages with a bit for every managed page; no byte of a free page belongs to the kernel, the bitmap, the boot information, the map or a module; with the bitmap clear of the map, every page that lies wholly in an available entry from 1 MiB up and has no such byte is free; with the map covered by the bitmap, no page is free; page 0 never is, and the counters agree |
| `Pmm.BootPages` | src/mm/bitmap.c:119-206 | the page sets added and subtracted by the loops amount to that byte-level condition |
| `Pmm.BootSpare` | src/mm/bitmap.c:138-201 | from the page sets to single bytes: where the bitmap lies, how large it is, and that free pages are exactly the usable ones none of whose bytes is needed |
| `Pmm.TouchesByte` | src/mm/bitmap.c:77-96 | a page is touched by a range if and only if it has a byte of it |
| `Pmm.MemsetLosesMemory` | src/mm/bitmap.c:149-185 | an instance in which the bitmap covers the map and a page is there that should be free, while Init says that none is |
| `Pmm.PageAllocator.AllocPage` | src/mm/bitmap.c:208-221 | the lowest free page is taken, 0 exactly when no page is free; the invariant is kept |
| `Pmm.PageAllocator.AllocPages` | src/mm/bitmap.c:223-238 | the lowest run of free pages is taken, 0 exactly when there is none (the counter test rejects nothing that would fit) |
| `Pmm.PageAllocator.FreePage` | src/mm/bitmap.c:240-251 | exactly that page becomes free, aligned address or not; address 0, a free page and a page beyond the bitmap change nothing |
| `Pmm.PageAllocator.FreePages` | src/mm/bitmap.c:253-268 | exactly those pages become free, counters included; pages beyond the bitmap are ignored |
| `Pmm.RunNeedsPages` | src/mm/bitmap.c:225-226 | a run of n clear bits means at least n free pages, so the early exit is sound |
| `Pmm.PagesConserved` | src/mm/bitmap.c:208-268 | over every run, free and held pages stay disjoint and add up to the same set and the same number |
| `Pmm.NeverHandedOutTwice` | src/mm/bitmap.c:208-268 | at every point of every run, the pages handed out are free and held by nobody |
| `Vmm.WindowReachesDirectory` | src/mm/vmm.c:137-139 | with slot 1023 naming the directory, the hardware walk of 0xFFFFF000 + 4i reaches directory entry i, for reads and writes |
| `Vmm.WindowReachesTable` | src/mm/vmm.c:137-165 | the walk of 0xFFC00000 + (i << 12) + 4j reaches entry j of the table in directory entry i, for reads and writes |
| `Vmm.WalkIsTranslate` | src/mm/vmm.c:340-365 | the hardware walk and the abstract page map agree on every address |
| `Vmm.AddressSpace.constructor` | src/mm/vmm.c:29-31 | a cleared directory gives a valid address space that maps nothing |
| `Vmm.AddressSpace.EnablePaging` | src/mm/vmm.c:137-142 | entering the recursive slot keeps every translation and makes the window usable |
| `Vmm.InstallKeeps` | src/mm/vmm.c:174-182 | a zeroed table in a frame nobody holds changes no translation and keeps the tables a tree |
| `Vmm.PutKeeps` | src/mm/vmm.c:171-184 | writing one entry of one table changes the translation of one page |
| `Vmm.EntryBits` | src/mm/vmm.c:166-184 | the entry written has the frame asked for and, of the flags, PRESENT, RW and USER, bit by bit, and nothing else |
| `Vmm.InstalledEntry` | src/mm/vmm.c:155-162 | the directory entry of a new table names its frame, present and writable, and the table is zeroed |
| `Vmm.MappedKeeps` | src/mm/vmm.c:147-187 | mapping gives the page its frame and flags, leaves every other page alone, and adds at most one table |
| `Vmm.MapStepKeeps` | src/mm/vmm.c:147-187 | present entries keep naming distinct used frames, new tables come from free frames, and free frames plus tables stay constant in number |
| `Vmm.MapStepTables` | src/mm/vmm.c:152-182 | mapping runs out of memory exactly when the slot has no table and no frame is free, and takes a frame exactly when the slot has none |
| `Vmm.RunsShort` | src/mm/vmm.c:189-204 | when one page cannot have its table, the missing tables of the whole range outnumber the free frames |
| `Vmm.SlotsAre` | src/mm/vmm.c:149 | the slots of a range are those from its first to its last page |
| `Vmm.AddressSpace.MapPaged` | src/mm/vmm.c:152-172 | the branch through the window does to memory what the abstract map operation says, or refuses a conflict |
| `Vmm.AddressSpace.MapDirect` | src/mm/vmm.c:173-185 | the branch through physical addresses does the same, without refusing |
| `Vmm.AddressSpace.MapPage` | src/mm/vmm.c:147-187 | both branches realise one abstract operation; conflicts are refused exactly when paging is on; only that page changes |
| `Vmm.AddressSpace.UnmapPage` | src/mm/vmm.c:242-271 | fails exactly on an unmapped page; afterwards that page, and no other, is unmapped, on both branches |
| `Vmm.AddressSpace.GetPhysicalAddr` | src/mm/vmm.c:340-365 | for every address, the window included: the result of the hardware walk, 0 when there is none; non-zero exactly for mapped addresses other than the first byte of frame 0 |
| `Vmm.AddressSpace.Rollback` | src/mm/vmm.c:197-199 | the first n pages are unmapped, no other page changes |
| `Vmm.AddressSpace.MapPages` | src/mm/vmm.c:189-204 | for every range: it succeeds if and only if no page clashes with another mapping and the missing tables number at most the free frames; then all pages map consecutive frames; otherwise the pages before the one that failed are unmapped and all others as before, so that an unmapped range is restored; frames move only from free to tables |
| `Owners.GrewHolds` | src/mm/heap.c:34-49 | pages mapped to frames that were free leave every page that owns its frame its owner, and own theirs |
| `Owners.RangeGrew` | src/mm/heap.c:34-49 | mapping a range to consecutive frames gives each page a frame that no page, table or free page has |
| `Owners.PageGrew` | src/mm/slab.c:45-58 | mapping one page to the frame handed out gives it a frame that no page, table or free page has |
| `Owners.ReleaseHolds` | src/mm/slab.c:214-218 | unmapping a page and freeing its frame leaves every other page its frame |
| `HeapLayout.LiveDisjoint` | src/mm/heap.c:106-184 | in a tiled heap two live blocks never overlap, headers included, and lie inside the heap |
| `HeapLayout.CarveKeeps` | src/mm/heap.c:115-139 | taking a block, split or whole, keeps the tiling and adds exactly one live block |
| `HeapLayout.MergeKeeps` | src/mm/heap.c:85-92 | absorbing the next free block keeps the tiling and the live blocks |
| `HeapLayout.CoalesceKeeps` | src/mm/heap.c:81-97 | the coalescing pass keeps the tiling and the live blocks |
| `HeapLayout.CoalesceRoom` | src/mm/heap.c:81-97 | the pass leaves no two adjacent free blocks and neither makes nor loses room for any request at or below any address |
| `HeapLayout.FreedKeeps` | src/mm/heap.c:275-297 | freeing with two-sided merging keeps the tiling and removes exactly one live block |
| `HeapLayout.FreedIs` | src/mm/heap.c:275-297 | freeing makes one free block of the block and of those neighbours that are free, and leaves every other block alone |
| `HeapLayout.FreedMerges` | src/mm/heap.c:275-297 | where no two free blocks were side by side, none are afterwards |
| `HeapLayout.JoinedSize` | src/mm/heap.c:242-297 | the free bytes grow by those of the block and one header for every neighbour merged |
| `HeapLayout.GrownKeeps` | src/mm/heap.c:51-72 | appending a block at the heap's end keeps the tiling and the live blocks |
| `HeapLayout.CoalescedFit` | src/mm/heap.c:144-175 | after coalescing some block fits if and only if some run of adjacent free blocks, absorbed headers counted, could hold the request |
| `HeapLayout.CoalescedPlace` | src/mm/heap.c:144-175 | the first block that fits after coalescing starts where the lowest run of free blocks with room did |
| `HeapLayout.GrowthHolds` | src/mm/heap.c:27 | the heap grows by the least number of whole pages that hold the request and two headers |
| `HeapLayout.GrowthServes` | src/mm/heap.c:177-183 | the appended block is always large enough and is the first that fits |
| `HeapLayout.MallocAfterGrowth` | src/mm/heap.c:177-183 | the recursive call succeeds in its first scan, whatever a further growth would do |
| `HeapLayout.MallocFacts` | src/mm/heap.c:106-184 | NULL exactly for size 0 or when no free run has room and growing fails (Kmalloc says when it does); otherwise one new live block of the size asked for, and growth only without room |
| `HeapLayout.MallocPlace` | src/mm/heap.c:106-184 | the lowest block that fits is taken and every other block stays; when none fits, the lowest run of free blocks with room; when there is none, the end of the heap |
| `HeapLayout.EveryRunTiles` | src/mm/heap.c:106-298 | over every run of allocation and freeing, double frees of blocks included, the blocks tile the heap and live blocks are pairwise disjoint |
| `HeapLayout.EveryRunMerged` | src/mm/heap.c:81-298 | over every run no two free blocks are side by side, so that the coalescing pass of kmalloc never finds anything to do |
| `HeapLayout.LiveUntilFreed` | src/mm/heap.c:106-298 | a block not freed during a run keeps its address and size to the end of it |
| `HeapLayout.TotalIsSpan` | src/mm/heap.c:230-240 | the sizes and headers of the blocks sum to the span of the heap |
| `HeapLayout.SizesAddUp` | src/mm/heap.c:230-254 | free bytes, live bytes and headers make up the total, at every point of the walk |
| `KernelHeap.SplitLinked` | src/mm/heap.c:117-137 | the pointer writes of a split give every block the header of the split layout: next and prev stay mutually inverse |
| `KernelHeap.AbsorbLinked` | src/mm/heap.c:88-92 | the pointer writes of a merge give every block the header of the merged layout |
| `KernelHeap.HeaderBytes` | src/mm/heap.c:54-58 | the bytes at every block hold the header its layout prescribes, whatever clients write to their payloads |
| `KernelHeap.BlockWritable` | src/mm/heap.c:117-137 | a header write touches no other header and no live payload |
| `KernelHeap.Allocator.ScanFit` | src/mm/heap.c:113-142 | the scan takes the first block that fits, or leaves the layout unchanged |
| `KernelHeap.Allocator.Defragment` | src/mm/heap.c:81-97 | the in-place pass performs the coalescing of the layout; live payloads keep their bytes |
| `KernelHeap.Allocator.MapFrames` | src/mm/heap.c:34-49 | one growth attempt succeeds if and only if the pages ahead are unmapped and there is a run of frames and a frame for every missing table; otherwise it restores every translation, returns every data frame, and the next attempt fails too |
| `KernelHeap.Allocator.AppendBlock` | src/mm/heap.c:51-72 | the header and list writes append the block of the grown layout |
| `KernelHeap.Allocator.Expand` | src/mm/heap.c:25-78 | succeeds if and only if the first attempt can; then the heap grows by the rounded size, each new page has a frame of its own and no other page changes; after three failures translations and blocks are as before and free frames have only become page tables |
| `KernelHeap.Allocator.Kmalloc` | src/mm/heap.c:106-184 | NULL if and only if the size is 0, or no free run has room and growing lacks frames or finds a page of a device in its way; the new heap is that of the layout function; every live payload keeps its bytes; all frames are accounted for, those of the heap pages are distinct and nobody else's, and no page outside the heap changes; the recursion is at most one deep |
| `KernelHeap.Allocator.Kfree` | src/mm/heap.c:256-298 | NULL is ignored; a pointer to a block, live or already free, makes one free block of it and its free neighbours; the free bytes grow accordingly; all other blocks and payloads stay |
| `KernelHeap.Allocator.Krealloc` | src/mm/heap.c:200-228 | for NULL it is kmalloc; NULL if and only if the block is free or there is neither room nor a way to grow; a moved block holds the first min(old, new) bytes, every other live payload is unchanged, the old block is intact on failure |
| `KernelHeap.Allocator.GetTotalSize` | src/mm/heap.c:230-240 | heap_current_end - HEAP_START |
| `KernelHeap.Allocator.GetFreeSize` | src/mm/heap.c:242-254 | the span minus live payloads and headers |
| `VmaList.UpperPages` | src/mm/vma.c:229-234 | the two parts of a split area say about each page what the area said; the offset rule survives |
| `VmaList.SplitPages` | src/mm/vma.c:217-241 | splitting changes the flags and offset of no page |
| `VmaList.SplitKeeps` | src/mm/vma.c:217-241 | splitting keeps the list sorted, disjoint, aligned and its offsets in step |
| `VmaList.CutPages` | src/mm/vma.c:336-394 | area-by-area removal is interval subtraction on the page map |
| `VmaList.CutKeeps` | src/mm/vma.c:336-394 | removal keeps the list sorted, disjoint, aligned and its offsets in step |
| `VmaList.AsCodedIsCut` | src/mm/vma.c:344-391 | what the code leaves up to any point is interval subtraction, except that it may lose the areas before the range |
| `VmaList.MunmapExact` | src/mm/vma.c:344-391 | the page map afterwards is the old one minus the range if and only if the first area to go is the head, was split off, or lies past the range |
| `VmaList.MunmapLosesPages` | src/mm/vma.c:383-386 | an instance in which a page outside the range is lost |
| `VmaList.CountExact` | src/mm/vma.c:372-387 | map_count is the length of the list if and only if the head is not lost |
| `VmaList.EnteredInside` | src/mm/vma.c:348-361 | a node for the second split is needed if and only if the end of the range lies strictly inside an area |
| `VmaList.EnteredStop` | src/mm/vma.c:356-361 | without a node for the second split the loop stops at the start of the area the end of the range lies in, or at the start of the range |
| `VmaList.ReachedIn` | src/mm/vma.c:344-361 | where that is, for every area the end may lie in, and when the call stops before it changes anything |
| `VmaList.NeighboursSuffice` | src/mm/vma.c:175-178 | comparing with the two neighbours finds an overlap exactly when some area of the list overlaps |
| `VmaList.InsertKeeps` | src/mm/vma.c:153-191 | inserting between clear neighbours keeps the list sorted, disjoint and aligned |
| `VmaList.InsertPages` | src/mm/vma.c:153-191 | inserting adds exactly the new area's pages to the page map |
| `VmaList.AutomaticBeforeHead` | src/mm/vma.c:180-184 | a list and the lowest place in it, which lies before the head and overlaps nothing |
| `VmaList.OverlapIsTaken` | src/mm/vma.c:153-191 | an area overlaps the list if and only if one of its pages is mapped |
| `VmaList.SmallRequestsNoticed` | src/mm/vma.c:16-63 | below 256 MiB a failing search always notices |
| `VmaList.LargeRequestUnnoticed` | src/mm/vma.c:16-63 | a large request for which nothing fits and the search does not notice |
| `Vma.AutomaticOutcome` | src/mm/vma.c:268-280 | of the search's candidate: none means nothing fits and the search noticed; a wrapping one means nothing fits and it did not; any other is the lowest place |
| `VmaList.StepInOrder` | src/mm/vma.c:153-394 | one call, whether it finds nodes for its splits or not, keeps order, offsets and count if and only if it is no head insertion and no removal that loses the head |
| `VmaList.EveryRun` | src/mm/vma.c:153-394 | over every run, lack of nodes included, the list is in order at every point if and only if neither occurs, and then it stands for the page map of the calls |
| `Vma.Mm.FindVma` | src/mm/vma.c:114-125 | the first area that ends after the address |
| `Vma.Mm.FindVmaPrev` | src/mm/vma.c:128-150 | the same together with its predecessor |
| `Vma.Mm.InsertVm` | src/mm/vma.c:153-191 | succeeds exactly for a non-empty area that overlaps nothing and does not belong before the head of a non-empty list; the state after every failure |
| `Vma.Mm.UnmappedArea` | src/mm/vma.c:16-63 | the lowest page-aligned place in the window, or 0 for none, exactly when one exists or a candidate's end does not wrap |
| `Vma.Mm.SplitVma` | src/mm/vma.c:217-241 | the list becomes the split list with one more node exactly when the address is strictly inside the area and a node is had |
| `Vma.Mm.UnmapPages` | src/mm/vma.c:363-365 | exactly the pages of the area lose their translation |
| `Vma.Mm.RemoveFrom` | src/mm/vma.c:356-391 | out of memory if and only if the end lies strictly inside an area and no node is had; the list, count and unmapped pages, for any number of areas, up to the end or the early stop |
| `Vma.Mm.MunmapRange` | src/mm/vma.c:336-394 | out of memory if and only if a needed split has no node; nothing changes when the first one has none; otherwise the list, the count and the pages that lose their translation are those of the range up to the point reached, and valid, counted and interval subtraction if and only if the head is not lost |
| `Vma.Mm.RemoveVm` | src/mm/vma.c:194-213 | the node leaves the list and its next pointer is cleared; every other node stays |
| `Vma.Mm.MmapAnonymous` | src/mm/vma.c:250-329 | the answer as a function of arguments, old list and node: refused, no place, no node, overlap or head insertion; with VM_MAP_IMMEDIATE it then succeeds if and only if all pages can be served, and a failure takes the area off the list again; the list and the address space after every outcome |
| `VmaMap.MapOne` | src/mm/vma.c:302-315 | for every page: mapped to the lowest free frame if and only if there are frames for it and a missing table and the page is not mapped to another frame while paging is on; else nothing changes |
| `VmaMap.NeedIs` | src/mm/vma.c:300-313 | frames counted page by page, one more at each new slot without a table, are the pages plus the missing tables |
| `VmaMap.ServedIs` | src/mm/vma.c:300-322 | all pages can be served if and only if there are frames for pages and missing tables and no page is blocked |
| `Pmm.SkimRank` | src/mm/bitmap.c:208-221 | after k allocations the next frame is the one with k free frames below it at the start |
| `VmaMap.MapImmediate` | src/mm/vma.c:298-324 | for every range: succeeds if and only if all pages can be served, each then mapped to the frame it is due; otherwise the answer tells memory from conflict, the pages served are unmapped, their frames lost, and an unmapped range is restored |
| `VmaMap.TwoFramesTwoPages` | src/mm/vma.c:303-322 | two free frames and a slot without a table: a call for two pages fails and loses a frame |
| `Lists.AddTailRing` | include/misc/list.h:34-53 | the four writes of an insertion before the head append one entry to a well-formed ring |
| `Lists.DelRing` | include/misc/list.h:59-71 | the two writes of a removal leave a well-formed ring without that entry |
| `Lists.RingFrame` | include/misc/list.h:34-99 | a ring none of whose nodes is written stays the same ring |
| `Lists.ListStore.ListAddTail` | include/misc/list.h:50-53 | one entry appended, nodes of other lists untouched |
| `Lists.ListStore.ListDel` | include/misc/list.h:66-71 | one entry removed, its links cleared, nodes of other lists untouched |
| `Lists.ListStore.ListDelInit` | include/misc/list.h:74-78 | one entry removed and made a list of its own |
| `Lists.ListStore.ListMoveTail` | include/misc/list.h:94-99 | one entry moves from one ring to the end of another |
| `Lists.ListStore.ListEmpty` | include/misc/list.h:81-84 | true exactly for the empty ring |
| `SlabLayout.FirstObject` | src/mm/slab.c:128-131 | the offset computed at address 0 is the offset at every page-aligned address |
| `SlabLayout.AcceptedLayout` | src/mm/slab.c:104-138 | an accepted layout with an alignment up to a page fits a page and holds at least the requested size |
| `SlabLayout.CreateExact` | src/mm/slab.c:104-138 | objects have the least multiple of the alignment that holds the size, and there are as many as the page has room for; a request is refused if and only if its arguments are bad or there is no room for one object |
| `SlabLayout.ObjectFacts` | src/mm/slab.c:70-80 | every object is aligned, behind the header, inside the page, and `obj_to_slab` leads back to its slab |
| `SlabLayout.ObjectsDisjoint` | src/mm/slab.c:74-80 | objects of a slab do not overlap |
| `SlabLayout.LayoutExact` | src/mm/slab.c:128-138 | for an accepted layout the objects lie inside their page if and only if the alignment is at most a page |
| `SlabLayout.OversizedAlignAccepted` | src/mm/slab.c:130-132 | an alignment above a page that is accepted |
| `SlabLayout.CreateFaults` | src/mm/slab.c:124-132 | the division by zero happens if and only if rounding the size up does not fit 32 bits |
| `SlabLayout.LargestSizeFaults` | src/mm/slab.c:124-132 | an instance of it |
| `SlabCache.AddSlabKeeps` | src/mm/slab.c:60-85 | a new slab keeps the cache invariant and makes no object live |
| `SlabCache.BuiltOrder` | src/mm/slab.c:70-82 | the objects of a new slab lie side by side from the first aligned address behind its header, and the freelist starts with the highest |
| `SlabCache.AllocKeeps` | src/mm/slab.c:224-261 | NULL exactly when no slab has room and none can be had; otherwise an object that was not live becomes live and nothing else changes; `slabs_full` keeps holding exactly the slabs without free objects |
| `SlabCache.AllocLists` | src/mm/slab.c:226-258 | the object is the first on the freelist of the first partial slab, else of the first on `slabs_free`, else of a new one; the slab becomes the last full one with its last object and stays on its list otherwise; other slabs keep list, order and freelist |
| `SlabCache.AllocFails` | src/mm/slab.c:45-58 | a failed allocation changes nothing but the next slab address, and that only when the mapping failed |
| `SlabCache.AllocSpoils` | src/mm/slab.c:230-258 | an allocation leaves a live object on `slabs_free` if and only if it takes one of several from there |
| `SlabCache.ChainCount` | src/mm/slab.c:244 | a freelist lacks an object of its slab if and only if it is shorter than the slab's object count |
| `SlabCache.FreeKeeps` | src/mm/slab.c:264-298 | freeing a live object makes exactly that object free, keeps the invariant, and never meets the double-free guard |
| `SlabCache.FreeLists` | src/mm/slab.c:280-297 | the object goes first on its freelist; the slab goes last on `slabs_free` if and only if none of its objects is live any more, else last on `slabs_partial`; other slabs keep list, order and freelist, and `slabs_free` gets no live object |
| `SlabCache.ShrinkExact` | src/mm/slab.c:199-221 | shrinking keeps every live object if and only if no slab on `slabs_free` has one |
| `SlabCache.ShrinkDropsLive` | src/mm/slab.c:230-258 | a three-call run after which shrinking drops a live object |
| `SlabCache.FreshCache` | src/mm/slab.c:104-142 | for every accepted size and every alignment up to a page, a new cache meets the invariant and has no live object |
| `SlabCache.StepKeeps` | src/mm/slab.c:199-298 | one call keeps the invariant, and keeps live objects and held objects equal if and only if it is no such shrink |
| `SlabCache.EveryRun` | src/mm/slab.c:199-298 | over every run of alloc, free and shrink the invariant holds, and the live objects are exactly those handed out and not given back at every point if and only if no shrink meets a slab with a live object on `slabs_free` |
| `SlabCache.NeverTwice` | src/mm/slab.c:224-298 | at every point of every run up to such a shrink the object handed out is held by nobody |
| `SlabPages.MapSlab` | src/mm/slab.c:45-58 | what new_slab gets is decided by the free frames and by what its address maps already; a frame it cannot map is given back; a new page has a frame nobody else has |
| `SlabPages.ReleaseSlab` | src/mm/slab.c:214-218 | the page is unmapped, its frame is free again, every other slab keeps its own |
| `Slab.KmemCache.constructor` | src/mm/slab.c:140-142 | three empty, separate rings make a valid cache in any valid address space |
| `Slab.KmemCache.BuildFreelist` | src/mm/slab.c:70-82 | the words written thread all objects, last one first, and touch no other slab |
| `Slab.KmemCache.AddNewSlab` | src/mm/slab.c:43-88 | a new slab at the end of the partial ring, only its address used up, or nothing, as the free frames and the page at its address decide; one frame moves, besides tables, and every slab page has a frame of its own |
| `Slab.KmemCache.KmemCacheAlloc` | src/mm/slab.c:224-261 | the in-place code performs the abstract allocation: headers, inuse, freelists and rings agree afterwards, its assertion holds, and NULL is answered if and only if no slab has room and a new one lacks a frame, a table or its address |
| `Slab.KmemCache.KmemCacheFree` | src/mm/slab.c:264-298 | the in-place code performs the abstract free, with the slab on `slabs_free` if and only if all its objects are free and on `slabs_partial` otherwise; NULL and an object of another cache are left alone |
| `Slab.KmemCache.KmemCacheShrink` | src/mm/slab.c:202-221 | the slabs of the free ring are released in order: exactly their pages are unmapped, one frame becomes free for each, and the other rings, slabs and owners of frames stay |
| `Together.Kmalloc` | src/mm/heap.c:106-184 | kmalloc keeps heap and cache valid and their pages on frames of their own |
| `Together.CacheAlloc` | src/mm/slab.c:224-261 | so does kmem_cache_alloc |
| `Together.CacheFree` | src/mm/slab.c:264-298 | so does kmem_cache_free |
| `Together.CacheShrink` | src/mm/slab.c:202-221 | so does kmem_cache_shrink, which gives frames back |
| `Line.ClosedForm` | src/drivers/vbe.c:315-325 | keeping the error term in range picks exactly the rounded minor position |
| `Line.StepForm` | src/drivers/vbe.c:323-325 | one major step moves the minor axis exactly when the closed form does |
| `Line.NextPixel` | src/drivers/vbe.c:323-325 | the two tests on the error term lead from each pixel of the line to the next, in all octants |
| `Line.PixelInBox` | src/drivers/vbe.c:307-329 | the line starts and ends at its end points and stays in their bounding box |
| `Line.NearLine` | src/drivers/vbe.c:307-329 | the offsets of every pixel are within half a unit of the ideal line on the shorter axis |
| `Line.PixelExact` | src/drivers/vbe.c:318-326 | a point is pixel k if and only if it is k steps along the longer axis and the nearest such point to the line, of two equally near ones the one closer to the start |
| `Line.PixelNear` | src/drivers/vbe.c:318-326 | every pixel is within half a unit of the line through the end points, with signs, in all octants |
| `Line.Neighbours` | src/drivers/vbe.c:323-325 | consecutive pixels are neighbours, one step closer on the longer axis |
| `Line.PaintsTheLine` | src/drivers/vbe.c:318-326 | exactly the pixels of the line change colour |
| `Line.PaintedLine` | src/drivers/vbe.c:318-326 | exactly the points the end points determine change colour |
| `Line.Screen.PutPixel` | src/drivers/vbe.c:139-170 | pixels off screen, before initialisation or at an unknown depth are refused and nothing is painted |
| `Line.Screen.DrawLine` | src/drivers/vbe.c:307-329 | terminates; succeeds if and only if both end points are accepted; paints exactly the points nearest to the line between them, as many as the longer extent plus one, in order; otherwise stops at the first refused pixel |
| `Format.ValueOfDigits` | src/lib/libc/printf.c:270-278 | the digits of a value denote that value |
| `Format.FitsBuffer` | src/lib/libc/printf.c:254-278 | every 32-bit value has at most 32 digits in every base from 2 to 16 |
| `Format.WriteDigits` | src/lib/libc/printf.c:270-278 | the digit loop ends because the value is used up, and leaves its digits |
| `Format.OutRev` | src/lib/libc/printf.c:168-194 | the buffer reversed, with blanks up to the width in front, or behind under '-', or none under '0' alone |
| `Format.NtoaFormat` | src/lib/libc/printf.c:197-251 | zero padding, '#' and sign as the buffer has room, then the field |
| `Format.NtoaLong` | src/lib/libc/printf.c:254-282 | the printed text part by part: numeral without leading zeros, zero padding, prefix, sign and blanks as flags, precision and width ask; at least as long as the width unless zeros would overrun the buffer; with the exact condition under which it reads back as the value |
| `Format.PrintedMade` | src/lib/libc/printf.c:197-282 | every printed text has these parts |
| `Format.Justified` | src/lib/libc/printf.c:174-193 | right-justified text ends in the last digit of the value, left-justified text starts with sign, prefix or digits |
| `Format.Appearance` | src/lib/libc/printf.c:226-248 | a minus or plus sign is shown if and only if asked for and there is room; letters are upper case exactly under the flag, but for the b of base 2 |
| `Format.NumberLength` | src/lib/libc/printf.c:203-225 | how many characters the number has, from precision, width and flags |
| `Format.ReachesWidth` | src/lib/libc/printf.c:174-215 | the text reaches the width if and only if zeros were not to fill more than the buffer |
| `Format.LeadingZeros` | src/lib/libc/string.c:244-260 | leading zeros do not change what a numeral denotes |
| `Format.RoundTrip` | src/lib/libc/printf.c:197-282 | for every 32-bit value, sign, base, width, precision and flags, the 32-bit value read from the printed text in that base is the value if and only if no minus sign is shown, '#' strips no digit, and its prefix is one strtoul reads |
| `Format.PlainRoundTrip` | src/lib/libc/string.c:214-265 | without '#' and minus sign the round trip always closes |
| `Format.HashLosesDigits` | src/lib/libc/printf.c:217-225 | an instance in which '#' loses digits |
| `Format.Strtoul` | src/lib/libc/string.c:214-265 | the value, modulo 2^32, of the longest digit run behind blanks, sign, detected base and "0x", and the offset where it ends |
| `Format.ReadsNumeral` | src/lib/libc/string.c:219-260 | the value and the end of a numeral behind blanks and a plus sign, in the base asked for; for base 0 decimal, octal behind "0", hexadecimal behind "0x" |
| `Format.PrintAndRead` | src/lib/libc/string.c:214-265 | printing and then strtoul gives the value back if and only if that condition holds |

## Left out

- TLB invalidation, CR0 and CR3: translation reads current memory.
- `vmm_init`'s identity mappings, its low page table and the framebuffer mapping: repeated calls of the modelled `vmm_map_page`.
- `vmm_unmap_pages`: after it clears a directory entry it reads the same table through the cleared window.
- `vmm_map_range`, `vmm_is_range_mapped`, `vmm_map_if_not_mapped`: wrappers over the modelled operations.
- `heap_init` and `kcalloc`: one call of `heap_expand`; one call of `kmalloc` and a memset.
- `kfree` and `krealloc` of pointers that belong to no block: the code follows whatever it finds there.
- `mark_region_free`, `mm_destroy`, `dump_mmap`: unused, or a plain walk of the list.
- The raw layout of the Multiboot memory map: the entries are given as a sequence.
- `kmem_cache_destroy`, constructor callbacks, the list of all caches and the cache's name; two caches that share next_slab_virt.
- `kmem_cache_free` of an object that is already free: liveness is a precondition.
- `list_add`, `list_move` and the iteration macros: the mirror images of the modelled operations.
- Floating-point printing, the `%` parser of `printf.c`, and the size limit of its output functions.
- `vbe_draw_circle`, colour conversion, the byte layout and pitch of the framebuffer.
- `src/fs/tar.c`, terminal, fonts, logger, shell, panic, ACPI and the device drivers.
- Pmm.PageAllocator.Init: a bitmap that covers the memory map only in part, the boot information structure or the module array is not modelled; the bytes then read are a mixture.
- Pmm.PageAllocator.FreePage: freeing page 0 or a page in the padding between the managed pages and the end of the bitmap is excluded; it would break the invariant.
- Vmm.AddressSpace.MapPage: addresses in the recursive window, where mapping would rewrite the directory, are excluded, for unmapping too.
- Vma.Mm.UnmappedArea: areas that end above the search window are excluded.
- Vma.Mm.MunmapRange: areas that reach into the recursive window are excluded.
- Vma.Mm.MmapAnonymous: with VM_MAP_IMMEDIATE, areas that reach into the recursive window are excluded.
- Vma.Mm.RemoveVm: of an area that is in the list, as its only caller has it.
- KernelHeap.Allocator.Kmalloc: growth stays below 0xE0000000, and what is mapped between the end of the heap and that address is memory the page allocator does not manage, such as a framebuffer; the source checks neither.
- Together.Kmalloc: one heap and one cache; the areas of mmap_anonymous are not part of that invariant.
- Slab.KmemCache.KmemCacheFree: an object of this cache must be live.
- Slab.KmemCache.PopObject: clears the first word of the object, the only one the allocator reads, not the whole object.
- Line.Screen.PutPixel: takes a colour as one number and the framebuffer as a map from coordinates to colours.
- Format.Strtoul: takes a string without its terminating NUL; a NUL inside it ends the number.
