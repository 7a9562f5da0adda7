# A verified model of the kernel's core algorithms

This project models the parts of the kernel that have the most state and the most arithmetic, and proves what they
are for. It covers virtual memory with demand paging and fork, the physical page allocator, the four-level page
tables, the boundary-tag arena, intrusive lists, threads with events and pipes, the device rings of the xHCI and VirtIO block drivers,
quicksort, descriptor tables, IPv4 checksums and fragments, and timers. The kernel runs on one core and its system
calls run with interrupts off, so every operation between two points where a thread can lose the processor is one
step of the model.

Code that updates objects step by step is a class with the same fields and the same loops. Its methods are proved
against specification functions or predicates on values, and the lemmas about those say what the code is for.
`dafny verify dfyconfig.toml` checks everything.

## Files

| file | contents |
|---|---|
| Lists, IntrusiveList | lists without repetition, and the circular linked lists that implement them |
| PhysicalMemory | page structs, free list, contiguous runs |
| RangeList, FrameOwnership, MemoryMeaning | interval lists and the map from addresses to ranges that they implement; who owns a page; what a load returns |
| AddressSpace, MemorySyscalls, Fork | an address space as an object, `add_range`, faults, `access_memory`, `munmap`, `mprotect`, `madvise`, `fork` |
| MemoryRuns, RemapLimits | any number of address spaces over any run of operations, what each step does and that others do not see it; exactly when remapping keeps file offsets and drops old pages |
| PageTables | the radix tree of page tables as a flat map |
| TableRefinement | that such a tree implements the entries and tables that the address space works with, through lookups, entries, invalidation and the copy in `fork` |
| SegmentList, BoundaryTags, VmemArena, Fragmentation | tiling by boundary tags, the effect of allocating and of freeing as it is done and as it is meant, the arena with its freelists and hash table, what becomes of it over a run |
| Scheduling, Pipes, BoundedWaiting, KernelObject | threads, run queue, events and pipes as a transition system; how long a thread waits; the same operations on the kernel's objects |
| RingBuffer | the circular buffer inside a pipe |
| XhciRing, VirtioBlock | the rings shared with devices, with the device as the other party |
| Algorithm, DescriptorTables, Ipv4, Timers | quicksort and alignment; descriptor numbers and reference counts; checksums and fragments; time arithmetic |

## Where the code falls short of what it is for

The code is modelled as it is; where a repaired form is proved beside it (the merge in `xfree`), the row says so. Each
of these is proved as an exact condition, and for most of them a lemma or method gives an input for which it goes wrong.

- `xfree` never merges free segments. For the type of a neighbour it reads the low half of the neighbour's base, so
  that a segment is freed where it is unless a neighbour's base is a multiple of 2^32, and then memory in front of that
  neighbour's tag is written. What it does is the merge that is meant exactly if no neighbour is free
  (`BoundaryTags.FreedInPlaceIsMergeIff`), an allocation is undone exactly if it took a whole segment
  (`BoundaryTags.FreedInPlaceUndoesAllocIff`, `VmemArena.Arena.AllocThenFree`), and over any run no block reaches
  across a place where a segment once started (`Fragmentation.NeverMergedAgain`; `Fragmentation.SplitIsNotUndone`,
  `Fragmentation.FirstBlockIsMisread`).
- `EnqueueRing::enqueue` does not look at what is outstanding: it overwrites a TRB that was not taken exactly if ever
  more than 255 are (`XhciRing.NoneLostIff`, `XhciRing.OverwritingRun`).
- A signal interrupts a wait even if the waiting thread masks it (`Scheduling.SignalInterrupts`,
  `Pipes.MaskedSignalInterrupts`).
- Of a request that is not page-aligned, which `mmap` with MAP_FIXED passes on, `invalidate_pages` misses the last page
  (`RemapLimits.SweepReachesAllIff`), and deleting such a range leaves an entry for a free page
  (`RemapLimits.DeleteWithoutSweeping`).

- In a file mapping that was trimmed at the front earlier, a hole, a change of the protection of a part of it, and
  `fork` move pages that are not resident to another place in the file (`RemapLimits.HoleKeepsFileOffsetsIff`,
  `MemorySyscalls.ProtectKeepsFileOffsetsIff`, `MemorySyscalls.ProtectKeepsBytesIff`, `Fork.ForkKeepsFileBytesIff`;
  `RemapLimits.UnmappingTrims` and the three lemmas after it).
- A page that was resident before shows through a new mapping whenever its old range sticks out of the new one
  (`RemapLimits.OldPageShowsThroughIff`, `RemapLimits.FixedMappingReadsOldByte`).
- `find_page` takes the frame just behind a region for one of its own (`PhysicalMemory.FindPageRightIff`,
  `PhysicalMemory.FindsFrameBehindRegion`).
- `alloc_contiguous_pages` for more pages than a region has searches on behind its page structs: exactly if no earlier
  region has a run (`PhysicalMemory.PageAllocator.FindRun`). `absorb_memmap_entry` runs off in the same way for an
  entry that it rounds down to no page (`PhysicalMemory.PageAllocator.AbsorbMemmapEntry`,
  `PhysicalMemory.WholePageRoundedAway`).
- `allocate_fdnum` returns a number below its minimum when the minimum exceeds the size of the table
  (`DescriptorTables.LowestIff`, `DescriptorTables.TooLow`), and `dup3` leaves the number of descriptors one too low
  (`DescriptorTables.Dup3CountsOneTooFew`).
- With a whole lap of TRBs outstanding, an xHCI controller that is still at the link TRB stalls
  (`XhciRing.StallsAtLinkIff`, `XhciRing.StallReached`).
- With 42 requests in flight, the VirtIO block driver turns away the next block of a transfer, although the three
  descriptors of the block that was just completed are about to be free (`VirtioBlock.NoRoomIff`,
  `VirtioBlock.BlockQueue.HandleCompletion`, `VirtioBlock.TurnedAway`).
- IPv4 fragments whose offset needs more than 16 bits wrap around (`Ipv4.ReassemblesIff`, `Ipv4.LongPayloadIsLost`).
- `TimeSpec` subtraction loses a nanosecond whenever it borrows (`Timers.MinusExactIff`, `Timers.FiresEarly`).
- `write_truncate` drops more old elements than it has to, exactly if the buffer is neither full nor has room, and the
  new elements are fewer than it holds (`RingBuffer.DropsNoMoreThanNeededIff`, `RingBuffer.DropsTooMany`).

## Model

| member | source | states |
|---|---|---|
| IntrusiveList.ListHead.AddBefore | kernel/kernel/src/klib/list.hpp:36-41 | the entry is in the list in front of this one; for one that is on the list already and is added to its end, a walk stops behind it and the links are no list |
| IntrusiveList.ListHead.Add | kernel/kernel/src/klib/list.hpp:28-33 | the entry is in the list behind this one |
| IntrusiveList.ListHead.Remove | kernel/kernel/src/klib/list.hpp:44-49 | the list is the same without the entry, whose links are cleared |
| IntrusiveList.ListHead.PopFront | kernel/kernel/src/klib/list.hpp:115-120 | takes the first entry off, or returns null exactly if there is none |
| IntrusiveList.ListHead.IsEmpty | kernel/kernel/src/klib/list.hpp:51-53 | true exactly for a list without entries |
| IntrusiveList.ListHead.OneWalk | kernel/kernel/src/klib/list.hpp:10 | the links from a head are a list of one sequence of entries only |
| PhysicalMemory.PageStructsFitInReservedPages | kernel/kernel/src/mem/pmm.hpp:29-33 | a region of at least one page has room in its reserved pages for its header and the structs of all usable pages, and the reserved pages lie inside it |
| PhysicalMemory.AbsorbedInsideEntry | kernel/kernel/src/mem/pmm.cpp:31-38 | the pages taken from a memory map entry lie inside the entry, whatever its alignment |
| PhysicalMemory.PageAllocator.AbsorbMemmapEntry | kernel/kernel/src/mem/pmm.cpp:31-62 | a new region appends its usable pages, in order, to the free list and changes no other page; it runs off exactly for an entry that is rounded down to no page |
| PhysicalMemory.WholePageRoundedAway | kernel/kernel/src/mem/pmm.cpp:32-38 | which can be an entry that holds a whole page |
| PhysicalMemory.PageAllocator.AllocPage | kernel/kernel/src/mem/pmm.cpp:109-121 | takes the head of the free list, which is a free page; None (the panic) exactly when the list is empty; a page stays on the list exactly when its free bit is set, and the count is the length of the list |
| PhysicalMemory.PageAllocator.FreePage | kernel/kernel/src/mem/pmm.cpp:123-131 | a page in use becomes the head of the free list and nothing else changes |
| PhysicalMemory.PageAllocator.FindPage | kernel/kernel/src/mem/pmm.cpp:92-107 | the loop over the regions finds what the first region says that does not start behind the frame or end in front of it |
| PhysicalMemory.FindPageRightIff | kernel/kernel/src/mem/pmm.cpp:95 | that is the struct of a frame that has one, and nothing for any other frame, exactly if that region does not end at the frame |
| PhysicalMemory.FindsFrameBehindRegion | kernel/kernel/src/mem/pmm.cpp:95 | a region for which it goes wrong |
| PhysicalMemory.PageAllocator.FindRun | kernel/kernel/src/mem/pmm.cpp:133-149 | the skip past the first used page loses nothing: the run found is the first one that a search from every start would find, none is reported only if there is none, and the search runs off exactly at the first region that is shorter than the run, if no earlier one has a run |
| PhysicalMemory.PageAllocator.AllocContiguousPages | kernel/kernel/src/mem/pmm.cpp:133-163 | takes exactly the pages of that first run off the free list |
| PhysicalMemory.PageAllocator.FreeContiguousPages | kernel/kernel/src/mem/pmm.cpp:165-170 | gives back exactly the pages of a run that have a page struct, up to the first frame for which find_page goes wrong |
| PhysicalMemory.PageAllocator.AllocThenFreeContiguous | kernel/kernel/src/mem/pmm.cpp:133-170 | freeing a run right after allocating it restores the set of free pages and their number |
| RangeList.ViewIsUnique | kernel/kernel/src/mem/vmm.cpp:226-243 | at most one range of a well-formed list contains an address, so the first one found is the one |
| FrameOwnership.TrimStep | kernel/kernel/src/mem/vmm.cpp:416-423 | cutting a range off at either side keeps all the facts the resolution loop relies on |
| FrameOwnership.DeleteStep | kernel/kernel/src/mem/vmm.cpp:404-415 | so does deleting a range that the request covers, with its pages |
| FrameOwnership.SplitStep | kernel/kernel/src/mem/vmm.cpp:424-437 | so does splitting a range around the request and moving the pages behind it to the new part |
| FrameOwnership.Finish | kernel/kernel/src/mem/vmm.cpp:445-488 | once nothing overlaps the request, filling it in by merging, inserting or unmapping gives every address of the request its new meaning and leaves all others as they were |
| FrameOwnership.FinishExact | kernel/kernel/src/mem/vmm.cpp:406-411 | so does the early return for a range that matches the request exactly |
| AddressSpace.Pagemap.InvalidatePage | kernel/kernel/src/mem/vmm.cpp:506-533 | a present entry and its page move to the target range's list or are freed; its assertion that the page is not free holds |
| AddressSpace.Pagemap.InvalidatePages | kernel/kernel/src/mem/vmm.cpp:535-541 | the same for as many pages as the length has, from that of the base on, and for no other |
| AddressSpace.Pagemap.DestroyRange | kernel/kernel/src/mem/vmm.cpp:88-98 | exactly the pages on the range's list are freed |
| AddressSpace.Pagemap.ChangeProtection | kernel/kernel/src/mem/vmm.cpp:406-411 | an exactly matching range gets the new protection, in the range and in its resident entries |
| AddressSpace.Pagemap.DeleteRange | kernel/kernel/src/mem/vmm.cpp:412-415 | a covered range and its pages are gone, everything else is kept |
| AddressSpace.Pagemap.SplitRange | kernel/kernel/src/mem/vmm.cpp:424-437 | a range around the request becomes its two outer parts |
| AddressSpace.Pagemap.ResolveRange | kernel/kernel/src/mem/vmm.cpp:401-441 | one overlapping range is resolved, with fewer ranges overlapping the request afterwards or an early return |
| AddressSpace.Pagemap.AddRange | kernel/kernel/src/mem/vmm.cpp:387-489 | add_range with overlap resolution terminates, keeps ranges disjoint, gives every address in the request exactly the new type, protection and backing (nothing for NONE), leaves every other address as it was, keeps or drops resident pages exactly as the ranges say, and keeps every present entry's page on the list of the range that contains it |
| AddressSpace.Pagemap.MergePages | kernel/kernel/src/mem/vmm.cpp:445-463 | the anonymous merge paths enlarge a neighbour and move resident pages to it |
| AddressSpace.Pagemap.AddrToRange | kernel/kernel/src/mem/vmm.cpp:226-234 | lookup, cached or not, returns the unique range that contains the address |
| AddressSpace.Pagemap.CreatePath | kernel/kernel/src/mem/vmm.cpp:160-180 | the three tables for a page exist afterwards and no page is lost; it fails only if one of them is missing and no page is free |
| AddressSpace.Pagemap.HandlePageFault | kernel/kernel/src/mem/vmm.cpp:246-307 | a fault makes the page resident with its range's protection, unless the address is not mapped, is resident already, or no page is free, and cannot be observed: every load returns what it returned before |
| AddressSpace.Pagemap.GetPhysicalAddr | kernel/kernel/src/mem/vmm.cpp:182-188 | the page at an address, brought in if need be; fails only if the address is not mapped or no page is free |
| AddressSpace.Pagemap.AccessMemory | kernel/kernel/src/mem/vmm.cpp:190-224 | exactly the bytes up to the first address that is not mapped are copied, in either direction, across pages and whether or not they are resident; no other byte changes; EFAULT exactly if the first address is not mapped |
| AddressSpace.Pagemap.Destroy | kernel/kernel/src/mem/vmm.cpp:106-117 | exactly the pages of the space's ranges and tables are freed |
| MemoryMeaning.OtherSpaceUnaffected | kernel/kernel/src/mem/vmm.cpp:506-541 | an operation of one address space leaves every other one owning its pages and reading the same bytes |
| MemoryMeaning.SpacesAreDisjoint | kernel/kernel/src/mem/vmm.cpp:362-378 | two address spaces never share a frame |
| MemoryMeaning.PagesAreNotAliased | kernel/kernel/src/mem/vmm.cpp:246-307 | two addresses of one space never share a frame |
| MemoryMeaning.FaultIsTransparent | kernel/kernel/src/mem/vmm.cpp:257-300 | what a fault puts into a page is what a load from it promised, zero or the file's byte |
| MemoryMeaning.NoPageIsLost | kernel/kernel/src/mem/vmm.cpp:119-131 | the pages that are free, on a page list or used for tables of a space are the same before and after each operation |
| MemoryMeaning.BackingKeptIff | kernel/kernel/src/mem/vmm.cpp:424-437 | an address outside the request keeps its place in its file exactly if it is not behind a split of a range that was trimmed at the front |
| MemorySyscalls.Mprotect | kernel/kernel/src/mem/vmm.cpp:610-640 | the protection changes exactly from the start to the first unmapped address, resident pages stay with their contents, every byte of a file mapping is read from a known place afterwards, and it succeeds exactly if everything is mapped |
| MemorySyscalls.ProtectKeepsFileOffsetsIff | kernel/kernel/src/mem/vmm.cpp:632 | every address keeps its place in its file exactly if every range that is reached but not covered was never trimmed at the front |
| MemorySyscalls.ProtectKeepsBytesIff | kernel/kernel/src/mem/vmm.cpp:628-636 | an address reads the same byte as before, whatever the files hold, exactly if its page is resident or anonymous, or does not get into a new range, or its range was never trimmed at the front |
| MemorySyscalls.Munmap | kernel/kernel/src/mem/vmm.cpp:593-608 | nothing in the pages is mapped or resident afterwards and everything else is as it was |
| MemorySyscalls.MadviseDontNeed | kernel/kernel/src/mem/vmm.cpp:663-700 | exactly the resident pages of the span are dropped and its bytes read as on demand again; all other entries and bytes stay |
| Fork.CopyTables | kernel/kernel/src/mem/vmm.cpp:312-360 | the child gets a table of its own for each of the parent's; fails only if no page is free |
| Fork.CopyPages | kernel/kernel/src/mem/vmm.cpp:366-378 | each resident page of a range is copied to a new frame on the child's range; fails only if no page is free |
| Fork.ForkSpace | kernel/kernel/src/mem/vmm.cpp:309-385 | the child has the same ranges, the same resident pages with the same contents and protection in frames and tables of its own; the parent is unchanged; None (the panic) only if no page is free |
| Fork.ForkCopiesMemory | kernel/kernel/src/mem/vmm.cpp:309-385 | the child reads the same byte as the parent at every anonymous or resident address, and nothing where the parent has nothing |
| Fork.ForkKeepsFileBytesIff | kernel/kernel/src/mem/vmm.cpp:364 | at a file address that is not resident the two read the same byte, whatever the file holds, exactly if the range was never trimmed at the front |
| MemoryRuns.Step | kernel/kernel/src/mem/vmm.cpp:246-541 | each fault, copy into a space, map, unmap, protection change, DONTNEED, fork, creation of an empty space and exit keeps the invariant of all address spaces, has its effect on its own space, leaves every other one reading the same bytes, makes a new space, a copy or an empty one, only for a fork or a creation, and always unless no page is free |
| MemoryRuns.Run | kernel/kernel/src/mem/vmm.cpp:246-541 | every run of them is a trace of such steps |
| MemoryRuns.Isolation | kernel/kernel/src/mem/vmm.cpp:506-541 | over any run, an address space that no operation acts on reads the same bytes throughout |
| MemoryRuns.ForkIsSnapshot | kernel/kernel/src/mem/vmm.cpp:309-385 | over any run, a child that is left alone reads at every anonymous or resident address what its parent read when it forked, whatever the parent does later |
| MemoryRuns.NoSharedFrames | kernel/kernel/src/mem/vmm.cpp:362-378 | in every state of a run no frame is mapped twice |
| RemapLimits.UnmappingTrims | kernel/kernel/src/mem/vmm.cpp:416-419 | unmapping the first page of a file mapping leaves a mapping that is trimmed at the front |
| RemapLimits.HoleMovesFileOffset | kernel/kernel/src/mem/vmm.cpp:428-431 | a hole in it moves a page to another place in the file |
| RemapLimits.ProtectMovesFileOffset | kernel/kernel/src/mem/vmm.cpp:632 | so does mprotect of a page of it |
| RemapLimits.ForkMovesFileOffset | kernel/kernel/src/mem/vmm.cpp:364 | and so does fork |
| RemapLimits.HoleKeepsFileOffsetsIff | kernel/kernel/src/mem/vmm.cpp:428-431 | all file offsets survive a hole exactly if no range that it splits was trimmed at the front |
| RemapLimits.OldPageShowsThroughIff | kernel/kernel/src/mem/vmm.cpp:404-440 | a resident page stays under a new mapping exactly if its range sticks out of the request or matches it exactly with pages kept |
| RemapLimits.NewMappingReadsOldByte | kernel/kernel/src/mem/vmm.cpp:421-423 | so a new anonymous mapping can read old bytes |
| RemapLimits.FixedMappingReadsOldByte | kernel/kernel/src/mem/vmm.cpp:421-423 | a space and a request for which it does |
| RemapLimits.SweepReachesAllIff | kernel/kernel/src/mem/vmm.cpp:535-541 | invalidate_pages gets to every page that a range touches exactly if the range does not stick out of as many whole pages, for a length of whole pages exactly if its base is page-aligned |
| RemapLimits.DeleteWithoutSweeping | kernel/kernel/src/mem/vmm.cpp:412-415 | when a range is deleted, an entry that the sweep does not get to stays and names a free page |
| PageTables.LeafEntryFields | kernel/kernel/src/mem/vmm.cpp:137 | frame and flags can be read back from a leaf entry |
| PageTables.SamePageIffSameIndices | kernel/kernel/src/mem/vmm.cpp:163-179 | two addresses select the same four positions exactly when they lie in the same page |
| PageTables.LeafStoreFlat | kernel/kernel/src/mem/vmm.cpp:133-139 | a leaf store changes the flat map at the addresses of its page only |
| PageTables.WithTableFlat | kernel/kernel/src/mem/vmm.cpp:126-131 | hanging in a zeroed table changes the flat map nowhere |
| PageTables.PageTable.CreateNextPageTable | kernel/kernel/src/mem/vmm.cpp:126-131 | the new table hangs at its position, every other way through the tables and every lookup stay; fails only if no page is free |
| PageTables.PageTable.FindPageTableEntry | kernel/kernel/src/mem/vmm.cpp:160-180 | finds the leaf table, making exactly the missing tables on the way when asked to; no lookup changes; fails only if a table is missing and no page is free |
| PageTables.PageTable.MapPage | kernel/kernel/src/mem/vmm.cpp:133-139 | the lookup of every address of the page is the new entry and every other lookup is as before; fails only if a table is missing and no page is free |
| PageTables.PageTable.InvalidateEntry | kernel/kernel/src/mem/vmm.cpp:507-530 | a present entry gets other flags or is cleared, and nothing happens to one that is not |
| TableRefinement.SameKeyIffSameRoute | kernel/kernel/src/mem/vmm.cpp:163-179 | two addresses share their table of a level exactly if they take the same way to it |
| TableRefinement.HasPathIffWalk | kernel/kernel/src/mem/vmm.cpp:160-180 | a page has a path in the model of an address space exactly if the walk gets to a leaf table |
| TableRefinement.TranslatePresent | kernel/kernel/src/mem/vmm.cpp:182-186 | the tables translate an address exactly as the flat map of entries says |
| TableRefinement.EnterPage | kernel/kernel/src/mem/vmm.cpp:133-139 | entering a page keeps tables and flat map in step, and makes the tables that the address space counts |
| TableRefinement.Invalidate | kernel/kernel/src/mem/vmm.cpp:506-530 | so does invalidating one |
| TableRefinement.CopyLevel | kernel/kernel/src/mem/vmm.cpp:316-360 | one of the nested loops of fork, with those inside it: below the entry the child has a table exactly where the parent has one |
| TableRefinement.CopyTree | kernel/kernel/src/mem/vmm.cpp:312-360 | the child's tables are the parent's, all empty; fails only if no page is free |
| SegmentList.SegmentsDisjoint | kernel/kernel/src/mem/vmem.cpp:50-82 | segments of an arena never overlap |
| SegmentList.AllFreeMeansWhole | kernel/kernel/src/mem/vmem.cpp:141-169 | what merging is for: if no two neighbours are free, then when nothing is allocated every span is one free segment |
| SegmentList.AllFreeWholeIff | kernel/kernel/src/mem/vmem.cpp:141-169 | and only then |
| BoundaryTags.FitIndexIsLeast | kernel/kernel/src/mem/vmem.cpp:88-90 | the first freelist searched holds sizes from the least power of two that is not below the request |
| BoundaryTags.Log2AtLeast | kernel/kernel/src/mem/vmem.cpp:172-174 | a size is on freelist k or a later one exactly when it is at least 2 to the k |
| BoundaryTags.AllocSound | kernel/kernel/src/mem/vmem.cpp:92-118 | taking part of a free segment keeps spans tiled and apart, and leaves no two neighbours free if there were none |
| BoundaryTags.FreedInPlaceSound | kernel/kernel/src/mem/vmem.cpp:139-169 | what xfree does, as long as it misreads no neighbour, keeps spans tiled and apart |
| BoundaryTags.FreedInPlaceIsMergeIff | kernel/kernel/src/mem/vmem.cpp:143-154 | it is the merge that is meant exactly if neither neighbour is free, and leaves no two neighbours free exactly then |
| BoundaryTags.FreedInPlaceUndoesAllocIff | kernel/kernel/src/mem/vmem.cpp:84-170 | it undoes an allocation exactly if that took a whole segment |
| BoundaryTags.FreedInPlaceMovesAddresses | kernel/kernel/src/mem/vmem.cpp:139-169 | exactly the addresses of the block become free |
| BoundaryTags.FreeSound | kernel/kernel/src/mem/vmem.cpp:139-169 | the merge that is meant keeps spans tiled and apart and no two neighbours free, for every combination of free neighbours |
| BoundaryTags.FreeUndoesAlloc | kernel/kernel/src/mem/vmem.cpp:84-170 | with the merge that is meant, giving back what was just taken restores all tags exactly |
| BoundaryTags.AllocMovesAddresses | kernel/kernel/src/mem/vmem.cpp:97-117 | exactly the first addresses of the segment become allocated; all of them were free and none was allocated |
| BoundaryTags.FreeMovesAddresses | kernel/kernel/src/mem/vmem.cpp:139-169 | with the merge that is meant, too, exactly the addresses of the block become free |
| VmemArena.BlockBasesDiffer | kernel/kernel/src/mem/vmem.cpp:123-132 | live blocks have different bases, so a lookup by base is unambiguous |
| VmemArena.WithSpanSound | kernel/kernel/src/mem/vmem.cpp:50-82 | a new span keeps the tags in order, and keeps spans apart exactly if it overlaps none |
| VmemArena.Arena.Add | kernel/kernel/src/mem/vmem.cpp:50-82 | a new span goes in at its position with one free segment, and the arena invariant holds exactly if it overlaps no other span; the assertion fails exactly without two free tags, and a span of size 0 has no freelist |
| VmemArena.Arena.ExpandFreeSegment | kernel/kernel/src/mem/vmem.cpp:180-189 | called by the merge that is meant: a free segment gets new bounds and is on the freelist of its new size |
| VmemArena.Arena.TakeFrom | kernel/kernel/src/mem/vmem.cpp:93-118 | the head of a freelist is taken whole or split, and stays on exactly the list of its size or in the bucket of its base |
| VmemArena.Arena.Xalloc | kernel/kernel/src/mem/vmem.cpp:84-121 | instant fit: the block is cut from the head of the first non-empty list that fits; it fails only if no free segment reaches the least power of two that is not below the size; it panics exactly for a bad size or for a split without tags |
| VmemArena.Arena.FindSegment | kernel/kernel/src/mem/vmem.cpp:123-132 | finds the live block at an address exactly if there is one |
| VmemArena.Arena.Xfree | kernel/kernel/src/mem/vmem.cpp:123-170 | frees exactly the live block at the address where it is and merges it with nothing; goes wrong exactly if the base of a neighbour reads as FREE; panics exactly for an address that is no live block or for a wrong size |
| VmemArena.Arena.AllocThenFree | kernel/kernel/src/mem/vmem.cpp:84-170 | the block is the one that an allocation takes; freeing it right away goes wrong exactly if a neighbour is misread, and otherwise restores every tag exactly if the block was a whole segment |
| VmemArena.Arena.MergingXfree | kernel/kernel/src/mem/vmem.cpp:123-170 | xfree with the merge that is meant: no two neighbours are free afterwards if none were before |
| VmemArena.Arena.AllocThenMergingFree | kernel/kernel/src/mem/vmem.cpp:84-170 | with that merge, freeing a block right after it was allocated restores every tag |
| Fragmentation.NeverMergedAgain | kernel/kernel/src/mem/vmem.cpp:141-169 | over any run, no segment, free or allocated, reaches across a place where a segment once started |
| Fragmentation.TagsNeverComeBack | kernel/kernel/src/mem/vmem.cpp:103-118 | over any run, the arena holds every tag that a split or a new span ever took from the pool |
| Fragmentation.RunArena | kernel/kernel/src/mem/vmem.cpp:84-170 | any sequence of xalloc and xfree, up to the first that panics or goes wrong, is such a run |
| Fragmentation.SplitIsNotUndone | kernel/kernel/src/mem/vmem.cpp:141-169 | an arena with nothing allocated in which two free neighbours remain and a block as long as both cannot be had |
| Fragmentation.FirstBlockIsMisread | kernel/kernel/src/mem/vmem.cpp:143-151 | an arena in which the span tag is taken for a free neighbour |
| Scheduling.NextIsRunnable | kernel/kernel/src/sched/sched.cpp:726-734 | the thread that the scheduler picks can run, so its assertion never fails |
| Scheduling.ScheduleKeepsSound | kernel/kernel/src/sched/sched.cpp:707-782 | picking keeps the invariant and leaves the picked thread as the only RUNNING one |
| Scheduling.EnqueueSound | kernel/kernel/src/sched/sched.cpp:642-652 | waking keeps each thread on the queue exactly once if it can run and not at all otherwise |
| Scheduling.DequeueSound | kernel/kernel/src/sched/sched.cpp:626-640 | so does blocking |
| Scheduling.TerminateSound | kernel/kernel/src/sched/sched.cpp:654-660 | so does ending |
| Scheduling.WakeAllEffect | kernel/kernel/src/sched/event.cpp:87-98 | waking a list of listeners makes exactly their blocked threads READY and changes no other state |
| Scheduling.TriggerWakesAll | kernel/kernel/src/sched/event.cpp:75-104 | after an unbounded trigger no listener of the event is blocked, and without a listener it is remembered unless it is to be dropped |
| Scheduling.TriggerSound | kernel/kernel/src/sched/event.cpp:75-104 | pending is 0 or nobody listens, and num_listeners is the length of the list |
| Scheduling.ClearListenersSound | kernel/kernel/src/sched/sched.cpp:167-177 | exactly the thread's own listeners are gone and all lists and counts agree |
| Scheduling.WaitSound | kernel/kernel/src/sched/event.cpp:30-66 | a thread that starts to wait has no listeners left over, and waiting keeps the invariant |
| Scheduling.SendSignalSound | kernel/kernel/src/sched/sched.cpp:155-161 | a signal wakes a blocked thread and keeps the invariant |
| Scheduling.SignalInterrupts | kernel/kernel/src/sched/sched.cpp:155-161 | a signal interrupts a wait whether or not the thread masks it; there is a signal to deliver afterwards exactly if there was one before or this one is not masked |
| Scheduling.SpawnSound | kernel/kernel/src/sched/sched.cpp:933-934 | a new thread joins the queue once |
| Scheduling.ReapSound | kernel/kernel/src/sched/sched.cpp:107-121 | destroying a zombie thread takes its listeners with it |
| Pipes.ChangePipeSound | kernel/kernel/src/userland/pipe.cpp:21-27 | a change of a pipe followed by the trigger leaves nobody blocked without cause |
| Pipes.IoLoopSound | kernel/kernel/src/userland/pipe.cpp:29-57 | read and write keep every blocked caller of every pipe waiting for something that has not happened |
| Pipes.IoLoopBlocks | kernel/kernel/src/userland/pipe.cpp:30-37 | a call that can neither go on nor fail uses up stale triggers and then waits |
| Pipes.WokenSound | kernel/kernel/src/sched/event.cpp:66-72 | a caller that was woken is free of listeners and may look at its pipe again |
| Pipes.ApplySound | kernel/kernel/src/sched/event.cpp:30-104 | every step of threads, events, signals and pipes keeps all invariants |
| Pipes.Run | kernel/kernel/src/sched/event.cpp:30-104 | so does every run of them |
| Pipes.NoLostWakeup | kernel/kernel/src/userland/pipe.cpp:29-57 | in every state reachable from boot, a thread blocked in read faces an empty pipe with a writer, one blocked in write a full pipe with a reader |
| Pipes.NeverBothBlocked | kernel/kernel/src/userland/pipe.cpp:29-57 | a reader and a writer of one pipe are never blocked at the same time |
| Pipes.StreamInOrder | kernel/kernel/src/userland/pipe.cpp:29-57 | bytes read so far followed by those in the buffer are the bytes accepted so far, in order |
| Pipes.MaskedSignalInterrupts | kernel/kernel/src/sched/sched.cpp:155-161 | a run from boot in which a masked signal interrupts a wait and there is nothing to deliver |
| Pipes.QueuedIffRunnable | kernel/kernel/src/sched/sched.cpp:626-664 | in every reachable state a thread other than the idle one is on the queue exactly once if READY or RUNNING and not at all otherwise |
| KernelObject.Machine.EnqueueThread | kernel/kernel/src/sched/sched.cpp:642-652 | the object takes the step of Scheduling.Enqueue |
| KernelObject.Machine.DequeueThread | kernel/kernel/src/sched/sched.cpp:626-640 | the object takes the step of Scheduling.Dequeue |
| KernelObject.Machine.TerminateThread | kernel/kernel/src/sched/sched.cpp:654-660 | the object takes the step of Scheduling.Terminate |
| KernelObject.Machine.SchedulerIsr | kernel/kernel/src/sched/sched.cpp:707-782 | the object takes the step of Scheduling.Schedule and its assertion holds |
| KernelObject.Machine.ClearThreadListeners | kernel/kernel/src/sched/sched.cpp:167-177 | the loop over the listeners unlinks all of them |
| KernelObject.Machine.TriggerEvent | kernel/kernel/src/sched/event.cpp:75-104 | the loop over the listeners wakes all of them and returns their number |
| KernelObject.Machine.Wait | kernel/kernel/src/sched/event.cpp:30-66 | the two loops consume the first pending event or add a listener for each and block |
| KernelObject.Machine.ResumeWait | kernel/kernel/src/sched/event.cpp:66-72 | a thread that runs again has no listeners left and gets EINTR exactly if a signal has woken it |
| KernelObject.Machine.ReadPipe | kernel/kernel/src/userland/pipe.cpp:29-41 | the condition loop of read takes the steps of Pipes.IoLoop and returns its result |
| KernelObject.Machine.WritePipe | kernel/kernel/src/userland/pipe.cpp:43-57 | the condition loop of write likewise |
| BoundedWaiting.ScheduleCloser | kernel/kernel/src/sched/sched.cpp:726-732 | a scheduler call that does not pick a queued thread brings it closer by the potential |
| BoundedWaiting.ApplyCalm | kernel/kernel/src/sched/sched.cpp:626-664 | no other step moves it further away |
| BoundedWaiting.PickedWithinBound | kernel/kernel/src/sched/sched.cpp:626-652 | with n live threads and none created, a queued thread is picked within 2 n^2 + n scheduler calls in every run |
| RingBuffer.Ring.Read | kernel/kernel/src/klib/ring_buffer.hpp:24-38 | hands out the oldest elements in order, as many as asked for and present, across the wrap |
| RingBuffer.Ring.Write | kernel/kernel/src/klib/ring_buffer.hpp:40-53 | appends as many elements as fit and overwrites none that is stored |
| RingBuffer.Ring.Truncate | kernel/kernel/src/klib/ring_buffer.hpp:55-59 | drops the oldest elements |
| RingBuffer.Ring.WriteTruncate | kernel/kernel/src/klib/ring_buffer.hpp:61-65 | makes room by dropping old elements and writes as many new ones as the buffer can hold |
| RingBuffer.DropsNoMoreThanNeededIff | kernel/kernel/src/klib/ring_buffer.hpp:61-65 | what is dropped makes room, and is the least that does exactly if there was room, the buffer was full, or the new elements are at least as many as it holds |
| RingBuffer.DropsTooMany | kernel/kernel/src/klib/ring_buffer.hpp:61-65 | a buffer for which it is not |
| RingBuffer.Ring.Peek | kernel/kernel/src/klib/ring_buffer.hpp:67-73 | returns the oldest element without removing it |
| RingBuffer.OverwrittenWindow | kernel/kernel/src/klib/ring_buffer.hpp:40-50 | the two copies fill exactly the window at the write index |
| XhciRing.EnqueueRing.constructor | kernel/kernel/src/dev/xhci.cpp:951-965 | a new ring has a link TRB with the cycle bit of the first lap and nothing enqueued |
| XhciRing.EnqueueRing.Enqueue | kernel/kernel/src/dev/xhci.cpp:967-983 | the ring holds the image of its history with each lap's cycle bit, and the address returned is that of the slot |
| XhciRing.CycleBitTells | kernel/kernel/src/dev/xhci.cpp:967-983 | the cycle bit of a slot tells whether its next entry has been written |
| XhciRing.ConsumerStep | kernel/kernel/src/dev/xhci.cpp:951-983 | a controller that follows cycle bits and the link takes the next TRB if there is one and never a stale one |
| XhciRing.TakenInOrder | kernel/kernel/src/dev/xhci.cpp:951-983 | over any run that keeps at most 255 outstanding, and any number of laps, every TRB is taken once and in order |
| XhciRing.TakenFromStart | kernel/kernel/src/dev/xhci.cpp:951-983 | from the start of a ring, what such a run took is a prefix of what was enqueued |
| XhciRing.NoneLostIff | kernel/kernel/src/dev/xhci.cpp:967-983 | over any run at all, in which enqueue checks nothing, no TRB is overwritten before it is taken exactly if never more than 255 are outstanding |
| XhciRing.OverwritingRun | kernel/kernel/src/dev/xhci.cpp:967-983 | 256 TRBs enqueued before the controller looks: the first is lost for good |
| XhciRing.NeverStalls | kernel/kernel/src/dev/xhci.cpp:974-981 | with at most size - 2 outstanding two looks are enough to take the next TRB |
| XhciRing.StallsAtLinkIff | kernel/kernel/src/dev/xhci.cpp:974-981 | a controller at the link waits exactly if size - 1 are outstanding |
| XhciRing.StallReached | kernel/kernel/src/dev/xhci.cpp:967-983 | a run from the start of a ring that gets there |
| XhciRing.OutstandingAddressesDiffer | kernel/kernel/src/dev/xhci.cpp:796-820 | the addresses of outstanding TRBs differ, so a completion names one of them |
| XhciRing.EventRing.HasUnprocessedEvents | kernel/kernel/src/dev/xhci.cpp:1033-1035 | true exactly if an event has not been dequeued |
| XhciRing.EventRing.Dequeue | kernel/kernel/src/dev/xhci.cpp:1014-1031 | events come out once, in the order written |
| VirtioBlock.BlockQueue.constructor | kernel/kernel/src/dev/virtio.cpp:85-100 | all descriptors and requests are free |
| VirtioBlock.BlockQueue.AllocDescriptor | kernel/kernel/src/dev/virtio.cpp:106-115 | takes the head of the free list, or returns 128 exactly if it is empty |
| VirtioBlock.BlockQueue.FreeDescriptor | kernel/kernel/src/dev/virtio.cpp:117-123 | the descriptor becomes the head of the free list |
| VirtioBlock.BlockQueue.AllocRequest | kernel/kernel/src/dev/virtio.cpp:192-200 | takes the head of the free requests |
| VirtioBlock.BlockQueue.FreeRequest | kernel/kernel/src/dev/virtio.cpp:202-207 | the request becomes the head of the free requests |
| VirtioBlock.BlockQueue.SubmitDescriptor | kernel/kernel/src/dev/virtio.cpp:125-132 | the head is in the available ring and no entry that the device still needs is overwritten |
| VirtioBlock.BlockQueue.LinkThree | kernel/kernel/src/dev/virtio.cpp:220-242 | three descriptors are filled and linked, or those taken are given back |
| VirtioBlock.BlockQueue.ReadWriteBlock | kernel/kernel/src/dev/virtio.cpp:209-251 | a request in flight is one chain of three descriptors with a header that say what was asked for, and so do all others still; without three descriptors nothing is submitted and everything is as before; a request is always available |
| VirtioBlock.BlockQueue.DeviceTakes | kernel/kernel/src/dev/virtio.cpp:218-246 | what the device finds behind a head is the header, the page and the status byte of the request that was submitted |
| VirtioBlock.BlockQueue.HandleCompletion | kernel/kernel/src/dev/virtio.cpp:180-188 | the callback may submit further requests before its own is given back: exactly as many are taken, in order, as there is room for below 42, the completed one included; then only that one goes away |
| VirtioBlock.BlockQueue.Irq | kernel/kernel/src/dev/virtio.cpp:176-190 | every completion is handled exactly once, in the device's order, and gives back its request and three descriptors, whatever the callbacks submit; afterwards exactly the others are in flight, as they were, and the orders that the callbacks had room for |
| VirtioBlock.NoRoomIff | kernel/kernel/src/dev/virtio.cpp:220-238 | fewer than three descriptors are free exactly if 42 requests are in flight |
| VirtioBlock.TurnedAway | kernel/kernel/src/dev/virtio.cpp:180-188 | in a queue with 42 requests in flight, the block that the callback of a completed one asks for is turned away, and is taken right after the completion has been handled |
| VirtioBlock.AtMost42 | kernel/kernel/src/dev/virtio.cpp:85-100 | at most 42 requests are in flight and at least 43 request slots are free, since free descriptors and three per request make 128 |
| VirtioBlock.NoneMissed | kernel/kernel/src/dev/virtio.cpp:180-189 | comparing indices modulo 128 tells whether all completions have been handled |
| VirtioBlock.OutstandingBounded | kernel/kernel/src/dev/virtio.cpp:125-132 | no ring holds more entries than there are requests in flight |
| Algorithm.QsortPartition | kernel/kernel/src/klib/algorithm.hpp:42-59 | the scans stay in the range; the partition point is strictly inside it; no element before it exceeds one after it; the range is permuted |
| Algorithm.Qsort | kernel/kernel/src/klib/algorithm.hpp:62-70 | the range is sorted and a permutation of what it was, and nothing else changes |
| Algorithm.AlignmentBounds | kernel/kernel/src/klib/algorithm.hpp:21-29 | align_up and align_down give the least multiple not below and the greatest not above |
| DescriptorTables.LowestIff | kernel/kernel/src/sched/sched.cpp:68-84 | the result is the lowest free number not below the minimum exactly if the minimum is at most the size of the table |
| DescriptorTables.TooLow | kernel/kernel/src/sched/sched.cpp:68-84 | a table and a minimum for which it is too low |
| DescriptorTables.AllocSound | kernel/kernel/src/sched/sched.cpp:68-84 | no free slot lies below first_free_fdnum once the slot is filled |
| DescriptorTables.Tables.AllocateFdnum | kernel/kernel/src/sched/sched.cpp:68-84 | the search returns that number and leaves that table |
| DescriptorTables.Tables.CloseDescriptor | kernel/kernel/src/fs/vfs.cpp:247-253 | one reference less, and the description goes away exactly with the last name for it |
| DescriptorTables.Tables.Open | kernel/kernel/src/fs/vfs.cpp:390-392 | a new description with one reference is in the lowest free slot |
| DescriptorTables.Tables.Close | kernel/kernel/src/fs/vfs.cpp:410-421 | closes exactly an open number, and reports any other |
| DescriptorTables.Tables.Dup | kernel/kernel/src/fs/vfs.cpp:629-647 | the number allocated names the same description, counted once more |
| DescriptorTables.Tables.Dup3 | kernel/kernel/src/fs/vfs.cpp:698-723 | the new number ends up as a duplicate, whatever it was, with all error cases |
| DescriptorTables.Tables.Fork | kernel/kernel/src/sched/sched.cpp:891-905 | the child's table equals the parent's and every copy is counted |
| DescriptorTables.Tables.CloseSlots | kernel/kernel/src/sched/sched.cpp:551-555 | exactly the slots with the close-on-exec flag (or, when a process ends, all) are closed |
| DescriptorTables.Tables.MapFile | kernel/kernel/src/mem/vmm.cpp:470-475 | a mapped range counts as one reference to its file |
| DescriptorTables.Tables.UnmapFile | kernel/kernel/src/mem/vmm.cpp:88-98 | and gives it up when it goes away |
| DescriptorTables.Tables.ExistsIffNamed | kernel/kernel/src/fs/vfs.hpp:175-179 | a description exists exactly as long as slots or ranges name it, and counts how many do |
| DescriptorTables.CountKept | kernel/kernel/src/sched/sched.cpp:68-84 | num_file_descriptors stays right through allocation and closing |
| DescriptorTables.Dup3CountsOneTooFew | kernel/kernel/src/fs/vfs.cpp:717-722 | and is one too low after dup3 |
| Ipv4.PartialChecksum | kernel/kernel/src/dev/net.cpp:106-116 | the loop adds up the 16-bit words and an odd last byte |
| Ipv4.Fold | kernel/kernel/src/dev/net.cpp:120-121 | the fold loop terminates with the representative of the sum modulo 65535 |
| Ipv4.ComputeHeaderChecksum | kernel/kernel/src/dev/net.cpp:118-123 | computes the specification's checksum |
| Ipv4.ChecksumAccepted | kernel/kernel/src/dev/net.cpp:140-144 | for every header the receiver's recomputation over what was sent is 0 |
| Ipv4.AcceptedIff | kernel/kernel/src/dev/net.cpp:140-144 | a header is accepted exactly if its words add up to a positive multiple of 65535 |
| Ipv4.OneWordDamageNoticed | kernel/kernel/src/dev/net.cpp:118-123 | damage to one word is noticed unless it swaps all zeros and all ones |
| Ipv4.PackRoundTrip | kernel/kernel/src/dev/net.hpp:78-82 | flags and the offset, down to a multiple of 8, survive packing |
| Ipv4.Send | kernel/kernel/src/dev/net.cpp:211-227 | the loop sends exactly the specified fragments in order |
| Ipv4.ReassemblesIff | kernel/kernel/src/dev/net.cpp:211-227 | the receiver of RFC 791 puts the payload together again exactly if the last offset fits into 16 bits |
| Ipv4.LongPayloadIsLost | kernel/kernel/src/dev/net.cpp:211-227 | a payload that cannot be put together again |
| Ipv4.FragmentsAreGood | kernel/kernel/src/dev/net.cpp:163-183 | each fragment fits the interface, passes the receiver's check and is full unless it is the last |
| Timers.TimeSpec.AddAssign | kernel/kernel/src/klib/timespec.hpp:22-32 | addition of normal values is exact and normal |
| Timers.TimeSpec.SubAssign | kernel/kernel/src/klib/timespec.hpp:34-54 | the result is the saturating difference, less one nanosecond if it borrows |
| Timers.MinusExactIff | kernel/kernel/src/klib/timespec.hpp:34-54 | the difference is right exactly when nothing is borrowed or it is zero anyway, and never off by more than 1 ns |
| Timers.Clock.Arm | kernel/kernel/src/sched/time.cpp:16-27 | the timer gets its time and joins the armed list, which is a list afterwards exactly if the timer was not armed |
| Timers.ArmingAgainCutsOff | kernel/kernel/src/sched/time.cpp:25-26 | a timer that is armed again cuts those behind it off the walk of update_time |
| Timers.Clock.Disarm | kernel/kernel/src/sched/time.cpp:29-42 | the timer leaves the list and is reset |
| Timers.Clock.UpdateTime | kernel/kernel/src/sched/time.cpp:51-75 | both clocks advance exactly, each armed timer gets one tick, and exactly the fired ones leave the list |
| Timers.RemainingAfter | kernel/kernel/src/sched/time.cpp:58-74 | after k ticks of T together, between max(0, D - T - k) and max(0, D - T) of D remains |
| Timers.FiresInTime | kernel/kernel/src/sched/time.cpp:58-74 | a one-shot timer fires once, no later than the first tick with T >= D and at most k ns early |
| Timers.FiresEarly | kernel/kernel/src/klib/timespec.hpp:34-54 | a timer for one second that fires one nanosecond early |

## Left out

- DIRECT and DIRECT_VIRTUAL ranges: the kernel does not track who owns their frames; address spaces here have anonymous and file ranges.
- The kernel half of the address space: `map_kernel`, the upper 256 entries of the top table and the fallback of `addr_to_range` to the kernel's ranges.
- Address widths: addresses are unbounded numbers, so wrap-around of base + length at 64 bits and the cut to 48 bits are not modelled; page table entries use division and remainder by powers of two for shifts and masks.
- AddressSpace.Pagemap.AddRange: requires a page-aligned base and length and a non-empty mapping; `mmap` with MAP_FIXED accepts unaligned addresses, for which only the sweep over pages and the deletion of a range are modelled (RemapLimits.SweepReachesAllIff, RemapLimits.DeleteWithoutSweeping).
- MemoryRuns.Step: the requests to map that a run is made of are page-aligned and have something to map, as AddRange requires, and files keep their contents during a step.
- AddressSpace.Pagemap.AddRange: ranges are values with an identity in the list of the space, and a page list is the set of pages whose link names the range; the pointer that the original returns is not modelled.
- AddressSpace.Pagemap.CreatePath: in the address space the tables are a map from level and prefix to a page; that the radix tree implements them is proved in TableRefinement, for pages and tables one at a time and not for whole operations of the space.
- Fork.CopyTables: the four nested loops over tables are one loop over the parent's tables; TableRefinement.CopyTree has the loops, for the lower half and for tables with the flags that the kernel gives them.
- PhysicalMemory.PageAllocator.FindPage: takes page-aligned addresses, and says that it reads behind the page structs of a region, not what it finds there; its assertion then decides.
- PhysicalMemory.PageAllocator.AbsorbMemmapEntry: requires entries that do not overlap regions, as the boot loader promises for usable memory; what an entry that is rounded down to no page overwrites is not modelled.
- PhysicalMemory.PageAllocator.FreeContiguousPages: requires that the pages of the run are allocated and on no list, as the assertion in `free_page` and the intrusive link demand.
- PhysicalMemory.PageAllocator.AllocContiguousPages: stops where the search runs off the page structs of a region; what it takes there is not modelled.
- `mmap_anon_base`, `brk`, `mincore` and kernel mappings: bookkeeping around the modelled operations.
- `reclaim_bootloader_mem`: marked as broken in the original.
- VmemArena.Arena.Xfree: where a neighbour is misread as free, what is overwritten in front of its tag is not modelled.
- VmemArena.Arena.Xalloc: a block may lie at address 0, which is also the original's failure value; the model keeps the two apart.
- VmemArena.Arena.Add: the tags of several arenas come from one pool, of which one arena is modelled; what an arena with overlapping spans does later is not modelled.
- The span list of an arena is read off its span tags, which are in the same order.
- Stop signals, SIGCONT and the STOPPED state, `trigger` with a bound on woken threads, and signal handlers: threads here are ready, running, blocked or zombies, and a signal is pending, masked or dispatched.
- KernelObject.Machine.SchedulerIsr: the retry after a signal has ended the picked thread is the ending followed by another scheduler step; register and page map switching are left out.
- Closing the files of a process that ends happens in steps of its own after the last thread has ended; destroying a process's other objects is left out.
- A pipe's buffer is a sequence in the transition system; that the circular buffer behaves like one is proved in RingBuffer. Its indices are unbounded, which is the same as wrapping at 64 bits because the capacity divides 2^64.
- `poll`, `epoll` and `ioctl` on pipes: they only read the state.
- Timing of device registers, doorbells and interrupts: devices are the other party of a ring and may act at any time.
- VirtioBlock.BlockQueue.Irq: the device completes nothing while the loop runs; what it completes meanwhile is left for the next interrupt.
- VirtIO network queues: all their buffers are posted at once, so that the argument for the block queue does not carry over.
- XhciRing.EventRing.ControllerWrites: stands for the controller, which is taken not to run a full lap ahead of the driver.
- Device discovery, USB setup and HID parsing, ARP, TCP and UDP, routing: dialogue and tables around the modelled kernels.
- `allocate_fdnum` with F_DUPFD keeps a pointer into the table while the table may move; the model copies the descriptor first.
- `close_range`, descriptor flags other than close-on-exec, cursors and file contents.
- Timers.TimeSpec.AddAssign: 64-bit overflow of seconds is not modelled.
- Timers.Clock.Arm: only the list of all armed timers is modelled, not that of each thread, and not what becomes of a list whose links are broken; no caller in the original arms a timer that is armed.
- Timer callbacks are counted, not run; a timer that arms itself from its callback is not modelled.
- File systems, terminals, the bump heap, vectors and hash tables of the support library: sequences and maps stand for the latter.
