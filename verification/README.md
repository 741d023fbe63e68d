# Dafny model of the kernel's memory, scheduling and file-system cores

The kernel is a small x86-64 system in C with a host tool that packs its initial RAM disk. This project models the parts
whose correctness rests on invariants across calls, and proves those invariants and what follows from them.

- **Buddy allocator** (`Bits`, `BuddyState`, `BuddyMoves`, `BuddyCanonical`, `BuddyGrow`, `Pmm`, `BuddyTheorems`): zones,
  regions, the page array with its `free` and `order` bits, and one free list per order. `Pmm.Zone` has the loops of the
  source; `BuddyTheorems` states what holds over whole runs.
- **Heap** (`HeapFit`, `Heap`): the first-fit list of entries with guard words, splitting and joining; the fit test on
  64-bit words.
- **Page tables** (`PageTree`, `PteBits`, `PageTables`, `PageTheorems`): 4-level tables in physical memory shared by all
  address spaces, with frames from the buddy allocator (`Frames`). Sections 4.5 and 4.6 of the Intel SDM, Volume 3A, give the
  walk and the rights.
- **Segments and user memory** (`Segments`, `AddressSpaces`, `UserBytes`, `UserMemory`, `UserSystem`): the interval list of
  an address space, demand faults, and copies in and out that go through segments, page tables and the page allocator
  together, for any number of spaces on one memory.
- **Scheduler** (`SchedState`, `Scheduler`, `SchedTheorems`): any number of CPUs, each in its own phase of picking, switching
  and dropping threads, taking steps in any order on one shared queue.
- **RAM disk** (`Bytes`, `RdskTree`, `RdskListing`, `RdskImage`, `RdskPacker`, `RdskChains`, `RdskDriver`, `RdskForest`,
  `RdskTheorems`): the packer's tables, the image byte by byte, the driver that reads it, and its nodes as a file system of
  the VFS.
- **Virtual file system** (`VfsState`, `VfsLookup`, `VfsPaths`, `VfsGrowth`, `Vfs`): mounted file systems as one forest; lookups
  downwards across mounts, paths upwards.
- **Numbers** (`Arithmetic`, `Numerals`, `NumberFormat`, `Directives`, `Console`, `PrintParse`): the integer conversions of
  `format`, and the console's number parser.
- **Lists** (`Lists`, `Seqs`): the intrusive lists. `Lists` proves the pointer operations equal to insertion and removal in a
  sequence; the other modules use sequences.

Classes have the fields that the source updates and methods that follow its loops and branches; functions on snapshots of
those fields are their specifications, and the theorems are about those. Panics (out of memory, an unsupported protection)
are results. Physical memory is a map from frames to contents; `node`, `head`, `place`, `top`, `rank`, `used`, `owner` and the other
ghost state exist for the proofs alone. Where the source does 64-bit or 32-bit arithmetic that can wrap, the model says so.

Some promises one might expect of the code do not hold on all inputs. For each there is a concrete input and the exact
condition:

- `memory_exists` when the end of the range wraps (`CoverageWraps`, `CoverageExact`);
- the heap's search for room when offset and size wrap (`FalseRoomExample`; `CheckFitExact` for an entry and a request,
  `RequestExact` for a request alone, whatever its alignment);
- copies of 2^31 bytes or more (`ChunkExact`, `CopyLoopExact`);
- the physical targets of a direct segment that is cut (`DirectCutExact`);
- lookups through stacked mounts (`StackedLookups`, `ScanExact`, `LookupsVisible`), and paths of nodes that a mount hides,
  that a stack of mounts keeps out of reach or that no path can spell (`PathRoundTrip`);
- arguments with a tab behind them (`TabInArgument`, `ArgumentsAreWords`);
- conversions with precision 0 (`PrecisionZeroLosesDigits`, `DigitsComplete`, `PrintedLength`) and numbers printed with spaces in front
  (`PrintThenParse`).

The length prefixes `hl` and `lh` of a directive mean `ll` and `hh`, as the source reads only the second letter.

## Model

| member | source | states |
|---|---|---|
| Bits.PowerOfTwoTest | kernel/src/memory/pmm.c:76 | `n & (n - 1)` is zero exactly for powers of two, so the order is lowered exactly when it was rounded up |
| Bits.XorBuddy | kernel/src/memory/pmm.c:134 | flipping bit k of a multiple of 2^k adds 2^k in the first half of the enclosing block and subtracts it in the second |
| Bits.NestedOrDisjoint | kernel/src/memory/pmm.c:94-146 | aligned power-of-two blocks that meet are nested: the reason splitting and merging never overlap |
| BuddyCanonical.FreeRunInOneBlock | kernel/src/memory/pmm.c:132-144 | a wholly free aligned run lies inside one free block, so merging leaves no fragments |
| BuddyState.BuddyIsHead | kernel/src/memory/pmm.c:134-137 | the descriptor at the buddy's position heads a block no larger than the one being freed, so its `free` and `order` bits are current |
| Pmm.OrderIsLeast | kernel/src/memory/pmm.c:11-18 | the order asked for is the least whose block holds the pages, for every 64-bit page count but 0 |
| Pmm.GreedyFits | kernel/src/memory/pmm.c:74-77 | the order picked for the next block of a new region is the greatest power of two that fits, capped at the top order |
| Pmm.BuddyAddress | kernel/src/memory/pmm.c:126-136 | the address computed with `^` relative to the data base is that of the buddy's page |
| Pmm.CountBlock | kernel/src/memory/pmm.c:110-111 | taking a block of 2^k pages out of the free pages lowers the zone's count and that of its region by 2^k, and no other |
| Pmm.Zone.constructor | kernel/src/memory/pmm.c:28-35 | a new zone has no regions, no live blocks and a valid state |
| Pmm.Zone.RegionAdd | kernel/src/memory/pmm.c:43-88 | the part of the range inside the zone becomes a region whose metadata pages are just enough for the region header and its page array, in bytes, and whose data pages are all free and tiled; nothing else changes; live blocks stay |
| Pmm.ClipExact | kernel/src/memory/pmm.c:43-56 | the region consists of every whole page from the later of the two starts on that ends before both ends |
| Pmm.MetadataInPlace | kernel/src/memory/pmm.c:58 | in every valid state the bytes of each region's header and page array end in its last metadata page |
| Pmm.Zone.TileRegion | kernel/src/memory/pmm.c:74-86 | the greedy loop ends with every data page of the region in a free block and the whole zone tiled |
| Pmm.Zone.InitPages | kernel/src/memory/pmm.c:62-72 | every page of the region gets a descriptor: metadata pages not free, data pages free; other regions keep theirs |
| Pmm.Zone.Alloc | kernel/src/memory/pmm.c:92-115 | a wholly free aligned block changes from free to live and nothing else does, counters included; it begins at the front of the least non-empty list whose order is large enough; out of memory only if no region has a wholly free aligned run of that order |
| Pmm.Zone.AllocPages | kernel/src/memory/pmm.c:117-119 | the block has the least power of two of pages that holds the count; out of memory only if there is no wholly free aligned run of that size |
| Pmm.Zone.BuddyOf | kernel/src/memory/pmm.c:126-136 | the address computation finds the buddy exactly if the buddy is a data page of the region |
| Pmm.Zone.MergeWith | kernel/src/memory/pmm.c:139-142 | one merge keeps all blocks, live and free, and goes on with the lower half |
| Pmm.Zone.Free | kernel/src/memory/pmm.c:125-146 | exactly the block given back leaves the live blocks, its pages become free, counters included, and the state is fully merged again |
| BuddyTheorems.FreeListsCanonical | kernel/src/memory/pmm.c:74-86 | in every valid state list k holds exactly the maximal wholly free aligned runs of 2^k pages |
| BuddyTheorems.CountersAreLists | kernel/src/memory/pmm.c:110-111 | in every valid state the counters of the zone and of each region are the sums of the blocks in the free lists, block sizes counted |
| BuddyTheorems.FreePagesFixFreeBlocks | kernel/src/memory/pmm.c:132-144 | the free blocks are a function of the set of free pages |
| BuddyTheorems.LivePartition | kernel/src/memory/pmm.c:103-112 | every data page is free or in exactly one live block |
| BuddyTheorems.LiveFixesFreePages | kernel/src/memory/pmm.c:103-112 | the free pages depend on the live blocks alone |
| BuddyTheorems.LiveBytesApart | kernel/src/memory/pmm.c:92-115 | live blocks share no byte of physical memory, and each begins at or behind the last byte of its region's header and page array |
| BuddyTheorems.LeastRunTaken | kernel/src/memory/pmm.c:98-107 | an allocation breaks up a run of the least order among all maximal wholly free runs that are large enough |
| BuddyTheorems.RunLedger | kernel/src/memory/pmm.c:92-146 | after any run of allocations and frees the state is valid and the live blocks are those the calls account for |
| BuddyTheorems.RunRestores | kernel/src/memory/pmm.c:92-146 | a run that ends with the live blocks it began with ends with the same free blocks |
| BuddyTheorems.FreeingAllRebuilds | kernel/src/memory/pmm.c:74-86 | freeing everything, in any order, rebuilds the greedy tiling of pmm_region_add |
| BuddyTheorems.AllocThenFree | kernel/src/memory/pmm.c:92-146 | freeing the block just allocated restores live and free blocks |
| Frames.AllocPage | kernel/src/memory/pmm.c:121-123 | the frame is page-aligned and not among the frames in use; failure means that no page is free |
| Heap.Heap.constructor | kernel/src/memory/heap.c:37-48 | the heap starts as one free entry over the whole range |
| Heap.Heap.AllocAlign | kernel/src/memory/heap.c:51-106 | the block is the first fit at its least admissible offset, aligned, new, at least as large as asked for and by no more than a header and the least entry size larger; exactly its bytes and those of the new headers are no longer free; out of memory only if no free entry has an admissible offset with room; misled exactly if the search meets false room before it meets room; the list stays tiled and guarded |
| Heap.Heap.Alloc | kernel/src/memory/heap.c:108-110 | an allocation without alignment is never misled, whatever its size, and runs out of memory only if no run of that many free bytes exists; the block has the size asked for up to a header and the least entry size |
| Heap.Heap.FitOffset | kernel/src/memory/heap.c:62-74 | the fit loop on 64-bit words terminates for every alignment, offsets that wrap included, with the answer that HeapFit.CheckFitExact judges |
| Heap.Heap.TakeEntry | kernel/src/memory/heap.c:76-97 | the chosen entry is replaced by a free front piece, the block, and a free rest where each is worth it; Heap.CarveTakes says what that takes from the free bytes |
| Heap.Heap.Free | kernel/src/memory/heap.c:112-141 | exactly the given address leaves the blocks in use and the entry is joined with its free neighbours; the guard assertion holds |
| Heap.Heap.Join | kernel/src/memory/heap.c:118-138 | an entry and its free neighbours become one sealed entry |
| Heap.GuardDetects | kernel/src/memory/heap.c:28-34 | a header in which the size or the guard word has been overwritten does not pass the check |
| Heap.CarveTakes | kernel/src/memory/heap.c:76-97 | carving a block out of a free entry leaves every free byte of the heap free except those of the block and of the headers around it; the block is larger than asked for only where the rest is not worth an entry |
| Heap.NoNewSlivers | kernel/src/memory/heap.c:62-97 | an allocation makes no free entry smaller than the least size |
| Heap.RoomIsBytes | kernel/src/memory/heap.c:51-106 | without alignment there is room for a request exactly if some run of that many bytes is free |
| Heap.StillRoom | kernel/src/memory/heap.c:87-97 | a later request that fits into what is left of the chosen entry does not run out of memory |
| Heap.RoomForTwo | kernel/src/memory/heap.c:51-106 | a free entry with room for two requests and a header serves both, one after the other |
| Heap.AllocThenFree | kernel/src/memory/heap.c:51-141 | freeing the block just allocated restores the list exactly, addresses, sizes, flags and guards |
| Heap.EmptyHeapIsInitial | kernel/src/memory/heap.c:112-141 | a valid heap without blocks in use is the single entry of heap_initialize |
| Heap.RunKeeps | kernel/src/memory/heap.c:37-141 | every run keeps order, tiling, guards and no two free neighbours; once all addresses are given back, in any order, the list is the initial one |
| Heap.LiveApart | kernel/src/memory/heap.c:51-106 | blocks in use lie inside the heap, a header apart from one another |
| HeapFit.CheckFitExact | kernel/src/memory/heap.c:62-74 | for an entry and a request, the loop gives the least admissible offset or finds that none fits, as on unbounded numbers, exactly if the entry has no false room: the sum at the last offset tried does not wrap to something that fits while no earlier sum lies between the entry's size and 2^64; with false room the loop always answers with an offset although nothing fits |
| HeapFit.RequestExact | kernel/src/memory/heap.c:62-74 | for every size and alignment: a request is judged rightly in every entry that memory can hold exactly if size, alignment and a margin (-1 up to alignment 40, the alignment less 40 up to 87, 47 above) stay below 2^64 and, for alignments from 41 to 46, the size is not in a small window further below; for alignments 2^64 - d with d below 48, exactly if the size is between 2d and d + 40 |
| HeapFit.HeapAllocTrusted | kernel/src/memory/heap.c:108-110 | with alignment 1 every entry is judged rightly for every size |
| HeapFit.FalseRoomExample | kernel/src/memory/heap.c:62-74 | 2^64 - 24 bytes aligned to 64 pass the test in an entry of 1000 bytes at address 0 at offset 24 and again at 88, the loop's answer, although they fit nowhere |
| PteBits.FlagsOfRequest | kernel/src/arch/x86_64/vmm.c:94-104 | protection, cache and user flags become exactly the entry bits they ask for; a request without read access is refused |
| UserBytes.FlagsAsRequested | kernel/src/arch/x86_64/vmm.c:94-104 | the flags of a user page are those that the bit operations make of the protection bits of its segment, refused exactly without read access |
| PteBits.DecodeBits | kernel/src/arch/x86_64/vmm.c:42-82 | each field of an entry is read from the bit the processor reads it from |
| PteBits.AddressRoundTrip | kernel/src/arch/x86_64/vmm.c:74-82 | an address survives an entry exactly if it is page-aligned and below 2^52; the flags of the entry are kept |
| PteBits.WidenWord | kernel/src/arch/x86_64/vmm.c:201-208 | the bit operations on a present entry only widen its rights, as PageTree.Widened says |
| PteBits.TableWord | kernel/src/arch/x86_64/vmm.c:203-208 | the word made for a new table has the address of its frame and the rights of the request |
| PteBits.LeafWord | kernel/src/arch/x86_64/vmm.c:211-213 | the last-level word has exactly the rights and the frame of the request |
| PageTree.EffectiveRights | kernel/src/arch/x86_64/vmm.c:199-213 | write, user and execute rights combined over all four levels are those of the page's own entry; through another root the kernel half agrees on write and execute and never widens user access |
| PageTree.NoSharing | kernel/src/arch/x86_64/vmm.c:151-217 | a frame that present entries lead to from two roots, or along two paths of up to three indices, is reached along one path, and from different roots only in the upper half |
| PageTree.WalkIsLeaf | kernel/src/arch/x86_64/vmm.c:239-255 | the walk from any root finds the entry of the page, or none |
| PageTables.SamePage | kernel/src/arch/x86_64/vmm.c:23 | two addresses take the same indices exactly if bits 12 to 47 agree |
| PageTables.PathDigits | kernel/src/arch/x86_64/vmm.c:23 | the four indices, in the order the walk takes them, are the digits of the page number in base 512, most significant first |
| PageTables.PageTables.Init | kernel/src/arch/x86_64/vmm.c:164-189 | the kernel's root keeps exactly the upper half of the boot tables, with all 256 upper slots present; failure only without free pages |
| PageTables.PageTables.CreateSpace | kernel/src/arch/x86_64/vmm.c:151-162 | the new root shares the upper half and no page of any space changes (a step of the runs in PageTheorems); failure only without free pages |
| PageTables.PageTables.Map | kernel/src/arch/x86_64/vmm.c:195-217 | exactly the page asked for is mapped, with its frame and rights (a step of the runs in PageTheorems); new tables are fresh frames; on failure no page changes and no page frame is free |
| PageTables.PageTables.MapLevel | kernel/src/arch/x86_64/vmm.c:199-210 | one level down: every mapped page keeps its translation and the next table grants what is asked |
| PageTables.PageTables.Unmap | kernel/src/arch/x86_64/vmm.c:219-237 | exactly the page asked for is unmapped (a step of the runs in PageTheorems) |
| PageTables.PageTables.Physical | kernel/src/arch/x86_64/vmm.c:239-255 | the frame of the page, or none |
| PageTheorems.RunRefinesFlatMap | kernel/src/arch/x86_64/vmm.c:195-255 | after any run of map, unmap and create, from every root the walk agrees with a plain map updated by the same calls, with the rights of the last mapping |
| PageTheorems.KernelHalfShared | kernel/src/arch/x86_64/vmm.c:151-186 | after any run every root translates the upper half as the kernel's root does |
| Segments.CutExact | kernel/src/memory/vmm.c:238-256 | cutting a range out of a segment removes exactly that range; every other address keeps protection and type |
| Segments.AddValid | kernel/src/memory/vmm.c:181-197 | adding a fitting segment keeps the list disjoint, aligned and in bounds, and adds exactly its range |
| Segments.DirectCutExact | kernel/src/memory/vmm.c:238-249 | what a cut leaves of a direct segment keeps its physical targets exactly if nothing is left behind the cut; the piece behind it is always sent elsewhere, lower by its distance from the old base |
| AddressSpaces.AddressSpace.constructor | kernel/src/arch/x86_64/vmm.c:155-161 | a new address space has its bounds and no segments |
| AddressSpaces.AddressSpace.FindSpace | kernel/src/memory/vmm.c:25-40 | terminates with the lowest address from the hint (or the start) on whose range is in bounds and free, 0 exactly if there is none |
| AddressSpaces.AddressSpace.AddrToSegment | kernel/src/memory/vmm.c:115-123 | finds a segment exactly if the address is mapped |
| AddressSpaces.AddressSpace.MemoryExists | kernel/src/memory/vmm.c:126-145 | terminates for any segment order; true exactly if both bounds checks pass and every address is mapped, or, if the sum wraps, the first one is |
| AddressSpaces.CoverageExact | kernel/src/memory/vmm.c:126-145 | the scan tells whether the whole range is mapped exactly if the sum does not wrap or the first address is unmapped; for a start in bounds the answer is that every address is mapped and the end lies below the last byte of the space, or, if the sum wraps, that the first address is mapped and the wrapped end lies in the space |
| AddressSpaces.CoverageWraps | kernel/src/memory/vmm.c:127 | with one mapped page a wrapping range passes both bounds checks and the scan although it is not mapped |
| AddressSpaces.AddressSpace.MapCommon | kernel/src/memory/vmm.c:147-206 | fails exactly if the length is no positive number of pages or, at the hint itself if fixed and otherwise from the first page boundary at or above the hint (or from the start of the space, if that boundary has no room), nothing fits; else exactly the least fitting range is added |
| AddressSpaces.LeastIsFirst | kernel/src/memory/vmm.c:25-40 | the place found from the rounded hint is the least fitting page boundary at or above the hint, if the first one has room in the space, and the least fitting one of the space otherwise |
| AddressSpaces.NothingLeast | kernel/src/memory/vmm.c:25-40 | the search fails exactly if nothing fits from that boundary on |
| AddressSpaces.AddressSpace.Unmap | kernel/src/memory/vmm.c:216-260 | exactly the range is removed, however many segments it cuts; survivors keep protection and type; the cuts cover exactly what was mapped in the range |
| AddressSpaces.AddressSpace.PieceLength | kernel/src/memory/vmm.c:227-230 | the page-by-page inner loop stops at the end of the segment or of the range |
| AddressSpaces.AddressSpace.CutSegment | kernel/src/memory/vmm.c:236-256 | the list becomes the one with the piece cut out |
| UserMemory.ChunkExact | kernel/src/lib/math.c:3-5 | the copy loops take the true minimum at every step exactly if the count is below 2^31 |
| UserMemory.CopyLoopExact | kernel/src/memory/vmm.c:280-292 | with every address mapped the copy loop counts up to the low 32 bits of the count and stays there for good, unless these are 2^31 or more: then the first memcpy is given at least 2^64 - 2^31 bytes, and the loop would be left after that turn; so it is left with the count copied exactly if the count is below 2^31 |
| UserMemory.Memory.constructor | kernel/src/arch/x86_64/vmm.c:164-189 | tables over frames in use and no user page are a valid start |
| UserMemory.Memory.CreateSpace | kernel/src/arch/x86_64/vmm.c:151-162 | a new user space has no pages, and its tables are apart from the frames of all user pages |
| UserMemory.UserMemory.constructor | kernel/src/arch/x86_64/vmm.c:151-162 | an address space without segments and pages is a valid start |
| UserMemory.UserMemory.MapPage | kernel/src/memory/vmm.c:42-64 | one page is backed by a frame not in use, and the hardware grants on it exactly the write and execute rights of its protection bits, from the root of the space down; no other readable byte of any space changes; failure only without free pages or without read access |
| UserMemory.UserMemory.MapFrame | kernel/src/memory/vmm.c:62 | mapping a frame backs the page and touches no other, in this space or another |
| UserMemory.UserMemory.RightsExact | kernel/src/memory/vmm.c:42-64 | in every valid space the hardware grants on every present page exactly the rights of the segment it lies in |
| UserMemory.UserMemory.Fault | kernel/src/memory/vmm.c:262-275 | unhandled exactly if the page was present or no segment has the address; otherwise the page is backed and the hardware grants exactly the write and execute rights of the segment's protection bits |
| UserMemory.UserMemory.Resolve | kernel/src/memory/vmm.c:282-286 | after a handled fault the second translation succeeds (the inner assertion), and no readable byte changed |
| UserMemory.UserMemory.CopyTo | kernel/src/memory/vmm.c:277-294 | for every 64-bit count: nothing is moved if memory_exists refuses the range; below 2^31 an accepted range that does not wrap is moved as a whole; otherwise the copy stops at the first unmapped address, goes round for good after the low half of the count, or overruns at once; the bytes moved are there and no other readable byte of any space has changed; panics only without free pages or on an unreadable address of the range |
| UserMemory.UserMemory.CopyFrom | kernel/src/memory/vmm.c:296-313 | the same for reading: the bytes moved are exactly what is there, and no readable byte of any space changes |
| UserMemory.UserMemory.WriteThenRead | kernel/src/memory/vmm.c:277-313 | what was copied in is copied out again, across demand faults, fresh frames and table walks, unless there is no free page or an address of the range is unreadable |
| UserMemory.UserMemory.MapAnon | kernel/src/memory/vmm.c:208-210 | the new range is the least fit and gets its protection, 0 exactly if there is no place for it; no page or byte changes |
| UserMemory.UserMemory.MapAtOnce | kernel/src/memory/vmm.c:199 | with the flag that maps pages at once the same range is added and every page of it is present with exactly the rights of the protection bits; no readable byte of any space changes; panics only without free pages or without read access |
| UserMemory.UserMemory.ClearRange | kernel/src/memory/vmm.c:66-78 | exactly the pages of the range lose their translation |
| UserMemory.UserMemory.Unmap | kernel/src/memory/vmm.c:216-260 | the whole range loses segments and translations; every other address of this and of all other spaces keeps both, and its bytes |
| UserSystem.System.constructor | kernel/src/memory/vmm.c:208-313 | a memory without address spaces is a valid system |
| UserSystem.System.OthersValid | kernel/src/memory/vmm.c:208-313 | isolation: whatever was done in one space and confined to it, every other stays valid and keeps every byte readable in it |
| UserSystem.System.Create | kernel/src/arch/x86_64/vmm.c:151-162 | a space is added to a valid system; no byte of any other space changes |
| UserSystem.System.Write | kernel/src/memory/vmm.c:277-294 | copying into one space moves all bytes exactly if the range is accepted, keeps all spaces valid and every byte readable in the others |
| UserSystem.System.Read | kernel/src/memory/vmm.c:296-313 | the same for copying out of one space |
| UserSystem.System.Perform | kernel/src/memory/vmm.c:208-313 | any call in one space (copy in or out, access with a fault, mapping at once or on demand, unmapping) achieves what it is for: the bytes are in place or read, the page is present exactly if the address is mapped, the least fitting range is added, the range is cleared; all other spaces stay valid and read as before; it panics only without a free page or for lack of read access where it accesses memory |
| UserSystem.System.RoundTrip | kernel/src/memory/vmm.c:277-313 | what was copied into a space is copied out of it again after any sequence of calls in other spaces and of calls in the same space that name other addresses; it fails only where a copy or a call had reason to panic |
| Scheduler.Scheduler.constructor | kernel/src/sched/sched.c:17-18 | the queue starts empty in a valid state |
| Scheduler.Scheduler.CreateThread | kernel/src/arch/x86_64/sched.c:140-162 | the new thread is ready, on no CPU, with its first frame's stack pointer saved |
| Scheduler.Scheduler.ThreadSchedule | kernel/src/sched/sched.c:46-50 | the thread becomes the last of the queue |
| Scheduler.Scheduler.InitCpu | kernel/src/arch/x86_64/sched.c:273-290 | a CPU joins with its idle thread picked and its boot context as a thread to be destroyed |
| Scheduler.Scheduler.Exit | kernel/src/arch/x86_64/syscall.c:15-18 | the current thread is marked for destruction and stays current |
| Scheduler.Scheduler.Pick | kernel/src/arch/x86_64/sched.c:252-264 | takes the first queued thread, else the idle thread, else stays; both assertions hold; SchedTheorems.PickGivesUp says what that means for the current thread |
| Scheduler.Scheduler.Adopt | kernel/src/arch/x86_64/sched.c:106-109 | the next thread becomes current on this CPU and the old one on none |
| Scheduler.Scheduler.Save | kernel/src/arch/x86_64/sched.asm:12 | the old thread's stack pointer is stored |
| Scheduler.Scheduler.Load | kernel/src/arch/x86_64/sched.asm:13 | the CPU moves to the next thread's stack |
| Scheduler.Scheduler.Drop | kernel/src/sched/sched.c:64-71 | the old thread is parked if idle, destroyed if it exited, and queued last otherwise |
| SchedState.StepKeeps | kernel/src/arch/x86_64/sched.c:83-124 | every step of every CPU keeps the invariant |
| SchedState.NextIsNotCurrent | kernel/src/arch/x86_64/sched.c:261 | the first queued thread is never the one that picks, nor its idle thread |
| SchedTheorems.Reachable | kernel/src/sched/sched.c:17-71 | from the state before any CPU runs, every interleaving of steps keeps the invariant, so what is proved of runs holds in every reachable state |
| SchedTheorems.ExactlyOnePlace | kernel/src/sched/sched.c:46-71 | under any interleaving every thread is in exactly one place: queued once, or with exactly one CPU (current, picked, leaving or parked), or not yet scheduled |
| SchedTheorems.StacksApart | kernel/src/arch/x86_64/sched.c:99-124 | no two CPUs run on one stack, none on that of a queued thread, and every queued thread's saved stack pointer is where it stopped |
| SchedTheorems.ResumesWhereStopped | kernel/src/arch/x86_64/sched.asm:12-13 | a context switch resumes a thread exactly where its execution stopped |
| SchedTheorems.ResumesWhereSaved | kernel/src/arch/x86_64/sched.asm:3-22 | in every run the stack pointer a switch loads for a thread is the one that was in the register of the CPU that last saved the thread, whichever that was, or the one the thread was made with; since then nothing moved on its stack and no other one was written down |
| SchedTheorems.PickGivesUp | kernel/src/arch/x86_64/sched.c:252-264 | a pick ends with a ready thread other than the current one picked, the first of the queue or else the idle thread, except that the idle thread stays current while nothing is queued |
| SchedTheorems.SwitchCompletes | kernel/src/arch/x86_64/sched.c:99-124 | in every run the fifth step of a CPU from a pick on ends the switch, whatever other CPUs do in between: it runs the thread picked, and the last one is parked if idle, gone if it had exited, and queued last otherwise |
| SchedTheorems.ExitedGone | kernel/src/sched/sched.c:66-69 | in every run a thread that exits is gone after five more steps of its CPU, whatever other CPUs do in between |
| SchedTheorems.BootContextGone | kernel/src/arch/x86_64/sched.c:273-290 | in every run the boot context of a CPU is gone after its first switch, which ends on the idle thread |
| SchedTheorems.FirstInFirstOut | kernel/src/sched/sched.c:46-62 | the thread at position k of the queue is the k-th to be taken from then on, whichever CPUs take: none is overtaken |
| SchedTheorems.NeverLost | kernel/src/sched/sched.c:64-71 | a thread that does not exit is never destroyed, over any run |
| SchedTheorems.IdleStays | kernel/src/sched/sched.c:65 | an idle thread is never queued and never destroyed |
| Lists.Links.Append | kernel/src/lib/list.c:3-8 | inserts right behind a position of a plain or circular list, and no other element's links change |
| Lists.Links.Prepend | kernel/src/lib/list.c:10-15 | inserts right before a position; before the head of a circular list the element becomes the last |
| Lists.Links.Delete | kernel/src/lib/list.c:17-20 | removes exactly one element |
| Lists.Links.IsEmpty | kernel/src/lib/list.c:22-24 | true exactly for a list without elements |
| Lists.Links.Elements | kernel/src/lib/list.h:54 | the traversal visits the elements in order and ends |
| RdskPacker.Packer.constructor | rdsk/src/main.c:216-222 | the packer starts with empty tables and room for the header |
| RdskPacker.Packer.NametableWrite | rdsk/src/main.c:67-80 | the name and its terminator are appended, through growth of the buffer |
| RdskPacker.Packer.DirtableCreate | rdsk/src/main.c:95-118 | a record is added at the head of its parent's chain; through growth of the table all indices stay what they were |
| RdskPacker.Packer.FiletableCreate | rdsk/src/main.c:129-154 | the same for files, with offset and size |
| RdskPacker.Packer.CreateRecurse | rdsk/src/main.c:157-201 | afterwards the directory's chains hold exactly the tree below it, and of the older records only its two chain heads have changed |
| RdskPacker.Packer.Create | rdsk/src/main.c:203-261 | the image has every table where its header says, and the tables hold exactly the packed tree |
| RdskImage.WrittenIsImage | rdsk/src/main.c:234-256 | the sections do not overlap: no write damages another section |
| RdskImage.HeaderBack | kernel/src/fs/rdsk.c:14-27 | the header fields the driver reads are those the packer wrote |
| RdskImage.DirBack | kernel/src/fs/rdsk.c:62-65 | decoding directory record i of an image gives the packer's record |
| RdskImage.FileBack | kernel/src/fs/rdsk.c:67-70 | the same for files; both kinds of record have the same packed size |
| RdskImage.LayoutExact | rdsk/src/main.c:203-256 | names, directory table and file table lie behind one another and behind the contents, each at the next multiple of 64, with the counts and sizes of the tables |
| RdskImage.HeaderInPlace | rdsk/src/main.c:18-31 | signature, revision, sizes, counts and offsets stand at their offsets in the packed header |
| RdskImage.DirInPlace | rdsk/src/main.c:42-49 | every field of a directory record stands at its offset in the packed record |
| RdskImage.FileInPlace | rdsk/src/main.c:33-40 | the same for files |
| Bytes.LittleEndianAt | rdsk/src/main.c:16-48 | byte k of a stored integer counts the k-th power of 256 |
| RdskTree.HoldsStill | rdsk/src/main.c:95-154 | what the tables hold stays while they grow and other directories get children |
| RdskListing.FilesFit | kernel/src/fs/rdsk.c:119-128 | file chains go to ever smaller indices, so they are finite and no longer than the table |
| RdskListing.DirsFit | kernel/src/fs/rdsk.c:108-117 | the same for directory chains |
| RdskListing.ListedOnce | kernel/src/fs/rdsk.c:190-219 | the listing order has every child exactly once |
| RdskListing.ListingOrder | kernel/src/fs/rdsk.c:190-219 | of each kind of child the one packed last comes first |
| RdskListing.ChildIsLast | kernel/src/fs/rdsk.c:158-167 | with equal names a lookup finds the file packed last, or without such a file the directory packed last |
| RdskListing.ChildFound | kernel/src/fs/rdsk.c:158-167 | with unique names a lookup finds exactly the child of that name |
| RdskDriver.Driver.constructor | kernel/src/fs/rdsk.c:233-246 | mounting passes the revision check and starts with empty caches of the right sizes |
| RdskDriver.Driver.Addresses | kernel/src/fs/rdsk.c:62-80 | records lie where the packer put them, and an index is found again from the address |
| RdskDriver.Driver.GetDirNode | kernel/src/fs/rdsk.c:82-93 | one node per directory record, for good |
| RdskDriver.Driver.GetFileNode | kernel/src/fs/rdsk.c:95-106 | one node per file record, for good |
| RdskDriver.Driver.SameName | kernel/src/lib/str.c:9-14 | the comparison with a name in the image is equality of names |
| RdskDriver.Driver.FindDir | kernel/src/fs/rdsk.c:108-117 | finds the first directory of that name in the chain, or that there is none |
| RdskDriver.Driver.FindFile | kernel/src/fs/rdsk.c:119-128 | the same for files |
| RdskDriver.Driver.NodeName | kernel/src/fs/rdsk.c:140-143 | the stored name of a file or directory, although a directory's record is read as a file's; none exactly for the root |
| RdskDriver.Driver.Lookup | kernel/src/fs/rdsk.c:145-170 | leads to the node of the child with everything below it, to itself for ".", to its parent's node for "..", and fails exactly if there is no such child; of several children of one name it finds the first in the chains, files before directories |
| RdskDriver.Driver.Walk | kernel/src/fs/rdsk.c:145-170 | lookups along any path reach exactly what the packed tree has there |
| RdskDriver.Driver.ReadNode | kernel/src/fs/rdsk.c:172-188 | reading returns the packed file's bytes from the offset on, at most as many as asked |
| RdskDriver.SliceExact | kernel/src/fs/rdsk.c:172-188 | what is read is as long as asked for or ends with the file, byte for byte from the offset on |
| RdskDriver.Driver.Readdir | kernel/src/fs/rdsk.c:190-219 | an offset stands for one place of the listing, and the call moves one place on; offsets stay within the number of records |
| RdskDriver.Driver.ListAll | kernel/src/fs/rdsk.c:190-219 | repeated calls yield every child's name exactly once, then the end |
| RdskTheorems.PackAndMount | rdsk/src/main.c:203-261 | for every tree the packed image mounts as that tree, unless it exceeds 64-bit offsets or 2^31 records |
| RdskTheorems.ReadPath | kernel/src/fs/rdsk.c:145-188 | reading any path of a mounted image gives what the packed tree has there |
| RdskTheorems.DownAndUp | kernel/src/fs/rdsk.c:82-93 | a child is found with its kind exactly if there is one of that name, and the ".." of a child directory is the very node it was looked up from |
| RdskForest.ForestSolo | kernel/src/fs/rdsk.c:82-170 | the nodes of an image without equal names side by side are a well-formed file system of the VFS forest, with nothing mounted in it |
| RdskForest.WalkIsTarget | kernel/src/fs/rdsk.c:145-170 | walks of the VFS through the image lead where the path leads in the packed tree, and fail where it leads nowhere |
| RdskForest.FirstMount | kernel/src/fs/vfs.c:12-39 | mounting the image first leaves exactly this forest |
| RdskForest.ImagePaths | kernel/src/fs/vfs.c:48-120 | looking up the text of a path in the mounted image leads to the node that has what the packed tree has there |
| RdskTheorems.LookupIsStep | kernel/src/fs/rdsk.c:145-170 | the driver's lookup operation is the step that the VFS model takes in the forest of the image: same errors, same node, null only for the parent of the root |
| VfsState.HopOnce | kernel/src/fs/vfs.c:108-110 | without stacked mounts crossing a mount once or at every character is the same |
| VfsState.PathSplits | kernel/src/fs/vfs.c:143-173 | the text of a path splits into the names it was made of |
| VfsPaths.LookupsVisible | kernel/src/fs/vfs.c:48-116 | no lookup that starts where nothing above is hidden ends at a node that a mount hides, exactly if no mount that can be seen is covered by another |
| VfsLookup.ScanExact | kernel/src/fs/vfs.c:58-112 | the character loop follows the components of every text from every node exactly if no mounts are stacked |
| VfsLookup.StackedLookups | kernel/src/fs/vfs.c:58-112 | with two systems mounted on "/" one over the other, "/a" and "//a" are different files |
| VfsPaths.PathRoundTrip | kernel/src/fs/vfs.c:48-173 | in any forest, stacked mounts included, looking up the path of a node finds that node exactly if a path can spell its names, one crossing from the bottom of its stack of mounts ends at it, and for every directory above as many crossings as the next name has characters, and one more behind a name |
| VfsPaths.VisibleRoundTrip | kernel/src/fs/vfs.c:48-173 | without stacked mounts that means: a path can spell its names, nothing is mounted on it and no directory above it is covered |
| VfsGrowth.WithChildOk | kernel/src/fs/tmpfs.c:46-70 | a new node keeps the forest well-formed and mounts unstacked |
| VfsGrowth.PathsKept | kernel/src/fs/tmpfs.c:46-70 | a new node changes no other node's path, hides nothing, and leaves all stacks of mounts as they are |
| VfsGrowth.NewNodePath | kernel/src/fs/vfs.c:129-141 | a node made in a directory is found under that directory's path and its own name exactly if a path can spell them and the stacks of mounts on the way are left where they should be; without stacked mounts, if the directory is visible |
| VfsGrowth.TmpfsSolo | kernel/src/fs/tmpfs.c:182-188 | a fresh tmpfs is a well-formed file system of one directory |
| VfsGrowth.AttachedOk | kernel/src/fs/vfs.c:12-39 | a mount keeps the forest well-formed, and unstacked exactly if it is not on the root of a mounted system |
| VfsGrowth.MountedPaths | kernel/src/fs/vfs.c:143-153 | what is mounted on a node has the node's path as prefix |
| VfsGrowth.OldPaths | kernel/src/fs/vfs.c:143-153 | a mount renames no node that was there |
| VfsGrowth.MountLeads | kernel/src/fs/vfs.c:12-39 | without stacked mounts, after a mount the path of the node it is on leads to the root of the mounted system exactly if it led to the node before |
| Vfs.Vfs.DirFind | kernel/src/fs/tmpfs.c:37-44 | the first child of that name, or none |
| Vfs.Vfs.NodeLookup | kernel/src/fs/tmpfs.c:86-104 | one component: an error unless the node is a directory, itself, its parent (nothing, for a root), its child of that name, or the error that there is none |
| Vfs.Vfs.Root | kernel/src/fs/vfs.c:41-46 | the root of the first mounted system, or an error if there is none |
| Vfs.Vfs.Scan | kernel/src/fs/vfs.c:58-112 | the character loop: components up to slashes, and one mount crossed after every character, in any forest |
| Vfs.Vfs.Lookup | kernel/src/fs/vfs.c:118-120 | absolute paths are looked up from the root behind one slash, others from the given directory by the character loop; without root or directory there is an error; without stacked mounts this is the walk along the components of the path |
| Vfs.Vfs.RelativeLookup | kernel/src/fs/vfs.c:48-57 | a path without a leading slash, looked up from a directory, leads where it leads behind the directory's own path, looked up from anywhere, if that path leads to the directory |
| VfsPaths.RelativeIsBehind | kernel/src/fs/vfs.c:48-120 | in any forest, stacked mounts included, a relative text behind a slash and the path of a directory leads where it leads from the directory itself, if that path leads to the directory |
| VfsPaths.LookupWalks | kernel/src/fs/vfs.c:58-112 | without stacked mounts a lookup, with or without a leading slash, is the walk along the components of its path |
| Vfs.Vfs.Mount | kernel/src/fs/vfs.c:12-39 | the first mount takes no path; later ones attach where the path leads, unless something is mounted there; the new system is the last of the list, it and its mount node point to each other, and nothing else changes; on any error nothing changes; unstacked mounts become stacked exactly on the root of a mounted system |
| Vfs.Vfs.MakeNode | kernel/src/fs/vfs.c:129-141 | makes exactly one node, of the kind and name asked for and first among the children of the directory the path leads to, or fails with the error of the source and changes nothing |
| Vfs.Vfs.Path | kernel/src/fs/vfs.c:143-173 | terminates with the names from the top down to the node; the assertion fails exactly if a node on the way is no directory |
| Vfs.Vfs.PathThenLookup | kernel/src/fs/vfs.c:118-173 | vfs_path and then vfs_lookup lead back to the same node under exactly the condition of VfsPaths.PathRoundTrip, in any forest |
| Numerals.ValueOfDigits | init/src/format.c:318-327 | the digits of a number in radix 2 to 16 have that number as their value |
| Numerals.AppendDigit | init/src/format.c:318-326 | dividing by the weight gives the next digit of the number |
| Numerals.DigitCount | init/src/format.c:299-302 | the weight loop counts the digits |
| Numerals.DigitsShape | init/src/format.c:318-327 | digits are of the radix and of the case asked for, without a leading zero but for 0 itself |
| NumberFormat.Print | init/src/format.c:296-328 | prints sign or prefix, padding, digits and fill in the places the flags ask for |
| NumberFormat.Weigh | init/src/format.c:298-302 | finds the weight of the leading digit, which never exceeds 64 bits, and the number of digits |
| NumberFormat.PrintDigits | init/src/format.c:317-327 | prints the digits from the leading one on |
| NumberFormat.PrintedLength | init/src/format.c:296-328 | with precision at least 1 exactly max(width, length) characters are printed; with precision 0 and a number other than 0 exactly if its last digit is not 0, and with 0 exactly if a sign, a prefix or spaces in front are printed or no width asks for more |
| NumberFormat.DigitsComplete | init/src/format.c:317 | all digits are printed exactly if the precision is at least 1 or the last digit is not 0 |
| NumberFormat.PrecisionZeroLosesDigits | init/src/format.c:317 | `%.0u` prints 100 as 1 |
| Directives.Directive | init/src/format.c:123-328 | flags, width, precision (digits or `*`), length and conversion are read as the text spells them, and the converted argument is printed; PrintParse.IntegerPrinted says what that means |
| Directives.MeantIsOnly | init/src/format.c:214-232 | what an argument means is the one number of the type that length prefix and signedness name which agrees with it in all bits of that type |
| Console.GetArg | init/src/console.c:44-61 | the k-th argument, or an error |
| Console.ArgumentsAreWords | init/src/console.c:44-61 | with any blanks between and behind the words, the k-th argument is the k-th word exactly if no tab stands right behind it, and there are no further arguments |
| Console.LeadingBlanks | init/src/console.c:44-61 | blanks in front of the first word shift all arguments by one |
| Console.TabInArgument | init/src/console.c:55-56 | the first argument of "a<tab>b" is the whole of it |
| Console.GetArgNum | init/src/console.c:63-93 | the value of a decimal or 0x-prefixed argument modulo 2^64, though powers and sums wrap on the way; an error exactly for other characters |
| Console.NumberMeant | init/src/console.c:63-93 | hexadecimal digits behind 0x and decimal digits are numbers, taken modulo 2^64, and nothing else is |
| PrintParse.IntegerPrinted | init/src/format.c:123-328 | a directive of any flags, width, precision, length prefix and integer conversion prints the number that its argument means: sign or prefix, padding, and the digits of the absolute value, as long as width and length are ints |
| PrintParse.IntegerText | init/src/format.c:123-328 | the text itself, for any flags, width, precision and prefix: spaces in front, sign or prefix, zeros, digits, spaces behind, each as many as flags, width and precision ask for |
| PrintParse.StarWidth | init/src/format.c:140-149 | a width taken from an argument counts as if it stood in the text, a negative one as its absolute value with left alignment |
| PrintParse.StarPrecision | init/src/format.c:161-172 | the same for a precision; a negative one counts as 1 |
| PrintParse.SignedRoundTrip | init/src/format.c:123-328 | what `d` or `i` prints, with any flags, width and length prefix, reads back as the signed number that was meant |
| PrintParse.PrintThenParse | init/src/console.c:63-93 | what `u` or `#x` prints, with any length prefix, flags and width, get_arg_num reads back as the number that was meant exactly if no spaces were put in front |

## Left out

- Pmm.Zone.RegionAdd: one zone at a time; the loop over the two zones is not modelled, nor is pmm_free_address. Region bases and sizes lie below 2^52.
- Pmm.Zone.Alloc: zeroing on request and the lock around the lists.
- Heap.Heap.AllocAlign: stops where the search is misled by false room; what the allocator would write then is not modelled.
- Page tables: accessed, dirty and cache-disable bits, the TLB shootdown and the lock releases; frames are integers in the tree, and the bit operations on the 64-bit words are proved separately.
- PageTables.PageTables.Init: for boot tables without large-page entries; the source copies the upper slots of the root whatever they lead to.
- PageTables.PageTables.Map: only for addresses of the half that the address space owns, which the bounds of the address spaces ensure.
- PageTables.PageTables.CreateSpace: for a space identifier that no table uses yet; destroying address spaces does not exist in the source.
- AddressSpaces.AddressSpace.MapCommon: the cache attribute and the zeroing attribute; the flag that maps pages at once is in UserMemory.UserMemory.MapAtOnce; the segment descriptors' own pages in the kernel's address space are a supply of descriptors.
- UserMemory.UserMemory.MapPage: for anonymous segments; the targets of direct segments are device memory outside the model.
- UserMemory.UserMemory.Fault: on user addresses and anonymous segments; the contents of a fresh frame are arbitrary.
- UserMemory.UserMemory.CopyTo: what a memcpy of almost 2^64 bytes does; the answer Overrun gives the state in front of it.
- UserMemory.UserMemory.CopyFrom: as CopyTo.
- UserMemory.UserMemory.Unmap: for spaces of anonymous segments; the frames behind the range stay in use, as in the source.
- UserSystem.System.Perform: calls are atomic, as the locks of the source make them; a panic ends the run; copies are of fewer than 2^31 bytes; UserMemory.UserMemory.CopyTo says what longer ones come to.
- Scheduler: floating-point state, segment bases, timers, the process tree, and the freeing of kernel stacks (which the source does not do either); the CPU's interrupts are masked while it switches.
- Scheduler.Scheduler.Exit: the rest of the system call; the thread's next step is to pick.
- RdskPacker.Packer.CreateRecurse: reading the host's directories; the tree is given, and the error paths of the file operations are left out.
- RdskPacker.Packer.Create: the write of the root's links in front of the directory table goes to a scratch record of arbitrary contents.
- RdskDriver.Driver.Lookup: names are compared as strings without terminator; write, mkdir and create requests, which the driver refuses.
- RdskForest.ForestSolo: for trees without equal names in one directory, which a host file system does not have.
- Vfs.Vfs.Lookup: without the create and exclusive modes; a ".." at the root of a mounted file system stays there, as in the source.
- Vfs.Vfs.MakeNode: file contents of tmpfs.
- Directives.Directive: strings, characters, letters that are no integer conversion, the copying of plain text between directives, and widths and precisions from which on an int overflows.
- Drivers, interrupts, ELF loading, system calls, graphics and the terminal.
