# Verified model of the paskakasaOS kernel

The repository is a small x86-64 kernel with its boot loader. This project
models the parts of it that keep data structures in raw memory, and proves what
those structures mean over every run.

- **Paging** (`Bits`, `PageWords`, `PageTable`, `Exhaustion`, `PagingRuns`,
  `ExhaustedRuns`, `PoolFootprint`, `TableWords`, `HardwareWalk`,
  `KernelSpace`, `WorstCase`, `DataFrames`, `FrameAllocator`, `VirtualMemory`,
  `BootTables`, with `Sets` for set sizes). Physical memory is frames of 512
  words;
  `map_page` builds a four-level tree in it with frames from a bitmap pool.
  `PageTable.TableAt` follows present entries from the root along a path of
  indices, so paths of length 0 to 3 end at tables and paths of length 4 at
  mapped frames. Ownership says that different paths of length at most 3 end
  at different frames, all handed out by the pool. One lemma, "filling an
  absent entry makes exactly one more path lead somewhere", carries the rest:
  the finite map, the frame count, the windows of `init_paging`, the handover
  from the boot loader's tables.
- **Kernel heap** (`HeapBlocks`, `HeapRuns`, `KernelHeap`, `HeapPlacement`).
  Block headers in raw words, split in place. `size` counts 8-byte words
  because the block pointer is moved as a word pointer, while callers mean
  bytes.
- **Terminal** (`Bytes`, `TextLayout`, `Terminal`, `Numbers`). Row buffers
  edited and scrolled in place, against a layout of the whole text; number
  printing.
- **Scheduling** (`Rotation`, `Scheduler`). The interrupt handler as the step
  of a state machine whose input is an arbitrary sequence of interrupt frames.
- **FAT32** (`Disk`, `Directory`, `ClusterChain`, `Fat32`, `Volume`,
  `FontPage`). The directory scan and the cluster-chain walk over a disk that is
  a function from block address to sector, against a volume as a formatter lays
  it out.
- **ACPI** (`Madt`). The record walk, against the firmware's layout of the
  records.

Words are natural numbers below 2^64; `&`, `|` and the shifts are defined bit by
bit in `Bits`, and `PageWords` shows that the kernel's masks are divisions and
remainders. Modules with a class follow the C code step by step and are proved
to compute the functions of the value-level modules; the theorems are about
those functions. `hide` statements in proofs only keep definitions that a proof
does not need out of the solver's way.

## What does not hold in general

Some promises hold only under a condition, which is proved to be the exact one.
Lemmas at single inputs show how they fail.

- `map_page` does not look at what `pmm_allocate` returns. Ownership survives a
  call if and only if the tables it misses are at most the frames left
  (`Exhaustion.OwnedIffEnoughFrames`). Over a whole run it survives if and only
  if every call that needed new tables found them
  (`ExhaustedRuns.OwnedIffAllServed`); for a run of `map_page` calls alone, if
  and only if the pool has a frame for every distinct index prefix
  (`ExhaustedRuns.OwnedIffTablesFit`). Otherwise, in a pool of at most 100 pages,
  physical frame 0 becomes a table and no later call repairs that
  (`Exhaustion.MapPageKeepsBroken`); `ExhaustedRuns.RootTakesTheLastFrame` is
  the smallest such state. In a larger pool whose 100 bitmap slots are all used
  the scan reads past the bitmap, which is not modelled.
- `kalloc(n)` leaves a well-formed list if and only if n is negative, is at least
  the free block's size, or is at least 3 and leaves at least 3 words
  (`HeapBlocks.KeepsTilingIffSafe`). A request of 0 makes a block its own
  successor (`HeapBlocks.ZeroMakesSelfLoop`), and the n bytes handed out
  fit their block exactly from n = 4 on (`HeapBlocks.PayloadStaysInBlockIff`).
  Positive multiples of 4 never break anything.
- The handler saves and advances before it looks at the vector, so an interrupt
  that does not switch shifts every later save. All frames go to their own slot
  if and only if all interrupts but the last one switch
  (`Rotation.FramesStayHomeIffSwitching`); two interrupts suffice to overwrite a
  neighbour (`Rotation.OneOtherVectorOverwritesNeighbour`).
- `save_context` never copies rbx. When all vectors switch, a preempted process
  gets all its registers back if and only if its rbx was the slot's initial one
  (`Rotation.AllRegistersReturnIff`, `Rotation.RbxIsLost`).
- A file of n bytes, where n is the size its entry stores, is read back whole if
  and only if clusters are one sector or n is at most 512
  (`ClusterChain.ReadsBackIff`, `Fat32.StoredIsReadBack`); of a larger cluster
  only the first sector is read (`ClusterChain.TwoSectorClusterIsHalfRead`). The
  walk ends inside the table if and only if it does so within 128 steps
  (`ClusterChain.ChainExistsIff`, `ClusterChain.SelfLoopHasNoChain`).
- The kernel reads its font into one frame. The read stays in that frame if and
  only if the chain has at most eight clusters (`FontPage.ReadStaysInFrameIff`);
  a font of 4128 bytes has nine (`FontPage.NineClustersSpill`). What spills lies
  in the frame that becomes the root, which `init_paging` clears: from then on
  the file is whole in memory if and only if the bytes beyond the first frame
  were zero (`FontPage.FontSurvivesRootIff`), and the tables are the same as
  without the spill (`FontPage.SpillLeavesNoTrace`). The terminal has copied the
  glyphs by then.
- The pool that `init_pmm` takes from a memory region lies in it if and only if
  the end of its last frame does (`FrameAllocator.PoolInRegionIff`). For a region
  that begins with the kernel it ends one page late
  (`FrameAllocator.PoolEndsOnePageLate`), because the length is reduced by less
  than the base is moved.
- The pool keeps clear of the kernel unless its region begins below the kernel
  and its frames reach it (`FrameAllocator.PoolMissesKernelIff`).
- Of the end marks the format allows the walk knows only 0x0FFFFFFF; another one
  ends no chain (`Volume.OtherEndMarksAreFollowed`).
- The walk over the MADT ends if and only if it meets no record of length 0
  (`Madt.WalkEndsIff`, `Madt.ZeroLengthStands`).
- The first cluster of a file is the one its entry stores if and only if the
  stored high half is zero (`Fat32.FirstClusterIsStoredIff`,
  `Fat32.ClusterIsCut`).
- All long names go to the first slot of the file table. A file's slot holds its
  own name if and only if it is the first file and no long name follows it
  (`Fat32.NameIsRightIff`, `Fat32.SecondNameOverwritesFirst`).
- The 21-byte buffer of `itoa` is long enough for every 64-bit value if and only
  if the radix is at least 9 (`Numbers.BufferSufficesIff`), although the code
  accepts every radix from 2 (`Numbers.LargestOctalOverflows`).
- The boot loader's tables map a frame at its own address if and only if it lies
  below 2 MiB (`BootTables.FrameIsMappedIff`), and those of `init_paging` do so
  if and only if one of the identity windows has it
  (`KernelSpace.FrameReachableIff`). Which tables can be written follows from
  that.

## What callers must provide

Requirements the C code has and does not check appear as `requires` clauses: a
page-aligned pool that is not at 0 and lies in memory, with a slot left in the
100-slot bitmap when there are more pages than slots; for `init_paging`, which
runs under the boot loader's tables, a pool below 2 MiB and apart from those
tables (`BootTables.BootTablesServeInit`) with at least as many frames as its
windows need, 47 at most; for later calls, which go through the kernel's own
tables, a pool below the 6400-page window; a screen of 1 to 128 columns and 1 to
95 rows; a directory sector with at most five files to record; a cluster chain
that ends inside the first table sector; a MADT without a record of length 0.
Virtual and physical addresses given to `map_page`, and the framebuffer address,
are arbitrary.

## Model

| member | source | states |
|---|---|---|
| PageWords.IndexMacros | kernel/memory/vmm.c:14-17 | the four shift-and-mask index macros give the base-512 digits of the 36-bit page number, for every address |
| PageWords.TableEntryBits | kernel/memory/vmm.c:47 | the masked and flagged address of a table is the frame number times 4096 plus 3 |
| PageWords.LeafEntryWord | kernel/memory/vmm.c:69 | a leaf is present and names the frame of the physical address, whatever the low and high bits of that address are |
| PageWords.LeafBits | kernel/memory/vmm.c:68-70 | a leaf has all 64 bits of its physical address and bits 0, 1 and 7, and no other |
| PageWords.TableBits | kernel/memory/vmm.c:47 | an entry for a table has bits 12 to 51 of its address and bits 0 and 1, and no other |
| PageWords.AlignedLeaf | kernel/memory/vmm.c:69 | the leaf of a page-aligned address is that address plus 0x83 |
| PageTable.PathsArePages | kernel/memory/vmm.c:35-38 | two addresses take the same path exactly when they lie in the same page |
| PageTable.StoreAddsOnePath | kernel/memory/vmm.c:47 | filling an absent entry of a solely owned table makes exactly one more path lead somewhere, and that to the entry's frame |
| PageTable.HangsTable | kernel/memory/vmm.c:44-47 | a level with an absent entry takes the next frame of the pool, clears it, links it, and changes no other path |
| PageTable.NextTableStep | kernel/memory/vmm.c:44-50 | one level keeps ownership and returns the table its entry leads to |
| PageTable.SetLeafStep | kernel/memory/vmm.c:68-70 | the last level keeps ownership, fills an absent entry and leaves a present one alone |
| PageTable.MapPageStep | kernel/memory/vmm.c:33-71 | a call keeps ownership, takes exactly the missing tables, makes no table but those on its page's path, and changes at most the translation of its own page |
| PageTable.RemapIsNoOp | kernel/memory/vmm.c:68-70 | mapping a page that is already mapped changes nothing at all |
| Exhaustion.OwnedIffEnoughFrames | kernel/memory/vmm.c:44-66 | ownership survives a call if and only if the tables it misses are at most the frames the pool has left |
| Exhaustion.NotEnoughFrames | kernel/memory/vmm.c:44-66 | a call that misses more tables than the pool has frames leaves a path of proper tables that ends at frame 0 |
| Exhaustion.MapPageKeepsBroken | kernel/memory/vmm.c:33-71 | once such a path exists, every later call keeps it, whatever it maps |
| Exhaustion.OwnedStaysInMemory | kernel/memory/vmm.c:44-66 | from an owned state a call uses only table pointers that lie in memory, also when the pool gives out on the way |
| ExhaustedRuns.OwnedIffAllServed | kernel/memory/vmm.c:33-71 | over any run of map_page calls and data requests the tables are owned at the end if and only if every call that needed new tables found them |
| ExhaustedRuns.OwnedIffTablesFit | kernel/memory/vmm.c:33-71 | with map_page calls only, if and only if the distinct index prefixes are at most the frames of the pool |
| ExhaustedRuns.FedRunStays | kernel/memory/vmm.c:33-71 | in a run the pool can feed every call uses only table pointers that lie in memory |
| ExhaustedRuns.RootTakesTheLastFrame | kernel/memory/vmm.c:44-47 | with the root in the last frame of the pool the first call puts frame 0 under the root |
| PagingRuns.NewRootIsFresh | kernel/memory/vmm.c:118-120 | the first frame, cleared, is an owned tree with no entries |
| PagingRuns.RunRefinesMap | kernel/memory/vmm.c:33-71 | after any run the pool can feed, the walk is the finite map of the requests, every table is a distinct frame of the pool, and the frames used are one for each distinct index prefix and one for each data request |
| PagingRuns.PrefixesAreRequested | kernel/memory/vmm.c:35-37 | the counted prefixes are exactly those of the pages requested |
| PagingRuns.FirstMappingWins | kernel/memory/vmm.c:68-70 | that map sends a page to the physical address of the first request naming it, and has exactly the pages named |
| PagingRuns.DataFramesAreNotTables | kernel/memory/pmm.c:93-109 | frames taken for data are pairwise different and none of them is ever a table |
| PoolFootprint.OnlyTablesAreWritten | kernel/memory/vmm.c:33-71 | a run the pool can feed writes frames of its tables only: frames outside the pool, frames handed out before and data frames keep their contents |
| TableWords.RunWords | kernel/memory/vmm.c:43-70 | after any such run every word of every table is known: the entry for the table below or 0, the leaf for the first address asked for or 0 |
| HardwareWalk.HardwareRefinesMap | kernel/memory/vmm.c:33-71 | the processor's own walk yields a 4-KiB page at the frame of the finite map, writable, closed to user mode, executable unless the address had bit 63 set, with the page attribute bit, or a fault |
| HardwareWalk.InitHardware | kernel/memory/vmm.c:115-131 | after init_paging the processor sees exactly the three windows, as writable and executable pages of the kernel |
| HardwareWalk.InitLeaf | kernel/memory/vmm.c:124-128 | the leaf of every page of the windows to the last bit; in the framebuffer window it has the offset of the framebuffer in its page among its flags |
| KernelSpace.RequestsAreWindows | kernel/memory/vmm.c:124-128 | the calls of init_paging ask for exactly the union of the kernel, low and framebuffer windows, wrap-around of the 32-bit framebuffer address included |
| KernelSpace.RequestsAreAddresses | kernel/memory/vmm.c:124-128 | and for exactly these physical addresses, where a low page the framebuffer window reaches first gets the framebuffer's |
| KernelSpace.InitTranslates | kernel/memory/vmm.c:124-128 | the three stretches of 6400 pages, address by address |
| KernelSpace.InitMapsNoMore | kernel/memory/vmm.c:124-128 | no other canonical address above 4 GiB is mapped |
| KernelSpace.AtMost46Tables | kernel/memory/vmm.c:124-128 | for every framebuffer address those calls need at most 46 tables below the root |
| KernelSpace.InitPagingBuildsWindows | kernel/memory/vmm.c:115-131 | init_paging translates exactly the union of the windows, keeps ownership and takes at most 47 frames |
| KernelSpace.FortySevenFramesSuffice | kernel/memory/pmm.c:20 | 47 free frames are always enough for init_paging |
| WorstCase.FortySevenFramesAreTaken | kernel/memory/vmm.c:115-131 | the bound is reached: for one framebuffer address init_paging takes exactly 47 frames |
| KernelSpace.FrameReachableIff | kernel/memory/vmm.c:124-130 | after init_paging a frame is mapped at its own address if and only if one of the identity windows has it |
| KernelSpace.InitIsFirst | kernel/memory/vmm.c:115-131 | init_paging is the first of the runs WindowsStay and TablesStayReachable are about |
| KernelSpace.WindowsStay | kernel/memory/vmm.c:115-131 | no later run of calls changes a translation of the three windows |
| KernelSpace.TablesStayReachable | kernel/memory/vmm.c:124-130 | with the pool below the low window every table, at any time after init_paging and whichever call made it, is mapped at its own physical address |
| DataFrames.FramesAreCloseTogether | kernel/memory/vmm.c:133-144 | consecutive frames of alloc are one to four apart, each is mapped at its own address where its page was not mapped, and no other translation changes |
| DataFrames.TakeIsRun | kernel/memory/vmm.c:133-144 | alloc is a run of requests that takes each frame and maps it at its own address, so all that holds of runs holds after it |
| DataFrames.FourPerRoundSuffice | kernel/memory/vmm.c:133-144 | four free frames for each frame asked for are always enough |
| DataFrames.FramesAreAdjacent | kernel/memory/vmm.c:133-144 | where the pool and page 0 are identity-mapped, alloc hands out adjacent frames, then 0 for every further one, and leaves the tables as they are |
| DataFrames.MappedFramesSuffice | kernel/memory/vmm.c:133-144 | where the pool is identity-mapped one free frame for each one asked for is enough |
| DataFrames.FedRoundsStay | kernel/memory/vmm.c:133-144 | rounds of alloc that the pool can feed use only table pointers that lie in memory |
| DataFrames.AllocAfterInitIsContiguous | kernel/memory/vmm.c:133-144 | at any time after init_paging, with the pool below the low window and for every n, alloc(n) leaves the tables alone and hands out adjacent frames while there are some, 0 after that |
| FrameAllocator.Pool.InitPmm | kernel/memory/pmm.c:47-91 | the pool comes from the first usable entry before the end of the map, moved past the kernel if that entry holds it; with none, base and length stay; total memory grows by the sizes of all usable entries before the end, modulo 2^64 |
| FrameAllocator.Pool.PmmAllocate | kernel/memory/pmm.c:93-109 | scanning the bitmap for the first free slot is counting: the next frame, or 0 and no change when none is left |
| FrameAllocator.ChoiceIsUnique | kernel/memory/pmm.c:61-84 | at most one entry is chosen, and one is exactly when memory of type 1 not at address 0 is among the first 50 entries, before any all-zero one |
| FrameAllocator.ChosenIsFirst | kernel/memory/pmm.c:61-84 | the chosen entry is the first of that kind |
| FrameAllocator.BytesArePartitioned | kernel/memory/pmm.c:66-67 | total memory is all memory of the map less that of the other types |
| FrameAllocator.PoolOfRegion | kernel/memory/pmm.c:68-82 | a region that begins in the kernel gives a pool from the first page boundary a page or more past the kernel, shorter by the kernel's length; any other region is the pool |
| FrameAllocator.PoolOverrun | kernel/memory/pmm.c:69-73 | by how much such a pool passes the end of its region, for every size |
| FrameAllocator.OtherRegionIsFilled | kernel/memory/pmm.c:77-82 | a region without the kernel has no room for one more page |
| FrameAllocator.AtMostHundredFrames | kernel/memory/pmm.c:20 | at most 100 frames of a pool are handed out |
| FrameAllocator.PoolMissesKernelIff | kernel/memory/pmm.c:68-82 | the pool keeps clear of the kernel unless its region begins below the kernel and its frames reach it |
| FrameAllocator.PoolInRegionIff | kernel/memory/pmm.c:68-72 | every frame that can be handed out lies in the chosen region if and only if the end of the last one does |
| FrameAllocator.PoolEndsOnePageLate | kernel/memory/pmm.c:68-72 | for a page-multiple region that begins with the kernel and has at most 100 pages beyond it, the pool ends one page past the region |
| VirtualMemory.Vmm.TakeFrame | kernel/memory/pmm.c:93-109 | the next frame of the pool, or address 0 when it is used up, with memory unchanged |
| VirtualMemory.Vmm.NextLevel | kernel/memory/vmm.c:44-50 | the in-place block computes one level of the model, also on a pool that is used up |
| VirtualMemory.Vmm.ZeroPage | kernel/memory/vmm.c:46 | clearing a table sets its 512 words and no other |
| VirtualMemory.Vmm.MapPage | kernel/memory/vmm.c:33-71 | the in-place code computes MapPage of the state, for every address and also on a pool that is used up |
| VirtualMemory.Vmm.InitPaging | kernel/memory/vmm.c:115-131 | the loop over 6400 pages computes the run InitPagingBuildsWindows is about, also when the pool gives out on the way |
| VirtualMemory.Vmm.Alloc | kernel/memory/vmm.c:133-144 | alloc takes n frames, or one when n is 0, each mapped at its own address, and returns the address of the first; also when the pool gives out |
| BootTables.BootPaging.MapKernel | bootloader/stage2.c:404-429 | the seven static tables after map_kernel |
| BootTables.BootTablesMapTwoWindows | bootloader/stage2.c:404-429 | their walk is exactly the two 2-MiB windows, and nothing else is mapped |
| BootTables.BootEntryBits | bootloader/stage2.c:404-429 | an entry for one of the arrays has its address and bits 0 and 1, and no other |
| BootTables.BootLeaf | bootloader/stage2.c:404-429 | the leaves are those map_page makes for the same addresses |
| BootTables.BootHardware | bootloader/stage2.c:404-429 | the processor sees exactly the two windows, as writable and executable pages of the kernel |
| BootTables.HandoverKeepsTranslations | kernel/memory/vmm.c:115-131 | every address the boot loader's tables translate is translated the same by the kernel's, after init_paging and every later run |
| BootTables.HandoverKeepsHardware | kernel/memory/vmm.c:115-131 | and the processor sees the same rights and page attribute there |
| BootTables.FrameIsMappedIff | bootloader/stage2.c:404-429 | the boot tables map a frame at its own address if and only if it lies below 2 MiB |
| BootTables.BootTablesServeInit | kernel/memory/vmm.c:115-131 | with the pool below 2 MiB and apart from the boot tables, these stay intact while the kernel's are built and map every frame handed out or written at its own address |
| HeapBlocks.SafeKeepsTiling | kernel/memory/alloc.c:39-60 | a safe request leaves the heap tiled, with the last block split in the requested size and the rest |
| HeapBlocks.KeepsTilingIffSafe | kernel/memory/alloc.c:56-74 | after a request some tiling of the heap exists if and only if the request is safe |
| HeapBlocks.ZeroMakesSelfLoop | kernel/memory/alloc.c:39-52 | a request of 0 makes the last block used and its own successor |
| HeapBlocks.SplitExactly | kernel/memory/alloc.c:39-54 | every word after a split whose headers do not overlap: six written, the others as before |
| HeapBlocks.OverlappingSplit | kernel/memory/alloc.c:39-54 | every word after a request of 0, 1 or 2, where later stores meet earlier ones |
| HeapBlocks.SetByteKeepsRest | kernel/memory/alloc.c:45-50 | a status byte leaves the other seven bytes of its word |
| HeapBlocks.StartAfterIs | kernel/memory/alloc.c:27-28 | the heap starts on the first page boundary after the kernel's end |
| HeapBlocks.PayloadStaysInBlockIff | kernel/memory/alloc.c:60 | the n bytes handed out end before the next header if and only if n is at least 4 |
| HeapRuns.CachedPointerIsFirstFit | kernel/memory/alloc.c:56-74 | the cached pointer serves the block a first-fit scan of the list finds, and kalloc returns null exactly when the last block is not larger than the request |
| HeapRuns.TailOfTiling | kernel/memory/alloc.c:56-61 | on a heap in order kalloc splits the last block for every request it serves, and changes nothing for the others |
| HeapRuns.RequestKeepsOrder | kernel/memory/alloc.c:56-74 | a safe request whose payload fits keeps the blocks in order and appends its allocation, or is refused |
| HeapRuns.MultiplesOfFourAreLegal | kernel/scheduler.c:74 | a positive multiple of 4 is always such a request, and leaves a free block of which the next one is too |
| HeapRuns.WriteKeepsOrder | kernel/memory/alloc.c:39-54 | writing any word that touches a payload keeps every header |
| HeapRuns.RunKeepsOrder | kernel/memory/alloc.c:24-74 | over every run of such requests and payload writes the blocks tile the heap and earlier allocations stay in place |
| HeapRuns.RunKeepsPayloads | kernel/memory/alloc.c:39-60 | over every such run a payload word keeps its value until somebody writes it |
| HeapRuns.PayloadsAreApart | kernel/memory/alloc.c:39-60 | payloads meet no header and no other payload and stay inside the heap |
| KernelHeap.KernelHeap.InstallHeap | kernel/memory/alloc.c:24-37 | the heap starts on a page boundary after the kernel as one free block |
| KernelHeap.KernelHeap.SplitBlock | kernel/memory/alloc.c:39-54 | the stores of split_block, in their order, overlapping headers included |
| KernelHeap.KernelHeap.FindFree | kernel/memory/alloc.c:64-71 | the list walk ends and returns the first free block that is larger, or null |
| KernelHeap.KernelHeap.Kalloc | kernel/memory/alloc.c:56-74 | kalloc for every int: the result and the new heap, null exactly when the last block is not larger, in order again whenever the request is safe |
| HeapPlacement.HeapWritesMissTables | kernel/memory/alloc.c:27-28 | with the pool placed by the kernel-region branch, every heap address translates, at any time after init_paging, to a frame below the pool and so to no page table |
| Bytes.Memmove | kernel/utils/mem.c:23-34 | the destination gets the old source bytes, however the ranges overlap, and nothing else changes |
| Bytes.Memset | kernel/utils/mem.c:36-43 | n bytes are set to the low byte of the value and nothing else changes |
| Bytes.Strcmp | kernel/utils/mem.c:12-21 | 0 if and only if the first n bytes agree, otherwise 1 |
| TextLayout.PrintingComposes | kernel/utils/text_terminal.c:118-156 | printing a and then b is printing a followed by b |
| TextLayout.PrintingWraps | kernel/utils/text_terminal.c:118-156 | character-by-character printing gives the rows of the whole text: its lines, each cut into pieces of the width |
| TextLayout.RowsFit | kernel/utils/text_terminal.c:138-146 | printing never makes a row longer than the width |
| Terminal.ScreenShowsLastRows | kernel/utils/text_terminal.c:79-116 | the screen is the last rows of the text, or all of them and empty lines |
| Terminal.TextTerminal.constructor | kernel/utils/text_terminal.c:230-245 | the terminal starts as an empty screen with zeroed buffers |
| Terminal.TextTerminal.Scroll | kernel/utils/text_terminal.c:79-116 | scrolling in place moves every row up and leaves the last one empty |
| Terminal.TextTerminal.PrintCount | kernel/utils/text_terminal.c:118-156 | the buffers and the cursor are those of the layout of everything printed: its last rows, their lengths, zeros after them, empty rows below the cursor |
| Numbers.RenderDecodes | kernel/utils/text_terminal.c:247-269 | reading the printed digits back gives the number, in every base |
| Numbers.NoLeadingZero | kernel/utils/text_terminal.c:257-261 | no leading zero, except for the number 0 |
| Numbers.DigitCount | kernel/utils/text_terminal.c:257-261 | k digits suffice exactly for the numbers below the k-th power of the base |
| Numbers.BufferSufficesIff | kernel/utils/text_terminal.c:249-254 | 21 digits suffice for every 64-bit number if and only if the base is at least 9 |
| Numbers.LargestOctalOverflows | kernel/utils/text_terminal.c:249-254 | the largest 64-bit number has more than 21 octal digits |
| Numbers.DecimalAndHexLengths | kernel/utils/text_terminal.c:249 | at most 20 decimal and 16 hexadecimal digits |
| Numbers.Itoa | kernel/utils/text_terminal.c:247-269 | the two loops write the digits and return their number; for a base outside 2..36 they write nothing and return 0 |
| Rotation.CounterCountsInterrupts | kernel/scheduler.c:134-138 | counter is the number of interrupts handled, modulo 4, whatever the vectors |
| Rotation.CounterDrifts | kernel/interrupts/interrupts.c:105-138 | counter is ahead of the running slot by the non-switching interrupts since the last switch, modulo 4 |
| Rotation.UncopiedWordsStay | kernel/scheduler.c:111-132 | rbx, vector and error words of a slot never change |
| Rotation.SavedIs | kernel/scheduler.c:111-132 | a saved slot has the nineteen copied words of the interrupted context and keeps its other three |
| Rotation.SlotHoldsLatest | kernel/scheduler.c:111-139 | a slot holds the nineteen words of the latest interrupt with its number modulo 4, and its initial other three |
| Rotation.SwitchResumes | kernel/interrupts/interrupts.c:105-120 | a switch resumes the frame captured three interrupts before, or the slot's initial context, with the initial rbx |
| Rotation.OthersReturn | kernel/interrupts/interrupts.c:121-138 | a vector that does not switch goes on with the interrupted frame, to the last word |
| Rotation.ResumedIsRunning | kernel/interrupts/interrupts.c:105-138 | after every interrupt of every run, drift or not, the interrupted frame goes on and the process stays, or the frame of the slot that is running from then on |
| Rotation.TicksCountSwitches | kernel/interrupts/interrupts.c:112-118 | the tick count grows by the number of interrupts with vector 0x8, 0x20 or 0x32 |
| Rotation.ContextsArePreserved | kernel/interrupts/interrupts.c:105-120 | when all vectors switch, process k mod 4 runs after interrupt k and resumes with the context of its own last preemption, except rbx, or its initial one |
| Rotation.AllRegistersReturnIff | kernel/scheduler.c:111-132 | a preempted process gets back every register the stub pops if and only if its rbx was what the slot started with |
| Rotation.RbxIsLost | kernel/scheduler.c:111-132 | four timer interrupts after which process 0 resumes with rbx 0 instead of 7 |
| Rotation.OwnSlotIffNoDrift | kernel/scheduler.c:111-139 | an interrupt saves to the interrupted process's slot if and only if the drift it meets is a multiple of 4 |
| Rotation.FramesStayHomeIffSwitching | kernel/interrupts/interrupts.c:105-138 | all frames go to their own slots if and only if all interrupts but the last switch |
| Rotation.OneOtherVectorOverwritesNeighbour | kernel/interrupts/interrupts.c:105-138 | after one non-switching interrupt the running process's next frame overwrites another process's context |
| Scheduler.Scheduler.AllocStack | kernel/scheduler.c:72-76 | the stack top is 0x4000 above a fresh payload, and 0x4000 itself when kalloc has no room |
| Scheduler.Scheduler.InitScheduler | kernel/scheduler.c:78-107 | slots 3, 1 and 2 get their start contexts and slot 0 is left alone; with room for three stacks these are disjoint and inside the heap, with room for none all three have their top at 0x4000 |
| Scheduler.MultiplesOfFourAreSafe | kernel/scheduler.c:72-76 | a free block of a multiple of 4 words is never broken by the three stack requests |
| Scheduler.StartedIs | kernel/scheduler.c:80-87 | the seven fields of a start context, and no other field changes |
| Scheduler.FirstSwitchEnters | kernel/scheduler.c:78-107 | the first switch to a slot enters its process: its entry, its stack, the kernel code selector and interrupts enabled |
| Scheduler.Scheduler.SaveContext | kernel/scheduler.c:111-139 | the slot at counter gets the copied registers and status READY, and counter advances around 4 |
| Scheduler.Scheduler.InterruptGeneralHandler | kernel/interrupts/interrupts.c:105-139 | the in-place handler is the step of the state machine, for every frame; without a switch it returns the frame it was given |
| Directory.FoundMeansWaiting | kernel/storage/fat32.c:55-84 | the flag is set exactly when a long-name entry has not been used up |
| Directory.EntryEffect | kernel/storage/fat32.c:55-84 | what each kind of entry does to the scan, by its first byte and its attribute byte |
| Directory.EntriesAreSlices | kernel/storage/fat32.c:55 | entry k is bytes 32k to 32k + 31 of the sector |
| Directory.UntilEndStops | kernel/storage/fat32.c:56-58 | the scan ends at the first entry whose first byte is 0 |
| Directory.PickedAreNamedFiles | kernel/storage/fat32.c:55-84 | the recorded entries are, in order, exactly the plain ones for which a long name waits |
| Directory.TwoEntriesPerFile | kernel/storage/fat32.c:65-83 | each file takes two entries, so a sector gives at most 8 |
| Directory.NameIsLastLongName | kernel/storage/fat32.c:65-70 | the one name kept is that of the last long-name entry |
| Directory.PickedHasName | kernel/storage/fat32.c:65-83 | every recorded file has a long-name entry of its own, the latest one waiting for it |
| Disk.RegistersHoldAddress | kernel/storage/ata_pio.c:9-14 | the sector read is the one whose number is in the four address registers, 28 bits of it |
| Disk.Written16 | kernel/include/fat32.h:5-30 | a 16-bit number written low byte first is read back |
| Disk.Written32 | kernel/include/fat32.h:5-30 | a 32-bit number written low byte first is read back |
| Disk.Read16 | kernel/include/fat32.h:5-30 | the bytes of a 16-bit number that is read are those that write it |
| Disk.Read32 | kernel/include/fat32.h:5-30 | the bytes of a 32-bit number that is read are those that write it |
| Volume.ParameterBlockIsRead | kernel/storage/fat32.c:94-95 | the four fields of a parameter block are read back, whatever the other bytes |
| Volume.TableIsRead | kernel/storage/fat32.c:118 | the 128 numbers of a table sector are read back |
| Volume.LinkedIsChain | kernel/storage/fat32.c:28-37 | clusters that name each other up to the mark 0x0FFFFFFF are a chain the walk follows |
| Volume.ChainIsLinked | kernel/storage/fat32.c:28-37 | conversely the walk's chains are linked like this, but for a 0 in place of the mark |
| Volume.OtherEndMarksAreFollowed | kernel/storage/fat32.c:30-36 | the format's other end marks are taken for clusters outside the table, so there is no chain |
| Volume.TableIsFound | kernel/storage/fat32.c:118 | on a formatted volume the reader's table sector is the first of the first table |
| Volume.ClusterIsFound | kernel/storage/fat32.c:121 | and a cluster's address leads to its sectors, clusters being numbered from 2 |
| Volume.DirectoryIsFirstCluster | kernel/storage/fat32.c:48 | the directory's address is that of cluster 2, all tables behind the first table's, and not the table's own |
| Volume.DirectoryIsFound | kernel/storage/fat32.c:46-48 | on a formatted volume the entries scanned are those of the first data sector |
| Volume.EntriesAreRead | kernel/storage/fat32.c:39-44 | long name, short name, cluster and size of a file are read back from its two entries, but for the high half of the cluster |
| Volume.DirectoryIsRecorded | kernel/storage/fat32.c:50-83 | the table of up to five listed files: short names, low cluster halves and sizes in order, the last long name in the first slot |
| Volume.OtherSlotsStay | kernel/storage/fat32.c:50-83 | slots past the last file stay as they are |
| Volume.VolumeFileIsStored | kernel/storage/fat32.c:90-141 | a file of a formatted volume has all that LoadFile asks for: it is found by name through directory, table and clusters |
| ClusterChain.ChainsAreAcyclic | kernel/storage/fat32.c:127-139 | a chain that ends visits no cluster twice |
| ClusterChain.ChainExistsIff | kernel/storage/fat32.c:28-37 | the walk ends inside the table if and only if the walk cut off after 128 clusters does |
| ClusterChain.SelfLoopHasNoChain | kernel/storage/fat32.c:127-139 | a cluster that names itself starts no chain, so the walk never ends |
| ClusterChain.ChainIsUnique | kernel/storage/fat32.c:28-37 | a start cluster has at most one chain |
| ClusterChain.ReadFindsFirstSectors | kernel/storage/fat32.c:121-139 | reading along a chain gives exactly the first sector of each of its clusters |
| ClusterChain.ReadsBackIff | kernel/storage/fat32.c:117-139 | the n bytes of a file laid along a chain are read back if and only if clusters are one sector or n is at most 512 |
| ClusterChain.TwoSectorClusterIsHalfRead | kernel/storage/fat32.c:117-139 | a file of one two-sector cluster is read as 512 of its 1024 bytes |
| ClusterChain.SectorsAreApart | kernel/storage/fat32.c:121 | different sectors of a file never share a block address, 32-bit and 28-bit wrap-around included |
| ClusterChain.WrittenIsLaid | kernel/storage/fat32.c:121-139 | a writer that lays content along the chain produces a disk that holds it, so reading undoes writing |
| Fat32.NameIsRightIff | kernel/storage/fat32.c:65-83 | a file's slot holds its own long name if and only if it is the first file and no long name follows it |
| Fat32.SecondNameOverwritesFirst | kernel/storage/fat32.c:65-83 | with two long-name and file pairs the first file gets the second name and the second file none |
| Fat32.HighBitsAreLost | kernel/storage/fat32.c:78 | the computed first cluster is the low half alone |
| Fat32.FirstClusterIsStoredIff | kernel/storage/fat32.c:78 | it is the cluster the entry stores if and only if the stored high half is zero |
| Fat32.ClusterIsCut | kernel/storage/fat32.c:78 | an entry that stores cluster 0x10003 is read as cluster 3 |
| Fat32.LookupIsLast | kernel/storage/fat32.c:106-110 | of several files with the name the last one is taken |
| Fat32.LookupFindsNothing | kernel/storage/fat32.c:106-115 | a name no slot has gives cluster 0 |
| Fat32.IntoSlices | kernel/storage/fat32.c:121-139 | data stored in memory is where it was stored, and everything else as it was |
| Fat32.Reader.InitFat | kernel/storage/fat32.c:90-98 | the parameter block is read from the partition start, then the directory is recorded |
| Fat32.Reader.ProcessDirectoryArea | kernel/storage/fat32.c:46-88 | the loop over the sector records exactly what the pure scan selects |
| Fat32.Reader.FindFile | kernel/storage/fat32.c:104-110 | the lookup loop computes the last match |
| Fat32.Reader.ReadFile | kernel/storage/fat32.c:100-141 | not found and nothing written when the cluster is 0; otherwise memory gets exactly the first sectors of the chain, one after the other, and nothing else changes |
| Fat32.Reader.LoadFile | kernel/start.c:64-65 | for a file that the directory names last, whose chain has the clusters its stored size takes and holds its content, scanning the directory and reading the file puts its bytes in memory if and only if clusters are one sector or the size is at most 512, and changes nothing but the sectors read |
| Fat32.StoredIsReadBack | kernel/storage/fat32.c:100-141 | looking such a file up and following its chain reads its bytes under the same condition and no other |
| FontPage.ReadStaysInFrameIff | kernel/start.c:61-65 | a read leaves the memory after its frame alone if and only if the chain has at most eight clusters |
| FontPage.NineClustersSpill | kernel/start.c:65 | a file of 4128 bytes takes nine one-sector clusters and does not stay in its frame |
| FontPage.FontSurvivesRootIff | kernel/memory/vmm.c:118-120 | after the root is cleared a file read into the frame before it is whole if and only if its bytes beyond that frame were zero |
| FontPage.SpillLeavesNoTrace | kernel/memory/vmm.c:118-120 | the root and all other frames are the same whatever was spilled into the root's frame |
| Fat32.Reader.ReadChain | bootloader/stage2.c:177-195 | the walk terminates and stores the chain's first sectors in order |
| Madt.LaidOutRecordsAreReadBack | kernel/acpi.c:123-157 | any list of complete records laid out in a table is well-formed and is read back record by record |
| Madt.WellFormedIsALayout | kernel/acpi.c:46-81 | a stretch whose lengths lead to its end is the layout of the records read from it |
| Madt.WellFormedIsSeen | kernel/acpi.c:46-81 | on a well-formed table the fields the walk reads are those of its records and nothing beyond them |
| Madt.LaidOutTableIsParsed | kernel/acpi.c:46-81 | for a table laid out from complete records the walk ends and finds their local APICs and the last I/O APIC |
| Madt.FirmwareTableIsParsed | kernel/acpi.c:121-157 | of a table written with its length, its local APIC address and its entries the kernel finds both addresses, every identifier and the end |
| Madt.WalkEndsIff | kernel/acpi.c:129-157 | the walk reaches the end of the table if and only if it meets no record of length 0 |
| Madt.ZeroLengthStands | kernel/acpi.c:156 | at a record of length 0 the walk stands for ever |
| Madt.StopsAtEnd | kernel/acpi.c:129-157 | the walk stops less than 255 bytes past the end, and exactly there when the lengths lead to it |
| Madt.Apic.ParseMadt | kernel/acpi.c:129-157 | the walk reports the identifier of every local APIC record visited, in order, leaves the last I/O APIC address, or the old one if there is none, whatever non-zero lengths the records have, and stops at the end of a well-formed table |

## Left out

- PageTable.MapPage: accesses through a table pointer outside the modelled memory are no-ops; under ownership there are none.
- VirtualMemory.Vmm.MapPage: asks for table pointers that stay in memory, which ownership guarantees; after a failed call a leaf of frame 0 may be followed as a table pointer anywhere.
- VirtualMemory.Vmm.InitPaging: a pool with too few frames is covered as long as it has at most 100 pages and the calls stay in memory.
- VirtualMemory.Vmm.Alloc: an exhausted pool is covered as long as it has at most 100 pages and the calls stay in memory.
- VirtualMemory.Vmm.TakeFrame: a pool of more than 100 pages needs a free bitmap slot, as in PmmAllocate.
- VirtualMemory.Vmm.NextLevel: the three identical blocks of map_page are one method, and the mask of `(uint64_t)pud` is taken of an address that is page-aligned; a pool of more than 100 pages needs a free bitmap slot when the entry is absent.
- FrameAllocator.Pool.PmmAllocate: with more pages than the 100 bitmap slots and no free slot the C loop reads past the bitmap; a free slot is required in that case.
- FrameAllocator.Pool.InitPmm: does not place the pool inside its memory region, because the code does not always; PoolInRegionIff says when it does.
- KernelHeap.KernelHeap.Kalloc: the split after the list walk is not reached on a heap in order, so that branch holds only an assertion.
- Scheduler.Scheduler.InitScheduler: a free block one of the three requests would break, which no heap of 4-word multiples has, is excluded.
- Fat32.Reader.InitFat: a directory with more than five named files makes the C code write past its table; at most five are required.
- Fat32.Reader.ProcessDirectoryArea: the same bound of five files.
- Fat32.Reader.LoadFile: the same bound of five files; memory is one byte array, FontPage relates it to frames.
- Numbers.Itoa: a value with more digits than its 21-byte buffer, possible below base 9, makes the C code write past it; such values are excluded.
- Terminal.TextTerminal.PrintCount: drawing of glyphs and clearing of pixels are left out; the string comes with its length because `strlen` is declared with an 8-bit result.
- Fat32.Reader.ReadFile: a chain that leaves the 128 entries makes the C code read past its array and a cyclic one never ends; a chain that ends is required. The value returned after a successful read is undefined in C; the model returns whether the file was found.
- Fat32.Reader.ReadChain: the boot loader's walk differs only in its fixed destination address and in not checking that the file exists.
- Madt.Apic.ParseMadt: starts from a given table; a record of length 0, on which the C loop never ends, is excluded.
- Heap and stack addresses: that the heap is disjoint from the linker's boot stack is not claimed.
- Port I/O, ATA polling, APIC and PIC programming, model-specific registers, serial logging, sound, video and fonts: hardware effects.
- Boot assembly, descriptor tables, `bootloader/setup_longmode.c`, `kernel/spinlock.c` and `map_kernel` of `kernel/memory/vmm.c` (never called).
- The entry lookup in the RSDT and XSDT and checksums: they depend on compiler struct layout.
