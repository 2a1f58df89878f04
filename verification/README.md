# A verified model of the GaOS kernel

GaOS is a small x86_64 kernel for several processors. This project models the
parts of it that carry state through loops, linked structures and interleavings,
and proves what they keep over every input, every run and every schedule:

* **Address spaces.** Four-level page tables in simulated physical memory, in the
  layout of section 4.5 of the Intel SDM Volume 3A. `Layer`, `Leaf` and `Space`
  are an independent reference walk; `map`, `map_range`, the translation and the
  clone made by `sys_fork` are methods on a `Machine` and are proved against it.
  (`EntryBits`, `EntryWords`, `PageTables`, `LayerFlags`, `TableManager`, `Fork`)
* **Physical pages.** The bitmap pools with their search hint, in place over
  64-bit words, against a machine on sets of pages whose runs keep live ranges
  disjoint. (`Bitmap`, `PageAllocation`, `PageAllocator`, `FreePages`)
* **Heap blocks.** Two doubly-linked lists whose blocks tile the arena, with the
  bytes of memory. (`BlockLists`, `BlockArena`, `BlockAllocator`, `StoredNames`)
* **Scheduling.** Linked run queues, rotation, placement, pid lookup, the two GS
  base registers, and a simulation that shows each task a processor of its own.
  (`Rotation`, `RoundRobin`, `LoadBalance`, `TaskScheduler`, `TaskContext`,
  `ContextSwitch`, `ContextRuns`, `Processor`)
* **Processes.** Parent links, the ancestor walk of `waitpid` and the claim of a
  pid, as whole calls on the scheduler and interleaved. (`ProcessTree`, `WaitPid`,
  `Processes`, `ClaimRace`)
* **Locks and start-up.** Test-and-set locks and the handshake that brings up the
  processors, as step systems for any number of them. (`Spinlock`, `Smp`)
* **Devices and strings.** The device tree with its parent-creating recursion,
  lookup and path printing; path sanitising; number printing; `memmove` and
  `strncmp`. (`DeviceTree`, `DevicePaths`, `DeviceCreation`, `DeviceManager`,
  `Paths`, `Numbers`, `ByteCopies`, `CStrings`)

`dafny verify dfyconfig.toml` checks the whole project.

Conventions: a kernel panic is a result (`ok == false`, `None`, a status), not a
precondition. Pointers that the kernel links by hand are numbers, with 0 for
null, except in the run queues, where they are object references. A body that
runs under a lock is one step; `Spinlock.MutualExclusion` is the reason. Frames,
addresses and free pages are arbitrary: whatever the page allocator picks, the
results hold.

## What turned out to be false

Each of these is kept in the model as the code has it, with the exact condition
proved:

* `map_range` allocates the layer after the last page too. With enough free
  frames it succeeds exactly when the range stays below the last 2 MiB of the
  48-bit space (`TableManager.Machine.MapRange`); the last page alone shows the
  overrun (`TableManager.Machine.MapLastPage`).
* The bitmap of a pool can be too short for its pages, because its byte count is
  rounded down before it is rounded up to pages. `PageAllocation.BitmapCoversExactly`
  says when; `PageAllocation.ShortBitmapExists` names a region of 32770 pages.
* `block_allocate` wraps around for requests above 2^64 - 4144 bytes
  (`BlockAllocator.RequestArithmetic`, `BlockAllocator.LargestRequestWraps`).
* A task whose id is the magic of a processor context is taken for a processor
  context (`TaskContext.SwitchInstalls`).
* A pid can be claimed twice: nothing holds a lock between the test and the write
  of `is_waited`. It happens exactly when two waiters are between the two
  (`ClaimRace.ClaimedTwiceExactly`, `ClaimRace.RaceExists`).
* `num_to_string` writes two bytes into a buffer of one
  (`Numbers.NeverPastTheEnd`).
* Printing the path of a device puts the terminator past the buffer when the cut
  falls inside a name (`DevicePaths.EndInside`, `DevicePaths.CutInsideName`).
* Creating a device is refused when a sibling merely begins with its name, and a
  missing parent whose name is such a prefix is used through a null pointer
  (`DeviceCreation.Outcome` through `DeviceManager.Devices.Create`,
  `DeviceManager.PrefixInTheWay`). With a trailing delimiter nothing is ever
  refused, so a second device of the same name appears behind the first and no
  lookup finds it (`DeviceManager.NeverRefused`, `DeviceManager.RoundTrip`).
* A device name is copied without its terminator. One follows it inside its block
  exactly when the length is no multiple of 16 or the block kept a zero byte
  (`StoredNames.TerminatedExactly`, `StoredNames.SixteenLetters`).
* `vfs_dirname` says it skips the delimiter of a folder, but the test looks at the
  terminator. It gives the intended directory exactly for paths that do not end in
  a delimiter and for "/" (`Paths.DirectoryAsIntended`, `Paths.FolderIsNotSkipped`).
* A page in frame 0 translates to 0 like an absent one
  (`TableManager.Machine.TranslateToPhysical`).

## Model

| member | source | states |
|---|---|---|
| `EntryBits.FieldsDetermine` | kernel/src/arch/x86_64/page_table_manager/table_manager.h:18-21 | reading a 64-bit entry as low flags, frame number and high flags loses nothing |
| `EntryBits.PresentField` | kernel/src/arch/x86_64/page_table_manager/table_manager.h:43-44 | the present bit of the word is the present bit of its fields |
| `EntryBits.OrFlagsField` | kernel/src/arch/x86_64/page_table_manager/table_manager.c:122-123 | or-ing flags into the word is or-ing them into its flag fields |
| `EntryBits.OrLowField` | kernel/src/arch/x86_64/page_table_manager/table_manager.c:29-32 | the same for the low flags a layer entry gets |
| `EntryBits.OrAddressField` | kernel/src/arch/x86_64/page_table_manager/table_manager.c:28-28 | or-ing a page-aligned address into the word or-s the frame numbers bit by bit |
| `EntryBits.GetAddressField` | kernel/src/arch/x86_64/page_table_manager/table_manager.h:31-34 | the address read from a word is aligned and is that of its frame |
| `EntryBits.SetAddressField` | kernel/src/arch/x86_64/page_table_manager/table_manager.c:10-15 | replacing the address of the word replaces the frame and keeps both flag fields |
| `EntryBits.LeafWriteField` | kernel/src/arch/x86_64/page_table_manager/table_manager.c:122-124 | the two statements that write a leaf, on the 64-bit word, give the mapped entry of the model |
| `EntryBits.NewLayerField` | kernel/src/arch/x86_64/page_table_manager/table_manager.c:21-29 | the statements that link a new layer, on the 64-bit word, give the layer entry of the model |
| `EntryBits.ForkFlags` | kernel/src/syscalls/sys_fork.c:75-75 | the mask fork applies keeps exactly the flag fields |
| `PageTables.SameFrameKeepsLayers` | kernel/src/arch/x86_64/page_table_manager/table_manager.c:31-32 | adding flags to a present entry moves no layer |
| `PageTables.FreshLayerAddsOne` | kernel/src/arch/x86_64/page_table_manager/table_manager.c:23-30 | linking a fresh zeroed layer adds exactly that layer, at the path of its entry |
| `PageTables.SameFrameKeepsTree` | kernel/src/arch/x86_64/page_table_manager/table_manager.c:31-32 | adding flags to a layer entry keeps the tree invariant and every leaf |
| `PageTables.FreshLayerKeepsTree` | kernel/src/arch/x86_64/page_table_manager/table_manager.c:23-30 | linking a fresh layer keeps the tree invariant (no layer shared, absent entries zero) and every leaf |
| `PageTables.LeafWriteAt` | kernel/src/arch/x86_64/page_table_manager/table_manager.c:122-124 | a leaf write changes the leaf of its own page and of no other page in the whole space |
| `PageTables.LeafWriteUpdatesSpace` | kernel/src/arch/x86_64/page_table_manager/table_manager.c:122-124 | the same for the address space as a whole, and the tree invariant is kept |
| `PageTables.EditsTransitive` | kernel/src/arch/x86_64/page_table_manager/table_manager.c:37-125 | edits compose: only the table's own layers and frames taken from the free set change, every frame taken is a layer, and flag bits only accumulate |
| `PageTables.EditsKeepPathAllows` | kernel/src/arch/x86_64/page_table_manager/table_manager.c:17-35 | flag bits granted on the way to a page are never taken away by later edits |
| `PageTables.PathOfInjective` | kernel/src/arch/x86_64/page_table_manager/table_manager.c:112-115 | two pages with the same four indices are the same page |
| `LayerFlags.FreshLayerGrants` | kernel/src/arch/x86_64/page_table_manager/table_manager.c:21-29 | linking a fresh layer gives its entry the low byte of the flags and the present bit, no high flag, and changes no other entry between layers |
| `LayerFlags.SameFrameGrants` | kernel/src/arch/x86_64/page_table_manager/table_manager.c:31-32 | going through a present layer adds that byte to its entry and changes no other |
| `LayerFlags.LeafWriteGrants` | kernel/src/arch/x86_64/page_table_manager/table_manager.c:122-124 | a leaf write changes no entry between layers |
| `LayerFlags.GrantsThen` | kernel/src/arch/x86_64/page_table_manager/table_manager.c:37-125 | such grants compose: the entries on either way were granted, every other one is what it was |
| `LayerFlags.OnlyLowByte` | kernel/src/arch/x86_64/page_table_manager/table_manager.c:21-21 | the no-execute bit and the available bits never reach an entry between layers |
| `LayerFlags.WaysLead` | kernel/src/arch/x86_64/page_table_manager/table_manager.c:75-104 | the entries `map_range` grants are exactly those on the way to a layer it visits |
| `TableManager.MapPagesAt` | kernel/src/arch/x86_64/page_table_manager/table_manager.c:62-73 | `n` successive calls of `map` give page `v + k` the frame `frame + k`, and leave every page outside the range alone |
| `TableManager.MapPagesSplit` | kernel/src/arch/x86_64/page_table_manager/table_manager.c:56-73 | mapping `n` pages and then `m` more is mapping `n + m`: chunks compose |
| `TableManager.ReadOverWrite` | kernel/src/arch/x86_64/page_table_manager/table_manager.c:108-154 | after any sequence of maps a page translates to the frame of the last call that mapped it, and as before if none did |
| `TableManager.IndexFields` | kernel/src/arch/x86_64/page_table_manager/table_manager.c:112-115 | the four 9-bit index fields of an address are the path and slot of its page |
| `TableManager.FreshStep` | kernel/src/arch/x86_64/page_table_manager/table_manager.c:23-30 | one walking step through a missing layer keeps the walk: tree, leaves, permissions on the path |
| `TableManager.SameStep` | kernel/src/arch/x86_64/page_table_manager/table_manager.c:31-34 | one walking step through a present layer keeps the walk |
| `TableManager.LeafStep` | kernel/src/arch/x86_64/page_table_manager/table_manager.c:122-124 | the write at the end of a walk maps exactly one page |
| `TableManager.MappedKeeps` | kernel/src/arch/x86_64/page_table_manager/table_manager.c:123-124 | or-ing the flags and then replacing the address is the mapped entry, with the earlier flags still set |
| `TableManager.Machine.AllocatePage` | kernel/src/memory/physical/page_allocator.c:115-157 | some free frame, zeroed and taken off the free set; fails exactly when none is free |
| `TableManager.Machine.AllocateNextLayer` | kernel/src/arch/x86_64/page_table_manager/table_manager.c:17-35 | goes one layer down, allocating it if absent, with the tree, every leaf and the permissions kept; takes at most one frame and fails only with none left before the call; exactly one entry between layers is granted the low byte of the flags, the high flags stay, every other entry is unchanged |
| `TableManager.Machine.WriteLeaf` | kernel/src/arch/x86_64/page_table_manager/table_manager.c:122-124 | maps one page at the end of a walk and nothing else |
| `TableManager.Machine.Map` | kernel/src/arch/x86_64/page_table_manager/table_manager.c:108-125 | for every tree: the page gets its frame and flags, every other page keeps its entry, the tree invariant holds, the path carries the low flags, and every frame taken became a layer of this table; three free frames are always enough; the entries on the way are granted exactly the low byte of the flags and the present bit, no high flag, and every entry off the way is unchanged |
| `TableManager.Machine.GetNextLayer` | kernel/src/arch/x86_64/page_table_manager/table_manager.h:36-47 | on every path that leads to a layer, the result is the next layer of the reference walk; only entry 0 of a layer at address 0 counts as invalid |
| `TableManager.Machine.TranslateToPhysical` | kernel/src/arch/x86_64/page_table_manager/table_manager.c:127-154 | the frame address of the page in the reference walk; 0 exactly when the page is absent at some level or sits in frame 0 |
| `TableManager.Machine.MapChunk` | kernel/src/arch/x86_64/page_table_manager/table_manager.c:62-68 | filling entries of one layer is that many successive maps |
| `TableManager.Machine.NextLayers` | kernel/src/arch/x86_64/page_table_manager/table_manager.c:75-104 | the three-level carry moves on by exactly 512 pages and holds the right three layers; it overruns exactly at the end of the space |
| `TableManager.Machine.MapRounds` | kernel/src/arch/x86_64/page_table_manager/table_manager.c:56-105 | the chunked loop equals iterated `map`, or overruns exactly when the range reaches the last 2 MiB |
| `TableManager.Machine.MapRange` | kernel/src/arch/x86_64/page_table_manager/table_manager.c:37-106 | refinement: the leaf entries are those of `pages` successive `map` calls on consecutive pages, for every table, start and count; with the frames of `Budget` free, it overruns if and only if the range reaches the last 2 MiB and completes otherwise; the same holds of the entries between layers, on the ways to the layers visited |
| `TableManager.Machine.MapLastPage` | kernel/src/arch/x86_64/page_table_manager/table_manager.c:79-92 | mapping the last page of the 48-bit space alone overruns the root table |
| `TableManager.LastPageReachesEnd` | kernel/src/arch/x86_64/page_table_manager/table_manager.c:79-92 | that page is a range that reaches the last 2 MiB |
| `TableManager.Machine.RunCalls` | kernel/src/arch/x86_64/page_table_manager/table_manager.c:108-125 | any sequence of `map` calls on the tables leaves the address space of `RunMaps`, so `ReadOverWrite` speaks of the tables themselves; the flags of every entry between layers are those the calls that pass it granted |
| `Fork.CloneStep` | kernel/src/syscalls/sys_fork.c:66-76 | cloning one page extends the cloned part by it and keeps everything before |
| `Fork.LinksGranted` | kernel/src/syscalls/sys_fork.c:75-75 | one more page adds exactly its low byte to the entries on its way in the child |
| `Fork.PageUsable` | kernel/src/syscalls/sys_fork.c:66-76 | every entry on the way to a page of the child carries the low byte of the flags of that page |
| `Fork.SkipAbsent` | kernel/src/syscalls/sys_fork.c:50-67 | pages the parent does not map are skipped and stay unmapped in the child |
| `Fork.ParentKept` | kernel/src/syscalls/sys_fork.c:41-85 | the parent's tree and all its leaf entries are unchanged |
| `Fork.ClonedAll` | kernel/src/syscalls/sys_fork.c:46-83 | when the loops end, the whole lower half is cloned |
| `Fork.EmptyTable` | kernel/src/syscalls/sys_fork.c:41-44 | a new table with the bootstrap upper half is an empty tree over the lower half |
| `Fork.ClonePage` | kernel/src/syscalls/sys_fork.c:66-76 | one present page: fresh frame, copied contents, mapped with the same flags |
| `Fork.CloneTable` | kernel/src/syscalls/sys_fork.c:64-77 | the innermost loop clones the 512 pages of a last-level layer |
| `Fork.CloneDirectory` | kernel/src/syscalls/sys_fork.c:58-79 | the third loop clones everything below a second-level layer |
| `Fork.CloneSlot` | kernel/src/syscalls/sys_fork.c:52-81 | the second loop clones everything below a root entry |
| `Fork.CloneSlots` | kernel/src/syscalls/sys_fork.c:46-83 | the outer loop clones the lower half, with exactly the flags that its pages need in the entries above them |
| `Fork.CloneAddressSpace` | kernel/src/syscalls/sys_fork.c:41-85 | for every well-formed parent: a page is present in the child iff in the parent, with equal flags and contents, in a frame that was free and that no other page and no layer uses; the upper half is the bootstrap table's; nothing allocated before has changed, and every frame taken is a layer or a page of the child; every entry between layers carries exactly the low bytes of the flags of the pages below it and no high flag, so each page can be used as its own flags say |
| `Bitmap.SetBit` | kernel/src/memory/physical/page_allocator.c:85-93 | setting a bit in the packed words sets that bit and no other |
| `Bitmap.ClearBit` | kernel/src/memory/physical/page_allocator.c:95-103 | clearing a bit clears that bit and no other |
| `PageAllocation.FirstFit` | kernel/src/memory/physical/page_allocator.c:183-215 | the lowest index from the hint on where all the pages are clear |
| `PageAllocation.TakeIsSafe` | kernel/src/memory/physical/page_allocator.c:172-204 | a pool with the budget always finds the pages, inside the pool and clear, although its entry count is larger than what it can hand out |
| `PageAllocation.TakeHands` | kernel/src/memory/physical/page_allocator.c:159-223 | the lowest clear run from the hint on, in the first pool with the budget, becomes busy and is charged; nothing else changes |
| `PageAllocation.FirstPool` | kernel/src/memory/physical/page_allocator.c:174-179 | the first pool with the budget, or none |
| `PageAllocation.OwnerIsPool` | kernel/src/memory/physical/page_allocator.c:229-238 | a live range is given back to the pool it came from, at its own index, despite the inclusive bound |
| `PageAllocation.AllocateKeepsInv` | kernel/src/memory/physical/page_allocator.c:159-223 | an allocation keeps the invariant: sound pools, live ranges inside and apart, busy bits exactly the live pages |
| `PageAllocation.AllocateAddsOne` | kernel/src/memory/physical/page_allocator.c:159-223 | an allocation adds one live range, with exactly the number of pages asked for (one for a request of none) |
| `PageAllocation.FreeKeepsInv` | kernel/src/memory/physical/page_allocator.c:225-260 | giving back any pages the bitmap describes keeps it: whole live ranges, parts of them, or pages given back before |
| `PageAllocation.FreeLive` | kernel/src/memory/physical/page_allocator.c:225-260 | giving back a live range removes exactly that range and leaves the others whole |
| `PageAllocation.FreeTwice` | kernel/src/memory/physical/page_allocator.c:240-249 | giving back pages that are all clear changes nothing |
| `PageAllocation.EveryRun` | kernel/src/memory/physical/page_allocator.c:115-260 | over every run of allocations and of deallocations inside the bitmap the invariant holds, and a panic comes exactly in a state where no pool has the budget |
| `PageAllocation.LiveRangesDisjoint` | kernel/src/memory/physical/page_allocator.c:159-260 | two live ranges never share a byte |
| `PageAllocation.LiveRangeDescribed` | kernel/src/memory/physical/page_allocator.c:225-260 | giving back a live range never leaves the bitmap of its pool |
| `PageAllocation.BootIsSound` | kernel/src/memory/physical/page_allocator.c:54-63 | unused, separated pools satisfy the invariant |
| `PageAllocation.BitmapCoversExactly` | kernel/src/memory/physical/page_allocator.c:49-60 | the bitmap covers every page of a new pool if and only if the region length is not in the short family |
| `PageAllocation.ShortBitmapExists` | kernel/src/memory/physical/page_allocator.c:49-60 | a region of 32770 pages gets 32768 bits for 32769 pages |
| `PageAllocation.PoolsFromRegions` | kernel/src/memory/physical/page_allocator.c:35-64 | sorted regions give pools that do not even touch, each having its bitmap in front |
| `PageAllocation.PoolHasRegion` | kernel/src/memory/physical/page_allocator.c:35-64 | every pool is the unused end of a usable region above 128 KiB, behind a bitmap of whole pages |
| `PageAllocation.RegionHasPool` | kernel/src/memory/physical/page_allocator.c:40-47 | every such region has a pool |
| `PageAllocation.OnePoolEach` | kernel/src/memory/physical/page_allocator.c:40-47 | and exactly one |
| `PageAllocation.BootInv` | kernel/src/memory/physical/page_allocator.c:28-65 | the allocator starts in a state with the invariant when no region has a short bitmap |
| `PageAllocator.PagePool.constructor` | kernel/src/memory/physical/page_allocator.c:47-63 | a pool over any region is the new pool of the machine, with its bits clear; it is sound if and only if its bitmap is not short |
| `PageAllocator.PagePool.BitmapGet` | kernel/src/memory/physical/page_allocator.c:105-113 | reads membership in the busy set |
| `PageAllocator.PagePool.BitmapSet` | kernel/src/memory/physical/page_allocator.c:85-93 | adds one page to the busy set |
| `PageAllocator.PagePool.BitmapUnset` | kernel/src/memory/physical/page_allocator.c:95-103 | removes one page from the busy set |
| `PageAllocator.PagePool.TakeSingle` | kernel/src/memory/physical/page_allocator.c:115-157 | the single-page fast path is the machine's step for one page and never comes back empty-handed |
| `PageAllocator.PagePool.TakeRun` | kernel/src/memory/physical/page_allocator.c:183-215 | the search for a run is the machine's step: first fit from the hint, with counters and hint updated |
| `PageAllocator.PagePool.ReleaseRun` | kernel/src/memory/physical/page_allocator.c:238-249 | clears exactly the pages of the range; counters and hint stay |
| `PageAllocator.Allocator.Allocate` | kernel/src/memory/physical/page_allocator.c:159-223 | the pages asked for (one for a request of none) lie in one pool, were all clear and are all busy afterwards; the pool is the first with the budget and is charged for them; no other page changes; fails exactly when no pool has the budget |
| `PageAllocator.Allocator.Deallocate` | kernel/src/memory/physical/page_allocator.c:225-260 | clears the range in the first pool that accepts the address, and nothing if none does; counters, hints and all other pages stay |
| `FreePages.SinglePage` | kernel/src/memory/physical/page_allocator.c:115-157 | the pages that single requests will return form a set: a request takes one page off it and fails exactly when it is empty |
| `FreePages.TakenIsGone` | kernel/src/memory/physical/page_allocator.c:128-148 | a page that was handed out is not handed out again by later single requests |
| `FreePages.LiveIsNotFree` | kernel/src/memory/physical/page_allocator.c:115-260 | no page of a live range is in that set |
| `FreePages.AllocateSingle` | kernel/src/memory/physical/page_allocator.c:115-157 | the allocator in place does this: the contract that the page tables rely on |
| `BlockLists.PushExtends` | kernel/src/memory/physical/block_allocator.c:52-60 | pushing a block makes a well-formed doubly-linked acyclic list with it in front |
| `BlockLists.RemoveUnlinks` | kernel/src/memory/physical/block_allocator.c:62-76 | removing a block at any position leaves the well-formed list of the others |
| `BlockLists.RemoveFrame` | kernel/src/memory/physical/block_allocator.c:62-76 | removing touches only the block and its two neighbours, and no size |
| `BlockLists.CutInserts` | kernel/src/memory/physical/block_allocator.c:187-199 | linking in the remainder of a split keeps a well-formed list |
| `BlockArena.TilesAscend` | kernel/src/memory/physical/block_allocator.c:160-235 | tiles are in address order and never overlap |
| `BlockArena.TilesFillArena` | kernel/src/memory/physical/block_allocator.c:30-50 | conservation: headers and payloads add up to the length of the arena |
| `BlockArena.TileAligned` | kernel/src/memory/physical/block_allocator.c:160-202 | every block is 16-byte aligned |
| `BlockArena.PayloadsApart` | kernel/src/memory/physical/block_allocator.c:160-209 | payloads overlap neither each other nor any header |
| `BlockArena.UnlinkedKeeps` | kernel/src/memory/physical/block_allocator.c:62-76 | removing a block from either list keeps the tiling and both lists, with that block loose |
| `BlockArena.RelinkedKeeps` | kernel/src/memory/physical/block_allocator.c:52-60 | pushing a loose block on either list restores the invariant |
| `BlockArena.GrownKeeps` | kernel/src/memory/physical/block_allocator.c:30-50 | growing by pages keeps it, with the new block loose |
| `BlockArena.SplitKeeps` | kernel/src/memory/physical/block_allocator.c:184-200 | splitting keeps the tiling, both lists, alignment and the minimum size |
| `BlockAllocator.RequestArithmetic` | kernel/src/memory/physical/block_allocator.c:162-178 | clamping, rounding and page count in 64 bits give enough memory if and only if the request is at most 2^64 - 4144 bytes |
| `BlockAllocator.LargestRequestWraps` | kernel/src/memory/physical/block_allocator.c:165-166 | the largest request rounds to 0 bytes |
| `BlockAllocator.PagesForLeast` | kernel/src/memory/physical/block_allocator.c:177-178 | the arena grows by the least number of pages that holds the header and the request |
| `BlockAllocator.Blocks.RemoveBlock` | kernel/src/memory/physical/block_allocator.c:62-76 | the header writes unlink the block and touch no payload |
| `BlockAllocator.Blocks.PushBlock` | kernel/src/memory/physical/block_allocator.c:52-60 | the header writes put the block in front and touch no payload |
| `BlockAllocator.Blocks.CreateFreeBlock` | kernel/src/memory/physical/block_allocator.c:78-94 | the arena grows by whole pages that become one free block |
| `BlockAllocator.Blocks.TrimBlock` | kernel/src/memory/physical/block_allocator.c:184-200 | a block large enough to be cut keeps exactly the size asked and the rest, with its exact size, becomes the next free block; a smaller one stays whole; no payload is touched |
| `BlockAllocator.Blocks.MoveBlock` | kernel/src/memory/physical/block_allocator.c:96-106 | one block changes lists and nothing else does |
| `BlockAllocator.Blocks.FindFit` | kernel/src/memory/physical/block_allocator.c:170-173 | the first free block large enough; all before it are too small |
| `BlockAllocator.Blocks.Allocate` | kernel/src/memory/physical/block_allocator.c:160-209 | a 16-byte aligned payload of at least the size asked and at most 64 bytes more than it rounded up, zeroed up to the rounded size, from the first block that fits; growth only when none fits; the other free blocks stay free and every other busy payload keeps its bytes |
| `BlockAllocator.Blocks.Deallocate` | kernel/src/memory/physical/block_allocator.c:211-235 | the block goes to the free list, busy or already free, with the invariant kept and every busy payload unchanged; other addresses are ignored |
| `StoredNames.TerminatedExactly` | kernel/src/devices/manager.c:46-53 | a copied name has a terminator inside its block if and only if its length is no multiple of 16 or the block kept a zero byte behind the part that was cleared |
| `StoredNames.TerminatedAlways` | kernel/src/devices/manager.c:46-53 | a terminator can be relied on, whatever the block held, if and only if the length is no multiple of 16 |
| `StoredNames.SixteenLetters` | kernel/src/devices/manager.c:46-53 | sixteen letters have none in a block of 16 bytes and one in a block that kept a zero byte |
| `StoredNames.StoreName` | kernel/src/devices/manager.c:46-53 | the block holds the name, then zeroes up to the rounded size, and has at most 64 bytes beyond |
| `Spinlock.MutualExclusion` | kernel/src/lock/spinlock.c:5-24 | in every schedule of any number of threads at most one is between acquire and release, and the flag is set exactly then |
| `Spinlock.TestDecides` | kernel/src/lock/spinlock.c:5-19 | in every reachable state a spinning thread that tests the flag gets in exactly when nobody is inside, and no other thread moves |
| `Spinlock.ReleaseLetsIn` | kernel/src/lock/spinlock.c:5-24 | once the holder releases, one test lets a spinning thread in |
| `Smp.EveryState` | kernel/src/arch/x86_64/smp/smp.c:23-86 | every state of every run satisfies the handshake invariant: wake order, lock hand-over, gate, counter without lost updates |
| `Smp.HandshakeIsSafe` | kernel/src/arch/x86_64/smp/smp.c:23-86 | at most one application processor is between wake-up and release and it holds the lock; no scheduler context before the gate opens; when the bootstrap processor returns, exactly all application processors have installed theirs |
| `Smp.StepsRunOut` | kernel/src/arch/x86_64/smp/smp.c:23-86 | every step that is not a spin uses up one of a bounded number |
| `Smp.NeverStuck` | kernel/src/arch/x86_64/smp/smp.c:23-86 | until all is done, some processor can make such a step: no deadlock |
| `Smp.HandshakeCompletes` | kernel/src/arch/x86_64/smp/smp.c:23-86 | every run is bounded, and one that cannot continue has finished |
| `Rotation.BoundedWaiting` | kernel/src/schedulers/task/round_robin/round_robin.c:44-88 | a runnable task at position `k` is switched to within `k + 1` reschedules under any interleaving of pushes, publications and exits of others |
| `Rotation.NotBeforePublish` | kernel/src/schedulers/task/round_robin/round_robin.c:221-223 | a task that cannot run is not switched to before it is published |
| `Rotation.ExitIsFinal` | kernel/src/schedulers/task/round_robin/round_robin.c:221-223 | a task that has exited is not switched to again |
| `Rotation.PublishedRuns` | kernel/src/schedulers/task/round_robin/round_robin.c:44-88 | a task is switched to within its position plus one reschedules of its publication |
| `Rotation.PushedRuns` | kernel/src/schedulers/task/round_robin/round_robin.c:68-88 | a task that is pushed and published runs after those in front of it, at the latest |
| `Rotation.FirstRunnable` | kernel/src/schedulers/task/round_robin/round_robin.c:221-223 | the skipping loop stops at the first task that is neither empty nor a zombie |
| `TaskContext.Registers.GetCpuContext` | kernel/src/arch/x86_64/context/context.c:16-24 | returns the processor context from whichever register holds it, and keeps the other context in the other register |
| `TaskContext.Registers.GetTaskContext` | kernel/src/arch/x86_64/context/context.c:58-65 | returns the task context from whichever register holds it, and keeps the processor context in the other register |
| `TaskContext.Registers.InstallTaskContext` | kernel/src/arch/x86_64/context/context.c:51-56 | the new task replaces the old one beside the processor context, and the next lookup finds it if and only if its id is not the magic |
| `TaskContext.LookupsKeep` | kernel/src/arch/x86_64/context/context.c:11-65 | both lookups return their own kind in either orientation of the registers |
| `TaskContext.SwitchInstalls` | kernel/src/arch/x86_64/context/context.c:46-65 | after a switch the pair holds the processor and the task, told apart if and only if the task id is not the magic |
| `ContextSwitch.InterruptKeeps` | kernel/src/schedulers/task/round_robin/round_robin.c:206-232 | an interrupt saves into the task that ran and restores the chosen one: a step of the reference where each task has its own registers |
| `ContextSwitch.StepKeeps` | kernel/src/schedulers/task/round_robin/round_robin.c:206-232 | every event (execution, interrupt, creation, filling in, publication, exit, lookups) is a step of the reference |
| `ContextSwitch.Transparent` | kernel/src/schedulers/task/round_robin/round_robin.c:206-232 | over whole runs each task resumes with exactly the registers it was left with, and the task lookup returns the running task |
| `ContextSwitch.SwitchHolds` | kernel/src/schedulers/task/round_robin/round_robin.c:221-224 | no empty or zombie task is ever resumed, and the registers hold the new one (what makes a task runnable or not is in `ContextRuns`) |
| `ContextSwitch.Interrupted` | kernel/src/schedulers/task/round_robin/round_robin.c:206-232 | the state after an interrupt, field by field: the first runnable task runs with what was saved for it |
| `ContextRuns.QuitIsFinal` | kernel/src/syscalls/sys_exit.c:14-17 | over whole runs: no interrupt after its exit resumes a task |
| `ContextRuns.NotBeforeStart` | kernel/src/schedulers/task/round_robin/round_robin.c:247-247 | a new task never runs before it is published |
| `ContextRuns.StartedRuns` | kernel/src/schedulers/task/round_robin/round_robin.c:206-232 | a published task that does not exit is switched to within its position plus one interrupts, whatever else happens |
| `ContextRuns.CreatedRuns` | kernel/src/schedulers/task/round_robin/round_robin.c:234-282 | a created task, once published, is switched to within as many interrupts as its queue has tasks |
| `ContextRuns.RunIsAfter` | kernel/src/schedulers/task/round_robin/round_robin.c:206-232 | these runs are the runs of `Transparent` |
| `ContextRuns.ResumesAsLeft` | kernel/src/schedulers/task/round_robin/round_robin.c:213-231 | an interrupted task resumes with exactly the registers it had, whatever runs in between |
| `ContextRuns.ResumesAsFilled` | kernel/src/syscalls/sys_fork.c:20-36 | a task that was filled in starts with exactly those registers |
| `Processor.Processor.SwitchQueue` | kernel/src/schedulers/task/round_robin/round_robin.c:211-223 | on the linked queue: the registers go into the current task, the queue rotates past the first runnable one, nothing else changes |
| `Processor.Processor.Interrupt` | kernel/src/schedulers/task/round_robin/round_robin.c:206-232 | queue and GS registers together: the processor does exactly the interrupt of `ContextSwitch` |
| `Processor.Processor.Exit` | kernel/src/syscalls/sys_exit.c:12-14 | marking the running task a zombie is the exit of `ContextSwitch` |
| `Processor.Processor.Publish` | kernel/src/syscalls/sys_fork.c:103-103 | clearing `empty` is the publication of `ContextSwitch` |
| `Processor.Processor.Enable` | kernel/src/schedulers/task/round_robin/round_robin.c:308-316 | enabling the scheduler gives a state from which `Transparent` holds of every run |
| `RoundRobin.TaskQueue.Push` | kernel/src/schedulers/task/round_robin/round_robin.c:68-88 | appends to the linked queue, circular or null-terminated before |
| `RoundRobin.TaskQueue.Pop` | kernel/src/schedulers/task/round_robin/round_robin.c:44-66 | returns the head and rotates the queue by one |
| `RoundRobin.TaskQueue.PopRunnable` | kernel/src/schedulers/task/round_robin/round_robin.c:221-223 | terminates at the first runnable task and rotates the queue past it |
| `RoundRobin.TaskQueue.Reschedule` | kernel/src/schedulers/task/round_robin/round_robin.c:206-232 | saves into the current task and selects the first runnable one |
| `LoadBalance.LeastLoaded` | kernel/src/schedulers/task/round_robin/round_robin.c:259-279 | the backward walk picks a minimum, the one with the highest index |
| `LoadBalance.OneMore` | kernel/src/schedulers/task/round_robin/round_robin.c:259-279 | one creation leaves the spread at most 1 or at most what it was |
| `LoadBalance.Balanced` | kernel/src/schedulers/task/round_robin/round_robin.c:259-279 | after any number of creations the longest and the shortest queue differ by at most max(1, the starting difference) |
| `TaskScheduler.PartitionGrows` | kernel/src/schedulers/task/round_robin/round_robin.c:234-282 | placing a new task keeps every task on exactly one queue |
| `TaskScheduler.PartitionRotates` | kernel/src/schedulers/task/round_robin/round_robin.c:44-66 | so does rotating a queue |
| `TaskScheduler.Scheduler.QueuesAreShort` | kernel/src/schedulers/task/round_robin/round_robin.c:249-251 | a queue holds at most one task per id handed out |
| `TaskScheduler.Scheduler.RunnableChanged` | kernel/src/schedulers/task/round_robin/round_robin.c:219-223 | tasks other than the idle ones may stop or start at any time without harm to the scheduler |
| `TaskScheduler.FindInQueue` | kernel/src/schedulers/task/round_robin/round_robin.c:105-124 | the walk over one queue, circular or not, finds the id or shows it absent |
| `TaskScheduler.Scheduler.InstallContext` | kernel/src/schedulers/task/round_robin/round_robin.c:153-198 | one more context in the chain, whose queue holds a runnable idle task with id 0 |
| `TaskScheduler.Scheduler.GetPid` | kernel/src/schedulers/task/round_robin/round_robin.c:90-136 | the task with that id over all queues, null exactly when there is none or the id is 0 |
| `TaskScheduler.Scheduler.FindLeastLoaded` | kernel/src/schedulers/task/round_robin/round_robin.c:259-272 | the walk over the context chain finds the least loaded processor |
| `TaskScheduler.Scheduler.Place` | kernel/src/schedulers/task/round_robin/round_robin.c:249-281 | the new task goes to one queue, the others are untouched, ids stay unique |
| `TaskScheduler.Scheduler.Create` | kernel/src/schedulers/task/round_robin/round_robin.c:234-282 | a new empty task with the next id on the least loaded processor |
| `TaskScheduler.Scheduler.Reschedule` | kernel/src/schedulers/task/round_robin/round_robin.c:206-232 | always finds a runnable task, because every queue keeps its idle one; one queue rotates, every other queue, every id and the lookups' invariant are kept; the task that was current holds the registers, and no other task's saved state changes |
| `ProcessTree.WalkIsDescends` | kernel/src/syscalls/sys_waitpid.c:27-38 | the ancestor walk terminates and accepts exactly the proper descendants of the caller |
| `ProcessTree.CallKeeps` | kernel/src/syscalls/sys_waitpid.c:12-43 | loading, forking and waiting keep ids fresh and nonzero, parents older than children, and claims distinct |
| `ProcessTree.AncestorsStay` | kernel/src/syscalls/sys_fork.c:25-25 | new tasks change nobody's ancestors |
| `ProcessTree.ForkedDescends` | kernel/src/syscalls/sys_fork.c:25-25 | a forked task descends from its parent and the ancestors of that one, and from no other |
| `ProcessTree.ClaimIsByAncestor` | kernel/src/syscalls/sys_waitpid.c:12-43 | a claim succeeds only for an unclaimed proper descendant |
| `ProcessTree.RunKeeps` | kernel/src/syscalls/sys_waitpid.c:12-43 | over every run of whole calls the table stays sound and no claim is lost or made twice |
| `ClaimRace.ClaimedTwiceExactly` | kernel/src/syscalls/sys_waitpid.c:40-43 | interleaved, a pid is claimed twice if and only if two waiters are between the test and the write at once |
| `ClaimRace.RaceExists` | kernel/src/syscalls/sys_waitpid.c:40-43 | a schedule of four steps in which it happens |
| `WaitPid.IsDescendant` | kernel/src/syscalls/sys_waitpid.c:27-38 | the loop over `get_pid` decides descent exactly |
| `WaitPid.Claim` | kernel/src/syscalls/sys_waitpid.c:12-43 | sets the flag of one unclaimed proper descendant and of no other task; reports a bad address exactly for an unclaimed pid with an unmapped address; refuses only when there is no such descendant |
| `Processes.Kernel.constructor` | kernel/src/schedulers/task/round_robin/round_robin.c:318-321 | at boot the queues and the process table are empty and in step |
| `Processes.Kernel.InstallContext` | kernel/src/schedulers/task/round_robin/round_robin.c:153-198 | a new processor leaves the process table alone |
| `Processes.Kernel.Load` | kernel/src/executables/elf.c:103-124 | a loaded task is the table's next task without a parent |
| `Processes.Kernel.Fork` | kernel/src/syscalls/sys_fork.c:17-25 | a forked task is the table's next task below its parent, and a proper descendant of it |
| `Processes.Kernel.Exit` | kernel/src/syscalls/sys_exit.c:12-14 | an exit keeps queues, ids and parent links |
| `Processes.Kernel.Reschedule` | kernel/src/schedulers/task/round_robin/round_robin.c:206-232 | so does a reschedule on any processor |
| `Processes.Kernel.Wait` | kernel/src/syscalls/sys_waitpid.c:12-43 | a waitpid is the table's step: so in every reachable state the walk's precondition holds, claims are distinct and only ancestors claim |
| `Processes.WaitOutcome` | kernel/src/syscalls/sys_waitpid.c:12-43 | the table claims a pid exactly when an unclaimed task with it descends from the caller |
| `TaskScheduler.Scheduler.UniqueIds` | kernel/src/schedulers/task/round_robin/round_robin.c:249-251 | two tasks with the same nonzero id are one task |
| `Paths.CollapseIdempotent` | kernel/src/filesystem/vfs.c:241-262 | sanitising twice is sanitising once |
| `Paths.CollapseIsClean` | kernel/src/filesystem/vfs.c:241-262 | no doubled delimiter is left |
| `Paths.CollapseKeepsComponents` | kernel/src/filesystem/vfs.c:241-262 | the list of names is unchanged |
| `Paths.CollapseDrops` | kernel/src/filesystem/vfs.c:251-256 | removing one of two adjacent delimiters does not change the outcome |
| `Paths.ShiftLeft` | kernel/src/filesystem/vfs.c:253-255 | the inner loop removes one character and keeps the terminator |
| `Paths.Sanitise` | kernel/src/filesystem/vfs.c:241-262 | for every string the nested loops terminate with exactly the collapsed string and return its length |
| `Paths.SplitRebuilds` | kernel/src/filesystem/vfs.c:212-239 | directory, delimiter and base name rebuild a path, and are the only such split |
| `Paths.NoDirectory` | kernel/src/filesystem/vfs.c:212-239 | a path without a delimiter is all base name |
| `Paths.TrailingDelimiter` | kernel/src/filesystem/vfs.c:212-239 | a delimiter at the end is the split point: all before it is the directory and the base name is empty |
| `Paths.DirectoryAsIntended` | kernel/src/filesystem/vfs.c:217-221 | the directory is the one the comment intends if and only if the path does not end in a delimiter or is "/" alone |
| `Paths.FolderIsNotSkipped` | kernel/src/filesystem/vfs.c:217-221 | "/a/b/" gives "/a/b" where "/a" was intended |
| `Paths.Dirname` | kernel/src/filesystem/vfs.c:212-224 | copies what fits of the directory part and leaves the rest of the buffer |
| `Paths.Basename` | kernel/src/filesystem/vfs.c:226-239 | copies what fits of the base name and leaves the rest of the buffer |
| `Numbers.PrintedDecodes` | kernel/src/misc/libc.c:111-148 | the digits decode to the value modulo base^room |
| `Numbers.PrintedExactly` | kernel/src/misc/libc.c:111-148 | they decode to the value itself if and only if it is below base^room |
| `Numbers.NeverPastTheEnd` | kernel/src/misc/libc.c:113-145 | digits and terminator stay within the claimed size if and only if it is two bytes or more |
| `Numbers.PrintedIsString` | kernel/src/misc/libc.c:115-145 | the terminator is the only zero byte, after at least one digit |
| `Numbers.NoLeadingZero` | kernel/src/misc/libc.c:127-143 | a number that fits is printed without leading zeroes |
| `Numbers.PrintsHexadecimal` | kernel/src/misc/libc.c:115-145 | 0xCAFE in base 16 is "CAFE" and 0 is "0" |
| `Numbers.ReverseFront` | kernel/src/misc/libc.c:138-143 | the swapping loop reverses the digits and nothing else |
| `Numbers.WriteDigits` | kernel/src/misc/libc.c:127-136 | the dividing loop writes the low digits, bounded by the buffer |
| `Numbers.NumToString` | kernel/src/misc/libc.c:111-148 | the buffer is the numeral, a terminator, and its old contents |
| `ByteCopies.MemMove` | kernel/src/misc/libc.c:45-66 | the target holds the old source bytes for every overlap, and all other bytes are unchanged |
| `CStrings.StrNCmp` | kernel/src/misc/libc.c:83-97 | 0 exactly when the strings agree up to the bound, otherwise the difference of the first bytes that differ |
| `CStrings.ReservedWraps` | kernel/src/misc/libc.c:113-113 | reserving a byte for the terminator is a 64-bit decrement, which wraps around for a size of 0 |
| `DeviceTree.ResolvePlace` | kernel/src/devices/manager.c:263-327 | a lookup ends at the node whose path it was given |
| `DeviceTree.PlaceKept` | kernel/src/devices/manager.c:107-238 | growth never moves or renames a node |
| `DeviceTree.LookupKept` | kernel/src/devices/manager.c:107-238 | every lookup that succeeded still gives the same device |
| `DeviceTree.NewlyVisible` | kernel/src/devices/manager.c:107-238 | a path that newly leads somewhere lies on the way to the created one |
| `DeviceTree.ClashNew` | kernel/src/devices/manager.c:202-217 | so do the directories in which new names can be in the way |
| `DeviceTree.OpenedKeeps` | kernel/src/devices/manager.c:162-163 | giving a device an empty list of children keeps the linked tree well-formed |
| `DeviceTree.MarkedKeeps` | kernel/src/devices/manager.c:164-166 | writing the parent of a dummy keeps it |
| `DeviceTree.AppendedKeeps` | kernel/src/devices/manager.c:219-222 | appending a device keeps it |
| `DeviceTree.AppendedFound` | kernel/src/devices/manager.c:219-222 | a name that was free leads to the appended device |
| `DevicePaths.ScanName` | kernel/src/devices/manager.c:137-150 | the name measured at a position is the next name of the path |
| `DevicePaths.JoinedNames` | kernel/src/devices/manager.c:79-98 | reading the names off a printed path gives them back |
| `DevicePaths.NamesJoined` | kernel/src/devices/manager.c:79-98 | printing the names of a sanitised absolute path gives that path |
| `DevicePaths.EndInside` | kernel/src/devices/manager.c:77-101 | the terminator stays inside the buffer if and only if the path fits or is cut at a delimiter |
| `DevicePaths.CutInsideName` | kernel/src/devices/manager.c:77-101 | a two-letter name and three bytes: the terminator is the fourth byte |
| `DevicePaths.PrintedWhole` | kernel/src/devices/manager.c:77-101 | a path that fits is printed whole and terminated |
| `DeviceCreation.Enter` | kernel/src/devices/manager.c:150-181 | entering a directory that was found keeps what has been established on the way |
| `DeviceCreation.Stuck` | kernel/src/devices/manager.c:183-193 | a parent that cannot be created means the path was blocked in the tree before the call |
| `DeviceCreation.Grow` | kernel/src/devices/manager.c:183-193 | a parent created by the recursive call is a directory on the way |
| `DeviceCreation.Refuse` | kernel/src/devices/manager.c:202-212 | a refusal means a sibling in the tree before the call began with the name |
| `DeviceCreation.Finish` | kernel/src/devices/manager.c:219-232 | the appended device is the one the path leads to, if it led nowhere before |
| `DeviceManager.NameLength` | kernel/src/devices/manager.c:137-140 | the length of the name up to a delimiter or the end |
| `DeviceManager.Devices.FindIn` | kernel/src/devices/manager.c:156-170 | the first sibling with exactly that name, or none |
| `DeviceManager.Devices.FindLast` | kernel/src/devices/manager.c:202-217 | the last sibling, or a refusal exactly when some sibling begins with the rest of the path |
| `DeviceManager.Devices.EnterChild` | kernel/src/devices/manager.c:162-166 | the list of children, made if missing, with its parent written; no lookup changes |
| `DeviceManager.Devices.Append` | kernel/src/devices/manager.c:219-229 | one new device at the end, as a directory if a delimiter follows, with the tree well-formed |
| `DeviceManager.Devices.Create` | kernel/src/devices/manager.c:107-238 | for every path: terminates through its recursion, keeps the tree well-formed, and for names without "." the outcome (created, exists, nameless, null pointer) is determined exactly by the lookups before the call; every earlier lookup stays and only the way to the path becomes visible; every node made on the way is reserved and closed to reads and writes |
| `DeviceManager.Devices.Open` | kernel/src/devices/manager.c:263-367 | missing exactly when the names lead nowhere; the device if it can be read and written as asked; denied otherwise; no lookup changes |
| `DeviceManager.Devices.Hierarchy` | kernel/src/devices/manager.c:65-75 | the climb to the root collects one device per name, deepest first |
| `DeviceManager.PrintName` | kernel/src/devices/manager.c:81-98 | one round writes the delimiter and what fits of the name |
| `DeviceManager.Devices.GeneratePath` | kernel/src/devices/manager.c:63-105 | the buffer shows the joined names cut at its size, with the terminator where the code puts it |
| `DeviceManager.FreshWhenAllowed` | kernel/src/devices/manager.c:202-212 | without a trailing delimiter a name in use is always refused |
| `DeviceManager.NeverRefused` | kernel/src/devices/manager.c:202-212 | with one, nothing is ever refused |
| `DeviceManager.PrefixInTheWay` | kernel/src/devices/manager.c:183-212 | with "ab" present, "/a/b" goes through a null pointer and "/a" is refused |
| `DeviceManager.RoundTrip` | kernel/src/devices/manager.c:63-367 | opening the path after creating it gives that device if and only if nothing blocked or refused it and it led nowhere before; its printed path is the path given |
| `DeviceManager.CreatedOpens` | kernel/src/devices/manager.c:333-343 | a created device is opened for exactly the accesses it was created with |
| `DeviceManager.ParentsAreClosed` | kernel/src/devices/manager.c:189-189 | a directory that was made on the way is denied to reads and writes |
| `DeviceManager.OpenedBefore` | kernel/src/devices/manager.c:107-367 | every path that opened a device still opens it, with the same answer for each mode |
| `DeviceManager.OpenedAfter` | kernel/src/devices/manager.c:107-367 | no other path opens anything new |

## Left out

- Assembly, model-specific registers other than the two GS bases, interrupt and descriptor tables, timers, ACPI: hardware effects.
- Framebuffer, serial port, logging, `printk`, panic output, sanitizer hooks and the applications: output and demo code.
- File-descriptor tables, `ustar`, ELF loading, the I/O queue and system-call dispatch: the source makes no promise about them that holds.
- `arch_bootstrap_page_table` creation, `page_reallocate`, the counters printed at start-up, `device_get_by_type`, the VFS mount list: each is one branch or one call of what is modelled.
- Weak memory: shared variables are read and written in one order; the unlocked read of queue counts and the time before the idle task is pushed are single steps.
- The MMU: what bit 7 of an entry or the cached translations mean to the processor is not part of this model.
- TableManager.Machine.Map: addresses are page-aligned frames below 2^52 and the layer at address 0 is not used, as the allocator guarantees; a virtual address is taken modulo 2^48, as the index masks do.
- TableManager.Machine.MapRange: after an overrun or with no frame left nothing is said about the tables, since the kernel is lost or panics.
- TableManager.Machine.AllocatePage: the page allocator seen from the tables is a set of free frames; `FreePages.AllocateSingle` shows that the pools behave like one between deallocations, which the tables never make.
- Fork.CloneAddressSpace: register fields, the descriptor table and the name of the child are not modelled; that the child stays empty until it is filled in is in `ContextSwitch`.
- PageAllocator.Allocator.Allocate: the zeroing of the pages is stated at `TableManager.Machine.AllocatePage`; the 128-entry limit of the pool array and the wrap-around of requests of 2^52 pages and more are not modelled.
- PageAllocator.Allocator.Deallocate: the caller must not run past the bitmap; live ranges never do (`PageAllocation.LiveRangeDescribed`).
- BlockAllocator.Blocks.Allocate: takes requests up to 2^64 - 4144, the exact bound of `BlockAllocator.RequestArithmetic`; the arena itself does not wrap around.
- BlockAllocator.Blocks.Deallocate: a payload that happens to hold the signature where a header would be is not modelled.
- Smp.HandshakeIsSafe: the processors are a transition system on values, not objects: the locks and the counter are shared and the order of steps is what matters. `Spinlock.MutualExclusion` and `ContextSwitch.Transparent` likewise.
- Smp.HandshakeCompletes: completion assumes that a processor that can make a step eventually makes one.
- RoundRobin.TaskQueue.Reschedule: saved registers are one value; SIMD state travels with them.
- TaskScheduler.Scheduler.Create: the id counter is a 32-bit `int` in the source and must not have reached its maximum, where incrementing it has no defined meaning.
- WaitPid.Claim: the waiting loop after the claim is not modelled; the address check is a parameter.
- WaitPid.IsDescendant: takes parent links that lead to older tasks; `Processes.Kernel` keeps them so in every reachable state.
- Processes.Kernel.Wait: with an unmapped address the table stays as it is, and which error is reported is stated at `WaitPid.Claim`.
- Processes.Kernel.Load: file contents and registers of the new task are not modelled.
- Paths.Sanitise: positions are unbounded; the source counts them in an `int`.
- Numbers.NumToString: positions in the reversing loop are unbounded; the source uses an `int`.
- DeviceManager.Devices.Create: names are strings with their terminator; where there is none the source reads on into the next block (`StoredNames.TerminatedExactly`). Paths with "." among their names keep the tree well-formed and every earlier lookup, but their outcome is not stated, since dummies that are made on the way answer to that name. Device callbacks are the two flags readable and writable.
- DeviceManager.Devices.Open: for the same reason the answer is stated for paths without "." among their names.
- DeviceManager.Devices.GeneratePath: the caller provides the memory the code writes, which is more than its claimed size in the cases of `DevicePaths.EndInside`; the device must know its parent, which every created device does.
