# SentinelOS, modelled and proved in Dafny

A model of the parts of SentinelOS that share one pool of physical frames, of its file
systems and of its terminal, with proofs of what they keep over whole runs.

* `Frames`, `BlockList`, `HeapLinks`, `KernelHeap`: the bitmap frame allocator and the kernel
  heap. The class writes linked headers in memory; each write is proved to spell out a list of
  blocks, and the list is proved to tile the heap's pages and to be determined by what is live.
* `PageTables` (with `PagingFormat`), `DemandPaging` (with `UserHeapView`, `UserRuns`): two-level
  tables over physical memory refine a flat map; break calls and page faults keep user pages apart.
  `page_map` writes a table through the page of its frame number; where that is not the table, the
  walk that the processor then makes is followed. `WreckedRun`: a program that gets there.
* `RoundRobin`, `Threads` (with `Contexts`, `ThreadSteps`), `Mailboxes` (with `Rings`, `IpcSteps`):
  the scheduler, the context switch over words of memory, and message rings, as steps that interleave.
* `Framebuffer`, `Ownership` (with `FramePartition`, `SystemSteps`), `KernelMain`: the framebuffer
  mapping, all of these together on one frame allocator, and the boot order that sets them up.
* `SharedMemory`, `KernelStores`: headers, tables, stacks and user pages in one memory. Stores of the
  owners and of the kernel itself, from boot on, leave everything where its owner put it.
* `FatFormat` (with `Chains`), `FatReader`, `FatNames`, `FatDirectory` (with `DirectoryFormat`),
  `Paths`, `Vfs` (with `NodePool`), `FileReads` (with `FileContents`, `FileRanges`, `FilesByPath`),
  `ElfLoader` (with `ElfFormat`): from sectors to files by path and programs in memory.
* `Terminal` (with `TextPage`): the 18 by 78 grid against an unbounded page of lines.
* `DiskImages`, `DirectoryImages`, `BootRecords`, `FilesOnDisk`, `ElfImages`: disks and ELF files as the
  programs that make them write them, field by field. What the drivers read is what was written.
* `Bytes` (with `LittleEndian`, `Chunks`, `Buffers`): words from bytes and back, slices, and what a
  copy leaves in a buffer.

`dafny verify dfyconfig.toml` checks everything.

Data the source updates in place is a class with those fields; each method is tied to a function of
the old state, and the theorems are about that function. Ghost fields (`blocks`, `pages`, `log`,
`traffic`, `history`, `lines`) hold the abstract value; memory, bitmap, tables, rings, pools and
screen buffers are real fields and arrays.

## Assumptions the code needs

* `schedule` is one atomic step. That is so on the timer path; on the yield path it is an assumption.
* Whole 32-frame words hold at least 2524 frames (a total of 2528 or more) before `kheap_init` runs,
  which ignores a failed or scattered allocation. Heap operations run after it, and `kfree` gets null
  or a live payload pointer.
* Threads write no waiting thread's stack and leave seven words free when they call `schedule`.
* `sectors_per_cluster` is positive. Directory chains end or meet an end mark: the code has no cycle
  check. File reads need no such thing, since every turn copies bytes.
* Segments of an ELF file with the magic number fit the memory given, requests to RAM files do not
  wrap, and a FAT32 source finds a block for its cluster buffer: the loader ignores failed reads.
* A framebuffer lies at 128 MB or above and ends below 4 GB.

## What the proofs found

* The README and the manual call the heap a bump allocator; the code is a first-fit block list with
  splitting, merging and growth, and that is what is modelled.
* `thread_create` does not test its page. Once frames run out the stack goes to frame 0, and a second
  such thread shares it: `Threads.Machine.Create` says exactly when separation is lost.
* `kmalloc` of more than 2^32 - 4 bytes rounds to 0 (`KernelHeap.RoundUp4Iff`). It returns the first
  free block; with none, it grows the heap and then returns null from its second call, frames left or
  not (`KernelHeap.NullIff`, `KernelHeap.Heap.LoseRequest`).
* `pmm_init` does not reset its counter, and the scan never looks at a last partial word.
* `page_map` zeroes and fills a new table through the virtual page of its frame number, which is the
  table only below 16 MB. Beyond, the kernel faults there when the page is absent: outside the user
  heap that halts it, inside it the handler runs again. When the page is mapped, or the fault maps it,
  the words go to a user page, and the frame becomes a table with whatever it held
  (`UserHeapView.WreckedIff`). A plain program does that from boot: it fills seven 4 MB slots of its
  heap and touches the eighth (`KernelMain.LoseTables`). Bounds on the frames a program takes hold
  for runs whose faults are all resumed (`DemandPaging.UserSpace.Run`).
* A mapping that fails for want of a table loses the data frame. Heap and stack pages have the 16 MB
  limit too, and no caller gives frames back, so it is reached when 4096 frames are in use
  (`Ownership.System.InWindow`); runs of the whole system are followed up to there.
* The framebuffer loop steps from the first byte: an address inside a page may leave the last page
  out (`Framebuffer.CoveredIff`).
* A read whose offset + size wraps past 2^32 is not clipped, and the loop that skips clusters does not
  test the first one (`FatFormat.DeliversFileIff`, `FatFormat.OtherChain`).
* A path that ends in one slash resolves to null, two slashes are accepted; a component of 128 bytes
  or more is cut, and what follows it is ignored (`Paths.WalkIff`).
* Rendering short names is injective on legal names and the dot entries (`FatNames.RenderInjective`);
  spaces inside a part and the case of letters are lost (`FatNames.RenderSameIff`), and a dot inside
  a name can be mistaken for the separator (`FatNames.RenderCollides`).
* `tty_set_color` passes its colours on in the other order (`TextPage.ColoursSwapped`).
* No thread is ever freed, so ids are slot numbers plus one and stay unique without end.

## Model

| member | source | states |
|---|---|---|
| `Frames.FrameAllocator.Init` | src/kernel/memory.c:13-18 | after set-up exactly the first 1024 frames are marked and at most 32768 are managed; because the counter is not reset, it agrees with the bitmap if and only if it was 0 before |
| `Frames.FrameAllocator.AllocPage` | src/kernel/memory.c:20-35 | hands out the lowest free frame of the scanned words, marks it and nothing else; null, and no change, exactly when exhausted |
| `Frames.FrameAllocator.FreePage` | src/kernel/memory.c:37-40 | unmarks that frame only; the counter stays equal to the number of marked frames, double frees included |
| `Frames.FrameAllocator.ExhaustedIff` | src/kernel/memory.c:20-35 | allocation fails exactly when every frame of the whole 32-bit words below the total is marked: frames in a last partial word are never found |
| `Frames.FrameAllocator.SupplyIs` | src/kernel/memory.c:20-35 | the frames that further allocations will yield are scanned and unmarked, in ascending order, the first being the next one handed out; none exactly when exhausted |
| `Frames.FrameAllocator.PackedNext` | src/kernel/memory.c:20-35 | as long as no frame was given back, what further allocations yield is the run of frames from the count of those in use to the end of the whole words |
| `BlockList.CanonicalUnique` | src/kernel/memory.c:75-144 | two canonical block lists (no two list-neighbouring free blocks contiguous) over the same heap addresses with the same live blocks are equal |
| `BlockList.CarveFacts` | src/kernel/memory.c:76-90 | splitting keeps the addresses covered, canonical form, and every live block, and adds one live block, of at least the size asked for and less than 16 bytes more |
| `BlockList.CarveSplits` | src/kernel/memory.c:76-90 | a block at least 16 bytes larger than the request is split: exactly the request is taken, and a free block begins where it ends; any other is taken whole |
| `BlockList.CarveUsed` | src/kernel/memory.c:146-156 | the bytes in use grow by the payload taken and the 12 bytes of its header |
| `BlockList.GrowAllFacts` | src/kernel/memory.c:94-121 | growth by any pages, merged or linked, adds exactly their bytes, keeps canonical form, the live blocks and the used count |
| `BlockList.CoalesceFacts` | src/kernel/memory.c:131-143 | the one merging pass keeps addresses and live blocks and restores canonical form |
| `BlockList.AllocatedBlock` | src/kernel/memory.c:66-123 | a returned payload is a block of its own, new to the live set, large enough and less than 16 bytes too large; every other live block is untouched; the bytes in use grow by it and its header; freeing it gives the list before, grown only by the pages obtained |
| `BlockList.RoundTrip` | src/kernel/memory.c:66-144 | kfree of what kmalloc just carved restores the block list exactly, extended only by the grown pages |
| `BlockList.FreeOrderIrrelevant` | src/kernel/memory.c:125-144 | freeing a set of blocks in any order gives the same list |
| `BlockList.FreeingUndoes` | src/kernel/kernel.c:119-126 | after any allocations, freeing them in any order brings back the first list, extended by the pages grown, and its byte count: what the boot check prints |
| `BlockList.PayloadsApart` | src/kernel/memory.c:75-91 | payloads of two blocks of one heap never overlap |
| `BlockList.HoldingMore` | src/kernel/memory.c:66-123 | a non-null result is a pointer the client did not hold before, and all pointers held stay good |
| `HeapLinks.TilesApart` | src/kernel/memory.c:53-121 | blocks that tile the pages are pairwise disjoint and header-plus-payload sizes add up to 4096 times the page count |
| `HeapLinks.CarveStep` | src/kernel/memory.c:76-90 | the header writes of a split relink memory to the split list, which still tiles the pages with 4-byte alignment |
| `HeapLinks.GrowStep` | src/kernel/memory.c:101-120 | the header writes of a growth relink memory to the grown list, which tiles one page more |
| `HeapLinks.MergeStep` | src/kernel/memory.c:134-139 | the header writes of one merge relink memory to the merged list, with the same tiling |
| `KernelHeap.RoundUp4Iff` | src/kernel/memory.c:69-72 | rounding up to a multiple of 4 keeps the request exactly for sizes up to 2^32 - 4; larger ones become 0 |
| `KernelHeap.Heap.KheapInit` | src/kernel/memory.c:53-64 | with only the reserved frames in use the 1500 pages are consecutive and become one free block |
| `KernelHeap.Heap.FindFit` | src/kernel/memory.c:74-92 | the search returns the first list block that is free and fits, null exactly when none does |
| `KernelHeap.Heap.Kmalloc` | src/kernel/memory.c:66-123 | for any 32-bit size, 0 and wrapped ones included: first fit of the rounded size with growth page by page only while nothing fits; the recursion ends because free frames decrease; null when frames are left only for a request that rounded to 0 with every block in use; `reach` tells exactly whether every page it grew by lies below 16 MB, where the kernel can write its header |
| `KernelHeap.NullIff` | src/kernel/memory.c:66-123 | null means that nothing fits and no frame is left if and only if the size is at most 2^32 - 4, or some block was free, or there was no frame to begin with |
| `KernelHeap.Heap.LoseRequest` | src/kernel/memory.c:94-122 | the failing input: above 2^32 - 4 with every block in use and a frame left, the heap is one page longer and the result null |
| `KernelHeap.Heap.TakeFirstBlock` | src/kernel/memory.c:74-91 | that state is reached from boot by one request for exactly the first block, which is taken whole |
| `KernelHeap.Heap.BootCheck` | src/kernel/kernel.c:120-126 | the check the kernel makes at boot, on the fresh heap: nothing in use, 100 bytes at 0x40000C and 200 at 0x40007C with 324 bytes in use, and nothing in use again |
| `KernelHeap.Heap.CoalescePass` | src/kernel/memory.c:131-143 | the loop that does not advance after a merge ends, and computes the merged list |
| `KernelHeap.Heap.Kfree` | src/kernel/memory.c:125-144 | block list after freeing a live payload; null changes nothing; the linked headers stay a tiling in canonical form |
| `KernelHeap.Heap.KheapUsed` | src/kernel/memory.c:146-156 | the sum of the blocks in use with their headers, at most 4096 times the page count |
| `PageTables.Tables.Init` | src/kernel/paging.c:19-37 | the tables translate 0-16 MB to itself with all rights and nothing else |
| `PageTables.Tables.InstallTable` | src/kernel/paging.c:60-65 | zeroing the new table through the page of its frame number and hanging it in an empty slot changes no translation when that page shows the frame, that is below 16 MB; beyond, the zeros go to the frame the page shows, and the pages of the slot translate by whatever the table frame held |
| `PageTables.Tables.StrayedPages` | src/kernel/paging.c:60-69 | what that comes to: the pages of the slot translate by the old words of the frame, all others as before, and the directory is sound no more |
| `PageTables.Tables.WriteEntry` | src/kernel/paging.c:68-69 | an entry is written through the page of its table; when that page shows the table, the translation of one page changes |
| `PageTables.Tables.EntryWritten` | src/kernel/paging.c:68-69 | one word of a table decides the translation of that page only: no table serves two slots |
| `PagingFormat.EntryReads` | src/kernel/paging.c:68-69 | the entry written for a frame and any 32-bit flags reads back as that frame and those flags, bits beyond the low twelve falling into the frame |
| `PagingFormat.OrBits` | src/kernel/paging.c:68-69 | a bit of an entry is set exactly when the frame address or the flags have it |
| `PageTables.Tables.AddressWalks` | src/kernel/paging.c:49-52 | the walk by the bits of an address: bit 22 and up select the directory slot, bits 12 to 21 the entry, bit 0 of each word tells whether it is there |
| `PageTables.Tables.PageMap` | src/kernel/paging.c:49-72 | exactly one of four ends, decided by the state before: with a table in the slot, or a frame below 16 MB for a new one, it refines updating a flat map from virtual page to frame and flags at one page; without a frame nothing changes; with a table frame at 16 MB or above it faults on the first store if the page of that number is absent, and otherwise writes the table to the frame which that page shows |
| `PagingFormat.Hang` | src/kernel/paging.c:53-66 | an unused frame in an empty slot keeps every slot sound and every table single |
| `DemandPaging.UserSpace.SysBrk` | src/kernel/syscall.c:12-27 | the break moves exactly for requests from 32 MB to 64 MB and otherwise stays |
| `UserRuns.BreakIs` | src/kernel/syscall.c:12-27 | after any run the break is the last address asked for from 32 MB to 64 MB |
| `DemandPaging.UserSpace.Fault` | src/kernel/paging.c:74-104 | how the handler ends and the whole state it leaves, for every fault, faults of the kernel inside `page_map` included: `Fate`, `Served` and `Spent` decide it from the state before |
| `UserHeapView.ResumedIff` | src/kernel/paging.c:74-91 | the page is mapped if and only if a frame is left and the slot has a table or a second free frame lies below 16 MB; the handler returns with nothing mapped exactly when the last frame went to a page that needs a table |
| `UserHeapView.WreckedIff` | src/kernel/paging.c:56-69 | the tables are lost if and only if the slot is empty, the frame for its table lies at 16 MB or above, and, along the chain of faults the kernel takes on the pages of such frames, one of these pages is mapped or gets mapped |
| `UserHeapView.StuckIff` | src/kernel/paging.c:56-69 | the machine is stuck in the kernel if and only if the slot is empty, the frame for its table lies at 16 MB or above, and the chain of faults comes to a page of such a frame that is absent and outside the user heap |
| `UserHeapView.BrokenUnsound` | src/kernel/paging.c:56-69 | then some slot points at a table the kernel did not write |
| `UserHeapView.MapIdle` | src/kernel/paging.c:81-87 | mapping an idle frame keeps user pages on pairwise different frames and 0-16 MB mapped to itself |
| `UserHeapView.AccountedSize` | src/kernel/paging.c:74-91 | frames taken by the user heap number at most 8192 for data and 8 for tables |
| `DemandPaging.UserSpace.Run` | src/kernel/paging.c:74-91 | a run of break calls and accesses goes on to its end or to the first fault that is not resumed, and ends as `Fate` says; the state is the one the steps give; unless the tables are lost it stays sound; when all faults are resumed at most 8192 + 8 frames are taken |
| `UserRuns.RunGood` | src/kernel/paging.c:74-91 | the same on values, by induction over any run whose faults are all resumed |
| `UserRuns.MappedIffVisited` | src/kernel/paging.c:74-91 | over a run whose faults are all resumed exactly the pages touched get mapped |
| `UserRuns.OnlyInsideBreak` | src/kernel/paging.c:80-102 | an access to a page never touched halts the machine unless it is from 32 MB up to the break |
| `WreckedRun.Wrecks` | src/kernel/paging.c:49-72 | the failing input: with 128 MB and at most 4081 frames in use, a program that opens seven 4 MB slots of its heap, fills them and touches the eighth is served up to its last access, which loses the tables |
| `WreckedRun.EndsWrecked` | src/kernel/paging.c:49-72 | every run of that program ends there |
| `RoundRobin.Nearer` | src/kernel/scheduler.c:51-57 | each schedule call brings a waiting thread strictly nearer around the table, or dispatches it |
| `RoundRobin.NextSlotMeans` | src/kernel/scheduler.c:51-57 | the slot moved to is the next ready one upwards, slot 0 coming behind slot 15; when it is the same thread no other one is ready |
| `RoundRobin.AfterMeans` | src/kernel/scheduler.c:58-62 | a call of `schedule` makes the current thread ready and the next one running, a creation the first free slot ready, and all others stay as they are |
| `RoundRobin.Fairness` | src/kernel/scheduler.c:37-69 | a ready thread is dispatched within its cyclic distance, at most 15, in schedule calls, whatever creations come in between |
| `RoundRobin.FirstDispatch` | src/kernel/scheduler.c:38-46 | the first dispatch picks the lowest ready slot |
| `Contexts.SevenPushes` | src/kernel/switch.asm:3-6 | the words pushed by the call and by the switch are, read upwards, exactly the outgoing context, and no other frame changes |
| `Contexts.FaithfulAt` | src/kernel/scheduler.c:25-28 | in a faithful history a new thread is switched in at its entry point, with zeros in its registers and nothing on its stack, and any other with the registers, return address and stack of the last time it was switched out |
| `Contexts.CreateEnds` | src/kernel/scheduler.c:18-35 | after a creation stacks are separate and contexts intact if and only if it did not put a second stack in frame 0, where an unchecked failed allocation puts it |
| `Contexts.SwitchOk` | src/kernel/scheduler.c:58-66 | a switch keeps one running thread, separate stacks, and every waiting context on its own stack page |
| `Threads.Machine.BuildFrame` | src/kernel/scheduler.c:25-28 | the five words of a new thread are the context that the switch will pop; `Contexts.FaithfulAt` says which |
| `Threads.Machine.Create` | src/kernel/scheduler.c:18-35 | fills the first free slot; the state afterwards is given in full, and is valid exactly when no second stack went to frame 0 |
| `Threads.Machine.SwitchToThread` | src/kernel/switch.asm:2-15 | saves the outgoing registers, return address and stack, and resumes the other thread with exactly those it was switched out with |
| `Threads.Machine.FindNext` | src/kernel/scheduler.c:51-57 | the scan finds the next runnable slot around the table |
| `Threads.Machine.Schedule` | src/kernel/scheduler.c:37-69 | as one atomic step refines the round-robin choice; the log gets the registers, return address and stack of the thread that calls, and the context resumed, which is in the processor afterwards and is the one that thread was last switched out with; the switch is counted modulo 2^32; without a switch nothing changes |
| `ThreadSteps.SwitchScheduled` | src/kernel/scheduler.c:58-66 | a switch as a relation between whole kernel states: stacks apart, contexts parked, one thread running, the round robin followed |
| `Threads.Machine.RunAll` | src/kernel/scheduler.c:18-69 | a run goes on to its end or to a step that the source rules out; over it every thread switched in goes on with the registers, return address and stack it was switched out with, a new one at its entry point with an empty stack; the scheduler follows the round robin over all the steps done, so a thread waiting at the start is switched in by the time `schedule` was called its cyclic distance often; ids of live threads are unique |
| `Threads.Machine.GetThreadCount` | src/kernel/scheduler.c:74-79 | the count equals the number of ids handed out, since no slot is ever freed |
| `Rings.PutQueues` | src/kernel/ipc.c:31-33 | the ring writes of a send append to the queue and keep tail = (head + count) mod 16 |
| `Rings.TakeDequeues` | src/kernel/ipc.c:53-55 | the ring writes of a receive remove the oldest message |
| `Rings.FlowPromises` | src/kernel/ipc.c:20-67 | each mailbox has received a prefix of what it accepted, its count is the difference, and sent minus received equals what is queued modulo 2^32 |
| `Mailboxes.Ipc.BeginSend` | src/kernel/ipc.c:20-25 | the lookup finds the slot of a live thread with that id, or fails exactly when there is none |
| `Mailboxes.Ipc.EndSend` | src/kernel/ipc.c:27-39 | the critical section fails exactly on a full mailbox and otherwise appends and counts |
| `Mailboxes.Ipc.EndReceive` | src/kernel/ipc.c:49-61 | the critical section fails exactly on an empty mailbox and otherwise hands out the oldest message not yet received |
| `Mailboxes.Ipc.RunAll` | src/kernel/ipc.c:20-62 | any interleaving of lookups, critical sections and thread steps goes through states related step by step by `IpcMoves`, and keeps first-in-first-out order, ring bounds and the counters |
| `FramePartition.UserGrows` | src/kernel/paging.c:81-87 | a mapped page and its table join the partition of frames without touching heap or stacks |
| `Ownership.System.RunAll` | src/kernel/kernel.c:115-116 | a run of all clients goes through states related step by step by `StepOk`, to its end or to a step that halts the machine, loses the page tables, or puts heap or stack at 16 MB or above; in every state heap pages, stacks, page tables and user pages are on pairwise different used frames, above the reserved 1024 but for the four static tables and one stack in frame 0 after memory ran out, kmalloc blocks never overlap and contexts are parked |
| `Ownership.System.AccessEnds` | src/kernel/paging.c:74-104 | however a fault ends short of losing the tables, the frames stay partitioned; a frame taken for nothing belongs to nobody |
| `Ownership.System.InWindow` | src/kernel/paging.c:19-37 | everything in use lies in the identity-mapped window exactly until 4096 frames are in use, and the next frame does exactly below that count |
| `Framebuffer.MapFramebuffer` | src/kernel/vbe.c:160-164 | every page the loop visits is mapped to itself, nothing else translates differently, and the tables for it are on frames nobody had |
| `Framebuffer.CoveredIff` | src/kernel/vbe.c:160-164 | those are all pages of the framebuffer if and only if its size is 0 or its offset in its first page plus its size is at most that many pages |
| `Framebuffer.OwnAddresses` | src/kernel/vbe.c:160-164 | after boot every byte of the first 16 MB and of the framebuffer is at its own address, present, writable and open to user programs, and the other pages are not mapped |
| `KernelMain.Boot` | src/kernel/kernel.c:88-117 | the boot order establishes a state that all the run theorems start from: the 1500-page heap, the four static tables, the framebuffer mapped, nothing of the user heap mapped, frames from the count in use on free |
| `KernelMain.LoseTables` | src/kernel/kernel.c:88-117 | from boot, the program of `WreckedRun` loses the page tables |
| `SharedMemory.Reaches` | src/kernel/paging.c:19-37 | heap headers, page tables and stacks lie at their own addresses in the kernel's view |
| `SharedMemory.StoresKeep` | src/kernel/paging.c:81-87 | with heap headers, page tables and stacks read from one memory, no run of stores through user mappings, to the running stack or to kmalloc payloads changes the block list, a translation or a waiting context |
| `KernelStores.CarveWrites` | src/kernel/memory.c:76-90 | the words a split writes to the one memory spell out the split list, and lie in heap pages |
| `KernelStores.GrowWrites` | src/kernel/memory.c:101-120 | so do those of a growth by a page |
| `KernelStores.EntryMaps` | src/kernel/paging.c:68-69 | the word written for a page changes its translation only, walked in the one memory |
| `KernelStores.TableMaps` | src/kernel/paging.c:60-69 | a frame below 16 MB filled as a table and hung in an empty slot does the same |
| `KernelStores.ActsKeep` | src/kernel/kernel.c:88-117 | over any run of all of these in the one memory (stores by users, threads and kmalloc clients; splits, growth, frees and merges of the heap; pages mapped with and without a new table; threads created, switched and dispatched) every header, translation and parked context stays what its owner put there |
| `KernelStores.BootIntact` | src/kernel/kernel.c:88-116 | the memory the kernel boots into, whatever the rest of it holds, is such a state |
| `SharedMemory.SharedFrameBreaks` | src/kernel/scheduler.c:24-33 | without the partition it does: a user page on the stack frame of a waiting thread lets one store destroy its context |
| `FatFormat.Aligned` | src/kernel/fat32.c:67-75 | a FAT entry never straddles two sectors, 32-bit wrap included |
| `DiskImages.NextReads` | src/kernel/fat32.c:67-75 | on a disk written as reserved sectors, allocation tables of little-endian words and clusters, the driver reads the low 28 bits of the entry of a cluster |
| `DiskImages.SectorReads` | src/kernel/fat32.c:215-224 | on such a disk cluster 2 begins where the data begins and every cluster where the one before it ends |
| `DiskImages.FileComesBack` | src/kernel/fat32.c:192-241 | a file written to a chain of clusters comes back as their contents one after the other, up to its size |
| `BootRecords.MountsWritten` | src/kernel/fat32.c:243-264 | a disk is mounted as it was written, with the table, data and root cluster where its boot record says, and only with the signature |
| `FatFormat.BehindIsDrop` | src/kernel/fat32.c:201-208 | following links drops whole clusters of content; like the code it tests every cluster but the first |
| `FatFormat.ClipIff` | src/kernel/fat32.c:194-195 | the clip gives the intended count if and only if offset + size does not wrap or the offset is past the end |
| `FatFormat.DeliversFile` | src/kernel/fat32.c:192-241 | what a read delivers is bytes [offset, offset + size) of the file, across any cluster boundaries, as far as recorded size and chain go, for every request that neither wraps nor strays to another chain |
| `FatFormat.DeliversFileIff` | src/kernel/fat32.c:192-241 | for every request, exactly when that is so: one that wraps past 2^32 reads beyond the recorded size when the chain stores something there; one that strays reads another chain unless that stores nothing at that place |
| `FatFormat.OtherChain` | src/kernel/fat32.c:201-214 | a first cluster that is no data cluster but whose FAT entry links on: past one cluster a read delivers the chain behind that link, though the file has no content |
| `FatFormat.WholeFile` | src/kernel/fat32.c:192-241 | all recorded bytes are there if and only if the chain is long enough |
| `HeapLinks.GrownByBuffer` | src/kernel/fat32.c:211-239 | a buffer allocated and freed leaves the heap as it was but for growth |
| `FatReader.FatDriver.LoadCluster` | src/kernel/fat32.c:218-225 | the sector loop reads exactly the cluster |
| `FatReader.FatDriver.CopyChain` | src/kernel/fat32.c:217-237 | the read loop copies exactly the asked range of the chain and nothing outside it |
| `FatReader.FatDriver.Read` | src/kernel/fat32.c:192-241 | the range delivered lands in the buffer and nothing else is written; heap-neutral; nothing is read only when there is no memory for the cluster buffer |
| `FatNames.CopyCompact` | src/kernel/fat32.c:28-45 | the copying loops write the characters other than spaces in lower case |
| `FatNames.FatNameToString` | src/kernel/fat32.c:24-54 | the buffer holds base name, dot and extension if any, and a NUL |
| `FatNames.RenderInjective` | src/kernel/fat32.c:24-54 | no two names that are legal (padded, upper-case) or a dot entry are rendered alike |
| `FatNames.RenderSameIff` | src/kernel/fat32.c:24-54 | names without dots are rendered alike if and only if base and extension agree after dropping spaces and folding case |
| `FatNames.RenderCollides` | src/kernel/fat32.c:24-54 | a dot inside a name breaks that: two different raw names with one rendering |
| `DirectoryFormat.ScanFinds` | src/kernel/fat32.c:88-105 | a scan for an index finds exactly that entry of the listing (stop at 0x00, skip 0xE5 and long-name entries), or none |
| `DirectoryFormat.DirIs` | src/kernel/fat32.c:77-111 | the listing does not depend on how far beyond its end the chain is followed |
| `DirectoryImages.RecordReads` | src/kernel/fat32.c:88-103 | an entry written as name, attributes, times, high and low half of the first cluster and size is read back as it was |
| `DirectoryImages.DirectoryBit` | src/kernel/fat32.c:131 | attribute bit 4 makes a directory, whatever the other bits |
| `DirectoryImages.DirectoryComesBack` | src/kernel/fat32.c:77-111 | a directory written to a chain of clusters is listed as written: entries in use in order, without deleted ones and long-name parts, up to the end mark |
| `DirectoryImages.NameComesBack` | src/kernel/fat32.c:24-54 | a file name stored in capitals and filled up with spaces is shown as the user gave it, with the dot |
| `DirectoryImages.FileComesBackByName` | src/kernel/fat32.c:149-190 | looked up by that name in a directory on the disk, the file is found and has its content |
| `FatDirectory.ReadDir` | src/kernel/fat32.c:77-111 | succeeds exactly for indices below the length of the listing and yields that entry; ends although the code has no cycle check, given an end mark or a finite chain |
| `FatDirectory.StrEqual` | src/kernel/fat32.c:19-22 | equality of C strings |
| `FatDirectory.FindEntry` | src/kernel/fat32.c:149-158 | the first entry whose rendered name matches, or none |
| `DirectoryFormat.FindsItself` | src/kernel/fat32.c:117-190 | in a directory of distinct names, each legal or one of "." and "..", looking up the displayed name of entry i finds entry i |
| `Paths.LookupIsFirst` | src/kernel/fat32.c:117-190 | enumeration and lookup agree: a lookup yields the first enumerated item of that name, in the RAM root and on the volume |
| `Paths.WalkIff` | src/kernel/vfs.c:21-56 | the path walk equals component-by-component resolution (none for an empty path or one ending in a single slash) if and only if no over-long first component, cut to 127 bytes, hits a RAM file |
| `Paths.ShortComponents` | src/kernel/vfs.c:21-56 | with components under 128 bytes the walk is component-by-component resolution |
| `Paths.WalkJoined` | src/kernel/vfs.c:21-56 | a path of names with slashes between them is walked name by name |
| `Paths.WalkEdges` | src/kernel/vfs.c:21-56 | an empty path, or one with a single slash behind its last name, names nothing; more slashes there, or any in front, change nothing |
| `FilesOnDisk.PathToContent` | src/kernel/vfs.c:21-56 | with a directory of a written disk mounted as `disk`, the path `disk/name.ext` leads to the file, and its bytes are the content it was written with |
| `Paths.ResolveThrough` | src/kernel/vfs.c:50-53 | resolving a path of any depth is resolving its rest from where its beginning leads, mount points included |
| `NodePool.PoolStep` | src/kernel/fat32.c:56-65 | handing out a node overwrites only the allocation 64 before |
| `NodePool.Survives` | src/kernel/fat32.c:56-65 | a node stays intact for the next 63 allocations |
| `NodePool.Recycled` | src/kernel/fat32.c:56-65 | the 64th allocation after it reuses the slot |
| `NodePool.LiveNode` | src/kernel/fat32.c:131-143 | flags and function pointers of a node agree with what it stands for |
| `Vfs.FileSystem.NewNode` | src/kernel/fat32.c:159-186 | the node shows the directory entry; nothing visible elsewhere changes |
| `Vfs.FileSystem.CreateFile` | src/kernel/ramfs.c:67-83 | appends one file to the RAM root, or does nothing when 16 are there |
| `Vfs.FileSystem.CreateMountpoint` | src/kernel/ramfs.c:85-97 | appends a directory that is the root of the volume |
| `Vfs.FileSystem.RamFindDir` | src/kernel/ramfs.c:42-50 | the first RAM file of that name |
| `Vfs.FileSystem.FatFindDir` | src/kernel/fat32.c:149-190 | the first directory entry of that name, as a pooled node |
| `Vfs.FileSystem.FindDir` | src/kernel/vfs.c:21-56 | terminates and refines the walk despite node recycling; allocates at most one node per component |
| `Vfs.FileSystem.FindsTarget` | src/kernel/vfs.c:21-56 | for every reachable state of the file system, what the walk finds is the component-by-component resolution, with the one exception of `WalkIff` |
| `Vfs.FileSystem.WalkWhileHolding` | src/kernel/fat32.c:56-65 | a kept node still shows its item while other paths are walked, up to 63 allocations |
| `Vfs.FileSystem.ReadDirectory` | src/kernel/vfs.c:14-19 | the item of that index in the listing of a directory, null past its end and for files |
| `FileContents.BytesAreContent` | src/kernel/vfs.c:9-12 | RAM files and FAT32 files read as slices of their content through one interface, unless a FAT32 read strays |
| `FileContents.ChunkReads` | src/kernel/shell.c:227-234 | the requests of the 255-byte loop are never clipped wrongly, whatever the file size: 2^32 - 1 is a multiple of 255 |
| `HeapLinks.GrownNeutral` | src/kernel/fat32.c:211-239 | over any reads the heap has the same live blocks and the same used count |
| `FileReads.RamRead` | src/kernel/ramfs.c:15-23 | the asked range of the file, and nothing else written |
| `FileReads.FileReader.Read` | src/kernel/vfs.c:9-12 | dispatch to the driver of the node |
| `FileReads.FileReader.Cat` | src/kernel/shell.c:227-234 | terminates having fetched the file once, in order and whole; only for a FAT32 file, when frames are exhausted and no heap block fits the cluster buffer, may it stop short; without NULs all of it is printed |
| `FilesByPath.CatFile` | src/kernel/shell.c:219-243 | the same for the file a path names; "not found" and "not a file" exactly when so |
| `ElfFormat.PatchLast` | src/kernel/elf.c:28-35 | an address holds what the last segment covering it put there |
| `ElfFormat.LoadImage` | src/kernel/elf.c:28-35 | with disjoint pieces each is in memory and all other memory is as before |
| `ElfLoader.LoadSegment` | src/kernel/elf.c:32-35 | copies what the file has of a segment and zeroes the rest of it; bytes the file does not have stay as they were |
| `ElfFormat.PieceInFile` | src/kernel/elf.c:29 | of a segment that lies in the file that is exactly its bytes |
| `ElfImages.FileHeaderReads` | src/kernel/elf.c:12-19 | a file header written field by field is decoded to its entry point and the place, size and number of its program headers |
| `ElfImages.ProgramHeaderReads` | src/kernel/elf.c:24-27 | a program header written field by field is decoded to its type, offset, address and sizes |
| `ElfImages.LoadedInMemory` | src/kernel/elf.c:23-36 | after loading a file written that way every address of a segment has its byte, or zero behind them, the last segment winning, and every other address what it had |
| `ElfLoader.Load` | src/kernel/elf.c:13-38 | the image of all program headers and the entry point, whether headers and segments lie in the file or not: a short read leaves what the header variable or the memory held; 0 and no change without the magic number |
| `ElfLoader.LoadLinked` | src/kernel/elf.c:6-39 | loading such a file does that and returns the entry point, whatever was on the stack |
| `ElfLoader.LoadFile` | src/kernel/elf.c:6-39 | the same for the item a path names, a directory being read as an empty file; 0 for a path that names nothing |
| `TextPage.FlatPutAll` | src/drivers/tty.c:103-142 | the page loses and repeats nothing: its cells in order are the characters typed, line breaks aside, and blanks up to the stop for each tab |
| `TextPage.PlainTextFills` | src/drivers/tty.c:131-142 | plain text fills lines of 78, one after the other |
| `TextPage.BreakStartsLine` | src/drivers/tty.c:106-115 | what follows a line feed or carriage return is typed as on an empty page directly below |
| `TextPage.PageStands` | src/drivers/tty.c:103-142 | a text typed on an empty page, tabs and breaks and all, stands on it as its pieces between breaks, each set by itself in lines of 78, one directly below the other |
| `TextPage.NextStopRange` | src/drivers/tty.c:117-120 | a tab moves right to a multiple of 4, or to the last column, where it stays |
| `TextPage.AppendShows` | src/drivers/tty.c:132-135 | a cell written at the cursor keeps the grid showing the last 18 lines |
| `TextPage.NewLineShows` | src/drivers/tty.c:106-115 | a new row shows the page with a new line, by scrolling exactly when the last row is in use |
| `TextPage.BlankBehind` | src/drivers/tty.c:103-142 | every cell from the cursor onward is blank |
| `TextPage.DecimalValue` | src/drivers/tty.c:148-154 | the digits printed for a number have its value |
| `TextPage.ColoursSwapped` | src/drivers/tty.c:68-70 | setting a colour swaps foreground and background: it has the intended effect only for equal colours |
| `Terminal.Tty.FlushAll` | src/drivers/tty.c:26-31 | the screen becomes the shadow, borders untouched |
| `Terminal.Tty.Scroll` | src/drivers/tty.c:34-49 | shadow and screen both move up one row, the last row blank |
| `Terminal.Tty.BlankTail` | src/drivers/tty.c:106-109 | clearing the shadow row tail without writing to the screen changes nothing, since it is blank |
| `Terminal.Tty.TtyPutChar` | src/drivers/tty.c:103-142 | refines typing on the unbounded page; the screen equals the shadow in every cell but the cursor cell; borders untouched |
| `Terminal.Tty.OnScreen` | src/drivers/tty.c:51-66 | what is to be seen: row r below the top border and column c right of the left one show line r of the last 18, blank behind the text, and the cursor block at its end |
| `Terminal.Tty.TtyClear` | src/drivers/tty.c:78-88 | an empty page, the screen equal to the shadow |
| `Terminal.Tty.TtyPuts` | src/drivers/tty.c:144-146 | typing the characters one by one |
| `Terminal.Tty.WriteDecimal` | src/drivers/tty.c:148-153 | the buffer holds the decimal digits without leading zeros |
| `Terminal.Tty.RunAll` | src/drivers/tty.c:68-142 | after any run of characters, colour changes and clears the grid shows the last 18 lines of the page and the screen mirrors it |

## Left out

- Ownership.System.RunAll: heap headers, page tables and stacks are separate objects of the classes; `KernelStores` has them in one memory, as a relation on values. A run is not followed beyond a step that loses the page tables or puts heap or stack at 16 MB or above.
- DemandPaging.UserSpace.Run: what a program does after the page tables are lost is not followed, since translations then depend on what the frame held.
- KernelStores.ActsKeep: threads compute through their own stores; registers other than the stack pointer are not part of it.
- Framebuffer.MapFramebuffer: the mode set-up, the back buffer (an ordinary `kmalloc`) and drawing are left out.
- Frames.FrameAllocator: bitmap words are sequences of 32 truth values, not machine words with masks.
- KernelHeap.Heap.Kmalloc: when `reach` is false the header of a page at 16 MB or above is written as if the kernel reached it; in the source that store faults or lands in a user page.
- Threads.Machine.Create: the same for a stack page at 16 MB or above; event logging is left out.
- Threads.Machine.Schedule: preemption inside `schedule` on the yield path.
- PageTables.Tables.PageMap: physical memory is 32768 frames, and translation look-aside buffers are not modelled.
- PageTables.Tables.Init: the four tables are filled one after the other where the source fills them in one loop; loading CR3 and CR0 is left out.
- DemandPaging.UserSpace.Fault: the messages printed before halting are left out; a halted machine is an outcome.
- Mailboxes.Ipc: calls of one caller do not overlap; messages are values.
- FatFormat.Volume: what a drive returns past its end is taken to be zeros.
- BootRecords.Mount: the boot sector is decoded to a value; the static variables it is stored in are not modelled.
- FatReader.FatDriver: the cluster buffer is an array of its own, not the bytes at the pointer `kmalloc` returned.
- FatDirectory.FindEntry: the index is unbounded where the source has a signed 32-bit one.
- Vfs.FileSystem: node names are the C strings in their buffers; the four files of `ramfs_init` are created by a caller; fields of the node a lookup returns are not written by anybody else.
- FileReads.RamRead: memory behind the end of a RAM file is not modelled, so a request that wraps is excluded.
- FileReads.FileReader.Cat: text goes to an abstract output; the shell's parsing is left out.
- ElfLoader.Load: the target is an array of bytes apart from kernel memory; the header index times its size is not signed 32-bit.
- Terminal.Tty: pixels, the compositor and `tty_put_hex` are left out.
- Port input and output, device protocols, descriptor tables, interrupt stubs and ring-3 entry: machine effects outside the model.
- Dashboard, splash, fonts, compositor, keyboard buffer, mouse, serial and event logging: they would only add easy members.
- The directory `copy/`: duplicates that are not built.
