# Verified model of OSKernel2023

OSKernel2023 is a RISC-V teaching kernel for QEMU and the Kendryte K210. This
project models its hardest parts in Dafny and proves what they are for:

- **virtio split queue** (`VirtQueue*.dfy`): the driver's descriptor table, free
  list and rings, running against a device that may take and return requests in
  any order. Driver and device are steps of one state machine; the main theorem
  holds in every state any interleaving reaches, across 16-bit wrap-around, and a
  synchronous block request is followed from add to pop.
- **memory management** (`Memory`, `Address`, `Frames`, `PageTable`, `Sv39`, `Layout`,
  `AddressSpace`, `Fork`, `Ownership`, `Program`, `UserBuffer`, `UserStack`,
  `StackBuilder`): physical memory is a map from frame numbers to 4096 bytes, and
  page tables live in it as little-endian words. The three-level tree is proved to
  refine a finite map from page numbers to entries, and the hardware's own walk over
  the bytes to agree with it; frames are conserved, have one owner each and are
  given back once; loading a program, forking it, user buffers
  and the initial stack are then proved at the level of virtual bytes.
- **block and page caches** (`BlockCache`, `PageCache`, `PageCacheManager`): over
  any run the caches are invisible, and eviction ends.
- **PLL parameter search** (`PllTable`, `Pll`, `PllSlower`): `compute_params` with its
  101-entry factor table, in 32- and 64-bit arithmetic with every sum, product and
  division shown to fit.
- **paths** (`DirectoryTree`): normalisation preserves the meaning of a path.
- **SLIP framing** (`Slip`): the flashing tool's encoder and decoder are inverse.

Code that updates state in place is a class or a method with loops, proved equal
to a function of the old state; the theorems are lemmas about those functions.
Some properties turn out not to hold everywhere, and come with their condition:

- ring slots lie in the rings (`SlotInRing`);
- a new queue satisfies the invariant (`InitialInv`);
- `dealloc` accepts only live frames (`AcceptsExactly`);
- `translated_byte_buffer` ends (`EndsExactly`) and collects the whole range
  (`WholeRange`);
- the slower PLL search misses no pair of a product it chose (`MissesExactly`, a
  condition on the two frequencies; `MissedPair` is an instance);
- a forked page has its parent's flags (`FlagsKept`);
- a path and its normal form succeed together (`NormalPreservesMeaning`).

## Reading notes

- A panic of the source is a failed result (`None`, `false`, an error case), and
  the contract says when it can happen.
- `LogicalDisk`, `Content`, `tr` (translations), `owned` (data pages) and `live`
  (frames handed out) are specification views; the real state is the fields.
- `Reachable` and `Transparent` quantify over every run: `Run` applies a sequence
  of arbitrary steps.
- Where code and comments disagree the code is followed. The comment of
  `build_stack` lists other environment strings and byte values than it writes;
  `parse_dir_path` cancels a name without looking whether it exists.

## Model

| member | source | states |
|---|---|---|
| `VirtQueueProofs.Reachable` | dependency/virtio-drivers/src/queue.rs:42-175 | in every state any interleaving of adds, pops and device steps reaches: descriptors are partitioned into free list and disjoint acyclic chains, each outstanding request reads back as added, each add is outstanding or popped once, counters are exact |
| `VirtQueueProofs.StepKeeps` | dependency/virtio-drivers/src/queue.rs:82-175 | every driver or device step keeps the invariant |
| `VirtQueueProofs.InitialInv` | dependency/virtio-drivers/src/queue.rs:56-77 | a new queue satisfies the invariant if and only if its memory held zero in the two shared indexes, which `new` does not write, whatever else it held |
| `VirtQueueProofs.AddTable` | dependency/virtio-drivers/src/queue.rs:90-114 | a successful add turns the first n free descriptors, in order, into an acyclic chain with exactly the given parts, and changes no other descriptor |
| `VirtQueueProofs.AddKeepsAvail` | dependency/virtio-drivers/src/queue.rs:116-124 | the slot an add writes is none the device has yet to read |
| `VirtQueueProofs.CompleteKeepsUsed` | dependency/virtio-drivers/src/queue.rs:253-265 | the slot the device writes is none the driver has yet to read |
| `VirtQueueProofs.RecycleChain` | dependency/virtio-drivers/src/queue.rs:141-155 | recycling an outstanding head terminates after exactly its chain, relinks only the last descriptor, and cannot make the used count negative |
| `VirtQueueProofs.PopReturns` | dependency/virtio-drivers/src/queue.rs:160-175 | a pop returns the earliest unread used element and ends exactly the request with that head |
| `VirtQueueProofs.ChainReadsBack` | dependency/virtio-drivers/src/queue.rs:90-112 | following NEXT from an outstanding head gives the address and length of every input with WRITE clear, then of every output with WRITE set, NEXT on all but the last |
| `VirtQueueProofs.AddedReadsBack` | dependency/virtio-drivers/src/queue.rs:90-114 | the same right after the add, of its inputs and outputs |
| `VirtQueueProofs.AddFails` | dependency/virtio-drivers/src/queue.rs:83-88 | an add fails exactly for no parts at all, or for more parts than free descriptors |
| `VirtQueueProofs.ChainStays` | dependency/virtio-drivers/src/queue.rs:82-175 | an outstanding request stays as it is under every step but its own pop |
| `VirtQueueProofs.MatchedOnce` | dependency/virtio-drivers/src/queue.rs:82-175 | every add is popped at most once, and exactly once when nothing is outstanding |
| `VirtQueueProofs.OutstandingCount` | dependency/virtio-drivers/src/queue.rs:116-131 | `avail_idx - last_used_idx` modulo 2^16 is the number of outstanding requests, at most the queue size |
| `VirtQueueProofs.CanPopExact` | dependency/virtio-drivers/src/queue.rs:129-131 | `can_pop` holds exactly when a returned request is unread |
| `VirtQueueProofs.SlotOfWrapped` | dependency/virtio-drivers/src/queue.rs:116-117 | masking a wrapped counter gives the unbounded counter modulo the size |
| `VirtQueueProofs.SlotInRing` | dependency/virtio-drivers/src/queue.rs:241-265 | all masked slots lie in the 32-entry rings if and only if the size is at most 32 |
| `VirtQueueDriver.Create` | dependency/virtio-drivers/src/queue.rs:42-77 | error cases in the source's order, the failed allocation included, and the initial queue otherwise, valid exactly when the shared indexes are zero |
| `VirtQueueDriver.Driver.constructor` | dependency/virtio-drivers/src/queue.rs:56-77 | the free list is linked through all descriptors and the driver's own counters are zero; rings and shared indexes are as the memory held them |
| `VirtQueueDriver.Driver.Add` | dependency/virtio-drivers/src/queue.rs:82-126 | the in-place add is the add step of the state machine and keeps the invariant; it fails exactly for no parts or too few free descriptors; on success the device reads the inputs and outputs from the head returned |
| `VirtQueueDriver.Driver.CanPop` | dependency/virtio-drivers/src/queue.rs:129-131 | true exactly when the device returned a request that was not popped |
| `VirtQueueDriver.Driver.RecycleDescriptors` | dependency/virtio-drivers/src/queue.rs:141-155 | the loop over an acyclic chain pushes it to the free list and subtracts its length |
| `VirtQueueDriver.Driver.PopUsed` | dependency/virtio-drivers/src/queue.rs:160-175 | the in-place pop is the pop step of the state machine, with its error, and keeps the invariant |
| `VirtQueueDriver.Driver.DeviceTake` | dependency/virtio-drivers/src/queue.rs:237-246 | reading the ring is the take step of the state machine: the head read is that of the earliest request not taken, and nothing is read exactly when there is none |
| `VirtQueueDriver.Driver.DeviceComplete` | dependency/virtio-drivers/src/queue.rs:253-265 | the device returning a held request is the completion step of the state machine and keeps the invariant |
| `VirtQueueRequest.IdleIs` | dependency/virtio-drivers/src/queue.rs:116-175 | with nothing outstanding all counters agree and every descriptor is free |
| `VirtQueueRequest.PopsOnly` | dependency/virtio-drivers/src/queue.rs:160-175 | the only outstanding request, once returned, is the one popped |
| `VirtQueueRequest.Request` | dependency/virtio-drivers/src/blk.rs:54-72 | on an idle queue add, device and pop together return this very request with its length, leave the queue idle with all descriptors free, and fail exactly for no parts or too many |
| `Frames.AllocKeeps` | kernel/src/mm/frame_allocator.rs:72-81 | an allocated frame was not live; fails exactly when nothing is unallocated |
| `Frames.DeallocKeeps` | kernel/src/mm/frame_allocator.rs:82-90 | freeing a live frame is accepted and keeps live and recycled frames disjoint and duplicate-free |
| `Frames.FreedIsNext` | kernel/src/mm/frame_allocator.rs:72-90 | the frame freed last is handed out next, and the allocator is then as before |
| `Frames.NewOnlyWhenNeeded` | kernel/src/mm/frame_allocator.rs:72-81 | a frame never used is handed out only when all frames below it are live |
| `Frames.AcceptsExactly` | kernel/src/mm/frame_allocator.rs:82-90 | the validity check accepts a frame if and only if it is live or below the managed range |
| `Frames.AcceptsUnmanaged` | kernel/src/mm/frame_allocator.rs:82-90 | a concrete frame below the range that was never allocated and is accepted |
| `Frames.Conservation` | kernel/src/mm/frame_allocator.rs:60-62 | unallocated plus live frames is the size of the managed range |
| `Frames.RunConserves` | kernel/src/mm/frame_allocator.rs:55-90 | every run of allocations and frees keeps the invariant and the sum |
| `Frames.Machine.FrameAlloc` | kernel/src/mm/frame_allocator.rs:119-124 | a frame that was not live, zeroed, and no other byte of memory changed |
| `Frames.Machine.Zero` | kernel/src/mm/frame_allocator.rs:15-22 | the loop zeroes the whole frame and nothing else |
| `Frames.Machine.FrameFree` | kernel/src/mm/frame_allocator.rs:34-40 | dropping a tracker returns its frame |
| `Address.VirtAddrIsMask` | kernel/src/mm/address.rs:64-68 | the conversion is the 39-bit mask |
| `Address.FloorCeil` | kernel/src/mm/address.rs:99-108 | floor and ceiling are the nearest page boundaries, for all 39-bit addresses |
| `Address.ComputeIndexes` | kernel/src/mm/address.rs:150-160 | the loop yields the three nine-bit indexes |
| `Address.IndexesInjective` | kernel/src/mm/address.rs:150-160 | different page numbers below 2^27 have different indexes |
| `PageTable.PteNewIsOr` | kernel/src/mm/page_table.rs:29-33 | the arithmetic form of an entry is shift-and-or |
| `PageTable.PteRoundTrip` | kernel/src/mm/page_table.rs:29-45 | decoding an encoded entry gives page number and flags, for all ppn < 2^44 |
| `PageTable.WithIsOr` | kernel/src/mm/page_table.rs:118-154 | the arithmetic forms of the flags are `flags | V` and `flags | U | V` |
| `PageTable.FlagBits` | kernel/src/mm/page_table.rs:118-154 | bit by bit: every flag asked for, V, and U where it is added, and no other |
| `PageTable.RefinesExactly` | kernel/src/mm/page_table.rs:100-139 | a tree in memory refines exactly one finite map |
| `PageTable.InstallKeeps` | kernel/src/mm/page_table.rs:81-99 | hanging a zeroed table into an empty slot changes no page's translation |
| `PageTable.WriteLeaf` | kernel/src/mm/page_table.rs:118-128 | writing one leaf entry changes that page's translation and no other |
| `PageTable.TreeFrame` | kernel/src/mm/page_table.rs:66-99 | memory outside the tree does not matter to it |
| `PageTable.RecordedSnoc` | kernel/src/mm/page_table.rs:81-99 | recording a new table keeps every table of the tree recorded exactly once |
| `PageTable.Table.constructor` | kernel/src/mm/page_table.rs:67-73 | a zeroed root translates nothing |
| `PageTable.Table.FindPteCreate` | kernel/src/mm/page_table.rs:81-99 | finds the leaf table, uses exactly the missing number of fresh frames, each recorded once, fails exactly when too few are left, keeps all translations |
| `PageTable.Table.FindPte` | kernel/src/mm/page_table.rs:100-117 | the leaf table, if both upper levels exist |
| `PageTable.Table.Map` | kernel/src/mm/page_table.rs:118-123 | adds exactly one page to the map; fails exactly when it is mapped or frames run out |
| `PageTable.Table.Unmap` | kernel/src/mm/page_table.rs:124-128 | removes exactly one page; fails exactly when it is not mapped |
| `PageTable.Table.Translate` | kernel/src/mm/page_table.rs:129-131 | the raw leaf entry whenever both upper levels exist; a page is mapped exactly when it is valid, and it is then the page's translation |
| `PageTable.Table.TranslateVa` | kernel/src/mm/page_table.rs:132-139 | the raw entry's frame address plus the page offset whenever both upper levels exist, and so the translation of every mapped page |
| `PageTable.Table.SetPteFlags` | kernel/src/mm/page_table.rs:144-154 | the flags asked for with U and V on one mapped page, same frame, everything else unchanged; fails exactly when it is not mapped |
| `Sv39.PteIsWord` | kernel/src/mm/page_table.rs:81-117 | an entry is the little-endian word at its address in physical memory |
| `Sv39.HardwareAgrees` | kernel/src/mm/page_table.rs:66-154 | the translation process of the RISC-V privileged architecture, run on the bytes of memory, gives for every address the frame and flags of the map, and faults exactly on pages that are not mapped or not usable |
| `AddressSpace.SplicePage` | kernel/src/mm/memory_set.rs:970-991 | writing into one page's frame changes the virtual bytes of that range only, since no two pages share a frame |
| `AddressSpace.Space.MapFresh` | kernel/src/mm/memory_set.rs:900-926 | a fresh zeroed frame of its own for the page; fails only if it is mapped or memory ran out |
| `AddressSpace.Space.MapRange` | kernel/src/mm/memory_set.rs:941-961 | the same for every page of an area |
| `AddressSpace.Space.CopyData` | kernel/src/mm/memory_set.rs:970-991 | every virtual byte of the pages is the data byte for its address or as before, for every offset and length that fits |
| `AddressSpace.CopiedIntoZero` | kernel/src/mm/memory_set.rs:970-991 | data copied into zeroed pages leaves zero everywhere else |
| `AddressSpace.Space.PushSegment` | kernel/src/mm/memory_set.rs:108-122 | after loading, byte start+i is data[i] and every other byte of the area's pages is zero; every frame live before keeps its bytes |
| `AddressSpace.SegmentsStep` | kernel/src/mm/memory_set.rs:278-306 | one more segment keeps the bytes of all segments loaded before |
| `AddressSpace.TakenIsClash` | kernel/src/mm/memory_set.rs:278-306 | a page of the next segment is found mapped exactly when it was mapped at first or an earlier segment has it |
| `AddressSpace.BelowTrampolines` | kernel/src/mm/memory_set.rs:124-139 | with both trampolines mapped, segments that clash with nothing end below them |
| `AddressSpace.Space.LoadSegments` | kernel/src/mm/memory_set.rs:278-306 | after the program-header loop every segment reads as its data followed by zeros, at once, in an area that records its frames; pages owned before stay; fails on every clash of pages, and otherwise only if memory ran out; the layout fork relies on is kept exactly when all segments end below the trampolines |
| `AddressSpace.Space.ProtectRange` | kernel/src/mm/memory_set.rs:625-653 | flags change on the pages before the first unmapped one; frames and other pages stay |
| `AddressSpace.Space.Mprotect` | kernel/src/mm/memory_set.rs:625-653 | succeeds if and only if every page that meets the range is mapped; then these pages have the flags asked for with U and V, all others and all frames are as before |
| `Fork.SpaceStays` | kernel/src/mm/memory_set.rs:429-488 | a space stays valid while all frames live before stay untouched |
| `Fork.LayoutComplete` | kernel/src/mm/memory_set.rs:429-488 | after areas, heap and mmap the copy owns exactly the tracked pages, area pages with the area's permission, the rest readable and writable |
| `Layout.LayoutPush` | kernel/src/mm/memory_set.rs:108-114 | pushing an area below the trampolines keeps areas, heap and mmap disjoint, the owned pages tracked, and each area's recorded frames those it owns, which fork relies on |
| `Fork.LayoutAgain` | kernel/src/mm/memory_set.rs:429-488 | the copy satisfies what fork relies on, recorded frames included, so it can be forked in turn |
| `Fork.CopyDone` | kernel/src/mm/memory_set.rs:429-488 | once areas, heap and mmap are copied the copy has the parent's areas, a layout of its own and exactly the tracked pages |
| `Fork.PagesFree` | kernel/src/mm/memory_set.rs:452-486 | heap and mmap pages are unmapped in the copy until they are copied |
| `Fork.CloneArea` | kernel/src/mm/memory_set.rs:440-451 | every page of an area in a new frame with the parent page's bytes |
| `Fork.ClonePages` | kernel/src/mm/memory_set.rs:452-486 | the same for heap or mmap pages in any order |
| `Fork.MapTrampolines` | kernel/src/mm/memory_set.rs:124-139 | both trampolines are mapped with their flags, or memory ran out |
| `Fork.TrampolineFlags` | kernel/src/mm/memory_set.rs:124-139 | bit by bit: both trampolines readable and executable, not writable, the signal one for the user |
| `Fork.DataFlags` | kernel/src/mm/memory_set.rs:452-486 | bit by bit: heap and mmap pages of the child are user pages, readable and writable, not executable |
| `Fork.FromExistedUser` | kernel/src/mm/memory_set.rs:429-488 | the child owns exactly the parent's tracked pages, in frames free before, recorded by its areas, heap and mmap, with equal bytes; trampolines mapped; every frame live before is unchanged and the parent still valid; fails only when no frame is left |
| `Fork.FlagsKept` | kernel/src/mm/memory_set.rs:429-488 | a tracked page has the parent's flags in the child if and only if they are still those on record for its area, heap or mmap |
| `Fork.ProtectionKept` | kernel/src/mm/memory_set.rs:625-653 | after `mprotect` that holds if and only if the flags given are those on record |
| `Fork.ReadOnlyLost` | kernel/src/mm/memory_set.rs:452-486 | a heap page made read-only is writable in the child |
| `Program.FromElf` | kernel/src/mm/memory_set.rs:219-306 | trampolines and segments: every segment reads as its data, exactly their pages are owned, the space can be forked and dropped, nothing live before changes; fails only on a clash or without memory |
| `Program.SegmentsCopied` | kernel/src/mm/memory_set.rs:429-488 | a page-by-page copy has the same segments loaded |
| `Program.ForkProgram` | kernel/src/mm/memory_set.rs:429-488 | after forking a loaded program both child and parent have all segments loaded |
| `Ownership.OneOwner` | kernel/src/mm/memory_set.rs:52-67 | every frame recorded by page table, areas, heap or mmap is live and recorded exactly once |
| `Ownership.SomeOwner` | kernel/src/mm/memory_set.rs:52-67 | every table of the tree and every data frame a page translates to is recorded |
| `Ownership.ForkSharesNothing` | kernel/src/mm/memory_set.rs:429-488 | parent and child record no frame in common |
| `Ownership.Drop` | kernel/src/mm/frame_allocator.rs:34-40 | dropping tables, areas, heap and mmap finds every tracker's frame live and gives back exactly the frames of the space, so the unallocated count grows by tables plus pages |
| `UserBuffer.SlicesTranslate` | kernel/src/mm/page_table.rs:168-188 | the concatenated slices are address by address what `translate_va` gives for the part of the range in the lower half, then the part in the upper half |
| `UserBuffer.WholeRange` | kernel/src/mm/page_table.rs:168-188 | the whole range is collected if and only if it ends at or below 2^38 |
| `UserBuffer.ShortAtTop` | kernel/src/mm/page_table.rs:168-188 | two bytes at the last user address: one is collected |
| `UserBuffer.EndsExactly` | kernel/src/mm/page_table.rs:172-186 | from every start address the loop ends if and only if the range is empty, ends below 2^38, or has bit 38 of its end set |
| `UserBuffer.NoProgress` | kernel/src/mm/page_table.rs:172-186 | a family of ranges on which the loop stands still for ever |
| `UserBuffer.GatherTurn` | kernel/src/mm/page_table.rs:172-186 | one turn from any pointer continues as from its sign extension |
| `UserBuffer.TranslatedByteBuffer` | kernel/src/mm/page_table.rs:168-188 | for any pointer and mapped pages: the slices of the sign-extended pointer, or, when that is not below the end, one slice, failing if it is backwards; on every range on which the loop ends |
| `UserBuffer.Buffer.Len` | kernel/src/mm/page_table.rs:234-240 | the number of bytes behind the slices |
| `UserBuffer.Buffer.Write` | kernel/src/mm/page_table.rs:247-268 | the first min(len, buf.len()) addresses hold buf, every other byte of memory is unchanged |
| `UserBuffer.OwnedSlices` | kernel/src/mm/page_table.rs:168-188 | slices of an owned range are its bytes in order and never overlap |
| `UserBuffer.UserWrite` | kernel/src/mm/page_table.rs:247-268 | a write through the slices is a write to virtual memory: the data from ptr on, all other owned virtual bytes as before |
| `UserBuffer.WriteUser` | kernel/src/mm/page_table.rs:168-268 | translating a range and writing to the buffer, end to end: the virtual bytes from ptr on are the data, all other owned virtual bytes as before, no frame outside the written range changed, the space still valid |
| `UserStack.PushedStrings` | kernel/src/mm/memory_set.rs:695-715 | every pushed string is NUL-terminated at its recorded address and none overwrites another |
| `UserStack.PushedStacked` | kernel/src/mm/memory_set.rs:695-715 | the strings lie one below the other without a gap |
| `UserStack.StackInPlace` | kernel/src/mm/memory_set.rs:655-791 | strings, platform name, random bytes, auxiliary vector, pointer arrays and argc are all in place at the end: no later write overlaps an earlier region |
| `UserStack.RoundTrip` | kernel/src/syscall/process.rs:179-231 | reading at argv_base and envp_base recovers argv, and envp with the PATH entry; argc is returned and at the stack pointer; argc, both arrays and the auxiliary vector follow each other without a gap; nothing outside the stack changes |
| `UserStack.AuxRoundTrip` | kernel/src/mm/memory_set.rs:741-766 | the auxiliary vector reads back in order to AT_NULL; AT_RANDOM leads to the 16 bytes, given one by one, AT_EXECFN to argv[0] or null |
| `UserStack.ReadStrIs` | kernel/src/mm/page_table.rs:191-207 | reading a stored string stops at its NUL and gives the string |
| `UserStack.ReadArrayIs` | kernel/src/syscall/process.rs:179-190 | reading a null-terminated pointer array gives the strings in order |
| `StackBuilder.ShowsPut` | kernel/src/mm/page_table.rs:217-224 | a store through a translated address shows as the same store in the window of virtual bytes |
| `StackBuilder.Window.PushStack` | kernel/src/mm/memory_set.rs:695-715 | byte-wise pushing through the page table is the pushing of whole strings |
| `StackBuilder.Window.BuildStack` | kernel/src/mm/memory_set.rs:655-791 | the store-by-store construction through the page table gives the specified stack and addresses, and changes no frame outside the window |
| `StackBuilder.Window.TranslatedStr` | kernel/src/mm/page_table.rs:191-207 | the translated read loop gives the string up to the first NUL |
| `StackBuilder.Window.ReadPointers` | kernel/src/syscall/process.rs:179-190 | the argument loop gives the strings up to the null pointer; a null array gives none |
| `StackBuilder.BuiltAndRead` | kernel/src/mm/memory_set.rs:655-791 | a stack built through the page table and read back through it at the returned addresses gives argv, and envp with the PATH entry |
| `BlockCache.OomKeeps` | kernel/src/fs/cache.rs:91-106 | an eviction pass changes no block's logical content and never writes the sentinel id |
| `BlockCache.OomExactly` | kernel/src/fs/cache.rs:91-106 | a pass leaves pinned slots alone, lowers a priority by one, and frees a slot of priority 0 with its buffer on the device |
| `BlockCache.OomDevice` | kernel/src/fs/cache.rs:91-106 | no other block of the device changes |
| `BlockCache.RoomExactly` | kernel/src/fs/cache.rs:107-117 | a slot is found, after at most two passes, if and only if some slot is free or unpinned; otherwise a pass changes nothing |
| `BlockCache.TwoPassesSuffice` | kernel/src/fs/cache.rs:107-117 | one unpinned slot is enough |
| `BlockCache.RoomAtOnce` | kernel/src/fs/cache.rs:107-117 | nothing is evicted while a slot is free |
| `BlockCache.RoomKeepsPinned` | kernel/src/fs/cache.rs:91-117 | pinned slots are never evicted |
| `BlockCache.GetKeeps` | kernel/src/fs/cache.rs:152-170 | the slot handed out holds the block's logical content, and no logical content changes |
| `BlockCache.HitExactly` | kernel/src/fs/cache.rs:139-150 | a cached block is found, and no other slot and not the device changes |
| `BlockCache.MissExactly` | kernel/src/fs/cache.rs:152-170 | with a slot free, only that slot changes, to the device's block with one handle |
| `BlockCache.SecondChance` | kernel/src/fs/cache.rs:91-170 | a block just used is still cached after the next pass |
| `BlockCache.PinnedStays` | kernel/src/fs/cache.rs:91-170 | a held slot keeps block and content through every step but a write through its handle |
| `BlockCache.Transparent` | kernel/src/fs/cache.rs:91-170 | over any run the logical disk is what the same writes make of the bare device |
| `BlockCache.BlockCacheManager.Oom` | kernel/src/fs/cache.rs:91-106 | the in-place pass is the specified pass |
| `BlockCache.BlockCacheManager.AllocBufferCache` | kernel/src/fs/cache.rs:107-117 | the loop ends after at most two passes with a free slot |
| `BlockCache.BlockCacheManager.GetBlockCache` | kernel/src/fs/cache.rs:139-170 | returns a slot with the block's logical content and keeps the logical disk |
| `PageCache.ReadRun` | kernel/src/fs/cache.rs:246-286 | one multi-block read of consecutive ids is the per-block reads |
| `PageCache.GatherAt` | kernel/src/fs/cache.rs:246-286 | chunk i of gathered blocks is device block ids[i] |
| `PageCache.WriteRun` | kernel/src/fs/cache.rs:288-323 | one multi-block write of consecutive ids is the per-block writes |
| `PageCache.WriteThenGather` | kernel/src/fs/cache.rs:246-323 | writing to distinct blocks and gathering restores the bytes |
| `PageCache.FullPage` | kernel/src/fs/cache.rs:246-323 | with eight distinct ids write-back then read-in restores the page |
| `PageCache.Page.ReadIn` | kernel/src/fs/cache.rs:246-286 | coalesced reading puts block ids[i] in chunk i and zeros after the last |
| `PageCache.Page.WriteBack` | kernel/src/fs/cache.rs:288-323 | coalesced writing equals writing the chunks one at a time in order |
| `PageCacheManager.OomKeeps` | kernel/src/fs/cache.rs:374-405 | a pass keeps the file's content, and the list of allocated pages exact and duplicate-free |
| `PageCacheManager.OomExactly` | kernel/src/fs/cache.rs:374-405 | for every page: in use or mapped, untouched; unused with a priority, one less and the same bytes; unused at priority 0, gone and its content on its blocks |
| `PageCacheManager.OomDevice` | kernel/src/fs/cache.rs:374-405 | the blocks of a page that is not dropped stay as they are |
| `PageCacheManager.TwoPassesClear` | kernel/src/fs/cache.rs:374-405 | after two passes exactly the pages in use are left |
| `PageCacheManager.DroppedExactly` | kernel/src/fs/cache.rs:374-405 | the list gets shorter by the number of unused pages of priority 0 |
| `PageCacheManager.PassesDrop` | kernel/src/fs/directory_tree.rs:558-582 | while an unused page is cached, one of two passes drops some page, so the three rounds of the loop suffice |
| `PageCacheManager.OomKeepsUsed` | kernel/src/fs/cache.rs:374-405 | pages in use or mapped are never evicted |
| `PageCacheManager.SyncedKeeps` | kernel/src/fs/cache.rs:210-222 | writing a dirty page back stores it on its blocks and leaves other pages' blocks |
| `PageCacheManager.GetKeeps` | kernel/src/fs/cache.rs:341-372 | fetching keeps content and list |
| `PageCacheManager.GetExactly` | kernel/src/fs/cache.rs:341-372 | the page fetched keeps its bytes, or is read from its blocks, zero-filled and clean; it has one handle more; no other page and no block changes |
| `PageCacheManager.SecondChance` | kernel/src/fs/cache.rs:341-405 | a page just used survives the next pass |
| `PageCacheManager.ShrinkKeeps` | kernel/src/fs/cache.rs:407-422 | a new size keeps the content of the remaining pages and the list exact |
| `PageCacheManager.ShrinkExactly` | kernel/src/fs/cache.rs:407-422 | page i stays, as it is, if and only if i * 4096 is below the new size |
| `PageCacheManager.Transparent` | kernel/src/fs/cache.rs:341-422 | over any run every page reads as the last write to it |
| `PageCacheManager.Manager.ReadPage` | kernel/src/fs/cache.rs:341-372 | coalesced reading of the neighbour's blocks gives the page's content, zero-filled |
| `PageCacheManager.Manager.SyncPage` | kernel/src/fs/cache.rs:210-222 | coalesced writing stores a dirty page on its blocks and does nothing for a clean one |
| `PageCacheManager.Manager.GetCache` | kernel/src/fs/cache.rs:341-372 | the in-place fetch is the specified one and keeps the invariant |
| `PageCacheManager.Manager.Oom` | kernel/src/fs/cache.rs:374-405 | the in-place pass is the specified one; the number returned is the number of unused pages of priority 0 |
| `PageCacheManager.Manager.NotifyNewSize` | kernel/src/fs/cache.rs:407-422 | succeeds if and only if no page that begins at or past the new end is in use |
| `PllTable.NibbleIsMask` | dependency/k210-soc/src/sysctl/pll_compute.rs:144-150 | the arithmetic form of a factor is the four-bit mask |
| `PllTable.JoinedIsOr` | dependency/k210-soc/src/sysctl/pll_compute.rs:140-142 | the arithmetic form of a packed pair is shift-and-or |
| `PllTable.PackRoundTrip` | dependency/k210-soc/src/sysctl/pll_compute.rs:140-150 | unpacking recovers both factors, for all factors in 1..16 |
| `PllTable.EntryRoundTrip` | dependency/k210-soc/src/sysctl/pll_compute.rs:152-254 | the same for every entry of the table as written |
| `PllTable.FactorTableOk` | dependency/k210-soc/src/sysctl/pll_compute.rs:152-254 | factors in 1..16; products start at 1, never decrease and at most double plus one |
| `PllTable.FactorTableDense` | dependency/k210-soc/src/sysctl/pll_compute.rs:152-254 | the products 1 to 16 and their pairs as the slower search meets them: every small goal is a product |
| `Pll.NearestExactly` | dependency/k210-soc/src/sysctl/pll_compute.rs:257-261 | the result is the integer nearest to n / d, the larger of two, and no other integer is |
| `Pll.MultiplierRounds` | dependency/k210-soc/src/sysctl/pll_compute.rs:352-355 | the multiplier is p * ratio rounded to the nearest whole number, halves up, or 64 where that is more |
| `Pll.RoundsNearest` | dependency/k210-soc/src/sysctl/pll_compute.rs:352-355 | no multiplier up to 64 comes nearer |
| `Pll.ErrorIs` | dependency/k210-soc/src/sysctl/pll_compute.rs:462-466 | the error is the relative deviation of f * inv_ratio from r * od in units of 2^-16, rounded down |
| `Pll.GoalNearest` | dependency/k210-soc/src/sysctl/pll_compute.rs:357-360 | the goal is f * inv_ratio rounded to the nearest whole number, and the flag says whether it was rounded up |
| `Pll.KeepsNearer` | dependency/k210-soc/src/sysctl/pll_compute.rs:362-395 | of the last and the next product the one nearer to the unrounded goal is tried |
| `Pll.InSpecBoundsF` | dependency/k210-soc/src/sysctl/pll_compute.rs:407-426 | parameters within the limits have a multiplier of at most 131 |
| `Pll.GoalGrows` | dependency/k210-soc/src/sysctl/pll_compute.rs:357-360 | the goal strictly increases, so the slower search ends |
| `Pll.Enforce` | dependency/k210-soc/src/sysctl/pll_compute.rs:407-460 | the first pair in reading order that is within the limits is taken, each tried as it is and then turned round; if none is, every pair of the product that is held or still to read is outside them either way round |
| `Pll.SearchUp` | dependency/k210-soc/src/sysctl/pll_compute.rs:324-355 | for a faster output no table pair, either way round and within the limits, with its nearest multiplier beats the result, and none of a smaller product is as good |
| `Pll.SearchDown` | dependency/k210-soc/src/sysctl/pll_compute.rs:356-400 | for a slower output each multiplier 1, 2, ... gets the nearer of last and next product; no pair of that product the search reads, either way round and within the limits, beats the result, and none tried before is as good; it ends only with an exact candidate or a used-up table |
| `Pll.NothingWithinLimits` | dependency/k210-soc/src/sysctl/pll_compute.rs:324-460 | if the upward search finds nothing, no table pair with its nearest multiplier is within the limits |
| `PllSlower.SmallGoals` | dependency/k210-soc/src/sysctl/pll_compute.rs:356-400 | up to goal 16 the product chosen is the goal itself |
| `PllSlower.PassedExactly` | dependency/k210-soc/src/sysctl/pll_compute.rs:356-460 | a pair of the product chosen for a multiplier is rejected although it is within the limits if and only if the frequencies satisfy `Misses` and it is the other pair of product 16 |
| `PllSlower.MissesExactly` | dependency/k210-soc/src/sysctl/pll_compute.rs:356-460 | the search rejects a product with a pair within the limits if and only if the input frequency and the ratio satisfy `Misses`: goal 16, then goal 17 rounded up, the pair in hand outside the limits and the other within |
| `PllSlower.ProductCovered` | dependency/k210-soc/src/sysctl/pll_compute.rs:356-460 | for every multiplier no table pair at all of its product, either way round and within the limits, beats the result, unless it is the pair missed |
| `PllSlower.NothingFound` | dependency/k210-soc/src/sysctl/pll_compute.rs:356-460 | if the slower search finds nothing, every candidate is outside the limits either way round, and any pair of its product is so if and only if it is not the pair missed |
| `PllSlower.NoneBest` | dependency/k210-soc/src/sysctl/pll_compute.rs:356-460 | where multiplier 16 misses at 22.4 MHz, a result that meets the contract of the search can only be empty |
| `PllSlower.MissedMisses` | dependency/k210-soc/src/sysctl/pll_compute.rs:356-460 | 22.4 MHz to 21.4 MHz satisfies `Misses`, and the pair missed is (1, 16) |
| `PllSlower.MissedPair` | dependency/k210-soc/src/sysctl/pll_compute.rs:356-460 | for 22.4 MHz to 21.4 MHz the search returns nothing, although r = 1, f = 16, od = 16 is within the limits |
| `Pll.ComputeParams` | dependency/k210-soc/src/sysctl/pll_compute.rs:277-484 | terminates without overflow or division by zero for all inputs; any result has r and od in 1..16, the divided clock and VCO within limits, and an error no table pair (faster) or pair of a chosen product (slower), either way round, beats |
| `DirectoryTree.ParseDirPath` | kernel/src/fs/directory_tree.rs:142-159 | the fold is the normal form of the components |
| `DirectoryTree.NormalForm` | kernel/src/fs/directory_tree.rs:142-159 | some ".." then only names; unchanged if and only if already so |
| `DirectoryTree.NormalPreservesMeaning` | kernel/src/fs/directory_tree.rs:142-159 | where the raw walk succeeds the normal form reaches the same node; the raw walk succeeds if and only if the normal form of every prefix can be walked |
| `DirectoryTree.CancelledNameNeedNotExist` | kernel/src/fs/directory_tree.rs:142-159 | the converse fails at every node and for every name that cannot be entered: the raw walk errs, the normal form stays |
| `DirectoryTree.CancelledInEmptyRoot` | kernel/src/fs/directory_tree.rs:142-159 | for instance x/.. in an empty root directory |
| `DirectoryTree.WalkComponents` | kernel/src/fs/directory_tree.rs:202-228 | the result is reached by the nodes met, ".." going to the father and staying where there is none, names going to the entry; or it is the error of the first component that cannot be followed: ENOTDIR in a file, ENOENT in a directory |
| `DirectoryTree.CdPathMeaning` | kernel/src/fs/directory_tree.rs:229-237 | a path that begins with / is walked from the root, any other from the node, component by component, wherever that walk succeeds |
| `DirectoryTree.ChangeDir` | kernel/src/fs/directory_tree.rs:229-237 | the method has that result |
| `DirectoryTree.GetCwd` | kernel/src/fs/directory_tree.rs:118-138 | the loop over fathers gives the names from the root down |
| `DirectoryTree.CwdSplits` | kernel/src/fs/directory_tree.rs:118-138 | the printed path has the names from the root down as its parts; the root prints as / |
| `DirectoryTree.JoinSplit` | kernel/src/fs/directory_tree.rs:142-159 | the parts of any path hold no / and joined give the path |
| `DirectoryTree.SplitJoin` | kernel/src/fs/directory_tree.rs:118-159 | splitting a joined path gives the parts |
| `DirectoryTree.CwdRoundTrip` | kernel/src/fs/directory_tree.rs:229-237 | the path printed for a node leads back to it from anywhere |
| `Slip.TwoPassIsBytewise` | tools/kflash.py:750-755 | the two replaces escape every byte exactly once |
| `Slip.WireBytes` | tools/kflash.py:750-755 | 0xC0 around every frame, 0xDB 0xDC for a 0xC0 inside, 0xDB 0xDD for a 0xDB |
| `Slip.EscapedHasNoEnd` | tools/kflash.py:750-755 | an encoded body contains no 0xC0 |
| `Slip.RoundTrip` | tools/kflash.py:415-448 | decoding encoded packets yields exactly them, in order |
| `Slip.Accepted` | tools/kflash.py:415-448 | a stream that leaves the reader between packets is the encoding of what it yielded |
| `Slip.DecodesExactly` | tools/kflash.py:415-448 | yields exactly these packets if and only if the stream is their encoding |
| `Slip.SlipReader` | tools/kflash.py:415-448 | the same for every split of the stream into non-empty chunks |

## Left out

- Queue sizes above 32: the rings have 32 entries; `SlotInRing` gives the exact condition and the state machine requires it.
- Descriptor addresses are given numbers; of DMA allocation only success or failure is modelled, not the layout; memory barriers and the MMIO header are not modelled.
- TranslatedByteBuffer: nothing is promised for ranges on which the loop never ends (`EndsExactly` gives them), for unmapped pages, which the source reads through stale entries, and for a pointer plus length that overflows the machine word.
- `UserBuffer::write_at`, its iterator and `delete_pte_flags`.
- `munmap`, `mmap`, `map_heap`, ELF parsing, the interpreter, kernel space construction and identity-mapped areas; areas in `AddressSpace` and `Fork` are framed, and an area is a value held in the space's list. The `mmap_end` and heap bounds that fork copies are plain numbers and not modelled.
- `Ceil`: address 0 follows release-build wrapping arithmetic.
- Strings are seven-bit text without NUL, where bytes and characters agree; the stack must fit the mapped window.
- Segments of execve other than the argument loops: the skip list of program names, the shell rewrite and the loader.
- The frame allocator of the K210 board with its out-of-memory handler, and `frame_reserve`.
- Hardware access and dirty bits: a page is dirty once written through its handle; TLB flushes are not modelled.
- Locking and try-lock paths of the caches; a handle held is a pin count.
- FAT32, lazy directory loading, `PATH_CACHE`, `rename`, `open`, `mkdir` and `delete`: the tree is given, with every listing loaded.
- `FdTable`, pipes, signals, futexes, scheduling and the syscall wrappers: mostly easy members.
- The bound f <= 64 for slower outputs, which the search does not keep, and equality with the brute-force test helper. The one loop of `compute_params` is two methods, one per direction.
- `recv_one_return` and the AES tables of kflash.
