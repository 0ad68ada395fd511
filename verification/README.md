# tach, verified

A Dafny model of the stateful core of tach, a small operating system kernel with its
own user space, and proofs of what that core promises. The model keeps the form of the
program: tables, lists and caches that the kernel changes in place are classes with
fields, loops stay loops, and calls into hardware, drivers and other subsystems are
oracles that may fail at any call.

`dafny verify dfyconfig.toml` checks all of it.

## What is proved

- **Memory** (`Pmm`, `Cow`, `Vmm`, `Forking`). Fork shares pages, the first write splits
  them, frames are counted. Over every run of forks, faults, copies, stores, mappings and
  destructions, with any failure at any step, every address space reads what it would
  read on a machine where fork copies all private pages, operation by operation; counts
  are exact, and a fork that fails leaves every mapping and every count as it was. Every
  failure has its reason, and a page that a fault, an allocation or a mapping opened to
  user code stays open until it is released or its space is forked or destroyed.
- **Block cache** (`Links`, `Flat`, `Cache`, `Traffic`, `Pinning`). Hash chains, a recency
  list, pins and dirty marks in front of disks with nested partitions are a flat disk:
  last write wins, whatever is evicted, held, flushed or fails. No failure of a driver is
  passed over, and after every flush that succeeds the disk holds every byte.
- **Page tables** (`Radix`, `Visits`, `Paging`, `Leaks`). Four levels of tables with 2 MiB
  pages are a map from pages to frames; mapping, splitting, cloning and destroying do to
  that map what they should and nothing else.
- **FAT32 files** (`Fat`, `Bytes`, `Volume`, `Files`). Cluster chains stay apart and the
  free count right; files read as byte arrays over every run, with every result fixed by
  the room on the volume unless the block layer fails; no cluster is lost then, and new
  clusters hold nothing but zeros and the bytes written. A call during which the block
  layer failed never reports a complete success, and a truncation that stops anywhere
  loses clusters at worst.
- **FAT32 directories** (`Unicode`, `Names`, `Listing`, `Placement`, `Entries`, `Rooms`,
  `Directory`, `Catalog`, `Vanishing`). Names are read back byte for byte, edits do to the
  listing exactly what they say, and in a directory that this driver made, no name, long or
  short, in any case, is ever answered by two entries.
- **Pipes and descriptors** (`Pipes`, `Streams`). Over every interleaving of all
  processes readers get what writers put, in order, and the end of the file is the end.
- **Timers and watchdog** (`Timers`, `Watchdogs`). A tick fires the due timers in their
  order and ends, whatever the callbacks arm and stop; who feeds in time is never killed,
  who does not is killed by the next tick, and nobody is restarted beyond the budget.
- **Kernel and user heap** (`Tiling`, `Blocks`, `Heap`, `Brk`) and **paths** (`Paths`).
  Over every run of either heap blocks in use keep apart and keep their bytes, and the
  in-place normaliser is a walk over components.
- **Matching, sorting and numbers** (`Patterns`, `Glob`, `Regex`, `Sorting`, `TextLines`,
  `SortLines`, `Powers`, `Division`, `Numbers`). The two matchers decide exactly the languages of their
  patterns, sort prints the one stable arrangement, and printing and parsing undo each
  other.

Six promises turned out not to hold as one would first state them.

- Splitting a 2 MiB page keeps every translation if and only if the page is absent or
  bits 12 to 20 of its entry are clear (`Radix.SplitKeeps`, with a case that fails in
  `Radix.SplitMoves`): bit 12 of a large page is a memory-type bit, and the code adds it
  into the frame number.
- A watchdog handle of an old registration matches again whenever its slot was
  registered a multiple of 2^24 - 1 times since (`Watchdogs.StaleHandle`, with a case in
  `Watchdogs.HandleComesBack`); `include/kernel/watchdog.h` says it never does.
- A rename that fails takes an entry away if and only if nothing hinders it, the new name
  is in use, and with the slots of that entry freed the directory has no run of the slots
  the new name needs and cannot get one (`Catalog.Rename`, `Catalog.LosesWithoutRoom`).
  The new name may be another case of the old one, and then the file itself is gone
  (`Vanishing.CaseChangeLoses`).
- A page-table clone that fails gives everything back if and only if all tables visited
  so far lie on one branch (`Visits.NothingLost`); otherwise the frames of every completed
  subtree stay taken (`Paging.PageTables.CreateRoot`, with a case in `Leaks.LeakingClone`).
- A page mapped executable can be executed if and only if no table entry on its way had
  the no-execute bit before (`Paging.PageTables.Map`): mapping adds the flags of a table
  and clears none (`Leaks.NeverRuns`).
- A usable memory region frees exactly the frames inside it if and only if it does not
  start in the last page of the address space (`Pmm.RoundingWraps`): there the rounding
  wraps around and every frame is freed.

A word on the shape of the contracts. `Valid()` of a class is its whole invariant.
Methods that the program runs on shared state promise `Valid()`, the new abstract state
as a function of the old one, and what did not change. Ghost results such as logs, traces
and sets of items lost and gained are what the theorems about whole runs speak of. An
oracle is a function from the number of a call to its answer, so a theorem for all
oracles covers every pattern of failures.

## Model

| member | source | states |
|---|---|---|
| `Pmm.FrameAllocator.SetUsed` | src/mm/pmm.c:32-41 | The bit is set, a frame without a count gets one, and the free total still equals the number of clear bits. |
| `Pmm.FrameAllocator.SetFree` | src/mm/pmm.c:43-50 | The bit and the count are cleared, and the free total still equals the number of clear bits. |
| `Pmm.FrameAllocator.MarkRegion` | src/mm/pmm.c:64-88 | Exactly the frames of a region become free or used; the free total and the counts follow. |
| `Pmm.FrameAllocator.Reset` | src/mm/pmm.c:90-111 | Everything reserved and uncounted, with the limit past every region. |
| `Pmm.FrameAllocator.FreeAll` | src/mm/pmm.c:113-118 | After the first pass a frame is clear exactly if some usable region contains all of it. |
| `Pmm.FrameAllocator.ReserveAll` | src/mm/pmm.c:119-136 | After the second pass a frame is set exactly if it was set or a region that may not be used touches it. |
| `Pmm.FrameAllocator.Init` | src/mm/pmm.c:90-138 | A frame is allocatable exactly if a usable region contains all of it, no other region touches it and no fixed reservation covers it; both totals agree. |
| `Pmm.RoundingMeans` | src/mm/pmm.c:52-88 | The frames a usable region frees are those wholly inside it, and those another region reserves are the ones it touches, unless a usable region starts in the last page of the address space; a region of size zero inside a frame reserves that frame. |
| `Pmm.RoundingWraps` | src/mm/pmm.c:52-73 | A usable region frees exactly the frames inside it if and only if it does not start in the last page of the address space; if it does, it frees every frame. |
| `Pmm.FrameAllocator.Alloc` | src/mm/pmm.c:140-157 | 0 exactly if nothing is free; otherwise a frame that was free, counted once, and nothing else changed, wherever the search started. |
| `Pmm.FrameAllocator.Retain` | src/mm/pmm.c:159-169 | Succeeds exactly for an aligned frame in use whose count is not saturated; then only that count grows. |
| `Pmm.FrameAllocator.Free` | src/mm/pmm.c:171-187 | Drops one reference; the last one makes the frame free; anything else changes nothing. |
| `Pmm.FrameAllocator.RefCount` | src/mm/pmm.c:189-197 | The count of an aligned frame inside the limit, else 0. |
| `Pmm.FrameAllocator.AllocAligned` | src/mm/pmm.c:207-237 | The lowest aligned run of clear frames, all of them now counted once; 0, with no change, exactly if there is none or the request is empty. |
| `Pmm.AndIsMod` | src/mm/pmm.c:214-217 | The mask test of the search is divisibility, for every power of two. |
| `Pmm.FrameAllocator.TakeRun` | src/mm/pmm.c:222-226 | Claims a run of clear frames one by one. |
| `Pmm.OccupiedAt` | src/mm/pmm.c:222-229 | Claiming a run takes exactly its frames and counts each once. |
| `Vmm.AddressSpaces.FindMapping` | src/mm/vmm.c:50-62 | The mapping of the page of an address, or none exactly if the space is unused or has no such page. |
| `Vmm.AddressSpaces.CreateContext` | src/mm/vmm.c:80-100 | The first unused slot becomes an empty space; none exactly if all are used or the page-table code fails, and then nothing changes. |
| `Vmm.AddressSpaces.CloneContext` | src/mm/vmm.c:102-149 | Either the child sees exactly what the parent sees, with hardware entries that are what its mappings say, and the entries of shared memory stay in the parent; or no mapping, no count and no space has changed, and the hardware lets user code write every page it could write unless the page-table code refused a request. All other spaces are the same, entry by entry. It fails only if no slot is free, the page-table code refuses a request, or one more reference for each page of the parent is more than some count can hold. |
| `Vmm.AddressSpaces.Populate` | src/mm/vmm.c:113-149 | The child gets every page of the parent, shared, with exact hardware entries; or the parent has its permissions and the frames their counts back, hardware entries included unless a request was refused, and the reason is the page-table code or a full count. |
| `Vmm.AddressSpaces.ShareAll` | src/mm/vmm.c:112-135 | The sharing loop: a prefix of the parent's pages is shared read-only and counted twice, all of them unless a step failed. |
| `Vmm.AddressSpaces.ShareOne` | src/mm/vmm.c:113-134 | One page: protected in the parent, counted once more, mapped in the child; a failure leaves the half-done fork in order. |
| `Vmm.AddressSpaces.RollBack` | src/mm/vmm.c:139-148 | The failure path restores the flags of every parent mapping, its hardware entry if the page-table code takes it, and every count, and the child is gone. |
| `Vmm.AddressSpaces.BreakCow` | src/mm/vmm.c:151-180 | The result in every case: -EACCES for a page that is not an owned copy-on-write page, -ENOMEM exactly if somebody else uses the frame and none is free, otherwise the answer of the page-table code. After a success the hardware lets the page be written and its frame has no other reference; no space sees any change, no other hardware entry changes, and a failure changes nothing, not even counts. |
| `Vmm.BreakIs` | src/mm/vmm.c:151-180 | What the flags of a mapping and the count of its frame decide about that result. |
| `Vmm.AddressSpaces.Split` | src/mm/vmm.c:165-179 | A shared page moves to a private copy and the shared frame loses one reference. |
| `Vmm.AddressSpaces.DestroyContext` | src/mm/vmm.c:182-197 | Refused while some processor runs in the space; otherwise every owned frame loses exactly one reference. |
| `Vmm.AddressSpaces.Destroy` | src/mm/vmm.c:182-197 | The space disappears and every other space sees what it saw. |
| `Vmm.AddressSpaces.Map` | src/mm/vmm.c:211-240 | For a page not yet mapped: the result in every case, -EINVAL, -ENOSPC or what the page-table code answers; on success one more mapping and a hardware entry with exactly the frame and flags asked for; no other hardware entry changes. |
| `Vmm.AddressSpaces.MapForeign` | src/mm/vmm.c:211-240 | A frame that belongs to somebody else shows at a page where there was none, and its hardware entry grants exactly what was asked; the result is fixed by the address, the space, its table of mappings and the answer of the page-table code. |
| `Vmm.AddressSpaces.MapAllocated` | src/mm/vmm.c:242-263 | A zeroed page that is the only user of its frame, with a hardware entry that grants exactly what was asked, or no change at all, not even in the counts; -ENOMEM exactly without a free frame, and otherwise the result is fixed by the address, the space, its table of mappings and the answer of the page-table code. |
| `Vmm.AddressSpaces.Unmap` | src/mm/vmm.c:265-290 | A zero or misaligned address is refused; a page that is there leaves this space only, with 0, and its frame loses one reference; for a page that is not there the page-table code answers 0 or -ENOENT and nothing changes. |
| `Vmm.AddressSpaces.SwitchContext` | src/mm/vmm.c:199-209 | The CPU loads the space it is given, the kernel's own if none; one that does not exist is not loaded. |
| `Vmm.AddressSpaces.HandleFault` | src/mm/vmm.c:396-422 | Refused without a user process. A page that is there satisfies a read; a write to it is refused with -EACCES exactly if the page may not be written, and otherwise fails only without a free frame or by the page-table code. A missing page appears, zeroed, exactly where the stack or heap of the process may have it, unless a frame or a mapping is wanting or the page-table code refuses; the stack bottom follows. Served, a missing or split page is open for writing in the hardware and need not be split again; no other hardware entry changes, no page closes, and a failure changes nothing. |
| `Vmm.AddressSpaces.Demand` | src/mm/vmm.c:396-422 | A fault on a missing page: exactly the next stack page or a heap page appears, open for writing, and -EFAULT for any other; a page the process may have is refused only without a free frame or a free mapping, or by the page-table code. |
| `Vmm.AddressSpaces.CopyToUser` | src/mm/vmm.c:339-380 | The bytes land in order in the target space only; success exactly if all of them did, a failure leaves a prefix and has its reason at the first byte not stored: its page may not be written or cannot be had, no frame is free, or the page-table code refused. Pages appear only for the next byte and where the process may have them, and no page closes. |
| `Vmm.AddressSpaces.CopyFromUser` | src/mm/vmm.c:339-375 | Succeeds exactly if every byte of the range can be seen, and then returns exactly the bytes the space holds; it fails only if some page of the range may not be seen or cannot be had, no frame is free, or the page-table code refused; pages appear only in the range. |
| `Vmm.RangeIsUser` | src/kernel/userptr.c:10-32 | A range that is not empty is valid if and only if every byte of it is user memory. |
| `Vmm.StackBounded` | src/mm/vmm.c:408-416 | A stack within its largest size stays within it, and grows by the one page below it. |
| `Forking.Do` | src/mm/vmm.c:80-422 | Each operation takes exactly the steps it should on a machine where fork copies every private page: a fork copies the source it names into a slot that was unused, a store writes the byte it was given exactly if the hardware entry allows it, a copy stores consecutive slices of its data, a fault, an allocation or a mapping of device memory brings only the page it was for, a loaded space is not destroyed, and the result says which happened. Every failure has its reason: a page that may not be written or had, want of a slot, a frame, a mapping or a count, or the page-table code. The hardware entry of a new or split page lets user code write exactly if that was asked, no other entry changes, and after a fork the child may write exactly its shared memory at once. |
| `Forking.Run` | src/mm/vmm.c:80-422 | Any sequence of operations with any pattern of failures, on several CPUs that load and leave spaces, is a run of that machine, operation by operation, with results and bytes read; counts, flags and tables keep the invariant. |
| `Forking.RunIsolation` | src/mm/vmm.c:102-180 | A private page that no operation names for writing or removal is the same page, bytes and permissions, after any stretch of a run. |
| `Forking.OpenKept` | src/mm/vmm.c:151-263 | A page that user code may write stays one, over any stretch of a run, until it is released, or its space is forked or destroyed. |
| `Forking.ThenWritable` | src/mm/vmm.c:151-422 | After an allocation or mapping that asked for it, or a fault on a missing or copy-on-write page that was served, every store of user code to the page succeeds until the page is released or its space is forked or destroyed. |
| `Forking.ForkCopies` | src/mm/vmm.c:102-149 | After a fork the child has every page of the parent, and each side keeps every private page until it is itself asked to change it, whatever the other side does. |
| `Forking.ByteKept` | src/mm/vmm.c:151-180 | A byte of a private page changes only through an operation that may change that byte. |
| `Forking.ReadsBack` | src/mm/vmm.c:339-380 | Reading a range after copying to it returns the bytes copied, over any run in between that may not change one of them. |
| `Cow.Isolation` | src/mm/vmm.c:102-180 | Whatever all spaces do, a private page changes only through a store of its own space, until it is unmapped. |
| `Cow.StoreRefines` | src/mm/vmm.c:151-180 | Writing a frame through a mapping that may write does to all spaces what one store does in the copying machine. |
| `Cow.SharedIsReadOnly` | src/mm/vmm.c:112-135 | A frame with two owned mappings is writable through neither, and a frame some mapping owns is never free. |
| `Cow.RetainRelease` | src/mm/vmm.c:123-148 | Taking references and dropping them again leaves the allocator as it was. |
| `Cow.ContiguousEffect` | src/mm/vmm.c:339-370 | A copy to user memory changes exactly the byte range it names, byte for byte. |
| `Vmm.Forked` | src/mm/vmm.c:112-137 | When all pages are shared, the child has the pages the parent had before. |
| `Cache.RootOf` | src/drivers/block/blk.c:27-36 | The climb ends at the physical disk with the sum of all partition offsets. |
| `Cache.RangeIs` | src/drivers/block/blk.c:38-40 | A request is in range if and only if it names a sector and only sectors of the device. |
| `Cache.Lru.constructor` | src/drivers/block/blk.c:161-173 | Every buffer of the pool is listed once. |
| `Cache.Lru.Remove` | src/drivers/block/blk.c:66-72 | The doubly linked list loses exactly one node; all others keep their order. |
| `Cache.Lru.PushFront` | src/drivers/block/blk.c:74-80 | One node more, in front. |
| `Cache.Lru.Touch` | src/drivers/block/blk.c:82-86 | The node goes to the front, all others keep their order. |
| `Cache.Index.Remove` | src/drivers/block/blk.c:88-99 | The chain of the bucket loses exactly this buffer, no other chain changes. |
| `Cache.Index.Insert` | src/drivers/block/blk.c:130-157 | The chain of the bucket gains exactly this buffer. |
| `Cache.BlockCache.Lookup` | src/drivers/block/blk.c:101-106 | The buffer of a sector, or none exactly if the sector is not cached. |
| `Cache.BlockCache.WriteBack` | src/drivers/block/blk.c:108-113 | The disk gets the sector; or the attempt fails, with -EROFS for a disk that cannot be written and otherwise with the answer of the driver, and may spoil that sector on the disk; nobody reading through the cache can tell. |
| `Cache.BlockCache.TakeVictim` | src/drivers/block/blk.c:116-127 | The least recently used buffer that nobody holds, written back if dirty and emptied, with the view unchanged; -EBUSY only if all are held, -EROFS only if a dirty buffer is in the way whose disk cannot be written, otherwise the answer of a failing driver; a success only if the driver failed nothing. |
| `Cache.BlockCache.GetBuf` | src/drivers/block/blk.c:130-157 | The buffer of a sector, pinned once more; pinned buffers keep sector and content; reading leaves the view, a fresh buffer shows what it was filled with; no failure of the driver is passed over. |
| `Cache.BlockCache.Read` | src/drivers/block/blk.c:298-332 | A successful read returns the view of the range, through any nesting of partitions; a bad range is refused with -EINVAL, and otherwise it fails, with the answer of the driver, if and only if the driver does. |
| `Cache.BlockCache.ReadSome` | src/drivers/block/blk.c:312-329 | One turn of the read loop: a cached sector, or a run of uncached ones in one driver call, both as the view has them. |
| `Cache.BlockCache.Write` | src/drivers/block/blk.c:334-363 | Exactly the range changes and a failure leaves a prefix; every pinned buffer still stands for its sector; -EINVAL for a bad range, -EROFS for a read-only device, and otherwise it fails if the driver does and only then or if no buffer can be emptied. |
| `Cache.BlockCache.Flush` | src/drivers/block/blk.c:237-250 | The view does not move; after a success the disks are the view, sector by sector; it fails if and only if the driver does, with its answer, or a dirty buffer of that disk cannot be written, with -EROFS. |
| `Cache.BlockCache.Acquire` | src/drivers/block/blk.c:389-415 | bread and bnew: the sector pinned once more with its content, or zeroed and marked dirty; every other pinned buffer keeps sector and content; -EINVAL for a bad range, -EROFS for a new buffer of a read-only device, and otherwise it fails if the driver does and only then or if no buffer can be emptied. |
| `Cache.BlockCache.Modify` | src/drivers/block/blk.c:417-422 | Changing a pinned buffer and marking it changes exactly its sector in the view. |
| `Cache.BlockCache.Release` | src/drivers/block/blk.c:424-429 | One pin less, never below none; the view stays. |
| `Cache.BlockCache.ReadBytes` | src/drivers/block/blk.c:433-453 | The bytes of the view at any alignment, through any partition; -EINVAL beyond the end of the device, and no failure of the driver is passed over. |
| `Cache.BlockCache.WriteBytes` | src/drivers/block/blk.c:455-480 | Exactly the byte range changes in the view; a failure leaves a prefix of it; -EINVAL beyond the end of the device, -EROFS for a read-only one, and no failure of the driver is passed over. |
| `Flat.Evict` | src/drivers/block/blk.c:116-127 | Dropping a clean unpinned buffer is invisible. |
| `Flat.DiskWrite` | src/drivers/block/blk.c:108-113 | Whatever reaches the disk under a cached sector, the view is the copy. |
| `Flat.AllClean` | src/drivers/block/blk.c:237-250 | With no dirty buffer left, the disk is the view. |
| `Flat.PutAllAt` | src/drivers/block/blk.c:334-363 | A sector write changes exactly its range of exactly its disk. |
| `Traffic.Run` | src/drivers/block/blk.c:298-480 | Any sequence of calls through any partitions, with any driver failures, is a run of a flat disk; after every successful flush, wherever it stands in the run, the disk holds every byte of it. A request at fault is told so, a call during which the driver failed does not succeed, and every other failure tells its reason: the answer of the driver, or buffers none of which can be emptied. |
| `Traffic.Untouched` | src/drivers/block/blk.c:298-480 | A byte that no call of a stretch of the run covers does not move. |
| `Traffic.LastWriteWins` | src/drivers/block/blk.c:298-480 | A successful read returns for each byte what the last call covering it wrote, whichever partition either went through. |
| `Pinning.Run` | src/drivers/block/blk.c:298-480 | Transfers, flushes, bread, bnew, stores into held buffers and brelse in any order, with buffers held across calls: still a run of a flat disk, every held buffer stands for its sector, after every successful flush the disk holds every byte; a call during which the driver failed does not succeed, and every failure tells its reason in the request, the driver or the buffers. |
| `Pinning.Untouched` | src/drivers/block/blk.c:389-429 | A sector that nothing puts anything into does not move. |
| `Pinning.StoreShows` | src/drivers/block/blk.c:389-429 | What was stored into a held buffer is what any buffer held for that sector shows later, even if the first was released and evicted, until something is put there again. |
| `Paging.PageTables.AllocateTable` | src/arch/x86_64/paging.c:17-25 | A zeroed frame nobody used, or none and no change. |
| `Paging.PageTables.CloneLevel` | src/arch/x86_64/paging.c:36-58 | A subtree of fresh tables under which every page translates as under the old one, one frame per table in the order of the visit; it fails exactly at the first request that is refused, old tables keep their contents, and the frames still taken are those of the tables visited before that are not above the refused one. Every entry of a copy has all flags of the entry it copies and leads to the copy of its table. |
| `Paging.PageTables.CloneChild` | src/arch/x86_64/paging.c:48-55 | One entry that leads to a table: its copy is attached under the same flags, or the table being filled goes back and the loss is that of the child and the entries before. |
| `Visits.VisitForward` | src/arch/x86_64/paging.c:36-58 | No table is visited after one behind it, and none twice. |
| `Visits.VisitHas` | src/arch/x86_64/paging.c:36-58 | Every table of the subtree is visited. |
| `Visits.NothingLost` | src/arch/x86_64/paging.c:36-58 | A failed clone loses nothing if and only if every table visited, up to the one without a frame, is the first behind the one before it. |
| `Visits.FirstRefusal` | src/arch/x86_64/paging.c:36-58 | The request at which a clone fails is determined by the answers of the frame allocator. |
| `Leaks.LeakingClone` | src/arch/x86_64/paging.c:36-58 | A root with two tables behind it and an allocator with two frames: no root is made and one frame stays taken. |
| `Leaks.NeverRuns` | src/arch/x86_64/paging.c:126-170 | A root whose first entry has the no-execute bit is in order, and no page behind it can be made executable by mapping it. |
| `Paging.PageTables.Abandon` | src/arch/x86_64/paging.c:50-53 | The destination of a failed clone goes back, and only it. |
| `Paging.PageTables.DestroyLevel` | src/arch/x86_64/paging.c:60-74 | Each table at or below a position is freed exactly once, no other frame is. |
| `Paging.PageTables.Split` | src/arch/x86_64/paging.c:76-92 | Nothing moves outside the 2 MiB page; inside it every page keeps its translation if its entry was aligned or absent, and every page moves otherwise; on a lack of memory nothing changes. |
| `Radix.SplitKeeps` | src/arch/x86_64/paging.c:82-87 | The 512 new entries translate like the large page, memory type included, if and only if the page was absent or bits 12 to 20 of its entry were clear. |
| `Radix.SplitMoves` | src/arch/x86_64/paging.c:82-87 | A present large page with bit 12 of its entry set: its first page moves. |
| `Radix.SplitWord` | src/arch/x86_64/paging.c:82-87 | As 64-bit words the new entries are the old one without its size flag, one page more each time, carries included. |
| `Paging.PageTables.Enter` | src/arch/x86_64/paging.c:136-142 | One level down: the entry lets readers and writers through as asked and forbids execution exactly if it did before, no page moves, no other table changes, and a new table is empty. |
| `Paging.PageTables.Reach` | src/arch/x86_64/paging.c:136-153 | The first two levels move no page; -ENOTSUP exactly if the page lies in a 1 GiB page. |
| `Paging.PageTables.ReachTable` | src/arch/x86_64/paging.c:154-165 | The third level: a split, a new table or new flags; nothing moves outside the region, and inside exactly if a misaligned 2 MiB page was split. |
| `Paging.PageTables.Map` | src/arch/x86_64/paging.c:126-170 | The page translates to the frame, writable, open to users, uncached and marked executable exactly as asked, and no upper level takes reading or writing away; it can be executed if and only if that was asked and no table entry on its way had the no-execute bit before. On success every other page keeps its translation if and only if no misaligned 2 MiB page had to be split, and outside that page in any case; on failure every page keeps its translation. The entries on the way gain what was asked for and nothing else, no other entry changes, and a failure widens at most those already passed. |
| `Paging.PageTables.Unmap` | src/arch/x86_64/paging.c:172-186 | The page has no translation, every other page keeps its own; -ENOENT exactly if there is no page table. |
| `Paging.PageTables.CreateRoot` | src/arch/x86_64/paging.c:111-113 | A new root mirrors the kernel root: every page has the same translation, every entry the same flags, and a page can be executed under it exactly if it can under the kernel root, on tables nobody used, exactly if the allocator grants one frame per table; a failure leaves every old table as it was, and the frames still taken are exactly those the failed clone lost. |
| `Paging.MirrorOpens` | src/arch/x86_64/paging.c:36-58 | Behind trees that agree entry by entry but for the frames of the tables, the same pages can be executed. |
| `Paging.PageTables.DestroyRoot` | src/arch/x86_64/paging.c:115-119 | All tables of the tree come back and no others; null and the kernel root are left alone. |
| `Radix.SamePath` | src/arch/x86_64/paging.c:129-132 | Two addresses have the same four indices exactly if they lie in the same page of the 48-bit space. |
| `Radix.Swap` | src/arch/x86_64/paging.c:126-170 | Rewriting one entry of a tree of tables matters only to the pages below it. |
| `Volume.Disk.FatNext` | src/fs/fat32.c:253-264 | The next cluster, the end of the chain, or an error if and only if the table or the block layer gives one. |
| `Volume.Disk.FatSet` | src/fs/fat32.c:320-328 | One entry of the table changes, or none. |
| `Volume.Disk.CountFree` | src/fs/fat32.c:269-284 | Counts the zero entries, sector by sector. |
| `Volume.Disk.FreeClusters` | src/fs/fat32.c:286-300 | The number of free clusters, counted if it was unknown. |
| `Volume.Disk.ClusterAlloc` | src/fs/fat32.c:335-396 | The first free cluster from the hint on, around the volume; -ENOSPC only if no cluster is free; the free count stays right. |
| `Volume.Disk.FreeChain` | src/fs/fat32.c:402-437 | A prefix of the chain becomes free, all of it unless the block layer failed; the free count stays right; it succeeds if and only if the block layer did not fail. |
| `Volume.Disk.ClusterZero` | src/fs/fat32.c:440-449 | Only this cluster changes, and after a success it is all zeros; it fails if and only if the block layer does. |
| `Volume.Disk.Grow` | src/fs/fat32.c:906-919 | One formerly free cluster more at the end of the chain, all zeros if that was asked; a failure leaves the chain, and everything if the block layer works; no cluster is lost then. |
| `Fat.OneChain` | src/fs/fat32.c:253-264 | Following the entries from a first cluster spells exactly one chain. |
| `Fat.ChainCut` | src/fs/fat32.c:1166-1172 | Ending a chain early leaves two chains: what was kept and the tail. |
| `Fat.StillApart` | src/fs/fat32.c:906-919 | An operation that takes only free clusters and minds its frame keeps all chains of the volume apart. |
| `Fat.ReachableInUse` | src/fs/fat32.c:402-437 | No cluster of any file is free. |
| `Volume.Disk.Seek` | src/fs/fat32.c:938-970 | From the cached place or the start, the chain reaches the cluster of the offset, extended as needed; every new cluster is all zeros, except one that the write is going to cover. |
| `Volume.Disk.Enter` | src/fs/fat32.c:938-957 | The start of the walk: the cached place if it is not behind the offset, else the first cluster, a new one if there is none. |
| `Volume.Disk.PutRun` | src/fs/fat32.c:972-1029 | The bytes go into the chain chunk by chunk, as far as they get, and new clusters hold nothing but those bytes and zeros; only a failing block layer may leave whole sectors more written. |
| `Volume.Disk.PutPiece` | src/fs/fat32.c:973-1004 | One chunk inside a cluster: all of it, or, if the block layer fails, some of its whole sectors but never all and nothing of a part of a sector. |
| `Volume.Disk.FilePut` | src/fs/fat32.c:926-1029 | One byte range of one file is written, all other files keep their bytes; short only for want of room or a failing block layer, which may leave whole sectors more written. With one that works the clusters gained hold nothing but the bytes written and zeros: no old data of the disk shows up. |
| `Volume.Disk.Put` | src/fs/fat32.c:891-902 | The file is overwritten and its size follows the bytes counted; with a block layer that works, all of them if its own clusters and the free ones can hold them, else exactly as many as they can, and no cluster is lost; what a failing one wrote beyond those shows only inside the old size. The clusters gained then hold nothing but the bytes put and zeros. |
| `Volume.Disk.Write` | src/fs/fat32.c:1032-1068 | The file becomes itself, zeros up to the offset, then the bytes written, and the count is returned; with a block layer that works the count, the zeros and the clusters taken are determined by the limits and the room on the volume before the call, with -ENOSPC and -EFBIG exactly then; only a failing one may leave more of the file overwritten than the count says. A write that returns all of its count met no failure. |
| `Volume.Disk.WriteFitting` | src/fs/fat32.c:1051-1068 | The part behind the checks: first the hole, then the bytes, both as far as there is room. |
| `Volume.PutExact` | src/fs/fat32.c:926-1029 | From cluster chains to numbers: a put stops short exactly if the clusters of the file and the free ones together end there. |
| `Volume.Disk.Fill` | src/fs/fat32.c:1051-1060 | The hole of a write beyond the end is zeros. |
| `Volume.Disk.Read` | src/fs/fat32.c:710-790 | The bytes of the file from the offset; -EISDIR for a directory, 0 exactly if there is nothing to read, and fewer than were asked for and exist if and only if the block layer failed; reading changes no file. |
| `Volume.Disk.ReadRun` | src/fs/fat32.c:745-789 | The read loop returns the bytes of the chain in order. |
| `Volume.Disk.Sync` | src/fs/fat32.c:836-887 | Size and first cluster reach the directory entry, or the node stays marked, which is so if and only if the block layer failed. |
| `Volume.Disk.SyncFile` | src/fs/fat32.c:836-887 | The same on a volume in order: no file reads differently, and after a success the entry gives first cluster and size of the file; it fails only if the block layer does. |
| `Volume.Disk.Truncate` | src/fs/fat32.c:1070-1173 | The file becomes a prefix of itself or itself and zeros; every other file is untouched, at every point where it can stop. With a block layer that works, cutting always succeeds, keeps exactly the clusters the size needs and frees the rest; growing succeeds exactly if there is room and otherwise fills it. A success means that no request failed. |
| `Volume.Disk.Shrink` | src/fs/fat32.c:1087-1172 | The entry is written first, then the chain ended, then the tail freed: wherever that stops, clusters may be lost but none is both free and reachable; after a success the tail is free. |
| `Volume.Disk.Announce` | src/fs/fat32.c:1087-1163 | The first steps: the tail is found and the entry on the disk is the new one; on a failure nothing has changed. |
| `Volume.Disk.CutTail` | src/fs/fat32.c:1166-1172 | What is kept is a chain at every point, and after a success the whole tail is free and no cluster is lost. |
| `Volume.TouchView` | src/fs/fat32.c:891-1029 | Writing a range of a chain and following with the size is overwriting the file up to its end; all others read the same. |
| `Files.Run` | src/fs/fat32.c:710-1173 | Any sequence of reads, writes, resizes and syncs of many files, with any failures and any sectors of a failing write getting through, is a run on independent byte arrays. Every result is determined by what was there unless the block layer failed during the call: a read gives all there is, a write all that the limits and the room allow, a resize succeeds exactly if there is room, and the free clusters change by what the file took or gave. And no failure is passed over: a call during which the block layer failed does not report a complete success. |
| `Files.Untouched` | src/fs/fat32.c:710-1173 | A file that no write or resize names reads the same after any run. |
| `Files.LastWriteWins` | src/fs/fat32.c:710-1173 | A byte holds what the last write put there, unless the file was cut before it since. |
| `Files.CutBytesStayGone` | src/fs/fat32.c:1070-1173 | At a position a file was once cut before it holds zero until a write puts something there. |
| `Files.ReadBack` | src/fs/fat32.c:710-1068 | After a write that returned its whole count, a read of that range with a block layer that works returns exactly the bytes written. |
| `Files.RoomEnough` | src/fs/fat32.c:1032-1068 | A write is complete if and only if the block layer failed nothing and it ends within the largest file size and within the clusters of the file and the free ones. |
| `Files.NothingLost` | src/fs/fat32.c:335-437 | Over any run in which the block layer works, the free clusters and those of all files stay together the same. |
| `Files.SavedSize` | src/fs/fat32.c:836-887 | After a successful sync the entry on the disk gives the size of the file until the next write or resize of that file, whatever happens to others. |
| `Unicode.Utf8ToUtf16` | src/fs/fat32.c:1442-1475 | Accepts exactly the well-formed UTF-8 texts (section 3 of RFC 3629) of allowed characters that fit, and gives their UTF-16 (section 2 of RFC 2781). |
| `Unicode.OneReading` | src/fs/fat32.c:1442-1475 | No byte string has two readings. |
| `Unicode.Utf16ToUtf8` | src/fs/fat32.c:492-528 | The text of the units up to a zero, lone surrogates as question marks, if it is not empty and fits. |
| `Unicode.ReadBack` | src/fs/fat32.c:492-528 | Units written for a text read back as that text, whatever follows the zero. |
| `Names.NameUnits` | src/fs/fat32.c:1478-1486 | Succeeds exactly for the names a file may have, with the right error otherwise. |
| `Names.LongRoundTrip` | src/fs/fat32.c:1680-1703 | Every name accepted is read back byte for byte from its long name slots. |
| `Names.Part` | src/fs/fat32.c:1519-1534 | One part of the 8.3 form: exactly the converted characters that fit, that nothing is lost exactly when nothing had to be, and which cases occur. |
| `Names.Divide` | src/fs/fat32.c:1509-1516 | Where the name proper begins and where its last dot is. |
| `Names.ShortBase` | src/fs/fat32.c:1505-1540 | The 8.3 form of the name; something is lost exactly if the name is not an 8.3 name in some case; a long name is used exactly if no case bits show the name byte for byte; otherwise the 8.3 form shows it. |
| `Names.SameForm` | src/fs/fat32.c:532-566 | 8.3 forms of this driver that read the same are the same. |
| `Names.ShowUp` | src/fs/fat32.c:532-566 | Capitals shown with the right case bit are the original. |
| `Names.ShownAsText` | src/fs/fat32.c:551-560 | A byte of the 8.3 form is shown as the UTF-8 text of its character, small if the case bit says so. |
| `Directory.ReadNext` | src/fs/fat32.c:599-625 | Slots written for a name are accepted one after the other and put its units in order. |
| `Directory.Directory.Next` | src/fs/fat32.c:571-652 | The next entry, with its long name if the slots before it hold one; nothing exactly if no entry is left. |
| `Directory.Directory.BuildName` | src/fs/fat32.c:636-642 | The long name if it is complete, belongs to the entry and can be shown, else the 8.3 name. |
| `Directory.Directory.List` | src/fs/fat32.c:571-652 | Reading a whole directory gives its listing, in order and with positions. |
| `Directory.Directory.Find` | src/fs/fat32.c:654-665 | The first entry of the listing that answers the name, long or short, in any case; -ENOENT exactly if none does. |
| `Directory.Directory.HasShort` | src/fs/fat32.c:1542-1559 | Whether any entry has this 8.3 form, both ways. |
| `Directory.Directory.PickTail` | src/fs/fat32.c:1562-1588 | The first numbered form that no entry has; -EEXIST only if all of them are taken. |
| `Directory.Directory.AllocSlots` | src/fs/fat32.c:1616-1660 | The first run of free slots that is long enough, across clusters; the directory grows only if there is none; -ENOSPC exactly if there is none and the clusters still missing are not to be had, from the volume or under the limit. |
| `Directory.Directory.Extend` | src/fs/fat32.c:1643-1659 | The directory grows by empty clusters, and succeeds exactly if the volume grants all that are missing and the limit allows them. |
| `Rooms.NeverCrowded` | src/fs/fat32.c:1562-1588 | The numbered 8.3 forms of a name are all different, so a directory within the limit of entries always has one that is free. |
| `Directory.Directory.BuildSlots` | src/fs/fat32.c:1680-1711 | The slots of an entry: its long name from the last part to the first, then the 8.3 entry. |
| `Listing.OneCharacter` | src/fs/fat32.c:483-488 | The checksum of a short name changes with every single character changed. |
| `Listing.SwappedCharacters` | src/fs/fat32.c:483-488 | Two swapped neighbours change it, except if the bytes they bring the rotated sum to are 0 and 255. |
| `Listing.KnownChecksum` | src/fs/fat32.c:483-488 | The checksum of README~1.TXT. |
| `Directory.Directory.Add` | src/fs/fat32.c:1664-1740 | The result code in every case, decided by the slots, the name and what the volume grants; the listing gains exactly this entry, with its name byte for byte; all others stay as and where they are; 8.3 forms stay distinct and names unambiguous if the name was not in use; a failure changes no entry. |
| `Rooms.UnitsAre` | src/fs/fat32.c:1442-1475 | How many long name slots a name needs can be read off its bytes. |
| `Directory.SlotsNeeded` | src/fs/fat32.c:1680-1711 | The slots written for a name are as many as its bytes and its 8.3 form call for. |
| `Directory.AllTaken` | src/fs/fat32.c:1562-1588 | The search for a numbered form fails exactly if every one of them is in some slot. |
| `Directory.Directory.Delete` | src/fs/fat32.c:1744-1776 | The listing loses exactly this entry, and exactly its slot and its long name slots are marked; a position behind the end is not found and changes nothing. |
| `Directory.Directory.constructor` | src/fs/fat32.c:1883-1913 | A new directory is empty and in order. |
| `Placement.Placed` | src/fs/fat32.c:1713-1726 | An entry written over free slots joins the listing at its place, inside or past the old end. |
| `Placement.Removed` | src/fs/fat32.c:1744-1776 | Marking the slots of an entry as deleted takes it, and only it, off the listing. |
| `Directory.Whose` | src/fs/fat32.c:1751-1767 | The long name slots found by the scan are exactly those of the entry. |
| `Entries.CapitalsFree` | src/fs/fat32.c:1674-1679 | If nothing answers a name that is an 8.3 name, its 8.3 form is not in use. |
| `Entries.ShowsName` | src/fs/fat32.c:1680-1703 | The entry made for a name shows that name. |
| `Entries.NotBoth` | src/fs/fat32.c:654-665 | Among entries made by this driver no name, long or short, in any case, is answered by two. |
| `Entries.ToldApart` | src/fs/fat32.c:654-665 | In a listing made by this driver every name has one answer at most. |
| `Catalog.Create` | src/fs/fat32.c:1869-1918 | The result code in every case, -EINVAL for an empty last component and the dots; a success, only for a name nobody answers, adds exactly the new entry; a failure nothing; within the limit of entries -EEXIST means that an entry answers the name. |
| `Catalog.Remove` | src/fs/fat32.c:1940-1959 | The result code in every case, -EINVAL for an empty last component and the dots; a success removes exactly the first entry that answers the name, and in a directory of this driver nothing answers the name afterwards. |
| `Catalog.Rename` | src/fs/fat32.c:1981-2040 | The result code and what goes and comes in every case, with attributes, first cluster and size carried over. A failure takes an entry away if and only if, before the call, nothing hinders the rename, the new name is in use, and with the slots of that entry freed there is no run of the slots the new name needs nor clusters to be had, or all numbered forms are taken. |
| `Catalog.LosesWithoutRoom` | src/fs/fat32.c:1981-2040 | Within the limit of entries a failing rename takes an entry away if and only if nothing hinders it, the new name is in use, and the directory, with the slots of that entry freed, has no room for the new one and cannot get it. |
| `Catalog.Consider` | src/fs/fat32.c:1981-2016 | The checks before anything is changed, in their order. |
| `Vanishing.CaseChangeLoses` | src/fs/fat32.c:1981-2040 | A full directory made by this driver on a full volume: renaming a.txt to A.tXt fails with -ENOSPC and the file is gone. |
| `Catalog.Refusal` | src/fs/fat32.c:2007-2016 | When an entry may take the place of another, and which code says why not. |
| `Catalog.Run` | src/fs/fat32.c:1869-2040 | Any operations in any order: each gives exactly the answer and takes and makes exactly the entries it should; the directory stays in order, and if this driver made it no name ever has two answers. |
| `Catalog.Kept` | src/fs/fat32.c:1869-2040 | An entry is still there after any run, at its place, with its clusters, unless an operation took away exactly it. |
| `Catalog.OnlyNamed` | src/fs/fat32.c:1940-2040 | What an operation takes away was there and answers a name the operation gives. |
| `Catalog.Accounted` | src/fs/fat32.c:1869-2040 | Every entry after a run was there at the start or was made by a successful operation of the run. |
| `Glob.GlobMatch` | user/bin/find.c:16-64 | True exactly if the text is in the language of the pattern; it always ends. |
| `Glob.TrySet` | user/bin/find.c:29-48 | A bracket set accepts exactly its members and ranges, negated or not, and where the pattern goes on. |
| `Glob.NewStar` | user/bin/find.c:20-24 | At the next star nothing is lost by forgetting the previous one. |
| `Glob.AtEnd` | user/bin/find.c:61-63 | At the end of the text the last star can do no better than the present position. |
| `Regex.FindAtomEnd` | user/libc/ext.c:571-582 | Where the atom at a position ends. |
| `Regex.AtomMatch` | user/libc/ext.c:592-612 | An atom accepts exactly the characters it stands for, with or without regard to case. |
| `Regex.SameLetter` | user/libc/ext.c:565-568 | Without regard to case two characters are the same exactly if they are equal or the two forms of one letter. |
| `Regex.RangeHolds` | user/libc/ext.c:584-590 | A range holds exactly what is the same character as one between its ends. |
| `Regex.MatchHere` | user/libc/ext.c:614-637 | True exactly if some stretch from here on is in the language of the rest of the pattern. |
| `Regex.MatchMany` | user/libc/ext.c:619-629 | Trying the longest run first finds a match if any run length does. |
| `Regex.Match` | user/libc/ext.c:639-646 | True exactly if some stretch of the text, anchored as the pattern says, is in its language. |
| `Pipes.Take` | src/proc/pipe.c:60-84 | Bytes leave the ring oldest first. |
| `Pipes.Add` | src/proc/pipe.c:86-117 | Bytes enter the ring behind the newest, around the end of the buffer. |
| `Pipes.Descriptors.ReadStep` | src/proc/pipe.c:60-84 | Bytes in the order they were sent; end of file exactly if nothing is left and no descriptor of any table can write. |
| `Pipes.Descriptors.WriteStep` | src/proc/pipe.c:86-117 | As many bytes as fit are accepted, in order; -EPIPE exactly if no descriptor can read. |
| `Pipes.Descriptors.AllocPipe` | src/proc/pipe.c:170-187 | A pipe nobody names, empty and with one owner for each end, or none exactly if all are in use. |
| `Pipes.Descriptors.CreatePipe` | src/proc/pipe.c:189-211 | Two descriptors for a new pipe; after a failure no descriptor and no pipe is left over. |
| `Pipes.Descriptors.DropWriter` | src/proc/pipe.c:38-58 | Giving up the last end frees the pipe. |
| `Pipes.Descriptors.Put` | src/proc/fd.c:84-95 | The slot is cleared and the end counted down; counts still equal descriptors. |
| `Pipes.Descriptors.FreeSlot` | src/proc/fd.c:60-74 | The lowest free descriptor, or -EMFILE exactly if there is none. |
| `Pipes.Descriptors.Dup` | src/proc/fd.c:97-110 | The new descriptor names what the old one does, what it named is released, and a bad argument changes nothing. |
| `Pipes.Descriptors.CreateTable` | src/proc/fd.c:19-29 | An unused table with no descriptors, or none exactly if all are used. |
| `Pipes.Descriptors.CloneTable` | src/proc/fd.c:31-42 | The child has every descriptor of the parent, each counted once more. |
| `Pipes.Descriptors.DestroyTable` | src/proc/fd.c:44-58 | No descriptor of the table is left, each counted down once. |
| `Streams.Run` | src/proc/pipe.c:38-211 | Every interleaving of calls and lock sections of all processes: the result, the bytes moved and the new tables of every step, by the descriptor it names and the data it was given; reader and writer counts equal the descriptors on each end over all tables; a pipe is refused only if descriptors name every pipe or two are not free. |
| `Streams.PipeStep` | src/proc/pipe.c:38-211 | What a step does to the bytes of one pipe: a write adds the accepted prefix of its data, a read takes from the front, and the end of the file means empty with no writer. |
| `Streams.InOrder` | src/proc/pipe.c:60-117 | Since a pipe was made, what all readers got is a prefix of the data all writers passed, as far as it was accepted, over every interleaving. |
| `Streams.EndIsEnd` | src/proc/pipe.c:60-84 | Once a read has reported the end of the file, everything accepted has been delivered, and nothing is accepted or delivered any more. |
| `Pipes.Descriptors.Close` | src/proc/fd.c:84-95 | Exactly this descriptor goes. |
| `Pipes.NamedInUse` | src/proc/pipe.c:170-187 | A pipe that some descriptor names is in use, so its slot is not given away. |
| `Heap.KernelHeap.constructor` | src/mm/kheap.c:46-62 | One free block that is the whole aligned arena, exactly if the arena is there and large enough; otherwise none. |
| `Heap.KernelHeap.Malloc` | src/mm/kheap.c:81-111 | The first free block that fits, split as far as it goes, or exactly as many new pages as the size needs; aligned and large enough; bytes of live blocks stay; nothing exactly if the size is zero or no free block fits and the page allocator has nothing to give. |
| `Heap.KernelHeap.TakeAt` | src/mm/kheap.c:64-79 | The block is taken and no more of it than needed: what is left over is a free block of exactly the rest if it can hold one, and the blocks still tile the arena. |
| `Heap.KernelHeap.FromPages` | src/mm/kheap.c:97-110 | A block with pages of its own that overlaps no other block; none exactly if the page allocator offers none. |
| `Heap.KernelHeap.Free` | src/mm/kheap.c:142-164 | Exactly this block is nobody's any more; no two free arena blocks are neighbours; a block already free stays so. |
| `Heap.KernelHeap.Realloc` | src/mm/kheap.c:166-182 | The old bytes at the start of a block that is large enough, in place of the old block, or the old block with its bytes; it fails exactly if the old block is too small and nothing else is to be had. |
| `Heap.KernelHeap.Run` | src/mm/kheap.c:46-182 | Any allocations, releases, resizes and writes: each does to the blocks in use and their bytes exactly what it should and fails exactly if no free block and no new pages hold the size, no two blocks in use ever overlap, and when nothing is in use the arena is one free block again. |
| `Blocks.LiveKept` | src/mm/kheap.c:81-182 | A block in use keeps its bytes until the program itself frees, resizes or writes it, over any run of either heap. |
| `Blocks.ResizeKeeps` | src/mm/kheap.c:166-182 | A successful resize in a run: a block that is large enough with the old bytes in front, and nobody at the old address unless it stayed. |
| `Tiling.NoOverlap` | src/mm/kheap.c:46-164 | No two blocks of the heap overlap, headers included. |
| `Tiling.OneBlockLeft` | src/mm/kheap.c:119-164 | With every arena block free there is one block, the whole arena. |
| `Tiling.FreeBlock` | src/mm/kheap.c:119-140 | Merging with both neighbours keeps the tiling and leaves no free neighbours. |
| `Tiling.TakeBlock` | src/mm/kheap.c:64-79 | Splitting keeps the tiling. |
| `Brk.UserHeap.constructor` | user/libc/libc.c:141-150 | An empty heap at the aligned break. |
| `Brk.UserHeap.Malloc` | user/libc/libc.c:164-190 | The first free block that fits, split as far as it goes, or a new block of exactly the size at the break; bytes of live blocks stay; nothing exactly if the size is zero or too large, or no free block fits and the break cannot move or is refused. |
| `Brk.UserHeap.Free` | user/libc/libc.c:192-209 | Exactly this block is nobody's any more, bytes of live blocks stay, and after the merging pass no two free blocks are neighbours; an address outside the heap is ignored. |
| `Brk.UserHeap.Realloc` | user/libc/libc.c:211-222 | The old bytes at the start of a block that is large enough, in place of the old block, or the old block with its bytes; it fails exactly if the size is too large or the old block is too small and nothing else is to be had. |
| `Brk.UserHeap.Run` | user/libc/libc.c:141-222 | Any calls and writes: each does to the blocks in use and their bytes exactly what it should and fails exactly for a size too large, or if no free block holds it and the break does not move; no two blocks in use ever overlap, and when nothing is in use everything up to the break is one free block. |
| `Paths.Normalize` | src/fs/vfs.c:744-769 | The buffer ends up with the normal form of the path; writing never overtakes reading, so nothing behind the old text changes. |
| `Paths.Apply` | src/fs/vfs.c:757-765 | One component, in place, does to the text what it does to a stack of directories. |
| `Paths.Resolve` | src/fs/vfs.c:771-788 | The normal form of the path seen from the directory if both fit, and the error codes otherwise, each exactly when. |
| `Paths.NormalPlain` | src/fs/vfs.c:744-769 | The normal form has no empty, "." or ".." component and its components are the stack the path walks to. |
| `Paths.Idempotent` | src/fs/vfs.c:744-769 | Normalising twice changes nothing. |
| `Paths.Compose` | src/fs/vfs.c:771-788 | Resolving b against what a resolves to is resolving a/b. |
| `Timers.Wheel.Init` | src/kernel/timer.c:41-48 | A timer that is not listed is cleared. |
| `Timers.Wheel.Unlink` | src/kernel/timer.c:23-34 | The timer leaves the list, all others keep their order. |
| `Timers.Wheel.Set` | src/kernel/timer.c:54-71 | Armed for at least one tick from now, listed exactly once, behind every timer that expires no later; all other timers as they were. |
| `Timers.Wheel.Cancel` | src/kernel/timer.c:73-78 | Not active and not listed, whether it was or not; all others keep their order. |
| `Timers.Wheel.Pop` | src/kernel/timer.c:88-105 | The first due timer comes off the list; none exactly if nothing is due. |
| `Timers.Wheel.Tick` | src/kernel/timer.c:88-105 | The timers fired are exactly the due ones, in their order, but for those that the callback of an earlier one armed or stopped; the list ends as the callbacks leave it, with no due timer on it. |
| `Timers.FiresExactly` | src/kernel/timer.c:88-105 | A due timer fires if and only if no timer fired before it arms or stops it. |
| `Timers.FiresInOrder` | src/kernel/timer.c:7-8 | Timers fire by expiry, and in the order they were armed when they expire together. |
| `Watchdogs.Ticks` | src/kernel/watchdog.c:48-52 | Milliseconds rounded up to ticks, at least one, and not one tick more. |
| `Watchdogs.Watchdog.Lookup` | src/kernel/watchdog.c:55-62 | The entry that a handle names, the only one, or none. |
| `Watchdogs.Watchdog.Register` | src/kernel/watchdog.c:104-126 | A free entry with a new generation and a full deadline from now; 0 exactly if the timeout is zero or no entry is free. |
| `Watchdogs.Watchdog.Unregister` | src/kernel/watchdog.c:128-136 | Exactly the named entry becomes free. |
| `Watchdogs.Watchdog.Feed` | src/kernel/watchdog.c:138-143 | Exactly an armed entry named by the handle gets a full deadline again. |
| `Watchdogs.Watchdog.Rebind` | src/kernel/watchdog.c:169-186 | Which code when; only a pending restart is rebound; it uses up one of the budget and gets a full deadline. |
| `Watchdogs.Watchdog.Dequeue` | src/kernel/timer.c:88-105 | First half of the tick: exactly the first due timer comes off and its callback is on the way, if one is due. |
| `Watchdogs.Watchdog.Expire` | src/kernel/watchdog.c:72-93 | The callback kills exactly if the entry is armed and a whole timeout has passed since it was last registered, fed or rebound; it may restart only within its budget. |
| `Watchdogs.Watchdog.Run` | src/kernel/watchdog.c:48-186 | Every interleaving of calls, time and the two halves of the tick: the new state and the answer of every step, exactly, with deadlines, list and budgets kept right. |
| `Watchdogs.OneMove` | src/kernel/watchdog.c:72-186 | How an entry can change in one step: killed only when overdue, rebound only when a restart is pending, freed only by its own handle. |
| `Watchdogs.FedLives` | src/kernel/watchdog.c:72-93 | An armed entry that is fed again before its timeout has passed, and not unregistered, is never killed, over every interleaving. |
| `Watchdogs.WithinBudget` | src/kernel/watchdog.c:72-93 | From its registration on an entry is killed exactly once for every restart and once more if it is down, so at most once more than it may be restarted. |
| `Watchdogs.TickKills` | src/kernel/watchdog.c:72-93 | A tick that drains the due timers kills exactly the armed entries that are overdue and leaves none. |
| `Watchdogs.HandleLater` | include/kernel/watchdog.h:9-11 | In any run an old handle finds its slot if and only if the slot is taken and was registered a multiple of 2^24 - 1 times since; it never finds another. |
| `Watchdogs.StaleHandle` | include/kernel/watchdog.h:9-11 | A handle of an earlier registration matches if and only if its slot was registered a multiple of 2^24 - 1 times since. |
| `Watchdogs.HandleComesBack` | include/kernel/watchdog.h:9-11 | The first handle of the first slot matches again after 2^24 - 1 registrations. |
| `Division.DivMod` | src/arch/riscv32/divdi3.c:10-37 | Quotient and remainder of every pair of 64-bit words, although the shifted remainder is cut to 64 bits; by zero as the code has it. |
| `Division.DivModSigned` | src/arch/riscv32/divdi3.c:39-53 | The quotient rounded towards zero and the remainder with the sign of the dividend; only the one quotient that does not fit wraps. |
| `Numbers.DivmodSmall` | user/libc/ext.c:229-247 | Quotient and remainder by a base from 2 to 16, both ways of computing it. |
| `Numbers.FormatUnsigned` | user/libc/ext.c:256-292 | The digits of the number in the base, most significant first. |
| `Numbers.FormatSigned` | user/libc/ext.c:306-412 | The signed decimal text, the least value included. |
| `Numbers.ParseDigits` | user/libc/ext.c:110-125 | The value of the digits, or the overflow mark exactly if it does not fit. |
| `Numbers.DigitMeans` | user/libc/ext.c:115-118 | The digits and both forms of the letters have the values 0 to 35, nothing else has one. |
| `Numbers.Strtoul` | user/libc/ext.c:93-129 | Space, sign, prefix and digits: the value saturated, or negated modulo the word. |
| `Numbers.Strtol` | user/libc/ext.c:131-147 | The value clamped to the signed range. |
| `Numbers.ClampedNearest` | user/libc/ext.c:138-146 | The number itself if it is in the signed range, else the end of the range on its side. |
| `Numbers.UnsignedRoundTrip` | user/libc/ext.c:93-129 | Parsing what %lu, %lx and %lo print returns it, for every 64-bit value and every base from 2 to 16. |
| `Numbers.BaseFound` | user/libc/ext.c:99-105 | Without a base a number is read back in hexadecimal behind 0x or 0X, in octal behind 0, and in decimal otherwise, for every 64-bit value. |
| `Numbers.SignedRoundTrip` | user/libc/ext.c:131-147 | Parsing what %ld prints returns it, for every 64-bit value, the least included. |
| `Sorting.SiftDown` | user/libc/ext.c:157-171 | The part becomes a heap from the start on; nothing outside moves and nothing is lost. |
| `Sorting.HeapSort` | user/libc/ext.c:173-182 | A sorted arrangement of the same elements, for every consistent comparison. |
| `SortLines.LineOrderStrict` | user/bin/sort.c:29-45 | With the tie-break by address the comparison is a strict total order, with and without -r. |
| `SortLines.OneArrangement` | user/bin/sort.c:38-45 | There is only one sorted arrangement. |
| `SortLines.Stable` | user/bin/sort.c:38-45 | Lines come out by ascending key, with -r by descending key, and those with equal keys in the order they went in. |
| `TextLines.StrCmp` | user/libc/libc.c:276-279 | The difference at the first place where two strings differ, or zero. |
| `TextLines.StrCaseCmp` | user/libc/ext.c:42-51 | The same up to case. |
| `TextLines.FoldsTogether` | user/libc/ext.c:20-20 | Characters fold together exactly if they are equal or the two forms of one letter. |
| `TextLines.CompareKeys` | user/bin/sort.c:29-36 | The chosen comparison of the texts at two places of the buffer. |
| `TextLines.KeyConsistent` | user/bin/sort.c:29-36 | All three forms of the comparison are total preorders of the lines. |
| `TextLines.SameKey` | user/bin/sort.c:29-36 | Two lines have the same key exactly if they are the same text, the same text up to case, or the same number. |
| `TextLines.SplitLines` | user/bin/sort.c:88-95 | The line starts, and the buffer with every newline overwritten. |
| `TextLines.SplitWhole` | user/bin/sort.c:88-105 | Printing the lines in their order gives back the input, with a newline at the end if it had none. |
| `SortLines.Print` | user/bin/sort.c:100-105 | All lines, or with -u the first line of each group of equal keys, in the order of the keys. |
| `SortLines.Sort` | user/bin/sort.c:77-108 | For data and any of the three keys, with and without -r: the lines of the data in the one stable arrangement, or with -u the first line of each key in that order, printed. |
| `SortLines.OneOutput` | user/bin/sort.c:77-108 | What is printed is determined by the input and the options. |
| `SortLines.OneSelection` | user/bin/sort.c:100-105 | There is one way only to keep the first line of each key in order. |

## Left out

- Hardware access, interrupts, boot, locks and memory ordering: lock sections are steps, calls outside them are sequential.
- Scheduler, signals, process lifecycle, shells, tty, tmpfs, procfs, slab and the other tools: not part of this model.
- Frame bitmap: one flag per frame instead of eight to a byte; physical addresses are unbounded numbers below the frame limit.
- Forking.Run: memory given from outside lies behind the frames that the allocator manages; frames that other parts of the kernel hold and show to a process are covered by Vmm.AddressSpaces.MapForeign only.
- Forking.Do: a write by user code stands for the processor, which refuses it where the page tables do; an allocation where a page is mapped already is refused, where the program would replace the frame.
- Vmm.AddressSpaces.MapAllocated: requires the page to be unmapped, as Map does.
- Vmm.AddressSpaces.Map: requires the page to be unmapped; mapping over a page replaces the frame without releasing the old one.
- Vmm.AddressSpaces.UserStore: stands for the processor; direct stores of signal delivery and permission changes by vmm_protect do not go through the copy-on-write path and are not modelled.
- Vmm.AddressSpaces.Unmap: requires a space in use; mappings made in the kernel's own context and vmm_alloc_page are left out.
- Vmm: page tables are a map whose updates may fail; the frames of the tables themselves count as held by others.
- Cache: the mode before initialisation, registration and removal of disks and the sync of all disks are left out; a pin count has no width and the hash is any function into the buckets.
- Cache.BlockCache.WriteBack: a failing driver call may leave anything in the one sector it was given.
- Paging.PageTables.Map: the translation buffer of the processor is left out.
- Paging: entries are records of their fields; the field widths are part of the model.
- FAT: one logical table instead of its copies, 32-bit entries without their upper four bits, no dates and no volume mounting.
- Volume.Disk.FatSet: one table stands for its mirrored copies. If writing a later copy fails while a chain grows, the first copy already leads to the new cluster, and that chains stay apart is not promised there.
- Volume.Disk.FilePut: when the block layer fails in the middle of a cluster that the write was to cover, old data of the disk may be left behind the end of the file; only what the file shows is promised then.
- Volume.Disk.Write: offsets and sizes up to the 32-bit limit, as the callers have them; when the block layer fails, not exactly the bytes counted are promised, because whole sectors behind them may have been written.
- Directory: a directory is its sequence of slots, a whole number of clusters; the walk along its chain, the packing of a slot into 32 bytes, dates, failing reads and a write that fails between two slots of one entry are left out.
- Directory.Directory.Add: attributes are those of files and directories, as every caller passes them.
- Directory.Directory.Delete: the position is that of an entry or lies behind the end.
- Catalog: paths have been resolved to one directory; renaming between directories, the clusters freed or allocated with an entry, and whether an entry is open or a directory empty come from outside.
- Pipes: blocking, wake-up and signals are repeated lock sections; descriptors that are not pipes have no offset and no file behind them.
- Heap: the list is a sequence of blocks with addresses instead of linked headers; the magic number, foreign addresses and sizes that wrap around are left out.
- Heap.KernelHeap.Free: requires an address that kmalloc gave out, or null.
- Brk: calloc and a break that the kernel moves elsewhere than asked are left out.
- Brk.UserHeap.Free: requires an address that malloc gave out, null, or one outside the heap; what an address inside a block does is left out.
- Paths: lookup of mounts and the listing of merged directories are left out.
- Timers.Wheel.Init: requires a timer that is not listed.
- Watchdogs: one tick dequeues one timer at a time; sending the signal is the result of the step.
- Numbers.FormatUnsigned: width, precision, flags and capital letters are left out.
- Numbers.Strtol: a second sign after the first is what strtoul makes of it; the reported end is left out.
- SortLines.Sort: reading the input, the options and the buffer of the writer are left out.
- Glob and Regex: characters are numbers.
