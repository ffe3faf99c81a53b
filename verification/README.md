# YuzuOS kernel: verified model

A Dafny model of the data structures and state machines of YuzuOS, a small x86 kernel, with proofs
about whole runs of them. `dafny verify dfyconfig.toml` checks everything.

| files | what they model |
|---|---|
| `dlist`, `dlistsurgery` | the intrusive circular lists, as `next` and `prev` fields by address |
| `plistspec`, `plist`, `plistpool`, `plistruns`, `plistdriver` | the priority list: two interlinked rings, refined to one sorted queue, and whole runs of it in memory |
| `schedspec`, `scheduler`, `schedruns`, `locks` | the round-robin scheduler on top of it, whole runs of it in memory, and its lock depth as a state machine over all threads |
| `heapspec`, `heap`, `heapruns` | the kernel heap, with block headers in the memory it manages, over `malloc_sbrk` |
| `pagetables`, `paging`, `forkspec`, `fork` | two-level page tables as the processor walks them, their editing through the recursive entry, and the copying of a fork |
| `heappages`, `forkheap` | the heap's pages as the page tables show them, and the whole fork on top of both |
| `mmap`, `userheap` | the user heap over `brk`, with its headers in the process's memory |
| `frames`, `framesruns` | the physical frame allocator over its bitmap, and whole runs of it |
| `ext2spec`, `ext2read`, `ext2dir` | reading files and searching directories through indirection trees |
| `pathspec`, `dcache` | path resolution over the dentry cache |
| `printfspec`, `printf`, `printfc99` | the printf engine, and where it meets ISO C99 |
| `inispec`, `inilines`, `ini` | the INI parser, and files with all it takes |

Files ending in `spec` (and `pagetables`, `plistpool`, `printfc99`, `inilines`, `locks`) hold values and functions on them;
the others hold the code in the source's own form, methods over changing state, proved against these
functions. `wrappers` has the option type.

## What the code does not do

Some claims one would make about this code are false as it stands. The model follows the code; for
each of these the members named prove exactly when the claim holds, most with an input for which it
does not.

- No block of the kernel heap is lost for reuse. `malloc_align` (kernel/utils/stdlib.c:44-46) follows
  links *while there are none*. With fewer than two linked blocks it reads through NULL; otherwise it
  stops at the first block and overwrites its link. Over any run the list has all blocks exactly if no
  request grew the heap through `malloc_align` (`HeapRuns.RunHeap`; `KernelHeap.Heap.Align`,
  `KernelHeap.AlignLosesBlock`). All blocks, linked or lost, always tile the heap.
- `malloc` returns as many bytes as asked. The rounding (kernel/utils/stdlib.c:88) wraps around: it does
  exactly if the size is below 2^32 - 3 (`KernelHeap.Heap.Malloc`, `KernelHeap.Aligned`).
- A new page directory is page-aligned (kernel/memory/virtual.c:26-31). From an unaligned heap end it
  is exactly if the first block is not free or too small. From an aligned heap end, where
  `malloc_align` returns NULL, it is exactly if the first linked block that is free and large enough
  has its payload on a page; a block made at the heap end is never aligned then
  (`KernelHeap.Heap.AddrCreate`, `HeapSpec.DirInPlace`). As a directory leaves the heap end aligned, a
  second one right behind it fails (`KernelHeap.AddrCreateTwice`).
- A read returns the bytes of the file. `ext2_fs_bread_n_rec` (kernel/filesystem/ext2.c:192) restarts
  every tree at its first entry. Reads are right on every device exactly if they start in block 0 to
  12 or where the double or triple indirect tree starts (`Ext2Spec.RightIffGoodStart`,
  `Ext2Spec.StartWrong`). The thresholds, fixed for blocks of 1024 bytes, choose the right tree for
  larger blocks too once a read has started right.
- A read returns as much as is left. `ext2_fs_read` cuts `ppos + count` to 32 bits and takes the
  position off again (kernel/filesystem/ext2.c:238). That is right exactly if the position is not past
  the end of the file, and the sum fits in 32 bits or its low bits lie past the end
  (`Ext2Spec.ClipExact`, `Ext2Spec.ClipWrong`, `Ext2Spec.ClipPastEnd`).
- A page table entry gets the frame it is given. `virt_mm_frame_set` (kernel/memory/virtual.c:18)
  masks with 0x7FFFF000, which spares bit 31 (`PageTables.FrameSetRight`, `PageTables.FrameSetWrong`).
- Memory areas stay disjoint. `mmap_brk` sets `mm->brk` before comparing with it
  (kernel/memory/mmap.c:131-139), so that `mmap_expand_vm` is never reached and the heap area grows
  over the next one, whose pages it maps anew. They stay disjoint exactly if there is room
  (`Mmap.GrownDisjoint`, `Mmap.Mm.Brk`, `Mmap.BrkOverlaps`).
- Counter and bitmap of the frames stay in step. Freeing a frame that is free already counts down all
  the same (kernel/memory/physical.c:57-65; `Frames.FreeStep`, `Frames.FreeWrong`); nothing in the
  kernel calls `phys_mm_block_free` so far.
- A frame is found when the counter says that there is one. The search goes through whole words only
  (kernel/utils/bitmap.c:20) and its failure is not noticed (kernel/memory/physical.c:48). It always
  succeeds exactly if the counter is ahead of the bits by at least the frames of the unfinished last
  word (`FramesRuns.AlwaysFound`).
- Numbers are printed as in section 7.19.6.1 of ISO C99: `PrintfC99.PrintsAsC99` has the condition, on
  flags, precision, field, base and value. It fails for 0 with precision 0 (`ZeroWithoutDigits`), for
  `#` with hexadecimal 0 (`HexZero`), with octal 0 (`OctalZero`) or with octal digits that start with
  a zero for their precision (`OctalPrecision`), and for the `0` flag with a precision that leaves
  something to pad (`ZerosInSpite`). Under `%zd` negative arguments lose their sign
  (`PrintfC99.NumberAsC99`, `SizeWrong`); `PrintfC99.ConvertsAsC99` joins both.
- A negative precision by `*` counts as none. It counts as 0, which shows exactly for strings that are
  not empty (`PrintfC99.PrecisionAsC99`, `PrecisionOfNumbers`, `StringCutOff`).
- Reading a line stays within the file. It goes past the terminator exactly if no line break comes
  before it and the line is shorter than the buffer (`IniSpec.PastTheEnd`, `IniSpec.LastLineRunsOn`).
- Unused directory entries, those with inode 0, are passed over (kernel/filesystem/ext2.c:161-162).
  They are exactly if the first entry of the name is a used one (`Ext2Dir.SkipsUnused`,
  `Ext2Dir.UnusedFound`).

Other differences, each for a single input or for every one:

- An empty path resolves to the process's root (kernel/filesystem/virtual.c:146-151;
  `DentryCache.EmptyPath`), where section 4.13 of the POSIX.1-2017 Base Definitions has an error; `.`
  and `..` are names like any other.
- `%hhd` is no conversion (`PrintfC99.HalfHalf`), nor are the length modifiers `j` and `t` known.
- `vsnprintf` returns 0 for sizes above INT_MAX and puts its terminator at `str + size`
  (kernel/utils/stdio.c:140-141, 387-388): the buffer has one byte more than the size
  (`Printf.Printer.Vsnprintf`).

## Domains

Preconditions that come from the code rather than from a caller's contract:

- Kernel heap: requests that keep the heap below the recursive window of the page tables, which no
  allocation checks. `malloc_sbrk` is called for whole words, `malloc_align` for a page.
- Fork: `dir` is the active directory, in a block in use if it is in the heap; every user page has a
  frame with contents of its own, neither free nor a page table nor of the heap; there are frames for
  the copies, for the kernel tables that are missing and, in a row, for the pages of heap
  (`ForkHeap.Supply`); the scratch pages, one for each table and two for each page, stay below the
  recursive window. `ForkHeap.WholeFork` stops when the directory does not come out on a page.
- Page tables: page-aligned addresses below the recursive window, frames below 2^31.
- `ext2_fs_read`: block size 1024, 2048 or 4096, `ppos <= i_size <= 2^32 - blocksize`. Directory
  search: blocks tiled by their entries, inode numbers below 2^31.
- Path resolution: names below 256 characters, lookup a fixed function of inode and name.
- INI files: lines below 200 characters with a line break each; titles and names below 50 characters.
- Frames: frame 0 is taken; a single call takes for granted that the scanned words have a clear bit
  whenever the counter is below its maximum, which runs show (`FramesRuns`). Frames freed are within
  the bitmap.
- `brk`: only the allocator calls `sbrk`, and the heap area is there and has no file. Requests to the
  user heap are below 2^31.

## Model

| member | source | states |
|---|---|---|
| `DList.Memory.Add` | kernel/utils/dlist.c:44-47 | a link added behind the k-th of a ring stands behind it, and the ring is well formed again |
| `DList.Memory.AddTail` | kernel/utils/dlist.c:49-52 | a link added before a head stands before it, and the ring is well formed again |
| `DList.Memory.RemoveInit` | kernel/utils/dlist.c:66-70 | the rest of the ring is a ring in the same order, the removed link is linked to itself |
| `DList.EmptyIffAlone` | kernel/utils/dlist.c:20-23 | the emptiness test is true exactly of a ring of one |
| `DList.BetweenRing` | kernel/utils/dlist.c:30-36 | the four writes of an insertion make a ring of the ring with the new link, at any place |
| `DList.BridgedRing` | kernel/utils/dlist.c:38-42 | the two writes of a removal leave a ring without the link, and change nothing for a link on its own |
| `DList.RemovedRing` | kernel/utils/dlist.c:66-70 | a link taken out of a ring is linked to itself; one on its own changes nothing |
| `ListSurgery.Replace` | kernel/utils/dlist.c:72-78 | the new link takes the place of the old one, in a ring of one as well |
| `ListSurgery.Swap` | kernel/utils/dlist.c:86-94 | two links of a ring exchange places, neighbours or not, in either order round the ring |
| `ListSurgery.CutPosition` | kernel/utils/dlist.c:148-170 | the links up to an entry form a list of their own, the others stay; an empty list is left alone |
| `ListSurgery.Splice` | kernel/utils/dlist.c:187-203 | the links of one list come behind the head of another, in order |
| `ListSurgery.CutAndSplice` | kernel/utils/dlist.c:148-203 | cutting a list and splicing the part back gives the list there was |
| `PList.PList.NodeInit` | kernel/utils/plist.c:28-33 | a new node is linked to itself on both rings; the list, and every other detached node, is untouched |
| `PList.PList.IsEmpty` | kernel/utils/plist.c:3-6 | true exactly for the empty queue |
| `PList.PList.IsNodeEmpty` | kernel/utils/plist.c:8-11 | true exactly of a node that is not queued |
| `PList.PList.First` | kernel/utils/plist.c:13-16 | the first node of the queue |
| `PList.PList.Last` | kernel/utils/plist.c:18-21 | the last node of the queue |
| `PList.PList.FindPlace` | kernel/utils/plist.c:42-56 | the walk along group leaders finds the place a linear scan of all nodes finds, and the leader before it |
| `PList.PList.LinkLeader` | kernel/utils/plist.c:37-59 | after the first half of an insertion the leader ring is that of the queue with the new node |
| `PList.PList.Add` | kernel/utils/plist.c:35-62 | both rings hold the queue with the node behind every node of lower or equal priority; nodes off the list keep their links |
| `PList.PList.PassLead` | kernel/utils/plist.c:66-74 | a leader that leaves hands over to the next node of its group, if there is one |
| `PList.PList.Remove` | kernel/utils/plist.c:64-77 | both rings hold the queue without the node, whatever became of its priority; the node is self-linked on both, other nodes off the list keep their links; removing it again changes nothing |
| `PList.PList.FindGroupEnd` | kernel/utils/plist.c:91-98 | the walk stops behind the last node of the same priority |
| `PList.PList.Requeue` | kernel/utils/plist.c:79-100 | requeueing is removing and adding again; nodes off the list keep their links |
| `PList.PList.Rebase` | kernel/task/scheduler.c:318-326 | the in-place loop lowers every queued priority by the same amount and keeps both rings |
| `PListSpec.ScanPosStops` | kernel/utils/plist.c:46-56 | the linear scan stops at the first node of higher priority |
| `PListSpec.ScanPosUnique` | kernel/utils/plist.c:46-56 | in a sorted queue that is the only place with all lower or equal priorities before it and all higher ones behind |
| `PListSpec.QueuedSorted` | kernel/utils/plist.c:35-62 | insertion keeps the queue sorted |
| `PListSpec.LeadersAreFirsts` | kernel/utils/plist.c:46-59 | the leaders are exactly the first nodes of the groups |
| `PListSpec.LeadersQueued` | kernel/utils/plist.c:58-59 | an insertion adds the node to the leaders, in place, exactly if it opens a group |
| `PListSpec.NextGroup` | kernel/utils/plist.c:54-56 | from leader to leader the walk skips exactly one group |
| `PListSpec.FollowerRemoved` | kernel/utils/plist.c:66-76 | removing a node that does not lead leaves the leaders alone |
| `PListSpec.LeaderSucceeded` | kernel/utils/plist.c:70-72 | removing a leader with followers puts the next node in its place among the leaders |
| `PListSpec.GroupRemoved` | kernel/utils/plist.c:66-74 | removing a leader without followers takes it out of the leaders |
| `PListSpec.LeadersRebased` | kernel/task/scheduler.c:318-326 | lowering every priority by the same amount changes no leader |
| `PListRuns.RunOrdered` | kernel/utils/plist.c:28-100 | over any abstract run of add, remove and requeue the queue is sorted by priority and, among equals, by the time of the last insertion |
| `PListRuns.RunHolds` | kernel/utils/plist.c:28-100 | over any run the queue holds exactly the nodes added and not removed, with their priorities |
| `PListRuns.OrderedUnique` | kernel/utils/plist.c:28-100 | order and members leave only one possible queue |
| `PListPool.PoolAdded` | kernel/utils/plist.c:35-62 | with one node of a pool added, all others that are not queued stay linked to themselves |
| `PListPool.PoolRemoved` | kernel/utils/plist.c:64-77 | with one node of a pool removed, all that are not queued, itself included, are linked to themselves |
| `PListDriver.Perform` | kernel/utils/plist.c:28-100 | any call on any node of a pool, queued or not, keeps: the queue is that of the calls so far, and the nodes off it are linked to themselves |
| `PListDriver.RunOps` | kernel/utils/plist.c:28-100 | over any run in memory both rings are well formed, the queue is that of the abstract run, and every node off it is linked to itself on both rings |
| `Scheduler.Scheduler.constructor` | kernel/task/scheduler.c:465-479 | the boot thread runs, unqueued, with lock depth 0 |
| `Scheduler.Scheduler.Create` | kernel/task/scheduler.c:120-149 | a new thread is ready, has priority 0 and is not queued; every thread stays queued or detached as it was |
| `Scheduler.Scheduler.Enqueue` | kernel/task/scheduler.c:65-68 | the thread, in whatever state, goes behind its equals, whoever is running |
| `Scheduler.Scheduler.Unqueue` | kernel/task/scheduler.c:82-85 | the thread is not queued any more; nothing else moves |
| `Scheduler.Scheduler.Update` | kernel/task/scheduler.c:70-80 | a change of state requeues the thread behind its equals; no change does nothing; the lock depth is unchanged |
| `Scheduler.Scheduler.PopNext` | kernel/task/scheduler.c:48-56 | the head of the queue is taken out, detached; nobody if the queue is empty |
| `Scheduler.Scheduler.Switch` | kernel/task/scheduler.c:255-274 | the thread becomes current, runs with a fresh slice and is queued again |
| `Scheduler.Scheduler.Schedule` | kernel/task/scheduler.c:276-299 | unless the current thread still runs, the head of the queue becomes current; with nobody queued the processor halts and nothing changes |
| `Scheduler.Scheduler.NextTurn` | kernel/task/scheduler.c:285-298 | one turn of the idle loop: halt if nobody is queued, else the head of the queue runs; the lock is given back |
| `Scheduler.Scheduler.RaisePriority` | kernel/task/scheduler.c:316-327 | priorities are re-based to start at 0 in place, the current thread gets the highest plus one |
| `Scheduler.Scheduler.Preempt` | kernel/task/scheduler.c:312-330 | at the end of a slice the current thread goes behind all others |
| `Scheduler.Scheduler.Tick` | kernel/task/scheduler.c:301-342 | what a timer tick does in every case: not running, slice not over, queue empty, scheduler locked, or one round-robin step; who is queued stays |
| `Scheduler.Scheduler.CreateAndQueue` | kernel/task/scheduler.c:227-253 | a thread created and queued after any number of ticks in between: each tick does what a tick does, then the thread goes behind its equals, and all others are queued as before |
| `SchedSpec.ExpiryIsRoundRobin` | kernel/task/scheduler.c:312-341 | an expired slice runs the first waiting thread and puts the one that ran last; alone, it runs on |
| `SchedSpec.RoundTurns` | kernel/task/scheduler.c:301-342 | after n expiries the round of all threads has turned by n places |
| `SchedSpec.EveryThreadRuns` | kernel/task/scheduler.c:301-342 | with nobody created or exiting, every queued thread runs within as many expiries as there are threads |
| `SchedSpec.KeysAfterExpiry` | kernel/task/scheduler.c:316-328 | the priorities after an expiry: the re-based ones without the first, then the highest plus one |
| `SchedSpec.RoomShrinks` | kernel/task/scheduler.c:316-328 | the span of the priorities plus the number of ties never grows |
| `SchedSpec.PrioritiesStaySmall` | kernel/task/scheduler.c:316-328 | from equal priorities every priority stays between 0 and the number of threads, after any number of slices |
| `SchedRuns.EndSlice` | kernel/task/scheduler.c:301-342 | the ticks up to the end of a slice, in memory, are one expiry |
| `SchedRuns.RunSlices` | kernel/task/scheduler.c:301-342 | over any number of slices in memory the threads run in the order of the round, every queued thread within as many slices as threads, and from equal priorities on none gets above their number |
| `SchedLocks.NextKeeps` | kernel/task/scheduler.c:35-46 | every operation, tick and call keeps: the current thread pays back the lock depth, every other thread pays back 1 |
| `SchedLocks.LockDepthConserved` | kernel/task/scheduler.c:87-149 | over any interleaving the lock depth never underflows, is 0 outside the kernel, and a thread that is switched out owes exactly one unlock |
| `SchedLocks.ListGuarded` | kernel/task/scheduler.c:35-56 | over any interleaving interrupts are on only at depth 0, or at depth 1 with the unlock next; no tick comes while the next thread is taken from the list |
| `SchedLocks.KernelReopens` | kernel/task/scheduler.c:35-46 | over any interleaving interrupts are on outside the kernel, once the boot thread has made its first call |
| `HeapSpec.OwnWords` | kernel/utils/stdlib.c:83-133 | the blocks, header and payload, do not overlap |
| `HeapSpec.ExtentIsHeap` | kernel/utils/stdlib.c:83-133 | sizes and headers of all blocks add up to the extent of the heap |
| `HeapSpec.TilesSplit` | kernel/utils/stdlib.c:107-116 | splitting a block keeps the tiling of the heap |
| `HeapSpec.ChainSplit` | kernel/utils/stdlib.c:109-115 | the second half of a split block is linked behind the first |
| `HeapSpec.ChainLink` | kernel/utils/stdlib.c:18-29 | a block hung behind a member of the list cuts off all that followed it |
| `HeapSpec.TakenTiled` | kernel/utils/stdlib.c:104-117 | the writes to a block that is taken keep the tiling, split or not |
| `HeapSpec.TakenLinked` | kernel/utils/stdlib.c:104-117 | and the list |
| `KernelHeap.PagesForGrowth` | kernel/utils/stdlib.c:66-75 | the number of frames asked for is the number of pages mapped |
| `KernelHeap.Heap.MapPages` | kernel/utils/stdlib.c:69-74 | exactly the pages up to the new end are mapped, to frames in a row |
| `KernelHeap.Heap.Sbrk` | kernel/utils/stdlib.c:55-81 | the heap end moves by the increment; less than a page is left over, ending on a page boundary with exactly the pages below mapped; old bytes stay, new ones are zero |
| `KernelHeap.Heap.Find` | kernel/utils/stdlib.c:92-102 | the lowest linked free block that is large enough, or the last member of the list if there is none |
| `KernelHeap.Heap.Get` | kernel/utils/stdlib.c:18-29 | a new block in use at the end, linked behind the given member; every other block keeps size, flag and payload |
| `KernelHeap.Heap.Take` | kernel/utils/stdlib.c:104-117 | the block is in use, split if the rest has room for a header; every other block is untouched |
| `KernelHeap.Heap.Malloc` | kernel/utils/stdlib.c:83-133 | first fit, growing only if nothing fits; the block was not in use and is now, and is as large as asked and by less than a word and a header larger, but for the three sizes that wrap around; blocks in use keep place and contents; panic exactly above the block limit; no block is lost from the list, and a new one is its last |
| `KernelHeap.Aligned` | kernel/utils/stdlib.c:88 | the size is rounded up to the next word; the three largest come out as 0 |
| `HeapSpec.ClearedBytes` | kernel/utils/stdlib.c:142 | clearing so many bytes makes just these zero, and leaves the others of the last word |
| `HeapSpec.ZeroedBytes` | kernel/utils/stdlib.c:142 | of memory said to be zero every byte is |
| `KernelHeap.Heap.Free` | kernel/utils/stdlib.c:145-153 | only the flag of the block changes |
| `KernelHeap.Heap.Calloc` | kernel/utils/stdlib.c:135-143 | as malloc, with as many zero bytes as asked for in a block that is large enough; NULL for none, panic exactly above the block limit; no block is lost |
| `KernelHeap.Heap.NoneLost` | kernel/utils/stdlib.c:83-133 | the list is complete exactly if no block is lost |
| `KernelHeap.Heap.Align` | kernel/utils/stdlib.c:31-53 | on an aligned heap end nothing happens; otherwise fewer than two linked blocks fault, and with more the new block leaves a header to the page boundary and all blocks but the first are lost from the list |
| `KernelHeap.AlignLosesBlock` | kernel/utils/stdlib.c:44-47 | two small requests and then one for alignment lose a block |
| `KernelHeap.Heap.AddrCreate` | kernel/memory/virtual.c:26-31 | the new directory is zeroed and overlaps no block in use; from an unaligned heap end it is page-aligned exactly if no free first block took it, and from an aligned one exactly if a linked free block on a page served it; blocks are lost exactly from an unaligned end |
| `HeapSpec.DirInPlace` | kernel/memory/virtual.c:26-31 | from an aligned heap end the directory is page-aligned exactly if a linked free block with its payload on a page serves the request |
| `KernelHeap.AddrCreateTwice` | kernel/memory/virtual.c:26-31 | two directories in a row: the first is page-aligned, the second is not |
| `HeapRuns.Perform` | kernel/utils/stdlib.c:31-153 | any request keeps the heap well formed and gets its answer: a block in use that was not, as large as asked, zeroed if asked, or one in use no more; it loses blocks exactly if it grows the heap for alignment |
| `HeapRuns.RunHeap` | kernel/utils/stdlib.c:31-153 | over any run without a panic or a read through NULL, the list is complete exactly if no request grew the heap for alignment |
| `PageTables.FrameSetRight` | kernel/memory/virtual.c:16-19 | with its mask the new frame comes out right exactly if bit 31 of the old entry was clear or the new address has it set |
| `PageTables.FrameSetWrong` | kernel/memory/virtual.c:16-19 | over an entry with bit 31 set the frame comes out wrong |
| `PageTables.FlagsJoined` | kernel/memory/virtual.c:16-24 | an entry gets the flags it had, the new ones and those of the address |
| `PageTables.WindowShows` | kernel/memory/virtual.c:40-44 | the recursive entry shows each table at its page of the window |
| `PageTables.DirectoryShown` | kernel/memory/virtual.c:40-44 | the recursive entry shows the directory itself at the last page of the window |
| `PageTables.EntryWritten` | kernel/memory/virtual.c:61-64 | writing one table entry changes the entry of that page only |
| `PageTables.TableEntered` | kernel/memory/virtual.c:51-59 | entering a fresh cleared table changes the entry of no page |
| `Paging.AddressSpace.EnsureTable` | kernel/memory/virtual.c:51-59 | the page has a table afterwards, from a free frame if it had none, its directory entry with the flags added in that case only, and no page translates differently |
| `Paging.AddressSpace.MapAddr` | kernel/memory/virtual.c:46-66 | in the flat view the page maps to the given frame and every other page as before; the low bits of its entry are the old ones, the flags and those of the address, and a new directory entry has the flags too |
| `Paging.AddressSpace.Unmap` | kernel/memory/virtual.c:68-83 | in the flat view exactly this page is gone |
| `Paging.AddressSpace.RangeUnmap` | kernel/memory/virtual.c:85-89 | in the flat view exactly the pages from start up to end are gone |
| `ForkSpec.TouchedMissing` | kernel/memory/virtual.c:51-56 | a temporary mapping costs a frame exactly if its kernel table was missing |
| `ForkSpec.ParentShown` | kernel/memory/virtual.c:107-109 | while a fork runs the parent's user tables stay what and where they were |
| `Fork.CopyPage` | kernel/memory/virtual.c:112-123 | a frame that was free holds the contents of the source, and both temporary mappings are gone |
| `Fork.ForkTable` | kernel/memory/virtual.c:100-128 | the new table has a private copy for every page the old one maps and zero elsewhere; the scratch mapping is gone |
| `Fork.ForkUser` | kernel/memory/virtual.c:97-130 | the user half of the new directory is a copy, table by table; it takes exactly the frames and scratch pages counted |
| `Fork.FillDir` | kernel/memory/virtual.c:33-37 | the new directory has the kernel entries of the active one and an entry for itself |
| `Fork.PhysAddrGet` | kernel/memory/virtual.c:40-44 | the entry of the page in its table, wherever that table is; for a page of the window, the directory's entry |
| `ForkSpec.ChildPrivate` | kernel/memory/virtual.c:91-136 | child and parent agree on which user pages are mapped and on their contents; the child's frames were free and are pairwise distinct |
| `ForkSpec.ChildWritable` | kernel/memory/virtual.c:125-129 | every entry of the child's user half, for a page or a table the parent has, has the low bits 7, and there are no others |
| `ForkSpec.ParentSame` | kernel/memory/virtual.c:91-136 | the parent's user entries, user contents and all translations are unchanged, so every temporary mapping is gone |
| `ForkSpec.ChildTables` | kernel/memory/virtual.c:91-136 | the child's directory is well formed, so it can be edited in turn |
| `ForkSpec.FreshFramesForeign` | kernel/memory/virtual.c:91-136 | no frame of the child is one of the parent's user frames |
| `Fork.ForkDir` | kernel/memory/virtual.c:97-130 | the filling and copying, from a cleared directory and the first scratch page on: private copy, parent unchanged, no user frame shared, kernel entries 768 to 1022 as the parent's at the time of the copy; no other frame with contents of its own changes |
| `HeapPages.MapHeap` | kernel/utils/stdlib.c:64-75 | the mapping loop through the page tables: the pages get frames in a row, present and writable, no other entry changes, and frames are only spent on them and on missing kernel tables |
| `HeapPages.MappedHeap` | kernel/utils/stdlib.c:64-75 | after the loop the page tables show the grown heap, each page in a frame of its own |
| `HeapPages.WriteThrough` | kernel/utils/stdlib.c:64-80 | the words the heap code wrote are in the frames, and nothing else changed |
| `ForkHeap.Follow` | kernel/utils/stdlib.c:64-80 | page tables that showed the heap show it again after it has grown; user pages keep frames and contents |
| `ForkHeap.CreateDir` | kernel/memory/virtual.c:26-31 | heap and page tables together: a new zeroed block for the directory, on a page exactly under the condition of the heap |
| `ForkHeap.ForkInto` | kernel/memory/virtual.c:94-135 | from a directory on a page: the copy of `ForkDir`, after which heap and page tables agree again on every page, the directory's included |
| `ForkHeap.WholeFork` | kernel/memory/virtual.c:91-136 | from heap and page tables that agree to heap and page tables that agree: the child has a private copy of the user half, the kernel's entries and the heap's pages; blocks in use keep what they hold; no page moves but new ones of the heap |
| `Ext2Spec.LeavesCount` | kernel/filesystem/ext2.c:187-194 | a tree of l levels over n pointers a block has n to the l leaves |
| `Ext2Spec.ThresholdsAreTrees` | kernel/filesystem/ext2.c:239-251 | with blocks of 1024 bytes the thresholds choose, for every block of a file, the tree that holds it, and end with the file |
| `Ext2Spec.PointerIs` | kernel/filesystem/ext2.c:191-193 | a pointer is the number whose four bytes, the low one first, stand in its place |
| `Ext2Spec.VisitedRight` | kernel/filesystem/ext2.c:239-251 | from a direct block or the start of a tree, reading goes through exactly the blocks of the file, for every block size the thresholds choose from |
| `Ext2Spec.ClipExact` | kernel/filesystem/ext2.c:238 | the count is right exactly if the position is not past the end, and the end of the range fits 32 bits or its low bits lie past the end of the file |
| `Ext2Spec.ClipWrong` | kernel/filesystem/ext2.c:238 | a request for all there is from byte 1 of a file of 10 bytes gets a count of 2^32 - 1 |
| `Ext2Spec.ClipPastEnd` | kernel/filesystem/ext2.c:238 | from a position past the end of the file the count is 2^32 - 1 |
| `Ext2Spec.LeafStep` | kernel/filesystem/ext2.c:197-203 | the offsets computed for a block copy the part of it in range |
| `Ext2Spec.CodeReadRight` | kernel/filesystem/ext2.c:231-255 | from a good start a read is the slice of the flat file |
| `Ext2Spec.StartWrong` | kernel/filesystem/ext2.c:192 | from any other start a read is wrong on some device |
| `Ext2Spec.RightIffGoodStart` | kernel/filesystem/ext2.c:187-205 | reads starting in a block are right on every device exactly if it is a direct block or a tree starts there |
| `Ext2Read.Reader.BReadNRec` | kernel/filesystem/ext2.c:187-205 | the next leaves of a tree, from left to right, are copied until the tree or the range ends |
| `Ext2Read.Reader.ReadTree` | kernel/filesystem/ext2.c:241-250 | a turn of the loop reads the tree chosen by the thresholds from its first leaf |
| `Ext2Read.Reader.ReadRange` | kernel/filesystem/ext2.c:239-251 | the loop ends and copies the bytes in range of the blocks it visits |
| `Ext2Read.Reader.Read` | kernel/filesystem/ext2.c:231-255 | the count is what is left of the file, as many bytes are written, and from a good start they are those of the file |
| `Ext2Dir.FirstMatchIs` | kernel/filesystem/ext2.c:156-167 | the result is the inode of the first entry of that name, or the error exactly if there is none |
| `Ext2Dir.RecordRead` | kernel/include/kernel/filesystem/ext2.h:160-167 | a written record has its inode number, length and name where the search looks for them |
| `Ext2Dir.DirectoryRead` | kernel/filesystem/ext2.c:148-168 | a directory written record by record is read as its entries, in order, up to its end |
| `Ext2Dir.SkipsUnused` | kernel/filesystem/ext2.c:156-167 | the search passes over unused entries exactly if the first match is a used one |
| `Ext2Dir.UnusedFound` | kernel/filesystem/ext2.c:161-162 | a directory of one unused entry |
| `Ext2Dir.InoFind` | kernel/filesystem/ext2.c:148-168 | a block is searched as the list of its entries; an inode number from 2^31 on comes out negative |
| `Ext2Dir.BReadRec` | kernel/filesystem/ext2.c:170-185 | a tree of any depth is searched as one list of the entries of its leaves |
| `PathSpec.NamesOfJoin` | kernel/filesystem/virtual.c:139-159 | a path written from names parses to these names |
| `PathSpec.ReachIsWalk` | kernel/filesystem/virtual.c:161-174 | what the cache leads to is what looking up name by name finds |
| `PathSpec.ReachKept` | kernel/filesystem/virtual.c:161-199 | a path in the cache leads to the same dentry ever after |
| `PathSpec.AddedChild` | kernel/filesystem/virtual.c:180-198 | caching a looked-up child keeps every cached child true to lookup and sibling names different |
| `DentryCache.VirtFs.MountGet` | kernel/filesystem/virtual.c:18-27 | the first mount at the dentry |
| `DentryCache.VirtFs.FindChild` | kernel/filesystem/virtual.c:161-170 | the first child of that name |
| `DentryCache.VirtFs.NextName` | kernel/filesystem/virtual.c:153-159 | the parsed name is the next name of the path, and the rest starts at a name or is empty |
| `DentryCache.VirtFs.Descend` | kernel/filesystem/virtual.c:161-203 | one name further exactly if lookup finds it; a failing step changes nothing |
| `DentryCache.VirtFs.PathFind` | kernel/filesystem/virtual.c:135-207 | result, inode and mount are those of the walk without a cache; the cache only grows, stays true to lookup when the call fails too, and a path in it leads to the same dentry and adds none |
| `DentryCache.EmptyPath` | kernel/filesystem/virtual.c:146-151 | an empty path leads to the root of the process and touches nothing |
| `Frames.TakenWritten` | kernel/utils/bitmap.c:3-11 | setting or clearing a bit changes that frame only |
| `Frames.FreeStep` | kernel/memory/physical.c:57-65 | clearing a bit and counting down stay in step, wrap-around included, exactly if the bit was set |
| `Frames.PhysMM.GetFirst` | kernel/utils/bitmap.c:18-30 | the least clear bit of the whole words, all-ones words skipped, or -1 exactly if there is none |
| `Frames.PhysMM.BlockAlloc` | kernel/memory/physical.c:42-55 | no live frame is handed out; the counter moves with the bits; NULL exactly if the counter is at its maximum |
| `Frames.PhysMM.BlockFree` | kernel/memory/physical.c:57-65 | the frame, live or not, is clear and not live any more; counter and bits stay in step exactly if it was taken |
| `Frames.PhysMM.AddrSet` | kernel/memory/physical.c:14-22 | the frame is taken; counter and bits move together |
| `Frames.FreeWrong` | kernel/memory/physical.c:57-65 | freeing a free frame moves the counter alone |
| `FramesRuns.AlwaysFound` | kernel/memory/physical.c:42-55 | there is a frame in the scanned words whenever the counter says so exactly if it is ahead of the bits by at least the frames of the unfinished last word |
| `FramesRuns.Take` | kernel/memory/physical.c:42-55 | the frame handed out is held by nobody, and there is one unless the counter is at its maximum |
| `FramesRuns.GiveBack` | kernel/memory/physical.c:57-65 | the frame is held no more, the others are |
| `FramesRuns.RunFrames` | kernel/memory/physical.c:14-65 | over any run, call by call: a frame that was not taken is held, one given back is not any more; no frame is held twice, and the counter stays ahead of the bits by the same amount |
| `PrintfSpec.DigitsDecode` | kernel/utils/stdio.c:50-61 | the digits of a number decode to it in every base |
| `PrintfSpec.DigitsFit` | kernel/utils/stdio.c:51-61 | a number of k bits has at most k digits, so 66 characters are enough |
| `PrintfSpec.NumberLength` | kernel/utils/stdio.c:14-136 | the length is the larger of the field and sign, prefix and the larger of digits and precision |
| `PrintfSpec.NumberDecodes` | kernel/utils/stdio.c:77-133 | the text is spaces, sign, prefix, digits, spaces, and the digits decode to the magnitude |
| `PrintfSpec.SignIsRight` | kernel/utils/stdio.c:22-41 | sign and magnitude make up the signed number |
| `PrintfSpec.ReadBack` | kernel/utils/stdio.c:6-12 | plain decimal output up to INT_MAX is read back |
| `PrintfSpec.LaidOut` | kernel/utils/stdio.c:67-133 | only one of the padding loops pads: together they lay the number out |
| `Printf.Printer.ToDigits` | kernel/utils/stdio.c:50-61 | the buffer holds the digits, the last first, in at most 64 characters |
| `Printf.Printer.Number` | kernel/utils/stdio.c:14-136 | the number is printed as laid out for every base from 2 to 36, and nothing for any other |
| `Printf.Printer.ReadInt` | kernel/utils/stdio.c:6-12 | the run of digits, as an int |
| `PrintfSpec.Int32Is` | kernel/utils/stdio.c:6-12 | the int is the one in range that differs by a multiple of 2^32 |
| `Printf.Printer.ReadDirective` | kernel/utils/stdio.c:162-225 | flags, field, precision and qualifier of a directive |
| `PrintfSpec.FlagsRead` | kernel/utils/stdio.c:164-181 | the flags are those that stand in the run, in any order and number |
| `Printf.Printer.PutDirective` | kernel/utils/stdio.c:227-382 | the text of one directive |
| `Printf.Printer.Measure` | kernel/utils/stdio.c:256-263 | a string is measured up to the precision |
| `PrintfSpec.CutIs` | kernel/utils/stdio.c:256-263 | what is printed of a string is its start, as long as the precision and the string allow |
| `Printf.Printer.TakeNumber` | kernel/utils/stdio.c:359-381 | the argument, as wide and as signed as qualifier and conversion say |
| `Printf.Printer.Vsnprintf` | kernel/utils/stdio.c:138-391 | printed text, result and what `%n` stores do not depend on the size; the buffer holds a prefix of the text and a terminator; above INT_MAX the result is 0 |
| `PrintfC99.PrintsAsC99` | kernel/utils/stdio.c:14-136 | a number is printed as C99 asks for exactly if flags, field, precision, base and value meet `AsC99` |
| `PrintfC99.ConvertsAsC99` | kernel/utils/stdio.c:227-382 | a conversion d, i, o, u, x or X prints what C99 asks for, in its own base 10, 8 or 16, exactly if its number is taken rightly and meets `AsC99` |
| `PrintfC99.NumberAsC99` | kernel/utils/stdio.c:359-381 | the argument is taken as C99 says exactly if it is not negative under `%zd` |
| `PrintfC99.SizeWrong` | kernel/utils/stdio.c:368-369 | `%zd` of -1 takes 4294967295 |
| `PrintfC99.PrecisionAsC99` | kernel/utils/stdio.c:199-212 | a string is cut as C99 says exactly if the precision is not negative or the string is empty |
| `PrintfC99.PrecisionOfNumbers` | kernel/utils/stdio.c:199-212 | a number does not show whether a negative precision counts as 0 or as none |
| `PrintfC99.StringCutOff` | kernel/utils/stdio.c:199-212 | `%.*s` with -1 prints nothing |
| `PrintfC99.ZeroWithoutDigits` | kernel/utils/stdio.c:54-65 | `%.0d` of 0 prints a digit |
| `PrintfC99.HexZero` | kernel/utils/stdio.c:84-101 | `%#x` of 0 prints a prefix |
| `PrintfC99.OctalZero` | kernel/utils/stdio.c:84-101 | `%#o` of 0 prints two zeros |
| `PrintfC99.OctalPrecision` | kernel/utils/stdio.c:84-119 | `%#.2o` of 1 prints a zero too many |
| `PrintfC99.ZerosInSpite` | kernel/utils/stdio.c:103-119 | `%03.1d` of 7 pads with zeros |
| `PrintfC99.HalfHalf` | kernel/utils/stdio.c:214-225 | `%hhd` prints itself, without one h |
| `IniSpec.HeaderParsed` | libs/core/ini.c:91-101 | a section line opens the section |
| `IniSpec.PairParsed` | libs/core/ini.c:103-120 | a pair's line calls the handler with name and value in the current section |
| `IniSpec.LineRead` | libs/core/ini.c:36-49 | a line in the buffer is one step of the parser |
| `IniSpec.PastTheEnd` | libs/core/ini.c:36-49 | reading a line goes past the terminator exactly if no line break comes before it and the line is shorter than the limit |
| `IniSpec.LastLineRunsOn` | libs/core/ini.c:36-49 | a last line that takes in what lies behind the file |
| `IniSpec.RoundTrip` | libs/core/ini.c:51-127 | parsing a written file calls the handler with every pair, in order, in its section, and succeeds exactly if all calls do |
| `IniLines.LineSeen` | libs/core/ini.c:67-123 | one line of any kind: empty, a comment, a section, a value with either delimiter, white space and a comment behind, a continued value, or a broken line |
| `IniLines.FileParsed` | libs/core/ini.c:51-127 | a file of such lines reaches the handler value by value, and the result is the number of the first line that is broken or refused, or 0 |
| `IniLines.BomSkipped` | libs/core/ini.c:80-82 | a byte order mark at the start of the file is passed over |
| `IniLines.WhiteIs` | libs/core/ini.c:10-23 | white space is space, tab, vertical tab, form feed, carriage return and line break |
| `Ini.Strip` | libs/core/ini.c:10-16 | the string ends before its trailing white space; no other character changes |
| `Ini.SkipSpace` | libs/core/ini.c:18-23 | the string without leading white space |
| `Ini.Find` | libs/core/ini.c:25-34 | the first of the characters, or a semicolon behind white space, or the end |
| `Ini.LineGet` | libs/core/ini.c:36-49 | up to the line break or the limit: the line without carriage returns, zeros behind it, and where reading went on to |
| `Ini.ParsePair` | libs/core/ini.c:103-122 | name and value are cut out of the line in place and reported |
| `Ini.ParseLine` | libs/core/ini.c:73-123 | one line in the line buffer is one step of the parser |
| `Ini.IniParse` | libs/core/ini.c:51-127 | calls and result are those of the lines in order |
| `Ini.WriteAndParse` | libs/core/ini.c:51-127 | a list of sections, written and parsed, reaches the handler as it was |
| `Mmap.Mm.FindVm` | kernel/memory/mmap.c:60-69 | the first area that contains the address |
| `Mmap.Mm.Brk` | kernel/memory/mmap.c:126-175 | the break is page-aligned and set, the heap area ends at the larger of its end and the break, its new pages are mapped to fresh frames in a row, other pages map as before; areas stay disjoint exactly if there was room |
| `Mmap.Mm.SyscallBrk` | kernel/system/syscall.c:30-42 | 0 asks for the break, below the start is an error, otherwise the break moves, room or not |
| `Mmap.GrownDisjoint` | kernel/memory/mmap.c:126-175 | an area that grows stays disjoint from the others exactly if it does not reach the next one |
| `Mmap.BrkOverlaps` | kernel/memory/mmap.c:131-160 | a break that runs into the next area takes its page away |
| `UserHeap.TileTaken` | libs/c/stdlib.c:75-87 | taking a free block, split or not, keeps the tiling |
| `UserHeap.HeadersTaken` | libs/c/stdlib.c:73-88 | the writes to the block that is taken make the headers those of the new list and reach no other block |
| `UserHeap.HeadersMore` | libs/c/stdlib.c:41-51 | the writes for a new block put it behind the last one and reach no other payload |
| `UserHeap.PayloadsWritten` | libs/c/stdlib.c:98-103 | what is handed out lies behind the header: a program that writes only there leaves the heap as it is |
| `UserHeap.Heap.Sbrk` | libs/c/unistd.c:17-22 | the old break is returned, the new one is page-aligned |
| `UserHeap.Heap.Find` | libs/c/stdlib.c:62-71 | the lowest free block in memory that is large enough, or else the last one |
| `UserHeap.Heap.Get` | libs/c/stdlib.c:27-52 | a new block at the end, its header written and linked behind the last one in mapped memory; what is left of the last page ends at the kernel's break |
| `UserHeap.Heap.Malloc` | libs/c/stdlib.c:54-104 | first fit through the headers in memory, growing only if nothing fits; the block is in use and as large as asked, by less than a word and a header larger; the headers are those of the new list, and every other block holds what it held |
| `UserHeap.Heap.Free` | libs/c/stdlib.c:116-120 | one word of memory changes, and with it only the flag of the block |
| `UserHeap.Heap.BlocksMapped` | libs/c/stdlib.c:27-104 | every block lies in mapped pages of the heap area, below the break |

## Left out

- Device drivers, port I/O, logging, descriptor tables, interrupt controllers, multiboot and assembly:
  a context switch is a change of the current thread, a device a function from block number to bytes.
- `sched_exit`: it queues the terminated thread again (kernel/task/scheduler.c:378), so that "never
  chosen again" is no property of the code; in `locks` it takes part with its locks and unlocks.
- Process creation, cloning of `mm`, `fs` and files, execve and ELF loading; of the fork of a process
  `scheduler` has the new thread and `fork` the new directory.
- SchedLocks.LockDepthConserved: does not model which thread the queue yields, any thread may be next.
- KernelHeap.Heap.Malloc: works on 32-bit words of memory, and does not model a request whose rounded
  size takes the heap past HEAP_LIMIT, which the code does not check either.
- KernelHeap.Heap.Align: takes a page as the alignment, the only one the kernel asks for.
- ForkHeap.WholeFork: lets the page tables follow the heap once it has handed out the directory; the
  code maps the pages while it does so.
- Scheduler.Scheduler.CreateAndQueue: takes the insertion as one step. `sched_process_fork` unlocks
  before it (kernel/task/scheduler.c:250-251), so that a tick can fall inside `plist_add` itself.
- KernelHeap.Heap.Grow: does not model how `phys_mm_block_n_alloc` finds its frames
  (kernel/utils/bitmap.c:32-60 counts clear bits without asking for adjacent ones); a run of frames in
  a row is assumed.
- Paging.AddressSpace.MapAddr: does not model the translation cache and its flushes; the bits for access
  rights are written as the code writes them, but no access is refused; the writes of flags and frame
  to one entry are one write.
- Paging.AddressSpace.Alloc: leaves open which free frame it takes; the bitmap is in `frames`.
- `phys_mm_init` and the setting of regions: `frames` starts after boot, with the counter ahead of the
  bits by any amount.
- Ext2Dir.BReadRec: does not model `ext2_fs_lookup` above it, where "not found" compares as a positive
  number (kernel/filesystem/ext2.c:212-220).
- DentryCache.VirtFs.PathFind: does not model O_CREAT; no file system of this kernel has the `create`
  it would call (kernel/filesystem/virtual.c:189, kernel/filesystem/ext2.c:28-29).
- File reference counts, and reads of inodes, groups and superblocks.
- Printf.Printer.Vsnprintf: takes arguments as numbers and strings by position, not as a `va_list`;
  does not say what is printed for a format that ends inside a directive, where the code reads past
  its end, nor for fields and precisions for which the arithmetic on `int` overflows.
- Ini.IniParse: keeps section and previous name as strings cut to their buffers' lengths.
- UserHeap.Heap.Malloc: works on 32-bit words; the sizes that only get logged
  (libs/c/stdlib.c:20-24) have no effect. `calloc` on top of it is modelled for the kernel heap.
- `mmap_find_unmapped_vm`, `mmap_expand_vm` and the shrinking branch of `mmap_brk`, which cannot be
  reached.
- The other list primitives (moving, rotating, cutting before an entry, splicing at the tail), which
  are made of the ones here.
