# DucreuOS, modelled and proved in Dafny

DucreuOS is a RISC-V teaching kernel. This project models four parts of it and proves what they promise:

- **The file store** (`Bytes`, `Block`, `Minix3*`): a MINIX 3 volume on a disk that is an array of bytes. Pointer
  blocks, bitmaps and inodes really are bytes of that array. `Meaning` reads a volume off the disk, `Owned` says that
  every zone is referenced by one slot of one file, and the operations are proved against both: appending is
  concatenation, other files keep their bytes, removing returns exactly the zones held. `TreeNow` reads the tree of
  files and directories off the same bytes; touch, mkdir, rm and rmdir each change it in exactly one place and keep it
  a tree.
- **The memory stack** (`Page`, `Mmu`, `HeapPages`, `HeapBlocks`, `Kmalloc`, `Uaccess`): one physical memory of 64-bit
  words. Page-table entries and heap headers are words of it; the heap reaches its headers through the kernel page
  table; the page table's pages and the heap's pages come from the page allocator.
- **Concurrency** (`ProcessList`, `Sched`, `Fairness`, `Lock`, `Hart`): the scheduler's lists as linked nodes, and the
  scheduler, the locks and the hart start/stop handshake as steps of any number of harts, with invariants of every
  interleaving.
- **Arithmetic** (`Virtqueue`, `Printf`): descriptor chains under 16-bit wrap-around, and the integer printer against
  the parsers that read its output back.

Code that changes state is written as methods over arrays, linked nodes and fields. Each is proved against functions of
values, and the main theorems are lemmas about those functions. `Arith` has multiplication and division by a symbolic
size as repeated addition. `Witness` builds a heap and a volume from nothing that meet what the other modules assume.

`dafny verify dfyconfig.toml` checks the project.

Where the code does something other than its comments or names say, the model follows the code:

- `minix3_read_from_file` copies whole blocks; a read that stops before the end of the file inside a block writes past
  its buffer. `Minix3Read.CopiesFitIff` says exactly when it does not (src/minix3.c:1616-1628).
- `minix3_get_available_zone` never finds a zone again once its cursor ran off the end
  (`Minix3Disk.SearchOffTheEnd`, src/minix3.c:283-295).
- `minix3_is_inode_in_range` lets one number past the inode table through, so the search for a free inode can leave
  the table instead of wrapping (`Minix3Inodes.SearchLeavesTable`, src/minix3.c:107-108, 299-315).
- `minix3_rm` answers "is a directory" for a name that does not exist (`Minix3Dirs.Rm`, src/minix3.c:1226-1234).
- `minix3_rmdir` accepts the name ".": it then frees the directory and leaves its name in the parent
  (`Minix3Dirs.Rmdir`, src/minix3.c:1404-1438).
- `minix3_mkdir` under a directory of 65535 links wraps its link count (`Minix3Tree.LinksOverflow`, src/minix3.c:1359).
- `minix3_rmdir_check` looks up "." twice and ".." never (`Minix3Dirs.RmdirCheck`, src/minix3.c:1494-1498).
- `sched_walk_sleeping_list` passes over the head after every wake-up; `Sched.WalkLeaves` says exactly when an expired
  process stays asleep (src/sched.c:126-135).
- On two harts or more one process can fall behind without bound while another hart keeps its own
  (`Fairness.TwoHartsDrift`, src/sched.c:43-106).
- An address in the last bytes of a page, passed to `page_free`, frees from the next page on
  (`Page.Ram.LocationInside`, src/page.c:138-139).
- A poll for a request that the interrupt handler acknowledged before the poll read the index does not return, unless
  a much later request reuses its descriptors (`Virtqueue.BlockQueue.Poll`, src/block.c:287-311).
- A negative number printed with zero padding wider than 32 loses its sign (`Printf.DecimalRoundTrip`,
  src/printf.c:239-287).
- `page_znalloc` hands out page addresses shifted by the rounded bookkeeping size; `page_free` undoes the shift
  (`Page.Ram.LocationOf`, src/page.c:109-139).

## Model

| member | source | states |
|---|---|---|
| Block.SectorsCover | src/block.c:325-332 | the whole sectors around any byte range cover it and stay on a device of whole sectors |
| Block.BlockDevice.ReadWrite | src/block.c:166-198 | misaligned, backwards and empty requests are refused with their own codes and change nothing; any other request copies exactly the range it names, in the direction asked |
| Block.BlockDevice.ReadArbitrary | src/block.c:320-342 | a read at any byte offset delivers exactly those bytes of the device; it fails only for an empty aligned request |
| Block.BlockDevice.WriteArbitrary | src/block.c:344-371 | a write at any byte offset replaces exactly those bytes of the device and no others, although it moves whole sectors |
| Memory.Memcpy | src/utils.c:363-386 | the target range becomes the source range and nothing else changes |
| Minix3Layout.InodeRoundTrip | src/include/minix3.h:36-47 | decoding the 64 bytes of an encoded inode gives the inode back |
| Minix3Layout.SuperblockBytes | src/include/minix3.h:12-27 | the superblock's fields are the numbers at their offsets 1024 bytes into the disk |
| Minix3Layout.InodeBytes | src/include/minix3.h:36-47 | inode i is a struct of 16- and 32-bit numbers behind the boot block, a block and the two bitmaps |
| Minix3Layout.InodeMapBytes | src/minix3.c:46-77 | inode i is marked exactly when bit (i - 1) mod 8 of byte (i - 1) / 8 of the first bitmap is set |
| Minix3Layout.ZoneMapBytes | src/minix3.c:13-43 | likewise zone z in the second bitmap, counted from the first data zone |
| Minix3Layout.ZonePlace | src/minix3.c:262-268 | zone z is the z-th block of the disk |
| Minix3Layout.OnZoneBitWrite | src/minix3.c:124-186 | flipping one bit of the zone bitmap on the disk adds or removes exactly that zone and leaves inodes, inode bitmap and all zone contents alone |
| Minix3Layout.OnInodeWrite | src/minix3.c:1026-1060 | writing one inode's 64 bytes changes that inode only: no bitmap bit, no other inode, no zone |
| Minix3Layout.OnZoneWrite | src/minix3.c:1563-1579 | writing bytes inside a zone changes that zone's content only |
| Minix3Slots.NewSlotsAreNew | src/minix3.c:424-799 | growing a file by one zone fills exactly the new data slot and the pointer slots that start there, none of them in use before |
| Minix3Slots.FlatTable | src/minix3.c:424-643 | zones 0 to 6 of a file are named in its inode, the next ones in the block zones[7] names, the rest in the blocks the block zones[8] names |
| Minix3Slots.DoubleOf | src/minix3.c:586-680 | every index past the singly indirect zones has one row and one column in the doubly indirect table |
| Minix3Slots.GrownIsDense | src/minix3.c:347-364 | a dense file with one new zone in each of its new slots is dense with one more zone |
| Minix3Slots.GrowFirstIndirect | src/minix3.c:475-511 | hanging the first indirect pointer block and one entry in it extends the flat table by just that entry |
| Minix3Slots.GrowFirstDouble | src/minix3.c:545-643 | hanging a doubly indirect block, its first row and one entry extends the flat table by just that entry |
| Minix3Slots.GrowNewRow | src/minix3.c:571-643 | hanging a new row of the doubly indirect table extends the flat table by just one entry |
| Minix3Slots.GrowRow | src/minix3.c:595-643 | an entry in a row that exists extends the flat table by just that entry |
| Minix3Files.FileByteAt | src/minix3.c:1563-1636 | byte j of a file is byte j mod block size of its data zone number j div block size |
| Minix3Files.ReferencedOnce | src/minix3.c:347-364 | in an owned disk no zone is referenced twice, as data or as a pointer block, by one inode or by two |
| Minix3Files.GrowKeepsOwned | src/minix3.c:347-364 | a file that grew into fresh zones leaves every zone with one owner and every other file's table as it was |
| Minix3Files.WriteKeepsOwned | src/minix3.c:1509-1561 | writing inside a file's own data zones moves no pointer of any file |
| Minix3Files.RemoveKeepsOwned | src/minix3.c:801-846 | without a file its zones have no owner and all others keep theirs |
| Minix3Disk.SearchOffTheEnd | src/minix3.c:271-297 | a zone search that runs off the end of the disk stays at zone 1, below the data area, for ever |
| Minix3Disk.FileStore.GetSuperblock | src/minix3.c:997-1024 | the superblock fields are the little-endian numbers at their offsets 1024 bytes into the disk |
| Minix3Disk.FileStore.IsZoneOccupied | src/minix3.c:13-43 | true exactly for the zones in the bitmap, that is, when the zone's own bit in its byte of the disk is set |
| Minix3Disk.FileStore.IsZoneInRange | src/minix3.c:79-93 | true exactly for the zones of the data area |
| Minix3Disk.FileStore.SetZoneAs | src/minix3.c:124-186 | adds or removes one zone of the bitmap; a zone before the data area is refused |
| Minix3Disk.FileStore.SetZoneToZero | src/minix3.c:262-269 | that zone is all zeros and nothing else changes |
| Minix3Disk.FileStore.GetAvailableZone | src/minix3.c:271-297 | the lowest free zone at or after the cursor, zeroed, or none exactly when there is none ahead |
| Minix3Disk.FileStore.TakePointerBlock | src/minix3.c:475-494 | a free zone ahead becomes a marked zone of zeros; the rest of the volume stays |
| Minix3Disk.FileStore.GetInode | src/minix3.c:1026-1060 | the inode in the table; each of its fields is the little-endian number at its offset in the 64 bytes behind the bitmaps |
| Minix3Disk.FileStore.PutInode | src/minix3.c:1026-1060 | that entry of the table and no other part of the volume; afterwards each field stands at its offset in those 64 bytes |
| Minix3Walker.RemainingNext | src/minix3.c:424-447 | a walk's remaining size at the next index is what is left after one more block |
| Minix3Walker.ZoneWalker | src/minix3.c:424-799 | on a dense file a read walk gives the flat table's entry and the bytes left from that index on; a set walk at the end extends the flat table by exactly that entry, taking 0, 1 or 2 fresh pointer zones |
| Minix3Walker.Gzbars | src/minix3.c:367-393 | the index-th zone of the flat table and size - min(size, index * block size), changing nothing |
| Minix3Append.GetLastFileZone | src/minix3.c:326-345 | the index of the last zone of the file, 0 for an empty one |
| Minix3Append.AppendZone | src/minix3.c:347-364 | one more zone of zeros at the end of a file: ownership kept, exactly the new slots' zones marked, no other file's bytes touched |
| Minix3Append.AppendToFile | src/minix3.c:1509-1561 | the file becomes its old bytes followed by the new ones, every other file keeps its bytes, and the newly marked zones are exactly those the file now owns |
| Minix3Read.ReadFromZone | src/minix3.c:1563-1579 | the block of the file at that index, no further than its end |
| Minix3Read.CopiesFitIff | src/minix3.c:1581-1631 | the copies of a read stay inside its buffer exactly when the size is a multiple of the block size or the read runs to the end of the file |
| Minix3Read.ShortReadOverruns | src/minix3.c:1616-1628 | a 10-byte read of a 2048-byte file copies 1024 bytes into its buffer |
| Minix3Read.ReadFromFile | src/minix3.c:1581-1631 | exactly the asked-for bytes of the file; refused when unaligned or past the end |
| Minix3Read.ReadWholeFile | src/minix3.c:1633-1636 | all bytes of the file |
| Minix3Read.AppendThenRead | src/minix3.c:1509-1561 | reading the whole file after an append yields the old bytes followed by the new ones |
| Minix3Clear.HeldAll | src/minix3.c:801-846 | the zones a file of at most 7 + block size / 4 zones holds are those its direct slots, its indirect block and that block's entries name |
| Minix3Clear.ClearAllZones | src/minix3.c:801-967 | removing a file of at most 7 + block size / 4 zones unmarks exactly the zones it held, and every other file keeps its own |
| Page.AllocateKeeps | src/page.c:102-107 | allocating a free run keeps "last implies taken" and "taken and not last implies the next page is taken" |
| Page.CutKeeps | src/page.c:160-184 | cutting a run anywhere keeps them too |
| Page.CutAllocated | src/page.c:75-185 | cutting a fresh run at its first page gives back the state before the allocation |
| Page.BitWritten | src/page.c:22-55 | setting or clearing one of a page's two bits leaves every other page's bits alone |
| Page.CutMeans | src/page.c:158-185 | a cut frees the page and what follows it up to the end of its run, and the page before, if taken, ends a run now |
| Page.Ram.BitsAre | src/page.c:15-41 | the two accessors read membership in the taken and in the last pages |
| Page.Ram.PageInit | src/page.c:57-73 | the bookkeeping pages are one run and all others are free |
| Page.Ram.PageZnalloc | src/page.c:75-123 | the lowest run of n free pages starting in the first tenth of the heap, zeroed and taken as a run, its address, and exactly the bits set; NULL exactly when there is none |
| Page.Ram.LocationOf | src/page.c:109-139 | dividing an allocated address gives the page number back despite the rounded bookkeeping |
| Page.Ram.LocationInside | src/page.c:138-139 | an address inside a page counts for that page except in its last bytes, as many as the bookkeeping was rounded up by, which count for the next page |
| Page.Ram.PageFree | src/page.c:130-185 | of any address past the bookkeeping's first page: frees exactly the part of the run from the page it counts for on and re-ends what is before it; an address outside the heap and a double free change nothing |
| Mmu.LeafTarget | src/mmu.c:35-41 | an entry built from an address translates to that address's page plus the offset |
| Mmu.BranchTarget | src/mmu.c:53-58 | a branch entry leads back to the table it was made from and is no leaf |
| Mmu.EntryFlags | src/mmu.c:10-20 | an entry mmu_map makes holds the frame number from bit 10 on, below it exactly the flags asked for, and the valid bit |
| Mmu.Sv39Walk | src/mmu.c:105-145 | the lookup, word for word: bits 30-38, 21-29 and 12-20 of the address index the three tables, each named by the frame number in the entry above |
| Mmu.TranslateIsLookup | src/mmu.c:105-164 | in a tree without superpages translation is a lookup of the level-0 entry |
| Mmu.SamePageIs | src/mmu.c:29-34 | the table cannot tell two addresses apart exactly when they are the same page modulo 2^39 |
| Mmu.ForeignWrite | src/mmu.c:47-80 | writes outside the tables change no lookup |
| Mmu.LeafWritten | src/mmu.c:73-75 | a level-0 entry written changes the lookup of its own page only |
| Mmu.TableHung | src/mmu.c:50-71 | hanging an empty table changes no lookup |
| Mmu.PathInUse | src/mmu.c:48-71 | an entry above level 0 is valid exactly when its table exists |
| Mmu.MmuTranslate | src/mmu.c:105-164 | the loop computes the translation of the tree |
| Mmu.MmuSet | src/mmu.c:27-80 | only v's page looks up differently afterwards, to the new entry; exactly the missing tables are allocated, each a page of its own |
| Mmu.MmuMap | src/mmu.c:10-20 | v's page translates to paddr's page plus the offset, every other address as before; the page's entry is valid, carries exactly the flags asked for and holds the frame number; without a permission bit nothing happens |
| Mmu.MmuUnmap | src/mmu.c:22-25 | v's page translates to -1 and every other address as before |
| Mmu.SpanGrows | src/mmu.c:169-181 | mapping the next page extends a linear mapping by that page |
| Mmu.MmuMapMultiple | src/mmu.c:169-181 | start_vaddr + k translates to start_paddr + k for every k of the page-aligned range, every other address as before; every page's entry is valid with exactly the flags asked for and its own frame number |
| Mmu.MmuFree | src/mmu.c:82-103 | each table at and below the given one is passed to page_free exactly once, exactly their pages become free, and no other word than cleared leaves changes |
| HeapPages.HeapAgrees | src/kmalloc.c:163-186 | every heap page below kernel_heap_vaddr translates into its own taken frame that is no page table, and nothing from there on is mapped |
| HeapPages.KernelMemory.Load | src/mmu.c:105-164 | a load through the page table reads the word of the virtual heap |
| HeapPages.KernelMemory.Store | src/mmu.c:105-164 | a store through the page table changes that word of the virtual heap, and no word outside the heap's frames |
| HeapPages.KernelMemory.Grow | src/kmalloc.c:163-176 | zeroed pages appear behind the heap's end, backed by one run and mapped valid, readable and writable, or nothing changes, exactly when no run is free; a run that is free has to leave room for the page tables |
| HeapPages.KernelMemory.ShrinkPage | src/kmalloc.c:283-296 | the heap's last page is unmapped and its frame, and only that one, freed |
| HeapBlocks.Inserted | src/kmalloc.c:18-34 | inserting a node in address order keeps prev and next consistent with the longer list and changes only links |
| HeapBlocks.Unlinked | src/kmalloc.c:38-49 | deleting a node keeps them consistent with the shorter list and changes only links |
| HeapBlocks.TakeBlock | src/kmalloc.c:199-203 | taking a whole free block keeps tiling and list, and no other live payload changes |
| HeapBlocks.SplitBlock | src/kmalloc.c:190-198 | splitting a free block keeps tiling and list, its back part free, and no live payload changes |
| HeapBlocks.AddBlock | src/kmalloc.c:176-186 | the new pages become one free block at the end of tiling and list |
| HeapBlocks.FreeBlock | src/kmalloc.c:239-248 | putting a block back behind the free block before it keeps tiling and list |
| HeapBlocks.MergeBlocks | src/kmalloc.c:269-274 | merging two adjacent free blocks keeps tiling and list |
| HeapBlocks.CutBlock | src/kmalloc.c:288-289 | cutting a page off the last free block keeps tiling and list of the shorter heap |
| Kmalloc.Touching | src/kmalloc.c:269-274 | a free block ends at the next node exactly when the block behind it is free |
| Kmalloc.KernelHeap.InitKernelHeap | src/kmalloc.c:52-77 | one page: the list head and one free block that fills the rest |
| Kmalloc.KernelHeap.FirstFit | src/kmalloc.c:106-111 | the first free block that is large enough, or the head exactly when none is |
| Kmalloc.KernelHeap.CommonAlloc | src/kmalloc.c:95-219 | exactly one block becomes live, large enough and at most a header larger, the lowest free block that fits unless the heap grew; NULL exactly when no free block fits, or contiguous memory was asked for, and no run starts in the first tenth of the pages; other live payloads keep their words; a zeroing call leaves zeros |
| Kmalloc.KernelHeap.CoalesceFreeList | src/kmalloc.c:264-277 | no two free blocks stay adjacent and nothing live moves or changes |
| Kmalloc.KernelHeap.HeapShrink | src/kmalloc.c:280-296 | no free block of a page or more ends the heap, and exactly the frames of the pages given back are freed, across growth chunks |
| Kmalloc.KernelHeap.KFree | src/kmalloc.c:227-262 | exactly that block stops being live, every other live payload keeps its words, free neighbours are merged and whole pages at the end given back; NULL changes nothing |
| Uaccess.ByteAt | src/uaccess.c:11-73 | the byte at a physical address is the one of weight 256^(address mod 8) of its word |
| Uaccess.OffsetLinear | src/mmu.c:145-148 | translation is linear inside a page |
| Uaccess.CopyToOs | src/uaccess.c:42-71 | for a user range that maps into the page frames, whatever the rest of the table maps: 0 exactly when every byte was translated, and then byte j is the physical byte behind user + j; otherwise the bytes before the first untranslated address arrived |
| Uaccess.CopyToUser | src/uaccess.c:11-40 | the dual, for a range that maps to distinct bytes outside the tables: the bytes arrive behind the user's addresses, no other physical byte and no translation changes |
| ProcessList.InsertedSorted | src/process.c:463-540 | insertion keeps the list sorted by vruntime and adds exactly one process |
| ProcessList.List.Insert | src/process.c:463-540 | the links are those of the list with p before the first process of at least its vruntime; a null process is refused |
| ProcessList.List.Remove | src/process.c:399-434 | the links are those of the list without p's first occurrence |
| ProcessList.List.RemoveLowest | src/process.c:436-461 | the head's process leaves the list; null from an empty one |
| Sched.WalkFacts | src/sched.c:108-139 | a walk wakes only expired processes, conserves processes over both lists, keeps both sorted, and leaves no expired process past the head |
| Sched.WalkWakes | src/sched.c:108-139 | a walk wakes at least one process when any has expired |
| Sched.WalkLeaves | src/sched.c:126-135 | an expired process stays asleep exactly when the first two in the list had both expired, and then it is the second one, now at the head |
| Sched.SleepersAre | src/sched.c:79-82 | the sleeping list holds exactly the PS_SLEEPING processes that are on no hart |
| Sched.InvokeServes | src/sched.c:43-104 | sched_invoke dispatches, of the ready, the woken and the hart's own process if that is neither idle, asleep nor to be freed, one with the least vruntime, and the idle process when there is none; the others are ready, and no other field of any process changes |
| Sched.InvokePlaced | src/sched.c:43-106 | sched_invoke keeps every live process in exactly one place and idle processes on no list |
| Sched.InvokeFrees | src/sched.c:74-78 | a process that asked to be freed is nowhere once its hart invoked |
| Sched.SpawnPlaced | src/process.c:227-234 | process_spawn moves the process from in transit to its hart's current slot |
| Sched.ChangePlaced | src/syscall.c:41-74 | a running process that exits or goes to sleep keeps its place until its hart invokes |
| Sched.AddPlaced | src/sched.c:162-165 | adding a new process gives it the one place on the ready list |
| Sched.SchedInit | src/sched.c:14-41 | two empty lists and an idle process for every hart, each on its own hart but for hart 0's |
| Sched.BootPlaced | src/sched.c:14-41 | in the state sched_init leaves everything is in its place |
| Sched.RunPlaced | src/sched.c:43-106 | in every interleaving of any number of harts every live process is in exactly one of ready list, sleeping list, one current slot, or in transit to one hart |
| Sched.Scheduler.WalkSleepingList | src/sched.c:108-139 | the walk over linked nodes, with its restarts, computes the walk over sequences and terminates |
| Sched.Scheduler.ProcessFree | src/process.c:150-193 | a process still on a hart is only marked PS_ASYNC_FREE; any other one is gone |
| Sched.Scheduler.Invoke | src/sched.c:43-104 | the code over linked lists and arrays makes exactly the step of the world, serves the line by vruntime and keeps every process in its place |
| Sched.Scheduler.Spawn | src/process.c:227-234 | likewise for process_spawn's bookkeeping: the process is on the hart and charged its quantum of timer periods, nothing else about it changes |
| Fairness.CallFacts | src/sched.c:85-98 | whichever hart calls, with everybody ready: the one with the least vruntime among the ready and the hart's own is on its way there, the others are ready, and nobody else changes |
| Fairness.StartFacts | src/process.c:227-234 | starting it charges exactly one quantum to it alone |
| Fairness.SpreadKept | src/process.c:234-235 | on one hart max minus min vruntime never exceeds the larger of the initial spread and Q = 100 * 10000 |
| Fairness.SpreadKeptIff | src/sched.c:43-106 | for two processes or more, that bound holds over every run exactly when there is one hart |
| Fairness.TwoHartsDrift | src/sched.c:43-106 | two fresh processes on two harts: hart 1 keeps one while hart 0 calls twice, and they are two quanta apart |
| Fairness.RankMore | src/sched.c:43-106 | the bound of that theorem is the sum, over the other processes with no larger virtual runtime, of floor((v_p - v_q) / 1000000) + 1 |
| Fairness.DispatchedWithin | src/sched.c:162-177 | on any number of harts and in every interleaving, a waiting process stays ready and is dispatched after at most the sum over q with v_q <= v_p of floor((v_p - v_q) / Q) + 1 other dispatches, ties included, a quantum already on its way to q counted |
| Lock.Word.SemTry | src/lock.c:31-44 | succeeds exactly on a positive value; a failed try gives back what it took; the code makes exactly one step, or two, of the machine of the rows below |
| Lock.Word.SemPost | src/lock.c:55-61 | the step by which a client of that machine gives back |
| Lock.Word.MutexTry | src/lock.c:5-11 | one swap locks, and tells whether it was unlocked; it is exactly one step of the machine |
| Lock.Word.MutexPost | src/lock.c:21-28 | one swap unlocks; it is exactly the holder's step of the machine |
| Lock.SemStepSafe | src/lock.c:31-61 | each atomic operation keeps value + holders + failed tries not yet undone = N and holders at most N |
| Lock.SemRunSafe | src/lock.c:31-61 | so does every interleaving of any number of clients |
| Lock.MutexRunSafe | src/lock.c:5-28 | in every interleaving at most one client holds the mutex, and it is unlocked exactly when none does |
| Hart.StepSafe | sbi/src/hart.c:30-134 | each access of a hart keeps: with the lock free, MSIP is pending exactly in the passing states and every start but the one under way was launched |
| Hart.StatusMoves | sbi/src/hart.c:30-134 | status moves only STOPPED to STARTING to STARTED to STOPPING to STOPPED |
| Hart.NeverFailing | sbi/src/hart.c:82-89 | the error branch of the handler is never taken |
| Hart.Handshake | sbi/src/hart.c:30-134 | in every interleaving from boot: with the lock free, MSIP is pending exactly in STARTING and STOPPING, and the starts are the launches, each with its own target and frame, plus the one under way |
| Hart.HartTable.HartStart | sbi/src/hart.c:30-49 | the code, run alone, makes exactly the machine's steps; 1 when locked, 2 when not stopped, and else the hart is STARTING with target, frame and interrupt set |
| Hart.HartTable.HartStop | sbi/src/hart.c:53-74 | likewise; 2 when not started, and else the hart is STOPPING with target and frame cleared and the interrupt set |
| Hart.HartTable.HandleMsip | sbi/src/hart.c:76-134 | likewise; it clears the interrupt, launches the stored target and frame exactly from STARTING, and moves to STARTED or STOPPED |
| Virtqueue.ChainsDisjoint | src/block.c:226-231 | chains of two requests in one window of 85 share no descriptor, however often the index wrapped |
| Virtqueue.IndexWraps | src/block.c:226-231 | the 16-bit index modulo 256 is the place of the chain in the unbounded count |
| Virtqueue.FollowChain | src/block.c:259-276 | following next from the head visits h, h+1, h+2 modulo 256, and (h+2) % 256 is the status descriptor |
| Virtqueue.BlockQueue.Submit | src/block.c:226-281 | following next from the head meets header, data and status with lengths 16, the request's and 1, the device may write the status and, exactly for a read, the data; no live chain is disturbed |
| Virtqueue.BlockQueue.HandleIrq | src/block.c:382-405 | for everything the device finished, in order, the status byte looked at is that of just that request |
| Virtqueue.BlockQueue.Poll | src/block.c:284-309 | below 65536 requests, whatever the device finishes and the handler acknowledges meanwhile, a poll that returns returned after the device finished the caller's own request; with no later request it does not return when that was acknowledged before it began, and otherwise does within as many looks as unacknowledged requests were finished up to the own one |
| Printf.DigitCount | src/printf.c:308-317 | a number has at most k digits exactly when it is below base^k |
| Printf.BufferLargeEnough | src/printf.c:300-317 | 22 of the 32 characters suffice for every 64-bit number in bases 8, 10 and 16 |
| Printf.BinaryCut | src/printf.c:308-317 | in base 2 the high digits are lost exactly for numbers of more than 32 bits |
| Printf.OutRev | src/printf.c:198-227 | the buffer reversed, with spaces up to the width on the right side |
| Printf.NtoaLong | src/printf.c:298-321 | the loops print the number's digits, padding, prefix and sign as the format's rules define them |
| Printf.Matox | src/utils.c:231-280 | the value modulo 2^64 of a hexadecimal text with optional 0x, 0 for any other text |
| Printf.Matoi | src/utils.c:282-322 | the 32-bit value of a decimal text with optional minus, 0 for any other text |
| Printf.NumeralIs | src/printf.c:298-321 | the numeral printed is worth the number, has no leading zero and has its letters in the case asked for |
| Printf.Laid | src/printf.c:198-292 | with a width: blanks behind with -, zeros between sign and numeral with 0 up to width 32, blanks in front otherwise; the sign is -, +, a space or nothing |
| Printf.LaidHash | src/printf.c:254-276 | with # and no width: 0x, 0X or 0 between sign and numeral, nothing for 0 |
| Printf.HexRoundTrip | src/utils.c:231-280 | matox of %lx or %0<width>lx of v is v, for every 64-bit v |
| Printf.DecimalRoundTrip | src/utils.c:282-322 | matoi of %d or %0<width>d of n is n, for n in (-2^31, 2^31), exactly when n is not negative or the width is at most 32 |
| Minix3Entries.SameStr | src/utils.c:59-73 | two terminated strings compare as 0 exactly when they say the same before their NULs |
| Minix3Entries.FirstDifference | src/utils.c:59-73 | two strings that differ compare as the difference of the first bytes that do |
| Minix3Entries.Mstrcpy | src/utils.c:24-40 | the string and its NUL land at the destination and no other byte changes |
| Minix3Entries.EntryRoundTrip | src/include/minix3.h:49-54 | the 64 bytes touch and mkdir build decode to the number and name put in, for names shorter than 60 |
| Minix3Entries.EntriesAppend | src/minix3.c:1201-1202 | 64 more bytes at the end of a directory are one more entry, and all the others stay |
| Minix3Inodes.IsInodeOccupied | src/minix3.c:46-77 | true exactly for the inodes in the bitmap, that is, when the inode's own bit in its byte of the disk is set; false for inode 0 |
| Minix3Inodes.IsInodeInRange | src/minix3.c:95-112 | true from 1 up to one past the number of inodes |
| Minix3Inodes.SetInodeAs | src/minix3.c:198-260 | adds or removes one inode of the bitmap and changes nothing else; inode 0 is refused |
| Minix3Inodes.GetAvailableInode | src/minix3.c:299-315 | the lowest unmarked inode at or after the cursor, else the lowest of all |
| Minix3Inodes.SearchLeavesTable | src/minix3.c:299-315 | the search gives a number past the table exactly when that bit is unmarked and nothing free lies between the cursor and it (or at all, for a cursor beyond) |
| Minix3Inodes.SearchLeavesTableFor | src/minix3.c:107-108 | with two inodes, 2 taken and the cursor on 2, the search gives inode 3 although 1 is free |
| Minix3Inodes.SearchNeverEnds | src/minix3.c:299-315 | with every number marked, no turn of the search finds one |
| Minix3Lookup.ScanBlock | src/minix3.c:1088-1116 | the first live entry of one block with the name, and its inode |
| Minix3Lookup.GetInodeFromName | src/minix3.c:1062-1129 | the first match of the last block that has one, its inode, and code 0, 102 or 101 as it is a directory, something else or absent; 1 on a non-directory |
| Minix3Lookup.LookupIsView | src/minix3.c:1062-1129 | with unique names the block-by-block lookup finds an entry exactly when the directory, as a finite map, has the name, and then the one entry with it |
| Minix3Lookup.DirectoryBlock | src/minix3.c:1077-1098 | block k of a directory holds its entries from k * (block size / 64) on, and only empty entries past the directory's end, so no lookup sees a phantom |
| Minix3Lookup.DropInBlock | src/minix3.c:1261-1275 | the first entry of a block with the number loses it on the disk, and nothing else changes |
| Minix3Lookup.DropEntry | src/minix3.c:1250-1276 | over all blocks, exactly the one entry with the number is emptied and every other file and directory stays; on a directory already freed no file sees the writes |
| Minix3Nodes.NewInode | src/minix3.c:1179-1198 | marking an inode and writing a blank one there adds one node without contents and keeps the store consistent |
| Minix3Nodes.Relink | src/minix3.c:1358-1362 | writing an inode back with another link count changes that count only |
| Minix3Nodes.GiveUp | src/minix3.c:1235-1239 | freeing a file's zones and inode removes that node only and keeps the store consistent |
| Minix3Nodes.Overwrite | src/minix3.c:1266-1274 | writing inside a file's block k patches its bytes there; every other file says what it said |
| Minix3Tree.Reachable | src/minix3.c:1339-1384 | in a well-formed tree every node can be reached from the root by names |
| Minix3Tree.PathLeadsOneWay | src/minix3.c:1062-1129 | a path of names leads to one node only |
| Minix3Tree.OnePath | src/minix3.c:1151-1207 | and to one node leads one path only |
| Minix3Tree.AddKeepsTree | src/minix3.c:1151-1207 | a fresh plain file or a fresh directory under a new name keeps the directory invariant: unique names, live entries point at nodes, one name per node, ".." at the parent, link count 2 + subdirectories, no cycles |
| Minix3Tree.RemoveKeepsTree | src/minix3.c:1209-1284 | taking away a plain file or an empty directory and its one entry keeps it too |
| Minix3Tree.ViewAdded | src/minix3.c:1192-1202 | as a finite map, a directory with an entry more maps one new name to the new node |
| Minix3Tree.ViewRemoved | src/minix3.c:1266-1274 | as a finite map, a directory with an entry emptied has lost that name only |
| Minix3Tree.AddThenRemove | src/minix3.c:1151-1284 | creating a node and removing it again leaves the tree as it was but for one more empty entry |
| Minix3Tree.NameWithoutNode | src/minix3.c:1386-1481 | a tree that loses a node but keeps its name is no longer one |
| Minix3Tree.LinksOverflow | src/minix3.c:1359 | under a parent of 65535 links a new directory makes the count 0, and what is left is no well-formed tree |
| Minix3Tree.RunKeepsTree | src/minix3.c:1151-1481 | over any run of touch, mkdir under parents below 65535 links, rm, and rmdir of names other than ".", every tree on the way keeps the directory invariant |
| Minix3Tree.RunKeepsOthers | src/minix3.c:1151-1481 | over any such run, a node no operation names as directory or child is the same at the end |
| Minix3Dirs.TouchCommon | src/minix3.c:1151-1207 | 2 on a non-directory, 4 when the name exists, else the next free inode becomes an empty node with one link, named by one new entry at the end of the directory |
| Minix3Dirs.TouchReg | src/minix3.c:1133-1140 | 2 on a non-directory, 4 exactly when a live entry has the name, else 0: the inode is that of an empty regular file, the directory tree gains just that plain file and stays a well-formed tree on a consistent store; a refused call changes nothing and a successful one is a step of such a run |
| Minix3Dirs.Mkdir | src/minix3.c:1339-1384 | 2 on a non-directory, 4 exactly when a live entry has the name, else 0: the tree gains just that directory, holding "." and ".." and two links, and one link on its parent; what is left is a well-formed tree if and only if the parent's 16-bit link count did not wrap |
| Minix3Dirs.Rm | src/minix3.c:1209-1284 | 0 exactly when some entry of the directory leads the name to a plain file, whatever its length, 2 on a non-directory, 103 otherwise; on success the name and the node go, exactly the zones and the inode it held are free, and the tree stays well-formed |
| Minix3Dirs.RmdirCheck | src/minix3.c:1484-1505 | 0 exactly for a directory of two entries |
| Minix3Dirs.ClearZone | src/minix3.c:405-418 | the zone in that slot is unmarked; the pointer is cleared in memory only |
| Minix3Dirs.Rmdir | src/minix3.c:1386-1481 | 0 exactly when the name leads to a directory of two entries other than the root in a volume of blocks of 128 bytes or more, and 2, 101, 102, 104 and 105 each for its own case; on success it and its name go and exactly its zone and inode are free; what is left is a well-formed tree if and only if the name removed is not "." |
| Minix3Entries.EntryBytes | src/include/minix3.h:50-54 | directory entry x is a 32-bit number at byte 64x and the bytes from 64x + 4 up to a NUL or the end |
| Minix3Nodes.NodeIs | src/include/minix3.h:64-71 | a marked inode is a directory exactly when the top four bits of its mode are 4, and a file of bytes otherwise |
| Minix3Tree.StepMeans | src/minix3.c:1133-1481 | what touch, mkdir and the two removals do to the tree, written out entry for entry and link for link |
| Bytes.ByteOrder | src/include/minix3.h:12-54 | the numbers on the disk have their lowest byte first |
| Mmu.SuperTarget | src/mmu.c:133-146 | a leaf above level 0 translates to its frame plus the offset inside its 2 MB or 1 GB |
| Minix3Lookup.LastBlockIs | src/minix3.c:1081-1116 | the entry a lookup finds is the first of its block with the name, and no later block has one |
| Minix3Append.ZonesForNext | src/minix3.c:347-364 | each further data zone takes itself and, at the borders of the flat table, one or two pointer blocks |
| Virtqueue.WindowIsLargest | src/block.c:226-233 | chains of requests 85 apart share a descriptor |

## Left out

- Triply indirect zones: the code reads the doubly indirect block there (src/minix3.c:697, 912), so files end at 7 + p + p^2 zones, p = block size / 4.
- ClearAllZones: not for a file with doubly indirect zones, where the code reads past its buffer (src/minix3.c:881).
- Files with holes, and writing a zone over an existing one: every file is dense.
- A zone search that finds nothing ahead does not end in the code; `GetAvailableZone` returns None there, and appending asks for enough free zones ahead of the cursor.
- ReadFromFile: asks for the exact condition under which the copies stay in the buffer (`CopiesFitIff`); the code writes past it otherwise.
- The bitmap numbering is the code's own, not that of the MINIX 3 format; timestamps are the constants the code writes.
- GetAvailableInode: asks that some number is unmarked; `SearchNeverEnds` is the other case.
- TouchCommon: asks that the next free inode lies in the table (`SearchLeavesTable` says exactly when it does not) and that the directory has room for one more entry; so do TouchReg and Mkdir.
- Rm: asks that the file found has no doubly indirect zones, as `ClearAllZones` does.
- Names of 60 characters or more, which the code copies past the entry; `minix3_ls`, which only prints.
- Directories whose entries are not the code's own: the invariant asks for "." and ".." in the first two slots, as mkdir leaves them, of the root too.
- Products past 32 bits: the volume is asked to be small enough that no offset overflows.
- An inode passed by pointer is passed in and out as a value; buffers a C function allocates are fresh arrays.
- Messages printed by error branches, and the locks around calls that run alone.
- Page counts that are no multiple of 4, and a heap start that is not page aligned: the symbols are asked to be aligned.
- Running out of pages inside `mmu_set`, which does not look at the result of `page_zalloc`: mapping asks for enough free pages.
- Grow: when a run is free, asks that it lies inside the heap and leaves enough pages for the page tables the mapping lacks; so do CommonAlloc and InitKernelHeap, the last one also that a page is free.
- PageZnalloc: not for runs near the end of the heap, whose shifted addresses leave it: callers ask for runs inside.
- PageFree: not for addresses in the bookkeeping and its first page, where the code reads the bit of page -1.
- CopyToOs: asks that the user's range maps into the page frames; kernel text below them is not part of the memory modelled.
- CopyToUser: asks besides that the range maps to distinct bytes and to no page table.
- TLB fences, and `mmu_show_page_table`.
- kmalloc, kzalloc and kcalloc are `CommonAlloc` with the two flags they pass; sizes near 2^31, where the page count overflows an int, are excluded.
- Zeroing an allocation is modelled word by word; the kernel's buffer in `CopyToOs` and `CopyToUser` is an array of its own.
- ProcessFree: models only that the process is gone, not the pages and the heap memory it gives back (src/process.c:171-192).
- The console's `sched_add`, which takes no lock and can fall inside an invoke (src/main.c:482): it is a step of its own here, as every step is.
- `SchedInit` creates processes without their page tables, stacks and idle code.
- Timer programming, trap stacks, address-space identifiers and the trampoline in `process_spawn`; vruntime past 64 bits.
- `mutex_wait` and `sem_wait` are repeated tries; that a spinning client ever succeeds is not claimed.
- Poll: nothing is said of requests made by other harts meanwhile.
- The device side of the queue beyond finishing offered requests once each.
- Floating point, strings, and the parsing of formats in printf; the other copies of printf.
- PCIe, PLIC, UART, GPU, input, console, ELF loading, the VFS cache, ring buffers, regions and argument splitting.
