# The Linux 0.11 kernel core, modelled and proved in Dafny

A model of the C parts of the kernel whose correctness is not visible in any one
function: memory shared copy-on-write, a cache that other tasks rearrange while one
sleeps, trees of disk blocks over a bitmap, queues built from local variables, and
counts that must agree with references scattered over tables. Code that changes things
step by step is a class whose methods have the code's loops and assignments; each is
proved against a function on values, and the theorems about whole runs are proved about
those functions and invariants.

| files | part of the kernel | main results |
|---|---|---|
| PageModel, PageSteps, KernelStores, CleanPages, CowMemory, CowProcesses | mm/memory.c, copy_mem, exit | copy-on-write refines eager copying, kernel stores to shared pages excepted, with the exact condition; page counts exact and bounded |
| ExecImages | try_to_share, do_no_page | a shared page is what would have been read from the executable, and exactly when it is not |
| BlockModel, MinixFs, FileRuns, BlockRaces | MINIX block map, bitmap, truncate, file_dev | files are byte arrays; every zone has exactly one owner, and exactly when overlapping creates or held blocks break that |
| BufferCache, BufferQueues | fs/buffer.c | the cache is transparent under all interleavings; chains and ring are exact |
| Elevator, RequestKeys | ll_rw_blk.c, blk.h | the pending list has at most one descent and one entry per queued buffer |
| WaitQueue | sleep_on, wake_up_last | no wakeup is lost |
| SchedulerModel, Scheduler | schedule, do_timer, sys_nice | two rounds suffice; no runnable task starves |
| TimerModel, TimerList | add_timer, do_timer | no timer fires twice or early; each fires at its tick plus the delays of smaller requests added meanwhile, which need not end |
| BucketMalloc | lib/malloc.c | free lists are the complement of disjoint live objects |
| DescriptorModel, Descriptors | open, fcntl, sys_pipe, fork, exit | counts equal references; a pipe counts 2 iff it has both ends |
| ProcessTable | find_empty_process, do_exit, sys_waitpid | pids are unique, fathers live |
| LineEditor, Tty | tty rings, copy_to_cooked, tty_read | cooked mode is a line editor |
| ExecModel, ExecArgs | copy_strings, create_tables, #! | the argument block round trip, and exactly when it overruns |
| Pipe | read_pipe, write_pipe | first in, first out for any readers and writers, short only when empty |
| ConsoleModel, Console | console.c | all displays show what a plain terminal shows |
| Counting | | finite sets |

`dafny verify dfyconfig.toml` checks everything. The kernel is not preemptive
(kernel/sched.c:334), so a step of an interleaving runs from one sleep point to the
next. References of the standards the code follows: canonical input is section 11.1.6 of
POSIX.1 (IEEE Std 1003.1), control sequences section 5.4 of ECMA-48.

## Model

| member | source | states |
|---|---|---|
| CowProcesses.Processes.Run | mm/memory.c:150-189 | in any run of forks, user stores, kernel stores, verify_area calls, faults, page sharing, execs, exits and waits each step shows every task the memory of a model in which fork copies every page at once, kernel stores excepted, and those exactly if nobody else maps the page or the byte was there; each is told beforehand by a count of 1; an operation fails only with the pages short that it needs; each step's clean pages, sharing and copies are as in Traced |
| CowProcesses.Isolation | mm/memory.c:221-259 | in that eager model no operation whose target is another task changes a page of this one, over whole runs; with Run, in the kernel too, as long as each kernel store meets the condition of KernelStoreEager |
| CowProcesses.StepIsolated | mm/memory.c:221-259 | one operation changes pages of its target slot only |
| CowProcesses.EagerTrace | mm/memory.c:150-189 | if each step of a run is eager, the run ends in the world of the eager model |
| CowProcesses.StepEager | include/asm/segment.h:25-38 | a step of a run is the eager model's iff it is no kernel store or meets that condition; a count of 1 is enough, step by step |
| CowProcesses.Processes.Verify | kernel/fork.c:25-38 | verify_area on a task's behalf changes nobody's memory and leaves each present page of the area writable; the pages copied are pages of the area whose frame has other users, in one slot all of those, and the copies are clean |
| CowProcesses.Processes.KernelStore | include/asm/segment.h:25-38 | put_fs_byte, and the kernel's stores to its own memory: it acts on one page of one task exactly if nobody else maps the page or the byte was there already; frame at least LOW_MEM and count 1, which could be tested, is enough |
| CowMemory.Mm.KernelStore | include/asm/segment.h:25-38 | the byte is written and the page marked dirty whatever the R/W bit says, with the same exact condition |
| KernelStores.KernelStoreAlone | include/asm/segment.h:25-38 | a kernel store that changes a byte leaves every other visible page alone iff no other visible entry maps the frame |
| KernelStores.KernelStoreEager | include/asm/segment.h:25-38 | it is the eager model's store iff that holds or the byte was there already |
| KernelStores.GuardIsAlone | mm/memory.c:226 | for a task's page from LOW_MEM up the condition is that its count is 1, what un_wp_page tests |
| KernelStores.SharedThenStored | mm/memory.c:324-333 | the failing input: through a page shared by fork, or by try_to_share between verify_area and the store (fs/read_write.c:64, fs/file_dev.c:28-39), the other task sees the store; so does task 1 the kernel's stores to the low frames it shares with slot 0 |
| KernelStores.StoredAt | include/asm/segment.h:25-38 | exactly those who map the frame see the new byte |
| CowProcesses.Processes.Fork | kernel/fork.c:40-63 | a fork gives the child the parent's view by mapping the parent's frames, clean pages for clean ones, and changes nobody else's; one that fails midway restores every page count and every view, and fails only with no more pages free than the parent has page tables |
| CowProcesses.Processes.SharePage | mm/memory.c:345-364 | a page is taken over from the last slot that runs the same executable and has it clean, and the receiver then sees the giver's bytes; 0 only if no task has such a page (the early exit for i_count below 2 is such a case) |
| CowProcesses.Processes.Fault | mm/memory.c:366-398 | a missing page comes from another task exactly if the executable covers it and some task has it clean, else from the disk contents given cut at end_data, or as zeros; nothing else changes in any view; failure only with at most one page free |
| CowProcesses.Processes.Exec | fs/exec.c:328-329 | exec empties the task's two address ranges and nobody else's |
| CowProcesses.Processes.Exit | kernel/exit.c:102-106 | exit gives back the slot's pages, and every other task keeps its view |
| CowProcesses.Processes.Release | kernel/exit.c:19-33 | reaping frees the task page; no view changes |
| CowMemory.Mm.constructor | mm/memory.c:400-412 | mem_init leaves counts exact: nothing mapped, nothing held |
| CowMemory.Mm.GetFreePage | mm/memory.c:63-83 | the page returned had count 0 and now has 1 and only zeros; 0 is returned only when no page is free |
| CowMemory.Mm.FreePage | mm/memory.c:89-99 | one use is given back; other counts, tables and views stay |
| CowMemory.Mm.FreePageTables | mm/memory.c:105-131 | exactly the entries of the range leave the view, no page becomes clean, and freeing the same range again changes nothing |
| CowMemory.Mm.CopyPageTables | mm/memory.c:150-189 | the target range sees what the source range sees, on the same frames and with clean pages for clean ones; a failure, only with fewer free pages than directories to copy, leaves what has been copied so far and the invariant |
| CowMemory.Mm.UnWpPage | mm/memory.c:221-238 | after a write fault the entry is writable and no view has changed; it is on its frame with its dirty bit if the frame's count was 1, else on a clean copy; false only with no page free, and nothing is changed then |
| CowMemory.Mm.WriteVerify | mm/memory.c:261-272 | kernel-mode writes get the same treatment, and absent pages none |
| CowMemory.Mm.VerifyArea | kernel/fork.c:25-38 | every present page of the area is writable afterwards, and no view changes; pages outside the area stay as they are, pages copied had a shared frame; false only with no page free |
| CowMemory.Mm.UserStore | mm/memory.c:247-259 | a store to a write-protected page first copies it: the storing task's byte changes, no other task's, and the page is not clean any more |
| CowMemory.Mm.PutPage | mm/memory.c:197-219 | the page becomes visible at that address and nowhere else |
| CowMemory.Mm.NewPage | mm/memory.c:274-282 | a fresh zero (or loaded) page is mapped, or taken back when there is none left for a table; false only with at most one page free |
| CowMemory.Mm.TryToShare | mm/memory.c:292-335 | 1 or, out of memory, -1 exactly if the giver has a present clean page there, which both then map; the receiver's view gains exactly it |
| ExecImages.ImagesShown | mm/memory.c:221-238 | over runs with honest disks every page that may be shared shows its executable's bytes at every point iff each step meets its condition: a verify_area copies only pages that show theirs, a kernel store writes the byte that was there or a frame no such page shares |
| ExecImages.FaultsTrue | mm/memory.c:366-398 | then every fault brings in what do_no_page would read, whether shared or read |
| ExecImages.StepShows | mm/memory.c:221-238 | one step keeps all shareable pages true to their executables iff it meets that condition; all other steps always do |
| ExecImages.FaultExact | mm/memory.c:308-335 | a page taken over is the page do_no_page would read iff the giver's page shows its image |
| ExecImages.VerifyShows | mm/memory.c:235 | un_wp_page's copy is clean whatever it copies: verify_area keeps the property iff each page it copies shows its image |
| ExecImages.VerifyBefore | mm/memory.c:226-230 | for an area within one slot, in terms of the state before: iff each present page of the area whose count is not 1 shows its image |
| ExecImages.VerifyGuard | mm/memory.c:226-230 | each present page of the area clean or with count 1 is enough |
| ExecImages.KernelStoreShows | include/asm/segment.h:25-38 | a kernel store keeps the property iff the byte was there or no other clean page of an executable maps the frame |
| ExecImages.StoreGuard | include/asm/segment.h:25-38 | a count of 1 is enough |
| ExecImages.StaleRun | mm/memory.c:308-333 | the failing run: a task writes to a page of its program and forks, verify_area is called for the child with no store behind it, and a third task of the same program that faults on the page is given the child's copy with the written byte |
| ExecImages.BootShows | mm/memory.c:400-412 | at boot nothing may be shared, so the property holds |
| CleanPages.ShareClean | mm/memory.c:325-333 | sharing copies the giver's dirty bit: the receiver's page is clean only if the giver's was |
| CleanPages.GuardStays | mm/memory.c:226 | a page with its frame to itself still has it when its turn in verify_area comes |
| CleanPages.SharedStays | mm/memory.c:226 | in an area of one slot, a page whose frame others use is still shared when its turn comes |
| PageSteps.ShareKeeps | mm/memory.c:173-184 | mapping a page once more, read-only on both sides, keeps counts exact and writable pages unshared |
| PageSteps.TakeKeeps | mm/memory.c:63-83 | taking a free page keeps the invariant and every view |
| PageSteps.InstallKeeps | mm/memory.c:169-171 | hanging an empty page table into the directory keeps the invariant and every view |
| PageSteps.MapHeldKeeps | mm/memory.c:197-219 | mapping a page the kernel holds turns its hold into a mapping; only that address changes |
| PageSteps.DropKeeps | mm/memory.c:120-125 | dropping an entry drops one use of its page and one address from one view |
| PageSteps.DropTableKeeps | mm/memory.c:126-127 | an emptied page table can be given back |
| PageSteps.FlagsKeep | mm/memory.c:226-230 | making an entry writable is right when its page has no other user |
| PageSteps.CopyOutKeeps | mm/memory.c:221-238 | replacing a shared page by a private copy keeps every view |
| PageSteps.StoreKeeps | mm/memory.c:240-259 | storing through a writable entry changes exactly one page of one view |
| PageSteps.GiveBackKeeps | mm/memory.c:89-99 | giving back a held page keeps the invariant |
| PageSteps.SoleUse | mm/memory.c:221-230 | a page at or above LOW_MEM with count 1 that an entry maps is mapped by that entry alone |
| PageSteps.CountsDetermined | kernel/fork.c:57-61 | counts are functions of tables and holds, so undoing a half-done fork restores them exactly |
| PageSteps.CountBound | mm/memory.c:57 | all mappings of a page sit at one offset of the task slots, so the count stays below NR_TASKS and its byte never overflows |
| FileRuns.Run | fs/file_dev.c:17-92 | over any run of reads, writes, appends and truncations, one call after the other, the files behave as byte arrays: reads return the latest bytes, gaps read as zero, no file disturbs another, and a write is short only on a full disk; ownership stays exact iff no file is truncated while somebody else holds a block of it |
| FileRuns.OwnershipExact | fs/inode.c:75-141 | with no orphaned zone a bit is set iff some inode slot or index entry names the zone, and then exactly one does; for orphans see MinixFs.TruncateTight, inside overlapping calls BlockRaces.ExactRuns |
| FileRuns.BmapInjective | fs/inode.c:75-141 | different blocks of different or equal files never map to the same zone |
| BlockRaces.ExactRuns | fs/bitmap.c:91-105 | over every interleaving of creates at the sleep in new_block, ownership is exact after every step, zones in flight included, iff every store found its place still some file's and still 0 |
| BlockRaces.StoreKeepsIff | fs/inode.c:101-107 | one store keeps ownership exact iff its place is still some file's and still holds 0 after the sleep |
| BlockRaces.StoredZone | fs/inode.c:75-141 | what a store does to every location: the place gets the zone, what hung below it is lost, the rest stays |
| BlockRaces.TakeKeeps | fs/bitmap.c:91-93 | setting a free bit puts one zone in flight and keeps ownership exact |
| BlockRaces.EmptyStoreByte | fs/bitmap.c:98-105 | a store into an empty place changes no byte of any file, whatever happened during the sleep |
| BlockRaces.OverlappingCreates | fs/inode.c:84-88 | the failing input: two tasks create the same block at once; the zone stored first keeps its bit and has no owner |
| BlockRaces.Undisturbed | fs/inode.c:84-88 | without interference the two halves are BlockModel's Attach |
| BlockModel.WordAfterSet | fs/inode.c:103-107 | storing one 16-bit entry of an index block changes that entry only |
| BlockModel.AttachAt | fs/inode.c:75-141 | attaching a new zone changes the zone of one location and of no other |
| BlockModel.AttachByte | fs/inode.c:75-141 | ... and no byte of any file, since the new block is all zero |
| BlockModel.AttachOwners | fs/bitmap.c:91-105 | exact ownership survives attaching a zone that was free |
| BlockModel.AttachKeeps | fs/inode.c:75-141 | the whole file system invariant survives an attachment |
| BlockModel.AttachOrphans | fs/bitmap.c:91-105 | attaching a new zone neither makes nor cures an orphan |
| BlockModel.PutBlockByte | fs/file_dev.c:73-84 | overwriting a data block changes the bytes of that block of that file only |
| MinixFs.FileSystem.FindFirstZero | fs/bitmap.c:31-45 | the first clear bit of a map block, or 8192 |
| MinixFs.FileSystem.NewBlock | fs/bitmap.c:76-106 | the lowest free zone, its bit set and its block cleared; 0 only when no in-range zone is free |
| MinixFs.FileSystem.Bmap | fs/inode.c:75-141 | the zone of a block; with create missing index and data blocks are made, content unchanged, and 0 only on a full disk; the sleep in new_block is taken apart in BlockRaces |
| MinixFs.FileSystem.FreeBlock | fs/bitmap.c:47-73 | clears exactly one bit, which is always found set, or none when another task holds the block in the cache |
| MinixFs.FileSystem.FreeInd | fs/truncate.c:12-28 | clears exactly the bits of an index block and the zones it lists, those held by others excepted |
| MinixFs.FileSystem.FreeDind | fs/truncate.c:31-47 | clears exactly the bits of a two-level index tree, those held by others excepted |
| MinixFs.FileSystem.Truncate | fs/truncate.c:50-67 | the bits cleared are those of the file's zones that no other task holds; the held ones keep their bit and lose their owner; the file is empty, every other file unchanged |
| MinixFs.FileZones | fs/truncate.c:50-67 | the zones of a file are its seven direct ones and its two index trees, each once |
| MinixFs.TruncatedBits | fs/truncate.c:50-67 | the three phases of truncate together clear the file's bits, the held ones excepted, and no other |
| MinixFs.EmptiedKeeps | fs/truncate.c:50-67 | emptying a file keeps one owner at most for each zone, and the other files' contents |
| MinixFs.TruncateTight | fs/bitmap.c:58-62 | after a truncation every set bit still has an owner iff nobody else holds a zone of the file |
| MinixFs.EmptiedOrphans | fs/bitmap.c:58-62 | the zones orphaned by it are the file's zones that others hold |
| MinixFs.HeldWhileTruncated | fs/bitmap.c:58-62 | the failing input: a reader asleep in bread on the file's first block while the file is truncated |
| MinixFs.FileSystem.FileRead | fs/file_dev.c:17-48 | the block loop returns the bytes of the file's content, zeros in holes |
| MinixFs.FileSystem.FileWrite | fs/file_dev.c:50-92 | the content afterwards is the old one overwritten, from the append or seek position, by the bytes accepted; fewer only when the disk is full |
| MinixFs.WriteKeeps | fs/file_dev.c:63-85 | one round writes its bytes into one file, grows i_size as needed, and leaves zeros beyond it |
| MinixFs.WrittenMore | fs/file_dev.c:63-85 | writing in two adjacent pieces is writing once |
| MinixFs.SameBitsKeeps | fs/bitmap.c:91-96 | a bit set past the last zone changes nothing that matters |
| BufferCache.RunTransparent | fs/buffer.c:191-303 | over every interleaving at the sleep points in which no failed transfer hits a re-dirtied buffer the invariant holds, and every block shows the last value a client wrote to it, else its initial disk contents, all along iff no write fails whose data the disk does not have |
| BufferCache.StepKeeps | fs/buffer.c:191-303 | each step keeps one buffer per block, exact counts and identities, and changes the view exactly as the client asked: eviction, reading, syncing and completion change nothing |
| BufferCache.RecheckSucceeds | fs/buffer.c:198-202 | the test after the wait in get_hash_table always succeeds |
| BufferCache.RetargetKeeps | fs/buffer.c:248-259 | giving a free, unlocked, clean buffer a new block loses nothing |
| BufferCache.AttemptKeeps | fs/buffer.c:215-237 | getblk from its label to its first sleep keeps everything |
| BufferCache.AfterWaitKeeps | fs/buffer.c:238-259 | getblk after a wait keeps everything, whatever others did meanwhile |
| BufferCache.IdentityChange | fs/buffer.c:215-259 | only a buffer with count 0, unlocked and clean is ever given a new identity |
| BufferCache.CacheAgrees | fs/buffer.c:277-291 | an up-to-date buffer holds what clients see; unlocked and clean, it equals the disk |
| BufferCache.QueuedApart | kernel/blk_drv/ll_rw_blk.c:106-143 | queued buffers stand for different blocks, so their elevator keys differ |
| BufferCache.FailureBreaks | kernel/blk_drv/blk.h:110-126 | end_request(0) keeps the invariant iff the buffer is not dirty; on a buffer dirtied again during its write it leaves dirty data marked invalid |
| BufferCache.FailureReached | kernel/blk_drv/blk.h:110-126 | the failing input, from boot with one buffer: getblk, fill, write started, queued, written to again, transfer failed |
| BufferCache.StepFaithful | kernel/blk_drv/blk.h:110-126 | one step changes the view exactly as the client asked iff it is not such a failure |
| BufferCache.FailedTransfer | kernel/blk_drv/blk.h:110-126 | otherwise a failed transfer keeps every view iff it was a read or the disk already has the data |
| BufferCache.InitInv | fs/buffer.c:361-394 | buffer_init establishes the invariant |
| BufferQueues.Buffers.constructor | fs/buffer.c:361-394 | all buffers in one ring in order, all hash chains empty |
| BufferQueues.Buffers.RemoveFromHash | fs/buffer.c:135-143 | exactly this buffer leaves its chain |
| BufferQueues.Buffers.RemoveFromFree | fs/buffer.c:144-151 | exactly this buffer leaves the ring, whose head moves on if it was the head |
| BufferQueues.Buffers.InsertIntoFree | fs/buffer.c:155-161 | the buffer becomes the last of the ring |
| BufferQueues.Buffers.InsertIntoHash | fs/buffer.c:162-169 | the buffer becomes the first of its chain, if it has a device; the store through the next buffer only if there is one |
| BufferQueues.Buffers.Retarget | fs/buffer.c:248-259 | the buffer leaves its old chain and joins the new one and the end of the ring |
| BufferQueues.Buffers.FindBuffer | fs/buffer.c:173-181 | the hash chain walk finds the buffer of a block iff there is one |
| BufferQueues.Buffers.PickVictim | fs/buffer.c:214-232 | the ring scan finds a free buffer of least badness iff a free buffer exists |
| BufferQueues.UnlinkKeepsChains | fs/buffer.c:135-143 | the unlinking assignments keep all chains exact |
| BufferQueues.UnlinkKeepsRing | fs/buffer.c:144-151 | ... and the ring a ring |
| BufferQueues.LinkKeepsChains | fs/buffer.c:160-170 | so do the linking ones for chains |
| BufferQueues.LinkKeepsRing | fs/buffer.c:155-159 | ... and for the ring |
| Elevator.Device.AddRequest | kernel/blk_drv/ll_rw_blk.c:65-87 | the request is linked in behind the first fitting place, the head is never displaced, and the pending keys have at most one descent; that its key is new follows from the cache, RequestKeys.FreshKey |
| Elevator.Device.FindSlot | kernel/blk_drv/ll_rw_blk.c:116-132 | writes find a free slot among the first two thirds, reads among all, from the end down |
| Elevator.Device.SectorDone | kernel/blk_drv/hd.c:259-262 | advancing the head by a sector keeps the queue's shape |
| Elevator.Device.EndRequest | kernel/blk_drv/blk.h:110-126 | the served head leaves, its slot is free, the rest keeps its order |
| Elevator.Device.constructor | kernel/blk_drv/ll_rw_blk.c:158-165 | no request pending, every slot free |
| Elevator.InsertKeepsShape | kernel/blk_drv/ll_rw_blk.c:77-84 | inserting where the walk stops keeps at most one descent |
| Elevator.TailKeepsShape | kernel/blk_drv/blk.h:110-126 | dropping the head keeps at most one descent |
| Elevator.AdvanceKeepsShape | kernel/blk_drv/hd.c:259-262 | moving the head up by one sector keeps at most one descent, as waiting requests start on even sectors |
| Elevator.StaysBelow | kernel/blk_drv/ll_rw_blk.c:77-84 | if no place fits before the end and some request is below the new one, the last is |
| Elevator.LinkKeeps | kernel/blk_drv/ll_rw_blk.c:77-86 | linking a slot behind another inserts it there in the list |
| RequestKeys.FreshKey | kernel/blk_drv/ll_rw_blk.c:106-143 | a locked buffer waiting for its slot has a key no pending request has, even if the head has moved one sector on; its hypothesis always holds, AlwaysFresh |
| RequestKeys.KeysDistinct | kernel/blk_drv/ll_rw_blk.c:106-143 | pending requests of different buffers have different keys |
| RequestKeys.EnqueueMirrors | kernel/blk_drv/ll_rw_blk.c:134-143 | after add_request the list again holds one request for each queued buffer |
| RequestKeys.CompleteMirrors | kernel/blk_drv/blk.h:110-126 | so it does after end_request |
| RequestKeys.AdvanceMirrors | kernel/blk_drv/hd.c:259-262 | and after the head's first sector |
| RequestKeys.OtherMirrors | kernel/blk_drv/ll_rw_blk.c:106-143 | and after every other step of the cache |
| RequestKeys.AlwaysFresh | kernel/blk_drv/ll_rw_blk.c:106-143 | over any run that starts with an empty list, a buffer about to be queued never has a key that is pending |
| WaitQueue.WakeUpReachesAll | kernel/sched.c:151-165 | after one wake_up_last every sleeper of that moment hangs under a running task, from which WokenInTime wakes it |
| WaitQueue.WokenInTime | kernel/sched.c:151-165 | a sleeper k links below a woken task has been woken once the tasks above it have run, k steps of them at most, whatever else happens |
| WaitQueue.SleeperHasOnePointer | kernel/sched.c:151-165 | a sleeper is held by exactly one queue head or saved tmp of its queue |
| WaitQueue.SleeperHasRoot | kernel/sched.c:151-165 | following those pointers up ends at the queue head or at a woken task, never in a circle |
| WaitQueue.RootHandsOver | kernel/sched.c:162-164 | when a woken task runs, the task it saved becomes the woken one |
| WaitQueue.ChainAsleep | kernel/sched.c:151-165 | everybody below the top of a chain is really asleep on that queue |
| WaitQueue.RunKeeps | kernel/sched.c:151-194 | all this holds after every interleaving of sleep_on and wake_up_last |
| WaitQueue.Kernel.SleepOn | kernel/sched.c:151-162 | the caller becomes head, saves the old head, and sleeps |
| WaitQueue.Kernel.AfterSchedule | kernel/sched.c:162-164 | the saved task, if any, is woken |
| WaitQueue.Kernel.WakeUpLast | kernel/sched.c:188-194 | the head is woken and the queue emptied |
| SchedulerModel.NoStarvation | kernel/sched.c:104-142 | without forks and priority changes a continuously runnable task waits through a bounded number of user-mode ticks, recharge included |
| SchedulerModel.BoundedWait | kernel/sched.c:332-335 | with a positive counter it runs before the others' counters are used up, and before the next recharge |
| SchedulerModel.WaitStep | kernel/sched.c:332-335 | each user-mode tick it waits through lowers the sum of the counters; nothing but a fork raises it |
| SchedulerModel.ScanBest | kernel/sched.c:125-134 | the search picks the last runnable task of largest counter, and slot 0 iff nothing else is runnable |
| SchedulerModel.RechargeSuffices | kernel/sched.c:136-139 | after one recharge a runnable task has a positive counter, and counters stay below twice the largest priority had |
| SchedulerModel.ScheduledKeeps | kernel/sched.c:104-142 | the task chosen has a positive counter none exceeds, or is idle with nobody runnable |
| SchedulerModel.StepKeeps | kernel/sched.c:332-383 | ticks, sleeps, wakeups, signals, nice, fork and release keep priorities positive and counters bounded |
| Scheduler.Kernel.Schedule | kernel/sched.c:104-142 | the endless loop ends in at most two rounds, and in one iff no recharge is needed |
| Scheduler.Kernel.DoTimer | kernel/sched.c:332-335 | the tick is charged, never below 0, and schedule() runs only from user mode |
| Scheduler.Kernel.SysNice | kernel/sched.c:378-383 | the priority changes only if it stays positive |
| Scheduler.Kernel.Run | kernel/sched.c:104-142 | every run is the one computed by the step functions, and keeps the bounds |
| TimerModel.InsertTimes | kernel/sched.c:286-300 | a new timer is due exactly when asked; those before it are undisturbed; those behind are late by its own remaining delta, no more |
| TimerModel.FiresOnce | kernel/sched.c:319-329 | no request fires twice, and none before the tick it asked for |
| TimerModel.FiresWhen | kernel/sched.c:272-329 | any waiting entry fires exactly when its remaining time and the sum of its delays have passed, and until then exactly that much is left of its wait |
| TimerModel.AddedTimes | kernel/sched.c:286-300 | an addition of d ticks delays an entry iff 1 <= d <= the time it has left, and then by what is left of d at the newcomer's place |
| TimerModel.PlaceBefore | kernel/sched.c:291-300 | a newcomer comes before an entry iff it asks for no more than the entry's remaining time |
| TimerModel.SlipsNone | kernel/sched.c:286-300 | the delays are 0 in all iff no addition met the test, which can be made at each call |
| TimerModel.Starves | kernel/sched.c:286-300 | the failing input: any number of rounds of add_timer(1) and a tick leave every waiting entry where it was, so that it never fires |
| TimerModel.FiresOnTime | kernel/sched.c:319-329 | over any run of ticks and additions a request for d ticks fires at its tick plus the delays it meets, given enough ticks, and on time iff no addition before asks for at most the time it has left |
| TimerModel.AddedKeeps | kernel/sched.c:272-303 | adding keeps deltas at least 1, nothing early, and every request waiting or fired once |
| TimerModel.TickedKeeps | kernel/sched.c:319-329 | so does a tick, and it fires at most one timer |
| TimerModel.StepsKeep | kernel/sched.c:272-329 | so does every run of both |
| TimerList.Clock.AddTimer | kernel/sched.c:272-303 | the swap loop on the array computes the insertion; it fails only with all slots in use, which are those on the list |
| TimerList.Clock.Tick | kernel/sched.c:319-329 | the loop over run-out timers removes the head iff it has run out, and no second one |
| TimerList.SwappedKeeps | kernel/sched.c:291-300 | one round swaps contents along the list and leaves links and slots alone |
| BucketMalloc.Allocator.Malloc | lib/malloc.c:117-173 | the object comes from the smallest size class that fits, was not live, and is now; errors only as the code has them |
| BucketMalloc.Allocator.FreeS | lib/malloc.c:182-231 | the object is no longer live and its page goes back iff nothing on it is live |
| BucketMalloc.Allocator.FindBucket | lib/malloc.c:189-202 | any size hint from 0 to the requested length leads to the owning bucket |
| BucketMalloc.Allocator.ThreadPage | lib/malloc.c:159-164 | the new page's free list runs through all its slots once and ends |
| BucketMalloc.Allocator.Release | lib/malloc.c:208-228 | an empty bucket is unlinked and no other |
| BucketMalloc.LiveDisjoint | lib/malloc.c:117-173 | live objects never overlap |
| BucketMalloc.FullListHasAll | lib/malloc.c:208-226 | a free list as long as the page has slots holds all of them |
| BucketMalloc.LastObject | lib/malloc.c:208-226 | a page goes back only when its last live object is freed |
| BucketMalloc.PopKeeps | lib/malloc.c:167-169 | taking the first free object keeps lists acyclic, counts exact and lists the complement of live objects |
| BucketMalloc.PushKeeps | lib/malloc.c:205-207 | so does putting one back |
| BucketMalloc.AddBucketKeeps | lib/malloc.c:140-166 | so does a new bucket on a fresh page |
| BucketMalloc.UnlinkKeeps | lib/malloc.c:208-228 | so does giving a page back |
| BucketMalloc.UserStoreKeeps | lib/malloc.c:205-206 | so does any store of the owner anywhere inside a live object |
| BucketMalloc.NoFreeWithin | lib/malloc.c:159-169 | no free object's link lies inside a live object |
| Descriptors.Run | fs/open.c:142-215 | after any interleaving of open, close, dup, dup2, pipe, fork and exit, every call answers with the lowest descriptors, or the error of the code exactly when it must, f_count is the number of descriptor slots naming the file, i_count that of its open files and other holders, and a pipe counts 2 iff both ends are named |
| DescriptorModel.PipeCount | fs/pipe.c:18-23 | a pipe inode's count is 1 or 2, and 2 exactly while some descriptor names each end |
| Descriptors.ShortReadMeansNoWriter | fs/pipe.c:18-23 | to a reader a count other than 2 means no descriptor names the write end, and one more dup cannot bring it back |
| Descriptors.Watch | fs/pipe.c:18-23 | over any further calls of all tasks, an end of a pipe that no descriptor names is named by none as long as the inode stays that pipe |
| Descriptors.Kernel.OpenReserve | fs/open.c:149-161 | lowest free descriptor and first free file, or EINVAL exactly when one is lacking |
| Descriptors.Kernel.OpenError | fs/open.c:163-167 | clearing slot and count is right, as nobody else can name the file yet |
| Descriptors.Kernel.OpenFinish | fs/open.c:186-191 | the file gets the inode and counts 1 |
| Descriptors.Kernel.SysCloseFd | fs/open.c:199-215 | one name goes, and with the last one the file's share of the inode; EINVAL if not open |
| Descriptors.Kernel.DupFd | fs/fcntl.c:18-34 | lowest free slot from arg on names the same file; each error exactly when the code has it |
| Descriptors.Kernel.Dup2 | fs/fcntl.c:36-40 | newfd is closed first in any case, so duplicating a descriptor onto itself fails with it closed |
| Descriptors.Kernel.PipeReserve | fs/pipe.c:77-97 | two files and two slots are taken iff two of each are free, otherwise the tables are as before |
| Descriptors.Kernel.PipeFinish | fs/pipe.c:104-110 | both ends are named and the inode counts 2 |
| Descriptors.Kernel.ForkSlots | kernel/fork.c:125-127 | the child's row equals the parent's and every count is right again |
| Descriptors.Kernel.ExitSlots | kernel/exit.c:114-116 | the row is empty, every other row and holder untouched, every count right |
| DescriptorModel.CloseKeeps | fs/open.c:199-215 | closing keeps all counts exact, pipe ends single, and never meets a zero count |
| DescriptorModel.AttachKeeps | fs/fcntl.c:31-33 | so does naming an open file once more |
| DescriptorModel.ReserveKeeps | fs/open.c:155-161 | so does reserving |
| DescriptorModel.UnreserveKeeps | fs/open.c:163-167 | so does giving a reservation up; the count cleared was 1 |
| DescriptorModel.PipedKeeps | fs/inode.c:231-245 | so does setting up a pipe with get_pipe_inode's count of 2 |
| DescriptorModel.ForkKeeps | kernel/fork.c:125-127 | so does each step of fork's loop |
| ProcessTable.Run | kernel/fork.c:140-152 | over all runs of fork, exit and wait, idle having forked init, pids are unique and every father is a living task; each call answers as it must: a fork fails only without a free slot or without pages, a wait reports, sleeps, or returns 0 or ECHILD exactly as its children are |
| ProcessTable.Table.NextPid | kernel/fork.c:144-147 | the retry ends after at most NR_TASKS + 1 tries, at the first pid after last_pid (wrapping to 1) that no task has |
| ProcessTable.HitMore | kernel/fork.c:144-147 | each rejected pid is in the way in a different slot |
| ProcessTable.Table.FindEmptyProcess | kernel/fork.c:140-152 | lowest free slot from 1 on, or EAGAIN iff there is none |
| ProcessTable.Table.Fork | kernel/fork.c:79-137 | the child is its parent's, with a pid nobody has, in the lowest free slot; on failure nothing changes |
| ProcessTable.BornKeeps | kernel/fork.c:84-89 | a birth keeps pids unique and fathers living |
| ProcessTable.Table.DoExit | kernel/exit.c:102-134 | all children go to init, the father gets SIGCHLD, init gets it for zombies inherited; no such task has father 0, so tell_father's other branch is not taken |
| ProcessTable.Table.TellFather | kernel/exit.c:83-100 | with a pid other than 0 that some task has, that task is told and no other; with none, or with 0, the caller is released |
| ProcessTable.ExitKeeps | kernel/exit.c:107-113 | an exit keeps pids unique and fathers living |
| ProcessTable.ReapKeeps | kernel/exit.c:19-33 | a zombie has no children, so releasing it orphans nobody |
| ProcessTable.Table.WaitPid | kernel/exit.c:146-193 | one scan: the last child with something to report is reported, a zombie reaped; else sleep, 0 or ECHILD exactly as some asked-for child is neither stopped nor dead |
| ProcessTable.Table.WaitAgain | kernel/exit.c:183-193 | after the sleep SIGCHLD is cleared; another signal pending gives EINTR, otherwise the scan is made again |
| Tty.Terminal.CopyToCooked | kernel/chr_drv/tty_io.c:145-228 | without case folding and echo, the queue afterwards is that of a line editor fed with the input consumed, which is everything or as much as fits; data stays the number of delimiters |
| Tty.Terminal.Cook | kernel/chr_drv/tty_io.c:150-225 | without case folding and echo, one character has the editor's effect: kill, erase, stop, start, signals, translation or append |
| Tty.Terminal.KillLine | kernel/chr_drv/tty_io.c:162-176 | back to the last newline or end-of-file character and no further |
| Tty.Terminal.ReadPass | kernel/chr_drv/tty_io.c:261-272 | characters leave in order up to the count wanted, the end of the queue, or behind an end-of-file character, and data stays right |
| Tty.TakenExact | kernel/chr_drv/tty_io.c:261-272 | a pass ends at the first such point, not a character earlier or later |
| Tty.ReadLeavesLine | kernel/chr_drv/tty_io.c:261-272 | reading completed lines leaves the line being typed open to erase and kill |
| Tty.Queue.PutCh | include/linux/tty.h:33-34 | appends to the ring's contents when it is not full |
| Tty.Queue.GetCh | include/linux/tty.h:31-32 | takes the first of the ring's contents |
| LineEditor.TypeAllKeeps | kernel/chr_drv/tty_io.c:162-190 | completed lines are a prefix of what they were ever after: erase and kill never cross a delimiter |
| LineEditor.EraseUndoes | kernel/chr_drv/tty_io.c:177-190 | text followed by as many erases leaves no trace |
| LineEditor.KillForgets | kernel/chr_drv/tty_io.c:162-176 | kill takes back all text since the last delimiter |
| LineEditor.SplitOf | kernel/chr_drv/tty_io.c:164-166 | a queue splits into completed lines and current line in one way only |
| ExecArgs.DoExecve | fs/exec.c:261-281 | the program is started only if its strings leave room, and then memory holds the vector (for a script: interpreter name, its argument, file name, argv[1..]) and the environment, with argc as the code counts it; it runs past its pages only if they do not fit, and out of memory only with pages or room short |
| ExecArgs.ArgumentsRead | fs/exec.c:46-70 | following argv[i] and envp[i] in that memory gives back string i with its NUL, and both tables end in 0 |
| ExecArgs.ArgPages.CopyStrings | fs/exec.c:104-152 | strings that fit stand packed below p in order, each with its NUL, and nothing else changed; given pages, the unsigned p wraps and an element past page[] is asked for exactly if the strings are longer than the room; 0 for p == 0 or no page |
| ExecArgs.RoomFits | fs/exec.c:124-133 | the copies in reverse order leave room iff all strings together are shorter than 128 kB less 4 |
| ExecArgs.TooLong | fs/exec.c:128-141 | the failing input: one argument as long as the pages |
| ExecArgs.EmptyVector | fs/exec.c:261-280 | a script started with argc 0 has its own name as first environment string |
| ExecArgs.CreateTables | fs/exec.c:46-70 | argc, argv and envp are stored below two tables that point at the strings, aligned and apart from them |
| ExecArgs.FillTable | fs/exec.c:59-68 | one loop's table: a pointer to each string found by its NUL, then 0 |
| ExecArgs.Splice | fs/exec.c:261-280 | the copies in reverse order add up to the spliced vector, and argc is its length |
| ExecArgs.ParseBang | fs/exec.c:235-256 | interpreter, its last path component, and the rest of the line as one argument |
| ExecArgs.ChangeLdt | fs/exec.c:154-177 | the argument pages are the top of the data segment, if there is room to map them |
| ExecModel.StringAt | fs/exec.c:59-62 | string i stands at its start in the block, up to its NUL |
| ExecModel.PutLongGets | fs/exec.c:56-58 | a word stored as four bytes reads back |
| Pipe.Converse | fs/pipe.c:13-69 | in any legal log of one reader and one writer who then closes: the reader has a prefix of what was written, at most PAGE_SIZE-1 bytes are in between, and a finished read has all it wanted or everything |
| Pipe.Run | fs/pipe.c:13-69 | for every interleaving of any number of readers and writers, each making any number of calls, with ends closing at any time: bytes read followed by bytes in the pipe are the bytes written, each task has the bytes of its own turns, and the log is that of the turns given: one event for each, with the contents and count the turn found, by which a read is short exactly if it finds the pipe empty with an end closed and a write breaks exactly if it finds it full with one closed |
| Pipe.Traffic.Take | fs/pipe.c:13-69 | each turn comes to exactly one event: a call begins, a task moves its bytes, an end closes, or nothing |
| Pipe.Traffic.LetRead | fs/pipe.c:17-37 | a reader's turn is logged as it was taken, on the contents and i_count it found |
| Pipe.Traffic.LetWrite | fs/pipe.c:47-66 | a writer's turn likewise |
| Pipe.Moving | fs/pipe.c:13-69 | a turn adds its bytes to those of its task's call and to no other task's |
| Pipe.HeadBeforeBytes | fs/pipe.c:58-65 | why a round is taken as one step: a reader let in between the move of head and the copy sees the write rightly iff the stale bytes happen to be the new ones |
| Pipe.TailBeforeBytes | fs/pipe.c:32-36 | and the reading side: a writer let in between the move of tail and the copy leaves the bytes right iff it overwrites none of them with another |
| Pipe.StaleRead | fs/pipe.c:32-36 | the failing input: a writer on a full pipe |
| Pipe.Inode.ReadRound | fs/pipe.c:25-37 | the bytes taken are the oldest in the ring, and taken plus ring is still all that was written |
| Pipe.Inode.WriteRound | fs/pipe.c:55-66 | the bytes added go behind the ring's contents, overwriting nothing unread |
| Pipe.ReadTurn | fs/pipe.c:17-24 | the turn takes a prefix of the contents; it ends short iff bytes are wanted, the pipe is empty and i_count is not 2, and sleeps iff it is empty with both ends open |
| Pipe.WriteTurn | fs/pipe.c:47-54 | the turn stays within the page; it breaks off iff bytes are left, the pipe is full and i_count is not 2, and sleeps iff it is full with both ends open |
| Pipe.Appended | fs/pipe.c:62-65 | a store at head and the wrap of head append to the contents |
| Pipe.Removed | fs/pipe.c:32-35 | moving tail drops the front of the contents |
| Console.SameScreens | kernel/chr_drv/console.c:445-605 | two displays that show the same, whatever their kind, show the same after any byte stream |
| Console.Screen.WriteAll | kernel/chr_drv/console.c:445-605 | the grid seen through origin, cursor and modes are those of a plain terminal fed the stream; pos, x, y, top, bottom stay right and every store is inside video memory |
| Console.Screen.Write | kernel/chr_drv/console.c:453-602 | one character of any state has the plain terminal's effect |
| Console.Screen.ScrUp | kernel/chr_drv/console.c:107-168 | region up one row with the last erased, by origin shift, by wrap-and-copy, or by copying, indistinguishably |
| Console.Screen.ScrDown | kernel/chr_drv/console.c:170-202 | region down one row with the first erased |
| Console.UpByOrigin | kernel/chr_drv/console.c:112-138 | moving origin and erasing one row is scrolling |
| Console.UpByWrap | kernel/chr_drv/console.c:115-129 | so is copying the screen back to the start of video memory |
| Console.UpInPlace | kernel/chr_drv/console.c:141-151 | so are the two string instructions on a region |
| Console.Screen.InsertCell | kernel/chr_drv/console.c:336-348 | the row's tail moves right by one cell, nothing else |
| Console.Screen.DeleteCell | kernel/chr_drv/console.c:363-376 | the row's tail moves left by one cell, an erased cell enters |
| Console.Screen.CsiJ | kernel/chr_drv/console.c:239-266 | erases from the cursor, to it, or all, and nothing else |
| Console.Screen.CsiK | kernel/chr_drv/console.c:268-297 | the same within the cursor's row |
| Console.Screen.GotoXY | kernel/chr_drv/console.c:88-95 | moves only to positions on the screen, or just right of it, after 32-bit wrap-around |
| ConsoleModel.UpRows | kernel/chr_drv/console.c:107-168 | row by row: outside the region unchanged, the last erased, the others their successors |
| ConsoleModel.DownRows | kernel/chr_drv/console.c:170-202 | row by row: outside the region unchanged, the first erased, the others their predecessors |
| ConsoleModel.EscapeSeven | kernel/chr_drv/console.c:505-508 | ESC 7 saves the cursor iff it is in column 55 or was saved there before, because the code tests x instead of c |
| ConsoleModel.EscapeEight | kernel/chr_drv/console.c:507-508 | ESC 8 goes back to the saved position iff the cursor is in column 56 or going back changes nothing; in column 55 it saves instead |
| ConsoleModel.CursorTo | kernel/chr_drv/console.c:509-564 | ESC [ row ; col H with decimal numbers moves the cursor to (col-1, row-1), 0 counting as 1, if that is on the screen, and has no other effect |
| ConsoleModel.ReadsNumber | kernel/chr_drv/console.c:521-523 | the digits of a number below 2^32 leave it in the current parameter |
| ConsoleModel.PrintAtMargin | kernel/chr_drv/console.c:455-466 | past the margin printing goes on at the start of the next row, after scrolling at the region's end |

## Left out

Abstractions that hold throughout:

- Hardware and assembly: port output, interrupts, the entry stubs, disk command sequences. A disk transfer is one step that copies data and calls end_request.
- Page tables are entries with named flags, not 32-bit words; the meaning of the present and R/W bits is that of section 5.2.4 of the Intel 80386 Programmer's Reference Manual.
- `invalidate()` has no effect, running out of memory (`oom`) and `panic` end the call with a failure result.
- C's `long` and `int` are unbounded except where wrap-around can be reached: pids, cursor coordinates and escape parameters.
- Bookkeeping the code does not have: `held` pages, inode holders `held`, reserved descriptors `pending` and `ready`, `peak` priority, timer `ticket` and `due`, the lists `chains`, `ring`, `order`, `fl`, `live`, the streams `written` and `taken`.

Memory:

- Pages above the installed memory, marked used for ever by mem_init.
- ExecArgs.ChangeLdt: put_page's failure for want of a page table, which change_ldt ignores; bread_page's contents are a parameter.
- CowProcesses.Processes.Run: kernel stores to pages that others map are not eager, in the code as in the model; in `Visible` the 640 kB of slot 0 are the kernel's own memory, which task 1 shares from the first fork on without a copy (init/main.c:12-18 keeps task 0 off its stack for that reason).
- CowProcesses.Processes.SharePage: the exit for an executable with i_count below 2 (mm/memory.c:350-351) is not a branch; each task running the executable holds one count of it, so there is then no other task to share with.
- CowProcesses.Processes.Fault: that a page shared shows the executable's bytes is false of the code (ExecImages.StaleRun); ExecImages.ImagesShown is the exact condition. What bread_page reads is a parameter.

Buffer cache and request queue:

- BufferCache: getblk, get_hash_table, sync_dev and the completion of requests are steps on values, not methods, since other tasks run at every sleep; the pointer work they do is in BufferQueues.
- Read-ahead, invalidate_buffers, check_disk_change and block_write, whose whole-block path sets b_dirt on buffers that are not up to date.
- BufferQueues.Buffers.InsertIntoHash: the store through b_next of an empty chain (fs/buffer.c:169) is guarded by a NULL test.
- Elevator: one device's queue; paging requests without a buffer, hard-disk errors and retries are not part of it.
- b_count is not limited to a byte.

File system:

- FileRuns.Run, FileRuns.OwnershipExact, MinixFs.FileSystem.Bmap: a call is one step, though new_block, bread and getblk sleep inside it and inodes are not locked. BlockRaces takes creates apart at the sleep of new_block; a truncate or a second write overlapping a call in its other sleeps is not modelled.
- MinixFs.FileSystem.FreeBlock, MinixFs.FileSystem.Truncate: which zones other tasks hold in the cache is a parameter, the same for all of one truncation; that truncation frees all zones of a file is false of the code (MinixFs.HeldWhileTruncated), with the exact condition in MinixFs.TruncateTight.
- Disk read errors, i_ctime, i_dirt and the panics for a buffer count other than 1 in new_block and free_block; a file read or written has been cut to the size _bmap can address.
- Path walking, directories, mounts, stat, ioctl and character devices.

Tasks, queues and timers:

- interruptible_sleep_on: a task that goes back to sleep behind a newer sleeper is in no chain.
- Callbacks run by do_timer add their own timers only after the loop; the floppy motor timers and the beep counter.
- TimerModel.FiresOnTime: that every timer fires is false of the code, which does not shorten the successor's delta in add_timer; Starves is a run in which one never does, and the exact time is stated instead.
- The reference counts of current directory, root and executable inodes are the `held` part of i_count; fork and exit change them in separate steps.
- Descriptors.Kernel.SysCloseFd: iput's wait for a locked inode is not a sleep point; pipe inodes are never locked, and for the others i_count only errs upwards meanwhile.
- ProcessTable.Table.Fork: idle forks once, before the runs begin (init/main.c:141), so no task from slot 2 on has father 0 and ProcessTable.Table.TellFather's release of the caller is not reached.
- ProcessTable.Run: idle and init do not exit; sessions, process-group signals and the accounting of times.

Characters:

- Tty.Terminal.CopyToCooked, Tty.Terminal.Cook: echo and case folding.
- Process-group signals beyond a log of what was sent, VTIME and VMIN, and tty_write's output translation.
- Tty.Terminal.ReadPass: no claim that a read ends at a newline, because tty_read's inner loop does not stop there.
- Console: addresses count cells of two bytes; the answer to ESC Z, the bell, set_origin and set_cursor. Columns are even and at least 8.
- Pipe.Run: a round is one step; page faults inside the copy loops, which come after the move of head or tail, are left out; Pipe.HeadBeforeBytes and Pipe.TailBeforeBytes say when they do no harm. SIGPIPE is the `broken` flag, and a broken write that got nothing away returns -1.
- ExecArgs.ArgPages.CopyStrings: the copy ends at the first use of an element past page[]; what the code then does to the memory behind it is not modelled. The test `p-len < 0` on an unsigned value (fs/exec.c:128) never fires.
- ExecArgs.DoExecve: reading the header, permissions and a.out checks.

Allocator:

- init_bucket_desc links descriptors one by one; here only their number is kept.

Where the code and its comments or evident intent part, the code is followed: the cursor save and restore of ESC 7 and ESC 8 (kernel/chr_drv/console.c:505-508), kernel stores behind a verify_area (fs/read_write.c:64), the clean copy un_wp_page makes of a written page (mm/memory.c:235), the length test of copy_strings (fs/exec.c:128), truncation of a file whose blocks are in use (fs/bitmap.c:58-62), the store after the sleep in _bmap (fs/inode.c:84-88), dup2 onto itself (fs/fcntl.c:36-40), stopped children that sys_waitpid does not count (kernel/exit.c:165-167), the successor's delta in add_timer, and the failed write of a re-dirtied buffer.
