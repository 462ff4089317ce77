# Verified models of the bulbOS kernel core

bulbOS is a small 32-bit kernel. This project models seven of its parts in Dafny and proves
what each of them is for:

* **Kernel heap** (`HeapSpec`, `Vmm`): the intrusive first-fit free list of `vmm.c`, on
  memory words. Over every run of kmalloc and kfree, free nodes and live blocks tile the heap.
* **Hash table** (`Ring`, `HashSpec`, `HashTables`): linear probing with tombstones,
  erase-to-EMPTY, a load gate and rehashing. It refines a finite map.
* **Semaphores, condition variables, pipes, lock counters** (`SemaphoreSpec`, `Mutex`,
  `PipeSpec`, `PipeCalls`, `PipeRuns`, `TaskCounters`): protocols in which any unblocked task may take the next step.
  Ownership, arrival order, FIFO delivery, no lost byte or wake-up, guarded and never forgotten
  context switches.
* **Buffer cache, file contents, directories** (`Bio`, `Ext2Spec`, `Ext2`, `DirSpec`,
  `Directory`): the cache is built on the hash table and the file system on the cache. Every
  inode behaves as one byte sequence, and linking an entry is what parsing finds again.
* **Physical frames and page tables** (`Bits`, `Pmm`, `Paging`): bitmap search with
  double-word skipping, and the two-level tables of 32-bit paging (section 4.3 of the Intel
  SDM, volume 3A) on top of it.
* **Keyboard decoder** (`KeyTables`, `Keyboard`): a byte-at-a-time decoder that inverts the
  set-2 encoding of key events, whose codes are written down independently of the kernel's tables.
* **Arithmetic** (`Rtc`, `Itoa`): a closed-form leap-year count against a calendar counted
  year by year (section 4.16 of POSIX.1-2017 Base Definitions), and digits against positional value.

Modules named `...Spec` hold the values, the step functions and the theorems about them. The
other modules hold classes and methods with the source's loops and in-place updates, each
proved to do exactly what the corresponding function or step says. Where a desirable
property fails for the code as written, an `...Iff` lemma gives the exact condition under
which it holds, and a lemma beside it an input on which it fails.

Places where the code, its comments and its data formats differ; the model follows the code.

* Bitmaps of ext2 images: bit k of the block bitmap stands for block first_data_block + k, and
  first_data_block is 1 on every image with 1024-byte blocks, the size the kernel works with.
  `ext2_alloc` never reads that field and hands out the block whose number is the bit's
  (`src/kernel/fs/filesystem.c:86-97`). On such an image the block it hands out, and clears, is
  in use. The model's images may have either value; `Ext2Spec.AllocKeepsInvIff` shows that
  filling a hole is sound if and only if the field is 0. Reads, writes and links that need no
  new block are proved for both.
* Delimited pipe reads: the delimiter is a `char`, which is signed on the kernel's target, and is
  compared with the unsigned bytes of the ring (`src/kernel/fs/pipe.c:101,147`). A delimiter of
  0x80 or more never matches; `PipeRuns.DelimiterHonouredIff` shows that delimiters are honoured
  if and only if they are below.
* Disk addresses: the cache tells blocks apart by a 64-bit key, but the disk is addressed by a
  32-bit product and an 8-bit device number (`src/kernel/fs/bio.c:169,180`), so blocks 2^22 apart
  share their bytes. `Bio.PlacesDifferIff` gives the sizes up to which they do not.
* `page_get_phys_addr` is commented as never allocating, but it allocates a missing page table
  (`src/kernel/memory/page.c:71,90-94`).
* The last entry of the page directory names the directory itself
  (`src/kernel/memory/page.c:140-142`), so the last four megabytes of addresses are a window on
  the tables. Lookups and allocation are modelled there too: a page allocated in the window is a
  page table with whatever its frame contained. Identity mapping is modelled below the window;
  inside it, it would rewrite the directory (`Paging.IdentityKeepsTablesIff`).
* The branch of `vmm_list_alloc` that replaces a used-up node on purpose
  (`src/kernel/memory/vmm.c:121-126`) is never taken, because `vmm_get_node` only returns nodes
  with strictly more room.

## Model

| member | source | states |
|---|---|---|
| HeapSpec.EveryByteHasOneOwner | src/kernel/memory/vmm.c:19-134 | in a tiled heap every byte between start and end belongs to exactly one free node or one live block, and no byte outside belongs to any |
| HeapSpec.MergeCovers | src/kernel/memory/vmm.c:55-68 | merging gains and loses no free byte, whatever the list |
| HeapSpec.MergeSorts | src/kernel/memory/vmm.c:55-68 | merging keeps address order and the head, and leaves no node that ends where the next begins |
| HeapSpec.MergeIdempotent | src/kernel/memory/vmm.c:55-68 | a coalesced list is left alone |
| HeapSpec.MergeKeepsTiling | src/kernel/memory/vmm.c:55-68 | merging a tiled heap's list keeps the tiling and coalesces it |
| HeapSpec.InsertionPoint | src/kernel/memory/vmm.c:40-49 | the walk stops behind every node at or below the address and before the first node above it; the head is never compared |
| HeapSpec.InsertCovers | src/kernel/memory/vmm.c:40-49 | the free bytes after insertion are the old ones and the inserted node's |
| HeapSpec.InsertSorts | src/kernel/memory/vmm.c:40-49 | inserting a node that overlaps none keeps the list sorted |
| HeapSpec.InsertKeepsTiling | src/kernel/memory/vmm.c:222-230 | turning a block of at least eight bytes back into a node keeps the tiling |
| HeapSpec.ReleaseKeepsInvIff | src/kernel/memory/vmm.c:222-232 | kfree keeps the tiled and coalesced heap if and only if the block is at least eight bytes (four requested); below that the size wraps |
| HeapSpec.FirstFit | src/kernel/memory/vmm.c:72-79 | the first node with strictly more room than needed |
| HeapSpec.CarveKeepsInvIff | src/kernel/memory/vmm.c:115-133 | cutting a block from the tail of a node keeps the heap if and only if its header fits |
| HeapSpec.CarveTakesTheTail | src/kernel/memory/vmm.c:115-128 | the block ends where its node ended; no node moves and no other node changes |
| HeapSpec.GrowKeepsInv | src/kernel/memory/vmm.c:97-110 | one page appended and merged keeps the tiled and coalesced heap |
| HeapSpec.AllocKeepsInvIff | src/kernel/memory/vmm.c:84-134 | a successful allocation keeps the heap if and only if the size did not wrap; it adds exactly one block of the right size at an address that was not live, and failure keeps the heap |
| HeapSpec.GrowTail | src/kernel/memory/vmm.c:97-110 | a grown page lengthens the free tail of the heap, or starts one, and leaves every other node alone |
| HeapSpec.AllocFailsIff | src/kernel/memory/vmm.c:84-134 | kmalloc answers NULL if and only if no node fits and the free tail, grown up to the limit, would not fit either; then the heap is as large as it may be and no node fits |
| HeapSpec.RoomSuffices | src/kernel/memory/vmm.c:91-113 | a request with that much room below the limit is served |
| HeapSpec.MallocGivesTheBytes | src/kernel/memory/vmm.c:84-134 | a pointer from kmalloc has exactly the requested bytes behind it, in one new block; no other block changes |
| HeapSpec.ExecKeepsInv | src/kernel/memory/vmm.c:151-235 | every allowed operation, page-block growth that lowers the limit included, keeps the invariant and the start |
| HeapSpec.RunKeepsInv | src/kernel/memory/vmm.c:151-235 | so does every run |
| HeapSpec.EveryRunTiles | src/kernel/memory/vmm.c:19-180 | over every run from boot, with kheap_stack_end moving down, free nodes and live blocks tile the heap, the list is coalesced and its head is still at kheap_start |
| HeapSpec.LargeMallocGrows | src/kernel/memory/vmm.c:91-113 | kmalloc(5000) from boot does not fit the first page, and is served |
| HeapSpec.FreeTakesTheBlock | src/kernel/memory/vmm.c:199-235 | kfree takes exactly the block it is given from the live ones |
| HeapSpec.PageBlocksDescend | src/kernel/memory/vmm.c:151-180 | each page block is a new page below the earlier ones, until the heaps meet |
| HeapSpec.SmallFreeBreaks | src/kernel/memory/vmm.c:222-232 | kmalloc(1) from boot and its kfree break the heap |
| HeapSpec.WrappingMallocBreaks | src/kernel/memory/vmm.c:86-87 | kmalloc(2^32 - 4) from boot breaks the heap |
| HeapSpec.MergeRejoins | src/kernel/memory/vmm.c:55-68 | merging a coalesced list in which one node was cut in two gives the list back |
| HeapSpec.FreeUndoesMalloc | src/kernel/memory/vmm.c:115-119 | freeing a block just allocated without growth restores the heap exactly |
| HeapSpec.MallocThenFree | src/kernel/memory/vmm.c:184-235 | kmalloc without growth followed by kfree of its pointer is the identity |
| HeapSpec.NothingLiveLeavesOneNode | src/kernel/memory/vmm.c:226-231 | with no live block one node spans the whole heap |
| Vmm.LinkRep | src/kernel/memory/vmm.c:46-48 | the two pointer writes turn the list in memory into the list with the node linked in |
| Vmm.FuseRep | src/kernel/memory/vmm.c:61-63 | the two field writes turn the list in memory into the list with both nodes fused |
| Vmm.FuseStep | src/kernel/memory/vmm.c:58-67 | fusing the first touching pair does not change what the whole merge yields |
| Vmm.CarveRep | src/kernel/memory/vmm.c:115-128 | shrinking the node and writing the header leaves memory representing the carved heap |
| Vmm.KernelHeap.constructor | src/kernel/memory/vmm.c:19-30 | one page, one node |
| Vmm.KernelHeap.MergeFreeBlock | src/kernel/memory/vmm.c:55-68 | memory then holds the merged list, and no block header changed |
| Vmm.KernelHeap.SortedInsert | src/kernel/memory/vmm.c:39-49 | memory then holds the list with the node inserted, and no block header changed |
| Vmm.KernelHeap.GetNode | src/kernel/memory/vmm.c:71-79 | the address of the first fitting node, NULL exactly when there is none, with the trailing predecessor |
| Vmm.KernelHeap.FreeBlock | src/kernel/memory/vmm.c:226-231 | memory represents the released heap |
| Vmm.KernelHeap.Free | src/kernel/memory/vmm.c:199-235 | pointers outside the heaps are ignored; a list block, and no other, stops being live and is released as in the model, never by the page-block branch |
| Vmm.KernelHeap.LastNode | src/kernel/memory/vmm.c:105-106 | the last node of the list |
| Vmm.KernelHeap.GrowHeap | src/kernel/memory/vmm.c:97-110 | the heap grown by one merged page |
| Vmm.KernelHeap.ListAlloc | src/kernel/memory/vmm.c:83-134 | the allocator's answer and heap are the model's; NULL exactly when neither a node nor the grown tail fits, with the heap then at its limit; consistent unless the size wraps |
| Vmm.KernelHeap.TakeFrom | src/kernel/memory/vmm.c:115-133 | the block is carved as in the model; the branch for a used-up node is unreachable |
| Vmm.KernelHeap.BlockAlloc | src/kernel/memory/vmm.c:151-180 | the page right below the page-block heap, or NULL once the heaps have met; the list is untouched |
| Vmm.KernelHeap.ClientWrites | src/kernel/memory/vmm.c:116-119 | an owner that writes only its payload cannot damage the heap |
| HashSpec.HomeIsResidue | src/utils/hashtable.c:114-115 | hash and home slot differ by whole rounds of the table |
| HashSpec.UsedUpdate | src/utils/hashtable.c:171-174 | how one slot change moves the count of slots in use, tombstones included |
| HashSpec.EmptySlot | src/utils/hashtable.c:117-122 | fewer slots in use than slots means an EMPTY slot exists, which bounds every probe |
| HashSpec.StopIsKeySlot | src/utils/hashtable.c:159-166 | unless the key is shadowed by a tombstone, the slot ht_set stops at is the only one that can hold it |
| HashSpec.StoreRefines | src/utils/hashtable.c:156-175 | storing there is the map update and keeps every key reachable |
| HashSpec.StoreUniqueIff | src/utils/hashtable.c:159-174 | ht_set keeps keys unique if and only if the key does not sit behind a tombstone on its path; otherwise it stores a duplicate |
| HashSpec.SetBehindTombstoneDuplicates | src/utils/hashtable.c:159-199 | two keys with one home, the first removed, the second set again: it is stored twice |
| HashSpec.EraseReaches | src/utils/hashtable.c:193-199 | writing EMPTY when the next slot is EMPTY cuts no other key's path |
| HashSpec.EraseRefines | src/utils/hashtable.c:185-202 | erasing is the map deletion and keeps every other key reachable |
| HashSpec.EmptyMeansAbsent | src/utils/hashtable.c:117-124 | a probe that meets EMPTY before the key proves the key absent |
| HashSpec.GateSparesLastSlotIff | src/utils/hashtable.c:149-154 | the load gate always leaves one EMPTY slot if and only if capacity * (100 - max_load) > 100 |
| HashSpec.OverloadedIsARatio | src/utils/hashtable.c:149-149 | the gate is shut exactly when the share of slots in use exceeds max_load percent |
| HashSpec.GateFillsTwoSlots | src/utils/hashtable.c:149-175 | at 75 percent two stores into an empty table of two slots pass the gate and leave no EMPTY slot for an absent key to end at |
| HashSpec.RehashFits | src/utils/hashtable.c:137-141 | while entries are stored again the gate stays open, so a rehash never nests |
| HashSpec.DoublingMakesRoom | src/utils/hashtable.c:134-151 | after a rehash the gate is open for the entry that tripped it |
| HashSpec.WalkOn | src/utils/hashtable.c:114-121 | incrementing the index modulo the capacity visits the slots of the path in order |
| HashSpec.ModelsExtend | src/utils/hashtable.c:137-141 | one more slot copied extends the copied map by exactly that key |
| HashSpec.ModelsUnique | src/utils/hashtable.c:137-141 | the slots determine the map, so rehashing is the identity on maps |
| HashTables.FindPrime | src/utils/hashtable.c:22-32 | the first prime of the table above n; none exactly when all are at most n |
| HashTables.HashTable.constructor | src/utils/hashtable.c:43-51 | all slots EMPTY: the empty map |
| HashTables.HashTable.FindEntry | src/utils/hashtable.c:114-124 | the probe loop terminates and finds the key exactly when the map has it |
| HashTables.HashTable.Get | src/utils/hashtable.c:111-125 | ht_get is map lookup |
| HashTables.HashTable.FindStop | src/utils/hashtable.c:156-166 | the probe loop of ht_set terminates at the first slot that is not valid or has the key |
| HashTables.HashTable.PutAt | src/utils/hashtable.c:168-175 | one slot changes, size counts it if it was EMPTY, and the map is updated |
| HashTables.HashTable.Set | src/utils/hashtable.c:146-176 | refusal and abort each exactly under their condition; otherwise the map update, valid unless the key was shadowed; its measure rules out a nested rehash |
| HashTables.HashTable.EraseAt | src/utils/hashtable.c:191-201 | the slot, and no other, becomes EMPTY with the size one less if the next slot is EMPTY, a tombstone otherwise; the map loses exactly that key |
| HashTables.HashTable.Remove | src/utils/hashtable.c:178-206 | ht_remove is map deletion; it fails exactly for an absent key |
| HashTables.HashTable.Rehash | src/utils/hashtable.c:137-141 | the new array spells out the map of the old one, without tombstones and without growing again |
| HashTables.HashTable.Resize | src/utils/hashtable.c:127-144 | same map in an array of the first prime above twice the capacity, without tombstones and with an open gate; fails exactly when there is no such prime |
| HashTables.Create | src/utils/hashtable.c:34-52 | an empty valid table of the first prime above the demand under the load condition, with the 32-bit size computation; aborts exactly beyond the prime table |
| HashTables.Serve | src/kernel/fs/inode.c:95-116 | look up, store only if absent: answered as by a map, refused exactly when the gate is shut on a fixed table |
| HashTables.Run | src/utils/hashtable.c:111-206 | every sequence of such calls and removals is answered as by a finite map; it stops early only when the prime table is exhausted |
| SemaphoreSpec.StepKeepsInv | src/kernel/proc/mutex.c:31-72 | acquire and release keep: owners number current_count, at most max_count; waiters only when all units are taken |
| SemaphoreSpec.OwnersAndFairness | src/kernel/proc/mutex.c:31-72 | over every run from creation: owners number current_count; those handed a unit, then those still waiting, are the calls that found no free unit, in order; the owners are those who entered or were handed a unit and have not released it |
| SemaphoreSpec.ArrivalsAreCalls | src/kernel/proc/mutex.c:41-46 | the recorded arrivals of a run are the acquire calls, read off the run, that found no free unit |
| SemaphoreSpec.OwnersAreCallers | src/kernel/proc/mutex.c:31-72 | the owners of a run are accounted for by its acquire and release calls |
| SemaphoreSpec.MutualExclusion | src/kernel/proc/mutex.c:25-29 | a mutex never has two owners in any run |
| SemaphoreSpec.ReleaseKeepsInvIff | src/kernel/proc/mutex.c:58-72 | in every consistent state a release keeps the invariant if and only if the task owns a unit |
| SemaphoreSpec.StrayReleaseBreaks | src/kernel/proc/mutex.c:62-66 | a release of a fresh mutex, which nobody owns, wraps the count |
| Mutex.ChainAppend | src/kernel/proc/mutex.c:41-46 | linking a task behind the last one appends it to the intrusive list |
| Mutex.Semaphore.constructor | src/kernel/proc/mutex.c:11-23 | nobody owns, nobody waits |
| Mutex.Semaphore.AcquireBy | src/kernel/proc/mutex.c:31-50 | exactly the protocol's step on the list threaded through the tasks, despite the stale end pointer; enters exactly when a unit is free, otherwise becomes the last waiter |
| Mutex.Semaphore.ReleaseBy | src/kernel/proc/mutex.c:58-72 | exactly the protocol's step for any caller; the longest waiter is woken and owns the unit; consistent if and only if the caller owned one |
| Mutex.Scheduler.Unblock | src/kernel/proc/task.c:159-161 | the woken task goes to the front of the ready list, reusing its link |
| Mutex.Condvar.AddList | src/kernel/proc/mutex.c:94-105 | the walk ends at the last sleeper, which then points to the current task |
| Mutex.Condvar.Append | src/kernel/proc/mutex.c:116-120 | the current task is the last of the condition's sleepers |
| Mutex.Condvar.WakeAll | src/kernel/proc/mutex.c:151-157 | all sleepers are woken in order although unblocking overwrites the links being walked |
| Mutex.Condvars.Enqueue | src/kernel/proc/mutex.c:107-136 | the task sleeps on that condition only; a new condition gets a list of its own; other lists are untouched |
| Mutex.Condvars.Signal | src/kernel/proc/mutex.c:142-162 | exactly the sleepers of that condition wake |
| PipeSpec.FillLevel | src/kernel/fs/pipe.c:31-41 | the 32-bit counter tests for empty and full are exact, however often the counters wrapped |
| PipeSpec.StoreKeepsData | src/kernel/fs/pipe.c:41-41 | storing a byte in a pipe that is not full overwrites nothing unread |
| PipeSpec.TakeKeepsData | src/kernel/fs/pipe.c:99-119 | the byte taken is the oldest one not yet read |
| PipeSpec.RingHoldsTheRest | src/kernel/fs/pipe.c:27-45 | bytes read, then bytes in the ring, are all bytes written, in order |
| PipeSpec.AcquireIsSemaphoreStep | src/kernel/proc/mutex.c:52-56 | the pipe's mutex is a one-unit semaphore: acquiring is the semaphore's step |
| PipeSpec.ReleaseIsSemaphoreStep | src/kernel/proc/mutex.c:74-78 | so is releasing, by an owner as the semaphore demands |
| PipeSpec.WriterStepKeepsInv | src/kernel/fs/pipe.c:26-72 | every step of a writer keeps data, mutex and sleeper invariants, including blocking in mid-transfer |
| PipeSpec.ReaderStepKeepsInv | src/kernel/fs/pipe.c:88-158 | so does every step of a reader, counted or delimited |
| PipeSpec.CloseStep | src/kernel/fs/pipe.c:160-173 | closing the write side keeps the invariant until the readers are signalled |
| PipeSpec.SignalWakesItsSleepers | src/kernel/proc/mutex.c:142-162 | a signal wakes all who sleep on its condition and nobody else |
| PipeSpec.StepKeepsInv | src/kernel/fs/pipe.c:26-173 | every enabled step of every task keeps the invariant |
| PipeSpec.RunKeepsInv | src/kernel/fs/pipe.c:26-173 | every interleaving keeps the invariant |
| PipeSpec.PipeIsFifo | src/kernel/fs/pipe.c:26-123 | under every interleaving, bytes read followed by bytes buffered are the bytes written |
| PipeCalls.StepAccounts | src/kernel/fs/pipe.c:26-158 | one step of any task: what it was given is what it stores now and has yet to store, and its reads are those answered now, in their modes, and those still open |
| PipeCalls.OthersStay | src/kernel/fs/pipe.c:26-158 | no step changes what another task is in the middle of |
| PipeCalls.WritersLoseNothing | src/kernel/fs/pipe.c:26-72 | over every interleaving, what a task handed to pipe_write is what it stored, in order, followed by what its current call has yet to store, across every sleep in mid-transfer |
| PipeCalls.ReadsAreAnswered | src/kernel/fs/pipe.c:125-158 | over every interleaving, the reads of a task are answered in order, each in its own mode |
| PipeCalls.RepliesAreTrue | src/kernel/fs/pipe.c:88-158 | every reply was true when it was given: -1 with the write side closed, short with the pipe empty, otherwise with bytes left |
| PipeSpec.StepKeepsReads | src/kernel/fs/pipe.c:88-123 | bytes leave the ring only into the hands of the mutex owner and are returned in one piece |
| PipeSpec.ReadsAreSlices | src/kernel/fs/pipe.c:88-158 | under every interleaving each read returns one contiguous piece of what was written, right behind the read before it, all it asked for unless the pipe ran empty, and nothing behind a delimiter below 0x80; with another delimiter it empties the pipe |
| PipeSpec.NoLostWakeup | src/kernel/fs/pipe.c:31-39 | with nobody in a critical section, a reader sleeps only on an empty open pipe and a writer only on a full one, never both |
| PipeSpec.StandstillLeavesOneSide | src/kernel/fs/pipe.c:26-173 | if no task can move, the mutex is free, nobody waits for it, and all sleepers wait for the same side |
| PipeRuns.DelimiterHonouredIff | src/kernel/fs/pipe.c:94-103 | in every run, reads that meet their delimiter end there, if and only if it is below 0x80 |
| PipeRuns.HighDelimiterIsMissed | src/kernel/fs/pipe.c:94-103 | 1, c and 3 are written and read up to c of 0x80 or more: the read returns all three bytes |
| PipeRuns.ReadsPastDelimiter | src/kernel/fs/pipe.c:88-106 | with such a delimiter an undisturbed read empties the pipe, whatever is in it |
| PipeRuns.EmptyReadSleeps | src/kernel/fs/pipe.c:108-112 | a read of an empty pipe whose write side is open goes to sleep, to resume at its copy loop |
| PipeRuns.StrandedForEver | src/kernel/fs/pipe.c:131-134 | once the write side is closed and no read is under way, no run wakes a sleeping writer or reads a byte |
| PipeRuns.WriterWakesIff | src/kernel/fs/pipe.c:125-158 | a writer asleep at a standstill can still be woken, by some run, if and only if the write side is open |
| PipeRuns.ClosedWriterIsStranded | src/kernel/fs/pipe.c:160-173 | one byte too many is written and the write side closed: the writer sleeps for ever and the ring stays full |
| TaskCounters.CallBalanced | src/kernel/proc/task.c:259-302 | the code of lock, unlock, block and unblock is balanced at every nesting depth |
| TaskCounters.HandlerBalanced | src/kernel/proc/task.c:384-433 | a timer interrupt with the scheduler unlocked returns to the interrupted code in balance, whatever it wakes |
| TaskCounters.StepKeepsInv | src/kernel/proc/task.c:88-302 | every counter update keeps the invariant, with or without a switch |
| TaskCounters.RunsKeepInv | src/kernel/proc/task.c:88-302 | so does every run |
| TaskCounters.SwitchesAreGuarded | src/kernel/proc/task.c:167-190 | every real switch happened at lock 1 and postpone 0; whoever is not running is in no locked section and owes one unlock |
| TaskCounters.FlagIsDue | src/kernel/proc/task.c:167-178 | over every run the flag is up exactly when a task_schedule or an urgent wake-up fell into the open locked section, read off the actions of the run |
| TaskCounters.PostponedSwitchIsMade | src/kernel/proc/task.c:266-277 | the unlock that closes the outermost section may switch exactly when a switch became due inside |
| TaskCounters.LockOpens | src/kernel/proc/task.c:259-264 | task_lock raises both counters and nothing else |
| TaskCounters.BlockRequests | src/kernel/proc/task.c:279-286 | task_block inside a section makes a switch due and leaves the counters as they were |
| TaskCounters.UnblockRequests | src/kernel/proc/task.c:288-302 | task_unblock inside a section makes a switch due exactly if the wake-up is urgent |
| TaskCounters.BlockedTaskIsSwitchedOut | src/kernel/proc/task.c:259-286 | lock, block, unlock: the unlock gives the processor to whatever task is chosen |
| TaskCounters.HandlerContents | src/kernel/proc/task.c:384-433 | the timer handler wakes each sleeper once and asks for a switch exactly if the time slice is over |
| TaskCounters.ResumedTaskUnlocks | src/kernel/proc/task.c:135-139 | a resumed or new task's next update brings the lock counter back to 0 |
| TaskCounters.CountersAtRest | src/kernel/proc/task.c:96-105 | outside kernel calls both counters equal the open sections, and neither ever underflows |
| Bio.KeysDiffer | src/kernel/fs/bio.c:103-103 | different blocks have different cache keys |
| Bio.PlacesDifferIff | src/kernel/fs/bio.c:164-182 | all blocks have disk places of their own if and only if there are at most 256 devices of at most 2^22 blocks |
| Bio.BlocksShareAPlace | src/kernel/fs/bio.c:164-182 | blocks 0 and 2^22 have different buffers, but what is written to one is read from the other |
| Bio.WriteSparesOthers | src/kernel/fs/bio.c:177-182 | writing a block in range leaves every other buffer in agreement with the disk |
| Bio.ContentAfterWrite | src/kernel/fs/bio.c:164-182 | a write is what the next read of the place finds, and other places keep their contents |
| Bio.EvictKeepsCache | src/kernel/fs/bio.c:84-95 | dropping the last free buffer keeps the cache consistent and loses no referenced buffer |
| Bio.Buf.constructor | src/kernel/fs/bio.c:18-33 | one reference, not valid, for that device and block |
| Bio.Cache.constructor | src/kernel/fs/bio.c:213-220 | an empty cache over a valid fixed table |
| Bio.Cache.Evict | src/kernel/fs/bio.c:70-96 | the least recently released buffer goes, from list and table; fails exactly when none is free |
| Bio.Cache.Reference | src/kernel/fs/bio.c:113-114 | one more reference; an unreferenced buffer leaves the free list, whose order is kept |
| Bio.Cache.EvictAndEnter | src/kernel/fs/bio.c:129-134 | only unreferenced buffers are evicted until the new one is in, or none is left and the gate is still shut |
| Bio.Cache.Get | src/kernel/fs/bio.c:98-143 | a hit returns the cached buffer, a miss a fresh one, of that device and block; at most one buffer per block; abort only with the gate shut and nothing to evict |
| Bio.Cache.Read | src/kernel/fs/bio.c:164-175 | the last written contents of the block's place on the disk, whether cached, invalidated or evicted and fetched again |
| Bio.Cache.Write | src/kernel/fs/bio.c:177-182 | the contents reach the block's place on the disk and the buffer is invalidated |
| Bio.Cache.Release | src/kernel/fs/bio.c:145-162 | the last reference puts the buffer at the front of the free list |
| Ext2Spec.AllocKeepsInv | src/kernel/fs/filesystem.c:80-98 | with first_data_block 0 the block handed out was nobody's: owned blocks stay pairwise distinct, nonzero and unreserved, and the bitmap stays exact |
| Ext2Spec.AllocIsUnusedIff | src/kernel/fs/filesystem.c:86-97 | on every consistent image the block handed out is unused if and only if first_data_block is 0 |
| Ext2Spec.AllocKeepsInvIff | src/kernel/fs/filesystem.c:80-98 | filling a hole keeps the file system consistent if and only if first_data_block is 0 |
| Ext2Spec.OrdinaryImageLosesFile | src/kernel/fs/filesystem.c:86-97 | a consistent image with first_data_block 1 on which the first block of one file wipes another file |
| Ext2Spec.AllocKeepsBytes | src/kernel/fs/filesystem.c:200-206 | with first_data_block 0 filling a hole changes no byte of any file |
| Ext2Spec.PatchSplices | src/kernel/fs/filesystem.c:352-356 | copying a chunk into an inode's block splices it into that file |
| Ext2Spec.PatchSparesOthers | src/kernel/fs/filesystem.c:352-356 | and changes no byte of any other file |
| Ext2Spec.WriteTurn | src/kernel/fs/filesystem.c:348-358 | a turn of the write loop extends the splice of all earlier turns |
| Ext2Spec.OnlySpliced | src/kernel/fs/filesystem.c:360-361 | cut at the new size, the spliced blocks are the spliced file, and all other files are as before |
| Ext2Spec.ChunkIsSlice | src/kernel/fs/filesystem.c:326-328 | the bytes copied from one block are a slice of the file |
| Ext2Spec.FilledIff | src/kernel/fs/filesystem.c:200-206 | an inode whose holes between two offsets were filled is as it was if and only if there were none |
| Ext2.FirstClear | src/kernel/fs/filesystem.c:86-89 | the first clear bit below the limit |
| Ext2.ReadStaysInsideIff | src/kernel/fs/filesystem.c:313-317 | a read stays within the file if and only if offset + size does not wrap around |
| Ext2.WrappingReadOverruns | src/kernel/fs/filesystem.c:316-317 | a request near 2^32 bytes is not cut to the end of a ten-byte file |
| Ext2.SliceAt | src/kernel/fs/filesystem.c:310-317 | a read is cut at the end of the file, and byte k of it is byte offset + k |
| Ext2.FileSystem.ReadBlock | src/kernel/fs/filesystem.c:324-330 | the block's contents on disk, leaving no buffer dirty |
| Ext2.FileSystem.PatchBlock | src/kernel/fs/filesystem.c:350-357 | the block on disk with the data spliced in, nothing else changed |
| Ext2.FileSystem.BlockAlloc | src/kernel/fs/filesystem.c:69-108 | the first clear block, marked and zeroed; aborts only without a buffer or a clear bit |
| Ext2.FileSystem.GetIBlock | src/kernel/fs/filesystem.c:197-206 | the inode owns the block returned, a hole is filled and nothing else in any inode changes, and no file changed |
| Ext2.FileSystem.ReadTurn | src/kernel/fs/filesystem.c:322-331 | one chunk of the file; exactly the hole it met is filled, and no file changed |
| Ext2.FileSystem.WriteTurnAt | src/kernel/fs/filesystem.c:348-358 | the splice of all earlier turns extended by one chunk |
| Ext2.FileSystem.ReadContent | src/kernel/fs/filesystem.c:310-334 | the slice of the file that lies within its size; no file changes; inode table and inodes still agree if and only if the read met no hole |
| Ext2.FileSystem.WriteContent | src/kernel/fs/filesystem.c:336-365 | -1 beyond the end; otherwise the byte count, the data is spliced in, the size is the larger end, no other file changes, and saving the inode settles what only it differed in |
| Ext2.FileSystem.Serve | src/kernel/fs/filesystem.c:310-365 | any sequence of reads and writes on any inodes is answered, with bytes, counts and -1, as by separate byte sequences; with first_data_block 1, any that needs no new block |
| DirSpec.RecordFields | src/kernel/fs/filesystem.c:470-489 | the fields of a written record read back as written |
| DirSpec.RecordLayout | src/kernel/fs/filesystem.c:470-489 | the bytes of two records as they lie on disk |
| DirSpec.WalkAppends | src/kernel/fs/filesystem.c:446-447 | a walk over an unchanged prefix goes the same way and then finds the two rewritten records |
| DirSpec.LinkAppends | src/kernel/fs/filesystem.c:445-491 | when the entry fits the last slack, records tile again and the walk yields the old entries plus exactly the new one at its offset, with its type |
| DirSpec.NextBlockBreaks | src/kernel/fs/filesystem.c:460-464 | the next-block case leaves zeros behind the record: not a directory |
| DirSpec.NextBlockFields | src/kernel/fs/filesystem.c:460-490 | what does not fit goes to a block of its own behind the old ones, with a size short by the record itself |
| DirSpec.NoSlackBreaks | src/kernel/fs/filesystem.c:453-468 | with no slack at all the directory is no longer whole blocks |
| DirSpec.LinkKeepsDirectoryIff | src/kernel/fs/filesystem.c:445-491 | ext2_link keeps a directory well formed if and only if the entry fits into the last slack |
| DirSpec.PackedDirectoryBreaks | src/kernel/fs/filesystem.c:453-468 | a block whose last record has no slack: a directory, and none after linking any entry |
| Directory.FindLast | src/kernel/fs/filesystem.c:445-447 | the walk ends at the last record |
| Directory.ParseDir | src/kernel/fs/filesystem.c:517-531 | exactly the entries of the walk other than "." and "..", with offsets |
| Directory.ChildrenIff | src/kernel/fs/filesystem.c:524-525 | the children are the entries not named "." or ".." |
| Directory.LinkThenParse | src/kernel/fs/filesystem.c:438-537 | parsing after linking finds the old children and the new entry |
| Directory.WriteRecords | src/kernel/fs/filesystem.c:465-490 | the two writes leave the directory with the record spliced in and every other file unchanged |
| Directory.Link | src/kernel/fs/filesystem.c:438-496 | on the file system: the directory's bytes become the linked ones, every other file is unchanged, and the stored offset is returned |
| Bits.SetOneBit | src/kernel/memory/pmm.c:57-63 | setting a bit of a byte sets that bit and no other |
| Bits.ClearOneBit | src/kernel/memory/pmm.c:74-80 | clearing a bit clears that bit and no other |
| Pmm.DwordIsFull | src/kernel/memory/pmm.c:159-172 | a double word equals 2^32 - 1 if and only if all its 32 pages are taken |
| Pmm.SkipFullDwords | src/kernel/memory/pmm.c:168-180 | the first loop ends at a double word with a free page exactly when some page is free |
| Pmm.FirstFreeFrom | src/kernel/memory/pmm.c:182-185 | the second loop ends at the first free page round the ring |
| Pmm.SearchFreePage | src/kernel/memory/pmm.c:165-186 | from any start: a free page in range exactly when there is one, else BIT32_MAX |
| Pmm.MarkTakes | src/kernel/memory/pmm.c:196-196 | setting the bit takes exactly that page from the free ones |
| Pmm.UnmarkGives | src/kernel/memory/pmm.c:205-208 | clearing it gives exactly that page back |
| Pmm.FrameAllocator.SetBit | src/kernel/memory/pmm.c:57-63 | the bitmap with that bit set |
| Pmm.FrameAllocator.ClearBit | src/kernel/memory/pmm.c:74-80 | the bitmap with that bit cleared |
| Pmm.FrameAllocator.Alloc | src/kernel/memory/pmm.c:188-200 | a page nobody holds, NULL exactly when none is free; free and held pages together stay what was free at the beginning |
| Pmm.FrameAllocator.Release | src/kernel/memory/pmm.c:202-209 | the page is free; free and held pages are conserved if and only if the page was free at the beginning |
| Paging.EntryBits | src/kernel/memory/page.c:27-38 | address or-ed with flags is present and names the address's frame |
| Paging.EntryFlags | src/kernel/memory/page.c:57-84 | entries are present, writable and for user mode, and set no other low bit |
| Paging.WindowIsDirectory | src/kernel/memory/page.c:140-142 | the last entry shows the directory itself, and no other entry does |
| Paging.AddTableOk | src/kernel/memory/page.c:56-60 | a table in a free frame keeps entries naming distinct tables |
| Paging.AddTableExtends | src/kernel/memory/page.c:56-60 | and moves no address, window included; a cleared one maps nothing |
| Paging.SetEntryExtends | src/kernel/memory/page.c:84-84 | filling an absent entry keeps every existing translation |
| Paging.IdentityEntry | src/kernel/memory/page.c:101-114 | the entry written for an address of the table names that address's own frame |
| Paging.IdentityCoversIff | src/kernel/memory/page.c:116-133 | the loop of page_identity_map, all its turns, writes the entry of every address of the range if and only if the range, end included, lies in one table |
| Paging.SecondPageSkipped | src/kernel/memory/page.c:123-132 | a range of a whole table or more never gets its second page |
| Paging.FiveMegabytes | src/kernel/memory/page.c:123-132 | from address 0: the first page is mapped, the second is not |
| Paging.IdentityKeepsTablesIff | src/kernel/memory/page.c:101-114 | identity mapping within one table keeps the page tables consistent if and only if the table is not the window |
| Paging.WindowEntryLost | src/kernel/memory/page.c:101-114 | in the window the directory entry of the first page no longer names a table, and its four megabytes translate to nothing |
| Paging.AddressSpace.GetPt | src/kernel/memory/page.c:41-64 | the table is there unless missing and not to be allocated; translations unchanged; at most one new frame, distinct from all others |
| Paging.AddressSpace.InstallPage | src/kernel/memory/page.c:73-85 | a missing page gets a free frame and no other address moves |
| Paging.AddressSpace.InstallInWindow | src/kernel/memory/page.c:73-85 | a missing page of the window becomes a table with arbitrary contents, and no mapped address moves |
| Paging.AddressSpace.GetPtEntry | src/kernel/memory/page.c:66-88 | an entry that translates the address, in a fresh frame if it was missing; every earlier translation is kept; exactly the missing frames are taken |
| Paging.AddressSpace.MapAll | src/kernel/memory/page.c:66-88 | over any sequence of allocating calls: all mapped, nothing moved, all installed frames pairwise distinct |
| Paging.AddressSpace.GetPhysAddr | src/kernel/memory/page.c:90-97 | the translation the tables define |
| Paging.AddressSpace.IdentityPte | src/kernel/memory/page.c:101-114 | exactly the entries from the first to the last index are rewritten, none if the last is smaller |
| Paging.AddressSpace.IdentityTurn | src/kernel/memory/page.c:123-132 | one turn: exactly the addresses whose entries it writes translate to themselves |
| Paging.AddressSpace.IdentityMap | src/kernel/memory/page.c:116-133 | below the window, exactly the addresses whose entries the turns write translate to themselves and all others as before; within one table that is the whole range |
| KeyTables.TablesInvert | src/kernel/drivers/keyboard.c:119-153 | for every key of keyboard.h, the set-2 code written down for it is looked up as that key |
| KeyTables.TablesOnlyInvert | src/kernel/drivers/keyboard.c:119-153 | for every code, the tables hold the key of that set-2 code, and 0 for every code that is no key's |
| KeyTables.ModifierCodes | src/kernel/drivers/keyboard.c:219-245 | the keys that the handler singles out are those a keyboard sends with these codes |
| Keyboard.DecodeAppend | src/kernel/drivers/keyboard.c:268-298 | decoding a stream that ends with an empty buffer composes |
| Keyboard.DecodeSequence | src/kernel/drivers/keyboard.c:268-298 | bytes of which only the last completes an event are looked up once, together |
| Keyboard.DecodeOne | src/kernel/drivers/keyboard.c:155-201 | the set-2 bytes of one event decode to exactly it and leave the buffer empty |
| Keyboard.DecodeInvertsEncode | src/kernel/drivers/keyboard.c:268-298 | the bytes of any sequence of key events decode to exactly that sequence, with never more than eight bytes pending |
| Keyboard.RoomyIff | src/kernel/drivers/keyboard.c:117-118 | the eight-byte buffer suffices for a byte stream if and only if nowhere behind an event eight bytes stall and a ninth follows |
| Keyboard.NinePrefixesOverrun | src/kernel/drivers/keyboard.c:271-274 | nine prefix bytes overrun it |
| Keyboard.ShiftIsHoldXorCaps | src/kernel/drivers/keyboard.c:203-228 | across every run the shift flag is the held shift XOR the parity of Caps Lock |
| Keyboard.FlagsFollowKeys | src/kernel/drivers/keyboard.c:230-245 | across every run each other flag is up while the last event of its keys was a press |
| Keyboard.EmitIff | src/kernel/drivers/keyboard.c:247-264 | a key is sent on exactly when it is pressed and no modifier, with one bit for each flag that is up |
| Keyboard.Driver.Scancode | src/kernel/drivers/keyboard.c:268-298 | one byte does to buffer, flags and output what the decoder's functions say |
| Keyboard.Driver.Receive | src/kernel/drivers/keyboard.c:268-298 | any byte stream that does not overrun the buffer is decoded as a whole and drives the flags |
| Keyboard.Driver.Type | src/kernel/drivers/keyboard.c:268-298 | typing any events byte by byte yields them, with len back to 0 and the flags they imply |
| Rtc.LeapTermsCount | src/kernel/drivers/rtc.c:52-55 | for every year from 1970 the three terms count the leap years one by one |
| Rtc.DaysAreYearsAndLeaps | src/kernel/drivers/rtc.c:49-55 | days to a year are 365 a year plus the leap years |
| Rtc.MonthsMakeAYear | src/kernel/drivers/rtc.c:24-26 | the calendar's twelve months make its years |
| Rtc.MonthTable | src/kernel/drivers/rtc.c:24-30 | the month table is one day short exactly after the February of a leap year |
| Rtc.MonthToDays | src/kernel/drivers/rtc.c:19-33 | the days before a month of a common year |
| Rtc.AddYears | src/kernel/drivers/rtc.c:49-55 | the four year terms in 32-bit arithmetic are their exact sum modulo 2^32 |
| Rtc.ConvertDateToTime | src/kernel/drivers/rtc.c:35-56 | for years from 1970, modulo 2^32, the calendar's seconds plus the initial value, less a day after February of a leap year |
| Rtc.RightIffNoLeapDayMissed | src/kernel/drivers/rtc.c:17-56 | from the initial value 4 the result is the calendar's seconds plus 4 if and only if the date is in a common year or before March |
| Rtc.MarchFirst2024IsADayEarly | src/kernel/drivers/rtc.c:24-56 | the first of March 2024 is converted a day early |
| Itoa.DigitsEvaluate | libc-src/string/itoa.c:60-70 | the digits are below the base, evaluate back to the number and have no leading zero |
| Itoa.DigitChars | libc-src/string/itoa.c:62-67 | the characters of the sixteen digits |
| Itoa.TextReads | libc-src/string/itoa.c:62-67 | each place of the text is the character of the digit in that place |
| Itoa.CountDigits | libc-src/string/itoa.c:52-58 | the length loop counts the digits of every 32-bit value although it runs on an int |
| Itoa.WriteDigits | libc-src/string/itoa.c:60-70 | every digit position is written with its digit and no other position is touched |
| Itoa.Prefixes | libc-src/string/itoa.c:12-20 | sign first, then 0x |
| Itoa.NegatedIff | libc-src/string/itoa.c:13-16 | value - (value * 2) with wraparound is the negation if and only if the value is not the smallest int |
| Itoa.Uitoa | libc-src/string/itoa.c:44-74 | exactly the digits, terminated, with their number returned; "0" for zero |
| Itoa.SignedItoa | libc-src/string/itoa.c:4-42 | sign, 0x in base 16, then exactly the digits of the absolute value |

## Left out

- The stack of freed page blocks of vmm.c and the dispatch of kmalloc for zero and page-sized requests: kfree pushes the address of a stack-scoped literal. Only the growth of the page-block heap is kept, as the limit of the list's growth.
- Vmm.KernelHeap.FreeBlock: takes blocks of at least eight bytes only (requests of four); HeapSpec.ReleaseKeepsInvIff covers smaller ones on values.
- Vmm.KernelHeap.Free: as FreeBlock; page-block addresses are not freed.
- Vmm.KernelHeap.BlockAlloc: with no freed page on the stack; the branch that pops one is not modelled.
- Mapping a page for the grown heap and printing: calls into paging and the console have no effect on the list.
- HashTables.HashTable.Resize: takes the new slots as EMPTY; the source does not initialise them.
- HashTables.HashTable.Rehash: starts from EMPTY slots, as Resize.
- HashTables.HashTable.Set: no map semantics for a present key behind a tombstone; HashSpec.StoreUniqueIff shows that it is stored twice.
- The hash functions and key comparison are an uninterpreted function and equality; ht_remove's zeroing of a dead slot's key is not represented, since only valid slots' keys are read; ht_free.
- HashTables.Create: a valid table needs capacity * (100 - max_load) > 100 and a size computation that does not wrap.
- Mutex.Scheduler.Unblock: only the link; the task's state and the immediate switch of task_unblock are not represented here (TaskCounters covers when a switch may happen).
- task_block and task_unblock inside semaphores and pipes are taken by contract: a blocked task takes no step until it is unblocked. Time, sleep lists and termination are open choices of the scheduler.
- The ready queue of task.c beyond its front insertion (a preempted task is not queued again, the idle task can be dropped), task_force_switch, and interrupts other than the timer.
- TaskCounters.RunsKeepInv: runs nest fewer than 2^32 - 1 locks; a deeper nest would wrap the counter.
- The list of condition variables is a sequence; condvar_free is not part of this model.
- PipeSpec.PipeIsFifo: for pipes of size PIPE_SIZE whose read end stays open; block-buffered pipes (copy direction reversed), other sizes and the closed-reader path (mutex released twice) are not modelled, nor is the freeing of a closed pipe.
- LRU pointer splicing in bio.c and inode.c: the free list is a sequence. Eviction is not claimed to make progress, because tombstones count as load.
- Bio.Cache.Read: for blocks in range of the 32-bit disk address (Bio.PlacesDifferIff), and for a buffer without unwritten changes, which is what waiting for the buffer's mutex gives; a single block size and perfect disk reads and writes are assumed.
- Bio.Cache.Write: for blocks in that range; Bio.BlocksShareAPlace shows what happens beyond it.
- ext2 indirect blocks, truncation, freeing, unlink, inode allocation and indexing, and block groups beyond 0; the inode table on disk is a map that ext2_inode_update writes.
- Ext2Spec.AllocKeepsInv: for first_data_block 0; Ext2Spec.AllocKeepsInvIff shows that it is false for 1.
- Ext2Spec.AllocKeepsBytes: for first_data_block 0; Ext2Spec.OrdinaryImageLosesFile shows a file wiped for 1.
- Ext2.FileSystem.GetIBlock: with first_data_block 1, only for blocks that are there.
- Ext2.FileSystem.ReadTurn: the same.
- Ext2.FileSystem.WriteTurnAt: the same.
- Ext2.FileSystem.ReadContent: needs offset + size below 2^32 (Ext2.ReadStaysInsideIff shows that the code otherwise reads beyond the file) and, with first_data_block 1, a file without holes.
- Ext2.FileSystem.WriteContent: within the twelve direct blocks, so the test against MAX_FILE_SIZE never fires; with first_data_block 1, within the blocks the file has.
- Ext2.FileSystem.Serve: the same limits for every request.
- Directory.Link: only when the entry fits into the last slack of a directory that is not empty and, with first_data_block 1, has no holes; DirSpec.LinkKeepsDirectoryIff covers entries that do not fit, on bytes.
- The path cache that ext2_parse_dir fills (dir.c), file.c, syscall.c, the shell and the terminal.
- Pmm.SearchFreePage: page counts are multiples of 32; so in Pmm.SkipFullDwords and Pmm.FrameAllocator. pmm_setup_bitmap is not modelled.
- Pmm.SkipFullDwords: page counts are multiples of 32; with others the steps of 32 lose the alignment of the start.
- Pmm.FrameAllocator.Alloc: not after an exhaustion failure, which leaves a start beyond the bitmap.
- Paging.AddressSpace.GetPtEntry: needs as many free frames as are missing, since the source does not test the allocator's answer; so do Paging.AddressSpace.MapAll and Paging.AddressSpace.IdentityMap.
- Paging.AddressSpace.MapAll: counts the missing frames of each address by itself.
- Paging.AddressSpace.GetPhysAddr: needs a free frame if the table is missing.
- Paging.AddressSpace.IdentityTurn: below the window.
- Paging.AddressSpace.IdentityPte: below the window; Paging.IdentityKeepsTablesIff covers the window.
- Paging.AddressSpace.IdentityMap: ranges that end at the window or below it.
- Keyboard.Driver.Scancode: needs room in the eight-byte buffer, which the source does not test; Keyboard.RoomyIff says which streams leave it. Codes beyond the tables, which the source reads out of bounds, give no key.
- Keyboard.Driver.Receive: for streams that do not overrun the buffer.
- Rtc.ConvertDateToTime: says nothing about years before 1970, where the unsigned year wraps; the calls that read the clock are not modelled.
- Itoa.SignedItoa: 32-bit wraparound is assumed for value * 2, which overflows an int below -2^30; not for the smallest int, which Itoa.NegatedIff shows is left negative. printf is not modelled.
- IDE, PCI, APIC, HPET, CMOS, PS/2 and serial drivers, descriptor tables and all assembly; queue.c, memcpy, memset and strlen would only add easy members.
