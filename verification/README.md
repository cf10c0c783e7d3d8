# WivOS kernel mechanisms in Dafny

WivOS is a small x86-64 kernel. This project models the parts of it where a stateful
mechanism has to agree with something simple, and proves that it does:

- **Address spaces** (`PageEntries`, `PageTables`, `AddressSpaces`, `Translation`, `Unmapping`,
  `Fork`, `LargeCopy`, `Teardown`): four-level page tables in frames of words, as in section 4.5 of the Intel
  SDM, volume 3A. Memory is one sequence of frames, a table tree is a ghost map from table
  positions to frames, and mapping, unmapping, translation, fork copy and teardown are loops over
  that memory. Mapping and unmapping are changes of a flat view (one leaf word per page); the copy
  of a space is equal to it and isolated from it, whatever both sides store; copy followed by teardown
  restores the frame bitmap bit for bit.
- **Frames and heap** (`FrameAllocator`, `Heap`): first-fit allocation in a bitmap, and kmalloc,
  kfree and krealloc with their headers in page memory.
- **NVMe** (`NvmeCache`, `NvmeQueue`): a write-back cache that is indistinguishable from a flat
  disk, and the phase-tag protocol of a queue pair (section 4.6 of NVM Express 1.4).
- **Virtqueue** (`Virtqueue`): split virtqueues (section 2.7 of VIRTIO 1.2) with synchronous requests.
- **Scheduler and events** (`Scheduler`): a step system for any number of CPUs. One call of
  `scheduler_schedule` is one step, because it holds three locks throughout.
- **Program start** (`ExecStack`, `UserLoads`, `StackMapping`): the initial stack of section 3.4.1 of the
  System V AMD64 psABI, in the frames behind its page mapping, read back by loads through the page tables.
- **Pipes and packets** (`Memory`, `Pipe`, `Wakeup`, `Packets`): a byte FIFO in a reallocated
  buffer, the blocking read as a system of small steps, and message framing on top.
- **Fast forms** (`Crc32`, `Fat32`, `Strings`): table-driven CRC-32, cluster-wise file reads,
  word-at-a-time search and the tokenizer built on it.

`Bits`, `ByteSeqs` and `Common` hold what these share: bit masks on natural numbers, little-endian words.

Code that changes state is modelled by classes and methods with loops; each method is proved
against functions or predicates on values, and the lemmas are about those. I/O, clocks, the
device side of a protocol and the order of interrupts are parameters or environment steps.

## What does not hold as one might expect

Where the code does not do what its purpose suggests, the model follows the code and states
exactly when the expectation is met.

- `vmm_get_phys` keeps the no-execute bit in its result, so it gives the physical address exactly
  for executable pages (`Translation.SmallTranslatesIff`). For an unmapped page under a bottom table
  it returns the offset in the page instead of NULL (`Translation.UnmappedTranslation`), so mapping
  one page can change what it returns for an unmapped neighbour (`Translation.OthersKeepTranslation`).
- A 2 MiB mapping translates right at every byte exactly if the physical start is 2 MiB-aligned and the
  no-execute bit is clear (`Translation.LargeTranslatesIff`).
- `vmm_unmap` clears exactly the pages it consumed unless the range starts inside a 2 MiB page and
  covers 512 pages (`Unmapping.Unmap`, `Unmapping.MidLargeNotExact`).
- `vmm_free_pml4` leaves exactly the frames of 2 MiB leaves allocated, so a space comes back whole if
  and only if it has none (`Teardown.TeardownLeaks`, `Teardown.FreePml4`).
- The guard page below the stack of thread 204 lies under another bottom table than the stack. Unless that
  table was there before, the guard page is not unmapped: with a 2 MiB page over it the unmapping is refused
  and the thread keeps that page, and otherwise it goes through the missing table (`StackMapping.CreateStack`).
- `vmm_copy_pml4` copies a 2 MiB page into any free run of 512 frames, so `vmm_get_phys` on the copy gives
  the place of every byte exactly if that run is aligned and the page executable (`LargeCopy.CopyLarge`).
- A failed `pmm_alloc` clears memory from physical address 0 on. Heap blocks survive that exactly if
  those with a header in the cleared frames are empty (`Heap.FailureSurvivedIff`).
- `krealloc` of an empty block to more than 2^64 - 4096 bytes takes the in-place path, because ROUND_UP
  wraps; the block stays sound exactly outside that case (`Heap.InPlaceIff`, `Heap.EmptyBlockWraps`).
- A wait without a deadline can end although no event has come: `event_timeout` is cleared only when it expires,
  so the deadline of an earlier wait that an event ended still counts (`Scheduler.StaleDeadlineWakes`). A wait
  lasts until an event exactly if the thread carries no deadline that passes before (`Scheduler.AwaitCall`,
  `Scheduler.DeadlineMakesReady`).
- A failed NVMe command leaves the completion head in place; every later call returns that failure at
  once (`NvmeQueue.QueuePair.SendCommandAndWait`).
- An event is incremented as a 16-bit word. A sleeping pipe reader whose bytes are there has a positive
  event exactly if the number of pending notifications is not a multiple of 65536
  (`Wakeup.NoLostWakeup`, `Wakeup.WrapLosesWakeup`).
- `fat32_read` computes the right length exactly if the offset is not past the end of the file and
  offset plus size does not wrap in 64 bits (`Fat32.ReadSizeRightIff`).
- The FAT32 specification says to ignore the upper four bits of a table entry; the code does not mask
  them. It follows the same chain exactly if they are clear or the entry ends the chain anyway
  (`Fat32.ReservedBitsIff`, `Fat32.ReservedBitCutsChain`).
- With all 512 slots of `ActiveTasks` in use, the scan reads behind the table exactly if it starts
  after the last slot (`Scheduler.Kernel.GetNextTask`).

## Model

| member | source | states |
|---|---|---|
| `FrameAllocator.Pmm.IsFree` | kernel/mem/pmm.c:71-78 | a run is reported free exactly if all its bits are clear and inside the bitmap |
| `FrameAllocator.Pmm.FirstFit` | kernel/mem/pmm.c:80-87 | the index returned is the first multiple of the alignment where the run fits, or past the end |
| `FrameAllocator.Pmm.AllocAdvanced` | kernel/mem/pmm.c:80-99 | exactly the bits of a run that was clear are set, the counter drops by the run, no earlier aligned run fitted; on failure nothing changes and nothing fitted |
| `FrameAllocator.Pmm.Free` | kernel/mem/pmm.c:101-110 | exactly the bits of the run are cleared and the counter grows by the run; free plus used is conserved if the run was in use |
| `FrameAllocator.RunIsCounted` | kernel/mem/pmm.c:88-91 | a run that fits is covered by the free-page counter, so the counter never goes negative |
| `PageEntries.AddrMask` | kernel/mem/vmm.h:8-9 | the address mask keeps exactly the frame field of an entry |
| `PageEntries.FlagMask` | kernel/mem/vmm.h:8-9 | the flag mask keeps exactly the low 12 bits and bit 63 |
| `PageEntries.SmallWord` | kernel/mem/vmm.c:113-113 | a 4 KiB leaf word made by OR is present and gives back its frame and its permissions |
| `PageEntries.LargeWordFields` | kernel/mem/vmm.c:106-106 | a 2 MiB leaf word made by OR is present and large, and gives back its frame and all its permission bits |
| `PageEntries.TableWord` | kernel/mem/vmm.c:68-70 | the entry that the code ORs together for a new table is the frame address plus the flag value 7 |
| `PageEntries.TableWordFields` | kernel/mem/vmm.c:68-73 | that entry is present, not large, and leads back to the frame of the table |
| `PageEntries.OffsetsArePath` | kernel/mem/vmm.c:52-63 | the four masked and shifted indices are the base-512 digits of the page number |
| `PageEntries.AddressRoundTrip` | kernel/mem/vmm.c:321-329 | indices to address and back give the same indices |
| `PageEntries.PageRoundTrip` | kernel/mem/vmm.c:321-329 | address to indices and back gives the start of the page |
| `PageTables.OneKind` | kernel/mem/vmm.c:105-114 | a page has a 4 KiB leaf or a 2 MiB leaf, never both |
| `PageTables.SetLeaf` | kernel/mem/vmm.c:113-113 | storing a bottom-table word changes one page of the flat view and keeps the tree well formed |
| `PageTables.AddTable` | kernel/mem/vmm.c:65-74 | linking a zeroed frame as a table changes no page of the flat view |
| `PageTables.SetLarge` | kernel/mem/vmm.c:106-106 | storing a 2 MiB leaf or clearing one changes the 512 pages of its region and no other |
| `AddressSpaces.Vmm.PmmAlloc` | kernel/mem/pmm.c:65-69 | the run is zeroed and newly used; on failure the frames at address 0 are zeroed instead |
| `AddressSpaces.Vmm.GetOrAlloc` | kernel/mem/vmm.c:65-74 | an existing table is followed, a missing one is added in a fresh frame, present, writable and open to the user, and the flat view stays; it fails only if no frame is free |
| `AddressSpaces.Vmm.MapSmall` | kernel/mem/vmm.c:85-114 | one 4 KiB page gets its leaf word and every other page keeps its words; it fails only if no frame is free |
| `AddressSpaces.Vmm.MapLarge` | kernel/mem/vmm.c:85-107 | one 2 MiB region gets its leaf word and every other page keeps its words; it fails only if no frame is free |
| `AddressSpaces.Vmm.MapAdvanced` | kernel/mem/vmm.c:85-129 | over any conflict-free range, exactly the pages of the range are mapped to consecutive frames and only new tables take frames; it fails only if no frame is free |
| `Translation.WalkIsView` | kernel/mem/vmm.c:227-262 | the table walk computes its result from the leaf words of the flat view |
| `Translation.SmallTranslates` | kernel/mem/vmm.c:227-262 | after a 4 KiB mapping every byte translates to phys plus offset, with the no-execute bit kept |
| `Translation.SmallTranslatesIff` | kernel/mem/vmm.c:261-261 | the translation is the physical address exactly if the no-execute bit is clear |
| `Translation.LargeTranslates` | kernel/mem/vmm.c:246-252 | after an aligned 2 MiB mapping every byte translates to phys plus offset |
| `Translation.LargeMisaligned` | kernel/mem/vmm.c:251-251 | an unaligned 2 MiB mapping mistranslates a byte that the lemma names |
| `Translation.LargeTranslatesIff` | kernel/mem/vmm.c:246-252 | every byte translates right if and only if the physical start is 2 MiB-aligned and the no-execute bit is clear |
| `Translation.OthersKeepTranslation` | kernel/mem/vmm.c:85-122 | an address whose leaf words stay keeps its translation if and only if it is mapped, or starts a page, or no bottom table came or went over it |
| `Translation.UnmappedTranslation` | kernel/mem/vmm.c:254-261 | what the walk returns for an unmapped address |
| `Unmapping.FindLeaf` | kernel/mem/vmm.c:134-164 | which word the loop clears next, how many pages it stands for, or why the loop stops |
| `Unmapping.ClearOne` | kernel/mem/vmm.c:152-166 | clearing that word extends the cleared range by one page or by 512 |
| `Unmapping.ReachedNext` | kernel/mem/vmm.c:152-164 | every page that is consumed had a bottom table or a 2 MiB leaf over it |
| `Unmapping.Unmap` | kernel/mem/vmm.c:131-172 | over mixed pages exactly the consumed pages lose their leaf, if and only if the range does not both start inside a large page and cover 512 pages; a large page counts 512; a stop is at the first large page not wholly covered or at a missing table; memory outside the tables stays |
| `Unmapping.MidLargeNotExact` | kernel/mem/vmm.c:152-160 | if the range starts inside a large page that was removed, the cleared pages are no range from that start |
| `Fork.CopyStep` | kernel/mem/vmm.c:358-366 | copying one page extends the equal part of the two spaces and keeps all frames fresh and distinct |
| `Fork.Refill` | kernel/mem/vmm.c:359-362 | an exhausted pool is replaced by a fresh run, and every frame stays accounted for; it fails only if no further pool fits |
| `Fork.CopyLeaf` | kernel/mem/vmm.c:358-366 | the page gets a pool frame, the bytes and the flags of the source page; it fails only if no further pool fits |
| `Fork.CopyPt` | kernel/mem/vmm.c:355-368 | a whole bottom table is copied, unless no further pool fits |
| `Fork.CopyPd` | kernel/mem/vmm.c:350-375 | on success a whole page directory without 2 MiB leaves is copied; otherwise there is such a leaf or no further pool fits |
| `Fork.CopyLower` | kernel/mem/vmm.c:346-378 | on success the whole lower half is copied, across pool refills, and it has no 2 MiB leaf |
| `Fork.ShareUpper` | kernel/mem/vmm.c:382-384 | the upper 256 root words are those of the source and the lower ones stay |
| `Fork.CopyPml4` | kernel/mem/vmm.c:331-389 | the copy has the same lower-half pages, flags and contents in fresh, pairwise distinct frames, and the same upper half; exactly its own frames are newly used; its `pt_t` holds the new root and a free lock; success means that the source has no lower-half 2 MiB leaf, and failure that it has one or that no further pool fits |
| `Teardown.BelowStep` | kernel/mem/vmm.c:293-313 | the frames below a table are those of its entries, one entry at a time |
| `Teardown.FreePt` | kernel/mem/vmm.c:299-307 | exactly the pages of a bottom table and its own frame are freed |
| `Teardown.FreePd` | kernel/mem/vmm.c:294-311 | exactly the pages and tables below a page directory and its own frame are freed |
| `Teardown.FreePdp` | kernel/mem/vmm.c:291-314 | the same for a page-directory-pointer table |
| `Teardown.FreePml4` | kernel/mem/vmm.c:287-319 | exactly the lower-half pages and tables, the root and the two header frames are freed, each once; of the frames of the space exactly those of 2 MiB leaves stay allocated |
| `Teardown.TeardownLeaks` | kernel/mem/vmm.c:296-309 | of all frames of a space exactly the 512-frame runs of its 2 MiB leaves are left, so everything comes back if and only if there is no such leaf |
| `Teardown.ForkThenFree` | kernel/mem/vmm.c:287-389 | copy followed by teardown of the copy restores the bitmap, the free count and every frame in use; it fails only for a 2 MiB leaf or if no further pool fits |
| `Teardown.StoresInCopyInvisible` | kernel/mem/vmm.c:331-389 | no sequence of stores through the copy changes a mapping or a byte of the source |
| `Teardown.StoresInSourceInvisible` | kernel/mem/vmm.c:331-389 | no sequence of stores through the source changes a mapping or a byte of the copy |
| `Teardown.MixedAt` | kernel/mem/vmm.c:331-389 | a frame out of reach of one side holds what the stores of the other side leave in it |
| `Teardown.SidesIndependent` | kernel/mem/vmm.c:331-389 | after any interleaving of stores through both lower halves, each side keeps its mapping and reads the contents at the fork under its own stores |
| `LargeCopy.LargeFlags` | kernel/mem/vmm.c:372-372 | the 2 MiB leaf of the copy has the flags of the leaf of the source |
| `LargeCopy.CopyLarge` | kernel/mem/vmm.c:370-372 | one 2 MiB leaf of the source is copied: same flags and bytes, in frames that were free; the translation is right at every byte if and only if the run is aligned and the page executable; failure only if no run of 512 frames fits |
| `Heap.SameRoundUpIff` | kernel/utils/kmalloc.c:42-42 | the 64-bit comparison finds equal page counts, or wraps on an empty block and a size above 2^64 - 4096 |
| `Heap.EmptyBlockWraps` | kernel/utils/kmalloc.c:42-42 | the sizes 0 and 2^64 - 1 compare equal and need different page counts |
| `Heap.ClearedBytes` | kernel/mem/pmm.c:67-67 | the length that pmm_alloc clears wraps in 64 bits, at 2^52 frames |
| `Heap.AllocatedSound` | kernel/utils/kmalloc.c:12-26 | a block in frames that were free is apart from every other, and no other block changes |
| `Heap.FreedSound` | kernel/utils/kmalloc.c:28-31 | taking away the frames of one block takes no frame of another |
| `Heap.InPlaceSound` | kernel/utils/kmalloc.c:42-45 | krealloc in place keeps pages equal to the rounded-up size in the header, and keeps the leading bytes |
| `Heap.InPlaceIff` | kernel/utils/kmalloc.c:42-45 | after the in-place path the block is sound if and only if the sizes do not wrap |
| `Heap.MovedView` | kernel/utils/kmalloc.c:47-55 | allocate, copy and free together are one resize |
| `Heap.DataSound` | kernel/utils/kmalloc.c:50-51 | bytes written in the data pages of one block reach no header and no other block |
| `Heap.FailureSurvivedIff` | kernel/mem/pmm.c:65-69 | after a failed allocation the blocks are sound if and only if those with a low header are empty |
| `Heap.FailedKeeps` | kernel/mem/pmm.c:65-69 | a caller whose blocks survive a failed allocation has all of them with their bytes |
| `Heap.Kmem.Alloc` | kernel/utils/kmalloc.c:12-26 | a new zeroed block in free frames with a correct header, or failure only if no run fits |
| `Heap.Kmem.Free` | kernel/utils/kmalloc.c:28-31 | exactly the bits that the allocation set are cleared and counted back |
| `Heap.Kmem.Realloc` | kernel/utils/kmalloc.c:33-56 | null allocates, size zero frees, otherwise the block has the new size and its leading bytes, in place or moved; the heap is unsound afterwards if the sizes wrap; failure only if no run fits |
| `Heap.Kmem.Store` | kernel/utils/kmalloc.c:25-25 | a store of the caller changes its block and no other |
| `Heap.KnownWritten` | kernel/utils/kmalloc.c:25-25 | a store through one pointer changes the byte string of that pointer only |
| `Heap.KnownResized` | kernel/utils/kmalloc.c:33-56 | a resize keeps the leading bytes of its string and all other strings |
| `Heap.PointersOfRun` | kernel/utils/kmalloc.c:12-56 | there are as many pointers as allocations, and one is null only after a free or a resize to zero |
| `Heap.OthersLeave` | kernel/utils/kmalloc.c:12-56 | calls and stores on other pointers leave a string alone |
| `Heap.StoreReadsBack` | kernel/utils/kmalloc.c:12-56 | a caller reads back what it stored, whatever happens to other pointers in between |
| `Heap.AllReturned` | kernel/utils/kmalloc.c:12-56 | when every pointer has been given back, the used frames are those of the start |
| `Heap.Kmem.Resume` | kernel/utils/kmalloc.c:12-56 | the same for a caller that holds blocks already; after a call without room it can go on with what it holds if and only if no nonempty block has its header in the cleared frames |
| `Heap.Kmem.Perform` | kernel/utils/kmalloc.c:12-56 | over every sequence of calls and stores, blocks stay sound and apart and are independent byte strings, every allocation yields a block and a pointer is null only if its block was given back, other blocks keep their bytes, frames of no block never change, and giving everything back restores bitmap and counter; it stops early only if no run fits or a resize wraps |
| `NvmeCache.FlushKeeps` | kernel/devices/nvme.c:297-300 | writing a dirty slot back keeps the cache coherent |
| `NvmeCache.FillKeeps` | kernel/devices/nvme.c:302-310 | loading a block into a slot that is clean or was written back keeps the cache coherent |
| `NvmeCache.StoreKeeps` | kernel/devices/nvme.c:372-373 | a store into a live slot changes the visible contents and no more, and the slot is dirty |
| `NvmeCache.Nvme.FindBlock` | kernel/devices/nvme.c:277-284 | the slot that holds the block, or none if no live slot does |
| `NvmeCache.Nvme.TakeSlot` | kernel/devices/nvme.c:286-300 | the first unused slot, else the next in turn, and a dirty one is on the disk before it is reused |
| `NvmeCache.Nvme.CacheBlock` | kernel/devices/nvme.c:286-313 | the block is in the slot returned and the visible contents stay; it fails exactly if a transfer fails |
| `NvmeCache.Nvme.Read` | kernel/devices/nvme.c:315-347 | any length and alignment: the bytes a flat array would return, unless a transfer fails |
| `NvmeCache.Nvme.Write` | kernel/devices/nvme.c:349-381 | any length and alignment: the flat array with those bytes replaced, unless a transfer fails |
| `NvmeCache.Nvme.Perform` | kernel/devices/nvme.c:277-381 | over every sequence of operations the outputs are those of a flat byte array, for any cache size of at least 1; it stops early exactly if a transfer fails |
| `NvmeQueue.NextPosition` | kernel/devices/nvme.c:136-140 | position and phase advance as count modulo size and count of laps |
| `NvmeQueue.QueuePair.constructor` | kernel/devices/nvme.c:90-105 | a new queue is in step with the controller |
| `NvmeQueue.QueuePair.SendCommand` | kernel/devices/nvme.c:107-115 | the command is at the old tail and the doorbell shows the new one |
| `NvmeQueue.QueuePair.Poll` | kernel/devices/nvme.c:124-128 | the loop never accepts an entry of an earlier lap |
| `NvmeQueue.QueuePair.SendCommandAndWait` | kernel/devices/nvme.c:117-145 | the status returned is that of this very command, which the controller has executed with its opcode, and success moves both sides on by one; after a failure every call returns the old failure |
| `NvmeQueue.QueuePair.SendAll` | kernel/devices/nvme.c:90-145 | the controller executes the given commands in order; after n successful ones tail and head are n modulo size and the phase has flipped once per lap |
| `Virtqueue.MaskIsMod` | modules/virtio/virtio.c:69-69 | masking with the queue mask is taking the remainder by the queue size |
| `Virtqueue.WrapKeepsPosition` | modules/virtio/virtio.c:153-156 | the 16-bit wrap of an index does not change its ring position |
| `Virtqueue.Queue.constructor` | modules/virtio/virtio.c:62-75 | all descriptors are free in setup order and all locks are taken |
| `Virtqueue.Queue.Allocate` | modules/virtio/virtio.c:180-212 | the last descriptors form a chain that ends at the last one, the others stay free; refused exactly if too many or none are asked for |
| `Virtqueue.Queue.Submit` | modules/virtio/virtio.c:150-157 | the chain head is in the available ring at the old index |
| `Virtqueue.Queue.ReturnChain` | modules/virtio/virtio.c:104-132 | every descriptor of the chain but the last is free again and the lock of the last is open |
| `Virtqueue.Queue.Handle` | modules/virtio/virtio.c:99-135 | the used-ring walk serves a returned chain and otherwise does nothing |
| `Virtqueue.Queue.Push` | modules/virtio/virtio.c:214-224 | the descriptor becomes the head of the free list |
| `Virtqueue.Queue.Request` | modules/virtio/virtio.c:150-224 | the caller is woken exactly if the device returned this chain and the handler ran after that, and the queue is then as setup left it |
| `Virtqueue.Queue.Requests` | modules/virtio/virtio.c:62-224 | every sequence of requests with any chain lengths that are all answered restores the free list in order, and each possible one is submitted once; it stops at the first that is not answered |
| `Virtqueue.WokenIff` | modules/virtio/virtio.c:166-178 | the waiter goes on exactly when a return by the device precedes a handler call |
| `Virtqueue.IdleFreeList` | modules/virtio/virtio.c:62-66 | at rest the free list is all descriptors in setup order |
| `Virtqueue.ChainApart` | modules/virtio/virtio.c:187-211 | in flight, chain and free list share no descriptor and together are all of them |
| `Scheduler.ConsumeWakes` | kernel/tasking/scheduler.c:64-71 | the event loop wakes exactly if some listed counter is positive, and otherwise changes nothing |
| `Scheduler.ConsumeLeaves` | kernel/tasking/scheduler.c:64-71 | each listing of an event takes one off its counter while there is one, and its flag says whether it did |
| `Scheduler.TakenMeans` | kernel/tasking/scheduler.c:61-87 | a thread that is taken is locked and no longer waits unless aborted; its deadline is cleared exactly if no event had come |
| `Scheduler.StaleDeadlineWakes` | kernel/tasking/scheduler.c:73-81 | a wait without deadline that ends with no event, by the deadline of an earlier wait |
| `Scheduler.ScanEvents` | kernel/tasking/event.c:10-16 | the loop decrements and flags the positive counters in order |
| `Scheduler.PickFirst` | kernel/tasking/scheduler.c:49-93 | the scan stops at the first ready slot in cyclic order from current plus one |
| `Scheduler.NoneReady` | kernel/tasking/scheduler.c:49-93 | the scan returns none if and only if no slot is ready |
| `Scheduler.TurnOf` | kernel/tasking/scheduler.c:50-58 | each of the n slots is examined exactly once |
| `Scheduler.IdledKeeps` | kernel/tasking/scheduler.c:142-160 | a CPU that gives up its thread leaves the exclusion invariant intact |
| `Scheduler.SwitchKeeps` | kernel/tasking/scheduler.c:163-180 | taking a thread whose lock is free keeps the exclusion invariant |
| `Scheduler.ScheduleKeeps` | kernel/tasking/scheduler.c:122-188 | a scheduling decision keeps the exclusion invariant |
| `Scheduler.AddKeeps` | kernel/tasking/scheduler.c:203-232 | adding a thread keeps the exclusion invariant, also when it is refused |
| `Scheduler.ReachableExclusive` | kernel/tasking/scheduler.c:49-232 | in every reachable state a lock is taken exactly if one CPU runs the thread, no thread runs on two CPUs, and the slot of a thread holds that thread |
| `Scheduler.Closer` | kernel/tasking/scheduler.c:49-93 | while a slot is ready, a decision picks it or comes strictly closer to it |
| `Scheduler.PickedWithinDistance` | kernel/tasking/scheduler.c:49-188 | a slot that stays ready is picked within its cyclic distance, whatever other CPUs, timer and events do |
| `Scheduler.PickedWithinTotal` | kernel/tasking/scheduler.c:49-188 | a slot that stays ready is picked within as many decisions as there are slots in use |
| `Scheduler.ReadyMeans` | kernel/tasking/scheduler.c:60-86 | a slot is ready exactly if its thread is unlocked, its sleep is over, and it does not wait, or is aborted, or has an event, or its deadline has passed |
| `Scheduler.DecisionMeans` | kernel/tasking/scheduler.c:122-188 | a decision picks the slot of such a thread, and none only if there is none |
| `Scheduler.SleepsOn` | kernel/tasking/scheduler.c:49-93 | in every run, no CPU picks a thread before its sleep is over |
| `Scheduler.SleepCall` | kernel/tasking/scheduler.c:240-248 | thread_sleep: the caller leaves its CPU and runs nowhere until the timer has reached the target |
| `Scheduler.WaitsOn` | kernel/tasking/scheduler.c:62-86 | in every run, no CPU picks a waiting thread unless one of its events is notified, its deadline passes or it is aborted |
| `Scheduler.AwaitCall` | kernel/tasking/event.c:7-31 | events_await: with no event there, the caller leaves its CPU and runs nowhere until one comes or a deadline that it still carries passes |
| `Scheduler.TimedAwaitCall` | kernel/tasking/event.c:34-45 | with a timeout, the same until an event comes or the given deadline passes |
| `Scheduler.NotifyMakesReady` | kernel/tasking/event.c:59-61 | a notification makes a waiting thread ready, if its sleep is over and the counter does not wrap |
| `Scheduler.DeadlineMakesReady` | kernel/tasking/scheduler.c:63-77 | so does the deadline when it is reached, and an abort |
| `Scheduler.NewThreadIsReady` | kernel/tasking/thread.c:36-40 | a new thread is ready as soon as it has a slot |
| `Scheduler.Kernel.TryTake` | kernel/tasking/scheduler.c:60-87 | a thread is taken exactly if it is unlocked, its sleep is over, and it does not wait, or is aborted, or has an event, or its deadline has passed; its events are then consumed, and otherwise nothing changes |
| `Scheduler.Kernel.GetNextTask` | kernel/tasking/scheduler.c:49-93 | the loop finds the first slot whose thread may go on and takes that thread, or none and there is no such slot; it reads behind the table if and only if it starts after slot 511 |
| `Scheduler.Kernel.ScheduleOn` | kernel/tasking/scheduler.c:122-188 | unlock, scan and switch together are one step of the system, unless the CPU runs slot 511 |
| `Scheduler.Kernel.Add` | kernel/tasking/scheduler.c:203-232 | the first free slot, or -1 exactly if there is no such thread, it has a slot already or the table is full |
| `Scheduler.Kernel.NotifyEvent` | kernel/tasking/event.c:59-61 | the counter grows by one as a 16-bit word |
| `Scheduler.Kernel.ResetEvent` | kernel/tasking/event.c:63-67 | the counter is zero afterwards |
| `Scheduler.Kernel.AwaitEvents` | kernel/tasking/event.c:7-25 | it returns at once exactly if an event has come, with one taken off for each listing, else the thread is registered as waiting and no counter changes |
| `ExecStack.PlaceStrings` | kernel/tasking/thread.c:69-82 | every string lies whole below the one before it |
| `ExecStack.PushTable` | kernel/tasking/thread.c:97-109 | the pointer table holds the user addresses of the strings, in order |
| `ExecStack.PushAux` | kernel/tasking/thread.c:89-94 | the four auxiliary pairs and the terminator |
| `ExecStack.AlignedSp` | kernel/tasking/thread.c:84-87 | the padding word makes the stack pointer a multiple of 16 |
| `ExecStack.BuildImage` | kernel/tasking/thread.c:66-111 | strings above, words below, without overlap |
| `ExecStack.ReadBack` | kernel/tasking/thread.c:66-119 | a psABI reader recovers argc, argv, envp and the four auxiliary pairs from the image |
| `UserLoads.ShownStart` | kernel/tasking/thread.c:66-119 | reading by loads through the page tables is reading the bytes that the tables show |
| `StackMapping.SourceAddresses` | kernel/tasking/thread.c:59-60 | guard page and stack bottom as the source computes them |
| `StackMapping.GuardShares` | kernel/tasking/thread.c:59-60 | for every thread but number 204 the guard page shares its bottom table with the stack |
| `StackMapping.PlaceImage` | kernel/tasking/thread.c:62-111 | four frames that were free hold the image, no table changes, and frames in use keep their contents |
| `StackMapping.StackTranslates` | kernel/tasking/thread.c:116-116 | through the page mapping, byte o of the user stack is byte o of the four frames |
| `StackMapping.ClearedStack` | kernel/tasking/thread.c:117-117 | unmapping the guard page changes no translation of the stack |
| `StackMapping.GuardDoneIff` | kernel/tasking/thread.c:117-117 | unmapping the guard page succeeds if and only if a bottom table covers it, and is refused if and only if a 2 MiB page does |
| `StackMapping.MapStack` | kernel/tasking/thread.c:116-117 | the program sees the image through four leaves that are present, writable and open to the user, the guard page has no leaf, no other page and no frame in use but tables changes; exactly for thread 204 without a bottom table over the guard page, a 2 MiB page there stays, or without one the unmapping faults |
| `StackMapping.CreateStack` | kernel/tasking/thread.c:59-119 | for all lists that fit, loads through the page tables from the saved rsp give back argc, argv, envp and the four auxiliary pairs, and rsp is 16-byte aligned, in four frames that were free and open to the user, also where the guard page of thread 204 stays mapped; failure only if no four frames fit or for that guard page without a bottom table and without a 2 MiB page |
| `Memory.Memmove` | kernel/utils/string.c:30-45 | overlapping ranges in either direction: the destination holds the old source bytes, the rest stays |
| `Pipe.Queue.Write` | kernel/fs/pipe/pipe.c:66-88 | the bytes are appended, the capacity is the size rounded up to the step, one notification |
| `Pipe.Queue.ReadNow` | kernel/fs/pipe/pipe.c:45-63 | the first bytes are taken off, the rest moves down, the buffer shrinks and is null exactly when empty |
| `Pipe.Queue.TryRead` | kernel/fs/pipe/pipe.c:19-64 | as a queue read: it waits exactly if there are too few bytes and neither O_NONBLOCK nor a closed peer clamps it; otherwise it takes the first bytes, as many as asked or all there are |
| `Pipe.NothingLost` | kernel/fs/pipe/pipe.c:45-88 | bytes read followed by bytes queued are bytes queued before followed by bytes written |
| `Pipe.ReadsArePrefix` | kernel/fs/pipe/pipe.c:45-88 | on a new pipe the bytes read are a prefix of the bytes written |
| `Pipe.EveryReadServed` | kernel/fs/pipe/pipe.c:19-64 | in every run each read waits or takes the first bytes of the queue, and one that gets less than asked leaves it empty |
| `Pipe.ClosedPipeDrains` | kernel/fs/pipe/pipe.c:26-27 | once the writer has closed, a reader that asks for enough has got every byte written |
| `Pipe.Queue.Perform` | kernel/fs/pipe/pipe.c:19-88 | every sequence of reads and writes gives what an unbounded byte queue gives, and each read is served from the queue at its point |
| `Wakeup.StepKeeps` | kernel/fs/pipe/pipe.c:25-45 | each step keeps the invariant that a sleeper whose bytes are there has a pending notification |
| `Wakeup.NoLostWakeup` | kernel/fs/pipe/pipe.c:25-45 | in every interleaving, a sleeping reader whose bytes are there has a positive event, if and only if the pending notifications are not a multiple of 65536 |
| `Wakeup.SleeperFinishes` | kernel/tasking/scheduler.c:62-86 | with fewer than 65536 pending notifications such a reader finishes by its own steps and takes what it asked for |
| `Wakeup.CheckIsRead` | kernel/fs/pipe/pipe.c:25-51 | the test of the size is that of the pipe read, and so is the size it leaves |
| `Wakeup.CloseWakes` | kernel/fs/pipe/pipe.c:25-45 | a reader that waits when its last peer closes is woken and takes what is there |
| `Wakeup.WrapLosesWakeup` | kernel/utils/spinlock.h:47-57 | 65536 one-byte writes leave a reader asleep with all its bytes there and the event at zero |
| `Packets.HeaderOf` | modules/packetfs/packetfs.c:11-24 | the first 16 bytes of an encoded packet give back source and size |
| `Packets.InOrder` | modules/packetfs/packetfs.c:11-81 | the i-th answer is the i-th packet sent, also after packets that did not fit |
| `Packets.ReceiveCompletes` | modules/packetfs/packetfs.c:11-24 | a receive on a pipe with packets gives one answer, for the first packet, and takes it off |
| `Packets.DeliveredMeans` | modules/packetfs/packetfs.c:56-132 | the caller gets nothing exactly if the packet does not fit; the client gets the data, the server finds source, size and data |
| `Packets.Channel.SendPacket` | modules/packetfs/packetfs.c:26-54 | the packet is appended whole, also while a receive is between its two reads |
| `Packets.Channel.ClientWrite` | modules/packetfs/packetfs.c:134-150 | packets over 1024 bytes are refused and leave the pipe alone |
| `Packets.Channel.ReadHeader` | modules/packetfs/packetfs.c:11-17 | the header of the first packet is read, or the receiver waits exactly if no packet is there |
| `Packets.Channel.ReadBody` | modules/packetfs/packetfs.c:16-132 | the data of that packet is read, and delivered exactly if it fits the caller's buffer; the next packet is then first either way |
| `Packets.Channel.Perform` | modules/packetfs/packetfs.c:11-150 | every interleaving of sends and receives gives the packets sent, in order; each answer is empty exactly if its packet does not fit, and else has source, size and payload |
| `Crc32.StepSplit` | kernel/utils/common.c:70-75 | in one shift step the bits above the lowest only move down |
| `Crc32.EightSplit` | kernel/utils/common.c:70-75 | in eight steps the bits above the lowest eight only move down |
| `Crc32.EnterFirst` | kernel/utils/common.c:70-75 | message bits that enter later commute with the steps before |
| `Crc32.TableEntry` | kernel/utils/common.c:3-68 | each of the 256 table entries is its index after eight shift steps |
| `Crc32.TableStepFeeds` | kernel/utils/common.c:73-73 | one table look-up equals feeding the eight bits of a byte |
| `Crc32.CalculateBuffer` | kernel/utils/common.c:70-75 | for every buffer the result is the bit-serial reflected CRC-32 of section 8 of RFC 1952, which section 5.3.2 of UEFI 2.10 uses for GPT headers |
| `Crc32.Residue` | kernel/utils/common.c:70-75 | any data followed by its own checksum has the checksum 0x2144DF1C |
| `Crc32.CheckValue` | kernel/utils/common.c:70-75 | the checksum of the digits "123456789" is 0xCBF43926 |
| `Fat32.Follow` | kernel/fs/fat32/fat32.c:95-99 | following the table goes from each cluster of a chain to the next |
| `Fat32.ReservedBitsIff` | kernel/fs/fat32/fat32.c:95-99 | the next cluster is that of the specification if and only if the reserved bits are clear or the entry ends the chain anyway |
| `Fat32.ReservedBitCutsChain` | kernel/fs/fat32/fat32.c:95-99 | a table where a reserved bit ends a chain that goes on |
| `Fat32.FatEntryBytes` | kernel/fs/fat32/fat32.c:224-225 | entry i is the little-endian word at byte 4i behind the reserved sectors |
| `Fat32.ClusterStarts` | kernel/fs/fat32/fat32.c:61-62 | cluster 2 is the first, and each cluster starts where the one before it ends |
| `Fat32.FileByte` | kernel/fs/fat32/fat32.c:237-248 | every byte of the file is the device byte that the numbers of the boot sector give |
| `Fat32.Piece` | kernel/fs/fat32/fat32.c:61-62 | a piece of the file inside one cluster is the piece of the device that CLUSTER_TO_OFFSET names |
| `Fat32.ReadSizeRightIff` | kernel/fs/fat32/fat32.c:227-229 | the 64-bit clip is right if and only if the offset is in the file and offset plus size does not wrap |
| `Fat32.ReadInTwo` | kernel/fs/fat32/fat32.c:217-261 | two calls for a and b bytes give the bytes and the offset of one call for a plus b |
| `Fat32.File.Walk` | kernel/fs/fat32/fat32.c:233-235 | the walk ends at the cluster that holds the offset |
| `Fat32.File.Gather` | kernel/fs/fat32/fat32.c:237-253 | the pieces joined are the slice of the file |
| `Fat32.File.Read` | kernel/fs/fat32/fat32.c:217-261 | for every offset in the file and every length, the slice of the concatenated clusters clipped to the file size, each byte from its place on the device, and the offset moves by what was read |
| `Strings.HasZeroIff` | kernel/utils/string.c:145-148 | HASZERO is nonzero exactly if one of the eight bytes is zero |
| `Strings.WordTest` | kernel/utils/string.c:186-187 | the two word tests find exactly a zero byte or the byte sought |
| `Strings.StrChrNul` | kernel/utils/string.c:171-190 | for every string, alignment and byte, the position that a byte-by-byte search finds |
| `Strings.AddHas` | kernel/utils/string.c:150-151 | setting a bit of the byte set adds that byte and no other |
| `Strings.BuildSet` | kernel/utils/string.c:165-165 | the byte set holds exactly the bytes of the string |
| `Strings.StrSpn` | kernel/utils/string.c:153-169 | the longest prefix made of the given bytes |
| `Strings.StrCspn` | kernel/utils/string.c:192-201 | the longest prefix free of the given bytes |
| `Strings.StrPbrk` | kernel/utils/string.c:203-206 | the first of the given bytes, or null if there is none |
| `Strings.StrTokR` | kernel/utils/string.c:217-236 | the next delimiter-free segment is cut out by one zero byte, or null exactly if only delimiters are left |
| `Strings.OnlyToken` | kernel/utils/string.c:217-236 | the segment found is maximal, and the only one before the place where the next call starts |
| `Strings.Tokenize` | kernel/utils/string.c:217-236 | calling it until null yields exactly the maximal non-empty delimiter-free segments, in order, each a string with its old bytes |

## Left out

Assumptions and limits of single members:

- FrameAllocator.Pmm.AllocAdvanced: frame 0 is in use and bits past the end of the bitmap count as used.
- AddressSpaces.Vmm.MapAdvanced: page-aligned ranges inside the 48-bit space, frames that fit the address field, and no 4 KiB page over a 2 MiB leaf, because the code tests only the present bit there; running out of frames, where the code hangs, is a result of its own.
- Unmapping.Unmap: a store through a missing bottom table is the result `Fault`; what the machine does then is not modelled.
- Fork.CopyPml4: covers lower halves of 4 KiB leaves; for a 2 MiB leaf the result is `LargePage`, and for a failed allocation `NoMemory`.
- LargeCopy.CopyLarge: is the branch for one 2 MiB leaf on its own, whose frames are in use; the run of `Fork.CopyPml4` does not go through it.
- Teardown.FreePml4: the two frames of the kmalloc block of the `pt_t` are in the same memory as the tables, with only the page count of its header.
- Heap.Kmem.Realloc: pointers must come from the allocator; the double free and the foreign pointer are not modelled.
- Heap.Kmem.Perform: ends at the first call that finds no room, because of what a failed `pmm_alloc` does to low memory; `Heap.Kmem.Resume` goes on where the blocks survive. Bytes that an in-place growth adds are not determined.
- NvmeCache.Nvme.Read: the transfer of blocks is a contract, which may fail and then moves no data; requests stay before the last block, where the end-of-disk clamp does not apply.
- NvmeQueue.QueuePair.SendCommandAndWait: the controller is a step that completes the pending command after any number of polls; queues have at least 2 entries.
- Virtqueue.Queue.Request: one synchronous request at a time, a power-of-two queue size of at least 2, and the device as an environment step; the buffers that descriptors point to are not modelled.
- Scheduler.Kernel.GetNextTask: slots marked deleted (-1, kernel/tasking/scheduler.c:59) are outside the model; no code of the kernel stores that mark, and `execve`, which empties a slot, is left out.
- Scheduler.SleepCall: the target is a number; thread_sleep computes it in 32 bits (kernel/tasking/scheduler.c:242).
- Scheduler.ReachableExclusive: memory ordering and the three outer locks are taken as atomicity of a step; registers, page tables and SIMD state of a switch are not modelled.
- Pipe.Queue.Write: the bytes of a pipe fit in memory, so its 64-bit sizes do not wrap.
- StackMapping.CreateStack: loads do not test the permission bits of the tables on the way; no 2 MiB page lies over the stack, and the image is built as bytes and then stored in the frames word by word; a failed allocation is the result `NoMemory`, because the source then writes to low memory.
- Pipe.Queue.Perform: krealloc of the buffer is a contract with the promises that `Heap.Kmem.Realloc` keeps; `readFirstData` is false.
- Wakeup.NoLostWakeup: one reader per pipe; bytes are counted, not stored.
- Packets.Channel.Perform: one reader per pipe, and the packet buffers always find memory.
- Fat32.File.Read: device reads return the bytes of the device; the buffer for the table always finds memory.

Parts of the repository outside the model:

- Hardware bring-up and register access (GDT, IDT, ACPI, PCI, HPET, SMP trampoline, assembly).
- PRP lists and the end-of-disk clamp of the NVMe transfer, kernel/devices/nvme.c:230-275.
- `vmm_read`, whose stepping agrees with a flat read only for aligned starts.
- `execve` and `thread_recreate`, which rewrite scheduler slots outside the step discipline.
- `packetfs_server_write` (broadcast and target check), `pipe_close` of the last reference, `fat32_lseek`, FAT32 directory search.
- ext2, shm, xHCI and USB, VFS dispatch, devfs, printf, generic lists and hash maps: easy members, or behaviour the code does not settle.
- Graphics, compositor, fonts, user programs and the build.
