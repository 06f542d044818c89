# PeakOS core structures, verified

This project models seven self-contained parts of the PeakOS kernel and boot loader and proves
what each of them keeps over every use.

* `CacheIndex`, `PageCache`, `BlobLayout`, `BlobBytes`, `BlobStore`: the object store on a block device. An
  open-addressed index over a write-back page cache with least-recently-used eviction refines a
  flat array of pages; extents, free spans and the allocation tip account for every page.
* `PageMap`, `PagePool`, `PageShelf`, `PageAllocator`, `PageExhaust`: the physical page allocator. A
  two-level map with a pool of bit words refines a flat set of free pages in every regime, also when
  no word is left, and it is stated exactly when stack, runs, map and clients share no page.
* `SchedModel`, `SchedRuns`, `Scheduler`: the cooperative scheduler as a state machine over its steps, and the
  code that implements each step.
* `PageTables`, `BootPaging`, `ElfLoader`, `ElfImage`: four-level page tables built from a bump arena, the
  translation they denote, and the memory an ELF image's program headers describe.
* `Sha256`, `Sha256Roots`, `Sha256Stream`: streaming SHA-256 (FIPS 180-4) and HMAC (RFC 2104).
* `VecMath`, `TopK`, `PeakVec`: the vector index with its integer square root, milli-cosine
  scores, early-out and bucket probing, against a plain full scan.
* `VfsPath`, `VfsLaws`, `VfsTree`, `Vfs`, `VfsCycle`, `VfsResolve`, `VfsLinks`, `PeakImage`, `PeakFsPaths`, `PeakFs`, `PeakFsIo`, `PeakFsExport`,
  `PeakFsLoad`, `PeakFsStuck`: the file system's node pool, path normalisation, link resolution, and the PeakFS image with its
  validate, snapshot, apply and rollback.
* `Sets`: sizes of finite sets.

Code that updates state in place is a class whose methods are proved against value-level
specifications; the lemmas about those specifications carry the main results.

Where the code does not meet a property everywhere, the project states exactly when it does and
gives an input for which it does not:

* the object store's 64-bit ends and 32-bit page counts (`Create`, `Resize`, `Write` and `Read` of `ObjectStore`; inputs in
  `CreateUnsound`, `WriteUnsound`, `WrapHitsNeighbour`, `WrapAtWork`);
* the allocator with no bit word left, where a page can be handed out and stacked at once, or lost (`AllocFromMap`, `FreeN`,
  `RunCleanIff`; reached in `TwoHolders`);
* waiting under GUI load (`WaitingEndsIff`; reached in `StarvationReached`), and sleeps whose deadline wraps
  (`SleepReturnsOnTime`, `SleepKeepsCacheIff`, `CacheStepIff`, `CacheRunIff`; reached in `SleepReturnsEarly`, `SleeperLost`);
* rolling a failed load back (`RollBackRoom`, `Load`; inputs in `RollBackGetsStuck`, `StuckAtWork`);
* the 64-bit sums over the boot memory map (`UsableExactIff`, `ReservedExactIff`; inputs in `UsableWraps`);
* the arena's 64-bit test (`ArenaTestExactIff`; an input in `ArenaTestWraps`), identity maps above 2^47 (`BootExactIff`; inputs in
  `BootOverlaps`, `BootAtWork`), unaligned ranges (`RangeExactIff`; inputs in `UnalignedRanges`, `RangeAtWork`);
* vector keys longer than their buffer (`UpsertDistinctIff`; an input in `LongKeyTwice`);
* a rename into the moved directory (`RenameTreeIff`; an input in `RenameIntoItself`);
* a `..` after the 32nd component (`UpLawIff`; all such paths in `BrimLaw`, one in `BrimAtWork`), and links whose replaced text does not fit
  the path buffer (`LinkMeans`, `LinkCut`; inputs in `CutName`, `CutNameAtWork`).

The vector index meets its property for all norms, not only for those below 2^32.

## Model

| member | source | states |
|---|---|---|
| CacheIndex.SomeEmpty | kernel/blobstore.c:58-79 | an index over fewer slots than positions always has an empty position, so probing ends |
| CacheIndex.MissMeansUncached | kernel/blobstore.c:103-115 | a probe that meets an empty position before the page proves that no valid slot holds the page |
| CacheIndex.ClearStartsScan | kernel/blobstore.c:81-90 | clearing a found entry can only cut off entries later in its cluster |
| CacheIndex.ReinsertKeepsScan | kernel/blobstore.c:90-97 | lifting the next cluster entry out and re-inserting it by probing keeps every entry outside the unscanned stretch reachable from its home |
| CacheIndex.ScanEnd | kernel/blobstore.c:90-97 | when the rescan meets an empty position every entry is reachable again |
| PageCache.Cache.Find | kernel/blobstore.c:103-115 | the probe answers exactly as a linear scan of the valid slots: -1 iff no valid slot holds the page, otherwise a slot that does |
| PageCache.Cache.Resident | kernel/blobstore.c:558-567 | the hot-slot shortcut followed by the probe answers iff the page is in a valid slot |
| PageCache.Cache.Insert | kernel/blobstore.c:70-79 | the entry goes to the first empty position of its probe sequence; a full table is left alone |
| PageCache.Cache.Remove | kernel/blobstore.c:81-101 | after clearing and re-inserting the following cluster (which terminates) the index lists exactly the other valid slots |
| PageCache.ShowsIsFunctional | kernel/blobstore.c:179-269 | cache contents and device determine one flat array of pages |
| PageCache.CleanCacheMeansDisk | kernel/blobstore.c:521-531 | with no dirty copy left the device is that array |
| PageCache.FlushKeeps | kernel/blobstore.c:179-187 | writing a copy back keeps the index, the recency order, the coherence of clean copies and the flat array |
| PageCache.TouchKeeps | kernel/blobstore.c:189-194 | restamping only when the stamp is not already the newest keeps stamps in the true order of use |
| PageCache.DropKeeps | kernel/blobstore.c:196-232 | dropping a clean copy keeps the flat array and the index |
| PageCache.InstallKeeps | kernel/blobstore.c:249-268 | filling an unused slot keeps one slot per page and, when the bytes are the device's, the flat array |
| PageCache.OverwriteKeeps | kernel/blobstore.c:489-519 | patching a cached page changes that page of the flat array and nothing else, also after a no-fetch install |
| PageCache.Cache.constructor | kernel/blobstore.c:66-68 | a cleared cache shows the device |
| PageCache.Cache.Reset | kernel/blobstore.c:533-548 | forgetting every copy leaves the device as the array |
| PageCache.Cache.Flush | kernel/blobstore.c:179-187 | exactly the dirty valid slot is written; the array is unchanged |
| PageCache.Cache.Touch | kernel/blobstore.c:189-194 | the slot becomes the most recently used one |
| PageCache.Cache.Evict | kernel/blobstore.c:196-232 | returns an unused slot, or empties one that was used least recently in true order of use; no other slot changes and no byte is lost |
| PageCache.Cache.ChooseVictim | kernel/blobstore.c:197-216 | the stamp scan picks an unused slot or a true minimum of last use |
| PageCache.Cache.Get | kernel/blobstore.c:235-269 | afterwards the slot holds the page; with fetch the flat array is unchanged whatever was hit or evicted; without it only that page may differ |
| PageCache.Cache.ReadPage | kernel/blobstore.c:463-487 | the piece returned is that stretch of the flat page, and the array is unchanged |
| PageCache.Cache.WritePage | kernel/blobstore.c:489-519 | the array changes at that stretch of that page only, including the full-page path that does not fetch |
| PageCache.Cache.EvictRange | kernel/blobstore.c:279-295 | no valid slot holds a page of the range afterwards and the flat array is unchanged |
| PageCache.Cache.FlushAll | kernel/blobstore.c:521-531 | the device equals the flat array |
| BlobLayout.PageCountExactIff | kernel/blobstore.c:383-385 | the 32-bit page count is the true one iff the size needs fewer than 2^32 pages |
| BlobLayout.TipTestExactIff | kernel/blobstore.c:388-391 | the 32-bit tip test accepts a request iff it fits or the sum wraps |
| BlobLayout.CreateUnsound | kernel/blobstore.c:383-391 | with a page in use and no free span, a request of 2^44 - 4096 bytes is granted 2^32 - 1 pages, and the call is not in order |
| BlobLayout.SmallSound | kernel/blobstore.c:378-456 | every create and resize below (2^32 - 1 - 65536) pages is in order, in every state |
| BlobLayout.WriteUnsound | kernel/blobstore.c:489-507 | writes of 0 and 2 bytes at offset 2^64 - 1, and of 8192 bytes at 2^44 - 4096, are not in order, whatever the object |
| BlobLayout.FreshTidy | kernel/blobstore.c:167-177 | a formatted store accounts for every page |
| BlobLayout.BumpTidy | kernel/blobstore.c:388-391 | raising the tip gives an extent that no object and no free span touches |
| BlobLayout.TakeTidy | kernel/blobstore.c:331-354 | carving a free span keeps extents disjoint, the totals, and that no span ends at the tip |
| BlobLayout.PlaceTidy | kernel/blobstore.c:393-408 | entering an object into vacant pages keeps objects and spans pairwise disjoint and page accounting exact |
| BlobLayout.RemoveTidy | kernel/blobstore.c:413-431 | removing an object leaves its extent vacant |
| BlobLayout.SpanAddTidy | kernel/blobstore.c:297-310 | recording a free span keeps the accounting and that no span ends at the tip |
| BlobLayout.RewindTidy | kernel/blobstore.c:312-329 | lowering the tip over a span that ends there keeps the accounting |
| BlobLayout.ResizeTidy | kernel/blobstore.c:433-456 | growing in place at the tip, or changing the size within the pages held, keeps all extents disjoint |
| BlobLayout.TidyPasses | kernel/blobstore.c:579-629 | every accounted layout passes all tests of blobstore_check |
| BlobLayout.CheckMeans | kernel/blobstore.c:579-629 | a passed check over extents that end below 2^32 means that no two share a page, objects end below the tip and spans inside the device |
| BlobBytes.PokedInside | kernel/blobstore.c:499-517 | the copy loop, with its 64-bit positions and 32-bit page indices, splices the buffer into the object's bytes and touches no other page as long as it stays inside the extent |
| BlobBytes.PeekedInside | kernel/blobstore.c:472-485 | the same for reading: inside the extent the loop delivers its bytes |
| BlobBytes.PokeChunk | kernel/blobstore.c:502-516 | copying a chunk that lies on one page is writing its bytes one by one, also where positions or page indices wrap |
| BlobBytes.PokeBeforeStart | kernel/blobstore.c:499-517 | a two-byte write at offset 2^64 - 1 changes the last byte of the page before the object |
| BlobStore.UndisturbedRun | kernel/blobstore.c:378-519 | over any run of create, delete, resize, read and write, a byte changes only in a step that writes it or deletes its object |
| BlobStore.LastWriteWins | kernel/blobstore.c:463-519 | a read returns the byte of the last write that covered it, whatever ran in between |
| BlobStore.DepictsWrite | kernel/blobstore.c:489-519 | writing inside one object's extent changes no byte of another object |
| BlobStore.ObjectStore.constructor | kernel/blobstore.c:167-177 | a formatted store holds no object and leaks nothing |
| BlobStore.ObjectStore.FindObj | kernel/blobstore.c:271-277 | finds the entry iff the object exists |
| BlobStore.ObjectStore.SpanTake | kernel/blobstore.c:331-354 | best fit: the smallest span that is large enough, or none is |
| BlobStore.ObjectStore.ReservePages | kernel/blobstore.c:386-392 | fails iff no span is large enough and the 32-bit tip test refuses; the extent is one that nothing else touches unless the tip sum wraps |
| BlobStore.ObjectStore.Create | kernel/blobstore.c:378-411 | fails iff not permitted, no pages found by the 32-bit test, or no table entry; for every 64-bit size the store stays in order and gains exactly one object iff the call finds no pages, or the tip sum does not wrap and the page count fits 32 bits or is not used; pages leak only without a table entry |
| BlobStore.ObjectStore.RewindTip | kernel/blobstore.c:312-329 | afterwards no free span ends at the tip |
| BlobStore.ObjectStore.SpanAdd | kernel/blobstore.c:297-310 | the extent is remembered, or lost only when the span table is full |
| BlobStore.ObjectStore.Delete | kernel/blobstore.c:413-431 | removes exactly that object; the leak grows only when the span table is full |
| BlobStore.ObjectStore.Resize | kernel/blobstore.c:433-456 | fails iff the 32-bit tests refuse; for every 64-bit size the store stays in order, with that object's size changed and all its bytes kept, iff the call fails, or the page count fits 32 bits and the tip sum does not wrap |
| BlobStore.ObjectStore.Read | kernel/blobstore.c:463-487 | changes no byte; for every offset and length it returns exactly the stored bytes clipped to the object's size iff the object is missing, the offset is past its size, or offset plus length does not wrap 64 bits |
| BlobStore.ObjectStore.Write | kernel/blobstore.c:489-519 | for every offset and length: exactly which bytes of which pages change; the store stays in order with the buffer spliced into that object and no other changed iff the object is missing, the resize is refused, or the 64-bit end does not wrap and the resize is in order |
| BlobStore.ObjectStore.Sync | kernel/blobstore.c:521-531 | the device holds every byte and the table |
| BlobStore.ObjectStore.Load | kernel/blobstore.c:533-548 | starts over from the device: the same objects with the bytes the device has, every page accounted for, pages lost at the tip since the last save regained; right after a sync nothing differs |
| BlobStore.ObjectStore.Check | kernel/blobstore.c:579-629 | 0 iff every test on the tables holds, and always 0 in a reachable state |
| BlobStore.Drive | kernel/blobstore.c:378-531 | every list of operations on a store is a run of its contents up to the first call that would not keep its step, so the run theorems hold of the code; with bounded arguments there is no such call |
| BlobStore.Decide | kernel/blobstore.c:378-519 | whether a call keeps its step can be computed before it |
| BlobStore.WrapHitsNeighbour | kernel/blobstore.c:489-519 | for all extents that adjoin: a two-byte write at offset 2^64 - 1 to the second object changes the last byte of the first |
| BlobStore.WrapAtWork | kernel/blobstore.c:378-519 | that write on a formatted store with two new objects |
| PageMap.AcquireOk | kernel/pmm.c:58-66 | taking a word keeps the words of mixed blocks pairwise distinct and the stack exactly the rest, and changes the meaning of that block only |
| PageMap.ReleaseOk | kernel/pmm.c:68-76 | giving a word back does the same |
| PageMap.WithBitsOk | kernel/pmm.c:104-146 | storing a word changes that block's pages only |
| PagePool.Reclaimable | kernel/pmm.c:379-381 | a page is not held by a client iff it is free in the map, on the stack or on a run |
| PagePool.TakeRun | kernel/pmm.c:287-303 | handing out the front of a run keeps held, stacked, listed and free pages pairwise disjoint |
| PagePool.PopSingle | kernel/pmm.c:281-285 | handing out the top of the stack does the same |
| PagePool.TakeFree | kernel/pmm.c:246-275 | so does handing out pages of the map |
| PagePool.PushSingle | kernel/pmm.c:338-344 | so does putting a held page on the stack |
| PagePool.PushRun | kernel/pmm.c:346-361 | so does listing a run of held pages |
| PagePool.ReturnFree | kernel/pmm.c:363-372 | so does returning a held page to the map |
| PageShelf.WordsShow | kernel/pmm.c:58-76 | the words in use are those of the blocks with both free and used pages, so the free set tells whether a word is left |
| PageShelf.CleanMarks | kernel/pmm.c:246-275 | a run whose every split without a word is harmless is marked exactly: the run leaves the free set, stack unchanged, count right |
| PageShelf.UncleanMarks | kernel/pmm.c:246-275 | any other run loses a free page outside it, or one of its pages is on the stack as well |
| PageShelf.RunCleanIff | kernel/pmm.c:246-275 | which of the two can be told beforehand from the run's first block, where in it the run starts, the words left and the all-free blocks further on |
| PageShelf.EnoughWords | kernel/pmm.c:246-275 | two words, or one for a single page, always suffice |
| PageShelf.LonePage | kernel/pmm.c:92-118 | splitting a block without a word for one page gives no page two holders, and loses none while the stack has room |
| PageShelf.RoomLosesNone | kernel/pmm.c:363-372 | taking pages back loses none while the stack has room for all of them |
| PageShelf.WordsLoseNone | kernel/pmm.c:363-372 | nor with two words left, or one for a single page: then all go back into the map |
| PageShelf.EdgesOnly | kernel/pmm.c:246-275 | adding or taking away a range leaves at most its two end blocks newly mixed |
| PageAllocator.Pmm.IsUsed | kernel/pmm.c:78-89 | the two-level test answers as the flat set of free pages |
| PageAllocator.Pmm.SpillExcept | kernel/pmm.c:92-102 | the block's other pages go on the single stack in order while it has room, and the count of used pages drops by as many |
| PageAllocator.Pmm.MarkUsed | kernel/pmm.c:104-124 | the compressed map does what the flat set does, in every regime: one page leaves it, or the block is spilled when it must be split and no word is left |
| PageAllocator.Pmm.SpillBlock | kernel/pmm.c:112-118 | the whole block leaves the free set, its other pages go on the stack and out of the count |
| PageAllocator.Pmm.MarkFree | kernel/pmm.c:126-146 | the same for taking a page back: into the free set, on the stack without a word, and nowhere with a full stack |
| PageAllocator.Pmm.WriteBits | kernel/pmm.c:119-146 | a word that becomes all ones or all zeros makes its block uniform, so no mixed block is ever uniform |
| PageAllocator.Pmm.ScanRun | kernel/pmm.c:249-262 | finds the first run of n free pages in the window, or there is none |
| PageAllocator.Pmm.MarkRange | kernel/pmm.c:263-266 | the marking loop does to free set, stack and count what marking the run on the flat set does, in every regime |
| PageAllocator.Pmm.AllocFromMap | kernel/pmm.c:246-275 | first fit from the cursor and round; NONE means no such run on either side of the cursor; everything stays in order and exactly the run is taken iff the run fits as RunCleanIff says; a single page from a spilled block leaves no page with two holders, but the count wrong |
| PageAllocator.Pmm.AllocPages | kernel/pmm.c:277-308 | stack, runs, then the map: pages off the lists are always handed out in order, pages of the map iff the run fits; a single page is refused only when the stack is empty and the map has no free page in reach |
| PageAllocator.NothingFree | kernel/pmm.c:246-275 | no single-page run found means the map has no free page in [256, highest] |
| PageAllocator.Pmm.CarveRun | kernel/pmm.c:287-303 | first fit on the run list; the rest stays listed or a lone page moves to the stack |
| PageAllocator.Pmm.FreePages | kernel/pmm.c:379-381 | the count returned is the number of reclaimable pages |
| PageAllocator.Pmm.OnFreelist | kernel/pmm.c:314-325 | true iff the page is stacked or on a run |
| PageAllocator.Pmm.FreeN | kernel/pmm.c:327-373 | a refused or unallocated range changes nothing; a range goes on a list exactly when it can; otherwise the held pages go back one by one, and exactly those in an all-used block with no word left and a full stack are lost: everything stays in order iff there is none |
| PageAllocator.Pmm.ReturnToMap | kernel/pmm.c:363-372 | the loop does to free set, stack and count what putting the pages back on the flat set does; all else stays in order iff no page is lost |
| PageAllocator.Pmm.RoomSuffices | kernel/pmm.c:363-372 | enough words or stack room mean that no page is lost |
| PageAllocator.Pmm.UsableRange | kernel/pmm.c:149-185 | the whole and partial blocks of a usable range become free, and two words suffice |
| PageAllocator.Pmm.Reserve | kernel/pmm.c:211-234 | a reserve pass takes exactly the free pages of its range out of the map and the total |
| PageAllocator.Pmm.constructor | kernel/pmm.c:187-240 | after pmm_init nothing is held, and for entries whose sums do not wrap RAM is exactly the pages wholly in a usable entry, from 1 MiB on, that no kernel, bootloader or framebuffer entry touches |
| PageAllocator.UsableExactIff | kernel/pmm.c:204-208 | the 64-bit sums name exactly the pages wholly inside a usable entry iff they do not wrap, or it makes no difference below the map's end |
| PageAllocator.ReservedExactIff | kernel/pmm.c:220-230 | the same for the pages that a reserved entry touches |
| PageAllocator.RamIs | kernel/pmm.c:201-236 | which pages those are, page by page |
| PageAllocator.UsableWraps | kernel/pmm.c:204-208 | an entry that wraps and gives no page, and an empty one that gives all |
| PageAllocator.AscendingSorted | kernel/pmm.c:201-209 | entries in ascending order whose sums do not wrap meet what pmm_init is proved for |
| PageExhaust.TwoHolders | kernel/pmm.c:104-373 | a sequence of calls from boot to a page that a client holds and that is on the stack too |
| PageExhaust.SparseMixed | kernel/pmm.c:126-137 | one free page in each of 4096 blocks takes every word |
| SchedModel.BootInv | kernel/sched.c:72-86 | the invariant holds after sched_init |
| SchedModel.YieldInv | kernel/sched.c:250-290 | a yield keeps it |
| SchedModel.SpawnInv | kernel/sched.c:141-210 | a spawn keeps it, reaping a zombie's stack exactly once |
| SchedModel.ExitInv | kernel/sched.c:292-303 | an exit keeps it |
| SchedModel.KillInv | kernel/sched.c:305-330 | a kill keeps it |
| SchedModel.SleepInv | kernel/sched.c:356-365 | going to sleep keeps it, for any number of ticks |
| SchedModel.CacheStepIff | kernel/sched.c:332-365 | of all steps exactly one makes the cached wake tick wrong: a sleep whose deadline is 2^64 while another task has a timer |
| SchedModel.CacheRunIff | kernel/sched.c:332-365 | over every run the cached wake tick is a lower bound of all timers all along iff no step is such a sleep |
| SchedModel.LostForGood | kernel/sched.c:332-354 | once the cached tick is 0 a blocked task stays blocked over every run until somebody sleeps anew or kills it |
| SchedModel.SleeperLost | kernel/sched.c:332-365 | a run from boot, for every starting tick, to a task with a timer that is lost so |
| SchedModel.TickInv | kernel/sched.c:332-354 | a timer interrupt keeps it |
| SchedModel.RunInv | kernel/sched.c:141-392 | over every interleaving, with sleeps of any length: mask bit iff READY, RUNNING only if current, stacks freed at most once and never while live, pids distinct, a sleeper keeps its timer until the deadline |
| SchedModel.OnlyReadyRuns | kernel/sched.c:212-290 | a step that changes the current task picks one that was READY, or slot 0 |
| SchedModel.ZombieNeverRuns | kernel/sched.c:292-330 | once left, a zombie never runs again before its slot has been respawned |
| SchedRuns.KillExact | kernel/sched.c:305-330 | a kill that can be carried out makes exactly the live task of that pid a zombie without its mask bit; any other changes nothing |
| SchedRuns.KilledNeverRuns | kernel/sched.c:212-330 | over every run after a kill that was carried out, no state has a current task with that pid |
| SchedRuns.ExitedNeverRuns | kernel/sched.c:212-303 | over every run after an exit and its first yield, no state has a current task with that pid |
| SchedRuns.YieldHandsOver | kernel/sched.c:212-290 | a yield changes only the old and the new current task; the new one is the first READY slot counting up from the old, or the lowest under GUI load; with no other READY the current goes on, or slot 0 if it is blocked or a zombie |
| SchedRuns.SpawnFills | kernel/sched.c:141-210 | the slot taken is the first not alive, and is filled with a READY task of the next pid |
| SchedRuns.TickAwakens | kernel/sched.c:332-354 | while the cached wake tick is right a tick makes READY exactly the blocked tasks whose tick has come |
| SchedModel.YieldCloser | kernel/sched.c:212-248 | with no slot favoured every yield makes the cyclic distance to a waiting task strictly smaller |
| SchedModel.BoundedWaiting | kernel/sched.c:212-290 | a task that stays READY becomes current within MAX_TASKS yields at which no slot is favoured, whatever else happens in between |
| SchedModel.WaitingEndsIff | kernel/sched.c:212-248 | by yields alone a READY task becomes current, within MAX_TASKS of them, iff it is not starving: no GUI load, or slot 0 able to run, or fewer than two lower slots able to run; a starving one never does |
| SchedModel.NoLoadFair | kernel/sched.c:440-440 | runs without GUI load favour no slot |
| SchedModel.StarvingStep | kernel/sched.c:212-290 | a yield keeps a starving task starving, and off the processor |
| SchedModel.StarvationReached | kernel/sched.c:141-440 | a run from boot to a starving task: three spawns, a noted GUI load, and a sleep of the boot task |
| SchedModel.FastPathAgrees | kernel/sched.c:332-354 | when the shortcut applies a full scan would wake nobody |
| SchedModel.TickWakesAllDue | kernel/sched.c:332-354 | while the cached wake tick is right, no due sleeper is still blocked after a timer interrupt |
| SchedModel.SleepReturnsOnTime | kernel/sched.c:366-376 | sched_sleep_ticks returns at or after its deadline iff the deadline fits the 64-bit tick counter |
| SchedModel.SleepReturnsEarly | kernel/sched.c:356-376 | a sleep of 2^64 - 1 ticks that may return at once |
| SchedModel.SleepKeepsCacheIff | kernel/sched.c:356-365 | the cached wake tick stays usable iff the deadline does not wrap to 0 while others sleep |
| Scheduler.Scheduler.constructor | kernel/sched.c:72-86 | implements the boot state |
| Scheduler.Scheduler.Spawn | kernel/sched.c:141-210 | -1 iff no stack or every slot alive; otherwise the next pid, with the first slot not alive filled by a new READY task, its old stack given back and nothing else changed |
| Scheduler.Scheduler.FindSlot | kernel/sched.c:141-165 | the first unused or reapable slot |
| Scheduler.Scheduler.Pick | kernel/sched.c:212-248 | the bit search picks the task the model's round robin with bias picks |
| Scheduler.Scheduler.NoteGuiLoad | kernel/sched.c:440-440 | implements the load step |
| Scheduler.Scheduler.Yield | kernel/sched.c:250-290 | implements the yield step; the two tasks change hands as HandsOver says |
| Scheduler.Scheduler.Exit | kernel/sched.c:292-303 | implements the exit step: the current task alone becomes a zombie and leaves the mask |
| Scheduler.Scheduler.Kill | kernel/sched.c:305-330 | 0 iff the pid is positive, neither the current task's nor slot 0's, and a live task has it; then exactly that task becomes a zombie and leaves the mask; -2 for the current task and slot 0; otherwise nothing changes |
| Scheduler.Scheduler.WakeSleepers | kernel/sched.c:332-354 | one pass wakes exactly the due sleepers and caches the earliest remaining wake tick |
| Scheduler.Scheduler.SleepTicks | kernel/sched.c:356-365 | implements the sleep step for any number of ticks: the current task alone is blocked with its 64-bit wake tick; the cached wake tick stays right iff the step is not the one of CacheStepIff |
| Scheduler.Scheduler.FinishSleep | kernel/sched.c:366-376 | returns not before the deadline when it fits 64 bits |
| Scheduler.Scheduler.OnTimer | kernel/sched.c:378-392 | implements the timer step; while the cached wake tick is right, exactly the blocked tasks whose tick has come are READY, and it stays right; asks for rescheduling iff another task is READY or it was asked before |
| PageTables.PteRoundTrip | boot/common/paging.c:4-6 | the bits the code sets and tests encode present, writable, huge and the address |
| PageTables.SameRegionIff | boot/common/paging.c:23-26 | equal table indices mean the same 2 MiB region or 4 KiB page of the 48-bit space |
| PageTables.GrowTidy | boot/common/paging.c:28-47 | hanging a new table under an absent entry keeps every table reached by one path only |
| PageTables.GrowTranslate | boot/common/paging.c:28-47 | and changes no translation |
| PageTables.MapPageMeans | boot/common/paging.c:48-54 | writing a last-level entry maps exactly the addresses of its page |
| PageTables.MapRegionMeans | boot/common/paging.c:77-80 | writing a huge entry maps exactly the addresses of its 2 MiB region |
| BootPaging.ArenaTestExactIff | boot/common/load_ctx.c:27-32 | the arena's 64-bit test is right iff the sum does not wrap back below the end |
| BootPaging.ArenaTestWraps | boot/common/load_ctx.c:27-32 | a concrete request that the wrapped test lets through |
| BootPaging.RangeExactIff | boot/common/paging.c:88-105 | a range is mapped byte for byte iff both ends sit alike in their pages and the range does not run into one page more than its length fills |
| BootPaging.UnalignedRanges | boot/common/paging.c:88-105 | one byte of physical address 1 mapped at a page's start leads to 0; of two bytes on two pages the second stays as it was |
| BootPaging.RangeAtWork | boot/common/paging.c:88-105 | boot_map_range on such a range after boot_paging_init |
| BootPaging.BootExactIff | boot/common/paging.c:107-131 | every p below the requested end translates to p at p and at HHDM+p iff that end is at most 2^47 |
| BootPaging.BootOverlaps | boot/common/paging.c:107-131 | with an end one byte above 2^47 address 0 leads to 2^47 |
| BootPaging.BootAtWork | boot/common/paging.c:107-131 | boot_paging_init with that end, on an arena with room |
| BootPaging.BootStep | boot/common/paging.c:119-124 | one frame more in low memory and in the direct map |
| BootPaging.LoadCtx.constructor | boot/common/load_ctx.c:17-25 | an empty arena |
| BootPaging.LoadCtx.AllocPages | boot/common/load_ctx.c:27-37 | the next pages of the arena, cleared; 0 iff they do not fit |
| BootPaging.LoadCtx.AllocTable | boot/common/paging.c:12-18 | a cleared page not used as a table before |
| BootPaging.LoadCtx.Walk | boot/common/paging.c:28-41 | reaches the table of 2 MiB entries, allocating as needed, without changing any translation |
| BootPaging.LoadCtx.Map4k | boot/common/paging.c:20-55 | on success exactly the addresses of the page lead to the frame; on failure, which needs an exhausted arena or a 2 MiB entry that was in the way before, no translation changes; takes at most three tables |
| BootPaging.LoadCtx.Map2m | boot/common/paging.c:57-81 | the same for a 2 MiB region |
| BootPaging.LoadCtx.MapRange | boot/common/paging.c:88-105 | the pages done are mapped to consecutive frames and every address outside keeps its translation; 0 iff all are done, and otherwise the arena is exhausted or a 2 MiB entry was in the next page's way |
| BootPaging.LoadCtx.PagingInit | boot/common/paging.c:107-131 | on success the whole translation is the low identity map and the direct map, and nothing else is mapped; fails only with an exhausted arena, and takes at most four tables a frame and one more |
| ElfLoader.SpanHolds | boot/common/elf_load.c:97-112 | every loaded segment lies between the bounds found |
| ElfLoader.SegmentsOnOtherPages | boot/common/elf_load.c:128-141 | disjoint page-aligned segments share no page of the 48-bit space |
| ElfLoader.LoadStep | boot/common/elf_load.c:122-142 | loading one more disjoint segment keeps those loaded and leaves the others zero |
| ElfLoader.Bounds | boot/common/elf_load.c:97-112 | accepts iff every program header is acceptable; the bounds are the least address and the greatest end |
| ElfLoader.MapSegment | boot/common/elf_load.c:133-141 | maps exactly the segment's pages to consecutive frames, unless there is no root table, a 2 MiB entry is in the way, or the arena is exhausted |
| ElfLoader.LoadSegments | boot/common/elf_load.c:122-142 | all segments copied and mapped, and memory outside the image untouched; fails only for those causes in one of them |
| ElfLoader.Load | boot/common/elf_load.c:68-149 | with room in the arena it succeeds iff the image is not rejected, there is a root table and no 2 MiB entry is in the way; then every vaddr+k of a disjoint segment reads, through the tables, the file byte or 0 with the right permission, and nothing else changes (what the file then says is in LoadElf) |
| ElfImage.LoadElf | boot/common/elf_load.c:68-149 | on a file with the given header and segments at their gABI places: no PT_LOAD segment with both W and X is ever loaded, the entry is the written one, and every vaddr+k of a separate segment reads the written byte and is writable iff its W was written; it succeeds iff header and segments are acceptable, when there is room and no 2 MiB entry in the way |
| ElfImage.HeaderOkIff | boot/common/elf_load.c:74-95 | the header test accepts exactly the files whose written header has the right magic, class, encoding, versions, machine, type and table |
| ElfImage.PhdrsAre | boot/common/elf_load.c:40-49 | the program headers are read back as written: kind, offset, vaddr, filesz, memsz, align, and W and X as the bits 2 and 1 of the flags |
| ElfImage.PhdrOkIff | boot/common/elf_load.c:51-66 | a written segment is acceptable iff it is not PT_LOAD, or it is not both W and X, its bytes lie in the file and do not exceed its memory, and its address is a multiple of 4096 and of its power-of-two alignment |
| ElfImage.RejectedIff | boot/common/elf_load.c:74-113 | a written file is turned away iff a header is not acceptable or no segment has anything to load |
| ElfImage.SpanTight | boot/common/elf_load.c:97-111 | the span starts at a loaded segment and ends at the end of one |
| ElfImage.BitAndLow | boot/common/elf_load.c:61-64 | the mask tests are remainders by powers of two |
| ElfImage.WriterWrites | boot/common/elf_load.c:23-49 | writing header fields, then the table, then data gives such a file |
| Sha256.PaddedIsStandard | boot/common/sha256.c:104-119 | the padding is the one of section 5.1.1 of FIPS 180-4 for every message the standard admits |
| Sha256Roots.KeysAreCubeRoots | boot/common/sha256.c:3-12 | each round constant is the first 32 bits of the fraction of the cube root of its prime, as inequalities between cubes |
| Sha256Roots.StartIsSquareRoots | boot/common/sha256.c:73-80 | each initial word is the first 32 bits of the fraction of the square root of its prime |
| Sha256.BeBytesValue | boot/common/sha256.c:29-34 | the big-endian length bytes have the length as value |
| Sha256.HashBlocksAppend | boot/common/sha256.c:86-102 | hashing whole blocks and then more is hashing all of it |
| Sha256Stream.Context.constructor | boot/common/sha256.c:72-84 | the state of the empty message |
| Sha256Stream.Context.Update | boot/common/sha256.c:86-102 | the context stands for the message extended by the data, however it was cut |
| Sha256Stream.Context.Final | boot/common/sha256.c:104-119 | the digest is the block fold of section 6.2 of FIPS 180-4 over the padded message |
| Sha256Stream.Context.Transform | boot/common/sha256.c:36-70 | the in-place rounds compute the compression function of section 6.2.2 |
| Sha256Stream.Context.BuildSchedule | boot/common/sha256.c:37-45 | the array holds the message schedule |
| Sha256Stream.Context.RunRounds | boot/common/sha256.c:46-61 | the loop is the 64-fold round function |
| Sha256Stream.LastZeros | boot/common/sha256.c:104-116 | one or two final blocks carry the fewest zeros that leave room for the length |
| Sha256Stream.HmacSha256 | boot/common/hmac_sha256.c:4-36 | the construction of section 2 of RFC 2104 for keys of any length |
| Sha256Stream.PadKey | boot/common/hmac_sha256.c:7-16 | long keys are hashed, short ones zero-padded |
| VecMath.ISqrt | kernel/peakvec.c:159-175 | the exact integer root below 2^32 and 65535 from there on |
| VecMath.RootUnique | kernel/peakvec.c:159-175 | the bounded root is unique |
| VecMath.DotBatched | kernel/peakvec.c:178-187 | four partial sums equal the plain dot product |
| VecMath.DotChange | kernel/peakvec.c:178-187 | changing one component changes a dot product by the difference times the other vector's component |
| VecMath.DotNothing | kernel/peakvec.c:178-187 | the dot product with zero is 0, so with DotChange it is the sum of the products |
| VecMath.NormBatched | kernel/peakvec.c:189-199 | and the squared norm |
| VecMath.DotBound | kernel/peakvec.c:178-187 | no 64-bit overflow |
| VecMath.CauchySchwarz | kernel/peakvec.c:223-249 | the square of a dot product is at most the product of the squared norms |
| VecMath.ScoreBound | kernel/peakvec.c:223-249 | every score is within 25000, within 4000 for norms below 2^32, so it fits 32 bits and exceeds the empty hit's |
| VecMath.Cosine | kernel/peakvec.c:223-249 | a candidate is skipped only if its score is no better than the worst hit; otherwise the score is the full scan's (for what a score is see ScoreIs) |
| VecMath.ScoreIs | kernel/peakvec.c:223-249 | a score s is 1000 times the dot product over the product d of the roots, cut toward zero: 1000 dot and s d differ by less than d, s d is no further from 0 and on the same side, and no other number is so; 0 if a root is 0 |
| VecMath.ScoreSelf | kernel/peakvec.c:223-249 | a vector that is not zero scores at least 1000 against itself |
| VecMath.ScoreOpposite | kernel/peakvec.c:223-249 | the opposite vector has the opposite score, at most -1000 against the vector itself |
| VecMath.ScoreOrthogonal | kernel/peakvec.c:223-249 | orthogonal vectors score 0 |
| VecMath.ScoreSwaps | kernel/peakvec.c:223-249 | the score is symmetric |
| VecMath.VecBucket | kernel/peakvec.c:65-76 | the bucket of the first component of greatest magnitude, with the 16-bit negation as it is |
| VecMath.BucketIs | kernel/peakvec.c:65-76 | which component decides the bucket: the first of those whose square is greatest, components of -32768 aside, or component 0 |
| VecMath.ProbedIff | kernel/peakvec.c:78-85 | the probed buckets are those at most one step away on the ring of 16 |
| VecMath.Normalise | kernel/peakvec.c:137-156 | computes the scaled vector |
| VecMath.NormalFormBound | kernel/peakvec.c:137-156 | below 2^32 nothing is cut off and the squared norm of an embedding stays below 2^32 |
| VecMath.NormalFormIs | kernel/peakvec.c:137-156 | below 2^32 each component is 10000 times the given one over the root of the norm, cut toward zero |
| TopK.BestRanked | kernel/peakvec.c:648-667 | insertion keeps exactly the k best candidates, best first, ties by arrival |
| TopK.RankedUnique | kernel/peakvec.c:648-667 | that ranking is unique |
| PeakVec.MembersExact | kernel/peakvec.c:622-634 | a pass visits exactly the namespace's slots its filter admits, in slot order |
| PeakVec.VisitedExact | kernel/peakvec.c:622-634 | without the shortcut every slot of the namespace is visited once, with it those of the three probed buckets |
| PeakVec.OfferStep | kernel/peakvec.c:650-667 | offering a candidate to the list is inserting it into the ranking |
| PeakVec.SkipStep | kernel/peakvec.c:637-649 | a candidate no better than the worst of a full list changes nothing |
| PeakVec.ShowsTop | kernel/peakvec.c:586-689 | the list shows the best slots: sorted, distinct, and nothing better left out |
| PeakVec.TiesFollowSlots | kernel/peakvec.c:586-689 | equal scores keep slot order when slots are visited in order |
| PeakVec.QueryMeaning | kernel/peakvec.c:586-689 | without the shortcut the hits are the top min(k, n) of the namespace, ties by slot when buckets are off; with it the top of three buckets, all above 500 |
| PeakVec.SelfFound | kernel/peakvec.c:586-689 | asked for a stored vector that is not zero, the best hit scores at least 1000 |
| PeakVec.NsSameIff | kernel/peakvec.c:46-63 | two namespace names are one namespace iff they are equal or agree in their first 31 characters; no name means agent |
| PeakVec.Index.Offer | kernel/peakvec.c:650-667 | the in-place shift inserts at the first worse hit |
| PeakVec.Index.Scan | kernel/peakvec.c:622-667 | one pass with early-out shows what the naive scan shows |
| PeakVec.Index.Query | kernel/peakvec.c:586-689 | the two passes, the threshold and the shortcut, equal to the ranking of the slots visited |
| PeakVec.UpsertLookup | kernel/peakvec.c:504-551 | an upsert is a map update for keys that fit |
| PeakVec.UpsertDistinctIff | kernel/peakvec.c:504-551 | one row per key survives an upsert iff the key is found or its stored form is not another row's key |
| PeakVec.LongKeyTwice | kernel/peakvec.c:528-534 | a key longer than its buffer written twice makes two rows |
| PeakVec.DeleteLookup | kernel/peakvec.c:553-579 | a delete removes that key and no other, although the last row moves |
| PeakVec.Index.constructor | kernel/peakvec.c:465-483 | a fresh index |
| PeakVec.Index.EnsureCapacity | kernel/peakvec.c:341-405 | grows by doubling up to the maximum and keeps every row and cache; fails iff over the maximum or without memory |
| PeakVec.Index.CacheEntry | kernel/peakvec.c:201-209 | norm, root and bucket caches agree with the vector |
| PeakVec.Index.Upsert | kernel/peakvec.c:504-551 | replaces or appends the row and keeps the caches coherent; fails iff not ready, not permitted or no room |
| PeakVec.Index.Delete | kernel/peakvec.c:553-579 | moves the last row into the gap; -1 iff not ready or not found |
| VfsPath.NormalizeIdempotent | kernel/vfs.c:486-536 | a normalised path is canonical, fits its buffer and normalises to itself |
| VfsPath.RenderInjective | kernel/vfs.c:486-536 | different component lists are written differently |
| VfsLaws.ComponentLaw | kernel/vfs.c:496-519 | for every path and every further component: once there are 32 it is ignored; otherwise one of 64 or more characters is an error, . adds nothing, .. takes the last name away if any, and a name is added |
| VfsLaws.MeansSomething | kernel/vfs.c:486-536 | every text from a slash on is refused or stands for some components; / stands for none |
| VfsLaws.UpLaw | kernel/vfs.c:496-519 | p/name/..s normalises as ps, for all texts p and s, unless the name is the 32nd component |
| VfsLaws.UpLawIff | kernel/vfs.c:496-519 | p/name/.. normalises as p iff p does not stand for 31 components |
| VfsLaws.BrimLaw | kernel/vfs.c:496-519 | if it does, the name stays and all that follows is ignored |
| VfsLaws.BrimAtWork | kernel/vfs.c:496-519 | 31 times /a, then /b/..: the b stays |
| VfsLaws.FewSlashes | kernel/vfs.c:496-519 | with at most 30 slashes it never does |
| VfsLaws.DotLaw | kernel/vfs.c:496-519 | p/.s normalises as ps |
| VfsLaws.SlashLaw | kernel/vfs.c:496-519 | doubled slashes are one, and a slash at the end none |
| VfsLaws.RootLaw | kernel/vfs.c:496-519 | /..s normalises as s, or as / if s is empty |
| VfsLaws.NeverLonger | kernel/vfs.c:486-536 | normalising never makes a text longer |
| VfsPath.Collect | kernel/vfs.c:496-519 | the scan collects the components as the laws of VfsLaws say |
| VfsPath.Normalize | kernel/vfs.c:486-536 | the loops compute the path or error that the laws of VfsLaws describe |
| VfsPath.Write | kernel/vfs.c:520-535 | the text is written iff it fits |
| VfsPath.PartsSplit | kernel/vfs.c:281-303 | a path's components are its directory's and then its name |
| VfsPath.RenderParts | kernel/vfs.c:212-235 | a written path is read back by a lookup |
| VfsTree.PathsUnique | kernel/vfs.c:95-106 | no two nodes have the same path: the links form a tree |
| VfsTree.FillKeeps | kernel/vfs.c:70-93 | a reused or new slot joins with all bucket heads still true |
| VfsTree.AttachKeeps | kernel/vfs.c:95-106 | prepending a child keeps links, names, bucket heads and paths |
| VfsTree.DetachKeeps | kernel/vfs.c:654-681 | taking a child out moves its bucket head to the next child of that bucket and keeps the rest |
| VfsTree.DropKeeps | kernel/vfs.c:712-721 | freeing a childless detached slot keeps the tree |
| VfsTree.RenameOk | kernel/vfs.c:764-797 | a rename to a directory outside the source keeps the tree and moves exactly the subtree's paths |
| VfsTree.RenameTreeIff | kernel/vfs.c:764-797 | the nodes are still a tree after a rename iff the target directory is neither the source nor below it |
| VfsTree.Ancestor | kernel/vfs.c:212-235 | every prefix of a node's path is a directory of the tree |
| Vfs.Pool.constructor | kernel/vfs.c:108-113 | a lone root directory |
| Vfs.Pool.FindChild | kernel/vfs.c:119-146 | the search from the bucket head finds a child iff a linear search of the siblings does |
| Vfs.Pool.Lookup | kernel/vfs.c:212-235 | finds the node with that path, or the path is not in the tree |
| Vfs.Pool.AllocNode | kernel/vfs.c:70-93 | takes the first free slot; fails iff all are in use |
| Vfs.Pool.AddChild | kernel/vfs.c:95-106 | implements the attachment |
| Vfs.Pool.Mkdir | kernel/vfs.c:237-279 | adds exactly the missing directories of the path; fails only where something else stands or the pool is full |
| Vfs.Pool.CreateFile | kernel/vfs.c:281-316 | an existing file stays, a missing one appears empty with its parents |
| Vfs.Pool.WriteFile | kernel/vfs.c:318-351 | sets the bytes of that file and of no other, creating it if missing |
| Vfs.Pool.Symlink | kernel/vfs.c:633-652 | adds a link with its target where nothing was; fails only for a refused text, an obstacle on the way or a full pool |
| Vfs.Pool.UnlinkFromParent | kernel/vfs.c:654-681 | the pointer walk implements the detachment, head update included |
| Vfs.Pool.Unlink | kernel/vfs.c:683-722 | removes exactly that file or link; the error says why not |
| Vfs.Pool.Rmdir | kernel/vfs.c:724-745 | removes a directory iff nothing lies below it |
| Vfs.Pool.NodePath | kernel/vfs.c:538-560 | writes the node's path |
| Vfs.Pool.RemoveTree | kernel/vfs.c:747-762 | removes exactly the subtree, in finitely many steps |
| Vfs.Pool.Rename | kernel/vfs.c:764-797 | succeeds iff the source is there and not the root, the target is not there and its directory is; then it moves exactly the subtree and keeps the tree iff the target is not below the source |
| VfsCycle.RenameIntoItself | kernel/vfs.c:764-797 | a new directory renamed to a name below itself: the call succeeds and the nodes are no tree |
| VfsResolve.WalkThroughIff | kernel/vfs.c:183-204 | a walk gets through iff every prefix exists, none is a link and all but the last are directories |
| VfsResolve.ResolvedSound | kernel/vfs.c:180-208 | a resolved path is canonical, fits and has no link on any prefix |
| VfsResolve.ResolvedSelf | kernel/vfs.c:180-208 | a path without links resolves to itself |
| VfsResolve.ResolveMeaning | kernel/vfs.c:180-208 | on success the result exists, has no link on any prefix and resolves to itself |
| VfsLinks.LinkMeans | kernel/vfs.c:164-208 | for a link, the first on the way, and any target text that fits with the rest: the path resolves as the components that the text with the link replaced stands for, with one expansion less |
| VfsLinks.RelativeLink | kernel/vfs.c:164-208 | d/n/r through a link n to the names t resolves as d/t/r |
| VfsLinks.AbsoluteLink | kernel/vfs.c:164-208 | and through a link to /t as /t/r |
| VfsLinks.ParentLink | kernel/vfs.c:164-208 | and through a link to .. as the directory above d, then r |
| VfsLinks.LinkRefused | kernel/vfs.c:164-208 | if that text is refused, so is the path |
| VfsLinks.ResolvedStops | kernel/vfs.c:183-204 | a missing component, a file on the way and a link with no expansion left give NotFound, NotDir and Loop |
| VfsLinks.LinkCut | kernel/vfs.c:164-208 | a text that does not fit is cut at 255 characters and the components of the cut text are resolved |
| VfsLinks.CutName | kernel/vfs.c:164-208 | so a path one character too long resolves to a name one character shorter |
| VfsLinks.CutNameAtWork | kernel/vfs.c:164-208 | names of 63 letters for which that happens |
| VfsResolve.Join | kernel/vfs.c:148-155 | the joined text normalised; a text too long for the buffer is refused |
| VfsResolve.Dirname | kernel/vfs.c:156-163 | the parent of a canonical path |
| VfsResolve.Expand | kernel/vfs.c:164-179 | the link's target and the rest, normalised (LinkMeans); cut where the buffer ends as the code cuts it (LinkCut) |
| VfsResolve.Resolve | kernel/vfs.c:180-208 | terminates within eight expansions with the result or error that LinkMeans, ResolvedStops and ResolvedSelf describe |
| PeakImage.PathAllowed | kernel/vfs_path_util.c:9-36 | the text test for the namespaces and for .. components (AllowedStays, AllowedIff) |
| PeakFsPaths.AllowedStays | kernel/vfs_path_util.c:9-36 | an allowed text, whatever its slashes and dots, stands for a path inside the namespaces of the profile |
| PeakFsPaths.AllowedIff | kernel/vfs_path_util.c:9-36 | a canonical path is allowed iff its components lie there |
| PeakImage.ImageRoundTrip | kernel/vfs_peakfs.c:145-175 | an image written from acceptable entries is accepted and gives them back |
| PeakImage.Validate | kernel/vfs_peakfs.c:145-175 | the first pass accepts iff every entry is bounded, well-formed and allowed, with the first error otherwise |
| PeakFs.AllowedPersist | kernel/vfs_path_util.c:9-36 | every accepted entry is about a path in the persistent namespaces |
| PeakFs.EntryAccepted | kernel/vfs_peakfs.c:290-337 | every exported entry is acceptable |
| PeakFs.TargetBack | kernel/vfs_peakfs.c:76-105 | reading an exported entry leads back to its path |
| PeakFs.GrewGood | kernel/vfs_peakfs.c:76-105 | writing inside the namespaces changes nothing outside them and keeps the tree clearable |
| PeakFs.AppliedRestores | kernel/vfs_peakfs.c:76-105 | applying a tree's entries, in any order, puts its objects in place and adds nothing else |
| PeakFs.LoadRestores | kernel/vfs_peakfs.c:145-201 | loading a saved tree's entries restores it exactly; the audit log is the saved one, or else what clearing kept |
| PeakFsIo.PoolSize | kernel/vfs.c:70-93 | a full pool holds as many objects as it has slots, and no tree holds more |
| PeakFsIo.IoPathPlain | kernel/vfs.c:209-211 | without links a read or write uses the normalised path |
| PeakFsIo.WriteAt | kernel/vfs.c:318-351 | writes that path only, and succeeds iff no obstacle is on the way, nothing but a file at its end, and the pool has room for what is missing; a failure adds at most directories |
| PeakFsIo.MakeDir | kernel/vfs.c:237-279 | makes the missing directories, and succeeds iff no obstacle is on the way and the pool has room |
| PeakFsIo.MakeLink | kernel/vfs.c:633-652 | adds a link, and succeeds iff its texts are not refused, nothing is there, no obstacle is on the way and the pool has room |
| PeakFsIo.SaveAudit | kernel/vfs_peakfs.c:24-43 | at most 64 KiB of a non-empty audit log are kept |
| PeakFsIo.ClearPersist | kernel/vfs_peakfs.c:18-61 | the three namespaces become empty directories, the kept log is back, and everything else is untouched |
| PeakFsLoad.ApplyEntries | kernel/vfs_peakfs.c:76-105 | gets through iff every entry can be applied in its turn, and then the map is the entries applied; otherwise stops at the first that cannot, having added at most directories for it; nothing outside the namespaces changes |
| PeakFsExport.StreamEntry | kernel/vfs_peakfs.c:261-288 | writes the entry's encoding iff it fits below the limit |
| PeakFsExport.WalkRec | kernel/vfs.c:933-966 | writes the entries of a node and of everything below it iff they all fit below the limit |
| PeakFsExport.ListingLists | kernel/vfs.c:933-966 | the entries in the order of the walk are those of exactly the objects at and below the node |
| PeakFsExport.ListingCount | kernel/vfs.c:933-966 | and there is one entry for each of them |
| PeakFsExport.TreeEntriesList | kernel/vfs_peakfs.c:354-374 | an image's entries are those of exactly the persistent objects |
| PeakFsExport.TreeEntriesOnce | kernel/vfs_peakfs.c:354-374 | and there is one entry for each of them |
| PeakFsExport.ExportSize | kernel/vfs_peakfs.c:208-386 | the size pass gives the image's size iff it is within the limit, and otherwise a number the image does not fit in |
| PeakFsExport.Export | kernel/vfs_peakfs.c:354-404 | writes the image of the tree iff the image fits the buffer and the format |
| PeakFsLoad.Restore | kernel/vfs_peakfs.c:124-143 | succeeds iff the pool has room for the snapshot's tree, and then gives it back |
| PeakFsLoad.Load | kernel/vfs_peakfs.c:145-201 | a validation error leaves the tree untouched; otherwise loads iff every entry can be applied to the cleared tree, and what a failure comes to follows from the state before the call: rolled back, emptied without a snapshot, or stuck when the pool was full and a log is kept that the prior tree did not have |
| PeakFsLoad.Snapshot | kernel/vfs_peakfs.c:107-122 | a snapshot is had iff its buffer is and the image is within the format's limit |
| PeakFsLoad.RestoreFits | kernel/vfs_peakfs.c:76-105 | a saved tree's entries can all be applied iff the outcome fits the pool |
| PeakFsLoad.ListedLoads | kernel/vfs_peakfs.c:145-201 | that is, iff the objects outside the namespaces, the saved tree's and a kept log together do |
| PeakFsLoad.RollBackRoom | kernel/vfs_peakfs.c:185-197 | exactly when there is room to roll back |
| PeakFsStuck.RollBackGetsStuck | kernel/vfs_peakfs.c:145-201 | a tree and an image whose load fails and cannot be rolled back |
| PeakFsStuck.StuckAtWork | kernel/vfs_peakfs.c:145-201 | the same through the code: a new pool filled with files, and vfs_load_ramdisk on that image |
| PeakFsLoad.SaveAndLoad | kernel/vfs_peakfs.c:145-404 | exporting one tree and loading the image into another works iff the image fits and the pool has room, and then the namespaces are the exported ones and all else is as before |
| PeakFsLoad.ExportLoadRoundTrip | kernel/vfs_peakfs.c:145-201 | the image of a saved tree is accepted, its entries can all be applied iff there is room, and applying them restores the tree |

## Left out

Outside the model:

- Device errors, `lru_tick` and object id wrap-around in the object store; between 1 and 63 cache pages are assumed, as the index has 64 positions. The device has a page for every 32-bit index, so that wrapped indices lead somewhere.
- The cut of the object store's read and write results to `int`: the results are the counts before it. Where a call keeps its step the count is at most 2^28, so the cut changes nothing there.
- The on-disk bytes of the object store's table: saving and loading it is a copy of the table.
- Hardware page-table attributes beyond present, writable and huge, and `boot_paging_activate`.
- The network and agent worker threads, task names, CPU accounting and locks: every scheduler operation is one step.
- Persistence of the vector index, its statistics and system calls, and the hashing of text into accumulators.
- Hard links, file modes, blob-backed files, copying of files and trees, directory listings, and error texts of the file system.
- Heap failures, except where a parameter says that memory could not be had.
- Privilege checks, clocks and the busy flag of the disk writer are parameters or fields.

Deliberately narrower contracts:

- PageAllocator.Pmm.FreeN: for RAM pages.
- PageAllocator.Pmm.UsableRange: nothing is stated with fewer than two words; `pmm_init` always has more, as its constructor shows.
- PageAllocator.Pmm.Reserve: the same.
- PageAllocator.Pmm.constructor: for usable entries whose pages come in ascending order, and at most the number of entries the boot information holds.
- BootPaging.LoadCtx.constructor: for a page-aligned arena below 2^47, which the identity map covers.
- BootPaging.LoadCtx.AllocPages: for requests whose end does not wrap 64 bits; `ArenaTestExactIff` says what the test does otherwise.
- BootPaging.LoadCtx.MapRange: for ranges of at most 2^48 bytes that do not wrap.
- ElfLoader.Load: for accepted images whose segments and span do not wrap; the image file does not overlap the arena.
- ElfImage.LoadElf: the same, and when it succeeds is stated for alignments of 0 or a power of two.
- Vfs.Pool.CreateFile: for paths whose last component is not empty and shorter than 64 characters.
- Vfs.Pool.WriteFile: for the same paths, and with heap memory available.
- Vfs.Pool.Symlink: for the same paths, and with heap memory available.
- Vfs.Pool.Rename: for targets of that form.
- Vfs.Pool.NodePath: for nodes at most 16 levels deep whose path fits the buffer.
- Vfs.Pool.RemoveTree: for subtrees at most 16 levels deep whose paths fit the buffer.
- VfsResolve.Dirname: for canonical paths, which is what its callers pass.
- PeakFsIo.WriteAt: for link-free trees, and with heap memory available.
- PeakFsIo.SaveAudit: for link-free trees.
- PeakFsIo.ClearPersist: for link-free trees with the three namespaces, within the same limits.
- PeakFsExport.Export: for link-free trees whose persistent paths are canonical, at most 16 levels deep and within the image format.
- PeakFsLoad.Load: under the full persistence profile, for trees and images within those limits; a failing entry is a parameter.
