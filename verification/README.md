# A verified model of a Pintos kernel

This project models four parts of a Pintos kernel in Dafny and proves what they
promise:

1. **The file store** (`Bytes`, `FreeMap`, `BufferCache`, `IndexTree`,
   `BlockStore`, `Inode`, `FileRuns`, `Directory`). A 64-entry write-back cache
   over a device refines a sector map; the sector map, the index tree and the
   free map refine byte strings; a byte string of 20-byte slots refines a map
   from names to inode sectors. `FileRuns.Run` ties the lower layers together:
   over every run of creates, opens, closes, writes and reads, the code gives
   exactly the answers of a machine whose files are byte strings and whose free
   map is a number.
2. **Synchronisation and scheduling** (`Donation`, `Locks`, `Scheduling`,
   `SchedulerLaws`, `Kernel`). Recursive priority donation over an arbitrary, possibly cyclic
   wait-for graph; the effective-priority rule over every run of lock operations;
   semaphores, ready list, sleeping list and thread switch as a step machine with
   invariants of every reachable state.
3. **Demand paging** (`Paging`, `PageRuns`, `Pager`). Pages survive eviction and
   reload through file, mapping or swap. Over every run each page equals the page
   of a process that was never paged; only mapped pages that were written back
   while dirty may differ, and only by zeros behind their file range.
4. **Program images** (`Segments`, `ArgumentStack`). Lazy segment loading equals
   eager loading; the argument stack decodes to the words of the command line.

State that the kernel updates in place is a class whose methods are proved
against functions of a snapshot; the theorems are about those functions. Pintos
lists and bitmaps are sequences: ordered insertion goes behind equals, sorting is
stable, and a bitmap scan takes the lowest fit.

## What the code does not do

The model follows the code where it differs from its comments or from what a
caller would expect. Each case is stated exactly.

- `file_growth` handles only some growths (inode.c:202-398). In the same-block
  branch the file length is used as an offset in the sector and `pos - length` as
  a byte count; the loop at inode.c:361 counts the wrong way and never allocates a
  later second-level block; failed allocations are ignored.
  `BlockStore.GrowthDomain` and `Needed` say which growths work, `FileGrowth`
  succeeds if and only if they hold, `DomainIff` gives the domain as an interval
  of ends, and `GrowthFailures` names ordinary requests that fail. Appending less than a sector at the end of a file is always inside
  the domain (`AppendInDomain`).
- `inode_create` promises to return false when disk allocation fails
  (inode.c:473-477) but returns true (inode.c:470). `Inode.FileSystem.InodeCreate`
  returns that answer together with the truth, which is `CreateWorks`;
  `EmptyFileNeedsTwo` is an input where they differ.
- Some growths mark sectors that no file reaches: an `ind` block allocated early,
  or a block behind an aligned end. `IndexTree.Inv` therefore says that what is
  reachable is marked, not the converse. `NoOrphansIff` says exactly which growths
  leave none, and `OrphanExamples` names three that do.
- `cache_remove` does not decrement `used_cache` (cache.c:193-199). Each call
  costs one of the 64 entries for good; `create_cache` returns exactly while fewer
  than 64 are lost (`CreateReturnsIff`).
- The sum of offset and size in `inode_write_at` may wrap (inode.c:755). The file
  then does not grow and the write stops at its end (`Stores`, `WrittenBy`).
- `lock_acquire` records the new holder's original priority in the lock
  (synch.c:245). That drops what the remaining waiters had donated, exactly when
  one of them outranks that priority (`FinishAcquire`, `HandOverForgets`).
- `thread_set_priority` breaks the effective-priority rule exactly when a holder
  that runs at its own priority lowers itself below a lock it holds
  (`SetPriority`, `LoweringBreaksTheRule`).
- A modified mapped page loses the bytes behind the end of its file range when it
  is evicted, exactly when one of them is not zero (`SurvivesIff`, `TailIsLost`).
- Writing a mapped page back shows through in another page of the same file,
  exactly when it changes a byte that the two ranges share (`WriteBackShowsIff`).
- `validate_segment` does not check that the file part of a segment ends inside
  the file; some lazy page then fails to load, and only then (`LazyFailsIff`,
  `AcceptedButUnreadable`).

## Model

| member | source | states |
|---|---|---|
| FreeMap.FreeMap.Allocate | free-map.c:27-44 | succeeds iff a free run exists and the map could be saved, takes the lowest run, flips exactly its bits, and sets them back if saving fails |
| FreeMap.FreeMap.AllocateOne | free-map.c:27-44 | one-sector allocation succeeds iff a sector is free and uses up exactly one |
| FreeMap.FreeMap.Release | free-map.c:47-53 | frees exactly the released run, which the source asserts to be marked |
| FreeMap.MarkOne | free-map.c:27-44 | marking a free sector lowers the number of free sectors by one |
| FreeMap.FreeCountZero | free-map.c:27-44 | no sector is counted free iff every bit is set |
| FreeMap.AllocateAndRelease | filesys.c:66-70 | an allocation that is given back leaves the map as it was |
| BufferCache.FirstCold | cache.c:127-146 | the first entry whose accessed bit is off; all entries before it are accessed |
| BufferCache.Victim | cache.c:121-161 | everything before the victim is accessed; the victim is accessed only if everything is, and then it is the head |
| BufferCache.EvictReturnsIff | cache.c:121-161 | the endless loop finds a victim iff the list is non-empty, and then within two passes |
| BufferCache.CreateReturnsIff | cache.c:98-101 | on a list that agrees with its counter the loop of `create_cache` ends iff fewer than 64 entries were lost to `cache_remove` |
| BufferCache.BufferCache.FindCache | cache.c:44-66 | finds the entry of a sector iff it is cached |
| BufferCache.BufferCache.FindVictim | cache.c:124-146 | stops at the victim after at most one full pass and one step, and clears only accessed bits it passed |
| BufferCache.BufferCache.CacheEvict | cache.c:121-161 | removes exactly the victim, writes it iff dirty, and leaves the view of every sector unchanged |
| BufferCache.BufferCache.CreateCache | cache.c:89-119 | evicts iff the counter is at 64, appends the sector's current contents, keeps the view and the counter equation |
| BufferCache.BufferCache.CacheBlock | cache.c:68-87 | a hit changes only the two flags, a miss makes room and loads; neither changes the view |
| BufferCache.BufferCache.ReadBlock | cache.c:68-87 | reading through the cache returns the view of the sector |
| BufferCache.BufferCache.WriteAt | inode.c:796-800 | writing through the cache patches the view of one sector and nothing else |
| BufferCache.BufferCache.WriteToDisk | cache.c:176-192 | every entry becomes clean, no view changes |
| BufferCache.BufferCache.CacheRemove | cache.c:193-199 | drops one entry unwritten; the counter stays, so it counts the removals |
| BufferCache.BufferCache.FreeCache | cache.c:201-218 | empties the cache; the disk equals the view |
| BufferCache.FlagsDoNotMatter | cache.c:78-84 | changing accessed bits or setting dirty bits keeps cache, disk and view coherent |
| BufferCache.AppendKeepsView | cache.c:103-115 | loading an uncached sector keeps the view |
| BufferCache.CleanKeepsView | cache.c:184-188 | writing an entry back and cleaning it keeps the view |
| BufferCache.DropKeepsView | cache.c:147-154 | dropping an entry after writing it if dirty keeps the view |
| IndexTree.DataWrite | inode.c:796-800 | writing a data or inode sector moves no sector of any file and changes no other contents |
| IndexTree.SlotWriteAt | inode.c:267-276 | filling an unused slot of an index block moves no live sector |
| IndexTree.ExtendsInv | inode.c:202-398 | giving one new role to a free sector keeps all reachable sectors distinct and marked |
| IndexTree.AddSlot | inode.c:267-276 | the next block or second-level block may be hung into its slot; everything live stays in place |
| IndexTree.Trim | inode.c:202-398 | sectors above the need of the final length can be forgotten: the tree stays well formed, no other file changes and the remaining blocks are kept |
| IndexTree.FlatPatch | inode.c:799 | patching one block patches the byte string at the corresponding offset |
| BlockStore.GrowthFailures | inode.c:210-361 | three ordinary requests outside the growth domain |
| BlockStore.BlockStore.FailingGrowths | inode.c:210-361 | the growth code fails on those requests, whatever is free |
| BlockStore.SectorsReached | inode.c:404-448 | `SectorsOf` is the number of different sectors that a file's tree reaches below its inode sector |
| BlockStore.NoOrphansIff | inode.c:202-398 | a growth never takes fewer sectors than the file will reach, and takes exactly those iff its end is a tidy one |
| BlockStore.OrphanExamples | inode.c:220-239 | creating an empty file, 100 bytes or two whole blocks leaves 2, 1 and 1 unreachable sectors marked |
| BlockStore.DomainIff | inode.c:202-398 | the domain in plain numbers: the end lies below the limit of the second-level block where growth begins, and inside the last block the write starts at the end or, in a file below 512 bytes, behind it |
| BlockStore.CreateAndAppendDomain | inode.c:202-398 | a file can be created with any length below 257 blocks, and appended to up to that limit |
| BlockStore.AppendInDomain | inode.c:202-398 | appending less than a sector at the end of a file is inside the growth domain, up to the largest file |
| BlockStore.BlockStore.FileGrowth | inode.c:202-398 | succeeds iff the growth is in the domain and enough sectors are free; then old bytes are kept, the gap is zero, no other file changes, and exactly the needed sectors are taken |
| BlockStore.BlockStore.GrowInPlace | inode.c:210-219 | the same-block branch is right iff the write starts at the end, or the file is shorter than a sector and there is a gap |
| BlockStore.BlockStore.GrowStart | inode.c:220-233 | the first block exists and is zero behind the old contents |
| BlockStore.BlockStore.FillSingle | inode.c:240-320 | zeroes the tail of the last block and appends zero blocks below `ind` |
| BlockStore.BlockStore.AppendSeconds | inode.c:372-396 | the nested loops work iff they stay inside one second-level block |
| BlockStore.BlockStore.FillDouble | inode.c:325-396 | tail and new blocks below `din`, with the exact condition |
| BlockStore.BlockStore.GrowFar | inode.c:285-397 | growth that reaches block 129 or beyond |
| BlockStore.BlockStore.GrowAcross | inode.c:220-397 | all growth that leaves the last block, with its exact sector count |
| BlockStore.BlockStore.ByteToSector | inode.c:404-448 | returns the sector of the block that holds the byte: `sp` for block 0, slot block - 1 of `ind` up to block 128, then two levels below `din` |
| BlockStore.CoversTrims | inode.c:202-398 | the grown tree, cut to the new length, holds the old bytes followed by zeros |
| Inode.InodeRoundTrip | inode.c:652-655 | closing and reopening an inode gives back its fields, each at its place in the sector |
| Inode.WrittenBytes | inode.c:734-810 | the contents after a write, byte by byte, for sums that wrap and sums that do not |
| Inode.ReadBack | inode.c:688-810 | reading a written range gives back exactly the bytes that were stored |
| Inode.OffsetsSeparate | inode.c:404-448 | over all files two bytes share a sector iff they lie in the same 512-byte block of the same file; the sector is marked and is no index or inode sector |
| Inode.OtherFiles | inode.c:734-810 | a change confined to one file changes only that file's bytes |
| Inode.FileSystem.ReadAt | inode.c:688-727 | returns min(size, length - offset) bytes, each the file's byte at its offset; nothing changes |
| Inode.FileSystem.WriteThenRead | inode.c:688-810 | a read after a write of the same range returns the data written |
| Inode.FileSystem.CopyIn | inode.c:760-805 | the sector loop patches exactly the written range |
| Inode.FileSystem.Extend | inode.c:755-758 | growth before a write, with the exact condition |
| Inode.FileSystem.WriteAt | inode.c:734-810 | works iff writes are denied, the sum wraps, no growth is needed, or the growth is in the domain and enough sectors are free; then zeros up to the new end, the range replaced, every other byte and file kept; after a wrap only bytes before the old end are stored |
| Inode.FileSystem.InodeCreate | inode.c:462-513 | reports success always, as the source does; a new file of zeros appears and all others are kept exactly when the growth works |
| Inode.EmptyFileNeedsTwo | inode.c:462-513 | with one free sector even an empty file is not created properly, with two it is |
| Inode.FileSystem.Create | filesys.c:66-67 | succeeds iff a sector is free and otherwise changes nothing; the sector becomes a file of zeros, with the exact condition and sector count |
| Inode.FileSystem.Open | inode.c:561-605 | one in-memory copy per inode sector, equal to what the sector holds; no file changes |
| Inode.FileSystem.Close | inode.c:633-672 | the last close writes the inode sector and drops the copy; no file changes |
| Inode.WriteChunk | inode.c:760-805 | one sector's share of a write makes the expected progress |
| Inode.ReadChunk | inode.c:700-724 | one sector's share of a read extends the slice read so far |
| FileRuns.Perform | inode.c:462-810 | one operation gives the answer of the byte-string machine and leaves its next state |
| FileRuns.StoppedIff | inode.c:462-810 | exactly which operations the byte-string machine, and so the code, cannot carry out or refuses |
| FileRuns.ReadAfterWrite | inode.c:688-810 | in every run a read after a write of the same range returns the data, and reads of other files are unchanged |
| FileRuns.Run | inode.c:462-810 | over every run from an empty volume the answers are those of the byte-string machine, and the volume at the end represents its last state, so that separation holds of it |
| Directory.EntryRoundTrip | directory.c:244-248 | the slot written for a name reads back as that name and sector, whatever was in the buffer |
| Directory.SlotWrite | directory.c:248 | writing 20 bytes at a slot boundary replaces or appends exactly that slot |
| Directory.AddedName | directory.c:215-252 | filling a free slot adds exactly one name and keeps names unique |
| Directory.RemovedName | directory.c:292-295 | clearing a flag removes exactly one name |
| Directory.ListingComplete | directory.c:306-320 | listing the slots in use yields every name exactly once |
| Directory.AppendSlotWorks | directory.c:240-248 | a directory can always take one more slot unless the volume is full |
| Directory.Dir.Lookup | directory.c:78-101 | finds a slot iff the name is in the map, with the mapped sector |
| Directory.Dir.IsEmpty | directory.c:124-138 | true iff the map is empty |
| Directory.Dir.Add | directory.c:215-252 | succeeds only for absent names of 1 to 14 characters, changes only that key and no other file; says exactly when it is refused |
| Directory.Dir.Remove | directory.c:257-302 | succeeds iff the name is present and writes are allowed; deletes only that key |
| Directory.Dir.Readdir | directory.c:306-320 | returns the next listed name and moves past it |
| Directory.Dir.ReadAll | directory.c:306-320 | repeated calls from position 0 yield each name exactly once |
| Donation.DonateLock | synch.c:46-69 | terminates on every finite graph; raises only threads and locks down the wait-for graph, each to exactly the donor's priority, and the lock asked for has heard it |
| Donation.LiftHolder | synch.c:51-56 | the lock and its holder rise to the maximum; says whether the holder rose |
| Donation.DonateWaits | synch.c:57-65 | every lock the raised thread waits for has heard its priority |
| Donation.CutOffIsFullDonation | synch.c:46-69 | stopping early equals full transitive donation: everyone reachable has the maximum, nobody else changes, every wait is satisfied again |
| Donation.HeardAlong | synch.c:46-69 | along satisfied waits a priority reaches every thread down the graph |
| Donation.RaisedTwice | synch.c:57-65 | two donations in sequence raise like one |
| Donation.LiftedThenServed | synch.c:51-66 | raising the holder and serving its waits is a donation |
| Donation.RaisedKeepsEffective | synch.c:46-69 | donation keeps the effective-priority rule |
| Donation.FewerBelow | synch.c:54-56 | fewer threads remain below the donated priority before each recursive call |
| Locks.InsertOrdered | synch.c:246 | ordered insertion keeps the list sorted and adds exactly one lock |
| Locks.SortByPriority | synch.c:286 | sorts `lock_list`, keeping its members |
| Locks.BeginAcquire | synch.c:227-240 | the waiter joins and donates; exactly the threads down the graph rise; the rule and all satisfied waits are kept |
| Locks.FinishAcquire | synch.c:241-247 | the lock is taken at the original priority and exactly the latest wait for it is removed; every waiter is still served iff none for this lock outranks it |
| Locks.WithoutOne | synch.c:244 | exactly one wait is removed and the order of the others is kept |
| Locks.WithoutUndoesPush | synch.c:238-244 | what the second half of an acquire removes is what the first half pushed |
| Locks.AcquireFree | synch.c:227-247 | acquiring a free lock leaves the list of waits as it was |
| Locks.Release | synch.c:279-296 | the holder falls back to the maximum of its base and its remaining locks; the rule and all satisfied waits are kept |
| Locks.Remaining | synch.c:285-295 | the remaining locks and the priority they leave: an upper bound that is attained |
| Locks.SetPriority | thread.c:408-424 | keeps the effective-priority rule iff not the unsound lowering |
| Locks.NewBase | thread.c:408-424 | what each branch does to the rule, as an equivalence |
| Locks.TakenHeardIff | synch.c:242-246 | handing a lock over serves everyone iff no other waiter outranks the recorded priority |
| Locks.LoweringBreaksTheRule | thread.c:408-424 | a concrete holder that lowers itself and breaks the rule |
| Locks.HandOverForgets | synch.c:245 | a concrete hand-over after which a waiter is no longer heard |
| Locks.Perform | synch.c:227-296 | one operation of the code is one move on the wait-for graph and its priorities, and keeps every waiter heard unless it forgets one |
| Locks.AcquireAndRelease | synch.c:227-296 | acquiring a free lock and giving it back leaves the wait-for graph as it was |
| Locks.NobodyWaitsForItself | synch.c:227-296 | over every run in which each acquire is finished before the next, nobody waits for a lock that it holds |
| Locks.RunLocks | synch.c:227-296 | every run makes exactly the moves of its trace, keeps the effective-priority rule, and keeps every waiter heard if no operation forgets one; nobody comes to wait for a lock it holds if threads ask in turn |
| Scheduling.InsertElems | thread.c:278 | ordered insertion: sorted, same elements and one more, distinct |
| Scheduling.SortElems | thread.c:395 | sorting: sorted, same elements, distinct |
| Scheduling.InsertBehind | thread.c:708 | an element never overtakes those with an equal or better key |
| Scheduling.ScheduleKeeps | thread.c:654-678 | a switch from a parked thread leaves every invariant and one running thread |
| Scheduling.DownKeeps | synch.c:91-107 | one pass of the loop keeps every invariant, whether it waits or counts down |
| Scheduling.UpBalanced | synch.c:139-153 | waking the best waiter and counting up loses no wake-up |
| Scheduling.UpFirstHalf | synch.c:139-153 | the state before `if_yield` is valid |
| Scheduling.StepKeeps | thread.c:251-713 | every operation keeps status and queues in agreement, the semaphore equations and the sorted sleepers |
| Scheduling.MutualExclusion | synch.c:91-156 | in every reachable state value = initial + ups - downs, waiters imply value is at most the woken, and a lock has at most one holder |
| Scheduling.OneQueue | thread.c:251-287 | in every reachable state a thread is in at most one queue and its status says which |
| Scheduling.StepAdvances | thread.c:654-678 | in one step a sleeper moves up by the number of switches, or leaves because it is due |
| Scheduling.SleepBound | thread.c:654-713 | a due sleeper with i ahead of it has left the list by switch i + 1, over every run |
| Scheduling.NeverEarly | thread.c:654-668 | nobody leaves the sleeping list before its wake time |
| Scheduling.IfYieldEnforcesPriority | thread.c:393-407 | no switch means nobody ready is higher; a switch chooses a maximal thread among ready, yielding and just woken |
| SchedulerLaws.InsertStable | thread.c:367 | ordered insertion goes behind all equals and reorders nothing |
| SchedulerLaws.SortStable | thread.c:395 | sorting keeps the order of threads with equal priority |
| SchedulerLaws.WakesHighest | synch.c:147-152 | exactly one waiter becomes ready; nobody who waited has a higher priority and nobody ahead of it an equal one |
| SchedulerLaws.UpWakesHighest | synch.c:139-156 | the same of `sema_up` as a whole, whatever it switches to |
| SchedulerLaws.StepEffects | synch.c:91-156 | every operation changes semaphore values, priorities, threads and the clock exactly as it says and nothing more |
| SchedulerLaws.SleepRecorded | thread.c:697-713 | right after the call the thread is asleep until now + ticks, unless it was due at once |
| SchedulerLaws.SleepsLongEnough | thread.c:654-713 | over every run a thread that asked for some ticks is asleep until the clock has advanced by as many |
| Kernel.ListInsertOrdered | thread.c:278 | the loop computes the ordered insertion of the specification |
| Kernel.ListSort | thread.c:395 | the loop computes the sort of the specification |
| Kernel.Kernel.Reschedule | thread.c:654-678 | the code of `schedule` is the specified switch and keeps the state valid |
| Kernel.Kernel.ThreadYield | thread.c:355-373 | `thread_yield` is the specified step |
| Kernel.Kernel.BlockIdle | thread.c:473-484 | the idle loop's block is the specified step |
| Kernel.Kernel.ThreadSleep | thread.c:697-713 | `thread_sleep` is the specified step; the wake time is now + ticks |
| Kernel.Kernel.SemaDown | synch.c:91-107 | one pass of `sema_down` is the specified step; it leaves the loop iff the value was positive, one lower |
| Kernel.Kernel.SemaTryDown | synch.c:114-133 | counts down by one iff the value is positive, and never waits |
| Kernel.Kernel.WakeHighest | synch.c:147-152 | the earliest of the waiters with the highest current priority becomes ready, and no other |
| Kernel.Kernel.YieldIfOutranked | thread.c:393-407 | `if_yield` outside interrupts is the specified step |
| Kernel.Kernel.SemaUp | synch.c:139-156 | `sema_up` is the specified step, in and outside interrupts: the value rises by one and the highest, earliest waiter is woken |
| Paging.StoreRoundTrip | swap.c:23-59 | a swapped-out page comes back byte for byte and no other slot is touched |
| Paging.SurvivesIff | swap.c:106-115 | eviction loses contents iff a modified mapped page has a non-zero byte behind its file range |
| Paging.EvictKeeps | swap.c:60-138 | eviction keeps all invariants and every page's logical contents, up to that tail |
| Paging.ImageApart | swap.c:112 | writing a mapped range back changes no other page's image |
| Paging.FileLoadedKeeps | swap.c:193-267 | loading from a file keeps all invariants and all contents |
| Paging.SwapLoadedKeeps | swap.c:141-192 | loading from swap releases the slot and keeps all invariants and all contents |
| Paging.MappedKeeps | frame.c:121-150 | a new file page starts as its file image and disturbs nothing |
| Paging.StackAddedKeeps | frame.c:121-150 | a new stack page starts as zeros and disturbs nothing |
| Paging.StoredKeeps | swap.c:108-118 | a store by the process changes one page and sets the bits eviction relies on |
| Paging.FreedKeeps | frame.c:72-109 | freeing a frame releases its page or its slot; set bits stay exactly the slots in use |
| Paging.PoolPartition | frame.c:72-109 | every page of the pool is free or belongs to a resident page, and never both |
| Paging.WriteBackShowsIff | swap.c:108-114 | a write-back changes another page of the same file iff it changes a byte that both ranges share |
| PageRuns.EvictStepKeeps | swap.c:60-138 | an eviction keeps all invariants and every byte of every page, except that a dirty mapped victim has zeros behind its file range |
| PageRuns.LoadStepKeeps | swap.c:141-301 | bringing a page back, with the eviction it may need, does the same |
| PageRuns.StepExact | swap.c:60-301 | the contents after one operation are exactly those of a process that was never paged, applied after the cut of the page written back |
| PageRuns.Transparent | swap.c:60-301 | over every run each page equals that of a process that was never paged; mapped pages written back while dirty may have zeros behind their file range |
| PageRuns.TailIsLost | swap.c:106-115 | a concrete mapped page whose byte 1 is lost by eviction |
| Pager.Pager.Sout | swap.c:23-41 | the lowest free slot receives the page sector by sector, iff there is one |
| Pager.Pager.Sback | swap.c:42-59 | flips the slot's bit and returns its page |
| Pager.Pager.ChooseVictim | swap.c:67-84 | the first page neither accessed nor dirty, else the head; clears exactly the accessed bits passed |
| Pager.Pager.Evict | swap.c:60-138 | the victim is the first page neither accessed nor dirty, else the head; it succeeds iff the victim is mapped, clean or a slot is free; every page is carried over exactly |
| Pager.Pager.PutAway | swap.c:88-125 | a dirty mapped page goes to its file, a clean page nowhere, every other to a slot that was free |
| Pager.Pager.GetPage | swap.c:149-155 | a free page is found iff there is room, after at most one specified eviction |
| Pager.Pager.FileBack | swap.c:193-267 | loads the page iff there is room and the file is long enough; the code is the specified load |
| Pager.Pager.PageBack | swap.c:141-192 | loads the page from its slot iff there is room; the code is the specified load |
| Pager.Pager.LoadBack | swap.c:268-301 | brings any page back, with the exact condition, and carries every page over exactly |
| Pager.Pager.InsertFile | frame.c:121-150 | a lazy file page enters the table of frames unread |
| Pager.Pager.InsertStack | frame.c:121-150 | a zeroed stack page enters resident, iff there is room; all other contents as specified |
| Pager.Pager.UserWrite | swap.c:108-118 | a store patches the logical contents of one page |
| Pager.Pager.FrameFree | frame.c:72-109 | exactly one frame goes; all other contents and the swap accounting are kept |
| Pager.BlockedIff | swap.c:60-301 | an operation is blocked iff no page is free or can be freed, or the file is too short |
| Pager.Perform | swap.c:60-301 | one operation of the code is the specified step, and fails iff it is blocked |
| Pager.RunPages | swap.c:60-301 | the code runs exactly up to the first blocked operation, in the specified states, and the contents are those of a process that was never paged, up to the cut pages |
| Segments.AcceptedIff | process.c:462-503 | the tests in unsigned arithmetic accept exactly the segments that lie in the user's address space, in true integers |
| Segments.PlanIsSound | process.c:401-430 | for an accepted header no unsigned arithmetic wraps, the assertions of `load_segment` hold and the pages cover the segment |
| Segments.NoWrap | process.c:481-491 | the address tests together mean that the segment's end is a true sum |
| Segments.LoadSegment | process.c:519-575 | the loop lays out exactly the pages of the plan without underflow |
| Segments.LazyEqualsEager | process.c:519-575 | the lazily filled pages concatenate to the file bytes followed by zeros |
| Segments.LazyFailsIff | swap.c:220-226 | some lazy page fails to load iff the file part runs past the end of the file |
| Segments.AcceptedButUnreadable | process.c:462-503 | an accepted header whose second page can never be loaded |
| Segments.SegmentMeaning | process.c:401-430 | every byte of the segment is found at its virtual address, zero behind the file part |
| Segments.LoadHeader | process.c:401-430 | accepts exactly the segments in the user's address space and lays out their pages |
| ArgumentStack.SetupStack | process.c:622-692 | succeeds without a page fault iff fewer than 64 arguments fit the page; then decoding the stack yields exactly the arguments, aligned, with disjoint regions |
| ArgumentStack.PushStrings | process.c:630-658 | the token loop stores every token, NUL-terminated, below the previous one |
| ArgumentStack.PushVector | process.c:678-682 | the pointers and the null are stored upwards in order |
| ArgumentStack.NextToken | process.c:630-631 | one call of the tokenizer takes exactly the next word |
| ArgumentStack.DecodeFinished | process.c:622-692 | reading a finished stack back gives the arguments in order |
| ArgumentStack.FrameIs | process.c:676-691 | null return address, argc, argv, and a null behind the last pointer |
| ArgumentStack.OneMoreString | process.c:633-641 | pushing a string keeps all earlier strings intact and disjoint |
| ArgumentStack.SplitUndoesJoin | process.c:630-631 | splitting a command line made of words gives the words back |
| ArgumentStack.OneWord | process.c:630-631 | a word by itself is one argument |
| ArgumentStack.SpaceSeparates | process.c:630-631 | the arguments of two parts joined by a space are those of the first, then those of the second |
| ArgumentStack.FitsIff | process.c:633-691 | what fits the page, as a sum of string bytes, padding, pointers and three words |
| ArgumentStack.SpacesDoNotMatter | process.c:630-631 | a command line and the same words with single spaces give the same arguments |

## Left out

- Where the C code would go on in a corrupted state (out-of-bounds `memset`, sectors running out during growth, unassigned index slot, full swap device) the model stops with a result that says so (`ok == false`, `intact == false`, `Corrupts`, `Stopped`, `Stuck`); what happens afterwards is not modelled.
- Inode.FileSystem.Close: does not model the branch for inodes marked removed, because `inode_delete`'s slot arithmetic does not match the growth layout for large files; sectors of removed files are not reused.
- Directory.Dir.Remove: models the directory entry of a plain file only; it does not model opening, marking and closing the removed inode.
- Inode.FileSystem.Create: does not model the `dir_add` that follows in `filesys_create`, nor the release of the sector when that fails; path resolution stands between them.
- FreeMap.FreeMap.AllocateOne: does not model a failing write of the map to its own file, because that write goes through the file layer itself; mounting an existing volume is left out too.
- BufferCache.BufferCache.CreateCache: requires fewer than 64 calls of `cache_remove` so far, because the source does not return otherwise (`CreateReturnsIff`).
- Reader/writer exclusion in `read_cache`, `write_cache`, `read_inode` and `write_inode`: operations of the file store are atomic and in sequence.
- Path resolution (`true_dir`) and the rest of `filesys.c`, `file.c`, `fsutil.c`.
- `lock_try_acquire` and the lock loop in `thread_exit`: they do not maintain `lock_list` as the other operations do.
- The lock operations and `donate_lock` are steps taken without interleaving inside them; Locks.RunLocks skips the unsound lowering that `Locks.SetPriority` characterises.
- `Scheduling` lets priorities change by an arbitrary step, so it does not depend on how donation changes them; `thread_set_priority` is such a step followed by `if_yield`; time slices are yields at any point; the `sleep_sema` spin in `thread_sleep` is left out; sleeps are non-negative and the clock never runs backwards.
- Condition variables, thread creation failure, and thread stacks and switching in assembly.
- Shared frames, `check_match`, and eviction across several address spaces: one address space, one frame per page.
- Paging.MappedKeeps: requires that a mapped range does not overlap another page's range of the same file, and that nobody else writes a file that backs a page; without that, paging is not transparent, as `Paging.WriteBackShowsIff` says exactly.
- Pager.Pager.InsertFile: requires the same of a new mapping.
- Pager.Pager.FileBack: does not model the frame's stale `kpage` after a short read.
- `process_wait`, `process_exit`, system calls, page-fault decoding, `mmap` bookkeeping: lifetime and I/O plumbing.
- ArgumentStack.SetupStack: does not model what follows a store below the stack page. Such a store enters `page_fault`, whose growth branch (exception.c:68-83) may install a page and go on; `Faults` stands for that event, so the "only if" half says that no page fault occurs. The lower bound of `check_esp` (process.c:28-32) lies far below and is joined to it.
- ArgumentStack.PushStrings: ends at the first such store as well.
- Allocation failure of `malloc`, `calloc` and `palloc`, device drivers, and the TLB.
