# A verified model of the Pintos kernel's stateful core

Dafny models of the parts of this Pintos kernel in which a simple meaning hides behind
complicated state, with proofs that the code keeps the meaning.  `dafny verify
dfyconfig.toml` checks the whole project.

- **Files.** `BufferCache` is the 64-slot write-back cache with its clock; it means a plain
  sequence of sectors, and its hits and misses are those of the bare clock in `ClockRule`.  `Storage` puts the free map beside it, and `FileSystem` puts inodes on
  top: a file means a sequence of bytes.  `InodeLayout`, `InodeGrowth`, `SectorTaking` and
  `FileTheory` hold what is proved on values; `FileLaws` states what users of files rely on, and
  `FileRuns` that every run of file operations gives the answers of a plain store.  `FileNumbers`
  says what those answers are, with the limits of the file system written out.
- **Threads.** `Synch` is a step system: the round-robin scheduler, semaphores, locks and
  condition variables.  A stretch of code with interrupts off is one step, and between steps
  anything may interleave.  `SynchInvariants`, `SynchLocks` and `SynchRuns` prove what every
  step keeps; `SynchTheorems` says what follows for every run, and `SynchSteps` what each call does.
- **Lists.** `LinkedList` rewires heap-allocated doubly linked elements in place, up to the
  natural merge sort; `ListOrder` says what a stable sort is and how runs shrink.
- **Memory.** `Bitmap`, `Palloc` and `Malloc` go from a word-packed bitmap over two page pools
  to `malloc`, `free` and `realloc`, with the bytes that blocks hold; `MallocPages` counts the pages.
- **Algorithms.** `Hash` (rehashing chains), `Arithmetic` (64-bit division), `Stdlib` (heapsort,
  binary search), `NumberText` (integer conversions and `atoi`), `Ustar` (archive headers).
  `NumberLaws` and `UstarLaws` state what is written and accepted character by character and byte
  by byte, without the definitions that the code is proved against.

Some properties one would expect do not hold of the code.  For each there is a failing input
and a statement of exactly when the property holds:

- growing a file through its doubly indirect block allocates what the new length needs only if
  the file ends on a second-level boundary and gains fewer than 128 blocks
  (`InodeGrowth.GrowthFailsAt251`, `InodeGrowth.GrowthIsExact`);
- a write that should make a file longer by one byte drops that byte, because `byte_to_sector`
  lets the position equal to the length through (`FileLaws.OneByteAtTheEnd`;
  `FileTheory.MissingIffPastEnd` says when growth is seen to be needed, and
  `FileSystems.FileSystem.WriteAt` says when a write is complete, in terms of the state before it);
- a write that comes between the two halves of a cache reset is lost
  (`BufferCache.Cache.WriteDuringReset`); the second half loses nothing exactly if every dirty
  block is on the device already (`BufferCache.Cache.Invalidate`), and every sector is left with
  something it held since the last flush (`BufferCache.Cache.InterruptedReset`);
- `malloc` gives a block of one page for the last eleven sizes below 2 to the 32
  (`Mallocs.GrantedIff`), and `realloc` then copies past it exactly if the old block is longer than
  a page holds (`Mallocs.CopyFitsIff`);
- `umod64` and `smod64` are the remainder only for divisors up to 2 to the 32 and 2 to the 31
  (`Arithmetic.UModExactIff`, `Arithmetic.SModExactIff`);
- an integer conversion fills its field exactly unless both the `0` and the `-` flag are left,
  which happens for a `0` flag with a negative `*` width (`NumberText.PaddedTwice`,
  `NumberText.FieldWidth`, `NumberText.BothFlagsIff`).

Where comments and code disagree the model follows the code: `bitmap_scan_and_flip` of zero
bits returns its start and not 0; `umod64` and `smod64` return 32 bits; `rehash` always goes
for two elements a bucket, whatever the thresholds beside it say.

## Model

| member | source | states |
|---|---|---|
| `BufferCache.RepresentsIsFunctional` | pintos/src/filesys/buffer.c:11-15 | slots and device determine one logical content per sector |
| `BufferCache.VictimIsUnique` | pintos/src/filesys/buffer.c:66-97 | the clock rule picks one slot, whatever loop looks for it |
| `BufferCache.EvictRepresents` | pintos/src/filesys/buffer.c:79-89 | writing a dirty victim back and dropping it changes no sector's logical contents |
| `BufferCache.NothingDirty` | pintos/src/filesys/buffer.c:157-174 | device and logical contents differ only at dirty valid slots |
| `BufferCache.Cache.constructor` | pintos/src/filesys/buffer.c:21-34 | an empty cache means what the device holds, with the hand at the start and nothing counted |
| `BufferCache.Cache.Check` | pintos/src/filesys/buffer.c:42-60 | finds the slot of a sector exactly if one holds it; one hit or one miss is counted |
| `BufferCache.Cache.GetBlock` | pintos/src/filesys/buffer.c:66-97 | within 65 steps takes the first slot from the hand that is invalid or not recently used, clears the bits it passes, keeps all logical contents |
| `BufferCache.Cache.ReadAt` | pintos/src/filesys/buffer.c:100-125 | returns the sector's logical contents and changes none; afterwards the sector is held and marked as used; on a hit only its mark changes; on a miss the slots are those the clock rule leaves with the victim's place taken by the block read |
| `BufferCache.Cache.WriteAt` | pintos/src/filesys/buffer.c:128-154 | changes one sector's logical contents; afterwards the sector is held, dirty and marked as used; hit and miss as for a read |
| `BufferCache.Cache.Flush` | pintos/src/filesys/buffer.c:157-174 | afterwards the device holds all logical contents and nothing is dirty; the clock sees no difference |
| `BufferCache.Cache.Reset` | pintos/src/filesys/buffer.c:179-195 | empties the cache and its counts, and loses nothing if nothing comes between its two halves |
| `BufferCache.Cache.Invalidate` | pintos/src/filesys/buffer.c:183-195 | the second half of a reset leaves what the device holds, and loses nothing if and only if every valid dirty slot's block is on the device already |
| `BufferCache.Cache.InterruptedReset` | pintos/src/filesys/buffer.c:179-195 | whatever operations come between the halves, every sector is left with what it held at some moment since the last flush or reset among them, so with its last write if it was not written after that |
| `BufferCache.Cache.WriteDuringReset` | pintos/src/filesys/buffer.c:179-195 | a write that comes between the halves is lost |
| `BufferCache.Cache.Perform` | pintos/src/filesys/buffer.c:100-195 | over any run of reads, writes, flushes and resets every read returns the bytes last written to its sector; hits, misses, hand and use bits are those of a plain clock |
| `BufferCache.TurnIsSweep` | pintos/src/filesys/buffer.c:66-97 | a hand that goes round line by line stops at the victim of the clock rule and leaves the same marks |
| `BufferCache.HitIsAccess` | pintos/src/filesys/buffer.c:100-154 | an access to a held sector is a hit of the plain clock |
| `BufferCache.MissIsAccess` | pintos/src/filesys/buffer.c:100-154 | an access to another is a miss of the plain clock |
| `ClockRule.FillingNext` | pintos/src/filesys/buffer.c:66-97 | while lines are empty, a sector seen before is a hit and a new one takes the next line |
| `BufferCache.MissesOncePerSector` | pintos/src/filesys/buffer.c:11-17 | from an empty cache each of up to 64 sectors is missed once, in whatever order and however often they are used |
| `BufferCache.ThreeReads` | pintos/src/filesys/buffer.c:100-125 | reads of sectors 0, 1 and 0 give 1 hit and 2 misses |
| `BufferCache.AfterIsLastWritten` | pintos/src/filesys/buffer.c:100-154 | the contents after a run are, sector by sector, the last write in it or what was there before |
| `Bitmaps.WordUpdate` | pintos/src/lib/kernel/bitmap.c:157-179 | setting or clearing a bit of a word changes no other bit of the bitmap |
| `Bitmaps.Bitmap.Set` | pintos/src/lib/kernel/bitmap.c:145-179 | the packed words refine a boolean sequence updated at one index |
| `Bitmaps.Bitmap.SetMultiple` | pintos/src/lib/kernel/bitmap.c:218-228 | sets one run of bits and no other |
| `Bitmaps.Bitmap.Contains` | pintos/src/lib/kernel/bitmap.c:251-263 | true exactly if some bit of the run has the value |
| `Bitmaps.Bitmap.Scan` | pintos/src/lib/kernel/bitmap.c:296-310 | the lowest fitting run, or none if no run fits |
| `Bitmaps.Bitmap.ScanAndFlip` | pintos/src/lib/kernel/bitmap.c:320-326 | takes the lowest fitting run and changes only it |
| `FreeMaps.FreeMap.Allocate` | pintos/src/filesys/free-map.c:28-41 | takes the lowest free run, or leaves the map as it was, also when writing the map's file fails |
| `FreeMaps.FreeMap.Release` | pintos/src/filesys/free-map.c:45-50 | frees a used run and no other sector |
| `Words.DecodeEncode` | pintos/src/filesys/inode.c:19-36 | the 128 words of an inode or index block survive a sector |
| `Words.EncodeDecode` | pintos/src/filesys/inode.c:19-36 | every sector is some 128 words |
| `InodeLayout.InodeRoundTrip` | pintos/src/filesys/inode.c:19-31 | an inode written to its sector is read back unchanged |
| `InodeLayout.InodeOnDisk` | pintos/src/filesys/inode.c:21-31 | which word of the sector holds which field, little-endian, and the magic number |
| `InodeLayout.FileFrame` | pintos/src/filesys/inode.c:97-170 | a file depends only on the sectors it owns |
| `InodeGrowth.GrowthIsExact` | pintos/src/filesys/inode.c:476-539 | doubly indirect growth gives exactly the new blocks a pointer, without a panic, if and only if the file ends on a second-level boundary, gains fewer than 128 blocks, and gets no more than 250 + 128 * 128 |
| `InodeGrowth.GrowthFailsAt251` | pintos/src/filesys/inode.c:476-539 | a file of 251 blocks that gains one gets no pointer for it |
| `InodeGrowth.SupportedStaysSmall` | pintos/src/filesys/inode.c:476-539 | no sequence of growths that work takes a file past 377 blocks |
| `SectorTaking.TakeInTwo` | pintos/src/filesys/free-map.c:28-41 | n and then m sectors can be had exactly if n + m can, that is, enough are free and every write of the map's file on the way succeeds; what is left is the same, also when some allocation fails |
| `SectorTaking.SpendAll` | pintos/src/filesys/free-map.c:28-41 | allocations that all succeed use up as many sectors and as many tries |
| `Storages.Storage.Allocate` | pintos/src/filesys/free-map.c:28-41 | one free sector; none exactly if none is free or the map's file cannot be written; what is left to allocate from |
| `Storages.Storage.Release` | pintos/src/filesys/free-map.c:45-50 | one sector more is free, and no other changes |
| `Storages.Storage.AllocateRange` | pintos/src/filesys/inode.c:45-69 | new, distinct, zeroed sectors for a range of pointers, exactly if that many can be had; used sectors keep their contents, and what is left is known, also on failure |
| `Storages.Storage.ExtendSingly` | pintos/src/filesys/inode.c:403-474 | direct and singly indirect pointers for exactly the new blocks, exactly if that many sectors can be had; old pointers stay |
| `Storages.Storage.ExtendDoubly` | pintos/src/filesys/inode.c:476-539 | a second-level block with pointers for the new blocks, exactly if one sector more than the blocks can be had; hooked in only on success |
| `Storages.Storage.Extend` | pintos/src/filesys/inode.c:368-543 | growth by all kinds of pointer; it succeeds exactly if the length is no less in sectors, not over the maximum, and the sectors needed can be had; failure leaves every old block in place; what is left to allocate from is known either way |
| `Storages.Storage.AllocateIndexBlocks` | pintos/src/filesys/inode.c:231-251 | two new zeroed index blocks, exactly if two sectors can be had |
| `Storages.Storage.CreateMapFile` | pintos/src/filesys/free-map.c:72-85 | the free map gets an inode and a file, exactly if the device has room for them; from then on every change of the map is written |
| `FileTheory.DataWrite` | pintos/src/filesys/inode.c:741-769 | writing one data sector changes those bytes of one file and nothing of any other |
| `FileTheory.GrowthDone` | pintos/src/filesys/inode.c:368-543 | after growth the file is its old bytes and zeros, it owns the new sectors, and other files are untouched |
| `FileTheory.GrowthFailed` | pintos/src/filesys/inode.c:403-474 | an allocation that fails midway leaves every file as it was |
| `FileTheory.CreateDone` | pintos/src/filesys/inode.c:195-225 | a created file is zeros, and all ownership stays disjoint |
| `FileTheory.MissingIffPastEnd` | pintos/src/filesys/inode.c:98-170 | the inode finds no sector for a position exactly if it is negative or greater than the length; a position equal to the length is found, whatever the file's size |
| `FileSystems.FileSystem.constructor` | pintos/src/filesys/filesys.c:23-42 | a formatted device has no files, its free map has a file exactly if there is room for it, and so many sectors are free |
| `FileSystems.FileSystem.ByteToSector` | pintos/src/filesys/inode.c:98-170 | the sector of a byte, through the index blocks |
| `FileSystems.FileSystem.Grow` | pintos/src/filesys/inode.c:711-723 | growth of an open file and its inode on disk, exactly if the sectors can be had; the file is its old bytes and zeros; on failure every file is as it was |
| `FileTheory.CopyEnds` | pintos/src/filesys/inode.c:725-776 | the copy loops end after exactly the bytes available, or without a bounce buffer after the whole sectors among them, none if the offset is not at a sector boundary |
| `FileSystems.FileSystem.ReadAt` | pintos/src/filesys/inode.c:639-690 | the bytes of the file from the offset on, exactly as many as the copy loop gets to |
| `FileSystems.FileSystem.WriteAt` | pintos/src/filesys/inode.c:698-779 | the bytes it says it wrote are in the file, other old bytes are unchanged, bytes gained are zero, other files are untouched; the file grows, and the write is complete, exactly under conditions on the state before it: writable, ends inside the file or more than one byte past it with sectors to be had, and a bounce buffer or whole sectors |
| `FileSystems.FileSystem.Create` | pintos/src/filesys/inode.c:195-251 | a new file of zeros, exactly if the length is not over the maximum and its sectors and two index blocks can be had; every other file is untouched |
| `FileSystems.FileSystem.Make` | pintos/src/filesys/filesys.c:79-84 | a new file of zeros with an inode of its own, exactly if all its sectors can be had; on failure the inode's sector is free again and every file is as it was |
| `FileSystems.FileSystem.DenyWrite` | pintos/src/filesys/inode.c:784-788 | one denial more, as the assertion allows |
| `FileSystems.FileSystem.AllowWrite` | pintos/src/filesys/inode.c:794-799 | one denial fewer, as the assertions allow |
| `FileSystems.FileSystem.Open` | pintos/src/filesys/inode.c:549-580 | an inode already open is shared; the copy read from disk describes the same file |
| `FileSystems.FileSystem.Close` | pintos/src/filesys/inode.c:602-624 | the last close drops the in-memory inode |
| `FileLaws.OwnershipIsExclusive` | pintos/src/filesys/inode.c:194-251 | inode, index and data sectors of all files are pairwise distinct and marked used |
| `FileLaws.WrittenIsThere` | pintos/src/filesys/inode.c:698-779 | what a write leaves in a file, byte by byte |
| `FileLaws.WriteThenRead` | pintos/src/filesys/inode.c:639-779 | a read at the place of a write returns the bytes written, and all of them exactly if the write could be complete |
| `FileLaws.OneByteAtTheEnd` | pintos/src/filesys/inode.c:698-779 | one byte written at the end of a file is not written, and the file stays as it was |
| `FileRuns.DoWrite` | pintos/src/filesys/inode.c:698-779 | a write does to files, sectors left and the count returned what the plain store does |
| `FileRuns.DoMake` | pintos/src/filesys/filesys.c:79-84 | so does making a file |
| `FileRuns.Perform` | pintos/src/filesys/inode.c:195-799 | over every run of makes, opens, closes, denials, reads and writes of any files, every answer and the final files, openers and sectors left are those of the plain store, also when sectors run out on the way |
| `FileRuns.PerformAfterFormat` | pintos/src/filesys/filesys.c:23-42 | so on a freshly formatted device the answers are determined by its size, the operations and the tries at which the free map's file can be written |
| `FileRuns.OthersSpared` | pintos/src/filesys/inode.c:698-779 | over every run a file keeps its bytes until it is written itself |
| `FileRuns.ReadsBack` | pintos/src/filesys/inode.c:639-779 | what a write says it wrote, a later read at that place returns, whatever other files were made, written and closed in between |
| `FileTheory.DirectoryOnDisk` | pintos/src/filesys/inode.c:195-211 | whether a file is a directory is on disk in its inode |
| `FileSystems.FileSystem.IsDir` | pintos/src/filesys/inode.c:184-187 | answers what the file was created as |
| `FileNumbers.SupportedIff` | pintos/src/filesys/inode.c:376-544 | in numbers of sectors, which growth the index arithmetic gets right |
| `FileNumbers.MakeIs` | pintos/src/filesys/inode.c:195-231 | making a file fails above 8123392 bytes, and else succeeds exactly if 3 sectors, one for every 512 bytes and one more past 250 of them can be had; what is left of them |
| `FileNumbers.ExtendableIff` | pintos/src/filesys/inode.c:388-391 | a file can be extended exactly if those sectors can be had |
| `FileNumbers.NotExtendable` | pintos/src/filesys/inode.c:388-391 | past 8123392 bytes no sector is taken and no file grows |
| `FileNumbers.FormatIs` | pintos/src/filesys/free-map.c:72-85 | how many sectors formatting takes |
| `FileNumbers.ReadIs` | pintos/src/filesys/inode.c:639-690 | a read returns the bytes from the offset to the size or the end of file; without a bounce buffer whole sectors only |
| `FileNumbers.WriteRefused` | pintos/src/filesys/inode.c:698-706 | a write to a file that is denied or not open changes nothing |
| `FileNumbers.WriteInside` | pintos/src/filesys/inode.c:698-779 | a write inside the file replaces those bytes and takes no sector |
| `FileNumbers.WriteOneOver` | pintos/src/filesys/inode.c:698-779 | a write that ends one byte past the end leaves that byte out |
| `FileNumbers.WriteBeyond` | pintos/src/filesys/inode.c:698-779 | a write that ends further out makes the file longer, with zeros where nothing was written, exactly if the sectors can be had; the count it returns and what is left |
| `FileNumbers.OpenersAreCounted` | pintos/src/filesys/inode.c:549-635 | opens and closes are counted, each opener may deny writing once, and the last to close takes the denials along |
| `SynchInvariants.FrontWaiter` | pintos/src/threads/thread.c:244-255 | the thread that an up unblocks is blocked, as `thread_unblock` asserts, and on no other list |
| `SynchInvariants.GivenSemas` | pintos/src/threads/synch.c:109-121 | an up keeps every semaphore's count and loses no wakeup |
| `SynchInvariants.TakenSemas` | pintos/src/threads/synch.c:66-74 | so does a down that succeeds, by a woken thread or by one that gets there first |
| `SynchInvariants.AsleepSemas` | pintos/src/threads/synch.c:69-73 | so does a down that goes to sleep |
| `SynchInvariants.DispatchStructure` | pintos/src/threads/thread.c:514-589 | a switch leaves one running thread and lists that agree with thread states |
| `SynchRuns.StartInv` | pintos/src/threads/thread.c:115-127 | the invariant holds after `thread_start` |
| `SynchRuns.StepKept` | pintos/src/threads/synch.c:60-338 | every step of every thread, the timer and interrupt handlers keeps it |
| `SynchRuns.RunKept` | pintos/src/threads/synch.c:60-338 | so it holds throughout every run |
| `SynchTheorems.NoLostWakeup` | pintos/src/threads/synch.c:60-121 | value = initial + ups - downs; with waiters, value is at most the number of threads unblocked that have not looked at it again |
| `SynchTheorems.WaitersAreQueue` | pintos/src/threads/synch.c:61-121 | at every step of any thread, an up moves the front waiter to the ready list, and otherwise a semaphore's waiters change only by the running thread joining at the back |
| `SynchTheorems.WaitersServedInOrder` | pintos/src/threads/synch.c:61-121 | over every run, the waiter at place k is the one that the (k+1)th up unblocks |
| `SynchTheorems.TryNeverSleeps` | pintos/src/threads/synch.c:84-102 | a try takes a unit exactly if there is one, and never sleeps |
| `SynchTheorems.MutualExclusion` | pintos/src/threads/synch.c:193-247 | a lock's value and the threads inside add up to 1, and a holder is that thread |
| `SynchTheorems.QueueIsGuarded` | pintos/src/threads/synch.c:288-338 | only the holder of the lock touches a condition's queue |
| `SynchTheorems.EveryWaiterSignalledOnce` | pintos/src/threads/synch.c:288-338 | a waiter is queued or about to be woken until it is signalled, is signalled at most once, and passes only after that |
| `SynchTheorems.SignalTakesOldest` | pintos/src/threads/synch.c:312-322 | a signal takes the waiter that came first, not signalled before |
| `SynchTheorems.SignalUpsOnce` | pintos/src/threads/synch.c:319-321 | and ups its semaphore for the first time; a signal ends there |
| `SynchTheorems.BroadcastUntilEmpty` | pintos/src/threads/synch.c:331-338 | a broadcast ends only when its queue is empty |
| `SynchTheorems.OneRuns` | pintos/src/threads/thread.c:513-589 | one thread runs, and each ready thread is on the ready list once |
| `SynchTheorems.EveryRunIsSafe` | pintos/src/threads/synch.c:60-338 | all of this holds in every state that any run can reach |
| `SynchTheorems.ReadyIsQueue` | pintos/src/threads/thread.c:314-327 | the ready list grows at the back and is served at the front |
| `SynchTheorems.RoundRobin` | pintos/src/threads/thread.c:513-589 | the thread at place k of the ready list runs after the (k+1)th switch |
| `SynchSteps.SemaUp` | pintos/src/threads/synch.c:109-121 | sema_up raises the value by one, makes the longest-waiting thread ready, and changes no other semaphore, lock or condition |
| `SynchSteps.SemaUpInInterrupt` | pintos/src/threads/synch.c:104-121 | so does an up by an interrupt handler, and the running thread stays where it was |
| `SynchSteps.SemaDown` | pintos/src/threads/synch.c:61-77 | sema_down takes a unit and returns, or joins the waiters blocked and another thread runs |
| `SynchSteps.SemaTryDown` | pintos/src/threads/synch.c:84-102 | takes a unit exactly if there is one, and returns |
| `SynchSteps.LockAcquire` | pintos/src/threads/synch.c:193-202 | lock_acquire takes the lock's unit or waits for it |
| `SynchSteps.LockAcquired` | pintos/src/threads/synch.c:193-202 | and ends with the caller as holder |
| `SynchSteps.LockTryAcquire` | pintos/src/threads/synch.c:210-222 | takes the lock exactly if it is free |
| `SynchSteps.LockReleasing` | pintos/src/threads/synch.c:229-236 | lock_release clears the holder |
| `SynchSteps.LockReleased` | pintos/src/threads/synch.c:229-236 | and ups the lock's semaphore |
| `SynchSteps.CondJoin` | pintos/src/threads/synch.c:288-302 | cond_wait joins the queue at the back with a private semaphore of value 0 |
| `SynchSteps.CondWait` | pintos/src/threads/synch.c:288-302 | and waits for that semaphore |
| `SynchSteps.CondSignal` | pintos/src/threads/synch.c:312-338 | a signal or broadcast takes the front of the queue, or returns if it is empty |
| `SynchSteps.CondWake` | pintos/src/threads/synch.c:312-338 | and ups the semaphore of the waiter it took; a broadcast goes on |
| `SynchSteps.CallsAllowed` | pintos/src/threads/synch.c:60-338 | what a thread may call: any semaphore operation, a lock it does not hold, a lock it holds, a condition whose lock it holds |
| `SynchSteps.Preempts` | pintos/src/threads/thread.c:314-327 | the running thread goes to the back of the ready list and its front runs |
| `SynchSteps.Creates` | pintos/src/threads/thread.c:175-215 | a new thread is ready at the back of the list |
| `SynchSteps.Exits` | pintos/src/threads/thread.c:293-310 | the running thread is gone and the front of the ready list runs |
| `SynchSteps.RunCounts` | pintos/src/threads/synch.c:61-121 | over every run a semaphore's ups are the executed sema_up steps and interrupt ups on it, its downs the successful downs and tries, and its value the difference added to the first value |
| `SynchSteps.AcquireFree` | pintos/src/threads/synch.c:193-202 | acquiring a free lock undisturbed ends with the caller as holder |
| `SynchSteps.ReleaseHeld` | pintos/src/threads/synch.c:229-236 | releasing it undisturbed ends with no holder, a unit more and the longest-waiting thread ready |
| `ListOrder.StableSortUnique` | pintos/src/lib/kernel/list.c:402-440 | a stable sort of given elements has one possible result |
| `ListOrder.MergeMove` | pintos/src/lib/kernel/list.c:392-398 | moving an element of the second run forward is stable and keeps both runs sorted |
| `ListOrder.PassStep` | pintos/src/lib/kernel/list.c:421-435 | merging two neighbouring runs turns two input runs into one |
| `ListOrder.OneRunIsSorted` | pintos/src/lib/kernel/list.c:437-439 | a list of one run is sorted |
| `LinkedLists.Insert` | pintos/src/lib/kernel/list.c:169-178 | a well-formed list with the element in front of the given one |
| `LinkedLists.Remove` | pintos/src/lib/kernel/list.c:249-255 | a well-formed list without the element, and the element after it |
| `LinkedLists.Splice` | pintos/src/lib/kernel/list.c:184-204 | moves a range in front of an element of the same or another list; both lists stay well formed |
| `ListOrder.RunEndIsMaximal` | pintos/src/lib/kernel/list.c:352-372 | the end of a run is the end of a sorted stretch that cannot be made longer |
| `LinkedLists.FindEndOfRun` | pintos/src/lib/kernel/list.c:358-372 | the end of the longest nondecreasing run |
| `LinkedLists.InplaceMerge` | pintos/src/lib/kernel/list.c:380-399 | two sorted runs become one sorted run, stably, and the rest of the list stays |
| `LinkedLists.MergeRuns` | pintos/src/lib/kernel/list.c:420-436 | a pass at least halves the number of runs, rounding up, and returns that number |
| `LinkedLists.List.constructor` | pintos/src/lib/kernel/list.c:61-68 | an empty well-formed list |
| `LinkedLists.List.Reverse` | pintos/src/lib/kernel/list.c:326-337 | the same elements in reverse order, well formed |
| `LinkedLists.List.Sort` | pintos/src/lib/kernel/list.c:405-440 | terminates with a well-formed list of exactly the same elements, sorted, equal ones in their old order |
| `Pallocs.Pool.constructor` | pintos/src/threads/palloc.c:154-170 | a pool behind its own bitmap, with no page in use |
| `Pallocs.Pool.Get` | pintos/src/threads/palloc.c:71-89 | the lowest free pages in a row, none of them in use before; none only if there are none |
| `Pallocs.Palloc.constructor` | pintos/src/threads/palloc.c:46-62 | kernel memory above 1 MB: the user pool gets the lesser of the limit and half of the pages, each pool starts behind its bitmap, and there is a gap between them |
| `Pallocs.PoolsAre` | pintos/src/threads/palloc.c:46-62 | the sizes of the pools and of their bitmaps in numbers |
| `Pallocs.Palloc.GetMultiple` | pintos/src/threads/palloc.c:71-101 | the lowest pages in a row of the pool asked for that overlap no pages in use; none only if there are none; the other pool is left alone |
| `Pallocs.Palloc.OnePool` | pintos/src/threads/palloc.c:118-142 | pages in use that lie in a row come from one pool |
| `Pallocs.Palloc.FreeMultiple` | pintos/src/threads/palloc.c:118-142 | finds the pool and place the pages came from, and frees exactly them |
| `MallocTheory.LiveBlocksApart` | pintos/src/threads/malloc.c:90-154 | no two blocks in use share a byte |
| `MallocTheory.AddressLeadsBack` | pintos/src/threads/malloc.c:268-294 | a block's address leads back to its arena and its place there, and the alignment assertions hold |
| `MallocTheory.LiveNotOwn` | pintos/src/threads/malloc.c:52-63 | the allocator's headers and list links never lie in a block in use |
| `MallocTheory.PushCount` | pintos/src/threads/malloc.c:241-246 | freeing a block makes the count of free blocks at most the arena's blocks, so the assertion on release holds |
| `Mallocs.DescriptorSizes` | pintos/src/threads/malloc.c:72-85 | the descriptors are for 16, 32, 64, 128, 256, 512 and 1024 bytes |
| `Mallocs.FindDescriptor` | pintos/src/threads/malloc.c:100-104 | the smallest block size that is large enough |
| `Mallocs.Malloc.TakeFront` | pintos/src/threads/malloc.c:148-153 | hands out the block at the front of the free list and leaves every block in use as it is |
| `Mallocs.Malloc.Refill` | pintos/src/threads/malloc.c:125-146 | a new arena with all its blocks listed, or no memory and no change |
| `Mallocs.GrantedIff` | pintos/src/threads/malloc.c:105-120 | the pages for a big block in numbers: they hold the size asked for if and only if it is at most 2 to the 32 less the header; for larger sizes there is one page |
| `Mallocs.CopyFitsIff` | pintos/src/threads/malloc.c:205-209 | realloc's copy stays inside the new block if and only if the new size does not wrap around or the old block fits in a page |
| `Mallocs.Malloc.Alloc` | pintos/src/threads/malloc.c:90-154 | a block that was not in use, of the least size class that fits, large enough exactly for sizes up to 2 to the 32 less the header; a free block of that class is taken first and then no page is; none only for size 0, if no pages are left, or if the pages round to 0; every block in use keeps its place and bytes, and no page is lost |
| `Mallocs.Malloc.BlockToArena` | pintos/src/threads/malloc.c:268-282 | the arena and place of a block in use |
| `Mallocs.Malloc.ReleaseArena` | pintos/src/threads/malloc.c:242-255 | an arena of free blocks leaves the list and exactly its page goes back |
| `Mallocs.Malloc.Free` | pintos/src/threads/malloc.c:219-264 | the block is no longer in use; every other block keeps its place and bytes; free lists stay exact; no page is lost |
| `Mallocs.Malloc.BlockSize` | pintos/src/threads/malloc.c:179-186 | the bytes a block has |
| `Mallocs.Malloc.Realloc` | pintos/src/threads/malloc.c:195-214 | the new block begins with as much of the old one as fits, and the old one is gone; it fails only if no pages are left, and then nothing changes; no page is lost |
| `MallocPages.OthersAfterAdding` | pintos/src/threads/malloc.c:105-146 | a new arena accounts for exactly the pages taken |
| `MallocPages.OthersAfterDropping` | pintos/src/threads/malloc.c:242-263 | an arena that goes gives back exactly its own pages |
| `MallocPages.AllGivenBack` | pintos/src/threads/malloc.c:219-264 | once every block is freed the allocator holds no page |
| `MallocPages.DescriptorIs` | pintos/src/threads/malloc.c:100-104 | the size class of every size up to 1024 in numbers |
| `Bits.TurnOff` | pintos/src/lib/kernel/hash.c:330-340 | turning off the lowest bit gives 0 exactly for powers of 2, and otherwise keeps the highest bit |
| `Bits.MaskIsRemainder` | pintos/src/lib/kernel/hash.c:306-310 | masking with a power of 2 less 1 is a remainder |
| `Hashes.BestCountFits` | pintos/src/lib/kernel/hash.c:364-372 | the best number of buckets is a power of 2, at least 4, and more than a quarter of the elements |
| `Hashes.Table.constructor` | pintos/src/lib/kernel/hash.c:25-42 | an empty table of 4 buckets |
| `Hashes.Table.BestBuckets` | pintos/src/lib/kernel/hash.c:364-372 | the loop finds the best number |
| `Hashes.Table.Redistribute` | pintos/src/lib/kernel/hash.c:393-410 | every element moves to the bucket its hash selects, and none is lost |
| `Hashes.Table.Rehash` | pintos/src/lib/kernel/hash.c:352-413 | the contents stay; after success there is the best number of buckets and fewer than 4 elements a bucket; a failed allocation changes nothing |
| `Hashes.Table.Find` | pintos/src/lib/kernel/hash.c:132-135 | the element equal to the given one, or none if the table has none |
| `Hashes.Table.Insert` | pintos/src/lib/kernel/hash.c:99-110 | adds the element exactly if no equal one is there, else returns that one; then there is the best number of buckets, or without memory the old one |
| `Hashes.Table.Replace` | pintos/src/lib/kernel/hash.c:115-127 | puts the element in the place of an equal one; buckets as for insertion |
| `Hashes.Table.Delete` | pintos/src/lib/kernel/hash.c:145-154 | takes out the equal element, if any; then there is the best number of buckets, or without memory the old one |
| `Hashes.Iterator.Next` | pintos/src/lib/kernel/hash.c:219-235 | the next element, in bucket order; none exactly at the end |
| `Hashes.VisitAll` | pintos/src/lib/kernel/hash.c:182-235 | an iteration visits every element once |
| `Arithmetic.Nlz` | pintos/src/lib/arithmetic.c:42-73 | the number of leading zero bits |
| `Arithmetic.Estimate` | pintos/src/lib/arithmetic.c:113-125 | the estimate for a large divisor is the quotient or one more |
| `Arithmetic.UDiv64` | pintos/src/lib/arithmetic.c:78-127 | the quotient for all 64-bit operands, and no division traps |
| `Arithmetic.UMod64` | pintos/src/lib/arithmetic.c:132-135 | the low 32 bits of the remainder |
| `Arithmetic.UModExactIff` | pintos/src/lib/arithmetic.c:132-135 | it is the remainder for all dividends if and only if the divisor is at most 2 to the 32 |
| `Arithmetic.QuotientIsTruncated` | pintos/src/lib/arithmetic.c:140-146 | the signed quotient rounds toward zero |
| `Arithmetic.SDiv64` | pintos/src/lib/arithmetic.c:140-146 | the signed quotient, except that the least integer over -1 wraps to itself |
| `Arithmetic.SMod64` | pintos/src/lib/arithmetic.c:151-154 | the signed remainder cut to 32 bits |
| `Arithmetic.SModExactIff` | pintos/src/lib/arithmetic.c:151-154 | it is the remainder for all dividends if and only if the divisor is at most 2 to the 31 in size |
| `Stdlib.FloatDown` | pintos/src/lib/stdlib.c:101-122 | swapping with the greater child leaves only that child's place out of order |
| `Stdlib.RootIsGreatest` | pintos/src/lib/stdlib.c:147-151 | the root of a heap is its greatest element |
| `Stdlib.Heapify` | pintos/src/lib/stdlib.c:97-123 | restores the heap below a broken root by a permutation of the heap part |
| `Stdlib.Sort` | pintos/src/lib/stdlib.c:132-152 | a nondecreasing permutation, for every total preorder |
| `Stdlib.BinarySearch` | pintos/src/lib/stdlib.c:185-207 | a match, and none exactly if there is none |
| `NumberText.Atoi` | pintos/src/lib/stdlib.c:10-41 | the integer the string denotes, and no step overflows |
| `NumberText.WriteDigits` | pintos/src/lib/stdio.c:505-513 | the digits fit in 29 of the 64 bytes for every 64-bit value, base and grouping |
| `NumberText.WriteZeros` | pintos/src/lib/stdio.c:520-524 | zeros for the precision and for octal never leave the buffer |
| `NumberText.FormatInteger` | pintos/src/lib/stdio.c:470-547 | the characters written, for all flags, widths, precisions and bases |
| `NumberText.FieldWidth` | pintos/src/lib/stdio.c:527-546 | the greater of width and body, if and only if not both flags pad |
| `NumberText.BothFlagsIff` | pintos/src/lib/stdio.c:373-416 | both flags are left exactly for a 0 flag and a negative width argument without precision |
| `NumberText.PaddedTwice` | pintos/src/lib/stdio.c:527-546 | 3 with a 0 flag and width -5 takes 9 characters |
| `NumberText.RoundTrip` | pintos/src/lib/stdio.c:470-547 | reading back what a decimal conversion without grouping wrote gives the number |
| `NumberLaws.DigitsAreNumeral` | pintos/src/lib/stdio.c:505-513 | the digits read back as the value in base 8, 10 or 16, in the case of the conversion, without leading zeros, and with commas after every 3 or 4 digits exactly if asked for |
| `NumberLaws.BodyIs` | pintos/src/lib/stdio.c:515-524 | zeros before them up to the precision, and one under the # flag in base 8 if there is none |
| `NumberLaws.WithoutPadding` | pintos/src/lib/stdio.c:470-547 | what is written in a field of width 0: sign, 0x or 0X, zeros and digits |
| `NumberLaws.SpacesAround` | pintos/src/lib/stdio.c:527-546 | without the 0 flag, padding is spaces: on the right for the - flag, else on the left |
| `NumberLaws.ZerosInside` | pintos/src/lib/stdio.c:527-546 | with the 0 flag, padding is zeros between sign or prefix and digits |
| `NumberLaws.SettledIs` | pintos/src/lib/stdio.c:340-416 | how flags, width and precision override each other |
| `NumberLaws.DenotesIs` | pintos/src/lib/stdlib.c:10-41 | a string of white space, sign, digits and rest denotes the digits' positional value with the sign |
| `NumberLaws.EveryStringIsMadeOf` | pintos/src/lib/stdlib.c:10-41 | and every string is such a string |
| `NumberText.Vsnprintf` | pintos/src/lib/stdio.c:26-52 | as much as fits, a null character, nothing past it, and the full length |
| `Ustar.StripIsSafe` | pintos/src/lib/ustar.c:66-73 | a stripped name is the name without a run of "/", "./" and "../" pieces, or "." if nothing or ".." is left of it; it is safe, safe names stay, and stripping twice is stripping once |
| `Ustar.StripPrefixes` | pintos/src/lib/ustar.c:66-73 | the loop ends with the stripped name |
| `Ustar.ChecksumIgnoresField` | pintos/src/lib/ustar.c:37-54 | the checksum does not depend on its own field |
| `Ustar.CalculateChksum` | pintos/src/lib/ustar.c:37-54 | the sum of the bytes with that field as spaces |
| `Ustar.ParseOctalField` | pintos/src/lib/ustar.c:130-162 | succeeds exactly on a terminated octal number that fits in an unsigned long |
| `Ustar.OctalRoundTrip` | pintos/src/lib/ustar.c:130-162 | a number written in octal is read back, and nothing else is |
| `Ustar.OctalIsPrinted` | pintos/src/lib/ustar.c:102-115 | the octal fields are what the integer conversion writes |
| `Ustar.MakeHeader` | pintos/src/lib/ustar.c:83-118 | succeeds exactly for names of at most 99 bytes, and composes the header |
| `Ustar.ParseHeader` | pintos/src/lib/ustar.c:182-227 | what a header says, error by error |
| `Ustar.VerdictIsSafe` | pintos/src/lib/ustar.c:220-226 | whatever a header holds, the name taken from it is safe and the size an int |
| `Ustar.HeaderRoundTrip` | pintos/src/lib/ustar.c:83-227 | parsing a made header gives the stripped name, the type, and the size, 0 for directories; negative sizes are too large |
| `UstarLaws.HoldsIff` | pintos/src/lib/ustar.c:130-162 | an octal field is read exactly as the positional value of its digits |
| `UstarLaws.ChecksumIs` | pintos/src/lib/ustar.c:37-54 | the checksum is the sum of the bytes outside 148 to 155 and of eight spaces |
| `UstarLaws.AcceptedIff` | pintos/src/lib/ustar.c:182-227 | a header is accepted exactly if its magic, version, checksum and name are in order and byte 156 is 5, or 0 with a size that is an int |
| `UstarLaws.AcceptedAs` | pintos/src/lib/ustar.c:210-226 | type 5 is a directory of size 0, type 0 a regular file of the size in its field, and the name ends at the first null byte |
| `UstarLaws.RejectedWith` | pintos/src/lib/ustar.c:188-218 | each message is given exactly for the headers whose first fault it names |
| `UstarLaws.MadeIs` | pintos/src/lib/ustar.c:83-118 | every byte of a header that is made: name, mode 0644 or 0755, owner, size, time, checksum, type 0 or 5, magic and version |

## Left out

- Storages.Storage.ExtendDoubly: only growth from 250 blocks to at most 377 is modelled; past that the code's index arithmetic panics or fills no pointers, as `InodeGrowth.GrowthIsExact` says.
- Storages.Storage.Extend: growth past 250 blocks is covered only where that arithmetic works.
- FileSystems.FileSystem.Grow: growth past 250 blocks is covered only where that arithmetic works.
- FileSystems.FileSystem.WriteAt: growth past 250 blocks is covered only where that arithmetic works; `offset + size` does not overflow as a 32-bit `off_t` does past 2 to the 31, where the source fails an assertion and the model's write returns 0.
- FileSystems.FileSystem.Create: lengths past 250 blocks are covered only where that arithmetic works.
- FileSystems.FileSystem.constructor: the device is small enough for that arithmetic to work for its free map's file, that is, up to 377 * 4096 sectors; the root directory is not modelled.
- Storages.Storage.CreateMapFile: devices whose map needs more than 377 sectors are excluded, likewise.
- FileLaws.WriteThenRead: growth past 250 blocks is covered only where that arithmetic works.
- FileRuns.DoWrite: growth that the arithmetic gets wrong is answered `Unsupported` and not performed.
- FileRuns.DoMake: a length that the arithmetic gets wrong is answered `Unsupported` and not performed.
- FileRuns.PerformAfterFormat: the device has room for its free map's file; without room formatting panics.
- FileSystems.FileSystem.ReadAt: offsets and sizes are natural numbers; in the source they are 32-bit signed.
- FileSystems.FileSystem.Close: the `removed` flag and what is released for a removed file are not modelled.
- FreeMaps.FreeMap.Allocate: the free map's file is a copy on the side, not sectors of the cache; whether each write of it succeeds is a parameter.
- Mallocs.Malloc.Alloc: `calloc` is not modelled.
- Mallocs.Malloc.Realloc: excludes one of the last eleven sizes below 2 to the 32 for a block of more than a page, because the copy then runs past the new block.
- Mallocs.Malloc.Free: descriptor locks are not modelled; allocator calls run one at a time.
- Pallocs.Palloc.GetMultiple: the flags for zeroing and for panicking, and the contents of pages, are not modelled.
- LinkedLists.Splice: elements carry an integer key, and orders are over keys.
- Hashes.Table.constructor: failure to get memory for the first buckets is not modelled.
- Hashes.Table.Rehash: chains are sequences, and the memory of bucket arrays is not modelled beyond success or failure of its allocation.
- Stdlib.Sort: elements are exchanged as wholes, not byte by byte.
- NumberText.Atoi: strings that denote no int are excluded, because C leaves their overflow undefined.
- Ustar.MakeHeader: the message printed for a long name is not modelled.
- Locks and interrupts of the file-system layers: each operation runs alone, as under the cache lock.
- Memory that cannot be had: `calloc` failures in `inode_extend` and `inode_alloc` dereference null and are not modelled; the bounce buffer's allocation is a parameter.
- Deleting files (`inode_dealloc` zeroes pointers before it releases them), directories and path resolution.
- `inode_set_parent` and `inode_set_disknode_directory`, which change an open inode without writing it.
- Processes, system calls, exceptions, device drivers, the console and boot code.
- Priorities, nice values and load averages: the scheduler in this tree is round robin.
- Liveness: fairness of interrupts and eventual progress; only safety and bounds on steps are proved.
- Format strings: parsing them, and string conversions; the integer conversions start from parsed options.
- `list_insert_ordered`, `list_unique`, `list_max`, `list_min` and the FNV hash functions, which would add only easier members.
