# OMEN kernel: verified models

Dafny models of the self-contained, algorithmically hard modules of the OMEN
x86-64 kernel, with proofs of what they promise. `dafny verify dfyconfig.toml`
checks the whole project.

* **Buddy allocator** (`BuddyTree`, `BuddyRuns`, `BuddyBits`, `BuddySpine`, `BuddyAllocator`).
  The reference is a binary tree of free, live and split blocks. The class keeps
  the kernel's bitmap (one XOR bit a pair, one split bit a node) and one free list
  a level in place; its invariant ties every bit and list entry to the tree, and
  every operation is an operation of the tree. The theorems about whole runs
  (partition, live blocks, restoration, conservation, reservation order) are
  proved on the tree and carried to bits and lists.
* **Process table and scheduler** (`SchedulerFairness`, `ProcessTable`, `SchedulerRuns`). One call
  of `sched` is proved to be a step of a transition system in which bounded waiting
  holds; slots and pids are kept in order by fork and delete.
* **Initial user stack** (`StackImage`, `StackBuilder`). The builder writes bytes
  into a scratch buffer, copies and relocates; the parser, on the resulting memory,
  recovers the input.
* **MD5** (`Rfc1321`, `Md5`, `Md5Answer`). `Rfc1321` is section 3 of RFC 1321 as functions,
  with bit laws for its mixing functions and the digest of "abc" computed from them; the
  buffered context is proved to compute it for every way of cutting the message.
* **Semaphore** (`Semaphore`). Every shared access is one step of a state machine
  with any number of threads, refined to an atomic counting semaphore.
* **Printing and parsing integers** (`Numerals`, `FormatText`, `Vsnprintf`,
  `FormatStandard`, `FormatLimits`, `Strtoull`, `PrintParse`). `FormatText` says what a format
  stands for; `Vsnprintf` pushes it character by character into a truncating sink;
  `FormatStandard` shows that it is what ISO C11 says, `FormatLimits` where it is not.
* **Supporting allocators and searches** (`Bitfield`, `VmAreas`, `Alarms`).

Addresses of the buddy allocator are offsets in the region. Linked lists are
sequences. `panic` and NULL results are `None`, 0 or -1 as the source has them.
The clock, the memory allocator's success, the address of the scratch buffer and
`sizeof` of the bitmap header are parameters.

What the code does that one might not expect, with the member that shows it:

* `process_count` is never decremented, so `fork` is refused once 256 processes
  have ever existed (`ForkRefused`, exactly: `Fork`); the same invariant makes the queue overflow panic
  unreachable (`BuildQueues`).
* The walk of `buddy_free` computes the parent of index 0 for a block that is the
  whole region, and reads a bit far outside the bitmap (`DetermineLevel`). Whatever it
  reads, the block is then freed; a fault is a result of its own (`Deallocate`).
* `buddy_free` accepts the address just behind the region and lists it as a free block
  (`Deallocate`, `FreedPastEnd`).
* `sched_thread` never reconsiders the current thread of a process with several
  threads (`PassedOverExactly`, `RunningThreadPassedOver`).
* `strtoull` on a bare `0x` consumes nothing, and a newline or its like in front of a
  number stops it (`PrefixAlone`, `NewlineStops`; exactly: `StandardExactly`).
* Digits, zeros, prefix and sign share 32 characters: `%b` prints only the low 32 digits
  (`BinaryCut`, `RoundTripExactly`), a sign can be dropped (`SignDropped`,
  `PlusDropped`, `SignShownExactly`, `SpaceShownExactly`), a zero-filled width ends at 32 (`WidthCut`, `WidthExactly`), and
  `-` switches the precision off (`PrecisionIgnored`, `PrecisionExactly`). A negative
  `*` precision counts as 0 (`NegativePrecisionOfZero`, `NegativePrecisionOfText`; exactly:
  `NegativePrecisionExactly`, `NegativePrecisionOfString`).
* `create_args_env_aux` never compares the image with its scratch buffer of 4096 words:
  stores leave it (`LongArgumentWritesPast`, exactly: `WritesPastExactly`), and so does the
  copy, also when no store does (`OnlyReadsPast`, `StaleTail`).
* `deallocate` with size 0 frees nothing although `allocate` with size 0 took a page
  (`SamePages`); the search is bounded by the size of the bitmap in bytes although it
  counts pages (`MissesFreePages`, `Allocate`); a range can end behind the region, for
  which the bitmap has too many bits (`RunsPastRegion`, `InsideExactly`); a run can be
  read behind the bitmap (`WholeRegionReadsBehind`, exactly: `Allocate`); and a range
  handed out near the end of the region can be refused by `deallocate` (`NotTakenBack`,
  `AcceptedExactly`).
* A range found by `find_shm_vmarea` can lie outside the region (`FreeHintOutside`,
  `EndOfFullRegion`; exactly: `FoundInRegionExactly`).
* With overlapping areas, which `create_vmarea` does not prevent, the copy made for a
  forked process answers lookups differently (`OverlapChangesLookup`,
  `SameAnswerExactly`).

## Model

| member | source | states |
|---|---|---|
| `BuddyAllocator.Buddy.IndexHelpers` | src/modules/libraries/allocators/buddy_allocator.c:11-40 | on the offset of block k of a level the shift, the parent index and the XOR give its heap index, the index of its pair bit, of its split bit, and the offset of its buddy |
| `BuddyAllocator.Buddy.PairBitIsXor` | src/modules/libraries/allocators/buddy_allocator.c:81-106 | in every valid state the pair bit of two buddies is the exclusive-or of "left is on its free list" and "right is on its free list", and the two are never both on it |
| `BuddyAllocator.Buddy.Partition` | src/modules/libraries/allocators/buddy_allocator.c:63-151 | in every valid state each page of the region lies in exactly one block that is on a free list or live |
| `BuddyAllocator.Buddy.ListedIffFree` | src/modules/libraries/allocators/buddy_allocator.c:94-97 | a free list holds exactly the offsets of the blocks that the reference tree has free at that level |
| `BuddyAllocator.Buddy.constructor` | src/modules/libraries/allocators/buddy_allocator.c:161-183 | buddy_init: the invariant holds, the whole region is one free block |
| `BuddyAllocator.Buddy.FindFreeLevel` | src/modules/libraries/allocators/buddy_allocator.c:67-74 | the deepest non-empty list at or above the level, or -1 when all are empty |
| `BuddyAllocator.Buddy.TakeFirst` | src/modules/libraries/allocators/buddy_allocator.c:69-72 | unlinking the first block of the deepest usable list starts an allocation the reference tree allows |
| `BuddyAllocator.Buddy.SplitOnce` | src/modules/libraries/allocators/buddy_allocator.c:84-102 | one split: left half stays taken, right half becomes free, bits and lists match the split tree except for the one pair bit toggled next |
| `BuddyAllocator.Buddy.SplitDown` | src/modules/libraries/allocators/buddy_allocator.c:81-103 | the loop takes the left half down to the requested level with the pointer unchanged; putting the taken block into the tree gives the carved tree |
| `BuddyAllocator.Buddy.LevelAlloc` | src/modules/libraries/allocators/buddy_allocator.c:63-109 | NULL exactly when every list up to the level is empty, then nothing changes; otherwise the tree becomes the one in which the deepest usable free block is carved, and the pointer returned is the start of the block of the requested level that became live |
| `BuddyAllocator.Buddy.BuddyIsFree` | src/modules/libraries/allocators/buddy_allocator.c:124-124 | the loop test of the merge is true exactly when the buddy of the block is free |
| `BuddyAllocator.Buddy.MergeOnce` | src/modules/libraries/allocators/buddy_allocator.c:124-144 | a merge step removes a buddy that really is on its list, and the release of the parent equals the release of the block |
| `BuddyAllocator.Buddy.LevelFree` | src/modules/libraries/allocators/buddy_allocator.c:116-151 | freeing a live block keeps the invariant and yields the coalesced reference tree |
| `BuddyAllocator.Buddy.SizeToLevel` | src/modules/libraries/allocators/buddy_allocator.c:48-57 | the deepest level whose blocks hold the request |
| `BuddyAllocator.Buddy.Alloc` | src/modules/libraries/allocators/buddy_allocator.c:238-244 | succeeds exactly when the request fits the region and some free block is at least as large as the rounded request, and returns the start of the new live block of the rounded size; a failed call changes nothing |
| `BuddyAllocator.Buddy.DetermineLevel` | src/modules/libraries/allocators/buddy_allocator.c:256-267 | from every page the upward split-bit walk stops at exactly the level of the block that owns it, or faults on the bit it reads for index 0, which happens only for a block that is the whole region; from the end of the region it stops at the deepest split block of the leftmost spine, at the root when nothing is split |
| `BuddyAllocator.Buddy.Deallocate` | src/modules/libraries/allocators/buddy_allocator.c:250-271 | a live block is released at its own level unless the walk faults; NULL and every pointer outside the region change nothing, except the pointer just behind it, which the range test lets through: it is linked into a free list and the invariant is lost |
| `BuddyAllocator.Buddy.LevelFreePastEnd` | src/modules/libraries/allocators/buddy_allocator.c:116-151 | buddy_level_free of the address just behind the region puts that address on a free list, whatever the state, at the deepest level of the leftmost spine whose pair bit was clear; the pair bits up to there are toggled, the split bits beside them cleared, no other bit changes |
| `BuddySpine.ClimbedBits` | src/modules/libraries/allocators/buddy_allocator.c:121-144 | every round of the merge loop on that address toggles one pair bit and clears one split bit of the leftmost spine, no other bit |
| `BuddySpine.ClimbEnds` | src/modules/libraries/allocators/buddy_allocator.c:124-147 | the loop ends at the deepest level whose pair bit was clear, or at the root |
| `BuddyAllocator.FreedPastEnd` | src/modules/libraries/allocators/buddy_allocator.c:250-271 | on a fresh allocator of two pages the freed end of the region stands on list 0 |
| `BuddyAllocator.Buddy.AllocThenFree` | src/modules/libraries/allocators/buddy_allocator.c:238-271 | allocating and freeing at once leaves every block as it was |
| `BuddyAllocator.Buddy.LargestAvailable` | src/modules/libraries/allocators/buddy_allocator.c:278-285 | the size of the largest free block, 0 when there is none |
| `BuddyAllocator.Buddy.Available` | src/modules/libraries/allocators/buddy_allocator.c:292-301 | the bytes of the free blocks; with the bytes of the live blocks they make up the region |
| `BuddyAllocator.Buddy.DrainedIsInitial` | src/modules/libraries/allocators/buddy_allocator.c:116-183 | with nothing live: one level-0 free block, all other lists empty, every pair and split bit zero |
| `BuddyAllocator.Buddy.ReservePages` | src/modules/libraries/allocators/buddy_allocator.c:206-209 | the single-page allocations of a fresh allocator return pages 0, 1, 2, ... in order, and NULL once there are none |
| `BuddyAllocator.Buddy.MovedFrom` | src/modules/libraries/allocators/buddy_allocator.c:211-231 | the allocator at the start of the region has the bits and lists of the temporary one |
| `BuddyAllocator.Create` | src/modules/libraries/allocators/buddy_allocator.c:194-232 | NULL exactly for a missing address or a size that is no power of two; otherwise the live blocks are exactly the fewest pages from the start of the region that hold the 48-byte header, a 16-byte head for every list and the bitmap, or all pages when there are fewer |
| `BuddyAllocator.MetadataFits` | src/modules/libraries/allocators/buddy_allocator.c:198-209 | the reserved pages hold the metadata exactly when it is no larger than the region |
| `BuddyBits.SplitRoundBits` | src/modules/libraries/allocators/buddy_allocator.c:85-92 | setting the split bit and toggling the pair bit turns the bitmap of a tree into that of the split tree |
| `BuddyBits.JoinBits` | src/modules/libraries/allocators/buddy_allocator.c:124-133 | clearing the split bit leaves the bitmap of the tree whose parent block is being released |
| `BuddyBits.PairBitTellsBuddy` | src/modules/libraries/allocators/buddy_allocator.c:121-124 | after the toggle a clear pair bit means that the buddy is free |
| `BuddyBits.WalkStep` | src/modules/libraries/allocators/buddy_allocator.c:259-263 | the parent index is the ancestor of the page one level up, and its split bit is set exactly when the owner lies deeper |
| `BuddyBits.JoinLists` | src/modules/libraries/allocators/buddy_allocator.c:128-129 | unlinking the buddy leaves lists that match the joined tree |
| `BuddyTree.CarveShape` | src/modules/libraries/allocators/buddy_allocator.c:81-106 | allocation keeps the tree inside the region and free of two free buddies |
| `BuddyTree.ReleaseShape` | src/modules/libraries/allocators/buddy_allocator.c:116-151 | freeing keeps the tree inside the region and free of two free buddies |
| `BuddyTree.ReleaseJoins` | src/modules/libraries/allocators/buddy_allocator.c:124-144 | releasing a block with a free buddy is releasing the parent |
| `BuddyTree.BuddiesNotBothFree` | src/modules/libraries/allocators/buddy_allocator.c:124-144 | in a coalesced tree two buddies are never both free |
| `BuddyRuns.PageOwner` | src/modules/libraries/allocators/buddy_allocator.c:256-267 | of the blocks around a page those above the owner are split, the owner is free or live, those below do not exist |
| `BuddyRuns.BlocksDisjoint` | src/modules/libraries/allocators/buddy_allocator.c:63-151 | two free or live blocks that share a page are the same block |
| `BuddyRuns.BlocksCover` | src/modules/libraries/allocators/buddy_allocator.c:63-151 | every page lies in some free or live block |
| `BuddyRuns.RunShape` | src/modules/libraries/allocators/buddy_allocator.c:63-151 | every run of allocations and frees of live blocks keeps the tree inside the region and coalesced |
| `BuddyRuns.RunLive` | src/modules/libraries/allocators/buddy_allocator.c:63-151 | after every run the live blocks are exactly those allocated and not yet freed |
| `BuddyRuns.CarveLive` | src/modules/libraries/allocators/buddy_allocator.c:105-108 | an allocation adds exactly the returned block to the live blocks |
| `BuddyRuns.ReleaseLive` | src/modules/libraries/allocators/buddy_allocator.c:146-150 | a free removes exactly the freed block from the live blocks |
| `BuddyRuns.FreeingEverythingRestores` | src/modules/libraries/allocators/buddy_allocator.c:116-151 | any run followed by freeing the live blocks in any order is a run, and it ends in the initial tree |
| `BuddyRuns.DrainInAnyOrder` | src/modules/libraries/allocators/buddy_allocator.c:116-151 | from any coalesced tree the live blocks can be freed in any order, and the initial tree is left |
| `BuddyRuns.FreeUndoesAlloc` | src/modules/libraries/allocators/buddy_allocator.c:63-151 | freeing the block an allocation made live restores the tree |
| `BuddyRuns.PagesConserved` | src/modules/libraries/allocators/buddy_allocator.c:292-308 | free pages plus live pages are the pages of the region |
| `BuddyRuns.FreePagesByLevel` | src/modules/libraries/allocators/buddy_allocator.c:292-301 | counting the free blocks level by level gives the free pages |
| `BuddyRuns.PrefixStep` | src/modules/libraries/allocators/buddy_allocator.c:206-209 | a single-page allocation from "the first n pages are live" returns page n, whichever free block of the deepest level is taken |
| `BuddyRuns.PrefixPages` | src/modules/libraries/allocators/buddy_allocator.c:206-209 | in the tree left by n single-page allocations the live blocks are exactly pages 0 to n - 1 |
| `SchedulerFairness.ChoiceUnique` | src/modules/managers/cpu/process.c:1074-1115 | row, time stamp and slot order leave one possible choice |
| `SchedulerFairness.PatienceDecreases` | src/modules/managers/cpu/process.c:1049-1127 | a call that passes over a ready process uses up one unit of (row + rivals not scheduled later) |
| `SchedulerFairness.ChosenWithinPatience` | src/modules/managers/cpu/process.c:1073-1127 | a ready process is chosen within its patience |
| `SchedulerFairness.BoundedWaitingStamped` | src/modules/managers/cpu/process.c:1073-1127 | a process stamped before the first call is chosen within PROCESS_PRIORITIES + n - 1 calls |
| `SchedulerFairness.BoundedWaiting` | src/modules/managers/cpu/process.c:1073-1127 | with n live processes, no creation in between and an advancing tick counter, a process for which sched_thread keeps succeeding is chosen within PROCESS_PRIORITIES + n calls, whatever the others do |
| `SchedulerRuns.SchedIsFair` | src/modules/managers/cpu/process.c:1073-1127 | the same of sched itself: in every sequence of process tables that its calls produce, with exits, sleeps and nice changes in between, a runnable process is dispatched within PROCESS_PRIORITIES + (live processes) calls |
| `ProcessTable.FirstAllowed` | src/modules/managers/cpu/process.c:854-876 | the least pending signal that the mask names |
| `ProcessTable.SchedThread` | src/modules/managers/cpu/process.c:878-923 | in the fields of the threads: success means that the thread picked was ready or running and not in waitpid, or slept in sigsuspend with a pending signal that its mask names or that is SIGKILL or SIGSTOP; it is running then and every other thread is unchanged; every thread visited before it, cyclically behind the current one, and every thread visited in vain, was neither |
| `ProcessTable.EligibleInFields` | src/modules/managers/cpu/process.c:884-907 | the loop ends at a thread exactly when it is runnable and not in waitpid or a signal ends its sigsuspend |
| `ProcessTable.PickedRunnable` | src/modules/managers/cpu/process.c:916-920 | a runnable thread is only set running |
| `ProcessTable.PickedSuspended` | src/modules/managers/cpu/process.c:890-907 | the least pending signal that the mask names ends a sigsuspend and swaps the masks; SIGKILL and SIGSTOP leave them and are noted only when the mask does not name them |
| `ProcessTable.PassedOverExactly` | src/modules/managers/cpu/process.c:878-923 | a process with an eligible thread is passed over exactly when its current thread is the only eligible one of several |
| `ProcessTable.RunningThreadPassedOver` | src/modules/managers/cpu/process.c:878-923 | a running thread beside a sleeping one is not found |
| `ProcessTable.Insert` | src/modules/managers/cpu/process.c:1049-1069 | the row with the process added, one longer |
| `ProcessTable.InsertInPrioQueue` | src/modules/managers/cpu/process.c:1049-1069 | shifting in place inserts the process behind the entries scheduled strictly earlier |
| `ProcessTable.RowSorted` | src/modules/managers/cpu/process.c:1049-1094 | each row is ordered by time of last scheduling, ties by higher slot |
| `ProcessTable.FirstIsChosen` | src/modules/managers/cpu/process.c:1107-1115 | the first runnable entry of the first row that has one is the scheduler's choice |
| `ProcessTable.Pigeonhole` | src/modules/managers/cpu/process.c:522-542 | when every pid from lo on is taken there are that many live processes |
| `ProcessTable.Table.constructor` | src/modules/managers/cpu/process.c:1274-1316 | one live process, pid 0, in slot 0 |
| `ProcessTable.Table.GetFreeSlot` | src/modules/managers/cpu/process.c:210-217 | the first free slot; none exactly when all 256 are live |
| `ProcessTable.Table.GetNextPid` | src/modules/managers/cpu/process.c:522-542 | the least positive pid in no slot, -1 only when 1..255 are all taken |
| `ProcessTable.Table.UnusedPid` | src/modules/managers/cpu/process.c:660-676 | when a fork is admitted some positive pid is unused |
| `ProcessTable.Table.Fork` | src/modules/managers/cpu/process.c:660-728 | refused exactly when process_count has reached 256; otherwise the child is a copy of the parent in a free slot with the least unused positive pid, its own nice value restored and one thread; pids stay distinct, other slots are untouched |
| `ProcessTable.ForkRefused` | src/modules/managers/cpu/process.c:660-668 | after 255 forks whose children have all been deleted a fork is refused with one process live |
| `ProcessTable.Table.Delete` | src/modules/managers/cpu/process.c:925-982 | the slot is free again, every other slot unchanged, pids stay distinct |
| `ProcessTable.Table.BuildQueues` | src/modules/managers/cpu/process.c:1078-1095 | every live process is aged and stands in the row of its aged nice value; no row overruns process_count entries |
| `ProcessTable.Table.ScanRow` | src/modules/managers/cpu/process.c:1108-1115 | the first entry of a row for which sched_thread succeeds |
| `ProcessTable.Table.DispatchRow` | src/modules/managers/cpu/process.c:1107-1127 | a row without a runnable process changes nothing; otherwise the choice, its thread and its stamp are fixed and every other process is only aged |
| `ProcessTable.Table.Dispatch` | src/modules/managers/cpu/process.c:1107-1127 | nothing is dispatched only when no process can run; otherwise one process is dispatched as the transition system chooses |
| `ProcessTable.Table.Sched` | src/modules/managers/cpu/process.c:1073-1128 | a postponed call changes only the flag; otherwise one call is one step of the transition system whose runs satisfy BoundedWaiting: choice, thread switch, stamp, and aging of all others; None exactly when no process can run |
| `ProcessTable.SchedStepInFields` | src/modules/managers/cpu/process.c:1078-1127 | in the fields of the processes: the chosen one gets its nice value and the tick, every other live one moves up one of the 20 rows, clamped, and nothing else changes |
| `ProcessTable.ChosenInFields` | src/modules/managers/cpu/process.c:1078-1115 | the chosen process is before every other runnable one by clamped row, then by the tick it last ran at, then by the higher slot |
| `StackImage.WordRoundTrip` | src/modules/managers/cpu/process.c:128-141 | eight little-endian bytes decode to the word they encode |
| `StackImage.WordWeights` | src/modules/managers/cpu/process.c:128-141 | byte k of a word in memory has weight 256^k |
| `StackImage.ImageAligned` | src/modules/managers/cpu/process.c:150-157 | with an aligned scratch buffer and a top congruent to 8 modulo 16 the image starts 16-byte aligned (section 3.4.1 of the System V AMD64 psABI) |
| `StackImage.StackTop` | src/modules/libraries/allocators/heap_allocator.c:48-53 | the top of an allocated stack is congruent to 8 modulo 16 and lies 24 to 39 bytes below the end of its pages |
| `StackImage.ParseRecovers` | src/modules/managers/cpu/process.c:75-105 | the parser reads back from a laid-out image exactly the argc, argv, envp and auxv it was made from |
| `StackImage.ArgAddresses` | src/modules/managers/cpu/process.c:75-87 | what was parsed has argc at the stack pointer and the argument pointers in the words behind it |
| `StackImage.EnvAddresses` | src/modules/managers/cpu/process.c:88-94 | the environment pointers lie one word behind the argument pointers and end at a NULL |
| `StackImage.AuxAddresses` | src/modules/managers/cpu/process.c:95-104 | the auxiliary pairs lie behind that NULL and end at AT_NULL (section 3.4.1 of the System V AMD64 psABI) |
| `StackImage.StringRead` | src/modules/managers/cpu/process.c:75-105 | a string read is the bytes up to the first 0 |
| `StackBuilder.WriteTable` | src/modules/managers/cpu/process.c:128-141 | argc, placeholder pointers, NULL, placeholder pointers, NULL, auxv, AT_NULL |
| `StackBuilder.PlaceStrings` | src/modules/managers/cpu/process.c:159-169 | strings one after the other, every table entry patched with the offset of its string, everything between table and strings untouched |
| `StackBuilder.AlignTo16` | src/modules/managers/cpu/process.c:150-156 | the loop adds the distance to the next multiple of 16 |
| `StackBuilder.BuildScratch` | src/modules/managers/cpu/process.c:128-171 | the image in the scratch buffer with offsets for pointers; the last byte stored is a 0, the terminator of the last string or the end of the table without strings, and nothing behind it changes |
| `StackBuilder.RelocateTable` | src/modules/managers/cpu/process.c:184-201 | every pointer is moved by the address of the image, NULL stays, only the table changes |
| `StackBuilder.InstallImage` | src/modules/managers/cpu/process.c:181-203 | copied below the top and relocated, the image is laid out at its final address and nothing outside it changes; its last byte is the one at size - 1 of the scratch image |
| `StackBuilder.CreateArgsEnvAux` | src/modules/managers/cpu/process.c:107-204 | for images of every size: panics exactly for an image over max_size or a NULL stack; otherwise the image ends at the top, nothing else changes, parse_stack on it yields exactly the arguments, environment and auxiliary entries given (nothing for a NULL array), and it is 16-byte aligned under the psABI conditions; bytes from the scratch buffer on are stored up to the last terminator (or the end of the table without strings) and read up to the image size |
| `StackBuilder.WritesPastExactly` | src/modules/managers/cpu/process.c:126-169 | memory behind the 4096-word scratch buffer stays as it was, whatever it holds, exactly when the last terminator, or the table without strings, ends inside the buffer |
| `StackBuilder.StaleTail` | src/modules/managers/cpu/process.c:182-182 | without strings the copy ends in bytes the builder never stored |
| `StackBuilder.OnlyReadsPast` | src/modules/managers/cpu/process.c:182-182 | 2045 auxiliary entries and no strings: every store stays inside the buffer, the copy reads 8 bytes behind it |
| `StackBuilder.LongArgumentWritesPast` | src/modules/managers/cpu/process.c:159-163 | an argument of 32768 characters: its terminator is stored behind the buffer |
| `StackBuilder.ParseStack` | src/modules/managers/cpu/process.c:75-105 | the three loops read, on every memory, what the recursive reader defines, and fail exactly when a read leaves the mapped range |
| `Md5.FastFAgrees` | src/modules/libraries/crypto/md5.c:48-48 | the reduced F macro is the F of section 3.4 of RFC 1321 |
| `Md5.FastGAgrees` | src/modules/libraries/crypto/md5.c:49-49 | the reduced G macro is the G of the RFC |
| `Md5.H2Agrees` | src/modules/libraries/crypto/md5.c:50-51 | H2 computes H |
| `Md5.StepAgrees` | src/modules/libraries/crypto/md5.c:57-60 | STEP is b + ((a + f + x + t) <<< s) in 32-bit arithmetic |
| `Rfc1321.BitsOfF` | src/modules/libraries/crypto/md5.c:48-48 | bit k of F is that of y or of z, selected by bit k of x |
| `Rfc1321.BitsOfG` | src/modules/libraries/crypto/md5.c:49-49 | bit k of G is that of x or of y, selected by bit k of z |
| `Rfc1321.BitsOfH` | src/modules/libraries/crypto/md5.c:50-51 | bit k of H is the parity of the three bits |
| `Rfc1321.BitsOfI` | src/modules/libraries/crypto/md5.c:52-52 | bit k of I is that of y when x has a 0 and z a 1, and its complement otherwise |
| `Rfc1321.RotatedValue` | src/modules/libraries/crypto/md5.c:59-59 | rotating h * 2^(32-s) + l by s gives l * 2^s + h |
| `Rfc1321.ByteWeights` | src/modules/libraries/crypto/md5.c:78-88 | byte j of a word has weight 256^j, in loading and in storing |
| `Rfc1321.LengthFieldValue` | src/modules/libraries/crypto/md5.c:292-294 | the two words of the length field are the bit count modulo 2^64, the low one first |
| `Rfc1321.OutputBytes` | src/modules/libraries/crypto/md5.c:298-301 | the output is a, b, c and d, each with its low byte first |
| `Md5.GetIsWord` | src/modules/libraries/crypto/md5.c:77-81 | GET reads the words of the block |
| `Md5.OutIsBytes` | src/modules/libraries/crypto/md5.c:267-271 | OUT stores the bytes of a word, the low one first |
| `Md5.Round1` | src/modules/libraries/crypto/md5.c:134-150 | round 1 takes the registers through sixteen operations of the RFC |
| `Md5.Round2` | src/modules/libraries/crypto/md5.c:152-168 | round 2 takes the registers through sixteen operations of the RFC |
| `Md5.Round3` | src/modules/libraries/crypto/md5.c:170-186 | round 3 takes the registers through sixteen operations of the RFC |
| `Md5.Round4` | src/modules/libraries/crypto/md5.c:188-204 | round 4 takes the registers through sixteen operations of the RFC |
| `Md5.Context.CompressBlock` | src/modules/libraries/crypto/md5.c:128-212 | one pass of the loop is the compression of section 3.4 of RFC 1321 |
| `Md5.Context.Body` | src/modules/libraries/crypto/md5.c:115-220 | whole blocks are folded in order |
| `Md5.Context.constructor` | src/modules/libraries/crypto/md5.c:222-231 | the empty message |
| `Md5.CarryIsExact` | src/modules/libraries/crypto/md5.c:238-241 | the overflow test detects exactly the carry out of the 29-bit counter |
| `Md5.CountersAdvance` | src/modules/libraries/crypto/md5.c:238-241 | hi * 2^29 + lo stays the byte count modulo 2^61 |
| `Md5.LengthFromCounters` | src/modules/libraries/crypto/md5.c:292-294 | the two words written by MD5_Final are the length field of section 3.2 of RFC 1321 |
| `Md5.Context.Update` | src/modules/libraries/crypto/md5.c:233-265 | the message so far grows by the chunk: full blocks folded into the registers, the rest in the buffer |
| `Md5.Context.Final` | src/modules/libraries/crypto/md5.c:273-304 | padding, length and output of the RFC for the message so far; the context is wiped |
| `Md5.DigestChunks` | src/modules/libraries/crypto/md5.c:103-108 | however a message is cut into chunks, Init, Updates and Final give the digest of the concatenation |
| `Md5.Md5Digest` | src/modules/libraries/crypto/md5.c:103-108 | the result is the RFC 1321 digest of the message |
| `Md5Answer.DigestOfAbc` | src/modules/libraries/crypto/md5.c:103-108 | the digest of "abc" is the one of appendix A.5 of RFC 1321, 900150983cd24fb0d6963f7d28e17f72 |
| `Semaphore.StepHeld` | src/modules/libraries/concurrency/mutex.c:6-32 | every step of every thread keeps "the flag is set exactly when one thread is inside, and what that thread loaded is the count" |
| `Semaphore.MutualExclusion` | src/modules/libraries/concurrency/mutex.c:4-32 | in every interleaving at most one thread is inside the mutex, and the flag tells whether one is |
| `Semaphore.RunRefines` | src/modules/libraries/concurrency/mutex.c:18-32 | every interleaving takes effect as a legal run of an atomic counting semaphore, in the order of the stores |
| `Semaphore.Linearizable` | src/modules/libraries/concurrency/mutex.c:18-32 | from semaphore_init the stores form a legal run of the atomic semaphore; at most one call has stored and not returned, and none when the mutex is free |
| `Semaphore.FreeMeansBalanced` | src/modules/libraries/concurrency/mutex.c:18-32 | whenever the mutex is free, count = initial + completed signals - completed waits |
| `Semaphore.NeverNegative` | src/modules/libraries/concurrency/mutex.c:18-26 | from a non-negative start the count is never negative, also while a thread is inside |
| `Semaphore.EveryCallCounts` | src/modules/libraries/concurrency/mutex.c:18-32 | in every run the calls of semaphore_wait are the completed waits and the threads inside semaphore_wait, and the same for semaphore_signal |
| `Semaphore.QuietMeansBalanced` | src/modules/libraries/concurrency/mutex.c:18-32 | with no call under way, count = initial + calls of semaphore_signal - calls of semaphore_wait |
| `Semaphore.ThreadObeysCall` | src/modules/libraries/concurrency/mutex.c:18-32 | a thread is idle or in the code of the operation it called last |
| `Semaphore.WaitsAreCovered` | src/modules/libraries/concurrency/mutex.c:18-32 | in every state completed waits do not exceed the initial count plus completed signals |
| `Semaphore.HolderLeaves` | src/modules/libraries/concurrency/mutex.c:12-32 | the thread inside frees the mutex within four of its own steps |
| `Semaphore.WaitCompletes` | src/modules/libraries/concurrency/mutex.c:18-26 | with the mutex free and a positive count a waiting thread completes its wait in five of its own steps |
| `Semaphore.WaitCallCompletes` | src/modules/libraries/concurrency/mutex.c:18-26 | with the mutex free a call of semaphore_wait on a positive count returns after five own steps, with the count one lower and nothing else changed |
| `Semaphore.SignalCallCompletes` | src/modules/libraries/concurrency/mutex.c:28-32 | with the mutex free a call of semaphore_signal returns after four own steps, with the count one higher and nothing else changed |
| `Semaphore.WaitSpins` | src/modules/libraries/concurrency/mutex.c:18-26 | a thread in semaphore_wait that runs alone while the count is not positive never returns and never changes the count |
| `Numerals.DigitsValue` | src/modules/libraries/std/stdio.c:301-306 | the digits of a value have that positional value |
| `Numerals.DigitCharacters` | src/modules/libraries/std/stdio.c:303-304 | the digits are 0 to 9 and the letters in order; what is printed has the case asked for |
| `Numerals.DigitCount` | src/modules/libraries/std/stdio.c:301-306 | n digits suffice exactly for the values below base^n |
| `Numerals.WordFits` | src/modules/libraries/std/stdio.c:51-53 | 32 characters hold every 64-bit value in base 4 or more |
| `Strtoull.CutoffIsExact` | src/modules/libraries/std/strings.c:183-201 | the cutoff and cutlim test says exactly whether one more digit exceeds 2^64 - 1 |
| `Strtoull.ScanDigits` | src/modules/libraries/std/strings.c:185-202 | the scan stops behind the longest run of digits with its exact value, or saturated exactly when that exceeds 2^64 - 1 |
| `Strtoull.Strtoull` | src/modules/libraries/std/strings.c:156-209 | spaces, sign, prefix and base selection, then the positional value when it is below 2^64 (negated modulo 2^64 after a minus) and ULLONG_MAX otherwise, with the end offset |
| `Strtoull.ReadFromParts` | src/modules/libraries/std/strings.c:156-209 | for spaces and tabs, a sign, a prefix where the base allows it, digits and a rest: the positional value in the base that base, prefix or leading 0 select, ULLONG_MAX above 64 bits, negated modulo 2^64 behind a minus, and the end of the digits |
| `Strtoull.WhiteSpace` | src/modules/libraries/std/ctype.c:27-29 | the characters skipped are space and tab; the white space of C11 has code 9 to 13 besides |
| `Strtoull.NothingToRead` | src/modules/libraries/std/strings.c:156-209 | without a digit behind spaces and sign the result is 0 and nothing is consumed |
| `Strtoull.PlainDigits` | src/modules/libraries/std/strings.c:156-209 | a string of digits gives its exact or saturated value and ends at the terminator |
| `Strtoull.RoundTrip` | src/modules/libraries/std/strings.c:156-209 | every 64-bit value is read back from its digits in every base |
| `Strtoull.NegativeRoundTrip` | src/modules/libraries/std/strings.c:170-172 | digits behind a minus sign give the value negated modulo 2^64 |
| `Strtoull.StandardExactly` | src/modules/libraries/std/strings.c:156-209 | value and endptr are those of section 7.22.1.4 of ISO C11 exactly when no 0x lacks a hexadecimal digit and no number stands behind a newline, vertical tab, form feed or carriage return |
| `Strtoull.NewlineStops` | src/modules/libraries/std/strings.c:167-169 | on a newline and 7 nothing is read; the standard reads 7 |
| `Strtoull.PrefixAlone` | src/modules/libraries/std/strings.c:175-180 | on "0x" nothing is consumed; the standard consumes the 0 |
| `FormatText.Padded` | src/modules/libraries/std/stdio.c:208-232 | padding never shortens and reaches exactly the width |
| `PrintParse.DigitTextValue` | src/modules/libraries/std/stdio.c:290-310 | the digits kept by the 32-character buffer have the value of the number modulo base^32 |
| `FormatLimits.BodyLength` | src/modules/libraries/std/stdio.c:236-250 | how many characters digits and zero fill take, from the number of digits, the precision and the width |
| `FormatLimits.SignShownExactly` | src/modules/libraries/std/stdio.c:273-283 | the minus of a negative number, or the plus asked for, is shown exactly when digits, zero fill and prefix take fewer than 32 characters |
| `FormatLimits.SpaceShownExactly` | src/modules/libraries/std/stdio.c:273-283 | the space asked for is in front exactly when digits, zero fill and prefix take fewer than 32 characters or the field padded with spaces is wider than 32 |
| `FormatLimits.SignDropped` | src/modules/libraries/std/stdio.c:273-283 | "%.40d" of -1 prints no sign |
| `FormatLimits.PlusDropped` | src/modules/libraries/std/stdio.c:273-283 | "%+.32d" of 1 prints no plus |
| `FormatLimits.PrecisionExactly` | src/modules/libraries/std/stdio.c:238-249 | at least as many digits as the precision are printed exactly when the value has them, or without the - flag and up to 32 |
| `FormatLimits.PrecisionIgnored` | src/modules/libraries/std/stdio.c:238-249 | "%-.5d" of 3 prints 3 |
| `FormatLimits.WidthExactly` | src/modules/libraries/std/stdio.c:238-249 | the field width is reached exactly when it is filled with spaces or is at most 32 |
| `FormatLimits.WidthCut` | src/modules/libraries/std/stdio.c:246-248 | "%040u" of 1 prints 32 characters |
| `FormatLimits.NegativePrecisionRead` | src/modules/libraries/std/stdio.c:639-652 | a negative * precision is recorded as precision 0 with its flag; section 7.21.6.1 of ISO C11 takes it as omitted |
| `FormatLimits.NegativePrecisionExactly` | src/modules/libraries/std/stdio.c:639-652 | for an integer this prints what no precision prints exactly when the value is not 0 and no zeros would fill the field |
| `FormatLimits.NegativePrecisionOfString` | src/modules/libraries/std/stdio.c:639-652 | for a string exactly when it is no longer than the field and consists of spaces |
| `FormatLimits.NegativePrecisionOfZero` | src/modules/libraries/std/stdio.c:639-652 | "%.*d" of -1 and 0 prints nothing |
| `FormatLimits.NegativePrecisionOfText` | src/modules/libraries/std/stdio.c:639-652 | "%.*s" of -1 and abc prints nothing |
| `FormatText.ReadFlags` | src/modules/libraries/std/stdio.c:610-621 | the flags end at the first character that is none |
| `FormatText.ReadDirective` | src/modules/libraries/std/stdio.c:610-689 | a directive ends at a character inside the format, and a precision is recorded only with its flag |
| `FormatStandard.DirectiveRead` | src/modules/libraries/std/stdio.c:610-689 | every directive spelled with flags, width, precision and length modifier is read as exactly the flags, numbers and type it spells |
| `FormatStandard.StarWidthRead` | src/modules/libraries/std/stdio.c:628-638 | a * width comes from the arguments; a negative one is a - flag and its magnitude |
| `FormatStandard.NumberMeetsStandard` | src/modules/libraries/std/stdio.c:208-286 | below 32 characters, and with no precision beyond the digits under -, sign, precision and field are those of section 7.21.6.1 of ISO C11 |
| `FormatStandard.PrintedInteger` | src/modules/libraries/std/stdio.c:691-765 | every integer directive without # prints what the standard says of its argument reduced to the type of the length modifier: base, case, sign, precision, field and fill |
| `FormatStandard.PrintedAlternate` | src/modules/libraries/std/stdio.c:252-271 | # alone puts 0x, 0X, 0b or 0 in front of a number that is not 0 |
| `FormatStandard.PrintedString` | src/modules/libraries/std/stdio.c:805-829 | a string is cut to the precision and stands left or right in its field |
| `FormatStandard.PrintedChar` | src/modules/libraries/std/stdio.c:785-803 | a character stands left or right in its field |
| `FormatStandard.PrintedOther` | src/modules/libraries/std/stdio.c:854-857 | a percent sign and a character that is neither flag, digit, point, star, length nor a conversion with an argument prints the character itself |
| `FormatStandard.PrintedPercent` | src/modules/libraries/std/stdio.c:849-852 | %% prints a percent sign and takes no argument |
| `FormatStandard.PrintedLiteral` | src/modules/libraries/std/stdio.c:597-603 | text without a percent sign is printed as it is |
| `FormatStandard.PrintedInOrder` | src/modules/libraries/std/stdio.c:596-860 | behind a directive the output goes on, with the next argument for every conversion that takes one |
| `Vsnprintf.OutBuffer` | src/modules/libraries/std/stdio.c:134-139 | the character is stored exactly when the index is below the limit |
| `Vsnprintf.Sink.Put` | src/modules/libraries/std/stdio.c:134-146 | index |written| and no other: every index is used once and in order; the buffer holds the written text cut at the limit |
| `Vsnprintf.Sink.Fill` | src/modules/libraries/std/stdio.c:214-216 | a padding loop |
| `Vsnprintf.WriteDigits` | src/modules/libraries/std/stdio.c:301-307 | the do-while loop leaves the low 32 digits in reverse |
| `Vsnprintf.PushZeros` | src/modules/libraries/std/stdio.c:243-248 | zero filling up to the width and the buffer size |
| `Vsnprintf.OutRev` | src/modules/libraries/std/stdio.c:208-232 | the buffer is emitted back to front, padded left or right |
| `Vsnprintf.NtoaFormat` | src/modules/libraries/std/stdio.c:236-286 | zeros, # prefix, sign and padding, with all their buffer limits |
| `Vsnprintf.NtoaLong` | src/modules/libraries/std/stdio.c:290-335 | the text of one integer conversion |
| `Vsnprintf.Atoi` | src/modules/libraries/std/stdio.c:197-204 | the decimal value of the digit run modulo 2^32 |
| `Vsnprintf.PutChar` | src/modules/libraries/std/stdio.c:785-803 | %c: one character, padded |
| `Vsnprintf.PutString` | src/modules/libraries/std/stdio.c:805-829 | %s: the string cut to the precision, padded |
| `Vsnprintf.PutInteger` | src/modules/libraries/std/stdio.c:693-765 | d i u x X o b: argument width, sign, base and flags |
| `Vsnprintf.PutDirective` | src/modules/libraries/std/stdio.c:691-859 | every conversion appends exactly its text |
| `Vsnprintf.ScanDirective` | src/modules/libraries/std/stdio.c:610-689 | the scanning loops read the directive as specified |
| `Vsnprintf.Format` | src/modules/libraries/std/stdio.c:596-860 | everything put is the unbounded text of the format |
| `Vsnprintf.VsnprintfBuffer` | src/modules/libraries/std/stdio.c:586-866 | for every well-formed format the count is the length of the unbounded text, independent of n; for n >= 1 the buffer holds its first min(count, n-1) characters and NUL, the rest untouched; for n = 0 nothing is written |
| `PrintParse.PrintThenParse` | src/modules/libraries/std/stdio.c:290-310 | strtoull undoes the flag-free output of _ntoa_long in base 8, 10 and 16 (and every base from 4) for every 64-bit value, up to the terminator |
| `PrintParse.RoundTripExactly` | src/modules/libraries/std/stdio.c:306-306 | in any base what is read back is the value modulo base^32, so the value itself exactly when it is below base^32 |
| `PrintParse.BinaryCut` | src/modules/libraries/std/stdio.c:306-306 | 2^32 in base 2 prints zeros only |
| `PrintParse.SignedPrintThenParse` | src/modules/libraries/std/stdio.c:731-747 | a signed 64-bit value is read back modulo 2^64 |
| `PrintParse.PointerPrintThenParse` | src/modules/libraries/std/stdio.c:831-847 | %p prints sixteen characters that read back in base 16 |
| `PrintParse.FormatRoundTrip` | src/modules/libraries/std/stdio.c:586-866 | u, x, o, d and i with every length modifier: strtoull reads back the argument reduced to 8, 16, 32 or 64 bits as the modifier says, negative values modulo 2^64 |
| `Bitfield.Mask` | src/modules/libraries/allocators/bitfield_allocator.c:39-49 | the byte 1 << k |
| `Bitfield.Sub64` | src/modules/libraries/allocators/bitfield_allocator.c:127-127 | adding the subtrahend back gives the minuend, or the minuend plus 2^64 exactly where it was smaller |
| `Bitfield.TakenAfterSet` | src/modules/libraries/allocators/bitfield_allocator.c:39-43 | or-ing 1 << (i % 8) into byte i / 8 takes page i and no other |
| `Bitfield.TakenAfterClear` | src/modules/libraries/allocators/bitfield_allocator.c:45-49 | and-ing the complement frees page i and no other |
| `Bitfield.PagesAreLeast` | src/modules/libraries/allocators/bitfield_allocator.c:9-9 | BYTES_TO_PAGES is the least number of pages that hold the bytes |
| `Bitfield.SamePages` | src/modules/libraries/allocators/bitfield_allocator.c:62-68 | deallocate computes the page count allocate used exactly for non-empty requests |
| `Bitfield.Allocator.FitsAt` | src/modules/libraries/allocators/bitfield_allocator.c:13-21 | for every run: stops at the first taken page, so fits exactly when all pages of the run are free inside the bitmap, and reads behind the bitmap exactly when the run crosses its end with no taken page before |
| `Bitfield.Allocator.GetFreeIndex` | src/modules/libraries/allocators/bitfield_allocator.c:23-37 | the first index at or after next_index, then from 0, whose run has no taken page as far as the bitmap reaches decides: found when the run ends inside the bitmap, read behind it otherwise; with page 0 taken the result 0 means that there is no such index |
| `Bitfield.Allocator.LockIndex` | src/modules/libraries/allocators/bitfield_allocator.c:39-43 | exactly the pages of the range become taken |
| `Bitfield.Allocator.UnlockIndex` | src/modules/libraries/allocators/bitfield_allocator.c:45-49 | exactly the pages of the range become free |
| `Bitfield.Allocator.constructor` | src/modules/libraries/allocators/bitfield_allocator.c:111-143 | on every region: the bitmap is exactly the reserved pages, the first page lies within a page behind the metadata, aligned for a power-of-two page size |
| `Bitfield.Init` | src/modules/libraries/allocators/bitfield_allocator.c:111-143 | NULL exactly for a region smaller than the header or a page, or page size 0 |
| `Bitfield.Allocator.Allocate` | src/modules/libraries/allocators/bitfield_allocator.c:51-87 | for every request: refused exactly when it exceeds available_size or no index searched is open; otherwise the first open index in cyclic order is handed out exactly when its run ends inside the bitmap, and read behind the bitmap otherwise; never page 0; the bitmap stays exactly the reserved pages and the live ranges; the range lies inside the region exactly when it ends within its usable pages |
| `Bitfield.Allocator.AllocateThenDeallocate` | src/modules/libraries/allocators/bitfield_allocator.c:51-109 | a range handed out is taken back exactly when its start lies below available_size, in particular whenever the range lies inside the region; then the live ranges are as before |
| `Bitfield.Allocator.AcceptedExactly` | src/modules/libraries/allocators/bitfield_allocator.c:91-96 | deallocate accepts the address of an index exactly below available_size, which holds for every range inside the region |
| `Bitfield.NotTakenBack` | src/modules/libraries/allocators/bitfield_allocator.c:91-96 | eight pages of 16 bytes behind a 72-byte header: after 48 bytes, the 16 bytes handed out next are not taken back |
| `Bitfield.WholeRegionReadsBehind` | src/modules/libraries/allocators/bitfield_allocator.c:51-87 | on the fresh region of 64 pages a request of available_size bytes reads behind the bitmap |
| `Bitfield.LargeRequestServed` | src/modules/libraries/allocators/bitfield_allocator.c:51-87 | on the same region a request of 58 pages gets the pages from 1 on |
| `Bitfield.Allocator.InsideExactly` | src/modules/libraries/allocators/bitfield_allocator.c:84-84 | a range lies inside the region exactly when index + pages is at most the number of whole pages between available_address and the end of the region |
| `Bitfield.RunsPastRegion` | src/modules/libraries/allocators/bitfield_allocator.c:51-143 | 64 pages of 4096 bytes with a 72-byte header: after six single pages, 57 pages end one page behind the region |
| `Bitfield.MissesFreePages` | src/modules/libraries/allocators/bitfield_allocator.c:23-37 | with pages 1 to 7 of the same region taken, a single page is refused although pages 8 to 63 are free |
| `Bitfield.Allocator.Deallocate` | src/modules/libraries/allocators/bitfield_allocator.c:89-109 | panics exactly for an address outside the available_size bytes from available_address on; otherwise the range leaves the live ranges and its pages are free, the others unchanged; size 0 frees nothing |
| `Bitfield.Allocator.AddressOfIndex` | src/modules/libraries/allocators/bitfield_allocator.c:98-98 | the address of an index leads back to the index |
| `Bitfield.Allocator.LiveRangesApart` | src/modules/libraries/allocators/bitfield_allocator.c:51-109 | ranges live at the same time never overlap and never contain page 0 |
| `Bitfield.TakeRange` | src/modules/libraries/allocators/bitfield_allocator.c:39-43 | taking a free range keeps ranges apart and the bitmap exact |
| `Bitfield.GiveRange` | src/modules/libraries/allocators/bitfield_allocator.c:45-49 | giving a range back keeps the others apart and the bitmap exact |
| `VmAreas.Process.IsInVmArea` | src/modules/managers/cpu/vmarea.c:9-18 | the first area that contains the address |
| `VmAreas.Process.CreateVmArea` | src/modules/managers/cpu/vmarea.c:28-41 | the area goes in front; without a collision the areas stay disjoint |
| `VmAreas.InsertDisjoint` | src/modules/managers/cpu/vmarea.c:28-41 | inserting a range that collides with nothing keeps the areas pairwise disjoint |
| `VmAreas.Process.RemoveVmArea` | src/modules/managers/cpu/vmarea.c:43-60 | the first area with that start goes, the rest stays, disjointness is kept |
| `VmAreas.RemoveDisjoint` | src/modules/managers/cpu/vmarea.c:43-60 | after removal the area's addresses are found no more |
| `VmAreas.Process.Collides` | src/modules/managers/cpu/vmarea.c:109-118 | the first colliding area, none exactly when the range is free |
| `VmAreas.OneFewerAbove` | src/modules/managers/cpu/vmarea.c:136-141 | moving past a colliding area lowers the number of areas ending above the candidate |
| `VmAreas.SkipIsSafe` | src/modules/managers/cpu/vmarea.c:136-141 | moving past a colliding area skips no free page-aligned start |
| `VmAreas.Process.FindShmVmArea` | src/modules/managers/cpu/vmarea.c:121-156 | terminates; a result is free and is the hint, the least free page-aligned start above it, or after the wrap the least one of the region; NULL exactly when none of these exists |
| `VmAreas.FoundInRegionExactly` | src/modules/managers/cpu/vmarea.c:121-156 | a range found lies inside the region exactly when the hint is free and its range does, or it collides, nothing aligned is free below the region, and there is room from the hint on or, with nothing free from the hint on, from the region start on |
| `VmAreas.FreeHintOutside` | src/modules/managers/cpu/vmarea.c:121-133 | a free hint outside the region is the result |
| `VmAreas.EndOfFullRegion` | src/modules/managers/cpu/vmarea.c:141-150 | with the region full its end is the result |
| `VmAreas.Process.MapShared` | src/modules/managers/cpu/vmarea.c:121-156 | searching and inserting keeps the areas disjoint |
| `VmAreas.DisjointExactly` | src/modules/managers/cpu/vmarea.c:109-118 | for areas that are not empty, pairwise disjoint means that no address lies in two of them |
| `VmAreas.SameAnswerExactly` | src/modules/managers/cpu/vmarea.c:62-77 | the reversed copy finds the copy of the area that the original finds exactly for the addresses that lie in at most one area |
| `VmAreas.SameLookupExactly` | src/modules/managers/cpu/vmarea.c:62-77 | for different areas the answers are equal as values exactly for those addresses |
| `VmAreas.OverlapChangesLookup` | src/modules/managers/cpu/vmarea.c:62-77 | two areas at the same address: the copy answers with the other one |
| `VmAreas.DuplicateVmAreas` | src/modules/managers/cpu/vmarea.c:62-77 | the child gets the reversed list; on request bit 0 of the extended flags is set in every area of both lists, and every other bit and field is as before; parent and child answer alike exactly for the addresses that lay in at most one area, so for all when the areas were disjoint |
| `Alarms.OneFewerAtLeast` | src/modules/managers/dev/pit.c:64-76 | a restart lowers the number of alarms with an id of at least the candidate |
| `Alarms.LeastUnusedBound` | src/modules/managers/dev/pit.c:64-76 | with n alarms the id is at most n |
| `Alarms.Pit.FindFreeAlarmId` | src/modules/managers/dev/pit.c:64-76 | the restarting loop terminates with the least id not in use |
| `Alarms.Pit.AddAlarm` | src/modules/managers/dev/pit.c:78-102 | -1 exactly for the panics and a failed allocation; otherwise the new alarm is in front with the least unused id and ids stay unique |
| `Alarms.Pit.GetRemainingTicks` | src/modules/managers/dev/pit.c:104-114 | the ticks of the one alarm with that id, -1 when there is none |
| `Alarms.Pit.RemoveAlarm` | src/modules/managers/dev/pit.c:116-132 | exactly that alarm goes, its id is free again, ids stay unique |
| `Alarms.RemoveUndoesAdd` | src/modules/managers/dev/pit.c:78-132 | removing the alarm just added restores the list |

## Left out

- Hardware and I/O drivers, boot, paging, context switching, VFS, ELF loading, file descriptors, tty: register access or code outside the repository's own logic.
- 64-bit address and size wrap-around in general: naturals are unbounded except where the source's result depends on the width (MD5 words and counters, strtoull, `_atoi`, integer arguments).
- SizeToLevel, Alloc: requests over 2^30 bytes, where the source shifts an `int` by 31 or more, and the count of leading zeros of 0 for one-byte pages, are not modelled.
- Deallocate: whether the read for index 0 faults is a parameter; pointers into the region that start no live block are excluded, as the source demands.
- LevelFreePastEnd: the memory behind the region, whose links are followed when the end of the region is unlinked from a list, is not modelled; the unlinking is taken to leave the lists alone.
- FirstAllowed, SuspendCheck: signal masks are sets of signals; the source tests `sigprocmask & (1 << i)` with an `int` shift for i up to 64, which from signal 31 on names other bits.
- Create: where in memory the temporary allocator lies, and that its metadata is overwritten by nothing, is not modelled; pages larger than the region, for which the number of levels underflows, are excluded.
- Buddy.constructor: raw memory of the intrusive lists is not modelled; a list is a sequence of offsets.
- Fork, Delete, Table.constructor: only slot, pid, count and scheduling fields; page tables, files, signals, stacks and threads' contexts are left out, and so are `exec`, `waitpid` and `create_user_process` outside its slot and pid part.
- BoundedWaiting, SchedIsFair: no fork or exec between the calls, as the property requires; `sched_thread` succeeding for the process is a hypothesis.
- CreateArgsEnvAux: the stack memory behind the scratch buffer is an array as long as the image, so what stores behind the buffer do to the function's own variables and return address is not modelled; auxiliary types are not AT_NULL, which ends the source's scan.
- Update: chunks of 2^64 bytes or more do not exist in the source's types and are excluded.
- StepHeld, Linearizable, WaitCompletes: `count` is an unbounded integer, so overflow of the C `int` is not modelled; progress is stated for a thread that runs alone, since the spin lock gives no fairness. `condition_*`, `barrier_*` and `spinlock_*` are left out.
- VsnprintfBuffer: the conversion of the count to `int` is not modelled; formats that end inside a directive, floating-point conversions, arguments of the wrong kind and strings of 2^32 or more characters are excluded; of the output functions only the buffer and the null one are modelled.
- Strtoull: bases other than 0 and 2..36, which ISO C11 excludes, are excluded.
- Allocate, GetFreeIndex, FitsAt: what bits behind the bitmap hold, and so what follows a read behind it, is not modelled; that the read happens is an outcome.
- Init, Allocator.constructor: bytes that init writes behind the bitmap, when there are more locked pages than bitmap bytes, belong to the pages and are not part of the state.
- PrecisionExactly, WidthExactly, NegativePrecisionExactly, PrintedInteger: stated without the # flag, whose prefix takes filled zeros back; PrintedAlternate states # without width and precision only.
- FindShmVmArea: 64-bit wrap-around of addresses is not modelled.
- MapShared: only search and insertion of the mmap system call are modelled.
- AddAlarm: the callback is only present or missing; `tick`, which counts alarms down, is left out.
- `circular_list.c`, `fifo.c`, signal queues, device tables, `progs/`: they would only add easy members.
