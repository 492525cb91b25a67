# A Dafny model of the boot loader and kernel

The system is a small i386 boot loader (`stage2`) and kernel (`kernel`). This project models its stateful parts
and proves what they promise:

* **Preemptive tasks** (`TaskSwitch`, `TaskRuns`, `TaskTheorems`, `Kernel`, `TaskStacks`). The processor is a
  register file over a word-addressed memory. PUSHAL and POPAL have the layout of PUSHAD and POPAD in the Intel SDM,
  volume 2. A run is any sequence of instructions of the running task, halves of an increment or decrement of
  `critical`, task creations and timer ticks. The theorems are about whole runs: exact resumption, first entry of a new
  task, no lost update of `critical`, disjoint suspended frames, round robin and a bounded wait while tasks are
  being created.
* **Allocator** (`HeapTable`, `Allocator`). The table of 1023 slots and the 16-bit bump pointer that wraps, with the
  unwrapped total beside it as a ghost. The class is shown to be a map from pointers to bytes as long as the window
  condition holds; counterexamples show that the condition is needed.
* **FAT16 reader** (`FatChain`, `FatVolume`, `FatNames`, `FatDir`, `FatNameRoundTrip`, `FatEntryRoundTrip`, `StrSplit`, `FatOpen`,
  `SplitHeap`, `Text`). Cluster chains for every table, cluster loading through the ATA driver, directory and long-name
  parsing, the splitting of paths, `open` and `get_file_size`. Formats follow the Microsoft FAT specification (fatgen103, version 1.03), sections
  "FAT Data Structure", "FAT Directory Structure" and "FAT Long Directory Entries".
* **ATA PIO read** (`Ata`, `Disk`). The driver against a nondeterministic drive that follows the PIO data-in command
  protocol, section 9.5 of ATA/ATAPI-6.
* **Line queue** (`Stdin`), **bounded printer** (`Snprintf`) and **timer arithmetic** (`Pit`).

Code that updates memory or fields is modelled by classes and methods with loops; each such method is proved equal to
a function, and the theorems are about these functions. `dafny verify dfyconfig.toml` checks everything, on
its default settings.

## How to read it

* Addresses of the task model count words of four bytes; those of the allocator and the FAT reader count bytes.
* `critical++` is a load and a store with ticks allowed between them; `critical--` is a test, a load and a store.
* `TaskRuns.Enabled` is what a run assumes: a task writes neither into `task_list` nor into another task's stack, and
  keeps room for one interrupt on its own stack. Runs leave out one step only, the increment of `critical` at
  2^32 - 1; `TaskRuns.EnterStoreExact` shows that it is exactly the step that breaks the invariant.
* In the allocator's `Fits`, the window condition is: counted without wrapping, a new block ends at most 65536 bytes after
  the oldest live block began, and the request is not 0xFFFF. It is demanded of operations that get a new block, not of a
  `realloc` that stays in place. Over runs the condition is sufficient (`RunDisjoint`). For one allocation from a sound heap
  `CollidesIff` says exactly when the block collides; after an allocation outside the window that happened not to
  collide, the heap is no longer sound and nothing is claimed.
* A use of the heap and a creation are single steps of a joint run. This assumes that no tick hands the processor to
  another task inside `malloc`, `free` or `realloc`. A call inside a critical section meets it, as in `read_line`:
  `CriticalStretch` shows that the processor stays with the task whatever ticks fall in. `k_create_task` does not meet it:
  it calls `malloc` outside any critical section while the timer runs (`kernel/tasks/tasks.c:52`, `kernel/main.c:87-91`).
  `InterruptedOverlaps` shows what a `malloc` in between does.
* A joint run (`TaskStacks`) mixes task steps, ticks, uses of the heap and creations. Its heap begins at 0xF000 and reaches
  0x2F000; the kernel's data, `task_list` included, is linked from 0x100000 (`kernel/linker.ld:5`) and the first stack ends
  at 0x90000 (`stage2/bootloader_stage2.c:40-42`), so both are off the heap.
* `FatVolume.Load` has three outcomes: NULL, a buffer, and `Overrun`, where the byte count does not fit the 16-bit
  parameter of `zalloc` and the load writes past the block. Paths that would load such a chain resolve to `TooBig`;
  the methods report this as `overrun` and stop there.
* `parse_dir` dereferences the chain of a directory entry even when it is NULL (an entry whose first cluster is 0, such as
  `..` to the root). That read is modelled as an arbitrary 16-bit word, `Volume.wordAtZero`, and the two frees that
  follow as doing nothing.
* A drive in the model may answer anything for 400 ns after a command and between sectors, takes any time, fails at any
  sector, and loses track (`Lost`, where it may do anything) when a register is written while it is not idle. A `healthy`
  drive fails only past its capacity and answers within the number of polls the driver makes.

## Where the code and its promise differ

* `NotNearest`, `NearestExactly`: the reload value of the timer is described as rounded. Its increment test compares the
  remainder with half of the dividend instead of half of the divisor and never fires, so the value is the nearest one
  exactly when the exact value's fraction is not between a half and two thirds.
* `LargestRequestIsEmpty`: `malloc(0xFFFF)` succeeds with a block of no bytes. `NeverExhausted`: the test against the end
  of the heap cannot fail.
* `BeyondWindowOverlaps`: outside the window condition two live blocks can share bytes.
* `Pio28Read`: a read past the capacity leaves the drive showing its error bit. The bit stays until the next command, and
  the driver refuses to send one; every later read fails.
* `ReadCluster`: a failing read is not reported. Past the end of a healthy drive only the cluster's sectors before the end are
  stored; beyond 28 bits nothing is.
* `OverrunsIff`, `FatVolume.OverrunReached`: a chain too long for a 16-bit size, but not a multiple of 65536 bytes, is written past
  its block; three clusters of 64 sectors do it.
* `ClusterZeroIsNull`: the chain of a directory entry without clusters is NULL in every table, and `parse_dir` dereferences it.
* `InterruptedOverlaps`: a `malloc` that runs between another one's filling of its slot and its step of the bump pointer
  returns the same address.
* `NullExactly`, `StuckForever`: a line whose length with its terminator is a multiple of 65536 makes `read_line` return NULL for
  good; other lines over 65533 characters overrun their block. `Stdin.StuckReached` and `Stdin.OverrunReached` type such lines.
* `FullIffCycles`: a cyclic chain is not reported as an error; it comes back with as many clusters as the table has
  entries. `CycleComesBack` is a table of three entries.
* `TaskRuns.EnterStoreExact`, `WrapReached`: the counter `critical` wraps, after as many nested calls as it takes.

## Model

| member | source | states |
|---|---|---|
| TaskTheorems.ResumesExactly | kernel/tasks/tasks.c:13-41 | over every run, a task switched out by a tick and next switched in continues with exactly its registers, return address and stack pointer, on an unchanged stack |
| TaskTheorems.FirstEntersStarter | kernel/tasks/tasks.c:44-63 | a created task first runs at `task_starter`, all registers zero, dummy return address on top of the stack and its function as the argument |
| TaskTheorems.TwoTasksAlternate | kernel/tasks/tasks.c:13-41 | two tasks and two ticks outside critical sections: out, and back with the interrupted context intact |
| TaskTheorems.CreatedTaskStarts | kernel/tasks/tasks.c:44-63 | a created task is entered by the next tick outside critical sections, at `task_starter` with its function as the argument |
| TaskTheorems.NoLostUpdate | kernel/tasks/tasks.c:29-33 | with load and store split, `critical` is always the nesting depth of the running task; every suspended task has depth 0 and what it loaded but has not stored is 0 |
| TaskTheorems.CounterExact | kernel/tasks/tasks.c:65-76 | after every run `critical` is the number of increments stored less the number of decrements stored, counted on the actions alone |
| TaskTheorems.CriticalKeepsProcessor | kernel/tasks/tasks.c:65-76 | a tick inside a critical section returns to the same task with the same context |
| TaskTheorems.CriticalStretch | kernel/tasks/tasks.c:29-33 | over any run in which the running task stays inside critical sections, no task is given the processor and the task stays the current one |
| TaskTheorems.NestedEnters | kernel/tasks/tasks.c:65-68 | n calls inside one another, each a load and a store, are a run and leave the counter n higher |
| TaskTheorems.RepeatedExits | kernel/tasks/tasks.c:70-76 | n calls at a counter of at least n, each a test, a load and a store, are a run and leave the counter n lower |
| TaskTheorems.ExitAtZero | kernel/tasks/tasks.c:70-76 | a call at 0 is its test alone and leaves 0 |
| TaskTheorems.WrapReached | kernel/tasks/tasks.c:65-68 | from any state of a run such calls reach the store that wraps the counter to 0 and breaks the invariant |
| TaskTheorems.RunKeepsSuspended | kernel/tasks/tasks.c:13-41 | until its next turn a suspended task's stack and saved context do not change in any run |
| TaskTheorems.SuspendedFramesDisjoint | kernel/tasks/tasks.c:13-63 | after every run the frames of two suspended tasks lie in disjoint stack blocks |
| TaskTheorems.SwitchBack | kernel/tasks/tasks.c:13-41 | the tick that returns to a suspended task loads the context saved for it before the run, on the stack it had |
| TaskTheorems.TickAlwaysPossible | kernel/tasks/tasks.c:29-41 | in every state a run reaches the timer may fire: the switch never runs off the memory or reads a bad frame |
| TaskTheorems.RoundRobin | kernel/tasks/tasks.c:34-40 | between two consecutive turns of a task every other task present at the first turn runs exactly once, even if tasks are created |
| TaskTheorems.TurnsUntil | kernel/tasks/tasks.c:34-40 | before the next turn of a task exactly the tasks between the current one and it in the rotation run, once each |
| TaskTheorems.WaitBound | kernel/tasks/tasks.c:29-41 | a task waits fewer unblocked ticks than there are tasks at the end of the run |
| TaskTheorems.RunningTaskMatches | kernel/tasks/tasks.c:34-41 | after every run `running_task` points at the entry of `current_index` |
| TaskTheorems.RunInv | kernel/tasks/tasks.c:13-76 | every run keeps the invariant: layout, saved frames, room, meaning of `critical` |
| TaskRuns.StepInv | kernel/tasks/tasks.c:13-76 | every single step keeps the invariant, the wrap of the counter excepted |
| TaskRuns.EnterStoreExact | kernel/tasks/tasks.c:65-68 | the store of an increment keeps the invariant exactly when the counter is not at its maximum |
| TaskRuns.TickSwitches | kernel/tasks/tasks.c:13-41 | a switching tick saves the interrupted context in the old task's block, resumes the next task from what was saved for it and touches nothing else |
| TaskRuns.TickReturns | kernel/tasks/tasks.c:29-35 | a tick that does not switch returns to the interrupted instruction with every register as it was |
| TaskRuns.TickSaves | kernel/tasks/tasks.c:14-27 | the words a switching tick leaves, read back through POPAL and the interrupt routine's frame, are the interrupted context |
| TaskRuns.NewFrame | kernel/tasks/tasks.c:51-62 | the hand-built frame, read back the way the switch pops it, is `task_starter` with zero registers and the argument in place |
| TaskRuns.SavedKept | kernel/tasks/tasks.c:14-27 | a saved context depends only on the task's own block and entry |
| TaskRuns.StepKeepsSuspended | kernel/tasks/tasks.c:13-76 | a step that does not switch to a suspended task leaves its stack, entry and saved context unchanged |
| TaskStacks.NewStackApart | kernel/tasks/tasks.c:52-53 | of two blocks of 4128 bytes, the one just allocated within the window holds a stack apart from the other's |
| TaskStacks.StackInBlock | kernel/tasks/tasks.c:53 | the top of a stack is aligned to 16 bytes and less than 16 below the end of the block's first 4096 |
| TaskStacks.JointRun | kernel/tasks/tasks.c:51-63 | with stacks from `malloc` within the window and no stack freed, any mix of task steps, ticks, and heap uses and creations that are not interrupted is a task run in which every creation is possible: the new stack is apart from `task_list`, the first stack and all others |
| TaskStacks.CreationEnabled | kernel/tasks/tasks.c:51-63 | the block at the bump pointer is apart from `task_list` and from every task's stack |
| TaskStacks.StartSafe | kernel/main.c:85-92 | the kernel at its start meets what joint runs assume |
| Kernel.Cpu.ContextSwitch | kernel/tasks/tasks.c:13-27 | the instruction sequence on mutable registers and memory is the switch function |
| Kernel.Cpu.Pushal | kernel/tasks/tasks.c:16 | the registers stand below the old stack pointer in the order EAX, ECX, EDX, EBX, old ESP, EBP, ESI, EDI, and nothing else changes |
| Kernel.Cpu.Popal | kernel/tasks/tasks.c:24 | each register comes from its place in that order; the stored stack pointer is skipped |
| Kernel.Cpu.ScheduleNextTask | kernel/tasks/tasks.c:29-41 | switches exactly outside critical sections and only to another task; the whole new machine state |
| Kernel.Cpu.TimerIsr | kernel/IDT/ISRs/timer/timer.c:10-44 | interrupt entry, handler, scheduler and return together are the tick function |
| Kernel.Cpu.KCreateTask | kernel/tasks/tasks.c:53-63 | the pushes leave the hand-built frame and the new entry and change nothing else; the block is given |
| Kernel.Cpu.EnterCritical | kernel/tasks/tasks.c:65-68 | one more, wrapping at 2^32 |
| Kernel.Cpu.ExitCritical | kernel/tasks/tasks.c:70-76 | one less, never below zero |
| HeapTable.RunDisjoint | kernel/MEMORY_MANAGMENT/memory_managment.c:35-135 | over every run of malloc, free and realloc that gets its new blocks within the window, wrapping included, any two live blocks are disjoint in real addresses; the bump pointer is the even total modulo 65536 |
| HeapTable.LiveDisjoint | kernel/MEMORY_MANAGMENT/memory_managment.c:56-63 | in any sound heap live blocks are disjoint and begin at different offsets |
| HeapTable.WindowSeparates | kernel/MEMORY_MANAGMENT/memory_managment.c:58-62 | blocks within one lap of each other, counted without wrapping, are apart after wrapping |
| HeapTable.CollidesIff | kernel/MEMORY_MANAGMENT/memory_managment.c:56-63 | the next block is disjoint from all live ones exactly when no live block begins inside it |
| HeapTable.AllocSound | kernel/MEMORY_MANAGMENT/memory_managment.c:35-70 | an allocation within the window keeps the heap sound |
| HeapTable.ReleaseSound | kernel/MEMORY_MANAGMENT/memory_managment.c:74-90 | a free of any pointer keeps the heap sound |
| HeapTable.OffsetsNeverMarker | kernel/MEMORY_MANAGMENT/memory_managment.c:57-62 | the bump pointer is even, hence never the 0xFFFF marker, and a filled slot is live |
| HeapTable.SlotFreeIff | kernel/MEMORY_MANAGMENT/memory_managment.c:56-69 | the search finds a slot exactly when not all 1023 are live |
| HeapTable.NeverExhausted | kernel/MEMORY_MANAGMENT/memory_managment.c:50-54 | the test against the end of the heap never fails |
| HeapTable.BeyondWindowOverlaps | kernel/MEMORY_MANAGMENT/memory_managment.c:56-63 | three requests, the third outside the window, after which two live blocks overlap |
| HeapTable.LargestRequestIsEmpty | kernel/MEMORY_MANAGMENT/memory_managment.c:47-48 | a request of 0xFFFF bytes gets an empty block at the address of the next one |
| HeapTable.InterruptedOverlaps | kernel/MEMORY_MANAGMENT/memory_managment.c:56-63 | between the filling of a slot and the step of the bump pointer, another allocation gets a block at the same address, for all sizes |
| Allocator.AllocView | kernel/MEMORY_MANAGMENT/memory_managment.c:35-70 | to a caller, an allocation fails exactly for size 0 or when 1023 blocks are held; otherwise it adds one pointer to a block of the rounded size and changes no other block |
| Allocator.FullIffAllLive | kernel/MEMORY_MANAGMENT/memory_managment.c:56-69 | all slots are taken exactly when the caller holds 1023 blocks |
| Allocator.ReleaseRemoves | kernel/MEMORY_MANAGMENT/memory_managment.c:74-90 | to a caller, a free removes exactly that pointer |
| Allocator.WriteStays | kernel/MEMORY_MANAGMENT/memory_managment.c:121-125 | writing inside one block changes no byte of any other |
| Allocator.ReallocView | kernel/MEMORY_MANAGMENT/memory_managment.c:94-135 | to a caller: in place exactly if the block is large enough; NULL and no change exactly if it is not and 1023 blocks are held; otherwise a new block of the rounded size with the old bytes, and the old one gone; size 0 frees; the window matters only when it moves |
| Allocator.ZallocView | kernel/MEMORY_MANAGMENT/memory_managment.c:139-149 | as an allocation, with the requested bytes zero |
| Allocator.Memory.Malloc | kernel/MEMORY_MANAGMENT/memory_managment.c:35-70 | NULL exactly for size 0 or a full table; otherwise one new block at the bump pointer; the error code |
| Allocator.Memory.Free | kernel/MEMORY_MANAGMENT/memory_managment.c:74-90 | the table after a free, before or after the first `malloc`, and the view without the pointer; the error code |
| Allocator.Memory.Realloc | kernel/MEMORY_MANAGMENT/memory_managment.c:94-135 | that view and the error code; for NULL the view `malloc` gives; result, table and bytes in each of the five cases |
| Allocator.Memory.Zalloc | kernel/MEMORY_MANAGMENT/memory_managment.c:139-149 | as malloc, with the requested bytes zero |
| Allocator.Memory.MemInit | kernel/MEMORY_MANAGMENT/memory_managment.c:23-31 | the table becomes empty |
| FatChain.ShortIffEnds | stage2/FAT16/chain.c:4-50 | fewer clusters than the table has entries iff the walk reaches an end mark through valid clusters, and then the result is that walk, all distinct |
| FatChain.FullIffCycles | stage2/FAT16/chain.c:13-44 | as many clusters as entries iff the walk cycles through valid clusters and the array size fits 16 bits |
| FatChain.CycleComesBack | stage2/FAT16/chain.c:13-44 | in the table 0, 0, 2 the chain from cluster 2 comes back as 2, 2, 2 |
| FatChain.NullIffBroken | stage2/FAT16/chain.c:13-48 | NULL exactly in the remaining cases |
| FatChain.MarksAre | stage2/FAT16/fat16_defs.h:12-14 | the walk may pass the numbers 1 to 0xFFF6 inside the table; 0xFFF8 and above end a chain |
| FatChain.ClusterZeroIsNull | stage2/FAT16/chain.c:13-20 | in every table the chain from cluster 0 is NULL, the case in which `parse_dir` dereferences NULL (stage2/FAT16/parse_dir.c:50-53) |
| FatChain.TooLongCycles | stage2/FAT16/chain.c:13-44 | a walk through as many valid clusters as the table has entries never ends (pigeonhole) |
| FatChain.EndedDistinct | stage2/FAT16/chain.c:13-44 | a walk that ends visits no cluster twice and is shorter than the table |
| FatChain.ChainInUse | stage2/FAT16/chain.c:26-41 | every cluster of a chain that comes back has a table entry that is not free |
| FatChain.TraverseChain | stage2/FAT16/chain.c:4-50 | the loop computes the function of the three results above |
| FatVolume.RoundTwice | stage2/FAT16/fat16_helpers.c:16-33 | rounding to sectors and then to clusters is rounding to clusters at once |
| FatVolume.RoundsUp | stage2/FAT16/fat16_helpers.c:49-52 | the rounded size is the least multiple of the cluster size that is not smaller, modulo the 16-bit count |
| FatVolume.RoundWhole | stage2/FAT16/fat16_helpers.c:49-52 | a whole number of clusters is not changed by rounding |
| FatVolume.LoadsSectorsInOrder | stage2/FAT16/chain.c:52-66 | sector j of the k-th cluster of the walk, if its number c is at least 2, is at its place in the buffer; it is disk sector data start + (c - 2) * sectors per cluster + j |
| FatVolume.ReadCluster | stage2/FAT16/fat16_helpers.c:35-47 | through the driver: all sectors of the cluster on a healthy drive that has them; past its end exactly those before the end, the drive in error and nothing reported; beyond 28 bits nothing; on any other drive at most a shorter run; all else unchanged; clusters below 2 are refused |
| FatVolume.LoadClusterChain | stage2/FAT16/chain.c:52-66 | the buffer becomes the concatenation of the clusters in chain order, then zeros |
| FatVolume.LoadClusteredEntry | stage2/FAT16/load_clusterd_entry.c:5-35 | NULL exactly when the chain is NULL or the size is zero in 16 bits, overrun exactly when it does not fit them, otherwise the chain's contents read by the driver |
| FatVolume.LoadsIff | stage2/FAT16/load_clusterd_entry.c:5-35 | a first cluster loads iff a chain comes back whose bytes are fewer than 2^16, and then as the data of its clusters in order |
| FatVolume.OverrunIff | stage2/FAT16/load_clusterd_entry.c:15-29 | it overruns iff the chain has more bytes than 2^16, not a multiple of it |
| FatVolume.FailedIff | stage2/FAT16/load_clusterd_entry.c:9-27 | it fails iff no chain comes back or its bytes are a multiple of 2^16 |
| FatVolume.OverrunReached | stage2/FAT16/load_clusterd_entry.c:15-29 | a table and geometry in which the load overruns its block |
| Text.Strcmp | stage2/STRING/string.c:33-44 | zero exactly for equal strings, negative exactly when the first comes first in the order of unsigned bytes |
| Text.Utf16ToAscii | stage2/STRING/string.c:100-118 | ASCII units kept, others replaced, terminated |
| FatNames.LfnBuffer.ParseEntry | stage2/FAT16/lfn.c:12-37 | appends the fragment's 13 units in order, or refuses when 20 are stored |
| FatNames.LfnBuffer.ParseBuffer | stage2/FAT16/lfn.c:39-67 | joins the fragments, last stored first, each up to its terminator |
| FatNames.NormalizeSfn | stage2/FAT16/lfn.c:69-104 | stem and extension without padding, a dot between them unless the extension is blank |
| FatNameRoundTrip.LongNameBack | stage2/FAT16/lfn.c:12-67 | the VFAT encoding of any ASCII name of 1 to 255 characters parses back to the name, multiples of 13 included |
| FatNameRoundTrip.DirectoryRoundTrip | stage2/FAT16/parse_dir.c:19-86 | wherever such an encoding stands before a short entry, the parsed directory lists that entry under the name |
| FatNameRoundTrip.UnitsBack | stage2/FAT16/lfn.c:25-30 | the 5, 6 and 2 units of an encoded fragment come back in order |
| FatNameRoundTrip.OrderBack | stage2/FAT16/lfn.c:22-23 | the checksum and the low five bits of the order of an encoded fragment |
| FatEntryRoundTrip.FieldsBack | stage2/FAT16/fat16_defs.h:64-78 | name, attributes, first cluster and size of an encoded short entry come back, for all values |
| FatEntryRoundTrip.FieldsMade | stage2/FAT16/parse_dir.c:43-59 | the parsed entry has these fields, with or without a long name before it |
| FatEntryRoundTrip.DirectoryBit | stage2/FAT16/parse_dir.c:48 | the directory test is bit 0x10 |
| FatEntryRoundTrip.DosNameBack | stage2/FAT16/lfn.c:69-104 | a padded 8.3 name normalises to stem, dot and extension |
| FatEntryRoundTrip.ShortEntryListed | stage2/FAT16/parse_dir.c:19-86 | a directory with an encoded short entry lists its name and fields |
| FatEntryRoundTrip.EncodedFile | stage2/FAT16/get_file_size.c:35-58 | a file in the root, written with a short entry, resolves to its clusters' bytes and to an entry whose size field, which `GetFileSize` returns, is the size written |
| FatDir.ListingIs | stage2/FAT16/parse_dir.c:19-86 | the recursive reading equals the positional one: one result for each short entry before the first end mark, in order, named by the unbroken run of long entries before it |
| FatDir.ShortsAre | stage2/FAT16/parse_dir.c:21-38 | the positions listed are exactly those of the short entries before the end mark, increasing |
| FatDir.KindsAre | stage2/FAT16/parse_dir.c:21-39 | which bytes make an entry an end mark, a long entry or a short one |
| FatDir.ParseDir | stage2/FAT16/parse_dir.c:4-89 | the loop computes that listing; NULL exactly when the entry array outgrows 16 bits |
| FatDir.FindIs | stage2/FAT16/parse_dir.c:105-117 | the lookup returns the first entry of the name |
| FatDir.FindEntry | stage2/FAT16/parse_dir.c:105-117 | the scan computes the lookup |
| StrSplit.SpansAre | stage2/STRING/string.c:135-220 | the pieces are exactly the maximal non-empty delimiter-free stretches, in order |
| StrSplit.Strsplit | stage2/STRING/string.c:120-237 | the pieces as C strings behind a pointer array, nothing else touched; 0 exactly when there are no pieces or one allocation was refused, and then the live blocks are those at entry |
| StrSplit.Splitter.ReleaseAll | stage2/STRING/string.c:222-236 | the failure path frees exactly what the call allocated |
| SplitHeap.ReallocShows | stage2/STRING/string.c:142-160 | within the window the allocator's `realloc` of a block of characters or pointers is the one the splitter is proved on; it refuses exactly when the block must grow and 1023 blocks are held |
| SplitHeap.StoreShows | stage2/STRING/string.c:151-162 | writing the bytes of one character or pointer is the splitter's store |
| SplitHeap.FreeShows | stage2/STRING/string.c:222-234 | a free in the allocator is the splitter's |
| FatOpen.LimitIsLoaded | stage2/FAT16/open.c:60-64 | the entry limit derived from a directory's stored size is the number of whole entries in its loaded clusters |
| FatOpen.DirectorySize | stage2/FAT16/parse_dir.c:48-51 | the size stored for a directory is its chain's length times the cluster size, modulo 2^32 |
| FatOpen.ResolvesIff | stage2/FAT16/open.c:19-42 | a path resolves to a file iff a route through all its components leads there: each the first entry of its name, each but the last a directory whose chain comes back and fits, the last a file with such a chain, whose clusters' data are the bytes |
| FatOpen.OverrunsIff | stage2/FAT16/open.c:19-42 | a path overruns iff a route leads to an entry whose chain is too long for 16 bits; a directory, if components are left |
| FatOpen.Open | stage2/FAT16/open.c:6-54 | on a drive that serves the volume: NULL exactly when the path resolves to nothing, overrun exactly when a load on the way does not fit, otherwise the file's cluster contents in order |
| FatOpen.ReloadOpen | stage2/FAT16/open.c:55-68 | the directory behind an entry, loaded and parsed within its buffer; failure exactly when either fails |
| FatOpen.GetFileSize | stage2/FAT16/get_file_size.c:12-67 | the size field of the very entry `open` resolved to, or UINT32_MAX, although the second walk ignores attributes; overrun exactly when `open` overruns |
| Ata.Pio28Read | stage2/ATA_DRIVER/pio_read28.c:124-161 | success is exactly the sectors asked for; failure leaves a shorter run of whole sectors and the drive still in step; on a healthy drive it fails exactly past the capacity, after the sectors below it, with the error bit set; refused exactly outside 1 to 256 sectors and 28 bits; an error bit is never cleared |
| Ata.ReadRequest | stage2/ATA_DRIVER/pio_read28.c:126-139 | the setters in their order leave registers that decode to the same address and count in LBA mode on device 0 |
| Ata.Request.SetLba | stage2/ATA_DRIVER/pio_read28.c:25-38 | the four registers decode back to the address; refused exactly beyond 28 bits |
| Ata.Request.SetSectorCount | stage2/ATA_DRIVER/pio_read28.c:40-47 | decodes back to 1 to 256, 256 being sent as 0 |
| Ata.Request.SetDrive | stage2/ATA_DRIVER/pio_read28.c:67-76 | selects the device, keeps the address, and forces LBA mode |
| Ata.Request.SetMode | stage2/ATA_DRIVER/pio_read28.c:49-65 | the mode bit, all other bits unchanged |
| Ata.NibbleBack | stage2/ATA_DRIVER/pio_read28.c:34-35 | the low half set to a value reads back as that value and the high half is kept |
| Ata.LowBitsKept | stage2/ATA_DRIVER/pio_read28.c:69-73 | the mandatory bits of the drive selection keep LBA[27:24] |
| Ata.DigitsBack | stage2/ATA_DRIVER/pio_read28.c:30-35 | the bytes of a 28-bit address give it back |
| Ata.FlushCommand | stage2/ATA_DRIVER/pio_read28.c:6-22 | the command is written only after a status without error or fault, and starts on an idle drive with the requested address and count |
| Ata.Receive | stage2/ATA_DRIVER/pio_read28.c:145-160 | the sector loop stores the owed sectors in order, whole ones only, with the same outcome |
| Ata.StoreIncomingBytes | stage2/ATA_DRIVER/pio_read28.c:85-121 | one status decides: error, fault or no data request refuse; otherwise the words become bytes in order at their place and nothing else changes; after 256 words the drive goes on to the next sector or is idle |
| Ata.WaitNotBusy | stage2/ATA_DRIVER/ata_helpers.c:18-33 | the last status read decides, all before it said to go on, a timeout is exactly 100000 of them; returns fine only on an idle drive; never times out on a healthy drive |
| Ata.WaitData | stage2/ATA_DRIVER/ata_helpers.c:35-50 | the same for the data request: fine only when a sector waits; on a healthy drive always within its capacity, and an error exactly past it |
| Disk.SectorAt | stage2/ATA_DRIVER/pio_read28.c:147-159 | sector k of a run of sectors is at its multiple of 512 |
| Snprintf.Snprintf | stage2/STRING/string.c:280-325 | exactly the first min(length, size - 1) characters of the unbounded text, a terminator, and no other byte changed |
| Snprintf.ConvertedBack | stage2/STRING/string.c:294-315 | numbers print as numerals, `%X` in capitals, and parse back: `%d` as signed, the least number included, `%u` and `%x` as the word |
| Snprintf.DigitsDenote | stage2/STRING/string.c:258-277 | the digits are a numeral without leading zeros and denote the number |
| Snprintf.NumeralUnique | stage2/STRING/string.c:258-277 | no other numeral denotes it |
| Snprintf.FormattedAppends | stage2/STRING/string.c:284-321 | a format cut between conversions prints its halves one after the other, arguments shared out in order |
| Snprintf.OneConversion | stage2/STRING/string.c:292-320 | a conversion alone prints its argument; which letters take one; `%s` its string, `%%` a percent sign, unknown letters nothing |
| Snprintf.FormatStops | stage2/STRING/string.c:284-290 | the text ends at the terminator and at a percent sign before it |
| Snprintf.LiteralText | stage2/STRING/string.c:285-288 | text without `%` prints as it is |
| Snprintf.Itoa | stage2/STRING/string.c:258-277 | the digits and a terminator, within eleven bytes |
| Snprintf.Reverse | stage2/STRING/string.c:247-255 | the first `len` characters reversed in place, the rest unchanged |
| Stdin.Conserved | kernel/stdin/stdin.c:18-99 | over every run, delivered then pending characters are the non-NUL typed ones cut at 2^20, and the counter is the number of newlines pending |
| Stdin.CharIsNext | kernel/stdin/stdin.c:34-46 | a delivered character is the first pending one and exactly it is consumed |
| Stdin.InsertIsLast | kernel/stdin/stdin.c:18-32 | an inserted character becomes the last pending one unless it is NUL or 2^20 are stored |
| Stdin.LineIsNext | kernel/stdin/stdin.c:56-99 | a delivered line is the pending text up to its first newline, and exactly that is consumed |
| Stdin.NullExactly | kernel/stdin/stdin.c:76-86 | NULL exactly when memory is refused or the 16-bit size is zero, and then nothing is consumed; overrun exactly for other lines over the largest block |
| Stdin.StuckForever | kernel/stdin/stdin.c:81-86 | a first line whose length with terminator is a multiple of 65536 is never delivered by `read_line` in any later run |
| Stdin.StuckReached | kernel/stdin/stdin.c:76-86 | after 65534 characters and a newline `read_line` returns NULL, and so in every later run without `read_char` |
| Stdin.OverrunReached | kernel/stdin/stdin.c:81-91 | after 65533 characters and a newline the copy runs past its block |
| Stdin.Console.Insert | kernel/stdin/stdin.c:18-32 | appends a non-NUL character while there is room and counts newlines |
| Stdin.Console.ReadChar | kernel/stdin/stdin.c:34-46 | delivers the first pending character and consumes it |
| Stdin.Console.ReadLine | kernel/stdin/stdin.c:56-99 | the scan and the copy compute the fetch function; nothing else changes |
| Pit.ReloadBounds | kernel/PIT/PIT.c:10-30 | 65536 up to 18 Hz, 1 from 1193181 Hz on, between them 1 to 65535 and within -2f and f of the exact value, in thirds |
| Pit.ReloadFalls | kernel/PIT/PIT.c:14-30 | a higher frequency never gets a larger reload value |
| Pit.NearestExactly | kernel/PIT/PIT.c:19-29 | the reload value is nearest to the exact one iff the exact one's fraction is not between a half and two thirds |
| Pit.NotNearest | kernel/PIT/PIT.c:19-29 | at 22 Hz it is not the nearest |
| Pit.NoIncrement | kernel/PIT/PIT.c:25-38 | the rounding increment after the first division never happens for the divisors in use |
| Pit.FrequencyBounds | kernel/PIT/PIT.c:34-41 | the reported frequency is within the same bounds of the exact one |
| Pit.PeriodBounds | kernel/PIT/PIT.c:43-49 | the fixed-point period is above exact - 1 and below exact + 4 in units of 2^-32 ms |
| Pit.Timer.Init | kernel/PIT/PIT.c:10-61 | the two bytes written stand for the reload value, 65536 as 0; frequency and period fields recombine |

## Left out

- Stage 1, the switch to protected mode, the memory map call, linker scripts: not modelled beyond the addresses cited above.
- Screen, keyboard tables, GDT, IDT and PIC programming, exception handlers, hex printers, ATA identification and reset: device access and bit packing without a deep property.
- EFLAGS, segment registers and the interrupt flag: not part of a saved context here.
- Kernel.Cpu.TimerIsr: lays out the words the assembly pushes and the call of `context_switch`; the frames of the C handlers in between are not laid out, nor the CS and EFLAGS words of the interrupt, and registers at the call are arbitrary. A tick, from interrupt entry to return, is one step.
- Kernel.Cpu.KCreateTask: the block is a parameter; `TaskStacks.JointRun` takes it from the allocator.
- TaskStacks.NewStackApart: one allocation; `TaskStacks.JointRun` is the statement over runs and includes `task_list` and the first stack.
- TaskStacks.JointRun: heap uses and creations are single steps; a tick to another task inside one, which `k_create_task` allows, is not covered (`HeapTable.InterruptedOverlaps`).
- `k_create_task` in runs: one step, on a block that `malloc` found; a NULL block is not checked by the code and not modelled. At most six tasks, the size of `task_list`.
- Stack addresses that are not multiples of four: the task model counts words.
- TaskRuns.Enabled: what a task step may not do (write other stacks or `task_list`, leave no room for an interrupt) is assumed, because nothing in the code enforces it.
- Allocator.Memory.Realloc: requires, unless the pointer is NULL or the size 0, an initialised table (before the first `malloc` no pointer is valid) and, when a block is to be moved, a pointer inside the heap's first 65536 bytes, not one that only has the same 16-bit offset.
- `mem_get_error` and the error codes of `stage2/FAT16`, `str_set_error` in the FAT reader and the splitter: left out; those of `malloc`, `free`, `realloc` and the ATA driver are kept.
- FatChain.TraverseChain: allocations of a non-zero size succeed; the cut of the array size to 16 bits is kept.
- FatDir.ParseDir: allocations of a non-zero size succeed; the cut of the array size is kept; parsed names are values.
- FatNames.LfnBuffer.ParseBuffer: allocations succeed.
- FatNames.NormalizeSfn: allocations succeed.
- FatVolume.LoadClusterChain: proved for a drive that is healthy and has the chain's clusters (`Attached`); what one failing read does is in `ReadCluster`. Sectors are 512 bytes, as the driver's, and a cluster has 1 to 255 of them (`Mounted`).
- FatVolume.LoadClusteredEntry: the same drive; a load that overruns its block ends the model's run, the code goes on.
- FatOpen.Open: the same drive; splits the path by the function that `StrSplit.Strsplit` is proved against, with allocations that succeed and components that fit 16-bit sizes. The code reads directory entries from storage it has already freed; they are values here.
- FatOpen.GetFileSize: the same assumptions as `Open`.
- FatOpen.ReloadOpen: the same drive as `Open`.
- Leaks of `open` and `get_file_size`: they do not release everything on every path; nothing is claimed.
- StrSplit.Strsplit: requires piece lengths and piece counts whose sizes fit 16 bits (`SplitFits`); the allocator is any one that may refuse. `SplitHeap` relates each step to the allocator of `Allocator` within its window; a statement over a whole split is not composed from the steps.
- Ata.Pio28Read: `dest` and `drv` are not NULL; the guarantees hold from a drive with no sector left waiting by an earlier failed command.
- Ata.StoreIncomingBytes: a status of 0xFF has the error bit set, so the last test of the source is never decisive and is not repeated; more than 256 words, which no caller asks for, only keep the bytes outside the buffer.
- Snprintf.Snprintf: requires a size of at least 1, since `size - 1` wraps at 0; negating the least integer is taken to wrap.
- Stdin.Console.ReadLine: queue operations are atomic steps. The newline counter is not protected inside `stdin_insert`; finer interleavings are not covered. Whether `malloc` grants memory is a parameter. `peek_char` and `stdin_loop` are not modelled.
- Stdin.Conserved: runs end where a line would overrun its block.
- Pit.Timer.Init: the control word and the interrupt flag instructions are not modelled.
