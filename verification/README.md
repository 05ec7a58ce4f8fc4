# MOSnix kernel model

A Dafny model of the parts of the MOSnix kernel where the most can go wrong, and proofs about
them. Each part has two layers. A specification on values says what a call does, and the
lemmas about it speak of every input, every run or every reachable state. A class or an
in-place method works as the C or 6502 code does, on links, buffers, arrays and bytes, and is
proved to do what the specification says.

- **Shared definitions** (`Options`, `Errno`, `Fat`, `Bits`, `Queues`, `CString`).
- **User memory** (`HeapSpec`, `HeapLaws`, `UserHeap`, `Proc`). Headers and blocks tile the
  region without gaps or overlaps after every sequence of allocations and frees, the free list is
  ascending and fully joined, and it is a function of the live blocks alone. Creating a process
  leaks nothing on any failing path, and freeing it restores the heap. The arguments that are
  copied for it fill their block exactly.
- **Processes and semaphores** (`TailQueue`, `Semaphores`, `SemRuns`, `SemEffects`, `Kernel`).
  The intrusive tail queues refine sequences. Over all runs every process is on at most one
  queue, value plus holders is constant, waiters wake in order and each by the signal with its
  number.
- **Paths** (`PathSpec`, `PathLaws`, `PathDots`, `PathBuffer`). Resolution in place is a fold of
  push and pop over the components, and leaves the names that no later ".." takes back; canonical
  paths are fixed points; p then q is p/q; the working directory of every process stays
  canonical.
- **Inodes and directories** (`FsSpec`, `FsModes`, `FsRuns`, `FsTree`, `FsTreeRuns`,
  `LookupResults`, `FsPool`, `Vfs`, `DirReads`). Inodes, directory entries and FAT information
  blocks are buffers of one fixed pool, and so are the blocks that open files of the volume have,
  which no call touches. Every exit of `inode_lookup` is reference-neutral; without mounts the
  linked directories refine a map from paths to inodes, and every answer of a lookup is told by
  that map, the permission bits and the flags; directory reads return a prefix.
- **Open files** (`FileSpec`, `FileCalls`, `FileEffects`, `FileTable`). Over all runs each count
  equals the references to its file, so it fits its type and no descriptor names a closed file.
  Open files and inodes together (`OpenFiles`, `OpenResults`): the references to inodes beyond
  directory entries and mounts are exactly those of the open files.
- **The shell's tokeniser** (`Tokens`, `Tokeniser`, `CommandLines`, `CommandWays`). The in-place
  parser refines a pure one, and that one accepts exactly the lines of a grammar of words,
  quotes, backslashes and comments, with their meaning.
- **The SD card** (`SdAsm`, `CsdRegister`, `SdVolume`, `SdCache`). The byte-and-carry programs
  compute the C forms, and those the size that the fields of the card's register give; clusters
  lie in the data area and are disjoint; the cache is never stale after a successful detection,
  and `fat_get` reads a flat table.

Runs are sequences of enabled steps from the state after initialisation. The scheduler's
choice of the next process, the answers of the card, times and pool addresses are parameters
of the steps, so the theorems hold for all of them. Error codes and configuration limits are
those of the sources; sizes such as the number of buffers are parameters where the theorems
hold for all of them.

## Where the code and its text differ

- `os/kmalloc.c:133-134`: the cast binds tighter than the addition, so as written the rest of
  a split block is placed `size` headers further on, not `size` bytes. The linked heap has the
  intended offset. `HeapLaws.LiteralOffsetTilesIff` says for every request exactly when the
  literal offset works and that it then is the intended one, and
  `HeapLaws.LiteralOffsetCounterexample` is a case where it does not.
- `os/kmalloc.c:132`: the comparison subtracts the sizes the other way round in unsigned
  arithmetic, so a block is split unless it fits exactly; the model has the guard as written.
- `os/kmalloc.c:125`: requests from 65533 on wrap to 0 when rounded. The model wraps,
  `HeapLaws.AllocIsLargeEnough` gives the exact condition and
  `HeapLaws.HugeRequestCounterexample` a case.
- `os/sched.c:16-20`: the comment says the running process is not on the run queue; the code
  leaves it there. The model follows the code.
- `os/sem.c:78-82`: the result of a wait is said to come from `schedule`, which returns 0
  always; what the waker passes is in the saved context, and the model has it there.
- `include/mosnix/inode.h`: the directory result of path resolution is described as "the last
  character was a slash"; the code reports the root, or a slash after the last component that
  is not ".". Components longer than the maximum are taken in pieces.
- `include/unistd.h:15-18`: `R_OK` is 3, so asking for read access asks for the execute and
  write bits. The model has the constants as they are.
- `include/mosnix/file.h:186-187`: a new file is said to have default handlers; the code leaves
  its operations NULL until the back end sets them. Opening does not reset the close-on-exec
  flag of the slot.
- `os/inode.c:364-382`: success with a new inode is described as 1; the code returns 0.
- `os/fs/ram/ramfs.c:86-94` and `222-307`: a name that the mounted volume lacks is created in
  the directory that the mount hides. `FsTreeRuns.CreateKeepsUniqueIff` says exactly when this
  makes two entries of one name, and `FsTreeRuns.DuplicateUnderMount` is a run that does.
- `os/drivers/sdcard/sdcard.c:338-397`: a detection that fails after it has received the
  register or a block does not empty the cache. `SdCache.FailedDetectionCoherentIff` gives the
  exact condition for every place where it can fail, and `SdCache.StaleAfterFailedDetection` is a
  run that ends in a stale read.
- `os/drivers/sdcard/sdcard.c:455-469`: sums and differences wrap when the FATs do not fit the
  partition or the partition passes 2^32 blocks; `SdVolume.AllInsideIff` gives the exact condition
  on the fields of the boot block, for all of them.
- `os/fs/fat/fatutils.c:155-173`: the cluster number is checked against the cluster count, not
  against the length of the FAT. `SdVolume.EntriesInFatIff` says for all boot blocks when that is
  the same, and `SdVolume.FatTooShort` is a volume where it is not.
- `os/file.c:29-36` with `76-109`: when the back end fails to open, the file is closed through
  operations that are still NULL. The model takes this close to be the default one.

## Model

| member | source | states |
|---|---|---|
| `HeapSpec.InitInv` | os/kmalloc.c:59-77 | a fresh region of a multiple of 4 bytes is one free block, and that heap is tiled, ordered, aligned and fully joined |
| `HeapSpec.FirstFit` | os/kmalloc.c:127-131 | the index is the first block of the list that is large enough, or the end if none is |
| `HeapSpec.RoundUpFacts` | os/kmalloc.c:125 | the rounded size is a multiple of 4, and is at least the request exactly when adding 3 does not wrap 16 bits |
| `HeapSpec.SplitFacts` | os/kmalloc.c:132-137 | when the remainder has the size the code tests for, the cut-off block starts right behind the allocated one, ends where the old one ended and stays a multiple of 4 |
| `HeapSpec.ExchangeTiles` | os/kmalloc.c:111-197 | exchanging blocks for others over the same bytes keeps the region exactly tiled |
| `HeapSpec.AllocInv` | os/kmalloc.c:111-150 | an allocation keeps headers and blocks tiling the region without overlap, the free list ascending and never adjacent, and hands out one new block inside the region that is large enough |
| `HeapSpec.Position` | os/kmalloc.c:166-180 | the insertion point is in front of the first block at a higher address |
| `HeapSpec.NeighboursOf` | os/kmalloc.c:166-180 | everything in front of the insertion point ends before the freed block and everything behind it starts after it |
| `HeapSpec.JoinMidInv` | os/kmalloc.c:171-175 | joining two touching blocks keeps the tiling and spans exactly both |
| `HeapSpec.FreeSteps` | os/kmalloc.c:163-196 | joining with the next block first and with the previous one afterwards gives the list that the specification inserts into |
| `HeapSpec.FreeInv` | os/kmalloc.c:152-197 | freeing any live block keeps all of the invariant, so no two free blocks ever touch |
| `HeapLaws.RoomIsInOneBlock` | os/kmalloc.c:127-149 | any run of unused bytes with room for a header and the size lies in one free block |
| `HeapLaws.FirstFitIsOptimal` | os/kmalloc.c:127-149 | allocation fails exactly when no run of unused bytes holds the header and the rounded size; otherwise the block returned is at the lowest address that does |
| `HeapLaws.FreeListIsCanonical` | os/kmalloc.c:152-197 | two reachable heaps with the same live blocks have the same free list |
| `HeapLaws.AllocFreeRoundTrip` | os/kmalloc.c:111-197 | freeing what was just allocated restores the heap exactly |
| `HeapLaws.AllocIsLargeEnough` | os/kmalloc.c:125 | the block is at least as large as the request exactly when the rounding does not wrap |
| `HeapLaws.HugeRequestCounterexample` | os/kmalloc.c:125 | a request of 65535 bytes that is given an empty block |
| `HeapLaws.EveryRunKeepsInv` | os/kmalloc.c:59-197 | the invariant holds after every sequence of allocations and frees from initialisation on |
| `HeapLaws.LiteralOffsetTilesIff` | os/kmalloc.c:132-138 | as the cast is written, in 16-bit pointers, an allocation keeps the region tiled if and only if it does not split or its size is 0, and then it is the intended one |
| `HeapLaws.LiteralRestIsElsewhere` | os/kmalloc.c:133-134 | in 16 bits the literal address of the remainder is never the intended one |
| `HeapLaws.LiteralRestBreaks` | os/kmalloc.c:133-138 | a remainder anywhere else leaves a byte in no block or overlaps the allocated block |
| `HeapLaws.LiteralOffsetCounterexample` | os/kmalloc.c:132-138 | a region of 64 bytes and a request of 8 where the literal offset loses bytes |
| `HeapLaws.UnalignedRegionBreaks` | os/kmalloc.c:70-76 | for every region whose size is not a multiple of 4 there is a request that breaks the tiling |
| `UserHeap.UserHeap.constructor` | os/kmalloc.c:70-76 | the linked heap starts as the one-block heap |
| `UserHeap.UserHeap.InsertHead` | include/sys/queue.h:175-178 | the new block is first and the links follow the list |
| `UserHeap.UserHeap.InsertAfter` | include/sys/queue.h:170-173 | the new block is right behind the given one and the links follow the list |
| `UserHeap.UserHeap.RemoveAfter` | os/kmalloc.c:102-109 | exactly that block leaves the list and the links follow the rest |
| `UserHeap.UserHeap.FindFit` | os/kmalloc.c:127-131 | the loop stops at the first fit, with the block in front of it |
| `UserHeap.UserHeap.Split` | os/kmalloc.c:132-138 | the block is cut to the wanted size and the remainder is linked in behind it |
| `UserHeap.UserHeap.Take` | os/kmalloc.c:130-145 | splitting and unlinking give the heap of the specification |
| `UserHeap.UserHeap.Alloc` | os/kmalloc.c:111-150 | pointer, links and sizes after the call are those of the specification of allocation, and a failure changes nothing |
| `UserHeap.UserHeap.FindPosition` | os/kmalloc.c:166-180 | the loop stops at the insertion point of the specification |
| `UserHeap.UserHeap.JoinNext` | os/kmalloc.c:170-175 | the next block is unlinked and its bytes are added to the freed one |
| `UserHeap.UserHeap.JoinPrev` | os/kmalloc.c:183-196 | the freed block is merged into the previous one or linked behind it |
| `UserHeap.UserHeap.Release` | os/kmalloc.c:164-196 | search, joins and insertion together are the insertion of the specification |
| `UserHeap.UserHeap.Free` | os/kmalloc.c:152-197 | the heap afterwards is that of the specification of freeing; NULL changes nothing |
| `Proc.CountArgvBytes` | os/kmalloc.c:213-219 | the loop adds up pointer table and string bytes of an argument list, and the sum cannot wrap |
| `Proc.ArgvFits` | os/kmalloc.c:212-227 | the block that is allocated for an argument list has room for all of its counted bytes |
| `Proc.CopyStrings` | os/kmalloc.c:227-240 | from behind the pointer table on, the block holds the cut strings with their NULs in order, up to exactly the counted size, and no other byte is written |
| `Proc.FormatArgv` | os/kmalloc.c:226-243 | the same with the NULL that ends the pointer table; the other entries of the table keep what was in the block |
| `Proc.StringsReadBack` | os/kmalloc.c:229-241 | reading the strings of the block back gives the arguments in order, each cut to 128 characters, and an empty one for NULL |
| `Proc.CreateFreeRoundTrip` | os/proc.c:97-104 | freeing the two blocks of a new process, in the order of proc_free, restores the heap from before its creation |
| `Proc.AddOwner` | os/proc.c:64-76 | giving a new process its two blocks keeps every live block owned by exactly one process |
| `Proc.DropOwner` | os/proc.c:97-104 | taking a process out with its two blocks keeps every other live block owned by exactly one process |
| `Proc.ProcTable.constructor` | os/proc.c:22-31 | an empty table owns nothing |
| `Proc.ProcTable.FindSlot` | os/proc.c:53-58 | the first unused slot, or the end of the table |
| `Proc.ProcTable.AllocBlocks` | os/proc.c:47-69 | both blocks and a slot, or the heap as it was: what was allocated is given back on every failing path |
| `Proc.ProcTable.Create` | os/proc.c:33-95 | the error code in each case; an error leaves heap, slots and processes unchanged; success fills one slot with the right pid, parent, directory and umask and touches no other process |
| `Proc.ProcTable.Install` | os/proc.c:70-90 | the record of the new process and the ownership of its blocks |
| `Proc.ProcTable.Unlink` | os/proc.c:97-104 | the slot is emptied and the two blocks leave the ownership |
| `Proc.ProcTable.Release` | os/proc.c:97-104 | exactly the two blocks of the process are freed |
| `Semaphores.OnOneQueue` | include/mosnix/proc.h:134 | in every state of the invariant a process is on at most one of the run queue and all waiting queues, and a sleeping process is on the queue of the semaphore it waits for |
| `Semaphores.WakeFirstInv` | os/sem.c:29-40 | waking moves exactly the first waiter to the end of the run queue and keeps the invariant |
| `Semaphores.SignalInv` | os/sem.c:42-55 | signalling keeps the invariant |
| `Semaphores.BlockInv` | os/sem.c:71-80 | blocking moves the current process from the run queue to the end of the waiters |
| `Semaphores.WaitInv` | os/sem.c:63-84 | waiting keeps the invariant whether or not it blocks |
| `Semaphores.InterruptFacts` | os/sem.c:93-106 | the loop of sem_interrupt moves all waiters to the run queue in their order, leaves the value alone and ends |
| `Semaphores.ApplyInv` | os/sem.c:23-106 | every scheduler and semaphore step keeps the invariant: the run queue holds exactly the running processes, and a process sleeps exactly while it is on the queue of an existing semaphore |
| `SemRuns.BootInv` | os/sem.c:23-27 | the state after initialisation meets the invariant |
| `SemRuns.Exec` | os/sem.c:23-106 | the invariant holds in every state that a run can reach |
| `SemRuns.SignalWakesFirst` | os/sem.c:29-55 | a signal with waiters wakes the first one and leaves the value at 0 |
| `SemRuns.WaiterMovesUp` | os/sem.c:29-84 | absent interrupts, a waiter with k ahead has moved up by one for every signal since, whatever else ran |
| `SemRuns.WokenBySignalNumber` | os/sem.c:29-84 | absent interrupts, a waiter with k ahead sleeps until, and is woken by, exactly the (k+1)-th signal |
| `SemRuns.ConservedStep` | os/sem.c:42-84 | a step by a process that signals only what it holds keeps value plus holders constant for each semaphore |
| `SemRuns.EveryRunConserves` | os/sem.c:23-84 | after every run in which only holders signal, the value plus the holders that the waits and hand-offs of that run leave equals the initial value |
| `SemRuns.KernelRunConserves` | os/sem.c:23-84 | the same for the runs from initialisation, where no one holds anything |
| `SemRuns.MutualExclusion` | os/sem.c:23-84 | after every such run from initialisation a semaphore that started at 1 has at most one holder, and none while its value is not 0 |
| `SemRuns.SignalDoesNotWrap` | os/sem.c:42-49 | after every such run the signal of a holder does not wrap the byte-sized value |
| `SemRuns.MonitorConservesIff` | os/sem.c:51-55 | signalling as a monitor conserves the units if and only if the value is 0 |
| `SemEffects.WaitTakes` | os/sem.c:63-70 | a wait on a value that is not 0 takes one unit and changes nothing else |
| `SemEffects.WaitBlocks` | os/sem.c:71-84 | otherwise the caller leaves the run queue, is the last waiter, and the head of the run queue continues, or the system halts if it is empty |
| `SemEffects.SignalEffect` | os/sem.c:29-49 | the first waiter becomes last on the run queue with result 0 and the value stays 0; without waiters the value goes up by one in a byte |
| `SemEffects.MonitorEffect` | os/sem.c:51-55 | the same as a signal at value 0, and nothing otherwise |
| `SemEffects.InterruptEffect` | os/sem.c:93-106 | all waiters become last on the run queue in their order with result -EINTR; the value and all others stay |
| `SemEffects.StartEffect` | os/sched.c:41-47 | a new process is last on the run queue and nothing else changes |
| `SemEffects.SuspendEffect` | os/sched.c:49-55 | a runnable process leaves the run queue and nothing else changes; any other stays as it is |
| `SemEffects.DispatchEffect` | os/sched.c:57-70 | switching changes the current process alone |
| `TailQueue.RunQueue.constructor` | include/sys/queue.h:387-390 | an empty queue |
| `TailQueue.RunQueue.First` | include/sys/queue.h:458 | the first element, or NULL |
| `TailQueue.RunQueue.InsertTail` | include/sys/queue.h:402-407 | the linked queue stands for the old sequence with the element at its end |
| `TailQueue.RunQueue.Bypass` | include/sys/queue.h:426-433 | the neighbours of a removed element point to each other |
| `TailQueue.RunQueue.Remove` | include/sys/queue.h:426-433 | the linked queue stands for the old sequence without the element |
| `TailQueue.Sem.constructor` | os/sem.c:23-27 | the value is set and nobody waits |
| `Kernel.Kernel.constructor` | os/sched.c:36-39 | empty queues that share no link |
| `Kernel.Kernel.StartFirst` | os/sched.c:41-47 | the first process starts the abstract machine in its initial state |
| `Kernel.Kernel.StartProcess` | os/sched.c:41-47 | a new process is the abstract start step |
| `Kernel.Kernel.SchedSetRunnable` | os/sched.c:41-47 | refines making a process runnable, on the linked queues |
| `Kernel.Kernel.SchedRemoveRunnable` | os/sched.c:49-55 | refines taking a process off the run queue, on the linked queues |
| `Kernel.Kernel.Schedule` | os/sched.c:57-70 | refines picking the head of the run queue |
| `Kernel.Kernel.SemWakeup` | os/sem.c:29-40 | refines the abstract wake-up |
| `Kernel.Kernel.SemSignal` | os/sem.c:42-49 | refines the abstract signal and keeps the queues disjoint |
| `Kernel.Kernel.SemSignalMonitor` | os/sem.c:51-55 | refines the abstract monitor signal |
| `Kernel.Kernel.SemWait` | os/sem.c:63-84 | refines the abstract wait; tells whether a unit was taken at once |
| `Kernel.Kernel.SemInterrupt` | os/sem.c:93-106 | refines waking all waiters with EINTR and leaves nobody waiting |
| `CString.StrlenConstrained` | os/util.c:14-26 | the length cut at the maximum; NULL is 0 |
| `CString.StrcpyConstrained` | os/util.c:28-41 | the text cut to fit, its NUL, and the rest of the buffer untouched |
| `CString.StrIsTooLong` | os/util.c:43-51 | exactly when there is no NUL before the maximum |
| `CString.StrlenPathComponent` | os/util.c:53-65 | the length up to the next slash or the end, cut at the maximum |
| `PathSpec.ResolveIsGood` | os/inode.c:54-119 | resolved stacks hold only proper names, and their text fits the buffer |
| `PathSpec.ComponentsAreClean` | os/inode.c:61-75 | components are not empty and hold no slash and no NUL |
| `PathLaws.ResolveIsFold` | os/inode.c:54-119 | resolution fails exactly when some prefix of the components overflows, and otherwise is the fold of push and pop |
| `PathLaws.ComponentsConcat` | os/inode.c:61-75 | the components of p, slash, q are those of p and then those of q |
| `PathLaws.ResolveThenResolve` | os/inode.c:121-150 | resolving p and then q from there equals resolving p, slash, q, overflow included |
| `PathLaws.TailComponents` | os/inode.c:61-75 | a canonical path splits back into its own components |
| `PathLaws.CanonicalIsFixed` | os/inode.c:121-150 | resolving a canonical path gives it back |
| `PathLaws.PathToAbsIsGood` | os/inode.c:121-150 | whatever is resolved is canonical and fits |
| `PathLaws.EveryCwdIsCanonical` | os/dir.c:43-51 | in every reachable state the working directory of every process is canonical and fits its buffer |
| `PathDots.ResolveIsKept` | os/inode.c:54-119 | a resolution that fits leaves exactly the names that no later ".." takes back, read from the right without a stack |
| `PathDots.ExtendPath` | os/inode.c:60-116 | p/c when p resolves: a last slash and "." stay and are flagged as a directory, ".." goes to the parent and stays at the root, a name is appended without the flag or does not fit |
| `PathDots.TooLongStays` | os/inode.c:108-109 | if p does not fit, neither does p/c |
| `PathDots.FirstComponentPath` | os/inode.c:134-146 | the same for a path of one component, from the working directory |
| `PathDots.FirstComponentAbsolute` | os/inode.c:134-140 | the same for a slash and one component, from the root |
| `PathDots.ParentOf` | os/inode.c:83-102 | ".." gives the parent of the working directory, with the directory flag exactly if that is the root |
| `PathDots.DownAndUp` | os/inode.c:77-103 | p/c/.. and p/. resolve to the path of p |
| `PathDots.PathErrors` | os/inode.c:126-132 | NULL, the empty path and a path that is too long have their own errors, and there are no others |
| `PathDots.CwdEffect` | os/dir.c:43-51 | a process starts where its parent is or in /root, chdir moves it alone to where the path resolves, and no other process moves |
| `PathBuffer.StripLast` | os/inode.c:86-97 | the backwards scan leaves the canonical text of the stack without its last component |
| `PathBuffer.Append` | os/inode.c:105-112 | a component is added exactly when it fits, and then the text is that of the longer stack |
| `PathBuffer.SkipSlashes` | os/inode.c:62-67 | skipping slashes keeps the remaining components and records that one was there |
| `PathBuffer.ResolveRelative` | os/inode.c:54-119 | the in-place loop leaves the text and flag of the specification, or its error, and nothing past the buffer is written |
| `PathBuffer.InodePathToAbs` | os/inode.c:121-150 | result and buffer are those of the specification for every input, NULL, empty and too long included |
| `CommandLines.ScanWord` | shell/command.c:81-105 | a word of plain characters, backslashed characters, single quotes and double quotes is scanned to the text that it means, with the blank behind it |
| `CommandLines.ParseWritten` | shell/command.c:64-117 | a line of blanks, words and a comment is parsed to the meanings of its words, or is refused exactly if there are too many |
| `CommandLines.ReadLine` | shell/command.c:64-117 | every line that is accepted is such a line |
| `CommandLines.ParseIff` | shell/command.c:64-117 | the arguments of a line are the given ones if and only if the line can be written as words that mean them and there is room |
| `CommandWays.Blanks` | shell/command.c:50-53 | which characters are blanks and quotes |
| `CommandWays.ParseLine` | shell/command.c:64-117 | any way of writing arguments as words that mean them is undone by parsing |
| `CommandWays.ParseDoubleQuoted` | shell/command.c:86-100 | parsing the double-quoted rendering of any argument list returns the list, or fails exactly when it is too long |
| `CommandWays.ParseSingleQuoted` | shell/command.c:86-103 | the same for single quotes and arguments without one |
| `CommandWays.ParseBackslashed` | shell/command.c:94-100 | the same for a backslash in front of every character |
| `CommandWays.ParsePlainWords` | shell/command.c:66-105 | plain words between any blanks are the arguments, with or without a comment |
| `CommandWays.CommentIsIgnored` | shell/command.c:70-72 | a blank and a comment behind any accepted line change nothing, unless the line ends in a backslash |
| `Tokeniser.ScanChar` | shell/command.c:82-105 | one turn of the loop does the step of the pure scanner, never writes past the read position and leaves the unread text alone |
| `Tokeniser.ScanInPlace` | shell/command.c:81-105 | the argument written in place is the one the pure scanner gives |
| `Tokeniser.ArgInPlace` | shell/command.c:80-111 | the argument is a C string in place, ending before the unread text |
| `Tokeniser.SkipBlanks` | shell/command.c:66-72 | skipping blanks does not change the parse |
| `Tokeniser.NextArg` | shell/command.c:65-111 | one turn of the outer loop takes the argument that the pure parse takes first and leaves the rest of the line to be parsed, or reports the end or the error that the pure parse has; the arguments before it are not touched |
| `Tokeniser.ParseInPlace` | shell/command.c:64-117 | argv refines the pure parse of the original line: the strings are in place, in order and disjoint, and the two errors are reported exactly when the pure parse has them |
| `FileSpec.CountFits` | include/mosnix/file.h:26-40 | every count fits a signed char |
| `FileSpec.SwapFd` | os/file.c:45-55 | exchanging a reference in hand for the one in a descriptor slot keeps every count right |
| `FileSpec.RefInv` | os/file.c:219-248 | a new reference keeps counts equal to references |
| `FileSpec.TakeInv` | os/file.c:57-74 | taking an unused file keeps counts equal to references |
| `FileSpec.DerefInv` | os/file.c:29-36 | dropping a reference keeps counts right and closes the file exactly when it was the last |
| `FileSpec.SlotIsOpen` | os/file.c:38-43 | no descriptor names a closed file |
| `FileCalls.OpenInv` | os/file.c:76-109 | open keeps the invariant on all its paths |
| `FileCalls.CloseInv` | os/file.c:119-132 | close keeps the invariant |
| `FileCalls.DupInv` | os/file.c:219-253 | dup keeps the invariant |
| `FileCalls.Dup2Inv` | os/file.c:255-289 | dup2 keeps the invariant, also when both descriptors share one file |
| `FileCalls.BeginInv` | os/file.c:134-180 | the reference that read and write take keeps the invariant |
| `FileCalls.EndInv` | os/file.c:134-180 | giving it back keeps the invariant, also if the file was closed meanwhile |
| `FileCalls.InitialInv` | os/file.c:21-27 | the state after initialisation meets the invariant |
| `FileCalls.Exec` | os/file.c:29-289 | the invariant holds after every run of calls of all processes |
| `FileCalls.EveryRunIsSafe` | os/file.c:29-289 | in every reachable state each count equals the references to the file and fits, and no slot or call in progress names a closed file |
| `FileEffects.Dup2Effect` | os/file.c:255-289 | both descriptors name the old one's file, the flag of the new one is clear, every other slot stays, and the counts move by one up and one down, not at all if both shared a file, which is closed only at zero |
| `FileEffects.DupEffect` | os/file.c:219-248 | the lowest free descriptor from the given one on names the same file; everything else stays but one count |
| `FileEffects.DupRefused` | os/file.c:219-289 | the errors of dup and dup2, and dup2 onto itself, with nothing changed |
| `FileEffects.CloseEffect` | os/file.c:119-132 | the slot is empty, every other slot stays, and the back end's answer is passed on exactly if that was the last reference |
| `FileEffects.CloseRefused` | os/file.c:119-126 | a descriptor that is not open is refused and nothing changes |
| `FileEffects.OpenEffect` | os/file.c:76-109 | the lowest free descriptor names the lowest unused file with one reference, and everything else stays |
| `FileEffects.OpenRefused` | os/file.c:76-109 | the error of each case, with all slots and counts as they were and a file that was taken closed again |
| `FileEffects.BeginEffect` | os/file.c:134-148 | the call in progress has a reference of its own to the file of the descriptor |
| `FileEffects.BeginRefused` | os/file.c:139-147 | a descriptor that is not open and a missing buffer are refused and nothing changes |
| `FileEffects.EndEffect` | os/file.c:150-156 | exactly that reference is given back |
| `FileTable.FileTable.constructor` | os/file.c:21-27 | the table starts in the initial state |
| `FileTable.FileTable.FileRef` | include/mosnix/file.h:140-143 | one more reference, in signed-char arithmetic |
| `FileTable.FileTable.FileDeref` | os/file.c:29-36 | one reference less, and at zero a close whose result is passed on |
| `FileTable.FileTable.FileGet` | os/file.c:38-43 | the file of a descriptor, or none if the number is out of range |
| `FileTable.FileTable.FilePut` | os/file.c:45-55 | the lowest free descriptor, or EMFILE |
| `FileTable.FileTable.FileNew` | os/file.c:57-74 | the lowest unused file, or none |
| `FileTable.FileTable.FileOpen` | os/file.c:76-109 | result and tables are those of the specification on every path |
| `FileTable.FileTable.SysClose` | os/file.c:119-132 | result and tables are those of the specification |
| `FileTable.FileTable.SysDupScan` | os/file.c:219-248 | result and tables are those of the specification |
| `FileTable.FileTable.SysDup2` | os/file.c:255-289 | result and tables are those of the specification |
| `FileTable.FileTable.BeginCall` | os/file.c:134-148 | result and tables are those of the specification |
| `FileTable.FileTable.EndCall` | os/file.c:150-156 | result and tables are those of the specification |
| `FsModes.AccessBits` | os/inode.c:384-411 | access is granted exactly when every wanted bit is one of the low three and set among bits 6 to 8 of the mode |
| `FsModes.AccessDigits` | os/inode.c:384-411 | by octal digits of the mode: which owner digits allow to search, to write and to read |
| `FsModes.AccessModeBits` | os/util.c:67-76 | the owner bits that each open flag asks for |
| `FsModes.Types` | include/bits/stat.h:12-23 | which type digit is a directory, a link and a device, and which bit marks a mount point |
| `FsModes.Flags` | include/bits/fcntl.h:13-18 | O_CREAT is bit 6 and O_EXCL bit 7 |
| `FsModes.AndNotBits` | os/dir.c:60 | a bit is left exactly if it is set in the mode and clear in the mask |
| `FsModes.FatModeDigits` | os/fs/fat/fatfs.c:245-254 | the type and permissions of files of the volume, read-only or not |
| `FsSpec.FindEntry` | os/fs/ram/ramfs.c:96-113 | the first entry with the name, or none if no entry has it |
| `FsSpec.Walk` | os/inode.c:206-324 | walks end on a RAM inode of the state or a volume file, errors are negative, and a missing last name is missing from a directory |
| `FsSpec.Decide` | os/inode.c:189-362 | an error is negative, a found node is one of the state, and a name is only created in a RAM directory with two buffers left |
| `FsSpec.UnrefWith` | os/inode.c:42-52 | taking a reference to the node of a walk and giving it back restores every inode, count and the number of free buffers |
| `FsSpec.UnrefParent` | os/inode.c:264-266 | exchanging the held directory for its child leaves exactly the reference to the child |
| `FsRuns.WithInv` | os/fs/ram/ramfs.c:100-105 | an extra reference keeps every count equal to entries, mounts and holders |
| `FsRuns.LastReference` | os/inode.c:42-52 | the last reference that is held can only be to an inode of the volume that is not mounted |
| `FsRuns.UnrefInv` | os/inode.c:42-52 | a dropped reference keeps counts right; no RAM inode is ever released, and an inode is released exactly when its last holder lets go and nothing links to it |
| `FsRuns.AddChildInv` | os/fs/ram/ramfs.c:222-307 | a new entry keeps counts right |
| `FsRuns.MountInv` | os/fs/fat/fatfs.c:400-436 | a mount keeps counts right |
| `FsRuns.ExchangeStep` | os/fs/ram/ramfs.c:184-192 | opening a mount point moves the reference from the directory to the root of the volume and keeps counts right |
| `FsRuns.Apply` | os/inode.c:189-362 | every open, close, device, mount, exchange and buffer step keeps the invariant |
| `FsRuns.Exec` | os/inode.c:189-362 | the invariant holds in every state that a run can reach |
| `FsRuns.EveryRunCounts` | os/fs/ram/ramfs.c:359-386 | from initialisation on, in every reachable state each count is the number of entries, mounts and holders of the inode, and everything held or linked exists |
| `FsRuns.WalkCanHold` | os/inode.c:206-324 | a walk reaches a volume file only where the cache had the buffers for it |
| `FsRuns.OpenThenClose` | os/inode.c:189-362 | every exit of a lookup is reference-neutral: an error changes nothing, a success holds exactly one reference more, and giving it back restores the state, or leaves exactly the new entry |
| `FsTree.ChildInTree` | os/fs/ram/ramfs.c:96-113 | a directory has an entry exactly when the tree has the path, and for the same inode |
| `FsTree.WalkIsTree` | os/inode.c:206-324 | a walk from any directory reaches a node exactly when the path is in the tree and can be passed, and then the node of the tree |
| `FsTree.LookupIsTree` | os/inode.c:206-324 | the same from the root; a missing last name has its parent in the tree |
| `FsTree.AddChildTree` | os/fs/ram/ramfs.c:294-306 | a new name adds exactly its own binding to the tree |
| `FsTree.WalksAgree` | os/inode.c:206-324 | in two trees that differ only at an added path, a walk that does not pass that path ends the same |
| `FsTree.CreateIsTree` | os/inode.c:228-257 | what a lookup creates is bound at the path it was given, which was not bound before; what it finds is what the tree has there |
| `FsTree.OtherWalksUnchanged` | os/fs/ram/ramfs.c:294-306 | walks to all other paths end as they did before |
| `LookupResults.WalkStopsAt` | os/inode.c:206-324 | a walk that passes k components and not the next one ends with the error that this one calls for: not a directory, not searchable, missing, or a link |
| `LookupResults.FoundAnswer` | os/inode.c:326-361 | the answer for every path that is in the tree and can be passed, by owner bits, types and flags |
| `LookupResults.MissingAnswer` | os/inode.c:228-257 | the answer for every path whose last name alone is missing |
| `LookupResults.CreatesIff` | os/dir.c:53-68 | a name is made if and only if it is missing, its parent is a directory that can be reached, searched and written, it is short enough and two buffers are left |
| `LookupResults.ChdirIff` | os/dir.c:43-51 | a directory is accepted if and only if it and all above it can be searched |
| `LookupResults.VolumeStep` | os/fs/fat/fatfs.c:258-329 | each step of a walk on the volume, with its errors, running out of buffers included |
| `LookupResults.VolumeWalk` | os/fs/fat/fatfs.c:258-329 | with buffers for two inodes a walk on the volume ends at a file if and only if the names lead there through directories |
| `LookupResults.MountPointWalk` | os/fs/ram/ramfs.c:86-94 | from a mount point names lead where they lead from the mounted directory |
| `LookupResults.VolumeIsReadOnly` | os/inode.c:233-243 | nothing is created on the volume, with the error of each case |
| `LookupResults.AddChildEffect` | os/fs/ram/ramfs.c:246-306 | the new inode and the new last entry, field by field, and nothing else changed |
| `LookupResults.SetMountedBits` | os/fs/fat/fatfs.c:430 | the mark is bit 9, and the other bits of the mode stay |
| `LookupResults.MountEffect` | os/fs/fat/fatfs.c:400-436 | the mount point and the mounted root, field by field, and nothing else changed |
| `LookupResults.VolumeInodeEffect` | os/fs/fat/fatfs.c:220-256 | the inode of a file of the volume, field by field, and nothing else changed |
| `LookupResults.DeviceEffect` | os/dir.c:117-122 | the device number is set and nothing else changes |
| `FsTreeRuns.TreeStep` | os/inode.c:189-362 | every step without a mount keeps the directories a tree |
| `FsTreeRuns.RunKeepsTree` | os/inode.c:189-362 | after every run without mounts the directories are the tree that the names created in that run make of the old one |
| `FsTreeRuns.EveryRunIsTree` | os/fs/ram/ramfs.c:222-307 | in every state that a run without mounts reaches the directories are a tree with unique good names |
| `FsTreeRuns.ChdirFindsDir` | os/dir.c:43-51 | what a lookup for a directory accepts is a directory of the tree |
| `FsTreeRuns.WorkingDirectoryStays` | os/dir.c:43-51 | a path that names a directory still names one after every run without mounts |
| `FsTreeRuns.CreateKeepsUniqueIff` | os/fs/ram/ramfs.c:86-94 | creating keeps names unique if and only if the directory is not a mount point that hides an entry of that name |
| `FsTreeRuns.DuplicateUnderMount` | os/fs/ram/ramfs.c:86-94 | a legal run from initialisation, mkdir /m, mkdir /m/a, a mount on /m and mkdir /m/a, that ends with two entries of one name |
| `OpenFiles.HoldersUpdate` | os/file.c:94 | putting an inode into a file exchanges exactly one reference |
| `OpenFiles.CloseSane` | os/fs/fat/fatfs.c:194-198 | the close handlers give back a buffer and a reference that are there to be given, and nothing else |
| `OpenFiles.SweepBalanced` | os/file.c:29-36 | closing the files without references keeps references and lent buffers equal to those of the open files |
| `OpenFiles.FatOpen` | os/fs/fat/fatfs.c:331-379 | opening a file of the volume takes one buffer, or fails and takes none |
| `OpenFiles.BackEnd` | os/fs/ram/ramfs.c:177-220 | every branch of the open handlers leaves exactly the reference that the file then has |
| `OpenFiles.Open` | os/file.c:76-109 | opening keeps the balance on every path, the failing ones included |
| `OpenFiles.Apply` | os/file.c:76-289 | every call on descriptors and paths keeps the balance |
| `OpenFiles.Exec` | os/file.c:76-289 | the balance holds in every state that a run can reach |
| `OpenFiles.BootInv` | os/file.c:21-27 | it holds after initialisation |
| `OpenFiles.EveryRunBalances` | include/mosnix/inode.h:32-38 | in every reachable state each inode count is its links plus the open files on it and fits a short, and the inode of every open file exists |
| `OpenResults.VolumeOpens` | os/fs/fat/fatfs.c:331-379 | exactly when a file of the volume opens, with the error of each case, and that it then has one buffer |
| `OpenResults.RamOpens` | os/fs/ram/ramfs.c:177-220 | what opening a RAM inode answers and leaves, by its type |
| `OpenResults.MountPointOpens` | os/fs/ram/ramfs.c:184-192 | a mount point opens as the root of the volume |
| `OpenResults.OpenSucceeds` | os/file.c:76-109 | the file in the new descriptor is what the back end made of the inode that the lookup found, and no other file changes |
| `OpenResults.OpenFails` | os/file.c:76-109 | every open that is refused leaves all files, descriptors, references and lent buffers as they were |
| `OpenResults.CloseGivesBack` | os/file.c:119-132 | closing gives the inode and the buffer of the file back exactly if nothing else refers to it |
| `FsPool.PopFree` | os/kmalloc.c:79-88 | the free list loses its first buffer, which belongs to nothing |
| `FsPool.PushFree` | os/kmalloc.c:90-96 | the free list gains the buffer in front |
| `FsPool.Adopt` | os/fs/fat/fatfs.c:220-256 | a filled inode and its information block join the linked state |
| `FsPool.Forsake` | os/fs/fat/fatfs.c:214-218 | an inode without entries leaves with its information block, and nothing else refers to them |
| `FsPool.Append` | os/fs/ram/ramfs.c:294-299 | linking an entry at the end of one directory leaves every other chain alone |
| `Vfs.Vfs.constructor` | os/fs/ram/ramfs.c:359-386 | all buffers but one are free, and the root has its three references |
| `Vfs.Vfs.BufAlloc` | os/kmalloc.c:79-88 | a zeroed buffer that belonged to nothing, or NULL exactly when none is free; buffers that are lent out are not touched |
| `Vfs.Vfs.BufFree` | os/kmalloc.c:90-96 | one more free buffer; NULL is ignored |
| `Vfs.Vfs.InodeAlloc` | os/inode.c:31-40 | a fresh inode with one reference, or NULL |
| `Vfs.Vfs.InodeDeref` | os/inode.c:42-52 | one reference less; at zero the inode and its information block go back to the cache; the blocks of open files are not touched, here and in all calls below |
| `Vfs.Vfs.InodeGetRoot` | os/fs/ram/ramfs.c:388-392 | the root with one more reference |
| `Vfs.Vfs.FatCreateInode` | os/fs/fat/fatfs.c:220-256 | an inode with its information block, or neither and the cache as it was |
| `Vfs.Vfs.FatLookup` | os/fs/fat/fatfs.c:258-329 | refines the lookup in the volume for every answer of the volume, running out of buffers included |
| `Vfs.Vfs.FindDirent` | os/fs/ram/ramfs.c:96-112 | the loop finds the entry that the specification finds |
| `Vfs.Vfs.RamLookup` | os/fs/ram/ramfs.c:76-114 | refines the lookup in a directory; the child has one more reference, nothing else changed |
| `Vfs.Vfs.AttachChild` | os/fs/ram/ramfs.c:252-299 | a filled entry at the end of the chain and a child with one reference, and nothing else changed |
| `Vfs.Vfs.RamMknod` | os/fs/ram/ramfs.c:222-307 | the error in each case with nothing changed, or one entry at the end and a child with one reference for it and one for the caller |
| `Vfs.Vfs.WalkStep` | os/inode.c:208-323 | one turn of the loop is one step of the abstract walk, and holds exactly one reference or none |
| `Vfs.Vfs.WalkPath` | os/inode.c:206-324 | the loop over the text of the path is the abstract walk over its components |
| `Vfs.Vfs.CheckFound` | os/inode.c:326-361 | the checks on a found node, each error with the reference given back |
| `Vfs.Vfs.CreateLast` | os/inode.c:229-257 | creation of a missing last name, each error with the reference given back |
| `Vfs.Vfs.InodeLookup` | os/inode.c:189-362 | result, inode and the whole state afterwards for every path, flag and mode, whatever files are open: an error or a caller without interest leaves no count changed, success holds exactly one reference, and the blocks of open files are not touched |
| `Vfs.Vfs.InodeLookupPath` | os/inode.c:364-382 | the same from the pathname and working directory of a process |
| `Vfs.Vfs.SysChdir` | os/dir.c:43-51 | the working directory changes only on success, to a canonical path at which the lookup finds a directory, is never cut short, and no inode changes |
| `Vfs.Vfs.SysMkdir` | os/dir.c:53-68 | one new directory with the permission bits that the umask leaves and one reference, or an error and nothing changed |
| `Vfs.DirModeBits` | os/dir.c:60 | the new mode is a directory with those of the nine permission bits that are asked for and not masked |
| `Vfs.Vfs.SysMknod` | os/dir.c:95-125 | one new device with its number and the mode that the umask leaves, or an error and nothing changed |
| `Vfs.Vfs.MountSd` | os/fs/fat/fatfs.c:400-436 | the root of the volume takes the place of the entries of a directory, or nothing changes |
| `Vfs.Vfs.SysMount` | os/mount.c:16-81 | the volume is mounted on the directory of the path, or the error of each case is returned, a busy mount point and a directory of the volume included, and nothing changes |
| `Vfs.Vfs.FatOpen` | os/fs/fat/fatfs.c:331-379 | refines opening a file of the volume: success takes one buffer that was free and lends it to the file, an error takes none |
| `Vfs.Vfs.OpenInode` | os/fs/ram/ramfs.c:177-220 | every branch of the open handlers, the exchange at a mount point and the device included, refines the open of the value model, with the inode and the lent buffer that the file then has |
| `Vfs.Vfs.CloseFile` | os/fs/fat/fatfs.c:194-198 | closing gives back exactly the buffer of the file and its reference, and leaves the blocks of all other open files alone |
| `Vfs.Vfs.SeekDirent` | os/fs/ram/ramfs.c:129-134 | the loop stops at the entry of the position, the 16-bit cut included |
| `Vfs.Vfs.DirRead` | os/fs/ram/ramfs.c:116-168 | the records of the entries from the position on, as many as are there and fit, and the new position |
| `Vfs.RecordFields` | os/fs/ram/ramfs.c:139-165 | a record has the name of the entry and the mode, type, time and device number of the inode |
| `Vfs.ChainIsShort` | os/fs/ram/ramfs.c:129-134 | a directory has no more entries than the cache has buffers, so the cut position is exact |
| `DirReads.ReadsArePrefix` | os/fs/ram/ramfs.c:116-168 | successive reads with any buffer sizes, with names added between them, return a prefix of the directory: nothing twice, nothing skipped |
| `DirReads.ShortReadIsEnd` | os/fs/ram/ramfs.c:136-167 | a read that returns less than it has room for has returned the rest |
| `SdAsm.ShiftLoop` | os/drivers/sdcard/sdasm.S:78-89 | the rotate loop is a 32-bit shift |
| `SdAsm.CompareCount` | os/drivers/sdcard/sdasm.S:59-76 | the byte-wise compare chain is the 32-bit comparison |
| `SdAsm.SdClusterToBlock` | os/drivers/sdcard/sdasm.S:40-114 | for all inputs the byte program computes the value of the C form |
| `SdAsm.SizeV2` | os/drivers/sdcard/sdasm.S:135-158 | the version 2 size of the card |
| `SdAsm.CountV1` | os/drivers/sdcard/sdasm.S:160-183 | the shifts and the addition with carry give the size field of the version 1 register plus 1 |
| `SdAsm.ShiftCount` | os/drivers/sdcard/sdasm.S:185-195 | the shift count of the version 1 size, as a signed byte |
| `SdAsm.SizeV1` | os/drivers/sdcard/sdasm.S:160-210 | the version 1 size of the card, and 0 where the shift count is negative |
| `SdAsm.SdGetSize` | os/drivers/sdcard/sdasm.S:123-210 | for all inputs the byte program computes the size that the C form gives, and leaves the register in the buffer shifted as the specification says |
| `SdAsm.CsdLeftBytes` | os/drivers/sdcard/sdasm.S:164-190 | what is left of a version 1 register: bytes 6 to 8 shifted as one number, bytes 8 and 10 on their own, the rest as it was |
| `CsdRegister.StructureBits` | os/drivers/sdcard/sdcard.c:350-366 | the version is bits 127:126 of the register as one number |
| `CsdRegister.ReadBlLenBits` | os/drivers/sdcard/sdcard.c:354 | READ_BL_LEN, bits 83:80, is the low half of byte 5 |
| `CsdRegister.CSizeBits` | os/drivers/sdcard/sdcard.c:359-362 | C_SIZE, bits 73:62, from bytes 6 to 8 |
| `CsdRegister.CSizeMultBits` | os/drivers/sdcard/sdcard.c:355-358 | C_SIZE_MULT, bits 49:47, from bytes 9 and 10 |
| `CsdRegister.CSizeLargeBits` | os/drivers/sdcard/sdcard.c:367-370 | C_SIZE of version 2, bits 69:48, from bytes 7 to 9 |
| `CsdRegister.SizeOfVersion1` | os/drivers/sdcard/sdcard.c:352-364 | the size in bytes is (C_SIZE + 1) * 2^(C_SIZE_MULT + 2) * 2^READ_BL_LEN for every register whose shift count is not negative |
| `CsdRegister.SizeOfVersion2` | os/drivers/sdcard/sdcard.c:365-371 | the size in blocks is (C_SIZE + 1) * 1024, which wraps for the largest value alone |
| `CsdRegister.SizeOfOtherVersions` | os/drivers/sdcard/sdcard.c:372-374 | any other version is refused |
| `SdVolume.ClusterShift` | os/drivers/sdcard/sdcard.c:444-450 | the loop finds the power of two |
| `SdVolume.LayoutReduced` | os/drivers/sdcard/sdcard.c:452-469 | the geometry of any boot block, as sums that are reduced once |
| `SdVolume.BlockReduced` | os/drivers/sdcard/sdcard.c:511-524 | the block of any accepted cluster, as a sum that is reduced once |
| `SdVolume.ClusterPlace` | os/drivers/sdcard/sdcard.c:452-469 | when the FATs fit, every accepted cluster is at its place and wholly inside the data area |
| `SdVolume.ClustersAreDisjoint` | os/drivers/sdcard/sdcard.c:511-524 | different clusters have no block in common |
| `SdVolume.AllInsideIff` | os/drivers/sdcard/sdcard.c:452-469 | for every boot block that is accepted: all accepted clusters lie in the data area if and only if the fields of the boot block fit, wrapping sums included |
| `SdVolume.FatsDoNotFit` | os/drivers/sdcard/sdcard.c:452-469 | a volume whose FATs do not fit and whose cluster 2 is outside |
| `SdVolume.ZeroMeansInvalid` | os/drivers/sdcard/sdcard.c:511-524 | block 0 is returned exactly for clusters that are not accepted |
| `SdVolume.EntryInFat` | os/fs/fat/fatutils.c:155-173 | the block that is read for a cluster is as far behind the start of the first FAT as its number asks for, also where the sum wraps |
| `SdVolume.EntriesInFatIff` | os/fs/fat/fatutils.c:155-173 | for every boot block, in 32-bit sums: every cluster that fat_get accepts has its entry in the first FAT if and only if the FAT is as long as the cluster count asks for |
| `SdVolume.FatTooShort` | os/fs/fat/fatutils.c:155-173 | a volume on which the entry of cluster 128 is read from the second FAT |
| `SdCache.ReadEffect` | os/drivers/sdcard/sdcard.c:590-621 | a cached block is not asked for again, any other takes its place if the card sends it, and else nothing is cached |
| `SdCache.DetectsIff` | os/drivers/sdcard/sdcard.c:346-432 | a card is found if and only if its register gives a size, block 0 is signed, and a FAT32 boot block is where the partition table or block 0 says |
| `SdCache.ReadIsRight` | os/drivers/sdcard/sdcard.c:590-621 | a successful cached read leaves exactly that block, and every outcome keeps the cache right |
| `SdCache.RunIsCoherent` | os/drivers/sdcard/sdcard.c:590-621 | a right cache stays right over every run of reads and detections in which no failing detection does harm |
| `SdCache.EveryRunIsCoherent` | os/drivers/sdcard/sdcard.c:590-621 | after a successful detection, over all such runs with arbitrary failures of the reads, a block marked as cached is the block of the card |
| `SdCache.FailedDetectionCoherentIff` | os/drivers/sdcard/sdcard.c:253-501 | wherever a detection fails: the cache stays right if and only if it was empty, or nothing had been received yet, or what was received last is what the cached block has in that place |
| `SdCache.StaleAfterFailedDetection` | os/drivers/sdcard/sdcard.c:377-399 | a run on one card: detection, a read of block 5, a detection that fails at the boot block, and a read of block 5 that reports success with the partition table in the buffer |
| `SdCache.EntryIsFlat` | os/fs/fat/fatutils.c:155-173 | the entry in the block is the entry of the flat table |
| `SdCache.SdInfo.CacheRead` | os/drivers/sdcard/sdcard.c:590-621 | refines the cached read |
| `SdCache.SdInfo.FatGet` | os/fs/fat/fatutils.c:155-173 | a success is the 28-bit entry of the flat table; a cluster in range succeeds exactly if its block is cached or the card sends it, and others fail and do not touch the card |
| `SdCache.SdInfo.NextCluster` | os/fs/fat/fatutils.c:175-183 | the next cluster, or 0 at the end of the chain and on errors |

## Left out

- UserHeap.UserHeap.Alloc: places the rest of a split block at the intended offset, not at the literal one of the cast; what the literal one does is stated by HeapLaws.LiteralOffsetTilesIff.
- HeapSpec.AllocInv: is about the intended offset, for the same reason.
- Proc.ProcTable.Create: does not hold the bytes of the argument block, which are what Proc.FormatArgv writes; zero page, stack areas and the saved context are left out.
- Kernel.Kernel.Schedule: the context switch itself (os/switcher.S) is left out; the step only changes the current process.
- FileTable.FileTable.FileOpen: takes the results of the path lookup and of the back end's open as parameters; OpenFiles.Open has both.
- Vfs.Vfs.InodeDeref: requires that an inode at its last reference has no names below it and nothing mounted on it, so the recursion of ramfs_release is not modelled; FsRuns.UnrefInv proves that no run gets there, because nothing unlinks names.
- Vfs.Vfs.FatLookup: the search of the volume's directory (8.3 names, directory streaming, card detection) is a parameter with arbitrary answers.
- LookupResults.VolumeWalk: is about states with four buffers left; what happens with fewer is in LookupResults.VolumeStep.
- LookupResults.FoundAnswer: is about trees without mounts, as FsTree is; what a mount adds is in LookupResults.MountPointWalk.
- Vfs.Vfs.DirRead: reports size 0 for RAM files, because nothing in the kernel writes RAM file contents.
- Vfs.Vfs.FatOpen: takes the answers of the card and of the cluster check as parameters, and does not model the contents of the lent block.
- OpenFiles.FatOpen: takes the answers of the card and of the cluster check as parameters.
- SdAsm.SizeV1: the C form shifts by a negative count for some register values, which C leaves undefined; the model takes 0 there, as the byte program computes.
- SdVolume.ClusterShift: requires one of the eight cluster sizes, which sd_detect checks before (os/drivers/sdcard/sdcard.c:421-425).
- FAT file and directory streaming (os/fs/fat/fatfs.c:60-192), the file position of FAT reads, and time conversion.
- Symbolic links and user ids: both are compiled out.
- The command dialogue with the SD card beyond where it fails, the SPI and serial drivers, the TTY and null devices.
- sem_signal_isr and timed waits, which have no code of their own.
- fcntl and the close-on-exec flag beyond what dup and dup2 do to it.
- Built-in commands, option parsing, decimal printing, the C library wrappers, generated system call tables, linker scripts and build scripts: they hold no state or arithmetic beyond a table or a loop over one.
- Interrupts in the middle of a kernel call: kernel calls are single steps, as the kernel is not preemptive.
