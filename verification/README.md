# Models and proofs for the operating-systems projects

Five programs of the repository, modelled in Dafny with proofs of what they are for.

* **Virtual memory simulator** (`proj3/OS_Proj3`): page tables, an inverted table, demand paging with
  dirty bits and a swap disk, and the policies ZERO, FIFO, LRU (a doubly linked heap list) and CLOCK.
  Whatever the policy and the number of frames, a run reads exactly what a flat memory would read, unless
  LRU has to replace the page of a single frame, where the program follows a null pointer.
* **File system and its checker** (`proj4/OS_Proj4`, `OS_Proj_extra/fix.c`): inodes, bitmaps with cached
  counts, direct and indirect blocks, hard links, a directory tree and an in-memory current directory.
  One invariant is kept by every command from formatting on; the checker rebuilds damaged bitmaps to
  exactly what that invariant says.
* **Crash-tolerant matrix multiply** (`OS_Proj1`): the parent collects every row exactly once for every
  pattern of crashes, and both products equal A·B.
* **Bounded request queue** (`proj2/OS_Proj2/webserver.c`): FIFO under every interleaving of the listener,
  any number of workers that may die, and the respawning main thread.
* **Peterson's lock** (`examples/thread/pthread_peterson.c`): exclusion, the final count, progress and
  bounded waiting under every interleaving.

Sizes (frames, pages, processes, inodes, blocks, rows, slots, workers, iterations) are parameters, except
where the program fixes a layout: 512-byte blocks, 15 direct pointers, 21 directory entries, 20-byte name
buffers and 131 reserved blocks.

## How the files fit together

| files | content |
|---|---|
| `Sequences`, `Bitmaps` | shared facts; bitmaps packed into bytes |
| `FrameList` | `list.c`: nodes with `prev` and `next`, as a sequence |
| `PagingModel` | the simulator on values, one function per C function |
| `PagingRefinement`, `PagingLru`, `PagingRings`, `PagingHistory` | flat memory; LRU; FIFO and CLOCK; the state told from requests and answers |
| `PagingMachine` | the simulator on arrays, heap nodes and counters, proved equal to `PagingModel` |
| `FileSystemModel`, `FileSystemInvariant` | the commands on values; the invariant and its witness |
| `FileSystemGrowth`, `FileSystemCreation`, `FileSystemRemoval`, `FileSystemRuns`, `FileSystemFormat`, `FileSystemImage` | each command, formatting, unmounting and mounting keep the invariant |
| `FileSystemTree`, `FileSystemTheorems`, `FileSystemContents`, `FileSystemLimits`, `FileSystemCommands` | what follows: no leak, isolation, round trips, exact conditions, and what each command does to names |
| `FileSystemSteps`, `FileSystemMachine` | the file system on global arrays, proved equal to `FileSystemModel` |
| `FileSystemRepair` | `fix.c` on the same arrays |
| `MatrixMultiply`, `RequestQueue`, `PetersonLock` | the other three programs |

The programs that change state step by step are modelled twice: as functions on values, about which the
properties are proved, and as classes and methods with loops whose `ensures` equate their state with those
functions.  The threads of the queue and of the lock are atomic steps of a state machine.

A ghost `Tree` witnesses the file-system invariant: the directory of each inode, its depth, the owner of
each block, and the current directory.  `FileSystemTree.Sound` says the same without a witness.

## Where the code differs from its own comments

* `fs.h` allows names of 20 bytes; the commands write a NUL after the name, so a name has at most 19.
* `fs.c` calls the source of `ln` and `cp` a "file or dir".  `cp` refuses a directory; `ln` does not, and then
  the invariant is lost (`LinkKeepsInvIff`); a first command `ln . x` does it (`LinkToDotFails`).
* `rm` and `rmdir` move the later entries down without their terminators, so a shorter name can pick up the
  tail of the name it overwrites.  `RemovalKeepsNamesIff` says exactly when names survive; creating a file,
  creating one with a shorter name and removing the first loses the second name in every state
  (`ShiftRenames`).  The other theorems hold with the names the code produces.
* `fs_mount` initialises only the first eighth of each bitmap when formatting; `FormatIff` says exactly which
  memory that is enough for.  The zeroed globals of a C program are such memory.
* `mkdir` looks at the free inodes but not at the free blocks; `MakeDirKeepsInvIff` says what that costs, and
  `MakeDirOnFullDiskFails` leads there from any state with room for one more file that fills the disk.

## Model

| member | source | states |
|---|---|---|
| `PagingRefinement.PagingIsFlatMemory` | proj3/OS_Proj3/vm.c:96-138 | for every policy, frame count and request sequence that follows no null pointer, each read sees the last byte written to that process and page, or 'A', and the run stops where the flat memory's would |
| `PagingLru.RunsThroughIff` | proj3/OS_Proj3/list.c:15-24 | the null `prev` of a lone node is followed exactly under LRU, with one frame, when two different pages are translated |
| `PagingRefinement.PoliciesAgree` | proj3/OS_Proj3/pagetable.c:75-84 | two configurations that differ in policy and frame count give the same answers to the same requests, where neither follows a null pointer |
| `PagingRefinement.FaultKeepsBytes` | proj3/OS_Proj3/pagetable.c:86-149 | a page fault changes the byte of no page, and a valid clean page still equals its swap slot |
| `PagingRefinement.AccessRefines` | proj3/OS_Proj3/pagetable.c:178-211 | after a translation the frame returned holds the flat memory's byte of that page |
| `PagingRefinement.CountersConserved` | proj3/OS_Proj3/pagetable.c:200-207 | over any run, hits and misses together count the translated requests, every miss is one swap-in, and swap-outs never exceed the misses |
| `PagingHistory.DirtyIffWritten` | proj3/OS_Proj3/pagetable.c:126-163 | after any run, told from the requests and the answers alone: a resident page is dirty if and only if a write has reached it since its last fault |
| `PagingHistory.CountersTold` | proj3/OS_Proj3/pagetable.c:97-110 | after any run: hits and misses are those the answers report, each miss reads the swap disk once, and it is written exactly once for each fault that took its frame from a page written since that page came |
| `PagingHistory.FramesHoldLast` | proj3/OS_Proj3/pagetable.c:137-143 | after any run: the frames in use are those the answers have named, each with the page that came to it last |
| `PagingHistory.AddressesNamePages` | proj3/OS_Proj3/vm.c:115-138 | the physical address of an answer has the offset of the request, and its frame is the one whose inverted entry names the page |
| `PagingHistory.ClockBitsTellUse` | proj3/OS_Proj3/pagetable.c:43-71 | after any run under CLOCK: the bit of a frame in use is set if and only if the frame was filled or hit since the hand last passed it |
| `PagingHistory.ClockTakesFirstUnused` | proj3/OS_Proj3/pagetable.c:43-71 | after any run under CLOCK: a fault takes the first frame from the hand round that was not used since the hand last passed it, or the hand's own if all were |
| `PagingHistory.ZeroKeepsOtherFrames` | proj3/OS_Proj3/pagetable.c:78 | under ZERO every frame but the first keeps the first page it got, over any run |
| `PagingHistory.ZeroTakesFirst` | proj3/OS_Proj3/pagetable.c:78 | a fault with all frames in use goes to frame 0 |
| `PagingModel.LoadKeepsTables` | proj3/OS_Proj3/pagetable.c:126-143 | filling a free frame keeps page table and inverted table mutual inverses |
| `PagingModel.ReplaceKeepsTables` | proj3/OS_Proj3/pagetable.c:97-143 | so does evicting any resident page for a page that is not resident |
| `PagingModel.Access` | proj3/OS_Proj3/pagetable.c:86-176 | any access, hit or fault, free frame or victim, keeps the tables mutual inverses and the policy's data consistent; the page is then valid in the frame returned, dirty if written, and it was a hit exactly if it was valid before |
| `PagingModel.Run` | proj3/OS_Proj3/vm.c:96-143 | the same consistency after every run of requests |
| `PagingModel.RecencyRotated` | proj3/OS_Proj3/pagetable.c:29-39 | replacing by LRU leaves a list of exactly the frames in use, each once |
| `PagingModel.RecencyMovedToHead` | proj3/OS_Proj3/pagetable.c:165-167 | so does moving the frame of a hit to the head |
| `PagingLru.RecentOrdersByLastUse` | proj3/OS_Proj3/pagetable.c:165-167 | the move-to-front list of a trace holds its pages once each, ordered by their last use |
| `PagingLru.LruEvictsOldest` | proj3/OS_Proj3/pagetable.c:24-41 | after any run, a fault with all frames in use evicts exactly one page, the resident one whose last use among all translated so far is the oldest |
| `PagingLru.LruHoldsMostRecent` | proj3/OS_Proj3/pagetable.c:86-176 | after any run the pages resident under LRU, in list order, are the most recently used ones, as many as there are frames |
| `PagingLru.LruInclusion` | proj3/OS_Proj3/pagetable.c:24-41 | with more frames the resident list of the smaller memory is a prefix of the larger one's, every hit stays a hit, and misses never grow |
| `PagingRings.ClockPicksFirstClear` | proj3/OS_Proj3/pagetable.c:43-71 | CLOCK takes the first frame from the hand round whose bit is clear, or the hand's own if none is, clears exactly the bits it passed and sets the victim's |
| `PagingRings.FifoFault` | proj3/OS_Proj3/pagetable.c:12-22 | fault number n, from 0, goes to frame n mod the number of frames |
| `PagingRings.FifoHoldsLastFaults` | proj3/OS_Proj3/pagetable.c:12-22 | over any run the frames hold the pages of the last faults, each in the slot of its number |
| `PagingRings.FifoResident` | proj3/OS_Proj3/pagetable.c:12-22 | a page is resident under FIFO exactly when it is among the last faults, as many as there are frames |
| `PagingRings.ClockIsFifoWithoutLateHits` | proj3/OS_Proj3/pagetable.c:43-71 | on a run without a hit after the first replacement, CLOCK answers as FIFO does, hits and addresses included |
| `FrameList.List.InsertHead` | proj3/OS_Proj3/list.c:57-68 | the linked list with a new node in front |
| `FrameList.List.RemoveTail` | proj3/OS_Proj3/list.c:15-24 | the linked list without its last node; a single node is not allowed |
| `FrameList.List.RemoveHead` | proj3/OS_Proj3/list.c:26-35 | the linked list without its first node |
| `FrameList.List.Remove` | proj3/OS_Proj3/list.c:37-54 | the linked list without the first node that carries the value, links repaired on both sides |
| `PagingMachine.Policies.Fifo` | proj3/OS_Proj3/pagetable.c:12-22 | `fifo` on its global tail |
| `PagingMachine.Policies.Lru` | proj3/OS_Proj3/pagetable.c:24-41 | `lru` on the heap list: the last frame, moved to the head |
| `PagingMachine.Policies.Clock` | proj3/OS_Proj3/pagetable.c:43-71 | the probing loop ends within one probe more than there are frames, with the victim and the bits described by `ClockPicksFirstClear` |
| `PagingMachine.Policies.Choose` | proj3/OS_Proj3/pagetable.c:75-84 | `find_replacement` for each policy |
| `PagingMachine.Policies.TakeFree` | proj3/OS_Proj3/pagetable.c:115-124 | what LRU and CLOCK do when a free frame is taken, with the first allocation of the reference bits |
| `PagingMachine.Policies.Note` | proj3/OS_Proj3/pagetable.c:165-170 | what LRU and CLOCK do on a hit |
| `PagingMachine.Frames.constructor` | proj3/OS_Proj3/pt_core.c:40-55 | no page valid, every swap slot 'A', no frame in use |
| `PagingMachine.Frames.GetFreeFrame` | proj3/OS_Proj3/pt_core.c:33-38 | frames in order, then -1 for ever |
| `PagingMachine.Frames.SwapOut` | proj3/OS_Proj3/disk.c:34-39 | the frame's byte goes to the page's swap slot and nothing else changes |
| `PagingMachine.Frames.Fill` | proj3/OS_Proj3/disk.c:27-32 | inverted entry and frame of the new page, read from its swap slot |
| `PagingMachine.Simulator.PageFaultHandler` | proj3/OS_Proj3/pagetable.c:86-149 | the whole state after a fault is that of `PagingModel.PageFault`, and the frame returned is its frame |
| `PagingMachine.Simulator.GetPFN` | proj3/OS_Proj3/pagetable.c:151-176 | a hit returns the frame and notes the use; a miss changes nothing |
| `PagingMachine.Simulator.MMU` | proj3/OS_Proj3/pagetable.c:178-211 | address split, range test, counters and translation |
| `PagingMachine.Simulator.ServeRequest` | proj3/OS_Proj3/vm.c:108-142 | one request of the driver loop, with its error exits |
| `PagingMachine.Simulator.Drive` | proj3/OS_Proj3/vm.c:96-143 | the driver loop answers any request sequence that follows no null pointer as `PagingModel.Run` does |
| `FileSystemTree.SessionsAreSound` | proj4/OS_Proj4/fs_sim.c:26-40 | after any sequence of admissible commands on a freshly formatted disk nothing has leaked, nothing is shared, the tree is whole and the counts are right |
| `FileSystemTree.InvIsSound` | proj4/OS_Proj4/fs_util.c:58-102 | the invariant means: a block is allocated exactly when reserved or owned by a live inode, by one and once; an inode exactly when a path from the root reaches it; link counts count names; dot entries lead to the directory and its parent; cached counts count clear bits |
| `FileSystemTree.OneWay` | proj4/OS_Proj4/directory.c:40-60 | the directories form a tree: there is one path to each inode |
| `FileSystemFormat.FormatIff` | proj4/OS_Proj4/fs.c:47-79 | formatting establishes the invariant exactly when memory beyond the first eighth of the bitmaps, and the root's link count, were zero |
| `FileSystemGrowth.GrownKeepsInv` | proj4/OS_Proj4/file.c:341-401 | a new inode with blocks of its own and an entry in the current directory keeps the invariant |
| `FileSystemGrowth.AllocSucceeds` | proj4/OS_Proj4/fs_util.c:82-94 | with enough clear bits a row of `get_block` calls returns distinct free blocks |
| `FileSystemGrowth.ClearCount` | proj4/OS_Proj4/fs_util.c:96-102 | freeing allocated blocks raises the count by as many |
| `FileSystemCreation.CreateKeepsInv` | proj4/OS_Proj4/file.c:294-406 | create keeps the invariant, or changes nothing; the new file holds the generated buffer |
| `FileSystemCreation.CopyKeepsInv` | proj4/OS_Proj4/file.c:168-289 | copy keeps the invariant, or changes nothing; its contents are the source's across the direct and indirect blocks |
| `FileSystemCreation.MakeDirGrows` | proj4/OS_Proj4/directory.c:6-69 | with a free block, mkdir adds one empty directory with its dot entries, or changes nothing |
| `FileSystemRemoval.UnlinkKeepsInv` | proj4/OS_Proj4/file.c:93-131 | taking one name away keeps the invariant, whether or not it was the last |
| `FileSystemRemoval.RemoveKeepsInv` | proj4/OS_Proj4/file.c:68-135 | rm keeps the invariant, or changes nothing |
| `FileSystemRemoval.RemoveDirKeepsInv` | proj4/OS_Proj4/directory.c:71-125 | rmdir keeps the invariant, or changes nothing; it never removes the current directory |
| `FileSystemRemoval.LinkKeepsInv` | proj4/OS_Proj4/file.c:137-166 | ln on a file keeps the invariant, or changes nothing |
| `FileSystemRemoval.RemovalKeepsNamesIff` | proj4/OS_Proj4/file.c:126-129 | the remaining names survive a removal exactly when, in every slot overwritten, the byte at the length of the next name is NUL |
| `FileSystemRemoval.EqualLengthsKeepNames` | proj4/OS_Proj4/directory.c:117-120 | they always do when all names have one length |
| `FileSystemRemoval.OverlayKeepsPlain` | proj4/OS_Proj4/file.c:127 | the shift never turns a name into a dot name |
| `FileSystemRemoval.ChangeDirKeepsListings` | proj4/OS_Proj4/directory.c:127-152 | cd changes the contents of no directory, cached or on the disk, and loads those of the one it enters |
| `FileSystemRuns.ChangeDirKeepsInv` | proj4/OS_Proj4/directory.c:127-152 | cd keeps the invariant, or changes nothing |
| `FileSystemImage.RemountKeepsInv` | proj4/OS_Proj4/fs.c:29-45 | mounting the image that unmounting wrote gives back the bitmaps, counts, inodes, directories and file contents, each directory on its block, with the invariant |
| `FileSystemImage.ImageReadsBack` | proj4/OS_Proj4/fs.c:83-97 | superblock, bitmaps and inode table come back from the reserved blocks they were written to, and no other block but the current directory's is written |
| `FileSystemRuns.CommandKeepsTree` | proj4/OS_Proj4/fs.c:120-185 | every admissible command keeps the invariant, with the witness it leaves |
| `FileSystemTheorems.CommandKeepsOthers` | proj4/OS_Proj4/fs.c:120-185 | any command, also one that loses the invariant, changes the entries of no directory but the current one and the contents of no file that survives it, and frees neither the current directory nor an ancestor of anything |
| `FileSystemTheorems.FailureKeepsState` | proj4/OS_Proj4/file.c:299-334 | any command that reports an error has changed nothing |
| `FileSystemCommands.RemoveTakesTheName` | proj4/OS_Proj4/file.c:75-131 | rm succeeds if and only if the first entry of that name names a file, whatever its link count, and takes out that very entry: the slots before it stay, and the column of inodes has exactly its position cut out |
| `FileSystemCommands.LinkSucceedsIff` | proj4/OS_Proj4/file.c:142-152 | ln succeeds if and only if its source is found and the directory has room |
| `FileSystemCommands.LinkNamesSource` | proj4/OS_Proj4/file.c:154-163 | after ln a new name leads to the source's inode, every old name where it led and every other name nowhere; cat prints the same through both, and the link count is one more |
| `FileSystemCommands.ChangeDirSucceedsIff` | proj4/OS_Proj4/directory.c:132-143 | cd succeeds if and only if the name leads to a directory |
| `FileSystemCommands.ChangeToParent` | proj4/OS_Proj4/directory.c:127-152 | cd to ".." succeeds everywhere but in the root, and makes the directory that names the current one the current one |
| `FileSystemCommands.MakeDirAndBack` | proj4/OS_Proj4/directory.c:6-152 | mkdir, cd into the new directory and cd to ".." lead back to where they started; the new directory is empty inside and found outside |
| `FileSystemCommands.NewFileIsNamed` | proj4/OS_Proj4/file.c:355-359 | create, cp and mkdir make their name lead to the new inode, unless an older entry has it, and leave every other name as it was |
| `FileSystemCommands.CreateSucceedsIff` | proj4/OS_Proj4/file.c:299-334 | create succeeds if and only if the size is allowed, the name is free, and there is an entry, a clear inode bit and as many clear block bits as it needs |
| `FileSystemCommands.CopySucceedsIff` | proj4/OS_Proj4/file.c:177-211 | cp succeeds if and only if its source names a file and there is an entry, a clear inode bit and as many clear block bits as the source's size needs |
| `FileSystemCommands.MakeDirSucceedsIff` | proj4/OS_Proj4/directory.c:12-31 | mkdir succeeds if and only if the name is free and no dot name, and there is an entry and a clear inode bit; clear blocks do not matter |
| `FileSystemCommands.RemoveDirTakesTheName` | proj4/OS_Proj4/directory.c:77-122 | rmdir succeeds if and only if the name is no dot name and leads to a directory that holds nothing, and takes out that very entry |
| `FileSystemContents.CatPrintsFile` | proj4/OS_Proj4/file.c:31-60 | cat prints the first size bytes of a file and nothing else, although its own NUL comes one byte late |
| `FileSystemContents.CreateThenCat` | proj4/OS_Proj4/file.c:294-406 | for every size, a file created and then read by its name prints exactly the generated characters |
| `FileSystemContents.CopyIsIndependent` | proj4/OS_Proj4/file.c:168-289 | a copy prints as its source does, shares no block with any other inode, and leaves the source as it was |
| `FileSystemContents.RemovingOneKeepsOther` | proj4/OS_Proj4/file.c:97-116 | removing one file leaves every other file with its blocks and contents |
| `FileSystemContents.FilesNeverChange` | proj4/OS_Proj4/fs.c:120-185 | over any sequence of commands, a file that stays prints what it printed at first |
| `FileSystemContents.CreateThenRemove` | proj4/OS_Proj4/file.c:68-135 | create and then rm of a fresh name gives back both bitmaps, both counts, the entries of the directory and every other inode |
| `FileSystemContents.FreedWithLastName` | proj4/OS_Proj4/file.c:93-116 | rm frees the inode and exactly its blocks if and only if no other entry names it |
| `FileSystemLimits.SpaceCheckIsExact` | proj4/OS_Proj4/file.c:315-334 | the counts pass the check if and only if every `get_inode` and `get_block` that follows succeeds |
| `FileSystemLimits.LinkKeepsInvIff` | proj4/OS_Proj4/file.c:154-163 | a successful ln keeps the invariant if and only if its source is not a directory |
| `FileSystemLimits.MakeDirKeepsInvIff` | proj4/OS_Proj4/directory.c:28-41 | a successful mkdir keeps the invariant if and only if there was a free block |
| `FileSystemLimits.CommandKeepsInvIff` | proj4/OS_Proj4/fs.c:120-185 | a command keeps the invariant if and only if it fails, or is neither a link to a directory nor a directory made without a free block |
| `FileSystemLimits.ShiftRenames` | proj4/OS_Proj4/file.c:126-129 | in every state with room for two files: after creating `a`, creating the shorter `b` and removing `a`, nothing is found under `b`, and its file is found under `b` with the tail of `a` |
| `FileSystemLimits.ShiftRenamesAtOnce` | proj4/OS_Proj4/file.c:126-129 | so it is on a freshly formatted disk |
| `FileSystemLimits.LinkToDotFails` | proj4/OS_Proj4/file.c:137-166 | on a freshly formatted disk, ln of "." under any name succeeds and loses the invariant |
| `FileSystemLimits.MakeDirOnFullDiskFails` | proj4/OS_Proj4/directory.c:28-41 | a file that takes the last blocks and then any new directory: both succeed, and the second loses the invariant |
| `FileSystemModel.LargeIffIndirect` | proj4/OS_Proj4/file.c:376 | the size test of create and copy agrees with the block-count test of cat and rm |
| `Bitmaps.ToggleFlips` | proj4/OS_Proj4/fs_util.c:20-28 | exclusive or with a shifted one flips one bit and no other |
| `Bitmaps.Bitmap.SetBit` | proj4/OS_Proj4/fs_util.c:30-36 | the bit gets the value, the others keep theirs; a value other than 0 and 1 is ignored |
| `FileSystemMachine.Volume.GetInode` | proj4/OS_Proj4/fs_util.c:58-72 | the first free inode is taken and counted, or -1 and no change |
| `FileSystemMachine.Volume.FreeInode` | proj4/OS_Proj4/fs_util.c:74-80 | the bit is cleared, and counted if it was set |
| `FileSystemMachine.Volume.GetBlock` | proj4/OS_Proj4/fs_util.c:82-94 | the first free block is taken and counted, or -1 and no change |
| `FileSystemMachine.Volume.FreeBlock` | proj4/OS_Proj4/fs_util.c:96-102 | the bit is cleared, and counted if it was set |
| `FileSystemMachine.Volume.WriteDiskBlock` | proj4/OS_Proj4/disk.c:17-26 | one block is overwritten; a number out of range is refused |
| `FileSystemMachine.Volume.SearchCurDir` | proj4/OS_Proj4/fs.c:102-112 | the inode of the first entry with that name, or -1 |
| `FileSystemMachine.Volume.ShiftOut` | proj4/OS_Proj4/file.c:126-131 | the in-place shift equals `RemoveEntry`, stale tails included |
| `FileSystemMachine.Volume.FileCreate` | proj4/OS_Proj4/file.c:294-406 | create on the arrays is create on values, with its allocation loops and no failing allocation |
| `FileSystemMachine.Volume.FileCopy` | proj4/OS_Proj4/file.c:168-289 | copy on the arrays, reading and writing the same disk, is copy on values |
| `FileSystemMachine.Volume.FileRemove` | proj4/OS_Proj4/file.c:68-135 | rm on the arrays is rm on values, block by block |
| `FileSystemMachine.Volume.HardLink` | proj4/OS_Proj4/file.c:137-166 | ln on the arrays is ln on values |
| `FileSystemMachine.Volume.FileCat` | proj4/OS_Proj4/file.c:6-66 | what the loops of cat print of a file through one buffer |
| `FileSystemMachine.Volume.DirMake` | proj4/OS_Proj4/directory.c:6-69 | mkdir on the arrays is mkdir on values, also on a disk with no free block |
| `FileSystemMachine.Volume.DirRemove` | proj4/OS_Proj4/directory.c:71-125 | rmdir on the arrays is rmdir on values |
| `FileSystemMachine.Volume.DirChange` | proj4/OS_Proj4/directory.c:127-152 | cd on the arrays is cd on values: save, then load |
| `FileSystemMachine.Volume.MountFresh` | proj4/OS_Proj4/fs.c:47-79 | the formatting branch on the arrays is `Format` of whatever they held |
| `FileSystemMachine.Volume.MountImage` | proj4/OS_Proj4/fs.c:29-45 | everything in memory becomes what the image holds, and the current directory the root's |
| `FileSystemMachine.Volume.Unmount` | proj4/OS_Proj4/fs.c:83-97 | the disk becomes the image of the file system: superblock, bitmaps, inode table block by block, current directory |
| `FileSystemMachine.Volume.ExecuteCommand` | proj4/OS_Proj4/fs.c:120-185 | the dispatcher runs each command, and keeps the invariant exactly when `CommandKeepsInvIff` says so |
| `FileSystemMachine.Volume.Session` | proj4/OS_Proj4/fs_sim.c:28-38 | the command loop is `RunAll` and keeps the invariant |
| `FileSystemRepair.Correct` | OS_Proj_extra/fix.c:30-92 | whatever the bitmaps were overwritten with: if a count no longer agrees, the walk reads each directory of the tree exactly once and leaves exactly the original bitmaps, otherwise nothing changes; the result is the original if and only if a count disagreed or nothing was damaged |
| `FileSystemRepair.Traverse` | OS_Proj_extra/fix.c:73-90 | the stack loop ends, within its array, with every live directory read once |
| `FileSystemRepair.ReadDirectory` | OS_Proj_extra/fix.c:80-89 | the entry loop marks every entry and pushes each directory below once, dot entries never |
| `FileSystemRepair.Helper` | OS_Proj_extra/fix.c:12-28 | the bits of all blocks of an inode are set, and no other changes |
| `FileSystemRepair.CountClear` | OS_Proj_extra/fix.c:40-50 | the number of clear bits |
| `FileSystemRepair.NotSeenBefore` | OS_Proj_extra/fix.c:84-86 | a directory about to be pushed is neither on the stack nor done |
| `FileSystemRepair.StackBound` | OS_Proj_extra/fix.c:35 | the stack and the directories done never exceed the number of inodes |
| `FileSystemRepair.WalkFinds` | OS_Proj_extra/fix.c:75-90 | when the stack is empty the bitmaps are those of the undamaged file system |
| `FileSystemRepair.SeenIff` | OS_Proj_extra/fix.c:53 | damage is seen if and only if it changes how many bits are clear in either bitmap |
| `FileSystemRepair.OneFlipIsSeen` | OS_Proj_extra/fix.c:53 | a single wrong bit in either bitmap is always seen |
| `FileSystemRepair.SwapEscapes` | OS_Proj_extra/fix.c:53 | in every state, swapping a set block bit with a clear one is damage the checker does not see |
| `FileSystemRepair.OverwrittenImageMounts` | OS_Proj_extra/fsck.c:36-40 | an image whose two bitmap blocks were overwritten in any way mounts as a file system that `Correct` speaks of, with the bitmaps of the one unmounted as the ones to restore |
| `MatrixMultiply.DotIsCell` | OS_Proj1/matmul_core.c:6-15 | a row of A times a row of the transpose is the entry of A·B |
| `MatrixMultiply.LinearMult` | OS_Proj1/matmul_core.c:6-15 | the accumulating loop computes that product |
| `MatrixMultiply.Transpose` | OS_Proj1/matmul_core.c:78-85 | the nested loops fill the transpose of B |
| `MatrixMultiply.SerialMatMult` | OS_Proj1/matmul.c:76-85 | every row of the serial result is done |
| `MatrixMultiply.ChildProcess` | OS_Proj1/matmul.c:87-107 | a child sends its whole row, or nothing if it crashes |
| `MatrixMultiply.ScanStep` | OS_Proj1/matmul.c:142-170 | handling one job, finished or crashed, keeps the outstanding rows in the compacted front and the unscanned rest, disjoint from those collected |
| `MatrixMultiply.NextRound` | OS_Proj1/matmul.c:177-183 | at the end of a scan the front is what is left to scan |
| `MatrixMultiply.ParallelMatMult` | OS_Proj1/matmul.c:109-185 | for every crash pattern the rows are collected once each, all are done, and the parent waits once per row and once per crash |
| `MatrixMultiply.MultiplyBothWays` | OS_Proj1/matmul.c:32-70 | the serial and the parallel result both equal A·B |
| `RequestQueue.QueueIsFifo` | proj2/OS_Proj2/webserver.c:17-97 | in every interleaving the requests taken are the first ones accepted, in order, each by one worker; those waiting are still in their slots; semaphores and requests in flight account for every slot |
| `RequestQueue.AcceptsAllArrivals` | proj2/OS_Proj2/webserver.c:23-38 | every socket that `accept` returns before its first failure is queued, in order, and nothing else |
| `RequestQueue.DiesOnlyAtWork` | proj2/OS_Proj2/net.c:137-141 | a worker dies exactly when it is told to while it works on a request, and then holds neither token nor lock |
| `RequestQueue.ReturnsOnlyWhenWatched` | proj2/OS_Proj2/webserver.c:90-96 | a dead worker comes back exactly when the main thread looks at it |
| `RequestQueue.NoOverwrite` | proj2/OS_Proj2/webserver.c:30-34 | the slot the listener writes without the mutex holds no unread request |
| `RequestQueue.ReadsOldest` | proj2/OS_Proj2/webserver.c:47-57 | a worker at its read finds the oldest request not yet taken |
| `RequestQueue.RunKeepsInv` | proj2/OS_Proj2/webserver.c:17-97 | the invariant holds along every schedule, deaths and respawns included |
| `RequestQueue.NeverStalls` | proj2/OS_Proj2/webserver.c:41-96 | from every state of the invariant with an unread request, at most 4 + 7 times the number of workers steps, none of them an accept, lead to the oldest one being read, even if all workers were dead |
| `RequestQueue.AllAreRead` | proj2/OS_Proj2/webserver.c:41-96 | and further steps lead to every accepted request being read, in order |
| `RequestQueue.RoundRespawnsAll` | proj2/OS_Proj2/webserver.c:88-96 | one round of the main thread leaves no worker dead |
| `PetersonLock.MutualExclusion` | examples/thread/pthread_peterson.c:14-41 | no interleaving has both threads in the critical section, and when both are done the count is 2K |
| `PetersonLock.RunKeepsInv` | examples/thread/pthread_peterson.c:14-41 | the invariant of the lock is kept by every schedule |
| `PetersonLock.NeverBothStuck` | examples/thread/pthread_peterson.c:21 | from every reachable state that is not finished, once a thread about to write `turn` has done so, one of the threads finishes an iteration on its own within six steps, so the two never both spin for ever |
| `PetersonLock.BoundedWaiting` | examples/thread/pthread_peterson.c:14-22 | while a thread waits at the lock, the other enters at most once |

## Left out

- Integer width: all counters, sizes and matrix entries are unbounded integers; overflow of C's `int` is not modelled.
- FrameList.List.RemoveTail: not for a list of one node, where `list_remove_tail` follows a null `prev` (`proj3/OS_Proj3/list.c:22`); `RunsThroughIff` says which runs come to that.  Freed and leaked nodes are not distinguished.
- PagingMachine.Simulator.ServeRequest: negative process numbers and addresses, which index the tables out of range, are not modelled, and neither are the lines that `sscanf` rejects, the printed text and the percentage statistics.
- FileSystemRemoval.LinkKeepsInv: only for files; `LinkKeepsInvIff` shows that the restriction is exact.
- FileSystemCreation.MakeDirGrows: only with a free block; `MakeDirKeepsInvIff` shows that the restriction is exact.
- FileSystemMachine.Volume.FileCat: what cat prints of a directory, the raw bytes of its block, is not modelled, since blocks are typed values (data, pointers or a listing).
- FileSystemRuns.CommandKeepsTree: only for admissible commands; `CommandKeepsInvIff` shows that the restriction is exact.
- FileSystemMachine.Volume.Session: only for sequences of admissible commands, since after another one the invariant is gone.
- PagingMachine.Simulator.Drive: no negative process numbers and addresses, as for `ServeRequest`.
- FileSystemMachine.Volume.ExecuteCommand: commands with missing arguments, unknown commands and the read-only `ls`, `stat` and `df` are not modelled; they change nothing.
- FileSystemImage.RemountKeepsInv: for the program's own table of 512 inodes, which fills the reserved blocks; the blocks of the image are typed values; the layout of their bytes, the magic number beyond being a superblock, and reading and writing the image file are not modelled.
- FileSystemRepair.Correct: the image must come from a state that satisfies the invariant with only the bitmaps overwritten; damaged inodes, directories or superblocks are not modelled.
- FileSystemModel.CStr: a 20-byte name buffer without a NUL is read as 20 characters; in C the string would run on into the inode number that follows.
- Random characters and uninitialised memory are inputs: the buffer create writes from (its tail may be anything) and what a new directory's block held before.  Pointer slots beyond those in use are not represented.
- MatrixMultiply.ChildProcess: a pipe holds a whole row and a child that crashes does so before it writes; what a child writes is modelled when the parent waits for it.  Processes that cannot be forked are not modelled.
- RequestQueue.QueueIsFifo: sequential consistency and sound semaphores and mutex are assumed; the work done on a request and the sockets are not modelled.
- PetersonLock.MutualExclusion: sequential consistency is assumed, as the fence in `lock` intends; weak memory is not modelled.
- The threads of the queue and of the lock are a state machine on values, not methods on shared fields, since their steps interleave.
- `old_3` and `old_4` are earlier versions of what is here; the other programs under `examples` are demonstrations; the HTTP code and the client of `proj2` and the input generators are plumbing around what is here.
