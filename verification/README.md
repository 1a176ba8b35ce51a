# A verified model of the xv6 core

Dafny models of the parts of this RISC-V xv6 tree whose correctness is hardest to see: the
crash-atomic log and the buffer cache below it, block ownership and file contents, the Sv39
page tables with fork, exec and user copies, the Kernighan and Ritchie allocator, the
concurrency protocols (sleep and wakeup, sleep locks, exit and wait, log admission, the virtio
queue, pipes), and the two small languages in user space (the shell's command parser and the
pattern matcher of grep). Code that mutates state is a class whose methods keep the source's
loops, order of writes and error paths; each is proved against a specification on values.

| file | models |
|---|---|
| Common.dfy | bytes, ring positions and set sizes, shared by the others |
| Blocks.dfy | disk blocks, 32-bit words and bits inside them |
| BufferCache.dfy | kernel/bio.c |
| LogSpec.dfy, Log.dfy, LogAdmission.dfy | kernel/log.c: what the disk means, the code over the cache, admission over all runs |
| FsSpec.dfy, FsDisk.dfy, FsLaws.dfy, FsRoom.dfy, Fs.dfy | kernel/fs.c (free map, inodes on disk, bmap, itrunc, readi, writei) and the write path of kernel/file.c |
| FsCrash.dfy, FsLog.dfy | file operations through the log: what a crash leaves of them, and their log_write calls |
| VmSpec.dfy, VmSubtree.dfy, Vm.dfy, VmCopy.dfy, VmExec.dfy, VmGrow.dfy | kernel/kalloc.c, kernel/vm.c, kernel/exec.c and the memory side of kernel/proc.c |
| SleepWakeup.dfy, Procs.dfy | kernel/proc.c (sleep, wakeup, exit, wait, reparent, kill, fork) and kernel/sleeplock.c |
| Virtio.dfy | kernel/virtio_disk.c with the device as a second party |
| Pipe.dfy | kernel/pipe.c |
| Umalloc.dfy | user/umalloc.c |
| ShellSpec.dfy, ShellGrammar.dfy, ShellPrint.dfy, ShellLaws.dfy, Shell.dfy | user/sh.c, from gettoken to nulterminate |
| Grep.dfy | match, matchhere and matchstar of user/grep.c |

A panic is a precondition of the method that contains it, or an outcome where the caller cannot
rule it out (log_write, virtio_disk_intr, the shell); then the contract says exactly when it
happens. Locks: a critical section is one step, except in SleepWakeup, where the order of two
locks is the point and every lock operation is a step of its own.

The storage stack meets in four places. Log.Log.Good is what holds whenever log.lock is free, and
every method of the log keeps it while making one step of the admission protocol of LogAdmission.
Log.CommitIsTxn makes the commit of the code a transaction of the crash model of LogSpec. FsCrash
runs the operations of Fs through such transactions: over any history of crashes the disk holds a
consistent file system with the files of the last operation that survived. FsLog.ChunkThroughLog runs
a chunk of filewrite from begin_op to end_op through the code of the log.

Where the code does not keep a promise one might expect of it, the exact condition is proved:

- mkfs makes the log one block too small for LOGSIZE, so operations that respect their budget can
  still panic (LogAdmission.MkfsLogTooSmall); with a large enough log, log_write panics on a full
  list even for a block it would absorb (LogAdmission.AbsorbedWritePanics, PanicExactly).
- LOGSIZE equals NBUF. A commit beside which nobody holds a buffer finds one for its log blocks on
  every run if the log region has at most LOGSIZE blocks, as mkfs makes it (Log.CommitFindsBuffer);
  on every larger one a run reaches a commit with NBUF blocks listed (Log.CommitWithoutBuffer), and
  then there is none (Log.PinsRoomExact, which also counts buffers others hold).
- malloc passes its size to sbrk as an int: requests above 2^31 - 32 bytes get less memory than the
  block malloc lays out, or give memory back (Umalloc.SbrkArgument, SbrkTurnsNegative). The heap
  stays sound exactly unless sbrk grants such a request (Umalloc.Heap.Malloc).
- A new process is born killed if and only if a kill(0) marked its entry since it was last freed
  (Procs.Table.AllocProc); Procs.Table.KillZeroThenFork is such a run.
- A write whose source becomes unreadable leaves bytes in a cached block, neither counted in the
  result nor logged, if and only if that happens after the first byte and not on a block boundary, at a
  byte for which there are enough free blocks (FsRoom.Torn in Fs.FileSystem.Writei; inside the file the
  last condition always holds, FsRoom.InsideTorn). For filewrite a chunk's start counts like a block
  boundary (FsRoom.FileTorn in Fs.FileSystem.Filewrite). Fs.FileSystem.TornRun is such a run.
- sbrk by more than the negative of the size wraps around and changes nothing (VmGrow.Growproc).
- Sector numbers are computed in 32 bits, so blocks 2^31 apart collide (Virtio.SectorExact).
- piperead loses a byte if and only if copyout reaches fewer bytes than there are to read
  (Pipe.Pipe.Read); Pipe.ByteLost is such a run.
- pipewrite leaves a reader asleep beside waiting bytes if and only if the writer's kill arrives after
  it stored bytes while a reader slept (Pipe.Pipe.Write); Pipe.SleeperLeftBehind is such a run.
- exec stores past its array of stack pointers if and only if it gets exactly MAXARG arguments whose
  strings fit the stack page (VmExec.PushArgs), for example empty ones (VmExec.OverrunHappens);
  sys_exec never passes that many.

## Model

| member | source | states |
|---|---|---|
| Blocks.PutBitBits | kernel/fs.c:75-77 | writing one bit of a bitmap block changes that bit and no other bit of the block |
| BufferCache.Bcache.constructor | kernel/bio.c:36-53 | an empty cache shows the disk: ring well formed, nothing referenced, every block reads as on disk |
| BufferCache.Bcache.Bget | kernel/bio.c:58-89 | a cached block is found again; otherwise exactly the unreferenced buffer with the oldest move to the front is recycled; one more reference, invariant kept |
| BufferCache.Bcache.FindUnused | kernel/bio.c:75-87 | the backwards scan yields an unreferenced buffer whose last move to the front is the oldest |
| BufferCache.Bcache.Bread | kernel/bio.c:92-103 | the locked buffer holds the block's current contents, the last bytes written through the cache or else the disk's |
| BufferCache.Bcache.Bwrite | kernel/bio.c:106-112 | exactly one disk block changes, to the buffer's bytes, and the write is the next entry of the disk's write trace |
| BufferCache.Bcache.Brelse | kernel/bio.c:116-137 | one reference fewer; the last one makes this buffer the most recently used; no unwritten change is dropped |
| BufferCache.Bcache.Bpin | kernel/bio.c:139-144 | one more reference on a held block and no other change |
| BufferCache.Bcache.Bunpin | kernel/bio.c:146-151 | one reference fewer on a held block and no other change |
| BufferCache.UnlinkLinked | kernel/bio.c:128-129 | unlinking a buffer by its neighbours' pointers leaves a well formed ring of the others in the same order |
| BufferCache.PushFrontLinked | kernel/bio.c:130-133 | linking a buffer behind the head leaves a well formed ring with it in front |
| BufferCache.AllBusy | kernel/bio.c:88 | if every buffer is referenced then NBUF different blocks are in use, so the panic means what it says |
| LogSpec.HeadRoundTrip | kernel/log.c:86-114 | a header block written from a block list reads back as that list |
| LogSpec.InstallAgain | kernel/log.c:68-83 | an install interrupted after any copy and started over reaches the same home blocks |
| LogSpec.RecoverTraceSafe | kernel/log.c:116-123 | a crash after any write of recovery leaves a disk that recovers to the same home blocks |
| LogSpec.SealedRecovers | kernel/log.c:193-203 | once the header is written, recovery yields every logged block's new contents and no other change |
| LogSpec.CommitAtomic | kernel/log.c:178-203 | a crash after any single disk write of commit recovers to all old home blocks before the first header write and to all new ones from it on |
| LogSpec.HistoryAtomic | kernel/log.c:116-203 | over any sequence of transactions, each crashed anywhere or not, with any number of crashes inside recovery, the home blocks are those of the history where committed transactions ran and the others did not |
| Log.FillHead | kernel/log.c:108-111 | the loop that fills the header block stores exactly the in-memory list |
| Log.PinsLeaveRoom | kernel/log.c:214-235 | with one pin for each listed block and one reference for each buffer handed out, no more buffers are busy than blocks are listed or handed out |
| Log.PinsRoomExact | kernel/log.c:178-191 | with these books, bread of a block that is neither listed nor held finds a buffer if and only if fewer than NBUF blocks are listed or held |
| Log.CommitFindsBuffer | kernel/log.c:178-191 | on every run over a log region of at most LOGSIZE blocks fewer than NBUF blocks are listed |
| Log.CommitWithoutBuffer | kernel/log.c:178-191 | for every larger log region, and wherever the written blocks lie, there is a run that is committing with NBUF blocks listed |
| Log.CommitIsTxn | kernel/log.c:193-203 | the disk a commit leaves is the outcome of its transaction in the crash model, and a crash after any of its writes leaves the disk the model says |
| Log.Log.constructor | kernel/log.c:54-65 | an empty log over a clean cache: every block reads as on disk, the books of references balance, and no operation is under way |
| Log.Log.WriteLog | kernel/log.c:178-191 | each log block gets the cached contents of its home block, one disk write each, in order; pins unchanged, beside any buffers others hold outside the list and the log |
| Log.Log.WriteHead | kernel/log.c:102-114 | one disk write, of the header block, to the in-memory list |
| Log.Log.InstallTrans | kernel/log.c:68-83 | the home blocks get their log blocks in order, and every pin is released exactly once when not recovering; buffers others hold are untouched |
| Log.Log.Commit | kernel/log.c:193-203 | the disk passes through exactly the write trace for which atomicity is proved, and ends with no pins, an empty header and home blocks equal to what the cache showed; others may hold unlisted blocks throughout |
| Log.Log.ReadHead | kernel/log.c:86-97 | the in-memory list becomes the one encoded on disk |
| Log.Log.RecoverFromLog | kernel/log.c:116-123 | the disk becomes the recovered disk through exactly the trace for which interrupted recovery is proved safe, and at boot the invariant of the operations holds from then on |
| Log.Log.LogWrite | kernel/log.c:214-235 | panics exactly when the admission protocol does; otherwise a new block is listed once and pinned once, a listed block is absorbed with no change, and every listed block keeps exactly one pin of the log |
| Log.Log.BeginOp | kernel/log.c:126-142 | one step of the admission protocol, for the class invariant: once admitted, the whole budget is reserved beside everyone else's and list plus reservations fit LOGSIZE; otherwise the process sleeps and could not be admitted |
| Log.Log.EndOp | kernel/log.c:146-159 | one step of the admission protocol: the panic is unreachable, and committing is turned on exactly when no operation is left |
| Log.Log.EndCommit | kernel/log.c:161-175 | reached with nothing outstanding and no block half changed: the commit passes through its write trace, the list is empty afterwards and the next operations may start |
| Log.Log.Update | kernel/log.c:205-213 | bread, change, log_write, brelse: the block reads as changed, is listed, and the disk is as before; it cannot panic with two blocks of the budget to spare on a log region of LOGSIZE blocks |
| Log.Log.Release | kernel/log.c:205-213 | a buffer that is unchanged or was given to log_write may be released: every block that differs from the disk stays pinned |
| LogAdmission.Always | kernel/log.c:126-175 | in every reachable state the list plus the unused budgets fits LOGSIZE, listed blocks are distinct, a commit runs only with nothing outstanding, and nobody sleeps whom the test would admit |
| LogAdmission.PanicExactly | kernel/log.c:214-235 | over all runs end_op never panics, and log_write panics if and only if the list has LOGSIZE entries or fills the log region |
| LogAdmission.CarefulNeverPanics | kernel/log.c:214-235 | operations that make at most MAXOPBLOCKS calls never panic if the log region holds LOGSIZE blocks and a header |
| LogAdmission.FewBlocksNeverPanic | kernel/file.c:149-175 | an operation that writes at most MAXOPBLOCKS - 2 different blocks, however often and whatever the others do, never panics on a log region of LOGSIZE blocks or more |
| LogAdmission.ListBound | kernel/log.c:214-235 | on every run the list is shorter than the log region |
| LogAdmission.AbsorbedWritePanics | kernel/log.c:220-221 | for every larger log, and wherever the written blocks lie, there is a run, within the budgets of new blocks, whose next log_write panics on a block that is already listed |
| LogAdmission.MkfsLogTooSmall | mkfs/mkfs.c:25 | with nlog == LOGSIZE, and wherever the written blocks lie, there is a run of careful operations whose next log_write panics |
| FsSpec.OwnershipMeans | kernel/fs.c:382-453 | the ownership invariant in plain terms: all nonzero block numbers of all inodes are distinct, in the data area and marked; every marked data block belongs to an inode |
| FsSpec.AllocSlot | kernel/fs.c:382-421 | a zeroed free block put into an empty direct slot or as indirect table keeps ownership, the new table having no entries |
| FsSpec.AllocEntry | kernel/fs.c:407-415 | a free block put into an empty table entry keeps ownership |
| FsSpec.FreeSlot | kernel/fs.c:432-437 | freeing a direct block keeps ownership |
| FsSpec.FreeEntry | kernel/fs.c:442-445 | freeing the block of a table entry keeps ownership of all that is still reachable |
| FsSpec.FreeTable | kernel/fs.c:447-448 | freeing the table after its entries keeps ownership |
| FsSpec.SlotOwned | kernel/fs.c:91-105 | a block reachable from an inode is marked, so freeing it cannot panic |
| FsSpec.PatchBytes | kernel/fs.c:516-528 | overwriting bytes of one mapped block splices exactly those bytes into the file's contents |
| Fs.FileSystem.Balloc | kernel/fs.c:65-88 | the lowest unmarked block, marked and zeroed, no other bit or block changed, both changes logged; 0 exactly when every block is marked |
| Fs.FileSystem.Bfree | kernel/fs.c:91-105 | exactly one bit is cleared; the panic is the complement of the precondition |
| Fs.FileSystem.Bmap | kernel/fs.c:382-421 | the block of a file's n-th block, the same as before if there was one, otherwise a fresh zero block; 0 exactly when its empty slots outnumber the free blocks, which otherwise shrink by just that many; of the inode only the block addresses change; ownership and all other files kept |
| Fs.FileSystem.Itrunc | kernel/fs.c:425-453 | the file is empty on disk and in memory, owns nothing, and every other file keeps its blocks and bytes; only free-map blocks and the inode block are logged, and they are all that changed |
| Fs.FileSystem.Iupdate | kernel/fs.c:225-241 | the bytes of the inode block now decode to the in-memory inode, type, device numbers, link count, size and addresses, and to the same other inodes; no file's contents change, and the block is logged |
| Fs.FileSystem.Readi | kernel/fs.c:471-496 | exactly the requested slice of the contents clipped to the size; nothing is allocated or changed |
| Fs.FileSystem.Writei | kernel/fs.c:505-539 | refused exactly when out of range; otherwise the contents are the old ones with the written bytes spliced in, type, device numbers and link count stay, and every other file is untouched; how many bytes count and how many reach the cache is determined by offset, length, free blocks and where the source ends, and a block is left changed and unlogged exactly if the source ends inside it |
| Fs.FileSystem.Filewrite | kernel/file.c:148-175 | over all chunks the file has the written prefix spliced in and keeps its attributes, other files untouched; how far it gets is determined by the inputs, all of it exactly if it fits the largest file, the free blocks and the readable source; each chunk is one operation that leaves a consistent disk, changes only what it logs and logs at most seven blocks, and a block is left unlogged exactly if the source ends inside a block and a chunk |
| Fs.FileSystem.TornRun | kernel/fs.c:516-528 | on any file of two bytes or more: a write of two from a source that ends after one counts nothing, changes the first byte in the cache and leaves its block unlogged |
| FsRoom.TornExactly | kernel/fs.c:516-528 | bytes reach the cache uncounted if and only if the source ends inside a block for which there is room; all is written if and only if the source reaches and there is room |
| FsRoom.OutcomeUnique | kernel/fs.c:516-533 | the inputs determine what writei counts and what reaches the cache |
| FsRoom.InsideTorn | kernel/fs.c:516-528 | inside the file, a block is left unlogged if and only if the source ends early and off a block boundary |
| FsRoom.FileTornExactly | kernel/file.c:157-175 | the same for filewrite, where chunk starts count like block boundaries |
| FsRoom.PayOn | kernel/fs.c:382-421 | mapping a range of file blocks in pieces needs and takes as many free blocks as mapping it at once |
| FsLaws.ChunkFits | kernel/file.c:155-174 | at any offset, a chunk logs at most seven distinct blocks, within MAXOPBLOCKS - 2 |
| FsLaws.WroteOn | kernel/file.c:157-174 | chunk by chunk: writes that continue one another are one write |
| FsDisk.InodeRoundTrip | kernel/fs.c:231-238 | an inode, with all its fields, written into its place in a block reads back, and the block's other inodes stay |
| FsDisk.InodeWritten | kernel/fs.c:225-241 | writing one inode block changes that inode of the disk and no other |
| FsDisk.FsFrame | kernel/fs.h:8-13 | ownership and file contents do not depend on any block before the free map |
| FsDisk.ConsistentFrame | kernel/fs.h:8-13 | disks that agree from the inodes on hold the same file system, byte for byte |
| FsCrash.StepFits | kernel/log.c:214-235 | an operation that logs at most LOGSIZE blocks, and fewer than the log region has, fits one transaction |
| FsCrash.TxnLands | kernel/log.c:193-203 | whatever its crash point, a transaction leaves the disk as the operation it carries left it, or as before |
| FsCrash.CrashSafe | kernel/log.c:10-24 | over any history of file operations, crashes and interrupted recoveries, the disk holds a consistent file system whose files are byte for byte those of the last operation that survived |
| FsCrash.GroupOk | kernel/log.c:10-24 | operations one after the other are one operation that logs what any of them logged |
| FsCrash.GroupCrashSafe | kernel/log.c:10-24 | when several operations share a transaction, they survive together or not at all, over any history |
| FsCrash.WriteCutShort | kernel/file.c:148-175 | a filewrite cut short by a crash at any block write: after recovery the file holds exactly the chunks whose operations survived, and no other file changed |
| FsLog.Submit | kernel/log.c:214-235 | the log_write calls of an operation on at most MAXOPBLOCKS - 2 different blocks, however many calls: none panics on a log region of LOGSIZE blocks, and reads then show all of them |
| FsLog.ChunkThroughLog | kernel/file.c:157-168 | a chunk of filewrite from begin_op to end_op never panics and runs exactly if the log admits it; it returns -1 exactly if writei refuses, otherwise the number of bytes that offset, length, free blocks and readable source determine, and the file has them spliced in; what the log shows is then what the file system shows, and it commits exactly if no other operation is under way, after which the disk itself holds the file with the new bytes |
| VmSpec.PxInjective | kernel/riscv.h:354-363 | the three table indices determine the page number below MAXVA |
| VmSpec.AddMid | kernel/vm.c:85-103 | hanging an empty level-1 table into the root keeps the tree and every translation |
| VmSpec.AddLow | kernel/vm.c:85-103 | hanging an empty level-0 table into a level-1 table keeps the tree and every translation |
| VmSpec.SetLeaf | kernel/vm.c:142-165 | writing one level-0 entry changes that translation and no other |
| VmSubtree.PagesOfRoot | kernel/vm.c:271-287 | the pages below the root are all the table pages of the space |
| VmSubtree.PagesDisjoint | kernel/vm.c:271-287 | sibling subtrees share no page, and no table lies below itself |
| VmSubtree.EmptyTree | kernel/vm.c:271-287 | a space without translations has no leaf entry at any level |
| Vm.Vm.Kalloc | kernel/kalloc.c:68-82 | one page leaves the free set, or 0 exactly when it is empty |
| Vm.Vm.Kfree | kernel/kalloc.c:46-63 | exactly one page joins the free set |
| Vm.Vm.Walk | kernel/vm.c:85-103 | the table that holds the page's entry; missing tables come from free pages and change no translation; 0 only without such a table, with alloc only when memory is exhausted |
| Vm.Vm.Mappages | kernel/vm.c:142-165 | exactly the pages touched by the range translate to consecutive pages; on failure a prefix of them, with no page lost |
| Vm.Vm.Uvmunmap | kernel/vm.c:170-192 | exactly the named translations vanish, and their pages become free exactly when asked |
| Vm.Vm.Uvmcreate | kernel/vm.c:196-205 | an empty tree of one page, or no change exactly when no page is free |
| Vm.Vm.Uvmalloc | kernel/vm.c:225-249 | user memory grows by zeroed pages of its own; fails only when kalloc found no page, and then all translations are as before and only tables still in the tree have left the free set |
| Vm.Vm.Uvmdealloc | kernel/vm.c:255-267 | exactly the pages above the new size are unmapped and freed |
| Vm.Vm.Freewalk | kernel/vm.c:271-287 | every page of a leafless subtree is freed once; the leaf panic is unreachable |
| Vm.Vm.Uvmfree | kernel/vm.c:291-297 | every user page and every table page is freed exactly once |
| Vm.Vm.Uvmcopy | kernel/vm.c:305-333 | the child gets the same flags and bytes on pages of its own; fails only when kalloc found no page, and then it is empty again and no leaf page is lost; the parent is only read |
| Vm.Vm.ProcPagetable | kernel/proc.c:187-217 | a space that maps only trampoline and trapframe; fails only when kalloc found no page, with the free set as before |
| Vm.Vm.ProcFreepagetable | kernel/proc.c:221-227 | all tables and user pages are freed once; trampoline and trapframe pages are not |
| Vm.Vm.Fork | kernel/proc.c:290-308 | on success the child's trapframe, tables and pages are exactly what left the free set and its memory equals the parent's; fails only when kalloc found no page, with the free set as before; the parent is untouched |
| VmCopy.Walkaddr | kernel/vm.c:108-126 | the physical page exactly for pages that are valid and user accessible |
| VmCopy.Copyin | kernel/vm.c:376-396 | succeeds if and only if every page of the range is accessible; yields the bytes there, on failure those before the first inaccessible page |
| VmCopy.Copyout | kernel/vm.c:351-371 | succeeds if and only if every page is accessible; exactly the bytes before the first inaccessible page are stored |
| VmCopy.Copyinstr | kernel/vm.c:402-439 | succeeds with the bytes before the first NUL, fails only after max bytes or at an inaccessible page |
| VmCopy.FindNul | kernel/vm.c:417-430 | the number of bytes before the first NUL |
| VmCopy.CopyRoundTrip | kernel/vm.c:351-396 | what was copied out can be copied in, across page boundaries |
| VmCopy.CopyElsewhere | kernel/vm.c:351-371 | bytes outside the range stay |
| VmCopy.CopyIsolated | kernel/vm.c:305-371 | a copy into one space changes no translation and no byte of a space on other pages |
| VmCopy.ForkIsolates | kernel/vm.c:305-333 | after fork, parent and child read the same everywhere, with the same permissions, and lie on disjoint pages |
| VmExec.LoadOne | kernel/exec.c:53-70 | a loaded segment lays the bytes readi finds at its offset over the image, zero above them; the size becomes the larger of the old one and the segment's end; pages it adds are readable, executable and writable as its flags say, earlier pages keep their permissions; turned down only for a bad header, a short file or no memory |
| VmExec.Loadseg | kernel/exec.c:147-166 | page by page exactly the file's bytes from the 32-bit offset on reach the image; fails exactly if the file is short, and the address panic is unreachable |
| VmExec.LoadAll | kernel/exec.c:53-70 | the size is the largest segment end; each byte of the image is the one of the last segment that covers it, and zero where none does; each page is executable and writable exactly if the first segment that reached it is; stops only at a segment that is turned down or without memory |
| VmExec.SizeIsLargest | kernel/exec.c:58-67 | the size is the end of some loaded segment, or 0, and no loaded segment ends above it |
| VmExec.AboveZero | kernel/exec.c:58-67 | no segment reaches above the size, so grown memory starts zero |
| VmExec.Uvmclear | kernel/vm.c:337-346 | one page becomes inaccessible to user mode and keeps its other permissions; all bytes and other pages stay |
| VmExec.PushArgs | kernel/exec.c:90-111 | for any number of arguments: succeeds if and only if there are fewer than MAXARG and strings and pointers fit one page; then every argument lies at its computed place, aligned and NUL-terminated, the pointer array below points to them, and the image below is untouched; overruns its array exactly for MAXARG strings that fit |
| VmExec.OverrunHappens | kernel/exec.c:91-102 | MAXARG empty arguments overrun the array |
| VmExec.FitShift | kernel/exec.c:90-107 | whether the arguments fit does not depend on where the stack page lies |
| VmExec.PointerAt | kernel/exec.c:104-111 | slot j of the stored array decodes to the address of argument j |
| VmExec.LittleEndianRoundTrip | kernel/exec.c:104-111 | a number's stored bytes decode to it |
| VmExec.Build | kernel/exec.c:53-111 | on success a complete program image: all segments up to their largest end rounded up, an inaccessible guard page, a stack page that is writable and not executable, and the arguments on it; on either outcome the books of pages balanced, and failure only for a named reason; an overrun only for MAXARG strings that fit |
| VmExec.Exec | kernel/exec.c:22-141 | fails only for a bad header or segment, too many arguments or ones that do not fit, or no memory, and then the free set and all other memory are as before; on success exactly the old image's pages were given back and the new space, two pages larger than the largest segment end rounded up, holds program, guard page and arguments with the permissions of its segments; an overrun only for MAXARG strings that fit |
| VmGrow.Freerange | kernel/kalloc.c:33-40 | exactly the whole pages of the range become free |
| VmGrow.Growproc | kernel/proc.c:270-286 | the size moves by n with zeroed or freed pages; fails only when kalloc found no page, with user memory as before; a decrease beyond the size changes nothing |
| SleepWakeup.StepInv | kernel/proc.c:581-626 | every single step of every process keeps the lock discipline and owes each waiter a wakeup that is still ahead of it |
| SleepWakeup.NoLostWakeup | kernel/proc.c:581-626 | in every run, once the condition holds and lk is free or no wakeup is pending, no process is asleep on it or committed to sleep |
| SleepWakeup.ReleaseFirstLoses | kernel/proc.c:593-594 | if sleep released lk before taking p->lock, a run exists that ends with the condition true and a process asleep |
| SleepWakeup.CanFallAsleep | kernel/proc.c:581-600 | in every state of every run, a process that holds lk and finds the condition false can take its own lock, release lk and be asleep, whatever the others are doing |
| SleepWakeup.SleeperReturns | kernel/proc.c:581-626 | from every state of every run in which the condition holds, a process in sleep can be woken and come back to hold lk with the condition true |
| SleepLocks.FreeLockHasNoSleeper | kernel/sleeplock.c:21-41 | in every run a free sleep lock whose spinlock is free has nobody asleep on it |
| SleepLocks.Exclusive | kernel/sleeplock.c:21-41 | from taking a sleep lock to giving it back, its holder stays the holder |
| Procs.Table.constructor | kernel/proc.c:243-266 | with only init, the protocol's invariant holds |
| Procs.Table.Wakeup | kernel/proc.c:612-626 | exactly the other processes asleep on the channel become runnable |
| Procs.Table.Reparent | kernel/proc.c:365-376 | p's children, and no others, become init's; init, and nobody else, is woken if there were any |
| Procs.Table.Exit | kernel/proc.c:381-421 | the process is a zombie with its status and a living parent who is not asleep in wait; its children are init's; exactly the parent, and init if there were children, are woken, and no other entry changes; its pid is booked as exited once |
| Procs.Table.Wait | kernel/proc.c:425-470 | reaps the first zombie child of the caller, whose pid was never reaped, exactly if there is one and its status can be copied; fails without one only if childless or killed; sleeps only beside living children |
| Procs.Table.Kill | kernel/proc.c:631-650 | for any int: succeeds exactly if some entry has the pid, and then exactly the first such entry is marked and woken; a pid other than 0 names a process, pid 0 an unused entry |
| Procs.Table.AllocProc | kernel/proc.c:120-161 | the first unused entry gets a pid no other process has or had; fails exactly when there is none or no memory, and then the entry is free again; the new process is killed if and only if a kill(0) marked the entry |
| Procs.Table.KillZeroThenFork | kernel/proc.c:631-650 | from any state with a free entry, kill(0) and the first half of fork give a process that is born killed |
| Procs.Table.ForkParent | kernel/proc.c:328-330 | the new child has a living parent before it can run |
| Procs.Table.ForkEnd | kernel/proc.c:332-334 | the child becomes runnable, invariant kept |
| Procs.Table.ForkAbort | kernel/proc.c:302-306 | a failed fork gives its entry back |
| Procs.Table.Schedule | kernel/proc.c:480-520 | the scheduler's switch to a runnable process keeps the protocol's invariant |
| Procs.Table.Yield | kernel/proc.c:548-556 | giving up the processor keeps the protocol's invariant |
| Procs.Table.SleepOn | kernel/proc.c:581-609 | sleeping on any other channel keeps the protocol's invariant |
| Procs.AdoptOk | kernel/proc.c:365-376 | handing one child to an awake init keeps every parent alive and no zombie waiting |
| Procs.ZombieOk | kernel/proc.c:405-414 | a childless process with an awake parent may become a zombie |
| Procs.ReapOk | kernel/proc.c:166-183 | freeing a zombie keeps the invariant, and its pid was exited and not reaped |
| Virtio.SectorExact | kernel/virtio_disk.c:218 | the 32-bit sector is the block's exactly below block 2^31; above, it is another block's |
| Virtio.RingTake | kernel/virtio_disk.c:310-324 | the 16-bit positions decide emptiness and name the right entry, however often they wrapped |
| Virtio.RingPut | kernel/virtio_disk.c:271-277 | an entry put into a ring with room overwrites none that waits |
| Virtio.AtMostTwo | kernel/virtio_disk.c:201-213 | every request holds three descriptors, so at most two are in flight and the others are free |
| Virtio.Disk.constructor | kernel/virtio_disk.c:144-146 | all descriptors free, nothing in flight |
| Virtio.Disk.AllocDesc | kernel/virtio_disk.c:156-166 | the lowest free descriptor, or -1 exactly when none is free |
| Virtio.Disk.FreeDesc | kernel/virtio_disk.c:169-182 | one descriptor becomes free and blank; the two panics are the complement of the precondition |
| Virtio.Disk.Alloc3Desc | kernel/virtio_disk.c:201-213 | three different free descriptors exactly if three are free, otherwise the free set is restored |
| Virtio.Disk.FreeChain | kernel/virtio_disk.c:185-197 | exactly the three descriptors of the chain become free |
| Virtio.Disk.Start | kernel/virtio_disk.c:215-282 | for every block number: waits exactly when two requests are in flight; otherwise posts a chain that shares no descriptor and that the device will read as this request |
| Virtio.Disk.DeviceTake | kernel/virtio_disk.c:271-277 | the device reads a posted request that nobody took before |
| Virtio.Disk.DeviceComplete | kernel/virtio_disk.c:235-264 | following the descriptors moves exactly one block in the requested direction, in any order of completion; on an error anything may be left in the place the block should have gone to, and nowhere else |
| Virtio.Disk.Intr | kernel/virtio_disk.c:294-327 | panics exactly if the device reported an error; otherwise exactly the completed requests are reported, each once |
| Virtio.Disk.Finish | kernel/virtio_disk.c:284-292 | once b->disk is 0, this buffer's own request was served, buffer and disk block agree, and its descriptors are free again |
| Virtio.ServedOnce | kernel/virtio_disk.c:284-287 | b->disk is 0 only after this buffer's own request completed, with buffer and disk equal |
| Pipe.Counters | kernel/pipe.c:88 | occupancy, emptiness and fullness computed modulo 2^32 are the true ones |
| Pipe.Pipe.constructor | kernel/pipe.c:33-36 | an empty pipe with both ends open |
| Pipe.Pipe.Close | kernel/pipe.c:58-74 | one end closes and the other end's sleepers are woken; the pipe is freed exactly when both are closed |
| Pipe.Pipe.Write | kernel/pipe.c:76-103 | exactly the bytes up to the first of: all written, kill, reader gone, full, unreadable source; sleeps only when full; -1 exactly if the reader is gone or the kill arrived; a sleeping reader is left beside bytes exactly in the case of -1 after bytes were stored |
| Pipe.Pipe.Read | kernel/pipe.c:105-130 | exactly the oldest bytes not yet taken, as many as asked for, present and storable; a byte is taken and not delivered if and only if fewer can be stored than there are to read; 0 bytes only at end of file; wakes every writer |
| Pipe.ByteLost | kernel/pipe.c:120-126 | a run in which two bytes are asked for, one can be stored, and the other is gone |
| Pipe.SleeperLeftBehind | kernel/pipe.c:84-87 | a run in which a killed writer leaves a reader asleep beside a waiting byte |
| Umalloc.BlocksDisjoint | user/umalloc.c:24-90 | two blocks, free or live, never overlap |
| Umalloc.UnitsConserved | user/umalloc.c:24-90 | the sizes of free and live blocks add up to the units obtained from sbrk |
| Umalloc.StopExactly | user/umalloc.c:30-32 | the search of free stops exactly at the one place where the block belongs |
| Umalloc.Freed | user/umalloc.c:33-43 | after free's assignments the ring is address ordered with one wrap point and no two neighbours adjacent, and no other live block changed |
| Umalloc.Absorb | user/umalloc.c:33-42 | merging two adjacent ring blocks keeps the ring and gives every unit one owner |
| Umalloc.TakeTail | user/umalloc.c:79-81 | the tail of a larger block becomes a live block of its own, the rest stays in the ring |
| Umalloc.TakeWhole | user/umalloc.c:76-77 | a block of the exact size leaves the ring, the neighbours staying apart |
| Umalloc.SbrkArgument | user/umalloc.c:54 | sbrk receives the block's bytes if and only if nbytes is at most 2^31 - 32; otherwise fewer |
| Umalloc.SbrkTurnsNegative | user/umalloc.c:54 | the first request beyond the limit makes the argument negative |
| Umalloc.Heap.constructor | user/umalloc.c:21-22 | nothing live, nothing obtained |
| Umalloc.Heap.FindSlot | user/umalloc.c:29-32 | the walk from any freep ends at the place where the block belongs |
| Umalloc.Heap.Free | user/umalloc.c:24-44 | the block leaves the live set, all units stay owned, other live blocks keep place and size, and freep is at or before a block at least as large |
| Umalloc.Heap.Morecore | user/umalloc.c:46-61 | for any unit count: fresh units join the ring and live blocks are untouched, or nothing changes; unsound exactly if sbrk grants a size that its int argument changed |
| Umalloc.Heap.Take | user/umalloc.c:75-85 | a new live block of exactly n units out of the ring block, no unit lost |
| Umalloc.Heap.Search | user/umalloc.c:74-89 | terminates with at most one morecore, which is called exactly when no free block is large enough; no unit is lost |
| Umalloc.Heap.Malloc | user/umalloc.c:63-90 | for any uint: a new live block with room for nbytes, disjoint from all others, or 0 exactly when no free block fits and sbrk refuses; unsound exactly if sbrk is asked for and grants more than 2^31 - 32 bytes |
| Umalloc.UnitsFor | user/umalloc.c:69 | the least number of units that holds a header and nbytes |
| ShellLaws.ParsedOk | user/sh.c:328-447 | whatever the input, a parse that does not panic has only whole words of the input as arguments and file names, and argv within bounds |
| ShellLaws.ReadsBack | user/sh.c:450-494 | after NUL termination every argument and file name reads back as its token, no NUL having landed inside another |
| ShellLaws.EndsAreOutside | user/sh.c:450-494 | no place where a NUL is written holds a character of a word |
| ShellGrammar.ScriptGives | user/sh.c:345-447 | at the end of the input or before a closing parenthesis, the parser reads a script of the written grammar (pipelines grouping to the right, lists, any number of &, redirections before, between and after the words, groups) as exactly what it means, and stands behind it |
| ShellGrammar.ScriptHas | user/sh.c:345-447 | whatever the parser accepts from some place on is the tokens of a script with at most nine words per command, and the tree is its meaning |
| ShellGrammar.FlowGives | user/sh.c:362-373 | commands between bars, however many, are read as one pipe grouped to the right |
| ShellGrammar.FlowHas | user/sh.c:362-373 | what the pipeline parser accepts is commands between bars, and its tree is their pipe grouped to the right |
| ShellGrammar.ParsesScript | user/sh.c:328-447 | a text whose tokens are those of a script, however spaced, parses to what the script means |
| ShellGrammar.ParsesExactly | user/sh.c:328-447 | parsecmd accepts a text if and only if its tokens are those of a script with at most nine words per command |
| ShellPrint.TokenIs | user/sh.c:266-309 | gettoken on printed text yields the next token and stands before the one after |
| ShellPrint.LexText | user/sh.c:266-309 | the tokens gettoken finds in printed text are the tokens printed |
| ShellPrint.ParseInvertsText | user/sh.c:328-447 | any way of writing a command with legal words and at most nine per simple command, with redirections and parentheses anywhere the grammar has them, parses to the command written |
| ShellPrint.UnparseMeans | user/sh.c:345-447 | the script printed for a tree means that tree |
| ShellPrint.ParseInvertsPrint | user/sh.c:328-447 | every command tree with legal words and at most nine per command is what parsecmd makes of its text without needless parentheses: pipes and lists flat, & after a bare pipeline |
| ShellPrint.TightExactly | user/sh.c:345-447 | a script is the one printed for what it means if and only if none of its parentheses can be dropped and its redirections follow its words |
| ShellSpec.TokenAt | user/sh.c:266-309 | the token lies at or after the cursor, is nonempty unless the input ended, and kind NUL means the end |
| Shell.Parser.GetToken | user/sh.c:266-309 | the loops over the cursor find the token of the grammar |
| Shell.Parser.Peek | user/sh.c:311-321 | whether the next nonblank character is one of toks, blanks skipped |
| Shell.Parser.ParseLine | user/sh.c:345-360 | terminates with the tree, cursor and panic of the grammar's line |
| Shell.Parser.ParsePipe | user/sh.c:362-373 | terminates with the tree, cursor and panic of the grammar's pipeline, whose meaning ShellGrammar.FlowGives and FlowHas state: any number of commands between bars, grouped to the right |
| Shell.Parser.ParseRedirs | user/sh.c:375-398 | wraps the command in the redirections read, in order |
| Shell.Parser.ParseBlock | user/sh.c:400-414 | a parenthesised line and its redirections; the first panic is unreachable |
| Shell.Parser.ParseExec | user/sh.c:416-447 | the words and redirections of a simple command, with the argument limit |
| Shell.Parser.ParseCmd | user/sh.c:328-343 | the tree of the whole input, or a panic on leftovers |
| Shell.NulTerminate | user/sh.c:450-494 | NULs at the ends of the tree's words and no other byte changed |
| Shell.ParseLineBuffer | user/sh.c:328-343 | after parsecmd every word of the tree is a C string in the line buffer equal to its token |
| Grep.Match | user/grep.c:71-81 | true if and only if some suffix of the text (the text itself after ^) begins with a word of the pattern's language |
| Grep.MatchHere | user/grep.c:84-95 | true if and only if a prefix of the text is in the pattern's language, the whole text if the pattern ends in $ |
| Grep.MatchStar | user/grep.c:98-105 | true if and only if a run of the starred character followed by the rest begins the text |
| Grep.StarStops | user/grep.c:98-105 | when the character stops fitting, no longer run can match |
| Grep.LiteralAnywhere | user/grep.c:71-95 | ordinary characters and dots match exactly the texts that have them somewhere, a dot standing for any one character |
| Grep.LiteralAtStart | user/grep.c:73-74 | after ^ exactly the texts that begin with them |
| Grep.LiteralAtEnd | user/grep.c:90-91 | before $ exactly the texts that end with them |
| Grep.LiteralWhole | user/grep.c:71-95 | between ^ and $ exactly the texts they spell |
| Grep.PlainIsSubstring | user/grep.c:71-105 | a pattern without special characters matches exactly the texts that contain it |

## Left out

- The audit layer (kernel/syscall.c, kernel/audit_source.c, kernel/file_helper.c): its decoding loop does not settle what the calls should record.
- Device registers, UART, PLIC, boot, trap entry, assembly and context switches: hardware effects.
- TLB, memory fences and weak memory ordering: steps are sequentially consistent.
- Directories, path lookup and inode reference counts (kernel/sysfile.c, dirlookup, namex, iget, iput).
- ialloc, and the operations that change the type, device numbers and link count of an inode.
- kernel/list.c and the run queue, the scheduler's choice among runnable processes, and fairness.
- runcmd, printf, user programs other than sh and grep's matcher, mkfs beyond its log size, kernel/ramdisk.c.
- The register copy of fork, open files and working directories in fork and exit.
- wakeup and sleep inside log and disk code: those models treat the wait as leaving and trying again, which SleepWakeup justifies where the waker holds the lock until it has called wakeup; pipes, where it may not call it, keep their sleepers in the model.
- Fs.FileSystem.Writei: that a block changed without being logged can be evicted, and then shows its old bytes again, is not modelled; the crash results are for operations that leave no such block.
- Fs.FileSystem.Filewrite: starts between operations, with every inode in memory written back and nothing unlogged in the cache.
- Log.PinsRoomExact: a process that waits in bget for a buffer's sleep lock already holds a reference; such references are not in the books, so the model's states are those in which nobody waits.
- FsLog.ChunkThroughLog: the chunk's log_write calls follow one another without those of other operations; for those see LogAdmission.FewBlocksNeverPanic.
- Log.Log.EndCommit: the wait for the sleep locks of listed blocks is the caller's, and buffers that others hold are held throughout the commit.
- BufferCache.Bcache.Bget: one device; dev is the constant ROOTDEV, as everywhere in the tree, and the wait for a buffer's sleep lock is the caller's.
- BufferCache.Bcache.Bread: one device, as for bget.
- VmExec.LoadOne: the program header's fields are given instead of parsed from the file; the file is one of at most MAXFILE blocks.
- VmExec.PushArgs: strings shorter than 2^63 bytes; after an overrun nothing is promised.
- VmExec.Exec: after an overrun nothing is promised.
- Vm.Vm.Mappages: hardware accessed and dirty bits are not modelled.
- Umalloc.Heap.Malloc: nothing is promised once it is unsound; sbrk's answer is a parameter above all earlier regions, and sizes are unbounded, the total staying below 2^32 units on any machine this runs on.
- Shell.Parser.ParseExec: the argument array is set in the innermost command of a value instead of through a second pointer to it.
- Procs.Table.Wait: the copy of the exit status to user memory is reduced to whether it succeeds.
- Virtio.Disk.DeviceComplete: descriptor lengths and addresses are reduced to what they name.
- Virtio.Disk.Start: one request per buffer and sector at a time, as the buffer cache ensures below block 2^31.
- Procs.Table.AllocProc: pids are unbounded, and whether there is memory for the new process is a flag; Vm.Vm.Fork says when.
