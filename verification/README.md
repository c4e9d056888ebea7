# Verified model of the kernel core

This project models the core of a small Unix-like teaching kernel and three of its user-level
programs, and proves what that code is meant to guarantee. The kernel parts are the write-ahead
log, the buffer cache, the file system (allocation, file contents, inode cache, directories, path
names), pipes, sleep locks, the process table, physical frames and page tables. The user-level
parts are the heap allocator, the shell's parser and grep's matcher.

`dafny verify dfyconfig.toml` checks everything.

## How it is organised

| files | subject |
|---|---|
| `log_disk`, `atomic_disk`, `log_protocol`, `log_invariant`, `log_refinement`, `log_admission`, `log_code` | group-commit redo log: the on-disk format, the atomic disk it implements, the step machine, its invariant, the refinement, how much log it needs, and the code |
| `fs_steps`, `fs_traces` | the file system as steps that operations interleave, and what one operation does alone |
| `crash_ownership`, `crash_steps` | the log and the file system together: block ownership after any crash |
| `lru_list`, `buffer_cache` | the buffer list and the cache as a plain map of blocks |
| `fs_layout`, `fs_ownership`, `fs_files`, `fs_truncate`, `fs_inodes`, `file_system` | bitmap, block ownership, file contents, free and allocated inodes, and the code over them |
| `inode_cache`, `dir_map`, `directories`, `paths` | inode cache, directories as maps, path walk |
| `pipe`, `pipe_stream`, `sleep_lock` | interleaved step machines, and what pipes carry from end to end |
| `proc_table`, `kill_marks`, `proc_life`, `proc_code` | the process table, who is killed, how slots change state, and the loops over the table |
| `heap_list`, `heap` | the circular coalescing free list and malloc/free on it |
| `page_table`, `frames`, `address_space`, `frame_budget`, `vm`, `ledger` | two-level page tables, the frame list, what mapping costs, the routines of vm.c, and who holds each frame |
| `shell_grammar`, `shell_print`, `shell_typed`, `shell_accepts`, `shell_code`, `shell_line` | grammar, round trip, lines as they are typed and that the parser accepts exactly those, the cursor code, and the line buffer |
| `grep` | the matcher against a declarative language |
| `option` | a value or none |

Concurrent code (log, pipe, sleep lock, process table) is a machine of atomic steps, each one
stretch of code under one lock, and the theorems quantify over every run. Code that updates
structures in place is a class whose methods are proved against functions of the old state. Every
panic is a result value or a stated precondition, and never returns.

## What turned out differently from what one might expect

- `log_write` tests the log's free space before it takes the lock. Two operations can pass the test
  for the last slot together. With the log size that mkfs.c:27 lays out this can overwrite a home
  block. `LogAdmission.CrashAtomicityExactly` gives the exact sizes for which crash atomicity holds.
  The run is at the interface that `begin_op` promises its callers: operations that each log up to
  MAXOPBLOCKS distinct blocks. `FileSystem.FileSys.FileWrite` itself logs at most 7 a transaction.
- A writer killed on a full pipe returns without waking readers (pipe.c:88-91).
  `Pipe.StrandedExactly` and `Pipe.WrongedSince` say that this is the one step after which a reader
  sleeps wrongly; `Pipe.StrandedReader` shows a run.
- `allocproc` never clears the mark that `kill` sets. `KillMarks.BornKilledExactly` says exactly when
  a process is born killed, and three runs show the ways: `kill(0)` on a free slot, a kill during a
  `fork` that fails, and a kill of the pid that a failed `fork` leaves behind.
- `dirlink` on a name that is already there drops the reference it got with `iput`, which takes the
  inode's lock. `Directories.DirLink` says exactly when it has to wait, and when for the lock the
  caller itself holds: exactly for the directory's own name in itself. `Directories.LinkDotTwice` is
  the call that sys_link makes for a new name that ends in "/.".
- Of a buffer that is changed and released without `bwrite` or `log_write` the change can be lost;
  `BufferCache.Bcache.Brelse` says exactly when.
- All buffers start out as block 0 of device 0, so the cache's uniqueness is about other devices.
- `dirlink` stores the inode number in 16 bits; the map it leaves is stated with the cut number.
- `nameiparent` of an empty relative path fails even where the absolute path of the current directory has a
  parent; `Paths.RelativeIsAbsolute` says that relative paths differ from absolute ones there only.
- In the shell `a & b` is an error: only `&`, `;`, `)` or the end can follow a `&`. It reads `>>` as `>`.
  `ShellAccepts.AcceptsExactly` gives the whole language.

## Model

| member | source | states |
|---|---|---|
| `LogDisk.RecoverIsEffective` | log.c:115-122 | running recovery on any disk with a well-formed header leaves exactly the effective home blocks: logged contents where the header names a block, the old contents elsewhere |
| `LogDisk.InstallIsEff` | log.c:68-82 | installing a prefix of the log in order gives each home block the contents of its last entry in that prefix and leaves the others alone |
| `LogInvariant.BeginOpInv` | log.c:125-141 | admitting an operation keeps the invariant, in particular that entries made plus entries still promised fit LOGSIZE |
| `LogInvariant.LogAppendInv` | log.c:213-233 | recording or absorbing a block keeps entries pairwise distinct, pinned and within the reservation |
| `LogInvariant.EndOpInv` | log.c:145-174 | leaving an operation keeps the invariant, and committing starts only with no operation open |
| `LogInvariant.CopyToLogInv` | log.c:177-190 | copying a cached block into the log area keeps the invariant and changes no home block as readers see it |
| `LogInvariant.InstallOneInv` | log.c:69-82 | installing one entry keeps the invariant and what every reader sees |
| `LogInvariant.RecoverOneInv` | log.c:69-82 | installing one entry during recovery keeps the invariant |
| `LogInvariant.EraseInv` | log.c:101-113 | erasing the header after everything is installed keeps the invariant |
| `LogInvariant.CrashInv` | log.c:115-122 | losing all of memory at any point leaves a state recovery can start from |
| `LogInvariant.CachingInv` | bio.c:59-90 | loading a block or recycling an unpinned buffer at any moment keeps the invariant and what readers see |
| `LogRefinement.StepInv` | log.c:69-233 | every step of the protocol keeps the whole invariant |
| `LogRefinement.RunInv` | log.c:69-233 | every state of every run whose entries fit the log area satisfies the invariant, whatever the area's size |
| `LogRefinement.CommitPoint` | log.c:98-113 | the single header write turns the effective disk from the state before the group to the state readers see, all blocks at once |
| `LogRefinement.Simulate` | log.c:69-233 | every step of the log protocol is a step (or no step) of an atomic disk whose groups commit whole |
| `LogRefinement.CrashAtomicity` | log.c:69-202 | as long as entries fit the log area, for every interleaving and every crash between two block writes, also during recovery, the run is a run of the atomic disk, and recovering any reachable disk gives the state after a prefix of the committed groups that includes every group whose commit returned |
| `LogRefinement.WriteAhead` | log.c:177-202 | a home block changes on disk only if the on-disk header already names it, and then to its logged contents |
| `LogRefinement.PinHolds` | log.c:213-233 | a buffer marked by log_write stays cached and pinned until its contents are on disk at home |
| `LogAdmission.NeverPanics` | log.c:145-174 | an open operation implies not committing, so end_op's panic is unreachable; with room left in its reservation it never meets the size panic if the log area exceeds LOGSIZE |
| `LogAdmission.SleepsForReason` | log.c:125-141 | in every reachable state of a fitting run outside a commit, begin_op admits its caller or an operation is open whose end will wake it; an empty log takes exactly three operations at once |
| `LogAdmission.RunFits` | log.c:125-233 | every reachable state of every run has distinct entries that fit the log area, if the area exceeds LOGSIZE or is one block |
| `LogAdmission.Clobbered` | log.c:213-221 | for any log area of 2 to LOGSIZE blocks there is a run in which two operations pass the unlocked size test together and write_log overwrites a home block nobody wrote |
| `LogAdmission.BigLogAtomic` | log.c:69-233 | with a log area above LOGSIZE (or of one block) every run is atomic |
| `LogAdmission.SmallLogNotAtomic` | mkfs.c:27 | with a log area of 2 to LOGSIZE blocks, as mkfs lays out, some run is not atomic |
| `LogAdmission.CrashAtomicityExactly` | log.c:213-233 | crash atomicity holds of every run if and only if the log area is one block or more than LOGSIZE blocks |
| `LogCode.Log.Bread` | bio.c:94-102 | returns what readers see of the block and changes nobody's view |
| `LogCode.Log.CopyOne` | log.c:182-189 | one entry reaches its log block; no home block and no reader's view changes |
| `LogCode.Log.WriteLog` | log.c:177-190 | the loop copies every entry to its log block and changes nothing readers or the home blocks hold |
| `LogCode.Log.EncodeHead` | log.c:101-113 | the header block holds the count and the entries and keeps its other words |
| `LogCode.Log.DecodeHead` | log.c:85-96 | the loop reads back exactly the entries the header block holds |
| `LogCode.Log.CommitHead` | log.c:101-113 | after the header write recovery would find exactly what readers see |
| `LogCode.Log.EraseHead` | log.c:101-113 | after the erase the home blocks hold what the log made effective, and the header is empty |
| `LogCode.Log.InstallOne` | log.c:74-81 | one home block is written and the effective disk stays the same |
| `LogCode.Log.InstallTrans` | log.c:69-82 | the loop keeps the effective disk at every write |
| `LogCode.Log.Commit` | log.c:192-202 | afterwards the home blocks equal what readers saw before, and the log is empty |
| `LogCode.Log.RecoverFromLog` | log.c:115-122 | the home blocks become what recovery of the boot disk defines, and the log is empty |
| `LogCode.Log.BeginOp` | log.c:125-141 | the caller is admitted exactly when not committing and its reservation fits |
| `LogCode.Log.FindEntry` | log.c:224-227 | the absorption search finds the block's entry, or the end exactly when it has none |
| `LogCode.Log.CheckSpace` | log.c:218-221 | the size panic is met exactly when the log has no room left, and never by an operation within its reservation if the log area exceeds LOGSIZE |
| `LogCode.Log.Append` | log.c:223-232 | the part under log.lock records the block once and pins it; the protocol's run goes on exactly if a log block was free for it and the operation keeps to MAXOPBLOCKS blocks, and then entries stay distinct and within LOGSIZE |
| `LogCode.Log.LogWrite` | log.c:213-233 | panics exactly when the log has no room left, with nothing changed; otherwise the block is recorded once and pinned within the log area; the protocol's run goes on exactly if the operation keeps to MAXOPBLOCKS blocks; no panic within the reservation if the log area exceeds LOGSIZE |
| `LogCode.Log.LeaveOp` | log.c:145-163 | the last operation out, and only it, starts the commit |
| `LogCode.Log.LeaveCommit` | log.c:169-172 | committing ends and new operations may enter, with nobody's view changed |
| `LogCode.Log.EndOp` | log.c:145-174 | the call returns with nobody's view changed and, if it was the last out, the group committed |
| `CrashOwnership.SoundExact` | fs.c:53-89 | read out of home blocks that satisfy the file-system invariant, every bitmap bit is set exactly for metadata and for a block that one allocated inode holds in one place |
| `CrashOwnership.AgreesSound` | fs.c:53-89 | the file-system invariant depends only on the inodes, the bitmap and the data blocks |
| `CrashOwnership.FileSysSound` | fs.c:316-490 | home blocks as the file-system routines leave them satisfy the invariant |
| `CrashOwnership.GroupStart` | log.c:125-174 | an open group of operations began in a state with nothing open and nothing being committed |
| `CrashOwnership.SafeRun` | log.c:125-202 | if every group of operations keeps the file-system invariant, what a crash cannot lose and what is being committed satisfy it at every point of the run |
| `CrashOwnership.OwnershipSurvives` | log.c:115-202 | over every run with crashes anywhere, whatever the operations do inside a group: if boot recovery gives a file system with an exact bitmap and every group leaves it so, recovery from the disk at any point gives one |
| `FsSteps.MarkOwn` | fs.c:53-73 | setting a free block's bit makes it a spare block and moves no address, whatever else is half done |
| `FsSteps.ClearOwn` | fs.c:76-89 | clearing a spare block's bit frees it and moves no address |
| `FsSteps.SpareOwn` | fs.c:41-48 | what is written to a spare block changes no ownership |
| `FsSteps.DetachOwn` | fs.c:388-411 | giving up an address makes exactly its block, and for the indirect block all its entries, spare |
| `FsSteps.StepInv` | fs.c:53-490 | every step of balloc, bfree, bmap, writei, itrunc and iupdate keeps block ownership and the inodes nobody holds in step with the disk, for any interleaving of any number of operations |
| `FsTraces.SlotReach` | fs.c:353-381 | bmap's allocation of a slot is the steps mark, zero and store |
| `FsTraces.FreeDirect` | fs.c:393-398 | itrunc on a direct block is the steps detach and clear |
| `FsTraces.DropIndirect` | fs.c:400-411 | giving up the indirect block is one step that makes it and its entries spare |
| `FsTraces.FreeNext` | fs.c:400-411 | each bfree of what the indirect block held is a step |
| `FsTraces.ReachInv` | fs.c:353-490 | whatever one operation does alone keeps ownership |
| `CrashSteps.QuietSound` | fs.c:53-89 | with nothing half done the home blocks are a sound file system |
| `CrashSteps.BootFrom` | fs.c:165-178 | a sound disk can be booted from |
| `CrashSteps.LogMove` | log.c:69-202 | a step of the log, a crash included, keeps the joint invariant; the last end_op of a group finds nothing half done |
| `CrashSteps.WriteMove` | log.c:213-233 | a block changed for a file-system step keeps the joint invariant |
| `CrashSteps.MemMove` | fs.c:353-415 | an inode changed in memory keeps the joint invariant |
| `CrashSteps.InterleavedSurvives` | log.c:115-202 | operations of any number of processes interleaved at every block write, over the log, with crashes anywhere: from a disk that recovers to a file system with an exact bitmap, recovery from the disk at any point gives one |
| `LruList.Unlink` | bio.c:128-129 | joining the neighbours of a listed buffer leaves the same circular list without it |
| `LruList.Push` | bio.c:130-133 | linking a buffer in behind the head leaves the circular list with it in front |
| `BufferCache.Recycle` | bio.c:78-87 | taking over an unreferenced clean buffer for an uncached block changes no block's contents |
| `BufferCache.Change` | memide.c:34-60 | new contents through a locked buffer, on disk too or not, are seen for that block and no other |
| `BufferCache.NotCached` | bio.c:59-90 | an unread buffer of a disk block is the only buffer of that block |
| `BufferCache.Bcache.constructor` | bio.c:38-53 | the links spell out one circular list of all buffers |
| `BufferCache.Bcache.Bget` | bio.c:59-90 | returns a referenced buffer for the block: the cached one, else the least recently used spare one; refuses exactly when the block is uncached and no buffer is spare |
| `BufferCache.Bcache.LockAndRead` | bio.c:94-102 | the locked buffer holds the block's latest contents |
| `BufferCache.Bcache.SetData` | bio.c:94-112 | the holder's change is the block's new contents for everyone |
| `BufferCache.Bcache.Pin` | log.c:231 | a pinned buffer is not spare, so it is not recycled |
| `BufferCache.Bcache.Bwrite` | bio.c:106-112 | the disk block becomes the buffer's data and the buffer is clean; no contents change |
| `BufferCache.Bcache.MoveToFront` | bio.c:128-133 | the list stays a circular permutation of the pool, with the buffer in front and the rest in order |
| `BufferCache.LetGo` | bio.c:117-137 | a released buffer leaves the cache standing for the same blocks exactly when its data is on disk or pinned |
| `BufferCache.Bcache.Brelse` | bio.c:117-137 | the reference and the lock go; the buffer moves to the front exactly when nobody else refers to it; the cache still stands for the blocks exactly when the data is on disk or pinned |
| `FsLayout.SetBit` | fs.c:61-63 | setting a clear bit of a byte changes no other bit |
| `FsLayout.ClearBit` | fs.c:82-86 | clearing a set bit of a byte changes no other bit |
| `FsLayout.FlipUsed` | fs.c:53-89 | flipping a block's bitmap bit changes that block's state and no other's |
| `FsOwnership.AllocOwn` | fs.c:53-73 | a block found free is data, owned by nobody, and marking it keeps the bitmap exact |
| `FsOwnership.StoreOwn` | fs.c:353-381 | storing a fresh block in an empty slot gives it that slot as only owner |
| `FsOwnership.WriteOwn` | fs.c:477-483 | overwriting a file's data block moves no address and no ownership |
| `FsFiles.ChunkStep` | fs.c:477-483 | one chunk of a write extends the written part by exactly its bytes, in any file block, and changes no other byte |
| `FsFiles.FinishContent` | fs.c:459-490 | a finished write leaves the old contents with the slice replaced and the file extended if need be |
| `FsTruncate.FreeStep` | fs.c:388-415 | the next slot's block is still marked used when it is freed |
| `FsTruncate.TruncOwn` | fs.c:388-415 | with all slots freed the bitmap is exact again, nothing of the inode is owned, and every other file is intact |
| `FsInodes.BitmapExact` | fs.c:53-89 | the set bits are exactly the metadata blocks and the blocks that allocated inodes hold |
| `FsInodes.HeldOnce` | fs.c:353-381 | no block is held twice, by one inode or by two, and none of the metadata is held |
| `FsInodes.Retype` | fs.c:186-204 | changing an inode's type or link count moves no block and changes no file |
| `FsInodes.EmptyOwn` | fs.c:53-89 | an image with only the metadata marked and every inode free satisfies the ownership invariant |
| `FileSystem.FileSys.constructor` | fs.c:53-89 | the ownership invariant is established on an empty image by marking the metadata blocks bit by bit |
| `FileSystem.FileSys.OwnershipExact` | fs.c:53-89 | in every state between calls a bit is set exactly for metadata and for a block of an allocated inode, held in one place |
| `FileSystem.FileSys.FindFree` | fs.c:58-71 | the scan over bitmap blocks and bits finds the lowest free block, or none exactly when all are used |
| `FileSystem.FileSys.Balloc` | fs.c:53-73 | the lowest free block is marked and zeroed; refusal means every block is used and nothing changed; every block it changes is passed to log_write |
| `FileSystem.FileSys.Bfree` | fs.c:76-89 | panics exactly on a free block, else clears just its bit; every block it changes is passed to log_write |
| `FileSystem.FileSys.AllocSlot` | fs.c:356-378 | an empty slot gets a zeroed block that was free; no other address changes; every block it changes is passed to log_write |
| `FileSystem.FileSys.Bmap` | fs.c:353-381 | the block of the file at that index, allocated zeroed if there was none; ownership stays exact and no other file block moves; within the file limit it fails only with every block of the disk used; done as a run of the step machine; every block it changes is passed to log_write |
| `FileSystem.FileSys.ReadChunk` | fs.c:448-453 | one chunk is the file's bytes there, and reading allocates nothing |
| `FileSystem.FileSys.Readi` | fs.c:430-455 | the clipped slice of the file; -1 exactly when the start is past the end or the range wraps 32 bits |
| `FileSystem.FileSys.WriteLoop` | fs.c:477-483 | the loop puts exactly the bytes of the source in place, through the direct and indirect blocks; every block it changes is passed to log_write |
| `FileSystem.FileSys.Writei` | fs.c:459-490 | the slice replaced and the file extended, other files unchanged, inode on disk current; -1 exactly on a start past the end, a 32-bit wrap or the size limit, and then nothing changed; panics only with every block used; done as a run of the step machine; every block it changes and the block of every inode it writes is passed to log_write |
| `FileSystem.FileSys.WriteRead` | fs.c:430-490 | reading the range just written gives the bytes written, and the read changes nothing |
| `FileSystem.WrittenInodes` | fs.c:485-488 | a write that did not grow the file changed no inode field, so the conditional iupdate suffices |
| `FileSystem.WroteCompose` | file.c:128-150 | consecutive writes are one write of the concatenation |
| `FileSystem.FewTouched` | file.c:121-127 | a chunk of at most 1536 bytes at any offset logs at most 7 blocks with a one-block bitmap |
| `FileSystem.FileSys.FileWrite` | file.c:111-154 | the chunks that succeed are one splice at the offset; all succeed exactly when the range is within the size limit; each transaction logs every block and inode block in which the disk after it differs from the disk before it, and no more than 7; done as a run of the step machine |
| `FileSystem.LoggedTrans` | log.c:213-233 | what two stretches of one transaction changed is logged if each logged its own |
| `FileSystem.FileSys.TruncDirect` | fs.c:393-398 | the loop frees each direct block the inode owned and clears its entry, and never meets a free block; every block it changes is passed to log_write |
| `FileSystem.FileSys.TruncIndirect` | fs.c:400-411 | the loop frees every block the indirect block names and then the indirect block; every block it changes is passed to log_write |
| `FileSystem.FileSys.Itrunc` | fs.c:388-415 | frees exactly what the inode owned, never a free block, and leaves every other file's contents; done as a run of the step machine; every block it changes and the block of every inode it writes is passed to log_write, and besides those only bitmap blocks |
| `FileSystem.FileSys.Ialloc` | fs.c:186-204 | the lowest free inode from 1 on gets the type and loses no block, so the bitmap stays exact and every file keeps its contents; none free means refusal with nothing changed; done as a run of the step machine; every block it changes is passed to log_write |
| `FileSystem.FileSys.Ifree` | fs.c:321-328 | the inode is free on disk, exactly its blocks are free again, and every other file keeps its contents; done as a run of the step machine; every block it changes and the block of every inode it writes is passed to log_write, and besides those only bitmap blocks |
| `InodeCache.OneEntry` | fs.c:229-260 | two referenced entries for the same inode are the same entry |
| `InodeCache.LockedAlone` | fs.c:210-224 | while an inode is locked through its entry no other entry copies it |
| `InodeCache.FreeUncached` | fs.c:186-204 | an inode that is free on disk is in no valid unlocked entry |
| `InodeCache.Icache.constructor` | fs.c:165-178 | the cache starts with no references |
| `InodeCache.Icache.Iget` | fs.c:229-260 | one more reference to the inode: in its entry if it has one, else in the first free slot, unread; refuses exactly when there is neither |
| `InodeCache.Icache.Idup` | fs.c:264-269 | one more reference and nothing else |
| `InodeCache.Icache.Ilock` | fs.c:273-298 | the locked entry equals the inode on disk |
| `InodeCache.Icache.Acquire` | fs.c:317 | taking the lock alone keeps every entry sound |
| `InodeCache.Icache.Iunlock` | fs.c:301-307 | a written-through entry is released in agreement with the disk |
| `InodeCache.Icache.Edit` | fs.c:156-158 | a lock holder's change leaves every other entry in agreement with the disk |
| `InodeCache.Icache.Iupdate` | fs.c:210-224 | the inode on disk becomes the holder's copy and every unlocked entry still agrees with the disk |
| `InodeCache.Icache.FreeInode` | fs.c:322-328 | with the lock held, exactly the inode's blocks go from used to free, the inode on disk is free, and the copy is forgotten; all it changes is logged |
| `InodeCache.Icache.FreeIfLast` | fs.c:318-329 | the inode and its blocks are freed exactly when it was read, has no links and has one reference, and the entry may then be unlocked; otherwise nothing changes |
| `InodeCache.Icache.Drop` | fs.c:332-334 | one reference less, and the entry is free exactly when it was the last |
| `InodeCache.Icache.Iput` | fs.c:316-335 | one reference less; the inode and exactly its blocks are freed on disk when it was read, has no links and this was the last reference, and otherwise the file system is as it was; all it changes is logged |
| `InodeCache.Icache.Ialloc` | fs.c:186-204 | the lowest free inode from 1 on is marked on disk and referenced through an entry that is not both valid and unlocked, with no block moved; none free means refusal with the disk unchanged |
| `DirMap.PadName` | string.c:67-78 | a name stored with NUL padding reads back cut to 14 bytes |
| `DirMap.FoundIs` | fs.c:509-524 | in a directory without duplicates a record in use is its name's value in the map |
| `DirMap.MappedIs` | fs.c:509-524 | every name in the map has a record in use |
| `DirMap.PutEntry` | fs.c:541-555 | filling a free record under a new name adds exactly that name and keeps names distinct |
| `DirMap.PutNothing` | fs.c:551-553 | a number that is zero in 16 bits leaves the map as it was |
| `Directories.NameCmp` | fs.c:495-497 | names compare equal exactly when they agree on their first 14 bytes up to a NUL |
| `Directories.FindEntry` | fs.c:509-524 | the scan finds the first record in use under the name, which is lookup in the directory's map |
| `Directories.DirLookup` | fs.c:501-527 | a name in the map comes with its number and one more reference to that inode, in an entry whose release would free nothing; an absent name takes no reference; refuses only with every cache slot in use and none for the inode |
| `Directories.FindFree` | fs.c:541-549 | the scan ends at the first record that is not in use, or at the end when all are in use |
| `Directories.AddEntry` | fs.c:541-558 | a name that is absent is added to the map with the number cut to 16 bits; names stay distinct and no other file or inode changes; all it changes is logged |
| `Directories.FoundOutcome` | fs.c:536-539 | the entry dirlookup found is locked exactly if somebody has the name's inode locked, and is the directory's own exactly if the name is the directory's own |
| `Directories.DirLink` | fs.c:530-558 | on a locked directory: an absent name is added, an existing one leaves the file system as it was, and either way the references are the old ones; iput waits exactly if the inode of an existing name is locked, and for the caller's own lock exactly if the name is that of the directory itself; on an existing name it panics exactly if no cache slot can be had, on an absent one only with the disk full or the directory at the file limit; all it changes is logged |
| `Directories.LinkDotTwice` | sysfile.c:147-153 | a new directory that has "." for itself: linking any inode there as "." waits for the caller's own lock |
| `Paths.ComponentsOne` | fs.c:563-573 | a path without slashes is its only component, or has none if empty |
| `Paths.ComponentsJoin` | fs.c:563-573 | the components of two paths joined by a slash are those of the one and then those of the other |
| `Paths.SkipElem` | fs.c:575-601 | yields the first component cut to 14 bytes and the position from which exactly the remaining components follow; none exactly when there are no components |
| `Paths.TargetStep` | fs.c:617-634 | folding the directory maps over the components goes one component at a time as the loop does |
| `Paths.WalkJoin` | fs.c:617-634 | the fold over two lists of components is the fold over the second from where the first one ends |
| `Paths.EndsJoin` | fs.c:617-634 | so is the walk with its locks |
| `Paths.EndsIs` | fs.c:607-640 | the walk answers as the fold of the directory maps does, unless an inode on its way is locked or free, and then it ends at one that is |
| `Paths.Begin` | fs.c:610-615 | a path that begins with a slash starts at the root whatever the current directory, any other at the current directory; one more reference, and the locks as they were |
| `Paths.StandLocked` | fs.c:618 | the entry the walk stands at is locked exactly if the inode was when the walk began |
| `Paths.LockHere` | fs.c:273-298 | an inode nobody has locked is locked and read; the panic is met exactly if it is free |
| `Paths.UnlockPut` | fs.c:338-341 | the lock and one reference go; with its last use the inode and its blocks are freed, and otherwise the file system is as it was |
| `Paths.Reach` | fs.c:525 | under the directory's lock one more reference, to the entry's inode |
| `Paths.Advance` | fs.c:628-633 | the reference moves from the directory to the inode its entry names, and the directory's lock is gone |
| `Paths.LookIn` | fs.c:628 | a lookup in the directory's bytes is a lookup in its map, and leaves the whole tree as it was |
| `Paths.StepInto` | fs.c:618-633 | one turn of the loop waits exactly if the inode is locked, panics in ilock exactly if it is free, and else ends at the entry's inode, at the directory asked for, or nowhere with every new reference dropped |
| `Paths.Leave` | fs.c:635-638 | the reference goes, or iput waits exactly if the inode is locked |
| `Paths.Namex` | fs.c:607-640 | over the directories' bytes and whatever locks others hold, the call ends as the walk does, from the root for a path that begins with a slash and else from the current directory: at the inode found, nowhere, waiting for a lock, or in ilock's panic on a free inode; the references are the old ones plus the one to the inode found or waited for, and no lock is kept; the name is the last component's; the other panic only with every cache slot in use |
| `Paths.RelativeIsAbsolute` | fs.c:607-640 | if an absolute path leads to the current directory, a relative path answers as the two joined by a slash do, exactly unless the parent of an empty relative path is asked for below the root |
| `Paths.RelativeEnds` | fs.c:607-640 | the same of the walk with its locks and panics, if the way to the current directory is free |
| `Pipe.CellWrap` | pipe.c:95 | ring positions survive the wrap of the 32-bit counters |
| `Pipe.FullEmpty` | pipe.c:87-106 | the tests on wrapping counters mean 512 buffered bytes and none |
| `Pipe.StepInv` | pipe.c:63-122 | every atomic step of readers, writers and closers keeps the byte accounting and the wakeup conditions |
| `Pipe.StrandedExactly` | pipe.c:87-92 | a step leaves a sleeping reader with bytes to read or a closed pipe exactly when it is a killed writer giving up on a full pipe while a reader sleeps |
| `Pipe.WrongedSince` | pipe.c:87-92 | in every run a reader sleeps wrongly exactly when such a step happened and it has slept wrongly ever since |
| `Pipe.WakeupFindsReaders` | proc.c:412-467 | a writer that finishes or goes to sleep leaves no reader asleep or in the window inside sleep where the wakeup would miss it |
| `Pipe.PipeFifo` | pipe.c:82-122 | in every reachable state bytes accepted are bytes delivered followed by at most 512 buffered; a writer asleep faces a full open pipe; a reader asleep faces an empty open pipe in every run without a killed writer giving up on a full pipe while a reader sleeps |
| `Pipe.ZeroOnlyAtEof` | pipe.c:102-122 | a read of at least one byte returns 0 only with nothing buffered and the write end closed |
| `Pipe.StrandedReader` | pipe.c:87-92 | a run in which a writer killed on a full pipe leaves a reader asleep with 512 bytes waiting |
| `Pipe.Ring.Fill` | pipe.c:86-96 | the copying loop appends the bytes that fit, in order, and is that many write steps of the machine |
| `Pipe.Ring.Drain` | pipe.c:113-118 | the copying loop delivers the oldest bytes, at most the number asked for, stops short only when empty, and is that many read steps of the machine |
| `PipeStream.HolderAlone` | pipe.c:82-122 | only the holder of the pipe's lock puts a byte or returns from a read |
| `PipeStream.HandedMoves` | pipe.c:113-121 | bytes taken from the ring go to the buffer of the reader at work, and when it returns to its caller |
| `PipeStream.RunMoves` | pipe.c:82-122 | in every run the bytes accepted are those of the writers' buffers in the order they were put, and the bytes delivered are the buffers of the reads that returned, in order, and then that of the reader at work |
| `PipeStream.EndToEnd` | pipe.c:82-122 | in every run what writers sent is what readers got, then what the reader at work holds, then what is buffered |
| `PipeStream.HandIsLast` | pipe.c:113-118 | a reader at work holds exactly the last bytes delivered |
| `PipeStream.CallSends` | pipe.c:86-99 | in every run the bytes one write has put are the first bytes of its buffer, in order, and all of them when it returns the count |
| `PipeStream.WriteReturns` | pipe.c:86-99 | a write returns -1 exactly before its last byte, and only on a full pipe that nobody reads or when killed there |
| `PipeStream.ReadReturns` | pipe.c:102-122 | a read returns -1 only killed on an empty pipe with writers, and otherwise the bytes asked for or all there are |
| `SleepLock.StepInv` | sleeplock.c:20-45 | every atomic step of acquiresleep, releasesleep, holdingsleep, sleep and wakeup keeps the invariant |
| `SleepLock.SleepLockSafe` | sleeplock.c:20-45 | in every reachable state the lock has at most one holder and is never free, with its spinlock free, while a process sleeps on it or is about to |
| `SleepLock.WakeupFindsSleepers` | proc.c:412-467 | when wakeup runs no process is in the window between releasing the lock and being marked asleep, and afterwards none is asleep |
| `ProcTable.StepInv` | proc.c:68-353 | every critical section under ptable.lock keeps the table invariant |
| `ProcTable.ProcessTree` | proc.c:68-353 | in every reachable state a running process is on exactly one CPU, pids in use are distinct, every started process but init has a live older parent, and nobody sleeps in wait with a zombie child |
| `ProcTable.ReachesInit` | proc.c:227-268 | parent links lead from every started process to init |
| `ProcTable.ZombieStays` | proc.c:272-310 | a zombie keeps its pid until its parent's wait takes it |
| `ProcTable.ReapedOnce` | proc.c:272-310 | no pid is returned by wait twice in a run |
| `KillMarks.KilledSince` | trap.c:79-90 | in every run a slot is marked killed exactly if, since it was last reaped or since the start, kill picked it or its process faulted in user space |
| `KillMarks.FreedUnreaped` | proc.c:181-196 | a slot that becomes free without being reaped was given back by a failed fork |
| `KillMarks.FreeSlotKilled` | proc.c:472-489 | in every run a free slot is marked killed exactly if, since it was last reaped, kill picked it while it was free or while it was an EMBRYO given back later |
| `KillMarks.BornKilledExactly` | proc.c:68-117 | in every run the process allocproc hands out is already killed exactly if its slot was hit that way |
| `KillMarks.BornKilledByZero` | proc.c:472-489 | a run from the start in which kill(0) marks a slot never used and the next process is born killed |
| `KillMarks.BornKilledByFork` | proc.c:181-196 | a run in which kill hits the EMBRYO of a fork that then fails, and the next process is born killed |
| `KillMarks.BornKilledByStalePid` | proc.c:181-196 | a run in which kill hits the pid a failed fork left behind, and the next process is born killed |
| `ProcLife.SleeperMoves` | proc.c:452-489 | a sleeper becomes runnable exactly by a wakeup on its channel, a kill that picks it, or an exit that wakes it as its parent or as init handed a zombie; otherwise it sleeps on, on the same channel |
| `ProcLife.RunnerMoves` | proc.c:272-311 | a running process stops running exactly by yield, exit, sleep, or in wait with children, no zombie among them and no kill; and its CPU is free exactly then |
| `ProcLife.OtherMoves` | proc.c:68-93 | a slot is taken only by allocproc and only as the first free one, an EMBRYO becomes runnable or free only by its fork, a process runs only when scheduled, and a zombie leaves only by being reaped |
| `ProcLife.IdentityMoves` | proc.c:198-296 | pids come from allocproc one by one and go with the reaped zombie; a parent is set by fork, passed to init by exit and cleared by wait, and nothing else changes them |
| `ProcLife.KilledAwake` | proc.c:472-489 | in every run a process kill has just picked is marked and not asleep, and a process asleep in wait is not killed |
| `ProcLife.SleepsUntilWoken` | proc.c:411-467 | in every run a process has slept on from one point to another exactly if none of the steps that wake it came between |
| `ProcCode.Ptable.Wakeup1` | proc.c:452-460 | the loop makes exactly the sleepers on the channel runnable |
| `ProcCode.Ptable.AllocProc` | proc.c:68-93 | takes the first unused slot, gives it the next pid and leaves every other slot; fails exactly when every slot is in use |
| `ProcCode.Ptable.Reparent` | proc.c:254-262 | the loop passes every child to init and wakes init if one of them is a zombie |
| `ProcCode.Ptable.Exit` | proc.c:227-268 | the call is the atomic exit step of the table machine |
| `ProcCode.Ptable.Wait` | proc.c:272-311 | the pass reaps a zombie child exactly when there is one; without one it answers -1 and changes nothing exactly if there is no child or the caller is killed, and else sleeps on itself; it is the atomic wait step |
| `ProcCode.Ptable.Kill` | proc.c:472-489 | succeeds exactly when some slot has the pid; the first such slot is then marked, runnable if it slept and else in its state, and no other slot changes; it is the atomic kill step |
| `HeapList.InsertKeeps` | umalloc.c:24-48 | freeing keeps the list address-ordered, disjoint and coalesced, with a block large enough for what was freed |
| `HeapList.InsertCovers` | umalloc.c:24-48 | freeing adds exactly the units of the freed block |
| `HeapList.CarveKeeps` | umalloc.c:77-88 | allocating keeps the list ordered, disjoint and coalesced and hands out units apart from it |
| `HeapList.CarveCovers` | umalloc.c:77-88 | allocating removes exactly the units handed out |
| `HeapList.InsertUndoesCarve` | umalloc.c:24-95 | freeing what was just allocated restores the free list block for block |
| `Heap.Allocator.FindGap` | umalloc.c:28-32 | the circular search ends, at the one free block the freed block belongs after |
| `Heap.Allocator.Free` | umalloc.c:24-48 | the block joins the free list coalesced; every other live block and the arena stay as they were |
| `Heap.Allocator.Take` | umalloc.c:77-88 | the tail of the free block is handed out, or the whole block, and was not live |
| `Heap.Allocator.Grow` | umalloc.c:57-62 | memory from sbrk is one block apart from every live and free one |
| `Heap.Allocator.Init` | umalloc.c:72-75 | the list starts as the base block alone |
| `Heap.Allocator.Morecore` | umalloc.c:50-65 | new memory joins the free list and then some free block fits; a refused sbrk changes nothing |
| `Heap.Allocator.Malloc` | umalloc.c:67-95 | the block is large enough, was free or new, and overlaps no live block; memory is asked for at most once and only when nothing fits; 0 exactly when nothing fits and sbrk refuses |
| `Heap.Allocator.MallocFree` | umalloc.c:24-95 | malloc then free leaves the free list as it was plus memory added |
| `PageTable.SetEntry` | vm.c:33-53 | writing the word walkpgdir points at changes that page's translation and no other |
| `PageTable.AddTable` | vm.c:41-51 | hanging a zeroed table page in the directory changes no translation |
| `PageTable.AccessIs` | vm.c:46-50 | an access that needs the present, write or user flag at both levels is allowed exactly if the page's own entry has it: directory entries carry all three |
| `PageTable.ExtendIs` | vm.c:58-79 | mapping a run of pages adds exactly the covering pages, each with its own frame, even across the top of the address space |
| `Frames.ChainPush` | kalloc.c:54-73 | freeing keeps the list acyclic and threaded through the pages, with the page in front |
| `Frames.ChainPop` | kalloc.c:78-92 | allocating leaves the rest of the list, without the page |
| `AddressSpace.LastPage` | vm.c:62-77 | the page of the last byte is reached exactly when all covering pages are done, also for a range ending at 2^32 |
| `AddressSpace.SkipAhead` | vm.c:263-268 | the rest of a 4 MB region without a table holds no page, so skipping it loses none |
| `AddressSpace.KernelViewIs` | vm.c:104-136 | the kernel ranges map physical memory at KERNBASE, text read-only, and the device pages one to one, and nothing else |
| `AddressSpace.GrownBack` | vm.c:233-238 | removing the range asked for after a partial allocation gives the old view back |
| `AddressSpace.OtherKept` | vm.c:220-343 | an address space is untouched by work on frames that were free |
| `FrameBudget.NextCost` | vm.c:33-53 | mapping the next page takes a table exactly when its directory slot is still empty |
| `FrameBudget.FreshRegions` | vm.c:33-79 | over empty slots a run of pages costs one table for each 4 MB begun |
| `FrameBudget.KernelCost` | vm.c:104-136 | the kernel ranges cost 64 tables wherever kernel data starts, and stopping early means fewer |
| `FrameBudget.UserTables` | vm.c:313-343 | user pages from 0 over the kernel ranges cost one table for each 4 MB begun |
| `Vm.Machine.constructor` | kalloc.c:31-35 | over memory as it is found, the free list starts empty |
| `Vm.Machine.Kfree` | kalloc.c:54-73 | the frame is in front of the free list and no other page changed |
| `Vm.Machine.Kalloc` | kalloc.c:78-92 | the front frame leaves the list; null exactly when it is empty |
| `Vm.Machine.FreeRange` | kalloc.c:42-48 | exactly the whole frames of the range join the list |
| `Vm.Machine.WalkPgdir` | vm.c:33-53 | finds or makes the table page; null exactly when it is absent and not to be made or memory is out; no translation changes |
| `Vm.Machine.MapOne` | vm.c:65-71 | one page gains its translation exactly when it had none and a table was there or could be made |
| `Vm.Machine.MapPages` | vm.c:58-79 | ends on every range; done means exactly the covering pages were added and none was mapped before; otherwise the pages before the failing one are added, and memory was out or that page was mapped; costs one frame for each directory slot that was empty |
| `Vm.Machine.UnmapOne` | vm.c:268-276 | the page's frame is free again and only its translation is gone |
| `Vm.Machine.DeallocUvm` | vm.c:254-279 | exactly the pages from newsz up to oldsz are removed and their frames freed, as if every page were visited |
| `Vm.Machine.FreeTables` | vm.c:290-295 | the loop frees exactly the table pages |
| `Vm.Machine.FreeVm` | vm.c:283-297 | exactly the frames the directory owns return to the free list |
| `Vm.Machine.MapRange` | vm.c:128-134 | one kernel range is added whole, or memory is out before all the kernel's tables were made |
| `Vm.Machine.SetupKvm` | vm.c:117-136 | succeeds exactly when 65 frames are free, with a directory mapping exactly the kernel ranges; on failure the set of free frames is what it was |
| `Vm.Machine.MapUser` | vm.c:240 | a frame of its own is mapped as a user page, or nothing is and the view stays |
| `Vm.Machine.AddPage` | vm.c:233-245 | a frame that was free is filled and mapped, or the view is as before and every frame accounted for; fails exactly when the frame or its table cannot be had |
| `Vm.Machine.GrowOne` | vm.c:233-245 | one more zeroed user page in a frame that was free; otherwise the view is as before |
| `Vm.Machine.GrowFail` | vm.c:234-244 | the view and the data frames from before the call are back and every other data frame is free |
| `Vm.Machine.AllocUvm` | vm.c:220-248 | succeeds exactly when the free frames cover the pages asked for plus the tables missing for them; success adds exactly those pages, zeroed and writable, in frames that were free; failure restores the view and the data frames, and only table pages may remain |
| `Vm.Machine.ReadPte` | vm.c:323-330 | the parent's translation of a mapped page |
| `Vm.Machine.CopyOne` | vm.c:331-340 | one more page of the child has the parent's flags and contents in a frame that was free |
| `Vm.Machine.CopyFail` | vm.c:331-339 | every frame of the child and the spare one are free again |
| `Vm.Machine.CopyStep` | vm.c:322-340 | one page copied with the parent untouched, or every frame of the child free again |
| `Vm.Machine.CopyPages` | vm.c:322-341 | the loop copies every page below the size, or gives all the child's frames back |
| `Vm.Machine.CopyUvm` | vm.c:313-343 | succeeds exactly when 65 frames, one for each page and one for each 4 MB begun are free; the child has the kernel ranges and, in frames that were free, copies of the parent's pages with equal flags and contents; failure returns every frame; the parent is untouched |
| `Ledger.EveryFrame` | kalloc.c:42-92 | every frame past the kernel is on the free list, lent to a kernel user, or held by an address space; by only one of these, and by one address space |
| `Ledger.OthersKept` | vm.c:220-343 | work on free frames and on one space's own frames leaves every other address space, its translations and the contents of its frames as they were |
| `Ledger.Settle` | vm.c:220-343 | accounts that were exact are exact again once one space's frames are counted anew |
| `Ledger.Close` | vm.c:283-297 | an address space whose frames are all free again leaves exact accounts behind |
| `Ledger.Lend` | kalloc.c:54-92 | moving a frame between the free list and the kernel's users keeps the accounts exact and every address space as it was |
| `Ledger.Kernel.constructor` | kalloc.c:31-35 | kinit1 establishes the accounts: frames below 4 MB free, the rest lent, no address space |
| `Ledger.Kernel.Kinit2` | kalloc.c:37-40 | afterwards the frames above 4 MB are free as well and the accounts exact |
| `Ledger.Kernel.Kalloc` | kalloc.c:78-92 | the frame handed out is lent and no longer free; accounts stay exact and no address space changes |
| `Ledger.Kernel.Kfree` | kalloc.c:54-73 | a lent frame is free again; accounts stay exact and no address space changes |
| `Ledger.Kernel.SetupKvm` | vm.c:117-136 | a new address space with the kernel ranges, or none and the same free frames; accounts stay exact and other spaces keep their translations and contents |
| `Ledger.Kernel.AllocUvm` | vm.c:220-248 | the space grows exactly when the free frames suffice and keeps its view otherwise; accounts stay exact and other spaces keep their translations and contents |
| `Ledger.Kernel.DeallocUvm` | vm.c:254-279 | the pages between the sizes are gone and their frames accounted for; other spaces keep their translations and contents |
| `Ledger.Kernel.FreeVm` | vm.c:283-297 | the space is gone and exactly its frames are free again; other spaces keep their translations and contents |
| `Ledger.Kernel.CopyUvm` | vm.c:313-343 | a new space with copies of the parent's pages, or none and the same free frames; accounts stay exact and every space there was keeps its translations and contents |
| `ShellGrammar.GetToken` | sh.c:254-300 | a token is never empty except at the end of input, and a word token is a whole word |
| `ShellGrammar.ParseCmd` | sh.c:318-331 | every word in the tree is a whole word of the input and no command has MAXARGS words; parsing ends on every input |
| `ShellPrint.ParseWords` | sh.c:414-428 | the argument loop reads printed words in order |
| `ShellPrint.ParsePrinted` | sh.c:333-432 | parseline reads a printed tree back wherever it stands before a closing parenthesis or the end |
| `ShellPrint.RoundTrip` | sh.c:318-432 | parsing the printed form of any tree with fewer than MAXARGS legal words per command gives the tree |
| `ShellPrint.TooManyArgs` | sh.c:424-426 | MAXARGS or more words make the parser panic |
| `ShellPrint.Leftovers` | sh.c:324-328 | a closing parenthesis too many makes the parser panic |
| `ShellPrint.Unclosed` | sh.c:391-393 | a parenthesis never closed makes the parser panic |
| `ShellPrint.AppendRedir` | sh.c:375-377 | a double angle is read as a plain output redirection |
| `ShellTyped.RedirsRead` | sh.c:359-381 | a run of redirections is read in order with their files and kinds |
| `ShellTyped.ArgsRead` | sh.c:412-431 | words and the redirections between and after them give the command with the words in order, wrapped in the redirections in order |
| `ShellTyped.UnitRead` | sh.c:383-432 | a simple command or a parenthesised line with redirections is read as what it means |
| `ShellTyped.PipesRead` | sh.c:348-357 | bars give the right-nested pipe |
| `ShellTyped.LineRead` | sh.c:333-346 | background marks wrap the whole pipe before them, and semicolons give the right-nested list |
| `ShellTyped.SpellLexes` | sh.c:254-311 | any blanks between the tokens, and none where tokens cannot run together, are read as the same tokens |
| `ShellTyped.ReadsTyped` | sh.c:318-432 | every line as typed, however spaced, is parsed as the tree it means |
| `ShellAccepts.LineFrom` | sh.c:333-432 | whatever parseline reads is a line as typed |
| `ShellAccepts.LexSpell` | sh.c:254-300 | the tokens of an input with its own blanks between them spell the input |
| `ShellAccepts.AcceptsExactly` | sh.c:318-432 | the parser accepts exactly the lines as typed and panics on everything else |
| `ShellAccepts.MeansOneThing` | sh.c:318-432 | the tree of an accepted input is what any reading of it as a line means, so no line has two meanings |
| `ShellCode.Cursor.GetToken` | sh.c:254-300 | the loops over the cursor find the grammar's token |
| `ShellCode.Cursor.Peek` | sh.c:302-311 | the cursor stops at the next non-blank, which is compared with the set |
| `ShellCode.Cursor.ParseRedirs` | sh.c:359-381 | the loop collects the grammar's redirections in order |
| `ShellCode.Cursor.ParseArgs` | sh.c:412-431 | the loop reads the grammar's command, redirections included, or panics where it does |
| `ShellCode.Cursor.ParseExec` | sh.c:399-432 | the cursor code computes the grammar's command or panics where it does |
| `ShellCode.Cursor.ParseBlock` | sh.c:383-397 | as for parseexec, for a parenthesised block |
| `ShellCode.Cursor.ParsePipe` | sh.c:348-357 | as for parseexec, for pipelines |
| `ShellCode.Cursor.ParseLine` | sh.c:333-346 | as for parseexec, for lines, with the loop over ampersands |
| `ShellLine.WordCut` | sh.c:448-458 | a word of the line survives the cuts as a C string that is exactly the word |
| `ShellLine.TreeCut` | sh.c:435-479 | after the cuts the C strings of a parsed tree are the tokens it was parsed from |
| `ShellLine.NulTerminate` | sh.c:435-479 | the buffer changes exactly at the ends of the tree's words, to NUL |
| `ShellLine.ParseCmd` | sh.c:318-331 | on a buffer holding a C string: succeeds exactly on a line as typed, else panics with the buffer untouched; every pointer is then a C string equal to its token, the C strings form the tree the line means, and no word byte is overwritten |
| `Grep.LanguageCons` | grep.c:83-108 | a pattern's language splits off its first item |
| `Grep.ShowParse` | grep.c:83-97 | every string is a writable pattern typed out, and reading it gives that pattern |
| `Grep.ParseShow` | grep.c:83-97 | a pattern typed out reads back as itself exactly if it can be written: a literal star only after a starred item, a last dollar only as the anchor |
| `Grep.HereCons` | grep.c:83-97 | matching here splits off the first item of the pattern |
| `Grep.StarStep` | grep.c:100-108 | a starred item matches now or after one more fitting character |
| `Grep.MatchHere` | grep.c:83-97 | true exactly when a prefix of the text (all of it after a final dollar) is in the language |
| `Grep.MatchStar` | grep.c:100-108 | true exactly when some run of fitting characters is followed by a match |
| `Grep.Match` | grep.c:69-80 | true exactly when some substring, prefix or suffix as the anchors say, is in the pattern's language |

## Left out

- Device inodes, `major`/`minor` and `stati`. Inodes on disk are records, whose packing into blocks only `CrashOwnership.ImageOf` reads.
- mkfs.c: its layout is a starting assumption. Every file block below the size is allocated at the start, which mkfs.c:160 can break for a root directory that exactly fills its blocks.
- The log model's cache has no capacity: running out of buffers (the panic in bget) is stated in `BufferCache.Bcache.Bget`, not in the log runs.
- Waiting in bget, ilock and iput for a held sleep lock: a method stands for the code once the lock is free, or has a result that says it waits. `SleepLock` covers the waiting.
- InodeCache.Icache.Iput: stated for an uninterrupted call; its steps `Acquire`, `FreeIfLast`, `Iunlock` and `Drop` keep the invariant one by one.
- Paths.Namex: nothing else runs meanwhile, and every entry names an inode of the disk that, if allocated, has a link or a user, as iput sees to; otherwise the walk would free it in passing.
- CrashOwnership.OwnershipSurvives: that a group keeps the file-system invariant is its hypothesis; `CrashSteps.InterleavedSurvives` has none, for operations made of the file system's steps.
- CrashSteps.InterleavedSurvives: a block written for a step holds what the step says; the packing of inodes into their blocks by the code is not part of this model. `FileSystem.FileSys` proves its routines to be such steps when they run alone.
- Directories.DirLookup: for inodes of type T_DIR and directories of whole records; the code panics on another type, and a directory is only ever written in whole records.
- FileSystem.FileSys.Writei: for an allocated inode, which the caller's `ilock` guarantees (fs.c:294).
- FileSystem.FileSys.FileWrite: offsets and counts are below 2^31, as the file table keeps them.
- Link counts in sysfile.c and the system-call wrappers: argument plumbing, and no natural invariant holds for entries made inside an unlinked directory.
- In `Pipe` and `SleepLock` spinlocks are atomic mutexes. Both model the window inside sleep between releasing the lock and being marked asleep.
- The process table machine keeps state, channel, parent, pid, killed and the CPUs' current process; memory, files, trap frames and context switches are not part of it.
- `growproc`: it takes a new size of 0 for an error after the pages are gone (proc.c:168), so no size invariant is claimed for it.
- `inituvm`, `loaduvm`, `clearpteu`, `switchuvm` and segment setup: short code over the same page tables, or hardware.
- Physical addresses and `pa` arguments are whole frames; virtual addresses and sizes in `MapPages` are bytes with 32-bit wrap.
- The heap allocator's requests do not wrap 32 bits, and sbrk returns fresh memory above the break or fails.
- Running commands (`runcmd`), memory for the tree, and the line reader of the shell. The parser's command node is filled at the end of its loop instead of through a pointer.
- The line-buffer loop of grep.c: it drops partial lines when a buffer holds no newline.
- Drivers, consoles, graphics, boot code, printing and string utilities other than the two used for directory names.
