# A verified model of the xv6 kernel with checksums and ditto replicas

This Dafny project models the parts of the system that are hard to get right, and proves what they promise
for every input, every run and every reachable state. It is checked with

    dafny verify dfyconfig.toml

Each component is modelled in the form its code has: loops and in-place updates are methods of classes or on
arrays, proved against specification functions, and concurrent protocols are state machines over their
steps.

| component | modules |
|---|---|
| redo log, crash recovery, admission | `RedoLog`, `Log`, `LogProtocol`, `LogHistory`, `LogAdmission`, `LogTransaction` |
| buffer cache list and hash index | `BufferCache` |
| inode content, block mapping, bitmap, file writes, image building | `InodeSpec`, `InodeFs`, `Mkfs` |
| checksum, ditto replicas, rescue, inode locking | `Checksum`, `Replica`, `ReplicaFs`, `ReplicaBlocks`, `InodeLock` |
| sleep and wakeup, process table | `SleepWakeup`, `ProcTable`, `ProcScan` |
| page allocator, page tables | `PageTable`, `Vm` |
| user-level allocator | `Umalloc`, `UmallocHeap` |
| shell parser | `ShellGrammar`, `ShellSyntax`, `ShellLexer`, `ShellParser` |
| LRU cache, pipe, pattern matcher | `Recency`, `LruQueue`, `Pipe`, `Grep` |
| shared types | `Basics` |

## Premises

What the model takes from its surroundings, because the code does not establish it by itself.

- A write of one disk block is atomic. Home blocks lie outside the log region.
- An operation adds at most MAXOPBLOCKS new blocks to the log. (`filewrite` may ask for more; the code does not check.)
- An operation logs a buffer it has modified before it releases the buffer and before it ends.
- There is one device, and block numbers are below HASHSIZE, for the hash index of the buffer cache.
- A replica is already loaded in the inode cache when its checksum is compared.
- While a process waits for an inode, no file gets or loses replicas or changes its type, no inode loses its
  verified mark, and nobody changes an inode the process holds or a replica of it. A process does not lock an inode
  it holds already.
- A process asleep in a read or write of a pipe has that end open.
- The size of a process is a multiple of 8 and below KERNBASE, other callers of `sbrk` only raise it, and `sbrk` maps
  the pages it reports. `data`, where the kernel's data begins, is page aligned.
- Addresses above a process's size are unmapped when it grows. A page is freed only once.

## Where the code does not do what it seems to

Each of these is stated with the exact condition and an input at which it happens, but for the choice
of `bget` and the shell's `>>`, which are the same at every input, and the hole mkfs leaves, which does no harm.

- `log_write` tests the room in the log before it takes the lock, so two operations can pass for the last slot. Logged
  blocks can outgrow the log region exactly when it has 2 to LOGSIZE blocks (`FitsExactly`); in the image mkfs builds
  the slot of the 30th is block 2000, past the end (`MkfsLogOverflows`). Crash safety holds in every run for a larger
  region (`CrashSafety`), and in any region as long as the blocks fit (`CrashSafetyWithin`).
- `log_write` can panic for a new block of an operation within its budget exactly when the region has at most LOGSIZE
  blocks, as mkfs's has (`NewPanicsExactly`, `MkfsLogCanPanic`). The same test also meets a block that is in the log
  already: with a larger region that panics exactly when the log is full and every budget spent (`AgainPanicsExactly`),
  and it can happen in every region with a slot (`AgainCanPanic`).
- LOGSIZE equals NBUF, so three operations that use their whole budgets leave a commit no buffer for the first slot, and
  `bget` panics (`CommitCanStarve`; `BufferLeftExactly` has the condition).
- `malloc` returns a block that memory does not back, or that has no room for the request, exactly for more than
  0x7FFFFFF0 bytes: the byte count given to `sbrk` is then not positive, or the sum of the size and 7 wraps (`Malloc`,
  `AskGrants`; `GrantOfNothing` for 0xFFFFFFF8). Where memory does not back the block, `morecore` first
  writes its header at the old break. If no page is mapped there, because the break was page aligned or has just moved
  below that page, the process faults at that write and nothing is returned.
- `deallocuvm` skips a missing page table by 4 MB from wherever it is, and so misses pages exactly when it starts
  off a 4 MB boundary in a run of missing tables that ends in a present one (`SweepComplete`, `SweepMisses`). `freevm`
  starts at 0 and misses nothing (`Freevm`), and neither does the cleanup after a failed `allocuvm` (`Allocuvm`).
- `allocuvm` ignores a failed `mappages`: it reports success with the last page missing exactly when one free page is
  lacking and the last page is the first in a region without a table (`Allocuvm`, `LastPageMissing`).
- `setupkvm` does not give back what it took when it fails, which it does exactly with fewer than 65 free pages; all of
  them are then lost (`Setupkvm`, `SetupLosesAll`). Past that, `copyuvm` gives back all it took, but for one page
  exactly when the pages run out at the table of a page it has just filled (`Copyuvm`, `CopyLosesPage`).
- `bget` recycles, of the clean and unheld buffers, the one released last, not the least recently used (`Bget`).
- A writer killed while the pipe is full returns without waking readers: a reader that slept then sleeps on with bytes
  to read exactly when the writer had more than 512 bytes to write (`Pipewrite`, `KilledWriterStrandsReader`).
- `ilock_ext` gives up a file that a child could stand in for exactly when it has no first child (`SecondNeedsFirst`),
  as when that number was lost on disk (`FirstChildLost`). `duplicate` never leaves a second child without a first
  (`Duplicate`), and as long as that holds a file is given up only when no child can stand in (`CorruptedExactly`).
- `irescue` copies as many bytes as the damaged file had. It restores the content exactly when the replica does not reach
  past the last block of the file, or agrees with it there, and does nothing for an empty file (`RescueRestores`,
  `RescueFallsShort`, `EmptyStaysEmpty`). The stored checksum stays wrong exactly for an empty file, or when the replica
  ends before the last chunk and has a wrong checksum itself (`RescueChecksum`, `EmptyStaysEmpty`, `BadSumTaken`).
- mkfs rounds the size of the root directory up to the next multiple of 512, which leaves a hole exactly when the last
  block was full (`RoundUp`). Its `readi` takes the hole from sector 0, and is right only because that sector stays zero
  (`Rblock`, `Readi`).
- The shell opens the file of `>>` as it does that of `>`, for every line (`AppendIsOutput`).
- The checksum misses a set of bit flips exactly when each of its 32 columns has an even number (`UndetectedExactly`,
  `TwoFlipsMissed`).

## Model

| member | source | states |
|---|---|---|
| `RedoLog.HeadRoundTrip` | xv6/log.c:83-112 | a header block written with a list of block numbers reads back as that list, and writing the empty list over it changes only the count |
| `RedoLog.RecoverAt` | xv6/log.c:67-121 | what recovery leaves in every block of the disk: logged homes from their slots, a cleared header, the rest as it was |
| `RedoLog.RecoverDependsOn` | xv6/log.c:67-121 | recovery's result for home blocks depends only on the slots, the header and the homes not logged |
| `RedoLog.RecoveryRestarts` | xv6/log.c:114-121 | recovery cut off after any of its writes and run again gives what one whole recovery gives |
| `RedoLog.RecoverySurvivesCrashes` | xv6/log.c:114-121 | the same for any number of interrupted recoveries |
| `RedoLog.CrashBeforeHeader` | xv6/log.c:172-199 | a crash before the header write loses the whole transaction and nothing else |
| `RedoLog.CrashAfterHeader` | xv6/log.c:188-199 | a crash after it keeps the whole transaction |
| `RedoLog.CommitComplete` | xv6/log.c:188-199 | an uninterrupted commit applies the transaction and clears the header |
| `RedoLog.CrashAtomicity` | xv6/log.c:67-199 | commit cut off after any prefix of its block writes, then any number of interrupted recoveries: home blocks are all new exactly when the header write landed, else all old |
| `RedoLog.HistoryIsAtomic` | xv6/log.c:67-199 | over any history of commits, crashes and interrupted recoveries the logged disk equals an ideal disk on which durable transactions are applied whole |
| `Log.LogDevice.WriteLog` | xv6/log.c:172-186 | copies the pending blocks from the cache to the slots by exactly the log writes of the model, and changes no pending block |
| `Log.LogDevice.WriteHead` | xv6/log.c:97-112 | one write: the header block with the in-memory list, its unused words kept |
| `Log.LogDevice.InstallTrans` | xv6/log.c:67-81 | copies every slot to its home block, in order, and touches no other block |
| `Log.LogDevice.Commit` | xv6/log.c:188-199 | makes exactly the block writes whose every prefix crash atomicity is about, and leaves nothing pending |
| `Log.LogDevice.ReadHead` | xv6/log.c:83-95 | loads the list the header block encodes |
| `Log.LogDevice.RecoverFromLog` | xv6/log.c:114-121 | makes exactly the model's recovery writes and leaves cache and disk in agreement |
| `LogProtocol.StepKeepsCore` | xv6/log.c:123-230 | every step of every process, of the committer, and a crash with its recoveries keeps, in a log of any size: no block cached twice, exactly the logged blocks pinned, admission, and that whoever passed log_write's test can go on |
| `LogProtocol.StepKeepsInv` | xv6/log.c:123-230 | every such step that leaves a slot for each logged block also keeps slots, header and home blocks on disk in step with the log |
| `LogProtocol.CrashSafety` | xv6/log.c:67-230 | in every run, through any number of crashes and interrupted recoveries, a crash restores exactly the home blocks of the last commit point, if the region has more than LOGSIZE blocks or no slot at all |
| `LogProtocol.CrashSafetyWithin` | xv6/log.c:67-230 | the same for a region of any size, in every run whose logged blocks never outgrow it |
| `LogProtocol.CommitPoint` | xv6/log.c:188-199 | the commit point moves only with the header write, to what every block then reads as, with no operation outstanding; not by a crash |
| `LogProtocol.LogicalDisk` | xv6/bio.c:108-193 | a home block reads as the data written once an operation writes into its buffer of it; after a crash and recovery it reads as at the last commit point; no other step changes what any home block reads as |
| `LogProtocol.DirtyNeverRecycled` | xv6/bio.c:127-145 | but for a crash, a dirty buffer stays with its block until the committer has written that block home |
| `LogProtocol.InvRecovers` | xv6/log.c:114-121 | in any state that satisfies the invariant, recovery of the disk gives the home blocks of the last commit point |
| `LogProtocol.CleanAfterCommit` | xv6/log.c:67-81 | once the header is cleared no buffer is dirty and every valid buffer equals its disk block |
| `LogHistory.ReadsLastWrite` | xv6/bio.c:108-193 | over any history, a block reads as the data last written into it, as long as nothing crashes |
| `LogHistory.WriteIsDurable` | xv6/log.c:67-230 | once a header write has landed, and until the next, recovery finds in a block the data last written into it before that, whatever happened since |
| `LogHistory.OthersAreKept` | xv6/log.c:67-230 | and in a block not written since the commit point before, or since a later crash, what it was at that commit point |
| `LogHistory.SomeCause` | xv6/log.c:67-230 | one of the two is the case for every block at every header write |
| `LogHistory.NothingYetDurable` | xv6/log.c:67-230 | before the first header write recovery gives the blocks the history began with |
| `LogAdmission.Admission` | xv6/log.c:123-170 | in every reachable state, for a log of any size: no commit beside an operation, an idle log is empty, logged blocks are distinct home blocks, logged count plus unspent budgets stay within LOGSIZE |
| `LogAdmission.FitsExactly` | xv6/log.c:215-227 | logged blocks never outgrow the region if and only if it has more than LOGSIZE blocks or no slot at all, since the room is tested without the lock |
| `LogAdmission.MkfsLogOverflows` | xv6/mkfs.c:25 | a run in mkfs's image that ends with 30 logged blocks for 29 slots |
| `LogAdmission.NewPanicsExactly` | xv6/log.c:210-219 | no operation within its budget can make log_write panic on a block not in the log, if and only if the region is larger than LOGSIZE |
| `LogAdmission.AgainPanicsExactly` | xv6/log.c:210-219 | with such a region, logging a block again panics if and only if LOGSIZE blocks are in the log, and then every operation has spent its budget |
| `LogAdmission.AgainCanPanic` | xv6/log.c:210-219 | that panic can be reached if and only if the region has a slot |
| `LogAdmission.MkfsLogCanPanic` | xv6/mkfs.c:25 | the log mkfs lays out is on the panicking side |
| `LogAdmission.BufferLeftExactly` | xv6/bio.c:127-145 | in every reachable state bget finds a buffer to recycle if and only if blocks still to be installed and clean held buffers are together fewer than NBUF |
| `LogAdmission.CommitCanStarve` | xv6/log.c:172-186 | a run that ends in a commit with no buffer held, none to recycle and the first slot's block not cached |
| `LogTransaction.OneTransaction` | xv6/log.c:123-230 | in every region with a slot, a run that writes any data into any home block and ends, after the commit, with the data on the disk, the other home blocks as they were and the log idle |
| `BufferCache.CachedOnce` | xv6/bio.c:67-79 | no block is in two buffers |
| `BufferCache.RecycleKeeps` | xv6/bio.c:127-142 | taking over a buffer for a block not cached keeps the index right although the old slot goes stale |
| `BufferCache.UnlinkKeeps` | xv6/bio.c:181-182 | taking a buffer out leaves a circular doubly linked list of the others |
| `BufferCache.PushKeeps` | xv6/bio.c:183-186 | putting a buffer after the head leaves a circular doubly linked list with it first |
| `BufferCache.Cache.constructor` | xv6/bio.c:81-102 | the list holds every buffer once, no buffer has the device, every slot is empty |
| `BufferCache.Cache.Blookup` | xv6/bio.c:67-79 | one probe of the table answers what a scan of all buffers would |
| `BufferCache.FirstIsLatest` | xv6/bio.c:127-131 | the first clean and unheld buffer of the list is, of all such, the one released last |
| `BufferCache.Cache.Bget` | xv6/bio.c:105-146 | takes a cached free buffer, sleeps exactly on a held one, else recycles the clean unheld buffer released last; panics exactly when all are held or dirty |
| `BufferCache.Cache.Brelse` | xv6/bio.c:171-193 | moves the buffer to the front, so the list stays a permutation of all buffers in the order of their last release; panics exactly when it is not held |
| `InodeSpec.GetSetWord` | xv6/fs.c:667-674 | a little-endian block number stored in an indirect block reads back, and the others are untouched |
| `InodeSpec.AllocatedWf` | xv6/fs.c:57-89 | a block newly allocated belongs to nobody, and zeroing it changes no file |
| `InodeSpec.AttachInInode` | xv6/fs.c:652-664 | recording a fresh block in the inode changes no byte of any file and no other address |
| `InodeSpec.AttachInIndirect` | xv6/fs.c:667-674 | the same for an entry of the indirect block |
| `InodeSpec.WriteInImage` | xv6/fs.c:797-801 | bytes copied into a data block appear in that file at their offset, and in no other file |
| `InodeSpec.TruncatedWf` | xv6/fs.c:688-718 | clearing the addresses and bits of one inode empties it and leaves all others intact |
| `InodeFs.FileSystem.Balloc` | xv6/fs.c:57-89 | the first free block, zeroed and marked; panics exactly when none is free |
| `InodeFs.FileSystem.Bfree` | xv6/fs.c:91-110 | clears the bit; panics exactly when it is clear already |
| `InodeFs.FileSystem.Bmap` | xv6/fs.c:647-681 | the address of a block, allocated with the indirect block as needed; no byte of any file and no mapped address changes |
| `InodeFs.FileSystem.Readi` | xv6/fs.c:735-764 | fails exactly on a bad offset or a wrapping sum; else the bytes of the content from the offset, clipped at the end |
| `InodeFs.FileSystem.Writei` | xv6/fs.c:773-834 | fails, without touching the disk, exactly when the offset is past the end, the end reaches 2^32 or is past 70656 bytes; else the image is the old one with the bytes spliced in, the size grown, and every other file as before |
| `InodeFs.FileSystem.Filewrite` | xv6/file.c:117-165 | all is written exactly when the offset is within the file and the end at most 70656; else, from within the file, as many chunks of 6656 bytes as there is room for |
| `InodeFs.FileSystem.Itrunc` | xv6/fs.c:688-718 | frees exactly the blocks of this inode, meets no free block, empties the file, leaves the others |
| `InodeFs.ContentAfterWrite` | xv6/fs.c:773-834 | after a write inside a file or at its end the content is the old one with the bytes in the place they cover |
| `InodeFs.NoSharing` | xv6/fs.c:647-681 | no block is in two slots, of one file or two, and every mapped block has its bit set |
| `InodeFs.FreedExactly` | xv6/fs.c:688-718 | truncation clears a bit if and only if the block was mapped by that inode |
| `Mkfs.ImageFile.Iappend` | xv6/mkfs.c:340-385 | the content becomes the old content followed by the bytes, no other file changes, and exactly the blocks needed are taken; gives up exactly when the file would be too large or the image has too few blocks |
| `Mkfs.ImageFile.Readi` | xv6/mkfs.c:387-411 | reads the content as the kernel would, holes included, and fails exactly as the kernel does |
| `Mkfs.ImageFile.Rblock` | xv6/mkfs.c:413-429 | the sector the block map names; for a missing block, or one behind a missing indirect block, sector 0, which is zero |
| `Mkfs.ImageFile.RoundUp` | xv6/mkfs.c:199-204 | the root directory's content is filled up with zeros to the next multiple of 512; a hole arises exactly when the last block was full |
| `Mkfs.ImageFile.CopyContent` | xv6/mkfs.c:455-469 | the destination's content is followed by the whole content of the source, holes in it included; gives up exactly when that does not fit |
| `Checksum.Ichecksum` | xv6/fs.c:249-276 | the loop through a 2048-byte buffer computes the XOR of all 32-bit words of the zero-padded content; xv6/mkfs.c:431-453 is the same loop |
| `Checksum.ColumnParity` | xv6/fs.c:249-276 | two sums differ in a bit column if and only if an odd number of words do |
| `Checksum.UndetectedExactly` | xv6/fs.c:249-276 | two contents of equal length have the same checksum if and only if every bit column has an even number of differences |
| `Checksum.TwoFlipsMissed` | xv6/fs.c:249-276 | two different contents with the same checksum |
| `Checksum.SingleFlipDetected` | xv6/fs.c:249-276 | one flipped bit always changes the checksum |
| `Checksum.SumOfJoin` | xv6/fs.c:249-276 | the checksum of a whole number of words and what follows is the XOR of theirs |
| `Checksum.SumOfWord` | xv6/fs.c:249-276 | the checksum of up to four bytes is the word they make, the first byte lowest, missing ones zero |
| `Replica.WriteKeepsReplicas` | xv6/fs.c:773-834 | a write to any file leaves every file that agreed with its stored checksum and all its replicas in content, size and checksum so, whatever state other files are in |
| `ReplicaFs.Store.Iupdate` | xv6/fs.c:285-320 | stores the checksum of the content and gives size and checksum to the children |
| `ReplicaFs.Store.Cupdate` | xv6/fs.c:323-353 | a child takes size and checksum from its parent; never panics in a sound tree |
| `ReplicaFs.Store.WriteiExt` | xv6/fs.c:773-834 | for a file, the write to it and to all children that can take it, with size and checksum handed to them; for a replica, the bytes only; with skip, the file alone; fails exactly when the offset is past the end, the end reaches 2^32 or is past 70656 bytes |
| `ReplicaFs.WriteResultIs` | xv6/fs.c:773-834 | image, size and checksum of each inode after such a write |
| `ReplicaFs.Store.Iduplicate` | xv6/fs.c:619-635 | from any offset: the bytes up to the end of the last block of 512, with size and checksum of the source; past its end no bytes; a regular destination that took bytes has the checksum of its content |
| `ReplicaFs.CopyOfBytes` | xv6/fs.c:619-635 | each byte, the size and the checksum after such a copy |
| `ReplicaFs.Store.Ipropagate` | xv6/sysfile.c:559-595 | after all chunks each child has the content of the file; no other inode changes |
| `ReplicaFs.Store.Ialloc` | xv6/fs.c:189-214 | the first unused inode, made an empty replica; panics exactly when there is none |
| `ReplicaFs.Store.Duplicate` | xv6/sysfile.c:597-634 | gives a file of any size the replicas asked for, puts it and all its replicas in step, whatever its checksum was, and keeps every other file in step that was; gives up where such a replica exists; no inode gets a second child without a first |
| `ReplicaBlocks.WriteFollowed` | xv6/fs.c:773-834 | the same write made of block writes: the disk then holds every file as the write to byte images says, and every file that was in step with its replicas has the same content as they, on the disk; fails exactly when the offset is past the end, the end reaches 2^32 or is past 70656 bytes, and panics only on a full disk |
| `ReplicaBlocks.SameAfterWrite` | xv6/fs.c:773-834 | a disk that holds the files after such a write holds replicas equal in content to every file that was in step |
| `ReplicaBlocks.SameOnDisk` | xv6/fs.c:323-353 | a file and a replica in step, as byte images, have equal contents on the disk that holds them |
| `InodeLock.Icache.IlockExt` | xv6/fs.c:436-534 | whatever other processes do while it waits: terminates over acyclic children; the inode is held on return exactly when the result is 0, and nothing else newly; as found when it was acquired, a replica is returned exactly when the file is corrupt, the replica has the stored checksum and is intact, and it is the first such; neither changes from then on |
| `InodeLock.OutcomeIs` | xv6/fs.c:474-530 | said of stored checksums: the inode is held if it was verified, need not be or has its checksum; a replica is named only if it is a child, has the checksum stored for the file and is intact itself, and the first child if that is such |
| `InodeLock.SecondNeedsFirst` | xv6/fs.c:482-492 | a corrupt file that a child could stand in for is given up if and only if it has no first child |
| `InodeLock.CorruptedExactly` | xv6/fs.c:474-524 | where there is a second child only beside a first, a file is given up if and only if it is corrupt and no child can stand in |
| `InodeLock.FirstChildLost` | xv6/fs.c:482-492 | a table with an intact second child and no first, in which the file is given up |
| `InodeLock.Icache.Verify` | xv6/fs.c:474-524 | the retry loop: no inode is newly held, and of the inodes it keeps from others only intact ones become valid |
| `InodeLock.Icache.Irescue` | xv6/fs.c:588-615 | for any sizes, what the copy in chunks makes of the file, with both inodes held, and that nothing else changes |
| `InodeLock.RescueRestores` | xv6/fs.c:588-635 | the file has the replica's content afterwards if and only if the replica does not reach past the file's last block or agrees with it there; an empty file only from an empty replica |
| `InodeLock.RescueBytes` | xv6/fs.c:588-635 | each byte after a rescue: the replica's up to the end of the file's last block, the file's own past that; an empty file is left alone |
| `InodeLock.RescueFallsShort` | xv6/fs.c:588-635 | a table in which the lock calls for a rescue that leaves a file of one block unlike its intact replica of two |
| `InodeLock.EmptyStaysEmpty` | xv6/fs.c:588-635 | and one in which it leaves a file that lost its size empty, with a wrong checksum |
| `InodeLock.RescueChecksum` | xv6/fs.c:588-635 | and its stored checksum is right if and only if the replica reaches into the last chunk or has a right checksum stored itself; an empty file's is left alone |
| `InodeLock.BadSumTaken` | xv6/fs.c:588-635 | a table in which a rescue copies a wrong checksum |
| `InodeLock.Icache.IlockTrans` | xv6/fs.c:412-434 | whatever other processes do meanwhile: never panics; fails exactly when, as found, neither file nor replica is intact; rescues exactly when a replica can stand in, from one that, as found, had the checksum stored for the file and was intact, the first child if that was such; holds the inode exactly on success |
| `SleepWakeup.StepKeepsInv` | xv6/proc.c:350-405 | every step of sleep, wakeup, kill, yield, the scheduler and the locks keeps the invariant, for any number of processes |
| `SleepWakeup.NoLostWakeup` | xv6/proc.c:350-405 | in every reachable state, a process asleep or committed to sleeping on a true condition has a process that is not itself asleep or committed there and has yet to run the wakeup that will reach it |
| `SleepWakeup.SleepersHaveReason` | xv6/proc.c:350-405 | once all owed wakeups ran, every sleeper's condition is false |
| `SleepWakeup.MutualExclusion` | xv6/spinlock.c:24-64 | two processes never hold the same lock |
| `SleepWakeup.RunStates` | xv6/proc.c:257-428 | a process falls asleep only by its own sleep, runs only when picked, and is woken only by a kill or by a scan for its channel that comes to it; what it owes is settled only by a finished scan |
| `ProcTable.ExitedAt` | xv6/proc.c:172-212 | what exit does to every slot of the table |
| `ProcTable.ExitWait` | xv6/proc.c:172-212 | exit leaves no parent asleep in wait with a zombie child, neither its own nor init |
| `ProcTable.StepKeepsInv` | xv6/proc.c:128-428 | every step of fork, exit, wait, kill, sleep, wakeup and scheduling keeps the table's invariant |
| `ProcTable.EveryProcessHasLiveParent` | xv6/proc.c:128-255 | in every run a started process other than init, or a zombie, has a parent that is live and no zombie |
| `ProcTable.NoParentSleepsOnZombie` | xv6/proc.c:172-255 | with the lock free, nobody sleeps in wait while it has a zombie child |
| `ProcTable.FreedExactlyOnce` | xv6/proc.c:216-255 | a process that started is in one slot and not freed, or gone and freed exactly once |
| `ProcTable.Lifecycle` | xv6/proc.c:34-428 | a slot that is not running changes state only along the life of a process, each change by its one kind of step; a sleeper becomes runnable exactly by a wakeup on its channel, a kill of it, or an exit it waits for |
| `ProcTable.LifecycleRunning` | xv6/proc.c:172-405 | a running process stops running exactly by its own exit, wait, sleep or yield |
| `ProcTable.Identity` | xv6/proc.c:34-428 | which steps give, change and take away a pid, a parent and the kill mark; a new pid is larger than all in the table |
| `ProcScan.PTable.Wakeup1` | xv6/proc.c:388-396 | exactly the processes asleep on the channel become runnable; no other field changes |
| `ProcScan.PTable.AllocProc` | xv6/proc.c:34-52 | the first unused slot becomes an embryo with a fresh pid; fails exactly when there is none |
| `ProcScan.PTable.Exit` | xv6/proc.c:194-210 | the loop computes the exit step: parent woken, children adopted, init woken exactly if a zombie was adopted, self a zombie |
| `ProcScan.PTable.Wait` | xv6/proc.c:216-255 | one pass: reaps the first zombie child, else returns -1 exactly without children or when killed, else sleeps |
| `ProcScan.PTable.Kill` | xv6/proc.c:410-428 | the first slot with the pid is marked, runnable if it slept, and otherwise as it was; fails exactly when there is none |
| `PageTable.NewTable` | xv6/vm.c:45-65 | a zeroed table on an absent directory entry changes no mapping of any address space |
| `PageTable.SetPteWf` | xv6/vm.c:70-90 | rewriting one entry moves one frame between places and changes no other mapping |
| `PageTable.OnePlace` | xv6/vm.c:220-337 | a user page's frame is in no other mapping, no table, no directory and not on the free list |
| `PageTable.PopOk` | xv6/kalloc.c:82-95 | taking the first page leaves a sound list of the rest |
| `PageTable.PushOk` | xv6/kalloc.c:59-77 | freeing a page that is not free leaves a sound list with it first |
| `PageTable.SweepJump` | xv6/vm.c:259-262 | no page the 4 MB skip jumps over counts as visited, and the sweep goes on from a position it can be in |
| `PageTable.SweepComplete` | xv6/vm.c:249-273 | deallocuvm visits every page that has a table if and only if it does not start off a 4 MB boundary in a run of missing tables ended by a present one |
| `Vm.Memory.Freerange` | xv6/kalloc.c:45-52 | exactly the pages of the range join the free list |
| `Vm.Memory.Kalloc` | xv6/kalloc.c:82-95 | the first free page; fails exactly when there is none |
| `Vm.Memory.Kfree` | xv6/kalloc.c:59-77 | the page is filled with ones and first on the list; panics exactly for an address that is not a page's, below the kernel's end or past PHYSTOP |
| `Vm.Memory.Walkpgdir` | xv6/vm.c:45-65 | the table of a page, made when asked for; no mapping changes; fails exactly when absent and not wanted or not available |
| `Vm.Memory.Mappages` | xv6/vm.c:70-90 | maps consecutive pages to consecutive frames; panics only on a page already mapped; fails only when fewer pages are free than tables are missing, and takes exactly those; on failure a prefix is mapped |
| `Vm.Memory.Setupkvm` | xv6/vm.c:128-144 | a new directory with physical memory mapped frame by frame from 0x80000000, its text not writable, the devices at their own addresses, and no other page; takes 65 pages and fails exactly when fewer are free, which are then lost; never panics; every page that was not free is untouched |
| `Vm.KernelSees` | xv6/vm.c:120-125 | so the kernel reaches every frame at its address in every such space |
| `Vm.SetupLosesAll` | xv6/vm.c:128-144 | a run in which ten free pages are lost |
| `Vm.Memory.Allocuvm` | xv6/vm.c:220-243 | with as many free pages as pages and missing tables, all pages are mapped zeroed and exactly those are taken; success with only the last page missing exactly when one is lacking for its table; else failure with none left mapped; what was mapped before, and every directory entry outside the range, is untouched |
| `Vm.LastPageMissing` | xv6/vm.c:232-241 | a run in which it reports 4096 bytes and maps none |
| `Vm.SweepMisses` | xv6/vm.c:259-262 | a run in which deallocuvm to 4096 bytes leaves a page at 4 MB mapped |
| `Vm.Memory.Deallocuvm` | xv6/vm.c:249-273 | unmaps and frees exactly the pages the sweep visits, each once |
| `Vm.Memory.Freevm` | xv6/vm.c:277-292 | every user page, table and the directory of this space goes to the free list once; every other page is untouched |
| `Vm.Memory.Copyuvm` | xv6/vm.c:309-337 | a space with the kernel mapped whose pages have the same flags and contents in other frames; takes 65 pages, one for each page and one for each 1024 begun; panics exactly at the first absent page of the original, if the pages last that long, and fails exactly when they do not; then all are free again, but for one exactly when they ran out at the table of a page already taken; every other space maps what it did |
| `Vm.CopyLosesPage` | xv6/vm.c:325-337 | a run in which that page is lost |
| `Umalloc.InsertMeaning` | xv6/umalloc.c:24-44 | freeing adds exactly the block's units and leaves the list ordered and fully coalesced |
| `Umalloc.TakeCoalesced` | xv6/umalloc.c:75-84 | taking from the tail of a chunk, or all of it, keeps the list ordered and coalesced |
| `Umalloc.TakeCovers` | xv6/umalloc.c:75-84 | it removes exactly the units handed out |
| `Umalloc.FreeListCanonical` | xv6/umalloc.c:24-44 | two coalesced lists with the same free units are the same list |
| `UmallocHeap.UnitsForBounds` | xv6/umalloc.c:69 | the units for the bytes asked for and a header, and no more, if and only if the 32-bit sum does not wrap; fewer than memory can have if and only if the request is at most 0x7FFFFFF0 bytes or wraps |
| `UmallocHeap.AskGrants` | xv6/umalloc.c:54 | the 32-bit byte count, taken as signed by sbrk (xv6/proc.c:107-122), grants the units asked for, at least 4096, below that bound; from there on memory shrinks by the units that wrap, or stays, and sbrk reports success unless the shrink ends at 0 |
| `UmallocHeap.GrantOfNothing` | xv6/umalloc.c:54 | a request for 0xFFFFFFF8 bytes asks sbrk for none and gets them |
| `UmallocHeap.Heap.FindPlace` | xv6/umalloc.c:30-32 | the search for a place in the circular list terminates at the header before the block |
| `UmallocHeap.Heap.Free` | xv6/umalloc.c:24-44 | the block leaves the live blocks and its units join the free ones; list circular, ordered, coalesced, disjoint from live blocks; free plus live units stay what they were |
| `UmallocHeap.Heap.Morecore` | xv6/umalloc.c:46-61 | at least 4096 units at the end of memory join the free list, whatever sbrk granted, or nothing changes when it fails |
| `UmallocHeap.Heap.Search` | xv6/umalloc.c:74-87 | one trip round the list finds the first chunk after freep that is large enough, if there is one |
| `UmallocHeap.Heap.Malloc` | xv6/umalloc.c:63-90 | a block of the units asked for, from free units or new ones, overlapping nothing; the tail of the first chunk after freep that fits; sbrk is asked exactly when nothing fits, and 0 means it failed; terminates; in a heap backed by memory the block is backed and has room if and only if the request is at most 0x7FFFFFF0 bytes, and free plus live units stay those granted unless the request lies between that and 0xFFFFFFF8 |
| `ShellGrammar.PrintParse` | xv6/sh.c:328-447 | every command tree printed with the parentheses it needs parses back to itself |
| `ShellGrammar.ParsePrintParse` | xv6/sh.c:328-447 | whatever parses can be printed and parsed again to the same tree |
| `ShellSyntax.WrittenIsParsed` | xv6/sh.c:328-447 | every line written from a syntax tree parses to what the tree means, wherever redirections stand among the words; only a simple command of ten words or more is refused |
| `ShellSyntax.ParsedIsWritten` | xv6/sh.c:328-447 | whatever parses is written from a syntax tree with that meaning |
| `ShellSyntax.FileMissing` | xv6/sh.c:381-384 | a simple command that ends in a redirection without its file word fails as such |
| `ShellSyntax.ParenAfterWords` | xv6/sh.c:428-438 | a parenthesis after words or redirections is a syntax error |
| `ShellSyntax.ParenNotClosed` | xv6/sh.c:400-414 | a parenthesis not closed at the end is reported |
| `ShellSyntax.ParenTooMany` | xv6/sh.c:328-343 | a closing parenthesis too many is reported as leftovers |
| `ShellSyntax.AppendIsOutput` | xv6/sh.c:375-398 | every token list parses, or fails to, as it does with `>` for every `>>` |
| `ShellLexer.LexRender` | xv6/sh.c:266-309 | tokens rendered as text are read back as the same tokens |
| `ShellLexer.LexSpelled` | xv6/sh.c:266-309 | tokens are read back however they are spaced, as long as white space parts them where they would merge |
| `ShellLexer.SpellingOf` | xv6/sh.c:266-309 | every line is such a spelling of the tokens read from it |
| `ShellLexer.TypedRoundTrip` | xv6/sh.c:266-447 | a command typed as text is parsed to that command |
| `ShellParser.GetToken` | xv6/sh.c:266-309 | advances the cursor past exactly the next token of the line and reports its kind and span |
| `ShellParser.Peek` | xv6/sh.c:311-321 | skips white space and tells whether the next token is one of the given symbols |
| `ShellParser.ParseRedirections` | xv6/sh.c:375-398 | collects the redirections the grammar says, in order |
| `ShellParser.ParseBlock` | xv6/sh.c:400-414 | a parenthesised line with its redirections, as the grammar says |
| `ShellParser.ParseExecAt` | xv6/sh.c:416-447 | the command at the cursor is the grammar's, or the same error |
| `ShellParser.ParsePipeAt` | xv6/sh.c:362-373 | the same for pipelines |
| `ShellParser.ParseLineAt` | xv6/sh.c:345-360 | the same for lines; terminates on every input |
| `ShellParser.NulTerminate` | xv6/sh.c:449-494 | writes NULs at the ends of the words and nowhere else |
| `ShellParser.EndsOutsideWords` | xv6/sh.c:449-494 | no such end is a character of a word |
| `ShellParser.ParseCmd` | xv6/sh.c:328-343 | the words of the result, read as C strings from the changed buffer, are those of the parsed command; on an error the buffer is untouched |
| `Recency.TouchCapped` | xv6/hashbuf.c:156-191 | referencing a page in the capped list is capping the list after the reference |
| `Recency.CacheIsMostRecent` | xv6/hashbuf.c:156-191 | after any run of references the cache is the distinct pages by last use, most recent first, capped |
| `LruQueue.Queue.DeQueue` | xv6/hashbuf.c:96-116 | drops exactly the rear node |
| `LruQueue.Queue.Enqueue` | xv6/hashbuf.c:120-149 | the page comes in front; with all frames full the rear page leaves list and array |
| `LruQueue.Queue.ReferencePage` | xv6/hashbuf.c:156-191 | the linked nodes stay the pure cache of all references so far, and the array maps exactly those pages to their nodes |
| `LruQueue.HoldsMostRecent` | xv6/hashbuf.c:156-191 | so the queue is the most recent distinct pages in order, capped at the frames |
| `Pipe.Wraps` | xv6/pipe.c:84 | the wrapping comparisons decide full and empty exactly, for counters of any size |
| `Pipe.Pipe.Pipewrite` | xv6/pipe.c:77-97 | appends the bytes in order as far as there is room; writes all, sleeps or fails exactly as room, read end and kill flag say; sleeping readers go on having nothing to read, unless a killed process had more than 512 bytes to write while one slept |
| `Pipe.Pipe.Piperead` | xv6/pipe.c:99-120 | in every state delivers the next bytes in order, as many as asked for or there are; sleeps exactly when empty with the write end open and not killed |
| `Pipe.Pipe.Pipeclose` | xv6/pipe.c:58-74 | wakes whoever waits for the closed end; frees the pipe exactly when both are closed |
| `Pipe.Pipe.NeverBothAsleep` | xv6/pipe.c:77-120 | readers and writers never sleep at once, while sleeping readers have nothing to read |
| `Pipe.KilledWriterStrandsReader` | xv6/pipe.c:84-88 | a run that ends with a reader asleep and 512 bytes to read |
| `Grep.Match` | xv6/grep.c:72-82 | true if and only if the text has a match: at its start after a caret, else anywhere |
| `Grep.MatchHere` | xv6/grep.c:85-96 | true if and only if a prefix of the text is in the pattern's language, the whole text if it ends in a dollar; terminates |
| `Grep.MatchStar` | xv6/grep.c:99-106 | true if and only if some run of the character is followed by a match of the rest |
| `Grep.PlainSearch` | xv6/grep.c:72-106 | a pattern without special characters matches exactly the texts it occurs in |
| `Grep.PlainWhole` | xv6/grep.c:72-106 | between a caret and a dollar it matches only itself |
| `Grep.AnyText` | xv6/grep.c:72-106 | a dot stands for any one character and `.*` for any text |

## Left out

- ReplicaFs.Store.Duplicate: does not model the transaction and the lock that its early returns leave open.
- InodeFs.FileSystem.Filewrite: requires a regular file, because a replica's size is set by its parent; the return for a corrupted inode is the subject of InodeLock.Icache.IlockTrans, and the children of ReplicaBlocks.WriteFollowed.
- InodeFs.FileSystem.Writei: does not write the children, which is the subject of ReplicaBlocks.WriteFollowed.
- Vm.Memory.Deallocuvm: requires the old size to be at most KERNBASE, as all its callers guarantee.
- UmallocHeap.Heap.Malloc: has no page faults, so it returns a block where the write of its header would fault first. It does not go on to `sbrk` again once blocks lie past the end of memory, because nothing holds of such a heap.
- ReplicaBlocks.WriteFollowed: has no stored checksums, which Replica and ReplicaFs have.
- Mkfs.ImageFile.RoundUp: requires a directory below the largest size; mkfs has 300 inodes, whose entries take 4800 bytes.
- Deadlock: `irescue` locks a replica before its file, `ilock_ext` the other way round; the results are about calls that return.
- Reference counts of cached inodes, because the replica code takes references it never drops.
- The bytes of bitmap, inode and super blocks: the bitmap is a sequence of bits, and inode fields are records that are the same in memory and on disk.
- Directories, path lookup and the file descriptor layer: easy next to the inode content they use.
- Device inodes, drivers, the console and the disk's registers.
- The fields of a process other than state, pid, parent, channel and kill flag; open files and the current directory.
- Wrap-around of pids.
- `pushcli` and `popcli`, and the panics of `sched` about interrupts: a counter and a flag per CPU with no state beside them.
- `loaduvm`, `copyout`, `uva2ka`, `clearpteu` and segment setup: each looks up one page at a time through the tables modelled here.
- Running a parsed shell command, and the line buffering of `grep`.
- The number of replicas `create` chooses: it depends on a counter that is never initialised.
