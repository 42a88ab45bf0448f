# Verified models of three EC440 systems

Three small systems programs, each modelled in the form it has in C (tables, arrays and linked
lists updated in place) and proved against a plain description of what it is for.

**The FAT file system (`EC440/EC440_HW5/fs.c` over `disk.c`).** `FileSystems.FileSystem` holds the
in-memory table, the directory, the descriptors and the disk, and its methods follow the C functions.
`AbstractFs` says what they mean: a map from names to byte strings with a block count each, a table of
handles, and a number of free blocks. `AbstractFs.Step` is exact: it gives the return code and the new
state of every call, short writes, gap filling and the early failures included. The invariant
(`Volumes.Inv`, part of `Session`) says that every file's chain of blocks lies in the data area, has no
repetition, is disjoint from all others, is linked in the table in order and ends in `FAT_EOF`; that a
data block is free exactly when no chain has it; that a size never exceeds its blocks; that names are
distinct. The main results:

- `FormatMountAndRun` and `RunSession`: every sequence of calls returns, and leaves behind, what the
  abstract run says; as long as the files use at most 2044 blocks, all chains stay in the saved part
  of the table.
- `FormatAndRunSessions`: after formatting, any number of sessions with unmounting and mounting between
  them keeps every file and gives the results of a reliable disk of 2044 blocks, whatever memory holds
  in the unsaved part of the table at each mount, as long as every write fits that disk. `RunRoomier`
  shows that such sessions cannot tell how many blocks the garbage took, and `AllFitIffWithin` that
  "every write fits" is the same as "one block more would never be used".
- `RemountIffLow`: the saved image of a session mounts to the session's files for every content of
  memory if and only if all chains are in the saved part; `LeaveSavedPart` is a session that leaves it.
- `FileLaws` says what callers can count on without reading the steps: reads compose, writes compose,
  every byte and offset after a write or truncation, what creating, deleting, opening and closing undo.
  The methods state the same on the tables themselves, and `SavedIsDurable` that losing the memory
  after a saving call loses no file.
- On every abstract run, block counts are tight (`RunTight`), every byte of a file is 0, or was at its
  place at the start, or was put there by a write of the run through a handle of that file
  (`ByteOrigin`), so bytes that were cut off never come back (`NoBytesComeBack`), and untouched files do
  not change (`OtherFilesUnchanged`).

**Copy-on-write thread-local storage (`EC440/EC440_HW4/tls.c`).** `ThreadLocalStorage.Library` has page
objects with reference counts, storage objects that share them and a hash table of linked buckets.
`PrivateArrays` is the simple form: each thread has a byte array of its own and a clone copies it.
`ServeAll` proves that every sequence of calls by any threads gives the answers of the simple form, and
these are the answers that the history of accepted calls asks for (`AnswersFollowHistory`).
The pure argument about sharing, splitting and releasing is in `CopyOnWrite`.

**The threading library (`EC440/EC440_HW3/threads.c`).** `ThreadMachine` is a state machine whose
steps are the calls of the current thread and the timer tick; `ThreadScheduler.Scheduler` is the
library itself, with its scheduler loop and arrays, and refines the machine step by step
(`RunSteps`). `ThreadLaws` says what each step does, to whom, and to nobody else; `ThreadRuns` and
`ThreadSemaphores` prove what every run keeps: exits are permanent, a ready thread is scheduled
within as many scheduler calls as there are threads, a semaphore's value and waiters follow from the
accepted posts and waits, and no more waits return than those allow (`ReturnsBounded`), if thread 0
never waits.

## Where the code differs from its documentation

- `EC440/EC440_HW3/README.md` says that exiting wakes the threads that joined the exiting thread. The loop
  at threads.c:86-90 looks for a blocked entry whose id is the exiting thread's own, which is not
  blocked, so it wakes nobody (`Scheduler.PthreadExit`). `JoinReturnsNowOrNever` gives the exact
  consequence and `JoinIsNotWoken` a run. Thread 0 is different: the scheduler never passes it over, so
  its join polls, and returns once the target has exited (`MainJoinPolls`, `MainJoinReturns`).
- The same README says that `sem_post` wakes the first thread in the queue. The code takes the last
  (threads.c:203): `PostTakesFirstIffAlone` gives the exact condition, `SecondWaiterFirst` a run from the
  start in which the second waiter is woken, and `WaitersLeaveLastFirst` the order on every run.
- The exit of thread 0 is not always permanent: `MainExitPermanentIff` gives the exact condition and
  `MainExitUndone` a run from the start.
- A wait that finds no unit can return without a post if and only if it is thread 0 that waits, since
  the scheduler resumes thread 0 in any state (`UnpostedWaitReturnsIffMain`, `MainSlipsThrough`).
- `sem_init` stores an unsigned argument in an int: `NonNegativeIffFits`.
- `EC440/EC440_HW5/README.md` speaks of inodes, indirect blocks and a bitmap; `fs.c` has a linked
  allocation table, and only the first 2048 of its 8192 entries are saved.
- The allocation loops at fs.c:347-363 and 446-462 would overwrite the head of a chain. They are never
  entered (`Locate` proves the walk ends inside a block), so the methods do not contain them.
- `make_fs` while a disk is mounted returns -1, but only after the disk has been filled with zeros
  (`MakeFs`).

## Model

| member | source | states |
|---|---|---|
| FileSystems.FileSystem.FormatMountAndRun | EC440/EC440_HW5/fs.c:112-671 | from any disk contents, formatting, mounting and any sequence of calls gives the results and the files of the abstract run from the empty file system; what is in uninitialised memory decides only the number of free blocks, between 2044 and 8188; all chains stay in the saved part while the files use at most 2044 blocks |
| FileSystems.FileSystem.FormatAndRunSessions | EC440/EC440_HW5/fs.c:112-671 | from any disk contents: any number of sessions, each ended by unmounting and mounting again, gives the results and the files of a disk of 2044 blocks without any memory but the files, as long as all writes fit that disk |
| FileSystems.FileSystem.RunSessions | EC440/EC440_HW5/fs.c:145-671 | the same from any session whose chains are in the saved part, which holds again at the end |
| FileSystems.FileSystem.LeaveSavedPart | EC440/EC440_HW5/fs.c:51-59 | a session from formatting whose one file of 2045 blocks leaves the saved part of the table |
| FileSystems.FileSystem.RunSession | EC440/EC440_HW5/fs.c:214-671 | any sequence of calls in a mounted session gives exactly the abstract run; if the files never use more than 2044 blocks, all chains stay in the saved part |
| FileSystems.FileSystem.RunAndRemount | EC440/EC440_HW5/fs.c:145-212 | after such a session, unmounting and mounting restores every file, closes all descriptors, and leaves all chains in the saved part, so that another session can follow |
| FileSystems.FileSystem.Perform | EC440/EC440_HW5/fs.c:214-671 | any single call refines the abstract step and keeps the session's invariant |
| FileSystems.FileSystem.FsWrite | EC440/EC440_HW5/fs.c:315-535 | the whole effect of a write: gap filled with zeros, as many of the bytes as the disk has room for laid over the content, offset, size, blocks and return value, nothing else changed; early failures as in the code; with the offset inside the file it returns exactly min(n, (k+f)*4096 - offset), and n if any block is left free; on the tables, one offset, size and first block change by what is returned, and the disk records the tables |
| FileSystems.FileSystem.EnsureFirstBlock | EC440/EC440_HW5/fs.c:326-333 | succeeds exactly when the file has room at all; otherwise changes nothing |
| FileSystems.FileSystem.FillGap | EC440/EC440_HW5/fs.c:335-434 | reaches the offset exactly when the file's own blocks and the free ones have room for it; reports how many zeros went in |
| FileSystems.FileSystem.AppendZeros | EC440/EC440_HW5/fs.c:386-431 | appends exactly min(needed, room) zeros to the content |
| FileSystems.FileSystem.WriteData | EC440/EC440_HW5/fs.c:436-534 | with the offset inside the file: content overlaid with the bytes that fitted, offset and size moved, no stray change |
| FileSystems.FileSystem.PutAtOffset | EC440/EC440_HW5/fs.c:464-526 | lays exactly min(n, room - offset) bytes over the content |
| FileSystems.FileSystem.PutBytes | EC440/EC440_HW5/fs.c:490-526 | the block-by-block loop: bytes land at consecutive positions, blocks are added as needed, it stops short only when no block is free and the last one is full |
| FileSystems.FileSystem.PutPiece | EC440/EC440_HW5/fs.c:498-525 | one round of that loop, with the move to the next block |
| FileSystems.FileSystem.PatchBlock | EC440/EC440_HW5/fs.c:491-509 | read, patch and write back changes only the given bytes of the one file |
| FileSystems.FileSystem.NextBlock | EC440/EC440_HW5/fs.c:514-525 | follows the chain, or extends it by one block, or finds the disk full |
| FileSystems.FileSystem.Locate | EC440/EC440_HW5/fs.c:436-483 | finds the block of an offset, appending one if the offset is at the end of the chain; the walk always ends inside a block |
| FileSystems.FileSystem.Walk | EC440/EC440_HW5/fs.c:441-444 | walking a chain for an offset ends at the block of that offset or at the end of the chain |
| FileSystems.FileSystem.LastBlock | EC440/EC440_HW5/fs.c:476-479 | the search for FAT_EOF terminates at the last block of the chain |
| FileSystems.FileSystem.AllocateBehind | EC440/EC440_HW5/fs.c:417-426 | the first free block becomes the last of the chain, and nothing else changes; failure means no block is free |
| FileSystems.FileSystem.AllocateFreeBlock | EC440/EC440_HW5/fs.c:51-59 | first fit: the lowest free data block is marked, or none is free |
| FileSystems.FileSystem.FreeBlockChain | EC440/EC440_HW5/fs.c:61-68 | on any table whose links stay in range, cyclic or not: terminates and clears exactly the entries reachable from the start |
| FileSystems.FileSystem.FsRead | EC440/EC440_HW5/fs.c:258-313 | returns min(n, size - offset) bytes of the content, or 0 at or past the end; on the tables, the descriptor's offset moves by that count and nothing else changes; -1 exactly for a descriptor that is not in use |
| FileSystems.FileSystem.CopyOut | EC440/EC440_HW5/fs.c:278-309 | the bytes copied are the requested slice of the content; the "beyond EOF" return is never taken |
| FileSystems.FileSystem.FsLseek | EC440/EC440_HW5/fs.c:619-633 | moves the offset of one descriptor to a place in its file, or changes nothing |
| FileSystems.FileSystem.FsTruncate | EC440/EC440_HW5/fs.c:635-671 | keeps the first L bytes and min(k, L/4096 + 1) blocks and frees exactly the rest; on the tables, the calling descriptor's offset is the lesser of the old one and L, so inside the file, every other descriptor and entry is as it was, the size is L, and the disk records the tables |
| FileSystems.FileSystem.CutChain | EC440/EC440_HW5/fs.c:647-659 | the table afterwards is the old one with the chain ended after the kept blocks and the others free |
| FileSystems.FileSystem.FsDelete | EC440/EC440_HW5/fs.c:537-564 | removes a file that nobody has open: no slot has the name, every other slot is as it was, the free blocks have grown by its chain, and the disk records the tables; otherwise fails without a change |
| FileSystems.FileSystem.FsCreate | EC440/EC440_HW5/fs.c:214-230 | fills one unused slot with an empty file of that name, every other slot as it was, or fails when the name is too long, taken, or the directory full |
| FileSystems.FileSystem.FsOpen | EC440/EC440_HW5/fs.c:232-248 | opens an existing file at offset 0 under the lowest free descriptor, every other descriptor as it was |
| FileSystems.FileSystem.FsClose | EC440/EC440_HW5/fs.c:250-256 | closes one descriptor, mounted or not |
| FileSystems.FileSystem.FindFileInDirectory | EC440/EC440_HW5/fs.c:79-87 | finds the used slot with that name, or there is none |
| FileSystems.FileSystem.FindFreeDirectoryEntry | EC440/EC440_HW5/fs.c:70-77 | finds an unused slot, or all are used |
| FileSystems.FileSystem.WriteMetadataToDisk | EC440/EC440_HW5/fs.c:89-110 | the disk records superblock, the first 2048 entries of the table and the directory; no data block changes |
| FileSystems.FileSystem.MakeFs | EC440/EC440_HW5/fs.c:112-143 | leaves a good image without files; while mounted it fails but has zeroed the disk |
| FileSystems.FileSystem.MountFs | EC440/EC440_HW5/fs.c:145-200 | a good image mounts to exactly its files, all descriptors closed, whatever the unsaved entries hold; a wrong magic number fails |
| FileSystems.FileSystem.LoadTables | EC440/EC440_HW5/fs.c:175-194 | the saved entries and the directory are read back, the rest of the table is left as it was |
| FileSystems.FileSystem.UmountFs | EC440/EC440_HW5/fs.c:202-212 | records the session; with all chains in the saved part the image holds exactly the session's files |
| FileSystems.FileSystem.SavedIsDurable | EC440/EC440_HW5/fs.c:89-110 | after any call that saves (a write, truncation or deletion that took effect), with low chains, the disk alone holds an image that mounts to all files of the session |
| Disks.Disk.MakeDisk | EC440/EC440_HW5/disk.c:14-36 | every block is zero |
| Disks.Disk.OpenDisk | EC440/EC440_HW5/disk.c:38-61 | fails exactly when open already |
| Disks.Disk.CloseDisk | EC440/EC440_HW5/disk.c:63-75 | fails exactly when not open |
| Disks.Disk.BlockWrite | EC440/EC440_HW5/disk.c:77-100 | replaces one block in range of an active disk, and only that |
| Disks.Disk.BlockRead | EC440/EC440_HW5/disk.c:102-125 | yields the block in range of an active disk |
| AbstractFs.StepBounded | EC440/EC440_HW5/fs.c:214-671 | every call keeps ceil(size/4096) <= blocks, and blocks <= size/4096 + 1 |
| AbstractFs.RunTight | EC440/EC440_HW5/fs.c:315-671 | the size/chain relation holds after every run |
| AbstractFs.WriteToTight | EC440/EC440_HW5/fs.c:326-534 | a write never loses a block: blocks of the file plus free blocks stay constant, and the count stays tight |
| AbstractFs.ShortWriteBound | EC440/EC440_HW5/fs.c:436-534 | the same bound on the abstract write: exactly min(n, (k+f)*4096 - offset); if a block is left free, all bytes were written |
| Growth.WriteBound | EC440/EC440_HW5/fs.c:436-534 | whatever realises the abstract write meets the bound in terms of the tables |
| Sessions.StepConserves | EC440/EC440_HW5/fs.c:214-671 | every call conserves blocks: those in use by all files plus the free ones |
| Sessions.RunRoomier | EC440/EC440_HW5/fs.c:315-535 | a run whose writes all fit gives the same results and files on a disk with more free blocks, and never uses more than it would have had |
| Sessions.AllFitIffWithin | EC440/EC440_HW5/fs.c:315-535 | all writes of a run fit if and only if, with one block more, the files would never use that block |
| Sessions.BigFileUses | EC440/EC440_HW5/fs.c:315-535 | a file of 2045 blocks can be written whenever so many are free |
| Calls.OwnedBlocks | EC440/EC440_HW5/fs.c:51-68 | the blocks in chains are as many as the files account for |
| Calls.SpareBlocks | EC440/EC440_HW5/fs.c:145-200 | a freshly mounted session with low chains is the abstract disk of 2044 blocks with some spare ones |
| AbstractFs.NoStaleBytes | EC440/EC440_HW5/fs.c:335-534 | every byte after a write is an old one, a zero of the gap, or a byte of the buffer at its place |
| AbstractFs.ByteOrigin | EC440/EC440_HW5/fs.c:335-671 | after any run, each byte of a file is 0, or was at that place at the start, or was put at that place by a write of the run through a handle of that file |
| AbstractFs.NoBytesComeBack | EC440/EC440_HW5/fs.c:335-671 | from any state, on every run: where the file did not reach, it holds only zeros and bytes that the run itself wrote to this file at this place |
| AbstractFs.OtherFilesUnchanged | EC440/EC440_HW5/fs.c:214-671 | on every run, a file that no call names or has open under its descriptor keeps its bytes and blocks |
| AbstractFs.ReadBack | EC440/EC440_HW5/fs.c:258-535 | write, seek back, read returns the bytes that were written |
| FileLaws.FailureChangesNothing | EC440/EC440_HW5/fs.c:214-671 | a call that returns -1 has changed nothing |
| FileLaws.OtherHandlesKept | EC440/EC440_HW5/fs.c:214-671 | a call changes no descriptor but its own or the one it opens |
| FileLaws.ReadLaw | EC440/EC440_HW5/fs.c:258-313 | the bytes of a read by position, and the offset moved by their number |
| FileLaws.ReadsCompose | EC440/EC440_HW5/fs.c:258-313 | two reads in a row return together what one read of both lengths returns |
| FileLaws.SeekThenRead | EC440/EC440_HW5/fs.c:619-633 | a seek succeeds exactly inside the file, and the next read starts there |
| FileLaws.WriteLaw | EC440/EC440_HW5/fs.c:315-535 | byte by byte, what a write that fits leaves, and the offset moved past it |
| FileLaws.WritesCompose | EC440/EC440_HW5/fs.c:315-535 | two writes in a row do what one write of both buffers does |
| FileLaws.MisfitLaw | EC440/EC440_HW5/fs.c:315-535 | a write that does not fit takes every free block; bytes, offset and return value with and without reaching the offset |
| FileLaws.TruncateLaw | EC440/EC440_HW5/fs.c:635-671 | succeeds exactly for a length that the file has; prefix kept, calling descriptor inside the file |
| FileLaws.TruncateThenWrite | EC440/EC440_HW5/fs.c:663-666 | after a truncation below its offset a descriptor appends right at the cut, without a gap |
| FileLaws.CreateLaw | EC440/EC440_HW5/fs.c:214-230 | succeeds exactly for a legal new name while there is room; a second creation fails, and deleting brings the old state back |
| FileLaws.DeleteLaw | EC440/EC440_HW5/fs.c:537-564 | succeeds exactly for a file that nobody has open; the name is gone and can be created again, the blocks are back, the others stay |
| FileLaws.OpenLaw | EC440/EC440_HW5/fs.c:232-256 | succeeds exactly for an existing name with a closed descriptor; reading starts at the beginning, closing brings the old state back |
| FileLaws.CloseLaw | EC440/EC440_HW5/fs.c:250-256 | every call refuses a closed descriptor |
| FileLaws.NextSessionReads | EC440/EC440_HW5/fs.c:145-212 | after unmounting and mounting, opening and reading finds the bytes that were left |
| Volumes.BlockConservation | EC440/EC440_HW5/fs.c:51-68 | free blocks, chain blocks and blocks lost at mount always add up to the data area |
| Volumes.FirstFitIsLow | EC440/EC440_HW5/fs.c:51-59 | first fit stays in the saved part while fewer than 2044 blocks are owned |
| Volumes.ExtendChains | EC440/EC440_HW5/fs.c:417-426 | linking a free block keeps all chains acyclic, disjoint and terminated |
| Volumes.CutChains | EC440/EC440_HW5/fs.c:647-659 | so does cutting a chain |
| Volumes.CutAccounted | EC440/EC440_HW5/fs.c:655-659 | cutting frees exactly the blocks behind the cut |
| Volumes.PatchView | EC440/EC440_HW5/fs.c:498-503 | patching one block of a chain overlays the content, by div and mod of the position |
| Volumes.ViewIsConcatenation | EC440/EC440_HW5/fs.c:287-309 | a file's content is the first `filesize` bytes of its concatenated blocks |
| Growth.WriteAfterGap | EC440/EC440_HW5/fs.c:436-534 | a write that reaches its offset amounts to the abstract write |
| Growth.WriteInGap | EC440/EC440_HW5/fs.c:391-431 | a write whose gap does not fit amounts to the abstract write that returns the zeros added |
| Growth.WriteNothing | EC440/EC440_HW5/fs.c:322-331 | no bytes, or no first block to be had: nothing changes and 0 is returned |
| Growth.GrownAbs | EC440/EC440_HW5/fs.c:315-535 | growing one chain and patching its blocks changes one file, one handle and the free count in the abstraction |
| Growth.GrowInv | EC440/EC440_HW5/fs.c:417-426 | allocation keeps the session invariant |
| Growth.GrowLow | EC440/EC440_HW5/fs.c:51-59 | allocation leaves the saved part of the table only when more blocks are used than it has |
| Calls.TruncateAbs | EC440/EC440_HW5/fs.c:635-671 | the concrete cut of table, directory and descriptor is the abstract truncation |
| Calls.DeleteAbs | EC440/EC440_HW5/fs.c:555-563 | the concrete deletion is the abstract one |
| Calls.CreateAbs | EC440/EC440_HW5/fs.c:219-229 | filling a free slot is the abstract creation |
| Calls.CreateFails | EC440/EC440_HW5/fs.c:215-220 | when the code refuses to create, so does the abstraction: the directory is full exactly when the map has 64 names |
| Calls.OpenAbs | EC440/EC440_HW5/fs.c:235-245 | taking the lowest unused descriptor is the abstract opening |
| Calls.CloseAbs | EC440/EC440_HW5/fs.c:254 | clearing a descriptor is the abstract closing |
| Calls.SeekAbs | EC440/EC440_HW5/fs.c:631 | moving an offset moves one handle |
| Calls.StoredMatches | EC440/EC440_HW5/fs.c:81-82 | strncmp on the stored buffer decides equality of names |
| Calls.OpenNames | EC440/EC440_HW5/fs.c:547-551 | a descriptor refers to the slot exactly when the name is open |
| Calls.FreedTable | EC440/EC440_HW5/fs.c:61-68 | freeing what is reachable from a position of a chain frees exactly the rest of that chain |
| Refinement.DirectoryFull | EC440/EC440_HW5/fs.c:70-77 | there are as many files as used slots |
| Refinement.FilesWith | EC440/EC440_HW5/fs.c:222-227 | changing one used slot changes one entry of the map |
| Refinement.FilesWithout | EC440/EC440_HW5/fs.c:553-559 | clearing one slot removes one name from the map |
| Reachability.ReachesRest | EC440/EC440_HW5/fs.c:61-68 | from a position of a chain exactly the rest of the chain can be reached |
| Reachability.ReachesInside | EC440/EC440_HW5/fs.c:61-68 | what is reachable lies in every region closed under links |
| Layout.SuperblockRoundTrip | EC440/EC440_HW5/fs.c:93-161 | the superblock is read back as written |
| Layout.FatRoundTrip | EC440/EC440_HW5/fs.c:98-185 | each block-sized slice of the table is read back as written |
| Layout.DirectoryRoundTrip | EC440/EC440_HW5/fs.c:106-194 | the directory is read back as written, through its byte layout |
| Layout.RecordedRoundTrip | EC440/EC440_HW5/fs.c:89-194 | reading back what the metadata writer wrote gives the superblock, 2048 entries and the directory |
| Persistence.MountAnyTail | EC440/EC440_HW5/fs.c:168-197 | a good image mounts to the same files for every content of the unsaved entries |
| Persistence.SaveImage | EC440/EC440_HW5/fs.c:202-212 | saving a session with low chains makes a good image of its files |
| Persistence.RemountIffLow | EC440/EC440_HW5/fs.c:168-212 | a saved session mounts to a consistent volume with the same files, whatever memory held, if and only if all its chains are in the first 2048 entries |
| Persistence.ChainsAgree | EC440/EC440_HW5/fs.c:278-309 | following the links from a first block leaves no choice of chain |
| Persistence.FormattedImage | EC440/EC440_HW5/fs.c:112-143 | a formatted image is good and has no files |
| Persistence.FreshlyMounted | EC440/EC440_HW5/fs.c:145-200 | mounted without files it is the empty abstract state, with at least 2044 free blocks |
| Bytes.StrncmpDecidesEquality | EC440/EC440_HW5/fs.c:79-87 | on a NUL-padded buffer strncmp decides equality with any C string |
| Bytes.CStringOfPadded | EC440/EC440_HW5/fs.c:223-224 | a padded name is read back as the name |
| ThreadLocalStorage.Library.ServeAll | EC440/EC440_HW4/tls.c:106-295 | every sequence of calls by any threads gives the answers and the contents of private arrays; from the start, every answer is the one that the history of accepted calls asks for: a read returns at each position what was last written there |
| ThreadLocalStorage.Library.Serve | EC440/EC440_HW4/tls.c:106-295 | any one call does |
| ThreadLocalStorage.Library.TlsCreate | EC440/EC440_HW4/tls.c:106-144 | a zeroed array of the size asked for, unless the size is 0 or the thread has one |
| ThreadLocalStorage.Library.TlsDestroy | EC440/EC440_HW4/tls.c:146-179 | the thread's array goes and no other changes; a page is unmapped exactly when its last user goes |
| ThreadLocalStorage.Library.TlsRead | EC440/EC440_HW4/tls.c:181-211 | returns the slice of the thread's own array, or refuses; all pages are protected again |
| ThreadLocalStorage.Library.TlsWrite | EC440/EC440_HW4/tls.c:213-256 | byte by byte, the buffer is at the offset of the caller's array and the rest is as it was, and no other array changes; exactly the shared pages that the range touches are replaced, once each: as many pages are made as there are such slots; all pages are protected again |
| ThreadLocalStorage.Library.WriteBytes | EC440/EC440_HW4/tls.c:231-249 | the byte-by-byte loop overlays the array and replaces exactly the touched shared pages; no other page is made |
| ThreadLocalStorage.Library.CopiedOnce | EC440/EC440_HW4/tls.c:236-245 | such a write makes as many pages as it touches shared slots |
| ThreadLocalStorage.Library.WriteByte | EC440/EC440_HW4/tls.c:232-248 | one byte of one array changes |
| ThreadLocalStorage.Library.OwnPage | EC440/EC440_HW4/tls.c:236-245 | a shared page is copied, its count lowered and the original protected; an unshared one is kept |
| ThreadLocalStorage.Library.Unprotect | EC440/EC440_HW4/tls.c:227-229 | exactly the thread's own pages become accessible; bytes, counts and slots stay |
| ThreadLocalStorage.Library.Protect | EC440/EC440_HW4/tls.c:251-253 | every live page is protected again; bytes, counts and slots stay |
| ThreadLocalStorage.Library.TlsClone | EC440/EC440_HW4/tls.c:258-295 | the caller gets a copy of the source's array, or is refused |
| ThreadLocalStorage.Library.Find | EC440/EC440_HW4/tls.c:185-190 | the bucket search finds the thread's one element or none: the table is a map |
| ThreadLocalStorage.Library.Push | EC440/EC440_HW4/tls.c:137-141 | entering a new element at the front keeps the table a map with one more key |
| ThreadLocalStorage.Library.Unlink | EC440/EC440_HW4/tls.c:168-169 | taking an element out keeps the table a map with one key less |
| ThreadLocalStorage.Library.DropReferences | EC440/EC440_HW4/tls.c:157-163 | each page loses one reference and is unmapped exactly at zero |
| ThreadLocalStorage.Library.CountsAreExact | EC440/EC440_HW4/tls.c:126-286 | between calls each live page's count is the number of storages that refer to it, slots of one storage are distinct, and no slot refers to an unmapped page |
| CopyOnWrite.CreatedArrays | EC440/EC440_HW4/tls.c:120-135 | fresh pages add one zeroed array and keep the invariant |
| CopyOnWrite.ClonedArrays | EC440/EC440_HW4/tls.c:275-286 | sharing all pages has the effect of a full copy |
| CopyOnWrite.DestroyedArrays | EC440/EC440_HW4/tls.c:155-163 | releasing references removes one array and keeps the counts exact |
| CopyOnWrite.SplitInv | EC440/EC440_HW4/tls.c:236-245 | splitting a shared page keeps the counts exact |
| CopyOnWrite.StoredArrays | EC440/EC440_HW4/tls.c:232-248 | storing through a split page changes one byte of the writer's array and no other array |
| PrivateArrays.OthersCannotInterfere | EC440/EC440_HW4/tls.c:106-295 | on every run, calls by others never change a thread's array |
| PrivateArrays.CloneIsACopy | EC440/EC440_HW4/tls.c:258-295 | after a clone neither side sees what the other does, on any later run |
| PrivateArrays.AnswersFollowHistory | EC440/EC440_HW4/tls.c:106-295 | read after write over runs: answers and arrays follow from the history: who has storage, of what size, and the byte last written at each position since create or clone, 0 if none |
| PrivateArrays.WriteLaw | EC440/EC440_HW4/tls.c:213-256 | a write succeeds exactly inside the caller's array and leaves each byte as said |
| PrivateArrays.WriteThenRead | EC440/EC440_HW4/tls.c:181-256 | what was written is read back |
| PrivateArrays.CreateThenDestroy | EC440/EC440_HW4/tls.c:106-179 | created exactly for a size above 0 by a thread without storage, all zero; destroying undoes it |
| PrivateArrays.DestroyLaw | EC440/EC440_HW4/tls.c:146-179 | after a destroy the thread has no array and is refused |
| PrivateArrays.RefusalsAndOthers | EC440/EC440_HW4/tls.c:106-295 | a refused call changes nothing, and no call changes the arrays of others |
| ThreadMachine.NextThread | EC440/EC440_HW3/threads.c:71-74 | the search terminates at thread 0 or at a later ready thread, having passed no ready one |
| ThreadMachine.NextGood | EC440/EC440_HW3/threads.c:69-222 | every step keeps: the current thread (if not 0) is ready, exited threads never return, waiting threads are blocked, in one place only, and in no join |
| ThreadMachine.RunGood | EC440/EC440_HW3/threads.c:69-222 | so does every run |
| ThreadRuns.StuckForever | EC440/EC440_HW3/threads.c:69-210 | a thread other than 0 that is not ready and waits at no semaphore is never changed or scheduled again, on any run |
| ThreadRuns.ExitIsPermanent | EC440/EC440_HW3/threads.c:80-95 | after pthread_exit by a thread other than 0 it is exited with that value and never current, in every later state |
| ThreadRuns.JoinYieldsTheExitValue | EC440/EC440_HW3/threads.c:130-159 | every later join on it returns the value it passed |
| ThreadRuns.JoinReturnsNowOrNever | EC440/EC440_HW3/threads.c:146-151 | a join by a thread other than 0 returns at once if the target has exited, and otherwise on no run |
| ThreadRuns.MainJoinPolls | EC440/EC440_HW3/threads.c:146-158 | thread 0 inside a join looks at its target within as many scheduler calls as there are threads; a look returns the value if and only if the target has exited |
| ThreadRuns.MainJoinReturns | EC440/EC440_HW3/threads.c:146-158 | once the target has exited, thread 0's join gets its value on every run with that many scheduler calls |
| ThreadRuns.JoinIsNotWoken | EC440/EC440_HW3/threads.c:80-95 | a concrete run: the target exits and the joiner is not woken |
| ThreadRuns.DestroyStrandsWaiters | EC440/EC440_HW3/threads.c:212-222 | a thread other than 0 waiting at a destroyed semaphore never runs again |
| ThreadRuns.BoundedWaiting | EC440/EC440_HW3/threads.c:69-78 | a ready thread, and thread 0 in any state, is chosen within as many scheduler calls as its cyclic distance, hence as there are threads, even while threads are added |
| ThreadRuns.StepBringsNearer | EC440/EC440_HW3/threads.c:71-74 | each scheduler call chooses the thread or brings it nearer, and no step takes it out of the line |
| ThreadRuns.MainExitPermanentIff | EC440/EC440_HW3/threads.c:80-95 | the exit of thread 0 is permanent if and only if it stands in no waiting list or no other thread is ready |
| ThreadRuns.MainExitUndone | EC440/EC440_HW3/threads.c:195-210 | a concrete run from the start after which the exited thread 0 is ready |
| ThreadSemaphores.Conservation | EC440/EC440_HW3/threads.c:177-210 | over any run, value minus waiters moves by accepted posts minus accepted waits |
| ThreadSemaphores.SemaphoreCounts | EC440/EC440_HW3/threads.c:161-210 | from its initialisation on: value and waiters are the two sides of initial + posts - waits, and one of them is zero |
| ThreadSemaphores.NonNegativeIffFits | EC440/EC440_HW3/threads.c:161-175 | the value is never negative on any run if and only if the unsigned argument fits an int |
| ThreadSemaphores.PostTakesFirstIffAlone | EC440/EC440_HW3/threads.c:202-204 | a post takes and readies the first waiter if and only if it is the only one |
| ThreadSemaphores.SecondWaiterFirst | EC440/EC440_HW3/threads.c:202-204 | a concrete run from the start: two wait, one post, the first stays blocked and the second is ready |
| ThreadSemaphores.WaitersLeaveLastFirst | EC440/EC440_HW3/threads.c:202-204 | on every run a waiter stays blocked, through any posts, while a later one is still waiting |
| ThreadSemaphores.ReturnsBounded | EC440/EC440_HW3/threads.c:161-210 | as long as thread 0 never waits, the waits that have returned are at most the initial value plus the accepted posts |
| ThreadSemaphores.UnpostedWaitReturnsIffMain | EC440/EC440_HW3/threads.c:184-192 | a wait that finds no unit returns on some run without a post at its semaphore if and only if thread 0 waits |
| ThreadSemaphores.MainSlipsThrough | EC440/EC440_HW3/threads.c:186-190 | a wait by thread 0 at a semaphore of value 0 returns without a post |
| ThreadSemaphores.WaitersBound | EC440/EC440_HW3/threads.c:177-193 | the waiters of all semaphores together are fewer than the threads, entries of thread 0 apart |
| ThreadSemaphores.WaitersAlwaysFit | EC440/EC440_HW3/threads.c:177-193 | on every run from the start in which thread 0 never waits, the waiting arrays never overflow |
| ThreadSemaphores.MainWaitsAgainAndAgain | EC440/EC440_HW3/threads.c:186-190 | without that condition there is no bound: thread 0 alone can be entered any number of times |
| ThreadLaws.PostLaw | EC440/EC440_HW3/threads.c:195-210 | a post on waiters makes exactly the last one ready, takes exactly it off the stack, and leaves every other thread as it was; without waiters it adds one unit |
| ThreadLaws.TakenWaiterRuns | EC440/EC440_HW3/threads.c:202-204 | a waiter that a post takes is chosen within as many scheduler calls as there are threads |
| ThreadLaws.WaitLaw | EC440/EC440_HW3/threads.c:184-192 | a wait takes a unit if there is one; otherwise the caller is blocked on top of the stack and another thread runs |
| ThreadLaws.PostAfterWait | EC440/EC440_HW3/threads.c:177-210 | a post undoes a wait |
| ThreadLaws.InitLaw | EC440/EC440_HW3/threads.c:161-175 | a new semaphore has the next index, the value asked for modulo 2^32, and no waiters; the others stay |
| ThreadLaws.DestroyLaw | EC440/EC440_HW3/threads.c:212-222 | a destroyed semaphore refuses every later call, on every run |
| ThreadLaws.DestroySucceedsIffLive | EC440/EC440_HW3/threads.c:212-222 | destroying succeeds exactly for a live semaphore |
| ThreadLaws.CreateLaw | EC440/EC440_HW3/threads.c:101-128 | a new thread has the next number and is ready, the others stay; refused exactly at 128 |
| ThreadLaws.NewThreadRuns | EC440/EC440_HW3/threads.c:101-128 | it is chosen within as many scheduler calls as there are threads |
| ThreadLaws.ExitLaw | EC440/EC440_HW3/threads.c:80-95 | an exit marks the caller with its value and changes nobody else |
| ThreadLaws.JoinLaw | EC440/EC440_HW3/threads.c:130-159 | unknown refused, exited returns the value with nothing changed, otherwise the caller is blocked; nobody else changes |
| ThreadLaws.TickLaw | EC440/EC440_HW3/threads.c:69-78 | a tick only switches |
| ThreadLaws.OtherThreadsKept | EC440/EC440_HW3/threads.c:69-222 | no step changes a thread but the caller and the one a post takes |
| ThreadLaws.OtherSemaphoresKept | EC440/EC440_HW3/threads.c:161-222 | no step changes a semaphore but the one it is about |
| ThreadLaws.RefusalChangesNothing | EC440/EC440_HW3/threads.c:101-222 | a refused call changes nothing |
| ThreadLaws.OnlyReadyThreadsRun | EC440/EC440_HW3/threads.c:69-78 | the scheduler turns only to thread 0 or a ready thread |
| ThreadScheduler.Scheduler.Schedule | EC440/EC440_HW3/threads.c:69-78 | the do-while loop terminates and makes the next thread of the search current |
| ThreadScheduler.Scheduler.PthreadExit | EC440/EC440_HW3/threads.c:80-95 | marks the current thread exited with its value and switches; the waking loop changes no entry |
| ThreadScheduler.Scheduler.PthreadCreate | EC440/EC440_HW3/threads.c:101-128 | adds a ready thread and switches, or fails when the table is full |
| ThreadScheduler.Scheduler.PthreadJoin | EC440/EC440_HW3/threads.c:130-159 | unknown thread refused; exited target's value returned; otherwise the caller is blocked and the scheduler called |
| ThreadScheduler.Scheduler.LookAtTarget | EC440/EC440_HW3/threads.c:146-158 | one turn of the waiting loop, also when the thread is resumed |
| ThreadScheduler.Scheduler.SemInit | EC440/EC440_HW3/threads.c:161-175 | a new semaphore in the next slot, or failure when all 128 were used |
| ThreadScheduler.Scheduler.SemWait | EC440/EC440_HW3/threads.c:177-193 | takes a unit, or enters the caller on the waiting stack and switches |
| ThreadScheduler.Scheduler.SemPost | EC440/EC440_HW3/threads.c:195-210 | wakes the thread on top of the stack, or adds a unit |
| ThreadScheduler.Scheduler.SemDestroy | EC440/EC440_HW3/threads.c:212-222 | the slot is empty for good, its waiters stay as they are |
| ThreadScheduler.Scheduler.RunSteps | EC440/EC440_HW3/threads.c:69-222 | every run of the library ends in the state, and gives the results, of the machine |

## Left out

- FileSystems.FileSystem.FsWrite: write lengths of 2^32 and more, where the C code truncates the count to 32 bits, are excluded by a precondition.
- FileSystems.FileSystem.Perform: likewise excludes write lengths of 2^32 and more.
- FileSystems.FileSystem.RunSession: likewise, and so do RunSessions, RunAndRemount, FormatMountAndRun and FormatAndRunSessions.
- FileSystems.FileSystem.MountFs: an image with the right magic number is assumed to have been left by formatting or by an earlier session with all chains in the saved part; images that other programs made are not modelled.
- The method `Locate` stands for the walk and first allocation of both the gap code (fs.c:339-384) and the data code (fs.c:436-483), which are the same code twice; `PutBytes` likewise stands for both copying loops.
- Buffers are byte strings, returned by a read and passed to a write; a null buffer is not modelled.
- ThreadLocalStorage.Library.TlsWrite: `offset + length` is assumed not to exceed 2^32 - 1 (the C sum wraps around).
- ThreadLocalStorage.Library.TlsRead: the same sum is assumed not to wrap around.
- ThreadLocalStorage.Library.TlsCreate: `size + page_size - 1` is assumed not to exceed 2^32 - 1.
- The page array of a storage is a sequence field that the methods reassign; a page's bytes are a sequence with a protected and a mapped flag in place of mmap, mprotect and munmap.
- ThreadLocalStorage.Library.Serve: makes the assumptions of TlsCreate, TlsRead and TlsWrite.
- ThreadLocalStorage.Library.ServeAll: makes them for every call of the sequence.
- ThreadScheduler.Scheduler.RunSteps: makes the two assumptions of SemWait and SemPost, which follow, for every step.
- ThreadScheduler.Scheduler.SemWait: entering a waiting array that already has 128 entries is excluded by a precondition, which `WaitersAlwaysFit` shows can only bite when thread 0 waits.
- ThreadScheduler.Scheduler.SemPost: a value of 2^31 - 1 without waiters is excluded by a precondition, since adding one is undefined in C.
- Time: bounded waiting counts scheduler calls, and that the timer keeps ticking is not modelled.
- Signal masks, setjmp and longjmp, stacks and pointer mangling: a context is what a thread does when resumed, and each call up to its switch is one step.
- The page-fault handler of tls.c (lines 79-99): it ends a thread that touches a protected page, and no call of the library touches one.
- malloc failure, failing system calls, null pointers and disk file names: allocation and in-range block input and output on an open disk succeed.
- The write of the semaphore's index into the caller's `sem_t` is left to the caller, who passes the index.
- C struct padding and byte order: one fixed little-endian layout with a 44-byte directory entry.
- `fs_get_filesize`, `fs_listfiles` and `pthread_self` only look things up.
- Exit values and start routines are opaque integers or absent; what a thread computes is not modelled.
- `EC440/EC440_HW5/test.c` is another, inode-based file system that does not keep the invariants one would state for it.
- `EC440/EC440_HW2/threads.c` is the scheduler without semaphores and join; `EC440/EC440_HW1` is a shell; both would add only easier members.
