# A Dafny model of the Nachos file system, monitors and simulated devices

This project models three parts of the kernel under `try/code` and proves what they promise.

**Storage.** A bitmap of sectors, file headers with direct, single-indirect and double-indirect
pointers whose index blocks lie on the disk they index, byte-addressed files over whole sectors,
and a file system that keeps its own free map and directory as files on that disk. The constants
(sector size, direct pointers, sectors, directory entries) are a parameter, `Storage.Geometry`;
`Storage.NACHOS` holds the values the kernel is compiled with. The disk is an image of bytes,
and headers, index blocks, the free map and the directory are encoded in it, so what a short
write loses is lost in the model too.

| file | what it holds |
|---|---|
| Arithmetic, Machine | division lemmas; words and their bytes, C's division |
| Bitmap | the bitmap as a word array refining a set |
| Storage, Layout | geometry, disk, header; where a file lies and what is on it |
| Allocation, Persistence, Release, FileHdr | building, storing and freeing the two-level index |
| ByteArray, OpenFiles | reads and writes over whole sectors as a flat byte array |
| Directory | the name table as a partial map, and its bytes |
| Volume, FsSteps, FileSystem | the invariant of the whole disk, what each call does to it, the calls |
| Synch, RWLocks, SynchLists, SynchDisks | the monitors, each as a class and as a transition system |
| Lists, Interrupts, DiskTiming, Mult, Scheduling | the sorted list, the event queue, disk latency, MIPS multiplication, priority scheduling |

The central results: `FsSteps.RunRefines` (over every run whose granted Creates fit, each Create,
Remove, Open, ReadAt and WriteAt gives the answer and makes the change that the same call makes on
a map from names to byte arrays; a run with a Create that does not fit, or that aborts, is followed
up to that call), `FsSteps.CreateSparesFile` (a granted Create of any size, one that loses its own
file too, leaves every other file readable by name and by handle), `FsSteps.HandleOutlives` (an open file reads what its name stands for until that name is
removed), `FsSteps.CreateExact` (a Create leaves a consistent disk exactly when the header fits,
and exactly then the header can be read back), `FileHdr.DeallocateUndoesAllocate`,
`Allocation.AllocImageExact`, `ByteArray.PutAssembled`, `Synch.LockAndCondition`,
`RWLocks.RWStrandsNobody`, `SynchDisks.ReturnsCompleted`, `Interrupts.FiringOrder`,
`DiskTiming.BufferSound` and `Mult.Mult`.

Consistent disks exist: `FileSystems.FormatDisk` makes one of any disk that is large enough, and
`FileSystems.NachosFormats` says the compiled one is.

## Where the code and its description differ

The model follows the code.

- The header is described as fitting in one sector. With the fields it has it is 37 words and the
  sector 32, so the last words, `L1Index` and `L2Index` among them, never reach the disk.
  `Persistence.PersistsExactly` says which files survive, for every geometry, and
  `Persistence.NachosPersistsDirectOnly` that with the compiled constants those are the files of
  at most 30 sectors. Create does not notice: `FsSteps.CreateLoses` says that it answers TRUE and
  that the header in its sector no longer describes the file, and `FsSteps.NachosOversized` names
  31 sectors as such a size.
- Allocate is described as returning FALSE when there are not enough free blocks. Its test for a
  double-indirect file does not count the file's own blocks. `Allocation.AnswerExact` gives the
  window in which it neither refuses nor can succeed, and `Allocation.AnswerCanFault` a size and a
  disk in it. The kernel then aborts in the disk; the model's third outcome, `Fault`, is that
  abort, and also the case where `sectorsGet` is too small.
- A negative size above minus one sector is granted, as a file of no sectors.
- Yield under priority scheduling subtracts `MAX_PRIORITY` and adds the thread's id, so a thread
  whose id is above 20 gains priority by yielding. `Scheduling.YieldExact` holds all the same.

## Model

| member | source | states |
|---|---|---|
| Bitmap.BitMap.constructor | try/code/userprog/bitmap.cc:20-28 | a new bitmap stands for the empty set whatever memory held |
| Bitmap.BitMap.Mark | try/code/userprog/bitmap.cc:47-52 | the set gains exactly that sector, although a word holds 32 |
| Bitmap.BitMap.Clear | try/code/userprog/bitmap.cc:61-66 | the set loses exactly that sector |
| Bitmap.BitMap.Test | try/code/userprog/bitmap.cc:75-84 | membership in the set |
| Bitmap.BitMap.Find | try/code/userprog/bitmap.cc:95-104 | takes the least clear sector; -1 and no change exactly when there is none |
| Bitmap.BitMap.NumClear | try/code/userprog/bitmap.cc:112-120 | the number of clear sectors |
| Bitmap.FreeListExact | try/code/userprog/bitmap.cc:95-104 | the list Find hands out from holds every clear sector, only clear ones, in increasing order |
| Bitmap.FreeListTakeMany | try/code/userprog/bitmap.cc:95-104 | k calls of Find take the first k of the list and leave the rest: never the same sector twice |
| Bitmap.SameSetSameWords | try/code/userprog/bitmap.cc:47-66 | equal sets are equal bit for bit in the word array |
| Bitmap.BitOfWord | try/code/userprog/bitmap.cc:149-166 | bit k of a word made of four bytes, lowest first, is bit k % 8 of byte k / 8 |
| Machine.DivRoundUpBounds | try/code/threads/utility.h:40 | the quotient is the least number of sectors that holds the bytes, with C's truncation for negative sizes |
| Storage.BlockPosOrder | try/code/filesys/filehdr.cc:120-167 | blocks keep their order among all the sectors a file takes, and no block is at an index position |
| Storage.BlockPosInNeed | try/code/filesys/filehdr.cc:84-167 | every block of the file has a position among the sectors Allocate asks for |
| Allocation.AnswerExact | try/code/filesys/filehdr.cc:61-119 | TRUE exactly for a size in range whose blocks and index blocks together are free and, for a double-indirect file, fit sectorsGet; FALSE only for a file that is too large or does not fit; the exact window in which the double-indirect test neither refuses nor can succeed |
| Allocation.AnswerCanFault | try/code/filesys/filehdr.cc:74-87 | a size and a number of free sectors in that window on the compiled geometry |
| Allocation.AllocImageExact | try/code/filesys/filehdr.cc:120-167 | on the image the nested loops leave, every data sector taken is zero, every index block still lists its sectors in order, and no other sector changed |
| Layout.AllocatedLayout | try/code/filesys/filehdr.cc:120-167 | reading the index back through the disk gives exactly the sectors taken, in the order taken |
| Layout.BlocksIncrease | try/code/filesys/filehdr.cc:275-305 | the sector of a block strictly increases with the block number, across direct, L1 and L2 ranges |
| Layout.BlockIsNoIndex | try/code/filesys/filehdr.cc:275-305 | no block is in an index sector |
| Layout.SameFile | try/code/filesys/filehdr.cc:275-305 | a file none of whose sectors changed has the same layout and the same bytes |
| Layout.ByteInSector | try/code/filesys/openfile.cc:116-144 | byte i of a file is byte i % SectorSize of the sector of block i / SectorSize |
| Layout.IndexBlockAt | try/code/filesys/filehdr.cc:128-164 | an index block lists its sectors, and -1 in every entry it does not use |
| FileHdr.TakeOne | try/code/filesys/filehdr.cc:84-87 | the i-th call of Find from a given map takes the i-th free sector, or -1 past the last |
| FileHdr.GetSectors | try/code/filesys/filehdr.cc:84-116 | the loops over Find gather the first free sectors in order, then -1; an overrun of sectorsGet is noticed |
| FileHdr.FileHeader.Gather | try/code/filesys/filehdr.cc:61-119 | answers as Allocation.Answer; a refusal changes no bit; otherwise the free sectors are gathered in order |
| FileHdr.FileHeader.ClearSector | try/code/filesys/filehdr.cc:360-366 | zeroes that sector and no other; a sector out of range is the disk's abort |
| FileHdr.FileHeader.FillDirect | try/code/filesys/filehdr.cc:121-125 | the direct pointers are the first sectors taken, each cleared |
| FileHdr.FileHeader.FillIndexBlock | try/code/filesys/filehdr.cc:128-164 | one index block is cleared, filled from the sectors that follow it, and written after its blocks were cleared |
| FileHdr.FileHeader.FillDouble | try/code/filesys/filehdr.cc:143-166 | the L2 index and every group under it are on the disk |
| FileHdr.FileHeader.HandOut | try/code/filesys/filehdr.cc:120-167 | succeeds exactly when every sector gathered is one, and leaves header and disk as AllocImage says |
| FileHdr.FileHeader.Allocate | try/code/filesys/filehdr.cc:41-177 | the exact outcome; a refusal changes neither map nor disk; a grant marks the first free sectors, points the header at them and lays them out |
| FileHdr.GrantedFile | try/code/filesys/filehdr.cc:41-177 | a granted file is well formed over sectors that were all clear, reads as zeros, and no other sector changed |
| FileHdr.GrantedBlocks | try/code/filesys/filehdr.cc:120-167 | which free sector became which block, for direct, single and double-indirect blocks, and which became the two index blocks the header names |
| FileHdr.FileHeader.ClearDirect | try/code/filesys/filehdr.cc:194-197 | the direct blocks are given back; the assertions hold |
| FileHdr.FileHeader.ClearRun | try/code/filesys/filehdr.cc:203-220 | the blocks an index buffer lists are given back; the assertions hold |
| FileHdr.FileHeader.ClearGroups | try/code/filesys/filehdr.cc:212-222 | the unbounded loop over second-level blocks ends and gives back every group |
| FileHdr.FileHeader.Deallocate | try/code/filesys/filehdr.cc:186-237 | exactly the file's sectors, index blocks included, leave the map; no assertion fails |
| FileHdr.DeallocateUndoesAllocate | try/code/filesys/filehdr.cc:41-237 | the number of clear sectors falls by blocks and index blocks together, and Deallocate restores the map bit for bit |
| FileHdr.FileHeader.ByteToSector | try/code/filesys/filehdr.cc:275-305 | for every offset, header and disk: the sector Release.BlockLies gives for block offset / SectorSize, truncated toward zero; the disk's abort exactly when an index block on the way is out of range; -1 outside the longest file |
| Release.BlockLies | try/code/filesys/filehdr.cc:286-300 | that sector on the bytes of the index blocks: each step reads four bytes, lowest first, in two's complement |
| Release.BlockReached | try/code/filesys/filehdr.cc:275-305 | inside a well-formed file the index is never out of range, and neither is the block it gives |
| FileHdr.FileHeader.FetchFrom | try/code/filesys/filehdr.cc:246-250 | each field that fits is the little-endian word at its own place in the sector; the pointers that do not fit are what they were |
| FileHdr.FileHeader.WriteBack | try/code/filesys/filehdr.cc:259-263 | one sector changes, and holds each field that fits as a little-endian word at its own place |
| Persistence.FetchedStored | try/code/filesys/filehdr.cc:246-263 | a header written and read back, field by field: which come from the disk and which are whatever memory held |
| Persistence.PersistsExactly | try/code/filesys/filehdr.h:30-76 | a header read back points where the one written did, whatever memory held, if and only if the pointers its size needs fit in a sector |
| Persistence.NachosPersistsDirectOnly | try/code/filesys/filehdr.h:20-38 | with the compiled constants: files of at most NumDirect sectors |
| Persistence.SamePointersSameFile | try/code/filesys/filehdr.cc:275-305 | headers equal in the pointers a file's size uses describe the same file |
| ByteArray.PutAssembled | try/code/filesys/openfile.cc:165-186 | overwriting whole sectors from a buffer that holds the new bytes and, around them, the old ones splices the bytes into the file; nothing outside its blocks changes |
| ByteArray.PutBlocksAt | try/code/filesys/openfile.cc:180-183 | writing blocks one by one through the index changes those blocks and no other of the file |
| ByteArray.ReadAfterWrite | try/code/filesys/openfile.cc:110-186 | corollary: any read after a write gives the new bytes where they were written and the old ones elsewhere |
| OpenFiles.OpenFile.constructor | try/code/filesys/openfile.cc:30-35 | the header is what the sector holds laid over arbitrary memory; the position is 0 |
| OpenFiles.OpenFile.ReadBlocks | try/code/filesys/openfile.cc:134-138 | the buffer holds the file's bytes from the first block to the last |
| OpenFiles.OpenFile.ReadAt | try/code/filesys/openfile.cc:116-144 | the bytes of the requested range clipped to the file's length, in the caller's buffer; nothing else of the buffer changes |
| OpenFiles.ReadGives | try/code/filesys/openfile.cc:116-144 | what ReadAt leaves in the buffer is what a read of the flat byte array gives, short and empty reads included |
| OpenFiles.OpenFile.Read | try/code/filesys/openfile.cc:74-80 | reads from the position and moves it past what was read |
| OpenFiles.OpenFile.Assemble | try/code/filesys/openfile.cc:161-178 | the buffer of a write is right in every byte, however the request lies over its first and last sector |
| OpenFiles.OpenFile.WriteBlocks | try/code/filesys/openfile.cc:180-183 | the blocks hold the chunks of the buffer |
| OpenFiles.OpenFile.WriteAt | try/code/filesys/openfile.cc:146-186 | exactly the clipped range of the file is replaced; no other byte of it, no layout and no sector outside its blocks changes |
| OpenFiles.OpenFile.Write | try/code/filesys/openfile.cc:82-88 | writes at the position and moves it past what was written |
| OpenFiles.OpenFile.Length | try/code/filesys/openfile.cc:193-197 | the length of the flat byte array |
| Directories.SameCharsSameKey | try/code/filesys/directory.cc:94 | strncmp on 31 characters is equality of the names' keys |
| Directories.CopiedKey | try/code/filesys/directory.cc:138 | a name copied by strncpy over an old one is found under its own key |
| Directories.AddedMap | try/code/filesys/directory.cc:129-143 | filling a free entry adds one binding to the map of names, and names stay unique |
| Directories.RemovedMap | try/code/filesys/directory.cc:153-162 | clearing an entry removes that binding and no other |
| Directories.RemoveUndoesAdd | try/code/filesys/directory.cc:129-162 | adding a name and removing it restores the map |
| Directories.DecodeEncodeTable | try/code/filesys/directory.cc:63-80 | the table survives being written to a file and read back |
| Directories.EncodedTableLies | try/code/filesys/directory.h:29-43 | an entry on its bytes: in use in the first, the sector's four bytes from the fifth, the name from the ninth |
| Directories.DecodedTableLies | try/code/filesys/directory.h:29-43 | the same for a table read from any bytes |
| Directories.Directory.constructor | try/code/filesys/directory.cc:38-44 | no entry is in use |
| Directories.Directory.FetchFrom | try/code/filesys/directory.cc:63-67 | the file's bytes, as far as they go, over the table; on those bytes lie its in-use flags, sectors and names |
| Directories.Directory.WriteBack | try/code/filesys/directory.cc:76-80 | the table's bytes over the file; on them lie its in-use flags, sectors and names |
| Directories.Directory.FindIndex | try/code/filesys/directory.cc:90-97 | the first entry in use under the name's key, or -1 |
| Directories.Directory.Find | try/code/filesys/directory.cc:108-116 | the map's value, or -1 |
| Directories.Directory.Add | try/code/filesys/directory.cc:129-143 | fails exactly when the name is in the map or every entry in use; otherwise the first free entry takes name and sector, and no other changes |
| Directories.Directory.Remove | try/code/filesys/directory.cc:153-162 | fails exactly when the name is not in the map; otherwise its entry is freed and otherwise as it was, and no other changes |
| Volume.FetchedHandle | try/code/filesys/openfile.cc:30-35 | opening a file whose header is readable describes that file, whatever memory held |
| Volume.ReadableExactly | try/code/filesys/filehdr.cc:246-263 | a header on disk describes the same well-formed file over whatever memory it is fetched if and only if its pointers fit in the sector |
| Volume.WroteOwn | try/code/filesys/openfile.cc:146-186 | a write keeps the file's header, region and handle, and splices its content |
| Volume.WroteOther | try/code/filesys/openfile.cc:146-186 | a write through a handle leaves every file with a disjoint region as it was |
| Volume.NewFile | try/code/filesys/filesys.cc:191-208 | a file over sectors nobody had leaves all others alone and stays disjoint from them |
| Volume.MapWordsOfBytes | try/code/userprog/bitmap.cc:149-166 | the free map survives being written to its file and read back |
| Volume.FreeMapOnDisk | try/code/userprog/bitmap.cc:149-166 | on a consistent disk bit i % 8 of byte i / 8 of the free-map file is 1 exactly when some header, block or index block is in sector i |
| Volume.DirectoryOnDisk | try/code/filesys/directory.cc:63-80 | on the bytes of the directory file: which entries are in use, their sectors and their names |
| FsSteps.CreateKeeps | try/code/filesys/filesys.cc:174-215 | a Create keeps the invariant: regions disjoint, marks their union, names unique; the directory and the names grow by one entry; other files stay where they are |
| FsSteps.CreateFiles | try/code/filesys/filesys.cc:174-215 | the user sees one new file, all zero, and no other change |
| FsSteps.CreateExact | try/code/filesys/filesys.cc:174-215 | a Create that answers TRUE leaves a consistent disk, one whose named headers describe the same file over whatever memory they are fetched, if and only if the file's pointers fit in its header's sector; otherwise the header on disk, fetched over some memory, points elsewhere |
| FsSteps.CreateAnswerExact | try/code/filesys/filesys.cc:174-215 | Create answers TRUE exactly when the name is new, an entry is free, and besides the header there is room for blocks and index blocks together |
| FsSteps.CreateLoses | try/code/filesys/filesys.cc:174-215 | after any granted Create the header in its sector fails to read back for some memory exactly when its pointers do not fit |
| FsSteps.CreateSpares | try/code/filesys/filesys.cc:174-215 | after any granted Create, whatever its size, the stored names are the old ones and the new one, the stored map is the one in memory, and every other file keeps header, region and content |
| FsSteps.CreateSparesFile | try/code/filesys/filesys.cc:174-241 | so every file named before is still named, reads the same through every handle it had, and can be opened again over whatever memory |
| FsSteps.NachosOversized | try/code/filesys/filehdr.h:20-38 | the failing input: with the compiled constants, on every consistent disk with room, a file of 31 sectors under a new name is granted and lost |
| FsSteps.RemoveKeeps | try/code/filesys/filesys.cc:257-288 | a Remove keeps the invariant, drops that name alone, and leaves the other files where they are |
| FsSteps.RemoveFiles | try/code/filesys/filesys.cc:257-288 | the user sees that file go and no other change |
| FsSteps.RemoveUndoesCreate | try/code/filesys/filesys.cc:174-288 | Create then Remove of the same name, compared on 31 characters, restores the stored free map bit for bit, the names and every file |
| FsSteps.WriteKeeps | try/code/filesys/openfile.cc:146-186 | a write through a handle of a named file keeps the invariant, the directory and the free map |
| FsSteps.WriteFiles | try/code/filesys/openfile.cc:146-186 | the user sees exactly those bytes change, in that one file |
| FsSteps.CreateKeepsHandles | try/code/filesys/filesys.cc:174-241 | an open file stays open over the Create of another |
| FsSteps.RemoveKeepsHandles | try/code/filesys/filesys.cc:227-288 | an open file stays open over the Remove of another |
| FsSteps.WriteKeepsHandles | try/code/filesys/openfile.cc:146-186 | a write through one open file keeps every open file, other handles of the same file too |
| FsSteps.HandleReads | try/code/filesys/openfile.cc:116-144 | what an open file reads is the file its name stands for |
| FsSteps.StepRefines | try/code/filesys/filesys.cc:174-288 | every call but a granted Create that does not fit, with its own arguments and its own answer, is that call on a map from names to byte arrays; reads and writes go through files opened earlier; the invariant and every live handle are kept |
| FsSteps.RunRefines | try/code/filesys/filesys.cc:80-288 | so is every call of every run of such calls, of any length; no handle is assumed, each comes from an Open of the run |
| FsSteps.HandleOutlives | try/code/filesys/filesys.cc:227-288 | a file open at one point of a run is open, and reads what its name stands for, at every later point with no Remove of its name between |
| FileSystems.FetchMap | try/code/userprog/bitmap.cc:149-153 | the file's bytes, as far as they go, over the words: bit i is bit i % 8 of byte i / 8 |
| FileSystems.WriteBackMap | try/code/userprog/bitmap.cc:162-166 | the words' bytes over the file: bit i % 8 of byte i / 8 is bit i |
| FileSystems.NachosFormats | try/code/filesys/filesys.cc:57-65 | the compiled geometry has room for the root files, and their headers fit |
| FileSystems.FormatKeeps | try/code/filesys/filesys.cc:83-126 | a formatted disk is consistent, has no files, and marks exactly the root files' sectors |
| FileSystems.FormatDisk | try/code/filesys/filesys.cc:83-126 | formatting an arbitrary disk leaves it consistent and empty, the root files open |
| FileSystems.FileSystem.constructor | try/code/filesys/filesys.cc:80-143 | formatting or opening establishes the invariant; opening changes nothing |
| FileSystems.FileSystem.LoadMap | try/code/filesys/filesys.cc:191-192 | the bitmap in memory is the stored one |
| FileSystems.FileSystem.LoadDirectory | try/code/filesys/filesys.cc:185-186 | the table in memory is the stored one |
| FileSystems.Reserve | try/code/filesys/filesys.cc:193-197 | succeeds exactly when a sector and an entry are free and the name is new; takes the first of each |
| FileSystems.FileSystem.Create | try/code/filesys/filesys.cc:174-215 | the exact outcome; FALSE leaves the disk unchanged; TRUE adds one zeroed file and keeps the invariant if and only if its header fits; either way it is the Create call of a run |
| FileSystems.FileSystem.Open | try/code/filesys/filesys.cc:227-241 | null exactly for an unknown name; otherwise a handle that reads that file; it is the Open call of a run |
| FileSystems.FileSystem.FreeFile | try/code/filesys/filesys.cc:270-279 | the map in memory loses exactly the region of the named file, header included, whatever lay where the header was fetched |
| FileSystems.FileSystem.Remove | try/code/filesys/filesys.cc:257-288 | FALSE and no change exactly for an unknown name; otherwise the file goes and the invariant stays; it is the Remove call of a run |
| Synch.Semaphore.TestP | try/code/threads/synch.cc:64-77 | one test of the value: asleep at the end of the queue, or one unit taken |
| Synch.Semaphore.V | try/code/threads/synch.cc:87-98 | the one asleep longest is made ready, if anybody sleeps, and the value grows, both in one step |
| Synch.SemaphoreExact | try/code/threads/synch.cc:64-98 | over every interleaving the value is initial plus Vs minus Ps and not negative; while somebody sleeps it is at most the number of woken threads still to test |
| Synch.NoLostPost | try/code/threads/synch.cc:64-98 | with nobody left to test and somebody asleep every V has been consumed |
| Synch.SleepersInOrder | try/code/threads/synch.cc:64-98 | over every interleaving V wakes threads in the order in which they went to sleep |
| Synch.Lock.TryAcquire | try/code/threads/synch.cc:124-132 | one test: asleep, or the caller is the holder |
| Synch.Lock.Release | try/code/threads/synch.cc:133-140 | no holder, and one sleeper made ready |
| Synch.Condition.Wait | try/code/threads/synch.cc:161-176 | queued and the lock given up in one step; the assertions hold |
| Synch.Condition.Signal | try/code/threads/synch.cc:178-191 | the first waiter is woken, if any; the lock is kept |
| Synch.Condition.Broadcast | try/code/threads/synch.cc:193-203 | ends, with every waiter woken in order and the queue empty |
| Synch.LockAndCondition | try/code/threads/synch.cc:124-203 | at every point of every interleaving the lock's semaphore plus its holder make one, no thread sleeps on a free lock with nobody woken to test it, and every wake-up reached the waiters in order |
| Synch.MutualExclusion | try/code/threads/synch.cc:124-140 | only the holder gives the lock up, and only a free lock is taken |
| Synch.WaitReturnsHolding | try/code/threads/synch.cc:161-176 | Wait returns only with the lock held, and only when each wait of the thread, the returning one included, has had its own wake-up |
| Synch.SignalNotMissed | try/code/threads/synch.cc:161-203 | the k-th wake-up wakes the thread that waited k-th, however the run goes on |
| Synch.MutexStrandsNobody | try/code/threads/synch.cc:124-140 | a free mutex that somebody wants has a thread woken to test it |
| RWLocks.RWLock.ReadLock | try/code/threads/synch.cc:225-235 | in, or asleep while a writer is inside; pendingReaders counts it until it is in |
| RWLocks.RWLock.WriteLock | try/code/threads/synch.cc:237-247 | in, or asleep while anybody is inside |
| RWLocks.RWLock.Unlock | try/code/threads/synch.cc:249-266 | a leaving writer lets all queued readers in if a reader is pending, else one writer; the last reader out lets one writer in unless a reader is pending; nobody else wakes anybody |
| RWLocks.RWExclusion | try/code/threads/synch.cc:225-266 | in every reachable state, the mutex with its sleepers and barging included, activeReaders is -1 exactly with one writer and no reader inside, otherwise the number of readers with no writer; the pending counters are the queued plus the woken |
| RWLocks.RWStrandsNobody | try/code/threads/synch.cc:225-266 | a queued reader waits for a writer inside; a queued writer for somebody inside or woken; a free mutex that is wanted has somebody woken for it; with nobody inside and nobody woken nobody waits |
| SynchLists.SynchList.Append | try/code/threads/synchlist.cc:53-60 | the item is last, and the first waiter woken |
| SynchLists.SynchList.TryRemove | try/code/threads/synchlist.cc:70-82 | one test: asleep on the empty list, or away with the first item |
| SynchLists.ListFifo | try/code/threads/synchlist.cc:53-82 | over every interleaving, the lock with its sleepers and barging included, items come out once each in the order they went in; while a remover sleeps there are at most as many items as woken removers; a free lock that is wanted has somebody woken for it |
| SynchDisks.SynchDisk.constructor | try/code/filesys/synchdisk.cc:43-48 | the start of a run: lock free, semaphore 0, device idle |
| SynchDisks.SynchDisk.TryLock | try/code/filesys/synchdisk.cc:72-97 | one test in Acquire is one step of the protocol and keeps its invariant |
| SynchDisks.SynchDisk.Request | try/code/machine/disk.cc:115-153 | the lock's holder finds the device idle, so ASSERT(!active) holds; its request gets the number after the last completed one; invariant kept |
| SynchDisks.SynchDisk.TestDone | try/code/filesys/synchdisk.cc:72-97 | one test in semaphore->P passes only when the caller's own request has completed and the device is idle; invariant kept |
| SynchDisks.SynchDisk.Finish | try/code/filesys/synchdisk.cc:72-97 | the lock is given up by its holder, one sleeper made ready; invariant kept |
| SynchDisks.SynchDisk.HandleInterrupt | try/code/filesys/synchdisk.cc:105-109 | one interrupt completes the request in progress and wakes the caller asleep on the semaphore, if it got that far; invariant kept |
| SynchDisks.OneRequestAtATime | try/code/filesys/synchdisk.cc:72-109 | ASSERT(!active) holds at every request of every run |
| SynchDisks.ReturnsCompleted | try/code/filesys/synchdisk.cc:72-97 | a call returns only after the interrupt for its own request |
| SynchDisks.SemaphoreBalanced | try/code/filesys/synchdisk.cc:72-97 | whenever the lock is free the semaphore is 0 with nobody asleep and no request outstanding |
| SynchDisks.SleeperIsServed | try/code/filesys/synchdisk.cc:72-109 | a sleeping caller's interrupt is still to come |
| Lists.InsertedSorted | try/code/threads/list.cc:179-203 | insertion keeps the order and puts the element behind its equals |
| Lists.InsertedItems | try/code/threads/list.cc:179-203 | insertion adds that element and no other |
| Lists.List.SortedInsert | try/code/threads/list.cc:179-203 | the linked nodes stand for the sequence with the element behind everything before the first greater key |
| Lists.List.SortedRemove | try/code/threads/list.cc:218-238 | the first element and its key, and the rest of the sequence |
| Lists.List.Append | try/code/threads/list.cc:77-89 | the item is last, with key 0 |
| Lists.List.Prepend | try/code/threads/list.cc:103-115 | the item is first, with key 0 |
| Interrupts.Interrupt.Schedule | try/code/machine/interrupt.cc:275-286 | the interrupt is queued by its time |
| Interrupts.Interrupt.CheckIfDue | try/code/machine/interrupt.cc:301-348 | fires the first interrupt exactly when there is one, it is due or the clock may move, and it is not the lone timer of an idle machine; where the clock then stands, what is queued and whether a yield is wanted |
| Interrupts.Interrupt.OneTick | try/code/machine/interrupt.cc:150-190 | the clock moves one tick of its mode and the ticks are charged to it, everything due fires, interrupts are on again, the caller yields exactly when it was wanted or a handler asked |
| Interrupts.Interrupt.SetLevel | try/code/machine/interrupt.cc:114-127 | a tick exactly when interrupts go from off to on; turning them off is allowed inside a handler and leaves everything else as it was |
| Interrupts.Interrupt.Idle | try/code/machine/interrupt.cc:221-245 | halts exactly when nothing is pending or only a time-slice timer; otherwise the clock stands at the first interrupt, or where it was, and that interrupt is the first to fire |
| Interrupts.FiredDue | try/code/machine/interrupt.cc:169-170 | each firing leaves one due interrupt fewer, whatever the handler schedules: the loop ends |
| Interrupts.FireDueAdds | try/code/machine/interrupt.cc:169-170 | the loop leaves the clock, adds firings, and wants a yield exactly when it was wanted or a handler asked |
| Interrupts.FireDueExact | try/code/machine/interrupt.cc:169-170 | after the loop the clock has not moved and nothing is due, but for the one interrupt of an idle machine when it is a timer's |
| Interrupts.FiringOrder | try/code/machine/interrupt.cc:150-348 | over every run interrupts fire in the order of their times and none early, each one asked for is pending or fired once, and the queue is sorted |
| Interrupts.TimeGrows | try/code/machine/interrupt.cc:150-348 | the clock never goes back and a firing is never undone |
| Interrupts.NothingDueAfterTick | try/code/machine/interrupt.cc:150-171 | after OneTick's loop every pending interrupt is in the future |
| Interrupts.IdleJump | try/code/machine/interrupt.cc:221-245 | corollary: an idle machine moves the clock to the earliest interrupt and no further, and counts the ticks as idle |
| DiskTiming.Drive.TimeToSeek | try/code/machine/disk.cc:179-194 | tracks apart times the seek time, and the rest up to the next sector boundary |
| DiskTiming.ModuloDiff | try/code/machine/disk.cc:202-209 | fewer than a track's sectors, and turning that many brings the target under the head |
| DiskTiming.Drive.ComputeLatency | try/code/machine/disk.cc:232-253 | one sector's time exactly for a read of a sector of which a whole slot has passed on this track since the buffer was started; otherwise until the first slot of the sector after the arrival has passed |
| DiskTiming.Drive.UpdateLast | try/code/machine/disk.cc:261-271 | the buffer restarts exactly on a change of track, at the arrival |
| DiskTiming.Drive.Request | try/code/machine/disk.cc:115-153 | when the interrupt is due, by what passed the head before the request, and where the buffer starts after it |
| DiskTiming.MissEndsAtSector | try/code/machine/disk.cc:232-253 | a request that misses the buffer completes at a slot boundary, just when its own sector has passed the head |
| DiskTiming.LatencyBounds | try/code/machine/disk.cc:179-253 | at least one sector's time, at most a full sweep, a partial sector and a full rotation |
| DiskTiming.HitHasSector | try/code/machine/disk.cc:239-246 | a hit means a whole slot of that sector passed the head since the buffer was started, on the same track |
| DiskTiming.SectorHasHit | try/code/machine/disk.cc:239-246 | and conversely: when a whole slot of the sector passed, a read on its track hits |
| DiskTiming.BufferSound | try/code/machine/disk.cc:232-271 | so in every run, counted from when the head came to the track |
| DiskTiming.BufferExact | try/code/machine/disk.cc:232-271 | in every run each request takes exactly as long as the sectors that passed since the head came to the track say |
| Mult.Mult | try/code/machine/mipssim.cc:635-692 | hi and lo are the exact signed or unsigned product of all pairs of words, the least int included |
| Mult.Product | try/code/machine/mipssim.cc:657-678 | the loop multiplies the bit patterns exactly, with the early break and the sign bit shifted in |
| Mult.NextPartial | try/code/machine/mipssim.cc:663-678 | one iteration: the part multiplied in grows by one bit, and the early break comes only at the last bit set |
| Scheduling.YieldExact | try/code/threads/thread.cc:257-294 | Yield neither loses nor duplicates a thread, keeps the list sorted, and leaves the highest priority running |
| Scheduling.ForkExact | try/code/threads/thread.cc:114-151 | Fork adds one thread, keeps the list sorted, and keeps the highest priority running if it was |
| Scheduling.Scheduler.ReadyToRun | try/code/threads/scheduler.cc:93-107 | the thread is queued once, behind every thread of at least its priority, and marked ready; the list falls in priority |
| Scheduling.Scheduler.FindNextToRun | try/code/threads/scheduler.cc:149-174 | the head of the ready list, or null |
| Scheduling.Scheduler.ShouldISwitch | try/code/threads/scheduler.cc:362-381 | preempt exactly for more priority |
| Scheduling.Scheduler.Yield | try/code/threads/thread.cc:226-297 | the head of the list runs if its priority is at least the lowered one of the caller; afterwards nobody ready has more priority than the thread that runs |
| Scheduling.Scheduler.Fork | try/code/threads/thread.cc:114-151 | a thread without an id is dropped; one of more priority than the running thread makes it yield, so that nobody ready has more priority than the thread that runs; any other is queued behind its equals |

## Left out

- FileHdr.FileHeader.Allocate: on Fault the contract gives the outcome and not the state, because the kernel has aborted or overrun its stack.
- FileSystems.FileSystem.Create: on Fault the contract gives the outcome and not the state, for the same reason.
- OpenFiles.OpenFile.ReadAt: of the requests that pass its check, those at a negative position and those whose position and length add up past the largest int are excluded; the code then reads before its buffer or overflows an int.
- OpenFiles.OpenFile.WriteAt: the same requests are excluded.
- OpenFiles.OpenFile.Read: the same requests, taken at the seek position.
- OpenFiles.OpenFile.Write: the same requests, taken at the seek position.
- FileSystems.FileSystem.constructor: the format requires room for the root files, where the kernel asserts it; opening requires a consistent disk, since the kernel checks nothing.
- Interrupts.Interrupt.OneTick: the call of Yield at its end is returned as a flag, since what runs then is any thread.
- DiskTiming.Drive.ComputeLatency: ticks are unbounded integers; an int that overflows after 2^31 ticks is not modelled.
- Mult.Mult: takes the wrap-around of negating the least int, and the sign-filling right shift, as the hosts of the kernel do them.
- Storage.Geometry.Valid: headers shorter than a sector are not modelled, where WriteBack would also write the memory behind the header; nor are bitmaps with spare bits.
- RWLock, SynchList: the body between taking the mutex and giving it up is one step, since only the holder runs it; taking the mutex, sleeping on it, being woken and giving it up are steps of their own.
- SynchDisk: the transition system follows requests and completions, not the bytes moved; the file system uses a disk that reads and writes whole sectors at once.
- Directory entries: ExtName and FullPath travel with an entry and are never read; padding and unset fields are arbitrary bytes.
- FsSteps.StepRefines: a granted Create whose header does not fit is no step, since the disk it leaves has a name without a file; CreateExact, CreateLoses and CreateSparesFile say what it leaves. A Create that aborts is none either.
- FsSteps.RunRefines: the same calls end the run.
- FileSystems.FileSystem.Open: a disk on which an oversized Create left a file without pointers is excluded by the invariant; CreateExact says when that arises.
- FileSystems.FileSystem.Remove: the same disk is excluded.
- Reads and writes through handles of removed files, concurrent callers of the file system, and crashes between two sector writes.
- Handlers and devices: each firing's effect is a parameter; handler code is not modelled. Console, network and timer devices are left out.
- The other scheduling policies, Suspend, Resume, Join, Barrier, thread deletion, stacks and the context switch.
- ChangeSize, Print, List, Mapcar, isHeldByCurrentThread, debugging output and statistics: nothing beyond their bodies to state.
- The rest of the MIPS interpreter, the TLB, paging, address spaces and system calls.
- The UNIX file behind the disk, and the copies of the file system under try/filesys.
