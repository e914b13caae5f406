# wjos in Dafny

wjos is a 32-bit x86 kernel. This project models three of its parts and proves properties of
them that hold over every run:

1. **The FAT16 driver** (`kernel/fs/fatfs/fatfs.c`). The class `Fat` keeps a disk of 512-byte
   sectors, two file allocation tables and a buffer that caches one sector and is reused for data
   clusters. Its methods are the driver's functions, loop for loop, and their contracts speak of the
   volume that the sectors stand for: a table, directory entries and clusters. On top of it the class
   `Mount` keeps the byte sequence of every file.
2. **Pages and page tables** (`kernel/core/memory.c`, `kernel/tools/bitmap.c`,
   `kernel/include/cpu/mmu.h`). Directories, tables and data frames are byte frames in one memory,
   handed out by a bitmap. A ghost owner map says what every allocated frame is for; the invariant
   `Wf` ties it to the entries in the frames in both directions.
3. **The scheduler with sleep queue, mutexes, semaphores and terminal output**
   (`kernel/core/task.c`, `kernel/ipc`, `kernel/dev/tty.c`, `kernel/tools/list.c`). Classes run on
   intrusive doubly linked lists and are proved to compute functions on sequences of task numbers;
   those functions are the steps of a state machine (`Kernel`) about which the whole-run properties
   are proved. A step is one call with interrupts off. The class `TaskSystem` joins one task manager
   with all its mutexes and semaphores: every series of calls on it is a run of that machine.

The files, bottom up:

| files | content |
|---|---|
| `Bits` (with modules `Klib` and `Counting`), `FatDisk` (module `Bytes`) | the bit operators of C on naturals, little-endian words, `up2` and `down2` |
| `FatTable`, `FatContent`, `FatOwner` | allocation table, chains, file contents and ownership on values |
| `FatDisk`, `FatDriver`, `FatFile`, `FatIO`, `FatNames`, `FatDir`, `FatTracks`, `FatMount` | the driver in place, from sectors to mounted files |
| `FatExamples` | runs of the driver that go wrong |
| `Bitmap`, `Mmu`, `PageSpace`, `PageSteps`, `PageRelations`, `CopyRelation` | bits, address fields, frames and ownership on values |
| `Paging`, `Destroy`, `Copy`, `Heap`, `CopyData` | the memory functions in place |
| `List`, `SchedSpec`, `Scheduler`, `Ipc` | lists, scheduler, mutex and semaphore in place, each equal to its function on values |
| `Kernel`, `KernelTick`, `KernelSteps`, `KernelInv`, `KernelRuns`, `KernelFair`, `KernelCalls`, `KernelIpc` | the state machine, its invariant and its runs |
| `KernelHeap` | the whole scheduling state on its pointers, as the state machine |
| `Tty`, `TtySystem` | ring buffer, one writer in place, any number of writers as a state machine |

The definitions that methods and specifications share (where a cluster lies on the disk, which word a
page number selects, how long a time slice is) are tied to the numbers of the source by contracts and
lemmas that do not mention them: bytes of the raw disk in `FatDriver.Fat` and `FatIO`, bytes of the
memory in `PageSpace.WalkInBytes`, ticks and queues in `KernelCalls`.

Some properties turn out to hold only under a condition; it is then part of the statement:

- `up2` rounds up exactly when `size + bound - 1` does not pass 2^32 (`Klib.Up2RoundsUpIff`).
- `sys_sleep` keeps the calling task in a queue exactly for `0 < ms <= 2^32 - 10`
  (`KernelRuns.SleepKeepsTask`).
- A printed 8.3 name converts back exactly when both parts are left-justified
  (`FatNames.NameRoundTrip`, through a buffer in `FatNames.PrintAndConvert`).
- A seek leaves a readable position exactly when it starts in the first cluster and the offset is
  not past the end (`FatIO.SeekThenReadable`, and for a mounted volume `FatMount.Mount.SeekTo`).
  Seeking back to 0 at the end of a file of two clusters goes wrong (`FatExamples.SeekBackFails`).
- A write at the end of a file keeps the volume in order exactly when the buffer is empty, the file
  has room for one more byte, or at least a cluster is to be written and the free clusters are too few
  (`FatMount.Mount.Append`). A file whose chain is full, read to its end, is the other case:
  `FatExamples.StrayWrite` loses a byte and `FatExamples.LostCluster` a cluster.
- `sys_sbrk` stops the kernel exactly when a page that the break passes is mapped already and the
  frames last up to it (`HeapMemory.Process.Sbrk`, with such a call in `HeapMemory.SbrkStops`). The
  first task is in such a state, since its heap starts inside ten pages that are mapped at boot.
- A bitmap request for more than one page hands out only free pages exactly when the first run of
  `count - 1` clear bits is followed by one more (`Bitmap.BitArray.AllocNbits`);
  `Bitmap.TwoPagesOverlap` is a call that hands out a used page.
- `memory_copy_uvm` succeeds exactly when the frames last, `memory_create_map` and `sys_sbrk` exactly
  when they last and no page is mapped yet (`Paging.Memory.CreateMap`); a copy
  that runs out leaks a frame exactly when it misses a frame for a table (`CopyUvm.CopySpace`, with
  such a copy in `CopyUvm.CopyLeaks`), and so does `memory_alloc_for_page_dir`
  (`HeapMemory.AllocForPageDir`).
- The allocator of clusters is bounded by the table, whose size is a whole number of sectors, and not
  by the data area. The clusters that it hands out have sectors exactly when the last of them has
  (`FatIO.BackedExact`); `FatExamples.AllocPastDisk` is a call that hands out one without. What is
  written to such a cluster is lost (`FatDriver.Fat.WriteCluster`), so the write contracts ask for
  clusters on the disk (`Backed`).

Where comments and code of the source disagree, the code is followed: `expand_file` announces "or"
for the test of the current cluster and uses "and", and the test for a read-only file in
`fatfs_close` can never hold, so closing always writes the entry.

## Model

| member | source | states |
|---|---|---|
| Klib.Down2IsFloor | kernel/include/tools/klib.h:8-11 | down2 is the largest multiple of a power of two not above the argument |
| Klib.Up2RoundsUpIff | kernel/include/tools/klib.h:14-17 | up2 is the least multiple not below the argument exactly when the intermediate sum does not wrap |
| FatTable.FreeChainExact | kernel/fs/fatfs/fatfs.c:197-266 | on every table, cyclic or corrupt included, freeing from a start frees exactly the in-table clusters reachable from it over non-free entries and leaves the others alone |
| FatTable.FreeChainOfChain | kernel/fs/fatfs/fatfs.c:258-266 | freeing a well-formed chain frees exactly its clusters |
| FatTable.FreeUndoesLink | kernel/fs/fatfs/fatfs.c:409-451 | freeing a chain that was linked out of free clusters restores the table from before |
| FatTable.LowestFree | kernel/fs/fatfs/fatfs.c:409-451 | the clusters an allocation takes lie below every free cluster it leaves |
| FatTable.FreeListIs | kernel/fs/fatfs/fatfs.c:416-428 | the free list is the numbers from 2 on whose entry is 0, in ascending order |
| FatTable.FreeListAfterTake | kernel/fs/fatfs/fatfs.c:409-451 | after an allocation the other free clusters are free, in the same order |
| FatDisk.TableStore | kernel/fs/fatfs/fatfs.c:223-256 | patching one word and writing the sector to both tables changes exactly one entry, keeps the mirror and leaves directory and data alone |
| FatDisk.DirStore | kernel/fs/fatfs/fatfs.c:42-55 | writing a patched directory sector changes exactly one entry and nothing else of the volume |
| FatDisk.ClusterStore | kernel/fs/fatfs/fatfs.c:546-560 | writing the sectors of a cluster changes exactly that cluster |
| FatDisk.TableIs | kernel/fs/fatfs/fatfs.c:201-221 | entry c of the table of the volume is the little-endian word at byte c * 2 of the first table on the disk |
| FatDisk.DirIs | kernel/fs/fatfs/fatfs.c:23-35 | entry i of the directory of the volume is the 32 bytes from byte i * 32 of the root directory on |
| FatDisk.DataIs | kernel/fs/fatfs/fatfs.c:464-491 | cluster c of the volume is the sectors from dataStart + (c - 2) * secPerCluster on |
| FatDriver.Fat.BreadSector | kernel/fs/fatfs/fatfs.c:10-21 | afterwards the cached sector is the one asked for and the buffer holds it; the disk is unchanged |
| FatDriver.Fat.ClusterGetNext | kernel/fs/fatfs/fatfs.c:201-221 | the little-endian word at byte c * 2 of the first table for a cluster in the table, 0xFFF8 for any other, through the sector cache |
| FatDriver.Fat.ClusterSetNext | kernel/fs/fatfs/fatfs.c:223-256 | the two bytes of the entry change in both tables and no other byte of the disk, cache and mirror stay coherent, and the three return values |
| FatDriver.Fat.ClusterFreeChain | kernel/fs/fatfs/fatfs.c:258-266 | terminates on every table (the number of used entries falls) and frees the reachable clusters |
| FatDriver.Fat.ClusterAllocFree | kernel/fs/fatfs/fatfs.c:409-451 | all or nothing, on every table: the head of a chain of exactly the lowest clusters with entry 0, each with its successor in its entry and 0xFFF8 in the last, and every other entry unchanged; or 0xFFF8 and the table of before |
| FatDriver.Fat.ReadCluster | kernel/fs/fatfs/fatfs.c:485-491 | the buffer holds byte k of the cluster at k, which is byte k % 512 of sector dataStart + (c - 2) * secPerCluster + k / 512; the cached sector is dropped, so the cache stays coherent; for sectors past the end of the device the buffer keeps what it held |
| FatDriver.Fat.WriteCluster | kernel/fs/fatfs/fatfs.c:531-560 | the sectors dataStart + (c - 2) * secPerCluster and following take the bytes and no other sector of the disk changes; so exactly that cluster of the volume changes, and none for a cluster without sectors or a number past the table |
| FatDriver.Fat.ReadDirEntry | kernel/fs/fatfs/fatfs.c:23-35 | the 32 bytes from byte i * 32 of the root directory on, or nothing outside it |
| FatDriver.Fat.WriteDirEntry | kernel/fs/fatfs/fatfs.c:42-55 | exactly those 32 bytes of the disk change, and that entry of the volume, or an error outside the directory |
| FatContent.ContentsSlice | kernel/fs/fatfs/fatfs.c:472-500 | a part of one cluster is the matching part of the file's bytes |
| FatContent.WrittenPatch | kernel/fs/fatfs/fatfs.c:527-570 | patching the current cluster extends the bytes written so far |
| FatContent.NeededTotal | kernel/fs/fatfs/fatfs.c:336-360 | expand_file asks for exactly the clusters that bring the chain to the number for the longer file |
| FatContent.NeededLeast | kernel/fs/fatfs/fatfs.c:336-360 | for an empty file the clusters asked for are the least number that holds the bytes; for a file with room for a byte they complete the least chain for the new size, with one more exactly when the bytes fill the last cluster |
| FatContent.NeededFree | kernel/fs/fatfs/fatfs.c:336-360 | the clusters asked for are there exactly when the new size fits into the chain and the free clusters, and one is free when the bytes fill the last cluster |
| FatContent.RoomExact | kernel/fs/fatfs/fatfs.c:336-360 | a chain with room for one more byte has exactly size / cluster size + 1 clusters |
| FatFile.ExpandFile | kernel/fs/fatfs/fatfs.c:336-384 | appends the lowest free clusters to the file's chain, or changes nothing and fails exactly when there are too few; in numbers, an empty file gets the least chain for its bytes, a file with room for a byte the least chain for its new size, and one cluster more exactly when the bytes fill its last one; with no current cluster behind a chain, the clusters allocated stay allocated for nobody and it fails |
| FatFile.MoveFilePos | kernel/fs/fatfs/fatfs.c:386-407 | moves the position and keeps the current cluster the chain element of the position, growing the chain by one at its end |
| FatIO.FatfsWrite | kernel/fs/fatfs/fatfs.c:336-578 | at the end of a file, whatever its chain: with room for the next byte all bytes are appended and no byte of another chain changes, or nothing happens and 0 is returned, and which one is stated in numbers of bytes and free clusters; every byte of the file then lies on the disk where position and chain say; behind a full chain less than a cluster is written to sectors of no cluster and the size passes the chain, and for more the clusters allocated are lost, unless there are too few |
| FatIO.StoresInNumbers | kernel/fs/fatfs/fatfs.c:508-577 | with room for the next byte all bytes are stored exactly when old and new bytes fit into chain and free clusters, and one is free when they fill the last cluster; such a write never does harm |
| FatIO.HarmlessInNumbers | kernel/fs/fatfs/fatfs.c:336-384 | behind a full chain a write does no harm exactly when it is empty, or a cluster or more is to be written and the bytes behind its first cluster exceed the free clusters, or none is free |
| FatIO.ByteStored | kernel/fs/fatfs/fatfs.c:464-491 | every byte of a file lies on the disk where its position and the chain say |
| FatIO.FatfsRead | kernel/fs/fatfs/fatfs.c:453-506 | the next bytes of the file, cut at its end, for any size and position, with the volume unchanged; the byte returned for position p is byte p % 512 of sector dataStart + (ch[p / cb] - 2) * secPerCluster + p % cb / 512 of the disk |
| FatIO.FatfsSeek | kernel/fs/fatfs/fatfs.c:600-639 | where the walk from the current cluster lands, and exactly when it fails |
| FatIO.SeekThenReadable | kernel/fs/fatfs/fatfs.c:600-639 | from every readable state: exactly when the seek fails, and that a position that can be read is left exactly when it fails or it starts in the first cluster and the offset lies in the file |
| FatExamples.SeekBackFails | kernel/fs/fatfs/fatfs.c:600-639 | a file of 600 bytes in two clusters at its end: seeking to 0 succeeds and leaves a position that cannot be read |
| FatIO.BackedExact | kernel/fs/fatfs/fatfs.c:409-451 | the clusters that an allocation takes lie on the disk exactly when the last one of them does |
| FatExamples.AllocPastDisk | kernel/fs/fatfs/fatfs.c:412-415 | the search is bounded by the table alone: a volume on which it hands out a cluster without sectors |
| FatExamples.StrayWrite | kernel/fs/fatfs/fatfs.c:508-578 | a file of two full clusters, read to its end: writing one byte reports success, the size passes the chain and no cluster of the volume changes |
| FatExamples.LostCluster | kernel/fs/fatfs/fatfs.c:336-384 | there, writing a whole cluster reports nothing written, and a free cluster is used by no file |
| FatNames.ToSfn | kernel/fs/fatfs/fatfs.c:79-104 | the in-place conversion computes the 11-byte name: no lower-case letter is left, a text without a dot stands from byte 0 on with its letters as capitals and blanks behind, and what follows the only dot stands from byte 8 on |
| FatNames.GetName | kernel/fs/fatfs/fatfs.c:652-672 | for every 11-byte name: the in-place printing leaves the printed name and the zeros after it in the first 12 bytes and changes nothing behind them; k characters and an extension of m are printed as those k, a dot if m > 0, and those m |
| FatNames.PrintedIs | kernel/fs/fatfs/fatfs.c:652-672 | what is printed is the short name and zeros when the name has no zero byte |
| FatNames.StripParts | kernel/fs/fatfs/fatfs.c:652-672 | printing drops exactly the blanks of a name part and keeps the order of the others |
| FatNames.NameRoundTrip | kernel/fs/fatfs/fatfs.c:79-104 | printing a name and converting it back is the identity exactly for left-justified names, in particular for every source without blanks |
| FatNames.PrintAndConvert | kernel/fs/fatfs/fatfs.c:79-672 | for every 11-byte name and any buffer, printing and converting the bytes up to the first zero gives the name back exactly when it has no dot, zero or lower-case letter and is left-justified; the string is then the short name exactly when it has fewer than 12 characters or the byte behind is zero |
| FatNames.BlankIsLost | kernel/fs/fatfs/fatfs.c:652-672 | a name with a blank inside that does not come back |
| FatOwner.AppendKeeps | kernel/fs/fatfs/fatfs.c:336-384 | growing one file keeps all chains acyclic, pairwise disjoint and complete |
| FatOwner.ClearKeeps | kernel/fs/fatfs/fatfs.c:258-266 | freeing the chain of one file does too, and no other file changes |
| FatOwner.Conservation | kernel/fs/fatfs/fatfs.c:223-451 | free clusters, clusters of files and foreign clusters add up to the table |
| FatOwner.ReturnsClusters | kernel/fs/fatfs/fatfs.c:258-266 | a file that gives up its clusters leaves exactly that many more free ones |
| FatDir.SetFileRoundTrip | kernel/fs/fatfs/fatfs.c:580-598 | the entry fatfs_close writes reads back as the same size and start cluster, with the name kept |
| FatDir.StoredNumbers | kernel/fs/fatfs/fatfs.c:580-598 | the entry written has the digits of start cluster and size at their bytes and every other byte of the old entry |
| FatDir.NewEntryBytes | kernel/fs/fatfs/fatfs.c:178-194 | a new entry is the name, the start cluster 0xFFF8 and zeros but for one byte that is left unset |
| FatDir.ScanExact | kernel/fs/fatfs/fatfs.c:277-302 | the directory scan finds the first entry in use with the name before the end mark, or else the end mark or the last free entry |
| FatDir.ScanFindsCreated | kernel/fs/fatfs/fatfs.c:277-334 | a file created where the scan ended is found there by the next scan |
| FatDir.FatfsOpen | kernel/fs/fatfs/fatfs.c:268-334 | opening, truncating and creating as changes of the volume and of the file record, or an error with no change; a file opened without truncating has the start cluster in bytes 26, 27, 20, 21 of its entry and the size in bytes 28 to 31 |
| FatDir.FatfsClose | kernel/fs/fatfs/fatfs.c:580-598 | those eight bytes of the file's entry take the digits of start cluster and size, and no other byte of the entry and no other entry changes |
| FatDir.FatfsUnlink | kernel/fs/fatfs/fatfs.c:712-746 | the chain is freed and the entry cleared, or an error with no change |
| FatMount.Mount.Append | kernel/fs/fatfs/fatfs.c:336-578 | at the end of any open file the volume stays in order exactly when the buffer is empty, or the file has room for one more byte, or a whole cluster or more is to be written and the free clusters are too few; then the bytes are added to that file and no other file changes, or nothing does; otherwise no map of files explains the state |
| FatTracks.OrphanUnexplained | kernel/fs/fatfs/fatfs.c:365-384 | clusters taken without hooking them onto a chain belong to no file of any map of files that agrees with directory and open files |
| FatTracks.StrayUnexplained | kernel/fs/fatfs/fatfs.c:508-578 | a size beyond the chain agrees with no map of files |
| FatTracks.OneChain | kernel/fs/fatfs/fatfs.c:201-221 | a chain is determined by its first cluster |
| FatMount.Mount.Read | kernel/fs/fatfs/fatfs.c:453-506 | the file's next bytes, with every file unchanged |
| FatMount.Mount.SeekTo | kernel/fs/fatfs/fatfs.c:600-639 | from any position and to any offset: fails exactly when the chain has no such cluster counted from the current one; the volume stays in order exactly when it fails or it starts in the first cluster and the offset lies in the file, and otherwise no map of files explains the position; volume and size stay |
| FatMount.Mount.Open | kernel/fs/fatfs/fatfs.c:268-334 | a found file keeps its bytes and the volume stays, or it is emptied and its clusters are free again; a created one is empty; the ownership invariant holds |
| FatMount.Mount.Close | kernel/fs/fatfs/fatfs.c:580-598 | every file keeps its bytes and is found under its name as before |
| FatMount.Mount.Unlink | kernel/fs/fatfs/fatfs.c:712-746 | exactly that file goes and as many clusters as it had are free again |
| FatMount.Mount.StoreAndLoad | kernel/fs/fatfs/fatfs.c:268-639 | any series of writes at the end of a file, with closing, opening by name and seeking to the end anywhere between them, then a last write that may fill the volume, then reopening and reading in any sizes, gives the old bytes followed by the written ones; no other file changes, and the clusters gained are the first free ones |
| Bitmap.BitArray.constructor | kernel/tools/bitmap.c:4-16 | all bits have the initial value |
| Bitmap.BitArray.GetBit | kernel/tools/bitmap.c:18-21 | the masked byte: zero exactly when the bit is clear, which is binary digit index % 8 of byte index / 8 |
| Bitmap.BitArray.SetBit | kernel/tools/bitmap.c:24-40 | exactly the bits of the range that exist change |
| Bitmap.BitArray.AllocNbits | kernel/tools/bitmap.c:48-82 | for every bit argument and count: it finds the first run of count - 1 hits of its test (one hit for count 0 or 1) and sets count bits as far as they exist; for clear bits the bits set were all clear exactly when count is at most 1 or a clear bit follows that run |
| Bitmap.MissedOne | kernel/tools/bitmap.c:54-71 | a search for set bits finds a set bit only at the start of a byte, since the masked byte is compared with 1 |
| Bitmap.TwoPagesOverlap | kernel/tools/bitmap.c:61-71 | a call of bitmap_alloc_nbits for two pages that hands out a used one |
| Mmu.AddressParts | kernel/include/cpu/mmu.h:61-78 | directory index, table index and offset put the address together again |
| Mmu.EntryRoundTrip | kernel/include/cpu/mmu.h:69-92 | an entry composed from a frame and permission bits is present and reads back as that frame and those bits |
| Mmu.PageAddrParts | kernel/core/memory.c:311 | the address composed from two indices has those indices |
| PageSpace.WalkOwned | kernel/core/memory.c:86-115 | the table and the frame a user page goes through are owned by that directory at that place |
| PageSpace.KernelTranslates | kernel/core/memory.c:172-187 | while the kernel's frames keep their contents, every page of the kernel half translates alike in every directory, before and after |
| PageSpace.WalkInBytes | kernel/core/memory.c:86-115 | for every address the translation is the walk of the processor through the bytes of the memory: four bytes of the directory at four times the top ten bits, then four bytes of the frame they name; user pages are those from 2 GB on |
| PageSteps.MapWf | kernel/core/memory.c:122-142 | mapping a page keeps the ownership invariant |
| PageSteps.NewTableWf | kernel/core/memory.c:98-112 | so does a new table, and it changes no translation of any directory |
| PageSteps.DestroyWf | kernel/core/memory.c:330-353 | so does destroying an address space, and no translation of another directory changes |
| PageSteps.DestroyTranslates | kernel/core/memory.c:330-353 | destroying an address space changes no translation of another directory, the kernel half included |
| PageSteps.UnmapTranslates | kernel/core/memory.c:266-280 | freeing a mapped page changes no other translation |
| PageSteps.ReleaseTranslates | kernel/core/memory.c:58-64 | freeing a single frame changes no translation |
| PageSteps.NewDirTranslates | kernel/core/memory.c:172-187 | a new directory changes no translation, maps no user page and has the kernel half of the others |
| PageRelations.GrownTranslates | kernel/core/memory.c:122-142 | after a map, page v + k goes to frame q + k with the given bits and every other page of every directory, the kernel half included, translates as before |
| Paging.Memory.AllocPage | kernel/core/memory.c:42-55 | the lowest free frame p as the address 1 MB + 4096 * p, or 0 exactly when none is free; the bitmap stays the set of owned frames |
| Paging.Memory.FindPte | kernel/core/memory.c:86-115 | the place of the entry, with a new table of zeros if asked for and missing, whose address with the low bits 7 is then in the directory; -1 exactly when there is none and none can be made |
| Paging.Memory.CreateMap | kernel/core/memory.c:122-142 | maps a range of user pages to consecutive frames with tables made on the way, each table entry being the frame address with the permission bits and the present bit; complete exactly when no page is mapped yet and the frames last for the missing tables, otherwise the exact prefix, and the kernel stops at its assertion exactly when the first page behind the prefix is mapped already |
| Paging.Memory.CreateUvm | kernel/core/memory.c:172-187 | a directory with the kernel's half and no user page, or 0 exactly when no frame is free |
| Paging.Memory.FreeSingle | kernel/core/memory.c:58-64 | a frame from memory_alloc_page is given back and nothing else changes |
| Paging.Memory.FreeMapped | kernel/core/memory.c:266-280 | the page and its frame are given back and no other translation changes |
| DestroyUvm.DestroySpace | kernel/core/memory.c:330-353 | exactly the frames of the address space are given back |
| CopyUvm.CopySpace | kernel/core/memory.c:282-328 | the copy of the loaded address space succeeds exactly when the frames last; a failed copy gives everything back, but for one frame exactly when a table was missing; the bitmap is then as before |
| CopyUvm.CopyIsEqualAndIsolated | kernel/core/memory.c:282-328 | parent and child map the same pages with the same low permission bits and equal contents; the child's frames were free before and are used by no other page |
| CopyUvm.CopyKeepsTranslations | kernel/core/memory.c:282-328 | every translation of every directory from before stays, the parent's included, and the child shares the parent's kernel half |
| CopyUvm.FailedCopyKeepsTranslations | kernel/core/memory.c:282-328 | a failed copy changes no translation, whether or not it leaks |
| CopyUvm.CopyLeaks | kernel/core/memory.c:282-328 | a copy on a memory of five frames that fails and leaks one |
| CopyUvm.CopyThenDestroy | kernel/core/memory.c:282-353 | copying and destroying the copy restores every owner, and so the bitmap, and every translation |
| HeapMemory.AllocForPageDir | kernel/core/memory.c:226-248 | when it returns, it returns 0: all pages are mapped exactly when the frames last, otherwise a prefix and no frame is free, and a frame stays allocated exactly when the last free one was taken for a page whose table is missing; the kernel stops exactly when a page of the range is mapped already and the frames last up to it |
| HeapMemory.PopulatedTranslates | kernel/core/memory.c:226-248 | the new pages go to frames that were free and every other page of every directory translates as before |
| HeapMemory.Process.Sbrk | kernel/core/memory.c:392-440 | for any process below the stack the kernel stops exactly when a page between old and new break is mapped already and the frames last up to it, otherwise the old break is returned and moved; with nothing mapped above the break it never stops and the heap is mapped from the page of its start up to the rounded break and not above exactly when the frames last |
| HeapMemory.SbrkStops | kernel/core/memory.c:122-142 | a process with a mapped page above its break: moving the break by one byte stops the kernel |
| HeapMemory.Process.SbrkSeries | kernel/core/memory.c:392-440 | for any series of increments every call returns the start plus the sum before it and the heap stays mapped exactly |
| CopyUvmData.GetPaddr | kernel/core/memory.c:355-364 | for every address: 0 without a table, else frame field plus offset; nothing changes |
| CopyUvmData.CopyData | kernel/core/memory.c:367-390 | every source byte arrives at its place across page boundaries, no other byte of the memory changes, and the loop ends; -1 is returned exactly when a target byte has no table, after exactly the bytes before it |
| CopyUvmData.BytesTranslate | kernel/core/memory.c:367-390 | copying bytes changes no translation of any directory |
| CopyUvmData.ByteSeen | kernel/core/memory.c:355-390 | the byte at an address is the byte of the memory that the address translates to, and below 2 GB the physical byte itself |
| CopyUvmData.OtherSpaceApart | kernel/core/memory.c:367-390 | a user source in another address space never lies in the target's frames |
| IntrusiveList.List.InsertFirst | kernel/tools/list.c:9-26 | the node is put in front; count and both link directions agree with the sequence |
| IntrusiveList.List.InsertLast | kernel/tools/list.c:28-45 | the node is put at the end |
| IntrusiveList.List.RemoveFirst | kernel/tools/list.c:47-68 | the first node goes, or null for an empty list |
| IntrusiveList.List.RemoveLast | kernel/tools/list.c:70-91 | the last node goes, or null for an empty list |
| IntrusiveList.List.Remove | kernel/tools/list.c:93-117 | that node goes from wherever it stands and the others keep their order |
| Scheduler.TaskManager.SetReady | kernel/core/task.c:238-247 | on the lists: the task joins the ready queue at its end, the idle task is left alone |
| Scheduler.TaskManager.SetBlock | kernel/core/task.c:249-256 | on the lists: the task leaves the ready queue |
| Scheduler.TaskManager.SetSleep | kernel/core/task.c:258-267 | on the lists: the task joins the sleep queue with its ticks |
| Scheduler.TaskManager.SetWakeup | kernel/core/task.c:269-272 | on the lists: the task leaves the sleep queue |
| Scheduler.TaskManager.NextRun | kernel/core/task.c:226-236 | the head of the ready queue, or the idle task |
| Scheduler.TaskManager.Dispatch | kernel/core/task.c:291-306 | the next task becomes current |
| Scheduler.TaskManager.ScanSleep | kernel/core/task.c:319-331 | the pointer walk that moves nodes while it goes computes the scan of the sleep queue |
| Scheduler.TaskManager.TimeTick | kernel/core/task.c:308-334 | a whole tick on the lists is the tick on sequences |
| Scheduler.TaskManager.SleepMs | kernel/core/task.c:336-346 | sys_sleep on the lists, with its 32-bit rounding |
| Scheduler.TaskManager.Yield | kernel/core/task.c:274-288 | sys_yeild on the lists |
| Scheduler.TaskManager.WaitBlock | kernel/core/task.c:688-693 | the blocking section of sys_wait on the lists |
| Scheduler.TaskManager.ExitTail | kernel/core/task.c:732-754 | the final section of sys_exit on the lists |
| Ipc.Mutex.Lock | kernel/ipc/mutex.c:11-33 | mutex_lock on the lists is the function on values |
| Ipc.Mutex.Unlock | kernel/ipc/mutex.c:40-66 | mutex_unlock, with the hand-over, on the lists |
| Ipc.Sem.Wait | kernel/ipc/sem.c:11-27 | sem_wait on the lists |
| Ipc.Sem.Notify | kernel/ipc/sem.c:29-46 | sem_notify, with the hand-over, on the lists |
| KernelTick.ScanShape | kernel/core/task.c:319-331 | the scan wakes exactly the sleepers whose last tick it is, in queue order, and counts the others down |
| KernelTick.TickShape | kernel/core/task.c:308-334 | the queues after a tick: rotated when the slice ends, followed by the due sleepers in the order in which they slept, all others in their order |
| KernelInv.StepKeeps | kernel/core/task.c:226-346 | every step of tasks, timer, mutexes and semaphores keeps the invariant |
| KernelInv.BootInv | kernel/core/task.c:190-213 | the first state has it |
| KernelRuns.NoTaskLost | kernel/core/task.c:226-346 | over every run a started task is in exactly one of ready queue, sleep queue, one wait list, child wait and zombie, once, and the current task is the head of the ready queue, or idle |
| KernelRuns.SleepKeepsTask | kernel/core/task.c:336-346 | the arguments for which the sleeping task stays in a queue, both directions |
| KernelCalls.YieldQueues | kernel/core/task.c:274-288 | with two or more ready tasks the caller goes behind the others and the second one runs; otherwise nothing changes |
| KernelCalls.SleepQueues | kernel/core/task.c:336-346 | the caller moves from the head of the ready queue to the end of the sleep queue with ceil(ms / 10) ticks, and the next ready task, or idle, runs |
| KernelCalls.WaitQueues | kernel/core/task.c:688-693 | the caller leaves the ready queue as a waiting task and the next one runs |
| KernelCalls.ExitQueues | kernel/core/task.c:732-754 | the caller leaves the ready queue as a zombie; the first task joins its end exactly when it waits and inherits a finished child, then the parent exactly when it waits |
| KernelCalls.NewSlices | kernel/core/task.c:85-116 | the first task and every task that is started have ten ticks to run |
| KernelCalls.RotatedOnTenth | kernel/core/task.c:308-334 | with a fresh slice and a second ready task, the current task runs through nine ticks and any notifies, and on exactly the tenth tick the second one becomes current, the first going behind all that were ready with ten ticks again |
| KernelHeap.TaskSystem.PerformAll | kernel/core/task.c:226-346 | any series of calls on the pointers of one task manager with all its mutexes and semaphores ends in the state of the same run of the state machine, so its properties hold of the lists |
| KernelHeap.TaskSystem.Perform | kernel/ipc/mutex.c:11-66 | every call that is enabled keeps the pointers in order and computes the step of the state machine |
| KernelHeap.WaiterPlace | kernel/ipc/mutex.c:11-66 | a task on one wait list is on no other one and in no queue of the scheduler, which gives every list operation its precondition |
| KernelHeap.BootSystem | kernel/core/task.c:190-213 | the lists, tasks, mutexes and semaphores as initialised show the boot state |
| KernelFair.StepRank | kernel/core/task.c:226-334 | the ticks left ahead of a ready task drop by one on a tick and never rise on another step |
| KernelFair.BoundedWait | kernel/core/task.c:226-334 | a task at index k of the ready queue becomes current within its rank, which is at most 10 * k ticks, whatever the others do |
| KernelFair.SleepExact | kernel/core/task.c:258-334 | over every run a sleeper counts down by one on each tick and on nothing else |
| KernelFair.SleepsCeil | kernel/core/task.c:336-346 | a task that sleeps for ms is ready after exactly the tick number ceil(ms / 10) and asleep until then |
| KernelIpc.DepthIsHeld | kernel/ipc/mutex.c:11-66 | the count and owner are the nesting depth that the callers observe, so nested locks need equally many unlocks and a foreign unlock changes nothing |
| KernelIpc.MutualExclusion | kernel/ipc/mutex.c:11-66 | over every run at most one task is between a lock return and its unlock, it does not wait, and while a task waits some task is inside |
| KernelIpc.LockFifo | kernel/ipc/mutex.c:11-66 | ownership passes in the order of the requests |
| KernelIpc.SemConserved | kernel/ipc/sem.c:11-46 | waits are granted in order, first count plus notifies is last count plus returned waits, and a count above 0 means nobody waits |
| Tty.Fifo.Put | kernel/dev/tty.c:32-49 | appends the character, or fails without change when the buffer is full |
| Tty.Fifo.Get | kernel/dev/tty.c:51-68 | takes the oldest character, or fails without change when there is none |
| Tty.Output.Drain | kernel/dev/console.c:382-421 | console_write takes everything out of the output buffer and gives back as many units of space |
| Tty.Output.Write | kernel/dev/tty.c:95-136 | a sole writer never blocks or fails and the console takes its text with every newline expanded |
| Tty.ExpandSnoc | kernel/dev/tty.c:113-122 | on a terminal that expands, a newline comes out as carriage return and newline; every other character comes out as it is |
| Tty.ExpandPlain | kernel/dev/tty.c:113-122 | dropping the added carriage returns gives the text back |
| TtySystem.ActKeeps | kernel/dev/tty.c:95-136 | every step of any number of writers and of the rest of the kernel keeps the space balance |
| TtySystem.OutputNeverFails | kernel/dev/tty.c:95-136 | over every run no put finds the buffer full, what comes out is what was put in, in order, and free, promised, filled and returning space add up to 512 |

## Left out

- Hardware: port I/O, CR3 and EFLAGS, task switching, interrupt entry and boot code. A dispatch sets the current task; the kernel sees the managed memory at its physical addresses, so it ends below MEM_EXT_END (127 MB).
- Disk errors: the sectors of the device do not fail; past its end disk_read and disk_write move nothing and return the number of sectors moved, so the driver's branches for negative results do not run.
- fatfs_mount: the boot record; the model starts from the layout it accepts, with 512-byte sectors, two tables, clusters of a power of two up to 4096 bytes (the buffer is one page) and fewer than 65536 entries (the search index is 16 bits wide).
- Foreign tables: a chain end is the mark 0xFFF8 that this driver writes; other end marks of FAT16 volumes are not recognised as chains by the model.
- Long files: positions and sizes stay below 2^31.
- FatIO.FatfsWrite: covers every state with the position at the end of the file; a write in the middle adds to the size in the source (fatfs.c:567) and is not modelled. When the disk has no cluster for the byte after a full last cluster, the bytes are stored but the position stays behind, which the contract says. A chain that grows by clusters without sectors is excluded by `Backed`.
- FatMount.Mount.Append: as FatIO.FatfsWrite, at the end of the file and growing by clusters on the disk.
- FatMount.Mount.Open: excludes creating a name whose directory form starts with the byte 0xE5 or 0, which the directory reads as free or end, and an entry that is open already.
- FatMount.Mount.Unlink: the cleared entry reads as the end of the directory, so files behind it are no longer found by name; the contract speaks of files, not of names.
- FatMount.Mount.StoreAndLoad: asks for the clusters of all writes but the last with the one for the next byte, and for those that expand_file takes for the last write, with sectors on the disk.
- Directories: an entry with a start cluster and size 0, as of a subdirectory, is no file of a `Mount`; FatOwner.RecOk asks that a file with clusters has bytes.
- fatfs_stat and reading directories.
- Integer widths: semaphore counts, lock counts and slice counters are unbounded integers.
- The mutex of the page allocator: each call of memory.c runs alone.
- create_kernel_table and memory_init: the kernel's directory is given; the constructor of the memory asks that the frames of its tables are reserved.
- Paging.Memory.FindPte: tables are made for user addresses only; looking up covers every address.
- Paging.Memory.CreateMap: user pages only; the kernel's half is mapped once by create_kernel_table, before any directory exists.
- CopyUvm.CopySpace: copies the address space of the loaded directory, as fork does; the source reads the pages through CR3.
- CopyUvmData.CopyData: a target page whose table exists but whose entry is absent is excluded; the source would write at the offset as a physical address, as CopyUvmData.GetPaddr shows.
- HeapMemory.Process.Sbrk: negative increments stop the kernel in the source, and the heap stays below the stack. What a stopped kernel leaves in memory is not described.
- Who is on a wait list but has not run since: a granted mutex or semaphore counts as returned at the hand-over.
- sys_wait and sys_exit: the scans of the task table run in sections of their own; the model has their atomic parts, so the wake-up of a parent that blocks after its scan is not claimed. The waking test reads the states of parent and first task as they are.
- task_list, file descriptors, fork, exec and their resource totals.
- Terminal input, console drawing and escape sequences.
- Tty.Output.Drain: without the console's own mutex and its escape states; what leaves the buffer is the output.
- Tty.Output.Write: the device table lookup that precedes the loop.
- KernelRuns.NoTaskLost: a new task is started by a running task, as fork does, and never while the idle task runs.
- KernelHeap.TaskSystem.PerformAll: the task objects are those of a table given at the start; a task created later uses an object of that table.
