# HomunculOS in Dafny

A model of the state-changing core of HomunculOS, a small i386 kernel, with proofs about whole runs of it:

* **Memory** (`PageTables`, `DirectoryClone`, `FrameCosts`, `PhysicalMemory`, `AddressSpaces`, `MemoryHistory`,
  `Exec`): physical memory is a sequence of 4096 frames of words, and page directories and tables live in those same frames. A ghost
  record gives, for each frame, the one place that refers to it. The reference is a table of independent address
  spaces (page number to flags and contents), the page tables each of them has, and a count of free frames; it
  predicts the answer to every call, and every operation is one update of it. `MemoryHistory` tells what is at each
  address from the calls and answers alone. `Exec` has the frames that exec takes
  and releases around a new space.
* **Mappings** (`VmAreas`, `Mmap`): the unordered array of areas of a task, and mmap2, munmap and mprotect on top
  of the page tables.
* **ext2** (`Ext2Alloc`, `Ext2Inodes`, `Ext2Bmap`, `Ext2FileBytes`, `Ext2Fs`, `Ext2Dirent`, `Ext2DirBlock`,
  `Ext2Dir`, `Ext2Create`): the block and inode allocators over a device whose calls may fail, the four-range block
  map against one list of all block numbers, files as byte sequences, directories whose blocks are bytes tiled by records, and the creation of a file.
  `Division` has the arithmetic of block and page boundaries.
* **Tasks** (`TaskStates`, `Scheduling`, `RunQueue`, `Waitpid`): the linked run queue against a sequence, bounded
  waiting over every run, and exit and waitpid as a protocol over the task table.
* **Descriptors and pipes** (`Descriptors`, `FileTables`, `FileRuns`, `DescriptorHistory`, `PipeStream`,
  `PipeBuffer`): reference counts over all tasks' descriptor tables, against a reference without counts in which a
  file lives while it is named, and against the history of calls that opened and copied each descriptor; the ring buffer against a queue; and readers and writers that sleep and wake.
* **Paths** (`Paths`, `NormalizePath`, `VfsResolve`): the in-place rewrite of a path against its component list, the
  loop that looks a path up in a tree of files and directories, and when a path and its rewritten form lead to the
  same file.

Code that changes memory step by step is a class or a method with loops over arrays, sequences or maps. The kernel
is not preempted inside a system call, which it enters through an interrupt gate (arch/i386/interrupts.c:81), so a
blocking call is modelled as the uninterrupted stretches between its sleeps, and an interleaving is any order of such
stretches. That a task which has exited does nothing more is an assumption: when no other task is ready the scheduler
returns to it (kernel/scheduler.c:102-103) and its exit call then returns. Integers are unbounded; 32-bit addresses,
16-bit counters and one-byte lengths are bounded explicitly where the code depends on them.

Where a promise does not hold for every input, the exact condition is proved:

* A write of no bytes at offset 0 empties the file, so "a write splices the data in" holds exactly if the offset or
  the data is not empty or the file was empty already (`Ext2Fs.FileSystem.WriteFile`).
* With one reader and one writer both can end up asleep exactly if a write may be longer than the 4096-byte buffer
  (`PipeStream.DeadlockIff`).
* A path and its normal form need not lead to the same file: "/f/.." fails where f is a file, and a component longer
  than the 63 bytes of the lookup buffer is looked up in parts. For every path, the exact condition on its text for the
  normal form to lead wherever the path leads (`VfsResolve.NormalFormIff`), and for paths that fit the buffers the exact
  condition on the directories visited for both to succeed or fail alike (`VfsResolve.SameFileIff`).
* Exec takes the frames of its file buffer one by one but uses and frees them as one stretch from the first on. It frees
  its own frames and no others exactly if the stretch was free when the buffer was taken (`Exec.Restored`,
  `Exec.ReleasedAlone`); `Exec.GapMissed` is a bitmap on which it is not.
* A half-built space is given up by freeing the frame of its directory, so nothing leaks exactly if it has no page table
  yet (`Exec.DropSpace`); `Exec.GiveUpAfterOnePage` is a run that does leak.
* Creating a file that finds an inode but no block fails with the inode still in use, and that is the only failure that
  changes anything (`Ext2Create.CreateEntry`).
* Freeing a block or inode that is not in use puts the free counts out of step, so they stay right exactly if it was
  (`Ext2Alloc.Allocator.FreeBlock`, `Ext2Inodes.InodeAllocator.FreeInode`).

Apart from these, no frame and no block leaks: a frame is allocated exactly if it was set aside at boot or some
directory, table or page refers to it, and a block is in use exactly if it was set aside at mount or a direct pointer
refers to it. The first is kept by allocation, unmapping, protection, stores, fork, the making of an empty space, mmap2,
munmap and mprotect; the second by every file and directory operation modelled. A directory counts as referred to as
long as it exists, so a space that its task has left behind counts as in use.

## Model

| member | source | states |
|---|---|---|
| `PageTables.FramesUnshared` | arch/i386/mm.c:176-205 | two user pages, of one space or of two, have the same frame only if they are the same page of the same space |
| `PageTables.FreeFrameUnmapped` | arch/i386/mm.c:101-106 | a frame that is not allocated is no directory, table or page, and no live user entry of any directory or table names it |
| `PageTables.GrownAccounted` | arch/i386/mm.c:89-99 | if exactly the newly referenced frames were taken, every allocated frame is still one set aside at boot or one that some place refers to |
| `PageTables.InstallTable` | arch/i386/mm.c:182-188 | hanging a zeroed table on an absent entry keeps single ownership and changes no address space |
| `PageTables.InstallLeaf` | arch/i386/mm.c:190-195 | storing one table entry adds that page to that space and leaves every other page of every space alone |
| `PageTables.RemoveLeaf` | arch/i386/mm.c:244-245 | clearing one table entry removes that page from that space only, and its frame can be freed |
| `PageTables.SetFlags` | kernel/syscall.c:1482-1493 | rewriting one entry's flags changes that page's flags, not its contents, and no other page |
| `PageTables.StoreWord` | arch/i386/mm.c:176-205 | a store through one address space shows at that page of that space and nowhere else |
| `PageTables.AddDir` | kernel/syscall.c:429-434 | a directory with only the kernel's entries is a new empty space beside the others |
| `DirectoryClone.CloneDone` | arch/i386/mm.c:151-174 | a finished deep copy joins the others as a space equal to its parent's, with ownership intact and all other spaces as before |
| `DirectoryClone.CloneUndone` | arch/i386/mm.c:137-149 | a rolled-back copy leaves every address space and its ownership as they were |
| `DirectoryClone.CopyTable` | arch/i386/mm.c:160-167 | recording one more copied table extends the half-built copy without disturbing the entries already copied |
| `DirectoryClone.CopyLeaf` | arch/i386/mm.c:116-127 | copying one page into a fresh frame extends the half-built table |
| `PhysicalMemory.FrameMemory.constructor` | arch/i386/mm.c:45-76 | after boot a frame is free exactly if it is available and above the kernel, ownership holds and no frame is allocated without a use |
| `PhysicalMemory.FrameMemory.FrameAlloc` | arch/i386/mm.c:89-99 | the lowest free frame is taken and nothing else changes; 0 exactly when none is free |
| `PhysicalMemory.FrameMemory.FrameFree` | arch/i386/mm.c:101-106 | exactly that frame's bit is cleared, and an address past the managed frames is ignored |
| `PhysicalMemory.FrameMemory.CopyEntry` | arch/i386/mm.c:116-130 | one entry of a table is copied deeply or, if absent, as it stands; fails only when no frame is free |
| `PhysicalMemory.FrameMemory.CloneTable` | arch/i386/mm.c:108-135 | a table with all its pages is copied, or the frame bitmap is exactly as before |
| `PhysicalMemory.FrameMemory.UndoTable` | arch/i386/mm.c:118-125 | the inner rollback frees exactly the frames taken for the half-copied table |
| `PhysicalMemory.FrameMemory.FreeClonedRange` | arch/i386/mm.c:137-149 | the outer rollback frees exactly the frames taken for the copied entries |
| `PhysicalMemory.FrameMemory.CloneEntry` | arch/i386/mm.c:160-170 | one more directory entry is copied or everything taken for it is given back |
| `PhysicalMemory.FrameMemory.CloneEntries` | arch/i386/mm.c:159-171 | all user entries are copied or the bitmap is that of before the copy |
| `PhysicalMemory.FrameMemory.ClonePdir` | arch/i386/mm.c:151-174 | fork succeeds exactly if enough frames are free; then the child has the parent's pages and tables in previously free frames, exactly as many as the copy costs, and otherwise the bitmap, the ownership and all spaces are as before |
| `PhysicalMemory.FrameMemory.AddTable` | arch/i386/mm.c:182-188 | a missing table is added without changing any space, or nothing changes because no frame is free |
| `PhysicalMemory.FrameMemory.TableFor` | arch/i386/mm.c:182-188 | the entry has a table afterwards, the one it had or a fresh one, and no other entry gains or loses one; fails exactly when one is needed and no frame is free |
| `PhysicalMemory.FrameMemory.MapInTable` | arch/i386/mm.c:190-205 | a frame is mapped exactly if the page was absent, and then only that page appears |
| `PhysicalMemory.FrameMemory.MapAt` | arch/i386/mm.c:176-205 | succeeds exactly if the page was absent and its table exists or can be added; adds that page only, takes at most the frame of that table, and failure changes nothing |
| `PhysicalMemory.FrameMemory.ZeroFrame` | arch/i386/mm.c:209-213 | a fresh frame of zeros that no space refers to |
| `PhysicalMemory.FrameMemory.AllocAt` | arch/i386/mm.c:207-221 | a zeroed page appears exactly if the page was absent and one or two frames are free as needed; exactly the frames now referred to were taken, and failure gives the frame back and changes nothing |
| `PhysicalMemory.FrameMemory.UnmapAt` | arch/i386/mm.c:231-249 | fails exactly when nothing is mapped; otherwise removes that page and frees the one frame that held it, all page tables stay, and no frame leaks |
| `PhysicalMemory.FrameMemory.GetPte` | arch/i386/mm.c:251-261 | the entry is present exactly if the page is in the space, and then names its frame and flags |
| `PhysicalMemory.FrameMemory.ProtectAt` | kernel/syscall.c:1482-1493 | a mapped page keeps its frame and contents and gets the new flags; an absent one is left absent |
| `PhysicalMemory.FrameMemory.Store` | arch/i386/mm.c:176-205 | a user store changes one word of one page of one space, or faults when nothing is mapped |
| `PhysicalMemory.FrameMemory.NewDir` | kernel/syscall.c:429-434 | a new directory is an empty space without tables that shares the kernel's entries, and takes exactly one frame; fails exactly when none is free |
| `AddressSpaces.Perform` | arch/i386/mm.c:151-249 | each of the calls modelled, on the real memory, answers as the reference predicts, is one update of it, and leaks no frame |
| `AddressSpaces.Run` | arch/i386/mm.c:89-249 | over every run of alloc, unmap, protect, store, fork and the making of an empty space, ownership holds throughout, a frame is allocated exactly if it was set aside at boot or is referred to, and the spaces, tables, free frames and all answers are those of the reference, which leaves open only which unused number a new directory gets |
| `AddressSpaces.Isolated` | arch/i386/mm.c:151-174 | a space changes only through calls that name it, whatever its parent, children and others do |
| `AddressSpaces.Conserved` | arch/i386/mm.c:89-249 | along every such run, free frames plus one for each space, each of its tables and each of its pages stay the same number |
| `MemoryHistory.AnsweredIff` | arch/i386/mm.c:151-249 | when each call succeeds: a page is allocated exactly at an unmapped user address with a present flag and frames for it and a missing table; unmap, protect and store exactly where a page is; fork exactly with a frame for the directory, each table and each page |
| `MemoryHistory.Remembered` | arch/i386/mm.c:108-249 | after every run, every address of every space holds the word last stored there, zero since its page was allocated, or what its parent held at the fork, with the protection last given to its page, and nothing if its page is not there; all told from calls and answers |
| `MemoryHistory.WorldFull` | arch/i386/mm.c:45-76 | every page of the real memory has its 1024 words, so the history applies to every run from it |
| `FrameCosts.TableSeen` | arch/i386/mm.c:176-205 | a directory entry is present exactly if some frame is recorded as its table |
| `FrameCosts.TablesCloned` | arch/i386/mm.c:159-171 | a copied directory has tables for the same entries as the original, and no other directory's tables change |
| `FrameCosts.ClonePrice` | arch/i386/mm.c:108-174 | the frames that a fork needs are one for the directory, one for each table and one for each page of the parent |
| `Exec.AllocBuffer` | kernel/syscall.c:413-420 | the lowest free frames in order, n of them exactly if so many are free and otherwise all; no space changes |
| `Exec.FreeBuffer` | kernel/syscall.c:505-507 | exactly the frames of the stretch of n from the first on are freed, whatever they are used for |
| `Exec.Consecutive` | kernel/syscall.c:413-420 | if the stretch was free the frames taken are consecutive |
| `Exec.BufferIsStretch` | kernel/syscall.c:413-422 | the frames read into and released are those taken exactly if the stretch was free |
| `Exec.Restored` | kernel/syscall.c:549-557 | an exec that fails at or right after its buffer gives back the bitmap it found exactly if the stretch was free |
| `Exec.GapMissed` | kernel/syscall.c:413-420 | with only frames 1 and 3 free, a buffer of two frames releases frame 2, which was in use, and keeps frame 3 |
| `Exec.ReleasedAlone` | kernel/syscall.c:505-507 | released after more frames were taken, the buffer and nothing else goes exactly if the stretch was free |
| `Exec.StillOwned` | kernel/syscall.c:505-507 | the release keeps single ownership exactly if no space uses a frame of the stretch |
| `Exec.LeftBehind` | kernel/syscall.c:436-447 | once the directory frame alone is freed, every allocated frame is still accounted for exactly if the space had no table |
| `Exec.DropSpace` | kernel/syscall.c:436-447 | giving up a half-built space leaves every other space as it is, and leaks nothing exactly if no table had been made |
| `Exec.GiveUpAfterOnePage` | kernel/syscall.c:436-447 | a space given up after its first page has been mapped leaks, though every space is as before |
| `VmAreas.AreaList.FindGap` | kernel/syscall.c:1325-1347 | the lowest start from the mmap base whose range does not wrap and meets no area, and 0 exactly when there is none |
| `VmAreas.AreaList.Add` | kernel/syscall.c:1349-1360 | the area is appended exactly if the list is not full |
| `VmAreas.AreaList.Remove` | kernel/syscall.c:1362-1375 | the downward swap-remove keeps each area that does not meet the range exactly once and no other |
| `VmAreas.AreaList.UpdateProt` | kernel/syscall.c:1377-1385 | exactly the areas that meet the range get the new protection |
| `VmAreas.AddKeepsDisjoint` | kernel/syscall.c:1349-1360 | adding an area where one fits keeps the areas pairwise disjoint |
| `VmAreas.RemoveKeepsDisjoint` | kernel/syscall.c:1362-1375 | the survivors of a removal are pairwise disjoint |
| `VmAreas.MeetsIff` | kernel/syscall.c:1362-1385 | the comparison of bounds says exactly that some address is in the range and in the area |
| `VmAreas.FitsIff` | kernel/syscall.c:1325-1347 | a range fits exactly if it does not wrap and no address of it is in an area |
| `VmAreas.DisjointIff` | kernel/syscall.c:1325-1347 | areas are disjoint exactly if no address is in two of them |
| `VmAreas.SurvivorsAre` | kernel/syscall.c:1362-1375 | an area is left exactly if it was there and does not meet the range, and as many are left as did not |
| `Mmap.PageFlags` | kernel/syscall.c:1387-1395 | a page is present and user-accessible exactly if the protection is not none, and writable exactly if PROT_WRITE is asked for |
| `Mmap.FlagBits` | kernel/syscall.c:1397-1420 | fixed and anonymous are bits 4 and 5 of the flags, whatever the others are |
| `Mmap.LackingCount` | kernel/syscall.c:1435-1439 | the tables that mapping page after page has to add are the absent directory entries of the range |
| `Mmap.MappableIff` | kernel/syscall.c:1435-1439 | a range can be mapped exactly if none of its pages is there and there are frames for its pages and the absent directory entries |
| `Mmap.MmappedBytes` | kernel/syscall.c:1405-1444 | each byte of the length asked for is in a zeroed page that was not there, with the flags asked for, and in the recorded area, which is less than a page longer; no page past the last byte is new and no earlier one differs |
| `Mmap.MmapTask.Choose` | kernel/syscall.c:1422-1433 | the chosen start is the fixed address if that is free, else the lowest gap; it fits, and failure means nothing fits |
| `Mmap.MmapTask.MapPages` | kernel/syscall.c:1435-1439 | the longest prefix of the range for which no page is there and frames suffice, for the pages and the tables they lack, is mapped to zeroed pages; exactly those frames are taken and nothing else differs |
| `Mmap.MmapTask.UnmapPages` | kernel/syscall.c:1446-1449 | the rollback restores every translation and frees exactly the pages' frames; ownership has gained no more than page tables |
| `Mmap.MmapTask.Mmap2` | kernel/syscall.c:1397-1450 | succeeds exactly if the length rounded up does not wrap and is not 0, the request is anonymous, the list has room, the fixed place is free or the lowest free one exists, none of the pages is there, and frames suffice for them and the absent directory entries; then every byte from the result on for the length asked for is in a new zeroed page with the flags asked for and in the recorded area. On failure no translation or area differs, and the frame bitmap only by the page tables of the longest prefix of the range that could be mapped |
| `Mmap.MmapTask.Munmap` | kernel/syscall.c:1452-1469 | exactly the pages of the range go, and exactly the areas that meet it; as many frames are free again as pages went, and all page tables stay |
| `Mmap.MmapTask.Mprotect` | kernel/syscall.c:1471-1497 | exactly the mapped pages of the range get the new flags, and exactly the areas that meet it the new protection; no frame is taken or freed |
| `Mmap.RunCalls` | kernel/syscall.c:1349-1497 | every run of mmap2, munmap and mprotect is a chain of states, from the first to the last, each explained by its call and its result; the areas stay disjoint and fully mapped, no frame leaks and no other address space changes |
| `Mmap.Determined` | kernel/syscall.c:1397-1497 | the result of a call, the pages and the free frames after it follow from the pages, areas, tables and free frames before it |
| `Mmap.MmapIs` | kernel/syscall.c:1397-1450 | one mmap2 of a run: the same condition and the same bytes, on the pages, areas and free frames before and after |
| `Mmap.MunmapIs` | kernel/syscall.c:1452-1469 | one munmap of a run: exactly the pages from the start rounded down to the end rounded up go, each giving one frame back, and exactly the areas that meet them |
| `Mmap.MprotectIs` | kernel/syscall.c:1471-1497 | one mprotect of a run: exactly the mapped pages of the rounded range get the flags, keeping their words, and exactly the areas that meet it the protection |
| `Ext2Alloc.FirstClear` | kernel/ext2.c:186-193 | the first clear bit among the first n |
| `Ext2Alloc.AgreeTake` | kernel/ext2.c:195-205 | setting a clear bit and lowering its group's count keeps counts and clear bits in step |
| `Ext2Alloc.AgreeFree` | kernel/ext2.c:214-234 | clearing a set bit and raising its group's count keeps them in step |
| `Ext2Alloc.Allocator.constructor` | kernel/ext2.c:168-173 | an allocator over given bitmaps and counts satisfies the invariant, for any sequence of device outcomes |
| `Ext2Alloc.Allocator.Take` | kernel/ext2.c:193-207 | for every sequence of device outcomes: the bit is set unless its write is refused, each counter is lowered exactly if the operations up to it allow it, and the block is returned exactly if the bitmap and the descriptor were written |
| `Ext2Alloc.Allocator.TryGroup` | kernel/ext2.c:174-210 | the search ends at a group exactly if its descriptor and bitmap can be read, its count is not 0 and it has a clear bit, and then takes the first such bit; a group passed over is left as it is |
| `Ext2Alloc.Allocator.AllocBlock` | kernel/ext2.c:168-212 | never returns a block still held, even if device calls fail: for every sequence of outcomes it is the first clear bit of the first group that can be read, has a count and a clear bit, and 0 exactly if there is none or a write fails. On a healthy device the lowest free block, 0 exactly when none is free, and the counts equal the clear bits |
| `Ext2Alloc.Allocator.FreeBlock` | kernel/ext2.c:214-234 | no other bit changes; for every sequence of device outcomes, nothing changes if a read fails, and otherwise the bit is cleared unless refused and each counter raised exactly if its write happens. On a healthy device the counts stay equal to the clear bits exactly if the block was in use and is not block 0 |
| `Ext2Inodes.InodeAllocator.Take` | kernel/ext2.c:262-274 | for every sequence of device outcomes: the bit is set unless its write is refused, and the inode is returned exactly if that write succeeds, whatever happens to the counters |
| `Ext2Inodes.InodeAllocator.AllocInode` | kernel/ext2.c:240-279 | never returns an inode still held, even if device calls fail: for every sequence of outcomes it is the first clear bit of the first group that can be read, has a count and a clear bit, and 0 exactly if there is none or its write fails. On a healthy device the lowest free inode, 0 exactly when none is free, and the counts equal the clear bits |
| `Ext2Inodes.InodeAllocator.FreeInode` | kernel/ext2.c:281-303 | ignores number 0; no other bit changes; for every sequence of device outcomes, nothing changes if a read fails, and otherwise the bit is cleared unless refused and each counter raised exactly if its write happens. On a healthy device the counts stay equal to the clear bits exactly if it was in use |
| `Ext2Bmap.PathIndex` | kernel/ext2.c:395-457 | every index below 12+p+p²+p³ has a path of in-range slots that names it back |
| `Ext2Bmap.IndexPath` | kernel/ext2.c:395-457 | every path of in-range slots belongs to exactly one index |
| `Ext2Bmap.PathsDistinct` | kernel/ext2.c:395-457 | distinct indexes follow distinct paths |
| `Ext2Bmap.ListSize` | kernel/ext2.c:395-457 | the list of the 12 direct pointers, the words of the single-indirect block, those of each block in the double-indirect one in turn and the same one level deeper has 12+p+p²+p³ elements |
| `Ext2Bmap.FollowIs` | kernel/ext2.c:395-457 | following a path through the radix tree ends at that list's element for its index |
| `Ext2Bmap.Bmap` | kernel/ext2.c:395-457 | the four ranges of index arithmetic return element idx of one list of 12+p+p²+p³ block numbers, read off the pointer blocks in order, and 0 past its end |
| `Ext2Bmap.SetBmap` | kernel/ext2.c:463-492 | which pointer or indirect slot changes, when it fails, and that nothing else changes, also past the single-indirect range |
| `Ext2Bmap.SetThenMap` | kernel/ext2.c:463-492 | after setting a single-indirect pointer its index maps to it and every other index as before |
| `Ext2Bmap.SetDirectThenMap` | kernel/ext2.c:463-492 | the same for a direct pointer |
| `Ext2FileBytes.StoredReads` | kernel/ext2.c:557-572 | storing a chunk in the block of a position overwrites the file's bytes there and only there |
| `Ext2FileBytes.MappedReads` | kernel/ext2.c:545-555 | mapping a block at an unmapped index does not change the bytes before it |
| `Ext2FileBytes.OtherReads` | kernel/ext2.c:498-590 | a file's bytes depend on its own blocks only |
| `Ext2FileBytes.ShrunkReads` | kernel/ext2.c:657-706 | dropping pointers from an index on keeps the bytes before it |
| `Ext2Fs.FileSystem.constructor` | kernel/ext2.c:1837-1841 | an image whose blocks in use are exactly those its direct pointers refer to and those set aside satisfies the invariant |
| `Ext2Fs.FileSystem.PutBlock` | kernel/ext2.c:1030-1034 | rewriting one block and the recorded size keeps every block owned by one pointer and touches no one else |
| `Ext2Fs.FileSystem.NewBlock` | kernel/ext2.c:1081-1112 | a free block becomes that of one unmapped index and no other block changes; 0 exactly when no block is free |
| `Ext2Fs.FileSystem.MapFor` | kernel/ext2.c:545-555 | the block of a position exists afterwards, taken from blocks nobody held, or no block is free |
| `Ext2Fs.FileSystem.WriteChunk` | kernel/ext2.c:541-577 | one turn overwrites a prefix of the data at the position and touches no other file |
| `Ext2Fs.FileSystem.WriteLoop` | kernel/ext2.c:540-577 | the written prefix overwrites the contents at the offset, and stops short only when no block is free |
| `Ext2Fs.FileSystem.WriteFile` | kernel/ext2.c:498-590 | the file reads as old contents with the first w bytes spliced in exactly if offset, data or the absence of old contents allow it; no block leaks and no other file changes |
| `Ext2Fs.FileSystem.Truncate` | kernel/ext2.c:657-706 | shrunk, the file reads as the beginning of what it was and exactly the blocks past the new end become free; grown, only the recorded size changes; other files are untouched |
| `Ext2Fs.FileSystem.PhysIs` | kernel/ext2.c:395-457 | the block of a file's index is the element of the inode's block list, through all three levels |
| `Ext2Fs.FileSystem.ByteReadsIs` | kernel/ext2.c:596-651 | what a read may return for a byte is exactly the byte at its offset in that block, or 0 in a hole |
| `Ext2Fs.FileSystem.ReadFile` | kernel/ext2.c:596-651 | every byte returned is that of the block which the list of up to three levels of pointers has for its index, a hole reading as 0; as many bytes as asked for, cut at the end of the file, and fewer only at a pointer to no block; on a file without holes they are its contents |
| `Ext2Dirent.Split` | kernel/ext2.c:744-790 | a tiled block's live entries split at every record boundary |
| `Ext2Dirent.SameBefore` | kernel/ext2.c:996-1113 | entries before a boundary do not depend on bytes after it |
| `Ext2Dirent.RecordEnds` | kernel/ext2.c:758-784 | a record ends as many bytes further as its two length bytes say, low byte first |
| `Ext2Dirent.EntryInIs` | kernel/ext2.c:758-784 | the entry of a record is its four inode bytes, low byte first and not all 0, as many name bytes as the length byte says, and the type byte |
| `Ext2Dirent.LiveIff` | kernel/ext2.c:744-790 | an entry is listed exactly if a record that the walk over the block reaches holds it |
| `Ext2DirBlock.PutGet` | kernel/ext2.c:1010-1024 | the inode, length, name and type stored in a record are read back from its bytes |
| `Ext2DirBlock.HalvedInserts` | kernel/ext2.c:1037-1056 | splitting a live record keeps the block tiled and inserts exactly one entry after it |
| `Ext2DirBlock.ReusedInserts` | kernel/ext2.c:1008-1025 | reusing a dead record, with or without a remainder, keeps the block tiled and inserts exactly one entry |
| `Ext2DirBlock.KilledRemoves` | kernel/ext2.c:1152-1177 | clearing a record's inode keeps the block tiled and removes exactly that entry |
| `Ext2DirBlock.FreshLive` | kernel/ext2.c:1094-1101 | a new block is tiled by one record, lists one entry and is zero behind it |
| `Ext2DirBlock.InsertInBlock` | kernel/ext2.c:996-1073 | succeeds exactly if some record the walk reaches, dead or alive, is longer than its own header and name by what the new entry needs; takes the first such, and inserts exactly that entry, behind the live ones up to that record |
| `Ext2DirBlock.FindInBlock` | kernel/ext2.c:824-893 | the first live record of that name, or none is in the block |
| `Ext2DirBlock.NthInBlock` | kernel/ext2.c:758-784 | walks over exactly the given number of live entries |
| `Ext2Dir.ScanComplete` | kernel/ext2.c:980-989 | no mapped block lies at or past the recorded size, so a scan up to it sees every entry |
| `Ext2Dir.EditBlock` | kernel/ext2.c:1030-1034 | rewriting one block changes the directory's list at that block only |
| `Ext2Dir.AppendBlock` | kernel/ext2.c:1081-1108 | a block mapped past all others appends its entries to the list |
| `Ext2Dir.AboveMapped` | kernel/ext2.c:1081-1092 | the index chosen for a new block is never mapped already |
| `Ext2Dir.ListedIff` | kernel/ext2.c:726-791 | an entry is in the listing exactly if a record in a mapped block of the directory holds it |
| `Ext2Dir.RoomIs` | kernel/ext2.c:985-1041 | a directory has room exactly if in some mapped block the walk reaches a record longer than its own header and name by what the entry needs |
| `Ext2Dir.Lookup` | kernel/ext2.c:793-900 | the inode of an entry of that name with none of that name before it in the listing, and failure exactly when no entry has the name |
| `Ext2Dir.ReadDir` | kernel/ext2.c:726-791 | call number i gives live entry number i, its name cut at 63 bytes, and failure exactly past the end |
| `Ext2Dir.RemoveEntry` | kernel/ext2.c:1119-1180 | exactly the first entry of that name goes and the others keep their order, or nothing changes because there is none |
| `Ext2Dir.InsertAt` | kernel/ext2.c:985-1073 | one block takes the entry if it has room, and the recorded size grows |
| `Ext2Dir.InsertNewBlock` | kernel/ext2.c:1079-1114 | a new block takes the entry, or nothing changes because no block is free |
| `Ext2Dir.AddEntry` | kernel/ext2.c:978-1117 | for an entry that has its inode: if a record of a mapped block has room, the first such in scan order takes it and no block is taken; otherwise it goes behind all others in one newly taken block, and failure means that no block is free and changes nothing. The listing gains exactly this entry at exactly that place, and the recorded size grows by the bytes the entry needs, or by a block if one is taken |
| `Ext2Dir.InsertWithRoom` | kernel/ext2.c:980-1077 | the entry goes into the first record with room exactly if there is one, at the place in the listing that the record has |
| `Ext2Dir.RunDir` | kernel/ext2.c:980-1177 | over every run blocks stay tiled below the recorded size, and the listing at the end is the one at the start with each insertion or removal of a first match done in turn; a removal fails exactly when nothing has the name, an insertion only when no block is free, the run ends early only at 12 blocks, and every other file and directory reads as before |
| `Ext2Dir.OthersSame` | kernel/ext2.c:978-1177 | whenever every other inode and the blocks of its pointers are as before, every other file has the bytes and every other directory the listing it had |
| `Ext2Dir.Conserved` | kernel/ext2.c:980-1177 | along such a run, entries listed plus entries taken out are, with multiplicity, entries listed at first plus entries put in |
| `Ext2Create.TakeInode` | kernel/ext2.c:935-963 | the lowest free inode is taken, and freed again if it cannot be stored; no other inode changes |
| `Ext2Create.CreateEntry` | kernel/ext2.c:906-1117 | succeeds exactly if an inode is free and stored and a record has room or a block is free; then one entry with the lowest free inode is inserted and that file is empty. A failure changes neither listing nor blocks, and leaves one more inode in use exactly if an inode was free and stored and only the block was missing; all other files and directories read as before |
| `Scheduling.ToTailKeeps` | kernel/scheduler.c:58-82 | moving a task to the end loses nobody and repeats nobody |
| `Scheduling.StepInv` | kernel/scheduler.c:18-126 | every step keeps the queue duplicate-free with the running task in it |
| `Scheduling.QueueAfter` | kernel/scheduler.c:84-93 | a schedule call puts the running task, unless it has exited, behind all others, who keep their order |
| `Scheduling.StatesAfter` | kernel/scheduler.c:84-126 | a schedule call changes no state but Running to Ready for the task that ran and Ready to Running for the one dispatched |
| `Scheduling.NextAfter` | kernel/scheduler.c:95-126 | another task is dispatched exactly if one is ready, and it is the first such in the queue |
| `Scheduling.BlockedSleeps` | kernel/scheduler.c:84-126 | over every run, a blocked task that does not run stays blocked and is not dispatched unless somebody wakes it |
| `Scheduling.BlockedRunning` | kernel/scheduler.c:84-126 | over every run, a task that blocks while it runs stays blocked unless it is woken, or the running task resumes or exits |
| `Scheduling.ExitedStays` | kernel/scheduler.c:84-126 | over every run, an exited task stays exited, and is not dispatched again once another one runs |
| `Scheduling.ScheduleProgress` | kernel/scheduler.c:84-126 | a schedule call dispatches a waiting task or brings it one call closer |
| `Scheduling.StepProgress` | kernel/scheduler.c:18-126 | no other step makes a waiting task wait longer |
| `Scheduling.AliveCount` | kernel/scheduler.c:84-126 | the k of bounded waiting is the number of queue places ahead whose task has not exited |
| `Scheduling.BoundedWaiting` | kernel/scheduler.c:84-126 | in every run a ready task other than the running one is dispatched within k+1 schedule calls, k being the live tasks ahead of it |
| `Scheduling.WokenRuns` | kernel/scheduler.c:84-126 | a blocked task that is woken runs within k+1 schedule calls of any run, k being the live tasks ahead of it |
| `RunQueue.Scheduler.AddTask` | kernel/scheduler.c:18-29 | the linked list then represents the old queue with the task at the end, acyclic and with a right tail |
| `RunQueue.Scheduler.MoveToTail` | kernel/scheduler.c:58-82 | relinking gives the queue with the task moved to the end |
| `RunQueue.Scheduler.FindReady` | kernel/scheduler.c:95-100 | the first ready task in queue order |
| `RunQueue.Scheduler.Yield` | kernel/scheduler.c:85-93 | only a running task becomes ready, no other state changes, and the task goes to the end of the queue unless it has exited |
| `RunQueue.Scheduler.DoSchedule` | kernel/scheduler.c:84-126 | on the linked list: the task that ran goes to the end unless it has exited, the first other ready task in the queue runs next if there is one, and no other state changes |
| `Waitpid.ExitInv` | kernel/task.c:193-208 | an exit leaves no blocked waiter with a child to collect |
| `Waitpid.ReapInv` | kernel/task.c:230-250 | a collected child was the caller's own, had not been collected, and never will be again |
| `Waitpid.RunInv` | kernel/task.c:193-275 | in every reachable state no task blocked in waitpid has a matching exited child, and each exit status went to at most one call, by the parent |
| `Waitpid.BootInv` | kernel/task.c:15-42 | over every run from the empty table the kernel boots with, no task blocked in waitpid has an exited child it waits for, and no two deliveries are of the same child |
| `Waitpid.DeliveredIsExit` | kernel/task.c:230-258 | over every run from boot, each delivery has an exit event of that child with that very status, a fork by the receiver that made the child, and a wait by the receiver for any child or for this one |
| `Waitpid.ExitWakes` | kernel/task.c:193-208 | an exit makes a parent blocked for this child ready to run, with this child and no other to collect |
| `Waitpid.ExitCollected` | kernel/task.c:193-258 | once such a parent is dispatched its wait delivers exactly this child and the status of its exit |
| `Waitpid.TaskTable.NewTask` | kernel/task.c:15-42 | fails exactly when the table is full; otherwise one ready task with that parent is added at the end and no other changes, as the creation or fork step says |
| `Waitpid.TaskTable.FindExited` | kernel/task.c:260-275 | the lowest exited child of the caller that is the target, or any with no target, or none is |
| `Waitpid.TaskTable.WakeTask` | kernel/task.c:219-228 | exactly that task is made ready, and only if blocked |
| `Waitpid.TaskTable.ExitTask` | kernel/task.c:193-208 | the task has exited with exactly that status, its parent is made ready if it was blocked, and no other task changes; that is the exit step of the protocol |
| `Waitpid.TaskTable.WaitTurn` | kernel/task.c:230-250 | one turn of the loop returns the pid and stored status of the lowest exited child it waits for and marks it collected, and otherwise returns or blocks; that is the wait step of the protocol |
| `Descriptors.CloseInv` | kernel/vfs.c:388-400 | dropping a descriptor's reference keeps counts equal to descriptors and releases the file and its pipe end exactly at the last one |
| `Descriptors.AddRefInv` | kernel/pipe.c:259-261 | one more descriptor for an open file keeps the counts exact |
| `Descriptors.InstallInv` | kernel/syscall.c:165-174 | a free file given its first descriptor keeps the counts exact |
| `Descriptors.InstallPipeInv` | kernel/pipe.c:181-230 | a new pipe with one descriptor on each end keeps file and pipe counts exact |
| `FileTables.FileTable.constructor` | kernel/vfs.c:22-22 | with nothing open the invariant holds |
| `FileTables.FileTable.FreeFile` | kernel/vfs.c:348-362 | the lowest free slot of the open-file table, or none is free |
| `FileTables.FileTable.FreeFdPair` | kernel/pipe.c:210-221 | the two lowest empty descriptors, the second missing exactly if there are not two |
| `FileTables.FileTable.PipeCloseRead` | kernel/pipe.c:120-136 | the pipe loses a read end and is freed exactly if it was the last end |
| `FileTables.FileTable.PipeCloseWrite` | kernel/pipe.c:138-154 | the pipe loses a write end and is freed exactly if it was the last end |
| `FileTables.FileTable.CloseFile` | kernel/vfs.c:388-400 | the file and its pipe end go exactly with the last reference |
| `FileTables.FileTable.Close` | kernel/syscall.c:180-199 | exactly that descriptor goes; counts stay exact, so its file stays open exactly if some descriptor of some task still names it |
| `FileTables.FileTable.Dup2` | kernel/pipe.c:237-262 | fails exactly for bad descriptors; otherwise the new descriptor names the old one's file, which stays open throughout, and what it named before is dropped |
| `FileTables.FileTable.Dup` | kernel/syscall.c:1096-1114 | the lowest empty descriptor names the file too; fails exactly for a bad descriptor or a full table |
| `FileTables.FileTable.DupFrom` | kernel/syscall.c:1197-1209 | the same from a given descriptor on |
| `FileTables.FileTable.Open` | kernel/syscall.c:165-178 | the lowest free file gets the lowest empty descriptor; fails exactly when one of the two is missing, keeping nothing |
| `FileTables.FileTable.MakeEnds` | kernel/pipe.c:181-208 | the lowest unused pipe and the two lowest free files are taken together or not at all |
| `FileTables.FileTable.Pipe` | kernel/pipe.c:170-235 | both ends of the lowest unused pipe on the two lowest empty descriptors; fails exactly when pipe, files or descriptors are missing, and every failure path restores pipes, files and descriptors |
| `FileTables.FileTable.NewTask` | kernel/task.c:15-42 | a new task has no descriptors; fails exactly when the table is full |
| `FileTables.FileTable.Fork` | kernel/task.c:44-63 | the child's table equals the parent's and every count has risen accordingly |
| `FileTables.FileTable.Exit` | kernel/syscall.c:228-246 | the task's table is empty, no other changes, and files go exactly with their last descriptor |
| `FileTables.StaysNamed` | kernel/pipe.c:256-261 | closing one descriptor leaves the file that another one names open |
| `FileRuns.OpenIfNamed` | kernel/vfs.c:388-400 | with exact counts, a file is open exactly if some descriptor of some task names it |
| `FileRuns.UsedIfOpen` | kernel/pipe.c:120-154 | with exact counts, a pipe is in use exactly if some open file is one of its ends |
| `FileRuns.Settled` | kernel/vfs.c:388-400 | a call that gives no file a first name releases exactly the files that nothing names any more |
| `FileRuns.Perform` | kernel/syscall.c:136-246 | each call changes descriptors and files, and replies, as the reference without counts does |
| `FileRuns.Run` | kernel/syscall.c:136-246 | over every run of open, close, dup, dup2, fcntl, pipe, fork and exit by all tasks counts stay exact, all descriptors, files and replies are those of the reference, and each task that makes no call keeps each descriptor naming the file it named |
| `DescriptorHistory.RefusedIff` | kernel/syscall.c:136-246 | when each call is refused: a descriptor out of range or not open, no empty descriptor from the given one on, no free file, no unused pipe, or a full task table |
| `DescriptorHistory.LowestGiven` | kernel/syscall.c:165-174 | open, dup, fcntl and pipe hand out the lowest empty descriptors, dup2 the one asked for, fork the next pid |
| `DescriptorHistory.OriginIs` | kernel/syscall.c:136-246 | after every run a descriptor is open exactly if following its copies back through dup, dup2, fcntl and fork ends at a call that opened it, and it then names what that call opened: a file, a read end or a write end |
| `DescriptorHistory.SharedIff` | kernel/vfs.c:388-400 | after every run two open descriptors of any tasks name the same open file exactly if they stem from the same end of the same opening call |
| `DescriptorHistory.JoinedIff` | kernel/pipe.c:170-235 | after every run two open pipe ends are of the same pipe exactly if the same call made them |
| `DescriptorHistory.NowSound` | kernel/vfs.c:388-400 | each descriptor of the real tables is empty or names an open file, so the history applies to every run from them |
| `PipeStream.RunStream` | kernel/pipe.c:54-154 | over any interleaving by any number of tasks, bytes read followed by bytes buffered are the bytes written |
| `PipeStream.ReadReturns` | kernel/pipe.c:54-85 | in every reachable state a running read for n bytes sleeps exactly if nothing is buffered and somebody can write; otherwise it returns the smaller of n and the bytes buffered, hands over exactly that many bytes, the next of those written, and wakes a writer waiting for room |
| `PipeStream.EndOfFile` | kernel/pipe.c:63-68 | in every reachable state a read of at least one byte returns nothing exactly if the write end is closed and every byte written has been read |
| `PipeStream.EndOfFileReturned` | kernel/pipe.c:63-68 | the value 0 is returned to such a read exactly then |
| `PipeStream.WriteReturns` | kernel/pipe.c:87-118 | in every reachable state a running write puts in what is left and returns its full length exactly if that fits, and then wakes a waiting reader; otherwise it fills the buffer, and then returns -1 if nobody can read and sleeps if somebody can |
| `PipeStream.ReaderGone` | kernel/pipe.c:120-136 | each close of the reading side leaves one reader fewer and touches no byte, and the last one wakes a writer asleep for room |
| `PipeStream.WriterGone` | kernel/pipe.c:138-154 | the same for the writing side and a reader asleep for bytes |
| `PipeStream.RunPaired` | kernel/pipe.c:54-118 | with one reader, one writer and writes of at most 4096 bytes, a sleeper is registered and the pipe is empty, or full |
| `PipeStream.LongWrite` | kernel/pipe.c:96-102 | a longer write to a sleeping reader leaves both asleep |
| `PipeStream.DeadlockIff` | kernel/pipe.c:63-115 | some run ends with both asleep exactly if writes may exceed the buffer |
| `PipeBuffer.RingHead` | kernel/pipe.c:71-73 | advancing the read position takes the first byte of the queue |
| `PipeBuffer.RingPush` | kernel/pipe.c:104-106 | storing at the write position appends a byte, around the end of the buffer too |
| `PipeBuffer.Buffer.constructor` | kernel/pipe.c:25-41 | a new pipe is empty with one reader, one writer and nobody waiting |
| `PipeBuffer.Buffer.ReadTurn` | kernel/pipe.c:54-85 | one stretch of a read on the ring hands over the first bytes of the queue, as many as asked for or as there are, and returns their number; it sleeps exactly if there are none and somebody can write; that is the read step |
| `PipeBuffer.Buffer.WriteTurn` | kernel/pipe.c:87-118 | one stretch of a write on the ring appends as many of the remaining bytes as fit, returns the full length exactly if all do, and otherwise fails or sleeps; that is the write step |
| `PipeBuffer.Buffer.CloseReadEnd` | kernel/pipe.c:120-136 | one reader fewer; the registered writer is woken and forgotten exactly if that was the last reader |
| `PipeBuffer.Buffer.CloseWriteEnd` | kernel/pipe.c:138-154 | one writer fewer; the registered reader is woken and forgotten exactly if that was the last writer |
| `Paths.WalkOpen` | kernel/syscall.c:77-89 | the result ends in a slash exactly if components are left and the last one that did anything was ".." |
| `Paths.RenderBack` | kernel/syscall.c:49-94 | reading the rewritten text back gives the same components, none of them empty, "." or ".." |
| `NormalizePath.SkipSlashes` | kernel/syscall.c:64-65 | the first character from an index on that is no slash |
| `NormalizePath.SkipName` | kernel/syscall.c:70-71 | the end of the component at an index |
| `NormalizePath.Pop` | kernel/syscall.c:78-82 | stepping back renders the path without its last component |
| `NormalizePath.Push` | kernel/syscall.c:86-89 | the copied component renders the longer path, and no character still to be read is overwritten |
| `NormalizePath.DoComponent` | kernel/syscall.c:74-89 | one component is applied and the text still to be read is untouched |
| `NormalizePath.Rewrite` | kernel/syscall.c:60-90 | the in-place rewrite yields the rendering of the walk over all components of the path |
| `NormalizePath.Normalize` | kernel/syscall.c:49-94 | the buffer holds the normal form of the path it held; a relative path is unchanged and only 255 characters are considered |
| `VfsResolve.ResolvePath` | kernel/vfs.c:149-211 | the loop looks the pieces of a path up in turn, empty ones included, longer ones in parts of 63 bytes, and fails at the first that is not found or not in a directory |
| `VfsResolve.PiecesAre` | kernel/vfs.c:164-208 | components of at most 63 bytes are looked up as they are, and a slash at the end starts none |
| `VfsResolve.ResolvesIff` | kernel/vfs.c:164-211 | a path resolves exactly if no piece is empty and each directory on its way exists, is a directory, and has "." and ".." where they are looked up; it then ends where its text says |
| `VfsResolve.SameFileIff` | kernel/syscall.c:847-857 | within both buffers, a path and its normal form resolve alike exactly if the target is missing, or no piece is empty and each directory visited off the way to the target lets the path through |
| `VfsResolve.ChdirNames` | kernel/syscall.c:847-857 | within both buffers, the normal form that chdir records resolves to the directory that chdir resolved |
| `VfsResolve.NormalFormIff` | kernel/syscall.c:847-857 | for every path of any length, its normal form resolves to the same file in every tree in which the path resolves exactly if the path has an empty piece or visits every directory its normal form visits and ends at the same place |
| `VfsResolve.ShortAlike` | kernel/syscall.c:847-857 | paths that fit both buffers always meet that condition |
| `VfsResolve.DotDotOfFile` | kernel/vfs.c:174-178 | ".." after a regular file resolves nowhere, while the normal form resolves to the root |
| `VfsResolve.LongComponent` | kernel/vfs.c:166-169 | a component of 64 bytes followed by ".." resolves to a different directory than its normal form |

## Left out

- Ext2Fs.FileSystem.WriteFile: offsets past the end, indirect blocks and device failures are not covered, because fresh blocks are not zeroed and growth into an indirect block reads stale pointers.
- Ext2Fs.FileSystem.Truncate: only files within the direct blocks; what a grown file reads past its old end is not stated, since the bytes there are whatever the last block held.
- Ext2Fs.FileSystem.ReadFile: requests that wrap around 32 bits are excluded.
- Ext2Create.CreateEntry: asks for a recorded size below 12 blocks for the reason given under AddEntry; the failed write of the new inode and the full pool of in-memory inodes are one input, and an unhealthy device is not covered.
- Ext2Dir.AddEntry: takes the inode of the entry as given, which CreateEntry does not; asks for a recorded size below 12 blocks, because from there on the scan follows the indirect pointer of a directory that has none and reads block 0 as pointers; device failures and the sector count of the inode are not modelled.
- Ext2Dir.Lookup: a recorded size past 12 blocks is excluded for the same reason; the pools of in-memory inodes are not modelled.
- Ext2Dir.ReadDir: a recorded size past 12 blocks is excluded for the same reason.
- Ext2Dir.RemoveEntry: a recorded size past 12 blocks is excluded for the same reason.
- Ext2Dir.InsertWithRoom: a recorded size of 12 blocks or more is excluded for the same reason.
- Ext2Dir.InsertNewBlock: a recorded size of 12 blocks or more is excluded for the same reason.
- Ext2Alloc.Allocator.AllocBlock: images whose first data block is 1 number blocks differently from the bitmap and are not covered.
- Ext2Alloc.Allocator.FreeBlock: block numbers past the end of the device, which name no group, are excluded.
- Ext2Inodes.InodeAllocator.FreeInode: inode numbers past the end of the table, which name no group, are excluded.
- Ext2Bmap.SetBmap: the contents of a new indirect block are what the device held.
- FileTables.FileTable.DupFrom: a negative start indexes outside the table in the code and is excluded.
- FileTables.FileTable.Fork: covers the new task and its descriptors; what happens after the copy of the address space fails, where the child keeps its references, is not modelled. Descriptor flags are not modelled.
- FileTables.FileTable.Exit: a task ended by a signal keeps its descriptors; counts stay exact, but that path is not modelled. Files opened at boot before any task exists have a count without a descriptor and are not modelled.
- Mmap.MmapTask.Mmap2: PROT_NONE mappings, ranges that wrap and fixed addresses below 16 MB are excluded, because such pages keep frames that are no longer mapped or touch the kernel's entries. File-backed mappings fail in the code and in the model.
- Mmap.MmapTask.Munmap: ranges that wrap and addresses below 16 MB are excluded for the same reason.
- Mmap.MmapTask.Mprotect: PROT_NONE, ranges that wrap and addresses below 16 MB are excluded for the same reason.
- Mmap.RunCalls: made of the calls that Mmap2, Munmap and Mprotect admit.
- PhysicalMemory.FrameMemory.MapAt: addresses below 16 MB and flags without the present bit are excluded; the TLB is not modelled.
- PhysicalMemory.FrameMemory.AllocAt: the same addresses and flags are excluded.
- PhysicalMemory.FrameMemory.UnmapAt: addresses below 16 MB are excluded.
- PhysicalMemory.FrameMemory.GetPte: addresses below 16 MB are excluded.
- PhysicalMemory.FrameMemory.ProtectAt: addresses below 16 MB and flags without the present bit are excluded.
- AddressSpaces.Run: has no call for exec as a whole or for exit. Of exec it has the new directory, and `Exec` has the file buffer and the release of a half-built space; an exec that fails for want of its string buffer (kernel/syscall.c:455-457) frees nothing of the new space, and neither exit nor a successful exec frees the frames of the space a task leaves.
- Exec.AllocBuffer: the number of frames is given; a file size within a page of 2^32, for which it wraps, is not covered.
- NormalizePath.Push: the overlapping copy is taken to go from the lowest character up.
- VfsResolve.ResolvePath: symbolic links and mounts are not modelled; a file system is one tree, in which device directories have no "." and "..".
- VfsResolve.SameFileIff: paths of 256 bytes and more and components of 64 bytes and more are left to NormalFormIff, which has no bound.
- VfsResolve.ChdirNames: paths of 256 bytes and more and components of 64 bytes and more are left to NormalFormIff.
- Signals: delivery, masks and sigreturn; one handler frame per task makes nested handlers lose context.
- The on-disk encoding of inodes, bitmaps and the superblock.
- mkdir, rmdir, unlink, rename, links; rmdir tests the wrong record and unlink of a short symbolic link treats its text as block numbers.
- Kernel stacks, context switching, ELF loading and the stack that exec builds, brk, drivers, block device sector arithmetic, the C library and the shell.
