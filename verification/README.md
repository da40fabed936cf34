# Project Lariat in Dafny

Lariat is a small x86_64 kernel with its own userland. This project models the parts of it whose correctness is
decided by the code rather than by hardware, and proves what each of them is for. `dafny verify dfyconfig.toml`
checks all of it.

- **ext4 write path** (`Ext4*.dfy`). A volume is a disk of blocks with bitmaps and counts; an inode holds the inline
  root of an extent tree whose other nodes are blocks of that disk. The ghost value `tree` is the tree the blocks hold,
  `Flat` its extents in order, and `Phys` the map from logical to physical blocks they stand for. On top of it:
  lookup, insertion anywhere (coalescing, leaf splits, depth growth), append, truncation, file reads and writes, and
  directories as byte blocks tiled by records.
- **FAT32** (`Fat32*.dfy`). The copies of the table, cluster chains, and files read and written along them.
- **lcc and the ELF loader** (`Lcc*.dfy`, `Elf*.dfy`). The lexer, the single-pass compiler, the bytes it emits, the
  file it writes, an x86_64 machine that decodes and runs those bytes, and the kernel's loader in between, which maps
  the file into the page tables below.
- **Address spaces** (`Vmm*.dfy`). Four-level tables in physical frames, with fork, teardown, map, unmap and
  translation over the page allocator.
- **Kernel heap** (`HeapShape.dfy`, `HeapLists.dfy`, `KernelHeap.dfy`, `HeapRun.dfy`). Free lists threaded through
  pages, large blocks of whole pages, and the same page allocator.
- **Scheduler and wait queues** (`Sched*.dfy`, `WaitEvent.dfy`). Linked queues and the sleep list on any number of
  processors, and the check-then-block protocol.
- **Block cache** (`BlockCache.dfy`), **descriptors and pipes** (`Pipes.dfy`, `HandleCounts.dfy`, `HandleSpec.dfy`,
  `Handles.dfy`) and **signals** (`Signals.dfy`, `SignalThread.dfy`).

Code that updates things in place is a class with methods; its contracts refer to values (a map, a byte sequence, a
queue) that say what the fields stand for.

Some promises do not hold of the code as it is. Each has a failing case and the condition under which it does hold:

- `ext4_extent_map` never splits an index node. `Stuck` is that situation; with two blocks free the call fails exactly
  then (`Ext4Map.ExtentMap`), and there is a disk on which it does (`Ext4Stuck.StuckCall`).
- The insertion into a leaf looks only at the run's first block (`Ext4Extents.PutGoodIff`).
- An extent that ends at block 2^32 is never found (`Ext4ExtentOps.HitsIff`).
- A name declared in lcc with more than 31 characters is not in scope (`LccNames.DeclaredIsInScope`).
- A FAT32 write behind the end of a file raises the size even if it finds no cluster (`Fat32Run.BeyondCall` makes such a
  call). Clusters reach to the end afterwards if and only if the position was not behind the end, or the file's and the
  free clusters together reach up to it (`Fat32File.FileWrite`, and `Fat32Run.ReachIff` over runs).
- Truncating a FAT32 file to anything but nothing succeeds and does nothing (`Fat32File.Truncate`).
- Without a restorer the interrupted code does not get its stack pointer back (`SignalThread.Thread.BareHandler`).

Three more are about a function taken alone; no caller in the tree reaches the failing case:

- The directory code takes names longer than 255 bytes and does not find them again (`Ext4Names.InsertFoundIff`); the
  VFS cuts names to 63 bytes before they get there.
- Teardown of an address space misses pages whose entry has bit 7 set (`VmmTables.FreesAllIff`); no caller of
  `vmm_map_page_in` passes that bit.
- A check made without the lock could lose a wakeup (`WaitEvent.LockIsNeeded`); `WAIT_EVENT` always takes it.

## Model

| member | source | states |
|---|---|---|
| `Ext4Volume.Volume.AllocBlock` | kernel/fs/ext4.c:290-317 | takes the lowest block free on the volume, zeroes it and marks exactly that one; 0 only when no block is free; group and superblock counts stay the numbers of clear bits |
| `Ext4Volume.Volume.FreeBlock` | kernel/fs/ext4.c:319-338 | clears exactly that block's bit; a block free already or out of range changes no count |
| `Ext4Volume.Volume.AllocRun` | kernel/fs/ext4.c:345-378 | a run from the lowest free block on, as long as wanted or up to the next block in use or the end of the group, all free before and used after; nothing only on a full volume |
| `Ext4Extents.PutGoodIff` | kernel/fs/ext4.c:653-688 | inserting a run into a sorted disjoint list keeps it sorted and disjoint if and only if no block of the run was mapped |
| `Ext4Extents.CoverOnce` | kernel/fs/ext4.c:656-688 | two extents of a sorted list never cover the same block |
| `Ext4NodeBuf.LeafPut` | kernel/fs/ext4.c:656-688 | the leaf buffer holds the old records with the run merged into a neighbour or inserted in order |
| `Ext4NodeBuf.IdxPut` | kernel/fs/ext4.c:691-702 | the index buffer holds the old entries with the new one in key order |
| `Ext4ExtentOps.Find` | kernel/fs/ext4.c:169-218 | lookup equals the map of the tree at every logical block, at any depth; 0 without the extent magic |
| `Ext4ExtentOps.HitsIff` | kernel/fs/ext4.c:169-218 | a record is found at every block it covers if and only if it ends before block 2^32 |
| `Ext4ExtentOps.TreeEnd` | kernel/fs/ext4.c:630-651 | the end of the file's last extent, found along the rightmost path |
| `Ext4ExtentOps.GrowDepth` | kernel/fs/ext4.c:437-483 | one level deeper, same map, exactly one fresh block more; on failure nothing changed and no block is free |
| `Ext4Insert.WalkTo` | kernel/fs/ext4.c:715-738 | the path down to the leaf that must take the run, every node of it as the disk holds it |
| `Ext4Insert.Propagate` | kernel/fs/ext4.c:767-775 | a changed first key is carried up the path, so every index key is again its child's first block |
| `Ext4Map.ExtentMap` | kernel/fs/ext4.c:709-830 | for an unmapped run of 1 to 32768 blocks: on success lookup is the old map and exactly that run, the tree still sorted, disjoint, tight and of one depth, the blocks gained those allocated; on failure the map is the old one; with two blocks free it fails if and only if the tree is stuck, and a failure for want of blocks took at most one |
| `Ext4Stuck.StuckExample` | kernel/fs/ext4.c:776-830 | for every node capacity a well-formed tree on a concrete disk, with a free run, that meets all that insertion asks for and is stuck |
| `Ext4Stuck.StuckCall` | kernel/fs/ext4.c:776-830 | the insertion fails on that disk however many blocks are free, and the block stays unmapped |
| `Ext4Append.ExtentAppend` | kernel/fs/ext4.c:485-618 | for a run at or behind the end of the file: lookup is the old map and exactly that run, at any depth; on failure the old map, and only for want of a block or at the depth limit; grow-and-retry ends by depth |
| `Ext4Truncate.FreeBlocksFrom` | kernel/fs/ext4.c:1343-1395 | lookup is restricted to blocks below the cut; exactly the data blocks and nodes no longer referred to come free; i_blocks drops by as many |
| `Ext4File.FileRead` | kernel/fs/ext4.c:835-882 | as many bytes as the size allows, each what its block holds, zeros in holes |
| `Ext4File.HoleFreeFillable` | kernel/fs/ext4.c:884-956 | a file without holes may be written anywhere up to its end |
| `Ext4File.HoleFreeKept` | kernel/fs/ext4.c:884-956 | such a write leaves the file without holes |
| `Ext4Write.FileWrite` | kernel/fs/ext4.c:884-956 | a prefix of the data, all of it unless there is no room, is laid over the bytes; other bytes and all blocks of others are unchanged; i_blocks still counts the blocks reachable |
| `Ext4Write.WriteThenRead` | kernel/fs/ext4.c:835-956 | reading the span just written gives what was written |
| `Ext4Write.FileTruncate` | kernel/fs/ext4.c:1421-1434 | bytes before the new end stay, blocks behind it come free, i_blocks still counts the blocks reachable |
| `Ext4Write.BystanderOk` | kernel/fs/ext4.c:345-378 | a file that shares no block with one that is changed keeps its tree and still shares none |
| `Ext4Contents.Put` | kernel/fs/ext4.c:884-956 | on a file without holes, at most at its end: its byte sequence is the old one overlaid with a prefix of the data, and there are still no holes |
| `Ext4Contents.GetAll` | kernel/fs/ext4.c:835-882 | reading the whole file gives its byte sequence |
| `Ext4Contents.PutThenGet` | kernel/fs/ext4.c:835-956 | write then read of the whole file gives the old bytes overlaid with those written |
| `Ext4Contents.PutAll` | kernel/fs/ext4.c:884-956 | any sequence of writes lays its data over the file in order, up to the first that finds no room |
| `Ext4Contents.PutBeside` | kernel/fs/ext4.c:884-956 | writing one file leaves the byte sequence of another on the volume as it was, and their blocks apart |
| `Ext4Contents.Shorten` | kernel/fs/ext4.c:1421-1434 | truncation gives the prefix of the byte sequence, without holes |
| `Ext4DirBlock.FillRecord` | kernel/fs/ext4.c:1211-1258 | a record's bytes are those of number, name length modulo 256, type and name, and no others change |
| `Ext4Dir.FindIn` | kernel/fs/ext4.c:1181-1207 | the number of the first record in use with that name, 0 without one |
| `Ext4Dir.InsertIn` | kernel/fs/ext4.c:1211-1258 | the block stays exactly tiled; the entry is added to the names, in an unused record or in the slack of one, if and only if some record has room |
| `Ext4Dir.RemoveIn` | kernel/fs/ext4.c:1292-1334 | the block stays exactly tiled; the first entry of that name and no other is gone, its record merged into the one before or taken out of use |
| `Ext4Dir.InsertLookup` | kernel/fs/ext4.c:1211-1290 | adding an absent name adds that name to the lookup and changes no other |
| `Ext4Dir.RemoveLookup` | kernel/fs/ext4.c:1292-1334 | removing a name that is there once removes it from the lookup and changes no other |
| `Ext4Directory.DirFind` | kernel/fs/ext4.c:1181-1207 | lookup over all blocks of the directory's inode |
| `Ext4Directory.AppendBlock` | kernel/fs/ext4.c:1261-1273 | a block allocated and mapped behind the last, or free again and the map as it was |
| `Ext4Directory.DirInsert` | kernel/fs/ext4.c:1211-1290 | the names gain exactly that entry, in a block with room or a new one; fails only if every block is packed and there is no room for another, the names then unchanged |
| `Ext4Directory.DirRemove` | kernel/fs/ext4.c:1292-1334 | the names lose exactly the first entry of that name; without one nothing changes |
| `Ext4Names.InsertFoundIff` | kernel/fs/ext4.c:1211-1258 | an inserted name is found again if and only if it has at most 255 bytes |
| `Ext4Names.Answer` | kernel/fs/ext4.c:1436-1455 | find, create after a failed find, and remove answer as a map from names to numbers does |
| `Ext4Names.AnswerAll` | kernel/fs/ext4.c:1181-1334 | any sequence of requests is answered as a map answers it, up to the first creation without room, and the directory holds that map; blocks of others are unchanged |
| `Ext4Names.MakeDir` | kernel/fs/ext4.c:1457-1490 | a new directory holds exactly "." and ".."; fails only for want of a block, the volume then unchanged |
| `Fat32Table.ChainDistinct` | kernel/fs/fat32.c:24-35 | a chain that ends visits no cluster twice |
| `Fat32Table.SharedTail` | kernel/fs/fat32.c:24-35 | chains that share a cluster share all behind it |
| `Fat32Table.Volume.WriteEntry` | kernel/fs/fat32.c:64-79 | every copy of the table gets the link and keeps its reserved bits; the copies still agree |
| `Fat32Table.Volume.Alloc` | kernel/fs/fat32.c:82-96 | the lowest free cluster, marked as an end and zeroed; 0 only on a full disk |
| `Fat32Table.Volume.FreeChain` | kernel/fs/fat32.c:99-105 | ends whatever the words of the device are, each word keeping its reserved bits and its link, or freed; from the start of a chain it frees exactly the chain |
| `Fat32File.NthCluster` | kernel/fs/fat32.c:410-429 | the cluster of that index, the chain extended behind its end by zeroed free clusters as far as needed; 0 only on a full disk |
| `Fat32File.FileWrite` | kernel/fs/fat32.c:431-474 | as much of the data as the clusters of the file and the free ones hold is laid over the bytes, the result says how much, clusters outside the file are unchanged and none is lost; the chain covers the size afterwards if and only if the position was at most the old size or those clusters reach up to it |
| `Fat32File.FileRead` | kernel/fs/fat32.c:358-405 | the bytes along the chain from the position on, exactly as many as the size allows and the chain holds |
| `Fat32File.WriteThenRead` | kernel/fs/fat32.c:358-474 | write then read of the whole file gives the old bytes overlaid with as much as the disk holds |
| `Fat32File.Truncate` | kernel/fs/fat32.c:476-490 | to nothing: exactly the chain comes free; to any other length: nothing changes |
| `Fat32Run.ReachIff` | kernel/fs/fat32.c:431-474 | the clusters of all files reach to their ends after a request if and only if it was no write that starts beyond what the disk can hold |
| `Fat32Run.ReadExact` | kernel/fs/fat32.c:358-405 | where they reach, a read gives exactly the bytes asked for |
| `Fat32Run.WrittenRead` | kernel/fs/fat32.c:358-474 | a read after a write gives the old bytes overlaid with those written, zeros in the gap |
| `Fat32Run.ClustersConserved` | kernel/fs/fat32.c:82-105 | no request makes or loses a cluster |
| `Fat32Run.Perform` | kernel/fs/fat32.c:358-490 | one write, truncation or read does to the byte sequences and clusters of all files exactly what the abstract disk says, and answers what it answers |
| `Fat32Run.PerformAll` | kernel/fs/fat32.c:358-490 | over any requests on any number of files: byte sequences, clusters and every answer, results of writes included, are those of the abstract disk, and the chains stay without cycles and share no cluster |
| `Fat32Run.BeyondCall` | kernel/fs/fat32.c:431-474 | on any disk filled by one file, a write to another behind its beginning fails and still raises the size |
| `LccCompiler.Compiler.Next` | userspace/lcc.c:99-137 | the next token is the next of the token stream of the source |
| `LccSyntax.ExpressionIff` | userspace/lcc.c:185-232 | the parser returns a tree if and only if the tokens it took derive that tree and no operator follows |
| `LccSyntax.Unambiguous` | userspace/lcc.c:185-232 | tokens derive at most one tree |
| `LccGen.ExprRuns` | userspace/lcc.c:185-232 | the code of an expression leaves its value, or its division fault, and finds stack and locals as it left them |
| `LccGen.BodyRuns` | userspace/lcc.c:234-298 | the code of the rest of a body, from any point of it, shows what the statements mean |
| `LccGen.ProgramRuns` | userspace/lcc.c:185-298 | the instructions of a program end with the same output and exit value, or the same fault, as its source |
| `LccMachine.DecodeEncoding` | userspace/lcc.c:145-298 | the processor decodes every emitted instruction as that instruction, whatever follows |
| `LccCode.PatchOnlyHoles` | userspace/lcc.c:152-158 | applying fixups changes no byte outside their eight-byte immediates |
| `LccCode.PatchPlaces` | userspace/lcc.c:334-350 | code emitted without addresses and then patched is the code with the addresses |
| `LccSim.RunSteps` | userspace/lcc.c:185-298 | running the bytes shows what running the instructions shows |
| `LccRun.CompiledRuns` | userspace/lcc.c:185-298 | from its entry every compiled program comes to a stop and shows the meaning of its source |
| `LccCompiler.Compiler.GenExpression` | userspace/lcc.c:220-232 | an expression is accepted exactly as the grammar says, and its code appended |
| `LccCompiler.Compiler.CompileStmt` | userspace/lcc.c:268-298 | one statement: its code, strings, fixups and names, or the error the grammar or a full table calls for |
| `LccCompiler.Compiler.CompileProgram` | userspace/lcc.c:314-332 | the tables are those of the program the source parses to, or it does not parse, or a table is full |
| `LccCompiler.Compiler.ApplyFixups` | userspace/lcc.c:344-350 | the code is the emitted code with every recorded hole filled |
| `ElfImage.ImagePieces` | userspace/lcc.c:315-391 | code, strings and locals lie in the image one behind the other, without overlap |
| `ElfWrite.WriteImage` | userspace/lcc.c:350-391 | the bytes written are that image |
| `ElfSpace.Space.MapPage` | kernel/vmm.c:62-102 | a filled frame becomes that page of the space; the pages of its own that the page tables show are kept as a map from page to bytes, which changes there and nowhere else; fails only with fewer than three frames free |
| `ElfLoad.MapAndFill` | kernel/elf.c:208-244 | every page of a segment of user pages is filled with its slice and mapped in the page tables, no other page of the space changes; on failure those below a point are; with four frames free for each page it succeeds |
| `ElfLoad.MapAndFillFile` | kernel/elf.c:246-286 | the streaming form gives the same pages, whatever the sizes of the reads, refuses a file without the whole segment, and fails otherwise only with fewer than four frames free for each page |
| `ElfLoad.SegmentFlat` | kernel/elf.c:208-286 | the filled pages are the flat segment, extended with zeros to its memory size |
| `ElfExec.LoadImage` | kernel/elf.c:644-676 | all loadable segments are in place in the page tables and control starts at the biased entry; with four frames free for each page it succeeds |
| `ElfFields.ImageLoads` | userspace/lcc.c:350-391 | the file lcc writes is loadable, byte i of it comes to BASE + i, and control to the first emitted byte |
| `LccTheorem.Compile` | userspace/lcc.c:300-391 | a source is accepted if and only if it parses and fits the tables, and the file is that of its program |
| `LccTheorem.LoadedRuns` | userspace/lcc.c:185-391 | a loaded program stops with the output and exit value, or at the fault, its source means |
| `LccTheorem.CompileAndLoad` | userspace/lcc.c:99-391 | compile and load: from every launch state with room on the stack, the program stops with the meaning of its source; a source is refused exactly if it does not parse or fit the tables, and loading fails only for want of frames |
| `LccTheorem.CompileAndStart` | kernel/elf.c:208-676 | from a source file and physical memory: a new address space is built, the file compiled and loaded into its page tables, and from every launch state with the pages those tables show, the program stops with the meaning of its source; with 78 frames free an accepted source is always loaded |
| `LccNames.NamesMean` | userspace/lcc.c:170-183 | with names of at most 31 characters, slots are only a way to store variables |
| `LccNames.ParsedPlain` | userspace/lcc.c:175-183 | an accepted program whose names have at most 31 characters declares each of them once, as `NamesMean` asks |
| `LccNames.DeclaredIsInScope` | userspace/lcc.c:175-183 | a name just declared is in scope if and only if it has at most 31 characters |
| `VmmRam.Ram.AllocPage` | kernel/pmm.c:60-72 | the lowest free frame; 0 if and only if all are in use; the count stays the number of clear bits |
| `VmmRam.Ram.AllocPages` | kernel/pmm.c:74-99 | the lowest run of that many free frames; 0 if and only if there is none |
| `VmmRam.Ram.FreePage` | kernel/pmm.c:101-109 | exactly that frame comes free; one free already or out of range changes no count |
| `VmmTables.FreesAllIff` | kernel/vmm.c:424-455 | teardown frees every frame of a space if and only if no private page has bit 7 set |
| `VmmFree.DestroyPagetable` | kernel/vmm.c:424-455 | exactly the space's own frames come free; the kernel's tables and what they point to stay in use |
| `VmmClone.CloneTable` | kernel/vmm.c:319-355 | a fresh copy of all that is private, kernel subtrees shared by reference, if and only if as many frames are free as the table owns; otherwise 0 and every frame free again that was free |
| `VmmSpace.Fork` | kernel/vmm.c:360-386 | every page of the child shows flags and contents of the parent's, on frames of its own; the parent shows what it showed; it succeeds if and only if as many frames are free as the parent owns |
| `VmmSpace.ForkThenDestroy` | kernel/vmm.c:319-455 | fork and teardown leave every frame in use or free as it was |
| `VmmIsolation.MapIn` | kernel/vmm.c:62-102 | that page shows the frame with its flags and no other page changes; fails if and only if a huge mapping is in the way or a table cannot be allocated, and not with a frame free for every level |
| `VmmIsolation.UnmapIn` | kernel/vmm.c:105-123 | that page shows nothing, unless a huge mapping is in the way, and no other page changes |
| `VmmIsolation.Translate` | kernel/vmm.c:128-149 | the frame behind a private page or within a huge mapping, 0 where nothing is mapped |
| `VmmIsolation.Isolated` | kernel/vmm.c:62-149 | a space that shares no frame with the one at work shows what it showed |
| `VmmIsolation.Perform` | kernel/vmm.c:62-149 | one map, unmap or store makes exactly its page of that space show what it should and takes at most four frames; only a map fails, and only with fewer than four free |
| `VmmIsolation.PerformAll` | kernel/vmm.c:62-149 | over any interleaving of maps, unmaps and stores of two spaces, each page of each space shows exactly what the operations of that space on that page made of it, in order |
| `VmmIsolation.NotNamed` | kernel/vmm.c:62-149 | a page that no operation of its space names shows what it showed |
| `VmmIsolation.AmpleMemory` | kernel/vmm.c:62-102 | with four frames free for each operation of a run, all succeed |
| `VmmIsolation.ForkThenRun` | kernel/vmm.c:62-386 | after a fork, whatever parent and child map, unmap and store in any order, each shows what its own operations made of what the parent showed; with enough frames free none fails |
| `VmmNew.NewSpace` | kernel/vmm.c:394-415 | a space that shares the kernel's mappings and has no page of its own, empty wherever the kernel has nothing, fit for fork, mapping and teardown, if and only if there are the frames for it; otherwise the frames in use are what they were |
| `HeapLists.LiveDisjoint` | kernel/kapi.c:132-237 | live blocks are large enough and pairwise disjoint, and no object on a free list overlaps one |
| `HeapLists.ListedNotLive` | kernel/kapi.c:132-164 | what is on a free list is an object of that bucket's pages and not live |
| `KernelHeap.KernelHeap.constructor` | kernel/kapi.c:110-130 | at boot nothing is live and every page in use is reserved |
| `KernelHeap.KernelHeap.SplitPage` | kernel/kapi.c:148-158 | the words of a page's objects link them all, in order |
| `KernelHeap.KernelHeap.FromBucket` | kernel/kapi.c:132-164 | an object that was not live; none if and only if the list is empty and no page is free |
| `KernelHeap.KernelHeap.Malloc` | kernel/kapi.c:166-191 | a block that was not live becomes live, from the list or the lowest pages free, and no live block's contents change; 0 if and only if nothing was asked for or there is no object and page, or no run of pages, for it |
| `KernelHeap.KernelHeap.ReturnPages` | kernel/kapi.c:223-234 | exactly the pages of the large block are untagged and freed, even with another large block behind it |
| `KernelHeap.KernelHeap.Free` | kernel/kapi.c:204-237 | exactly that block is live no more, a large one's own pages and no others come free, and no live block's contents change |
| `KernelHeap.KernelHeap.Store` | kernel/kapi.c:132-237 | a word written in a live block changes no word of another and no free list |
| `HeapRun.Perform` | kernel/kapi.c:132-237 | one request keeps every block held live, of its size, nobody else's, with what its owner stored in it, and does exactly what it should: memory is given unless the allocator has no room, a free returns that block and its own pages only |
| `HeapRun.PerformAll` | kernel/kapi.c:132-237 | over any run, with another client of the page allocator beside it, at every step each request does just that, and each live block is a private array of words |
| `HeapRun.Load` | kernel/kapi.c:166-237 | a word of a held block reads back what its owner stored |
| `SchedSpec.RunFifo` | kernel/sched.c:202-220 | over every run, what was ready and what was made ready is what was dispatched, in that order, and what is ready still |
| `SchedSpec.DispatchOrder` | kernel/sched.c:202-220 | the thread at position k of the ready queue is taken by the (k+1)th pop |
| `Sched.Scheduler.Enqueue` | kernel/sched.c:660-683 | a new thread is last in the ready queue |
| `Sched.Scheduler.Wait` | kernel/sched.c:712-745 | the current thread is last in that wait queue and the processor goes on with the first ready one; an idle thread is not parked |
| `Sched.Scheduler.WakeOne` | kernel/sched.c:747-756 | the first waiter moves to the end of the ready queue |
| `Sched.Scheduler.WakeN` | kernel/sched.c:758-770 | the first n waiters move, in order, and are counted |
| `Sched.Scheduler.WakeAll` | kernel/sched.c:772-781 | all waiters move, in order, and the queue is empty |
| `Sched.Scheduler.Sleep` | kernel/sched.c:519-551 | the current thread is asleep until its tick; an idle thread only gives way |
| `Sched.Scheduler.WakeSleepers` | kernel/sched.c:566-584 | exactly the sleepers whose time has come become ready, in list order |
| `Sched.Scheduler.Tick` | kernel/sched.c:554-624 | sleepers woken, then the current thread behind the ready ones and the first of them dispatched |
| `Sched.Scheduler.PerformAll` | kernel/sched.c:202-781 | any run of enqueue, wait, wake, sleep and tick steps on any number of processors keeps every thread in the one place its state says and no thread on two processors |
| `Sched.OnePlace` | kernel/sched.c:202-781 | a thread that is not idle is running, on one queue, asleep or unborn, in exactly one of these; idle threads are never queued |
| `Sched.NoTwoCpus` | kernel/sched.c:554-624 | no thread is current on two processors |
| `WaitEvent.NoLostWakeup` | include/sched.h:273-280 | in every interleaving of waiters and producers, a thread parked while the condition holds means some producer is between its set and its wake |
| `WaitEvent.QuietMeansNobodyParked` | include/sched.h:273-280 | once no producer is pending, a true condition means nobody is parked |
| `WaitEvent.LockIsNeeded` | kernel/sched.c:712-745 | that holds of every run if and only if waiters take the lock before they check |
| `BlockCache.Cache.Find` | kernel/block.c:65-71 | the slot of that sector if and only if there is one |
| `BlockCache.Cache.Victim` | kernel/block.c:73-82 | a slot of the least age, unused ones first |
| `BlockCache.Cache.Put` | kernel/block.c:84-91 | the sector is in exactly one slot, its own, an unused or the oldest one; no other slot changes |
| `BlockCache.Cache.Read` | kernel/block.c:93-121 | the buffer gets what the device holds, through hits, coalesced misses and evictions in the middle; fails only out of range or on a device fault |
| `BlockCache.Cache.Write` | kernel/block.c:123-137 | device and cache get the data, or neither |
| `BlockCache.Serve` | kernel/block.c:93-137 | any sequence of requests is answered as the bare devices would; without a device fault a request fails if and only if it is infeasible |
| `Pipes.Pipe.Read` | kernel/pipe.c:26-43 | the oldest bytes come out in order; nothing to read and a writer left gives up the turn |
| `Pipes.Pipe.Write` | kernel/pipe.c:45-64 | exactly as many bytes as the ring has room for go in behind those before them; done, turn given up on a full ring, or no reader left |
| `HandleCounts.CloseCounted` | kernel/fd.c:83-89 | closing a descriptor keeps references equal to slots and the close hook run once for exactly the files without one |
| `HandleCounts.AddCounted` | kernel/fd.c:64-71 | so does one more descriptor for an open file |
| `Handles.Handles.VfsClose` | kernel/vfs.c:429-442 | one reference less; with the last the close hook runs, and a pipe is freed when both its ends are gone |
| `Handles.Handles.Close` | kernel/fd.c:83-89 | exactly that slot is empty and its file has one reference less |
| `Handles.Handles.DupFrom` | cpu/syscall.c:1506-1515 | the lowest free slot from the given one on shares the file; also `fd_dup`, from slot 0 on |
| `Handles.Handles.Dup2` | kernel/fd.c:73-81 | that slot shares the file, what it held before closed; the same slot stays |
| `Handles.Handles.Open` | cpu/syscall.c:256-281 | the lowest free slot holds a new file, or the file is closed again |
| `Handles.Handles.MakePipe` | cpu/syscall.c:1217-1238 | the two lowest free slots hold the ends of a new empty pipe, or both ends are closed and the table is as it was |
| `Handles.Handles.CloneTable` | kernel/fd.c:29-42 | the new table holds the same files, each with one reference more per slot |
| `Handles.Handles.FreeTable` | kernel/fd.c:15-27 | the last thread to leave empties the table, others only leave |
| `Handles.Handles.CloseFrom` | kernel/elf.c:793-799 | exactly the slots from there on are empty |
| `Handles.Handles.ReadFd` | kernel/pipe.c:26-43 | a read of a byte or more comes back empty if and only if the pipe is empty and no slot of any table holds its write end |
| `Handles.Handles.WriteFd` | kernel/pipe.c:45-64 | a write fails if and only if it is not done and no slot holds the read end |
| `Handles.Handles.Perform` | kernel/fd.c:5-89 | one request keeps the invariant; tables, files, streams of all pipes and the answer are those of the abstract system of tables and streams |
| `HandleSpec.OthersAside` | kernel/fd.c:5-89 | no request changes the table of another process |
| `HandleSpec.EndOfFileIff` | kernel/pipe.c:26-43 | in that system a read of a byte or more comes back empty if and only if nothing is left and no slot holds the write end |
| `HandleSpec.StaysInOrder` | kernel/pipe.c:26-64 | bytes read from a pipe stay a prefix of the bytes written to it, and what is left fits the ring |
| `Handles.ValidInOrder` | kernel/pipe.c:26-64 | so it is in every state that keeps the invariant |
| `Handles.Handles.PerformAll` | kernel/fd.c:5-89 | over any requests of any processes: tables, streams and every answer, bytes read and counts written included, are those of that system; every open file's references are the slots that hold it and its close hook ran once if there are none and not yet otherwise |
| `SignalThread.Thread.Choose` | cpu/syscall.c:1777-1806 | the lowest signal pending, not blocked and not ignored; ignored ones before it are dropped |
| `SignalThread.Thread.PushFrame` | cpu/syscall.c:1807-1834 | the frame holds the interrupted context below its red zone and below all other frames; the signal is blocked |
| `SignalThread.Thread.Sigreturn` | cpu/syscall.c:1605-1619 | registers, mask and result are those of the innermost frame's context |
| `SignalThread.Thread.Handle` | cpu/syscall.c:1605-1834 | a handler, with all handlers within it and those delivered on its return, gives the interrupted code back its registers, mask, result and stack |
| `SignalThread.Thread.SystemCall` | cpu/syscall.c:1841-1852 | whatever signals a call delivers, its caller finds rip, rsp, rflags, mask and all memory from the red zone up as they were, and the call's own result; the lowest signal to act on is acted on first, and none to act on is left when the caller goes on |
| `SignalThread.Thread.Run` | cpu/syscall.c:1777-1852 | over any well-nested run: registers, mask and memory are those of the run without any signal, but for memory below the red zone of a call; a signal that is not ignored is never lost, but pending or its handler run; a blocked signal runs no handler unless something unblocks it; frames stay intact and apart |
| `SignalThread.Thread.Apply` | cpu/syscall.c:1574-1592 | sigprocmask (lines 914-933) changes the mask as asked, SIGKILL and SIGSTOP out of it; sigaction sets exactly that handler, and the restorer if one is given |
| `SignalThread.Thread.BareHandler` | cpu/syscall.c:1826-1833 | without a restorer the handler, whatever it stores below its stack pointer, returns to the interrupted code, but not to its stack pointer |

## Left out

- ext4: device I/O and `kzalloc` succeed; node blocks are values (records and entries), not bytes; volumes below 2^32
  blocks with fewer than 65536 blocks per group; files below 2^32 - 1 blocks; journal, checksums and timestamps.
- ext4: inode allocation and the inode table; a new file's or directory's number is a parameter of the directory
  operations. `ext4_unlink` and `ext4_rmdir` combine what is modelled with them.
- Ext4Write.FileWrite: asks for `Fillable`, which every hole-free file meets; a multi-block run that fills a hole may
  meet mapped blocks behind it, and fresh blocks of a run are not zeroed, so files with holes are covered only so far.
- Ext4Append.ExtentAppend: when blocks run out in the middle of a new spine the map is unchanged, but the blocks taken
  for the spine are not returned; the contract says only that the map and others' blocks are unharmed.
- Ext4Write.FileTruncate: the tail of the last block is not zeroed, so bytes behind a new end come back when the file
  grows again; the contract speaks of bytes before the end only.
- FAT32: directory entries and long names; a table entry is a pair of reserved bits and link rather than a word;
  positions are below 2^32.
- Fat32Table.Volume.FreeChain: on a table whose links lead outside it the code clears words behind the table; the
  contract then says nothing of the contents of clusters.
- Fat32Run.PerformAll: two in-core inodes of one file are out; files are distinct objects with chains of their own.
- lcc: sources are cut at 65535 bytes as the code does; at least 65536 words of stack are mapped below the entry stack
  pointer; the file system calls around the compiler are out.
- ElfExec.LoadImage: `Loadable` is asked of the image, because the loader trusts the program header table, and that
  segments go to user pages, because it maps whatever address they name; relocation, interpreters, the initial stack,
  arguments and set-user-id are out.
- ElfLoad.MapAndFill: the same of its one segment; a page mapped before stays in use when another takes its place.
- Address spaces: entries are records of frame and flags rather than 64-bit words; TLB and CR3 are out, as are reference
  counts across threads. Unmapping does not return the frame, in the code as in the model.
- VmmIsolation.MapIn: pages whose walk enters a table shared with the kernel are out, there and in
  `VmmIsolation.UnmapIn` and `VmmIsolation.Translate`: what is mapped there is every space's.
- VmmIsolation.UnmapIn: as `VmmIsolation.MapIn`.
- VmmIsolation.Translate: as `VmmIsolation.MapIn`; huge mappings are aligned to their size.
- Scheduler: `thread_yield`, `thread_exit`, `queue_remove`, signal wakeups and `sys_waitpid` do not keep the queue
  invariant and are not steps of the model; context-switch assembly is out.
- Block cache: device transfers are all or nothing and requests are serialized; `block_unregister` does not drop a
  device's sectors and is out.
- Heap: memory is a map of words, and words at different addresses do not overlap; a pointer that was never handed out,
  or was freed before, is not passed to `kfree`; `kzalloc` and the page and DMA wrappers only add easy members.
- Descriptors: memory allocation succeeds; requests are serialized, each up to the point where it yields; files other
  than pipes have no contents; `F_DUPFD` is asked for a number from 0 on.
- Pipes.Pipe.Write: a write that fails after some bytes went in reports only the failure; the model keeps count of them
  to say what was written.
- Signals: one thread, with at least 192 bytes of stack below every point of interruption; the mask is a set rather
  than a word; a stopped process goes on at once, without what other processes do meanwhile.
- SignalThread.Thread.Run: handlers leave the memory from their entry stack pointer on alone and return with that
  pointer; acts against that are not made.
- Drivers, interrupt controllers, network, IPC, procfs, ramfs, path normalisation, GUI, shell and tools: I/O, formatting
  or easy members.
