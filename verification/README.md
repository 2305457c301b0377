# Verified model of a small ext2-like file system

The repository is a FUSE file system kept in one flat file of 512-byte blocks. This project models how its
four parts share that disk, and proves what they promise, for every input and every run:

* the **free-block index list** (`src/fs.c`): a chain of index nodes that are themselves free blocks;
* the **inode table**, its one-block write-back cache, the inode free list, and the mapping from a file's
  logical blocks to disk blocks through 12 direct pointers and one indirect block (`src/fs.c`);
* the **directory and link-count layer**: entries in the root directory (`src/dir.c`), and the operations
  create, open, unlink, release, read and write (`src/sfs.c`);
* the **descriptor slab pool** (`src/filedescriptor.c`).

## How the model is built

Each part has a layer of plain values and, where the source updates things in place, a class or a method with
the source's own fields, loops and order of steps. Every such method is proved equal to a function on the value
layer; the properties are lemmas about those functions.

| files | what they hold |
|---|---|
| `Words`, `Bytes` | blocks as 64 words and as 512 bytes, names as 256-byte buffers |
| `FreeList` | the index list: what allocating and freeing do, and the set of free blocks |
| `Inodes` | inode table, ownership of blocks, block mapping, allocating and freeing inodes |
| `InodeCache` | the one-block write-back cache of inodes, with the C int that names the cached block |
| `Directory` | directory entries of any size, any number to a block |
| `Descriptors`, `Files` | the slab pool; runs of block writes |
| `System` | the state machine over all operations, its invariant, and what each step does |
| `Slicing`, `FileBytes` | how reads and writes cut byte ranges, and what they do to a file's bytes |
| `Format` | the layout and lists that formatting writes, and why a new file system is sound |
| `Departures` | runs from a new file system that reach the code's failing cases |
| `FileSystem`, `DirectoryOps`, `DescriptorPool`, `SfsOps`, `Init` | the classes and methods that change state |

The directory layer takes the entry size and the number of entries in a block as a parameter (`Directory.Layout`);
`System` instantiates it with the source's sizes, 33 words and so one entry to a block.

The chain of index nodes and the list of free inodes appear in the values as sequences; both are determined by
the disk (`FreeList.ChainIsDetermined` for the blocks). In the classes they are ghost fields.

The main results are these.

1. **Every run is sound.** Any permitted run of operations keeps the invariant `SysInv` (`System.StepKeepsInv`,
   `System.RunKeepsInv`): index nodes, free slots and all block pointers of all live inodes are pairwise distinct and
   inside the data area; live names are distinct; an inode is off the free list exactly as long as a directory entry,
   an open descriptor or an orphan refers to it, and its link count is the number of those references. A newly
   formatted disk, whatever it held before, satisfies it if and only if the one list node that formatting links but
   never writes happens to continue the list soundly (`Formatting.FormattedIsSoundIff`, `Formatting.FormattedListIff`);
   from each such disk every permitted run is sound (`Formatting.EveryRunIsSound`).
2. **File contents are a map.** A block write changes one (inode, block) entry and nothing else
   (`Inodes.WriteBlockRefinesMap`); whole operations change only what they name (`System.NamesAfterStep`,
   `System.DescriptorsAfterStep`, `System.FilesAfterStep`), and a file nobody writes to survives any run
   (`System.UnwrittenFilesSurvive`).
3. **The free list is a set, and blocks are conserved.** Allocation and release take and add exactly one block,
   nothing is lost or handed out twice over any interleaving, and a pool of k blocks serves exactly k allocations.
   Over whole operations every block stays free or owned, except exactly when an inode with an indirect block is
   freed (`System.StepConservesIff`, `System.RunConserves`).
4. **The cache is a plain array, exactly while block numbers fit an int.** Over any sequence of accesses reads return
   the last write and closing leaves the array on disk, if and only if the table has fewer than 2^31 blocks
   (`InodeCache.CacheIsRightIff`); the class operations are that cache.
5. **Every answer is decided.** Create, open, unlink, release and write succeed, or give each of their errors, exactly
   under conditions on names, open numbers, inodes and free blocks (`System.CreateAnswers`, `System.AnswersIff`,
   `System.WriteAnswers`), and a write that fails half way has written exactly the blocks the free ones lasted for
   (`System.FileAfterWrite`).
6. **What is written is read back**: after an aligned write that succeeds and any run that leaves the file alone, a
   read of the range returns the bytes written (`Operations.WrittenIsReadBack`).
7. **A file system survives a remount.** Closing it and opening the disk again formats nothing and shows what was last
   seen (`Startup.Remount`), and the state machine goes on soundly from there exactly if nothing was open
   (`Startup.RemountIsSoundIff`).

## Where the code departs from its intent

These are kept as they are and stated exactly.

* **An indirect block is not cleared** (`src/fs.c:514-527`). A write that creates one does what a block write promises
  if and only if the block taken from the pool reads as zeros, or the data are zeros and the stale word at the wanted
  index is that block's own number (`Inodes.NewIndirectEffectIff`); the disk stays sound if and only if every word left
  in it names a lost block, each once (`Inodes.NewIndirectSoundIff`). A consumed index node that links to another
  never qualifies: logical block 12 is then a block of the free list (`Inodes.ConsumedNodeAliasesFreeList`). The run
  theorems carry the first of these conditions in the hypothesis `System.StepClean`; `Departures.StaleRun` is a run
  that meets it for five operations and then fails it.
* **Only direct blocks are freed** (`src/fs.c:294-301`): an inode gives back all of its blocks exactly when it has no
  indirect block (`Inodes.DeallocateConservesIffNoIndirect`). `Departures.LossRun` is a run that loses blocks.
* **The number of the cached inode block is an int** (`src/fs.c:21`), compared with and passed as a 64-bit number. From
  block 2147483648 on the write-back fails (`InodeCache.WriteBackFails`), and block 4294967297 is taken for block 1
  (`InodeCache.WrongBlockHit`).
* **A partial last index node is never written** (`src/fs.c:157-167`), and the closing assertion fails for some sizes,
  which `Formatting.FormatFs` characterises. The node not written is linked all the same, and what the disk held there
  before is then read as the rest of the free list. `Formatting.FormattedListIff` says exactly when the list is well
  formed, `Formatting.FormattedFree` what it then holds; `Formatting.NodeNamesItself` is a disk of 4 blocks on which
  formatting succeeds and no list is. If the node reads as zeros, `Formatting.FormattedFreeBlocks` says which blocks
  are lost.
* **The last formatted inode links past the table** (`src/fs.c:109-111`), into the block that belongs to neither the
  table nor the pool and is never formatted (`src/fs.c:82`). Every fresh disk gets there once a file was created for
  each inode (`Departures.FullTable`). Creating another file takes whatever inode the block holds: it fails an
  assertion if and only if that inode's number is 0 (`System.CreateAbortsIff`), and the inode list stays well formed if
  and only if its size is 0 or the same number past the table (`Inodes.TakePastTheTable`). Any other number makes the
  create go on, and if it is a number of the table the live inode of that number loses its size and its pointers
  (`System.CreatePastTheTable`); `Departures.RootIsEmptied` is a disk of 4 blocks on which that is the root directory.
  `System.StepClean` asks of a create that gets there that it finds a harmless inode. No permitted step changes that
  inode (`System.EndStays`), so this clause is a condition on the disk before formatting and not on the run
  (`System.AllowedIsPermitted`, `Formatting.EveryAllowedRunIsSound`). A stale pointer to that block passes the range
  guard (`src/fs.c:536`), and the data then show as inodes past the table (`Inodes.PutBlock`).
* **A create that cannot add its directory entry leaves its inode allocated** (`src/sfs.c:395-399`). When this
  happens is `System.CreateFailsIff`; that such an orphan is never freed is `System.OrphansStay`. On every fresh disk
  of 4 to 32 blocks of a good size the second create does this (`Departures.SmallDiskRun`). There a fresh disk is one
  that was zero, but perhaps for the unused block after the table, and was just formatted.
* **The copy loops of read and write use wrong buffer positions for most requests** (`src/sfs.c:722-749`,
  `src/sfs.c:813-839`). They are right exactly for block-aligned requests that are shorter than a block or that
  start at 0 and are a whole number of blocks (`Slicing.CopiesRightIff`). They stay in the caller's buffer for more
  (`Slicing.CopiesInBoundsIff`), and for all of those the bytes are given exactly, also when they are wrong
  (`FileBytes.ByteAfterWrite`), with what makes a single request right all the same (`FileBytes.WriteIsRightIff`,
  `FileBytes.ReadIsRightIff`). Whatever the buffers and the uninitialised block hold, only the aligned requests are
  right (`FileBytes.WriteIsAlwaysRightIff`, `FileBytes.ReadIsAlwaysRightIff`); `Operations.WrongWrite` is a wrong write
  of 513 bytes.
* **`sfs_fs_open_disk` formats an unformatted disk even when told not to** (`src/fs.c:207-216`, against the comment
  in `src/fs.h`); `Startup.OpenDisk` follows the code. The repository's own README speaks of about 4 inodes in a
  block; the structure is 168 bytes and the code fits 3.
* **Unmounting does not release descriptors that are still open** (`src/sfs.c:90-115`). Their links stay counted on
  disk with nobody to give them up, so the inodes are never freed: the link counts are right after a remount exactly
  if nothing was open (`Startup.RemountIsSoundIff`).
* **`inode_cache.dirty` is not initialised** (`src/fs.c:188-189`). The model starts it as false.
* **After formatting, the creation time of the disk as it was before is converted and logged** (`src/fs.c:221-224`).
  The block just read still holds the old bytes; when they are no time that `localtime` can convert, the program uses a
  null pointer. The model leaves that call out.

## Assumptions

Block reads and writes inside the disk and `malloc` succeed. Disks have fewer blocks than a signed 64-bit byte count
allows, and offset plus size fits 64 bits. The state machine and the classes are for inode tables of fewer than 2^31
blocks, the exact condition for the cache. Link counts are 32-bit and wrap in the model; `System.RefsBounded` shows they
never do while descriptor numbers fit a C `int`, which `System.Enabled` demands of each open. FUSE releases a
descriptor once and does not use it afterwards (`src/sfs.c:604-615`).

## Model

| member | source | states |
|---|---|---|
| `FreeList.AllocTakesOne` | src/fs.c:581-630 | allocation fails exactly when the free set is empty; otherwise the returned block, and it alone, leaves the set, the list stays acyclic and duplicate-free, and no block outside the new set changes |
| `FreeList.AllocTakesFirst` | src/fs.c:593-627 | the block taken is the first number in words 1 to 63 of the head node, else the head node, whose word 0 is the next head |
| `FreeList.ReleaseAddsOne` | src/fs.c:632-693 | freeing adds exactly the given block in all three cases (empty list, hole in some node, new last node) and keeps the list well formed |
| `FreeList.ReleaseFillsFirst` | src/fs.c:654-676 | a freed block goes into the first empty word of the first node that has one |
| `FreeList.ChainIsDetermined` | src/fs.c:654-676 | the sequence of index nodes is determined by the head and the disk |
| `FreeList.PoolIsConserved` | src/fs.c:581-693 | over any interleaving of allocations and frees the outstanding and the free blocks partition the pool |
| `FreeList.ExactlyKAllocationsSucceed` | src/fs.c:581-630 | from k free blocks exactly the first k of any number of allocations succeed, with k different blocks |
| `Mounted.FileSystem.AllocateBlock` | src/fs.c:581-630 | the slot scan in place does what the value-level allocation says, on any well-formed list |
| `Mounted.FileSystem.FindHole` | src/fs.c:662-672 | the inner scan finds the first empty slot, or reports a full node |
| `Mounted.FileSystem.FindRoom` | src/fs.c:654-676 | the chain walk terminates on any well-formed list, at the first node with a hole or at the last node |
| `Mounted.FileSystem.FreeBlock` | src/fs.c:632-693 | freeing a block does what the value-level release says |
| `InodeCache.ServeOk` | src/fs.c:306-372 | one access through a sound cache is one access to the plain array of inodes |
| `InodeCache.CacheIsInvisible` | src/fs.c:306-372 | over any sequence of accesses reads return the last write, a miss never loses a dirty block, and writing back at the end leaves the array on disk |
| `InodeCache.CacheIsRightIff` | src/fs.c:16-23 | that holds of every sequence of accesses if and only if the table has fewer than 2^31 blocks |
| `InodeCache.WriteBackFails` | src/fs.c:318-327 | otherwise writing an inode of block 2^31 and then reading another one fails |
| `InodeCache.WrongBlockHit` | src/fs.c:318-336 | from block 2^32 + 1 on, an inode of block 1 is answered from the wrong block |
| `Mounted.FileSystem.constructor` | src/fs.c:177-228 | mounting a formatted disk starts with a cold cache and shows the file system that disk holds |
| `Mounted.FileSystem.Close` | src/fs.c:230-249 | after closing, the disk alone holds the file system as last seen through the cache, signed and with only the inode table changed |
| `Mounted.FileSystem.Load` | src/fs.c:318-334 | fetches as the cache on values does, through the int; a miss writes a dirty block back and changes nothing that is seen |
| `Mounted.FileSystem.ReadInode` | src/fs.c:306-338 | reading an inode returns the last write to it, whatever was cached in between |
| `Mounted.FileSystem.WriteInode` | src/fs.c:340-372 | writing an inode changes that inode of the array and nothing else |
| `Mounted.FileSystem.WriteHeads` | src/fs.c:31-41 | the superblock in memory and on disk change together, in the two list heads and nothing else |
| `Mounted.FileSystem.InodeAllocate` | src/fs.c:251-274 | takes the head of the inode free list, failing exactly when the head is 0 |
| `Mounted.FileSystem.InodeDeallocate` | src/fs.c:276-304 | pushing the inode and the loop over 12 pointers do what the value-level deallocation says |
| `Mounted.FileSystem.ReadFromIndirect` | src/fs.c:413-442 | the block number at an index of the indirect block, 0 without one, an error past the end of the disk |
| `Mounted.FileSystem.ReadOrCreate` | src/fs.c:413-442 | a hole in the indirect block gets a newly allocated block, recorded in the words read beforehand |
| `Mounted.FileSystem.InodeBlockRead` | src/fs.c:444-489 | direct, indirect and hole reads, the range guard, the index limit, and the error for an indirect block past the disk, as on values |
| `Mounted.FileSystem.CreatePointer` | src/fs.c:502-524 | allocating a pointer updates the caller's copy and the table together |
| `Mounted.FileSystem.BlockWrite` | src/fs.c:536-551 | a block write shows in the data and, for the unused block after the table, as the inodes there |
| `Mounted.FileSystem.InodeBlockWrite` | src/fs.c:491-554 | all paths and failures of a block write, with the caller's copy, as on values, clean or not |
| `Inodes.ReadBlockReadsContent` | src/fs.c:444-489 | for a live inode the range guard never fires: a read returns the file's content, zeros for a hole, and fails only past index 75 |
| `Inodes.GuardedIff` | src/fs.c:476-488 | for any inode and any nonzero pointer in it, reading and writing succeed together, exactly if the pointer is behind the inode table and on the disk; a write that fails there changes nothing |
| `Inodes.WriteBlockRefinesMap` | src/fs.c:491-554 | a write changes one logical block of one inode, keeps every block owned once, loses none, and fails exactly when the index is past 75 or too few blocks are free |
| `Inodes.WriteAllocates` | src/fs.c:491-554 | a successful write takes exactly the blocks it needs from the pool and fills no other hole of the file |
| `Inodes.MapPointerMaps` | src/fs.c:502-524 | recording a new pointer adds one owner for a block that was free and moves no data |
| `Inodes.MapSlotMaps` | src/fs.c:430-438 | the same for a word of the indirect block |
| `Inodes.NewIndirectEffectIff` | src/fs.c:514-553 | creating an indirect block does all that a block write promises if and only if the block taken reads as zeros, or the data are zeros and the stale word at the wanted index names that very block |
| `Inodes.NewIndirectSoundIff` | src/fs.c:514-553 | the disk is sound afterwards if and only if every word left in the new indirect block names a block that is neither free nor owned, each once |
| `Inodes.ConsumedNodeAliasesFreeList` | src/fs.c:514-530 | a consumed index node with a successor makes logical block 12 a block of the free list |
| `Inodes.UncleanExample` | src/fs.c:514-530 | a concrete sound disk on which such a write meets a block that is not zero |
| `Inodes.NewInode` | src/sfs.c:371-394 | the inode taken for a new file, once rewritten with cleared pointers, is a live empty file and disturbs no other |
| `Inodes.TakePastTheTable` | src/fs.c:251-274 | the formatted inode list ends at the number past the table; taking it yields the inode the unused block holds, and the disk stays sound if and only if that inode's size is 0 or the same number again |
| `Inodes.UpdateIno` | src/fs.c:340-372 | rewriting an inode with the same pointers changes no file's contents |
| `Inodes.FreeDirectAddsAll` | src/fs.c:294-301 | the loop over the direct pointers returns exactly the nonzero ones to the pool |
| `Inodes.DeallocateFrees` | src/fs.c:276-304 | the inode goes on the free list, its direct blocks to the pool, and no other file changes |
| `Inodes.DeallocateConservesIffNoIndirect` | src/fs.c:276-304 | all blocks of the inode come back if and only if it has no indirect block |
| `Directory.PutEntryAt` | src/dir.c:171-174 | storing entry j of a block changes that entry and no other, for any entry size and count |
| `Directory.ClearEntryAt` | src/dir.c:131 | clearing entry j zeroes its inode number and no other word |
| `Directory.PlaceBelow` | src/dir.c:166-171 | entry places are numbered block by block, and the directory's places are those of its blocks |
| `Directory.IterationYieldsAll` | src/dir.c:52-101 | iterating to exhaustion reaches every used entry, for any number of entries to a block |
| `Directory.Yielded` | src/dir.c:52-101 | iteration yields used entries only, each once, block by block and in slot order |
| `Directory.LookupFound` | src/dir.c:78-92 | with unique names any entry that carries a name decides its lookup |
| `Directory.LinkAddsOneEntry` | src/dir.c:152-218 | linking adds one entry in the first empty slot of any block, or at the start of one appended block, and one link, or on failure neither; other entries, names, inodes and contents stay |
| `Directory.DropLinkEffect` | src/dir.c:116-128 | giving up a link frees the inode exactly when it was the last one |
| `Directory.UsedEntryIsMapped` | src/dir.c:137-141 | writing back the block of a yielded entry can neither fail nor allocate |
| `Directory.UnlinkRemovesEntry` | src/dir.c:104-144 | unlinking clears the slot just yielded, in its own block, and drops one link of its inode; other names stay |
| `Scanning.DirIterator.constructor` | src/dir.c:32-50 | a new iterator stands before the first entry |
| `Scanning.DirIterator.ScanBlock` | src/dir.c:78-92 | the inner loop stops just after the next used entry of the cached block, or at its end |
| `Scanning.DirIterator.Next` | src/dir.c:52-101 | advances to the next used entry, in whichever block, and holds it, or ends when there is none; terminates by remaining blocks, then remaining entries |
| `Directory.ListedIsYielded` | src/dir.c:52-101 | the entries listed by exhausting the iterator are those at the places it yields |
| `Scanning.ListEntries` | src/sfs.c:1031-1038 | calling the iterator until it is exhausted lists every used entry in order |
| `Scanning.DirIterator.Unlink` | src/dir.c:104-144 | clears the slot just yielded in the cached block and writes that block back where it came from |
| `Scanning.FindEmpty` | src/dir.c:171-172 | the inner scan finds the first empty slot of a block |
| `Scanning.DirLink` | src/dir.c:152-218 | the scan over blocks and slots, and the append, do what the value-level link says |
| `Descriptors.NewPoolOk` | src/filedescriptor.c:41-65 | a new pool numbers its slots and chains all of them on the freelist |
| `Descriptors.AllocateGivesUnusedSlot` | src/filedescriptor.c:92-129 | allocation, with or without growth, returns a slot that was not in use and leaves every existing slot as it was |
| `Descriptors.OpenOk` | src/sfs.c:402-409 | after storing into the new descriptor, slot k still holds number k and the freelist is exactly the unused slots |
| `Descriptors.FreeSlotOk` | src/filedescriptor.c:154-163 | freeing keeps both and touches no other slot |
| `Descriptors.LookupInvertsNumber` | src/filedescriptor.c:131-152 | looking up a slot's number returns that slot in whichever slab; exactly numbers past the last slab find nothing |
| `Descriptors.FreshPoolCountsUp` | src/filedescriptor_test.c:14-25 | n allocations from a fresh pool return 0 to n-1 in order, for every n, and take a slab for every 4088 numbers |
| `Descriptors.FreeThenAllocate` | src/filedescriptor_test.c:14-18 | the slot freed last is allocated next and the freelist is then as before |
| `SlabPool.MakeSlab` | src/filedescriptor.c:118-124 | the loop numbers and chains the slots of a slab |
| `SlabPool.DescriptorPool.constructor` | src/filedescriptor.c:41-65 | builds the new pool |
| `SlabPool.DescriptorPool.Allocate` | src/filedescriptor.c:92-129 | freelist pop, or walking the slab list, growing and popping, as on values |
| `SlabPool.DescriptorPool.GetFromFd` | src/filedescriptor.c:131-152 | the walk along the slab list finds the slot of a number |
| `SlabPool.DescriptorPool.Free` | src/filedescriptor.c:154-163 | pushes the slot on the freelist, keeping its number |
| `Files.WriteRunEffect` | src/sfs.c:816-847 | a run of block writes, whatever the data, changes the covered blocks of one file only, and on success each holds its data |
| `Files.WriteRunOkIff` | src/sfs.c:816-847 | a run of block writes succeeds if and only if it stays within the addressable blocks and as many blocks are free as it meets holes, and one more if it needs a new indirect block |
| `Files.WriteRunPrefix` | src/sfs.c:816-847 | a run that fails has stored block k exactly if the free blocks last up to it |
| `System.RefsBounded` | src/fs.h:64 | a link count never reaches the limit of its 32 bits |
| `System.OpenKeepsInv` | src/sfs.c:564-594 | opening adds one link for one new descriptor |
| `System.ReleaseKeepsInv` | src/sfs.c:622-660 | releasing drops one link and frees the inode exactly at the last reference |
| `System.UnlinkKeepsInv` | src/sfs.c:464-491 | unlinking drops the entry's link; an inode still open stays allocated |
| `System.WriteKeepsInv` | src/sfs.c:777-847 | writing changes no name, link or reference and keeps all blocks owned once |
| `System.CreateKeepsInv` | src/sfs.c:371-417 | a created file has two references and two links; a failed create leaves an orphan with one |
| `System.StepKeepsInv` | src/sfs.c:290-851 | every operation keeps ownership, unique names, the descriptor pool and the link counts |
| `System.RunKeepsInv` | src/sfs.c:290-851 | so does every run, successful or failing steps alike |
| `System.EndStays` | src/fs.c:82 | no permitted step changes the inode in the unused block after the table |
| `System.AllowedIsPermitted` | src/fs.c:251-274 | if that inode is harmless at the start, no create of the run needs a hypothesis about it |
| `System.NamesAfterStep` | src/sfs.c:290-496 | create binds its name to the inode taken, unlink unbinds its name, nothing else changes any name |
| `System.DescriptorsAfterStep` | src/sfs.c:402-664 | an open gets a number not in use, on the file just looked up or created; a release closes its number; no other number changes |
| `System.FlagsAfterStep` | src/sfs.c:402-409 | an open descriptor holds the flags of the call that opened it until it is released |
| `System.FilesAfterStep` | src/sfs.c:290-851 | a step changes a file's size or contents only if it writes through a descriptor open on that file; a created file is empty |
| `System.UnwrittenFilesSurvive` | src/sfs.c:290-851 | over any run a file that stays referenced and is not written keeps its size and contents |
| `System.StepConservesIff` | src/sfs.c:290-851 | every block is free or owned before a step exactly if it is after it, except exactly when the step frees an inode with an indirect block |
| `System.RunConserves` | src/sfs.c:290-851 | over a run that frees no such inode no block is lost |
| `System.CreateAbortsIff` | src/sfs.c:371-394 | on any sound disk, create fails its assertion exactly when the name is new, the inode list stands past the table, and the inode found there has number 0 |
| `System.CreatePastTheTable` | src/sfs.c:371-394 | with a number of the table instead, create goes on with that inode, which is live, and clears its size and pointers |
| `System.CreateFailsIff` | src/sfs.c:395-399 | create of a new name fails, leaving an orphan, exactly when the directory is full or its block cannot be had |
| `System.AnswersIff` | src/sfs.c:421-660 | open and unlink succeed exactly if the name is there, release exactly if the number is open; otherwise ENOENT, or the error for a bad number, with nothing changed |
| `System.CreateAnswers` | src/sfs.c:345-417 | create of a name that is there is refused exactly under O_EXCL and opens it otherwise; of a new name it is out of inodes, aborts, fails, or opens, each exactly under its condition |
| `System.WriteFailsIff` | src/sfs.c:777-847 | a nonempty write through an open descriptor fails if and only if it leaves the addressable blocks or too few blocks are free for its holes and the indirect block |
| `System.WriteAnswers` | src/sfs.c:764-851 | write through a number that is not open is refused with nothing changed; otherwise it succeeds exactly if it stays in range and the free blocks last |
| `System.FileAfterWrite` | src/sfs.c:784-847 | after a write, failed or not, the size covers the range and each block holds its data exactly if the free blocks lasted to it |
| `System.OrphansStay` | src/sfs.c:395-399 | an orphan stays allocated through every run |
| `Slicing.SlicesTileTheRange` | src/sfs.c:710-734 | the block slices are nonempty, consecutive, and cover exactly the requested byte range |
| `Slicing.CopiesRightIff` | src/sfs.c:722-749 | the copies use the right buffer positions exactly on the aligned requests |
| `Slicing.CopiesInBoundsIff` | src/sfs.c:722-749 | the copies that are made stay in the caller's buffer exactly on aligned requests shorter than a block or starting at 0, and on unaligned ones inside one block, or from the first block to a block boundary |
| `Bytes.UnpackPack` | src/fs.c:600-601 | a block read as words and back as bytes is the same bytes |
| `Bytes.PackUnpack` | src/fs.c:600-601 | and as words the same words |
| `Bytes.LittleEndian` | src/fs.h:1-5 | words are stored least significant byte first |
| `Bytes.StoredNameAt` | src/dir.c:174 | a stored name is its characters followed by zeros, 256 bytes in all |
| `Bytes.StoredNameReadsBack` | src/dir.c:174 | read as a C string a stored name is the name |
| `Bytes.NameWordsInjective` | src/sfs.c:337 | comparing stored names decides equality of the names |
| `FileBytes.InodeBytes` | src/fs.h:54-76 | inodes are 168 bytes, three to a block, with number, links, size and 14 pointers at the bytes the struct puts them |
| `FileBytes.ByteAfterWrite` | src/sfs.c:816-847 | every byte of the file after a write that stays in the buffer, including the wrong ones and those from the uninitialised block |
| `FileBytes.AlignedWriteIsRight` | src/sfs.c:816-847 | on the aligned domain exactly the requested bytes change, to those of the buffer |
| `FileBytes.WriteIsRightIff` | src/sfs.c:816-847 | one such write is right exactly when aligned, or when it starts at 0 and the buffer repeats its start in the partial last block, or when the uninitialised block already held the right bytes |
| `FileBytes.WriteIsAlwaysRightIff` | src/sfs.c:816-847 | a request that stays in the buffer is written right for every buffer and every uninitialised block if and only if it is aligned |
| `FileBytes.AlignedReadIsRight` | src/sfs.c:725-750 | on the aligned domain a read fills the buffer with the requested bytes |
| `FileBytes.ReadIsRightIff` | src/sfs.c:725-750 | a read that stays in the buffer is right exactly when aligned, or when file and buffer already agree where the copies go wrong |
| `FileBytes.ReadIsAlwaysRightIff` | src/sfs.c:725-750 | it is right whatever the buffer held exactly when aligned |
| `Operations.WriteStepStores` | src/sfs.c:784-847 | a successful write stores the computed blocks and extends the size to cover the range |
| `Operations.WrongWrite` | src/sfs.c:816-847 | a successful write of 513 bytes at offset 0 stores the first byte of the buffer as byte 512, a wrong one if they differ |
| `Operations.WrittenIsReadBack` | src/sfs.c:677-851 | an aligned write that succeeds, any run that does not disturb the file, and a read of the range through any descriptor on it return the bytes written |
| `Operations.Sfs.FindName` | src/sfs.c:327-368 | the search loop stops at the first entry with the name, or at the end |
| `Operations.NameIsListed` | src/sfs.c:1031-1038 | a name that is found is among the entries iteration yields, and its bytes on disk read back as the inode number and the name |
| `Operations.CreatedNameIsListed` | src/sfs.c:371-409 | after a create that opens, the directory lists the name as the caller wrote it, with the inode just opened |
| `Operations.Sfs.OpenExisting` | src/sfs.c:564-594 | counts a link and fills in a descriptor |
| `Operations.Sfs.CreateFile` | src/sfs.c:290-418 | create takes its step of the state machine, with all its error returns |
| `Operations.Sfs.CreateNew` | src/sfs.c:371-417 | the part of create for a new name |
| `Operations.Sfs.OpenFile` | src/sfs.c:508-600 | open takes its step |
| `Operations.Sfs.UnlinkFile` | src/sfs.c:421-496 | unlink takes its step and keeps the invariant |
| `Operations.Sfs.ReleaseFile` | src/sfs.c:616-664 | release takes its step and keeps the invariant |
| `Operations.Sfs.SourceFor` | src/sfs.c:818-839 | the data chosen for a block: a piece of the buffer, or the old block with its start replaced, or the uninitialised block |
| `Operations.Sfs.WriteBlocks` | src/sfs.c:801-847 | the block loop writes the run of computed blocks, stopping at the first failure |
| `Operations.Sfs.WriteFile` | src/sfs.c:764-851 | write takes its step and keeps the invariant |
| `Operations.Sfs.ReadBlocks` | src/sfs.c:710-750 | the block loop fills the buffer, position by position as the code computes them |
| `Operations.Sfs.ReadFile` | src/sfs.c:677-754 | read changes nothing but the buffer and says when it fails |
| `Formatting.NodeArithmetic` | src/fs.c:126-130 | the first data block comes after one index node for every 64 blocks or part of it |
| `Formatting.FormatTable` | src/fs.c:89-120 | the formatted inodes: the root, and every other one free and linked to the next |
| `Formatting.FormatIndex` | src/fs.c:126-167 | exactly the full nodes are written; the inner assertion always holds, the final one exactly for the good sizes |
| `Formatting.FormatFs` | src/fs.c:47-175 | formatting fails for fewer than 3 blocks, fails its assertion exactly off the good sizes, and otherwise writes the described disk: signed, a sixteenth of the blocks for inodes or one block, three inodes to a block, and the list head two blocks further |
| `Formatting.FormattedLayout` | src/fs.c:70-83 | those numbers hold of every formatted disk |
| `Formatting.FormattedInode` | src/fs.c:89-120 | inode n is the entry (n - 1) % 3 of table block (n - 1) / 3, the root or free and linked to n + 1 |
| `Formatting.FormattedNode` | src/fs.c:122-167 | every word of every full index node: the next node, and 63 consecutive blocks behind the last node |
| `Formatting.FormattedListIff` | src/fs.c:122-167 | on a formatted disk, whatever it held before, a well-formed free list exists if and only if the node never written, read as the disk was, continues it soundly and apart from the full nodes and their slots |
| `Formatting.FormattedFree` | src/fs.c:122-167 | its free blocks are then the full nodes, what their slots name, and what the old disk's continuation holds |
| `Formatting.NodeNamesItself` | src/fs.c:157-167 | a failing input: a disk of 4 blocks whose block 3 names itself is formatted with success and has no well-formed list |
| `Formatting.FormattedFreeBlocks` | src/fs.c:122-167 | if that node reads as zeros, the free blocks are the nodes and the full nodes' data, which is everything exactly when the count is 1 or a multiple of 64 |
| `Formatting.FormattedTable` | src/fs.c:85-120 | the formatted inode list is well formed and holds every inode but the root, whatever the disk held before |
| `Formatting.FormattedIsSoundIff` | src/fs.c:47-175 | a newly formatted file system satisfies the invariant of the state machine if and only if its free list continues soundly |
| `Formatting.EveryRunIsSound` | src/sfs.c:290-851 | from every such file system every permitted run keeps the invariant |
| `Formatting.EveryAllowedRunIsSound` | src/sfs.c:290-851 | the same with no hypothesis on what creates find past the table, if the unused block holds a harmless inode before formatting |
| `Departures.FullTable` | src/fs.c:109-111 | on every fresh disk a file can be created for each inode but the root's; creating one more then fails its assertion exactly if the unused block's inode has number 0, and otherwise empties the live inode of that number if it is in the table |
| `Departures.CreatesPermitted` | src/sfs.c:371-417 | until its inodes run out, creating new files on a fresh disk meets no stale data and no descriptor number past the C int |
| `Departures.SmallDiskRun` | src/sfs.c:371-399 | on every fresh disk of at most 32 blocks the first create returns a descriptor and the second one a failure that leaves an orphan |
| `Departures.RootIsEmptied` | src/sfs.c:371-394 | two failing inputs of 4 blocks: after two creates a third one aborts if block 2 was zero, and empties the root directory if its first word was 1 |
| `Departures.LossRun` | src/fs.c:294-301 | on every fresh disk with 64 or more blocks in its list, create, write block 12, unlink, close loses blocks |
| `Departures.StaleRun` | src/fs.c:514-530 | on every such disk, after five permitted operations a sixth makes the stale data of a removed file the pointers of another file, for any stale data but zeros |
| `Startup.OpenDisk` | src/fs.c:177-228 | a formatted disk is mounted as it is; any other is formatted first, whatever the flag says; but for the logging of the old creation time, it is usable exactly if its table fits the cache |
| `Startup.Remount` | src/fs.c:205-249 | closing and opening again formats nothing and gives the file system last seen |
| `Startup.RemountIsSoundIff` | src/sfs.c:90-115 | the remounted system satisfies the invariant exactly if no descriptor was open |
| `Startup.InitFresh` | src/sfs.c:54-81 | starting on an unformatted disk of a good size whose unwritten node continues the list soundly gives a running file system that satisfies its invariant |

## Left out

- I/O errors and crash recovery: the code makes no atomicity claim for them, and `malloc` failure.
- Timestamps, owner and mode bits: they take part in no decision the model makes.
- `sfs_getattr`, `sfs_opendir`, `sfs_readdir` but for its loop, `sfs_releasedir`, `sfs_mkdir`, `sfs_rmdir`, and so the root's link count: releasing a directory decrements it with no matching increment.
- `sfs_fs_inode_block_remove`: it has no caller and would free a block without clearing its pointer.
- Double indirection: not implemented in the source; the model has its failure.
- Clamping reads at the end of the file: the source does none.
- Path splitting, FUSE plumbing, mutexes, logging, `errno` beyond the distinct returns, and the unused token functions.
- `sfs_filedescriptor_pool_deinit`: frees memory only.
- Raw pointers: a slot of the descriptor pool is addressed by slab and index, and the linked list of slabs is a sequence in list order.
- Inodes written past the table: the unused block is read as inodes after a block write, but an inode written there would not show in its words; no operation does that.
- Operations.Sfs.WriteFile: covers the requests for which the copy loop stays in the caller's buffer, because outside them the C code reads memory that is not the caller's; `Slicing.CopiesInBoundsIff` says which these are. It also assumes `StepClean`, as the runs do.
- Operations.Sfs.WriteBlocks: covers the same requests, for the same reason.
- Operations.Sfs.SourceFor: covers the same requests, for the same reason.
- Operations.Sfs.ReadFile: covers the same requests, because outside them the C code writes memory that is not the caller's.
- Operations.Sfs.ReadBlocks: covers the same requests, for the same reason.
- Operations.Sfs.CreateFile: assumes of a create that takes the inode past the table that its number is 0. With another number the step of the state machine still applies, and `System.CreatePastTheTable` says what the write at src/sfs.c:390 does to an inode of the table; the directory scan that follows, over a disk no longer sound, is not modelled in place. A number that is not of the table would make the code rewrite inodes in data blocks.
- Operations.Sfs.CreateNew: assumes the same.
- Mounted.FileSystem.ReadFromIndirect: an indirect pointer into blocks 1 to `tb` reads words of the data that are not tied to the inodes stored there, because the unmodelled fields of an inode (times, owner, mode) are among them. No live inode of a sound disk has such a pointer.
- Mounted.FileSystem.InodeBlockRead: the same limit, for the same reason.
- Inodes.GuardedIff: the same limit for a pointer read from an indirect block that lies in the inode table.
- Startup.OpenDisk: leaves out the conversion of the old creation time (src/fs.c:221-224), which can crash on a disk that was not zero, because what `localtime` accepts is outside the repository.
- Startup.InitFresh: the same.
- System.RunKeepsInv: assumes `StepClean`: each block newly taken as an indirect block reads as zeros, because the code does not clear it, and a create that gets past the table finds a harmless inode. For a single write `Inodes.NewIndirectEffectIff` and `Inodes.NewIndirectSoundIff` give the exact conditions, which are slightly wider; for a create past the table `Inodes.TakePastTheTable` and `System.CreateAbortsIff` do.
