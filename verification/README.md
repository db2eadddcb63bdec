# CS330: object store, page tables, scheduler and four gem5 tools

A Dafny model of the parts of this repository that carry invariants, and proofs of what they keep.

**The object store** (`Assignments/assignment4/objstore.c`). Objects live in 4 KiB blocks behind four indirect blocks
of 1024 pointers each, under names in an open-addressed table of a million slots, on a disk with a first-fit bitmap
and, if `CACHE` is defined, a write-back cache. The model has three layers:

- `BlockCache.dfy` is the cache as a value, with the theorem that in any run of cached reads and writes,
  reservations and discards, every read answers as on a plain disk, and with what freeing does to it.
  `BlockDevice.dfy` is the same device as a class over the arrays of the source, for both builds (`cached` is the
  `#ifdef`).
- `KeyTable.dfy` is hashing, probing, creation and removal, `StoreModel.dfy` the objects and their blocks: which blocks
  each object owns, that nobody shares one, and what write, create, destroy and rename do to the map from object ids
  to names and bytes. `StoreWrite.dfy` takes the nested loops of reading and writing apart, `StoreDestroy.dfy` those
  of freeing.
- `ObjectStore.dfy` is the class with the operations of the source. `StoreRuns.dfy` states every operation on the map
  alone and proves that every run of the store, in either build and across remounts, is a run of the map.

The sizes 4096, 1024 and 4194304 (a block, the pointers of an indirect block, the bytes behind one) are written as
literals wherever they multiply or divide: with named constants the solver takes them for variables. For the same
reason, the larger predicates are kept closed behind `Unfold` (`Unfolding.dfy`) and opened by a lemma where needed.

**Page tables** (`Assignments/assignment2/entry.c`, `Assignments/assignment1/context_mm.c`). `PageTables.dfy` is the
four-level walk of section 4.5 of the Intel SDM, Volume 3A, over physical memory, and what adding or clearing one entry
does to all walks. `Mmu.dfy` is the code that writes the entries. `ProcessMemory.dfy` and `ProcessCalls.dfy` are
segments, page faults, expand and shrink over whole runs. `ContextMm.dfy` builds and tears down an address space.

**The scheduler** (`Assignments/assignment3/schedule.c`). `Scheduler.dfy` is the step system of ticks, sleeps, clones,
exits and alarms with its properties over every interleaving; `Kernel.dfy` is the handlers on the context table.

**gem5 tools.** `PipeView.dfy` is the reorder queue of the pipeline viewer, `Varint.dfy` the message framing,
`Upgrader.dfy` the dependency-ordered migrations, `PortBinder.dfy` the greedy port binder.

`dafny verify dfyconfig.toml` checks the project.

The main results, over all inputs, runs or interleavings:

- the store refines a map from ids to names and bytes (`RunRefines`, `Perform`), the cache refines a plain disk
  (`CacheRefinesDisk`), and blocks are conserved (`StepKeepsNoLeak`, `RunKeepsNoLeak`);
- the tables stay a tree, a fault changes one translation and gives it the rights of its segment (`TreeAfterAdd`,
  `PagesAfterMap`, `PageFault`), frames are conserved over runs and over the life of an address space (`RunKeepsInv`,
  `Cleanup`);
- sleepers, alarms and the single running context (`SleeperCounts`, `SleeperResumes`, `AlarmRate`,
  `RunOnlyCurrentRuns`);
- the reorder queue sorts exactly the traces that are on time (`OutputInOrderIff`), messages round-trip
  (`StreamRoundTripIff`), migrations respect what the files declare or are impossible (`Migrate`, `Upgrade`), and the
  greedy binder is optimal (`GreedyPassesIff`).

Some laws that the comments or the design of the source promise do not hold of the code. The model keeps the code as it
is, proves exactly when each of them holds, and shows a case in which it does not:

- A comment on `create_object` asks for a check for duplicates; the code finds a duplicate exactly when no hole comes
  before it (`DuplicateDetectedIff`, `RemoveKeepsCompactIff`; it does not in `DuplicateAfterDestroy`). A rename to a
  taken name that is not found out leaves two objects with one name (`RenameRightIff`; `NotRefusedAtHole`,
  `UndetectedRenameBreaks`).
- `objstore_read` and `objstore_write` forget, from the second indirect block on, the entries they skipped in the first
  (`LoopsRightIff`, `WriteRightIff`, `ReadRightIff`; 4 MiB at offset 4096 in `LoopsGoWrong` and `CrossingWriteBreaks`).
- A write of nothing off a 4 MiB boundary takes away the indirect block that holds the bytes before its offset
  (`EmptyWriteRightIff`; `EmptyWriteBreaks`).
- A write that ends early drops the blocks behind its end without freeing them (`WriteLeaksIff`, `StepKeepsNoLeak`; one
  byte over two blocks in `ShorterWriteLeaks`).
- In the cached build, `destroy_object` reads indirect blocks from the disk and leaves their cache pages behind.
  Clearing a block, freeing an indirect block and destroying an object are safe exactly when nothing given back is
  cached (`ReleaseSafeIffUncached`, `FreeBlockSafeIff`, `DestroySafeIff`, `SafeIffUncached`), and what is read is out
  of date exactly when the disk differs (`StaleIffDiffers`). `DestroyOutcome` and `Destroy` say exactly when the store
  stays well formed. It does not if an object is destroyed after its first write (`FreeAfterFirstWrite`,
  `DestroyAfterFirstWriteBreaks`), nor if, after a mount, somebody asks for its size first
  (`DestroyAfterStatBreaks`).
- The shrink system call checks a size that wraps at 32 bits and then loops over the real one (`ShrinkKeepsIff`;
  `ShrinkCanUnderrun`).
- An exited process that nothing replaces can be made ready again (`ExitedRevivesIff`; `StrandedRevives`,
  `ExitedCanRevive`).
- A page is writable exactly when its segment is, unless an earlier mapping has made a shared table read-only
  (`RightsIff`; `PrepareReadOnlyData`, `PrepareAdjacentSegments`).
- Empty messages end a stream early (`StreamRoundTripIff`; `EmptyMessageIsLost`).
- A comment in `bind_ports` says that sorting makes every connection bindable; `SortedCanFail` and `SortedFails` give
  sorted lists that can be bound and are not, and `GreedyPassesIff` says when the binder succeeds.

## Model

| member | source | states |
|---|---|---|
| `Blocks.DecodeEncode` | Assignments/assignment4/objstore.c:448-456 | storing 1024 ints in a block through the pointer cast and loading them gives them back |
| `Blocks.EncodeDecode` | Assignments/assignment4/objstore.c:470-476 | loading a block through the pointer cast and storing it again changes no byte |
| `Blocks.DecodeBlock` | Assignments/assignment4/objstore.c:470-476 | loading a block as an int array computes the unique decoding of its little-endian words |
| `BlockCache.FlushIsInvisible` | Assignments/assignment4/objstore.c:153-167 | flushing a cache slot keeps the cache consistent and no block's logical contents change |
| `BlockCache.EvictIsInvisible` | Assignments/assignment4/objstore.c:188-202 | the round-robin choice gives a free slot from 2 on, and evicting its block changes no logical contents |
| `BlockCache.ReadIsInvisible` | Assignments/assignment4/objstore.c:92-113 | a cached read returns the block's logical contents and changes none |
| `BlockCache.WriteUpdates` | Assignments/assignment4/objstore.c:115-133 | a cached write changes the logical contents of its block alone |
| `BlockCache.RawWriteUpdates` | Assignments/assignment4/objstore.c:448-456 | writing past the cache to a block that is not cached changes that block alone |
| `BlockCache.ReserveUpdates` | Assignments/assignment4/objstore.c:434-446 | reserving a free block keeps the two maps inverse and changes no contents |
| `BlockCache.ReleaseSafeIffUncached` | Assignments/assignment4/objstore.c:278-283 | clearing a bitmap entry keeps the block and cache bitmaps inverse if and only if the block is not cached |
| `BlockCache.DiscardUpdates` | Assignments/assignment4/objstore.c:301-310 | dropping a data block with its cache slot frees it and touches no other block |
| `BlockCache.FreeBlockSafeIff` | Assignments/assignment4/objstore.c:291-314 | freeing an indirect block and what it lists keeps the bitmaps inverse if and only if the block has no cache page, unless it lists itself; otherwise a page is left holding a free block |
| `BlockCache.FreeAllBitmap` | Assignments/assignment4/objstore.c:316-332 | destroying an object clears exactly its indirect blocks and what they list on the disk |
| `BlockCache.DestroySafeIff` | Assignments/assignment4/objstore.c:316-332 | destroying an object keeps the bitmaps inverse if and only if none of its indirect blocks has a cache page when it is given back |
| `BlockCache.StaleIffDiffers` | Assignments/assignment4/objstore.c:296-300 | the list read from the disk is the one in use if and only if the block is the same on disk; it differs only under a dirty cache page |
| `BlockCache.ReleaseAfterReadBreaks` | Assignments/assignment4/objstore.c:92-113 | after any read of an allocated block, clearing its entry leaves a page holding a free block |
| `BlockCache.FreeAfterFirstWrite` | Assignments/assignment4/objstore.c:291-314 | if an indirect block that is new on the disk gets its entries through the cache and is then freed, the data block behind it stays in use with nobody to free it and the bitmaps are no longer inverse |
| `BlockCache.ReadKeepsSettled` | Assignments/assignment4/objstore.c:92-113 | a cached read, with its eviction, leaves every block that is on the disk as it is there |
| `BlockCache.WriteKeepsSettled` | Assignments/assignment4/objstore.c:115-133 | so does a cached write, but for its own block |
| `BlockCache.WriteStaysInCache` | Assignments/assignment4/objstore.c:115-133 | a cached write leaves its block with a page and the disk without the data |
| `BlockCache.ReadWritesNothing` | Assignments/assignment4/objstore.c:92-113 | as long as no page is dirty, a cached read leaves the disk as it is and no page dirty |
| `BlockCache.TurnIs` | Assignments/assignment4/objstore.c:188-196 | the round robin goes through pages 2 to 32767 in turn and starts again |
| `BlockCache.LoadedStays` | Assignments/assignment4/objstore.c:92-202 | in every run, a block that was just loaded keeps its page for the next 32765 reads, writes and reservations |
| `BlockCache.StepAgrees` | Assignments/assignment4/objstore.c:92-202 | one read, write, reservation or discard keeps the agreement with a plain disk, and a read answers what that disk holds |
| `BlockCache.MountedIsPlain` | Assignments/assignment4/objstore.c:637-641 | after mounting, the logical contents of every block are those on disk |
| `BlockCache.CacheRefinesDisk` | Assignments/assignment4/objstore.c:92-202 | in every run of reads, writes, reservations and discards, with evictions, a read returns the last bytes written to its block, the bitmaps stay inverse on slots 2 and up, and clean pages equal the disk |
| `BlockDevices.BlockDevice.constructor` | Assignments/assignment4/objstore.c:614-641 | a fresh device is valid, empty and uncached |
| `BlockDevices.BlockDevice.Flush` | Assignments/assignment4/objstore.c:153-167 | the slot is written back if dirty and freed; contents and allocation stay |
| `BlockDevices.BlockDevice.GetFreeCachePage` | Assignments/assignment4/objstore.c:188-202 | the page returned is the next after the last one, 2 after 32767, and free; contents and allocation stay |
| `BlockDevices.BlockDevice.Load` | Assignments/assignment4/objstore.c:99-108 | the block gets a clean page that holds what is on the disk |
| `BlockDevices.BlockDevice.ReadCached` | Assignments/assignment4/objstore.c:92-113 | fails exactly for unallocated blocks, otherwise returns the logical contents |
| `BlockDevices.BlockDevice.WriteCached` | Assignments/assignment4/objstore.c:115-133 | fails exactly for unallocated blocks, otherwise replaces the contents of that block |
| `BlockDevices.BlockDevice.Fetch` | Assignments/assignment4/objstore.c:474-476 | reading through the cache or else from disk returns the logical contents in either build; a used block has a page afterwards in the cached build |
| `BlockDevices.BlockDevice.Put` | Assignments/assignment4/objstore.c:496-498 | writing through the cache or else to disk replaces the logical contents in either build; in the cached build the data of a used block stays off the disk |
| `BlockDevices.BlockDevice.GetNewDatablock` | Assignments/assignment4/objstore.c:434-446 | the first free data block is reserved, or -1 is returned exactly when there is none |
| `BlockDevices.BlockDevice.InitializeBlock` | Assignments/assignment4/objstore.c:448-456 | the block on disk holds 1024 pointers of -1; if it is not cached, so do its contents |
| `BlockDevices.BlockDevice.ClearBlockBitmap` | Assignments/assignment4/objstore.c:278-283 | makes the release step; an uncached block becomes free and nothing else changes |
| `BlockDevices.BlockDevice.DiscardBlock` | Assignments/assignment4/objstore.c:301-310 | makes the discard step: a data block is freed and its cache page, if any, is empty and clean; all others keep contents and state |
| `BlockDevices.BlockDevice.DiscardListed` | Assignments/assignment4/objstore.c:297-311 | the loop discards exactly the blocks listed before the first -1 |
| `BlockDevices.BlockDevice.FreeDataBlock` | Assignments/assignment4/objstore.c:291-314 | frees what the indirect block lists on the disk and the block itself; the device stays consistent if and only if the block was not cached, unless it lists itself |
| `BlockDevices.BlockDevice.FreeIndirectBlocks` | Assignments/assignment4/objstore.c:325-329 | frees the indirect blocks before the first -1 one after the other |
| `BlockDevices.BlockDevice.CacheSync` | Assignments/assignment4/objstore.c:134-152 | afterwards every block on disk equals its logical contents and every bitmap entry is 0 or 1 |
| `BlockDevices.BlockDevice.Reset` | Assignments/assignment4/objstore.c:637-641 | the saved bitmap and an empty, clean cache make a valid device whose contents are the disk |
| `KeyTable.ComputeHash` | Assignments/assignment4/objstore.c:74-83 | the 32-bit loop computes the hash, a slot of the table |
| `KeyTable.HashIs` | Assignments/assignment4/objstore.c:74-83 | the hash is 5381 and the signed characters as digits of one number in base 33, reduced once to 32 bits and once to the table |
| `KeyTable.FindObjectId` | Assignments/assignment4/objstore.c:207-225 | terminates after one cycle and returns the id of a live slot with the key exactly if there is one, holes or not |
| `KeyTable.FindStop` | Assignments/assignment4/objstore.c:237-248 | probing stops at the first slot that is free or holds the key, if one exists |
| `KeyTable.CreateAbsent` | Assignments/assignment4/objstore.c:234-259 | creating an absent key succeeds in a table with a hole and keeps live keys distinct |
| `KeyTable.CreateLookups` | Assignments/assignment4/objstore.c:234-259 | creation changes the lookup of no other key |
| `KeyTable.NotRefusedAtHole` | Assignments/assignment4/objstore.c:240-248 | a key whose hash leads to a hole is not found taken, whether or not an object has it |
| `KeyTable.DuplicateDetectedIff` | Assignments/assignment4/objstore.c:240-248 | a duplicate is refused if and only if no hole comes before it on its probe path |
| `KeyTable.CreateKeepsCompact` | Assignments/assignment4/objstore.c:240-259 | without destroys no key has a hole on its probe path, and creation keeps it so |
| `KeyTable.RemoveKeepsCompactIff` | Assignments/assignment4/objstore.c:330-331 | emptying a slot keeps the table compact if and only if no other key was probed past it |
| `KeyTable.DuplicateAfterDestroy` | Assignments/assignment4/objstore.c:240-248 | two creates and a destroy of colliding keys after which a third create makes a duplicate |
| `KeyTable.CollidingKeys` | Assignments/assignment4/objstore.c:74-83 | two different keys with the same hash |
| `StoreModel.WriteKeepsInv` | Assignments/assignment4/objstore.c:462-505 | a write keeps every block owned by one pointer only, in range and marked used, and pointers a dense prefix |
| `StoreModel.WriteRefines` | Assignments/assignment4/objstore.c:522-566 | a write replaces the object's bytes by those before the offset followed by the data, and changes no other file |
| `StoreModel.WriteLeaksIff` | Assignments/assignment4/objstore.c:493-495 | a write leaves a used block that no object owns if and only if it leaves the object with fewer blocks |
| `StoreModel.CreateKeepsInv` | Assignments/assignment4/objstore.c:234-259 | creation keeps ownership, density and distinct keys |
| `StoreModel.CreateRefines` | Assignments/assignment4/objstore.c:234-259 | creation adds an empty file under a new id and changes no other |
| `StoreModel.DestroyKeepsInv` | Assignments/assignment4/objstore.c:316-332 | destruction keeps the blocks of all other objects |
| `StoreModel.DestroyRefines` | Assignments/assignment4/objstore.c:316-332 | destruction removes that file alone |
| `StoreModel.TakenOutRightIff` | Assignments/assignment4/objstore.c:316-332 | taking an object out of the store with some blocks keeps it well formed if and only if none of them belongs to another object |
| `StoreModel.DestroyKeepsNoLeak` | Assignments/assignment4/objstore.c:291-332 | if every used block is owned, then so it is after destruction: exactly the object's blocks are returned |
| `StoreModel.RenameKeepsInv` | Assignments/assignment4/objstore.c:340-361 | renaming moves the blocks to the new slot and shares none |
| `StoreModel.RenameRefines` | Assignments/assignment4/objstore.c:340-361 | renaming moves the bytes to a new id and name and changes no other file |
| `StoreModel.RenameRightIff` | Assignments/assignment4/objstore.c:340-361 | a rename that goes through keeps the store well formed if and only if no other object had the new name |
| `StoreWrite.ChunkFinished` | Assignments/assignment4/objstore.c:462-505 | the copy loop and the clearing loop together write one indirect block's share and keep all others |
| `StoreWrite.Advance` | Assignments/assignment4/objstore.c:552-558 | one turn of the write loop extends the written part by one indirect block |
| `StoreWrite.LoopDone` | Assignments/assignment4/objstore.c:559-564 | dropping the later pointers and setting the size turns the loop's result into a complete write |
| `StoreWrite.KeptBlock` | Assignments/assignment4/objstore.c:477-491 | whatever the range, the part of the data that an entry receives is the part of what is kept that belongs there |
| `StoreWrite.LoopAim` | Assignments/assignment4/objstore.c:552-558 | whatever the range, each indirect block takes exactly its share of what is kept |
| `StoreWrite.WriteDone` | Assignments/assignment4/objstore.c:559-564 | whatever the range, a write puts what is kept into the object and sets the size as if all had been |
| `StoreWrite.EmptyWriteRightIff` | Assignments/assignment4/objstore.c:552-564 | a write of nothing leaves a well-formed store if and only if its offset is at the beginning of an indirect block |
| `StoreWrite.WriteRightIff` | Assignments/assignment4/objstore.c:522-566 | on any aligned range inside the object, a write leaves a well-formed store if and only if the range starts at an indirect block or is not empty and stays inside one; then all of the data is written |
| `StoreWrite.LoopsRightIff` | Assignments/assignment4/objstore.c:552-557 | the loops reach exactly the blocks of the range, and each with the part of the data that belongs to it, if and only if the range starts at an indirect block or stays inside one |
| `StoreWrite.LoopsGoWrong` | Assignments/assignment4/objstore.c:552-557 | 4 MiB at offset 4096: a block of the range is not reached |
| `StoreWrite.ReadRightIff` | Assignments/assignment4/objstore.c:396-432 | on any aligned range, what is read are the bytes asked for, whatever they are, if and only if the range starts at an indirect block or stays inside one |
| `StoreDestroy.ListedAreEntries` | Assignments/assignment4/objstore.c:296-300 | an indirect block that is on the disk as it is lists there exactly the blocks behind it |
| `StoreDestroy.ClearedAreOwned` | Assignments/assignment4/objstore.c:316-332 | with the indirect blocks on the disk as they are, exactly the blocks of the object are cleared |
| `StoreDestroy.DestroyedByFreeing` | Assignments/assignment4/objstore.c:316-332 | with no indirect block cached, destruction takes the object and its blocks out of the store, and nothing else |
| `StoreDestroy.SafeIffUncached` | Assignments/assignment4/objstore.c:316-332 | with no indirect block named in a list on the disk, destruction is safe for the device if and only if none of them is cached |
| `StoreDestroy.FreedStoreIff` | Assignments/assignment4/objstore.c:316-332 | where the device stays consistent, the store is well formed if and only if nothing of another object was cleared, and just the object and its blocks are gone if and only if just those were cleared |
| `StoreDestroy.DestroyOutcome` | Assignments/assignment4/objstore.c:316-332 | all of the above for any object of any store, cached or not, and that with none cached the object and its blocks are gone and nothing else |
| `StoreDestroy.SettledDestroyIff` | Assignments/assignment4/objstore.c:316-332 | on a disk that has the indirect blocks as they are, destruction is safe for the device if and only if none is cached |
| `StoreDestroy.NewInCacheIsUnsafe` | Assignments/assignment4/objstore.c:291-332 | destroying an object whose only indirect block is cached and new on the disk is not safe, and a data block stays in use |
| `StoreWrite.ChunkFills` | Assignments/assignment4/objstore.c:369-394 | whatever the range, one indirect block's read puts into the buffer the blocks the loops pair with its places |
| `StoreWrite.BufferIsBytes` | Assignments/assignment4/objstore.c:429-430 | the bytes copied out of the block buffer are those the loops fetch from the object |
| `StoreRuns.StepRefines` | Assignments/assignment4/objstore.c:207-609 | every operation of the store is an operation of the map from ids to names and bytes, with the same answer |
| `StoreRuns.RunRefines` | Assignments/assignment4/objstore.c:207-609 | every run of the store is explained step by step by a run of the map |
| `StoreRuns.StepKeepsNoLeak` | Assignments/assignment4/objstore.c:434-505 | an operation keeps the used blocks exactly the owned ones if and only if it is not a write that leaves an object with fewer blocks |
| `StoreRuns.RunKeepsNoLeak` | Assignments/assignment4/objstore.c:434-505 | in every run without such writes the used blocks are exactly the owned ones |
| `ObjectStores.ObjectStore.constructor` | Assignments/assignment4/objstore.c:614-655 | a fresh store is valid and holds no files |
| `ObjectStores.ObjectStore.OpenIndirect` | Assignments/assignment4/objstore.c:464-476 | a missing indirect block is allocated and filled with -1; its pointers are returned |
| `ObjectStores.ObjectStore.WriteEntry` | Assignments/assignment4/objstore.c:482-491 | a missing data block is allocated, and the block holds the data |
| `ObjectStores.ObjectStore.WriteIndirectBlock` | Assignments/assignment4/objstore.c:462-505 | entries up to the end of the data hold its blocks, those behind are -1, and the blocks taken are counted; in the cached build the block has a page afterwards, and a new one is still blank on the disk |
| `ObjectStores.ObjectStore.WriteThrough` | Assignments/assignment4/objstore.c:556 | every entry visited holds the part of the data that the loops pair with it |
| `ObjectStores.ObjectStore.WriteChunk` | Assignments/assignment4/objstore.c:552-558 | the loop of a write goes from one indirect block to the next, on any aligned range, taking exactly the blocks it needs |
| `ObjectStores.ObjectStore.FinishObject` | Assignments/assignment4/objstore.c:559-564 | the later pointers are dropped and the size is set |
| `ObjectStores.ObjectStore.Write` | Assignments/assignment4/objstore.c:522-566 | fails exactly for ids of no object; otherwise returns the whole size or what is left up to 16 MiB, takes exactly the blocks needed, and leaves a well-formed store if and only if the range fits, and then with the data written at the offset and the object truncated there; in the cached build an indirect block it wrote is left in the cache |
| `ObjectStores.ObjectStore.Find` | Assignments/assignment4/objstore.c:207-225 | returns the id of the object with the name, or -1 exactly if there is none |
| `ObjectStores.ObjectStore.Create` | Assignments/assignment4/objstore.c:234-259 | takes the first free slot on the probe path unless the name comes first |
| `ObjectStores.ObjectStore.Rename` | Assignments/assignment4/objstore.c:340-361 | -1 and nothing changed exactly for an unknown name, a name of more than 32 bytes or a name found taken; otherwise moves the object, which keeps the store well formed if and only if no other object had the name |
| `ObjectStores.ObjectStore.Destroy` | Assignments/assignment4/objstore.c:316-332 | -1 exactly for unknown names; otherwise frees what the indirect blocks list on the disk, and the store stays well formed if and only if none of them is cached when given back and nothing of another object is cleared; with none cached exactly the object and its blocks are gone, and with none named in a list on the disk the store stays well formed only then |
| `ObjectStores.ObjectStore.ReadIndirectBlock` | Assignments/assignment4/objstore.c:369-394 | the blocks behind the entries are copied to the places the loops pair with them |
| `ObjectStores.ObjectStore.Read` | Assignments/assignment4/objstore.c:396-432 | for ids of no object -1; otherwise all the bytes asked for or all up to the end of the object, from beyond the end the negative distance to it, and with that many bytes what the loops fetch from the offset on |
| `ObjectStores.ObjectStore.CountEntries` | Assignments/assignment4/objstore.c:572-589 | counts the entries in use of an indirect block |
| `ObjectStores.ObjectStore.Stat` | Assignments/assignment4/objstore.c:591-609 | reports the size and the number of blocks, which is the size over 4096 rounded up; in the cached build it leaves an indirect block of the object cached |
| `ObjectStores.ObjectStore.Unmount` | Assignments/assignment4/objstore.c:660-674 | the cache is synced and the super object saved |
| `ObjectStores.ObjectStore.Mount` | Assignments/assignment4/objstore.c:614-655 | the table and the bitmap are those saved, the cache is empty |
| `ObjectStores.ObjectStore.Remount` | Assignments/assignment4/objstore.c:614-674 | unmounting and mounting loses nothing: every block on disk equals its logical contents before, every bitmap entry is 0 or 1, the objects are unchanged |
| `ObjectStores.ObjectStore.Perform` | Assignments/assignment4/objstore.c:207-674 | every operation, in either build, keeps the store valid and makes the step whose runs refine the map |
| `ObjectStores.ShorterWriteLeaks` | Assignments/assignment4/objstore.c:522-566 | a store with two blocks in an object, where a write of one byte leaves the second in use and unreachable |
| `ObjectStores.CrossingWriteBreaks` | Assignments/assignment4/objstore.c:522-566 | a store where a write of 4 MiB at offset 4096 leaves an object with a size and no blocks for it |
| `ObjectStores.EmptyWriteBreaks` | Assignments/assignment4/objstore.c:522-566 | a store where a write of nothing at offset 4096 leaves an object with a size and no blocks for it |
| `ObjectStores.DestroyCachedBreaks` | Assignments/assignment4/objstore.c:316-332 | destroying an object with a cached indirect block, none of them named in a list on the disk, leaves the device inconsistent |
| `ObjectStores.DestroyAfterStatBreaks` | Assignments/assignment4/objstore.c:591-609 | in the cached build, for every store and every object that is not empty: mount, ask for its size, destroy it, and the device is inconsistent |
| `ObjectStores.DestroyAfterFirstWriteBreaks` | Assignments/assignment4/objstore.c:316-332 | a new store in the cached build: create an object, write up to 4 MiB to it, destroy it, and the device is inconsistent, with blocks in use and no object |
| `ObjectStores.UndetectedRenameBreaks` | Assignments/assignment4/objstore.c:340-361 | a new store: create two objects whose names collide, rename the first away and then to the name of the second, and two objects have that name |
| `PageTables.EntryRoundTrip` | Assignments/assignment2/entry.c:176-182 | packing a frame number and flags into an entry and unpacking them is the identity, with or without the mask; the low bits are 7 for a writable entry and 5 for another: present, user, and write as the flag says |
| `PageTables.PathIsPage` | Assignments/assignment2/entry.c:212-221 | the four indices are the base-512 digits of the page number |
| `PageTables.SamePathIffSamePage` | Assignments/assignment2/entry.c:212-221 | two addresses have the same indices if and only if they are on the same 48-bit page |
| `PageTables.WalkAfterAdd` | Assignments/assignment2/entry.c:176-187 | hanging a zeroed fresh frame under a table changes the walk of that path only |
| `PageTables.TreeAfterAdd` | Assignments/assignment2/entry.c:168-206 | the tables stay a tree: each frame is referenced once, tables and pages stay in their regions, all frames are accounted for |
| `PageTables.WalkAfterClear` | Assignments/assignment2/entry.c:67-69 | clearing the entry of a page changes the walk to that page only |
| `PageTables.TreeAfterClear` | Assignments/assignment2/entry.c:67-69 | the tables stay a tree and the frame is no longer accounted for |
| `Mmus.Mmu.InitializePage` | Assignments/assignment2/entry.c:160-166 | 512 words are zeroed and no others |
| `Mmus.Mmu.AssignPageTablePage` | Assignments/assignment2/entry.c:168-188 | the table behind an entry is returned, after being created on a fresh frame if it was missing, with an entry that is present, for user mode, and writable as the flags say; no other walk changes |
| `Mmus.Mmu.AssignDataPage` | Assignments/assignment2/entry.c:190-206 | the page is mapped on the frame handed over or on a fresh one, with an entry that is present, for user mode, and writable as the flags say, unless it was mapped |
| `Mmus.Mmu.AssignPageTablePages` | Assignments/assignment2/entry.c:208-223 | the three tables above a page exist afterwards and the word returned is the page's entry |
| `Mmus.Mmu.MapPage` | Assignments/assignment2/entry.c:225-230 | the page and the tables above it are mapped, on fresh frames where they were missing; each entry it adds on the walk is present, for user mode, and writable if and only if bit 1 of the flags is set, and those that were there keep their word; every other path leads where it led |
| `Mmus.Mmu.IsValidVirtualAddr` | Assignments/assignment2/entry.c:13-38 | true exactly when the walk reaches a page |
| `Mmus.Mmu.FreeDataPage` | Assignments/assignment2/entry.c:40-72 | a mapped page is unmapped and its frame freed; an unmapped one changes nothing; every other path leads where it led |
| `ProcessMemory.ExpandKeeps` | Assignments/assignment2/entry.c:102-118 | expanding moves next_free up by the low 20 bits of the size in pages or refuses, and always keeps it inside the segment and aligned |
| `ProcessMemory.ShrinkKeepsIff` | Assignments/assignment2/entry.c:130-138 | shrinking keeps next_free inside the segment if and only if it is refused or the unwrapped size fits; it is refused if and only if the low 20 bits of the size do not fit |
| `ProcessMemory.ShrinkCanUnderrun` | Assignments/assignment2/entry.c:130-138 | a size for which shrinking runs below the segment |
| `ProcessMemory.ExpandIs` | Assignments/assignment2/entry.c:102-118 | the call returns where the new pages begin and moves next_free of its segment alone, or returns 0 and changes nothing |
| `ProcessMemory.ShrinkIs` | Assignments/assignment2/entry.c:120-139 | unless refused, next_free of its segment goes down by the whole size, and exactly the pages in between are unmapped and their frames free |
| `ProcessMemory.StepKeepsInv` | Assignments/assignment2/entry.c:102-139 | expand, shrink and faults keep next_free in range, mapped pages below it, and frames unshared and accounted for |
| `ProcessMemory.RunKeepsInv` | Assignments/assignment2/entry.c:102-139 | over every run, frames allocated minus frames freed equals pages mapped, and no frame is mapped twice |
| `ProcessCalls.PageHasFrame` | Assignments/assignment2/entry.c:212-221 | all addresses of a page lead to the same frame |
| `ProcessCalls.PagesAfterMap` | Assignments/assignment2/entry.c:225-230 | mapping makes exactly that page valid, on its own or a fresh frame, and leaves the translation of every other 48-bit page |
| `ProcessCalls.PagesAfterUnmap` | Assignments/assignment2/entry.c:40-72 | freeing unmaps exactly that page |
| `ProcessCalls.Context.Expand` | Assignments/assignment2/entry.c:102-118 | makes the expand step on the page tables in memory and keeps the invariant |
| `ProcessCalls.Context.PageFault` | Assignments/assignment2/entry.c:282-291 | makes the fault step; for the segment that covers the address, each entry that was missing on the walk is present, for user mode, and writable if and only if bit 1 of that segment's flags is set, and those that were there keep their word; the process exits, with nothing changed, if and only if none covers it: data up to next_free and not on a protection fault, rodata up to next_free, stack up to its end |
| `ProcessCalls.Context.ShrinkPages` | Assignments/assignment2/entry.c:133-137 | the loop unmaps exactly the pages between the new and the old next_free |
| `ProcessCalls.Context.Shrink` | Assignments/assignment2/entry.c:120-139 | makes the shrink step and keeps the invariant |
| `ContextMm.PreparedNothing` | Assignments/assignment1/context_mm.c:81-85 | a zeroed root is an address space without pages |
| `ContextMm.PreparedStep` | Assignments/assignment1/context_mm.c:87-91 | mapping a page adds exactly its missing tables, each for user mode and with the write flag of the first page that needed it |
| `ContextMm.PreparedHanded` | Assignments/assignment1/context_mm.c:93-94 | mapping a page on a frame handed over makes the frame part of the address space |
| `ContextMm.PreparedPages` | Assignments/assignment1/context_mm.c:70-97 | three pages mapped one after the other: programs may use them and no others, the entries on the walk to the first have its write flag, and so has the last entry of each |
| `ContextMm.RightsIff` | Assignments/assignment1/context_mm.c:13-33 | for three different pages, exactly when the write bits along a walk amount to the segment's own flag |
| `ContextMm.RightsRespected` | Assignments/assignment1/context_mm.c:70-97 | they do when the stack is writable and the segments are in different 1 GiB regions below 512 GiB |
| `ContextMm.PrepareReadOnlyData` | Assignments/assignment1/context_mm.c:70-97 | with a writable stack elsewhere, and read-only code and writable data in one 1 GiB region, the data page ends up read-only |
| `ContextMm.PrepareAdjacentSegments` | Assignments/assignment1/context_mm.c:70-97 | such a program: data right behind one page of code |
| `ContextMm.FreedAreFrames` | Assignments/assignment1/context_mm.c:143-176 | the frames freed are exactly those of the address space |
| `ContextMm.FreedOnceIff` | Assignments/assignment1/context_mm.c:143-176 | no frame is freed twice if and only if the three pages are different |
| `ContextMm.FreedLeavesBase` | Assignments/assignment1/context_mm.c:143-176 | what is left in use is what was in use by others |
| `ContextMm.Context.Prepare` | Assignments/assignment1/context_mm.c:70-97 | the top page of the stack and the first of code and data are mapped and nothing else, every entry on the way is for user mode and has the write flag of the first that needed it, and all frames taken since are its own, together with the one handed over if that got mapped |
| `ContextMm.Context.ExistInArray` | Assignments/assignment1/context_mm.c:99-106 | true exactly when the frame is in the list |
| `ContextMm.Context.AddPagesToArray` | Assignments/assignment1/context_mm.c:108-141 | the three tables above a page join the list once each, at most three more, and the page's frame is returned |
| `ContextMm.Context.Collect` | Assignments/assignment1/context_mm.c:161-165 | the list holds the tables of the three pages, at most 10 of its 16 places |
| `ContextMm.Context.Cleanup` | Assignments/assignment1/context_mm.c:143-176 | frees exactly the frames of the address space, each once if and only if the three pages are different, and leaves those of others |
| `Scheduler.NextOnlyCurrentRuns` | Assignments/assignment3/schedule.c:188-226 | each event keeps every context but the current one from running |
| `Scheduler.TickIs` | Assignments/assignment3/schedule.c:125-202 | a tick, context by context: the first sleeper that is due runs instead of the current one, which is ready then, or nobody changes; every other sleeper has a tick less; the alarm of the current one counts down or starts again |
| `Scheduler.ExitIs` | Assignments/assignment3/schedule.c:96-121 | an exit, context by context: the first ready one above the current runs, or the current stays; the machine goes down if and only if no context from 1 on but the current is in use; all others are as they were |
| `Scheduler.ExitedIs` | Assignments/assignment3/schedule.c:274-301 | the same for the whole table at once |
| `Scheduler.RunOnlyCurrentRuns` | Assignments/assignment3/schedule.c:40-52 | in every run no context but the current one is running |
| `Scheduler.TickWakesIff` | Assignments/assignment3/schedule.c:188-202 | a tick makes a waiting context current if and only if it has slept enough and no lower-numbered one has |
| `Scheduler.SleeperCounts` | Assignments/assignment3/schedule.c:125-140 | a sleeper waits with max(t - k, 0) left after k ticks until it wakes, in every interleaving |
| `Scheduler.SleeperResumes` | Assignments/assignment3/schedule.c:188-202 | it resumes on the first tick on which it wakes, at tick max(t, 1) at the earliest |
| `Scheduler.SleeperWaits` | Assignments/assignment3/schedule.c:304-312 | it is waiting as long as fewer than max(t, 1) ticks have passed |
| `Scheduler.ExitedRevivesIff` | Assignments/assignment3/schedule.c:196-202 | an exited context that is still current becomes ready again if and only if a sleeper has slept enough |
| `Scheduler.StrandedRevives` | Assignments/assignment3/schedule.c:274-301 | a process that exits with nothing ready above it while another is about to wake up is ready again after the next tick |
| `Scheduler.ExitedCanRevive` | Assignments/assignment3/schedule.c:274-301 | a state like that: process 1 runs and process 2 is asleep |
| `Scheduler.AlarmCounts` | Assignments/assignment3/schedule.c:173-186 | own ticks are t + 1 times the signals raised plus the ticks gone since the last |
| `Scheduler.AlarmRate` | Assignments/assignment3/schedule.c:422-429 | n own ticks raise SIGALRM exactly n / (t + 1) times, in every interleaving |
| `Kernels.Kernel.SleepAndAlarmAccount` | Assignments/assignment3/schedule.c:125-140 | every context but the current one has slept one tick more |
| `Kernels.Kernel.Ring` | Assignments/assignment3/schedule.c:173-186 | counts the current context's alarm down, or raises the signal and restarts it |
| `Kernels.Kernel.Scan` | Assignments/assignment3/schedule.c:96-109 | finds the lowest-numbered context wanted, from a number on |
| `Kernels.Kernel.ScheduleContext` | Assignments/assignment3/schedule.c:40-52 | the next context runs and is current |
| `Kernels.Kernel.HandleTimerTick` | Assignments/assignment3/schedule.c:169-202 | makes the tick step and reports SIGALRM exactly when the current context has an alarm period and its count is down |
| `Kernels.Kernel.DoExit` | Assignments/assignment3/schedule.c:274-301 | makes the exit step: the current context is unused, the first ready one above it runs if there is one, the machine goes down if and only if no other context from 1 on is in use, and nothing else changes |
| `Kernels.Kernel.DoSleep` | Assignments/assignment3/schedule.c:304-312 | makes the sleep step: the current context waits with its ticks, the swapper runs, and no other changes |
| `Kernels.Kernel.DoClone` | Assignments/assignment3/schedule.c:373-377 | makes the clone step: the new context is ready with no sleep and no alarm, and no other changes |
| `Kernels.Kernel.DoAlarm` | Assignments/assignment3/schedule.c:422-429 | makes the alarm step: count and period of the current context are set, and nothing else changes |
| `PipeView.SortIs` | gem5/util/o3-pipeview.py:154-169 | sorting orders by sequence number, keeps every instruction and the order of equal numbers |
| `PipeView.AfterConserves` | gem5/util/o3-pipeview.py:159-171 | whatever the order of arrival, what was taken out and what is queued is what arrived, and the queue holds at most max_threshold between arrivals |
| `PipeView.OutputInOrderIff` | gem5/util/o3-pipeview.py:47-52 | the output is the sorted input if and only if, at every flush, every instruction still to come has at most min_threshold larger-numbered ones before it |
| `PipeView.OutputInOrder` | gem5/util/o3-pipeview.py:47-52 | in particular if no instruction has more than min_threshold larger-numbered ones before it |
| `PipeView.OutputConserves` | gem5/util/o3-pipeview.py:146-149 | without that, nothing is lost or duplicated |
| `PipeView.PrintedIs` | gem5/util/o3-pipeview.py:167-188 | the same for the filtered output of any trace and any thresholds |
| `PipeView.Viewer.PrintInsts` | gem5/util/o3-pipeview.py:167-188 | the queue is sorted and all but the last threshold instructions are taken out, printed through the filter |
| `PipeView.Viewer.QueueInst` | gem5/util/o3-pipeview.py:159-164 | an instruction joins the queue; nothing is printed while the queue is below its limit, and at the limit it goes down to min_threshold |
| `PipeView.Viewer.ProcessTrace` | gem5/util/o3-pipeview.py:126-149 | an instruction is printed as often as it is in the trace if its sequence number and fetch tick are within the bounds that are set and it was retired where only such are wanted, otherwise never; by sequence number for traces that are on time |
| `Varint.DecodeIs` | gem5/util/protolib.py:101-129 | decoding an encoded number gives it back below 2^32, its low 32 bits below 2^63, those less 2^32 below 2^70, an error from there on, consuming exactly its bytes |
| `Varint.EncodedBytes` | gem5/util/protolib.py:146-158 | the high bit is set on every byte of an encoded number but the last, which is no needless zero |
| `Varint.ValueEncode` | gem5/util/protolib.py:146-158 | seven bits to a byte, the lowest first, the bytes make up the number |
| `Varint.SpanIs` | gem5/util/protolib.py:108-129 | a number ends at the first byte without the high bit, among the first ten; ten bytes with it are an error, fewer an end of file |
| `Varint.MessageIs` | gem5/util/protolib.py:131-144 | behind any encoded length, as many bytes are read as its low 32 bits say, or what is left if there are fewer; all that is left from 2^63 on; nothing for 0, nor from 2^70 on |
| `Varint.DecodeStream` | gem5/util/protolib.py:131-166 | a stream of encoded messages decodes to the messages up to the first empty one, and then stops |
| `Varint.StreamRoundTripIff` | gem5/util/protolib.py:131-166 | messages shorter than 2^32 bytes are read back exactly if and only if none is empty |
| `Varint.EmptyMessageIsLost` | gem5/util/protolib.py:131-166 | a stream of one empty message decodes to no message |
| `Varint.File.DecodeVarint32` | gem5/util/protolib.py:101-129 | the loop computes the number, end of file or the error, and moves the position past the bytes it used |
| `Varint.File.DecodeNext` | gem5/util/protolib.py:131-144 | reads the next message, none at end of file, on an error or for size 0, the rest of the file for a negative size |
| `Varint.File.EncodeVarint32` | gem5/util/protolib.py:146-158 | appends the encoded number |
| `Varint.File.EncodeNext` | gem5/util/protolib.py:160-166 | appends the length and the message |
| `Upgrader.Resolve` | gem5/util/cpt_upgrader.py:173-185 | adds the forward dependencies, and fails if and only if a tag is mentioned that does not exist |
| `Upgrader.ApplyAll` | gem5/util/cpt_upgrader.py:248-250 | one round applies each ready upgrade once, in any order, and no member of a set whose members wait for each other |
| `Upgrader.Migrate` | gem5/util/cpt_upgrader.py:240-252 | terminates; applies each missing upgrade once, after its dependencies, ending with all tags; aborts if and only if a nonempty set of missing upgrades each depends on a member; does nothing when nothing is missing |
| `Upgrader.Upgrade` | gem5/util/cpt_upgrader.py:159-252 | from the files alone: each upgrade applied comes after all that it is declared to come after, by its own file or by theirs, and all that are missing are applied unless some of them are declared to come after each other |
| `PortBinder.BoundIff` | gem5/configs/example/read_config.py:303-331 | the endpoints bound on a port are those with the lowest indices, at every moment |
| `PortBinder.BoundOnce` | gem5/configs/example/read_config.py:325-331 | no endpoint is bound twice |
| `PortBinder.CheckIff` | gem5/configs/example/read_config.py:333-336 | the final check passes if and only if every connection is bound in exactly one direction |
| `PortBinder.GreedyAhead` | gem5/configs/example/read_config.py:321-331 | on every port the binder is at least as far as any choice that keeps the order |
| `PortBinder.GreedyPassesIff` | gem5/configs/example/read_config.py:321-336 | the binder passes its check if and only if some choice in the order of the list binds every connection once and each port's indices in order |
| `PortBinder.StringLessIff` | gem5/configs/example/read_config.py:148-150 | names compare by the first character in which they differ |
| `PortBinder.ConnectionOrder` | gem5/configs/example/read_config.py:148-150 | connections are totally ordered by object, port and index of their two ends |
| `PortBinder.SortedCanFail` | gem5/configs/example/read_config.py:311-313 | for any four ports in order, a sorted list of connections on which the binder gives up although it binds all of them in another order |
| `PortBinder.SortedFails` | gem5/configs/example/read_config.py:311-313 | such a list with four ports named a, b, y and z |
| `PortBinder.BindPorts` | gem5/configs/example/read_config.py:290-336 | binds a connection exactly when both ports are ready for it, for any order of the list; lists the connections bound in that order, each once; passes the final check if and only if of every connection and its reverse exactly one is listed |

## Left out

- Reads and writes at offsets that are not multiples of 4096, with `read_indirect_helper`: the buffer is sized from the
  size alone and a pointer is read as a char, so the path has no meaning to preserve.
- Running out of blocks, frames or table slots: the source does not check for it and goes on with -1 as an index, so the
  model demands that there are enough.
- BlockDevices.BlockDevice.FreeDataBlock: the blocks listed on the disk must be within the bitmap, which the source
  indexes with them without a check.
- BlockDevices.BlockDevice.FreeIndirectBlocks: the same for each indirect block.
- ObjectStores.ObjectStore.Destroy: the same for the cached indirect blocks of the object; for the others it is proved.
- ObjectStores.ObjectStore.OpenIndirect: demands a free block for a missing indirect block.
- ObjectStores.ObjectStore.WriteEntry: demands a free block for a missing data block.
- ObjectStores.ObjectStore.WriteIndirectBlock: demands enough free blocks and a start within the entries in use.
- ObjectStores.ObjectStore.WriteThrough: demands enough free blocks.
- ObjectStores.ObjectStore.WriteChunk: demands enough free blocks, as the loop it is a turn of.
- ObjectStores.ObjectStore.Write: offsets beyond the end of the object and unaligned offsets are excluded, and enough
  free blocks are demanded; crossing and empty writes are not excluded.
- ObjectStores.ObjectStore.Read: unaligned offsets are excluded where there is something to read. The buffer is a
  sequence of blocks that is flattened at the end, not a byte array.
- ObjectStores.ObjectStore.Create: keys of 32 bytes or more are excluded: they lose their terminator and comparing them
  reads past the field.
- ObjectStores.ObjectStore.Rename: new names of exactly 32 bytes are excluded for the same reason.
- ObjectStores.ObjectStore.Perform: writes that do not fit, undetected duplicates and destroying objects with cached
  indirect blocks are excluded, because they break the store, as `WriteRightIff`, `RenameRightIff` and `DestroySafeIff`
  say.
- ObjectStores.ObjectStore.Unmount: the super object is saved as a value and not block by block in front of the data.
- ObjectStores.ObjectStore.Mount: the super object is taken from that value.
- ObjectStores.ObjectStore.Remount: says nothing about the blocks in front of the data.
- Mutexes and threads: the store is sequential.
- `read_block`, `write_block`, mmap and fstat: the disk is an array of blocks that never fails.
- FUSE plumbing (`objfs.c`, `gemfs.c`, `lib.c`) and the example store; `entry_pro.c`, which repeats `entry.c`.
- Assembly, register saving, interrupt acknowledgement and TLB invalidation; signal delivery beyond the fact that
  SIGALRM is raised.
- `os_pfn_alloc`, `os_pfn_free`, `osmap` and `get_new_ctx`: an allocator that hands out any unused frame of a region,
  identity access to frames, and any unused slot.
- Kernels.Kernel.Scan: the scan for a ready context stops at the end of the table, where the source runs past it.
- ProcessCalls.Context.PageFault: frames are demanded for the pages a fault maps.
- ProcessCalls.Context.ShrinkPages: sizes that would run below the segment are excluded.
- ProcessCalls.Context.Shrink: calls that would run below their segment are excluded; `ShrinkKeepsIff` says which
  they are.
- Expand and shrink calls with flags for neither segment, which dereference a null pointer.
- Trace parsing, timeline rendering and the call of `print_insts` with a missing argument when the viewer stops early.
- Varint.File.DecodeVarint32: bits are collected by addition; the bytes' bits do not overlap, so this is the `|` of the
  source.
- Downgraders, legacy version numbers, checkpoint contents and file handling of the upgrader.
- PortBinder.BindPorts: the sorting itself; the list may be in any order.
- All other gem5 configuration scripts and utilities, and Homeworks.
