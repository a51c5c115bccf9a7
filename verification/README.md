# Verified models of the extfs and fatfs handlers

This project models the parts of the CheviotOS file system handlers whose correctness is hardest to see from the code,
and proves what they promise.

* **extfs block map, allocator and file data** (`Words`, `ExtGeometry`, `ExtBitmap`, `BlockStore`, `BlockTree`,
  `ExtAlloc`, `ExtMapSpec`, `ExtVolume`, `ExtFileSpec`, `ExtFile`, `ExtRead`, `ExtRuns`, `ExtWitness`). The direct,
  single, double and triple indirect blocks of every inode live as arrays of words in the same store that the bitmap allocator hands out.
  `ExtVolume.Volume` is the mounted volume; its `Valid` says that the trees of all inodes are disjoint, that the bitmaps
  hold exactly metadata, padding and blocks in use, and that the counters are right. Every step keeps it. An inode's tree
  refines a finite map from file block index to block number, and a file's blocks refine a sequence of bytes.
* **fatfs sector cache** (`CacheSpec`, `SectorCache`). Hash chains, LRU list, free list, dirty list, eviction, write-back
  and write-through. The cache shows one flat disk, whatever is evicted, and holds exactly the most recently accessed
  sectors.
* **fatfs cluster chains and file data** (`FatSpec`, `FatChain`, `FatVolume`, `FatFileSpec`, `FatFile`, `FatRuns`), on
  top of the sector cache: the packed FAT12 and FAT16 entries, chains, appending and freeing, reading and writing of
  files.
* **extfs directories** (`DirSpec`, `DirListing`, `DirRoom`, `ExtDirectory`, `ExtDirents`, `DirRuns`). Records tile a
  block's bytes; entering, deleting, looking up and listing act on the sequence of entries those bytes hold.
* **extfs inode cache and inode allocation** (`InodeSpec`, `InodeCache`, `InodeRuns`, `InodeGroups`).

Objects that the source updates in place are classes over arrays; their methods are proved against functions on
snapshots of the state, about which the lemmas are. Pointers to records in a table are indices, linked lists are
sequences of indices, and what a list or a search needs to be right is part of the class's invariant. Ghost parameters
and fields (a file's chain, who owns a block, which blocks a caller holds) only serve the statements.

Readings of the source that the model takes:

* `extfs/block.c:352` stores its dummy in slot 9 of an array of four; the model stores it in slot 0.
* `extfs/block.c:515` and `:536` do not use the goal they compute, so the lowest free block is allocated.
* `calc_block_indirection_offsets` takes a 32-bit position, and `sb_block_size` is a 16-bit variable, so block sizes from
  64 KiB on become 0 and are turned away.
* `delete_map_entry` subtracts from `i_blocks` even where nothing was mapped, and `enter_map_entry` adds even where a
  mapped position is overwritten; the contracts say exactly when `i_blocks` stays right, and `ExtWitness` has a volume on
  which each goes wrong.
* `extfs/read.c:53` clamps a chunk to the whole request, so a read can send up to a block too much; `ExtRead.ReadExact`
  says exactly when it does not, and `ExtRead.SentTooMuch` is a read that does.
* `extfs/dir_enter.c:60-61` reports that there is no room rather than extend the directory.
* `extfs/dir.c:258-274` lets an empty stored name match everything; names are not empty here.
* `FindFreeCluster` searches cluster numbers below the cluster count, so the two highest clusters are never allocated;
  `FatVolume.FreeNotFound` is a table on which it fails with a free cluster left.

Everything is little-endian. `readmsg` and `writemsg` copy what they are asked to. The block cache library is a flat
store of blocks in which a block fetched with BLK_CLEAR comes back zero-filled. The medium below the sector cache is a
sequence of sectors.

## Model

| member | source | states |
|---|---|---|
| ExtBitmap.AllocBit | extfs/bitmap.c:20-36 | the lowest clear bit from the start word on is found and set, and nothing else changes; -1 exactly when there is none |
| ExtBitmap.ReleaseBit | extfs/bitmap.c:45-59 | clears a set bit and no other, and reports a bit that is clear already |
| ExtBitmap.FullWordHasNoFreeBit | extfs/bitmap.c:23-25 | skipping a word of all ones skips no clear bit |
| ExtBitmap.BitInWord | extfs/bitmap.c:27-28 | bit k is the bit of weight 2^(k % 32) in word k / 32, for testing, setting and clearing |
| ExtBitmap.WithBitFree | extfs/bitmap.c:28-31 | setting a clear bit takes exactly that one out of the free bits |
| ExtBitmap.WithoutBitFree | extfs/bitmap.c:50-58 | clearing a set bit adds exactly that one to the free bits |
| ExtBitmap.AllocThenClear | extfs/bitmap.c:20-59 | allocating a bit and clearing it restores every word |
| ExtGeometry.ReadGeometry | extfs/superblock.c:46-63 | the superblock is accepted exactly for the right magic and a block size of 1 to 32 KiB; a block has blockSize / 512 sectors and blockSize / 4 addresses, from which the bounds of the single, double and triple indirect blocks follow |
| ExtGeometry.BlockSizeWraps | extfs/superblock.c:51-55 | larger block sizes are 0 in the 16-bit variable |
| ExtGeometry.OffsetsAccepted | extfs/block.c:293-336 | no position is rejected, in spite of the placeholder bound, and the offsets are those of a data block's path, so every index is in range |
| ExtGeometry.IndexOfLeafPath | extfs/block.c:308-333 | the file block index can be computed back from the offsets |
| ExtGeometry.OffsetsInjective | extfs/block.c:293-336 | two positions get the same offsets exactly when they lie in the same file block |
| ExtGeometry.PathOfIndex | extfs/block.c:308-333 | the offsets computed for the index of a path are that path |
| ExtGeometry.OffsetsSurjective | extfs/block.c:293-336 | every path that reaches an accepted block index comes from a position |
| BlockStore.Store.WriteWord | extfs/block.c:439-447 | one word of one block changes |
| BlockStore.Store.Clear | extfs/block.c:45 | a block fetched with BLK_CLEAR is zero, other blocks as before |
| BlockStore.Store.CopyIn | extfs/write.c:129-131 | the message's bytes replace those at the offset in one block |
| BlockStore.WithBytesAt | extfs/write.c:129-131 | byte by byte, copied bytes are the message's and the rest of the block is as before |
| BlockStore.WordInBytes | extfs/block.c:423-447 | a word of a block is four of its bytes, the least significant first |
| BlockTree.Disjoint | extfs/block.c:61-88 | no block is reached along two paths, of one inode or of two |
| BlockTree.PutValid | extfs/block.c:139-168 | writing one slot of an indirect block keeps all trees disjoint and changes the entry at that path only |
| BlockTree.RootValid | extfs/block.c:114-136 | so does assigning a slot of the inode's own block array |
| BlockTree.FrameValid | extfs/block.c:129-131 | writes to blocks in no tree change no tree |
| ExtAlloc.GroupsCover | extfs/superblock.c:89 | the group count is the one number of groups that covers the volume with none to spare |
| ExtAlloc.BitFlipped | extfs/block.c:484-608 | taking or giving back a block keeps bitmaps, group counters and the superblock's sum in agreement with the blocks in use |
| ExtAlloc.BitmapOnDisk | extfs/block.c:564-608 | a block's bit, by number in its group's bitmap block, is set exactly for metadata and blocks in use |
| ExtAlloc.FreeZero | extfs/block.c:494-496 | the superblock's count is 0 exactly when no block is free |
| ExtAlloc.LowestFree | extfs/block.c:514-549 | the lowest clear bit of the first group that counts a free block is the lowest free block of the volume |
| ExtAlloc.NotSystem | extfs/block.c:616-632 | no block that is handed out or given back trips check_block_number |
| ExtAlloc.UsedBlockBit | extfs/block.c:581-598 | the bit of a block in use is set, and its number in range, so freeing it cannot panic |
| ExtAlloc.TakeLowest | extfs/block.c:514-549 | taking the lowest clear bit of the first group that counts a free block takes the lowest free block, trips no check and keeps the books |
| ExtAlloc.GiveBack | extfs/block.c:573-608 | giving back a block in use finds its bit set, trips no check and keeps the books |
| ExtAlloc.AllocThenFree | extfs/block.c:484-608 | taking a block and giving it back, each with its whole effect on the store and the group descriptors, restores both |
| ExtVolume.Volume.AllocBlock | extfs/block.c:484-566 | NO_BLOCK exactly when no block is free, else the lowest free block; one bit of one bitmap and one group's counter change and nothing else on disk; no panic is reached, all maps stay |
| ExtVolume.Volume.FreeBlock | extfs/block.c:573-608 | a block in the caller's hands returns to the free ones, counted; its bit and its group's counter change and nothing else on disk; no panic is reached, all maps stay |
| ExtVolume.Volume.TakeAndGive | extfs/block.c:484-608 | a block allocated and freed at once leaves every block of the store, every counter and the superblock's count as they were |
| ExtVolume.Volume.AllocCleared | extfs/block.c:125-133 | a fresh indirect block is free of entries and belongs to nobody else |
| ExtVolume.Volume.ReadMapEntry | extfs/block.c:61-88 | the block number the inode's map has at the position, NO_BLOCK when it has none |
| ExtVolume.Volume.EnsureTop | extfs/block.c:122-137 | the top indirect block is there afterwards, empty if it is new, or the free blocks had run out and nothing changed |
| ExtVolume.Volume.EnsureNext | extfs/block.c:139-161 | the same one level further down |
| ExtVolume.Volume.Descend | extfs/block.c:122-161 | the whole way down: the indirect blocks missing on the path are supplied and charged, or the free blocks ran out part way |
| ExtVolume.Volume.EnterMapEntry | extfs/block.c:98-171 | on success exactly the position's key is set, for as many free blocks as indirect blocks were missing; -ENOSPC exactly when those outnumber the free blocks, and then no key changes; i_blocks goes up by blockSize / 512 for each block linked, and stays right exactly when the position was not mapped |
| ExtVolume.Volume.LinkNew | extfs/block.c:38-42 | entering a held block, or giving it back when that fails |
| ExtVolume.Volume.MapNew | extfs/block.c:31-43 | a block is allocated and mapped, or nothing of any map changes and there was no room for it |
| ExtVolume.Volume.BlockFor | extfs/block.c:24-43 | a mapped position keeps its block and costs nothing; a hole is mapped to a block nobody used, for exactly the data block and the indirect blocks missing, and is refused exactly when fewer are free |
| ExtVolume.Volume.NewBlock | extfs/block.c:24-50 | the same, and the block comes back zero-filled with no other data block changed |
| ExtVolume.Volume.CostAtMost | extfs/block.c:24-43 | mapping a position takes four free blocks at most |
| ExtVolume.Volume.IsEmptyIndirectBlock | extfs/block.c:455-464 | true exactly when all slots are NO_BLOCK |
| ExtVolume.Volume.GetIndirectBlocks | extfs/block.c:347-370 | the indirect blocks on the path as far as they are there, and how many |
| ExtVolume.Volume.Ascend | extfs/block.c:244-280 | on the way up exactly the indirect blocks that emptied are unlinked, freed and taken off i_blocks |
| ExtVolume.Volume.DeleteMapEntry | extfs/block.c:191-283 | exactly the position's key goes and the data block becomes the caller's; the indirect blocks that go are those emptied; i_blocks goes down by blockSize / 512 for each of them and for the slot, and stays right exactly when the position was mapped or its slot did not exist; no empty indirect block is left where there was none |
| ExtMapSpec.ExtendsFileMap | extfs/block.c:98-171 | whatever indirect blocks were supplied on a path, the inodes' maps differ in one key at most |
| ExtMapSpec.MapOnDisk | extfs/block.c:61-88 | a file block's number is found in the inode's block array, or through one, two or three levels of indirect blocks, by the words of those blocks |
| ExtMapSpec.PrunedFileMap | extfs/block.c:191-283 | whatever indirect blocks were pruned above it, the inodes' maps lose the one key |
| ExtMapSpec.ExtendsKeepsNoEmpty | extfs/block.c:98-171 | entering leaves no indirect block empty |
| ExtMapSpec.PrunedKeepsNoEmpty | extfs/block.c:244-280 | deleting leaves no indirect block empty |
| ExtMapSpec.EnterAccounts | extfs/block.c:116-170 | i_blocks is still the sectors of the inode's blocks exactly when no mapped position was overwritten, on -ENOSPC exits too |
| ExtVolume.Volume.AccountedIs | extfs/block.c:116-168 | i_blocks is right when it is blockSize / 512 times the number of the inode's data and indirect blocks, in 32 bits |
| ExtMapSpec.DeleteAccounts | extfs/block.c:211-280 | i_blocks is still right exactly when a block was mapped at the position or an indirect block above it was missing |
| ExtMapSpec.PruneStep | extfs/block.c:248-273 | one round of the ascent keeps what it knows: the levels below are pruned as they should be |
| ExtFileSpec.MapsDisjoint | extfs/block.c:61-88 | no block belongs to two files or to two places of one |
| ExtFileSpec.FileByteInStore | extfs/read.c:42-110 | a file's byte is byte position % blockSize of the block mapped there, and 0 in a hole |
| ExtFileSpec.ChunkWritten | extfs/write.c:112-131 | bytes put into a prepared block are the file's bytes there, and no other byte of any file differs |
| ExtFileSpec.RestPastEnd | extfs/write.c:120-121 | a block at or past the end of the file may be cleared instead of read, as its mapped bytes are zero |
| ExtFileSpec.RestOfWhole | extfs/write.c:118-119 | a block about to be overwritten whole may be cleared instead of read |
| ExtFileSpec.RestOfHole | extfs/write.c:112-116 | a hole reads as zero, as a new block does |
| ExtFileSpec.WrittenContents | extfs/write.c:53-75 | byte-wise effects and the new size make up the old contents, zero-extended, with the data over them |
| ExtFile.WriteChunk | extfs/write.c:101-139 | the chunk replaces those bytes of the file and no other byte of any file; -EIO exactly when the position is a hole without room, and then no byte changes |
| ExtFile.WriteChunks | extfs/write.c:49-69 | the loop has written the bytes before the first that found no room |
| ExtFile.TouchedIs | extfs/write.c:49-69 | the loop goes round once for each file block the bytes lie in |
| ExtFile.WriteFile | extfs/write.c:24-87 | -EINVAL and -EFBIG exactly when they should be, -EIO only when a position finds no room, which takes fewer free blocks than four for each file block touched; otherwise the file is its old contents, zero-extended to the position, with the data over them, other files, all accounts and the zero bytes past the end are kept |
| ExtRead.ReadNonexistentBlock | extfs/read.c:136-157 | exactly that many zero bytes |
| ExtRead.ReadChunk | extfs/read.c:103-127 | the file's bytes, zero in a hole |
| ExtRead.ReadFile | extfs/read.c:23-90 | the file's bytes from the position on, never past its end, as many as the clamping gives |
| ExtRead.ReadExact | extfs/read.c:50-75 | as many bytes as asked for are sent exactly when the request stays in one block, ends on a block boundary or reaches the end of the file |
| ExtRead.SentTooMuch | extfs/read.c:53 | a read of 100 bytes across a block boundary that sends 124 |
| ExtRead.ReadOvershoot | extfs/read.c:50-75 | never fewer than asked for, and less than a block more |
| ExtRead.ReadBack | extfs/write.c:24-87 | a read where a write put its data returns that data first |
| ExtRuns.Run | extfs/write.c:24-87 | any sequence of write and read requests acts as on plain byte sequences, keeping the volume, accounts and tails in order; a write is cut short only as the free blocks run out, and none is in a run that starts with enough |
| ExtRuns.AllAgree | extfs/write.c:24-87 | with four free blocks for each file block that the requests of a run touch, no write of it fails for want of room |
| ExtRuns.MapRun | extfs/block.c:24-283 | any sequence of mapping, removing and looking up acts as on finite maps, with every i_blocks right at the end; mapped positions keep their blocks, new blocks are in no map, and a hole is refused one only with fewer than four blocks free |
| ExtRuns.NoneRefused | extfs/block.c:24-50 | a run that starts with four free blocks for each block asked for is refused none |
| ExtWitness.Mount | extfs/superblock.c:46-63 | a small volume of six blocks that is in order |
| ExtWitness.DeleteHole | extfs/block.c:191-283 | deleting at a hole of that volume leaves a wrong i_blocks |
| ExtWitness.EnterTwice | extfs/block.c:98-171 | entering a second block at a mapped position of that volume leaves a wrong i_blocks |
| CacheSpec.LruStep | fatfs/sector.c:310-350 | moving or adding a sector at the front, and dropping the last when full, keeps the most recently accessed sectors |
| CacheSpec.RecentOrder | fatfs/sector.c:310-350 | those are the distinct sectors accessed, in the order of their last accesses |
| CacheSpec.TouchedOk | fatfs/sector.c:366-372 | a hit keeps lists, chains and contents in order and shows the same disk |
| CacheSpec.EvictedOk | fatfs/sector.c:332-339 | giving up a clean buffer does too |
| CacheSpec.InstalledOk | fatfs/sector.c:342-355 | so does reading a sector into a free buffer |
| CacheSpec.FlushedOk | fatfs/sector.c:319-329 | so does writing a dirty buffer out |
| CacheSpec.ScribbledOk | fatfs/sector.c:253-260 | a write to a buffer changes the disk shown at its sector only |
| CacheSpec.CleanDisk | fatfs/sector.c:136-147 | with no dirty buffer, or in write-through mode, the medium is the disk shown |
| SectorCache.CreateCache | fatfs/sector.c:64-118 | NULL exactly for no buffers or too small a block size, else an empty cache in order that shows the medium |
| SectorCache.Cache.FindInChain | fatfs/sector.c:291-302 | the walk along a hash chain finds the sector's buffer exactly when there is one |
| SectorCache.Cache.Evict | fatfs/sector.c:308-339 | the least recently used buffer goes, written out if dirty; the disk shown does not change |
| SectorCache.Cache.BufGetBlock | fatfs/sector.c:280-374 | the buffer of the sector with the contents the cache shows; the disk shown does not change, and the cache holds the most recently accessed sectors |
| SectorCache.Cache.BufPutBlock | fatfs/sector.c:388-452 | a written buffer is marked dirty, or written out at once, and everything is in order again |
| SectorCache.Cache.BufReadBlocks | fatfs/sector.c:185-222 | the bytes of the flat disk, which does not change |
| SectorCache.Cache.BufWriteBlocks | fatfs/sector.c:227-275 | the flat disk with those bytes replaced |
| SectorCache.Cache.SyncCache | fatfs/sector.c:136-147 | no buffer is dirty, the dirty list is empty and the medium is the disk shown, which has not changed |
| SectorCache.Cache.NeverBehind | fatfs/sector.c:435-447 | with a write-back delay of 0 the medium always is the disk shown |
| SectorCache.Run | fatfs/sector.c:136-275 | any sequence of reads, writes and syncs acts as on a plain array of bytes |
| FatSpec.CodecRoundTrip | fatfs/cluster.c:56-69 | a value survives writing and reading exactly when it is an end mark, a bad mark or below the bad mark |
| FatSpec.PutRawOne | fatfs/cluster.c:146-151 | a written entry reads back and every other entry reads as before, though FAT12 entries share bytes |
| FatSpec.PutInCopy | fatfs/cluster.c:136-154 | writing one copy changes that copy's entry and nothing else on the disk |
| FatSpec.EntryAfterPut | fatfs/cluster.c:117-175 | after a write the entry reads as its value, normalised, and every other as before, in every copy |
| FatSpec.CopiesStillAgree | fatfs/cluster.c:126-175 | identical copies of the table stay identical |
| FatSpec.ClustersApart | fatfs/cluster.c:493-500 | clusters do not overlap on the disk |
| FatSpec.ClusterInside | fatfs/cluster.c:493-500 | a cluster lies behind the tables and on the disk |
| FatVolume.FirstClusterRoundTrip | fatfs/cluster.c:339-404 | a first cluster that is set reads back exactly when it fits an entry |
| FatVolume.Volume.ReadFATEntry | fatfs/cluster.c:36-87 | from the disk's bytes: in FAT16 the 16 bits at 2c, in FAT12 12 bits at one and a half times c of the first copy, FFF8 (FF8) and up read as end of chain and FFF7 (FF7) as bad, wherever they straddle sectors; that is entry c of the table |
| FatVolume.Volume.WriteFATEntry | fatfs/cluster.c:117-175 | those bits of every copy hold the value, and no other bit of the disk changes; the table reads as before but for that entry |
| FatVolume.Volume.FindLastCluster | fatfs/cluster.c:245-275 | the chain's last cluster, from any valid hint, and the hint stays valid |
| FatVolume.Volume.FindCluster | fatfs/cluster.c:277-332 | the chain's cluster at the position, an error exactly past its end |
| FatVolume.Volume.FindFreeCluster | fatfs/cluster.c:410-458 | the first free cluster from the start of the search on, or from 2 on when there is none, now an end of chain; failure exactly when none of those searched is free |
| FatVolume.LastTwoNotSearched | fatfs/cluster.c:410-458 | it fails exactly when no cluster but the two highest is free |
| FatVolume.FreeNotFound | fatfs/cluster.c:410-458 | a table with a free cluster on which it fails |
| FatVolume.NumFreeAppended | fatfs/cluster.c:216-236 | appending takes exactly one from the free clusters |
| FatVolume.Volume.AppendCluster | fatfs/cluster.c:216-236 | the chain grows by one cluster that was free and the hint stays valid, and copies of the table that agreed still do; failure exactly when none of those searched is free, and nothing changes |
| FatVolume.Volume.FreeClusters | fatfs/cluster.c:468-487 | ends on every table, even with links in a circle, and frees exactly the clusters met; copies of the table that agreed still do |
| FatChain.ChainAppend | fatfs/cluster.c:216-236 | a free cluster linked to the last makes a longer chain |
| FatChain.ChainKept | fatfs/cluster.c:216-236 | a chain none of whose entries changes stays a chain |
| FatChain.ChainUnique | fatfs/cluster.c:277-332 | a first cluster has one chain |
| FatChain.CompleteIsReachable | fatfs/cluster.c:468-487 | the clusters freed are exactly those reachable from the first |
| FatChain.TrailOfChain | fatfs/cluster.c:468-487 | from the first cluster of a chain exactly the chain is freed |
| FatFileSpec.SameSector | fatfs/file.c:68-77 | a transfer within a sector stays within a cluster |
| FatFileSpec.DataSector | fatfs/file.c:68-71 | the sector and offset computed are those of the cluster's byte |
| FatFileSpec.FileByteOnDisk | fatfs/cluster.c:493-529 | a file's byte is that of the disk at its offset in its cluster, clusters counted from 2 at the first data sector |
| FatFileSpec.WriteInFile | fatfs/file.c:134-144 | bytes written in one sector are the file's there; nothing else of it, of the table or of other files in use differs |
| FatFileSpec.OtherFileKept | fatfs/file.c:98-160 | a file with other clusters keeps its chain and bytes |
| FatFile.ReadFile | fatfs/file.c:39-93 | the file's bytes from the offset on, up to its size and its clusters |
| FatFile.FindOrAppend | fatfs/file.c:129-132 | ends, with the position's cluster or with none left of the clusters searched; each pass lengthens the chain by a free cluster |
| FatFile.WriteFile | fatfs/file.c:125-159 | a complete write leaves the old contents with the data over them; a short one has filled the file's clusters and left none free of those searched; the chain gets no more clusters than the data reach, each from the free ones |
| FatFile.OthersKept | fatfs/file.c:125-159 | every other file keeps chain and bytes, and stays apart from this one |
| FatRuns.Run | fatfs/file.c:39-160 | any sequence of reads and writes of several files acts as on plain byte sequences; a write is cut short only as the free clusters run out, and none is in a run that starts with a free cluster for each its data fill |
| FatRuns.NoneShort | fatfs/file.c:125-159 | with that many free clusters at the start every write of the run is complete |
| FatRuns.WriteGrowth | fatfs/file.c:125-144 | a write adds no more clusters than its data fill, and fewer if it is cut short |
| FatFile.ReadsBack | fatfs/file.c:39-160 | a read after a complete write returns the spliced bytes |
| DirSpec.TiledAppend | extfs/ext2.h:221-227 | records that tile two stretches tile both end to end, and the entries are those of the one and the other |
| DirSpec.CutRecord | extfs/ext2.h:224 | stepping over a record leads to the next, and accounts for its entry |
| DirSpec.ShrinkIsGap | extfs/dir_enter.c:182-193 | shrinking a record in use opens a gap and loses no entry |
| DirSpec.GapFilled | extfs/dir_enter.c:132-138 | a record written into a gap adds its entry, and the block is tiled again |
| DirSpec.Merged | extfs/dir_delete.c:117-121 | merging a record into the one before loses its entry only, and only a first record is ever free |
| DirSpec.FirstFreed | extfs/dir_delete.c:108-121 | freeing a block's first record loses its entry only |
| DirSpec.ListedBytes | extfs/ext2.h:504-511 | a listed entry's inode number, name length and name are the bytes of the record at its place |
| ExtDirectory.StrcmpNz | extfs/dir.c:254-275 | 0 exactly for equal names or an empty stored name |
| ExtDirectory.ShrinkDirEntry | extfs/dir_enter.c:182-193 | the space the record has to spare becomes a gap |
| ExtDirectory.FindDirentFreeSpace | extfs/dir_enter.c:73-105 | a gap of the required size exactly when some record has room, with all entries kept; otherwise nothing changes |
| ExtDirectory.EnterDirent | extfs/dir_enter.c:119-152 | the gap holds the record, byte for byte, with its type if types are kept; the block is tiled and all other entries are kept |
| ExtDirectory.DeleteDirEntry | extfs/dir_delete.c:99-124 | that record's entry goes and no other, the block is tiled, and a long enough name ends with the inode number |
| ExtDirectory.ScribbleIno | extfs/dir_delete.c:102-106 | the inode number goes to the end of a long enough name and nothing else changes |
| ExtDirectory.SearchBlockAndDelete | extfs/dir_delete.c:67-88 | the block's first entry of that name goes, if there is one |
| ExtDirectory.LookupDirBlock | extfs/dir_lookup.c:66-83 | the inode number of the block's first entry of that name |
| ExtDirectory.Directory.DirentEnter | extfs/dir_enter.c:27-62 | the record is there, byte for byte, with its type if types are kept; the entry is put in and all others keep name, number and place; -ENOENT exactly when no record of any block has room |
| ExtDirectory.Directory.DirentDelete | extfs/dir_delete.c:25-57 | the first entry of that name goes and all others keep name, number and place; -ENOENT exactly when there is none |
| ExtDirectory.Directory.LookupDir | extfs/dir_lookup.c:27-55 | the inode number of the first entry of that name, -ENOENT exactly when there is none |
| DirListing.InsertedMap | extfs/dir_enter.c:27-62 | entering an absent name adds that name to the map from names to inode numbers and changes no other |
| DirListing.DroppedMap | extfs/dir_delete.c:25-57 | deleting a name removes it from the map and changes no other |
| DirListing.NameMap | extfs/dir_lookup.c:27-55 | the map's answer is the first entry's, which lookup returns |
| DirListing.StaysListed | extfs/dir.c:127-131 | an entry keeps its place while others are entered and deleted |
| DirRoom.SlotsRoom | extfs/dir_enter.c:73-105 | there is a place for a record of some size, counted between the entries, exactly when some record of some block has room for it |
| DirRoom.EnteredSlots | extfs/dir_enter.c:119-152 | entering a name takes one place at most |
| DirRoom.DeletedSlots | extfs/dir_delete.c:99-124 | deleting a name takes no place away |
| DirRuns.CreateEntry | extfs/inode.c:45-57 | a name that is there is turned away and any other is entered, its record with the type asked for; it fails for want of room exactly when no record of the directory has any |
| DirRuns.Run | extfs/dir_enter.c:27-62 | any sequence of creations, deletions and lookups acts as on a map from names to inode numbers; a creation is refused for want of room exactly when no record has any |
| DirRuns.NoneRefused | extfs/dir_enter.c:27-62 | a run that starts with a place for each name it creates is refused none for want of room |
| ExtDirents.DirentBuf.Add | extfs/dir.c:208-233 | the entry is added exactly when its rounded record fits, and the bytes used are those the entries take |
| ExtDirents.SeekToValidDirent | extfs/dir.c:132-162 | the record that holds the position; there always is one |
| ExtDirents.FillDirentBuf | extfs/dir.c:168-190 | the entries from the record on, in order, up to the first that does not fit |
| ExtDirents.GetDirents | extfs/dir.c:23-95 | exactly the entries from the record that holds the cookie up to the new cookie, and the number of bytes they take, each rounded up to 8; it stops short of the end only at an entry that does not fit, and moves on when the buffer could hold the longest name |
| ExtDirents.ListAll | extfs/dir.c:23-95 | calls one after the other on an unchanged directory list every entry once and in order |
| ExtDirents.NothingMissed | extfs/dir.c:127-131 | with entries coming and going between the calls, one that is there all along is listed |
| InodeSpec.TakenOk | extfs/inode_cache.c:82-88 | another reference keeps the cache in order and counts for that inode only |
| InodeSpec.DroppedOk | extfs/inode_cache.c:99-103 | giving up an unused slot loses no update |
| InodeSpec.LoadedOk | extfs/inode_cache.c:105-116 | a slot loaded from disk shows the same inodes |
| InodeSpec.ReleasedOk | extfs/inode_cache.c:161-179 | a reference given back counts for that inode only, and the unused list holds the slots nobody refers to |
| InodeSpec.DiscardedOk | extfs/inode_cache.c:174-177 | an emptied slot is on no chain and the first to be used again |
| InodeCache.Cache.constructor | extfs/inode_cache.c:21-38 | an empty cache in order that shows the table on disk |
| InodeCache.Cache.FindInode | extfs/inode_cache.c:127-144 | the slot of a cached inode, which there is one of at most |
| InodeCache.Cache.GetInode | extfs/inode_cache.c:73-117 | one more reference to the inode as the cache shows it, no inode shown changes; NULL exactly when it is not cached and every slot is referred to; the slot used is the one that holds the inode or the first unused one, and it alone leaves the unused list |
| InodeCache.Cache.PutInode | extfs/inode_cache.c:151-186 | one reference less, and what the slot held is on disk; only the last reference to an inode without links changes what is shown, by clearing its mode |
| InodeCache.Cache.WriteInode | extfs/inode_cache.c:275-322 | the slot's inode is on disk and the slot clean |
| InodeRuns.AllTaken | extfs/inode_cache.c:94-97 | every slot is referred to exactly when as many inodes are referred to as there are slots |
| InodeRuns.Run | extfs/inode_cache.c:73-186 | any sequence of get_inode, changes by holders and put_inode acts as on a table of inodes with counts of references; get_inode is refused exactly when nobody refers to the inode yet and 64 others are referred to; what nobody refers to is on disk |
| InodeGroups.InodeTaken | extfs/inode.c:181-204 | setting a clear bit takes one from the group's count and from the sum, and no other count is wrong |
| InodeGroups.InodesApart | extfs/inode_cache.c:245-250 | inodes of a group share no byte on disk and none straddles two blocks |
| InodeGroups.InodePlace | extfs/inode_cache.c:245-250 | block and offset name the byte at the inode's index in the table |
| InodeGroups.SomeFit | extfs/inode.c:287-306 | if there is a free inode, some group has at least the average |
| InodeGroups.InodeAllocator.FindFreeInodeDirGroup | extfs/inode.c:278-315 | NO_GROUP exactly when no inode is free, else of the groups with a free inode and no fewer than the average the one with the most free blocks, and of several the first from the start of the search on |
| InodeGroups.InodeAllocator.AllocInodeBit | extfs/inode.c:160-220 | the lowest free inode of the group, with bitmap and counters brought up to date; no panic is reached |
| InodeGroups.InodeAllocator.AllocDirInode | extfs/inode.c:88-102 | failure exactly when no inode is free, and then nothing changes; else the lowest free inode of a group with no fewer than the average and the most free blocks of such, which counts one free inode less and one directory more, as do the totals |

## Left out

- ExtFile.WriteFile: requests of more than MAX_FILE_POS bytes, for which the source's unsigned subtraction at extfs/write.c:44 wraps around, are excluded; write_inode and the time stamps are not part of the contract. The source looks the inode up in the inode cache only, so -EINVAL there also answers an inode that exists and is not cached; the model's inode table is that of the cached inodes.
- ExtVolume.Volume.EnterMapEntry: buffer pin counts, which the -ENOSPC exit at extfs/block.c:146-148 leaves too high, are not modelled; nor is the order in which blocks reach the disk.
- ExtVolume.Volume.AllocBlock: the goal and the random number behind it are left out, as they do not reach the search.
- ExtGeometry.ReadGeometry: models the block size, not the inode size checks or the reading of the group descriptors. A shift by 32 or more, which C leaves undefined, is taken to be the mathematical power here.
- ExtGeometry.BlockSizeWraps: like ReadGeometry, says nothing of what a machine does with a shift count of 32 or more.
- SectorCache.Cache.BufPutBlock: BUF_ONESHOT, and BUF_IMMED with writethru_critical 0, are left out; so are writes without a source and InvalidateCache, which leaves the dirty list stale.
- SectorCache.CreateCache: block sizes other than 512, which nothing uses, and the failure of malloc are left out.
- FatFile.WriteFile: does not cover an offset past the end of the file (fatfs/file.c:110-122); FlushDirent, which writes the node's directory entry into its parent, is not modelled.
- FatVolume.Volume.FreeClusters: is for tables none of whose links leads past the table; the source would read whatever lies behind it.
- FatRuns.Run: a write past the end of a file is made at its end, as FatFile.WriteFile does not cover the gap.
- FatVolume.Volume.FindCluster: is for files other than the root directory, which is no chain on FAT12 and FAT16.
- FatVolume.Volume.WriteFATEntry: FAT32, whose reader and writer disagree on an entry's place (fatfs/cluster.c:90 and :186), is left out.
- ExtDirectory.Directory.DirentEnter: extend_directory is never called by the source; the mapping from mode bits to a record's type byte is the caller's.
- ExtDirectory.ScribbleIno: takes the size of ino_t to be 4.
- ExtDirents.GetDirents: the layout of struct dirent is a parameter, the offset of its name.
- DirRuns.CreateEntry: models new_inode's use of the directory; the inode that is allocated in between, and given back when there is no room, is the caller's number here.
- InodeCache.Cache.PutInode: free_inode_bit is left out of freeing an inode (extfs/inode.c:252 passes the inode number where the bit is meant); truncate_inode does nothing in the source. Time stamps and i_update are left out, and the file system is not read-only.
- InodeCache.Cache.GetInode: inode numbers are below 2^31, where the source's conversion to int before taking the hash is harmless.
- InodeGroups.InodeAllocator.AllocInodeBit: is for groups that count a free inode; find_free_inode_file_group, which tests the parent's group where the group at hand is meant, is not modelled.
- Links between directory blocks and the block map: the directory is given its blocks' buffers in order, as get_dir_block would fetch them.
- Message ports, event loops, mounting, argument parsing, logging, devfs and ifs.
- truncate, rename, mkdir, formatting, and the creation of FAT files.
- The conversion between file names and FAT directory entry names.
