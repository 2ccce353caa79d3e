# Storage structures behind a phone's flash, verified

The program reads a phone's flash over a framed USB protocol and mounts FAT and ext4 file
systems on it. This project models the on-disk structures and the read path in Dafny and proves
what they are for. `dafny verify dfyconfig.toml` checks everything.

- **Directory index** (`HTree*.dfy`, `LeafSplit.dfy`, `CombSort.dfy`): a two-level hash index over
  directory leaves. Index nodes and leaves are values in a map from block numbers; `HTreeFlat`
  flattens the index to one list of keys, `HTreeView` says what makes such a list valid, `HTreeSteps`
  and `HTree` prove that every operation keeps it, `HTreeRuns` is about whole runs.
- **Directory block** (`DirBlock.dfy`): records that tile a block of bytes. Methods work on the byte
  array in place and are proved against functions on the list of records that the index uses.
- **Extent tree** (`Extent*.dfy`): a B+ tree of any depth. Nodes are values; a path is the list of
  nodes and positions from the root down, and a change of a node is carried up level by level.
  `ExtentInode` is insertion with splits and growth, `ExtentRemove` the walk that removes a range,
  `ExtentFile` the inode with both, `ExtentMerge` what creating a block does to the list of extents,
  `ExtentNodes` accounts for the blocks of nodes, `ExtentConvert` is the conversion of unwritten extents. The
  blocks that can be had for new nodes are a parameter. `ExtentExamples` has inputs on which an operation
  goes wrong.
- **Block cache** (`CacheSpec.dfy`, `CacheRuns.dfy`, `BlockCache.dfy`): buffers with reference counts,
  LRU eviction, a dirty list and nested write-back, as a class whose methods equal functions on
  states, and theorems over all runs of those functions. `bad` is the set of blocks for which
  the device fails during an operation.
- **Block allocator** (`Bitmap.dfy`, `Allocator.dfy`): bitmaps as arrays of bytes, and groups with
  counters.
- **USB** (`Usb.dfy`, `UsbRead.dfy`, `Checksum.dfy`): octet stuffing, frames, checksums and block reads.
  The phone is a function from the octets of a request to the octets of its reply, and the
  transfers are any way of cutting a reply into non-empty pieces.
- **FAT** (`Fat.dfy`, `FatFile.dfy`, `Wildcard.dfy`): table entries through a one-sector window, reads and
  seeks along a cluster chain, and the wildcard matcher over any case folding.
- **Reads** (`ByteRead.dfy`, `FileRead.dfy`): any bytes of a partition through whole device blocks, and ext4
  file reads that join neighbouring blocks.
- `Seqs.dfy`, `Arith.dfy`, `Bytes.dfy`: facts shared by the others.

Where the code does not do what its neighbours promise, the code is modelled as it is, the
condition under which it is right is proved for all inputs, and an input that fails is given:

- Prepending to an extent keeps its physical start, and appending ignores the written state of the
  new extent (`ExtentLeaf.InsertExact`; `ExtentLeaf.PrependShifts`, `ExtentLeaf.AppendMixes`). Prepending may also
  leave the key of the leaf above its first block (`ExtentInode.InsertGood`; `ExtentExamples.KeyLeftBehind`).
- A split of extent nodes that runs out of blocks frees the new nodes with the extents already moved into
  them (`ExtentInode.BrokenExact`; `ExtentExamples.SplitLoses`), and the blocks of index entries moved with
  them are freed by nobody (`ExtentInode.BrokenBlocks`).
- A block that continues an extent makes it longer only if the search ends in the leaf of that extent, which
  a key below the first extent of its leaf prevents (`ExtentMerge.GrowsExactly`;
  `ExtentExamples.NeighbourHidden`).
- Removing a range that starts in a hole does nothing, and a range inside one extent frees no data
  blocks (`ExtentFile.RemovalExact`, `ExtentFile.FreedExact`; `ExtentExamples.HoleStops`,
  `ExtentExamples.InteriorLeaks`).
- Converting blocks in the middle of an unwritten extent splits at a position that is no longer the right
  one (`ExtentConvert.Convert`; `ExtentExamples.MiddleStays`).
- The second insert after a leaf split is not checked: with blocks of 1024 bytes a long name can be
  lost (`HTree.SplitAndStore`; `HTreeLimits.SmallBlocksLose`). A leaf that is at most half full has no middle
  (`HTreeLimits.NoMiddle`; `HTreeLimits.SparseLeafHasNoMiddle`); this cannot happen before the first removal
  (`HTree.PackedCanAdd`).
- The bitmap search misreports a bit found before the first byte boundary (`Bitmap.ReportedRight`;
  `Bitmap.SetBitReported`); the allocator never gets there (`Allocator.AfterScan`).
- With a first data block of 1 the last block of the last group lies behind the volume
  (`Allocator.AddrInside`; `Allocator.OneBeyond`).
- Freed blocks are meant to be dropped from the cache, but the call names none of them
  (`Allocator.NothingInvalidated`), and invalidating a range needs its first block in the cache
  (`CacheRuns.InvalidateExact`; `CacheRuns.StartNotCached`).
- A temporary buffer that the device refuses is dropped with its contents (`CacheSpec.ReleaseKeeps`;
  `CacheSpec.TemporaryLost`).
- Bytes of a partition that does not start at a block boundary are read from the wrong place
  (`ByteRead.StartRight`; `ByteRead.Misplaced`).
- A hole among the whole blocks of a file is read as the block behind it, or as device block 0
  (`FileRead.Read`, `FileRead.HolesShow`; `FileRead.HoleRepeatsNext`).
- A read of all 2^32 bytes of flash at once reads nothing (`UsbRead.ReadBlocks`).

## Model

| member | source | states |
|---|---|---|
| `HTreeRuns.AddAll` | lwext4/src/ext4_dir_idx.c:1273-1403 | for every sequence of additions to a directory that only ever had entries added, with blocks of any size: each entry is refused exactly when the index node of its home leaf cannot be split or its leaf has no room and no block is left, what is stored is among what was reported as added, a refusal changes no key and no leaf, the block count grows exactly by the nodes and leaves split, and the directory afterwards is valid and holds exactly the old entries and those stored |
| `HTreeRuns.LargeBlocksKeep` | lwext4/src/ext4_dir_idx.c:1273-1403 | over every such run with blocks of 2048 bytes or more exactly the entries reported as added are stored |
| `HTreeRuns.RunAdds` | lwext4/src/ext4_dir_idx.c:1273-1403 | the entries at the end of a run are those at its start and those stored on the way |
| `HTreeRuns.Finds` | lwext4/src/ext4_dir_idx.c:714-831 | lookup through the index succeeds exactly when the directory has an entry of that name |
| `HTreeRuns.HoldsEntry` | lwext4/src/ext4_dir_idx.c:714-831 | some leaf holds a name if and only if the multiset of entries has one of that name |
| `HTree.Directory.AddEntry` | lwext4/src/ext4_dir_idx.c:1273-1403 | NoSpace if and only if the lowest index node of the home path is full and cannot be split, or the home leaf has no room and no block is left; it leaves keys and leaves as they were. Otherwise the entry is stored if and only if the home leaf had room or the half of its split that the hash chooses has; blocks grow exactly by what was split; validity and packedness are kept |
| `HTree.Directory.StoreName` | lwext4/src/ext4_dir_idx.c:1353-1380 | the name goes into its home leaf, or into a half of it; NoSpace exactly without room and without a block |
| `HTree.Directory.HomeWithRoom` | lwext4/src/ext4_dir_idx.c:1318-1339 | the home leaf of a hash is kept while the index node above it gets a free entry, or is refused exactly when it cannot |
| `HTree.Directory.FindEntry` | lwext4/src/ext4_dir_idx.c:714-831 | the answer is that of a plain scan of all leaves, for names whose hash runs over several leaves as well |
| `HTree.Directory.RemoveEntry` | lwext4/src/ext4_dir.c:527-576 | an existing name loses exactly one entry, a missing one changes nothing |
| `HTree.Directory.SplitIndex` | lwext4/src/ext4_dir_idx.c:1116-1271 | NoSpace if and only if the lowest node is full and the root of a two-level index is full too or no block is left; otherwise the flattened index is unchanged, the position is still on the same leaf, its node has a free entry, and a block is used exactly when the node was full |
| `HTree.Directory.SplitFullNode` | lwext4/src/ext4_dir_idx.c:1176-1234 | moving the right half of a full node to a new block keeps the flattened index and the spot of the path |
| `HTreeFlat.SplitInHalf` | lwext4/src/ext4_dir_idx.c:1176-1200 | the halves are the old entries in order, of the same number or with one more on the right |
| `HTree.LimitsFit` | lwext4/src/ext4_dir_idx.c:404-411 | the capacities are the most 8-byte entries behind a header of 32 bytes in the root and of 8 bytes elsewhere |
| `HTree.Directory.PushRootDown` | lwext4/src/ext4_dir_idx.c:1235-1267 | copying the full root one level down keeps the flattened index and the spot of the path |
| `HTree.Directory.AppendBlock` | lwext4/src/ext4_dir_idx.c:1157-1162 | a block is appended exactly when there is space |
| `HTree.Directory.constructor` | lwext4/src/ext4_dir_idx.c:349-464 | a new directory is valid, empty and packed |
| `HTree.FindIndexed` | lwext4/src/ext4_dir_idx.c:714-831 | search from the home leaf, then on over leaves with continued keys: found if and only if some leaf holds the name |
| `HTree.GetLeaf` | lwext4/src/ext4_dir_idx.c:535-636 | binary search at each level gives the path that a plain scan of each node from the right gives, and it leads to the home of the hash in the flattened index |
| `HTree.SearchNode` | lwext4/src/ext4_dir_idx.c:570-582 | binary search returns the last entry whose key is not above the hash |
| `HTree.NextBlock` | lwext4/src/ext4_dir_idx.c:645-712 | the path moves to the next leaf exactly when its key continues the hash, and otherwise the search is over |
| `HTree.Climb` | lwext4/src/ext4_dir_idx.c:655-668 | the lowest level that has a next entry, or none |
| `HTree.SplitData` | lwext4/src/ext4_dir_idx.c:931-1108 | a leaf split keeps all entries, gives a valid directory with one key more, and leaves room in both leaves |
| `HTree.SplitAndStore` | lwext4/src/ext4_dir_idx.c:1359-1380 | after a split the name is stored if and only if it fits into the half that its hash belongs to; all other entries are kept |
| `HTree.SureFits` | lwext4/src/ext4_dir_idx.c:1034-1042 | a name that needs at most half a block less one record fits into either half, whatever the leaf holds |
| `HTree.PackedCanAdd` | lwext4/src/ext4_dir_idx.c:1034-1047 | in a directory that only ever had entries added, a leaf without room is more than half full, as the split takes for granted |
| `HTree.HalfForHash` | lwext4/src/ext4_dir_idx.c:1368-1375 | the key comparison picks the half whose bounds contain the hash |
| `HTree.LeafSplitKeeps` | lwext4/src/ext4_dir_idx.c:1029-1108 | a split keeps every leaf inside its key bounds |
| `HTree.LeafSplitConserves` | lwext4/src/ext4_dir_idx.c:1049-1081 | a split keeps the multiset of entries of the directory |
| `HTree.InsertKeeps` | lwext4/src/ext4_dir_idx.c:1353-1357 | storing a record in the leaf of its hash adds exactly that entry |
| `HTree.RemoveKeeps` | lwext4/src/ext4_dir.c:542-571 | removing the found record removes exactly that entry from the directory |
| `HTreeLimits.LargeBlocksFit` | lwext4/src/ext4_dir_idx.c:1369-1378 | with blocks of 2048 bytes or more the second insert, whose result is discarded, cannot fail |
| `HTreeLimits.SmallBlocksLose` | lwext4/src/ext4_dir_idx.c:1369-1378 | with blocks of 1024 bytes a name is safe in every leaf if and only if it has at most 244 bytes; for each longer one a leaf is given where success is reported and the name is lost |
| `HTreeLimits.NoMiddle` | lwext4/src/ext4_dir_idx.c:1034-1042 | the loop finds no middle exactly when the records fit into half a block |
| `HTreeLimits.SparseLeafHasNoMiddle` | lwext4/src/ext4_dir_idx.c:1034-1047 | two removals from a packed leaf leave one that has no room for a name and yet no middle |
| `HTreeView.SearchIsScan` | lwext4/src/ext4_dir_idx.c:765-817 | a name missing from its home leaf and from the leaves that continue its hash is missing everywhere |
| `HTreeView.BoundsNearHome` | lwext4/src/ext4_dir_idx.c:670-676 | only the home leaf and leaves whose keys continue the hash can hold it |
| `HTreeView.LeafSplit` | lwext4/src/ext4_dir_idx.c:1103-1104 | a key that separates two halves can be entered behind the old leaf |
| `HTreeView.ContentsSplit` | lwext4/src/ext4_dir_idx.c:1049-1081 | entries are conserved when a leaf becomes two |
| `HTreeFlat.FlatInsert` | lwext4/src/ext4_dir_idx.c:901-922 | inserting an entry into an index node inserts it at one spot of the flattened index |
| `HTreeFlat.FlatSplit` | lwext4/src/ext4_dir_idx.c:1176-1226 | splitting an index node leaves the flattened index as it was |
| `HTreeFlat.SplitSpots` | lwext4/src/ext4_dir_idx.c:1203-1222 | each position of a split node keeps its spot |
| `HTreeFlat.FlatPushDown` | lwext4/src/ext4_dir_idx.c:1235-1261 | pushing the root down leaves the flattened index as it was |
| `HTreeSteps.SplitSeparates` | lwext4/src/ext4_dir_idx.c:1044-1047 | the new key, with its continued bit, lies between the hashes of the halves and between the neighbouring keys |
| `HTreeSteps.SplitRoom` | lwext4/src/ext4_dir_idx.c:1034-1042 | the lower half takes at most half a block, the upper half at most half a block and one record |
| `LeafSplit.Split` | lwext4/src/ext4_dir_idx.c:931-1081 | the halves are the sorted live records cut where half a block is exceeded, and the key tells a collision across the cut |
| `LeafSplit.Reordered` | lwext4/src/ext4_dir_idx.c:1001-1001 | sorting keeps the entries and the space they need |
| `LeafSplit.PackGood` | lwext4/src/ext4_dir_idx.c:1054-1081 | a written half is tiled by well-sized records and holds exactly its items |
| `LeafSplit.PackedInsert` | lwext4/src/ext4_dir.c:580-652 | a packed leaf takes a name exactly when its slack is large enough, and stays packed |
| `LeafSplit.FindMiddle` | lwext4/src/ext4_dir_idx.c:1034-1042 | the first record that does not fit into half a block |
| `LeafSplit.WriteHalf` | lwext4/src/ext4_dir_idx.c:1054-1066 | records are laid end to end and the last one gets the rest of the block |
| `CombSort.Sort` | lwext4/src/ext4_dir_idx.c:842-866 | for every input the sort ends with a sorted permutation |
| `CombSort.CombPass` | lwext4/src/ext4_dir_idx.c:851-853 | one comb pass permutes |
| `CombSort.BubblePass` | lwext4/src/ext4_dir_idx.c:857-864 | one bubble pass permutes, and when it swaps nothing the items are sorted |
| `DirBlock.TryInsertEntry` | lwext4/src/ext4_dir.c:580-652 | the block afterwards is tiled by the records of the specified insertion; without room no byte changes |
| `DirBlock.FindInBlock` | lwext4/src/ext4_dir.c:654-695 | found if and only if a live record has the name, at the first such record |
| `DirBlock.RemoveEntry` | lwext4/src/ext4_dir.c:542-571 | the block afterwards is tiled by the records with the found one merged into its predecessor, or freed at the start |
| `DirBlock.InsertAdds` | lwext4/src/ext4_dir.c:601-648 | a successful insertion adds exactly the new entry |
| `DirBlock.InsertSized` | lwext4/src/ext4_dir.c:601-648 | records stay well sized and keep tiling the block |
| `DirBlock.RemoveDeletes` | lwext4/src/ext4_dir.c:549-571 | removal deletes exactly the found entry |
| `DirBlock.RemoveSized` | lwext4/src/ext4_dir.c:549-571 | removal keeps the records tiling the block |
| `DirBlock.ReadingUnique` | lwext4/src/ext4_dir.c:662-691 | the bytes of a block determine its records |
| `DirBlock.RecordLayout` | lwext4/src/ext4_dir.c:299-341 | the bytes of one record: inode, record length, name length, type, name |
| `Bytes.LowFirst` | lwext4/src/ext4_dir.c:299-341 | fields of two and four bytes are little-endian |
| `DirBlock.WriteEntry` | lwext4/src/ext4_dir.c:299-341 | the bytes at an offset encode the record and all others are kept |
| `DirBlock.FindPredecessor` | lwext4/src/ext4_dir.c:554-565 | the walk from the start of the block ends at the record before the removed one |
| `ExtentLookup.BinSearch` | lwext4/src/ext4_extent.c:464-513 | the last key not above the block, or the first entry |
| `ExtentLookup.FindExtent` | lwext4/src/ext4_extent.c:515-599 | the descent by binary search is the path of a scan of every node from the right, and at each level takes the last key not above the block |
| `ExtentLookup.SearchComplete` | lwext4/src/ext4_extent.c:515-599 | an extent covers the block somewhere in the tree exactly when it does in the leaf reached |
| `ExtentLookup.GetBlocks` | lwext4/src/ext4_extent.c:1673-1724 | on any well-formed tree, against the flattened list: a written block gives its physical block, an unwritten one 0, a hole 0 and no run; the run that is reported follows the block on the device in the same state, and is as long as the extent goes on, up to the maximum asked for |
| `ExtentTree.FlatChain` | lwext4/src/ext4_extent.c:464-513 | the flattened list of a well-formed tree is in order and without overlap |
| `ExtentLeaf.InsertExact` | lwext4/src/ext4_extent.c:910-1006 | inserting into a leaf adds exactly the mapping of the extent if and only if it is a new entry or an append onto an extent of the same written state |
| `ExtentLeaf.InexactMisses` | lwext4/src/ext4_extent.c:939-951 | the prepend branch, and an append across written states, leave the first new block without its mapping |
| `ExtentLeaf.WayIs` | lwext4/src/ext4_extent.c:854-907 | the neighbour is appended to or prepended to exactly when it is next to the extent in the file and on the device and both have at most 32768 blocks, or 32767 if it is unwritten |
| `ExtentLeaf.PrependLeaves` | lwext4/src/ext4_extent.c:939-951 | the prepend branch maps the blocks from the new one to the end of the neighbour from the old physical start of the neighbour on, in its state, and leaves all others |
| `ExtentLeaf.PrependShifts` | lwext4/src/ext4_extent.c:939-951 | block 4 on physical block 104 before block 5 on 105: both get the wrong physical block |
| `ExtentLeaf.AppendMixes` | lwext4/src/ext4_extent.c:925-936 | a written block behind an unwritten extent becomes unwritten |
| `ExtentLeaf.InsertChain` | lwext4/src/ext4_extent.c:954-984 | the insertion keeps the leaf in order, from its first block on for a new entry at or behind the first position; the prepend branch may move the start down |
| `ExtentInode.InsertLeaf` | lwext4/src/ext4_extent.c:910-1006 | the outcome is that of the branch which `ExtentLeaf.WayIs` tells by blocks and counts; the keys above are set to the first block of the leaf whenever the position before the insertion was the first one |
| `ExtentInode.Store` | lwext4/src/ext4_extent.c:808-852 | changing a node and correcting the keys above it level by level equals the specified change of the whole path |
| `ExtentPath.RiseFlat` | lwext4/src/ext4_extent.c:808-852 | changing one node changes its own stretch of the flattened list and nothing else |
| `ExtentPath.RiseWf` | lwext4/src/ext4_extent.c:808-852 | corrected keys bound the extents below them again |
| `ExtentInode.CutNodes` | lwext4/src/ext4_extent.c:685-767 | each node of the path from the leaf up is cut behind the position of the search |
| `ExtentInode.SplitNode` | lwext4/src/ext4_extent.c:666-801 | the split is the specified one when there are enough blocks for new nodes, with a key above the key on the path; otherwise the outcome is the specified broken path |
| `ExtentInode.BrokenExact` | lwext4/src/ext4_extent.c:783-800 | a split that runs out of blocks after n levels loses no extent if and only if n is 0 or the path goes through the last entries of all nodes cut |
| `ExtentInode.BrokenOk` | lwext4/src/ext4_extent.c:783-800 | such a split leaves exactly the extents up to the position and those behind the topmost node cut, in a well-formed tree |
| `ExtentInode.SplitDone` | lwext4/src/ext4_extent.c:666-801 | a split keeps the flattened list and the order of keys, the search leads to the half taken, and the leaf there has room |
| `ExtentInode.SplitBeside` | lwext4/src/ext4_extent.c:701-767 | a split leaves no node empty but the leaf that is about to be filled |
| `ExtentInsert.SplitFinished` | lwext4/src/ext4_extent.c:610-664 | entering the right half above the cut keeps the list and the tree well formed |
| `ExtentInsert.GrownOk` | lwext4/src/ext4_extent.c:1016-1078 | growing the tree keeps the flattened list and the order of keys |
| `ExtentInsert.GrownPath` | lwext4/src/ext4_extent.c:1110-1128 | the search in the grown tree passes the new root and then takes the old path |
| `ExtentInode.Grow` | lwext4/src/ext4_extent.c:1016-1078 | the grown tree has the same list, the same position and room below the root |
| `ExtentInode.FindRoom` | lwext4/src/ext4_extent.c:1106-1108 | the lowest level with a free entry; below it lie exactly the full nodes at the end of the path |
| `ExtentInode.MakeRoom` | lwext4/src/ext4_extent.c:1104-1153 | succeeds if and only if there is a block for each full node at the end of the path; then the same position has room and the list is unchanged, otherwise exactly what was moved is lost |
| `ExtentInode.InsertExtent` | lwext4/src/ext4_extent.c:1090-1174 | the retry loop ends; the extent is refused exactly when one starts at the same block; NoSpace if and only if it needs an entry and there are fewer blocks than full nodes at the end of the path, and then the list is exactly the extents up to the position and those behind the nodes cut; otherwise the mapping is added exactly if and only if the branch of the first try is exact, and the tree is well formed if and only if no key was left above its leaf; a new entry stands in its place by first block in the whole list, and the tree has exactly one block of the supply more for each node made |
| `ExtentInode.InsertLists` | lwext4/src/ext4_extent.c:954-984 | a new entry goes to its place by first block in the flattened list; a merge changes its neighbour only |
| `ExtentInode.SplitBlocks` | lwext4/src/ext4_extent.c:685-767 | a split gives each new node a block of its own from the supply and keeps the blocks of all others |
| `ExtentInode.BrokenBlocks` | lwext4/src/ext4_extent.c:783-800 | a split that runs out of blocks drops the blocks of all nodes behind the position in the nodes cut |
| `ExtentNodes.RiseBlocks` | lwext4/src/ext4_extent.c:808-852 | exchanging a node exchanges its blocks in the tree and no others |
| `ExtentInode.InsertMaps` | lwext4/src/ext4_extent.c:910-1006 | over the whole tree the mapping is added exactly if and only if the branch is exact |
| `ExtentInode.InsertGood` | lwext4/src/ext4_extent.c:910-1006 | an insertion keeps the whole tree well formed if and only if it does not prepend below the key of its leaf |
| `ExtentInode.InsertFine` | lwext4/src/ext4_extent.c:910-1006 | an insertion leaves no node below the root empty |
| `ExtentExamples.KeyLeftBehind` | lwext4/src/ext4_extent.c:939-951 | block 9 before a leaf with key 10: the tree is not well formed afterwards |
| `ExtentExamples.SplitLoses` | lwext4/src/ext4_extent.c:783-800 | a full leaf under a full node with one block for two new nodes: the extents behind the position are gone |
| `ExtentFile.Inode.Create` | lwext4/src/ext4_extent.c:1746-1780 | NoSpace if and only if there are fewer blocks than the new entry needs, and then the list is exactly the extents up to the position and those behind the nodes cut; otherwise exactly the new mapping is added if and only if the branch taken is exact, and the list is the one that `ExtentMerge.CreateGrows`, `ExtentMerge.CreateShifts` and `ExtentMerge.CreateEnters` name; the invariant is kept if and only if no key was left above its leaf; the tree has one block of the supply more for each node made |
| `ExtentMerge.CreateGrows` | lwext4/src/ext4_extent.c:925-936 | an extent in the leaf reached that ends right before the block, in the file and on the device, with fewer than 32768 blocks, or 32767 if unwritten, becomes one block longer and nothing else changes; this succeeds without any block for nodes |
| `ExtentMerge.CreateShifts` | lwext4/src/ext4_extent.c:939-951 | the first extent of the leaf reached, right behind the block in the file and on the device, gets the block in front and keeps its physical start; this succeeds without any block for nodes |
| `ExtentMerge.CreateEnters` | lwext4/src/ext4_extent.c:954-984 | in all other cases the block gets an entry in its place, if and only if there is a block for each full node at the end of the path |
| `ExtentMerge.GrowsExactly` | lwext4/src/ext4_extent.c:925-936 | an extent of the list that ends right before the block becomes longer if and only if it is in the leaf that the search reaches |
| `ExtentMerge.TightReaches` | lwext4/src/ext4_extent.c:515-599 | with every key at the first block below it, the search reaches that extent, wherever it is |
| `ExtentExamples.NeighbourHidden` | lwext4/src/ext4_extent.c:515-599 | a tree whose second key is below its first extent: block 1 is not joined to block 0 |
| `ExtentExamples.FullRootGrows` | lwext4/src/ext4_extent.c:925-936 | a full root leaf and no block for nodes: block 31 is stored by growing the last extent |
| `ExtentFile.Inode.Remove` | lwext4/src/ext4_extent.c:1364-1504 | the tree and what was freed are as specified for a removal, and the invariant of the tree is kept |
| `ExtentFile.RemoveSpace` | lwext4/src/ext4_extent.c:1364-1504 | three cases by the start of the range: a hole changes nothing; inside one extent it succeeds if and only if there is a block for each full node at the end of the path, removing exactly the range, and otherwise removes exactly the blocks from its start to the end of the nodes cut; all others cut exactly the range and free what was behind it |
| `ExtentFile.RemovalExact` | lwext4/src/ext4_extent.c:1380-1388 | exactly the mappings of the range are gone if and only if it starts in a hole and holds no mapped block, or starts in a mapped block and does not fail |
| `ExtentFile.FreedExact` | lwext4/src/ext4_extent.c:1390-1413 | exactly the physical blocks behind the range are freed if and only if the range is not inside one extent |
| `ExtentFile.RemoveInside` | lwext4/src/ext4_extent.c:1390-1413 | a range inside one extent is unmapped by shortening the extent and inserting its tail; without blocks for the nodes that this needs, exactly the blocks from its start to the end of the nodes cut are unmapped |
| `ExtentFile.UnchangedRight` | lwext4/src/ext4_extent.c:1380-1388 | doing nothing is right exactly when no mapped block lies in the range |
| `ExtentExamples.HoleStops` | lwext4/src/ext4_extent.c:1380-1388 | removing blocks 3 to 6 leaves block 5 mapped |
| `ExtentExamples.InteriorLeaks` | lwext4/src/ext4_extent.c:1390-1413 | removing blocks 4 and 5 of ten unmaps them and frees nothing |
| `ExtentShort.TailTarget` | lwext4/src/ext4_extent.c:1398-1411 | behind a shortened extent a search for the tail leads to the same leaf, next to it |
| `ExtentConvert.Convert` | lwext4/src/ext4_extent.c:1563-1593 | the blocks of the range become written with the physical blocks they had, and all others stay as they were, if and only if the range starts or ends with the extent; a split fails if and only if there are fewer blocks than full nodes at the end of the path |
| `ExtentConvert.SplitAt` | lwext4/src/ext4_extent.c:1506-1561 | two parts of an extent, marked as told, map what the extent did, and the position is that of the second part |
| `ExtentConvert.SplitBefore` | lwext4/src/ext4_extent.c:1506-1561 | the second split works on the part that the first one inserted, with wrapped differences, and leaves every other mapping as it was |
| `ExtentConvert.ConvertMiddle` | lwext4/src/ext4_extent.c:1581-1590 | a range in the middle of an extent is never converted right, because its first block is still mapped as unwritten |
| `ExtentConvert.PartsConvert` | lwext4/src/ext4_extent.c:1571-1580 | parts that are written on the range and unwritten around it convert the whole list |
| `ExtentExamples.MiddleStays` | lwext4/src/ext4_extent.c:1581-1590 | blocks 4 and 5 of ten: the three extents that the two splits leave |
| `ExtentRemove.RemoveFrom` | lwext4/src/ext4_extent.c:1416-1497 | the flattened list is the old one with the range cut out, the freed runs are exactly those of the range, tree blocks are either still in the tree or freed once, and the walk ends for every depth |
| `ExtentRemove.Walk` | lwext4/src/ext4_extent.c:1416-1485 | the walk over the rest of the tree cuts every leaf of the range and stops behind it |
| `ExtentRemove.Ascend` | lwext4/src/ext4_extent.c:1467-1484 | leaving a node moves past its entry or removes the entry of an empty node and frees its block |
| `ExtentRemove.NodeDone` | lwext4/src/ext4_extent.c:1350-1362 | a node without another entry in the range is in its final form |
| `ExtentStack.RemovedOk` | lwext4/src/ext4_extent.c:1192-1237 | after an entry is removed and keys are carried up, the nodes above are well formed |
| `ExtentStack.RaiseOk` | lwext4/src/ext4_extent.c:808-852 | carrying a larger first key up keeps the nodes above well formed |
| `ExtentCut.RemoveLeaf` | lwext4/src/ext4_extent.c:1239-1324 | in-place trimming and closing of the gap gives the leaf with the range cut out and frees exactly the runs of the range |
| `ExtentCut.CutRemoves` | lwext4/src/ext4_extent.c:1239-1324 | the cut list maps exactly what the old one did outside the range |
| `ExtentCut.RunsBack` | lwext4/src/ext4_extent.c:1176-1190 | the freed runs hold exactly the physical blocks behind the range |
| `ExtentCut.Trim` | lwext4/src/ext4_extent.c:1260-1308 | what stays of one extent and which run is freed |
| `CacheRuns.RunRefines` | lwext4/src/ext4_blockdev.c:144-279 | over every run of operations, invalidations and failing puts of temporary buffers included and whatever the device does, the cache shows the contents of a plain disk on which each operation just makes its changes, and each block has the references taken minus those given back |
| `CacheRuns.CarefulWrites` | lwext4/src/ext4_blockdev.c:144-279 | over every run without invalidations and without forfeited buffers these are the last written contents |
| `CacheRuns.RunSettles` | lwext4/src/ext4_blockdev.c:440-467 | without device errors, once write-back mode is off and nothing is referenced, the disk equals that plain disk |
| `CacheRuns.StepOk` | lwext4/src/ext4_blockdev.c:144-279 | every operation refines its effect on a plain disk and keeps the invariant |
| `CacheRuns.ShakeOk` | lwext4/src/ext4_blockdev.c:186-211 | eviction loses no contents and touches no referenced buffer; it ends with room or with no candidate left |
| `CacheRuns.ShakeLeast` | lwext4/src/ext4_blockdev.c:186-211 | a cache with room is left alone, at most one place is gained, and what is forgotten was taken before what stays |
| `CacheRuns.ShakeStops` | lwext4/src/ext4_blockdev.c:186-211 | eviction fails if and only if the oldest buffer is dirty and refused by the device while there is no room |
| `CacheRuns.GetOk` | lwext4/src/ext4_blockdev.c:244-268 | a successful get gives the last written or the disk contents; a failed one changes nothing a client can see |
| `CacheRuns.GetFails` | lwext4/src/ext4_blockdev.c:244-268 | a get of an existing block fails if and only if eviction does, or the block has no valid buffer and cannot be read |
| `CacheRuns.GetNoReadOk` | lwext4/src/ext4_blockdev.c:213-242 | a reference is taken exactly when the block exists and eviction did not fail |
| `CacheRuns.FlushAllOk` | lwext4/src/ext4_blockdev.c:440-452 | writing the dirty list keeps the contents; what is left of the list starts with the first block that the device fails for, and success is reported exactly when nothing is left |
| `CacheRuns.FlushAllWrites` | lwext4/src/ext4_blockdev.c:440-452 | exactly the blocks of the list before the first failure are written, with the contents that clients see |
| `CacheRuns.WriteBackOk` | lwext4/src/ext4_blockdev.c:454-467 | the nesting changes by one level and stops at 0; above level 0 the list is untouched, at level 0 it is written up to the first block that the device fails for, which is reported |
| `CacheRuns.FlushBlockOk` | lwext4/src/ext4_blockdev.c:173-184 | flushing one block keeps all contents unless it forfeits a temporary buffer, whose block then shows the disk again; unless the device fails the block is on the disk, clean and off the dirty list, and no other disk block changes |
| `CacheRuns.InvalidateOk` | lwext4/src/ext4_bcache.c:194-206 | clearing the buffers of a range in order brings back the disk contents of exactly the blocks reached and keeps references and invariant |
| `CacheRuns.InvalidateExact` | lwext4/src/ext4_bcache.c:194-206 | a range is given up completely if and only if its first block is cached or nothing new is cached for it |
| `CacheRuns.StartNotCached` | lwext4/src/ext4_bcache.c:194-206 | with block 2 dirty and block 1 not cached, invalidating both changes nothing |
| `CacheSpec.ReleaseKeeps` | lwext4/src/ext4_bcache.c:270-315 | giving the last reference back keeps the contents if and only if it does not drop a temporary dirty buffer that the device refused |
| `CacheSpec.ForfeitReverts` | lwext4/src/ext4_bcache.c:289-309 | a forfeited block shows the disk contents again |
| `CacheSpec.TemporaryLost` | lwext4/src/ext4_bcache.c:289-309 | a dirty temporary buffer, given back while the device fails: what was written is gone |
| `CacheSpec.ReleaseOk` | lwext4/src/ext4_bcache.c:270-315 | giving a reference back keeps the invariant, and without errors leaves nothing dirty outside the dirty list |
| `CacheSpec.ReleaseDelays` | lwext4/src/ext4_bcache.c:289-297 | in write-back mode the last reference to a dirty buffer puts it at the head of the dirty list and writes nothing |
| `CacheSpec.ReleaseWrites` | lwext4/src/ext4_bcache.c:289-309 | otherwise, or when it is marked, it is written at once; a temporary buffer is forgotten and any other stays, clean unless the device failed |
| `CacheSpec.ReleaseClean` | lwext4/src/ext4_bcache.c:289-309 | a clean buffer stays unless it is temporary or without valid data |
| `CacheSpec.AllocNewest` | lwext4/src/ext4_bcache.c:208-268 | a buffer that is taken out of the LRU tree or made is the most recent one |
| `CacheSpec.FlushOk` | lwext4/src/ext4_blockdev.c:144-171 | a flush keeps the contents and cleans the buffer, or changes nothing, which happens if and only if the buffer is dirty and the device refuses it |
| `CacheSpec.DropOk` | lwext4/src/ext4_bcache.c:161-179 | dropping a clean buffer loses nothing |
| `BlockCache.Device.GetBlock` | lwext4/src/ext4_blockdev.c:244-268 | on success the buffer holds what was last written to the block, or what the disk holds |
| `BlockCache.Device.GetNoReadBlock` | lwext4/src/ext4_blockdev.c:213-242 | state and status equal those of the specified get, about which `CacheRuns.GetNoReadOk` is proved |
| `BlockCache.Device.ShakeCache` | lwext4/src/ext4_blockdev.c:186-211 | the loop does what the specified eviction does |
| `BlockCache.Device.LowestLru` | lwext4/src/ext4_bcache.c:156-159 | the only buffer with the lowest LRU id |
| `BlockCache.Device.Free` | lwext4/src/ext4_bcache.c:270-315 | the state equals that of the specified release, about which `CacheSpec.ReleaseKeeps` is proved |
| `BlockCache.Device.FindGet` | lwext4/src/ext4_bcache.c:208-232 | found exactly when cached; the buffer gains a reference and leaves the LRU tree and the dirty list |
| `BlockCache.Device.AllocBuf` | lwext4/src/ext4_bcache.c:234-268 | a cached buffer gains a reference, a missing one is made with one reference and no valid data |
| `BlockCache.Device.FlushBuf` | lwext4/src/ext4_blockdev.c:144-171 | a dirty buffer is on the disk, clean and off the dirty list, or nothing changed and the device failed |
| `BlockCache.Device.FlushLba` | lwext4/src/ext4_blockdev.c:173-184 | the state equals that of the specified flush, about which `CacheRuns.FlushBlockOk` is proved; unless the device fails, exactly that block of the disk becomes what clients see |
| `BlockCache.Device.CacheFlush` | lwext4/src/ext4_blockdev.c:440-452 | the loop does what the specified flush does |
| `BlockCache.Device.CacheWriteBack` | lwext4/src/ext4_blockdev.c:454-467 | the nesting changes by one level and the dirty list is written at level 0 |
| `BlockCache.Device.InvalidateLba` | lwext4/src/ext4_bcache.c:194-206 | the loop does what the specified invalidation does: contents revert to the disk exactly for the blocks reached |
| `Allocator.Volume.AllocBlock` | lwext4/src/ext4_balloc.c:351-578 | the first free block of the goal's group from the goal on, so the goal itself if it is free; else the first free block of the first group behind it, going round, that has one, the goal's own group last. Exactly its bit is set, every counter changes by its amount and stays equal to the clear bits; the address lies on the volume unless it is the one block that does not; NoSpace only when every group is full |
| `Allocator.Volume.FreeBlocks` | lwext4/src/ext4_balloc.c:233-349 | exactly the bits of the run are cleared in every group, each counter grows by exactly the right amount, and all counters agree afterwards if and only if the whole run was allocated |
| `Allocator.Volume.TryAllocBlock` | lwext4/src/ext4_balloc.c:580-660 | a given block is taken if and only if it was free, with all counters; otherwise nothing changes |
| `Allocator.Volume.FreeBlock` | lwext4/src/ext4_balloc.c:152-231 | exactly one bit is cleared and counted, and all counters agree afterwards if and only if the block was allocated |
| `Allocator.Pick` | lwext4/src/ext4_balloc.c:351-548 | the search gives that block, and fails only when every group is full |
| `Allocator.FindNear` | lwext4/src/ext4_balloc.c:408-459 | the first clear bit from the goal on, or all of them are set |
| `Allocator.AfterScan` | lwext4/src/ext4_balloc.c:424-448 | behind the scan near the goal the misreporting part of the bitmap search cannot be reached |
| `Allocator.FreeRun` | lwext4/src/ext4_balloc.c:233-334 | the loop over groups frees the run and ends with nothing left |
| `Allocator.FreedConsistent` | lwext4/src/ext4_balloc.c:286-324 | counters stay consistent if and only if all freed blocks were allocated |
| `Allocator.NothingInvalidated` | lwext4/src/ext4_balloc.c:336-344 | the cache invalidation after freeing reaches no block |
| `Allocator.TakenOk` | lwext4/src/ext4_balloc.c:550-572 | one set bit and decremented counters keep all counters consistent |
| `Allocator.AddrRoundTrip` | lwext4/include/ext4_fs.h:94-117 | group and index of the address of a group and index are those |
| `Allocator.IndexRoundTrip` | lwext4/include/ext4_fs.h:94-117 | the address of the group and index of an address is that address |
| `Allocator.AddrCounts` | lwext4/include/ext4_fs.h:109-117 | addresses count through each group and from one group to the next, from the first data block on |
| `Allocator.GroupSizes` | lwext4/src/ext4_super.c:51-74 | group sizes tile the positions of the volume |
| `Allocator.AddrInside` | lwext4/include/ext4_fs.h:109-117 | the address of a block in a group lies on the volume, except for the last block of the last group with a first data block of 1, whose address is the number of blocks |
| `Allocator.OneBeyond` | lwext4/include/ext4_fs.h:109-117 | a volume of 8193 blocks whose second group has only that block |
| `Bitmap.FindClear` | lwext4/src/ext4_bitmap.c:90-158 | a clear bit is found if and only if there is one; the answer is the first one, or the start when it lies before the first byte boundary |
| `Bitmap.ReportedRight` | lwext4/src/ext4_bitmap.c:96-110 | the reported bit is clear if and only if the first clear bit is the start or not before the first byte boundary |
| `Bitmap.SetBitReported` | lwext4/src/ext4_bitmap.c:96-110 | bit 1 set, bit 2 clear: a search from bit 1 reports bit 1 |
| `Bitmap.BitsFree` | lwext4/src/ext4_bitmap.c:45-88 | exactly the bits of the run are cleared |
| `Bitmap.BitSet` | lwext4/include/ext4_bitmap.h:52-55 | exactly one bit is set |
| `Bitmap.BitsAreDigits` | lwext4/include/ext4_bitmap.h:52-73 | bit k of a byte is its binary digit k, the lowest first |
| `Bitmap.BitClear` | lwext4/include/ext4_bitmap.h:60-63 | exactly one bit is cleared |
| `Bitmap.CountRun` | lwext4/src/ext4_balloc.c:291-324 | clearing a run adds the number of its set bits to the clear bits |
| `UsbRead.ReadBlocks` | lwext4/blockdev/blockdev.c:135-211 | for every way the transfers cut the replies into non-empty pieces, the result is exactly the blocks of flash asked for; for all 8388608 blocks at once, whose size wraps to 0, it is empty |
| `UsbRead.ReadWindow` | lwext4/blockdev/blockdev.c:157-203 | one window: request, reassembly, verification and payload |
| `UsbRead.ReceiveReply` | lwext4/blockdev/blockdev.c:178-192 | the reply is put together from any pieces |
| `UsbRead.ReceiveGroup` | lwext4/blockdev/blockdev.c:180-188 | pieces are collected until no escape pair is split |
| `Usb.ExchangeOut` | main.c:388-404 | the buffer holds the wire form of the frame |
| `Usb.ExchangeIn` | main.c:405-423 | the buffer holds what the octets stand for, behind what was there |
| `Usb.UnescapeEscape` | main.c:384-423 | unescaping undoes escaping, as in section 4.2 of RFC 1662 |
| `Usb.EscapedFlips` | main.c:388-404 | an escaped octet is 0x7D and the octet with bit 5 flipped, as in section 4.2 of RFC 1662 |
| `Usb.FlagsAtEnds` | main.c:388-404 | on the wire a flag stands only first or last |
| `Usb.RequestBytes` | lwext4/blockdev/blockdev.c:157-172 | the octets of one request, checksum included |
| `Usb.UnescapeConcat` | main.c:406-421 | pieces that end outside an escape pair can be unescaped one by one |
| `Usb.Served` | lwext4/blockdev/blockdev.c:157-172 | the request reaches the phone intact and names the window |
| `Usb.VerifyFrame` | main.c:258-265 | accepted exactly when both flags and the checksum are right |
| `Checksum.IpCheck` | checksum.c:56-75 | for every buffer of at most 131072 bytes the result is the checksum of section 1 of RFC 1071 |
| `Checksum.SumsToOnes` | checksum.c:56-75 | a message of whole words and its checksum sum to all ones |
| `Checksum.OrderIndependent` | checksum.c:58-74 | byte-order independence, section 2(B) of RFC 1071 |
| `Checksum.TwoFolds` | checksum.c:68-69 | two folds are enough for sums below 2^32 |
| `Checksum.WordSumFold` | checksum.c:58-69 | carrying around at each step and folding once at the end give the same sum |
| `FatFile.File.ReadBytes` | ff12b/src/ff.c:3446-3536 | after any sequence of seeks and reads the bytes of the file at the pointer are returned, as many as asked for or as there are; errors are kept, and a disk error needs a sector of the table or of the file that cannot be read. Byte k of a file is byte k mod 512 of the sector that the data area, cluster 2 first, has for its cluster |
| `FatFile.File.SeekTo` | ff12b/src/ff.c:4000-4078 | the pointer moves to the target or to the end of the file, and the invariant of the file object is kept |
| `FatFile.Read` | ff12b/src/ff.c:3446-3536 | whole sectors read directly and parts of sectors read through the buffer are the bytes of the file; a valid chain never gives an internal error |
| `FatFile.Seek` | ff12b/src/ff.c:4000-4078 | cluster, buffered sector and pointer agree after a seek forward or back |
| `FatFile.Follow` | ff12b/src/ff.c:4029-4050 | the chain is followed to the cluster that holds the target |
| `FatFile.ReadDirect` | ff12b/src/ff.c:3492-3511 | sectors up to the end of the cluster are bytes of the file |
| `FatFile.FindSector` | ff12b/src/ff.c:3470-3491 | the cluster and the sector of the pointer |
| `FatFile.PosLeads` | ff12b/src/ff.c:3471-3488 | the pointer's own cluster leads to the cluster of the next byte |
| `Fat.GetFat` | ff12b/src/ff.c:986-1051 | the entry of a cluster for FAT12, FAT16 and FAT32, an internal error exactly for clusters out of range, a disk error only with a sector of the table that cannot be read |
| `Fat.GetFat12` | ff12b/src/ff.c:1003-1010 | entries that straddle two sectors are read through one window |
| `Fat.Packed12` | ff12b/src/ff.c:1003-1010 | two 12-bit entries packed into three bytes are read back |
| `Fat.Stored16` | ff12b/src/ff.c:1012-1015 | a 16-bit entry stored low byte first is read back |
| `Fat.Stored32` | ff12b/src/ff.c:1017-1020 | the low 28 bits of four bytes, the lowest first, are read back |
| `Fat.MoveWindow` | ff12b/src/ff.c:897-918 | the window holds the sector asked for unless that is not there and cannot be read; then it holds nothing |
| `Fat.InDisk` | ff12b/src/ff.c:968-976 | cluster c starts at the first data sector plus c - 2 times the sectors of a cluster, and its sectors lie on the disk |
| `Fat.ByteOfSector` | ff12b/src/ff.c:968-976 | the sector that the code finds for a cluster holds the byte of the file |
| `Wildcard.NameMatches` | ff12b/src/ff.c:2522-2559 | called with nothing to skip, the matcher decides the language of the pattern |
| `Wildcard.Signs` | ff12b/src/ff.c:2522-2559 | the wildcards are the question mark and the star |
| `Wildcard.PatternMatching` | ff12b/src/ff.c:2522-2559 | the answer is whether the pattern matches behind the skipped characters, or anywhere later when a * came before; it ends for every input |
| `Wildcard.Attempt` | ff12b/src/ff.c:2539-2554 | one attempt decides a match from its start, and a name used up leaves no later start a chance |
| `Wildcard.NoLater` | ff12b/src/ff.c:2551-2556 | stopping when the name runs out never misses a match |
| `Wildcard.BlockMeans` | ff12b/src/ff.c:2542-2547 | a block of wildcards skips as many characters as it has ?, and any number more if it has a * |
| `ByteRead.ReadBytes` | lwext4/src/ext4_blockdev.c:377-438 | a read outside the partition is refused; otherwise the bytes are those from the place where the read starts, up to the last byte of the last whole block of the device |
| `ByteRead.StartRight` | lwext4/src/ext4_blockdev.c:395-398 | that place is the one asked for if and only if the partition starts at a block boundary |
| `ByteRead.Misplaced` | lwext4/src/ext4_blockdev.c:395-398 | a partition at byte 100 with blocks of 512 bytes is read from byte 0 |
| `FileRead.Read` | lwext4/src/ext4.c:1697-1812 | count and final position are those of a read up to the end of the file; the bytes are those of the file, with zeros in holes, if and only if what is read in place of each hole behind the first part of a block holds zeros |
| `FileRead.DeliveredRight` | lwext4/src/ext4.c:1734-1808 | the three parts of a read are right if and only if zeros stand in for the holes of the whole blocks and of the last part |
| `FileRead.HolesShow` | lwext4/src/ext4.c:1760-1808 | on a device on which no block starts with a zero byte, a read is right if and only if its whole blocks and its last part have no hole |
| `FileRead.HoleRepeatsNext` | lwext4/src/ext4.c:1763-1794 | blocks mapped to 0 and 57: block 57 is delivered twice |
| `FileRead.ReadRuns` | lwext4/src/ext4.c:1760-1794 | the loop delivers for each whole block its own physical block, and for a hole the one behind it or device block 0 |
| `FileRead.Coalesce` | lwext4/src/ext4.c:1763-1778 | a run is extended as long as blocks lie side by side, and the block that breaks it is kept; a run that starts with a hole takes the number of the next block |
| `FileRead.RunSeen` | lwext4/src/ext4.c:1780-1783 | a run read at once is what is delivered for its blocks, in order |
| `FileRead.WantedIsContent` | lwext4/src/ext4.c:1734-1808 | rest of a block, whole blocks and start of a block make up the bytes asked for |

## Left out

- HTree.Directory.AddEntry: requires that the home leaf has room or is more than half full, because the source reads before its array when no middle is found; `HTree.PackedCanAdd` discharges this for every directory without removals.
- HTree.Directory.constructor: takes the type byte of the fresh leaf as a parameter other than the checksum marker, because the source leaves it to the contents of the block.
- Directory index: checksum tails, corrupt index blocks and their error codes, buffer references along a path, and the bodies of the hash functions (only their even result is used).
- Directory index and block: block sizes of 65536, because record lengths have 16 bits.
- ExtentConvert.Convert: what is left when a split fails, because the source then restores the length of the extent through a pointer into a block that it has given back; and a second split of a middle range that needs new nodes, because the search that follows runs on a tree that is not well formed. An empty range.
- Extent tree: checksums, corrupt nodes, and blocks shared between nodes, because nodes are values here.
- ExtentFile.RemoveSpace: ranges that end before they start.
- CacheSpec.ReleaseKeeps: LRU ids do not wrap around at 2^32.
- Block cache: end-of-write callbacks and the flag that guards them, cleanup, failing memory allocation, and writes that go past the cache.
- Allocator.Volume.AllocBlock: goals outside the volume, for which the source looks at descriptors and bits that do not exist.
- Allocator.Volume.FreeBlocks: an empty run; counters do not wrap; groups whose bitmap is larger than the group, because the source frees by bitmap size.
- Inode allocation: the same bitmap and counter argument.
- UsbRead.ReadBlocks: transfer errors and sizes of the receive buffers.
- USB: the CRC-16 table, used before reads begin; download, partition and reset commands.
- FatFile.Read: reads only, one sector size of 512 bytes, no exFAT and no fast seek, as configured in ff12b/src/ffconf.h; broken cluster chains; cluster sizes that are not powers of two, for which the mask in the source is no remainder.
- Wildcard.NameMatches: the code page tables; any folding that maps no character to 0 will do.
- FileRead.Read: device errors; short symbolic links kept in the inode; write paths.
- ByteRead.ReadBytes: device errors, and reads that touch a block behind the end of the device.
- ext4_block_writebytes, FAT directories and paths, journaling, extended attributes, mounting and the command line.
