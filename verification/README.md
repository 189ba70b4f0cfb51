# NeXUS verification

NeXUS is a client-side encrypted filesystem: an enclave and a front end keep directories, file metadata and file
data encrypted in ordinary storage. This project models the stateful components that carry its logic and proves, for
all inputs and for whole runs, that each of them does what a much simpler object would do.

| files | component | what it is shown to be |
|---|---|---|
| `DirValues`, `Dirnode`, `DirRun` | directory node: entry list, two indexes, buckets, negative-lookup cache, symlinks | a finite map from names to (type, identifier); renames are map updates |
| `LittleEndian`, `DirBytes`, `DirStore`, `DirLoad` | its stored form: a main record and tag-pinned bucket files | load after store gives back the same directory, over any history of runs, stores and loads |
| `HeapBlocks`, `HeapBins`, `HeapAllocator` | boundary-tag allocator with sorted, doubly linked size bins | a tiling of the arena, allocated by global best fit |
| `BatchState`, `BatchBackend` | batch-mode metadata write-back over two stores and buffers | direct writes to one store, over any history of sessions and of writes between them |
| `Chunking`, `ChunkCache` | the front end's lazily filled chunk list, as a value | a flat file |
| `FileCrypto` | the enclave's transfer context | one encryption of each chunk, however it is cut |
| `FileStore` | the front end's inode above the transfers, and truncation | a flat file whose stored ciphertext is always right for the whole file |
| `Links`, `HashTable` | chained, growing hash table with a removing iterator, linked by `next` words | a finite map; a sweep visits every entry once |
| `Json`, `JsonTrip`, `JsonStandard`, `JsonPrinter`, `JsonParser` | JSON printer and parser (RFC 8259) | inverses on exactly the trees named `Good`; every value is read from its standard text |
| `Encode` | base64, its '.'-padded variant and hexadecimal (RFC 4648) | inverses, hexadecimal up to 512 bytes |
| `FilenodeTrailer` | metadata behind the data of a filenode's file | metadata comes back, data stays, up to a 32-bit sum |

Components that the code updates in place are classes whose methods state the new state; loops are loops with
invariants; what the code reads of the world (clocks, new identifiers, tags, file contents) are parameters. The lists of
the allocator and of the hash table are link words; other lists are sequences, and hash maps are finite maps. Unbounded
integers stand for the code's except where a width matters, and there it is written out.

Where the code does not do what it is for, the exact condition is proved:

- a free of the arena's first block does not merge with a hole to its right (`HeapBlocks.FreeCoalescedIff`,
  `HeapAllocator.FirstBlockStaysUnmerged`);
- in batch mode a sync with no buffer left skips the deletions (`BatchBackend.Backend.Finish`,
  `BatchBackend.LoneDeletionIsLost`), a delete of an object whose buffer does not know its file does not reach the store
  (`BatchBackend.Backend.Del`, `BatchBackend.FilenodeDeletionIsLost`), and an unlock of a dirty buffer drops what was put
  (`BatchBackend.Backend.Unlock`, `BatchBackend.UnlockDropsPut`);
- the tag of a file's last chunk is not compared on decryption (`FileCrypto.DecryptFile`,
  `FileCrypto.AnyLastTagAccepted`), as a comment in the code says;
- a file that is truncated within its last chunk cannot be read any more, because there the tag is compared after all
  (`FileStore.TruncateThenRead`, `FileStore.TruncationIsLost`);
- removing a name that is not there drops a symlink record if the caller's result variables happen to name one
  (`Dirnode.Dirnode.Remove`, `Dirnode.FailedRemoveDropsLink`);
- a directory survives a store exactly when it is within the widths of the stored form, which allow a symlink target at
  most 235 bytes (`DirStore.Store`, `DirLoad.LongTargetIsLost`);
- a hash table answers a lookup with the same word for an unbound key and for one bound to 0 (`HashTable.AnswerTells`);
- arrays of anything but objects are printed with the text of a null key, and strings are printed unescaped
  (`JsonTrip.RoundTrip`, `JsonTrip.NumbersAreLost`);
- hexadecimal text is decoded up to 1024 characters only (`Encode.HexTrip`);
- a filenode's sizes are added in 32 bits, which can cut off file data (`FilenodeTrailer.PrefixKept`,
  `FilenodeTrailer.WrapLosesData`).

## Model

| member | source | states |
|---|---|---|
| `Dirnode.Dirnode.constructor` | backend_sgx/enclave/dirnode.c:736-773 | a new directory is consistent, empty and has one bucket |
| `Dirnode.Dirnode.Parsed` | backend_sgx/enclave/dirnode.c:96-118 | the fields a header gives, and nothing loaded yet |
| `Dirnode.Dirnode.GetAvailableBucket` | backend_sgx/enclave/dirnode.c:597-627 | the first bucket with room; a new empty one at the end exactly when all are full |
| `Dirnode.Dirnode.Place` | backend_sgx/enclave/bucket.c:296-311 | the entry joins the first bucket with room; the buckets then hold the list plus the entry, with counts and sizes adding up |
| `Dirnode.Dirnode.Unplace` | backend_sgx/enclave/bucket.c:313-328 | the entry leaves its bucket; counts and sizes still add up and no other bucket changes |
| `Dirnode.Dirnode.Index` | backend_sgx/enclave/dirnode.c:666-673 | list and name index gain the entry; the identifier index stays sound, and exact if its identifier is new |
| `Dirnode.Dirnode.ForgetEntry` | backend_sgx/enclave/dirnode.c:675-682 | list and name index lose exactly this entry; the identifier index stays sound and exact |
| `Dirnode.Dirnode.AddDirentry` | backend_sgx/enclave/dirnode.c:687-705 | all representations gain the entry, the directory stays consistent, other buckets are as they were or dirty |
| `Dirnode.Dirnode.DelDirentry` | backend_sgx/enclave/dirnode.c:708-725 | all representations lose the entry and the directory stays consistent |
| `Dirnode.Dirnode.FindByName` | backend_sgx/enclave/dirnode.c:804-830 | with or without a cached failure the answer is that of a scan of the entry list; exactly a failure is remembered |
| `Dirnode.Dirnode.FindByUuid` | backend_sgx/enclave/dirnode.c:899-941 | an answer is a listed entry with the identifier; with distinct identifiers it fails only if there is none |
| `Dirnode.Dirnode.Add` | backend_sgx/enclave/dirnode.c:832-854 | binds a new name; fails exactly when the name is taken and then changes no name |
| `Dirnode.Dirnode.AddSymlink` | backend_sgx/enclave/dirnode.c:856-880 | adds a record of at most 1024 bytes of the target; the cached buffer length stays exact exactly when the target has at most 235 bytes |
| `Dirnode.Dirnode.AddLink` | backend_sgx/enclave/dirnode.c:882-897 | binds a new name to a symlink whose target is then found; fails exactly when the name is taken |
| `Dirnode.Dirnode.FindSymlink` | backend_sgx/enclave/dirnode.c:964-986 | the first record for the identifier, if any |
| `Dirnode.Dirnode.RemoveSymlink` | backend_sgx/enclave/dirnode.c:988-1014 | returns the recorded target and removes that record alone, with count and length |
| `Dirnode.Dirnode.GetLink` | backend_sgx/enclave/dirnode.c:1016-1040 | the recorded target |
| `Dirnode.Dirnode.Clobber` | backend_sgx/enclave/dirnode.c:1050-1056 | the entry with the name, if any, goes and is reported; the directory stays consistent |
| `Dirnode.Dirnode.Remove` | backend_sgx/enclave/dirnode.c:1059-1094 | unbinds the name, reports type, identifier and target; a failing call leaves the symlinks alone exactly when the caller's values do not name one |
| `Dirnode.Dirnode.Readdir` | backend_sgx/enclave/dirnode.c:1096-1150 | the requested page of the entry list and its length; refuses a zero count only |
| `Dirnode.MoveEntry` | backend_sgx/enclave/dirnode.c:1223-1225 | the entry moves under its new name, within a directory or across; both stay consistent |
| `Dirnode.MoveSymlink` | backend_sgx/enclave/dirnode.c:1228-1236 | the symlink record moves to the other directory |
| `Dirnode.CarriedKeepsTargets` | backend_sgx/enclave/dirnode.c:1228-1236 | the moved symlink keeps its target and no other target changes in either directory |
| `Dirnode.Rename` | backend_sgx/enclave/dirnode.c:1185-1244 | exactly "remove the old name, bind the new name to the same type and identifier"; reports the overwritten entry, moves the symlink, fails exactly when the old name is missing |
| `Dirnode.FailedRemoveDropsLink` | backend_sgx/enclave/dirnode.c:1059-1094 | a removal that fails and takes the symlink record of a name that stays |
| `DirRun.PerformAdd` | backend_sgx/enclave/dirnode.c:832-854 | a name is bound unless it is taken; only the drawn name joins the files |
| `DirRun.PerformLink` | backend_sgx/enclave/dirnode.c:882-897 | a name and a symlink record are added unless the name is taken |
| `DirRun.PerformRemove` | backend_sgx/enclave/dirnode.c:1059-1094 | the name goes, with the symlink record of what was removed or of what the caller's variables name |
| `DirRun.PerformRename` | backend_sgx/enclave/dirnode.c:1185-1244 | what a rename leaves in each directory, within one or across two |
| `DirRun.ApplyNames` | backend_sgx/enclave/dirnode.c:832-1094 | what every name is bound to after an add, a symlink or a remove: only the name given changes |
| `DirRun.ApplyRename` | backend_sgx/enclave/dirnode.c:1185-1244 | what every name of both directories is bound to after a rename: the new name takes the entry over whatever it had, the old name is free, and all others stay |
| `DirRun.ApplyTargets` | backend_sgx/enclave/dirnode.c:856-1244 | what every identifier leads to after each operation; a rename across directories takes the target along |
| `DirRun.Perform` | backend_sgx/enclave/dirnode.c:832-1244 | every operation has its meaning on names and symlink records, keeps both directories consistent, and uses no file name but the one drawn for it |
| `DirRun.FilesApart` | backend_sgx/enclave/dirnode.c:597-627 | a drawn file name goes to one directory, so the files of two directories stay apart |
| `DirRun.Run` | backend_sgx/enclave/dirnode.c:597-1244 | after every legal sequence of operations both directories are consistent and hold exactly the names and symlinks that the plain maps and lists hold; they have at most one bucket and one symlink record more for each, and with new identifiers their identifier indexes stay exact |
| `DirRun.LegalParts` | backend_sgx/enclave/dirnode.c:832-1244 | a legal run is legal in both its parts |
| `DirValues.AddStored` | backend_sgx/enclave/bucket.c:296-311 | adding to one bucket adds exactly one entry to the whole, and its length to the sizes |
| `DirValues.DelStored` | backend_sgx/enclave/bucket.c:313-328 | taking one out of its bucket takes exactly one entry from the whole |
| `DirValues.PlacedIn` | backend_sgx/enclave/dirnode.c:597-627 | a new entry goes to the end of the first bucket with fewer than 128 entries, or into a new last bucket when all hold 128; no other bucket changes |
| `DirValues.TakenFrom` | backend_sgx/enclave/bucket.c:313-328 | an entry leaves the bucket that holds it, the others there keep their order, and no other bucket changes |
| `DirValues.RemoveEmptyStored` | backend_sgx/enclave/dirnode.c:450-474 | dropping an empty bucket changes no entry, count or size |
| `DirValues.IndexDrop` | backend_sgx/enclave/dirnode.c:675-682 | the name index stays exact when an entry goes |
| `DirValues.UuidIndexDrop` | backend_sgx/enclave/dirnode.c:675-682 | the identifier index stays exact when an entry goes |
| `DirValues.ScanIsLookup` | backend_sgx/enclave/dirnode.c:804-830 | the name index answers as a linear scan does |
| `LittleEndian.LeRoundTrip` | backend_sgx/enclave/dirnode.c:8-28 | an integer that fits its field is read back |
| `LittleEndian.LeWraps` | backend_sgx/io.c:10-13 | one that does not is cut to its low bytes |
| `LittleEndian.FromLeIs` | backend_sgx/enclave/dirnode.c:8-28 | what two and four stored bytes stand for, as sums of the bytes |
| `DirBytes.ParseRecOf` | backend_sgx/enclave/bucket.c:71-96 | a stored entry is read back, whatever follows it |
| `DirBytes.RecLayout` | backend_sgx/enclave/dirnode.h:26-36 | where the bytes of an entry are, and the codes 1, 2 and 3 of its types |
| `DirBytes.RecsAt` | backend_sgx/enclave/bucket.c:216-235 | entries are stored in their order |
| `DirBytes.ParseRecsOf` | backend_sgx/enclave/bucket.c:151-235 | so is a bucket's list of entries |
| `DirBytes.RecsLength` | backend_sgx/enclave/bucket.c:216-235 | a bucket's stored entries have the length the bucket counts |
| `DirBytes.ParseLinkOf` | backend_sgx/enclave/dirnode.c:120-135 | a symlink record is read back exactly when its target has at most 235 bytes |
| `DirBytes.ParseLinksOf` | backend_sgx/enclave/dirnode.c:344-362 | all short symlink records are read back |
| `DirBytes.LinkLayout` | backend_sgx/enclave/dirnode.c:24-29 | where the bytes of a symlink record are |
| `DirBytes.LinksAt` | backend_sgx/enclave/dirnode.c:344-362 | symlink records are stored in their order |
| `DirBytes.ParseRecordOf` | backend_sgx/enclave/bucket.c:120-149 | a bucket record is read back |
| `DirBytes.ParseRecordsOf` | backend_sgx/enclave/dirnode.c:140-154 | so are all of them, in order |
| `DirBytes.RecordLayout` | backend_sgx/enclave/bucket.h:11-19 | where the 40 bytes of a bucket record are |
| `DirBytes.RecordsAt` | backend_sgx/enclave/dirnode.c:369-391 | bucket records are stored in their order, 40 bytes apart |
| `DirBytes.PatchMac` | backend_sgx/enclave/dirnode.c:438-438 | writing a tag into its record changes that record alone |
| `DirStore.ParseHeaderOf` | backend_sgx/enclave/dirnode.c:96-118 | the header is read back |
| `DirStore.HeaderLayout` | backend_sgx/enclave/dirnode.c:8-20 | where the 50 bytes of the header are |
| `DirStore.ParseMainOf` | backend_sgx/enclave/dirnode.c:214-273 | the main record is read back, whatever follows it |
| `DirStore.MainLayout` | backend_sgx/enclave/dirnode.c:324-405 | the main record is the header, the symlink records, the bucket records, the attributes and the first bucket, in this order |
| `DirStore.LoadOthersOf` | backend_sgx/enclave/dirnode.c:173-212 | every other bucket is loaded from its own file and passes the tag comparison |
| `DirStore.LoadedBacked` | backend_sgx/enclave/dirnode.c:173-212 | every other bucket of what the files read back as has a file with the tag of its record |
| `DirStore.StaleIsRefused` | backend_sgx/enclave/dirnode.c:195-199 | files that read back do not any more once a bucket file has another tag |
| `DirStore.TouchedInSync` | backend_sgx/enclave/dirnode.c:408-448 | operations only dirty buckets or add dirty ones, so clean buckets keep matching their files |
| `DirStore.MainFits` | backend_sgx/enclave/dirnode.c:43-53 | the computed size is the size of the contents, plus what over-long symlinks left behind |
| `DirStore.PutLinks` | backend_sgx/enclave/dirnode.c:344-362 | the symlink records follow what the buffer held |
| `DirStore.PutRecords` | backend_sgx/enclave/dirnode.c:369-391 | the bucket records follow what the buffer held |
| `DirStore.PutRecs` | backend_sgx/enclave/bucket.c:216-235 | the entries follow what the buffer held |
| `DirStore.Serialize` | backend_sgx/enclave/dirnode.c:324-405 | the buffer is filled with the main record, and exactly when no symlink was over-long |
| `DirStore.SerializeBucket` | backend_sgx/enclave/bucket.c:216-235 | a bucket's file is its entries, of the length it counts |
| `DirStore.DropEmpty` | backend_sgx/enclave/dirnode.c:450-474 | exactly the dirty empty buckets go, with their files; the directory stays consistent and in step with its files |
| `DirStore.PatchMain` | backend_sgx/enclave/dirnode.c:408-448 | patching a tag in the buffer gives the main record with that bucket's new tag |
| `DirStore.StoreOthers` | backend_sgx/enclave/dirnode.c:408-448 | every dirty bucket gets its file, and its record in the buffer the file's tag; clean ones are left alone |
| `DirStore.DroppedGone` | backend_sgx/enclave/dirnode.c:461-468 | the file of a dropped bucket is gone after the store |
| `DirStore.CleanKept` | backend_sgx/enclave/dirnode.c:408-448 | a clean bucket keeps its file and its tag over a store |
| `DirStore.ParsedIsStorable` | backend_sgx/enclave/dirnode.c:96-154 | whatever the files read back as is within the widths of the stored form |
| `DirStore.Store` | backend_sgx/enclave/dirnode.c:477-593 | the files read back as exactly this directory if and only if it is within the widths of the stored form; the main file begins with the main record, dirty empty buckets lose their files, clean buckets and their files stay, nothing is dirty, and other files are untouched |
| `DirLoad.LoadBucket` | backend_sgx/enclave/bucket.c:151-169 | entries read into bucket, list and indexes; fails exactly when they do not parse |
| `DirLoad.ParseSymlinks` | backend_sgx/enclave/dirnode.c:120-135 | the symlink records of the header's count |
| `DirLoad.ParseBucketRecords` | backend_sgx/enclave/dirnode.c:140-154 | the bucket records of the header's count, without entries |
| `DirLoad.LoadOtherBuckets` | backend_sgx/enclave/dirnode.c:173-212 | fails exactly when a file is missing, malformed or has another tag; when it succeeds every bucket has a file with its tag and its entries |
| `DirLoad.LoadMain` | backend_sgx/enclave/dirnode.c:214-260 | builds the directory the main record describes |
| `DirLoad.Load` | backend_sgx/enclave/dirnode.c:214-319 | builds the directory the files describe, or fails exactly when they describe none; every bucket it holds but the first has a file, whose tag is the one in the bucket's record |
| `DirLoad.SameImage` | backend_sgx/enclave/dirnode.c:214-273 | a loaded directory is consistent and has the names of the stored one, though its list is in another order; its identifier index is exact if the stored one was |
| `DirLoad.StoreThenLoad` | backend_sgx/enclave/dirnode.c:302-593 | the files describe the directory afterwards exactly when it is within the widths of the stored form; what is loaded is what they describe, and then names, types, identifiers, symlinks and attributes agree |
| `DirLoad.StoreThenStale` | backend_sgx/enclave/dirnode.c:195-199 | after a store, a file with another tag in the place of any bucket file makes the load fail |
| `DirLoad.StoreBoth` | backend_sgx/enclave/dirnode.c:214-593 | two directories are stored and loaded without disturbing each other; the files describe each exactly when it is within the widths of the stored form |
| `DirLoad.Epoch` | backend_sgx/enclave/dirnode.c:302-1244 | a run on two directories, then a store and a load of each: they have exactly the names and symlinks of the run, and the files describe each of them exactly when it is within the widths of the stored form |
| `DirLoad.OnDiskElsewhere` | backend_sgx/enclave/dirnode.c:214-319 | writing the files of one directory does not change what another loads as |
| `DirLoad.RecoveredIs` | backend_sgx/enclave/dirnode.c:214-319 | what the files show of a stored directory is its names and symlinks |
| `DirLoad.NextEpoch` | backend_sgx/enclave/dirnode.c:302-1244 | one more run of a legal history |
| `DirLoad.RunEpochs` | backend_sgx/enclave/dirnode.c:302-1244 | the runs of a history one after the other, until a directory is too wide |
| `DirLoad.RoomyIsStorable` | backend_sgx/enclave/dirnode.c:43-53 | short targets and counts below 65536 keep a directory within the widths of the stored form |
| `DirLoad.SpareIsStorable` | backend_sgx/enclave/dirnode.c:43-53 | a directory that had room for a whole history can be stored at every moment of it |
| `DirLoad.Epochs` | backend_sgx/enclave/dirnode.c:302-1244 | any history of runs with a store and a load of both directories after each: the names and symlinks are those of the history, and so are those of the files; it stops early exactly where a run has made a directory too wide, which the files then do not describe, and never where there is room for its operations and every symlink target is short |
| `DirLoad.FromNew` | backend_sgx/enclave/dirnode.c:736-773 | all of this from two new directories; every history of fewer than 65535 operations without a target of more than 235 bytes gets through |
| `DirLoad.LongTargetIsLost` | backend_sgx/enclave/dirnode.c:856-880 | a stored directory that its files do not describe, because of one long symlink target |
| `HeapBlocks.TilesConserve` | libnexus/nexus_heap.c:155-271 | payload sizes plus per-block overhead sum to the arena |
| `HeapBlocks.AllocTiles` | libnexus/nexus_heap.c:194-207 | splitting a hole keeps the tiling |
| `HeapBlocks.FuseTiles` | libnexus/nexus_heap.c:238-266 | merging neighbours keeps the tiling |
| `HeapBlocks.AllocCoalesced` | libnexus/nexus_heap.c:173-215 | an allocation never makes two holes neighbours |
| `HeapBlocks.FreeCoalescedIff` | libnexus/nexus_heap.c:217-271 | a free keeps holes merged exactly when it is not of the first block with a hole to its right |
| `HeapBlocks.AllocIs` | libnexus/nexus_heap.c:194-214 | a hole is cut exactly when more than 36 bytes would be left over; the request then has its size and the rest, less 32 bytes, is the next block |
| `HeapBlocks.FreeIs` | libnexus/nexus_heap.c:217-271 | the freed block with its free neighbours, and 32 bytes for every joint, is one hole; the first block joins nothing |
| `HeapBlocks.FreeKeepsOtherLive` | libnexus/nexus_heap.c:217-271 | a free takes away that live block and no other |
| `HeapBlocks.AllocKeepsLive` | libnexus/nexus_heap.c:173-215 | an allocation adds one live block and keeps the others |
| `HeapBins.BinIndexUsable` | libnexus/nexus_heap.c:121-145 | every size a header can hold has a usable bin, and no larger size has |
| `HeapBins.BinIndexIs` | libnexus/nexus_heap.c:121-134 | bin k holds sizes from 2^(k + 2) up to below 2^(k + 3) |
| `HeapBins.BinIndexMonotone` | libnexus/nexus_heap.c:121-134 | larger sizes never have smaller bins |
| `HeapBins.GetBinIndex` | libnexus/nexus_heap.c:121-134 | the shifting loop computes the binary logarithm less two, capped |
| `HeapBins.AddNode` | libnexus/nexus_heap.c:26-63 | the walk over `next` inserts behind every node that is not larger; the words denote the longer bin |
| `HeapBins.RemoveNode` | libnexus/nexus_heap.c:65-89 | the node is unlinked through its `prev` and `next`, if it is listed |
| `HeapBins.InsertLinked` | libnexus/nexus_heap.c:26-63 | the changed `next` and `prev` words denote the bin with the node in it |
| `HeapBins.RemoveLinked` | libnexus/nexus_heap.c:65-89 | the changed words denote the bin without the node |
| `HeapBins.BinRewritten` | libnexus/nexus_heap.c:26-89 | changing one bin leaves the words of all others as they were |
| `HeapBins.GetBestFit` | libnexus/nexus_heap.c:91-106 | the first node of the bin that is large enough, or none |
| `HeapBins.FileHole` | libnexus/nexus_heap.c:26-63 | filing a hole keeps bins sorted, disjoint and by size |
| `HeapBins.UnfileHole` | libnexus/nexus_heap.c:65-89 | so does taking one out |
| `HeapBins.FirstFitIsBest` | libnexus/nexus_heap.c:173-190 | the first fit of the first bin with one is minimal over the whole heap |
| `HeapBins.Search` | libnexus/nexus_heap.c:178-192 | fails only if no hole of the heap fits, else finds a minimal fit |
| `HeapAllocator.Heap.constructor` | libnexus/nexus_heap.c:155-171 | one hole over the whole arena, filed in its bin |
| `HeapAllocator.Heap.File` | libnexus/nexus_heap.c:147-153 | the hole is listed under the size in its header |
| `HeapAllocator.Heap.Unfile` | libnexus/nexus_heap.c:65-89 | the hole leaves its bin |
| `HeapAllocator.Heap.Carve` | libnexus/nexus_heap.c:194-207 | headers, footers and bins after a split |
| `HeapAllocator.Heap.Give` | libnexus/nexus_heap.c:194-214 | memory and bins stay in step with the blocks when a hole is given out; the block has the size asked for unless the hole had at most 36 bytes more |
| `HeapAllocator.Heap.Malloc` | libnexus/nexus_heap.c:173-215 | nothing exactly when no hole fits, else 24 bytes into a global best fit, whose rest becomes a hole exactly when it had more than 36 bytes to spare; headers, footers and bins stay in step |
| `HeapAllocator.Heap.MergeLeft` | libnexus/nexus_heap.c:234-250 | a free left neighbour takes over the block |
| `HeapAllocator.Heap.MergeRight` | libnexus/nexus_heap.c:252-266 | the block takes over a free right neighbour, whose words are wiped |
| `HeapAllocator.Heap.Merge` | libnexus/nexus_heap.c:224-268 | the words and bins after both merges |
| `HeapAllocator.Heap.Free` | libnexus/nexus_heap.c:217-271 | the live block becomes one hole with its free neighbours; every footer points to its own header |
| `HeapAllocator.Spelled` | libnexus/nexus_heap.c:155-271 | the header, the footer and the end of every block, in bytes |
| `HeapAllocator.OwnedAfterAlloc` | libnexus/nexus_heap.c:173-215 | pointers a client holds stay distinct and live, and the new one joins them |
| `HeapAllocator.OwnedAfterFree` | libnexus/nexus_heap.c:217-271 | the other pointers a client holds stay distinct and live |
| `HeapAllocator.ServedSafely` | libnexus/nexus_heap.c:173-271 | whichever way a request is served, the arena stays tiled and the pointers held stay distinct and live |
| `HeapAllocator.SessionIsSafe` | libnexus/nexus_heap.c:155-271 | at every moment of a session the arena is tiled and conserved, and the pointers held are distinct, live and do not overlap |
| `HeapAllocator.SessionIsCoalesced` | libnexus/nexus_heap.c:173-271 | in a session that never frees the first block no two holes are neighbours |
| `HeapAllocator.LastHoleServes` | libnexus/nexus_heap.c:173-215 | one hole behind live blocks serves a request that fits |
| `HeapAllocator.AsksArePacked` | libnexus/nexus_heap.c:155-215 | a fresh arena serves every sequence of requests that, with 68 bytes for each, fit it: they lie one behind the other and the rest is one hole |
| `HeapAllocator.Drive` | libnexus/nexus_heap.c:155-271 | for every sequence of requests the allocator serves each one: an allocation fails exactly when no hole fits and else is a best fit, a free takes the pointer back; requests that with 68 bytes for each fit the arena are all served, at known addresses |
| `HeapAllocator.FirstBlockUnmerged` | libnexus/nexus_heap.c:226-230 | taking a small block from a fresh arena and giving it back leaves two neighbouring holes |
| `HeapAllocator.FirstBlockStaysUnmerged` | libnexus/nexus_heap.c:226-230 | two calls of a fresh heap that do so |
| `BatchState.OpenedInBatchSound` | backend_sgx/io.c:251-298 | opening in the batch store keeps the invariant and the pending value |
| `BatchState.ReadSound` | backend_sgx/io.c:370-440 | a read keeps the invariant, changes nothing pending and ends with the pending value in the buffer |
| `BatchState.PutSound` | backend_sgx/io.c:593-661 | a put keeps the invariant and makes its content the pending value |
| `BatchState.SyncedSound` | backend_sgx/io.c:902-952 | syncing one object keeps the invariant and its pending value |
| `BatchState.CommitSound` | backend_sgx/io.c:972-1046 | a whole sync, object by object, keeps the invariant and everything pending |
| `BatchState.PutMarked` | backend_sgx/io.c:593-661 | what a run alone tells about an object that was put |
| `BatchState.CommitMarked` | backend_sgx/io.c:972-1046 | what a run alone tells about an object after a sync |
| `BatchState.Settled` | backend_sgx/io.c:955-1046 | with nothing modified the store is what is pending exactly when no listed deletion is in it |
| `BatchState.LastWriter` | backend_sgx/io.c:594-804 | after any run on a plain store an object is what the last operation that wrote it left |
| `BatchState.ReadSeesLast` | backend_sgx/io.c:454-497 | a read sees the store as the operations before it left it |
| `BatchState.DeletedStaysReadable` | backend_sgx/io.c:785-842 | a deleted object is still returned by a read until the next sync |
| `BatchBackend.Backend.constructor` | backend_sgx/main.c:110-220 | no buffers, no session |
| `BatchBackend.Backend.OpenBatch` | backend_sgx/io.c:229-298 | when opening in the batch store works, and the slot it leaves |
| `BatchBackend.Backend.OpenMetadata` | backend_sgx/io.c:251-298 | when opening in the metadata store works, and the slot it leaves |
| `BatchBackend.Backend.Open` | backend_sgx/io.c:251-298 | which of the two is opened |
| `BatchBackend.Backend.Release` | backend_sgx/io.c:181-226 | closing clears the dirty flag |
| `BatchBackend.Backend.Acquire` | backend_sgx/io.c:681-699 | finds or makes the buffer and opens it |
| `BatchBackend.Backend.Lock` | backend_sgx/io.c:681-699 | an existing or new object is locked; no object changes |
| `BatchBackend.Backend.WriteThrough` | backend_sgx/io.c:593-661 | a filenode is written through, a plain object only outside batch mode |
| `BatchBackend.Backend.Mark` | backend_sgx/io.c:593-661 | the buffer after a put |
| `BatchBackend.Backend.Store` | backend_sgx/io.c:593-661 | the slot after a put |
| `BatchBackend.Backend.Put` | backend_sgx/io.c:593-661 | works exactly on a locked object, whose value it becomes, and touches no other |
| `BatchBackend.Backend.Unlock` | backend_sgx/io.c:716-729 | no object changes exactly when no unsynced put would be lost; else the object falls back to the batch copy |
| `BatchBackend.Backend.New` | backend_sgx/io.c:745-769 | an empty object appears exactly when its identifier is unused or its file empty, and not deleted in the session |
| `BatchBackend.Backend.Del` | backend_sgx/io.c:785-803 | the object disappears exactly when it is not committed or was opened before; else it reverts to its committed value |
| `BatchBackend.Backend.Fill` | backend_sgx/io.c:302-331 | the open file is copied into the buffer |
| `BatchBackend.Backend.Load` | backend_sgx/io.c:370-440 | the file is opened for that if need be, and closed again |
| `BatchBackend.Backend.Read` | backend_sgx/io.c:370-440 | skipped for a buffer that is dirty or not older than the file |
| `BatchBackend.Backend.Fetch` | backend_sgx/io.c:370-440 | the buffer holds the object afterwards |
| `BatchBackend.Backend.Get` | backend_sgx/io.c:453-496 | returns the object, changes none |
| `BatchBackend.Backend.SyncOne` | backend_sgx/io.c:902-952 | the slot after its value went to the metadata store |
| `BatchBackend.Backend.SyncDeleted` | backend_sgx/io.c:954-970 | the listed objects are gone from the store and the list is empty |
| `BatchBackend.Backend.SyncBuffer` | backend_sgx/io.c:995-1040 | one buffer is synced if it is modified |
| `BatchBackend.Backend.SyncBuffers` | backend_sgx/io.c:995-1040 | every modified buffer is synced and nothing else changes |
| `BatchBackend.Backend.Sync` | backend_sgx/io.c:972-1046 | nothing pending changes, no buffer stays modified; deletions are done exactly when there is a buffer |
| `BatchBackend.Backend.Start` | backend_sgx/main.c:229-246 | no object changes exactly when no deletion was left over |
| `BatchBackend.Backend.BatchCommit` | backend_sgx/main.c:248-270 | no object changes; the store holds them all exactly when a buffer exists or no deletion is listed |
| `BatchBackend.Backend.Finish` | backend_sgx/main.c:272-296 | the store ends with the objects exactly when a buffer exists or no deletion is listed |
| `BatchBackend.Backend.PerformPut` | backend_sgx/io.c:593-699 | a lock and a put replace one object |
| `BatchBackend.Backend.PerformNew` | backend_sgx/io.c:745-769 | one empty object appears |
| `BatchBackend.Backend.PerformGet` | backend_sgx/io.c:370-496 | the object is returned and none changes |
| `BatchBackend.Backend.PerformDel` | backend_sgx/io.c:785-803 | one object disappears |
| `BatchBackend.Backend.PerformCommit` | backend_sgx/main.c:248-270 | no object changes |
| `BatchBackend.Backend.Perform` | backend_sgx/io.c:370-842 | every legal step acts on the objects as a direct write would, in and out of a session |
| `BatchBackend.Backend.SureIsLegal` | backend_sgx/io.c:593-842 | a condition on the run alone, by which an operation is sure to have its documented effect |
| `BatchBackend.Backend.PerformNext` | backend_sgx/io.c:370-842 | one more operation of a run acts as on a plain store |
| `BatchBackend.Backend.RunOps` | backend_sgx/io.c:370-842 | a run refines the same run on a plain store and stops only in front of an operation that would not |
| `BatchBackend.Backend.RunSession` | backend_sgx/main.c:229-296 | a session refines direct writes: every get sees the last put, and the store ends as without batching; it succeeds wherever the run alone shows that it will, and is then ready for the next |
| `BatchBackend.SessionKeepsLast` | backend_sgx/main.c:229-296 | a session that makes two objects, commits, reads one and deletes it always succeeds, reads what was written and leaves the other |
| `BatchBackend.Backend.RunPart` | backend_sgx/main.c:229-296 | a session, or operations outside any session, refine direct writes |
| `BatchBackend.Backend.RunHistory` | backend_sgx/main.c:229-296 | any history of sessions and of operations between them refines direct writes to one store, and does not stop where the history alone shows it will not |
| `BatchBackend.LoneDeletionIsLost` | backend_sgx/io.c:991-994 | a session that deletes the only buffered object and leaves it in the store |
| `BatchBackend.UnlockDropsPut` | backend_sgx/io.c:716-729 | a session whose successful put is dropped by an unlock |
| `BatchBackend.FilenodeDeletionIsLost` | backend_sgx/io.c:785-803 | a session whose successful delete leaves the object in the store |
| `Chunking.ChunkNumberIs` | frontend_fuse/io.c:6-18 | the chunk arithmetic is division by 1048576 |
| `Chunking.CMinIsMin` | libnexus/nexus_util.h:26-30 | the `int` minimum is a minimum below 2^31 |
| `Chunking.CMinIs` | libnexus/nexus_util.h:26-30 | what the `int` minimum gives for any 32-bit size |
| `ChunkCache.FetchKeeps` | frontend_fuse/frontend_handler.c:490-546 | fetching a chunk does not change the file |
| `ChunkCache.WriteKeeps` | frontend_fuse/io.c:44-61 | writing into a chunk changes the bytes written and no others |
| `ChunkCache.OverlayAt` | frontend_fuse/io.c:44-61 | every byte of the flat file after a write |
| `ChunkCache.FlatStepIs` | frontend_fuse/io.c:44-335 | an operation on the flat file writes its bytes at their place or leaves the file alone |
| `FileCrypto.EncryptPieces` | backend_sgx/enclave/file_crypto.c:213-254 | a positional cipher does not notice how its input is cut |
| `FileCrypto.CipherAt` | backend_sgx/enclave/file_crypto.c:213-254 | every byte goes through the cipher with its place in the chunk |
| `FileCrypto.Transfer.constructor` | backend_sgx/enclave/file_crypto.c:97-111 | no chunk is open |
| `FileCrypto.Transfer.Seek` | backend_sgx/enclave/file_crypto.c:114-177 | works exactly at a chunk boundary of the file and outside an unfinished chunk |
| `FileCrypto.Transfer.Flush` | backend_sgx/enclave/file_crypto.c:179-211 | the tag is stored, or compared unless the chunk is the last |
| `FileCrypto.Transfer.Update` | backend_sgx/enclave/file_crypto.c:213-254 | processes what the chunk takes and flushes exactly when it is done |
| `FileCrypto.Transfer.TransferPiece` | backend_sgx/enclave/file_crypto.c:213-254 | one update gets that much further in the chunk |
| `FileCrypto.Transfer.TransferChunk` | backend_sgx/enclave/file_crypto.c:213-254 | for every sequence of update sizes, zero included, the output depends only on how many bytes they ask for together; the tag is flushed exactly once, by the update that reaches the end |
| `FileCrypto.EncryptPiece` | backend_sgx/enclave/file_crypto.c:114-254 | a chunk is sealed under a new key and no other chunk is touched |
| `FileCrypto.EncryptFile` | backend_sgx/enclave/file_crypto.c:114-254 | every chunk is sealed under the key drawn for it |
| `FileCrypto.DecryptPiece` | backend_sgx/enclave/file_crypto.c:114-254 | fails exactly when the tag is compared and wrong |
| `FileCrypto.DecryptFile` | backend_sgx/enclave/file_crypto.c:114-254 | fails exactly when a compared tag is wrong |
| `FileCrypto.SealedOpens` | backend_sgx/enclave/file_crypto.c:114-254 | a sealed file opens to its plaintext |
| `FileCrypto.SealedByte` | backend_sgx/enclave/file_crypto.c:114-254 | every byte of a sealed file is the cipher of its byte, with the key of its megabyte and its place there; the tag is over that megabyte |
| `FileCrypto.OpenedByte` | backend_sgx/enclave/file_crypto.c:114-254 | every byte of an opened file comes from its byte of the text, with that key and place |
| `FileCrypto.RoundTrip` | backend_sgx/enclave/file_crypto.c:114-254 | encrypting and decrypting with two unrelated sequences of updates gives the file back |
| `FileCrypto.AnyLastTagAccepted` | backend_sgx/enclave/file_crypto.c:179-211 | a file that is accepted with any tag on its last chunk |
| `FileCrypto.Filenode.SetFilesize` | backend_sgx/enclave/filenode.c:395-438 | chunk records are added or taken at the end; the encrypted length is cut back only when their number changes |
| `FileStore.UncachedPiece` | frontend_fuse/frontend_handler.c:582-611 | a chunk that is not cached is stored in full already, even when the file has grown |
| `FileStore.OneFurther` | frontend_fuse/frontend_handler.c:582-611 | encrypting one cached chunk seals its piece and leaves the others |
| `FileStore.AllSealed` | frontend_fuse/frontend_handler.c:582-611 | with every cached chunk encrypted the whole file is sealed |
| `FileStore.PieceOpens` | frontend_fuse/frontend_handler.c:505-532 | the bytes that a fetch asks for are the chunk of the enclave, and they open to the stored file |
| `FileStore.DecryptAt` | backend_sgx/file_ops.c:64-139 | a seek and an update that decrypt part of the stored file, at chunk boundaries only |
| `FileStore.EndIsEncrypted` | backend_sgx/enclave/file_crypto.c:179-211 | when the file has grown its last byte is encrypted anew, so the encrypted length is the size |
| `FileStore.Inode.constructor` | frontend_fuse/frontend_handler.c:121-145 | a clean inode over a record and a ciphertext stands for the stored file |
| `FileStore.Inode.FindChunk` | frontend_fuse/io.c:94-111 | the chunk of the offset, or none if it is not cached |
| `FileStore.Inode.FetchChunk` | frontend_fuse/frontend_handler.c:490-546 | the chunk's bytes of the stored file, decrypted; none exactly when the stored file does not have them or the base is no chunk boundary |
| `FileStore.Inode.TryAddChunk` | frontend_fuse/io.c:114-149 | the chunk is in the list afterwards and no byte of the file changed, although the file may already be longer than the stored one |
| `FileStore.Inode.UpdateChunk` | frontend_fuse/io.c:44-61 | the bytes that fit are written, the others kept |
| `FileStore.Inode.Write` | frontend_fuse/io.c:247-298 | the flat file is overlaid with the data |
| `FileStore.Inode.LoadChunk` | frontend_fuse/io.c:151-177 | refused exactly past the end without write access |
| `FileStore.Inode.ReadDataPtr` | frontend_fuse/io.c:226-244 | the flat file's bytes up to the chunk's end |
| `FileStore.Inode.Read` | frontend_fuse/io.c:179-224 | the flat file's bytes |
| `FileStore.Inode.FuseRead` | frontend_fuse/fuse_interface.c:831-901 | the flat file's bytes, also over a chunk boundary |
| `FileStore.Inode.EncryptChunk` | frontend_fuse/frontend_handler.c:582-611 | one chunk of the list is encrypted over what was stored there, under the key drawn for it, and no other chunk's record changes |
| `FileStore.Inode.EncryptChunks` | frontend_fuse/frontend_handler.c:582-611 | the loop over the chunk list encrypts each chunk and nothing else; the encrypted length becomes the size |
| `FileStore.Inode.Store` | frontend_fuse/frontend_handler.c:548-637 | stores exactly when dirty, not deleted and with one opener; then the stored file is the flat file, and ciphertext, tags and encrypted length are right for all of it, though only cached chunks were encrypted |
| `FileStore.KeptBytes` | frontend_fuse/frontend_handler.c:548-637 | at every moment every byte of the stored file is the cipher of the plaintext's, with the key of its megabyte |
| `FileStore.Inode.Open` | frontend_fuse/io.c:300-323 | one more opener |
| `FileStore.Inode.Release` | frontend_fuse/fuse_interface.c:571-583 | after the last release the inode is clean and stored |
| `FileStore.Inode.Perform` | frontend_fuse/io.c:179-335 | every step acts on the flat file |
| `FileStore.Inode.Run` | frontend_fuse/io.c:44-335 | any interleaving of opens, writes, reads, flushes and releases acts on the flat file, with every fetch decrypted and every store encrypted; the ciphertext is always right for the stored file, and for the flat file whenever nobody has it open |
| `FileStore.ReadBack` | backend_sgx/enclave/file_crypto.c:114-254 | decrypting the stored ciphertext gives the stored file |
| `FileStore.WriteThenReadBack` | frontend_fuse/io.c:44-335 | a new file, any such interleaving up to the first operation that is not legal, and a decryption: exactly what the writes made |
| `FileStore.CutTags` | backend_sgx/enclave/filenode.c:395-438 | the tags that are compared after a truncation are right exactly when the size is readable |
| `FileStore.PieceOfCut` | backend_sgx/enclave/file_crypto.c:114-177 | a piece of a file that was cut is the front of the piece |
| `FileStore.CutOpens` | backend_sgx/enclave/file_crypto.c:114-254 | a file that was cut opens to the front of what it was |
| `FileStore.TruncateThenRead` | backend_sgx/enclave/ecalls/files.c:3-41 | a truncated file reads as its front, or fails; it fails exactly when it was cut within its last chunk, below the encrypted length, and the tags differ |
| `FileStore.TruncationIsLost` | backend_sgx/enclave/filenode.c:408-414 | an encrypted file that cannot be read after it was cut |
| `HashTable.LimitsFit` | libnexus/nexus_hashtable.c:144-164 | every load limit is below its table length and they grow |
| `HashTable.SizesAre` | libnexus/nexus_hashtable.c:144-162 | the table sizes, and that each table is filled to 65 percent, rounded up |
| `HashTable.SpreadValues` | libnexus/nexus_hashtable.c:65-79 | values of the mixing function |
| `Links.StrungPush` | libnexus/nexus_hashtable.c:326-330 | a node whose `next` is the head lists the longer chain |
| `Links.StrungCut` | libnexus/nexus_hashtable.c:484-484 | setting the `next` of its predecessor takes a node out of the chain |
| `Links.StrungElsewhere` | libnexus/nexus_hashtable.c:238-246 | words that a chain does not use can change |
| `HashTable.Table.Rehash` | libnexus/nexus_hashtable.c:212-249 | every entry moves to the chain of its hash; none is lost, doubled or changed |
| `HashTable.MoveNode` | libnexus/nexus_hashtable.c:240-245 | moving a head node relinks two chains and breaks neither |
| `HashTable.Table.MoveChain` | libnexus/nexus_hashtable.c:238-246 | a whole old chain moves |
| `HashTable.PushKeeps` | libnexus/nexus_hashtable.c:299-334 | pushing an entry on the chain of its hash adds that entry and keeps every chain right |
| `HashTable.InsertRepresents` | libnexus/nexus_hashtable.c:299-334 | a new key's entry extends the map |
| `HashTable.RemoveRepresents` | libnexus/nexus_hashtable.c:455-510 | taking out a key's entry removes its binding |
| `HashTable.ChangeRepresents` | libnexus/nexus_hashtable.c:336-366 | changing an entry's value rebinds its key |
| `HashTable.Table.constructor` | libnexus/nexus_hashtable.c:166-209 | an empty table of the chosen prime |
| `HashTable.Table.Create` | libnexus/nexus_hashtable.c:166-209 | an empty table of the smallest listed prime above the requested size; refused exactly beyond 2^30 |
| `HashTable.Table.Expand` | libnexus/nexus_hashtable.c:212-292 | moves to the next prime exactly when there is one, with the same entries |
| `HashTable.Table.MakeRoom` | libnexus/nexus_hashtable.c:299-320 | the count fits the load limit until the last prime; the count itself wraps at 32 bits |
| `HashTable.Table.Insert` | libnexus/nexus_hashtable.c:299-334 | one more entry, in the chain of its hash |
| `HashTable.Table.Locate` | libnexus/nexus_hashtable.c:427-452 | the key's node with its predecessor, or proof that there is none |
| `HashTable.Table.Search` | libnexus/nexus_hashtable.c:427-452 | the word that a lookup answers with: the bound value, or 0 |
| `HashTable.AnswerTells` | libnexus/nexus_hashtable.c:427-452 | the word tells bound from unbound exactly when no equal key is bound to 0 |
| `HashTable.ApplyAnswers` | libnexus/nexus_hashtable.c:300-510 | what the map answers for every key after each operation: other keys answer as before |
| `HashTable.Table.Change` | libnexus/nexus_hashtable.c:336-366 | rebinds a bound key, fails exactly on others |
| `HashTable.Table.Unlink` | libnexus/nexus_hashtable.c:484-486 | the node is taken out through its predecessor, or through the head |
| `HashTable.Table.FreeNode` | libnexus/nexus_hashtable.c:488-492 | the node is given back and no chain changes |
| `HashTable.Table.CondRemove` | libnexus/nexus_hashtable.c:455-510 | removes the key's entry exactly when the condition accepts its value; returns the value, or 0 |
| `HashTable.Step` | backend_sgx/buffer_manager.c:64-83 | one operation acts on a finite map and answers with the word of the key, a rebinding with whether the key was bound |
| `HashTable.Run` | libnexus/nexus_hashtable.c:144-510 | any sequence of operations over any number of expansions is a run of a finite map, with its answers |
| `HashTable.NextChainIs` | libnexus/nexus_hashtable.c:571-604 | the next chain with an entry starts what is left of the iteration |
| `HashTable.Iter.constructor` | libnexus/nexus_hashtable.c:571-604 | starts at the first entry, unless the count reads zero |
| `HashTable.Iter.SeekFrom` | libnexus/nexus_hashtable.c:593-601 | on the first entry from a chain on |
| `HashTable.Iter.Current` | libnexus/nexus_hashtable.c:614-625 | the entry the iterator is on |
| `HashTable.Iter.Move` | libnexus/nexus_hashtable.c:629-680 | on the next entry, with its predecessor |
| `HashTable.Iter.Advance` | libnexus/nexus_hashtable.c:629-680 | passes exactly one entry |
| `HashTable.Iter.Remove` | libnexus/nexus_hashtable.c:683-717 | unlinks the current node through `parent`, moves on and corrects `parent`: exactly the current entry goes and the rest of the iteration is as it was |
| `HashTable.AfterRemove` | libnexus/nexus_hashtable.c:683-717 | the place behind a removed entry has the same entries before and after it |
| `HashTable.Iter.Visit` | libnexus/nexus_hashtable.c:629-717 | one entry of the rest is passed or removed |
| `HashTable.Iter.Search` | libnexus/nexus_hashtable.c:721-757 | moves to the key's entry, or stays exactly when there is none |
| `HashTable.Sweep` | libnexus/nexus_hashtable.c:571-717 | for any choice of removals an iteration visits every entry once and leaves exactly the others |
| `JsonTrip.NotAhead` | libnexus/nxjson.c:565-621 | unescaping never yields the text with backslashes in front |
| `JsonTrip.StringTrip` | libnexus/nxjson.c:565-621 | a printed string is read back exactly when it has no quote and no backslash that begins an escape |
| `JsonStandard.EscapesAre` | libnexus/nxjson.c:582-612 | what each escape stands for, by character code; a backslash before anything else stands for itself |
| `JsonStandard.QuotedTrip` | libnexus/nxjson.c:565-621 | unescaping undoes the escapes of section 7 of RFC 8259 for every C string, with the solidus escaped or not |
| `JsonTrip.NumberTrip` | libnexus/nxjson.c:805-846 | every 64-bit integer is read back, although the base is taken from the prefix |
| `JsonTrip.NumberRead` | libnexus/nxjson.c:805-846 | a numeral is read to base 16, 8 or 10 as its prefix tells, with or without a sign, and refused exactly outside 64 bits |
| `JsonTrip.PrintedNumeral` | libnexus/nxjson.c:318-320 | a printed number is its numeral to base ten |
| `JsonStandard.SpacesSkipped` | libnexus/nxjson.c:730-748 | white space is skipped before values, keys and colons |
| `JsonStandard.CommentSkipped` | libnexus/nxjson.c:880-902 | comments of both kinds are skipped wherever a value or a key may stand |
| `JsonStandard.StandardTrip` | libnexus/nxjson.c:724-908 | every value is read from its RFC 8259 text, with any white space between the tokens, and what follows it is left |
| `JsonStandard.MembersStandard` | libnexus/nxjson.c:749-772 | the members of an object, in order |
| `JsonStandard.ItemsStandard` | libnexus/nxjson.c:773-788 | the items of an array, in order |
| `JsonStandard.Refused` | libnexus/nxjson.c:847-905 | a text that begins like no value is refused |
| `JsonTrip.KeyTrip` | libnexus/nxjson.c:649-722 | a printed key is read back exactly when it is such a string |
| `JsonTrip.MembersTrip` | libnexus/nxjson.c:749-772 | a good object is read back at any depth |
| `JsonTrip.ItemsTrip` | libnexus/nxjson.c:773-788 | a good array is read back at any depth |
| `JsonTrip.MembersOnly` | libnexus/nxjson.c:749-772 | an object that is read back is good |
| `JsonTrip.ItemsOnly` | libnexus/nxjson.c:244-251 | an array that is read back holds only good objects |
| `JsonTrip.ValueTrip` | libnexus/nxjson.c:237-334 | every good tree is read back and what follows it is left |
| `JsonTrip.ValueOnly` | libnexus/nxjson.c:724-908 | every printable tree that is read back is good |
| `JsonTrip.RoundTrip` | libnexus/nxjson.c:164-360 | parsing gives back a printed tree exactly when it is good and its root has no key |
| `JsonTrip.NumbersAreLost` | libnexus/nxjson.c:244-251 | an array of a number does not come back |
| `JsonTrip.ObjectLayout` | libnexus/nxjson.c:256-311 | the printed form of an object of two members, and of an empty one |
| `JsonTrip.ArrayLayout` | libnexus/nxjson.c:244-311 | the printed form of an array of an object and of something else |
| `JsonPrinter.Serializer.constructor` | libnexus/nxjson.c:338-348 | an empty buffer of 512 characters |
| `JsonPrinter.Serializer.Resize` | libnexus/nxjson.c:164-181 | twice the room with the contents kept |
| `JsonPrinter.Serializer.Vsnprintf` | libnexus/nxjson.c:198-213 | writes the piece if it fits and never touches the contents |
| `JsonPrinter.Serializer.Append` | libnexus/nxjson.c:184-219 | the piece ends up behind the contents, however often the buffer is doubled |
| `JsonPrinter.Serializer.Indent` | libnexus/nxjson.c:223-234 | one tab per level |
| `JsonPrinter.Serializer.Serialize` | libnexus/nxjson.c:237-252 | a node's text is appended; fails exactly when it holds a null |
| `JsonPrinter.Serializer.SerializeValue` | libnexus/nxjson.c:254-334 | a value's text is appended; fails exactly when it holds a null |
| `JsonPrinter.Serializer.SerializeList` | libnexus/nxjson.c:256-311 | an object or array between its brackets |
| `JsonPrinter.Serializer.SerializeChildren` | libnexus/nxjson.c:263-275 | the children's texts, separated by commas |
| `JsonPrinter.SerializeRoot` | libnexus/nxjson.c:338-360 | the text of the tree, or nothing exactly when it holds a null |
| `JsonParser.UnescapeString` | libnexus/nxjson.c:565-621 | in place and never before its start, the string is unescaped and ended by a NUL; a string with the escapes of section 7 of RFC 8259 gives back what was escaped |
| `JsonParser.SkipLineAt` | libnexus/nxjson.c:882-892 | a line comment ends behind its line feed |
| `JsonParser.SkipBlockAt` | libnexus/nxjson.c:624-647 | a block comment ends behind a star and a slash |
| `JsonParser.ColonAt` | libnexus/nxjson.c:665-676 | white space and a colon behind a key |
| `JsonParser.SkipCommentAt` | libnexus/nxjson.c:624-646 | line and block comments are skipped |
| `JsonParser.ParseKeyAt` | libnexus/nxjson.c:649-722 | the cursor loop reads the key the function reads |
| `JsonParser.ParseNumberAt` | libnexus/nxjson.c:805-846 | reads the number in the base its prefix tells |
| `JsonParser.ParseScalarAt` | libnexus/nxjson.c:793-878 | strings, numbers and literals |
| `JsonParser.ParseMembersAt` | libnexus/nxjson.c:749-772 | the object loop |
| `JsonParser.ParseItemsAt` | libnexus/nxjson.c:773-788 | the array loop |
| `JsonParser.ParseValueAt` | libnexus/nxjson.c:724-908 | the recursive parse of the text terminates, agrees with the function, and writes nothing before where it starts |
| `JsonParser.ParseText` | libnexus/nxjson.c:911-938 | the tree the function gives; for every value's RFC 8259 text, with any white space, that value |
| `JsonParser.PrintThenParse` | libnexus/nxjson.c:164-938 | printing and parsing, as both run, gives the tree back exactly when it is good |
| `Encode.SextetsAreDigits` | libnexus/nexus_encode.c:235-262 | the four values of a group are the base-64 digits of its 24 bits |
| `Encode.AlphabetsAre` | libnexus/nexus_encode.c:19-23 | the 64 letters of both alphabets, written out |
| `Encode.SextetBits` | libnexus/nexus_encode.c:252-262 | the four values are six bits each, in order |
| `Encode.GroupTrip` | libnexus/nexus_encode.c:185-209 | a group of one to three bytes is decoded from its four characters |
| `Encode.EncodedLength` | libnexus/nexus_encode.c:91-151 | the text has four characters for every three bytes, rounded up |
| `Encode.EncodedPadding` | libnexus/nexus_encode.c:139-144 | padding is exactly the last (3 - n mod 3) mod 3 characters |
| `Encode.EncodedBits` | libnexus/nexus_encode.c:217-277 | character i is the letter of bits 6 i to 6 i + 5 of the source, or padding where the source has no such bit |
| `Encode.RoundTrip` | libnexus/nexus_encode.c:27-277 | decoding undoes encoding for every byte string and any such code |
| `Encode.ValuesAre` | libnexus/nexus_encode.c:185-198 | a character's value is its place in the alphabet, written out |
| `Encode.DecodedIs` | libnexus/nexus_encode.c:153-215 | which texts decode, how long the result is, and each of its bytes as eight of the 24 bits its four characters spell |
| `Encode.CodesRoundTrip` | libnexus/nexus_encode.c:16-24 | in particular for base64 and for the '.'-padded alphabet |
| `Encode.SizesFit` | libnexus/nexus_encode.c:92-102 | the 32-bit sizes of the code are those of the text exactly up to 1610612733 bytes |
| `Encode.EncodeText` | libnexus/nexus_encode.c:217-277 | the loops compute the encoding, of length 4 * ceil(n / 3): each character is the letter of its six bits of the source, or padding |
| `Encode.PutGroup` | libnexus/nexus_encode.c:249-273 | the four characters of a group |
| `Encode.DecodeText` | libnexus/nexus_encode.c:153-215 | the loop computes the decoding: it succeeds exactly when the length is a multiple of four, there are at most two characters of padding and the first two of every four are letters, and each byte is eight of the 24 bits that four letters spell |
| `Encode.PaddingOf` | libnexus/nexus_encode.c:178-180 | the distance of the first padding character from the end |
| `Encode.PutBytes` | libnexus/nexus_encode.c:200-208 | the bytes of a group that padding does not stand for |
| `Encode.HexTrip` | libnexus/nexus_encode.c:279-327 | the first 512 bytes come back: all of them exactly when there are no more |
| `Encode.HexDigitsAt` | libnexus/nexus_encode.c:279-290 | the two digits of every byte, the high one first |
| `Encode.HexDigitIs` | libnexus/nexus_encode.c:24-24 | the sixteen digits, written out |
| `Encode.HexValueIs` | libnexus/nexus_encode.c:297-302 | the values of the characters that are digits |
| `Encode.HexPairsAre` | libnexus/nexus_encode.c:294-311 | which texts decode and to which bytes |
| `Encode.HexEncodeText` | libnexus/nexus_encode.c:279-290 | two lower-case digits for every byte |
| `Encode.HexDecodeText` | libnexus/nexus_encode.c:292-327 | the bytes of at most 1024 digits |
| `FilenodeTrailer.FileHandle.Store` | backend_sgx/io.c:517-573 | the file is data, metadata and trailer, cut to the 32-bit sum of the sizes first; in its last eight bytes are the size of the metadata and then that of the data, low byte first; refused exactly when one write does not transfer the metadata and its low 32 bits show it |
| `FilenodeTrailer.FileHandle.Parse` | backend_sgx/io.c:21-72 | the bytes that the two sizes in the last eight bytes point to, the metadata's size first, or an error when they are not there |
| `FilenodeTrailer.Layout` | backend_sgx/io.c:517-573 | nothing of the old file is left behind the trailer, whether the file grew or shrank |
| `FilenodeTrailer.StoredBytes` | backend_sgx/io.c:10-13 | where the data, the metadata and the two sizes are in a stored file, byte by byte |
| `FilenodeTrailer.ParsedBytes` | backend_sgx/io.c:21-72 | what is read, from the last eight bytes of the file |
| `FilenodeTrailer.WrittenAt` | backend_sgx/io.c:554-563 | every byte of the file after a write |
| `FilenodeTrailer.RoundTrip` | backend_sgx/io.c:21-72 | the stored metadata is read back for every prior file |
| `FilenodeTrailer.TripExactly` | backend_sgx/io.c:21-72 | what a successful store makes readable is the metadata exactly up to what one write transfers |
| `FilenodeTrailer.PrefixKept` | backend_sgx/io.c:517-573 | the data in front is untouched exactly when the 32-bit sum does not wrap or only zeros are cut |
| `FilenodeTrailer.WrapLosesData` | backend_sgx/io.c:517-521 | a file that loses data |

## Left out

- Encryption, tags and key wrapping (AES-GCM, SGX sealing): the cipher is any positional stream cipher with an inverse, tags are values the writer is given.
- Threads, locks, I/O failures and other clients: one client, calls in sequence, a clock that does not run backwards.
- ECALL and OCALL wrappers, volumes, attestation, access control, attribute rules, the shell and the AFS front end: glue without a hard property of its own.
- The linked lists of the directory node and of the chunk cache: sequences, so in-place linking of their nodes is not captured; an entry's bucket is found by search instead of through its back pointer.
- The hash maps of the directory node: finite maps in which a put replaces; the hash table module is a different one.
- Dirnode.Dirnode.FindByUuid: with repeated identifiers it may miss an entry, as the code may; only what it finds is then stated.
- Dirnode.Rename: an entry is never renamed onto itself, because the code would free it before using it; the record of an overwritten symlink stays behind, as in the code, so records may outnumber symlink entries.
- DirRun.Perform: runs do not rename an entry onto itself, and draw new names for new buckets.
- DirLoad.Epoch: the two directories have files of their own, and their attribute tables can be told from what follows.
- The attribute table: opaque bytes whose end can be told from their front.
- Reading malformed directory records past their buffer: the model's readers fail where the code would read on.
- BatchBackend.Backend.Get: not for objects deleted in the session, which the code still finds.
- BatchBackend.Backend.Lock: not for objects deleted in the session, which the code still finds.
- BatchBackend.Backend.New: the contents of a filenode's data part are not part of the stored metadata in this model.
- HeapAllocator.Heap.Free: only for live blocks, and the word behind the arena reads as a header that is not a hole.
- FileStore.Inode.Write: no gap before the offset, no `O_APPEND`, files below 2^31 bytes; truncation through `setattr` is modelled on the enclave's side only.
- FileStore.Inode.FetchChunk: for chunks that start within the file; further out the code's unsigned difference wraps.
- FileStore.Inode.LoadChunk: with a handle open for writing, up to the end of the file; further out the code adds chunks of arbitrary bytes.
- FileStore.Inode.ReadDataPtr: for ranges within the file; further out the code hands out what the chunk buffer happens to hold.
- FileStore.Inode.Read: for ranges within the file, as for ReadDataPtr.
- FileStore.Inode.FuseRead: for ranges within the file, as for ReadDataPtr.
- FileStore.Inode.Store: the calls of a store succeed, and the data file has its new length before the chunks are written.
- FileStore.TruncateThenRead: not beyond the end of the file, where the code's record says more than the data file has.
- HashTable.Table.Expand: allocation succeeds, so the in-place fallback is not modelled.
- HashTable.Table.Insert: keys and values are numbers; an older entry of the key is not looked for, as in the code.
- JSON doubles, splicing and splitting of trees, and the typed accessors; a text whose first value is a closing bracket, which the code dereferences a null pointer on.
- JsonPrinter.Serializer.Append: the buffer length is unbounded, not 32 bits wide, and allocation succeeds.
- Encode.EncodeText: buffers of any length; beyond the sizes of SizesFit the code allocates too little.
- Encode.DecodeText: text of any length, where the code has an `int`; text with characters outside the alphabet or more than two characters of padding is refused, where the code computes with a null pointer or writes out of bounds.
- Encode.HexDecodeText: text with other characters or of odd length is refused, where the code reads outside its table.
- FilenodeTrailer.FileHandle.Store: a call transfers all it is asked for up to the limit of one Linux call, and no call fails.
