# Verified models of the kernel modules' state machines

This project models the parts of the Motorola kernel modules whose state is
hardest to keep right, and proves what they keep over every input and every run:

- **Cluster management of the exFAT driver** (`fs/exfat-linux`): the allocation
  bitmap with its table-driven scan, the two encodings of a file (a contiguous
  run or a FAT chain), allocation, freeing, the per-inode extent cache, the
  mapping of blocks to disk sectors, truncation and eviction, and any run of
  these over any number of files.
- **Directories of the exFAT driver**: where an entry is on the disk, entry sets
  that straddle sectors and clusters, and the name search with its hint.
- **The legacy exFAT driver's sector caches and FAT codec** (`fs/exfat`): rings
  and hash chains of linked entries, and the 12-, 16-, 28- and 32-bit entries in
  sectors.
- **The haptic driver's playback queue** (`drivers/misc/cs40l2x.c`): the text
  that is stored and shown, the interpreter with its nested loops, and the
  unpacking of one-time-programmable trim words.
- **The UART link to the micro-controller** (`drivers/mmi_muc_uart`): framing,
  resynchronisation and chunked reception, and the send queue with retries,
  acknowledgements and credits.

The files follow the layers: `Arith`, `Bits`, `Common` and `SectorBytes` hold what
several models share; `ExfatTypes`, `BitTables`, `Bitmap`, `AllocPlan`, `Fat`,
`Volume`, `Inode`, `Mapping`, `FileSystem`, `Truncation`, `Runs` and `Writes` are the
cluster management, lowest layer first; `DirAddress`, `DirSearch`, `DirLookup` and
`DirFound` the directories; `Rings`, `HashChains`, `SectorCache` and `CacheExample` the caches; `FatEntry` and
`FatSectors` the codec; `Playback`, `PlaybackQueue`, `QueuePlayer`, `Text`,
`WholeQueue`, `QueueText`, `QueueRoundTrip`, `QueueStore` and `OtpTrim` the haptic driver;
`UartFrame`, `UartStream`, `UartReceiver`, `UartSender` and `UartLink` the link.

Code that changes state step by step is imperative here as well: `Volumes.Volume`,
`Inodes.Inode`, `SectorCache.Cache`, `FatSectors.Fat`, `QueuePlayer.Queue`,
`UartReceiver.Receiver` and `UartLink.Link` are classes, and their methods are
proved against functions on values, about which the lemmas are stated.
`dafny verify dfyconfig.toml` checks the whole project.

## Model

| member | source | states |
|---|---|---|
| `BitTables.FreeBitTable` | fs/exfat-linux/balloc.c:12-26 | each of the 255 entries is the number of trailing ones of its index |
| `BitTables.UsedBitTable` | fs/exfat-linux/balloc.c:28-42 | each of the 256 entries is the number of ones of its index |
| `Bitmap.MountShape` | fs/exfat-linux/balloc.c:57-70 | the sectors counted at mount hold a bit for every data cluster |
| `Bitmap.SetBitmapMarks` | fs/exfat-linux/balloc.c:143-158 | setting a bit adds exactly its cluster to the set of clusters in use |
| `Bitmap.ClearBitmapUnmarks` | fs/exfat-linux/balloc.c:160-188 | clearing a bit removes exactly its cluster from that set |
| `Bitmap.ScanOrder` | fs/exfat-linux/balloc.c:194-234 | a scan looks at the clusters from the given one up, then from the first up to the bitmap byte of the given one, and at no others |
| `Bitmap.FindFreeBitmap` | fs/exfat-linux/balloc.c:194-234 | the scan by sectors, bytes and table look-ups finds the first free cluster in that order, and the end marker exactly when the order has none |
| `Bitmap.CountUsedClusters` | fs/exfat-linux/balloc.c:236-265 | counting by table look-ups with a masked last byte gives the cardinality of the set of clusters in use |
| `AllocPlan.PlanFresh` | fs/exfat-linux/fatent.c:377-437 | the clusters an allocation takes are free data clusters, all different |
| `AllocPlan.RequestSatisfiedIff` | fs/exfat-linux/fatent.c:377-437 | a request is satisfied exactly when enough clusters are free and the search does not get stuck |
| `AllocPlan.StuckExample` | fs/exfat-linux/balloc.c:194-234 | a request for two clusters that gives up after one although two are free |
| `Fat.ChainNoRepeat` | fs/exfat-linux/fatent.c:91-133 | a chain that ends visits no cluster twice |
| `Fat.EncodesUnique` | fs/exfat-linux/fatent.c:91-133 | what is stored of a file determines its sequence of clusters |
| `Fat.EncodesFrame` | fs/exfat-linux/fatent.c:60-81 | a file depends on the FAT entries of its own clusters only |
| `Fat.EntGetIff` | fs/exfat-linux/fatent.c:91-133 | which entries can be read, and that the reserved values are read as the end |
| `Fat.ChainAppend` | fs/exfat-linux/inode.c:210-212 | linking the last cluster to another chain appends it |
| `Fat.ChainCut` | fs/exfat-linux/file.c:197-202 | ending a chain after some clusters leaves both parts walkable |
| `Volumes.Volume.Mount` | fs/exfat-linux/super.c:679-683 | a mounted volume's counter is the number of marks in its bitmap, and the search starts at the first cluster |
| `Volumes.Volume.ChainContCluster` | fs/exfat-linux/fatent.c:135-151 | a contiguous run becomes a FAT chain of the same clusters |
| `Volumes.Volume.AllocLoop` | fs/exfat-linux/fatent.c:377-437 | the loop takes exactly the planned clusters and links them; they stay contiguous, and the FAT untouched, exactly when the request was for a run and they are the run from the hint; where the hint then is |
| `Volumes.Volume.AllocCluster` | fs/exfat-linux/fatent.c:321-444 | which clusters are taken, what encodes them and which error is returned; when they come back as a run, with the FAT untouched; where the next search starts; the counter moves only on success; clusters of a failed request stay marked |
| `Volumes.AllocSucceedsIff` | fs/exfat-linux/fatent.c:321-444 | a request succeeds exactly when enough clusters are neither in use nor leaked and the search is not stuck |
| `Volumes.LeaksIff` | fs/exfat-linux/fatent.c:321-444 | a request leaves clusters marked and uncounted exactly when it passes the check against the counter and finds a first cluster, but marked clusters that are not counted are in the way or the search is stuck |
| `Volumes.LeakExample` | fs/exfat-linux/fatent.c:438-440 | a request for two clusters that fails with no space left and leaves cluster 6 marked and uncounted |
| `Volumes.GrantsIff` | fs/exfat-linux/fatent.c:321-444 | the answer to a request follows from the volume before it: granted exactly when a start is found, enough clusters are neither in use nor leaked and the search is not stuck, and then the planned clusters |
| `Volumes.Volume.FreeCluster` | fs/exfat-linux/fatent.c:153-231 | exactly the clusters of the chain are unmarked and uncounted, in either encoding; which errors there are |
| `Volumes.Volume.FindLastCluster` | fs/exfat-linux/fatent.c:244-272 | the last cluster, and an error exactly when the chain breaks or the size is not its length |
| `Volumes.Volume.CountNumClusters` | fs/exfat-linux/fatent.c:446-475 | the number of clusters of the chain, and an error for a chain that breaks within the bound of the loop |
| `Inodes.Inode.CacheLookup` | fs/exfat-linux/cache.c:82-117 | the extent found is right for the file, and holds the place asked for or starts nearest below it; the list is only reordered |
| `Inodes.Inode.CacheAdd` | fs/exfat-linux/cache.c:136-186 | the list after it: the extent in front, joined with one that starts at the same cluster, or in place of the last of a full list; every extent stays right; a stale one is not added |
| `Inodes.Inode.CacheInval` | fs/exfat-linux/cache.c:192-208 | the cache is emptied and its id is another one, so that earlier lookups are stale |
| `Inodes.Inode.GetCluster` | fs/exfat-linux/cache.c:235-313 | whatever the cache holds, the answer is the file's cluster at that place, or its end and its last cluster; when EIO is returned; the place reached is cached afterwards, unless the list has room and there was no memory |
| `Mapping.RunLookupRightIff` | fs/exfat-linux/inode.c:130-138 | the contiguous lookup is right exactly up to one cluster past the end of the file |
| `Mapping.RunLookupPastEnd` | fs/exfat-linux/inode.c:130-138 | a lookup further on that names a cluster of no file |
| `Mapping.RunToChain` | fs/exfat-linux/inode.c:199-213 | a whole contiguous file becomes a chain of the same clusters |
| `Mapping.Append` | fs/exfat-linux/inode.c:165-265 | the clusters allocated follow the file's; the file stays contiguous, and the FAT untouched, exactly when they follow its last cluster in one run; a failed request leaves the file as it was |
| `Mapping.MapAt` | fs/exfat-linux/inode.c:103-272 | the cluster at an offset, after asking for exactly as many as are missing; it is the next place to look from |
| `FileSystem.MapCluster` | fs/exfat-linux/inode.c:103-272 | the cluster at an offset with and without creation, how many are added, and that the volume, the file, its cache and all other files stay consistent |
| `FileSystem.GetBlock` | fs/exfat-linux/inode.c:289-357 | when a block is mapped; its disk sector is in the data area, in the cluster of the file at that place and as far into it as the block is; the request made, the on-disk size after it |
| `FileSystem.SectorPlace` | fs/exfat-linux/exfat_fs.h:377-389 | the sector of a cluster and the cluster of a sector are inverse, and the sectors of the data clusters are the data area |
| `FileSystem.BlocksApart` | fs/exfat-linux/exfat_fs.h:377-382 | different blocks of a file are in different disk sectors |
| `FileSystem.FilesApart` | fs/exfat-linux/exfat_fs.h:377-382 | blocks of files that share no cluster are in different disk sectors |
| `Truncation.Cut` | fs/exfat-linux/file.c:115-202 | in all three cases the file encodes the clusters kept and the rest encodes those to be freed |
| `Truncation.Shrink` | fs/exfat-linux/file.c:94-224 | the file keeps a prefix of its clusters, the others are unmarked and uncounted, the cache and the hint are forgotten, other files are untouched |
| `Truncation.AlignUpIs` | fs/exfat-linux/file.c:226-268 | the size rounded up is the first multiple of the block size that is not below it |
| `Truncation.Truncate` | fs/exfat-linux/file.c:226-268 | setting a smaller size keeps exactly the clusters that size needs and rounds the on-disk size up to the next multiple of the block size |
| `Truncation.Evict` | fs/exfat-linux/inode.c:643-658 | an unlinked file gives back all of its clusters |
| `Runs.WriteEnd` | fs/exfat-linux/inode.c:408-435 | the size moves up within the on-disk size |
| `Runs.OnFiles` | fs/exfat-linux/inode.c:289-357 | a request on one file does what it should to that file and leaves all others as they are; a write fails only when the volume before it does not grant the clusters it needs |
| `Runs.Step` | fs/exfat-linux/inode.c:289-357 | every request does what it should to the clusters and the sizes of its file, as the volume before it grants, leaves all other files alone, and keeps the invariant of the volume and all files |
| `Runs.Execute` | fs/exfat-linux/inode.c:289-357 | over every run of creations, reads, writes, resizes and deletions each request does so, and the invariant is kept |
| `Writes.WriteDone` | fs/exfat-linux/inode.c:289-435 | in any run: a write to a cluster the file has, or to the next one when the volume grants it, leaves the block in the file, in its own cluster or one that was free, and the size at what was written; a write that is not granted leaves the file as it was |
| `Runs.MountedGood` | fs/exfat-linux/super.c:679-683 | a volume just mounted satisfies it |
| `Runs.UsedIsOwned` | fs/exfat-linux/fatent.c:415-421 | in every reachable state the counter is the system's clusters plus those of the files, each once |
| `Runs.NeverOverlap` | fs/exfat-linux/inode.c:321-351 | in every reachable state blocks of two files are in different disk sectors |
| `DirAddress.WalkFatChain` | fs/exfat-linux/dir.c:625-655 | the cluster of a byte of a directory; the error at the end of a chain |
| `DirAddress.FindLocation` | fs/exfat-linux/dir.c:657-680 | the sector and the offset of an entry: the sector is in the cluster of the directory that holds the entry's byte, and as far into it; an error exactly when the entry is past the end of the chain |
| `DirAddress.NextSectorAt` | fs/exfat-linux/dir.c:875-885 | the next sector is in the next cluster exactly after the last sector of a cluster |
| `DirAddress.SetFits` | fs/exfat-linux/dir.c:874-891 | no entry set needs more sectors than the set's cache holds |
| `DirAddress.GetDentrySet` | fs/exfat-linux/dir.c:821-904 | the sectors read for an entry set are those of the directory from its first entry on, each in its cluster and as far into it as its place says |
| `DirAddress.CachedIsLocated` | fs/exfat-linux/dir.c:797-805 | an entry looked up in the set's cache is where the entry is on the disk |
| `DirSearch.ScanSet` | fs/exfat-linux/dir.c:924-1135 | the scan finds an entry set exactly when its length, hash and name are those looked for, and otherwise goes on behind it |
| `DirSearch.FirstMatchIs` | fs/exfat-linux/dir.c:924-1135 | the position found is that of a set with the name looked for |
| `DirSearch.HintedIsPlain` | fs/exfat-linux/dir.c:924-1135 | the two passes from a hint give what one scan from the first entry gives |
| `DirSearch.HintAgain` | fs/exfat-linux/dir.c:1110-1134 | the entry behind a set that was found is again the start of a block |
| `DirFound.FoundIsSet` | fs/exfat-linux/dir.c:924-1135 | whatever a directory holds and wherever the search starts, what is found is a file entry of the kind asked for, the stream entry with hash and length, name entries with the name, and as many secondary entries as the file entry says |
| `DirLookup.FindDirEntry` | fs/exfat-linux/dir.c:924-1135 | the loop over clusters and entries is that search, and the hint it leaves names a cluster and an entry of the directory |
| `DirLookup.Lookup` | fs/exfat-linux/dir.c:924-1135 | from any hint the driver may hold, the search finds an entry exactly when a set has the name and is a file or a directory as asked, and gives that set's position; the hint it leaves may be held |
| `FatEntry.WriteRead` | fs/exfat/exfat_cache.c:139-163 | an entry that was written is read back up to its width |
| `FatEntry.WriteElsewhere` | fs/exfat/exfat_cache.c:139-163 | writing an entry changes no other entry, though entries share bytes |
| `FatSectors.Fat.Read` | fs/exfat/exfat_cache.c:165-275 | the entry, with everything from 0xFF8, 0xFFF8, 0x0FFFFFF8 or 0xFFFFFFF8 up read as the end |
| `FatSectors.Fat.WriteOddAcross` | fs/exfat/exfat_cache.c:300-311 | an odd 12-bit entry in two sectors: the two bytes hold it and the half byte before it is kept |
| `FatSectors.Fat.WriteOddIn` | fs/exfat/exfat_cache.c:312-317 | an odd 12-bit entry in one sector, likewise |
| `FatSectors.Fat.WriteEvenAcross` | fs/exfat/exfat_cache.c:318-326 | an even 12-bit entry in two sectors: the two bytes hold it and the half byte after it is kept |
| `FatSectors.Fat.WriteEvenIn` | fs/exfat/exfat_cache.c:327-332 | an even 12-bit entry in one sector, likewise, although its first byte is written before both are read |
| `FatSectors.Fat.Write12Entry` | fs/exfat/exfat_cache.c:285-334 | whichever branch is taken, the entry is the content and no half byte of another entry is changed |
| `FatSectors.Fat.WriteEntry` | fs/exfat/exfat_cache.c:277-383 | the same for all kinds of FAT, the content masked to the entry's width |
| `FatSectors.WrittenIsRead` | fs/exfat/exfat_cache.c:165-383 | every cluster number and the end mark are read back as written, and no other entry is changed |
| `Rings.Unlink` | fs/exfat/exfat_cache.c:772-777 | taking an entry out of a ring leaves a ring of the others in order |
| `Rings.PushFront` | fs/exfat/exfat_cache.c:756-762 | pushing to the head gives a ring that starts with the entry |
| `Rings.PushBack` | fs/exfat/exfat_cache.c:764-770 | pushing to the tail gives a ring that ends with it |
| `HashChains.RemoveHash` | fs/exfat/exfat_cache.c:746-750 | unhashing takes the entry out of its chain and leaves all chains well formed |
| `HashChains.InsertHash` | fs/exfat/exfat_cache.c:730-744 | hashing puts it at the head of the chain of its sector |
| `HashChains.SecondUnhashIff` | fs/exfat/exfat_cache.c:746-750 | unhashing an entry that is in no chain leaves the chains well formed exactly when the links it was left with are harmless |
| `SectorCache.Cache.Init` | fs/exfat/exfat_cache.c:74-123 | all entries are dead, in one ring and one chain |
| `SectorCache.Cache.Find` | fs/exfat/exfat_cache.c:698-714 | the walk along a chain finds the entry that holds the sector, and nothing exactly when none does |
| `SectorCache.Cache.GetBlk` | fs/exfat/exfat_cache.c:546-580 | a hit changes no entry; a miss replaces the least recently used entry that is not locked; the order of use after both; what a failed read leaves |
| `SectorCache.Cache.Release` | fs/exfat/exfat_cache.c:630-652 | the sector is cached no longer and its entry is the next to be used; other sectors stay |
| `SectorCache.Cache.SetLock` | fs/exfat/exfat_cache.c:598-628 | only the lock of the sector's entry changes |
| `SectorCache.Cache.ReleaseAll` | fs/exfat/exfat_cache.c:654-677 | every entry of the device is dead and not locked, the others are as before |
| `SectorCache.TidyReady` | fs/exfat/exfat_cache.c:546-580 | a cache in which no entry was dropped after a failed read serves every request while an entry is not locked |
| `SectorCache.RunBuffers` | fs/exfat/exfat_cache.c:546-677 | every run of the buffer cache does what each request is for: a sector that can be read is cached after it, one entry at most gives way and none that is locked; ring, chains and contents stay in step up to the first request that cannot be served, which is never one of a tidy cache with an entry that is not locked |
| `SectorCache.RunFat` | fs/exfat/exfat_cache.c:385-418 | every run of the FAT cache serves all requests in this way and keeps them in step |
| `CacheExample.DropAfterFailure` | fs/exfat/exfat_cache.c:557-576 | a run of the cache after which a second unhash would cut a live entry off its chain, so that the next request cannot be served |
| `Playback.PassIsUnrolled` | drivers/misc/cs40l2x.c:1215-1299 | one pass of the interpreter over the pairs plays the queue with its loops unrolled |
| `Playback.PlaysIff` | drivers/misc/cs40l2x.c:1215-1299 | a queue plays something exactly when it has a wave or a silence |
| `PlaybackQueue.LaunchPlaysNext` | drivers/misc/cs40l2x.c:1215-1299 | a launch plays the next event of what is left and finishes exactly when there is none, ready for the next start |
| `PlaybackQueue.LaunchEndsIff` | drivers/misc/cs40l2x.c:1215-1299 | a launch comes back exactly when the repetitions left are finite or the queue has a wave or a silence |
| `WholeQueue.TurnInQueue` | drivers/misc/cs40l2x.c:1225-1295 | on a queue that can be played, a turn on the whole array is a turn of the queue alone |
| `WholeQueue.InQueueIff` | drivers/misc/cs40l2x.c:1225-1250 | over any number of turns and launches every pair looked at is one of the queue's exactly when the index is not past its end and it is not empty or has no pass to come |
| `QueuePlayer.Queue.OneTurn` | drivers/misc/cs40l2x.c:1225-1295 | one turn of the loop on the array, from any index, is the turn of the whole-array model |
| `QueuePlayer.Queue.PairLaunch` | drivers/misc/cs40l2x.c:1215-1299 | the loop on the pairs in place is that launch, and the pairs behind the queue stay |
| `QueuePlayer.Queue.Start` | drivers/misc/cs40l2x.c:1444-1464 | a start resets every counter and launches the first event |
| `QueuePlayer.Queue.Worker` | drivers/misc/cs40l2x.c:1301-1350 | a call launches the next event unless playback is idle or the device still plays |
| `QueuePlayer.Play` | drivers/misc/cs40l2x.c:1301-1464 | over any run and any device, the events launched are a prefix of the unrolled queue repeated, all of it when playback is idle; a device that is always ready gets there |
| `Text.DecParses` | drivers/misc/cs40l2x.c:193-373 | a printed number is read back |
| `Text.KstrtouReads` | drivers/misc/cs40l2x.c:238-260 | digits, with a plus sign before them or a newline behind, are read as the number they spell when it fits 32 bits |
| `Text.KstrtouMeans` | drivers/misc/cs40l2x.c:238-260 | nothing else is read as a number |
| `Text.StrimIs` | drivers/misc/cs40l2x.c:228-229 | trimming takes off spaces only and leaves none at either end |
| `Text.StrlcpyIs` | drivers/misc/cs40l2x.c:222 | the copy is the text up to its end, or as much as fits |
| `QueueRoundTrip.ParseGood` | drivers/misc/cs40l2x.c:193-373 | every text accepted gives a queue within the driver's limits |
| `QueueRoundTrip.ShowFits` | drivers/misc/cs40l2x.c:141-191 | the text of any such queue fits a page |
| `QueueRoundTrip.ShowStore` | drivers/misc/cs40l2x.c:141-373 | storing what is shown of a queue gives that queue |
| `QueueRoundTrip.StoreShowStore` | drivers/misc/cs40l2x.c:141-373 | for every text accepted, storing what is then shown gives the same queue |
| `QueueStore.Store` | drivers/misc/cs40l2x.c:193-373 | the loop over segments and tokens stores what the text says, and an error leaves the queue empty |
| `QueueStore.Show` | drivers/misc/cs40l2x.c:141-191 | the text of the queue, and an error exactly when it is empty |
| `QueueStore.Reload` | drivers/misc/cs40l2x.c:141-373 | showing and storing in place changes neither items nor repetitions |
| `QueueStore.StoreMidway` | drivers/misc/cs40l2x.c:193-373 | after a store while the queue plays, all later launches look at pairs of the new queue only exactly when the index is not past its end and it is not empty or the last pass was being played |
| `QueueStore.StoredPastEnd` | drivers/misc/cs40l2x.c:193-373 | a run in which a queue is played, a shorter one is stored, and a silence of the old one is launched |
| `QueueStore.StartInQueueIff` | drivers/misc/cs40l2x.c:1444-1464 | a start looks at pairs of the queue only exactly when there are any or it is not repeated |
| `QueueStore.EmptyText` | drivers/misc/cs40l2x.c:330-336 | a text that is accepted and makes a start look at a pair behind an empty queue |
| `QueueStore.SpinningText` | drivers/misc/cs40l2x.c:193-373 | a text that is accepted and makes the launch loop without end |
| `OtpTrim.FieldIsSlice` | drivers/misc/cs40l2x.c:2622-2636 | masks and shifts give the field's bits of the stream, in one word or over two |
| `OtpTrim.FieldsAt` | drivers/misc/cs40l2x.c:2616-2643 | every field begins where the one before ends |
| `OtpTrim.Unpack` | drivers/misc/cs40l2x.c:2616-2658 | the row and column markers read exactly these fields, and the writes are those of the fields that have a register |
| `OtpTrim.FieldWritten` | drivers/misc/cs40l2x.c:2649-2651 | the write made for a trim puts the value into its bits of its register and keeps the others |
| `UartFrame.TakesPacket` | drivers/mmi_muc_uart/muc_uart.c:404-421 | a packet as built by the sender is taken whole and handed on |
| `UartFrame.PacketLayout` | drivers/mmi_muc_uart/muc_uart.c:404-421 | the packet byte by byte: magic number, command, length, payload, check sum |
| `UartFrame.DeliversIff` | drivers/mmi_muc_uart/muc_uart.c:1240-1332 | a message is handed on exactly when the bytes start with its packet |
| `UartFrame.WaitsForRest` | drivers/mmi_muc_uart/muc_uart.c:1240-1332 | nothing is taken of an incomplete packet |
| `UartStream.ExactlyOnce` | drivers/mmi_muc_uart/muc_uart.c:1240-1332 | messages sent behind any garbage and received in any chunks are delivered once each, in order |
| `UartStream.CorruptDropped` | drivers/mmi_muc_uart/muc_uart.c:1298-1331 | a packet with a wrong check sum is dropped alone |
| `UartStream.BadLengthDropped` | drivers/mmi_muc_uart/muc_uart.c:1286-1292 | a header with a length that is too long is dropped alone, and what follows it is delivered |
| `UartReceiver.DrainHasRoom` | drivers/mmi_muc_uart/mmi_uart.c:498-510 | after draining, the buffer always has room, so its overflow branch is never taken |
| `UartReceiver.ReceivedIsCopies` | drivers/mmi_muc_uart/mmi_uart.c:468-524 | receiving a chunk is receiving the pieces that are copied of it |
| `UartReceiver.CopiesRightIff` | drivers/mmi_muc_uart/mmi_uart.c:468-524 | the pieces are the chunk exactly when it repeats its start in every later turn of the loop |
| `UartReceiver.AllRightIff` | drivers/mmi_muc_uart/mmi_uart.c:468-524 | over a whole reception the bytes received are the bytes sent exactly when every chunk fits or repeats its start |
| `UartReceiver.TooLongLoses` | drivers/mmi_muc_uart/mmi_uart.c:468-524 | a chunk of two packets that is too long: the second is lost |
| `UartReceiver.Receiver.RxCallback` | drivers/mmi_muc_uart/muc_uart.c:1240-1332 | the callback on the buffer is the framing function |
| `UartReceiver.Receiver.ConsumeSegment` | drivers/mmi_muc_uart/mmi_uart.c:450-466 | one segment is moved off the front of the buffer |
| `UartReceiver.Receiver.Receive` | drivers/mmi_muc_uart/mmi_uart.c:468-524 | the buffer and the messages after a chunk; a buffer with room has room again |
| `UartReceiver.AllFitFaithful` | drivers/mmi_muc_uart/mmi_uart.c:468-524 | a reception whose chunks all fit into the room there is copies the bytes sent |
| `UartReceiver.ReceiveAll` | drivers/mmi_muc_uart/mmi_uart.c:468-524 | any reception into the buffer: what is received, and exactly-once delivery when every chunk fits, or repeats its start |
| `UartSender.NeedsAckIff` | drivers/mmi_muc_uart/muc_uart.c:187-199 | an answer is waited for after exactly the commands from 2 to 0x3FFF |
| `UartSender.EveryRun` | drivers/mmi_muc_uart/muc_uart.c:441-598 | over every interleaving no message is lost, doubled or overtaken, each is tried at most 100 times and given up after exactly 100, and the queue's size is right |
| `UartSender.RestsUntilCleared` | drivers/mmi_muc_uart/muc_uart.c:510-598 | after a message with a command from 2 to 0x3FFF the worker sends nothing until an answer comes |
| `UartSender.StopAndWait` | drivers/mmi_muc_uart/muc_uart.c:187-214 | between two such messages there is an ack, a nack or a timeout |
| `UartSender.CreditsBoundedIff` | drivers/mmi_muc_uart/muc_uart.c:441-499 | the credits stay within 0 to 100 exactly as long as no allocation fails while all credits are there |
| `UartSender.CreditsExample` | drivers/mmi_muc_uart/muc_uart.c:201-214 | a run after which there are 102 credits |
| `UartLink.Link.QueueSend` | drivers/mmi_muc_uart/muc_uart.c:441-499 | the errors, and the steps of the state machine that a call makes |
| `UartLink.Link.SendWork` | drivers/mmi_muc_uart/muc_uart.c:510-598 | a call of the worker is a run of the state machine; what it leaves when it waits, when there is nothing to send, when it sends, when it fails and when it gives up |
| `UartLink.Link.ClearWaitForAck` | drivers/mmi_muc_uart/muc_uart.c:201-214 | an answer is that step of the state machine |
| `UartLink.Link.AckTimeout` | drivers/mmi_muc_uart/muc_uart.c:1451-1464 | a timeout is that step of the state machine |

## Findings

Where the code does not do what it is for, the model does what the code does, a
concrete input shows the failure, and the condition under which it is right is
proved exactly.

- **A failed allocation leaks its clusters** (fs/exfat-linux/fatent.c:438-440). The
  chain handed to the freeing function still has size 0, so the clusters taken stay
  marked without being counted. Exact condition: `Volumes.LeaksIff`; input:
  `Volumes.LeakExample`. They are followed as `leaked`, and `Runs.UsedIsOwned` holds
  with them apart.
- **An allocation can give up although enough clusters are free**
  (fs/exfat-linux/balloc.c:194-234). A scan looks at every byte of the bitmap once and
  ignores, in the first of them, the clusters below the hint. Exact condition: `AllocPlan.RequestSatisfiedIff`; input: `AllocPlan.StuckExample`.
- **The contiguous lookup goes past the end of a file** (fs/exfat-linux/inode.c:130-138).
  Exact condition: `Mapping.RunLookupRightIff`; input: `Mapping.RunLookupPastEnd`.
  The callers that create blocks reach a block only by way of those before it.
- **Unhashing an entry twice can cut off another** (fs/exfat/exfat_cache.c:557-576). A
  failed read leaves its entry in no chain, and the next use unhashes it again. Exact
  condition on the links: `HashChains.SecondUnhashIff`; run:
  `CacheExample.DropAfterFailure`. `SectorCache.RunBuffers` goes on exactly up to the
  first request of this kind, and `SectorCache.TidyReady` says what rules it out.
- **A stored text can hang the launch** (drivers/misc/cs40l2x.c:1215-1299). Exact
  condition on the queue: `PlaybackQueue.LaunchEndsIff`; text: `QueueStore.SpinningText`.
- **Storing a queue while it plays** (drivers/misc/cs40l2x.c:193-373) can leave the index
  past its end, and the launch, which only tests for the end itself, goes on over pairs
  that older queues left. Exact condition: `QueueStore.StoreMidway`, by
  `WholeQueue.InQueueIff`; run: `QueueStore.StoredPastEnd`.
- **Starting an empty queue with a repetition** (drivers/misc/cs40l2x.c:1444-1464) does the
  same. Exact condition: `QueueStore.StartInQueueIff`; text: `QueueStore.EmptyText`.
- **A chunk longer than the room in the buffer is copied from its start again**
  (drivers/mmi_muc_uart/mmi_uart.c:495-521). Exact conditions:
  `UartReceiver.CopiesRightIff` and `UartReceiver.AllRightIff`; input:
  `UartReceiver.TooLongLoses`.
- **Credits can exceed their limit** (drivers/mmi_muc_uart/muc_uart.c:441-499). Exact
  condition: `UartSender.CreditsBoundedIff`; run: `UartSender.CreditsExample`.

## Left out

- Reading and writing sectors in `fs/exfat-linux`: a sector access does not fail there; the error paths of the buffer layer are not modelled.
- Locks and races of the exFAT driver: requests on a volume are made one after the other.
- exfat_trim_fs, the on-disk dirty flag, mirroring of the second FAT and delayed buffers.
- Creating a directory allocates its first cluster in the same call (fs/exfat-linux/namei.c:498-504); here a directory starts empty and gets its clusters by mapping.
- `Volumes.Volume.AllocCluster`: requires a chain of size 0 and at least one cluster, as all callers pass.
- `FileSystem.MapCluster`: when creating in a contiguous file the offset is at most the number of clusters, as the callers in `inode.c` and `file.c` keep it; past that the lookup is wrong as stated by `Mapping.RunLookupRightIff`.
- `Volumes.Volume.FreeCluster`: the chain is one that ends; a FAT with a link that cannot be followed is not modelled here.
- `Inodes.Inode.GetCluster`: the same.
- `Mapping.MapAt`: the offset in a contiguous file is at most the number of its clusters, as for `FileSystem.MapCluster`.
- `FileSystem.GetBlock`: the number of blocks mapped at once and i_size_aligned are left out.
- `Runs.WriteEnd`: the error against i_size_aligned and the truncation after a short write are left out.
- `DirAddress.FindLocation`: an entry past the end of a contiguous directory names a sector that is not the directory's; it is not asked for.
- `DirAddress.GetDentrySet`: all entries of the set are in the directory; their types are not validated.
- `DirLookup.FindDirEntry`: directories in the contiguous encoding are left out.
- `DirLookup.Lookup`: the same.
- `QueuePlayer.Queue.Start`: an empty queue with a repetition is not started; what it would look at is in `QueueStore.StartInQueueIff`.
- `QueuePlayer.Play`: the same.
- How FAT entries of `fs/exfat-linux` lie in sectors: the FAT is a table there; the layout is modelled for the legacy driver.
- `Inodes.Inode.CacheAdd`: whether memory for a list element is there is left open.
- The up-case table, the name hash and the check sum are parameters: nothing is assumed of them but that they are functions.
- Hints about empty directory slots, directories in the contiguous encoding in `exfat_find_dir_entry`, and the validation of entry types in `exfat_get_dentry_set`.
- `FatSectors.Fat.WriteEntry`: masks and shifts of the codec are written as remainders and quotients by powers of two; a sector that cannot be read is not modelled.
- `SectorCache.Cache.GetBlk`: with every entry locked the driver's search does not end; such a request is not made.
- Sector contents and write-back in the legacy caches: an entry is its drive, sector and lock.
- The rest of the legacy exFAT driver.
- Device registers written for a wave or a scale, and timers, in the haptic driver: a launch is its event, and the device's status is a parameter.
- The register and firmware code, the sysfs attributes other than the queue, and all other drivers of the repository.
- `UartLink.Link.SendWork`: the exclusion by the busy flag of the line is not modelled; whether a send succeeds is a parameter.
- Sleep and wake handling, firmware update and power control of the micro-controller.
