# Verified model of MWOS: file system, page allocator, page tables, shell

This project models the parts of the MWOS kernel that carry the most state and proves what they are for: a FAT32 driver, the
physical page allocator and the four-level page tables built on it, the shell's history ring, and the
conversions between numbers, names and text. Code that changes things step by step is modelled by classes and
methods with loops; each method is proved against a function or predicate on values, and the theorems are about those.

- **Page allocator** (`Bitmap`, `PageAllocator`, `AllocatorRuns`): the bitmap with its byte-wise fast paths refines a set of
  clear pages with a separate counter; first fit, least page, no double hand-out and constant accounting over whole runs,
  with the exact guard under which the byte masks mark or clear what they should.
- **Page tables** (`PageTables`, `PageTree`, `VirtualMemory`): mapping a page changes the translation at exactly one
  36-bit page number and no other word of memory, because reachable tables form a tree of distinct used pages; the kernel's
  start-up map is exact, and leaves every page that is no table alone.
- **FAT32** in layers: the table as a map (`FatChains`, `FatRuns`), sectors and the driver's FAT functions (`Volume`, `FatVolume`),
  files with a one-sector buffer and a lazy cluster cursor (`FileImages`, `FileSteps`, `Files`, `FileSessions`), names
  (`Names`), directories (`DirEntries`, `DirMaps`, `DirSlots`, `Directory`, `DirectoryRuns`), files by name (`FileSystem`) and whole runs (`FileSystemRuns`).
- **Shell** (`History`) and **numbers** (`Numbers`).

The disk is an array of 512-byte sectors without I/O errors, with the geometry the driver forces: 127006 clusters, two
FAT copies of 993 sectors. Sector numbers follow the driver, which adds the partition start twice on its data paths.
Machine words are ranges of the integers with explicit wrap-around; bitmap bytes are 8-bit vectors.

Where the code departs from its evident intent it is kept as written, and the exact condition is proved:

- block allocation leaves the eight pages of a byte-aligned last byte unmarked, exactly when the run neither ends inside a byte
  nor is the unaligned tail of one byte; the first of them is then handed out twice, if it is among the pages up to 512 GiB that
  page allocation accepts (`MarkedCovers`, `NoDoubleHandOut`, `UncoveredHandedOutTwice`);
- a run of operations keeps the counter at the same distance from the number of clear pages if and only if each of its block
  allocations takes as many clear pages as it counts (`BlocksSlack`, `SlackIsConstant`);
- start-up clears the whole bitmap byte around a region inside one byte; the pages it leaves clear are usable memory if and only
  if the bytes around such regions are (`InitIsSafeIff`, `UnsafeMap`);
- it counts the pages of a last byte that it does not clear (`LastByteIsLost`): with no region strictly inside one byte, the
  counter it leaves is the number of clear pages if and only if every range it releases is the unaligned tail of one byte and
  no two overlap (`InitCounterExact`, `OvercountedMap`); with one, the counter may even be too low (`UndercountedMap`);
- a mapping with fewer free pages than missing tables stores its entry in page 0 and maps nothing (`MapSucceedsIff`,
  `ShortMapIsUnseen`), and the framebuffer's last page is missed for some misaligned bases (`FramebufferCovered`);
- a write that starts in the middle of a sector at the end of the file, with no sector in the buffer, zeroes the bytes before it
  in that sector -- as after an ordinary seek to the end (`WriteIsSplice`, `AppendForgets`, `SeekAndWrite`);
- a seek to a nonzero multiple of the cluster size makes the next read skip a cluster (`SeekCursor`, `SeekAndRead`), and the next
  write, however long, go one cluster too far, to a new cluster if the position is in the last one (`SeekAndWrite`,
  `WriteAfterSeek`): seek then write splices the data in, whatever they are, if and only if the position is no such multiple and
  is before the end of the file or after zeros only in its sector (`SeekThenWriteIsSplice`);
- a write to a file without a first cluster keeps its first 512 bytes in a buffer that no close flushes, and the next ones
  go to the start of the partition (`ClusterlessWrite`, `ClusterlessSectors`);
- for a size within one cluster of 2^32 truncation's count of clusters wraps around to 0, and such a file is not cut
  (`CountWraps`, `TruncateMeans`);
- on a full volume a growing file links its tail to the bad-cluster mark, and no chain structure is left (`GrowOnFullBreaks`,
  `GrowKeepsIff`, `SaveFails`); a retry then writes near the start of the partition (`RetryLeavesFile`);
- after shrinking its file a handle may stand in a cluster that was freed (`ShrunkHandle`);
- a name that begins with byte 0xE5 reads as deleted: creating one loses a cluster, renaming to one loses the file
  (`CreateKeeps`, `RenameKeeps`, `StepKeepsIff`); a full directory is never grown (`AddDirectoryEntry`);
- a read-only entry is refused for reading, and not for writing (`OpenAt`, `ReadFile`, `Load`, `UpdateAndReadBack`);
- the least 32-bit number does not survive printing and parsing (`ItoaThenAtoi`), nor do digits above `f` in bases over 16
  (`UtoaThenStrtoul`), nor spaces inside a name (`FormatRoundTrip`); negative numbers in other bases than 10 print characters
  below `0` (`NegativeDigits`);
- the line typed before pressing Up does not come back on Down (`UpThenDown`).

## Model

| member | source | states |
|---|---|---|
| PageAllocator.ClearedWithinRegion | kernel/pmm.c:77-101 | the byte-wise clearing of a region stays within the region if and only if the region is not strictly inside one bitmap byte |
| PageAllocator.ClearedExactly | kernel/pmm.c:77-101 | when clearing releases exactly the region: if and only if the range is the tail of one byte |
| PageAllocator.MarkedExactly | kernel/pmm.c:209-233 | the byte-mask marking of a run sets exactly the run if and only if its end is not byte-aligned and it is not strictly inside one byte, or it is the unaligned tail of one byte |
| PageAllocator.MarkedCovers | kernel/pmm.c:209-233 | it sets at least the run if and only if its end is not byte-aligned or it is the unaligned tail of one byte; otherwise the last eight pages stay clear |
| PageAllocator.Allocator.AllocPage | kernel/pmm.c:132-177 | skipping full bytes and scanning the tail hands out the least clear page with a valid address and marks only it, or returns 0 and changes nothing |
| PageAllocator.Allocator.AllocBlocks | kernel/pmm.c:189-245 | first fit: the lowest run of clear pages at or above page 4096, or 0 exactly for count 0, count above the counter, or no run; marks what the masks mark |
| PageAllocator.Allocator.FreePage | kernel/pmm.c:247-258 | clears a used page in range and counts it, anything else is ignored |
| PageAllocator.Allocator.FreeBlocks | kernel/pmm.c:261-268 | frees the pages one by one, with 64-bit address arithmetic |
| PageAllocator.Allocator.ClearRegion | kernel/pmm.c:77-101 | the three byte-wise writes clear exactly the set that the region theorems are about |
| PageAllocator.Allocator.MarkRun | kernel/pmm.c:209-233 | the three byte-wise writes set exactly the set that the marking theorem is about |
| PageAllocator.Allocator.ReleaseRegions | kernel/pmm.c:63-106 | all usable regions are cleared and counted, whatever their order and overlap |
| PageAllocator.Allocator.Reserve | kernel/pmm.c:108-129 | the first 16 MiB and the bitmap's own pages are taken back, each clear one counted down once |
| PageAllocator.Allocator.HighestEnd | kernel/pmm.c:34-40 | the loop computes the largest 64-bit end address of the map |
| PageAllocator.MaxEndIsLargest | kernel/pmm.c:34-40 | no region ends above it, and some region ends there |
| PageAllocator.Allocator.FindBitmap | kernel/pmm.c:46-58 | the loop computes the address of the bitmap |
| PageAllocator.BitmapAddressIsFirst | kernel/pmm.c:46-58 | which is the start of the first conventional region at or above 16 MiB that is large enough, or 0 exactly when there is none |
| PageAllocator.Allocator.Init | kernel/pmm.c:30-130 | the clear pages and the counter that start-up leaves, as functions of the memory map; page by page, in the numbers of the source, the clear pages are those of `LeftClear` |
| PageAllocator.LeftClearIs | kernel/pmm.c:60-130 | the two agree: of the pages at or above 16 MiB and outside the bitmap, the ones that a region of kind 3, 4 or 7 clears -- up to its last bitmap byte, or in a single byte its unaligned tail, or all of the byte if neither end is aligned |
| PageAllocator.RegionClears | kernel/pmm.c:67-101 | what one region clears, in those numbers: its kind, its first page, its end page in 64-bit arithmetic clamped to the number of pages |
| PageAllocator.CountedMeans | kernel/pmm.c:67-104 | what one region counts, in those numbers |
| AllocatorRuns.InitReleases | kernel/pmm.c:63-101 | of every region of kind 3, 4 or 7, whatever the map, each page up to the last bitmap byte that is not taken back is left clear |
| AllocatorRuns.InitReleasesOnly | kernel/pmm.c:63-101 | and with no such region strictly inside one bitmap byte every page left clear lies in a region of kind 3, 4 or 7 |
| AllocatorRuns.InitIsSafe | kernel/pmm.c:60-130 | every page left clear lies below the end of memory, at or above 16 MiB and outside the bitmap, and, when no region lies inside one bitmap byte, in a usable region |
| AllocatorRuns.InitIsSafeIff | kernel/pmm.c:60-130 | on any map, every page left clear lies in a usable region if and only if, in the bitmap byte around each region inside one byte, every page that is not taken back lies in one |
| AllocatorRuns.UnsafeMap | kernel/pmm.c:60-130 | a map of one short region after which page 4096, which no region holds, is left clear |
| AllocatorRuns.InitCounterCovers | kernel/pmm.c:60-130 | with no region strictly inside one bitmap byte the counter is no less than the number of clear pages, while the pages counted fit 64 bits |
| AllocatorRuns.CountedExactly | kernel/pmm.c:63-106 | with no region strictly inside one bitmap byte the region loop counts as many pages as it leaves clear if and only if every range it releases is the unaligned tail of one byte and no two overlap |
| AllocatorRuns.InitCounterExact | kernel/pmm.c:60-130 | and so the counter left after the pages are taken back is the number of clear pages if and only if that holds |
| AllocatorRuns.OvercountedMap | kernel/pmm.c:60-130 | a map of one region of 16 pages on which start-up leaves the counter at 15 and 7 pages clear |
| AllocatorRuns.UndercountedMap | kernel/pmm.c:60-130 | a map of one region strictly inside one byte on which it leaves the counter at 2 and 3 pages clear |
| AllocatorRuns.CountedBound | kernel/pmm.c:104 | the pages counted fit 64 bits for fewer than 4096 regions |
| AllocatorRuns.InnerRegionLeaks | kernel/pmm.c:82-101 | any region strictly inside one byte makes the region loop of start-up release a page outside it |
| AllocatorRuns.LastByteIsLost | kernel/pmm.c:88-104 | of one range over several bytes all pages are counted but those of its last byte, one to eight, stay marked; what follows for a whole map is `InitCounterExact` |
| AllocatorRuns.AllocFindsLeast | kernel/pmm.c:13-20 | what page allocation returns is the least clear page a bit-by-bit search over valid addresses finds |
| AllocatorRuns.BlocksAreFirstFit | kernel/pmm.c:189-245 | what block allocation returns is a run of clear pages at or above 16 MiB, and no long enough one starts below it; it returns 0 only for no pages, for more than are counted, or when there is none |
| Bitmap.BitsInOrder | kernel/pmm.c:9-11 | of the eight pages of a bitmap byte the first has the lowest bit |
| AllocatorRuns.FreeManyClears | kernel/pmm.c:261-268 | freeing a range makes exactly its existing pages at or above 16 MiB clear |
| AllocatorRuns.DoubleFreeHasNoEffect | kernel/pmm.c:247-268 | freeing again what was freed changes neither the bits nor the counter |
| AllocatorRuns.NoDoubleHandOut | kernel/pmm.c:132-268 | in every run, between two hand-outs of a page some operation frees it, given the marking of the first covered the run handed out |
| AllocatorRuns.LastByteStaysClear | kernel/pmm.c:209-233 | whenever the marking does not cover the run handed out, its last eight pages stay clear, and page allocation accepts the first of these if its address is at most 512 GiB |
| AllocatorRuns.UncoveredHandedOutTwice | kernel/pmm.c:132-245 | and then a run of page allocations without a free hands that page out again |
| AllocatorRuns.AlignedByteHandedOutTwice | kernel/pmm.c:209-237 | eight byte-aligned pages are handed out, not marked, and handed out again by the same request |
| AllocatorRuns.SlackIsConstant | kernel/pmm.c:132-268 | in every run the counter minus the number of clear pages stays the same if and only if every block allocation of the run takes as many clear pages as it counts |
| AllocatorRuns.TakenByMarking | kernel/pmm.c:209-236 | a block allocation does so if and only if the masks mark exactly the run, or the run is strictly inside one byte whose other pages are in use |
| AllocatorRuns.BlocksSlack | kernel/pmm.c:189-245 | and it keeps the difference if and only if it fails or does so |
| AllocatorRuns.LowPagesStayUsed | kernel/pmm.c:132-268 | in every run pages below 16 MiB never become free |
| PageTables.OrFields | include/vmm.h:9-15 | the address field and the present bit of a bitwise or are the ors of those fields |
| PageTables.OrFlags | include/vmm.h:9-15 | so are the flag bits below and above the address |
| PageTables.TableEntryFields | kernel/vmm.c:17 | a stored table entry is present and carries the flag bits; it leads to its table if and only if every address bit of the flags is one of the table's own |
| PageTables.LeafEntryFields | kernel/vmm.c:28 | a stored leaf entry is present, holds the masked physical address, or-ed with the address bits of the flags, and carries the flag bits |
| PageTables.EntriesAre | kernel/vmm.c:12-28 | both stored entries in numbers: bits 0 to 11, bits 12 to 51 and the bits above |
| PageTables.OrBits | include/vmm.h:9-15 | bitwise or, bit by bit from the lowest |
| PageTables.IndicesArePage | include/vmm.h:18-21 | the four indices are the base-512 digits of the 36-bit page number |
| PageTables.SameIndices | include/vmm.h:18-21 | two addresses share all four indices exactly when they share the page number |
| PageTree.TranslateIsWalk | include/vmm.h:9-21 | a translation is the walk of four lookups, at nine bits of the address each, through the pages that bits 12 to 51 name, as long as bit 0 is set |
| PageTree.LinkTranslates | kernel/vmm.c:12-18 | linking a fresh zeroed table changes no translation |
| PageTree.LinkTree | kernel/vmm.c:12-18 | and keeps the reachable tables a tree of distinct used pages, and every present entry |
| PageTree.StoreTranslates | kernel/vmm.c:27-28 | storing a leaf entry changes the translation of exactly one page |
| PageTree.MapRefines | kernel/vmm.c:7-32 | with flags outside the address mask and enough pages, mapping is an update of the translation at one page number; present tables stay, the tree invariant is kept, and only the missing tables' pages are consumed; every page that is no table on the address's path keeps all its words, every table on it all words but the one indexed, a new table is zero but for that one, and the counter goes down by the pages taken |
| PageTree.ExhaustedMapWritesPageZero | kernel/vmm.c:13-14 | without any free page and with the first level missing, nothing is mapped at the address and the entry lands in page 0 |
| PageTree.ShortMapIsUnseen | kernel/vmm.c:7-32 | with fewer free pages than missing tables, while no table is page 0 and page 0 has no entry where the walk looks, every translation is as before and the entry is stored in page 0; outside page 0 only tables on the path are written, as above |
| PageTree.MapSucceedsIff | kernel/vmm.c:7-32 | so the address gets its entry if and only if there is a free page for every missing table |
| VirtualMemory.Kernel.AllocZPage | kernel/pmm.c:180-186 | the least page, zeroed, or 0 with no change |
| VirtualMemory.Kernel.GetNextLevel | kernel/vmm.c:7-19 | follows a present entry, else links a fresh zeroed table, else returns 0 |
| VirtualMemory.Kernel.Map | kernel/vmm.c:21-32 | does to memory and allocator exactly what the refinement theorem is about |
| VirtualMemory.FirstLoopStep | kernel/vmm.c:43-45 | one turn of the identity loop maps one page more and takes exactly the tables that page needs |
| VirtualMemory.SecondLoopStep | kernel/vmm.c:51-53 | one turn of the framebuffer loop keeps the first gigabyte, maps one page more and takes exactly the tables that page needs |
| VirtualMemory.OneMappedKeeps | kernel/vmm.c:43-53 | and leaves the words of pages that are no tables, and no word of a table that is neither zero nor a present entry |
| VirtualMemory.OneMorePage | kernel/vmm.c:51-53 | a longer range of pages needs one table more at each level where its last page is the first of a span that no mapped page touches |
| VirtualMemory.Kernel.Init | kernel/vmm.c:39-56 | given 515 pages and one for each table that the framebuffer's range touches beyond the first gigabyte's, exactly the first gigabyte and the framebuffer's pages map to themselves, present and writable, nothing else below 2^48 is mapped, and exactly that many pages are taken; a page that is no table keeps all its words, and every word of a table is zero or a present entry |
| VirtualMemory.IdentityEntryMeans | kernel/vmm.c:43-45 | the entry of page n is the page's address with the present and writable bits, and leads to page n |
| VirtualMemory.FramebufferCovered | kernel/vmm.c:49-53 | the pages visited cover every byte of the framebuffer exactly when the misalignment of its base does not reach into a further page |
| FatChains.TakeFirstFree | kernel/drivers/fs/fat32.c:149-157 | taking the lowest free cluster leaves the other free clusters, in order |
| FatChains.LinkUpMakesChain | kernel/drivers/fs/fat32.c:175-190 | linking distinct clusters one by one gives a terminated acyclic chain and touches nothing else |
| FatChains.ChainMeans | include/drivers/fs/fat32.h:97-101 | a chain in numbers: clusters 2 to 127005, all different, each entry the next cluster and the last entry 0x0FFFFFF8 or more |
| FatChains.LinkUpEnds | kernel/drivers/fs/fat32.c:168-190 | the last entry linked is 0x0FFFFFF8 |
| FatChains.FreeChainOfChain | kernel/drivers/fs/fat32.c:199-214 | freeing a chain succeeds and clears exactly its clusters |
| FatChains.FreeChainClearsPath | kernel/drivers/fs/fat32.c:199-214 | on any table, cyclic or corrupt, freeing ends and clears exactly the clusters on the path from its argument |
| FatChains.FreeChainSucceeds | kernel/drivers/fs/fat32.c:199-214 | and it succeeds if and only if no entry on the path is 1 or from 127006 to 0x0FFFFFF7 |
| FatRuns.PicksAreLowest | kernel/drivers/fs/fat32.c:149-197 | allocation takes the lowest free clusters in ascending order |
| FatRuns.AllocateThenFree | kernel/drivers/fs/fat32.c:162-214 | allocating and then freeing gives the same table, and so does the rollback |
| FatRuns.CutOnChain | kernel/drivers/fs/fat32.c:833-852 | the truncation walk leaves exactly the first clusters as a chain, ended by 0x0FFFFFF8, and frees the rest |
| FatRuns.AllocateKeeps | kernel/drivers/fs/fat32.c:162-197 | allocation adds one disjoint chain to the live chains |
| FatRuns.FreeKeeps | kernel/drivers/fs/fat32.c:199-214 | freeing removes one chain from the live chains |
| FatRuns.GrowKeeps | kernel/drivers/fs/fat32.c:698-716 | growth appends the lowest free cluster to one live chain |
| FatRuns.GrowOnFullBreaks | kernel/drivers/fs/fat32.c:698-714 | on a full volume growth leaves a table that no set of chains accounts for |
| FatRuns.GrowKeepsIff | kernel/drivers/fs/fat32.c:698-716 | growth keeps the chain structure if and only if some cluster is free |
| FatRuns.CutKeeps | kernel/drivers/fs/fat32.c:833-852 | truncation shortens one live chain |
| FatRuns.RunKeepsSound | kernel/drivers/fs/fat32.c:149-214 | over every run live chains stay in range, acyclic, terminated and disjoint, and every other cluster is free |
| Sectors.GetPut | kernel/drivers/fs/fat32.c:122-137 | a 32-bit word stored in a sector reads back, and disturbs no other word |
| Sectors.DataSectorsDisjoint | kernel/drivers/fs/fat32.c:91-99 | distinct clusters have disjoint sectors on the disk, above both FAT copies |
| Sectors.FatSectorsInRange | kernel/drivers/fs/fat32.c:113-140 | every FAT entry lies within the 993 sectors of its copy, and the copies are apart |
| Sectors.FatSlotsDistinct | kernel/drivers/fs/fat32.c:113-140 | two entries never overlap inside a sector |
| Sectors.FatWriteRefines | kernel/drivers/fs/fat32.c:128-143 | writing an entry updates the 28-bit table at one cluster, keeps equal copies equal, and no other sector changes, nor any other word of the FAT sectors |
| Sectors.FatEntryBytes | kernel/drivers/fs/fat32.c:113-124 | the table's entry is the four bytes at 4 * (c % 128) of the first copy's sector c / 128, least byte first, modulo 2^28 |
| Sectors.FatWrittenBytes | kernel/drivers/fs/fat32.c:128-143 | writing it changes those four bytes, and the sector 993 further on becomes the same |
| Sectors.FatKeptMirror | kernel/drivers/fs/fat32.c:128-143 | where only words of clusters change and copies follow, equal copies stay equal |
| FatVolume.Volume.ReadFatEntry | kernel/drivers/fs/fat32.c:113-124 | the table's entry, that is the four bytes of that place on the disk modulo 2^28, or 0x0FFFFFF7 outside clusters 2 to 127005 |
| FatVolume.Volume.WriteFatEntry | kernel/drivers/fs/fat32.c:128-143 | an update of the table exactly for clusters 2 to 127005, by four bytes at that place and a copy of the sector 993 further on; else no change at all |
| FatVolume.Volume.FindFreeCluster | kernel/drivers/fs/fat32.c:149-157 | the lowest cluster from 3 to 127005 whose entry is 0, or 0x0FFFFFF7 when there is none |
| FatVolume.Volume.FreeClusterChain | kernel/drivers/fs/fat32.c:199-214 | ends on every table and does what the path theorem says, on both copies |
| FatVolume.Volume.AllocateClusterChain | kernel/drivers/fs/fat32.c:162-197 | succeeds exactly when enough clusters are free; then the lowest ones are linked, else the table is as before |
| FileImages.PositionParts | kernel/drivers/fs/fat32.c:632-634 | cluster, sector and byte offsets of a position agree with one split of the position |
| FileImages.CursorAdvance | kernel/drivers/fs/fat32.c:636-641 | the lazy cursor advances exactly when the next byte is in the next cluster |
| FileImages.LbasDistinct | kernel/drivers/fs/fat32.c:643 | the sectors of a chain are distinct data sectors |
| FileImages.LbaIs | kernel/drivers/fs/fat32.c:91-99 | which sector of the disk a sector of a chain's cluster is, with the partition start added twice |
| FileImages.HeldByte | kernel/drivers/fs/fat32.c:632-661 | byte i of a file lies at i % 512 of the sector for i / 512 |
| FileImages.SpliceBytes | kernel/drivers/fs/fat32.c:744-755 | a splice has the data from the position on and the content everywhere else |
| FileImages.PatchSplices | kernel/drivers/fs/fat32.c:744-748 | writing one patched sector splices the file's bytes |
| FileSteps.LoadKeeps | kernel/drivers/fs/fat32.c:719-739 | flushing and refilling the buffer changes nothing to be seen, and no FAT sector |
| FileSteps.ChunkKeeps | kernel/drivers/fs/fat32.c:719-755 | one buffered piece of a write splices the content, of which the bytes before it in its sector are zeroed first when it starts mid-sector at the end of the file with an empty buffer, and keeps the cursor invariant |
| FileSteps.ChunkAhead | kernel/drivers/fs/fat32.c:719-755 | the same with the cursor some clusters ahead of the position, as after a seek: the piece goes that many clusters further on |
| FileSteps.ReadPiece | kernel/drivers/fs/fat32.c:643-661 | one buffered piece of a read is the right slice of the chain, from wherever the cursor stands |
| FileSteps.ChainByteIs | kernel/drivers/fs/fat32.c:632-661 | the bytes of a chain, in the same numbers |
| FileSteps.WritingFails | kernel/drivers/fs/fat32.c:698-714 | a write that cannot grow has used up every free cluster and stands at the end of the chain: the free clusters are linked to it in order, the last one holds the bad-cluster mark, the file shows what was written before, and only the file, those clusters and words of clusters in the FATs have changed |
| FileSteps.WriteIsSplice | kernel/drivers/fs/fat32.c:719-755 | the content after a write is the splice at the position if and only if a sector is in the buffer, or the position is before the end of the file, or the bytes before it in its sector are zero |
| FileSteps.AppendForgets | kernel/drivers/fs/fat32.c:730-737 | appending one byte to a one-byte file through an empty buffer loses the first byte |
| Files.Handle.Write | kernel/drivers/fs/fat32.c:677-759 | succeeds exactly when the free clusters suffice; then size, position and chain are those of a splice at the position, the content is that splice with the exception that `WriteIsSplice` makes exact, and nothing else on the disk changed; with the cursor a number of clusters ahead of the position the same holds that many clusters further on; on failure the same holds of the first bytes, as many as fit the file's and all the free clusters, and the last of these holds the bad-cluster mark |
| Files.Handle.Read | kernel/drivers/fs/fat32.c:614-675 | consecutive bytes of the chain, clamped to file size and chain, from the cursor's true place |
| Files.Handle.Seek | kernel/drivers/fs/fat32.c:761-802 | fails beyond the file or the chain; else stands at the cluster of the position and drops the buffer |
| Files.Handle.Flush | kernel/drivers/fs/fat32.c:873-875 | writes a dirty buffer to its sector, if it has one |
| Files.Handle.UpdateDirectoryEntry | kernel/drivers/fs/fat32.c:422-440 | writes the size, and zero time and date, into the handle's entry |
| Files.Handle.Close | kernel/drivers/fs/fat32.c:868-882 | flushes, updates the entry, and zeroes every field of the handle and its buffer |
| Files.Handle.OpenAt | kernel/drivers/fs/fat32.c:558-576 | fills a handle from an entry, with position 0 and an empty buffer; read-only entries are refused for reading |
| Files.Handle.CutChain | kernel/drivers/fs/fat32.c:833-852 | the walk and cut of truncation, as a step on the table |
| Files.Handle.Truncate | kernel/drivers/fs/fat32.c:804-866 | same size, growing, shrinking and failing truncation, with the exact table, entry and position |
| FileSessions.SeekCursor | kernel/drivers/fs/fat32.c:774-801 | after a seek the cursor is where reading expects it if and only if the position is not a nonzero multiple of the cluster size; there it is one cluster ahead |
| FileSessions.SeekAndRead | kernel/drivers/fs/fat32.c:614-802 | seek then read gives the bytes at the position, or at such multiples the bytes one cluster further on |
| FileSessions.ReadInPieces | kernel/drivers/fs/fat32.c:614-675 | reading does not depend on how it is cut into calls |
| FileSessions.WriteAll | kernel/drivers/fs/fat32.c:677-759 | nor does writing: any sequence of writes is one write of all the data, with the same exception for where the first one starts; it fails exactly when the free clusters do not suffice, and is then one write of as much as fits |
| FileSessions.SeekAndWrite | kernel/drivers/fs/fat32.c:677-802 | seek then write, at any position and of any length: when it succeeds, on how long a chain, and what the file then holds -- the data spliced in at the position or, at a nonzero multiple of the cluster size, one cluster further on; there the file never holds the splice at the position if the first byte differs from the one there, elsewhere it holds it if and only if the position is before the end of the file or after zeros only in its sector; when it fails, the same of as much as fits |
| FileSessions.SeekThenWriteIsSplice | kernel/drivers/fs/fat32.c:677-802 | so data of every length are spliced in at the position, whatever they are, if and only if the position is no nonzero multiple of the cluster size and is before the end of the file or after zeros only in its sector |
| FileSessions.WriteAfterSeek | kernel/drivers/fs/fat32.c:688-748 | at a nonzero multiple of the cluster size the first piece patches the sector one cluster further on; in the last cluster it meets the end mark, and the chain grows by the lowest free cluster, which that sector is in |
| FileSessions.ClusterlessWrite | kernel/drivers/fs/fat32.c:719-755 | a first piece written to a file without clusters goes to a buffer without a sector: nothing of it is on the disk or flushed, and with more than one sector per cluster the piece after its 512 bytes is loaded over it |
| FileSessions.ClusterlessSectors | kernel/drivers/fs/fat32.c:91-99 | the sectors of its first cluster are those at the start of the partition, outside every file as far as the reserved area reaches |
| FileSessions.RetryLeavesFile | kernel/drivers/fs/fat32.c:699-723 | after a growth that failed one more write follows the bad-cluster mark; its sectors are those at the start of the partition, outside every file, and before the FATs as far as the reserved area reaches |
| FileSessions.UpdateFile | kernel/drivers/fs/fat32.c:677-882 | open, any writes, close: when the free clusters suffice entry, size, chain length and bytes are those of the splice and nothing else changed; when they do not, the file's and all the free clusters are linked in order up to a last one marked bad and hold the first bytes of the data, which the entry says, and nothing else changed |
| FileSessions.ReadFile | kernel/drivers/fs/fat32.c:614-675 | a fresh handle opened for reading reads the whole content, and is refused exactly for read-only entries |
| FileSessions.UpdateAndReadBack | kernel/drivers/fs/fat32.c:614-882 | the update succeeds exactly when the free clusters suffice; a fresh handle then reads back the data written followed by the old content beyond it, unless the entry is read-only |
| FileSessions.OtherFileUnchanged | kernel/drivers/fs/fat32.c:677-882 | every other file keeps its chain and its bytes |
| FileSessions.ClusterCountIs | kernel/drivers/fs/fat32.c:830-831 | the count of clusters is the rounded-up quotient while its 32-bit sum does not wrap around |
| FileSessions.CountWraps | kernel/drivers/fs/fat32.c:830-831 | when it does, the count is 0 |
| FileSessions.TruncateMeans | kernel/drivers/fs/fat32.c:829-856 | shrinking keeps exactly the clusters the new size needs, frees the others, and keeps the first bytes; it keeps the whole chain when the count for the old size wrapped around or the new size is 0 |
| FileSessions.TruncateAndReadBack | kernel/drivers/fs/fat32.c:804-866 | a truncated file reads back as its first bytes, unless its entry is read-only, and the rest of the disk is as before |
| FileSessions.ShrunkHandle | kernel/drivers/fs/fat32.c:829-866 | a clean handle with an empty buffer that shrank its file still stands for it if and only if its cursor is in the cluster of the byte before the new position |
| Names.FindDot | kernel/drivers/fs/fat32.c:222 | the first dot of a name |
| Names.NameTo83 | kernel/drivers/fs/fat32.c:217-246 | the loops fill in the two upper-cased, cut and padded fields |
| Names.To83Bytes | kernel/drivers/fs/fat32.c:217-246 | byte by byte: up to eight bytes before the first dot and three after it, 0x61 to 0x7A less 0x20 and all others unchanged, with spaces behind them |
| Names.CaseIsIgnored | kernel/drivers/fs/fat32.c:1593-1598 | paths that differ in the case of ASCII letters only have the same directory name |
| Names.Format83Name | kernel/drivers/fs/fat32.c:248-266 | the loops write both fields up to their first space, with a dot between and a terminator |
| Names.FormatRoundTrip | kernel/drivers/fs/fat32.c:217-266 | format, read up to the first zero, then convert gives an eleven-byte name back if and only if it has no zero byte, is upper case, without dots in its base, and with its spaces at the ends of its fields |
| Names.SpaceFreeIsCanonical | kernel/drivers/fs/fat32.c:217-266 | the converted name of every space-free string survives format and convert |
| Names.InnerSpaceIsLost | kernel/drivers/fs/fat32.c:251-254 | a name with a space inside does not |
| Names.ShortNameRoundTrip | kernel/drivers/fs/fat32.c:217-266 | a short base with an absent or short extension comes back in upper case |
| Names.FirstByte | kernel/drivers/fs/fat32.c:217-246 | no path converts to an end marker; it converts to a deletion mark exactly when it begins with that byte |
| DirEntries.SizeUpdatedMeans | kernel/drivers/fs/fat32.c:432-439 | resizing an entry keeps its name, attributes and cluster, and every other entry |
| DirEntries.SizeUpdatedBytes | kernel/drivers/fs/fat32.c:432-439 | byte by byte: four bytes of size, four zeros of write time and date, and all others as before |
| DirEntries.EntryBytes | include/drivers/fs/fat32.h:43-56 | the bytes of name, attributes, first cluster and size |
| DirEntries.AttributeBits | include/drivers/fs/fat32.h:89-95 | read-only is bit 0 of the attributes and directory bit 4 |
| DirMaps.SearchIsFirst | kernel/drivers/fs/fat32.c:292-346 | the search finds the first live entry of a name before the end marker, and nothing exactly when there is none |
| DirMaps.SearchMeans | kernel/drivers/fs/fat32.c:309-339 | byte by byte: slot j is found if and only if its eleven name bytes agree, its first byte is not 0xE5, the low four attribute bits are not all set, no slot up to it begins with 0, and no earlier one would do |
| DirMaps.SearchIsLookup | kernel/drivers/fs/fat32.c:292-346 | with unique names the search is the lookup of a finite map |
| DirMaps.RoomIsFirst | kernel/drivers/fs/fat32.c:348-370 | the slot filled is the first one deleted or at the end, and there is none exactly when every slot is in use |
| DirMaps.RoomMeans | kernel/drivers/fs/fat32.c:364-367 | byte by byte: it is the first slot whose first byte is 0x00 or 0xE5 |
| DirMaps.CreateMeans | kernel/drivers/fs/fat32.c:364-391 | filling it adds one name to the map and keeps names unique; the name is then found if and only if it does not begin with the deletion mark |
| DirMaps.DeleteMeans | kernel/drivers/fs/fat32.c:448-449 | marking an entry takes one name out of the map |
| DirMaps.RenameMeans | kernel/drivers/fs/fat32.c:1184-1188 | renaming moves one entry to the new name, with the same condition |
| DirSlots.NewEntryFields | kernel/drivers/fs/fat32.c:372-387 | a new entry says the cluster and the size it was made of |
| DirSlots.NewEntryBytes | kernel/drivers/fs/fat32.c:368-387 | byte by byte: name, attributes, cluster and size, and zero everywhere else |
| DirSlots.SlotBytes | include/drivers/fs/fat32.h:43-56 | the fields of a slot by its bytes |
| DirSlots.SlotByteAt | kernel/drivers/fs/fat32.c:300-309 | where each byte of a slot lies on the disk |
| DirSlots.SlotFields | include/drivers/fs/fat32.h:43-56 | the fields read at an offset of a sector are the fields of the slot there |
| DirSlots.WithSlotMeans | kernel/drivers/fs/fat32.c:389-392 | writing one slot's sector changes exactly that slot of the directory, and not the table |
| DirSlots.SlotsElsewhere | kernel/drivers/fs/fat32.c:389-392 | a directory depends only on its own sectors |
| Directory.SameName | kernel/drivers/fs/fat32.c:324-330 | the comparison loop decides equality of the eleven bytes |
| Directory.FindInSector | kernel/drivers/fs/fat32.c:309-339 | the loop over one sector is the search over its sixteen slots |
| Directory.FindDirectoryEntry | kernel/drivers/fs/fat32.c:292-346 | walking the chain is the search over the whole directory, and gives the place of the slot and the cluster it lies in |
| Directory.CaseFindsSame | kernel/drivers/fs/fat32.c:292-346 | paths that differ in the case of ASCII letters only find the same slot |
| Directory.AddDirectoryEntry | kernel/drivers/fs/fat32.c:348-420 | fills the first slot not in use; a full directory changes nothing and fails |
| Directory.RemoveDirectoryEntry | kernel/drivers/fs/fat32.c:442-452 | marks one slot deleted |
| Directory.CreateFile | kernel/drivers/fs/fat32.c:1076-1117 | all or nothing: succeeds exactly when the path is not empty, the name is not found, a cluster is free and a slot is; then one entry, one cluster and one zeroed cluster more, else table and directory as before |
| Directory.CreateSucceeds | kernel/drivers/fs/fat32.c:1084-1106 | in numbers: exactly when the path is not empty, no live slot has its name, some entry of the clusters 3 to 127005 is 0, and the first byte of some slot is 0x00 or 0xE5 |
| Directory.CreateMakes | kernel/drivers/fs/fat32.c:1094-1106 | the least such cluster gets the entry 0x0FFFFFF8, and the least such slot the name, the attribute 0x20, that cluster, and zeros; no other entry and no other slot changes |
| Directory.DeleteFile | kernel/drivers/fs/fat32.c:1119-1154 | frees the chain, then marks the slot; fails on missing names, directories and chains that cannot be freed |
| Directory.DeleteSucceeds | kernel/drivers/fs/fat32.c:1128-1153 | by the bytes of the slot found: exactly when bit 4 of the attributes is clear and freeing succeeds; then its first byte becomes 0xE5 and no other slot changes |
| Directory.Rename | kernel/drivers/fs/fat32.c:1156-1191 | succeeds exactly when the old name is found and the new one is not; only the name bytes of one slot change |
| Directory.RenameMakes | kernel/drivers/fs/fat32.c:1177-1190 | the slot found gets the eleven bytes of the new name and keeps the other 21 |
| Directory.ZeroCluster | kernel/drivers/fs/fat32.c:1108-1114 | every sector of the cluster is zero and no other sector changes |
| DirectoryRuns.CreateKeeps | kernel/drivers/fs/fat32.c:1076-1117 | on a volume where every file has its own chain and no cluster is lost, create adds one file and keeps that structure, and all bytes; a path beginning with the deletion mark leaves a cluster that no assignment of chains to names accounts for |
| DirectoryRuns.CreateRefused | kernel/drivers/fs/fat32.c:1084-1106 | a failed create has one of four causes and changes nothing the structure sees |
| DirectoryRuns.DeleteKeeps | kernel/drivers/fs/fat32.c:1119-1154 | delete succeeds exactly on names of files; it takes away one file and its chain and keeps the structure and all other bytes |
| DirectoryRuns.RenameKeeps | kernel/drivers/fs/fat32.c:1156-1191 | a renamed file keeps all but its name, and every other file everything; renaming to a name with the deletion mark keeps the structure if and only if the file had no clusters |
| DirectoryRuns.RenameRefused | kernel/drivers/fs/fat32.c:1165-1175 | rename fails exactly when the old name is missing or the new one is there, and then changes nothing |
| DirectoryRuns.LostChain | kernel/drivers/fs/fat32.c:1094-1106 | when no live entry points to a live chain, no assignment of chains to names is right |
| DirectoryRuns.StepKeepsIff | kernel/drivers/fs/fat32.c:1076-1191 | a call of create, delete or rename keeps the structure if and only if it does not go through with a name that begins with the deletion mark, unless it renames a file without clusters |
| DirectoryRuns.StepKeepsFats | kernel/drivers/fs/fat32.c:128-143 | and always changes no word of the FATs but those of clusters, with the second copy following the first |
| FileSystem.FileIsEntry | kernel/drivers/fs/fat32.c:551-567 | the slot found by name describes the file's chain and size, apart from the directory |
| FileSystem.SaveKeeps | kernel/drivers/fs/fat32.c:677-882 | an updated file has its new content and its entry the new size; every other file keeps chain and bytes, and the volume stays consistent |
| FileSystem.SaveFails | kernel/drivers/fs/fat32.c:698-714 | an update for which the clusters ran out leaves a table that no assignment of chains to names accounts for; the file's and all the free clusters hold as much of the data as fits, its entry says so, and every other file keeps entry, chain and bytes |
| FileSystem.TruncateKeeps | kernel/drivers/fs/fat32.c:804-866 | a shortened file has its first bytes and its entry the new size; every other file keeps chain and bytes, and the volume stays consistent |
| FileSystem.Save | kernel/drivers/fs/fat32.c:523-882 | opening by name, writing and closing updates that file and no other exactly when the free clusters suffice; when they do not, the structure is lost, the data are kept as far as they fit, and the other files keep their entries, chains and bytes |
| FileSystem.Load | kernel/drivers/fs/fat32.c:523-675 | opening by name for reading gives the file's content, and is refused exactly for read-only entries |
| FileSystem.CreateSaveLoad | kernel/drivers/fs/fat32.c:523-1117 | a file created and saved by name loads as what was saved, with the exact conditions for creating and saving |
| FileSystemRuns.EventKeepsIff | kernel/drivers/fs/fat32.c:523-1191 | a create, delete, rename, save (one that fails included) or shortening of a file keeps the structure if and only if no name with the deletion mark goes through, as above, and a save finds the clusters it needs |
| FileSystemRuns.RunKeeps | kernel/drivers/fs/fat32.c:523-1191 | any run of such events, each safe in that sense where it happens, keeps names unique, chains disjoint and no cluster lost, and leaves every file that none of them names untouched in slot, chain and bytes |
| FileSystemRuns.RunKeepsIff | kernel/drivers/fs/fat32.c:523-1191 | every state of a run has the structure if and only if every event is safe where it happens |
| FileSystemRuns.RunKeepsFats | kernel/drivers/fs/fat32.c:128-143 | in every run, safe or not, no word of the FATs changes but those of clusters, and the two copies stay equal |
| FileSystemRuns.BlankConsistent | kernel/drivers/fs/fat32.c:473-500 | an empty volume, with a root directory of one cluster, has the structure the other theorems keep |
| FileSystemRuns.ReachableConsistent | kernel/drivers/fs/fat32.c:523-1191 | in every run from an empty volume each state has unique names, disjoint chains, one for every file with clusters, and no lost cluster, as long as the events are safe -- no name with the deletion mark goes through, every save finds its clusters -- and no longer; the two copies of the FAT are equal in every state |
| Numbers.ReverseString | kernel/string.c:137-149 | reverses in place, and nothing beyond |
| Numbers.DigitTable | kernel/shell.c:78 | the characters of the digits 0 to 35 |
| Numbers.HexTables | kernel/shell.c:93 | the characters of the hexadecimal digits, in lower and upper case |
| Numbers.DigitsRead | kernel/shell.c:146-154 | a character is read as a digit if and only if it is that digit's in either case |
| Numbers.DigitsAre | kernel/shell.c:76-80 | in every base from 2 to 36 the k-th character from the right is that of the number divided by the k-th power of the base, modulo the base |
| Numbers.DigitCount | kernel/shell.c:76-80 | and there are as many characters as the number needs |
| Numbers.NegativeDigits | kernel/string.c:166-170 | a negative number in another base than 10 prints as many characters, each as far below "0" as the digit is above it |
| Numbers.Utoa | kernel/shell.c:64-90 | division and reversal print the digits, most significant first, and a terminator, and write nothing beyond |
| Numbers.UtoaHex | kernel/shell.c:92-116 | nibble shifts with leading zeros skipped print the same digits, and write nothing beyond |
| Numbers.Itoa | kernel/string.c:151-179 | prints every 32-bit number in every base from 2 to 36, with C's truncated division and wrapped negation |
| Numbers.Strtoul | kernel/shell.c:123-169 | blanks, base detection and digits: the value modulo 2^32 and where the digits end |
| Numbers.Atoi | kernel/string.c:209-230 | spaces, sign and digits, in wrapping signed arithmetic |
| Numbers.UtoaThenStrtoul | kernel/shell.c:64-169 | parsing gives the printed number back if and only if every digit printed can be read, always up to base 16 |
| Numbers.HexAgrees | kernel/shell.c:64-116 | dividing by 16 and shifting nibbles print the same lower-case text; upper-case text reads back too |
| Numbers.BaseZero | kernel/shell.c:131-143 | decimal text, and hexadecimal text after 0x, read back with base detection |
| Numbers.OctalRead | kernel/shell.c:131-143 | octal text after 0 reads back with base detection; "017" is 15 |
| Numbers.BlankSkipped | kernel/shell.c:127-129 | a blank or tab in front changes only where the digits end |
| Numbers.ItoaThenAtoi | kernel/string.c:151-230 | parsing gives the number printed in base 10 back if and only if it is not the least one |
| Numbers.AtoiSkips | kernel/string.c:213-222 | a space, tab or line end in front changes nothing, nor does a plus sign before a digit |
| History.RingPush | kernel/shell.c:398-403 | storing at the ring's position appends, and drops the oldest of ten entries |
| History.RecentOne | kernel/shell.c:388-405 | one more line appends to the last ten entries unless it is empty or equal to the last |
| History.RunOk | kernel/shell.c:448-504 | whatever is typed, the line stays within 255 characters from 32 to 126 and the shown entry within the ring of at most ten |
| History.BackspaceErases | kernel/shell.c:489-494 | Backspace takes back the last character typed, and no more |
| History.KeysWithoutEffect | kernel/shell.c:448-504 | Backspace and Enter at an empty line, characters without meaning or beyond the 255th, and escape sequences that are no arrows change nothing; carriage return is Enter as well |
| History.Shell.SaveToHistory | kernel/shell.c:388-406 | stores a line that is neither empty nor a repetition of the last one, and moves the index past the newest entry exactly then |
| History.Shell.ShowHistoryUp | kernel/shell.c:408-426 | loads the entry before the one shown, if any |
| History.Shell.ShowHistoryDown | kernel/shell.c:428-446 | loads the entry after the one shown, if any |
| History.Shell.ProcessChar | kernel/shell.c:448-504 | one character does to line, ring and index what it does to the list of submitted lines |
| History.Shell.ProcessAll | kernel/shell.c:448-504 | after any character stream the ring is the last at most ten non-empty submitted lines with consecutive repetitions collapsed |
| History.TypedThenRecalled | kernel/shell.c:408-504 | a line typed and entered is shown by the next Up |
| History.UpMany | kernel/shell.c:408-426 | k presses of Up show the k-th entry from the end, and stay at the first |
| History.DownMany | kernel/shell.c:428-446 | k presses of Down show the k-th entry after the one shown, and stay at the last; at the prompt they do nothing |
| History.UpThenDown | kernel/shell.c:408-446 | Down after Up returns to the entry shown before, but not to an unsubmitted line |

## Left out

- I/O errors, the mounted and read-only flags, error messages and serial logging of the FAT32 driver: sector access always succeeds, so branches on its failure are not modelled.
- Parsing of the boot sector, formatting, volume label, FSInfo sector and free-cluster statistics: the geometry is a parameter.
- Subdirectories, `fat32_create_dir`, `fat32_remove_dir`, `fat32_read_dir`, `fat32_copy`, `fat32_move` and attribute changes: names are looked up in the root directory only.
- `fat32_open` in its creating modes and on the root path: opening is modelled for an entry that is found.
- Directory.FindDirectoryEntry: requires the directory's chain to be acyclic and terminated, as the volume's structure has it; when no slot stops it, the driver's search does not end on a cyclic chain.
- Directory.AddDirectoryEntry: requires the same of the directory's chain.
- Directories with used slots after an end marker: the consistency theorems require that only end markers follow an end marker.
- The parent cluster that `fat32_create_file` passes on is unset in the driver when the name is not found; here it is the caller's root cluster.
- Reading through a handle that has unflushed writes, and growing truncation: the code does not give the file's bytes there, and no claim about bytes is made.
- Files whose entry has no first cluster: the driver creates none; the first cluster of a write to one is modelled (`ClusterlessWrite`), whole sessions on one are not; delete and rename cover them.
- FileSessions.RetryLeavesFile: which sectors the writes reach, not the file's bytes after them, which the model gives no meaning to.
- Files.Handle.Write: requires the end of the write to be below 2^32, where the driver's position would wrap around.
- Files.Handle.Read: promises bytes only while position plus size stays below 2^32; beyond that only that nothing but the handle changes.
- FileSystemRuns.RunKeeps: the events are writes from the start of a file and truncations to a smaller size; writes after a seek and growing truncation are left to the theorems about one handle.
- VirtualMemory.Kernel.Init: requires the framebuffer to end at or below 2^48; its map is promised only when enough pages are free.
- PageAllocator.Allocator.Init: takes the decoded memory map; the endless loop on a descriptor size of 0 is not modelled, and the bitmap is an array of its own rather than bytes of the memory it describes.
- PageTree.MapRefines: translation and table contents only; invalidation of cached translations, the page-table register and access rights are hardware effects.
- Numbers.Utoa: bases from 2 to 36; base 0 and 1 do not end in the driver, and the caller's buffer must hold the text.
- Numbers.Itoa: signed overflow, undefined in C, is taken as two's-complement wrap-around; so in `Numbers.Atoi`.
- History.Shell.Submit: running the command is left out, as is everything printed to the terminal.
- The rows of the history ring are strings up to their terminator; bytes after it are not modelled.
- Port I/O, interrupts, keyboard, timers, segment and interrupt tables, boot loader, framebuffer drawing and the kernel's bump allocator.
