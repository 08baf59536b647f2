# Verified models of a small systems toolkit

Dafny models, with proofs, of five components of the repository:

- the slab allocator of `tlibc/malloc.c`, as a state machine over pages, free lists and live
  pointers (`SlabModel`, `SlabRuns`), as code over raw 8-byte words that refines it (`SlabMemory`,
  `Slab`), and in the numbers of the source (`SlabClasses`);
- the FAT32 image builder of `gpt/fat.c` with the boot loader's reader of `bootloader/vmlinux.c`
  (`FatLayout`, `FatImage`, `FatBoot`, `FatSteps`, `FatFormat`, `FatNames`, `FatCopy`, `FatFiles`,
  `FatRead`), and a reader that knows only the image and the Microsoft FAT Specification of August
  2005 (`FatSpec`);
- the GPT writer and reader of `gpt/gpt.c` and its CRC-32 (`Bytes`, `CrcTable`, `Crc`, `CrcCheck`, `Gpt`,
  `GptDisk`, `GptLayout`), with the layouts of sections 5.2.3, 5.3.2 and 5.3.3 of UEFI 2.10 in
  `GptSpec` and the CRC of section 8 of RFC 1952;
- the HTTP daemon's worker queue as interleaved steps, and the buffered reader, writer and client
  of `apt/libhttpd` (`WorkerQueue`, `HttpSocket`, `HttpHead`, `HttpClient`, `HttpResponse`);
- the dependency closure of `apt/apt.cpp` over the formulas of `apt/aptlist.h` (`Deps`).

`dafny verify dfyconfig.toml` checks everything. Code that updates buffers, headers or sets in
place is imperative here too; each such method is proved against a function or an invariant, and
the promises are proved about those. The main results are `SlabRuns.EveryRun`,
`Slab.Allocator.Run`, `FatRead.FormatThenCopy`, `FatCopy.CopyIn`, `FatRead.LoadCopied`,
`GptDisk.GenerateThenParse`, `GptLayout.GenerateWritten`, `Crc.BurstDetected`, `WorkerQueue.EveryRun`,
`HttpClient.Client.Response`, `HttpResponse.ResponseDelivered` and `Deps.DownloadDeps`.

Where code and intention differ the models follow the code, and a theorem says exactly when:

- `createFAT32` counts the entries of both tables as free (`gpt/fat.c:425`); the recorded count is
  larger than the number of free clusters on every volume (`FatSteps.FreeBound`).
- `createFAT32` accepts volumes on which every copy aborts, namely those whose data region has no
  room for three clusters (`FatRead.TooSmallToCopy`, with an example in `FatRead.SixteenSectors`). An
  empty file also aborts on a full volume, after its directory entry was written; when exactly is
  in `FatCopy.CopyIn`, such a volume is reached in `FatRead.FullVolume`, and earlier files stay
  readable (`FatRead.StrandedFiles`).
- `FAT32Copyin` keeps a file's size modulo 2^32, so it stores the whole file exactly if that is below
  4 GiB (`FatCopy.WholeContent`, `FatCopy.FourGibibytes`).
- `FAT32Copyin` stores the dot of a suffix with two characters behind it and pads names with zeros, where the
  specification has three characters, no dot and spaces; names get the same field exactly as
  `FatNames.SameField` says.
- `__k_readfile` computes offsets and sector numbers in 32 bits; it reads consecutive bytes exactly if
  neither wraps (`FatRead.Consecutive`, with an example in `FatRead.OffsetWraps`).
- `GPTGenerate` stores the block after the last partition as first usable block
  (`gpt/gpt.c:394`), so partitions lie at or above it exactly if there are none
  (`GptDisk.NoneAboveFirstUsable`).
- The protective record of a disk of exactly 2^32 - 1 blocks is one block too long (`gpt/gpt.c:195`,
  `GptLayout.RecordSize`).
- `GPTGenerate` clears an array-sized region from a moving pointer (`gpt/gpt.c:367`), so with `n >= 2`
  partitions it erases the first `128 * (n - 1)` bytes of the partition area. That area is kept whatever
  it held exactly if at most one partition is placed (`GptDisk.Generate`, `GptDisk.AreaKept`, with an
  example in `GptDisk.TwoPartitions`).
- A failed conjunction leaves behind what it picked for the conjuncts that hold
  (`Deps.FailedConjunction`, with an example in `Deps.LeftBehind`); a failed alternative leaves nothing.
- `SocketStream` ignores the result of socket writes: the peer gets everything exactly if every one of
  them was complete (`HttpSocket.Stream.Perform`, with an example in `HttpSocket.LostByte`). `forward` copies nothing through a buffer of size 0.
- The head reader keeps an old error, and a refill then fails although bytes arrived
  (`HttpHead.HeadReader.Getch`); with an error pending the next line depends on the buffer alone
  (`HttpHead.HeadReader.NextLine`, with an example in `HttpHead.SplitMatters`).
- The client does not look at that error, so a head that is cut off can pass for a complete response
  (`HttpClient.IncompleteHead`, `HttpResponse.TruncatedHead`, with an example in
  `HttpResponse.OnlyStatusLine`). A field byte of 0x80 or more also ends the head, and the rest of the
  head is then taken for the body (`HttpResponse.HighByteEndsHead`, with an example in
  `HttpResponse.HeadAsBody`).

## Model

| member | source | states |
|---|---|---|
| SlabModel.Total | tlibc/malloc.c:106-129 | the blocks of a page start behind the header and tile the rest of its 4096 bytes exactly |
| SlabModel.BlocksApart | tlibc/malloc.c:106-129 | two different blocks of one page do not overlap |
| SlabModel.FullList | tlibc/malloc.c:267-272 | a duplicate-free list of blocks holds every block of the page if and only if it is as long as `total` |
| SlabModel.MapPageInv | tlibc/malloc.c:106-145 | carving a fresh page as idle page keeps the allocator invariant |
| SlabModel.SeizeInv | tlibc/malloc.c:131-160 | moving the idle page's whole list to the arena keeps the invariant |
| SlabModel.PopInv | tlibc/malloc.c:131-160 | handing out the first block of the arena list keeps the invariant |
| SlabModel.ReturnInv | tlibc/malloc.c:251-273 | giving a block back, with caching or unmapping of a page that is whole again, keeps the invariant |
| SlabModel.ReturnFull | tlibc/malloc.c:161-172 | when the last block of a page returns, no other block of it is held and none is on any arena list, so unmapping it is safe |
| SlabModel.MapRegionInv | tlibc/malloc.c:209-243 | a separate mapping for one large pointer keeps the invariant |
| SlabModel.UnmapRegionInv | tlibc/malloc.c:261-264 | releasing a large pointer's mapping keeps the invariant |
| SlabModel.ArenaFor | tlibc/malloc.c:226-231 | the arena chosen is the smallest whose blocks hold the requested size |
| SlabModel.MallocLive | tlibc/malloc.c:209-232 | a successful `mymalloc` returns a pointer nobody held, with room for the request, and keeps all others; failure changes nothing; which block it is, is in `SlabClasses.SmallRequest` and `SlabClasses.LargeRequest` |
| SlabModel.AllocSmallLive | tlibc/malloc.c:131-160 | a small allocation adds exactly one pointer and keeps every other with its capacity |
| SlabRuns.After | tlibc/malloc.c:209-317 | the invariant holds after every legal sequence of malloc, free, realloc, cpp_alloc and cpp_free, with `mmap` failing or succeeding at will |
| SlabRuns.LiveInside | tlibc/malloc.c:209-249 | a held pointer's page is a mapped region; its bytes lie in it, behind the header, and are as many as requested |
| SlabRuns.LiveDisjoint | tlibc/malloc.c:106-129 | the bytes of two held pointers never overlap |
| SlabRuns.DeadPage | tlibc/malloc.c:131-172 | a mapped page without held blocks is its arena's idle page or the one page its list came from |
| SlabRuns.Retained | tlibc/malloc.c:161-172 | once everything is freed, each arena has at most two pages mapped and nothing else is mapped |
| SlabRuns.FreeLive | tlibc/malloc.c:251-273 | `myfree` takes away one pointer and keeps all others with their capacities |
| SlabRuns.ReallocLive | tlibc/malloc.c:286-317 | `myrealloc` returns a pointer with room for the request in place of the old one, or changes nothing |
| SlabRuns.EveryRun | tlibc/malloc.c:106-273 | for every legal run: pointers inside mapped memory, clear of headers and disjoint, every block in exactly one place, arena lists within one mapped page, whole pages idle, and with nothing held at most the idle page and the list page of each arena mapped |
| SlabRuns.HeldKept | tlibc/malloc.c:209-317 | every operation keeps every pointer but the one it is given, with its capacity |
| SlabClasses.PageNumbers | tlibc/malloc.c:106-129 | blocks of 16 to 1024 bytes; how many a page of 4096 bytes has, 254 to 3, and where the first one starts |
| SlabClasses.SmallRequest | tlibc/malloc.c:209-232 | a request of up to 1024 bytes gets a block of the least of the sizes 16, 32, 64, 128, 256, 512, 1024 that holds it: the first one listed, else one of the idle page, else one of a fresh page; it fails if and only if none of them is to be had; other classes are left alone |
| SlabClasses.SmallReturn | tlibc/malloc.c:251-273 | a block that comes back goes in front of its page's list; only the block that makes the page whole makes it the idle page, or unmaps it if there is one |
| SlabClasses.FreshOrder | tlibc/malloc.c:106-129 | a fresh page hands out its blocks from the highest address down |
| SlabClasses.LargeRequest | tlibc/malloc.c:209-224 | a larger request gets the fewest pages that hold it and the 32 bytes of the header, and starts behind the header; it fails if and only if `mmap` does |
| SlabClasses.CppRequest | tlibc/malloc.c:234-243 | `cpp_alloc` gives a large request the fewest pages that hold it and otherwise does what `mymalloc` does |
| SlabClasses.InPlace | tlibc/malloc.c:286-317 | `myrealloc` returns the same block if and only if it is large enough, and otherwise what `mymalloc` gives |
| SlabMemory.PushList | tlibc/malloc.c:62-70 | linking a block in front through the words of memory gives the list with that block in front |
| SlabMemory.CarveStep | tlibc/malloc.c:106-129 | each turn of the carving loop links one more block and counts it |
| SlabMemory.RepFrame | tlibc/malloc.c:52-103 | changes outside headers and link words leave all lists and headers as they were |
| SlabMemory.Harmless | tlibc/malloc.c:62-70 | changes confined to headers, free blocks and fresh pages touch no byte of a held pointer |
| SlabMemory.WriteRep | tlibc/malloc.c:286-317 | a caller writing its own bytes disturbs neither metadata nor other pointers |
| SlabMemory.PagesRemove | tlibc/malloc.c:261-264 | unmapping a region takes away exactly the pages mapped for it |
| SlabMemory.HeaderReadable | tlibc/malloc.c:245-259 | rounding a freeable pointer down to its page finds a mapped header with the magic number and the right kind |
| Slab.Allocator.constructor | tlibc/malloc.c:174-198 | the initial caches represent the empty state |
| Slab.Allocator.FreelistFree | tlibc/malloc.c:62-70 | the stores done are exactly the linking step |
| Slab.Allocator.PageHeaderInit | tlibc/malloc.c:106-129 | the page ends with a header whose list holds all its blocks, `avail == total`, and no other page changes |
| Slab.Allocator.ArenaAlloc | tlibc/malloc.c:131-160 | refines the abstract small allocation and touches no held bytes |
| Slab.Allocator.ArenaAddIdle | tlibc/malloc.c:161-172 | caches the page if the slot is empty, otherwise unmaps it |
| Slab.Allocator.ArenaIndex | tlibc/malloc.c:226-231 | the search loop stops at the smallest fitting arena and never leaves the array |
| Slab.Allocator.Malloc | tlibc/malloc.c:209-232 | refines the abstract `mymalloc`, whose size classes and page counts `SlabClasses` gives in numbers, and touches no held bytes |
| Slab.Allocator.CppAlloc | tlibc/malloc.c:234-243 | refines the abstract `cpp_alloc` and touches no held bytes |
| Slab.Allocator.Free | tlibc/malloc.c:251-273 | refines the abstract `myfree`; the magic check passes; no other pointer's bytes change |
| Slab.Allocator.CppFree | tlibc/malloc.c:275-284 | refines the abstract `cpp_free`, releasing exactly the pages mapped |
| Slab.Allocator.UsableSize | tlibc/malloc.c:286-308 | what the header says is the pointer's capacity |
| Slab.Allocator.Realloc | tlibc/malloc.c:286-317 | refines the abstract `myrealloc`; the new block starts with the whole old contents, on failure or in place the old ones are intact, and no third pointer's bytes change |
| Slab.Allocator.Run | tlibc/malloc.c:209-317 | after any run of operations and callers' writes the memory represents the abstract state, with `avail` equal to the length of each page list, and every pointer that no operation gave up is still held, each word behind it being what was last written there or as it was |
| Bytes.DecodeEncode | gpt/endian.h:48-90 | a value that fits comes back from its little-endian bytes |
| Bytes.EncodeDecode | gpt/endian.h:48-90 | bytes come back from the value they encode |
| Bytes.SwapBytes | gpt/endian.h:13-46 | the swap loop reverses the bytes |
| Bytes.HostIndependent | gpt/endian.h:48-90 | stores and loads give little-endian bytes and values on hosts of either byte order, also across hosts |
| Bytes.FieldKept | gpt/gpt.c:363-402 | after storing all members of a packed structure each still holds what was stored |
| CrcTable.OneBit | gpt/gpt.c:30-84 | the branch-free bit step is the conditional subtraction of the polynomial 0xEDB88320 |
| CrcTable.EightSteps | gpt/gpt.c:30-84 | the function the table is compared with is eight such conditional steps |
| CrcTable.TableEntry | gpt/gpt.c:30-84 | each of the 256 table entries is eight single-bit steps of its index |
| Crc.LookupIsFeed | gpt/gpt.c:95-99 | one table step equals eight single-bit steps on the register mixed with the byte |
| Crc.EfiCrc32 | gpt/gpt.c:86-101 | the table loop computes the bitwise CRC of every message from every seed |
| Crc.ComputeCrc32 | gpt/gpt.c:103-106 | the table loop computes the bitwise CRC with start value and complement as `CrcCheck.CheckValue` and `CrcCheck.Residue` fix them |
| CrcCheck.CheckValue | gpt/gpt.c:86-106 | the checksum of the nine characters "123456789" is 0xcbf43926 |
| CrcCheck.Residue | gpt/gpt.c:103-106 | every message followed by its checksum, lowest byte first, has the checksum 0x2144df1c |
| Crc.Concatenation | gpt/gpt.c:86-101 | the register after a concatenation is reached through the register after its first part |
| Crc.TailInjective | gpt/gpt.c:86-101 | from different registers equal bytes never lead to the same register |
| Crc.BitSerial | gpt/gpt.c:86-101 | the register is what shifting the message in one bit at a time, lowest bit first, gives |
| Crc.BitsInjective | gpt/gpt.c:86-101 | no two different strings of up to 32 bits lead from one register to the same register |
| Crc.BurstDetected | gpt/gpt.c:86-106 | messages of equal length that differ only inside 32 consecutive bits, at any bit offset, have different checksums |
| Crc.OneByteDetected | gpt/gpt.c:86-106 | messages of equal length that differ in exactly one byte have different checksums |
| Gpt.Allocate | gpt/gpt.c:342-358 | the loop places the longest prefix of requests that fits, one after the other |
| Gpt.PlacementDisjoint | gpt/gpt.c:342-358 | each placed partition is within the room given; any two are consecutive or apart |
| Gpt.EntryRoundTrip | gpt/gpt.c:366-378 | parsing a written entry gives type, id, start, volume and name back |
| Gpt.HeaderSelfCheck | gpt/gpt.c:382-407 | a header stored with the checksum of its zero-checksum form verifies |
| GptDisk.ClearsInside | gpt/gpt.c:360-380 | every overlapping clear ends inside the disk and before the backup header |
| GptDisk.WriteEntries | gpt/gpt.c:360-380 | all entries are in place at the end although each write clears beyond its own entry; behind them there are zeros up to the end of the last clear, and all from there on is as it was |
| GptDisk.WriteHeaders | gpt/gpt.c:382-407 | both headers hold their members and own checksum; the boot record and the entry array are kept |
| GptDisk.Generate | gpt/gpt.c:313-410 | returns 0 and writes nothing if the disk is too small or no partition is asked for; otherwise a complete table of the longest fitting prefix, with the first `128 * (ret - 1)` bytes of the partition area zero and all others up to the backup header kept |
| GptDisk.AreaKept | gpt/gpt.c:366-367 | the partition area is kept if and only if the bytes the clears reach were zero before, and they reach none if and only if at most one partition is placed |
| GptDisk.TwoPartitions | gpt/gpt.c:366-367 | two partitions of one block each: the first byte of the first is erased |
| GptDisk.PartitionsInside | gpt/gpt.c:324-358 | each partition lies between the entry array and block `nBlock - 3`; they are consecutive and disjoint |
| GptDisk.NoneAboveFirstUsable | gpt/gpt.c:394-395 | every partition ends at or below the stored first usable block, so all lie at or above it if and only if there is none |
| GptDisk.Parse | gpt/gpt.c:412-466 | the parser loop computes the partitions announced by the header, or rejects bad signatures |
| GptDisk.TableRoundTrip | gpt/gpt.c:412-466 | every complete table parses to its partitions, both headers verify, and both carry the checksum of the entry array |
| GptDisk.GenerateThenParse | gpt/gpt.c:313-466 | generating and parsing gives the longest fitting prefix of the requests with starts filled in; headers and entry array match their stored checksums |
| GptLayout.GenerateWritten | gpt/gpt.c:313-410 | the image after generating, at numeric offsets: boot record, entries one behind the other from the block behind the array on, each with type, id, blocks, attributes and name, and both headers with all members, the last usable block and the disk id among them, and right checksums |
| GptLayout.BootRecord | gpt/gpt.c:174-196 | the protective record at numeric offsets, zeros around it |
| GptLayout.RecordSize | gpt/gpt.c:195-195 | the record covers the disk behind block 0 as far as 32 bits go, unless the disk has 2^32 - 1 blocks |
| GptLayout.Spelled | gpt/gpt.c:382-407 | every member of a written header at its numeric offset |
| GptLayout.EntrySpelled | gpt/gpt.c:366-378 | every member of a written entry at its numeric offset, the name in two-byte characters with zeros behind it |
| GptLayout.Sectors | gpt/gpt.c:327-328 | the entry array takes the fewest blocks that hold four entries each |
| FatLayout.IsDoubling | gpt/fat.c:389-412 | the validation loop accepts exactly the powers of two from 512 to 4096 as sector size and from 1 to 128 as cluster size |
| FatLayout.TableCovers | gpt/fat.c:418-425 | one table has an entry for every cluster; tables, reserved sectors and root cluster fit in the volume |
| FatLayout.Regions | gpt/fat.c:384-426 | reserved sectors, both tables and data follow each other without overlap and end inside the volume |
| FatLayout.ClusterInside | gpt/fat.c:671-755 | each cluster number below the maximum indexes inside its own table copy and maps to data inside the volume |
| FatLayout.EntryAddress | gpt/fat.c:300-324 | sector and offset of an entry address its word in the first table, and no entry straddles sectors |
| FatImage.FileBounds | gpt/fat.c:819-833 | a file's clusters lie between 3 and the next free one and its bytes inside them |
| FatImage.FilesApart | gpt/fat.c:866-879 | chains of different files are disjoint |
| FatFormat.CreateFat32 | gpt/fat.c:381-495 | a configuration is rejected if and only if a check fails, aborts if and only if it has at most two clusters, and otherwise yields a volume with the invariant and no files; the image then has, at numeric offsets, every member of the boot sector, the information sector and the backups where the boot sector says, tables just long enough with their first entries, an empty root directory, and nothing else is changed |
| FatBoot.Boots | gpt/fat.c:427-458 | every byte of the boot sector in numbers and characters |
| FatFormat.TableLeast | gpt/fat.c:419-422 | a table has the fewest sectors that hold an entry for each cluster |
| FatCopy.RootChain | gpt/fat.c:688-696 | the walk over the root chain ends and counts its clusters |
| FatCopy.FirstFreeSlot | gpt/fat.c:698-707 | finds the first directory entry whose name starts with zero |
| FatCopy.UsedSlots | gpt/fat.c:698-707 | that entry is the one after all files |
| FatCopy.SuperInit | gpt/fat.c:650-708 | parameters read back from any valid image are those of its volume |
| FatCopy.WriteEntry | gpt/fat.c:747-756 | stores the value in every table copy |
| FatSteps.PutEntryEffect | gpt/fat.c:747-756 | that sets one entry, keeps all others and the equality of both tables |
| FatCopy.LinkClusters | gpt/fat.c:873-879 | the loop links a contiguous chain ending in the end mark and changes no other entry |
| FatSteps.SyncInv | gpt/fat.c:758-765 | copying sectors 0 and 1 to 6 and 7 restores the backups |
| FatSteps.CopiedCore | gpt/fat.c:819-885 | a copy keeps every earlier file, its chain and its entry, and adds the new one |
| FatSteps.FreeBound | gpt/fat.c:881-883 | the recorded free count covers the free clusters, so `freeCount >= allocCluster` cannot fail, and it is larger than their number on every volume |
| FatCopy.CopyIn | gpt/fat.c:772-895 | succeeds, turns the file away or aborts exactly as the stated conditions say; success adds the file, with zeros to the end of its last cluster; a file turned away changes no table, directory entry or primary information field, and an abort leaves at most a directory entry without clusters |
| FatFiles.Decision | gpt/fat.c:792-833 | whether a copy succeeds or aborts, from the bytes of the image: free entry in the root directory, next free cluster, clusters of the volume |
| FatFiles.Counted | gpt/fat.c:881-885 | a copy takes the clusters of the contents from the free count, none for an empty file, and moves the next free cluster behind the chain |
| FatCopy.FillClusters | gpt/fat.c:823-833 | the clusters hold the file and then zeros up to the end of the last one; nothing else changes |
| FatNames.CopyName | gpt/fat.c:846-858 | the two loops leave the name field of `ShortName` and stay inside the entry |
| FatNames.StemAndSuffix | gpt/fat.c:846-858 | a name of up to eight characters is padded with zeros; of a suffix the dot and two characters are kept |
| FatNames.SameField | gpt/fat.c:846-858 | two names get the same field if and only if they agree in front of the dot and in the first three bytes from the dot on |
| FatCopy.WholeContent | gpt/fat.c:785-785 | the whole content is stored if and only if it is below 4 GiB |
| FatCopy.FourGibibytes | gpt/fat.c:785-785 | a file of exactly 4 GiB is stored as an empty one |
| FatRead.ReadBack | gpt/fat.c:819-879 | following the chain from a file's directory entry and cutting to its size gives exactly its bytes |
| FatFiles.IsFound | gpt/fat.c:819-879 | a reader of the FAT specification, which takes every parameter from the boot sector and only the low 28 bits of a table entry, finds each file: name, attributes, the fixed date, the clusters needed and then an end mark, the bytes, zeros to the end of the last cluster; files follow each other from cluster 3 on |
| FatFiles.Held | gpt/fat.c:819-879 | the chain of a file, its bytes and the zeros behind them, found that way |
| FatFiles.IsListed | gpt/fat.c:840-870 | every other member of a directory entry at its numeric offset |
| FatRead.KReadFile | bootloader/vmlinux.c:69-92 | the sector-chunked loop copies each byte from its place on the disk, with offsets and sector numbers in 32 bits |
| FatRead.Consecutive | bootloader/vmlinux.c:69-92 | those places are consecutive from the file offset on if and only if neither the offset nor the sector number wraps |
| FatRead.OffsetWraps | bootloader/vmlinux.c:69-92 | the byte behind the last 32-bit offset is read from the start of the file |
| FatRead.LoadCopied | bootloader/vmlinux.c:69-92 | from the partition start plus the start sector of a file the loader reads any part of it, on every image whose files are intact |
| FatRead.CopyThenLoad | bootloader/vmlinux.c:69-92 | the sector a copy returned still leads the loader to its file after any later copies, up to and beyond an abort |
| FatRead.Session | gpt/fat.c:772-895 | any sequence of copies runs to its end with the invariant kept, or to the first request that meets the abort condition, with all files before it readable; the sectors returned are the start sectors of the files stored |
| FatRead.StrandedFiles | gpt/fat.c:834-879 | an abort damages no earlier file |
| FatRead.TooSmallToCopy | gpt/fat.c:798-799 | on a freshly formatted volume every copy aborts if and only if the data region has no room for three clusters |
| FatRead.SixteenSectors | gpt/fat.c:384-426 | sixteen sectors of 512 bytes in clusters of four are accepted, and every copy aborts |
| FatRead.FullVolume | gpt/fat.c:798-879 | on sixteen sectors in clusters of one a file of three clusters fills the volume, and the copy of an empty file then aborts |
| FatRead.FormatThenCopy | gpt/fat.c:381-895 | after formatting and any sequence of copies every stored file is found by a reader of the FAT specification, in the sector its copy returned, up to and beyond an abort |
| WorkerQueue.InitInv | apt/libhttpd/httpd.cpp:63-83 | the invariant holds when the threads are created |
| WorkerQueue.StepMutex | apt/libhttpd/httpd.cpp:85-122 | every step keeps that the mutex is held by the one thread inside |
| WorkerQueue.StepFifo | apt/libhttpd/httpd.cpp:253-264 | every step keeps that items taken followed by items queued are the items pushed |
| WorkerQueue.StepStops | apt/libhttpd/httpd.cpp:253-264 | every step keeps that as many workers are gone as stops were taken |
| WorkerQueue.StepAwake | apt/libhttpd/httpd.cpp:253-258 | every step keeps that no wakeup is lost |
| WorkerQueue.StepAccounts | apt/libhttpd/httpd.cpp:253-290 | every step keeps that what a worker took is what it served and what it has in hand |
| WorkerQueue.Exclusion | apt/libhttpd/httpd.cpp:85-122 | two threads are never inside the critical section together |
| WorkerQueue.Decreases | apt/libhttpd/httpd.cpp:85-122 | every step but a spurious wakeup decreases the measure, and that one adds two |
| WorkerQueue.Progress | apt/libhttpd/httpd.cpp:103-122 | until all workers are joined some step other than a spurious wakeup is possible |
| WorkerQueue.AtTheEnd | apt/libhttpd/httpd.cpp:103-122 | at the end all have exited, the queue is empty and each worker served what it took before its one stop |
| WorkerQueue.EveryRun | apt/libhttpd/httpd.cpp:85-264 | for every interleaving: bounded length, requests taken once each and before any stop, no lost wakeup, and a stuck run is a finished one |
| HttpSocket.Source.Read | apt/libhttpd/httpd.h:131-135 | a read delivers a non-empty prefix of what is to come, however the peer's bytes are split |
| HttpSocket.Sink.Write | apt/libhttpd/httpd.h:71-81 | the retry loop sends exactly as many bytes as the limits of the underlying writes allow before one fails |
| HttpSocket.SentAll | apt/libhttpd/httpd.h:71-81 | that is everything if and only if each failing write comes after writes that took all of it |
| HttpSocket.Stream.Write | apt/libhttpd/httpd.h:487-497 | sent and buffered bytes together grow by exactly the bytes written if all its socket writes are complete, and fall short if one is not; bytes that fit in the buffer cause no socket write, others are buffered alone or, if longer than the buffer, not at all |
| HttpSocket.Stream.Flush | apt/libhttpd/httpd.h:473-478 | moves the buffered bytes to the wire; sent and buffered bytes are kept if its socket write is complete and fall short otherwise |
| HttpSocket.Stream.Forward | apt/libhttpd/httpd.h:499-506 | copies the whole file behind what was written if all its socket writes are complete, and nothing through a buffer of size 0 |
| HttpSocket.Stream.Perform | apt/libhttpd/httpd.h:456-507 | after any sequence of operations and the final flush the wire holds everything written, in order, if and only if every socket write on the way was complete, and so on every socket whose writes never fail |
| HttpSocket.LostByte | apt/libhttpd/httpd.h:473-497 | one byte written to a socket whose write fails is lost |
| HttpHead.HeadReader.Getch | apt/libhttpd/httpd.h:184-196 | fails if and only if nothing remains, the next byte is 0x80 or more, or a refill meets an old error; otherwise gives the next byte |
| HttpHead.HeadReader.NextLine | apt/libhttpd/httpd.h:232-253 | without a pending error the line, the rest and the new error depend only on the bytes to come; with one they depend on the buffered bytes alone |
| HttpHead.SplitMatters | apt/libhttpd/httpd.h:184-253 | with an error pending the same bytes give a line if buffered and none if still to be read |
| HttpHead.AppendNextToken | apt/libhttpd/httpd.h:270-280 | appends the next run of non-space characters and stops behind it |
| HttpHead.ParseField | apt/libhttpd/httpd.h:328-341 | updates the table at the line's key, if it is there, with the value behind the blanks; keys, blanks and values in `HttpResponse.FieldParsed` and `HttpResponse.LongKey` |
| HttpHead.HeadParser.Parse | apt/libhttpd/httpd.h:302-343 | first line, table and position of the body are functions of the byte stream |
| HttpClient.Client.Body | apt/libhttpd/httpd.cpp:531-554 | an accepting handler gets exactly the announced bytes that arrive and success means all of them; any handler sees a prefix |
| HttpClient.Client.Response | apt/libhttpd/httpd.cpp:509-554 | for every split and buffer size the outcome is one function of the bytes that arrive; what it is for responses as RFC 9112 has them is in `HttpResponse.ResponseDelivered` |
| HttpClient.IncompleteHead | apt/libhttpd/httpd.cpp:509-531 | what follows an incomplete head is nothing or what comes behind a byte of 0x80 or more; success is reported if and only if the status is 200 and that is as long as the fields read so far announce, which without such bytes means no length was announced |
| HttpResponse.NumberDecimal | apt/libhttpd/httpd.cpp:519-530 | a decimal number is read back |
| HttpResponse.NumberForms | apt/libhttpd/httpd.cpp:519-530 | white space and a sign in front of a number and anything but a digit behind it do not matter |
| HttpResponse.AnyLine | apt/libhttpd/httpd.h:232-253 | a line ends at the first line feed and is read without its carriage returns |
| HttpResponse.TwoWords | apt/libhttpd/httpd.h:270-280 | the first two words of the status line, whatever white space is around them |
| HttpResponse.FieldParsed | apt/libhttpd/httpd.h:328-341 | a field with any number of blanks behind its colon, none included, gives its key and its value |
| HttpResponse.LongKey | apt/libhttpd/httpd.h:328-341 | a key is cut off after 63 characters and one more is skipped |
| HttpResponse.ZeroEndsKey | apt/libhttpd/httpd.h:328-336 | a zero byte ends a key |
| HttpResponse.FieldNames | apt/libhttpd/httpd.cpp:478-480 | the names looked for are "Content-Length" and "Connection" |
| HttpResponse.FieldsParsed | apt/libhttpd/httpd.h:322-342 | fields, with any number of blanks behind each colon, are read back in order and the body starts behind the empty line |
| HttpResponse.CutStatusLine | apt/libhttpd/httpd.cpp:513-518 | a response cut off in the status line fails |
| HttpResponse.TruncatedHead | apt/libhttpd/httpd.cpp:509-554 | a response cut off behind the status line delivers nothing and succeeds if and only if the status is 200 and the fields that arrived announce no body |
| HttpResponse.OnlyStatusLine | apt/libhttpd/httpd.cpp:509-554 | a status line of 200 alone is reported as success |
| HttpResponse.HighByteEndsHead | apt/libhttpd/httpd.h:235-240 | a byte of 0x80 or more in a field ends the head, and what follows it is delivered as the body up to the length announced before it |
| HttpResponse.HeadAsBody | apt/libhttpd/httpd.cpp:509-554 | the line ends that close such a head are delivered as a body of four bytes |
| HttpResponse.ResponseDelivered | apt/libhttpd/httpd.cpp:509-554 | a well-formed response with status 200 delivers exactly Content-Length bytes if they arrive, however many blanks follow the colons, all that arrive otherwise, and then fails; other statuses fail |
| Deps.SatisfyCorrect | apt/aptlist.h:43-91 | succeeds if and only if the formula is true of the available packages; what is added is independent of the prior set, exists, occurs in the tree and makes the formula true; which packages it is, is in `Deps.PickIsSelected` |
| Deps.PickIsSelected | apt/aptlist.h:43-91 | what is added is, of each conjunction, all that its sides select, and of each chain of alternatives, what the first one that holds selects, read from the left |
| Deps.LeftFirst | apt/aptlist.h:66-80 | of two alternatives the right one counts only if the left one does not hold |
| Deps.LeftChosen | apt/aptlist.h:66-80 | of the alternatives a and b, both available, a is picked |
| Deps.FailedAlternative | apt/aptlist.h:66-80 | a failed alternative leaves the set unchanged |
| Deps.PickConjuncts | apt/aptlist.h:83-87 | what is added is the union of the picks of the conjuncts that hold, and a conjunct that does not hold adds nothing |
| Deps.FailedFormula | apt/aptlist.h:83-87 | a failed formula leaves the set unchanged if and only if it had the picks of every conjunct that holds |
| Deps.FailedConjunction | apt/aptlist.h:83-87 | a failed formula leaves the empty set empty if and only if none of its conjuncts holds |
| Deps.LeftBehind | apt/aptlist.h:83-87 | "a, b" with only "a" available fails and leaves "a" |
| Deps.Find | apt/apt.cpp:234-250 | the first list that has the package decides; not found if and only if no list has it |
| Deps.Resolver.DoSatisfy | apt/apt.cpp:568-585 | adds the package and exactly what its two formulas pick |
| Deps.Resolver.Pass | apt/apt.cpp:596-598 | a traversal of the growing set ends, serves every earlier member and adds only what any closed set must have |
| Deps.Resolver.Resolve | apt/apt.cpp:587-603 | the outer loop ends with the least closed set that has the named packages |
| Deps.DownloadDeps | apt/apt.cpp:558-603 | the result is the one least closure under what `Deps.Selected` selects for the dependencies, whatever the traversal order |
| Deps.ClosureModels | apt/apt.cpp:558-603 | that set satisfies every dependency that can be satisfied, and only named packages in it can be missing |

## Left out

- The memory of the allocator is modelled in words of 8 bytes at 8-aligned addresses; all headers, links and copied sizes are multiples of 8. Bytes within a word are not told apart.
- `mmap` is a parameter that answers 0 or fresh page-aligned zeroed pages; `munmap` is assumed to succeed. Sizes for which `size + 32 + 4095` wraps around 64 bits are outside the contract of the entry points.
- Aborting on a wrong magic number, double frees, freeing through the wrong entry point, `malloc_fini`, `calloc`, `reallocarray` and statistics.
- FatCopy.CopyIn: names are not empty, do not begin with a dot (the entry would count as unused) and have at most 32 bytes in front of the dot and 24 from it on (longer ones overrun the entry).
- FatFormat.CreateFat32: volumes of 4 GiB and more, whose byte offsets do not fit in 32 bits.
- FatRead.LoadCopied: needs sectors of 512 bytes, the only size the loader knows.
- Date and time encoding of directory entries (constants here), `FAT32Mkdir`, `numSectorDataRegion`.
- GPT partitions of volume 0 and names with zero bytes or more than 36 characters; running out of memory in `GPTParse`; the host byte order of the few native stores in the boot record (little-endian here).
- GptDisk.Parse: requires the announced entry array to lie inside the image, since the source reads it unchecked.
- A failed `accept`, whose negative descriptor would stop a worker, thread creation and the lookup of thread ids; `start`, which never ends; what a worker does with a request.
- HttpHead.HeadParser.Parse: requires that each field line has a colon in its first 63 bytes or at least 64 bytes; the source reads past the end of other lines.
- HttpClient.Client.Response: overflow of `atoi` and `atol` is not modelled (numbers are unbounded and the length is then taken modulo 2^64), nor connecting, sending the request and keeping the connection open.
- The server's `doConsume`, TLS, DNS, `urlparse`, and all command-line drivers.
- Deps.Find: each list maps a package to its first record, the only one that `downloadDeps` looks at.
- `ParseDep`: expression trees are arbitrary inputs.
- Downloading, checksums, list file parsing, kernel modules, boot code other than `__k_readfile`.
