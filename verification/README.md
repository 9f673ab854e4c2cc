# A verified model of the boot stage

This project models stage 1 of the x86_64 bootloader and proves properties of the model with Dafny 4.11.
`dafny verify dfyconfig.toml` checks everything. Code that changes state is modelled by methods on classes
and arrays (the linked list of memory regions with its nodes rewritten in place, physical memory as one byte
array, the buffers of the options parser); each such method is proved against a function, and the theorems are
about those functions.

## What is proved

* **From a path to an executable in memory** (`Boot.dfy`). If the boot sequence succeeds, every `PT_LOAD`
  segment of the file the path names lies byte-exact in memory, followed by its zeros; the memory map says
  executable exactly on the segments and what it said before everywhere else; and every loaded address is above
  real-mode memory and was reported usable by the firmware, or lies in a gap between two usable regions; if no two
  consecutive usable regions leave a gap, it was reported. On a working disk with enough scratch memory the boot
  succeeds exactly when the path leads to a file with a valid header, there are a memory layout and an RSDP, every
  segment is non-empty, above real-mode memory, wholly usable in the finished map and inside the file, and no address
  belongs to two segments. All of it is stated in terms of the records as the standards lay them out on the disk and in
  the file: boot sector, table, directory entries, ELF header and program headers are encoded field by field, and the
  parsing of the code is proved to invert the encodings.
* **The memory map** (`Regions.dfy`, `Insertion.dfy`, `RegionList.dfy`, `MemoryMap.dfy`, `Volatility.dfy`).
  `fix_right` is a step machine whose result is, address by address, the stricter of the two types, and the volatile
  bits go with the types that win. It terminates exactly when no more restrictive node reaches the limit it computed on
  entry. An insertion past the head, with both of its fixes, ends with a sorted list exactly when a check the caller
  can make holds; the first fix may take the node the second one starts from out of the list, and the model follows it
  there. `get_mem_regions` refines a function from addresses to types; all memory that ends up usable was reported
  exactly when no two consecutive usable regions leave a gap.
* **The ELF loader** (`ElfMap.dfy`, `Elf.dfy`). The overlap guard accepts exactly the segments that are wholly
  usable, and the loop reports the verdict on the first header that is not fine, each judged by the initial map. The
  accepted segments are recorded in a sorted map exactly when their bounds differ from the bounds of the regions;
  segments are disjoint, so a later one never overwrites an earlier one.
* **The FAT reader** (`Geometry.dfy`, `FatTable.dfy`, `FatFile.dfy`, `Directory.dfy`, `FileOpen.dfy`,
  `Mounting.dfy`, `ShortNames.dfy`, `Paths.dfy`). `fat_next` inverts the encoding of the table, and the chains are what
  its entries link; `fat_read` delivers a slice of the concatenated clusters, whatever memory held before, exactly when
  the first chunk of the range fits the sectors counted for it; `fat_open` is a walk over flat lists of entries, and
  the walk through directories only exactly when it enters nothing else or finds nothing.
* **Options and numbers** (`Options.dfy`, `Strings.dfy`). A configuration of paths and offsets sets the last path and
  the last offset it names and nothing else. `parse` inverts printing for lines of any length with any number of equals
  signs, and the lengths at which a line makes it leave its buffers are exact; `atoi` inverts `itoa` up to base 16, and
  in base 17 exactly when no digit is 16.
* **Allocators and stack** (`Allocators.dfy`, `Machine.dfy`, `StackPointer.dfy`). Live blocks are disjoint
  over every run; the stack pointer is the highest candidate exactly when the reserve cannot end with the region.

## What the caller must provide

The preconditions of the theorems are the ones the code has.

* Sums of addresses and sizes do not wrap (`Region.Fits`, `ElfMap.InMap`).
* A region is inserted into a list without overlap, where the last fix ends (`Insertion.CanInsert`).
* A range read from a file need not fit the sectors counted for it, a count that ignores the offset inside the first
  sector (`FatFile.ChunkFits`): the reader is modelled for every range, and what it takes from the memory behind its
  buffer is part of its contract. Such a range must not be delivered onto that memory (`FatFile.ClearBehind`). The
  loader's theorems are about files whose headers and segments fit.
* The bounds of the segments differ from the bounds of the map's regions and from one another (`ElfMap.Loadable`): on a
  shared end, recording the segment never ends (`ElfMap.SegmentAtEndNeverEnds`). Program headers are 32 bytes apart.
* The loop over bad markers ends (`FatFile.LoopEnds`); `FatFile.NotBadTerminates` shows this is exactly when the
  marker's own entry is not the marker or a read fails.
* The results are exact on a working disk with scratch memory for the largest buffers (`FatFile.RoomToRead`,
  `FileOpen.RoomToOpen`); without room the code panics, a result of its own here.
* Sectors have at least 2 bytes for the reader of FAT12 and FAT16 tables, 3 for FAT32, 32 for the root directory, 48
  for mounting and 53 for the ELF header.
* A read that goes straight to low memory pops a buffer it never pushed when it fails (stage1/fat.c:455-458, 468-472):
  the stack top rises above its value on entry, and memory someone else pushed is released. `FatFile.FatRead` states
  where in the range the read fails (`FatFile.FirstUnreadable`, `FatFile.EndReached`) and that the top is restored
  exactly when the chunk there was buffered (`FatFile.Balanced`). `FatFile.Buffered`, which holds for every read of
  the loader, makes it restored always; `FatFile.PopsSafe` excludes only the panic.

## Where the code and its documentation differ

The model follows the code.

* readme.md:36-37 says long file names are truncated to 8.3; the code rejects them (`ShortNames.ConvertTo83`).
* readme.md:33-37 lists one option; the code also parses `load_offset`.
* readme.md:41 puts the lowest load address at 1 MiB; the code refuses everything below 0x10FFEF.
* stage1/elf.h:69-90 numbers x86-64 as machine 18; the System V ABI gives it 62.
* The loop over the firmware's entries stops at continuation index 0 (stage1/sysinfo_impl.c:32), although firmware may
  return that index together with its last entry (section 15.1 of the ACPI specification); that entry is dropped.
* Padding gives a gap between two regions of one type that type (stage1/sysinfo_impl.c:73-75), so memory the firmware
  did not report can become usable (`Boot.GapBecomesUsable`); `Boot.UsableExactly` says when.
* fat_open (stage1/fat.c:379-413) never checks that what it enters is a directory: the bytes of a regular file are
  searched as entries (`FileOpen.FileEnteredAsDirectory`).
* A second equals sign in a line is not a syntax error (stage1/options_parser.c:60-64): it cuts the key to the length
  of the value before it, or writes behind the key buffer (`Options.SecondEqualsOverruns`).
* itoa accepts base 17 (stage1/string.c:10-12), whose digit 16 is the alphabet's terminator: a number with it is
  printed as a shorter one (`Strings.RoundTripExactly`).

## Model

| member | source | states |
|---|---|---|
| `Boot.BootFrom` | stage1/main.c:101-139 | on success the segments of the file at the path are in memory byte-exact, the map is executable exactly there, and all of it was reported usable (or lies between usable regions); on a working disk with room the result is the specified one, errors of the layout and the RSDP included |
| `Boot.BootsExactly` | stage1/main.c:101-139 | a boot that gets as far as the file succeeds if and only if the header is valid, there are a layout and an RSDP, every header exists, every segment is non-empty, above the limit, wholly usable in the finished map and inside the file, and no address belongs to two segments |
| `Boot.BootsRecordsExactly` | stage1/main.c:101-139 | a file that starts with a given ELF header record and has given program header records boots if and only if the header is that of an executable, there are a layout and an RSDP, and the records' segments are non-empty, at or above 0x10FFEF, inside the file, wholly usable and disjoint; then every one of them is in memory |
| `Boot.ImageInUsableMemory` | stage1/elf.c:76-103 | after a successful load over the firmware's map, exactly the loaded addresses changed type, and each was reported usable above real-mode memory |
| `Boot.LoadedWasReported` | stage1/elf.c:76-103 | if no two consecutive usable regions leave a gap above real-mode memory, every loaded address was reported usable |
| `Boot.UsableExactly` | stage1/sysinfo_impl.c:154-179 | everything usable in the finished map was reported usable if and only if no two consecutive usable regions leave a gap above real-mode memory; what was reported usable there is usable |
| `Boot.GapBecomesUsable` | stage1/sysinfo_impl.c:70-91 | two usable regions a MiB apart: an address between them is usable, and nobody reported it |
| `Regions.StepWellFormed` | stage1/sysinfo_impl.c:98-120 | each pass of the loop keeps the list sorted and deals with exactly one of the nodes below the limit |
| `Regions.IterationCount` | stage1/sysinfo_impl.c:98-120 | the loop runs once for every node that starts below the limit |
| `Regions.FixRightTerminates` | stage1/sysinfo_impl.c:93-123 | the loop ends if and only if no more restrictive node starts below the limit and reaches it |
| `Regions.SharedEndNeverEnds` | stage1/sysinfo_impl.c:107-119 | a usable region and a reserved one with the same end: the loop never ends |
| `Regions.FixRightIsPointwiseMaximum` | stage1/sysinfo_impl.c:93-123 | each address gets the more restrictive of the types covering it; only the gap at the old right limit is newly covered |
| `Regions.SharedGetsLaterType` | include/sysinfo.h:6-14 | of two overlapping regions of any of the six types, in either order, a shared address gets the type that stands later in the enumeration |
| `Regions.FixRightSorted` | stage1/sysinfo_impl.c:93-123 | the resulting list is sorted and non-overlapping |
| `Regions.FixRightTidy` | stage1/sysinfo_impl.c:93-123 | the resulting list has no gap, no empty node and no unmerged neighbours |
| `Regions.PaddedMeaning` | stage1/sysinfo_impl.c:70-91 | padding between neighbours adds only the gap, with the shared type or RESERVED |
| `Volatility.FixRightFlags` | stage1/sysinfo_impl.c:93-123 | every address has the volatile bit of the region whose type wins there, on a tie the earlier one's; merged neighbours have the left one's, and padding is not volatile |
| `Volatility.AppendFlags` | stage1/sysinfo_impl.c:125-152 | appending in address order brings the new region's bit, gives the gap before it the bit of what fills it, and changes no other |
| `Volatility.SplitFlags` | stage1/sysinfo_impl.c:107-119 | a region inserted inside another brings its own bit, and the split one keeps its own on both sides |
| `Volatility.LowFlags` | stage1/sysinfo_impl.c:168-176 | reserved low memory is not volatile, whatever the firmware said of it |
| `Volatility.LoadFlags` | stage1/elf.c:76-103 | after a successful load the loaded addresses are not volatile and no other bit has changed |
| `RegionList.AddPaddingRight` | stage1/sysinfo_impl.c:70-91 | the in-place edit of the nodes is the padding of their values, on every branch |
| `RegionList.FixOnce` | stage1/sysinfo_impl.c:98-120 | one pass over the linked nodes is one step of the machine: drop, trim, cut or split, the order of links kept |
| `RegionList.FixRight` | stage1/sysinfo_impl.c:93-123 | the linked list afterwards holds the regions the step machine ends with, and the list from the node behind the start holds what the specification gives a caller whose list no longer has the start |
| `Insertion.InsertionEndsSorted` | stage1/sysinfo_impl.c:125-152 | an insertion past the head of a tidy map, both repairs included, ends with a sorted list if and only if the new region stays below its right neighbour, does not, being stricter, reach the end of the region it lands in, and does not lie inside the second of two regions of one type |
| `Insertion.OverrunStaysUnsorted` | stage1/sysinfo_impl.c:146-151 | a new region that reaches into its right neighbour leaves the list overlapping |
| `Insertion.TwinsKeepBoth` | stage1/sysinfo_impl.c:146-151 | a region put into the second of two touching RESERVED ones: the list ends up with the merged region and the new one overlapping |
| `Insertion.AppendKeepsTidy` | stage1/sysinfo_impl.c:125-152 | appending in address order keeps the map tidy and adds the region and the filler of the gap before it, nothing else |
| `Insertion.AppendTidyExactly` | stage1/sysinfo_impl.c:125-152 | appending in address order keeps a tidy map tidy if and only if it leaves no gap behind two touching RESERVED regions |
| `Insertion.InsideSplits` | stage1/sysinfo_impl.c:125-152 | inserting a stricter region strictly inside another splits that one in place and keeps the map tidy |
| `Insertion.SplitAroundMeaning` | stage1/sysinfo_impl.c:125-152 | such a split changes the type of the inserted addresses only |
| `RegionList.RegionMap.Prepend` | stage1/sysinfo_impl.c:137-145 | insertion at the head yields the specified list |
| `RegionList.RegionMap.InsertAfter` | stage1/sysinfo_impl.c:146-151 | insertion past the head, with both repairs, yields the specified list, also when the first repair takes the second one's node out of the list |
| `RegionList.RegionMap.FixBoth` | stage1/sysinfo_impl.c:149-150 | the two repairs on the linked nodes leave the list the specification gives from its head |
| `RegionList.RegionMap.InsertSorted` | stage1/sysinfo_impl.c:125-152 | the linked list afterwards holds the specified insertion; a null or empty region changes nothing |
| `RegionList.RegionMap.InsertNew` | stage1/elf.c:53-63 | a freshly allocated node is inserted as specified |
| `MemoryMap.Convert` | stage1/sysinfo_impl.c:35-64 | base and size are kept, each standard type maps to its own and everything else to RESERVED, and volatile is bit 1 of the attributes |
| `MemoryMap.KeptIsPrefix` | stage1/sysinfo_impl.c:20-33 | the entries kept are those before the first failed call or the first continuation index 0 |
| `MemoryMap.LastEntryIsDropped` | stage1/sysinfo_impl.c:20-33 | an entry that arrives with index 0 is lost |
| `MemoryMap.AppendedTypes` | stage1/sysinfo_impl.c:154-164 | before low memory is reserved, each address has its region's type, or the filler of its gap, and no other address is covered |
| `MemoryMap.LowFirst` | stage1/sysinfo_impl.c:168-176 | reserving low memory keeps the map tidy, starts it at 0 and changes only low addresses and the gap behind them |
| `MemoryMap.MapRefinesFirmware` | stage1/sysinfo_impl.c:154-179 | the final map is tidy from address 0, RESERVED below the real-mode limit, equal to the reported types above it, with every gap RESERVED or of the type its neighbours share |
| `MemoryMap.GetMemRegions` | stage1/sysinfo_impl.c:154-179 | the list built from the entries the loop keeps is that map; keeping none is the only error |
| `ElfMap.GuardExactly` | stage1/elf.c:31-51 | the guard accepts a segment if and only if it is non-empty, at or above the limit, and every one of its addresses is usable in the map |
| `ElfMap.GuardForcesInside` | stage1/elf.c:31-51 | with bounds off the region bounds it lies strictly inside one usable region |
| `ElfMap.AcceptedEndsSorted` | stage1/elf.c:86-91 | recording an accepted segment, both repairs included, ends with a sorted map if and only if its bounds differ from all region bounds |
| `ElfMap.SegmentAtEndNeverEnds` | stage1/elf.c:86-91 | a segment that ends with its usable region passes the guard, and recording it never ends |
| `ElfMap.SegmentInserted` | stage1/elf.c:53-63 | recording an accepted segment turns exactly its addresses, all usable before, into executable ones |
| `ElfMap.LoadIsFirstVerdict` | stage1/elf.c:76-103 | the loop's result is the verdict, by the initial map, on the first header that is missing, whose segment is empty, too low, not wholly usable or shared with an earlier one, or whose bytes are missing |
| `ElfMap.LoadSucceedsExactly` | stage1/elf.c:76-103 | the load succeeds if and only if every header exists, every load segment is non-empty, at or above the limit, wholly usable in the initial map and inside the file, and no address belongs to two segments |
| `ElfMap.LoadKeepsMapExact` | stage1/elf.c:76-103 | after a successful load the map is still tidy and ends where it did; exactly the union of the segments became executable, all usable before and above the limit |
| `ElfMap.SegmentsDisjoint` | stage1/elf.c:76-103 | no address belongs to two loaded segments |
| `ElfMap.OneSegmentLoads` | stage1/elf.c:76-103 | the conditions of the load theorems are met by a file with one segment, and it is loaded |
| `ElfMap.HeaderInvertsEncoding` | stage1/elf.h:92-101 | a program header encoded as eight little-endian words in the order of chapter 5 of the System V gABI is parsed back, field by field |
| `ElfMap.TableLoadsExactly` | stage1/elf.c:76-103 | a file whose table encodes given records loads if and only if every record of type 1 is non-empty, at or above 0x10FFEF, inside the file and wholly usable, and no address belongs to two; then exactly their addresses become executable |
| `Elf.IsIntersectingUsedMemregions` | stage1/elf.c:31-51 | the walk over the list answers whether some unusable region clashes, in the code's 32- and 64-bit sums |
| `Elf.ElfHeaderInvertsEncoding` | stage1/elf.h:8-28 | the whole ELF header encoded field by field is parsed back |
| `Elf.OpensExactly` | stage1/elf.c:14-29 | a file that starts with a given header record opens if and only if its magic is 0x7F ELF, its class 1, its machine 3 or 18, its type 2, and program header count, table and entry point are not 0; and which error is reported otherwise |
| `Elf.ElfOpen` | stage1/elf.c:67-74 | success means the file's first 52 bytes are a header that passes every check; on a working disk the result is exactly the verdict on those bytes |
| `Elf.ReadHeader` | stage1/elf.c:82-84 | delivers header i as parsed from the file's bytes; on a working disk with room it fails exactly when the header lies outside the file |
| `Elf.Header14Overruns` | stage1/elf.c:82-84 | program header 14 behind the ELF header, on 512-byte sectors: its last 20 bytes are not read from the disk |
| `Elf.LoadSegment` | stage1/elf.c:93-99 | memory holds the file bytes and then zeros; only the segment and scratch memory change |
| `Elf.DoneStep` | stage1/elf.c:81-100 | loading one more segment leaves the earlier ones byte-exact and recorded |
| `Elf.LoadEntry` | stage1/elf.c:81-100 | one pass over a header advances the specified load, or stops with the specified error |
| `Elf.ElfLoad` | stage1/elf.c:76-103 | on success every segment is in memory at once, also in terms of the records the table encodes, and the map is the specified one; all other memory is unchanged; on a working disk with room result and map are exactly specified, success by the records alone, and scratch memory is restored |
| `Geometry.ClusterSectors` | stage1/fat.c:67-69 | no wrap: a data cluster's sectors are where the layout says, inside the volume |
| `Geometry.GeometrySound` | stage1/fat.c:22-69 | for a well-formed parameter block distinct clusters have disjoint sectors behind reserved, FAT and root sectors and inside the volume |
| `Geometry.RootDirHolds` | stage1/fat.c:43-47 | the root sectors hold all root entries and waste less than a sector |
| `FatTable.EntryInvertsEncoding` | stage1/fat.c:71-135 | for every table of 12-, 16- or 28-bit entries encoded as section 4.1 of the Microsoft FAT Specification prescribes, the entry read is the entry encoded |
| `FatTable.EntryInFirstFat` | stage1/fat.c:72-88 | if one FAT can hold all entries, every byte of every entry lies in the first FAT |
| `FatTable.EntryPlace` | stage1/fat.c:72-95 | the entry's bytes lie inside the two sectors read, straddling entries included |
| `FatTable.FatNext` | stage1/fat.c:71-135 | returns the entry and its class, an end from 0xFF8, 0xFFF8 or 0x0FFFFFF8 on, bad for the number below, valid otherwise; fails exactly on unreadable sectors or missing room, and restores scratch memory on every path |
| `FatFile.NotBadTerminates` | stage1/fat.c:137-143 | the loop over bad markers ends if and only if the marker's own entry is not the marker or one of the reads fails |
| `FatFile.BadMarkedForever` | stage1/fat.c:137-143 | on a table of bad markers the loop never ends |
| `FatFile.FatNextNotBad` | stage1/fat.c:137-143 | the result is the first entry on the way that is no bad marker, with its class |
| `FatFile.ChainsAreLinks` | stage1/fat.c:97-143 | for a disk that holds an encoded table of all clusters, the chains free of bad markers are exactly the sequences of data clusters linked by its entries up to an end mark |
| `FatFile.ContentsAt` | stage1/fat.c:425-482 | byte i of cluster p of a chain is byte p * size + i of the file |
| `FatFile.AlignedChunkFits` | stage1/fat.c:439-443 | a range that starts on a sector boundary or runs to the end of its cluster fits the sectors counted for it |
| `FatFile.UnalignedChunkOverruns` | stage1/fat.c:439-443 | 32 bytes from offset 500 of a cluster of 512-byte sectors: exactly the last 20 come from behind the buffer |
| `FatFile.SlicesExactlyWhenItFits` | stage1/fat.c:439-462 | what is delivered is the slice of the file for every earlier memory content if and only if the range fits the sectors counted |
| `FatFile.ReadChunk` | stage1/fat.c:439-462 | one chunk, fitting or not, delivers the cluster's bytes at its offset and behind the sectors read what memory held; nothing else changes |
| `FatFile.Seek` | stage1/fat.c:426-436 | reaches the cluster of the chain with the given index, or, on a working disk, reports the end exactly behind the chain |
| `FatFile.ReadAndAdvance` | stage1/fat.c:438-479 | a pass delivers the next bytes of the file and moves to the next cluster; after a failure the stack top is restored if and only if the chunk went through scratch memory |
| `FatFile.FatRead` | stage1/fat.c:425-482 | on success the buffer is the slice [offset, offset + length) of the concatenated clusters, apart from the stale bytes of a first chunk that does not fit; on a working disk with room the result is out of bounds exactly past the chain; only buffer and scratch memory change; a disk error comes from the first chunk with an unreadable sector, and after a failure the stack top is restored exactly when the failing chunk was buffered |
| `FatFile.UnmatchedPop` | stage1/fat.c:468-472 | a read of two clusters of a chain of one, straight to low memory, is out of bounds and does not restore the stack top |
| `ShortNames.ConvertTo83` | stage1/fat.c:145-170 | accepts exactly names with a base of at most 8 and an extension of at most 3 characters and yields their padded upper-case form |
| `ShortNames.AcceptedExactly` | stage1/fat.c:145-170 | a name without a dot is accepted if and only if it has at most 8 characters, one with a dot if and only if it has at most 8 before and at most 3 behind it; the eleven bytes stored are both parts upper-cased and filled with spaces |
| `ShortNames.GetShortName` | stage1/fat.c:274-281 | the stored base up to its first space, terminated |
| `ShortNames.GetShortExtension` | stage1/fat.c:290-297 | the stored extension up to its first space, terminated |
| `ShortNames.ConversionReadsBack` | stage1/fat.c:145-170 | a converted name reads back as the upper-cased base and extension |
| `ShortNames.SameEntriesIffSameUpper` | stage1/fat.c:145-170 | names without a trailing dot have one stored form if and only if they agree up to ASCII case |
| `ShortNames.SameEntriesIff` | stage1/fat.c:145-170 | for all accepted, space-free names: one stored form if and only if they agree up to ASCII case and a trailing dot |
| `ShortNames.TrailingDotIsLost` | stage1/fat.c:145-170 | a name and the name with a trailing dot, which differ, have one stored form |
| `Paths.GetNextSegment` | stage1/fat.c:237-250 | copies out the next component, terminated, and moves the pointer behind it |
| `Paths.SplitInvertsJoin` | stage1/fat.c:237-250 | splitting components joined by slashes gives back the components |
| `Paths.JoinInvertsSplit` | stage1/fat.c:237-250 | for every path the joined components are its beginning, and the splitting stopped at an empty component |
| `Directory.LookupIsFirstMatch` | stage1/fat.c:172-212 | the lookup finds the first live, non-volume match before the end of the list |
| `Directory.RecordInvertsEncoding` | stage1/fat.h:58-71 | a directory record encoded field by field as section 6 of the Microsoft FAT Specification lays it out is parsed back |
| `Directory.LookupReadsRecords` | stage1/fat.c:172-212 | the lookup in a directory's bytes finds the first record of the name that is not free (0xE5) and no volume label (bit 3), before any record starting with 0, with that record's cluster and size; and it finds nothing exactly when there is none |
| `Directory.SearchForEntry` | stage1/fat.c:172-212 | the search over entries in memory is that lookup, for every name and number of entries |
| `Directory.SelectSameIff` | stage1/fat.c:172-212 | two accepted, space-free names select the same entry of every directory if and only if they agree up to ASCII case and a trailing dot, or both stored forms start with the mark of a free entry |
| `Directory.FreeNamesSelectNothing` | stage1/fat.c:172-212 | two different names starting with that mark select nothing anywhere |
| `Directory.SearchDirectory` | stage1/fat.c:380-410 | the search along a directory's chain, with scratch memory restored on every path |
| `Directory.SearchReadsRecords` | stage1/fat.c:379-410 | the search along a chain finds such a record in the first cluster that has one, or nothing exactly when none has |
| `Directory.SearchChainIsFlat` | stage1/fat.c:379-410 | searching cluster by cluster is one lookup in the flat list of entries |
| `FileOpen.SearchRootForEntry` | stage1/fat.c:214-235 | the search in the fixed root directory is a lookup in its list of entries |
| `FileOpen.ChainsEqual` | stage1/fat.c:137-143 | a first cluster determines its chain |
| `FileOpen.RootIsRootCluster` | stage1/fat.c:352-378 | the walk on FAT32 starts at the root cluster of the boot sector |
| `FileOpen.ResolvePath` | stage1/fat.c:379-413 | the remaining components are resolved directory by directory |
| `FileOpen.WalkReadsRecords` | stage1/fat.c:352-423 | the walk finds the record a path leads to from the root, each component in the directory at the cluster the record before gives, and finds something exactly when there is one |
| `FileOpen.FatOpen` | stage1/fat.c:352-423 | on success returns the entry the path walk leads to, with name, first cluster and size of its record on the disk; on a working disk with room reports not-found exactly when the path leads to no record, is-directory when bit 4 of its attributes is set and success otherwise, on fixed-root and FAT32 volumes; scratch memory is restored |
| `FileOpen.ResolveIsFlatWalk` | stage1/fat.c:352-423 | the walk takes, for each component, the first match in the flat list of entries, and leads nowhere else |
| `FileOpen.WalkAgreesExactly` | stage1/fat.c:379-413 | the code's walk is the walk through directories only if and only if everything it enters is a directory, or it finds nothing |
| `FileOpen.FileEnteredAsDirectory` | stage1/fat.c:379-413 | a component behind a regular file is looked up in that file's bytes and opened, where a walk through directories finds nothing |
| `Mounting.BpbInvertsEncoding` | stage1/fat.h:16-52 | a boot sector encoded field by field as section 3 of the Microsoft FAT Specification lays it out is parsed back |
| `Mounting.MountIsVolume` | stage1/fat.c:22-69 | the record of such a sector: sizes from the 16-bit fields unless 0, reserved sectors, FATs and root directory one behind the other, whole clusters, and the type by the counts 4085 and 65525 |
| `Mounting.FatMount` | stage1/fat.c:309-350 | the volume record is that of the boot sector encoded in sector 0; failures are exactly missing room and an unreadable sector |
| `Mounting.MountedIsVolume` | stage1/fat.c:309-350 | a well-formed parameter block mounts as a volume the reader's preconditions accept |
| `Strings.StrLen` | stage1/string.c:4-8 | the number of characters before the first NUL |
| `Strings.StrEq` | stage1/string.c:87-93 | equality of the strings before the NULs, whatever lies behind |
| `Strings.XorSwap` | stage1/string.c:70-85 | three exclusive ors exchange two bytes |
| `Strings.StrNRev` | stage1/string.c:70-85 | reverses the first n bytes in place and leaves the rest |
| `Strings.UpperLetters` | stage1/string.c:95-97 | the letters a to z become A to Z and nothing else changes |
| `Strings.FindInAlphabet` | stage1/string.c:43-53 | the value of a digit of either case, 16 for NUL, or -1 |
| `Strings.DigitCharacters` | stage1/string.c:10-53 | the values of 0 to 9, A to F and a to f by their characters, 16 for NUL and -1 for all others; and the characters printed for the sixteen digits |
| `Strings.Itoa` | stage1/string.c:11-41 | the buffer holds the digits of the number, most significant first, and a NUL; bases beyond 17 are refused |
| `Strings.Atoi` | stage1/string.c:55-68 | the digits are folded modulo 2^32; the first bad digit stops with failure |
| `Strings.AtoiIsValue` | stage1/string.c:55-68 | on a valid digit string the result is the positional value modulo 2^32 |
| `Strings.AtoiStopsAtFirstBad` | stage1/string.c:55-68 | at the first character that is no digit the value of the digits before it, already multiplied by the base, is left, modulo 2^32 |
| `Strings.AtoiInvertsItoa` | stage1/string.c:11-68 | printing and parsing a non-negative 32-bit int in any base from 2 to 16 is the identity |
| `Strings.RoundTripExactly` | stage1/string.c:10-68 | for bases 2 to 17 and every non-negative int, reading back what was printed gives the number if and only if none of its digits is 16, and in bases up to 16 none is |
| `Strings.SeventeenIsNotPrinted` | stage1/string.c:10-41 | in base 17, which the code accepts, the digit 16 is a NUL and the text is lost |
| `Strings.PrintedDigits` | stage1/string.c:11-41 | the text printed has only digits of the base and fits its buffer |
| `Strings.SignAndFirstDigit` | stage1/string.c:11-41 | a negative number is printed as a minus sign and its magnitude, zero as one digit, and no other number starts with a zero |
| `Options.LineIsDecided` | stage1/options_parser.c:44-76 | one line with equals signs, of any length: a key or value over its limit is out of buffer by one character and reported beyond, each further equals sign cuts the key to the length before it, and otherwise the line is one update, whatever the reused buffers held |
| `Options.LineLeavesExactly` | stage1/options_parser.c:45-75 | a line with equals signs makes the code leave its buffers if and only if the key has 65 characters, or behind a key within its limit the first part that is too long for the buffer its NUL goes to has at most 257: over 64 before an equals sign, exactly 257 before the newline |
| `Options.LineWithoutEquals` | stage1/options_parser.c:47-76 | a line without equals sign runs on into what the key buffer held, and the value of the line before is cut to its length; without a NUL there the code reads on behind the buffer |
| `Options.SecondEqualsOverruns` | stage1/options_parser.c:60-64 | a second equals sign behind more than 64 characters of value writes its NUL behind the key buffer |
| `Options.RunOfPrint` | stage1/options_parser.c:39-81 | parsing a printed list of lines with parts of any length is the fold of what the lines say up to the first failure, then the check for a boot binary |
| `Options.ConfigurationSets` | stage1/options_parser.c:9-81 | a configuration of lines boot_binary=path and load_offset=number, in decimal or hexadecimal, sets the last path and the last offset and leaves what it does not name |
| `Options.OtherKeyStops` | stage1/options_parser.c:15-34 | a line with any other key of at most 64 characters stops the parser with an unrecognized key, and nothing changes |
| `Options.OffsetLineDecides` | stage1/options_parser.c:18-31 | an offset line of digits only, hexadecimal behind 0x and decimal otherwise, sets its value modulo 2^32; any other value is a syntax error and leaves the path |
| `Options.BootOptions.UpdateOptions` | stage1/options_parser.c:9-37 | the options change as the key and value strings say; on every failure the stated error |
| `Options.ParseChar` | stage1/options_parser.c:45-75 | one character changes buffers, index and side as one step of the machine |
| `Options.Parse` | stage1/options_parser.c:39-81 | with carriage returns anywhere and for any contents of the options structure: a written configuration succeeds with exactly its last path and offset, a missing or empty path is the only error; a line with another key stops there; on a printed list of lines of any length the result is the fold of what they say, and on every text it is the machine's |
| `Options.LeavesBuffersExactly` | stage1/options_parser.c:49-76 | on any text the parser leaves its buffers if and only if its run gets to an equals sign with more than 64 characters since the last separator, a newline with more than 256, or a newline in a line without equals sign while the key buffer holds no NUL |
| `Options.LongKeyOverruns` | stage1/options_parser.c:60-64 | a key of 65 characters and an equals sign does |
| `Options.LoadOffsetRoundTrip` | stage1/options_parser.c:18-31 | an offset printed in decimal or as 0x and hex digits is restored |
| `Allocators.TraceKeepsDiscipline` | stage1/mem.c:90-111 | every run keeps both tops in their areas and the blocks stacked |
| `Allocators.LiveBlocksDisjoint` | stage1/mem.c:90-111 | in every reachable state live blocks of either allocator are disjoint and both tops in bounds |
| `Allocators.PushPop` | stage1/mem.c:90-111 | a push and the matching pop restore the whole state |
| `Allocators.PanicsExactly` | stage1/mem.c:90-111 | no comparison wraps: an operation panics exactly when its area has too little left, or too little pushed, and otherwise moves its own top by exactly its size |
| `Machine.Memory.Push` | stage1/mem.c:90-96 | one step of the allocator machine; refused exactly when room is missing |
| `Machine.Memory.Pop` | stage1/mem.c:106-111 | one step of the allocator machine; refused exactly when less was pushed |
| `Machine.Memory.DiskRead` | stage1/disk.c:15-41 | refuses addresses beyond real-mode reach; delivers whole sectors and changes nothing else |
| `Machine.Memory.MemCpy` | stage1/mem.c:40-57 | byte-wise copy, all other memory unchanged |
| `Machine.Memory.MemSet` | stage1/mem.c:21-38 | byte-wise fill, all other memory unchanged |
| `StackPointer.LastLargest` | stage1/prot.c:11-18 | a region of maximum size, the last one on ties |
| `StackPointer.PointerIsExact` | stage1/prot.c:22-27 | the pointer less the reserve is the highest aligned address leaving the reserve inside the region, and failure means there is none, if and only if the reserve cannot end with the region: its last place is not aligned or below the region |
| `StackPointer.PointerIsCandidate` | stage1/prot.c:22-27 | the result is always such an address, and the highest that leaves one more byte |
| `StackPointer.ReserveAtTheEnd` | stage1/prot.c:22-27 | a region with room for exactly the reserve from an aligned address on, and no space reported |
| `StackPointer.GetStackPointer` | stage1/prot.c:5-28 | the walk over the list picks that region and computes that pointer, in the code's word sizes |
| `StackPointer.StackAfterPushes` | stage1/prot.c:30-72 | after the two pushes the stack is 16-byte aligned and inside the region |

## Left out

- Machine.Memory.DiskRead: the transfer is a byte function of the disk with a set of failing sectors; the BIOS call, the address packet and status codes are not modelled.
- Machine.Memory.MemCpy: only disjoint blocks, byte by byte; the instruction encodings of `memcpy`, `memset` and `memeq` are not modelled.
- MemoryMap.GetMemRegions: the BIOS query is a sequence of answers; the entries kept must be in address order and disjoint.
- RegionList.RegionMap.InsertNew: nodes come from the Dafny heap; exhaustion of the static allocator, a panic in the code, does not occur here (its arithmetic is in `Allocators`).
- FatFile.FatRead: what the buffer holds after a failed read is not stated; a panic is a result; a range that does not fit and is delivered onto the memory behind the buffer is left out.
- MemoryMap.MapRefinesFirmware: speaks of types; the volatile bits are stated for one insertion at a time.
- FatTable.FatNext: one-byte sectors, on which sector numbers of a table can wrap, are left out.
- FileOpen.FatOpen: directories on the way must have chains; `.` and `..` and long file names are not treated specially by the code either.
- Options.Parse: accesses outside a buffer, undefined in C, end the model with the result `OutOfBuffer`.
- Strings.Itoa: the minimum int, whose negation is undefined in C, and bases 0 and 1, which divide by zero or never end.
- Boot.BootFrom: reading the options file and printing are not part of the sequence; the path is a parameter, and so is whether the RSDP search succeeds.
- RegionList.RegionMap.InsertSorted: lists that overlap before the insertion, and insertions whose loop never ends; `Regions.FixRightTerminates` and `Insertion.InsertionEndsSorted` say which those are.
- Elf.ElfOpen: the header checks compare the four magic bytes directly instead of through a NUL-terminated copy.
- Cyclic chains, and chains through bad markers that never end.
- The default branches for FAT types outside the enumeration.
- `get_rsdp` and `is_rsdp_valid`, a checksum over a fixed range.
- The `*_to_str` functions, `print.c` and the messages of `main.c`.
- `transfer_control` beyond its stack pointer, stage 0, linker scripts and the image builder: assembly and layout.
