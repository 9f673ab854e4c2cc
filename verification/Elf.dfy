/**
 * `elf_load`: every loadable segment of an ELF file on a FAT volume is copied to memory and recorded in the
 * memory map.
 */
module Elf {
  import opened Words
  import opened Arithmetic
  import opened Allocators
  import opened Machine
  import opened Geometry
  import opened FatFile
  import opened Regions
  import opened Insertion
  import opened RegionList
  import opened ElfMap

  /** The stack of the boot stage, where the local header buffer lives (include/memory_map.h). */
  const STACK_BASE := 0x7000
  const STACK_TOP := 0x8000

  /** `is_intersecting_used_memregions` */
  method IsIntersectingUsedMemregions(ph: ProgramHeader, memRegions: RegionMap) returns (intersects: bool)
    requires memRegions.Valid()
    ensures intersects == Intersects(memRegions.Regions(), ph)
  {
    if ph.pMemsz == 0 {
      return true;
    }
    ghost var nodes, rs := memRegions.nodes, memRegions.Regions();
    ValuesAt(nodes);
    hide Values, Wrap32;
    var memregion := memRegions.head;
    ghost var k := 0;
    while memregion != null
      invariant 0 <= k <= |nodes| && memregion == if k < |nodes| then nodes[k] else null
      invariant forall i :: 0 <= i < k ==> !(rs[i].ty != Usable && Clashes(rs[i], ph))
      decreases |nodes| - k
    {
      assert rs[k] == memregion.Value();
      if memregion.ty != Usable {
        if memregion.base < ph.pVaddr {
          if (memregion.base + memregion.size) % LIMIT64 > ph.pVaddr {
            return true;
          }
        } else {
          if Wrap32(ph.pVaddr + ph.pMemsz) > memregion.base {
            return true;
          }
        }
      }
      memregion := memregion.next;
      k := k + 1;
    }
    return false;
  }

  /** The memory of a segment: its file bytes, then zeros. */
  ghost predicate Placed(ram: seq<U8>, file: seq<U8>, ph: ProgramHeader) {
    && ph.pFilesz <= ph.pMemsz && ph.pVaddr + ph.pMemsz <= |ram|
    && (ph.pFilesz > 0 ==> ph.pOffset + ph.pFilesz <= |file|)
    && (forall a :: ph.pVaddr <= a < ph.pVaddr + ph.pFilesz ==> ram[a] == file[ph.pOffset + (a - ph.pVaddr)])
    && (forall a :: ph.pVaddr + ph.pFilesz <= a < ph.pVaddr + ph.pMemsz ==> ram[a] == 0)
  }

  /** A segment this memory can hold and `fat_read` reads exactly. */
  ghost predicate Sane(m: Memory, fat: Fat, ph: ProgramHeader)
    requires ClusterSize(fat) > 0 && fat.bpb.bytesPerSector > 0
    reads m
  {
    && ph.pFilesz <= ph.pMemsz && ph.pVaddr + ph.pMemsz <= m.ram.Length
    && ph.pFilesz + ClusterSize(fat) <= LIMIT32
    && (ph.pFilesz > 0 ==> ChunkFits(fat, ph.pOffset, ph.pFilesz))
  }

  /** Every segment of the table is in memory. */
  ghost predicate AllPlaced(ram: seq<U8>, file: seq<U8>, table: U32, count: nat) {
    forall j :: 0 <= j < count && IsLoadAt(file, table, j) ==> Placed(ram, file, HeaderAt(file, table, j).value)
  }

  /** Every record to be loaded is in memory. */
  ghost predicate InMemory(ram: seq<U8>, file: seq<U8>, phs: seq<ProgramHeader>) {
    forall i :: 0 <= i < |phs| && phs[i].pType == 1 ==> Placed(ram, file, phs[i])
  }

  lemma PlacedInMemory(ram: seq<U8>, file: seq<U8>, table: U32, phs: seq<ProgramHeader>)
    requires TableIs(file, table, phs)
    requires AllPlaced(ram, file, table, |phs|)
    ensures InMemory(ram, file, phs)
  {
    hide TableIs, HeaderAt, Placed;
    forall i | 0 <= i < |phs| && phs[i].pType == 1 ensures Placed(ram, file, phs[i]) {
      HeaderOfTable(file, table, phs, i);
    }
  }

  /** The file, its volume, and the fields of the ELF header the loader uses. */
  datatype ElfFile = ElfFile(fat: Fat, entry: DirEntry, table: U32, entryCount: U16, entrySize: U16)

  /** Everything the loader's reads need: the file's chain, real sector sizes, the size of a header record,
      and chunks that fit (FatFile.ChunkFits) for every header and every loadable segment. */
  ghost predicate Loads(m: Memory, elf: ElfFile, chain: seq<U32>)
    reads m
  {
    && Readable(m, elf.fat, elf.entry, chain)
    && elf.fat.bpb.bytesPerSector > HEADER_SIZE && elf.entrySize == HEADER_SIZE
    && HEADER_SIZE + ClusterSize(elf.fat) <= LIMIT32
    && (forall i :: 0 <= i < elf.entryCount ==> ChunkFits(elf.fat, HeaderOffset(elf.table, i), HEADER_SIZE))
    && var file := Contents(m.disk, elf.fat, chain);
       forall i :: 0 <= i < elf.entryCount && IsLoadAt(file, elf.table, i) ==>
         Sane(m, elf.fat, HeaderAt(file, elf.table, i).value)
  }

  /** The bounds check of `fat_read` in terms of the file's bytes. */
  lemma RangeIsInBounds(disk: Disk, fat: Fat, chain: seq<U32>, offset: U32, length: U32)
    requires ClusterSize(fat) > 0 && chain != []
    ensures |Contents(disk, fat, chain)| == |chain| * ClusterSize(fat)
    ensures InBounds(fat, chain, offset, length) <==> RangeOk(Contents(disk, fat, chain), offset, length)
  {
    hide ClusterSize;
    ContentsAt(disk, fat, chain, 0, 0);
    var n: nat := ClusterSize(fat);
    DivMod(offset, n);
    if offset < |chain| * n {
      DivLt(offset, |chain|, n);
    } else {
      DivGe(offset, |chain|, n);
    }
  }

  // ----- opening -----

  /** The fields of the 32-bit ELF header `validate_header` and the loader use (System V gABI, chapter 4, "ELF
      Header"). */
  datatype ElfHeader = ElfHeader(
    magic: seq<U8>,
    class_: U8,
    ty: U16,
    machine: U16,
    entryPoint: U32,
    table: U32,
    entrySize: U16,
    entryCount: U16)

  const ELF_HEADER_SIZE := 52

  /** The machine numbers of stage1/elf.h, which counts its machines without the gaps of the standard: there
      x86-64 is 18, not 62. */
  const MACHINE_386 := 3
  const MACHINE_X86_64 := 18

  function ParseElfHeader(b: seq<U8>): ElfHeader
    requires |b| == ELF_HEADER_SIZE
  {
    ElfHeader(
      b[..4], b[4], Word16(b, 16), Word16(b, 18), Word32(b, 24), Word32(b, 28), Word16(b, 42), Word16(b, 44))
  }

  /** `validate_header`; the magic holds no NUL, so comparing C strings compares the four bytes. */
  function Validate(h: ElfHeader): ElfResult {
    if h.magic != [0x7F, 0x45, 0x4C, 0x46] then NotRecognized
    else if h.class_ != 1 then UnsupportedArch
    else if h.machine != MACHINE_386 && h.machine != MACHINE_X86_64 then UnsupportedArch
    else if h.ty != 2 || h.entryCount == 0 || h.table == 0 || h.entryPoint == 0 then NotExecutable
    else ElfResult.Success
  }

  /** The header of a file long enough to have one. */
  function HeaderOf(file: seq<U8>): Option<ElfHeader> {
    if |file| < ELF_HEADER_SIZE then None else Some(ParseElfHeader(file[..ELF_HEADER_SIZE]))
  }

  /** What `elf_open` reports for a file. */
  function OpenVerdict(file: seq<U8>): ElfResult {
    if HeaderOf(file) == None then FatError else Validate(HeaderOf(file).value)
  }

  /** The whole 32-bit ELF header, field by field. */
  datatype ElfRecord = ElfRecord(
    magic: seq<U8>,
    class_: U8,
    endianness: U8,
    headerVersion: U8,
    abi: U8,
    unused: seq<U8>,
    ty: U16,
    machine: U16,
    elfVersion: U32,
    entryPoint: U32,
    programHeaderTable: U32,
    sectionHeaderTable: U32,
    flags: U32,
    headerSize: U16,
    programEntrySize: U16,
    programEntryCount: U16,
    sectionEntrySize: U16,
    sectionEntryCount: U16,
    stringTableSectionIndex: U16)
  {
    predicate Sized() {
      |magic| == 4 && |unused| == 8
    }

    /** The record in a file. */
    function Encoded(): (b: seq<U8>)
      requires Sized()
      ensures |b| == 52
    {
      magic + [class_, endianness, headerVersion, abi] + unused + Bytes16(ty) + Bytes16(machine)
      + Bytes32(elfVersion) + Bytes32(entryPoint) + Bytes32(programHeaderTable) + Bytes32(sectionHeaderTable)
      + Bytes32(flags) + Bytes16(headerSize) + Bytes16(programEntrySize) + Bytes16(programEntryCount)
      + Bytes16(sectionEntrySize) + Bytes16(sectionEntryCount) + Bytes16(stringTableSectionIndex)
    }

    /** A 32-bit executable for one of the two machines, with an entry point and program headers. */
    predicate IsExecutable() {
      && magic == [0x7F] + Ascii("ELF") && class_ == 1 && machine in {3, 18} && ty == 2
      && programEntryCount != 0 && programHeaderTable != 0 && entryPoint != 0
    }
  }

  /** Parsing picks the fields out of the encoded record. */
  lemma ElfHeaderInvertsEncoding(r: ElfRecord)
    requires r.Sized()
    ensures ParseElfHeader(r.Encoded()) ==
      ElfHeader(r.magic, r.class_, r.ty, r.machine, r.entryPoint, r.programHeaderTable, r.programEntrySize,
                r.programEntryCount)
  {
    hide Bytes16, Bytes32, Word16, Word32;
    var b := r.Encoded();
    assert b[..4] == r.magic;
    Word16At(b, 16, r.ty);
    Word16At(b, 18, r.machine);
    Word32At(b, 24, r.entryPoint);
    Word32At(b, 28, r.programHeaderTable);
    Word16At(b, 42, r.programEntrySize);
    Word16At(b, 44, r.programEntryCount);
  }

  /** What is reported for a file that starts with this record. */
  lemma OpensExactly(file: seq<U8>, r: ElfRecord)
    requires r.Sized() && |file| >= 52 && file[..52] == r.Encoded()
    ensures OpenVerdict(file) == ElfResult.Success <==> r.IsExecutable()
    ensures OpenVerdict(file) == NotRecognized <==> r.magic != [0x7F, 0x45, 0x4C, 0x46]
    ensures OpenVerdict(file) == UnsupportedArch <==>
      r.magic == [0x7F, 0x45, 0x4C, 0x46] && (r.class_ != 1 || r.machine !in {3, 18})
    ensures OpenVerdict(file) in {ElfResult.Success, NotRecognized, UnsupportedArch, NotExecutable}
  {
    hide ParseElfHeader;
    ElfHeaderInvertsEncoding(r);
    assert [0x7F] + Ascii("ELF") == [0x7F, 0x45, 0x4C, 0x46];
  }

  /** `elf_open` */
  method ElfOpen(m: Memory, fat: Fat, entry: DirEntry, buffer: nat, ghost chain: seq<U32>)
    returns (result: ElfResult, header: ElfHeader)
    requires Readable(m, fat, entry, chain)
    requires fat.bpb.bytesPerSector > ELF_HEADER_SIZE && ELF_HEADER_SIZE + ClusterSize(fat) <= LIMIT32
    requires STACK_BASE <= buffer && buffer + ELF_HEADER_SIZE <= STACK_TOP
    modifies m`extTop, m.ram
    ensures m.Valid() && OnlyAt(m, buffer, ELF_HEADER_SIZE, old(m.extTop))
    ensures result != ElfResult.Panic ==> m.extTop == old(m.extTop)
    ensures var file := Contents(m.disk, fat, chain);
      && (result == ElfResult.Success ==> OpenVerdict(file) == result && HeaderOf(file) == Some(header))
      && (m.disk.Working() && old(RoomToRead(m, fat)) ==> result == OpenVerdict(file))
  {
    hide Contents, ClusterSize, ChunkFits, ParseElfHeader, Validate;
    hide FirstUnreadable, Balanced, EndReached, Delivery, Stale;
    ChunkZeroFits(fat, ELF_HEADER_SIZE);
    RangeIsInBounds(m.disk, fat, chain, 0, ELF_HEADER_SIZE);
    var status, _ := FatRead(m, fat, entry, 0, ELF_HEADER_SIZE, buffer, chain);
    var raw := m.ram[buffer..buffer + ELF_HEADER_SIZE];
    header := ParseElfHeader(raw);
    if status != FatResult.Success {
      return if status == FatResult.Panic then ElfResult.Panic else FatError, header;
    }
    assert raw == Contents(m.disk, fat, chain)[..ELF_HEADER_SIZE];
    return Validate(header), header;
  }

  // ----- loading -----

  /** Program header 14 of a file with its table behind the ELF header: on a volume of 512-byte sectors, two or more to
      a cluster, its last 20 bytes are not read from the disk. */
  lemma Header14Overruns(fat: Fat)
    requires Sound(fat) && fat.bpb.bytesPerSector == 512 && fat.bpb.sectorsPerCluster >= 2
    ensures ClusterSize(fat) > 0 && !ChunkFits(fat, HeaderOffset(ELF_HEADER_SIZE, 14), HEADER_SIZE)
    ensures forall j :: 0 <= j < HEADER_SIZE ==>
      (StaleAt(fat, HeaderOffset(ELF_HEADER_SIZE, 14), HEADER_SIZE, j) <==> 12 <= j)
  {
    WrapId(500);
    assert HeaderOffset(ELF_HEADER_SIZE, 14) == 500;
    UnalignedChunkOverruns(fat);
  }

  /** Reads program header `i` into the local buffer. */
  method ReadHeader(m: Memory, elf: ElfFile, i: U16, buffer: nat, ghost chain: seq<U32>)
    returns (status: FatResult, ph: ProgramHeader)
    requires Loads(m, elf, chain) && i < elf.entryCount && STACK_BASE <= buffer && buffer + HEADER_SIZE <= STACK_TOP
    modifies m`extTop, m.ram
    ensures m.Valid() && OnlyAt(m, buffer, HEADER_SIZE, old(m.extTop))
    ensures status != FatResult.Panic ==> m.extTop == old(m.extTop)
    ensures var header := HeaderAt(Contents(m.disk, elf.fat, chain), elf.table, i);
      && (status == FatResult.Success ==> header == Some(ph))
      && (m.disk.Working() && old(RoomToRead(m, elf.fat)) ==>
            status == if header == None then OutOfFileBounds else FatResult.Success)
  {
    hide Contents, ClusterSize, ChunkFits, ParseHeader, Sane, IsLoadAt;
    hide FirstUnreadable, Balanced, EndReached, Delivery, Stale;
    var offset := Wrap32(elf.table + elf.entrySize * i);
    RangeIsInBounds(m.disk, elf.fat, chain, offset, HEADER_SIZE);
    assert offset == HeaderOffset(elf.table, i);
    ghost var reached;
    status, reached := FatRead(m, elf.fat, elf.entry, offset, elf.entrySize, buffer, chain);
    var raw := m.ram[buffer..buffer + HEADER_SIZE];
    ph := ParseHeader(raw);
    if status == FatResult.Success {
      assert raw == Contents(m.disk, elf.fat, chain)[offset..offset + HEADER_SIZE];
    }
  }

  /** Copies the file bytes of a segment and clears the rest. */
  method LoadSegment(m: Memory, elf: ElfFile, ph: ProgramHeader, ghost chain: seq<U32>) returns (status: FatResult)
    requires Readable(m, elf.fat, elf.entry, chain) && Sane(m, elf.fat, ph) && ph.pVaddr >= REAL_MODE_LIMIT
    modifies m`extTop, m.ram
    ensures m.Valid() && OnlyAt(m, ph.pVaddr, ph.pMemsz, old(m.extTop))
    ensures status != FatResult.Panic ==> m.extTop == old(m.extTop)
    ensures var file := Contents(m.disk, elf.fat, chain);
      && (status == FatResult.Success ==> RangeOk(file, ph.pOffset, ph.pFilesz) && Placed(m.ram[..], file, ph))
      && (m.disk.Working() && old(RoomToRead(m, elf.fat)) ==>
            status == if RangeOk(file, ph.pOffset, ph.pFilesz) then FatResult.Success else OutOfFileBounds)
  {
    hide Contents, ClusterSize, ChunkFits, Placed, IsChain, InBounds, RangeOk;
    hide FirstUnreadable, Balanced, EndReached, Delivery, Stale;
    RangeIsInBounds(m.disk, elf.fat, chain, ph.pOffset, ph.pFilesz);
    ghost var reached;
    status, reached := FatRead(m, elf.fat, elf.entry, ph.pOffset, ph.pFilesz, ph.pVaddr, chain);
    if status == FatResult.Success {
      ghost var read := m.ram[..];
      if ph.pMemsz > ph.pFilesz {
        m.MemSet(ph.pVaddr + ph.pFilesz, 0, ph.pMemsz - ph.pFilesz);
      }
      PlacedInTwo(read, m.ram[..], Contents(m.disk, elf.fat, chain), ph);
    }
  }

  /** The file bytes arrive, and then only the bytes behind them are cleared. */
  lemma PlacedInTwo(read: seq<U8>, now: seq<U8>, file: seq<U8>, ph: ProgramHeader)
    requires ph.pFilesz <= ph.pMemsz && ph.pVaddr + ph.pMemsz <= |read| == |now|
    requires ph.pFilesz > 0 ==> ph.pOffset + ph.pFilesz <= |file|
    requires forall a :: ph.pVaddr <= a < ph.pVaddr + ph.pFilesz ==> read[a] == file[ph.pOffset + (a - ph.pVaddr)]
    requires forall a :: ph.pVaddr <= a < ph.pVaddr + ph.pFilesz ==> now[a] == read[a]
    requires forall a :: ph.pVaddr + ph.pFilesz <= a < ph.pVaddr + ph.pMemsz ==> now[a] == 0
    ensures Placed(now, file, ph)
  {
  }

  /** The header buffer, or scratch memory below `top`. */
  predicate InScratch(a: int, buffer: nat, top: int) {
    buffer <= a < buffer + HEADER_SIZE || EXTENDED_STACK_LIMIT <= a < top
  }

  /** Every byte of the memory after the load: its segment's, or what it was before. */
  ghost predicate Untouched(was: seq<U8>, now: seq<U8>, elf: ElfFile, file: seq<U8>, from: nat, i: nat, buffer: nat,
                            top: int)
  {
    && |was| == |now|
    && forall a :: 0 <= a < |now| && !InScratch(a, buffer, top) && !LoadedFrom(file, elf.table, from, i, a) ==>
      now[a] == was[a]
  }

  /** The segments of the headers before `i` are in memory and recorded. */
  ghost predicate Done(ram: seq<U8>, elf: ElfFile, file: seq<U8>, i: nat, rs: seq<Region>) {
    forall j :: 0 <= j < i && IsLoadAt(file, elf.table, j) ==>
      var ph := HeaderAt(file, elf.table, j).value;
      && Placed(ram, file, ph) && ph.pVaddr >= REAL_MODE_LIMIT
      && forall a :: ph.Segment().Has(a) ==> TypeAt(rs, a) == Some(ElfExecutable)
  }

  /** Loading one more segment leaves the earlier ones in place: its addresses were usable, theirs no more. */
  lemma DoneStep(was: seq<U8>, now: seq<U8>, elf: ElfFile, file: seq<U8>, i: nat, rs: seq<Region>, next: seq<Region>,
                 buffer: nat, top: int)
    requires Done(was, elf, file, i, rs) && Untouched(was, now, elf, file, i, i + 1, buffer, top)
    requires buffer + HEADER_SIZE <= STACK_TOP && top <= EXTENDED_STACK_BASE
    requires Advanced(elf, file, i, rs, next) && PlacedAt(now, elf, file, i)
    ensures Done(now, elf, file, i + 1, next)
  {
    hide TypeAt, HeaderAt, Load, Loadable;
    forall j | 0 <= j < i && IsLoadAt(file, elf.table, j)
      ensures Placed(now, file, HeaderAt(file, elf.table, j).value)
    {
      var ph := HeaderAt(file, elf.table, j).value;
      assert Placed(was, file, ph);
      forall a | ph.pVaddr <= a < ph.pVaddr + ph.pMemsz ensures now[a] == was[a] {
        assert ph.Segment().Has(a);
        assert !LoadedFrom(file, elf.table, i, i + 1, a);
      }
    }
  }

  /** Two stretches of the load, one after the other. */
  lemma UntouchedStep(was: seq<U8>, mid: seq<U8>, now: seq<U8>, elf: ElfFile, file: seq<U8>, i: nat, buffer: nat,
                      top: int)
    requires Untouched(was, mid, elf, file, 0, i, buffer, top) && Untouched(mid, now, elf, file, i, i + 1, buffer, top)
    ensures Untouched(was, now, elf, file, 0, i + 1, buffer, top)
  {
  }

  lemma UntouchedAtFirst(ram: seq<U8>, elf: ElfFile, file: seq<U8>, buffer: nat, top: int)
    ensures Untouched(ram, ram, elf, file, 0, 0, buffer, top)
  {
  }

  lemma UntouchedLater(was: seq<U8>, now: seq<U8>, elf: ElfFile, file: seq<U8>, i: nat, count: nat, buffer: nat,
                       top: int)
    requires i <= count && Untouched(was, now, elf, file, 0, i, buffer, top)
    ensures Untouched(was, now, elf, file, 0, count, buffer, top)
  {
  }

  /** What a pass of the loop over header `i` that goes on does to the map. */
  ghost predicate Advanced(elf: ElfFile, file: seq<U8>, i: nat, was: seq<Region>, now: seq<Region>) {
    && i < elf.entryCount
    && Loadable(file, elf.table, i + 1, elf.entryCount, now)
    && Load(file, elf.table, i + 1, elf.entryCount, now) == Load(file, elf.table, i, elf.entryCount, was)
    && (forall a :: TypeAt(now, a) == if Loaded(file, elf.table, i, a) then Some(ElfExecutable) else TypeAt(was, a))
    && (forall a :: Loaded(file, elf.table, i, a) ==> TypeAt(was, a) == Some(Usable))
  }

  /** The segment of header `i`, if it has one, is in memory. */
  ghost predicate PlacedAt(ram: seq<U8>, elf: ElfFile, file: seq<U8>, i: nat) {
    IsLoadAt(file, elf.table, i) ==>
      var ph := HeaderAt(file, elf.table, i).value;
      Placed(ram, file, ph) && ph.pVaddr >= REAL_MODE_LIMIT
  }

  /** A header that is not loaded. */
  lemma SkipAdvances(elf: ElfFile, file: seq<U8>, i: nat, rs: seq<Region>, ram: seq<U8>)
    requires i < elf.entryCount && Loadable(file, elf.table, i, elf.entryCount, rs)
    requires HeaderAt(file, elf.table, i).Some? && !HeaderAt(file, elf.table, i).value.IsLoad()
    ensures Advanced(elf, file, i, rs, rs) && PlacedAt(ram, elf, file, i)
  {
    hide TypeAt, HeaderAt, Tidy;
  }

  /** A segment that passed the guard, read or not. */
  lemma InsertionAdvances(elf: ElfFile, file: seq<U8>, i: nat, rs: seq<Region>)
    requires i < elf.entryCount && Loadable(file, elf.table, i, elf.entryCount, rs) && IsLoadAt(file, elf.table, i)
    requires !Refused(rs, HeaderAt(file, elf.table, i).value)
    ensures var ph := HeaderAt(file, elf.table, i).value;
      && CanInsert(rs, ph.Segment())
      && (if RangeOk(file, ph.pOffset, ph.pFilesz) then Advanced(elf, file, i, rs, Inserted(rs, ph.Segment()))
          else Load(file, elf.table, i, elf.entryCount, rs) == (FatError, Inserted(rs, ph.Segment())))
  {
    hide TypeAt, HeaderAt, CanInsert, Inserted, Tidy, Refused;
    var ph := HeaderAt(file, elf.table, i).value;
    LoadableStep(file, elf.table, i, elf.entryCount, rs);
    SegmentInserted(rs, ph);
  }

  /** Records an accepted segment and loads it. */
  method LoadAccepted(m: Memory, memRegions: RegionMap, elf: ElfFile, ph: ProgramHeader, ghost chain: seq<U32>)
    returns (result: ElfResult)
    requires Readable(m, elf.fat, elf.entry, chain) && Sane(m, elf.fat, ph) && ph.pVaddr >= REAL_MODE_LIMIT
    requires memRegions.Valid() && CanInsert(memRegions.Regions(), ph.Segment())
    modifies m`extTop, m.ram, memRegions, memRegions.nodes
    ensures m.Valid() && memRegions.Valid() && OnlyAt(m, ph.pVaddr, ph.pMemsz, old(m.extTop))
    ensures forall i :: 0 <= i < |memRegions.nodes| ==>
      memRegions.nodes[i] in old(memRegions.nodes) || fresh(memRegions.nodes[i])
    ensures memRegions.Regions() == Inserted(old(memRegions.Regions()), ph.Segment())
    ensures result != ElfResult.Panic ==> m.extTop == old(m.extTop)
    ensures result in {ElfResult.Success, FatError, ElfResult.Panic}
    ensures var file := Contents(m.disk, elf.fat, chain);
      && (result == ElfResult.Success ==> RangeOk(file, ph.pOffset, ph.pFilesz) && Placed(m.ram[..], file, ph))
      && (m.disk.Working() && old(RoomToRead(m, elf.fat)) ==>
            result == if RangeOk(file, ph.pOffset, ph.pFilesz) then ElfResult.Success else FatError)
  {
    hide Contents, ClusterSize, ChunkFits, CanInsert, Inserted, IsChain, Placed, RangeOk;
    hide RegionMap.Valid, RegionMap.Regions;
    memRegions.InsertNew(ph.pVaddr, ph.pMemsz, ElfExecutable, false);
    var status := LoadSegment(m, elf, ph, chain);
    if status != FatResult.Success {
      return if status == FatResult.Panic then ElfResult.Panic else FatError;
    }
    return ElfResult.Success;
  }

  /** The loop body of `elf_load`: program header `i`. */
  method LoadEntry(m: Memory, memRegions: RegionMap, elf: ElfFile, i: U16, buffer: nat, ghost chain: seq<U32>)
    returns (result: ElfResult)
    requires Loads(m, elf, chain) && i < elf.entryCount && STACK_BASE <= buffer && buffer + HEADER_SIZE <= STACK_TOP
    requires memRegions.Valid()
    requires Loadable(Contents(m.disk, elf.fat, chain), elf.table, i, elf.entryCount, memRegions.Regions())
    modifies m`extTop, m.ram, memRegions, memRegions.nodes
    ensures m.Valid() && memRegions.Valid()
    ensures forall i :: 0 <= i < |memRegions.nodes| ==>
      memRegions.nodes[i] in old(memRegions.nodes) || fresh(memRegions.nodes[i])
    ensures result != ElfResult.Panic ==> m.extTop == old(m.extTop)
    ensures var file, was, now := Contents(m.disk, elf.fat, chain), old(memRegions.Regions()), memRegions.Regions();
      && Untouched(old(m.ram[..]), m.ram[..], elf, file, i, i + 1, buffer, old(m.extTop))
      && (result == ElfResult.Success ==> Advanced(elf, file, i, was, now) && PlacedAt(m.ram[..], elf, file, i))
      && (result != ElfResult.Success && m.disk.Working() && old(RoomToRead(m, elf.fat)) ==>
            Load(file, elf.table, i, elf.entryCount, was) == (result, now))
  {
    hide Contents, ClusterSize, ChunkFits, CanInsert, Inserted, IsChain, Placed, RangeOk;
    hide RegionMap.Valid, RegionMap.Regions;
    hide Advanced, Intersects, HeaderAt, TypeAt, Tidy, Loadable, Sane;
    ghost var file, was := Contents(m.disk, elf.fat, chain), m.ram[..];
    ghost var rs, top := memRegions.Regions(), m.extTop;
    var status, ph := ReadHeader(m, elf, i, buffer, chain);
    HeaderUntouched(was, m.ram[..], elf, file, i, buffer, top);
    if status != FatResult.Success {
      return if status == FatResult.Panic then ElfResult.Panic else FatError;
    }
    if ph.pType != 1 {
      SkipAdvances(elf, file, i, rs, m.ram[..]);
      return ElfResult.Success;
    }
    if ph.pVaddr < REAL_MODE_LIMIT {
      return LoadOnReservedMemory;
    }
    var intersects := IsIntersectingUsedMemregions(ph, memRegions);
    if intersects {
      return LoadOnReservedMemory;
    }
    InsertionAdvances(elf, file, i, rs);
    ghost var mid := m.ram[..];
    result := LoadAccepted(m, memRegions, elf, ph, chain);
    SegmentUntouched(was, mid, m.ram[..], elf, file, i, buffer, top);
  }

  lemma HeaderUntouched(was: seq<U8>, now: seq<U8>, elf: ElfFile, file: seq<U8>, i: nat, buffer: nat, top: int)
    requires |was| == |now| && forall a :: 0 <= a < |now| && !InScratch(a, buffer, top) ==> now[a] == was[a]
    ensures Untouched(was, now, elf, file, i, i + 1, buffer, top)
  {
  }

  lemma SegmentUntouched(was: seq<U8>, mid: seq<U8>, now: seq<U8>, elf: ElfFile, file: seq<U8>, i: nat, buffer: nat,
                         top: int)
    requires Untouched(was, mid, elf, file, i, i + 1, buffer, top) && |mid| == |now| && IsLoadAt(file, elf.table, i)
    requires var ph := HeaderAt(file, elf.table, i).value;
      forall a :: 0 <= a < |now| && !(ph.pVaddr <= a < ph.pVaddr + ph.pMemsz) && !InScratch(a, buffer, top) ==>
        now[a] == mid[a]
    ensures Untouched(was, now, elf, file, i, i + 1, buffer, top)
  {
    hide HeaderAt;
    var ph := HeaderAt(file, elf.table, i).value;
    forall a | 0 <= a < |now| && !InScratch(a, buffer, top) && !LoadedFrom(file, elf.table, i, i + 1, a)
      ensures now[a] == was[a]
    {
      assert !Loaded(file, elf.table, i, a);
    }
  }

  /** What was loaded, in terms of the records of the table. */
  lemma TablesLoad(ram: seq<U8>, file: seq<U8>, elf: ElfFile, was: seq<Region>)
    requires Loadable(file, elf.table, 0, elf.entryCount, was)
    ensures forall phs :: TableIs(file, elf.table, phs) && |phs| == elf.entryCount ==>
      && (Load(file, elf.table, 0, elf.entryCount, was).0 == ElfResult.Success <==> LoadsTable(file, phs, was))
      && (AllPlaced(ram, file, elf.table, elf.entryCount) ==> InMemory(ram, file, phs))
  {
    hide TableIs, LoadsTable, InMemory, Load, Loadable, AllPlaced, TypeAt;
    forall phs | TableIs(file, elf.table, phs) && |phs| == elf.entryCount
      ensures Load(file, elf.table, 0, elf.entryCount, was).0 == ElfResult.Success <==> LoadsTable(file, phs, was)
      ensures AllPlaced(ram, file, elf.table, elf.entryCount) ==> InMemory(ram, file, phs)
    {
      TableLoadsExactly(file, elf.table, phs, was);
      if AllPlaced(ram, file, elf.table, elf.entryCount) {
        PlacedInMemory(ram, file, elf.table, phs);
      }
    }
  }

  /** `elf_load` */
  method ElfLoad(m: Memory, memRegions: RegionMap, elf: ElfFile, buffer: nat, ghost chain: seq<U32>)
    returns (result: ElfResult)
    requires Loads(m, elf, chain) && STACK_BASE <= buffer && buffer + HEADER_SIZE <= STACK_TOP
    requires memRegions.Valid()
    requires Loadable(Contents(m.disk, elf.fat, chain), elf.table, 0, elf.entryCount, memRegions.Regions())
    modifies m`extTop, m.ram, memRegions, memRegions.nodes
    ensures m.Valid() && memRegions.Valid()
    ensures result != ElfResult.Panic ==> m.extTop == old(m.extTop)
    ensures var file, was, now := Contents(m.disk, elf.fat, chain), old(memRegions.Regions()), memRegions.Regions();
      && Untouched(old(m.ram[..]), m.ram[..], elf, file, 0, elf.entryCount, buffer, old(m.extTop))
      && (result == ElfResult.Success ==>
            && Load(file, elf.table, 0, elf.entryCount, was) == (result, now)
            && AllPlaced(m.ram[..], file, elf.table, elf.entryCount))
      && (m.disk.Working() && old(RoomToRead(m, elf.fat)) ==>
            Load(file, elf.table, 0, elf.entryCount, was) == (result, now))
    ensures var file := Contents(m.disk, elf.fat, chain);
      forall phs :: TableIs(file, elf.table, phs) && |phs| == elf.entryCount ==>
        && (result == ElfResult.Success ==> InMemory(m.ram[..], file, phs))
        && (m.disk.Working() && old(RoomToRead(m, elf.fat)) ==>
              (result == ElfResult.Success <==> LoadsTable(file, phs, old(memRegions.Regions()))))
  {
    hide Contents, ClusterSize, ChunkFits, IsChain, RegionMap.Valid, RegionMap.Regions, TableIs, InMemory, LoadsTable;
    hide Load, Loadable, LoadedFrom, IsLoadAt, HeaderAt, TypeAt, Untouched, PlacedAt, Placed, Sane;
    ghost var file, was, before := Contents(m.disk, elf.fat, chain), memRegions.Regions(), m.ram[..];
    ghost var top := m.extTop;
    UntouchedAtFirst(before, elf, file, buffer, top);
    var i: U16 := 0;
    while i < elf.entryCount
      invariant i <= elf.entryCount && Loads(m, elf, chain) && memRegions.Valid() && m.extTop == top
      invariant forall i :: 0 <= i < |memRegions.nodes| ==>
        memRegions.nodes[i] in old(memRegions.nodes) || fresh(memRegions.nodes[i])
      invariant Loadable(file, elf.table, i, elf.entryCount, memRegions.Regions())
      invariant var now := memRegions.Regions();
        Load(file, elf.table, i, elf.entryCount, now) == Load(file, elf.table, 0, elf.entryCount, was)
      invariant Done(m.ram[..], elf, file, i, memRegions.Regions())
      invariant Untouched(before, m.ram[..], elf, file, 0, i, buffer, top)
    {
      ghost var mid, rs := m.ram[..], memRegions.Regions();
      result := LoadEntry(m, memRegions, elf, i, buffer, chain);
      UntouchedStep(before, mid, m.ram[..], elf, file, i, buffer, top);
      if result != ElfResult.Success {
        UntouchedLater(before, m.ram[..], elf, file, i + 1, elf.entryCount, buffer, top);
        TablesLoad(m.ram[..], file, elf, was);
        return;
      }
      DoneStep(mid, m.ram[..], elf, file, i, rs, memRegions.Regions(), buffer, top);
      i := i + 1;
    }
    LoadNothing(file, elf.table, elf.entryCount, memRegions.Regions());
    TablesLoad(m.ram[..], file, elf, was);
    return ElfResult.Success;
  }
}
