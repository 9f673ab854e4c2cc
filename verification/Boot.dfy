/**
 * The boot sequence from a path to a loaded executable: the file is opened and checked, the memory map is
 * built, and the segments are loaded.
 */
module Boot {
  import opened Words
  import opened Paths
  import opened Machine
  import opened Geometry
  import opened FatFile
  import opened Directory
  import opened FileOpen
  import opened Regions
  import opened RegionList
  import opened MemoryMap
  import opened ElfMap
  import opened Elf

  datatype BootResult =
    Booted | OpenFailed(fatResult: FatResult) | ElfFailed(elfResult: ElfResult) | NoMemoryMap | NoRsdp

  // ----- the specification -----

  /** The file a path names has a chain. */
  ghost predicate Stored(disk: Disk, fat: Fat, path: seq<U8>)
    requires fat.rootDirSectors <= fat.firstDataSector && Walkable(disk, fat, Segments(path, 0))
  {
    var found := Walk(disk, fat, Segments(path, 0));
    Verdict(found) == FatResult.Success ==> HasChain(disk, fat, found.value.FirstCluster())
  }

  /** The bytes of the file a path names, up to the end of its last cluster. */
  ghost function FileAt(disk: Disk, fat: Fat, path: seq<U8>): Option<seq<U8>>
    requires fat.rootDirSectors <= fat.firstDataSector && Walkable(disk, fat, Segments(path, 0))
    requires Stored(disk, fat, path)
  {
    var found := Walk(disk, fat, Segments(path, 0));
    if Verdict(found) != FatResult.Success then None
    else Some(Contents(disk, fat, ChainOf(disk, fat, found.value.FirstCluster())))
  }

  /** The outcome for a file, given the firmware's memory layout and whether its RSDP was found. */
  ghost function LoadOutcome(file: seq<U8>, raws: seq<RawRegion>, rsdp: bool): BootResult
    requires InOrder(NonEmpty(raws))
  {
    if OpenVerdict(file) != ElfResult.Success then ElfFailed(OpenVerdict(file))
    else if raws == [] then NoMemoryMap
    else if !rsdp then NoRsdp
    else
      var header := HeaderOf(file).value;
      var result := Load(file, header.table, 0, header.entryCount, MapOf(NonEmpty(raws))).0;
      if result == ElfResult.Success then Booted else ElfFailed(result)
  }

  /** An address of a loaded segment. */
  ghost predicate LoadedBy(file: seq<U8>, a: int) {
    && HeaderOf(file).Some?
    && LoadedFrom(file, HeaderOf(file).value.table, 0, HeaderOf(file).value.entryCount, a)
  }

  /** The firmware reported the address as usable, or it lies in a gap between two usable regions, which the
      padding of the map made usable. */
  ghost predicate ReportedUsable(rs: seq<Region>, a: int) {
    || (exists i :: 0 <= i < |rs| && rs[i].Has(a) && rs[i].ty == Usable)
    || (exists i, j :: 0 <= i && j == i + 1 && j < |rs| && rs[i].End() <= a < rs[j].base
                       && rs[i].ty == Usable && rs[j].ty == Usable)
  }

  lemma InSomeGap(rs: seq<Region>, a: int)
    requires rs != [] && rs[0].base <= a < rs[|rs| - 1].End()
    ensures (exists i :: 0 <= i < |rs| && rs[i].Has(a))
      || (exists i, j :: 0 <= i && j == i + 1 && j < |rs| && rs[i].End() <= a < rs[j].base)
    decreases |rs|
  {
    var n := |rs| - 1;
    if a >= rs[n].base {
      assert rs[n].Has(a);
    } else if a >= rs[n - 1].End() {
      assert rs[n - 1].End() <= a < rs[n].base;
    } else {
      InSomeGap(rs[..n], a);
      if i :| 0 <= i < n && rs[..n][i].Has(a) {
        assert rs[i].Has(a);
      } else {
        var i, j :| 0 <= i && j == i + 1 && j < n && rs[..n][i].End() <= a < rs[..n][j].base;
        assert rs[i].End() <= a < rs[j].base;
      }
    }
  }

  /** Where the finished map says usable, the firmware did. */
  lemma UsableWasReported(rs: seq<Region>, a: int)
    requires InOrder(rs) && TypeAt(MapOf(rs), a) == Some(Usable)
    ensures REAL_MODE_LIMIT <= a && ReportedUsable(rs, a)
  {
    MapRefinesFirmware(rs);
    hide MapOf, TypeAt;
    InSomeGap(rs, a);
    if i :| 0 <= i < |rs| && rs[i].Has(a) {
      assert rs[i].ty == Usable;
    } else {
      var i, j :| 0 <= i && j == i + 1 && j < |rs| && rs[i].End() <= a < rs[j].base;
      assert Filler(rs[i].ty, rs[j].ty) == Usable;
    }
  }

  /** A region the firmware reported as usable has the address. */
  ghost predicate Reported(rs: seq<Region>, a: int) {
    exists i :: 0 <= i < |rs| && rs[i].Has(a) && rs[i].ty == Usable
  }

  /** No two consecutive usable regions leave a gap above real-mode memory. */
  ghost predicate NoUsableGap(rs: seq<Region>) {
    forall i, j :: 0 <= i && j == i + 1 && j < |rs| && rs[i].ty == Usable && rs[j].ty == Usable ==>
      REAL_MODE_LIMIT < rs[j].base ==> rs[i].End() == rs[j].base
  }

  lemma InGapNotReported(rs: seq<Region>, i: nat, a: int)
    requires InOrder(rs) && i + 1 < |rs| && rs[i].End() <= a < rs[i + 1].base
    ensures !Reported(rs, a)
  {
    forall k | 0 <= k < |rs| ensures !rs[k].Has(a) {
      assert rs[i].Fits() && rs[k].Fits();
      if k < i {
        assert rs[k].End() <= rs[i].base;
      } else if k > i + 1 {
        assert rs[i + 1].End() <= rs[k].base;
      }
    }
  }

  /** All usable memory of the finished map was reported usable exactly when no two consecutive usable regions leave a
      gap above real-mode memory; what was reported usable there is usable always. */
  lemma UsableExactly(rs: seq<Region>)
    requires InOrder(rs)
    ensures forall a :: REAL_MODE_LIMIT <= a && Reported(rs, a) ==> TypeAt(MapOf(rs), a) == Some(Usable)
    ensures (forall a :: TypeAt(MapOf(rs), a) == Some(Usable) ==> Reported(rs, a)) <==> NoUsableGap(rs)
  {
    MapRefinesFirmware(rs);
    hide MapOf, TypeAt, InOrder;
    if NoUsableGap(rs) {
      forall a | TypeAt(MapOf(rs), a) == Some(Usable) ensures Reported(rs, a) {
        UsableWasReported(rs, a);
      }
    } else {
      var i, j :| 0 <= i && j == i + 1 && j < |rs| && rs[i].ty == Usable && rs[j].ty == Usable
                  && REAL_MODE_LIMIT < rs[j].base && rs[i].End() != rs[j].base;
      var a := GapAddress(rs, i);
      assert TypeAt(MapOf(rs), a) == Some(Filler(rs[i].ty, rs[j].ty));
      InGapNotReported(rs, i, a);
    }
  }

  lemma GapAddress(rs: seq<Region>, i: nat) returns (a: int)
    requires InOrder(rs) && i + 1 < |rs| && rs[i].End() != rs[i + 1].base && REAL_MODE_LIMIT < rs[i + 1].base
    ensures rs[i].End() <= a < rs[i + 1].base && REAL_MODE_LIMIT <= a
  {
    assert rs[i].End() <= rs[i + 1].base;
    a := if rs[i].End() < REAL_MODE_LIMIT then REAL_MODE_LIMIT else rs[i].End();
  }

  /** Two usable regions with a gap of 1 MiB: the gap becomes usable, and nobody reported it. */
  lemma GapBecomesUsable()
    ensures var rs := [Region(0x20_0000, 0x10_0000, Usable, false), Region(0x40_0000, 0x10_0000, Usable, false)];
      InOrder(rs) && TypeAt(MapOf(rs), 0x30_0000) == Some(Usable) && !Reported(rs, 0x30_0000)
  {
    var rs := [Region(0x20_0000, 0x10_0000, Usable, false), Region(0x40_0000, 0x10_0000, Usable, false)];
    assert InOrder(rs);
    hide MapOf, TypeAt;
    MapRefinesFirmware(rs);
    InGapNotReported(rs, 0, 0x30_0000);
    assert rs[0].End() <= 0x30_0000 < rs[1].base && Filler(rs[0].ty, rs[1].ty) == Usable;
  }

  /** Without such gaps every loaded address was reported usable. */
  lemma LoadedWasReported(file: seq<U8>, raws: seq<RawRegion>, rsdp: bool)
    requires HeaderOf(file).Some? && InOrder(NonEmpty(raws)) && LoadOutcome(file, raws, rsdp) == Booted
    requires var header := HeaderOf(file).value;
      Loadable(file, header.table, 0, header.entryCount, MapOf(NonEmpty(raws)))
    requires NoUsableGap(NonEmpty(raws))
    ensures forall a :: LoadedBy(file, a) ==> Reported(NonEmpty(raws), a)
  {
    hide Load, Loadable, LoadedFrom, MapOf, InOrder, TypeAt, FullMap, HeaderOf, NoUsableGap, Reported;
    var header, given := HeaderOf(file).value, MapOf(NonEmpty(raws));
    LoadKeepsMapExact(file, header.table, 0, header.entryCount, given);
    UsableExactly(NonEmpty(raws));
  }

  /** A boot that gets as far as the file succeeds exactly when the header is valid, there is a memory layout and an
      RSDP, and every segment exists, is free in the finished map and shares no address with another one. */
  lemma BootsExactly(file: seq<U8>, raws: seq<RawRegion>, rsdp: bool)
    requires InOrder(NonEmpty(raws))
    requires OpenVerdict(file) == ElfResult.Success ==>
      var header := HeaderOf(file).value;
      Loadable(file, header.table, 0, header.entryCount, MapOf(NonEmpty(raws)))
    ensures LoadOutcome(file, raws, rsdp) == Booted <==>
      && OpenVerdict(file) == ElfResult.Success && raws != [] && rsdp
      && var header := HeaderOf(file).value;
         LoadsAll(file, header.table, header.entryCount, MapOf(NonEmpty(raws)))
  {
    hide Load, Loadable, LoadsAll, MapOf, InOrder, HeaderOf;
    if OpenVerdict(file) == ElfResult.Success {
      var header := HeaderOf(file).value;
      LoadSucceedsExactly(file, header.table, header.entryCount, MapOf(NonEmpty(raws)));
    }
  }

  /** What a successful boot leaves in the map: executable exactly on the segments, which the firmware had
      reported usable and which lie above real-mode memory; everything else as before. */
  lemma ImageInUsableMemory(file: seq<U8>, raws: seq<RawRegion>, rsdp: bool)
    requires HeaderOf(file).Some? && InOrder(NonEmpty(raws)) && LoadOutcome(file, raws, rsdp) == Booted
    requires var header := HeaderOf(file).value;
      Loadable(file, header.table, 0, header.entryCount, MapOf(NonEmpty(raws)))
    ensures var header, given := HeaderOf(file).value, MapOf(NonEmpty(raws));
      var out := Load(file, header.table, 0, header.entryCount, given).1;
      && FullMap(out)
      && forall a :: TypeAt(out, a) == if LoadedBy(file, a) then Some(ElfExecutable) else TypeAt(given, a)
    ensures forall a :: LoadedBy(file, a) ==> REAL_MODE_LIMIT <= a && ReportedUsable(NonEmpty(raws), a)
  {
    hide Load, Loadable, LoadedFrom, MapOf, InOrder, TypeAt, FullMap, HeaderOf;
    var header, given := HeaderOf(file).value, MapOf(NonEmpty(raws));
    LoadKeepsMapExact(file, header.table, 0, header.entryCount, given);
    forall a | LoadedBy(file, a) ensures REAL_MODE_LIMIT <= a && ReportedUsable(NonEmpty(raws), a) {
      UsableWasReported(NonEmpty(raws), a);
    }
  }

  // ----- the code -----

  /** The loader's preconditions on the file: readable headers and segments, and bounds that differ from those
      of the map's regions and of one another. */
  ghost predicate FileReady(m: Memory, fat: Fat, entry: DirEntry, raws: seq<RawRegion>)
    requires InOrder(NonEmpty(raws)) && HasChain(m.disk, fat, entry.FirstCluster())
    reads m
  {
    var chain := ChainOf(m.disk, fat, entry.FirstCluster());
    var file := Contents(m.disk, fat, chain);
    OpenVerdict(file) == ElfResult.Success ==>
      var h := HeaderOf(file).value;
      && Loads(m, ElfFile(fat, entry, h.table, h.entryCount, h.entrySize), chain)
      && Loadable(file, h.table, 0, h.entryCount, MapOf(NonEmpty(raws)))
  }

  /** A volume with well-formed directories on the way, a well-formed file, and an ordered memory layout. */
  ghost predicate Ready(m: Memory, fat: Fat, path: seq<U8>, raws: seq<RawRegion>)
    reads m
  {
    && Volume(m, fat) && ClusterSize(fat) > 0 && 0 !in path && Walkable(m.disk, fat, Segments(path, 0))
    && Stored(m.disk, fat, path) && InOrder(NonEmpty(raws))
    && fat.bpb.bytesPerSector > ELF_HEADER_SIZE && ELF_HEADER_SIZE + ClusterSize(fat) <= LIMIT32
    && var found := Walk(m.disk, fat, Segments(path, 0));
       Verdict(found) == FatResult.Success ==> FileReady(m, fat, found.value, raws)
  }

  /** The outcome for a path. */
  ghost function Outcome(disk: Disk, fat: Fat, path: seq<U8>, raws: seq<RawRegion>, rsdp: bool): BootResult
    requires fat.rootDirSectors <= fat.firstDataSector && Walkable(disk, fat, Segments(path, 0))
    requires Stored(disk, fat, path) && InOrder(NonEmpty(raws))
  {
    var found := Walk(disk, fat, Segments(path, 0));
    match FileAt(disk, fat, path)
    case None => OpenFailed(Verdict(found))
    case Some(file) => LoadOutcome(file, raws, rsdp)
  }

  /** What a successful boot leaves: every segment in memory, and a map that says so, in memory reported usable. */
  ghost predicate Image(ram: seq<U8>, rs: seq<Region>, file: seq<U8>, raws: seq<RawRegion>)
    requires InOrder(NonEmpty(raws))
  {
    && HeaderOf(file).Some?
    && AllPlaced(ram, file, HeaderOf(file).value.table, HeaderOf(file).value.entryCount)
    && FullMap(rs)
    && (forall a ::
          TypeAt(rs, a) == if LoadedBy(file, a) then Some(ElfExecutable) else TypeAt(MapOf(NonEmpty(raws)), a))
    && (forall a :: LoadedBy(file, a) ==> REAL_MODE_LIMIT <= a && ReportedUsable(NonEmpty(raws), a))
    && (NoUsableGap(NonEmpty(raws)) ==> forall a :: LoadedBy(file, a) ==> Reported(NonEmpty(raws), a))
  }

  /** A file that starts with this ELF header and has these program headers boots exactly when header, map, RSDP and
      program headers allow it, and then all its segments are in memory. */
  lemma BootsRecordsExactly(file: seq<U8>, r: ElfRecord, phs: seq<ProgramHeader>, raws: seq<RawRegion>, rsdp: bool,
                            ram: seq<U8>, rs: seq<Region>)
    requires r.Sized() && |file| >= 52 && file[..52] == r.Encoded()
    requires TableIs(file, r.programHeaderTable, phs) && |phs| == r.programEntryCount && InOrder(NonEmpty(raws))
    requires r.IsExecutable() ==> Loadable(file, r.programHeaderTable, 0, |phs|, MapOf(NonEmpty(raws)))
    ensures LoadOutcome(file, raws, rsdp) == Booted <==>
      r.IsExecutable() && raws != [] && rsdp && LoadsTable(file, phs, MapOf(NonEmpty(raws)))
    ensures Image(ram, rs, file, raws) ==> InMemory(ram, file, phs)
  {
    hide Load, Loadable, LoadsTable, MapOf, InOrder, TableIs, InMemory, AllPlaced, ParseElfHeader;
    hide ElfRecord.IsExecutable, OpenVerdict, FullMap, TypeAt, Reported, ReportedUsable, NoUsableGap;
    OpensExactly(file, r);
    ElfHeaderInvertsEncoding(r);
    if r.IsExecutable() {
      TableLoadsExactly(file, r.programHeaderTable, phs, MapOf(NonEmpty(raws)));
    }
    if Image(ram, rs, file, raws) {
      PlacedInMemory(ram, file, r.programHeaderTable, phs);
    }
  }

  /** A load that succeeded with all segments in memory leaves the image. */
  lemma LoadedImage(ram: seq<U8>, rs: seq<Region>, file: seq<U8>, raws: seq<RawRegion>)
    requires OpenVerdict(file) == ElfResult.Success && raws != [] && InOrder(NonEmpty(raws))
    requires var h, given := HeaderOf(file).value, MapOf(NonEmpty(raws));
      && Loadable(file, h.table, 0, h.entryCount, given) && AllPlaced(ram, file, h.table, h.entryCount)
      && Load(file, h.table, 0, h.entryCount, given) == (ElfResult.Success, rs)
    ensures Image(ram, rs, file, raws)
  {
    hide Load, Loadable, MapOf, InOrder, TypeAt, FullMap, AllPlaced, LoadedBy, ReportedUsable, Reported, NoUsableGap;
    ImageInUsableMemory(file, raws, true);
    if NoUsableGap(NonEmpty(raws)) {
      LoadedWasReported(file, raws, true);
    }
  }

  /** Opens the file a path names, builds the memory map from the firmware's answers, and loads the segments; `rsdp` is
      whether `get_rsdp` succeeds. */
  method BootFrom(m: Memory, fat: Fat, path: seq<U8>, answers: seq<Answer>, rsdp: bool, memRegions: RegionMap,
                  headerBuffer: nat, buffer: nat)
    returns (result: BootResult)
    requires Ready(m, fat, path, Kept(answers))
    requires memRegions.Valid() && memRegions.Regions() == []
    requires STACK_BASE <= headerBuffer && headerBuffer + ELF_HEADER_SIZE <= STACK_TOP
    requires STACK_BASE <= buffer && buffer + HEADER_SIZE <= STACK_TOP
    modifies m`extTop, m.ram, memRegions, memRegions.nodes
    ensures m.Valid() && memRegions.Valid()
    ensures m.disk.Working() && old(RoomToOpen(m, fat)) ==> result == Outcome(m.disk, fat, path, Kept(answers), rsdp)
    ensures result == Booted ==> m.extTop == old(m.extTop) && FileAt(m.disk, fat, path).Some?
    ensures result == Booted ==>
      Image(m.ram[..], memRegions.Regions(), FileAt(m.disk, fat, path).value, Kept(answers))
  {
    hide Contents, ClusterSize, Segments, Walk, Load, Loadable, MapOf, InOrder, TypeAt, FullMap, HeaderOf, Kept;
    hide RegionMap.Valid, RegionMap.Regions, AllPlaced, OpenVerdict;
    hide Image, TableIs, InMemory, LoadsTable, PathLeadsTo, Reads, DirRecord.IsDirectory;
    var status, entry := FatOpen(m, fat, path);
    if status != FatResult.Success {
      return OpenFailed(status);
    }
    ghost var chain := ChainOf(m.disk, fat, entry.FirstCluster());
    ghost var file := Contents(m.disk, fat, chain);
    var checked, header := ElfOpen(m, fat, entry, headerBuffer, chain);
    if checked != ElfResult.Success {
      return ElfFailed(checked);
    }
    var extracted := GetMemRegions(memRegions, answers);
    if extracted == EmptyMemoryLayout {
      return NoMemoryMap;
    }
    if !rsdp {
      return NoRsdp;
    }
    var elf := ElfFile(fat, entry, header.table, header.entryCount, header.entrySize);
    var loaded := ElfLoad(m, memRegions, elf, buffer, chain);
    if loaded != ElfResult.Success {
      return ElfFailed(loaded);
    }
    LoadedImage(m.ram[..], memRegions.Regions(), file, Kept(answers));
    return Booted;
  }
}
