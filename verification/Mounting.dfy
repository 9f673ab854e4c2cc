/** `fat_mount`: the parameter block read from sector 0 and the volume record derived from it. */
module Mounting {
  import opened Words
  import opened Arithmetic
  import opened Machine
  import opened Geometry
  import opened FatTable
  import opened FileOpen

  /** The buffer is made for the largest sector size. */
  const MAX_SECTOR := 4096

  /** The packed structures `fat_bpb_t` and `fat_bpb_ext_t`, field by field. */
  function ParseBpb(s: seq<U8>): Bpb
    requires |s| >= 48
  {
    Bpb(
      bytesPerSector := Word16(s, 11),
      sectorsPerCluster := s[13],
      reservedSectors := Word16(s, 14),
      numFats := s[16],
      rootEntryCount := Word16(s, 17),
      totalSectors16 := Word16(s, 19),
      fatSize16 := Word16(s, 22),
      totalSectors32 := Word32(s, 32),
      fatSize32 := Word32(s, 36),
      rootCluster := Word32(s, 44))
  }

  /** The start of a boot sector, field by field (sections 3.1 and 3.3 of the Microsoft FAT Specification); behind
      offset 36 FAT12 and FAT16 volumes have other fields, which the code reads in the same places. */
  datatype BootSector = BootSector(
    jmp: seq<U8>,
    oem: seq<U8>,
    bytesPerSector: U16,
    sectorsPerCluster: U8,
    reservedSectors: U16,
    numFats: U8,
    rootEntryCount: U16,
    totalSectors16: U16,
    media: U8,
    fatSize16: U16,
    sectorsPerTrack: U16,
    numHeads: U16,
    hiddenSectors: U32,
    totalSectors32: U32,
    fatSize32: U32,
    extendedFlags: U16,
    fsVersion: U16,
    rootCluster: U32)
  {
    predicate Sized() {
      |jmp| == 3 && |oem| == 8
    }

    /** The sector's first bytes. */
    function Encoded(): (s: seq<U8>)
      requires Sized()
      ensures |s| == 48
    {
      jmp + oem + Bytes16(bytesPerSector) + [sectorsPerCluster] + Bytes16(reservedSectors) + [numFats]
      + Bytes16(rootEntryCount) + Bytes16(totalSectors16) + [media] + Bytes16(fatSize16) + Bytes16(sectorsPerTrack)
      + Bytes16(numHeads) + Bytes32(hiddenSectors) + Bytes32(totalSectors32) + Bytes32(fatSize32)
      + Bytes16(extendedFlags) + Bytes16(fsVersion) + Bytes32(rootCluster)
    }

    /** Sectors of the root directory: as many as its entries of 32 bytes fill, the last one perhaps in part. */
    predicate IsRootSize(sectors: nat) {
      rootEntryCount * 32 <= sectors * bytesPerSector < rootEntryCount * 32 + bytesPerSector
    }

    /** The record of the volume, in the numbers of section 3.5: sizes from their 16-bit fields unless those are 0, the
        areas one behind the other, whole clusters only, and the type by their number alone. Counts are cut to the
        width of their fields, and a size of 0 gives no sectors or clusters. */
    ghost predicate IsVolume(fat: Fat) {
      && fat.fatSize == (if fatSize16 != 0 then fatSize16 else fatSize32)
      && fat.totalSectors == (if totalSectors16 != 0 then totalSectors16 else totalSectors32)
      && fat.firstFatSector == reservedSectors
      && (bytesPerSector == 0 ==> fat.rootDirSectors == 0)
      && (bytesPerSector > 0 ==> exists n: nat :: IsRootSize(n) && fat.rootDirSectors == n % 0x1_0000)
      && fat.firstDataSector == (reservedSectors + numFats * fat.fatSize + fat.rootDirSectors) % 0x1_0000_0000
      && (sectorsPerCluster == 0 ==> fat.clusterCount == 0)
      && (sectorsPerCluster > 0 ==>
            var data := (fat.totalSectors - fat.firstDataSector) % 0x1_0000_0000;
            fat.clusterCount * sectorsPerCluster <= data < (fat.clusterCount + 1) * sectorsPerCluster)
      && (fat.ty == Fat12 <==> fat.clusterCount < 4085) && (fat.ty == Fat32 <==> fat.clusterCount >= 65525)
      && fat.bpb.bytesPerSector == bytesPerSector && fat.bpb.sectorsPerCluster == sectorsPerCluster
      && fat.bpb.rootEntryCount == rootEntryCount && fat.bpb.rootCluster == rootCluster
    }
  }

  /** Parsing picks the fields out of the encoded record. */
  lemma BpbInvertsEncoding(r: BootSector)
    requires r.Sized()
    ensures ParseBpb(r.Encoded()) == BpbOf(r)
  {
    hide Bytes16, Bytes32, Word16, Word32;
    var s := r.Encoded();
    Word16At(s, 11, r.bytesPerSector);
    Word16At(s, 14, r.reservedSectors);
    Word16At(s, 17, r.rootEntryCount);
    Word16At(s, 19, r.totalSectors16);
    Word16At(s, 22, r.fatSize16);
    Word32At(s, 32, r.totalSectors32);
    Word32At(s, 36, r.fatSize32);
    Word32At(s, 44, r.rootCluster);
  }

  /** The fields parsed from a boot sector. */
  function BpbOf(r: BootSector): Bpb {
    Bpb(r.bytesPerSector, r.sectorsPerCluster, r.reservedSectors, r.numFats, r.rootEntryCount, r.totalSectors16,
        r.fatSize16, r.totalSectors32, r.fatSize32, r.rootCluster)
  }

  /** The record filled in is that of the volume the sector describes. */
  lemma MountIsVolume(r: BootSector)
    requires r.Sized()
    ensures r.IsVolume(Mount(ParseBpb(r.Encoded())))
  {
    hide ParseBpb, GetRootDirSectors, BootSector.Encoded;
    BpbInvertsEncoding(r);
    var b, fat := BpbOf(r), Mount(BpbOf(r));
    RootSizeIs(r);
    var data: nat, spc: nat := (fat.totalSectors - fat.firstDataSector) % 0x1_0000_0000, b.sectorsPerCluster;
    if spc > 0 {
      DivMod(data, spc);
      MulAdd(data / spc, 1, spc);
      assert fat.clusterCount == data / spc;
    }
  }

  lemma RootSizeIs(r: BootSector)
    ensures r.bytesPerSector == 0 ==> GetRootDirSectors(BpbOf(r)) == 0
    ensures r.bytesPerSector > 0 ==>
      exists n: nat :: r.IsRootSize(n) && GetRootDirSectors(BpbOf(r)) == n % 0x1_0000
  {
    hide Wrap32;
    if r.bytesPerSector > 0 {
      var x: nat, d: nat := r.rootEntryCount * 32, r.bytesPerSector;
      CeilDiv(x, d);
      WrapId(x + d - 1);
      assert r.IsRootSize((x + d - 1) / d);
    }
  }

  function BootByte(disk: Disk, i: nat): U8 {
    disk.byteAt(i)
  }

  /** The first bytes of sector 0. */
  function BootRecord(disk: Disk): (s: seq<U8>)
    ensures |s| == 48
  {
    seq(48, i requires 0 <= i => BootByte(disk, i))
  }

  /** Sector 0 starts with this record. */
  ghost predicate BeginsWith(disk: Disk, r: BootSector) {
    r.Sized() && forall i :: 0 <= i < 48 ==> disk.byteAt(i) == r.Encoded()[i]
  }

  lemma MountedFrom(disk: Disk)
    ensures forall r :: BeginsWith(disk, r) ==> r.IsVolume(Mount(ParseBpb(BootRecord(disk))))
  {
    hide BootSector.Encoded, BootSector.IsVolume, Mount, ParseBpb;
    forall r | BeginsWith(disk, r) ensures r.IsVolume(Mount(ParseBpb(BootRecord(disk)))) {
      assert BootRecord(disk) == r.Encoded();
      MountIsVolume(r);
    }
  }

  datatype MountResult = Mounted(fat: Fat) | ReadFailed | Halted

  /** `fat_mount` */
  method FatMount(m: Memory) returns (result: MountResult)
    requires m.Valid() && 48 <= m.disk.sectorSize <= MAX_SECTOR
    modifies m`extTop, m.ram
    ensures m.Valid() && m.extTop == old(m.extTop) && OnlyScratch(m, m.extTop)
    ensures result == if m.Room() < MAX_SECTOR then Halted
      else if m.disk.bad(0) then ReadFailed
      else Mounted(Mount(ParseBpb(BootRecord(m.disk))))
    ensures result.Mounted? ==> forall r :: BeginsWith(m.disk, r) ==> r.IsVolume(result.fat)
  {
    hide ParseBpb, Mount, BeginsWith, BootSector.IsVolume;
    MountedFrom(m.disk);
    var pushed, buffer := m.Push(MAX_SECTOR);
    if !pushed {
      return Halted;
    }
    var read := m.DiskRead(0, buffer, 1);
    if !read {
      var _ := m.Pop(MAX_SECTOR);
      return ReadFailed;
    }
    var record := m.ram[buffer..buffer + 48];
    assert record == BootRecord(m.disk);
    result := Mounted(Mount(ParseBpb(record)));
    var _ := m.Pop(MAX_SECTOR);
  }

  /** A well-formed parameter block whose sectors are the disk's makes a volume the reader can use. */
  lemma MountedIsVolume(m: Memory, b: Bpb)
    requires m.Valid() && WellFormed(b) && b.bytesPerSector == m.disk.sectorSize >= 32
    ensures Volume(m, Mount(b))
  {
    hide GetRootDirSectors, GetFatSize, GetTotalSectors, Wrap32;
    MountSound(b);
    RootDirHolds(b);
    MulLe(0, b.numFats, GetFatSize(b));
  }
}
