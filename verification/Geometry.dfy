/** The layout of a FAT volume as `fat_mount` derives it from the BIOS parameter block. */
module Geometry {
  import opened Words
  import opened Arithmetic

  datatype FatType = Fat12 | Fat16 | Fat32

  /** The fields of the parameter block the code uses (sections 3.1 to 3.3 of the Microsoft FAT Specification). */
  datatype Bpb = Bpb(
    bytesPerSector: U16,
    sectorsPerCluster: U8,
    reservedSectors: U16,
    numFats: U8,
    rootEntryCount: U16,
    totalSectors16: U16,
    fatSize16: U16,
    totalSectors32: U32,
    fatSize32: U32,
    rootCluster: U32)

  datatype Fat = Fat(
    ty: FatType,
    firstFatSector: U32,
    firstDataSector: U32,
    rootDirSectors: U16,
    totalSectors: U32,
    clusterCount: U32,
    fatSize: U32,
    bpb: Bpb)

  function GetFatType(clusterCount: U32): FatType {
    if clusterCount < 4085 then Fat12
    else if clusterCount < 65525 then Fat16
    else Fat32
  }

  function GetRootDirSectors(b: Bpb): U16 {
    if b.bytesPerSector == 0 then 0
    else (Wrap32(b.rootEntryCount * 32 + (b.bytesPerSector - 1)) / b.bytesPerSector) % 0x1_0000
  }

  function GetFirstDataSector(b: Bpb, fatSize: U32, rootDirSectors: U16): U32 {
    Wrap32(b.reservedSectors + b.numFats * fatSize + rootDirSectors)
  }

  function GetTotalSectors(b: Bpb): U32 {
    if b.totalSectors16 != 0 then b.totalSectors16 else b.totalSectors32
  }

  function GetFatSize(b: Bpb): U32 {
    if b.fatSize16 != 0 then b.fatSize16 else b.fatSize32
  }

  function GetCountOfClusters(b: Bpb, totalSectors: U32, firstDataSector: U32): U32 {
    var dataSectors := Wrap32(totalSectors - firstDataSector);
    if b.sectorsPerCluster == 0 then 0 else DivLe(dataSectors, b.sectorsPerCluster); dataSectors / b.sectorsPerCluster
  }

  /** The record `fat_mount` fills in. */
  function Mount(b: Bpb): Fat {
    var fatSize := GetFatSize(b);
    var totalSectors := GetTotalSectors(b);
    var rootDirSectors := GetRootDirSectors(b);
    var firstDataSector := GetFirstDataSector(b, fatSize, rootDirSectors);
    var clusterCount := GetCountOfClusters(b, totalSectors, firstDataSector);
    Fat(GetFatType(clusterCount), b.reservedSectors, firstDataSector, rootDirSectors, totalSectors, clusterCount,
        fatSize, b)
  }

  /** `cluster_to_lba`, in uint32_t arithmetic. */
  function ClusterToLba(fat: Fat, cluster: U32): U32 {
    Wrap32(fat.firstDataSector + Wrap32(cluster - 2) * fat.bpb.sectorsPerCluster)
  }

  /** Non-zero sizes and a data area that starts inside the volume. */
  ghost predicate WellFormed(b: Bpb) {
    && b.bytesPerSector > 0 && b.sectorsPerCluster > 0
    && b.reservedSectors + b.numFats * GetFatSize(b) + GetRootDirSectors(b) <= GetTotalSectors(b)
  }

  /** Cluster numbers the volume has. */
  predicate InData(fat: Fat, cluster: int) {
    2 <= cluster < fat.clusterCount + 2
  }

  /** What the reader relies on: no data cluster wraps, and all lie inside the volume. */
  ghost predicate Sound(fat: Fat) {
    && fat.bpb.bytesPerSector > 0 && fat.bpb.sectorsPerCluster > 0
    && fat.firstDataSector + fat.clusterCount * fat.bpb.sectorsPerCluster <= fat.totalSectors
  }

  lemma MountSound(b: Bpb)
    requires WellFormed(b)
    ensures var fat := Mount(b);
      && Sound(fat)
      && fat.firstDataSector == b.reservedSectors + b.numFats * fat.fatSize + fat.rootDirSectors
  {
    hide Wrap32, GetRootDirSectors, GetFatSize;
    var first: int := b.reservedSectors + b.numFats * GetFatSize(b) + GetRootDirSectors(b);
    MulLe(0, b.numFats, GetFatSize(b));
    WrapId(first);
    var spc: nat, data: nat := b.sectorsPerCluster, GetTotalSectors(b) - first;
    WrapId(data);
    DivLe(data, spc);
    assert Mount(b).clusterCount == data / spc;
  }

  /** Every data cluster occupies its own sectors of the data area. */
  lemma ClusterSectors(fat: Fat, c: U32)
    requires Sound(fat) && InData(fat, c)
    ensures var lba := ClusterToLba(fat, c);
      && lba == fat.firstDataSector + (c - 2) * fat.bpb.sectorsPerCluster
      && fat.firstDataSector <= lba && lba + fat.bpb.sectorsPerCluster <= fat.totalSectors
  {
    hide Wrap32;
    var spc: nat := fat.bpb.sectorsPerCluster;
    MulStep(c - 2, fat.clusterCount, spc);
    MulLe(0, c - 2, spc);
    WrapId(c - 2);
    WrapId(fat.firstDataSector + (c - 2) * spc);
  }

  lemma ClustersDisjoint(fat: Fat, c: U32, d: U32)
    requires Sound(fat) && InData(fat, c) && InData(fat, d) && c != d
    ensures var spc := fat.bpb.sectorsPerCluster;
      ClusterToLba(fat, c) + spc <= ClusterToLba(fat, d) || ClusterToLba(fat, d) + spc <= ClusterToLba(fat, c)
  {
    ClusterSectors(fat, c);
    ClusterSectors(fat, d);
    if c < d {
      MulStep(c - 2, d - 2, fat.bpb.sectorsPerCluster);
    } else {
      MulStep(d - 2, c - 2, fat.bpb.sectorsPerCluster);
    }
  }

  /** Geometry of a mounted volume: distinct clusters have disjoint sectors, all behind the reserved, FAT
      and root directory sectors and inside the volume. */
  lemma GeometrySound(b: Bpb, c: U32, d: U32)
    requires WellFormed(b) && InData(Mount(b), c) && InData(Mount(b), d) && c != d
    ensures var fat, spc := Mount(b), b.sectorsPerCluster;
      && b.reservedSectors + b.numFats * GetFatSize(b) + GetRootDirSectors(b) <= ClusterToLba(fat, c)
      && ClusterToLba(fat, c) + spc <= GetTotalSectors(b)
      && (ClusterToLba(fat, c) + spc <= ClusterToLba(fat, d) || ClusterToLba(fat, d) + spc <= ClusterToLba(fat, c))
  {
    MountSound(b);
    ClusterSectors(Mount(b), c);
    ClustersDisjoint(Mount(b), c, d);
  }

  /** The root directory sectors hold all root entries, unless the 16-bit sector count is cut off. */
  lemma RootDirHolds(b: Bpb)
    requires b.bytesPerSector >= 32
    ensures b.rootEntryCount * 32 <= GetRootDirSectors(b) * b.bytesPerSector < b.rootEntryCount * 32 + b.bytesPerSector
  {
    hide Wrap32;
    var x: nat, d: nat := b.rootEntryCount * 32, b.bytesPerSector;
    CeilDiv(x, d);
    WrapId(x + d - 1);
    CeilBelow(x, d, 0x1_0000);
    SmallMod((x + d - 1) / d);
  }

  lemma CeilBelow(x: nat, d: nat, q: nat)
    requires d > 0 && x + d - 1 < q * d
    ensures 0 <= (x + d - 1) / d < q
  {
    DivMod(x + d - 1, d);
    DivLt(x + d - 1, q, d);
  }

  lemma SmallMod(q: nat)
    requires q < 0x1_0000
    ensures q % 0x1_0000 == q
  {
  }
}
