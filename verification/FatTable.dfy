/**
 * The file allocation table: reading one entry off the disk (`fat_next`), following it past a bad
 * marker (`fat_next_not_bad`), and the inverse of the on-disk encoding of section 4.1 of the Microsoft
 * FAT Specification.
 */
module FatTable {
  import opened Words
  import opened Arithmetic
  import opened Geometry
  import opened Machine
  import opened Allocators

  // ----- the encoding -----

  function Width(ty: FatType): nat {
    match ty case Fat12 => 2 case Fat16 => 2 case Fat32 => 4
  }

  /** Bits of an entry that carry the cluster number. */
  function EntryLimit(ty: FatType): nat {
    match ty case Fat12 => 0x1000 case Fat16 => 0x1_0000 case Fat32 => 0x1000_0000
  }

  /** Bytes a table of `n` entries takes. */
  function TableBytes(ty: FatType, n: nat): nat {
    match ty case Fat12 => (3 * n + 1) / 2 case Fat16 => 2 * n case Fat32 => 4 * n
  }

  /** A table: the entries, and for FAT32 the four reserved high bits of each. */
  datatype Table = Table(ty: FatType, entries: seq<nat>, reserved: seq<nat>) {
    ghost predicate Valid() {
      && (forall i :: 0 <= i < |entries| ==> entries[i] < EntryLimit(ty))
      && |reserved| == |entries| && (forall i :: 0 <= i < |reserved| ==> reserved[i] < 16)
    }
  }

  /** The byte at offset `o` of the encoded table. A FAT12 table packs entries 2k and 2k+1 into the three
      bytes 3k, 3k+1 and 3k+2; the others are little-endian words. */
  function EncodedByte(t: Table, o: nat): U8
    requires t.Valid() && o < TableBytes(t.ty, |t.entries|)
  {
    match t.ty
    case Fat12 =>
      var k := o / 3;
      var even, odd := t.entries[2 * k], if 2 * k + 1 < |t.entries| then t.entries[2 * k + 1] else 0;
      if o % 3 == 0 then even % 0x100
      else if o % 3 == 1 then even / 0x100 + odd % 0x10 * 0x10
      else odd / 0x10
    case Fat16 =>
      if o % 2 == 0 then t.entries[o / 2] % 0x100 else t.entries[o / 2] / 0x100
    case Fat32 =>
      var word := t.entries[o / 4] + t.reserved[o / 4] * 0x1000_0000;
      if o % 4 == 0 then word % 0x100
      else if o % 4 == 1 then word / 0x100 % 0x100
      else if o % 4 == 2 then word / 0x1_0000 % 0x100
      else word / 0x100_0000
  }

  // ----- the decoder, on bytes -----

  /** Offset of an entry in the table, in uint32_t arithmetic. */
  function FatOffset(ty: FatType, cluster: U32): U32 {
    match ty
    case Fat12 => Wrap32(cluster + cluster / 2)
    case Fat16 => Wrap32(cluster * 2)
    case Fat32 => Wrap32(cluster * 4)
  }

  /** The entry from the bytes at its offset. */
  function Decode(ty: FatType, cluster: U32, b0: U8, b1: U8, b2: U8, b3: U8): U32 {
    match ty
    case Fat12 => if cluster % 2 == 1 then Le16(b0, b1) / 16 else Le16(b0, b1) % 0x1000
    case Fat16 => Le16(b0, b1)
    case Fat32 => Le32(b0, b1, b2, b3) % 0x1000_0000
  }

  datatype ClusterResult = Valid | End | Bad | DiskFailure | Panicked

  function BadMark(ty: FatType): U32 {
    match ty case Fat12 => 0xFF7 case Fat16 => 0xFFF7 case Fat32 => 0x0FFF_FFF7
  }

  /** Class of an entry. */
  function Classify(ty: FatType, entry: U32): ClusterResult {
    if entry == BadMark(ty) then Bad else if entry > BadMark(ty) then End else Valid
  }

  /** Lowest end mark (section 4.1 of the Microsoft FAT Specification); the number before it marks a bad cluster. */
  function EndMark(ty: FatType): nat {
    match ty case Fat12 => 0xFF8 case Fat16 => 0xFFF8 case Fat32 => 0x0FFF_FFF8
  }

  /** An entry from the end mark on is an end, the one before it a bad marker, and all others are valid. */
  predicate HasClass(ty: FatType, entry: nat, result: ClusterResult) {
    && (result == End <==> entry >= EndMark(ty))
    && (result == Bad <==> entry + 1 == EndMark(ty))
    && result in {Valid, End, Bad}
  }

  /** The byte at offset `o` of the first FAT. */
  function FatByte(disk: Disk, fat: Fat, o: nat): U8 {
    disk.byteAt(fat.firstFatSector * fat.bpb.bytesPerSector + o)
  }

  /** The entry of a cluster as the code reads it. */
  function Entry(disk: Disk, fat: Fat, cluster: U32): U32 {
    var o := FatOffset(fat.ty, cluster);
    Decode(fat.ty, cluster, FatByte(disk, fat, o), FatByte(disk, fat, o + 1), FatByte(disk, fat, o + 2),
           FatByte(disk, fat, o + 3))
  }

  lemma TableOffsets(ty: FatType, cluster: nat, n: nat)
    requires cluster < n && n <= 0x1000_0000
    ensures var o := FatOffset(ty, cluster);
      o + Width(ty) <= TableBytes(ty, n)
      && o == match ty case Fat12 => cluster + cluster / 2 case Fat16 => 2 * cluster case Fat32 => 4 * cluster
  {
  }

  lemma PackedPair(even: nat, odd: nat)
    requires even < 0x1000 && odd < 0x1000
    ensures Le16(even % 0x100, even / 0x100 + odd % 0x10 * 0x10) % 0x1000 == even
    ensures Le16(even / 0x100 + odd % 0x10 * 0x10, odd / 0x10) / 16 == odd
  {
    var low: nat, high: nat, left: nat, right: nat := even % 0x100, even / 0x100, odd % 0x10, odd / 0x10;
    DivMod(even, 0x100);
    DivMod(odd, 0x10);
    PackedWords(low, high, left, right);
  }

  lemma PackedWords(low: nat, high: nat, left: nat, right: nat)
    requires low < 0x100 && high < 0x10 && left < 0x10 && right < 0x100
    ensures Le16(low, high + left * 0x10) % 0x1000 == high * 0x100 + low
    ensures Le16(high + left * 0x10, right) / 16 == right * 0x10 + left
  {
    DivUnique(Le16(low, high + left * 0x10), 0x1000, left, high * 0x100 + low);
    DivUnique(Le16(high + left * 0x10, right), 16, right * 0x10 + left, high);
  }

  lemma Third(k: nat, r: nat)
    requires r < 3
    ensures (3 * k + r) / 3 == k && (3 * k + r) % 3 == r
  {
  }

  lemma Encoded12(t: Table, k: nat)
    requires t.Valid() && t.ty == Fat12 && 2 * k < |t.entries|
    ensures 3 * k + 1 < TableBytes(Fat12, |t.entries|)
    ensures var even, odd := t.entries[2 * k], if 2 * k + 1 < |t.entries| then t.entries[2 * k + 1] else 0;
      && EncodedByte(t, 3 * k) == even % 0x100
      && EncodedByte(t, 3 * k + 1) == even / 0x100 + odd % 0x10 * 0x10
      && (2 * k + 1 < |t.entries| ==>
            3 * k + 2 < TableBytes(Fat12, |t.entries|) && EncodedByte(t, 3 * k + 2) == odd / 0x10)
  {
    Third(k, 0);
    Third(k, 1);
    Third(k, 2);
  }

  lemma Decode12(t: Table, cluster: U32, b2: U8, b3: U8)
    requires t.Valid() && t.ty == Fat12 && cluster < |t.entries|
    requires cluster + cluster / 2 + 1 < TableBytes(Fat12, |t.entries|)
    ensures var o := cluster + cluster / 2;
      Decode(Fat12, cluster, EncodedByte(t, o), EncodedByte(t, o + 1), b2, b3) == t.entries[cluster]
  {
    hide EncodedByte, Le16;
    var k: nat := cluster / 2;
    Encoded12(t, k);
    var even, odd := t.entries[2 * k], if 2 * k + 1 < |t.entries| then t.entries[2 * k + 1] else 0;
    PackedPair(even, odd);
    if cluster % 2 == 0 {
      assert cluster + cluster / 2 == 3 * k && cluster == 2 * k;
    } else {
      assert cluster + cluster / 2 == 3 * k + 1 && cluster == 2 * k + 1;
    }
  }

  lemma Decode16(t: Table, cluster: U32, b2: U8, b3: U8)
    requires t.Valid() && t.ty == Fat16 && cluster < |t.entries|
    ensures var o := 2 * cluster;
      Decode(Fat16, cluster, EncodedByte(t, o), EncodedByte(t, o + 1), b2, b3) == t.entries[cluster]
  {
    var o: nat := 2 * cluster;
    assert o / 2 == cluster && (o + 1) / 2 == cluster && o % 2 == 0 && (o + 1) % 2 == 1;
  }

  lemma Fourth(k: nat, r: nat)
    requires r < 4
    ensures (4 * k + r) / 4 == k && (4 * k + r) % 4 == r
  {
  }

  lemma Encoded32(t: Table, k: nat)
    requires t.Valid() && t.ty == Fat32 && k < |t.entries|
    ensures var w := t.entries[k] + t.reserved[k] * 0x1000_0000;
      && w < LIMIT32
      && EncodedByte(t, 4 * k) == w % 0x100 && EncodedByte(t, 4 * k + 1) == w / 0x100 % 0x100
      && EncodedByte(t, 4 * k + 2) == w / 0x1_0000 % 0x100 && EncodedByte(t, 4 * k + 3) == w / 0x100_0000
  {
    Fourth(k, 0);
    Fourth(k, 1);
    Fourth(k, 2);
    Fourth(k, 3);
  }

  lemma Decode32(t: Table, cluster: U32)
    requires t.Valid() && t.ty == Fat32 && cluster < |t.entries|
    ensures Decode(Fat32, cluster, EncodedByte(t, 4 * cluster), EncodedByte(t, 4 * cluster + 1),
                   EncodedByte(t, 4 * cluster + 2), EncodedByte(t, 4 * cluster + 3)) == t.entries[cluster]
  {
    hide EncodedByte, Le32;
    var e, high := t.entries[cluster], t.reserved[cluster];
    Encoded32(t, cluster);
    SplitWord(e + high * 0x1000_0000);
    DivUnique(e + high * 0x1000_0000, 0x1000_0000, high, e);
  }

  /** The first FAT on the disk holds the encoded table. */
  ghost predicate Holds(disk: Disk, fat: Fat, t: Table) {
    && t.Valid() && t.ty == fat.ty
    && forall o :: 0 <= o < TableBytes(t.ty, |t.entries|) ==> FatByte(disk, fat, o) == EncodedByte(t, o)
  }

  /** `fat_next` returns the entry that was encoded. */
  lemma EntryInvertsEncoding(disk: Disk, fat: Fat, t: Table, cluster: nat)
    requires Holds(disk, fat, t) && cluster < |t.entries| <= 0x1000_0000
    ensures Entry(disk, fat, cluster) == t.entries[cluster]
  {
    hide EncodedByte, Decode;
    TableOffsets(t.ty, cluster, |t.entries|);
    var o := FatOffset(fat.ty, cluster);
    match t.ty
    case Fat12 => Decode12(t, cluster, FatByte(disk, fat, o + 2), FatByte(disk, fat, o + 3));
    case Fat16 => Decode16(t, cluster, FatByte(disk, fat, o + 2), FatByte(disk, fat, o + 3));
    case Fat32 => Decode32(t, cluster);
  }

  /** If one FAT can hold all entries, the bytes of every entry lie in the sectors of the first FAT. */
  lemma EntryInFirstFat(fat: Fat, cluster: nat, i: nat)
    requires fat.bpb.bytesPerSector > 0 && cluster < fat.clusterCount + 2 <= 0x1000_0000 && i < Width(fat.ty)
    requires TableBytes(fat.ty, fat.clusterCount + 2) <= fat.fatSize * fat.bpb.bytesPerSector
    ensures var bps := fat.bpb.bytesPerSector;
      var sector := (fat.firstFatSector * bps + FatOffset(fat.ty, cluster) + i) / bps;
      fat.firstFatSector <= sector < fat.firstFatSector + fat.fatSize
  {
    TableOffsets(fat.ty, cluster, fat.clusterCount + 2);
    hide FatOffset, TableBytes, Width;
    SectorWithin(fat.firstFatSector, fat.fatSize, fat.bpb.bytesPerSector, FatOffset(fat.ty, cluster) + i);
  }

  lemma SectorWithin(first: nat, size: nat, bps: nat, o: nat)
    requires bps > 0 && o < size * bps
    ensures first <= (first * bps + o) / bps < first + size
  {
    DivAdd(first, bps, o);
    DivLt(o, size, bps);
    DivMod(o, bps);
  }

  // ----- the code -----

  /** Sectors of this size hold any entry in two, and any sector number of the table in 32 bits. */
  function MinSector(ty: FatType): nat {
    if ty == Fat32 then 3 else 2
  }

  /** The volume is on this disk, and its sectors are large enough. */
  ghost predicate OnDisk(m: Memory, fat: Fat)
    reads m
  {
    m.Valid() && fat.bpb.bytesPerSector == m.disk.sectorSize >= MinSector(fat.ty) && fat.firstFatSector < 0x1_0000
  }

  /** Scratch memory below `top` is the only memory that changed. */
  twostate predicate OnlyScratch(m: Memory, top: int)
    reads m, m.ram
  {
    forall a :: 0 <= a < m.ram.Length && !(EXTENDED_STACK_LIMIT <= a < top) ==> m.ram[a] == old(m.ram[a])
  }

  /** First of the two sectors read for an entry. */
  function EntrySector(fat: Fat, cluster: U32): nat
    requires fat.bpb.bytesPerSector > 0
  {
    var o: int, bps: int := FatOffset(fat.ty, cluster), fat.bpb.bytesPerSector;
    fat.firstFatSector + o / bps
  }

  /** `fat_next`; on failure the cluster is left as it was. */
  method FatNext(m: Memory, fat: Fat, cluster: U32) returns (result: ClusterResult, next: U32)
    requires OnDisk(m, fat)
    modifies m`extTop, m.ram
    ensures m.Valid() && m.extTop == old(m.extTop) && OnlyScratch(m, m.extTop)
    ensures result == Panicked <==> m.Room() < 2 * m.disk.sectorSize
    ensures result != Panicked ==>
      if m.disk.Readable(EntrySector(fat, cluster), 2) then
        next == Entry(m.disk, fat, cluster) && result == Classify(fat.ty, next)
      else result == DiskFailure
    ensures result in {DiskFailure, Panicked} ==> next == cluster
    ensures result !in {DiskFailure, Panicked} ==> HasClass(fat.ty, next, result)
  {
    hide FatOffset, Decode;
    next := cluster;
    var bps: int := fat.bpb.bytesPerSector;
    var fatOffset := FatOffset(fat.ty, cluster);
    EntryPlace(fat, cluster);
    var fatSector := Wrap32(fat.firstFatSector + fatOffset / bps);
    var entOffset := fatOffset % bps;

    var bufferSize := 2 * bps;
    var pushed, buffer := m.Push(bufferSize);
    if !pushed {
      return Panicked, next;
    }
    var read := m.DiskRead(fatSector, buffer, 2);
    if !read {
      var _ := m.Pop(bufferSize);
      return DiskFailure, next;
    }
    var at := buffer + entOffset;
    assert fatSector * m.disk.sectorSize + entOffset == fat.firstFatSector * bps + fatOffset;
    next := ReadEntry(m, fat, cluster, at);
    result := Classify(fat.ty, next);
    var _ := m.Pop(bufferSize);
  }

  /** The switch over the FAT type that picks the entry out of the buffer. */
  method ReadEntry(m: Memory, fat: Fat, cluster: U32, at: nat) returns (next: U32)
    requires m.Valid() && at + Width(fat.ty) <= m.ram.Length
    requires var o := FatOffset(fat.ty, cluster);
      && m.ram[at] == FatByte(m.disk, fat, o) && m.ram[at + 1] == FatByte(m.disk, fat, o + 1)
      && (fat.ty == Fat32 ==>
            m.ram[at + 2] == FatByte(m.disk, fat, o + 2) && m.ram[at + 3] == FatByte(m.disk, fat, o + 3))
    ensures next == Entry(m.disk, fat, cluster)
  {
    hide FatByte, FatOffset;
    match fat.ty {
      case Fat12 =>
        var value: int := Le16(m.ram[at], m.ram[at + 1]);
        next := if cluster % 2 == 1 then value / 16 else value % 0x1000;
      case Fat16 =>
        next := Le16(m.ram[at], m.ram[at + 1]);
      case Fat32 =>
        var value: int := Le32(m.ram[at], m.ram[at + 1], m.ram[at + 2], m.ram[at + 3]);
        next := value % 0x1000_0000;
    }
  }

  /** The entry's bytes lie inside the two sectors read. */
  lemma EntryPlace(fat: Fat, cluster: U32)
    requires fat.bpb.bytesPerSector >= MinSector(fat.ty) && fat.firstFatSector < 0x1_0000
    ensures var bps, o := fat.bpb.bytesPerSector, FatOffset(fat.ty, cluster);
      && EntrySector(fat, cluster) < LIMIT32
      && EntrySector(fat, cluster) * bps + o % bps == fat.firstFatSector * bps + o
      && o % bps + Width(fat.ty) <= 2 * bps
  {
    var bps: nat, o: nat := fat.bpb.bytesPerSector, FatOffset(fat.ty, cluster);
    DivMod(o, bps);
    DivLt(o, 0x8000_0000, bps);
    assert (fat.firstFatSector + o / bps) * bps == fat.firstFatSector * bps + o / bps * bps;
  }
}
