/** `fat_read`: a byte range of a file is a slice of the concatenation of the clusters in its chain. */
module FatFile {
  import opened Words
  import opened Arithmetic
  import opened Allocators
  import opened Machine
  import opened Geometry
  import opened FatTable

  datatype FatResult = Success | DiskError | FileNotFound | IsDirectory | OutOfFileBounds | Panic

  /** The fields of a directory entry the code uses (section 6 of the Microsoft FAT Specification). */
  datatype DirEntry = DirEntry(name: seq<U8>, attr: U8, clusterHi: U16, clusterLo: U16, fileSize: U32) {
    function FirstCluster(): U32 {
      clusterHi * 0x1_0000 + clusterLo
    }
  }

  // ----- following a chain -----

  /** The entry reached from a cluster when a bad marker is itself looked up as a cluster. */
  function Follow(disk: Disk, fat: Fat, cluster: U32): U32 {
    var entry := Entry(disk, fat, cluster);
    if entry == BadMark(fat.ty) then Entry(disk, fat, entry) else entry
  }

  /** The look-up does not land on the bad marker twice. */
  predicate Followable(disk: Disk, fat: Fat, cluster: U32) {
    Follow(disk, fat, cluster) != BadMark(fat.ty)
  }

  /** The cluster variable of `fat_next_not_bad` after `n` rounds of its loop. */
  function AfterRounds(disk: Disk, fat: Fat, cluster: U32, n: nat): U32 {
    if n == 0 then cluster else Entry(disk, fat, AfterRounds(disk, fat, cluster, n - 1))
  }

  /** The two sectors read for the entry of a cluster are not both readable. */
  predicate Unreadable(disk: Disk, fat: Fat, cluster: U32)
    requires fat.bpb.bytesPerSector > 0
  {
    !disk.Readable(EntrySector(fat, cluster), 2)
  }

  /** Round `n` ends the loop: its read fails or does not yield a bad marker. */
  ghost predicate EndsAt(disk: Disk, fat: Fat, cluster: U32, n: nat)
    requires fat.bpb.bytesPerSector > 0 && n > 0
  {
    || Unreadable(disk, fat, AfterRounds(disk, fat, cluster, n - 1))
    || AfterRounds(disk, fat, cluster, n) != BadMark(fat.ty)
  }

  /** The cluster is followable, or one of the two reads on the way to find out fails. */
  ghost predicate LoopEnds(disk: Disk, fat: Fat, cluster: U32)
    requires fat.bpb.bytesPerSector > 0
  {
    Followable(disk, fat, cluster) || Unreadable(disk, fat, cluster) || Unreadable(disk, fat, BadMark(fat.ty))
  }

  lemma {:induction false} MarkerForever(disk: Disk, fat: Fat, cluster: U32, n: nat)
    requires !Followable(disk, fat, cluster) && n > 0
    ensures AfterRounds(disk, fat, cluster, n) == BadMark(fat.ty)
  {
    if n > 1 {
      MarkerForever(disk, fat, cluster, n - 1);
    } else {
      assert AfterRounds(disk, fat, cluster, 0) == cluster;
    }
  }

  /** The loop over bad markers ends exactly when the marker's own entry is no marker or a read fails. */
  lemma NotBadTerminates(disk: Disk, fat: Fat, cluster: U32)
    requires fat.bpb.bytesPerSector > 0
    ensures (exists n: nat :: n > 0 && EndsAt(disk, fat, cluster, n)) <==> LoopEnds(disk, fat, cluster)
  {
    assert AfterRounds(disk, fat, cluster, 0) == cluster;
    assert AfterRounds(disk, fat, cluster, 1) == Entry(disk, fat, cluster);
    assert AfterRounds(disk, fat, cluster, 2) == Entry(disk, fat, Entry(disk, fat, cluster));
    if LoopEnds(disk, fat, cluster) {
      assert EndsAt(disk, fat, cluster, 1) || EndsAt(disk, fat, cluster, 2);
    } else {
      forall n: nat | n > 0 ensures !EndsAt(disk, fat, cluster, n) {
        MarkerForever(disk, fat, cluster, n);
        if n > 1 {
          MarkerForever(disk, fat, cluster, n - 1);
        }
      }
    }
  }

  /** A table of nothing but bad markers: the loop never ends. */
  lemma BadMarkedForever(fat: Fat, cluster: U32, n: nat)
    requires fat.ty == Fat16 && fat.bpb.bytesPerSector > 0 && fat.bpb.bytesPerSector % 2 == 0 && n > 0
    ensures var disk := Disk(512, i => if i % 2 == 0 then 0xF7 else 0xFF, _ => false);
      disk.Working() && !EndsAt(disk, fat, cluster, n)
  {
    var disk := Disk(512, i => if i % 2 == 0 then 0xF7 else 0xFF, _ => false);
    hide Entry;
    MarkedEverywhere(disk, fat, cluster);
    MarkedEverywhere(disk, fat, BadMark(Fat16));
    NotBadTerminates(disk, fat, cluster);
  }

  lemma MarkedEverywhere(disk: Disk, fat: Fat, c: U32)
    requires fat.ty == Fat16 && fat.bpb.bytesPerSector > 0 && fat.bpb.bytesPerSector % 2 == 0
    requires forall i: nat :: disk.byteAt(i) == if i % 2 == 0 then 0xF7 else 0xFF
    ensures Entry(disk, fat, c) == BadMark(Fat16)
  {
    hide FatOffset, Decode, FatByte;
    var o: nat := FatOffset(Fat16, c);
    EvenEntry(c);
    MarkBytes(disk, fat, o);
    DecodeMark(c, FatByte(disk, fat, o), FatByte(disk, fat, o + 1), FatByte(disk, fat, o + 2),
               FatByte(disk, fat, o + 3));
  }

  lemma MarkBytes(disk: Disk, fat: Fat, o: nat)
    requires fat.bpb.bytesPerSector % 2 == 0 && o % 2 == 0
    requires forall i: nat :: disk.byteAt(i) == if i % 2 == 0 then 0xF7 else 0xFF
    ensures FatByte(disk, fat, o) == 0xF7 && FatByte(disk, fat, o + 1) == 0xFF
  {
    EvenOffset(fat.firstFatSector, fat.bpb.bytesPerSector);
  }

  lemma DecodeMark(c: U32, b0: U8, b1: U8, b2: U8, b3: U8)
    requires b0 == 0xF7 && b1 == 0xFF
    ensures Decode(Fat16, c, b0, b1, b2, b3) == BadMark(Fat16)
  {
  }

  lemma EvenEntry(c: U32)
    ensures FatOffset(Fat16, c) % 2 == 0
  {
  }

  lemma EvenOffset(sector: nat, bps: nat)
    requires bps % 2 == 0
    ensures sector * bps % 2 == 0
  {
    assert bps == 2 * (bps / 2);
    assert sector * bps == 2 * (sector * (bps / 2));
  }

  /** `fat_next_not_bad` */
  method FatNextNotBad(m: Memory, fat: Fat, cluster: U32) returns (result: ClusterResult, next: U32)
    requires OnDisk(m, fat) && LoopEnds(m.disk, fat, cluster)
    modifies m`extTop, m.ram
    ensures m.Valid() && m.extTop == old(m.extTop) && OnlyScratch(m, m.extTop)
    ensures result == Panicked <==> m.Room() < 2 * m.disk.sectorSize
    ensures result in {Valid, End} ==>
      next == Follow(m.disk, fat, cluster) && result == Classify(fat.ty, next)
    ensures result != Bad
    ensures m.disk.Working() && result != Panicked ==> result in {Valid, End}
  {
    hide Entry, Classify;
    result, next := FatNext(m, fat, cluster);
    ClassifyCases(fat.ty, next);
    while result == Bad
      invariant m.Valid() && m.extTop == old(m.extTop) && OnlyScratch(m, m.extTop)
      invariant result == Panicked <==> m.Room() < 2 * m.disk.sectorSize
      invariant result == Bad ==> next == BadMark(fat.ty) == Entry(m.disk, fat, cluster)
      invariant result == Bad ==> !Unreadable(m.disk, fat, cluster)
      invariant result in {Valid, End} ==> next == Follow(m.disk, fat, cluster) && result == Classify(fat.ty, next)
      invariant m.disk.Working() && result != Panicked ==> result in {Valid, End, Bad}
      decreases result == Bad
    {
      result, next := FatNext(m, fat, next);
      ClassifyCases(fat.ty, next);
    }
  }

  lemma ClassifyCases(ty: FatType, entry: U32)
    ensures Classify(ty, entry) in {Valid, End, Bad}
    ensures Classify(ty, entry) == Bad <==> entry == BadMark(ty)
  {
  }

  /** A chain of data clusters that ends with an end marker. */
  ghost predicate IsChain(disk: Disk, fat: Fat, chain: seq<U32>) {
    && chain != []
    && (forall i :: 0 <= i < |chain| ==> InData(fat, chain[i]) && Followable(disk, fat, chain[i]))
    && (forall i, j :: 0 <= i && j == i + 1 && j < |chain| ==> Follow(disk, fat, chain[i]) == chain[j])
    && (forall i :: 0 < i < |chain| ==> Classify(fat.ty, chain[i]) == Valid)
    && Classify(fat.ty, Follow(disk, fat, chain[|chain| - 1])) == End
  }

  /** The clusters of a file as a table links them: each entry is the number of the next cluster, and the last is an end
      mark. */
  ghost predicate Links(fat: Fat, t: Table, chain: seq<U32>) {
    && chain != []
    && (forall i :: 0 <= i < |chain| ==> 2 <= chain[i] < fat.clusterCount + 2 && chain[i] < |t.entries|)
    && (forall i, j :: 0 <= i && j == i + 1 && j < |chain| ==> t.entries[chain[i]] == chain[j])
    && t.entries[chain[|chain| - 1]] >= EndMark(t.ty)
  }

  /** No cluster on the way has a bad marker for an entry. */
  ghost predicate Unmarked(t: Table, chain: seq<U32>) {
    forall i :: 0 <= i < |chain| ==> chain[i] < |t.entries| && t.entries[chain[i]] + 1 != EndMark(t.ty)
  }

  /** When the disk holds a table for all clusters, whose numbers stay below the marks, the chains without bad markers
      are what the table links. */
  lemma ChainsAreLinks(disk: Disk, fat: Fat, t: Table, chain: seq<U32>)
    requires Holds(disk, fat, t) && fat.clusterCount + 2 <= |t.entries| <= 0x1000_0000
    requires fat.clusterCount + 2 < EndMark(fat.ty)
    ensures Links(fat, t, chain) <==> IsChain(disk, fat, chain) && Unmarked(t, chain)
  {
    hide Holds, Entry;
    TableType(disk, fat, t);
    if forall i :: 0 <= i < |chain| ==> InData(fat, chain[i]) {
      forall i | 0 <= i < |chain| ensures Entry(disk, fat, chain[i]) == t.entries[chain[i]] {
        EntryInvertsEncoding(disk, fat, t, chain[i]);
      }
      if Links(fat, t, chain) {
        LinksUnmarked(fat, t, chain);
      }
    }
  }

  lemma LinksUnmarked(fat: Fat, t: Table, chain: seq<U32>)
    requires Links(fat, t, chain) && t.ty == fat.ty && fat.clusterCount + 2 < EndMark(fat.ty)
    ensures Unmarked(t, chain)
  {
    forall i | 0 <= i < |chain| ensures t.entries[chain[i]] + 1 != EndMark(t.ty) {
      if i + 1 < |chain| {
        assert t.entries[chain[i]] == chain[i + 1];
      }
    }
  }

  lemma TableType(disk: Disk, fat: Fat, t: Table)
    requires Holds(disk, fat, t)
    ensures t.ty == fat.ty
  {
  }

  // ----- the bytes of a file -----

  function ClusterSize(fat: Fat): nat {
    var spc: int, bps: int := fat.bpb.sectorsPerCluster, fat.bpb.bytesPerSector;
    spc * bps
  }

  /** Byte `i` of a cluster. */
  function ClusterByte(disk: Disk, fat: Fat, cluster: U32, i: nat): U8 {
    disk.byteAt(ClusterToLba(fat, cluster) * fat.bpb.bytesPerSector + i)
  }

  function ClusterBytes(disk: Disk, fat: Fat, cluster: U32): (bytes: seq<U8>)
    ensures |bytes| == ClusterSize(fat)
    ensures forall i :: 0 <= i < |bytes| ==> bytes[i] == ClusterByte(disk, fat, cluster, i)
  {
    seq(ClusterSize(fat), i requires 0 <= i => ClusterByte(disk, fat, cluster, i))
  }

  /** The clusters of a chain, one after the other. */
  function Contents(disk: Disk, fat: Fat, chain: seq<U32>): seq<U8> {
    if chain == [] then [] else ClusterBytes(disk, fat, chain[0]) + Contents(disk, fat, chain[1..])
  }

  lemma {:induction false} ContentsAt(disk: Disk, fat: Fat, chain: seq<U32>, p: nat, i: nat)
    requires p < |chain| && i < ClusterSize(fat)
    ensures |Contents(disk, fat, chain)| == |chain| * ClusterSize(fat)
    ensures p * ClusterSize(fat) + i < |Contents(disk, fat, chain)|
    ensures Contents(disk, fat, chain)[p * ClusterSize(fat) + i] == ClusterByte(disk, fat, chain[p], i)
    decreases |chain|
  {
    var n, head, tail := ClusterSize(fat), ClusterBytes(disk, fat, chain[0]), Contents(disk, fat, chain[1..]);
    assert Contents(disk, fat, chain) == head + tail;
    hide ClusterSize, ClusterByte, ClusterBytes;
    MulAdd(1, |chain| - 1, n);
    MulStep(p, |chain|, n);
    if |chain| == 1 {
      assert tail == [];
      hide Contents;
    } else if p == 0 {
      hide Contents;
      ContentsAt(disk, fat, chain[1..], 0, 0);
    } else {
      hide Contents;
      MulAdd(1, p - 1, n);
      ContentsAt(disk, fat, chain[1..], p - 1, i);
      assert chain[1..][p - 1] == chain[p];
      assert (head + tail)[n + ((p - 1) * n + i)] == tail[(p - 1) * n + i];
    }
  }

  /** The range starts in a cluster of the chain and ends inside the chain. */
  predicate InBounds(fat: Fat, chain: seq<U32>, offset: U32, length: U32)
    requires ClusterSize(fat) > 0
  {
    offset / ClusterSize(fat) < |chain| && (length == 0 || offset + length <= |chain| * ClusterSize(fat))
  }

  // ----- one chunk: what one disk read delivers -----

  /** Bytes of the chunk: up to the end of the range or of the cluster. */
  function ChunkLength(fat: Fat, offset: U32, length: U32): int
    requires ClusterSize(fat) > 0
  {
    var inCluster := offset % ClusterSize(fat);
    (if Wrap32(length + inCluster) < ClusterSize(fat) then Wrap32(length + inCluster) else ClusterSize(fat)) - inCluster
  }

  function ChunkSectors(fat: Fat, offset: U32, length: U32): int
    requires ClusterSize(fat) > 0 && fat.bpb.bytesPerSector > 0
  {
    var bps: int := fat.bpb.bytesPerSector;
    (ChunkLength(fat, offset, length) + bps - 1) / bps
  }

  /** The sectors read, counted without the offset inside the first of them, reach the end of the chunk. */
  predicate ChunkFits(fat: Fat, offset: U32, length: U32)
    requires ClusterSize(fat) > 0 && fat.bpb.bytesPerSector > 0
  {
    offset % fat.bpb.bytesPerSector + ChunkLength(fat, offset, length)
      <= ChunkSectors(fat, offset, length) * fat.bpb.bytesPerSector
  }

  /** A byte range inside a cluster and the sectors it is read with. */
  lemma SectorSpan(spc: nat, bps: nat, start: nat, take: nat)
    requires bps > 0 && take > 0 && start + take <= spc * bps
    ensures var skip, sectors := start / bps, (take + bps - 1) / bps;
      && 0 <= skip && 0 < sectors && skip + sectors <= spc && take <= sectors * bps < take + bps
      && start == skip * bps + start % bps
  {
    DivMod(start, bps);
    CeilDiv(take, bps);
    var skip: nat, sectors: nat := start / bps, (take + bps - 1) / bps;
    MulAdd(skip, sectors, bps);
    MulAdd(spc, 1, bps);
    if skip + sectors > spc {
      MulLe(spc + 1, skip + sectors, bps);
    }
    assert sectors == 0 ==> sectors * bps == 0;
  }

  /** The sectors reach the end of the range when it starts on a sector boundary or ends with the cluster. */
  lemma SpanFits(spc: nat, bps: nat, start: nat, take: nat)
    requires bps > 0 && take > 0 && start + take <= spc * bps
    requires start % bps == 0 || start + take == spc * bps
    ensures start % bps + take <= (take + bps - 1) / bps * bps
  {
    SectorSpan(spc, bps, start, take);
    var skip: nat, sectors: nat := start / bps, (take + bps - 1) / bps;
    MulAdd(skip, sectors, bps);
    if start % bps != 0 && sectors < spc - skip {
      // then a whole sector of the range would be missing
      MulStep(skip + sectors, spc, bps);
    }
  }

  lemma ChunkTake(fat: Fat, offset: U32, length: U32)
    requires ClusterSize(fat) > 0 && 0 < length && length + ClusterSize(fat) <= LIMIT32
    ensures var n, start, take := ClusterSize(fat), offset % ClusterSize(fat), ChunkLength(fat, offset, length);
      0 <= start && 0 < take <= length && start + take <= n && (take == length || start + take == n)
  {
    hide Wrap32, ClusterSize;
    var n: nat := ClusterSize(fat);
    WrapId(length + offset % n);
  }

  /** Where a chunk lies in its cluster. */
  lemma ChunkPlace(fat: Fat, offset: U32, length: U32)
    requires Sound(fat) && 0 < length && length + ClusterSize(fat) <= LIMIT32 && ClusterSize(fat) > 0
    ensures var n, bps, start := ClusterSize(fat), fat.bpb.bytesPerSector, offset % ClusterSize(fat);
      var take, sectors := ChunkLength(fat, offset, length), ChunkSectors(fat, offset, length);
      && 0 < take <= length && start + take <= n && (take == length || start + take == n)
      && start % bps == offset % bps && start == start / bps * bps + offset % bps
      && 0 <= start / bps && 0 < sectors && start / bps + sectors <= fat.bpb.sectorsPerCluster
      && take <= sectors * bps < take + bps
  {
    hide ChunkLength, Wrap32;
    ChunkTake(fat, offset, length);
    var bps: nat, spc: nat := fat.bpb.bytesPerSector, fat.bpb.sectorsPerCluster;
    ModMod(offset, bps, spc);
    SectorSpan(spc, bps, offset % ClusterSize(fat), ChunkLength(fat, offset, length));
  }

  /** A chunk fits when it starts on a sector boundary or runs to the end of its cluster. */
  lemma AlignedChunkFits(fat: Fat, offset: U32, length: U32)
    requires Sound(fat) && 0 < length && ClusterSize(fat) > 0 && length + ClusterSize(fat) <= LIMIT32
    requires offset % fat.bpb.bytesPerSector == 0
      || offset % ClusterSize(fat) + ChunkLength(fat, offset, length) == ClusterSize(fat)
    ensures ChunkFits(fat, offset, length)
  {
    hide ChunkLength, Wrap32;
    ChunkPlace(fat, offset, length);
    var start, take := offset % ClusterSize(fat), ChunkLength(fat, offset, length);
    SpanFits(fat.bpb.sectorsPerCluster, fat.bpb.bytesPerSector, start, take);
  }

  /** Byte `j` of a chunk lies behind the sectors read for it. */
  predicate StaleAt(fat: Fat, offset: U32, length: U32, j: int)
    requires ClusterSize(fat) > 0 && fat.bpb.bytesPerSector > 0
  {
    && j < ChunkLength(fat, offset, length)
    && offset % fat.bpb.bytesPerSector + j >= ChunkSectors(fat, offset, length) * fat.bpb.bytesPerSector
  }

  /** Stale bytes lie within one sector behind the buffer, and there are none exactly when the chunk fits. */
  lemma StaleIsNear(fat: Fat, offset: U32, length: U32)
    requires Sound(fat) && 0 < length && ClusterSize(fat) > 0 && length + ClusterSize(fat) <= LIMIT32
    ensures var bps, size := fat.bpb.bytesPerSector, ChunkSectors(fat, offset, length) * fat.bpb.bytesPerSector;
      && bps <= size && ChunkLength(fat, offset, length) <= size
      && (forall j :: 0 <= j && StaleAt(fat, offset, length, j) ==> 0 <= offset % bps + j - size < bps)
      && (ChunkFits(fat, offset, length) ==> forall j :: !StaleAt(fat, offset, length, j))
      && (!ChunkFits(fat, offset, length) ==>
            StaleAt(fat, offset, length, size - offset % bps) && size - offset % bps >= 0)
  {
    hide ChunkLength;
    ChunkPlace(fat, offset, length);
    MulLe(1, ChunkSectors(fat, offset, length), fat.bpb.bytesPerSector);
  }

  /** Byte `j` of what is delivered for a range: from position `pos` of the file on, except that the first chunk takes
      from the memory behind its buffer what it does not read. */
  function Got(fat: Fat, offset: U32, length: U32, stale: seq<U8>, file: seq<U8>, pos: nat, j: nat): U8
    requires Sound(fat) && 0 < length && ClusterSize(fat) > 0 && length + ClusterSize(fat) <= LIMIT32
    requires |stale| == fat.bpb.bytesPerSector && pos + j < |file|
  {
    StaleIsNear(fat, offset, length);
    if StaleAt(fat, offset, length, j) then
      stale[offset % fat.bpb.bytesPerSector + j - ChunkSectors(fat, offset, length) * fat.bpb.bytesPerSector]
    else file[pos + j]
  }

  /** What `fat_read` delivers for a range of a file, given what lay behind its buffer. */
  function Delivery(fat: Fat, offset: U32, length: U32, stale: seq<U8>, file: seq<U8>): (r: seq<U8>)
    requires Sound(fat) && 0 < length && ClusterSize(fat) > 0 && length + ClusterSize(fat) <= LIMIT32
    requires |stale| == fat.bpb.bytesPerSector && offset + length <= |file|
    ensures |r| == length && forall j :: 0 <= j < length ==> r[j] == Got(fat, offset, length, stale, file, offset, j)
  {
    seq(length, j requires 0 <= j < length => Got(fat, offset, length, stale, file, offset, j))
  }

  /** `fat_read` is slicing, whatever memory held before, exactly when the range fits. */
  lemma SlicesExactlyWhenItFits(fat: Fat, offset: U32, length: U32, file: seq<U8>)
    requires Sound(fat) && 0 < length && ClusterSize(fat) > 0 && length + ClusterSize(fat) <= LIMIT32
    requires offset + length <= |file|
    ensures ChunkFits(fat, offset, length) <==>
      forall stale :: |stale| == fat.bpb.bytesPerSector ==>
        Delivery(fat, offset, length, stale, file) == file[offset..offset + length]
  {
    hide ChunkLength, ChunkFits, StaleAt, ChunkSectors;
    StaleIsNear(fat, offset, length);
    if ChunkFits(fat, offset, length) {
      forall stale: seq<U8> | |stale| == fat.bpb.bytesPerSector
        ensures Delivery(fat, offset, length, stale, file) == file[offset..offset + length]
      {
      }
    } else {
      StaleInRange(fat, offset, length);
      var j: nat := ChunkSectors(fat, offset, length) * fat.bpb.bytesPerSector - offset % fat.bpb.bytesPerSector;
      var other: U8 := if file[offset + j] == 0 then 1 else 0;
      var stale: seq<U8> := seq(fat.bpb.bytesPerSector, _ => other);
      assert Delivery(fat, offset, length, stale, file)[j] == other;
      assert file[offset..offset + length][j] != other;
    }
  }

  lemma StaleInRange(fat: Fat, offset: U32, length: U32)
    requires Sound(fat) && 0 < length && ClusterSize(fat) > 0 && length + ClusterSize(fat) <= LIMIT32
    ensures forall j :: StaleAt(fat, offset, length, j) ==> j < length
  {
    ChunkTake(fat, offset, length);
  }

  /** 32 bytes from offset 500 of a cluster of two or more 512-byte sectors: one sector is read, and the last 20 bytes
      come from the memory behind the buffer. */
  lemma UnalignedChunkOverruns(fat: Fat)
    requires Sound(fat) && fat.bpb.bytesPerSector == 512 && fat.bpb.sectorsPerCluster >= 2
    ensures ClusterSize(fat) > 0 && !ChunkFits(fat, 500, 32)
    ensures forall j :: 0 <= j < 32 ==> (StaleAt(fat, 500, 32, j) <==> 12 <= j)
  {
    var n: nat := ClusterSize(fat);
    MulLe(2, fat.bpb.sectorsPerCluster, 512);
    DivUnique(500, n, 0, 500);
    DivUnique(500, 512, 0, 500);
    assert ChunkLength(fat, 500, 32) == 32 && (32 + 511) / 512 == 1;
  }

  // ----- fat_read -----

  /** Whether a chunk goes through a scratch buffer instead of straight to its destination. */
  predicate UsesScratch(fat: Fat, offset: U32, length: U32, dst: nat)
    requires ClusterSize(fat) > 0 && fat.bpb.bytesPerSector > 0
  {
    var bps: int := fat.bpb.bytesPerSector;
    offset % bps != 0 || ChunkLength(fat, offset, length) % bps != 0
    || Wrap32(dst + ChunkLength(fat, offset, length)) > REAL_MODE_LIMIT
  }

  /** The destination does not overlap the scratch area below the current top. */
  ghost predicate Clear(m: Memory, dst: int, length: int)
    reads m
  {
    dst + length <= m.ram.Length && (dst + length <= EXTENDED_STACK_LIMIT || m.extTop <= dst)
  }

  /** Only the destination and scratch memory below `top` changed. */
  twostate predicate OnlyAt(m: Memory, dst: int, length: int, top: int)
    reads m, m.ram
  {
    forall a :: 0 <= a < m.ram.Length && !(dst <= a < dst + length) && !(EXTENDED_STACK_LIMIT <= a < top) ==>
      m.ram[a] == old(m.ram[a])
  }

  /** One sector's worth of memory behind the scratch area. */
  function Stale(m: Memory, fat: Fat): (stale: seq<U8>)
    requires m.Valid()
    reads m, m.ram
    ensures |stale| == fat.bpb.bytesPerSector
  {
    m.ram[m.extTop..m.extTop + fat.bpb.bytesPerSector]
  }

  /** The destination does not overlap what a chunk that does not fit copies from behind its buffer. */
  ghost predicate ClearBehind(m: Memory, fat: Fat, offset: U32, length: U32, dst: int)
    requires ClusterSize(fat) > 0 && fat.bpb.bytesPerSector > 0
    reads m
  {
    ChunkFits(fat, offset, length) || dst + length <= EXTENDED_STACK_LIMIT || m.extTop + fat.bpb.bytesPerSector <= dst
  }

  /** The sectors read for a chunk of a cluster are all readable. */
  predicate ChunkReadable(disk: Disk, fat: Fat, cluster: U32, offset: U32, length: U32)
    requires ClusterSize(fat) > 0 && fat.bpb.bytesPerSector > 0
  {
    var first := ClusterToLba(fat, cluster) + offset % ClusterSize(fat) / fat.bpb.bytesPerSector;
    forall s: nat :: first <= s < first + ChunkSectors(fat, offset, length) ==> !disk.bad(s)
  }

  lemma ChunkReadableIs(disk: Disk, fat: Fat, cluster: U32, offset: U32, length: U32, first: nat, sectors: nat)
    requires ClusterSize(fat) > 0 && fat.bpb.bytesPerSector > 0 && sectors == ChunkSectors(fat, offset, length)
    requires first == ClusterToLba(fat, cluster) + offset % ClusterSize(fat) / fat.bpb.bytesPerSector
    ensures ChunkReadable(disk, fat, cluster, offset, length) <==> disk.Readable(first, sectors)
  {
    hide ClusterToLba, ChunkSectors, ClusterSize;
  }

  /** Bytes in a number of sectors. */
  function Bytes(disk: Disk, sectors: nat): nat {
    sectors * disk.sectorSize
  }

  /** Reads whole sectors of a cluster to `at`. */
  method ReadSectors(m: Memory, fat: Fat, current: U32, skip: nat, sectors: nat, at: nat) returns (ok: bool)
    requires OnDisk(m, fat) && Sound(fat) && InData(fat, current)
    requires skip + sectors <= fat.bpb.sectorsPerCluster && at + Bytes(m.disk, sectors) <= m.ram.Length
    modifies m.ram
    ensures ok == (at <= REAL_MODE_LIMIT && m.disk.Readable(ClusterToLba(fat, current) + skip, sectors))
    ensures ok ==> forall a :: at <= a < at + Bytes(m.disk, sectors) ==>
      m.ram[a] == ClusterByte(m.disk, fat, current, Bytes(m.disk, skip) + (a - at))
    ensures OnlyAt(m, at, Bytes(m.disk, sectors), 0)
  {
    ClusterSectors(fat, current);
    var lba: int := ClusterToLba(fat, current);
    WrapId(lba + skip);
    MulAdd(lba, skip, m.disk.sectorSize);
    ok := m.DiskRead(Wrap32(lba + skip), at, sectors);
  }

  /** Byte `i` from the start of a buffer of `size` bytes read from position `from` of a cluster; behind the buffer,
      what memory held. */
  function BufferByte(disk: Disk, fat: Fat, cluster: U32, from: nat, size: nat, stale: seq<U8>, i: nat): U8
    requires i < size + |stale|
  {
    if i < size then ClusterByte(disk, fat, cluster, from + i) else stale[i - size]
  }

  lemma BufferAt(disk: Disk, fat: Fat, cluster: U32, from: nat, size: nat, stale: seq<U8>, i: nat)
    requires i < size + |stale|
    ensures BufferByte(disk, fat, cluster, from, size, stale, i) ==
      if i < size then ClusterByte(disk, fat, cluster, from + i) else stale[i - size]
  {
  }

  /** Copies `take` bytes from position `byteOffset` of a scratch buffer, and on into the memory behind it; a chunk
      read straight to its destination is already there. */
  method CopyOut(m: Memory, ghost fat: Fat, ghost current: U32, ghost from: nat, buffer: nat, byteOffset: nat,
                 take: nat, ghost size: nat, dst: nat, scratch: bool, ghost stale: seq<U8>)
    requires m.Valid() && dst + take <= m.ram.Length && byteOffset + take <= size + |stale|
    requires buffer + size <= m.ram.Length
    requires scratch ==> buffer + size + |stale| <= m.ram.Length
    requires scratch ==> dst + take <= buffer || buffer + byteOffset + take <= dst
    requires scratch ==> forall i :: 0 <= i < |stale| ==> m.ram[buffer + size + i] == stale[i]
    requires !scratch ==> buffer == dst && byteOffset == 0 && take <= size
    requires forall a :: buffer <= a < buffer + size ==>
      m.ram[a] == ClusterByte(m.disk, fat, current, from + (a - buffer))
    modifies m.ram
    ensures OnlyAt(m, dst, take, 0)
    ensures forall a :: dst <= a < dst + take ==>
      m.ram[a] == BufferByte(m.disk, fat, current, from, size, stale, byteOffset + (a - dst))
  {
    hide ClusterByte, BufferByte;
    if scratch {
      m.MemCpy(dst, buffer + byteOffset, take);
    }
    forall a | dst <= a < dst + take
      ensures m.ram[a] == BufferByte(m.disk, fat, current, from, size, stale, byteOffset + (a - dst))
    {
      BufferAt(m.disk, fat, current, from, size, stale, byteOffset + (a - dst));
    }
  }

  /** Reads the sectors of a chunk; when that fails, `size` bytes are popped, whether or not they were pushed. */
  method ReadOrPop(m: Memory, fat: Fat, current: U32, skip: nat, sectors: nat, size: nat, at: nat)
    returns (status: FatResult)
    requires OnDisk(m, fat) && Sound(fat) && InData(fat, current) && size == Bytes(m.disk, sectors)
    requires skip + sectors <= fat.bpb.sectorsPerCluster && at + size <= m.ram.Length && at <= REAL_MODE_LIMIT
    modifies m`extTop, m.ram
    ensures m.Valid() && OnlyAt(m, at, size, 0) && status in {Success, DiskError, Panic}
    ensures (status == Success) == m.disk.Readable(ClusterToLba(fat, current) + skip, sectors)
    ensures m.extTop == old(m.extTop) + (if status == DiskError then size else 0)
    ensures status == Panic ==> EXTENDED_STACK_BASE - m.extTop < size
    ensures status == Success ==> forall a :: at <= a < at + size ==>
      m.ram[a] == ClusterByte(m.disk, fat, current, Bytes(m.disk, skip) + (a - at))
  {
    hide ClusterByte, ClusterToLba, Disk.Readable;
    SizeBound(fat, sectors, size);
    var read := ReadSectors(m, fat, current, skip, sectors, at);
    if !read {
      var ok := m.Pop(size);
      return if ok then DiskError else Panic;
    }
    return Success;
  }

  lemma StaleIs(m: Memory, fat: Fat)
    requires m.Valid()
    ensures forall i :: 0 <= i < |Stale(m, fat)| ==> m.ram[m.extTop + i] == Stale(m, fat)[i]
  {
  }

  lemma BytesBound(disk: Disk, fat: Fat, sectors: nat)
    requires disk.sectorSize == fat.bpb.bytesPerSector && sectors <= fat.bpb.sectorsPerCluster
    ensures Bytes(disk, sectors) <= ClusterSize(fat) < 0x100_0000
  {
    SizeBound(fat, sectors, Bytes(disk, sectors));
  }

  lemma WorkingIsReadable(disk: Disk, lba: nat, count: nat)
    ensures disk.Working() ==> disk.Readable(lba, count)
  {
  }

  /** The transfer of one chunk, through scratch memory or straight to its destination. */
  method TransferChunk(m: Memory, fat: Fat, current: U32, skip: nat, byteOffset: nat, take: nat, size: nat,
                       sectors: nat, dst: nat, scratch: bool, ghost stale: seq<U8>)
    returns (status: FatResult)
    requires m.Valid() && stale == Stale(m, fat) && size == Bytes(m.disk, sectors)
    requires OnDisk(m, fat) && Sound(fat) && InData(fat, current) && skip + sectors <= fat.bpb.sectorsPerCluster
    requires byteOffset < m.disk.sectorSize && take <= size && Clear(m, dst, take)
    requires byteOffset + take <= size || dst + take <= EXTENDED_STACK_LIMIT
      || m.extTop + m.disk.sectorSize <= dst
    requires !scratch ==> byteOffset == 0 && take == size && dst <= REAL_MODE_LIMIT
    modifies m`extTop, m.ram
    ensures m.Valid() && OnlyAt(m, dst, take, old(m.extTop)) && status in {Success, DiskError, Panic}
    ensures status == Success ==> m.extTop == old(m.extTop) - (if scratch then size else 0)
    ensures status == DiskError ==> m.extTop == old(m.extTop) + (if scratch then 0 else size)
    ensures status == Panic && scratch ==> old(m.Room()) < size
    ensures status == DiskError || (status == Panic && !scratch) ==> !m.disk.Working()
    ensures status == DiskError ==> !m.disk.Readable(ClusterToLba(fat, current) + skip, sectors)
    ensures status == Success ==> m.disk.Readable(ClusterToLba(fat, current) + skip, sectors)
    ensures status == Success ==> forall a :: dst <= a < dst + take ==>
      m.ram[a] == BufferByte(m.disk, fat, current, Bytes(m.disk, skip), size, stale, byteOffset + (a - dst))
  {
    hide Bytes, ClusterByte, ClusterToLba, ClusterSize, BufferByte, Disk.Readable, Disk.Working, Sound, InData, Stale;
    BytesBound(m.disk, fat, sectors);
    StaleIs(m, fat);
    WorkingIsReadable(m.disk, ClusterToLba(fat, current) + skip, sectors);
    var buffer := dst;
    if scratch {
      var ok;
      ok, buffer := m.Push(size);
      if !ok {
        return Panic;
      }
    }
    status := ReadOrPop(m, fat, current, skip, sectors, size, buffer);
    if status == Success {
      CopyOut(m, fat, current, Bytes(m.disk, skip), buffer, byteOffset, take, size, dst, scratch, stale);
    }
  }

  /** The first `n` bytes of what is delivered for a range are in memory from `dst` on. */
  ghost predicate Arrived(ram: seq<U8>, dst: int, fat: Fat, offset: U32, length: U32, stale: seq<U8>, file: seq<U8>,
                          pos: nat, n: nat)
    requires Sound(fat) && 0 < length && ClusterSize(fat) > 0 && length + ClusterSize(fat) <= LIMIT32
    requires |stale| == fat.bpb.bytesPerSector && pos + n <= |file| && 0 <= dst && dst + n <= |ram|
  {
    forall a :: dst <= a < dst + n ==> ram[a] == Got(fat, offset, length, stale, file, pos, a - dst)
  }

  lemma SectorsCounted(fat: Fat, offset: U32, length: U32, take: int, sectors: int)
    requires ClusterSize(fat) > 0 && fat.bpb.bytesPerSector > 0 && take == ChunkLength(fat, offset, length)
    requires sectors == (take + fat.bpb.bytesPerSector - 1) / fat.bpb.bytesPerSector
    ensures sectors == ChunkSectors(fat, offset, length)
  {
    hide ChunkLength, ClusterSize;
  }

  /** One pass of the loop of `fat_read` up to the copy: `take` bytes delivered, `size` bytes of buffer. */
  method ReadChunk(m: Memory, fat: Fat, current: U32, offset: U32, length: U32, dst: nat, ghost stale: seq<U8>)
    returns (status: FatResult, take: int, size: int, scratch: bool)
    requires OnDisk(m, fat) && Sound(fat) && InData(fat, current)
    requires 0 < length && ClusterSize(fat) > 0 && length + ClusterSize(fat) <= LIMIT32
    requires Clear(m, dst, length) && ClearBehind(m, fat, offset, length, dst) && stale == Stale(m, fat)
    modifies m`extTop, m.ram
    ensures m.Valid() && OnlyAt(m, dst, take, old(m.extTop)) && status in {Success, DiskError, Panic}
    ensures take == ChunkLength(fat, offset, length)
    ensures size == ChunkSectors(fat, offset, length) * fat.bpb.bytesPerSector
    ensures scratch == UsesScratch(fat, offset, length, dst)
    ensures status == DiskError ==> !ChunkReadable(m.disk, fat, current, offset, length)
    ensures status == Success ==> ChunkReadable(m.disk, fat, current, offset, length)
    ensures status == Success ==> m.extTop == old(m.extTop) - (if scratch then size else 0)
    ensures status == DiskError ==> m.extTop == old(m.extTop) + (if scratch then 0 else size)
    ensures status == Panic && scratch ==> old(m.Room()) < size
    ensures status == DiskError || (status == Panic && !scratch) ==> !m.disk.Working()
    ensures 0 < take <= length && offset % ClusterSize(fat) + take <= ClusterSize(fat)
    ensures status == Success ==>
      Arrived(m.ram[..], dst, fat, offset, length, stale, ClusterBytes(m.disk, fat, current),
              offset % ClusterSize(fat), take)
  {
    hide ChunkLength, ClusterByte, ClusterToLba, ClusterSize, Sound, InData, Got, BufferByte, Stale, StaleAt;
    hide Disk.Readable, Disk.Working, ChunkReadable, ChunkSectors, Wrap32;
    ChunkPlace(fat, offset, length);
    StaleIsNear(fat, offset, length);
    var bps: int, n: int := fat.bpb.bytesPerSector, ClusterSize(fat);
    var inCluster: int, byteOffset: int := offset % n, offset % bps;
    take := ChunkLength(fat, offset, length);
    var sectors := (take + bps - 1) / bps;
    SectorsCounted(fat, offset, length, take, sectors);
    scratch := byteOffset != 0 || take % bps != 0 || Wrap32(dst + take) > REAL_MODE_LIMIT;
    size := sectors * bps;
    if !scratch {
      WholeSectors(take, bps);
      WrapId(dst + take);
    }
    ChunkReadableIs(m.disk, fat, current, offset, length, ClusterToLba(fat, current) + inCluster / bps, sectors);
    status := TransferChunk(m, fat, current, inCluster / bps, byteOffset, take, size, sectors, dst, scratch, stale);
    if status == Success {
      forall a | dst <= a < dst + take
        ensures m.ram[a] == Got(fat, offset, length, stale, ClusterBytes(m.disk, fat, current), inCluster, a - dst)
      {
        GotIsBuffered(m.disk, fat, current, offset, length, stale, a - dst);
      }
    }
  }

  /** What a chunk delivers is what its buffer holds, and then what lies behind it. */
  lemma GotIsBuffered(disk: Disk, fat: Fat, cluster: U32, offset: U32, length: U32, stale: seq<U8>, j: nat)
    requires Sound(fat) && 0 < length && ClusterSize(fat) > 0 && length + ClusterSize(fat) <= LIMIT32
    requires |stale| == fat.bpb.bytesPerSector && j < ChunkLength(fat, offset, length)
    ensures var bps, start := fat.bpb.bytesPerSector, offset % ClusterSize(fat);
      var size := ChunkSectors(fat, offset, length) * bps;
      && 0 <= start / bps && 0 <= size && offset % bps + j < size + bps && start + j < ClusterSize(fat)
      && Got(fat, offset, length, stale, ClusterBytes(disk, fat, cluster), start, j)
         == BufferByte(disk, fat, cluster, start / bps * bps, size, stale, offset % bps + j)
  {
    hide ChunkLength, ChunkSectors, ClusterByte, ClusterSize;
    StaleIsNear(fat, offset, length);
    ChunkPlace(fat, offset, length);
  }

  lemma SizeBound(fat: Fat, sectors: nat, size: nat)
    requires sectors <= fat.bpb.sectorsPerCluster && size == sectors * fat.bpb.bytesPerSector
    ensures size <= ClusterSize(fat) < 0x100_0000
  {
    MulLe(sectors, fat.bpb.sectorsPerCluster, fat.bpb.bytesPerSector);
    MulLe(fat.bpb.sectorsPerCluster, 0x100, fat.bpb.bytesPerSector);
  }

  lemma WholeSectors(take: nat, bps: nat)
    requires bps > 0 && take % bps == 0
    ensures (take + bps - 1) / bps * bps == take
  {
    DivMod(take, bps);
    DivAdd(take / bps, bps, bps - 1);
    DivUnique(bps - 1, bps, 0, bps - 1);
  }

  /** Everything needed to read a file: its volume on this disk, its chain, and no wrapping sum. */
  ghost predicate Readable(m: Memory, fat: Fat, entry: DirEntry, chain: seq<U32>)
    reads m
  {
    && OnDisk(m, fat) && Sound(fat) && ClusterSize(fat) > 0
    && IsChain(m.disk, fat, chain) && chain != [] && chain[0] == entry.FirstCluster()
  }

  /** Following the chain: the next cluster, or the end behind the last one. */
  lemma ChainStep(disk: Disk, fat: Fat, chain: seq<U32>, p: nat)
    requires IsChain(disk, fat, chain) && p < |chain|
    ensures InData(fat, chain[p]) && Followable(disk, fat, chain[p])
    ensures p + 1 < |chain| ==> Follow(disk, fat, chain[p]) == chain[p + 1] && Classify(fat.ty, chain[p + 1]) == Valid
    ensures p + 1 == |chain| ==> Classify(fat.ty, Follow(disk, fat, chain[p])) == End
  {
  }

  /** The walk to the cluster the range starts in. */
  method Seek(m: Memory, fat: Fat, entry: DirEntry, clusterOffset: nat, ghost chain: seq<U32>)
    returns (status: FatResult, cluster: U32)
    requires Readable(m, fat, entry, chain)
    modifies m`extTop, m.ram
    ensures m.Valid() && m.extTop == old(m.extTop) && OnlyScratch(m, m.extTop)
    ensures status in {Success, OutOfFileBounds, Panic}
    ensures status == Success ==> clusterOffset < |chain| && cluster == chain[clusterOffset]
    ensures status == Panic ==> m.Room() < 2 * m.disk.sectorSize
    ensures status == OutOfFileBounds && m.disk.Working() ==> |chain| <= clusterOffset
  {
    hide IsChain, Followable, Follow, Classify, InData;
    cluster := entry.FirstCluster();
    var i := 0;
    while i < clusterOffset
      invariant m.Valid() && m.extTop == old(m.extTop) && OnlyScratch(m, m.extTop)
      invariant 0 <= i <= clusterOffset && i < |chain| && cluster == chain[i]
    {
      ChainStep(m.disk, fat, chain, i);
      var result, next := FatNextNotBad(m, fat, cluster);
      if result == Panicked {
        return Panic, cluster;
      }
      if result != Valid {
        return OutOfFileBounds, cluster;
      }
      cluster := next;
      i := i + 1;
    }
    return Success, cluster;
  }

  /** The bytes a chunk delivers are the next bytes of the file. */
  lemma ChunkContents(disk: Disk, fat: Fat, chain: seq<U32>, p: nat, start: nat, take: nat)
    requires p < |chain| && start + take <= ClusterSize(fat) && ClusterSize(fat) > 0
    ensures p * ClusterSize(fat) + start + take <= |chain| * ClusterSize(fat) == |Contents(disk, fat, chain)|
    ensures forall j :: p * ClusterSize(fat) + start <= j < p * ClusterSize(fat) + start + take ==>
      Contents(disk, fat, chain)[j] == ClusterByte(disk, fat, chain[p], j - p * ClusterSize(fat))
  {
    MulStep(p, |chain|, ClusterSize(fat));
    ContentsAt(disk, fat, chain, p, 0);
    forall j | p * ClusterSize(fat) + start <= j < p * ClusterSize(fat) + start + take
      ensures Contents(disk, fat, chain)[j] == ClusterByte(disk, fat, chain[p], j - p * ClusterSize(fat))
    {
      ContentsAt(disk, fat, chain, p, j - p * ClusterSize(fat));
    }
  }

  /** Bytes `[from, to)` of the file are in memory from `dst` on. */
  ghost predicate Delivered(m: Memory, dst: int, file: seq<U8>, from: nat, to: nat)
    requires from <= to <= |file| && 0 <= dst && dst + (to - from) <= m.ram.Length
    reads m, m.ram
  {
    forall a :: dst <= a < dst + (to - from) ==> m.ram[a] == file[from + (a - dst)]
  }

  /** The bytes of a cluster are bytes of the file. */
  lemma GotMoves(fat: Fat, offset: U32, length: U32, stale: seq<U8>, cluster: seq<U8>, start: nat, file: seq<U8>,
                 pos: nat, j: nat)
    requires Sound(fat) && 0 < length && ClusterSize(fat) > 0 && length + ClusterSize(fat) <= LIMIT32
    requires |stale| == fat.bpb.bytesPerSector && start + j < |cluster| && pos + j < |file|
    requires cluster[start + j] == file[pos + j]
    ensures Got(fat, offset, length, stale, cluster, start, j) == Got(fat, offset, length, stale, file, pos, j)
  {
    hide StaleAt, ChunkSectors, ClusterSize;
    StaleIsNear(fat, offset, length);
  }

  /** The pass of the loop seen from the file: the next `take` bytes arrive. */
  method ReadNext(m: Memory, fat: Fat, offset: U32, length: U32, dst: nat, current: U32, ghost chain: seq<U32>,
                  ghost p: nat, ghost pos: nat, ghost stale: seq<U8>)
    returns (status: FatResult, take: int, size: int, scratch: bool)
    requires OnDisk(m, fat) && Sound(fat) && ClusterSize(fat) > 0 && IsChain(m.disk, fat, chain)
    requires p < |chain| && current == chain[p] && pos == p * ClusterSize(fat) + offset % ClusterSize(fat)
    requires 0 < length && length + ClusterSize(fat) <= LIMIT32 && Clear(m, dst, length)
    requires ClearBehind(m, fat, offset, length, dst) && stale == Stale(m, fat)
    modifies m`extTop, m.ram
    ensures m.Valid() && OnlyAt(m, dst, take, old(m.extTop)) && status in {Success, DiskError, Panic}
    ensures var n, start := ClusterSize(fat), offset % ClusterSize(fat);
      && 0 < take <= length && start + take <= n && (take == length || start + take == n) && 0 <= size <= n
      && pos + take <= |chain| * n == |Contents(m.disk, fat, chain)|
      && take == ChunkLength(fat, offset, length) && size == ChunkSectors(fat, offset, length) * fat.bpb.bytesPerSector
      && (status == Success ==>
            Arrived(m.ram[..], dst, fat, offset, length, stale, Contents(m.disk, fat, chain), pos, take))
    ensures scratch == UsesScratch(fat, offset, length, dst)
    ensures status == DiskError ==> !ChunkReadable(m.disk, fat, current, offset, length)
    ensures status == Success ==> ChunkReadable(m.disk, fat, current, offset, length)
    ensures status == Success ==> m.extTop == old(m.extTop) - (if scratch then size else 0)
    ensures status == DiskError ==> m.extTop == old(m.extTop) + (if scratch then 0 else size)
    ensures status == Panic && scratch ==> old(m.Room()) < size
    ensures status == DiskError || (status == Panic && !scratch) ==> !m.disk.Working()
  {
    hide IsChain, Followable, Follow, ClusterSize, ChunkLength, ClusterByte, InData, Contents, ChunkFits, Wrap32, Got;
    ChainStep(m.disk, fat, chain, p);
    status, take, size, scratch := ReadChunk(m, fat, current, offset, length, dst, stale);
    ChunkPlace(fat, offset, length);
    SizeBound(fat, ChunkSectors(fat, offset, length), size);
    ChunkContents(m.disk, fat, chain, p, offset % ClusterSize(fat), take);
    if status == Success {
      ghost var file, cluster := Contents(m.disk, fat, chain), ClusterBytes(m.disk, fat, current);
      ghost var start := offset % ClusterSize(fat);
      forall a | dst <= a < dst + take ensures m.ram[a] == Got(fat, offset, length, stale, file, pos, a - dst) {
        GotMoves(fat, offset, length, stale, cluster, start, file, pos, a - dst);
      }
    }
  }

  /** Scratch memory for the largest chunk plus the table sectors read behind it. */
  predicate RoomToRead(m: Memory, fat: Fat)
    reads m
  {
    m.Room() >= ClusterSize(fat) + 2 * fat.bpb.bytesPerSector
  }

  /** Every chunk goes through scratch memory: the destination is out of real-mode reach or the range is
      shorter than a sector. */
  predicate Buffered(fat: Fat, length: nat, dst: nat) {
    dst >= REAL_MODE_LIMIT || length < fat.bpb.bytesPerSector
  }

  /** Every chunk is buffered, or an unmatched pop still finds something to release. */
  predicate PopsSafe(m: Memory, fat: Fat, length: nat, dst: nat)
    reads m
  {
    Buffered(fat, length, dst) || EXTENDED_STACK_BASE - m.extTop >= ClusterSize(fat)
  }

  lemma BufferedUsesScratch(fat: Fat, offset: U32, length: U32, dst: nat)
    requires ClusterSize(fat) > 0 && fat.bpb.bytesPerSector > 0 && 0 < length && length + ClusterSize(fat) <= LIMIT32
    requires Buffered(fat, length, dst) && dst + length < LIMIT32
    ensures UsesScratch(fat, offset, length, dst)
  {
    hide ClusterSize;
    ChunkTake(fat, offset, length);
    hide ChunkLength;
    var take: nat := ChunkLength(fat, offset, length);
    WrapId(dst + take);
    if take < fat.bpb.bytesPerSector {
      DivUnique(take, fat.bpb.bytesPerSector, 0, take);
    }
  }

  lemma SliceStep(n: nat, p: nat, start: nat, take: nat)
    ensures start + take == n ==> p * n + start + take == (p + 1) * n
  {
    MulAdd(p, 1, n);
  }

  lemma ChunkZeroFits(fat: Fat, length: U32)
    requires Sound(fat) && ClusterSize(fat) > 0 && 0 < length && length + ClusterSize(fat) <= LIMIT32
    ensures ChunkFits(fat, 0, length) && 0 % ClusterSize(fat) == 0
  {
    DivUnique(0, fat.bpb.bytesPerSector, 0, 0);
    DivUnique(0, ClusterSize(fat), 0, 0);
    AlignedChunkFits(fat, 0, length);
  }

  /** The loop body of `fat_read`: a chunk, and the next cluster if more is wanted. */
  method ReadAndAdvance(m: Memory, fat: Fat, offset: U32, length: U32, dst: nat, current: U32, ghost chain: seq<U32>,
                        ghost p: nat, ghost pos: nat, ghost stale: seq<U8>)
    returns (status: FatResult, take: int, next: U32)
    requires OnDisk(m, fat) && Sound(fat) && ClusterSize(fat) > 0 && IsChain(m.disk, fat, chain)
    requires p < |chain| && current == chain[p] && pos == p * ClusterSize(fat) + offset % ClusterSize(fat)
    requires 0 < length && length + ClusterSize(fat) <= LIMIT32 && Clear(m, dst, length)
    requires ClearBehind(m, fat, offset, length, dst) && stale == Stale(m, fat)
    modifies m`extTop, m.ram
    ensures m.Valid() && OnlyAt(m, dst, take, old(m.extTop)) && status in {Success, DiskError, OutOfFileBounds, Panic}
    ensures var n, start := ClusterSize(fat), offset % ClusterSize(fat);
      && 0 < take <= length && start + take <= n && (take == length || start + take == n)
      && pos + take <= |chain| * n == |Contents(m.disk, fat, chain)|
      && take == ChunkLength(fat, offset, length)
      && (status == Success ==>
            Arrived(m.ram[..], dst, fat, offset, length, stale, Contents(m.disk, fat, chain), pos, take))
    ensures status == DiskError ==> !ChunkReadable(m.disk, fat, current, offset, length)
    ensures status in {Success, OutOfFileBounds} ==> ChunkReadable(m.disk, fat, current, offset, length)
    ensures status == Success ==> m.extTop == old(m.extTop)
    ensures status == Success && take < length ==> p + 1 < |chain| && next == chain[p + 1]
    ensures status == OutOfFileBounds && m.disk.Working() ==> take < length && p + 1 == |chain|
    ensures status in {DiskError, OutOfFileBounds} ==>
      (m.extTop == old(m.extTop) <==> UsesScratch(fat, offset, length, dst))
    ensures status in {DiskError, OutOfFileBounds} && m.extTop != old(m.extTop) ==>
      m.extTop == old(m.extTop) + ChunkSectors(fat, offset, length) * fat.bpb.bytesPerSector
    ensures status != Panic && Buffered(fat, length, dst) ==> m.extTop == old(m.extTop)
    ensures m.disk.Working() && old(RoomToRead(m, fat)) && old(PopsSafe(m, fat, length, dst)) ==>
      status in {Success, OutOfFileBounds}
  {
    hide IsChain, Followable, Follow, Classify, ClusterSize, Contents, ChunkFits, Wrap32, InData, UsesScratch, Got;
    StaleIsNear(fat, offset, length);
    var size, scratch;
    next := current;
    status, take, size, scratch := ReadNext(m, fat, offset, length, dst, current, chain, p, pos, stale);
    if Buffered(fat, length, dst) {
      BufferedUsesScratch(fat, offset, length, dst);
    }
    if status != Success {
      return;
    }
    if take < length {
      ChainStep(m.disk, fat, chain, p);
      var result;
      result, next := FatNextNotBad(m, fat, current);
      if result == Panicked {
        return Panic, take, next;
      }
      if result != Valid {
        var ok := m.Pop(size);
        return if ok then OutOfFileBounds else Panic, take, next;
      }
    }
    if scratch {
      var ok := m.Pop(size);
    }
  }

  /** A chunk that fits delivers the file alone. */
  lemma FitsArrives(ram: seq<U8>, dst: int, fat: Fat, offset: U32, length: U32, stale: seq<U8>, file: seq<U8>, pos: nat,
                    n: nat)
    requires Sound(fat) && 0 < length && ClusterSize(fat) > 0 && length + ClusterSize(fat) <= LIMIT32
    requires |stale| == fat.bpb.bytesPerSector && pos + n <= |file| && 0 <= dst && dst + n <= |ram|
    requires ChunkFits(fat, offset, length) && Arrived(ram, dst, fat, offset, length, stale, file, pos, n)
    ensures forall a :: dst <= a < dst + n ==> ram[a] == file[pos + (a - dst)]
  {
    hide StaleAt, ChunkSectors, ClusterSize, ChunkFits;
    StaleIsNear(fat, offset, length);
  }

  lemma ArrivedWhole(ram: seq<U8>, dst: nat, fat: Fat, offset: U32, length: U32, stale: seq<U8>, file: seq<U8>)
    requires Sound(fat) && 0 < length && ClusterSize(fat) > 0 && length + ClusterSize(fat) <= LIMIT32
    requires |stale| == fat.bpb.bytesPerSector && offset + length <= |file| && dst + length <= |ram|
    requires Arrived(ram, dst, fat, offset, length, stale, file, offset, length)
    ensures ram[dst..dst + length] == Delivery(fat, offset, length, stale, file)
  {
    hide Got;
  }

  /** What arrived stays, and the bytes of the next chunk, which fits, join it. */
  lemma ArrivedOn(was: seq<U8>, now: seq<U8>, dst: nat, fat: Fat, offset: U32, length: U32, stale: seq<U8>,
                  file: seq<U8>, done: nat, take: nat, left: U32, behind: seq<U8>)
    requires Sound(fat) && 0 < length && ClusterSize(fat) > 0 && length + ClusterSize(fat) <= LIMIT32
    requires |stale| == fat.bpb.bytesPerSector && offset + done + take <= |file| && dst + done + take <= |now| == |was|
    requires ChunkLength(fat, offset, length) <= done
    requires Arrived(was, dst, fat, offset, length, stale, file, offset, done)
    requires forall a :: dst <= a < dst + done ==> now[a] == was[a]
    requires 0 < left && left + ClusterSize(fat) <= LIMIT32 && ChunkFits(fat, 0, left)
    requires |behind| == fat.bpb.bytesPerSector
    requires Arrived(now, dst + done, fat, 0, left, behind, file, offset + done, take)
    ensures Arrived(now, dst, fat, offset, length, stale, file, offset, done + take)
  {
    hide ChunkLength, ChunkSectors, ClusterSize, ChunkFits;
    FitsArrives(now, dst + done, fat, 0, left, behind, file, offset + done, take);
    StaleIsNear(fat, offset, length);
    forall a | dst <= a < dst + done + take ensures now[a] == Got(fat, offset, length, stale, file, offset, a - dst) {
      if a >= dst + done {
        assert offset + done + (a - (dst + done)) == offset + (a - dst);
      } else {
        assert now[a] == was[a];
      }
    }
  }

  /** The chunk behind which the chain ends, if the range starts in the chain: how many bytes come before it. */
  function EndReached(fat: Fat, chain: seq<U32>, offset: U32): Option<nat>
    requires ClusterSize(fat) > 0
  {
    var last := (|chain| - 1) * ClusterSize(fat);
    if offset / ClusterSize(fat) >= |chain| then None else if offset >= last then Some(0) else Some(last - offset)
  }

  /** Where in the range the chunk of cluster `q` of the chain starts. */
  function StartOf(fat: Fat, offset: U32, q: nat): int
    requires ClusterSize(fat) > 0
  {
    if q == offset / ClusterSize(fat) then 0 else q * ClusterSize(fat) - offset
  }

  /** The chunk of cluster `q` is readable. */
  ghost predicate ReadableAt(disk: Disk, fat: Fat, chain: seq<U32>, offset: U32, length: U32, q: nat)
    requires ClusterSize(fat) > 0 && fat.bpb.bytesPerSector > 0
  {
    && q < |chain| && 0 <= StartOf(fat, offset, q) < length
    && ChunkReadable(disk, fat, chain[q], if StartOf(fat, offset, q) == 0 then offset else 0,
                     length - StartOf(fat, offset, q))
  }

  /** The chunk of cluster `q` belongs to the range and is the first of it that is not readable. */
  ghost predicate FirstUnreadable(disk: Disk, fat: Fat, chain: seq<U32>, offset: U32, length: U32, q: nat)
    requires ClusterSize(fat) > 0 && fat.bpb.bytesPerSector > 0
  {
    && offset / ClusterSize(fat) <= q < |chain| && 0 <= StartOf(fat, offset, q) < length
    && !ReadableAt(disk, fat, chain, offset, length, q)
    && forall k: nat :: offset / ClusterSize(fat) <= k < q ==> ReadableAt(disk, fat, chain, offset, length, k)
  }

  /** The chunk behind the first `done` bytes of a range goes through scratch memory; None is the walk to the range. */
  predicate Balanced(fat: Fat, offset: U32, length: U32, dst: nat, reached: Option<nat>)
    requires ClusterSize(fat) > 0 && fat.bpb.bytesPerSector > 0 && (reached.Some? ==> reached.value < length)
  {
    reached.Some? ==>
      UsesScratch(fat, if reached.value == 0 then offset else 0, length - reached.value, dst + reached.value)
  }

  /** The loop of `fat_read`, from the cluster the range starts in. */
  method ReadRange(m: Memory, fat: Fat, offset: U32, length: U32, dst: nat, start: U32, ghost chain: seq<U32>,
                   ghost first: nat, ghost stale: seq<U8>)
    returns (status: FatResult, ghost done: nat, ghost p: nat)
    requires OnDisk(m, fat) && Sound(fat) && ClusterSize(fat) > 0 && IsChain(m.disk, fat, chain)
    requires first == offset / ClusterSize(fat) && first < |chain| && start == chain[first]
    requires length + ClusterSize(fat) <= LIMIT32 && Clear(m, dst, length) && stale == Stale(m, fat)
    requires length > 0 ==> ClearBehind(m, fat, offset, length, dst)
    modifies m`extTop, m.ram
    ensures m.Valid() && OnlyAt(m, dst, length, old(m.extTop)) && status in {Success, DiskError, OutOfFileBounds, Panic}
    ensures status == Success ==> m.extTop == old(m.extTop)
    ensures status == Success && length > 0 ==>
      && offset + length <= |Contents(m.disk, fat, chain)|
      && Arrived(m.ram[..], dst, fat, offset, length, stale, Contents(m.disk, fat, chain), offset, length)
    ensures status in {DiskError, OutOfFileBounds} ==>
      && done < length
      && (m.extTop == old(m.extTop) <==>
            UsesScratch(fat, if done == 0 then offset else 0, length - done, dst + done))
    ensures status == DiskError ==>
      FirstUnreadable(m.disk, fat, chain, offset, length, p) && done == StartOf(fat, offset, p)
    ensures status == OutOfFileBounds && m.disk.Working() ==>
      EndReached(fat, chain, offset) == Some(done) && !InBounds(fat, chain, offset, length)
    ensures status != Panic && Buffered(fat, length, dst) ==> m.extTop == old(m.extTop)
    ensures m.disk.Working() && old(RoomToRead(m, fat)) && old(PopsSafe(m, fat, length, dst)) ==>
      status in {Success, OutOfFileBounds}
  {
    hide IsChain, Followable, Follow, Classify, ClusterSize, Contents, ChunkFits, Wrap32, InData, UsesScratch, Got;
    hide ChunkSectors, StaleAt, EndReached, Arrived, Stale, InBounds, ReadableAt, StartOf;
    var n: nat := ClusterSize(fat);
    p := first;
    DivMod(offset, n);
    ghost var file := Contents(m.disk, fat, chain);
    ContentsAt(m.disk, fat, chain, p, 0);
    var from: U32, left: U32, to: nat, current := offset, length, dst, start;
    done := 0;
    NextStart(fat, offset, first, 0);
    while left != 0
      invariant m.Valid() && m.extTop == old(m.extTop) && OnlyAt(m, dst, length, old(m.extTop))
      invariant done + left == length && to == dst + done && (done > 0 ==> offset + done <= |file|)
      invariant done == 0 ==> from == offset && Stale(m, fat) == stale && p == first
      invariant done > 0 ==> from == 0 && ChunkLength(fat, offset, length) <= done
      invariant done > 0 ==> Arrived(m.ram[..], dst, fat, offset, length, stale, file, offset, done)
      invariant left > 0 ==> p < |chain| && current == chain[p] && offset + done == p * n + from % n
      invariant left > 0 ==> done == StartOf(fat, offset, p)
      invariant forall k: nat :: first <= k < p ==> ReadableAt(m.disk, fat, chain, offset, length, k)
      invariant first <= p
      invariant left > 0 ==> ClearBehind(m, fat, from, left, to)
      invariant done > 0 && left > 0 ==> ChunkFits(fat, 0, left)
      decreases left
    {
      ghost var was, behind := m.ram[..], Stale(m, fat);
      var take, next;
      status, take, next := ReadAndAdvance(m, fat, from, left, to, current, chain, p, offset + done, behind);
      SliceStep(n, p, from % n, take);
      ChunkOf(m.disk, fat, chain, offset, length, p, done, from, left);
      if status != Success {
        LastReached(fat, chain, offset, length, done, from, p, take);
        return;
      }
      if done > 0 {
        ArrivedOn(was, m.ram[..], dst, fat, offset, length, stale, file, done, take, left, behind);
      }
      from, to, left := 0, to + take, left - take;
      done := done + take;
      current := next;
      p := p + 1;
      if left != 0 {
        ChunkZeroFits(fat, left);
        NextStart(fat, offset, p, done);
      }
    }
    return Success, done, p;
  }

  /** `fat_read`; `reached` is where it failed. */
  method FatRead(m: Memory, fat: Fat, entry: DirEntry, offset: U32, length: U32, dst: nat, ghost chain: seq<U32>)
    returns (status: FatResult, ghost reached: Option<nat>)
    requires Readable(m, fat, entry, chain)
    requires length + ClusterSize(fat) <= LIMIT32 && Clear(m, dst, length)
    requires length > 0 ==> ClearBehind(m, fat, offset, length, dst)
    modifies m`extTop, m.ram
    ensures m.Valid() && OnlyAt(m, dst, length, old(m.extTop)) && status in {Success, DiskError, OutOfFileBounds, Panic}
    ensures status == Success ==> m.extTop == old(m.extTop) && InBounds(fat, chain, offset, length)
    ensures status == Success && length > 0 ==>
      && offset + length <= |Contents(m.disk, fat, chain)|
      && m.ram[dst..dst + length] == Delivery(fat, offset, length, old(Stale(m, fat)), Contents(m.disk, fat, chain))
    ensures status == Success && length > 0 && ChunkFits(fat, offset, length) ==>
      Delivered(m, dst, Contents(m.disk, fat, chain), offset, offset + length)
    ensures status in {DiskError, OutOfFileBounds} ==>
      && (reached.Some? ==> reached.value < length)
      && (m.extTop == old(m.extTop) <==> Balanced(fat, offset, length, dst, reached))
    ensures status == DiskError ==>
      exists q: nat ::
        FirstUnreadable(m.disk, fat, chain, offset, length, q) && reached == Some(StartOf(fat, offset, q))
    ensures status == OutOfFileBounds && m.disk.Working() ==> reached == EndReached(fat, chain, offset)
    ensures status != Panic && Buffered(fat, length, dst) ==> m.extTop == old(m.extTop)
    ensures m.disk.Working() && old(RoomToRead(m, fat)) && old(PopsSafe(m, fat, length, dst)) ==>
      status == if InBounds(fat, chain, offset, length) then Success else OutOfFileBounds
  {
    hide IsChain, ClusterSize, ChunkFits, UsesScratch, Got, Arrived, Delivery, StaleAt, ChunkLength, ChunkSectors;
    var clusterOffset := offset / ClusterSize(fat);
    DivMod(offset, ClusterSize(fat));
    ghost var stale := Stale(m, fat);
    reached := None;
    var current;
    status, current := Seek(m, fat, entry, clusterOffset, chain);
    if status != Success {
      return;
    }
    assert Stale(m, fat) == stale;
    ContentsAt(m.disk, fat, chain, clusterOffset, 0);
    hide Contents;
    ghost var done, p;
    status, done, p := ReadRange(m, fat, offset, length, dst, current, chain, clusterOffset, stale);
    reached := Some(done);
    if status == Success && length > 0 {
      ArrivedWhole(m.ram[..], dst, fat, offset, length, stale, Contents(m.disk, fat, chain));
    }
    if status == Success && length > 0 && ChunkFits(fat, offset, length) {
      FitsArrives(m.ram[..], dst, fat, offset, length, stale, Contents(m.disk, fat, chain), offset, length);
    }
  }

  /** The chunk at hand is the one of cluster `p`. */
  lemma ChunkOf(disk: Disk, fat: Fat, chain: seq<U32>, offset: U32, length: U32, p: nat, done: nat, from: U32,
                left: U32)
    requires ClusterSize(fat) > 0 && fat.bpb.bytesPerSector > 0 && p < |chain|
    requires done == StartOf(fat, offset, p) && done + left == length && left > 0
    requires if done == 0 then from == offset else from == 0
    ensures ReadableAt(disk, fat, chain, offset, length, p) <==> ChunkReadable(disk, fat, chain[p], from, left)
  {
    hide ClusterSize, ChunkReadable, StartOf;
  }

  /** The chunk behind `done` bytes, at the start of its cluster unless it is the first one. */
  lemma NextStart(fat: Fat, offset: U32, p: nat, done: nat)
    requires ClusterSize(fat) > 0
    requires if done == 0 then p == offset / ClusterSize(fat)
             else offset + done == p * ClusterSize(fat) && p > offset / ClusterSize(fat)
    ensures done == StartOf(fat, offset, p)
  {
    hide ClusterSize;
  }

  /** At the last cluster of the chain the bytes before the chunk are those before that cluster, and the range goes on
      behind it. */
  lemma LastReached(fat: Fat, chain: seq<U32>, offset: U32, length: U32, done: nat, from: U32, p: nat, take: nat)
    requires ClusterSize(fat) > 0 && p < |chain| && offset + done == p * ClusterSize(fat) + from % ClusterSize(fat)
    requires if done == 0 then from == offset && p == offset / ClusterSize(fat) else from == 0
    ensures p + 1 == |chain| ==> EndReached(fat, chain, offset) == Some(done)
    ensures p + 1 == |chain| && done + take < length && from % ClusterSize(fat) + take == ClusterSize(fat) ==>
      !InBounds(fat, chain, offset, length)
  {
    hide ClusterSize;
    var n: nat := ClusterSize(fat);
    DivMod(offset, n);
    DivUnique(0, n, 0, 0);
    MulAdd(p, 1, n);
    if done > 0 {
      DivLt(offset, |chain|, n);
    }
  }

  /** A read of two clusters of a chain of one, straight to low memory: it is out of bounds, and the sector that was
      never pushed is popped. */
  lemma UnmatchedPop(fat: Fat, chain: seq<U32>)
    requires fat.bpb.bytesPerSector == 512 && fat.bpb.sectorsPerCluster == 1 && |chain| == 1
    ensures ClusterSize(fat) == 512 && !InBounds(fat, chain, 0, 1024)
    ensures EndReached(fat, chain, 0) == Some(0) && !Balanced(fat, 0, 1024, 0x1_0000, EndReached(fat, chain, 0))
  {
    assert ClusterSize(fat) == 512;
    WrapId(1024);
    WrapId(0x1_0000 + 512);
  }
}
