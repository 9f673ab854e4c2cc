/** `fat_open`: a path resolved component by component, from the fixed root or the root cluster. */
module FileOpen {
  import opened Words
  import Arithmetic
  import opened Strings
  import opened Paths
  import opened Machine
  import opened Geometry
  import opened FatTable
  import opened FatFile
  import opened Directory

  // ----- the specification: a walk over directories -----

  ghost predicate HasChain(disk: Disk, fat: Fat, cluster: U32) {
    exists chain: seq<U32> :: IsChain(disk, fat, chain) && chain[0] == cluster
  }

  ghost function ChainOf(disk: Disk, fat: Fat, cluster: U32): (chain: seq<U32>)
    requires HasChain(disk, fat, cluster)
    ensures IsChain(disk, fat, chain) && chain[0] == cluster
  {
    var chain: seq<U32> :| IsChain(disk, fat, chain) && chain[0] == cluster;
    chain
  }

  /** A chain is determined by its first cluster. */
  lemma {:induction false} ChainUnique(disk: Disk, fat: Fat, a: seq<U32>, b: seq<U32>, i: nat)
    requires IsChain(disk, fat, a) && IsChain(disk, fat, b) && a[0] == b[0] && i < |a|
    ensures i < |b| && a[i] == b[i]
  {
    if i > 0 {
      ChainUnique(disk, fat, a, b, i - 1);
      ChainStep(disk, fat, a, i - 1);
      ChainStep(disk, fat, b, i - 1);
      assert i < |b| ==> Follow(disk, fat, b[i - 1]) == b[i];
    }
  }

  lemma ChainsEqual(disk: Disk, fat: Fat, a: seq<U32>, b: seq<U32>)
    requires IsChain(disk, fat, a) && IsChain(disk, fat, b) && a[0] == b[0]
    ensures a == b
  {
    ChainUnique(disk, fat, a, b, |a| - 1);
    ChainUnique(disk, fat, b, a, |b| - 1);
    forall i | 0 <= i < |a| ensures i < |b| && a[i] == b[i] {
      ChainUnique(disk, fat, a, b, i);
    }
  }

  /** A component looked up in the directory an entry points to. */
  ghost function LookupIn(disk: Disk, fat: Fat, dir: DirEntry, name: seq<U8>): Option<DirEntry>
    requires HasChain(disk, fat, dir.FirstCluster())
  {
    SearchChain(disk, fat, ChainOf(disk, fat, dir.FirstCluster()), name)
  }

  /** Every directory the walk enters has a chain. */
  ghost predicate Resolvable(disk: Disk, fat: Fat, dir: DirEntry, segments: seq<seq<U8>>)
    decreases |segments|
  {
    segments != [] ==>
      && HasChain(disk, fat, dir.FirstCluster())
      && var e := LookupIn(disk, fat, dir, segments[0]);
         e.Some? ==> Resolvable(disk, fat, e.value, segments[1..])
  }

  ghost function Resolve(disk: Disk, fat: Fat, dir: DirEntry, segments: seq<seq<U8>>): Option<DirEntry>
    requires Resolvable(disk, fat, dir, segments)
    decreases |segments|
  {
    if segments == [] then Some(dir)
    else
      match LookupIn(disk, fat, dir, segments[0])
      case None => None
      case Some(e) => Resolve(disk, fat, e, segments[1..])
  }

  /** First sector of the fixed root directory of FAT12 and FAT16. */
  function RootSector(fat: Fat): nat
    requires fat.rootDirSectors <= fat.firstDataSector
  {
    fat.firstDataSector - fat.rootDirSectors
  }

  function RootByte(disk: Disk, fat: Fat, i: nat): U8
    requires fat.rootDirSectors <= fat.firstDataSector
  {
    disk.byteAt(RootSector(fat) * fat.bpb.bytesPerSector + i)
  }

  /** The bytes of the root entries. */
  function RootBytes(disk: Disk, fat: Fat): (bytes: seq<U8>)
    requires fat.rootDirSectors <= fat.firstDataSector
    ensures |bytes| == ENTRY_SIZE * fat.bpb.rootEntryCount
    ensures forall i :: 0 <= i < |bytes| ==> bytes[i] == RootByte(disk, fat, i)
  {
    var n: int := fat.bpb.rootEntryCount;
    seq(ENTRY_SIZE * n, i requires 0 <= i => RootByte(disk, fat, i))
  }

  /** The record `fat_open` starts from on FAT32. */
  function RootDirectory(fat: Fat): DirEntry {
    DirEntry([0, 0, 0, 0, 0, 0, 0, 0, 0, 0, 0], 0, fat.bpb.rootCluster / 0x1_0000, fat.bpb.rootCluster % 0x1_0000, 0)
  }

  /** The volume as `fat_open` needs it. */
  ghost predicate Volume(m: Memory, fat: Fat)
    reads m
  {
    && OnDisk(m, fat) && Sound(fat) && fat.rootDirSectors <= fat.firstDataSector
    && ENTRY_SIZE * fat.bpb.rootEntryCount <= fat.rootDirSectors * fat.bpb.bytesPerSector
  }

  /** Every directory on the way is well formed. */
  ghost predicate Walkable(disk: Disk, fat: Fat, segments: seq<seq<U8>>)
    requires fat.rootDirSectors <= fat.firstDataSector
  {
    segments != [] ==>
      if fat.ty == Fat32 then Resolvable(disk, fat, RootDirectory(fat), segments)
      else
        var e := LookupName(Entries(RootBytes(disk, fat)), segments[0]);
        e.Some? ==> Resolvable(disk, fat, e.value, segments[1..])
  }

  /** The entry a list of components leads to. */
  ghost function Walk(disk: Disk, fat: Fat, segments: seq<seq<U8>>): Option<DirEntry>
    requires fat.rootDirSectors <= fat.firstDataSector && Walkable(disk, fat, segments)
  {
    if segments == [] then None
    else if fat.ty == Fat32 then Resolve(disk, fat, RootDirectory(fat), segments)
    else
      match LookupName(Entries(RootBytes(disk, fat)), segments[0])
      case None => None
      case Some(e) => Resolve(disk, fat, e, segments[1..])
  }

  /** What `fat_open` reports for the entry found. */
  function Verdict(e: Option<DirEntry>): FatResult {
    if e == None then FileNotFound
    else if HasBit(e.value.attr, ATTR_DIRECTORY) then IsDirectory
    else FatResult.Success
  }

  /** Scratch memory for every buffer the walk pushes. */
  predicate RoomToOpen(m: Memory, fat: Fat)
    reads m
  {
    RoomToRead(m, fat) && m.Room() >= fat.rootDirSectors * fat.bpb.bytesPerSector
  }

  // ----- the code -----

  lemma RootSize(sectors: U16, bps: U16)
    ensures 0 <= sectors * bps < LIMIT32
  {
    Arithmetic.MulLe(sectors, 0xFFFF, bps);
    Arithmetic.MulLe(bps, 0xFFFF, 0xFFFF);
    Arithmetic.MulLe(0, sectors, bps);
  }

  /** Reads the sectors of the fixed root directory. */
  method ReadRoot(m: Memory, fat: Fat, buffer: nat) returns (ok: bool)
    requires Volume(m, fat) && buffer + fat.rootDirSectors * m.disk.sectorSize <= m.ram.Length
    modifies m.ram
    ensures ok == (buffer <= REAL_MODE_LIMIT && m.disk.Readable(RootSector(fat), fat.rootDirSectors))
    ensures ok ==> m.ram[buffer..buffer + ENTRY_SIZE * fat.bpb.rootEntryCount] == RootBytes(m.disk, fat)
    ensures OnlyAt(m, buffer, fat.rootDirSectors * m.disk.sectorSize, 0)
  {
    hide RootBytes;
    ok := m.DiskRead(fat.firstDataSector - fat.rootDirSectors, buffer, fat.rootDirSectors);
    if ok {
      var n: nat := ENTRY_SIZE * fat.bpb.rootEntryCount;
      forall i | 0 <= i < n ensures m.ram[buffer..buffer + n][i] == RootBytes(m.disk, fat)[i] {
        assert m.ram[buffer + i] == RootByte(m.disk, fat, i);
      }
    }
  }

  /** `search_root_for_entry`; a failed read counts as not found. */
  method SearchRootForEntry(m: Memory, fat: Fat, name: seq<U8>) returns (panicked: bool, found: Option<DirEntry>)
    requires Volume(m, fat) && 0 !in name
    modifies m`extTop, m.ram
    ensures m.Valid() && m.extTop == old(m.extTop) && OnlyScratch(m, m.extTop)
    ensures panicked <==> m.Room() < fat.rootDirSectors * fat.bpb.bytesPerSector
    ensures !panicked && (found.Some? || m.disk.Working()) ==>
      found == LookupName(Entries(RootBytes(m.disk, fat)), name)
  {
    hide LookupName, Entries, RootBytes;
    found := None;
    var sectorCount: int, bps: int := fat.rootDirSectors, fat.bpb.bytesPerSector;
    var bufferSize := sectorCount * bps;
    RootSize(sectorCount, bps);
    var pushed, buffer := m.Push(bufferSize);
    if !pushed {
      return true, found;
    }
    var read := ReadRoot(m, fat, buffer);
    if read {
      found := SearchForEntry(m, buffer, fat.bpb.rootEntryCount, name);
    }
    var _ := m.Pop(bufferSize);
    return false, found;
  }

  /** The next component, as the string now in the segment buffer. */
  method NextComponent(path: seq<U8>, at: nat, segment: array<U8>) returns (next: nat, name: seq<U8>)
    requires 0 !in path && at <= |path| && segment.Length == MAX_NAME_LEN + 1
    modifies segment
    ensures next == After(path, at) && name == Segment(path, at) && 0 !in name
    ensures Segments(path, at) == if name == [] then [] else [name] + Segments(path, next)
  {
    next := GetNextSegment(path, at, segment);
    ghost var n := |Segment(path, at)|;
    SegmentNoNul(path, at);
    assert segment[..][..n] == segment[..n];
    CStrEnds(segment[..], n);
    SegmentsStep(path, at);
    name := CStr(segment[..]);
  }

  lemma SegmentNoNul(path: seq<U8>, at: nat)
    requires 0 !in path && at <= |path|
    ensures 0 !in Segment(path, at)
  {
    var s := Segment(path, at);
    forall i | 0 <= i < |s| ensures s[i] != 0 {
      assert s[i] == path[at + 1..][i];
    }
  }

  lemma ResolveStep(disk: Disk, fat: Fat, dir: DirEntry, segments: seq<seq<U8>>)
    requires segments != [] && Resolvable(disk, fat, dir, segments)
    ensures HasChain(disk, fat, dir.FirstCluster())
    ensures var e := SearchChain(disk, fat, ChainOf(disk, fat, dir.FirstCluster()), segments[0]);
      if e == None then Resolve(disk, fat, dir, segments) == None
      else Resolvable(disk, fat, e.value, segments[1..])
           && Resolve(disk, fat, dir, segments) == Resolve(disk, fat, e.value, segments[1..])
  {
  }

  /** The loop over the components below the starting directory. */
  method ResolvePath(m: Memory, fat: Fat, path: seq<U8>, from: nat, segment: array<U8>, first: seq<U8>, start: DirEntry)
    returns (status: FatResult, file: DirEntry)
    requires Volume(m, fat) && 0 !in path && from <= |path| && segment.Length == MAX_NAME_LEN + 1 && segment != m.ram
    requires 0 !in first
    requires Resolvable(m.disk, fat, start, if first == [] then [] else [first] + Segments(path, from))
    modifies m`extTop, m.ram, segment
    ensures m.Valid() && OnlyScratch(m, old(m.extTop)) && status in {Success, FileNotFound, DiskError, Panic}
    ensures status != Panic ==> m.extTop == old(m.extTop)
    ensures var found := Resolve(m.disk, fat, start, if first == [] then [] else [first] + Segments(path, from));
      && (status == Success ==> found == Some(file))
      && (m.disk.Working() && old(RoomToOpen(m, fat)) ==> status == if found == None then FileNotFound else Success)
  {
    hide Segments, Resolvable, Resolve, SearchChain, IsChain, RootBytes, After, Segment;
    file := start;
    var at: nat, name := from, first;
    ghost var todo := if name == [] then [] else [name] + Segments(path, at);
    ghost var goal := Resolve(m.disk, fat, start, todo);
    while name != []
      invariant m.Valid() && OnlyScratch(m, old(m.extTop)) && m.extTop == old(m.extTop)
      invariant at <= |path| && 0 !in name && todo == if name == [] then [] else [name] + Segments(path, at)
      invariant Resolvable(m.disk, fat, file, todo) && Resolve(m.disk, fat, file, todo) == goal
      decreases |todo|
    {
      ResolveStep(m.disk, fat, file, todo);
      assert todo[1..] == Segments(path, at);
      var found;
      status, found := SearchDirectory(m, fat, file.FirstCluster(), name, ChainOf(m.disk, fat, file.FirstCluster()));
      if status != Success {
        return;
      }
      if found == None {
        return FileNotFound, file;
      }
      file := found.value;
      at, name := NextComponent(path, at, segment);
      todo := todo[1..];
    }
    ResolveEnd(m.disk, fat, file);
    return Success, file;
  }

  lemma ResolveEnd(disk: Disk, fat: Fat, dir: DirEntry)
    requires Resolvable(disk, fat, dir, [])
    ensures Resolve(disk, fat, dir, []) == Some(dir)
  {
  }

  // ----- the walk over the records on the disk -----

  ghost predicate StartsAt(disk: Disk, fat: Fat, chain: seq<U32>, cluster: U32) {
    IsChain(disk, fat, chain) && chain[0] == cluster
  }

  /** The components lead from the directory at a cluster to a record: each to the first live record of its name in the
      first cluster that has one, and the next goes on at the cluster that record gives. */
  ghost predicate LeadsTo(disk: Disk, fat: Fat, cluster: U32, segments: seq<seq<U8>>, r: DirRecord)
    decreases |segments|
  {
    segments != [] &&
    exists chain: seq<U32>, p: nat, q: DirRecord ::
      && StartsAt(disk, fat, chain, cluster) && NamedInChain(disk, fat, chain, segments[0], p, q)
      && if |segments| == 1 then r == q else LeadsTo(disk, fat, q.Cluster(), segments[1..], r)
  }

  /** A path leads to a record, from the fixed root directory or, on FAT32, from the root cluster. */
  ghost predicate PathLeadsTo(disk: Disk, fat: Fat, segments: seq<seq<U8>>, r: DirRecord)
    requires fat.rootDirSectors <= fat.firstDataSector
  {
    segments != [] &&
    if fat.ty == Fat32 then LeadsTo(disk, fat, fat.bpb.rootCluster, segments, r)
    else
      exists q :: NamedIn(RootBytes(disk, fat), segments[0], q)
        && if |segments| == 1 then r == q else LeadsTo(disk, fat, q.Cluster(), segments[1..], r)
  }

  /** The record for the root cluster of FAT32 gives that cluster. */
  lemma RootIsRootCluster(fat: Fat)
    ensures RootDirectory(fat).FirstCluster() == fat.bpb.rootCluster
    ensures RootDirectory(fat).attr == 0 && RootDirectory(fat).fileSize == 0
  {
  }

  lemma {:induction false} ResolveReadsRecords(disk: Disk, fat: Fat, dir: DirEntry, segments: seq<seq<U8>>)
    requires Resolvable(disk, fat, dir, segments) && segments != []
    requires forall i :: 0 <= i < |segments| ==> 0 !in segments[i]
    ensures forall r :: LeadsTo(disk, fat, dir.FirstCluster(), segments, r) ==>
      Resolve(disk, fat, dir, segments).Some? && Reads(Resolve(disk, fat, dir, segments).value, r)
    ensures Resolve(disk, fat, dir, segments).Some? ==> exists r :: LeadsTo(disk, fat, dir.FirstCluster(), segments, r)
    decreases |segments|
  {
    hide IsChain, NamedInChain, SearchChain, DirEntry.FirstCluster, DirRecord.Cluster;
    var chain, rest := ChainOf(disk, fat, dir.FirstCluster()), segments[1..];
    SearchReadsRecords(disk, fat, chain, segments[0]);
    var e := LookupIn(disk, fat, dir, segments[0]);
    if e.Some? && rest != [] {
      ResolveReadsRecords(disk, fat, e.value, rest);
    }
    forall r | LeadsTo(disk, fat, dir.FirstCluster(), segments, r)
      ensures Resolve(disk, fat, dir, segments).Some? && Reads(Resolve(disk, fat, dir, segments).value, r)
    {
      var other: seq<U32>, p: nat, q :| StartsAt(disk, fat, other, dir.FirstCluster())
        && NamedInChain(disk, fat, other, segments[0], p, q)
        && if |segments| == 1 then r == q else LeadsTo(disk, fat, q.Cluster(), segments[1..], r);
      ChainsEqual(disk, fat, other, chain);
    }
    if Resolve(disk, fat, dir, segments).Some? {
      var p: nat, q :| NamedInChain(disk, fat, chain, segments[0], p, q);
      if rest == [] {
        assert LeadsTo(disk, fat, dir.FirstCluster(), segments, q);
      } else {
        var r :| LeadsTo(disk, fat, e.value.FirstCluster(), rest, r);
        assert LeadsTo(disk, fat, dir.FirstCluster(), segments, r);
      }
    }
  }

  /** What the walk finds is the record the path leads to, and it finds something exactly when there is one. */
  lemma WalkReadsRecords(disk: Disk, fat: Fat, segments: seq<seq<U8>>)
    requires fat.rootDirSectors <= fat.firstDataSector && Walkable(disk, fat, segments)
    requires forall i :: 0 <= i < |segments| ==> 0 !in segments[i]
    ensures forall r :: PathLeadsTo(disk, fat, segments, r) ==>
      Walk(disk, fat, segments).Some? && Reads(Walk(disk, fat, segments).value, r)
    ensures Walk(disk, fat, segments).Some? ==> exists r :: PathLeadsTo(disk, fat, segments, r)
  {
    hide RootBytes, NamedIn, LookupName, LeadsTo, Resolve, Resolvable, DirEntry.FirstCluster, DirRecord.Cluster;
    if segments != [] && fat.ty == Fat32 {
      RootIsRootCluster(fat);
      ResolveReadsRecords(disk, fat, RootDirectory(fat), segments);
      if Walk(disk, fat, segments).Some? {
        var r :| LeadsTo(disk, fat, fat.bpb.rootCluster, segments, r);
        assert PathLeadsTo(disk, fat, segments, r);
      }
    } else if segments != [] {
      var bytes, rest := RootBytes(disk, fat), segments[1..];
      LookupReadsNamed(bytes, segments[0]);
      var e := LookupName(Entries(bytes), segments[0]);
      if e.Some? {
        var q :| NamedIn(bytes, segments[0], q);
        if rest == [] {
          ResolveEnd(disk, fat, e.value);
          assert PathLeadsTo(disk, fat, segments, q);
        } else {
          ResolveReadsRecords(disk, fat, e.value, rest);
          if Walk(disk, fat, segments).Some? {
            var r :| LeadsTo(disk, fat, e.value.FirstCluster(), rest, r);
            assert PathLeadsTo(disk, fat, segments, r);
          }
        }
      }
    }
  }

  /** What is reported, in terms of the record: is a directory when bit 4 of its attributes is set. */
  lemma VerdictReadsRecords(disk: Disk, fat: Fat, path: seq<U8>)
    requires 0 !in path
    requires fat.rootDirSectors <= fat.firstDataSector && Walkable(disk, fat, Segments(path, 0))
    ensures var segments := Segments(path, 0);
      var found := Walk(disk, fat, segments);
      && (forall r :: PathLeadsTo(disk, fat, segments, r) ==>
            && found.Some? && Reads(found.value, r)
            && Verdict(found) == if r.IsDirectory() then IsDirectory else FatResult.Success)
      && (Verdict(found) == FileNotFound <==> forall r :: !PathLeadsTo(disk, fat, segments, r))
  {
    hide Walk, Walkable, PathLeadsTo, DirEntry.FirstCluster, DirRecord.Cluster;
    SegmentsHoldNoNul(path, 0);
    WalkReadsRecords(disk, fat, Segments(path, 0));
  }

  /** `fat_open` */
  method FatOpen(m: Memory, fat: Fat, path: seq<U8>) returns (status: FatResult, file: DirEntry)
    requires Volume(m, fat) && 0 !in path && Walkable(m.disk, fat, Segments(path, 0))
    modifies m`extTop, m.ram
    ensures m.Valid() && OnlyScratch(m, old(m.extTop))
    ensures status != Panic ==> m.extTop == old(m.extTop)
    ensures var found := Walk(m.disk, fat, Segments(path, 0));
      && (status in {Success, IsDirectory} ==> found == Some(file) && status == Verdict(found))
      && (m.disk.Working() && old(RoomToOpen(m, fat)) ==> status == Verdict(found))
    ensures var segments := Segments(path, 0);
      && (status in {Success, IsDirectory} ==> exists r :: PathLeadsTo(m.disk, fat, segments, r))
      && (status in {Success, IsDirectory} || (m.disk.Working() && old(RoomToOpen(m, fat))) ==>
            forall r :: PathLeadsTo(m.disk, fat, segments, r) ==>
              Reads(file, r) && status == if r.IsDirectory() then IsDirectory else FatResult.Success)
      && (m.disk.Working() && old(RoomToOpen(m, fat)) ==>
            (status == FileNotFound <==> forall r :: !PathLeadsTo(m.disk, fat, segments, r)))
  {
    hide Segments, Resolvable, Resolve, SearchChain, IsChain, RootBytes, After, Segment, LookupName;
    hide PathLeadsTo, Reads, DirRecord.IsDirectory;
    VerdictReadsRecords(m.disk, fat, path);
    var segment := new U8[MAX_NAME_LEN + 1];
    var directory := RootDirectory(fat);
    file := directory;
    var at, name := NextComponent(path, 0, segment);
    if name == [] {
      return FileNotFound, file;
    }
    if fat.ty != Fat32 {
      var panicked, found := SearchRootForEntry(m, fat, name);
      if panicked {
        return Panic, file;
      }
      if found == None {
        return FileNotFound, file;
      }
      directory := found.value;
      assert ([name] + Segments(path, at))[1..] == Segments(path, at);
      at, name := NextComponent(path, at, segment);
    }
    status, file := ResolvePath(m, fat, path, at, segment, name, directory);
    if status == Success && HasBit(file.attr, ATTR_DIRECTORY) {
      return IsDirectory, file;
    }
  }

  // ----- the walk over flat lists -----

  /** Every directory the walk enters ends its list once. */
  ghost predicate WellKept(disk: Disk, fat: Fat, dir: DirEntry, segments: seq<seq<U8>>)
    requires Resolvable(disk, fat, dir, segments)
    decreases |segments|
  {
    segments != [] ==>
      && EndsOnce(DirectoryEntries(disk, fat, ChainOf(disk, fat, dir.FirstCluster())))
      && var e := LookupIn(disk, fat, dir, segments[0]);
         e.Some? ==> WellKept(disk, fat, e.value, segments[1..])
  }

  /** `entry` is reached from `dir` by taking, for each component, the first live, non-volume match in the
      flat list of entries of the directory reached so far. */
  ghost predicate Leads(disk: Disk, fat: Fat, dir: DirEntry, segments: seq<seq<U8>>, entry: Option<DirEntry>)
    decreases |segments|
  {
    if segments == [] then entry == Some(dir)
    else exists chain: seq<U32> ::
      && IsChain(disk, fat, chain) && chain[0] == dir.FirstCluster()
      && match LookupName(DirectoryEntries(disk, fat, chain), segments[0])
         case None => entry == None
         case Some(e) => Leads(disk, fat, e, segments[1..], entry)
  }

  /** What `fat_open` resolves is where the flat walk leads, and only there. */
  lemma {:induction false} ResolveIsFlatWalk(disk: Disk, fat: Fat, dir: DirEntry, segments: seq<seq<U8>>,
                                             entry: Option<DirEntry>)
    requires ClusterSize(fat) % ENTRY_SIZE == 0
    requires Resolvable(disk, fat, dir, segments) && WellKept(disk, fat, dir, segments)
    ensures Leads(disk, fat, dir, segments, entry) <==> entry == Resolve(disk, fat, dir, segments)
    decreases |segments|
  {
    if segments != [] {
      hide SearchChain, IsChain, LookupName, DirectoryEntries, EndsOnce, ClusterSize;
      var chain := ChainOf(disk, fat, dir.FirstCluster());
      SearchChainIsFlat(disk, fat, chain, segments[0]);
      var e := LookupIn(disk, fat, dir, segments[0]);
      if e.Some? {
        ResolveIsFlatWalk(disk, fat, e.value, segments[1..], entry);
      }
      forall other: seq<U32> | IsChain(disk, fat, other) && other[0] == dir.FirstCluster() ensures other == chain {
        ChainsEqual(disk, fat, other, chain);
      }
    }
  }

  // ----- the walk through directories only -----

  /** An entry that may be entered: a directory, or the end of the path. */
  predicate Enterable(e: DirEntry, rest: seq<seq<U8>>) {
    rest == [] || HasBit(e.attr, ATTR_DIRECTORY)
  }

  /** Resolving as `Resolve` does, but entering directories only. */
  ghost function ResolveDirectories(disk: Disk, fat: Fat, dir: DirEntry, segments: seq<seq<U8>>): Option<DirEntry>
    requires Resolvable(disk, fat, dir, segments)
    decreases |segments|
  {
    if segments == [] then Some(dir)
    else
      match LookupIn(disk, fat, dir, segments[0])
      case None => None
      case Some(e) =>
        if Enterable(e, segments[1..]) then ResolveDirectories(disk, fat, e, segments[1..]) else None
  }

  /** Every entry entered on the way is a directory. */
  ghost predicate OnlyDirectories(disk: Disk, fat: Fat, dir: DirEntry, segments: seq<seq<U8>>)
    requires Resolvable(disk, fat, dir, segments)
    decreases |segments|
  {
    segments != [] ==>
      var e := LookupIn(disk, fat, dir, segments[0]);
      e.Some? ==> Enterable(e.value, segments[1..]) && OnlyDirectories(disk, fat, e.value, segments[1..])
  }

  lemma {:induction false} ResolveAgreesExactly(disk: Disk, fat: Fat, dir: DirEntry, segments: seq<seq<U8>>)
    requires Resolvable(disk, fat, dir, segments)
    ensures Resolve(disk, fat, dir, segments) == ResolveDirectories(disk, fat, dir, segments) <==>
      OnlyDirectories(disk, fat, dir, segments) || Resolve(disk, fat, dir, segments) == None
    decreases |segments|
  {
    hide Enterable, LookupIn, HasChain;
    if segments != [] {
      var e, rest := LookupIn(disk, fat, dir, segments[0]), segments[1..];
      if e.Some? {
        ResolveAgreesExactly(disk, fat, e.value, rest);
        assert Resolve(disk, fat, dir, segments) == Resolve(disk, fat, e.value, rest);
        assert ResolveDirectories(disk, fat, dir, segments) ==
               if Enterable(e.value, rest) then ResolveDirectories(disk, fat, e.value, rest) else None;
        assert OnlyDirectories(disk, fat, dir, segments) <==>
               Enterable(e.value, rest) && OnlyDirectories(disk, fat, e.value, rest);
        hide Resolve, ResolveDirectories, OnlyDirectories;
      }
    }
  }

  /** The entry a list of components leads to through directories only. */
  ghost function WalkDirectories(disk: Disk, fat: Fat, segments: seq<seq<U8>>): Option<DirEntry>
    requires fat.rootDirSectors <= fat.firstDataSector && Walkable(disk, fat, segments)
  {
    if segments == [] then None
    else if fat.ty == Fat32 then ResolveDirectories(disk, fat, RootDirectory(fat), segments)
    else
      match LookupName(Entries(RootBytes(disk, fat)), segments[0])
      case None => None
      case Some(e) =>
        if Enterable(e, segments[1..]) then ResolveDirectories(disk, fat, e, segments[1..]) else None
  }

  /** The walk enters directories only. */
  ghost predicate EntersDirectories(disk: Disk, fat: Fat, segments: seq<seq<U8>>)
    requires fat.rootDirSectors <= fat.firstDataSector && Walkable(disk, fat, segments)
  {
    segments != [] ==>
      if fat.ty == Fat32 then OnlyDirectories(disk, fat, RootDirectory(fat), segments)
      else
        var e := LookupName(Entries(RootBytes(disk, fat)), segments[0]);
        e.Some? ==> Enterable(e.value, segments[1..]) && OnlyDirectories(disk, fat, e.value, segments[1..])
  }

  /** The code never asks whether what it enters is a directory: its walk is the one through directories only exactly
      when it meets directories only, or finds nothing. */
  lemma WalkAgreesExactly(disk: Disk, fat: Fat, segments: seq<seq<U8>>)
    requires fat.rootDirSectors <= fat.firstDataSector && Walkable(disk, fat, segments)
    ensures Walk(disk, fat, segments) == WalkDirectories(disk, fat, segments) <==>
      EntersDirectories(disk, fat, segments) || Walk(disk, fat, segments) == None
  {
    hide Entries, RootBytes, LookupName;
    if segments != [] && fat.ty == Fat32 {
      ResolveAgreesExactly(disk, fat, RootDirectory(fat), segments);
    } else if segments != [] {
      var e := LookupName(Entries(RootBytes(disk, fat)), segments[0]);
      if e.Some? {
        ResolveAgreesExactly(disk, fat, e.value, segments[1..]);
      }
    }
  }

  /** The bytes of a regular file are searched as entries: what matches there is opened. */
  lemma FileEnteredAsDirectory(disk: Disk, fat: Fat, dir: DirEntry, file: DirEntry, inside: DirEntry, f: seq<U8>,
                               x: seq<U8>)
    requires Resolvable(disk, fat, dir, [f, x]) && LookupIn(disk, fat, dir, f) == Some(file)
    requires !HasBit(file.attr, ATTR_DIRECTORY) && HasChain(disk, fat, file.FirstCluster())
    requires LookupIn(disk, fat, file, x) == Some(inside)
    ensures Resolve(disk, fat, dir, [f, x]) == Some(inside)
    ensures ResolveDirectories(disk, fat, dir, [f, x]) == None
  {
    assert [f, x][1..] == [x] && [x][1..] == [];
    assert Resolve(disk, fat, file, [x]) == Resolve(disk, fat, inside, []);
  }
}
