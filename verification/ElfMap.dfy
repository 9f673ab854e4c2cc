/**
 * The memory map while an ELF file is loaded: the overlap guard, the insertion of each segment, and what
 * the map means at the end, on values.
 */
module ElfMap {
  import opened Words
  import opened Regions
  import opened Insertion

  /** A 32-bit program header (System V gABI, chapter 5, "Program Header"). */
  datatype ProgramHeader = ProgramHeader(
    pType: U32,
    pOffset: U32,
    pVaddr: U32,
    pPaddr: U32,
    pFilesz: U32,
    pMemsz: U32,
    pFlags: U32,
    pAlign: U32)
  {
    predicate IsLoad() {
      pType == 1
    }

    /** The region `append_memregion` inserts. */
    function Segment(): Region {
      Region(pVaddr, pMemsz, ElfExecutable, false)
    }

    predicate Covers(a: int) {
      IsLoad() && Segment().Has(a)
    }
  }

  /** The test of `is_intersecting_used_memregions` on one region that is not usable; the sum of the
      region is a uint64_t, that of the segment a uint32_t. */
  predicate Clashes(r: Region, ph: ProgramHeader) {
    if r.base < ph.pVaddr then (r.base + r.size) % LIMIT64 > ph.pVaddr
    else Wrap32(ph.pVaddr + ph.pMemsz) > r.base
  }

  predicate Intersects(rs: seq<Region>, ph: ProgramHeader) {
    ph.pMemsz == 0 || exists i :: 0 <= i < |rs| && rs[i].ty != Usable && Clashes(rs[i], ph)
  }

  /** The segment is refused. */
  predicate Refused(rs: seq<Region>, ph: ProgramHeader) {
    ph.pVaddr < REAL_MODE_LIMIT || Intersects(rs, ph)
  }

  /** Address `a` is no bound of a region. */
  predicate OffBounds(rs: seq<Region>, a: int) {
    forall i :: 0 <= i < |rs| ==> rs[i].base != a && rs[i].End() != a
  }

  /** The segment ends inside the map, without wrapping. */
  predicate InMap(rs: seq<Region>, ph: ProgramHeader) {
    ph.pVaddr + ph.pMemsz < LIMIT32 && rs != [] && ph.pVaddr + ph.pMemsz <= rs[|rs| - 1].End()
  }

  /** The segment's bounds are off the region bounds and it ends inside the map. */
  predicate Apart(rs: seq<Region>, ph: ProgramHeader) {
    InMap(rs, ph) && OffBounds(rs, ph.pVaddr) && OffBounds(rs, ph.pVaddr + ph.pMemsz)
  }

  /** A map as `get_mem_regions` leaves it: tidy and starting at address 0. */
  ghost predicate FullMap(rs: seq<Region>) {
    Tidy(rs) && rs != [] && rs[0].base == 0
  }

  // ----- the guard -----

  /** In a map without gaps every address below the end lies in some region. */
  lemma {:induction false} Locate(rs: seq<Region>, a: int) returns (k: nat)
    requires Tidy(rs) && rs != [] && rs[0].base <= a < rs[|rs| - 1].End()
    ensures k < |rs| && rs[k].Has(a)
  {
    if a < rs[0].End() {
      k := 0;
    } else {
      TidyTail(rs);
      k := Locate(rs[1..], a);
      k := k + 1;
    }
  }

  /** The guard and the absence of gaps force a segment strictly inside one usable region. */
  lemma GuardForcesInside(rs: seq<Region>, ph: ProgramHeader) returns (k: nat)
    requires FullMap(rs) && Apart(rs, ph) && !Refused(rs, ph)
    ensures k < |rs| && rs[k].ty == Usable
    ensures rs[k].base < ph.pVaddr && ph.pVaddr + ph.pMemsz < rs[k].End() && ph.pMemsz > 0
  {
    k := GuardPlaces(rs, ph);
    assert rs[k].base != ph.pVaddr && rs[k].End() != ph.pVaddr + ph.pMemsz;
  }

  lemma NoClash(rs: seq<Region>, ph: ProgramHeader, i: nat)
    requires i < |rs| && !Refused(rs, ph)
    ensures rs[i].ty == Usable || !Clashes(rs[i], ph)
  {
  }

  lemma NextRegion(rs: seq<Region>, k: nat)
    requires Tidy(rs) && k + 1 < |rs|
    ensures rs[k].End() == rs[k + 1].base && (rs[k].ty == Usable ==> rs[k + 1].ty != Usable)
  {
  }

  /** Where the guard lets a segment start: in a usable region that it does not outgrow. */
  lemma GuardPlaces(rs: seq<Region>, ph: ProgramHeader) returns (k: nat)
    requires FullMap(rs) && InMap(rs, ph) && !Refused(rs, ph)
    ensures k < |rs| && rs[k].ty == Usable && ph.pMemsz > 0
    ensures rs[k].base <= ph.pVaddr < ph.pVaddr + ph.pMemsz <= rs[k].End()
  {
    var v, end: int := ph.pVaddr, ph.pVaddr + ph.pMemsz;
    WrapId(end);
    k := Locate(rs, v);
    assert rs[k].Fits();
    NoClash(rs, ph, k);
    if k + 1 < |rs| {
      NextRegion(rs, k);
      NoClash(rs, ph, k + 1);
    }
  }

  /** The segment is not empty, above real-mode memory, and usable from its first to its last byte. */
  ghost predicate Free(rs: seq<Region>, ph: ProgramHeader) {
    && ph.pVaddr >= REAL_MODE_LIMIT && ph.pMemsz > 0
    && forall a :: ph.Segment().Has(a) ==> TypeAt(rs, a) == Some(Usable)
  }

  /** A region that is not usable and clashes shares an address with the segment. */
  lemma ClashShares(rs: seq<Region>, ph: ProgramHeader, i: nat) returns (a: int)
    requires FullMap(rs) && InMap(rs, ph) && ph.pMemsz > 0 && i < |rs| && Clashes(rs[i], ph)
    ensures ph.Segment().Has(a) && TypeAt(rs, a) == Some(rs[i].ty)
  {
    WrapId(ph.pVaddr + ph.pMemsz);
    assert rs[i].Fits() && rs[i].size > 0;
    a := if rs[i].base < ph.pVaddr then ph.pVaddr else rs[i].base;
    TypeAtIndex(rs, i, a);
  }

  /** The guard accepts exactly the segments that are free. */
  lemma GuardExactly(rs: seq<Region>, ph: ProgramHeader)
    requires FullMap(rs) && InMap(rs, ph)
    ensures !Refused(rs, ph) <==> Free(rs, ph)
  {
    hide Tidy, TypeAt, Clashes;
    if !Refused(rs, ph) {
      var k := GuardPlaces(rs, ph);
      forall a | ph.Segment().Has(a) ensures TypeAt(rs, a) == Some(Usable) {
        UsableInside(rs, k, a);
      }
    } else if ph.pVaddr >= REAL_MODE_LIMIT && ph.pMemsz > 0 {
      var i :| 0 <= i < |rs| && rs[i].ty != Usable && Clashes(rs[i], ph);
      var a := ClashShares(rs, ph, i);
    }
  }

  lemma UsableInside(rs: seq<Region>, k: nat, a: int)
    requires Tidy(rs) && k < |rs| && rs[k].Has(a)
    ensures TypeAt(rs, a) == Some(rs[k].ty)
  {
    TypeAtIndex(rs, k, a);
  }

  /** A region of the map has no bound of another one inside. */
  lemma InnerIsOffBounds(rs: seq<Region>, k: nat, a: int)
    requires Tidy(rs) && k < |rs| && rs[k].base <= a <= rs[k].End()
    ensures OffBounds(rs, a) <==> rs[k].base < a < rs[k].End()
  {
    assert rs[k].Fits();
    forall i | 0 <= i < |rs| && i != k ensures rs[i].End() <= rs[k].base || rs[k].End() <= rs[i].base {
    }
    forall i | 0 <= i < |rs| ensures rs[i].Fits() && rs[i].size > 0 {
    }
  }

  /** A segment the guard accepts is inserted into a sorted map exactly when its bounds are off the bounds of
      the regions: at the start of a usable region the map ends up overlapping, at its end the fix never ends. */
  lemma AcceptedEndsSorted(rs: seq<Region>, ph: ProgramHeader)
    requires FullMap(rs) && InMap(rs, ph) && !Refused(rs, ph)
    ensures EndsSorted(rs, ph.Segment()) <==>
      OffBounds(rs, ph.pVaddr) && OffBounds(rs, ph.pVaddr + ph.pMemsz)
  {
    var k := GuardPlaces(rs, ph);
    var n := ph.Segment();
    PassedSplits(rs, n.base);
    var p := Passed(rs, n.base);
    assert p >= 1;
    hide EndsSorted, LastFix, OffBounds, Passed, Refused;
    InsertionEndsSorted(rs, n);
    InnerIsOffBounds(rs, k, n.base);
    InnerIsOffBounds(rs, k, n.End());
    PassedInside(rs, n.base, k);
  }

  lemma PassedInside(rs: seq<Region>, a: int, k: nat)
    requires Tidy(rs) && k < |rs| && rs[k].base <= a < rs[k].End()
    ensures Passed(rs, a) == if a == rs[k].base then k else k + 1
  {
    forall i | 0 <= i < |rs| ensures rs[i].Fits() && rs[i].size > 0 {
    }
    forall i | 0 <= i < k ensures rs[i].End() <= rs[k].base {
    }
    forall i | k < i < |rs| ensures rs[k].End() <= rs[i].base {
    }
    PassedIs(rs, a, if a == rs[k].base then k else k + 1);
  }

  /** A segment at the end of a usable region passes the guard, and then the fix never ends. */
  lemma SegmentAtEndNeverEnds(n: nat)
    ensures var rs := [Region(0, 0x20_0000, Reserved, false), Region(0x20_0000, 0x20_0000, Usable, false)];
      var ph := ProgramHeader(1, 0, 0x30_0000, 0, 0, 0x10_0000, 0, 0);
      FullMap(rs) && InMap(rs, ph) && !Refused(rs, ph) && Run(n, LastFix(rs, ph.Segment())).Looping()
  {
    var rs := [Region(0, 0x20_0000, Reserved, false), Region(0x20_0000, 0x20_0000, Usable, false)];
    var ph := ProgramHeader(1, 0, 0x30_0000, 0, 0, 0x10_0000, 0, 0);
    TidyPair(rs[0], rs[1]);
    PassedIs(rs, 0x30_0000, 2);
    InsertedSettled(rs, ph.Segment());
    StuckAtHead(n, LastFix(rs, ph.Segment()));
  }

  // ----- one segment -----

  /** An accepted segment becomes executable memory and nothing else changes; it was usable before. */
  lemma SegmentInserted(rs: seq<Region>, ph: ProgramHeader)
    requires FullMap(rs) && Apart(rs, ph) && !Refused(rs, ph)
    ensures CanInsert(rs, ph.Segment())
    ensures var out := Inserted(rs, ph.Segment());
      && FullMap(out) && out[|out| - 1].End() == rs[|rs| - 1].End()
      && (forall a :: TypeAt(out, a) == if ph.Segment().Has(a) then Some(ElfExecutable) else TypeAt(rs, a))
      && (forall a :: OffBounds(rs, a) && a != ph.pVaddr && a != ph.pVaddr + ph.pMemsz ==> OffBounds(out, a))
    ensures forall a :: ph.Segment().Has(a) ==> TypeAt(rs, a) == Some(Usable)
  {
    var k := GuardForcesInside(rs, ph);
    if k >= 1 {
      NextRegion(rs, k - 1);
    }
    assert rs[k].Fits();
    hide Tidy, CanInsert, Inserted, TypeAt, OffBounds, Intersects;
    SplitInside(rs, ph.Segment(), k);
  }

  lemma SplitInside(rs: seq<Region>, n: Region, k: nat)
    requires FullMap(rs) && k < |rs| && rs[k].base < n.base && n.size > 0 && n.End() < rs[k].End() && n.Fits()
    requires rs[k].ty == Usable && n.ty == ElfExecutable && (k >= 1 ==> rs[k - 1].ty != Usable)
    ensures CanInsert(rs, n)
    ensures var out := Inserted(rs, n);
      && FullMap(out) && out[|out| - 1].End() == rs[|rs| - 1].End()
      && (forall a :: TypeAt(out, a) == if n.Has(a) then Some(ElfExecutable) else TypeAt(rs, a))
      && (forall a :: OffBounds(rs, a) && a != n.base && a != n.End() ==> OffBounds(out, a))
    ensures forall a :: n.Has(a) ==> TypeAt(rs, a) == Some(Usable)
  {
    hide CanInsert, Inserted, TypeAt, Contiguous, NoTwins, AllFit, Positive, OffBounds;
    InsideSplits(rs, n, k);
    SplitBounds(rs, n, k);
    forall a ensures TypeAt(Inserted(rs, n), a) == if n.Has(a) then Some(ElfExecutable) else TypeAt(rs, a) {
      SplitAroundMeaning(rs, n, k, a);
    }
    forall a | n.Has(a) ensures TypeAt(rs, a) == Some(Usable) {
      TypeAtIndex(rs, k, a);
    }
  }

  /** A split adds the two bounds of the new region and no others. */
  lemma SplitBounds(rs: seq<Region>, n: Region, k: nat)
    requires k < |rs|
    ensures var out := SplitAround(rs, n, k);
      && out != [] && out[|out| - 1].End() == rs[|rs| - 1].End() && (rs[k].base < n.base ==> out[0].base == rs[0].base)
      && forall a :: OffBounds(rs, a) && a != n.base && a != n.End() ==> OffBounds(out, a)
  {
    var out, r := SplitAround(rs, n, k), rs[k];
    forall a | OffBounds(rs, a) && a != n.base && a != n.End() ensures OffBounds(out, a) {
      forall i | 0 <= i < |out| ensures out[i].base != a && out[i].End() != a {
        if i < k {
          assert out[i] == rs[i];
        } else if i >= k + 3 {
          assert out[i] == rs[i - 2];
        } else {
          assert out[i] == Three(r, n)[i - k];
        }
      }
    }
  }

  // ----- the whole load -----

  datatype ElfResult =
    Success | NotRecognized | UnsupportedArch | NotExecutable | FatError | LoadOnReservedMemory | Panic

  const HEADER_SIZE := 32

  function ParseHeader(b: seq<U8>): ProgramHeader
    requires |b| == HEADER_SIZE
  {
    ProgramHeader(
      Word32(b, 0), Word32(b, 4), Word32(b, 8), Word32(b, 12), Word32(b, 16), Word32(b, 20), Word32(b, 24),
      Word32(b, 28))
  }

  /** The record in a file: eight words, in the order of the fields, the lowest byte of each first. */
  function EncodedHeader(ph: ProgramHeader): (b: seq<U8>)
    ensures |b| == 32
  {
    Bytes32(ph.pType) + Bytes32(ph.pOffset) + Bytes32(ph.pVaddr) + Bytes32(ph.pPaddr)
    + Bytes32(ph.pFilesz) + Bytes32(ph.pMemsz) + Bytes32(ph.pFlags) + Bytes32(ph.pAlign)
  }

  /** Parsing inverts the encoding. */
  lemma HeaderInvertsEncoding(ph: ProgramHeader)
    ensures ParseHeader(EncodedHeader(ph)) == ph
  {
    hide Bytes32, Word32;
    var b := EncodedHeader(ph);
    Word32At(b, 0, ph.pType);
    Word32At(b, 4, ph.pOffset);
    Word32At(b, 8, ph.pVaddr);
    Word32At(b, 12, ph.pPaddr);
    Word32At(b, 16, ph.pFilesz);
    Word32At(b, 20, ph.pMemsz);
    Word32At(b, 24, ph.pFlags);
    Word32At(b, 28, ph.pAlign);
  }

  /** File offset of a program header, in uint32_t arithmetic. */
  function HeaderOffset(table: U32, i: nat): U32 {
    Wrap32(table + HEADER_SIZE * i)
  }

  /** A range `fat_read` can deliver from this file. */
  predicate RangeOk(file: seq<U8>, offset: U32, length: U32) {
    offset < |file| && (length == 0 || offset + length <= |file|)
  }

  function HeaderAt(file: seq<U8>, table: U32, i: nat): Option<ProgramHeader> {
    var o: int := HeaderOffset(table, i);
    if RangeOk(file, o, HEADER_SIZE) then Some(ParseHeader(file[o..o + HEADER_SIZE])) else None
  }

  /** Header `i` exists and is loaded. */
  predicate IsLoadAt(file: seq<U8>, table: U32, i: nat) {
    HeaderAt(file, table, i).Some? && HeaderAt(file, table, i).value.IsLoad()
  }

  /** The result of the loop of `elf_load` from header `i` on, and the map it leaves. */
  ghost function Load(file: seq<U8>, table: U32, i: nat, count: nat, rs: seq<Region>): (ElfResult, seq<Region>)
    requires i <= count
    decreases count - i
  {
    if i == count then (Success, rs)
    else
      match HeaderAt(file, table, i)
      case None => (FatError, rs)
      case Some(ph) =>
        if !ph.IsLoad() then Load(file, table, i + 1, count, rs)
        else if Refused(rs, ph) then (LoadOnReservedMemory, rs)
        else
          var out := if CanInsert(rs, ph.Segment()) then Inserted(rs, ph.Segment()) else rs;
          if !RangeOk(file, ph.pOffset, ph.pFilesz) then (FatError, out)
          else Load(file, table, i + 1, count, out)
  }

  /** The bounds of two segments are four different addresses, or two and two. */
  predicate BoundsDiffer(p: ProgramHeader, q: ProgramHeader) {
    var pEnd, qEnd := p.pVaddr + p.pMemsz, q.pVaddr + q.pMemsz;
    q.pVaddr != p.pVaddr && q.pVaddr != pEnd && qEnd != p.pVaddr && qEnd != pEnd
  }

  /** What a caller can check of the headers from `i` on and of the map before loading. */
  ghost predicate Loadable(file: seq<U8>, table: U32, i: nat, count: nat, rs: seq<Region>) {
    && FullMap(rs)
    && (forall j :: i <= j < count && IsLoadAt(file, table, j) ==> Apart(rs, HeaderAt(file, table, j).value))
    && (forall j, k :: i <= j < k < count && IsLoadAt(file, table, j) && IsLoadAt(file, table, k) ==>
          BoundsDiffer(HeaderAt(file, table, j).value, HeaderAt(file, table, k).value))
  }

  lemma LoadableStep(file: seq<U8>, table: U32, i: nat, count: nat, rs: seq<Region>)
    requires i < count && Loadable(file, table, i, count, rs) && IsLoadAt(file, table, i)
    requires !Refused(rs, HeaderAt(file, table, i).value)
    ensures var n := HeaderAt(file, table, i).value.Segment();
      CanInsert(rs, n) && Loadable(file, table, i + 1, count, Inserted(rs, n))
  {
    hide HeaderAt, CanInsert, Inserted, Tidy, Refused;
    var ph := HeaderAt(file, table, i).value;
    SegmentInserted(rs, ph);
    var out := Inserted(rs, ph.Segment());
    forall j | i + 1 <= j < count && IsLoadAt(file, table, j) ensures Apart(out, HeaderAt(file, table, j).value) {
      var q := HeaderAt(file, table, j).value;
      assert BoundsDiffer(ph, q) && Apart(rs, q);
    }
  }

  /** A program header loading 4 bytes of 8 at 3 MiB, as it stands in a file. */
  function OneHeaderFile(): seq<U8> {
    EncodedHeader(ProgramHeader(1, 0, 0x30_0000, 0, 4, 8, 0, 0))
  }

  lemma OneHeader()
    ensures HeaderAt(OneHeaderFile(), 0, 0) == Some(ProgramHeader(1, 0, 0x30_0000, 0, 4, 8, 0, 0))
  {
    hide EncodedHeader, ParseHeader;
    var ph := ProgramHeader(1, 0, 0x30_0000, 0, 4, 8, 0, 0);
    HeaderInvertsEncoding(ph);
    assert OneHeaderFile()[0..HEADER_SIZE] == EncodedHeader(ph);
  }

  /** A file of one header over a map that is usable from 2 to 4 MiB: loadable, and loaded. */
  lemma OneSegmentLoads()
    ensures var rs := [Region(0, 0x20_0000, Reserved, false), Region(0x20_0000, 0x20_0000, Usable, false)];
      && Loadable(OneHeaderFile(), 0, 0, 1, rs) && Load(OneHeaderFile(), 0, 0, 1, rs).0 == Success
      && Loaded(OneHeaderFile(), 0, 0, 0x30_0000)
  {
    hide CanInsert, Inserted, HeaderAt;
    var rs := [Region(0, 0x20_0000, Reserved, false), Region(0x20_0000, 0x20_0000, Usable, false)];
    OneHeader();
    TidyPair(rs[0], rs[1]);
    LoadableStep(OneHeaderFile(), 0, 0, 1, rs);
  }

  /** Address `a` belongs to the segment of header `j`. */
  ghost predicate Loaded(file: seq<U8>, table: U32, j: nat, a: int) {
    HeaderAt(file, table, j).Some? && HeaderAt(file, table, j).value.Covers(a)
  }

  ghost predicate LoadedFrom(file: seq<U8>, table: U32, i: nat, count: nat, a: int) {
    exists j: nat :: i <= j < count && Loaded(file, table, j, a)
  }

  /** The step of the induction: header `i` and the rest. */
  lemma LoadStep(file: seq<U8>, table: U32, i: nat, count: nat, rs: seq<Region>) returns (next: seq<Region>)
    requires i < count && Loadable(file, table, i, count, rs) && Load(file, table, i, count, rs).0 == Success
    ensures Loadable(file, table, i + 1, count, next)
    ensures Load(file, table, i + 1, count, next) == Load(file, table, i, count, rs)
    ensures rs != [] && next != [] && next[|next| - 1].End() == rs[|rs| - 1].End()
    ensures forall a :: TypeAt(next, a) == if Loaded(file, table, i, a) then Some(ElfExecutable) else TypeAt(rs, a)
    ensures forall a :: Loaded(file, table, i, a) ==> TypeAt(rs, a) == Some(Usable) && REAL_MODE_LIMIT <= a
  {
    hide CanInsert, Inserted, TypeAt, Tidy, Intersects;
    next := rs;
    var ph := HeaderAt(file, table, i).value;
    if ph.IsLoad() {
      LoadableStep(file, table, i, count, rs);
      SegmentInserted(rs, ph);
      next := Inserted(rs, ph.Segment());
    }
  }

  lemma LoadedFromStep(file: seq<U8>, table: U32, i: nat, count: nat, a: int)
    requires i < count
    ensures LoadedFrom(file, table, i, count, a) <==>
      Loaded(file, table, i, a) || LoadedFrom(file, table, i + 1, count, a)
  {
  }

  /** After a successful load the map is still tidy and ends where it ended; exactly the loaded addresses
      became executable, all of them usable before and none below the limit. */
  lemma {:induction false} LoadKeepsMapExact(file: seq<U8>, table: U32, i: nat, count: nat, rs: seq<Region>)
    requires i <= count && Loadable(file, table, i, count, rs) && Load(file, table, i, count, rs).0 == Success
    ensures var out := Load(file, table, i, count, rs).1;
      && FullMap(out) && out[|out| - 1].End() == rs[|rs| - 1].End()
      && forall a ::
           TypeAt(out, a) == if LoadedFrom(file, table, i, count, a) then Some(ElfExecutable) else TypeAt(rs, a)
    ensures forall a :: LoadedFrom(file, table, i, count, a) ==> TypeAt(rs, a) == Some(Usable) && REAL_MODE_LIMIT <= a
    decreases count - i
  {
    hide Loaded, Load, TypeAt, Tidy, Apart, BoundsDiffer;
    if i == count {
      LoadNothing(file, table, count, rs);
    } else {
      hide LoadedFrom;
      var next := LoadStep(file, table, i, count, rs);
      LoadKeepsMapExact(file, table, i + 1, count, next);
      forall a ensures LoadedFrom(file, table, i, count, a) <==>
        Loaded(file, table, i, a) || LoadedFrom(file, table, i + 1, count, a)
      {
        LoadedFromStep(file, table, i, count, a);
      }
    }
  }

  lemma LoadNothing(file: seq<U8>, table: U32, count: nat, rs: seq<Region>)
    ensures Load(file, table, count, count, rs) == (Success, rs)
  {
  }

  /** No address is loaded twice. */
  lemma {:induction false} SegmentsDisjoint(file: seq<U8>, table: U32, i: nat, count: nat, rs: seq<Region>, j: nat,
                                            k: nat, a: int)
    requires i <= count && Loadable(file, table, i, count, rs) && Load(file, table, i, count, rs).0 == Success
    requires i <= j < k < count && Loaded(file, table, j, a)
    ensures !Loaded(file, table, k, a)
    decreases count - i
  {
    hide Load, Loadable, TypeAt;
    var next := LoadStep(file, table, i, count, rs);
    if i < j {
      SegmentsDisjoint(file, table, i + 1, count, next, j, k, a);
    } else {
      LoadKeepsMapExact(file, table, i + 1, count, next);
      LoadedOne(file, table, i + 1, count, k, a);
    }
  }

  lemma LoadedOne(file: seq<U8>, table: U32, i: nat, count: nat, j: nat, a: int)
    requires i <= j < count
    ensures Loaded(file, table, j, a) ==> LoadedFrom(file, table, i, count, a)
  {
  }

  // ----- exactly when a load succeeds -----

  /** What header `j` amounts to, judged by the map before header `i` and the segments from there on. */
  ghost function VerdictAt(file: seq<U8>, table: U32, i: nat, j: nat, rs: seq<Region>): ElfResult {
    match HeaderAt(file, table, j)
    case None => FatError
    case Some(ph) =>
      if !ph.IsLoad() then Success
      else if !Free(rs, ph) || exists a :: ph.Segment().Has(a) && LoadedFrom(file, table, i, j, a) then
        LoadOnReservedMemory
      else if !RangeOk(file, ph.pOffset, ph.pFilesz) then FatError
      else Success
  }

  /** The verdict on the first header from `j` on that is not fine. */
  ghost function FirstVerdict(file: seq<U8>, table: U32, i: nat, j: nat, count: nat, rs: seq<Region>): ElfResult
    requires j <= count
    decreases count - j
  {
    if j == count then Success
    else if VerdictAt(file, table, i, j, rs) != Success then VerdictAt(file, table, i, j, rs)
    else FirstVerdict(file, table, i, j + 1, count, rs)
  }

  /** The map with the segment of header `i` recorded. */
  ghost predicate Records(file: seq<U8>, table: U32, i: nat, rs: seq<Region>, next: seq<Region>) {
    && (forall a :: TypeAt(next, a) == if Loaded(file, table, i, a) then Some(ElfExecutable) else TypeAt(rs, a))
    && (forall a :: Loaded(file, table, i, a) ==> TypeAt(rs, a) == Some(Usable))
  }

  /** Judging by the initial map and by the map so far comes to the same. */
  lemma VerdictMoves(file: seq<U8>, table: U32, i: nat, j: nat, rs: seq<Region>, next: seq<Region>)
    requires i < j && Records(file, table, i, rs, next)
    ensures VerdictAt(file, table, i, j, rs) == VerdictAt(file, table, i + 1, j, next)
  {
    hide TypeAt, HeaderAt, Loaded, LoadedFrom;
    forall a ensures LoadedFrom(file, table, i, j, a) <==>
      Loaded(file, table, i, a) || LoadedFrom(file, table, i + 1, j, a)
    {
      LoadedFromStep(file, table, i, j, a);
    }
    if HeaderAt(file, table, j).Some? {
      var ph := HeaderAt(file, table, j).value;
      SharesWithFirst(file, table, i, j, rs, next, ph);
    }
  }

  lemma SharesWithFirst(file: seq<U8>, table: U32, i: nat, j: nat, rs: seq<Region>, next: seq<Region>,
                        ph: ProgramHeader)
    requires i < j && Records(file, table, i, rs, next)
    requires forall a :: LoadedFrom(file, table, i, j, a) <==>
      Loaded(file, table, i, a) || LoadedFrom(file, table, i + 1, j, a)
    ensures (Free(rs, ph) && !(exists a :: ph.Segment().Has(a) && LoadedFrom(file, table, i, j, a))) <==>
      (Free(next, ph) && !(exists a :: ph.Segment().Has(a) && LoadedFrom(file, table, i + 1, j, a)))
  {
    hide TypeAt, Loaded, LoadedFrom;
    forall a ensures TypeAt(next, a) == Some(Usable) <==> TypeAt(rs, a) == Some(Usable) && !Loaded(file, table, i, a) {
    }
  }

  lemma {:induction false} FirstMoves(file: seq<U8>, table: U32, i: nat, j: nat, count: nat, rs: seq<Region>,
                                      next: seq<Region>)
    requires i < j <= count && Records(file, table, i, rs, next)
    ensures FirstVerdict(file, table, i, j, count, rs) == FirstVerdict(file, table, i + 1, j, count, next)
    decreases count - j
  {
    hide VerdictAt, Records;
    if j < count {
      VerdictMoves(file, table, i, j, rs, next);
      FirstMoves(file, table, i, j + 1, count, rs, next);
    }
  }

  /** Header `i` itself: no segment comes before it. */
  lemma FirstIsRefused(file: seq<U8>, table: U32, i: nat, rs: seq<Region>)
    requires HeaderAt(file, table, i).Some? && HeaderAt(file, table, i).value.IsLoad()
    requires FullMap(rs) && InMap(rs, HeaderAt(file, table, i).value)
    ensures VerdictAt(file, table, i, i, rs) ==
      var ph := HeaderAt(file, table, i).value;
      if Refused(rs, ph) then LoadOnReservedMemory
      else if !RangeOk(file, ph.pOffset, ph.pFilesz) then FatError else Success
  {
    hide Free, Refused, HeaderAt, FullMap, InMap;
    GuardExactly(rs, HeaderAt(file, table, i).value);
    assert forall a :: !LoadedFrom(file, table, i, i, a);
  }

  /** The loop of `elf_load` reports the verdict on the first header that is missing, whose segment is empty, below the
      limit, not wholly usable in the initial map or shared with an earlier one, or whose bytes are missing. */
  lemma {:induction false} LoadIsFirstVerdict(file: seq<U8>, table: U32, i: nat, count: nat, rs: seq<Region>)
    requires i <= count && Loadable(file, table, i, count, rs)
    ensures Load(file, table, i, count, rs).0 == FirstVerdict(file, table, i, i, count, rs)
    decreases count - i
  {
    if i < count && HeaderAt(file, table, i).Some? {
      var ph := HeaderAt(file, table, i).value;
      if !ph.IsLoad() {
        hide FullMap, TypeAt, HeaderAt;
        LoadIsFirstVerdict(file, table, i + 1, count, rs);
        FirstMoves(file, table, i, i + 1, count, rs, rs);
      } else {
        LoadedVerdict(file, table, i, count, rs);
      }
    }
  }

  lemma LoadedVerdict(file: seq<U8>, table: U32, i: nat, count: nat, rs: seq<Region>)
    requires i < count && Loadable(file, table, i, count, rs) && IsLoadAt(file, table, i)
    ensures Load(file, table, i, count, rs).0 == FirstVerdict(file, table, i, i, count, rs)
    decreases count - i, 0
  {
    hide HeaderAt, CanInsert, Inserted, FullMap, TypeAt, Refused, VerdictAt;
    var ph := HeaderAt(file, table, i).value;
    FirstIsRefused(file, table, i, rs);
    if !Refused(rs, ph) && RangeOk(file, ph.pOffset, ph.pFilesz) {
      LoadableStep(file, table, i, count, rs);
      SegmentInserted(rs, ph);
      var next := Inserted(rs, ph.Segment());
      LoadIsFirstVerdict(file, table, i + 1, count, next);
      FirstMoves(file, table, i, i + 1, count, rs, next);
    }
  }

  /** What a caller can check of the headers and the map for a load to succeed. */
  ghost predicate LoadsAll(file: seq<U8>, table: U32, count: nat, rs: seq<Region>) {
    && (forall j: nat :: j < count ==> HeaderAt(file, table, j).Some?)
    && (forall j: nat :: j < count && IsLoadAt(file, table, j) ==>
          var ph := HeaderAt(file, table, j).value; Free(rs, ph) && RangeOk(file, ph.pOffset, ph.pFilesz))
    && (forall j: nat, k: nat, a :: j < k < count && Loaded(file, table, j, a) ==> !Loaded(file, table, k, a))
  }

  /** A load succeeds exactly when every header exists, every segment is not empty, above the limit, wholly usable and
      its bytes are in the file, and no address belongs to two segments. */
  lemma LoadSucceedsExactly(file: seq<U8>, table: U32, count: nat, rs: seq<Region>)
    requires Loadable(file, table, 0, count, rs)
    ensures Load(file, table, 0, count, rs).0 == Success <==> LoadsAll(file, table, count, rs)
  {
    LoadIsFirstVerdict(file, table, 0, count, rs);
    FirstFineExactly(file, table, 0, count, rs);
    hide Load, FirstVerdict, Loadable;
    if forall j: nat :: j < count ==> VerdictAt(file, table, 0, j, rs) == Success {
      FineLoadsAll(file, table, count, rs);
    } else if LoadsAll(file, table, count, rs) {
      var j: nat :| j < count && VerdictAt(file, table, 0, j, rs) != Success;
      LoadsAllFine(file, table, count, rs, j);
    }
  }

  lemma {:induction false} FirstFineExactly(file: seq<U8>, table: U32, j: nat, count: nat, rs: seq<Region>)
    requires j <= count
    ensures FirstVerdict(file, table, 0, j, count, rs) == Success <==>
      forall k: nat :: j <= k < count ==> VerdictAt(file, table, 0, k, rs) == Success
    decreases count - j
  {
    hide VerdictAt;
    if j < count {
      FirstFineExactly(file, table, j + 1, count, rs);
    }
  }

  lemma FineLoadsAll(file: seq<U8>, table: U32, count: nat, rs: seq<Region>)
    requires forall j: nat :: j < count ==> VerdictAt(file, table, 0, j, rs) == Success
    ensures LoadsAll(file, table, count, rs)
  {
    hide HeaderAt, Free, RangeOk;
    forall j: nat | j < count ensures HeaderAt(file, table, j).Some? {
      assert VerdictAt(file, table, 0, j, rs) == Success;
    }
    forall j: nat | j < count && IsLoadAt(file, table, j)
      ensures var ph := HeaderAt(file, table, j).value; Free(rs, ph) && RangeOk(file, ph.pOffset, ph.pFilesz)
    {
      assert VerdictAt(file, table, 0, j, rs) == Success;
    }
    forall j: nat, k: nat, a | j < k < count && Loaded(file, table, j, a) ensures !Loaded(file, table, k, a) {
      assert VerdictAt(file, table, 0, k, rs) == Success;
      LoadedOne(file, table, 0, k, j, a);
    }
  }

  lemma LoadsAllFine(file: seq<U8>, table: U32, count: nat, rs: seq<Region>, j: nat)
    requires LoadsAll(file, table, count, rs) && j < count
    ensures VerdictAt(file, table, 0, j, rs) == Success
  {
    hide HeaderAt, Free, RangeOk;
    var ph := HeaderAt(file, table, j).value;
    if ph.IsLoad() {
      assert IsLoadAt(file, table, j);
      forall a | ph.Segment().Has(a) ensures !LoadedFrom(file, table, 0, j, a) {
        assert Loaded(file, table, j, a);
      }
    }
  }

  // ----- in terms of the records in the file -----

  /** The program header table at a file offset is made of these records. */
  ghost predicate TableIs(file: seq<U8>, table: U32, phs: seq<ProgramHeader>) {
    && table + 32 * |phs| <= |file| && table + 32 * |phs| <= 0x1_0000_0000
    && forall i :: 0 <= i < |phs| ==> file[table + 32 * i..table + 32 * i + 32] == EncodedHeader(phs[i])
  }

  /** Address `a` belongs to a record that is to be loaded (its type is 1, PT_LOAD). */
  predicate InSegment(ph: ProgramHeader, a: int) {
    ph.pType == 1 && ph.pVaddr <= a < ph.pVaddr + ph.pMemsz
  }

  /** The records and the map that make a load succeed: every segment starts at or above 0x10FFEF, is not empty, has
      its bytes in the file and lies in usable memory, and no address belongs to two of them. */
  ghost predicate LoadsTable(file: seq<U8>, phs: seq<ProgramHeader>, rs: seq<Region>) {
    && (forall i :: 0 <= i < |phs| && phs[i].pType == 1 ==>
          && phs[i].pVaddr >= 0x10FFEF && phs[i].pMemsz > 0 && phs[i].pOffset < |file|
          && (phs[i].pFilesz > 0 ==> phs[i].pOffset + phs[i].pFilesz <= |file|))
    && (forall i, a :: 0 <= i < |phs| && InSegment(phs[i], a) ==> TypeAt(rs, a) == Some(Usable))
    && (forall i, j, a :: 0 <= i < j < |phs| && InSegment(phs[i], a) ==> !InSegment(phs[j], a))
  }

  lemma HeaderOfTable(file: seq<U8>, table: U32, phs: seq<ProgramHeader>, i: nat)
    requires TableIs(file, table, phs) && i < |phs|
    ensures HeaderAt(file, table, i) == Some(phs[i])
    ensures forall a :: Loaded(file, table, i, a) <==> InSegment(phs[i], a)
  {
    hide ParseHeader, EncodedHeader;
    WrapId(table + 32 * i);
    HeaderInvertsEncoding(phs[i]);
  }

  /** A file whose table is made of these records loads exactly when records and map allow it, and then exactly their
      addresses become executable. */
  lemma TableLoadsExactly(file: seq<U8>, table: U32, phs: seq<ProgramHeader>, rs: seq<Region>)
    requires TableIs(file, table, phs) && Loadable(file, table, 0, |phs|, rs)
    ensures Load(file, table, 0, |phs|, rs).0 == Success <==> LoadsTable(file, phs, rs)
    ensures Load(file, table, 0, |phs|, rs).0 == Success ==>
      forall a :: TypeAt(Load(file, table, 0, |phs|, rs).1, a) ==
        if exists i :: 0 <= i < |phs| && InSegment(phs[i], a) then Some(ElfExecutable) else TypeAt(rs, a)
  {
    hide HeaderAt, TypeAt, Loaded, Load, Loadable, TableIs;
    LoadSucceedsExactly(file, table, |phs|, rs);
    forall i: nat | i < |phs|
      ensures HeaderAt(file, table, i) == Some(phs[i])
      ensures forall a :: Loaded(file, table, i, a) <==> InSegment(phs[i], a)
    {
      HeaderOfTable(file, table, phs, i);
    }
    LoadsAllIsTable(file, table, phs, rs);
    if Load(file, table, 0, |phs|, rs).0 == Success {
      LoadKeepsMapExact(file, table, 0, |phs|, rs);
      forall a ensures LoadedFrom(file, table, 0, |phs|, a) <==> exists i :: 0 <= i < |phs| && InSegment(phs[i], a) {
      }
    }
  }

  lemma LoadsAllIsTable(file: seq<U8>, table: U32, phs: seq<ProgramHeader>, rs: seq<Region>)
    requires forall i: nat :: i < |phs| ==> HeaderAt(file, table, i) == Some(phs[i])
    requires forall i: nat, a :: i < |phs| ==> (Loaded(file, table, i, a) <==> InSegment(phs[i], a))
    ensures LoadsAll(file, table, |phs|, rs) <==> LoadsTable(file, phs, rs)
  {
    hide HeaderAt, TypeAt, Loaded;
    forall i: nat | i < |phs|
      ensures IsLoadAt(file, table, i) <==> phs[i].pType == 1
      ensures phs[i].pType == 1 ==> forall a :: phs[i].Segment().Has(a) <==> InSegment(phs[i], a)
    {
    }
  }
}
