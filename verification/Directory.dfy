/** Directories as flat lists of entries, and `fat_open` as a walk along the components of a path. */
module Directory {
  import opened Words
  import opened Strings
  import opened ShortNames
  import opened Machine
  import opened Geometry
  import opened FatTable
  import opened FatFile

  const ENTRY_SIZE := 32
  const ATTR_VOLUME_ID := 0x08
  const ATTR_DIRECTORY := 0x10
  const ATTR_LONG_NAME := 0x0F
  const FREE_ENTRY: U8 := 0xE5

  predicate HasBit(attr: U8, bit: int)
    requires bit > 0
  {
    attr / bit % 2 == 1
  }

  /** A directory entry from its 32 bytes. */
  function ParseEntry(b: seq<U8>): (e: DirEntry)
    requires |b| == ENTRY_SIZE
    ensures |e.name| == 11
  {
    DirEntry(b[..11], b[11], Word16(b, 20), Word16(b, 26), Word32(b, 28))
  }

  /** The whole entries in a run of bytes. */
  function Entries(bytes: seq<U8>): (es: seq<DirEntry>)
    ensures |es| == |bytes| / ENTRY_SIZE
    ensures forall i :: 0 <= i < |es| ==>
      es[i] == ParseEntry(bytes[ENTRY_SIZE * i..ENTRY_SIZE * i + ENTRY_SIZE])
  {
    seq(|bytes| / ENTRY_SIZE, i requires 0 <= i < |bytes| / ENTRY_SIZE =>
      ParseEntry(bytes[ENTRY_SIZE * i..ENTRY_SIZE * i + ENTRY_SIZE]))
  }

  /** No entry from here on is in use (section 6.1 of the Microsoft FAT Specification). */
  predicate EndsList(e: DirEntry) {
    e.name != [] && e.name[0] == 0
  }

  /** Live, not a volume label, and of this stored name. */
  predicate Matches(e: DirEntry, key: seq<U8>) {
    e.name != [] && e.name[0] != FREE_ENTRY && !HasBit(e.attr, ATTR_VOLUME_ID) && e.name == key
  }

  /** The first match before the end of the list. */
  function Lookup(es: seq<DirEntry>, key: seq<U8>): Option<DirEntry> {
    if es == [] || EndsList(es[0]) then None
    else if Matches(es[0], key) then Some(es[0])
    else Lookup(es[1..], key)
  }

  function LookupName(es: seq<DirEntry>, name: seq<U8>): Option<DirEntry> {
    if Accepted(name) then Lookup(es, Converted(name)) else None
  }

  /** What the search finds, by position: a match with no match and no end of list before it. */
  lemma {:induction false} LookupIsFirstMatch(es: seq<DirEntry>, key: seq<U8>, i: nat)
    requires i < |es| && Matches(es[i], key)
    requires forall j :: 0 <= j <= i ==> !EndsList(es[j])
    requires forall j :: 0 <= j < i ==> !Matches(es[j], key)
    ensures Lookup(es, key) == Some(es[i])
  {
    if i > 0 {
      LookupIsFirstMatch(es[1..], key, i - 1);
    }
  }

  /** An entry that starts with the mark of a free one is never matched. */
  lemma {:induction false} FreeNeverMatches(es: seq<DirEntry>, key: seq<U8>)
    requires key != [] && key[0] == FREE_ENTRY
    ensures Lookup(es, key) == None
  {
    if es != [] {
      FreeNeverMatches(es[1..], key);
    }
  }

  /** A live file of a name. */
  function FileNamed(key: seq<U8>): DirEntry {
    DirEntry(key, 0, 0, 0, 0)
  }

  // ----- the records on the disk -----

  /** The whole directory entry of section 6 of the Microsoft FAT Specification, field by field. */
  datatype DirRecord = DirRecord(
    name: seq<U8>,
    attr: U8,
    ntRes: U8,
    crtTimeTenth: U8,
    crtTime: U16,
    crtDate: U16,
    lstAccDate: U16,
    fstClusHi: U16,
    wrtTime: U16,
    wrtDate: U16,
    fstClusLo: U16,
    fileSize: U32)
  {
    /** The record in a directory. */
    function Encoded(): (b: seq<U8>)
      requires |name| == 11
      ensures |b| == 32
    {
      name + [attr, ntRes, crtTimeTenth] + Bytes16(crtTime) + Bytes16(crtDate) + Bytes16(lstAccDate)
      + Bytes16(fstClusHi) + Bytes16(wrtTime) + Bytes16(wrtDate) + Bytes16(fstClusLo) + Bytes32(fileSize)
    }

    /** Its first cluster, from the two words. */
    function Cluster(): U32 {
      fstClusHi * 0x1_0000 + fstClusLo
    }

    predicate IsDirectory() {
      attr / 0x10 % 2 == 1
    }

    /** A live file or directory stored under this name: not free, no volume label. */
    predicate IsLive(key: seq<U8>) {
      |name| == 11 && name[0] != 0xE5 && name[0] != 0 && attr / 0x08 % 2 == 0 && name == key
    }
  }

  /** An entry has the fields of a record the code uses. */
  predicate Reads(e: DirEntry, r: DirRecord) {
    && e.FirstCluster() == r.Cluster() && e.fileSize == r.fileSize && e.name == r.name
    && (HasBit(e.attr, ATTR_DIRECTORY) <==> r.IsDirectory())
  }

  /** Parsing picks the fields out of the encoded record. */
  lemma RecordInvertsEncoding(r: DirRecord)
    requires |r.name| == 11
    ensures ParseEntry(r.Encoded()) == DirEntry(r.name, r.attr, r.fstClusHi, r.fstClusLo, r.fileSize)
  {
    hide Bytes16, Bytes32, Word16, Word32;
    var b := r.Encoded();
    assert b[..11] == r.name;
    Word16At(b, 20, r.fstClusHi);
    Word16At(b, 26, r.fstClusLo);
    Word32At(b, 28, r.fileSize);
  }

  /** Record `i` of a run of bytes. */
  predicate RecordAt(bytes: seq<U8>, i: nat, r: DirRecord) {
    |r.name| == 11 && 32 * i + 32 <= |bytes| && bytes[32 * i..32 * i + 32] == r.Encoded()
  }

  /** Record `i` is the first live one under this name, and no record before it ends the list. */
  ghost predicate FirstRecord(bytes: seq<U8>, key: seq<U8>, i: nat, r: DirRecord) {
    && RecordAt(bytes, i, r) && r.IsLive(key)
    && (forall j: nat :: j < i ==> bytes[32 * j] != 0)
    && (forall j: nat, q :: j < i && RecordAt(bytes, j, q) ==> !q.IsLive(key))
  }

  /** Every 32 bytes are a record. */
  lemma RecordOf(b: seq<U8>) returns (r: DirRecord)
    requires |b| == 32
    ensures |r.name| == 11 && r.Encoded() == b
  {
    hide Bytes16, Bytes32, Word16, Word32;
    r := DirRecord(b[..11], b[11], b[12], b[13], Word16(b, 14), Word16(b, 16), Word16(b, 18), Word16(b, 20),
                   Word16(b, 22), Word16(b, 24), Word16(b, 26), Word32(b, 28));
    Bytes16Of(b, 14);
    Bytes16Of(b, 16);
    Bytes16Of(b, 18);
    Bytes16Of(b, 20);
    Bytes16Of(b, 22);
    Bytes16Of(b, 24);
    Bytes16Of(b, 26);
    Bytes32Of(b, 28);
    assert b == b[..11] + [b[11], b[12], b[13]] + b[14..16] + b[16..18] + b[18..20] + b[20..22] + b[22..24]
                + b[24..26] + b[26..28] + b[28..32];
  }

  /** What the entry of a record says. */
  lemma EntryOfRecord(bytes: seq<U8>, key: seq<U8>, i: nat, r: DirRecord)
    requires RecordAt(bytes, i, r) && 0 !in key && |key| == 11
    ensures var es := Entries(bytes);
      && i < |es| && Reads(es[i], r) && (EndsList(es[i]) <==> bytes[32 * i] == 0)
      && (Matches(es[i], key) <==> r.IsLive(key))
  {
    hide ParseEntry, DirRecord.Encoded;
    RecordInvertsEncoding(r);
    assert bytes[32 * i..32 * i + 32][0] == bytes[32 * i];
    EncodedName(r);
    assert key[0] in key;
  }

  lemma EncodedName(r: DirRecord)
    requires |r.name| == 11
    ensures r.Encoded()[0] == r.name[0]
  {
  }

  lemma {:induction false} LookupFinds(es: seq<DirEntry>, key: seq<U8>) returns (i: nat)
    requires Lookup(es, key).Some?
    ensures i < |es| && Lookup(es, key) == Some(es[i]) && Matches(es[i], key)
    ensures forall j :: 0 <= j <= i ==> !EndsList(es[j])
    ensures forall j :: 0 <= j < i ==> !Matches(es[j], key)
  {
    if Matches(es[0], key) {
      i := 0;
    } else {
      i := LookupFinds(es[1..], key);
      i := i + 1;
    }
  }

  /** The lookup in the entries of a directory's bytes is a search for the first live record of that name: what it
      finds has the fields of that record, and it finds something exactly when there is one. */
  lemma LookupReadsRecords(bytes: seq<U8>, key: seq<U8>)
    requires 0 !in key && |key| == 11
    ensures forall i, r :: FirstRecord(bytes, key, i, r) ==>
      Lookup(Entries(bytes), key).Some? && Reads(Lookup(Entries(bytes), key).value, r)
    ensures Lookup(Entries(bytes), key).Some? ==> exists i, r :: FirstRecord(bytes, key, i, r)
  {
    hide Lookup, Matches, EndsList, Reads, RecordAt, DirRecord.IsLive, Entries;
    var es := Entries(bytes);
    forall i, r | FirstRecord(bytes, key, i, r) ensures Lookup(es, key).Some? && Reads(Lookup(es, key).value, r) {
      RecordIsFound(bytes, key, i, r);
    }
    if Lookup(es, key).Some? {
      var i := LookupFinds(es, key);
      var r := FoundIsRecord(bytes, key, i);
    }
  }

  lemma RecordIsFound(bytes: seq<U8>, key: seq<U8>, i: nat, r: DirRecord)
    requires 0 !in key && |key| == 11 && FirstRecord(bytes, key, i, r)
    ensures Lookup(Entries(bytes), key).Some? && Reads(Lookup(Entries(bytes), key).value, r)
  {
    hide Lookup, Matches, EndsList, Reads, DirRecord.IsLive, Entries, DirRecord.Encoded;
    var es := Entries(bytes);
    EntryOfRecord(bytes, key, i, r);
    assert bytes[32 * i] != 0 by {
      LiveIsNotEnd(bytes, key, i, r);
    }
    forall j: nat | j < i ensures !EndsList(es[j]) && !Matches(es[j], key) {
      var q := RecordOf(bytes[32 * j..32 * j + 32]);
      assert RecordAt(bytes, j, q);
      EntryOfRecord(bytes, key, j, q);
    }
    LookupIsFirstMatch(es, key, i);
  }

  lemma LiveIsNotEnd(bytes: seq<U8>, key: seq<U8>, i: nat, r: DirRecord)
    requires RecordAt(bytes, i, r) && r.IsLive(key)
    ensures bytes[32 * i] != 0
  {
    hide DirRecord.Encoded;
    EncodedName(r);
    assert bytes[32 * i..32 * i + 32][0] == bytes[32 * i];
  }

  lemma FoundIsRecord(bytes: seq<U8>, key: seq<U8>, i: nat) returns (r: DirRecord)
    requires 0 !in key && |key| == 11 && i < |Entries(bytes)| && Matches(Entries(bytes)[i], key)
    requires forall j :: 0 <= j <= i ==> !EndsList(Entries(bytes)[j])
    requires forall j :: 0 <= j < i ==> !Matches(Entries(bytes)[j], key)
    ensures FirstRecord(bytes, key, i, r)
  {
    hide Matches, EndsList, DirRecord.IsLive, DirRecord.Encoded, Reads, ParseEntry;
    var es := Entries(bytes);
    r := RecordOf(bytes[32 * i..32 * i + 32]);
    EntryOfRecord(bytes, key, i, r);
    forall j: nat | j < i ensures bytes[32 * j] != 0 {
      var q := RecordOf(bytes[32 * j..32 * j + 32]);
      EntryOfRecord(bytes, key, j, q);
    }
    forall j: nat, q | j < i && RecordAt(bytes, j, q) ensures !q.IsLive(key) {
      EntryOfRecord(bytes, key, j, q);
    }
  }

  lemma OneFile(key: seq<U8>, other: seq<U8>)
    requires key != [] && key[0] != FREE_ENTRY && key[0] != 0
    ensures Lookup([FileNamed(key)], other) == if other == key then Some(FileNamed(key)) else None
  {
    var es := [FileNamed(key)];
    assert es[1..] == [] && !HasBit(0, ATTR_VOLUME_ID);
  }

  /** Two names select the same entry of every directory exactly when they agree up to ASCII case and a trailing
      dot, or neither can select any: a stored form that starts with the mark of a free entry is passed over. */
  lemma SelectSameIff(a: seq<U8>, b: seq<U8>)
    requires Accepted(a) && Accepted(b) && SPACE !in a && SPACE !in b && 0 !in a && 0 !in b
    ensures (forall es :: LookupName(es, a) == LookupName(es, b)) <==>
      || Upper(WithoutTrailingDot(a)) == Upper(WithoutTrailingDot(b))
      || Converted(a)[0] == FREE_ENTRY == Converted(b)[0]
  {
    hide Accepted, Converted, Upper, WithoutTrailingDot, Lookup;
    var c, d := Converted(a), Converted(b);
    SameEntriesIff(a, b);
    NoNulConverted(a);
    NoNulConverted(b);
    assert c[0] in c && d[0] in d;
    if c != d {
      if c[0] == FREE_ENTRY == d[0] {
        forall es ensures LookupName(es, a) == LookupName(es, b) {
          FreeNeverMatches(es, c);
          FreeNeverMatches(es, d);
        }
      } else {
        var key := if c[0] != FREE_ENTRY then c else d;
        OneFile(key, c);
        OneFile(key, d);
        assert LookupName([FileNamed(key)], a) != LookupName([FileNamed(key)], b);
      }
    }
  }

  /** Two different names that select the same, namely nothing. */
  lemma FreeNamesSelectNothing(es: seq<DirEntry>)
    ensures var a, b: seq<U8> := [FREE_ENTRY, 0x41], [FREE_ENTRY, 0x42];
      && Accepted(a) && Accepted(b) && Upper(WithoutTrailingDot(a)) != Upper(WithoutTrailingDot(b))
      && LookupName(es, a) == LookupName(es, b) == None
  {
    hide Lookup;
    var a, b: seq<U8> := [FREE_ENTRY, 0x41], [FREE_ENTRY, 0x42];
    DotAtIs(a, []);
    DotAtIs(b, []);
    assert a + [] == a && b + [] == b;
    assert Base(a) == a && Base(b) == b;
    assert Upper(a)[1] == 0x41 && Upper(b)[1] == 0x42;
    assert Upper(a)[0] == FREE_ENTRY == Upper(b)[0];
    FreeNeverMatches(es, Converted(a));
    FreeNeverMatches(es, Converted(b));
  }

  lemma NoNulConverted(name: seq<U8>)
    requires Accepted(name) && 0 !in name
    ensures 0 !in Converted(name)
  {
    var base, ext := Base(name), Extension(name);
    forall c | c in Converted(name) ensures c != 0 {
      assert c in Upper(base) || c in Upper(ext) || c == SPACE;
    }
  }

  /** Comparing as C strings is comparing the eleven bytes. */
  lemma CompareStored(stored: seq<U8>, key: seq<U8>)
    requires |stored| == |key| && 0 !in key
    ensures 0 in stored + [0] && 0 in key + [0]
    ensures CStr(stored + [0]) == CStr(key + [0]) <==> stored == key
  {
    var n := |key|;
    assert (stored + [0])[n] == 0 && (key + [0])[n] == 0 && (key + [0])[..n] == key;
    CStrEnds(key + [0], n);
    CStrTerminator(stored + [0]);
    if CStr(stored + [0]) == key {
      assert (stored + [0])[..n] == stored;
    }
  }

  /** The tests `search_for_entry` makes on one entry. */
  method CheckEntry(raw: seq<U8>, converted: seq<U8>, ghost key: seq<U8>) returns (hit: bool)
    requires |raw| == ENTRY_SIZE && converted == key + [0] && |key| == 11 && 0 !in key
    ensures hit == Matches(ParseEntry(raw), key)
  {
    var attr := raw[11];
    if raw[0] == FREE_ENTRY || HasBit(attr, ATTR_VOLUME_ID) {
      return false;
    }
    if attr == ATTR_LONG_NAME {
      return false;
    }
    CompareStored(raw[..11], key);
    hit := StrEq(raw[..11] + [0], converted);
  }

  lemma SliceOfSlice(s: seq<U8>, from: nat, n: nat, lo: nat, hi: nat)
    requires lo <= hi <= n && from + n <= |s|
    ensures s[from..from + n][lo..hi] == s[from + lo..from + hi]
  {
    var x, y := s[from..from + n][lo..hi], s[from + lo..from + hi];
    forall i | 0 <= i < hi - lo ensures x[i] == y[i] {
      assert x[i] == s[from..from + n][lo + i];
    }
  }

  lemma EntryAt(all: seq<U8>, addr: nat, count: nat, i: nat)
    requires i < count && addr + ENTRY_SIZE * count <= |all|
    ensures var es := Entries(all[addr..addr + ENTRY_SIZE * count]);
      var raw := all[addr + ENTRY_SIZE * i..addr + ENTRY_SIZE * i + ENTRY_SIZE];
      |es| == count && es[i] == ParseEntry(raw) && es[i].name[0] == all[addr + ENTRY_SIZE * i]
  {
    var bytes := all[addr..addr + ENTRY_SIZE * count];
    SliceOfSlice(all, addr, ENTRY_SIZE * count, ENTRY_SIZE * i, ENTRY_SIZE * i + ENTRY_SIZE);
    var raw := all[addr + ENTRY_SIZE * i..addr + ENTRY_SIZE * i + ENTRY_SIZE];
    assert raw[..11][0] == raw[0] == all[addr + ENTRY_SIZE * i];
  }

  lemma LookupStep(es: seq<DirEntry>, key: seq<U8>, i: nat)
    requires i <= |es|
    ensures Lookup(es[i..], key) ==
      if i == |es| || EndsList(es[i]) then None
      else if Matches(es[i], key) then Some(es[i])
      else Lookup(es[i + 1..], key)
  {
    if i < |es| {
      assert es[i..][1..] == es[i + 1..];
    }
  }

  /** `search_for_entry`, over `count` entries in memory. */
  method SearchForEntry(m: Memory, addr: nat, count: nat, name: seq<U8>) returns (found: Option<DirEntry>)
    requires m.Valid() && addr + ENTRY_SIZE * count <= m.ram.Length && 0 !in name
    ensures found == LookupName(Entries(m.ram[addr..addr + ENTRY_SIZE * count]), name)
  {
    hide Lookup, Matches, ParseEntry, Entries, Accepted, Converted;
    var converted := new U8[NAME_LEN + EXTENSION_LEN + 1];
    var isValidName := ConvertTo83(name, converted);
    if !isValidName {
      return None;
    }
    ghost var all := m.ram[..];
    ghost var es, key := Entries(m.ram[addr..addr + ENTRY_SIZE * count]), Converted(name);
    assert es == Entries(all[addr..addr + ENTRY_SIZE * count]) by {
      assert m.ram[addr..addr + ENTRY_SIZE * count] == all[addr..addr + ENTRY_SIZE * count];
    }
    NoNulConverted(name);
    assert es[0..] == es && |es| == count;
    var i := 0;
    while i < count && m.ram[addr + ENTRY_SIZE * i] != 0
      invariant 0 <= i <= count && Lookup(es[i..], key) == Lookup(es, key) && converted[..] == key + [0]
    {
      var at := addr + ENTRY_SIZE * i;
      var raw := m.ram[at..at + ENTRY_SIZE];
      assert raw == all[at..at + ENTRY_SIZE];
      EntryAt(all, addr, count, i);
      LookupStep(es, key, i);
      var hit := CheckEntry(raw, converted[..], key);
      if hit {
        return Some(ParseEntry(raw));
      }
      i := i + 1;
    }
    LookupStep(es, key, i);
    if i < count {
      EntryAt(all, addr, count, i);
    }
    return None;
  }

  // ----- searching a directory cluster by cluster -----

  /** What the clusters of a chain contain under a name, the first cluster that has it deciding. */
  function SearchChain(disk: Disk, fat: Fat, chain: seq<U32>, name: seq<U8>): Option<DirEntry> {
    if chain == [] then None
    else
      var here := LookupName(Entries(ClusterBytes(disk, fat, chain[0])), name);
      if here.Some? then here else SearchChain(disk, fat, chain[1..], name)
  }

  /** The first live record of a component's stored name in a run of bytes. */
  ghost predicate NamedIn(bytes: seq<U8>, name: seq<U8>, r: DirRecord) {
    Accepted(name) && exists i: nat :: FirstRecord(bytes, Converted(name), i, r)
  }

  lemma LookupReadsNamed(bytes: seq<U8>, name: seq<U8>)
    requires 0 !in name
    ensures forall r :: NamedIn(bytes, name, r) ==>
      LookupName(Entries(bytes), name).Some? && Reads(LookupName(Entries(bytes), name).value, r)
    ensures LookupName(Entries(bytes), name).Some? ==> exists r :: NamedIn(bytes, name, r)
  {
    hide Lookup, Entries, FirstRecord, Reads, Accepted, Converted;
    if Accepted(name) {
      NoNulConverted(name);
      LookupReadsRecords(bytes, Converted(name));
      if LookupName(Entries(bytes), name).Some? {
        var i, r :| FirstRecord(bytes, Converted(name), i, r);
        assert NamedIn(bytes, name, r);
      }
    }
  }

  /** The record is in cluster `p` of the chain, and none of that name is in an earlier one. */
  ghost predicate NamedInChain(disk: Disk, fat: Fat, chain: seq<U32>, name: seq<U8>, p: nat, r: DirRecord) {
    && p < |chain| && NamedIn(ClusterBytes(disk, fat, chain[p]), name, r)
    && forall k: nat, q :: k < p ==> !NamedIn(ClusterBytes(disk, fat, chain[k]), name, q)
  }

  /** The search along a chain finds the first record of that name in the first cluster that has one. */
  lemma {:induction false} SearchReadsRecords(disk: Disk, fat: Fat, chain: seq<U32>, name: seq<U8>)
    requires 0 !in name
    ensures forall p: nat, r :: NamedInChain(disk, fat, chain, name, p, r) ==>
      SearchChain(disk, fat, chain, name).Some? && Reads(SearchChain(disk, fat, chain, name).value, r)
    ensures SearchChain(disk, fat, chain, name).Some? ==>
      exists p: nat, r :: NamedInChain(disk, fat, chain, name, p, r)
    decreases |chain|
  {
    hide NamedIn, LookupName, Entries, ClusterBytes, Reads;
    if chain != [] {
      var bytes, rest := ClusterBytes(disk, fat, chain[0]), chain[1..];
      LookupReadsNamed(bytes, name);
      SearchReadsRecords(disk, fat, rest, name);
      forall p: nat, r | NamedInChain(disk, fat, chain, name, p, r)
        ensures SearchChain(disk, fat, chain, name).Some? && Reads(SearchChain(disk, fat, chain, name).value, r)
      {
        if p > 0 {
          assert forall k: nat :: k < p - 1 ==> rest[k] == chain[k + 1];
          assert NamedInChain(disk, fat, rest, name, p - 1, r);
        }
      }
      if LookupName(Entries(bytes), name).Some? {
        var r :| NamedIn(bytes, name, r);
        assert NamedInChain(disk, fat, chain, name, 0, r);
      } else if SearchChain(disk, fat, rest, name).Some? {
        var p: nat, r :| NamedInChain(disk, fat, rest, name, p, r);
        assert forall k: nat :: 0 < k < p + 1 ==> chain[k] == rest[k - 1];
        assert forall q :: !NamedIn(bytes, name, q);
        assert NamedInChain(disk, fat, chain, name, p + 1, r);
      }
    }
  }

  lemma SearchChainStep(disk: Disk, fat: Fat, chain: seq<U32>, name: seq<U8>, p: nat)
    requires p < |chain|
    ensures SearchChain(disk, fat, chain[p..], name) ==
      var here := LookupName(Entries(ClusterBytes(disk, fat, chain[p])), name);
      if here.Some? then here else SearchChain(disk, fat, chain[p + 1..], name)
  {
    assert chain[p..][1..] == chain[p + 1..];
  }

  /** A partial entry at the end of the bytes is no entry. */
  lemma EntriesOfPrefix(bytes: seq<U8>)
    ensures var n := |bytes| / ENTRY_SIZE;
      ENTRY_SIZE * n <= |bytes| && Entries(bytes[..ENTRY_SIZE * n]) == Entries(bytes)
  {
    var n := |bytes| / ENTRY_SIZE;
    var front := bytes[..ENTRY_SIZE * n];
    forall i | 0 <= i < n ensures Entries(front)[i] == Entries(bytes)[i] {
      SliceOfSlice(bytes, 0, ENTRY_SIZE * n, ENTRY_SIZE * i, ENTRY_SIZE * i + ENTRY_SIZE);
      assert bytes[0..0 + ENTRY_SIZE * n] == front;
    }
  }

  /** Reads a cluster into a fresh scratch buffer and searches it; the buffer is still pushed on return. */
  method SearchCluster(m: Memory, fat: Fat, cluster: U32, name: seq<U8>)
    returns (status: FatResult, found: Option<DirEntry>)
    requires OnDisk(m, fat) && Sound(fat) && InData(fat, cluster) && 0 !in name
    modifies m`extTop, m.ram
    ensures m.Valid() && OnlyScratch(m, old(m.extTop)) && status in {Success, DiskError, Panic}
    ensures status == Success ==> m.extTop == old(m.extTop) - ClusterSize(fat)
    ensures status == Success ==> found == LookupName(Entries(ClusterBytes(m.disk, fat, cluster)), name)
    ensures status == DiskError ==> m.extTop == old(m.extTop) && !m.disk.Working()
    ensures status == Panic ==> old(m.Room()) < ClusterSize(fat)
  {
    hide LookupName, ClusterByte, Entries, InData;
    var spc: int, bps: int := fat.bpb.sectorsPerCluster, fat.bpb.bytesPerSector;
    var bufferSize := spc * bps;
    SizeBound(fat, spc, bufferSize);
    found := None;
    var pushed, buffer := m.Push(bufferSize);
    if !pushed {
      return Panic, found;
    }
    var read := ReadSectors(m, fat, cluster, 0, spc, buffer);
    if !read {
      var _ := m.Pop(bufferSize);
      return DiskError, found;
    }
    ghost var bytes := ClusterBytes(m.disk, fat, cluster);
    assert m.ram[buffer..buffer + bufferSize] == bytes;
    EntriesOfPrefix(bytes);
    var count := bufferSize / ENTRY_SIZE;
    assert m.ram[buffer..buffer + ENTRY_SIZE * count] == bytes[..ENTRY_SIZE * count];
    found := SearchForEntry(m, buffer, count, name);
    return Success, found;
  }

  /** The inner loop of `fat_open`: a directory searched along its chain. */
  method SearchDirectory(m: Memory, fat: Fat, start: U32, name: seq<U8>, ghost chain: seq<U32>)
    returns (status: FatResult, found: Option<DirEntry>)
    requires OnDisk(m, fat) && Sound(fat) && IsChain(m.disk, fat, chain) && chain[0] == start && 0 !in name
    modifies m`extTop, m.ram
    ensures m.Valid() && OnlyScratch(m, old(m.extTop)) && status in {Success, DiskError, Panic}
    ensures status != Panic ==> m.extTop == old(m.extTop)
    ensures status == Success && (found.Some? || m.disk.Working()) ==> found == SearchChain(m.disk, fat, chain, name)
    ensures m.disk.Working() && old(RoomToRead(m, fat)) ==> status == Success
  {
    hide LookupName, ClusterByte, Entries, InData, IsChain, Follow, Followable, Classify;
    found := None;
    var cluster, result := start, Valid;
    ghost var p := 0;
    assert chain[0..] == chain && chain != [] by {
      ChainNotEmpty(m.disk, fat, chain);
    }
    while found == None && result == Valid
      invariant m.Valid() && OnlyScratch(m, old(m.extTop)) && m.extTop == old(m.extTop) && 0 <= p <= |chain|
      invariant result == Valid && found == None ==> p < |chain| && cluster == chain[p]
      invariant result == Valid && found == None ==>
        SearchChain(m.disk, fat, chain, name) == SearchChain(m.disk, fat, chain[p..], name)
      invariant found.Some? ==> found == SearchChain(m.disk, fat, chain, name)
      invariant m.disk.Working() && result != Valid ==> found == SearchChain(m.disk, fat, chain, name)
      decreases |chain| - p, found == None && result == Valid
    {
      ChainStep(m.disk, fat, chain, p);
      SearchChainStep(m.disk, fat, chain, name, p);
      status, found := SearchCluster(m, fat, cluster, name);
      if status != Success {
        return;
      }
      if found == None {
        result, cluster := FatNextNotBad(m, fat, cluster);
        if result == Panicked {
          return Panic, found;
        }
        p := p + 1;
      }
      var _ := m.Pop(ClusterSize(fat));
    }
    return Success, found;
  }

  lemma ChainNotEmpty(disk: Disk, fat: Fat, chain: seq<U32>)
    requires IsChain(disk, fat, chain)
    ensures chain != []
  {
  }

  // ----- a directory as one flat list -----

  /** Once the list has ended, no entry is in use any more. */
  ghost predicate EndsOnce(es: seq<DirEntry>) {
    forall i, j :: 0 <= i < j < |es| && EndsList(es[i]) ==> EndsList(es[j])
  }

  lemma {:induction false} LookupConcat(es: seq<DirEntry>, fs: seq<DirEntry>, key: seq<U8>)
    requires EndsOnce(es + fs)
    ensures Lookup(es + fs, key) == if Lookup(es, key).Some? then Lookup(es, key) else Lookup(fs, key)
  {
    if es == [] {
      assert es + fs == fs;
    } else {
      var all := es + fs;
      assert all[1..] == es[1..] + fs;
      if EndsList(es[0]) {
        assert all[0] == es[0];
        assert fs != [] ==> all[|es|] == fs[0];
      } else {
        forall i, j | 0 <= i < j < |all[1..]| && EndsList(all[1..][i]) ensures EndsList(all[1..][j]) {
          assert all[1..][i] == all[i + 1] && all[1..][j] == all[j + 1];
        }
        LookupConcat(es[1..], fs, key);
      }
    }
  }

  lemma EntriesInFront(a: seq<U8>, b: seq<U8>, i: nat)
    requires |a| % ENTRY_SIZE == 0 && i < |a| / ENTRY_SIZE
    ensures i < |Entries(a)| && i < |Entries(a + b)| && Entries(a + b)[i] == Entries(a)[i]
  {
    SliceOfSlice(a + b, 0, |a|, ENTRY_SIZE * i, ENTRY_SIZE * i + ENTRY_SIZE);
    assert (a + b)[0..0 + |a|] == a;
  }

  lemma EntriesBehind(a: seq<U8>, b: seq<U8>, i: nat)
    requires |a| % ENTRY_SIZE == 0 && i < |b| / ENTRY_SIZE
    ensures var n := |a| / ENTRY_SIZE;
      n + i < |Entries(a + b)| && i < |Entries(b)| && Entries(a + b)[n + i] == Entries(b)[i]
  {
    SliceOfSlice(a + b, |a|, |b|, ENTRY_SIZE * i, ENTRY_SIZE * i + ENTRY_SIZE);
    assert (a + b)[|a|..|a| + |b|] == b;
  }

  lemma EntriesConcat(a: seq<U8>, b: seq<U8>)
    requires |a| % ENTRY_SIZE == 0
    ensures Entries(a + b) == Entries(a) + Entries(b)
  {
    var n, left, right, all := |a| / ENTRY_SIZE, Entries(a), Entries(b), Entries(a + b);
    assert |left| == n && |all| == n + |right|;
    forall i | 0 <= i < |all| ensures all[i] == (left + right)[i] {
      if i < n {
        EntriesInFront(a, b, i);
      } else {
        EntriesBehind(a, b, i - n);
      }
    }
  }

  /** All entries of a directory, in order. */
  function DirectoryEntries(disk: Disk, fat: Fat, chain: seq<U32>): seq<DirEntry> {
    Entries(Contents(disk, fat, chain))
  }

  lemma EndsOnceTail(es: seq<DirEntry>, fs: seq<DirEntry>)
    requires EndsOnce(es + fs)
    ensures EndsOnce(fs)
  {
    forall i, j | 0 <= i < j < |fs| && EndsList(fs[i]) ensures EndsList(fs[j]) {
      assert (es + fs)[|es| + i] == fs[i] && (es + fs)[|es| + j] == fs[j];
    }
  }

  /** Searching cluster by cluster is searching the flat list for the first live, non-volume match. */
  lemma {:induction false} SearchChainIsFlat(disk: Disk, fat: Fat, chain: seq<U32>, name: seq<U8>)
    requires ClusterSize(fat) % ENTRY_SIZE == 0 && EndsOnce(DirectoryEntries(disk, fat, chain))
    ensures SearchChain(disk, fat, chain, name) == LookupName(DirectoryEntries(disk, fat, chain), name)
    decreases |chain|
  {
    if chain == [] {
      assert Contents(disk, fat, []) == [] && Entries([]) == [];
    } else {
      hide Lookup, Entries, Accepted, Converted, EndsOnce;
      var here, rest := ClusterBytes(disk, fat, chain[0]), Contents(disk, fat, chain[1..]);
      EntriesConcat(here, rest);
      EndsOnceTail(Entries(here), Entries(rest));
      SearchChainIsFlat(disk, fat, chain[1..], name);
      if Accepted(name) {
        LookupConcat(Entries(here), Entries(rest), Converted(name));
      }
    }
  }
}
