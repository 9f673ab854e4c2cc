/**
 * `get_mem_regions`: the firmware's list of regions becomes one tidy map, and that map is a function
 * from addresses to types which can be read off the firmware's list.
 */
module MemoryMap {
  import opened Words
  import opened Regions
  import opened Insertion
  import opened RegionList

  /** An E820 entry (section 15 of the ACPI specification). */
  datatype RawRegion = RawRegion(base: U64, size: U64, ty: U32, extAttr: U32)

  datatype SysinfoResult = Success | EmptyMemoryLayout

  /** An answer of the firmware: the entry, the index to continue with, and whether carry flag and signature say that
      the call succeeded. */
  datatype Answer = Answer(entry: RawRegion, next: U32, ok: bool)

  /** The entries the loop over `get_next_mregion` keeps. */
  function Kept(answers: seq<Answer>): seq<RawRegion> {
    if answers == [] || !answers[0].ok || answers[0].next == 0 then []
    else [answers[0].entry] + Kept(answers[1..])
  }

  /** They are the ones before the first failure or the first continuation index 0. */
  lemma {:induction false} KeptIsPrefix(answers: seq<Answer>)
    ensures var k := |Kept(answers)|;
      && k <= |answers|
      && (forall i :: 0 <= i < k ==> answers[i].ok && answers[i].next != 0 && Kept(answers)[i] == answers[i].entry)
      && (k < |answers| ==> !answers[k].ok || answers[k].next == 0)
  {
    if answers != [] && answers[0].ok && answers[0].next != 0 {
      KeptIsPrefix(answers[1..]);
      forall i | 0 <= i < |Kept(answers)|
        ensures answers[i].ok && answers[i].next != 0 && Kept(answers)[i] == answers[i].entry
      {
        if i > 0 {
          assert answers[i] == answers[1..][i - 1];
        }
      }
    }
  }

  /** Firmware that delivers its last entry together with index 0 loses that entry; with a single entry no layout is
      left. */
  lemma LastEntryIsDropped(answers: seq<Answer>)
    requires answers != [] && answers[|answers| - 1].next == 0
    requires forall i :: 0 <= i < |answers| - 1 ==> answers[i].ok && answers[i].next != 0
    ensures |Kept(answers)| == |answers| - 1
  {
    KeptIsPrefix(answers);
  }

  /** `convert_region`: the five types of the standard, everything else RESERVED, and bit 1 of the attributes. */
  function Convert(raw: RawRegion): (r: Region)
    ensures r.base == raw.base && r.size == raw.size
    ensures (r.ty == Usable <==> raw.ty == 1) && (r.ty == Reclaimable <==> raw.ty == 3)
    ensures (r.ty == AcpiNvs <==> raw.ty == 4) && (r.ty == Bad <==> raw.ty == 5) && r.ty != ElfExecutable
    ensures r.isVolatile <==> raw.extAttr % 4 >= 2
  {
    var ty := match raw.ty
      case 1 => Usable
      case 2 => Reserved
      case 3 => Reclaimable
      case 4 => AcpiNvs
      case 5 => Bad
      case _ => Reserved;
    Region(raw.base, raw.size, ty, raw.extAttr / 2 % 2 == 1)
  }

  /** The entries `insert_sorted` does not ignore. */
  function NonEmpty(raws: seq<RawRegion>): seq<Region> {
    if raws == [] then []
    else
      var init, last := NonEmpty(raws[..|raws| - 1]), Convert(raws[|raws| - 1]);
      if last.size == 0 then init else init + [last]
  }

  /** In address order and disjoint. */
  ghost predicate InOrder(rs: seq<Region>) {
    AllFit(rs) && Positive(rs) && Sorted(rs)
  }

  const LOW := Region(0, REAL_MODE_LIMIT, Reserved, false)

  /** A tidy map over the range of the regions, ending in the type of the last one. */
  ghost predicate Spans(out: seq<Region>, rs: seq<Region>)
    requires rs != []
  {
    && Tidy(out) && out != [] && out[0].base == rs[0].base
    && out[|out| - 1].End() == rs[|rs| - 1].End() && out[|out| - 1].ty == rs[|rs| - 1].ty
    && (|out| >= 2 ==> out[|out| - 2].ty != out[|out| - 1].ty)
  }

  /** One more region at the end. */
  lemma SpansOneMore(out: seq<Region>, rs: seq<Region>)
    requires InOrder(rs) && |rs| >= 2 && Spans(out, rs[..|rs| - 1])
    ensures InOrder(rs[..|rs| - 1])
    ensures CanInsert(out, rs[|rs| - 1]) && Spans(Inserted(out, rs[|rs| - 1]), rs)
  {
    hide Tidy, CanInsert, Inserted, TypeAt;
    var init, last := rs[..|rs| - 1], rs[|rs| - 1];
    assert last.Fits() && init[|init| - 1].End() <= last.base;
    AppendKeepsTidy(out, last);
  }

  /** The map after inserting the regions one by one. */
  function Appended(rs: seq<Region>): (out: seq<Region>)
    requires InOrder(rs)
    ensures rs == [] ==> out == []
    ensures rs != [] ==> Spans(out, rs)
  {
    if |rs| == 0 then rs
    else if |rs| == 1 then
      TidySingle(rs[0]);
      rs
    else
      hide Spans, CanInsert, Inserted;
      assert InOrder(rs[..|rs| - 1]);
      SpansOneMore(Appended(rs[..|rs| - 1]), rs);
      Inserted(Appended(rs[..|rs| - 1]), rs[|rs| - 1])
  }

  lemma LowReady(rs: seq<Region>)
    requires Tidy(rs) && rs != []
    ensures var s := Fixing([], LOW, rs, REAL_MODE_LIMIT);
      LastFix(rs, LOW) == s && Passed(rs, LOW.base) == 0 && s.WellFormed() && !s.Stuck() && TidyAround(s)
  {
    assert [] + [LOW] == [LOW];
    assert rs[0].Fits();
    RestTidy(rs, REAL_MODE_LIMIT);
    TidySingle(LOW);
  }

  /** Inserting the reserved low memory in front. */
  lemma LowFirst(rs: seq<Region>)
    requires rs == [] || Tidy(rs)
    ensures CanInsert(rs, LOW)
    ensures var out := Inserted(rs, LOW); Tidy(out) && out != [] && out[0].base == 0
    ensures forall a :: TypeAt(Inserted(rs, LOW), a) == LowType(rs, a)
  {
    if rs == [] {
      TidySingle(LOW);
      forall a ensures TypeAt([LOW], a) == LowType(rs, a) {
        TypeAtSplit([LOW], a);
      }
    } else {
      hide TidyAround, Rest, InGap;
      var s := Fixing([], LOW, rs, REAL_MODE_LIMIT);
      LowReady(rs);
      InsertedSettled(rs, LOW);
      FixRightSorted(s);
      FixRightTidy(s);
      forall a ensures TypeAt(Inserted(rs, LOW), a) == LowType(rs, a) {
        FixRightIsPointwiseMaximum(s, a);
        GapIsAtFront(rs, REAL_MODE_LIMIT, a);
        LowMeaning(rs, a);
      }
    }
  }

  lemma LowMeaning(rs: seq<Region>, a: int)
    requires rs != [] && (InGap(rs, REAL_MODE_LIMIT, a) <==> REAL_MODE_LIMIT <= a < rs[0].base)
    ensures Meaning(Fixing([], LOW, rs, REAL_MODE_LIMIT), a) == LowType(rs, a)
  {
  }

  function LowType(rs: seq<Region>, a: int): Option<MemType> {
    if LOW.Has(a) then Some(Reserved)
    else if TypeAt(rs, a).Some? then TypeAt(rs, a)
    else if rs != [] && REAL_MODE_LIMIT <= a < rs[0].base then Some(Reserved)
    else None
  }

  lemma {:induction false} RestTidy(rs: seq<Region>, limit: int)
    requires Tidy(rs)
    ensures Tidy(Rest(rs, limit))
  {
    if rs != [] && rs[0].base < limit && rs[0].End() <= limit {
      TidyTail(rs);
      RestTidy(rs[1..], limit);
    }
  }

  lemma {:induction false} GapIsAtFront(rs: seq<Region>, limit: int, a: int)
    requires Tidy(rs) && rs != []
    ensures InGap(rs, limit, a) <==> limit <= a < rs[0].base
  {
    if rs[0].base < limit && rs[0].End() <= limit {
      assert Rest(rs, limit) == Rest(rs[1..], limit);
      TidyTail(rs);
      if |rs| > 1 {
        GapIsAtFront(rs[1..], limit, a);
      }
    }
  }

  /** The finished map for the non-empty regions, in order. */
  function MapOf(rs: seq<Region>): seq<Region>
    requires InOrder(rs)
  {
    LowFirst(Appended(rs));
    Inserted(Appended(rs), LOW)
  }

  /** What the regions say about an address: its region's type, or the filler of the gap it is in. */
  ghost predicate Says(rs: seq<Region>, a: int, t: Option<MemType>) {
    && (forall i :: 0 <= i < |rs| && rs[i].Has(a) ==> t == Some(rs[i].ty))
    && (forall i, j :: 0 <= i && j == i + 1 && j < |rs| ==>
          rs[i].End() <= a < rs[j].base ==> t == Some(Filler(rs[i].ty, rs[j].ty)))
    && (rs == [] || a < rs[0].base || rs[|rs| - 1].End() <= a ==> t == None)
  }

  lemma SaysSnoc(init: seq<Region>, last: Region, a: int, t: Option<MemType>, u: Option<MemType>)
    requires InOrder(init + [last]) && init != [] && Says(init, a, t)
    requires u == if t.Some? then t
                  else if last.Has(a) then Some(last.ty)
                  else if init[|init| - 1].End() <= a < last.base then Some(Filler(init[|init| - 1].ty, last.ty))
                  else None
    ensures Says(init + [last], a, u)
  {
    var rs, n := init + [last], |init|;
    assert rs[n] == last;
    forall i | 0 <= i < n ensures rs[i] == init[i] && init[i].End() <= last.base {
      assert rs[i].End() <= rs[n].base;
    }
    assert rs[n] == last && rs[0] == init[0] && init[0].base <= init[n - 1].End();
    if last.base <= a {
      assert init[n - 1].End() <= a;
    }
  }

  lemma SaysFew(rs: seq<Region>, a: int)
    requires |rs| <= 1
    ensures Says(rs, a, TypeAt(rs, a))
  {
    if rs != [] {
      TypeAtSplit(rs, a);
    }
  }

  lemma AppendedStep(rs: seq<Region>, a: int)
    requires InOrder(rs) && |rs| >= 2
    ensures var init, last := rs[..|rs| - 1], rs[|rs| - 1];
      && InOrder(init) && init + [last] == rs
      && (var t := TypeAt(Appended(init), a);
          TypeAt(Appended(rs), a) ==
            if t.Some? then t
            else if last.Has(a) then Some(last.ty)
            else if init[|init| - 1].End() <= a < last.base then Some(Filler(init[|init| - 1].ty, last.ty))
            else None)
  {
    hide Tidy, TypeAt, Inserted, CanInsert;
    var init, last := rs[..|rs| - 1], rs[|rs| - 1];
    SpansOneMore(Appended(init), rs);
    AppendKeepsTidy(Appended(init), last);
    assert TypeAt(Appended(rs), a) == AppendedType(Appended(init), last, a);
  }

  /** Before the low memory is reserved, the map gives each address what the regions say about it. */
  lemma {:induction false} AppendedTypes(rs: seq<Region>, a: int)
    requires InOrder(rs)
    ensures Says(rs, a, TypeAt(Appended(rs), a))
  {
    hide Tidy, Says, TypeAt, Inserted, CanInsert;
    if |rs| <= 1 {
      SaysFew(rs, a);
    } else {
      var init, last := rs[..|rs| - 1], rs[|rs| - 1];
      AppendedStep(rs, a);
      hide Appended, AppendedType, InOrder;
      AppendedTypes(init, a);
      SaysSnoc(init, last, a, TypeAt(Appended(init), a), TypeAt(Appended(rs), a));
    }
  }

  /** The finished map is tidy, starts at address 0, and means what the firmware reported. */
  lemma MapRefinesFirmware(rs: seq<Region>)
    requires InOrder(rs)
    ensures Tidy(MapOf(rs)) && MapOf(rs) != [] && MapOf(rs)[0].base == 0
    ensures forall a :: 0 <= a < REAL_MODE_LIMIT ==> TypeAt(MapOf(rs), a) == Some(Reserved)
    ensures forall i, a :: 0 <= i < |rs| && rs[i].Has(a) && REAL_MODE_LIMIT <= a ==>
      TypeAt(MapOf(rs), a) == Some(rs[i].ty)
    ensures forall i, j, a :: 0 <= i && j == i + 1 && j < |rs| ==>
      rs[i].End() <= a < rs[j].base && REAL_MODE_LIMIT <= a ==> TypeAt(MapOf(rs), a) == Some(Filler(rs[i].ty, rs[j].ty))
    ensures forall a :: rs != [] && REAL_MODE_LIMIT <= a < rs[0].base ==> TypeAt(MapOf(rs), a) == Some(Reserved)
    ensures forall a :: a < 0 || (REAL_MODE_LIMIT <= a && (rs == [] || rs[|rs| - 1].End() <= a)) ==>
      TypeAt(MapOf(rs), a) == None
  {
    var out := Appended(rs);
    LowFirst(out);
    assert forall a :: TypeAt(MapOf(rs), a) == LowType(out, a);
    forall i, a | 0 <= i < |rs| && rs[i].Has(a) && REAL_MODE_LIMIT <= a
      ensures TypeAt(MapOf(rs), a) == Some(rs[i].ty)
    {
      AppendedTypes(rs, a);
    }
    forall i, j, a | 0 <= i && j == i + 1 && j < |rs| && rs[i].End() <= a < rs[j].base && REAL_MODE_LIMIT <= a
      ensures TypeAt(MapOf(rs), a) == Some(Filler(rs[i].ty, rs[j].ty))
    {
      AppendedTypes(rs, a);
    }
    forall a | rs != [] && REAL_MODE_LIMIT <= a < rs[0].base ensures TypeAt(MapOf(rs), a) == Some(Reserved) {
      AppendedTypes(rs, a);
    }
    forall a | a < 0 || (REAL_MODE_LIMIT <= a && (rs == [] || rs[|rs| - 1].End() <= a))
      ensures TypeAt(MapOf(rs), a) == None
    {
      AppendedTypes(rs, a);
      if rs != [] && a < 0 {
        assert rs[0].Fits();
      }
    }
  }

  lemma NonEmptyInOrder(raws: seq<RawRegion>, i: nat)
    requires i < |raws| && InOrder(NonEmpty(raws[..i + 1]))
    ensures var init, last := NonEmpty(raws[..i]), Convert(raws[i]);
      InOrder(init) && NonEmpty(raws[..i + 1]) == if last.size == 0 then init else init + [last]
  {
    var upto := raws[..i + 1];
    assert upto[..i] == raws[..i] && upto[i] == raws[i];
    var init, last := NonEmpty(raws[..i]), Convert(raws[i]);
    if last.size > 0 {
      assert init == (init + [last])[..|init|];
    }
  }

  /** The regions before `i` of an ordered list are ordered. */
  lemma {:induction false} PrefixInOrder(raws: seq<RawRegion>, i: nat)
    requires i <= |raws| && InOrder(NonEmpty(raws))
    ensures InOrder(NonEmpty(raws[..i]))
    decreases |raws|
  {
    if i == |raws| {
      assert raws[..i] == raws;
    } else {
      var n := |raws| - 1;
      assert raws[..n + 1] == raws;
      NonEmptyInOrder(raws, n);
      PrefixInOrder(raws[..n], i);
      assert raws[..n][..i] == raws[..i];
    }
  }

  lemma AppendStep(init: seq<Region>, last: Region)
    requires InOrder(init + [last]) && InOrder(init)
    ensures CanInsert(Appended(init), last) && Appended(init + [last]) == Inserted(Appended(init), last)
  {
    var rs := init + [last];
    assert rs[|init|] == last && rs[..|rs| - 1] == init;
    assert last.Fits() && last.size > 0;
    if init == [] {
      assert rs == [last];
    } else {
      assert rs[|init| - 1] == init[|init| - 1] && init[|init| - 1].End() <= last.base;
      AppendKeepsTidy(Appended(init), last);
    }
  }

  /** Each entry is inserted as the specification inserts it. */
  lemma EntryStep(raws: seq<RawRegion>, i: nat)
    requires i < |raws| && InOrder(NonEmpty(raws))
    ensures InOrder(NonEmpty(raws[..i])) && InOrder(NonEmpty(raws[..i + 1]))
    ensures var rs := Appended(NonEmpty(raws[..i]));
      CanInsert(rs, Convert(raws[i])) && Appended(NonEmpty(raws[..i + 1])) == Inserted(rs, Convert(raws[i]))
  {
    hide CanInsert, Inserted, Appended, InOrder, Convert, NonEmpty;
    PrefixInOrder(raws, i + 1);
    NonEmptyInOrder(raws, i);
    var init, last := NonEmpty(raws[..i]), Convert(raws[i]);
    if last.size == 0 {
      AppendNothing(init, raws[i]);
    } else {
      AppendStep(init, last);
    }
  }

  lemma AppendNothing(init: seq<Region>, raw: RawRegion)
    requires InOrder(init) && raw.size == 0
    ensures CanInsert(Appended(init), Convert(raw)) && Inserted(Appended(init), Convert(raw)) == Appended(init)
  {
    assert AllFit(Appended(init));
  }

  /** `get_mem_regions`, over the answers of the firmware; behind the last one the calls fail. */
  method GetMemRegions(memRegions: RegionMap, answers: seq<Answer>) returns (result: SysinfoResult)
    requires memRegions.Valid() && memRegions.Regions() == [] && InOrder(NonEmpty(Kept(answers)))
    modifies memRegions, memRegions.nodes
    ensures memRegions.Valid()
    ensures forall i :: 0 <= i < |memRegions.nodes| ==>
      memRegions.nodes[i] in old(memRegions.nodes) || fresh(memRegions.nodes[i])
    ensures Kept(answers) == [] <==> result == EmptyMemoryLayout
    ensures memRegions.Regions() == if Kept(answers) == [] then [] else MapOf(NonEmpty(Kept(answers)))
  {
    ghost var raws := Kept(answers);
    KeptIsPrefix(answers);
    hide Kept;
    hide RegionMap.Valid, RegionMap.Regions, Inserted, CanInsert, Appended, InOrder;
    var count := 0;
    assert raws[..0] == [] && InOrder([]) by {
      PrefixInOrder(raws, 0);
    }
    while count < |answers| && answers[count].ok && answers[count].next != 0
      invariant count <= |raws|
      invariant memRegions.Valid()
      invariant forall i :: 0 <= i < |memRegions.nodes| ==>
        memRegions.nodes[i] in old(memRegions.nodes) || fresh(memRegions.nodes[i])
      invariant InOrder(NonEmpty(raws[..count])) && memRegions.Regions() == Appended(NonEmpty(raws[..count]))
    {
      EntryStep(raws, count);
      var value := Convert(answers[count].entry);
      memRegions.InsertNew(value.base, value.size, value.ty, value.isVolatile);
      count := count + 1;
    }
    assert raws[..|raws|] == raws;
    if count == 0 {
      return EmptyMemoryLayout;
    }
    LowFirst(Appended(NonEmpty(raws)));
    memRegions.InsertNew(0, REAL_MODE_LIMIT, Reserved, false);
    return Success;
  }
}
