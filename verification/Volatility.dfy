/** The volatile bits of the memory map: which bit each address has after `fix_right`. */
module Volatility {
  import opened Words
  import opened Regions
  import opened Insertion
  import opened MemoryMap
  import opened ElfMap

  /** The bit a list gives to an address. */
  function FlagAt(rs: seq<Region>, a: int): Option<bool> {
    if rs == [] then None
    else if rs[0].Has(a) then Some(rs[0].isVolatile)
    else FlagAt(rs[1..], a)
  }

  /** The bit of an address behind `cur` and up to the end of its neighbour: a merged or widened region keeps its own,
      and padding between them is not volatile. */
  function FlagBehind(cur: Region, next: Region, a: int): bool {
    if cur.ty == next.ty then cur.isVolatile
    else if next.Has(a) || next.ty == Reserved then next.isVolatile
    else false
  }

  /** The bit goes with the type that wins; on a tie the earlier region keeps both. */
  function FlagMeaning(s: Fixing, a: int): Option<bool> {
    var rest := Rest(s.tail, s.limit);
    if FlagAt(s.before, a).Some? then FlagAt(s.before, a)
    else if s.cur.Has(a) then
      var below := TypeAt(s.tail, a);
      if below.Some? && MoreRestrictive(below.value, s.cur.ty) then FlagAt(s.tail, a) else Some(s.cur.isVolatile)
    else if rest != [] && s.limit <= a < rest[0].End() then Some(FlagBehind(s.cur, rest[0], a))
    else FlagAt(s.tail, a)
  }

  lemma {:induction false} FlagAtConcat(xs: seq<Region>, ys: seq<Region>, a: int)
    ensures FlagAt(xs + ys, a) == if FlagAt(xs, a).Some? then FlagAt(xs, a) else FlagAt(ys, a)
  {
    if xs == [] {
      assert xs + ys == ys;
    } else {
      assert (xs + ys)[1..] == xs[1..] + ys;
      FlagAtConcat(xs[1..], ys, a);
    }
  }

  /** A list covers the addresses it has a type for. */
  lemma {:induction false} FlagWithType(rs: seq<Region>, a: int)
    ensures FlagAt(rs, a).Some? <==> TypeAt(rs, a).Some?
  {
    if rs != [] {
      FlagWithType(rs[1..], a);
    }
  }

  lemma FlagAtSplit(rs: seq<Region>, a: int)
    requires rs != []
    ensures FlagAt(rs, a) == if rs[0].Has(a) then Some(rs[0].isVolatile) else FlagAt(rs[1..], a)
    ensures |rs| == 1 ==> FlagAt(rs[1..], a) == None
  {
  }

  lemma FlagAtCons(r: Region, rs: seq<Region>, a: int)
    ensures FlagAt([r] + rs, a) == if r.Has(a) then Some(r.isVolatile) else FlagAt(rs, a)
  {
    assert ([r] + rs)[1..] == rs;
  }

  lemma FlagAtOutside(rs: seq<Region>, a: int)
    requires Sorted(rs) && AllFit(rs)
    requires rs != [] ==> a < rs[0].base || rs[|rs| - 1].End() <= a
    ensures FlagAt(rs, a) == None && TypeAt(rs, a) == None
  {
    TypeAtOutside(rs, a);
    FlagWithType(rs, a);
  }

  /** Behind the first region of a sorted tail, nothing covers an address before its end. */
  lemma TailSplit(tail: seq<Region>, a: int)
    requires Sorted(tail) && AllFit(tail) && tail != []
    ensures TypeAt(tail, a) == if tail[0].Has(a) then Some(tail[0].ty) else TypeAt(tail[1..], a)
    ensures FlagAt(tail, a) == if tail[0].Has(a) then Some(tail[0].isVolatile) else FlagAt(tail[1..], a)
    ensures a < tail[0].End() ==> TypeAt(tail[1..], a) == None && FlagAt(tail[1..], a) == None
  {
    assert Sorted(tail[1..]) && AllFit(tail[1..]);
    TypeAtSplit(tail, a);
    FlagAtSplit(tail, a);
    if a < tail[0].End() && |tail| > 1 {
      assert tail[0].End() <= tail[1].base;
      FlagAtOutside(tail[1..], a);
    }
  }

  lemma DropKeepsFlags(s: Fixing, a: int)
    requires s.WellFormed() && s.Looping() && !MoreRestrictive(s.tail[0].ty, s.cur.ty)
    ensures FlagMeaning(Step(s), a) == FlagMeaning(s, a)
  {
    hide FlagAt, TypeAt, MoreRestrictive;
    var next, t := s.tail[0], Step(s);
    TailSplit(s.tail, a);
    if next.End() > s.limit {
      TypeAtCons(t.tail[0], s.tail[1..], a);
      FlagAtCons(t.tail[0], s.tail[1..], a);
      assert s.cur.Has(a) || a < s.cur.base || s.limit <= a;
    }
  }

  lemma SplitKeepsFlags(s: Fixing, a: int)
    requires s.WellFormed() && s.Looping() && !s.Stuck() && MoreRestrictive(s.tail[0].ty, s.cur.ty)
    ensures FlagMeaning(Step(s), a) == FlagMeaning(s, a)
  {
    hide FlagAt, TypeAt, MoreRestrictive;
    var next := s.tail[0];
    assert s.limit > next.End();
    var cut := s.cur.(size := next.base - s.cur.base);
    TailSplit(s.tail, a);
    FlagAtConcat(s.before, [cut, next], a);
    FlagAtCons(cut, [next], a);
    FlagAtCons(next, [], a);
    FlagAtNothing(a);
    assert [cut] + [next] == [cut, next] && [next] + [] == [next];
  }

  lemma FlagAtNothing(a: int)
    ensures FlagAt([], a) == None
  {
  }

  lemma PaddedFlags(cur: Region, next: Region, a: int)
    requires cur.Fits() && next.Fits() && cur.End() <= next.base
    ensures FlagAt(Padded(cur, next), a) ==
      if cur.Has(a) then Some(cur.isVolatile)
      else if cur.End() <= a < next.End() then Some(FlagBehind(cur, next, a))
      else None
  {
    var out := Padded(cur, next);
    FlagAtSplit(out, a);
    if |out| > 1 {
      FlagAtSplit(out[1..], a);
      if |out| > 2 {
        FlagAtSplit(out[1..][1..], a);
      }
    }
  }

  /** After `fix_right` every address has the volatile bit of the region whose type it has; where neighbours of one type
      are merged it is the left one's, and padding has none. */
  lemma {:induction false} FixRightFlags(s: Fixing, a: int)
    requires s.WellFormed() && !s.Stuck()
    ensures FlagAt(Fix(s), a) == FlagMeaning(s, a)
    decreases Below(s.tail, s.limit)
  {
    if s.Looping() {
      StepWellFormed(s);
      if MoreRestrictive(s.tail[0].ty, s.cur.ty) {
        SplitKeepsFlags(s, a);
      } else {
        DropKeepsFlags(s, a);
      }
      FixRightFlags(Step(s), a);
    } else {
      if s.cur.Has(a) {
        TypeAtOutside(s.tail, a);
      }
      FlagAtConcat(s.before, PadRight(s.cur, s.tail), a);
      PadRightFlags(s.cur, s.tail, a);
    }
  }

  lemma PadRightFlags(cur: Region, tail: seq<Region>, a: int)
    requires cur.Fits() && AllFit(tail) && Sorted(tail) && (tail != [] ==> cur.End() <= tail[0].base)
    ensures FlagAt(PadRight(cur, tail), a) ==
      if cur.Has(a) then Some(cur.isVolatile)
      else if tail != [] && cur.End() <= a < tail[0].End() then Some(FlagBehind(cur, tail[0], a))
      else FlagAt(tail, a)
  {
    if tail != [] {
      var next, rest := tail[0], tail[1..];
      PaddedFlags(cur, next, a);
      FlagAtSplit(tail, a);
      FlagAtConcat(Padded(cur, next), rest, a);
      if a < next.End() && rest != [] {
        assert next.End() <= tail[1].base;
        FlagAtOutside(rest, a);
      }
    }
  }

  // ----- insertions -----

  /** Appending in address order gives the bits of the new region and of the gap before it, and changes no other. */
  lemma AppendFlags(rs: seq<Region>, n: Region, a: int)
    requires Tidy(rs) && rs != [] && n.Fits() && n.size > 0 && rs[|rs| - 1].End() <= n.base
    requires |rs| >= 2 ==> rs[|rs| - 2].ty != rs[|rs| - 1].ty
    ensures CanInsert(rs, n)
    ensures FlagAt(Inserted(rs, n), a) ==
      if FlagAt(rs, a).Some? then FlagAt(rs, a)
      else if rs[|rs| - 1].End() <= a < n.End() then Some(FlagBehind(rs[|rs| - 1], n, a))
      else None
  {
    hide Inserted, CanInsert, Tidy, Padded, FlagAt;
    var before, last := rs[..|rs| - 1], rs[|rs| - 1];
    AppendFix(rs, n);
    assert rs == before + [last];
    assert last.Fits() by {
      TidyFront(before, last);
    }
    FlagAtConcat(before, Padded(last, n), a);
    FlagAtConcat(before, [last], a);
    FlagAtCons(last, [], a);
    FlagAtNothing(a);
    assert [last] + [] == [last];
    PaddedFlags(last, n, a);
  }

  /** A region inserted inside another brings its own bit, and the split one keeps its own on both sides. */
  lemma SplitFlags(rs: seq<Region>, n: Region, k: nat, a: int)
    requires Tidy(rs) && k < |rs| && rs[k].base < n.base && n.size > 0 && n.End() < rs[k].End()
    ensures FlagAt(SplitAround(rs, n, k), a) == if n.Has(a) then Some(n.isVolatile) else FlagAt(rs, a)
  {
    hide Tidy, FlagAt, Sorted;
    var r, front, rest := rs[k], rs[..k], rs[k + 1..];
    var three := Three(r, n);
    TidyAfter(rs, k);
    assert rs == front + [r] + rest && [r] + [] == [r];
    if n.Has(a) {
      forall i | 0 <= i < k ensures !front[i].Has(a) {
        assert rs[i].End() <= r.base;
      }
      TypeAtNone(front, a);
      FlagWithType(front, a);
    }
    FlagAtConcat(front + three, rest, a);
    FlagAtConcat(front, three, a);
    FlagAtConcat(front + [r], rest, a);
    FlagAtConcat(front, [r], a);
    FlagAtCons(r, [], a);
    FlagAtNothing(a);
    FlagOfThree(three, a);
  }

  lemma FlagOfThree(three: seq<Region>, a: int)
    requires |three| == 3
    ensures FlagAt(three, a) ==
      if three[0].Has(a) then Some(three[0].isVolatile)
      else if three[1].Has(a) then Some(three[1].isVolatile)
      else if three[2].Has(a) then Some(three[2].isVolatile)
      else None
  {
    FlagAtSplit(three, a);
    FlagAtSplit(three[1..], a);
    FlagAtSplit(three[1..][1..], a);
  }

  /** The reserved low memory is not volatile, whatever the firmware said of it. */
  lemma LowFlags(rs: seq<Region>, a: int)
    requires rs == [] || Tidy(rs)
    ensures CanInsert(rs, LOW)
    ensures 0 <= a < REAL_MODE_LIMIT ==> FlagAt(Inserted(rs, LOW), a) == Some(false)
  {
    LowFirst(rs);
    if rs == [] {
      FlagAtSplit([LOW], a);
    } else {
      hide TidyAround, Rest, FlagAt, CanInsert;
      var s := Fixing([], LOW, rs, REAL_MODE_LIMIT);
      LowReady(rs);
      InsertedSettled(rs, LOW);
      FixRightFlags(s, a);
      FlagAtNothing(a);
    }
  }

  /** A loaded segment is not volatile, and no other address changes its bit. */
  lemma SegmentFlags(rs: seq<Region>, ph: ProgramHeader, a: int)
    requires FullMap(rs) && Apart(rs, ph) && !Refused(rs, ph)
    ensures CanInsert(rs, ph.Segment())
    ensures FlagAt(Inserted(rs, ph.Segment()), a) == if ph.Segment().Has(a) then Some(false) else FlagAt(rs, a)
  {
    var k := GuardForcesInside(rs, ph);
    if k >= 1 {
      NextRegion(rs, k - 1);
    }
    assert rs[k].Fits();
    hide Tidy, CanInsert, Inserted, FlagAt, OffBounds, Intersects;
    InsideSplits(rs, ph.Segment(), k);
    SplitFlags(rs, ph.Segment(), k, a);
  }

  /** After a successful load exactly the loaded addresses lost their bits. */
  lemma {:induction false} LoadFlags(file: seq<U8>, table: U32, i: nat, count: nat, rs: seq<Region>, a: int)
    requires i <= count && Loadable(file, table, i, count, rs) && Load(file, table, i, count, rs).0 == ElfResult.Success
    ensures FlagAt(Load(file, table, i, count, rs).1, a) ==
      if LoadedFrom(file, table, i, count, a) then Some(false) else FlagAt(rs, a)
    decreases count - i
  {
    if i == count {
      LoadNothing(file, table, count, rs);
    } else {
      hide LoadedFrom, FlagAt, TypeAt, Tidy, CanInsert, Inserted, HeaderAt;
      LoadedFromStep(file, table, i, count, a);
      var ph := HeaderAt(file, table, i).value;
      if ph.IsLoad() {
        LoadableStep(file, table, i, count, rs);
        SegmentFlags(rs, ph, a);
        LoadFlags(file, table, i + 1, count, Inserted(rs, ph.Segment()), a);
      } else {
        LoadFlags(file, table, i + 1, count, rs, a);
      }
    }
  }
}
