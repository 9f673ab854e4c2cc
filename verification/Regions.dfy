/**
 * The values behind the memory map: typed address intervals, the address-to-type function a list of
 * them denotes, and the loop of `fix_right` as a step machine on such lists.
 */
module Regions {
  import opened Words

  /** Ordered from least to most restrictive, as include/sysinfo.h assumes. */
  datatype MemType = Usable | Reclaimable | ElfExecutable | AcpiNvs | Bad | Reserved

  function Rank(t: MemType): nat {
    match t
    case Usable => 0
    case Reclaimable => 1
    case ElfExecutable => 2
    case AcpiNvs => 3
    case Bad => 4
    case Reserved => 5
  }

  predicate MoreRestrictive(left: MemType, right: MemType) {
    Rank(left) > Rank(right)
  }

  function Stricter(s: MemType, t: MemType): MemType {
    if MoreRestrictive(s, t) then s else t
  }

  datatype Region = Region(base: int, size: int, ty: MemType, isVolatile: bool) {
    function End(): int {
      base + size
    }

    predicate Has(a: int) {
      base <= a < End()
    }

    /** Both fields are 64-bit words and their sum does not wrap. */
    predicate Fits() {
      0 <= base && 0 <= size && End() < LIMIT64
    }
  }

  ghost predicate AllFit(rs: seq<Region>) {
    forall i :: 0 <= i < |rs| ==> rs[i].Fits()
  }

  /** In address order and without overlap. */
  ghost predicate Sorted(rs: seq<Region>) {
    forall i, j :: 0 <= i < j < |rs| ==> rs[i].End() <= rs[j].base
  }

  /** No gaps between neighbours. */
  ghost predicate Contiguous(rs: seq<Region>) {
    forall i, j :: 0 <= i && j == i + 1 && j < |rs| ==> rs[i].End() == rs[j].base
  }

  /** Neighbours have different types, except that RESERVED padding may touch RESERVED. */
  ghost predicate NoTwins(rs: seq<Region>) {
    forall i, j :: 0 <= i && j == i + 1 && j < |rs| ==> rs[i].ty != rs[j].ty || rs[i].ty == Reserved
  }

  /** The type a list gives to an address. */
  function TypeAt(rs: seq<Region>, a: int): Option<MemType> {
    if rs == [] then None
    else if rs[0].Has(a) then Some(rs[0].ty)
    else TypeAt(rs[1..], a)
  }

  lemma {:induction false} TypeAtConcat(xs: seq<Region>, ys: seq<Region>, a: int)
    ensures TypeAt(xs + ys, a) == if TypeAt(xs, a).Some? then TypeAt(xs, a) else TypeAt(ys, a)
  {
    if xs == [] {
      assert xs + ys == ys;
    } else {
      assert (xs + ys)[1..] == xs[1..] + ys;
      TypeAtConcat(xs[1..], ys, a);
    }
  }

  /** Reading of `TypeAt` by index: with no overlap the covering region is unique. */
  lemma {:induction false} TypeAtIndex(rs: seq<Region>, k: nat, a: int)
    requires k < |rs| && rs[k].Has(a) && Sorted(rs)
    ensures TypeAt(rs, a) == Some(rs[k].ty)
  {
    if k > 0 {
      assert rs[0].End() <= rs[k].base;
      TypeAtIndex(rs[1..], k - 1, a);
    }
  }

  lemma {:induction false} TypeAtWitness(rs: seq<Region>, a: int) returns (k: nat)
    requires TypeAt(rs, a).Some?
    ensures k < |rs| && rs[k].Has(a) && TypeAt(rs, a) == Some(rs[k].ty)
  {
    if rs[0].Has(a) {
      k := 0;
    } else {
      k := TypeAtWitness(rs[1..], a);
      k := k + 1;
    }
  }

  lemma {:induction false} TypeAtNone(rs: seq<Region>, a: int)
    requires forall i :: 0 <= i < |rs| ==> !rs[i].Has(a)
    ensures TypeAt(rs, a) == None
  {
    if rs != [] {
      TypeAtNone(rs[1..], a);
    }
  }

  // ----- fix_right as a step machine -----

  /** `before` is finished, `cur` is the node under the cursor, `limit` was computed once. */
  datatype Fixing = Fixing(before: seq<Region>, cur: Region, tail: seq<Region>, limit: int) {
    predicate Looping() {
      tail != [] && limit > tail[0].base
    }

    /** A more restrictive node that starts below the limit and reaches it. */
    ghost predicate Stuck() {
      exists i :: 0 <= i < |tail| && MoreRestrictive(tail[i].ty, cur.ty) && tail[i].base < limit <= tail[i].End()
    }

    /** What holds when the loop is entered over a sorted, non-overlapping tail. */
    ghost predicate WellFormed() {
      && AllFit(before) && cur.Fits() && AllFit(tail)
      && Sorted(before + [cur]) && Sorted(tail)
      && cur.End() == limit
      && (tail != [] ==> cur.base <= tail[0].base)
    }
  }

  /** One execution of the loop body. */
  function Step(s: Fixing): Fixing
    requires s.Looping()
  {
    var next := s.tail[0];
    if !MoreRestrictive(next.ty, s.cur.ty) then
      if next.End() <= s.limit then s.(tail := s.tail[1..])
      else s.(tail := [next.(base := s.limit, size := next.size - (s.limit - next.base))] + s.tail[1..])
    else
      var cut := s.cur.(size := next.base - s.cur.base);
      if s.limit > next.End() then
        Fixing(s.before + [cut, next], s.cur.(base := next.End(), size := s.limit - next.End()), s.tail[1..], s.limit)
      else s.(cur := cut)
  }

  /** The state after at most `n` executions of the loop body. */
  function Run(n: nat, s: Fixing): Fixing {
    if n == 0 || !s.Looping() then s else Run(n - 1, Step(s))
  }

  /** `add_padding_right` on two neighbours: merge them, widen a RESERVED right one, or pad between them. */
  function Padded(cur: Region, next: Region): seq<Region> {
    if cur.ty == next.ty then [cur.(size := next.End() - cur.base)]
    else if next.ty == Reserved then
      [cur, next.(base := cur.End(), size := next.size + (next.base - cur.End()))]
    else if cur.End() < next.base then
      [cur, Region(cur.End(), next.base - cur.End(), Reserved, false), next]
    else [cur, next]
  }

  /** `add_padding_right` on a node and what follows it. */
  function PadRight(cur: Region, tail: seq<Region>): seq<Region> {
    if tail == [] then [cur] else Padded(cur, tail[0]) + tail[1..]
  }

  /** Nodes the loop has to deal with: those starting below the limit. */
  function Below(tail: seq<Region>, limit: int): nat {
    if tail == [] || tail[0].base >= limit then 0 else 1 + Below(tail[1..], limit)
  }

  lemma StepWellFormed(s: Fixing)
    requires s.WellFormed() && s.Looping() && !s.Stuck()
    ensures Step(s).WellFormed() && !Step(s).Stuck() && Step(s).limit == s.limit
    ensures Below(Step(s).tail, s.limit) + 1 == Below(s.tail, s.limit)
    ensures |Step(s).tail| < |s.tail| || (|Step(s).tail| == |s.tail| && !Step(s).Looping())
  {
    var next := s.tail[0];
    assert AllFit(s.tail[1..]) && Sorted(s.tail[1..]) && (|s.tail| > 1 ==> next.End() <= s.tail[1].base);
    NotStuckBehind(s);
    if MoreRestrictive(next.ty, s.cur.ty) {
      SplitSorted(s.before, s.cur, next);
    } else if next.End() > s.limit {
      TrimWellFormed(s);
    }
  }

  lemma TrimWellFormed(s: Fixing)
    requires s.WellFormed() && s.tail != [] && s.tail[0].base < s.limit < s.tail[0].End()
    ensures var next := s.tail[0];
      var t := s.(tail := [next.(base := s.limit, size := next.size - (s.limit - next.base))] + s.tail[1..]);
      t.WellFormed() && !t.Stuck()
  {
    var cut := s.tail[0].(base := s.limit, size := s.tail[0].size - (s.limit - s.tail[0].base));
    assert forall i :: 1 <= i < |s.tail| ==> ([cut] + s.tail[1..])[i] == s.tail[i];
    assert ([cut] + s.tail[1..])[0] == cut;
  }

  lemma NotStuckBehind(s: Fixing)
    requires !s.Stuck() && s.Looping()
    ensures !s.(tail := s.tail[1..]).Stuck()
    ensures MoreRestrictive(s.tail[0].ty, s.cur.ty) ==> s.limit > s.tail[0].End()
  {
    assert forall i :: 0 <= i < |s.tail[1..]| ==> s.tail[1..][i] == s.tail[i + 1];
  }

  lemma SplitSorted(before: seq<Region>, cur: Region, next: Region)
    requires AllFit(before) && cur.Fits() && next.Fits() && Sorted(before + [cur])
    requires cur.base <= next.base && next.End() < cur.End()
    ensures var front := before + [cur.(size := next.base - cur.base), next];
      AllFit(front) && Sorted(front + [cur.(base := next.End(), size := cur.End() - next.End())])
  {
    assert forall i :: 0 <= i < |before| ==> (before + [cur])[i] == before[i];
    assert (before + [cur])[|before|] == cur;
  }

  lemma {:induction false} StuckPersists(s: Fixing)
    requires Sorted(s.tail) && AllFit(s.tail) && s.Stuck()
    ensures s.Looping() && Sorted(Step(s).tail) && AllFit(Step(s).tail) && Step(s).Stuck()
  {
    var i :| 0 <= i < |s.tail| && MoreRestrictive(s.tail[i].ty, s.cur.ty)
             && s.tail[i].base < s.limit <= s.tail[i].End();
    if i > 0 {
      assert s.tail[0].End() <= s.tail[i].base;
      assert Step(s).tail[i - 1] == s.tail[i];
    }
  }

  lemma {:induction false} StuckForever(n: nat, s: Fixing)
    requires Sorted(s.tail) && AllFit(s.tail) && s.Stuck()
    ensures Run(n, s).Looping()
  {
    StuckPersists(s);
    if n > 0 {
      StuckForever(n - 1, Step(s));
    }
  }

  /** The loop runs once for each node of the tail that starts below the limit. */
  lemma {:induction false} IterationCount(n: nat, s: Fixing)
    requires s.WellFormed() && !s.Stuck()
    ensures Run(n, s).Looping() <==> n < Below(s.tail, s.limit)
  {
    if n > 0 && s.Looping() {
      StepWellFormed(s);
      IterationCount(n - 1, Step(s));
    }
  }

  /** `fix_right` terminates exactly when no more restrictive node straddles or touches the limit. */
  lemma FixRightTerminates(s: Fixing)
    requires s.WellFormed()
    ensures (exists n: nat :: !Run(n, s).Looping()) <==> !s.Stuck()
  {
    if s.Stuck() {
      forall n: nat ensures Run(n, s).Looping() {
        StuckForever(n, s);
      }
    } else {
      var n := Below(s.tail, s.limit);
      IterationCount(n, s);
      assert !Run(n, s).Looping();
    }
  }

  /** A usable region and a reserved one with the same end: the loop body changes nothing after its first pass. */
  lemma SharedEndNeverEnds(n: nat)
    ensures var s := Fixing([], Region(0, 0x2000, Usable, false), [Region(0x1000, 0x1000, Reserved, false)], 0x2000);
      s.WellFormed() && Run(n, s).Looping()
  {
    var s := Fixing([], Region(0, 0x2000, Usable, false), [Region(0x1000, 0x1000, Reserved, false)], 0x2000);
    assert s.before + [s.cur] == [s.cur];
    assert MoreRestrictive(s.tail[0].ty, s.cur.ty) && s.tail[0].base < s.limit <= s.tail[0].End();
    StuckForever(n, s);
  }

  /** No field of the list wraps, and the loop, if entered, is entered well and will end. */
  ghost predicate Ready(s: Fixing) {
    && AllFit(s.before) && s.cur.Fits() && AllFit(s.tail) && s.cur.End() == s.limit
    && (s.Looping() ==> s.WellFormed() && !s.Stuck())
  }

  /** The list `fix_right` leaves: the loop run to its end, then padding. */
  function Fix(s: Fixing): (out: seq<Region>)
    requires Ready(s)
    ensures |s.before| < |out|
    decreases |s.tail|, s.Looping()
  {
    if !s.Looping() then s.before + PadRight(s.cur, s.tail)
    else
      StepWellFormed(s);
      Fix(Step(s))
  }

  // ----- what fix_right computes, address by address -----

  /** The part of the tail that outlives the loop. */
  function Rest(tail: seq<Region>, limit: int): seq<Region> {
    if tail == [] || tail[0].base >= limit || tail[0].End() > limit then tail else Rest(tail[1..], limit)
  }

  /** Type given to a gap between two neighbours. */
  function Filler(left: MemType, right: MemType): MemType {
    if left == right then left else Reserved
  }

  predicate InGap(tail: seq<Region>, limit: int, a: int) {
    Rest(tail, limit) != [] && limit <= a < Rest(tail, limit)[0].base
  }

  /** The stricter of the two covers; beyond both, only the gap at `limit` is newly covered. */
  function Merged(cur: Region, tail: seq<Region>, limit: int, a: int): Option<MemType> {
    var below := TypeAt(tail, a);
    if cur.Has(a) then Some(if below.Some? then Stricter(below.value, cur.ty) else cur.ty)
    else if below.Some? then below
    else if InGap(tail, limit, a) then Some(Filler(cur.ty, Rest(tail, limit)[0].ty))
    else None
  }

  function Meaning(s: Fixing, a: int): Option<MemType> {
    if TypeAt(s.before, a).Some? then TypeAt(s.before, a) else Merged(s.cur, s.tail, s.limit, a)
  }

  lemma TypeAtOutside(rs: seq<Region>, a: int)
    requires Sorted(rs) && AllFit(rs)
    requires rs != [] ==> a < rs[0].base || rs[|rs| - 1].End() <= a
    ensures TypeAt(rs, a) == None
  {
    forall i | 0 <= i < |rs| ensures !rs[i].Has(a) {
      if i > 0 {
        assert rs[0].End() <= rs[i].base;
      }
      if i < |rs| - 1 {
        assert rs[i].End() <= rs[|rs| - 1].base;
      }
    }
    TypeAtNone(rs, a);
  }

  lemma TypeAtCons(r: Region, rs: seq<Region>, a: int)
    ensures TypeAt([r] + rs, a) == if r.Has(a) then Some(r.ty) else TypeAt(rs, a)
  {
    assert ([r] + rs)[1..] == rs;
  }

  lemma TypeAtSplit(rs: seq<Region>, a: int)
    requires rs != []
    ensures TypeAt(rs, a) == if rs[0].Has(a) then Some(rs[0].ty) else TypeAt(rs[1..], a)
    ensures |rs| == 1 ==> TypeAt(rs[1..], a) == None
  {
  }

  lemma StepKeepsMeaning(s: Fixing, a: int)
    requires s.WellFormed() && s.Looping() && !s.Stuck()
    ensures Meaning(Step(s), a) == Meaning(s, a)
  {
    var next, t := s.tail[0], Step(s);
    assert Sorted(s.tail[1..]) && AllFit(s.tail[1..]);
    TypeAtSplit(s.tail, a);
    if a < next.End() && |s.tail| > 1 {
      assert next.End() <= s.tail[1].base;
      TypeAtOutside(s.tail[1..], a);
    }
    if !MoreRestrictive(next.ty, s.cur.ty) {
      if next.End() > s.limit {
        TypeAtCons(t.tail[0], s.tail[1..], a);
        assert s.cur.Has(a) || a < s.cur.base || s.limit <= a;
      }
    } else {
      assert s.limit > next.End();
      var cut := s.cur.(size := next.base - s.cur.base);
      TypeAtConcat(s.before, [cut, next], a);
      TypeAtCons(cut, [next], a);
      TypeAtCons(next, [], a);
      assert [cut] + [next] == [cut, next] && [next] + [] == [next];
      if TypeAt(s.before, a) == None {
        assert Merged(t.cur, t.tail, s.limit, a) == Merged(s.cur, s.tail, s.limit, a) || a < next.End();
      }
    }
  }

  lemma PaddedMeaning(cur: Region, next: Region, a: int)
    requires cur.Fits() && next.Fits() && cur.End() <= next.base
    ensures TypeAt(Padded(cur, next), a) ==
      if cur.Has(a) then Some(cur.ty)
      else if next.Has(a) then Some(next.ty)
      else if cur.End() <= a < next.base then Some(Filler(cur.ty, next.ty))
      else None
  {
    var out := Padded(cur, next);
    TypeAtSplit(out, a);
    if |out| > 1 {
      TypeAtSplit(out[1..], a);
      if |out| > 2 {
        TypeAtSplit(out[1..][1..], a);
      }
    }
  }

  lemma PadRightMeaning(cur: Region, tail: seq<Region>, a: int)
    requires cur.Fits() && AllFit(tail) && Sorted(tail) && (tail != [] ==> cur.End() <= tail[0].base)
    ensures TypeAt(PadRight(cur, tail), a) == Merged(cur, tail, cur.End(), a)
  {
    if tail != [] {
      var next, rest := tail[0], tail[1..];
      PaddedMeaning(cur, next, a);
      TypeAtSplit(tail, a);
      TypeAtConcat(Padded(cur, next), rest, a);
      if a < next.End() && rest != [] {
        assert next.End() <= tail[1].base;
        TypeAtOutside(rest, a);
      }
    }
  }

  /** `fix_right` computes the pointwise maximum, plus the one gap at the old right limit. */
  lemma {:induction false} FixRightIsPointwiseMaximum(s: Fixing, a: int)
    requires s.WellFormed() && !s.Stuck()
    ensures TypeAt(Fix(s), a) == Meaning(s, a)
    decreases Below(s.tail, s.limit)
  {
    if s.Looping() {
      StepWellFormed(s);
      StepKeepsMeaning(s, a);
      FixRightIsPointwiseMaximum(Step(s), a);
    } else {
      TypeAtConcat(s.before, PadRight(s.cur, s.tail), a);
      PadRightMeaning(s.cur, s.tail, a);
    }
  }

  /** Two overlapping regions, and the order of the types in include/sysinfo.h:6-13: whichever comes first, a shared
      address gets the type that stands later in it. */
  lemma SharedGetsLaterType(p: Region, q: Region, a: int, i: nat, j: nat)
    requires p.Fits() && q.Fits() && p.base <= q.base && p.Has(a) && q.Has(a)
    requires !Fixing([], p, [q], p.End()).Stuck() && i <= j < 6
    requires var order := [Usable, Reclaimable, ElfExecutable, AcpiNvs, Bad, Reserved];
      (p.ty == order[i] && q.ty == order[j]) || (p.ty == order[j] && q.ty == order[i])
    ensures var order := [Usable, Reclaimable, ElfExecutable, AcpiNvs, Bad, Reserved];
      TypeAt(Fix(Fixing([], p, [q], p.End())), a) == Some(order[j])
  {
    var s := Fixing([], p, [q], p.End());
    assert s.before + [s.cur] == [p];
    hide Fix;
    FixRightIsPointwiseMaximum(s, a);
  }

  lemma SortedConcat(xs: seq<Region>, ys: seq<Region>)
    requires Sorted(xs) && Sorted(ys) && AllFit(xs) && AllFit(ys)
    requires xs != [] && ys != [] ==> xs[|xs| - 1].End() <= ys[0].base
    ensures Sorted(xs + ys) && AllFit(xs + ys)
  {
    forall i, j | 0 <= i < |xs| && 0 <= j < |ys| ensures xs[i].End() <= ys[j].base {
      assert xs[i].End() <= xs[|xs| - 1].End();
      assert ys[0].base <= ys[j].base;
    }
  }

  lemma SortedTail(rs: seq<Region>)
    requires Sorted(rs) && AllFit(rs) && rs != []
    ensures Sorted(rs[1..]) && AllFit(rs[1..]) && (rs[1..] != [] ==> rs[0].End() <= rs[1..][0].base)
  {
  }

  lemma PaddedSorted(cur: Region, next: Region)
    requires cur.Fits() && next.Fits() && cur.End() <= next.base
    ensures var out := Padded(cur, next); Sorted(out) && AllFit(out) && out[|out| - 1].End() == next.End()
  {
  }

  lemma PadRightSorted(cur: Region, tail: seq<Region>)
    requires cur.Fits() && AllFit(tail) && Sorted(tail) && (tail != [] ==> cur.End() <= tail[0].base)
    ensures Sorted(PadRight(cur, tail)) && AllFit(PadRight(cur, tail))
  {
    if tail != [] {
      SortedTail(tail);
      PaddedSorted(cur, tail[0]);
      SortedConcat(Padded(cur, tail[0]), tail[1..]);
    }
  }

  lemma PadRightHead(cur: Region, tail: seq<Region>)
    ensures PadRight(cur, tail) != [] && PadRight(cur, tail)[0].base == cur.base && PadRight(cur, tail)[0].ty == cur.ty
  {
  }

  /** ... and leaves the list sorted and without overlap, starting where it started. */
  lemma {:induction false} FixRightSorted(s: Fixing)
    requires s.WellFormed() && !s.Stuck()
    ensures Sorted(Fix(s)) && AllFit(Fix(s))
    ensures s.before <= Fix(s) && |Fix(s)| > |s.before| && Fix(s)[|s.before|].base == s.cur.base
    decreases Below(s.tail, s.limit)
  {
    if s.Looping() {
      StepWellFormed(s);
      FixRightSorted(Step(s));
      var r, n := Fix(s), |s.before|;
      if |Step(s).before| > n {
        assert r[..n] == r[..n + 2][..n];
        assert Step(s).before[n] == r[n];
      }
    } else {
      PadRightSorted(s.cur, s.tail);
      PadRightHead(s.cur, s.tail);
      forall i | 0 <= i < |s.before| ensures s.before[i].End() <= s.cur.base {
        assert (s.before + [s.cur])[i] == s.before[i] && (s.before + [s.cur])[|s.before|] == s.cur;
      }
      assert Sorted(s.before) by {
        assert s.before == (s.before + [s.cur])[..|s.before|];
      }
      SortedConcat(s.before, PadRight(s.cur, s.tail));
    }
  }

  // ----- tidy lists: what every finished memory map is -----

  ghost predicate Positive(rs: seq<Region>) {
    forall i :: 0 <= i < |rs| ==> rs[i].size > 0
  }

  ghost predicate Tidy(rs: seq<Region>) {
    Sorted(rs) && AllFit(rs) && Positive(rs) && Contiguous(rs) && NoTwins(rs)
  }

  /** No more restrictive node below the limit touches what precedes it, so no split is empty. */
  ghost predicate Spread(s: Fixing) {
    && (s.tail != [] && MoreRestrictive(s.tail[0].ty, s.cur.ty) && s.tail[0].base < s.limit ==>
          s.cur.base < s.tail[0].base)
    && forall i, j :: 0 <= i && j == i + 1 && j < |s.tail| ==>
         MoreRestrictive(s.tail[j].ty, s.cur.ty) && s.tail[j].base < s.limit ==> s.tail[i].End() < s.tail[j].base
  }

  /** Everything outside the reach of the loop is already tidy. */
  ghost predicate TidyAround(s: Fixing) {
    && Tidy(s.before + [s.cur]) && Positive(s.tail) && Spread(s)
    && Contiguous(Rest(s.tail, s.limit)) && NoTwins(Rest(s.tail, s.limit))
  }

  ghost predicate Seam(r: Region, q: Region) {
    r.End() == q.base && (r.ty != q.ty || r.ty == Reserved)
  }

  /** `xs + ys` is tidy when both are and the seam is. */
  lemma TidyConcat(xs: seq<Region>, ys: seq<Region>)
    requires Tidy(xs) && Tidy(ys)
    requires xs != [] && ys != [] ==>
      Seam(xs[|xs| - 1], ys[0])
    ensures Tidy(xs + ys)
  {
    SortedConcat(xs, ys);
  }

  lemma TidyTail(rs: seq<Region>)
    requires Tidy(rs) && rs != []
    ensures Tidy(rs[1..])
    ensures rs[1..] != [] ==> Seam(rs[0], rs[1..][0])
  {
  }

  lemma TidyFront(rs: seq<Region>, r: Region)
    requires Tidy(rs + [r])
    ensures Tidy(rs) && r.Fits() && r.size > 0
    ensures rs != [] ==> Seam(rs[|rs| - 1], r)
  {
    assert forall i :: 0 <= i < |rs| ==> (rs + [r])[i] == rs[i];
    assert (rs + [r])[|rs|] == r;
  }

  lemma TidySingle(r: Region)
    requires r.Fits() && r.size > 0
    ensures Tidy([r])
  {
  }

  lemma TidyPair(r: Region, q: Region)
    requires r.Fits() && q.Fits() && r.size > 0 && q.size > 0 && Seam(r, q)
    ensures Tidy([r, q])
  {
  }

  lemma SplitTidy(before: seq<Region>, cur: Region, next: Region)
    requires Tidy(before + [cur]) && cur.Fits() && next.Fits() && next.size > 0
    requires cur.base < next.base && next.End() < cur.End() && cur.ty != next.ty
    ensures Tidy(before + [cur.(size := next.base - cur.base), next]
                 + [cur.(base := next.End(), size := cur.End() - next.End())])
  {
    var cut, rest := cur.(size := next.base - cur.base), cur.(base := next.End(), size := cur.End() - next.End());
    TidyFront(before, cur);
    TidyPair(cut, next);
    TidySingle(rest);
    TidyConcat(before, [cut, next]);
    TidyConcat(before + [cut, next], [rest]);
  }

  lemma StepTidyAround(s: Fixing)
    requires s.WellFormed() && s.Looping() && !s.Stuck() && TidyAround(s)
    ensures TidyAround(Step(s))
  {
    StepSpread(s);
    StepKeepsFront(s);
    StepKeepsRest(s);
  }

  lemma StepKeepsFront(s: Fixing)
    requires s.WellFormed() && s.Looping() && !s.Stuck() && Positive(s.tail) && Spread(s)
    requires Tidy(s.before + [s.cur])
    ensures Tidy(Step(s).before + [Step(s).cur])
  {
    if MoreRestrictive(s.tail[0].ty, s.cur.ty) {
      StepSpread(s);
      SplitTidy(s.before, s.cur, s.tail[0]);
    }
  }

  lemma StepKeepsRest(s: Fixing)
    requires s.WellFormed() && s.Looping() && !s.Stuck() && Positive(s.tail)
    requires Contiguous(Rest(s.tail, s.limit)) && NoTwins(Rest(s.tail, s.limit))
    ensures var r := Rest(Step(s).tail, s.limit); Contiguous(r) && NoTwins(r)
  {
    if s.tail[0].End() > s.limit {
      TrimKeepsRest(s.tail, s.limit);
    } else {
      assert Rest(s.tail, s.limit) == Rest(s.tail[1..], s.limit);
    }
  }

  lemma TrimKeepsRest(tail: seq<Region>, limit: int)
    requires tail != [] && tail[0].base < limit < tail[0].End() && Positive(tail)
    requires Contiguous(tail) && NoTwins(tail)
    ensures var t := [tail[0].(base := limit, size := tail[0].size - (limit - tail[0].base))] + tail[1..];
      Rest(t, limit) == t && Contiguous(t) && NoTwins(t) && Positive(t)
  {
    var t := [tail[0].(base := limit, size := tail[0].size - (limit - tail[0].base))] + tail[1..];
    assert forall i :: 0 <= i < |t| ==> t[i].ty == tail[i].ty && t[i].End() == tail[i].End();
    assert forall i :: 1 <= i < |t| ==> t[i] == tail[i];
  }

  lemma StepSpread(s: Fixing)
    requires s.WellFormed() && s.Looping() && !s.Stuck() && Positive(s.tail) && Spread(s)
    ensures Spread(Step(s)) && Positive(Step(s).tail)
    ensures MoreRestrictive(s.tail[0].ty, s.cur.ty) ==> s.cur.base < s.tail[0].base && s.tail[0].End() < s.limit
  {
    hide Sorted, AllFit, Below;
    var t := Step(s);
    if |t.tail| < |s.tail| {
      assert forall i :: 0 <= i < |t.tail| ==> t.tail[i] == s.tail[i + 1];
      if t.tail != [] && MoreRestrictive(t.tail[0].ty, s.cur.ty) && t.tail[0].base < s.limit {
        assert s.tail[1 - 1].End() < s.tail[1].base;
      }
    } else {
      assert forall i :: 1 <= i < |t.tail| ==> t.tail[i] == s.tail[i];
    }
  }

  lemma PaddedTidy(cur: Region, next: Region)
    requires cur.Fits() && next.Fits() && cur.size > 0 && next.size > 0 && cur.End() <= next.base
    ensures var out := Padded(cur, next);
      Tidy(out) && out[|out| - 1].End() == next.End() && out[|out| - 1].ty == next.ty
  {
    hide Tidy;
    if cur.ty == next.ty {
      TidySingle(Padded(cur, next)[0]);
    } else if next.ty == Reserved || cur.End() == next.base {
      TidyPair(cur, Padded(cur, next)[1]);
    } else {
      var gap := Region(cur.End(), next.base - cur.End(), Reserved, false);
      TidySingle(cur);
      TidyPair(gap, next);
      TidyConcat([cur], [gap, next]);
      assert [cur] + [gap, next] == [cur, gap, next];
    }
  }

  lemma PadRightTidy(cur: Region, tail: seq<Region>)
    requires cur.Fits() && cur.size > 0 && Tidy(tail) && (tail != [] ==> cur.End() <= tail[0].base)
    ensures Tidy(PadRight(cur, tail))
  {
    if tail == [] {
      TidySingle(cur);
    } else {
      TidyTail(tail);
      PaddedTidy(cur, tail[0]);
      TidyConcat(Padded(cur, tail[0]), tail[1..]);
    }
  }

  /** `fix_right` closes every gap it can reach and merges what it can. */
  lemma {:induction false} FixRightTidy(s: Fixing)
    requires s.WellFormed() && !s.Stuck() && TidyAround(s)
    ensures Tidy(Fix(s))
    decreases Below(s.tail, s.limit)
  {
    if s.Looping() {
      StepWellFormed(s);
      StepTidyAround(s);
      FixRightTidy(Step(s));
    } else {
      assert Rest(s.tail, s.limit) == s.tail;
      TidyFront(s.before, s.cur);
      PadRightTidy(s.cur, s.tail);
      PadRightHead(s.cur, s.tail);
      TidyConcat(s.before, PadRight(s.cur, s.tail));
    }
  }
}
