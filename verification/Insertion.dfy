/** `insert_sorted` on values: where a region goes, when the result is a map again, and what it then means. */
module Insertion {
  import opened Words
  import opened Regions

  /** How many leading regions start below `base`: the nodes the insertion walk passes. */
  function Passed(rs: seq<Region>, base: int): (k: nat)
    ensures k <= |rs|
  {
    if rs == [] || rs[0].base >= base then 0 else 1 + Passed(rs[1..], base)
  }

  lemma {:induction false} PassedSplits(rs: seq<Region>, base: int)
    ensures var k := Passed(rs, base);
      && (forall i :: 0 <= i < k ==> rs[i].base < base)
      && (k < |rs| ==> rs[k].base >= base)
  {
    if rs != [] && rs[0].base < base {
      PassedSplits(rs[1..], base);
      var k := Passed(rs, base);
      assert forall i :: 1 <= i < k ==> rs[i] == rs[1..][i - 1];
    }
  }

  predicate Settled(r: Region, q: Region) {
    r.ty != q.ty && r.End() == q.base
  }

  // ----- the two fixes -----

  /** The list with the new region behind the `k` regions passed, before any fix. */
  function Woven(rs: seq<Region>, n: Region, k: nat): seq<Region>
    requires k <= |rs|
  {
    rs[..k] + [n] + rs[k..]
  }

  /** The two nodes before the new one have one type: the first fix merges them and takes the second one out
      of the list. */
  predicate Twins(rs: seq<Region>, k: nat) {
    2 <= k <= |rs| && rs[k - 2].ty == rs[k - 1].ty
  }

  /** The list before the new node after the first fix, which only pads between its two nodes. */
  function Fronted(rs: seq<Region>, k: nat): (front: seq<Region>)
    requires 1 <= k <= |rs|
    ensures front != []
  {
    if k == 1 then rs[..1] else rs[..k - 2] + Padded(rs[k - 2], rs[k - 1])
  }

  /** The last fix: at the new head, or at the node before the new one. After a merge that node is no longer
      in the list, but still points at the new node. */
  function LastFix(rs: seq<Region>, n: Region): Fixing {
    var k := Passed(rs, n.base);
    if k == 0 then Fixing([], n, rs, n.End())
    else if Twins(rs, k) then Fixing([], rs[k - 1], [n] + rs[k..], rs[k - 1].End())
    else
      var front := Fronted(rs, k);
      var prev := front[|front| - 1];
      Fixing(front[..|front| - 1], prev, [n] + rs[k..], prev.End())
  }

  /** The node behind another one after padding that one: only a RESERVED node is written to. */
  function Widened(cur: Region, next: Region): Region {
    if cur.ty != next.ty && next.ty == Reserved then
      next.(base := cur.End(), size := next.size + (next.base - cur.End()))
    else next
  }

  /** The list behind a node after padding it: what it merged and the padding hang on the node alone. */
  function WidenHead(cur: Region, tail: seq<Region>): seq<Region> {
    if tail == [] then [] else [Widened(cur, tail[0])] + tail[1..]
  }

  /** What can be reached from the node behind the cursor after at most `m` passes and the padding: a node that
      was dropped still points on. */
  function Behind(m: nat, s: Fixing): seq<Region> {
    if m == 0 || !s.Looping() then WidenHead(s.cur, s.tail)
    else
      var next := s.tail[0];
      if MoreRestrictive(next.ty, s.cur.ty) && s.limit > next.End() then
        [next] + Finish(Run(m - 1, Step(s).(before := [])))
      else if !MoreRestrictive(next.ty, s.cur.ty) && next.End() <= s.limit then [next] + Behind(m - 1, Step(s))
      else Behind(m - 1, Step(s))
  }

  function Finish(s: Fixing): seq<Region> {
    s.before + PadRight(s.cur, s.tail)
  }

  /** The list from its head after at most `m` passes of the last fix. */
  function Finished(rs: seq<Region>, n: Region, m: nat): seq<Region> {
    var k, s := Passed(rs, n.base), LastFix(rs, n);
    if Twins(rs, k) then Fronted(rs, k) + Behind(m, s) else Finish(Run(m, s))
  }

  /** What the code needs: in the first of its two fixes the loop is not entered, as in every sorted list, and the
      last one ends. */
  ghost predicate CanInsert(rs: seq<Region>, n: Region) {
    && AllFit(rs) && n.Fits()
    && (n.size > 0 ==>
          && Ready(LastFix(rs, n))
          && var k := Passed(rs, n.base); k >= 2 ==> rs[k - 2].End() <= rs[k - 1].base)
  }

  /** The passes the last fix makes. */
  function Passes(rs: seq<Region>, n: Region): nat {
    Below(LastFix(rs, n).tail, LastFix(rs, n).limit)
  }

  function Inserted(rs: seq<Region>, n: Region): seq<Region>
    requires CanInsert(rs, n)
  {
    if n.size == 0 then rs else Finished(rs, n, Passes(rs, n))
  }

  /** With nothing to do for the first fix, the insertion is the last fix alone. */
  lemma InsertedSettled(rs: seq<Region>, n: Region)
    requires n.size > 0
    requires var k := Passed(rs, n.base); k >= 2 ==> Settled(rs[k - 2], rs[k - 1])
    ensures var k := Passed(rs, n.base);
      LastFix(rs, n) == if k == 0 then Fixing([], n, rs, n.End())
                        else Fixing(rs[..k - 1], rs[k - 1], [n] + rs[k..], rs[k - 1].End())
    ensures AllFit(rs) && n.Fits() && Ready(LastFix(rs, n)) ==> CanInsert(rs, n)
    ensures CanInsert(rs, n) ==> Inserted(rs, n) == Fix(LastFix(rs, n))
  {
    var k := Passed(rs, n.base);
    if k >= 2 {
      assert Padded(rs[k - 2], rs[k - 1]) == [rs[k - 2], rs[k - 1]];
      assert Fronted(rs, k) == rs[..k - 1] + [rs[k - 1]];
    } else if k == 1 {
      assert rs[..1][..0] == rs[..0];
    }
    if CanInsert(rs, n) {
      FixIsRun(LastFix(rs, n));
    }
  }

  lemma {:induction false} FixIsRun(s: Fixing)
    requires Ready(s)
    ensures var m := Below(s.tail, s.limit); !Run(m, s).Looping() && Fix(s) == Finish(Run(m, s))
    decreases Below(s.tail, s.limit)
  {
    if s.Looping() {
      StepWellFormed(s);
      var m := Below(s.tail, s.limit);
      assert Run(m, s) == Run(m - 1, Step(s)) && Fix(s) == Fix(Step(s));
      hide Step, Run, Fix, Finish;
      FixIsRun(Step(s));
    }
  }

  lemma StepReady(s: Fixing)
    requires Ready(s) && s.Looping()
    ensures Ready(Step(s)) && Fix(Step(s)) == Fix(s) && Step(s).limit == s.limit
    ensures Below(Step(s).tail, s.limit) < Below(s.tail, s.limit)
  {
    StepWellFormed(s);
  }

  lemma StepBehind(front: seq<Region>, s: Fixing)
    requires s.Looping()
    ensures Step(s.(before := front + s.before)) == Step(s).(before := front + Step(s).before)
  {
  }

  lemma PadBehind(front: seq<Region>, s: Fixing)
    requires Ready(s) && Ready(s.(before := front + s.before)) && !s.Looping()
    ensures Fix(s.(before := front + s.before)) == front + Fix(s)
  {
    hide PadRight;
    assert (front + s.before) + PadRight(s.cur, s.tail) == front + (s.before + PadRight(s.cur, s.tail));
  }

  /** What is done before the cursor stays in front of the result. */
  lemma {:induction false} FixBehind(front: seq<Region>, s: Fixing)
    requires Ready(s) && AllFit(front)
    requires Ready(s.(before := front + s.before))
    ensures Fix(s.(before := front + s.before)) == front + Fix(s)
    decreases Below(s.tail, s.limit)
  {
    hide Ready, Fix, Step, AllFit, Below;
    if s.Looping() {
      StepReady(s);
      StepReady(s.(before := front + s.before));
      StepBehind(front, s);
      FixBehind(front, Step(s));
    } else {
      PadBehind(front, s);
    }
  }

  // ----- exactly when an insertion past the head leaves a map -----

  /** Both fixes end, and the list from its head is then sorted and without overlap. */
  ghost predicate EndsSorted(rs: seq<Region>, n: Region) {
    exists m: nat :: !Run(m, LastFix(rs, n)).Looping() && Sorted(Finished(rs, n, m))
  }

  /** A check a caller can make beforehand: the new region stays below its right neighbour; if it is stricter than
      the region it lands in, it leaves some of that region to its right; and if that region and the one before it
      have one type, it reaches out of it. */
  predicate FitsAfter(rs: seq<Region>, n: Region) {
    var k := Passed(rs, n.base);
    && k >= 1
    && (k < |rs| ==> n.End() <= rs[k].base)
    && !(MoreRestrictive(n.ty, rs[k - 1].ty) && n.base < rs[k - 1].End() <= n.End())
    && !(Twins(rs, k) && n.base < rs[k - 1].End() && n.End() <= rs[k - 1].End())
  }

  lemma {:induction false} StuckAtHead(m: nat, s: Fixing)
    requires s.tail != [] && MoreRestrictive(s.tail[0].ty, s.cur.ty) && s.tail[0].base < s.limit <= s.tail[0].End()
    ensures Run(m, s).Looping()
  {
    if m > 0 {
      StuckAtHead(m - 1, Step(s));
    }
  }

  /** A region that passes the check is inserted as specified. */
  lemma FitsAfterCanInsert(rs: seq<Region>, n: Region)
    requires Tidy(rs) && n.Fits() && n.size > 0 && FitsAfter(rs, n)
    ensures LastFix(rs, n).WellFormed() && !LastFix(rs, n).Stuck() && Ready(LastFix(rs, n)) && CanInsert(rs, n)
  {
    var k := Passed(rs, n.base);
    PassedSplits(rs, n.base);
    hide Ready, Passed, Sorted, Contiguous, NoTwins, Positive;
    TidyParts(rs, k);
    if Twins(rs, k) {
      SortedLast(rs[..k - 1], rs[k - 1]);
      FitsAfterReady([], rs[k - 1], n, rs[k..]);
    } else {
      InsertedSettled(rs, n);
      FitsAfterReady(rs[..k - 1], rs[k - 1], n, rs[k..]);
    }
  }

  lemma SortedLast(front: seq<Region>, r: Region)
    requires AllFit(front + [r])
    ensures Sorted([] + [r]) && AllFit([] + [r])
  {
    assert (front + [r])[|front|] == r;
  }

  /** The parts of a map before and after a node. */
  lemma TidyParts(rs: seq<Region>, k: nat)
    requires Tidy(rs) && 1 <= k <= |rs|
    ensures rs[..k] == rs[..k - 1] + [rs[k - 1]]
    ensures Sorted(rs[..k]) && AllFit(rs[..k]) && Sorted(rs[k..]) && AllFit(rs[k..])
    ensures k < |rs| ==> rs[k - 1].End() == rs[k].base == rs[k..][0].base
    ensures k >= 2 ==> rs[k - 2].End() == rs[k - 1].base
  {
  }

  lemma FitsAfterReady(front: seq<Region>, prev: Region, n: Region, rest: seq<Region>)
    requires Sorted(front + [prev]) && AllFit(front + [prev]) && Sorted(rest) && AllFit(rest) && n.Fits()
    requires prev.base < n.base && (rest != [] ==> n.End() <= rest[0].base && prev.End() == rest[0].base)
    requires !(MoreRestrictive(n.ty, prev.ty) && n.base < prev.End() <= n.End())
    ensures var s := Fixing(front, prev, [n] + rest, prev.End()); s.WellFormed() && !s.Stuck() && Ready(s)
  {
    var s := Fixing(front, prev, [n] + rest, prev.End());
    SortedCons(n, rest);
    assert forall i :: 0 <= i < |front| ==> (front + [prev])[i] == front[i];
    assert (front + [prev])[|front|] == prev;
    forall i | 1 <= i < |s.tail| ensures s.limit <= s.tail[i].base {
      assert s.tail[i] == rest[i - 1];
      assert i > 1 ==> rest[0].End() <= rest[i - 1].base;
    }
  }

  lemma SortedCons(r: Region, rs: seq<Region>)
    requires r.Fits() && Sorted(rs) && AllFit(rs) && (rs != [] ==> r.End() <= rs[0].base)
    ensures Sorted([r] + rs) && AllFit([r] + rs)
  {
    SortedConcat([r], rs);
  }

  /** A region that reaches into its right neighbour ends up overlapping it. */
  lemma OverrunOverlaps(rs: seq<Region>, n: Region, m: nat)
    requires Tidy(rs) && n.Fits() && n.size > 0
    requires 1 <= Passed(rs, n.base) < |rs| && n.End() > rs[Passed(rs, n.base)].base && !Twins(rs, Passed(rs, n.base))
    requires var prev := rs[Passed(rs, n.base) - 1];
      !(MoreRestrictive(n.ty, prev.ty) && n.base < prev.End() <= n.End())
    ensures Run(m, LastFix(rs, n)).Looping() || !Sorted(Finish(Run(m, LastFix(rs, n))))
  {
    var k, s := Passed(rs, n.base), LastFix(rs, n);
    PassedSplits(rs, n.base);
    InsertedSettled(rs, n);
    assert rs[k - 1].End() == rs[k].base;
    assert s.tail[1..] == rs[k..] && s.tail[0] == n;
    if s.Looping() {
      if m > 0 {
        assert Run(m, s) == Run(m - 1, Step(s)) == Step(s);
        PaddedOverlaps(Step(s), rs[k]);
      }
    } else {
      PaddedOverlaps(s, rs[k]);
    }
  }

  lemma PaddedOverlaps(s: Fixing, right: Region)
    requires |s.tail| >= 2 && s.tail[1] == right && right.base == s.tail[0].base == s.cur.End() < s.tail[0].End()
    ensures !Sorted(Finish(s))
  {
    var out, pair := Finish(s), Padded(s.cur, s.tail[0]);
    var i := |s.before| + |pair| - 1;
    assert out[i] == pair[|pair| - 1] && out[i + 1] == s.tail[1..][0] == right;
    assert out[i].End() > out[i + 1].base;
  }

  /** The new node behind a RESERVED one that is no longer in the list: cut at its limit if it crosses it,
      otherwise left as it is. */
  function Beyond(limit: int, n: Region): Region {
    if n.base < limit < n.End() then n.(base := limit, size := n.size - (limit - n.base)) else n
  }

  lemma BehindReserved(prev: Region, n: Region, rest: seq<Region>, m: nat)
    requires prev.ty == Reserved && (rest != [] ==> prev.End() <= rest[0].base)
    requires var s := Fixing([], prev, [n] + rest, prev.End()); !Run(m, s).Looping()
    ensures var s := Fixing([], prev, [n] + rest, prev.End()); Behind(m, s) == [Beyond(prev.End(), n)] + rest
  {
    var s := Fixing([], prev, [n] + rest, prev.End());
    assert s.tail[0] == n && s.tail[1..] == rest;
    if s.Looping() {
      assert m > 0 && Run(m, s) == Run(m - 1, Step(s));
      assert !Step(s).Looping() && WidenHead(prev, Step(s).tail) == Step(s).tail;
      assert Behind(m - 1, Step(s)) == Step(s).tail;
    }
  }

  lemma SortedAround(front: seq<Region>, n: Region, rest: seq<Region>)
    requires front != [] && Sorted(front) && AllFit(front) && Sorted(rest) && AllFit(rest) && n.Fits()
    ensures Sorted(front + ([n] + rest)) <==>
      front[|front| - 1].End() <= n.base && (rest != [] ==> n.End() <= rest[0].base)
  {
    var out, f := front + ([n] + rest), |front|;
    assert out[f - 1] == front[f - 1] && out[f] == n && (rest != [] ==> out[f + 1] == rest[0]);
    if front[f - 1].End() <= n.base && (rest != [] ==> n.End() <= rest[0].base) {
      SortedCons(n, rest);
      SortedConcat(front, [n] + rest);
    }
  }

  lemma MergedFront(rs: seq<Region>, k: nat)
    requires Tidy(rs) && Twins(rs, k)
    ensures var front := Fronted(rs, k);
      Sorted(front) && AllFit(front) && front[|front| - 1].End() == rs[k - 1].End() && rs[k - 1].ty == Reserved
  {
    hide Contiguous, NoTwins, Positive;
    TidyParts(rs, k);
    TwinsTouch(rs, k);
    var merged := Padded(rs[k - 2], rs[k - 1])[0];
    assert merged.base == rs[k - 2].base && merged.End() == rs[k - 1].End();
    assert forall i :: 0 <= i < k - 2 ==> rs[i].End() <= rs[k - 2].base;
    SortedConcat(rs[..k - 2], [merged]);
  }

  lemma TwinsTouch(rs: seq<Region>, k: nat)
    requires Tidy(rs) && Twins(rs, k)
    ensures rs[k - 2].Fits() && rs[k - 1].Fits() && rs[k - 2].End() == rs[k - 1].base && rs[k - 1].ty == Reserved
  {
  }

  /** Behind twins the insertion ends sorted exactly when nothing is behind the new region and it reaches beyond
      the twins. */
  lemma TwinsEndSorted(rs: seq<Region>, n: Region, m: nat)
    requires Tidy(rs) && n.Fits() && n.size > 0 && Twins(rs, Passed(rs, n.base)) && !Run(m, LastFix(rs, n)).Looping()
    ensures Sorted(Finished(rs, n, m)) <==> FitsAfter(rs, n)
  {
    var k := Passed(rs, n.base);
    var prev, rest := rs[k - 1], rs[k..];
    PassedSplits(rs, n.base);
    MergedFront(rs, k);
    hide Passed, Tidy, Contiguous, NoTwins, Positive, Sorted, Padded, Fronted, Behind, Run;
    TidyParts(rs, k);
    BehindReserved(prev, n, rest, m);
    SortedAround(Fronted(rs, k), Beyond(prev.End(), n), rest);
  }

  lemma TwinsRun(rs: seq<Region>, n: Region)
    requires Tidy(rs) && n.Fits() && n.size > 0 && Twins(rs, Passed(rs, n.base))
    ensures !Run(1, LastFix(rs, n)).Looping()
  {
    var k := Passed(rs, n.base);
    PassedSplits(rs, n.base);
    TwinsTouch(rs, k);
    hide Tidy, Passed, Sorted, AllFit;
    TidyParts(rs, k);
    TwinsOnePass(rs[k - 1], n, rs[k..]);
  }

  lemma TwinsOnePass(prev: Region, n: Region, rest: seq<Region>)
    requires prev.ty == Reserved && (rest != [] ==> prev.End() <= rest[0].base)
    ensures !Run(1, Fixing([], prev, [n] + rest, prev.End())).Looping()
  {
    var s := Fixing([], prev, [n] + rest, prev.End());
    assert s.tail[1..] == rest && s.tail[0] == n;
    if s.Looping() {
      assert Run(1, s) == Run(0, Step(s)) == Step(s);
    }
  }

  /** Insertion behind the head of a tidy map ends with a sorted, non-overlapping list exactly when the
      caller's check holds. */
  lemma InsertionEndsSorted(rs: seq<Region>, n: Region)
    requires Tidy(rs) && n.Fits() && n.size > 0 && Passed(rs, n.base) >= 1
    ensures EndsSorted(rs, n) <==> FitsAfter(rs, n)
  {
    hide Tidy, Finished, Run, Sorted, Passed;
    var k, s := Passed(rs, n.base), LastFix(rs, n);
    if Twins(rs, k) {
      TwinsRun(rs, n);
      forall m: nat | !Run(m, s).Looping() ensures Sorted(Finished(rs, n, m)) <==> FitsAfter(rs, n) {
        TwinsEndSorted(rs, n, m);
      }
    } else {
      NoTwinsEndSorted(rs, n);
    }
  }

  lemma NoTwinsEndSorted(rs: seq<Region>, n: Region)
    requires Tidy(rs) && n.Fits() && n.size > 0 && Passed(rs, n.base) >= 1 && !Twins(rs, Passed(rs, n.base))
    ensures EndsSorted(rs, n) <==> FitsAfter(rs, n)
  {
    var k, s := Passed(rs, n.base), LastFix(rs, n);
    SettledBefore(rs, k);
    InsertedSettled(rs, n);
    hide Tidy, Sorted, Passed;
    if FitsAfter(rs, n) {
      FitsAfterCanInsert(rs, n);
      FixRightSorted(s);
      FixIsRun(s);
    } else {
      forall m: nat ensures Run(m, s).Looping() || !Sorted(Finish(Run(m, s))) {
        if MoreRestrictive(n.ty, rs[k - 1].ty) && n.base < rs[k - 1].End() <= n.End() {
          StuckAtHead(m, s);
        } else {
          OverrunOverlaps(rs, n, m);
        }
      }
    }
  }

  lemma SettledBefore(rs: seq<Region>, k: nat)
    requires Tidy(rs) && 1 <= k <= |rs| && !Twins(rs, k)
    ensures k >= 2 ==> Settled(rs[k - 2], rs[k - 1])
  {
  }

  /** A new region that reaches into its right neighbour: nothing repairs the right side of the new node. */
  lemma OverrunStaysUnsorted()
    ensures var rs := [Region(0, 0x2000, Usable, false), Region(0x2000, 0x1000, Reserved, false)];
      Tidy(rs) && !EndsSorted(rs, Region(0x1000, 0x1800, Usable, false))
  {
    var rs, n := [Region(0, 0x2000, Usable, false), Region(0x2000, 0x1000, Reserved, false)],
        Region(0x1000, 0x1800, Usable, false);
    TidyPair(rs[0], rs[1]);
    PassedIs(rs, n.base, 1);
    InsertionEndsSorted(rs, n);
  }

  /** A new region inside the second of two touching RESERVED ones: the first fix merges the two, the last one drops
      the new region from the node that was taken out, and the list keeps both the merged and the new region. */
  lemma TwinsKeepBoth()
    ensures var low, high, right := Region(0, 0x1000, Reserved, false), Region(0x1000, 0x2000, Reserved, false),
                                    Region(0x3000, 0x1000, Usable, false);
      var rs, n := [low, high, right], Region(0x2000, 0x800, Usable, false);
      && Tidy(rs) && CanInsert(rs, n) && !EndsSorted(rs, n)
      && Inserted(rs, n) == [Region(0, 0x3000, Reserved, false), n, right]
  {
    hide Tidy, CanInsert, EndsSorted, Inserted;
    TwinsDropNothing(Region(0, 0x1000, Reserved, false), Region(0x1000, 0x2000, Reserved, false),
                     Region(0x3000, 0x1000, Usable, false), Region(0x2000, 0x800, Usable, false));
  }

  lemma TwinsDropNothing(low: Region, high: Region, right: Region, n: Region)
    requires low.Fits() && high.Fits() && right.Fits() && n.Fits() && low.ty == high.ty == Reserved != right.ty
    requires low.size > 0 && high.size > 0 && right.size > 0 && n.size > 0
    requires low.End() == high.base < n.base && n.End() <= high.End() == right.base
    ensures var rs := [low, high, right];
      && Tidy(rs) && CanInsert(rs, n) && !EndsSorted(rs, n)
      && Inserted(rs, n) == [low.(size := high.End() - low.base), n, right]
  {
    var rs := [low, high, right];
    TwinsTidy(low, high, right);
    PassedIs(rs, n.base, 2);
    hide Passed, Tidy, Ready, EndsSorted, Behind, Run, Below, CanInsert, Inserted;
    InsertionEndsSorted(rs, n);
    TwinsShape(low, high, right, n);
    TwinsReady(high, n, right);
    TwinsInserted(rs, n);
    FixIsRun(LastFix(rs, n));
    BehindReserved(high, n, [right], Passes(rs, n));
  }

  lemma TwinsShape(low: Region, high: Region, right: Region, n: Region)
    requires low.Fits() && high.Fits() && right.Fits() && low.ty == high.ty && Passed([low, high, right], n.base) == 2
    ensures var rs := [low, high, right];
      && AllFit(rs) && Fronted(rs, 2) == [low.(size := high.End() - low.base)]
      && LastFix(rs, n) == Fixing([], high, [n] + [right], high.End()) && [n] + [right] == [n, right]
  {
    assert [low, high, right][2..] == [right] && [low, high, right][..0] == [];
  }

  lemma TwinsInserted(rs: seq<Region>, n: Region)
    requires AllFit(rs) && n.Fits() && n.size > 0 && Twins(rs, Passed(rs, n.base)) && Ready(LastFix(rs, n))
    requires var k := Passed(rs, n.base); rs[k - 2].End() <= rs[k - 1].base
    ensures CanInsert(rs, n)
    ensures Inserted(rs, n) == Fronted(rs, Passed(rs, n.base)) + Behind(Passes(rs, n), LastFix(rs, n))
  {
  }

  lemma TwinsTidy(low: Region, high: Region, right: Region)
    requires low.Fits() && high.Fits() && right.Fits() && low.ty == high.ty == Reserved != right.ty
    requires low.size > 0 && high.size > 0 && right.size > 0 && low.End() == high.base && high.End() == right.base
    ensures Tidy([low, high, right])
  {
    TidyPair(low, high);
    TidySingle(right);
    TidyConcat([low, high], [right]);
    assert [low, high] + [right] == [low, high, right];
  }

  lemma TwinsReady(prev: Region, n: Region, right: Region)
    requires prev.Fits() && n.Fits() && right.Fits() && prev.ty == Reserved && n.End() <= right.base == prev.End()
    requires prev.base <= n.base
    ensures Ready(Fixing([], prev, [n, right], prev.End()))
  {
    var s := Fixing([], prev, [n, right], prev.End());
    assert s.before + [s.cur] == [prev];
  }

  // ----- the insertions that keep a map tidy -----

  lemma PassedIs(rs: seq<Region>, base: int, k: nat)
    requires k <= |rs| && (forall i :: 0 <= i < k ==> rs[i].base < base) && (k < |rs| ==> rs[k].base >= base)
    ensures Passed(rs, base) == k
  {
    PassedSplits(rs, base);
  }

  /** Type of an address after a region was appended: old type, new type, or filler between them. */
  function AppendedType(rs: seq<Region>, n: Region, a: int): Option<MemType>
    requires rs != []
  {
    var last := rs[|rs| - 1];
    if TypeAt(rs, a).Some? then TypeAt(rs, a)
    else if n.Has(a) then Some(n.ty)
    else if last.End() <= a < n.base then Some(Filler(last.ty, n.ty))
    else None
  }

  lemma AppendFix(rs: seq<Region>, n: Region)
    requires Tidy(rs) && rs != [] && n.Fits() && n.size > 0 && rs[|rs| - 1].End() <= n.base
    requires |rs| >= 2 ==> rs[|rs| - 2].ty != rs[|rs| - 1].ty
    ensures CanInsert(rs, n) && Inserted(rs, n) == rs[..|rs| - 1] + Padded(rs[|rs| - 1], n)
  {
    var k, last := |rs|, rs[|rs| - 1];
    forall i | 0 <= i < k ensures rs[i].base < n.base {
      assert rs[i].base < rs[i].End() <= last.End();
    }
    PassedIs(rs, n.base, k);
    InsertedSettled(rs, n);
    var s := LastFix(rs, n);
    assert s.tail == [n] && !s.Looping();
    assert Padded(last, n) + [] == Padded(last, n) && [n][1..] == [];
  }

  lemma AppendTidy(before: seq<Region>, last: Region, n: Region)
    requires Tidy(before + [last]) && n.Fits() && n.size > 0 && last.End() <= n.base
    requires before != [] ==> before[|before| - 1].ty != last.ty
    ensures var out := before + Padded(last, n);
      && Tidy(out) && out != [] && out[0].base == (before + [last])[0].base
      && out[|out| - 1].End() == n.End() && out[|out| - 1].ty == n.ty
      && (|out| >= 2 ==> out[|out| - 2].ty != out[|out| - 1].ty)
  {
    TidyFront(before, last);
    PaddedTidy(last, n);
    TidyConcat(before, Padded(last, n));
    LastTwo(before, last, n);
  }

  lemma LastTwo(before: seq<Region>, last: Region, n: Region)
    requires before != [] ==> before[|before| - 1].ty != last.ty
    requires last.End() <= n.base
    ensures var out := before + Padded(last, n);
      && out[|out| - 1].End() == n.End() && out[|out| - 1].ty == n.ty
      && (|out| >= 2 ==> out[|out| - 2].ty != out[|out| - 1].ty)
      && out[0].base == (before + [last])[0].base
  {
  }

  lemma AppendMeaning(before: seq<Region>, last: Region, n: Region, a: int)
    requires last.Fits() && n.Fits() && last.End() <= n.base
    ensures TypeAt(before + Padded(last, n), a) == AppendedType(before + [last], n, a)
  {
    TypeAtConcat(before, Padded(last, n), a);
    TypeAtConcat(before, [last], a);
    TypeAtCons(last, [], a);
    assert [last] + [] == [last];
    PaddedMeaning(last, n, a);
  }

  /** Appending in address order keeps the map tidy and adds the region and the filler before it. */
  lemma AppendKeepsTidy(rs: seq<Region>, n: Region)
    requires Tidy(rs) && rs != [] && n.Fits() && n.size > 0 && rs[|rs| - 1].End() <= n.base
    requires |rs| >= 2 ==> rs[|rs| - 2].ty != rs[|rs| - 1].ty
    ensures CanInsert(rs, n)
    ensures var out := Inserted(rs, n);
      && Tidy(out) && out != [] && out[0].base == rs[0].base
      && out[|out| - 1].End() == n.End() && out[|out| - 1].ty == n.ty
      && (|out| >= 2 ==> out[|out| - 2].ty != out[|out| - 1].ty)
    ensures forall a :: TypeAt(Inserted(rs, n), a) == AppendedType(rs, n, a)
  {
    hide Tidy, Inserted, CanInsert, TypeAt, Padded, AppendedType;
    var before, last := rs[..|rs| - 1], rs[|rs| - 1];
    AppendFix(rs, n);
    assert rs == before + [last];
    TidyFront(before, last);
    AppendTidy(before, last, n);
    forall a ensures TypeAt(Inserted(rs, n), a) == AppendedType(rs, n, a) {
      AppendMeaning(before, last, n, a);
    }
  }

  /** Appending keeps every map tidy, except that a gap behind two touching RESERVED regions stays open: the padding
      hangs on the node the first fix took out. */
  lemma AppendTidyExactly(rs: seq<Region>, n: Region)
    requires Tidy(rs) && rs != [] && n.Fits() && n.size > 0 && rs[|rs| - 1].End() <= n.base
    ensures CanInsert(rs, n)
    ensures Tidy(Inserted(rs, n)) <==> !(Twins(rs, |rs|) && rs[|rs| - 1].End() < n.base)
  {
    hide Inserted, CanInsert;
    var k := |rs|;
    if Twins(rs, k) {
      AppendToTwins(rs, n);
      MergedTidy(rs, k);
      SeamDecides(Fronted(rs, k), n);
    } else {
      AppendKeepsTidy(rs, n);
    }
  }

  lemma AppendToTwins(rs: seq<Region>, n: Region)
    requires Tidy(rs) && Twins(rs, |rs|) && n.Fits() && n.size > 0 && rs[|rs| - 1].End() <= n.base
    ensures CanInsert(rs, n) && Inserted(rs, n) == Fronted(rs, |rs|) + [n]
  {
    var k, prev := |rs|, rs[|rs| - 1];
    TwinsTouch(rs, k);
    forall i | 0 <= i < k ensures rs[i].base < n.base {
      assert rs[i].base < rs[i].End() <= prev.End();
    }
    PassedIs(rs, n.base, k);
    hide Tidy, Passed, Fronted;
    assert rs[k..] == [] && [n] + [] == [n];
    assert Ready(LastFix(rs, n));
    FixIsRun(LastFix(rs, n));
    BehindReserved(prev, n, [], Passes(rs, n));
  }

  lemma MergedTidy(rs: seq<Region>, k: nat)
    requires Tidy(rs) && Twins(rs, k)
    ensures Tidy(Fronted(rs, k))
    ensures var last := Fronted(rs, k)[|Fronted(rs, k)| - 1]; last.ty == Reserved && last.End() == rs[k - 1].End()
  {
    TwinsTouch(rs, k);
    var front, low := rs[..k - 2], rs[k - 2];
    assert rs[..k - 1] == front + [low];
    TidyAfter(rs, k - 2);
    hide Tidy;
    TidyFront(front, low);
    TidySingle(Padded(low, rs[k - 1])[0]);
    TidyConcat(front, Padded(low, rs[k - 1]));
  }

  lemma SeamDecides(front: seq<Region>, n: Region)
    requires Tidy(front) && front != [] && front[|front| - 1].ty == Reserved && n.Fits() && n.size > 0
    ensures Tidy(front + [n]) <==> front[|front| - 1].End() == n.base
  {
    if front[|front| - 1].End() == n.base {
      TidySingle(n);
      TidyConcat(front, [n]);
    } else {
      assert (front + [n])[|front| - 1] == front[|front| - 1] && (front + [n])[|front|] == n;
    }
  }

  lemma FitsInside(rs: seq<Region>, n: Region, k: nat)
    requires k < |rs| && Passed(rs, n.base) == k + 1 && n.End() < rs[k].End()
    requires k + 1 < |rs| ==> rs[k].End() == rs[k + 1].base
    requires k >= 1 ==> rs[k - 1].ty != rs[k].ty
    ensures FitsAfter(rs, n) && !Twins(rs, k + 1)
  {
    hide Passed;
  }

  lemma InsideFix(rs: seq<Region>, n: Region, k: nat)
    requires Tidy(rs) && k < |rs| && rs[k].base < n.base && n.size > 0 && n.End() < rs[k].End() && n.Fits()
    requires MoreRestrictive(n.ty, rs[k].ty)
    requires k >= 1 ==> rs[k - 1].ty != rs[k].ty
    ensures CanInsert(rs, n)
    ensures Inserted(rs, n) == rs[..k] + [rs[k].(size := n.base - rs[k].base), n]
                               + PadRight(rs[k].(base := n.End(), size := rs[k].End() - n.End()), rs[k + 1..])
  {
    hide Tidy, Fix, PadRight, Sorted, Ready, Step, LastFix, Fronted, Passed, Inserted, CanInsert, Twins, FitsAfter;
    var r := rs[k];
    TidyAfter(rs, k);
    PassedIs(rs, n.base, k + 1);
    assert FitsAfter(rs, n) && !Twins(rs, k + 1) by {
      FitsInside(rs, n, k);
    }
    FitsAfterCanInsert(rs, n);
    SettledBefore(rs, k + 1);
    InsertedSettled(rs, n);
    var s, rest := LastFix(rs, n), rs[k + 1..];
    var left, right := r.(size := n.base - r.base), r.(base := n.End(), size := r.End() - n.End());
    InsideStep(s, n, rest);
    assert Step(s) == Fixing(rs[..k] + [left, n], right, rest, r.End());
  }

  lemma InsideStep(s: Fixing, n: Region, rest: seq<Region>)
    requires Ready(s) && s.tail == [n] + rest && MoreRestrictive(n.ty, s.cur.ty)
    requires s.cur.base < n.base && n.End() < s.limit && (rest != [] ==> rest[0].base >= s.limit) && n.size > 0
    ensures Step(s) == Fixing(s.before + [s.cur.(size := n.base - s.cur.base), n],
                              s.cur.(base := n.End(), size := s.limit - n.End()), rest, s.limit)
    ensures Fix(s) == Step(s).before + PadRight(Step(s).cur, rest)
  {
    assert s.tail[1..] == rest && s.tail[0] == n;
    StepWellFormed(s);
    assert Fix(s) == Fix(Step(s));
  }

  lemma PadSettled(cur: Region, rest: seq<Region>)
    requires rest != [] ==> Settled(cur, rest[0])
    ensures PadRight(cur, rest) == [cur] + rest
  {
    if rest != [] {
      assert Padded(cur, rest[0]) == [cur, rest[0]];
      assert rest == [rest[0]] + rest[1..];
    }
  }

  /** A stricter region strictly inside another one splits it in two. */
  lemma InsideSplits(rs: seq<Region>, n: Region, k: nat)
    requires Tidy(rs) && k < |rs| && rs[k].base < n.base && n.size > 0 && n.End() < rs[k].End() && n.Fits()
    requires MoreRestrictive(n.ty, rs[k].ty)
    requires k >= 1 ==> rs[k - 1].ty != rs[k].ty
    ensures CanInsert(rs, n)
    ensures Inserted(rs, n) == SplitAround(rs, n, k) && Tidy(Inserted(rs, n))
  {
    hide Tidy, Inserted, CanInsert, PadRight, Fix;
    InsideFix(rs, n, k);
    TidyAfter(rs, k);
    PadSettled(rs[k].(base := n.End(), size := rs[k].End() - n.End()), rs[k + 1..]);
    assert rs[..k + 1] == rs[..k] + [rs[k]];
    SplitListTidy(rs[..k], rs[k], n, rs[k + 1..]);
    SplitShape(rs[..k], rs[k], n, rs[k + 1..]);
  }

  function Three(r: Region, n: Region): seq<Region> {
    [r.(size := n.base - r.base), n, r.(base := n.End(), size := r.End() - n.End())]
  }

  lemma SplitShape(front: seq<Region>, r: Region, n: Region, rest: seq<Region>)
    ensures front + Three(r, n) + rest == front + [Three(r, n)[0], n] + ([Three(r, n)[2]] + rest)
  {
  }

  lemma SplitListTidy(front: seq<Region>, r: Region, n: Region, rest: seq<Region>)
    requires Tidy(front + [r]) && Tidy(rest) && (rest != [] ==> Seam(r, rest[0]))
    requires r.Fits() && n.Fits() && n.size > 0 && r.base < n.base && n.End() < r.End() && r.ty != n.ty
    ensures Tidy(front + Three(r, n) + rest)
  {
    hide Tidy;
    SplitTidy(front, r, n);
    var three := Three(r, n);
    assert front + [three[0], n] + [three[2]] == front + three;
    TidyConcat(front + three, rest);
  }

  lemma TidyAfter(rs: seq<Region>, k: nat)
    requires Tidy(rs) && k < |rs|
    ensures Tidy(rs[..k + 1]) && Tidy(rs[k + 1..]) && rs[k].Fits()
    ensures rs[k + 1..] != [] ==> Seam(rs[k], rs[k + 1..][0])
    ensures forall i :: 0 <= i < k ==> rs[i].base < rs[k].base && rs[i].End() <= rs[k].base
    ensures k + 1 < |rs| ==> rs[k].End() == rs[k + 1].base
  {
  }

  function SplitAround(rs: seq<Region>, n: Region, k: nat): seq<Region>
    requires k < |rs|
  {
    rs[..k] + Three(rs[k], n) + rs[k + 1..]
  }

  /** A split changes the type of exactly the addresses of the new region. */
  lemma SplitAroundMeaning(rs: seq<Region>, n: Region, k: nat, a: int)
    requires Tidy(rs) && k < |rs| && rs[k].base < n.base && n.size > 0 && n.End() < rs[k].End()
    ensures TypeAt(SplitAround(rs, n, k), a) == if n.Has(a) then Some(n.ty) else TypeAt(rs, a)
  {
    hide Tidy, TypeAt, Sorted;
    var r, front, rest := rs[k], rs[..k], rs[k + 1..];
    TidyAfter(rs, k);
    SplitMeaning(front, r, n, rest, a);
    assert rs == front + [r] + rest;
    if n.Has(a) {
      forall i | 0 <= i < k ensures !front[i].Has(a) {
        assert rs[i].End() <= r.base;
      }
      TypeAtNone(front, a);
    }
  }

  lemma SplitMeaning(front: seq<Region>, r: Region, n: Region, rest: seq<Region>, a: int)
    requires r.base < n.base && n.size > 0 && n.End() < r.End()
    ensures TypeAt(front + Three(r, n) + rest, a) ==
      if n.Has(a) && TypeAt(front, a) == None then Some(n.ty) else TypeAt(front + [r] + rest, a)
  {
    var three := Three(r, n);
    TypeAtConcat(front + three, rest, a);
    TypeAtConcat(front, three, a);
    TypeAtConcat(front + [r], rest, a);
    TypeAtConcat(front, [r], a);
    ThreeMeaning(three, a);
    TypeAtCons(r, [], a);
    assert [r] + [] == [r];
  }

  lemma ThreeMeaning(three: seq<Region>, a: int)
    requires |three| == 3
    ensures TypeAt(three, a) ==
      if three[0].Has(a) then Some(three[0].ty)
      else if three[1].Has(a) then Some(three[1].ty)
      else if three[2].Has(a) then Some(three[2].ty)
      else None
  {
    TypeAtSplit(three, a);
    TypeAtSplit(three[1..], a);
    TypeAtSplit(three[1..][1..], a);
  }
}
