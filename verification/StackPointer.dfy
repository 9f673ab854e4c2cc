/** `get_stack_pointer`: the stack goes to the end of the largest region of the map. */
module StackPointer {
  import opened Words
  import opened Arithmetic
  import opened Regions
  import opened RegionList

  datatype ControlResult = Success(stackPointer: U32) | NoSpaceForStack

  /** The last of the largest regions. */
  function LastLargest(rs: seq<Region>): (k: nat)
    requires rs != []
    ensures k < |rs|
    ensures forall i :: 0 <= i < |rs| ==> rs[i].size <= rs[k].size
    ensures forall i :: k < i < |rs| ==> rs[i].size < rs[k].size
  {
    if |rs| == 1 then 0
    else
      var best := LastLargest(rs[..|rs| - 1]);
      if rs[|rs| - 1].size >= rs[best].size then |rs| - 1 else best
  }

  /** `x &= 0xffffffff << alignment` */
  function AlignDown(x: U32, alignment: nat): U32 {
    var d := Pow2(alignment);
    DivMod(x, d);
    x - x % d
  }

  /** The pointer for a region: computed in uint64_t, cut to uint32_t, aligned, checked, and moved back up. */
  function PointerIn(r: Region, alignment: nat, reserve: U32): ControlResult {
    var sp := AlignDown(Wrap32((r.base + r.size - 1 - reserve) % LIMIT64), alignment);
    if sp < r.base then NoSpaceForStack else Success(Wrap32(sp + reserve))
  }

  /** An aligned address that leaves the reserve, from it on, inside the region. */
  predicate Candidate(r: Region, alignment: nat, reserve: U32, a: int) {
    r.base <= a && a + reserve <= r.End() && a % Pow2(alignment) == 0
  }

  lemma AlignedIsLargest(x: nat, d: nat, a: nat)
    requires d > 0 && a <= x && a % d == 0
    ensures a <= x - x % d && (x - x % d) % d == 0
  {
    DivMod(x, d);
    DivMod(a, d);
    DivUnique(x - x % d, d, x / d, 0);
    if a / d > x / d {
      MulStep(x / d, a / d, d);
    }
    MulLe(a / d, x / d, d);
  }

  /** No wrap and no truncation matters for a region that ends behind the reserve and within 4 GiB. */
  lemma PointerUnwrapped(r: Region, alignment: nat, reserve: U32)
    requires r.Fits() && reserve < r.End() <= LIMIT32
    ensures var top := r.End() - 1 - reserve;
      var low := AlignDown(top, alignment);
      && 0 <= low <= top
      && PointerIn(r, alignment, reserve) == if low < r.base then NoSpaceForStack else Success(low + reserve)
  {
    hide Wrap32, Pow2;
    var top: nat, d := r.End() - 1 - reserve, Pow2(alignment);
    Small64(top);
    WrapId(top);
    DivMod(top, d);
    MulLe(0, top / d, d);
    WrapId(AlignDown(top, alignment) + reserve);
  }

  lemma Small64(x: int)
    requires 0 <= x < LIMIT64
    ensures x % LIMIT64 == x
  {
  }

  /** The pointer less the reserve is a candidate, and the highest one that leaves at least one more byte; when the
      function reports no space, no such candidate exists. */
  lemma PointerIsCandidate(r: Region, alignment: nat, reserve: U32)
    requires r.Fits() && reserve < r.End() <= LIMIT32
    ensures match PointerIn(r, alignment, reserve)
      case NoSpaceForStack => forall a :: Candidate(r, alignment, reserve, a) ==> a + reserve == r.End()
      case Success(sp) =>
        && Candidate(r, alignment, reserve, sp - reserve) && sp < r.End()
        && forall a :: Candidate(r, alignment, reserve, a) ==> a <= sp - reserve || a + reserve == r.End()
  {
    PointerUnwrapped(r, alignment, reserve);
    hide Pow2, PointerIn, Wrap32;
    var top: nat, d := r.End() - 1 - reserve, Pow2(alignment);
    ZeroAligned(d);
    AlignedIsLargest(top, d, 0);
    forall a | Candidate(r, alignment, reserve, a) && a + reserve < r.End() ensures a <= AlignDown(top, alignment) {
      AlignedIsLargest(top, d, a);
    }
  }

  /** The result is the best possible: the highest candidate, or no candidate and no space. */
  ghost predicate Best(r: Region, alignment: nat, reserve: U32) {
    match PointerIn(r, alignment, reserve)
    case NoSpaceForStack => forall a :: !Candidate(r, alignment, reserve, a)
    case Success(sp) =>
      && Candidate(r, alignment, reserve, sp - reserve)
      && forall a :: Candidate(r, alignment, reserve, a) ==> a <= sp - reserve
  }

  /** The result is the best possible exactly when the reserve cannot end with the region: the code leaves a byte
      behind it. */
  lemma PointerIsExact(r: Region, alignment: nat, reserve: U32)
    requires r.Fits() && reserve < r.End() <= LIMIT32
    ensures Best(r, alignment, reserve) <==>
      (r.End() - reserve) % Pow2(alignment) != 0 || r.End() - reserve < r.base
  {
    PointerIsCandidate(r, alignment, reserve);
    PointerUnwrapped(r, alignment, reserve);
    hide Pow2, PointerIn, Wrap32, AlignDown;
    var last := r.End() - reserve;
    if last % Pow2(alignment) == 0 && r.base <= last {
      assert Candidate(r, alignment, reserve, last);
    } else {
      forall a | Candidate(r, alignment, reserve, a) ensures a != last {
      }
    }
  }

  /** Room for exactly the reserve, from an aligned address on, and no space reported. */
  lemma ReserveAtTheEnd()
    ensures var r := Region(0xFFC, 12, Usable, false);
      PointerIn(r, 4, 8) == NoSpaceForStack && Candidate(r, 4, 8, 0x1000)
  {
    var r := Region(0xFFC, 12, Usable, false);
    assert Pow2(4) == 16;
    PointerUnwrapped(r, 4, 8);
  }

  lemma ZeroAligned(d: nat)
    requires d > 0
    ensures 0 % d == 0
  {
    DivUnique(0, d, 0, 0);
  }

  /** `get_stack_pointer` */
  method GetStackPointer(memRegions: RegionMap, alignment: U8, reserve: U32) returns (result: ControlResult)
    requires memRegions.Valid() && alignment < 32
    ensures var rs := memRegions.Regions();
      result == if rs == [] then NoSpaceForStack else PointerIn(rs[LastLargest(rs)], alignment, reserve)
  {
    hide Linked, LinkedExcept, Values, LastLargest, AlignDown, Wrap32;
    ghost var nodes, rs := memRegions.nodes, memRegions.Regions();
    ValuesAt(nodes);
    var largest, current := memRegions.head, memRegions.head;
    ghost var k := 0;
    while current != null
      invariant 0 <= k <= |nodes| && current == if k < |nodes| then nodes[k] else null
      invariant largest == if nodes == [] then null else nodes[LargestBefore(rs, k)]
      decreases |nodes| - k
    {
      LargestStep(rs, k);
      if current.size >= largest.size {
        largest := current;
      }
      NextInList(nodes, k);
      current := current.next;
      k := k + 1;
    }
    assert rs[..|rs|] == rs;
    if largest == null {
      return NoSpaceForStack;
    }
    var stackPointer := Wrap32((largest.base + largest.size - 1 - reserve) % LIMIT64);
    stackPointer := AlignDown(stackPointer, alignment);
    if stackPointer < largest.base {
      return NoSpaceForStack;
    }
    stackPointer := Wrap32(stackPointer + reserve);
    return Success(stackPointer);
  }

  lemma NextInList(nodes: seq<Node>, k: nat)
    requires Linked(nodes) && k < |nodes|
    ensures nodes[k].next == if k + 1 < |nodes| then nodes[k + 1] else null
  {
  }

  /** Where `largest` points after `k` regions. */
  ghost function LargestBefore(rs: seq<Region>, k: nat): (best: nat)
    requires k <= |rs|
    ensures rs != [] ==> best < |rs|
  {
    if k == 0 then 0 else LastLargest(rs[..k])
  }

  lemma LargestStep(rs: seq<Region>, k: nat)
    requires k < |rs|
    ensures LargestBefore(rs, k + 1) ==
      if rs[k].size >= rs[LargestBefore(rs, k)].size then k else LargestBefore(rs, k)
  {
    if k > 0 {
      assert rs[..k + 1][..k] == rs[..k];
      assert rs[LastLargest(rs[..k])] == rs[..k][LastLargest(rs[..k])];
    }
  }

  /** The stack after the two 4-byte pushes of `transfer_control` is aligned and inside the region. */
  lemma StackAfterPushes(rs: seq<Region>)
    requires rs != [] && var r := rs[LastLargest(rs)]; r.Fits() && r.size > 8 && r.End() <= LIMIT32
    ensures var r := rs[LastLargest(rs)];
      match PointerIn(r, 4, 8)
      case NoSpaceForStack => true
      case Success(sp) => r.base <= sp - 8 && sp < r.End() && (sp - 8) % 16 == 0
  {
    PointerIsCandidate(rs[LastLargest(rs)], 4, 8);
    assert Pow2(4) == 16;
  }
}
