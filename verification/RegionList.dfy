/**
 * The linked list of memory regions as the boot stage keeps it: nodes whose `next`, `base` and `size`
 * are rewritten in place. Every operation is proved against the value-level functions of `Regions`.
 */
module RegionList {
  import opened Words
  import opened Regions
  import opened Insertion

  class Node {
    var next: Node?
    var base: U64
    var size: U64
    var ty: MemType
    var isVolatile: bool

    constructor (next: Node?, base: U64, size: U64, ty: MemType, isVolatile: bool)
      ensures this.next == next && Value() == Region(base, size, ty, isVolatile)
    {
      this.next, this.base, this.size, this.ty, this.isVolatile := next, base, size, ty, isVolatile;
    }

    function Value(): Region
      reads this
    {
      Region(base, size, ty, isVolatile)
    }
  }

  ghost predicate LinkedExcept(nodes: seq<Node>, c: int)
    reads nodes
  {
    && (forall i, j :: 0 <= i < j < |nodes| ==> nodes[i] != nodes[j])
    && (forall i {:trigger nodes[i].next} :: 0 <= i < |nodes| && i != c ==> nodes[i].next == Successor(nodes, i))
  }

  ghost function Successor(nodes: seq<Node>, i: nat): Node? {
    if i + 1 < |nodes| then nodes[i + 1] else null
  }

  /** `nodes` are the distinct nodes of a null-terminated list, in order. */
  ghost predicate Linked(nodes: seq<Node>)
    reads nodes
  {
    LinkedExcept(nodes, -1)
  }

  function Without(nodes: seq<Node>, c: nat): (r: seq<Node>)
    requires c + 1 < |nodes|
    ensures r != [] && r[0] == nodes[0] && forall n :: n in r ==> n in nodes
  {
    nodes[..c + 1] + nodes[c + 2..]
  }

  function With(nodes: seq<Node>, c: nat, n: Node): (r: seq<Node>)
    requires c < |nodes|
    ensures r != [] && r[0] == nodes[0] && forall m :: m in r ==> m in nodes || m == n
  {
    nodes[..c + 1] + [n] + nodes[c + 1..]
  }

  /** Pointing node `c` past its successor takes that successor out of the list. */
  lemma Unlink(nodes: seq<Node>, c: nat)
    requires LinkedExcept(nodes, c) && c + 1 < |nodes| && nodes[c].next == Successor(nodes, c + 1)
    ensures Linked(Without(nodes, c))
    ensures Values(Without(nodes, c)) == Values(nodes)[..c + 1] + Values(nodes)[c + 2..]
  {
    var r := Without(nodes, c);
    forall i {:trigger r[i].next} | 0 <= i < |r| ensures r[i].next == Successor(r, i) {
      if i <= c {
        assert r[i] == nodes[i];
      } else {
        assert r[i] == nodes[i + 1];
      }
    }
  }

  /** Pointing node `c` at a new node that points at the old successor puts the node into the list. */
  lemma Link(nodes: seq<Node>, c: nat, n: Node)
    requires LinkedExcept(nodes, c) && c < |nodes| && n !in nodes
    requires nodes[c].next == n && n.next == Successor(nodes, c)
    ensures Linked(With(nodes, c, n))
    ensures Values(With(nodes, c, n)) == Values(nodes)[..c + 1] + [n.Value()] + Values(nodes)[c + 1..]
  {
    var r := With(nodes, c, n);
    forall i {:trigger r[i].next} | 0 <= i < |r| ensures r[i].next == Successor(r, i) {
      if i <= c {
        assert r[i] == nodes[i];
      } else if i > c + 1 {
        assert r[i] == nodes[i - 1];
      }
    }
  }

  ghost function Values(nodes: seq<Node>): seq<Region>
    reads nodes
  {
    seq(|nodes|, i requires 0 <= i < |nodes| reads nodes => nodes[i].Value())
  }

  lemma ValuesAt(nodes: seq<Node>)
    ensures |Values(nodes)| == |nodes|
    ensures forall i :: 0 <= i < |nodes| ==> Values(nodes)[i] == nodes[i].Value()
  {
  }

  /** `fix_right` on entry: the first region is the one under the cursor. */
  function Entering(before: seq<Region>, rs: seq<Region>): Fixing
    requires rs != []
  {
    Fixing(before, rs[0], rs[1..], rs[0].End())
  }

  /** The three in-place edits of `add_padding_right`, on values. */
  lemma MergeValues(was: seq<Region>, c: nat)
    requires c + 1 < |was| && was[c].ty == was[c + 1].ty
    ensures var now := was[c := was[c].(size := was[c + 1].End() - was[c].base)];
      now[..c + 1] + now[c + 2..] == was[..c] + PadRight(was[c], was[c + 1..])
  {
  }

  lemma WidenValues(was: seq<Region>, c: nat)
    requires c + 1 < |was| && was[c].ty != was[c + 1].ty && was[c + 1].ty == Reserved
    ensures var next := was[c + 1];
      was[c + 1 := next.(base := was[c].End(), size := next.size + (next.base - was[c].End()))]
      == was[..c] + PadRight(was[c], was[c + 1..])
  {
  }

  lemma PadValues(was: seq<Region>, c: nat)
    requires c + 1 < |was| && was[c].ty != was[c + 1].ty && was[c + 1].ty != Reserved && was[c].End() < was[c + 1].base
    ensures was[..c + 1] + [Region(was[c].End(), was[c + 1].base - was[c].End(), Reserved, false)] + was[c + 1..]
      == was[..c] + PadRight(was[c], was[c + 1..])
  {
  }

  lemma KeepValues(was: seq<Region>, c: nat)
    requires c < |was|
    requires c + 1 < |was| ==>
      was[c].ty != was[c + 1].ty && was[c + 1].ty != Reserved && was[c].End() >= was[c + 1].base
    ensures was == was[..c] + PadRight(was[c], was[c + 1..])
  {
  }

  /** The first branch of `add_padding_right`: the neighbour is merged into the region and taken out of the list. */
  method MergeNext(region: Node, next: Node, ghost nodes: seq<Node>, ghost c: nat) returns (ghost after: seq<Node>)
    requires Linked(nodes) && c + 1 < |nodes| && nodes[c] == region && nodes[c + 1] == next && region.ty == next.ty
    requires AllFit(Values(nodes)) && region.Value().End() <= next.base
    modifies region`size, region`next
    ensures after == Without(nodes, c) && Linked(after)
    ensures c < |after| && after[..c + 1] == nodes[..c + 1]
    ensures var was := old(Values(nodes)); Values(after) == was[..c] + PadRight(was[c], was[c + 1..])
  {
    ghost var was := Values(nodes);
    assert was[c].Fits() && was[c + 1].Fits();
    region.size := next.base + next.size - region.base;
    region.next := next.next;
    assert Values(nodes) == was[c := was[c].(size := was[c + 1].End() - was[c].base)];
    Unlink(nodes, c);
    after := Without(nodes, c);
    hide PadRight;
    MergeValues(was, c);
  }

  /** The second branch: a RESERVED neighbour grows down to the region. */
  method WidenNext(region: Node, next: Node, ghost nodes: seq<Node>, ghost c: nat)
    requires Linked(nodes) && c + 1 < |nodes| && nodes[c] == region && nodes[c + 1] == next
    requires region.ty != next.ty && next.ty == Reserved && AllFit(Values(nodes)) && region.Value().End() <= next.base
    modifies next`base, next`size
    ensures Linked(nodes) && next.Value() == Widened(region.Value(), old(next.Value()))
    ensures var was := old(Values(nodes)); Values(nodes) == was[..c] + PadRight(was[c], was[c + 1..])
  {
    ghost var was := Values(nodes);
    assert was[c].Fits() && was[c + 1].Fits();
    var limitRight := region.base + region.size;
    next.size := next.size + (next.base - limitRight);
    next.base := limitRight;
    assert Values(nodes) == was[c + 1 := next.Value()];
    hide PadRight;
    WidenValues(was, c);
  }

  /** The third branch: a new RESERVED node between the two. */
  method PadNext(region: Node, next: Node, ghost nodes: seq<Node>, ghost c: nat) returns (ghost after: seq<Node>)
    requires Linked(nodes) && c + 1 < |nodes| && nodes[c] == region && nodes[c + 1] == next
    requires region.ty != next.ty && next.ty != Reserved && AllFit(Values(nodes)) && region.Value().End() < next.base
    modifies region`next
    ensures Linked(after) && |after| == |nodes| + 1
    ensures after[..c + 1] == nodes[..c + 1] && after[c + 2..] == nodes[c + 1..]
    ensures fresh(after[c + 1])
    ensures var was := old(Values(nodes)); Values(after) == was[..c] + PadRight(was[c], was[c + 1..])
  {
    ghost var was := Values(nodes);
    assert was[c].Fits() && was[c + 1].Fits();
    var limitRight := region.base + region.size;
    var padding := new Node(next, limitRight, next.base - limitRight, Reserved, false);
    region.next := padding;
    assert Values(nodes) == was;
    Link(nodes, c, padding);
    after := With(nodes, c, padding);
    hide PadRight;
    PadValues(was, c);
  }

  lemma LinkAt(nodes: seq<Node>, c: nat)
    requires Linked(nodes) && c < |nodes|
    ensures nodes[c].next == Successor(nodes, c)
    ensures c + 1 < |nodes| ==> nodes[c + 1] != nodes[c] && nodes[c + 1].next == Successor(nodes, c + 1)
  {
  }

  /** `add_padding_right`, on the node at position `c` of its list. */
  method AddPaddingRight(region: Node, ghost nodes: seq<Node>, ghost c: nat) returns (ghost after: seq<Node>)
    requires Linked(nodes) && c < |nodes| && nodes[c] == region
    requires AllFit(Values(nodes)) && (c + 1 < |nodes| ==> region.Value().End() <= nodes[c + 1].base)
    modifies {region, region.next}
    ensures Linked(after)
    ensures var was := old(Values(nodes)); Values(after) == was[..c] + PadRight(was[c], was[c + 1..])
    ensures after[0] == nodes[0] && forall n :: n in after ==> n in nodes || fresh(n)
    ensures c < |after| && after[..c + 1] == nodes[..c + 1]
    ensures c + 1 < |nodes| ==> nodes[c + 1].next == Successor(nodes, c + 1)
    ensures c + 1 < |nodes| ==>
      nodes[c + 1].Value() == old(Widened(region.Value(), nodes[c + 1].Value()))
    ensures c + 1 < |nodes| ==>
      if old(region.ty == nodes[c + 1].ty) then after == Without(nodes, c)
      else after == nodes || (|after| == |nodes| + 1 && after[c + 2..] == nodes[c + 1..])
  {
    hide PadRight, Without;
    ghost var was := Values(nodes);
    ValuesAt(nodes);
    LinkAt(nodes, c);
    hide Linked, Values;
    after := nodes;
    var next := region.next;
    if next == null {
      KeepValues(was, c);
      return;
    }
    assert next == nodes[c + 1];
    assert was[c].Fits() && was[c + 1].Fits();
    var limitRight := region.base + region.size;
    if region.ty == next.ty {
      after := MergeNext(region, next, nodes, c);
    } else if next.ty == Reserved {
      WidenNext(region, next, nodes, c);
    } else if limitRight < next.base {
      after := PadNext(region, next, nodes, c);
      PaddedMembers(nodes, after, c);
    } else {
      KeepValues(was, c);
    }
  }

  lemma PaddedMembers(nodes: seq<Node>, after: seq<Node>, c: nat)
    requires c + 1 < |nodes| && |after| == |nodes| + 1
    requires after[..c + 1] == nodes[..c + 1] && after[c + 2..] == nodes[c + 1..]
    ensures forall n :: n in after ==> n in nodes || n == after[c + 1]
  {
    forall i | 0 <= i < |after| ensures after[i] in nodes || after[i] == after[c + 1] {
      if i <= c {
        assert after[..c + 1][i] == nodes[..c + 1][i];
      } else if i >= c + 2 {
        assert after[c + 2..][i - (c + 2)] == nodes[c + 1..][i - (c + 2)];
      }
    }
  }

  /** The list seen from a cursor: what is done, the node under the cursor, and the tail. */
  ghost predicate At(s: Fixing, nodes: seq<Node>, region: Node)
    reads nodes
  {
    && Linked(nodes) && |s.before| < |nodes| && nodes[|s.before|] == region
    && Values(nodes) == s.before + [s.cur] + s.tail
  }

  lemma AtParts(s: Fixing, nodes: seq<Node>, region: Node)
    requires At(s, nodes, region)
    ensures region in nodes
    ensures Values(nodes)[..|s.before|] == s.before && Values(nodes)[|s.before|] == region.Value() == s.cur
    ensures Values(nodes)[|s.before| + 1..] == s.tail
    ensures s.tail == [] ==> region.next == null
    ensures s.tail != [] ==> |s.before| + 1 < |nodes| && region.next == nodes[|s.before| + 1]
    ensures s.tail != [] ==> region.next in nodes && region.next != region && region.next.Value() == s.tail[0]
  {
    assert region.next == nodes[|s.before|].next;
    if s.tail != [] {
      assert Values(nodes)[|s.before| + 1] == s.tail[0];
      assert nodes[|s.before| + 1] in nodes;
    }
  }

  lemma AtUpdated(s: Fixing, nodes: seq<Node>, region: Node, was: seq<Region>, k: nat, r: Region)
    requires Linked(nodes) && |s.before| < |nodes| && nodes[|s.before|] == region
    requires was == s.before + [s.cur] + s.tail && |s.before| <= k < |was| && Values(nodes) == was[k := r]
    ensures k == |s.before| ==> At(s.(cur := r), nodes, region)
    ensures k == |s.before| + 1 ==> At(s.(tail := [r] + s.tail[1..]), nodes, region)
  {
  }

  // The four edits the loop body is made of, on values.

  function Dropped(s: Fixing): Fixing
    requires s.tail != []
  {
    s.(tail := s.tail[1..])
  }

  function Trimmed(s: Fixing): Fixing
    requires s.tail != []
  {
    var next := s.tail[0];
    s.(tail := [next.(base := s.limit, size := next.size - (s.limit - next.base))] + s.tail[1..])
  }

  function Cut(s: Fixing): Fixing
    requires s.tail != []
  {
    s.(cur := s.cur.(size := s.tail[0].base - s.cur.base))
  }

  function Split(s: Fixing): Fixing
    requires s.tail != []
  {
    var next := s.tail[0];
    Fixing(s.before + [s.cur, next], s.cur.(base := next.End(), size := s.limit - next.End()), s.tail[1..], s.limit)
  }

  lemma StepIsOneEdit(s: Fixing)
    requires s.Looping()
    ensures Step(s) ==
      if !MoreRestrictive(s.tail[0].ty, s.cur.ty) then
        if s.tail[0].End() <= s.limit then Dropped(s) else Trimmed(s)
      else if s.limit > s.tail[0].End() then Split(Cut(s)) else Cut(s)
  {
  }

  /** The removal branch of the loop body. */
  method DropNext(region: Node, ghost nodes: seq<Node>, ghost s: Fixing) returns (ghost after: seq<Node>)
    requires At(s, nodes, region) && s.tail != []
    modifies region`next
    ensures At(Dropped(s), after, region) && after == Without(nodes, |s.before|)
    ensures forall n :: n in after ==> n in nodes
  {
    AtParts(s, nodes, region);
    ghost var c := |s.before|;
    region.next := region.next.next;
    Unlink(nodes, c);
    after := Without(nodes, c);
  }

  /** The branch that moves the neighbour's left bound to the limit. */
  method TrimNext(region: Node, limitRight: U64, ghost nodes: seq<Node>, ghost s: Fixing)
    requires At(s, nodes, region) && s.tail != [] && s.tail[0].base <= limitRight == s.limit <= s.tail[0].End()
    modifies region.next
    ensures At(Trimmed(s), nodes, region)
  {
    AtParts(s, nodes, region);
    ghost var was, c := Values(nodes), |s.before|;
    var next := region.next;
    next.size := next.size - (limitRight - next.base);
    next.base := limitRight;
    assert Values(nodes) == was[c + 1 := next.Value()];
    AtUpdated(s, nodes, region, was, c + 1, next.Value());
  }

  /** A more restrictive neighbour ends the region where the neighbour starts. */
  method CutShort(region: Node, ghost nodes: seq<Node>, ghost s: Fixing)
    requires At(s, nodes, region) && s.tail != [] && s.cur.base <= s.tail[0].base
    modifies region`size
    ensures At(Cut(s), nodes, region)
  {
    AtParts(s, nodes, region);
    ghost var was, c := Values(nodes), |s.before|;
    region.size := region.next.base - region.base;
    assert Values(nodes) == was[c := region.Value()];
    AtUpdated(s, nodes, region, was, c, region.Value());
  }

  lemma SplitValues(s: Fixing, r: Region)
    requires s.tail != []
    ensures var was, c := s.before + [s.cur] + s.tail, |s.before|;
      was[..c + 2] + [r] + was[c + 2..] == s.before + [s.cur, s.tail[0]] + [r] + s.tail[1..]
  {
  }

  /** The split branch: the part of the region beyond its more restrictive neighbour becomes a new node. */
  method SplitAfterNext(region: Node, limitRight: U64, ghost nodes: seq<Node>, ghost s: Fixing)
    returns (split: Node, ghost after: seq<Node>)
    requires At(s, nodes, region) && s.tail != [] && s.tail[0].Fits() && s.tail[0].End() < limitRight == s.limit
    modifies region.next`next
    ensures fresh(split)
    ensures At(Split(s), after, split)
    ensures |s.before| + 1 < |nodes| && after == With(nodes, |s.before| + 1, split)
    ensures forall n :: n in after ==> n in nodes || n == split
  {
    AtParts(s, nodes, region);
    ghost var was := Values(nodes);
    ghost var c := |s.before|;
    var next := region.next;
    var base := next.base + next.size;
    split := new Node(next.next, base, limitRight - base, region.ty, region.isVolatile);
    next.next := split;
    assert Values(nodes) == was;
    Link(nodes, c + 1, split);
    after := With(nodes, c + 1, split);
    SplitValues(s, split.Value());
    ghost var t := Split(s);
    assert t == Fixing(s.before + [s.cur, s.tail[0]], split.Value(), s.tail[1..], s.limit);
    assert Values(after) == t.before + [t.cur] + t.tail;
    assert after[c + 2] == split;
    assert At(t, after, split);
  }

  /** One execution of the loop body of `fix_right`. */
  method FixOnce(region: Node, limitRight: U64, ghost nodes: seq<Node>, ghost s: Fixing)
    returns (cursor: Node, ghost after: seq<Node>)
    requires At(s, nodes, region) && s.limit == limitRight && s.Looping() && Ready(s)
    modifies {region, region.next}
    ensures At(Step(s), after, cursor) && after != [] && nodes[0] == after[0]
    ensures forall n :: n in after ==> n in nodes || fresh(n)
    ensures |s.before| < |after| && after[..|s.before| + 1] == nodes[..|s.before| + 1] && |nodes| > |s.before| + 1
    ensures |Step(s).before| > |s.before| ==> |after| > |s.before| + 1 && after[|s.before| + 1] == nodes[|s.before| + 1]
    ensures Step(s).before == s.before ==>
      if |Step(s).tail| < |s.tail| then after == Without(nodes, |s.before|) && old(region.next).Value() == s.tail[0]
      else after == nodes
    ensures old(region.next) == nodes[|s.before| + 1]
    ensures Step(s).before == s.before ==> old(region.next).next == old(region.next.next)
  {
    cursor, after := region, nodes;
    AtParts(s, nodes, region);
    StepIsOneEdit(s);
    assert s.tail[0].Fits();
    if !MoreRestrictive(region.next.ty, region.ty) {
      var nextLimitRight := region.next.base + region.next.size;
      if nextLimitRight <= limitRight {
        after := DropNext(region, after, s);
        assert Step(s) == Dropped(s);
      } else {
        TrimNext(region, limitRight, after, s);
        assert Step(s) == Trimmed(s);
      }
    } else {
      assert limitRight > s.tail[0].End() by {
        StepWellFormed(s);
      }
      CutShort(region, after, s);
      AtParts(Cut(s), after, region);
      if limitRight > region.next.base + region.next.size {
        cursor, after := SplitAfterNext(region, limitRight, after, Cut(s));
      }
      assert Step(s) == Split(Cut(s));
    }
  }

  lemma AtEntry(nodes: seq<Node>, start: Node)
    requires Linked(nodes) && nodes != [] && nodes[0] == start
    ensures At(Entering([], Values(nodes)), nodes, start)
  {
  }

  lemma AtDone(s: Fixing, nodes: seq<Node>, region: Node)
    requires At(s, nodes, region) && Ready(s) && !s.Looping()
    ensures Linked(nodes) && |s.before| < |nodes| && nodes[|s.before|] == region && AllFit(Values(nodes))
    ensures |s.before| + 1 < |nodes| ==> region.Value().End() <= nodes[|s.before| + 1].base
    ensures Fix(s) == Values(nodes)[..|s.before|] + PadRight(Values(nodes)[|s.before|], Values(nodes)[|s.before| + 1..])
  {
    AtParts(s, nodes, region);
    assert AllFit(s.before + [s.cur] + s.tail);
  }

  lemma ReadyLimit(s: Fixing)
    requires Ready(s)
    ensures s.cur.Fits() && s.limit == s.cur.End() < LIMIT64
  {
  }

  // What the node behind the start of `fix_right` leads to, whether or not the start is in the list.

  /** Nodes the loop dropped from behind its start: each still points at the next, the last one at what follows
      the start. */
  ghost predicate Trail(dropped: seq<Node>, nodes: seq<Node>)
    reads dropped
  {
    && LinkedExcept(dropped, |dropped| - 1)
    && (dropped != [] ==> dropped[|dropped| - 1].next == if |nodes| > 1 then nodes[1] else null)
    && forall n :: n in dropped ==> n !in nodes
  }

  function First(nodes: seq<Node>): Node? {
    if nodes == [] then null else nodes[0]
  }

  lemma LinkedNexts(nodes: seq<Node>)
    requires Linked(nodes)
    ensures forall i :: 0 <= i < |nodes| ==> nodes[i].next == Successor(nodes, i)
    ensures forall i, j :: 0 <= i < j < |nodes| ==> nodes[i] != nodes[j]
  {
  }

  lemma FarApart(nodes: seq<Node>)
    requires Linked(nodes) && |nodes| > 1
    ensures nodes[0] !in nodes[2..] && nodes[1] !in nodes[2..]
    ensures Linked(nodes[2..]) && Values(nodes[2..]) == Values(nodes)[2..]
  {
    LinkedSuffix(nodes, 2);
  }

  lemma SecondLink(nodes: seq<Node>)
    requires Linked(nodes) && |nodes| > 1
    ensures nodes[1].next == Successor(nodes, 1)
    ensures forall i, j :: 0 <= i < j < |nodes| ==> nodes[i] != nodes[j]
  {
  }

  /** Writing to the first two nodes, but not to the second one's link, keeps the list behind the first. */
  lemma SuffixLinked(nodes: seq<Node>, was: seq<Region>, second: Region)
    requires |nodes| > 1 && nodes[1] !in nodes[2..]
    requires nodes[1].next == Successor(nodes, 1) && nodes[1].Value() == second
    requires |was| == |nodes| && Linked(nodes[2..]) && Values(nodes[2..]) == was[2..]
    ensures Linked(nodes[1..]) && Values(nodes[1..]) == [second] + was[1..][1..]
  {
    var far := nodes[2..];
    assert nodes[1..] == [nodes[1]] + far;
    LinkedConcat([nodes[1]], far);
  }

  lemma NoTrail(nodes: seq<Node>)
    ensures Trail([], nodes) && Values([]) == []
  {
  }

  /** What will be reached from behind the start: while the cursor is there, what `Behind` says; after a split,
      the list itself. */
  function Reached(s: Fixing): seq<Region>
    requires Ready(s)
  {
    if s.before == [] then Behind(Below(s.tail, s.limit), s) else Fix(s)[1..]
  }

  predicate Drops(s: Fixing)
    requires s.Looping()
  {
    s.before == [] == Step(s).before && |Step(s).tail| < |s.tail|
  }

  lemma ReachedStep(s: Fixing)
    requires Ready(s) && s.Looping()
    ensures Ready(Step(s)) && Reached(s) == (if Drops(s) then [s.tail[0]] else []) + Reached(Step(s))
  {
    StepWellFormed(s);
    hide Behind, Fix;
    if s.before == [] && Step(s).before != [] {
      ReachedSplit(s);
    } else if s.before == [] {
      BehindStay(s, Below(Step(s).tail, s.limit));
    } else {
      StepReady(s);
    }
  }

  lemma BehindStay(s: Fixing, m: nat)
    requires s.Looping() && s.before == [] == Step(s).before
    ensures Behind(m + 1, s) == (if Drops(s) then [s.tail[0]] else []) + Behind(m, Step(s))
  {
    hide Run, Finish;
  }

  lemma ReachedSplit(s: Fixing)
    requires Ready(s) && s.Looping() && s.before == [] != Step(s).before
    ensures Ready(Step(s)) && Reached(s) == Fix(Step(s))[1..]
  {
    StepWellFormed(s);
    var t := Step(s);
    var rest := Finish(Run(Below(t.tail, t.limit), t.(before := [])));
    BehindSplit(s, Below(t.tail, t.limit));
    assert Ready(t);
    hide Step, Behind, Fixing.Looping, Run, Finish, Fix, Ready;
    FixInFront(t);
    assert (t.before + rest)[1..] == [s.tail[0]] + rest;
  }

  lemma BehindSplit(s: Fixing, m: nat)
    requires s.Looping() && s.before == [] != Step(s).before
    ensures Step(s).before == [s.cur.(size := s.tail[0].base - s.cur.base), s.tail[0]]
    ensures Behind(m + 1, s) == [s.tail[0]] + Finish(Run(m, Step(s).(before := [])))
  {
    hide Run;
  }

  lemma FixInFront(t: Fixing)
    requires Ready(t)
    ensures Ready(t.(before := [])) && Fix(t) == t.before + Finish(Run(Below(t.tail, t.limit), t.(before := [])))
  {
    hide Run;
    var u := t.(before := []);
    BehindReady(t);
    FixIsRun(u);
    assert t == u.(before := t.before + u.before);
    FixBehind(t.before, u);
  }

  lemma TrailOn(dropped: seq<Node>, nodes: seq<Node>, after: seq<Node>)
    requires |nodes| > 1 && after == Without(nodes, 0) && nodes[1].next == Successor(nodes, 1)
    requires forall i, j :: 0 <= i < j < |nodes| ==> nodes[i] != nodes[j]
    requires Trail(dropped, nodes)
    ensures Trail(dropped + [nodes[1]], after)
    ensures Values(dropped + [nodes[1]]) == Values(dropped) + [nodes[1].Value()]
  {
    var trail := dropped + [nodes[1]];
    assert forall i :: 0 <= i < |dropped| ==> dropped[i] in dropped;
    assert nodes[1] in nodes;
  }

  /** The padding behind the loop, and the list behind the start after it. */
  method PadAndLook(region: Node, ghost last: seq<Node>, ghost s: Fixing)
    returns (ghost after: seq<Node>, ghost rest: seq<Node>)
    requires At(s, last, region) && Ready(s) && !s.Looping()
    modifies {region, region.next}
    ensures Linked(after) && after != [] && after[0] == last[0] && Values(after) == Fix(s)
    ensures forall n :: n in after ==> n in last || fresh(n)
    ensures rest == if s.before == [] then last[1..] else after[1..]
    ensures Linked(rest) && Values(rest) == Reached(s) && First(rest) == First(last[1..])
    ensures s.before == [] && |last| > 1 ==>
      if s.cur.ty == s.tail[0].ty then
        after == Without(last, 0) && Linked(last[1..]) && Values(last[1..]) == old(Values(last))[1..]
      else after == last || (|after| == |last| + 1 && after[2..] == last[1..])
  {
    hide Linked, LinkedExcept, Fix, Ready, Reached;
    AtParts(s, last, region);
    AtDone(s, last, region);
    ghost var c, was := |s.before|, Values(last);
    ValuesAt(last);
    ghost var far := if |last| > 1 then last[2..] else [];
    if |last| > 1 {
      FarApart(last);
    }
    hide Values;
    assert region.next != null ==> region.next == last[c + 1];
    after := AddPaddingRight(region, last, c);
    assert c == 0 && |last| > 1 ==> Linked(far) && Values(far) == was[2..];
    rest := RestAfterPadding(last, after, s, was);
  }

  /** The padding behind the loop, with what is then reached from behind the start. */
  method PadTracked(region: Node, ghost last: seq<Node>, ghost s: Fixing, ghost dropped: seq<Node>)
    returns (ghost after: seq<Node>, ghost behind: seq<Node>)
    requires At(s, last, region) && Ready(s) && !s.Looping() && Trail(dropped, last)
    modifies {region, region.next}
    ensures Linked(after) && after != [] && after[0] == last[0] && Values(after) == Fix(s)
    ensures forall n :: n in after ==> n in last || fresh(n)
    ensures Linked(behind) && Values(behind) == old(Values(dropped)) + Reached(s)
    ensures First(behind) == First(dropped + last[1..])
    ensures forall n :: n in behind ==> n in dropped || n in last || fresh(n)
    ensures s.before == [] && |last| > 1 ==>
      if s.cur.ty == s.tail[0].ty then
        after == Without(last, 0) && Linked(last[1..]) && Values(last[1..]) == old(Values(last))[1..]
      else after == last || (|after| == |last| + 1 && after[2..] == last[1..])
  {
    hide Linked, LinkedExcept, Fix, Ready, Reached;
    AtParts(s, last, region);
    ghost var rest;
    after, rest := PadAndLook(region, last, s);
    assert Values(dropped) == old(Values(dropped));
    behind := dropped + rest;
    LinkedConcat(dropped, rest);
  }

  /** The list behind the start after the padding: padded too when the start is still under the cursor, otherwise the
      list itself. */
  lemma RestAfterPadding(last: seq<Node>, after: seq<Node>, s: Fixing, was: seq<Region>) returns (rest: seq<Node>)
    requires Ready(s) && !s.Looping() && was == s.before + [s.cur] + s.tail && |last| == |was|
    requires Linked(after) && Values(after) == Fix(s) && |s.before| < |after|
    requires after[..|s.before| + 1] == last[..|s.before| + 1]
    requires |last| > 1 ==> last[1] !in last[2..]
    requires s.before == [] && |last| > 1 ==>
      last[1].Value() == Widened(was[0], was[1]) && last[1].next == Successor(last, 1)
    requires s.before == [] && |last| > 1 ==> Linked(last[2..]) && Values(last[2..]) == was[2..]
    ensures rest == if s.before == [] then last[1..] else after[1..]
    ensures Linked(rest) && Values(rest) == Reached(s) && First(rest) == First(last[1..])
    ensures s.before == [] && |last| > 1 && s.cur.ty == s.tail[0].ty ==> Values(last[1..]) == was[1..]
  {
    hide Linked, LinkedExcept, Fix, Ready, Values;
    if s.before != [] {
      rest := after[1..];
      LinkedSuffix(after, 1);
      assert after[..|s.before| + 1][1] == after[1] == last[1];
    } else if |last| > 1 {
      rest := last[1..];
      SuffixLinked(last, was, Widened(was[0], was[1]));
      assert was[1..][1..] == s.tail[1..] && was[1] == s.tail[0];
    } else {
      rest := [];
      NoTrail(last);
      assert Linked([]) by {
        NoNodes();
      }
    }
  }

  lemma NoNodes()
    ensures Linked([])
  {
  }

  /** A pass of the loop, with the trail behind its start. */
  method FixTracked(region: Node, limitRight: U64, ghost nodes: seq<Node>, ghost s: Fixing, ghost dropped: seq<Node>)
    returns (cursor: Node, ghost after: seq<Node>, ghost trail: seq<Node>)
    requires At(s, nodes, region) && s.limit == limitRight && s.Looping() && Ready(s) && Trail(dropped, nodes)
    modifies {region, region.next}
    ensures At(Step(s), after, cursor) && Ready(Step(s)) && after != [] && nodes[0] == after[0] && Trail(trail, after)
    ensures forall n :: n in after ==> n in nodes || fresh(n)
    ensures forall n :: n in trail ==> n in dropped || n in nodes
    ensures Values(trail) + Reached(Step(s)) == old(Values(dropped)) + Reached(s)
    ensures First(trail + after[1..]) == First(dropped + nodes[1..])
  {
    hide Linked, Reached, Ready;
    AtParts(s, nodes, region);
    ReachedStep(s);
    SecondLink(nodes);
    trail := dropped;
    cursor, after := FixOnce(region, limitRight, nodes, s);
    assert Values(dropped) == old(Values(dropped));
    if Drops(s) {
      trail := dropped + [nodes[1]];
      TrailOn(dropped, nodes, after);
    } else {
      assert |after| > 1 && after[1] == nodes[1];
    }
  }

  /** `fix_right`. The list from `start` is fixed as specified, and so is the list from the node behind it, for a
      caller whose list no longer holds `start`. */
  method FixRight(start: Node?, ghost nodes: seq<Node>) returns (ghost after: seq<Node>, ghost behind: seq<Node>)
    requires start == null ==> nodes == []
    requires start != null ==> Linked(nodes) && nodes != [] && nodes[0] == start
    requires start != null ==> Ready(Entering([], Values(nodes)))
    modifies nodes
    ensures start == null ==> after == []
    ensures start != null ==> Linked(after) && after != [] && after[0] == start
    ensures start != null ==> Values(after) == Fix(Entering([], old(Values(nodes))))
    ensures forall n :: n in after ==> n in nodes || fresh(n)
    ensures |nodes| > 1 ==> Linked(behind) && First(behind) == nodes[1]
    ensures |nodes| > 1 ==> Values(behind) == Reached(Entering([], old(Values(nodes))))
    ensures forall n :: n in behind ==> n in nodes || fresh(n)
    ensures var was := old(Values(nodes)); |was| > 1 && was[0].End() <= was[1].base ==>
      if was[0].ty == was[1].ty then after == Without(nodes, 0) && Linked(nodes[1..]) && Values(nodes[1..]) == was[1..]
      else after == nodes || (|after| == |nodes| + 1 && after[2..] == nodes[1..])
  {
    hide Linked, LinkedExcept, At, Fix, Ready, Below, Step, Reached, Trail, WidenHead;
    after, behind := nodes, [];
    if start == null {
      return;
    }
    var region: Node := start;
    ghost var entry := Entering([], Values(nodes));
    ghost var s := entry;
    AtEntry(nodes, start);
    ReadyLimit(s);
    var limitRight := region.base + region.size;
    ghost var dropped: seq<Node> := [];
    NoTrail(nodes);
    while region.next != null && limitRight > region.next.base
      invariant At(s, after, region) && after != [] && after[0] == start && s.limit == limitRight
      invariant Ready(s) && Fix(s) == Fix(entry)
      invariant forall n :: n in after ==> n in nodes || fresh(n)
      invariant forall n :: n in dropped ==> n in nodes || fresh(n)
      invariant !entry.Looping() ==> s == entry && after == nodes && dropped == []
      invariant !entry.Looping() ==> Values(nodes) == old(Values(nodes))
      invariant Trail(dropped, after) && Values(dropped) + Reached(s) == Reached(entry)
      invariant First(dropped + after[1..]) == First(nodes[1..])
      decreases Below(s.tail, s.limit)
    {
      AtParts(s, after, region);
      StepReady(s);
      region, after, dropped := FixTracked(region, limitRight, after, s, dropped);
      s := Step(s);
    }
    AtParts(s, after, region);
    ghost var last := after;
    label padding:
    after, behind := PadTracked(region, last, s, dropped);
    forall n | n in after || n in behind ensures n in nodes || fresh(n) {
      assert n in last || n in dropped || fresh@padding(n);
    }
  }

  lemma LinkedSuffix(nodes: seq<Node>, k: nat)
    requires Linked(nodes) && k <= |nodes|
    ensures Linked(nodes[k..]) && Values(nodes[k..]) == Values(nodes)[k..]
    ensures LinkedExcept(nodes[..k], k - 1) && Values(nodes[..k]) == Values(nodes)[..k]
    ensures k > 0 ==> nodes[k - 1].next == if k < |nodes| then nodes[k] else null
    ensures forall n :: n in nodes[..k] ==> n !in nodes[k..]
  {
  }

  lemma LinkedConcat(xs: seq<Node>, ys: seq<Node>)
    requires LinkedExcept(xs, |xs| - 1) && Linked(ys)
    requires xs != [] ==> xs[|xs| - 1].next == if ys == [] then null else ys[0]
    requires forall n :: n in xs ==> n !in ys
    ensures Linked(xs + ys) && Values(xs + ys) == Values(xs) + Values(ys)
  {
    var r := xs + ys;
    forall i, j | 0 <= i < j < |r| ensures r[i] != r[j] {
      if i < |xs| <= j {
        assert xs[i] in xs && ys[j - |xs|] in ys;
      }
    }
    forall i {:trigger r[i].next} | 0 <= i < |r| ensures r[i].next == Successor(r, i) {
      if i >= |xs| {
        assert r[i] == ys[i - |xs|];
      }
    }
  }

  // ----- an insertion behind the head, on values -----

  lemma WovenFits(was: seq<Region>, value: Region, k: nat)
    requires AllFit(was) && value.Fits() && k <= |was|
    ensures AllFit(Woven(was, value, k)) && |Woven(was, value, k)| == |was| + 1
    ensures forall i :: 0 <= i <= |was| ==> AllFit(Woven(was, value, k)[i..])
  {
  }

  /** The first fix only pads between its two nodes. */
  lemma FirstFix(was: seq<Region>, value: Region, k: nat)
    requires AllFit(was) && value.Fits() && 2 <= k <= |was| && was[k - 2].End() <= was[k - 1].base
    ensures var all := Woven(was, value, k);
      && Ready(Entering([], all[k - 2..])) && |all| == |was| + 1
      && all[k - 2] == was[k - 2] && all[k - 1] == was[k - 1]
      && all[..k - 2] + Fix(Entering([], all[k - 2..])) == Fronted(was, k) + [value] + was[k..]
  {
    WovenFits(was, value, k);
    WovenSlices(was, value, k);
    var s := Entering([], Woven(was, value, k)[k - 2..]);
    hide Woven;
    assert s.tail == [was[k - 1]] + ([value] + was[k..]) && s.tail[1..] == [value] + was[k..];
    assert was[k - 2].Fits();
    FixUnentered(s);
    hide Fix, Ready, Padded;
    assert was[..k - 2] + ([] + (Padded(s.cur, s.tail[0]) + s.tail[1..]))
           == was[..k - 2] + Padded(s.cur, s.tail[0]) + ([value] + was[k..]);
  }

  lemma WovenSlices(was: seq<Region>, value: Region, k: nat)
    requires 2 <= k <= |was|
    ensures var all := Woven(was, value, k);
      all[..k - 2] == was[..k - 2] && all[k - 2..] == [was[k - 2], was[k - 1]] + ([value] + was[k..])
  {
  }

  lemma FixUnentered(s: Fixing)
    requires AllFit(s.before) && s.cur.Fits() && AllFit(s.tail) && s.cur.End() == s.limit && !s.Looping()
    ensures Ready(s) && Fix(s) == s.before + PadRight(s.cur, s.tail)
  {
  }

  /** The node the last fix starts from. */
  function Before(was: seq<Region>, k: nat): Region
    requires 1 <= k <= |was|
  {
    if Twins(was, k) then was[k - 1] else Fronted(was, k)[|Fronted(was, k)| - 1]
  }

  /** The last fix, from its start on, is the rest of the insertion. */
  lemma SecondFix(was: seq<Region>, value: Region, k: nat)
    requires CanInsert(was, value) && value.size > 0 && 1 <= k == Passed(was, value.base)
    ensures var s := Entering([], [Before(was, k)] + ([value] + was[k..]));
      && Ready(s)
      && Inserted(was, value) ==
         if Twins(was, k) then Fronted(was, k) + Reached(s) else Fronted(was, k)[..|Fronted(was, k)| - 1] + Fix(s)
  {
    hide Passed, Fronted, Fix, Behind, Run;
    var t, s := LastFix(was, value), Entering([], [Before(was, k)] + ([value] + was[k..]));
    assert s.tail == [value] + was[k..];
    BehindReady(t);
    assert s == t.(before := []);
    if !Twins(was, k) {
      FixIsRun(t);
      assert t == s.(before := t.before + s.before);
      FixBehind(t.before, s);
    }
  }

  lemma BehindReady(s: Fixing)
    requires Ready(s)
    ensures Ready(s.(before := []))
  {
  }

  /** The caller's `sysinfo_memregion_t *mem_regions`, passed by address. */
  class RegionMap {
    var head: Node?
    ghost var nodes: seq<Node>

    constructor ()
      ensures Valid() && Regions() == [] && nodes == []
    {
      head, nodes := null, [];
    }

    ghost predicate Valid()
      reads this, nodes
    {
      Linked(nodes) && head == if nodes == [] then null else nodes[0]
    }

    ghost function Regions(): seq<Region>
      reads this, nodes
    {
      Values(nodes)
    }

    /** `fix_right` on a node: the first one behind `front`, or, when detached, one that is no longer in the list
        and points at it. */
    method FixFrom(start: Node, ghost front: seq<Node>, ghost back: seq<Node>, ghost detached: bool)
      returns (ghost after: seq<Node>)
      requires Linked(back) && First(back) == start && Ready(Entering([], Values(back)))
      requires LinkedExcept(front, |front| - 1) && forall n :: n in front ==> n !in back
      requires detached ==> |back| > 1 && front != []
      requires front != [] ==> front[|front| - 1].next == if detached then back[1] else start
      requires head == if front == [] then start else front[0]
      modifies this`nodes, back
      ensures Valid()
      ensures var s := Entering([], old(Values(back)));
        Regions() == old(Values(front)) + if detached then Reached(s) else Fix(s)
      ensures forall n :: n in nodes ==> n in front || n in back || fresh(n)
      ensures !detached ==> nodes == front + after
      ensures var was := old(Values(back)); |was| > 1 && was[0].End() <= was[1].base ==>
        if was[0].ty == was[1].ty then after == Without(back, 0) && Linked(back[1..]) && Values(back[1..]) == was[1..]
        else after == back || (|after| == |back| + 1 && after[2..] == back[1..])
    {
      hide Ready, Fix, Entering, Reached, Linked, LinkedExcept, Values;
      ghost var was := Values(front);
      assert forall i :: 0 <= i < |front| ==> front[i] in front && front[i] !in back;
      ghost var behind;
      after, behind := FixRight(start, back);
      assert Values(front) == was;
      ghost var tail := if detached then behind else after;
      nodes := front + tail;
      LinkedConcat(front, tail);
    }

    static lemma EnteringHead(was: seq<Region>, value: Region)
      requires value.size > 0 && CanInsert(was, value) && Passed(was, value.base) == 0
      ensures var s := Entering([], [value] + was); Ready(s) && Fix(s) == Inserted(was, value)
    {
      hide Ready, Fix;
      InsertedSettled(was, value);
      assert ([value] + was)[1..] == was;
    }

    static lemma Alone(value: Region)
      requires Ready(Entering([], [value] + []))
      ensures Fix(Entering([], [value] + [])) == [value]
    {
    }

    /** The insertion that passed no node. */
    method Prepend(region: Node)
      requires Valid() && region !in nodes && region.size > 0 && CanInsert(Regions(), region.Value())
      requires Passed(Regions(), region.base) == 0
      modifies this, nodes, region
      ensures Valid() && Regions() == Inserted(old(Regions()), old(region.Value()))
      ensures forall n :: n in nodes ==> n in old(nodes) || n == region || fresh(n)
    {
      ghost var was, value := Regions(), region.Value();
      EnteringHead(was, value);
      hide CanInsert, Inserted, Ready, Fix, Entering, Passed;
      if head == null {
        head := region;
        head.next := null;
        nodes := [region];
        Alone(value);
      } else {
        ghost var back := [region] + nodes;
        region.next := head;
        head := region;
        LinkedConcat([region], nodes);
        assert Values(back) == [value] + was;
        var _ := FixFrom(head, [], back, false);
      }
    }

    /** The insertion behind `prev`, the last of the `k` nodes passed. */
    method InsertAfter(prev2: Node?, prev: Node, region: Node, current: Node?, ghost k: nat)
      requires Valid() && region !in nodes && region.size > 0 && CanInsert(Regions(), region.Value())
      requires 1 <= k == Passed(Regions(), region.base) && prev == nodes[k - 1]
      requires current == if k < |nodes| then nodes[k] else null
      requires prev2 == if k >= 2 then nodes[k - 2] else null
      modifies this, nodes, region
      ensures Valid() && Regions() == Inserted(old(Regions()), old(region.Value()))
      ensures forall n :: n in nodes ==> n in old(nodes) || n == region || fresh(n)
    {
      hide Ready, Fix, Inserted, LastFix, Entering, Values, Linked, LinkedExcept, Woven, Passed;
      ghost var was, value := Regions(), region.Value();
      ValuesAt(nodes);
      assert prev in nodes;
      Weave(prev, region, current, k);
      ghost var woven := nodes;
      assert forall i :: 0 <= i < |woven| ==> woven[i] in woven && (woven[i] in old(nodes) || woven[i] == region);
      assert woven[k - 1] == woven[..k][k - 1] && (k >= 2 ==> woven[k - 2] == woven[..k][k - 2]);
      label fixing:
      FixBoth(prev2, prev, k, was, value);
      forall n | n in nodes ensures n in old(nodes) || n == region || fresh(n) {
        assert n in woven || fresh@fixing(n);
      }
    }

    /** After the first fix: the list up to the predecessor of the new node, and the list from it on, which holds it
        or, after a merge, only hangs on it. */
    ghost predicate Parted(front: seq<Node>, back: seq<Node>, was: seq<Region>, value: Region, k: nat)
      requires 1 <= k <= |was|
      reads this, front, back
    {
      && Linked(back) && |back| > 1 && Values(back) == [Before(was, k)] + ([value] + was[k..])
      && LinkedExcept(front, |front| - 1) && (forall n :: n in front ==> n !in back)
      && (front != [] ==> front[|front| - 1].next == if Twins(was, k) then back[1] else back[0])
      && Values(front) == (if Twins(was, k) then Fronted(was, k) else Fronted(was, k)[..|Fronted(was, k)| - 1])
      && head == if front == [] then back[0] else front[0]
    }

    lemma PartedBehindTwins(front: seq<Node>, back: seq<Node>, was: seq<Region>, value: Region, k: nat)
      requires Linked(nodes) && head == First(nodes) && Twins(was, k) && |back| > 1 && front != []
      requires nodes == front + back[1..] && Linked(back) && (forall n :: n in front ==> n !in back)
      requires Values(back) == [was[k - 1]] + ([value] + was[k..]) && |front| == k - 1
      requires Values(nodes) == Fronted(was, k) + [value] + was[k..]
      ensures Parted(front, back, was, value, k)
    {
      LinkedSuffix(nodes, k - 1);
      assert nodes[..k - 1] == front && nodes[k - 1] == back[1];
      assert |Fronted(was, k)| == k - 1;
    }

    lemma PartedInList(j: nat, was: seq<Region>, value: Region, k: nat)
      requires Linked(nodes) && head == First(nodes) && !Twins(was, k) && 2 <= k <= |was|
      requires j + 1 == |Fronted(was, k)| && Values(nodes) == Fronted(was, k) + [value] + was[k..]
      ensures j < |nodes| && Parted(nodes[..j], nodes[j..], was, value, k)
    {
      hide Linked, LinkedExcept, Values, Fronted;
      ValuesAt(nodes);
      LinkedSuffix(nodes, j);
      WovenTail(was, value, k);
    }

    /** `fix_right` on the node before the predecessor; `before` is the list up to that node. */
    method FixFirst(prev2: Node, ghost before: seq<Node>, ghost from: seq<Node>, ghost k: nat, ghost was: seq<Region>,
                    ghost value: Region)
      returns (ghost front: seq<Node>, ghost back: seq<Node>)
      requires 2 <= k <= |was| && |before| == k - 2 && |from| > 2 && from[0] == prev2 && Linked(from)
      requires LinkedExcept(before, |before| - 1) && forall n :: n in before ==> n !in from
      requires before != [] ==> before[|before| - 1].next == prev2
      requires head == if before == [] then prev2 else before[0]
      requires AllFit(was) && value.Fits() && was[k - 2].End() <= was[k - 1].base
      requires Values(before) == Woven(was, value, k)[..k - 2] && Values(from) == Woven(was, value, k)[k - 2..]
      modifies this`nodes, from
      ensures Parted(front, back, was, value, k) && First(back) == from[1]
      ensures forall i :: 0 <= i < |back| ==> back[i] in from || back[i] in before || fresh(back[i])
      ensures forall i :: 0 <= i < |front| ==> front[i] in from || front[i] in before || fresh(front[i])
    {
      hide Ready, Fix, Entering, Values, Reached, Parted, LinkedExcept, Woven, Fronted;
      FirstFix(was, value, k);
      LinkedNexts(from);
      ValuesAt(from);
      hide Linked;
      var after := FixFrom(prev2, before, from, false);
      front, back := Parting(before, from, after, was, value, k);
    }

    /** The two lists after the first fix. */
    lemma Parting(before: seq<Node>, from: seq<Node>, after: seq<Node>, was: seq<Region>, value: Region, k: nat)
      returns (front: seq<Node>, back: seq<Node>)
      requires 2 <= k <= |was| && |before| == k - 2 && |from| == |was| - k + 3
      requires forall i, j :: 0 <= i < j < |from| ==> from[i] != from[j]
      requires forall n :: n in before ==> n !in from
      requires Linked(nodes) && head == First(nodes) && nodes == before + after
      requires Values(nodes) == Fronted(was, k) + [value] + was[k..]
      requires if Twins(was, k) then
          after == Without(from, 0) && Linked(from[1..]) && Values(from[1..]) == Woven(was, value, k)[k - 2..][1..]
        else after == from || (|after| == |from| + 1 && after[2..] == from[1..])
      ensures Parted(front, back, was, value, k) && First(back) == from[1]
      ensures forall i :: 0 <= i < |back| ==> back[i] in from || back[i] in nodes
      ensures forall i :: 0 <= i < |front| ==> front[i] in nodes
    {
      hide Values, Parted, LinkedExcept, Woven, Linked;
      WovenTail(was, value, k);
      if Twins(was, k) {
        front, back := before + [from[0]], from[1..];
        PastTwin(before, from);
        PartedBehindTwins(front, back, was, value, k);
      } else {
        hide Fronted;
        ValuesAt(nodes);
        var j := |Fronted(was, k)| - 1;
        PartedInList(j, was, value, k);
        front, back := nodes[..j], nodes[j..];
        PredecessorKept(before, from, after, j);
      }
    }

    lemma PastTwin(before: seq<Node>, from: seq<Node>)
      requires |from| > 2 && (forall i, j :: 0 <= i < j < |from| ==> from[i] != from[j])
      requires forall n :: n in before ==> n !in from
      ensures before + Without(from, 0) == before + [from[0]] + from[1..][1..]
      ensures forall n :: n in before + [from[0]] ==> n !in from[1..]
    {
    }

    lemma PredecessorKept(before: seq<Node>, from: seq<Node>, after: seq<Node>, j: nat)
      requires |from| > 2 && j < |nodes| && |nodes| - j == |from| - 1 && nodes == before + after
      requires after == from || (|after| == |from| + 1 && after[2..] == from[1..])
      ensures nodes[j..][0] == from[1]
    {
      if after != from {
        assert after[2..][0] == from[1..][0];
      }
    }

    static lemma WovenTail(was: seq<Region>, value: Region, k: nat)
      requires 2 <= k <= |was|
      ensures Woven(was, value, k)[k - 2..][1..] == [was[k - 1]] + ([value] + was[k..])
      ensures var f := |Fronted(was, k)|;
        (Fronted(was, k) + [value] + was[k..])[f - 1..] == [Fronted(was, k)[f - 1]] + ([value] + was[k..])
    {
    }

    lemma OnlyOneBefore(was: seq<Region>, value: Region)
      requires Valid() && was != [] && Regions() == Woven(was, value, 1)
      ensures nodes != [] && Parted([], nodes, was, value, 1)
    {
      ValuesAt(nodes);
      assert Fronted(was, 1)[..0] == [] && was[..1] == [was[0]];
    }

    static lemma PartsOf(ns: seq<Node>, k: nat)
      requires k <= |ns|
      ensures forall i :: 0 <= i < |ns[..k]| ==> ns[..k][i] in ns
      ensures forall i :: 0 <= i < |ns[k..]| ==> ns[k..][i] in ns
    {
    }

    /** `fix_right` on the node before the predecessor, if there is one. */
    method FixBefore(prev2: Node?, ghost k: nat, ghost was: seq<Region>, ghost value: Region)
      returns (ghost front: seq<Node>, ghost back: seq<Node>)
      requires Valid() && 1 <= k < |nodes| && prev2 == if k >= 2 then nodes[k - 2] else null
      requires AllFit(was) && value.Fits() && k <= |was| && (k >= 2 ==> was[k - 2].End() <= was[k - 1].base)
      requires Regions() == Woven(was, value, k)
      modifies this`nodes, nodes
      ensures Parted(front, back, was, value, k) && First(back) == old(nodes[k - 1])
      ensures forall i :: 0 <= i < |back| ==> back[i] in old(nodes) || fresh(back[i])
      ensures forall i :: 0 <= i < |front| ==> front[i] in old(nodes) || fresh(front[i])
    {
      hide Parted, Woven, Fronted, Reached;
      front, back := [], nodes;
      if prev2 != null {
        ghost var before, from := nodes[..k - 2], nodes[k - 2..];
        ValuesAt(nodes);
        LinkedSuffix(nodes, k - 2);
        FirstFix(was, value, k);
        hide Values, Linked, LinkedExcept;
        PartsOf(nodes, k - 2);
        front, back := FixFirst(prev2, before, from, k, was, value);
      } else {
        OnlyOneBefore(was, value);
      }
    }

    /** `fix_right` on the node before `prev` and then on `prev`, which the first call may have taken out. */
    method FixBoth(prev2: Node?, prev: Node, ghost k: nat, ghost was: seq<Region>, ghost value: Region)
      requires Valid() && 1 <= k < |nodes| && nodes[k - 1] == prev && prev2 == if k >= 2 then nodes[k - 2] else null
      requires CanInsert(was, value) && value.size > 0 && k == Passed(was, value.base)
      requires Regions() == Woven(was, value, k)
      modifies this`nodes, nodes
      ensures Valid() && Regions() == Inserted(was, value)
      ensures forall n :: n in nodes ==> n in old(nodes) || fresh(n)
    {
      hide Inserted, LastFix, Reached, Fix, Ready, Values, Linked, LinkedExcept, Passed, Entering;
      var front, back := FixBefore(prev2, k, was, value);
      SecondFix(was, value, k);
      ValuesAt(front);
      label fixing:
      var _ := FixFrom(prev, front, back, Twins(was, k));
      forall n | n in nodes ensures n in old(nodes) || fresh(n) {
        assert n in front || n in back || fresh@fixing(n);
      }
    }

    method Weave(prev: Node, region: Node, current: Node?, ghost k: nat)
      requires Valid() && region !in nodes && 1 <= k <= |nodes| && prev == nodes[k - 1]
      requires current == if k < |nodes| then nodes[k] else null
      modifies this`nodes, prev`next, region`next
      ensures Valid() && Regions() == Woven(old(Regions()), old(region.Value()), k)
      ensures |nodes| == old(|nodes|) + 1 && nodes[..k] == old(nodes[..k])
      ensures forall n :: n in nodes ==> n in old(nodes) || n == region
    {
      region.next := current;
      prev.next := region;
      assert Values(nodes) == old(Values(nodes));
      Link(nodes, k - 1, region);
      nodes := With(nodes, k - 1, region);
    }

    /** `insert_sorted` */
    method InsertSorted(region: Node?)
      requires Valid() && (region != null ==> region !in nodes && CanInsert(Regions(), region.Value()))
      modifies this, nodes, region
      ensures Valid()
      ensures region == null ==> Regions() == old(Regions())
      ensures region != null ==> Regions() == Inserted(old(Regions()), old(region.Value()))
      ensures forall n :: n in nodes ==> n in old(nodes) || n == region || fresh(n)
    {
      if region == null || region.size == 0 {
        return;
      }
      var prev2, prev, current, k := FindPlace(region.base);
      if prev == null {
        Prepend(region);
      } else {
        InsertAfter(prev2, prev, region, current, k);
      }
    }

    /** The walk of `insert_sorted` past the nodes that start below `base`. */
    method FindPlace(base: U64) returns (prev2: Node?, prev: Node?, current: Node?, ghost k: nat)
      requires Valid()
      ensures k == Passed(Regions(), base) && k <= |nodes|
      ensures current == (if k < |nodes| then nodes[k] else null)
      ensures prev == if k >= 1 then nodes[k - 1] else null
      ensures prev2 == if k >= 2 then nodes[k - 2] else null
    {
      ghost var was := Regions();
      PassedSplits(was, base);
      ValuesAt(nodes);
      LinkedNexts(nodes);
      hide Linked, Passed, Values;
      prev2, prev, current := null, null, head;
      k := 0;
      while current != null && current.base < base
        invariant k <= |nodes| && current == (if k < |nodes| then nodes[k] else null)
        invariant prev == if k >= 1 then nodes[k - 1] else null
        invariant prev2 == if k >= 2 then nodes[k - 2] else null
        invariant k <= Passed(was, base)
        decreases |nodes| - k
      {
        assert was[k] == nodes[k].Value();
        prev2 := prev;
        prev := current;
        current := current.next;
        k := k + 1;
      }
      assert k < |nodes| ==> was[k] == nodes[k].Value();
    }

    /** A node from `static_alloc`, filled in and inserted. */
    method InsertNew(base: U64, size: U64, ty: MemType, isVolatile: bool)
      requires Valid() && CanInsert(Regions(), Region(base, size, ty, isVolatile))
      modifies this, nodes
      ensures Valid() && Regions() == Inserted(old(Regions()), Region(base, size, ty, isVolatile))
      ensures forall i :: 0 <= i < |nodes| ==> nodes[i] in old(nodes) || fresh(nodes[i])
    {
      hide Valid, Regions, CanInsert, Inserted;
      var region := new Node(null, base, size, ty, isVolatile);
      label insertion:
      InsertSorted(region);
      forall i | 0 <= i < |nodes| ensures nodes[i] in old(nodes) || fresh(nodes[i]) {
        assert nodes[i] in old@insertion(nodes) || nodes[i] == region || fresh@insertion(nodes[i]);
      }
    }
  }
}
