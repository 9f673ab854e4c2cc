/** The two bump allocators of stage1/mem.c, as a state machine over every run of their operations. */
module Allocators {
  import opened Words

  const EXTENDED_STACK_BASE := 0x80000
  const EXTENDED_STACK_LIMIT := 0x40000
  const STATIC_STACK_BASE := EXTENDED_STACK_LIMIT
  const STATIC_STACK_LIMIT := 0x10000

  datatype Arena = Arena(extTop: int, staticTop: int) {
    ghost predicate InBounds() {
      0x4_0000 <= extTop <= 0x8_0000 && 0x1_0000 <= staticTop <= 0x4_0000
    }
  }

  datatype Op = Push(n: U32) | Pop(n: U32) | StaticAlloc(n: U32)

  /** One operation; None when the code panics. The pointers are compared as uint32_t. */
  function Apply(a: Arena, op: Op): Option<Arena> {
    match op
    case Push(n) =>
      if Wrap32(a.extTop - EXTENDED_STACK_LIMIT) < n then None else Some(a.(extTop := a.extTop - n))
    case Pop(n) =>
      if Wrap32(EXTENDED_STACK_BASE - a.extTop) < n then None else Some(a.(extTop := a.extTop + n))
    case StaticAlloc(n) =>
      if Wrap32(a.staticTop - STATIC_STACK_LIMIT) < n then None else Some(a.(staticTop := a.staticTop - n))
  }

  datatype Block = Block(base: int, size: int)

  /** What has been handed out and not taken back. */
  datatype Live = Live(arena: Arena, scratch: seq<Block>, statics: seq<Block>)

  /** The blocks at the given address or above: those a pop to that address leaves alone. */
  function Above(blocks: seq<Block>, top: int): seq<Block> {
    if blocks == [] then []
    else if blocks[|blocks| - 1].base >= top then blocks
    else Above(blocks[..|blocks| - 1], top)
  }

  function Track(l: Live, op: Op): Option<Live> {
    match Apply(l.arena, op)
    case None => None
    case Some(a) =>
      match op
      case Push(n) => Some(Live(a, l.scratch + [Block(a.extTop, n)], l.statics))
      case Pop(_) => Some(Live(a, Above(l.scratch, a.extTop), l.statics))
      case StaticAlloc(n) => Some(Live(a, l.scratch, l.statics + [Block(a.staticTop, n)]))
  }

  /** A run of operations up to its end or to the first panic. */
  function Trace(l: Live, ops: seq<Op>): Live
    decreases |ops|
  {
    if ops == [] || Track(l, ops[0]) == None then l else Trace(Track(l, ops[0]).value, ops[1..])
  }

  /** A stack growing down: each block ends at or below the start of the one before it. */
  ghost predicate Stacked(blocks: seq<Block>, top: int, base: int) {
    && (forall i :: 0 <= i < |blocks| ==> top <= blocks[i].base && 0 <= blocks[i].size)
    && (forall i :: 0 <= i < |blocks| ==> blocks[i].base + blocks[i].size <= base)
    && (forall i, j :: 0 <= i < j < |blocks| ==> blocks[j].base + blocks[j].size <= blocks[i].base)
  }

  ghost predicate Disciplined(l: Live) {
    && l.arena.InBounds()
    && Stacked(l.scratch, l.arena.extTop, EXTENDED_STACK_BASE)
    && Stacked(l.statics, l.arena.staticTop, STATIC_STACK_BASE)
  }

  const INITIAL := Live(Arena(EXTENDED_STACK_BASE, STATIC_STACK_BASE), [], [])

  /** What a pop leaves is a front part, up to the first block below the new top. */
  lemma {:induction false} AboveIsPrefix(blocks: seq<Block>, newTop: int)
    ensures var left := Above(blocks, newTop);
      && left <= blocks && (left != [] ==> newTop <= left[|left| - 1].base)
      && (|left| < |blocks| ==> blocks[|left|].base < newTop)
  {
    if blocks != [] && blocks[|blocks| - 1].base < newTop {
      AboveIsPrefix(blocks[..|blocks| - 1], newTop);
    }
  }

  lemma AboveStacked(blocks: seq<Block>, top: int, newTop: int, base: int)
    requires Stacked(blocks, top, base)
    ensures Stacked(Above(blocks, newTop), newTop, base) && Above(blocks, newTop) <= blocks
    ensures forall i :: 0 <= i < |blocks| && blocks[i].base >= newTop ==> i < |Above(blocks, newTop)|
  {
    hide Above;
    AboveIsPrefix(blocks, newTop);
    var left := Above(blocks, newTop);
    forall i | 0 <= i < |left| ensures newTop <= left[i].base {
      assert left[i] == blocks[i] && left[|left| - 1] == blocks[|left| - 1];
    }
    forall i | |left| <= i < |blocks| ensures blocks[i].base < newTop {
      assert blocks[|left|].base < newTop;
    }
  }

  lemma StackedOn(blocks: seq<Block>, top: int, base: int, n: nat)
    requires Stacked(blocks, top, base) && top <= base
    ensures Stacked(blocks + [Block(top - n, n)], top - n, base)
  {
  }

  lemma TrackKeepsDiscipline(l: Live, op: Op)
    requires Disciplined(l) && Track(l, op).Some?
    ensures Disciplined(Track(l, op).value)
  {
    hide Stacked, Above;
    var l' := Track(l, op).value;
    match op {
      case Push(n) => StackedOn(l.scratch, l.arena.extTop, EXTENDED_STACK_BASE, n);
      case Pop(_) => AboveStacked(l.scratch, l.arena.extTop, l'.arena.extTop, EXTENDED_STACK_BASE);
      case StaticAlloc(n) => StackedOn(l.statics, l.arena.staticTop, STATIC_STACK_BASE, n);
    }
  }

  lemma {:induction false} TraceKeepsDiscipline(l: Live, ops: seq<Op>)
    requires Disciplined(l)
    ensures Disciplined(Trace(l, ops))
    decreases |ops|
  {
    if ops != [] && Track(l, ops[0]).Some? {
      TrackKeepsDiscipline(l, ops[0]);
      TraceKeepsDiscipline(Track(l, ops[0]).value, ops[1..]);
    }
  }

  /** No comparison wraps: an operation panics exactly when its area has too little left, or too little pushed, and
      otherwise moves its own top by exactly that much. */
  lemma PanicsExactly(a: Arena, n: U32)
    requires a.InBounds()
    ensures Apply(a, Push(n)) == if a.extTop - 0x4_0000 < n then None else Some(Arena(a.extTop - n, a.staticTop))
    ensures Apply(a, Pop(n)) == if 0x8_0000 - a.extTop < n then None else Some(Arena(a.extTop + n, a.staticTop))
    ensures Apply(a, StaticAlloc(n)) ==
      if a.staticTop - 0x1_0000 < n then None else Some(Arena(a.extTop, a.staticTop - n))
  {
    WrapId(a.extTop - EXTENDED_STACK_LIMIT);
    WrapId(EXTENDED_STACK_BASE - a.extTop);
    WrapId(a.staticTop - STATIC_STACK_LIMIT);
  }

  ghost predicate Apart(b: Block, c: Block) {
    b.base + b.size <= c.base || c.base + c.size <= b.base
  }

  /** Over every run both tops stay inside their areas, and live blocks of either kind are disjoint. */
  lemma LiveBlocksDisjoint(ops: seq<Op>)
    ensures var l := Trace(INITIAL, ops);
      && l.arena.InBounds()
      && (forall i, j :: 0 <= i < j < |l.scratch| ==> Apart(l.scratch[i], l.scratch[j]))
      && (forall i, j :: 0 <= i < j < |l.statics| ==> Apart(l.statics[i], l.statics[j]))
      && (forall i, j :: 0 <= i < |l.scratch| && 0 <= j < |l.statics| ==> Apart(l.scratch[i], l.statics[j]))
  {
    TraceKeepsDiscipline(INITIAL, ops);
  }

  /** A push followed by the matching pop restores everything. */
  lemma PushPop(l: Live, n: U32)
    requires Disciplined(l) && n > 0 && Track(l, Push(n)).Some?
    ensures Track(Track(l, Push(n)).value, Pop(n)) == Some(l)
  {
    var m := Track(l, Push(n)).value;
    var k := |l.scratch|;
    assert m.scratch[..k] == l.scratch && m.scratch[k].base < l.arena.extTop;
    assert Above(m.scratch, l.arena.extTop) == Above(l.scratch, l.arena.extTop);
  }
}
