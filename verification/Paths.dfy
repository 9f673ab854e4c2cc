/** Splitting a path into its components. */
module Paths {
  import opened Words
  import opened ShortNames

  const MAX_NAME_LEN := 255
  const SLASH: U8 := 0x2F

  /** The characters before the first slash, at most `limit` of them. */
  function Piece(s: seq<U8>, limit: nat): (r: seq<U8>)
    ensures r <= s && |r| <= limit && SLASH !in r
    ensures |r| == limit || |r| == |s| || s[|r|] == SLASH
  {
    if limit == 0 || s == [] || s[0] == SLASH then [] else [s[0]] + Piece(s[1..], limit - 1)
  }

  /** The component `get_next_segment` copies out. */
  function Segment(path: seq<U8>, at: nat): seq<U8>
    requires at <= |path|
  {
    if CharAt(path, at) != SLASH then [] else Piece(path[at + 1..], MAX_NAME_LEN)
  }

  /** Where it leaves the path pointer. */
  function After(path: seq<U8>, at: nat): (next: nat)
    requires at <= |path|
    ensures at <= next <= |path|
  {
    if CharAt(path, at) != SLASH then at else at + 1 + |Segment(path, at)|
  }

  lemma {:induction false} PieceIs(s: seq<U8>, limit: nat, n: nat)
    requires n <= limit && n <= |s| && SLASH !in s[..n] && (n == limit || n == |s| || s[n] == SLASH)
    ensures Piece(s, limit) == s[..n]
  {
    if n > 0 {
      assert s[0] == s[..n][0] && s[1..][..n - 1] == s[..n][1..];
      PieceIs(s[1..], limit - 1, n - 1);
    }
  }

  /** `get_next_segment` */
  method GetNextSegment(path: seq<U8>, at: nat, segment: array<U8>) returns (next: nat)
    requires 0 !in path && at <= |path| && segment.Length == MAX_NAME_LEN + 1
    modifies segment
    ensures next == After(path, at)
    ensures var n := |Segment(path, at)|; n < segment.Length && segment[..n] == Segment(path, at) && segment[n] == 0
  {
    hide Piece;
    if CharAt(path, at) != SLASH {
      segment[0] := 0;
      return at;
    }
    ghost var rest := path[at + 1..];
    var i := 0;
    while i < MAX_NAME_LEN && CharAt(path, at + i + 1) != 0 && CharAt(path, at + i + 1) != SLASH
      invariant i <= MAX_NAME_LEN && i <= |rest|
      invariant forall k :: 0 <= k < i ==> segment[k] == rest[k] && rest[k] != SLASH
    {
      segment[i] := path[at + i + 1];
      i := i + 1;
    }
    segment[i] := 0;
    PieceIs(rest, MAX_NAME_LEN, i);
    return at + i + 1;
  }

  /** The components delivered until the first empty one. */
  function Segments(path: seq<U8>, at: nat): seq<seq<U8>>
    requires at <= |path|
    decreases |path| - at
  {
    if Segment(path, at) == [] then [] else [Segment(path, at)] + Segments(path, After(path, at))
  }

  /** Components hold no NUL when the path does not. */
  lemma {:induction false} SegmentsHoldNoNul(path: seq<U8>, at: nat)
    requires at <= |path| && 0 !in path
    ensures forall i :: 0 <= i < |Segments(path, at)| ==> 0 !in Segments(path, at)[i]
    decreases |path| - at
  {
    if Segment(path, at) != [] {
      SegmentsHoldNoNul(path, After(path, at));
    }
  }

  function Join(components: seq<seq<U8>>): seq<U8> {
    if components == [] then [] else Ascii("/") + components[0] + Join(components[1..])
  }

  predicate IsComponent(c: seq<U8>) {
    0 < |c| <= 255 && SLASH !in c
  }

  lemma {:induction false} PieceOfComponent(c: seq<U8>, rest: seq<U8>, limit: nat)
    requires |c| <= limit && SLASH !in c && (rest == [] || rest[0] == SLASH)
    ensures Piece(c + rest, limit) == c
  {
    if c != [] {
      assert (c + rest)[1..] == c[1..] + rest;
      PieceOfComponent(c[1..], rest, limit - 1);
    } else {
      assert c + rest == rest;
    }
  }

  lemma SegmentAt(before: seq<U8>, c: seq<U8>, rest: seq<U8>)
    requires IsComponent(c) && (rest == [] || rest[0] == SLASH)
    ensures var path := before + [SLASH] + c + rest;
      Segment(path, |before|) == c && After(path, |before|) == |before + [SLASH] + c|
  {
    var path := before + [SLASH] + c + rest;
    assert path[|before|] == SLASH && path[|before| + 1..] == c + rest;
    PieceOfComponent(c, rest, MAX_NAME_LEN);
  }

  lemma SegmentsStep(path: seq<U8>, at: nat)
    requires at <= |path|
    ensures Segments(path, at) ==
      if Segment(path, at) == [] then [] else [Segment(path, at)] + Segments(path, After(path, at))
  {
  }

  lemma JoinUnfold(c: seq<U8>, tail: seq<seq<U8>>)
    ensures Join([c] + tail) == [SLASH] + c + Join(tail)
  {
    assert Ascii("/") == [SLASH];
    assert ([c] + tail)[1..] == tail;
  }

  lemma Regroup(before: seq<U8>, c: seq<U8>, rest: seq<U8>)
    ensures before + ([SLASH] + c + rest) == before + [SLASH] + c + rest
  {
  }

  lemma JoinStarts(components: seq<seq<U8>>)
    ensures Join(components) == [] || Join(components)[0] == SLASH
  {
    assert Ascii("/") == [SLASH];
  }

  /** Splitting a joined path gives back the components. */
  lemma {:induction false} SplitInvertsJoin(before: seq<U8>, components: seq<seq<U8>>)
    requires forall i :: 0 <= i < |components| ==> IsComponent(components[i])
    ensures Segments(before + Join(components), |before|) == components
    decreases |components|
  {
    hide Segments, Join;
    SegmentsStep(before + Join(components), |before|);
    if components == [] {
      SegmentAtEnd(before);
    } else {
      hide Segment, After, IsComponent;
      var c, tail := components[0], components[1..];
      assert components == [c] + tail;
      JoinUnfold(c, tail);
      JoinStarts(tail);
      Regroup(before, c, Join(tail));
      SegmentAt(before, c, Join(tail));
      assert c != [] by {
        ComponentNonEmpty(c);
      }
      SplitInvertsJoin(before + [SLASH] + c, tail);
    }
  }

  lemma ComponentNonEmpty(c: seq<U8>)
    requires IsComponent(c)
    ensures c != []
  {
  }

  lemma SegmentAtEnd(before: seq<U8>)
    ensures Segment(before + Join([]), |before|) == []
  {
    assert before + [] == before;
  }

  /** What follows the components delivered: nothing, or a place where the next component is empty. */
  predicate Exhausted(rest: seq<U8>) {
    rest == [] || rest[0] != SLASH || |rest| == 1 || rest[1] == SLASH
  }

  /** For every path: the components joined are where the path begins, and the splitting stopped because
      the next component is empty. */
  lemma {:induction false} JoinInvertsSplit(path: seq<U8>, at: nat)
    requires at <= |path|
    ensures var joined := Join(Segments(path, at));
      joined <= path[at..] && Exhausted(path[at + |joined|..])
    ensures forall i :: 0 <= i < |Segments(path, at)| ==> IsComponent(Segments(path, at)[i])
    decreases |path| - at
  {
    hide Segments, Join, Exhausted;
    SegmentsStep(path, at);
    if Segment(path, at) == [] {
      SegmentEmpty(path, at);
    } else {
      SegmentSplits(path, at);
      hide Segment, After, IsComponent;
      var next, c := After(path, at), Segment(path, at);
      var tail := Segments(path, next);
      JoinInvertsSplit(path, next);
      JoinUnfold(c, tail);
      JoinStep(path, at, c, next, Join(tail));
    }
  }

  lemma SegmentEmpty(path: seq<U8>, at: nat)
    requires at <= |path| && Segment(path, at) == []
    ensures Join([]) == [] && Exhausted(path[at..])
  {
  }

  lemma SegmentSplits(path: seq<U8>, at: nat)
    requires at <= |path| && Segment(path, at) != []
    ensures IsComponent(Segment(path, at))
    ensures var c, next := Segment(path, at), After(path, at);
      next == at + 1 + |c| && path[at..] == [SLASH] + c + path[next..]
  {
    var c, next := Segment(path, at), After(path, at);
    assert c == path[at + 1..][..|c|] == path[at + 1..next];
  }

  lemma JoinStep(path: seq<U8>, at: nat, c: seq<U8>, next: nat, joined: seq<U8>)
    requires at <= next <= |path| && next == at + 1 + |c| && path[at..] == [SLASH] + c + path[next..]
    requires joined <= path[next..]
    ensures [SLASH] + c + joined <= path[at..] && at + |[SLASH] + c + joined| == next + |joined|
  {
  }
}
