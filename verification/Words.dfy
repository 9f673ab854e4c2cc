/** Machine words of the 32-bit boot stage, and the one optional value the models need. */
module Words {
  datatype Option<+T> = None | Some(value: T)

  type U8 = x: int | 0 <= x < 0x100
  type U16 = x: int | 0 <= x < 0x1_0000
  type U32 = x: int | 0 <= x < 0x1_0000_0000
  type U64 = x: int | 0 <= x < 0x1_0000_0000_0000_0000

  const LIMIT32 := 0x1_0000_0000
  const LIMIT64 := 0x1_0000_0000_0000_0000

  /** Highest address a real-mode segment:offset pair can form (include/memory_map.h). */
  const REAL_MODE_LIMIT := 0x10FFEF

  /** Truncation to uint32_t; Dafny's `%` never yields a negative remainder. */
  function Wrap32(x: int): U32 {
    x % LIMIT32
  }

  lemma WrapId(x: int)
    requires 0 <= x < LIMIT32
    ensures Wrap32(x) == x
  {
  }

  function Le16(b0: U8, b1: U8): U16 {
    b0 + 0x100 * b1
  }

  function Le32(b0: U8, b1: U8, b2: U8, b3: U8): U32 {
    b0 + 0x100 * b1 + 0x1_0000 * b2 + 0x100_0000 * b3
  }

  /** The 16-bit word at a position. */
  function Word16(b: seq<U8>, o: nat): U16
    requires o + 2 <= |b|
  {
    Le16(b[o], b[o + 1])
  }

  /** The 32-bit word at a position. */
  function Word32(b: seq<U8>, o: nat): U32
    requires o + 4 <= |b|
  {
    Le32(b[o], b[o + 1], b[o + 2], b[o + 3])
  }

  // ----- the bytes of words and texts -----

  /** A 16-bit word in memory, the lower byte first. */
  function Bytes16(w: U16): (b: seq<U8>)
    ensures |b| == 2
  {
    [w % 0x100, w / 0x100]
  }

  /** A 32-bit word in memory, the lowest byte first. */
  function Bytes32(w: U32): (b: seq<U8>)
    ensures |b| == 4
  {
    [w % 0x100, w / 0x100 % 0x100, w / 0x1_0000 % 0x100, w / 0x100_0000]
  }

  lemma SplitWord(w: U32)
    ensures Le32(w % 0x100, w / 0x100 % 0x100, w / 0x1_0000 % 0x100, w / 0x100_0000) == w
  {
    assert w / 0x1_0000 == w / 0x100 / 0x100 && w / 0x100_0000 == w / 0x1_0000 / 0x100;
  }

  /** Reading a 16-bit word that stands at a position. */
  lemma Word16At(b: seq<U8>, o: nat, w: U16)
    requires o + 2 <= |b| && b[o..o + 2] == Bytes16(w)
    ensures Word16(b, o) == w
  {
    assert b[o] == b[o..o + 2][0] && b[o + 1] == b[o..o + 2][1];
  }

  /** Reading a 32-bit word that stands at a position. */
  lemma Word32At(b: seq<U8>, o: nat, w: U32)
    requires o + 4 <= |b| && b[o..o + 4] == Bytes32(w)
    ensures Word32(b, o) == w
  {
    hide Le32;
    var word := b[o..o + 4];
    assert b[o] == word[0] && b[o + 1] == word[1] && b[o + 2] == word[2] && b[o + 3] == word[3];
    SplitWord(w);
  }

  lemma Bytes16Of(b: seq<U8>, o: nat)
    requires o + 2 <= |b|
    ensures Bytes16(Word16(b, o)) == b[o..o + 2]
  {
  }

  lemma Bytes32Of(b: seq<U8>, o: nat)
    requires o + 4 <= |b|
    ensures Bytes32(Word32(b, o)) == b[o..o + 4]
  {
    JoinWord(b[o], b[o + 1], b[o + 2], b[o + 3], Word32(b, o));
  }

  lemma JoinWord(b0: U8, b1: U8, b2: U8, b3: U8, w: U32)
    requires w == Le32(b0, b1, b2, b3)
    ensures Bytes32(w) == [b0, b1, b2, b3]
  {
    var high, top := b1 + 0x100 * b2 + 0x1_0000 * b3, b2 + 0x100 * b3;
    assert w == 0x100 * high + b0 && high == 0x100 * top + b1;
    assert w / 0x100 == high && w % 0x100 == b0;
    assert w / 0x1_0000 == top && high % 0x100 == b1;
    assert w / 0x100_0000 == b3 && top % 0x100 == b2;
  }

  /** The byte of an ASCII character, and 0xFF for any other. */
  function Code(c: char): U8 {
    if c as int < 0x80 then c as int else 0xFF
  }

  /** The characters of a text as bytes. */
  function Ascii(text: string): (b: seq<U8>)
    ensures |b| == |text| && forall i :: 0 <= i < |b| ==> b[i] == Code(text[i])
  {
    seq(|text|, i requires 0 <= i < |text| => Code(text[i]))
  }
}
