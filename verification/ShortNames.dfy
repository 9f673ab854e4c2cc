/** 8.3 names: conversion of a path component to the form stored in directory entries, and back. */
module ShortNames {
  import opened Words
  import opened Strings

  const NAME_LEN := 8
  const EXTENSION_LEN := 3
  const SPACE: U8 := 0x20
  const DOT: U8 := 0x2E

  /** Position of the first dot, or the length. */
  function DotAt(name: seq<U8>): (k: nat)
    ensures k <= |name| && DOT !in name[..k] && (k < |name| ==> name[k] == DOT)
  {
    if name == [] || name[0] == DOT then 0
    else
      var k := 1 + DotAt(name[1..]);
      assert name[..k] == [name[0]] + name[1..][..k - 1];
      k
  }

  function Base(name: seq<U8>): seq<U8> {
    name[..DotAt(name)]
  }

  /** Everything behind the first dot, further dots included. */
  function Extension(name: seq<U8>): seq<U8> {
    if DotAt(name) < |name| then name[DotAt(name) + 1..] else []
  }

  predicate Accepted(name: seq<U8>) {
    |Base(name)| <= NAME_LEN && |Extension(name)| <= EXTENSION_LEN
  }

  function Padded(s: seq<U8>, n: nat): (r: seq<U8>)
    requires |s| <= n
    ensures |r| == n
  {
    s + seq(n - |s|, _ => SPACE)
  }

  /** The eleven bytes of the stored form. */
  function Converted(name: seq<U8>): (r: seq<U8>)
    requires Accepted(name)
    ensures |r| == NAME_LEN + EXTENSION_LEN
  {
    Padded(Upper(Base(name)), NAME_LEN) + Padded(Upper(Extension(name)), EXTENSION_LEN)
  }

  /** The character at a position of a NUL-terminated string. */
  function CharAt(name: seq<U8>, i: nat): U8 {
    if i < |name| then name[i] else 0
  }

  /** The buffer while a name is converted: the first characters of base and extension, spaces, and a NUL. */
  ghost predicate Partly(out: seq<U8>, base: seq<U8>, ext: seq<U8>) {
    && |out| == NAME_LEN + EXTENSION_LEN + 1 && |base| <= NAME_LEN && |ext| <= EXTENSION_LEN
    && out == Padded(base, NAME_LEN) + Padded(ext, EXTENSION_LEN) + [0]
  }

  lemma OneMoreBase(out: seq<U8>, base: seq<U8>, c: U8)
    requires Partly(out, base, []) && |base| < NAME_LEN
    ensures Partly(out[|base| := c], base + [c], [])
  {
  }

  lemma OneMoreExtension(out: seq<U8>, base: seq<U8>, ext: seq<U8>, c: U8)
    requires Partly(out, base, ext) && |ext| < EXTENSION_LEN
    ensures Partly(out[NAME_LEN + |ext| := c], base, ext + [c])
  {
  }

  lemma UpperStep(s: seq<U8>, i: nat)
    requires i < |s|
    ensures Upper(s[..i + 1]) == Upper(s[..i]) + [ToUpper(s[i])]
  {
  }

  /** Spaces and the terminator. */
  method FillSpaces(out: array<U8>)
    requires out.Length == NAME_LEN + EXTENSION_LEN + 1
    modifies out
    ensures Partly(out[..], [], [])
  {
    for i := 0 to NAME_LEN + EXTENSION_LEN
      invariant forall k :: 0 <= k < i ==> out[k] == SPACE
    {
      out[i] := SPACE;
    }
    out[NAME_LEN + EXTENSION_LEN] := 0;
  }

  /** The loop over the base name. */
  method CopyBase(name: seq<U8>, out: array<U8>) returns (i: nat)
    requires out.Length == NAME_LEN + EXTENSION_LEN + 1 && 0 !in name && Partly(out[..], [], [])
    modifies out
    ensures i <= DotAt(name) && i <= NAME_LEN && Partly(out[..], Upper(name[..i]), [])
    ensures i == DotAt(name) || i == NAME_LEN
  {
    hide Partly;
    assert Upper(name[..0]) == [];
    i := 0;
    while i < NAME_LEN && CharAt(name, i) != DOT && CharAt(name, i) != 0
      invariant i <= NAME_LEN && i <= DotAt(name)
      invariant Partly(out[..], Upper(name[..i]), [])
    {
      OneMoreBase(out[..], Upper(name[..i]), ToUpper(name[i]));
      UpperStep(name, i);
      ghost var was := out[..];
      out[i] := ToUpper(name[i]);
      assert out[..] == was[i := ToUpper(name[i])];
      i := i + 1;
    }
  }

  /** The loop over the extension, behind the dot at `i`. */
  method CopyExtension(name: seq<U8>, i: nat, out: array<U8>) returns (j: nat)
    requires i < |name| && 0 !in name
    requires out.Length == NAME_LEN + EXTENSION_LEN + 1 && Partly(out[..], Upper(name[..i]), [])
    modifies out
    ensures i + 1 + j <= |name| && j <= EXTENSION_LEN && Partly(out[..], Upper(name[..i]), Upper(name[i + 1..][..j]))
    ensures i + 1 + j == |name| || j == EXTENSION_LEN
  {
    hide Partly;
    ghost var ext := name[i + 1..];
    assert Upper(ext[..0]) == [];
    j := 0;
    while j < EXTENSION_LEN && CharAt(name, i + j + 1) != 0
      invariant j <= EXTENSION_LEN && j <= |ext|
      invariant Partly(out[..], Upper(name[..i]), Upper(ext[..j]))
    {
      OneMoreExtension(out[..], Upper(name[..i]), Upper(ext[..j]), ToUpper(name[i + j + 1]));
      UpperStep(ext, j);
      ghost var was := out[..];
      out[NAME_LEN + j] := ToUpper(name[i + j + 1]);
      assert out[..] == was[NAME_LEN + j := ToUpper(name[i + j + 1])];
      j := j + 1;
    }
  }

  /** `convert_to_83_filename_with_terminator`, on a string without its terminator. */
  method ConvertTo83(name: seq<U8>, out: array<U8>) returns (ok: bool)
    requires out.Length == NAME_LEN + EXTENSION_LEN + 1 && 0 !in name
    modifies out
    ensures ok == Accepted(name)
    ensures ok ==> out[..] == Converted(name) + [0]
  {
    FillSpaces(out);
    var i := CopyBase(name, out);
    if CharAt(name, i) != DOT && CharAt(name, i) != 0 {
      return false;
    }
    assert i == DotAt(name);
    if CharAt(name, i) != 0 {
      var j := CopyExtension(name, i, out);
      if j == EXTENSION_LEN && CharAt(name, i + j + 1) != 0 {
        return false;
      }
      assert name[i + 1..][..j] == Extension(name);
    }
    return true;
  }

  // ----- reading stored names back -----

  function UntilSpace(s: seq<U8>): seq<U8> {
    if s == [] || s[0] == SPACE then [] else [s[0]] + UntilSpace(s[1..])
  }

  /** `get_short_name` and `get_short_extension` differ only in the bytes they read. */
  method CopyUntilSpace(stored: seq<U8>, out: array<U8>)
    requires |stored| < out.Length
    modifies out
    ensures var n := |UntilSpace(stored)|; n < out.Length && out[..n] == UntilSpace(stored) && out[n] == 0
  {
    var i := 0;
    while i < |stored| && stored[i] != SPACE
      invariant i <= |stored|
      invariant forall k :: 0 <= k < i ==> out[k] == stored[k] && stored[k] != SPACE
    {
      out[i] := stored[i];
      i := i + 1;
    }
    out[i] := 0;
    UntilSpaceIs(stored, i);
  }

  lemma {:induction false} UntilSpaceIs(s: seq<U8>, n: nat)
    requires n <= |s| && SPACE !in s[..n] && (n == |s| || s[n] == SPACE)
    ensures UntilSpace(s) == s[..n]
  {
    if n > 0 {
      assert s[0] == s[..n][0] && s[1..][..n - 1] == s[..n][1..];
      UntilSpaceIs(s[1..], n - 1);
    }
  }

  /** `get_short_name` */
  method GetShortName(entryName: seq<U8>, name: array<U8>)
    requires |entryName| == NAME_LEN + EXTENSION_LEN && name.Length == NAME_LEN + 1
    modifies name
    ensures var n := |UntilSpace(entryName[..NAME_LEN])|;
      n < name.Length && name[..n] == UntilSpace(entryName[..NAME_LEN]) && name[n] == 0
  {
    CopyUntilSpace(entryName[..NAME_LEN], name);
  }

  /** `get_short_extension` */
  method GetShortExtension(entryName: seq<U8>, ext: array<U8>)
    requires |entryName| == NAME_LEN + EXTENSION_LEN && ext.Length == EXTENSION_LEN + 1
    modifies ext
    ensures var n := |UntilSpace(entryName[NAME_LEN..])|;
      n < ext.Length && ext[..n] == UntilSpace(entryName[NAME_LEN..]) && ext[n] == 0
  {
    CopyUntilSpace(entryName[NAME_LEN..], ext);
  }

  lemma {:induction false} UntilSpaceOfPadded(s: seq<U8>, n: nat)
    requires |s| <= n && SPACE !in s
    ensures UntilSpace(Padded(s, n)) == s
  {
    if s != [] {
      assert Padded(s, n)[1..] == Padded(s[1..], n - 1);
      UntilSpaceOfPadded(s[1..], n - 1);
    }
  }

  lemma UpperKeeps(s: seq<U8>)
    requires SPACE !in s
    ensures SPACE !in Upper(s)
  {
    forall i | 0 <= i < |s| ensures Upper(s)[i] != SPACE {
      assert s[i] in s;
    }
  }

  /** The stored form of an accepted, space-free name reads back as its upper-cased base and extension. */
  lemma ConversionReadsBack(name: seq<U8>)
    requires Accepted(name) && SPACE !in name
    ensures UntilSpace(Converted(name)[..NAME_LEN]) == Upper(Base(name))
    ensures UntilSpace(Converted(name)[NAME_LEN..]) == Upper(Extension(name))
  {
    var base, ext := Base(name), Extension(name);
    UpperKeeps(base);
    UpperKeeps(ext);
    UntilSpaceOfPadded(Upper(base), NAME_LEN);
    UntilSpaceOfPadded(Upper(ext), EXTENSION_LEN);
    assert Converted(name)[..NAME_LEN] == Padded(Upper(base), NAME_LEN);
    assert Converted(name)[NAME_LEN..] == Padded(Upper(ext), EXTENSION_LEN);
  }

  /** Which names are accepted, and their eleven bytes: without a dot those of up to 8 characters, and with one those of
      up to 8 before and up to 3 behind it, further dots included; both parts are filled up with spaces. */
  lemma AcceptedExactly(base: seq<U8>, ext: seq<U8>)
    requires 0x2E !in base
    ensures Accepted(base) <==> |base| <= 8
    ensures Accepted(base + Ascii(".") + ext) <==> |base| <= 8 && |ext| <= 3
    ensures |base| <= 8 ==> IsStored(Converted(base), base, [])
    ensures |base| <= 8 && |ext| <= 3 ==> IsStored(Converted(base + Ascii(".") + ext), base, ext)
  {
    DotAtIs(base, []);
    assert base + [] == base && Base(base) == base;
    var name, behind := base + Ascii(".") + ext, Ascii(".") + ext;
    assert Ascii(".") == [DOT];
    hide Ascii;
    DotAtIs(base, behind);
    assert name == base + behind && Base(name) == base && Extension(name) == ext;
  }

  /** The eleven bytes of a base and an extension. */
  predicate IsStored(stored: seq<U8>, base: seq<U8>, ext: seq<U8>) {
    && |stored| == 11 && |base| <= 8 && |ext| <= 3
    && (forall i :: 0 <= i < 8 ==> stored[i] == if i < |base| then ToUpper(base[i]) else 0x20)
    && (forall i :: 0 <= i < 3 ==> stored[8 + i] == if i < |ext| then ToUpper(ext[i]) else 0x20)
  }

  /** A dot with nothing behind it. */
  predicate TrailingDot(name: seq<U8>) {
    DotAt(name) + 1 == |name|
  }

  lemma {:induction false} DotAtUpper(name: seq<U8>)
    ensures DotAt(Upper(name)) == DotAt(name)
  {
    if name != [] {
      assert Upper(name)[1..] == Upper(name[1..]);
      DotAtUpper(name[1..]);
    }
  }

  lemma UpperConcat(s: seq<U8>, t: seq<U8>)
    ensures Upper(s + t) == Upper(s) + Upper(t)
  {
  }

  lemma PartsOfUpper(name: seq<U8>)
    ensures Upper(Base(name)) == Base(Upper(name)) && Upper(Extension(name)) == Extension(Upper(name))
  {
    var k := DotAt(name);
    DotAtUpper(name);
    assert Upper(name[..k]) == Upper(name)[..k];
    if k < |name| {
      assert Upper(name[k + 1..]) == Upper(name)[k + 1..];
    }
  }

  lemma NameOfParts(name: seq<U8>)
    ensures name == if DotAt(name) < |name| then Base(name) + [DOT] + Extension(name) else Base(name)
    ensures !TrailingDot(name) ==> (DotAt(name) == |name| <==> Extension(name) == [])
  {
    var k := DotAt(name);
    if k < |name| {
      Cut(name, k);
    } else {
      assert name[..k] == name;
    }
  }

  lemma Cut(s: seq<U8>, k: nat)
    requires k < |s|
    ensures s == s[..k] + [s[k]] + s[k + 1..]
  {
  }

  /** Two names without a trailing dot have the same stored form exactly when they agree up to ASCII case. */
  lemma SameEntriesIffSameUpper(a: seq<U8>, b: seq<U8>)
    requires Accepted(a) && Accepted(b) && SPACE !in a && SPACE !in b && !TrailingDot(a) && !TrailingDot(b)
    ensures Converted(a) == Converted(b) <==> Upper(a) == Upper(b)
  {
    hide Base, Extension, Upper, DotAt, UntilSpace;
    PartsOfUpper(a);
    PartsOfUpper(b);
    if Converted(a) == Converted(b) {
      ConversionReadsBack(a);
      ConversionReadsBack(b);
      UpperSame(a, b);
    }
  }

  lemma UpperSame(a: seq<U8>, b: seq<U8>)
    requires !TrailingDot(a) && !TrailingDot(b)
    requires Upper(Base(a)) == Upper(Base(b)) && Upper(Extension(a)) == Upper(Extension(b))
    ensures Upper(a) == Upper(b)
  {
    hide Base, Extension, DotAt;
    NameOfParts(a);
    NameOfParts(b);
    assert |Upper(Extension(a))| == |Extension(a)| && |Upper(Extension(b))| == |Extension(b)|;
    UpperConcat(Base(a) + [DOT], Extension(a));
    UpperConcat(Base(b) + [DOT], Extension(b));
    UpperConcat(Base(a), [DOT]);
    UpperConcat(Base(b), [DOT]);
  }

  /** A trailing dot is lost: the name selects the same entries as the name without it. */
  lemma TrailingDotIsLost(a: seq<U8>)
    requires DOT !in a && |a| <= NAME_LEN
    ensures Accepted(a) && Accepted(a + [DOT]) && Converted(a + [DOT]) == Converted(a)
    ensures Upper(a + [DOT]) != Upper(a)
  {
    DotAtIs(a, []);
    DotAtIs(a, [DOT]);
    assert a + [] == a && Base(a) == a && Base(a + [DOT]) == a;
    assert |Upper(a + [DOT])| == |a| + 1 && |Upper(a)| == |a|;
  }

  function WithoutTrailingDot(name: seq<U8>): seq<U8> {
    if TrailingDot(name) then name[..|name| - 1] else name
  }

  lemma DotDropped(name: seq<U8>)
    requires Accepted(name)
    ensures var w := WithoutTrailingDot(name);
      Accepted(w) && Converted(w) == Converted(name) && !TrailingDot(w) && forall c :: c in w ==> c in name
  {
    if TrailingDot(name) {
      var a := name[..|name| - 1];
      assert a == Base(name) && name == a + [DOT];
      TrailingDotIsLost(a);
      DotAtIs(a, []);
      assert a + [] == a;
    }
  }

  /** For all accepted, space-free names: one stored form exactly when they agree up to ASCII case and a
      trailing dot. */
  lemma SameEntriesIff(a: seq<U8>, b: seq<U8>)
    requires Accepted(a) && Accepted(b) && SPACE !in a && SPACE !in b
    ensures Converted(a) == Converted(b) <==> Upper(WithoutTrailingDot(a)) == Upper(WithoutTrailingDot(b))
  {
    hide Accepted, Converted, Upper, WithoutTrailingDot, TrailingDot;
    DotDropped(a);
    DotDropped(b);
    SameEntriesIffSameUpper(WithoutTrailingDot(a), WithoutTrailingDot(b));
  }

  lemma {:induction false} DotAtIs(a: seq<U8>, rest: seq<U8>)
    requires DOT !in a && (rest == [] || rest[0] == DOT)
    ensures DotAt(a + rest) == |a|
  {
    if a != [] {
      assert (a + rest)[1..] == a[1..] + rest;
      DotAtIs(a[1..], rest);
    } else {
      assert a + rest == rest;
    }
  }
}
