/** stage1/string.c: NUL-terminated strings, and numbers printed and parsed in a base. */
module Strings {
  import opened Words
  import opened Arithmetic

  // ----- C strings -----

  /** The string a buffer holds: everything before its first NUL. */
  function CStr(buffer: seq<U8>): (s: seq<U8>)
    ensures s <= buffer && 0 !in s
  {
    if buffer == [] || buffer[0] == 0 then [] else [buffer[0]] + CStr(buffer[1..])
  }

  lemma {:induction false} CStrEnds(buffer: seq<U8>, n: nat)
    requires n < |buffer| && buffer[n] == 0 && 0 !in buffer[..n]
    ensures CStr(buffer) == buffer[..n]
  {
    if n > 0 {
      assert buffer[0] == buffer[..n][0];
      assert buffer[1..][..n - 1] == buffer[..n][1..];
      CStrEnds(buffer[1..], n - 1);
    }
  }

  lemma {:induction false} CStrTerminator(buffer: seq<U8>)
    requires 0 in buffer
    ensures |CStr(buffer)| < |buffer| && buffer[|CStr(buffer)|] == 0
    ensures forall i :: 0 <= i < |CStr(buffer)| ==> buffer[i] != 0
  {
    if buffer[0] != 0 {
      CStrTerminator(buffer[1..]);
      assert forall i :: 1 <= i < |CStr(buffer)| ==> buffer[i] == buffer[1..][i - 1];
    }
  }

  /** `strlen` */
  method StrLen(str: seq<U8>) returns (len: nat)
    requires 0 in str
    ensures len == |CStr(str)|
  {
    CStrTerminator(str);
    len := 0;
    while str[len] != 0
      invariant len <= |CStr(str)|
      decreases |CStr(str)| - len
    {
      len := len + 1;
    }
  }

  /** `streq` */
  method StrEq(s1: seq<U8>, s2: seq<U8>) returns (equal: bool)
    requires 0 in s1 && 0 in s2
    ensures equal == (CStr(s1) == CStr(s2))
  {
    hide CStr;
    CStrTerminator(s1);
    CStrTerminator(s2);
    var i := 0;
    while s1[i] != 0 && s2[i] != 0 && s1[i] == s2[i]
      invariant i <= |CStr(s1)| && i <= |CStr(s2)| && s1[..i] == s2[..i]
      decreases |CStr(s1)| - i
    {
      i := i + 1;
    }
    equal := s1[i] == s2[i];
  }

  /** `toupper` */
  function ToUpper(c: U8): U8 {
    if 0x61 <= c <= 0x7A then c - 32 else c
  }

  /** The letters a to z become the letters A to Z, and nothing else changes. */
  lemma UpperLetters(c: U8)
    ensures Code('a') <= c <= Code('z') ==> ToUpper(c) - Code('A') == c - Code('a')
    ensures !(Code('a') <= c <= Code('z')) ==> ToUpper(c) == c
  {
    assert Code('a') == 0x61 && Code('z') == 0x7A && Code('A') == 0x41;
  }

  function Upper(s: seq<U8>): seq<U8> {
    seq(|s|, i requires 0 <= i < |s| => ToUpper(s[i]))
  }

  // ----- reversal in place -----

  /** Exclusive or of two `bits`-bit numbers, from the lowest bit up. */
  function XorBits(x: nat, y: nat, bits: nat): (r: nat)
    requires x < Pow2(bits) && y < Pow2(bits)
    ensures r < Pow2(bits)
  {
    if bits == 0 then 0 else 2 * XorBits(x / 2, y / 2, bits - 1) + (x % 2 + y % 2) % 2
  }

  lemma XorHalves(x: nat, y: nat, bits: nat)
    requires bits > 0 && x < Pow2(bits) && y < Pow2(bits)
    ensures x / 2 < Pow2(bits - 1) && y / 2 < Pow2(bits - 1)
    ensures XorBits(x, y, bits) / 2 == XorBits(x / 2, y / 2, bits - 1)
    ensures XorBits(x, y, bits) % 2 == (x % 2 + y % 2) % 2
  {
  }

  lemma HalvesDecide(x: nat, y: nat)
    ensures x / 2 == y / 2 && x % 2 == y % 2 ==> x == y
  {
  }

  lemma Parity(a: nat, b: nat)
    requires a < 2 && b < 2
    ensures (b + (a + b) % 2) % 2 == a && ((a + b) % 2 + a) % 2 == b
  {
  }

  /** If the upper bits come back, all come back. */
  lemma XorComesBack(x: nat, y: nat, bits: nat)
    requires bits > 0 && x < Pow2(bits) && y < Pow2(bits) && x / 2 < Pow2(bits - 1) && y / 2 < Pow2(bits - 1)
    requires var high := XorBits(x / 2, y / 2, bits - 1);
      XorBits(y / 2, high, bits - 1) == x / 2 && XorBits(high, x / 2, bits - 1) == y / 2
    ensures XorBits(y, XorBits(x, y, bits), bits) == x && XorBits(XorBits(x, y, bits), x, bits) == y
  {
    hide XorBits, Pow2;
    var r := XorBits(x, y, bits);
    XorHalves(x, y, bits);
    XorHalves(y, r, bits);
    XorHalves(r, x, bits);
    Parity(x % 2, y % 2);
    HalvesDecide(XorBits(y, r, bits), x);
    HalvesDecide(XorBits(r, x, bits), y);
  }

  lemma {:induction false} XorBitsCancels(x: nat, y: nat, bits: nat)
    requires x < Pow2(bits) && y < Pow2(bits)
    ensures XorBits(y, XorBits(x, y, bits), bits) == x && XorBits(XorBits(x, y, bits), x, bits) == y
  {
    if bits > 0 {
      hide XorBits, Pow2;
      assert x / 2 < Pow2(bits - 1) && y / 2 < Pow2(bits - 1) by {
        Pow2Half(bits);
      }
      XorBitsCancels(x / 2, y / 2, bits - 1);
      XorComesBack(x, y, bits);
    }
  }

  lemma Pow2Byte()
    ensures Pow2(8) == 0x100
  {
    assert Pow2(3) == 8 && Pow2(6) == 64;
  }

  function Xor(x: U8, y: U8): U8 {
    Pow2Byte();
    XorBits(x, y, 8)
  }

  /** The three assignments of the xor swap exchange two bytes. */
  lemma XorSwap(x: U8, y: U8)
    ensures Xor(y, Xor(x, y)) == x && Xor(Xor(x, y), x) == y
  {
    Pow2Byte();
    XorBitsCancels(x, y, 8);
  }

  function Reverse(s: seq<U8>): (r: seq<U8>)
    ensures |r| == |s|
    ensures forall i :: 0 <= i < |s| ==> r[i] == s[|s| - 1 - i]
  {
    if s == [] then [] else Reverse(s[1..]) + [s[0]]
  }

  /** `strnrev` */
  method StrNRev(str: array<U8>, n: nat)
    requires n <= str.Length
    modifies str
    ensures str[..n] == Reverse(old(str[..n])) && str[n..] == old(str[n..])
  {
    hide Xor, Reverse;
    if n == 0 {
      return;
    }
    var i, j := 0, n - 1;
    while i < j
      invariant 0 <= i <= j + 1 <= n && i + j == n - 1
      invariant forall k :: 0 <= k < i ==> str[k] == old(str[n - 1 - k]) && str[n - 1 - k] == old(str[k])
      invariant forall k :: i <= k <= j ==> str[k] == old(str[k])
      invariant forall k :: n <= k < str.Length ==> str[k] == old(str[k])
    {
      XorSwap(str[i], str[j]);
      str[i] := Xor(str[i], str[j]);
      str[j] := Xor(str[j], str[i]);
      str[i] := Xor(str[i], str[j]);
      i := i + 1;
      j := j - 1;
    }
    forall k | 0 <= k < n ensures str[k] == Reverse(old(str[..n]))[k] {
      if k >= i {
        assert n - 1 - k <= i;
      }
    }
  }

  // ----- numbers -----

  /** The sixteen digits and the NUL of the literal, which the code counts as a seventeenth. */
  const ALPHABET: seq<U8> :=
    [0x30, 0x31, 0x32, 0x33, 0x34, 0x35, 0x36, 0x37, 0x38, 0x39, 0x41, 0x42, 0x43, 0x44, 0x45, 0x46, 0]

  /** The value of a digit in either case; -1 for any other character. */
  function DigitOf(c: U8): int {
    if 0x30 <= c <= 0x39 then c - 0x30
    else if 0x41 <= c <= 0x46 then c - 0x41 + 10
    else if 0x61 <= c <= 0x66 then c - 0x61 + 10
    else if c == 0 then 16
    else -1
  }

  predicate IsDigit(c: U8, base: U8) {
    0 <= DigitOf(c) < base
  }

  /** The values of the characters, and the characters of the sixteen digits that are printed. */
  lemma DigitCharacters(c: U8, d: nat)
    ensures DigitOf(c) ==
      if Code('0') <= c <= Code('9') then c - Code('0')
      else if Code('A') <= c <= Code('F') then 10 + (c - Code('A'))
      else if Code('a') <= c <= Code('f') then 10 + (c - Code('a'))
      else if c == 0 then 16
      else -1
    ensures d < 16 ==> ALPHABET[d] == if d < 10 then Code('0') + d else Code('A') + (d - 10)
  {
    assert Code('0') == 0x30 && Code('9') == 0x39 && Code('A') == 0x41 && Code('F') == 0x46;
    assert Code('a') == 0x61 && Code('f') == 0x66;
  }

  /** `find_in_alphabet` */
  method FindInAlphabet(c: U8) returns (r: int)
    ensures r == DigitOf(c)
  {
    var d := ToUpper(c);
    AlphabetDigits(d);
    var i := 0;
    while i < |ALPHABET|
      invariant 0 <= i <= |ALPHABET|
      invariant forall k :: 0 <= k < i ==> d != ALPHABET[k]
    {
      if d == ALPHABET[i] {
        return i;
      }
      i := i + 1;
    }
    return -1;
  }

  lemma AlphabetDigits(d: U8)
    requires !(0x61 <= d <= 0x7A)
    ensures forall k :: 0 <= k < |ALPHABET| ==> DigitOf(ALPHABET[k]) == k
    ensures DigitOf(d) >= 0 ==> DigitOf(d) < |ALPHABET| && ALPHABET[DigitOf(d)] == d
  {
    var k := DigitOf(d);
    if k >= 0 {
      assert d == if k < 10 then 0x30 + k else if k < 16 then 0x41 + k - 10 else 0;
    }
  }

  /** Positional value of a string of digits, most significant first. */
  function ValueOf(s: seq<U8>, base: U8): nat
    requires forall c :: c in s ==> IsDigit(c, base)
  {
    if s == [] then 0
    else
      var init, last := s[..|s| - 1], s[|s| - 1];
      assert last in s;
      assert IsDigit(last, base);
      var v := ValueOf(init, base);
      MulLe(0, v, base);
      v * base + DigitOf(last)
  }

  /** What `atoi` answers and leaves in its result: on a bad digit the value so far, already scaled. */
  function AtoiOn(s: seq<U8>, base: U8): (bool, U32) {
    if s == [] then (true, 0)
    else
      var (ok, v) := AtoiOn(s[..|s| - 1], base);
      if !ok then (false, v)
      else if IsDigit(s[|s| - 1], base) then (true, Wrap32(Wrap32(v * base) + DigitOf(s[|s| - 1])))
      else (false, Wrap32(v * base))
  }

  lemma {:induction false} AtoiStays(s: seq<U8>, base: U8, n: nat)
    requires n <= |s| && !AtoiOn(s[..n], base).0
    ensures AtoiOn(s, base) == AtoiOn(s[..n], base)
    decreases |s|
  {
    if n == |s| {
      assert s[..n] == s;
    } else {
      assert s[..|s| - 1][..n] == s[..n];
      AtoiStays(s[..|s| - 1], base, n);
    }
  }

  /** `atoi` */
  method Atoi(str: seq<U8>, base: U8) returns (ok: bool, out: U32)
    requires 0 in str
    ensures (ok, out) == AtoiOn(CStr(str), base)
  {
    CStrTerminator(str);
    ghost var s := CStr(str);
    var i := 0;
    out := 0;
    while str[i] != 0
      invariant i <= |s| && AtoiOn(s[..i], base) == (true, out)
      decreases |s| - i
    {
      assert s[..i + 1][..i] == s[..i];
      out := Wrap32(out * base);
      var digit := FindInAlphabet(str[i]);
      if digit < 0 || base <= digit {
        AtoiStays(s, base, i + 1);
        return false, out;
      }
      out := Wrap32(out + digit);
      i := i + 1;
    }
    assert s[..|s|] == s;
    return true, out;
  }

  lemma WrapMulAdd(x: nat, b: nat, d: nat)
    ensures Wrap32(Wrap32(Wrap32(x) * b) + d) == Wrap32(x * b + d)
  {
    DivMod(x, LIMIT32);
    var q, r: nat := x / LIMIT32, x % LIMIT32;
    assert x * b == q * b * LIMIT32 + r * b;
    DivAdd(q * b, LIMIT32, r * b);
    DivMod(r * b, LIMIT32);
    DivAdd(q * b, LIMIT32, r * b + d);
    DivAdd(r * b / LIMIT32, LIMIT32, r * b % LIMIT32 + d);
  }

  /** `atoi` accepts exactly the strings of valid digits and returns their value modulo 2^32. */
  lemma {:induction false} AtoiIsValue(s: seq<U8>, base: U8)
    ensures AtoiOn(s, base).0 <==> forall c :: c in s ==> IsDigit(c, base)
    ensures AtoiOn(s, base).0 ==> AtoiOn(s, base).1 == Wrap32(ValueOf(s, base))
  {
    if s != [] {
      var init, last := s[..|s| - 1], s[|s| - 1];
      assert s == init + [last];
      AtoiIsValue(init, base);
      if AtoiOn(s, base).0 {
        WrapMulAdd(ValueOf(init, base), base, DigitOf(last));
      }
    }
  }

  /** Position `n` holds the first character of a string that is no digit. */
  ghost predicate FirstBad(s: seq<U8>, base: U8, n: nat) {
    n < |s| && !IsDigit(s[n], base) && forall c :: c in s[..n] ==> IsDigit(c, base)
  }

  /** At the first character that is no digit `atoi` gives up, the value of the digits before it already scaled. */
  lemma {:induction false} AtoiStopsAtFirstBad(s: seq<U8>, base: U8, n: nat)
    requires FirstBad(s, base, n)
    ensures AtoiOn(s, base) == (false, ValueOf(s[..n], base) * base % 0x1_0000_0000)
  {
    var front := s[..n + 1];
    assert front[..|front| - 1] == s[..n];
    AtoiIsValue(s[..n], base);
    WrapMulAdd(ValueOf(s[..n], base), base, 0);
    WrapTwice(ValueOf(s[..n], base) * base);
    WrapTwice(Wrap32(ValueOf(s[..n], base)) * base);
    AtoiStays(s, base, n + 1);
  }

  lemma WrapTwice(x: int)
    ensures Wrap32(Wrap32(x) + 0) == Wrap32(x)
  {
  }

  // ----- printing -----

  /** Digits of a number, least significant first; none for zero. */
  function DigitsUp(value: nat, base: U8): seq<U8>
    requires 2 <= base <= 17
    decreases value
  {
    if value == 0 then []
    else
      DivShrinks(value, base);
      [ALPHABET[value % base]] + DigitsUp(value / base, base)
  }

  lemma DivShrinks(x: nat, d: nat)
    requires x > 0 && d >= 2
    ensures 0 <= x / d < x && 0 <= x % d < d
  {
    DivMod(x, d);
    MulLe(2, d, x / d);
  }

  /** The number as `itoa` prints it. */
  function Printed(value: int, base: U8): seq<U8>
    requires 2 <= base <= 17
  {
    var size := if value < 0 then -value else value;
    (if value < 0 then [0x2D] else []) + (if value == 0 then [0x30] else Reverse(DigitsUp(size, base)))
  }

  /** A negative number is a minus sign and its magnitude; zero is one digit, and no other number starts with one. */
  lemma SignAndFirstDigit(value: int, base: U8)
    requires 2 <= base <= 17
    ensures value < 0 ==> Printed(value, base) == Ascii("-") + Printed(-value, base)
    ensures value == 0 ==> Printed(value, base) == Ascii("0")
    ensures value > 0 ==> Printed(value, base) != [] && Printed(value, base)[0] != Ascii("0")[0]
  {
    assert Ascii("-") == [0x2D] && Ascii("0") == [0x30];
    hide Ascii, Reverse, DigitsUp;
    if value > 0 {
      FirstDigit(value, base);
      assert Printed(value, base) == Reverse(DigitsUp(value, base));
    }
  }

  lemma FirstDigit(value: nat, base: U8)
    requires 2 <= base <= 17 && value > 0
    ensures var s := Reverse(DigitsUp(value, base)); s != [] && s[0] != 0x30
  {
    hide DigitsUp;
    LastDigit(value, base);
  }

  lemma {:induction false} LastDigit(value: nat, base: U8)
    requires 2 <= base <= 17 && value > 0
    ensures var s := DigitsUp(value, base); s != [] && s[|s| - 1] != 0x30
  {
    DigitsUpStep(value, base);
    if value / base > 0 {
      DivShrinks(value, base);
      LastDigit(value / base, base);
    } else {
      DivMod(value, base);
    }
  }

  lemma {:induction false} ReverseConcat(s: seq<U8>, t: seq<U8>)
    ensures Reverse(s + t) == Reverse(t) + Reverse(s)
  {
    if s == [] {
      assert s + t == t;
    } else {
      assert (s + t)[1..] == s[1..] + t;
      ReverseConcat(s[1..], t);
    }
  }

  lemma NoDigits(value: nat, base: U8)
    requires 2 <= base <= 17
    ensures DigitsUp(value, base) == [] <==> value == 0
  {
  }

  /** A digit and what is left. */
  lemma DigitsUpOn(value: nat, base: U8, digit: nat, rest: nat)
    requires 2 <= base <= 17 && value > 0 && digit == value % base && rest == value / base
    ensures digit < 17 && rest < value
    ensures DigitsUp(value, base) == [ALPHABET[digit]] + DigitsUp(rest, base)
  {
    DivShrinks(value, base);
  }

  lemma DigitsUpStep(value: nat, base: U8)
    requires 2 <= base <= 17 && value > 0
    ensures 0 <= value % base < 17 && 0 <= value / base
    ensures DigitsUp(value, base) == [ALPHABET[value % base]] + DigitsUp(value / base, base)
  {
    DivShrinks(value, base);
  }

  /** The digits of `itoa`, least significant first. */
  method PutDigits(size: nat, str: array<U8>, base: U8) returns (i: nat)
    requires 2 <= base <= 17 && |DigitsUp(size, base)| <= str.Length
    modifies str
    ensures i == |DigitsUp(size, base)| && str[..i] == DigitsUp(size, base)
    ensures forall k :: i <= k < str.Length ==> str[k] == old(str[k])
  {
    hide DigitsUp;
    i := 0;
    var rest: nat := size;
    while rest > 0
      invariant i + |DigitsUp(rest, base)| == |DigitsUp(size, base)| <= str.Length
      invariant str[..i] + DigitsUp(rest, base) == DigitsUp(size, base)
      invariant forall k :: i <= k < str.Length ==> str[k] == old(str[k])
      decreases rest
    {
      DivShrinks(rest, base);
      var digit: nat, more: nat := rest % base, rest / base;
      DigitsUpOn(rest, base, digit, more);
      ghost var was := str[..i];
      str[i] := ALPHABET[digit];
      assert str[..i + 1] == was + [ALPHABET[digit]];
      assert was + ([ALPHABET[digit]] + DigitsUp(more, base)) == str[..i + 1] + DigitsUp(more, base);
      rest := more;
      i := i + 1;
    }
    NoDigits(0, base);
  }

  lemma PrintedParts(value: int, base: U8)
    requires 2 <= base <= 17
    ensures var digits := if value == 0 then [0x30] else DigitsUp(if value < 0 then -value else value, base);
      && Reverse(digits + if value < 0 then [0x2D] else []) == Printed(value, base)
      && |digits| + (if value < 0 then 1 else 0) == |Printed(value, base)|
  {
    if value < 0 {
      ReverseConcat(DigitsUp(-value, base), [0x2D]);
      assert Reverse([0x2D]) == [0x2D];
    } else if value == 0 {
      assert [0x30] + [] == [0x30] && Reverse([0x30]) == [0x30];
    } else {
      assert DigitsUp(value, base) + [] == DigitsUp(value, base);
    }
  }

  /** The first half of `itoa`: digits, least significant first, and the sign behind them. */
  method PutNumber(value: int, str: array<U8>, base: U8) returns (i: nat)
    requires 2 <= base <= 17 && |Printed(value, base)| < str.Length
    modifies str
    ensures i == |Printed(value, base)| && Reverse(str[..i]) == Printed(value, base)
    ensures str[i..] == old(str[i..])
  {
    hide Reverse, Printed, DigitsUp;
    PrintedParts(value, base);
    var isNeg, size: nat := value < 0, if value < 0 then -value else value;
    NoDigits(size, base);
    i := PutDigits(size, str, base);
    if i == 0 {
      str[i] := 0x30;
      i := i + 1;
    }
    ghost var digits := str[..i];
    if isNeg {
      str[i] := 0x2D;
      i := i + 1;
      assert str[..i] == digits + [0x2D];
    } else {
      assert str[..i] == digits + [];
    }
  }

  /** `itoa`: a buffer with room for the text and its terminator receives both and nothing else changes; bases
      beyond the alphabet are refused. */
  method Itoa(value: int, str: array<U8>, base: U8) returns (ok: bool)
    requires 2 <= base && -0x8000_0000 < value < 0x8000_0000
    requires base <= 17 ==> |Printed(value, base)| < str.Length
    modifies str
    ensures ok == (base <= 17)
    ensures !ok ==> str[..] == old(str[..])
    ensures ok ==>
      var n := |Printed(value, base)|;
      str[..n] == Printed(value, base) && str[n] == 0 && str[n + 1..] == old(str[n + 1..])
  {
    if base > |ALPHABET| {
      return false;
    }
    hide Printed, Reverse;
    var i := PutNumber(value, str, base);
    ghost var up := str[..i];
    str[i] := 0;
    assert str[..i] == up;
    ghost var rest := str[i..];
    StrNRev(str, i);
    assert str[i] == rest[0] && str[i + 1..] == rest[1..];
    return true;
  }

  lemma {:induction false} DigitsValue(value: nat, base: U8)
    requires 2 <= base <= 17
    ensures var s := Reverse(DigitsUp(value, base));
      (forall c :: c in s ==> IsDigit(c, base)) && ValueOf(s, base) == value
  {
    if value > 0 {
      hide Reverse;
      DivShrinks(value, base);
      DivMod(value, base);
      DigitsValue(value / base, base);
      var d, rest := ALPHABET[value % base], DigitsUp(value / base, base);
      AlphabetDigits(d) by {
        assert d <= 0x46;
      }
      ReverseSnoc(d, rest);
      var s := Reverse(rest) + [d];
      assert s[..|s| - 1] == Reverse(rest);
    } else {
      assert Reverse([]) == [];
    }
  }

  lemma ReverseSnoc(d: U8, rest: seq<U8>)
    ensures Reverse([d] + rest) == Reverse(rest) + [d]
  {
    assert ([d] + rest)[1..] == rest;
  }

  lemma AtoiZero(base: U8)
    requires 2 <= base <= 17
    ensures AtoiOn([0x30], base) == (true, 0)
  {
    assert [0x30][..0] == [] && IsDigit(0x30, base);
    assert AtoiOn([], base) == (true, 0);
  }

  /** What `itoa` prints of a non-negative number, `atoi` in the same base reads back. */
  lemma AtoiInvertsItoa(value: nat, base: U8)
    requires 2 <= base <= 16 && value < 0x8000_0000
    ensures AtoiOn(Printed(value, base), base) == (true, value)
  {
    hide Reverse, AtoiOn, DigitsUp, ValueOf, Wrap32;
    if value == 0 {
      AtoiZero(base);
      assert Printed(value, base) == [0x30];
    } else {
      var s := Reverse(DigitsUp(value, base));
      DigitsValue(value, base);
      AtoiIsValue(s, base);
      WrapId(value);
      assert Printed(value, base) == s;
    }
  }

  // ----- base 17, which `itoa` accepts -----

  /** Some digit of the number is 16, which only base 17 has; it is printed as the NUL of the alphabet. */
  predicate HasSixteen(value: nat, base: U8)
    requires 2 <= base <= 17
    decreases value
  {
    value > 0 && (DivShrinks(value, base); value % base == 16 || HasSixteen(value / base, base))
  }

  lemma {:induction false} NulDigit(value: nat, base: U8)
    requires 2 <= base <= 17
    ensures 0 in DigitsUp(value, base) <==> HasSixteen(value, base)
  {
    if value > 0 {
      DigitsUpStep(value, base);
      DivShrinks(value, base);
      NulDigit(value / base, base);
      var digit: nat := value % base;
      assert ALPHABET[digit] == 0 <==> digit == 16;
    }
  }

  lemma ReverseKeepsMembers(s: seq<U8>, c: U8)
    ensures c in Reverse(s) <==> c in s
  {
    if c in s {
      var i :| 0 <= i < |s| && s[i] == c;
      assert Reverse(s)[|s| - 1 - i] == c;
    }
  }

  lemma {:induction false} ValueGrows(s: seq<U8>, n: nat, base: U8)
    requires n <= |s| && base > 0 && forall c :: c in s ==> IsDigit(c, base)
    ensures ValueOf(s[..n], base) <= ValueOf(s, base)
  {
    if n < |s| {
      var init := s[..|s| - 1];
      assert init[..n] == s[..n];
      ValueGrows(init, n, base);
      assert s[|s| - 1] in s;
      MulLe(1, base, ValueOf(init, base));
    } else {
      assert s[..n] == s;
    }
  }

  /** The digits before the first NUL are worth less than all of them. */
  lemma CutIsLess(s: seq<U8>)
    requires 0 in s && forall c :: c in s ==> IsDigit(c, 17)
    ensures CStr(s + [0]) <= s && ValueOf(CStr(s + [0]), 17) < ValueOf(s, 17)
  {
    CStrTerminator(s);
    var n := |CStr(s)|;
    CStrEnds(s + [0], n) by {
      assert (s + [0])[..n] == s[..n] == CStr(s);
    }
    assert (s + [0])[..n] == s[..n];
    ValueGrows(s, n + 1, 17);
    assert s[..n + 1][..n] == s[..n] && s[..n + 1][n] == 0;
  }

  /** What `itoa` prints of a non-negative number and what a buffer then holds as a string: `atoi` in the same base
      reads the number back exactly when no digit is 16. In bases up to 16 none is. */
  lemma RoundTripExactly(value: nat, base: U8)
    requires 2 <= base <= 17 && value < 0x8000_0000
    ensures AtoiOn(CStr(Printed(value, base) + [0]), base) == (true, value) <==> !HasSixteen(value, base)
    ensures base <= 16 ==> !HasSixteen(value, base)
  {
    hide Reverse, AtoiOn, ValueOf, Wrap32, HasSixteen, CStr;
    SixteenNeedsBase(value, base);
    WrapId(value);
    if value == 0 {
      AtoiZero(base);
      assert Printed(value, base) == [0x30];
      CStrEnds([0x30] + [0], 1);
      NulDigit(0, base);
    } else {
      var s := Reverse(DigitsUp(value, base));
      assert Printed(value, base) == s;
      hide Printed;
      DigitsValue(value, base);
      NulDigit(value, base);
      ReverseKeepsMembers(DigitsUp(value, base), 0);
      hide DigitsUp;
      if 0 in s {
        assert base == 17;
        CutIsLess(s);
        AtoiIsValue(CStr(s + [0]), base);
        WrapId(ValueOf(CStr(s + [0]), base));
      } else {
        CStrEnds(s + [0], |s|);
        assert (s + [0])[..|s|] == s;
        AtoiIsValue(s, base);
      }
    }
  }

  lemma {:induction false} SixteenNeedsBase(value: nat, base: U8)
    requires 2 <= base <= 17
    ensures HasSixteen(value, base) ==> base == 17
  {
    if value > 0 {
      DivShrinks(value, base);
      SixteenNeedsBase(value / base, base);
    }
  }

  /** 16 in base 17: the text ends before it begins. */
  lemma SeventeenIsNotPrinted()
    ensures Printed(16, 17) == [0] && CStr(Printed(16, 17) + [0]) == [] && AtoiOn([], 17) == (true, 0)
  {
    assert DigitsUp(16, 17) == [ALPHABET[16]] + DigitsUp(0, 17) && DigitsUp(0, 17) == [];
    assert Reverse([0]) == [0] by {
      assert [0][1..] == [];
    }
  }

  lemma {:induction false} DigitsCount(value: nat, base: U8, bits: nat)
    requires 2 <= base <= 16 && value < Pow2(bits)
    ensures |DigitsUp(value, base)| <= bits
  {
    if value > 0 && bits > 0 {
      Pow2Half(bits);
      DigitsUpStep(value, base);
      hide Pow2, DigitsUp;
      DivMod(value, base);
      MulLe(2, base, value / base);
      DigitsCount(value / base, base, bits - 1);
    }
  }

  lemma Pow2Int()
    ensures Pow2(31) == 0x8000_0000
  {
    Pow2Byte();
    Pow2Add(8, 8);
    Pow2Add(16, 15);
    Pow2Add(8, 7);
    assert Pow2(7) == 0x80;
  }

  /** A printed non-negative 32-bit int has between one and 31 characters, all of them digits. */
  lemma PrintedDigits(value: nat, base: U8)
    requires 2 <= base <= 16 && value < 0x8000_0000
    ensures 1 <= |Printed(value, base)| <= 31 && forall c :: c in Printed(value, base) ==> IsDigit(c, base)
  {
    Pow2Int();
    hide Pow2;
    DigitsCount(value, base, 31);
    DigitsValue(value, base);
    if value > 0 {
      DivShrinks(value, base);
      assert Printed(value, base) == Reverse(DigitsUp(value, base));
    }
  }
}
