/**
 * stage1/options_parser.c: the character machine over reused, NUL-terminated buffers, and what it means
 * for a text that was printed from key-value pairs.
 */
module Options {
  import opened Words
  import opened Strings

  const KEY_MAX := 64
  const VALUE_MAX := 256

  const NEWLINE: U8 := 0x0A
  const RETURN: U8 := 0x0D
  const EQUALS: U8 := 0x3D

  /** "boot_binary" */
  const BOOT_BINARY: seq<U8> := [0x62, 0x6F, 0x6F, 0x74, 0x5F, 0x62, 0x69, 0x6E, 0x61, 0x72, 0x79]
  /** "load_offset" */
  const LOAD_OFFSET: seq<U8> := [0x6C, 0x6F, 0x61, 0x64, 0x5F, 0x6F, 0x66, 0x66, 0x73, 0x65, 0x74]

  /** `OutOfBuffer` stands for an access outside a buffer, where the code's behaviour is undefined. */
  datatype ParserResult = Success | UnrecognizedKey | ValueTooLong | SyntaxError | MissingKey | OutOfBuffer

  /** The options, the path as a string; None while its buffer holds no NUL, as it may before the first write. */
  datatype Opts = Opts(bootBinary: Option<seq<U8>>, loadOffset: U32)

  /** Base and digits of a load offset. */
  function OffsetParts(value: seq<U8>): (U8, seq<U8>) {
    if |value| > 2 && value[0] == 0x30 && value[1] == 0x78 then (16, value[2..]) else (10, value)
  }

  /** `update_options` on strings. */
  function Update(key: seq<U8>, value: seq<U8>, o: Opts): (ParserResult, Opts) {
    if |key| > KEY_MAX then (UnrecognizedKey, o)
    else if |value| > VALUE_MAX then (ValueTooLong, o)
    else if key == BOOT_BINARY then (Success, o.(bootBinary := Some(value)))
    else if key == LOAD_OFFSET then
      var (base, digits) := OffsetParts(value);
      var (ok, out) := AtoiOn(digits, base);
      (if ok then Success else SyntaxError, o.(loadOffset := out))
    else (UnrecognizedKey, o)
  }

  // ----- the machine -----

  /** The locals of `parse`: both buffers, the write index and the side of the `=`. */
  datatype Parser = Parser(key: seq<U8>, value: seq<U8>, j: nat, inKey: bool, opts: Opts)

  datatype Outcome = Going(parser: Parser) | Stopped(result: ParserResult, opts: Opts)

  /** One character. */
  function Step(p: Parser, c: U8): Outcome {
    if c == NEWLINE then
      if p.j >= |p.value| || 0 !in p.key then Stopped(OutOfBuffer, p.opts)
      else
        var value := p.value[p.j := 0];
        var (result, opts) := Update(CStr(p.key), CStr(value), p.opts);
        if result != Success then Stopped(result, opts) else Going(Parser(p.key, value, 0, true, opts))
    else if c == RETURN then Going(p)
    else if c == EQUALS then
      if p.j >= |p.key| then Stopped(OutOfBuffer, p.opts)
      else Going(p.(key := p.key[p.j := 0], j := 0, inKey := false))
    else if p.inKey then
      if p.j > KEY_MAX || p.j >= |p.key| then Stopped(UnrecognizedKey, p.opts)
      else Going(p.(key := p.key[p.j := c], j := p.j + 1))
    else
      if p.j > VALUE_MAX || p.j >= |p.value| then Stopped(ValueTooLong, p.opts)
      else Going(p.(value := p.value[p.j := c], j := p.j + 1))
  }

  /** All characters of a text. */
  function Run(p: Parser, text: seq<U8>): Outcome {
    if text == [] then Going(p)
    else
      match Run(p, text[..|text| - 1])
      case Stopped(r, o) => Stopped(r, o)
      case Going(q) => Step(q, text[|text| - 1])
  }

  /** The check after the last character. */
  function Conclude(o: Outcome): (ParserResult, Opts) {
    match o
    case Stopped(r, opts) => (r, opts)
    case Going(p) => (LastCheck(p.opts), p.opts)
  }

  /** A path must have been given; asking for its length reads on behind a buffer without NUL. */
  function LastCheck(o: Opts): ParserResult {
    match o.bootBinary
    case None => OutOfBuffer
    case Some(path) => if path == [] then MissingKey else Success
  }

  lemma {:induction false} RunConcat(p: Parser, s: seq<U8>, t: seq<U8>)
    ensures Run(p, s + t) == match Run(p, s) case Stopped(r, o) => Stopped(r, o) case Going(q) => Run(q, t)
  {
    if t == [] {
      assert s + t == s;
    } else {
      assert (s + t)[..|s + t| - 1] == s + t[..|t| - 1];
      RunConcat(p, s, t[..|t| - 1]);
    }
  }

  // ----- printed texts -----

  predicate Plain(c: U8) {
    c != 0 && c != NEWLINE && c != RETURN && c != EQUALS
  }

  predicate AllPlain(s: seq<U8>) {
    forall c :: c in s ==> Plain(c)
  }

  /** A line with equals signs: what comes before the first, between them, and behind the last. */
  datatype Pair = Pair(key: seq<U8>, middle: seq<seq<U8>>, value: seq<U8>) {
    /** The parts are free of separators. */
    predicate Printable() {
      AllPlain(key) && AllPlain(value) && forall i :: 0 <= i < |middle| ==> AllPlain(middle[i])
    }

    function Line(): seq<U8> {
      key + [EQUALS] + Rest(middle, value)
    }
  }

  /** A line behind its first equals sign. */
  function Rest(middle: seq<seq<U8>>, value: seq<U8>): seq<U8> {
    if middle == [] then value + [NEWLINE] else middle[0] + [EQUALS] + Rest(middle[1..], value)
  }

  /** One pair per line. */
  function Print(pairs: seq<Pair>): seq<U8> {
    if pairs == [] then [] else pairs[0].Line() + Print(pairs[1..])
  }

  /** The text with every carriage return taken out. */
  function WithoutReturns(s: seq<U8>): (r: seq<U8>)
    ensures 0x0D !in r
  {
    if s == [] then []
    else
      var init, last := WithoutReturns(s[..|s| - 1]), s[|s| - 1];
      if last == RETURN then init else init + [last]
  }

  lemma {:induction false} ReturnsAreIgnored(p: Parser, s: seq<U8>)
    ensures Run(p, s) == Run(p, WithoutReturns(s))
  {
    if s != [] {
      var init, last := s[..|s| - 1], s[|s| - 1];
      hide Run, Step;
      ReturnsAreIgnored(p, init);
      assert s == init + [last];
      StepReturn(p, init, last);
    }
  }

  lemma StepReturn(p: Parser, init: seq<U8>, last: U8)
    requires Run(p, init) == Run(p, WithoutReturns(init))
    ensures var s := WithoutReturns(init);
      Run(p, init + [last]) == Run(p, if last == RETURN then s else s + [last])
  {
    hide Run;
    RunConcat(p, init, [last]);
    RunConcat(p, WithoutReturns(init), [last]);
    match Run(p, init)
    case Stopped(_, _) =>
    case Going(q) => RunOne(q, last);
  }

  /** A NUL at position `n` of a string's buffer. */
  function Cut(key: seq<U8>, n: nat): seq<U8> {
    if n < |key| then key[..n] else key
  }

  /** The meaning of a line: an update within the length limits. One character beyond them the terminator goes behind
      the buffer, and still longer parts are reported. */
  function Decided(pair: Pair, o: Opts): (ParserResult, Opts) {
    if |pair.key| > KEY_MAX + 1 then (UnrecognizedKey, o)
    else if |pair.key| == KEY_MAX + 1 then (OutOfBuffer, o)
    else DecidedBehind(pair.key, pair.middle, pair.value, o)
  }

  /** The meaning of a line behind its first equals sign: each further one cuts the key to the length of what stands
      before it, and goes behind the key buffer if that is longer than a key. */
  function DecidedBehind(key: seq<U8>, middle: seq<seq<U8>>, value: seq<U8>, o: Opts): (ParserResult, Opts) {
    if middle == [] then
      if |value| > VALUE_MAX + 1 then (ValueTooLong, o)
      else if |value| == VALUE_MAX + 1 then (OutOfBuffer, o)
      else Update(key, value, o)
    else if |middle[0]| > VALUE_MAX + 1 then (ValueTooLong, o)
    else if |middle[0]| > KEY_MAX then (OutOfBuffer, o)
    else DecidedBehind(Cut(key, |middle[0]|), middle[1..], value, o)
  }

  /** The meaning of a list of pairs: one after the other, up to the first failure, then the final check. */
  function Fold(pairs: seq<Pair>, o: Opts): (ParserResult, Opts) {
    if pairs == [] then (LastCheck(o), o)
    else
      var (result, opts) := Decided(pairs[0], o);
      if result != Success then (result, opts) else Fold(pairs[1..], opts)
  }

  /** Between lines: buffers of their full size, nothing typed yet. */
  predicate AtLineStart(p: Parser) {
    |p.key| == KEY_MAX + 1 && |p.value| == VALUE_MAX + 1 && p.j == 0 && p.inKey
  }

  lemma {:induction false} TypeKey(p: Parser, s: seq<U8>)
    requires |p.key| == KEY_MAX + 1 && p.inKey && p.j == 0 && |s| <= KEY_MAX + 1 && AllPlain(s)
    ensures Run(p, s) == Going(p.(key := s + p.key[|s|..], j := |s|))
  {
    if s == [] {
      assert s + p.key[0..] == p.key;
    } else {
      var init, last := s[..|s| - 1], s[|s| - 1];
      TypeKey(p, init);
      assert last in s;
      assert (init + p.key[|init|..])[|init| := last] == s + p.key[|s|..];
    }
  }

  lemma {:induction false} TypeValue(p: Parser, s: seq<U8>)
    requires |p.value| == VALUE_MAX + 1 && !p.inKey && p.j == 0
    requires |s| <= VALUE_MAX + 1 && AllPlain(s)
    ensures Run(p, s) == Going(p.(value := s + p.value[|s|..], j := |s|))
  {
    if s == [] {
      assert s + p.value[0..] == p.value;
    } else {
      var init, last := s[..|s| - 1], s[|s| - 1];
      TypeValue(p, init);
      assert last in s;
      assert (init + p.value[|init|..])[|init| := last] == s + p.value[|s|..];
    }
  }

  lemma RunOne(p: Parser, c: U8)
    ensures Run(p, [c]) == Step(p, c)
  {
    assert [c][..0] == [];
  }

  /** A terminated string in a buffer, whatever lies behind the terminator. */
  lemma Terminate(s: seq<U8>, stale: seq<U8>)
    requires 0 !in s && stale != []
    ensures (s + stale)[|s| := 0] == s + [0] + stale[1..]
    ensures CStr((s + stale)[|s| := 0]) == s && 0 in (s + stale)[|s| := 0]
  {
    var b := (s + stale)[|s| := 0];
    assert b[..|s|] == s && b[|s|] == 0;
    CStrEnds(b, |s|);
  }

  /** A run either stops with a failure or comes to the start of a line. */
  ghost predicate DoesWhat(o: Outcome, what: (ParserResult, Opts)) {
    match o
    case Stopped(r, opts) => what.0 != Success && what == (r, opts)
    case Going(q) => what.0 == Success && AtLineStart(q) && q.opts == what.1
  }

  /** The parser behind a key and its equals sign. */
  function Keyed(p: Parser, k: seq<U8>): Parser
    requires |p.key| == KEY_MAX + 1 && |k| <= KEY_MAX
  {
    p.(key := k + [0] + p.key[|k| + 1..], j := 0, inKey := false)
  }

  lemma TypeKeyLine(p: Parser, k: seq<U8>)
    requires AtLineStart(p) && |k| <= KEY_MAX && AllPlain(k)
    ensures Run(p, k + [EQUALS]) == Going(Keyed(p, k)) && CStr(Keyed(p, k).key) == k && 0 in Keyed(p, k).key
  {
    hide Update;
    RunConcat(p, k, [EQUALS]);
    TypeKey(p, k);
    var p1 := p.(key := k + p.key[|k|..], j := |k|);
    RunOne(p1, EQUALS);
    Terminate(k, p.key[|k|..]);
    assert p.key[|k|..][1..] == p.key[|k| + 1..];
  }

  /** A key that does not even fit its buffer without a terminator, whatever comes next. */
  lemma TooLongKey(p: Parser, k: seq<U8>, rest: seq<U8>)
    requires AtLineStart(p) && AllPlain(k) && |k| > KEY_MAX + 1
    ensures Run(p, k + rest) == Stopped(UnrecognizedKey, p.opts)
  {
    hide Run;
    var n, text := KEY_MAX + 1, k + rest;
    TypeKey(p, k[..n]);
    RunConcat(p, k[..n], [k[n]]);
    RunOne(Run(p, k[..n]).parser, k[n]);
    assert k[n] in k && text[..n + 1] == k[..n] + [k[n]];
    StoppedStays(p, text, n + 1);
  }

  /** A key of 65 characters and an equals sign: the NUL goes behind the key buffer. */
  lemma LongKeyOverruns(p: Parser, key: seq<U8>)
    requires AtLineStart(p) && |key| == KEY_MAX + 1 && AllPlain(key)
    ensures Run(p, key + [EQUALS]) == Stopped(OutOfBuffer, p.opts)
  {
    var init, last := key[..KEY_MAX], key[KEY_MAX];
    TypeKey(p, init);
    assert last in key;
    assert key[..|key| - 1] == init && (key + [EQUALS])[..|key|] == key;
    assert Run(p, key) == Step(Run(p, init).parser, last);
    assert Run(p, key + [EQUALS]) == Step(Run(p, key).parser, EQUALS);
  }

  /** At the start of a value: buffers of their full size, a key in its buffer. */
  predicate AtValueStart(p: Parser) {
    |p.key| == KEY_MAX + 1 && |p.value| == VALUE_MAX + 1 && p.j == 0 && !p.inKey && 0 in p.key
  }

  /** A value that does not even fit its buffer without a terminator, whatever comes next. */
  lemma TooLongValue(p: Parser, v: seq<U8>, rest: seq<U8>)
    requires AtValueStart(p) && AllPlain(v) && |v| > VALUE_MAX + 1
    ensures Run(p, v + rest) == Stopped(ValueTooLong, p.opts)
  {
    hide Run;
    var n, text := VALUE_MAX + 1, v + rest;
    TypeValue(p, v[..n]);
    RunConcat(p, v[..n], [v[n]]);
    RunOne(Run(p, v[..n]).parser, v[n]);
    assert v[n] in v && text[..n + 1] == v[..n] + [v[n]];
    StoppedStays(p, text, n + 1);
  }

  /** The last value of a line. */
  lemma LastValue(p: Parser, v: seq<U8>)
    requires AtValueStart(p) && AllPlain(v)
    ensures DoesWhat(Run(p, v + [NEWLINE]), DecidedBehind(CStr(p.key), [], v, p.opts))
  {
    hide Update, CStr, Run;
    if |v| > VALUE_MAX + 1 {
      TooLongValue(p, v, [NEWLINE]);
    } else {
      TypeValue(p, v);
      RunConcat(p, v, [NEWLINE]);
      RunOne(Run(p, v).parser, NEWLINE);
      if |v| <= VALUE_MAX {
        Terminate(v, p.value[|v|..]);
        KeyIsShort(p.key);
      }
    }
  }

  lemma KeyIsShort(key: seq<U8>)
    requires 0 in key
    ensures |CStr(key)| < |key|
  {
  }

  lemma {:induction false} Unterminated(buffer: seq<U8>)
    requires 0 !in buffer
    ensures CStr(buffer) == buffer
  {
    if buffer != [] {
      Unterminated(buffer[1..]);
    }
  }

  /** A NUL put into a buffer. */
  lemma CutBuffer(buffer: seq<U8>, n: nat)
    requires n < |buffer|
    ensures CStr(buffer[n := 0]) == Cut(CStr(buffer), n) && 0 in buffer[n := 0]
  {
    var b, text := buffer[n := 0], CStr(buffer);
    if 0 in buffer {
      CStrTerminator(buffer);
    } else {
      Unterminated(buffer);
    }
    var at := |Cut(text, n)|;
    assert b[n] == 0 && b[..at] == Cut(text, n);
    CStrEnds(b, at);
  }

  /** A value with an equals sign behind it: the sign's NUL goes into the key buffer. */
  lemma FurtherEquals(p: Parser, m: seq<U8>)
    requires AtValueStart(p) && AllPlain(m) && |m| <= VALUE_MAX + 1
    ensures |m| > KEY_MAX ==> Run(p, m + [EQUALS]) == Stopped(OutOfBuffer, p.opts)
    ensures |m| <= KEY_MAX ==> exists q ::
      Run(p, m + [EQUALS]) == Going(q) && AtValueStart(q) && CStr(q.key) == Cut(CStr(p.key), |m|) && q.opts == p.opts
  {
    hide CStr, Cut, Run, Update;
    TypeValue(p, m);
    RunConcat(p, m, [EQUALS]);
    RunOne(Run(p, m).parser, EQUALS);
    if |m| <= KEY_MAX {
      CutBuffer(p.key, |m|);
    }
  }

  /** A line behind its first equals sign. */
  lemma {:induction false} RunRest(p: Parser, middle: seq<seq<U8>>, value: seq<U8>)
    requires AtValueStart(p) && AllPlain(value) && forall i :: 0 <= i < |middle| ==> AllPlain(middle[i])
    ensures DoesWhat(Run(p, Rest(middle, value)), DecidedBehind(CStr(p.key), middle, value, p.opts))
    decreases |middle|
  {
    hide Run, CStr, Cut, AtValueStart, AllPlain;
    if middle == [] {
      LastValue(p, value);
    } else {
      var m, rest := middle[0], Rest(middle[1..], value);
      if |m| > VALUE_MAX + 1 {
        assert m + [EQUALS] + rest == m + ([EQUALS] + rest);
        TooLongValue(p, m, [EQUALS] + rest);
      } else {
        FurtherEquals(p, m);
        RunConcat(p, m + [EQUALS], rest);
        if |m| <= KEY_MAX {
          var q :| Run(p, m + [EQUALS]) == Going(q) && AtValueStart(q) && CStr(q.key) == Cut(CStr(p.key), |m|)
                   && q.opts == p.opts;
          RunRest(q, middle[1..], value);
        }
      }
    }
  }

  /** One line with an equals sign, of any length, does what its parts say; stale buffer contents do not matter. */
  lemma LineIsDecided(p: Parser, pair: Pair)
    requires AtLineStart(p) && pair.Printable()
    ensures DoesWhat(Run(p, pair.Line()), Decided(pair, p.opts))
  {
    hide Run, DecidedBehind;
    var key, rest := pair.key, Rest(pair.middle, pair.value);
    if |key| > KEY_MAX + 1 {
      assert pair.Line() == key + ([EQUALS] + rest);
      TooLongKey(p, key, [EQUALS] + rest);
    } else {
      RunConcat(p, key + [EQUALS], rest);
      if |key| > KEY_MAX {
        LongKeyOverruns(p, key);
      } else {
        TypeKeyLine(p, key);
        RunRest(Keyed(p, key), pair.middle, pair.value);
      }
    }
  }

  /** A line without equals sign is taken for a key; it runs on into what the key buffer held, and the value of the
      line before is cut to its length. */
  function DecidedWithout(p: Parser, key: seq<U8>): (ParserResult, Opts)
    requires AtLineStart(p)
  {
    if |key| > KEY_MAX + 1 then (UnrecognizedKey, p.opts)
    else if 0 !in p.key[|key|..] then (OutOfBuffer, p.opts)
    else Update(key + CStr(p.key[|key|..]), Cut(CStr(p.value), |key|), p.opts)
  }

  lemma LineWithoutEquals(p: Parser, key: seq<U8>)
    requires AtLineStart(p) && AllPlain(key)
    ensures DoesWhat(Run(p, key + [NEWLINE]), DecidedWithout(p, key))
  {
    hide Run, Update, CStr;
    if |key| > KEY_MAX + 1 {
      TooLongKey(p, key, [NEWLINE]);
    } else {
      TypeKey(p, key);
      RunConcat(p, key, [NEWLINE]);
      RunOne(Run(p, key).parser, NEWLINE);
      var stale := p.key[|key|..];
      assert forall i :: 0 <= i < |key| ==> key[i] in key;
      assert 0 in key + stale <==> 0 in stale;
      if 0 in stale {
        RunsOn(key, stale);
        CutBuffer(p.value, |key|);
      }
    }
  }

  /** A string without terminator runs on into what follows. */
  lemma RunsOn(s: seq<U8>, stale: seq<U8>)
    requires 0 !in s && 0 in stale
    ensures CStr(s + stale) == s + CStr(stale)
  {
    CStrTerminator(stale);
    var n := |CStr(stale)|;
    assert (s + stale)[..|s| + n] == s + CStr(stale);
    CStrEnds(s + stale, |s| + n);
  }

  /** Part `k` of a line behind its first equals sign fills the buffer its terminator goes to, or outgrows a key. */
  predicate Overlong(middle: seq<seq<U8>>, value: seq<U8>, k: nat)
    requires k <= |middle|
  {
    if k < |middle| then 64 < |middle[k]| <= 257 else |value| == 257
  }

  /** The lengths at which a line leaves the buffers behind its first equals sign. */
  predicate LeavesBehind(middle: seq<seq<U8>>, value: seq<U8>) {
    exists k: nat ::
      k <= |middle| && Overlong(middle, value, k) && forall i :: 0 <= i < k ==> |middle[i]| <= 64
  }

  lemma UpdateInBuffer(key: seq<U8>, value: seq<U8>, o: Opts)
    ensures Update(key, value, o).0 != OutOfBuffer
  {
  }

  lemma {:induction false} LeavesBehindExactly(key: seq<U8>, middle: seq<seq<U8>>, value: seq<U8>, o: Opts)
    ensures DecidedBehind(key, middle, value, o) == (OutOfBuffer, o) <==> LeavesBehind(middle, value)
    ensures DecidedBehind(key, middle, value, o).0 == OutOfBuffer ==> LeavesBehind(middle, value)
    decreases |middle|
  {
    hide Update;
    UpdateInBuffer(key, value, o);
    if middle == [] {
      assert LeavesBehind(middle, value) <==> Overlong(middle, value, 0);
    } else {
      assert Overlong(middle, value, 0) <==> KEY_MAX < |middle[0]| <= VALUE_MAX + 1;
      LeavesBehindExactly(Cut(key, |middle[0]|), middle[1..], value, o);
      if |middle[0]| <= KEY_MAX {
        LeavesBehindStep(middle, value);
      }
    }
  }

  lemma LeavesBehindStep(middle: seq<seq<U8>>, value: seq<U8>)
    requires middle != [] && |middle[0]| <= KEY_MAX
    ensures LeavesBehind(middle, value) <==> LeavesBehind(middle[1..], value)
  {
    var rest := middle[1..];
    forall k: nat | k <= |rest| ensures Overlong(rest, value, k) <==> Overlong(middle, value, k + 1) {
    }
    if LeavesBehind(middle, value) {
      var k: nat :| k <= |middle| && Overlong(middle, value, k) && forall i :: 0 <= i < k ==> |middle[i]| <= KEY_MAX;
      assert Overlong(rest, value, k - 1);
    }
    if LeavesBehind(rest, value) {
      var k: nat :| k <= |rest| && Overlong(rest, value, k) && forall i :: 0 <= i < k ==> |rest[i]| <= KEY_MAX;
      assert forall i :: 0 < i < k + 1 ==> middle[i] == rest[i - 1];
      assert Overlong(middle, value, k + 1);
    }
  }

  /** A line makes the code leave its buffers exactly at these lengths of its parts. */
  lemma LineLeavesExactly(p: Parser, pair: Pair)
    requires AtLineStart(p) && pair.Printable()
    ensures Run(p, pair.Line()) == Stopped(OutOfBuffer, p.opts) <==>
      |pair.key| == 65 || (|pair.key| <= 64 && LeavesBehind(pair.middle, pair.value))
  {
    hide Run, DecidedBehind, LeavesBehind;
    LineIsDecided(p, pair);
    LeavesBehindExactly(pair.key, pair.middle, pair.value, p.opts);
  }

  /** A second equals sign behind more than a key's length of value: its NUL goes behind the key buffer. */
  lemma SecondEqualsOverruns(p: Parser, key: seq<U8>, value: seq<U8>)
    requires AtLineStart(p) && |key| <= KEY_MAX < |value| <= VALUE_MAX + 1
    requires AllPlain(key) && AllPlain(value)
    ensures Run(p, key + [EQUALS] + value + [EQUALS]) == Stopped(OutOfBuffer, p.opts)
  {
    TypeKeyLine(p, key);
    TypeValue(Keyed(p, key), value);
    RunConcat(p, key + [EQUALS], value);
    RunConcat(p, key + [EQUALS] + value, [EQUALS]);
    RunOne(Run(p, key + [EQUALS] + value).parser, EQUALS);
  }

  /** Parsing inverts printing: on a printed text the machine does what the pairs say. */
  lemma {:induction false} RunOfPrint(p: Parser, pairs: seq<Pair>)
    requires AtLineStart(p) && forall i :: 0 <= i < |pairs| ==> pairs[i].Printable()
    ensures Conclude(Run(p, Print(pairs))) == Fold(pairs, p.opts)
    decreases |pairs|
  {
    if pairs == [] {
      assert Run(p, []) == Going(p);
    } else {
      hide Run, Decided, AtLineStart;
      LineIsDecided(p, pairs[0]);
      RunConcat(p, pairs[0].Line(), Print(pairs[1..]));
      match Run(p, pairs[0].Line())
      case Stopped(r, o) =>
      case Going(q) => RunOfPrint(q, pairs[1..]);
    }
  }

  // ----- configurations as a user writes them -----

  /** One line of a configuration: a path, or a load offset in decimal or hexadecimal. */
  datatype Setting = Path(path: seq<U8>) | Offset(value: nat, hex: bool) {
    predicate Writable() {
      match this
      case Path(path) => |path| <= 256 && forall c :: c in path ==> c != 0 && c !in Ascii("\r\n=")
      case Offset(value, _) => value < 0x8000_0000
    }

    function Text(): seq<U8>
      requires Writable()
    {
      match this
      case Path(path) => Ascii("boot_binary=") + path + Ascii("\n")
      case Offset(value, hex) =>
        Ascii("load_offset=") + (if hex then Ascii("0x") + Printed(value, 16) else Printed(value, 10)) + Ascii("\n")
    }
  }

  predicate AllWritable(settings: seq<Setting>) {
    forall i :: 0 <= i < |settings| ==> settings[i].Writable()
  }

  /** The whole configuration. */
  function Written(settings: seq<Setting>): seq<U8>
    requires AllWritable(settings)
  {
    if settings == [] then [] else Written(settings[..|settings| - 1]) + settings[|settings| - 1].Text()
  }

  /** The path in force: the last one written, or the one from before. */
  function LastPath(settings: seq<Setting>, before: Option<seq<U8>>): Option<seq<U8>> {
    if settings == [] then before
    else
      match settings[|settings| - 1]
      case Path(path) => Some(path)
      case Offset(_, _) => LastPath(settings[..|settings| - 1], before)
  }

  /** The load offset in force. */
  function LastOffset(settings: seq<Setting>, before: U32): U32
    requires AllWritable(settings)
  {
    if settings == [] then before
    else
      match settings[|settings| - 1]
      case Path(_) => LastOffset(settings[..|settings| - 1], before)
      case Offset(value, _) => value
  }

  lemma Names()
    ensures Ascii("boot_binary") == BOOT_BINARY && Ascii("boot_binary=") == BOOT_BINARY + [EQUALS]
    ensures AllPlain(BOOT_BINARY) && AllPlain(LOAD_OFFSET)
    ensures Ascii("load_offset") == LOAD_OFFSET && Ascii("load_offset=") == LOAD_OFFSET + [EQUALS]
    ensures Ascii("\n") == [NEWLINE] && Ascii("0x") == [0x30, 0x78] && Ascii("\r\n=") == [RETURN, NEWLINE, EQUALS]
  {
  }

  /** One line of a configuration sets what it names and nothing else. */
  lemma LineSets(p: Parser, s: Setting)
    requires AtLineStart(p) && s.Writable()
    ensures DoesWhat(Run(p, s.Text()),
                     (Success,
                      if s.Path? then p.opts.(bootBinary := Some(s.path)) else p.opts.(loadOffset := s.value)))
  {
    match s
    case Path(path) => PathLineSets(p, path);
    case Offset(value, hex) => OffsetLineSets(p, value, hex);
  }

  lemma PathLineSets(p: Parser, path: seq<U8>)
    requires AtLineStart(p) && Path(path).Writable()
    ensures DoesWhat(Run(p, Path(path).Text()), (Success, p.opts.(bootBinary := Some(path))))
  {
    Names();
    hide Run, Update, Ascii;
    var pair := Pair(BOOT_BINARY, [], path);
    assert Path(path).Text() == pair.Line();
    LineIsDecided(p, pair);
    UpdatePath(path, p.opts);
  }

  lemma OffsetLineSets(p: Parser, value: nat, hex: bool)
    requires AtLineStart(p) && Offset(value, hex).Writable()
    ensures DoesWhat(Run(p, Offset(value, hex).Text()), (Success, p.opts.(loadOffset := value)))
  {
    Names();
    hide Run, Update, Ascii, Printed, AllPlain;
    var digits := if hex then [0x30, 0x78] + Printed(value, 16) else Printed(value, 10);
    OffsetIsPlain(value);
    var pair := Pair(LOAD_OFFSET, [], digits);
    assert Offset(value, hex).Text() == pair.Line();
    LineIsDecided(p, pair);
    LoadOffsetRoundTrip(value, p.opts);
  }

  /** Any offset line: a value of digits only is read as a number modulo 2^32, in hexadecimal behind a prefix 0x, and
      any other value is a syntax error. */
  lemma OffsetLineDecides(p: Parser, value: seq<U8>)
    requires AtLineStart(p) && AllPlain(value) && |value| <= 256
    ensures var hex := |value| > 2 && value[..2] == Ascii("0x");
      var base, digits := if hex then 16 else 10, if hex then value[2..] else value;
      var run := Run(p, Ascii("load_offset=") + value + Ascii("\n"));
      if forall c :: c in digits ==> IsDigit(c, base) then
        DoesWhat(run, (Success, p.opts.(loadOffset := ValueOf(digits, base) % 0x1_0000_0000)))
      else
        run.Stopped? && run.result == SyntaxError && run.opts.bootBinary == p.opts.bootBinary
  {
    Names();
    UpdateOffset(value, p.opts);
    hide Run, Update, Ascii, AllPlain, IsDigit, ValueOf;
    var pair := Pair(LOAD_OFFSET, [], value);
    assert Ascii("load_offset=") + value + Ascii("\n") == pair.Line();
    LineIsDecided(p, pair);
  }

  lemma UpdateOffset(value: seq<U8>, o: Opts)
    requires |value| <= 256
    ensures var hex := |value| > 2 && value[..2] == [0x30, 0x78];
      var base, digits := if hex then 16 else 10, if hex then value[2..] else value;
      var updated := Update(LOAD_OFFSET, value, o);
      if forall c :: c in digits ==> IsDigit(c, base) then
        updated == (Success, o.(loadOffset := ValueOf(digits, base) % 0x1_0000_0000))
      else
        updated.0 == SyntaxError && updated.1.bootBinary == o.bootBinary
  {
    hide AtoiOn, ValueOf, IsDigit;
    var (base, digits) := OffsetParts(value);
    AtoiIsValue(digits, base);
  }

  lemma UpdatePath(path: seq<U8>, o: Opts)
    requires |path| <= 256
    ensures Update(BOOT_BINARY, path, o) == (Success, o.(bootBinary := Some(path)))
  {
  }

  lemma OffsetIsPlain(value: nat)
    requires value < 0x8000_0000
    ensures AllPlain(Printed(value, 10)) && AllPlain([0x30, 0x78] + Printed(value, 16))
    ensures |Printed(value, 10)| <= 32 && |Printed(value, 16)| <= 32
  {
    hide Printed;
    PrintedDigits(value, 10);
    PrintedDigits(value, 16);
  }

  /** A configuration sets the last path and the last offset it names; what it does not name stays. */
  lemma {:induction false} ConfigurationSets(p: Parser, settings: seq<Setting>)
    requires AtLineStart(p) && AllWritable(settings)
    ensures DoesWhat(Run(p, Written(settings)),
                     (Success,
                      Opts(LastPath(settings, p.opts.bootBinary), LastOffset(settings, p.opts.loadOffset))))
    decreases |settings|
  {
    if settings == [] {
      RunNothing(p);
    } else {
      hide Run, AtLineStart, Setting.Text;
      var init, last := settings[..|settings| - 1], settings[|settings| - 1];
      ConfigurationSets(p, init);
      RunConcat(p, Written(init), last.Text());
      LineSets(Run(p, Written(init)).parser, last);
    }
  }

  /** A line with any other key stops the parser there, whatever follows. */
  lemma OtherKeyStops(p: Parser, key: seq<U8>, value: seq<U8>, rest: seq<U8>)
    requires AtLineStart(p) && AllPlain(key) && AllPlain(value) && |key| <= 64 && |value| <= 256
    requires key != Ascii("boot_binary") && key != Ascii("load_offset")
    ensures Run(p, key + Ascii("=") + value + Ascii("\n") + rest) == Stopped(UnrecognizedKey, p.opts)
  {
    hide Run, AtLineStart;
    Names();
    var pair := Pair(key, [], value);
    assert key + Ascii("=") + value + Ascii("\n") == pair.Line();
    LineIsDecided(p, pair);
    RunConcat(p, pair.Line(), rest);
  }

  // ----- texts that leave the buffers -----

  /** Characters since the last separator, carriage returns aside. */
  function Typed(text: seq<U8>): nat {
    if text == [] then 0
    else
      var c := text[|text| - 1];
      if c == NEWLINE || c == EQUALS then 0
      else Typed(text[..|text| - 1]) + if c == RETURN then 0 else 1
  }

  /** A character that makes the code write or read outside its buffers: an equals sign behind more than a key's
      length, a newline behind more than a value's length, or a newline in a line without equals sign while the key
      buffer holds no NUL. */
  predicate Overruns(p: Parser, typed: nat, c: U8) {
    || (c == EQUALS && typed > KEY_MAX)
    || (c == NEWLINE && (typed > VALUE_MAX || (p.inKey && 0 !in p.key)))
  }

  lemma {:induction false} TypedSoFar(p: Parser, text: seq<U8>)
    requires AtLineStart(p) && Run(p, text).Going?
    ensures var q := Run(p, text).parser;
      && |q.key| == KEY_MAX + 1 && |q.value| == VALUE_MAX + 1 && q.j == Typed(text) && (!q.inKey ==> 0 in q.key)
  {
    if text != [] {
      hide Update;
      TypedSoFar(p, text[..|text| - 1]);
      var q := Run(p, text[..|text| - 1]).parser;
      if q.j < |q.key| {
        assert q.key[q.j := 0][q.j] == 0;
      }
    }
  }

  lemma StepOverruns(p: Parser, typed: nat, c: U8)
    requires |p.key| == KEY_MAX + 1 && |p.value| == VALUE_MAX + 1 && p.j == typed && (!p.inKey ==> 0 in p.key)
    ensures Step(p, c).Stopped? && Step(p, c).result == OutOfBuffer <==> Overruns(p, typed, c)
  {
    hide Update;
    if c == NEWLINE && p.j < |p.value| {
      UpdateInBuffer(CStr(p.key), CStr(p.value[p.j := 0]), p.opts);
    }
  }

  /** The run gets to position `i` of the text and leaves the buffers there. */
  ghost predicate LeavesAt(p: Parser, text: seq<U8>, i: nat) {
    && i < |text| && Run(p, text[..i]).Going?
    && Overruns(Run(p, text[..i]).parser, Typed(text[..i]), text[i])
  }

  /** The exact texts on which the code leaves its buffers. */
  lemma {:induction false} LeavesBuffersExactly(p: Parser, text: seq<U8>)
    requires AtLineStart(p)
    ensures Run(p, text).Stopped? && Run(p, text).result == OutOfBuffer <==> exists i: nat :: LeavesAt(p, text, i)
  {
    if text == [] {
      assert forall i: nat :: !LeavesAt(p, text, i);
    } else {
      var n := |text| - 1;
      var init := text[..n];
      LeavesBuffersExactly(p, init);
      LeavesAtLast(p, text);
      forall i: nat | i != n ensures LeavesAt(p, text, i) <==> LeavesAt(p, init, i) {
        if i < n {
          assert init[..i] == text[..i] && init[i] == text[i];
        }
      }
      hide LeavesAt, Step;
      if Run(p, init).Going? {
        assert Run(p, text) == Step(Run(p, init).parser, text[n]);
      }
    }
  }

  /** The last position: reached by a run that has not left the buffers before. */
  lemma LeavesAtLast(p: Parser, text: seq<U8>)
    requires AtLineStart(p) && text != []
    ensures var n := |text| - 1;
      && (Run(p, text[..n]).Stopped? ==> !LeavesAt(p, text, n))
      && (Run(p, text[..n]).Going? ==>
            (LeavesAt(p, text, n) <==>
               var o := Step(Run(p, text[..n]).parser, text[n]); o.Stopped? && o.result == OutOfBuffer))
  {
    hide Overruns, Step, Typed;
    var init := text[..|text| - 1];
    if Run(p, init).Going? {
      TypedSoFar(p, init);
      StepOverruns(Run(p, init).parser, Typed(init), text[|text| - 1]);
    }
  }

  // ----- the code -----

  /** `boot_options_t` */
  class BootOptions {
    const bootBinary: array<U8>
    var loadOffset: U32

    /** The structure as it is found on the stack. */
    constructor (bootBinary: array<U8>, loadOffset: U32)
      requires bootBinary.Length == VALUE_MAX + 1
      ensures Valid() && this.bootBinary == bootBinary && this.loadOffset == loadOffset
    {
      this.bootBinary, this.loadOffset := bootBinary, loadOffset;
    }

    ghost predicate Valid() {
      bootBinary.Length == VALUE_MAX + 1
    }

    ghost function View(): Opts
      reads this, bootBinary
    {
      Opts(if 0 in bootBinary[..] then Some(CStr(bootBinary[..])) else None, loadOffset)
    }

    /** A string of `n` characters and its terminator into the path's buffer. */
    method CopyPath(value: seq<U8>, n: nat)
      requires Valid() && n <= |value| && n <= VALUE_MAX && 0 !in value[..n]
      modifies bootBinary
      ensures 0 in bootBinary[..] && CStr(bootBinary[..]) == value[..n]
    {
      forall i | 0 <= i < n {
        bootBinary[i] := value[i];
      }
      bootBinary[n] := 0;
      assert bootBinary[..][..n] == value[..n] && bootBinary[..][n] == 0;
      CStrEnds(bootBinary[..], n);
    }

    /** `update_options`, on the strings in the two buffers. */
    method UpdateOptions(key: seq<U8>, value: seq<U8>) returns (result: ParserResult)
      requires Valid() && 0 in key && 0 in value
      modifies this, bootBinary
      ensures Valid() && (result, View()) == Update(CStr(key), CStr(value), old(View()))
    {
      hide AtoiOn, CStr;
      CStrTerminator(key);
      CStrTerminator(value);
      var keyLen := StrLen(key);
      var valueLen := StrLen(value);
      if keyLen > KEY_MAX {
        return UnrecognizedKey;
      }
      if valueLen > VALUE_MAX {
        return ValueTooLong;
      }
      var isBinary := StrEq(key, BOOT_BINARY + [0]);
      var isOffset := StrEq(key, LOAD_OFFSET + [0]);
      Literal(BOOT_BINARY);
      Literal(LOAD_OFFSET);
      if isBinary {
        assert value[..valueLen] == CStr(value);
        CopyPath(value, valueLen);
      } else if isOffset {
        var base, offset := 10, 0;
        if valueLen > 2 && value[0] == 0x30 && value[1] == 0x78 {
          base, offset := 16, 2;
        }
        CStrSuffix(value, offset);
        assert OffsetParts(CStr(value)) == (base, CStr(value)[offset..]);
        var ok;
        ok, loadOffset := Atoi(value[offset..], base);
        if !ok {
          return SyntaxError;
        }
      } else {
        return UnrecognizedKey;
      }
      return Success;
    }
  }

  lemma Literal(s: seq<U8>)
    requires 0 !in s
    ensures 0 in s + [0] && CStr(s + [0]) == s
  {
    assert (s + [0])[|s|] == 0 && (s + [0])[..|s|] == s;
    CStrEnds(s + [0], |s|);
  }

  /** A pointer into a string is the string from there on. */
  lemma CStrSuffix(buffer: seq<U8>, n: nat)
    requires 0 in buffer && n <= |CStr(buffer)|
    ensures n <= |buffer| && 0 in buffer[n..] && CStr(buffer[n..]) == CStr(buffer)[n..]
  {
    CStrTerminator(buffer);
    var len := |CStr(buffer)|;
    assert buffer[n..][len - n] == 0;
    assert buffer[n..][..len - n] == CStr(buffer)[n..];
    CStrEnds(buffer[n..], len - n);
  }

  /** The switch of `parse` over one character. */
  method ParseChar(key: array<U8>, value: array<U8>, j: nat, inKey: bool, c: U8, options: BootOptions)
    returns (stopped: bool, result: ParserResult, nextJ: nat, nextInKey: bool)
    requires key.Length == KEY_MAX + 1 && value.Length == VALUE_MAX + 1 && options.Valid()
    requires key != value && key != options.bootBinary && value != options.bootBinary
    modifies key, value, options, options.bootBinary
    ensures options.Valid()
    ensures Step(old(Parser(key[..], value[..], j, inKey, options.View())), c) ==
      if stopped then Stopped(result, options.View())
      else Going(Parser(key[..], value[..], nextJ, nextInKey, options.View()))
  {
    hide Update, BootOptions.Valid, BootOptions.View;
    result, nextJ, nextInKey := Success, j, inKey;
    if c == NEWLINE {
      if j >= value.Length || 0 !in key[..] {
        return true, OutOfBuffer, j, inKey;
      }
      ghost var was := value[..];
      value[j] := 0;
      assert value[..] == was[j := 0] && value[..][j] == 0;
      result := options.UpdateOptions(key[..], value[..]);
      return result != Success, result, 0, true;
    } else if c == RETURN {
      return false, Success, j, inKey;
    } else if c == EQUALS {
      if j >= key.Length {
        return true, OutOfBuffer, j, inKey;
      }
      ghost var was := key[..];
      key[j] := 0;
      assert key[..] == was[j := 0];
      return false, Success, 0, false;
    } else if inKey {
      if j > KEY_MAX {
        return true, UnrecognizedKey, j, inKey;
      }
      ghost var was := key[..];
      key[j] := c;
      assert key[..] == was[j := c];
    } else {
      if j > VALUE_MAX {
        return true, ValueTooLong, j, inKey;
      }
      ghost var was := value[..];
      value[j] := c;
      assert value[..] == was[j := c];
    }
    return false, Success, j + 1, inKey;
  }

  lemma {:induction false} StoppedStays(p: Parser, s: seq<U8>, n: nat)
    requires n <= |s| && Run(p, s[..n]).Stopped?
    ensures Run(p, s) == Run(p, s[..n])
  {
    assert s == s[..n] + s[n..];
    RunConcat(p, s[..n], s[n..]);
  }

  lemma RunNext(p: Parser, s: seq<U8>, i: nat)
    requires i < |s|
    ensures Run(p, s[..i + 1]) ==
      match Run(p, s[..i])
      case Stopped(r, o) => Stopped(r, o)
      case Going(q) => Step(q, s[i])
  {
    assert s[..i + 1][..i] == s[..i];
  }

  /** `start` is a parser as `parse` sets it up, with anything behind the two terminators. */
  ghost predicate Initial(start: Parser, opts: Opts) {
    AtLineStart(start) && start.key[0] == 0 && start.value[0] == 0 && start.opts == opts
  }

  /** The machine does on every text what `parse` does; on a text that is a printed list of pairs, with
      carriage returns anywhere, that is the fold of the updates, whatever the buffers held before. */
  method Parse(text: seq<U8>, options: BootOptions) returns (result: ParserResult, ghost start: Parser)
    requires 0 in text && options.Valid()
    modifies options, options.bootBinary
    ensures options.Valid() && Initial(start, old(options.View()))
    ensures (result, options.View()) == Conclude(Run(start, CStr(text)))
    ensures forall settings | WrittenAs(text, settings) ::
      var was := old(options.View());
      var path := LastPath(settings, was.bootBinary);
      && options.View() == Opts(path, LastOffset(settings, was.loadOffset))
      && (path.Some? ==> result == if path.value == [] then MissingKey else Success)
    ensures forall settings, line | BreaksOff(text, settings, line) ::
      var was := old(options.View());
      && result == UnrecognizedKey
      && options.View() == Opts(LastPath(settings, was.bootBinary), LastOffset(settings, was.loadOffset))
    ensures forall pairs: seq<Pair> | PrintedAs(text, pairs) ::
      (result, options.View()) == Fold(pairs, old(options.View()))
  {
    hide Run, Step, Fold, PrintedAs, WrittenAs, BreaksOff, LastPath, LastOffset;
    var i := 0;
    var key := new U8[KEY_MAX + 1];
    var value := new U8[VALUE_MAX + 1];
    key[0] := 0;
    value[0] := 0;
    var j, inKey := 0, true;
    ghost var s := CStr(text);
    CStrTerminator(text);
    start := Parser(key[..], value[..], 0, true, options.View());
    assert s[..0] == [];
    assert Run(start, []) == Going(start) by {
      RunNothing(start);
    }
    forall pairs: seq<Pair> | PrintedAs(text, pairs) ensures Conclude(Run(start, s)) == Fold(pairs, start.opts) {
      PrintedIsFolded(start, text, pairs);
    }
    WrittenIsSet(start, text);
    BrokenOffIsSet(start, text);
    while text[i] != 0
      invariant i <= |s| && options.Valid() && fresh(key) && fresh(value)
      invariant Run(start, s[..i]) == Going(Parser(key[..], value[..], j, inKey, options.View()))
      decreases |s| - i
    {
      RunNext(start, s, i);
      var stopped;
      stopped, result, j, inKey := ParseChar(key, value, j, inKey, text[i], options);
      i := i + 1;
      if stopped {
        StoppedStays(start, s, i);
        return;
      }
    }
    assert s[..|s|] == s;
    if 0 !in options.bootBinary[..] {
      return OutOfBuffer, start;
    }
    var len := StrLen(options.bootBinary[..]);
    result := if len == 0 then MissingKey else Success;
  }

  lemma RunNothing(p: Parser)
    ensures Run(p, []) == Going(p)
  {
  }

  /** The text, carriage returns aside, is the printed list of pairs. */
  ghost predicate PrintedAs(text: seq<U8>, pairs: seq<Pair>) {
    WithoutReturns(CStr(text)) == Print(pairs) && forall i :: 0 <= i < |pairs| ==> pairs[i].Printable()
  }

  /** The text, carriage returns aside, is this configuration. */
  ghost predicate WrittenAs(text: seq<U8>, settings: seq<Setting>) {
    AllWritable(settings) && WithoutReturns(CStr(text)) == Written(settings)
  }

  lemma WrittenIsSet(start: Parser, text: seq<U8>)
    requires AtLineStart(start)
    ensures forall settings | WrittenAs(text, settings) ::
      var path := LastPath(settings, start.opts.bootBinary);
      var opts := Opts(path, LastOffset(settings, start.opts.loadOffset));
      Conclude(Run(start, CStr(text))) == (LastCheck(opts), opts)
  {
    hide Run, LastCheck, Written, LastPath, LastOffset;
    forall settings | WrittenAs(text, settings)
      ensures var opts :=
        Opts(LastPath(settings, start.opts.bootBinary), LastOffset(settings, start.opts.loadOffset));
        Conclude(Run(start, CStr(text))) == (LastCheck(opts), opts)
    {
      ReturnsAreIgnored(start, CStr(text));
      ConfigurationSets(start, settings);
    }
  }

  /** The text, carriage returns aside, is this configuration, then a line within the limits with another key, and
      anything behind it. */
  ghost predicate BreaksOff(text: seq<U8>, settings: seq<Setting>, line: Pair) {
    && AllWritable(settings) && line.Printable() && line.middle == [] && |line.key| <= 64 && |line.value| <= 256
    && line.key != Ascii("boot_binary") && line.key != Ascii("load_offset")
    && exists rest ::
         WithoutReturns(CStr(text)) ==
           Written(settings) + (line.key + Ascii("=") + line.value + Ascii("\n") + rest)
  }

  lemma BrokenOffIsSet(start: Parser, text: seq<U8>)
    requires AtLineStart(start)
    ensures forall settings, line | BreaksOff(text, settings, line) ::
      Conclude(Run(start, CStr(text))) ==
        (UnrecognizedKey,
         Opts(LastPath(settings, start.opts.bootBinary), LastOffset(settings, start.opts.loadOffset)))
  {
    hide Run, Written, LastPath, LastOffset, AtLineStart, AllPlain, Ascii;
    forall settings, line | BreaksOff(text, settings, line)
      ensures Run(start, CStr(text)) == Stopped(UnrecognizedKey,
        Opts(LastPath(settings, start.opts.bootBinary), LastOffset(settings, start.opts.loadOffset)))
    {
      var rest :| WithoutReturns(CStr(text)) ==
        Written(settings) + (line.key + Ascii("=") + line.value + Ascii("\n") + rest);
      ReturnsAreIgnored(start, CStr(text));
      ConfigurationSets(start, settings);
      RunConcat(start, Written(settings), line.key + Ascii("=") + line.value + Ascii("\n") + rest);
      OtherKeyStops(Run(start, Written(settings)).parser, line.key, line.value, rest);
    }
  }

  lemma PrintedIsFolded(start: Parser, text: seq<U8>, pairs: seq<Pair>)
    requires AtLineStart(start) && PrintedAs(text, pairs)
    ensures Conclude(Run(start, CStr(text))) == Fold(pairs, start.opts)
  {
    ReturnsAreIgnored(start, CStr(text));
    RunOfPrint(start, pairs);
  }

  /** A load offset printed in decimal, or as `0x` and hexadecimal digits, is restored by the update. */
  lemma LoadOffsetRoundTrip(value: nat, o: Opts)
    requires value < 0x8000_0000
    ensures Update(LOAD_OFFSET, Printed(value, 10), o) == (Success, o.(loadOffset := value))
    ensures Update(LOAD_OFFSET, [0x30, 0x78] + Printed(value, 16), o) == (Success, o.(loadOffset := value))
  {
    hide AtoiOn, Printed;
    PrintedDigits(value, 10);
    var dec := Printed(value, 10);
    assert |dec| > 2 ==> dec[1] in dec && IsDigit(dec[1], 10);
    AtoiInvertsItoa(value, 10);
    PrintedDigits(value, 16);
    var hex := [0x30, 0x78] + Printed(value, 16);
    assert hex[2..] == Printed(value, 16);
    AtoiInvertsItoa(value, 16);
  }
}
