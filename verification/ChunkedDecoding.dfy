/**
 The chunked transfer decoder as a function: one automaton step per octet and its run over a stream.
 Module ChunkedCalls builds the calls on it, the in-place decoder of module ChunkedDecoder refines both.
 */
module ChunkedDecoding {
  import opened Bytes

  datatype Phase =
    | InChunkSize
    | InChunkExt
    | ExpectHeaderLF
    | InChunkData
    | ExpectDataCR
    | ExpectDataLF
    | InTrailerHead
    | InTrailerMiddle

  /** The part of the decoder that decides how the next octet is read. */
  datatype Core = Core(phase: Phase, left: nat, hexCount: nat)

  const START := Core(InChunkSize, 0, 0)

  const SIZE_DIGITS := 16
  const SIZE_MODULUS := 0x1_0000_0000_0000_0000

  function Pow16(n: nat): nat {
    if n == 0 then 1 else 16 * Pow16(n - 1)
  }

  /** 64-bit unsigned arithmetic. */
  function Wrap64(n: int): nat {
    n % SIZE_MODULUS
  }

  lemma WrapSum(a: int, b: int)
    ensures Wrap64(Wrap64(a) + b) == Wrap64(a + b)
  {
    var q := a / SIZE_MODULUS;
    assert a + b == Wrap64(a) + b + q * SIZE_MODULUS;
  }

  /** -1 for an octet that is not a hexadecimal digit. */
  function HexDigit(b: byte): (v: int)
    ensures -1 <= v < 16
  {
    if '0' as int <= b <= '9' as int then b - '0' as int
    else if 'A' as int <= b <= 'F' as int then b - 'A' as int + 10
    else if 'a' as int <= b <= 'f' as int then b - 'a' as int + 10
    else -1
  }

  predicate EndsSize(b: byte) {
    b == SP || b == HT || b == SEMICOLON || b == LF || b == CR
  }

  /** What one octet does: go on (emitting at most that octet), or stop, in the state the decoder is then left in. */
  datatype Outcome = Continue(core: Core, emitted: seq<byte>) | Malformed(core: Core) | Finished(core: Core)

  function StepExt(c: Core, b: byte): Outcome {
    if b == CR then Continue(Core(ExpectHeaderLF, c.left, 0), [])
    else if b == LF then Malformed(Core(InChunkExt, c.left, 0))
    else Continue(Core(InChunkExt, c.left, 0), [])
  }

  function Step(trailer: bool, c: Core, b: byte): Outcome {
    match c.phase
    case InChunkSize =>
      var v := HexDigit(b);
      if v == -1 then
        if c.hexCount == 0 || !EndsSize(b) then Malformed(c) else StepExt(c, b)
      else if c.hexCount == SIZE_DIGITS then Malformed(c)
      else Continue(Core(InChunkSize, Wrap64(c.left * 16 + v), c.hexCount + 1), [])
    case InChunkExt => StepExt(c, b)
    case ExpectHeaderLF =>
      if b != LF then Malformed(c)
      else if c.left != 0 then Continue(Core(InChunkData, c.left, c.hexCount), [])
      else if trailer then Continue(Core(InTrailerHead, c.left, c.hexCount), [])
      else Finished(c)
    case InChunkData =>
      if c.left <= 1 then Continue(Core(ExpectDataCR, 0, c.hexCount), [b])
      else Continue(Core(InChunkData, c.left - 1, c.hexCount), [b])
    case ExpectDataCR => if b != CR then Malformed(c) else Continue(Core(ExpectDataLF, c.left, c.hexCount), [])
    case ExpectDataLF => if b != LF then Malformed(c) else Continue(Core(InChunkSize, c.left, c.hexCount), [])
    case InTrailerHead =>
      if b == CR then Continue(c, [])
      else if b == LF then Finished(c)
      else Continue(Core(InTrailerMiddle, c.left, c.hexCount), [])
    case InTrailerMiddle =>
      if b == LF then Continue(Core(InTrailerHead, c.left, c.hexCount), []) else Continue(c, [])
  }

  /** Above what `left` can be. */
  function LeftLimit(c: Core): nat {
    match c.phase
    case InChunkSize => Pow16(c.hexCount)
    case InChunkExt => SIZE_MODULUS
    case ExpectHeaderLF => SIZE_MODULUS
    case InChunkData => SIZE_MODULUS
    case _ => 1
  }

  /** The states a decoder can be in between two octets. */
  predicate Valid(c: Core) {
    && c.hexCount <= (if c.phase == InChunkSize then SIZE_DIGITS else 0)
    && c.left < LeftLimit(c)
    && (c.phase == InChunkData ==> 0 < c.left)
  }

  lemma {:induction false} Pow16Monotone(m: nat, n: nat)
    requires m <= n
    ensures Pow16(m) <= Pow16(n)
    decreases n
  {
    if m < n { Pow16Monotone(m, n - 1); }
  }

  lemma {:induction false} Pow16Sixteen()
    ensures Pow16(SIZE_DIGITS) == SIZE_MODULUS
  {
    assert Pow16(4) == 0x1_0000;
    assert Pow16(8) == 0x1_0000_0000;
    assert Pow16(12) == 0x1_0000_0000_0000;
  }

  /** While a size is read the accumulator stays below 16^digits, so the 64-bit reduction never changes it. */
  lemma SizeNeverWraps(left: nat, digits: nat, v: nat)
    requires left < Pow16(digits) && digits < SIZE_DIGITS && v < 16
    ensures left * 16 + v < Pow16(digits + 1) <= SIZE_MODULUS
    ensures Wrap64(left * 16 + v) == left * 16 + v
  {
    Pow16Sixteen();
    Pow16Monotone(digits + 1, SIZE_DIGITS);
  }

  lemma StepDigit(trailer: bool, c: Core, b: byte)
    requires Valid(c) && c.phase == InChunkSize && c.hexCount < SIZE_DIGITS && HexDigit(b) >= 0
    ensures var c' := Core(InChunkSize, c.left * 16 + HexDigit(b), c.hexCount + 1);
            Valid(c') && Step(trailer, c, b) == Continue(c', []) && Wrap64(c'.left) == c'.left
  {
    SizeNeverWraps(c.left, c.hexCount, HexDigit(b));
  }

  lemma SizeBelowModulus(c: Core)
    requires Valid(c) && c.phase == InChunkSize
    ensures c.left < SIZE_MODULUS
  {
    Pow16Sixteen();
    Pow16Monotone(c.hexCount, SIZE_DIGITS);
  }

  /** Every step keeps the states valid, the ones it stops in too, and emits at most one octet. */
  lemma StepKeepsValid(trailer: bool, c: Core, b: byte)
    requires Valid(c)
    ensures var o := Step(trailer, c, b);
            Valid(o.core) && (o.Continue? ==> |o.emitted| <= 1)
  {
    if c.phase == InChunkSize {
      SizeBelowModulus(c);
      if HexDigit(b) >= 0 && c.hexCount < SIZE_DIGITS {
        StepDigit(trailer, c, b);
      }
    } else {
      assert Pow16(0) == 1;
    }
  }

  datatype Verdict = NeedMore(core: Core) | Error(core: Core) | Done(core: Core)

  /** `at` is the position of the octet that stopped the run: the offending one, or the one after the last. */
  datatype RunResult = RunResult(verdict: Verdict, output: seq<byte>, at: nat)

  function Run(trailer: bool, c: Core, s: seq<byte>, i: nat := 0): (r: RunResult)
    requires i <= |s|
    ensures i <= r.at <= |s|
    decreases |s| - i
  {
    if i == |s| then RunResult(NeedMore(c), [], i)
    else
      match Step(trailer, c, s[i])
      case Malformed(c') => RunResult(Error(c'), [], i)
      case Finished(c') => RunResult(Done(c'), [], i + 1)
      case Continue(c', e) => Prepend(e, Run(trailer, c', s, i + 1))
  }

  function Prepend(out: seq<byte>, r: RunResult): RunResult {
    r.(output := out + r.output)
  }

  /** The octets of the stream spent on framing. */
  function Framing(r: RunResult): int {
    r.at - |r.output|
  }

  lemma {:induction false} RunFacts(trailer: bool, c: Core, s: seq<byte>, i: nat)
    requires i <= |s| && Valid(c)
    ensures var r := Run(trailer, c, s, i);
            && |r.output| <= r.at - i
            && (r.verdict.NeedMore? ==> r.at == |s|)
            && (r.verdict.NeedMore? ==> Valid(r.verdict.core))
    decreases |s| - i
  {
    if i < |s| {
      StepKeepsValid(trailer, c, s[i]);
      match Step(trailer, c, s[i])
      case Continue(c', _) => RunFacts(trailer, c', s, i + 1);
      case _ =>
    }
  }

  /** A run looks at nothing before the place it starts from. */
  lemma {:induction false} RunShift(trailer: bool, c: Core, p: seq<byte>, s: seq<byte>, i: nat)
    requires i <= |s|
    ensures Run(trailer, c, p + s, |p| + i) ==
            var r := Run(trailer, c, s, i); r.(at := |p| + r.at)
    decreases |s| - i
  {
    if i < |s| {
      match Step(trailer, c, s[i])
      case Continue(c', _) => RunShift(trailer, c', p, s, i + 1);
      case _ =>
    }
  }

  /** A run over a + b stops inside a exactly as the run over a did, or goes on with b. */
  lemma {:induction false} RunAppend(trailer: bool, c: Core, a: seq<byte>, b: seq<byte>, i: nat := 0)
    requires i <= |a|
    ensures var r := Run(trailer, c, a, i);
            Run(trailer, c, a + b, i) ==
            if r.verdict.NeedMore? then
              var q := Run(trailer, r.verdict.core, b);
              RunResult(q.verdict, r.output + q.output, |a| + q.at)
            else r
    decreases |a| - i
  {
    hide Step;
    if i == |a| {
      RunShift(trailer, c, a, b, 0);
    } else {
      assert (a + b)[i] == a[i];
      var o := Step(trailer, c, a[i]);
      if o.Continue? {
        RunAppend(trailer, o.core, a, b, i + 1);
        var r := Run(trailer, o.core, a, i + 1);
        if r.verdict.NeedMore? {
          var q := Run(trailer, r.verdict.core, b);
          assert o.emitted + (r.output + q.output) == (o.emitted + r.output) + q.output;
        }
      }
    }
  }
}
