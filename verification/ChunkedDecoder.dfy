/**
 The decoder as it runs: fields updated in place, the buffer compacted in place, one
 scanning loop per state.  Decode is proved to compute ChunkedCalls.Call.
 */
module ChunkedDecoder {
  import opened Bytes
  import opened ChunkedCalls
  import opened ChunkedDecoding

  /** How a state's scan ended: go on with the next state, ask for more, fail, or finish. */
  datatype Flow = Proceed | Ask | Fail | Complete

  /** memmove within one buffer. */
  method MoveDown(buf: array<byte>, dst: nat, src: nat, n: nat)
    requires dst <= src && src + n <= buf.Length
    modifies buf
    ensures forall k | dst <= k < dst + n :: buf[k] == old(buf[k - dst + src])
    ensures forall k | 0 <= k < dst || dst + n <= k < buf.Length :: buf[k] == old(buf[k])
  {
    forall i | 0 <= i < n {
      buf[dst + i] := buf[src + i];
    }
  }

  /** Close the gap between the decoded octets and the undecoded ones. */
  method Compact(buf: array<byte>, dst: nat, src: nat, bufsz: nat)
    requires dst <= src <= bufsz <= buf.Length
    modifies buf
    ensures buf[..dst] == old(buf[..dst])
    ensures buf[dst..dst + (bufsz - src)] == old(buf[src..bufsz])
    ensures forall k | bufsz <= k < buf.Length :: buf[k] == old(buf[k])
  {
    if dst != src { MoveDown(buf, dst, src, bufsz - src); }
  }

  class Decoder {
    var bytesLeft: nat
    var consumeTrailer: bool
    var hexCount: nat
    var phase: Phase
    var totalRead: nat
    var totalOverhead: nat

    ghost function View(): Core
      reads this
    {
      Core(phase, bytesLeft, hexCount)
    }

    ghost function State(): ChunkedCalls.Decoder
      reads this
    {
      ChunkedCalls.Decoder(View(), consumeTrailer, totalRead, totalOverhead)
    }

    ghost predicate Valid()
      reads this
    {
      ChunkedDecoding.Valid(View())
    }

    /** The rest of the run, given how the current scan ended at `at`. */
    ghost function Rest(flow: Flow, s: seq<byte>, at: nat): RunResult
      requires at <= |s|
      reads this
    {
      match flow
      case Proceed => Run(consumeTrailer, View(), s, at)
      case Ask => RunResult(NeedMore(View()), [], at)
      case Fail => RunResult(Error(View()), [], at)
      case Complete => RunResult(Done(View()), [], at)
    }

    ghost predicate Shows(buf: array<byte>, s: seq<byte>, src: nat)
      reads buf
    {
      src <= |s| <= buf.Length && forall k | src <= k < |s| :: buf[k] == s[k]
    }

    constructor (trailer: bool)
      ensures State() == Fresh(trailer) && Valid()
    {
      bytesLeft, hexCount, phase := 0, 0, InChunkSize;
      consumeTrailer, totalRead, totalOverhead := trailer, 0, 0;
    }

    method ScanSize(buf: array<byte>, bufsz: nat, src: nat, ghost s: seq<byte>) returns (at: nat, flow: Flow)
      requires Valid() && phase == InChunkSize && |s| == bufsz && Shows(buf, s, src)
      modifies this`bytesLeft, this`hexCount, this`phase
      ensures src <= at <= bufsz && (flow == Ask ==> at == bufsz)
      ensures Valid()
      ensures flow == Proceed ==> phase == InChunkExt
      ensures Run(consumeTrailer, old(View()), s, src) == Rest(flow, s, at)
    {
      hide Run, Wrap64, LeftLimit;
      at := src;
      while true
        invariant src <= at <= bufsz && phase == InChunkSize && Valid()
        invariant Run(consumeTrailer, old(View()), s, src) == Run(consumeTrailer, View(), s, at)
        decreases bufsz - at
      {
        RunStep(consumeTrailer, View(), s, at);
        if at == bufsz { return at, Ask; }
        var v := HexDigit(buf[at]);
        if v == -1 {
          if hexCount == 0 { return at, Fail; }
          if EndsSize(buf[at]) { break; }
          return at, Fail;
        }
        if hexCount == SIZE_DIGITS { return at, Fail; }
        SizeGoesOn(consumeTrailer, View(), s, at);
        bytesLeft := Wrap64(bytesLeft * 16 + v);
        hexCount := hexCount + 1;
        at := at + 1;
      }
      SizeEnds(consumeTrailer, View(), s, at);
      hexCount := 0;
      phase := InChunkExt;
      flow := Proceed;
    }

    method ScanExt(buf: array<byte>, bufsz: nat, src: nat, ghost s: seq<byte>) returns (at: nat, flow: Flow)
      requires Valid() && phase == InChunkExt && |s| == bufsz && Shows(buf, s, src)
      modifies this`phase
      ensures src <= at <= bufsz && (flow == Ask ==> at == bufsz)
      ensures Valid()
      ensures flow == Proceed ==> src < at && phase == ExpectHeaderLF
      ensures Run(consumeTrailer, old(View()), s, src) == Rest(flow, s, at)
    {
      hide Run;
      at := src;
      while true
        invariant src <= at <= bufsz && phase == InChunkExt
        invariant Run(consumeTrailer, old(View()), s, src) == Run(consumeTrailer, View(), s, at)
        decreases bufsz - at
      {
        RunStep(consumeTrailer, View(), s, at);
        if at == bufsz { return at, Ask; }
        if buf[at] == CR { break; }
        if buf[at] == LF { return at, Fail; }
        at := at + 1;
      }
      at := at + 1;
      phase := ExpectHeaderLF;
      flow := Proceed;
    }

    method ScanHeaderLF(buf: array<byte>, bufsz: nat, src: nat, ghost s: seq<byte>) returns (at: nat, flow: Flow)
      requires Valid() && phase == ExpectHeaderLF && |s| == bufsz && Shows(buf, s, src)
      modifies this`phase
      ensures src <= at <= bufsz && (flow == Ask ==> at == bufsz)
      ensures Valid()
      ensures flow == Proceed ==> src < at
      ensures Run(consumeTrailer, old(View()), s, src) == Rest(flow, s, at)
    {
      hide Run;
      RunStep(consumeTrailer, View(), s, src);
      if src == bufsz { return src, Ask; }
      if buf[src] != LF { return src, Fail; }
      at := src + 1;
      flow := Proceed;
      if bytesLeft == 0 {
        if consumeTrailer {
          phase := InTrailerHead;
        } else {
          flow := Complete;
        }
      } else {
        phase := InChunkData;
      }
    }

    /** The data of a chunk is moved down by blocks, not octet by octet. */
    method CopyData(buf: array<byte>, bufsz: nat, src: nat, dst: nat, ghost s: seq<byte>) returns (at: nat, flow: Flow)
      requires Valid() && phase == InChunkData && |s| == bufsz && Shows(buf, s, src) && dst <= src
      modifies buf, this`bytesLeft, this`phase
      ensures src <= at <= bufsz && (flow == Ask ==> at == bufsz)
      ensures Valid() && (flow == Ask || (flow == Proceed && src < at))
      ensures Run(consumeTrailer, old(View()), s, src) == Prepend(s[src..at], Rest(flow, s, at))
      ensures forall k | dst <= k < dst + (at - src) :: buf[k] == s[k - dst + src]
      ensures forall k | 0 <= k < dst || at <= k < buf.Length :: buf[k] == old(buf[k])
    {
      hide Run;
      var avail := bufsz - src;
      if avail < bytesLeft {
        RunBlock(consumeTrailer, View(), s, src, avail);
        if dst != src { MoveDown(buf, dst, src, avail); }
        bytesLeft := bytesLeft - avail;
        RunStep(consumeTrailer, View(), s, bufsz);
        return bufsz, Ask;
      }
      RunBlock(consumeTrailer, View(), s, src, bytesLeft);
      if dst != src { MoveDown(buf, dst, src, bytesLeft); }
      at := src + bytesLeft;
      bytesLeft := 0;
      phase := ExpectDataCR;
      flow := Proceed;
    }

    method ScanDataEnd(buf: array<byte>, bufsz: nat, src: nat, ghost s: seq<byte>) returns (at: nat, flow: Flow)
      requires Valid() && (phase == ExpectDataCR || phase == ExpectDataLF) && |s| == bufsz && Shows(buf, s, src)
      modifies this`phase
      ensures src <= at <= bufsz && (flow == Ask ==> at == bufsz)
      ensures Valid()
      ensures flow == Proceed ==> src < at
      ensures Run(consumeTrailer, old(View()), s, src) == Rest(flow, s, at)
    {
      hide Run;
      RunStep(consumeTrailer, View(), s, src);
      at := src;
      if phase == ExpectDataCR {
        if at == bufsz { return at, Ask; }
        if buf[at] != CR { return at, Fail; }
        at := at + 1;
        phase := ExpectDataLF;
        RunStep(consumeTrailer, View(), s, at);
      }
      if at == bufsz { return at, Ask; }
      if buf[at] != LF { return at, Fail; }
      at := at + 1;
      phase := InChunkSize;
      flow := Proceed;
    }

    method ScanTrailerHead(buf: array<byte>, bufsz: nat, src: nat, ghost s: seq<byte>) returns (at: nat, flow: Flow)
      requires Valid() && phase == InTrailerHead && |s| == bufsz && Shows(buf, s, src)
      modifies this`phase
      ensures src <= at <= bufsz && (flow == Ask ==> at == bufsz)
      ensures Valid() && flow != Fail && (flow == Proceed ==> src < at)
      ensures Run(consumeTrailer, old(View()), s, src) == Rest(flow, s, at)
    {
      hide Run;
      at := src;
      while true
        invariant src <= at <= bufsz && phase == InTrailerHead
        invariant Run(consumeTrailer, old(View()), s, src) == Run(consumeTrailer, View(), s, at)
        decreases bufsz - at
      {
        RunStep(consumeTrailer, View(), s, at);
        if at == bufsz { return at, Ask; }
        if buf[at] != CR { break; }
        at := at + 1;
      }
      at := at + 1;
      if buf[at - 1] == LF { return at, Complete; }
      phase := InTrailerMiddle;
      flow := Proceed;
    }

    method ScanTrailerMiddle(buf: array<byte>, bufsz: nat, src: nat, ghost s: seq<byte>) returns (at: nat, flow: Flow)
      requires Valid() && phase == InTrailerMiddle && |s| == bufsz && Shows(buf, s, src)
      modifies this`phase
      ensures src <= at <= bufsz && (flow == Ask ==> at == bufsz)
      ensures Valid() && (flow == Ask || (flow == Proceed && src < at))
      ensures Run(consumeTrailer, old(View()), s, src) == Rest(flow, s, at)
    {
      hide Run;
      at := src;
      while true
        invariant src <= at <= bufsz && phase == InTrailerMiddle
        invariant Run(consumeTrailer, old(View()), s, src) == Run(consumeTrailer, View(), s, at)
        decreases bufsz - at
      {
        RunStep(consumeTrailer, View(), s, at);
        if at == bufsz { return at, Ask; }
        if buf[at] == LF { break; }
        at := at + 1;
      }
      at := at + 1;
      phase := InTrailerHead;
      flow := Proceed;
    }

    /** One round of the state switch. */
    method Dispatch(buf: array<byte>, bufsz: nat, src: nat, dst: nat, ghost s: seq<byte>)
      returns (at: nat, to: nat, flow: Flow)
      requires Valid() && |s| == bufsz && Shows(buf, s, src) && dst <= src
      modifies buf, this`bytesLeft, this`hexCount, this`phase
      ensures src <= at <= bufsz && dst <= to <= dst + (at - src) && (flow == Ask ==> at == bufsz)
      ensures Valid()
      ensures flow == Proceed ==> src < at || (old(phase) == InChunkSize && phase == InChunkExt)
      ensures Run(consumeTrailer, old(View()), s, src) == Prepend(buf[dst..to], Rest(flow, s, at))
      ensures forall k | 0 <= k < dst || at <= k < buf.Length :: buf[k] == old(buf[k])
    {
      hide Run, ChunkedDecoding.Valid;
      to := dst;
      match phase {
        case InChunkSize => at, flow := ScanSize(buf, bufsz, src, s);
        case InChunkExt => at, flow := ScanExt(buf, bufsz, src, s);
        case ExpectHeaderLF => at, flow := ScanHeaderLF(buf, bufsz, src, s);
        case InChunkData =>
          at, flow := CopyData(buf, bufsz, src, dst, s);
          to := dst + (at - src);
          assert buf[dst..to] == s[src..at];
        case ExpectDataCR => at, flow := ScanDataEnd(buf, bufsz, src, s);
        case ExpectDataLF => at, flow := ScanDataEnd(buf, bufsz, src, s);
        case InTrailerHead => at, flow := ScanTrailerHead(buf, bufsz, src, s);
        case InTrailerMiddle => at, flow := ScanTrailerMiddle(buf, bufsz, src, s);
      }
      PrependNothing(Rest(flow, s, at));
    }

    /** The state switch, repeated until the buffer is used up or the verdict is known. */
    method Loop(buf: array<byte>, bufsz: nat) returns (src: nat, dst: nat, flow: Flow)
      requires Valid() && bufsz <= buf.Length
      modifies buf, this`bytesLeft, this`hexCount, this`phase
      ensures dst <= src <= bufsz && flow != Proceed
      ensures Valid() && (flow == Ask ==> src == bufsz)
      ensures Run(consumeTrailer, old(View()), old(buf[..bufsz])) == Prepend(buf[..dst], Rest(flow, old(buf[..bufsz]), src))
      ensures forall k | src <= k < buf.Length :: buf[k] == old(buf[k])
    {
      hide Run, ChunkedDecoding.Valid;
      ghost var s, c0 := buf[..bufsz], View();
      src, dst, flow := 0, 0, Proceed;
      assert buf[..dst] + Run(consumeTrailer, c0, s).output == Run(consumeTrailer, c0, s).output;
      while flow == Proceed
        invariant dst <= src <= bufsz
        invariant Valid()
        invariant flow == Ask ==> src == bufsz
        invariant forall k | src <= k < buf.Length :: buf[k] == old(buf[k])
        invariant Run(consumeTrailer, c0, s) == Prepend(buf[..dst], Rest(flow, s, src))
        decreases if flow == Proceed then 1 else 0, bufsz - src, if phase == InChunkSize then 1 else 0
      {
        ghost var out := buf[..dst];
        assert Shows(buf, s, src);
        var at, to;
        at, to, flow := Dispatch(buf, bufsz, src, dst, s);
        assert buf[..to] == out + buf[dst..to];
        PrependTwice(out, buf[dst..to], Rest(flow, s, at));
        src, dst := at, to;
      }
    }

    /** One call, on the first `bufsz` octets of `buf`: `outsz` octets are decoded in place and the
        undecoded rest follows them; everything past `bufsz` is untouched.  Whatever the verdict, the fields are left
        as the pure call has them. */
    method Decode(buf: array<byte>, bufsz: nat) returns (ret: int, outsz: nat)
      requires Valid() && bufsz <= buf.Length
      modifies this, buf
      ensures var c := Call(old(State()), old(buf[..bufsz]));
              && ret == c.ret
              && outsz + |c.rest| <= bufsz
              && buf[..outsz] == c.decoded
              && buf[outsz..outsz + |c.rest|] == c.rest
              && Valid() && State() == c.next
      ensures forall k | bufsz <= k < buf.Length :: buf[k] == old(buf[k])
    {
      hide Run, ChunkedDecoding.Valid, Wrap64;
      ghost var s, d := buf[..bufsz], State();
      totalRead := Wrap64(totalRead + bufsz);
      var src, dst, flow := Loop(buf, bufsz);
      ret := if flow == Complete then bufsz - src else if flow == Fail then -1 else -2;
      assert Run(d.trailer, d.core, s) == Prepend(buf[..dst], Rest(flow, s, src));
      assert buf[src..bufsz] == s[src..] by {
        forall k | src <= k < bufsz ensures buf[k] == s[k] {}
      }
      Compact(buf, dst, src, bufsz);
      outsz := dst;
      if ret == -2 {
        totalOverhead := Wrap64(totalOverhead + bufsz - dst);
        if totalOverhead >= OVERHEAD_FLOOR && Wrap64(totalRead - totalOverhead) < totalRead / 4 {
          ret := -1;
        }
      }
    }
  }

  /** What a run does with its next octet. */
  lemma RunStep(trailer: bool, c: Core, s: seq<byte>, at: nat)
    requires at <= |s|
    ensures at == |s| ==> Run(trailer, c, s, at) == RunResult(NeedMore(c), [], at)
    ensures at < |s| ==>
              match Step(trailer, c, s[at])
              case Malformed(c') => Run(trailer, c, s, at) == RunResult(Error(c'), [], at)
              case Finished(c') => Run(trailer, c, s, at) == RunResult(Done(c'), [], at + 1)
              case Continue(c', e) => e == [] ==> Run(trailer, c, s, at) == Run(trailer, c', s, at + 1)
  {
    if at < |s| && Step(trailer, c, s[at]).Continue? {
      PrependNothing(Run(trailer, Step(trailer, c, s[at]).core, s, at + 1));
    }
  }

  lemma PrependNothing(r: RunResult)
    ensures Prepend([], r) == r
  {
    assert [] + r.output == r.output;
  }

  lemma PrependTwice(a: seq<byte>, b: seq<byte>, r: RunResult)
    ensures Prepend(a, Prepend(b, r)) == Prepend(a + b, r)
  {
    assert a + (b + r.output) == (a + b) + r.output;
  }

  lemma SizeGoesOn(trailer: bool, c: Core, s: seq<byte>, at: nat)
    requires ChunkedDecoding.Valid(c) && c.phase == InChunkSize && c.hexCount < SIZE_DIGITS
    requires at < |s| && HexDigit(s[at]) >= 0
    ensures var c' := Core(InChunkSize, Wrap64(c.left * 16 + HexDigit(s[at])), c.hexCount + 1);
            ChunkedDecoding.Valid(c') && Run(trailer, c, s, at) == Run(trailer, c', s, at + 1)
  {
    StepDigit(trailer, c, s[at]);
    var c' := Core(InChunkSize, c.left * 16 + HexDigit(s[at]), c.hexCount + 1);
    assert [] + Run(trailer, c', s, at + 1).output == Run(trailer, c', s, at + 1).output;
  }

  /** The octet that ends a size is read again as the first one after it. */
  lemma SizeEnds(trailer: bool, c: Core, s: seq<byte>, at: nat)
    requires ChunkedDecoding.Valid(c) && c.phase == InChunkSize && c.hexCount > 0
    requires at < |s| && HexDigit(s[at]) == -1 && EndsSize(s[at])
    ensures var c' := Core(InChunkExt, c.left, 0);
            ChunkedDecoding.Valid(c') && Run(trailer, c, s, at) == Run(trailer, c', s, at)
  {
    SizeBelowModulus(c);
    assert Step(trailer, c, s[at]) == Step(trailer, Core(InChunkExt, c.left, 0), s[at]);
  }

  /** Reading a block of n octets of chunk data at once. */
  lemma {:induction false} RunBlock(trailer: bool, c: Core, s: seq<byte>, i: nat, n: nat)
    requires c.phase == InChunkData && n <= c.left && 0 < c.left && i + n <= |s|
    ensures var next := if n == c.left then Core(ExpectDataCR, 0, c.hexCount) else c.(left := c.left - n);
            Run(trailer, c, s, i) == Prepend(s[i..i + n], Run(trailer, next, s, i + n))
    decreases n
  {
    if n == 0 {
      var r := Run(trailer, c, s, i);
      assert s[i..i + n] + r.output == r.output;
    } else if c.left == 1 {
      assert s[i..i + 1] == [s[i]];
    } else {
      var next := if n == c.left then Core(ExpectDataCR, 0, c.hexCount) else c.(left := c.left - n);
      RunBlock(trailer, c.(left := c.left - 1), s, i + 1, n - 1);
      PrependTwice([s[i]], s[i + 1..i + n], Run(trailer, next, s, i + n));
      assert s[i..i + n] == [s[i]] + s[i + 1..i + n];
    }
  }
}
