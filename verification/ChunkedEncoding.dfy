/**
 The grammar of section 4.1 of RFC 7230, written as a printer, and the proof that the
 decoder undoes it: whatever the chunk sizes, their spelling, the extensions, the
 trailers, the octets that follow and the way the stream is cut.
 */
module ChunkedEncoding {
  import opened Bytes
  import opened ChunkedCalls
  import opened ChunkedDecoding

  const SMALL: seq<byte> := Ascii("0123456789abcdef")
  const LARGE: seq<byte> := Ascii("0123456789ABCDEF")

  /** A hexadecimal digit, written small or large. */
  datatype Digit = Digit(value: nat, large: bool) {
    predicate Ok() { value < 16 }

    function Octet(): byte
      requires Ok()
    {
      if large then LARGE[value] else SMALL[value]
    }
  }

  /** A chunk as sent: the digits of its size, its extensions and its data. */
  datatype Chunk = Chunk(size: seq<Digit>, ext: seq<byte>, data: seq<byte>)

  predicate DigitsOk(ds: seq<Digit>) {
    forall i | 0 <= i < |ds| :: ds[i].Ok()
  }

  function SizeText(ds: seq<Digit>): (s: seq<byte>)
    requires DigitsOk(ds)
    ensures |s| == |ds|
  {
    seq(|ds|, i requires 0 <= i < |ds| => ds[i].Octet())
  }

  function HexValue(ds: seq<Digit>): nat {
    if ds == [] then 0 else 16 * HexValue(ds[..|ds| - 1]) + ds[|ds| - 1].value
  }

  predicate SizeSpells(ds: seq<Digit>, n: nat) {
    1 <= |ds| <= 16 && DigitsOk(ds) && HexValue(ds) == n
  }

  predicate NoLineBreak(s: seq<byte>) {
    forall i | 0 <= i < |s| :: s[i] != CR && s[i] != LF
  }

  predicate ExtensionOk(ext: seq<byte>) {
    NoLineBreak(ext) && (ext == [] || ext[0] == SP || ext[0] == HT || ext[0] == SEMICOLON)
  }

  predicate ChunkOk(c: Chunk) {
    SizeSpells(c.size, |c.data|) && ExtensionOk(c.ext)
  }

  /** A trailer line as it is taken: any CRs, then text up to the LF, usually with a CR at its end. */
  datatype Trailer = Trailer(crs: nat, text: seq<byte>)

  function Returns(n: nat): seq<byte> {
    seq(n, _ => CR)
  }

  predicate TrailerOk(t: Trailer) {
    t.text != [] && t.text[0] != CR && forall i | 0 <= i < |t.text| :: t.text[i] != LF
  }

  function ChunkHeader(c: Chunk): seq<byte>
    requires DigitsOk(c.size)
  {
    SizeText(c.size) + c.ext + CRLF
  }

  function EncodeChunks(cs: seq<Chunk>): seq<byte>
    requires forall i | 0 <= i < |cs| :: DigitsOk(cs[i].size)
  {
    if cs == [] then [] else ChunkHeader(cs[0]) + cs[0].data + CRLF + EncodeChunks(cs[1..])
  }

  /** The trailer lines and the empty one that ends them, with its CRs. */
  function EncodeTrailers(lines: seq<Trailer>, last: nat): seq<byte> {
    if lines == [] then Returns(last) + [LF]
    else Returns(lines[0].crs) + lines[0].text + [LF] + EncodeTrailers(lines[1..], last)
  }

  /** Chunks, the last (empty) chunk and, when the decoder is to consume them, the trailers. */
  datatype Message = Message(chunks: seq<Chunk>, last: Chunk, trailers: seq<Trailer>, crs: nat)

  predicate MessageOk(m: Message) {
    && (forall i | 0 <= i < |m.chunks| :: ChunkOk(m.chunks[i]) && m.chunks[i].data != [])
    && ChunkOk(m.last) && m.last.data == []
    && (forall i | 0 <= i < |m.trailers| :: TrailerOk(m.trailers[i]))
  }

  function Encode(trailer: bool, m: Message): seq<byte>
    requires DigitsOk(m.last.size) && forall i | 0 <= i < |m.chunks| :: DigitsOk(m.chunks[i].size)
  {
    EncodeChunks(m.chunks) + ChunkHeader(m.last) + if trailer then EncodeTrailers(m.trailers, m.crs) else []
  }

  function Payload(cs: seq<Chunk>): seq<byte> {
    if cs == [] then [] else cs[0].data + Payload(cs[1..])
  }

  // ----- Reading the pieces of the grammar -----

  lemma DigitRead(d: Digit)
    requires d.Ok()
    ensures HexDigit(d.Octet()) == d.value
  {
  }

  lemma {:induction false} RunSize(trailer: bool, ds: seq<Digit>)
    requires |ds| <= SIZE_DIGITS && DigitsOk(ds)
    ensures HexValue(ds) < Pow16(|ds|)
    ensures Run(trailer, START, SizeText(ds)) == RunResult(NeedMore(Core(InChunkSize, HexValue(ds), |ds|)), [], |ds|)
  {
    hide Step, Digit.Octet;
    if ds != [] {
      var h, d := ds[..|ds| - 1], ds[|ds| - 1];
      RunSize(trailer, h);
      var b := d.Octet();
      assert SizeText(ds) == SizeText(h) + [b];
      RunAppend(trailer, START, SizeText(h), [b]);
      var c, c' := Core(InChunkSize, HexValue(h), |h|), Core(InChunkSize, HexValue(ds), |ds|);
      DigitRead(d);
      StepDigit(trailer, c, b);
      assert Run(trailer, c', [b], 1) == RunResult(NeedMore(c'), [], 1);
    }
  }

  lemma {:induction false} RunExtension(trailer: bool, left: nat, s: seq<byte>, i: nat)
    requires i <= |s| && NoLineBreak(s)
    ensures Run(trailer, Core(InChunkExt, left, 0), s, i) == RunResult(NeedMore(Core(InChunkExt, left, 0)), [], |s|)
    decreases |s| - i
  {
    if i < |s| { RunExtension(trailer, left, s, i + 1); }
  }

  /** From a size of `left` that was just read, the extensions and the CR of the header line. */
  lemma RunHeaderTail(trailer: bool, left: nat, digits: nat, ext: seq<byte>)
    requires ExtensionOk(ext) && digits > 0
    ensures Run(trailer, Core(InChunkSize, left, digits), ext + [CR]) ==
            RunResult(NeedMore(Core(ExpectHeaderLF, left, 0)), [], |ext| + 1)
  {
    var c := Core(InChunkSize, left, digits);
    var done := RunResult(NeedMore(Core(ExpectHeaderLF, left, 0)), [], 1);
    if ext == [] {
      assert ext + [CR] == [CR];
      assert Run(trailer, Core(ExpectHeaderLF, left, 0), [CR], 1) == done;
    } else {
      RunExtension(trailer, left, ext, 1);
      assert Run(trailer, c, ext) == Prepend([], Run(trailer, Core(InChunkExt, left, 0), ext, 1));
      RunAppend(trailer, c, ext, [CR]);
      assert Run(trailer, Core(ExpectHeaderLF, left, 0), [CR], 1) == done;
    }
  }

  /** A whole chunk header, up to but not including its LF. */
  lemma RunHeader(trailer: bool, c: Chunk)
    requires ChunkOk(c)
    ensures Run(trailer, START, SizeText(c.size) + c.ext + [CR]) ==
            RunResult(NeedMore(Core(ExpectHeaderLF, |c.data|, 0)), [], |c.size| + |c.ext| + 1)
  {
    var size := SizeText(c.size);
    RunSize(trailer, c.size);
    RunHeaderTail(trailer, |c.data|, |c.size|, c.ext);
    RunAppend(trailer, START, size, c.ext + [CR]);
    assert size + c.ext + [CR] == size + (c.ext + [CR]);
  }

  lemma {:induction false} RunData(trailer: bool, s: seq<byte>, i: nat)
    requires i < |s|
    ensures Run(trailer, Core(InChunkData, |s| - i, 0), s, i) ==
            RunResult(NeedMore(Core(ExpectDataCR, 0, 0)), s[i..], |s|)
    decreases |s| - i
  {
    assert s[i..] == [s[i]] + s[i + 1..];
    if i + 1 < |s| { RunData(trailer, s, i + 1); }
  }

  lemma RunFullHeader(trailer: bool, c: Chunk)
    requires ChunkOk(c) && (c.data != [] || trailer)
    ensures Run(trailer, START, ChunkHeader(c)) ==
            RunResult(NeedMore(Core(if c.data == [] then InTrailerHead else InChunkData, |c.data|, 0)), [], |ChunkHeader(c)|)
  {
    var h := SizeText(c.size) + c.ext + [CR];
    RunHeader(trailer, c);
    RunAppend(trailer, START, h, [LF]);
    var next := Core(if c.data == [] then InTrailerHead else InChunkData, |c.data|, 0);
    assert Run(trailer, next, [LF], 1) == RunResult(NeedMore(next), [], 1);
    assert h + [LF] == ChunkHeader(c);
  }

  lemma RunChunk(trailer: bool, c: Chunk)
    requires ChunkOk(c) && c.data != []
    ensures var s := ChunkHeader(c) + c.data + CRLF;
            Run(trailer, START, s) == RunResult(NeedMore(START), c.data, |s|)
  {
    RunFullHeader(trailer, c);
    RunData(trailer, c.data, 0);
    RunAppend(trailer, START, ChunkHeader(c), c.data);
    RunCrLf(trailer);
    RunAppend(trailer, START, ChunkHeader(c) + c.data, CRLF);
  }

  lemma RunCrLf(trailer: bool)
    ensures Run(trailer, Core(ExpectDataCR, 0, 0), CRLF) == RunResult(NeedMore(START), [], 2)
  {
    assert Run(trailer, START, CRLF, 2) == RunResult(NeedMore(START), [], 2);
    assert Run(trailer, Core(ExpectDataLF, 0, 0), CRLF, 1) == RunResult(NeedMore(START), [], 2);
  }

  lemma {:induction false} RunChunks(trailer: bool, cs: seq<Chunk>)
    requires forall i | 0 <= i < |cs| :: ChunkOk(cs[i]) && cs[i].data != []
    ensures forall i | 0 <= i < |cs| :: DigitsOk(cs[i].size)
    ensures Run(trailer, START, EncodeChunks(cs)) == RunResult(NeedMore(START), Payload(cs), |EncodeChunks(cs)|)
  {
    if cs != [] {
      var s := ChunkHeader(cs[0]) + cs[0].data + CRLF;
      RunChunk(trailer, cs[0]);
      RunChunks(trailer, cs[1..]);
      RunAppend(trailer, START, s, EncodeChunks(cs[1..]));
    }
  }

  lemma {:induction false} RunReturns(trailer: bool, n: nat, i: nat)
    requires i <= n
    ensures var c := Core(InTrailerHead, 0, 0);
            Run(trailer, c, Returns(n), i) == RunResult(NeedMore(c), [], n)
    decreases n - i
  {
    if i < n { RunReturns(trailer, n, i + 1); }
  }

  lemma {:induction false} RunTrailerMiddle(trailer: bool, s: seq<byte>, i: nat)
    requires i < |s| && s[|s| - 1] == LF && forall k | i <= k < |s| - 1 :: s[k] != LF
    ensures Run(trailer, Core(InTrailerMiddle, 0, 0), s, i) == RunResult(NeedMore(Core(InTrailerHead, 0, 0)), [], |s|)
    decreases |s| - i
  {
    if i < |s| - 1 {
      RunTrailerMiddle(trailer, s, i + 1);
    } else {
      assert Run(trailer, Core(InTrailerHead, 0, 0), s, |s|) == RunResult(NeedMore(Core(InTrailerHead, 0, 0)), [], |s|);
    }
  }

  lemma RunTrailerLine(trailer: bool, line: Trailer)
    requires TrailerOk(line)
    ensures var c, s := Core(InTrailerHead, 0, 0), Returns(line.crs) + line.text + [LF];
            Run(trailer, c, s) == RunResult(NeedMore(c), [], |s|)
  {
    var c, r, t := Core(InTrailerHead, 0, 0), Returns(line.crs), line.text + [LF];
    RunReturns(trailer, line.crs, 0);
    assert t[0] == line.text[0] != LF;
    RunTrailerMiddle(trailer, t, 1);
    RunAppend(trailer, c, r, t);
    assert r + t == r + line.text + [LF];
  }

  lemma {:induction false} RunTrailers(trailer: bool, lines: seq<Trailer>, last: nat)
    requires forall i | 0 <= i < |lines| :: TrailerOk(lines[i])
    ensures var s := EncodeTrailers(lines, last);
            Run(trailer, Core(InTrailerHead, 0, 0), s) == RunResult(Done(Core(InTrailerHead, 0, 0)), [], |s|)
  {
    var c := Core(InTrailerHead, 0, 0);
    if lines == [] {
      RunReturns(trailer, last, 0);
      RunAppend(trailer, c, Returns(last), [LF]);
    } else {
      var line := Returns(lines[0].crs) + lines[0].text + [LF];
      RunTrailerLine(trailer, lines[0]);
      RunTrailers(trailer, lines[1..], last);
      RunAppend(trailer, c, line, EncodeTrailers(lines[1..], last));
    }
  }

  /** The state a decoder is left in at the end of a message. */
  function Ended(trailer: bool): Core {
    Core(if trailer then InTrailerHead else ExpectHeaderLF, 0, 0)
  }

  /** The end of the message: the zero chunk and, if they are consumed, the trailers. */
  lemma RunEnd(trailer: bool, m: Message)
    requires MessageOk(m)
    ensures var s := ChunkHeader(m.last) + if trailer then EncodeTrailers(m.trailers, m.crs) else [];
            Run(trailer, START, s) == RunResult(Done(Ended(trailer)), [], |s|)
  {
    if trailer {
      RunTrailers(trailer, m.trailers, m.crs);
      RunFullHeader(trailer, m.last);
      RunAppend(trailer, START, ChunkHeader(m.last), EncodeTrailers(m.trailers, m.crs));
    } else {
      var h := SizeText(m.last.size) + m.last.ext + [CR];
      RunHeader(trailer, m.last);
      RunAppend(trailer, START, h, [LF]);
      assert h + [LF] == ChunkHeader(m.last) + [];
    }
  }

  lemma RunMessage(trailer: bool, m: Message)
    requires MessageOk(m)
    ensures Run(trailer, START, Encode(trailer, m)) ==
            RunResult(Done(Ended(trailer)), Payload(m.chunks), |Encode(trailer, m)|)
  {
    var e := ChunkHeader(m.last) + if trailer then EncodeTrailers(m.trailers, m.crs) else [];
    RunChunks(trailer, m.chunks);
    RunEnd(trailer, m);
    RunAppend(trailer, START, EncodeChunks(m.chunks), e);
    assert Encode(trailer, m) == EncodeChunks(m.chunks) + e;
  }

  /** Decoding undoes encoding: one call returns exactly the payload, leaves exactly the octets
      that follow the message, and returns how many they are. */
  lemma DecodeUndoesEncode(trailer: bool, m: Message, suffix: seq<byte>)
    requires MessageOk(m)
    ensures var c := Call(Fresh(trailer), Encode(trailer, m) + suffix);
            c.ret == |suffix| && c.decoded == Payload(m.chunks) && c.rest == suffix
  {
    var s := Encode(trailer, m);
    RunMessage(trailer, m);
    RunAppend(trailer, START, s, suffix);
    assert (s + suffix)[|s|..] == suffix;
  }

  /** The same through any sequence of calls, as long as the framing stays under the limit. */
  lemma DecodeUndoesEncodeInPieces(trailer: bool, m: Message, suffix: seq<byte>, pieces: seq<seq<byte>>)
    requires MessageOk(m) && Flatten(pieces) == Encode(trailer, m) + suffix
    requires |Encode(trailer, m)| - |Payload(m.chunks)| < OVERHEAD_FLOOR
    ensures var f := Feed(Fresh(trailer), pieces);
            f.ret >= 0 && f.decoded == Payload(m.chunks) && f.rest == suffix
  {
    RunMessage(trailer, m);
    RunAppend(trailer, START, Encode(trailer, m), suffix);
    CutsDoNotMatter(trailer, pieces);
    DecodeUndoesEncode(trailer, m, suffix);
  }

  // ----- The canonical spelling of sizes exists for every size a chunk can have -----

  function SpellSize(n: nat): (ds: seq<Digit>)
    ensures ds != [] && DigitsOk(ds)
  {
    if n < 16 then [Digit(n, false)] else SpellSize(n / 16) + [Digit(n % 16, false)]
  }

  lemma {:induction false} SpellSizeSpells(n: nat, k: nat)
    requires n < Pow16(k) && 1 <= k <= SIZE_DIGITS
    ensures SizeSpells(SpellSize(n), n)
    ensures |SpellSize(n)| <= k
  {
    if n < 16 {
      assert SpellSize(n)[..0] == [];
    } else {
      assert n < 16 * Pow16(k - 1);
      assert Pow16(1) == 16;
      SpellSizeSpells(n / 16, k - 1);
      var h, s := SpellSize(n / 16), SpellSize(n);
      assert s[..|s| - 1] == h;
    }
  }

  /** Any cut of any data into non-empty chunks is an encodable message. */
  lemma EveryCutIsEncodable(datas: seq<seq<byte>>)
    requires forall i | 0 <= i < |datas| :: 0 < |datas[i]| < SIZE_MODULUS
    ensures var m := Message(seq(|datas|, i requires 0 <= i < |datas| => Chunk(SpellSize(|datas[i]|), [], datas[i])),
                             Chunk(SpellSize(0), [], []), [], 1);
            MessageOk(m) && Payload(m.chunks) == Flatten(datas)
  {
    Pow16Sixteen();
    SpellSizeSpells(0, SIZE_DIGITS);
    forall i | 0 <= i < |datas| ensures SizeSpells(SpellSize(|datas[i]|), |datas[i]|) {
      SpellSizeSpells(|datas[i]|, SIZE_DIGITS);
    }
    var cs := seq(|datas|, i requires 0 <= i < |datas| => Chunk(SpellSize(|datas[i]|), [], datas[i]));
    PayloadIsFlatten(cs, datas);
  }

  lemma {:induction false} PayloadIsFlatten(cs: seq<Chunk>, datas: seq<seq<byte>>)
    requires |cs| == |datas| && forall i | 0 <= i < |cs| :: cs[i].data == datas[i]
    ensures Payload(cs) == Flatten(datas)
  {
    if cs != [] { PayloadIsFlatten(cs[1..], datas[1..]); }
  }
}
