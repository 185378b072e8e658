/**
 The decoder takes exactly the grammar: it is done if and only if the stream starts with a message, it asks for more
 if and only if the stream could still become one, and anything else is an error.
 */
module ChunkedLanguage {
  import opened Bytes
  import opened ChunkedCalls
  import opened ChunkedDecoding
  import opened ChunkedEncoding

  /** The stream starts with a message. */
  ghost predicate Starts(trailer: bool, s: seq<byte>) {
    exists m :: MessageOk(m) && Encode(trailer, m) <= s
  }

  // ----- What was decoded is a message -----

  lemma DigitOf(b: byte) returns (d: Digit)
    requires HexDigit(b) >= 0
    ensures d.Ok() && d.Octet() == b && d.value == HexDigit(b)
  {
    d := Digit(HexDigit(b), b < 'a' as int);
  }

  lemma HexValueSnoc(ds: seq<Digit>, d: Digit)
    ensures HexValue(ds + [d]) == 16 * HexValue(ds) + d.value
  {
    assert (ds + [d])[..|ds|] == ds;
  }

  /** One octet of a run that is done. */
  lemma OneOn(trailer: bool, c: Core, s: seq<byte>, i: nat)
    requires i <= |s| && Run(trailer, c, s, i).verdict.Done?
    ensures i < |s| && !Step(trailer, c, s[i]).Malformed?
    ensures var o, r := Step(trailer, c, s[i]), Run(trailer, c, s, i);
            if o.Continue? then
              var rest := Run(trailer, o.core, s, i + 1);
              r == Prepend(o.emitted, rest) && rest.verdict == r.verdict && rest.at == r.at && r.output == o.emitted + rest.output
            else r.output == [] && r.at == i + 1
  {
    hide Step;
  }

  lemma SameRun(trailer: bool, c: Core, i: nat, c': Core, j: nat, s: seq<byte>)
    requires i <= j <= |s|
    requires var r, r' := Run(trailer, c, s, i), Run(trailer, c', s, j);
             r.verdict == r'.verdict && r.at == r'.at && r.output == r'.output
    ensures Run(trailer, c, s, i) == Run(trailer, c', s, j)
  {
    hide Run;
  }

  ghost function Sized(ds: seq<Digit>): Core {
    Core(InChunkSize, HexValue(ds), |ds|)
  }

  /** The digits read so far end at i, and the run goes on to be done. */
  ghost predicate Reading(trailer: bool, s: seq<byte>, i: nat, ds: seq<Digit>) {
    && |ds| <= i <= |s| && DigitsOk(ds) && |ds| <= SIZE_DIGITS && SizeText(ds) == s[i - |ds|..i]
    && HexValue(ds) < Pow16(|ds|) && Run(trailer, Sized(ds), s, i).verdict.Done?
  }

  lemma DigitAdded(s: seq<byte>, i: nat, ds: seq<Digit>, d: Digit)
    requires |ds| <= i < |s| && DigitsOk(ds) && SizeText(ds) == s[i - |ds|..i] && d.Ok() && d.Octet() == s[i]
    ensures DigitsOk(ds + [d]) && SizeText(ds + [d]) == s[i - |ds|..i + 1]
  {
    hide Digit.Octet;
    assert SizeText(ds + [d]) == SizeText(ds) + [s[i]];
    assert s[i - |ds|..i + 1] == s[i - |ds|..i] + [s[i]];
  }

  lemma DigitOn(trailer: bool, s: seq<byte>, i: nat, ds: seq<Digit>) returns (d: Digit)
    requires Reading(trailer, s, i, ds) && i < |s| && HexDigit(s[i]) >= 0
    ensures Reading(trailer, s, i + 1, ds + [d])
    ensures Run(trailer, Sized(ds), s, i) == Run(trailer, Sized(ds + [d]), s, i + 1)
  {
    d := DigitOf(s[i]);
    OneOn(trailer, Sized(ds), s, i);
    assert |ds| < SIZE_DIGITS;
    hide Run, Step, SizeText, DigitsOk, HexValue, Pow16, HexDigit;
    DigitAdded(s, i, ds, d);
    HexValueSnoc(ds, d);
    SizeGrows(trailer, ds, d, s[i]);
    SameRun(trailer, Sized(ds), i, Sized(ds + [d]), i + 1, s);
  }

  lemma SizeGrows(trailer: bool, ds: seq<Digit>, d: Digit, b: byte)
    requires |ds| < SIZE_DIGITS && HexValue(ds) < Pow16(|ds|) && d.value == HexDigit(b) >= 0
    ensures HexValue(ds + [d]) < Pow16(|ds + [d]|)
    ensures Step(trailer, Sized(ds), b) == Continue(Sized(ds + [d]), [])
  {
    HexValueSnoc(ds, d);
    StepDigit(trailer, Sized(ds), b);
    hide Step, HexValue;
  }

  /** The digits of a size, up to the first octet that is none. */
  lemma {:induction false} SizeRead(trailer: bool, s: seq<byte>, i: nat, ds: seq<Digit>) returns (all: seq<Digit>, j: nat)
    requires Reading(trailer, s, i, ds)
    ensures Reading(trailer, s, j, all) && j - |all| == i - |ds| && j < |s| && HexDigit(s[j]) == -1
    ensures Run(trailer, Sized(ds), s, i) == Run(trailer, Sized(all), s, j)
    decreases |s| - i
  {
    OneOn(trailer, Sized(ds), s, i);
    hide Run, Step, DigitsOk, SizeText, Pow16;
    if HexDigit(s[i]) == -1 {
      all, j := ds, i;
    } else {
      var d := DigitOn(trailer, s, i, ds);
      all, j := SizeRead(trailer, s, i + 1, ds + [d]);
    }
  }

  /** Extensions, up to the CR that ends them. */
  lemma {:induction false} ExtRead(trailer: bool, left: nat, s: seq<byte>, i: nat) returns (j: nat)
    requires i <= |s| && Run(trailer, Core(InChunkExt, left, 0), s, i).verdict.Done?
    ensures i <= j < |s| && s[j] == CR && NoLineBreak(s[i..j])
    ensures Run(trailer, Core(InChunkExt, left, 0), s, i) == Run(trailer, Core(ExpectHeaderLF, left, 0), s, j + 1)
    decreases |s| - i
  {
    OneOn(trailer, Core(InChunkExt, left, 0), s, i);
    if s[i] == CR {
      j := i;
    } else {
      hide Run;
      j := ExtRead(trailer, left, s, i + 1);
      assert s[i..j] == [s[i]] + s[i + 1..j];
    }
  }

  /** What follows the digits: the CR, or extensions and the CR. */
  lemma AfterSize(trailer: bool, s: seq<byte>, k: nat, n: nat, digits: nat) returns (ext: seq<byte>)
    requires k < |s| && HexDigit(s[k]) == -1 && Run(trailer, Core(InChunkSize, n, digits), s, k).verdict.Done?
    ensures digits > 0 && ExtensionOk(ext)
    ensures var j := k + |ext|;
            && j < |s| && s[k..j] == ext && s[j] == CR
            && Run(trailer, Core(InChunkSize, n, digits), s, k) == Run(trailer, Core(ExpectHeaderLF, n, 0), s, j + 1)
  {
    var c := Core(InChunkSize, n, digits);
    OneOn(trailer, c, s, k);
    if s[k] == CR {
      ext := [];
      SameRun(trailer, c, k, Core(ExpectHeaderLF, n, 0), k + 1, s);
    } else {
      SameRun(trailer, c, k, Core(InChunkExt, n, 0), k + 1, s);
      hide Run;
      var j := ExtRead(trailer, n, s, k + 1);
      ext := s[k..j];
      assert ext == [s[k]] + s[k + 1..j];
    }
  }

  lemma ReadingStarts(trailer: bool, s: seq<byte>, i: nat)
    requires i <= |s| && Run(trailer, START, s, i).verdict.Done?
    ensures Reading(trailer, s, i, []) && Sized([]) == START
  {
    assert Pow16(0) == 1 && SizeText([]) == s[i..i];
    hide Run;
  }

  /** A chunk header, up to its CR. */
  lemma HeaderRead(trailer: bool, s: seq<byte>, i: nat) returns (size: seq<Digit>, ext: seq<byte>)
    requires i <= |s| && Run(trailer, START, s, i).verdict.Done?
    ensures 1 <= |size| <= 16 && DigitsOk(size) && ExtensionOk(ext)
    ensures var j := i + |size| + |ext|;
            && j < |s| && s[i..j] == SizeText(size) + ext && s[j] == CR
            && Run(trailer, START, s, i) == Run(trailer, Core(ExpectHeaderLF, HexValue(size), 0), s, j + 1)
  {
    hide Run, ExtensionOk, SizeText, DigitsOk, HexDigit;
    ReadingStarts(trailer, s, i);
    var k;
    size, k := SizeRead(trailer, s, i, []);
    ext := AfterSize(trailer, s, k, HexValue(size), |size|);
    assert s[i..k + |ext|] == s[i..k] + s[k..k + |ext|];
  }

  lemma PrependTwice(a: seq<byte>, b: seq<byte>, r: RunResult)
    ensures Prepend(a, Prepend(b, r)) == Prepend(a + b, r)
  {
    assert a + (b + r.output) == (a + b) + r.output;
  }

  /** A block of data. */
  lemma {:induction false} DataRead(trailer: bool, s: seq<byte>, i: nat, n: nat)
    requires i <= |s| && n > 0 && Run(trailer, Core(InChunkData, n, 0), s, i).verdict.Done?
    ensures i + n <= |s|
    ensures Run(trailer, Core(InChunkData, n, 0), s, i) ==
            Prepend(s[i..i + n], Run(trailer, Core(ExpectDataCR, 0, 0), s, i + n))
    decreases n
  {
    hide Run, Step, Prepend;
    OneOn(trailer, Core(InChunkData, n, 0), s, i);
    DataStep(trailer, n, s[i]);
    if n > 1 {
      DataRead(trailer, s, i + 1, n - 1);
      PrependTwice([s[i]], s[i + 1..i + n], Run(trailer, Core(ExpectDataCR, 0, 0), s, i + n));
      assert s[i..i + n] == [s[i]] + s[i + 1..i + n];
    } else {
      assert s[i..i + 1] == [s[i]];
    }
  }

  lemma DataStep(trailer: bool, n: nat, b: byte)
    requires n > 0
    ensures Step(trailer, Core(InChunkData, n, 0), b) ==
            Continue(if n == 1 then Core(ExpectDataCR, 0, 0) else Core(InChunkData, n - 1, 0), [b])
  {
  }

  /** The line end behind the data. */
  lemma DataEndRead(trailer: bool, s: seq<byte>, i: nat)
    requires i <= |s| && Run(trailer, Core(ExpectDataCR, 0, 0), s, i).verdict.Done?
    ensures i + 2 <= |s| && s[i..i + 2] == CRLF
    ensures Run(trailer, Core(ExpectDataCR, 0, 0), s, i) == Run(trailer, START, s, i + 2)
  {
    OneOn(trailer, Core(ExpectDataCR, 0, 0), s, i);
    OneOn(trailer, Core(ExpectDataLF, 0, 0), s, i + 1);
    SameRun(trailer, Core(ExpectDataCR, 0, 0), i, START, i + 2, s);
  }

  /** The rest of a trailer line, up to its LF. */
  lemma {:induction false} TextRead(trailer: bool, s: seq<byte>, i: nat) returns (j: nat)
    requires i <= |s| && Run(trailer, Core(InTrailerMiddle, 0, 0), s, i).verdict.Done?
    ensures i <= j < |s| && s[j] == LF && forall k | i <= k < j :: s[k] != LF
    ensures Run(trailer, Core(InTrailerMiddle, 0, 0), s, i) == Run(trailer, Core(InTrailerHead, 0, 0), s, j + 1)
    decreases |s| - i
  {
    OneOn(trailer, Core(InTrailerMiddle, 0, 0), s, i);
    hide Run;
    if s[i] == LF { j := i; } else { j := TextRead(trailer, s, i + 1); }
  }

  /** The CRs in front of a trailer line. */
  lemma {:induction false} CrsRead(trailer: bool, s: seq<byte>, i: nat) returns (n: nat)
    requires i <= |s| && Run(trailer, Core(InTrailerHead, 0, 0), s, i).verdict.Done?
    ensures i + n < |s| && s[i..i + n] == Returns(n) && s[i + n] != CR
    ensures Run(trailer, Core(InTrailerHead, 0, 0), s, i) == Run(trailer, Core(InTrailerHead, 0, 0), s, i + n)
    decreases |s| - i
  {
    OneOn(trailer, Core(InTrailerHead, 0, 0), s, i);
    hide Run;
    if s[i] == CR {
      var k := CrsRead(trailer, s, i + 1);
      n := k + 1;
      assert s[i..i + n] == [CR] + s[i + 1..i + n];
    } else {
      n := 0;
    }
  }

  /** The LF that ends the trailers. */
  lemma LastLF(trailer: bool, s: seq<byte>, k: nat)
    requires k < |s| && s[k] == LF && Run(trailer, Core(InTrailerHead, 0, 0), s, k).verdict.Done?
    ensures var r := Run(trailer, Core(InTrailerHead, 0, 0), s, k); r.output == [] && r.at == k + 1
  {
  }

  lemma TrailersCons(line: Trailer, rest: seq<Trailer>, crs: nat)
    requires TrailerOk(line) && forall k | 0 <= k < |rest| :: TrailerOk(rest[k])
    ensures var all := [line] + rest;
            && (forall k | 0 <= k < |all| :: TrailerOk(all[k]))
            && EncodeTrailers(all, crs) == Returns(line.crs) + line.text + [LF] + EncodeTrailers(rest, crs)
  {
    hide TrailerOk;
    assert ([line] + rest)[1..] == rest;
  }

  lemma {:induction false} TrailersRead(trailer: bool, s: seq<byte>, i: nat) returns (lines: seq<Trailer>, crs: nat)
    requires i <= |s| && Run(trailer, Core(InTrailerHead, 0, 0), s, i).verdict.Done?
    ensures forall k | 0 <= k < |lines| :: TrailerOk(lines[k])
    ensures var r := Run(trailer, Core(InTrailerHead, 0, 0), s, i);
            r.output == [] && s[i..r.at] == EncodeTrailers(lines, crs)
    decreases |s| - i
  {
    hide TrailerOk, Returns, Run, Step;
    var n := CrsRead(trailer, s, i);
    var k := i + n;
    if s[k] == LF {
      lines, crs := [], n;
      LastLF(trailer, s, k);
      assert s[i..k + 1] == s[i..k] + [LF];
    } else {
      hide EncodeTrailers;
      var j := LineRead(trailer, s, k);
      var line := Trailer(n, s[k..j]);
      var rest;
      rest, crs := TrailersRead(trailer, s, j + 1);
      lines := [line] + rest;
      TrailersCons(line, rest, crs);
      var at := Run(trailer, Core(InTrailerHead, 0, 0), s, j + 1).at;
      assert s[i..at] == s[i..k] + s[k..j] + [s[j]] + s[j + 1..at];
    }
  }

  lemma LineRead(trailer: bool, s: seq<byte>, k: nat) returns (j: nat)
    requires k < |s| && s[k] != CR && s[k] != LF && Run(trailer, Core(InTrailerHead, 0, 0), s, k).verdict.Done?
    ensures k < j < |s| && s[j] == LF && forall n :: TrailerOk(Trailer(n, s[k..j]))
    ensures Run(trailer, Core(InTrailerHead, 0, 0), s, k) == Run(trailer, Core(InTrailerHead, 0, 0), s, j + 1)
  {
    OneOn(trailer, Core(InTrailerHead, 0, 0), s, k);
    hide Run;
    j := TextRead(trailer, s, k + 1);
  }

  lemma HeaderStep(trailer: bool, n: nat, b: byte)
    ensures Step(trailer, Core(ExpectHeaderLF, n, 0), b) ==
            if b != LF then Malformed(Core(ExpectHeaderLF, n, 0))
            else if n > 0 then Continue(Core(InChunkData, n, 0), [])
            else if trailer then Continue(Core(InTrailerHead, 0, 0), [])
            else Finished(Core(ExpectHeaderLF, n, 0))
  {
  }

  /** What follows the CR of a chunk header. */
  lemma AfterHeader(trailer: bool, s: seq<byte>, i: nat, n: nat)
    requires i <= |s| && Run(trailer, Core(ExpectHeaderLF, n, 0), s, i).verdict.Done?
    ensures i < |s| && s[i] == LF
    ensures var r := Run(trailer, Core(ExpectHeaderLF, n, 0), s, i);
            if n > 0 then
              && i + n + 3 <= |s| && s[i + 1 + n..i + n + 3] == CRLF
              && r == Prepend(s[i + 1..i + 1 + n], Run(trailer, START, s, i + n + 3))
            else if trailer then r == Run(trailer, Core(InTrailerHead, 0, 0), s, i + 1)
            else r.output == [] && r.at == i + 1
  {
    hide Run, Step;
    var c := Core(ExpectHeaderLF, n, 0);
    OneOn(trailer, c, s, i);
    HeaderStep(trailer, n, s[i]);
    if n > 0 {
      SameRun(trailer, c, i, Core(InChunkData, n, 0), i + 1, s);
      DataRead(trailer, s, i + 1, n);
      DataEndRead(trailer, s, i + 1 + n);
    } else if trailer {
      SameRun(trailer, c, i, Core(InTrailerHead, 0, 0), i + 1, s);
    }
  }

  lemma MessageDigits(m: Message)
    requires MessageOk(m)
    ensures DigitsOk(m.last.size) && forall i | 0 <= i < |m.chunks| :: DigitsOk(m.chunks[i].size)
  {
  }

  lemma ChunksCons(c: Chunk, cs: seq<Chunk>)
    requires DigitsOk(c.size) && forall i | 0 <= i < |cs| :: DigitsOk(cs[i].size)
    ensures forall i | 0 <= i < |[c] + cs| :: DigitsOk(([c] + cs)[i].size)
    ensures EncodeChunks([c] + cs) == ChunkHeader(c) + c.data + CRLF + EncodeChunks(cs)
  {
    hide DigitsOk, ChunkHeader;
    assert ([c] + cs)[1..] == cs;
  }

  lemma Regrouped(a: seq<byte>, b: seq<byte>, c: seq<byte>, d: seq<byte>)
    ensures (a + b) + c + d == a + (b + c + d)
  {
  }

  lemma MessageCons(c: Chunk, m: Message)
    requires MessageOk(m) && ChunkOk(c) && c.data != []
    ensures MessageOk(m.(chunks := [c] + m.chunks)) && Payload([c] + m.chunks) == c.data + Payload(m.chunks)
  {
    hide ChunkOk, TrailerOk;
    assert ([c] + m.chunks)[1..] == m.chunks;
  }

  lemma EncodeCons(trailer: bool, c: Chunk, m: Message)
    requires MessageOk(m) && ChunkOk(c) && c.data != []
    ensures var all := m.(chunks := [c] + m.chunks);
            && MessageOk(all) && Payload(all.chunks) == c.data + Payload(m.chunks)
            && Encode(trailer, all) == ChunkHeader(c) + c.data + CRLF + Encode(trailer, m)
  {
    MessageCons(c, m);
    MessageDigits(m);
    ChunksCons(c, m.chunks);
    hide ChunkOk, TrailerOk, ChunkHeader, EncodeTrailers, DigitsOk, MessageOk, Payload, EncodeChunks;
    Regrouped(ChunkHeader(c) + c.data + CRLF, EncodeChunks(m.chunks), ChunkHeader(m.last),
              if trailer then EncodeTrailers(m.trailers, m.crs) else []);
  }

  lemma EncodeLast(trailer: bool, c: Chunk, lines: seq<Trailer>, crs: nat)
    requires ChunkOk(c) && c.data == [] && forall k | 0 <= k < |lines| :: TrailerOk(lines[k])
    ensures var m := Message([], c, lines, crs);
            && MessageOk(m) && Payload(m.chunks) == []
            && Encode(trailer, m) == ChunkHeader(c) + if trailer then EncodeTrailers(lines, crs) else []
  {
    assert EncodeChunks([]) == [];
  }

  /** A run that is done has read a message and emitted its data. */
  lemma {:induction false} DoneIsMessage(trailer: bool, s: seq<byte>, i: nat) returns (m: Message)
    requires i <= |s| && Run(trailer, START, s, i).verdict.Done?
    ensures MessageOk(m)
    ensures var r := Run(trailer, START, s, i);
            s[i..r.at] == Encode(trailer, m) && r.output == Payload(m.chunks)
    decreases |s| - i
  {
    hide Run, Step, Encode, EncodeTrailers, TrailerOk, MessageOk, Payload, ExtensionOk, Digit.Ok;
    var size, ext := HeaderRead(trailer, s, i);
    var n, j := HexValue(size), i + |size| + |ext| + 1;
    AfterHeader(trailer, s, j, n);
    assert s[i..j + 1] == SizeText(size) + ext + CRLF;
    var at := Run(trailer, START, s, i).at;
    if n > 0 {
      var c := Chunk(size, ext, s[j + 1..j + 1 + n]);
      m := DoneIsMessage(trailer, s, j + n + 3);
      assert s[i..at] == s[i..j + 1] + s[j + 1..j + 1 + n] + s[j + 1 + n..j + n + 3] + s[j + n + 3..at];
      EncodeCons(trailer, c, m);
      m := m.(chunks := [c] + m.chunks);
    } else {
      var lines: seq<Trailer>, crs := [], 0;
      if trailer { lines, crs := TrailersRead(trailer, s, j + 1); }
      m := Message([], Chunk(size, ext, []), lines, crs);
      EncodeLast(trailer, m.last, lines, crs);
      assert s[i..at] == s[i..j + 1] + s[j + 1..at];
    }
  }

  // ----- Whoever asks for more can be satisfied -----

  const ZERO := Chunk([Digit(0, false)], [], [])
  const NOTHING := Message([], ZERO, [], 0)

  lemma NothingOk()
    ensures MessageOk(NOTHING)
  {
    assert ZERO.size[..0] == [];
  }

  lemma NothingRuns(trailer: bool, c: Core, p: seq<byte>)
    requires Run(trailer, c, p).verdict == NeedMore(START)
    ensures MessageOk(NOTHING) && Run(trailer, c, p + Encode(trailer, NOTHING)).verdict.Done?
  {
    NothingOk();
    RunMessage(trailer, NOTHING);
    RunAppend(trailer, c, p, Encode(trailer, NOTHING));
  }

  /** From a header's LF, or from data still to come. */
  lemma DataFinishes(trailer: bool, n: nat) returns (t: seq<byte>)
    requires n > 0
    ensures Run(trailer, Core(InChunkData, n, 0), t).verdict.Done?
  {
    var data := seq(n, _ => SP);
    RunData(trailer, data, 0);
    RunCrLf(trailer);
    RunAppend(trailer, Core(InChunkData, n, 0), data, CRLF);
    NothingRuns(trailer, Core(InChunkData, n, 0), data + CRLF);
    t := data + CRLF + Encode(trailer, NOTHING);
  }

  lemma HeaderFinishes(trailer: bool, n: nat) returns (t: seq<byte>)
    ensures Run(trailer, Core(ExpectHeaderLF, n, 0), t).verdict.Done?
  {
    var c := Core(ExpectHeaderLF, n, 0);
    if n > 0 {
      var more := DataFinishes(trailer, n);
      OneStep(trailer, c, LF, more);
      t := [LF] + more;
    } else if trailer {
      assert Run(trailer, Core(InTrailerHead, 0, 0), [LF]).verdict.Done?;
      OneStep(trailer, c, LF, [LF]);
      t := [LF] + [LF];
    } else {
      t := [LF];
    }
  }

  lemma OneStep(trailer: bool, c: Core, b: byte, t: seq<byte>)
    requires Step(trailer, c, b).Continue?
    ensures Run(trailer, c, [b] + t).verdict == Run(trailer, Step(trailer, c, b).core, t).verdict
  {
    hide Step;
    RunAppend(trailer, c, [b], t);
    assert Run(trailer, Step(trailer, c, b).core, [b], 1).verdict == NeedMore(Step(trailer, c, b).core);
  }

  /** Every state a decoder can be in can still be brought to an end. */
  lemma Finishes(trailer: bool, c: Core) returns (t: seq<byte>)
    requires Valid(c)
    ensures Run(trailer, c, t).verdict.Done?
  {
    match c.phase {
      case InChunkSize =>
        if c.hexCount == 0 {
          assert Pow16(0) == 1;
          assert Run(trailer, START, []).verdict == NeedMore(START);
          NothingRuns(trailer, START, []);
          t := [] + Encode(trailer, NOTHING);
        } else {
          var more := HeaderFinishes(trailer, c.left);
          OneStep(trailer, c, CR, more);
          t := [CR] + more;
        }
      case InChunkExt =>
        var more := HeaderFinishes(trailer, c.left);
        OneStep(trailer, c, CR, more);
        t := [CR] + more;
      case ExpectHeaderLF => t := HeaderFinishes(trailer, c.left);
      case InChunkData => t := DataFinishes(trailer, c.left);
      case ExpectDataCR =>
        RunCrLf(trailer);
        NothingRuns(trailer, c, CRLF);
        t := CRLF + Encode(trailer, NOTHING);
      case ExpectDataLF =>
        assert Run(trailer, START, [LF], 1).verdict == NeedMore(START);
        NothingRuns(trailer, c, [LF]);
        t := [LF] + Encode(trailer, NOTHING);
      case InTrailerHead => t := [LF];
      case InTrailerMiddle =>
        OneStep(trailer, c, LF, [LF]);
        t := [LF] + [LF];
    }
  }

  // ----- The verdict -----

  lemma DoneStarts(trailer: bool, s: seq<byte>)
    ensures Whole(Fresh(trailer), s).verdict.Done? <==> Starts(trailer, s)
  {
    hide Run;
    if Whole(Fresh(trailer), s).verdict.Done? {
      var m := DoneIsMessage(trailer, s, 0);
      assert Encode(trailer, m) <= s;
    }
    if Starts(trailer, s) {
      var m :| MessageOk(m) && Encode(trailer, m) <= s;
      RunMessage(trailer, m);
      var n := |Encode(trailer, m)|;
      assert s == Encode(trailer, m) + s[n..];
      RunAppend(trailer, START, Encode(trailer, m), s[n..]);
    }
  }

  /** What the decoder says of a stream: done exactly when it starts with a message, more exactly when it does not but
      can be continued to one, and otherwise an error. */
  lemma VerdictExactly(trailer: bool, s: seq<byte>)
    ensures var v := Whole(Fresh(trailer), s).verdict;
            && (v.Done? <==> Starts(trailer, s))
            && (v.NeedMore? <==> !Starts(trailer, s) && exists t :: Starts(trailer, s + t))
  {
    var r := Whole(Fresh(trailer), s);
    DoneStarts(trailer, s);
    assert Valid(START);
    RunFacts(trailer, START, s, 0);
    hide Run, Starts, Valid;
    if r.verdict.NeedMore? {
      var t := Finishes(trailer, r.verdict.core);
      RunAppend(trailer, START, s, t);
      DoneStarts(trailer, s + t);
    }
    if t :| Starts(trailer, s + t) {
      DoneStarts(trailer, s + t);
      RunAppend(trailer, START, s, t);
    }
  }
}
