/**
 The incremental call: skipping the octets already seen does not change which messages are accepted, and when its
 refusals are those of a fresh parse.
 */
module HttpIncremental {
  import opened Bytes
  import opened HttpGrammar
  import opened HttpStability

  // ----- The incremental call -----

  /** s[..n] ends with an empty line that starts at e. */
  ghost predicate EmptyLineAt(s: seq<byte>, e: nat, n: nat) {
    0 < e <= n - 1 < |s| && s[e - 1] == LF && AtLineEnd(s, e) && LineEnd(s, e) == Ok(n, ())
  }

  lemma {:induction false} HeaderLinesPaired(s: seq<byte>, i: nat, n: nat, max: nat, k: nat) returns (e: nat)
    requires HeaderLines(s, i, n, max).Ok? && HeaderLines(s, i, n, max).at == k
    requires 0 < i <= |s| && s[i - 1] == LF
    ensures PairedCR(s, i, k) && EmptyLineAt(s, e, k)
    decreases |s| - i
  {
    hide HeaderLine;
    if AtLineEnd(s, i) {
      e := i;
    } else {
      HeaderLinesStep(s, i, n, max);
      e := HeaderLinesPaired(s, HeaderLine(s, i, n == 0).at, n + 1, max, k);
    }
  }

  /** A parsed request is a head in which CRs come with LFs, ending in an empty line. */
  lemma RequestHead(s: seq<byte>, max: nat) returns (e: nat)
    ensures var r := ParseRequest(s, max);
            r.Ok? ==> PairedCR(s, 0, r.at) && EmptyLineAt(s, e, r.at)
  {
    hide RequestLine, HeaderLines;
    e := 0;
    if ParseRequest(s, max).Ok? {
      var l := LeadingLine(s);
      assert PairedCR(s, 0, l.at);
      var r := RequestLine(s, l.at);
      e := HeaderLinesPaired(s, r.at, 0, max, ParseRequest(s, max).at);
    }
  }

  lemma ResponseHead(s: seq<byte>, max: nat) returns (e: nat)
    ensures var r := ParseResponse(s, max);
            r.Ok? ==> PairedCR(s, 0, r.at) && EmptyLineAt(s, e, r.at)
  {
    hide StatusLine, HeaderLines;
    e := 0;
    if ParseResponse(s, max).Ok? {
      var l := StatusLine(s);
      e := HeaderLinesPaired(s, l.at, 0, max, ParseResponse(s, max).at);
    }
  }

  /** The scan finds an empty line at or before any place where a well-formed head has one. */
  lemma {:induction false} EmptyLineFound(s: seq<byte>, j: nat, e: nat, n: nat, count: nat)
    requires EmptyLineAt(s, e, n) && j <= e && PairedCR(s, j, n)
    requires count <= 1 && (j == e ==> count == 1)
    ensures EmptyLine(s, j, count).Ok?
    decreases |s| - j
  {
    if j < e {
      if AtLineEnd(s, j) {
        var k := LineEnd(s, j).at;
        if count == 0 { EmptyLineFound(s, k, e, n, 1); }
      } else {
        EmptyLineFound(s, j + 1, e, n, 0);
      }
    }
  }

  lemma PairedOn(s: seq<byte>, i: nat, j: nat, n: nat)
    requires i <= j
    ensures PairedCR(s, i, n) ==> PairedCR(s, j, n)
    ensures j <= n && PairedCR(s, i, j) && PairedCR(s, j, n) ==> PairedCR(s, i, n)
  {
  }

  /** Where a fresh parse succeeds, the rescan finds an empty line. */
  lemma RequestScanned(s: seq<byte>, max: nat, last: nat)
    requires last <= |s| && ParseRequest(s[..last], max) == Partial && ParseRequest(s, max).Ok?
    ensures EmptyLine(s, RescanFrom(last), 0).Ok?
  {
    hide ParseRequest, EmptyLine, PairedCR;
    var n := ParseRequest(s, max).at;
    if n <= last {
      RequestLocal(s, s[..last], max);
      assert false;
    }
    var e := RequestHead(s, max);
    PairedOn(s, 0, RescanFrom(last), n);
    EmptyLineFound(s, RescanFrom(last), e, n, 0);
  }

  lemma ResponseScanned(s: seq<byte>, max: nat, last: nat)
    requires last <= |s| && ParseResponse(s[..last], max) == Partial && ParseResponse(s, max).Ok?
    ensures EmptyLine(s, RescanFrom(last), 0).Ok?
  {
    hide ParseResponse, EmptyLine, PairedCR;
    var n := ParseResponse(s, max).at;
    if n <= last {
      ResponseLocal(s, s[..last], max);
      assert false;
    }
    var e := ResponseHead(s, max);
    PairedOn(s, 0, RescanFrom(last), n);
    EmptyLineFound(s, RescanFrom(last), e, n, 0);
  }

  /** If the first `last` octets were incomplete, the incremental call, which rescans only from last - 3, succeeds
      exactly when a fresh parse does, and with the same result.  Its verdict is the fresh one if and only if it is
      a first call, or the scan finds its empty line, or the scan stops for the same reason as the fresh parse. */
  lemma IncrementalRequest(s: seq<byte>, max: nat, last: nat)
    requires last <= |s| && ParseRequest(s[..last], max) == Partial
    ensures ParseRequestAgain(s, max, last).Ok? <==> ParseRequest(s, max).Ok?
    ensures ParseRequestAgain(s, max, last).Ok? ==> ParseRequestAgain(s, max, last) == ParseRequest(s, max)
    ensures var scan, now := EmptyLine(s, RescanFrom(last), 0), ParseRequest(s, max);
            ParseRequestAgain(s, max, last) == now <==> last == 0 || scan.Ok? || (scan.Bad? <==> now.Bad?)
  {
    hide ParseRequest, EmptyLine;
    if ParseRequest(s, max).Ok? { RequestScanned(s, max, last); }
  }

  lemma IncrementalResponse(s: seq<byte>, max: nat, last: nat)
    requires last <= |s| && ParseResponse(s[..last], max) == Partial
    ensures ParseResponseAgain(s, max, last).Ok? <==> ParseResponse(s, max).Ok?
    ensures ParseResponseAgain(s, max, last).Ok? ==> ParseResponseAgain(s, max, last) == ParseResponse(s, max)
    ensures var scan, now := EmptyLine(s, RescanFrom(last), 0), ParseResponse(s, max);
            ParseResponseAgain(s, max, last) == now <==> last == 0 || scan.Ok? || (scan.Bad? <==> now.Bad?)
  {
    hide ParseResponse, EmptyLine;
    if ParseResponse(s, max).Ok? { ResponseScanned(s, max, last); }
  }

  // ----- What the incremental call says when it does not succeed -----

  /** What the scan has decided it decides about every extension. */
  lemma {:induction false} ScanStays(s: seq<byte>, more: seq<byte>, i: nat, count: nat)
    requires !EmptyLine(s, i, count).Partial?
    ensures EmptyLine(s + more, i, count) == EmptyLine(s, i, count)
    decreases |s| - i
  {
    assert i < |s| && (s + more)[i] == s[i];
    if AtLineEnd(s, i) {
      if i + 1 < |s| { assert (s + more)[i + 1] == s[i + 1]; }
      if LineEnd(s, i).Ok? && count != 1 { ScanStays(s, more, LineEnd(s, i).at, count + 1); }
    } else {
      ScanStays(s, more, i + 1, 0);
    }
  }

  /** What the incremental call refuses is no request, however it goes on, and stays refused. */
  lemma RefusedRequestStays(s: seq<byte>, more: seq<byte>, max: nat, last: nat)
    requires last <= |s| && ParseRequest(s[..last], max) == Partial
    requires ParseRequestAgain(s, max, last).Bad?
    ensures !ParseRequest(s + more, max).Ok?
    ensures ParseRequestAgain(s + more, max, last).Bad?
  {
    var t := s + more;
    assert t[..last] == s[..last];
    if ParseRequest(s, max).Bad? { RequestStable(s, more, max); }
    if last != 0 { ScanStays(s, more, RescanFrom(last), 0); }
    hide ParseRequest, EmptyLine;
    IncrementalRequest(t, max, last);
  }

  lemma RefusedResponseStays(s: seq<byte>, more: seq<byte>, max: nat, last: nat)
    requires last <= |s| && ParseResponse(s[..last], max) == Partial
    requires ParseResponseAgain(s, max, last).Bad?
    ensures !ParseResponse(s + more, max).Ok?
    ensures ParseResponseAgain(s + more, max, last).Bad?
  {
    var t := s + more;
    assert t[..last] == s[..last];
    if ParseResponse(s, max).Bad? { ResponseStable(s, more, max); }
    if last != 0 { ScanStays(s, more, RescanFrom(last), 0); }
    hide ParseResponse, EmptyLine;
    IncrementalResponse(t, max, last);
  }

  /** Behind `G` comes an octet no method has: a fresh parse refuses, the incremental call waits for an empty line. */
  lemma WaitsWhereFreshRefuses(max: nat)
    ensures var s: seq<byte> := ['G' as int, '(' as int];
            && ParseRequest(s[..1], max) == Partial
            && ParseRequest(s, max) == Bad
            && ParseRequestAgain(s, max, 1) == Partial
  {
    var s: seq<byte> := ['G' as int, '(' as int];
    assert ScanToken(s[..1], 1, SP) == ScanToken(s[..1], 0, SP) == Partial;
    assert ScanToken(s, 1, SP) == ScanToken(s, 0, SP) == Bad;
    assert EmptyLine(s, 2, 0) == EmptyLine(s, 1, 0) == EmptyLine(s, 0, 0) == Partial;
  }

  const GET_CR: seq<byte> := ['G' as int, 'E' as int, 'T' as int, SP, '/' as int, SP, CR]

  /** Nothing is decided about a version before nine octets of it are there. */
  lemma VersionAwaited(s: seq<byte>, max: nat)
    requires 7 <= |s| < 15 && s[..7] == GET_CR
    ensures ParseRequest(s, max) == Partial
  {
    assert forall k | 0 <= k < 7 :: s[k] == GET_CR[k];
    assert ScanToken(s, 3, SP) == ScanToken(s, 2, SP) == ScanToken(s, 1, SP) == ScanToken(s, 0, SP) == Ok(3, ());
    assert SkipSpaces(s, 4) == Ok(4, ()) && SkipSpaces(s, 6) == Ok(6, ());
    assert ScanPath(s, 5) == ScanPath(s, 4) == Ok(5, ());
    assert Target(s, 4) == Ok(6, Slice(4, 1));
  }

  /** A CR without LF where the version should be: a fresh parse does not look at it yet, the scan refuses it. */
  lemma RefusesWhereFreshWaits(max: nat)
    ensures var s := GET_CR + ['X' as int];
            && ParseRequest(s[..7], max) == Partial
            && ParseRequest(s, max) == Partial
            && ParseRequestAgain(s, max, 7) == Bad
  {
    var s := GET_CR + ['X' as int];
    VersionAwaited(s[..7], max);
    VersionAwaited(s, max);
    assert EmptyLine(s, 6, 0) == EmptyLine(s, 5, 0) == EmptyLine(s, 4, 0) == Bad;
  }

  /** The same two ways apart for responses: nine octets that are no version, and a CR without LF before there are nine. */
  lemma ResponseVerdictsDiffer(max: nat)
    ensures var s: seq<byte> := seq(9, _ => 'X' as int);
            && ParseResponse(s[..8], max) == Partial
            && ParseResponse(s, max) == Bad
            && ParseResponseAgain(s, max, 8) == Partial
    ensures var s: seq<byte> := [CR, 'X' as int];
            && ParseResponse(s[..1], max) == Partial
            && ParseResponse(s, max) == Partial
            && ParseResponseAgain(s, max, 1) == Bad
  {
    var s: seq<byte> := seq(9, _ => 'X' as int);
    assert s[0..7][0] != HTTP_1[0];
    assert EmptyLine(s, 9, 0) == EmptyLine(s, 8, 0) == EmptyLine(s, 7, 0) == EmptyLine(s, 6, 0) == Partial;
  }

  /** What the scan finds: an empty line, with no CR before it that lacks its LF; or such a CR; or neither. */
  lemma {:induction false} ScanMeans(s: seq<byte>, i: nat, count: nat) returns (e: nat)
    requires count <= 1 && (count == 1 ==> 0 < i <= |s| && s[i - 1] == LF)
    ensures var r := EmptyLine(s, i, count);
            && (r.Ok? ==> i <= e && EmptyLineAt(s, e, r.at) && PairedCR(s, i, r.at) && (count == 0 ==> i < e))
            && (r.Bad? ==> i <= e < |s| - 1 && s[e] == CR && s[e + 1] != LF && PairedCR(s, i, e))
            && (r.Partial? ==> forall n, k | i < k && PairedCR(s, i, n) :: !EmptyLineAt(s, k, n))
    decreases |s| - i
  {
    e := i;
    if EmptyLine(s, i, count).Partial? {
      forall n, k | i < k && PairedCR(s, i, n) ensures !EmptyLineAt(s, k, n) {
        if EmptyLineAt(s, k, n) { EmptyLineFound(s, i, k, n, count); }
      }
    }
    if AtLineEnd(s, i) {
      if LineEnd(s, i).Ok? && count == 0 { e := ScanMeans(s, LineEnd(s, i).at, 1); }
    } else if i < |s| {
      e := ScanMeans(s, i + 1, 0);
    }
  }

  /** The rescan goes back three octets and no further: a CR without LF three octets back is refused, one four back is
      not looked at again. */
  lemma RescansThreeBack(max: nat)
    ensures var s := GET_CR + seq(3, _ => 'X' as int);
            && ParseRequest(s[..9], max) == Partial && ParseRequestAgain(s[..9], max, 9) == Bad
            && ParseRequest(s, max) == Partial && ParseRequestAgain(s, max, 10) == Partial
  {
    var s := GET_CR + seq(3, _ => 'X' as int);
    VersionAwaited(s, max);
    VersionAwaited(s[..9], max);
    assert EmptyLine(s[..9], 6, 0) == Bad;
    assert EmptyLine(s, 10, 0) == EmptyLine(s, 9, 0) == EmptyLine(s, 8, 0) == EmptyLine(s, 7, 0) == Partial;
  }

  // ----- A header block on its own -----

  lemma BlockGoesOn(s: seq<byte>, max: nat, last: nat)
    requires last <= |s| && HeaderLines(s[..last], 0, 0, max) == Partial && HeaderLines(s, 0, 0, max).Ok?
    ensures HeaderLines(s, 0, 0, max).at > last
  {
    hide HeaderLines;
    assert Agree(s, s[..last], last);
    HeaderLinesRepeat(s, s[..last], last, 0, 0, max);
  }

  lemma BlockFound(s: seq<byte>, max: nat, last: nat)
    requires HeaderLines(s, 0, 0, max).Ok? && HeaderLines(s, 0, 0, max).at > last && !AtLineEnd(s, 0)
    ensures EmptyLine(s, RescanFrom(last), 0).Ok?
  {
    HeaderLinesStep(s, 0, 0, max);
    hide HeaderLine, HeaderLines;
    var n := HeaderLines(s, 0, 0, max).at;
    var e := HeaderLinesPaired(s, HeaderLine(s, 0, true).at, 1, max, n);
    PairedOn(s, 0, RescanFrom(last), n);
    EmptyLineFound(s, RescanFrom(last), e, n, 0);
  }

  /** Behind an empty block the scan has seen one line end and goes on looking. */
  lemma EmptyBlockScan(s: seq<byte>, max: nat, last: nat)
    requires AtLineEnd(s, 0) && HeaderLines(s, 0, 0, max).Ok? && 0 < last < HeaderLines(s, 0, 0, max).at
    ensures EmptyLine(s, RescanFrom(last), 0) == EmptyLine(s, HeaderLines(s, 0, 0, max).at, 1)
  {
    assert RescanFrom(last) == 0;
  }

  /** A header block parsed on its own: the incremental call succeeds, and then with the result of a fresh parse,
      if and only if the fresh parse does and the block is not empty, or is but the scan, with one line end seen,
      still finds what it looks for behind it. */
  lemma IncrementalHeaders(s: seq<byte>, max: nat, last: nat)
    requires last <= |s| && HeaderLines(s[..last], 0, 0, max) == Partial
    ensures var again, now := ParseHeadersAgain(s, max, last), HeaderLines(s, 0, 0, max);
            && (again.Ok? ==> again == now)
            && (again.Ok? <==> now.Ok? && (last == 0 || !AtLineEnd(s, 0) || EmptyLine(s, now.at, 1).Ok?))
  {
    var now := HeaderLines(s, 0, 0, max);
    if last != 0 && now.Ok? {
      BlockGoesOn(s, max, last);
      if AtLineEnd(s, 0) { EmptyBlockScan(s, max, last); } else { BlockFound(s, max, last); }
    }
    hide HeaderLines, EmptyLine;
  }

  /** A block that starts with a line end and is still undecided is a CR alone. */
  lemma StartsUndecided(s: seq<byte>, max: nat, last: nat)
    requires HeaderLines(s, 0, 0, max).Partial? && AtLineEnd(s, 0) && last <= |s|
    ensures EmptyLine(s, RescanFrom(last), 0).Partial?
  {
    assert |s| == 1 && RescanFrom(last) == 0;
  }

  /** What it refuses is no header block, however it goes on, unless it was a whole one already. */
  lemma RefusedBlockStays(s: seq<byte>, more: seq<byte>, max: nat, last: nat)
    requires last <= |s| && HeaderLines(s[..last], 0, 0, max) == Partial
    requires ParseHeadersAgain(s, max, last).Bad? && !HeaderLines(s, 0, 0, max).Ok?
    ensures !HeaderLines(s + more, 0, 0, max).Ok?
  {
    hide HeaderLines, EmptyLine;
    var t := s + more;
    assert t[..last] == s[..last] && Agree(s, t, |s|);
    HeaderLinesRepeat(s, t, |s|, 0, 0, max);
    if last != 0 && HeaderLines(s, 0, 0, max).Partial? {
      ScanStays(s, more, RescanFrom(last), 0);
      if AtLineEnd(s, 0) { StartsUndecided(s, max, last); }
      if s != [] { assert t[0] == s[0]; }
      IncrementalHeaders(t, max, last);
    }
  }

  /** CR LF is a whole empty block, and accepted as one; called again after the CR alone, it is incomplete. */
  lemma EmptyBlockWaits(max: nat)
    ensures HeaderLines([CR], 0, 0, max) == Partial && HeaderLines([CR, LF], 0, 0, max) == Ok(2, [])
    ensures ParseHeadersAgain([CR, LF], max, 1) == Partial
  {
    var s: seq<byte> := [CR, LF];
    EmptyBlockScan(s, max, 1);
    assert EmptyLine(s, 2, 1).Partial?;
  }
}
