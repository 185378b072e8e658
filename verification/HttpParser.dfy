/**
 The parser as it runs: positions advanced by loops, the eight-fold unrolled scan, the
 header array filled in place.  Every method is proved to compute the function of module
 HttpGrammar that it implements.
 */
module HttpParser {
  import opened Bytes
  import opened HttpGrammar

  method ParseToken(buf: seq<byte>, start: nat, stop: byte) returns (r: Parsed<Slice>)
    ensures r == Token(buf, start, stop)
  {
    var at := start;
    if at >= |buf| { return Partial; }
    while true
      invariant start <= at < |buf|
      invariant ScanToken(buf, start, stop) == ScanToken(buf, at, stop)
      decreases |buf| - at
    {
      if buf[at] == stop {
        break;
      } else if !TokenChar(buf[at]) {
        return Bad;
      }
      at := at + 1;
      if at == |buf| { return Partial; }
    }
    r := Ok(at, Slice(start, at - start));
  }

  /** The path, up to the next space. */
  method AdvanceToken(buf: seq<byte>, start: nat) returns (r: Parsed<()>)
    ensures r == ScanPath(buf, start)
  {
    var at := start;
    if at >= |buf| { return Partial; }
    while true
      invariant start <= at < |buf|
      invariant ScanPath(buf, start) == ScanPath(buf, at)
      decreases |buf| - at
    {
      if buf[at] == SP {
        break;
      } else if !Printable(buf[at]) {
        if buf[at] < 32 || buf[at] == DEL { return Bad; }
      }
      at := at + 1;
      if at == |buf| { return Partial; }
    }
    r := Ok(at, ());
  }

  method PassSpaces(buf: seq<byte>, start: nat) returns (r: Parsed<()>)
    ensures r == SkipSpaces(buf, start)
  {
    var at := start;
    while true
      invariant start <= at
      invariant SkipSpaces(buf, start) == SkipSpaces(buf, at)
      decreases |buf| - at
    {
      if at >= |buf| { return Partial; }
      if buf[at] != SP { return Ok(at, ()); }
      at := at + 1;
    }
  }

  method PassBlanks(buf: seq<byte>, start: nat) returns (r: Parsed<()>)
    ensures r == SkipBlanks(buf, start)
  {
    var at := start;
    while true
      invariant start <= at
      invariant SkipBlanks(buf, start) == SkipBlanks(buf, at)
      decreases |buf| - at
    {
      if at >= |buf| { return Partial; }
      if !(buf[at] == SP || buf[at] == HT) { return Ok(at, ()); }
      at := at + 1;
    }
  }

  lemma {:induction false} PrintableGoesOn(buf: seq<byte>, i: nat, j: nat)
    requires i <= j <= |buf| && forall k | i <= k < j :: Printable(buf[k])
    ensures ScanLine(buf, i) == ScanLine(buf, j)
    decreases j - i
  {
    if i < j { PrintableGoesOn(buf, i + 1, j); }
  }

  lemma ScanLineAt(buf: seq<byte>, at: nat)
    requires at < |buf|
    ensures ScanLine(buf, at) == if EndsLineText(buf[at]) then Ok(at, ()) else ScanLine(buf, at + 1)
  {
  }

  /** Eight octets a round while at least eight are left.  A printable octet goes on; any other is looked
      at once more, and either stops the scan or is passed, starting a new round. */
  method ScanEight(buf: seq<byte>, start: nat) returns (at: nat, found: bool)
    requires start <= |buf|
    ensures start <= at <= |buf| && ScanLine(buf, start) == ScanLine(buf, at)
    ensures if found then ScanLine(buf, at) == Ok(at, ()) else |buf| - at < 8
  {
    hide ScanLine;
    at := start;
    while |buf| - at >= 8
      invariant start <= at <= |buf| && ScanLine(buf, start) == ScanLine(buf, at)
      decreases |buf| - at
    {
      ghost var from := at;
      label NonPrintable: {
        if !Printable(buf[at]) { break NonPrintable; }
        at := at + 1;
        if !Printable(buf[at]) { break NonPrintable; }
        at := at + 1;
        if !Printable(buf[at]) { break NonPrintable; }
        at := at + 1;
        if !Printable(buf[at]) { break NonPrintable; }
        at := at + 1;
        if !Printable(buf[at]) { break NonPrintable; }
        at := at + 1;
        if !Printable(buf[at]) { break NonPrintable; }
        at := at + 1;
        if !Printable(buf[at]) { break NonPrintable; }
        at := at + 1;
        if !Printable(buf[at]) { break NonPrintable; }
        at := at + 1;
        PrintableGoesOn(buf, from, at);
        continue;
      }
      PrintableGoesOn(buf, from, at);
      ScanLineAt(buf, at);
      if (buf[at] < 32 && buf[at] != HT) || buf[at] == DEL { return at, true; }
      at := at + 1;
    }
    found := false;
  }

  /** The simple octet loop that finishes what ScanEight leaves. */
  method ScanSimple(buf: seq<byte>, start: nat) returns (r: Parsed<()>)
    ensures r == ScanLine(buf, start)
  {
    var at := start;
    while true
      invariant start <= at
      invariant ScanLine(buf, start) == ScanLine(buf, at)
      decreases |buf| - at
    {
      if at >= |buf| { return Partial; }
      if !Printable(buf[at]) {
        if (buf[at] < 32 && buf[at] != HT) || buf[at] == DEL { return Ok(at, ()); }
      }
      at := at + 1;
    }
  }

  method GetTokenToEol(buf: seq<byte>, start: nat) returns (r: Parsed<Slice>)
    requires start <= |buf|
    ensures r == LineText(buf, start)
  {
    var at, found := ScanEight(buf, start);
    if !found {
      var rest := ScanSimple(buf, at);
      if !rest.Ok? { return rest.PropagateFailure(); }
      at := rest.at;
    }
    var stop := at;
    if buf[at] == CR {
      at := at + 1;
      if at == |buf| { return Partial; }
      if buf[at] != LF { return Bad; }
      at := at + 1;
    } else if buf[at] == LF {
      at := at + 1;
    } else {
      return Bad;
    }
    r := Ok(at, Slice(start, stop - start));
  }

  method TrimTrailing(buf: seq<byte>, x: Slice) returns (r: Slice)
    requires x.start + x.len <= |buf|
    ensures r == TrimEnd(buf, x)
  {
    r := x;
    while r.len != 0
      invariant r.start == x.start && r.len <= x.len && TrimEnd(buf, r) == TrimEnd(buf, x)
      decreases r.len
    {
      var c := buf[r.start + r.len - 1];
      if !(c == SP || c == HT) { break; }
      r := r.(len := r.len - 1);
    }
  }

  method ParseValue(buf: seq<byte>, start: nat) returns (r: Parsed<Slice>)
    requires start <= |buf|
    ensures r == HeaderValue(buf, start)
  {
    var text := GetTokenToEol(buf, start);
    if !text.Ok? { return text.PropagateFailure(); }
    var value := TrimTrailing(buf, text.value);
    r := Ok(text.at, value);
  }

  method ParseName(buf: seq<byte>, start: nat) returns (r: Parsed<Slice>)
    ensures r == HeaderName(buf, start)
  {
    var name := ParseToken(buf, start, COLON);
    if !name.Ok? { return name.PropagateFailure(); }
    if name.value.len == 0 { return Bad; }
    var at := PassBlanks(buf, name.at + 1);
    if !at.Ok? { return at.PropagateFailure(); }
    r := Ok(at.at, name.value);
  }

  method ParseHeaderLine(buf: seq<byte>, start: nat, first: bool) returns (r: Parsed<Header>)
    requires start < |buf|
    ensures r == HeaderLine(buf, start, first)
  {
    hide ScanToken, SkipBlanks, LineText, HeaderInside;
    var at, h := start, Header(false, NO_NAME, NO_NAME);
    if !(!first && (buf[at] == SP || buf[at] == HT)) {
      var name := ParseName(buf, at);
      if !name.Ok? { return name.PropagateFailure(); }
      h := Header(true, name.value, NO_NAME);
      at := name.at;
    }
    var value := ParseValue(buf, at);
    if !value.Ok? { return value.PropagateFailure(); }
    r := Ok(value.at, h.(value := value.value));
  }

  /** CR LF or LF; anything else is malformed. */
  method ExpectLineEnd(buf: seq<byte>, start: nat) returns (r: Parsed<()>)
    requires start < |buf|
    ensures r == LineEnd(buf, start)
  {
    if buf[start] == CR {
      if start + 1 == |buf| { return Partial; }
      if buf[start + 1] != LF { return Bad; }
      r := Ok(start + 2, ());
    } else if buf[start] == LF {
      r := Ok(start + 1, ());
    } else {
      r := Bad;
    }
  }

  /** The headers already stored, put before those still to be parsed. */
  ghost function Before(done: seq<Header>, r: Parsed<seq<Header>>): Parsed<seq<Header>> {
    if r.Ok? then Ok(r.at, done + r.value) else r
  }

  lemma BeforeStep(buf: seq<byte>, at: nat, n: nat, max: nat, done: seq<Header>)
    requires at < |buf| && !AtLineEnd(buf, at) && n != max && HeaderLine(buf, at, n == 0).Ok?
    ensures var h := HeaderLine(buf, at, n == 0);
            Before(done, HeaderLines(buf, at, n, max)) == Before(done + [h.value], HeaderLines(buf, h.at, n + 1, max))
  {
    hide HeaderLine;
    var h := HeaderLine(buf, at, n == 0);
    var r := HeaderLines(buf, h.at, n + 1, max);
    if r.Ok? {
      assert done + ([h.value] + r.value) == (done + [h.value]) + r.value;
    }
  }

  /** The header array filled from the front; the value returned is the number of entries used. */
  method ParseHeaders(buf: seq<byte>, start: nat, headers: array<Header>, max: nat) returns (r: Parsed<nat>)
    requires max <= headers.Length
    modifies headers
    ensures match HeaderLines(buf, start, 0, max)
            case Ok(k, hs) => r == Ok(k, |hs|) && |hs| <= max && headers[..|hs|] == hs
            case Bad => r == Bad
            case Partial => r == Partial
  {
    hide HeaderLine, HeaderInside;
    var at, n := start, 0;
    if HeaderLines(buf, start, 0, max).Ok? {
      assert headers[..0] + HeaderLines(buf, start, 0, max).value == HeaderLines(buf, start, 0, max).value;
    }
    while true
      invariant start <= at && n <= max
      invariant HeaderLines(buf, start, 0, max) == Before(headers[..n], HeaderLines(buf, at, n, max))
      decreases |buf| - at
    {
      if at >= |buf| { return Partial; }
      if buf[at] == CR || buf[at] == LF {
        var end := ExpectLineEnd(buf, at);
        if !end.Ok? { return end.PropagateFailure(); }
        assert headers[..n] + [] == headers[..n];
        return Ok(end.at, n);
      }
      if n == max { return Bad; }
      var line := ParseHeaderLine(buf, at, n == 0);
      if !line.Ok? { return line.PropagateFailure(); }
      ghost var done := headers[..n];
      BeforeStep(buf, at, n, max, done);
      headers[n] := line.value;
      assert headers[..n + 1] == done + [line.value];
      at, n := line.at, n + 1;
    }
  }

  method ParseVersion(buf: seq<byte>, start: nat) returns (r: Parsed<nat>)
    ensures r == Version(buf, start)
  {
    if |buf| < start + 9 { return Partial; }
    var at := start;
    ghost var got := buf[start..start + 7];
    while at < start + 7
      invariant start <= at <= start + 7
      invariant forall k | start <= k < at :: buf[k] == HTTP_1[k - start]
    {
      if buf[at] != HTTP_1[at - start] {
        assert got[at - start] == buf[at];
        return Bad;
      }
      at := at + 1;
    }
    assert got == HTTP_1;
    if buf[at] < '0' as int || '9' as int < buf[at] { return Bad; }
    r := Ok(at + 1, buf[at] - '0' as int);
  }

  method ParseTarget(buf: seq<byte>, start: nat) returns (r: Parsed<Slice>)
    ensures r == Target(buf, start)
  {
    var from := PassSpaces(buf, start);
    if !from.Ok? { return from.PropagateFailure(); }
    var to := AdvanceToken(buf, from.at);
    if !to.Ok? { return to.PropagateFailure(); }
    var next := PassSpaces(buf, to.at + 1);
    if !next.Ok? { return next.PropagateFailure(); }
    r := Ok(next.at, Slice(from.at, to.at - from.at));
  }

  method ParseRequestLine(buf: seq<byte>, start: nat) returns (r: Parsed<HttpGrammar.Request>)
    ensures r == RequestLine(buf, start)
  {
    hide ScanToken, Target, Version;
    var verb := ParseToken(buf, start, SP);
    if !verb.Ok? { return verb.PropagateFailure(); }
    var path := ParseTarget(buf, verb.at + 1);
    if !path.Ok? { return path.PropagateFailure(); }
    if verb.value.len == 0 || path.value.len == 0 { return Bad; }
    var version := ParseVersion(buf, path.at);
    if !version.Ok? { return version.PropagateFailure(); }
    var end := ExpectLineEnd(buf, version.at);
    if !end.Ok? { return end.PropagateFailure(); }
    r := Ok(end.at, Request(verb.value, path.value, version.value, []));
  }

  /** The quick check for an empty line, from three octets before what was seen last time. */
  method IsComplete(buf: seq<byte>, last: nat) returns (r: Parsed<()>)
    ensures r == EmptyLine(buf, RescanFrom(last), 0)
  {
    var at := if last < 3 then 0 else last - 3;
    var count := 0;
    while true
      invariant count < 2 && EmptyLine(buf, RescanFrom(last), 0) == EmptyLine(buf, at, count)
      decreases |buf| - at
    {
      if at >= |buf| { return Partial; }
      if buf[at] == CR || buf[at] == LF {
        var end := ExpectLineEnd(buf, at);
        if !end.Ok? { return end.PropagateFailure(); }
        at, count := end.at, count + 1;
      } else {
        at, count := at + 1, 0;
      }
      if count == 2 { return Ok(at, ()); }
    }
  }

  /** What the caller gets: the request with its headers in the caller's array. */
  ghost predicate Delivers(r: Parsed<HttpGrammar.Request>, spec: Parsed<HttpGrammar.Request>, headers: array<Header>, n: nat)
    reads headers
  {
    match spec
    case Ok(k, q) => r == Ok(k, q.(headers := [])) && n == |q.headers| <= headers.Length && headers[..n] == q.headers
    case Bad => r == Bad
    case Partial => r == Partial
  }

  method ParseRequest(buf: seq<byte>, headers: array<Header>, max: nat, last: nat)
    returns (r: Parsed<HttpGrammar.Request>, n: nat)
    requires max <= headers.Length
    modifies headers
    ensures Delivers(r, ParseRequestAgain(buf, max, last), headers, n)
  {
    hide RequestLine, HeaderLines, EmptyLine;
    n := 0;
    if last != 0 {
      var complete := IsComplete(buf, last);
      if !complete.Ok? { return complete.PropagateFailure(), n; }
    }
    if |buf| == 0 { return Partial, n; }
    var at := 0;
    if buf[0] == CR || buf[0] == LF {
      var end := ExpectLineEnd(buf, 0);
      if !end.Ok? { return end.PropagateFailure(), n; }
      at := end.at;
    }
    r := ParseRequestLine(buf, at);
    if !r.Ok? { return; }
    var hs := ParseHeaders(buf, r.at, headers, max);
    if !hs.Ok? { return hs.PropagateFailure(), n; }
    n := hs.value;
    r := Ok(hs.at, r.value);
  }

  method ParseStatus(buf: seq<byte>, start: nat) returns (r: Parsed<nat>)
    ensures r == Status(buf, start)
  {
    if |buf| < start + 4 { return Partial; }
    if !IsDigit(buf[start]) { return Bad; }
    var value: int := 100 * (buf[start] - '0' as int);
    if !IsDigit(buf[start + 1]) { return Bad; }
    value := value + 10 * (buf[start + 1] - '0' as int);
    if !IsDigit(buf[start + 2]) { return Bad; }
    value := value + (buf[start + 2] - '0' as int);
    r := Ok(start + 3, value);
  }

  method ParseReason(buf: seq<byte>, start: nat) returns (r: Parsed<Slice>)
    requires start <= |buf|
    ensures r == Reason(buf, start)
  {
    hide ScanLine;
    var text := GetTokenToEol(buf, start);
    if !text.Ok? { return text; }
    var msg := text.value;
    if msg.len == 0 {
    } else if buf[msg.start] == SP {
      while msg.len > 0 && buf[msg.start] == SP
        invariant msg.start + msg.len <= |buf| && TrimSpaces(buf, msg) == TrimSpaces(buf, text.value)
        decreases msg.len
      {
        msg := Slice(msg.start + 1, msg.len - 1);
      }
    } else {
      return Bad;
    }
    r := Ok(text.at, msg);
  }

  method ParseStatusLine(buf: seq<byte>) returns (r: Parsed<HttpGrammar.Response>)
    ensures r == StatusLine(buf)
  {
    hide Version, Reason, Status;
    var version := ParseVersion(buf, 0);
    if !version.Ok? { return version.PropagateFailure(); }
    if buf[version.at] != SP { return Bad; }
    var at := PassSpaces(buf, version.at + 1);
    if !at.Ok? { return at.PropagateFailure(); }
    var status := ParseStatus(buf, at.at);
    if !status.Ok? { return status.PropagateFailure(); }
    var msg := ParseReason(buf, status.at);
    if !msg.Ok? { return msg.PropagateFailure(); }
    r := Ok(msg.at, Response(version.value, status.value, msg.value, []));
  }

  ghost predicate DeliversResponse(r: Parsed<HttpGrammar.Response>, spec: Parsed<HttpGrammar.Response>, headers: array<Header>, n: nat)
    reads headers
  {
    match spec
    case Ok(k, q) => r == Ok(k, q.(headers := [])) && n == |q.headers| <= headers.Length && headers[..n] == q.headers
    case Bad => r == Bad
    case Partial => r == Partial
  }

  method ParseResponse(buf: seq<byte>, headers: array<Header>, max: nat, last: nat)
    returns (r: Parsed<HttpGrammar.Response>, n: nat)
    requires max <= headers.Length
    modifies headers
    ensures DeliversResponse(r, ParseResponseAgain(buf, max, last), headers, n)
  {
    hide StatusLine, HeaderLines, EmptyLine;
    n := 0;
    if last != 0 {
      var complete := IsComplete(buf, last);
      if !complete.Ok? { return complete.PropagateFailure(), n; }
    }
    r := ParseStatusLine(buf);
    if !r.Ok? { return; }
    var hs := ParseHeaders(buf, r.at, headers, max);
    if !hs.Ok? { return hs.PropagateFailure(), n; }
    n := hs.value;
    r := Ok(hs.at, r.value);
  }

  /** A header block on its own. */
  method ParseHeaderBlock(buf: seq<byte>, headers: array<Header>, max: nat, last: nat) returns (r: Parsed<nat>)
    requires max <= headers.Length
    modifies headers
    ensures match ParseHeadersAgain(buf, max, last)
            case Ok(k, hs) => r == Ok(k, |hs|) && |hs| <= max && headers[..|hs|] == hs
            case Bad => r == Bad
            case Partial => r == Partial
  {
    hide HeaderLines, EmptyLine;
    if last != 0 {
      var complete := IsComplete(buf, last);
      if !complete.Ok? { return complete.PropagateFailure(); }
    }
    r := ParseHeaders(buf, 0, headers, max);
  }
}
