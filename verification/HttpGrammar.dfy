/**
 The message parser as functions of the octets: each sub-parser returns a value and the
 position after it, or one of the two negative verdicts.  Module HttpParser holds the
 loops that compute these functions.
 */
module HttpGrammar {
  import opened Bytes

  /** Ok, -1 (malformed) or -2 (incomplete). */
  datatype Parsed<+T> = Ok(at: nat, value: T) | Bad | Partial {
    predicate IsFailure() { !Ok? }
    function PropagateFailure<U>(): Parsed<U>
      requires IsFailure()
    {
      if Bad? then Bad else Partial
    }
    function Extract(): (nat, T)
      requires !IsFailure()
    {
      (at, value)
    }
  }

  /** A pointer into the buffer and a length. */
  datatype Slice = Slice(start: nat, len: nat)

  /** A continuation line has no name. */
  datatype Header = Header(hasName: bool, name: Slice, value: Slice)

  const NO_NAME := Slice(0, 0)

  /** The octets behind a slice. */
  function Text(s: seq<byte>, x: Slice): seq<byte>
    requires x.start + x.len <= |s|
  {
    s[x.start..x.start + x.len]
  }

  predicate Inside(x: Slice, lo: nat, hi: nat) {
    lo <= x.start && x.start + x.len <= hi
  }

  predicate HeaderInside(h: Header, lo: nat, hi: nat) {
    && (if h.hasName then Inside(h.name, lo, hi) && h.name.len > 0 else h.name == NO_NAME)
    && Inside(h.value, lo, hi)
  }

  predicate Printable(b: byte) { 32 <= b < 127 }

  predicate IsAlphaNum(b: byte) {
    || '0' as int <= b <= '9' as int
    || 'A' as int <= b <= 'Z' as int
    || 'a' as int <= b <= 'z' as int
  }

  /** The characters of section 3.2.6 of RFC 7230: letters, digits and !#$%&'*+-.^_`|~ */
  predicate TokenChar(b: byte) {
    || IsAlphaNum(b)
    || b == 0x21 || (0x23 <= b <= 0x27) || b == 0x2a || b == 0x2b || b == 0x2d || b == 0x2e
    || (0x5e <= b <= 0x60) || b == 0x7c || b == 0x7e
  }

  predicate Control(b: byte) { b < 32 || b == DEL }

  /** What ends the rest of a line: any control character but a tab. */
  predicate EndsLineText(b: byte) { Control(b) && b != HT }

  predicate Blank(b: byte) { b == SP || b == HT }

  /** No CR from i to j. */
  ghost predicate NoCR(s: seq<byte>, i: nat, j: nat) {
    j <= |s| && forall k | i <= k < j :: s[k] != CR
  }

  /** Every CR of s[i..n] is followed by an LF of s[i..n]. */
  ghost predicate PairedCR(s: seq<byte>, i: nat, n: nat) {
    n <= |s| && forall k | i <= k < n && s[k] == CR :: k + 1 < n && s[k + 1] == LF
  }

  // ----- Sub-parsers -----

  function ScanToken(s: seq<byte>, i: nat, stop: byte): (r: Parsed<()>)
    ensures r.Ok? ==> i <= r.at < |s| && s[r.at] == stop
    ensures r.Ok? && stop != CR ==> NoCR(s, i, r.at)
    decreases |s| - i
  {
    if i >= |s| then Partial
    else if s[i] == stop then Ok(i, ())
    else if !TokenChar(s[i]) then Bad
    else ScanToken(s, i + 1, stop)
  }

  function Token(s: seq<byte>, i: nat, stop: byte): (r: Parsed<Slice>)
    ensures r.Ok? ==> i <= r.at < |s| && Inside(r.value, i, r.at)
  {
    var (j, _) :- ScanToken(s, i, stop);
    Ok(j, Slice(i, j - i))
  }

  function ScanPath(s: seq<byte>, i: nat): (r: Parsed<()>)
    ensures r.Ok? ==> i <= r.at < |s| && s[r.at] == SP
    ensures r.Ok? ==> NoCR(s, i, r.at)
    decreases |s| - i
  {
    if i >= |s| then Partial
    else if s[i] == SP then Ok(i, ())
    else if Control(s[i]) then Bad
    else ScanPath(s, i + 1)
  }

  function SkipSpaces(s: seq<byte>, i: nat): (r: Parsed<()>)
    ensures r.Ok? ==> i <= r.at < |s| && s[r.at] != SP
    ensures r.Ok? ==> NoCR(s, i, r.at)
    decreases |s| - i
  {
    if i >= |s| then Partial else if s[i] == SP then SkipSpaces(s, i + 1) else Ok(i, ())
  }

  function SkipBlanks(s: seq<byte>, i: nat): (r: Parsed<()>)
    ensures r.Ok? ==> i <= r.at < |s| && !Blank(s[r.at])
    ensures r.Ok? ==> NoCR(s, i, r.at)
    decreases |s| - i
  {
    if i >= |s| then Partial else if Blank(s[i]) then SkipBlanks(s, i + 1) else Ok(i, ())
  }

  function ScanLine(s: seq<byte>, i: nat): (r: Parsed<()>)
    ensures r.Ok? ==> i <= r.at < |s| && EndsLineText(s[r.at])
    ensures r.Ok? ==> NoCR(s, i, r.at)
    decreases |s| - i
  {
    if i >= |s| then Partial else if EndsLineText(s[i]) then Ok(i, ()) else ScanLine(s, i + 1)
  }

  predicate AtLineEnd(s: seq<byte>, i: nat) {
    i < |s| && (s[i] == CR || s[i] == LF)
  }

  /** CR LF, or LF alone. */
  function LineEnd(s: seq<byte>, i: nat): (r: Parsed<()>)
    ensures r.Ok? ==> i < r.at <= |s| && s[r.at - 1] == LF
  {
    if i >= |s| then Partial
    else if s[i] == CR then
      if i + 1 >= |s| then Partial else if s[i + 1] != LF then Bad else Ok(i + 2, ())
    else if s[i] == LF then Ok(i + 1, ())
    else Bad
  }

  function LineText(s: seq<byte>, i: nat): (r: Parsed<Slice>)
    ensures r.Ok? ==> i < r.at <= |s| && Inside(r.value, i, r.at - 1) && r.value.start == i && s[r.at - 1] == LF
    ensures r.Ok? ==> PairedCR(s, i, r.at)
  {
    var (j, _) :- ScanLine(s, i);
    var (k, _) :- LineEnd(s, j);
    Ok(k, Slice(i, j - i))
  }

  /** Drop trailing blanks. */
  function TrimEnd(s: seq<byte>, x: Slice): (r: Slice)
    requires x.start + x.len <= |s|
    ensures r.start == x.start && r.len <= x.len
    ensures r.len == 0 || !Blank(s[r.start + r.len - 1])
    decreases x.len
  {
    if x.len > 0 && Blank(s[x.start + x.len - 1]) then TrimEnd(s, x.(len := x.len - 1)) else x
  }

  /** Name and colon, then blanks; the returned position is that of the value. */
  function HeaderName(s: seq<byte>, i: nat): (r: Parsed<Slice>)
    ensures r.Ok? ==> i < r.at < |s| && Inside(r.value, i, r.at) && r.value.len > 0 && NoCR(s, i, r.at)
  {
    var (j, name) :- Token(s, i, COLON);
    if name.len == 0 then Bad
    else
      var (k, _) :- SkipBlanks(s, j + 1);
      Ok(k, name)
  }

  function HeaderValue(s: seq<byte>, i: nat): (r: Parsed<Slice>)
    ensures r.Ok? ==> i < r.at <= |s| && Inside(r.value, i, r.at) && s[r.at - 1] == LF
    ensures r.Ok? ==> PairedCR(s, i, r.at)
  {
    var (j, text) :- LineText(s, i);
    Ok(j, TrimEnd(s, text))
  }

  /** One header line; a line that starts with a blank, other than the first, continues the one before. */
  function HeaderLine(s: seq<byte>, i: nat, first: bool): (r: Parsed<Header>)
    requires i < |s|
    ensures r.Ok? ==> i < r.at <= |s| && HeaderInside(r.value, i, r.at) && s[r.at - 1] == LF
    ensures r.Ok? ==> PairedCR(s, i, r.at)
  {
    if !first && Blank(s[i]) then
      var (j, v) :- HeaderValue(s, i);
      Ok(j, Header(false, NO_NAME, v))
    else
      var (j, name) :- HeaderName(s, i);
      var (k, v) :- HeaderValue(s, j);
      Ok(k, Header(true, name, v))
  }

  /** The header lines from the n-th on, through the empty line that ends them. */
  function HeaderLines(s: seq<byte>, i: nat, n: nat, max: nat): (r: Parsed<seq<Header>>)
    ensures r.Ok? ==> i < r.at <= |s| && s[r.at - 1] == LF
    ensures r.Ok? && n <= max ==> n + |r.value| <= max
    decreases |s| - i
  {
    if AtLineEnd(s, i) then
      var (j, _) :- LineEnd(s, i);
      Ok(j, [])
    else if i >= |s| then Partial
    else if n == max then Bad
    else
      var (j, h) :- HeaderLine(s, i, n == 0);
      var (k, hs) :- HeaderLines(s, j, n + 1, max);
      Ok(k, [h] + hs)
  }

  predicate IsDigit(b: byte) { '0' as int <= b <= '9' as int }

  const HTTP_1: seq<byte> := [0x48, 0x54, 0x54, 0x50, 0x2f, 0x31, 0x2e]

  /** HTTP/1.x; nothing is decided before nine octets are there. */
  function Version(s: seq<byte>, i: nat): (r: Parsed<nat>)
    ensures r.Ok? ==> r.at == i + 8 < |s| && r.value < 10 && NoCR(s, i, r.at)
  {
    if |s| < i + 9 then Partial
    else if s[i..i + 7] != HTTP_1 || !IsDigit(s[i + 7]) then Bad
    else
      assert forall k | i <= k < i + 7 :: s[k] == s[i..i + 7][k - i];
      Ok(i + 8, s[i + 7] - '0' as int)
  }

  // ----- Requests -----

  datatype Request = Request(verb: Slice, path: Slice, minor: nat, headers: seq<Header>)

  /** A client may send an empty line before the request. */
  function LeadingLine(s: seq<byte>): (r: Parsed<()>)
    ensures r.Ok? ==> r.at <= |s|
  {
    if s == [] then Partial else if AtLineEnd(s, 0) then LineEnd(s, 0) else Ok(0, ())
  }

  /** The path, with the spaces before and after it. */
  function Target(s: seq<byte>, i: nat): (r: Parsed<Slice>)
    ensures r.Ok? ==> i < r.at < |s| && Inside(r.value, i, r.at) && NoCR(s, i, r.at)
  {
    var (k, _) :- SkipSpaces(s, i);
    var (m, _) :- ScanPath(s, k);
    var (p, _) :- SkipSpaces(s, m + 1);
    Ok(p, Slice(k, m - k))
  }

  function VersionLine(s: seq<byte>, i: nat): (r: Parsed<nat>)
    ensures r.Ok? ==> i < r.at <= |s| && s[r.at - 1] == LF
    ensures r.Ok? ==> PairedCR(s, i, r.at)
  {
    var (q, minor) :- Version(s, i);
    var (e, _) :- LineEnd(s, q);
    Ok(e, minor)
  }

  /** Verb, path and version, up to the end of the request line. */
  function RequestLine(s: seq<byte>, i: nat): (r: Parsed<Request>)
    ensures r.Ok? ==> i < r.at <= |s| && s[r.at - 1] == LF && r.value.headers == []
    ensures r.Ok? ==> Inside(r.value.verb, i, r.at) && Inside(r.value.path, i, r.at)
    ensures r.Ok? ==> r.value.verb.len > 0 && r.value.path.len > 0
    ensures r.Ok? ==> PairedCR(s, i, r.at)
  {
    var (j, verb) :- Token(s, i, SP);
    var (p, path) :- Target(s, j + 1);
    if verb.len == 0 || path.len == 0 then Bad
    else
      var (e, minor) :- VersionLine(s, p);
      Ok(e, Request(verb, path, minor, []))
  }

  function ParseRequest(s: seq<byte>, max: nat): (r: Parsed<Request>)
    ensures r.Ok? ==> r.at <= |s| && |r.value.headers| <= max
    ensures r.Ok? ==> Inside(r.value.verb, 0, r.at) && Inside(r.value.path, 0, r.at)
  {
    var (i, _) :- LeadingLine(s);
    var (j, line) :- RequestLine(s, i);
    var (k, hs) :- HeaderLines(s, j, 0, max);
    Ok(k, line.(headers := hs))
  }

  // ----- Responses -----

  datatype Response = Response(minor: nat, status: nat, msg: Slice, headers: seq<Header>)

  function Status(s: seq<byte>, i: nat): (r: Parsed<nat>)
    ensures r.Ok? ==> r.at == i + 3 < |s| && r.value < 1000 && NoCR(s, i, r.at)
  {
    if |s| < i + 4 then Partial
    else if !(IsDigit(s[i]) && IsDigit(s[i + 1]) && IsDigit(s[i + 2])) then Bad
    else Ok(i + 3, 100 * (s[i] - '0' as int) + 10 * (s[i + 1] - '0' as int) + (s[i + 2] - '0' as int))
  }

  /** Drop leading spaces. */
  function TrimSpaces(s: seq<byte>, x: Slice): (r: Slice)
    requires x.start + x.len <= |s|
    ensures x.start <= r.start && r.start + r.len == x.start + x.len
    ensures r.len == 0 || s[r.start] != SP
    decreases x.len
  {
    if x.len > 0 && s[x.start] == SP then TrimSpaces(s, Slice(x.start + 1, x.len - 1)) else x
  }

  /** The reason phrase, set off from the status by at least one space unless it is empty. */
  function Reason(s: seq<byte>, i: nat): (r: Parsed<Slice>)
    ensures r.Ok? ==> i < r.at <= |s| && Inside(r.value, i, r.at) && s[r.at - 1] == LF
    ensures r.Ok? ==> PairedCR(s, i, r.at)
  {
    var (j, text) :- LineText(s, i);
    if text.len == 0 || s[text.start] == SP then Ok(j, TrimSpaces(s, text)) else Bad
  }

  /** At least one space, then the code. */
  function StatusCode(s: seq<byte>, i: nat): (r: Parsed<nat>)
    requires i < |s|
    ensures r.Ok? ==> i < r.at < |s| && r.value < 1000
    ensures r.Ok? ==> NoCR(s, i, r.at)
  {
    if s[i] != SP then Bad
    else
      var (j, _) :- SkipSpaces(s, i + 1);
      Status(s, j)
  }

  function StatusLine(s: seq<byte>): (r: Parsed<Response>)
    ensures r.Ok? ==> 0 < r.at <= |s| && s[r.at - 1] == LF && r.value.headers == []
    ensures r.Ok? ==> Inside(r.value.msg, 0, r.at)
    ensures r.Ok? ==> PairedCR(s, 0, r.at)
  {
    var (i, minor) :- Version(s, 0);
    var (k, status) :- StatusCode(s, i);
    var (e, msg) :- Reason(s, k);
    Ok(e, Response(minor, status, msg, []))
  }

  function ParseResponse(s: seq<byte>, max: nat): (r: Parsed<Response>)
    ensures r.Ok? ==> r.at <= |s| && |r.value.headers| <= max && Inside(r.value.msg, 0, r.at)
  {
    var (j, line) :- StatusLine(s);
    var (k, hs) :- HeaderLines(s, j, 0, max);
    Ok(k, line.(headers := hs))
  }

  // ----- The quick check for an empty line -----

  /** Scan for two line ends in a row; `count` of them were just seen. */
  function EmptyLine(s: seq<byte>, i: nat, count: nat): (r: Parsed<()>)
    ensures r.Ok? ==> r.at <= |s|
    decreases |s| - i
  {
    if i >= |s| then Partial
    else if AtLineEnd(s, i) then
      var (j, _) :- LineEnd(s, i);
      if count + 1 == 2 then Ok(j, ()) else EmptyLine(s, j, count + 1)
    else EmptyLine(s, i + 1, 0)
  }

  function RescanFrom(last: nat): nat {
    if last < 3 then 0 else last - 3
  }

  /** The call with `last` octets already seen by the previous call; 0 means a fresh parse. */
  function ParseRequestAgain(s: seq<byte>, max: nat, last: nat): (r: Parsed<Request>) {
    if last == 0 then ParseRequest(s, max)
    else
      var (_, _) :- EmptyLine(s, RescanFrom(last), 0);
      ParseRequest(s, max)
  }

  function ParseResponseAgain(s: seq<byte>, max: nat, last: nat): (r: Parsed<Response>) {
    if last == 0 then ParseResponse(s, max)
    else
      var (_, _) :- EmptyLine(s, RescanFrom(last), 0);
      ParseResponse(s, max)
  }

  /** A header block on its own. */
  function ParseHeadersAgain(s: seq<byte>, max: nat, last: nat): (r: Parsed<seq<Header>>) {
    if last == 0 then HeaderLines(s, 0, 0, max)
    else
      var (_, _) :- EmptyLine(s, RescanFrom(last), 0);
      HeaderLines(s, 0, 0, max)
  }
}
