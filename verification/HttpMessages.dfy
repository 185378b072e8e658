/** Requests and responses as printed from their parts: what is parsed is exactly what can be printed so. */
module HttpMessages {
  import opened Bytes
  import opened HttpGrammar
  import opened HttpSpelling

  // ----- Start lines -----

  function Spaces(n: nat): seq<byte> {
    seq(n, _ => SP)
  }

  function Version1(minor: nat): seq<byte>
    requires minor < 10
  {
    Ascii("HTTP/1.") + ['0' as int + minor]
  }

  /** A request line; the words may stand any number of spaces apart. */
  datatype Start = Start(verb: seq<byte>, gap: nat, path: seq<byte>, gap': nat, minor: nat, lf: bool)

  predicate StartOk(r: Start) {
    && r.verb != [] && AllName(r.verb) && r.path != [] && AllPath(r.path) && r.gap > 0 && r.gap' > 0 && r.minor < 10
  }

  function WriteStart(r: Start): seq<byte>
    requires r.minor < 10
  {
    r.verb + (Spaces(r.gap) + (r.path + (Spaces(r.gap') + (Version1(r.minor) + Eol(r.lf)))))
  }

  lemma SpacesSkipped(s: seq<byte>, i: nat, n: nat, rest: seq<byte>)
    requires Holds(s, i, Spaces(n) + rest) && rest != [] && rest[0] != SP
    ensures Holds(s, i + n, rest) && (n > 0 ==> s[i] == SP)
    ensures SkipSpaces(s, i) == Ok(i + n, ()) && (n > 0 ==> SkipSpaces(s, i + 1) == Ok(i + n, ()))
  {
    HoldsSplit(s, i, Spaces(n), rest);
    HoldsAll(s, i, Spaces(n));
    HoldsAt(s, i + n, rest, 0);
    hide Holds;
    SpacesFound(s, i, i + n);
    if n > 0 { SpacesFound(s, i + 1, i + n); }
  }

  lemma VersionFound(s: seq<byte>, i: nat, minor: nat, lf: bool)
    requires minor < 10 && Holds(s, i, Version1(minor) + Eol(lf))
    ensures VersionLine(s, i) == Ok(i + 8 + |Eol(lf)|, minor)
  {
    HoldsSplit(s, i, Version1(minor), Eol(lf));
    HoldsSplit(s, i, Ascii("HTTP/1."), ['0' as int + minor]);
    HoldsAt(s, i + 7, ['0' as int + minor], 0);
    assert s[i..i + 7] == Ascii("HTTP/1.") == HTTP_1;
    EolFound(s, i + 8, lf);
    hide LineEnd, Eol;
  }

  lemma VersionIs(s: seq<byte>, i: nat) returns (lf: bool)
    requires VersionLine(s, i).Ok?
    ensures var r := VersionLine(s, i);
            r.value < 10 && Holds(s, i, Version1(r.value) + Eol(lf)) && r.at == i + 8 + |Eol(lf)|
  {
    assert HTTP_1 == Ascii("HTTP/1.");
    lf := s[i + 8] == LF;
    EolIs(s, i + 8);
    hide LineEnd;
    var minor := VersionLine(s, i).value;
    assert s[i..i + 8] == Version1(minor);
    HoldsBoth(s, i, Version1(minor), Eol(lf));
  }

  lemma VerbScanned(s: seq<byte>, i: nat, verb: seq<byte>)
    requires Holds(s, i, verb) && AllName(verb) && i + |verb| < |s| && s[i + |verb|] == SP
    ensures ScanToken(s, i, SP) == Ok(i + |verb|, ())
  {
    HoldsAll(s, i, verb);
    forall k | i <= k < i + |verb| ensures TokenChar(s[k]) && s[k] != SP {
      NotABlank(verb[k - i]);
      NameCharIsToken(s[k]);
    }
    hide Holds, TokenChar, NameChar, ScanToken;
    TokenFound(s, i, i + |verb|, SP);
  }

  lemma PathScanned(s: seq<byte>, i: nat, path: seq<byte>)
    requires Holds(s, i, path) && AllPath(path) && i + |path| < |s| && s[i + |path|] == SP
    ensures ScanPath(s, i) == Ok(i + |path|, ())
  {
    HoldsAll(s, i, path);
    hide Holds, ScanPath;
    PathFound(s, i, i + |path|);
  }

  /** A request line in terms of its scans. */
  lemma StartParts(s: seq<byte>, i: nat)
    ensures var r := RequestLine(s, i);
            var j := ScanToken(s, i, SP);
            && (r.Ok? ==> j.Ok? && j.at > i && Target(s, j.at + 1).Ok?)
            && (j.Ok? && j.at > i && Target(s, j.at + 1).Ok? ==>
                  var t := Target(s, j.at + 1);
                  var v := VersionLine(s, t.at);
                  && (r.Ok? <==> t.value.len > 0 && v.Ok?)
                  && (r.Ok? ==> r == Ok(v.at, Request(Slice(i, j.at - i), t.value, v.value, []))))
  {
    hide ScanToken, Target, VersionLine;
  }

  lemma TargetParts(s: seq<byte>, i: nat)
    ensures var r := Target(s, i);
            var k := SkipSpaces(s, i);
            && (r.Ok? ==> k.Ok? && ScanPath(s, k.at).Ok?)
            && (k.Ok? && ScanPath(s, k.at).Ok? ==>
                  var m := ScanPath(s, k.at).at;
                  var p := SkipSpaces(s, m + 1);
                  (r.Ok? <==> p.Ok?) && (r.Ok? ==> r == Ok(p.at, Slice(k.at, m - k.at))))
  {
    hide SkipSpaces, ScanPath;
  }

  /** The spaces, the path and the spaces behind it. */
  lemma TargetFound(s: seq<byte>, j: nat, gap: nat, path: seq<byte>, gap': nat, end: seq<byte>)
    requires gap > 0 && gap' > 0 && path != [] && AllPath(path) && end != [] && end[0] != SP
    requires Holds(s, j, Spaces(gap) + (path + (Spaces(gap') + end)))
    ensures var k, p := j + gap, j + gap + |path| + gap';
            && s[j] == SP && Target(s, j + 1) == Ok(p, Slice(k, |path|)) && Holds(s, k, path) && Holds(s, p, end)
  {
    hide Holds, AllPath, Spaces, ScanPath, SkipSpaces, Target;
    var rest := path + (Spaces(gap') + end);
    var m := j + gap + |path|;
    PathStarts(path);
    SpacesSkipped(s, j, gap, rest);
    HoldsSplit(s, j + gap, path, Spaces(gap') + end);
    SpacesSkipped(s, m, gap', end);
    PathScanned(s, j + gap, path);
    TargetParts(s, j + 1);
  }

  /** Any spelling of a request line is parsed back, each word in its place. */
  lemma StartFound(s: seq<byte>, i: nat, r: Start)
    requires StartOk(r) && Holds(s, i, WriteStart(r))
    ensures RequestLine(s, i) ==
            Ok(i + |WriteStart(r)|, Request(Slice(i, |r.verb|), Slice(i + |r.verb| + r.gap, |r.path|), r.minor, []))
    ensures Holds(s, i, r.verb) && Holds(s, i + |r.verb| + r.gap, r.path)
  {
    hide Holds, AllPath, AllName, Spaces, Version1, ScanToken, RequestLine, Target, VersionLine, Eol;
    var end := Version1(r.minor) + Eol(r.lf);
    var j := i + |r.verb|;
    SpacesLength(r.gap);
    SpacesLength(r.gap');
    VersionStarts(r.minor, r.lf);
    HoldsSplit(s, i, r.verb, Spaces(r.gap) + (r.path + (Spaces(r.gap') + end)));
    TargetFound(s, j, r.gap, r.path, r.gap', end);
    VerbScanned(s, i, r.verb);
    VersionFound(s, j + r.gap + |r.path| + r.gap', r.minor, r.lf);
    StartParts(s, i);
  }

  lemma SpacesLength(n: nat)
    ensures |Spaces(n)| == n
  {
  }

  lemma VersionStarts(minor: nat, lf: bool)
    requires minor < 10
    ensures var end := Version1(minor) + Eol(lf);
            end != [] && end[0] != SP && |end| == 8 + |Eol(lf)|
  {
  }

  lemma PathStarts(path: seq<byte>)
    requires path != [] && AllPath(path)
    ensures path[0] != SP
  {
  }

  lemma TargetIs(s: seq<byte>, j: nat) returns (gap: nat, path: seq<byte>, gap': nat)
    requires j < |s| && s[j] == SP && Target(s, j + 1).Ok? && Target(s, j + 1).value.len > 0
    ensures var t := Target(s, j + 1);
            && gap > 0 && gap' > 0 && path != [] && AllPath(path)
            && t == Ok(j + gap + |path| + gap', Slice(j + gap, |path|))
            && Holds(s, j, Spaces(gap)) && Holds(s, j + gap, path) && Holds(s, j + gap + |path|, Spaces(gap'))
  {
    hide ScanPath, SkipSpaces, Target;
    TargetParts(s, j + 1);
    var k := SkipSpaces(s, j + 1).at;
    var m := ScanPath(s, k).at;
    var p := SkipSpaces(s, m + 1).at;
    SpacesAre(s, j + 1);
    SpacesAre(s, m + 1);
    PathIs(s, k);
    gap, path, gap' := k - j, s[k..m], p - m;
    SpacesHeld(s, j, k);
    SpacesHeld(s, m, p);
  }

  /** What is parsed as a request line is a spelling of one. */
  lemma StartIs(s: seq<byte>, i: nat) returns (r: Start)
    requires RequestLine(s, i).Ok?
    ensures var p := RequestLine(s, i);
            && StartOk(r) && Holds(s, i, WriteStart(r))
            && p == Ok(i + |WriteStart(r)|, Request(Slice(i, |r.verb|), Slice(i + |r.verb| + r.gap, |r.path|), r.minor, []))
            && Holds(s, i, r.verb) && Holds(s, i + |r.verb| + r.gap, r.path)
  {
    hide AllName, AllPath, ScanToken, RequestLine, Target, VersionLine, Eol, Version1, Spaces;
    StartParts(s, i);
    var j := ScanToken(s, i, SP).at;
    TokenIsName(s, i, SP);
    var gap, path, gap' := TargetIs(s, j);
    var p := j + gap + |path| + gap';
    var lf := VersionIs(s, p);
    r := Start(s[i..j], gap, path, gap', VersionLine(s, p).value, lf);
    StartHeld(s, i, r);
  }

  lemma StartHeld(s: seq<byte>, i: nat, r: Start)
    requires r.minor < 10 && Holds(s, i, r.verb) && Holds(s, i + |r.verb|, Spaces(r.gap))
    requires Holds(s, i + |r.verb| + r.gap, r.path) && Holds(s, i + |r.verb| + r.gap + |r.path|, Spaces(r.gap'))
    requires Holds(s, i + |r.verb| + r.gap + |r.path| + r.gap', Version1(r.minor) + Eol(r.lf))
    ensures Holds(s, i, WriteStart(r))
    ensures |WriteStart(r)| == |r.verb| + r.gap + |r.path| + r.gap' + 8 + |Eol(r.lf)|
  {
    hide Holds, Spaces, Version1, Eol;
    var end := Version1(r.minor) + Eol(r.lf);
    var j := i + |r.verb|;
    SpacesLength(r.gap);
    SpacesLength(r.gap');
    VersionStarts(r.minor, r.lf);
    HoldsBoth(s, j + r.gap + |r.path|, Spaces(r.gap'), end);
    HoldsBoth(s, j + r.gap, r.path, Spaces(r.gap') + end);
    HoldsBoth(s, j, Spaces(r.gap), r.path + (Spaces(r.gap') + end));
    HoldsBoth(s, i, r.verb, Spaces(r.gap) + (r.path + (Spaces(r.gap') + end)));
  }

  lemma SpacesHeld(s: seq<byte>, i: nat, j: nat)
    requires i <= j <= |s| && forall k | i <= k < j :: s[k] == SP
    ensures Holds(s, i, Spaces(j - i)) && |Spaces(j - i)| == j - i
  {
  }

  // ----- Requests -----

  /** An optional empty line, the request line, the header lines, an empty line. */
  datatype Spelling = Spelling(lead: seq<byte>, start: Start, lines: seq<Line>, lf: bool)

  ghost predicate SpellingOk(q: Spelling) {
    && (q.lead == [] || q.lead == CRLF || q.lead == [LF])
    && StartOk(q.start) && LinesOk(q.lines, true)
  }

  function WriteRequest(q: Spelling): seq<byte>
    requires q.start.minor < 10
  {
    q.lead + (WriteStart(q.start) + (WriteLines(q.lines) + Eol(q.lf)))
  }

  /** The parsed request has this spelling's verb, path, version and headers, in order. */
  ghost predicate RequestRead(s: seq<byte>, r: Request, q: Spelling) {
    && Inside(r.verb, 0, |s|) && Text(s, r.verb) == q.start.verb
    && Inside(r.path, 0, |s|) && Text(s, r.path) == q.start.path
    && r.minor == q.start.minor
    && AllRead(s, r.headers, q.lines)
  }

  lemma LeadFound(s: seq<byte>, q: Spelling)
    requires SpellingOk(q) && Holds(s, 0, WriteRequest(q))
    ensures LeadingLine(s) == Ok(|q.lead|, ())
    ensures Holds(s, |q.lead|, WriteStart(q.start) + (WriteLines(q.lines) + Eol(q.lf)))
  {
    hide LinesOk, WriteLines, Eol;
    var rest := WriteStart(q.start) + (WriteLines(q.lines) + Eol(q.lf));
    HoldsSplit(s, 0, q.lead, rest);
    HoldsAll(s, 0, q.lead);
    HoldsSplit(s, |q.lead|, WriteStart(q.start), WriteLines(q.lines) + Eol(q.lf));
    HoldsSplit(s, |q.lead|, q.start.verb, WriteStart(q.start)[|q.start.verb|..]);
    NameFirst(s, |q.lead|, q.start.verb);
  }

  lemma RequestParts(s: seq<byte>, max: nat)
    ensures var p := ParseRequest(s, max);
            var i := LeadingLine(s);
            && (p.Ok? ==> i.Ok? && RequestLine(s, i.at).Ok?)
            && (i.Ok? && RequestLine(s, i.at).Ok? ==>
                  var l := RequestLine(s, i.at);
                  var hs := HeaderLines(s, l.at, 0, max);
                  && (hs.Ok? ==> p == Ok(hs.at, l.value.(headers := hs.value)))
                  && (hs.Bad? <==> p.Bad?) && (hs.Ok? <==> p.Ok?))
  {
    hide LeadingLine, RequestLine, HeaderLines;
  }

  /** The words of a parsed request line. */
  lemma StartRead(s: seq<byte>, i: nat, r: Start) returns (line: Request)
    requires StartOk(r) && Holds(s, i, WriteStart(r))
    ensures RequestLine(s, i) == Ok(i + |WriteStart(r)|, line)
    ensures Inside(line.verb, 0, |s|) && Text(s, line.verb) == r.verb
    ensures Inside(line.path, 0, |s|) && Text(s, line.path) == r.path && line.minor == r.minor
  {
    hide WriteStart, StartOk, Holds, RequestLine;
    StartFound(s, i, r);
    HoldsText(s, i, r.verb);
    HoldsText(s, i + |r.verb| + r.gap, r.path);
    line := Request(Slice(i, |r.verb|), Slice(i + |r.verb| + r.gap, |r.path|), r.minor, []);
  }

  lemma RequestLength(q: Spelling)
    requires q.start.minor < 10
    ensures |WriteRequest(q)| == |q.lead| + |WriteStart(q.start)| + |WriteLines(q.lines)| + |Eol(q.lf)|
  {
    hide WriteStart, WriteLines, Eol;
  }

  lemma PartsRead(s: seq<byte>, line: Request, hs: seq<Header>, q: Spelling)
    requires Inside(line.verb, 0, |s|) && Text(s, line.verb) == q.start.verb
    requires Inside(line.path, 0, |s|) && Text(s, line.path) == q.start.path && line.minor == q.start.minor
    ensures AllRead(s, hs, q.lines) ==> RequestRead(s, line.(headers := hs), q)
  {
    hide AllRead, Text, Inside;
  }

  lemma SpellingParts(q: Spelling)
    requires SpellingOk(q)
    ensures q.start.minor < 10 && StartOk(q.start) && LinesOk(q.lines, true)
  {
  }

  /** Where the pieces of a request end: its lead, its line, its headers. */
  function LineEndOf(q: Spelling): nat
    requires q.start.minor < 10
  {
    |q.lead| + |WriteStart(q.start)|
  }

  lemma LineReadAt(s: seq<byte>, q: Spelling) returns (line: Request)
    requires SpellingOk(q) && q.start.minor < 10 && Holds(s, 0, WriteRequest(q))
    ensures LeadingLine(s) == Ok(|q.lead|, ()) && RequestLine(s, |q.lead|) == Ok(LineEndOf(q), line)
    ensures Inside(line.verb, 0, |s|) && Text(s, line.verb) == q.start.verb
    ensures Inside(line.path, 0, |s|) && Text(s, line.path) == q.start.path && line.minor == q.start.minor
    ensures Holds(s, LineEndOf(q), WriteLines(q.lines) + Eol(q.lf))
  {
    SpellingParts(q);
    LeadFound(s, q);
    hide WriteStart, WriteLines, Eol, WriteRequest, SpellingOk, Holds, LeadingLine, RequestLine, Text, Inside, StartOk, LinesOk;
    HoldsSplit(s, |q.lead|, WriteStart(q.start), WriteLines(q.lines) + Eol(q.lf));
    line := StartRead(s, |q.lead|, q.start);
  }

  lemma HeadersReadAt(s: seq<byte>, q: Spelling, max: nat) returns (hs: seq<Header>)
    requires SpellingOk(q) && q.start.minor < 10 && Holds(s, LineEndOf(q), WriteLines(q.lines) + Eol(q.lf))
    ensures var r := HeaderLines(s, LineEndOf(q), 0, max);
            if |q.lines| <= max then r == Ok(|WriteRequest(q)|, hs) && AllRead(s, hs, q.lines) else r == Bad
  {
    SpellingParts(q);
    RequestLength(q);
    hide WriteStart, WriteLines, Eol, WriteRequest, SpellingOk, Holds, HeaderLines, AllRead, StartOk, LinesOk;
    hs := LinesFound(s, LineEndOf(q), q.lines, q.lf, 0, max);
  }

  lemma RequestFound(s: seq<byte>, q: Spelling, max: nat)
    requires SpellingOk(q) && Holds(s, 0, WriteRequest(q))
    ensures var p := ParseRequest(s, max);
            if |q.lines| <= max then p.Ok? && p.at == |WriteRequest(q)| && RequestRead(s, p.value, q) else p.Bad?
  {
    SpellingParts(q);
    hide LineEndOf, WriteRequest, SpellingOk, Holds, LeadingLine, RequestLine, HeaderLines, ParseRequest, AllRead, RequestRead,
         Text, Inside, StartOk, LinesOk, WriteLines, Eol;
    var line := LineReadAt(s, q);
    var hs := HeadersReadAt(s, q, max);
    RequestParts(s, max);
    PartsRead(s, line, hs, q);
  }

  /** Any spelling of a request, whatever follows it, is parsed back: verb, path, version, every header in order, and
      where it ends; one with more header lines than there is room for is malformed. */
  lemma SpelledIsParsed(q: Spelling, after: seq<byte>, max: nat)
    requires SpellingOk(q)
    ensures var s := WriteRequest(q) + after;
            var p := ParseRequest(s, max);
            if |q.lines| <= max then p.Ok? && p.at == |WriteRequest(q)| && RequestRead(s, p.value, q) else p.Bad?
  {
    hide SpellingOk, ParseRequest, WriteRequest, RequestRead;
    StartMinor(q);
    var text := WriteRequest(q);
    assert (text + after)[0..|text|] == text;
    RequestFound(text + after, q, max);
  }

  lemma StartReadBack(s: seq<byte>, i: nat) returns (r: Start)
    requires RequestLine(s, i).Ok?
    ensures var p := RequestLine(s, i);
            && StartOk(r) && Holds(s, i, WriteStart(r)) && p.at == i + |WriteStart(r)|
            && Inside(p.value.verb, 0, |s|) && Text(s, p.value.verb) == r.verb
            && Inside(p.value.path, 0, |s|) && Text(s, p.value.path) == r.path && p.value.minor == r.minor
  {
    hide WriteStart, StartOk, Holds, RequestLine;
    r := StartIs(s, i);
    HoldsText(s, i, r.verb);
    HoldsText(s, i + |r.verb| + r.gap, r.path);
  }

  lemma TextHeld(s: seq<byte>, q: Spelling)
    requires q.start.minor < 10
    requires Holds(s, 0, q.lead) && Holds(s, |q.lead|, WriteStart(q.start))
    requires Holds(s, |q.lead| + |WriteStart(q.start)|, WriteLines(q.lines) + Eol(q.lf))
    ensures var n := |q.lead| + |WriteStart(q.start)| + |WriteLines(q.lines)| + |Eol(q.lf)|;
            n <= |s| && s[..n] == WriteRequest(q)
  {
    hide WriteStart, WriteLines, Eol;
    HoldsBoth(s, |q.lead|, WriteStart(q.start), WriteLines(q.lines) + Eol(q.lf));
    HoldsBoth(s, 0, q.lead, WriteStart(q.start) + (WriteLines(q.lines) + Eol(q.lf)));
    assert s[..|WriteRequest(q)|] == s[0..|WriteRequest(q)|];
  }

  /** Whatever is parsed as a request is a spelling of one. */
  lemma ParsedIsSpelled(s: seq<byte>, max: nat) returns (q: Spelling)
    requires ParseRequest(s, max).Ok?
    ensures SpellingOk(q) && q.start.minor < 10 && |q.lines| <= max
    ensures var p := ParseRequest(s, max);
            s[..p.at] == WriteRequest(q) && RequestRead(s, p.value, q)
  {
    hide LinesOk, WriteLines, Eol, WriteStart, RequestLine, HeaderLines, LeadingLine, ParseRequest, AllRead, StartOk, Holds,
         Text, Inside, WriteRequest;
    RequestParts(s, max);
    var i := LeadingLine(s).at;
    var j := RequestLine(s, i).at;
    var start := StartReadBack(s, i);
    var lines, lf := LinesAre(s, j, 0, max);
    q := Spelling(s[..i], start, lines, lf);
    LeadIs(s);
    StartMinor(q);
    TextHeld(s, q);
    LinesReadLength(s, HeaderLines(s, j, 0, max).value, lines);
  }

  lemma StartMinor(q: Spelling)
    ensures SpellingOk(q) ==> q.start.minor < 10
  {
  }

  lemma LinesReadLength(s: seq<byte>, hs: seq<Header>, ls: seq<Line>)
    requires AllRead(s, hs, ls)
    ensures |hs| == |ls|
  {
  }

  lemma LeadIs(s: seq<byte>)
    requires LeadingLine(s).Ok?
    ensures var lead := s[..LeadingLine(s).at];
            (lead == [] || lead == CRLF || lead == [LF]) && Holds(s, 0, lead)
  {
  }

  // ----- Status lines -----

  function ThreeDigits(code: nat): seq<byte>
    requires code < 1000
  {
    ['0' as int + code / 100, '0' as int + code / 10 % 10, '0' as int + code % 10]
  }

  /** A status line; the phrase stands off by at least one space unless it is empty. */
  datatype StatusStart = StatusStart(minor: nat, gap: nat, code: nat, gap': nat, msg: seq<byte>, lf: bool)

  predicate StatusOk(r: StatusStart) {
    && r.minor < 10 && r.gap > 0 && r.code < 1000 && AllText(r.msg)
    && (r.msg != [] ==> r.gap' > 0 && r.msg[0] != SP)
  }

  function WriteStatus(r: StatusStart): seq<byte>
    requires r.minor < 10 && r.code < 1000
  {
    Version1(r.minor) + (Spaces(r.gap) + (ThreeDigits(r.code) + WriteReason(r.gap', r.msg, r.lf)))
  }

  function WriteReason(gap: nat, msg: seq<byte>, lf: bool): seq<byte> {
    Spaces(gap) + (msg + Eol(lf))
  }

  lemma CodeDigits(a: nat, b: nat, c: nat)
    requires a < 10 && b < 10 && c < 10
    ensures ThreeDigits(100 * a + 10 * b + c) == ['0' as int + a, '0' as int + b, '0' as int + c]
  {
    var code := 100 * a + 10 * b + c;
    assert code / 10 == 10 * a + b && code % 10 == c;
    assert code / 100 == a && code / 10 % 10 == b;
  }

  lemma CodeFound(s: seq<byte>, i: nat, code: nat)
    requires code < 1000 && Holds(s, i, ThreeDigits(code)) && i + 3 < |s|
    ensures Status(s, i) == Ok(i + 3, code)
  {
    HoldsAt(s, i, ThreeDigits(code), 0);
    HoldsAt(s, i, ThreeDigits(code), 1);
    HoldsAt(s, i, ThreeDigits(code), 2);
    assert code == 100 * (code / 100) + 10 * (code / 10 % 10) + code % 10;
  }

  lemma CodeIs(s: seq<byte>, i: nat)
    requires Status(s, i).Ok?
    ensures var r := Status(s, i); r.value < 1000 && r.at == i + 3 && Holds(s, i, ThreeDigits(r.value))
  {
    CodeDigits(s[i] - '0' as int, s[i + 1] - '0' as int, s[i + 2] - '0' as int);
  }

  lemma {:induction false} SpacesTrimmed(s: seq<byte>, x: Slice, n: nat)
    requires n <= x.len && x.start + x.len <= |s| && forall k | x.start <= k < x.start + n :: s[k] == SP
    requires n == x.len || s[x.start + n] != SP
    ensures TrimSpaces(s, x) == Slice(x.start + n, x.len - n)
    decreases n
  {
    if n > 0 { SpacesTrimmed(s, Slice(x.start + 1, x.len - 1), n - 1); }
  }

  lemma {:induction false} TrimmedSpaces(s: seq<byte>, x: Slice)
    requires x.start + x.len <= |s|
    ensures forall k | x.start <= k < TrimSpaces(s, x).start :: s[k] == SP
    decreases x.len
  {
    if x.len > 0 && s[x.start] == SP { TrimmedSpaces(s, Slice(x.start + 1, x.len - 1)); }
  }

  lemma ReasonParts(s: seq<byte>, i: nat)
    ensures var r := Reason(s, i);
            && (r.Ok? ==> ScanLine(s, i).Ok? && LineEnd(s, ScanLine(s, i).at).Ok?)
            && (ScanLine(s, i).Ok? && LineEnd(s, ScanLine(s, i).at).Ok? ==>
                  var d := ScanLine(s, i).at;
                  && (r.Ok? <==> d == i || s[i] == SP)
                  && (r.Ok? ==> r == Ok(LineEnd(s, d).at, TrimSpaces(s, Slice(i, d - i)))))
  {
    hide ScanLine, LineEnd, TrimSpaces;
  }

  lemma ReasonFound(s: seq<byte>, i: nat, gap: nat, msg: seq<byte>, lf: bool)
    requires Holds(s, i, WriteReason(gap, msg, lf)) && AllText(msg) && (msg != [] ==> gap > 0 && msg[0] != SP)
    ensures Reason(s, i) == Ok(i + gap + |msg| + |Eol(lf)|, Slice(i + gap, |msg|)) && Holds(s, i + gap, msg)
    ensures |WriteReason(gap, msg, lf)| == gap + |msg| + |Eol(lf)|
  {
    hide Eol, LineEnd, Holds, Reason, ScanLine, TrimSpaces, Spaces, AllText;
    var c, d := i + gap, i + gap + |msg|;
    SpacesLength(gap);
    HoldsSplit(s, i, Spaces(gap), msg + Eol(lf));
    HoldsSplit(s, c, msg, Eol(lf));
    EolFound(s, d, lf);
    ReasonScanned(s, i, gap, msg);
    ReasonParts(s, i);
  }

  lemma ReasonScanned(s: seq<byte>, i: nat, gap: nat, msg: seq<byte>)
    requires Holds(s, i, Spaces(gap)) && Holds(s, i + gap, msg) && AllText(msg) && (msg != [] ==> msg[0] != SP)
    requires i + gap + |msg| < |s| && EndsLineText(s[i + gap + |msg|])
    ensures var d := i + gap + |msg|;
            && ScanLine(s, i) == Ok(d, ()) && TrimSpaces(s, Slice(i, d - i)) == Slice(i + gap, |msg|)
            && (gap > 0 ==> s[i] == SP)
  {
    HoldsAll(s, i, Spaces(gap));
    HoldsAll(s, i + gap, msg);
    hide Holds;
    LineFound(s, i, i + gap + |msg|);
    hide EndsLineText;
    SpacesTrimmed(s, Slice(i, gap + |msg|), gap);
  }

  lemma ReasonIs(s: seq<byte>, i: nat) returns (gap: nat, msg: seq<byte>, lf: bool)
    requires Reason(s, i).Ok?
    ensures Holds(s, i, WriteReason(gap, msg, lf)) && AllText(msg) && (msg != [] ==> gap > 0 && msg[0] != SP)
    ensures Reason(s, i) == Ok(i + |WriteReason(gap, msg, lf)|, Slice(i + gap, |msg|)) && Holds(s, i + gap, msg)
  {
    hide Reason, ScanLine, TrimSpaces, LineEnd;
    ReasonParts(s, i);
    var d := ScanLine(s, i).at;
    var x := TrimSpaces(s, Slice(i, d - i));
    LineIs(s, i);
    TrimmedSpaces(s, Slice(i, d - i));
    EolIs(s, d);
    gap, msg, lf := x.start - i, s[x.start..d], s[d] == LF;
    SpacesHeld(s, i, x.start);
    ThreeParts(s, i, x.start, d, Eol(lf));
    hide Eol;
    assert s[i..x.start] == Spaces(gap);
  }

  /** A status line in terms of its parts. */
  lemma StatusParts(s: seq<byte>)
    ensures var r := StatusLine(s);
            && (r.Ok? ==> Version(s, 0).Ok? && s[8] == SP && SkipSpaces(s, 9).Ok? && Status(s, SkipSpaces(s, 9).at).Ok?)
            && (Version(s, 0).Ok? && s[8] == SP && SkipSpaces(s, 9).Ok? && Status(s, SkipSpaces(s, 9).at).Ok? ==>
                  var c := Status(s, SkipSpaces(s, 9).at);
                  var m := Reason(s, c.at);
                  && (r.Ok? <==> m.Ok?)
                  && (r.Ok? ==> r == Ok(m.at, Response(Version(s, 0).value, c.value, m.value, []))))
  {
    hide Version, SkipSpaces, Status, Reason;
  }

  lemma MinorFound(s: seq<byte>, minor: nat)
    requires minor < 10 && Holds(s, 0, Version1(minor)) && |s| > 8
    ensures Version(s, 0) == Ok(8, minor)
  {
    HoldsSplit(s, 0, Ascii("HTTP/1."), ['0' as int + minor]);
    HoldsAt(s, 7, ['0' as int + minor], 0);
    assert s[0..7] == Ascii("HTTP/1.") == HTTP_1;
  }

  lemma MinorIs(s: seq<byte>)
    requires Version(s, 0).Ok?
    ensures var r := Version(s, 0); r.at == 8 && r.value < 10 && Holds(s, 0, Version1(r.value))
  {
    assert HTTP_1 == Ascii("HTTP/1.");
    assert s[0..8] == Version1(Version(s, 0).value);
  }

  /** Any spelling of a status line is parsed back, each word in its place. */
  lemma StatusFound(s: seq<byte>, r: StatusStart)
    requires StatusOk(r) && Holds(s, 0, WriteStatus(r))
    ensures StatusLine(s) == Ok(|WriteStatus(r)|, Response(r.minor, r.code, Slice(11 + r.gap + r.gap', |r.msg|), []))
    ensures Holds(s, 11 + r.gap + r.gap', r.msg)
  {
    hide Holds, AllText, Version1, Spaces, StatusLine, Version, SkipSpaces, Status, Reason, WriteReason;
    var reason := WriteReason(r.gap', r.msg, r.lf);
    var rest := ThreeDigits(r.code) + reason;
    SpacesLength(r.gap);
    MinorLength(r.minor);
    ReasonLength(r.gap', r.msg, r.lf);
    HoldsSplit(s, 0, Version1(r.minor), Spaces(r.gap) + rest);
    SpacesSkipped(s, 8, r.gap, rest);
    HoldsSplit(s, 8 + r.gap, ThreeDigits(r.code), reason);
    MinorFound(s, r.minor);
    CodeFound(s, 8 + r.gap, r.code);
    ReasonFound(s, 11 + r.gap, r.gap', r.msg, r.lf);
    StatusParts(s);
  }

  lemma MinorLength(minor: nat)
    requires minor < 10
    ensures |Version1(minor)| == 8
  {
  }

  lemma ReasonLength(gap: nat, msg: seq<byte>, lf: bool)
    ensures |WriteReason(gap, msg, lf)| == gap + |msg| + |Eol(lf)| > 0
  {
  }

  /** What is parsed as a status line is a spelling of one. */
  lemma StatusIs(s: seq<byte>) returns (r: StatusStart)
    requires StatusLine(s).Ok?
    ensures StatusOk(r) && Holds(s, 0, WriteStatus(r))
    ensures StatusLine(s) == Ok(|WriteStatus(r)|, Response(r.minor, r.code, Slice(11 + r.gap + r.gap', |r.msg|), []))
    ensures Holds(s, 11 + r.gap + r.gap', r.msg)
  {
    hide Holds, AllText, Version1, Spaces, StatusLine, Version, SkipSpaces, Status, Reason, WriteReason, Eol;
    StatusParts(s);
    MinorIs(s);
    var k := SkipSpaces(s, 9).at;
    SpacesAre(s, 9);
    SpacesHeld(s, 8, k);
    CodeIs(s, k);
    var gap, msg, lf := ReasonIs(s, k + 3);
    r := StatusStart(Version(s, 0).value, k - 8, Status(s, k).value, gap, msg, lf);
    MinorLength(r.minor);
    ReasonLength(gap, msg, lf);
    HoldsBoth(s, k, ThreeDigits(r.code), WriteReason(gap, msg, lf));
    HoldsBoth(s, 8, Spaces(r.gap), ThreeDigits(r.code) + WriteReason(gap, msg, lf));
    HoldsBoth(s, 0, Version1(r.minor), Spaces(r.gap) + (ThreeDigits(r.code) + WriteReason(gap, msg, lf)));
  }

  // ----- Responses -----

  datatype Answer = Answer(start: StatusStart, lines: seq<Line>, lf: bool)

  ghost predicate AnswerOk(q: Answer) {
    StatusOk(q.start) && LinesOk(q.lines, true)
  }

  function WriteAnswer(q: Answer): seq<byte>
    requires q.start.minor < 10 && q.start.code < 1000
  {
    WriteStatus(q.start) + (WriteLines(q.lines) + Eol(q.lf))
  }

  ghost predicate AnswerRead(s: seq<byte>, r: Response, q: Answer) {
    && r.minor == q.start.minor && r.status == q.start.code
    && Inside(r.msg, 0, |s|) && Text(s, r.msg) == q.start.msg
    && AllRead(s, r.headers, q.lines)
  }

  lemma ResponseParts(s: seq<byte>, max: nat)
    ensures var p := ParseResponse(s, max);
            && (p.Ok? ==> StatusLine(s).Ok?)
            && (StatusLine(s).Ok? ==>
                  var l := StatusLine(s);
                  var hs := HeaderLines(s, l.at, 0, max);
                  && (hs.Ok? ==> p == Ok(hs.at, l.value.(headers := hs.value)))
                  && (hs.Bad? <==> p.Bad?) && (hs.Ok? <==> p.Ok?))
  {
    hide StatusLine, HeaderLines;
  }

  lemma AnswerFound(s: seq<byte>, q: Answer, max: nat)
    requires AnswerOk(q) && Holds(s, 0, WriteAnswer(q))
    ensures var p := ParseResponse(s, max);
            if |q.lines| <= max then p.Ok? && p.at == |WriteAnswer(q)| && AnswerRead(s, p.value, q) else p.Bad?
  {
    AnswerBounds(q);
    hide LinesOk, WriteLines, Eol, WriteStatus, StatusLine, HeaderLines, ParseResponse, AllRead, StatusOk, Holds, Text;
    var start, end := WriteStatus(q.start), WriteLines(q.lines) + Eol(q.lf);
    HoldsSplit(s, 0, start, end);
    StatusFound(s, q.start);
    HoldsText(s, 11 + q.start.gap + q.start.gap', q.start.msg);
    var hs := LinesFound(s, |start|, q.lines, q.lf, 0, max);
    ResponseParts(s, max);
  }

  /** Any spelling of a response, whatever follows it, is parsed back. */
  lemma WrittenIsParsed(q: Answer, after: seq<byte>, max: nat)
    requires AnswerOk(q)
    ensures var s := WriteAnswer(q) + after;
            var p := ParseResponse(s, max);
            if |q.lines| <= max then p.Ok? && p.at == |WriteAnswer(q)| && AnswerRead(s, p.value, q) else p.Bad?
  {
    hide AnswerOk, ParseResponse, WriteAnswer, AnswerRead;
    AnswerBounds(q);
    var text := WriteAnswer(q);
    assert (text + after)[0..|text|] == text;
    AnswerFound(text + after, q, max);
  }

  lemma AnswerBounds(q: Answer)
    ensures AnswerOk(q) ==> q.start.minor < 10 && q.start.code < 1000
  {
  }

  /** Whatever is parsed as a response is a spelling of one. */
  lemma ParsedIsWritten(s: seq<byte>, max: nat) returns (q: Answer)
    requires ParseResponse(s, max).Ok?
    ensures AnswerOk(q) && q.start.minor < 10 && q.start.code < 1000 && |q.lines| <= max
    ensures var p := ParseResponse(s, max);
            s[..p.at] == WriteAnswer(q) && AnswerRead(s, p.value, q)
  {
    hide LinesOk, WriteLines, Eol, WriteStatus, StatusLine, HeaderLines, ParseResponse, AllRead, StatusOk, Holds, Text,
         WriteAnswer;
    ResponseParts(s, max);
    var start := StatusIs(s);
    var lines, lf := LinesAre(s, StatusLine(s).at, 0, max);
    q := Answer(start, lines, lf);
    AnswerBounds(q);
    HoldsText(s, 11 + start.gap + start.gap', start.msg);
    AnswerHeld(s, q);
    LinesReadLength(s, HeaderLines(s, StatusLine(s).at, 0, max).value, lines);
  }

  lemma AnswerHeld(s: seq<byte>, q: Answer)
    requires q.start.minor < 10 && q.start.code < 1000
    requires Holds(s, 0, WriteStatus(q.start)) && Holds(s, |WriteStatus(q.start)|, WriteLines(q.lines) + Eol(q.lf))
    ensures var n := |WriteStatus(q.start)| + |WriteLines(q.lines)| + |Eol(q.lf)|;
            n <= |s| && s[..n] == WriteAnswer(q)
  {
    hide WriteStatus, WriteLines, Eol;
    HoldsBoth(s, 0, WriteStatus(q.start), WriteLines(q.lines) + Eol(q.lf));
    assert s[..|WriteAnswer(q)|] == s[0..|WriteAnswer(q)|];
  }
}
