/**
 Verdicts are stable: what the parser decided about a buffer it decides about every
 extension, and a success depends on nothing past the octets it consumed.
 */
module HttpStability {
  import opened Bytes
  import opened HttpGrammar

  /** The two buffers have their first m octets in common. */
  ghost predicate Agree(s: seq<byte>, t: seq<byte>, m: nat) {
    m <= |s| && m <= |t| && forall k | 0 <= k < m :: s[k] == t[k]
  }

  /** A success that looked at most `look` octets past its end, all of them common, is repeated;
      so is a refusal, if all of s is common. */
  ghost predicate Repeats<T(!new)>(r: Parsed<T>, r': Parsed<T>, look: nat, s: seq<byte>, m: nat) {
    (if r.Ok? then r.at + look <= m else r.Bad? && m == |s|) ==> r' == r
  }

  lemma {:induction false} ScanTokenRepeats(s: seq<byte>, t: seq<byte>, m: nat, i: nat, stop: byte)
    requires Agree(s, t, m)
    ensures Repeats(ScanToken(s, i, stop), ScanToken(t, i, stop), 1, s, m)
    decreases |s| - i
  {
    if i < m && s[i] != stop && TokenChar(s[i]) { ScanTokenRepeats(s, t, m, i + 1, stop); }
  }

  lemma {:induction false} ScanPathRepeats(s: seq<byte>, t: seq<byte>, m: nat, i: nat)
    requires Agree(s, t, m)
    ensures Repeats(ScanPath(s, i), ScanPath(t, i), 1, s, m)
    decreases |s| - i
  {
    if i < m && s[i] != SP && !Control(s[i]) { ScanPathRepeats(s, t, m, i + 1); }
  }

  lemma {:induction false} SkipSpacesRepeats(s: seq<byte>, t: seq<byte>, m: nat, i: nat)
    requires Agree(s, t, m)
    ensures Repeats(SkipSpaces(s, i), SkipSpaces(t, i), 1, s, m)
    ensures !SkipSpaces(s, i).Bad?
    decreases |s| - i
  {
    if i < |s| && s[i] == SP { SkipSpacesRepeats(s, t, m, i + 1); }
  }

  lemma {:induction false} SkipBlanksRepeats(s: seq<byte>, t: seq<byte>, m: nat, i: nat)
    requires Agree(s, t, m)
    ensures Repeats(SkipBlanks(s, i), SkipBlanks(t, i), 1, s, m)
    ensures !SkipBlanks(s, i).Bad?
    decreases |s| - i
  {
    if i < |s| && Blank(s[i]) { SkipBlanksRepeats(s, t, m, i + 1); }
  }

  lemma {:induction false} ScanLineRepeats(s: seq<byte>, t: seq<byte>, m: nat, i: nat)
    requires Agree(s, t, m)
    ensures Repeats(ScanLine(s, i), ScanLine(t, i), 1, s, m)
    ensures !ScanLine(s, i).Bad?
    decreases |s| - i
  {
    if i < |s| && !EndsLineText(s[i]) { ScanLineRepeats(s, t, m, i + 1); }
  }

  lemma LineTextRepeats(s: seq<byte>, t: seq<byte>, m: nat, i: nat)
    requires Agree(s, t, m)
    ensures Repeats(LineText(s, i), LineText(t, i), 0, s, m)
  {
    ScanLineRepeats(s, t, m, i);
  }

  lemma {:induction false} TrimEndRepeats(s: seq<byte>, t: seq<byte>, m: nat, x: Slice)
    requires Agree(s, t, m) && x.start + x.len <= m
    ensures TrimEnd(s, x) == TrimEnd(t, x)
    decreases x.len
  {
    if x.len > 0 && Blank(s[x.start + x.len - 1]) { TrimEndRepeats(s, t, m, x.(len := x.len - 1)); }
  }

  lemma {:induction false} TrimSpacesRepeats(s: seq<byte>, t: seq<byte>, m: nat, x: Slice)
    requires Agree(s, t, m) && x.start + x.len <= m
    ensures TrimSpaces(s, x) == TrimSpaces(t, x)
    decreases x.len
  {
    if x.len > 0 && s[x.start] == SP { TrimSpacesRepeats(s, t, m, Slice(x.start + 1, x.len - 1)); }
  }

  lemma HeaderNameRepeats(s: seq<byte>, t: seq<byte>, m: nat, i: nat)
    requires Agree(s, t, m)
    ensures Repeats(HeaderName(s, i), HeaderName(t, i), 1, s, m)
  {
    ScanTokenRepeats(s, t, m, i, COLON);
    var tok := Token(s, i, COLON);
    if tok.Ok? { SkipBlanksRepeats(s, t, m, tok.at + 1); }
  }

  lemma HeaderValueRepeats(s: seq<byte>, t: seq<byte>, m: nat, i: nat)
    requires Agree(s, t, m)
    ensures Repeats(HeaderValue(s, i), HeaderValue(t, i), 0, s, m)
  {
    LineTextRepeats(s, t, m, i);
    var r := LineText(s, i);
    if r.Ok? && r.at <= m { TrimEndRepeats(s, t, m, r.value); }
  }

  lemma HeaderLineRepeats(s: seq<byte>, t: seq<byte>, m: nat, i: nat, first: bool)
    requires Agree(s, t, m) && i < m
    ensures Repeats(HeaderLine(s, i, first), HeaderLine(t, i, first), 0, s, m)
  {
    if !first && Blank(s[i]) {
      HeaderValueRepeats(s, t, m, i);
    } else {
      HeaderNameRepeats(s, t, m, i);
      var name := HeaderName(s, i);
      if name.Ok? { HeaderValueRepeats(s, t, m, name.at); }
    }
  }

  lemma {:induction false} HeaderLinesRepeat(s: seq<byte>, t: seq<byte>, m: nat, i: nat, n: nat, max: nat)
    requires Agree(s, t, m)
    ensures Repeats(HeaderLines(s, i, n, max), HeaderLines(t, i, n, max), 0, s, m)
    decreases |s| - i
  {
    hide HeaderLine;
    if i < m && !AtLineEnd(s, i) && n != max {
      HeaderLineRepeats(s, t, m, i, n == 0);
      var h := HeaderLine(s, i, n == 0);
      if h.Ok? { HeaderLinesRepeat(s, t, m, h.at, n + 1, max); }
    }
  }

  lemma VersionRepeats(s: seq<byte>, t: seq<byte>, m: nat, i: nat)
    requires Agree(s, t, m)
    ensures Repeats(Version(s, i), Version(t, i), 1, s, m)
  {
    if i + 9 <= m {
      assert s[i..i + 7] == t[i..i + 7];
    }
  }

  lemma TargetRepeats(s: seq<byte>, t: seq<byte>, m: nat, i: nat)
    requires Agree(s, t, m)
    ensures Repeats(Target(s, i), Target(t, i), 1, s, m)
  {
    SkipSpacesRepeats(s, t, m, i);
    var k := SkipSpaces(s, i);
    if k.Ok? {
      ScanPathRepeats(s, t, m, k.at);
      var p := ScanPath(s, k.at);
      if p.Ok? { SkipSpacesRepeats(s, t, m, p.at + 1); }
    }
  }

  lemma VersionLineRepeats(s: seq<byte>, t: seq<byte>, m: nat, i: nat)
    requires Agree(s, t, m)
    ensures Repeats(VersionLine(s, i), VersionLine(t, i), 0, s, m)
  {
    VersionRepeats(s, t, m, i);
  }

  lemma RequestLineRepeats(s: seq<byte>, t: seq<byte>, m: nat, i: nat)
    requires Agree(s, t, m)
    ensures Repeats(RequestLine(s, i), RequestLine(t, i), 0, s, m)
  {
    hide ScanToken, Target, VersionLine;
    ScanTokenRepeats(s, t, m, i, SP);
    var verb := Token(s, i, SP);
    if verb.Ok? {
      TargetRepeats(s, t, m, verb.at + 1);
      var path := Target(s, verb.at + 1);
      if path.Ok? { VersionLineRepeats(s, t, m, path.at); }
    }
  }

  lemma ParseRequestRepeats(s: seq<byte>, t: seq<byte>, m: nat, max: nat)
    requires Agree(s, t, m)
    ensures Repeats(ParseRequest(s, max), ParseRequest(t, max), 0, s, m)
  {
    hide RequestLine, HeaderLines;
    var l := LeadingLine(s);
    if l.Ok? {
      RequestLineRepeats(s, t, m, l.at);
      var r := RequestLine(s, l.at);
      if r.Ok? { HeaderLinesRepeat(s, t, m, r.at, 0, max); }
    }
  }

  lemma ReasonRepeats(s: seq<byte>, t: seq<byte>, m: nat, i: nat)
    requires Agree(s, t, m)
    ensures Repeats(Reason(s, i), Reason(t, i), 0, s, m)
  {
    LineTextRepeats(s, t, m, i);
    var r := LineText(s, i);
    if r.Ok? && r.at <= m { TrimSpacesRepeats(s, t, m, r.value); }
  }

  lemma StatusCodeRepeats(s: seq<byte>, t: seq<byte>, m: nat, i: nat)
    requires Agree(s, t, m) && i < m
    ensures Repeats(StatusCode(s, i), StatusCode(t, i), 1, s, m)
  {
    SkipSpacesRepeats(s, t, m, i + 1);
  }

  lemma StatusLineRepeats(s: seq<byte>, t: seq<byte>, m: nat)
    requires Agree(s, t, m)
    ensures Repeats(StatusLine(s), StatusLine(t), 0, s, m)
  {
    hide StatusCode, Reason;
    VersionRepeats(s, t, m, 0);
    var v := Version(s, 0);
    if v.Ok? && v.at < m {
      StatusCodeRepeats(s, t, m, v.at);
      var c := StatusCode(s, v.at);
      if c.Ok? { ReasonRepeats(s, t, m, c.at); }
    }
  }

  lemma ParseResponseRepeats(s: seq<byte>, t: seq<byte>, m: nat, max: nat)
    requires Agree(s, t, m)
    ensures Repeats(ParseResponse(s, max), ParseResponse(t, max), 0, s, m)
  {
    hide StatusLine, HeaderLines;
    StatusLineRepeats(s, t, m);
    var l := StatusLine(s);
    if l.Ok? { HeaderLinesRepeat(s, t, m, l.at, 0, max); }
  }

  /** Every header of a parsed head lies inside the octets consumed, and every name is non-empty. */
  lemma HeaderLinesStep(s: seq<byte>, i: nat, n: nat, max: nat)
    requires HeaderLines(s, i, n, max).Ok? && !AtLineEnd(s, i)
    ensures i < |s| && HeaderLine(s, i, n == 0).Ok?
    ensures var h, r := HeaderLine(s, i, n == 0), HeaderLines(s, i, n, max);
            HeaderLines(s, h.at, n + 1, max) == Ok(r.at, r.value[1..])
  {
  }

  lemma {:induction false} HeadersInside(s: seq<byte>, i: nat, n: nat, max: nat, k: nat)
    requires HeaderLines(s, i, n, max).Ok? && k < |HeaderLines(s, i, n, max).value|
    ensures HeaderInside(HeaderLines(s, i, n, max).value[k], i, HeaderLines(s, i, n, max).at)
    decreases |s| - i
  {
    hide HeaderLine;
    HeaderLinesStep(s, i, n, max);
    if k > 0 { HeadersInside(s, HeaderLine(s, i, n == 0).at, n + 1, max, k - 1); }
  }

  /** All slices of a parsed request lie inside the octets it consumed. */
  lemma RequestSlicesInside(s: seq<byte>, max: nat)
    ensures var r := ParseRequest(s, max);
            r.Ok? ==> forall k | 0 <= k < |r.value.headers| :: HeaderInside(r.value.headers[k], 0, r.at)
  {
    hide RequestLine, HeaderLines;
    var r := ParseRequest(s, max);
    if r.Ok? {
      forall k | 0 <= k < |r.value.headers| ensures HeaderInside(r.value.headers[k], 0, r.at) {
        HeadersInside(s, RequestLine(s, LeadingLine(s).at).at, 0, max, k);
      }
    }
  }

  lemma ResponseSlicesInside(s: seq<byte>, max: nat)
    ensures var r := ParseResponse(s, max);
            r.Ok? ==> forall k | 0 <= k < |r.value.headers| :: HeaderInside(r.value.headers[k], 0, r.at)
  {
    hide StatusLine, HeaderLines;
    var r := ParseResponse(s, max);
    if r.Ok? {
      forall k | 0 <= k < |r.value.headers| ensures HeaderInside(r.value.headers[k], 0, r.at) {
        HeadersInside(s, StatusLine(s).at, 0, max, k);
      }
    }
  }

  /** A decided request stays decided, with the same slices, whatever arrives after it. */
  lemma RequestStable(s: seq<byte>, more: seq<byte>, max: nat)
    ensures !ParseRequest(s, max).Partial? ==> ParseRequest(s + more, max) == ParseRequest(s, max)
  {
    hide ParseRequest;
    ParseRequestRepeats(s, s + more, |s|, max);
  }

  /** A success depends only on the octets it consumed: any buffer that starts with them parses the same. */
  lemma RequestLocal(s: seq<byte>, t: seq<byte>, max: nat)
    ensures var r := ParseRequest(s, max);
            r.Ok? && r.at <= |t| && t[..r.at] == s[..r.at] ==> ParseRequest(t, max) == r
  {
    hide ParseRequest;
    var r := ParseRequest(s, max);
    if r.Ok? && r.at <= |t| && t[..r.at] == s[..r.at] {
      assert forall k | 0 <= k < r.at :: s[k] == s[..r.at][k] == t[..r.at][k] == t[k];
      ParseRequestRepeats(s, t, r.at, max);
    }
  }

  lemma ResponseStable(s: seq<byte>, more: seq<byte>, max: nat)
    ensures !ParseResponse(s, max).Partial? ==> ParseResponse(s + more, max) == ParseResponse(s, max)
  {
    hide ParseResponse;
    ParseResponseRepeats(s, s + more, |s|, max);
  }

  lemma ResponseLocal(s: seq<byte>, t: seq<byte>, max: nat)
    ensures var r := ParseResponse(s, max);
            r.Ok? && r.at <= |t| && t[..r.at] == s[..r.at] ==> ParseResponse(t, max) == r
  {
    hide ParseResponse;
    var r := ParseResponse(s, max);
    if r.Ok? && r.at <= |t| && t[..r.at] == s[..r.at] {
      assert forall k | 0 <= k < r.at :: s[k] == s[..r.at][k] == t[..r.at][k] == t[k];
      ParseResponseRepeats(s, t, r.at, max);
    }
  }
}
