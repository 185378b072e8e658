/**
 The syntax of sections 3.1 and 3.2 of RFC 7230 as this parser takes it, written as a printer, and what its
 sub-parsers make of each piece.
 */
module HttpSpelling {
  import opened Bytes
  import opened HttpGrammar

  // ----- Characters -----

  const SPECIALS: seq<byte> := Ascii("!#$%&'*+-.^_`|~")

  predicate NameChar(b: byte) {
    || 'a' as int <= b <= 'z' as int
    || 'A' as int <= b <= 'Z' as int
    || '0' as int <= b <= '9' as int
    || b in SPECIALS
  }

  predicate AllName(t: seq<byte>) { forall k | 0 <= k < |t| :: NameChar(t[k]) }

  /** Visible characters, octets above 127, spaces and tabs. */
  predicate AllText(t: seq<byte>) { forall k | 0 <= k < |t| :: t[k] == HT || (t[k] >= SP && t[k] != DEL) }

  predicate AllPath(t: seq<byte>) { forall k | 0 <= k < |t| :: t[k] > SP && t[k] != DEL }

  predicate White(b: byte) { b == SP || b == HT }

  predicate AllBlank(t: seq<byte>) { forall k | 0 <= k < |t| :: White(t[k]) }

  lemma NameCharIsToken(b: byte)
    ensures TokenChar(b) <==> NameChar(b)
  {
    assert SPECIALS == [0x21, 0x23, 0x24, 0x25, 0x26, 0x27, 0x2a, 0x2b, 0x2d, 0x2e, 0x5e, 0x5f, 0x60, 0x7c, 0x7e];
  }

  // ----- Header lines -----

  /** A name, blanks, a value, blanks; or the continuation of the line before.  Lines end in CR LF or in LF alone. */
  datatype Line =
    | Named(name: seq<byte>, before: seq<byte>, value: seq<byte>, after: seq<byte>, lf: bool)
    | Continued(value: seq<byte>, after: seq<byte>, lf: bool)

  function Eol(lf: bool): seq<byte> {
    if lf then [LF] else CRLF
  }

  function WriteValue(value: seq<byte>, after: seq<byte>, lf: bool): seq<byte> {
    value + (after + Eol(lf))
  }

  function WriteLine(l: Line): seq<byte> {
    match l
    case Named(name, before, value, after, lf) => name + ([COLON] + (before + WriteValue(value, after, lf)))
    case Continued(value, after, lf) => WriteValue(value, after, lf)
  }

  predicate ValueOk(value: seq<byte>, after: seq<byte>) {
    AllText(value) && AllBlank(after) && (value != [] ==> !White(value[|value| - 1]))
  }

  /** The first line continues none. */
  predicate LineOk(l: Line, first: bool) {
    match l
    case Named(name, before, value, after, _) =>
      && name != [] && AllName(name) && AllBlank(before) && ValueOk(value, after)
      && (if value == [] then after == [] else !White(value[0]))
    case Continued(value, after, _) =>
      !first && ValueOk(value, after) && value + after != [] && White((value + after)[0])
  }

  function WriteLines(ls: seq<Line>): seq<byte> {
    if ls == [] then [] else WriteLine(ls[0]) + WriteLines(ls[1..])
  }

  ghost predicate LinesOk(ls: seq<Line>, first: bool) {
    forall k | 0 <= k < |ls| :: LineOk(ls[k], first && k == 0)
  }

  /** The header is this line's name and value. */
  ghost predicate LineRead(s: seq<byte>, h: Header, l: Line) {
    && HeaderInside(h, 0, |s|)
    && (h.hasName <==> l.Named?)
    && (l.Named? ==> Text(s, h.name) == l.name)
    && Text(s, h.value) == l.value
  }

  ghost predicate AllRead(s: seq<byte>, hs: seq<Header>, ls: seq<Line>) {
    |hs| == |ls| && forall k | 0 <= k < |hs| :: LineRead(s, hs[k], ls[k])
  }

  // ----- What the scans find -----

  lemma {:induction false} TokenFound(s: seq<byte>, i: nat, j: nat, stop: byte)
    requires i <= j < |s| && s[j] == stop && forall k | i <= k < j :: TokenChar(s[k]) && s[k] != stop
    ensures ScanToken(s, i, stop) == Ok(j, ())
    decreases j - i
  {
    if i < j { TokenFound(s, i + 1, j, stop); }
  }

  lemma {:induction false} TokenIs(s: seq<byte>, i: nat, stop: byte)
    ensures var r := ScanToken(s, i, stop);
            r.Ok? ==> forall k | i <= k < r.at :: TokenChar(s[k]) && s[k] != stop
    decreases |s| - i
  {
    if i < |s| && s[i] != stop && TokenChar(s[i]) { TokenIs(s, i + 1, stop); }
  }

  lemma {:induction false} PathFound(s: seq<byte>, i: nat, j: nat)
    requires i <= j < |s| && s[j] == SP && forall k | i <= k < j :: s[k] != SP && !Control(s[k])
    ensures ScanPath(s, i) == Ok(j, ())
    decreases j - i
  {
    if i < j { PathFound(s, i + 1, j); }
  }

  lemma {:induction false} PathIs(s: seq<byte>, i: nat)
    ensures var r := ScanPath(s, i);
            r.Ok? ==> forall k | i <= k < r.at :: s[k] != SP && !Control(s[k])
    decreases |s| - i
  {
    if i < |s| && s[i] != SP && !Control(s[i]) { PathIs(s, i + 1); }
  }

  lemma {:induction false} SpacesFound(s: seq<byte>, i: nat, j: nat)
    requires i <= j < |s| && s[j] != SP && forall k | i <= k < j :: s[k] == SP
    ensures SkipSpaces(s, i) == Ok(j, ())
    decreases j - i
  {
    if i < j { SpacesFound(s, i + 1, j); }
  }

  lemma {:induction false} SpacesAre(s: seq<byte>, i: nat)
    ensures var r := SkipSpaces(s, i);
            r.Ok? ==> forall k | i <= k < r.at :: s[k] == SP
    decreases |s| - i
  {
    if i < |s| && s[i] == SP { SpacesAre(s, i + 1); }
  }

  lemma {:induction false} BlanksFound(s: seq<byte>, i: nat, j: nat)
    requires i <= j < |s| && !Blank(s[j]) && forall k | i <= k < j :: Blank(s[k])
    ensures SkipBlanks(s, i) == Ok(j, ())
    decreases j - i
  {
    if i < j { BlanksFound(s, i + 1, j); }
  }

  lemma {:induction false} BlanksAre(s: seq<byte>, i: nat)
    ensures var r := SkipBlanks(s, i);
            r.Ok? ==> forall k | i <= k < r.at :: Blank(s[k])
    decreases |s| - i
  {
    if i < |s| && Blank(s[i]) { BlanksAre(s, i + 1); }
  }

  lemma {:induction false} LineFound(s: seq<byte>, i: nat, j: nat)
    requires i <= j < |s| && EndsLineText(s[j]) && forall k | i <= k < j :: !EndsLineText(s[k])
    ensures ScanLine(s, i) == Ok(j, ())
    decreases j - i
  {
    if i < j { LineFound(s, i + 1, j); }
  }

  lemma {:induction false} LineIs(s: seq<byte>, i: nat)
    ensures var r := ScanLine(s, i);
            r.Ok? ==> forall k | i <= k < r.at :: !EndsLineText(s[k])
    decreases |s| - i
  {
    if i < |s| && !EndsLineText(s[i]) { LineIs(s, i + 1); }
  }

  lemma {:induction false} Trimmed(s: seq<byte>, x: Slice, n: nat)
    requires n <= x.len && x.start + x.len <= |s| && (n == 0 || !Blank(s[x.start + n - 1]))
    requires forall k | x.start + n <= k < x.start + x.len :: Blank(s[k])
    ensures TrimEnd(s, x) == Slice(x.start, n)
    decreases x.len
  {
    if n < x.len { Trimmed(s, x.(len := x.len - 1), n); }
  }

  lemma {:induction false} TrimmedBlanks(s: seq<byte>, x: Slice)
    requires x.start + x.len <= |s|
    ensures forall k | x.start + TrimEnd(s, x).len <= k < x.start + x.len :: Blank(s[k])
    decreases x.len
  {
    if x.len > 0 && Blank(s[x.start + x.len - 1]) { TrimmedBlanks(s, x.(len := x.len - 1)); }
  }

  lemma EolFound(s: seq<byte>, i: nat, lf: bool)
    requires Holds(s, i, Eol(lf))
    ensures LineEnd(s, i) == Ok(i + |Eol(lf)|, ()) && AtLineEnd(s, i) && EndsLineText(s[i])
  {
    HoldsAll(s, i, Eol(lf));
  }

  lemma EolIs(s: seq<byte>, i: nat)
    requires LineEnd(s, i).Ok?
    ensures Holds(s, i, Eol(s[i] == LF)) && LineEnd(s, i).at == i + |Eol(s[i] == LF)|
  {
  }

  // ----- Values -----

  /** A value in terms of its line and of the trimming. */
  lemma ValueParts(s: seq<byte>, i: nat)
    ensures var r := HeaderValue(s, i);
            && (r.Ok? <==> ScanLine(s, i).Ok? && LineEnd(s, ScanLine(s, i).at).Ok?)
            && (r.Ok? ==>
                  var d := ScanLine(s, i).at;
                  r.at == LineEnd(s, d).at && r.value == TrimEnd(s, Slice(i, d - i)))
  {
    hide ScanLine, LineEnd, TrimEnd;
  }

  lemma ValueFound(s: seq<byte>, i: nat, value: seq<byte>, after: seq<byte>, lf: bool)
    requires Holds(s, i, WriteValue(value, after, lf)) && ValueOk(value, after)
    ensures HeaderValue(s, i) == Ok(i + |WriteValue(value, after, lf)|, Slice(i, |value|))
    ensures Holds(s, i, value)
  {
    hide Eol, LineEnd, Holds, HeaderValue, ScanLine, TrimEnd, ValueOk, EndsLineText, Blank;
    var c, d := i + |value|, i + |value| + |after|;
    HoldsSplit(s, i, value, after + Eol(lf));
    HoldsSplit(s, c, after, Eol(lf));
    EolFound(s, d, lf);
    ValueIsCut(s, i, value, after);
    ValueScanned(s, i, |value|, d);
    ValueParts(s, i);
  }

  lemma ValueScanned(s: seq<byte>, i: nat, n: nat, d: nat)
    requires i + n <= d < |s| && EndsLineText(s[d]) && (n == 0 || !Blank(s[i + n - 1]))
    requires forall k | i <= k < d :: !EndsLineText(s[k])
    requires forall k | i + n <= k < d :: Blank(s[k])
    ensures ScanLine(s, i) == Ok(d, ()) && TrimEnd(s, Slice(i, d - i)) == Slice(i, n)
  {
    LineFound(s, i, d);
    hide EndsLineText;
    Trimmed(s, Slice(i, d - i), n);
  }

  lemma ValueIsCut(s: seq<byte>, i: nat, value: seq<byte>, after: seq<byte>)
    requires Holds(s, i, value) && Holds(s, i + |value|, after) && ValueOk(value, after)
    ensures value == [] || !Blank(s[i + |value| - 1])
    ensures forall k | i <= k < i + |value| + |after| :: !EndsLineText(s[k])
    ensures forall k | i + |value| <= k < i + |value| + |after| :: Blank(s[k])
  {
    HoldsAll(s, i, value);
    HoldsAll(s, i + |value|, after);
  }

  lemma ValueIs(s: seq<byte>, i: nat) returns (value: seq<byte>, after: seq<byte>, lf: bool)
    requires HeaderValue(s, i).Ok?
    ensures var r := HeaderValue(s, i);
            && ValueOk(value, after) && Holds(s, i, WriteValue(value, after, lf))
            && r.at == i + |WriteValue(value, after, lf)|
            && r.value == Slice(i, |value|) && s[i..i + |value|] == value
  {
    hide HeaderValue, ScanLine, TrimEnd, LineEnd, ValueOk;
    ValueParts(s, i);
    var d := ScanLine(s, i).at;
    var c := i + TrimEnd(s, Slice(i, d - i)).len;
    value, after, lf := s[i..c], s[c..d], s[d] == LF;
    LineIs(s, i);
    TrimmedBlanks(s, Slice(i, d - i));
    CutIsValue(s, i, c, d);
    EolIs(s, d);
    ThreeParts(s, i, c, d, Eol(lf));
    hide Eol;
  }

  lemma CutIsValue(s: seq<byte>, i: nat, c: nat, d: nat)
    requires i <= c <= d <= |s| && (c == i || !Blank(s[c - 1]))
    requires forall k | i <= k < d :: !EndsLineText(s[k])
    requires forall k | c <= k < d :: Blank(s[k])
    ensures ValueOk(s[i..c], s[c..d])
  {
  }

  lemma ThreeParts(s: seq<byte>, i: nat, c: nat, d: nat, end: seq<byte>)
    requires i <= c <= d && Holds(s, d, end)
    ensures Holds(s, i, s[i..c] + (s[c..d] + end))
  {
    var j := d + |end|;
    assert s[i..j] == s[i..c] + (s[c..d] + s[d..j]);
  }

  // ----- Names -----

  lemma NameParts(s: seq<byte>, i: nat)
    ensures var r := HeaderName(s, i);
            var a := ScanToken(s, i, COLON);
            && (r.Ok? <==> a.Ok? && a.at > i && SkipBlanks(s, a.at + 1).Ok?)
            && (r.Ok? ==> r.at == SkipBlanks(s, a.at + 1).at && r.value == Slice(i, a.at - i))
  {
    hide ScanToken, SkipBlanks;
  }

  lemma NameFound(s: seq<byte>, i: nat, name: seq<byte>, before: seq<byte>, rest: seq<byte>)
    requires Holds(s, i, name + ([COLON] + (before + rest))) && name != [] && AllName(name) && AllBlank(before)
    requires rest != [] && !Blank(rest[0])
    ensures HeaderName(s, i) == Ok(i + |name| + 1 + |before|, Slice(i, |name|))
    ensures Holds(s, i, name) && Holds(s, i + |name| + 1 + |before|, rest)
  {
    hide Holds, TokenChar, AllName, AllBlank, HeaderName, ScanToken, SkipBlanks, Blank;
    var a := i + |name|;
    var b := a + 1 + |before|;
    HoldsSplit(s, i, name, [COLON] + (before + rest));
    HoldsSplit(s, a, [COLON], before + rest);
    HoldsSplit(s, a + 1, before, rest);
    HoldsAt(s, a, [COLON], 0);
    HoldsAt(s, b, rest, 0);
    BlanksHeld(s, a + 1, before);
    NameScanned(s, i, name);
    BlanksFound(s, a + 1, b);
    NameParts(s, i);
  }

  lemma BlanksHeld(s: seq<byte>, i: nat, blanks: seq<byte>)
    requires Holds(s, i, blanks) && AllBlank(blanks)
    ensures forall k | i <= k < i + |blanks| :: Blank(s[k])
  {
    HoldsAll(s, i, blanks);
  }

  lemma NameScanned(s: seq<byte>, i: nat, name: seq<byte>)
    requires Holds(s, i, name) && AllName(name) && i + |name| < |s| && s[i + |name|] == COLON
    ensures ScanToken(s, i, COLON) == Ok(i + |name|, ())
  {
    HoldsAll(s, i, name);
    forall k | i <= k < i + |name| ensures TokenChar(s[k]) && s[k] != COLON {
      assert NameChar(name[k - i]);
      NameCharIsToken(s[k]);
    }
    hide Holds, TokenChar, NameChar, ScanToken;
    TokenFound(s, i, i + |name|, COLON);
  }

  lemma TokenIsName(s: seq<byte>, i: nat, stop: byte)
    requires ScanToken(s, i, stop).Ok?
    ensures AllName(s[i..ScanToken(s, i, stop).at])
  {
    TokenIs(s, i, stop);
    hide TokenChar, NameChar, ScanToken;
    var name := s[i..ScanToken(s, i, stop).at];
    forall k | 0 <= k < |name| ensures NameChar(name[k]) {
      NameCharIsToken(s[i + k]);
    }
  }

  lemma NameIs(s: seq<byte>, i: nat) returns (name: seq<byte>, before: seq<byte>)
    requires HeaderName(s, i).Ok?
    ensures var r := HeaderName(s, i);
            && name != [] && AllName(name) && AllBlank(before)
            && r.at == i + |name| + 1 + |before| && r.value == Slice(i, |name|)
            && Holds(s, i, name + ([COLON] + before)) && s[i..i + |name|] == name
            && r.at < |s| && !Blank(s[r.at])
  {
    hide HeaderName, ScanToken, SkipBlanks, AllName;
    NameParts(s, i);
    var a := ScanToken(s, i, COLON).at;
    var b := SkipBlanks(s, a + 1).at;
    name, before := s[i..a], s[a + 1..b];
    TokenIsName(s, i, COLON);
    BlanksAre(s, a + 1);
    assert s[i..b] == name + ([COLON] + before);
  }

  // ----- Lines -----

  /** A line in terms of its name and its value. */
  lemma LineParts(s: seq<byte>, i: nat, first: bool)
    requires i < |s|
    ensures var r := HeaderLine(s, i, first);
            if !first && Blank(s[i]) then
              var v := HeaderValue(s, i);
              (r.Ok? <==> v.Ok?) && (v.Ok? ==> r == Ok(v.at, Header(false, NO_NAME, v.value)))
            else
              var n := HeaderName(s, i);
              (r.Ok? <==> n.Ok? && HeaderValue(s, n.at).Ok?) &&
              (r.Ok? ==> r == Ok(HeaderValue(s, n.at).at, Header(true, n.value, HeaderValue(s, n.at).value)))
  {
    hide HeaderName, HeaderValue, HeaderInside;
  }

  lemma NotABlank(b: byte)
    requires NameChar(b)
    ensures !Blank(b) && b != CR && b != LF && b != SP
  {
    NameCharIsToken(b);
  }

  lemma NamedFoundAt(s: seq<byte>, i: nat, l: Line, first: bool) returns (h: Header)
    requires l.Named? && Holds(s, i, WriteLine(l)) && LineOk(l, first)
    ensures i < |s| && !AtLineEnd(s, i) && HeaderLine(s, i, first) == Ok(i + |WriteLine(l)|, h)
    ensures LineRead(s, h, l)
  {
    hide HeaderName, HeaderValue, HeaderLine, NameChar, WriteValue, ValueOk, AllName, AllBlank, Holds;
    var rest := WriteValue(l.value, l.after, l.lf);
    ValueFirst(l.value, l.after, l.lf);
    var b := i + |l.name| + 1 + |l.before|;
    NameFound(s, i, l.name, l.before, rest);
    ValueFound(s, b, l.value, l.after, l.lf);
    NameFirst(s, i, l.name);
    LineParts(s, i, first);
    h := Header(true, Slice(i, |l.name|), Slice(b, |l.value|));
    HoldsText(s, i, l.name);
    HoldsText(s, b, l.value);
  }

  lemma HoldsText(s: seq<byte>, i: nat, text: seq<byte>)
    requires Holds(s, i, text)
    ensures i + |text| <= |s| && Text(s, Slice(i, |text|)) == text
  {
  }

  lemma NameFirst(s: seq<byte>, i: nat, name: seq<byte>)
    requires Holds(s, i, name) && name != [] && AllName(name)
    ensures !Blank(s[i]) && !AtLineEnd(s, i)
  {
    HoldsAt(s, i, name, 0);
    NotABlank(s[i]);
  }

  lemma ValueFirst(value: seq<byte>, after: seq<byte>, lf: bool)
    requires if value == [] then after == [] else !White(value[0])
    ensures WriteValue(value, after, lf) != [] && !Blank(WriteValue(value, after, lf)[0])
  {
  }

  lemma ContinuedFoundAt(s: seq<byte>, i: nat, l: Line) returns (h: Header)
    requires l.Continued? && Holds(s, i, WriteLine(l)) && LineOk(l, false)
    ensures i < |s| && !AtLineEnd(s, i) && HeaderLine(s, i, false) == Ok(i + |WriteLine(l)|, h)
    ensures LineRead(s, h, l)
  {
    hide HeaderName, HeaderValue, HeaderLine, ValueOk, Holds;
    ValueFound(s, i, l.value, l.after, l.lf);
    assert WriteLine(l) == (l.value + l.after) + Eol(l.lf);
    HoldsAt(s, i, WriteLine(l), 0);
    assert s[i] == (l.value + l.after)[0];
    hide WriteValue, Eol;
    LineParts(s, i, false);
    h := Header(false, NO_NAME, Slice(i, |l.value|));
    HoldsText(s, i, l.value);
  }

  /** Where the parser finds a line. */
  lemma LineFoundAt(s: seq<byte>, i: nat, l: Line, first: bool) returns (h: Header)
    requires Holds(s, i, WriteLine(l)) && LineOk(l, first)
    ensures i < |s| && !AtLineEnd(s, i) && HeaderLine(s, i, first) == Ok(i + |WriteLine(l)|, h)
    ensures LineRead(s, h, l)
  {
    hide WriteLine, HeaderLine, LineRead;
    if l.Named? { h := NamedFoundAt(s, i, l, first); } else { h := ContinuedFoundAt(s, i, l); }
  }

  lemma LineIsContinued(s: seq<byte>, i: nat) returns (l: Line)
    requires i < |s| && Blank(s[i]) && HeaderLine(s, i, false).Ok?
    ensures var r := HeaderLine(s, i, false);
            LineOk(l, false) && Holds(s, i, WriteLine(l)) && r.at == i + |WriteLine(l)| && LineRead(s, r.value, l)
  {
    hide HeaderName, HeaderValue, HeaderLine;
    LineParts(s, i, false);
    var value, after, lf := ValueIs(s, i);
    l := Continued(value, after, lf);
    HoldsAt(s, i, WriteLine(l), 0);
    hide HeaderInside, ValueOk, Holds;
    assert value + after == [] ==> WriteLine(l) == Eol(lf);
    assert value + after != [] ==> s[i] == (value + after)[0];
  }

  lemma LineIsNamed(s: seq<byte>, i: nat, first: bool) returns (l: Line)
    requires i < |s| && !(!first && Blank(s[i])) && HeaderLine(s, i, first).Ok?
    ensures var r := HeaderLine(s, i, first);
            LineOk(l, first) && Holds(s, i, WriteLine(l)) && r.at == i + |WriteLine(l)| && LineRead(s, r.value, l)
  {
    hide HeaderName, HeaderValue, HeaderLine, NameChar, ValueOk, WriteValue;
    LineParts(s, i, first);
    var name, before := NameIs(s, i);
    var b := HeaderName(s, i).at;
    var value, after, lf := ValueIs(s, b);
    l := Named(name, before, value, after, lf);
    StopsAtValue(s, b, value, after, lf);
    HoldsBoth(s, i, name + ([COLON] + before), WriteValue(value, after, lf));
    assert WriteLine(l) == (name + ([COLON] + before)) + WriteValue(value, after, lf);
  }

  /** The value starts at the first octet that is not blank. */
  lemma StopsAtValue(s: seq<byte>, b: nat, value: seq<byte>, after: seq<byte>, lf: bool)
    requires Holds(s, b, WriteValue(value, after, lf)) && ValueOk(value, after) && !Blank(s[b])
    ensures if value == [] then after == [] else !White(value[0])
  {
    HoldsAt(s, b, WriteValue(value, after, lf), 0);
    hide Holds;
    assert value == [] ==> WriteValue(value, after, lf) == after + Eol(lf);
  }

  lemma LineIsOne(s: seq<byte>, i: nat, first: bool) returns (l: Line)
    requires i < |s| && HeaderLine(s, i, first).Ok?
    ensures var r := HeaderLine(s, i, first);
            LineOk(l, first) && Holds(s, i, WriteLine(l)) && r.at == i + |WriteLine(l)| && LineRead(s, r.value, l)
  {
    hide WriteLine, HeaderLine, LineRead, LineOk;
    if !first && Blank(s[i]) { l := LineIsContinued(s, i); } else { l := LineIsNamed(s, i, first); }
  }

  // ----- All lines -----

  lemma ReadCons(s: seq<byte>, h: Header, l: Line, hs: seq<Header>, ls: seq<Line>)
    requires LineRead(s, h, l) && AllRead(s, hs, ls)
    ensures AllRead(s, [h] + hs, [l] + ls)
  {
    hide LineRead;
  }

  lemma LinesOkCons(l: Line, ls: seq<Line>, first: bool)
    ensures LinesOk([l] + ls, first) <==> LineOk(l, first) && LinesOk(ls, false)
  {
    hide LineOk;
    var all := [l] + ls;
    assert all[0] == l && forall k | 0 <= k < |ls| :: all[k + 1] == ls[k];
    if LinesOk(all, first) {
      forall k | 0 <= k < |ls| ensures LineOk(ls[k], false) { assert LineOk(all[k + 1], first && k + 1 == 0); }
    }
  }

  lemma LinesTextCons(l: Line, ls: seq<Line>)
    ensures WriteLines([l] + ls) == WriteLine(l) + WriteLines(ls)
  {
    assert ([l] + ls)[1..] == ls;
  }

  /** Any spelling of header lines, ended by an empty line, is parsed back; one line more than there is room for is
      malformed. */
  lemma {:induction false} LinesFound(s: seq<byte>, i: nat, ls: seq<Line>, lf: bool, n: nat, max: nat) returns (hs: seq<Header>)
    requires Holds(s, i, WriteLines(ls) + Eol(lf)) && LinesOk(ls, n == 0) && n <= max
    ensures n + |ls| <= max ==> HeaderLines(s, i, n, max) == Ok(i + |WriteLines(ls)| + |Eol(lf)|, hs) && AllRead(s, hs, ls)
    ensures n + |ls| > max ==> HeaderLines(s, i, n, max) == Bad
    decreases |ls|
  {
    hide HeaderLine, HeaderLines, LineOk, WriteLine, WriteLines, LineRead, Eol, LinesOk;
    hs := [];
    if ls == [] {
      NoLines(s, i, lf, n, max);
    } else {
      var l, rest := ls[0], ls[1..];
      assert ls == [l] + rest;
      LinesOkCons(l, rest, n == 0);
      LinesTextCons(l, rest);
      assert (WriteLine(l) + WriteLines(rest)) + Eol(lf) == WriteLine(l) + (WriteLines(rest) + Eol(lf));
      HoldsSplit(s, i, WriteLine(l), WriteLines(rest) + Eol(lf));
      var h := LineFoundAt(s, i, l, n == 0);
      if n < max {
        var tail := LinesFound(s, i + |WriteLine(l)|, rest, lf, n + 1, max);
        hs := [h] + tail;
        OneLineOn(s, i, n, max);
        if n + |ls| <= max { ReadCons(s, h, l, tail, rest); }
      } else {
        TooMany(s, i, n);
      }
    }
  }

  lemma NoLines(s: seq<byte>, i: nat, lf: bool, n: nat, max: nat)
    requires Holds(s, i, WriteLines([]) + Eol(lf))
    ensures HeaderLines(s, i, n, max) == Ok(i + |WriteLines([])| + |Eol(lf)|, []) && AllRead(s, [], [])
  {
    assert WriteLines([]) + Eol(lf) == Eol(lf);
    EolFound(s, i, lf);
  }

  lemma OneLineOn(s: seq<byte>, i: nat, n: nat, max: nat)
    requires i < |s| && !AtLineEnd(s, i) && n != max && HeaderLine(s, i, n == 0).Ok?
    ensures var r := HeaderLine(s, i, n == 0);
            var rest := HeaderLines(s, r.at, n + 1, max);
            HeaderLines(s, i, n, max) == if rest.Ok? then Ok(rest.at, [r.value] + rest.value) else rest
  {
    hide HeaderLine;
  }

  lemma TooMany(s: seq<byte>, i: nat, n: nat)
    requires i < |s| && !AtLineEnd(s, i)
    ensures HeaderLines(s, i, n, n) == Bad
  {
  }

  /** What is parsed as header lines is a spelling of header lines. */
  lemma {:induction false} LinesAre(s: seq<byte>, i: nat, n: nat, max: nat) returns (ls: seq<Line>, lf: bool)
    requires HeaderLines(s, i, n, max).Ok?
    ensures var r := HeaderLines(s, i, n, max);
            && LinesOk(ls, n == 0) && Holds(s, i, WriteLines(ls) + Eol(lf))
            && r.at == i + |WriteLines(ls)| + |Eol(lf)| && AllRead(s, r.value, ls)
    decreases |s| - i
  {
    hide HeaderLine, HeaderLines, LineOk, WriteLine, WriteLines, LineRead, Eol, LinesOk, AllRead, Holds, AtLineEnd;
    if AtLineEnd(s, i) {
      ls, lf := [], s[i] == LF;
      EmptyLineIs(s, i, n, max);
    } else {
      OneLineGone(s, i, n, max);
      var r := HeaderLine(s, i, n == 0);
      OneLineOn(s, i, n, max);
      var l := LineIsOne(s, i, n == 0);
      var rest;
      rest, lf := LinesAre(s, r.at, n + 1, max);
      ls := [l] + rest;
      LinesOkCons(l, rest, n == 0);
      LinesTextCons(l, rest);
      ReadCons(s, r.value, l, HeaderLines(s, r.at, n + 1, max).value, rest);
      HoldsBoth(s, i, WriteLine(l), WriteLines(rest) + Eol(lf));
      assert WriteLine(l) + (WriteLines(rest) + Eol(lf)) == WriteLines(ls) + Eol(lf);
    }
  }

  lemma HoldsBoth(s: seq<byte>, i: nat, a: seq<byte>, b: seq<byte>)
    requires Holds(s, i, a) && Holds(s, i + |a|, b)
    ensures Holds(s, i, a + b)
  {
    var j, k := i + |a|, i + |a| + |b|;
    assert s[i..k] == s[i..j] + s[j..k];
  }

  lemma EmptyLineIs(s: seq<byte>, i: nat, n: nat, max: nat)
    requires HeaderLines(s, i, n, max).Ok? && AtLineEnd(s, i)
    ensures var r, lf := HeaderLines(s, i, n, max), s[i] == LF;
            && LinesOk([], n == 0) && Holds(s, i, WriteLines([]) + Eol(lf))
            && r.at == i + |WriteLines([])| + |Eol(lf)| && r.value == [] && AllRead(s, [], [])
  {
    EolIs(s, i);
    assert WriteLines([]) + Eol(s[i] == LF) == Eol(s[i] == LF);
  }

  lemma OneLineGone(s: seq<byte>, i: nat, n: nat, max: nat)
    requires HeaderLines(s, i, n, max).Ok? && !AtLineEnd(s, i)
    ensures i < |s| && n != max && HeaderLine(s, i, n == 0).Ok?
    ensures HeaderLines(s, HeaderLine(s, i, n == 0).at, n + 1, max).Ok?
  {
    hide HeaderLine;
  }
}
