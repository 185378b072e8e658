/** The octet at which the gate opens for a request that comes in piece by piece. */
module HttpGate {
  import opened Bytes
  import opened HttpGrammar
  import opened HttpMessages
  import opened HttpRequests
  import opened HttpSpelling
  import HttpNumbers
  import HttpResponse
  import Stability = HttpStability

  // ----- Names in any case -----

  /** The same octet, or the same letter large and small. */
  predicate SameLetter(a: byte, b: byte) {
    || a == b
    || ('A' as int <= a <= 'Z' as int && b == a + 32)
    || ('A' as int <= b <= 'Z' as int && a == b + 32)
  }

  predicate InAnyCase(a: seq<byte>, b: seq<byte>) {
    |a| == |b| && forall k | 0 <= k < |a| :: SameLetter(a[k], b[k])
  }

  /** Folding case tells exactly the names apart that differ in more than case. */
  lemma CaseIsFolded(a: seq<byte>, b: seq<byte>)
    ensures SameIgnoringCase(a, b) <==> InAnyCase(a, b)
  {
    assert forall x: byte, y: byte :: Lower(x) == Lower(y) <==> SameLetter(x, y);
    hide Lower, SameLetter;
  }

  // ----- What a request asks for -----

  predicate IsLength(l: Line) {
    l.Named? && InAnyCase(l.name, Ascii("content-length"))
  }

  /** The number in the first Content-Length, of which 23 octets are read; 0 if there is none. */
  function FirstLength(ls: seq<Line>): int {
    if ls == [] then 0
    else if IsLength(ls[0]) then Strtol(if |ls[0].value| < 23 then ls[0].value else ls[0].value[..23])
    else FirstLength(ls[1..])
  }

  /** How many octets of body the request is to wait for: those a POST announces. */
  function Asked(q: Spelling): nat {
    if q.start.verb == Ascii("POST") && FirstLength(q.lines) > 0 then FirstLength(q.lines) else 0
  }

  lemma NamesSpelled()
    ensures CONTENT_LENGTH == Ascii("content-length") && HttpRequests.POST == Ascii("POST")
  {
  }

  lemma LineIsLength(s: seq<byte>, h: Header, l: Line)
    requires LineRead(s, h, l)
    ensures HeaderInside(h, 0, |s|) && (IsContentLength(s, h) <==> IsLength(l))
    ensures IsLength(l) ==> LengthOf(s, h) == FirstLength([l])
  {
    NamesSpelled();
    if h.hasName { CaseIsFolded(Text(s, h.name), CONTENT_LENGTH); }
    hide Ascii, SameIgnoringCase, InAnyCase, Strtol;
    assert h.value.len >= 23 ==> Text(s, h.value.(len := 23)) == Text(s, h.value)[..23];
  }

  lemma {:induction false} LengthRead(s: seq<byte>, hs: seq<Header>, ls: seq<Line>)
    requires AllRead(s, hs, ls)
    ensures AllInside(s, hs)
    ensures match ContentLength(s, hs)
            case Absent => FirstLength(ls) == 0
            case Length(n) => FirstLength(ls) == n
    decreases |ls|
  {
    hide LineRead, IsContentLength, IsLength, Strtol, HeaderInside, LengthOf;
    if ls != [] {
      LineIsLength(s, hs[0], ls[0]);
      assert LineRead(s, hs[0], ls[0]);
      forall k | 0 <= k < |hs| - 1 ensures LineRead(s, hs[1..][k], ls[1..][k]) {
        assert LineRead(s, hs[k + 1], ls[k + 1]);
      }
      LengthRead(s, hs[1..], ls[1..]);
      assert forall k | 1 <= k < |hs| :: hs[k] == hs[1..][k - 1];
    }
  }

  // ----- When the gate opens -----

  /** With the whole head there, what matters is how much of the body is. */
  lemma HeadThere(q: Spelling, body: seq<byte>)
    requires SpellingOk(q) && |q.lines| <= MAX_HEADERS
    ensures Complete(WriteRequest(q) + body) <==> |body| >= Asked(q)
  {
    var s := WriteRequest(q) + body;
    SpelledIsParsed(q, body, MAX_HEADERS);
    ParsedInside(s);
    hide SpellingOk, WriteRequest, ParseRequest, AllRead, ContentLength, FirstLength, Ascii;
    NamesSpelled();
    LengthRead(s, ParseRequest(s, MAX_HEADERS).value.headers, q.lines);
  }

  lemma CutIsPartial(text: seq<byte>, m: nat)
    requires ParseRequest(text, MAX_HEADERS).Ok? && m < ParseRequest(text, MAX_HEADERS).at == |text|
    ensures ParseRequest(text[..m], MAX_HEADERS) == Partial
  {
    hide ParseRequest;
    assert text[..m] + text[m..] == text;
    Stability.RequestStable(text[..m], text[m..], MAX_HEADERS);
  }

  lemma PartialWaits(s: seq<byte>)
    requires ParseRequest(s, MAX_HEADERS) == Partial
    ensures !Complete(s)
  {
    hide ParseRequest;
  }

  /** With part of the head missing, nothing is decided. */
  lemma HeadCut(q: Spelling, m: nat)
    requires SpellingOk(q) && |q.lines| <= MAX_HEADERS && m < |WriteRequest(q)|
    ensures ParseRequest(WriteRequest(q)[..m], MAX_HEADERS) == Partial && !Complete(WriteRequest(q)[..m])
  {
    StartMinor(q);
    hide WriteRequest, SpellingOk, ParseRequest, RequestRead, Complete;
    SpelledIsParsed(q, [], MAX_HEADERS);
    assert WriteRequest(q) + [] == WriteRequest(q);
    CutIsPartial(WriteRequest(q), m);
    PartialWaits(WriteRequest(q)[..m]);
  }

  /** However a request comes in, the gate is shut before the last octet of its head and of the body it asks for, and
      open from there on. */
  lemma GateOpensAt(q: Spelling, body: seq<byte>, m: nat)
    requires SpellingOk(q) && |q.lines| <= MAX_HEADERS && m <= |WriteRequest(q)| + |body|
    ensures Complete((WriteRequest(q) + body)[..m]) <==> m >= |WriteRequest(q)| + Asked(q)
  {
    var text := WriteRequest(q);
    hide WriteRequest, SpellingOk, Complete, Asked;
    if m < |text| {
      HeadCut(q, m);
      assert (text + body)[..m] == text[..m];
    } else {
      HeadThere(q, body[..m - |text|]);
      assert (text + body)[..m] == text + body[..m - |text|];
    }
  }

  /** What a printed number in the first Content-Length asks for. */
  lemma PrintedLengthAsked(q: Spelling, k: nat, n: nat)
    requires q.start.verb == Ascii("POST") && k < |q.lines| && n <= 0x7fff_ffff_ffff_ffff
    requires q.lines[k].Named? && InAnyCase(q.lines[k].name, Ascii("Content-Length"))
    requires q.lines[k].value == HttpResponse.Decimal(n)
    requires forall j | 0 <= j < k :: q.lines[j].Named? ==> !InAnyCase(q.lines[j].name, Ascii("Content-Length"))
    ensures Asked(q) == n
  {
    HttpNumbers.PrintedIsRead(n);
    LargeAndSmall();
    hide Ascii, InAnyCase, Strtol, HttpResponse.Decimal;
    FirstLengthAt(q.lines, k);
  }

  lemma LargeAndSmall()
    ensures forall a :: InAnyCase(a, Ascii("Content-Length")) <==> InAnyCase(a, Ascii("content-length"))
  {
    var c, l := Ascii("Content-Length"), Ascii("content-length");
    assert forall k | 0 <= k < |c| :: SameLetter(c[k], l[k]);
  }

  lemma {:induction false} FirstLengthAt(ls: seq<Line>, k: nat)
    requires k < |ls| && IsLength(ls[k]) && forall j | 0 <= j < k :: !IsLength(ls[j])
    ensures FirstLength(ls) == Strtol(if |ls[k].value| < 23 then ls[k].value else ls[k].value[..23])
    decreases k
  {
    hide IsLength, Strtol;
    if k > 0 { FirstLengthAt(ls[1..], k - 1); }
  }
}
