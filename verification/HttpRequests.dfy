/** When an accumulated buffer is handed on, and what the handler is then given. */
module HttpRequests {
  import opened Bytes
  import opened HttpGrammar
  import HttpParser
  import Stability = HttpStability

  const MAX_HEADERS := 32
  const MAX_NUMBER_LEN := 24

  const POST: seq<byte> := [0x50, 0x4f, 0x53, 0x54]
  /** content-length */
  const CONTENT_LENGTH: seq<byte> :=
    [0x63, 0x6f, 0x6e, 0x74, 0x65, 0x6e, 0x74, 0x2d, 0x6c, 0x65, 0x6e, 0x67, 0x74, 0x68]

  const LONG_MAX := 0x7fff_ffff_ffff_ffff
  const LONG_MIN := -0x8000_0000_0000_0000

  function Lower(b: byte): byte {
    if 'A' as int <= b <= 'Z' as int then b + 32 else b
  }

  predicate SameIgnoringCase(a: seq<byte>, b: seq<byte>) {
    |a| == |b| && forall k | 0 <= k < |a| :: Lower(a[k]) == Lower(b[k])
  }

  // ----- strtol, base 10, on a buffer padded with NULs -----

  predicate White(b: byte) { b == SP || 9 <= b <= 13 }

  function Digits(v: seq<byte>, acc: nat): nat {
    if v == [] || !IsDigit(v[0]) then acc else Digits(v[1..], 10 * acc + (v[0] - '0' as int))
  }

  function Clamp(n: int): int {
    if n > LONG_MAX then LONG_MAX else if n < LONG_MIN then LONG_MIN else n
  }

  function Strtol(v: seq<byte>): int {
    if v == [] then 0
    else if White(v[0]) then Strtol(v[1..])
    else if v[0] == '-' as int then Clamp(0 - Digits(v[1..], 0))
    else if v[0] == '+' as int then Clamp(Digits(v[1..], 0))
    else Clamp(Digits(v, 0))
  }

  // ----- The gate -----

  /** The value of the first Content-Length field, read through a buffer of MAX_NUMBER_LEN - 1 octets. */
  datatype MaybeLength = Absent | Length(value: int)

  predicate IsContentLength(s: seq<byte>, h: Header)
    requires HeaderInside(h, 0, |s|)
  {
    h.hasName && SameIgnoringCase(Text(s, h.name), CONTENT_LENGTH)
  }

  function LengthOf(s: seq<byte>, h: Header): int
    requires HeaderInside(h, 0, |s|)
  {
    Strtol(Text(s, h.value.(len := if h.value.len < MAX_NUMBER_LEN - 1 then h.value.len else MAX_NUMBER_LEN - 1)))
  }

  ghost predicate AllInside(s: seq<byte>, hs: seq<Header>) {
    forall k | 0 <= k < |hs| :: HeaderInside(hs[k], 0, |s|)
  }

  function ContentLength(s: seq<byte>, hs: seq<Header>): MaybeLength
    requires AllInside(s, hs)
  {
    if hs == [] then Absent
    else if IsContentLength(s, hs[0]) then Length(LengthOf(s, hs[0]))
    else ContentLength(s, hs[1..])
  }

  predicate IsPost(s: seq<byte>, q: Request)
    requires Inside(q.verb, 0, |s|)
  {
    Text(s, q.verb) == POST
  }

  /** The number of body octets a well-formed request still has to wait for; 0 when nothing asks for a body. */
  function BodyNeeded(s: seq<byte>, q: Request): nat
    requires Inside(q.verb, 0, |s|) && AllInside(s, q.headers)
  {
    if !IsPost(s, q) then 0
    else match ContentLength(s, q.headers)
         case Absent => 0
         case Length(n) => if n <= 0 then 0 else n
  }

  lemma ParsedInside(s: seq<byte>)
    ensures var p := ParseRequest(s, MAX_HEADERS);
            p.Ok? ==> Inside(p.value.verb, 0, |s|) && AllInside(s, p.value.headers)
  {
    hide ParseRequest;
    Stability.RequestSlicesInside(s, MAX_HEADERS);
  }

  /** A buffer is complete when it is malformed, or its head is there and so is the body it announces. */
  ghost predicate Complete(s: seq<byte>) {
    var p := ParseRequest(s, MAX_HEADERS);
    ParsedInside(s);
    p.Bad? || (p.Ok? && BodyNeeded(s, p.value) <= |s| - p.at)
  }

  // ----- What the gate promises -----

  lemma {:induction false} ContentLengthExtends(s: seq<byte>, t: seq<byte>, hs: seq<Header>)
    requires AllInside(s, hs)
    ensures AllInside(s + t, hs) && ContentLength(s + t, hs) == ContentLength(s, hs)
    decreases |hs|
  {
    if hs != [] {
      ContentLengthExtends(s, t, hs[1..]);
      var h := hs[0];
      assert Text(s + t, h.name) == Text(s, h.name) by { if !h.hasName { assert h.name == NO_NAME; } }
      var v := h.value.(len := if h.value.len < MAX_NUMBER_LEN - 1 then h.value.len else MAX_NUMBER_LEN - 1);
      assert Text(s + t, v) == Text(s, v);
    }
  }

  /** Once complete, always complete: more octets never take it back. */
  lemma CompleteIsMonotone(s: seq<byte>, t: seq<byte>)
    ensures Complete(s) ==> Complete(s + t)
  {
    hide ParseRequest, ContentLength;
    if Complete(s) {
      var p := ParseRequest(s, MAX_HEADERS);
      Stability.RequestStable(s, t, MAX_HEADERS);
      if p.Ok? {
        ParsedInside(s);
        ParsedInside(s + t);
        ContentLengthExtends(s, t, p.value.headers);
        assert Text(s + t, p.value.verb) == Text(s, p.value.verb);
      }
    }
  }

  /** While octets are held back nothing was malformed and nothing complete, at any earlier point of the stream
      either: what is malformed gets through to be refused, however much follows it. */
  lemma HeldBackNeverMalformed(s: seq<byte>, more: seq<byte>)
    ensures !Complete(s + more) ==>
              !Complete(s) && !ParseRequest(s, MAX_HEADERS).Bad? && !ParseRequest(s + more, MAX_HEADERS).Bad?
  {
    hide ParseRequest, ContentLength;
    CompleteIsMonotone(s, more);
    ParsedInside(s);
    ParsedInside(s + more);
  }

  // ----- What the handler is given -----

  /** The path without its query, and the octets after the head. */
  datatype Handed = Handed(request: Request, body: Slice)

  function FindByte(s: seq<byte>, x: Slice, b: byte): (k: nat)
    requires x.start + x.len <= |s|
    ensures k <= x.len && (k < x.len ==> s[x.start + k] == b)
    ensures forall j | x.start <= j < x.start + k :: s[j] != b
    decreases x.len
  {
    if x.len == 0 || s[x.start] == b then 0 else 1 + FindByte(s, Slice(x.start + 1, x.len - 1), b)
  }

  /** The first Content-Length of a well-formed POST; 0 when there is none or it is not positive. */
  function Announced(s: seq<byte>): nat {
    var p := ParseRequest(s, MAX_HEADERS);
    ParsedInside(s);
    if p.Ok? then BodyNeeded(s, p.value) else 0
  }

  // ----- The loops -----

  method LowerCaseEqual(buf: seq<byte>, x: Slice, name: seq<byte>) returns (same: bool)
    requires x.start + x.len <= |buf| && x.len == |name|
    ensures same <==> SameIgnoringCase(Text(buf, x), name)
  {
    var k := 0;
    while k < x.len
      invariant k <= x.len && forall j | 0 <= j < k :: Lower(Text(buf, x)[j]) == Lower(name[j])
    {
      if Lower(buf[x.start + k]) != Lower(name[k]) {
        assert Text(buf, x)[k] == buf[x.start + k];
        return false;
      }
      k := k + 1;
    }
    same := true;
  }

  method ReadDigits(v: seq<byte>, start: nat) returns (n: nat)
    requires start <= |v|
    ensures n == Digits(v[start..], 0)
  {
    var at := start;
    n := 0;
    while at < |v| && IsDigit(v[at])
      invariant start <= at <= |v| && Digits(v[start..], 0) == Digits(v[at..], n)
    {
      assert v[at..][1..] == v[at + 1..];
      n := 10 * n + (v[at] - '0' as int);
      at := at + 1;
    }
  }

  method ReadLong(v: seq<byte>) returns (n: int)
    ensures n == Strtol(v)
  {
    var at := 0;
    assert v[0..] == v;
    while at < |v| && White(v[at])
      invariant at <= |v| && Strtol(v) == Strtol(v[at..])
    {
      assert v[at..][1..] == v[at + 1..];
      at := at + 1;
    }
    if at == |v| { return 0; }
    var sign := v[at];
    if sign == '-' as int || sign == '+' as int {
      assert v[at..][1..] == v[at + 1..];
      at := at + 1;
    }
    var d := ReadDigits(v, at);
    n := d;
    n := Clamp(if sign == '-' as int then -n else n);
  }

  method IsRequestComplete(buf: seq<byte>) returns (complete: bool)
    ensures complete <==> Complete(buf)
  {
    hide HttpGrammar.ParseRequest, SameIgnoringCase, Strtol, HeaderInside;
    ParsedInside(buf);
    var headers := new Header[MAX_HEADERS](i => Header(false, NO_NAME, NO_NAME));
    var r, n := HttpParser.ParseRequest(buf, headers, MAX_HEADERS, 0);
    if r.Partial? { return false; }
    if r.Bad? { return true; }
    ghost var hs := HttpGrammar.ParseRequest(buf, MAX_HEADERS).value.headers;
    if Text(buf, r.value.verb) != POST { return true; }
    var i := 0;
    assert hs[0..] == hs;
    while i < n
      invariant i <= n == |hs| && headers[..n] == hs
      invariant AllInside(buf, hs) && ContentLength(buf, hs) == ContentLength(buf, hs[i..])
    {
      assert headers[i] == hs[i];
      assert hs[i..][1..] == hs[i + 1..];
      var h := headers[i];
      assert HeaderInside(h, 0, |buf|);
      NameInside(h, |buf|);
      if h.name.len != 14 { NotFourteen(buf, h); i := i + 1; continue; }
      var same := LowerCaseEqual(buf, h.name, CONTENT_LENGTH);
      if !same { i := i + 1; continue; }
      var vlen := if h.value.len < MAX_NUMBER_LEN - 1 then h.value.len else MAX_NUMBER_LEN - 1;
      var cl := ReadLong(Text(buf, h.value.(len := vlen)));
      if cl <= 0 { break; }
      return |buf| - r.at >= cl;
    }
    complete := true;
  }

  lemma NameInside(h: Header, n: nat)
    requires HeaderInside(h, 0, n)
    ensures h.name.start + h.name.len <= n && h.value.start + h.value.len <= n
    ensures h.name.len != 0 ==> h.hasName
  {
  }

  lemma NotFourteen(s: seq<byte>, h: Header)
    requires HeaderInside(h, 0, |s|) && h.name.len != 14
    ensures !IsContentLength(s, h)
  {
  }

  /** The head parsed once more, the query cut off the path, the body located. */
  method RequestParse(raw: seq<byte>, headers: array<Header>) returns (ok: bool, h: Handed, n: nat)
    requires headers.Length >= MAX_HEADERS
    modifies headers
    ensures var p := HttpGrammar.ParseRequest(raw, MAX_HEADERS);
            && (ok <==> p.Ok?)
            && (ok ==>
                  && n == |p.value.headers| && headers[..n] == p.value.headers
                  && h.request.verb == p.value.verb && h.request.minor == p.value.minor
                  && h.request.path == p.value.path.(len := FindByte(raw, p.value.path, '?' as int))
                  && (if |raw| > p.at then h.body == Slice(p.at, |raw| - p.at) else h.body.len == 0))
    ensures ok ==>
              var path, cut := HttpGrammar.ParseRequest(raw, MAX_HEADERS).value.path, h.request.path;
              && cut.start == path.start && cut.len <= path.len
              && (forall k | cut.start <= k < cut.start + cut.len :: raw[k] != '?' as int)
              && (cut.len < path.len ==> raw[cut.start + cut.len] == '?' as int)
  {
    hide HttpGrammar.ParseRequest;
    h := Handed(Request(NO_NAME, NO_NAME, 0, []), NO_NAME);
    var r;
    r, n := HttpParser.ParseRequest(raw, headers, MAX_HEADERS, 0);
    if !r.Ok? { return false, h, n; }
    var path := r.value.path;
    var k := 0;
    while k < path.len && raw[path.start + k] != '?' as int
      invariant k <= path.len
      invariant FindByte(raw, path, '?' as int) == k + FindByte(raw, Slice(path.start + k, path.len - k), '?' as int)
    {
      k := k + 1;
    }
    h := Handed(r.value.(path := path.(len := k)), NO_NAME);
    if |raw| > r.at { h := h.(body := Slice(r.at, |raw| - r.at)); }
    ok := true;
  }

  /** What the server does with the octets so far: hold them back, refuse them, or hand a request on.  It refuses
      exactly what is malformed, and hands a request on with the whole body it announced. */
  method TakeRequest(raw: seq<byte>, headers: array<Header>) returns (complete: bool, ok: bool, h: Handed, n: nat)
    requires headers.Length >= MAX_HEADERS
    modifies headers
    ensures var p := HttpGrammar.ParseRequest(raw, MAX_HEADERS);
            && (complete && !ok <==> p.Bad?)
            && (complete && ok ==> p.Ok? && n == |p.value.headers| && headers[..n] == p.value.headers)
            && (complete && ok && Announced(raw) > 0 ==> h.body.start == p.at && h.body.len >= Announced(raw))
            && (!complete && p.Ok? ==> |raw| - p.at < Announced(raw))
  {
    hide HttpGrammar.ParseRequest, BodyNeeded;
    h, n, ok := Handed(Request(NO_NAME, NO_NAME, 0, []), NO_NAME), 0, false;
    complete := IsRequestComplete(raw);
    if !complete { return; }
    ok, h, n := RequestParse(raw, headers);
  }
}
