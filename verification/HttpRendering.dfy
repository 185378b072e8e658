/** What a client finds in a rendered response: the parser, the header names and the number reader of the server itself. */
module HttpRendering {
  import opened Bytes
  import opened HttpGrammar
  import opened HttpResponse
  import opened HttpRoundTrip
  import opened Options
  import HttpNumbers
  import HttpRequests

  // ----- Looking up a header -----

  predicate Named(s: seq<byte>, h: Header, name: seq<byte>)
    requires HeaderInside(h, 0, |s|)
  {
    h.hasName && HttpRequests.SameIgnoringCase(Text(s, h.name), name)
  }

  /** The value of the first header with this name, in any case. */
  function FirstValue(s: seq<byte>, hs: seq<Header>, name: seq<byte>): Option<seq<byte>>
    requires HttpRequests.AllInside(s, hs)
  {
    if hs == [] then None
    else if Named(s, hs[0], name) then Some(Text(s, hs[0].value))
    else FirstValue(s, hs[1..], name)
  }

  /** The gate takes the first Content-Length and reads as much of it as its buffer takes. */
  lemma {:induction false} LengthIsFirst(s: seq<byte>, hs: seq<Header>)
    requires HttpRequests.AllInside(s, hs)
    ensures HttpRequests.ContentLength(s, hs) ==
            match FirstValue(s, hs, Ascii("content-length"))
            case None => HttpRequests.Absent
            case Some(v) => HttpRequests.Length(HttpRequests.Strtol(if |v| < 23 then v else v[..23]))
    decreases |hs|
  {
    hide Ascii, HttpRequests.Strtol, HttpRequests.SameIgnoringCase;
    SpelledOut();
    if hs != [] {
      LengthIsFirst(s, hs[1..]);
      FirstOctets(s, hs[0]);
      hide HttpRequests.LengthOf;
    }
  }

  lemma FirstOctets(s: seq<byte>, h: Header)
    requires HeaderInside(h, 0, |s|)
    ensures var v := Text(s, h.value); HttpRequests.LengthOf(s, h) == HttpRequests.Strtol(if |v| < 23 then v else v[..23])
  {
    var v := Text(s, h.value);
    assert h.value.len >= 23 ==> Text(s, h.value.(len := 23)) == v[..23];
  }

  lemma SpelledOut()
    ensures HttpRequests.CONTENT_LENGTH == Ascii("content-length") && HttpRequests.POST == Ascii("POST")
  {
  }

  lemma {:induction false} FirstFound(s: seq<byte>, hs: seq<Header>, name: seq<byte>, k: nat)
    requires HttpRequests.AllInside(s, hs) && k <= |hs|
    requires forall j | 0 <= j < k :: !Named(s, hs[j], name)
    requires k < |hs| ==> Named(s, hs[k], name)
    ensures FirstValue(s, hs, name) == if k < |hs| then Some(Text(s, hs[k].value)) else None
    decreases k
  {
    hide Named, HeaderInside;
    if k > 0 {
      assert HttpRequests.AllInside(s, hs[1..]);
      FirstFound(s, hs[1..], name, k - 1);
    }
  }

  // ----- What is found -----

  /** The phrases of section 6 of RFC 7231 the server knows. */
  const PHRASES: map<int, string> := map[
    302 := "Found", 400 := "Bad Request", 401 := "Unauthorized", 403 := "Forbidden", 404 := "Not Found",
    405 := "Method Not Allowed", 429 := "Too Many Requests", 500 := "Internal Server Error"]

  /** The type of a body from its first character. */
  function TypeOf(body: seq<byte>): string {
    if body == [] then "text/plain; charset=utf-8"
    else if body[0] == '<' as int then "text/html; charset=utf-8"
    else if body[0] == '{' as int || body[0] == '[' as int then "application/json"
    else "text/plain; charset=utf-8"
  }

  function Given(v: seq<byte>): Option<seq<byte>> {
    if v == [] then None else Some(v)
  }

  /** The octets are a response with this status and its phrase; behind the head comes the body, nothing for a
      redirect; Content-Length is what the gate's own reader takes for the number of octets there; Connection says whether
      it is kept; the type is the one given, or goes by the body; cookie and location are there if they were given. */
  ghost predicate Means(s: seq<byte>, r: HttpResponse.Response, keepAlive: bool) {
    var p := ParseResponse(s, 6);
    && p.Ok? && p.value.minor == 1 && p.value.status == r.statusCode
    && Text(s, p.value.msg) == Ascii(if r.statusCode in PHRASES then PHRASES[r.statusCode] else "OK")
    && s[p.at..] == (if r.statusCode != 302 && r.bodyLen <= |r.body| then r.body[..r.bodyLen] else [])
    && HttpRequests.AllInside(s, p.value.headers)
    && var hs := p.value.headers;
       && (|s| - p.at <= 0x7fff_ffff_ffff_ffff ==>
             HttpRequests.ContentLength(s, hs) == HttpRequests.Length(|s| - p.at))
       && FirstValue(s, hs, Ascii("connection")) == Some(if keepAlive then Ascii("keep-alive") else Ascii("close"))
       && FirstValue(s, hs, Ascii("content-type")) == Some(if r.contentType != [] then r.contentType else Ascii(TypeOf(r.body)))
       && FirstValue(s, hs, Ascii("set-cookie")) == Given(r.setCookie)
       && FirstValue(s, hs, Ascii("location")) == Given(r.location)
  }

  lemma NamesApart(a: string, b: string)
    requires |a| != |b| || (a != "" && 'a' <= a[0] <= 'z' && 'A' <= b[0] <= 'Z' && a[0] as int != b[0] as int + 32)
    ensures !HttpRequests.SameIgnoringCase(Ascii(b), Ascii(a))
  {
    assert |a| == |b| ==> HttpRequests.Lower(Ascii(b)[0]) != HttpRequests.Lower(Ascii(a)[0]);
  }

  lemma NamesAlike(a: string, b: string)
    requires |a| == |b|
    requires forall k | 0 <= k < |a| :: a[k] < 128 as char && (a[k] == b[k] || ('A' <= b[k] <= 'Z' && a[k] as int == b[k] as int + 32))
    requires forall k | 0 <= k < |a| :: !('A' <= a[k] <= 'Z')
    ensures HttpRequests.SameIgnoringCase(Ascii(b), Ascii(a))
  {
  }

  lemma PhraseIs(code: int)
    ensures StatusMessage(code) == Ascii(if code in PHRASES then PHRASES[code] else "OK")
  {
  }

  /** Names and values of the fields printed, by position. */
  lemma FieldsPrinted(r: HttpResponse.Response, keepAlive: bool)
    ensures var fs := Fields(r, keepAlive);
            && 4 <= |fs| <= 6
            && fs[0] == Field(Ascii("Content-Type"), if r.contentType != [] then r.contentType else Ascii(TypeOf(r.body)))
            && fs[1] == Field(Ascii("Content-Length"), Decimal(BodyLen(r)))
            && fs[2] == Field(Ascii("Connection"), if keepAlive then Ascii("keep-alive") else Ascii("close"))
            && fs[3].name == Ascii("Access-Control-Allow-Origin")
            && (r.setCookie != [] ==> |fs| > 4 && fs[4] == Field(Ascii("Set-Cookie"), r.setCookie))
            && (r.setCookie == [] && r.location != [] ==> |fs| == 5 && fs[4] == Field(Ascii("Location"), r.location))
            && (r.setCookie != [] && r.location != [] ==> |fs| == 6 && fs[5] == Field(Ascii("Location"), r.location))
            && (r.setCookie == [] && r.location == [] ==> |fs| == 4)
            && (r.setCookie != [] && r.location == [] ==> |fs| == 5)
  {
    hide Ascii, Decimal, BodyLen;
  }

  /** Which of the printed names is which. */
  lemma NamesTold()
    ensures HttpRequests.SameIgnoringCase(Ascii("Content-Type"), Ascii("content-type"))
    ensures HttpRequests.SameIgnoringCase(Ascii("Content-Length"), Ascii("content-length"))
    ensures HttpRequests.SameIgnoringCase(Ascii("Connection"), Ascii("connection"))
    ensures HttpRequests.SameIgnoringCase(Ascii("Set-Cookie"), Ascii("set-cookie"))
    ensures HttpRequests.SameIgnoringCase(Ascii("Location"), Ascii("location"))
    ensures !HttpRequests.SameIgnoringCase(Ascii("Set-Cookie"), Ascii("connection"))
    ensures !HttpRequests.SameIgnoringCase(Ascii("Connection"), Ascii("set-cookie"))
  {
    hide HttpRequests.SameIgnoringCase, Ascii;
    NamesAlike("content-type", "Content-Type");
    NamesAlike("content-length", "Content-Length");
    NamesAlike("connection", "Connection");
    NamesAlike("set-cookie", "Set-Cookie");
    NamesAlike("location", "Location");
    NamesApart("connection", "Set-Cookie");
    NamesApart("set-cookie", "Connection");
  }

  lemma ReadNamed(s: seq<byte>, h: Header, f: Field, name: seq<byte>)
    requires Reads(s, h, f)
    ensures HeaderInside(h, 0, |s|) && Text(s, h.value) == f.value
    ensures Named(s, h, name) <==> HttpRequests.SameIgnoringCase(f.name, name)
  {
  }

  /** The first header with a name, by the fields the headers read as. */
  lemma FieldFound(s: seq<byte>, hs: seq<Header>, fs: seq<Field>, name: seq<byte>, k: nat)
    requires |hs| == |fs| && k <= |fs| && forall j | 0 <= j < |fs| :: Reads(s, hs[j], fs[j])
    requires forall j | 0 <= j < k :: !HttpRequests.SameIgnoringCase(fs[j].name, name)
    requires k < |fs| ==> HttpRequests.SameIgnoringCase(fs[k].name, name)
    ensures HttpRequests.AllInside(s, hs)
    ensures FirstValue(s, hs, name) == if k < |fs| then Some(fs[k].value) else None
  {
    hide Reads, HttpRequests.SameIgnoringCase, Named, FirstValue;
    forall j | 0 <= j < |fs|
      ensures HeaderInside(hs[j], 0, |s|) && Text(s, hs[j].value) == fs[j].value
              && (Named(s, hs[j], name) <==> HttpRequests.SameIgnoringCase(fs[j].name, name))
    {
      ReadNamed(s, hs[j], fs[j], name);
    }
    FirstFound(s, hs, name, k);
  }

  lemma Different(a: seq<byte>, b: seq<byte>)
    requires |a| != |b|
    ensures !HttpRequests.SameIgnoringCase(a, b)
  {
  }

  /** Which of the fields has a name. */
  lemma Placed(r: HttpResponse.Response, keepAlive: bool, j: nat)
    requires j < |Fields(r, keepAlive)|
    ensures var name := Fields(r, keepAlive)[j].name;
            && (HttpRequests.SameIgnoringCase(name, Ascii("content-type")) <==> j == 0)
            && (HttpRequests.SameIgnoringCase(name, Ascii("content-length")) <==> j == 1)
            && (HttpRequests.SameIgnoringCase(name, Ascii("connection")) <==> j == 2)
            && (HttpRequests.SameIgnoringCase(name, Ascii("set-cookie")) <==> j == 4 && r.setCookie != [])
            && (HttpRequests.SameIgnoringCase(name, Ascii("location")) <==> j >= 4 && !(j == 4 && r.setCookie != []))
  {
    hide Ascii, HttpRequests.SameIgnoringCase, Fields, Decimal, BodyLen, TypeOf;
    FieldsPrinted(r, keepAlive);
    NamesTold();
    var name := Fields(r, keepAlive)[j].name;
    if |name| != 12 { Different(name, Ascii("content-type")); }
    if |name| != 14 { Different(name, Ascii("content-length")); }
    if |name| != 10 { Different(name, Ascii("connection")); Different(name, Ascii("set-cookie")); }
    if |name| != 8 { Different(name, Ascii("location")); }
  }

  /** The headers read as the fields printed for this response. */
  ghost predicate Printed(s: seq<byte>, hs: seq<Header>, r: HttpResponse.Response, keepAlive: bool) {
    var fs := Fields(r, keepAlive);
    |hs| == |fs| && HttpRequests.AllInside(s, hs) && forall j | 0 <= j < |fs| :: Reads(s, hs[j], fs[j])
  }

  /** The value of a name that just the k-th field has, or none. */
  lemma NameFound(s: seq<byte>, hs: seq<Header>, r: HttpResponse.Response, keepAlive: bool, name: seq<byte>, k: nat)
    requires Printed(s, hs, r, keepAlive) && k <= |hs|
    requires forall j | 0 <= j < |hs| :: HttpRequests.SameIgnoringCase(Fields(r, keepAlive)[j].name, name) <==> j == k
    ensures FirstValue(s, hs, name) == if k < |hs| then Some(Fields(r, keepAlive)[k].value) else None
  {
    hide Fields, Reads, HttpRequests.SameIgnoringCase, FirstValue, HttpRequests.AllInside;
    FieldFound(s, hs, Fields(r, keepAlive), name, k);
  }

  lemma FixedFound(s: seq<byte>, hs: seq<Header>, r: HttpResponse.Response, keepAlive: bool)
    requires Printed(s, hs, r, keepAlive)
    ensures FirstValue(s, hs, Ascii("content-type")) == Some(if r.contentType != [] then r.contentType else Ascii(TypeOf(r.body)))
    ensures FirstValue(s, hs, Ascii("content-length")) == Some(Decimal(BodyLen(r)))
    ensures FirstValue(s, hs, Ascii("connection")) == Some(if keepAlive then Ascii("keep-alive") else Ascii("close"))
  {
    hide Ascii, HttpRequests.SameIgnoringCase, Fields, Reads, TypeOf, FirstValue, Decimal, BodyLen, HttpRequests.AllInside;
    FieldsPrinted(r, keepAlive);
    forall j | 0 <= j < |hs|
      ensures HttpRequests.SameIgnoringCase(Fields(r, keepAlive)[j].name, Ascii("content-type")) <==> j == 0
      ensures HttpRequests.SameIgnoringCase(Fields(r, keepAlive)[j].name, Ascii("content-length")) <==> j == 1
      ensures HttpRequests.SameIgnoringCase(Fields(r, keepAlive)[j].name, Ascii("connection")) <==> j == 2
    {
      Placed(r, keepAlive, j);
    }
    NameFound(s, hs, r, keepAlive, Ascii("content-type"), 0);
    NameFound(s, hs, r, keepAlive, Ascii("content-length"), 1);
    NameFound(s, hs, r, keepAlive, Ascii("connection"), 2);
  }

  lemma GivenFound(s: seq<byte>, hs: seq<Header>, r: HttpResponse.Response, keepAlive: bool)
    requires Printed(s, hs, r, keepAlive)
    ensures FirstValue(s, hs, Ascii("set-cookie")) == Given(r.setCookie)
    ensures FirstValue(s, hs, Ascii("location")) == Given(r.location)
  {
    hide Ascii, HttpRequests.SameIgnoringCase, Fields, Reads, TypeOf, FirstValue, Decimal, BodyLen, HttpRequests.AllInside;
    FieldsPrinted(r, keepAlive);
    var cookie := if r.setCookie != [] then 4 else |hs|;
    var location := if r.location != [] then |hs| - 1 else |hs|;
    forall j | 0 <= j < |hs|
      ensures HttpRequests.SameIgnoringCase(Fields(r, keepAlive)[j].name, Ascii("set-cookie")) <==> j == cookie
      ensures HttpRequests.SameIgnoringCase(Fields(r, keepAlive)[j].name, Ascii("location")) <==> j == location
    {
      Placed(r, keepAlive, j);
    }
    NameFound(s, hs, r, keepAlive, Ascii("set-cookie"), cookie);
    NameFound(s, hs, r, keepAlive, Ascii("location"), location);
  }

  lemma PrintedInside(s: seq<byte>, hs: seq<Header>, r: HttpResponse.Response, keepAlive: bool)
    requires var fs := Fields(r, keepAlive); |hs| == |fs| && forall j | 0 <= j < |fs| :: Reads(s, hs[j], fs[j])
    ensures Printed(s, hs, r, keepAlive)
  {
    hide Fields, HeaderInside;
    forall j | 0 <= j < |hs| ensures HeaderInside(hs[j], 0, |s|) { ReadNamed(s, hs[j], Fields(r, keepAlive)[j], []); }
  }

  lemma LengthFound(s: seq<byte>, hs: seq<Header>, n: nat)
    requires HttpRequests.AllInside(s, hs) && FirstValue(s, hs, Ascii("content-length")) == Some(Decimal(n))
    ensures n <= 0x7fff_ffff_ffff_ffff ==> HttpRequests.ContentLength(s, hs) == HttpRequests.Length(n)
  {
    hide FirstValue, HttpRequests.ContentLength, HttpRequests.AllInside, Decimal, HttpRequests.Strtol, Ascii;
    LengthIsFirst(s, hs);
    if n <= HttpRequests.LONG_MAX { HttpNumbers.PrintedIsRead(n); }
  }

  lemma RenderedMeans(r: HttpResponse.Response, keepAlive: bool)
    requires WellFormed(r) && 100 <= r.statusCode < 1000 && ValuesOk(r)
    ensures Means(Head(r, keepAlive) + Body(r), r, keepAlive)
  {
    var head, s := Head(r, keepAlive), Head(r, keepAlive) + Body(r);
    assert s[|head|..] == Body(r);
    hide Head, ParseResponse, StatusMessage, ValuesOk, Reads, Fields, Ascii, FirstValue, HttpRequests.ContentLength,
         HttpRequests.AllInside, Decimal, HttpRequests.Strtol, TypeOf, Given, Text;
    ParseUndoesRender(r, keepAlive, Body(r), 6);
    PhraseIs(r.statusCode);
    var hs := ParseResponse(s, 6).value.headers;
    PrintedInside(s, hs, r, keepAlive);
    hide Printed;
    FixedFound(s, hs, r, keepAlive);
    GivenFound(s, hs, r, keepAlive);
    LengthFound(s, hs, BodyLen(r));
  }

  /** -1 exactly when the head does not fit with its terminating NUL, or head and body do not fit;
      otherwise the head followed by the body. */
  method Render(r: HttpResponse.Response, keepAlive: bool, out: array<byte>, outMax: nat) returns (ret: int)
    requires WellFormed(r) && outMax <= out.Length
    modifies out
    ensures var head := Head(r, keepAlive);
            if |head| >= outMax || |head| + BodyLen(r) > outMax then ret == -1
            else ret == |head| + BodyLen(r) && out[..ret] == head + Body(r)
    ensures ret >= 0 && 100 <= r.statusCode < 1000 && ValuesOk(r) ==> Means(out[..ret], r, keepAlive)
    ensures forall k | outMax <= k < out.Length :: out[k] == old(out[k])
  {
    hide Head, Means;
    var bodyLen := if r.statusCode == 302 then 0 else r.bodyLen;
    var ok, pos := RenderHead(r, keepAlive, out, outMax);
    if !ok || pos + bodyLen > outMax { return -1; }
    ghost var head := out[..pos];
    forall i | 0 <= i < bodyLen { out[pos + i] := r.body[i]; }
    assert out[..pos] == head;
    assert out[pos..pos + bodyLen] == Body(r);
    assert out[..pos + bodyLen] == out[..pos] + out[pos..pos + bodyLen];
    ret := pos + bodyLen;
    if 100 <= r.statusCode < 1000 && ValuesOk(r) { RenderedMeans(r, keepAlive); }
  }
}
