/** Parsing undoes printing: phr_parse_response on a rendered response gives back what was rendered. */
module HttpRoundTrip {
  import opened Bytes
  import opened HttpGrammar
  import opened HttpMessages
  import opened HttpResponse
  import opened HttpSpelling

  /** No control bytes other than tabs, no blanks at the edges. */
  predicate Clean(v: seq<byte>) {
    AllText(v) && (v != [] ==> !White(v[0]) && !White(v[|v| - 1]))
  }

  ghost predicate AllClean(fs: seq<Field>) {
    forall k | 0 <= k < |fs| :: fs[k].name != [] && AllName(fs[k].name) && Clean(fs[k].value)
  }

  // ----- A rendered head is a spelling of a response -----

  /** A field as it is printed: one space before the value, CR LF behind it. */
  function AsLine(f: Field): Line {
    Named(f.name, [SP], f.value, [], false)
  }

  function AsLines(fs: seq<Field>): (ls: seq<Line>)
    ensures |ls| == |fs|
  {
    seq(|fs|, i requires 0 <= i < |fs| => AsLine(fs[i]))
  }

  lemma FieldIsLine(f: Field)
    ensures FieldText(f) == WriteLine(AsLine(f))
  {
    assert f.value + ([] + CRLF) == f.value + CRLF;
    assert f.name + ([COLON] + ([SP] + (f.value + CRLF))) == f.name + [COLON, SP] + f.value + CRLF;
  }

  lemma {:induction false} FieldsAreLines(fs: seq<Field>)
    ensures FieldsText(fs) == WriteLines(AsLines(fs))
    decreases |fs|
  {
    hide FieldText, WriteLine, AsLine;
    if fs != [] {
      FieldIsLine(fs[0]);
      FieldsAreLines(fs[1..]);
      assert AsLines(fs)[1..] == AsLines(fs[1..]);
    }
  }

  lemma CleanLines(fs: seq<Field>)
    requires AllClean(fs)
    ensures LinesOk(AsLines(fs), true)
  {
    hide AllName, AllText, White;
    assert AllBlank([SP]) by { OneSpace(); }
    assert AllBlank([]);
    hide AllBlank;
  }

  lemma OneSpace()
    ensures AllBlank([SP])
  {
  }

  /** A rendered head as a spelling: HTTP/1.1, single spaces, CR LF throughout. */
  function AsAnswer(r: HttpResponse.Response, keepAlive: bool): Answer
    requires 100 <= r.statusCode < 1000
  {
    Answer(StatusStart(1, 1, r.statusCode, 1, StatusMessage(r.statusCode), false), AsLines(Fields(r, keepAlive)), false)
  }

  lemma DecimalIsThreeDigits(n: nat)
    requires 100 <= n < 1000
    ensures Integer(n) == ThreeDigits(n)
  {
    assert n / 10 / 10 == n / 100;
    assert Decimal(n / 100) == ['0' as int + n / 100];
    assert Decimal(n / 10) == Decimal(n / 100) + ['0' as int + n / 10 % 10];
  }

  lemma StatusIsWritten(code: nat)
    requires 100 <= code < 1000
    ensures StatusText(code) == WriteStatus(StatusStart(1, 1, code, 1, StatusMessage(code), false))
  {
    hide StatusMessage, Integer, ThreeDigits;
    DecimalIsThreeDigits(code);
    var d, m := ThreeDigits(code), StatusMessage(code);
    assert Spaces(1) == [SP];
    assert Ascii("HTTP/1.1 ") == Version1(1) + [SP];
    assert (Version1(1) + [SP]) + d + [SP] + m + CRLF == Version1(1) + ([SP] + (d + ([SP] + (m + CRLF))));
  }

  lemma HeadIsWritten(r: HttpResponse.Response, keepAlive: bool)
    requires 100 <= r.statusCode < 1000
    ensures Head(r, keepAlive) == WriteAnswer(AsAnswer(r, keepAlive))
  {
    hide StatusText, FieldsText, WriteStatus, WriteLines, Fields, StatusMessage, AsLines;
    StatusIsWritten(r.statusCode);
    FieldsAreLines(Fields(r, keepAlive));
  }

  // ----- The texts printed are clean -----

  predicate PlainText(t: string) {
    t != "" && t[0] != ' ' && t[|t| - 1] != ' ' && forall k | 0 <= k < |t| :: ' ' <= t[k] <= '~'
  }

  lemma PlainTextOk(t: string)
    requires PlainText(t)
    ensures Ascii(t) != [] && Clean(Ascii(t))
  {
  }

  lemma MessageOk(code: int)
    ensures StatusMessage(code) != [] && Clean(StatusMessage(code))
  {
    hide Ascii, Clean;
    match code
    case 302 => PlainTextOk("Found");
    case 400 => PlainTextOk("Bad Request");
    case 401 => PlainTextOk("Unauthorized");
    case 403 => PlainTextOk("Forbidden");
    case 404 => PlainTextOk("Not Found");
    case 405 => PlainTextOk("Method Not Allowed");
    case 429 => PlainTextOk("Too Many Requests");
    case 500 => PlainTextOk("Internal Server Error");
    case _ => PlainTextOk("OK");
  }

  predicate ValuesOk(r: HttpResponse.Response) {
    Clean(r.contentType) && Clean(r.setCookie) && Clean(r.location)
  }

  lemma ContentTypeOk(body: seq<byte>, given: seq<byte>)
    requires Clean(given)
    ensures Clean(InferContentType(body, given))
  {
    hide Ascii, Clean;
    PlainTextOk("text/html; charset=utf-8");
    PlainTextOk("application/json");
    PlainTextOk("text/plain; charset=utf-8");
  }

  lemma DigitsClean(v: seq<byte>)
    requires forall k | 0 <= k < |v| :: IsDigit(v[k])
    ensures Clean(v)
  {
  }

  lemma FixedTextsOk(n: nat)
    ensures Clean(Decimal(n)) && Clean(Ascii("keep-alive")) && Clean(Ascii("close")) && Clean(Ascii("*"))
  {
    hide Ascii, Clean, Decimal;
    DigitsClean(Decimal(n));
    PlainTextOk("keep-alive");
    PlainTextOk("close");
    PlainTextOk("*");
  }

  lemma NameTextOk(t: string)
    requires t != "" && forall k | 0 <= k < |t| :: 'a' <= t[k] <= 'z' || 'A' <= t[k] <= 'Z' || t[k] == '-'
    ensures Ascii(t) != [] && AllName(Ascii(t))
  {
    assert SPECIALS[8] == '-' as int;
  }

  lemma NamesOk()
    ensures AllName(Ascii("Content-Type")) && AllName(Ascii("Content-Length")) && AllName(Ascii("Connection"))
    ensures AllName(Ascii("Access-Control-Allow-Origin"))
    ensures AllName(Ascii("Set-Cookie")) && AllName(Ascii("Location"))
  {
    hide Ascii, AllName;
    NameTextOk("Content-Type");
    NameTextOk("Content-Length");
    NameTextOk("Connection");
    NameTextOk("Access-Control-Allow-Origin");
    NameTextOk("Set-Cookie");
    NameTextOk("Location");
  }

  lemma FieldsOk(r: HttpResponse.Response, keepAlive: bool)
    requires ValuesOk(r)
    ensures |Fields(r, keepAlive)| <= 6 && AllClean(Fields(r, keepAlive))
  {
    hide Ascii, Clean, InferContentType, Decimal, AllName;
    ContentTypeOk(r.body, r.contentType);
    FixedTextsOk(BodyLen(r));
    NamesOk();
  }

  // ----- Reading it back -----

  /** The header is this field. */
  ghost predicate Reads(s: seq<byte>, h: Header, f: Field) {
    && h.hasName
    && HeaderInside(h, 0, |s|)
    && Text(s, h.name) == f.name
    && Text(s, h.value) == f.value
  }

  lemma MessageStarts(code: nat)
    ensures StatusMessage(code) != [] && StatusMessage(code)[0] != SP && AllText(StatusMessage(code))
  {
    MessageOk(code);
    hide StatusMessage;
  }

  lemma RenderedOk(r: HttpResponse.Response, keepAlive: bool)
    requires 100 <= r.statusCode < 1000 && ValuesOk(r)
    ensures AnswerOk(AsAnswer(r, keepAlive))
  {
    hide Fields, StatusMessage, AsLines, LinesOk, AllText, AllClean, ValuesOk;
    FieldsOk(r, keepAlive);
    CleanLines(Fields(r, keepAlive));
    MessageStarts(r.statusCode);
  }

  /** For a three-digit status and clean values, the parser returns on the rendered octets, whatever follows
      them, the version, the status, the reason phrase, every header in order, and the length of the head. */
  lemma ParseUndoesRender(r: HttpResponse.Response, keepAlive: bool, after: seq<byte>, max: nat)
    requires 100 <= r.statusCode < 1000 && ValuesOk(r) && max >= 6
    ensures var head, fs := Head(r, keepAlive), Fields(r, keepAlive);
            var s := head + after;
            var p := ParseResponse(s, max);
            && p.Ok? && p.at == |head|
            && p.value.minor == 1 && p.value.status == r.statusCode
            && Text(s, p.value.msg) == StatusMessage(r.statusCode)
            && |p.value.headers| == |fs|
            && forall k | 0 <= k < |fs| :: Reads(s, p.value.headers[k], fs[k])
  {
    hide Fields, StatusMessage, Head, WriteAnswer, ParseResponse, AnswerOk, ValuesOk, HeaderInside, Text;
    FieldsOk(r, keepAlive);
    RenderedOk(r, keepAlive);
    HeadIsWritten(r, keepAlive);
    WrittenIsParsed(AsAnswer(r, keepAlive), after, max);
    var s, fs := Head(r, keepAlive) + after, Fields(r, keepAlive);
    forall k | 0 <= k < |fs| ensures Reads(s, ParseResponse(s, max).value.headers[k], fs[k]) {
      assert LineRead(s, ParseResponse(s, max).value.headers[k], AsLines(fs)[k]);
    }
  }
}
