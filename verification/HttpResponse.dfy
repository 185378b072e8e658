/** The response printer: what a head is and how it is written into a buffer. */
module HttpResponse {
  import opened Bytes
  import opened HttpGrammar

  function Decimal(n: nat): (r: seq<byte>)
    ensures |r| > 0 && forall k | 0 <= k < |r| :: IsDigit(r[k])
  {
    if n < 10 then ['0' as int + n] else Decimal(n / 10) + ['0' as int + n % 10]
  }

  /** An integer as the %d conversion prints it. */
  function Integer(n: int): seq<byte> {
    if n < 0 then [45] + Decimal(-n) else Decimal(n)
  }

  function StatusMessage(code: int): seq<byte> {
    match code
    case 302 => Ascii("Found")
    case 400 => Ascii("Bad Request")
    case 401 => Ascii("Unauthorized")
    case 403 => Ascii("Forbidden")
    case 404 => Ascii("Not Found")
    case 405 => Ascii("Method Not Allowed")
    case 429 => Ascii("Too Many Requests")
    case 500 => Ascii("Internal Server Error")
    case _ => Ascii("OK")
  }

  /** `body` is the buffer the handler wrote to (empty for a null pointer), of which bodyLen octets count;
      the text fields are empty when absent. */
  datatype Response = Response(statusCode: int, contentType: seq<byte>, body: seq<byte>, bodyLen: nat,
                               setCookie: seq<byte>, location: seq<byte>)

  predicate WellFormed(r: Response) {
    r.bodyLen <= |r.body|
  }

  function InferContentType(body: seq<byte>, given: seq<byte>): seq<byte> {
    if given != [] then given
    else if body != [] && body[0] == '<' as int then Ascii("text/html; charset=utf-8")
    else if body != [] && (body[0] == '{' as int || body[0] == '[' as int) then Ascii("application/json")
    else Ascii("text/plain; charset=utf-8")
  }

  /** Redirects carry no body. */
  function BodyLen(r: Response): nat {
    if r.statusCode == 302 then 0 else r.bodyLen
  }

  function Body(r: Response): seq<byte>
    requires WellFormed(r)
  {
    r.body[..BodyLen(r)]
  }

  datatype Field = Field(name: seq<byte>, value: seq<byte>)

  /** The header fields of a response, in the order they are printed. */
  function Fields(r: Response, keepAlive: bool): seq<Field> {
    [Field(Ascii("Content-Type"), InferContentType(r.body, r.contentType)),
     Field(Ascii("Content-Length"), Decimal(BodyLen(r))),
     Field(Ascii("Connection"), if keepAlive then Ascii("keep-alive") else Ascii("close")),
     Field(Ascii("Access-Control-Allow-Origin"), Ascii("*"))]
    + (if r.setCookie != [] then [Field(Ascii("Set-Cookie"), r.setCookie)] else [])
    + (if r.location != [] then [Field(Ascii("Location"), r.location)] else [])
  }

  function FieldText(f: Field): seq<byte> {
    f.name + [COLON, SP] + f.value + CRLF
  }

  function FieldsText(fs: seq<Field>): seq<byte> {
    if fs == [] then [] else FieldText(fs[0]) + FieldsText(fs[1..])
  }

  function StatusText(code: int): seq<byte> {
    Ascii("HTTP/1.1 ") + Integer(code) + [SP] + StatusMessage(code) + CRLF
  }

  function Head(r: Response, keepAlive: bool): seq<byte> {
    StatusText(r.statusCode) + FieldsText(Fields(r, keepAlive)) + CRLF
  }

  // ----- Printing -----

  /** vsnprintf of `text` at pos: what fits is written, then a NUL; false if anything was cut off. */
  method AppendToBuffer(out: array<byte>, outMax: nat, pos: nat, text: seq<byte>) returns (ok: bool, next: nat)
    requires pos <= outMax <= out.Length
    modifies out
    ensures ok <==> pos + |text| < outMax
    ensures ok ==> next == pos + |text| && out[..next] == old(out[..pos]) + text
    ensures forall k | outMax <= k < out.Length :: out[k] == old(out[k])
  {
    var remaining := outMax - pos;
    if remaining > 0 {
      var n := if |text| < remaining then |text| else remaining - 1;
      forall i | 0 <= i < n { out[pos + i] := text[i]; }
      out[pos + n] := 0;
    }
    ok, next := |text| < remaining, pos + |text|;
  }

  /** The four mandatory fields. */
  function Mandatory(r: Response, keepAlive: bool): seq<byte> {
    StatusText(r.statusCode) + FieldsText(Fields(r, keepAlive)[..4])
  }

  lemma {:induction false} FieldsTextAppend(a: seq<Field>, b: seq<Field>)
    ensures FieldsText(a + b) == FieldsText(a) + FieldsText(b)
  {
    if a == [] {
      assert a + b == b;
    } else {
      assert (a + b)[1..] == a[1..] + b;
      FieldsTextAppend(a[1..], b);
    }
  }

  lemma OneField(f: Field)
    ensures FieldsText([f]) == FieldText(f)
  {
    assert FieldsText([f]) == FieldText(f) + FieldsText([]);
  }

  /** An optional field: nothing when the value is empty. */
  function Optional(name: string, value: seq<byte>): seq<byte> {
    if value != [] then FieldText(Field(Ascii(name), value)) else []
  }

  lemma HeadPieces(r: Response, keepAlive: bool)
    ensures Head(r, keepAlive) ==
            Mandatory(r, keepAlive) + Optional("Set-Cookie", r.setCookie) + Optional("Location", r.location) + CRLF
  {
    hide Ascii, InferContentType, StatusMessage, FieldText;
    var fs := Fields(r, keepAlive);
    var cookie := if r.setCookie != [] then [Field(Ascii("Set-Cookie"), r.setCookie)] else [];
    var location := if r.location != [] then [Field(Ascii("Location"), r.location)] else [];
    assert fs == fs[..4] + cookie + location;
    FieldsTextAppend(fs[..4] + cookie, location);
    FieldsTextAppend(fs[..4], cookie);
    OneField(Field(Ascii("Set-Cookie"), r.setCookie));
    OneField(Field(Ascii("Location"), r.location));
  }

  method AppendOptional(out: array<byte>, outMax: nat, pos: nat, name: string, value: seq<byte>) returns (ok: bool, next: nat)
    requires pos < outMax <= out.Length
    modifies out
    ensures ok <==> pos + |Optional(name, value)| < outMax
    ensures ok ==> next == pos + |Optional(name, value)| && out[..next] == old(out[..pos]) + Optional(name, value)
    ensures forall k | outMax <= k < out.Length :: out[k] == old(out[k])
  {
    ok, next := true, pos;
    if value != [] {
      ok, next := AppendToBuffer(out, outMax, pos, FieldText(Field(Ascii(name), value)));
    }
  }

  /** The whole header section, ended by an empty line. */
  method RenderHead(r: Response, keepAlive: bool, out: array<byte>, outMax: nat) returns (ok: bool, pos: nat)
    requires outMax <= out.Length
    modifies out
    ensures ok <==> |Head(r, keepAlive)| < outMax
    ensures ok ==> pos == |Head(r, keepAlive)| && out[..pos] == Head(r, keepAlive)
    ensures forall k | outMax <= k < out.Length :: out[k] == old(out[k])
  {
    hide Optional, Mandatory;
    HeadPieces(r, keepAlive);
    hide Head;
    ok, pos := AppendToBuffer(out, outMax, 0, Mandatory(r, keepAlive));
    if !ok { return; }
    ok, pos := AppendOptional(out, outMax, pos, "Set-Cookie", r.setCookie);
    if !ok { return; }
    ok, pos := AppendOptional(out, outMax, pos, "Location", r.location);
    if !ok { return; }
    ok, pos := AppendToBuffer(out, outMax, pos, CRLF);
  }
}
