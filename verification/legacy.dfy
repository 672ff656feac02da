/** The standalone program of cmd/: an earlier, self-contained server that
  * answers one request per connection. It has its own request and response
  * records, its own default headers and middleware, and a route table
  * whose every key is tried as a regular expression. */
module Legacy {
  import opened Wrappers
  import opened Strings
  import opened Decimal
  import opened Http
  import opened Router
  import opened Wire
  import opened WireRoundTrip
  import opened Chain

  datatype LegacyRequest = LegacyRequest(
    httpMethod: string,
    path: string,
    protocol: string,
    headers: HeaderMap,
    body: string)

  /** `headers == None` is Go's nil map. */
  datatype LegacyResponse = LegacyResponse(
    statusCode: int,
    statusText: string,
    protocol: string,
    headers: Option<HeaderMap>,
    body: string)

  type LegacyHandler = LegacyRequest -> Result<LegacyResponse, HandlerError>

  type LegacyMiddleware = LegacyHandler -> LegacyHandler

  function LegacyHeadersOf(r: LegacyResponse): HeaderMap {
    match r.headers
    case None => map[]
    case Some(m) => m
  }

  /** The program's default headers (the server name is spelled "tinny"). */
  const DefaultHeaders: HeaderMap := map[
    "Server" := "tinny-http/0.1",
    "Content-Type" := "text/plain",
    "Content-Length" := "0"]

  // ------------------------------------------------------------- reading

  datatype LegacyError =
    | ReadRequestFailed
    | ScanFailed
    | ProtocolRefused(protocol: string)
    | ReadHeaderFailed
    | BadContentLength
    | ReadBodyFailed

  /** parseRequest: the request line is scanned as three whitespace-separated
    * words (anything after the third is ignored) and only HTTP/1.1 is
    * accepted; headers and body are read as the server package reads them.
    * What follows the body is never read. */
  function ParseLegacy(input: string): (r: Result<LegacyRequest, LegacyError>)
    ensures '\n' !in input ==> r == Err(ReadRequestFailed)
    ensures ReadLine(input).Some? ==>
              var words := Fields(ReadLine(input).value.0);
              && (|words| < 3 ==> r == Err(ScanFailed))
              && (|words| >= 3 && words[2] != "HTTP/1.1" ==> r == Err(ProtocolRefused(words[2])))
              && (r.Ok? ==> |words| >= 3 && r.value.httpMethod == words[0] && r.value.path == words[1])
    ensures r.Ok? ==> (
      && r.value.protocol == "HTTP/1.1"
      && |r.value.httpMethod| > 0 && NoSpace(r.value.httpMethod)
      && |r.value.path| > 0 && NoSpace(r.value.path)
      && BodyFramed(r.value.headers, r.value.body))
  {
    match ReadLine(input)
    case None => Err(ReadRequestFailed)
    case Some((line, rest)) => ParseScanned(Fields(line), rest)
  }

  /** parseRequest once the request line has been scanned into words. */
  function ParseScanned(words: seq<string>, rest: string): (r: Result<LegacyRequest, LegacyError>)
    requires forall i :: 0 <= i < |words| ==> |words[i]| > 0 && NoSpace(words[i])
    ensures r.Ok? ==> (
      && |words| >= 3 && words[2] == "HTTP/1.1"
      && r.value.httpMethod == words[0] && r.value.path == words[1] && r.value.protocol == words[2]
      && BodyFramed(r.value.headers, r.value.body))
  {
    if |words| < 3 then Err(ScanFailed)
    else if words[2] != "HTTP/1.1" then Err(ProtocolRefused(words[2]))
    else
      match ParseHeaders(rest, map[])
      case Err(_) => Err(ReadHeaderFailed)
      case Ok((headers, afterHeaders)) =>
        match ParseBody(headers, afterHeaders)
        case Err(InvalidContentLength(_)) => Err(BadContentLength)
        case Err(_) => Err(ReadBodyFailed)
        case Ok((body, _)) => Ok(LegacyRequest(words[0], words[1], words[2], headers, body))
  }

  /** parseRequest after an accepted request line: a header block without
    * its blank line, a bad Content-Length and a short body each fail with
    * their own error; otherwise the request carries the method, path,
    * headers and body. */
  lemma ParseScannedSteps(words: seq<string>, rest: string)
    requires forall i :: 0 <= i < |words| ==> |words[i]| > 0 && NoSpace(words[i])
    requires |words| >= 3 && words[2] == "HTTP/1.1"
    ensures ParseHeaders(rest, map[]).Err? ==> ParseScanned(words, rest) == Err(ReadHeaderFailed)
    ensures ParseHeaders(rest, map[]).Ok? ==>
              var (hs, after) := ParseHeaders(rest, map[]).value;
              var body := ParseBody(hs, after);
              && (body.Err? && body.error.InvalidContentLength? ==> ParseScanned(words, rest) == Err(BadContentLength))
              && (body.Err? && !body.error.InvalidContentLength? ==> ParseScanned(words, rest) == Err(ReadBodyFailed))
              && (body.Ok? ==>
                    ParseScanned(words, rest) == Ok(LegacyRequest(words[0], words[1], "HTTP/1.1", hs, body.value.0)))
  {
  }

  /** Every octet is below 0x80. fmt's scanner decodes its input as UTF-8
    * and writes each word back rune by rune, so an octet that is not valid
    * UTF-8 comes back as U+FFFD; ASCII words come back unchanged. */
  predicate Ascii(w: string) {
    forall i :: 0 <= i < |w| ==> w[i] < 128 as char
  }

  /** The request line "m p HTTP/1.1" CRLF scans as its three words. */
  lemma FieldsOfRequestLine(m: string, p: string, v: string)
    requires |m| > 0 && NoSpace(m) && |p| > 0 && NoSpace(p) && |v| > 0 && NoSpace(v)
    requires Ascii(m) && Ascii(p) && Ascii(v)
    ensures Fields(m + " " + p + " " + v + CRLF) == [m, p, v]
  {
    FieldsOfLastWord(v);
    FieldsCons(p, ' ', v + CRLF);
    FieldsCons(m, ' ', p + [' '] + (v + CRLF));
    RequestLineShape(m, p, v);
  }

  /** The last word of the line, then CR LF, scans as that word. */
  lemma FieldsOfLastWord(v: string)
    requires |v| > 0 && NoSpace(v)
    ensures Fields(v + CRLF) == [v]
  {
    FieldsCons(v, '\r', "\n");
    assert v + ['\r'] + "\n" == v + CRLF;
    assert Fields("\n") == Fields("") == [];
  }

  lemma RequestLineShape(m: string, p: string, v: string)
    ensures m + [' '] + (p + [' '] + (v + CRLF)) == m + " " + p + " " + v + CRLF
  {
  }

  /** A well-formed HTTP/1.1 request is read back exactly, whatever follows it. */
  lemma ParseLegacyRoundTrip(m: string, p: string, hs: seq<(string, string)>, body: string, rest: string)
    requires |m| > 0 && NoSpace(m) && |p| > 0 && NoSpace(p) && Ascii(m) && Ascii(p)
    requires AllWellFormed(hs)
    requires BodyFramed(Updates(map[], hs), body)
    ensures ParseLegacy(RenderRequest(m, p, "HTTP/1.1", hs, body) + rest)
            == Ok(LegacyRequest(m, p, "HTTP/1.1", Updates(map[], hs), body))
  {
    var v := "HTTP/1.1";
    var input := RenderRequest(m, p, v, hs, body) + rest;
    var after := HeaderLines(hs) + CRLF + (body + rest);
    NoSpaceProtocol();
    RequestLineOf(m, p, v, hs, body, rest);
    FieldsOfRequestLine(m, p, v);
    ParseHeadersOf(hs, map[], body + rest);
    ParseBodyOf(Updates(map[], hs), body, rest);
    ParseLegacyOfSteps(input, m + " " + p + " " + v + CRLF, after, m, p, Updates(map[], hs), body + rest, body, rest);
  }

  /** A word, a space and the rest of the line scan as that word followed
    * by the words of the rest. */
  lemma FieldsOfSpaced(w: string, tail: string)
    requires |w| > 0 && NoSpace(w)
    ensures Fields(w + " " + tail) == [w] + Fields(tail)
  {
    FieldsCons(w, ' ', tail);
    assert w + [' '] + tail == w + " " + tail;
  }

  /** The request is read from the words of its first line and what follows
    * that line. */
  lemma ParseLegacyOfLine(line: string, rest: string)
    requires '\n' !in line
    ensures ParseLegacy(line + "\n" + rest) == ParseScanned(Fields(line + "\n"), rest)
  {
    ReadLineOf(line, rest);
  }

  /** A request line with only a method and a path fails to scan. */
  lemma TwoWordsRefused(m: string, p: string, rest: string)
    requires |m| > 0 && NoSpace(m) && |p| > 0 && NoSpace(p)
    ensures ParseLegacy(m + " " + p + CRLF + rest) == Err(ScanFailed)
  {
    var line := m + " " + p + "\r";
    var t := p + CRLF;
    FieldsOfLastWord(p);
    FieldsOfSpaced(m, t);
    assert m + " " + t == line + "\n";
    assert line + "\n" + rest == m + " " + p + CRLF + rest;
    ParseLegacyOfLine(line, rest);
  }

  /** A request line of three words is read from those words. */
  lemma ThreeWordLine(m: string, p: string, v: string, rest: string)
    requires |m| > 0 && NoSpace(m) && |p| > 0 && NoSpace(p) && |v| > 0 && NoSpace(v)
    requires Ascii(m) && Ascii(p) && Ascii(v)
    ensures ParseLegacy(m + " " + p + " " + v + CRLF + rest) == ParseScanned([m, p, v], rest)
  {
    var line := m + " " + p + " " + v + "\r";
    FieldsOfRequestLine(m, p, v);
    assert line + "\n" == m + " " + p + " " + v + CRLF;
    assert line + "\n" + rest == m + " " + p + " " + v + CRLF + rest;
    ParseLegacyOfLine(line, rest);
  }

  /** Any protocol but HTTP/1.1, such as HTTP/1.0, is refused by name. */
  lemma OtherProtocolRefused(m: string, p: string, v: string, rest: string)
    requires |m| > 0 && NoSpace(m) && |p| > 0 && NoSpace(p) && |v| > 0 && NoSpace(v)
    requires Ascii(m) && Ascii(p) && Ascii(v)
    requires v != "HTTP/1.1"
    ensures ParseLegacy(m + " " + p + " " + v + CRLF + rest) == Err(ProtocolRefused(v))
  {
    ThreeWordLine(m, p, v, rest);
  }

  /** Once three words are scanned, a fourth changes nothing. */
  lemma ScannedExtraWord(m: string, p: string, v: string, x: string, rest: string)
    requires |m| > 0 && NoSpace(m) && |p| > 0 && NoSpace(p) && |v| > 0 && NoSpace(v) && |x| > 0 && NoSpace(x)
    ensures ParseScanned([m, p, v, x], rest) == ParseScanned([m, p, v], rest)
  {
  }

  lemma FourWordShape(m: string, p: string, v: string, x: string)
    ensures m + [' '] + (p + [' '] + (v + [' '] + (x + CRLF))) == m + " " + p + " " + v + " " + x + CRLF
  {
  }

  /** Four words, the last followed by CR LF, scan as those words. */
  lemma FourWordFields(m: string, p: string, v: string, x: string)
    requires |m| > 0 && NoSpace(m) && |p| > 0 && NoSpace(p) && |v| > 0 && NoSpace(v) && |x| > 0 && NoSpace(x)
    ensures Fields(m + " " + p + " " + v + " " + x + CRLF) == [m, p, v, x]
  {
    FieldsOfLastWord(x);
    FieldsCons(v, ' ', x + CRLF);
    FieldsCons(p, ' ', v + [' '] + (x + CRLF));
    FieldsCons(m, ' ', p + [' '] + (v + [' '] + (x + CRLF)));
    FourWordShape(m, p, v, x);
  }

  /** A request line of four words is read from those words. */
  lemma FourWordLine(m: string, p: string, v: string, x: string, rest: string)
    requires |m| > 0 && NoSpace(m) && |p| > 0 && NoSpace(p) && |v| > 0 && NoSpace(v) && |x| > 0 && NoSpace(x)
    ensures ParseLegacy(m + " " + p + " " + v + " " + x + CRLF + rest) == ParseScanned([m, p, v, x], rest)
  {
    var line := m + " " + p + " " + v + " " + x + "\r";
    FourWordFields(m, p, v, x);
    assert line + "\n" == m + " " + p + " " + v + " " + x + CRLF;
    assert line + "\n" + rest == m + " " + p + " " + v + " " + x + CRLF + rest;
    ParseLegacyOfLine(line, rest);
  }

  /** Words after the protocol are never looked at: the request is read as
    * if the line ended after HTTP/1.1. */
  lemma ExtraWordsIgnored(m: string, p: string, x: string, rest: string)
    requires |m| > 0 && NoSpace(m) && |p| > 0 && NoSpace(p) && |x| > 0 && NoSpace(x)
    requires Ascii(m) && Ascii(p)
    ensures ParseLegacy(m + " " + p + " " + "HTTP/1.1" + " " + x + CRLF + rest)
            == ParseLegacy(m + " " + p + " " + "HTTP/1.1" + CRLF + rest)
  {
    NoSpaceProtocol();
    FourWordLine(m, p, "HTTP/1.1", x, rest);
    ThreeWordLine(m, p, "HTTP/1.1", rest);
    ScannedExtraWord(m, p, "HTTP/1.1", x, rest);
  }

  lemma NoSpaceProtocol()
    ensures |"HTTP/1.1"| > 0 && NoSpace("HTTP/1.1") && Ascii("HTTP/1.1")
  {
    var v := "HTTP/1.1";
    assert forall j :: 0 <= j < |v| ==> !IsSpace(v[j]);
    assert Ascii(v);
  }

  /** The first line read off a rendered request is its request line. */
  lemma RequestLineOf(m: string, p: string, v: string, hs: seq<(string, string)>, body: string, rest: string)
    requires NoSpace(m) && NoSpace(p) && NoSpace(v)
    ensures ReadLine(RenderRequest(m, p, v, hs, body) + rest)
            == Some((m + " " + p + " " + v + CRLF, HeaderLines(hs) + CRLF + (body + rest)))
  {
    var line := m + " " + p + " " + v;
    var after := HeaderLines(hs) + CRLF + (body + rest);
    var input := RenderRequest(m, p, v, hs, body) + rest;
    assert input == line + "\r" + "\n" + after;
    assert '\n' !in line + "\r" by {
      assert forall j :: 0 <= j < |m| ==> !IsSpace(m[j]);
      assert forall j :: 0 <= j < |p| ==> !IsSpace(p[j]);
      assert forall j :: 0 <= j < |v| ==> !IsSpace(v[j]);
    }
    ReadLineOf(line + "\r", after);
    assert line + "\r" + "\n" == line + CRLF;
  }

  /** parseRequest is the composition of its readers. */
  lemma ParseLegacyOfSteps(input: string, line: string, rest: string, m: string, p: string,
                           headers: HeaderMap, afterHeaders: string, body: string, remaining: string)
    requires ReadLine(input) == Some((line, rest))
    requires Fields(line) == [m, p, "HTTP/1.1"]
    requires ParseHeaders(rest, map[]) == Ok((headers, afterHeaders))
    requires ParseBody(headers, afterHeaders) == Ok((body, remaining))
    ensures ParseLegacy(input) == Ok(LegacyRequest(m, p, "HTTP/1.1", headers, body))
  {
  }

  // ------------------------------------------------------------- writing

  /** Every octet marshalResponse puts on the wire, headers in the order
    * Go's map iteration happened to take. */
  function Marshal(r: LegacyResponse, order: seq<(string, string)>): (out: string)
    requires Enumerates(order, LegacyHeadersOf(r))
    ensures r.protocol + " " + Itoa(r.statusCode) + " " + r.statusText + CRLF <= out
    ensures |out| == |r.protocol + " " + Itoa(r.statusCode) + " " + r.statusText + CRLF| + |HeaderLines(order)| + 2 + |r.body|
    ensures out[|out| - |r.body|..] == r.body
  {
    var status := r.protocol + " " + Itoa(r.statusCode) + " " + r.statusText + CRLF;
    var out := status + HeaderLines(order) + CRLF + r.body;
    assert out[..|status|] == status;
    out
  }

  /** The header block marshalResponse writes is read back by the header
    * reader as the response's header map, followed by the body. */
  lemma MarshalHeadRoundTrip(r: LegacyResponse, order: seq<(string, string)>)
    requires Enumerates(order, LegacyHeadersOf(r))
    requires AllWellFormed(order)
    ensures var status := r.protocol + " " + Itoa(r.statusCode) + " " + r.statusText + CRLF;
            ParseHeaders(Marshal(r, order)[|status|..], map[]) == Ok((LegacyHeadersOf(r), r.body))
  {
    var status := r.protocol + " " + Itoa(r.statusCode) + " " + r.statusText + CRLF;
    var out := Marshal(r, order);
    assert out[|status|..] == HeaderLines(order) + CRLF + r.body;
    ParseHeadersOf(order, map[], r.body);
    EnumerationRebuildsMap(order, LegacyHeadersOf(r));
  }

  // ------------------------------------------------------------- routing

  /** `order` lists the keys of `m` once each: Go's map iteration order. */
  predicate ListsKeys<V>(order: seq<string>, m: map<string, V>) {
    && (forall i :: 0 <= i < |order| ==> order[i] in m)
    && (forall i, j :: 0 <= i < j < |order| ==> order[i] != order[j])
    && (forall k :: k in m ==> k in order)
  }

  /** A route key, taken as a regular expression, that selects `path`. */
  predicate Selects(key: string, path: string, re: RegexEngine) {
    key != path && re.compiles(key) && re.matches(key, path)
  }

  /** The loop of matchRoute over the keys in iteration order. */
  function FirstSelecting(router: map<string, LegacyHandler>, order: seq<string>, path: string, re: RegexEngine): (r: Option<LegacyHandler>)
    requires forall i :: 0 <= i < |order| ==> order[i] in router
    ensures r.None? <==> forall i :: 0 <= i < |order| ==> !Selects(order[i], path, re)
    ensures r.Some? ==> exists i :: 0 <= i < |order| && Selects(order[i], path, re) && r.value == router[order[i]]
                                    && forall j :: 0 <= j < i ==> !Selects(order[j], path, re)
    decreases |order|
  {
    if |order| == 0 then None
    else if Selects(order[0], path, re) then Some(router[order[0]])
    else
      var r := FirstSelecting(router, order[1..], path, re);
      assert forall i :: 1 <= i < |order| ==> order[i] == order[1..][i - 1];
      assert r.Some? ==> exists i :: 0 <= i < |order| && Selects(order[i], path, re) && r.value == router[order[i]]
                                     && forall j :: 0 <= j < i ==> !Selects(order[j], path, re) by {
        if r.Some? {
          var i :| 0 <= i < |order[1..]| && Selects(order[1..][i], path, re) && r.value == router[order[1..][i]]
                   && forall j :: 0 <= j < i ==> !Selects(order[1..][j], path, re);
          assert Selects(order[i + 1], path, re) && r.value == router[order[i + 1]];
        }
      }
      r
  }

  /** matchRoute: the path as an exact key first; otherwise the first key
    * in iteration order that compiles and matches. When several keys match,
    * which one wins depends on that order. */
  function MatchRoute(router: map<string, LegacyHandler>, order: seq<string>, path: string, re: RegexEngine): (r: Option<LegacyHandler>)
    requires ListsKeys(order, router)
    ensures path in router ==> r == Some(router[path])
    ensures path !in router ==> (r.None? <==> forall k :: k in router ==> !Selects(k, path, re))
    ensures r.Some? && path !in router ==> exists k :: k in router && Selects(k, path, re) && r.value == router[k]
  {
    if path in router then Some(router[path])
    else
      var r := FirstSelecting(router, order, path, re);
      assert r.None? ==> forall k :: k in router ==> !Selects(k, path, re) by {
        if r.None? {
          forall k | k in router
            ensures !Selects(k, path, re)
          {
            var i :| 0 <= i < |order| && order[i] == k;
          }
        }
      }
      r
  }

  // ---------------------------------------------------- handler, middleware

  const Hello: string := "Hello, World!"

  /** rootHandler: the greeting, without a header map. */
  function RootHandle(req: LegacyRequest): (r: Result<LegacyResponse, HandlerError>)
    ensures r.Ok? && r.value.statusCode == 200 && r.value.statusText == "OK" && r.value.body == Hello
    ensures r.value.protocol == "HTTP/1.1" && r.value.headers.None?
  {
    Ok(LegacyResponse(200, "OK", "HTTP/1.1", None, Hello))
  }

  /** baseMiddleware after the inner handler returned: errors pass through;
    * otherwise missing defaults are filled in, Content-Length is always
    * recomputed from the body and the protocol is forced to HTTP/1.1. */
  function LegacyBaseFinish(inner: Result<LegacyResponse, HandlerError>): (r: Result<LegacyResponse, HandlerError>)
    ensures inner.Err? ==> r == inner
    ensures inner.Ok? ==> (
      && r.Ok? && r.value.headers.Some?
      && var (ih, o) := (LegacyHeadersOf(inner.value), r.value.headers.value);
      && o.Keys == ih.Keys + DefaultHeaders.Keys
      && (forall k :: k in ih && k != "Content-Length" ==> o[k] == ih[k])
      && (forall k :: k in DefaultHeaders && k !in ih && k != "Content-Length" ==> o[k] == DefaultHeaders[k])
      && o["Content-Length"] == Itoa(|inner.value.body|)
      && r.value == inner.value.(headers := Some(o), protocol := "HTTP/1.1"))
  {
    match inner
    case Err(_) => inner
    case Ok(resp) =>
      var h := LegacyHeadersOf(resp);
      var filled := map k | k in h.Keys + DefaultHeaders.Keys :: if k in h then h[k] else DefaultHeaders[k];
      Ok(resp.(headers := Some(filled["Content-Length" := Itoa(|resp.body|)]), protocol := "HTTP/1.1"))
  }

  function LegacyBaseMiddleware(next: LegacyHandler): (h: LegacyHandler)
    ensures forall req :: h(req) == LegacyBaseFinish(next(req))
  {
    (req: LegacyRequest) => LegacyBaseFinish(next(req))
  }

  /** What baseMiddleware promises a caller: a handler error passes through;
    * a response keeps its body and status, speaks HTTP/1.1 and carries every
    * default header, with a Content-Length that is the body's length. */
  lemma LegacyBaseMiddlewareOutcome(next: LegacyHandler, req: LegacyRequest)
    ensures next(req).Err? ==> LegacyBaseMiddleware(next)(req) == next(req)
    ensures next(req).Ok? ==>
              var r := LegacyBaseMiddleware(next)(req);
              && r.Ok? && r.value.body == next(req).value.body
              && r.value.statusCode == next(req).value.statusCode
              && r.value.protocol == "HTTP/1.1"
              && DefaultHeaders.Keys <= LegacyHeadersOf(r.value).Keys
              && LegacyHeadersOf(r.value)["Content-Length"] == Itoa(|next(req).value.body|)
  {
  }

  /** Running baseMiddleware twice is running it once. */
  lemma LegacyBaseIdempotent(inner: Result<LegacyResponse, HandlerError>)
    ensures LegacyBaseFinish(LegacyBaseFinish(inner)) == LegacyBaseFinish(inner)
  {
    if inner.Ok? {
      var once := LegacyBaseFinish(inner).value;
      var twice := LegacyBaseFinish(Ok(once)).value;
      assert twice.headers.value == once.headers.value;
    }
  }

  /** The Content-Length baseMiddleware writes reads back as the body length,
    * even when the handler had set a different one. */
  lemma LegacyBaseContentLength(inner: Result<LegacyResponse, HandlerError>)
    requires inner.Ok? && |inner.value.body| <= MaxInt64
    ensures var o := LegacyBaseFinish(inner).value;
            Atoi(o.headers.value["Content-Length"]) == Ok(|o.body|)
  {
    AtoiOfItoa(|inner.value.body|);
  }

  // ------------------------------------------------------------ connection

  /** The answers written for requests the program does not hand to a
    * handler: the default headers and an empty body. */
  function Canned(code: int, text: string): LegacyResponse {
    LegacyResponse(code, text, "HTTP/1.1", Some(DefaultHeaders), "")
  }

  /** A program: its middlewares (the last is outermost), its routes with
    * their iteration order, and the regular-expression engine. */
  datatype Program = Program(
    middlewares: seq<LegacyMiddleware>,
    router: map<string, LegacyHandler>,
    order: seq<string>,
    re: RegexEngine)

  predicate ValidProgram(pr: Program) {
    ListsKeys(pr.order, pr.router)
  }

  /** handleConnection: the one response written on a connection. A request
    * that does not parse gets 400, any method but GET (HEAD included) 405,
    * an unrouted path 404 and a handler error 500. */
  function Respond(pr: Program, input: string): (r: LegacyResponse)
    requires ValidProgram(pr)
    ensures ParseLegacy(input).Err? ==> r == Canned(400, "Bad Request")
    ensures ParseLegacy(input).Ok? && ParseLegacy(input).value.httpMethod != "GET" ==>
              r == Canned(405, "Method Not Allowed")
    ensures ParseLegacy(input).Ok? && ParseLegacy(input).value.httpMethod == "GET" ==>
              var req := ParseLegacy(input).value;
              match MatchRoute(pr.router, pr.order, req.path, pr.re)
              case None => r == Canned(404, "Not Found")
              case Some(h) =>
                (LastOutermost(pr.middlewares, h)(req).Err? ==> r == Canned(500, "Internal Server Error"))
                && (LastOutermost(pr.middlewares, h)(req).Ok? ==> r == LastOutermost(pr.middlewares, h)(req).value)
  {
    match ParseLegacy(input)
    case Err(_) => Canned(400, "Bad Request")
    case Ok(req) =>
      if req.httpMethod != "GET" then Canned(405, "Method Not Allowed")
      else
        match MatchRoute(pr.router, pr.order, req.path, pr.re)
        case None => Canned(404, "Not Found")
        case Some(h) =>
          match LastOutermost(pr.middlewares, h)(req)
          case Err(_) => Canned(500, "Internal Server Error")
          case Ok(resp) => resp
  }

  /** The route of the shipped program: exactly "/". */
  const RootPattern: string := "^\\/$"

  /** The shipped program: baseMiddleware around rootHandler at "^\/$". */
  function DefaultProgram(re: RegexEngine): (pr: Program)
    ensures ValidProgram(pr)
  {
    Program([LegacyBaseMiddleware], map[RootPattern := RootHandle], [RootPattern], re)
  }

  /** When the engine matches "^\/$" against "/", a GET of "/" is answered
    * with the greeting and the default headers, Content-Length describing
    * the greeting. */
  lemma DefaultProgramGreets(re: RegexEngine, input: string)
    requires re.compiles(RootPattern) && re.matches(RootPattern, "/")
    requires ParseLegacy(input).Ok?
    requires ParseLegacy(input).value.httpMethod == "GET" && ParseLegacy(input).value.path == "/"
    ensures var r := Respond(DefaultProgram(re), input);
            && r.statusCode == 200 && r.statusText == "OK" && r.protocol == "HTTP/1.1" && r.body == Hello
            && r.headers == Some(DefaultHeaders["Content-Length" := Itoa(|Hello|)])
  {
    var pr := DefaultProgram(re);
    var req := ParseLegacy(input).value;
    DefaultRouteIsRoot(re);
    DefaultPipelineOfRoot(req);
  }

  lemma DefaultRouteIsRoot(re: RegexEngine)
    requires re.compiles(RootPattern) && re.matches(RootPattern, "/")
    ensures var pr := DefaultProgram(re);
            MatchRoute(pr.router, pr.order, "/", re) == Some(RootHandle)
  {
    assert RootPattern != "/";
    assert Selects(RootPattern, "/", re);
  }

  lemma DefaultPipelineOfRoot(req: LegacyRequest)
    ensures LastOutermost([LegacyBaseMiddleware], RootHandle)(req) ==
            Ok(LegacyResponse(200, "OK", "HTTP/1.1", Some(DefaultHeaders["Content-Length" := Itoa(|Hello|)]), Hello))
  {
    assert [LegacyBaseMiddleware][..0] == [];
    assert LastOutermost([LegacyBaseMiddleware], RootHandle) == LegacyBaseMiddleware(RootHandle);
    var r := LegacyBaseFinish(RootHandle(req)).value;
    assert r.headers.value == DefaultHeaders["Content-Length" := Itoa(|Hello|)];
  }

  /** HEAD is refused like any other method but GET. */
  lemma HeadIsRefused(pr: Program, input: string)
    requires ValidProgram(pr)
    requires ParseLegacy(input).Ok? && ParseLegacy(input).value.httpMethod == "HEAD"
    ensures Respond(pr, input).statusCode == 405 && Respond(pr, input).body == ""
  {
  }
}
