/** The HTTP server of the server package: request dispatch through the
  * router and the middleware chain, the default configuration, and the
  * keep-alive loop over one connection. */
module Server {
  import opened Wrappers
  import opened Strings
  import opened Http
  import opened Router
  import opened Wire
  import opened WireRoundTrip
  import opened Middlewares
  import opened FilePath
  import Files
  import opened Chain

  /** A server: its router, its middlewares (the first is outermost) and
    * the regular-expression engine the router uses. */
  datatype HTTPServer = HTTPServer(
    router: HTTPRouter<Handler>,
    middlewares: seq<Middleware>,
    re: RegexEngine)

  // ------------------------------------------------------------ dispatch

  predicate AllowedMethod(m: string) {
    m == "GET" || m == "HEAD"
  }

  /** handleRequest: methods other than GET and HEAD get 405; a path no
    * route matches gets 404; a handler error gets 500; a HEAD answer from
    * the handler loses its body and its stream. */
  function HandleRequest(s: HTTPServer, req: Request): (r: Response)
    ensures !AllowedMethod(req.httpMethod) ==> r == HTTP405MethodNotAllowed()
    ensures AllowedMethod(req.httpMethod) && Match(s.router, req.path, s.re).None? ==> r == HTTP404NotFound()
    ensures AllowedMethod(req.httpMethod) && Match(s.router, req.path, s.re).Some? ==>
              var out := Pipeline(s.middlewares, Match(s.router, req.path, s.re).value)(req);
              && (out.Err? ==> r == HTTP500InternalServerError())
              && (out.Ok? && req.httpMethod == "GET" ==> r == out.value)
              && (out.Ok? && req.httpMethod == "HEAD" ==> r == out.value.(body := "", reader := None))
  {
    if !AllowedMethod(req.httpMethod) then HTTP405MethodNotAllowed()
    else
      match Match(s.router, req.path, s.re)
      case None => HTTP404NotFound()
      case Some(handler) =>
        match Pipeline(s.middlewares, handler)(req)
        case Err(_) => HTTP500InternalServerError()
        case Ok(resp) =>
          if req.httpMethod == "HEAD" then resp.(body := "", reader := None) else resp
  }

  /** A handler that does not look at the request method. */
  ghost predicate MethodBlind(h: Handler) {
    forall req: Request, m: string :: h(req.(httpMethod := m)) == h(req)
  }

  /** HEAD is answered like GET: the same response with the body and the
    * stream dropped when a handler produced it, and the identical 404 or
    * 500 answer (body included) when none did. */
  lemma HeadLikeGet(s: HTTPServer, req: Request)
    requires forall h :: h in s.router.handlers.Values ==> MethodBlind(Pipeline(s.middlewares, h))
    requires forall i :: 0 <= i < |s.router.patterns| ==> MethodBlind(Pipeline(s.middlewares, s.router.patterns[i].handler))
    ensures var g := HandleRequest(s, req.(httpMethod := "GET"));
            var h := HandleRequest(s, req.(httpMethod := "HEAD"));
            h == g.(body := "", reader := None)
            || (h == g && (g == HTTP404NotFound() || g == HTTP500InternalServerError()))
  {
    var get, head := req.(httpMethod := "GET"), req.(httpMethod := "HEAD");
    match Match(s.router, req.path, s.re)
    case None =>
    case Some(handler) =>
      var p := Pipeline(s.middlewares, handler);
      assert MethodBlind(p) by {
        if req.path in s.router.handlers {
          assert handler in s.router.handlers.Values;
        } else {
          var i :| 0 <= i < |s.router.patterns| && handler == s.router.patterns[i].handler;
        }
      }
      assert p(head) == p(get) by {
        assert p(get.(httpMethod := "HEAD")) == p(get);
        assert get.(httpMethod := "HEAD") == head;
      }
  }

  // -------------------------------------------------- default configuration

  /** The one route of a new server: every absolute path. */
  const CatchAll: string := "^/.*$"

  /** NewHTTPServer: every path goes to the file handler, wrapped in Base
    * (outermost), Logging and Gzip. */
  function NewHTTPServer(dir: string, cwd: AbsPath, fs: Files.FileSystem, re: RegexEngine, codec: Codec): (s: HTTPServer)
    ensures |s.middlewares| == 3
    ensures re.compiles(CatchAll) ==> (
              && s.router.handlers == map[]
              && s.router.patterns == [CompiledPattern(CatchAll, Files.FileHandler(dir, cwd, fs))])
    ensures !re.compiles(CatchAll) ==> (
              && s.router.patterns == []
              && s.router.handlers == map[CatchAll := Files.FileHandler(dir, cwd, fs)])
  {
    assert CatchAll[0] == '^';
    HTTPServer(
      AddRoute(NewHTTPRouter(), CatchAll, Files.FileHandler(dir, cwd, fs), re),
      [BaseMiddleware, LoggingMiddleware(), GzipMiddleware(codec)],
      re)
  }

  /** A new server's chain is Base around Logging around Gzip: Gzip sees the
    * handler's response first, and Base keeps the encoding and length it
    * sets. */
  lemma DefaultChainOrder(dir: string, cwd: AbsPath, fs: Files.FileSystem, re: RegexEngine, codec: Codec)
    ensures forall next: Handler, req: Request ::
              Pipeline(NewHTTPServer(dir, cwd, fs, re, codec).middlewares, next)(req)
              == BaseFinish(req, GzipHandle(codec, next, req))
  {
    var mws := NewHTTPServer(dir, cwd, fs, re, codec).middlewares;
    assert mws == [BaseMiddleware, LoggingMiddleware(), GzipMiddleware(codec)];
    assert mws[1..] == [LoggingMiddleware(), GzipMiddleware(codec)];
    assert mws[1..][1..] == [GzipMiddleware(codec)];
    assert mws[1..][1..][1..] == [];
    forall next: Handler, req: Request
      ensures Pipeline(mws, next)(req) == BaseFinish(req, GzipHandle(codec, next, req))
    {
      var g := GzipMiddleware(codec)(next);
      var l := LoggingMiddleware()(g);
      assert Pipeline(mws[1..][1..], next) == g;
      assert Pipeline(mws[1..], next) == l;
      assert Pipeline(mws, next) == BaseMiddleware(l);
    }
  }

  lemma FileHandlerMethodBlind(dir: string, cwd: AbsPath, fs: Files.FileSystem)
    ensures MethodBlind(Files.FileHandler(dir, cwd, fs))
  {
    forall req: Request, m: string
      ensures Files.FileHandler(dir, cwd, fs)(req.(httpMethod := m)) == Files.FileHandler(dir, cwd, fs)(req)
    {
      assert req.(httpMethod := m).path == req.path;
    }
  }

  lemma BaseKeepsMethodBlind(h: Handler)
    requires MethodBlind(h)
    ensures MethodBlind(BaseMiddleware(h))
  {
    forall req: Request, m: string
      ensures BaseMiddleware(h)(req.(httpMethod := m)) == BaseMiddleware(h)(req)
    {
      var req' := req.(httpMethod := m);
      assert h(req') == h(req);
      assert req'.protocol == req.protocol;
    }
  }

  lemma LoggingKeepsMethodBlind(h: Handler)
    requires MethodBlind(h)
    ensures MethodBlind(LoggingMiddleware()(h))
  {
  }

  lemma GzipKeepsMethodBlind(codec: Codec, h: Handler)
    requires MethodBlind(h)
    ensures MethodBlind(GzipMiddleware(codec)(h))
  {
    forall req: Request, m: string
      ensures GzipMiddleware(codec)(h)(req.(httpMethod := m)) == GzipMiddleware(codec)(h)(req)
    {
      var req' := req.(httpMethod := m);
      assert h(req') == h(req);
      assert GzipHandle(codec, h, req') == GzipHandle(codec, h, req);
    }
  }

  /** None of the default layers looks at the method. */
  lemma DefaultPipelineMethodBlind(dir: string, cwd: AbsPath, fs: Files.FileSystem, codec: Codec)
    ensures MethodBlind(Pipeline([BaseMiddleware, LoggingMiddleware(), GzipMiddleware(codec)],
                                 Files.FileHandler(dir, cwd, fs)))
  {
    var mws := [BaseMiddleware, LoggingMiddleware(), GzipMiddleware(codec)];
    var file := Files.FileHandler(dir, cwd, fs);
    var g := GzipMiddleware(codec)(file);
    var l := LoggingMiddleware()(g);
    assert mws[1..] == [LoggingMiddleware(), GzipMiddleware(codec)];
    assert mws[1..][1..] == [GzipMiddleware(codec)];
    assert mws[1..][1..][1..] == [];
    assert Pipeline(mws[1..][1..], file) == g;
    assert Pipeline(mws[1..], file) == l;
    assert Pipeline(mws, file) == BaseMiddleware(l);
    FileHandlerMethodBlind(dir, cwd, fs);
    GzipKeepsMethodBlind(codec, file);
    LoggingKeepsMethodBlind(g);
    BaseKeepsMethodBlind(l);
  }

  /** The default server answers HEAD like GET without the content. */
  lemma DefaultServerHeadLikeGet(dir: string, cwd: AbsPath, fs: Files.FileSystem, re: RegexEngine, codec: Codec, req: Request)
    ensures var s := NewHTTPServer(dir, cwd, fs, re, codec);
            var g := HandleRequest(s, req.(httpMethod := "GET"));
            var h := HandleRequest(s, req.(httpMethod := "HEAD"));
            h == g.(body := "", reader := None)
            || (h == g && (g == HTTP404NotFound() || g == HTTP500InternalServerError()))
  {
    var s := NewHTTPServer(dir, cwd, fs, re, codec);
    DefaultPipelineMethodBlind(dir, cwd, fs, codec);
    HeadLikeGet(s, req);
  }

  // ---------------------------------------------------------- connection

  /** One request read from a connection and the response written for it. */
  datatype Exchange = Exchange(request: Request, response: Response)

  /** Why the loop over a connection ended. */
  datatype Stop =
    | Cancelled                                          // the server was shutting down before the next read
    | ParseFailed(error: ParseError)                     // reading the next request failed; nothing is written
    | WriteFailed(request: Request, response: Response)  // writing this response failed
    | CloseRequested                                     // the last request asked for "Connection: close"

  /** The responses written on a connection, in order, and how it ended. */
  datatype Transcript = Transcript(exchanges: seq<Exchange>, stop: Stop)

  /** The request's Connection header, compared case-insensitively, is
    * "close". The key itself is matched exactly, as the parser stores it. */
  function WantsClose(req: Request): (b: bool)
    ensures b ==> "Connection" in req.headers
    ensures b <==> var v := Lookup(req.headers, "Connection");
                   |v| == 5 && forall i :: 0 <= i < 5 ==> LowerChar(v[i]) == "close"[i]
  {
    var v := ToLower(Lookup(req.headers, "Connection"));
    assert v == "close" <== |v| == 5 && forall i :: 0 <= i < 5 ==> v[i] == "close"[i];
    v == "close"
  }

  /** Whether a failed read is written to the log: not when the error text
    * looks like the peer went away. */
  function Logged(e: ParseError): (r: bool)
    ensures r ==> e.InvalidRequestLine? || e.UnsupportedProtocol? || e.InvalidContentLength?
    ensures r ==> !Contains(Detail(e), "EOF")
  {
    EndOfStreamIsConnectionClosed(e);
    !IsConnectionClosedError(e)
  }

  /** Reads one request off the front of a stream. */
  type Reader = string -> Result<(Request, string), ParseError>

  /** A reader that, when it succeeds, always consumes some input. */
  ghost predicate Consumes(read: Reader) {
    forall input: string :: read(input).Ok? ==> |read(input).value.1| < |input|
  }

  lemma ParseRequestConsumes()
    ensures Consumes(ParseRequest)
  {
    forall input: string | ParseRequest(input).Ok?
      ensures |ParseRequest(input).value.1| < |input|
    {
    }
  }

  /** handleConnection on the octets `input` the peer sends, reading with
    * `read`, answering with `answer` and stopping after a request for which
    * `closes` holds. The `k`-th exchange (counting from
    * the first) sees `cancelled(k)` as the state of the server's context
    * before its read and `writeFails(k)` as the fate of its write. */
  function Serve(read: Reader, answer: Request -> Response, closes: Request -> bool, input: string,
                 cancelled: nat -> bool, writeFails: nat -> bool, k: nat): (t: Transcript)
    requires Consumes(read)
    ensures |t.exchanges| <= |input|
    decreases |input|
  {
    if cancelled(k) then Transcript([], Cancelled)
    else
      match read(input)
      case Err(e) => Transcript([], ParseFailed(e))
      case Ok((req, rest)) =>
        var resp := answer(req);
        if writeFails(k) then Transcript([], WriteFailed(req, resp))
        else if closes(req) then Transcript([Exchange(req, resp)], CloseRequested)
        else
          var t := Serve(read, answer, closes, rest, cancelled, writeFails, k + 1);
          Transcript([Exchange(req, resp)] + t.exchanges, t.stop)
  }

  /** The connection loop of server `s`, from the `k`-th exchange on. */
  function ServeFrom(s: HTTPServer, input: string, cancelled: nat -> bool, writeFails: nat -> bool, k: nat): (t: Transcript)
    ensures |t.exchanges| <= |input|
    ensures forall i :: 0 <= i < |t.exchanges| ==> t.exchanges[i].response == HandleRequest(s, t.exchanges[i].request)
    ensures forall i :: 0 <= i < |t.exchanges| - 1 ==> !WantsClose(t.exchanges[i].request)
  {
    ParseRequestConsumes();
    ServeExchanges(ParseRequest, Answer(s), WantsClose, input, cancelled, writeFails, k);
    Serve(ParseRequest, Answer(s), WantsClose, input, cancelled, writeFails, k)
  }

  /** How server `s` answers one parsed request. */
  function Answer(s: HTTPServer): Request -> Response {
    (req: Request) => HandleRequest(s, req)
  }

  /** What every written exchange satisfies: each response is the answer to
    * its request; no written exchange met a shutdown or a failed write; only
    * the last request may ask to close. */
  lemma {:induction false} ServeExchanges(read: Reader, answer: Request -> Response, closes: Request -> bool, input: string,
                                          cancelled: nat -> bool, writeFails: nat -> bool, k: nat)
    requires Consumes(read)
    ensures ExchangesRight(Serve(read, answer, closes, input, cancelled, writeFails, k), answer, closes, cancelled, writeFails, k)
    decreases |input|
  {
    var t := Serve(read, answer, closes, input, cancelled, writeFails, k);
    if cancelled(k) || read(input).Err? {
      assert t.exchanges == [];
    } else {
      var (req, rest) := read(input).value;
      if writeFails(k) {
        assert t.exchanges == [];
      } else if closes(req) {
        assert t.exchanges == [Exchange(req, answer(req))];
      } else {
        ServeStep(read, answer, closes, input, req, rest, cancelled, writeFails, k);
        ServeExchanges(read, answer, closes, rest, cancelled, writeFails, k + 1);
        var later := Serve(read, answer, closes, rest, cancelled, writeFails, k + 1);
        ExchangesRightCons(t, later, req, answer, closes, cancelled, writeFails, k);
      }
    }
  }

  /** The exchanges of `t`, the first numbered `k`, are answers written while
    * the server was up and writes succeeded, and only the last asked to close. */
  predicate ExchangesRight(t: Transcript, answer: Request -> Response, closes: Request -> bool, cancelled: nat -> bool, writeFails: nat -> bool, k: nat) {
    && (forall i :: 0 <= i < |t.exchanges| ==> t.exchanges[i].response == answer(t.exchanges[i].request))
    && (forall j :: k <= j < k + |t.exchanges| ==> !cancelled(j) && !writeFails(j))
    && (forall i :: 0 <= i < |t.exchanges| - 1 ==> !closes(t.exchanges[i].request))
  }

  lemma ExchangesRightCons(t: Transcript, later: Transcript, req: Request,
                           answer: Request -> Response, closes: Request -> bool, cancelled: nat -> bool, writeFails: nat -> bool, k: nat)
    requires t.exchanges == [Exchange(req, answer(req))] + later.exchanges
    requires !closes(req) && !cancelled(k) && !writeFails(k)
    requires ExchangesRight(later, answer, closes, cancelled, writeFails, k + 1)
    ensures ExchangesRight(t, answer, closes, cancelled, writeFails, k)
  {
    assert forall i :: 1 <= i < |t.exchanges| ==> t.exchanges[i] == later.exchanges[i - 1];
  }

  /** Why the loop stopped: it stops on a request asking to close exactly when
    * the last written request asked to; a shutdown or a failed write is what
    * ended the loop when it says so, and a failed write carries the answer. */
  lemma {:induction false} ServeStops(read: Reader, answer: Request -> Response, closes: Request -> bool, input: string,
                                      cancelled: nat -> bool, writeFails: nat -> bool, k: nat)
    requires Consumes(read)
    ensures StopsRightly(Serve(read, answer, closes, input, cancelled, writeFails, k), answer, closes, cancelled, writeFails, k)
    decreases |input|
  {
    var t := Serve(read, answer, closes, input, cancelled, writeFails, k);
    if cancelled(k) {
      assert t == Transcript([], Cancelled);
    } else if read(input).Err? {
      assert t == Transcript([], ParseFailed(read(input).error));
    } else {
      var (req, rest) := read(input).value;
      if writeFails(k) {
        assert t == Transcript([], WriteFailed(req, answer(req)));
      } else if closes(req) {
        assert t == Transcript([Exchange(req, answer(req))], CloseRequested);
      } else {
        ServeStep(read, answer, closes, input, req, rest, cancelled, writeFails, k);
        ServeStops(read, answer, closes, rest, cancelled, writeFails, k + 1);
        var later := Serve(read, answer, closes, rest, cancelled, writeFails, k + 1);
        StopsRightlyCons(t, later, Exchange(req, answer(req)), answer, closes, cancelled, writeFails, k);
      }
    }
  }

  /** Transcript `t`, whose first exchange is numbered `k`, stopped for a
    * reason it records faithfully. */
  predicate StopsRightly(t: Transcript, answer: Request -> Response, closes: Request -> bool, cancelled: nat -> bool, writeFails: nat -> bool, k: nat) {
    && (t.stop.CloseRequested? <==> |t.exchanges| > 0 && closes(t.exchanges[|t.exchanges| - 1].request))
    && (t.stop.Cancelled? ==> cancelled(k + |t.exchanges|))
    && (t.stop.WriteFailed? ==> writeFails(k + |t.exchanges|) && t.stop.response == answer(t.stop.request))
  }

  lemma StopsRightlyCons(t: Transcript, later: Transcript, e: Exchange,
                         answer: Request -> Response, closes: Request -> bool, cancelled: nat -> bool, writeFails: nat -> bool, k: nat)
    requires t == Transcript([e] + later.exchanges, later.stop)
    requires !closes(e.request)
    requires StopsRightly(later, answer, closes, cancelled, writeFails, k + 1)
    ensures StopsRightly(t, answer, closes, cancelled, writeFails, k)
  {
    assert k + |t.exchanges| == (k + 1) + |later.exchanges|;
    assert |later.exchanges| > 0 ==> t.exchanges[|t.exchanges| - 1] == later.exchanges[|later.exchanges| - 1];
  }

  /** One keep-alive iteration: the answer is written and the loop goes on
    * with what the request left unread. */
  lemma ServeStep(read: Reader, answer: Request -> Response, closes: Request -> bool, input: string, req: Request, rest: string,
                  cancelled: nat -> bool, writeFails: nat -> bool, k: nat)
    requires Consumes(read)
    requires !cancelled(k) && !writeFails(k) && read(input) == Ok((req, rest)) && !closes(req)
    ensures var later := Serve(read, answer, closes, rest, cancelled, writeFails, k + 1);
            Serve(read, answer, closes, input, cancelled, writeFails, k)
            == Transcript([Exchange(req, answer(req))] + later.exchanges, later.stop)
  {
  }

  /** The loop of handleConnection, one iteration per request. */
  method RunConnection(read: Reader, answer: Request -> Response, closes: Request -> bool, input: string,
                       cancelled: nat -> bool, writeFails: nat -> bool)
    returns (t: Transcript)
    requires Consumes(read)
    ensures t == Serve(read, answer, closes, input, cancelled, writeFails, 0)
  {
    var written: seq<Exchange> := [];
    var rest := input;
    var k: nat := 0;
    while true
      invariant Serve(read, answer, closes, input, cancelled, writeFails, 0)
                == Transcript(written + Serve(read, answer, closes, rest, cancelled, writeFails, k).exchanges,
                              Serve(read, answer, closes, rest, cancelled, writeFails, k).stop)
      decreases |rest|
    {
      if cancelled(k) {
        return Transcript(written, Cancelled);
      }
      var parsed := read(rest);
      if parsed.Err? {
        return Transcript(written, ParseFailed(parsed.error));
      }
      var (req, next) := parsed.value;
      var resp := answer(req);
      if writeFails(k) {
        return Transcript(written, WriteFailed(req, resp));
      }
      if closes(req) {
        return Transcript(written + [Exchange(req, resp)], CloseRequested);
      }
      var later := Serve(read, answer, closes, next, cancelled, writeFails, k + 1);
      assert Serve(read, answer, closes, rest, cancelled, writeFails, k) == Transcript([Exchange(req, resp)] + later.exchanges, later.stop);
      assert written + ([Exchange(req, resp)] + later.exchanges) == (written + [Exchange(req, resp)]) + later.exchanges;
      written := written + [Exchange(req, resp)];
      rest := next;
      k := k + 1;
    }
  }

  /** A peer that sends nothing more ends the loop without a log record. */
  lemma EndOfStreamIsQuiet(s: HTTPServer, cancelled: nat -> bool, writeFails: nat -> bool, k: nat)
    requires !cancelled(k)
    ensures ServeFrom(s, "", cancelled, writeFails, k) == Transcript([], ParseFailed(RequestLineEOF))
    ensures !Logged(RequestLineEOF)
  {
    EndOfStreamIsConnectionClosed(RequestLineEOF);
  }

  /** The parts of a request as a client lays it out on the wire. */
  datatype RawRequest = RawRequest(m: string, p: string, v: string, hs: seq<(string, string)>, body: string)

  /** What the request parser can read back exactly. */
  predicate Readable(r: RawRequest) {
    && ' ' !in r.m && '\n' !in r.m && ' ' !in r.p && '\n' !in r.p && SupportedProtocol(r.v)
    && AllWellFormed(r.hs)
    && BodyFramed(Updates(map[], r.hs), r.body)
  }

  function Rendered(r: RawRequest): string {
    RenderRequest(r.m, r.p, r.v, r.hs, r.body)
  }

  /** The request the parser makes of `r`. */
  function Parsed(r: RawRequest): Request {
    Request(r.m, r.p, r.v, Updates(map[], r.hs), r.body, "")
  }

  function RenderAll(rs: seq<RawRequest>): string
    decreases |rs|
  {
    if |rs| == 0 then "" else Rendered(rs[0]) + RenderAll(rs[1..])
  }

  /** A request asking to close is answered and nothing after it is read,
    * whatever the peer pipelined behind it. */
  lemma CloseStopsReading(s: HTTPServer, r: RawRequest, rest: string, cancelled: nat -> bool, writeFails: nat -> bool, k: nat)
    requires Readable(r) && WantsClose(Parsed(r))
    requires !cancelled(k) && !writeFails(k)
    ensures ServeFrom(s, Rendered(r) + rest, cancelled, writeFails, k)
            == Transcript([Exchange(Parsed(r), HandleRequest(s, Parsed(r)))], CloseRequested)
  {
    ParseRequestRoundTrip(r.m, r.p, r.v, r.hs, r.body, rest);
  }

  /** A keep-alive request is answered and the loop goes on with the rest. */
  lemma KeepAliveStep(s: HTTPServer, r: RawRequest, rest: string, cancelled: nat -> bool, writeFails: nat -> bool, k: nat)
    requires Readable(r) && !WantsClose(Parsed(r))
    requires !cancelled(k) && !writeFails(k)
    ensures var later := ServeFrom(s, rest, cancelled, writeFails, k + 1);
            ServeFrom(s, Rendered(r) + rest, cancelled, writeFails, k)
            == Transcript([Exchange(Parsed(r), HandleRequest(s, Parsed(r)))] + later.exchanges, later.stop)
  {
    ParseRequestRoundTrip(r.m, r.p, r.v, r.hs, r.body, rest);
  }

  /** Keep-alive: requests sent back to back on one connection are answered
    * one by one, in order, each exactly as parsed, until the stream ends. */
  lemma KeepAliveAnswersAll(s: HTTPServer, rs: seq<RawRequest>, cancelled: nat -> bool, writeFails: nat -> bool, k: nat)
    requires forall i :: 0 <= i < |rs| ==> Readable(rs[i]) && !WantsClose(Parsed(rs[i]))
    requires forall j :: k <= j <= k + |rs| ==> !cancelled(j)
    requires forall j :: k <= j < k + |rs| ==> !writeFails(j)
    ensures var t := ServeFrom(s, RenderAll(rs), cancelled, writeFails, k);
            && |t.exchanges| == |rs|
            && (forall i :: 0 <= i < |rs| ==> t.exchanges[i].request == Parsed(rs[i]))
            && t.stop == ParseFailed(RequestLineEOF)
  {
    ParseRequestConsumes();
    forall i | 0 <= i < |rs|
      ensures ParseRequest(RenderAll(rs[i..])) == Ok((Parsed(rs[i]), RenderAll(rs[i + 1..])))
    {
      ParsesInTurn(rs, i);
    }
    assert ParseRequest("") == Err(RequestLineEOF);
    KeepAliveWith(ParseRequest, Answer(s), WantsClose, rs, cancelled, writeFails, k);
  }

  /** Keep-alive for any reader that reads each rendered request back off the
    * front of the rest and reports the end of the stream as the parser does. */
  lemma KeepAliveWith(read: Reader, answer: Request -> Response, closes: Request -> bool, rs: seq<RawRequest>,
                      cancelled: nat -> bool, writeFails: nat -> bool, k: nat)
    requires Consumes(read)
    requires forall i :: 0 <= i < |rs| ==> read(RenderAll(rs[i..])) == Ok((Parsed(rs[i]), RenderAll(rs[i + 1..])))
    requires read("") == Err(RequestLineEOF)
    requires forall i :: 0 <= i < |rs| ==> !closes(Parsed(rs[i]))
    requires forall j :: k <= j <= k + |rs| ==> !cancelled(j)
    requires forall j :: k <= j < k + |rs| ==> !writeFails(j)
    ensures var t := Serve(read, answer, closes, RenderAll(rs), cancelled, writeFails, k);
            && |t.exchanges| == |rs|
            && (forall i :: 0 <= i < |rs| ==> t.exchanges[i].request == Parsed(rs[i]))
            && t.stop == ParseFailed(RequestLineEOF)
  {
    RenderAllChains(read, rs, 0);
    assert rs[0..] == rs;
    ServeChain(read, answer, closes, RenderAll(rs), ParsedAll(rs), "", cancelled, writeFails, k);
    assert Serve(read, answer, closes, "", cancelled, writeFails, k + |rs|) == Transcript([], ParseFailed(RequestLineEOF));
  }

  /** The requests the parser makes of `rs`, in order. */
  function ParsedAll(rs: seq<RawRequest>): (reqs: seq<Request>)
    ensures |reqs| == |rs| && forall i :: 0 <= i < |rs| ==> reqs[i] == Parsed(rs[i])
  {
    seq(|rs|, i requires 0 <= i < |rs| => Parsed(rs[i]))
  }

  /** What is left of `input` once `read` has read exactly `reqs` off its
    * front, one after the other; None when some read gives anything else. */
  function Chained(read: Reader, input: string, reqs: seq<Request>): Option<string>
    decreases |reqs|
  {
    if |reqs| == 0 then Some(input)
    else match read(input)
      case Ok((req, rest)) => if req == reqs[0] then Chained(read, rest, reqs[1..]) else None
      case Err(_) => None
  }

  /** A reader that reads each rendered request back off the front of the
    * rest reads the whole rendering as the requests, leaving nothing. */
  lemma {:induction false} RenderAllChains(read: Reader, rs: seq<RawRequest>, from: nat)
    requires from <= |rs|
    requires forall i :: from <= i < |rs| ==> read(RenderAll(rs[i..])) == Ok((Parsed(rs[i]), RenderAll(rs[i + 1..])))
    ensures Chained(read, RenderAll(rs[from..]), ParsedAll(rs[from..])) == Some("")
    decreases |rs| - from
  {
    if from < |rs| {
      RenderAllChains(read, rs, from + 1);
      assert read(RenderAll(rs[from..])) == Ok((Parsed(rs[from]), RenderAll(rs[from + 1..])));
      assert ParsedAll(rs[from..])[1..] == ParsedAll(rs[from + 1..]);
    } else {
      assert rs[from..] == [];
    }
  }

  /** The parser reads back each request of a rendered sequence off the front
    * of the rendering of the rest. */
  lemma ParsesInTurn(rs: seq<RawRequest>, i: nat)
    requires i < |rs| && Readable(rs[i])
    ensures ParseRequest(RenderAll(rs[i..])) == Ok((Parsed(rs[i]), RenderAll(rs[i + 1..])))
  {
    RenderAllStep(rs, i);
    var r := rs[i];
    ParseRequestRoundTrip(r.m, r.p, r.v, r.hs, r.body, RenderAll(rs[i + 1..]));
  }

  lemma RenderAllStep(rs: seq<RawRequest>, i: nat)
    requires i < |rs|
    ensures RenderAll(rs[i..]) == Rendered(rs[i]) + RenderAll(rs[i + 1..])
  {
    assert rs[i..][1..] == rs[i + 1..];
  }

  /** Requests that each parse off the front of the input are answered in
    * order while the server is neither shut down nor failing to write; the
    * loop then goes on from what they left. */
  lemma {:induction false} ServeChain(read: Reader, answer: Request -> Response, closes: Request -> bool, input: string, reqs: seq<Request>,
                                      leftover: string, cancelled: nat -> bool, writeFails: nat -> bool, k: nat)
    requires Consumes(read)
    requires Chained(read, input, reqs) == Some(leftover)
    requires forall i :: 0 <= i < |reqs| ==> !closes(reqs[i])
    requires forall j :: k <= j < k + |reqs| ==> !cancelled(j) && !writeFails(j)
    ensures AnsweredInOrder(Serve(read, answer, closes, input, cancelled, writeFails, k),
                            Serve(read, answer, closes, leftover, cancelled, writeFails, k + |reqs|), reqs, answer)
    decreases |reqs|
  {
    if |reqs| > 0 {
      var (req, rest) := read(input).value;
      assert req == reqs[0] && !closes(req);
      assert !cancelled(k) && !writeFails(k);
      ServeStep(read, answer, closes, input, req, rest, cancelled, writeFails, k);
      ServeChain(read, answer, closes, rest, reqs[1..], leftover, cancelled, writeFails, k + 1);
      var t := Serve(read, answer, closes, input, cancelled, writeFails, k);
      var later := Serve(read, answer, closes, rest, cancelled, writeFails, k + 1);
      var tail := Serve(read, answer, closes, leftover, cancelled, writeFails, k + |reqs|);
      assert k + 1 + |reqs[1..]| == k + |reqs|;
      AnsweredInOrderCons(t, later, tail, req, reqs[1..], answer);
      assert [req] + reqs[1..] == reqs;
    }
  }

  /** Transcript `t` answers `reqs` in order and then continues as `tail`. */
  predicate AnsweredInOrder(t: Transcript, tail: Transcript, reqs: seq<Request>, answer: Request -> Response) {
    && |t.exchanges| == |reqs| + |tail.exchanges| && t.stop == tail.stop
    && forall i :: 0 <= i < |reqs| ==> t.exchanges[i] == Exchange(reqs[i], answer(reqs[i]))
  }

  lemma AnsweredInOrderCons(t: Transcript, later: Transcript, tail: Transcript, r: Request, rest: seq<Request>,
                            answer: Request -> Response)
    requires t == Transcript([Exchange(r, answer(r))] + later.exchanges, later.stop)
    requires AnsweredInOrder(later, tail, rest, answer)
    ensures AnsweredInOrder(t, tail, [r] + rest, answer)
  {
    forall i | 1 <= i < 1 + |rest|
      ensures t.exchanges[i] == Exchange(([r] + rest)[i], answer(([r] + rest)[i]))
    {
      assert t.exchanges[i] == later.exchanges[i - 1];
      assert ([r] + rest)[i] == rest[i - 1];
    }
  }
}
