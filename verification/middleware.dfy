/** The standard middleware of the server package. Each middleware is the
  * handler transformer `next => (req => ...)`; what it does to the inner
  * outcome is stated on a separate "finish" function so that its contract
  * can speak about the inner result directly. */
module Middlewares {
  import opened Wrappers
  import opened Strings
  import opened Decimal
  import opened Http

  type Outcome = Result<Response, HandlerError>

  // ---------------------------------------------------------------- Base

  /** The protocol BaseMiddleware settles on. */
  function BaseProtocol(req: Request, resp: Response): string {
    if resp.protocol != "" then resp.protocol
    else if req.protocol != "" then req.protocol
    else "HTTP/1.1"
  }

  /** BaseMiddleware after the inner handler returned: errors pass through;
    * otherwise defaults fill the missing headers, the protocol is settled
    * and a missing Content-Length is computed from the in-memory body. */
  function BaseFinish(req: Request, inner: Outcome): (r: Outcome)
    ensures inner.Err? ==> r == inner
    ensures inner.Ok? ==> (
      && r.Ok? && r.value.headers.Some?
      && var (i, o, ih) := (inner.value, r.value.headers.value, HeadersOf(inner.value));
      && (forall k :: k in ih ==> k in o && o[k] == ih[k])
      && (forall k :: k in DefaultResponseHeaders && k !in ih ==> k in o && o[k] == DefaultResponseHeaders[k])
      && (forall k :: k in o ==> k in ih || k in DefaultResponseHeaders || k == "Content-Length")
      && ("Content-Length" !in ih ==> "Content-Length" in o && o["Content-Length"] == Itoa(|i.body|))
      && r.value == i.(headers := Some(o), protocol := BaseProtocol(req, i)))
  {
    match inner
    case Err(_) => inner
    case Ok(resp) =>
      var h := HeadersOf(resp);
      var filled := map k | k in h.Keys + DefaultResponseHeaders.Keys ::
                      if k in h then h[k] else DefaultResponseHeaders[k];
      var withLength := if "Content-Length" in filled then filled
                        else filled["Content-Length" := Itoa(|resp.body|)];
      Ok(resp.(headers := Some(withLength), protocol := BaseProtocol(req, resp)))
  }

  function BaseMiddleware(next: Handler): (h: Handler)
    ensures forall req :: h(req) == BaseFinish(req, next(req))
  {
    (req: Request) => BaseFinish(req, next(req))
  }

  /** What BaseMiddleware promises a caller: a handler error passes through;
    * a response keeps its body and every header the handler set, and leaves
    * with every default header, a Content-Length and a non-empty protocol. */
  lemma BaseMiddlewareOutcome(next: Handler, req: Request)
    ensures next(req).Err? ==> BaseMiddleware(next)(req) == next(req)
    ensures next(req).Ok? ==>
              var r := BaseMiddleware(next)(req);
              && r.Ok? && r.value.body == next(req).value.body
              && r.value.statusCode == next(req).value.statusCode
              && r.value.protocol != ""
              && var (ih, o) := (HeadersOf(next(req).value), HeadersOf(r.value));
              && DefaultResponseHeaders.Keys + {"Content-Length"} <= o.Keys
              && (forall k :: k in ih ==> k in o && o[k] == ih[k])
  {
  }

  /** Base is idempotent: running it twice adds nothing the first run did not. */
  lemma BaseIdempotent(req: Request, inner: Outcome)
    ensures BaseFinish(req, BaseFinish(req, inner)) == BaseFinish(req, inner)
  {
    if inner.Ok? {
      var once := BaseFinish(req, inner).value;
      var o1 := once.headers.value;
      var o2 := BaseFinish(req, Ok(once)).value.headers.value;
      assert "Content-Length" in o1;
      assert o2.Keys == o1.Keys;
      assert o2 == o1;
    }
  }

  /** After Base, every default header is present and Content-Length is
    * always set; when Base computed it, it reads back as the body length. */
  lemma BaseContentLengthReadable(req: Request, inner: Outcome)
    requires inner.Ok? && "Content-Length" !in HeadersOf(inner.value)
    requires |inner.value.body| <= MaxInt64
    ensures var o := BaseFinish(req, inner).value;
            Atoi(o.headers.value["Content-Length"]) == Ok(|o.body|)
  {
    AtoiOfItoa(|inner.value.body|);
  }

  // ------------------------------------------------------------- Logging

  /** LoggingMiddleware: the log records are side effects only; the inner
    * outcome is returned unchanged, error or not. */
  function LoggingMiddleware(): (mw: Middleware)
    ensures forall next: Handler, req: Request :: mw(next)(req) == next(req)
  {
    (next: Handler) => ((req: Request) => next(req))
  }

  // ---------------------------------------------------------------- Gzip

  /** The compressor: the gzip algorithm itself is not modelled. */
  datatype Codec = Codec(compress: string -> string, decompress: string -> string)

  /** A codec whose decompressor undoes its compressor. */
  ghost predicate RoundTrips(c: Codec) {
    forall b :: c.decompress(c.compress(b)) == b
  }

  /** Bodies shorter than this are never compressed. */
  const MinCompressSize: nat := 1024

  /** Content types that are compressed already. */
  const NoCompress: seq<string> := [
    "image/jpeg", "image/png", "image/gif", "image/webp", "video/", "audio/",
    "application/zip", "application/gzip", "application/x-gzip",
    "application/x-compress", "application/x-compressed"]

  function ContainsSome(s: string, needles: seq<string>): (r: bool)
    ensures r <==> exists i :: 0 <= i < |needles| && Contains(s, needles[i])
  {
    if |needles| == 0 then false
    else if Contains(s, needles[0]) then true
    else
      var r := ContainsSome(s, needles[1..]);
      assert forall i :: 1 <= i < |needles| ==> needles[i] == needles[1..][i - 1];
      r
  }

  /** shouldNotCompress: the lower-cased content type contains, anywhere,
    * one of the listed types. */
  function ShouldNotCompress(contentType: string): (r: bool)
    ensures r <==> exists i :: 0 <= i < |NoCompress| && Contains(ToLower(contentType), NoCompress[i])
  {
    ContainsSome(ToLower(contentType), NoCompress)
  }

  /** The decision does not depend on letter case. */
  lemma ShouldNotCompressIgnoresCase(a: string, b: string)
    requires ToLower(a) == ToLower(b)
    ensures ShouldNotCompress(a) == ShouldNotCompress(b)
  {
  }

  lemma NoCompressIsLowerCase(i: nat)
    requires i < |NoCompress|
    ensures ToLower(NoCompress[i]) == NoCompress[i]
  {
    var e := NoCompress[i];
    forall j | 0 <= j < |e|
      ensures LowerChar(e[j]) == e[j]
    {
      assert e[j] == '/' || e[j] == '-' || 'a' <= e[j] <= 'z';
    }
  }

  /** ToLower works character by character, so it distributes over concatenation. */
  lemma ToLowerConcat(a: string, b: string)
    ensures ToLower(a + b) == ToLower(a) + ToLower(b)
  {
  }

  /** A listed type anywhere in the header, not only at its start and in
    * any letter case, switches compression off. */
  lemma ShouldNotCompressAnywhere(before: string, i: nat, after: string)
    requires i < |NoCompress|
    ensures ShouldNotCompress(before + NoCompress[i] + after)
  {
    var e := NoCompress[i];
    ToLowerConcat(before + e, after);
    ToLowerConcat(before, e);
    NoCompressIsLowerCase(i);
    var low := ToLower(before + e + after);
    assert low == ToLower(before) + e + ToLower(after);
    assert low[|before|..] == e + ToLower(after);
    assert OccursAt(low, e, |before|);
  }

  /** The Vary value after compression. */
  function AddVary(vary: string): string {
    if vary != "" then vary + ", Accept-Encoding" else "Accept-Encoding"
  }

  /** GzipMiddleware after the inner handler returned, for a client that
    * accepts gzip: errors, already-encoded, short and already-compressed
    * responses pass through; otherwise the body is compressed and the
    * encoding, length and Vary headers describe the new body. */
  function GzipFinish(codec: Codec, inner: Outcome): (r: Outcome)
    ensures inner.Err? ==> r == inner
    ensures (inner.Ok? && (|| Header(inner.value, "Content-Encoding") != ""
                           || |inner.value.body| < MinCompressSize
                           || ShouldNotCompress(Header(inner.value, "Content-Type")))) ==> r == inner
    ensures inner.Ok? && Header(inner.value, "Content-Encoding") == ""
            && |inner.value.body| >= MinCompressSize
            && !ShouldNotCompress(Header(inner.value, "Content-Type")) ==>
              r.Ok? && r.value.headers.Some? &&
              var (i, o, ih, oh) := (inner.value, r.value, HeadersOf(inner.value), r.value.headers.value);
              && o.body == codec.compress(i.body)
              && oh.Keys == ih.Keys + {"Content-Encoding", "Content-Length", "Vary"}
              && oh["Content-Encoding"] == "gzip"
              && oh["Content-Length"] == Itoa(|o.body|)
              && oh["Vary"] == AddVary(Lookup(ih, "Vary"))
              && (forall k :: k in ih && k !in {"Content-Encoding", "Content-Length", "Vary"} ==> oh[k] == ih[k])
              && o == i.(body := o.body, headers := o.headers)
  {
    match inner
    case Err(_) => inner
    case Ok(resp) =>
      if Header(resp, "Content-Encoding") != "" then inner
      else if |resp.body| < MinCompressSize then inner
      else if ShouldNotCompress(Header(resp, "Content-Type")) then inner
      else
        var z := codec.compress(resp.body);
        var vary := AddVary(Header(resp, "Vary"));
        var h := HeadersOf(resp)["Content-Encoding" := "gzip"]["Content-Length" := Itoa(|z|)]["Vary" := vary];
        Ok(resp.(body := z, headers := Some(h)))
  }

  /** The request side of GzipMiddleware: without "gzip" in Accept-Encoding
    * the inner outcome is returned as is. */
  function GzipHandle(codec: Codec, next: Handler, req: Request): (r: Outcome)
    ensures !Contains(Lookup(req.headers, "Accept-Encoding"), "gzip") ==> r == next(req)
    ensures Contains(Lookup(req.headers, "Accept-Encoding"), "gzip") ==> r == GzipFinish(codec, next(req))
  {
    if !Contains(Lookup(req.headers, "Accept-Encoding"), "gzip") then next(req)
    else GzipFinish(codec, next(req))
  }

  function GzipMiddleware(codec: Codec): (mw: Middleware)
    ensures forall next: Handler, req: Request :: mw(next)(req) == GzipHandle(codec, next, req)
  {
    (next: Handler) => ((req: Request) => GzipHandle(codec, next, req))
  }

  /** What GzipMiddleware promises a caller: a client that does not accept
    * gzip, and a handler error, get the inner outcome as is; otherwise the
    * response is the inner one, or the inner one with its body compressed
    * and marked as gzip. */
  lemma GzipMiddlewareOutcome(codec: Codec, next: Handler, req: Request)
    ensures !Contains(Lookup(req.headers, "Accept-Encoding"), "gzip") || next(req).Err? ==>
              GzipMiddleware(codec)(next)(req) == next(req)
    ensures next(req).Ok? ==>
              var r := GzipMiddleware(codec)(next)(req);
              && r.Ok?
              && (|| r == next(req)
                  || (&& Header(r.value, "Content-Encoding") == "gzip"
                      && r.value.body == codec.compress(next(req).value.body)
                      && r.value.statusCode == next(req).value.statusCode))
  {
  }

  /** Whatever GzipMiddleware returns, a client that decompresses when told
    * Content-Encoding is gzip recovers the inner handler's body. */
  lemma GzipPreservesContent(codec: Codec, next: Handler, req: Request)
    requires RoundTrips(codec)
    requires next(req).Ok?
    ensures var r := GzipHandle(codec, next, req);
            r.Ok? &&
            (if r.value != next(req).value
             then Header(r.value, "Content-Encoding") == "gzip"
                  && codec.decompress(r.value.body) == next(req).value.body
             else r.value.body == next(req).value.body)
  {
  }

  // ------------------------------------------------------------ Security

  const ContentSecurityPolicy: string :=
    "default-src 'self'; script-src 'self' 'unsafe-inline'; style-src 'self' 'unsafe-inline';"

  /** The four headers SecurityMiddleware always sets, with their values. */
  const SecurityHeaders: map<string, string> := map[
    "X-Content-Type-Options" := "nosniff",
    "X-Frame-Options" := "DENY",
    "X-XSS-Protection" := "1; mode=block",
    "Referrer-Policy" := "strict-origin-when-cross-origin"]

  /** SecurityMiddleware after the inner handler returned: the four fixed
    * headers overwrite whatever was there; an HTML response also gets the
    * content security policy; nothing else changes. */
  function SecurityFinish(inner: Outcome): (r: Outcome)
    ensures inner.Err? ==> r == inner
    ensures inner.Ok? ==> (
      && r.Ok? && r.value.headers.Some?
      && var (ih, oh) := (HeadersOf(inner.value), r.value.headers.value);
      && (forall k :: k in SecurityHeaders ==> k in oh && oh[k] == SecurityHeaders[k])
      && (Contains(Lookup(ih, "Content-Type"), "text/html") ==>
            "Content-Security-Policy" in oh && oh["Content-Security-Policy"] == ContentSecurityPolicy)
      && (forall k :: k !in SecurityHeaders
                      && (k != "Content-Security-Policy" || !Contains(Lookup(ih, "Content-Type"), "text/html")) ==>
            (k in oh <==> k in ih) && (k in ih ==> oh[k] == ih[k]))
      && r.value == inner.value.(headers := Some(oh)))
  {
    match inner
    case Err(_) => inner
    case Ok(resp) =>
      var h := HeadersOf(resp) + SecurityHeaders;
      var h' := if Contains(Lookup(h, "Content-Type"), "text/html")
                then h["Content-Security-Policy" := ContentSecurityPolicy] else h;
      Ok(resp.(headers := Some(h')))
  }

  function SecurityMiddleware(next: Handler): (h: Handler)
    ensures forall req :: h(req) == SecurityFinish(next(req))
  {
    (req: Request) => SecurityFinish(next(req))
  }

  /** What SecurityMiddleware promises a caller: a handler error passes
    * through; a response keeps its body and status, carries the four
    * security headers with their fixed values, and keeps every other header
    * but the policy. */
  lemma SecurityMiddlewareOutcome(next: Handler, req: Request)
    ensures next(req).Err? ==> SecurityMiddleware(next)(req) == next(req)
    ensures next(req).Ok? ==>
              var r := SecurityMiddleware(next)(req);
              && r.Ok? && r.value.body == next(req).value.body
              && r.value.statusCode == next(req).value.statusCode
              && var (ih, o) := (HeadersOf(next(req).value), HeadersOf(r.value));
              && (forall k :: k in SecurityHeaders ==> k in o && o[k] == SecurityHeaders[k])
              && (forall k :: k in ih && k !in SecurityHeaders && k != "Content-Security-Policy" ==>
                    k in o && o[k] == ih[k])
  {
  }

  // ---------------------------------------------------------------- CORS

  /** The origin is allowed when the list has the wildcard or the origin itself. */
  predicate OriginAllowed(allowedOrigins: seq<string>, origin: string) {
    exists i :: 0 <= i < |allowedOrigins| && (allowedOrigins[i] == "*" || allowedOrigins[i] == origin)
  }

  /** The loop over the allow-list that decides whether the origin is allowed. */
  function FindAllowed(allowedOrigins: seq<string>, origin: string): (r: bool)
    ensures r <==> OriginAllowed(allowedOrigins, origin)
  {
    if |allowedOrigins| == 0 then false
    else if allowedOrigins[0] == "*" || allowedOrigins[0] == origin then true
    else
      var r := FindAllowed(allowedOrigins[1..], origin);
      assert forall i :: 1 <= i < |allowedOrigins| ==> allowedOrigins[i] == allowedOrigins[1..][i - 1];
      r
  }

  /** The four headers CORSMiddleware adds for an allowed origin. */
  function CorsHeaders(origin: string): map<string, string> {
    map[
      "Access-Control-Allow-Origin" := origin,
      "Access-Control-Allow-Methods" := "GET, HEAD, OPTIONS",
      "Access-Control-Allow-Headers" := "Content-Type, Accept",
      "Access-Control-Max-Age" := "86400"]
  }

  /** CORSMiddleware: for a non-empty allowed origin the four access-control
    * headers are added, echoing the origin; otherwise the inner outcome is
    * returned untouched. */
  function CORSHandle(allowedOrigins: seq<string>, next: Handler, req: Request): (r: Outcome)
    ensures var origin := Lookup(req.headers, "Origin");
            !(origin != "" && OriginAllowed(allowedOrigins, origin)) || next(req).Err? ==> r == next(req)
    ensures var origin := Lookup(req.headers, "Origin");
            origin != "" && OriginAllowed(allowedOrigins, origin) && next(req).Ok? ==>
              r.Ok? && r.value.headers.Some? &&
              var (ih, oh) := (HeadersOf(next(req).value), r.value.headers.value);
              && "Access-Control-Allow-Origin" in oh && oh["Access-Control-Allow-Origin"] == origin
              && (forall k :: k in CorsHeaders(origin) ==> k in oh && oh[k] == CorsHeaders(origin)[k])
              && (forall k :: k !in CorsHeaders(origin) ==> (k in oh <==> k in ih) && (k in ih ==> oh[k] == ih[k]))
              && r.value == next(req).value.(headers := Some(oh))
  {
    var origin := Lookup(req.headers, "Origin");
    var allowed := FindAllowed(allowedOrigins, origin);
    match next(req)
    case Err(_) => next(req)
    case Ok(resp) =>
      if allowed && origin != "" then Ok(resp.(headers := Some(HeadersOf(resp) + CorsHeaders(origin))))
      else next(req)
  }

  function CORSMiddleware(allowedOrigins: seq<string>): (mw: Middleware)
    ensures forall next: Handler, req: Request :: mw(next)(req) == CORSHandle(allowedOrigins, next, req)
  {
    (next: Handler) => ((req: Request) => CORSHandle(allowedOrigins, next, req))
  }

  /** What CORSMiddleware promises a caller: a request without a non-empty
    * allowed Origin, and a handler error, get the inner outcome as is; for
    * an allowed origin the response keeps its body and status and echoes
    * the origin back. */
  lemma CORSMiddlewareOutcome(allowedOrigins: seq<string>, next: Handler, req: Request)
    ensures var origin := Lookup(req.headers, "Origin");
            origin == "" || !OriginAllowed(allowedOrigins, origin) || next(req).Err? ==>
              CORSMiddleware(allowedOrigins)(next)(req) == next(req)
    ensures var origin := Lookup(req.headers, "Origin");
            origin != "" && OriginAllowed(allowedOrigins, origin) && next(req).Ok? ==>
              var r := CORSMiddleware(allowedOrigins)(next)(req);
              && r.Ok?
              && r.value.body == next(req).value.body
              && r.value.statusCode == next(req).value.statusCode
              && Lookup(HeadersOf(r.value), "Access-Control-Allow-Origin") == origin
  {
  }
}
