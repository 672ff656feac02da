/** Request and response records, the default header table and the canned
  * error responses of the server package. */
module Http {
  import opened Wrappers
  import opened Decimal

  type HeaderMap = map<string, string>

  /** One parsed request. The body is the octets the Content-Length framed. */
  datatype Request = Request(
    httpMethod: string,
    path: string,
    protocol: string,
    headers: HeaderMap,
    body: string,
    remoteAddr: string)

  /** A streaming body: the octets it still has to deliver. */
  datatype Source = Source(data: string)

  /** One response. `headers == None` is Go's nil map. `body` and `reader`
    * are independent fields; nothing keeps both from being set. */
  datatype Response = Response(
    statusCode: int,
    statusText: string,
    protocol: string,
    headers: Option<HeaderMap>,
    body: string,
    reader: Option<Source>)

  /** Indexing a Go map: a missing key reads as the empty string. */
  function Lookup(m: HeaderMap, k: string): string {
    if k in m then m[k] else ""
  }

  /** The header map of a response, a nil map reading as an empty one. */
  function HeadersOf(r: Response): HeaderMap {
    match r.headers
    case None => map[]
    case Some(m) => m
  }

  function Header(r: Response, k: string): string {
    Lookup(HeadersOf(r), k)
  }

  /** The error a handler returns instead of a response. */
  datatype HandlerError = HandlerError(message: string)

  /** A handler function: a response or an error, never both. */
  type Handler = Request -> Result<Response, HandlerError>

  /** A middleware wraps a handler into a new handler. */
  type Middleware = Handler -> Handler

  /** The headers every response of the server carries unless a handler set them. */
  const DefaultResponseHeaders: HeaderMap := map[
    "Accept-Ranges" := "bytes",
    "Cache-Control" := "no-cache",
    "Connection" := "keep-alive",
    "Content-Encoding" := "identity",
    "Content-Type" := "text/plain; charset=utf-8",
    "Server" := "tiny-http/0.1"]

  const PlainTextUtf8: string := "text/plain; charset=utf-8"

  /** A plain-text response whose body reads "<code> <text>", with the default
    * headers and a Content-Length that describes that body. */
  function HTTPBaseResponse(code: int, text: string): (r: Response)
    ensures r.statusCode == code && r.statusText == text
    ensures r.protocol == "HTTP/1.1" && r.reader.None?
    ensures r.body == Itoa(code) + " " + text
    ensures r.headers.Some?
    ensures forall k :: k in r.headers.value <==> k in DefaultResponseHeaders || k == "Content-Length"
    ensures forall k :: k in DefaultResponseHeaders && k != "Content-Type" ==>
              r.headers.value[k] == DefaultResponseHeaders[k]
    ensures r.headers.value["Content-Type"] == PlainTextUtf8
    ensures r.headers.value["Content-Length"] == Itoa(|r.body|)
  {
    var body := Itoa(code) + " " + text;
    var headers := DefaultResponseHeaders["Content-Length" := Itoa(|body|)]["Content-Type" := PlainTextUtf8];
    Response(code, text, "HTTP/1.1", Some(headers), body, None)
  }

  /** The Content-Length of a canned response reads back as its body length. */
  lemma BaseResponseContentLength(code: int, text: string)
    requires |Itoa(code) + " " + text| <= MaxInt64
    ensures var r := HTTPBaseResponse(code, text);
            Atoi(r.headers.value["Content-Length"]) == Ok(|r.body|)
  {
    AtoiOfItoa(|Itoa(code) + " " + text|);
  }

  function HTTP400BadRequest(): (r: Response)
    ensures r.statusCode == 400 && r.statusText == "Bad Request"
    ensures r.body == "400" + " " + r.statusText
    ensures r.headers.Some? && "Allow" !in r.headers.value
  {
    ItoaThreeDigits(400);
    HTTPBaseResponse(400, "Bad Request")
  }

  function HTTP404NotFound(): (r: Response)
    ensures r.statusCode == 404 && r.statusText == "Not Found"
    ensures r.body == "404" + " " + r.statusText
    ensures r.headers.Some? && "Allow" !in r.headers.value
  {
    ItoaThreeDigits(404);
    HTTPBaseResponse(404, "Not Found")
  }

  /** The only canned response that names the methods the server allows. */
  function HTTP405MethodNotAllowed(): (r: Response)
    ensures r.statusCode == 405 && r.statusText == "Method Not Allowed"
    ensures r.body == "405" + " " + r.statusText
    ensures r.headers.Some? && "Allow" in r.headers.value && r.headers.value["Allow"] == "GET, HEAD"
    ensures forall k :: k in r.headers.value <==>
              k in DefaultResponseHeaders || k == "Content-Length" || k == "Allow"
  {
    ItoaThreeDigits(405);
    assert Itoa(405) == "405";
    var base := HTTPBaseResponse(405, "Method Not Allowed");
    base.(headers := Some(base.headers.value["Allow" := "GET, HEAD"]))
  }

  function HTTP500InternalServerError(): (r: Response)
    ensures r.statusCode == 500 && r.statusText == "Internal Server Error"
    ensures r.body == "500" + " " + r.statusText
    ensures r.headers.Some? && "Allow" !in r.headers.value
  {
    ItoaThreeDigits(500);
    assert Itoa(500) == "500";
    var r := HTTPBaseResponse(500, "Internal Server Error");
    assert "Allow" !in DefaultResponseHeaders;
    r
  }
}
