/** The wire codec of the server: reading one request from the connection's
  * octet stream, and writing one response. */
module Wire {
  import opened Wrappers
  import opened Strings
  import opened Decimal
  import opened Http

  const CRLF: string := "\r\n"

  /** The only protocol tokens the server accepts. */
  predicate SupportedProtocol(p: string) {
    p == "HTTP/1.1" || p == "HTTP/1.0"
  }

  /** Why reading a request failed; each carries what its Go error text shows. */
  datatype ParseError =
    | RequestLineEOF
    | InvalidRequestLine(line: string)
    | UnsupportedProtocol(protocol: string)
    | HeaderEOF
    | InvalidContentLength(value: string)
    | BodyEOF(available: nat)

  const LinePrefix: string := "invalid request line: "
  const ProtocolPrefix: string := "unsupported protocol: "
  const LengthPrefix: string := "invalid content-length: "

  /** The text of the Go error each failure produces. A short body is
    * io.EOF when nothing arrived and io.ErrUnexpectedEOF otherwise, so the
    * text keeps every failure except how many body octets did arrive. */
  function ErrorText(e: ParseError): (r: string)
    ensures ErrorOfText(r) == Some(if e.BodyEOF? then BodyEOF(if e.available == 0 then 0 else 1) else e)
  {
    match e
    case RequestLineEOF => "failed to read request line: EOF"
    case InvalidRequestLine(line) =>
      var r := LinePrefix + line;
      assert r[0] == 'i' && LinePrefix <= r && r[|LinePrefix|..] == line;
      r
    case UnsupportedProtocol(p) =>
      var r := ProtocolPrefix + p;
      assert r[0] == 'u' && ProtocolPrefix <= r && r[|ProtocolPrefix|..] == p;
      r
    case HeaderEOF => "failed to read header: EOF"
    case InvalidContentLength(v) =>
      var r := LengthPrefix + v;
      assert r[0] == 'i' && r[8] == 'c' && LengthPrefix <= r && r[|LengthPrefix|..] == v;
      r
    case BodyEOF(n) => if n == 0 then "failed to read body: EOF" else "failed to read body: unexpected EOF"
  }

  /** Recovers the failure from its error text, as far as the text tells. */
  function ErrorOfText(t: string): Option<ParseError> {
    if |t| > 0 && t[0] == 'f' then
      if t == "failed to read request line: EOF" then Some(RequestLineEOF)
      else if t == "failed to read header: EOF" then Some(HeaderEOF)
      else if t == "failed to read body: EOF" then Some(BodyEOF(0))
      else if t == "failed to read body: unexpected EOF" then Some(BodyEOF(1))
      else None
    else if LinePrefix <= t then Some(InvalidRequestLine(t[|LinePrefix|..]))
    else if ProtocolPrefix <= t then Some(UnsupportedProtocol(t[|ProtocolPrefix|..]))
    else if LengthPrefix <= t then Some(InvalidContentLength(t[|LengthPrefix|..]))
    else None
  }

  /** The part of a failure's text that was taken from the input. */
  function Detail(e: ParseError): string {
    match e
    case InvalidRequestLine(line) => line
    case UnsupportedProtocol(p) => p
    case InvalidContentLength(v) => v
    case _ => ""
  }

  /** The text mentions a closed connection, a reset, a broken pipe or EOF. */
  predicate ClosedText(t: string) {
    Contains(t, "use of closed network connection") || Contains(t, "connection reset by peer")
    || Contains(t, "broken pipe") || Contains(t, "EOF")
  }

  /** isConnectionClosedError, which looks only at the error text. Since that
    * text includes input, a malformed request line, protocol or
    * Content-Length that mentions EOF is classified as a closed connection. */
  function IsConnectionClosedError(e: ParseError): (r: bool)
    ensures Contains(Detail(e), "EOF") ==> r
  {
    match e
    case InvalidRequestLine(line) => ContainsAfter(LinePrefix, line, "EOF"); ClosedText(ErrorText(e))
    case UnsupportedProtocol(p) => ContainsAfter(ProtocolPrefix, p, "EOF"); ClosedText(ErrorText(e))
    case InvalidContentLength(v) => ContainsAfter(LengthPrefix, v, "EOF"); ClosedText(ErrorText(e))
    case _ => ClosedText(ErrorText(e))
  }

  /** Every failure caused by the stream ending early is classified as the
    * peer closing the connection. */
  lemma EndOfStreamIsConnectionClosed(e: ParseError)
    ensures e.RequestLineEOF? || e.HeaderEOF? || e.BodyEOF? ==> IsConnectionClosedError(e)
  {
    if e.RequestLineEOF? || e.HeaderEOF? || e.BodyEOF? {
      var t := ErrorText(e);
      var i := |t| - 3;
      assert t[i..] == "EOF";
      assert OccursAt(t, "EOF", i);
    }
  }

  /** bufio.Reader.ReadString('\n'): everything through the next LF, or
    * failure when the stream ends first. */
  function ReadLine(input: string): (r: Option<(string, string)>)
    ensures r.None? <==> '\n' !in input
    ensures r.Some? ==> var (line, rest) := r.value;
              line + rest == input && |line| > 0 && line[|line| - 1] == '\n'
              && '\n' !in line[..|line| - 1]
  {
    match IndexOf(input, '\n')
    case None => None
    case Some(i) =>
      assert input[..i + 1][..i] == input[..i];
      Some((input[..i + 1], input[i + 1..]))
  }

  /** A line without LF, followed by LF, is read back exactly. */
  lemma ReadLineOf(line: string, rest: string)
    requires '\n' !in line
    ensures ReadLine(line + "\n" + rest) == Some((line + "\n", rest))
  {
    var w := line + "\n" + rest;
    assert w[|line|] == '\n' && w[..|line|] == line;
    assert IndexOf(w, '\n') == Some(|line|);
    assert w[..|line| + 1] == line + "\n";
    assert w[|line| + 1..] == rest;
  }

  /** The request line: trailing CR/LF removed, then exactly three pieces
    * separated by single spaces, the third a supported protocol. */
  function ParseStartLine(raw: string): (r: Result<(string, string, string), ParseError>)
    ensures var line := TrimRightCRLF(raw);
            multiset(line)[' '] != 2 ==> r == Err(InvalidRequestLine(line))
    ensures var line := TrimRightCRLF(raw);
            multiset(line)[' '] == 2 ==> r.Ok? || r == Err(UnsupportedProtocol(Split(line, ' ')[2]))
    ensures r.Ok? ==> var (m, p, v) := r.value;
              m + " " + p + " " + v == TrimRightCRLF(raw)
              && ' ' !in m && ' ' !in p && ' ' !in v && SupportedProtocol(v)
  {
    var line := TrimRightCRLF(raw);
    var parts := Split(line, ' ');
    if |parts| != 3 then Err(InvalidRequestLine(line))
    else if !SupportedProtocol(parts[2]) then Err(UnsupportedProtocol(parts[2]))
    else
      SplitThree(line);
      Ok((parts[0], parts[1], parts[2]))
  }

  /** Three pieces split at spaces join back with single spaces. */
  lemma SplitThree(line: string)
    requires |Split(line, ' ')| == 3
    ensures var parts := Split(line, ' ');
            parts[0] + " " + parts[1] + " " + parts[2] == line
  {
    var parts := Split(line, ' ');
    assert parts == [parts[0], parts[1], parts[2]];
    JoinThree(parts[0], parts[1], parts[2], ' ');
  }

  /** One header line (CR/LF already removed): split at the first colon and
    * trim both sides; a line without a colon carries no header. */
  function ParseHeaderLine(line: string): (r: Option<(string, string)>)
    ensures r.None? <==> ':' !in line
    ensures r.Some? ==> exists i :: 0 <= i < |line| && line[i] == ':' && ':' !in line[..i]
                                    && r.value == (TrimSpace(line[..i]), TrimSpace(line[i + 1..]))
  {
    match IndexOf(line, ':')
    case None => None
    case Some(i) => Some((TrimSpace(line[..i]), TrimSpace(line[i + 1..])))
  }

  /** `rest` is what remains of `input` after some prefix was consumed. */
  predicate IsSuffix(rest: string, input: string) {
    |rest| <= |input| && input[|input| - |rest|..] == rest
  }

  lemma SuffixTransitive(a: string, b: string, c: string)
    requires IsSuffix(a, b) && IsSuffix(b, c)
    ensures IsSuffix(a, c)
  {
    assert c[|c| - |a|..] == c[|c| - |b|..][|b| - |a|..];
  }

  /** The effect of one header line on the map read so far. */
  function AddHeaderLine(acc: HeaderMap, line: string): HeaderMap {
    match ParseHeaderLine(line)
    case None => acc
    case Some((k, v)) => acc[k := v]
  }

  /** Header lines up to the blank line, each one updating the map in turn,
    * so a later duplicate replaces an earlier value. */
  function ParseHeaders(input: string, acc: HeaderMap): (r: Result<(HeaderMap, string), ParseError>)
    ensures r.Ok? ==> |r.value.1| < |input| && IsSuffix(r.value.1, input)
    ensures r.Ok? ==> acc.Keys <= r.value.0.Keys
    ensures r.Err? ==> r.error == HeaderEOF
    ensures '\n' !in input ==> r.Err?
    decreases |input|
  {
    match ReadLine(input)
    case None => Err(HeaderEOF)
    case Some((raw, rest)) =>
      assert IsSuffix(rest, input) by {
        assert input == raw + rest;
      }
      var line := TrimRightCRLF(raw);
      if line == "" then Ok((acc, rest))
      else
        var r := ParseHeaders(rest, AddHeaderLine(acc, line));
        if r.Ok? then
          SuffixTransitive(r.value.1, rest, input);
          r
        else r
  }

  /** The body as Content-Length frames it: absent or zero means empty. */
  predicate BodyFramed(headers: HeaderMap, body: string) {
    && ("Content-Length" !in headers ==> body == "")
    && ("Content-Length" in headers ==> Atoi(headers["Content-Length"]) == Ok(|body|))
  }

  /** The body: nothing without Content-Length; an error for a value that is
    * not an integer or is negative; otherwise exactly that many octets, and
    * an error when the stream holds fewer. */
  function ParseBody(headers: HeaderMap, input: string): (r: Result<(string, string), ParseError>)
    ensures r.Ok? ==> r.value.0 + r.value.1 == input && BodyFramed(headers, r.value.0)
    ensures "Content-Length" in headers ==> var n := Atoi(headers["Content-Length"]);
              (n.Err? || n.value < 0 <==> r == Err(InvalidContentLength(headers["Content-Length"])))
              && (n.Ok? && n.value > |input| ==> r == Err(BodyEOF(|input|)))
    ensures "Content-Length" !in headers ==> r == Ok(("", input))
  {
    if "Content-Length" !in headers then Ok(("", input))
    else
      var cl := headers["Content-Length"];
      match Atoi(cl)
      case Err(_) => Err(InvalidContentLength(cl))
      case Ok(n) =>
        if n < 0 then Err(InvalidContentLength(cl))
        else if n == 0 then Ok(("", input))
        else if |input| < n then Err(BodyEOF(|input|))
        else Ok((input[..n], input[n..]))
  }

  /** parseRequest: the request line, the headers and the body, and what
    * remains of the stream for the next request. */
  function ParseRequest(input: string): (r: Result<(Request, string), ParseError>)
    ensures r.Ok? ==> |r.value.1| < |input| && IsSuffix(r.value.1, input)
    ensures r.Ok? ==> var req := r.value.0;
              SupportedProtocol(req.protocol) && ' ' !in req.httpMethod && ' ' !in req.path
              && BodyFramed(req.headers, req.body) && req.remoteAddr == ""
    ensures '\n' !in input ==> r == Err(RequestLineEOF)
  {
    match ReadLine(input)
    case None => Err(RequestLineEOF)
    case Some((raw, rest)) =>
      var (m, p, v) :- ParseStartLine(raw);
      var (headers, afterHeaders) :- ParseHeaders(rest, map[]);
      var (body, remaining) :- ParseBody(headers, afterHeaders);
      assert |remaining| <= |afterHeaders| < |rest| < |input|;
      assert IsSuffix(remaining, input) by {
        assert input == raw + rest;
        assert IsSuffix(remaining, afterHeaders);
        SuffixTransitive(remaining, afterHeaders, rest);
        SuffixTransitive(remaining, rest, input);
      }
      Ok((Request(m, p, v, headers, body, ""), remaining))
  }

  /** parseRequest step by step, for every input with a first line: a bad
    * request line, a header block without its blank line and a bad or
    * short body each fail with their own error; otherwise the request
    * carries the three parts of the line, the headers and the body. */
  lemma ParseRequestSteps(input: string)
    requires ReadLine(input).Some?
    ensures var (raw, rest) := ReadLine(input).value;
            var start := ParseStartLine(raw);
            && (start.Err? ==> ParseRequest(input) == Err(start.error))
            && (start.Ok? && ParseHeaders(rest, map[]).Err? ==> ParseRequest(input) == Err(HeaderEOF))
            && (start.Ok? && ParseHeaders(rest, map[]).Ok? ==>
                  var (m, p, v) := start.value;
                  var (hs, after) := ParseHeaders(rest, map[]).value;
                  var body := ParseBody(hs, after);
                  && (body.Err? ==> ParseRequest(input) == Err(body.error))
                  && (body.Ok? ==>
                        ParseRequest(input) == Ok((Request(m, p, v, hs, body.value.0, ""), body.value.1))))
  {
  }

  /** The header map listed in Go's unspecified iteration order: every entry
    * exactly once. */
  predicate Enumerates(order: seq<(string, string)>, m: HeaderMap) {
    && (forall i :: 0 <= i < |order| ==> order[i].0 in m && m[order[i].0] == order[i].1)
    && (forall i, j :: 0 <= i < j < |order| ==> order[i].0 != order[j].0)
    && (forall k :: k in m ==> exists i :: 0 <= i < |order| && order[i].0 == k)
  }

  /** "name: value" CRLF for each pair, in the given order. */
  function HeaderLines(order: seq<(string, string)>): string {
    if |order| == 0 then ""
    else order[0].0 + ": " + order[0].1 + CRLF + HeaderLines(order[1..])
  }

  /** protocol SP code SP text CRLF. */
  function StatusLine(r: Response): string {
    r.protocol + " " + Itoa(r.statusCode) + " " + r.statusText + CRLF
  }

  /** What follows the blank line: the stream when there is one, else the body. */
  function Payload(r: Response): (p: string)
    ensures r.reader.Some? ==> p == r.reader.value.data
    ensures r.reader.None? ==> p == r.body
  {
    match r.reader
    case Some(src) => src.data
    case None => r.body
  }

  /** writeResponse: the status line, one line per header, a blank line, then
    * the payload. `order` is the order Go's map iteration happened to take. */
  function WriteResponse(r: Response, order: seq<(string, string)>): (out: string)
    requires Enumerates(order, HeadersOf(r))
    ensures StatusLine(r) <= out
    ensures |out| == |StatusLine(r)| + |HeaderLines(order)| + 2 + |Payload(r)|
    ensures out[|out| - |Payload(r)|..] == Payload(r)
  {
    var out := StatusLine(r) + HeaderLines(order) + CRLF + Payload(r);
    assert out[..|StatusLine(r)|] == StatusLine(r);
    out
  }
}
