# tiny-http in Dafny

A model of the request-processing path of tiny-http, a small HTTP/1.x server
written in Go. It covers two servers.

**The `internal/server` package:**
- the wire codec: `parseRequest` reads one request off a byte stream, and `writeResponse` writes one response;
- the router: exact routes plus an ordered list of regular-expression routes;
- the middleware chain and `handleRequest` dispatch, including the HEAD rule;
- the canned 400/404/405/500 responses;
- the root and static-file handlers;
- the middlewares Base, Logging, Gzip, Security and CORS;
- the keep-alive loop of `handleConnection`.

**The standalone program in `cmd/main.go`:** one request per connection, with its own parser, serializer, route matcher, base middleware and status decisions.

Everything is a pure function over immutable values:
- requests and responses are datatypes, and a string is the sequence of its octets;
- handlers are `Request -> Result<Response, HandlerError>` function values, and middlewares are functions from handler to handler;
- a Go nil header map is `None`;
- Go's unspecified map iteration order is an explicit enumeration, passed as a parameter and constrained by a precondition;
- the regular-expression engine (`Router.RegexEngine`) and the gzip codec (`Middlewares.Codec`) are parameters;
- the file system is a map from absolute paths to entries: a regular file, a directory, or something that cannot be opened;
- the working directory is a parameter of `filepath.Abs`;
- the keep-alive loop is a function from the octets the peer sends to a transcript: the exchanges written, in order, and why the loop stopped. Server shutdown and write failures are parameters indexed by exchange number.

Modules:
- `Wrappers`, `Strings`, `Decimal`: the result type and the `strings`/`strconv` operations the code relies on.
- `FilePath`, `Url`: `filepath.Clean`/`Join`/`Abs`, and `url.Parse` for request targets.
- `Http`: records, default headers, canned responses.
- `Wire`, `WireRoundTrip`: the codec and its round-trip lemmas.
- `Router`, `Chain`, `Middlewares`, `Files`, `Server`: the routing, chaining, middleware, handlers and server.
- `Legacy`: the standalone program.
- `Findings`: two middlewares as written, next to their corrected versions.

## Model

| member | source | states |
|---|---|---|
| Router.NewHTTPRouter | internal/server/server.go:50-55 | A new router has no exact routes and no patterns. |
| Router.AddRoute | internal/server/server.go:58-81 | A route containing one of `^$.*+?{}[]\|()` that compiles is appended to the patterns, and the exact table is unchanged. Any other route is stored as an exact route that replaces an earlier handler for the same string. No other exact key changes, and the patterns are unchanged. |
| Router.DotMakesPattern | internal/server/server.go:63-72 | A dot is a metacharacter, so "/index.html" becomes a pattern whenever it compiles. |
| Router.FirstMatch | internal/server/server.go:94-98 | Returns the index of the first pattern in registration order that matches, with none before it matching. Returns none exactly when no pattern matches. |
| Router.Match | internal/server/server.go:84-101 | An exact entry for the path is returned whatever the patterns say. Otherwise the first matching pattern's handler is returned. Not-found is returned iff no pattern matches. |
| Router.ExactRouteWins | internal/server/server.go:89-91 | An exact route answers for its path, even if patterns are registered before or after it. |
| Router.AddAllKeepsExact | internal/server/server.go:75-79 | Registering other keys never removes or changes an exact route. |
| Router.LaterPatternNeverOverrides | internal/server/server.go:94-98 | A pattern added later never takes over a path that some route already matched. |
| Router.FirstMatchExtends | internal/server/server.go:94-98 | Appending a pattern leaves an existing first match at the same index. |
| Router.ExactRouteIsLocal | internal/server/server.go:75-79 | Adding an exact route changes the answer for no other path. |
| Chain.BuildPipeline | internal/server/server.go:317-320 | The loop from the last middleware down to the first builds the chain in which `Middlewares[0]` is outermost. |
| Chain.PipelineAppend | internal/server/server.go:317-320 | Wrapping in `a + b` is wrapping in `a` around the wrapping in `b`. |
| Chain.BuildLastOutermost | cmd/main.go:125-128 | The standalone program's loop from the first middleware on builds the chain in which the last middleware is outermost. |
| Chain.LastOutermostIsReversedPipeline | cmd/main.go:125-128 | The standalone program's fold is the server fold of the reversed list. |
| Strings.ContainsAny | internal/server/server.go:63 | True iff some character of the route is one of the given characters. |
| Strings.Contains | internal/server/middleware.go:104 | True iff the needle occurs contiguously somewhere in the string. |
| Strings.IndexOf | internal/server/server.go:373-376 | Returns none iff the character is absent. Otherwise returns a position holding it, with no earlier occurrence. |
| Strings.ToLower | internal/server/server.go:285 | Same length; each character lower-cased on its own (ASCII letters only). |
| Strings.ToLowerIdempotent | internal/server/server.go:285 | Lower-casing twice is lower-casing once. |
| Strings.TrimRightCRLF | internal/server/server.go:345 | The result is a prefix with no trailing CR or LF, and everything dropped was CR or LF. |
| Strings.TrimRightCRLFOf | internal/server/server.go:368 | Trimming undoes appending CR/LF to a line that does not end in one. |
| Strings.TrimSpace | internal/server/server.go:378-379 | The result has no whitespace at either end, and exactly the leading and trailing whitespace is removed. |
| Strings.TrimSpaceOfTrimmed | internal/server/server.go:378-379 | A string without surrounding whitespace trims to itself. |
| Strings.TrimSpaceAfterSpaces | internal/server/server.go:379 | Whitespace before a trimmed value is all that trimming removes. |
| Strings.Split | internal/server/server.go:346 | There is one more piece than there are separators, no piece holds the separator, and joining the pieces gives the input back. |
| Strings.SplitJoin | internal/server/server.go:346 | Splitting a join of separator-free pieces gives the pieces back. |
| Strings.Fields | cmd/main.go:153 | Every word the scanner reads is non-empty and free of whitespace. |
| Strings.FieldsCons | cmd/main.go:153 | A word followed by whitespace is read as one word, followed by the words of the rest. |
| Strings.FieldsAfterSpaces | cmd/main.go:153 | Leading whitespace does not change the words. |
| Decimal.Itoa | internal/server/middleware.go:47 | Non-negative numbers print as digits only; negative ones as a minus sign followed by digits. |
| Decimal.Atoi | internal/server/server.go:384-387 | A value is returned exactly when the text is an optional sign followed by at least one digit and the signed value fits in 64 bits, and the value is then that signed value. A range error means sign and digits whose value does not fit. A syntax error means the text is empty or not all digits. |
| Decimal.AtoiOfItoa | internal/server/server.go:383-387 | Atoi reads back every 64-bit number Itoa prints, so a Content-Length the server writes is one it accepts. |
| Decimal.ItoaInjective | internal/server/http.go:55 | Different numbers never print alike. |
| Decimal.ItoaThreeDigits | internal/server/http.go:55 | A status code from 100 to 999 prints as its three digits. |
| Http.HTTPBaseResponse | internal/server/http.go:54-67 | The body is the decimal code, a space and the text. The headers are exactly the defaults plus Content-Length, with Content-Type `text/plain; charset=utf-8` and Content-Length the decimal body length. The protocol is HTTP/1.1, there is no stream, and the code and text are echoed. |
| Http.BaseResponseContentLength | internal/server/http.go:57 | The Content-Length of a canned response reads back as its body length. |
| Http.HTTP400BadRequest | internal/server/http.go:32-34 | 400 "Bad Request", body "400 Bad Request", no Allow header. |
| Http.HTTP404NotFound | internal/server/http.go:37-39 | 404 "Not Found", body "404 Not Found", no Allow header. |
| Http.HTTP405MethodNotAllowed | internal/server/http.go:42-46 | 405 "Method Not Allowed", body "405 Method Not Allowed". Allow is `GET, HEAD`, and the header keys are exactly the defaults plus Content-Length and Allow. |
| Http.HTTP500InternalServerError | internal/server/http.go:49-51 | 500 "Internal Server Error", body "500 Internal Server Error", no Allow header. |
| Wire.ReadLine | internal/server/server.go:340-343 | Fails iff the stream has no LF. Otherwise the line ends at the first LF and the line plus the rest is the input. |
| Wire.ReadLineOf | internal/server/server.go:363 | A line without LF, followed by LF, is read back exactly. |
| Wire.ParseStartLine | internal/server/server.go:345-360 | The line is first trimmed of trailing CR/LF. Anything but two spaces is an invalid request line. With two spaces, the line either parses or names its unsupported protocol. On success the three space-free parts joined by single spaces give the trimmed line, and the protocol is HTTP/1.1 or HTTP/1.0. |
| Wire.SplitThree | internal/server/server.go:346-354 | Three pieces split at spaces join back into the line. |
| Wire.ParseHeaderLine | internal/server/server.go:373-380 | A line without a colon carries no header. Otherwise it is split at the first colon and both sides are trimmed. |
| Wire.ParseHeaders | internal/server/server.go:362-381 | Success consumes input and keeps every earlier key. The only failure is end of input before the blank line, and input without an LF fails. |
| Wire.ParseBody | internal/server/server.go:383-397 | Without Content-Length the body is empty. A non-integer or negative value is an invalid-length error, and a value beyond the remaining input is a body EOF. On success the body is exactly as long as the value says and precedes the rest. |
| Wire.ParseRequest | internal/server/server.go:339-400 | A parsed request has a supported protocol, space-free method and path, and a body its Content-Length frames, and parsing consumed input. Input without an LF is a request-line EOF. How the start line, header and body steps combine is stated by `Wire.ParseRequestSteps`. |
| Wire.ParseRequestSteps | internal/server/server.go:339-400 | Once a first line is read: a start-line failure is the result. A header block that ends without a blank line is a header EOF. A body failure is the result. Otherwise the request has the start line's method, path and protocol, the parsed headers and the framed body, and parsing continues after the body. |
| Wire.ErrorText | internal/server/server.go:339-395 | The Go error text of each parse failure. `ErrorOfText` reads the failure back from its text, so distinct failures have distinct texts. The one exception is a short body: the text only says whether any body octets arrived. |
| Wire.IsConnectionClosedError | internal/server/server.go:294-303 | The classification looks only at the error text. So a malformed request line, protocol or Content-Length whose input mentions EOF is taken for a closed connection. |
| Wire.EndOfStreamIsConnectionClosed | internal/server/server.go:294-303 | Every failure caused by the stream ending early counts as a closed connection, so it is not logged. |
| Wire.Payload | internal/server/server.go:430-449 | The payload is the stream's octets when a stream is set, and the body otherwise. |
| Wire.WriteResponse | internal/server/server.go:403-452 | The output starts with the status line, ends with the payload, and its length is the sum of status line, header lines, the blank line and the payload. |
| WireRoundTrip.UpdatesLastWins | internal/server/server.go:380 | For a duplicated header, the last value wins. |
| WireRoundTrip.UpdatesUntouched | internal/server/server.go:380 | A key no header line mentions keeps its entry. |
| WireRoundTrip.UpdatesKeys | internal/server/server.go:380 | The keys afterwards are the earlier ones plus every key mentioned. |
| WireRoundTrip.EnumerationRebuildsMap | internal/server/server.go:411-416 | Replaying any enumeration of a map rebuilds that map. |
| WireRoundTrip.ParseHeaderLineOf | internal/server/server.go:373-380 | A written `name: value` line reads back as that pair. |
| WireRoundTrip.ColonlessLineSkipped | internal/server/server.go:373-376 | A non-blank header line without a colon is skipped, and the map read so far is unchanged. |
| WireRoundTrip.ParseHeadersStep | internal/server/server.go:362-381 | The reader consumes one written header line and applies it. |
| WireRoundTrip.ParseHeadersOf | internal/server/server.go:362-381 | A written header block and blank line read back as the pairs applied in order, leaving the rest untouched. |
| WireRoundTrip.TruncatedHeadersFail | internal/server/server.go:363-366 | Header lines cut off before the blank line are a header EOF. |
| WireRoundTrip.ResponseHeadRoundTrip | internal/server/server.go:403-452 | After the status line, the header reader reads back exactly the response's header map, then exactly the payload. |
| WireRoundTrip.ParseStartLineOf | internal/server/server.go:345-360 | A rendered request line reads back as its three parts. |
| WireRoundTrip.ParseBodyOf | internal/server/server.go:383-397 | A body framed by its Content-Length reads back exactly. |
| WireRoundTrip.ParseRequestRoundTrip | internal/server/server.go:339-400 | A well-formed request reads back exactly, duplicates resolved last-wins, and leaves the following octets for the next request. |
| Middlewares.BaseFinish | internal/server/middleware.go:17-52 | An error passes through. Otherwise every header the handler set keeps its value and every missing default is filled in. No other key appears except Content-Length, which is the decimal body length when absent. The protocol is the response's, else the request's, else HTTP/1.1, and nothing else changes. |
| Middlewares.BaseMiddlewareOutcome | internal/server/middleware.go:17-52 | Through the wrapped handler: an error passes through. A response keeps its body, status and every header the handler set, and it always leaves with every default header, a Content-Length and a non-empty protocol. |
| Middlewares.BaseIdempotent | internal/server/middleware.go:29-48 | Running Base twice is running it once. |
| Middlewares.BaseContentLengthReadable | internal/server/middleware.go:45-48 | A Content-Length Base computed reads back as the body length. |
| Middlewares.LoggingMiddleware | internal/server/middleware.go:55-97 | The inner outcome, response or error, is returned unchanged. |
| Middlewares.ContainsSome | internal/server/middleware.go:178-184 | True iff some listed needle occurs in the string. |
| Middlewares.ShouldNotCompress | internal/server/middleware.go:161-185 | True iff the lower-cased content type contains, anywhere, one of the eleven listed types. |
| Middlewares.ShouldNotCompressIgnoresCase | internal/server/middleware.go:177 | The decision does not depend on letter case. |
| Middlewares.ShouldNotCompressAnywhere | internal/server/middleware.go:177-181 | A listed type anywhere in the value, not only at its start, switches compression off. |
| Middlewares.GzipFinish | internal/server/middleware.go:109-156 | An error, a non-empty Content-Encoding, a body under 1024 octets, or an excluded type: returned unchanged. Otherwise: body becomes the compressed body, Content-Encoding becomes gzip, Content-Length becomes the new length, Vary becomes `Accept-Encoding` or the old value plus `, Accept-Encoding`. The keys are the old ones plus those three, and everything else is unchanged. |
| Middlewares.GzipHandle | internal/server/middleware.go:100-106 | A request without "gzip" in Accept-Encoding gets the inner outcome as is. |
| Middlewares.GzipPreservesContent | internal/server/middleware.go:144-147 | When the codec round-trips, a changed response is marked gzip and decompresses to the inner body, and an unchanged one carries it. |
| Middlewares.SecurityFinish | internal/server/middleware.go:188-208 | An error passes through. Otherwise the four fixed headers are set, overwriting. CSP is added when Content-Type contains `text/html`. Every other header and field is unchanged. |
| Middlewares.SecurityMiddlewareOutcome | internal/server/middleware.go:188-208 | Through the wrapped handler: an error passes through. A response keeps its body and status, carries the four security headers with their fixed values, and keeps every other header except the policy. |
| Middlewares.FindAllowed | internal/server/middleware.go:217-223 | True iff the list holds `*` or the origin. |
| Middlewares.CORSHandle | internal/server/middleware.go:211-240 | For a non-empty allowed origin and an inner response, the four access-control headers are added, echoing the origin, and nothing else changes. In every other case the inner outcome is returned untouched. |
| Middlewares.GzipMiddlewareOutcome | internal/server/middleware.go:100-156 | Through the wrapped handler: without "gzip" in Accept-Encoding, or on an error, the inner outcome is returned as is. A response is either the inner one, or the inner one with its body compressed by the codec, marked `Content-Encoding: gzip`, and its status kept. |
| Middlewares.CORSMiddlewareOutcome | internal/server/middleware.go:211-240 | Through the wrapped handler: without a non-empty allowed Origin, or on an error, the inner outcome is returned as is. For an allowed origin the response keeps its body and status and echoes the origin in Access-Control-Allow-Origin. |
| FilePath.Clean | internal/server/handlers.go:42 | A rooted path cleans to a rooted, non-empty path. |
| FilePath.CleanRootedShape | internal/server/handlers.go:42 | A cleaned rooted path is "/" followed by normal segments: no "", "." or "..". |
| FilePath.CleanRootedNoParent | internal/server/handlers.go:42 | Cleaning a rooted path leaves no ".." segment, and cleaning is idempotent. |
| FilePath.CleanOfNormal | internal/server/handlers.go:42 | A rooted path of normal segments is already clean. |
| FilePath.AbsIsCleanAbsolute | internal/server/handlers.go:43-46 | Abs always yields a clean absolute path. |
| FilePath.JoinCleanRooted | internal/server/handlers.go:48 | Joining a clean base and a cleaned rooted path concatenates their segments. |
| FilePath.ResolvedSegments | internal/server/handlers.go:42-51 | The resolved path is the base's segments followed by the cleaned request path's segments. |
| FilePath.ResolveStaysWithinRoot | internal/server/handlers.go:42-51 | Whatever the URL path holds, the resolved path is the served directory or lies beneath it. |
| Url.Unescape | internal/server/handlers.go:38-41 | Succeeds iff every '%' is followed by two hex digits, and text without '%' is unchanged. |
| Url.UnescapeEscape | internal/server/handlers.go:38-41 | Decoding undoes percent-encoding of any octet string. |
| Url.GetScheme | internal/server/handlers.go:38-41 | Only a leading colon is an error. A scheme found is letters, digits and "+-." starting with a letter, followed by a colon. Otherwise the whole input is the rest. |
| Url.Parse | internal/server/handlers.go:38-41 | A control octet before the fragment is an error, and a parsed target has none. |
| Url.ParseIgnoresQuery | internal/server/handlers.go:38-42 | Appending a query changes only the parsed query: the same path and the same errors. |
| Url.ParseFragment | internal/server/handlers.go:38-42 | A fragment only sets the fragment field, or adds its own escape error. |
| Files.RootHandle | internal/server/handlers.go:19-30 | Always 200 "OK" with the body "Hello, World!", exactly `Content-Type: text/plain`, protocol HTTP/1.1, and no error. |
| Files.RootIgnoresRequest | internal/server/handlers.go:20-29 | Every request gets the same answer. |
| Files.Resolve | internal/server/handlers.go:42-51 | The path served always lies within the absolute served directory. |
| Files.ServePath | internal/server/handlers.go:53-77 | 404 without headers iff the path is absent. 200 iff it is a regular file, and then it carries the file's contents as `application/octet-stream` with an empty protocol. An error iff the path exists and is not a regular file. |
| Files.FileHandle | internal/server/handlers.go:36-79 | A target that does not parse is an error. Otherwise ServePath is applied to the resolved URL path. |
| Files.FileHandlerConfined | internal/server/handlers.go:42-53 | Two file systems that agree on the served directory give every request the same answer. |
| Files.ServePathConfined | internal/server/handlers.go:53-67 | Serving a path within a root depends only on the entries under that root. |
| Files.ServedFileIsWithinRoot | internal/server/handlers.go:64-77 | A 200 answer carries the contents of a regular file within the served directory. |
| Files.FileHandlerIgnoresQuery | internal/server/handlers.go:38-42 | Appending a query serves the same thing. |
| Files.FileHandlerIgnoresFragment | internal/server/handlers.go:38-42 | Appending a well-formed fragment serves the same thing. |
| Server.HandleRequest | internal/server/server.go:305-337 | A method other than GET/HEAD gets the canned 405, and an unmatched path the canned 404. A pipeline error gets the canned 500. GET gets the pipeline's response, and HEAD gets it without body and stream. |
| Server.HeadLikeGet | internal/server/server.go:328-334 | For method-blind handlers, HEAD gets the GET answer without body and stream, or the identical 404/500. |
| Server.NewHTTPServer | internal/server/server.go:125-150 | Three middlewares, and the only route is `^/.*$` to the file handler: a pattern when it compiles, else an exact route. |
| Server.DefaultChainOrder | internal/server/server.go:142-146 | For every inner handler and request, a new server's chain is BaseFinish of the Gzip step of the inner handler: Base is outermost, Logging changes nothing, and Gzip is innermost. So Base keeps the Content-Encoding and Content-Length that Gzip sets. |
| Server.FileHandlerMethodBlind | internal/server/handlers.go:36-79 | The file handler does not look at the method. |
| Server.BaseKeepsMethodBlind | internal/server/middleware.go:17-52 | Base around a method-blind handler is method-blind. |
| Server.LoggingKeepsMethodBlind | internal/server/middleware.go:55-97 | Logging around a method-blind handler is method-blind. |
| Server.GzipKeepsMethodBlind | internal/server/middleware.go:100-158 | Gzip around a method-blind handler is method-blind. |
| Server.DefaultPipelineMethodBlind | internal/server/server.go:142-146 | The default chain around the file handler is method-blind. |
| Server.DefaultServerHeadLikeGet | internal/server/server.go:125-150 | The default server answers HEAD like GET without the content. |
| Server.ParseRequestConsumes | internal/server/server.go:339-400 | A successful parse always consumes input. |
| Server.WantsClose | internal/server/server.go:285-287 | A request asks to close iff its header stored under the exact key "Connection" is five characters that lower-case to "close". Another spelling of the key never closes. |
| Server.Logged | internal/server/server.go:264-273 | A failed read is logged only if it is a malformed request line, an unsupported protocol or a bad Content-Length, and only if the input it quotes does not mention EOF. |
| Server.Serve | internal/server/server.go:254-290 | The keep-alive loop over any reader that consumes input. It writes at most one exchange per input octet, so it ends on every input. What each exchange holds and why the loop stops are stated by `Server.ServeExchanges` and `Server.ServeStops`. |
| Server.ServeFrom | internal/server/server.go:254-290 | The loop of a server, which reads with `ParseRequest`, answers with `HandleRequest` and stops on `WantsClose`. It writes at most one exchange per input octet. Every written response is the server's answer to its request, and only the last request may ask to close. |
| Server.ServeExchanges | internal/server/server.go:254-290 | Every written response is the answer to its request. No written exchange met a shutdown or a failed write, and only the last request may ask to close. |
| Server.ServeStops | internal/server/server.go:254-290 | The loop stops on a close request iff the last written request asked to close. A shutdown or a failed write is what ended it when it says so, and a failed write carries the answer. |
| Server.ServeStep | internal/server/server.go:275-289 | A keep-alive request is answered and the loop goes on with what it left unread. |
| Server.RunConnection | internal/server/server.go:254-290 | The loop computes the transcript the connection function defines. |
| Server.EndOfStreamIsQuiet | internal/server/server.go:264-273 | A peer that sends nothing more ends the loop with nothing written and nothing logged. |
| Server.CloseStopsReading | internal/server/server.go:285-287 | A request asking to close is answered, and nothing pipelined behind it is read. |
| Server.KeepAliveStep | internal/server/server.go:275-289 | A keep-alive request on the wire is answered and the loop continues with the rest. |
| Server.KeepAliveAnswersAll | internal/server/server.go:254-290 | Requests sent back to back are all answered, in order, each as parsed, until the stream ends. |
| Server.KeepAliveWith | internal/server/server.go:254-290 | The same for any reader that reads each request back in turn. |
| Server.ServeChain | internal/server/server.go:254-290 | Requests read in turn are answered in order, and the loop then continues from what they left. |
| Server.RenderAllChains | internal/server/server.go:339-400 | A reader that reads each request back reads the whole rendering, leaving nothing. |
| Server.ParsesInTurn | internal/server/server.go:339-400 | The parser reads each rendered request off the front of the rest. |
| Legacy.ParseLegacy | cmd/main.go:147-200 | Input without LF fails. For the words of the first line: fewer than three is a scan failure, and a third word other than HTTP/1.1 is refused by name. A parsed request takes its method and path from the first two words and is HTTP/1.1, and its body is framed by Content-Length. How header and body failures map to the legacy errors is stated by `Legacy.ParseScannedSteps`. |
| Legacy.ParseScannedSteps | cmd/main.go:153-200 | For a well-formed HTTP/1.1 request line: a header block that ends early is ReadHeaderFailed. A bad Content-Length is BadContentLength, and any other body failure is ReadBodyFailed. Otherwise the request has the first two words as method and path, HTTP/1.1, the parsed headers and the framed body. |
| Legacy.TwoWordsRefused | cmd/main.go:153-159 | A request line with only a method and a path fails to scan, whatever follows it. |
| Legacy.OtherProtocolRefused | cmd/main.go:161-163 | A request line whose third word is not HTTP/1.1 (HTTP/1.0, say) is refused with that word. |
| Legacy.ScannedExtraWord | cmd/main.go:153 | Once three words are scanned, a fourth word changes nothing. |
| Legacy.ExtraWordsIgnored | cmd/main.go:153-163 | A word after HTTP/1.1 on the request line is ignored: the request reads as if the line ended at the protocol. |
| Legacy.FieldsOfRequestLine | cmd/main.go:153-159 | A request line of three ASCII words scans as those words. |
| Legacy.ParseLegacyRoundTrip | cmd/main.go:147-200 | A well-formed HTTP/1.1 request with an ASCII method and path reads back exactly, whatever follows it. |
| Legacy.RequestLineOf | cmd/main.go:148-151 | The first line read off a rendered request is its request line. |
| Legacy.Marshal | cmd/main.go:202-211 | The output starts with the status line, ends with the body, and has the summed length. |
| Legacy.MarshalHeadRoundTrip | cmd/main.go:202-211 | The header block written reads back as the header map, followed by the body. |
| Legacy.FirstSelecting | cmd/main.go:218-229 | Returns the first key in iteration order that is not the path, compiles and matches. Returns none iff there is none. |
| Legacy.MatchRoute | cmd/main.go:213-231 | The path as an exact key wins. Otherwise some compiling, matching key's handler is returned, and none only if no key selects the path. |
| Legacy.RootHandle | cmd/main.go:233-241 | 200 "OK" over HTTP/1.1 with the body "Hello, World!" and no header map. |
| Legacy.LegacyBaseFinish | cmd/main.go:243-264 | An error passes through. Otherwise the keys are the handler's plus the defaults, handler values are kept, and missing defaults are filled. Content-Length is always the body length and the protocol is always HTTP/1.1. |
| Legacy.LegacyBaseMiddlewareOutcome | cmd/main.go:243-264 | Through the wrapped handler: an error passes through. A response keeps its body and status, speaks HTTP/1.1, carries every default header, and has the body's length as its Content-Length. |
| Legacy.LegacyBaseIdempotent | cmd/main.go:250-261 | Running baseMiddleware twice is running it once. |
| Legacy.LegacyBaseContentLength | cmd/main.go:260 | Content-Length reads back as the body length, even when the handler set another. |
| Legacy.Respond | cmd/main.go:70-145 | 400 for a parse error. 405 for any method but GET. 404 without a route. 500 for a handler error. Otherwise the response of the middleware chain. |
| Legacy.DefaultProgram | cmd/main.go:42-48 | The shipped program lists its one route key once. |
| Legacy.DefaultProgramGreets | cmd/main.go:110-143 | A GET of "/" is answered 200 with the greeting and the default headers, with Content-Length 13. |
| Legacy.HeadIsRefused | cmd/main.go:96-108 | HEAD gets 405 with an empty body. |
| Findings.SecurityFinishAsWritten | internal/server/middleware.go:195-199 | As written, it panics exactly on a response without a header map. |
| Findings.CORSHandleAsWritten | internal/server/middleware.go:230-235 | As written, it panics exactly for an allowed origin and a response without a header map. |
| Findings.MissingFileHasNoHeaderMap | internal/server/handlers.go:53-61 | The 404 for a missing file has no header map. |
| Findings.SecurityPanicsOnMissingFile | internal/server/middleware.go:195-199 | As written, Security around the file handler panics on a missing file. |
| Findings.CORSPanicsOnMissingFile | internal/server/middleware.go:230-235 | As written, CORS around the file handler panics on an allowed cross-origin request for a missing file. |
| Findings.SecurityHeadersOnMissingFile | internal/server/middleware.go:195-199 | Corrected: the 404 for a missing file carries exactly the four security headers. |
| Findings.CORSHeadersOnMissingFile | internal/server/middleware.go:230-235 | Corrected: the 404 for a missing file carries exactly the four CORS headers. |

## Left out

- The listener, accept loop, goroutines, WaitGroup, `ListenAndServe`, `Shutdown`, signal handling and connection deadlines (internal/server/server.go:153-245 and 289; cmd/main.go:50-68): these are concurrency and socket lifecycle. Shutdown appears only as the `cancelled` parameter of the loop.
- Real buffered I/O, flushing and partial writes: the peer's octets are one sequence and each write either succeeds or fails as a whole (`writeFails`).
- Closing the response's stream (internal/server/server.go:331, 432) is a side effect. The model only drops the stream.
- The log records of the connection loop and `LoggingMiddleware`: only whether a parse failure would be logged (`Server.Logged`) is kept. The extra shutdown test after a failed read (internal/server/server.go:266-268) only suppresses that record, so it is not modelled.
- Regular-expression semantics: `Router.RegexEngine` is a parameter.
- The gzip algorithm: `Middlewares.Codec` is a parameter. The compressor's write and close errors (internal/server/middleware.go:135-142) are not modelled.
- `url.Parse` authority validation (user info, host and port syntax, IPv6 literals): only the split at "//" and the next "/" is modelled.
- `os.Open` and `io.ReadAll` become the `Files.Entry` of the path. Permissions, symlinks and ENOTDIR (a regular file used as a directory) are not distinguished from "cannot be opened".
- `filepath.Abs` failing: it cannot fail once the working directory is a parameter.
- Unicode: strings are octet sequences, and lower-casing and whitespace are ASCII only.
- The `Logger` field that internal/server/server.go:135 sets on `FileHandler` is not declared by the handler (internal/server/handlers.go:32-34). The model's handler has no logger.
- A `nil` response returned together with a `nil` error: handlers are total functions returning a response or an error, so this case does not arise.
- `make([]byte, cl)` for a huge Content-Length (internal/server/server.go:390): integers are unbounded, so this allocation failure is not modelled.
- `copyHeaders` (internal/server/server.go:455-461): maps are values here, so a response built from the default table can never change that table. The property holds by construction and has no member of its own.
- internal/server/status.go: a stale duplicate of the canned responses that refers to an undefined name and does not compile.
- The tests' expectations with no code behind them: MIME detection and cache headers (internal/server/handlers_test.go:68 and 121), and the directory `index.html` fallback. A directory answers with an error (and so a 500), as the code does.
- Server.Logged: states what a logged failure must be, not the converse. That a malformed request line quoting none of the four phrases is logged would need a proof that the fixed message prefixes contain none of them, and that is left out.
- Wire.IsConnectionClosedError: states the two cases that make it true (end of stream, via `Wire.EndOfStreamIsConnectionClosed`, and input mentioning EOF), not when it is false, for the same reason.
- Server.Serve: takes the close decision `closes` as a parameter so the loop's lemmas are generic. `Server.ServeFrom` instantiates it with `WantsClose`, the code's case-insensitive `Connection: close` test.
- GzipFinish: allocates a header map when the inner response has none. The code writes into a nil map and panics there (internal/server/middleware.go:146). Such a response needs a body of at least 1024 octets and no header map; no handler in the repository produces one, so this is not listed as a finding.
- Legacy.ParseLegacy: models `fmt.Sscanf("%s %s %s")` as splitting on ASCII whitespace. fmt also separates words at U+0085, U+00A0, U+1680, U+2000 to U+200A, U+2028, U+2029, U+202F, U+205F and U+3000, so "GET\xC2\xA0/ HTTP/1.1" is three words in Go and two in the model. Scanner errors beyond "fewer than three words" are not distinguished from each other. `fmt` decodes its input as UTF-8 and writes each word back rune by rune, so every octet of the method or path that is not valid UTF-8 becomes U+FFFD (EF BF BD). The model keeps the octets as they are. For that reason `Legacy.FieldsOfRequestLine`, `Legacy.ParseLegacyRoundTrip`, `Legacy.OtherProtocolRefused` and `Legacy.ExtraWordsIgnored` are stated only for ASCII method and path words.
- Decimal.Atoi: reports a syntax error for any text that is not a sign and digits. Go's `ParseInt` reports a range error instead when an overflowing run of digits comes before the first bad character, as in "99999999999999999999x". Every caller ignores the kind of error.

## Findings

| source | as written | input that shows it | evidently intended | confidence | as-written member | corrected member |
|---|---|---|---|---|---|---|
| internal/server/middleware.go:195-199 | SecurityMiddleware assigns into `response.Headers` without allocating it | the file handler's 404 for a missing file (nil header map, internal/server/handlers.go:55-60) wrapped by SecurityMiddleware: assignment into a nil map panics | allocate the map first, as BaseMiddleware does, so the 404 carries the security headers | not executed | Findings.SecurityFinishAsWritten, Findings.SecurityPanicsOnMissingFile | Middlewares.SecurityFinish, Findings.SecurityHeadersOnMissingFile |
| internal/server/middleware.go:230-235 | CORSMiddleware assigns into `response.Headers` without allocating it | a request with an allowed `Origin` for a missing file under the file handler: the 404 has a nil header map and the assignment panics | allocate the map first, so the 404 carries the CORS headers | not executed | Findings.CORSHandleAsWritten, Findings.CORSPanicsOnMissingFile | Middlewares.CORSHandle, Findings.CORSHeadersOnMissingFile |
