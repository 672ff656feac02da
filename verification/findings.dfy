/** Two middlewares as the source writes them. Go panics when a value is
  * assigned into a nil map, and the file handler's 404 answer has a nil
  * header map, so either middleware wrapped around the file handler
  * panics on a request for a missing file. The rest of the model uses the
  * corrected SecurityFinish and CORSHandle, which allocate the map first. */
module Findings {
  import opened Wrappers
  import opened Strings
  import opened Http
  import opened Middlewares
  import opened FilePath
  import Files
  import Url

  /** SecurityMiddleware as written: `None` is the panic. */
  function SecurityFinishAsWritten(inner: Outcome): (r: Option<Outcome>)
    ensures r.None? <==> inner.Ok? && inner.value.headers.None?
    ensures r.Some? ==> r.value == SecurityFinish(inner)
  {
    if inner.Ok? && inner.value.headers.None? then None else Some(SecurityFinish(inner))
  }

  /** CORSMiddleware as written: `None` is the panic. */
  function CORSHandleAsWritten(allowedOrigins: seq<string>, next: Handler, req: Request): (r: Option<Outcome>)
    ensures var origin := Lookup(req.headers, "Origin");
            r.None? <==> origin != "" && OriginAllowed(allowedOrigins, origin)
                         && next(req).Ok? && next(req).value.headers.None?
    ensures r.Some? ==> r.value == CORSHandle(allowedOrigins, next, req)
  {
    var origin := Lookup(req.headers, "Origin");
    if FindAllowed(allowedOrigins, origin) && origin != "" && next(req).Ok? && next(req).value.headers.None?
    then None
    else Some(CORSHandle(allowedOrigins, next, req))
  }

  /** A request for a missing file makes the file handler answer without a
    * header map. */
  lemma MissingFileHasNoHeaderMap(dir: string, cwd: AbsPath, fs: Files.FileSystem, req: Request)
    requires Url.Parse(req.path).Ok?
    requires Files.Resolve(dir, cwd, Url.Parse(req.path).value.path) !in fs
    ensures Files.FileHandler(dir, cwd, fs)(req) == Ok(Files.FileNotFound)
    ensures Files.FileNotFound.headers.None?
  {
  }

  /** As written, SecurityMiddleware around the file handler panics on a
    * request for a missing file. */
  lemma SecurityPanicsOnMissingFile(dir: string, cwd: AbsPath, fs: Files.FileSystem, req: Request)
    requires Url.Parse(req.path).Ok?
    requires Files.Resolve(dir, cwd, Url.Parse(req.path).value.path) !in fs
    ensures SecurityFinishAsWritten(Files.FileHandler(dir, cwd, fs)(req)) == None
  {
    MissingFileHasNoHeaderMap(dir, cwd, fs, req);
  }

  /** As written, CORSMiddleware around the file handler panics on a
    * cross-origin request from an allowed origin for a missing file. */
  lemma CORSPanicsOnMissingFile(dir: string, cwd: AbsPath, fs: Files.FileSystem, allowedOrigins: seq<string>, req: Request)
    requires Url.Parse(req.path).Ok?
    requires Files.Resolve(dir, cwd, Url.Parse(req.path).value.path) !in fs
    requires Lookup(req.headers, "Origin") != "" && OriginAllowed(allowedOrigins, Lookup(req.headers, "Origin"))
    ensures CORSHandleAsWritten(allowedOrigins, Files.FileHandler(dir, cwd, fs), req) == None
  {
    MissingFileHasNoHeaderMap(dir, cwd, fs, req);
  }

  /** Corrected, the 404 for a missing file carries the security headers. */
  lemma SecurityHeadersOnMissingFile(dir: string, cwd: AbsPath, fs: Files.FileSystem, req: Request)
    requires Url.Parse(req.path).Ok?
    requires Files.Resolve(dir, cwd, Url.Parse(req.path).value.path) !in fs
    ensures var r := SecurityMiddleware(Files.FileHandler(dir, cwd, fs))(req);
            && r.Ok? && r.value.statusCode == 404 && r.value.body == Files.NotFoundBody
            && r.value.headers == Some(SecurityHeaders)
  {
    MissingFileHasNoHeaderMap(dir, cwd, fs, req);
    SecurityOnNotFound();
  }

  lemma SecurityOnNotFound()
    ensures SecurityFinish(Ok(Files.FileNotFound)) == Ok(Files.FileNotFound.(headers := Some(SecurityHeaders)))
  {
    var h := map[] + SecurityHeaders;
    assert h == SecurityHeaders;
    assert Lookup(h, "Content-Type") == "";
    assert !Contains("", "text/html");
  }

  lemma CORSOnNotFound(allowedOrigins: seq<string>, next: Handler, req: Request)
    requires next(req) == Ok(Files.FileNotFound)
    requires Lookup(req.headers, "Origin") != "" && OriginAllowed(allowedOrigins, Lookup(req.headers, "Origin"))
    ensures CORSHandle(allowedOrigins, next, req)
            == Ok(Files.FileNotFound.(headers := Some(CorsHeaders(Lookup(req.headers, "Origin")))))
  {
    assert map[] + CorsHeaders(Lookup(req.headers, "Origin")) == CorsHeaders(Lookup(req.headers, "Origin"));
  }

  /** Corrected, the 404 for a missing file carries exactly the CORS headers
    * for an allowed origin. */
  lemma CORSHeadersOnMissingFile(dir: string, cwd: AbsPath, fs: Files.FileSystem, allowedOrigins: seq<string>, req: Request)
    requires Url.Parse(req.path).Ok?
    requires Files.Resolve(dir, cwd, Url.Parse(req.path).value.path) !in fs
    requires Lookup(req.headers, "Origin") != "" && OriginAllowed(allowedOrigins, Lookup(req.headers, "Origin"))
    ensures var r := CORSMiddleware(allowedOrigins)(Files.FileHandler(dir, cwd, fs))(req);
            && r.Ok? && r.value.statusCode == 404
            && r.value.headers == Some(CorsHeaders(Lookup(req.headers, "Origin")))
  {
    MissingFileHasNoHeaderMap(dir, cwd, fs, req);
    CORSOnNotFound(allowedOrigins, Files.FileHandler(dir, cwd, fs), req);
  }
}
