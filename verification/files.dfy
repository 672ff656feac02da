/** The two handlers the server package ships: the fixed greeting and the
  * static file handler. The file system is a map from absolute, clean
  * paths to what opening and reading them yields. */
module Files {
  import opened Wrappers
  import opened Http
  import opened FilePath
  import Url

  /** What the file system holds at an absolute path. */
  datatype Entry =
    | RegularFile(data: string)   // opens and reads in full
    | Directory                   // opens, but reading fails
    | Unopenable                  // opening fails for a reason other than absence

  /** Paths absent from the map do not exist. */
  type FileSystem = map<string, Entry>

  const Hello: string := "Hello, World!"

  /** RootHandler: the same greeting for every request. */
  function RootHandle(req: Request): (r: Result<Response, HandlerError>)
    ensures r.Ok? && r.value.statusCode == 200 && r.value.statusText == "OK" && r.value.body == Hello
    ensures r.value.headers == Some(map["Content-Type" := "text/plain"])
    ensures r.value.protocol == "HTTP/1.1" && r.value.reader.None?
  {
    Ok(Response(200, "OK", "HTTP/1.1", Some(map["Content-Type" := "text/plain"]), Hello, None))
  }

  function RootHandler(): Handler {
    RootHandle
  }

  /** The greeting does not depend on the request. */
  lemma RootIgnoresRequest(a: Request, b: Request)
    ensures RootHandler()(a) == RootHandler()(b)
  {
  }

  /** The absolute path a decoded URL path is served from: the path is
    * rooted and cleaned, joined to the absolute served directory, and
    * made absolute again. */
  function Resolve(dir: string, cwd: AbsPath, urlPath: string): (p: string)
    ensures Within(p, Abs(dir, cwd))
  {
    ResolveStaysWithinRoot(dir, cwd, urlPath);
    Abs(Join2(Abs(dir, cwd), Clean("/" + urlPath)), cwd)
  }

  const NotFoundBody: string := "404 Not Found"

  /** The 404 answer of the file handler: no header map at all. */
  const FileNotFound: Response :=
    Response(404, "Not Found", "HTTP/1.1", None, NotFoundBody, None)

  function FileFound(data: string): Response {
    Response(200, "OK", "", Some(map["Content-Type" := "application/octet-stream"]), data, None)
  }

  /** FileHandler with FileDirectory `dir`, working directory `cwd` and
    * file system `fs`, for the request target `target`. A target that does not parse is an error; a path
    * that does not exist is a 404 without headers; a regular file is a
    * 200 with its content as an octet stream; anything that exists but
    * cannot be opened or read is an error. */
  function FileHandle(dir: string, cwd: AbsPath, fs: FileSystem, target: string): (r: Result<Response, HandlerError>)
    ensures Url.Parse(target).Err? ==> r.Err?
    ensures Url.Parse(target).Ok? ==>
              var p := Resolve(dir, cwd, Url.Parse(target).value.path);
              && (r == Ok(FileNotFound) <==> p !in fs)
              && (r.Ok? && r.value.statusCode == 200 <==> p in fs && fs[p].RegularFile?)
              && (r.Err? <==> p in fs && !fs[p].RegularFile?)
              && (p in fs && fs[p].RegularFile? ==> r == Ok(FileFound(fs[p].data)))
  {
    match Url.Parse(target)
    case Err(e) => Err(HandlerError(UrlErrorText(e)))
    case Ok(url) => ServePath(fs, Resolve(dir, cwd, url.path))
  }

  /** Opening and reading the resolved path `p`. */
  function ServePath(fs: FileSystem, p: string): (r: Result<Response, HandlerError>)
    ensures r == Ok(FileNotFound) <==> p !in fs
    ensures r.Ok? && r.value.statusCode == 200 <==> p in fs && fs[p].RegularFile?
    ensures r.Err? <==> p in fs && !fs[p].RegularFile?
    ensures p in fs && fs[p].RegularFile? ==> r == Ok(FileFound(fs[p].data))
  {
    if p !in fs then Ok(FileNotFound)
    else
      match fs[p]
      case RegularFile(data) => Ok(FileFound(data))
      case Directory => Err(HandlerError("read " + p + ": is a directory"))
      case Unopenable => Err(HandlerError("open " + p + ": permission denied"))
  }

  function UrlErrorText(e: Url.UrlError): string {
    match e
    case ControlCharacter => "net/url: invalid control character in URL"
    case MissingScheme => "missing protocol scheme"
    case ColonInFirstSegment => "first path segment in URL cannot contain colon"
    case InvalidEscape(at) => "invalid URL escape " + at
  }

  function FileHandler(dir: string, cwd: AbsPath, fs: FileSystem): Handler {
    (req: Request) => FileHandle(dir, cwd, fs, req.path)
  }

  /** Two file systems that agree on the served directory and everything
    * beneath it give every request the same answer: nothing outside the
    * directory can be read, whatever ".." or "//" the target holds. */
  lemma FileHandlerConfined(dir: string, cwd: AbsPath, fs1: FileSystem, fs2: FileSystem, target: string)
    requires forall p :: Within(p, Abs(dir, cwd)) ==> (p in fs1 <==> p in fs2)
    requires forall p :: Within(p, Abs(dir, cwd)) && p in fs1 && p in fs2 ==> fs1[p] == fs2[p]
    ensures FileHandle(dir, cwd, fs1, target) == FileHandle(dir, cwd, fs2, target)
  {
    match Url.Parse(target)
    case Err(_) =>
    case Ok(url) =>
      var p := Resolve(dir, cwd, url.path);
      ServePathConfined(Abs(dir, cwd), fs1, fs2, p);
  }

  lemma ServePathConfined(root: string, fs1: FileSystem, fs2: FileSystem, p: string)
    requires Within(p, root)
    requires forall p :: Within(p, root) ==> (p in fs1 <==> p in fs2)
    requires forall p :: Within(p, root) && p in fs1 && p in fs2 ==> fs1[p] == fs2[p]
    ensures ServePath(fs1, p) == ServePath(fs2, p)
  {
  }

  /** Whatever a 200 answer carries is the content of a regular file at or
    * beneath the served directory. */
  lemma ServedFileIsWithinRoot(dir: string, cwd: AbsPath, fs: FileSystem, target: string)
    requires FileHandle(dir, cwd, fs, target).Ok?
    requires FileHandle(dir, cwd, fs, target).value.statusCode == 200
    ensures exists p :: p in fs && Within(p, Abs(dir, cwd)) && fs[p] == RegularFile(FileHandle(dir, cwd, fs, target).value.body)
  {
    var p := Resolve(dir, cwd, Url.Parse(target).value.path);
    assert p in fs && Within(p, Abs(dir, cwd));
  }

  /** Appending a query to a target serves the same thing. */
  lemma FileHandlerIgnoresQuery(dir: string, cwd: AbsPath, fs: FileSystem, target: string, q: string)
    requires '?' !in target && '#' !in target && '#' !in q && !Url.HasControl(q)
    ensures FileHandle(dir, cwd, fs, target + "?" + q) == FileHandle(dir, cwd, fs, target)
  {
    Url.ParseIgnoresQuery(target, q);
  }

  /** Appending a well-formed fragment to a target serves the same thing. */
  lemma FileHandlerIgnoresFragment(dir: string, cwd: AbsPath, fs: FileSystem, target: string, f: string)
    requires '#' !in target && Url.WellEscaped(f)
    ensures FileHandle(dir, cwd, fs, target + "#" + f) == FileHandle(dir, cwd, fs, target)
  {
    Url.ParseFragment(target, f);
  }
}
