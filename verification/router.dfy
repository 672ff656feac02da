/** The server's router: an exact-match table plus an ordered list of
  * compiled patterns. The regular-expression engine is a parameter. */
module Router {
  import opened Wrappers
  import opened Strings

  /** What the router needs from a regular-expression engine: whether a
    * pattern compiles, and whether a compiled pattern matches a path. */
  datatype RegexEngine = RegexEngine(compiles: string -> bool, matches: (string, string) -> bool)

  /** The characters whose presence makes a route a candidate pattern. */
  const Metacharacters: string := "^$.*+?{}[]|()"

  predicate LooksLikePattern(route: string) {
    ContainsAny(route, Metacharacters)
  }

  /** A compiled pattern and its handler. */
  datatype CompiledPattern<H> = CompiledPattern(pattern: string, handler: H)

  /** Exact routes by path, and pattern routes in registration order. */
  datatype HTTPRouter<H> = HTTPRouter(handlers: map<string, H>, patterns: seq<CompiledPattern<H>>)

  function NewHTTPRouter<H>(): (r: HTTPRouter<H>)
    ensures r.handlers == map[] && r.patterns == []
  {
    HTTPRouter(map[], [])
  }

  /** A route is kept as a pattern exactly when it contains a metacharacter
    * and compiles; otherwise it is an exact route that replaces any earlier
    * handler for the same string. */
  function AddRoute<H>(r: HTTPRouter<H>, route: string, handler: H, re: RegexEngine): (r': HTTPRouter<H>)
    ensures (exists i :: 0 <= i < |route| && route[i] in Metacharacters) && re.compiles(route) ==>
              r'.handlers == r.handlers && r'.patterns == r.patterns + [CompiledPattern(route, handler)]
    ensures !(exists i :: 0 <= i < |route| && route[i] in Metacharacters) || !re.compiles(route) ==>
              r'.patterns == r.patterns && route in r'.handlers && r'.handlers[route] == handler
              && (forall k :: k != route ==>
                    (k in r'.handlers <==> k in r.handlers) && (k in r.handlers ==> r'.handlers[k] == r.handlers[k]))
  {
    if LooksLikePattern(route) && re.compiles(route) then
      r.(patterns := r.patterns + [CompiledPattern(route, handler)])
    else
      r.(handlers := r.handlers[route := handler])
  }

  /** Index of the first pattern, in registration order, that matches `path`. */
  function FirstMatch<H>(patterns: seq<CompiledPattern<H>>, path: string, re: RegexEngine): (m: Option<nat>)
    ensures m.Some? ==> m.value < |patterns| && re.matches(patterns[m.value].pattern, path)
                        && forall j :: 0 <= j < m.value ==> !re.matches(patterns[j].pattern, path)
    ensures m.None? <==> forall j :: 0 <= j < |patterns| ==> !re.matches(patterns[j].pattern, path)
  {
    if |patterns| == 0 then None
    else if re.matches(patterns[0].pattern, path) then Some(0)
    else
      var m := FirstMatch(patterns[1..], path, re);
      assert forall j :: 1 <= j < |patterns| ==> patterns[j] == patterns[1..][j - 1];
      match m
      case None => None
      case Some(i) => Some(i + 1)
  }

  /** An exact route always wins; otherwise the first matching pattern in
    * registration order; otherwise no handler. */
  function Match<H>(r: HTTPRouter<H>, path: string, re: RegexEngine): (m: Option<H>)
    ensures path in r.handlers ==> m == Some(r.handlers[path])
    ensures path !in r.handlers ==>
              (m.None? <==> forall j :: 0 <= j < |r.patterns| ==> !re.matches(r.patterns[j].pattern, path))
    ensures path !in r.handlers && m.Some? ==>
              exists i :: 0 <= i < |r.patterns| && re.matches(r.patterns[i].pattern, path)
                          && m.value == r.patterns[i].handler
                          && forall j :: 0 <= j < i ==> !re.matches(r.patterns[j].pattern, path)
  {
    if path in r.handlers then Some(r.handlers[path])
    else
      match FirstMatch(r.patterns, path, re)
      case None => None
      case Some(i) => Some(r.patterns[i].handler)
  }

  /** Registering an exact route makes it the answer for that path, whatever
    * patterns were registered before or are registered after. */
  lemma ExactRouteWins<H>(r: HTTPRouter<H>, route: string, h: H, later: seq<string>, laterHandlers: seq<H>, re: RegexEngine)
    requires !LooksLikePattern(route) || !re.compiles(route)
    requires |later| == |laterHandlers|
    requires forall i :: 0 <= i < |later| ==> later[i] != route
    ensures Match(AddAll(AddRoute(r, route, h, re), later, laterHandlers, re), route, re) == Some(h)
  {
    AddAllKeepsExact(AddRoute(r, route, h, re), later, laterHandlers, re, route);
  }

  /** Registers several routes in order. */
  function AddAll<H>(r: HTTPRouter<H>, routes: seq<string>, hs: seq<H>, re: RegexEngine): HTTPRouter<H>
    requires |routes| == |hs|
    decreases |routes|
  {
    if |routes| == 0 then r else AddAll(AddRoute(r, routes[0], hs[0], re), routes[1..], hs[1..], re)
  }

  lemma {:induction false} AddAllKeepsExact<H>(r: HTTPRouter<H>, routes: seq<string>, hs: seq<H>, re: RegexEngine, key: string)
    requires |routes| == |hs|
    requires key in r.handlers
    requires forall i :: 0 <= i < |routes| ==> routes[i] != key
    ensures key in AddAll(r, routes, hs, re).handlers
    ensures AddAll(r, routes, hs, re).handlers[key] == r.handlers[key]
    decreases |routes|
  {
    if |routes| > 0 {
      AddAllKeepsExact(AddRoute(r, routes[0], hs[0], re), routes[1..], hs[1..], re, key);
    }
  }

  /** A compiled pattern registered later never takes a path away from a
    * route that already matched it. */
  lemma LaterPatternNeverOverrides<H>(r: HTTPRouter<H>, route: string, h: H, path: string, re: RegexEngine)
    requires LooksLikePattern(route) && re.compiles(route)
    requires Match(r, path, re).Some?
    ensures Match(AddRoute(r, route, h, re), path, re) == Match(r, path, re)
  {
    var r' := AddRoute(r, route, h, re);
    if path !in r.handlers {
      FirstMatchExtends(r.patterns, CompiledPattern(route, h), path, re);
    }
  }

  /** Appending a pattern leaves an existing first match where it was. */
  lemma {:induction false} FirstMatchExtends<H>(ps: seq<CompiledPattern<H>>, q: CompiledPattern<H>, path: string, re: RegexEngine)
    requires FirstMatch(ps, path, re).Some?
    ensures FirstMatch(ps + [q], path, re) == FirstMatch(ps, path, re)
    decreases |ps|
  {
    assert (ps + [q])[0] == ps[0];
    if !re.matches(ps[0].pattern, path) {
      assert (ps + [q])[1..] == ps[1..] + [q];
      FirstMatchExtends(ps[1..], q, path, re);
    }
  }

  /** Registering an exact route changes the answer for that path only. */
  lemma ExactRouteIsLocal<H>(r: HTTPRouter<H>, route: string, h: H, path: string, re: RegexEngine)
    requires !LooksLikePattern(route) || !re.compiles(route)
    requires path != route
    ensures Match(AddRoute(r, route, h, re), path, re) == Match(r, path, re)
  {
  }

  /** A dot is a metacharacter, so a file name such as "/index.html" is kept
    * as a pattern whenever the engine compiles it. */
  lemma DotMakesPattern<H>(r: HTTPRouter<H>, h: H, re: RegexEngine)
    requires re.compiles("/index.html")
    ensures AddRoute(r, "/index.html", h, re).patterns == r.patterns + [CompiledPattern("/index.html", h)]
    ensures AddRoute(r, "/index.html", h, re).handlers == r.handlers
  {
    assert "/index.html"[6] == '.';
  }
}
