/** Lexical path handling of Go's path/filepath on a Unix system: Clean,
  * Join and Abs, with the proof that the file handler's way of resolving a
  * request path can never leave the served directory. */
module FilePath {
  import opened Strings

  /** Starts at the root. */
  predicate IsAbs(p: string) {
    |p| > 0 && p[0] == '/'
  }

  /** An absolute path, as os.Getwd returns it. */
  type AbsPath = p: string | IsAbs(p) witness "/"

  /** A segment that survives cleaning a rooted path unchanged. */
  predicate NormalSegment(s: string) {
    s != "" && s != "." && s != ".." && '/' !in s
  }

  predicate AllNormal(segs: seq<string>) {
    forall i :: 0 <= i < |segs| ==> NormalSegment(segs[i])
  }

  /** One pass over the segments with a stack of kept ones: empty and "."
    * segments vanish; ".." removes the last kept segment, vanishes at the
    * root of a rooted path, and is kept when a relative path has nothing
    * left to remove. */
  function CleanSegments(stack: seq<string>, segs: seq<string>, rooted: bool): seq<string>
    decreases |segs|
  {
    if |segs| == 0 then stack
    else
      var s := segs[0];
      var stack' :=
        if s == "" || s == "." then stack
        else if s == ".." then
          (if |stack| > 0 && stack[|stack| - 1] != ".." then stack[..|stack| - 1]
           else if rooted then stack
           else stack + [".."])
        else stack + [s];
      CleanSegments(stack', segs[1..], rooted)
  }

  /** filepath.Clean: the shortest equivalent path by lexical processing;
    * "." when nothing remains of a relative path. */
  function Clean(p: string): (r: string)
    ensures IsAbs(p) ==> IsAbs(r)
    ensures |r| > 0
  {
    var rooted := IsAbs(p);
    var body := Join(CleanSegments([], Split(p, '/'), rooted), '/');
    if rooted then "/" + body
    else if body == "" then "."
    else body
  }

  /** filepath.Join: the non-empty elements joined by "/" and cleaned; only
    * leading empty elements are skipped. */
  function Join2(a: string, b: string): string {
    if a != "" then Clean(a + "/" + b)
    else if b != "" then Clean(b)
    else ""
  }

  /** filepath.Abs with the working directory passed in. */
  function Abs(p: string, cwd: AbsPath): string {
    if IsAbs(p) then Clean(p) else Join2(cwd, p)
  }

  /** `path` is `root` itself or lies beneath it. */
  predicate Within(path: string, root: string) {
    path == root || (if root == "/" then IsAbs(path) else root + "/" <= path)
  }

  // ------------------------------------------------------------ lemmas

  lemma {:induction false} JoinAppend(a: seq<string>, b: seq<string>, sep: char)
    requires |a| > 0 && |b| > 0
    ensures Join(a + b, sep) == Join(a, sep) + [sep] + Join(b, sep)
    decreases |a|
  {
    if |a| == 1 {
      assert (a + b)[1..] == b;
    } else {
      assert (a + b)[1..] == a[1..] + b;
      JoinAppend(a[1..], b, sep);
    }
  }

  /** Splitting at a separator placed between two strings splits each side. */
  lemma SplitConcat(a: string, b: string, sep: char)
    ensures Split(a + [sep] + b, sep) == Split(a, sep) + Split(b, sep)
  {
    var pa, pb := Split(a, sep), Split(b, sep);
    JoinAppend(pa, pb, sep);
    assert forall i :: 0 <= i < |pa + pb| ==> sep !in (pa + pb)[i] by {
      forall i | 0 <= i < |pa + pb|
        ensures sep !in (pa + pb)[i]
      {
        if i < |pa| { assert (pa + pb)[i] == pa[i]; } else { assert (pa + pb)[i] == pb[i - |pa|]; }
      }
    }
    SplitJoin(pa + pb, sep);
  }

  lemma {:induction false} CleanSegmentsAppend(stack: seq<string>, s1: seq<string>, s2: seq<string>, rooted: bool)
    ensures CleanSegments(stack, s1 + s2, rooted) == CleanSegments(CleanSegments(stack, s1, rooted), s2, rooted)
    decreases |s1|
  {
    if |s1| > 0 {
      assert (s1 + s2)[0] == s1[0];
      assert (s1 + s2)[1..] == s1[1..] + s2;
      var s := s1[0];
      var stack' :=
        if s == "" || s == "." then stack
        else if s == ".." then
          (if |stack| > 0 && stack[|stack| - 1] != ".." then stack[..|stack| - 1]
           else if rooted then stack
           else stack + [".."])
        else stack + [s];
      CleanSegmentsAppend(stack', s1[1..], s2, rooted);
    } else {
      assert s1 + s2 == s2;
    }
  }

  /** Cleaning a rooted path keeps only normal segments. */
  lemma {:induction false} CleanSegmentsNormal(stack: seq<string>, segs: seq<string>)
    requires AllNormal(stack)
    requires forall i :: 0 <= i < |segs| ==> '/' !in segs[i]
    ensures AllNormal(CleanSegments(stack, segs, true))
    decreases |segs|
  {
    if |segs| > 0 {
      var s := segs[0];
      var stack' :=
        if s == "" || s == "." then stack
        else if s == ".." then
          (if |stack| > 0 && stack[|stack| - 1] != ".." then stack[..|stack| - 1] else stack)
        else stack + [s];
      assert AllNormal(stack');
      CleanSegmentsNormal(stack', segs[1..]);
    }
  }

  /** Normal segments are pushed as they are. */
  lemma {:induction false} CleanSegmentsOfNormal(stack: seq<string>, segs: seq<string>, rooted: bool)
    requires AllNormal(segs)
    ensures CleanSegments(stack, segs, rooted) == stack + segs
    decreases |segs|
  {
    if |segs| > 0 {
      CleanSegmentsOfNormal(stack + [segs[0]], segs[1..], rooted);
      assert stack + [segs[0]] + segs[1..] == stack + segs;
    } else {
      assert stack + segs == stack;
    }
  }

  lemma SplitRootEmpty()
    ensures Split("/", '/') == ["", ""]
  {
    assert ["", ""][1..] == [""];
    assert Join(["", ""], '/') == "/";
    SplitJoin(["", ""], '/');
  }

  lemma SlashFree(segs: seq<string>)
    requires AllNormal(segs)
    ensures forall i :: 0 <= i < |[""] + segs| ==> '/' !in ([""] + segs)[i]
  {
    forall i | 0 <= i < |[""] + segs|
      ensures '/' !in ([""] + segs)[i]
    {
      if i > 0 { assert ([""] + segs)[i] == segs[i - 1]; }
    }
  }

  /** The pieces of "/" followed by normal segments joined with "/". */
  lemma SplitRooted(segs: seq<string>)
    requires AllNormal(segs)
    ensures |segs| == 0 ==> Split("/" + Join(segs, '/'), '/') == ["", ""]
    ensures |segs| > 0 ==> Split("/" + Join(segs, '/'), '/') == [""] + segs
  {
    if |segs| == 0 {
      assert "/" + Join(segs, '/') == "/";
      SplitRootEmpty();
    } else {
      SplitRootedNonEmpty(segs);
    }
  }

  lemma SplitRootedNonEmpty(segs: seq<string>)
    requires AllNormal(segs) && |segs| > 0
    ensures Split("/" + Join(segs, '/'), '/') == [""] + segs
  {
    JoinAppend([""], segs, '/');
    assert Join([""], '/') == "";
    assert "/" + Join(segs, '/') == Join([""] + segs, '/');
    SlashFree(segs);
    SplitJoin([""] + segs, '/');
  }

  /** Cleaning a rooted path whose segments are the normal `segs`. */
  lemma CleanSegmentsOfRooted(stack: seq<string>, segs: seq<string>)
    requires AllNormal(segs)
    ensures CleanSegments(stack, Split("/" + Join(segs, '/'), '/'), true) == stack + segs
  {
    SplitRooted(segs);
    if |segs| == 0 {
      assert CleanSegments(stack, ["", ""], true) == stack;
      assert stack + segs == stack;
    } else {
      CleanSegmentsOfNormal(stack, segs, true);
    }
  }

  /** The kept segments of a rooted path. */
  function RootedSegments(p: string): seq<string> {
    CleanSegments([], Split(p, '/'), true)
  }

  /** A cleaned rooted path is "/" followed by its normal segments. */
  lemma CleanRootedShape(p: string)
    requires IsAbs(p)
    ensures AllNormal(RootedSegments(p))
    ensures Clean(p) == "/" + Join(RootedSegments(p), '/')
  {
    CleanSegmentsNormal([], Split(p, '/'));
  }

  /** A rooted path made of normal segments is already clean. */
  lemma CleanOfNormal(segs: seq<string>)
    requires AllNormal(segs)
    ensures Clean("/" + Join(segs, '/')) == "/" + Join(segs, '/')
    ensures RootedSegments("/" + Join(segs, '/')) == segs
  {
    CleanSegmentsOfRooted([], segs);
    assert [] + segs == segs;
  }

  /** Cleaning a rooted path leaves no ".." segment, and cleaning it again
    * changes nothing. */
  lemma CleanRootedNoParent(p: string)
    requires IsAbs(p)
    ensures forall i :: 0 <= i < |RootedSegments(p)| ==> RootedSegments(p)[i] != ".."
    ensures Clean(Clean(p)) == Clean(p)
  {
    CleanRootedShape(p);
    CleanOfNormal(RootedSegments(p));
  }

  /** filepath.Abs always yields a clean absolute path. */
  lemma AbsIsCleanAbsolute(p: string, cwd: AbsPath)
    ensures IsAbs(Abs(p, cwd))
    ensures Clean(Abs(p, cwd)) == Abs(p, cwd)
  {
    if IsAbs(p) {
      CleanRootedNoParent(p);
    } else {
      CleanRootedNoParent(cwd + "/" + p);
    }
  }

  /** Joining a clean absolute base with a cleaned rooted path appends the
    * latter's segments to the base's. */
  lemma JoinCleanRooted(base: string, c: string)
    requires IsAbs(base) && Clean(base) == base
    requires IsAbs(c) && Clean(c) == c
    ensures Join2(base, c) == "/" + Join(RootedSegments(base) + RootedSegments(c), '/')
  {
    var lb, lc := RootedSegments(base), RootedSegments(c);
    CleanRootedShape(base);
    CleanRootedShape(c);
    var whole := base + "/" + c;
    SplitConcat(base, c, '/');
    CleanSegmentsAppend([], Split(base, '/'), Split(c, '/'), true);
    CleanSegmentsOfRooted(lb, lc);
    assert c == "/" + Join(lc, '/');
    assert IsAbs(whole);
    assert RootedSegments(whole) == lb + lc;
  }

  /** The resolved path is the base's segments followed by those that
    * survive cleaning the request path. */
  lemma ResolvedSegments(dir: string, cwd: AbsPath, p: string)
    ensures var base := Abs(dir, cwd);
            var lb, lc := RootedSegments(base), RootedSegments(Clean("/" + p));
            && AllNormal(lb) && AllNormal(lc)
            && base == "/" + Join(lb, '/')
            && Abs(Join2(base, Clean("/" + p)), cwd) == "/" + Join(lb + lc, '/')
  {
    var base := Abs(dir, cwd);
    AbsIsCleanAbsolute(dir, cwd);
    var c := Clean("/" + p);
    CleanRootedNoParent("/" + p);
    var lb, lc := RootedSegments(base), RootedSegments(c);
    CleanRootedShape(base);
    CleanRootedShape(c);
    JoinCleanRooted(base, c);
    AllNormalAppend(lb, lc);
    CleanOfNormal(lb + lc);
  }

  /** The file handler's resolution `Abs(Join(Abs(dir), Clean("/" + p)))`
    * always lands on the served directory or beneath it, whatever `p`
    * holds: "..", "//", "." and trailing slashes included. */
  lemma ResolveStaysWithinRoot(dir: string, cwd: AbsPath, p: string)
    ensures var base := Abs(dir, cwd);
            Within(Abs(Join2(base, Clean("/" + p)), cwd), base)
  {
    var base := Abs(dir, cwd);
    ResolvedSegments(dir, cwd, p);
    WithinOfSegments(RootedSegments(base), RootedSegments(Clean("/" + p)));
  }

  /** Appending segments to a rooted path stays beneath it. */
  lemma WithinOfSegments(lb: seq<string>, lc: seq<string>)
    ensures Within("/" + Join(lb + lc, '/'), "/" + Join(lb, '/'))
  {
    if |lc| == 0 {
      assert lb + lc == lb;
    } else if |lb| == 0 {
      assert lb + lc == lc;
    } else {
      JoinAppend(lb, lc, '/');
      var jb, jc := Join(lb, '/'), Join(lc, '/');
      assert "/" + Join(lb + lc, '/') == "/" + (jb + "/" + jc);
      assert "/" + (jb + "/" + jc) == ("/" + jb) + "/" + jc;
    }
  }

  lemma AllNormalAppend(a: seq<string>, b: seq<string>)
    requires AllNormal(a) && AllNormal(b)
    ensures AllNormal(a + b)
  {
    forall i | 0 <= i < |a + b|
      ensures NormalSegment((a + b)[i])
    {
      if i < |a| { assert (a + b)[i] == a[i]; } else { assert (a + b)[i] == b[i - |a|]; }
    }
  }
}
