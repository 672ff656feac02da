/** Wrapping a handler in a list of middlewares. The server package folds
  * the list from the back, so its first middleware is outermost; the
  * standalone program folds it from the front, so its last middleware is
  * outermost. */
module Chain {

  /** The handler wrapped by the middlewares, `mws[0]` outermost. */
  function Pipeline<H>(mws: seq<H -> H>, h: H): H
    decreases |mws|
  {
    if |mws| == 0 then h else mws[0](Pipeline(mws[1..], h))
  }

  /** The handler wrapped by the middlewares, `mws[|mws| - 1]` outermost. */
  function LastOutermost<H>(mws: seq<H -> H>, h: H): H
    decreases |mws|
  {
    if |mws| == 0 then h else mws[|mws| - 1](LastOutermost(mws[..|mws| - 1], h))
  }

  /** The loop of the server's handleRequest: last middleware applied first. */
  method BuildPipeline<H>(mws: seq<H -> H>, h: H) returns (p: H)
    ensures p == Pipeline(mws, h)
  {
    p := h;
    var i := |mws|;
    while i > 0
      invariant 0 <= i <= |mws|
      invariant p == Pipeline(mws[i..], h)
    {
      assert mws[i - 1..][1..] == mws[i..];
      p := mws[i - 1](p);
      i := i - 1;
    }
    assert mws[0..] == mws;
  }

  /** The loop of the standalone program's handleConnection: first
    * middleware applied first. */
  method BuildLastOutermost<H>(mws: seq<H -> H>, h: H) returns (p: H)
    ensures p == LastOutermost(mws, h)
  {
    p := h;
    var i := 0;
    while i < |mws|
      invariant 0 <= i <= |mws|
      invariant p == LastOutermost(mws[..i], h)
    {
      assert mws[..i + 1][..i] == mws[..i];
      p := mws[i](p);
      i := i + 1;
    }
    assert mws[..|mws|] == mws;
  }

  /** Wrapping in two lists is wrapping in their concatenation. */
  lemma {:induction false} PipelineAppend<H>(a: seq<H -> H>, b: seq<H -> H>, h: H)
    ensures Pipeline(a + b, h) == Pipeline(a, Pipeline(b, h))
    decreases |a|
  {
    if |a| == 0 {
      assert a + b == b;
    } else {
      assert (a + b)[1..] == a[1..] + b;
      PipelineAppend(a[1..], b, h);
    }
  }

  function Reverse<T>(s: seq<T>): (r: seq<T>)
    ensures |r| == |s|
    ensures forall i :: 0 <= i < |s| ==> r[i] == s[|s| - 1 - i]
    decreases |s|
  {
    if |s| == 0 then [] else [s[|s| - 1]] + Reverse(s[..|s| - 1])
  }

  /** The two folds differ exactly by the order of the list. */
  lemma {:induction false} LastOutermostIsReversedPipeline<H>(mws: seq<H -> H>, h: H)
    ensures LastOutermost(mws, h) == Pipeline(Reverse(mws), h)
    decreases |mws|
  {
    if |mws| > 0 {
      var front := mws[..|mws| - 1];
      LastOutermostIsReversedPipeline(front, h);
      assert Reverse(mws)[1..] == Reverse(front);
    }
  }
}
