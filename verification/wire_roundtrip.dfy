/** What the request reader and the response writer promise each other: the
  * header block the writer emits is read back as the same map, and a request
  * laid out on the wire is parsed back into its parts. */
module WireRoundTrip {
  import opened Wrappers
  import opened Strings
  import opened Decimal
  import opened Http
  import opened Wire

  /** A header the wire format can carry unchanged: the name has no colon,
    * neither side has an LF, and neither side has surrounding whitespace
    * (the reader trims it). */
  predicate WellFormedHeader(h: (string, string)) {
    ':' !in h.0 && '\n' !in h.0 && '\n' !in h.1 && IsTrimmed(h.0) && IsTrimmed(h.1)
  }

  predicate AllWellFormed(hs: seq<(string, string)>) {
    forall i :: 0 <= i < |hs| ==> WellFormedHeader(hs[i])
  }

  /** The map obtained by applying the pairs as updates, first to last. */
  function Updates(acc: HeaderMap, hs: seq<(string, string)>): HeaderMap
    decreases |hs|
  {
    if |hs| == 0 then acc else Updates(acc[hs[0].0 := hs[0].1], hs[1..])
  }

  /** A key no pair mentions keeps its entry (or its absence). */
  lemma {:induction false} UpdatesUntouched(acc: HeaderMap, hs: seq<(string, string)>, k: string)
    requires forall j :: 0 <= j < |hs| ==> hs[j].0 != k
    ensures k in Updates(acc, hs) <==> k in acc
    ensures k in acc ==> Updates(acc, hs)[k] == acc[k]
    decreases |hs|
  {
    if |hs| > 0 {
      UpdatesUntouched(acc[hs[0].0 := hs[0].1], hs[1..], k);
    }
  }

  /** The last pair for a key decides its value: later duplicates win. */
  lemma {:induction false} UpdatesLastWins(acc: HeaderMap, hs: seq<(string, string)>, i: nat)
    requires i < |hs|
    requires forall j :: i < j < |hs| ==> hs[j].0 != hs[i].0
    ensures hs[i].0 in Updates(acc, hs) && Updates(acc, hs)[hs[i].0] == hs[i].1
    decreases |hs|
  {
    if i == 0 {
      UpdatesUntouched(acc[hs[0].0 := hs[0].1], hs[1..], hs[0].0);
    } else {
      UpdatesLastWins(acc[hs[0].0 := hs[0].1], hs[1..], i - 1);
    }
  }

  /** The keys after the updates are the old keys plus every key mentioned. */
  lemma {:induction false} UpdatesKeys(acc: HeaderMap, hs: seq<(string, string)>, k: string)
    ensures k in Updates(acc, hs) <==> k in acc || exists i :: 0 <= i < |hs| && hs[i].0 == k
    decreases |hs|
  {
    if |hs| > 0 {
      UpdatesKeys(acc[hs[0].0 := hs[0].1], hs[1..], k);
      if exists i :: 0 <= i < |hs[1..]| && hs[1..][i].0 == k {
        var i :| 0 <= i < |hs[1..]| && hs[1..][i].0 == k;
        assert hs[i + 1].0 == k;
      }
      if exists i :: 0 <= i < |hs| && hs[i].0 == k {
        var i :| 0 <= i < |hs| && hs[i].0 == k;
        if i > 0 {
          assert hs[1..][i - 1].0 == k;
        }
      }
    }
  }

  /** Replaying an enumeration of a map rebuilds exactly that map. */
  lemma EnumerationRebuildsMap(order: seq<(string, string)>, m: HeaderMap)
    requires Enumerates(order, m)
    ensures Updates(map[], order) == m
  {
    var u := Updates(map[], order);
    forall k
      ensures k in u <==> k in m
    {
      UpdatesKeys(map[], order, k);
    }
    forall k | k in m
      ensures u[k] == m[k]
    {
      var i :| 0 <= i < |order| && order[i].0 == k;
      UpdatesLastWins(map[], order, i);
    }
  }

  /** One written header line is read back as its name and value. */
  lemma ParseHeaderLineOf(h: (string, string))
    requires WellFormedHeader(h)
    ensures ParseHeaderLine(h.0 + ": " + h.1) == Some(h)
  {
    var (k, v) := h;
    var line := k + ": " + v;
    assert line[|k|] == ':' && line[..|k|] == k;
    assert IndexOf(line, ':') == Some(|k|);
    assert line[|k| + 1..] == " " + v;
    TrimSpaceOfTrimmed(k);
    TrimSpaceAfterSpaces(" ", v);
  }

  /** The reader consumes one written header line and applies it. */
  lemma ParseHeadersStep(h: (string, string), more: string, acc: HeaderMap)
    requires WellFormedHeader(h)
    ensures ParseHeaders(h.0 + ": " + h.1 + CRLF + more, acc) == ParseHeaders(more, acc[h.0 := h.1])
  {
    var line := h.0 + ": " + h.1;
    assert line[|h.0|] == ':';
    ReadLineOf(line + "\r", more);
    assert line + "\r" + "\n" + more == h.0 + ": " + h.1 + CRLF + more;
    assert line + "\r" + "\n" == line + CRLF;
    TrimRightCRLFOf(line, CRLF);
    ParseHeaderLineOf(h);
  }

  /** A non-blank line without a colon carries no header: the reader skips
    * it and goes on with the same map. */
  lemma ColonlessLineSkipped(line: string, more: string, acc: HeaderMap)
    requires |line| > 0 && ':' !in line && '\r' !in line && '\n' !in line
    ensures ParseHeaders(line + CRLF + more, acc) == ParseHeaders(more, acc)
  {
    ReadLineOf(line + "\r", more);
    assert line + "\r" + "\n" + more == line + CRLF + more;
    assert line + "\r" + "\n" == line + CRLF;
    TrimRightCRLFOf(line, CRLF);
    assert AddHeaderLine(acc, line) == acc;
  }

  /** The header block written for some pairs, then a blank line, is read
    * back as those pairs applied in order; the reader stops right after
    * the blank line. */
  lemma {:induction false} ParseHeadersOf(hs: seq<(string, string)>, acc: HeaderMap, rest: string)
    requires AllWellFormed(hs)
    ensures ParseHeaders(HeaderLines(hs) + CRLF + rest, acc) == Ok((Updates(acc, hs), rest))
    decreases |hs|
  {
    if |hs| == 0 {
      assert HeaderLines(hs) + CRLF + rest == "\r" + "\n" + rest;
      ReadLineOf("\r", rest);
      TrimRightCRLFOf("", CRLF);
    } else {
      var more := HeaderLines(hs[1..]) + CRLF + rest;
      assert HeaderLines(hs) + CRLF + rest == hs[0].0 + ": " + hs[0].1 + CRLF + more;
      ParseHeadersStep(hs[0], more, acc);
      ParseHeadersOf(hs[1..], acc[hs[0].0 := hs[0].1], rest);
    }
  }

  /** Header lines cut off before the blank line are a header-EOF error. */
  lemma {:induction false} TruncatedHeadersFail(hs: seq<(string, string)>, acc: HeaderMap, tail: string)
    requires AllWellFormed(hs)
    requires '\n' !in tail
    ensures ParseHeaders(HeaderLines(hs) + tail, acc) == Err(HeaderEOF)
    decreases |hs|
  {
    if |hs| > 0 {
      var more := HeaderLines(hs[1..]) + tail;
      assert HeaderLines(hs) + tail == hs[0].0 + ": " + hs[0].1 + CRLF + more;
      ParseHeadersStep(hs[0], more, acc);
      TruncatedHeadersFail(hs[1..], acc[hs[0].0 := hs[0].1], tail);
    } else {
      assert HeaderLines(hs) + tail == tail;
    }
  }

  /** What the response writer emits after the status line is read back by
    * the header reader as exactly the response's header map, followed by
    * exactly the payload. */
  lemma ResponseHeadRoundTrip(r: Response, order: seq<(string, string)>)
    requires Enumerates(order, HeadersOf(r))
    requires AllWellFormed(order)
    ensures var out := WriteResponse(r, order);
            ParseHeaders(out[|StatusLine(r)|..], map[]) == Ok((HeadersOf(r), Payload(r)))
  {
    var out := WriteResponse(r, order);
    assert out[|StatusLine(r)|..] == HeaderLines(order) + CRLF + Payload(r);
    ParseHeadersOf(order, map[], Payload(r));
    EnumerationRebuildsMap(order, HeadersOf(r));
  }

  /** A request laid out on the wire: request line, header lines, blank
    * line, body. */
  function RenderRequest(m: string, p: string, v: string, hs: seq<(string, string)>, body: string): string {
    m + " " + p + " " + v + CRLF + HeaderLines(hs) + CRLF + body
  }

  /** The request line of a rendered request is read back as its three parts. */
  lemma ParseStartLineOf(m: string, p: string, v: string)
    requires ' ' !in m && ' ' !in p && SupportedProtocol(v)
    ensures ParseStartLine(m + " " + p + " " + v + CRLF) == Ok((m, p, v))
  {
    var line := m + " " + p + " " + v;
    assert line[|line| - 1] == v[|v| - 1];
    TrimRightCRLFOf(line, CRLF);
    JoinThree(m, p, v, ' ');
    SplitJoin([m, p, v], ' ');
  }

  /** A body framed by its Content-Length is read back exactly. */
  lemma ParseBodyOf(headers: HeaderMap, body: string, rest: string)
    requires BodyFramed(headers, body)
    ensures ParseBody(headers, body + rest) == Ok((body, rest))
  {
    if "Content-Length" in headers {
      assert (body + rest)[..|body|] == body;
      assert (body + rest)[|body|..] == rest;
    } else {
      assert body + rest == rest;
    }
  }

  /** parseRequest is the composition of its four readers. */
  lemma ParseRequestOfSteps(input: string, raw: string, rest: string, m: string, p: string, v: string,
                            headers: HeaderMap, afterHeaders: string, body: string, remaining: string)
    requires ReadLine(input) == Some((raw, rest))
    requires ParseStartLine(raw) == Ok((m, p, v))
    requires ParseHeaders(rest, map[]) == Ok((headers, afterHeaders))
    requires ParseBody(headers, afterHeaders) == Ok((body, remaining))
    ensures ParseRequest(input) == Ok((Request(m, p, v, headers, body, ""), remaining))
  {
  }

  /** parseRequest reads back a well-formed request exactly, including a
    * header sent twice (the later value is kept) and a body framed by its
    * Content-Length, and leaves the rest of the stream untouched. */
  lemma ParseRequestRoundTrip(m: string, p: string, v: string, hs: seq<(string, string)>, body: string, rest: string)
    requires ' ' !in m && '\n' !in m && ' ' !in p && '\n' !in p && SupportedProtocol(v)
    requires AllWellFormed(hs)
    requires BodyFramed(Updates(map[], hs), body)
    ensures ParseRequest(RenderRequest(m, p, v, hs, body) + rest)
            == Ok((Request(m, p, v, Updates(map[], hs), body, ""), rest))
  {
    var line := m + " " + p + " " + v;
    var raw := line + CRLF;
    var after := HeaderLines(hs) + CRLF + (body + rest);
    var input := RenderRequest(m, p, v, hs, body) + rest;
    assert input == line + "\r" + "\n" + after;
    assert '\n' !in line + "\r";
    ReadLineOf(line + "\r", after);
    assert line + "\r" + "\n" == raw;
    assert ReadLine(input) == Some((raw, after));
    ParseStartLineOf(m, p, v);
    ParseHeadersOf(hs, map[], body + rest);
    ParseBodyOf(Updates(map[], hs), body, rest);
    ParseRequestOfSteps(input, raw, after, m, p, v, Updates(map[], hs), body + rest, body, rest);
  }
}
